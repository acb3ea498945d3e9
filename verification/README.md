# trip_kinematics robot core in Dafny

A functional model of the robot bookkeeping in `src/trip_kinematics/Robot.py`
from trip_kinematics: how a `Robot` is assembled from kinematic groups and
bare transformations, how actuated and virtual state is routed to and
collected from the groups, how the ancestor chain of an end-effector is
resolved, forward kinematics along that chain, the symbolic representation
of the chain, and the flattening between a solver vector and a virtual state
in `SimpleInvKinSolver`.

Modules, one per concern:

- `Errors` (errors.dfy): `Option`, `Result` and the exceptions the code raises,
  as an `Error` datatype.
- `Groups` (groups.dfy): transformations, kinematic groups as records (name,
  parent name, transformations, actuated state, virtual state), and the
  wrapping of a bare transformation into an open group.
- `Robots` (robot.dfy): the `Robot` record and its operations. It holds the
  group table (what `get_groups` returns), the table's insertion order, and the
  actuator and virtual registries. Construction, the state getters and setters,
  and the forwarding of mapping hints live here. A mutating method becomes a
  function returning an `Outcome`: the robot as the caller sees it afterwards,
  and the exception raised, if any. A method that raises halfway therefore
  shows what it had already changed.
- `Chains` (chains.dfy): the parent walk shared by `get_symbolic_rep` and
  `forward_kinematics`.
- `Kinematics` (kinematics.dfy): forward kinematics and `get_symbolic_rep`.
  Matrices are an abstract type `M`. The product and the identity are
  parameters, and the proofs assume only that they form a monoid.
- `Solver` (solver.dfy): `SimpleInvKinSolver`. The solver object, its start
  vector, the solver-vector/virtual-state flattening, `solve_virtual` and
  `solve_actuated`. The numerical solver is the parameter `nlp`.

KinematicGroup.py is not part of this model: a group is the record of what
the robot reads from it. Its setters, its mapping-hint hooks and its matrix
evaluation are parameters of the functions that call them (`apply`, `pass`,
`eval`, `symEval`).

## Model

| member | source | states |
|---|---|---|
| Groups.Wrap | src/trip_kinematics/Robot.py:31-37 | A bare transformation at index i > 0 becomes a singleton open group whose parent is the name of element i-1. At index 0 it becomes a root. A group element is kept unchanged. |
| Robots.RegisterNeverRebinds | src/trip_kinematics/Robot.py:43-50 | Because of the duplicate-key check, registering a group never rebinds a key: every earlier actuator and virtual registration survives unchanged, and every group of another name stays as it was. |
| Robots.RegisterWf | src/trip_kinematics/Robot.py:39-50 | Registering a group keeps the table order duplicate-free and both registries pointing into the table. |
| Robots.BuildAsWritten | src/trip_kinematics/Robot.py:24-50 | The constructor as written succeeds if and only if no two groups with virtual state share an actuated or virtual key. Its robot is well formed, its table holds every name under the last group carrying it, and its registries hold exactly the keys of the groups with virtual state, each mapped to the declaring group. |
| Robots.BuildGroups | src/trip_kinematics/Robot.py:29-50 | Construction registers the groups left to right and stops at the first conflict; a robot it returns is well formed. |
| Robots.BuildSucceedsIff | src/trip_kinematics/Robot.py:40-50 | Construction succeeds if and only if no two groups with virtual state share an actuated key or a virtual key. |
| Robots.BuildRegistry | src/trip_kinematics/Robot.py:40-50 | After construction each registry holds exactly the keys of the groups with virtual state, each mapped to the name of the group that declared it. |
| Robots.RegistryFree | src/trip_kinematics/Robot.py:43-49 | A key set is free in a registry exactly when no earlier group with virtual state declared one of those keys. |
| Robots.BuildTable | src/trip_kinematics/Robot.py:39 | After construction the table holds exactly the names of the list, each mapped to the last group carrying that name. |
| Robots.BuildOrder | src/trip_kinematics/Robot.py:39 | With distinct names, the table's order is the list's order of names. This is the order in which the getters visit the groups. |
| Robots.RepeatedNames | src/trip_kinematics/Robot.py:39 | The set of repeated group names is empty exactly when all names are distinct. |
| Robots.Build | src/trip_kinematics/Robot.py:39-50 | Corrected construction: a repeated group name is a conflict, and with distinct names it is exactly construction as written, so it rejects nothing else. |
| Robots.BuildRegistersEveryGroup | src/trip_kinematics/Robot.py:39-50 | After a checked construction, every group is in the table under its name and in list order. Each registry entry points to a group with virtual state that declares the key. Every key of such a group is registered to it, and groups without virtual state register nothing. |
| Robots.WrapLinksToPredecessor | src/trip_kinematics/Robot.py:31-37 | In the constructed robot, a wrapped transformation's chain is its predecessor's chain extended by itself. At index 0 its chain is itself alone. |
| Robots.ShadowedNamesakesAsWritten | src/trip_kinematics/Robot.py:39-50 | As written, two stateful groups with one name and disjoint keys construct without error. The first group's actuator stays registered but is missing from the table and from the actuated state. The corrected construction rejects the pair. |
| Robots.ShadowedGroupAsWritten | src/trip_kinematics/Robot.py:39-50 | A concrete two-leg robot that shows the same shadowing. |
| Robots.BuildNamesakes | src/trip_kinematics/Robot.py:39-50 | Registering two groups with the same name leaves one table entry, holding the later group, while the earlier group's keys keep their registration. |
| Robots.Union | src/trip_kinematics/Robot.py:105-111 | Merging maps in order holds every key of any of them, with the value from the last map that holds the key. |
| Robots.Aggregate | src/trip_kinematics/Robot.py:105-125 | Collecting one state from every group in table order holds exactly the keys some group has. A key's value comes from the last group in table order that holds it. |
| Robots.GetActuatedState | src/trip_kinematics/Robot.py:99-111 | The actuated state holds exactly the actuated keys of all groups. |
| Robots.GetVirtualState | src/trip_kinematics/Robot.py:113-125 | The virtual state holds exactly the virtual keys of all groups. |
| Robots.AggregateOfOwners | src/trip_kinematics/Robot.py:105-125 | When a registry agrees with the groups, the collected state has exactly the registered keys. Each value is the one held by the key's owner. |
| Robots.SoleHolder | src/trip_kinematics/Robot.py:40-50 | A registered key is held by its owner group and by no other group. |
| Robots.OwnerWins | src/trip_kinematics/Robot.py:105-125 | A key held by one group only is collected with that group's value. |
| Robots.VirtualStateIsUnionOfOwners | src/trip_kinematics/Robot.py:113-125 | For a robot whose registries agree with its groups, the virtual state is keyed by the virtual registry, and each value is the owner group's entry. |
| Robots.ActuatedStateIsUnionOfOwners | src/trip_kinematics/Robot.py:99-111 | The same for the actuated state and the actuator registry, for groups whose actuated state is empty unless they have virtual state. |
| Robots.Batch | src/trip_kinematics/Robot.py:90-94 | Partitioning an actuated state by owner puts every key, with its value, into its owner's batch and nowhere else. No batch is empty. |
| Robots.SetActuatedState | src/trip_kinematics/Robot.py:84-96 | An unknown actuator key raises before any group is touched, and the robot is unchanged. Otherwise each owning group receives exactly its own keys in one call, and every other group is unchanged. |
| Robots.Route | src/trip_kinematics/Robot.py:80-82 | Routing updates one key at a time raises exactly when some key is not registered, and keeps the table's names. |
| Robots.SetVirtualState | src/trip_kinematics/Robot.py:73-82 | The robot keeps its shape and well-formedness. Nothing is raised exactly when every updated key is registered. |
| Robots.RouteFrame | src/trip_kinematics/Robot.py:80-82 | A group owning none of the updated keys is unchanged by routing. |
| Robots.RouteSequential | src/trip_kinematics/Robot.py:80-82 | Routing a concatenation equals routing the first part, then the second part from the result. |
| Robots.RouteStopsAtUnknown | src/trip_kinematics/Robot.py:80-82 | The first unregistered key raises. The updates before it have already been applied, and none after it is. |
| Robots.SetVirtualStateFrame | src/trip_kinematics/Robot.py:73-82 | `set_virtual_state` leaves a group owning none of the updated keys as it was. |
| Robots.SetVirtualStateStopsAtUnknown | src/trip_kinematics/Robot.py:73-82 | `set_virtual_state` is not atomic: on an unknown key the robot is left as the updates before it made it. |
| Robots.SetVirtualStateOneKey | src/trip_kinematics/Robot.py:81-82 | One registered update reaches its owner as a one-entry virtual state, and nothing else changes. |
| Robots.PassHints | src/trip_kinematics/Robot.py:61-64 | Forwarding hints keeps the table's names. It raises exactly when some hint names an unknown group. |
| Robots.PassGroupArg | src/trip_kinematics/Robot.py:60-70 | Both hint-forwarding methods keep the robot's shape. They raise exactly when a hint names an unknown group. |
| Robots.PassHintsRaises | src/trip_kinematics/Robot.py:61-63 | The first hint naming an unknown group is the one reported. |
| Robots.PassHintsSequential | src/trip_kinematics/Robot.py:60-70 | Hints are passed one at a time: a batch that raises nothing leaves the table from which the next batch goes on. |
| Robots.PassHintsStopsAtUnknown | src/trip_kinematics/Robot.py:60-70 | The first hint naming an unknown group raises. Every earlier hint has been passed and no later one is. |
| Robots.PassGroupArgStopsAtUnknown | src/trip_kinematics/Robot.py:60-70 | The same for the robot: the error names the first unknown group, and the robot is as the earlier hints left it. |
| Robots.PassHintsDelivers | src/trip_kinematics/Robot.py:61-64 | Every hint reached before any error is delivered to its group's mapping function. |
| Robots.PassHintsFrame | src/trip_kinematics/Robot.py:61-64 | A group no hint names is unchanged. |
| Chains.Reverse | src/trip_kinematics/Robot.py:161 | Reversal puts element i at position n-1-i. |
| Chains.ReverseReverse | src/trip_kinematics/Robot.py:161 | Reversing twice gives the original path. |
| Chains.Walk | src/trip_kinematics/Robot.py:150-159 | The bounded parent walk returns a path that starts at the end-effector and has at most fuel+1 names. It fails only with a topology error or an unknown parent. |
| Chains.WalkUnknownParent | src/trip_kinematics/Robot.py:150-159 | An unknown-parent error names the first name of the unbounded parent walk that is missing from the table. Every name before it is a known group that is not a root. |
| Chains.WalkIsChain | src/trip_kinematics/Robot.py:151-161 | A successful walk, reversed, is a chain: it starts at a root, ends at the end-effector, and each name is the parent of the next. |
| Chains.WalkAlongChain | src/trip_kinematics/Robot.py:274-280 | Conversely, along any chain the walk succeeds with exactly that chain, reversed. |
| Chains.ResolveChain | src/trip_kinematics/Robot.py:147-161 | An unknown end-effector raises. Otherwise a result is a chain to the end-effector, and a failure is a cycle or an unknown parent. |
| Chains.ResolveChainIff | src/trip_kinematics/Robot.py:150-161 | Resolution returns c if and only if c is a chain to the end-effector. Chains are unique. |
| Chains.ResolveChainStep | src/trip_kinematics/Robot.py:155-159 | The chain of a non-root group is its parent's chain extended by the group. |
| Chains.WalkTopologyIff | src/trip_kinematics/Robot.py:155-159 | The walk runs out of fuel exactly when the first fuel+1 names of the unbounded walk are all non-roots and the next is a known group. |
| Chains.CycleForever | src/trip_kinematics/Robot.py:155-159 | With fuel of at least the group count, running out of fuel means the unbounded loop never reaches a root. |
| Chains.TopologyMeansCycle | src/trip_kinematics/Robot.py:155-159 | A topology error from resolution means the loop in the code never terminates. |
| Chains.WalkMonotone | src/trip_kinematics/Robot.py:155-159 | More fuel never changes a walk that did not run out of fuel. |
| Chains.WalkFuelSuffices | src/trip_kinematics/Robot.py:155-159 | Fuel beyond the group count changes nothing. |
| Kinematics.Compose | src/trip_kinematics/Robot.py:281-284 | The running matrix is multiplied by the first matrix and the accumulation goes on from there, as each pass of the loop does. |
| Kinematics.ComposeIsProduct | src/trip_kinematics/Robot.py:266-284 | Multiplying onto a running matrix that starts at the identity gives the monoid product of the matrices. |
| Kinematics.ForwardKinematics | src/trip_kinematics/Robot.py:257-285 | An unknown end-effector raises. A result exists exactly when a chain to the end-effector exists, and failures are cycles or unknown parents. |
| Kinematics.ChainExistsIff | src/trip_kinematics/Robot.py:150-161 | Resolution succeeds exactly when some chain to the end-effector exists. |
| Kinematics.ForwardIsChainProduct | src/trip_kinematics/Robot.py:280-285 | Forward kinematics is the product of the group matrices along the chain, root first. |
| Kinematics.ForwardRoot | src/trip_kinematics/Robot.py:270-285 | For a root, forward kinematics is its own matrix. |
| Kinematics.ForwardStep | src/trip_kinematics/Robot.py:274-285 | For a non-root, forward kinematics is the parent's result times the group's matrix. |
| Kinematics.ChainTrafos | src/trip_kinematics/Robot.py:162-164 | The transformations visited are exactly those of the groups on the chain. |
| Kinematics.KeysOf | src/trip_kinematics/Robot.py:166-174 | The symbolic keys are exactly the (transformation, parameter) pairs of the visited transformations' state. |
| Kinematics.GetSymbolicRep | src/trip_kinematics/Robot.py:141-185 | Same error behaviour as forward kinematics. One symbol per key, named after the key. |
| Kinematics.OpenGroupKeys | src/trip_kinematics/Robot.py:34-37 | A wrapped transformation has virtual state exactly when it has symbolic keys, and its keys are exactly its group's virtual parameters. |
| Kinematics.SymbolicKeysAlongChain | src/trip_kinematics/Robot.py:162-174 | Along a chain, the keys are those of the chain's transformations, in chain order. |
| Kinematics.KeyInChain | src/trip_kinematics/Robot.py:162-174 | A key is listed if and only if some group on the chain has a transformation with that state parameter. |
| Kinematics.SymbolicMatchesForward | src/trip_kinematics/Robot.py:177-178 | When each group matrix is the product of its transformations' matrices, the symbolic matrix equals forward kinematics, and both fail alike. |
| Kinematics.ProductAlongChain | src/trip_kinematics/Robot.py:162-178 | The product over all transformations on a chain equals the product over the chain's group matrices. |
| Solver.Put | src/trip_kinematics/Robot.py:244-247 | Storing one value creates the outer entry when missing and changes no other entry. |
| Solver.Fill | src/trip_kinematics/Robot.py:241-247 | Storing a vector along the key list holds exactly the listed keys and outer names. Each key has its last value. |
| Solver.SolverToVirtual | src/trip_kinematics/Robot.py:231-248 | A vector longer than the key list raises an index error. Otherwise the state holds exactly the keys among the first `len(x)` entries of the list, and a key's value is the vector entry at its last position among them. |
| Solver.VirtualToSolver | src/trip_kinematics/Robot.py:250-254 | Reading a state along the key list succeeds exactly when every key is present. The result is one value per key, and a failure names the first missing key. |
| Solver.SolverRoundTrip | src/trip_kinematics/Robot.py:231-254 | For distinct keys and a vector of matching length, storing then reading gives the vector back. |
| Solver.VirtualRoundTrip | src/trip_kinematics/Robot.py:231-254 | Reading then storing a state gives the state restricted to the solver's keys. |
| Solver.NewSolver | src/trip_kinematics/Robot.py:192-199 | A solver is built for an end-effector exactly when its symbolic representation exists. It keeps the robot as a value and the representation of that robot. |
| Solver.StartVector | src/trip_kinematics/Robot.py:213-216 | Without a guess the start is all zeros, one per key. With a guess it is the guess read along the keys, which always has one value per key. |
| Solver.SolveVirtual | src/trip_kinematics/Robot.py:212-220 | The arity guard never fires. A guess missing a key raises a lookup error. Whenever the start vector can be formed (zeros without a guess, otherwise the guess read along the keys), the result is the solver's answer from that start, stored along the keys. |
| Solver.SolveVirtualWarmStart | src/trip_kinematics/Robot.py:212-220 | Started from a state the solver does not move, solving returns that state restricted to the keys. |
| Solver.SolveVirtualCold | src/trip_kinematics/Robot.py:212-220 | Without a guess, and when the solver's answer has one value per key, solving succeeds and reading back gives exactly that answer. |
| Solver.TrafoOrder | src/trip_kinematics/Robot.py:244-245 | The outer names of a solved state, each once, in first-occurrence order of the keys: a name listed before another has a key before every key of the other. This is the order in which `set_virtual_state` later visits them. |
| Solver.Updates | src/trip_kinematics/Robot.py:80-82 | The solved state as a list of distinct updates, covering exactly its names that occur in the given order. Each update carries the state's value, and the list follows that order: an earlier update names a transformation listed earlier. |
| Solver.UpdatesCover | src/trip_kinematics/Robot.py:80-82 | The updates use only registered keys exactly when the state does. |
| Solver.ApplySolution | src/trip_kinematics/Robot.py:227-229 | Applying a solved state succeeds exactly when all its names are registered virtual keys. The result is then the robot's new actuated state. The robot it leaves is `set_virtual_state` applied to the solved state's updates in key order, so an unknown name raises only after the names listed before it were applied. The error is the one `set_virtual_state` raises. |
| Solver.ApplySolutionFirstUnknown | src/trip_kinematics/Robot.py:80-82 | A failed application reports the first solved transformation, in key order, that is not a registered virtual key. The robot is as the names before it left it. |
| Solver.ApplySolutionFrame | src/trip_kinematics/Robot.py:227 | A group that owns no name of the solved state keeps its record. |
| Solver.Actuate | src/trip_kinematics/Robot.py:224-229 | After the solve: the hints are forwarded if given, then the solved state is applied. This succeeds exactly when every hint names a known group and every solved name is a registered virtual key, and it yields the robot's new actuated state. The robot it leaves is the hint step's robot if that step raised. Otherwise it is that robot with the solved state applied, so the hints always go first. |
| Solver.ActuateFrame | src/trip_kinematics/Robot.py:224-227 | A group that no hint names and that owns no solved name comes out unchanged. |
| Solver.SolveActuated | src/trip_kinematics/Robot.py:222-229 | A failed solve leaves the solver as it was. It succeeds exactly when the solve succeeds, every hint names a known group and every solved name is a registered virtual key. The result is the actuated state of the robot the solver keeps. After a successful solve, the kept robot and the result are exactly those of passing the hints and then applying the solved state. |

## Left out

- The numerical solver (CasADi `nlpsol` with IPOPT, the objective at Robot.py:201-209) is the uninterpreted parameter `nlp` of `SolveVirtual`. The orientation flag is not modelled: with `orientation=True` the constructor (Robot.py:201-210) never assigns `inv_kin_solver`, so every solve that reaches Robot.py:219 raises `AttributeError`. A guess that lacks a key still raises `KeyError` first, at Robot.py:216.
- The symbolic matrix entries (`SX.sym`, `SX.zeros`, the element-wise copy at Robot.py:180-183) and `identity_transformation`: matrices are an abstract monoid, and symbols are their names. Names can collide (`Key("a_b", "c")` and `Key("a", "b_c")` both give `a_b_c`) where CasADi symbols stay distinct objects, so the model states nothing that depends on names being unique.
- `deepcopy` and `update_robot` (Robot.py:196-199): the model has value semantics, so the solver's robot is always its own copy. The solver keeps the robot the later calls leave.
- The `print` warning when a transformation is wrapped (Robot.py:32): output only.
- `Groups.OpenGroup`: the group class is not part of this model. A wrapped transformation is assumed to have its state as the group's virtual state, under the transformation's name, and the same map as actuated state.
- Group setters, mapping-hint hooks and matrix evaluation are parameters (`apply`, `pass`, `eval`, `symEval`), since they belong to the group class.
- Kinematics.GetSymbolicRep is a pure function. At Robot.py:171-172 the code writes each `SX.sym` into the dictionary that `get_state()` returns. If that dictionary is the transformation's live state (`Transformation.get_state` is not part of this model), the caller's robot is left with symbolic state values. The solver makes this call at Robot.py:194, before its `deepcopy` at Robot.py:199. The model does not show this possible write-back.
- Robots.SetActuatedState, Robots.Route, Robots.SetVirtualState, Robots.PassHints, Robots.PassGroupArg, Solver.ApplySolution, Solver.Actuate, Solver.SolveActuated: the group calls (`apply`, `pass`) are assumed never to raise. In the code a group's setter or mapping function can raise, for example on a key it does not declare. Nothing at Robot.py:64, 70, 82 or 96 catches that, so the exception propagates with the earlier groups already updated. The "raises exactly when" clauses of these members cover only the robot's own lookup errors.
- Groups given as groups (not bare transformations): how their transformations relate to their virtual state belongs to the group class and is not modelled. For wrapped transformations, `Kinematics.OpenGroupKeys` states it. A transformation's parameter list and state are one dictionary in the code; the `Trafo` type requires them to agree.
- Chains.Walk: the loop at Robot.py:155-159 and 274-278 has no bound and never ends on a parent cycle. The model walks with fuel equal to the group count and returns a topology error instead. This is a deliberate strengthening; `Chains.TopologyMeansCycle` shows it is returned only where the code would loop forever.
- Error payloads: exceptions are constructors of `Error` carrying the offending names, not the exception messages.
- Robots.SetActuatedState: the code raises on the first unknown key in the dictionary's iteration order. The model's state is an unordered map, so it reports the set of unknown keys.
- Robots.GetActuatedState and Robots.GetVirtualState state only which keys they return. Their values and precedence are stated on `Robots.Aggregate` and on the two `StateIsUnionOfOwners` lemmas.
- The `actuated_group != None` test at Robot.py:108 is not modelled: a group's actuated state is always a map.
- Input dictionaries that the code iterates (updates, hints) are sequences of distinct-keyed pairs in iteration order.
- The example robots in src/examples/triped.py and src/trip_robots/triped.py are configuration and numerical mappings, not part of the engine.
- Wrong-arity initial guesses: the guard at Robot.py:217-218 can never fire, because reading a guess yields one value per key or raises a lookup error. So the `RuntimeError` "The initial state has … values, while the solver expected …" at Robot.py:218 is never raised. The model follows the code, and `Solver.SolveVirtual` proves the guard dead.

## Findings

| source | as written | input that shows it | evidently intended | confidence | as-written member | corrected member |
|---|---|---|---|---|---|---|
| src/trip_kinematics/Robot.py:39-50 | `_group_dict[str(group)] = group` overwrites an earlier group of the same name without any check. Only actuator and virtual keys are checked for duplicates. | Two stateful groups both named `leg`, with disjoint keys (actuator `motor` in the first). Construction succeeds, and `motor` stays registered to `leg`, but no group in the table has it, so it is absent from `get_actuated_state` and `set_actuated_state` delivers `motor` to the later group, which does not declare it: that group's setter ignores it or raises, and the model, whose group calls never raise, shows only the delivery. | Group names are unique, like keys: a repeated name is a naming conflict. | not executed | Robots.ShadowedNamesakesAsWritten | Robots.Build |
