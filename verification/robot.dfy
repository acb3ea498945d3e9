/** The robot: a name-indexed table of kinematic groups plus two registries
    that say which group owns each actuator key and each virtual key. */
module Robots {
  import opened Errors
  import opened Groups
  import opened Chains

  /** `order` is the insertion order of the group table's names. */
  datatype Robot = Robot(
    order: seq<Name>,
    groups: map<Name, Group>,
    actuatorOwner: map<Name, Name>,
    virtualOwner: map<Name, Name>)

  /** A mutating operation's effect: the robot as the caller sees it
      afterwards, and the exception raised, if any. */
  datatype Outcome = Outcome(after: Robot, raised: Option<Error>)

  /** An auxiliary value forwarded to a group's mapping functions. */
  type Hint = map<Name, real>

  /** The two mapping functions of a group a hint can be meant for. */
  datatype Mapping = VirtualToActuated | ActuatedToVirtual

  /** What construction establishes and every mutation keeps: the order
      lists each table name once, and both registries point into the table. */
  ghost predicate Wf(r: Robot) {
    && (forall i, j :: 0 <= i < j < |r.order| ==> r.order[i] != r.order[j])
    && (forall n :: n in r.order <==> n in r.groups)
    && (forall k :: k in r.actuatorOwner ==> r.actuatorOwner[k] in r.groups)
    && (forall k :: k in r.virtualOwner ==> r.virtualOwner[k] in r.groups)
  }

  /** `r'` differs from `r` at most in the records of its groups. */
  ghost predicate SameShape(r: Robot, r': Robot) {
    && r'.order == r.order
    && r'.groups.Keys == r.groups.Keys
    && r'.actuatorOwner == r.actuatorOwner
    && r'.virtualOwner == r.virtualOwner
  }

  lemma SameShapeWf(r: Robot, r': Robot)
    requires Wf(r) && SameShape(r, r')
    ensures Wf(r')
  {
    assert forall n :: n in r'.groups <==> n in r.groups;
  }

  /** The pairs of `s` have distinct first components, as the keys of a
      dictionary do. */
  ghost predicate DistinctKeys<X>(s: seq<(Name, X)>) {
    forall i, j :: 0 <= i < j < |s| ==> s[i].0 != s[j].0
  }

  // ---------------------------------------------------------------------
  // Construction

  const Empty := Robot([], map[], map[], map[])

  /** Every key of `keys` registered to group `n`. */
  function OwnedAs(keys: set<Name>, n: Name): (m: map<Name, Name>)
    ensures m.Keys == keys && forall k :: k in m ==> m[k] == n
  {
    map k | k in keys :: n
  }

  /** The naming check means registration never rebinds: every key
      registered before stays registered to the same group, and every other
      group stays as it was. */
  lemma RegisterNeverRebinds(r: Robot, g: Group)
    requires Wf(r) && Register(r, g).Ok?
    ensures var r' := Register(r, g).value;
      && (forall k :: k in r.actuatorOwner ==> k in r'.actuatorOwner && r'.actuatorOwner[k] == r.actuatorOwner[k])
      && (forall k :: k in r.virtualOwner ==> k in r'.virtualOwner && r'.virtualOwner[k] == r.virtualOwner[k])
      && (forall n :: n in r.groups && n != g.name ==> n in r'.groups && r'.groups[n] == r.groups[n])
  {
  }

  /** Adds one group: it always enters the table under its name (replacing
      an earlier group of that name), and when its virtual state is
      non-empty its actuator keys, then its virtual keys, are registered to
      it; a key some earlier group registered is a naming conflict. */
  function Register(r: Robot, g: Group): (res: Result<Robot>)
    requires Wf(r)
    ensures res.Ok? <==> !g.Stateful() || (g.actuated.Keys !! r.actuatorOwner.Keys && g.virtual.Keys !! r.virtualOwner.Keys)
    ensures res.Err? && !(g.actuated.Keys !! r.actuatorOwner.Keys) ==>
      res.error == ActuatorConflict(g.name, g.actuated.Keys * r.actuatorOwner.Keys)
    ensures res.Err? && g.actuated.Keys !! r.actuatorOwner.Keys ==>
      res.error == VirtualConflict(g.name, g.virtual.Keys * r.virtualOwner.Keys)
    ensures res.Ok? ==>
      && res.value.groups == r.groups[g.name := g]
      && res.value.order == (if g.name in r.groups then r.order else r.order + [g.name])
      && res.value.actuatorOwner == (if g.Stateful() then r.actuatorOwner + OwnedAs(g.actuated.Keys, g.name) else r.actuatorOwner)
      && res.value.virtualOwner == (if g.Stateful() then r.virtualOwner + OwnedAs(g.virtual.Keys, g.name) else r.virtualOwner)
  {
    var order := if g.name in r.groups then r.order else r.order + [g.name];
    var r1 := r.(order := order, groups := r.groups[g.name := g]);
    if !g.Stateful() then
      Ok(r1)
    else if !(g.actuated.Keys !! r.actuatorOwner.Keys) then
      Err(ActuatorConflict(g.name, g.actuated.Keys * r.actuatorOwner.Keys))
    else if !(g.virtual.Keys !! r.virtualOwner.Keys) then
      Err(VirtualConflict(g.name, g.virtual.Keys * r.virtualOwner.Keys))
    else
      Ok(r1.(actuatorOwner := r.actuatorOwner + OwnedAs(g.actuated.Keys, g.name),
             virtualOwner := r.virtualOwner + OwnedAs(g.virtual.Keys, g.name)))
  }

  lemma RegisterWf(r: Robot, g: Group)
    requires Wf(r)
    ensures Register(r, g).Ok? ==> Wf(Register(r, g).value)
  {
    if Register(r, g).Ok? {
      var r' := Register(r, g).value;
      RegisterOrder(r.order, r.groups, g);
      OwnersInto(r.actuatorOwner, r.groups, g, g.actuated.Keys);
      OwnersInto(r.virtualOwner, r.groups, g, g.virtual.Keys);
    }
  }

  lemma RegisterOrder(order: seq<Name>, groups: map<Name, Group>, g: Group)
    requires forall i, j :: 0 <= i < j < |order| ==> order[i] != order[j]
    requires forall n :: n in order <==> n in groups
    ensures var order' := if g.name in groups then order else order + [g.name];
      && (forall i, j :: 0 <= i < j < |order'| ==> order'[i] != order'[j])
      && (forall n :: n in order' <==> n in groups[g.name := g])
  {
  }

  lemma OwnersInto(owner: map<Name, Name>, groups: map<Name, Group>, g: Group, keys: set<Name>)
    requires forall k :: k in owner ==> owner[k] in groups
    ensures forall k :: k in owner ==> owner[k] in groups[g.name := g]
    ensures var owner' := owner + OwnedAs(keys, g.name);
      forall k :: k in owner' ==> owner'[k] in groups[g.name := g]
  {
  }

  /** Registers the groups in list order, stopping at the first conflict. */
  function BuildGroups(gs: seq<Group>): (res: Result<Robot>)
    ensures res.Ok? ==> Wf(res.value)
    decreases |gs|
  {
    if gs == [] then
      Ok(Empty)
    else
      var r :- BuildGroups(gs[..|gs| - 1]);
      RegisterWf(r, gs[|gs| - 1]);
      Register(r, gs[|gs| - 1])
  }

  /** The constructor as Robot.py writes it: bare transformations are
      wrapped, then every group is registered. Group names are not checked. */
  function BuildAsWritten(chain: seq<Element>): (res: Result<Robot>)
    ensures res.Ok? <==> KeysDisjoint(Normalize(chain))
    ensures res.Ok? ==>
      && Wf(res.value)
      && TableOf(Normalize(chain), res.value.groups)
      && Registry(Normalize(chain), res.value)
  {
    var gs := Normalize(chain);
    BuildSucceedsIff(gs);
    var res := BuildGroups(gs);
    if res.Ok? then
      BuildTable(gs);
      BuildRegistry(gs);
      res
    else
      res
  }

  ghost predicate DistinctNames(gs: seq<Group>) {
    forall i, j :: 0 <= i < j < |gs| ==> gs[i].name != gs[j].name
  }

  /** The names that more than one group of `gs` carries. */
  function RepeatedNames(gs: seq<Group>): (dups: set<Name>)
    ensures dups == {} <==> DistinctNames(gs)
  {
    var dups := set i, j | 0 <= i < j < |gs| && gs[i].name == gs[j].name :: gs[i].name;
    assert !DistinctNames(gs) ==> dups != {} by {
      if !DistinctNames(gs) {
        var i, j :| 0 <= i < j < |gs| && gs[i].name == gs[j].name;
        assert gs[i].name in dups;
      }
    }
    dups
  }

  /** The constructor with the group-name check it evidently intends: a
      repeated group name is a naming conflict too. */
  function Build(chain: seq<Element>): (res: Result<Robot>)
    ensures res.Ok? ==> DistinctNames(Normalize(chain)) && res == BuildAsWritten(chain)
    ensures !DistinctNames(Normalize(chain)) ==> res.Err? && res.error.GroupConflict?
    ensures DistinctNames(Normalize(chain)) ==> res == BuildAsWritten(chain)
  {
    var gs := Normalize(chain);
    var dups := RepeatedNames(gs);
    if dups != {} then Err(GroupConflict(dups)) else BuildGroups(gs)
  }

  /** No key is registered by two groups with non-empty virtual state. */
  ghost predicate KeysDisjoint(gs: seq<Group>) {
    forall i, j :: 0 <= i < j < |gs| && gs[i].Stateful() && gs[j].Stateful() ==>
      gs[i].actuated.Keys !! gs[j].actuated.Keys && gs[i].virtual.Keys !! gs[j].virtual.Keys
  }

  /** `owner` holds exactly the keys `pick` finds in the groups of `gs`
      with non-empty virtual state, each mapped to its group's name. */
  ghost predicate RegistryOf<V>(gs: seq<Group>, owner: map<Name, Name>, pick: Group -> map<Name, V>) {
    && (forall k :: k in owner <==> exists i :: 0 <= i < |gs| && gs[i].Stateful() && k in pick(gs[i]))
    && (forall i, k :: 0 <= i < |gs| && gs[i].Stateful() && k in pick(gs[i]) ==> owner[k] == gs[i].name)
  }

  /** The registries of `r` are those of the groups `gs`. */
  ghost predicate Registry(gs: seq<Group>, r: Robot) {
    RegistryOf(gs, r.actuatorOwner, ActuatedOf) && RegistryOf(gs, r.virtualOwner, VirtualOf)
  }

  /** The registry `owner` extended by group `g`, as registration extends it. */
  function Extend<V>(owner: map<Name, Name>, g: Group, pick: Group -> map<Name, V>): map<Name, Name> {
    if g.Stateful() then owner + OwnedAs(pick(g).Keys, g.name) else owner
  }

  lemma RegistryOfStep<V>(front: seq<Group>, g: Group, owner: map<Name, Name>, pick: Group -> map<Name, V>)
    requires RegistryOf(front, owner, pick)
    requires g.Stateful() ==> pick(g).Keys !! owner.Keys
    ensures RegistryOf(front + [g], Extend(owner, g, pick), pick)
  {
    RegistryKeysStep(front, g, owner, pick);
    RegistryNamesStep(front, g, owner, pick);
  }

  lemma RegistryKeysStep<V>(front: seq<Group>, g: Group, owner: map<Name, Name>, pick: Group -> map<Name, V>)
    requires RegistryOf(front, owner, pick)
    ensures var gs := front + [g];
      forall k :: k in Extend(owner, g, pick) <==> exists i :: 0 <= i < |gs| && gs[i].Stateful() && k in pick(gs[i])
  {
    var gs := front + [g];
    var owner' := Extend(owner, g, pick);
    assert forall i :: 0 <= i < |front| ==> gs[i] == front[i];
    assert gs[|front|] == g;
    forall k | k in owner' ensures exists i :: 0 <= i < |gs| && gs[i].Stateful() && k in pick(gs[i]) {
      if k in owner {
        var i :| 0 <= i < |front| && front[i].Stateful() && k in pick(front[i]);
        assert gs[i] == front[i];
      }
    }
  }

  lemma RegistryNamesStep<V>(front: seq<Group>, g: Group, owner: map<Name, Name>, pick: Group -> map<Name, V>)
    requires RegistryOf(front, owner, pick)
    requires g.Stateful() ==> pick(g).Keys !! owner.Keys
    ensures var gs := front + [g];
      forall i, k :: 0 <= i < |gs| && gs[i].Stateful() && k in pick(gs[i]) ==> Extend(owner, g, pick)[k] == gs[i].name
  {
    var gs := front + [g];
    var owner' := Extend(owner, g, pick);
    forall i, k | 0 <= i < |gs| && gs[i].Stateful() && k in pick(gs[i])
      ensures k in owner' && owner'[k] == gs[i].name
    {
      if i < |front| {
        assert gs[i] == front[i];
        assert k in owner;
      }
    }
  }

  /** One step of a successful construction: the list without its last
      group builds, and registering the last group gives the result. */
  lemma BuildStep(gs: seq<Group>)
    requires gs != [] && BuildGroups(gs).Ok?
    ensures var front := gs[..|gs| - 1];
      && gs == front + [gs[|gs| - 1]]
      && BuildGroups(front).Ok?
      && Register(BuildGroups(front).value, gs[|gs| - 1]) == BuildGroups(gs)
  {
    SplitLast(gs);
  }

  lemma SplitLast<T>(s: seq<T>)
    requires s != []
    ensures s == s[..|s| - 1] + [s[|s| - 1]]
  {
  }

  /** Construction of a list extended by one group: the extension builds
      by registering the group, unless the list itself failed. */
  lemma BuildSnoc(front: seq<Group>, g: Group)
    ensures BuildGroups(front).Ok? ==> BuildGroups(front + [g]) == Register(BuildGroups(front).value, g)
    ensures BuildGroups(front).Err? ==> BuildGroups(front + [g]) == Err(BuildGroups(front).error)
  {
    assert (front + [g])[..|front|] == front;
  }

  lemma {:induction false} BuildRegistry(gs: seq<Group>)
    requires BuildGroups(gs).Ok?
    ensures Registry(gs, BuildGroups(gs).value)
    decreases |gs|
  {
    if gs != [] {
      BuildStep(gs);
      var front := gs[..|gs| - 1];
      var g := gs[|gs| - 1];
      BuildRegistry(front);
      var r := BuildGroups(front).value;
      var r' := BuildGroups(gs).value;
      assert g.Stateful() ==> ActuatedOf(g).Keys !! r.actuatorOwner.Keys && VirtualOf(g).Keys !! r.virtualOwner.Keys;
      RegistryOfStep(front, g, r.actuatorOwner, ActuatedOf);
      RegistryOfStep(front, g, r.virtualOwner, VirtualOf);
    }
  }

  /** Against a registry of `front`, a key set is free exactly when it
      misses the keys of every group of `front` with virtual state. */
  lemma RegistryFree<V>(front: seq<Group>, owner: map<Name, Name>, pick: Group -> map<Name, V>, keys: set<Name>)
    requires RegistryOf(front, owner, pick)
    ensures keys !! owner.Keys <==> forall i :: 0 <= i < |front| && front[i].Stateful() ==> pick(front[i]).Keys !! keys
  {
    if !(keys !! owner.Keys) {
      var k :| k in keys && k in owner;
      var i :| 0 <= i < |front| && front[i].Stateful() && k in pick(front[i]);
      assert !(pick(front[i]).Keys !! keys);
    }
  }

  /** Key disjointness of a list grown by one group. */
  lemma KeysDisjointSnoc(front: seq<Group>, g: Group)
    ensures KeysDisjoint(front + [g]) <==>
      && KeysDisjoint(front)
      && (g.Stateful() ==> forall i :: 0 <= i < |front| && front[i].Stateful() ==>
            ActuatedOf(front[i]).Keys !! g.actuated.Keys && VirtualOf(front[i]).Keys !! g.virtual.Keys)
  {
    var gs := front + [g];
    assert forall i :: 0 <= i < |front| ==> gs[i] == front[i];
    assert gs[|front|] == g;
    if KeysDisjoint(gs) {
      forall i, j | 0 <= i < j < |front| && front[i].Stateful() && front[j].Stateful()
        ensures front[i].actuated.Keys !! front[j].actuated.Keys && front[i].virtual.Keys !! front[j].virtual.Keys
      {
        assert gs[i] == front[i] && gs[j] == front[j];
      }
    }
  }

  /** Construction succeeds exactly when no actuator key and no virtual key
      is shared by two groups with non-empty virtual state. */
  lemma {:induction false} BuildSucceedsIff(gs: seq<Group>)
    ensures BuildGroups(gs).Ok? <==> KeysDisjoint(gs)
    decreases |gs|
  {
    if gs != [] {
      var front := gs[..|gs| - 1];
      var g := gs[|gs| - 1];
      assert gs == front + [g];
      BuildSucceedsIff(front);
      KeysDisjointSnoc(front, g);
      if BuildGroups(front).Ok? {
        var r := BuildGroups(front).value;
        BuildRegistry(front);
        RegistryFree(front, r.actuatorOwner, ActuatedOf, g.actuated.Keys);
        RegistryFree(front, r.virtualOwner, VirtualOf, g.virtual.Keys);
        assert BuildGroups(gs) == Register(r, g);
      }
    }
  }

  /** `table` holds every name of `gs` and nothing else, each under the
      last group that carries it. */
  ghost predicate TableOf(gs: seq<Group>, table: map<Name, Group>) {
    && (forall n :: n in table <==> exists i :: 0 <= i < |gs| && gs[i].name == n)
    && (forall i :: 0 <= i < |gs| && (forall j :: i < j < |gs| ==> gs[j].name != gs[i].name) ==> table[gs[i].name] == gs[i])
  }

  /** The names of `gs`, in list order. */
  function Names(gs: seq<Group>): (ns: seq<Name>)
    ensures |ns| == |gs| && forall i :: 0 <= i < |gs| ==> ns[i] == gs[i].name
  {
    seq(|gs|, i requires 0 <= i < |gs| => gs[i].name)
  }

  lemma TableStep(front: seq<Group>, g: Group, table: map<Name, Group>)
    requires TableOf(front, table)
    ensures TableOf(front + [g], table[g.name := g])
  {
    var gs := front + [g];
    var t' := table[g.name := g];
    assert forall i :: 0 <= i < |front| ==> gs[i] == front[i];
    assert gs[|front|] == g;
    forall n ensures n in t' <==> exists i :: 0 <= i < |gs| && gs[i].name == n {
      if n in table && n != g.name {
        var i :| 0 <= i < |front| && front[i].name == n;
        assert gs[i].name == n;
      }
      if exists i :: 0 <= i < |gs| && gs[i].name == n {
        var i :| 0 <= i < |gs| && gs[i].name == n;
        if i < |front| {
          assert front[i].name == n;
        }
      }
    }
    forall i | 0 <= i < |gs| && (forall j :: i < j < |gs| ==> gs[j].name != gs[i].name)
      ensures t'[gs[i].name] == gs[i]
    {
      if i < |front| {
        assert gs[|front|].name != gs[i].name;
        assert forall j :: i < j < |front| ==> front[j].name != front[i].name;
      }
    }
  }

  /** The group table of a built robot: every name of `gs` is in it, under
      the last group that carries the name, and nothing else is. */
  lemma {:induction false} BuildTable(gs: seq<Group>)
    requires BuildGroups(gs).Ok?
    ensures TableOf(gs, BuildGroups(gs).value.groups)
    decreases |gs|
  {
    if gs != [] {
      BuildStep(gs);
      var front := gs[..|gs| - 1];
      var g := gs[|gs| - 1];
      BuildTable(front);
      TableStep(front, g, BuildGroups(front).value.groups);
    }
  }

  lemma OrderStep(front: seq<Group>, g: Group, table: map<Name, Group>)
    requires TableOf(front, table) && forall i :: 0 <= i < |front| ==> front[i].name != g.name
    ensures g.name !in table
    ensures Names(front + [g]) == Names(front) + [g.name]
  {
  }

  /** With distinct names the table order is the list order. */
  lemma {:induction false} BuildOrder(gs: seq<Group>)
    requires BuildGroups(gs).Ok? && DistinctNames(gs)
    ensures BuildGroups(gs).value.order == Names(gs)
    decreases |gs|
  {
    if gs != [] {
      BuildStep(gs);
      var front := gs[..|gs| - 1];
      var g := gs[|gs| - 1];
      assert forall i :: 0 <= i < |front| ==> gs[i] == front[i];
      assert DistinctNames(front);
      BuildOrder(front);
      BuildTable(front);
      assert forall i :: 0 <= i < |front| ==> front[i].name != g.name;
      OrderStep(front, g, BuildGroups(front).value.groups);
    }
  }

  /** `owner` registers exactly the keys `pick` finds in the groups with
      non-empty virtual state, each to the group that holds it. */
  ghost predicate Owns<V>(r: Robot, owner: map<Name, Name>, pick: Group -> map<Name, V>) {
    && (forall k :: k in owner ==>
          owner[k] in r.groups && r.groups[owner[k]].Stateful() && k in pick(r.groups[owner[k]]))
    && (forall n, k :: n in r.groups && r.groups[n].Stateful() && k in pick(r.groups[n]) ==>
          k in owner && owner[k] == n)
  }

  /** Both registries of `r` agree with its groups. */
  ghost predicate Registered(r: Robot) {
    Owns(r, r.actuatorOwner, ActuatedOf) && Owns(r, r.virtualOwner, VirtualOf)
  }

  /** After a successful (checked) construction every group is in the table
      under its name, in list order, and the registries agree with the
      groups: each key of a group with virtual state is registered to that
      group, and groups with empty virtual state register nothing. */
  lemma BuildRegistersEveryGroup(chain: seq<Element>)
    requires Build(chain).Ok?
    ensures var r := Build(chain).value; var gs := Normalize(chain);
      && r.order == Names(gs)
      && (forall i :: 0 <= i < |gs| ==> gs[i].name in r.groups && r.groups[gs[i].name] == gs[i])
      && Registered(r)
  {
    var gs := Normalize(chain);
    var r := Build(chain).value;
    BuildTable(gs);
    BuildOrder(gs);
    BuildRegistry(gs);
    forall n | n in r.groups ensures exists i :: 0 <= i < |gs| && gs[i].name == n && r.groups[n] == gs[i] {
      var i :| 0 <= i < |gs| && gs[i].name == n;
      assert r.groups[n] == gs[i];
    }
  }

  /** A bare transformation is linked under the element before it: its
      chain is that element's chain followed by it; at the head of the list
      it is a root on its own. */
  lemma WrapLinksToPredecessor(chain: seq<Element>, i: nat)
    requires Build(chain).Ok? && i < |chain| && chain[i].Bare?
    ensures var r := Build(chain).value; var t := chain[i].t;
      && t.name in r.groups && r.groups[t.name].trafos == [t]
      && (i == 0 ==> ResolveChain(r.groups, t.name) == Ok([t.name]))
      && (i > 0 ==> (ResolveChain(r.groups, t.name) ==
            match ResolveChain(r.groups, chain[i - 1].Name())
            case Ok(c) => Ok(c + [t.name])
            case Err(e) => Err(e)))
  {
    var r := Build(chain).value;
    var gs := Normalize(chain);
    BuildRegistersEveryGroup(chain);
    assert gs[i] == Wrap(chain, i);
    assert i > 0 ==> gs[i - 1] == Wrap(chain, i - 1) && gs[i - 1].name != gs[i].name;
    WrapLinks(r.groups, chain, i);
  }

  /** The chain facts of a wrapped transformation, for any table holding it
      and the element before it under their names. */
  lemma WrapLinks(groups: map<Name, Group>, chain: seq<Element>, i: nat)
    requires i < |chain| && chain[i].Bare?
    requires chain[i].t.name in groups && groups[chain[i].t.name] == Wrap(chain, i)
    requires i > 0 ==> chain[i - 1].Name() != chain[i].t.name
    requires i > 0 ==> chain[i - 1].Name() in groups && groups[chain[i - 1].Name()] == Wrap(chain, i - 1)
    ensures var t := chain[i].t;
      && groups[t.name].trafos == [t]
      && (i == 0 ==> ResolveChain(groups, t.name) == Ok([t.name]))
      && (i > 0 ==> (ResolveChain(groups, t.name) ==
            match ResolveChain(groups, chain[i - 1].Name())
            case Ok(c) => Ok(c + [t.name])
            case Err(e) => Err(e)))
  {
    var t := chain[i].t;
    if i == 0 {
      assert IsChainTo(groups, [t.name], t.name);
      ResolveChainIff(groups, [t.name], t.name);
    } else {
      ResolveChainStep(groups, t.name);
    }
  }

  /** A stateful group registers on the empty robot and owns its keys. */
  lemma RegisterFirst(a: Group)
    requires a.Stateful()
    ensures var x := Register(Empty, a);
      && x.Ok? && x.value.order == [a.name] && x.value.groups.Keys == {a.name}
      && x.value.actuatorOwner.Keys == a.actuated.Keys && x.value.virtualOwner.Keys == a.virtual.Keys
      && forall k :: k in a.actuated ==> x.value.actuatorOwner[k] == a.name
  {
    assert Wf(Empty);
    var x := Register(Empty, a);
    assert x.Ok?;
    assert x.value.order == [] + [a.name] == [a.name];
    assert x.value.actuatorOwner.Keys == a.actuated.Keys;
  }

  /** A stateful group sharing no key with the robot registers; a group of
      the same name already in the table is replaced, and the registries
      only grow. */
  lemma RegisterNamesake(r: Robot, b: Group)
    requires Wf(r) && b.Stateful() && b.name in r.groups
    requires b.actuated.Keys !! r.actuatorOwner.Keys && b.virtual.Keys !! r.virtualOwner.Keys
    ensures var x := Register(r, b);
      && x.Ok? && x.value.order == r.order && x.value.groups.Keys == r.groups.Keys && x.value.groups[b.name] == b
      && forall k :: k in r.actuatorOwner ==> k in x.value.actuatorOwner && x.value.actuatorOwner[k] == r.actuatorOwner[k]
  {
  }

  /** Registering two stateful groups that share a name but no key: both
      succeed, the second replaces the first in the table, and the first
      group's actuator keys stay registered to the shared name. */
  lemma BuildNamesakes(a: Group, b: Group)
    requires a.name == b.name && a.Stateful() && b.Stateful()
    requires a.actuated.Keys !! b.actuated.Keys && a.virtual.Keys !! b.virtual.Keys
    ensures var res := BuildGroups([a, b]);
      && res.Ok? && res.value.order == [a.name]
      && res.value.groups.Keys == {a.name} && res.value.groups[a.name] == b
      && forall k :: k in a.actuated ==> k in res.value.actuatorOwner && res.value.actuatorOwner[k] == a.name
  {
    assert [] + [a] == [a];
    assert [a] + [b] == [a, b];
    BuildSnoc([], a);
    RegisterFirst(a);
    var r1 := Register(Empty, a).value;
    RegisterNamesake(r1, b);
    BuildSnoc([a], b);
  }

  /** The shadowing Robot.py allows: two groups named alike build without
      complaint, the first group's actuator stays registered to the shared
      name, yet the group found under that name does not have it and the
      robot's actuated state leaves it out. The checked constructor refuses
      the pair. */
  lemma ShadowedNamesakesAsWritten(a: Group, b: Group, k: Name)
    requires a.name == b.name && a.Stateful() && b.Stateful()
    requires a.actuated.Keys !! b.actuated.Keys && a.virtual.Keys !! b.virtual.Keys
    requires k in a.actuated
    ensures var res := BuildAsWritten([Member(a), Member(b)]);
      && res.Ok?
      && k in res.value.actuatorOwner && res.value.actuatorOwner[k] == a.name
      && a.name in res.value.groups && k !in res.value.groups[a.name].actuated
      && k !in GetActuatedState(res.value)
      && Build([Member(a), Member(b)]) == Err(GroupConflict({a.name}))
  {
    var chain := [Member(a), Member(b)];
    var gs := Normalize(chain);
    assert gs[0] == Wrap(chain, 0) == a;
    assert gs[1] == Wrap(chain, 1) == b;
    assert gs == [a, b];
    BuildNamesakes(a, b);
    var r := BuildGroups(gs).value;
    assert forall n :: n in r.groups ==> n == a.name;
    assert k !in GetActuatedState(r);
    RepeatedPair(a, b);
  }

  /** Two groups repeat a name exactly when they share theirs. */
  lemma RepeatedPair(a: Group, b: Group)
    ensures RepeatedNames([a, b]) == if a.name == b.name then {a.name} else {}
  {
    var gs := [a, b];
    var d := RepeatedNames(gs);
    assert d == set i, j | 0 <= i < j < |gs| && gs[i].name == gs[j].name :: gs[i].name;
    forall x | x in d
      ensures x == a.name && a.name == b.name
    {
      var i, j :| 0 <= i < j < |gs| && gs[i].name == gs[j].name && x == gs[i].name;
      assert i == 0 && j == 1;
    }
    if a.name == b.name {
      assert gs[0].name == gs[1].name;
      assert a.name in d;
    }
  }

  /** Two groups that share the name "leg" but no key. */
  const LegA := Group("leg", "leg", [], map["motor" := Num(0.0)], map["knee" := map["ry" := 0.0]])
  const LegB := Group("leg", "leg", [], map["hip" := Num(0.0)], map["hip" := map["rz" := 0.0]])

  /** The legs are such a pair: the "motor" actuator of the first leg is
      registered yet unreachable. */
  lemma ShadowedGroupAsWritten()
    ensures var res := BuildAsWritten([Member(LegA), Member(LegB)]);
      && res.Ok?
      && "motor" in res.value.actuatorOwner && "motor" !in GetActuatedState(res.value)
      && Build([Member(LegA), Member(LegB)]) == Err(GroupConflict({"leg"}))
  {
    assert LegA.Stateful() by {
      assert "knee" in LegA.virtual;
    }
    assert LegB.Stateful() by {
      assert "hip" in LegB.virtual;
    }
    assert LegA.actuated.Keys == {"motor"} && LegB.actuated.Keys == {"hip"};
    assert LegA.virtual.Keys == {"knee"} && LegB.virtual.Keys == {"hip"};
    ShadowedNamesakesAsWritten(LegA, LegB, "motor");
  }

  // ---------------------------------------------------------------------
  // Reading the aggregated state

  /** The maps of `ms` merged in order; a later map's entry wins. */
  function Union<V>(ms: seq<map<Name, V>>): (u: map<Name, V>)
    ensures forall k :: k in u <==> exists i :: 0 <= i < |ms| && k in ms[i]
    ensures forall i, k :: 0 <= i < |ms| && k in ms[i] && (forall j :: i < j < |ms| ==> k !in ms[j]) ==> u[k] == ms[i][k]
    decreases |ms|
  {
    if ms == [] then
      map[]
    else
      var front := ms[..|ms| - 1];
      var last := ms[|ms| - 1];
      assert ms == front + [last];
      UnionSnoc(front, last, Union(front));
      Union(front) + last
  }

  /** One step of `Union`: the union of `front`, overridden by `last`. */
  lemma UnionSnoc<V>(front: seq<map<Name, V>>, last: map<Name, V>, u: map<Name, V>)
    requires forall k :: k in u <==> exists i :: 0 <= i < |front| && k in front[i]
    requires forall i, k :: 0 <= i < |front| && k in front[i] && (forall j :: i < j < |front| ==> k !in front[j]) ==> u[k] == front[i][k]
    ensures var ms := front + [last]; var u' := u + last;
      && (forall k :: k in u' <==> exists i :: 0 <= i < |ms| && k in ms[i])
      && (forall i, k :: 0 <= i < |ms| && k in ms[i] && (forall j :: i < j < |ms| ==> k !in ms[j]) ==> u'[k] == ms[i][k])
  {
    var ms := front + [last];
    var u' := u + last;
    var n := |front|;
    forall k | k in u'
      ensures exists i :: 0 <= i < |ms| && k in ms[i]
    {
      if k in last {
        assert k in ms[n];
      } else {
        var i :| 0 <= i < n && k in front[i];
        assert k in ms[i];
      }
    }
    forall k | exists i :: 0 <= i < |ms| && k in ms[i]
      ensures k in u'
    {
      var i :| 0 <= i < |ms| && k in ms[i];
      if i < n {
        assert k in front[i];
      }
    }
    forall i, k | 0 <= i < |ms| && k in ms[i] && (forall j :: i < j < |ms| ==> k !in ms[j])
      ensures u'[k] == ms[i][k]
    {
      if i < n {
        assert k !in ms[n];
        assert forall j :: i < j < n ==> k !in front[j] by {
          forall j | i < j < n ensures k !in front[j] {
            assert ms[j] == front[j];
          }
        }
        assert front[i] == ms[i];
      }
    }
  }

  /** One state map per group, in table order. */
  function Picks<V>(r: Robot, pick: Group -> map<Name, V>): (ms: seq<map<Name, V>>)
    requires Wf(r)
    ensures |ms| == |r.order| && forall i :: 0 <= i < |ms| ==> ms[i] == pick(r.groups[r.order[i]])
  {
    seq(|r.order|, i requires 0 <= i < |r.order| => pick(r.groups[r.order[i]]))
  }

  /** The union of one state map per group, taken in table order. */
  function Aggregate<V>(r: Robot, pick: Group -> map<Name, V>): (s: map<Name, V>)
    requires Wf(r)
    ensures forall k :: k in s <==> exists n :: n in r.groups && k in pick(r.groups[n])
    ensures forall i, k ::
      (0 <= i < |r.order| && k in pick(r.groups[r.order[i]])
       && forall j :: i < j < |r.order| ==> k !in pick(r.groups[r.order[j]])) ==>
      s[k] == pick(r.groups[r.order[i]])[k]
  {
    var ms := Picks(r, pick);
    var u := Union(ms);
    AggregateKeys(r, pick, ms, u);
    AggregateValues(r, pick, ms, u);
    u
  }

  lemma AggregateKeys<V>(r: Robot, pick: Group -> map<Name, V>, ms: seq<map<Name, V>>, u: map<Name, V>)
    requires Wf(r)
    requires |ms| == |r.order| && forall i :: 0 <= i < |ms| ==> ms[i] == pick(r.groups[r.order[i]])
    requires forall k :: k in u <==> exists i :: 0 <= i < |ms| && k in ms[i]
    ensures forall k :: k in u <==> exists n :: n in r.groups && k in pick(r.groups[n])
  {
    forall k | k in u ensures exists n :: n in r.groups && k in pick(r.groups[n]) {
      var i :| 0 <= i < |ms| && k in ms[i];
      assert r.order[i] in r.groups;
    }
    forall k | exists n :: n in r.groups && k in pick(r.groups[n]) ensures k in u {
      var n :| n in r.groups && k in pick(r.groups[n]);
      assert n in r.order;
      var i := IndexOf(r.order, n);
      assert k in ms[i];
    }
  }

  lemma AggregateValues<V>(r: Robot, pick: Group -> map<Name, V>, ms: seq<map<Name, V>>, u: map<Name, V>)
    requires Wf(r)
    requires forall i, k :: 0 <= i < |ms| && k in ms[i] ==> k in u
    requires |ms| == |r.order| && forall i :: 0 <= i < |ms| ==> ms[i] == pick(r.groups[r.order[i]])
    requires forall i, k :: 0 <= i < |ms| && k in ms[i] && (forall j :: i < j < |ms| ==> k !in ms[j]) ==> u[k] == ms[i][k]
    ensures forall i, k ::
      (0 <= i < |r.order| && k in pick(r.groups[r.order[i]])
       && forall j :: i < j < |r.order| ==> k !in pick(r.groups[r.order[j]])) ==>
      u[k] == pick(r.groups[r.order[i]])[k]
  {
    forall i, k | 0 <= i < |r.order| && k in pick(r.groups[r.order[i]])
      && forall j :: i < j < |r.order| ==> k !in pick(r.groups[r.order[j]])
      ensures u[k] == pick(r.groups[r.order[i]])[k]
    {
      assert k in ms[i];
      assert forall j :: i < j < |ms| ==> k !in ms[j];
    }
  }

  /** When each key is held by at most the one group a registry names, the
      union holds exactly the registered keys, each with its owner's value. */
  lemma AggregateOfOwners<V>(r: Robot, pick: Group -> map<Name, V>, owner: map<Name, Name>)
    requires Wf(r) && Owns(r, owner, pick)
    requires forall n :: n in r.groups && pick(r.groups[n]) != map[] ==> r.groups[n].Stateful()
    ensures Aggregate(r, pick).Keys == owner.Keys
    ensures forall k :: k in owner ==> Aggregate(r, pick)[k] == pick(r.groups[owner[k]])[k]
  {
    var s := Aggregate(r, pick);
    OwnedKeys(r, pick, owner, s);
    forall k | k in owner ensures s[k] == pick(r.groups[owner[k]])[k] {
      SoleHolder(r, pick, owner, k);
      OwnerWins(r, pick, owner, k);
    }
  }

  /** A map holding the keys some group picks holds the registered keys. */
  lemma OwnedKeys<V>(r: Robot, pick: Group -> map<Name, V>, owner: map<Name, Name>, s: map<Name, V>)
    requires Owns(r, owner, pick)
    requires forall n :: n in r.groups && pick(r.groups[n]) != map[] ==> r.groups[n].Stateful()
    requires forall k :: k in s <==> exists n :: n in r.groups && k in pick(r.groups[n])
    ensures s.Keys == owner.Keys
  {
    forall k | k in s ensures k in owner {
      var n :| n in r.groups && k in pick(r.groups[n]);
      assert pick(r.groups[n]) != map[];
    }
    forall k | k in owner ensures k in s {
      assert owner[k] in r.groups && k in pick(r.groups[owner[k]]);
    }
  }

  /** A registered key is held by its owner and by no other group. */
  lemma SoleHolder<V>(r: Robot, pick: Group -> map<Name, V>, owner: map<Name, Name>, k: Name)
    requires Owns(r, owner, pick) && k in owner
    requires forall n :: n in r.groups && pick(r.groups[n]) != map[] ==> r.groups[n].Stateful()
    ensures owner[k] in r.groups && k in pick(r.groups[owner[k]])
    ensures forall n :: n in r.groups && k in pick(r.groups[n]) ==> n == owner[k]
  {
    forall n | n in r.groups && k in pick(r.groups[n]) ensures n == owner[k] {
      assert pick(r.groups[n]) != map[];
    }
  }

  lemma OwnerWins<V>(r: Robot, pick: Group -> map<Name, V>, owner: map<Name, Name>, k: Name)
    requires Wf(r)
    requires k in owner && owner[k] in r.groups && k in pick(r.groups[owner[k]])
    requires forall n :: n in r.groups && k in pick(r.groups[n]) ==> n == owner[k]
    ensures k in Aggregate(r, pick) && Aggregate(r, pick)[k] == pick(r.groups[owner[k]])[k]
  {
    var n := owner[k];
    assert n in r.order;
    var i :| 0 <= i < |r.order| && r.order[i] == n;
    forall j | i < j < |r.order| ensures k !in pick(r.groups[r.order[j]]) {
      assert r.order[j] in r.groups;
      assert r.order[j] != n;
    }
  }

  function ActuatedOf(g: Group): map<Name, Value> {
    g.actuated
  }

  function VirtualOf(g: Group): map<Name, map<Name, real>> {
    g.virtual
  }

  /** The actuated state of the robot: the union of its groups' actuated
      states, a later group's entry winning. */
  function GetActuatedState(r: Robot): (s: map<Name, Value>)
    requires Wf(r)
    ensures forall k :: k in s <==> exists n :: n in r.groups && k in ActuatedOf(r.groups[n])
  {
    Aggregate(r, ActuatedOf)
  }

  /** The virtual state of the robot: the union of its groups' virtual
      states (empty ones contribute nothing), a later group's entry winning. */
  function GetVirtualState(r: Robot): (s: map<Name, map<Name, real>>)
    requires Wf(r)
    ensures forall k :: k in s <==> exists n :: n in r.groups && k in VirtualOf(r.groups[n])
  {
    Aggregate(r, VirtualOf)
  }

  /** In a robot whose registries agree with its groups, the aggregated
      virtual state is exactly the registered virtual keys, each with its
      owning group's value. */
  lemma VirtualStateIsUnionOfOwners(r: Robot)
    requires Wf(r) && Registered(r)
    ensures GetVirtualState(r).Keys == r.virtualOwner.Keys
    ensures forall k :: k in r.virtualOwner ==> GetVirtualState(r)[k] == r.groups[r.virtualOwner[k]].virtual[k]
  {
    assert forall n :: n in r.groups && VirtualOf(r.groups[n]) != map[] ==> r.groups[n].Stateful();
    AggregateOfOwners(r, VirtualOf, r.virtualOwner);
  }

  /** Likewise for the actuated state, when every group that has actuators
      also has virtual state (a group without virtual state registers none
      of its actuators). */
  lemma ActuatedStateIsUnionOfOwners(r: Robot)
    requires Wf(r) && Registered(r)
    requires forall n :: n in r.groups && r.groups[n].actuated != map[] ==> r.groups[n].Stateful()
    ensures GetActuatedState(r).Keys == r.actuatorOwner.Keys
    ensures forall k :: k in r.actuatorOwner ==> GetActuatedState(r)[k] == r.groups[r.actuatorOwner[k]].actuated[k]
  {
    assert forall n :: n in r.groups && ActuatedOf(r.groups[n]) != map[] ==> r.groups[n].Stateful();
    AggregateOfOwners(r, ActuatedOf, r.actuatorOwner);
  }

  // ---------------------------------------------------------------------
  // Setting state and forwarding hints

  /** The entries of `state` whose keys `owner` assigns to group `n`. */
  function OwnedBy<V>(owner: map<Name, Name>, state: map<Name, V>, n: Name): map<Name, V>
    requires state.Keys <= owner.Keys
  {
    map k | k in state && owner[k] == n :: state[k]
  }

  /** The actuator updates batched per owning group: every key lands in the
      batch of its owner and in no other, and no batch is empty, so each
      owning group is called once with exactly its own keys. */
  function Batch(owner: map<Name, Name>, state: map<Name, Value>): (b: map<Name, map<Name, Value>>)
    requires state.Keys <= owner.Keys
    ensures forall k :: k in state ==> owner[k] in b && k in b[owner[k]] && b[owner[k]][k] == state[k]
    ensures forall n, k :: n in b && k in b[n] ==> k in state && owner[k] == n
    ensures forall n :: n in b ==> b[n] != map[]
  {
    var names := set k | k in state :: owner[k];
    var b := map n | n in names :: OwnedBy(owner, state, n);
    assert forall n :: n in b ==> b[n] != map[] by {
      forall n | n in b ensures b[n] != map[] {
        var k :| k in state && owner[k] == n;
        assert k in b[n];
      }
    }
    b
  }

  /** `set_actuated_state`: every key is looked up first, so an unknown
      actuator raises before any group is touched; otherwise each owning
      group receives one call with exactly its own keys. */
  function SetActuatedState(r: Robot, state: map<Name, Value>, apply: (Group, map<Name, Value>) -> Group): (out: Outcome)
    requires Wf(r)
    ensures out.raised.Some? <==> !(state.Keys <= r.actuatorOwner.Keys)
    ensures out.raised.Some? ==> out.after == r && out.raised.value == UnknownActuators(state.Keys - r.actuatorOwner.Keys)
    ensures SameShape(r, out.after)
    ensures out.raised.None? ==> forall k :: k in state ==>
      out.after.groups[r.actuatorOwner[k]] == apply(r.groups[r.actuatorOwner[k]], OwnedBy(r.actuatorOwner, state, r.actuatorOwner[k]))
    ensures out.raised.None? ==> forall n :: n in r.groups && (forall k :: k in state ==> r.actuatorOwner[k] != n) ==>
      out.after.groups[n] == r.groups[n]
  {
    if !(state.Keys <= r.actuatorOwner.Keys) then
      Outcome(r, Some(UnknownActuators(state.Keys - r.actuatorOwner.Keys)))
    else
      var b := Batch(r.actuatorOwner, state);
      var groups := map n | n in r.groups :: if n in b then apply(r.groups[n], b[n]) else r.groups[n];
      Outcome(r.(groups := groups), None)
  }

  /** Every registered key points into the group table. */
  ghost predicate Into(owner: map<Name, Name>, groups: map<Name, Group>) {
    forall k :: k in owner ==> owner[k] in groups
  }

  /** One key routed: the group owning `k` receives the one-entry update. */
  function RouteOne(groups: map<Name, Group>, owner: map<Name, Name>, k: Name, v: map<Name, real>,
                    apply: (Group, map<Name, map<Name, real>>) -> Group): (g': map<Name, Group>)
    requires Into(owner, groups) && k in owner
    ensures g'.Keys == groups.Keys
  {
    groups[owner[k] := apply(groups[owner[k]], map[k := v])]
  }

  /** The routing loop of `set_virtual_state` on the group table: the table
      as the loop leaves it, and the error it stops at, if any. */
  function Route(groups: map<Name, Group>, owner: map<Name, Name>, updates: seq<(Name, map<Name, real>)>,
                 apply: (Group, map<Name, map<Name, real>>) -> Group): (res: (map<Name, Group>, Option<Error>))
    requires Into(owner, groups)
    ensures res.0.Keys == groups.Keys
    ensures res.1.None? <==> forall i :: 0 <= i < |updates| ==> updates[i].0 in owner
    decreases |updates|
  {
    if updates == [] then
      (groups, None)
    else if updates[0].0 !in owner then
      (groups, Some(UnknownVirtual(updates[0].0)))
    else
      var g1 := RouteOne(groups, owner, updates[0].0, updates[0].1, apply);
      assert forall i :: 1 <= i < |updates| ==> updates[i] == updates[1..][i - 1];
      Route(g1, owner, updates[1..], apply)
  }

  /** `set_virtual_state`: the updates are routed one key at a time, each
      as a one-entry update to the group owning it; an unknown key raises,
      and the updates before it have already been applied. */
  function SetVirtualState(r: Robot, updates: seq<(Name, map<Name, real>)>,
                           apply: (Group, map<Name, map<Name, real>>) -> Group): (out: Outcome)
    requires Wf(r)
    ensures SameShape(r, out.after) && Wf(out.after)
    ensures out.raised.None? <==> forall i :: 0 <= i < |updates| ==> updates[i].0 in r.virtualOwner
  {
    var routed := Route(r.groups, r.virtualOwner, updates, apply);
    var out := Outcome(r.(groups := routed.0), routed.1);
    SameShapeWf(r, out.after);
    out
  }

  /** A group that owns none of the updated keys is left as it was. */
  lemma {:induction false} RouteFrame(groups: map<Name, Group>, owner: map<Name, Name>, updates: seq<(Name, map<Name, real>)>,
                                      apply: (Group, map<Name, map<Name, real>>) -> Group, n: Name)
    requires Into(owner, groups) && n in groups
    requires forall i :: 0 <= i < |updates| && updates[i].0 in owner ==> owner[updates[i].0] != n
    ensures Route(groups, owner, updates, apply).0[n] == groups[n]
    decreases |updates|
  {
    if updates != [] && updates[0].0 in owner {
      var rest := updates[1..];
      assert forall i :: 0 <= i < |rest| ==> rest[i] == updates[i + 1];
      var g1 := RouteOne(groups, owner, updates[0].0, updates[0].1, apply);
      RouteFrame(g1, owner, rest, apply, n);
    }
  }

  /** Routing is sequential: a batch of updates that raises nothing leaves
      the table the next batch starts from. */
  lemma {:induction false} RouteSequential(groups: map<Name, Group>, owner: map<Name, Name>,
                                           a: seq<(Name, map<Name, real>)>, b: seq<(Name, map<Name, real>)>,
                                           apply: (Group, map<Name, map<Name, real>>) -> Group)
    requires Into(owner, groups) && Route(groups, owner, a, apply).1.None?
    ensures Into(owner, Route(groups, owner, a, apply).0)
    ensures Route(groups, owner, a + b, apply) == Route(Route(groups, owner, a, apply).0, owner, b, apply)
    decreases |a|
  {
    if a == [] {
      assert a + b == b;
    } else {
      assert (a + b)[0] == a[0];
      assert (a + b)[1..] == a[1..] + b;
      assert a[0].0 in owner;
      var g1 := RouteOne(groups, owner, a[0].0, a[0].1, apply);
      RouteSequential(g1, owner, a[1..], b, apply);
    }
  }

  /** The first unknown key stops the routing, with every earlier update
      already applied: `set_virtual_state` is not atomic. */
  lemma RouteStopsAtUnknown(groups: map<Name, Group>, owner: map<Name, Name>, updates: seq<(Name, map<Name, real>)>, i: nat,
                            apply: (Group, map<Name, map<Name, real>>) -> Group)
    requires Into(owner, groups) && i < |updates| && updates[i].0 !in owner
    requires forall j :: 0 <= j < i ==> updates[j].0 in owner
    ensures Route(groups, owner, updates, apply) ==
      (Route(groups, owner, updates[..i], apply).0, Some(UnknownVirtual(updates[i].0)))
  {
    var front := updates[..i];
    var back := updates[i..];
    assert front + back == updates;
    assert back[0] == updates[i];
    assert forall j :: 0 <= j < |front| ==> front[j].0 in owner;
    RouteSequential(groups, owner, front, back, apply);
  }

  /** The same facts for the robot: the frame, and the unknown key that
      stops the routing after the earlier updates were applied. */
  lemma SetVirtualStateFrame(r: Robot, updates: seq<(Name, map<Name, real>)>,
                             apply: (Group, map<Name, map<Name, real>>) -> Group, n: Name)
    requires Wf(r) && n in r.groups
    requires forall i :: 0 <= i < |updates| && updates[i].0 in r.virtualOwner ==> r.virtualOwner[updates[i].0] != n
    ensures SetVirtualState(r, updates, apply).after.groups[n] == r.groups[n]
  {
    RouteFrame(r.groups, r.virtualOwner, updates, apply, n);
  }

  lemma SetVirtualStateStopsAtUnknown(r: Robot, updates: seq<(Name, map<Name, real>)>, i: nat,
                                      apply: (Group, map<Name, map<Name, real>>) -> Group)
    requires Wf(r) && i < |updates| && updates[i].0 !in r.virtualOwner
    requires forall j :: 0 <= j < i ==> updates[j].0 in r.virtualOwner
    ensures SetVirtualState(r, updates, apply) ==
      Outcome(SetVirtualState(r, updates[..i], apply).after, Some(UnknownVirtual(updates[i].0)))
  {
    RouteStopsAtUnknown(r.groups, r.virtualOwner, updates, i, apply);
  }

  /** One update reaches the owning group as a one-entry update. */
  lemma SetVirtualStateOneKey(r: Robot, k: Name, v: map<Name, real>, apply: (Group, map<Name, map<Name, real>>) -> Group)
    requires Wf(r) && k in r.virtualOwner
    ensures SetVirtualState(r, [(k, v)], apply) ==
      Outcome(r.(groups := r.groups[r.virtualOwner[k] := apply(r.groups[r.virtualOwner[k]], map[k := v])]), None)
  {
    var g1 := RouteOne(r.groups, r.virtualOwner, k, v, apply);
    assert [(k, v)][1..] == [];
    assert Route(g1, r.virtualOwner, [], apply) == (g1, None);
  }

  /** The hint at index `i` is reached: its group and every group named
      before it are in the table. */
  ghost predicate Reached(groups: map<Name, Group>, args: seq<(Name, Hint)>, i: int) {
    0 <= i < |args| && forall j :: 0 <= j <= i ==> args[j].0 in groups
  }

  /** The forwarding loop of the hint passing on the group table: the table
      as the loop leaves it, and the error it stops at, if any. */
  function PassHints(groups: map<Name, Group>, direction: Mapping, args: seq<(Name, Hint)>,
                     pass: (Group, Mapping, Hint) -> Group): (res: (map<Name, Group>, Option<Error>))
    ensures res.0.Keys == groups.Keys
    ensures res.1.None? <==> forall i :: 0 <= i < |args| ==> args[i].0 in groups
    decreases |args|
  {
    if args == [] then
      (groups, None)
    else
      var n := args[0].0;
      if n !in groups then
        (groups, Some(UnknownGroup(n)))
      else
        var g1 := groups[n := pass(groups[n], direction, args[0].1)];
        assert forall i :: 1 <= i < |args| ==> args[i] == args[1..][i - 1];
        PassHints(g1, direction, args[1..], pass)
  }

  /** `pass_group_arg_v_to_a` / `pass_group_arg_a_to_v`: each hint is
      forwarded, in order, to the mapping function of the group it names;
      an unknown group name raises, after the earlier hints were passed and
      before any later one is. */
  function PassGroupArg(r: Robot, direction: Mapping, args: seq<(Name, Hint)>,
                        pass: (Group, Mapping, Hint) -> Group): (out: Outcome)
    requires Wf(r)
    ensures SameShape(r, out.after) && Wf(out.after)
    ensures out.raised.None? <==> forall i :: 0 <= i < |args| ==> args[i].0 in r.groups
  {
    var passed := PassHints(r.groups, direction, args, pass);
    var out := Outcome(r.(groups := passed.0), passed.1);
    SameShapeWf(r, out.after);
    out
  }

  /** The first hint naming an unknown group is the one that raises. */
  lemma {:induction false} PassHintsRaises(groups: map<Name, Group>, direction: Mapping, args: seq<(Name, Hint)>,
                                           pass: (Group, Mapping, Hint) -> Group, i: nat)
    requires i < |args| && args[i].0 !in groups
    requires forall j :: 0 <= j < i ==> args[j].0 in groups
    ensures PassHints(groups, direction, args, pass).1 == Some(UnknownGroup(args[i].0))
    decreases |args|
  {
    if i > 0 {
      var rest := args[1..];
      assert forall j :: 0 <= j < |rest| ==> rest[j] == args[j + 1];
      var n := args[0].0;
      PassHintsRaises(groups[n := pass(groups[n], direction, args[0].1)], direction, rest, pass, i - 1);
    }
  }

  /** Hint passing is sequential: a batch of hints that raises nothing
      leaves the table the next batch starts from. */
  lemma {:induction false} PassHintsSequential(groups: map<Name, Group>, direction: Mapping,
                                               a: seq<(Name, Hint)>, b: seq<(Name, Hint)>,
                                               pass: (Group, Mapping, Hint) -> Group)
    requires PassHints(groups, direction, a, pass).1.None?
    ensures PassHints(groups, direction, a + b, pass) ==
      PassHints(PassHints(groups, direction, a, pass).0, direction, b, pass)
    decreases |a|
  {
    if a == [] {
      assert a + b == b;
    } else {
      assert (a + b)[0] == a[0];
      assert (a + b)[1..] == a[1..] + b;
      assert a[0].0 in groups;
      var n := a[0].0;
      PassHintsSequential(groups[n := pass(groups[n], direction, a[0].1)], direction, a[1..], b, pass);
    }
  }

  /** The first hint naming an unknown group stops the forwarding: every
      earlier hint has been passed and no later one is. */
  lemma PassHintsStopsAtUnknown(groups: map<Name, Group>, direction: Mapping, args: seq<(Name, Hint)>, i: nat,
                                pass: (Group, Mapping, Hint) -> Group)
    requires i < |args| && args[i].0 !in groups
    requires forall j :: 0 <= j < i ==> args[j].0 in groups
    ensures PassHints(groups, direction, args, pass) ==
      (PassHints(groups, direction, args[..i], pass).0, Some(UnknownGroup(args[i].0)))
  {
    var front := args[..i];
    var back := args[i..];
    assert front + back == args;
    assert back[0] == args[i];
    assert forall j :: 0 <= j < |front| ==> front[j].0 in groups;
    PassHintsSequential(groups, direction, front, back, pass);
  }

  /** The same for the robot: the hint passing raises at the first unknown
      group, with the robot as the earlier hints left it. */
  lemma PassGroupArgStopsAtUnknown(r: Robot, direction: Mapping, args: seq<(Name, Hint)>, i: nat,
                                   pass: (Group, Mapping, Hint) -> Group)
    requires Wf(r) && i < |args| && args[i].0 !in r.groups
    requires forall j :: 0 <= j < i ==> args[j].0 in r.groups
    ensures PassGroupArg(r, direction, args, pass) ==
      Outcome(PassGroupArg(r, direction, args[..i], pass).after, Some(UnknownGroup(args[i].0)))
  {
    PassHintsStopsAtUnknown(r.groups, direction, args, i, pass);
  }

  /** A reached hint is delivered: its group ends up as the mapping function
      left it, since no later hint names the same group (hints are keyed
      by group name). */
  lemma {:induction false} PassHintsDelivers(groups: map<Name, Group>, direction: Mapping, args: seq<(Name, Hint)>,
                                             pass: (Group, Mapping, Hint) -> Group, i: nat)
    requires Reached(groups, args, i) && DistinctKeys(args)
    ensures PassHints(groups, direction, args, pass).0[args[i].0] == pass(groups[args[i].0], direction, args[i].1)
    decreases |args|
  {
    var n := args[0].0;
    var rest := args[1..];
    assert forall j :: 0 <= j < |rest| ==> rest[j] == args[j + 1];
    var g1 := groups[n := pass(groups[n], direction, args[0].1)];
    if i == 0 {
      PassHintsFrame(g1, direction, rest, pass, n);
    } else {
      assert rest[i - 1] == args[i] && args[i].0 != n;
      PassHintsDelivers(g1, direction, rest, pass, i - 1);
    }
  }

  /** A group that no hint names is left as it was. */
  lemma {:induction false} PassHintsFrame(groups: map<Name, Group>, direction: Mapping, args: seq<(Name, Hint)>,
                                          pass: (Group, Mapping, Hint) -> Group, n: Name)
    requires n in groups
    requires forall i :: 0 <= i < |args| ==> args[i].0 != n
    ensures PassHints(groups, direction, args, pass).0[n] == groups[n]
    decreases |args|
  {
    if args != [] && args[0].0 in groups {
      var rest := args[1..];
      assert forall j :: 0 <= j < |rest| ==> rest[j] == args[j + 1];
      var m := args[0].0;
      PassHintsFrame(groups[m := pass(groups[m], direction, args[0].1)], direction, rest, pass, n);
    }
  }
}
