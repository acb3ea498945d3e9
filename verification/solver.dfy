/** The inverse-kinematics solver's bookkeeping: how a flat solver vector and
    a robot's virtual state are translated into each other along the ordered
    key list of the symbolic representation, and the order of the calls that
    solve for a target. The numerical solver itself is a parameter. */
module Solver {
  import opened Errors
  import opened Groups
  import opened Robots
  import opened Kinematics
  import Chains

  /** Transformation name -> parameter name -> value. */
  type VirtualState = map<Name, map<Name, real>>

  predicate Has(v: VirtualState, k: Key) {
    k.trafo in v && k.param in v[k.trafo]
  }

  function Get(v: VirtualState, k: Key): real
    requires Has(v, k)
  {
    v[k.trafo][k.param]
  }

  /** Stores one solver value under its key; the transformation's entry is
      created empty the first time one of its parameters is stored. */
  function Put(v: VirtualState, k: Key, x: real): (v': VirtualState)
    ensures forall t :: t in v' <==> t in v || t == k.trafo
    ensures forall k' :: Has(v', k') <==> Has(v, k') || k' == k
    ensures Has(v', k) && Get(v', k) == x
    ensures forall k' :: Has(v, k') && k' != k ==> Get(v', k') == Get(v, k')
  {
    var inner := if k.trafo in v then v[k.trafo] else map[];
    v[k.trafo := inner[k.param := x]]
  }

  /** The first `|x|` solver values stored in order, a later value for a
      repeated key overwriting an earlier one. */
  function Fill(keys: seq<Key>, x: seq<real>): (v: VirtualState)
    requires |x| <= |keys|
    ensures forall t :: t in v <==> exists i :: 0 <= i < |x| && keys[i].trafo == t
    ensures forall k :: Has(v, k) <==> exists i :: 0 <= i < |x| && keys[i] == k
    ensures forall i :: 0 <= i < |x| && (forall j :: i < j < |x| ==> keys[j] != keys[i]) ==> Has(v, keys[i]) && Get(v, keys[i]) == x[i]
    decreases |x|
  {
    if x == [] then
      map[]
    else
      var n := |x| - 1;
      var front := Fill(keys, x[..n]);
      assert x == x[..n] + [x[n]];
      FillStep(keys, x[..n], x[n], front);
      Put(front, keys[n], x[n])
  }

  /** One step of `Fill`: the state of the first values, with one more
      value stored. */
  lemma FillStep(keys: seq<Key>, xf: seq<real>, xl: real, front: VirtualState)
    requires |xf| < |keys|
    requires forall t :: t in front <==> exists i :: 0 <= i < |xf| && keys[i].trafo == t
    requires forall k :: Has(front, k) <==> exists i :: 0 <= i < |xf| && keys[i] == k
    requires forall i :: 0 <= i < |xf| && (forall j :: i < j < |xf| ==> keys[j] != keys[i]) ==>
      Has(front, keys[i]) && Get(front, keys[i]) == xf[i]
    ensures var v := Put(front, keys[|xf|], xl); var x := xf + [xl];
      && (forall t :: t in v <==> exists i :: 0 <= i < |x| && keys[i].trafo == t)
      && (forall k :: Has(v, k) <==> exists i :: 0 <= i < |x| && keys[i] == k)
      && (forall i :: 0 <= i < |x| && (forall j :: i < j < |x| ==> keys[j] != keys[i]) ==> Has(v, keys[i]) && Get(v, keys[i]) == x[i])
  {
    var n := |xf|;
    var x := xf + [xl];
    var v := Put(front, keys[n], xl);
    forall t ensures t in v <==> exists i :: 0 <= i < |x| && keys[i].trafo == t {
      if t in v && t != keys[n].trafo {
        var i :| 0 <= i < n && keys[i].trafo == t;
      }
    }
    forall k ensures Has(v, k) <==> exists i :: 0 <= i < |x| && keys[i] == k {
      if Has(v, k) && k != keys[n] {
        var i :| 0 <= i < n && keys[i] == k;
      }
    }
    forall i | 0 <= i < |x| && (forall j :: i < j < |x| ==> keys[j] != keys[i])
      ensures Has(v, keys[i]) && Get(v, keys[i]) == x[i]
    {
      if i < n {
        assert keys[n] != keys[i];
        assert forall j :: i < j < n ==> keys[j] != keys[i];
        assert x[i] == xf[i];
      }
    }
  }

  /** `_solver_to_virtual_state`: the solver value at index `i` is stored
      under key `i`; a vector longer than the key list runs off its end. */
  function SolverToVirtual(keys: seq<Key>, x: seq<real>): (res: Result<VirtualState>)
    ensures res.Err? <==> |x| > |keys|
    ensures res.Err? ==> res.error == SolverIndex(|keys|)
    ensures res.Ok? ==> res.value == Fill(keys, x)
    ensures res.Ok? ==> forall k :: Has(res.value, k) <==> exists i :: 0 <= i < |x| && keys[i] == k
    ensures res.Ok? ==> forall i :: 0 <= i < |x| && (forall j :: i < j < |x| ==> keys[j] != keys[i]) ==>
      Has(res.value, keys[i]) && Get(res.value, keys[i]) == x[i]
  {
    if |x| > |keys| then Err(SolverIndex(|keys|)) else Ok(Fill(keys, x))
  }

  /** `_virtual_to_solver_state`: the value of every key, in key order; the
      first key the state lacks raises. */
  function VirtualToSolver(keys: seq<Key>, v: VirtualState): (res: Result<seq<real>>)
    ensures res.Ok? <==> forall i :: 0 <= i < |keys| ==> Has(v, keys[i])
    ensures res.Ok? ==> |res.value| == |keys| && forall i :: 0 <= i < |keys| ==> res.value[i] == Get(v, keys[i])
    ensures res.Err? ==>
      exists i :: (0 <= i < |keys| && !Has(v, keys[i])
        && (forall j :: 0 <= j < i ==> Has(v, keys[j]))
        && res.error == MissingState(keys[i].trafo, keys[i].param))
    decreases |keys|
  {
    if keys == [] then
      Ok([])
    else if !Has(v, keys[0]) then
      Err(MissingState(keys[0].trafo, keys[0].param))
    else
      var rest := VirtualToSolver(keys[1..], v);
      assert forall i :: 1 <= i < |keys| ==> keys[i] == keys[1..][i - 1];
      if rest.Err? then
        var i :| 0 <= i < |keys| - 1 && !Has(v, keys[1..][i]) && (forall j :: 0 <= j < i ==> Has(v, keys[1..][j]))
          && rest.error == MissingState(keys[1..][i].trafo, keys[1..][i].param);
        assert !Has(v, keys[i + 1]) && forall j :: 0 <= j < i + 1 ==> Has(v, keys[j]);
        Err(rest.error)
      else
        Ok([Get(v, keys[0])] + rest.value)
  }

  ghost predicate DistinctKeyList(keys: seq<Key>) {
    forall i, j :: 0 <= i < j < |keys| ==> keys[i] != keys[j]
  }

  /** Reading back a stored solver vector gives the vector again, when the
      vector has one value per key and no key repeats. */
  lemma SolverRoundTrip(keys: seq<Key>, x: seq<real>)
    requires |x| == |keys| && DistinctKeyList(keys)
    ensures SolverToVirtual(keys, x).Ok?
    ensures VirtualToSolver(keys, SolverToVirtual(keys, x).value) == Ok(x)
  {
    FillDistinct(keys, x);
    ReadBack(keys, Fill(keys, x), x);
  }

  /** With distinct keys every stored value is found under its key. */
  lemma FillDistinct(keys: seq<Key>, x: seq<real>)
    requires |x| == |keys| && DistinctKeyList(keys)
    ensures forall i :: 0 <= i < |keys| ==> Has(Fill(keys, x), keys[i]) && Get(Fill(keys, x), keys[i]) == x[i]
  {
    var v := Fill(keys, x);
    forall i | 0 <= i < |keys| ensures Has(v, keys[i]) && Get(v, keys[i]) == x[i] {
      assert forall j :: i < j < |x| ==> keys[j] != keys[i];
    }
  }

  /** A state holding `x[i]` under every key `i` reads back as `x`. */
  lemma ReadBack(keys: seq<Key>, v: VirtualState, x: seq<real>)
    requires |x| == |keys| && forall i :: 0 <= i < |keys| ==> Has(v, keys[i]) && Get(v, keys[i]) == x[i]
    ensures VirtualToSolver(keys, v) == Ok(x)
  {
    var back := VirtualToSolver(keys, v);
    assert back.Ok?;
    assert back.value == x;
  }

  /** The transformation names the key list mentions. */
  function KeyTrafos(keys: seq<Key>): (ts: set<Name>)
    ensures forall t :: t in ts <==> exists i :: 0 <= i < |keys| && keys[i].trafo == t
  {
    set i | 0 <= i < |keys| :: keys[i].trafo
  }

  /** The part of `v` the key list reaches. */
  function Restrict(v: VirtualState, keys: seq<Key>): VirtualState {
    map t | t in v && t in KeyTrafos(keys) :: RestrictParams(v, keys, t)
  }

  /** The parameters of transformation `t` the key list reaches. */
  function RestrictParams(v: VirtualState, keys: seq<Key>, t: Name): (m: map<Name, real>)
    requires t in v
    ensures forall p :: p in m <==> p in v[t] && Key(t, p) in keys
    ensures forall p :: p in m ==> m[p] == v[t][p]
  {
    map p | p in v[t] && Key(t, p) in keys :: v[t][p]
  }

  /** Storing the values read from a state rebuilds the part of the state
      the keys reach; repeated keys do no harm here. */
  lemma VirtualRoundTrip(keys: seq<Key>, v: VirtualState)
    requires VirtualToSolver(keys, v).Ok?
    ensures SolverToVirtual(keys, VirtualToSolver(keys, v).value) == Ok(Restrict(v, keys))
  {
    var x := VirtualToSolver(keys, v).value;
    var w := Fill(keys, x);
    forall k | Has(w, k) ensures Has(v, k) && Get(w, k) == Get(v, k) {
      // the last write of `k` is the value `v` has for it
      var i :| 0 <= i < |x| && keys[i] == k;
      var last := LastIndex(keys, i);
      assert Get(w, keys[last]) == x[last];
    }
    RebuiltIsRestrict(keys, v, w);
  }

  /** A state that holds exactly the keys of the list, each with the value
      `v` has for it, is `v` restricted to the list. */
  lemma RebuiltIsRestrict(keys: seq<Key>, v: VirtualState, w: VirtualState)
    requires forall t :: t in w <==> exists i :: 0 <= i < |keys| && keys[i].trafo == t
    requires forall k :: Has(w, k) <==> exists i :: 0 <= i < |keys| && keys[i] == k
    requires forall k :: Has(w, k) ==> Has(v, k) && Get(w, k) == Get(v, k)
    ensures w == Restrict(v, keys)
  {
    var rv := Restrict(v, keys);
    forall t ensures t in w <==> t in rv {
      if t in w {
        var i :| 0 <= i < |keys| && keys[i].trafo == t;
        assert Has(w, keys[i]);
      }
    }
    forall t | t in w ensures w[t] == rv[t] {
      RebuiltEntry(keys, v, w, t);
    }
    StatesEqual(w, rv);
  }

  lemma RebuiltEntry(keys: seq<Key>, v: VirtualState, w: VirtualState, t: Name)
    requires forall k :: Has(w, k) <==> exists i :: 0 <= i < |keys| && keys[i] == k
    requires forall k :: Has(w, k) ==> Has(v, k) && Get(w, k) == Get(v, k)
    requires t in w && t in v
    ensures w[t] == RestrictParams(v, keys, t)
  {
    var inner := RestrictParams(v, keys, t);
    forall p ensures (p in w[t] <==> p in inner) && (p in w[t] ==> w[t][p] == inner[p]) {
      var k := Key(t, p);
      if p in w[t] {
        assert Has(w, k);
      }
      if k in keys {
        var j :| 0 <= j < |keys| && keys[j] == k;
        assert Has(w, keys[j]);
      }
    }
    MapsEqual(w[t], inner);
  }

  lemma StatesEqual(a: VirtualState, b: VirtualState)
    requires forall t :: t in a <==> t in b
    requires forall t :: t in a ==> a[t] == b[t]
    ensures a == b
  {
  }

  lemma MapsEqual(a: map<Name, real>, b: map<Name, real>)
    requires forall p :: (p in a <==> p in b) && (p in a ==> a[p] == b[p])
    ensures a == b
  {
  }

  /** The last index at or after `i` holding the key found at `i`. */
  lemma LastIndex(keys: seq<Key>, i: nat) returns (last: nat)
    requires i < |keys|
    ensures i <= last < |keys| && keys[last] == keys[i]
    ensures forall j :: last < j < |keys| ==> keys[j] != keys[i]
    decreases |keys| - i
  {
    if exists j :: i < j < |keys| && keys[j] == keys[i] {
      var j :| i < j < |keys| && keys[j] == keys[i];
      last := LastIndex(keys, j);
    } else {
      last := i;
    }
  }

  // ---------------------------------------------------------------------
  // The solver object

  /** A solver for one end-effector of one robot: the robot it updates, and
      the symbolic representation it was built from. */
  datatype InvKinSolver<M> = InvKinSolver(robot: Robot, endeffector: Name, rep: SymbolicRep<M>)

  /** Builds the solver from the symbolic representation of `endeffector`;
      an end-effector whose chain cannot be resolved is refused. */
  function NewSolver<M>(r: Robot, endeffector: Name, symEval: Transformation -> M, mul: (M, M) -> M, one: M): (res: Result<InvKinSolver<M>>)
    ensures endeffector !in r.groups ==> res == Err(UnknownGroup(endeffector))
    ensures res.Ok? <==> GetSymbolicRep(r, endeffector, symEval, mul, one).Ok?
    ensures res.Ok? ==>
      && res.value.robot == r && res.value.endeffector == endeffector
      && res.value.rep == GetSymbolicRep(r, endeffector, symEval, mul, one).value
  {
    var rep :- GetSymbolicRep(r, endeffector, symEval, mul, one);
    Ok(InvKinSolver(r, endeffector, rep))
  }

  function Zeros(n: nat): (z: seq<real>)
    ensures |z| == n && forall i :: 0 <= i < n ==> z[i] == 0.0
  {
    seq(n, _ => 0.0)
  }

  /** The start vector of a solve: all zeros without an initial guess,
      otherwise the guess read along the key list. */
  function StartVector(keys: seq<Key>, initial: Option<VirtualState>): (res: Result<seq<real>>)
    ensures res.Ok? ==> |res.value| == |keys|
    ensures initial.None? ==> res == Ok(Zeros(|keys|))
    ensures initial.Some? ==> res == VirtualToSolver(keys, initial.value)
  {
    if initial.None? then Ok(Zeros(|keys|)) else VirtualToSolver(keys, initial.value)
  }

  /** `solve_virtual`: the start vector goes to the numerical solver
      `nlp` together with the target, and its answer is stored as a virtual
      state. A start vector of the wrong length is refused, though none can
      arise. */
  function SolveVirtual<M>(s: InvKinSolver<M>, target: seq<real>, initial: Option<VirtualState>,
                           nlp: (seq<real>, seq<real>) -> seq<real>): (res: Result<VirtualState>)
    ensures !(res.Err? && res.error.Arity?)
    ensures res.Err? ==> res.error.MissingState? || res.error.SolverIndex?
    ensures initial.Some? && (exists i :: 0 <= i < |s.rep.keys| && !Has(initial.value, s.rep.keys[i])) ==>
      res.Err? && res.error.MissingState?
    ensures res.Ok? ==> exists x0 :: |x0| == |s.rep.keys| && res == SolverToVirtual(s.rep.keys, nlp(x0, target))
    ensures StartVector(s.rep.keys, initial).Ok? ==>
      res == SolverToVirtual(s.rep.keys, nlp(StartVector(s.rep.keys, initial).value, target))
  {
    var keys := s.rep.keys;
    var x0 :- StartVector(keys, initial);
    if |x0| != |keys| then
      Err(Arity(|x0|, |keys|))
    else
      SolverToVirtual(keys, nlp(x0, target))
  }

  /** Started from a state the solver leaves where it is, solving returns
      that state, restricted to the solver's keys. */
  lemma SolveVirtualWarmStart<M>(s: InvKinSolver<M>, target: seq<real>, v: VirtualState,
                                 nlp: (seq<real>, seq<real>) -> seq<real>)
    requires VirtualToSolver(s.rep.keys, v).Ok?
    requires nlp(VirtualToSolver(s.rep.keys, v).value, target) == VirtualToSolver(s.rep.keys, v).value
    ensures SolveVirtual(s, target, Some(v), nlp) == Ok(Restrict(v, s.rep.keys))
  {
    VirtualRoundTrip(s.rep.keys, v);
  }

  /** Without an initial guess the solver starts from zeros, and when it
      answers with one value per key, distinct keys give back exactly that
      answer on reading the state along the keys. */
  lemma SolveVirtualCold<M>(s: InvKinSolver<M>, target: seq<real>, nlp: (seq<real>, seq<real>) -> seq<real>)
    requires DistinctKeyList(s.rep.keys)
    requires |nlp(Zeros(|s.rep.keys|), target)| == |s.rep.keys|
    ensures SolveVirtual(s, target, None, nlp).Ok?
    ensures VirtualToSolver(s.rep.keys, SolveVirtual(s, target, None, nlp).value) == Ok(nlp(Zeros(|s.rep.keys|), target))
  {
    SolverRoundTrip(s.rep.keys, nlp(Zeros(|s.rep.keys|), target));
  }

  // ---------------------------------------------------------------------
  // solve_actuated

  /** The distinct transformation names of `keys`, in order of first
      appearance: the order in which a stored state gains its entries. */
  function TrafoOrder(keys: seq<Key>): (ns: seq<Name>)
    ensures forall i, j :: 0 <= i < j < |ns| ==> ns[i] != ns[j]
    ensures forall t :: t in ns <==> exists i :: 0 <= i < |keys| && keys[i].trafo == t
    ensures forall i, j :: 0 <= i < j < |ns| ==> FirstBefore(keys, ns[i], ns[j])
    decreases |keys|
  {
    if keys == [] then
      []
    else
      var n := |keys| - 1;
      var front := TrafoOrder(keys[..n]);
      assert forall i :: 0 <= i < n ==> keys[..n][i] == keys[i];
      var ns := if keys[n].trafo in front then front else front + [keys[n].trafo];
      TrafoOrderStep(keys, front, ns);
      ns
  }

  /** Transformation `a` has a key before every key of transformation `b`:
      `a` enters a stored state before `b` does. */
  ghost predicate FirstBefore(keys: seq<Key>, a: Name, b: Name) {
    forall q :: 0 <= q < |keys| && keys[q].trafo == b ==> exists p :: 0 <= p < q && keys[p].trafo == a
  }

  lemma TrafoOrderStep(keys: seq<Key>, front: seq<Name>, ns: seq<Name>)
    requires keys != []
    requires forall t :: t in front <==> exists i :: 0 <= i < |keys| - 1 && keys[i].trafo == t
    requires forall i, j :: 0 <= i < j < |front| ==> FirstBefore(keys[..|keys| - 1], front[i], front[j])
    requires ns == if keys[|keys| - 1].trafo in front then front else front + [keys[|keys| - 1].trafo]
    ensures forall i, j :: 0 <= i < j < |ns| ==> FirstBefore(keys, ns[i], ns[j])
  {
    var n := |keys| - 1;
    forall i, j | 0 <= i < j < |ns| ensures FirstBefore(keys, ns[i], ns[j]) {
      assert ns[i] == front[i] && front[i] in front;
      if j < |front| {
        assert ns[j] == front[j];
      } else {
        assert forall q :: 0 <= q < n ==> keys[..n][q] == keys[q];
      }
      FirstBeforeSnoc(keys, ns[i], ns[j]);
    }
  }

  /** One more key keeps `a` first when `a` already had a key. */
  lemma FirstBeforeSnoc(keys: seq<Key>, a: Name, b: Name)
    requires keys != [] && FirstBefore(keys[..|keys| - 1], a, b)
    requires exists p :: 0 <= p < |keys| - 1 && keys[p].trafo == a
    ensures FirstBefore(keys, a, b)
  {
    var n := |keys| - 1;
    forall q | 0 <= q < |keys| && keys[q].trafo == b ensures exists p :: 0 <= p < q && keys[p].trafo == a {
      if q < n {
        assert keys[..n][q] == keys[q];
        var p :| 0 <= p < q && keys[..n][p].trafo == a;
        assert keys[p] == keys[..n][p];
      }
    }
  }

  /** The entries of `v` as the per-transformation updates routed by
      `set_virtual_state`, in the order `order` gives. */
  function Updates(order: seq<Name>, v: VirtualState): (u: seq<(Name, map<Name, real>)>)
    requires forall i, j :: 0 <= i < j < |order| ==> order[i] != order[j]
    ensures DistinctKeys(u)
    ensures forall i :: 0 <= i < |u| ==> u[i].0 in v && u[i].1 == v[u[i].0]
    ensures forall t :: t in v && t in order <==> t in Heads(u)
    ensures forall i :: 0 <= i < |u| ==> u[i].0 in order
    ensures forall i, j :: 0 <= i < j < |u| ==> InOrder(order, u[i].0, u[j].0)
    decreases |order|
  {
    if order == [] then
      []
    else
      var rest := Updates(order[1..], v);
      UpdatesStep(order, v, rest);
      var u := if order[0] in v then [(order[0], v[order[0]])] + rest else rest;
      UpdatesOrderStep(order, rest, u);
      u
  }

  /** `a` is listed before `b` in `order`. */
  ghost predicate InOrder(order: seq<Name>, a: Name, b: Name) {
    exists p, q :: 0 <= p < q < |order| && order[p] == a && order[q] == b
  }

  /** The order of `Updates` survives putting the head's entry in front. */
  lemma UpdatesOrderStep<X>(order: seq<Name>, rest: seq<(Name, X)>, u: seq<(Name, X)>)
    requires order != []
    requires forall i :: 0 <= i < |rest| ==> rest[i].0 in order[1..]
    requires forall i, j :: 0 <= i < j < |rest| ==> InOrder(order[1..], rest[i].0, rest[j].0)
    requires u == rest || (|u| == |rest| + 1 && u[0].0 == order[0] && u[1..] == rest)
    ensures forall i :: 0 <= i < |u| ==> u[i].0 in order
    ensures forall i, j :: 0 <= i < j < |u| ==> InOrder(order, u[i].0, u[j].0)
  {
    if u == rest {
      forall i | 0 <= i < |u| ensures u[i].0 in order {
        InTail(order, u[i].0);
      }
      forall i, j | 0 <= i < j < |u| ensures InOrder(order, u[i].0, u[j].0) {
        InOrderTail(order, u[i].0, u[j].0);
      }
    } else {
      forall i | 0 <= i < |u| ensures u[i].0 in order {
        if i > 0 {
          assert u[i] == rest[i - 1];
          InTail(order, u[i].0);
        }
      }
      forall i, j | 0 <= i < j < |u| ensures InOrder(order, u[i].0, u[j].0) {
        assert u[j] == rest[j - 1];
        if i == 0 {
          InOrderHead(order, u[j].0);
        } else {
          assert u[i] == rest[i - 1];
          InOrderTail(order, u[i].0, u[j].0);
        }
      }
    }
  }

  lemma InOrderTail(order: seq<Name>, a: Name, b: Name)
    requires order != [] && InOrder(order[1..], a, b)
    ensures InOrder(order, a, b)
  {
    var p, q :| 0 <= p < q < |order[1..]| && order[1..][p] == a && order[1..][q] == b;
    assert order[p + 1] == a && order[q + 1] == b;
  }

  lemma InOrderHead(order: seq<Name>, b: Name)
    requires order != [] && b in order[1..]
    ensures InOrder(order, order[0], b)
  {
    var q := Chains.IndexOf(order[1..], b);
    assert order[q + 1] == b;
  }

  lemma InTail(order: seq<Name>, t: Name)
    requires order != [] && t in order[1..]
    ensures t in order
  {
    var q := Chains.IndexOf(order[1..], t);
    assert order[q + 1] == t;
  }

  /** One step of `Updates`: the updates of the tail, preceded by the head's
      entry when the state has one. */
  lemma UpdatesStep(order: seq<Name>, v: VirtualState, rest: seq<(Name, map<Name, real>)>)
    requires order != [] && forall i, j :: 0 <= i < j < |order| ==> order[i] != order[j]
    requires DistinctKeys(rest)
    requires forall i :: 0 <= i < |rest| ==> rest[i].0 in v && rest[i].1 == v[rest[i].0]
    requires forall t :: t in v && t in order[1..] <==> t in Heads(rest)
    ensures var u := if order[0] in v then [(order[0], v[order[0]])] + rest else rest;
      && DistinctKeys(u)
      && (forall i :: 0 <= i < |u| ==> u[i].0 in v && u[i].1 == v[u[i].0])
      && (forall t :: t in v && t in order <==> t in Heads(u))
  {
    assert forall t :: t in order <==> t == order[0] || t in order[1..];
    if order[0] in v {
      UpdatesCons(order, v, rest);
    }
  }

  /** The head's entry put in front of the updates of the tail. */
  lemma UpdatesCons(order: seq<Name>, v: VirtualState, rest: seq<(Name, map<Name, real>)>)
    requires order != [] && forall i, j :: 0 <= i < j < |order| ==> order[i] != order[j]
    requires order[0] in v && DistinctKeys(rest)
    requires forall i :: 0 <= i < |rest| ==> rest[i].0 in v && rest[i].1 == v[rest[i].0]
    requires forall t :: t in v && t in order[1..] <==> t in Heads(rest)
    ensures var u := [(order[0], v[order[0]])] + rest;
      && DistinctKeys(u)
      && (forall i :: 0 <= i < |u| ==> u[i].0 in v && u[i].1 == v[u[i].0])
      && (forall t :: t in v && t in order <==> t in Heads(u))
  {
    assert forall t :: t in order <==> t == order[0] || t in order[1..];
    assert order[0] !in order[1..];
    var e := (order[0], v[order[0]]);
    forall i | 0 <= i < |rest| ensures rest[i].0 != order[0] {
      assert rest[i].0 in order[1..];
    }
    ConsDistinct(e, rest);
    ConsNames(e, rest);
  }

  lemma ConsDistinct<X>(e: (Name, X), rest: seq<(Name, X)>)
    requires DistinctKeys(rest) && forall i :: 0 <= i < |rest| ==> rest[i].0 != e.0
    ensures DistinctKeys([e] + rest)
  {
    var u := [e] + rest;
    assert forall i :: 0 < i < |u| ==> u[i] == rest[i - 1];
  }

  lemma ConsNames<X>(e: (Name, X), rest: seq<(Name, X)>)
    ensures var u := [e] + rest;
      && u[0] == e
      && (forall i :: 0 < i < |u| ==> u[i] == rest[i - 1])
      && Heads(u) == [e.0] + Heads(rest)
  {
  }

  /** The first components of `s`, in order. */
  function Heads<X>(s: seq<(Name, X)>): (hs: seq<Name>)
    ensures |hs| == |s| && forall i :: 0 <= i < |s| ==> hs[i] == s[i].0
  {
    seq(|s|, i requires 0 <= i < |s| => s[i].0)
  }

  /** Updates that cover a state name only registered keys exactly when
      the state does. */
  lemma UpdatesCover(u: seq<(Name, map<Name, real>)>, v: VirtualState, owner: map<Name, Name>)
    requires forall i :: 0 <= i < |u| ==> u[i].0 in v
    requires forall t :: t in v ==> t in Heads(u)
    ensures (forall i :: 0 <= i < |u| ==> u[i].0 in owner) <==> v.Keys <= owner.Keys
  {
    if forall i :: 0 <= i < |u| ==> u[i].0 in owner {
      forall t | t in v ensures t in owner {
        var i :| 0 <= i < |u| && Heads(u)[i] == t;
      }
    }
  }

  /** The tail of `solve_actuated`: route a solved state to the robot, one
      transformation at a time in key order, then read back the actuated
      state. */
  function ApplySolution(r: Robot, v: VirtualState, keys: seq<Key>,
                       apply: (Group, map<Name, map<Name, real>>) -> Group): (out: (Robot, Result<map<Name, Value>>))
    requires Wf(r) && forall t :: t in v ==> t in TrafoOrder(keys)
    ensures SameShape(r, out.0)
    ensures out.1.Ok? <==> v.Keys <= r.virtualOwner.Keys
    ensures out.1.Ok? ==> Wf(out.0) && out.1.value == GetActuatedState(out.0)
    ensures out.0 == SetVirtualState(r, Updates(TrafoOrder(keys), v), apply).after
    ensures out.1.Err? ==> SetVirtualState(r, Updates(TrafoOrder(keys), v), apply).raised == Some(out.1.error)
  {
    var order := TrafoOrder(keys);
    var u := Updates(order, v);
    var routed := SetVirtualState(r, u, apply);
    SameShapeWf(r, routed.after);
    UpdatesCover(u, v, r.virtualOwner);
    if routed.raised.Some? then
      (routed.after, Err(routed.raised.value))
    else
      (routed.after, Ok(GetActuatedState(routed.after)))
  }

  /** `solve_actuated`: solve for the virtual state, forward the mapping
      hints if any, route the solved state to the robot, and read back the
      robot's actuated state. The solver keeps the robot as these calls
      leave it, also when one of them raises. */
  function SolveActuated<M>(s: InvKinSolver<M>, target: seq<real>, initial: Option<VirtualState>,
                            hints: Option<seq<(Name, Hint)>>,
                            nlp: (seq<real>, seq<real>) -> seq<real>,
                            pass: (Group, Mapping, Hint) -> Group,
                            apply: (Group, map<Name, map<Name, real>>) -> Group): (out: (InvKinSolver<M>, Result<map<Name, Value>>))
    requires Wf(s.robot)
    ensures out.0.endeffector == s.endeffector && out.0.rep == s.rep && SameShape(s.robot, out.0.robot)
    ensures SolveVirtual(s, target, initial, nlp).Err? ==> out == (s, Err(SolveVirtual(s, target, initial, nlp).error))
    ensures out.1.Ok? <==>
      && SolveVirtual(s, target, initial, nlp).Ok?
      && (hints.Some? ==> forall i :: 0 <= i < |hints.value| ==> hints.value[i].0 in s.robot.groups)
      && SolveVirtual(s, target, initial, nlp).value.Keys <= s.robot.virtualOwner.Keys
    ensures out.1.Ok? ==> Wf(out.0.robot) && out.1.value == GetActuatedState(out.0.robot)
    ensures SolveVirtual(s, target, initial, nlp).Ok? ==>
      (out.0.robot, out.1) == Actuate(s.robot, SolveVirtual(s, target, initial, nlp).value, s.rep.keys, hints, pass, apply)
  {
    match SolveVirtual(s, target, initial, nlp)
    case Err(e) => (s, Err(e))
    case Ok(v) =>
      SolvedKeysInOrder(s.rep.keys, v, target, initial, nlp, s);
      var (robot, res) := Actuate(s.robot, v, s.rep.keys, hints, pass, apply);
      (s.(robot := robot), res)
  }

  /** The part of `solve_actuated` after the solve: forward the hints if
      any, then apply the solved state `v`. */
  function Actuate(r: Robot, v: VirtualState, keys: seq<Key>, hints: Option<seq<(Name, Hint)>>,
                   pass: (Group, Mapping, Hint) -> Group,
                   apply: (Group, map<Name, map<Name, real>>) -> Group): (out: (Robot, Result<map<Name, Value>>))
    requires Wf(r) && forall t :: t in v ==> t in TrafoOrder(keys)
    ensures SameShape(r, out.0)
    ensures out.1.Ok? <==>
      && (hints.Some? ==> forall i :: 0 <= i < |hints.value| ==> hints.value[i].0 in r.groups)
      && v.Keys <= r.virtualOwner.Keys
    ensures out.1.Ok? ==> Wf(out.0) && out.1.value == GetActuatedState(out.0)
    ensures var h := Hinted(r, hints, pass);
      out == (if h.raised.Some? then (h.after, Err(h.raised.value)) else ApplySolution(h.after, v, keys, apply))
  {
    var hinted := Hinted(r, hints, pass);
    if hinted.raised.Some? then
      (hinted.after, Err(hinted.raised.value))
    else
      ApplySolution(hinted.after, v, keys, apply)
  }

  /** The first step of `solve_actuated` after the solve: the hints, if
      any, are passed from virtual to actuated state. */
  function Hinted(r: Robot, hints: Option<seq<(Name, Hint)>>, pass: (Group, Mapping, Hint) -> Group): (h: Outcome)
    requires Wf(r)
    ensures SameShape(r, h.after) && Wf(h.after)
    ensures hints.None? ==> h == Outcome(r, None)
    ensures hints.Some? ==> h == PassGroupArg(r, VirtualToActuated, hints.value, pass)
  {
    if hints.Some? then PassGroupArg(r, VirtualToActuated, hints.value, pass) else Outcome(r, None)
  }

  /** A group that no hint names keeps its record through the hint step. */
  lemma HintedFrame(r: Robot, hints: Option<seq<(Name, Hint)>>, pass: (Group, Mapping, Hint) -> Group, n: Name)
    requires Wf(r) && n in r.groups
    requires hints.Some? ==> forall i :: 0 <= i < |hints.value| ==> hints.value[i].0 != n
    ensures Hinted(r, hints, pass).after.groups[n] == r.groups[n]
  {
    if hints.Some? {
      PassHintsFrame(r.groups, VirtualToActuated, hints.value, pass, n);
    }
  }

  /** A failed application names the first solved transformation, in key
      order, that is not a registered virtual key, and leaves the robot as
      the names before it made it. */
  lemma ApplySolutionFirstUnknown(r: Robot, v: VirtualState, keys: seq<Key>,
                                  apply: (Group, map<Name, map<Name, real>>) -> Group) returns (i: nat)
    requires Wf(r) && forall t :: t in v ==> t in TrafoOrder(keys)
    requires ApplySolution(r, v, keys, apply).1.Err?
    ensures var u := Updates(TrafoOrder(keys), v);
      && i < |u| && u[i].0 in v && u[i].0 !in r.virtualOwner
      && (forall j :: 0 <= j < i ==> u[j].0 in r.virtualOwner)
      && ApplySolution(r, v, keys, apply) ==
         (SetVirtualState(r, u[..i], apply).after, Err(UnknownVirtual(u[i].0)))
  {
    var u := Updates(TrafoOrder(keys), v);
    i := FirstUnregistered(u, r.virtualOwner);
    SetVirtualStateStopsAtUnknown(r, u, i, apply);
  }

  /** The first entry of `u` whose name `owner` does not register. */
  lemma FirstUnregistered<X>(u: seq<(Name, X)>, owner: map<Name, Name>) returns (i: nat)
    requires exists j :: 0 <= j < |u| && u[j].0 !in owner
    ensures i < |u| && u[i].0 !in owner
    ensures forall j :: 0 <= j < i ==> u[j].0 in owner
  {
    i := 0;
    while u[i].0 in owner
      invariant i < |u|
      invariant forall j :: 0 <= j < i ==> u[j].0 in owner
      invariant exists j :: i <= j < |u| && u[j].0 !in owner
      decreases |u| - i
    {
      i := i + 1;
    }
  }

  /** A group that owns no name of the solved state keeps its record. */
  lemma ApplySolutionFrame(r: Robot, v: VirtualState, keys: seq<Key>,
                           apply: (Group, map<Name, map<Name, real>>) -> Group, n: Name)
    requires Wf(r) && forall t :: t in v ==> t in TrafoOrder(keys)
    requires n in r.groups && forall t :: t in v && t in r.virtualOwner ==> r.virtualOwner[t] != n
    ensures ApplySolution(r, v, keys, apply).0.groups[n] == r.groups[n]
  {
    SetVirtualStateFrame(r, Updates(TrafoOrder(keys), v), apply, n);
  }

  /** A group that no hint names and that owns no name of the solved state
      comes out of `solve_actuated` as it went in. */
  lemma ActuateFrame(r: Robot, v: VirtualState, keys: seq<Key>, hints: Option<seq<(Name, Hint)>>,
                     pass: (Group, Mapping, Hint) -> Group,
                     apply: (Group, map<Name, map<Name, real>>) -> Group, n: Name)
    requires Wf(r) && forall t :: t in v ==> t in TrafoOrder(keys)
    requires n in r.groups && forall t :: t in v && t in r.virtualOwner ==> r.virtualOwner[t] != n
    requires hints.Some? ==> forall i :: 0 <= i < |hints.value| ==> hints.value[i].0 != n
    ensures Actuate(r, v, keys, hints, pass, apply).0.groups[n] == r.groups[n]
  {
    var h := Hinted(r, hints, pass);
    HintedFrame(r, hints, pass, n);
    if h.raised.None? {
      ApplySolutionFrame(h.after, v, keys, apply, n);
    }
  }

  /** Every transformation of a solved state appears in the key order. */
  lemma SolvedKeysInOrder<M>(keys: seq<Key>, v: VirtualState, target: seq<real>, initial: Option<VirtualState>,
                             nlp: (seq<real>, seq<real>) -> seq<real>, s: InvKinSolver<M>)
    requires keys == s.rep.keys && SolveVirtual(s, target, initial, nlp) == Ok(v)
    ensures forall t :: t in v ==> t in TrafoOrder(keys)
  {
    var x0 :| |x0| == |keys| && Ok(v) == SolverToVirtual(keys, nlp(x0, target));
  }
}
