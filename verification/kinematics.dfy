/** Forward kinematics and the symbolic representation of a chain. Pose
    matrices are left abstract: a matrix is a value of a type parameter `M`,
    multiplied by `mul` with identity `one`; the laws of matrix product that
    the results depend on are stated as hypotheses. */
module Kinematics {
  import opened Errors
  import opened Groups
  import opened Chains
  import opened Robots

  ghost predicate Associative<M(!new)>(mul: (M, M) -> M) {
    forall a, b, c {:trigger mul(mul(a, b), c)} :: mul(mul(a, b), c) == mul(a, mul(b, c))
  }

  ghost predicate Identity<M(!new)>(mul: (M, M) -> M, one: M) {
    (forall a :: mul(one, a) == a) && (forall a :: mul(a, one) == a)
  }

  /** The product `acc · ms[0] · … · ms[n-1]` accumulated left to right, as
      the loops of Robot.py multiply onto their running matrix: the first step
      multiplies `acc` by `ms[0]`, and the loop goes on from that matrix. */
  function Compose<M>(mul: (M, M) -> M, acc: M, ms: seq<M>): (m: M)
    ensures ms != [] ==> m == Compose(mul, mul(acc, ms[0]), ms[1..])
    decreases |ms|
  {
    if ms == [] then
      acc
    else
      var n := |ms| - 1;
      var front := Compose(mul, acc, ms[..n]);
      assert n > 0 ==> ms[1..][..n - 1] == ms[..n][1..] && ms[1..][n - 1] == ms[n];
      mul(front, ms[n])
  }

  /** The reference product, nested to the right. */
  function Product<M>(mul: (M, M) -> M, one: M, ms: seq<M>): M
    decreases |ms|
  {
    if ms == [] then one else mul(ms[0], Product(mul, one, ms[1..]))
  }

  lemma {:induction false} ProductSnoc<M(!new)>(mul: (M, M) -> M, one: M, ms: seq<M>, m: M)
    requires Associative(mul) && Identity(mul, one)
    ensures Product(mul, one, ms + [m]) == mul(Product(mul, one, ms), m)
    decreases |ms|
  {
    if ms == [] {
      assert [] + [m] == [m];
      assert [m][1..] == [];
    } else {
      assert (ms + [m])[1..] == ms[1..] + [m];
      ProductSnoc(mul, one, ms[1..], m);
    }
  }

  lemma {:induction false} ProductConcat<M(!new)>(mul: (M, M) -> M, one: M, a: seq<M>, b: seq<M>)
    requires Associative(mul) && Identity(mul, one)
    ensures Product(mul, one, a + b) == mul(Product(mul, one, a), Product(mul, one, b))
    decreases |a|
  {
    if a == [] {
      assert [] + b == b;
    } else {
      assert (a + b)[1..] == a[1..] + b;
      ProductConcat(mul, one, a[1..], b);
    }
  }

  /** Accumulating from the identity, left to right, gives the product. */
  lemma {:induction false} ComposeIsProduct<M(!new)>(mul: (M, M) -> M, one: M, ms: seq<M>)
    requires Associative(mul) && Identity(mul, one)
    ensures Compose(mul, one, ms) == Product(mul, one, ms)
    decreases |ms|
  {
    if ms != [] {
      var front := ms[..|ms| - 1];
      var last := ms[|ms| - 1];
      assert ms == front + [last];
      calc {
        Compose(mul, one, ms);
        mul(Compose(mul, one, front), last);
        { ComposeIsProduct(mul, one, front); }
        mul(Product(mul, one, front), last);
        { ProductSnoc(mul, one, front, last); }
        Product(mul, one, front + [last]);
      }
    }
  }

  /** Accumulating over a list that grows by one matrix multiplies once more. */
  lemma ComposeSnoc<M>(mul: (M, M) -> M, acc: M, ms: seq<M>, m: M)
    ensures Compose(mul, acc, ms + [m]) == mul(Compose(mul, acc, ms), m)
  {
    assert (ms + [m])[..|ms|] == ms;
  }

  /** The matrix of each group of `c`, in order. */
  function GroupMatrices<M>(groups: map<Name, Group>, c: seq<Name>, eval: Group -> M): (ms: seq<M>)
    requires forall i :: 0 <= i < |c| ==> c[i] in groups
    ensures |ms| == |c|
  {
    seq(|c|, i requires 0 <= i < |c| && c[i] in groups => eval(groups[c[i]]))
  }

  /** The pose of `end` relative to the root: the matrices of the groups on
      its chain multiplied root first, starting from the identity. `eval`
      gives a group's matrix for its current state. */
  function ForwardKinematics<M>(r: Robot, end: Name, eval: Group -> M, mul: (M, M) -> M, one: M): (res: Result<M>)
    ensures end !in r.groups ==> res == Err(UnknownGroup(end))
    ensures res.Ok? <==> exists c :: IsChainTo(r.groups, c, end)
    ensures res.Err? ==> res.error == Topology || (res.error.UnknownGroup? && res.error.name !in r.groups)
  {
    ChainExistsIff(r.groups, end);
    var c :- ResolveChain(r.groups, end);
    Ok(Compose(mul, one, GroupMatrices(r.groups, c, eval)))
  }

  /** A chain can be resolved exactly when one exists. */
  lemma ChainExistsIff(groups: map<Name, Group>, end: Name)
    ensures ResolveChain(groups, end).Ok? <==> exists c :: IsChainTo(groups, c, end)
  {
    if exists c :: IsChainTo(groups, c, end) {
      var c :| IsChainTo(groups, c, end);
      ResolveChainIff(groups, c, end);
    }
  }

  /** Along any chain that leads to `end`, forward kinematics is the product
      identity · M(c[0]) · … · M(c[n-1]). */
  lemma ForwardIsChainProduct<M(!new)>(r: Robot, end: Name, eval: Group -> M, mul: (M, M) -> M, one: M, c: seq<Name>)
    requires Associative(mul) && Identity(mul, one)
    requires IsChainTo(r.groups, c, end)
    ensures ForwardKinematics(r, end, eval, mul, one) == Ok(Product(mul, one, GroupMatrices(r.groups, c, eval)))
  {
    ResolveChainIff(r.groups, c, end);
    ComposeIsProduct(mul, one, GroupMatrices(r.groups, c, eval));
  }

  /** A root on its own yields just its matrix. */
  lemma ForwardRoot<M(!new)>(r: Robot, end: Name, eval: Group -> M, mul: (M, M) -> M, one: M)
    requires forall a :: mul(one, a) == a
    requires end in r.groups && r.groups[end].parent == end
    ensures ForwardKinematics(r, end, eval, mul, one) == Ok(eval(r.groups[end]))
  {
    assert IsChainTo(r.groups, [end], end);
    ResolveChainIff(r.groups, [end], end);
    var ms := GroupMatrices(r.groups, [end], eval);
    assert ms == [] + [eval(r.groups[end])];
    ComposeSnoc(mul, one, [], eval(r.groups[end]));
  }

  /** Below a known parent, a group's pose is its parent's pose times its own
      matrix; whatever error the parent's chain has, the group's chain has
      too. No law of `mul` is needed. */
  lemma ForwardStep<M>(r: Robot, end: Name, eval: Group -> M, mul: (M, M) -> M, one: M)
    requires end in r.groups && r.groups[end].parent != end && r.groups[end].parent in r.groups
    ensures ForwardKinematics(r, end, eval, mul, one) ==
      match ForwardKinematics(r, r.groups[end].parent, eval, mul, one)
      case Ok(m) => Ok(mul(m, eval(r.groups[end])))
      case Err(e) => Err(e)
  {
    var p := r.groups[end].parent;
    ResolveChainStep(r.groups, end);
    match ResolveChain(r.groups, p)
    case Ok(c) => {
      var ms := GroupMatrices(r.groups, c, eval);
      assert GroupMatrices(r.groups, c + [end], eval) == ms + [eval(r.groups[end])];
      ComposeSnoc(mul, one, ms, eval(r.groups[end]));
    }
    case Err(e) => {}
  }

  // ---------------------------------------------------------------------
  // Symbolic representation

  /** A free parameter: the transformation it belongs to and its name there. */
  datatype Key = Key(trafo: Name, param: Name)

  /** What `get_symbolic_rep` returns: the chain's matrix over symbolic
      parameters, the parameters' symbol names and their keys, aligned. */
  datatype SymbolicRep<M> = SymbolicRep(matrix: M, symbols: seq<string>, keys: seq<Key>)

  /** The symbol a parameter gets: transformation name, underscore, parameter. */
  function Symbol(k: Key): (s: string)
    ensures |s| == |k.trafo| + 1 + |k.param|
    ensures s[..|k.trafo|] == k.trafo && s[|k.trafo|] == '_' && s[|k.trafo| + 1..] == k.param
  {
    k.trafo + "_" + k.param
  }

  /** The transformations of the groups of `c`, group by group. */
  function ChainTrafos(groups: map<Name, Group>, c: seq<Name>): (ts: seq<Transformation>)
    requires forall i :: 0 <= i < |c| ==> c[i] in groups
    ensures forall t :: t in ts <==> exists i :: 0 <= i < |c| && t in groups[c[i]].trafos
    decreases |c|
  {
    if c == [] then
      []
    else
      var rest := ChainTrafos(groups, c[1..]);
      assert forall i :: 1 <= i < |c| ==> c[i] == c[1..][i - 1];
      groups[c[0]].trafos + rest
  }

  /** The keys of the free parameters of `ts`, transformation by
      transformation, each in its declared order. */
  function KeysOf(ts: seq<Transformation>): (keys: seq<Key>)
    ensures forall k :: k in keys <==> exists i :: 0 <= i < |ts| && k.trafo == ts[i].name && k.param in ts[i].stateVars
    decreases |ts|
  {
    if ts == [] then
      []
    else
      var own := seq(|ts[0].stateVars|, j requires 0 <= j < |ts[0].stateVars| => Key(ts[0].name, ts[0].stateVars[j]));
      var rest := KeysOf(ts[1..]);
      assert forall k: Key :: k in own <==> k.trafo == ts[0].name && k.param in ts[0].stateVars by {
        forall k: Key | k.trafo == ts[0].name && k.param in ts[0].stateVars ensures k in own {
          var j :| 0 <= j < |ts[0].stateVars| && ts[0].stateVars[j] == k.param;
          assert own[j] == k;
        }
      }
      assert forall i :: 1 <= i < |ts| ==> ts[i] == ts[1..][i - 1];
      own + rest
  }

  /** A wrapped transformation gets symbolic keys exactly for the entries of
      the virtual state its group registers: the group has virtual state
      exactly when it has a key, and the keys are its virtual parameters. */
  lemma OpenGroupKeys(t: Trafo, parent: Name)
    ensures var g := OpenGroup(t, parent);
      && (g.Stateful() <==> KeysOf(g.trafos) != [])
      && forall k :: k in KeysOf(g.trafos) <==> k.trafo in g.virtual && k.param in g.virtual[k.trafo]
  {
    var g := OpenGroup(t, parent);
    var keys := KeysOf(g.trafos);
    assert g.trafos == [t];
    assert keys != [] ==> keys[0] in keys;
    if g.Stateful() {
      var p :| p in t.state;
      assert Key(t.name, p) in keys;
    }
  }

  /** Keys follow the transformations' order: the keys of a concatenation
      are the keys of its parts, concatenated. */
  lemma {:induction false} KeysOfConcat(a: seq<Transformation>, b: seq<Transformation>)
    ensures KeysOf(a + b) == KeysOf(a) + KeysOf(b)
    decreases |a|
  {
    if a == [] {
      assert [] + b == b;
    } else {
      assert (a + b)[0] == a[0];
      assert (a + b)[1..] == a[1..] + b;
      KeysOfConcat(a[1..], b);
    }
  }

  /** The matrix of each transformation of `ts`, in order. */
  function TrafoMatrices<M>(ts: seq<Transformation>, symEval: Transformation -> M): (ms: seq<M>)
    ensures |ms| == |ts|
  {
    seq(|ts|, i requires 0 <= i < |ts| => symEval(ts[i]))
  }

  /** `get_symbolic_rep`: the chain of `end` is resolved like that of forward
      kinematics; every free parameter of every transformation on it, root
      first, gets a symbol and a key, and the transformations' matrices over
      those symbols (`symEval`) are multiplied onto the identity. */
  function GetSymbolicRep<M>(r: Robot, end: Name, symEval: Transformation -> M, mul: (M, M) -> M, one: M): (res: Result<SymbolicRep<M>>)
    ensures end !in r.groups ==> res == Err(UnknownGroup(end))
    ensures res.Ok? <==> exists c :: IsChainTo(r.groups, c, end)
    ensures res.Err? ==> res.error == Topology || (res.error.UnknownGroup? && res.error.name !in r.groups)
    ensures res.Ok? ==>
      && |res.value.symbols| == |res.value.keys|
      && forall i :: 0 <= i < |res.value.keys| ==> res.value.symbols[i] == Symbol(res.value.keys[i])
  {
    ChainExistsIff(r.groups, end);
    var c :- ResolveChain(r.groups, end);
    var ts := ChainTrafos(r.groups, c);
    var keys := KeysOf(ts);
    Ok(SymbolicRep(Compose(mul, one, TrafoMatrices(ts, symEval)), seq(|keys|, i requires 0 <= i < |keys| => Symbol(keys[i])), keys))
  }

  /** The keys of the symbolic representation are the free parameters of the
      transformations of the groups on the chain, and nothing else. */
  lemma SymbolicKeysAlongChain<M>(r: Robot, end: Name, symEval: Transformation -> M, mul: (M, M) -> M, one: M, c: seq<Name>)
    requires IsChainTo(r.groups, c, end)
    ensures var res := GetSymbolicRep(r, end, symEval, mul, one);
      && res.Ok?
      && res.value.keys == KeysOf(ChainTrafos(r.groups, c))
      && forall k :: k in res.value.keys <==>
           exists i, t :: 0 <= i < |c| && t in r.groups[c[i]].trafos && k.trafo == t.name && k.param in t.stateVars
  {
    ResolveChainIff(r.groups, c, end);
    var ts := ChainTrafos(r.groups, c);
    forall k: Key ensures k in KeysOf(ts) <==>
      exists i, t :: 0 <= i < |c| && t in r.groups[c[i]].trafos && k.trafo == t.name && k.param in t.stateVars
    {
      KeyInChain(r.groups, c, ts, k);
    }
  }

  lemma KeyInChain(groups: map<Name, Group>, c: seq<Name>, ts: seq<Transformation>, k: Key)
    requires forall i :: 0 <= i < |c| ==> c[i] in groups
    requires ts == ChainTrafos(groups, c)
    ensures k in KeysOf(ts) <==>
      exists i, t :: 0 <= i < |c| && t in groups[c[i]].trafos && k.trafo == t.name && k.param in t.stateVars
  {
    if k in KeysOf(ts) {
      var j :| 0 <= j < |ts| && k.trafo == ts[j].name && k.param in ts[j].stateVars;
      var t := ts[j];
      assert t in ts;
      var i :| 0 <= i < |c| && t in groups[c[i]].trafos;
    }
    if exists i, t :: 0 <= i < |c| && t in groups[c[i]].trafos && k.trafo == t.name && k.param in t.stateVars {
      var i, t :| 0 <= i < |c| && t in groups[c[i]].trafos && k.trafo == t.name && k.param in t.stateVars;
      assert t in ts;
      var j := IndexOf(ts, t);
    }
  }

  /** When each group's matrix is the product of its transformations'
      matrices, the symbolic matrix and forward kinematics agree: both
      succeed or fail together, and on success give the same product. */
  lemma SymbolicMatchesForward<M(!new)>(r: Robot, end: Name, symEval: Transformation -> M, eval: Group -> M,
                                        mul: (M, M) -> M, one: M)
    requires Associative(mul) && Identity(mul, one)
    requires forall n :: n in r.groups ==> eval(r.groups[n]) == Product(mul, one, TrafoMatrices(r.groups[n].trafos, symEval))
    ensures var sym := GetSymbolicRep(r, end, symEval, mul, one);
      var fk := ForwardKinematics(r, end, eval, mul, one);
      && (sym.Ok? <==> fk.Ok?)
      && (sym.Ok? ==> sym.value.matrix == fk.value)
      && (sym.Err? ==> sym.error == fk.error)
  {
    match ResolveChain(r.groups, end)
    case Ok(c) => {
      var ts := ChainTrafos(r.groups, c);
      ComposeIsProduct(mul, one, TrafoMatrices(ts, symEval));
      ComposeIsProduct(mul, one, GroupMatrices(r.groups, c, eval));
      ProductAlongChain(r.groups, c, symEval, eval, mul, one);
    }
    case Err(e) => {}
  }

  /** Multiplying all transformations of a chain equals multiplying the
      groups' products. */
  lemma {:induction false} ProductAlongChain<M(!new)>(groups: map<Name, Group>, c: seq<Name>, symEval: Transformation -> M,
                                                      eval: Group -> M, mul: (M, M) -> M, one: M)
    requires Associative(mul) && Identity(mul, one)
    requires forall i :: 0 <= i < |c| ==> c[i] in groups
    requires forall n :: n in groups ==> eval(groups[n]) == Product(mul, one, TrafoMatrices(groups[n].trafos, symEval))
    ensures Product(mul, one, TrafoMatrices(ChainTrafos(groups, c), symEval)) == Product(mul, one, GroupMatrices(groups, c, eval))
    decreases |c|
  {
    if c != [] {
      var g := groups[c[0]];
      var rest := c[1..];
      assert forall i :: 0 <= i < |rest| ==> rest[i] == c[i + 1];
      var a := TrafoMatrices(g.trafos, symEval);
      var b := TrafoMatrices(ChainTrafos(groups, rest), symEval);
      calc {
        Product(mul, one, TrafoMatrices(ChainTrafos(groups, c), symEval));
        { TrafoMatricesConcat(g.trafos, ChainTrafos(groups, rest), symEval); }
        Product(mul, one, a + b);
        { ProductConcat(mul, one, a, b); }
        mul(Product(mul, one, a), Product(mul, one, b));
        { ProductAlongChain(groups, rest, symEval, eval, mul, one); }
        mul(eval(g), Product(mul, one, GroupMatrices(groups, rest, eval)));
        { GroupMatricesCons(groups, c, eval); }
        Product(mul, one, GroupMatrices(groups, c, eval));
      }
    }
  }

  lemma TrafoMatricesConcat<M>(a: seq<Transformation>, b: seq<Transformation>, symEval: Transformation -> M)
    ensures TrafoMatrices(a + b, symEval) == TrafoMatrices(a, symEval) + TrafoMatrices(b, symEval)
  {
  }

  lemma GroupMatricesCons<M>(groups: map<Name, Group>, c: seq<Name>, eval: Group -> M)
    requires c != [] && forall i :: 0 <= i < |c| ==> c[i] in groups
    ensures GroupMatrices(groups, c, eval)[0] == eval(groups[c[0]])
    ensures GroupMatrices(groups, c, eval)[1..] == GroupMatrices(groups, c[1..], eval)
  {
  }
}
