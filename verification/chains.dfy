/** Ancestor-chain resolution: from a named group, follow parent names until a
    group whose parent is its own name, then reverse the path so that it runs
    from the root to the end-effector.

    The Python loop has no bound and runs forever on a parent cycle. This
    model walks with fuel equal to the number of groups and reports
    `Topology` when the fuel runs out; `WalkFuelSuffices` and
    `TopologyMeansCycle` show that this only happens when the unbounded walk
    never reaches a root, and that more fuel never changes the answer. */
module Chains {
  import opened Errors
  import opened Groups

  /** `s` backwards. */
  function Reverse<T>(s: seq<T>): (r: seq<T>)
    ensures |r| == |s|
    ensures forall i :: 0 <= i < |s| ==> r[i] == s[|s| - 1 - i]
  {
    if s == [] then [] else Reverse(s[1..]) + [s[0]]
  }

  lemma {:induction false} ReverseReverse<T>(s: seq<T>)
    ensures Reverse(Reverse(s)) == s
  {
  }

  /** A position of an element of `s`. */
  lemma IndexOf<T>(s: seq<T>, x: T) returns (i: nat)
    requires x in s
    ensures i < |s| && s[i] == x
  {
    i :| i < |s| && s[i] == x;
  }

  /** `c` is a root-first chain of groups ending at `end`: its head is a
      root, every later element is a non-root whose parent is the element
      before it. */
  ghost predicate IsChainTo(groups: map<Name, Group>, c: seq<Name>, end: Name) {
    && |c| > 0
    && c[|c| - 1] == end
    && (forall i :: 0 <= i < |c| ==> c[i] in groups)
    && groups[c[0]].parent == c[0]
    && (forall i :: 0 < i < |c| ==> groups[c[i]].parent == c[i - 1] != c[i])
  }

  /** The parent walk from `key`, at most `fuel` parent steps; the path runs
      from `key` up to the root it reaches. */
  function Walk(groups: map<Name, Group>, key: Name, fuel: nat): (r: Result<seq<Name>>)
    requires key in groups
    ensures r.Ok? ==> 0 < |r.value| <= fuel + 1 && r.value[0] == key
    ensures r.Err? ==> r.error == Topology || (r.error.UnknownGroup? && r.error.name !in groups)
    decreases fuel
  {
    var parent := groups[key].parent;
    if parent == key then
      Ok([key])
    else if parent !in groups then
      Err(UnknownGroup(parent))
    else if fuel == 0 then
      Err(Topology)
    else
      var path :- Walk(groups, parent, fuel - 1);
      Ok([key] + path)
  }

  /** An unknown parent is the first name of the unbounded walk that is
      missing from the table: every name before it is a known non-root. */
  lemma {:induction false} WalkUnknownParent(groups: map<Name, Group>, key: Name, fuel: nat, p: Name) returns (n: nat)
    requires key in groups && Walk(groups, key, fuel) == Err(UnknownGroup(p))
    ensures 0 < n <= fuel + 1 && Up(groups, key, n) == p && p !in groups
    ensures forall i: nat :: i < n ==> NonRoot(groups, Up(groups, key, i))
    decreases fuel
  {
    var parent := groups[key].parent;
    assert Up(groups, key, 0) == key;
    if parent !in groups {
      assert Up(groups, parent, 0) == parent;
      n := 1;
    } else {
      assert parent != key && fuel > 0;
      var m := WalkUnknownParent(groups, parent, fuel - 1, p);
      forall i: nat | 0 < i <= m + 1
        ensures Up(groups, key, i) == Up(groups, parent, i - 1)
      {
      }
      n := m + 1;
    }
  }

  /** A successful walk, reversed, is a root-first chain to where it began. */
  lemma {:induction false} WalkIsChain(groups: map<Name, Group>, key: Name, fuel: nat)
    requires key in groups && Walk(groups, key, fuel).Ok?
    ensures IsChainTo(groups, Reverse(Walk(groups, key, fuel).value), key)
    decreases fuel
  {
    var parent := groups[key].parent;
    if parent == key {
      assert Reverse([key]) == [key];
    } else {
      WalkIsChain(groups, parent, fuel - 1);
      var path := Walk(groups, parent, fuel - 1).value;
      assert Walk(groups, key, fuel).value == [key] + path;
      ReverseCons(key, path);
      ChainSnoc(groups, Reverse(path), key);
    }
  }

  lemma ReverseCons<T>(x: T, s: seq<T>)
    ensures Reverse([x] + s) == Reverse(s) + [x]
  {
    assert ([x] + s)[1..] == s;
  }

  /** A chain to a group's parent, extended by the group, is a chain to it. */
  lemma ChainSnoc(groups: map<Name, Group>, c: seq<Name>, key: Name)
    requires key in groups && groups[key].parent != key
    requires IsChainTo(groups, c, groups[key].parent)
    ensures IsChainTo(groups, c + [key], key)
  {
    var c' := c + [key];
    assert forall i :: 0 <= i < |c| ==> c'[i] == c[i];
  }

  /** The chain from the root to `end`, or the lookup or topology error. */
  function ResolveChain(groups: map<Name, Group>, end: Name): (r: Result<seq<Name>>)
    ensures end !in groups ==> r == Err(UnknownGroup(end))
    ensures r.Ok? ==> IsChainTo(groups, r.value, end)
    ensures r.Err? ==> r.error == Topology || (r.error.UnknownGroup? && r.error.name !in groups)
  {
    if end !in groups then
      Err(UnknownGroup(end))
    else
      var path :- Walk(groups, end, |groups|);
      WalkIsChain(groups, end, |groups|);
      Ok(Reverse(path))
  }

  // ---------------------------------------------------------------------
  // The unbounded walk, as a reference

  /** The name reached from `key` after `n` parent steps; a name outside the
      group table stays where it is. */
  ghost function Up(groups: map<Name, Group>, key: Name, n: nat): Name
    decreases n
  {
    if n == 0 || key !in groups then key else Up(groups, groups[key].parent, n - 1)
  }

  ghost predicate NonRoot(groups: map<Name, Group>, key: Name) {
    key in groups && groups[key].parent != key
  }

  /** The first `fuel + 1` names of the unbounded walk are non-roots and the
      next one is a known group: exactly when `Walk` runs out of fuel. */
  ghost predicate ClimbsPast(groups: map<Name, Group>, key: Name, fuel: nat) {
    && (forall i: nat :: i <= fuel ==> NonRoot(groups, Up(groups, key, i)))
    && Up(groups, key, fuel + 1) in groups
  }

  lemma {:induction false} UpAdd(groups: map<Name, Group>, key: Name, a: nat, b: nat)
    ensures Up(groups, key, a + b) == Up(groups, Up(groups, key, a), b)
    decreases a
  {
    if a == 0 {
    } else if key !in groups {
      UpStuck(groups, key, a + b);
      UpStuck(groups, key, a);
      UpStuck(groups, key, b);
    } else {
      UpAdd(groups, groups[key].parent, a - 1, b);
    }
  }

  lemma {:induction false} UpStuck(groups: map<Name, Group>, key: Name, n: nat)
    requires key !in groups
    ensures Up(groups, key, n) == key
  {
  }

  lemma {:induction false} WalkTopologyIff(groups: map<Name, Group>, key: Name, fuel: nat)
    requires key in groups
    ensures Walk(groups, key, fuel) == Err(Topology) <==> ClimbsPast(groups, key, fuel)
    decreases fuel
  {
    var parent := groups[key].parent;
    assert Up(groups, key, 0) == key;
    assert Up(groups, key, 1) == parent by { assert Up(groups, parent, 0) == parent; }
    if parent == key {
    } else if parent !in groups {
      if fuel > 0 {
        assert !NonRoot(groups, Up(groups, key, 1));
      }
    } else if fuel == 0 {
      forall i: nat | i <= fuel
        ensures NonRoot(groups, Up(groups, key, i))
      {
        assert i == 0;
      }
    } else {
      WalkTopologyIff(groups, parent, fuel - 1);
      forall i: nat | i <= fuel + 1 && i > 0
        ensures Up(groups, key, i) == Up(groups, parent, i - 1)
      {
      }
      if ClimbsPast(groups, key, fuel) {
        forall i: nat | i <= fuel - 1
          ensures NonRoot(groups, Up(groups, parent, i))
        {
          assert Up(groups, key, i + 1) == Up(groups, parent, i);
        }
      }
      if ClimbsPast(groups, parent, fuel - 1) {
        forall i: nat | i <= fuel
          ensures NonRoot(groups, Up(groups, key, i))
        {
          if i > 0 {
            assert Up(groups, key, i) == Up(groups, parent, i - 1);
          } else {
            assert Up(groups, key, i) == key;
          }
        }
      }
    }
  }

  /** Distinct elements of a sequence make a set of the same size. */
  lemma {:induction false} DistinctCard(s: seq<Name>)
    requires forall i, j :: 0 <= i < j < |s| ==> s[i] != s[j]
    ensures |set x | x in s| == |s|
  {
    if s != [] {
      var t := s[..|s| - 1];
      DistinctCard(t);
      assert (set x | x in s) == (set x | x in t) + {s[|s| - 1]};
      assert s[|s| - 1] !in (set x | x in t);
    }
  }

  lemma SubsetCard(a: set<Name>, b: set<Name>)
    requires a <= b
    ensures |a| <= |b|
  {
    assert b == a + (b - a);
    assert a !! (b - a);
  }

  /** More names than groups: some name repeats. */
  lemma Pigeonhole(s: seq<Name>, keys: set<Name>) returns (i: nat, j: nat)
    requires forall k :: 0 <= k < |s| ==> s[k] in keys
    requires |s| > |keys|
    ensures i < j < |s| && s[i] == s[j]
  {
    if forall a, b :: 0 <= a < b < |s| ==> s[a] != s[b] {
      DistinctCard(s);
      SubsetCard((set x | x in s), keys);
      assert false;
    }
    var a, b :| 0 <= a < b < |s| && s[a] == s[b];
    i, j := a, b;
  }

  /** Once the walk repeats a name before reaching a root, it never does. */
  lemma {:induction false} NonRootForever(groups: map<Name, Group>, key: Name, fuel: nat, i: nat, j: nat, m: nat)
    requires forall k: nat :: k <= fuel ==> NonRoot(groups, Up(groups, key, k))
    requires i < j <= fuel + 1 && Up(groups, key, i) == Up(groups, key, j)
    requires Up(groups, key, fuel + 1) in groups
    ensures NonRoot(groups, Up(groups, key, m))
    decreases m
  {
    if m <= fuel {
    } else if m == fuel + 1 && j == fuel + 1 {
      assert NonRoot(groups, Up(groups, key, i));
    } else {
      UpAdd(groups, key, j, m - j);
      UpAdd(groups, key, i, m - j);
      NonRootForever(groups, key, fuel, i, j, i + (m - j));
    }
  }

  /** A walk that runs out of fuel after at least `|groups| - 1` steps has
      met a parent cycle: no number of steps reaches a root. */
  lemma CycleForever(groups: map<Name, Group>, key: Name, fuel: nat)
    requires fuel + 1 >= |groups|
    requires ClimbsPast(groups, key, fuel)
    ensures forall m: nat :: NonRoot(groups, Up(groups, key, m))
  {
    var s := seq(fuel + 2, k requires 0 <= k < fuel + 2 => Up(groups, key, k));
    forall k | 0 <= k < |s| ensures s[k] in groups.Keys {
      if k <= fuel {
        assert NonRoot(groups, Up(groups, key, k));
      }
    }
    var i, j := Pigeonhole(s, groups.Keys);
    forall m: nat ensures NonRoot(groups, Up(groups, key, m)) {
      NonRootForever(groups, key, fuel, i, j, m);
    }
  }

  /** A walk that did not run out of fuel gives the same answer with more. */
  lemma {:induction false} WalkMonotone(groups: map<Name, Group>, key: Name, fuel: nat, more: nat)
    requires key in groups
    requires fuel <= more
    requires Walk(groups, key, fuel) != Err(Topology)
    ensures Walk(groups, key, more) == Walk(groups, key, fuel)
    decreases fuel
  {
    var parent := groups[key].parent;
    if parent != key && parent in groups && fuel > 0 {
      WalkMonotone(groups, parent, fuel - 1, more - 1);
      assert Walk(groups, key, fuel) == Walk(groups, key, more) by {
        var w := Walk(groups, parent, fuel - 1);
        assert Walk(groups, parent, more - 1) == w;
        if w.Ok? {
          assert Walk(groups, key, fuel) == Ok([key] + w.value);
          assert Walk(groups, key, more) == Ok([key] + w.value);
        }
      }
    }
  }

  /** Fuel of `|groups| - 1` parent steps decides the walk: any more fuel
      gives the same path or the same error, so the bounded walk agrees with
      the unbounded Python loop wherever that loop terminates. */
  lemma WalkFuelSuffices(groups: map<Name, Group>, key: Name, fuel: nat, more: nat)
    requires key in groups
    requires |groups| <= fuel + 1 && fuel <= more
    ensures Walk(groups, key, more) == Walk(groups, key, fuel)
  {
    if Walk(groups, key, fuel) == Err(Topology) {
      WalkTopologyIff(groups, key, fuel);
      CycleForever(groups, key, fuel);
      assert NonRoot(groups, Up(groups, key, more + 1));
      WalkTopologyIff(groups, key, more);
    } else {
      WalkMonotone(groups, key, fuel, more);
    }
  }

  /** `Topology` is reported only for a walk that never reaches a root. */
  lemma TopologyMeansCycle(groups: map<Name, Group>, end: Name)
    requires ResolveChain(groups, end) == Err(Topology)
    ensures forall m: nat :: NonRoot(groups, Up(groups, end, m))
  {
    WalkTopologyIff(groups, end, |groups|);
    CycleForever(groups, end, |groups|);
  }

  lemma {:induction false} ReverseLast<T>(c: seq<T>)
    requires |c| > 0
    ensures Reverse(c) == [c[|c| - 1]] + Reverse(c[..|c| - 1])
  {
    var front := c[..|c| - 1];
    var t := [c[|c| - 1]] + Reverse(front);
    forall i | 0 <= i < |c| ensures Reverse(c)[i] == t[i] {
      if i > 0 {
        assert t[i] == Reverse(front)[i - 1] == front[|front| - i];
      }
    }
  }

  /** Walking up from the end of a chain retraces the chain. */
  lemma {:induction false} WalkAlongChain(groups: map<Name, Group>, c: seq<Name>, end: Name)
    requires IsChainTo(groups, c, end)
    ensures Walk(groups, end, |c| - 1) == Ok(Reverse(c))
    decreases |c|
  {
    if |c| == 1 {
      assert Reverse(c) == [end];
    } else {
      var front := c[..|c| - 1];
      assert IsChainTo(groups, front, c[|c| - 2]);
      WalkAlongChain(groups, front, c[|c| - 2]);
      ReverseLast(c);
    }
  }

  /** Resolution succeeds with `c` exactly when `c` is a root-first chain to
      `end`; so the resolved chain is the only one. */
  lemma ResolveChainIff(groups: map<Name, Group>, c: seq<Name>, end: Name)
    ensures ResolveChain(groups, end) == Ok(c) <==> IsChainTo(groups, c, end)
  {
    if IsChainTo(groups, c, end) {
      WalkAlongChain(groups, c, end);
      var n := |c| - 1;
      if n <= |groups| {
        WalkMonotone(groups, end, n, |groups|);
      } else {
        WalkFuelSuffices(groups, end, |groups|, n);
      }
      ReverseReverse(c);
    }
  }

  /** The chain of a non-root group is its parent's chain followed by it. */
  lemma ResolveChainStep(groups: map<Name, Group>, end: Name)
    requires end in groups && groups[end].parent != end && groups[end].parent in groups
    ensures ResolveChain(groups, end) ==
      match ResolveChain(groups, groups[end].parent)
      case Ok(c) => Ok(c + [end])
      case Err(e) => Err(e)
  {
    var parent := groups[end].parent;
    WalkFuelSuffices(groups, parent, |groups| - 1, |groups|);
    match Walk(groups, parent, |groups| - 1)
    case Ok(path) =>
      assert ([end] + path)[1..] == path;
    case Err(_) =>
  }
}
