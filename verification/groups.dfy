/** Transformations, kinematic groups and the elements a robot is built from.
    The group class itself is not part of this model; a group is the record of
    what the robot reads from it: its name, its parent's name, its
    transformations and its two state maps. */
module Groups {

  type Name = string

  /** An entry of an actuated state: a bare actuator value (closed groups) or
      a transformation's parameter map (open groups, whose actuated state is
      their virtual state). */
  datatype Value = Num(x: real) | Params(params: map<Name, real>)

  /** A named parametric pose. `stateVars` lists the free parameters in their
      declared order and `state` holds their current values; the fixed
      parameters only enter the pose matrix, which the model leaves abstract. */
  datatype Transformation = Transformation(name: Name, stateVars: seq<Name>, state: map<Name, real>)
  {
    /** `stateVars` and `state` describe one and the same state dictionary:
        its keys, each once and in order, and its values. */
    predicate Consistent() {
      && (forall i, j :: 0 <= i < j < |stateVars| ==> stateVars[i] != stateVars[j])
      && (forall p :: p in stateVars ==> p in state)
      && (forall p :: p in state ==> p in stateVars)
    }
  }

  /** The transformations a robot can be given. */
  type Trafo = t: Transformation | t.Consistent() witness Transformation("", [], map[])

  /** A kinematic group. A group whose parent is its own name is a root. */
  datatype Group = Group(
    name: Name,
    parent: Name,
    trafos: seq<Trafo>,
    actuated: map<Name, Value>,
    virtual: map<Name, map<Name, real>>)
  {
    predicate IsRoot() {
      parent == name
    }

    /** Only groups with a non-empty virtual state register their keys. */
    predicate Stateful() {
      virtual != map[]
    }
  }

  /** The open group that wraps a single transformation: its virtual state
      holds the transformation's state under the transformation's name when
      that state is non-empty, and its actuated state is the same map. */
  function OpenGroup(t: Trafo, parent: Name): (g: Group)
    ensures g.name == t.name && g.parent == parent && g.trafos == [t]
    ensures g.Stateful() <==> t.state != map[]
    ensures g.virtual.Keys == g.actuated.Keys
    ensures forall k :: k in g.virtual ==> k == t.name && g.virtual[k] == t.state && g.actuated[k] == Params(t.state)
  {
    if t.state == map[] then
      Group(t.name, parent, [t], map[], map[])
    else
      var v := map[t.name := t.state];
      assert t.name in v;
      Group(t.name, parent, [t], map[t.name := Params(t.state)], v)
  }

  /** An element of the list a robot is built from. */
  datatype Element = Bare(t: Trafo) | Member(g: Group) {
    function Name(): Name {
      match this
      case Bare(t) => t.name
      case Member(g) => g.name
    }
  }

  /** The group element `i` of `chain` stands for: a bare transformation is
      wrapped into an open group whose parent is the element before it, or,
      at the head of the list, which is its own root. */
  function Wrap(chain: seq<Element>, i: nat): (g: Group)
    requires i < |chain|
    ensures g.name == chain[i].Name()
    ensures chain[i].Member? ==> g == chain[i].g
    ensures chain[i].Bare? && i > 0 ==> g.parent == chain[i - 1].Name() && g.trafos == [chain[i].t]
    ensures chain[i].Bare? && i == 0 ==> g.IsRoot() && g.trafos == [chain[i].t]
  {
    match chain[i]
    case Member(g) => g
    case Bare(t) => OpenGroup(t, if i > 0 then chain[i - 1].Name() else t.name)
  }

  /** Every element of `chain` as a group, in list order. */
  function Normalize(chain: seq<Element>): (gs: seq<Group>)
    ensures |gs| == |chain|
    ensures forall i :: 0 <= i < |chain| ==> gs[i] == Wrap(chain, i)
  {
    seq(|chain|, i requires 0 <= i < |chain| => Wrap(chain, i))
  }
}
