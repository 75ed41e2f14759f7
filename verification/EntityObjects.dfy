/** Entities as objects that are updated in place, and trees as their snapshots.

    An array is part of the value of its property; it is not an object of its own. */
module EntityObjects {
  datatype Scalar = Null | Undefined | Str(s: string) | Num(n: int) | Bool(b: bool) | ObjectId(id: string)

  /** An element of an array of scalars. */
  datatype Item = NullItem | StrItem(s: string) | NumItem(n: int)

  datatype Value = Leaf(v: Scalar) | One(o: JsObject) | Many(os: seq<JsObject>) | Items(items: seq<Item>)

  datatype Prop = Prop(name: string, value: Value)

  class JsObject {
    /** The properties in insertion order. */
    var props: seq<Prop>
  }

  /** A snapshot of an object and of everything below it. */
  datatype Tree = Tree(self: JsObject, props: seq<TreeProp>)

  datatype TreeProp = TreeProp(name: string, value: TreeValue)

  datatype TreeValue = TreeLeaf(v: Scalar) | TreeOne(t: Tree) | TreeMany(ts: seq<Tree>) | TreeItems(items: seq<Item>)

  /** What the object itself holds when the snapshot is taken. */
  function Shallow(v: TreeValue): Value {
    match v
    case TreeLeaf(s) => Leaf(s)
    case TreeOne(t) => One(t.self)
    case TreeMany(ts) => Many(Selves(ts))
    case TreeItems(items) => Items(items)
  }

  function Selves(ts: seq<Tree>): (r: seq<JsObject>)
    ensures |r| == |ts| && forall i :: 0 <= i < |ts| ==> r[i] == ts[i].self
  {
    seq(|ts|, i requires 0 <= i < |ts| => ts[i].self)
  }

  /** The objects of a snapshot. */
  ghost function Objects(t: Tree): set<JsObject>
    decreases t
  {
    {t.self} + set p, o | 0 <= p < |t.props| && o in Below(t.props[p].value) :: o
  }

  ghost function Below(v: TreeValue): set<JsObject>
    decreases v
  {
    match v
    case TreeOne(t) => Objects(t)
    case TreeMany(ts) => set i, o | 0 <= i < |ts| && o in Objects(ts[i]) :: o
    case _ => {}
  }

  /** No object occurs twice. */
  ghost predicate Linear(t: Tree)
    decreases t
  {
    && (forall p :: 0 <= p < |t.props| ==> t.self !in Below(t.props[p].value) && LinearValue(t.props[p].value))
    && (forall p, q :: 0 <= p < q < |t.props| ==> Below(t.props[p].value) !! Below(t.props[q].value))
  }

  ghost predicate LinearValue(v: TreeValue)
    decreases v
  {
    match v
    case TreeOne(t) => Linear(t)
    case TreeMany(ts) =>
      && (forall i :: 0 <= i < |ts| ==> Linear(ts[i]))
      && (forall i, j :: 0 <= i < j < |ts| ==> Objects(ts[i]) !! Objects(ts[j]))
    case _ => true
  }

  /** The snapshot agrees with the objects. */
  ghost predicate Shows(t: Tree)
    reads Objects(t)
    decreases t
  {
    && |t.self.props| == |t.props|
    && (forall p :: 0 <= p < |t.props| ==> t.self.props[p] == Prop(t.props[p].name, Shallow(t.props[p].value)))
    && (forall p :: 0 <= p < |t.props| ==> ShowsValue(t.props[p].value))
  }

  ghost predicate ShowsValue(v: TreeValue)
    reads Below(v)
    decreases v
  {
    match v
    case TreeOne(t) => Shows(t)
    case TreeMany(ts) => forall i :: 0 <= i < |ts| ==> Shows(ts[i])
    case _ => true
  }

  // ---------------------------------------------------------------------------------------------
  // Replacing values and keeping the objects
  // ---------------------------------------------------------------------------------------------

  /** The same objects in the same places. */
  ghost predicate SameShape(t: Tree, u: Tree)
    decreases t
  {
    && u.self == t.self && |u.props| == |t.props|
    && forall p :: 0 <= p < |t.props| ==> SameShapeValue(t.props[p].value, u.props[p].value)
  }

  ghost predicate SameShapeValue(v: TreeValue, w: TreeValue)
    decreases v
  {
    match v
    case TreeOne(t) => w.TreeOne? && SameShape(t, w.t)
    case TreeMany(ts) => w.TreeMany? && |w.ts| == |ts| && forall i :: 0 <= i < |ts| ==> SameShape(ts[i], w.ts[i])
    case _ => w.TreeLeaf? || w.TreeItems?
  }

  lemma {:induction false} ShapeIsReflexive(t: Tree)
    ensures SameShape(t, t)
    decreases t
  {
    forall p | 0 <= p < |t.props|
      ensures SameShapeValue(t.props[p].value, t.props[p].value)
    {
      match t.props[p].value
      case TreeOne(t1) => ShapeIsReflexive(t1);
      case TreeMany(ts) =>
        forall i | 0 <= i < |ts|
          ensures SameShape(ts[i], ts[i])
        {
          ShapeIsReflexive(ts[i]);
        }
      case _ =>
    }
  }

  lemma {:induction false} ShapeKeepsObjects(t: Tree, u: Tree)
    requires SameShape(t, u)
    ensures Objects(u) == Objects(t)
    ensures Linear(t) ==> Linear(u)
    decreases t
  {
    forall p | 0 <= p < |t.props|
      ensures Below(u.props[p].value) == Below(t.props[p].value)
      ensures LinearValue(t.props[p].value) ==> LinearValue(u.props[p].value)
    {
      ShapeKeepsBelow(t.props[p].value, u.props[p].value);
    }
  }

  lemma {:induction false} ShapeKeepsBelow(v: TreeValue, w: TreeValue)
    requires SameShapeValue(v, w)
    ensures Below(w) == Below(v)
    ensures LinearValue(v) ==> LinearValue(w)
    decreases v
  {
    match v
    case TreeOne(t) => ShapeKeepsObjects(t, w.t);
    case TreeMany(ts) =>
      forall i | 0 <= i < |ts|
        ensures Objects(w.ts[i]) == Objects(ts[i])
        ensures Linear(ts[i]) ==> Linear(w.ts[i])
      {
        ShapeKeepsObjects(ts[i], w.ts[i]);
      }
    case _ =>
  }

  /** The snapshot with one value replaced. */
  function Replace(t: Tree, p: nat, w: TreeValue): (u: Tree)
    requires p < |t.props|
    ensures u.self == t.self && |u.props| == |t.props| && u.props[p] == TreeProp(t.props[p].name, w)
    ensures forall q :: 0 <= q < |t.props| && q != p ==> u.props[q] == t.props[q]
  {
    Tree(t.self, t.props[p := TreeProp(t.props[p].name, w)])
  }

  /** Replacing a value by one with no more objects. */
  lemma ReplaceKeepsLinear(t: Tree, p: nat, w: TreeValue)
    requires p < |t.props| && Linear(t) && Below(w) <= Below(t.props[p].value) && LinearValue(w)
    ensures Linear(Replace(t, p, w))
    ensures Objects(Replace(t, p, w)) <= Objects(t)
  {
    var u := Replace(t, p, w);
    forall q | 0 <= q < |t.props|
      ensures Below(u.props[q].value) <= Below(t.props[q].value) && LinearValue(u.props[q].value)
    {
    }
  }

  /** The snapshot with one value replaced shows the object with that value replaced. */
  lemma ReplaceShows(t: Tree, p: nat, w: TreeValue)
    requires p < |t.props| && |t.self.props| == |t.props|
    requires t.self.props[p] == Prop(t.props[p].name, Shallow(w)) && ShowsValue(w)
    requires forall q :: 0 <= q < |t.props| && q != p ==>
               t.self.props[q] == Prop(t.props[q].name, Shallow(t.props[q].value)) && ShowsValue(t.props[q].value)
    ensures Shows(Replace(t, p, w))
  {
    var u := Replace(t, p, w);
    forall q | 0 <= q < |t.props|
      ensures t.self.props[q] == Prop(u.props[q].name, Shallow(u.props[q].value)) && ShowsValue(u.props[q].value)
    {
    }
  }

  /** Different values, and different objects of an array, have no object in common. */
  lemma ValuesApart(t: Tree, p: nat, q: nat)
    requires Linear(t) && p < |t.props| && q < |t.props| && p != q
    ensures Below(t.props[q].value) !! Below(t.props[p].value) && t.self !in Below(t.props[q].value)
  {
  }

  lemma NeighboursApart(ts: seq<Tree>, i: nat, j: nat)
    requires LinearValue(TreeMany(ts)) && i < |ts| && j < |ts| && i != j
    ensures Objects(ts[j]) !! Objects(ts[i])
  {
  }

  lemma {:induction false} PropsAllocated(t: Tree)
    ensures forall o :: o in Objects(t) ==> allocated(o)
    ensures forall p, o :: 0 <= p < |t.props| && o in Below(t.props[p].value) ==> allocated(o)
    decreases t
  {
    forall p | 0 <= p < |t.props|
      ensures forall o :: o in Below(t.props[p].value) ==> allocated(o)
    {
      match t.props[p].value
      case TreeOne(t1) => PropsAllocated(t1);
      case TreeMany(ts) => ElementsAllocated(ts);
      case _ =>
    }
  }

  lemma {:induction false} ElementsAllocated(ts: seq<Tree>)
    ensures forall i, o :: 0 <= i < |ts| && o in Objects(ts[i]) ==> allocated(o)
    decreases ts
  {
    forall i | 0 <= i < |ts|
      ensures forall o :: o in Objects(ts[i]) ==> allocated(o)
    {
      PropsAllocated(ts[i]);
    }
  }
}
