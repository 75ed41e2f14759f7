/** Removing sub-entities, compared by identity, from every array below an entity, in place. */
module RemoveSubEntities {
  import opened EntityObjects

  // ---------------------------------------------------------------------------------------------
  // What is left of a snapshot
  // ---------------------------------------------------------------------------------------------

  function RemoveTree(t: Tree, removed: set<JsObject>): (u: Tree)
    ensures u.self == t.self && |u.props| == |t.props|
    ensures forall p :: 0 <= p < |t.props| ==>
              u.props[p] == TreeProp(t.props[p].name, RemoveValue(t.props[p].value, removed))
    decreases t
  {
    Tree(t.self, seq(|t.props|, p requires 0 <= p < |t.props| =>
      TreeProp(t.props[p].name, RemoveValue(t.props[p].value, removed))))
  }

  /** An object that is the value of a property is not removed. */
  function RemoveValue(v: TreeValue, removed: set<JsObject>): TreeValue
    decreases v
  {
    match v
    case TreeOne(t) => TreeOne(RemoveTree(t, removed))
    case TreeMany(ts) => TreeMany(RemoveMany(ts, removed))
    case _ => v
  }

  function RemoveMany(ts: seq<Tree>, removed: set<JsObject>): (us: seq<Tree>)
    decreases ts
  {
    if ts == [] then []
    else
      var rest := RemoveMany(ts[..|ts| - 1], removed);
      var last := ts[|ts| - 1];
      if last.self in removed then rest else rest + [RemoveTree(last, removed)]
  }

  /** The indices of the elements that stay. */
  function Kept(ts: seq<Tree>, removed: set<JsObject>): (r: seq<nat>) {
    if ts == [] then []
    else
      var rest := Kept(ts[..|ts| - 1], removed);
      if ts[|ts| - 1].self in removed then rest else rest + [|ts| - 1]
  }

  lemma {:induction false} KeptAreIndices(ts: seq<Tree>, removed: set<JsObject>)
    ensures forall j :: 0 <= j < |Kept(ts, removed)| ==>
              Kept(ts, removed)[j] < |ts| && ts[Kept(ts, removed)[j]].self !in removed
    ensures forall j, l :: 0 <= j < l < |Kept(ts, removed)| ==> Kept(ts, removed)[j] < Kept(ts, removed)[l]
  {
    if ts == [] {
    } else {
      KeptAreIndices(ts[..|ts| - 1], removed);
    }
  }

  lemma {:induction false} KeptIsComplete(ts: seq<Tree>, removed: set<JsObject>, i: nat)
    requires i < |ts| && ts[i].self !in removed
    ensures i in Kept(ts, removed)
    decreases |ts|
  {
    if i < |ts| - 1 {
      KeptIsComplete(ts[..|ts| - 1], removed, i);
    } else {
      assert Kept(ts, removed)[|Kept(ts, removed)| - 1] == i;
    }
  }

  lemma {:induction false} ElementsAreKept(ts: seq<Tree>, removed: set<JsObject>)
    ensures |RemoveMany(ts, removed)| == |Kept(ts, removed)|
    ensures forall j :: 0 <= j < |Kept(ts, removed)| ==>
              Kept(ts, removed)[j] < |ts| && RemoveMany(ts, removed)[j] == RemoveTree(ts[Kept(ts, removed)[j]], removed)
  {
    if ts == [] {
    } else {
      ElementsAreKept(ts[..|ts| - 1], removed);
    }
  }

  /** Exactly the elements that are not to be removed stay, in their order, each with the sub-entities
      below it removed in turn. */
  lemma OthersKeepTheirPlace(ts: seq<Tree>, removed: set<JsObject>)
    ensures |RemoveMany(ts, removed)| == |Kept(ts, removed)|
    ensures forall j :: 0 <= j < |Kept(ts, removed)| ==>
              && Kept(ts, removed)[j] < |ts| && ts[Kept(ts, removed)[j]].self !in removed
              && RemoveMany(ts, removed)[j] == RemoveTree(ts[Kept(ts, removed)[j]], removed)
    ensures forall j, l :: 0 <= j < l < |Kept(ts, removed)| ==> Kept(ts, removed)[j] < Kept(ts, removed)[l]
    ensures forall i :: 0 <= i < |ts| && ts[i].self !in removed ==> i in Kept(ts, removed)
  {
    KeptAreIndices(ts, removed);
    ElementsAreKept(ts, removed);
    forall i | 0 <= i < |ts| && ts[i].self !in removed
      ensures i in Kept(ts, removed)
    {
      KeptIsComplete(ts, removed, i);
    }
  }

  /** No array of the snapshot holds one of the objects. */
  ghost predicate ArraysFree(t: Tree, removed: set<JsObject>)
    decreases t
  {
    forall p :: 0 <= p < |t.props| ==> ArraysFreeValue(t.props[p].value, removed)
  }

  ghost predicate ArraysFreeValue(v: TreeValue, removed: set<JsObject>)
    decreases v
  {
    match v
    case TreeOne(t) => ArraysFree(t, removed)
    case TreeMany(ts) => forall i :: 0 <= i < |ts| ==> ts[i].self !in removed && ArraysFree(ts[i], removed)
    case _ => true
  }

  /** Afterwards no array, at any depth, holds a removed object. */
  lemma {:induction false} NoArrayHoldsRemoved(t: Tree, removed: set<JsObject>)
    ensures ArraysFree(RemoveTree(t, removed), removed)
    decreases t
  {
    forall p | 0 <= p < |t.props|
      ensures ArraysFreeValue(RemoveValue(t.props[p].value, removed), removed)
    {
      match t.props[p].value
      case TreeOne(t1) => NoArrayHoldsRemoved(t1, removed);
      case TreeMany(ts) =>
        OthersKeepTheirPlace(ts, removed);
        forall i | 0 <= i < |ts|
          ensures ArraysFree(RemoveTree(ts[i], removed), removed)
        {
          NoArrayHoldsRemoved(ts[i], removed);
        }
      case _ =>
    }
  }

  /** The snapshot is unchanged if and only if no array held one of the objects. */
  lemma {:induction false} UnchangedWithoutRemoved(t: Tree, removed: set<JsObject>)
    ensures RemoveTree(t, removed) == t <==> ArraysFree(t, removed)
    decreases t
  {
    if RemoveTree(t, removed) == t {
      NoArrayHoldsRemoved(t, removed);
    }
    if ArraysFree(t, removed) {
      forall p | 0 <= p < |t.props|
        ensures RemoveTree(t, removed).props[p] == t.props[p]
      {
        assert ArraysFreeValue(t.props[p].value, removed);
        match t.props[p].value
        case TreeOne(t1) => UnchangedWithoutRemoved(t1, removed);
        case TreeMany(ts) => UnchangedElements(ts, removed);
        case _ =>
        assert RemoveValue(t.props[p].value, removed) == t.props[p].value;
      }
      assert RemoveTree(t, removed).props == t.props;
    }
  }

  lemma {:induction false} UnchangedElements(ts: seq<Tree>, removed: set<JsObject>)
    requires ArraysFreeValue(TreeMany(ts), removed)
    ensures RemoveMany(ts, removed) == ts
    decreases ts
  {
    if ts == [] {
    } else {
      var init := ts[..|ts| - 1];
      assert forall i :: 0 <= i < |init| ==> init[i] == ts[i];
      UnchangedElements(init, removed);
      UnchangedWithoutRemoved(ts[|ts| - 1], removed);
      assert ts == init + [ts[|ts| - 1]];
    }
  }

  /** Removing twice is removing once. */
  lemma RemovingIsIdempotent(t: Tree, removed: set<JsObject>)
    ensures RemoveTree(RemoveTree(t, removed), removed) == RemoveTree(t, removed)
  {
    NoArrayHoldsRemoved(t, removed);
    UnchangedWithoutRemoved(RemoveTree(t, removed), removed);
  }

  /** A sub-entity that is the value of a property, not an element of an array, stays. */
  lemma SingleSubEntityStays(owner: JsObject, name: string, t: Tree)
    ensures var before := Tree(owner, [TreeProp(name, TreeOne(t))]);
            t.self in Objects(RemoveTree(before, {t.self}))
  {
    var after := RemoveTree(Tree(owner, [TreeProp(name, TreeOne(t))]), {t.self});
    assert t.self in Below(after.props[0].value);
  }

  // ---------------------------------------------------------------------------------------------
  // In place
  // ---------------------------------------------------------------------------------------------

  lemma {:induction false} RemovingKeepsLinear(t: Tree, removed: set<JsObject>)
    ensures Objects(RemoveTree(t, removed)) <= Objects(t)
    ensures Linear(t) ==> Linear(RemoveTree(t, removed))
    decreases t
  {
    forall p | 0 <= p < |t.props|
      ensures Below(RemoveValue(t.props[p].value, removed)) <= Below(t.props[p].value)
      ensures LinearValue(t.props[p].value) ==> LinearValue(RemoveValue(t.props[p].value, removed))
    {
      RemovingKeepsBelow(t.props[p].value, removed);
    }
  }

  lemma {:induction false} RemovingKeepsBelow(v: TreeValue, removed: set<JsObject>)
    ensures Below(RemoveValue(v, removed)) <= Below(v)
    ensures LinearValue(v) ==> LinearValue(RemoveValue(v, removed))
    decreases v
  {
    match v
    case TreeOne(t) => RemovingKeepsLinear(t, removed);
    case TreeMany(ts) =>
      OthersKeepTheirPlace(ts, removed);
      forall i | 0 <= i < |ts|
        ensures Objects(RemoveTree(ts[i], removed)) <= Objects(ts[i])
        ensures Linear(ts[i]) ==> Linear(RemoveTree(ts[i], removed))
      {
        RemovingKeepsLinear(ts[i], removed);
      }
    case _ =>
  }

  /** The walk takes an array whose first element is null for an array of objects, and throws. */
  ghost predicate Walkable(t: Tree)
    decreases t
  {
    forall p :: 0 <= p < |t.props| ==> WalkableValue(t.props[p].value)
  }

  ghost predicate WalkableValue(v: TreeValue)
    decreases v
  {
    match v
    case TreeLeaf(_) => true
    case TreeOne(t) => Walkable(t)
    case TreeMany(ts) => forall i :: 0 <= i < |ts| ==> Walkable(ts[i])
    case TreeItems(items) => items != [] ==> !items[0].NullItem?
  }

  method WithoutRemoved(os: seq<JsObject>, removed: set<JsObject>, ghost ts: seq<Tree>) returns (r: seq<JsObject>)
    requires os == Selves(ts)
    ensures r == Selves(RemoveMany(ts, removed))
  {
    r := [];
    for i := 0 to |os|
      invariant r == Selves(RemoveMany(ts[..i], removed))
    {
      assert ts[..i + 1][..i] == ts[..i];
      if os[i] !in removed {
        r := r + [os[i]];
      }
    }
    assert ts[..|os|] == ts;
  }

  method Remove(entity: JsObject, removed: set<JsObject>, ghost t: Tree) returns (ok: bool)
    requires t.self == entity && Linear(t) && Shows(t)
    modifies Objects(t)
    ensures ok <==> Walkable(t)
    ensures ok ==> Shows(RemoveTree(t, removed))
    decreases t
  {
    var entries := entity.props;
    ghost var u := t;
    for p := 0 to |entries|
      invariant u.self == entity && |u.props| == |t.props| == |entries| && u.props[p..] == t.props[p..]
      invariant forall q :: 0 <= q < p ==>
                  WalkableValue(t.props[q].value) && u.props[q] == RemoveTree(t, removed).props[q]
      invariant Linear(u) && Objects(u) <= Objects(t) && Shows(u)
    {
      assert u.props[p] == t.props[p];
      ok, u := RemoveFromProperty(entity, removed, p, entries[p], u, t.props[p].value);
      if !ok {
        return false;
      }
    }
    ok := true;
    assert u.props == RemoveTree(t, removed).props;
  }

  method RemoveFromProperty(entity: JsObject, removed: set<JsObject>, p: nat, entry: Prop, ghost t: Tree,
                            ghost v: TreeValue)
    returns (ok: bool, ghost u: Tree)
    requires t.self == entity && Linear(t) && Shows(t)
    requires p < |t.props| && t.props[p].value == v && entry == Prop(t.props[p].name, Shallow(v))
    modifies Objects(t)
    ensures ok <==> WalkableValue(v)
    ensures ok ==>
      && u == Replace(t, p, RemoveValue(v, removed))
      && Linear(u) && Objects(u) <= Objects(t) && Shows(u)
    decreases v, 1
  {
    PropsAllocated(t);
    u := t;
    if entry.value.Many? && entry.value.os != [] {
      var kept := WithoutRemoved(entry.value.os, removed, v.ts);
      entity.props := entity.props[p := Prop(entry.name, Many(kept))];
    }
    ok := RemoveBelow(entry.value, removed, v);
    forall q | 0 <= q < |t.props| && q != p
      ensures ShowsValue(t.props[q].value) && t.self !in Below(t.props[q].value)
    {
      ValuesApart(t, p, q);
    }
    if ok {
      ghost var w := RemoveValue(v, removed);
      RemovingKeepsBelow(v, removed);
      ReplaceKeepsLinear(t, p, w);
      ReplaceShows(t, p, w);
      u := Replace(t, p, w);
    }
  }

  /** Goes into the objects of the value as it was before elements were removed. */
  method RemoveBelow(value: Value, removed: set<JsObject>, ghost v: TreeValue) returns (ok: bool)
    requires value == Shallow(v) && LinearValue(v) && ShowsValue(v)
    modifies Below(v)
    ensures ok <==> WalkableValue(v)
    ensures ok ==> ShowsValue(RemoveValue(v, removed))
    decreases v, 0
  {
    ok := true;
    match value {
      case Leaf(_) =>
      case One(o) =>
        ok := Remove(o, removed, v.t);
      case Many(os) =>
        ok := RemoveFromElements(os, removed, v.ts);
        if ok {
          OthersKeepTheirPlace(v.ts, removed);
        }
      case Items(items) =>
        ok := items != [] ==> !items[0].NullItem?;
    }
  }

  method RemoveFromElements(os: seq<JsObject>, removed: set<JsObject>, ghost ts: seq<Tree>) returns (ok: bool)
    requires os == Selves(ts) && LinearValue(TreeMany(ts)) && ShowsValue(TreeMany(ts))
    modifies Below(TreeMany(ts))
    ensures ok <==> forall i :: 0 <= i < |ts| ==> Walkable(ts[i])
    ensures ok ==> forall i :: 0 <= i < |ts| ==> Shows(RemoveTree(ts[i], removed))
    decreases ts
  {
    for i := 0 to |os|
      invariant forall j :: 0 <= j < i ==> Walkable(ts[j])
      invariant forall j :: 0 <= j < i ==> Shows(RemoveTree(ts[j], removed))
      invariant forall j :: i <= j < |ts| ==> Shows(ts[j])
    {
      ElementsAllocated(ts);
      ok := Remove(os[i], removed, ts[i]);
      if !ok {
        return false;
      }
      forall j | 0 <= j < |ts| && j != i
        ensures Shows(if j < i then RemoveTree(ts[j], removed) else ts[j])
      {
        NeighboursApart(ts, i, j);
        RemovingKeepsLinear(ts[j], removed);
      }
    }
    ok := true;
  }
}
