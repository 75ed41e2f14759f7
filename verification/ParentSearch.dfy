/** Finding the entity class and property that hold a given sub-entity type. */
module ParentSearch {
  import opened Common

  /** A property with the base type of its declared type. */
  datatype Property = Property(name: string, baseType: string)

  datatype Found = Found(cls: string, property: string)

  /** The declared properties of every class, the names of the entity classes, and the table name of
      an entity where one is given. */
  datatype Types = Types(properties: map<string, seq<Property>>, entities: set<string>, tableNames: map<string, string>)

  /** An entity class whose name starts with a capital letter or a character without case. */
  predicate IsEntityTypeName(g: Types, name: string) {
    name in g.entities && name != "" && !('a' <= name[0] <= 'z') && name[0] != '('
  }

  predicate Matches(g: Types, p: Property, sub: string) {
    p.baseType == sub || (p.baseType in g.tableNames && g.tableNames[p.baseType] == sub)
  }

  /** Every entity class that a property refers to is declared. */
  ghost predicate Closed(g: Types) {
    forall cls, i ::
      cls in g.properties && 0 <= i < |g.properties[cls]| && IsEntityTypeName(g, g.properties[cls][i].baseType)
      ==> g.properties[cls][i].baseType in g.properties
  }

  /** No entity refers to itself through its properties: each reference leads to a class of lower rank. */
  ghost predicate Acyclic(g: Types, rank: string -> nat) {
    forall cls, i ::
      cls in g.properties && 0 <= i < |g.properties[cls]| && IsEntityTypeName(g, g.properties[cls][i].baseType)
      ==> rank(g.properties[cls][i].baseType) < rank(cls)
  }

  function FirstMatch(g: Types, properties: seq<Property>, sub: string): (r: Option<Property>)
    ensures r.None? <==> forall i :: 0 <= i < |properties| ==> !Matches(g, properties[i], sub)
    ensures r.Some? ==> exists i :: 0 <= i < |properties| && properties[i] == r.value && Matches(g, r.value, sub)
                                    && forall j :: 0 <= j < i ==> !Matches(g, properties[j], sub)
  {
    if properties == [] then None
    else if Matches(g, properties[0], sub) then Some(properties[0])
    else
      assert forall i :: 1 <= i < |properties| ==> properties[i] == properties[1..][i - 1];
      FirstMatch(g, properties[1..], sub)
  }

  ghost predicate Declared(g: Types, cls: string, properties: seq<Property>, rank: string -> nat) {
    && cls in g.properties && Closed(g) && Acyclic(g, rank)
    && forall i :: 0 <= i < |properties| ==> properties[i] in g.properties[cls]
  }

  /** The search: the properties of the class itself, then those of the classes they refer to. */
  function FindParent(g: Types, cls: string, sub: string, ghost rank: string -> nat): Option<Found>
    requires cls in g.properties && Closed(g) && Acyclic(g, rank)
    decreases rank(cls), 1, 0
  {
    var own := FirstMatch(g, g.properties[cls], sub);
    if own.Some? then Some(Found(cls, own.value.name))
    else FindBelow(g, cls, g.properties[cls], sub, rank)
  }

  /** The reduction from the left over the properties: a class is searched only if nothing was found in
      the classes of earlier properties. */
  function FindBelow(g: Types, cls: string, properties: seq<Property>, sub: string,
                     ghost rank: string -> nat): Option<Found>
    requires Declared(g, cls, properties, rank)
    decreases rank(cls), 0, |properties|
  {
    if properties == [] then None
    else
      var last := properties[|properties| - 1];
      assert last in g.properties[cls];
      var found := FindBelow(g, cls, properties[..|properties| - 1], sub, rank);
      if IsEntityTypeName(g, last.baseType) && found.None? then FindParent(g, last.baseType, sub, rank) else found
  }

  // ---------------------------------------------------------------------------------------------
  // What is reachable
  // ---------------------------------------------------------------------------------------------

  /** Each class of the path refers to the next one by a property. */
  ghost predicate Path(g: Types, path: seq<string>) {
    && path != []
    && (forall k :: 0 <= k < |path| ==> path[k] in g.properties)
    && (forall k :: 0 <= k < |path| - 1 ==> RefersTo(g, path[k], path[k + 1]))
  }

  predicate RefersTo(g: Types, cls: string, target: string)
    requires cls in g.properties
  {
    && target in g.entities && target != "" && target[0] != '(' && (target[0] < 'a' || 'z' < target[0])
    && exists i :: 0 <= i < |g.properties[cls]| && g.properties[cls][i].baseType == target
  }

  predicate Holds(g: Types, cls: string, sub: string)
    requires cls in g.properties
  {
    exists i :: 0 <= i < |g.properties[cls]| && HasType(g, g.properties[cls][i], sub)
  }

  /** The declared type is the sub-entity type, or an entity with the sub-entity type's name as its table. */
  predicate HasType(g: Types, p: Property, sub: string) {
    sub == p.baseType || exists entity :: entity in g.tableNames && entity == p.baseType && g.tableNames[entity] == sub
  }

  /** The first property of the class with the sub-entity type has this name. */
  predicate FirstOfType(g: Types, cls: string, sub: string, name: string)
    requires cls in g.properties
  {
    exists i ::
      && 0 <= i < |g.properties[cls]| && HasType(g, g.properties[cls][i], sub) && g.properties[cls][i].name == name
      && forall j :: 0 <= j < i ==> !HasType(g, g.properties[cls][j], sub)
  }

  /** A path from the class to one that holds the sub-entity type. */
  ghost predicate PathTo(g: Types, path: seq<string>, cls: string, sub: string) {
    Path(g, path) && path[0] == cls && Holds(g, path[|path| - 1], sub)
  }

  /** What is found is declared so: it is the first property of that class with the sub-entity type or
      an entity stored in its table, and the class is reached by the returned path. */
  ghost predicate Answers(g: Types, cls: string, sub: string, found: Found, path: seq<string>) {
    && PathTo(g, path, cls, sub) && path[|path| - 1] == found.cls
    && FirstOfType(g, found.cls, sub, found.property)
  }

  lemma Prepend(g: Types, cls: string, target: string, sub: string, found: Found, path: seq<string>)
    requires cls in g.properties && target in g.properties && RefersTo(g, cls, target)
             && Answers(g, target, sub, found, path)
    ensures Answers(g, cls, sub, found, [cls] + path)
  {
    var longer := [cls] + path;
    forall k | 0 <= k < |longer| - 1
      ensures RefersTo(g, longer[k], longer[k + 1])
    {
      if k > 0 {
        assert longer[k] == path[k - 1] && longer[k + 1] == path[k];
      }
    }
  }

  lemma OwnAnswers(g: Types, cls: string, sub: string, p: Property)
    requires cls in g.properties && FirstMatch(g, g.properties[cls], sub) == Some(p)
    ensures Answers(g, cls, sub, Found(cls, p.name), [cls])
  {
    var all := g.properties[cls];
    forall i | 0 <= i < |all|
      ensures Matches(g, all[i], sub) <==> HasType(g, all[i], sub)
    {
    }
  }

  lemma {:induction false} FoundIsDeclared(g: Types, cls: string, sub: string, rank: string -> nat)
    returns (path: seq<string>)
    requires cls in g.properties && Closed(g) && Acyclic(g, rank) && FindParent(g, cls, sub, rank).Some?
    ensures Answers(g, cls, sub, FindParent(g, cls, sub, rank).value, path)
    decreases rank(cls), 1, 0
  {
    var own := FirstMatch(g, g.properties[cls], sub);
    if own.Some? {
      OwnAnswers(g, cls, sub, own.value);
      path := [cls];
    } else {
      path := FoundBelowIsDeclared(g, cls, g.properties[cls], sub, rank, FindParent(g, cls, sub, rank).value);
    }
  }

  lemma {:induction false} FoundBelowIsDeclared(g: Types, cls: string, properties: seq<Property>, sub: string,
                                                rank: string -> nat, found: Found)
    returns (path: seq<string>)
    requires Declared(g, cls, properties, rank) && FindBelow(g, cls, properties, sub, rank) == Some(found)
    ensures Answers(g, cls, sub, found, path)
    decreases rank(cls), 0, |properties|
  {
    var init, last := properties[..|properties| - 1], properties[|properties| - 1];
    assert last in g.properties[cls];
    if FindBelow(g, cls, init, sub, rank).Some? {
      path := FoundBelowIsDeclared(g, cls, init, sub, rank, found);
    } else {
      path := FoundIsDeclared(g, last.baseType, sub, rank);
      RefersToLast(g, cls, last);
      Prepend(g, cls, last.baseType, sub, found, path);
      path := [cls] + path;
    }
  }

  lemma RefersToLast(g: Types, cls: string, p: Property)
    requires cls in g.properties && p in g.properties[cls] && IsEntityTypeName(g, p.baseType)
    ensures RefersTo(g, cls, p.baseType)
  {
    var i :| 0 <= i < |g.properties[cls]| && g.properties[cls][i] == p;
  }

  lemma {:induction false} ReachableIsFound(g: Types, cls: string, sub: string, rank: string -> nat, path: seq<string>)
    requires cls in g.properties && Closed(g) && Acyclic(g, rank) && PathTo(g, path, cls, sub)
    ensures FindParent(g, cls, sub, rank).Some?
    decreases rank(cls), 1, 0
  {
    if FirstMatch(g, g.properties[cls], sub).None? {
      var i :| 0 <= i < |g.properties[cls]| && g.properties[cls][i].baseType == path[1];
      ReachableBelowIsFound(g, cls, g.properties[cls], sub, rank, path, i);
    }
  }

  lemma {:induction false} ReachableBelowIsFound(g: Types, cls: string, properties: seq<Property>, sub: string,
                                                rank: string -> nat, path: seq<string>, i: nat)
    requires Declared(g, cls, properties, rank) && PathTo(g, path, cls, sub)
    requires |path| > 1 && i < |properties| && properties[i].baseType == path[1]
    ensures FindBelow(g, cls, properties, sub, rank).Some?
    decreases rank(cls), 0, |properties|
  {
    var init, last := properties[..|properties| - 1], properties[|properties| - 1];
    assert last in g.properties[cls];
    if i < |init| {
      ReachableBelowIsFound(g, cls, init, sub, rank, path, i);
    } else {
      var rest := path[1..];
      assert RefersTo(g, path[0], path[1]);
      forall k | 0 <= k < |rest| - 1
        ensures RefersTo(g, rest[k], rest[k + 1])
      {
        assert RefersTo(g, path[k + 1], path[k + 2]);
      }
      assert rest[|rest| - 1] == path[|path| - 1];
      ReachableIsFound(g, path[1], sub, rank, rest);
    }
  }

  /** On an acyclic type graph the search finds something if and only if some class reachable from the
      given one declares a property with the sub-entity type. */
  lemma FoundIffReachable(g: Types, cls: string, sub: string, rank: string -> nat)
    requires cls in g.properties && Closed(g) && Acyclic(g, rank)
    ensures FindParent(g, cls, sub, rank).Some? <==> exists path :: PathTo(g, path, cls, sub)
  {
    if FindParent(g, cls, sub, rank).Some? {
      var path := FoundIsDeclared(g, cls, sub, rank);
    }
    if exists path :: PathTo(g, path, cls, sub) {
      var path :| PathTo(g, path, cls, sub);
      ReachableIsFound(g, cls, sub, rank, path);
    }
  }

  // ---------------------------------------------------------------------------------------------
  // Which of several is found
  // ---------------------------------------------------------------------------------------------

  /** All holders in the order of a depth-first walk, each class before those it refers to. */
  function Holders(g: Types, cls: string, sub: string, ghost rank: string -> nat): seq<Found>
    requires cls in g.properties && Closed(g) && Acyclic(g, rank)
    decreases rank(cls), 1, 0
  {
    var own := FirstMatch(g, g.properties[cls], sub);
    (if own.Some? then [Found(cls, own.value.name)] else []) + HoldersBelow(g, cls, g.properties[cls], sub, rank)
  }

  function HoldersBelow(g: Types, cls: string, properties: seq<Property>, sub: string,
                        ghost rank: string -> nat): seq<Found>
    requires Declared(g, cls, properties, rank)
    decreases rank(cls), 0, |properties|
  {
    if properties == [] then []
    else
      var last := properties[|properties| - 1];
      assert last in g.properties[cls];
      HoldersBelow(g, cls, properties[..|properties| - 1], sub, rank) +
      (if IsEntityTypeName(g, last.baseType) then Holders(g, last.baseType, sub, rank) else [])
  }

  function Head(xs: seq<Found>): Option<Found> {
    if xs == [] then None else Some(xs[0])
  }

  /** The search stops early, with the first of all holders. */
  lemma {:induction false} FindsFirstHolder(g: Types, cls: string, sub: string, rank: string -> nat)
    requires cls in g.properties && Closed(g) && Acyclic(g, rank)
    ensures FindParent(g, cls, sub, rank) == Head(Holders(g, cls, sub, rank))
    decreases rank(cls), 1, 0
  {
    FindsFirstHolderBelow(g, cls, g.properties[cls], sub, rank);
  }

  lemma {:induction false} FindsFirstHolderBelow(g: Types, cls: string, properties: seq<Property>, sub: string,
                                                 rank: string -> nat)
    requires Declared(g, cls, properties, rank)
    ensures FindBelow(g, cls, properties, sub, rank) == Head(HoldersBelow(g, cls, properties, sub, rank))
    decreases rank(cls), 0, |properties|
  {
    if properties == [] {
    } else {
      var last := properties[|properties| - 1];
      assert last in g.properties[cls];
      FindsFirstHolderBelow(g, cls, properties[..|properties| - 1], sub, rank);
      if IsEntityTypeName(g, last.baseType) {
        FindsFirstHolder(g, last.baseType, sub, rank);
      }
    }
  }
}
