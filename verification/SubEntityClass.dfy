/** Finding the class of a sub-entity by its path, which decides whether a filter is read-denied. */
module SubEntityClass {
  import opened Common
  import opened Text

  datatype Property = Property(name: string, baseType: string, isArray: bool)

  /** The declared properties of every class, and the names of the entity classes. */
  datatype Types = Types(properties: map<string, seq<Property>>, entities: set<string>)

  predicate Enters(g: Types, p: Property) {
    p.isArray && p.baseType in g.entities
  }

  /** The walk ends: classes of array properties are declared and have a lower rank. */
  ghost predicate Walkable(g: Types, rank: string -> nat) {
    forall cls, i :: cls in g.properties && 0 <= i < |g.properties[cls]| && Enters(g, g.properties[cls][i])
      ==> g.properties[cls][i].baseType in g.properties && rank(g.properties[cls][i].baseType) < rank(cls)
  }

  function PathName(currentPath: string, name: string): string {
    if currentPath != "" then currentPath + "." + name else name
  }

  function FindSubEntityClass(g: Types, path: string, cls: string, currentPath: string,
                              ghost rank: string -> nat): Option<string>
    requires cls in g.properties && Walkable(g, rank)
    decreases rank(cls), 1, 0
  {
    FindAmong(g, path, cls, g.properties[cls], currentPath, rank)
  }

  /** What is found after these properties.  Below a property the current path is its name alone. */
  function FindAmong(g: Types, path: string, cls: string, properties: seq<Property>, currentPath: string,
                     ghost rank: string -> nat): Option<string>
    requires cls in g.properties && Walkable(g, rank) && forall p :: p in properties ==> p in g.properties[cls]
    decreases rank(cls), 0, |properties|
  {
    if properties == [] then None
    else
      var last := properties[|properties| - 1];
      assert last in g.properties[cls];
      var before := FindAmong(g, path, cls, properties[..|properties| - 1], currentPath, rank);
      var found :=
        if PathName(currentPath, last.name) == path then
          (if last.baseType in g.properties then Some(last.baseType) else None)
        else before;
      if found.None? && Enters(g, last) then FindSubEntityClass(g, path, last.baseType, last.name, rank) else found
  }

  /** The path is one property name, or two with a dot between. */
  ghost predicate OneOrTwoNames(g: Types, path: string) {
    exists name :: IsName(g, name) && (path == name || exists outer :: IsName(g, outer) && path == outer + "." + name)
  }

  ghost predicate IsName(g: Types, name: string) {
    exists cls, i :: cls in g.properties && 0 <= i < |g.properties[cls]| && g.properties[cls][i].name == name
  }

  /** Only paths of one or two property names lead to a class. */
  lemma {:induction false} FoundByOneOrTwoNames(g: Types, path: string, cls: string, currentPath: string,
                                                rank: string -> nat)
    requires cls in g.properties && Walkable(g, rank) && (currentPath == "" || IsName(g, currentPath))
    requires FindSubEntityClass(g, path, cls, currentPath, rank).Some?
    ensures OneOrTwoNames(g, path)
    decreases rank(cls), 1, 0
  {
    FoundAmongByNames(g, path, cls, g.properties[cls], currentPath, rank);
  }

  lemma {:induction false} FoundAmongByNames(g: Types, path: string, cls: string, properties: seq<Property>,
                                             currentPath: string, rank: string -> nat)
    requires cls in g.properties && Walkable(g, rank) && (forall p :: p in properties ==> p in g.properties[cls])
    requires currentPath == "" || IsName(g, currentPath)
    requires FindAmong(g, path, cls, properties, currentPath, rank).Some?
    ensures OneOrTwoNames(g, path)
    decreases rank(cls), 0, |properties|
  {
    var init, last := properties[..|properties| - 1], properties[|properties| - 1];
    assert last in g.properties[cls];
    assert IsName(g, last.name) by {
      var i :| 0 <= i < |g.properties[cls]| && g.properties[cls][i] == last;
    }
    if PathName(currentPath, last.name) == path {
    } else if FindAmong(g, path, cls, init, currentPath, rank).Some? {
      FoundAmongByNames(g, path, cls, init, currentPath, rank);
    } else {
      FoundByOneOrTwoNames(g, path, last.baseType, last.name, rank);
    }
  }

  /** At property i the search has found the path, but the type there is not a declared class; what was
      found before is dropped. */
  predicate DropsAt(g: Types, path: string, cls: string, currentPath: string, i: nat)
    requires cls in g.properties && i < |g.properties[cls]|
  {
    PathName(currentPath, g.properties[cls][i].name) == path && g.properties[cls][i].baseType !in g.properties
  }

  /** A way to the path through the first k properties of the class: by array properties of entities down to
      a property of a declared class that is at the path, with nothing dropped behind it at any level. */
  ghost predicate Leads(g: Types, path: string, cls: string, currentPath: string, k: nat, way: seq<nat>)
    decreases |way|
  {
    && cls in g.properties && k <= |g.properties[cls]| && way != [] && way[0] < k
    && (forall i :: way[0] < i < k ==> !DropsAt(g, path, cls, currentPath, i))
    && var p := g.properties[cls][way[0]];
       if |way| == 1 then PathName(currentPath, p.name) == path && p.baseType in g.properties
       else Enters(g, p) && p.baseType in g.properties
            && Leads(g, path, p.baseType, p.name, |g.properties[p.baseType]|, way[1..])
  }

  lemma {:induction false} FoundLeads(g: Types, path: string, cls: string, currentPath: string, k: nat,
                                      rank: string -> nat)
    returns (way: seq<nat>)
    requires cls in g.properties && Walkable(g, rank) && k <= |g.properties[cls]|
    requires FindAmong(g, path, cls, g.properties[cls][..k], currentPath, rank).Some?
    ensures Leads(g, path, cls, currentPath, k, way)
    decreases rank(cls), k
  {
    var all := g.properties[cls];
    var last := all[k - 1];
    assert all[..k][..k - 1] == all[..k - 1] && last in all;
    if PathName(currentPath, last.name) == path && last.baseType in g.properties {
      way := [k - 1];
    } else if PathName(currentPath, last.name) != path
           && FindAmong(g, path, cls, all[..k - 1], currentPath, rank).Some? {
      way := FoundLeads(g, path, cls, currentPath, k - 1, rank);
    } else {
      var below := g.properties[last.baseType];
      assert below[..|below|] == below;
      way := FoundLeads(g, path, last.baseType, last.name, |below|, rank);
      assert ([k - 1] + way)[1..] == way;
      way := [k - 1] + way;
    }
  }

  lemma {:induction false} LeadsFinds(g: Types, path: string, cls: string, currentPath: string, k: nat, way: seq<nat>,
                                      rank: string -> nat)
    requires Walkable(g, rank) && Leads(g, path, cls, currentPath, k, way)
    ensures FindAmong(g, path, cls, g.properties[cls][..k], currentPath, rank).Some?
    decreases |way|, k
  {
    var all := g.properties[cls];
    var last := all[k - 1];
    assert all[..k][..k - 1] == all[..k - 1] && last in all;
    if way[0] < k - 1 {
      assert !DropsAt(g, path, cls, currentPath, k - 1);
      LeadsFinds(g, path, cls, currentPath, k - 1, way, rank);
    } else if |way| > 1 {
      var below := g.properties[last.baseType];
      LeadsFinds(g, path, last.baseType, last.name, |below|, way[1..], rank);
      assert below[..|below|] == below;
    }
  }

  ghost predicate NoWay(g: Types, path: string, cls: string, currentPath: string, k: nat) {
    forall way: seq<nat> :: !Leads(g, path, cls, currentPath, k, way)
  }

  /** Nothing is found if and only if there is no way to the path. */
  lemma NothingFoundExactly(g: Types, path: string, cls: string, currentPath: string, k: nat, rank: string -> nat)
    requires cls in g.properties && Walkable(g, rank) && k <= |g.properties[cls]|
    ensures FindAmong(g, path, cls, g.properties[cls][..k], currentPath, rank).None? <==>
            NoWay(g, path, cls, currentPath, k)
  {
    if FindAmong(g, path, cls, g.properties[cls][..k], currentPath, rank).Some? {
      var way := FoundLeads(g, path, cls, currentPath, k, rank);
      assert Leads(g, path, cls, currentPath, k, way);
    }
    if way: seq<nat> :| Leads(g, path, cls, currentPath, k, way) {
      LeadsFinds(g, path, cls, currentPath, k, way, rank);
    }
  }

  predicate IsAt(g: Types, path: string, cls: string, currentPath: string, i: nat)
    requires cls in g.properties && i < |g.properties[cls]|
  {
    PathName(currentPath, g.properties[cls][i].name) == path
  }

  /** The way that the search keeps.  It takes, at each level, the last property at the path if there is one;
      otherwise the first array property of entities below which there is a way.  It ends in a property
      declared with the class c. */
  ghost predicate Keeps(g: Types, path: string, cls: string, currentPath: string, k: nat, way: seq<nat>, c: string)
    decreases |way|
  {
    && cls in g.properties && k <= |g.properties[cls]| && way != [] && way[0] < k
    && (forall i :: way[0] < i < k ==> !IsAt(g, path, cls, currentPath, i))
    && var p := g.properties[cls][way[0]];
       if |way| == 1 then IsAt(g, path, cls, currentPath, way[0]) && p.baseType in g.properties && p.baseType == c
       else
         && !IsAt(g, path, cls, currentPath, way[0]) && Enters(g, p) && p.baseType in g.properties
         && NoWay(g, path, cls, currentPath, way[0])
         && Keeps(g, path, p.baseType, p.name, |g.properties[p.baseType]|, way[1..], c)
  }

  lemma KeepsAfter(g: Types, path: string, cls: string, currentPath: string, k: nat, way: seq<nat>, c: string)
    requires 0 < k && Keeps(g, path, cls, currentPath, k - 1, way, c) && k <= |g.properties[cls]|
    requires !IsAt(g, path, cls, currentPath, k - 1)
    ensures Keeps(g, path, cls, currentPath, k, way, c)
  {
  }

  lemma KeepsLast(g: Types, path: string, cls: string, currentPath: string, k: nat, way: seq<nat>, c: string)
    requires cls in g.properties && 0 < k <= |g.properties[cls]|
    requires var p := g.properties[cls][k - 1];
             && !IsAt(g, path, cls, currentPath, k - 1) && Enters(g, p) && p.baseType in g.properties
             && NoWay(g, path, cls, currentPath, k - 1)
             && Keeps(g, path, p.baseType, p.name, |g.properties[p.baseType]|, way, c)
    ensures Keeps(g, path, cls, currentPath, k, [k - 1] + way, c)
  {
    assert ([k - 1] + way)[1..] == way;
  }

  lemma {:induction false} FoundIsKept(g: Types, path: string, cls: string, currentPath: string, k: nat,
                                       rank: string -> nat)
    returns (way: seq<nat>)
    requires cls in g.properties && Walkable(g, rank) && k <= |g.properties[cls]|
    requires FindAmong(g, path, cls, g.properties[cls][..k], currentPath, rank).Some?
    ensures Keeps(g, path, cls, currentPath, k, way,
                  FindAmong(g, path, cls, g.properties[cls][..k], currentPath, rank).value)
    decreases rank(cls), k
  {
    var all := g.properties[cls];
    var c := FindAmong(g, path, cls, all[..k], currentPath, rank).value;
    var last := all[k - 1];
    assert all[..k][..k - 1] == all[..k - 1] && last in all;
    if PathName(currentPath, last.name) == path {
      way := [k - 1];
    } else if FindAmong(g, path, cls, all[..k - 1], currentPath, rank).Some? {
      way := FoundIsKept(g, path, cls, currentPath, k - 1, rank);
      KeepsAfter(g, path, cls, currentPath, k, way, c);
    } else {
      NothingFoundExactly(g, path, cls, currentPath, k - 1, rank);
      var below := g.properties[last.baseType];
      assert below[..|below|] == below;
      way := FoundIsKept(g, path, last.baseType, last.name, |below|, rank);
      KeepsLast(g, path, cls, currentPath, k, way, c);
      way := [k - 1] + way;
    }
  }

  lemma FindsBelow(g: Types, path: string, cls: string, currentPath: string, k: nat, c: string, rank: string -> nat)
    requires cls in g.properties && Walkable(g, rank) && 0 < k <= |g.properties[cls]|
    requires !IsAt(g, path, cls, currentPath, k - 1) && Enters(g, g.properties[cls][k - 1])
    requires NoWay(g, path, cls, currentPath, k - 1)
    requires var p := g.properties[cls][k - 1];
             && p.baseType in g.properties
             && FindSubEntityClass(g, path, p.baseType, p.name, rank) == Some(c)
    ensures FindAmong(g, path, cls, g.properties[cls][..k], currentPath, rank) == Some(c)
  {
    var all := g.properties[cls];
    assert all[..k][..k - 1] == all[..k - 1];
    NothingFoundExactly(g, path, cls, currentPath, k - 1, rank);
  }

  lemma {:induction false} KeptIsFound(g: Types, path: string, cls: string, currentPath: string, k: nat, way: seq<nat>,
                                       c: string, rank: string -> nat)
    requires Walkable(g, rank) && Keeps(g, path, cls, currentPath, k, way, c)
    ensures FindAmong(g, path, cls, g.properties[cls][..k], currentPath, rank) == Some(c)
    decreases |way|, k
  {
    var all := g.properties[cls];
    var last := all[k - 1];
    assert all[..k][..k - 1] == all[..k - 1] && last in all;
    if way[0] < k - 1 {
      assert !IsAt(g, path, cls, currentPath, k - 1);
      KeptIsFound(g, path, cls, currentPath, k - 1, way, c, rank);
    } else if |way| > 1 {
      var below := g.properties[last.baseType];
      KeptIsFound(g, path, last.baseType, last.name, |below|, way[1..], c, rank);
      assert below[..|below|] == below;
      FindsBelow(g, path, cls, currentPath, k, c, rank);
    }
  }

  /** Class c is found if and only if the way that the search keeps ends in a property declared with it. */
  lemma FoundExactly(g: Types, path: string, cls: string, rank: string -> nat, c: string)
    requires cls in g.properties && Walkable(g, rank)
    ensures FindSubEntityClass(g, path, cls, "", rank) == Some(c) <==>
            exists way: seq<nat> :: Keeps(g, path, cls, "", |g.properties[cls]|, way, c)
  {
    var all := g.properties[cls];
    assert all[..|all|] == all;
    if FindSubEntityClass(g, path, cls, "", rank) == Some(c) {
      var way := FoundIsKept(g, path, cls, "", |all|, rank);
      assert Keeps(g, path, cls, "", |all|, way, c);
    }
    if way: seq<nat> :| Keeps(g, path, cls, "", |all|, way, c) {
      KeptIsFound(g, path, cls, "", |all|, way, c, rank);
    }
  }

  lemma {:induction false} KeptLeads(g: Types, path: string, cls: string, currentPath: string, k: nat, way: seq<nat>,
                                     c: string)
    requires Keeps(g, path, cls, currentPath, k, way, c)
    ensures Leads(g, path, cls, currentPath, k, way)
    decreases |way|
  {
    forall i | way[0] < i < k
      ensures !DropsAt(g, path, cls, currentPath, i)
    {
      assert !IsAt(g, path, cls, currentPath, i);
    }
    if |way| > 1 {
      var p := g.properties[cls][way[0]];
      KeptLeads(g, path, p.baseType, p.name, |g.properties[p.baseType]|, way[1..], c);
    }
  }

  lemma {:induction false} BelowHasDot(g: Types, path: string, cls: string, currentPath: string, k: nat, way: seq<nat>)
    requires Leads(g, path, cls, currentPath, k, way) && currentPath != ""
    requires forall name :: IsName(g, name) ==> Identifier(name)
    ensures '.' in path
    decreases |way|
  {
    var p := g.properties[cls][way[0]];
    assert IsName(g, p.name);
    if |way| == 1 {
      assert path[|currentPath|] == '.';
    } else {
      BelowHasDot(g, path, p.baseType, p.name, |g.properties[p.baseType]|, way[1..]);
    }
  }

  /** For a path of one name it is the class that the entity declares the property of that name with. */
  lemma OneNameExactly(g: Types, path: string, cls: string, rank: string -> nat, c: string)
    requires cls in g.properties && Walkable(g, rank) && Identifier(path)
    requires forall name :: IsName(g, name) ==> Identifier(name)
    requires forall i, j :: 0 <= i < j < |g.properties[cls]| ==> g.properties[cls][i].name != g.properties[cls][j].name
    ensures FindSubEntityClass(g, path, cls, "", rank) == Some(c) <==>
            exists i ::
              && 0 <= i < |g.properties[cls]| && g.properties[cls][i].name == path
              && g.properties[cls][i].baseType == c && c in g.properties
  {
    var all := g.properties[cls];
    FoundExactly(g, path, cls, rank, c);
    if way: seq<nat> :| Keeps(g, path, cls, "", |all|, way, c) {
      var p := all[way[0]];
      assert IsName(g, p.name);
      if |way| > 1 {
        KeptLeads(g, path, p.baseType, p.name, |g.properties[p.baseType]|, way[1..], c);
        BelowHasDot(g, path, p.baseType, p.name, |g.properties[p.baseType]|, way[1..]);
      }
    }
    if i :| 0 <= i < |all| && all[i].name == path && all[i].baseType == c && c in g.properties {
      var way: seq<nat> := [i];
      assert Keeps(g, path, cls, "", |all|, way, c);
    }
  }

  /** A property called outer, an array of entities of a class that declares name with class c. */
  ghost predicate DeclaresBelow(g: Types, d: string, q: nat, i: nat, outer: string, name: string, c: string) {
    && d in g.properties && q < |g.properties[d]| && g.properties[d][q].name == outer
    && g.properties[d][q].isArray && g.properties[d][q].baseType in g.entities
    && var e := g.properties[d][q].baseType;
       && e in g.properties && i < |g.properties[e]| && g.properties[e][i].name == name
       && g.properties[e][i].baseType == c && c in g.properties
  }

  lemma {:induction false} KeptBelow(g: Types, outer: string, name: string, cls: string, currentPath: string, k: nat,
                                     way: seq<nat>, c: string)
    returns (d: string, q: nat, i: nat)
    requires Keeps(g, outer + "." + name, cls, currentPath, k, way, c) && |way| > 1
    requires Identifier(outer) && Identifier(name) && forall n :: IsName(g, n) ==> Identifier(n)
    ensures DeclaresBelow(g, d, q, i, outer, name, c)
    decreases |way|
  {
    var p := g.properties[cls][way[0]];
    var below := g.properties[p.baseType];
    if |way| == 2 {
      d, q, i := cls, way[0], way[1];
      assert IsName(g, p.name) && IsName(g, below[i].name);
      OneDot(p.name, below[i].name, outer, name);
    } else {
      d, q, i := KeptBelow(g, outer, name, p.baseType, p.name, |below|, way[1..], c);
    }
  }

  lemma OneDot(a: string, b: string, c: string, d: string)
    requires a + "." + b == c + "." + d && '.' !in a && '.' !in c
    ensures a == c && b == d
  {
    var s, t := a + "." + b, c + "." + d;
    assert s[|a|] == '.' && forall i :: 0 <= i < |a| ==> s[i] == a[i];
    assert t[|c|] == '.' && forall i :: 0 <= i < |c| ==> t[i] == c[i];
    assert s[..|a|] == a && t[..|c|] == c && s[|a| + 1..] == b && t[|c| + 1..] == d;
  }

  /** For a path of two names the class found is one that some array of entities with the first name declares
      the second name with. */
  lemma TwoNamesLead(g: Types, outer: string, name: string, cls: string, rank: string -> nat)
    returns (d: string, q: nat, i: nat)
    requires cls in g.properties && Walkable(g, rank) && Identifier(outer) && Identifier(name)
    requires forall n :: IsName(g, n) ==> Identifier(n)
    requires FindSubEntityClass(g, outer + "." + name, cls, "", rank).Some?
    ensures DeclaresBelow(g, d, q, i, outer, name, FindSubEntityClass(g, outer + "." + name, cls, "", rank).value)
  {
    var path, all := outer + "." + name, g.properties[cls];
    var c := FindSubEntityClass(g, path, cls, "", rank).value;
    FoundExactly(g, path, cls, rank, c);
    var way: seq<nat> :| Keeps(g, path, cls, "", |all|, way, c);
    assert IsName(g, all[way[0]].name) && path[|outer|] == '.';
    d, q, i := KeptBelow(g, outer, name, cls, "", |all|, way, c);
  }

  /** And if that array is the first array of entities of the class where the search starts, it is found. */
  lemma FirstArrayIsFound(g: Types, outer: string, name: string, cls: string, rank: string -> nat, q: nat, i: nat,
                          c: string)
    requires cls in g.properties && Walkable(g, rank) && Identifier(outer) && Identifier(name)
    requires forall n :: IsName(g, n) ==> Identifier(n)
    requires DeclaresBelow(g, cls, q, i, outer, name, c)
    requires forall h :: 0 <= h < q ==> !(g.properties[cls][h].isArray && g.properties[cls][h].baseType in g.entities)
    requires var below := g.properties[g.properties[cls][q].baseType];
             forall h, j :: 0 <= h < j < |below| ==> below[h].name != below[j].name
    ensures FindSubEntityClass(g, outer + "." + name, cls, "", rank) == Some(c)
  {
    var path, all := outer + "." + name, g.properties[cls];
    var below := g.properties[all[q].baseType];
    forall h | 0 <= h < |all|
      ensures !IsAt(g, path, cls, "", h)
    {
      assert IsName(g, all[h].name) && path[|outer|] == '.';
    }
    forall h | i < h < |below|
      ensures !IsAt(g, path, all[q].baseType, outer, h)
    {
      if IsAt(g, path, all[q].baseType, outer, h) {
        OneDot(outer, below[h].name, outer, name);
      }
    }
    forall w: seq<nat>
      ensures !Leads(g, path, cls, "", q, w)
    {
      if w != [] && w[0] < q {
        assert !IsAt(g, path, cls, "", w[0]);
      }
    }
    var way: seq<nat> := [q, i];
    assert way[1..] == [i];
    assert Keeps(g, path, all[q].baseType, outer, |below|, way[1..], c);
    assert Keeps(g, path, cls, "", |all|, way, c);
    FoundExactly(g, path, cls, rank, c);
  }

  predicate Identifier(name: string) {
    name != "" && name != "*" && '.' !in name
  }

  lemma NamesHaveFewDots(g: Types, path: string)
    requires OneOrTwoNames(g, path) && forall name :: IsName(g, name) ==> Identifier(name)
    ensures path != "" && path != "*" && Dots(path) <= 1
  {
    var name :| IsName(g, name) && (path == name || exists outer :: IsName(g, outer) && path == outer + "." + name);
    NoDots(name);
    if path != name {
      var outer :| IsName(g, outer) && path == outer + "." + name;
      NoDots(outer);
      DotsAppend(outer + ".", name);
      DotsAppend(outer, ".");
      assert Dots(".") == 1 by { assert "."[..0] == ""; }
    }
  }

  /** For the path of the entity itself, for all paths, and for paths of three names and more no class is
      found, so no filter with such a path is read-denied. */
  lemma NoClassForRootOrDeepPaths(g: Types, path: string, cls: string, rank: string -> nat)
    requires cls in g.properties && Walkable(g, rank)
    requires forall name :: IsName(g, name) ==> Identifier(name)
    requires path == "" || path == "*" || Dots(path) >= 2
    ensures FindSubEntityClass(g, path, cls, "", rank).None?
  {
    if FindSubEntityClass(g, path, cls, "", rank).Some? {
      FoundByOneOrTwoNames(g, path, cls, "", rank);
      NamesHaveFewDots(g, path);
    }
  }
}
