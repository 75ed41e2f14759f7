/** The projection of a query: the fields to include, or all fields of the entity, less the excluded ones. */
module Projection {
  import opened Common
  import opened SelectionParser
  import opened Text

  /** A list whose first element has a brace is one selection text; it is parsed into a list. */
  function Listed(fields: Option<seq<string>>, layout: string -> string): seq<string> {
    if fields.None? || fields.value == [] then []
    else if '{' in fields.value[0] then Fields(fields.value[0], layout)
    else fields.value
  }

  function Names(fields: seq<string>): set<string> {
    set f | f in fields
  }

  function ProjectedFields(defaults: seq<string>, wanted: Option<seq<string>>, unwanted: Option<seq<string>>,
                           layout: string -> string): set<string>
  {
    (if Listed(wanted, layout) == [] then Names(defaults)
     else Names(Listed(wanted, layout))) - Names(Listed(unwanted, layout))
  }

  method GetListed(fields: Option<seq<string>>, layout: string -> string) returns (r: seq<string>)
    ensures r == Listed(fields, layout)
  {
    r := if fields.Some? then fields.value else [];
    if r != [] && '{' in r[0] {
      r := GetFields(r[0], layout);
    }
  }

  /** The argument is no selection text. */
  predicate IsListing(fields: Option<seq<string>>) {
    fields.Some? && fields.value != [] ==> '{' !in fields.value[0]
  }

  /** The keys of the result are exactly the projected fields.  For lists these are the wanted fields, or the
      default ones if none are wanted, that are not among the unwanted. */
  method GetProjection(defaults: seq<string>, wanted: Option<seq<string>>, unwanted: Option<seq<string>>,
                       layout: string -> string)
    returns (projection: map<string, int>)
    ensures projection.Keys == ProjectedFields(defaults, wanted, unwanted, layout)
    ensures forall f :: f in projection ==> projection[f] == 1
    ensures IsListing(wanted) && IsListing(unwanted) ==>
              forall f :: f in projection <==>
                && (if wanted.None? || wanted.value == [] then f in defaults else f in wanted.value)
                && (unwanted.Some? ==> f !in unwanted.value)
  {
    var included := GetListed(wanted, layout);
    var excluded := GetListed(unwanted, layout);
    if included == [] {
      included := defaults;
    }
    projection := map f | f in included :: 1;
    var keys := projection.Keys;
    while keys != {}
      invariant keys <= projection.Keys
      invariant forall f :: f in projection ==> projection[f] == 1
      invariant forall f :: f in included && (f in keys || f !in excluded) ==> f in projection
      invariant forall f :: f in projection ==> f in included && (f in keys || f !in excluded)
    {
      var key :| key in keys;
      if key in excluded {
        projection := projection - {key};
      }
      keys := keys - {key};
    }
    assert projection.Keys == Names(included) - Names(excluded);
  }

  lemma {:induction false} DottedPlain(stack: seq<string>)
    requires PlainNames(stack)
    ensures Free(Dotted(stack), "{")
  {
    if stack == [] {
    } else {
      var front, name := stack[..|stack| - 1], stack[|stack| - 1];
      DottedPlain(front);
      PlainFree(name);
      FreeAppend(Dotted(front), name, "{");
      FreeAppend(Dotted(front) + name, ".", "{");
    }
  }

  lemma PathTextPlain(path: seq<string>)
    requires path != [] && PlainNames(path)
    ensures '{' !in PathText(path)
  {
    DottedPlain(path[..|path| - 1]);
    PlainFree(path[|path| - 1]);
    FreeAppend(Dotted(path[..|path| - 1]), path[|path| - 1], "{");
  }

  lemma ListedText(text: string, layout: string -> string)
    requires '{' in text
    ensures Listed(Some([text]), layout) == Fields(text, layout)
  {
  }

  lemma ListedList(fields: seq<string>, layout: string -> string)
    requires fields != [] ==> '{' !in fields[0]
    ensures Listed(Some(fields), layout) == fields
  {
  }

  lemma ListedPaths(items: seq<Selection>, layout: string -> string)
    requires PlainTree(items)
    ensures NonEmptyPaths(Paths(items, []))
    ensures Listed(Some(PathTexts(Paths(items, []))), layout) == PathTexts(Paths(items, []))
  {
    PathsNonEmpty(items, []);
    var paths := Paths(items, []);
    if paths != [] {
      PathTextPlain(paths[0]);
    }
    ListedList(PathTexts(paths), layout);
  }

  /** The ways to write a selection. */
  datatype Written =
    | Absent
    | Listing(fields: seq<string>)
    | GraphQlText(items: seq<Selection>, indent: nat -> string, lines: seq<string>)
    | JsonText(items: seq<Selection>, indent: nat -> string, lines: seq<string>)

  function Argument(w: Written): Option<seq<string>> {
    match w
    case Absent => None
    case Listing(fields) => Some(fields)
    case GraphQlText(_, _, lines) => Some([Join(lines, '\n')])
    case JsonText(_, _, lines) => Some([Join(lines, '\n')])
  }

  /** A list is none that would be taken for a text; a text is the print of a plain tree, in any layout, and
      in JSON of one whose paths are not cut. */
  ghost predicate WellWritten(w: Written) {
    match w
    case Absent => true
    case Listing(fields) => fields != [] ==> '{' !in fields[0]
    case GraphQlText(items, indent, lines) =>
      PlainTree(items) && Indents(indent) && LaysOut(lines, Lines(items, false, 1, indent)) && '{' in Join(lines, '\n')
    case JsonText(items, indent, lines) =>
      && PlainTree(items) && Indents(indent) && LaysOut(lines, Lines(items, true, 0, indent))
      && '{' in Join(lines, '\n')
      && !LosesField(items)
  }

  /** The field is on the list, or is the path of a selected leaf. */
  ghost predicate Selects(w: Written, f: string) {
    match w
    case Absent => false
    case Listing(fields) => f in fields
    case GraphQlText(items, _, _) => IsPathOf(items, f)
    case JsonText(items, _, _) => IsPathOf(items, f)
  }

  ghost predicate IsPathOf(items: seq<Selection>, f: string) {
    exists i :: 0 <= i < |Paths(items, [])| && Paths(items, [])[i] != [] && PathText(Paths(items, [])[i]) == f
  }

  lemma PathsListed(items: seq<Selection>, fields: Option<seq<string>>, layout: string -> string, f: string)
    requires NonEmptyPaths(Paths(items, [])) && Listed(fields, layout) == PathTexts(Paths(items, []))
    ensures f in Listed(fields, layout) <==> IsPathOf(items, f)
  {
    var paths := Paths(items, []);
    if IsPathOf(items, f) {
      var i :| 0 <= i < |paths| && paths[i] != [] && PathText(paths[i]) == f;
      assert PathTexts(paths)[i] == f;
    }
  }

  lemma ListedExactly(w: Written, layout: string -> string, f: string)
    requires WellWritten(w)
    ensures f in Listed(Argument(w), layout) <==> Selects(w, f)
  {
    match w
    case Absent =>
    case Listing(fields) => ListedList(fields, layout);
    case GraphQlText(items, indent, lines) =>
      GraphQlParses(items, indent, lines, layout);
      ListedText(Join(lines, '\n'), layout);
      PathsListed(items, Argument(w), layout, f);
    case JsonText(items, indent, lines) =>
      JsonParses(items, indent, lines, layout);
      ListedText(Join(lines, '\n'), layout);
      PathsListed(items, Argument(w), layout, f);
  }

  /** In whatever way either selection is written, a field is projected if and only if it is wanted, or a
      default field where nothing is wanted, and it is not unwanted. */
  lemma ProjectedExactly(defaults: seq<string>, wanted: Written, unwanted: Written, layout: string -> string, f: string)
    requires WellWritten(wanted) && WellWritten(unwanted)
    ensures f in ProjectedFields(defaults, Argument(wanted), Argument(unwanted), layout) <==>
            && (if exists n :: Selects(wanted, n) then Selects(wanted, f) else f in defaults)
            && !Selects(unwanted, f)
  {
    var list := Listed(Argument(wanted), layout);
    forall n
      ensures n in list <==> Selects(wanted, n)
    {
      ListedExactly(wanted, layout, n);
    }
    if list != [] {
      assert list[0] in list;
    }
    ListedExactly(unwanted, layout, f);
  }

  /** Two ways to write a selection are projected alike, whatever the other selection is. */
  ghost predicate ProjectedAlike(a: Option<seq<string>>, b: Option<seq<string>>, layout: string -> string) {
    forall defaults, other ::
      && ProjectedFields(defaults, a, other, layout) == ProjectedFields(defaults, b, other, layout)
      && ProjectedFields(defaults, other, a, layout) == ProjectedFields(defaults, other, b, layout)
  }

  lemma ListedAlike(a: Option<seq<string>>, b: Option<seq<string>>, layout: string -> string)
    requires Listed(a, layout) == Listed(b, layout)
    ensures ProjectedAlike(a, b, layout)
  {
  }

  /** A selection tree gives the same projection as a GraphQL text, as a JSON text and as the list of
      its paths, both for inclusion and for exclusion. */
  lemma SameProjectionInEverySyntax(items: seq<Selection>, gIndent: nat -> string, jIndent: nat -> string,
                                    gLines: seq<string>, jLines: seq<string>, layout: string -> string)
    requires PlainTree(items) && Indents(gIndent) && Indents(jIndent) && !LosesField(items)
    requires LaysOut(gLines, Lines(items, false, 1, gIndent)) && LaysOut(jLines, Lines(items, true, 0, jIndent))
    requires '{' in Join(gLines, '\n') && '{' in Join(jLines, '\n')
    ensures NonEmptyPaths(Paths(items, []))
    ensures ProjectedAlike(Some(PathTexts(Paths(items, []))), Some([Join(gLines, '\n')]), layout)
    ensures ProjectedAlike(Some(PathTexts(Paths(items, []))), Some([Join(jLines, '\n')]), layout)
  {
    GraphQlParses(items, gIndent, gLines, layout);
    JsonParses(items, jIndent, jLines, layout);
    ListedPaths(items, layout);
    var list := Some(PathTexts(Paths(items, [])));
    ListedText(Join(gLines, '\n'), layout);
    ListedAlike(list, Some([Join(gLines, '\n')]), layout);
    ListedText(Join(jLines, '\n'), layout);
    ListedAlike(list, Some([Join(jLines, '\n')]), layout);
  }
}
