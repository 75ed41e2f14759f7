/** Field selections read line by line from GraphQL or JSON text.

    The parser keeps the open ancestors as one dotted string.  It is shown to behave as a machine on a
    stack of names, and to invert the printers of selection trees. */
module SelectionParser {
  import opened Common
  import opened Text

  // ---------------------------------------------------------------------------------------------
  // The parser
  // ---------------------------------------------------------------------------------------------

  /** The parser's variables. */
  datatype Cursor = Cursor(fieldPath: string, fields: seq<string>)

  /** Greatest position of c at or before `from`; -1 if there is none. */
  function LastIndexOf(s: string, c: char, from: int): (p: int)
    requires from < |s|
    ensures -1 <= p && (p >= 0 ==> p < |s|)
    decreases from + 1
  {
    if from < 0 then -1 else if s[from] == c then from else LastIndexOf(s, c, from - 1)
  }

  /** The search starts at the last but one character, or at the first of a shorter text. */
  function PopPath(path: string): string {
    var from := if |path| >= 2 then |path| - 2 else if |path| == 1 then 0 else -1;
    path[..LastIndexOf(path, '.', from) + 1]
  }

  /** slice(1, -2) */
  function Unquote(s: string): string {
    if |s| < 3 then [] else s[1..|s| - 2]
  }

  function OpenedName(line: string): string {
    var name := Trim(Split(line, "{")[0]);
    if EndsWith(name, ":") then Unquote(name) else name
  }

  /** Reading a missing part gives undefined, which prints as that word. */
  function SecondPart(parts: seq<string>): string {
    if |parts| < 2 then "undefined" else parts[1]
  }

  function Step(line: string, c: Cursor): Cursor {
    if EndsWith(line, "{") then c.(fieldPath := c.fieldPath + OpenedName(line) + ".")
    else if EndsWith(line, "},") || EndsWith(line, "}") then c.(fieldPath := PopPath(c.fieldPath))
    else
      var text := Trim(line);
      if ':' in text then
        var parts := Split(text, ":,");
        if Trim(SecondPart(parts)) == "true" then
          c.(fields := c.fields + [c.fieldPath + SecondPart(Split(parts[0], "\""))])
        else c
      else c.(fields := c.fields + [c.fieldPath + text])
  }

  function Steps(lines: seq<string>, c: Cursor): Cursor
    decreases |lines|
  {
    if lines == [] then c else Steps(lines[1..], Step(lines[0], c))
  }

  function NonBlank(lines: seq<string>): seq<string> {
    if lines == [] then []
    else (if Trim(lines[0]) != [] then [lines[0]] else []) + NonBlank(lines[1..])
  }

  /** slice(1, -1) */
  function Inner(lines: seq<string>): seq<string> {
    if |lines| < 2 then [] else lines[1..|lines| - 1]
  }

  /** Text in one line that has a colon is first laid out by the JSON library, here `layout`. */
  function ParsedLines(text: string, layout: string -> string): seq<string> {
    Inner(NonBlank(Split(if ':' in text && '\n' !in text then layout(text) else text, "\n")))
  }

  function Fields(text: string, layout: string -> string): seq<string> {
    Steps(ParsedLines(text, layout), Cursor("", [])).fields
  }

  method GetFields(text: string, layout: string -> string) returns (fields: seq<string>)
    ensures fields == Fields(text, layout)
  {
    var lines := ParsedLines(text, layout);
    var fieldPath := "";
    fields := [];
    for i := 0 to |lines|
      invariant Steps(lines[i..], Cursor(fieldPath, fields)) == Steps(lines, Cursor("", []))
    {
      var line := lines[i];
      assert lines[i..][0] == line && lines[i..][1..] == lines[i + 1..];
      if EndsWith(line, "{") {
        fieldPath := fieldPath + OpenedName(line) + ".";
      } else if EndsWith(line, "},") || EndsWith(line, "}") {
        fieldPath := PopPath(fieldPath);
      } else {
        var fieldName := Trim(line);
        if ':' in fieldName {
          var parts := Split(fieldName, ":,");
          if Trim(SecondPart(parts)) == "true" {
            fields := fields + [fieldPath + SecondPart(Split(parts[0], "\""))];
          }
        } else {
          fields := fields + [fieldPath + fieldName];
        }
      }
    }
  }

  // ---------------------------------------------------------------------------------------------
  // The stack machine
  // ---------------------------------------------------------------------------------------------

  /** What a line says.  `EmptyGroup` is an object without members, which JSON lays out in one line. */
  datatype Event =
    Open(name: string) | Close | EmptyGroup(name: string) | Selected(name: string) | Unselected(name: string)

  datatype Machine = Machine(stack: seq<string>, paths: seq<seq<string>>)

  function Pop(stack: seq<string>): seq<string> {
    if stack == [] then [] else stack[..|stack| - 1]
  }

  /** An empty group is taken for the end of its parent. */
  function Move(e: Event, m: Machine): Machine {
    match e
    case Open(name) => m.(stack := m.stack + [name])
    case Close => m.(stack := Pop(m.stack))
    case EmptyGroup(_) => m.(stack := Pop(m.stack))
    case Selected(name) => m.(paths := m.paths + [m.stack + [name]])
    case Unselected(_) => m
  }

  /** A name that is not empty and has neither space nor any character the parser looks for. */
  predicate PlainName(name: string) {
    name != [] && Free(name, ".{}:,\"") && forall i :: 0 <= i < |name| ==> !IsSpace(name[i])
  }

  predicate PlainNames(names: seq<string>) {
    forall i :: 0 <= i < |names| ==> PlainName(names[i])
  }

  function Dotted(stack: seq<string>): string {
    if stack == [] then [] else Dotted(stack[..|stack| - 1]) + stack[|stack| - 1] + "."
  }

  function PathText(path: seq<string>): string
    requires path != []
  {
    Dotted(path[..|path| - 1]) + path[|path| - 1]
  }

  predicate NonEmptyPaths(paths: seq<seq<string>>) {
    forall i :: 0 <= i < |paths| ==> paths[i] != []
  }

  function PathTexts(paths: seq<seq<string>>): (r: seq<string>)
    requires NonEmptyPaths(paths)
  {
    seq(|paths|, i requires 0 <= i < |paths| => PathText(paths[i]))
  }

  // ---------------------------------------------------------------------------------------------
  // Lines
  // ---------------------------------------------------------------------------------------------

  datatype Layout = GraphQl | Json(comma: bool)

  /** A line of either layout with its indentation. */
  datatype Line = Line(layout: Layout, indent: string, event: Event)

  function Quoted(name: string): string {
    "\"" + name + "\""
  }

  function Comma(layout: Layout): string {
    if layout.Json? && layout.comma then "," else ""
  }

  function OpenText(layout: Layout, name: string): string {
    if layout.GraphQl? then name else Quoted(name) + ":"
  }

  function ValueText(layout: Layout, value: string): string {
    " " + value + Comma(layout)
  }

  function Content(l: Line): string {
    match l.event
    case Open(name) => OpenText(l.layout, name) + " {"
    case Close => "}" + Comma(l.layout)
    case EmptyGroup(name) => Quoted(name) + ": {}" + Comma(l.layout)
    case Selected(name) => if l.layout.GraphQl? then name else Quoted(name) + ":" + ValueText(l.layout, "true")
    case Unselected(name) => Quoted(name) + ":" + ValueText(l.layout, "false")
  }

  function Render(l: Line): string {
    l.indent + Content(l)
  }

  /** The lines as they are written in GraphQL. */
  lemma GraphQlLinesAsWritten(indent: string, name: string)
    ensures Render(Line(GraphQl, indent, Open(name))) == indent + (name + " {")
    ensures Render(Line(GraphQl, indent, Close)) == indent + "}"
    ensures Render(Line(GraphQl, indent, Selected(name))) == indent + name
  {
    assert "}" + "" == "}";
  }

  /** The lines as they are written in JSON, in front of another member and as the last one. */
  lemma JsonLinesAsWritten(indent: string, name: string)
    ensures Render(Line(Json(false), indent, Open(name))) == indent + ("\"" + name + "\"" + ":" + " {")
    ensures Render(Line(Json(true), indent, Close)) == indent + "},"
    ensures Render(Line(Json(false), indent, Close)) == indent + "}"
  {
    assert "}" + "," == "},";
    assert "}" + "" == "}";
  }

  lemma JsonMembersAsWritten(indent: string, name: string)
    ensures Render(Line(Json(true), indent, EmptyGroup(name))) == indent + ("\"" + name + "\"" + ": {}" + ",")
    ensures Render(Line(Json(true), indent, Selected(name)))
            == indent + ("\"" + name + "\"" + ":" + (" " + "true" + ","))
    ensures Render(Line(Json(true), indent, Unselected(name)))
            == indent + ("\"" + name + "\"" + ":" + (" " + "false" + ","))
  {
  }

  /** GraphQL can neither unselect a field nor close a group in the line that opens it. */
  predicate WellFormed(l: Line) {
    && AllSpace(l.indent) && Free(l.indent, "\n")
    && (l.event.Close? || PlainName(l.event.name))
    && (l.layout.GraphQl? ==> !l.event.Unselected? && !l.event.EmptyGroup?)
  }

  predicate AllWellFormed(ls: seq<Line>) {
    forall i :: 0 <= i < |ls| ==> WellFormed(ls[i])
  }

  function Rendered(ls: seq<Line>): seq<string> {
    if ls == [] then [] else [Render(ls[0])] + Rendered(ls[1..])
  }

  function Moves(ls: seq<Line>, m: Machine): Machine
    decreases |ls|
  {
    if ls == [] then m else Moves(ls[1..], Move(ls[0].event, m))
  }

  // ---------------------------------------------------------------------------------------------
  // The parser mirrors the machine
  // ---------------------------------------------------------------------------------------------

  lemma FreeAppend(a: string, b: string, separators: string)
    ensures Free(a + b, separators) <==> Free(a, separators) && Free(b, separators)
  {
    if Free(a + b, separators) {
      forall i | 0 <= i < |a| ensures a[i] !in separators { assert (a + b)[i] == a[i]; }
      forall i | 0 <= i < |b| ensures b[i] !in separators { assert (a + b)[|a| + i] == b[i]; }
    }
  }

  lemma SpaceFree(indent: string)
    requires AllSpace(indent)
    ensures Free(indent, "{") && Free(indent, ":,")
  {
    forall i | 0 <= i < |indent| ensures indent[i] !in "{" && indent[i] !in ":," {
      assert indent[i] in indent;
    }
  }

  lemma PlainFree(name: string)
    requires PlainName(name)
    ensures Free(name, "{") && Free(name, ":,") && Free(name, "\"") && Trimmed(name) && Trimmed(Quoted(name))
            && ':' !in name
  {
    assert Quoted(name)[|name| + 1] == '"';
  }

  lemma QuotedFree(name: string)
    requires PlainName(name)
    ensures Free(Quoted(name), ":,") && Free(Quoted(name) + ":", "{") && Trimmed(Quoted(name))
            && Trimmed(Quoted(name) + ":")
  {
    PlainFree(name);
    FreeAppend("\"" + name, "\"", ":,");
    FreeAppend("\"", name, ":,");
    FreeAppend(Quoted(name), ":", "{");
    FreeAppend("\"" + name, "\"", "{");
    FreeAppend("\"", name, "{");
  }

  lemma EndsWithLast(s: string)
    requires s != []
    ensures forall c :: EndsWith(s, [c]) <==> s[|s| - 1] == c
    ensures EndsWith(s, "},") ==> |s| >= 2 && s[|s| - 2] == '}' && s[|s| - 1] == ','
    ensures |s| >= 2 && s[|s| - 2] == '}' && s[|s| - 1] == ',' ==> EndsWith(s, "},")
  {
    if EndsWith(s, "},") {
      assert s[|s| - 2..][0] == s[|s| - 2] && s[|s| - 2..][1] == s[|s| - 1];
    }
  }

  lemma LastDot(s: string, name: string, from: int)
    requires PlainName(name) && |s| - 1 <= from < |s| + |name|
    ensures LastIndexOf(s + name + ".", '.', from) == LastIndexOf(s + name + ".", '.', |s| - 1)
    decreases from
  {
    if from >= |s| {
      assert (s + name + ".")[from] == name[from - |s|];
      LastDot(s, name, from - 1);
    }
  }

  lemma {:induction false} LastIndexIsLast(s: string, c: char, from: int)
    requires -1 <= from < |s|
    ensures var p := LastIndexOf(s, c, from);
            p <= from && (p >= 0 ==> s[p] == c) && forall i :: p < i <= from && i >= 0 ==> s[i] != c
    decreases from + 1
  {
    if from >= 0 && s[from] != c {
      LastIndexIsLast(s, c, from - 1);
    }
  }

  /** For any path text, the cut is behind the last dot that is not the last character of two or more, or in
      front of everything if there is none. */
  lemma PopPathExactly(path: string)
    ensures var r := PopPath(path);
            var bound := if |path| >= 2 then |path| - 1 else |path|;
            && |r| <= bound && r == path[..|r|] && (r != [] ==> path[|r| - 1] == '.')
            && forall i :: |r| <= i < bound ==> path[i] != '.'
  {
    LastIndexIsLast(path, '.', if |path| >= 2 then |path| - 2 else |path| - 1);
  }

  lemma UnquotedText(name: string, line: string)
    requires PlainName(name) && line == name + [':'] + " true"
    ensures Trim(line) == line && ':' in line && line[|line| - 1] == 'e'
  {
    assert line[|name|] == ':' && line[0] == name[0];
    TrimFixed(line);
  }

  lemma UnquotedParts(name: string, value: string)
    requires PlainName(name) && Free(value, ":,")
    ensures Split(name + [':'] + value, ":,") == [name] + [value] && Split(name, "\"") == [name]
  {
    PlainFree(name);
    SplitFirst(name, ':', value, ":,");
    SplitFree(value, ":,");
    SplitFree(name, "\"");
  }

  lemma TrueBehindSpace()
    ensures Trim(" true") == "true"
  {
    assert " " + "true" == " true";
    TrimLeadingSpace(" ", "true");
    TrimFixed("true");
  }

  /** A member whose name is not quoted is selected as undefined. */
  lemma UnquotedNameIsUndefined(name: string, line: string, c: Cursor)
    requires PlainName(name) && line == name + [':'] + " true"
    ensures Step(line, c) == c.(fields := c.fields + [c.fieldPath + "undefined"])
  {
    UnquotedText(name, line);
    UnquotedParts(name, " true");
    EndsWithLast(line);
    TrueBehindSpace();
  }

  lemma DottedEndsWithDot(stack: seq<string>)
    ensures stack != [] ==> Dotted(stack) != [] && Dotted(stack)[|Dotted(stack)| - 1] == '.'
  {
  }

  /** Cutting the text behind the last but one dot removes the last name of a dotted stack. */
  lemma PopIsPop(stack: seq<string>)
    requires PlainNames(stack)
    ensures PopPath(Dotted(stack)) == Dotted(Pop(stack))
  {
    if stack != [] {
      var name := stack[|stack| - 1];
      var s := Dotted(Pop(stack));
      var t := s + name + ".";
      assert PlainName(name) && Dotted(stack) == t;
      LastDot(s, name, |t| - 2);
      DottedEndsWithDot(Pop(stack));
      if s != [] {
        assert t[|s| - 1] == '.';
      }
      assert t[..|s|] == s;
    }
  }

  ghost predicate Mirrors(c: Cursor, m: Machine) {
    PlainNames(m.stack) && NonEmptyPaths(m.paths) && c.fieldPath == Dotted(m.stack) && c.fields == PathTexts(m.paths)
  }

  lemma BeforeBrace(indent: string, shown: string)
    requires AllSpace(indent) && shown != [] && Trimmed(shown) && Free(shown, "{")
    ensures var line := indent + (shown + " {"); EndsWith(line, "{") && Trim(Split(line, "{")[0]) == shown
  {
    var head := indent + shown + " ";
    assert indent + (shown + " {") == head + ['{'] + "";
    SpaceFree(indent);
    FreeAppend(indent, shown, "{");
    FreeAppend(indent + shown, " ", "{");
    SplitFirst(head, '{', "", "{");
    TrimSurrounded(indent, shown, " ");
  }

  lemma OpenLine(l: Line)
    requires WellFormed(l) && l.event.Open?
    ensures EndsWith(Render(l), "{") && OpenedName(Render(l)) == l.event.name
  {
    var name := l.event.name;
    var shown := OpenText(l.layout, name);
    PlainFree(name);
    QuotedFree(name);
    BeforeBrace(l.indent, shown);
    EndsWithLast(shown);
    if l.layout.Json? {
      assert Unquote(shown) == name;
    } else {
      assert name[|name| - 1] !in ".{}:,\"";
    }
  }

  /** The text ends in a closing brace, with or without a comma. */
  predicate Closes(s: string) {
    s != [] && (s[|s| - 1] == '}' || (|s| >= 2 && s[|s| - 2] == '}' && s[|s| - 1] == ','))
  }

  lemma ClosingEnd(l: Line)
    requires l.event.Close? || l.event.EmptyGroup?
    ensures Closes(Render(l))
  {
  }

  lemma CloseLine(s: string)
    requires Closes(s)
    ensures !EndsWith(s, "{") && (EndsWith(s, "},") || EndsWith(s, "}"))
  {
    EndsWithLast(s);
  }

  lemma GraphQlField(l: Line)
    requires WellFormed(l) && l.layout.GraphQl? && l.event.Selected?
    ensures var line := Render(l);
            !EndsWith(line, "{") && !EndsWith(line, "}") && !EndsWith(line, "},") &&
            Trim(line) == l.event.name && ':' !in l.event.name
  {
    PlainFree(l.event.name);
    TrimIndented(l.indent, l.event.name);
    NameEnd(l.indent, l.event.name);
  }

  lemma NameEnd(indent: string, name: string)
    requires PlainName(name)
    ensures var line := indent + name; !EndsWith(line, "{") && !EndsWith(line, "}") && !EndsWith(line, "},")
  {
    var line := indent + name;
    var last := name[|name| - 1];
    assert last !in ".{}:,\"" && line[|line| - 1] == last;
    EndsWithLast(line);
  }

  lemma JsonFieldEnd(l: Line)
    requires l.layout.Json? && (l.event.Selected? || l.event.Unselected?)
    ensures var line := Render(l); !EndsWith(line, "{") && !EndsWith(line, "}") && !EndsWith(line, "},")
  {
    EndsWithLast(Render(l));
  }

  lemma ValuePart(value: string, layout: Layout)
    requires value == "true" || value == "false"
    ensures Trim(Split(ValueText(layout, value), ":,")[0]) == value
  {
    TrimIndented(" ", value);
    if Comma(layout) == "," {
      assert ValueText(layout, value) == (" " + value) + [','] + "";
      SplitFirst(" " + value, ',', "", ":,");
    } else {
      assert ValueText(layout, value) == " " + value;
      SplitFree(" " + value, ":,");
    }
  }

  lemma KeyAndValue(indent: string, key: string, rest: string)
    requires AllSpace(indent) && key != [] && Trimmed(key) && Free(key, ":,")
    requires rest != [] && !IsSpace(rest[|rest| - 1])
    ensures var text := Trim(indent + (key + ":" + rest)); ':' in text && Split(text, ":,") == [key] + Split(rest, ":,")
  {
    var text := key + ":" + rest;
    assert text[|text| - 1] == rest[|rest| - 1] && text[0] == key[0];
    TrimIndented(indent, text);
    assert text[|key|] == ':';
    SplitFirst(key, ':', rest, ":,");
  }

  lemma QuotedName(name: string)
    requires PlainName(name)
    ensures SecondPart(Split(Quoted(name), "\"")) == name
  {
    PlainFree(name);
    assert Quoted(name) == "" + ['"'] + (name + ['"'] + "");
    SplitFirst("", '"', name + ['"'] + "", "\"");
    SplitFirst(name, '"', "", "\"");
  }

  function JsonValue(l: Line): string {
    ValueText(l.layout, if l.event.Selected? then "true" else "false")
  }

  lemma JsonParts(l: Line)
    requires WellFormed(l) && l.layout.Json? && (l.event.Selected? || l.event.Unselected?)
    ensures var text := Trim(Render(l));
            ':' in text && Split(text, ":,") == [Quoted(l.event.name)] + Split(JsonValue(l), ":,")
  {
    QuotedFree(l.event.name);
    KeyAndValue(l.indent, Quoted(l.event.name), JsonValue(l));
  }

  lemma JsonField(l: Line)
    requires WellFormed(l) && l.layout.Json? && (l.event.Selected? || l.event.Unselected?)
    ensures var text := Trim(Render(l)); var parts := Split(text, ":,");
            ':' in text && (Trim(SecondPart(parts)) == "true" <==> l.event.Selected?) &&
            SecondPart(Split(parts[0], "\"")) == l.event.name
  {
    QuotedName(l.event.name);
    ValuePart(if l.event.Selected? then "true" else "false", l.layout);
    JsonParts(l);
    var key, value := Quoted(l.event.name), Split(JsonValue(l), ":,");
    assert ([key] + value)[0] == key && SecondPart([key] + value) == value[0];
  }

  lemma RecordPath(m: Machine, name: string)
    requires NonEmptyPaths(m.paths)
    ensures var m' := Move(Selected(name), m);
            NonEmptyPaths(m'.paths) && PathTexts(m'.paths) == PathTexts(m.paths) + [Dotted(m.stack) + name]
  {
    assert (m.stack + [name])[..|m.stack|] == m.stack;
  }

  /** One line moves the dotted path exactly as the machine moves its stack. */
  lemma StepMirrorsMove(l: Line, c: Cursor, m: Machine)
    requires WellFormed(l) && Mirrors(c, m)
    ensures Mirrors(Step(Render(l), c), Move(l.event, m))
  {
    if l.event.Open? {
      OpenLine(l);
      assert (m.stack + [l.event.name])[..|m.stack|] == m.stack;
    } else if l.event.Close? || l.event.EmptyGroup? {
      ClosingEnd(l);
      CloseLine(Render(l));
      PopIsPop(m.stack);
    } else {
      RecordPath(m, l.event.name);
      if l.layout.GraphQl? {
        GraphQlField(l);
      } else {
        JsonFieldEnd(l);
        JsonField(l);
      }
    }
  }

  /** Over any lines the path text stays the dotted stack of the machine, and the fields its paths. */
  lemma {:induction false} ParserMirrorsMachine(ls: seq<Line>, c: Cursor, m: Machine)
    requires AllWellFormed(ls) && Mirrors(c, m)
    ensures Mirrors(Steps(Rendered(ls), c), Moves(ls, m))
    decreases |ls|
  {
    if ls == [] {
    } else {
      StepMirrorsMove(ls[0], c, m);
      assert Rendered(ls)[0] == Render(ls[0]) && Rendered(ls)[1..] == Rendered(ls[1..]);
      ParserMirrorsMachine(ls[1..], Step(Render(ls[0]), c), Move(ls[0].event, m));
    }
  }

  // ---------------------------------------------------------------------------------------------
  // Selection trees
  // ---------------------------------------------------------------------------------------------

  datatype Selection = Field(name: string, on: bool) | Group(name: string, items: seq<Selection>)

  predicate PlainTree(items: seq<Selection>)
    decreases items
  {
    items == [] ||
    (PlainName(items[0].name) && (items[0].Group? ==> PlainTree(items[0].items)) && PlainTree(items[1..]))
  }

  /** The paths of the selected fields, in order. */
  function Paths(items: seq<Selection>, stack: seq<string>): seq<seq<string>>
    decreases items
  {
    if items == [] then [] else ItemPaths(items[0], stack) + Paths(items[1..], stack)
  }

  function ItemPaths(item: Selection, stack: seq<string>): seq<seq<string>>
    decreases item
  {
    match item
    case Field(name, on) => if on then [stack + [name]] else []
    case Group(name, items) => Paths(items, stack + [name])
  }

  /** The printers: one field per line, and a group between its opening and its closing line.  GraphQL
      prints the selected fields; JSON prints every field with its value, separates members by commas
      and lays out an object without members in one line, as JSON.stringify does. */
  function Lines(items: seq<Selection>, json: bool, depth: nat, indent: nat -> string): seq<Line>
    decreases items
  {
    if items == [] then []
    else ItemLines(items[0], |items| == 1, json, depth, indent) + Lines(items[1..], json, depth, indent)
  }

  function ItemLines(item: Selection, last: bool, json: bool, depth: nat, indent: nat -> string): seq<Line>
    decreases item
  {
    var layout := if json then Json(!last) else GraphQl;
    match item
    case Field(name, on) =>
      if on then [Line(layout, indent(depth), Selected(name))]
      else if json then [Line(layout, indent(depth), Unselected(name))] else []
    case Group(name, items) =>
      if json && items == [] then [Line(layout, indent(depth), EmptyGroup(name))]
      else
        [Line(layout, indent(depth), Open(name))] + Lines(items, json, depth + 1, indent)
        + [Line(layout, indent(depth), Close)]
  }

  ghost predicate Indents(indent: nat -> string) {
    forall d: nat :: AllSpace(indent(d)) && Free(indent(d), "\n")
  }

  /** All lines of a print have its layout. */
  lemma {:induction false} LinesHaveLayout(items: seq<Selection>, json: bool, depth: nat, indent: nat -> string)
    ensures forall l :: l in Lines(items, json, depth, indent) ==> (l.layout.Json? <==> json)
    decreases items
  {
    if items == [] {
    } else {
      if items[0].Group? {
        LinesHaveLayout(items[0].items, json, depth + 1, indent);
      }
      LinesHaveLayout(items[1..], json, depth, indent);
    }
  }

  lemma {:induction false} LinesWellFormed(items: seq<Selection>, json: bool, depth: nat, indent: nat -> string)
    requires PlainTree(items) && Indents(indent)
    ensures AllWellFormed(Lines(items, json, depth, indent))
    decreases items
  {
    if items == [] {
    } else {
      if items[0].Group? {
        LinesWellFormed(items[0].items, json, depth + 1, indent);
      }
      assert AllWellFormed(ItemLines(items[0], |items| == 1, json, depth, indent));
      LinesWellFormed(items[1..], json, depth, indent);
    }
  }

  lemma {:induction false} MovesAppend(a: seq<Line>, b: seq<Line>, m: Machine)
    ensures Moves(a + b, m) == Moves(b, Moves(a, m))
    decreases |a|
  {
    if a == [] {
      assert a + b == b;
    } else {
      assert (a + b)[0] == a[0] && (a + b)[1..] == a[1..] + b;
      MovesAppend(a[1..], b, Move(a[0].event, m));
    }
  }

  lemma MoveOne(l: Line, m: Machine)
    ensures Moves([l], m) == Move(l.event, m)
  {
    assert [l][1..] == [];
  }

  /** A group runs its members one level deeper and then leaves that level. */
  lemma MovesGroup(open: Line, sub: seq<Line>, close: Line, m: Machine)
    ensures Moves([open] + sub + [close], m) == Move(close.event, Moves(sub, Move(open.event, m)))
  {
    MovesAppend([open] + sub, [close], m);
    MovesAppend([open], sub, m);
    MoveOne(open, m);
    MoveOne(close, Moves(sub, Move(open.event, m)));
  }

  predicate NoEmptyGroups(items: seq<Selection>)
    decreases items
  {
    || items == []
    || ((items[0].Group? ==> items[0].items != [] && NoEmptyGroups(items[0].items)) && NoEmptyGroups(items[1..]))
  }

  /** The machine finds the paths of a print and returns to the stack it started from. */
  lemma {:induction false} MachineFindsPaths(items: seq<Selection>, json: bool, depth: nat, indent: nat -> string,
                                             m: Machine)
    requires json ==> NoEmptyGroups(items)
    ensures Moves(Lines(items, json, depth, indent), m) == Machine(m.stack, m.paths + Paths(items, m.stack))
    decreases items, 1
  {
    if items != [] {
      var first := ItemLines(items[0], |items| == 1, json, depth, indent);
      MovesAppend(first, Lines(items[1..], json, depth, indent), m);
      MachineFindsItemPaths(items[0], |items| == 1, json, depth, indent, m);
      var m1 := Moves(first, m);
      MachineFindsPaths(items[1..], json, depth, indent, m1);
      ConcatAssociates(m.paths, ItemPaths(items[0], m.stack), Paths(items[1..], m.stack));
    } else {
      assert m.paths + [] == m.paths;
    }
  }

  lemma {:induction false} MachineFindsItemPaths(item: Selection, last: bool, json: bool, depth: nat,
                                                 indent: nat -> string, m: Machine)
    requires json && item.Group? ==> item.items != [] && NoEmptyGroups(item.items)
    ensures Moves(ItemLines(item, last, json, depth, indent), m) == Machine(m.stack, m.paths + ItemPaths(item, m.stack))
    decreases item, 0
  {
    var ls := ItemLines(item, last, json, depth, indent);
    match item
    case Field(name, on) =>
      if ls != [] { MoveOne(ls[0], m); }
    case Group(name, items) =>
      var m1 := Move(Open(name), m);
      MovesGroup(ls[0], Lines(items, json, depth + 1, indent), ls[|ls| - 1], m);
      MachineFindsPaths(items, json, depth + 1, indent, m1);
      assert Pop(m1.stack) == m.stack;
  }

  // ---------------------------------------------------------------------------------------------
  // JSON objects without members
  // ---------------------------------------------------------------------------------------------

  /** Running through a JSON print: `Astray` once a field was selected under a path that an empty group
      had cut short, else whether the path is cut short now.  The end of a root-level group mends it. */
  datatype Track = Astray | Going(cut: bool)

  function Follow(items: seq<Selection>, depth: nat, cut: bool): Track
    decreases items, 1
  {
    if items == [] then Going(cut)
    else
      var t := FollowItem(items[0], depth, cut);
      if t.Astray? then Astray else Follow(items[1..], depth, t.cut)
  }

  function FollowItem(item: Selection, depth: nat, cut: bool): Track
    decreases item, 0
  {
    match item
    case Field(_, on) => if on && cut then Astray else Going(cut)
    case Group(_, items) =>
      if items == [] then Going(cut || depth > 0)
      else
        var t := Follow(items, depth + 1, cut);
        if t.Going? && depth == 0 then Going(false) else t
  }

  /** The empty groups and the selected fields of a group, at all depths, in the order of the print. */
  datatype Mark = EmptyMark | LeafMark

  function Marks(items: seq<Selection>): seq<Mark>
    decreases items
  {
    if items == [] then [] else ItemMarks(items[0]) + Marks(items[1..])
  }

  function ItemMarks(item: Selection): seq<Mark>
    decreases item
  {
    match item
    case Field(_, on) => if on then [LeafMark] else []
    case Group(_, items) => if items == [] then [EmptyMark] else Marks(items)
  }

  predicate EmptyBeforeLeaf(marks: seq<Mark>) {
    exists i, j :: 0 <= i < j < |marks| && marks[i] == EmptyMark && marks[j] == LeafMark
  }

  /** Inside some root-level group an object without members comes before a selected field. */
  predicate LosesField(items: seq<Selection>) {
    exists r :: 0 <= r < |items| && items[r].Group? && EmptyBeforeLeaf(Marks(items[r].items))
  }

  function Scan(marks: seq<Mark>, cut: bool): Track
    decreases |marks|
  {
    if marks == [] then Going(cut)
    else if marks[0] == EmptyMark then Scan(marks[1..], true)
    else if cut then Astray
    else Scan(marks[1..], cut)
  }

  lemma {:induction false} ScanAppend(a: seq<Mark>, b: seq<Mark>, cut: bool)
    ensures Scan(a + b, cut) == if Scan(a, cut).Astray? then Astray else Scan(b, Scan(a, cut).cut)
    decreases |a|
  {
    if a == [] {
      assert a + b == b;
    } else {
      assert (a + b)[0] == a[0] && (a + b)[1..] == a[1..] + b;
      ScanAppend(a[1..], b, a[0] == EmptyMark || cut);
    }
  }

  /** Below the root level only the marks count. */
  lemma {:induction false} FollowScans(items: seq<Selection>, depth: nat, cut: bool)
    requires depth > 0
    ensures Follow(items, depth, cut) == Scan(Marks(items), cut)
    decreases items, 1
  {
    if items == [] {
    } else {
      FollowItemScans(items[0], depth, cut);
      ScanAppend(ItemMarks(items[0]), Marks(items[1..]), cut);
      var t := FollowItem(items[0], depth, cut);
      if t.Going? {
        FollowScans(items[1..], depth, t.cut);
      }
    }
  }

  lemma {:induction false} FollowItemScans(item: Selection, depth: nat, cut: bool)
    requires depth > 0
    ensures FollowItem(item, depth, cut) == Scan(ItemMarks(item), cut)
    decreases item, 0
  {
    if item.Group? && item.items != [] {
      FollowScans(item.items, depth + 1, cut);
    } else if ItemMarks(item) != [] {
      assert ItemMarks(item)[1..] == [];
    }
  }

  lemma {:induction false} ScanAstray(marks: seq<Mark>, cut: bool)
    ensures Scan(marks, cut).Astray? <==> (cut && LeafMark in marks) || EmptyBeforeLeaf(marks)
    decreases |marks|
  {
    if marks == [] {
    } else {
      var rest := marks[1..];
      ScanAstray(rest, marks[0] == EmptyMark || cut);
      assert forall i :: 0 <= i < |rest| ==> rest[i] == marks[i + 1];
      assert LeafMark in marks <==> marks[0] == LeafMark || LeafMark in rest;
      if EmptyBeforeLeaf(rest) {
        var i, j :| 0 <= i < j < |rest| && rest[i] == EmptyMark && rest[j] == LeafMark;
        assert marks[i + 1] == EmptyMark && marks[j + 1] == LeafMark;
      }
      if marks[0] == EmptyMark && LeafMark in rest {
        var j :| 0 <= j < |rest| && rest[j] == LeafMark;
        assert marks[j + 1] == LeafMark;
      }
    }
  }

  /** The simulation goes astray exactly if a field is lost in the sense above. */
  lemma {:induction false} AstrayExactly(items: seq<Selection>)
    ensures Follow(items, 0, false) == if LosesField(items) then Astray else Going(false)
    decreases |items|
  {
    if items == [] {
    } else {
      var item, rest := items[0], items[1..];
      AstrayExactly(rest);
      assert forall r :: 0 <= r < |rest| ==> rest[r] == items[r + 1];
      if item.Group? {
        FollowScans(item.items, 1, false);
        ScanAstray(Marks(item.items), false);
      }
      assert LosesField(items) <==> (item.Group? && EmptyBeforeLeaf(Marks(item.items))) || LosesField(rest);
    }
  }

  /** As many paths are found as there are selected fields, whatever the stack. */
  lemma {:induction false} SameCount(items: seq<Selection>, depth: nat, indent: nat -> string, m: Machine,
                                     stack: seq<string>)
    ensures var r := Moves(Lines(items, true, depth, indent), m);
            m.paths <= r.paths && |r.paths| == |m.paths| + |Paths(items, stack)|
    decreases items, 1
  {
    if items == [] {
    } else {
      var first := ItemLines(items[0], |items| == 1, true, depth, indent);
      MovesAppend(first, Lines(items[1..], true, depth, indent), m);
      SameItemCount(items[0], |items| == 1, depth, indent, m, stack);
      SameCount(items[1..], depth, indent, Moves(first, m), stack);
    }
  }

  lemma {:induction false} SameItemCount(item: Selection, last: bool, depth: nat, indent: nat -> string, m: Machine,
                                         stack: seq<string>)
    ensures var r := Moves(ItemLines(item, last, true, depth, indent), m);
            m.paths <= r.paths && |r.paths| == |m.paths| + |ItemPaths(item, stack)|
    decreases item, 0
  {
    var ls := ItemLines(item, last, true, depth, indent);
    if item.Group? && item.items != [] {
      MovesGroup(ls[0], Lines(item.items, true, depth + 1, indent), ls[|ls| - 1], m);
      SameCount(item.items, depth + 1, indent, Move(Open(item.name), m), stack + [item.name]);
    } else {
      MoveOne(ls[0], m);
    }
  }

  /** Where the machine stands relative to the true ancestors. */
  ghost predicate OnTrack(m: Machine, ancestors: seq<string>, cut: bool) {
    if cut then |m.stack| < |ancestors| else m.stack == ancestors
  }

  /** Two lists of paths of which some pair differs in length. */
  ghost predicate SomeLengthDiffers(xs: seq<seq<string>>, ys: seq<seq<string>>) {
    |xs| == |ys| && exists i :: 0 <= i < |xs| && |xs[i]| != |ys[i]|
  }

  ghost predicate Followed(m: Machine, r: Machine, found: seq<seq<string>>, ancestors: seq<string>, t: Track) {
    && m.paths <= r.paths
    && match t
       case Going(cut) => r.paths[|m.paths|..] == found && OnTrack(r, ancestors, cut)
       case Astray => SomeLengthDiffers(r.paths[|m.paths|..], found)
  }

  lemma {:induction false} MachineFollows(items: seq<Selection>, depth: nat, indent: nat -> string, m: Machine,
                                          ancestors: seq<string>, cut: bool)
    requires |ancestors| == depth && OnTrack(m, ancestors, cut)
    ensures Followed(m, Moves(Lines(items, true, depth, indent), m), Paths(items, ancestors), ancestors,
            Follow(items, depth, cut))
    decreases items, 1
  {
    if items == [] {
    } else {
      var first := ItemLines(items[0], |items| == 1, true, depth, indent);
      var m1 := Moves(first, m);
      var r := Moves(Lines(items, true, depth, indent), m);
      var t := FollowItem(items[0], depth, cut);
      MovesAppend(first, Lines(items[1..], true, depth, indent), m);
      MachineFollowsItem(items[0], |items| == 1, depth, indent, m, ancestors, cut);
      SameCount(items[1..], depth, indent, m1, ancestors);
      if t.Going? {
        MachineFollows(items[1..], depth, indent, m1, ancestors, t.cut);
      }
      JoinFollowed(m, m1, r, ItemPaths(items[0], ancestors), Paths(items[1..], ancestors), ancestors, t,
                   if t.Going? then Follow(items[1..], depth, t.cut) else Astray);
    }
  }

  lemma JoinFollowed(m: Machine, m1: Machine, r: Machine, a: seq<seq<string>>, b: seq<seq<string>>,
                     ancestors: seq<string>, t: Track, u: Track)
    requires Followed(m, m1, a, ancestors, t)
    requires m1.paths <= r.paths && |r.paths| == |m1.paths| + |b|
    requires if t.Going? then Followed(m1, r, b, ancestors, u) else u == Astray
    ensures Followed(m, r, a + b, ancestors, u)
  {
    var n, n1 := |m.paths|, |m1.paths|;
    var xs := r.paths[n..];
    assert forall i :: 0 <= i < n1 - n ==> xs[i] == m1.paths[n..][i];
    assert forall i :: 0 <= i < |b| ==> xs[n1 - n + i] == r.paths[n1..][i];
    if t.Astray? {
      var i :| 0 <= i < |a| && |m1.paths[n..][i]| != |a[i]|;
      assert |xs[i]| != |(a + b)[i]|;
    } else if u.Astray? {
      var i :| 0 <= i < |b| && |r.paths[n1..][i]| != |b[i]|;
      assert |xs[|a| + i]| != |(a + b)[|a| + i]|;
    } else {
      assert xs == a + b;
    }
  }

  lemma {:induction false} MachineFollowsItem(item: Selection, last: bool, depth: nat, indent: nat -> string,
                                              m: Machine, ancestors: seq<string>, cut: bool)
    requires |ancestors| == depth && OnTrack(m, ancestors, cut)
    ensures Followed(m, Moves(ItemLines(item, last, true, depth, indent), m), ItemPaths(item, ancestors), ancestors,
            FollowItem(item, depth, cut))
    decreases item, 0
  {
    var ls := ItemLines(item, last, true, depth, indent);
    if item.Group? && item.items != [] {
      var m1 := Move(Open(item.name), m);
      MovesGroup(ls[0], Lines(item.items, true, depth + 1, indent), ls[|ls| - 1], m);
      MachineFollows(item.items, depth + 1, indent, m1, ancestors + [item.name], cut);
      LeaveFollowed(m, m1, Moves(Lines(item.items, true, depth + 1, indent), m1), item.name,
                    ItemPaths(item, ancestors), ancestors, Follow(item.items, depth + 1, cut));
    } else {
      MoveOne(ls[0], m);
      assert m.paths[|m.paths|..] == [];
      if item.Field? && item.on {
        SelectFollowed(m, item.name, ancestors, cut);
      }
    }
  }

  lemma LeaveFollowed(m: Machine, m1: Machine, r: Machine, name: string, found: seq<seq<string>>,
                      ancestors: seq<string>, t: Track)
    requires m1.paths == m.paths && Followed(m1, r, found, ancestors + [name], t)
    ensures Followed(m, Move(Close, r), found, ancestors, if t.Going? && ancestors == [] then Going(false) else t)
  {
    assert Pop(ancestors + [name]) == ancestors;
  }

  lemma SelectFollowed(m: Machine, name: string, ancestors: seq<string>, cut: bool)
    requires OnTrack(m, ancestors, cut)
    ensures Followed(m, Move(Selected(name), m), [ancestors + [name]], ancestors, if cut then Astray else Going(false))
  {
    var xs := Move(Selected(name), m).paths[|m.paths|..];
    assert xs == [m.stack + [name]];
    if cut {
      assert |xs[0]| != |[ancestors + [name]][0]|;
    }
  }

  // ---------------------------------------------------------------------------------------------
  // Whole texts
  // ---------------------------------------------------------------------------------------------

  lemma {:induction false} NonBlankAppend(a: seq<string>, b: seq<string>)
    ensures NonBlank(a + b) == NonBlank(a) + NonBlank(b)
  {
    if a == [] {
      assert a + b == b;
    } else {
      assert (a + b)[0] == a[0] && (a + b)[1..] == a[1..] + b;
      NonBlankAppend(a[1..], b);
    }
  }

  lemma {:induction false} NewlineInJoin(parts: seq<string>)
    requires |parts| >= 2
    ensures '\n' in Join(parts, '\n')
  {
    assert Join(parts, '\n')[|parts[0]|] == '\n';
  }

  /** A text whose lines, apart from blank ones, are these lines between an opening and a closing one. */
  ghost predicate LaysOut(lines: seq<string>, ls: seq<Line>) {
    && (forall i :: 0 <= i < |lines| ==> Free(lines[i], "\n"))
    && exists first: string, last: string :: NonBlank(lines) == [first] + Rendered(ls) + [last]
  }

  lemma ContentIsVisible(l: Line)
    requires WellFormed(l)
    ensures var s := Content(l); s != [] && !IsSpace(s[0]) && Free(s, "\n")
  {
    if !l.event.Close? {
      var name := l.event.name;
      assert Free(name, "\n");
      FreeAppend("\"" + name, "\"", "\n");
      FreeAppend("\"", name, "\n");
    }
  }

  lemma {:induction false} RenderedIsVisible(ls: seq<Line>)
    requires AllWellFormed(ls)
    ensures NonBlank(Rendered(ls)) == Rendered(ls) && |Rendered(ls)| == |ls|
    ensures forall i :: 0 <= i < |ls| ==> Free(Rendered(ls)[i], "\n")
    decreases |ls|
  {
    if ls == [] {
    } else {
      assert WellFormed(ls[0]);
      ContentIsVisible(ls[0]);
      NotBlank(ls[0].indent, Content(ls[0]));
      FreeAppend(ls[0].indent, Content(ls[0]), "\n");
      RenderedIsVisible(ls[1..]);
    }
  }

  lemma Braced(lines: seq<string>)
    requires NonBlank(lines) == lines
    ensures NonBlank(["{"] + lines + ["}"]) == ["{"] + lines + ["}"]
  {
    OneVisible("{");
    OneVisible("}");
    NonBlankAppend(["{"] + lines, ["}"]);
    NonBlankAppend(["{"], lines);
  }

  lemma OneVisible(line: string)
    requires line != [] && !IsSpace(line[0])
    ensures NonBlank([line]) == [line]
  {
    NotBlank("", line);
    assert "" + line == line && [line][1..] == [];
  }

  lemma BracedFree(lines: seq<string>)
    requires forall i :: 0 <= i < |lines| ==> Free(lines[i], "\n")
    ensures var all := ["{"] + lines + ["}"]; forall i :: 0 <= i < |all| ==> Free(all[i], "\n")
  {
    var all := ["{"] + lines + ["}"];
    forall i | 0 <= i < |all|
      ensures Free(all[i], "\n")
    {
      assert 0 < i < |all| - 1 ==> all[i] == lines[i - 1];
    }
  }

  /** The plain print between braces, one item per line, is such a text. */
  lemma PrintLaysOut(items: seq<Selection>, json: bool, depth: nat, indent: nat -> string)
    requires PlainTree(items) && Indents(indent)
    ensures var ls := Lines(items, json, depth, indent); LaysOut(["{"] + Rendered(ls) + ["}"], ls)
  {
    var ls := Lines(items, json, depth, indent);
    LinesWellFormed(items, json, depth, indent);
    RenderedIsVisible(ls);
    Braced(Rendered(ls));
    BracedFree(Rendered(ls));
  }

  lemma {:induction false} NonBlankShorter(lines: seq<string>)
    ensures |NonBlank(lines)| <= |lines|
  {
    if lines == [] {
    } else {
      NonBlankShorter(lines[1..]);
    }
  }

  lemma FieldsOfText(lines: seq<string>, ls: seq<Line>, layout: string -> string)
    requires LaysOut(lines, ls) && AllWellFormed(ls)
    ensures var m := Moves(ls, Machine([], []));
            NonEmptyPaths(m.paths) && Fields(Join(lines, '\n'), layout) == PathTexts(m.paths)
  {
    var first: string, last: string :| NonBlank(lines) == [first] + Rendered(ls) + [last];
    NonBlankShorter(lines);
    NewlineInJoin(lines);
    SplitJoin(lines, '\n');
    assert Inner(NonBlank(lines)) == Rendered(ls);
    assert PathTexts([]) == [];
    ParserMirrorsMachine(ls, Cursor("", []), Machine([], []));
  }

  lemma {:induction false} NonBlankWithout(a: seq<string>, blank: string, b: seq<string>)
    requires Trim(blank) == ""
    ensures NonBlank(a + [blank] + b) == NonBlank(a + b)
    decreases |a|
  {
    var s, t := a + [blank] + b, a + b;
    if a == [] {
      assert s[0] == blank && s[1..] == b && t == b;
    } else {
      assert s[0] == a[0] == t[0] && s[1..] == a[1..] + [blank] + b && t[1..] == a[1..] + b;
      NonBlankWithout(a[1..], blank, b);
    }
  }

  lemma ParsedOfLines(lines: seq<string>, layout: string -> string)
    requires |lines| >= 2 && forall i :: 0 <= i < |lines| ==> Free(lines[i], "\n")
    ensures ParsedLines(Join(lines, '\n'), layout) == Inner(NonBlank(lines))
  {
    NewlineInJoin(lines);
    SplitJoin(lines, '\n');
  }

  /** Blank lines anywhere in a text of at least two lines play no part. */
  lemma BlankLineDoesNotMatter(a: seq<string>, blank: string, b: seq<string>, with: seq<string>, without: seq<string>,
                               layout: string -> string)
    requires with == a + [blank] + b && without == a + b && Trim(blank) == "" && |without| >= 2
    requires forall i :: 0 <= i < |with| ==> Free(with[i], "\n")
    ensures Fields(Join(with, '\n'), layout) == Fields(Join(without, '\n'), layout)
  {
    forall i | 0 <= i < |without|
      ensures Free(without[i], "\n")
    {
      assert without[i] == if i < |a| then with[i] else with[i + 1];
    }
    NonBlankWithout(a, blank, b);
    ParsedOfLines(with, layout);
    ParsedOfLines(without, layout);
  }

  lemma {:induction false} PathsNonEmpty(items: seq<Selection>, stack: seq<string>)
    requires PlainTree(items) && PlainNames(stack)
    ensures NonEmptyPaths(Paths(items, stack)) && PlainPaths(Paths(items, stack))
    decreases items
  {
    if items == [] {
    } else {
      if items[0].Group? { PathsNonEmpty(items[0].items, stack + [items[0].name]); }
      PathsNonEmpty(items[1..], stack);
    }
  }

  /** Parsing the GraphQL print of any selection tree gives exactly its paths, in order; blank lines
      and any indentation are allowed. */
  lemma GraphQlParses(items: seq<Selection>, indent: nat -> string, lines: seq<string>, layout: string -> string)
    requires PlainTree(items) && Indents(indent) && LaysOut(lines, Lines(items, false, 1, indent))
    ensures NonEmptyPaths(Paths(items, [])) && Fields(Join(lines, '\n'), layout) == PathTexts(Paths(items, []))
  {
    LinesWellFormed(items, false, 1, indent);
    FieldsOfText(lines, Lines(items, false, 1, indent), layout);
    MachineFindsPaths(items, false, 1, indent, Machine([], []));
    assert [] + Paths(items, []) == Paths(items, []);
  }

  lemma {:induction false} DottedDots(stack: seq<string>)
    requires PlainNames(stack)
    ensures Dots(Dotted(stack)) == |stack|
  {
    if stack == [] {
    } else {
      var front, name := stack[..|stack| - 1], stack[|stack| - 1];
      DottedDots(front);
      assert forall i :: 0 <= i < |name| ==> name[i] !in ".{}:,\"";
      NoDots(name);
      DotsAppend(Dotted(front), name);
      DotsAppend(Dotted(front) + name, ".");
      assert Dots(".") == 1 by { assert "."[..0] == ""; }
    }
  }

  /** Paths of different length have different texts. */
  lemma PathTextDots(path: seq<string>)
    requires path != [] && PlainNames(path)
    ensures Dots(PathText(path)) == |path| - 1
  {
    DottedDots(path[..|path| - 1]);
    assert PlainName(path[|path| - 1]);
    NoDots(path[|path| - 1]);
    DotsAppend(Dotted(path[..|path| - 1]), path[|path| - 1]);
  }

  predicate PlainPaths(paths: seq<seq<string>>) {
    forall i :: 0 <= i < |paths| ==> PlainNames(paths[i])
  }

  lemma {:induction false} MachineKeepsNames(ls: seq<Line>, m: Machine)
    requires AllWellFormed(ls) && PlainNames(m.stack) && PlainPaths(m.paths)
    ensures PlainPaths(Moves(ls, m).paths)
    decreases |ls|
  {
    if ls == [] {
    } else {
      assert WellFormed(ls[0]);
      MachineKeepsNames(ls[1..], Move(ls[0].event, m));
    }
  }

  /** Parsing the JSON print of a selection tree gives exactly the paths of its true fields if and only
      if no true field comes after an object without members inside the same root-level group. */
  lemma JsonParses(items: seq<Selection>, indent: nat -> string, lines: seq<string>, layout: string -> string)
    requires PlainTree(items) && Indents(indent) && LaysOut(lines, Lines(items, true, 0, indent))
    ensures NonEmptyPaths(Paths(items, []))
    ensures Fields(Join(lines, '\n'), layout) == PathTexts(Paths(items, [])) <==> !LosesField(items)
  {
    var ls := Lines(items, true, 0, indent);
    var start := Machine([], []);
    var r := Moves(ls, start);
    LinesWellFormed(items, true, 0, indent);
    FieldsOfText(lines, ls, layout);
    PathsNonEmpty(items, []);
    MachineFollows(items, 0, indent, start, [], false);
    AstrayExactly(items);
    assert r.paths[0..] == r.paths;
    if LosesField(items) {
      MachineKeepsNames(ls, start);
      LengthsShow(r.paths, Paths(items, []));
    }
  }

  /** Lists of paths of different lengths have different texts. */
  lemma LengthsShow(xs: seq<seq<string>>, ys: seq<seq<string>>)
    requires NonEmptyPaths(xs) && NonEmptyPaths(ys) && PlainPaths(xs) && PlainPaths(ys) && SomeLengthDiffers(xs, ys)
    ensures PathTexts(xs) != PathTexts(ys)
  {
    var i :| 0 <= i < |xs| && |xs[i]| != |ys[i]|;
    PathTextDots(xs[i]);
    PathTextDots(ys[i]);
    assert PathTexts(xs)[i] != PathTexts(ys)[i];
  }

  lemma LinesAreTwo(lines: seq<string>, ls: seq<Line>)
    requires LaysOut(lines, ls)
    ensures '\n' in Join(lines, '\n')
  {
    var first: string, last: string :| NonBlank(lines) == [first] + Rendered(ls) + [last];
    NonBlankShorter(lines);
    NewlineInJoin(lines);
  }

  /** So does parsing JSON in one line, which is laid out first. */
  lemma OneLineJsonParses(items: seq<Selection>, indent: nat -> string, lines: seq<string>, text: string,
                          layout: string -> string)
    requires PlainTree(items) && Indents(indent) && LaysOut(lines, Lines(items, true, 0, indent))
    requires ':' in text && '\n' !in text && layout(text) == Join(lines, '\n')
    ensures NonEmptyPaths(Paths(items, []))
    ensures Fields(text, layout) == PathTexts(Paths(items, [])) <==> !LosesField(items)
  {
    LinesAreTwo(lines, Lines(items, true, 0, indent));
    JsonParses(items, indent, lines, layout);
  }

  /** Both prints of a tree give the same fields if and only if JSON loses none. */
  lemma SameFieldsInBothSyntaxes(items: seq<Selection>, gIndent: nat -> string, jIndent: nat -> string,
                                 gLines: seq<string>, jLines: seq<string>, layout: string -> string)
    requires PlainTree(items) && Indents(gIndent) && Indents(jIndent)
    requires LaysOut(gLines, Lines(items, false, 1, gIndent)) && LaysOut(jLines, Lines(items, true, 0, jIndent))
    ensures Fields(Join(gLines, '\n'), layout) == Fields(Join(jLines, '\n'), layout) <==> !LosesField(items)
  {
    GraphQlParses(items, gIndent, gLines, layout);
    JsonParses(items, jIndent, jLines, layout);
  }

  function CutTree(): seq<Selection> {
    [Group("a", [Group("b", []), Field("c", true)])]
  }

  lemma CutTreeLines(indent: nat -> string)
    ensures Lines(CutTree(), true, 0, indent) ==
            [Line(Json(false), indent(0), Open("a")), Line(Json(true), indent(1), EmptyGroup("b")),
             Line(Json(false), indent(1), Selected("c")), Line(Json(false), indent(0), Close)]
  {
    var c := Field("c", true);
    var inner := [Group("b", []), c];
    assert inner[1..] == [c] && [c][1..] == [] && CutTree()[1..] == [];
    assert Lines([c], true, 1, indent) == [Line(Json(false), indent(1), Selected("c"))];
    assert Lines(inner, true, 1, indent) ==
           [Line(Json(true), indent(1), EmptyGroup("b"))] + Lines([c], true, 1, indent);
  }

  lemma FieldAfterEmptyGroup(b: Line, c: Line, m: Machine)
    requires b.event.EmptyGroup? && c.event.Selected?
    ensures Moves([b] + [c], m) == Machine(Pop(m.stack), m.paths + [Pop(m.stack) + [c.event.name]])
  {
    MovesAppend([b], [c], m);
    MoveOne(b, m);
    MoveOne(c, Move(b.event, m));
  }

  lemma CutTreeMoves(a: Line, b: Line, c: Line, d: Line)
    requires a.event == Open("a") && b.event == EmptyGroup("b") && c.event == Selected("c") && d.event == Close
    ensures Moves([a, b, c, d], Machine([], [])) == Machine([], [["c"]])
  {
    var m := Machine([], []);
    assert [a, b, c, d] == [a] + ([b] + [c]) + [d];
    MovesGroup(a, [b] + [c], d, m);
    FieldAfterEmptyGroup(b, c, Machine(["a"], []));
    assert m.stack + ["a"] == ["a"] && Pop(["a"]) == [];
    assert [] + [c.event.name] == ["c"] && [] + [["c"]] == [["c"]];
  }

  /** An empty object inside a group costs the fields behind it their parent: the path that is printed as
      a.c is read as c. */
  lemma EmptyGroupCutsPath(indent: nat -> string, layout: string -> string)
    requires Indents(indent)
    ensures var items, text := CutTree(), Join(["{"] + Rendered(Lines(CutTree(), true, 0, indent)) + ["}"], '\n');
            NonEmptyPaths(Paths(items, [])) && PathTexts(Paths(items, [])) == ["a.c"] && Fields(text, layout) == ["c"]
  {
    var items := CutTree();
    var ls := Lines(items, true, 0, indent);
    CutTreeIsPlain();
    CutTreePaths();
    CutTreeTexts();
    PrintLaysOut(items, true, 0, indent);
    LinesWellFormed(items, true, 0, indent);
    FieldsOfText(["{"] + Rendered(ls) + ["}"], ls, layout);
    CutTreeLines(indent);
    CutTreeMoves(ls[0], ls[1], ls[2], ls[3]);
  }

  lemma CutTreeIsPlain()
    ensures PlainTree(CutTree())
  {
    var c := Field("c", true);
    var inner := [Group("b", []), c];
    assert inner[1..] == [c] && [c][1..] == [] && CutTree()[1..] == [];
    assert PlainName("a") && PlainName("b") && PlainName("c");
    assert PlainTree([c]) && PlainTree(inner);
  }

  lemma CutTreePaths()
    ensures Paths(CutTree(), []) == [["a", "c"]]
  {
    var c := Field("c", true);
    var inner := [Group("b", []), c];
    assert inner[1..] == [c] && [c][1..] == [] && CutTree()[1..] == [];
    assert [] + ["a"] == ["a"] && ["a"] + ["c"] == ["a", "c"];
    assert Paths([c], ["a"]) == [["a", "c"]] + [];
    assert Paths(inner, ["a"]) == [] + Paths([c], ["a"]);
  }

  lemma CutTreeTexts()
    ensures PathText(["a", "c"]) == "a.c" && PathText(["c"]) == "c"
  {
    assert ["a", "c"][..1] == ["a"] && ["a"][..0] == [] && ["c"][..0] == [];
    assert Dotted(["a"]) == Dotted([]) + "a" + ".";
  }
}
