/** SQL LIKE patterns compiled to the source text of JavaScript regular expressions.

    `Convert` is the compiler.  `Like` says what a pattern means, `Refused` which source texts the
    constructor does not accept and `RegExpTest` what the others mean; the theorems say that compiling
    keeps the meaning. */
module LikeRegExp {
  type Fold = char -> char

  /** What the platform's regular expressions do: the folding of case, and for source texts outside the
      part of the syntax that is modelled here, whether they are refused and what they match. */
  datatype Engine = Engine(fold: Fold, refuses: string -> bool, finds: (string, string) -> bool)

  predicate IsLineTerminator(c: char) {
    c == '\n' || c == '\r' || c == '\U{2028}' || c == '\U{2029}'
  }

  /** Line feed, carriage return, line separator and paragraph separator. */
  lemma LineTerminatorsByNumber(c: char)
    ensures IsLineTerminator(c) <==> c as int in {10, 13, 0x2028, 0x2029}
  {
  }

  // ---------------------------------------------------------------------------------------------
  // The compiler
  // ---------------------------------------------------------------------------------------------

  /** Index of the bracket that closes a group whose opening bracket was read, counted in the text
      after it.  The group has at least one character and no line terminator; -1 if there is none. */
  function CloseFrom(s: string, i: nat): (j: int)
    requires i <= |s|
    ensures j == -1 || (i <= j < |s| && s[j] == ']' && 1 <= j)
    ensures j != -1 ==> forall k :: i <= k < j ==> !IsLineTerminator(s[k]) && (1 <= k ==> s[k] != ']')
    ensures forall k :: 1 <= k && i <= k < |s| && s[k] == ']' ==>
              (0 <= j <= k || exists h :: i <= h < k && IsLineTerminator(s[h]))
    decreases |s| - i
  {
    if i == |s| then -1
    else if i >= 1 && s[i] == ']' then i
    else if IsLineTerminator(s[i]) then -1
    else CloseFrom(s, i + 1)
  }

  /** The first k characters are a bracket group: something between brackets, in one line. */
  predicate IsGroup(p: string, k: nat) {
    3 <= k <= |p| && p[0] == '[' && p[k - 1] == ']' && forall i :: 1 <= i < k - 1 ==> !IsLineTerminator(p[i])
  }

  /** Length of the shortest bracket group at the start of the pattern; 0 if there is none. */
  function GroupLength(p: string): (n: nat)
    ensures n > 0 ==> IsGroup(p, n) && forall k :: 2 <= k < n - 1 ==> p[k] != ']'
    ensures forall k :: IsGroup(p, k) ==> 0 < n <= k
  {
    if p == [] || p[0] != '[' then 0
    else
      var j := CloseFrom(p[1..], 0);
      assert forall k :: IsGroup(p, k) ==> p[1..][k - 2] == ']';
      assert forall k, i :: IsGroup(p, k) && 0 <= i < k - 2 ==> p[1..][i] == p[i + 1];
      if j == -1 then 0 else j + 2
  }

  predicate MustEscape(c: char) {
    c in "-/\\^$*+?.()|[]{}"
  }

  function EscapeChar(c: char): string {
    if c == '%' then ".*" else if c == '_' then "." else if MustEscape(c) then ['\\', c] else [c]
  }

  function DoubleBackslashes(s: string): string {
    if s == [] then [] else (if s[0] == '\\' then "\\\\" else [s[0]]) + DoubleBackslashes(s[1..])
  }

  function ConvertBody(p: string): string
    decreases |p|
  {
    if p == [] then []
    else
      var n := GroupLength(p);
      if n > 0 then DoubleBackslashes(p[..n]) + ConvertBody(p[n..])
      else EscapeChar(p[0]) + ConvertBody(p[1..])
  }

  /** The source text handed to the RegExp constructor. */
  function Convert(p: string): string {
    "^" + ConvertBody(p) + "$"
  }

  // ---------------------------------------------------------------------------------------------
  // Meaning of a LIKE pattern
  // ---------------------------------------------------------------------------------------------

  /** Membership in the characters and ranges of a bracket group. */
  ghost predicate InRanges(fold: Fold, body: string, c: char)
    decreases |body|
  {
    if |body| >= 3 && body[1] == '-' then
      (exists x: char :: body[0] <= x <= body[2] && fold(x) == fold(c)) || InRanges(fold, body[3..], c)
    else body != [] && (fold(body[0]) == fold(c) || InRanges(fold, body[1..], c))
  }

  ghost predicate InSet(fold: Fold, body: string, c: char) {
    if body != [] && body[0] == '^' then !InRanges(fold, body[1..], c) else InRanges(fold, body, c)
  }

  /** `%` stands for any text and `_` for any character, as far as `wild` allows; a bracket group
      stands for one of its characters; anything else stands for itself.  A closing bracket right after
      the opening one closes the set, so such a group stands for no character at all. */
  ghost predicate LikeOver(fold: Fold, wild: char -> bool, p: string, s: string)
    decreases |p|
  {
    if p == [] then s == []
    else if GroupLength(p) > 0 then
      var n := GroupLength(p);
      p[1] != ']' && s != [] && InSet(fold, p[1..n - 1], s[0]) && LikeOver(fold, wild, p[n..], s[1..])
    else if p[0] == '%' then
      exists k :: 0 <= k <= |s| && (forall i :: 0 <= i < k ==> wild(s[i])) && LikeOver(fold, wild, p[1..], s[k..])
    else
      s != [] && (if p[0] == '_' then wild(s[0]) else fold(p[0]) == fold(s[0])) && LikeOver(fold, wild, p[1..], s[1..])
  }

  ghost predicate Like(fold: Fold, p: string, s: string) {
    LikeOver(fold, c => true, p, s)
  }

  // ---------------------------------------------------------------------------------------------
  // Meaning of a regular expression
  // ---------------------------------------------------------------------------------------------

  datatype ClassChar = ClassChar(c: char, escaped: bool)
  datatype Atom = Literal(c: char) | Dot | Class(negated: bool, items: seq<ClassChar>)
  datatype Term = Term(atom: Atom, starred: bool)

  /** A backslash before one of these stands for the character itself. */
  predicate IdentityEscape(c: char) {
    !('a' <= c <= 'z' || 'A' <= c <= 'Z' || '0' <= c <= '9' || c == '_')
  }

  /** That is, all but letters, digits and the underscore. */
  lemma IdentityEscapesByNumber(c: char)
    ensures IdentityEscape(c) <==>
            !(97 <= c as int <= 122 || 65 <= c as int <= 90 || 48 <= c as int <= 57 || c as int == 95)
  {
  }

  /** What reading a source text gives.  `Beyond` is syntax that is not modelled. */
  datatype Reading<T> = Read(value: T) | SyntaxError | Beyond

  /** Characters whose meaning is not modelled where they are not escaped. */
  predicate IsOtherSyntax(c: char) {
    c in "^$+?()|{"
  }

  /** The members of a character class up to its closing bracket, and the text after it. */
  function ReadItems(src: string): (r: Reading<(seq<ClassChar>, string)>)
    ensures r.Read? ==> |r.value.1| < |src|
    decreases |src|
  {
    if src == [] then SyntaxError
    else if src[0] == ']' then Read(([], src[1..]))
    else if src[0] == '\\' then
      if |src| < 2 then SyntaxError
      else if !IdentityEscape(src[1]) then Beyond
      else AddItem(ClassChar(src[1], true), ReadItems(src[2..]))
    else AddItem(ClassChar(src[0], false), ReadItems(src[1..]))
  }

  function AddItem(item: ClassChar, r: Reading<(seq<ClassChar>, string)>): Reading<(seq<ClassChar>, string)> {
    if r.Read? then Read(([item] + r.value.0, r.value.1)) else r
  }

  predicate IsRange(items: seq<ClassChar>) {
    |items| >= 3 && items[1] == ClassChar('-', false)
  }

  /** A range that runs backwards is a syntax error. */
  predicate RangesOrdered(items: seq<ClassChar>)
    decreases |items|
  {
    if IsRange(items) then items[0].c <= items[2].c && RangesOrdered(items[3..])
    else items == [] || RangesOrdered(items[1..])
  }

  function ReadAtom(src: string): (r: Reading<(Atom, string)>)
    requires src != []
    ensures r.Read? ==> |r.value.1| < |src|
  {
    if src[0] == '\\' then
      if |src| < 2 then SyntaxError
      else if !IdentityEscape(src[1]) then Beyond
      else Read((Literal(src[1]), src[2..]))
    else if src[0] == '.' then Read((Dot, src[1..]))
    else if src[0] == '[' then
      var negated := |src| >= 2 && src[1] == '^';
      var r := ReadItems(if negated then src[2..] else src[1..]);
      if r.Read? then
        if RangesOrdered(r.value.0) then Read((Class(negated, r.value.0), r.value.1)) else SyntaxError
      else if r.SyntaxError? then SyntaxError else Beyond
    else if src[0] == '*' then SyntaxError
    else if IsOtherSyntax(src[0]) then Beyond
    else Read((Literal(src[0]), src[1..]))
  }

  /** Atoms, each perhaps repeated by a star, up to the closing anchor. */
  function ReadTerms(src: string): Reading<seq<Term>>
    decreases |src|
  {
    if src == [] then Beyond
    else if src == "$" then Read([])
    else
      var a := ReadAtom(src);
      if a.SyntaxError? then SyntaxError
      else if a.Beyond? then Beyond
      else
        var rest := a.value.1;
        var starred := rest != [] && rest[0] == '*';
        AddTerms([Term(a.value.0, starred)], ReadTerms(if starred then rest[1..] else rest))
  }

  function AddTerms(terms: seq<Term>, r: Reading<seq<Term>>): Reading<seq<Term>> {
    if r.Read? then Read(terms + r.value) else r
  }

  function ReadSource(src: string): Reading<seq<Term>> {
    if src == [] || src[0] != '^' then Beyond else ReadTerms(src[1..])
  }

  ghost predicate InItems(fold: Fold, items: seq<ClassChar>, c: char)
    decreases |items|
  {
    if IsRange(items) then
      (exists x: char :: items[0].c <= x <= items[2].c && fold(x) == fold(c)) || InItems(fold, items[3..], c)
    else items != [] && (fold(items[0].c) == fold(c) || InItems(fold, items[1..], c))
  }

  ghost predicate AtomMatches(fold: Fold, a: Atom, c: char) {
    match a
    case Literal(l) => fold(l) == fold(c)
    case Dot => !IsLineTerminator(c)
    case Class(negated, items) => negated != InItems(fold, items, c)
  }

  ghost predicate Matches(fold: Fold, terms: seq<Term>, s: string)
    decreases |terms| + |s|
  {
    if terms == [] then s == []
    else if terms[0].starred then
      || Matches(fold, terms[1..], s)
      || (s != [] && AtomMatches(fold, terms[0].atom, s[0]) && Matches(fold, terms, s[1..]))
    else s != [] && AtomMatches(fold, terms[0].atom, s[0]) && Matches(fold, terms[1..], s[1..])
  }

  /** The constructor throws. */
  predicate Refused(e: Engine, src: string) {
    var r := ReadSource(src);
    r.SyntaxError? || (r.Beyond? && e.refuses(src))
  }

  /** What testing a subject against a source text that is not refused answers. */
  ghost predicate RegExpTest(e: Engine, src: string, s: string) {
    var r := ReadSource(src);
    if r.Read? then Matches(e.fold, r.value, s) else r.Beyond? && e.finds(src, s)
  }

  /** Source texts with syntax that is not modelled are left to the platform. */
  lemma BeyondIsThePlatforms(e: Engine, src: string, s: string)
    requires ReadSource(src).Beyond?
    ensures Refused(e, src) <==> e.refuses(src)
    ensures RegExpTest(e, src, s) <==> e.finds(src, s)
  {
  }

  // ---------------------------------------------------------------------------------------------
  // Reading the compiled text gives back the pattern's elements
  // ---------------------------------------------------------------------------------------------

  function Members(body: string): (r: seq<ClassChar>)
    ensures |r| == |body|
  {
    seq(|body|, i requires 0 <= i < |body| => ClassChar(body[i], body[i] == '\\'))
  }

  function GroupAtom(body: string): Atom {
    if body != [] && body[0] == '^' then Class(true, Members(body[1..])) else Class(false, Members(body))
  }

  function CharTerm(c: char): Term {
    if c == '%' then Term(Dot, true) else if c == '_' then Term(Dot, false) else Term(Literal(c), false)
  }

  function InnerTerms(inner: string): (r: seq<Term>)
    ensures |r| == |inner|
  {
    seq(|inner|, i requires 0 <= i < |inner| => Term(if inner[i] == '.' then Dot else Literal(inner[i]), false))
  }

  /** A group that opens with a closing bracket is an empty class, its other characters and a bracket. */
  function GroupElements(group: string): seq<Term>
    requires |group| >= 3
  {
    if group[1] == ']' then
      [Term(Class(false, []), false)] + InnerTerms(group[2..|group| - 1]) + [Term(Literal(']'), false)]
    else [Term(GroupAtom(group[1..|group| - 1]), false)]
  }

  function Elements(p: string): seq<Term>
    decreases |p|
  {
    if p == [] then []
    else
      var n := GroupLength(p);
      if n > 0 then GroupElements(p[..n]) + Elements(p[n..]) else [CharTerm(p[0])] + Elements(p[1..])
  }

  /** The characters of a group get into the source text as they are.  They are syntax only in a group
      that opens with a closing bracket; this says that they are none there. */
  predicate Covered(p: string)
    decreases |p|
  {
    if p == [] then true
    else
      var n := GroupLength(p);
      if n > 0 then (p[1] == ']' ==> PlainInner(p[2..n - 1])) && Covered(p[n..]) else Covered(p[1..])
  }

  predicate PlainInner(inner: string) {
    forall i :: 0 <= i < |inner| ==> inner[i] != '*' && inner[i] != '[' && inner[i] != ']' && !IsOtherSyntax(inner[i])
  }

  /** Read from the left, some character, a minus sign and a smaller character follow each other. */
  predicate BackwardIn(members: string)
    decreases |members|
  {
    if |members| >= 3 && members[1] == '-' then members[2] < members[0] || BackwardIn(members[3..])
    else members != [] && BackwardIn(members[1..])
  }

  /** Some bracket group that has members has a range that runs backwards. */
  predicate HasBackwardRange(p: string)
    decreases |p|
  {
    if p == [] then false
    else
      var n := GroupLength(p);
      if n > 0 then (p[1] != ']' && BackwardIn(p[if p[1] == '^' then 2 else 1..n - 1])) || HasBackwardRange(p[n..])
      else HasBackwardRange(p[1..])
  }

  lemma {:induction false} BackwardExactly(members: string)
    ensures RangesOrdered(Members(members)) <==> !BackwardIn(members)
    decreases |members|
  {
    var m := Members(members);
    if |members| >= 3 && members[1] == '-' {
      assert m[3..] == Members(members[3..]);
      BackwardExactly(members[3..]);
    } else if members != [] {
      assert m[1..] == Members(members[1..]);
      BackwardExactly(members[1..]);
    }
  }

  lemma GroupIsOrdered(p: string, n: nat)
    requires 3 <= n <= |p|
    ensures RangesOrdered(GroupAtom(p[1..n - 1]).items) <==> !BackwardIn(p[if p[1] == '^' then 2 else 1..n - 1])
  {
    var body := p[1..n - 1];
    assert body[1..] == p[2..n - 1];
    BackwardExactly(if body[0] == '^' then body[1..] else body);
  }

  lemma {:induction false} DoubleAppend(a: string, b: string)
    ensures DoubleBackslashes(a + b) == DoubleBackslashes(a) + DoubleBackslashes(b)
  {
    if a == [] {
      assert a + b == b;
    } else {
      assert (a + b)[0] == a[0] && (a + b)[1..] == a[1..] + b;
      DoubleAppend(a[1..], b);
    }
  }

  lemma {:induction false} ReadDoubled(body: string, rest: string)
    requires ']' !in body
    ensures ReadItems(DoubleBackslashes(body) + "]" + rest) == Read((Members(body), rest))
  {
    var src := DoubleBackslashes(body) + "]" + rest;
    if body == [] {
      assert src == "]" + rest && src[1..] == rest;
    } else {
      var tail := DoubleBackslashes(body[1..]) + "]" + rest;
      var head := if body[0] == '\\' then "\\\\" else [body[0]];
      assert src == head + tail && src[|head|..] == tail;
      ReadDoubled(body[1..], rest);
      assert Members(body) == [ClassChar(body[0], body[0] == '\\')] + Members(body[1..]);
    }
  }

  lemma DoubledGroup(body: string)
    ensures DoubleBackslashes("[" + body + "]") == "[" + DoubleBackslashes(body) + "]"
  {
    DoubleAppend("[" + body, "]");
    DoubleAppend("[", body);
    assert DoubleBackslashes("[") == "[" && DoubleBackslashes("]") == "]";
  }

  /** A bracket group that does not open with a closing bracket is read back as one class with the same
      members, and refused if a range runs backwards. */
  lemma ReadGroup(p: string, rest: string)
    requires GroupLength(p) > 0 && p[1] != ']'
    ensures var a := GroupAtom(p[1..GroupLength(p) - 1]);
            ReadAtom(DoubleBackslashes(p[..GroupLength(p)]) + rest) ==
            if RangesOrdered(a.items) then Read((a, rest)) else SyntaxError
  {
    var n := GroupLength(p);
    var body := p[1..n - 1];
    assert ']' !in body by {
      forall k | 0 <= k < |body| ensures body[k] != ']' { assert body[k] == p[k + 1]; }
    }
    assert p[..n] == "[" + body + "]";
    DoubledGroup(body);
    assert DoubleBackslashes(p[..n]) + rest == "[" + (DoubleBackslashes(body) + "]" + rest);
    ReadClass(body, rest);
  }

  lemma ReadClass(body: string, rest: string)
    requires body != [] && ']' !in body
    ensures ReadAtom("[" + (DoubleBackslashes(body) + "]" + rest))
            == if RangesOrdered(GroupAtom(body).items) then Read((GroupAtom(body), rest)) else SyntaxError
  {
    var d := DoubleBackslashes(body);
    var src := "[" + (d + "]" + rest);
    assert src[1..] == d + "]" + rest && src[1] == d[0];
    if body[0] == '^' {
      var e := DoubleBackslashes(body[1..]);
      assert d == "^" + e;
      assert src[2..] == e + "]" + rest;
      ReadDoubled(body[1..], rest);
    } else {
      ReadDoubled(body, rest);
    }
  }

  lemma ReadsOn(src: string, atom: Atom, rest: string)
    requires src != [] && src != "$" && ReadAtom(src) == Read((atom, rest)) && rest != [] && rest[0] != '*'
    ensures ReadTerms(src) == AddTerms([Term(atom, false)], ReadTerms(rest))
  {
  }

  lemma AddTwice(a: seq<Term>, b: seq<Term>, r: Reading<seq<Term>>)
    ensures AddTerms(a, AddTerms(b, r)) == AddTerms(a + b, r)
  {
    if r.Read? {
      assert a + (b + r.value) == a + b + r.value;
    }
  }

  function DoubledChar(c: char): string {
    if c == '\\' then "\\\\" else [c]
  }

  lemma ReadPlainChar(c: char, tail: string)
    requires c != '*' && c != '[' && c != ']' && !IsOtherSyntax(c) && tail != [] && tail[0] != '*'
    ensures ReadTerms(DoubledChar(c) + tail) ==
            AddTerms([Term(if c == '.' then Dot else Literal(c), false)], ReadTerms(tail))
  {
    var src := DoubledChar(c) + tail;
    assert src[|DoubledChar(c)|..] == tail;
    ReadsOn(src, if c == '.' then Dot else Literal(c), tail);
  }

  lemma TailHasNoStar(inner: string, rest: string)
    requires PlainInner(inner)
    ensures (DoubleBackslashes(inner) + ("]" + rest))[0] != '*'
  {
    if inner != [] {
      assert inner[0] != '*';
    }
  }

  lemma InnerStep(inner: string, last: Term)
    requires inner != []
    ensures [InnerTerms(inner)[0]] + (InnerTerms(inner[1..]) + [last]) == InnerTerms(inner) + [last]
  {
  }

  lemma {:induction false} ReadInner(inner: string, rest: string)
    requires PlainInner(inner) && rest != [] && rest[0] != '*'
    ensures ReadTerms(DoubleBackslashes(inner) + ("]" + rest)) ==
            AddTerms(InnerTerms(inner) + [Term(Literal(']'), false)], ReadTerms(rest))
    decreases |inner|
  {
    var src := DoubleBackslashes(inner) + ("]" + rest);
    if inner == [] {
      assert src == "]" + rest && src[1..] == rest;
      ReadsOn(src, Literal(']'), rest);
      assert InnerTerms(inner) + [Term(Literal(']'), false)] == [Term(Literal(']'), false)];
    } else {
      var tail := DoubleBackslashes(inner[1..]) + ("]" + rest);
      var t := InnerTerms(inner)[0];
      assert src == DoubledChar(inner[0]) + tail;
      TailHasNoStar(inner[1..], rest);
      ReadPlainChar(inner[0], tail);
      ReadInner(inner[1..], rest);
      AddTwice([t], InnerTerms(inner[1..]) + [Term(Literal(']'), false)], ReadTerms(rest));
      InnerStep(inner, Term(Literal(']'), false));
    }
  }

  lemma DoubledEmptyGroup(inner: string, rest: string)
    ensures DoubleBackslashes("[" + ("]" + inner) + "]") + rest == "[]" + (DoubleBackslashes(inner) + ("]" + rest))
  {
    DoubledGroup("]" + inner);
    DoubleAppend("]", inner);
    assert DoubleBackslashes("]") == "]" by { assert "]"[1..] == ""; }
  }

  lemma ReadEmptyClass(tail: string)
    requires tail != [] && tail[0] != '*'
    ensures ReadTerms("[]" + tail) == AddTerms([Term(Class(false, []), false)], ReadTerms(tail))
  {
    var src := "[]" + tail;
    assert src[1..] == "]" + tail && ("]" + tail)[1..] == tail;
    assert ReadItems("]" + tail) == Read(([], tail));
    ReadsOn(src, Class(false, []), tail);
  }

  /** A group that opens with a closing bracket is read as an empty class and literal text. */
  lemma ReadEmptyGroup(p: string, rest: string)
    requires GroupLength(p) > 0 && p[1] == ']' && PlainInner(p[2..GroupLength(p) - 1]) && rest != [] && rest[0] != '*'
    ensures ReadTerms(DoubleBackslashes(p[..GroupLength(p)]) + rest)
            == AddTerms(GroupElements(p[..GroupLength(p)]), ReadTerms(rest))
  {
    var n := GroupLength(p);
    var inner, head := p[2..n - 1], [Term(Class(false, []), false)];
    EmptyGroupText(p, n);
    DoubledEmptyGroup(inner, rest);
    TailHasNoStar(inner, rest);
    ReadEmptyClass(DoubleBackslashes(inner) + ("]" + rest));
    ReadInner(inner, rest);
    AddTwice(head, InnerTerms(inner) + [Term(Literal(']'), false)], ReadTerms(rest));
  }

  lemma EmptyGroupText(p: string, n: nat)
    requires 3 <= n <= |p| && p[0] == '[' && p[1] == ']' && p[n - 1] == ']'
    ensures p[..n] == "[" + ("]" + p[2..n - 1]) + "]"
    ensures GroupElements(p[..n]) ==
            [Term(Class(false, []), false)] + (InnerTerms(p[2..n - 1]) + [Term(Literal(']'), false)])
  {
    assert p[..n][2..n - 1] == p[2..n - 1];
  }

  /** The compiled text never starts with a star, so no element changes how the one before it is read. */
  lemma NoLeadingStar(p: string)
    ensures var src := ConvertBody(p) + "$"; src[0] != '*' && (p != [] ==> src != "$")
  {
    if p != [] && GroupLength(p) > 0 {
      assert p[..GroupLength(p)][0] == '[';
      assert DoubleBackslashes(p[..GroupLength(p)])[0] == '[';
    }
  }

  lemma EscapedExactlyWhenNeeded(c: char)
    ensures MustEscape(c) ==> IdentityEscape(c)
    ensures !MustEscape(c) ==> c != '\\' && c != '.' && c != '[' && c != '*' && !IsOtherSyntax(c)
  {
  }

  lemma ReadChar(c: char, rest: string)
    requires rest != [] && rest[0] != '*'
    ensures var src := EscapeChar(c) + rest;
            var t := CharTerm(c);
            var a := ReadAtom(src);
            a.Read? && a.value.0 == t.atom && a.value.1 == (if t.starred then "*" else "") + rest
  {
    var src := EscapeChar(c) + rest;
    EscapedExactlyWhenNeeded(c);
    assert "" + rest == rest;
    if c == '%' {
      assert src[1..] == "*" + rest;
    } else if c == '_' || !MustEscape(c) {
      assert src[1..] == rest;
    } else {
      assert src[2..] == rest;
    }
  }

  lemma ReadsOnChar(c: char, rest: string)
    requires rest != [] && rest[0] != '*'
    ensures ReadTerms(EscapeChar(c) + rest) == AddTerms([CharTerm(c)], ReadTerms(rest))
  {
    ReadChar(c, rest);
    assert ("*" + rest)[1..] == rest && "" + rest == rest;
  }

  /** Reading the compiled text gives exactly the elements of the pattern, or a syntax error exactly if
      one of its ranges runs backwards. */
  lemma {:induction false} ReadsBackAsElements(p: string)
    requires Covered(p)
    ensures ReadTerms(ConvertBody(p) + "$") == if HasBackwardRange(p) then SyntaxError else Read(Elements(p))
    decreases |p|
  {
    if p == [] {
    } else if GroupLength(p) > 0 {
      ReadsBackGroup(p);
    } else {
      ReadsBackChar(p);
    }
  }

  lemma {:induction false} ReadsBackGroup(p: string)
    requires Covered(p) && GroupLength(p) > 0
    ensures ReadTerms(ConvertBody(p) + "$") == if HasBackwardRange(p) then SyntaxError else Read(Elements(p))
    decreases |p|, 0
  {
    var n := GroupLength(p);
    var src, rest := ConvertBody(p) + "$", ConvertBody(p[n..]) + "$";
    assert src == DoubleBackslashes(p[..n]) + rest;
    NoLeadingStar(p);
    NoLeadingStar(p[n..]);
    ReadsBackAsElements(p[n..]);
    if p[1] == ']' {
      ReadEmptyGroup(p, rest);
    } else {
      assert p[..n][1..n - 1] == p[1..n - 1];
      GroupIsOrdered(p, n);
      ReadGroup(p, rest);
      if RangesOrdered(GroupAtom(p[1..n - 1]).items) {
        ReadsOn(src, GroupAtom(p[1..n - 1]), rest);
      }
    }
  }

  lemma {:induction false} ReadsBackChar(p: string)
    requires Covered(p) && p != [] && GroupLength(p) == 0
    ensures ReadTerms(ConvertBody(p) + "$") == if HasBackwardRange(p) then SyntaxError else Read(Elements(p))
    decreases |p|, 0
  {
    var src, rest := ConvertBody(p) + "$", ConvertBody(p[1..]) + "$";
    assert src == EscapeChar(p[0]) + rest;
    NoLeadingStar(p[1..]);
    ReadsOnChar(p[0], rest);
    ReadsBackAsElements(p[1..]);
  }

  // ---------------------------------------------------------------------------------------------
  // The theorems
  // ---------------------------------------------------------------------------------------------

  lemma {:induction false} SameMembers(fold: Fold, body: string, c: char)
    ensures InItems(fold, Members(body), c) <==> InRanges(fold, body, c)
    decreases |body|
  {
    var m := Members(body);
    if |body| >= 3 && body[1] == '-' {
      assert IsRange(m) && m[3..] == Members(body[3..]);
      SameMembers(fold, body[3..], c);
    } else if body != [] {
      assert !IsRange(m) && m[1..] == Members(body[1..]);
      SameMembers(fold, body[1..], c);
    }
  }

  predicate Visible(c: char) {
    !IsLineTerminator(c)
  }

  /** A starred dot takes any visible prefix. */
  lemma {:induction false} StarTakesPrefix(fold: Fold, rest: seq<Term>, s: string)
    ensures Matches(fold, [Term(Dot, true)] + rest, s) <==>
            exists k :: 0 <= k <= |s| && (forall i :: 0 <= i < k ==> Visible(s[i])) && Matches(fold, rest, s[k..])
    decreases |s|
  {
    var terms := [Term(Dot, true)] + rest;
    assert terms[1..] == rest && s[0..] == s;
    if s == [] {
    } else {
      var t := s[1..];
      StarTakesPrefix(fold, rest, t);
      if Visible(s[0]) && Matches(fold, terms, t) {
        var k :| 0 <= k <= |t| && (forall i :: 0 <= i < k ==> Visible(t[i])) && Matches(fold, rest, t[k..]);
        assert t[k..] == s[k + 1..];
        forall i | 0 <= i < k + 1 ensures Visible(s[i]) { if i > 0 { assert s[i] == t[i - 1]; } }
      }
      forall k | 0 <= k <= |s| && (forall i :: 0 <= i < k ==> Visible(s[i])) && Matches(fold, rest, s[k..])
        ensures Matches(fold, terms, s)
      {
        if k > 0 {
          assert s[k..] == t[k - 1..];
          assert Visible(s[0]);
          forall i | 0 <= i < k - 1 ensures Visible(t[i]) { assert t[i] == s[i + 1]; }
        }
      }
    }
  }

  lemma {:induction false} ElementsMatchLike(fold: Fold, p: string, s: string)
    ensures Matches(fold, Elements(p), s) <==> LikeOver(fold, Visible, p, s)
    decreases |p|, 1
  {
    if p == [] {
    } else if GroupLength(p) > 0 {
      GroupMatchesLike(fold, p, s);
    } else {
      CharMatchesLike(fold, p, s);
    }
  }

  lemma {:induction false} GroupMatchesLike(fold: Fold, p: string, s: string)
    requires GroupLength(p) > 0
    ensures Matches(fold, Elements(p), s) <==> LikeOver(fold, Visible, p, s)
    decreases |p|, 0
  {
    var n := GroupLength(p);
    var body := p[1..n - 1];
    if p[1] == ']' {
      assert Elements(p)[0] == Term(Class(false, []), false);
    } else if s != [] {
      assert p[..n][1..n - 1] == body && Elements(p)[0] == Term(GroupAtom(body), false);
      assert Elements(p)[1..] == Elements(p[n..]);
      SameMembers(fold, if body[0] == '^' then body[1..] else body, s[0]);
      ElementsMatchLike(fold, p[n..], s[1..]);
    }
  }

  lemma {:induction false} CharMatchesLike(fold: Fold, p: string, s: string)
    requires p != [] && GroupLength(p) == 0
    ensures Matches(fold, Elements(p), s) <==> LikeOver(fold, Visible, p, s)
    decreases |p|, 0
  {
    var rest := p[1..];
    assert Elements(p)[1..] == Elements(rest);
    if p[0] == '%' {
      StarTakesPrefix(fold, Elements(rest), s);
      forall k | 0 <= k <= |s|
        ensures Matches(fold, Elements(rest), s[k..]) <==> LikeOver(fold, Visible, rest, s[k..])
      {
        ElementsMatchLike(fold, rest, s[k..]);
      }
    } else if s != [] {
      ElementsMatchLike(fold, rest, s[1..]);
    }
  }

  lemma ConvertedTail(p: string)
    ensures Convert(p)[0] == '^' && Convert(p)[1..] == ConvertBody(p) + "$"
  {
    Anchored(ConvertBody(p));
  }

  lemma Anchored(body: string)
    ensures ("^" + body + "$")[0] == '^' && ("^" + body + "$")[1..] == body + "$"
  {
  }

  lemma ReadsSource(p: string)
    requires Covered(p)
    ensures ReadSource(Convert(p)) == if HasBackwardRange(p) then SyntaxError else Read(Elements(p))
  {
    ConvertedTail(p);
    ReadsBackAsElements(p);
  }

  /** The constructor refuses a pattern if and only if one of its ranges runs backwards. */
  lemma RefusedExactly(e: Engine, p: string)
    requires Covered(p)
    ensures Refused(e, Convert(p)) <==> HasBackwardRange(p)
  {
    ReadsSource(p);
  }

  lemma CoveredIsLikeOnVisibleText(e: Engine, p: string, s: string)
    requires Covered(p) && !HasBackwardRange(p)
    ensures RegExpTest(e, Convert(p), s) <==> LikeOver(e.fold, Visible, p, s)
  {
    ReadsSource(p);
    ElementsMatchLike(e.fold, p, s);
  }

  /** Some bracket group opens with a closing bracket. */
  predicate HasEmptyGroup(p: string)
    decreases |p|
  {
    if p == [] then false
    else
      var n := GroupLength(p);
      if n > 0 then p[1] == ']' || HasEmptyGroup(p[n..]) else HasEmptyGroup(p[1..])
  }

  lemma {:induction false} EmptyGroupDescribesNothing(fold: Fold, wild: char -> bool, p: string, s: string)
    requires HasEmptyGroup(p)
    ensures !LikeOver(fold, wild, p, s)
    decreases |p|
  {
    var n := GroupLength(p);
    if n > 0 {
      if p[1] != ']' && s != [] {
        EmptyGroupDescribesNothing(fold, wild, p[n..], s[1..]);
      }
    } else if p[0] == '%' {
      forall k | 0 <= k <= |s|
        ensures !LikeOver(fold, wild, p[1..], s[k..])
      {
        EmptyGroupDescribesNothing(fold, wild, p[1..], s[k..]);
      }
    } else if s != [] {
      EmptyGroupDescribesNothing(fold, wild, p[1..], s[1..]);
    }
  }

  lemma {:induction false} CoveredWithoutEmptyGroup(p: string)
    requires !HasEmptyGroup(p)
    ensures Covered(p)
    decreases |p|
  {
    if p == [] {
    } else {
      var n := GroupLength(p);
      CoveredWithoutEmptyGroup(if n > 0 then p[n..] else p[1..]);
    }
  }

  /** The pattern is accepted and keeps its meaning, whatever the platform does with syntax that is not
      modelled. */
  ghost predicate KeepsMeaning(fold: Fold, p: string) {
    forall e: Engine :: e.fold == fold ==>
      !Refused(e, Convert(p)) && forall s :: RegExpTest(e, Convert(p), s) <==> LikeOver(fold, Visible, p, s)
  }

  /** No range runs backwards; or, with a group without members, the source text can be read and matches
      nothing. */
  ghost predicate Sound(fold: Fold, p: string) {
    if HasEmptyGroup(p) then MatchesNothing(fold, Convert(p)) else !HasBackwardRange(p)
  }

  /** A pattern, of whatever kind, keeps its meaning if and only if it is sound. */
  lemma KeepsMeaningExactly(fold: Fold, p: string)
    ensures KeepsMeaning(fold, p) <==> Sound(fold, p)
  {
    if HasEmptyGroup(p) {
      forall s ensures !LikeOver(fold, Visible, p, s) {
        EmptyGroupDescribesNothing(fold, Visible, p, s);
      }
      NothingExactly(fold, Convert(p));
    } else {
      CoveredWithoutEmptyGroup(p);
      CoveredKeepsMeaning(fold, p);
    }
  }

  ghost predicate MatchesNothing(fold: Fold, src: string) {
    ReadSource(src).Read? && forall s :: !Matches(fold, ReadSource(src).value, s)
  }

  /** A source text matches nothing on every platform exactly if it can be read and its terms match nothing. */
  lemma NothingExactly(fold: Fold, src: string)
    ensures MatchesNothing(fold, src) <==>
            forall e: Engine :: e.fold == fold ==> !Refused(e, src) && forall s :: !RegExpTest(e, src, s)
  {
    var all := Engine(fold, (src: string) => false, (src: string, s: string) => true);
    var r := ReadSource(src);
    if r.Beyond? {
      assert RegExpTest(all, src, "");
    } else if r.SyntaxError? {
      assert Refused(all, src);
    } else {
      assert !Refused(all, src);
      assert forall s :: RegExpTest(all, src, s) <==> Matches(fold, r.value, s);
    }
  }

  lemma CoveredKeepsMeaning(fold: Fold, p: string)
    requires Covered(p)
    ensures KeepsMeaning(fold, p) <==> !HasBackwardRange(p)
  {
    if HasBackwardRange(p) {
      var any := Engine(fold, (src: string) => false, (src: string, s: string) => false);
      RefusedExactly(any, p);
    } else {
      forall e: Engine | e.fold == fold
        ensures !Refused(e, Convert(p)) && forall s :: RegExpTest(e, Convert(p), s) <==> LikeOver(fold, Visible, p, s)
      {
        RefusedExactly(e, p);
        forall s ensures RegExpTest(e, Convert(p), s) <==> LikeOver(fold, Visible, p, s) {
          CoveredIsLikeOnVisibleText(e, p, s);
        }
      }
    }
  }

  lemma StarInEmptyGroupText()
    ensures GroupLength("[]*]") == 4 && "[]*]"[2..3] == "*" && Convert("[]*]") == "^[]*]$"
  {
    var p := "[]*]";
    assert IsGroup(p, 4) && !IsGroup(p, 3);
    assert p == "[" + ("]" + "*") + "]" && p[..4] == p && p[4..] == "";
    DoubledEmptyGroup("*", "");
    assert DoubleBackslashes("*") == "*" by { assert "*"[1..] == ""; }
    assert DoubleBackslashes(p) + "" == DoubleBackslashes(p);
    assert ConvertBody(p) == DoubleBackslashes(p) + ConvertBody("");
  }

  lemma StarInEmptyGroupReading()
    ensures ReadSource("^[]*]$") == Read([Term(Class(false, []), true), Term(Literal(']'), false)])
  {
    var src := "[]*]$";
    assert "^[]*]$"[1..] == src && src[1..] == "]*]$" && "]*]$"[1..] == "*]$" && "*]$"[1..] == "]$" && "]$"[1..] == "$";
    assert ReadItems("]*]$") == Read(([], "*]$"));
    assert ReadAtom(src) == Read((Class(false, []), "*]$"));
    ReadsOn("]$", Literal(']'), "$");
    var star, bracket := Term(Class(false, []), true), Term(Literal(']'), false);
    assert ReadTerms("$") == Read([]);
    assert [bracket] + [] == [bracket] && ReadTerms("]$") == Read([bracket]);
    assert [star] + [bracket] == [star, bracket] && ReadTerms(src) == AddTerms([star], ReadTerms("]$"));
  }

  /** Syntax inside a group that opens with a closing bracket does change the meaning: the star makes
      the empty class optional, and the pattern, which describes no text, matches a bracket. */
  lemma SyntaxInEmptyGroupIsNotEscaped(e: Engine)
    ensures var p := "[]*]";
            !Covered(p) && !Refused(e, Convert(p)) && RegExpTest(e, Convert(p), "]") && forall s :: !Like(e.fold, p, s)
  {
    StarInEmptyGroupText();
    StarInEmptyGroupReading();
    assert "*"[0] == '*';
    var star, bracket := Term(Class(false, []), true), Term(Literal(']'), false);
    assert [star, bracket][1..] == [bracket] && [bracket][1..] == [] && "]"[1..] == "";
    assert Matches(e.fold, [bracket], "]");
  }

  lemma {:induction false} WiderWildcards(fold: Fold, p: string, s: string)
    ensures LikeOver(fold, Visible, p, s) ==> Like(fold, p, s)
    ensures (forall c :: c in s ==> Visible(c)) ==> (Like(fold, p, s) ==> LikeOver(fold, Visible, p, s))
    decreases |p|
  {
    if p == [] {
    } else {
      var n := GroupLength(p);
      var rest := if n > 0 then p[n..] else p[1..];
      if n == 0 && p[0] == '%' {
        forall k | 0 <= k <= |s|
          ensures LikeOver(fold, Visible, rest, s[k..]) ==> Like(fold, rest, s[k..])
          ensures (forall c :: c in s ==> Visible(c)) ==>
                  (Like(fold, rest, s[k..]) ==> LikeOver(fold, Visible, rest, s[k..]))
        {
          WiderWildcards(fold, rest, s[k..]);
        }
      } else if s != [] {
        WiderWildcards(fold, rest, s[1..]);
      }
    }
  }

  /** The compiled regular expression accepts exactly the subjects that the pattern describes with
      wildcards that do not cover line terminators. */
  lemma RegExpIsLikeOnVisibleText(e: Engine, p: string, s: string)
    requires Sound(e.fold, p)
    ensures !Refused(e, Convert(p)) && (RegExpTest(e, Convert(p), s) <==> LikeOver(e.fold, Visible, p, s))
  {
    KeepsMeaningExactly(e.fold, p);
  }

  /** Every match of the compiled expression is a match of the pattern. */
  lemma RegExpImpliesLike(e: Engine, p: string, s: string)
    requires Sound(e.fold, p) && RegExpTest(e, Convert(p), s)
    ensures Like(e.fold, p, s)
  {
    RegExpIsLikeOnVisibleText(e, p, s);
    WiderWildcards(e.fold, p, s);
  }

  /** A subject is treated as LIKE treats it, under every sound pattern, exactly when it has no line terminator. */
  lemma RegExpIsLike(e: Engine, s: string)
    ensures (forall p :: Sound(e.fold, p) ==> (RegExpTest(e, Convert(p), s) <==> Like(e.fold, p, s)))
            <==> (forall c :: c in s ==> Visible(c))
  {
    forall p | Sound(e.fold, p)
      ensures (forall c :: c in s ==> Visible(c)) ==> (RegExpTest(e, Convert(p), s) <==> Like(e.fold, p, s))
    {
      RegExpIsLikeOnVisibleText(e, p, s);
      WiderWildcards(e.fold, p, s);
    }
    if i :| 0 <= i < |s| && !Visible(s[i]) {
      var p := "%";
      assert GroupLength(p) == 0 && p[1..] == [] && s[|s|..] == [];
      assert Like(e.fold, p, s);
      RegExpIsLikeOnVisibleText(e, p, s);
      assert !LikeOver(e.fold, Visible, p, s);
      assert s[i] in s;
    }
  }
}
