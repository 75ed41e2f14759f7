/** The string operations of JavaScript that the parsers use.  A `char` is a character; the platform counts
    code units, which is the same for characters below 0x10000. */
module Text {
  /** White space and line terminators, as `trim` removes them. */
  predicate IsSpace(c: char) {
    || '\t' <= c <= '\r' || c == ' ' || c == '\U{00A0}' || c == '\U{1680}' || '\U{2000}' <= c <= '\U{200A}'
    || c == '\U{2028}' || c == '\U{2029}' || c == '\U{202F}' || c == '\U{205F}' || c == '\U{3000}' || c == '\U{FEFF}'
  }

  /** They are tab, line feed, vertical tab, form feed, carriage return, and the spaces and line terminators of
      Unicode. */
  lemma SpacesByNumber(c: char)
    ensures IsSpace(c) <==>
            c as int in {0x9, 0xA, 0xB, 0xC, 0xD, 0x20, 0xA0, 0x1680, 0x2000, 0x2001, 0x2002, 0x2003, 0x2004, 0x2005,
                         0x2006, 0x2007, 0x2008, 0x2009, 0x200A, 0x2028, 0x2029, 0x202F, 0x205F, 0x3000, 0xFEFF}
  {
  }

  predicate AllSpace(s: string) {
    forall c :: c in s ==> IsSpace(c)
  }

  function TrimStart(s: string): string {
    if s != [] && IsSpace(s[0]) then TrimStart(s[1..]) else s
  }

  function TrimEnd(s: string): string {
    if s != [] && IsSpace(s[|s| - 1]) then TrimEnd(s[..|s| - 1]) else s
  }

  function Trim(s: string): string {
    TrimEnd(TrimStart(s))
  }

  predicate Trimmed(s: string) {
    s == [] || (!IsSpace(s[0]) && !IsSpace(s[|s| - 1]))
  }

  lemma {:induction false} TrimStartEffect(s: string)
    ensures TrimStart(s) == [] || !IsSpace(TrimStart(s)[0])
    ensures |TrimStart(s)| <= |s| && TrimStart(s) == s[|s| - |TrimStart(s)|..]
    ensures TrimStart(s) == s <==> s == [] || !IsSpace(s[0])
  {
    if s != [] && IsSpace(s[0]) {
      TrimStartEffect(s[1..]);
    }
  }

  lemma {:induction false} TrimEndEffect(s: string)
    ensures TrimEnd(s) == [] || !IsSpace(TrimEnd(s)[|TrimEnd(s)| - 1])
    ensures TrimEnd(s) <= s
    ensures TrimEnd(s) == s <==> s == [] || !IsSpace(s[|s| - 1])
  {
    if s != [] && IsSpace(s[|s| - 1]) {
      TrimEndEffect(s[..|s| - 1]);
    }
  }

  /** Trimming yields a trimmed text, and leaves a text alone exactly when it is trimmed. */
  lemma TrimFixed(s: string)
    ensures Trimmed(Trim(s)) && (Trim(s) == s <==> Trimmed(s))
  {
    TrimStartEffect(s);
    TrimEndEffect(TrimStart(s));
    if Trim(s) == s {
      assert |TrimStart(s)| == |s|;
    }
  }

  lemma {:induction false} TrimLeadingSpace(space: string, s: string)
    requires AllSpace(space)
    ensures TrimStart(space + s) == TrimStart(s)
  {
    if space == [] {
      assert space + s == s;
    } else {
      assert IsSpace(space[0]) && (space + s)[0] == space[0] && (space + s)[1..] == space[1..] + s;
      TrimLeadingSpace(space[1..], s);
    }
  }

  lemma {:induction false} TrimTrailingSpace(s: string, space: string)
    requires AllSpace(space)
    ensures TrimEnd(s + space) == TrimEnd(s)
  {
    if space == [] {
      assert s + space == s;
    } else {
      var n := |space| - 1;
      assert space[n] in space;
      assert (s + space)[|s| + n] == space[n] && (s + space)[..|s| + n] == s + space[..n];
      TrimTrailingSpace(s, space[..n]);
    }
  }

  /** Trimming strips surrounding space and nothing else. */
  lemma TrimSurrounded(before: string, s: string, after: string)
    requires AllSpace(before) && AllSpace(after) && Trimmed(s) && s != []
    ensures Trim(before + s + after) == s
  {
    assert before + s + after == before + (s + after);
    TrimLeadingSpace(before, s + after);
    TrimStartEffect(s + after);
    TrimTrailingSpace(s, after);
    TrimEndEffect(s);
  }

  lemma TrimIndented(indent: string, s: string)
    requires AllSpace(indent) && Trimmed(s) && s != []
    ensures Trim(indent + s) == s
  {
    TrimLeadingSpace(indent, s);
    TrimStartEffect(s);
    TrimEndEffect(s);
  }

  /** A text that starts with something else than space is not blank, however it is indented. */
  lemma {:induction false} NotBlank(indent: string, s: string)
    requires AllSpace(indent) && s != [] && !IsSpace(s[0])
    ensures Trim(indent + s) != []
    decreases |s|
  {
    TrimLeadingSpace(indent, s);
    if IsSpace(s[|s| - 1]) {
      NotBlank(indent, s[..|s| - 1]);
      TrimLeadingSpace(indent, s[..|s| - 1]);
    }
  }

  predicate EndsWith(s: string, suffix: string) {
    |suffix| <= |s| && s[|s| - |suffix|..] == suffix
  }

  lemma EndsWithExactly(s: string, suffix: string)
    ensures EndsWith(s, suffix) <==> exists before: string :: s == before + suffix
  {
    if EndsWith(s, suffix) {
      assert s == s[..|s| - |suffix|] + suffix;
    }
  }

  /** Parts between the separators; always at least one. */
  function Split(s: string, separators: string): (parts: seq<string>)
    ensures parts != []
  {
    if s == [] then [[]]
    else
      var rest := Split(s[1..], separators);
      if s[0] in separators then [[]] + rest else [[s[0]] + rest[0]] + rest[1..]
  }

  function Join(parts: seq<string>, separator: char): string {
    if parts == [] then []
    else if |parts| == 1 then parts[0]
    else parts[0] + [separator] + Join(parts[1..], separator)
  }

  /** Does no character of s separate? */
  predicate Free(s: string, separators: string) {
    forall i :: 0 <= i < |s| ==> s[i] !in separators
  }

  lemma {:induction false} SplitFree(s: string, separators: string)
    requires Free(s, separators)
    ensures Split(s, separators) == [s]
  {
    if s == [] {
    } else {
      assert Free(s[1..], separators);
      SplitFree(s[1..], separators);
      assert [s[0]] + s[1..] == s;
    }
  }

  /** The first separator cuts the text. */
  lemma {:induction false} SplitFirst(a: string, c: char, b: string, separators: string)
    requires Free(a, separators) && c in separators
    ensures Split(a + [c] + b, separators) == [a] + Split(b, separators)
  {
    var s := a + [c] + b;
    if a == [] {
      assert s[0] == c && s[1..] == b;
    } else {
      assert s[0] == a[0] && s[1..] == a[1..] + [c] + b;
      assert Free(a[1..], separators);
      SplitFirst(a[1..], c, b, separators);
      assert [a[0]] + a[1..] == a;
    }
  }

  /** Splitting undoes joining when no part contains the separator. */
  lemma {:induction false} SplitJoin(parts: seq<string>, c: char)
    requires parts != [] && forall i :: 0 <= i < |parts| ==> Free(parts[i], [c])
    ensures Split(Join(parts, c), [c]) == parts
  {
    if |parts| == 1 {
      SplitFree(parts[0], [c]);
    } else {
      var tail := parts[1..];
      forall i | 0 <= i < |tail| ensures Free(tail[i], [c]) { assert tail[i] == parts[i + 1]; }
      SplitJoin(tail, c);
      SplitFirst(parts[0], c, Join(tail, c), [c]);
      assert [parts[0]] + tail == parts;
    }
  }

  /** Joining undoes splitting, for every text. */
  lemma {:induction false} JoinSplit(s: string, c: char)
    ensures Join(Split(s, [c]), c) == s
  {
    if s == [] {
    } else {
      JoinSplit(s[1..], c);
      var rest := Split(s[1..], [c]);
      if s[0] in [c] {
        assert ([[]] + rest)[1..] == rest;
      } else {
        assert ([[s[0]] + rest[0]] + rest[1..])[1..] == rest[1..];
      }
    }
  }

  // ---------------------------------------------------------------------------------------------
  // Dots
  // ---------------------------------------------------------------------------------------------

  function Dots(s: string): nat {
    if s == [] then 0 else (if s[|s| - 1] == '.' then 1 else 0) + Dots(s[..|s| - 1])
  }

  lemma {:induction false} DotsAppend(a: string, b: string)
    ensures Dots(a + b) == Dots(a) + Dots(b)
  {
    if b == [] {
      assert a + b == a;
    } else {
      assert (a + b)[..|a + b| - 1] == a + b[..|b| - 1];
      DotsAppend(a, b[..|b| - 1]);
    }
  }

  lemma {:induction false} NoDots(s: string)
    requires '.' !in s
    ensures Dots(s) == 0
  {
    if s == [] {
    } else {
      NoDots(s[..|s| - 1]);
    }
  }
}
