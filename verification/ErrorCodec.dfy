/** Errors carried as text: "status:Error code code:message", printed and parsed back. */
module ErrorCodec {
  import opened Common
  import opened Text

  datatype BackkError = BackkError(statusCode: int, errorCode: Option<string>, message: string)

  const INTERNAL_SERVER_ERROR := 500
  const ERROR_CODE_PREFIX := "Error code "

  function Digit(d: nat): char
    requires d < 10
  {
    "0123456789"[d]
  }

  function PrintNat(n: nat): (s: string)
    ensures s != []
  {
    (if n < 10 then [] else PrintNat(n / 10)) + [Digit(n % 10)]
  }

  function PrintInt(n: int): string {
    if n < 0 then "-" + PrintNat(-n) else PrintNat(n)
  }

  /** An undefined code prints as the word undefined. */
  function PrintedCode(e: BackkError): string {
    if e.errorCode.Some? then e.errorCode.value else "undefined"
  }

  function PrintedMessage(e: BackkError): string {
    ERROR_CODE_PREFIX + PrintedCode(e) + ":" + e.message
  }

  function Print(e: BackkError): string {
    PrintInt(e.statusCode) + (":" + PrintedMessage(e))
  }

  predicate IsDigit(c: char) {
    '0' <= c <= '9'
  }

  /** The longest run of decimal digits at the start, appended to `value`. */
  function LeadingDigits(s: string, value: nat): nat
    decreases |s|
  {
    if s == [] || !IsDigit(s[0]) then value else LeadingDigits(s[1..], 10 * value + (s[0] as int - '0' as int))
  }

  /** parseInt on decimal text: leading space, a sign, then digits; None is NaN. */
  function ParseInt(s: string): Option<int> {
    var t := TrimStart(s);
    var negative := t != [] && t[0] == '-';
    var digits := if t != [] && t[0] in "+-" then t[1..] else t;
    if digits == [] || !IsDigit(digits[0]) then None
    else
      var n: int := LeadingDigits(digits, 0);
      Some(if negative then -n else n)
  }

  function Take(s: string, n: nat): string {
    if n <= |s| then s[..n] else s
  }

  function Drop(s: string, n: nat): string {
    if n <= |s| then s[n..] else []
  }

  function Parse(text: string): BackkError {
    var status := ParseInt(Take(text, 3));
    var message := if status.Some? then Drop(text, 4) else text;
    var statusCode := if status.Some? then status.value else INTERNAL_SERVER_ERROR;
    if ERROR_CODE_PREFIX <= message then
      var parts := Split(message, ":");
      BackkError(statusCode, Some(Drop(parts[0], |ERROR_CODE_PREFIX|)), Trim(Join(parts[1..], ':')))
    else BackkError(statusCode, None, message)
  }

  // ---------------------------------------------------------------------------------------------
  // Decimal numbers
  // ---------------------------------------------------------------------------------------------

  predicate AllDigits(s: string) {
    forall i :: 0 <= i < |s| ==> IsDigit(s[i])
  }

  lemma {:induction false} AppendDigit(s: string, d: nat, value: nat)
    requires AllDigits(s) && d < 10
    ensures LeadingDigits(s + [Digit(d)], value) == 10 * LeadingDigits(s, value) + d
    decreases |s|
  {
    var t := s + [Digit(d)];
    if s == [] {
      assert t[1..] == [];
    } else {
      assert t[0] == s[0] && t[1..] == s[1..] + [Digit(d)];
      AppendDigit(s[1..], d, 10 * value + (s[0] as int - '0' as int));
    }
  }

  lemma {:induction false} DigitsOf(n: nat)
    ensures AllDigits(PrintNat(n)) && LeadingDigits(PrintNat(n), 0) == n
    ensures |PrintNat(n)| == 1 <==> n < 10
  {
    if n >= 10 {
      DigitsOf(n / 10);
      AppendDigit(PrintNat(n / 10), n % 10, 0);
    } else {
      AppendDigit([], n, 0);
      assert [] + [Digit(n)] == PrintNat(n);
    }
  }

  lemma LengthOf(n: nat)
    ensures |PrintNat(n)| <= 2 <==> n < 100
    ensures |PrintNat(n)| <= 3 <==> n < 1000
  {
    DigitsOf(n / 100);
    DigitsOf(n / 10);
    if n >= 100 {
      assert PrintNat(n / 10) == PrintNat(n / 100) + [Digit(n / 10 % 10)] by { assert n / 10 / 10 == n / 100; }
    }
  }

  lemma {:induction false} DigitsBelow(s: string, value: nat, bound: nat)
    requires value < bound
    ensures var n := LeadingDigits(s, value);
            (|s| == 0 ==> n < bound) && (|s| <= 1 ==> n < 10 * bound) &&
            (|s| <= 2 ==> n < 100 * bound) && (|s| <= 3 ==> n < 1000 * bound)
    decreases |s|
  {
    if s != [] && IsDigit(s[0]) {
      DigitsBelow(s[1..], 10 * value + (s[0] as int - '0' as int), 10 * bound);
    }
  }

  /** Parsing a printed number gives it back, whatever its length. */
  lemma ParsePrinted(n: int)
    ensures ParseInt(PrintInt(n)) == Some(n)
  {
    var p := PrintInt(n);
    DigitsOf(if n < 0 then -n else n);
    if n < 0 {
      assert p[1..] == PrintNat(-n);
    }
  }

  /** A number that prints longer than three characters is not what its first three say. */
  lemma LongNumber(n: int)
    requires |PrintInt(n)| > 3
    ensures ParseInt(PrintInt(n)[..3]) != Some(n)
  {
    var p := PrintInt(n);
    var q := p[..3];
    LengthOf(if n < 0 then -n else n);
    DigitsOf(if n < 0 then -n else n);
    assert q[0] == p[0];
    if n < 0 {
      assert |q[1..]| == 2;
      DigitsBelow(q[1..], 0, 1);
    } else {
      DigitsBelow(q, 0, 1);
    }
  }

  // ---------------------------------------------------------------------------------------------
  // Round trip
  // ---------------------------------------------------------------------------------------------

  lemma {:induction false} FirstPartFree(s: string)
    ensures Free(Split(s, ":")[0], ":")
  {
    if s == [] {
    } else {
      FirstPartFree(s[1..]);
    }
  }

  lemma PrintedParts(e: BackkError)
    requires |PrintInt(e.statusCode)| == 3
    ensures Take(Print(e), 3) == PrintInt(e.statusCode) && Drop(Print(e), 4) == PrintedMessage(e)
  {
    CutAtColon(PrintInt(e.statusCode), PrintedMessage(e));
  }

  lemma CutAtColon(head: string, rest: string)
    requires |head| == 3
    ensures Take(head + (":" + rest), 3) == head && Drop(head + (":" + rest), 4) == rest
  {
  }

  lemma SplitMessage(e: BackkError)
    requires Free(PrintedCode(e), ":")
    ensures var parts := Split(PrintedMessage(e), ":");
            Drop(parts[0], |ERROR_CODE_PREFIX|) == PrintedCode(e) && Join(parts[1..], ':') == e.message
  {
    var head := ERROR_CODE_PREFIX + PrintedCode(e);
    assert PrintedMessage(e) == head + [':'] + e.message;
    assert Free(head, ":");
    SplitFirst(head, ':', e.message, ":");
    JoinSplit(e.message, ':');
    assert ([head] + Split(e.message, ":"))[1..] == Split(e.message, ":")
           && head[|ERROR_CODE_PREFIX|..] == PrintedCode(e);
  }

  /** What follows the status is parsed up to the first colon of the code. */
  lemma ParsesAfterStatus(e: BackkError)
    requires |PrintInt(e.statusCode)| == 3
    ensures var r := Parse(Print(e));
            r.statusCode == e.statusCode && r.errorCode.Some? && Free(r.errorCode.value, ":") &&
            (Free(PrintedCode(e), ":") ==> r.errorCode == Some(PrintedCode(e)) && r.message == Trim(e.message))
  {
    PrintedParts(e);
    ParsePrinted(e.statusCode);
    FirstPartFree(PrintedMessage(e));
    if Free(PrintedCode(e), ":") {
      SplitMessage(e);
    }
  }

  lemma Glue(p: string, a: string, b: string, c: string, d: string)
    ensures p + (a + (b + c + a + d)) == p + (a + b) + c + a + d
  {
  }

  /** The text of an error. */
  lemma TextOfError(e: BackkError)
    ensures Print(e) == PrintInt(e.statusCode) + ":Error code " + PrintedCode(e) + ":" + e.message
    ensures PrintedCode(e) == if e.errorCode.Some? then e.errorCode.value else "undefined"
  {
    Glue(PrintInt(e.statusCode), ":", ERROR_CODE_PREFIX, PrintedCode(e), e.message);
    assert ":" + ERROR_CODE_PREFIX == ":Error code ";
  }

  /** Only negative numbers print with a minus sign. */
  lemma SignOf(n: int)
    ensures PrintInt(n) != [] && (PrintInt(n)[0] == '-' <==> n < 0)
  {
    DigitsOf(if n < 0 then -n else n);
  }

  /** An undefined code comes back as the word. */
  lemma UndefinedCodeComesBackAsText(e: BackkError)
    requires |PrintInt(e.statusCode)| == 3 && e.errorCode.None?
    ensures Parse(Print(e)) == BackkError(e.statusCode, Some("undefined"), Trim(e.message))
  {
    assert forall i :: 0 <= i < |"undefined"| ==> "undefined"[i] !in ":";
    ParsesAfterStatus(e);
  }

  /** A text without a number in front is an internal server error, without a code if it has no prefix. */
  lemma UnnumberedText(text: string)
    requires (forall i :: 0 <= i < 3 && i < |text| ==> text[i] < '0' || '9' < text[i]) && !("Error code " <= text)
    ensures Parse(text) == BackkError(500, None, text)
  {
    var head := Take(text, 3);
    TrimStartIsPart(head);
    forall c | c in head
      ensures !IsDigit(c)
    {
      var i :| 0 <= i < |head| && head[i] == c;
      assert text[i] == c;
    }
    var t := TrimStart(head);
    assert |t| > 0 ==> t[0] in t;
    assert |t| > 1 ==> t[1] in t;
  }

  lemma {:induction false} TrimStartIsPart(s: string)
    ensures forall c :: c in TrimStart(s) ==> c in s
  {
    if s == [] {
    } else {
      TrimStartIsPart(s[1..]);
    }
  }

  /** A text with a status of three characters in front keeps it, and has no code without the prefix. */
  lemma TextWithoutCode(status: int, text: string)
    requires |PrintInt(status)| == 3 && !("Error code " <= text)
    ensures Parse(PrintInt(status) + (":" + text)) == BackkError(status, None, text)
  {
    CutAtColon(PrintInt(status), text);
    ParsePrinted(status);
  }

  lemma EmptyCode(prefix: string)
    requires prefix == ERROR_CODE_PREFIX
    ensures Split(prefix, ":")[0] == prefix && Join(Split(prefix, ":")[1..], ':') == ""
    ensures Drop(prefix, |ERROR_CODE_PREFIX|) == "" && Trim("") == ""
  {
    SplitFree(prefix, ":");
    assert [prefix][1..] == [];
  }

  /** With nothing but the prefix behind the status the code is empty. */
  lemma PrefixAlone(status: int, prefix: string)
    requires |PrintInt(status)| == 3 && prefix == "Error code "
    ensures Parse(PrintInt(status) + (":" + prefix)) == BackkError(status, Some(""), "")
  {
    CutAtColon(PrintInt(status), prefix);
    ParsePrinted(status);
    EmptyCode(prefix);
  }

  /** A status that prints shorter eats into the code's prefix. */
  lemma ShortStatusLosesCode(e: BackkError)
    requires |PrintInt(e.statusCode)| < 3
    ensures Parse(Print(e)) != e
  {
    var p := PrintInt(e.statusCode);
    var text := Print(e);
    assert PrintedMessage(e)[1] == 'r' && PrintedMessage(e)[2] == 'r';
    assert text[4] == 'r';
    assert |text| >= |e.message| + 13;
  }

  /** Printing and parsing an error gives it back if and only if the status prints as three
      characters, there is a code, the code has no colon and the message is trimmed.  Colons in the
      message survive. */
  lemma RoundTrip(e: BackkError)
    ensures Parse(Print(e)) == e <==>
            |PrintInt(e.statusCode)| == 3 && e.errorCode.Some? && Free(e.errorCode.value, ":") && Trimmed(e.message)
  {
    var p := PrintInt(e.statusCode);
    TrimFixed(e.message);
    if |p| == 3 {
      ParsesAfterStatus(e);
    } else if |p| < 3 {
      ShortStatusLosesCode(e);
    } else {
      LongNumber(e.statusCode);
      assert Take(Print(e), 3) == p[..3];
    }
  }

  /** Among the non-negative numbers the statuses that survive are 100 to 999. */
  lemma ThreeDigitStatuses(status: nat)
    ensures |PrintInt(status)| == 3 <==> 100 <= status <= 999
  {
    LengthOf(status);
  }
}
