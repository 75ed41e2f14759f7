/** Text as bytes: UTF-8 as Buffer converts it, and base64 (RFC 4648, section 4). */
module Bytes {
  import opened Common

  type byte = b: int | 0 <= b < 256

  // ---------------------------------------------------------------------------------------------
  // UTF-8
  // ---------------------------------------------------------------------------------------------

  function EncodeChar(c: char): (r: seq<byte>)
    ensures 1 <= |r| <= 4
  {
    var n := c as int;
    if n < 0x80 then [n]
    else if n < 0x800 then [0xC0 + n / 64, 0x80 + n % 64]
    else if n < 0x10000 then [0xE0 + n / 4096, 0x80 + n / 64 % 64, 0x80 + n % 64]
    else [0xF0 + n / 262144, 0x80 + n / 4096 % 64, 0x80 + n / 64 % 64, 0x80 + n % 64]
  }

  function Encode(s: string): seq<byte> {
    if s == [] then [] else EncodeChar(s[0]) + Encode(s[1..])
  }

  const REPLACEMENT := '\U{FFFD}'

  predicate Continues(b: byte) {
    0x80 <= b < 0xC0
  }

  /** May the byte follow this leading byte?  The first continuation byte excludes overlong forms,
      surrogates and values beyond the last code point. */
  predicate Follows(lead: byte, b: byte) {
    Continues(b)
    && (lead == 0xE0 ==> b >= 0xA0) && (lead == 0xED ==> b < 0xA0)
    && (lead == 0xF0 ==> b >= 0x90) && (lead == 0xF4 ==> b < 0x90)
  }

  /** Number of bytes that a leading byte announces; 0 for a byte that cannot lead. */
  function Announced(lead: byte): nat {
    if lead < 0x80 then 1
    else if 0xC2 <= lead < 0xE0 then 2
    else if 0xE0 <= lead < 0xF0 then 3
    else if 0xF0 <= lead < 0xF5 then 4
    else 0
  }

  /** How many bytes at the start belong to one well-formed character or to the beginning of one. */
  function Progress(b: seq<byte>): (k: nat)
    requires b != []
    ensures 1 <= k <= |b| && (Announced(b[0]) > 0 ==> k <= Announced(b[0]))
    ensures Announced(b[0]) >= 2 && k >= 2 ==> Follows(b[0], b[1])
    ensures Announced(b[0]) >= 3 && k >= 3 ==> Continues(b[2])
    ensures Announced(b[0]) == 4 && k >= 4 ==> Continues(b[3])
  {
    var n := Announced(b[0]);
    if n < 2 || |b| < 2 || !Follows(b[0], b[1]) then 1
    else if n < 3 || |b| < 3 || !Continues(b[2]) then 2
    else if n < 4 || |b| < 4 || !Continues(b[3]) then 3
    else 4
  }

  function Two(a: int, b: int): int {
    (a - 0xC0) * 64 + (b - 0x80)
  }

  function Three(a: int, b: int, c: int): int {
    (a - 0xE0) * 4096 + (b - 0x80) * 64 + (c - 0x80)
  }

  function Four(a: int, b: int, c: int, d: int): int {
    (a - 0xF0) * 262144 + (b - 0x80) * 4096 + (c - 0x80) * 64 + (d - 0x80)
  }

  /** The first character; every maximal ill-formed piece counts as one replacement character. */
  function FirstChar(b: seq<byte>): char
    requires b != []
  {
    var n := Announced(b[0]);
    if n == 0 || Progress(b) < n then REPLACEMENT
    else if n == 1 then b[0] as char
    else if n == 2 then Two(b[0], b[1]) as char
    else if n == 3 then Three(b[0], b[1], b[2]) as char
    else Four(b[0], b[1], b[2], b[3]) as char
  }

  function Decode(b: seq<byte>): string
    decreases |b|
  {
    if b == [] then [] else [FirstChar(b)] + Decode(b[Progress(b)..])
  }

  lemma CodePointsBack(n: int)
    ensures 0x80 <= n < 0x800 ==> Two(0xC0 + n / 64, 0x80 + n % 64) == n
    ensures 0x800 <= n < 0x10000 ==> Three(0xE0 + n / 4096, 0x80 + n / 64 % 64, 0x80 + n % 64) == n
    ensures 0x10000 <= n < 0x110000 ==>
              Four(0xF0 + n / 262144, 0x80 + n / 4096 % 64, 0x80 + n / 64 % 64, 0x80 + n % 64) == n
  {
    assert n / 64 == n / 4096 * 64 + n / 64 % 64 by { assert n / 64 / 64 == n / 4096; }
    assert n / 4096 == n / 262144 * 64 + n / 4096 % 64 by { assert n / 4096 / 64 == n / 262144; }
  }

  lemma LeadAnnounces(c: char)
    ensures Announced(EncodeChar(c)[0]) == |EncodeChar(c)|
  {
  }

  lemma ContinuationsFollow(c: char)
    ensures var e := EncodeChar(c);
            (|e| >= 2 ==> Follows(e[0], e[1])) && (|e| >= 3 ==> Continues(e[2])) && (|e| >= 4 ==> Continues(e[3]))
  {
    var n := c as int;
    if 0x800 <= n < 0x10000 {
      ThreeFollow(n);
    } else if n >= 0x10000 {
      FourFollow(n);
    }
  }

  /** Three-byte forms are neither overlong nor surrogates. */
  lemma ThreeFollow(n: int)
    requires 0x800 <= n < 0xD800 || 0xE000 <= n < 0x10000
    ensures Follows(0xE0 + n / 4096, 0x80 + n / 64 % 64)
  {
    var hi, mid := n / 4096, n / 64 % 64;
    assert n / 64 == 64 * hi + mid by { assert n / 64 / 64 == hi; }
    if hi == 0 {
      assert n / 64 >= 32;
    } else if hi == 13 {
      assert n / 64 < 864;
    }
  }

  /** Four-byte forms are neither overlong nor beyond the last code point. */
  lemma FourFollow(n: int)
    requires 0x10000 <= n < 0x110000
    ensures Follows(0xF0 + n / 262144, 0x80 + n / 4096 % 64)
  {
    var hi, mid := n / 262144, n / 4096 % 64;
    assert n / 4096 == 64 * hi + mid by { assert n / 4096 / 64 == hi; }
    if hi == 0 {
      assert n / 4096 >= 16;
    } else if hi == 4 {
      assert n / 4096 < 272;
    }
  }

  lemma EncodedProgress(c: char, b: seq<byte>)
    requires EncodeChar(c) <= b
    ensures Announced(b[0]) == |EncodeChar(c)| && Progress(b) == |EncodeChar(c)|
  {
    LeadAnnounces(c);
    ContinuationsFollow(c);
    SameStart(EncodeChar(c), b);
  }

  lemma SameStart(a: seq<byte>, b: seq<byte>)
    requires a <= b && 1 <= |a| <= 4 && Announced(a[0]) == |a|
    requires (|a| >= 2 ==> Follows(a[0], a[1])) && (|a| >= 3 ==> Continues(a[2])) && (|a| >= 4 ==> Continues(a[3]))
    ensures Announced(b[0]) == |a| && Progress(b) == |a|
  {
    assert forall i :: 0 <= i < |a| ==> b[i] == a[i];
  }

  lemma DecodeOne(c: char, rest: seq<byte>)
    ensures Decode(EncodeChar(c) + rest) == [c] + Decode(rest)
  {
    var e := EncodeChar(c);
    var b := e + rest;
    assert b[|e|..] == rest;
    EncodedProgress(c, b);
    CodePointsBack(c as int);
    assert FirstChar(b) == c;
  }

  /** Decoding undoes encoding, whatever bytes follow. */
  lemma {:induction false} DecodeEncoded(s: string, rest: seq<byte>)
    ensures Decode(Encode(s) + rest) == s + Decode(rest)
  {
    if s == [] {
      assert Encode(s) + rest == rest && s + Decode(rest) == Decode(rest);
    } else {
      ConcatAssociates(EncodeChar(s[0]), Encode(s[1..]), rest);
      DecodeOne(s[0], Encode(s[1..]) + rest);
      DecodeEncoded(s[1..], rest);
      ConcatAssociates([s[0]], s[1..], Decode(rest));
      assert [s[0]] + s[1..] == s;
    }
  }

  lemma RoundTrip(s: string)
    ensures Decode(Encode(s)) == s
  {
    DecodeEncoded(s, []);
    assert Encode(s) + [] == Encode(s) && s + [] == s;
  }

  lemma {:induction false} DecodeLength(b: seq<byte>)
    ensures |Decode(b)| <= |b|
    decreases |b|
  {
    if b == [] {
    } else {
      DecodeLength(b[Progress(b)..]);
    }
  }

  /** Is byte offset n of the encoded text between two characters? */
  predicate AtBoundary(s: string, n: nat) {
    n == 0 || (s != [] && n >= |EncodeChar(s[0])| && AtBoundary(s[1..], n - |EncodeChar(s[0])|))
  }

  lemma CutHead(c: char, k: nat)
    requires 0 < k < |EncodeChar(c)|
    ensures |Decode(EncodeChar(c)[..k])| == 1
  {
    CutProgress(EncodeChar(c), EncodeChar(c)[..k], c, k);
    DecodesToOne(EncodeChar(c)[..k]);
  }

  lemma CutProgress(whole: seq<byte>, head: seq<byte>, c: char, k: nat)
    requires whole == EncodeChar(c) && 0 < k < |whole| && head == whole[..k]
    ensures Progress(head) == k
  {
    assert forall i :: 0 <= i < k ==> head[i] == whole[i];
  }

  lemma DecodesToOne(head: seq<byte>)
    requires head != [] && Progress(head) == |head|
    ensures |Decode(head)| == 1
  {
    assert head[|head|..] == [];
  }

  lemma EncodedContinues(c: char)
    ensures forall i :: 1 <= i < |EncodeChar(c)| ==> Continues(EncodeChar(c)[i])
  {
  }

  /** The first bytes of a character decode to one replacement character, each of the others to one more. */
  lemma CutCharacter(c: char, k: nat, rest: seq<byte>)
    requires 0 < k < |EncodeChar(c)|
    ensures |Decode(EncodeChar(c)[..k])| == 1
    ensures |Decode(EncodeChar(c)[k..] + rest)| == |EncodeChar(c)| - k + |Decode(rest)|
  {
    CutHead(c, k);
    EncodedContinues(c);
    OrphansDecode(EncodeChar(c)[k..], rest);
  }

  lemma {:induction false} OrphansDecode(orphans: seq<byte>, rest: seq<byte>)
    requires forall i :: 0 <= i < |orphans| ==> Continues(orphans[i])
    ensures |Decode(orphans + rest)| == |orphans| + |Decode(rest)|
  {
    if orphans == [] {
      assert orphans + rest == rest;
    } else {
      var b := orphans + rest;
      assert b[0] == orphans[0] && Announced(b[0]) == 0 && b[1..] == orphans[1..] + rest;
      OrphansDecode(orphans[1..], rest);
    }
  }

  function Halves(b: seq<byte>, n: nat): string
    requires n <= |b|
  {
    Decode(b[..n]) + Decode(b[n..])
  }

  lemma HalvesBehind(c: char, tail: seq<byte>, n: nat)
    requires |EncodeChar(c)| <= n <= |EncodeChar(c)| + |tail|
    ensures Halves(EncodeChar(c) + tail, n) == [c] + Halves(tail, n - |EncodeChar(c)|)
  {
    var e, m := EncodeChar(c), n - |EncodeChar(c)|;
    assert (e + tail)[..n] == e + tail[..m] && (e + tail)[n..] == tail[m..];
    DecodeOne(c, tail[..m]);
  }

  lemma HalvesInside(c: char, tail: seq<byte>, n: nat)
    requires 0 < n < |EncodeChar(c)|
    ensures |Halves(EncodeChar(c) + tail, n)| > 1 + |Decode(tail)|
  {
    var e := EncodeChar(c);
    assert (e + tail)[..n] == e[..n] && (e + tail)[n..] == e[n..] + tail;
    CutCharacter(c, n, tail);
  }

  /** Decoding the two halves of an encoded text separately gives the text back if and only if the cut
      is between two characters. */
  lemma {:induction false} DecodeHalves(s: string, n: nat)
    requires n <= |Encode(s)|
    ensures Halves(Encode(s), n) == s <==> AtBoundary(s, n)
  {
    RoundTrip(s);
    if n == 0 {
      assert Encode(s)[..0] == [] && Encode(s)[0..] == Encode(s);
    } else {
      var c, tail := s[0], Encode(s[1..]);
      if n >= |EncodeChar(c)| {
        var m := n - |EncodeChar(c)|;
        HalvesBehind(c, tail, n);
        DecodeHalves(s[1..], m);
        assert ([c] + Halves(tail, m))[1..] == Halves(tail, m) && [c] + s[1..] == s;
      } else {
        HalvesInside(c, tail, n);
        RoundTrip(s[1..]);
      }
    }
  }

  predicate Ascii(s: string) {
    forall i :: 0 <= i < |s| ==> s[i] as int < 0x80
  }

  lemma {:induction false} AsciiBytes(s: string)
    requires Ascii(s)
    ensures |Encode(s)| == |s| && forall n :: 0 <= n <= |s| ==> AtBoundary(s, n)
  {
    if s == [] {
    } else {
      AsciiBytes(s[1..]);
    }
  }

  lemma {:induction false} AsciiValues(s: string, i: nat)
    requires Ascii(s) && i < |s|
    ensures i < |Encode(s)| && Encode(s)[i] as int == s[i] as int
    decreases i
  {
    AsciiBytes(s[1..]);
    if i > 0 {
      AsciiValues(s[1..], i - 1);
    }
  }

  // ---------------------------------------------------------------------------------------------
  // Base64
  // ---------------------------------------------------------------------------------------------

  type sextet = x: int | 0 <= x < 64

  function Letter(x: sextet): char {
    if x < 26 then 'A' + x as char
    else if x < 52 then 'a' + (x - 26) as char
    else if x < 62 then '0' + (x - 52) as char
    else if x == 62 then '+' else '/'
  }

  /** The value of a letter, of the URL-safe alphabet too; -1 for any other character. */
  function LetterValue(c: char): (x: int)
    ensures -1 <= x < 64
  {
    if 'A' <= c <= 'Z' then c as int - 'A' as int
    else if 'a' <= c <= 'z' then c as int - 'a' as int + 26
    else if '0' <= c <= '9' then c as int - '0' as int + 52
    else if c == '+' || c == '-' then 62
    else if c == '/' || c == '_' then 63
    else -1
  }

  function Sextets(b: seq<byte>): seq<sextet> {
    if b == [] then []
    else if |b| == 1 then [b[0] / 4, b[0] % 4 * 16]
    else if |b| == 2 then [b[0] / 4, b[0] % 4 * 16 + b[1] / 16, b[1] % 16 * 4]
    else Quartet(b[0], b[1], b[2]) + Sextets(b[3..])
  }

  function Quartet(x: byte, y: byte, z: byte): (r: seq<sextet>)
    ensures |r| == 4
  {
    [x / 4, x % 4 * 16 + y / 16, y % 16 * 4 + z / 64, z % 64]
  }

  function Letters(xs: seq<sextet>): string {
    if xs == [] then [] else [Letter(xs[0])] + Letters(xs[1..])
  }

  function Padding(b: seq<byte>): string {
    if |b| % 3 == 0 then "" else if |b| % 3 == 1 then "==" else "="
  }

  function ToBase64(b: seq<byte>): string {
    Letters(Sextets(b)) + Padding(b)
  }

  /** Reading skips characters outside the alphabet and ends at padding. */
  function ReadLetters(s: string): seq<sextet> {
    if s == [] || s[0] == '=' then []
    else if LetterValue(s[0]) >= 0 then [LetterValue(s[0])] + ReadLetters(s[1..])
    else ReadLetters(s[1..])
  }

  function FirstByte(a: int, b: int): int { a * 4 + b / 16 }

  function SecondByte(b: int, c: int): int { b % 16 * 16 + c / 4 }

  function ThirdByte(c: int, d: int): int { c % 4 * 64 + d }

  function Assemble(xs: seq<sextet>): seq<byte>
    decreases |xs|
  {
    if |xs| < 2 then []
    else if |xs| == 2 then [FirstByte(xs[0], xs[1])]
    else if |xs| == 3 then [FirstByte(xs[0], xs[1]), SecondByte(xs[1], xs[2])]
    else [FirstByte(xs[0], xs[1]), SecondByte(xs[1], xs[2]), ThirdByte(xs[2], xs[3])] + Assemble(xs[4..])
  }

  function FromBase64(s: string): seq<byte> {
    Assemble(ReadLetters(s))
  }

  lemma {:induction false} ReadWritten(xs: seq<sextet>, padding: string)
    requires padding == [] || padding[0] == '='
    ensures ReadLetters(Letters(xs) + padding) == xs
  {
    if xs == [] {
      assert Letters(xs) + padding == padding;
    } else {
      var s := Letters(xs) + padding;
      assert s[0] == Letter(xs[0]) && s[1..] == Letters(xs[1..]) + padding;
      ReadWritten(xs[1..], padding);
    }
  }

  lemma QuartetBack(x: byte, y: byte, z: byte)
    ensures var q := Quartet(x, y, z);
            FirstByte(q[0], q[1]) == x && SecondByte(q[1], q[2]) == y && ThirdByte(q[2], q[3]) == z
  {
  }

  lemma {:induction false} AssembleSextets(b: seq<byte>)
    ensures Assemble(Sextets(b)) == b
    decreases |b|
  {
    if |b| >= 3 {
      var q, rest := Quartet(b[0], b[1], b[2]), Sextets(b[3..]);
      AssembleSextets(b[3..]);
      QuartetBack(b[0], b[1], b[2]);
      assert (q + rest)[4..] == rest && Assemble(q + rest) == [b[0], b[1], b[2]] + b[3..];
    }
  }

  /** Reading base64 undoes writing it, for every byte sequence. */
  lemma Base64RoundTrip(b: seq<byte>)
    ensures FromBase64(ToBase64(b)) == b
  {
    ReadWritten(Sextets(b), Padding(b));
    AssembleSextets(b);
  }

  lemma {:induction false} LettersLength(xs: seq<sextet>)
    ensures |Letters(xs)| == |xs|
  {
    if xs == [] {
    } else {
      LettersLength(xs[1..]);
    }
  }

  lemma {:induction false} SextetsLength(b: seq<byte>)
    ensures |Sextets(b)| + |Padding(b)| == 4 * ((|b| + 2) / 3)
    decreases |b|
  {
    if |b| >= 3 {
      SextetsLength(b[3..]);
      assert |b[3..]| == |b| - 3 && (|b| + 2) / 3 == (|b| - 3 + 2) / 3 + 1 && (|b| - 3) % 3 == |b| % 3;
    }
  }

  lemma {:induction false} ReadLength(s: string)
    ensures |ReadLetters(s)| <= |s|
  {
    if s == [] {
    } else {
      ReadLength(s[1..]);
    }
  }

  lemma {:induction false} AssembledLength(xs: seq<sextet>)
    ensures |Assemble(xs)| <= |xs|
    decreases |xs|
  {
    if |xs| > 3 {
      AssembledLength(xs[4..]);
    }
  }

  lemma BytesOfText(s: string)
    ensures |FromBase64(s)| <= |s|
  {
    ReadLength(s);
    AssembledLength(ReadLetters(s));
  }

  /** Four letters for every three bytes begun. */
  lemma Base64Length(b: seq<byte>)
    ensures |ToBase64(b)| == 4 * ((|b| + 2) / 3)
  {
    LettersLength(Sextets(b));
    SextetsLength(b);
  }

  /** The URL-safe form of a text, with - for some + and _ for some /, is read as the text is. */
  lemma {:induction false} UrlTextReadsAlike(s: string, t: string)
    requires |t| == |s|
    requires forall i :: 0 <= i < |s| ==> t[i] == s[i] || (s[i] == '+' && t[i] == '-') || (s[i] == '/' && t[i] == '_')
    ensures ReadLetters(t) == ReadLetters(s)
    ensures FromBase64(t) == FromBase64(s)
  {
    if s == [] {
    } else {
      UrlTextReadsAlike(s[1..], t[1..]);
    }
  }

  /** Characters outside the alphabets are skipped. */
  lemma {:induction false} OtherCharactersAreSkipped(a: string, c: char, b: string)
    requires c !in "+/-_=" && (c < 'A' || 'Z' < c) && (c < 'a' || 'z' < c) && (c < '0' || '9' < c)
    ensures ReadLetters(a + [c] + b) == ReadLetters(a + b)
    ensures FromBase64(a + [c] + b) == FromBase64(a + b)
  {
    var s, t := a + [c] + b, a + b;
    if a == [] {
      assert s[0] == c && s[1..] == b && t == b;
    } else {
      assert s[0] == a[0] == t[0] && s[1..] == a[1..] + [c] + b && t[1..] == a[1..] + b;
      OtherCharactersAreSkipped(a[1..], c, b);
    }
  }
}
