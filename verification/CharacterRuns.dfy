/** The password rule: no long run of one character, of ascending characters or of neighbouring keys. */
module CharacterRuns {
  datatype Verdict = Refused | Answer(ok: bool)

  const LETTERS := "qwertyuiopasdfghjklzxcvbnm"

  predicate AllEqual(s: string, i: nat, n: nat)
    requires i + n <= |s|
  {
    forall k :: i <= k < i + n ==> s[k] == s[i]
  }

  predicate AllAscending(s: string, i: nat, n: nat)
    requires i + n <= |s|
  {
    forall k :: i <= k < i + n ==> s[k] as int == s[i] as int + (k - i)
  }

  predicate PartAt(text: string, part: string, k: nat) {
    k + |part| <= |text| && text[k..k + |part|] == part
  }

  predicate Contains(text: string, part: string) {
    exists k :: 0 <= k <= |text| && PartAt(text, part, k)
  }

  /** The part stands somewhere in the text. */
  lemma ContainsExactly(text: string, part: string)
    ensures Contains(text, part) <==> exists before: string, after: string :: text == before + part + after
  {
    if Contains(text, part) {
      var k :| 0 <= k <= |text| && PartAt(text, part, k);
      assert text == text[..k] + part + text[k + |part|..];
    }
    if before: string, after: string :| text == before + part + after {
      assert text[|before|..|before| + |part|] == part;
      assert PartAt(text, part, |before|);
    }
  }

  /** The three rows of letters are looked at as one. */
  lemma KeyboardRows()
    ensures LETTERS == "qwertyuiop" + "asdfghjkl" + "zxcvbnm"
  {
  }

  predicate HasEqualRun(s: string, n: nat) {
    exists i :: 0 <= i <= |s| - n && AllEqual(s, i, n)
  }

  predicate HasAscendingRun(s: string, n: nat) {
    exists i :: 0 <= i <= |s| - n && AllAscending(s, i, n)
  }

  /** Some part of at least n characters lies on the keyboard in this order. */
  predicate HasKeyboardRun(s: string, n: nat) {
    exists i, j :: 0 <= i <= |s| && i + n <= j <= |s| && Contains(LETTERS, s[i..j])
  }

  function Max(a: int, b: int): int {
    if a > b then a else b
  }

  /** Runs of one character are never counted by the first two scans. */
  predicate WithinLimits(s: string, atMostCount: int) {
    && !HasEqualRun(s, Max(atMostCount, 1) + 1)
    && !HasAscendingRun(s, Max(atMostCount, 1) + 1)
    && !HasKeyboardRun(s, Max(atMostCount, 0) + 1)
  }

  method ScanEqual(s: string, atMostCount: int) returns (ok: bool)
    ensures ok <==> !HasEqualRun(s, Max(atMostCount, 1) + 1)
  {
    var maxCount := 0;
    ghost var limit := Max(atMostCount, 1) + 1;
    for i := 0 to |s|
      invariant forall k :: 0 <= k < i && k + limit <= |s| ==> !AllEqual(s, k, limit)
    {
      var character := s[i];
      var count := 1;
      var j := i + 1;
      while j < |s|
        invariant i < j <= |s| && count == j - i && (count == 1 || count <= atMostCount)
        invariant AllEqual(s, i, j - i)
      {
        if s[j] == character {
          count := count + 1;
        } else {
          break;
        }
        if count > maxCount {
          maxCount := count;
        }
        if count > atMostCount {
          assert AllEqual(s, i, limit);
          return false;
        }
        j := j + 1;
      }
      assert i + limit <= |s| ==> i <= j < i + limit && s[j] != s[i];
    }
    ok := true;
  }

  method ScanAscending(s: string, atMostCount: int) returns (ok: bool)
    ensures ok <==> !HasAscendingRun(s, Max(atMostCount, 1) + 1)
  {
    var maxCount := 0;
    ghost var limit := Max(atMostCount, 1) + 1;
    for i := 0 to |s|
      invariant forall k :: 0 <= k < i && k + limit <= |s| ==> !AllAscending(s, k, limit)
    {
      var charCode := s[i] as int;
      var count := 1;
      var j := i + 1;
      while j < |s|
        invariant i < j <= |s| && count == j - i && (count == 1 || count <= atMostCount)
        invariant AllAscending(s, i, j - i) && charCode == s[i] as int + (j - i - 1)
      {
        if s[j] as int == charCode + 1 {
          count := count + 1;
          charCode := charCode + 1;
        } else {
          break;
        }
        if count > maxCount {
          maxCount := count;
        }
        if count > atMostCount {
          assert AllAscending(s, i, limit);
          return false;
        }
        j := j + 1;
      }
      assert i + limit <= |s| ==> i <= j < i + limit && s[j] as int != s[i] as int + (j - i);
    }
    ok := true;
  }

  method ScanKeyboard(s: string, atMostCount: int) returns (ok: bool)
    ensures ok <==> !HasKeyboardRun(s, Max(atMostCount, 0) + 1)
  {
    var maxCount := 0;
    ghost var limit := Max(atMostCount, 0) + 1;
    for i := 0 to |s|
      invariant maxCount == 0 || maxCount <= atMostCount
      invariant forall k, m :: 0 <= k < i && k + limit <= m <= |s| ==> !Contains(LETTERS, s[k..m])
    {
      for j := 1 to |s| - i + 1
        invariant maxCount == 0 || maxCount <= atMostCount
        invariant forall m :: i + limit <= m < i + j ==> !Contains(LETTERS, s[i..m])
      {
        if Contains(LETTERS, s[i..i + j]) {
          if j > maxCount {
            maxCount := j;
            if maxCount > atMostCount {
              return false;
            }
          }
        }
      }
    }
    ok := true;
  }

  /** For any text and any limit up to 26 the answer says exactly whether the lower-cased text keeps
      within the limits; a text of more than 26 characters is always accepted. */
  method HasAtMostRepeatingOrConsecutiveCharacters(str: string, atMostCount: int, lower: string -> string)
    returns (r: Verdict)
    ensures r.Refused? <==> atMostCount > 26
    ensures atMostCount <= 26 ==> r == Answer(Accepted(str, atMostCount, lower))
    ensures atMostCount <= 26 && |str| > 26 ==> r == Answer(true)
    ensures atMostCount <= 26 && |str| <= 26 ==> (r == Answer(true) <==> WithinLimits(lower(str), atMostCount))
  {
    if atMostCount > 26 {
      return Refused;
    }
    if |str| > 26 {
      return Answer(true);
    }
    var s := lower(str);
    var ok := ScanEqual(s, atMostCount);
    if ok { ok := ScanAscending(s, atMostCount); }
    if ok { ok := ScanKeyboard(s, atMostCount); }
    r := Answer(ok);
  }

  /** What the method answers, as a function. */
  predicate Accepted(str: string, atMostCount: int, lower: string -> string) {
    |str| > 26 || WithinLimits(lower(str), atMostCount)
  }

  lemma LongerRuns(s: string, a: nat, b: nat)
    requires a <= b
    ensures HasEqualRun(s, b) ==> HasEqualRun(s, a)
    ensures HasAscendingRun(s, b) ==> HasAscendingRun(s, a)
    ensures HasKeyboardRun(s, b) ==> HasKeyboardRun(s, a)
  {
    if HasEqualRun(s, b) {
      var i :| 0 <= i <= |s| - b && AllEqual(s, i, b);
      assert AllEqual(s, i, a);
    }
    if HasAscendingRun(s, b) {
      var i :| 0 <= i <= |s| - b && AllAscending(s, i, b);
      assert AllAscending(s, i, a);
    }
  }

  /** Raising the limit never refuses what a lower limit accepted. */
  lemma LimitsAreMonotone(s: string, a: int, b: int)
    requires a <= b && WithinLimits(s, a)
    ensures WithinLimits(s, b)
  {
    LongerRuns(s, Max(a, 1) + 1, Max(b, 1) + 1);
    LongerRuns(s, Max(a, 0) + 1, Max(b, 0) + 1);
  }

  /** A long key is not looked at: every encryption key long enough to be used passes the rule. */
  lemma LongTextsPass(key: string, lower: string -> string)
    requires |key| >= 32
    ensures Accepted(key, 3, lower)
  {
  }

  lemma SliceOfSlice(s: string, i: nat, j: nat, k: nat, l: nat)
    requires i <= j <= |s| && k <= l <= j - i
    ensures s[i..j][k..l] == s[i + k..i + l]
  {
    var a, b := s[i..j][k..l], s[i + k..i + l];
    assert |a| == |b|;
    forall x | 0 <= x < l - k ensures a[x] == b[x] {
      assert a[x] == s[i..j][k + x] == s[i + k + x];
    }
  }

  lemma RunsOfParts(s: string, i: nat, j: nat, n: nat)
    requires i <= j <= |s|
    ensures HasEqualRun(s[i..j], n) ==> HasEqualRun(s, n)
    ensures HasAscendingRun(s[i..j], n) ==> HasAscendingRun(s, n)
    ensures HasKeyboardRun(s[i..j], n) ==> HasKeyboardRun(s, n)
  {
    var t := s[i..j];
    if HasEqualRun(t, n) {
      var k :| 0 <= k <= |t| - n && AllEqual(t, k, n);
      forall x | i + k <= x < i + k + n ensures s[x] == s[i + k] { assert t[x - i] == t[k]; }
      assert AllEqual(s, i + k, n);
    }
    if HasAscendingRun(t, n) {
      var k :| 0 <= k <= |t| - n && AllAscending(t, k, n);
      forall x | i + k <= x < i + k + n ensures s[x] as int == s[i + k] as int + (x - (i + k)) {
        assert t[x - i] as int == t[k] as int + (x - i - k);
      }
      assert AllAscending(s, i + k, n);
    }
    if HasKeyboardRun(t, n) {
      var k, l :| 0 <= k && k + n <= l <= |t| && Contains(LETTERS, t[k..l]);
      SliceOfSlice(s, i, j, k, l);
    }
  }

  /** A text is refused as soon as one of its parts is. */
  lemma PartsWithinLimits(s: string, i: nat, j: nat, atMostCount: int)
    requires i <= j <= |s| && WithinLimits(s, atMostCount)
    ensures WithinLimits(s[i..j], atMostCount)
  {
    RunsOfParts(s, i, j, Max(atMostCount, 1) + 1);
    RunsOfParts(s, i, j, Max(atMostCount, 0) + 1);
  }
}
