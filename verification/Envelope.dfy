/** Encrypted strings: base64 of an initialization vector followed by a ciphertext.

    The block cipher in CBC mode is a parameter.  It is invertible under one key and vector and pads
    to whole blocks of 16 bytes, always adding at least one byte. */
module Envelope {
  import opened Common
  import opened Bytes
  import CharacterRuns

  datatype CryptError = KeyMissing | KeyTooShort | KeyTooWeak | InvalidKeyLength | InvalidIv | CannotDecrypt

  datatype Result<T> = Ok(value: T) | Err(error: CryptError)

  datatype Cipher = Cipher(
    seal: (seq<byte>, seq<byte>, seq<byte>) -> seq<byte>,
    open: (seq<byte>, seq<byte>, seq<byte>) -> Option<seq<byte>>)

  ghost predicate Lawful(c: Cipher) {
    && (forall key, iv, plain :: |iv| == 16 ==>
          |c.seal(key, iv, plain)| == 16 * (|plain| / 16 + 1) && c.open(key, iv, c.seal(key, iv, plain)) == Some(plain))
    && (forall key, iv, sealed :: c.open(key, iv, sealed).Some? ==> |c.open(key, iv, sealed).value| < |sealed|)
  }

  /** The environment: the key variable, the mode, and the lower-casing of the platform. */
  datatype Config = Config(key: Option<string>, production: bool, lower: string -> string)

  predicate HasCharBetween(s: string, lo: char, hi: char) {
    exists i :: 0 <= i < |s| && lo <= s[i] <= hi
  }

  /** Only encryption in production looks at the characters of the key. */
  function KeyError(cfg: Config, encrypting: bool): Option<CryptError> {
    if cfg.key.None? || cfg.key.value == "" then Some(KeyMissing)
    else if |cfg.key.value| < 32 then Some(KeyTooShort)
    else if encrypting && cfg.production &&
            !(HasCharBetween(cfg.key.value, 'a', 'z') && HasCharBetween(cfg.key.value, 'A', 'Z') &&
              HasCharBetween(cfg.key.value, '0', '9') && CharacterRuns.Accepted(cfg.key.value, 3, cfg.lower))
    then Some(KeyTooWeak)
    else None
  }

  function KeyBytes(key: string): seq<byte> {
    Encode(if |key| < 32 then key else key[..32])
  }

  function FixedIv(key: string): seq<byte> {
    Encode(if |key| < 16 then key else key[..16])
  }

  function SealBytes(c: Cipher, key: string, iv: seq<byte>, plain: seq<byte>): string {
    ToBase64(iv + c.seal(KeyBytes(key), iv, plain))
  }

  function Seal(c: Cipher, key: string, iv: seq<byte>, value: string): string {
    SealBytes(c, key, iv, Encode(value))
  }

  function Encrypt(c: Cipher, cfg: Config, value: string, random: Option<seq<byte>>): Result<string> {
    EncryptBytes(c, cfg, Encode(value), random)
  }

  /** `random` holds the vector when a random one is asked for. */
  function EncryptBytes(c: Cipher, cfg: Config, plain: seq<byte>, random: Option<seq<byte>>): Result<string> {
    var error := KeyError(cfg, true);
    if error.Some? then Err(error.value)
    else
      var key := cfg.key.value;
      var iv := if random.Some? then random.value else FixedIv(key);
      if |KeyBytes(key)| != 32 then Err(InvalidKeyLength)
      else if |iv| != 16 then Err(InvalidIv)
      else Ok(SealBytes(c, key, iv, plain))
  }

  /** The decipher hands out all blocks but the last before it is finished; each of the two pieces is
      converted to text on its own. */
  function Decrypt(c: Cipher, cfg: Config, text: string): Result<string> {
    var error := KeyError(cfg, false);
    if error.Some? then Err(error.value)
    else
      var key := cfg.key.value;
      var bytes := FromBase64(text);
      if |KeyBytes(key)| != 32 then Err(InvalidKeyLength)
      else if |bytes| < 16 then Err(InvalidIv)
      else
        var plain := c.open(KeyBytes(key), bytes[..16], bytes[16..]);
        if plain.None? || |bytes| < 32 || |bytes| - 32 > |plain.value| then Err(CannotDecrypt)
        else Ok(Halves(plain.value, |bytes| - 32))
  }

  /** A key that can be used for encryption; its first 32 characters are 32 bytes. */
  predicate UsableKey(cfg: Config) {
    KeyError(cfg, true).None? && |KeyBytes(cfg.key.value)| == 32
  }

  /** A key can be used if and only if it has at least 32 characters, the first 32 of them are ASCII, and in
      production a small letter, a capital letter and a digit are among all of them.  Whatever its runs, they are
      not looked at. */
  lemma UsableKeyExactly(cfg: Config)
    ensures UsableKey(cfg) <==>
            && cfg.key.Some? && |cfg.key.value| >= 32 && Ascii(cfg.key.value[..32])
            && (cfg.production ==>
                  && (exists c :: c in cfg.key.value && 97 <= c as int <= 122)
                  && (exists c :: c in cfg.key.value && 65 <= c as int <= 90)
                  && (exists c :: c in cfg.key.value && 48 <= c as int <= 57))
  {
    if cfg.key.Some? && |cfg.key.value| >= 32 {
      var key := cfg.key.value;
      ShortEncoding(key[..32]);
      if Ascii(key[..32]) {
        AsciiBytes(key[..32]);
      }
      assert key[..|key|] == key;
      CharBetween(key, 'a', 'z');
      CharBetween(key, 'A', 'Z');
      CharBetween(key, '0', '9');
    }
  }

  lemma CharBetween(s: string, lo: char, hi: char)
    ensures HasCharBetween(s, lo, hi) <==> exists c :: c in s && lo as int <= c as int <= hi as int
  {
    if HasCharBetween(s, lo, hi) {
      var i :| 0 <= i < |s| && lo <= s[i] <= hi;
      assert s[i] in s;
    }
    if c :| c in s && lo as int <= c as int <= hi as int {
      var i :| 0 <= i < |s| && s[i] == c;
      assert lo <= s[i] <= hi;
    }
  }

  lemma {:induction false} ShortEncoding(s: string)
    ensures |Encode(s)| >= |s|
    ensures |Encode(s)| == |s| ==> Ascii(s)
  {
    if s == [] {
    } else {
      ShortEncoding(s[1..]);
    }
  }

  lemma FixedIvLength(cfg: Config)
    requires UsableKey(cfg)
    ensures |FixedIv(cfg.key.value)| == 16
  {
    var key := cfg.key.value;
    ShortEncoding(key[..32]);
    assert forall i :: 0 <= i < 16 ==> key[..16][i] == key[..32][i];
    AsciiBytes(key[..16]);
  }

  predicate GoodVector(random: Option<seq<byte>>) {
    random.Some? ==> |random.value| == 16
  }

  lemma Opens(c: Cipher, key: string, iv: seq<byte>, plain: seq<byte>)
    requires Lawful(c) && |iv| == 16
    ensures var bytes := FromBase64(SealBytes(c, key, iv, plain));
            |bytes| == 32 + 16 * (|plain| / 16) && bytes[..16] == iv &&
            c.open(KeyBytes(key), bytes[..16], bytes[16..]) == Some(plain)
  {
    var sealed := c.seal(KeyBytes(key), iv, plain);
    Base64RoundTrip(iv + sealed);
    assert (iv + sealed)[..16] == iv && (iv + sealed)[16..] == sealed;
  }

  /** Which error an unusable key gives. */
  lemma KeyErrorExactly(c: Cipher, cfg: Config, value: string, random: Option<seq<byte>>)
    ensures cfg.key.None? || cfg.key.value == "" ==> Encrypt(c, cfg, value, random) == Err(KeyMissing)
    ensures cfg.key.Some? && 0 < |cfg.key.value| < 32 ==> Encrypt(c, cfg, value, random) == Err(KeyTooShort)
    ensures cfg.key.Some? && 32 <= |cfg.key.value| && cfg.production ==>
              ((forall ch :: ch in cfg.key.value ==> ch < 'a' || 'z' < ch)
               || (forall ch :: ch in cfg.key.value ==> ch < 'A' || 'Z' < ch)
               || (forall ch :: ch in cfg.key.value ==> ch < '0' || '9' < ch))
              ==> Encrypt(c, cfg, value, random) == Err(KeyTooWeak)
  {
    if cfg.key.Some? {
      CharBetween(cfg.key.value, 'a', 'z');
      CharBetween(cfg.key.value, 'A', 'Z');
      CharBetween(cfg.key.value, '0', '9');
    }
  }

  predicate IsKeyPrefix(bytes: seq<byte>, key: string) {
    |bytes| <= |key| && forall i :: 0 <= i < |bytes| ==> bytes[i] as int == key[i] as int
  }

  /** What is in an envelope: the vector asked for, or the first 16 characters of the key, and what the cipher makes
      of the text's UTF-8 form with the first 32 characters of the key and that vector. */
  lemma EnvelopeExactly(c: Cipher, cfg: Config, value: string, random: Option<seq<byte>>) returns (key: seq<byte>)
    requires Lawful(c) && UsableKey(cfg) && GoodVector(random)
    ensures |key| == 32 && IsKeyPrefix(key, cfg.key.value)
    ensures var e := Encrypt(c, cfg, value, random);
            && e.Ok? && |FromBase64(e.value)| >= 32
            && var iv := FromBase64(e.value)[..16];
               && (if random.Some? then iv == random.value else IsKeyPrefix(iv, cfg.key.value))
               && FromBase64(e.value)[16..] == c.seal(key, iv, Encode(value))
  {
    var text := cfg.key.value;
    key := KeyBytes(text);
    KeyParts(cfg);
    var iv := if random.Some? then random.value else FixedIv(text);
    Opened(iv, c.seal(key, iv, Encode(value)));
  }

  lemma KeyParts(cfg: Config)
    requires UsableKey(cfg)
    ensures IsKeyPrefix(KeyBytes(cfg.key.value), cfg.key.value)
    ensures |FixedIv(cfg.key.value)| == 16 && IsKeyPrefix(FixedIv(cfg.key.value), cfg.key.value)
  {
    var text := cfg.key.value;
    ShortEncoding(text[..32]);
    AsciiPrefix(text, 32);
    AsciiPrefix(text, 16);
  }

  lemma Opened(iv: seq<byte>, sealed: seq<byte>)
    requires |iv| == 16
    ensures var bytes := FromBase64(ToBase64(iv + sealed));
            |bytes| == 16 + |sealed| && bytes[..16] == iv && bytes[16..] == sealed
  {
    Base64RoundTrip(iv + sealed);
  }

  lemma AsciiPrefix(s: string, n: nat)
    requires n <= |s| && n <= 32 <= |s| && Ascii(s[..32])
    ensures |Encode(s[..n])| == n && IsKeyPrefix(Encode(s[..n]), s)
  {
    assert forall i :: 0 <= i < n ==> s[..n][i] == s[..32][i];
    AsciiBytes(s[..n]);
    forall i | 0 <= i < n
      ensures Encode(s[..n])[i] as int == s[i] as int
    {
      AsciiValues(s[..n], i);
    }
  }

  /** Where the decipher cuts the plain text. */
  function CutOffset(value: string): nat {
    16 * (|Encode(value)| / 16)
  }

  /** A key that can be used for decryption. */
  predicate OpeningKey(cfg: Config) {
    KeyError(cfg, false).None? && |KeyBytes(cfg.key.value)| == 32
  }

  lemma DecryptsOpened(c: Cipher, cfg: Config, text: string, plain: seq<byte>)
    requires OpeningKey(cfg) && |FromBase64(text)| >= 32 && |FromBase64(text)| - 32 <= |plain|
    requires c.open(KeyBytes(cfg.key.value), FromBase64(text)[..16], FromBase64(text)[16..]) == Some(plain)
    ensures Decrypt(c, cfg, text) == Ok(Halves(plain, |FromBase64(text)| - 32))
  {
  }

  lemma EncryptsToSeal(c: Cipher, cfg: Config, value: string, random: Option<seq<byte>>) returns (iv: seq<byte>)
    requires UsableKey(cfg) && GoodVector(random)
    ensures |iv| == 16 && Encrypt(c, cfg, value, random) == Ok(Seal(c, cfg.key.value, iv, value))
  {
    FixedIvLength(cfg);
    iv := if random.Some? then random.value else FixedIv(cfg.key.value);
  }

  lemma DecryptsSealed(c: Cipher, cfg: Config, iv: seq<byte>, plain: seq<byte>)
    requires Lawful(c) && OpeningKey(cfg) && |iv| == 16
    ensures Decrypt(c, cfg, SealBytes(c, cfg.key.value, iv, plain)) == Ok(Halves(plain, 16 * (|plain| / 16)))
  {
    Opens(c, cfg.key.value, iv, plain);
    DecryptsOpened(c, cfg, SealBytes(c, cfg.key.value, iv, plain), plain);
  }

  lemma OpeningKeyExactly(cfg: Config)
    ensures OpeningKey(cfg) <==> cfg.key.Some? && |cfg.key.value| >= 32 && Ascii(cfg.key.value[..32])
  {
    if cfg.key.Some? && |cfg.key.value| >= 32 {
      ShortEncoding(cfg.key.value[..32]);
      if Ascii(cfg.key.value[..32]) {
        AsciiBytes(cfg.key.value[..32]);
      }
    }
  }

  /** What was sealed with a key can be decrypted, in production too, if and only if the key has 32 characters of
      which the first 32 are ASCII. */
  lemma WeakKeysDecrypt(c: Cipher, cfg: Config, iv: seq<byte>, plain: seq<byte>)
    requires Lawful(c) && |iv| == 16 && cfg.key.Some?
    ensures Decrypt(c, cfg, SealBytes(c, cfg.key.value, iv, plain)).Ok? <==>
            |cfg.key.value| >= 32 && Ascii(cfg.key.value[..32])
  {
    OpeningKeyExactly(cfg);
    if OpeningKey(cfg) {
      DecryptsSealed(c, cfg, iv, plain);
    }
  }

  lemma DecryptsHalves(c: Cipher, cfg: Config, value: string, random: Option<seq<byte>>)
    requires Lawful(c) && UsableKey(cfg) && GoodVector(random)
    ensures var e := Encrypt(c, cfg, value, random);
            e.Ok? && Decrypt(c, cfg, e.value) == Ok(Halves(Encode(value), CutOffset(value)))
  {
    var iv := EncryptsToSeal(c, cfg, value, random);
    DecryptsSealed(c, cfg, iv, Encode(value));
  }

  /** What is decrypted is shorter than the text it is decrypted from, whatever that text is. */
  lemma DecryptShortens(c: Cipher, cfg: Config, text: string)
    requires Lawful(c) && Decrypt(c, cfg, text).Ok?
    ensures |Decrypt(c, cfg, text).value| < |text|
  {
    var bytes := FromBase64(text);
    var plain := c.open(KeyBytes(cfg.key.value), bytes[..16], bytes[16..]).value;
    BytesOfText(text);
    DecodeLength(plain[..|bytes| - 32]);
    DecodeLength(plain[|bytes| - 32..]);
  }

  /** Decrypting what was encrypted gives the text back if and only if no character of its UTF-8 form
      lies across the last multiple of 16 bytes. */
  lemma DecryptEncrypt(c: Cipher, cfg: Config, value: string, random: Option<seq<byte>>)
    requires Lawful(c) && UsableKey(cfg) && GoodVector(random)
    ensures var e := Encrypt(c, cfg, value, random);
            e.Ok? && Decrypt(c, cfg, e.value).Ok? &&
            (Decrypt(c, cfg, e.value) == Ok(value) <==> AtBoundary(value, CutOffset(value)))
  {
    DecryptsHalves(c, cfg, value, random);
    DecodeHalves(value, CutOffset(value));
  }

  /** In particular for every ASCII text. */
  lemma AsciiSurvives(c: Cipher, cfg: Config, value: string, random: Option<seq<byte>>)
    requires Lawful(c) && UsableKey(cfg) && GoodVector(random) && Ascii(value)
    ensures var e := Encrypt(c, cfg, value, random); e.Ok? && Decrypt(c, cfg, e.value) == Ok(value)
  {
    AsciiBytes(value);
    DecryptEncrypt(c, cfg, value, random);
  }

  const ACCENTED := "aaaaaaaaaaaaaaa" + "\U{00E9}"

  lemma AccentedIsCut()
    ensures CutOffset(ACCENTED) == 16 && !AtBoundary(ACCENTED, 16)
  {
    var head := "aaaaaaaaaaaaaaa";
    assert forall i :: 0 <= i < |head| ==> head[i] == 'a';
    AccentedBytes();
    CutBehindAscii(head, "\U{00E9}");
  }

  lemma CutBehindAscii(head: string, last: string)
    requires Ascii(head) && |head| == 15 && |Encode(last)| == 2 && !AtBoundary(last, 1)
    ensures CutOffset(head + last) == 16 && !AtBoundary(head + last, 16)
  {
    AsciiBytes(head);
    EncodeAppend(head, last);
    BoundaryBehind(head, last, 16);
  }

  lemma AccentedBytes()
    ensures Encode("\U{00E9}") == [0xC3, 0xA9] && !AtBoundary("\U{00E9}", 1)
  {
    var last := "\U{00E9}";
    assert last[1..] == "" && EncodeChar(last[0]) == [0xC3, 0xA9];
    assert Encode("") == [];
  }

  /** Fifteen letters and an accented one are damaged. */
  lemma AccentedTextIsDamaged(c: Cipher, cfg: Config, random: Option<seq<byte>>)
    requires Lawful(c) && UsableKey(cfg) && GoodVector(random)
    ensures var e := Encrypt(c, cfg, ACCENTED, random);
            e.Ok? && Decrypt(c, cfg, e.value).Ok? && Decrypt(c, cfg, e.value) != Ok(ACCENTED)
  {
    AccentedIsCut();
    DecryptEncrypt(c, cfg, ACCENTED, random);
  }

  lemma {:induction false} EncodeAppend(a: string, b: string)
    ensures Encode(a + b) == Encode(a) + Encode(b)
  {
    if a == [] {
      assert a + b == b;
    } else {
      assert (a + b)[0] == a[0] && (a + b)[1..] == a[1..] + b;
      EncodeAppend(a[1..], b);
      ConcatAssociates(EncodeChar(a[0]), Encode(a[1..]), Encode(b));
    }
  }

  lemma {:induction false} BoundaryBehind(a: string, b: string, n: nat)
    requires Ascii(a) && |a| < n
    ensures AtBoundary(a + b, n) <==> AtBoundary(b, n - |a|)
  {
    if a == [] {
      assert a + b == b;
    } else {
      assert (a + b)[0] == a[0] && (a + b)[1..] == a[1..] + b;
      BoundaryBehind(a[1..], b, n - 1);
    }
  }

  lemma SealBytesIsInjective(c: Cipher, key: string, iv1: seq<byte>, plain1: seq<byte>, iv2: seq<byte>,
                             plain2: seq<byte>)
    requires Lawful(c) && |iv1| == 16 && |iv2| == 16
    ensures SealBytes(c, key, iv1, plain1) == SealBytes(c, key, iv2, plain2) <==> iv1 == iv2 && plain1 == plain2
  {
    Opens(c, key, iv1, plain1);
    Opens(c, key, iv2, plain2);
  }

  /** Envelopes are equal exactly when vector and text are. */
  lemma SealIsInjective(c: Cipher, key: string, iv1: seq<byte>, value1: string, iv2: seq<byte>, value2: string)
    requires Lawful(c) && |iv1| == 16 && |iv2| == 16
    ensures Seal(c, key, iv1, value1) == Seal(c, key, iv2, value2) <==> iv1 == iv2 && value1 == value2
  {
    SealBytesIsInjective(c, key, iv1, Encode(value1), iv2, Encode(value2));
    RoundTrip(value1);
    RoundTrip(value2);
  }

  // ---------------------------------------------------------------------------------------------
  // Length of the stored column
  // ---------------------------------------------------------------------------------------------

  function EnvelopeLength(n: nat): nat {
    4 * ((16 + 16 * (n / 16 + 1) + 2) / 3)
  }

  lemma EncryptedLength(c: Cipher, cfg: Config, value: string, random: Option<seq<byte>>)
    requires Lawful(c) && UsableKey(cfg) && GoodVector(random)
    ensures var e := Encrypt(c, cfg, value, random); e.Ok? && |e.value| == EnvelopeLength(|Encode(value)|)
  {
    FixedIvLength(cfg);
    var iv := if random.Some? then random.value else FixedIv(cfg.key.value);
    Base64Length(iv + c.seal(KeyBytes(cfg.key.value), iv, Encode(value)));
  }

  function Ones(n: nat): string {
    if n == 0 then [] else "1" + Ones(n - 1)
  }

  /** The column length is found by encrypting a text of the declared length. */
  function CalculateMaxLength(c: Cipher, cfg: Config, shouldEncrypt: bool, dataLength: nat,
                              random: seq<byte>): Result<nat>
  {
    if !shouldEncrypt then Ok(dataLength)
    else
      var e := Encrypt(c, cfg, Ones(dataLength), Some(random));
      if e.Ok? then Ok(|e.value|) else Err(e.error)
  }

  lemma {:induction false} OnesAreAscii(n: nat)
    ensures |Ones(n)| == n && Ascii(Ones(n))
  {
    if n == 0 {
    } else {
      OnesAreAscii(n - 1);
    }
  }

  lemma EnvelopeLengthMonotone(m: nat, n: nat)
    ensures EnvelopeLength(m) <= EnvelopeLength(n) <==> m / 16 <= n / 16
  {
  }

  /** The column length is the closed formula, and a text fits exactly when its UTF-8 form fills no
      more whole blocks than the declared length does. */
  lemma FitsColumn(c: Cipher, cfg: Config, value: string, n: nat, random: Option<seq<byte>>, random2: seq<byte>)
    requires Lawful(c) && UsableKey(cfg) && GoodVector(random) && |random2| == 16
    ensures var e := Encrypt(c, cfg, value, random); var max := CalculateMaxLength(c, cfg, true, n, random2);
            e.Ok? && max == Ok(EnvelopeLength(n)) && CalculateMaxLength(c, cfg, false, n, random2) == Ok(n) &&
            (|e.value| <= max.value <==> |Encode(value)| / 16 <= n / 16)
  {
    OnesAreAscii(n);
    AsciiBytes(Ones(n));
    EncryptedLength(c, cfg, Ones(n), Some(random2));
    EncryptedLength(c, cfg, value, random);
    EnvelopeLengthMonotone(|Encode(value)|, n);
  }

  /** So every ASCII text within the declared length fits. */
  lemma AsciiFitsColumn(c: Cipher, cfg: Config, value: string, n: nat, random: Option<seq<byte>>)
    requires Lawful(c) && UsableKey(cfg) && GoodVector(random) && Ascii(value) && |value| <= n
    ensures var e := Encrypt(c, cfg, value, random); e.Ok? && |e.value| <= EnvelopeLength(n)
  {
    AsciiBytes(value);
    EncryptedLength(c, cfg, value, random);
    EnvelopeLengthMonotone(|value|, n);
  }
}
