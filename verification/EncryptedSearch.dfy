/** Which fields are encrypted, which of them with the fixed vector, and equality search on those. */
module EncryptedSearch {
  import opened Common
  import opened Envelope
  import opened Bytes
  import Text
  import CharacterRuns

  /** What the decorators of an entity class say about a property; `NoClass` when no class is given. */
  datatype Annotation = NoClass | Unmarked | MarkedEncrypted | MarkedNotEncrypted

  /** The word lists, and the lower-casing of the platform. */
  datatype NameRules = NameRules(parts: seq<string>, wholes: seq<string>, lower: string -> string)

  predicate Includes(text: string, part: string) {
    CharacterRuns.Contains(text, part)
  }

  predicate ShouldEncryptValue(rules: NameRules, name: string, annotation: Annotation) {
    && !annotation.MarkedNotEncrypted?
    && (Text.EndsWith(name, "Ip") || annotation.MarkedEncrypted?
        || exists i :: 0 <= i < |rules.parts| &&
             (Includes(rules.lower(name), rules.parts[i]) ||
              exists j :: 0 <= j < |rules.wholes| && rules.lower(name) == rules.wholes[j]))
  }

  predicate ShouldUseRandomVector(rules: NameRules, name: string) {
    var lower := rules.lower(name);
    !(lower == "user" || Includes(lower, "username") || Includes(lower, "user_name"))
  }

  /** A field is encrypted if and only if it is not marked otherwise and its name ends in Ip, or it is marked, or
      its lower-cased name contains one of the parts or, where there are parts, is one of the wholes. */
  lemma EncryptedExactly(rules: NameRules, name: string, annotation: Annotation)
    ensures ShouldEncryptValue(rules, name, annotation) <==>
            && annotation != MarkedNotEncrypted
            && (|| annotation == MarkedEncrypted
                || (exists before: string :: name == before + "Ip")
                || (exists part: string, before: string, after: string ::
                      part in rules.parts && rules.lower(name) == before + part + after)
                || (rules.parts != [] && rules.lower(name) in rules.wholes))
  {
    Text.EndsWithExactly(name, "Ip");
    var lower := rules.lower(name);
    forall part: string
      ensures Includes(lower, part) <==> exists before: string, after: string :: lower == before + part + after
    {
      CharacterRuns.ContainsExactly(lower, part);
    }
    if rules.parts != [] && lower in rules.wholes {
      var j :| 0 <= j < |rules.wholes| && rules.wholes[j] == lower;
      assert Includes(lower, rules.parts[0]) || lower == rules.wholes[j];
    }
    if part: string :| part in rules.parts && Includes(lower, part) {
      var i :| 0 <= i < |rules.parts| && rules.parts[i] == part;
      assert Includes(lower, rules.parts[i]);
    }
  }

  /** A field gets the fixed vector if and only if its lower-cased name is user or contains username or user_name. */
  lemma FixedVectorExactly(rules: NameRules, name: string)
    ensures !ShouldUseRandomVector(rules, name) <==>
            || rules.lower(name) == "user"
            || (exists before: string, after: string :: rules.lower(name) == before + "username" + after)
            || (exists before: string, after: string :: rules.lower(name) == before + "user_name" + after)
  {
    CharacterRuns.ContainsExactly(rules.lower(name), "username");
    CharacterRuns.ContainsExactly(rules.lower(name), "user_name");
  }

  /** The lists contain the user-name words. */
  predicate ListsUserNames(rules: NameRules) {
    "username" in rules.parts && "user_name" in rules.parts && "user" in rules.wholes
  }

  /** A field with the fixed vector is encrypted, unless it is marked otherwise. */
  lemma FixedVectorFieldsAreEncrypted(rules: NameRules, name: string, annotation: Annotation)
    requires ListsUserNames(rules) && !ShouldUseRandomVector(rules, name)
    ensures ShouldEncryptValue(rules, name, annotation) <==> !annotation.MarkedNotEncrypted?
  {
    var lower := rules.lower(name);
    var i :| 0 <= i < |rules.parts| && rules.parts[i] == "username";
    var k :| 0 <= k < |rules.parts| && rules.parts[k] == "user_name";
    var j :| 0 <= j < |rules.wholes| && rules.wholes[j] == "user";
    if lower == "user" {
      assert lower == rules.wholes[j];
    } else if Includes(lower, "username") {
      assert Includes(lower, rules.parts[i]);
    } else {
      assert Includes(lower, rules.parts[k]);
    }
  }

  /** A filter value: a text, an array given by its numbers, or a value from which no bytes can be taken. */
  datatype FieldValue = StringValue(s: string) | ArrayValue(numbers: seq<int>) | OtherValue(id: int)

  /** The bytes that are encrypted; every number of an array counts modulo 256. */
  function PlainBytes(v: FieldValue): Option<seq<byte>> {
    match v
    case StringValue(s) => Some(Encode(s))
    case ArrayValue(numbers) => Some(LowBytes(numbers))
    case OtherValue(_) => None
  }

  function LowBytes(numbers: seq<int>): (bytes: seq<byte>)
    ensures |bytes| == |numbers| && forall i :: 0 <= i < |numbers| ==> (numbers[i] - bytes[i] as int) % 256 == 0
  {
    seq(|numbers|, i requires 0 <= i < |numbers| => (numbers[i] % 256) as byte)
  }

  datatype Filled = Value(v: FieldValue) | Throws

  function FilterValue(c: Cipher, cfg: Config, rules: NameRules, name: string, v: FieldValue): Filled {
    if !ShouldUseRandomVector(rules, name) && ShouldEncryptValue(rules, name, NoClass) then
      if PlainBytes(v).None? then Throws
      else
        var e := EncryptBytes(c, cfg, PlainBytes(v).value, None);
        if e.Ok? then Value(StringValue(e.value)) else Throws
    else Value(v)
  }

  /** What saving an entity stores in a scalar string field that is not hashed. */
  function StoredValue(c: Cipher, cfg: Config, rules: NameRules, name: string, annotation: Annotation, s: string,
                       random: seq<byte>): Filled
  {
    if ShouldEncryptValue(rules, name, annotation) then
      var e := Encrypt(c, cfg, s, if ShouldUseRandomVector(rules, name) then Some(random) else None);
      if e.Ok? then Value(StringValue(e.value)) else Throws
    else Value(StringValue(s))
  }

  class MongoDbFilter {
    const subEntityPath: string
    var filterQuery: map<string, FieldValue>

    constructor (subEntityPath: string)
      ensures this.subEntityPath == subEntityPath && filterQuery == map[]
    {
      this.subEntityPath, filterQuery := subEntityPath, map[];
    }

    predicate Holds(name: string, v: Filled)
      reads this
    {
      name in filterQuery && Value(filterQuery[name]) == v
    }

    /** The loop of the constructor over the entries of the given query. */
    method Fill(c: Cipher, cfg: Config, rules: NameRules, query: seq<(string, FieldValue)>) returns (ok: bool)
      requires forall i, j :: 0 <= i < j < |query| ==> query[i].0 != query[j].0
      requires filterQuery == map[]
      modifies this
      ensures ok <==> forall i :: 0 <= i < |query| ==> FilterValue(c, cfg, rules, query[i].0, query[i].1).Value?
      ensures ok ==> filterQuery.Keys == set i | 0 <= i < |query| :: query[i].0
      ensures ok ==> forall i :: 0 <= i < |query| ==>
                Holds(query[i].0, FilterValue(c, cfg, rules, query[i].0, query[i].1))
    {
      for k := 0 to |query|
        invariant filterQuery.Keys == set i | 0 <= i < k :: query[i].0
        invariant forall i :: 0 <= i < k ==> Holds(query[i].0, FilterValue(c, cfg, rules, query[i].0, query[i].1))
      {
        var (fieldName, fieldValue) := query[k];
        var final := FinalValue(c, cfg, rules, fieldName, fieldValue);
        if final.Throws? {
          return false;
        }
        filterQuery := filterQuery[fieldName := final.v];
      }
      ok := true;
    }
  }

  method FinalValue(c: Cipher, cfg: Config, rules: NameRules, fieldName: string, fieldValue: FieldValue)
    returns (r: Filled)
    ensures r == FilterValue(c, cfg, rules, fieldName, fieldValue)
  {
    r := Value(fieldValue);
    if !ShouldUseRandomVector(rules, fieldName) && ShouldEncryptValue(rules, fieldName, NoClass) {
      var plain := PlainBytes(fieldValue);
      if plain.None? {
        return Throws;
      }
      var e := EncryptBytes(c, cfg, plain.value, None);
      r := if e.Ok? then Value(StringValue(e.value)) else Throws;
    }
  }

  /** A filter is refused exactly if it is on an encrypted user-name field and the value has no bytes or
      the key is not usable. */
  lemma RefusedExactly(c: Cipher, cfg: Config, rules: NameRules, name: string, v: FieldValue)
    requires ListsUserNames(rules)
    ensures FilterValue(c, cfg, rules, name, v).Throws? <==>
            !ShouldUseRandomVector(rules, name) && (v.OtherValue? || !UsableKey(cfg))
  {
    if !ShouldUseRandomVector(rules, name) {
      FixedVectorFieldsAreEncrypted(rules, name, NoClass);
      if UsableKey(cfg) {
        FixedIvLength(cfg);
      }
    }
  }

  /** On a user-name field the filter value equals the stored value exactly when its bytes are those of the
      text, so an array of numbers finds the text that it spells. */
  lemma SearchFindsExactlyTheBytes(c: Cipher, cfg: Config, rules: NameRules, name: string, annotation: Annotation,
                                   searched: FieldValue, saved: string, random: seq<byte>)
    requires Lawful(c) && UsableKey(cfg) && ListsUserNames(rules)
    requires !ShouldUseRandomVector(rules, name) && !annotation.MarkedNotEncrypted?
    ensures FilterValue(c, cfg, rules, name, searched) == StoredValue(c, cfg, rules, name, annotation, saved, random)
            <==> PlainBytes(searched) == Some(Encode(saved))
  {
    FixedVectorFieldsAreEncrypted(rules, name, annotation);
    FixedVectorFieldsAreEncrypted(rules, name, NoClass);
    FixedIvLength(cfg);
    if !searched.OtherValue? {
      var iv := FixedIv(cfg.key.value);
      SealBytesIsInjective(c, cfg.key.value, iv, PlainBytes(searched).value, iv, Encode(saved));
    }
  }

  /** On a user-name field the filter value equals the stored value exactly when the texts are equal,
      for all texts, not only ASCII. */
  lemma SearchFindsExactlyTheText(c: Cipher, cfg: Config, rules: NameRules, name: string, annotation: Annotation,
                                  searched: string, saved: string, random: seq<byte>)
    requires Lawful(c) && UsableKey(cfg) && ListsUserNames(rules)
    requires !ShouldUseRandomVector(rules, name) && !annotation.MarkedNotEncrypted?
    ensures FilterValue(c, cfg, rules, name, StringValue(searched)).Value?
    ensures FilterValue(c, cfg, rules, name, StringValue(searched)) ==
            StoredValue(c, cfg, rules, name, annotation, saved, random)
            <==> searched == saved
  {
    SearchFindsExactlyTheBytes(c, cfg, rules, name, annotation, StringValue(searched), saved, random);
    RefusedExactly(c, cfg, rules, name, StringValue(searched));
    RoundTrip(searched);
    RoundTrip(saved);
  }

  /** In any other encrypted field equal texts are stored equal only under equal vectors, and in a field that is
      not encrypted as they are. */
  lemma StoredExactly(c: Cipher, cfg: Config, rules: NameRules, name: string, annotation: Annotation,
                      s: string, random: seq<byte>, s2: string, random2: seq<byte>)
    requires Lawful(c) && UsableKey(cfg) && |random| == 16 && |random2| == 16 && ShouldUseRandomVector(rules, name)
    ensures var stored := StoredValue(c, cfg, rules, name, annotation, s, random);
            var stored2 := StoredValue(c, cfg, rules, name, annotation, s2, random2);
            if ShouldEncryptValue(rules, name, annotation)
            then stored.Value? && (stored == stored2 <==> s == s2 && random == random2)
            else stored == Value(StringValue(s))
  {
    SealIsInjective(c, cfg.key.value, random, s, random2, s2);
  }

  /** A user-name field that is marked as not encrypted is stored in clear but searched for encrypted:
      the search can find a text only if it is the envelope of what is searched for. */
  lemma UnencryptedUserNameIsNotFound(c: Cipher, cfg: Config, rules: NameRules, name: string, text: string,
                                      random: seq<byte>)
    requires Lawful(c) && UsableKey(cfg) && ListsUserNames(rules) && !ShouldUseRandomVector(rules, name)
    ensures FilterValue(c, cfg, rules, name, StringValue(text)) !=
            StoredValue(c, cfg, rules, name, MarkedNotEncrypted, text, random)
  {
    FixedVectorFieldsAreEncrypted(rules, name, NoClass);
    EncryptedLength(c, cfg, text, None);
    ShortEncoding(text);
    assert EnvelopeLength(|Encode(text)|) > |Encode(text)|;
  }
}
