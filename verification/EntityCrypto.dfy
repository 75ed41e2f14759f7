/** The walk that hashes and encrypts the fields of an entity in place, and the walk that decrypts them. */
module EntityCrypto {
  import opened Common
  import opened EntityObjects
  import opened Envelope
  import opened Bytes

  /** What the walks look up: cipher and key, the treatment of a property of a class, and the entity
      class a property is declared with.  A property without a declared type is not in `types`. */
  datatype Rules = Rules(
    c: Cipher, cfg: Config,
    hashed: (string, string) -> bool, encrypted: (string, string) -> bool, randomVector: string -> bool,
    manyToMany: (string, string) -> bool, opensManyToMany: bool,
    types: map<(string, string), string>)

  predicate Typed(k: Rules, cls: string, name: string) {
    (cls, name) in k.types
  }

  function ClassOf(k: Rules, cls: string, name: string): string {
    if Typed(k, cls, name) then k.types[(cls, name)] else ""
  }

  // ---------------------------------------------------------------------------------------------
  // Hashing and encrypting: when it throws, and what it may leave behind
  // ---------------------------------------------------------------------------------------------

  predicate EncryptableString(k: Rules, cls: string, name: string) {
    k.hashed(cls, name) || (k.encrypted(cls, name) ==> UsableKey(k.cfg))
  }

  predicate EncryptableLeaf(k: Rules, cls: string, name: string, v: Scalar) {
    match v
    case Null => true
    case Str(_) => EncryptableString(k, cls, name)
    case ObjectId(_) => !k.encrypted(cls, name)
    case _ => !k.hashed(cls, name) && !k.encrypted(cls, name)
  }

  predicate EncryptableItem(k: Rules, cls: string, name: string, v: Item) {
    match v
    case NullItem => true
    case StrItem(_) => EncryptableString(k, cls, name)
    case NumItem(_) => !k.hashed(cls, name) && !k.encrypted(cls, name)
  }

  /** Nothing on the walk throws.  An empty array is looked at as an object without properties. */
  ghost predicate Encryptable(k: Rules, cls: string, t: Tree)
    decreases t
  {
    forall p :: 0 <= p < |t.props| ==> EncryptableValue(k, cls, t.props[p].name, t.props[p].value)
  }

  ghost predicate EncryptableValue(k: Rules, cls: string, name: string, v: TreeValue)
    decreases v
  {
    match v
    case TreeLeaf(s) => EncryptableLeaf(k, cls, name, s)
    case TreeOne(t) => Typed(k, cls, name) && Encryptable(k, ClassOf(k, cls, name), t)
    case TreeMany(ts) =>
      Typed(k, cls, name) && forall i :: 0 <= i < |ts| ==> Encryptable(k, ClassOf(k, cls, name), ts[i])
    case TreeItems(items) =>
      && (items == [] ==> Typed(k, cls, name))
      && forall i :: 0 <= i < |items| ==> EncryptableItem(k, cls, name, items[i])
  }

  ghost predicate SealedString(k: Rules, random: bool, s: string, e: string) {
    if random then exists iv: seq<byte> :: |iv| == 16 && Encrypt(k.c, k.cfg, s, Some(iv)) == Ok(e)
    else Encrypt(k.c, k.cfg, s, None) == Ok(e)
  }

  /** A hash can be any text. */
  ghost predicate SealedLeaf(k: Rules, cls: string, name: string, v: Scalar, w: Scalar) {
    if v.Str? && k.hashed(cls, name) then w.Str?
    else if v.Str? && k.encrypted(cls, name) then w.Str? && SealedString(k, k.randomVector(name), v.s, w.s)
    else w == v
  }

  /** The elements of an array always get random vectors. */
  ghost predicate SealedItem(k: Rules, cls: string, name: string, v: Item, w: Item) {
    if v.StrItem? && k.hashed(cls, name) then w.StrItem?
    else if v.StrItem? && k.encrypted(cls, name) then w.StrItem? && SealedString(k, true, v.s, w.s)
    else w == v
  }

  /** `u` is what the walk can leave behind of `t`: the same objects, with fields replaced. */
  ghost predicate Sealed(k: Rules, cls: string, t: Tree, u: Tree)
    decreases t
  {
    && u.self == t.self && |u.props| == |t.props|
    && forall p :: 0 <= p < |t.props| ==>
         u.props[p].name == t.props[p].name && SealedValue(k, cls, t.props[p].name, t.props[p].value, u.props[p].value)
  }

  ghost predicate SealedValue(k: Rules, cls: string, name: string, v: TreeValue, w: TreeValue)
    decreases v
  {
    match v
    case TreeLeaf(s) => w.TreeLeaf? && SealedLeaf(k, cls, name, s, w.v)
    case TreeOne(t) => w.TreeOne? && Sealed(k, ClassOf(k, cls, name), t, w.t)
    case TreeMany(ts) =>
      w.TreeMany? && |w.ts| == |ts| && forall i :: 0 <= i < |ts| ==> Sealed(k, ClassOf(k, cls, name), ts[i], w.ts[i])
    case TreeItems(items) =>
      && w.TreeItems? && |w.items| == |items|
      && forall i :: 0 <= i < |items| ==> SealedItem(k, cls, name, items[i], w.items[i])
  }

  // ---------------------------------------------------------------------------------------------
  // Decrypting
  // ---------------------------------------------------------------------------------------------

  predicate OpenableString(k: Rules, s: string) {
    Decrypt(k.c, k.cfg, s).Ok?
  }

  function OpenString(k: Rules, s: string): string {
    var d := Decrypt(k.c, k.cfg, s);
    if d.Ok? then d.value else s
  }

  /** The walk goes into the objects of an array. */
  predicate EntersMany(k: Rules, cls: string, name: string) {
    (!k.manyToMany(cls, name) || k.opensManyToMany) && Typed(k, cls, name)
  }

  predicate EntersOne(k: Rules, cls: string, name: string) {
    name != "_id" && Typed(k, cls, name)
  }

  /** An object identifier is taken for an object without properties, except under the name `_id`. */
  predicate OpenableLeaf(k: Rules, cls: string, name: string, v: Scalar) {
    match v
    case Null => true
    case Undefined => true
    case ObjectId(_) => name == "_id" ==> !k.encrypted(cls, name)
    case Str(s) => k.encrypted(cls, name) ==> OpenableString(k, s)
    case _ => !k.encrypted(cls, name)
  }

  /** Nothing on the walk throws. */
  ghost predicate Openable(k: Rules, cls: string, t: Tree)
    decreases t
  {
    forall p :: 0 <= p < |t.props| ==> OpenableValue(k, cls, t.props[p].name, t.props[p].value)
  }

  ghost predicate OpenableValue(k: Rules, cls: string, name: string, v: TreeValue)
    decreases v
  {
    match v
    case TreeLeaf(s) => OpenableLeaf(k, cls, name, s)
    case TreeOne(t) =>
      && (name == "_id" ==> !k.encrypted(cls, name))
      && (EntersOne(k, cls, name) ==> Openable(k, ClassOf(k, cls, name), t))
    case TreeMany(ts) =>
      if ts == [] then name == "_id" ==> !k.encrypted(cls, name)
      else EntersMany(k, cls, name) ==> forall i :: 0 <= i < |ts| ==> Openable(k, ClassOf(k, cls, name), ts[i])
    case TreeItems(items) =>
      if items == [] then name == "_id" ==> !k.encrypted(cls, name)
      else k.encrypted(cls, name) ==>
             forall i :: 0 <= i < |items| ==> items[i].StrItem? && OpenableString(k, items[i].s)
  }

  function OpenLeaf(k: Rules, cls: string, name: string, v: Scalar): Scalar {
    if v.Str? && k.encrypted(cls, name) then Str(OpenString(k, v.s)) else v
  }

  function OpenItem(k: Rules, cls: string, name: string, v: Item): Item {
    if v.StrItem? && k.encrypted(cls, name) then StrItem(OpenString(k, v.s)) else v
  }

  function OpenItems(k: Rules, cls: string, name: string, items: seq<Item>): (r: seq<Item>)
    ensures |r| == |items| && forall i :: 0 <= i < |items| ==> r[i] == OpenItem(k, cls, name, items[i])
  {
    seq(|items|, i requires 0 <= i < |items| => OpenItem(k, cls, name, items[i]))
  }

  /** What the walk leaves behind. */
  function OpenTree(k: Rules, cls: string, t: Tree): (u: Tree)
    ensures u.self == t.self && |u.props| == |t.props|
    ensures forall p :: 0 <= p < |t.props| ==>
              u.props[p] == TreeProp(t.props[p].name, OpenValue(k, cls, t.props[p].name, t.props[p].value))
    decreases t
  {
    Tree(t.self, seq(|t.props|, p requires 0 <= p < |t.props| =>
      TreeProp(t.props[p].name, OpenValue(k, cls, t.props[p].name, t.props[p].value))))
  }

  function OpenValue(k: Rules, cls: string, name: string, v: TreeValue): TreeValue
    decreases v
  {
    match v
    case TreeLeaf(s) => TreeLeaf(OpenLeaf(k, cls, name, s))
    case TreeOne(t) => if EntersOne(k, cls, name) then TreeOne(OpenTree(k, ClassOf(k, cls, name), t)) else v
    case TreeMany(ts) => if EntersMany(k, cls, name) then TreeMany(OpenTrees(k, ClassOf(k, cls, name), ts)) else v
    case TreeItems(items) => TreeItems(OpenItems(k, cls, name, items))
  }

  function OpenTrees(k: Rules, cls: string, ts: seq<Tree>): (us: seq<Tree>)
    ensures |us| == |ts| && forall i :: 0 <= i < |ts| ==> us[i] == OpenTree(k, cls, ts[i])
    decreases ts
  {
    seq(|ts|, i requires 0 <= i < |ts| => OpenTree(k, cls, ts[i]))
  }

  // ---------------------------------------------------------------------------------------------
  // Decrypting undoes encrypting
  // ---------------------------------------------------------------------------------------------

  /** No field is both hashed and encrypted, encrypted arrays hold no null, many-to-many arrays are
      opened, and `_id` is no object. */
  ghost predicate Clean(k: Rules, cls: string, t: Tree)
    decreases t
  {
    forall p :: 0 <= p < |t.props| ==> CleanValue(k, cls, t.props[p].name, t.props[p].value)
  }

  ghost predicate CleanValue(k: Rules, cls: string, name: string, v: TreeValue)
    decreases v
  {
    match v
    case TreeLeaf(s) => s.Str? ==> !(k.hashed(cls, name) && k.encrypted(cls, name))
    case TreeOne(t) => name != "_id" && Clean(k, ClassOf(k, cls, name), t)
    case TreeMany(ts) =>
      && (if ts == [] then name == "_id" ==> !k.encrypted(cls, name) else k.manyToMany(cls, name) ==> k.opensManyToMany)
      && forall i :: 0 <= i < |ts| ==> Clean(k, ClassOf(k, cls, name), ts[i])
    case TreeItems(items) =>
      && (if items == [] then name == "_id" ==> !k.encrypted(cls, name)
          else !(k.hashed(cls, name) && k.encrypted(cls, name)))
      && forall i :: 0 <= i < |items| ==> k.encrypted(cls, name) ==> !items[i].NullItem?
  }

  predicate SealsText(k: Rules, cls: string, name: string) {
    !k.hashed(cls, name) && k.encrypted(cls, name)
  }

  predicate AlignedText(s: string) {
    AtBoundary(s, CutOffset(s))
  }

  /** No encrypted text has a character across the last multiple of 16 bytes. */
  ghost predicate Aligned(k: Rules, cls: string, t: Tree)
    decreases t
  {
    forall p :: 0 <= p < |t.props| ==> AlignedValue(k, cls, t.props[p].name, t.props[p].value)
  }

  ghost predicate AlignedValue(k: Rules, cls: string, name: string, v: TreeValue)
    decreases v
  {
    match v
    case TreeLeaf(s) => s.Str? && SealsText(k, cls, name) ==> AlignedText(s.s)
    case TreeOne(t) => Aligned(k, ClassOf(k, cls, name), t)
    case TreeMany(ts) => forall i :: 0 <= i < |ts| ==> Aligned(k, ClassOf(k, cls, name), ts[i])
    case TreeItems(items) =>
      forall i :: 0 <= i < |items| ==> items[i].StrItem? && SealsText(k, cls, name) ==> AlignedText(items[i].s)
  }

  /** The same objects with the same values, but for the texts of hashed fields. */
  ghost predicate SameExceptHashed(k: Rules, cls: string, t: Tree, u: Tree)
    decreases t
  {
    && u.self == t.self && |u.props| == |t.props|
    && forall p :: 0 <= p < |t.props| ==>
         u.props[p].name == t.props[p].name && SameValue(k, cls, t.props[p].name, t.props[p].value, u.props[p].value)
  }

  ghost predicate SameValue(k: Rules, cls: string, name: string, v: TreeValue, w: TreeValue)
    decreases v
  {
    match v
    case TreeLeaf(s) => w.TreeLeaf? && if s.Str? && k.hashed(cls, name) then w.v.Str? else w.v == s
    case TreeOne(t) => w.TreeOne? && SameExceptHashed(k, ClassOf(k, cls, name), t, w.t)
    case TreeMany(ts) =>
      && w.TreeMany? && |w.ts| == |ts|
      && forall i :: 0 <= i < |ts| ==> SameExceptHashed(k, ClassOf(k, cls, name), ts[i], w.ts[i])
    case TreeItems(items) =>
      && w.TreeItems? && |w.items| == |items|
      && forall i :: 0 <= i < |items| ==>
           if items[i].StrItem? && k.hashed(cls, name) then w.items[i].StrItem? else w.items[i] == items[i]
  }

  lemma OpenSealedString(k: Rules, random: bool, s: string, e: string)
    requires Lawful(k.c) && UsableKey(k.cfg) && SealedString(k, random, s, e)
    ensures OpenableString(k, e)
    ensures OpenString(k, e) == s <==> AlignedText(s)
  {
    if random {
      var iv: seq<byte> :| |iv| == 16 && Encrypt(k.c, k.cfg, s, Some(iv)) == Ok(e);
      DecryptEncrypt(k.c, k.cfg, s, Some(iv));
    } else {
      DecryptEncrypt(k.c, k.cfg, s, None);
    }
  }

  lemma OpenSealedLeaf(k: Rules, cls: string, name: string, v: Scalar, w: Scalar)
    requires Lawful(k.c) && EncryptableLeaf(k, cls, name, v) && CleanValue(k, cls, name, TreeLeaf(v))
    requires SealedLeaf(k, cls, name, v, w)
    ensures OpenableLeaf(k, cls, name, w)
    ensures SameValue(k, cls, name, TreeLeaf(v), TreeLeaf(OpenLeaf(k, cls, name, w))) <==>
            AlignedValue(k, cls, name, TreeLeaf(v))
  {
    if v.Str? && SealsText(k, cls, name) {
      OpenSealedString(k, k.randomVector(name), v.s, w.s);
    }
  }

  lemma OpenSealedItem(k: Rules, cls: string, name: string, v: Item, w: Item)
    requires Lawful(k.c) && EncryptableItem(k, cls, name, v) && SealedItem(k, cls, name, v, w)
    requires !(k.hashed(cls, name) && k.encrypted(cls, name)) && (k.encrypted(cls, name) ==> !v.NullItem?)
    ensures k.encrypted(cls, name) ==> w.StrItem? && OpenableString(k, w.s)
    ensures var o := OpenItem(k, cls, name, w);
            (if v.StrItem? && k.hashed(cls, name) then o.StrItem? else o == v)
            <==> (v.StrItem? && SealsText(k, cls, name) ==> AlignedText(v.s))
  {
    if v.StrItem? && SealsText(k, cls, name) {
      OpenSealedString(k, true, v.s, w.s);
    }
  }

  /** Decrypting an encrypted entity never fails, and it restores every field that is not hashed if and
      only if no encrypted text has a character across the last multiple of 16 bytes. */
  lemma {:induction false} OpenSealed(k: Rules, cls: string, t: Tree, u: Tree)
    requires Lawful(k.c) && Clean(k, cls, t) && Encryptable(k, cls, t) && Sealed(k, cls, t, u)
    ensures Openable(k, cls, u)
    ensures SameExceptHashed(k, cls, t, OpenTree(k, cls, u)) <==> Aligned(k, cls, t)
    decreases t
  {
    forall p | 0 <= p < |t.props|
      ensures OpenableValue(k, cls, t.props[p].name, u.props[p].value)
      ensures SameValue(k, cls, t.props[p].name, t.props[p].value, OpenValue(k, cls, t.props[p].name, u.props[p].value))
              <==> AlignedValue(k, cls, t.props[p].name, t.props[p].value)
    {
      OpenSealedValue(k, cls, t.props[p].name, t.props[p].value, u.props[p].value);
    }
  }

  lemma {:induction false} OpenSealedValue(k: Rules, cls: string, name: string, v: TreeValue, w: TreeValue)
    requires Lawful(k.c) && CleanValue(k, cls, name, v)
    requires EncryptableValue(k, cls, name, v) && SealedValue(k, cls, name, v, w)
    ensures OpenableValue(k, cls, name, w)
    ensures SameValue(k, cls, name, v, OpenValue(k, cls, name, w)) <==> AlignedValue(k, cls, name, v)
    decreases v
  {
    match v
    case TreeLeaf(s) => OpenSealedLeaf(k, cls, name, s, w.v);
    case TreeOne(t) => OpenSealed(k, ClassOf(k, cls, name), t, w.t);
    case TreeMany(ts) =>
      forall i | 0 <= i < |ts|
        ensures Openable(k, ClassOf(k, cls, name), w.ts[i])
        ensures SameExceptHashed(k, ClassOf(k, cls, name), ts[i], OpenTree(k, ClassOf(k, cls, name), w.ts[i]))
                <==> Aligned(k, ClassOf(k, cls, name), ts[i])
      {
        OpenSealed(k, ClassOf(k, cls, name), ts[i], w.ts[i]);
      }
      if ts == [] {
        assert w.ts == [];
      }
    case TreeItems(items) =>
      forall i | 0 <= i < |items|
        ensures k.encrypted(cls, name) ==> w.items[i].StrItem? && OpenableString(k, w.items[i].s)
        ensures var o := OpenItem(k, cls, name, w.items[i]);
                (if items[i].StrItem? && k.hashed(cls, name) then o.StrItem? else o == items[i])
                <==> (items[i].StrItem? && SealsText(k, cls, name) ==> AlignedText(items[i].s))
      {
        OpenSealedItem(k, cls, name, items[i], w.items[i]);
      }
  }

  /** When an entity is read back, the hash of a field is still there if and only if the field is not
      encrypted as well; the hash of a field that is both is taken for an encrypted text, which makes
      reading throw or puts a shorter text in its place. */
  lemma HashSurvivesReading(k: Rules, cls: string, t: Tree, u: Tree, p: nat)
    requires Lawful(k.c) && Sealed(k, cls, t, u) && Openable(k, cls, u)
    requires p < |t.props| && t.props[p].value.TreeLeaf? && t.props[p].value.v.Str? && k.hashed(cls, t.props[p].name)
    ensures OpenTree(k, cls, u).props[p] == u.props[p] <==> !k.encrypted(cls, t.props[p].name)
  {
    var name, v, w := t.props[p].name, t.props[p].value, u.props[p].value;
    assert SealedValue(k, cls, name, v, w) && OpenableValue(k, cls, name, w);
    if k.encrypted(cls, name) {
      DecryptShortens(k.c, k.cfg, w.v.s);
    }
  }

  /** No text is in a field that is both hashed and encrypted. */
  ghost predicate OneTreatment(k: Rules, cls: string, t: Tree)
    decreases t
  {
    forall p :: 0 <= p < |t.props| ==> OneTreatmentOfValue(k, cls, t.props[p].name, t.props[p].value)
  }

  ghost predicate OneTreatmentOfValue(k: Rules, cls: string, name: string, v: TreeValue)
    decreases v
  {
    match v
    case TreeLeaf(s) => s.Str? ==> !(k.hashed(cls, name) && k.encrypted(cls, name))
    case TreeOne(t) => OneTreatment(k, ClassOf(k, cls, name), t)
    case TreeMany(ts) => forall i :: 0 <= i < |ts| ==> OneTreatment(k, ClassOf(k, cls, name), ts[i])
    case TreeItems(items) => items != [] ==> !(k.hashed(cls, name) && k.encrypted(cls, name))
  }

  /** Where the decrypting walk goes, no encrypted array holds a null and no object or empty array is the
      value of an encrypted `_id`. */
  ghost predicate Readable(k: Rules, cls: string, t: Tree)
    decreases t
  {
    forall p :: 0 <= p < |t.props| ==> ReadableValue(k, cls, t.props[p].name, t.props[p].value)
  }

  predicate EncryptedId(k: Rules, cls: string, name: string) {
    name == "_id" && k.encrypted(cls, name)
  }

  ghost predicate ReadableValue(k: Rules, cls: string, name: string, v: TreeValue)
    decreases v
  {
    match v
    case TreeLeaf(_) => true
    case TreeOne(t) => !EncryptedId(k, cls, name) && (EntersOne(k, cls, name) ==> Readable(k, ClassOf(k, cls, name), t))
    case TreeMany(ts) =>
      if ts == [] then !EncryptedId(k, cls, name)
      else EntersMany(k, cls, name) ==> forall i :: 0 <= i < |ts| ==> Readable(k, ClassOf(k, cls, name), ts[i])
    case TreeItems(items) =>
      if items == [] then !EncryptedId(k, cls, name)
      else k.encrypted(cls, name) ==> NullItem !in items
  }

  /** What decryption is proved to restore meets these conditions. */
  lemma {:induction false} CleanIsReadable(k: Rules, cls: string, t: Tree)
    requires Clean(k, cls, t)
    ensures OneTreatment(k, cls, t) && Readable(k, cls, t)
    decreases t
  {
    forall p | 0 <= p < |t.props|
      ensures OneTreatmentOfValue(k, cls, t.props[p].name, t.props[p].value)
      ensures ReadableValue(k, cls, t.props[p].name, t.props[p].value)
    {
      CleanValueIsReadable(k, cls, t.props[p].name, t.props[p].value);
    }
  }

  lemma {:induction false} CleanValueIsReadable(k: Rules, cls: string, name: string, v: TreeValue)
    requires CleanValue(k, cls, name, v)
    ensures OneTreatmentOfValue(k, cls, name, v) && ReadableValue(k, cls, name, v)
    decreases v
  {
    match v
    case TreeLeaf(_) =>
    case TreeOne(t) => CleanIsReadable(k, ClassOf(k, cls, name), t);
    case TreeMany(ts) =>
      forall i | 0 <= i < |ts|
        ensures OneTreatment(k, ClassOf(k, cls, name), ts[i]) && Readable(k, ClassOf(k, cls, name), ts[i])
      {
        CleanIsReadable(k, ClassOf(k, cls, name), ts[i]);
      }
    case TreeItems(items) =>
  }

  lemma SealedItemOpensExactly(k: Rules, cls: string, name: string, v: Item, w: Item)
    requires Lawful(k.c) && EncryptableItem(k, cls, name, v) && SealedItem(k, cls, name, v, w)
    requires !k.hashed(cls, name) && k.encrypted(cls, name)
    ensures w.StrItem? && OpenableString(k, w.s) <==> v != NullItem
  {
    if v.StrItem? {
      OpenSealedString(k, true, v.s, w.s);
    }
  }

  /** What was encrypted can be read again if and only if, where reading goes, no encrypted array holds a
      null and no encrypted `_id` is an object. */
  lemma {:induction false} SealedOpensExactly(k: Rules, cls: string, t: Tree, u: Tree)
    requires Lawful(k.c) && OneTreatment(k, cls, t) && Encryptable(k, cls, t) && Sealed(k, cls, t, u)
    ensures Openable(k, cls, u) <==> Readable(k, cls, t)
    decreases t
  {
    forall p | 0 <= p < |t.props|
      ensures OpenableValue(k, cls, u.props[p].name, u.props[p].value)
              <==> ReadableValue(k, cls, t.props[p].name, t.props[p].value)
    {
      SealedValueOpensExactly(k, cls, t.props[p].name, t.props[p].value, u.props[p].value);
    }
  }

  lemma {:induction false} SealedValueOpensExactly(k: Rules, cls: string, name: string, v: TreeValue, w: TreeValue)
    requires Lawful(k.c) && OneTreatmentOfValue(k, cls, name, v)
    requires EncryptableValue(k, cls, name, v) && SealedValue(k, cls, name, v, w)
    ensures OpenableValue(k, cls, name, w) <==> ReadableValue(k, cls, name, v)
    decreases v
  {
    match v
    case TreeLeaf(s) =>
      if s.Str? && SealsText(k, cls, name) {
        OpenSealedString(k, k.randomVector(name), s.s, w.v.s);
      }
    case TreeOne(t) => SealedOpensExactly(k, ClassOf(k, cls, name), t, w.t);
    case TreeMany(ts) =>
      forall i | 0 <= i < |ts|
        ensures Openable(k, ClassOf(k, cls, name), w.ts[i]) <==> Readable(k, ClassOf(k, cls, name), ts[i])
      {
        SealedOpensExactly(k, ClassOf(k, cls, name), ts[i], w.ts[i]);
      }
    case TreeItems(items) =>
      if items != [] && k.encrypted(cls, name) {
        forall i | 0 <= i < |items|
          ensures w.items[i].StrItem? && OpenableString(k, w.items[i].s) <==> items[i] != NullItem
        {
          SealedItemOpensExactly(k, cls, name, items[i], w.items[i]);
        }
        assert NullItem !in items <==> forall i :: 0 <= i < |items| ==> items[i] != NullItem;
      }
  }

  /** A null in an encrypted array is saved without complaint, but the entity cannot be read again. */
  lemma NullInArrayBlocksReading(k: Rules, cls: string, t: Tree, u: Tree, p: nat, i: nat)
    requires Sealed(k, cls, t, u) && p < |t.props| && t.props[p].value.TreeItems?
    requires i < |t.props[p].value.items| && t.props[p].value.items[i].NullItem?
    requires k.encrypted(cls, t.props[p].name)
    ensures !Openable(k, cls, u)
  {
    assert SealedItem(k, cls, t.props[p].name, t.props[p].value.items[i], u.props[p].value.items[i]);
    assert !OpenableValue(k, cls, u.props[p].name, u.props[p].value);
  }

  // ---------------------------------------------------------------------------------------------
  // Sub-entities at any depth
  // ---------------------------------------------------------------------------------------------

  /** A step down: into the object of a property, or into one of the objects of its array. */
  datatype Hop = Hop(property: nat, element: nat)

  predicate CanHop(t: Tree, h: Hop) {
    && h.property < |t.props|
    && (t.props[h.property].value.TreeOne?
        || (t.props[h.property].value.TreeMany? && h.element < |t.props[h.property].value.ts|))
  }

  /** The object that the step leads to. */
  function HopTo(t: Tree, h: Hop): (b: Tree)
    requires CanHop(t, h)
    ensures b < t
  {
    var v := t.props[h.property].value;
    if v.TreeOne? then v.t else v.ts[h.element]
  }

  /** Every property on the way is declared with a type, and reading goes the way if it is to be read. */
  predicate IsWay(k: Rules, cls: string, t: Tree, way: seq<Hop>, read: bool)
    decreases |way|
  {
    way == [] ||
    (&& CanHop(t, way[0])
     && var p := t.props[way[0].property];
        && (cls, p.name) in k.types && (read ==> IsRead(k, cls, p))
        && IsWay(k, k.types[(cls, p.name)], HopTo(t, way[0]), way[1..], read))
  }

  /** Reading does not go into an object that is an `_id`, nor into many-to-many arrays unless told to. */
  predicate IsRead(k: Rules, cls: string, p: TreeProp) {
    if p.value.TreeOne? then p.name != "_id" else k.manyToMany(cls, p.name) ==> k.opensManyToMany
  }

  function At(k: Rules, cls: string, t: Tree, way: seq<Hop>, read: bool): Tree
    requires IsWay(k, cls, t, way, read)
    decreases |way|
  {
    if way == [] then t
    else At(k, k.types[(cls, t.props[way[0].property].name)], HopTo(t, way[0]), way[1..], read)
  }

  /** The class that the declared types of the properties on the way give. */
  function DeclaredClass(k: Rules, cls: string, t: Tree, way: seq<Hop>, read: bool): string
    requires IsWay(k, cls, t, way, read)
    decreases |way|
  {
    if way == [] then cls
    else DeclaredClass(k, k.types[(cls, t.props[way[0].property].name)], HopTo(t, way[0]), way[1..], read)
  }

  lemma HopSealed(k: Rules, cls: string, t: Tree, u: Tree, h: Hop)
    requires Sealed(k, cls, t, u) && CanHop(t, h) && (cls, t.props[h.property].name) in k.types
    ensures CanHop(u, h) && u.props[h.property].name == t.props[h.property].name
    ensures Sealed(k, k.types[(cls, t.props[h.property].name)], HopTo(t, h), HopTo(u, h))
  {
    assert SealedValue(k, cls, t.props[h.property].name, t.props[h.property].value, u.props[h.property].value);
  }

  lemma {:induction false} SealedBelow(k: Rules, cls: string, t: Tree, u: Tree, way: seq<Hop>)
    requires Sealed(k, cls, t, u) && IsWay(k, cls, t, way, false)
    ensures IsWay(k, cls, u, way, false)
    ensures DeclaredClass(k, cls, u, way, false) == DeclaredClass(k, cls, t, way, false)
    ensures Sealed(k, DeclaredClass(k, cls, t, way, false), At(k, cls, t, way, false), At(k, cls, u, way, false))
    decreases |way|
  {
    if way == [] {
    } else {
      HopSealed(k, cls, t, u, way[0]);
      var next := k.types[(cls, t.props[way[0].property].name)];
      SealedBelow(k, next, HopTo(t, way[0]), HopTo(u, way[0]), way[1..]);
    }
  }

  /** The text e is an envelope of s, with some vector of 16 bytes or with the fixed one. */
  ghost predicate IsEnvelope(k: Rules, random: bool, s: string, e: string) {
    && k.cfg.key.Some?
    && exists iv: seq<byte> ::
         |iv| == 16 && (!random ==> iv == FixedIv(k.cfg.key.value)) && e == Seal(k.c, k.cfg.key.value, iv, s)
  }

  lemma SealedIsEnvelope(k: Rules, random: bool, s: string, e: string)
    requires SealedString(k, random, s, e)
    ensures IsEnvelope(k, random, s, e)
  {
    if random {
      var iv: seq<byte> :| |iv| == 16 && Encrypt(k.c, k.cfg, s, Some(iv)) == Ok(e);
      assert e == Seal(k.c, k.cfg.key.value, iv, s);
    } else {
      assert e == Seal(k.c, k.cfg.key.value, FixedIv(k.cfg.key.value), s);
    }
  }

  /** A text of a field that class d has hashed, encrypted or left alone. */
  ghost predicate TreatedText(k: Rules, d: string, name: string, random: bool, s: string, e: string) {
    && (k.encrypted(d, name) && !k.hashed(d, name) ==> IsEnvelope(k, random, s, e))
    && (!k.encrypted(d, name) && !k.hashed(d, name) ==> e == s)
  }

  /** Every text of the object is treated as the class d says, and everything else that is no object is kept. */
  ghost predicate TreatedAs(k: Rules, d: string, b: Tree, c: Tree) {
    && c.self == b.self && |c.props| == |b.props|
    && forall n :: 0 <= n < |b.props| ==> TreatedProp(k, d, b.props[n], c.props[n])
  }

  ghost predicate TreatedProp(k: Rules, d: string, p: TreeProp, q: TreeProp) {
    && q.name == p.name
    && (p.value.TreeLeaf? && p.value.v.Str? ==>
          && q.value.TreeLeaf? && q.value.v.Str?
          && TreatedText(k, d, p.name, k.randomVector(p.name), p.value.v.s, q.value.v.s))
    && (p.value.TreeLeaf? && !p.value.v.Str? ==> q.value == p.value)
    && (p.value.TreeItems? ==>
          && q.value.TreeItems? && |q.value.items| == |p.value.items|
          && forall i :: 0 <= i < |p.value.items| ==> TreatedItem(k, d, p.name, p.value.items[i], q.value.items[i]))
  }

  ghost predicate TreatedItem(k: Rules, d: string, name: string, v: Item, w: Item) {
    if v.StrItem? then w.StrItem? && TreatedText(k, d, name, true, v.s, w.s) else w == v
  }

  lemma SealedPropIsTreated(k: Rules, d: string, p: TreeProp, q: TreeProp)
    requires q.name == p.name && SealedValue(k, d, p.name, p.value, q.value)
    ensures TreatedProp(k, d, p, q)
  {
    match p.value
    case TreeLeaf(v) =>
      if v.Str? && k.encrypted(d, p.name) && !k.hashed(d, p.name) {
        SealedIsEnvelope(k, k.randomVector(p.name), v.s, q.value.v.s);
      }
    case TreeItems(items) =>
      forall i | 0 <= i < |items|
        ensures TreatedItem(k, d, p.name, items[i], q.value.items[i])
      {
        assert SealedItem(k, d, p.name, items[i], q.value.items[i]);
        if items[i].StrItem? && k.encrypted(d, p.name) && !k.hashed(d, p.name) {
          SealedIsEnvelope(k, true, items[i].s, q.value.items[i].s);
        }
      }
    case _ =>
  }

  /** At any depth, what encryption leaves of an object is treated by the class that the declared types on the
      way to it give. */
  lemma SealedByDeclaredClass(k: Rules, cls: string, t: Tree, u: Tree, way: seq<Hop>)
    requires Sealed(k, cls, t, u) && IsWay(k, cls, t, way, false)
    ensures IsWay(k, cls, u, way, false)
    ensures TreatedAs(k, DeclaredClass(k, cls, t, way, false), At(k, cls, t, way, false), At(k, cls, u, way, false))
  {
    SealedBelow(k, cls, t, u, way);
    var d, b, c := DeclaredClass(k, cls, t, way, false), At(k, cls, t, way, false), At(k, cls, u, way, false);
    forall n | 0 <= n < |b.props|
      ensures TreatedProp(k, d, b.props[n], c.props[n])
    {
      SealedPropIsTreated(k, d, b.props[n], c.props[n]);
    }
  }

  /** Nothing in the object itself makes encryption throw: every property with objects or an empty array has a
      declared type, only texts are hashed or encrypted, and the key can be used where a text is encrypted. */
  predicate EncryptableHere(k: Rules, d: string, b: Tree) {
    forall n :: 0 <= n < |b.props| ==> EncryptablePropHere(k, d, b.props[n])
  }

  predicate EncryptablePropHere(k: Rules, d: string, p: TreeProp) {
    match p.value
    case TreeLeaf(v) =>
      && (v.Str? && !k.hashed(d, p.name) && k.encrypted(d, p.name) ==> UsableKey(k.cfg))
      && (v.Num? || v.Bool? || v.Undefined? ==> !k.hashed(d, p.name) && !k.encrypted(d, p.name))
      && (v.ObjectId? ==> !k.encrypted(d, p.name))
    case TreeOne(_) => (d, p.name) in k.types
    case TreeMany(_) => (d, p.name) in k.types
    case TreeItems(items) =>
      && (items == [] ==> (d, p.name) in k.types)
      && forall i :: 0 <= i < |items| ==>
           && (items[i].StrItem? && !k.hashed(d, p.name) && k.encrypted(d, p.name) ==> UsableKey(k.cfg))
           && (items[i].NumItem? ==> !k.hashed(d, p.name) && !k.encrypted(d, p.name))
  }

  /** Encryption succeeds if and only if nothing makes it throw in any object at any depth. */
  lemma EncryptableExactly(k: Rules, cls: string, t: Tree)
    ensures Encryptable(k, cls, t) <==>
            forall way :: IsWay(k, cls, t, way, false) ==>
              EncryptableHere(k, DeclaredClass(k, cls, t, way, false), At(k, cls, t, way, false))
  {
    if Encryptable(k, cls, t) {
      forall way | IsWay(k, cls, t, way, false)
        ensures EncryptableHere(k, DeclaredClass(k, cls, t, way, false), At(k, cls, t, way, false))
      {
        EncryptableAt(k, cls, t, way);
      }
    } else {
      var way := NotEncryptableAt(k, cls, t);
    }
  }

  lemma {:induction false} EncryptableAt(k: Rules, cls: string, t: Tree, way: seq<Hop>)
    requires Encryptable(k, cls, t) && IsWay(k, cls, t, way, false)
    ensures EncryptableHere(k, DeclaredClass(k, cls, t, way, false), At(k, cls, t, way, false))
    decreases |way|
  {
    if way == [] {
      forall n | 0 <= n < |t.props|
        ensures EncryptablePropHere(k, cls, t.props[n])
      {
        assert EncryptableValue(k, cls, t.props[n].name, t.props[n].value);
      }
    } else {
      var p := t.props[way[0].property];
      assert EncryptableValue(k, cls, p.name, p.value);
      EncryptableAt(k, k.types[(cls, p.name)], HopTo(t, way[0]), way[1..]);
    }
  }

  lemma {:induction false} NotEncryptableAt(k: Rules, cls: string, t: Tree) returns (way: seq<Hop>)
    requires !Encryptable(k, cls, t)
    ensures IsWay(k, cls, t, way, false)
    ensures !EncryptableHere(k, DeclaredClass(k, cls, t, way, false), At(k, cls, t, way, false))
    decreases t, 0
  {
    var n :| 0 <= n < |t.props| && !EncryptableValue(k, cls, t.props[n].name, t.props[n].value);
    var p := t.props[n];
    way := [];
    if (cls, p.name) in k.types {
      match p.value
      case TreeOne(b) => way := NotEncryptableBelow(k, cls, t, Hop(n, 0));
      case TreeMany(ts) =>
        var i :| 0 <= i < |ts| && !Encryptable(k, ClassOf(k, cls, p.name), ts[i]);
        way := NotEncryptableBelow(k, cls, t, Hop(n, i));
      case _ => assert !EncryptablePropHere(k, cls, p);
    } else {
      assert !EncryptablePropHere(k, cls, p);
    }
  }

  lemma {:induction false} NotEncryptableBelow(k: Rules, cls: string, t: Tree, h: Hop) returns (way: seq<Hop>)
    requires CanHop(t, h) && (cls, t.props[h.property].name) in k.types
    requires !Encryptable(k, k.types[(cls, t.props[h.property].name)], HopTo(t, h))
    ensures IsWay(k, cls, t, way, false)
    ensures !EncryptableHere(k, DeclaredClass(k, cls, t, way, false), At(k, cls, t, way, false))
    decreases HopTo(t, h), 1
  {
    var rest := NotEncryptableAt(k, k.types[(cls, t.props[h.property].name)], HopTo(t, h));
    way := [h] + rest;
    assert way[1..] == rest;
  }

  /** Nothing in the object itself makes decryption throw. */
  predicate OpenableHere(k: Rules, d: string, b: Tree) {
    forall n :: 0 <= n < |b.props| ==> OpenablePropHere(k, d, b.props[n])
  }

  /** An encrypted value is null, absent, or a text that decrypts; object identifiers, objects and empty arrays
      are looked at as values only under the name `_id`. */
  predicate OpenablePropHere(k: Rules, d: string, p: TreeProp) {
    k.encrypted(d, p.name) ==>
      match p.value
      case TreeLeaf(v) =>
        v.Null? || v.Undefined? || (v.Str? && Decrypt(k.c, k.cfg, v.s).Ok?) || (v.ObjectId? && p.name != "_id")
      case TreeOne(_) => p.name != "_id"
      case TreeMany(ts) => ts == [] ==> p.name != "_id"
      case TreeItems(items) =>
        && (items == [] ==> p.name != "_id")
        && forall i :: 0 <= i < |items| ==> items[i].StrItem? && Decrypt(k.c, k.cfg, items[i].s).Ok?
  }

  /** Decryption succeeds if and only if nothing makes it throw in any object that it goes to. */
  lemma OpenableExactly(k: Rules, cls: string, t: Tree)
    ensures Openable(k, cls, t) <==>
            forall way :: IsWay(k, cls, t, way, true) ==>
              OpenableHere(k, DeclaredClass(k, cls, t, way, true), At(k, cls, t, way, true))
  {
    if Openable(k, cls, t) {
      forall way | IsWay(k, cls, t, way, true)
        ensures OpenableHere(k, DeclaredClass(k, cls, t, way, true), At(k, cls, t, way, true))
      {
        OpenableAt(k, cls, t, way);
      }
    } else {
      var way := NotOpenableAt(k, cls, t);
    }
  }

  lemma {:induction false} OpenableAt(k: Rules, cls: string, t: Tree, way: seq<Hop>)
    requires Openable(k, cls, t) && IsWay(k, cls, t, way, true)
    ensures OpenableHere(k, DeclaredClass(k, cls, t, way, true), At(k, cls, t, way, true))
    decreases |way|
  {
    if way == [] {
      forall n | 0 <= n < |t.props|
        ensures OpenablePropHere(k, cls, t.props[n])
      {
        assert OpenableValue(k, cls, t.props[n].name, t.props[n].value);
      }
    } else {
      var p := t.props[way[0].property];
      assert OpenableValue(k, cls, p.name, p.value);
      OpenableAt(k, k.types[(cls, p.name)], HopTo(t, way[0]), way[1..]);
    }
  }

  lemma {:induction false} NotOpenableAt(k: Rules, cls: string, t: Tree) returns (way: seq<Hop>)
    requires !Openable(k, cls, t)
    ensures IsWay(k, cls, t, way, true)
    ensures !OpenableHere(k, DeclaredClass(k, cls, t, way, true), At(k, cls, t, way, true))
    decreases t, 0
  {
    var n :| 0 <= n < |t.props| && !OpenableValue(k, cls, t.props[n].name, t.props[n].value);
    var p := t.props[n];
    way := [];
    if OpenablePropHere(k, cls, p) {
      match p.value
      case TreeOne(b) => way := NotOpenableBelow(k, cls, t, Hop(n, 0));
      case TreeMany(ts) =>
        var i :| 0 <= i < |ts| && !Openable(k, ClassOf(k, cls, p.name), ts[i]);
        way := NotOpenableBelow(k, cls, t, Hop(n, i));
      case _ =>
    }
  }

  lemma {:induction false} NotOpenableBelow(k: Rules, cls: string, t: Tree, h: Hop) returns (way: seq<Hop>)
    requires CanHop(t, h) && (cls, t.props[h.property].name) in k.types && IsRead(k, cls, t.props[h.property])
    requires !Openable(k, k.types[(cls, t.props[h.property].name)], HopTo(t, h))
    ensures IsWay(k, cls, t, way, true)
    ensures !OpenableHere(k, DeclaredClass(k, cls, t, way, true), At(k, cls, t, way, true))
    decreases HopTo(t, h), 1
  {
    var rest := NotOpenableAt(k, k.types[(cls, t.props[h.property].name)], HopTo(t, h));
    way := [h] + rest;
    assert way[1..] == rest;
  }

  /** Every encrypted text of the object is decrypted, every other value kept, and so are the objects that
      reading does not go to. */
  ghost predicate OpenedAs(k: Rules, d: string, b: Tree, c: Tree) {
    && c.self == b.self && |c.props| == |b.props|
    && forall n :: 0 <= n < |b.props| ==> OpenedProp(k, d, b.props[n], c.props[n])
  }

  ghost predicate OpenedProp(k: Rules, d: string, p: TreeProp, q: TreeProp) {
    && q.name == p.name
    && match p.value
       case TreeLeaf(v) =>
         if v.Str? && k.encrypted(d, p.name) then
           q.value.TreeLeaf? && q.value.v.Str? && Decrypt(k.c, k.cfg, v.s) == Ok(q.value.v.s)
         else q.value == p.value
       case TreeItems(items) =>
         if k.encrypted(d, p.name) then
           && q.value.TreeItems? && |q.value.items| == |items|
           && forall i :: 0 <= i < |items| ==>
                q.value.items[i].StrItem? && items[i].StrItem?
                && Decrypt(k.c, k.cfg, items[i].s) == Ok(q.value.items[i].s)
         else q.value == p.value
       case _ => ((d, p.name) in k.types && IsRead(k, d, p)) || q.value == p.value
  }

  lemma OpenValueOpens(k: Rules, d: string, p: TreeProp)
    requires OpenableValue(k, d, p.name, p.value)
    ensures OpenedProp(k, d, p, TreeProp(p.name, OpenValue(k, d, p.name, p.value)))
  {
    match p.value
    case TreeItems(items) =>
      if !k.encrypted(d, p.name) {
        assert OpenItems(k, d, p.name, items) == items;
      }
    case TreeMany(ts) =>
      if ts == [] {
        assert OpenTrees(k, ClassOf(k, d, p.name), ts) == ts;
      }
    case _ =>
  }

  /** At any depth that reading goes to, an object is decrypted by the class that the declared types on the way
      to it give. */
  lemma {:induction false} OpenedByDeclaredClass(k: Rules, cls: string, t: Tree, way: seq<Hop>)
    requires Openable(k, cls, t) && IsWay(k, cls, t, way, true)
    ensures IsWay(k, cls, OpenTree(k, cls, t), way, true)
    ensures OpenedAs(k, DeclaredClass(k, cls, t, way, true), At(k, cls, t, way, true),
                     At(k, cls, OpenTree(k, cls, t), way, true))
    decreases |way|
  {
    if way == [] {
      forall n | 0 <= n < |t.props|
        ensures OpenedProp(k, cls, t.props[n], OpenTree(k, cls, t).props[n])
      {
        OpenValueOpens(k, cls, t.props[n]);
      }
    } else {
      var p := t.props[way[0].property];
      var next, below := k.types[(cls, p.name)], HopTo(t, way[0]);
      assert OpenableValue(k, cls, p.name, p.value);
      assert HopTo(OpenTree(k, cls, t), way[0]) == OpenTree(k, next, below);
      OpenedByDeclaredClass(k, next, below, way[1..]);
    }
  }

  // ---------------------------------------------------------------------------------------------
  // The walks in place
  // ---------------------------------------------------------------------------------------------

  lemma {:induction false} SealedKeepsShape(k: Rules, cls: string, t: Tree, u: Tree)
    requires Sealed(k, cls, t, u)
    ensures SameShape(t, u)
    decreases t
  {
    forall p | 0 <= p < |t.props|
      ensures SameShapeValue(t.props[p].value, u.props[p].value)
    {
      SealedValueKeepsShape(k, cls, t.props[p].name, t.props[p].value, u.props[p].value);
    }
  }

  lemma {:induction false} SealedValueKeepsShape(k: Rules, cls: string, name: string, v: TreeValue, w: TreeValue)
    requires SealedValue(k, cls, name, v, w)
    ensures SameShapeValue(v, w)
    decreases v
  {
    match v
    case TreeOne(t) => SealedKeepsShape(k, ClassOf(k, cls, name), t, w.t);
    case TreeMany(ts) =>
      forall i | 0 <= i < |ts|
        ensures SameShape(ts[i], w.ts[i])
      {
        SealedKeepsShape(k, ClassOf(k, cls, name), ts[i], w.ts[i]);
      }
    case _ =>
  }

  lemma EncryptSucceeds(c: Cipher, cfg: Config, value: string, random: Option<seq<byte>>)
    requires GoodVector(random)
    ensures Encrypt(c, cfg, value, random).Ok? <==> UsableKey(cfg)
  {
    if UsableKey(cfg) {
      FixedIvLength(cfg);
    }
  }

  method EncryptString(k: Rules, random: bool, s: string) returns (ok: bool, e: string)
    ensures ok <==> UsableKey(k.cfg)
    ensures ok ==> SealedString(k, random, s, e)
  {
    var vector := None;
    if random {
      var iv := RandomBytes();
      vector := Some(iv);
    }
    EncryptSucceeds(k.c, k.cfg, s, vector);
    var r := Encrypt(k.c, k.cfg, s, vector);
    ok, e := r.Ok?, if r.Ok? then r.value else "";
  }

  method RandomBytes() returns (iv: seq<byte>)
    ensures |iv| == 16
  {
    iv := [];
    for i := 0 to 16
      invariant |iv| == i
    {
      var b: byte := *;
      iv := iv + [b];
    }
  }

  method Hash(s: string) returns (h: string)
  {
    h := *;
  }

  method SealScalar(k: Rules, cls: string, name: string, v: Scalar) returns (ok: bool, w: Scalar)
    ensures ok <==> EncryptableLeaf(k, cls, name, v)
    ensures ok ==> SealedLeaf(k, cls, name, v, w)
  {
    ok, w := true, v;
    if v.Null? {
    } else if !v.ObjectId? && k.hashed(cls, name) {
      if !v.Str? {
        return false, v;
      }
      var h := Hash(v.s);
      w := Str(h);
    } else if k.encrypted(cls, name) {
      if !v.Str? {
        return false, v;
      }
      var e;
      ok, e := EncryptString(k, k.randomVector(name), v.s);
      w := Str(e);
    }
  }

  method SealItems(k: Rules, cls: string, name: string, items: seq<Item>) returns (ok: bool, r: seq<Item>)
    ensures ok <==> forall i :: 0 <= i < |items| ==> EncryptableItem(k, cls, name, items[i])
    ensures ok ==> |r| == |items| && forall i :: 0 <= i < |items| ==> SealedItem(k, cls, name, items[i], r[i])
  {
    ok, r := true, items;
    if !k.hashed(cls, name) && !k.encrypted(cls, name) {
      return;
    }
    for i := 0 to |items|
      invariant |r| == |items| && r[i..] == items[i..]
      invariant forall j :: 0 <= j < i ==>
                  EncryptableItem(k, cls, name, items[j]) && SealedItem(k, cls, name, items[j], r[j])
    {
      var v := r[i];
      assert v == items[i];
      if !v.NullItem? {
        if !v.StrItem? {
          return false, r;
        }
        var w;
        if k.hashed(cls, name) {
          w := Hash(v.s);
        } else {
          var sealed;
          sealed, w := EncryptString(k, true, v.s);
          if !sealed {
            return false, r;
          }
        }
        r := r[i := StrItem(w)];
      }
    }
  }

  /** The walk over an entity and what is below it; the ghost arguments and results are snapshots. */
  method HashOrEncryptEntityValues(k: Rules, cls: string, entity: JsObject, ghost t: Tree)
    returns (ok: bool, ghost u: Tree)
    requires t.self == entity && Linear(t) && Shows(t)
    modifies Objects(t)
    ensures ok <==> Encryptable(k, cls, t)
    ensures ok ==> Sealed(k, cls, t, u) && Shows(u)
    decreases t
  {
    var entries := entity.props;
    u := t;
    for p := 0 to |entries|
      invariant u.self == entity && |u.props| == |t.props| == |entries| && u.props[p..] == t.props[p..]
      invariant forall q :: 0 <= q < p ==>
                  && EncryptableValue(k, cls, t.props[q].name, t.props[q].value)
                  && u.props[q].name == t.props[q].name
                  && SealedValue(k, cls, t.props[q].name, t.props[q].value, u.props[q].value)
      invariant Linear(u) && Objects(u) <= Objects(t) && Shows(u)
    {
      assert u.props[p] == t.props[p];
      ok, u := SealProperty(k, cls, entity, p, entries[p], u, t.props[p].value);
      if !ok {
        return false, u;
      }
    }
    ok := true;
  }

  method SealProperty(k: Rules, cls: string, entity: JsObject, p: nat, entry: Prop, ghost t: Tree, ghost v: TreeValue)
    returns (ok: bool, ghost u: Tree)
    requires t.self == entity && Linear(t) && Shows(t)
    requires p < |t.props| && t.props[p].value == v && entry == Prop(t.props[p].name, Shallow(v))
    modifies Objects(t)
    ensures ok <==> EncryptableValue(k, cls, entry.name, v)
    ensures ok ==>
      && |u.props| == |t.props| && u == Replace(t, p, u.props[p].value)
      && SealedValue(k, cls, entry.name, v, u.props[p].value)
      && Linear(u) && Objects(u) <= Objects(t) && Shows(u)
    decreases v, 1
  {
    PropsAllocated(t);
    u := t;
    var r;
    ghost var w;
    ok, r, w := SealValue(k, cls, entry.name, entry.value, v);
    forall q | 0 <= q < |t.props| && q != p
      ensures ShowsValue(t.props[q].value) && t.self !in Below(t.props[q].value)
    {
      ValuesApart(t, p, q);
    }
    if ok {
      if entry.value.Leaf? || entry.value.Items? {
        entity.props := entity.props[p := Prop(entry.name, r)];
      }
      SealedValueKeepsShape(k, cls, entry.name, v, w);
      ShapeKeepsBelow(v, w);
      ReplaceKeepsLinear(t, p, w);
      ReplaceShows(t, p, w);
      u := Replace(t, p, w);
    }
  }

  method SealValue(k: Rules, cls: string, name: string, value: Value, ghost v: TreeValue)
    returns (ok: bool, r: Value, ghost w: TreeValue)
    requires value == Shallow(v) && LinearValue(v) && ShowsValue(v)
    modifies Below(v)
    ensures ok <==> EncryptableValue(k, cls, name, v)
    ensures ok ==> SealedValue(k, cls, name, v, w) && r == Shallow(w) && ShowsValue(w)
    decreases v, 0
  {
    ok, r, w := true, value, v;
    match value {
      case Leaf(s) =>
        var x;
        ok, x := SealScalar(k, cls, name, s);
        r, w := Leaf(x), TreeLeaf(x);
      case One(o) =>
        if !Typed(k, cls, name) {
          return false, value, v;
        }
        ghost var below;
        ok, below := HashOrEncryptEntityValues(k, ClassOf(k, cls, name), o, v.t);
        w := TreeOne(below);
      case Many(os) =>
        if !Typed(k, cls, name) {
          return false, value, v;
        }
        ghost var below;
        ok, below := SealObjects(k, ClassOf(k, cls, name), os, v.ts);
        w := TreeMany(below);
      case Items(items) =>
        if items == [] {
          ok := Typed(k, cls, name);
        } else {
          var x;
          ok, x := SealItems(k, cls, name, items);
          r, w := Items(x), TreeItems(x);
        }
    }
  }

  /** The object of `t` is done, and shows `u`. */
  ghost predicate Done(k: Rules, cls: string, t: Tree, u: Tree)
    reads Objects(u)
  {
    Encryptable(k, cls, t) && Sealed(k, cls, t, u) && Objects(u) == Objects(t) && Shows(u)
  }

  method SealObjects(k: Rules, cls: string, os: seq<JsObject>, ghost ts: seq<Tree>)
    returns (ok: bool, ghost us: seq<Tree>)
    requires os == Selves(ts) && LinearValue(TreeMany(ts)) && ShowsValue(TreeMany(ts))
    modifies Below(TreeMany(ts))
    ensures ok <==> forall i :: 0 <= i < |ts| ==> Encryptable(k, cls, ts[i])
    ensures ok ==> |us| == |ts| && forall i :: 0 <= i < |ts| ==> Sealed(k, cls, ts[i], us[i]) && Shows(us[i])
    decreases ts
  {
    us := [];
    for i := 0 to |os|
      invariant |us| == i
      invariant forall j :: 0 <= j < i ==> Done(k, cls, ts[j], us[j])
      invariant forall j :: i <= j < |ts| ==> Shows(ts[j])
    {
      ElementsAllocated(ts);
      ghost var u;
      ok, u := HashOrEncryptEntityValues(k, cls, os[i], ts[i]);
      if !ok {
        return false, [];
      }
      forall j | 0 <= j < |ts| && j != i
        ensures if j < i then Done(k, cls, ts[j], us[j]) else Shows(ts[j])
      {
        NeighboursApart(ts, i, j);
      }
      SealedKeepsShape(k, cls, ts[i], u);
      ShapeKeepsObjects(ts[i], u);
      us := us + [u];
    }
    ok := true;
  }

  lemma {:induction false} OpenKeepsShape(k: Rules, cls: string, t: Tree)
    ensures SameShape(t, OpenTree(k, cls, t))
    decreases t
  {
    forall p | 0 <= p < |t.props|
      ensures SameShapeValue(t.props[p].value, OpenValue(k, cls, t.props[p].name, t.props[p].value))
    {
      OpenValueKeepsShape(k, cls, t.props[p].name, t.props[p].value);
    }
  }

  lemma {:induction false} OpenValueKeepsShape(k: Rules, cls: string, name: string, v: TreeValue)
    ensures SameShapeValue(v, OpenValue(k, cls, name, v))
    decreases v
  {
    match v
    case TreeOne(t) =>
      OpenKeepsShape(k, ClassOf(k, cls, name), t);
      ShapeIsReflexive(t);
    case TreeMany(ts) =>
      forall i | 0 <= i < |ts|
        ensures SameShape(ts[i], OpenTree(k, ClassOf(k, cls, name), ts[i])) && SameShape(ts[i], ts[i])
      {
        OpenKeepsShape(k, ClassOf(k, cls, name), ts[i]);
        ShapeIsReflexive(ts[i]);
      }
    case _ =>
  }

  method OpenScalar(k: Rules, cls: string, name: string, v: Scalar) returns (ok: bool, w: Scalar)
    ensures ok <==> OpenableLeaf(k, cls, name, v)
    ensures ok ==> w == OpenLeaf(k, cls, name, v)
  {
    ok, w := true, v;
    if v.ObjectId? && name != "_id" {
    } else if !v.Null? && !v.Undefined? && k.encrypted(cls, name) {
      if !v.Str? {
        return false, v;
      }
      var d := Decrypt(k.c, k.cfg, v.s);
      ok, w := d.Ok?, if d.Ok? then Str(d.value) else v;
    }
  }

  method OpenArray(k: Rules, cls: string, name: string, items: seq<Item>) returns (ok: bool, r: seq<Item>)
    requires items != []
    ensures ok <==> OpenableValue(k, cls, name, TreeItems(items))
    ensures ok ==> r == OpenItems(k, cls, name, items)
  {
    ok, r := true, items;
    if k.encrypted(cls, name) {
      if !items[0].StrItem? {
        return false, r;
      }
      for i := 0 to |items|
        invariant |r| == |items| && r[i..] == items[i..]
        invariant forall j :: 0 <= j < i ==>
                    items[j].StrItem? && OpenableString(k, items[j].s) && r[j] == OpenItem(k, cls, name, items[j])
      {
        var v := r[i];
        assert v == items[i];
        if !v.StrItem? {
          return false, r;
        }
        var d := Decrypt(k.c, k.cfg, v.s);
        if d.Err? {
          return false, r;
        }
        r := r[i := StrItem(d.value)];
      }
    }
  }

  /** The walk that decrypts; the ghost argument is a snapshot. */
  method DecryptEntityValues(k: Rules, cls: string, entity: JsObject, ghost t: Tree) returns (ok: bool)
    requires t.self == entity && Linear(t) && Shows(t)
    modifies Objects(t)
    ensures ok <==> Openable(k, cls, t)
    ensures ok ==> Shows(OpenTree(k, cls, t))
    decreases t
  {
    var entries := entity.props;
    ghost var u := t;
    for p := 0 to |entries|
      invariant u.self == entity && |u.props| == |t.props| == |entries| && u.props[p..] == t.props[p..]
      invariant forall q :: 0 <= q < p ==>
                  && OpenableValue(k, cls, t.props[q].name, t.props[q].value)
                  && u.props[q] == OpenTree(k, cls, t).props[q]
      invariant Linear(u) && Objects(u) <= Objects(t) && Shows(u)
    {
      assert u.props[p] == t.props[p];
      ok, u := OpenProperty(k, cls, entity, p, entries[p], u, t.props[p].value);
      if !ok {
        return false;
      }
    }
    ok := true;
    assert u.props == OpenTree(k, cls, t).props;
  }

  method OpenProperty(k: Rules, cls: string, entity: JsObject, p: nat, entry: Prop, ghost t: Tree, ghost v: TreeValue)
    returns (ok: bool, ghost u: Tree)
    requires t.self == entity && Linear(t) && Shows(t)
    requires p < |t.props| && t.props[p].value == v && entry == Prop(t.props[p].name, Shallow(v))
    modifies Objects(t)
    ensures ok <==> OpenableValue(k, cls, entry.name, v)
    ensures ok ==>
      && u == Replace(t, p, OpenValue(k, cls, entry.name, v))
      && Linear(u) && Objects(u) <= Objects(t) && Shows(u)
    decreases v, 1
  {
    PropsAllocated(t);
    u := t;
    var r;
    ok, r := OpenProp(k, cls, entry.name, entry.value, v);
    forall q | 0 <= q < |t.props| && q != p
      ensures ShowsValue(t.props[q].value) && t.self !in Below(t.props[q].value)
    {
      ValuesApart(t, p, q);
    }
    if ok {
      if entry.value.Leaf? || entry.value.Items? {
        entity.props := entity.props[p := Prop(entry.name, r)];
      }
      ghost var w := OpenValue(k, cls, entry.name, v);
      OpenValueKeepsShape(k, cls, entry.name, v);
      ShapeKeepsBelow(v, w);
      ReplaceKeepsLinear(t, p, w);
      ReplaceShows(t, p, w);
      u := Replace(t, p, w);
    }
  }

  method OpenProp(k: Rules, cls: string, name: string, value: Value, ghost v: TreeValue) returns (ok: bool, r: Value)
    requires value == Shallow(v) && LinearValue(v) && ShowsValue(v)
    modifies Below(v)
    ensures ok <==> OpenableValue(k, cls, name, v)
    ensures ok ==> r == Shallow(OpenValue(k, cls, name, v)) && ShowsValue(OpenValue(k, cls, name, v))
    decreases v, 0
  {
    ok, r := true, value;
    match value {
      case Leaf(s) =>
        var x;
        ok, x := OpenScalar(k, cls, name, s);
        r := Leaf(x);
      case One(o) =>
        if name != "_id" {
          if Typed(k, cls, name) {
            ok := DecryptEntityValues(k, ClassOf(k, cls, name), o, v.t);
          }
        } else {
          ok := !k.encrypted(cls, name);
        }
      case Many(os) =>
        if os == [] {
          ok := name == "_id" ==> !k.encrypted(cls, name);
        } else if (!k.manyToMany(cls, name) || k.opensManyToMany) && Typed(k, cls, name) {
          ok := DecryptEntities(k, ClassOf(k, cls, name), os, v.ts);
        }
        assert Selves(OpenTrees(k, ClassOf(k, cls, name), v.ts)) == Selves(v.ts);
      case Items(items) =>
        if items == [] {
          ok := name == "_id" ==> !k.encrypted(cls, name);
        } else {
          var x;
          ok, x := OpenArray(k, cls, name, items);
          r := Items(x);
        }
    }
  }

  /** All entities of a list, as for the rows of a query. */
  method DecryptEntities(k: Rules, cls: string, os: seq<JsObject>, ghost ts: seq<Tree>) returns (ok: bool)
    requires os == Selves(ts) && LinearValue(TreeMany(ts)) && ShowsValue(TreeMany(ts))
    modifies Below(TreeMany(ts))
    ensures ok <==> forall i :: 0 <= i < |ts| ==> Openable(k, cls, ts[i])
    ensures ok ==> ShowsValue(TreeMany(OpenTrees(k, cls, ts)))
    decreases ts
  {
    for i := 0 to |os|
      invariant forall j :: 0 <= j < i ==> Openable(k, cls, ts[j])
      invariant forall j :: 0 <= j < i ==> Shows(OpenTree(k, cls, ts[j]))
      invariant forall j :: i <= j < |ts| ==> Shows(ts[j])
    {
      ElementsAllocated(ts);
      ok := DecryptEntityValues(k, cls, os[i], ts[i]);
      if !ok {
        return false;
      }
      forall j | 0 <= j < |ts| && j != i
        ensures Shows(if j < i then OpenTree(k, cls, ts[j]) else ts[j])
      {
        NeighboursApart(ts, i, j);
        OpenKeepsShape(k, cls, ts[j]);
        ShapeKeepsObjects(ts[j], OpenTree(k, cls, ts[j]));
      }
    }
    ok := true;
  }
}
