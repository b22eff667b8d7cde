/** agilekeychain.go: unlocking a security level's master key (GetKey) and
    decrypting the first item with a given title (Lookup). The files the Go
    code loads are taken as already-decoded, in-memory inputs. */
module AgileKeychain {
  import opened Types
  import opened Utils

  /** One record of the key list in encryptionKeys.js. */
  datatype EncryptionKey = EncryptionKey(
    level: string,
    identifier: string,
    validation: string,
    data: string,
    iterations: int)

  /** The fields of an item file `<uuid>.1password` the code reads. */
  datatype AgileEntry = AgileEntry(
    keyID: string,
    uuid: string,
    securityLevel: string,
    title: string,
    encrypted: string)

  /** `AgileEntry{}`: every field empty. */
  const EmptyEntry := AgileEntry("", "", "", "", "")

  /** A row of contents.js, reduced to its positions 0 (uuid) and 2 (title). */
  datatype ContentsEntry = ContentsEntry(uuid: string, title: string)

  // ---------------------------------------------------------------------
  // First-match search
  // ---------------------------------------------------------------------

  /** The index of the first element of `s` that satisfies `matches`. */
  function FirstIndex<T>(s: seq<T>, matches: T -> bool): (r: Option<nat>)
    ensures r.Some? ==> r.value < |s| && matches(s[r.value])
    ensures r.Some? ==> forall j :: 0 <= j < r.value ==> !matches(s[j])
    ensures r.None? <==> forall j :: 0 <= j < |s| ==> !matches(s[j])
  {
    if |s| == 0 then None
    else if matches(s[0]) then Some(0)
    else match FirstIndex(s[1..], matches)
      case None => None
      case Some(i) => Some(i + 1)
  }

  function KeyIndex(keys: seq<EncryptionKey>, id: string): (r: Option<nat>) {
    FirstIndex(keys, (k: EncryptionKey) => k.identifier == id)
  }

  function TitleIndex(contents: seq<ContentsEntry>, name: string): (r: Option<nat>) {
    FirstIndex(contents, (c: ContentsEntry) => c.title == name)
  }

  /** Extending a sequence after its first match does not move the match. */
  lemma FirstIndexPrefix<T>(s: seq<T>, matches: T -> bool, i: nat, rest: seq<T>)
    requires FirstIndex(s, matches) == Some(i)
    ensures FirstIndex(s[..i + 1] + rest, matches) == Some(i)
  {
    var t := s[..i + 1] + rest;
    assert t[i] == s[i];
    assert forall j :: 0 <= j < i ==> t[j] == s[j];
  }

  /** A non-matching element in front shifts the first match by one. */
  lemma FirstIndexSkip<T>(x: T, s: seq<T>, matches: T -> bool)
    requires !matches(x)
    ensures FirstIndex([x] + s, matches) ==
      match FirstIndex(s, matches) case None => None case Some(i) => Some(i + 1)
  {
    assert ([x] + s)[1..] == s;
  }

  // ---------------------------------------------------------------------
  // Salted blobs
  // ---------------------------------------------------------------------

  /** Bytes 8 to 16 of a salted blob; bytes 0 to 8 (the "Salted__" marker)
      are never looked at. */
  function Salt(raw: Bytes): (s: Bytes)
    requires |raw| >= 16
    ensures |s| == 8 && raw[..16] == raw[..8] + s
  {
    raw[8..16]
  }

  /** Everything after the salt. */
  function Ciphertext(raw: Bytes): (c: Bytes)
    requires |raw| >= 16
    ensures raw == raw[..8] + Salt(raw) + c
  {
    raw[16..]
  }

  /** A decoded blob the code can slice and decrypt without a Go panic: at
      least 16 bytes (raw[8:16]) and whole AES blocks after them (CryptBlocks). */
  predicate SaltedBlob(raw: Bytes) {
    |raw| >= 16 && (|raw| - 16) % AesBlockSize == 0
  }

  /** The blob a key record stores is sliceable when it decodes. */
  predicate KeyBlobSafe(prims: Primitives, key: EncryptionKey) {
    match prims.base64Decode(key.data)
    case None => true
    case Some(raw) => SaltedBlob(raw)
  }

  // ---------------------------------------------------------------------
  // GetKey
  // ---------------------------------------------------------------------

  /** What GetKey demands: the record it unlocks, if any, holds a well-formed blob. */
  predicate GetKeySafe(prims: Primitives, keys: seq<EncryptionKey>, id: string) {
    match KeyIndex(keys, id)
    case None => true
    case Some(i) => KeyBlobSafe(prims, keys[i])
  }

  /** Unlocks one key record with the password: PBKDF2-HMAC-SHA1 over the
      record's salt gives 32 bytes, the first 16 the AES key and the last 16
      the IV, which decrypt the rest of the blob. */
  function UnlockKey(prims: Primitives, key: EncryptionKey, password: Bytes): (r: Result<Bytes>)
    requires prims.Valid() && KeyBlobSafe(prims, key)
    ensures r.Err? ==> r.error in {DecodeError, InvalidData, InvalidPadSize, InvalidPadding}
  {
    match prims.base64Decode(key.data)
    case None => Err(DecodeError)
    case Some(raw) =>
      var derivedKey := prims.pbkdf2Sha1(password, Salt(raw), key.iterations, 32);
      Decrypted(prims, Ciphertext(raw), derivedKey[0..16], derivedKey[16..32])
  }

  /** GetKey's result: the first record whose identifier matches is unlocked,
      and nothing else is looked at. */
  function GetKeyResult(prims: Primitives, keys: seq<EncryptionKey>, id: string, password: Bytes): (r: Result<Bytes>)
    requires prims.Valid() && GetKeySafe(prims, keys, id)
  {
    match KeyIndex(keys, id)
    case None => Err(KeyNotFound)
    case Some(i) => UnlockKey(prims, keys[i], password)
  }

  /** GetKey: the loop over the key list with its early returns. */
  method GetKey(prims: Primitives, keys: seq<EncryptionKey>, securityIdentifier: string, password: Bytes)
    returns (r: Result<Bytes>)
    requires prims.Valid() && GetKeySafe(prims, keys, securityIdentifier)
    ensures r == GetKeyResult(prims, keys, securityIdentifier, password)
    ensures r == Err(KeyNotFound) <==>
      forall j :: 0 <= j < |keys| ==> keys[j].identifier != securityIdentifier
    ensures KeyIndex(keys, securityIdentifier).Some? ==>
      var key := keys[KeyIndex(keys, securityIdentifier).value];
      match prims.base64Decode(key.data)
      case None => r == Err(DecodeError)
      case Some(raw) =>
        var derived := prims.pbkdf2Sha1(password, raw[8..16], key.iterations, 32);
        r == Unpad(prims.cbcDecrypt(derived[..16], derived[16..], raw[16..]), AesBlockSize)
  {
    for n := 0 to |keys|
      invariant forall j :: 0 <= j < n ==> keys[j].identifier != securityIdentifier
    {
      var key := keys[n];
      if key.identifier != securityIdentifier {
        continue;
      }
      assert KeyIndex(keys, securityIdentifier) == Some(n);
      var decoded := prims.base64Decode(key.data);
      if decoded.None? {
        return Err(DecodeError);
      }
      var rawKey := decoded.value;
      var keySalt := rawKey[8..16];
      var keyData := rawKey[16..];
      var derivedKey := prims.pbkdf2Sha1(password, keySalt, key.iterations, 32);
      var aesKey := derivedKey[0..16];
      var aesIv := derivedKey[16..32];
      assert derivedKey[..16] == aesKey && derivedKey[16..] == aesIv;
      var keyRaw := Decrypt(prims, keyData, aesKey, aesIv);
      if keyRaw.Err? {
        return Err(keyRaw.error);
      }
      return Ok(keyRaw.value);
    }
    return Err(KeyNotFound);
  }

  /** Records after the first match are never examined: replacing them
      changes nothing, even when the first match fails. */
  lemma GetKeyIgnoresLaterKeys(prims: Primitives, keys: seq<EncryptionKey>, id: string, password: Bytes,
                               i: nat, rest: seq<EncryptionKey>)
    requires prims.Valid() && GetKeySafe(prims, keys, id)
    requires KeyIndex(keys, id) == Some(i)
    ensures GetKeySafe(prims, keys[..i + 1] + rest, id)
    ensures GetKeyResult(prims, keys[..i + 1] + rest, id, password) == GetKeyResult(prims, keys, id, password)
  {
    FirstIndexPrefix(keys, (k: EncryptionKey) => k.identifier == id, i, rest);
    assert (keys[..i + 1] + rest)[i] == keys[i];
  }

  /** A record with another identifier in front of the list changes nothing. */
  lemma GetKeySkipsOtherLevels(prims: Primitives, other: EncryptionKey, keys: seq<EncryptionKey>,
                               id: string, password: Bytes)
    requires prims.Valid() && GetKeySafe(prims, keys, id)
    requires other.identifier != id
    ensures GetKeySafe(prims, [other] + keys, id)
    ensures GetKeyResult(prims, [other] + keys, id, password) == GetKeyResult(prims, keys, id, password)
  {
    FirstIndexSkip(other, keys, (k: EncryptionKey) => k.identifier == id);
    if i :| KeyIndex(keys, id) == Some(i) {
      assert ([other] + keys)[i + 1] == keys[i];
    }
  }

  /** The first 8 bytes of a key blob do not influence the result. */
  lemma UnlockKeyIgnoresMarker(prims: Primitives, key1: EncryptionKey, key2: EncryptionKey, password: Bytes)
    requires prims.Valid() && KeyBlobSafe(prims, key1) && KeyBlobSafe(prims, key2)
    requires key1.iterations == key2.iterations
    requires prims.base64Decode(key1.data).Some? && prims.base64Decode(key2.data).Some?
    requires |prims.base64Decode(key1.data).value| == |prims.base64Decode(key2.data).value|
    requires prims.base64Decode(key1.data).value[8..] == prims.base64Decode(key2.data).value[8..]
    ensures UnlockKey(prims, key1, password) == UnlockKey(prims, key2, password)
  {
    var raw1, raw2 := prims.base64Decode(key1.data).value, prims.base64Decode(key2.data).value;
    assert Salt(raw1) == raw1[8..][..8] && Salt(raw2) == raw2[8..][..8];
    assert Ciphertext(raw1) == raw1[8..][8..] && Ciphertext(raw2) == raw2[8..][8..];
  }

  // ---------------------------------------------------------------------
  // Lookup
  // ---------------------------------------------------------------------

  /** The item's own blob is sliceable when the code reaches it, that is
      once its master key has been unlocked. */
  predicate EntrySafe(prims: Primitives, keys: seq<EncryptionKey>, entry: AgileEntry, password: Bytes)
    requires prims.Valid()
  {
    && GetKeySafe(prims, keys, entry.keyID)
    && (GetKeyResult(prims, keys, entry.keyID, password).Ok? ==>
          match prims.base64Decode(entry.encrypted)
          case None => true
          case Some(raw) => SaltedBlob(raw))
  }

  /** What Lookup demands: the item it decrypts, if any, is safe to decrypt. */
  predicate LookupSafe(prims: Primitives, contents: seq<ContentsEntry>, entries: map<string, AgileEntry>,
                       keys: seq<EncryptionKey>, name: string, password: Bytes)
    requires prims.Valid()
  {
    match TitleIndex(contents, name)
    case None => true
    case Some(i) => contents[i].uuid in entries ==> EntrySafe(prims, keys, entries[contents[i].uuid], password)
  }

  /** Decrypts one item: the master key of the level named by its keyID,
      then the two-MD5-round key and IV from that master key and the item's
      salt, then the rest of the item's blob. */
  function EntryData(prims: Primitives, keys: seq<EncryptionKey>, entry: AgileEntry, password: Bytes)
    : (r: Result<Bytes>)
    requires prims.Valid() && EntrySafe(prims, keys, entry, password)
    ensures r.Err? ==> r.error in {KeyNotFound, DecodeError, InvalidData, InvalidPadSize, InvalidPadding}
  {
    match GetKeyResult(prims, keys, entry.keyID, password)
    case Err(e) => Err(e)
    case Ok(masterKey) =>
      match prims.base64Decode(entry.encrypted)
      case None => Err(DecodeError)
      case Some(raw) =>
        var chain := HashChain(prims.md5, masterKey + Salt(raw), Rounds);
        Decrypted(prims, Ciphertext(raw), chain[0], chain[1])
  }

  /** Lookup's result: the first contents row with the title is processed;
      on success the empty entry is returned, not the decrypted item. */
  function LookupResult(prims: Primitives, contents: seq<ContentsEntry>, entries: map<string, AgileEntry>,
                        keys: seq<EncryptionKey>, name: string, password: Bytes): (r: Result<AgileEntry>)
    requires prims.Valid() && LookupSafe(prims, contents, entries, keys, name, password)
  {
    match TitleIndex(contents, name)
    case None => Err(EntryNotFound)
    case Some(i) =>
      if contents[i].uuid !in entries then Err(LoadError)
      else match EntryData(prims, keys, entries[contents[i].uuid], password)
        case Err(e) => Err(e)
        case Ok(_) => Ok(EmptyEntry)
  }

  /** Lookup: the loop over contents.js with its early returns. `entries`
      stands for the item files loadPassword reads, by uuid. */
  method Lookup(prims: Primitives, contents: seq<ContentsEntry>, entries: map<string, AgileEntry>,
                keys: seq<EncryptionKey>, name: string, password: Bytes)
    returns (r: Result<AgileEntry>)
    requires prims.Valid() && LookupSafe(prims, contents, entries, keys, name, password)
    ensures r == LookupResult(prims, contents, entries, keys, name, password)
    ensures r.Ok? ==> r.value == EmptyEntry
    ensures r == Err(EntryNotFound) <==> forall j :: 0 <= j < |contents| ==> contents[j].title != name
  {
    var ret := EmptyEntry;
    for n := 0 to |contents|
      invariant forall j :: 0 <= j < n ==> contents[j].title != name
    {
      var v := contents[n];
      if v.title != name {
        continue;
      }
      assert TitleIndex(contents, name) == Some(n);
      if v.uuid !in entries {
        return Err(LoadError);
      }
      var entry := entries[v.uuid];
      var key := GetKey(prims, keys, entry.keyID, password);
      if key.Err? {
        return Err(key.error);
      }
      var decoded := prims.base64Decode(entry.encrypted);
      if decoded.None? {
        return Err(DecodeError);
      }
      var rawPassword := decoded.value;
      var passwordSalt := rawPassword[8..16];
      var passwordData := rawPassword[16..];
      var passwordKey, passwordIv := DeriveKey(prims.md5, key.value, passwordSalt);
      var data := Decrypt(prims, passwordData, passwordKey, passwordIv);
      if data.Err? {
        return Err(data.error);
      }
      return Ok(ret);
    }
    return Err(EntryNotFound);
  }

  /** Lookup succeeds exactly when the first row with the title has an item
      file, that item's master key unlocks, its blob decodes to more than the
      marker and salt, and the CBC decryption of the rest under the derived
      key and IV passes both padding checks. */
  lemma LookupOk(prims: Primitives, contents: seq<ContentsEntry>, entries: map<string, AgileEntry>,
                 keys: seq<EncryptionKey>, name: string, password: Bytes)
    requires prims.Valid() && LookupSafe(prims, contents, entries, keys, name, password)
    ensures LookupResult(prims, contents, entries, keys, name, password).Ok? <==>
      && TitleIndex(contents, name).Some?
      && contents[TitleIndex(contents, name).value].uuid in entries
      && var entry := entries[contents[TitleIndex(contents, name).value].uuid];
         && GetKeyResult(prims, keys, entry.keyID, password).Ok?
         && prims.base64Decode(entry.encrypted).Some?
         && var m := GetKeyResult(prims, keys, entry.keyID, password).value;
            var raw := prims.base64Decode(entry.encrypted).value;
            && |raw| > 16
            && var s := raw[8..16];
               var out := prims.cbcDecrypt(prims.md5(m + s), prims.md5(prims.md5(m + s) + m + s), raw[16..]);
               PadSizeInRange(out) && PaddingConsistent(out)
  {
    match TitleIndex(contents, name)
    case None =>
    case Some(i) =>
      var uuid := contents[i].uuid;
      if uuid in entries {
        var entry := entries[uuid];
        EntryDataRouting(prims, keys, entry, password);
        if GetKeyResult(prims, keys, entry.keyID, password).Ok? {
          var m := GetKeyResult(prims, keys, entry.keyID, password).value;
          match prims.base64Decode(entry.encrypted)
          case None =>
          case Some(raw) =>
            var s := raw[8..16];
            var key, iv := prims.md5(m + s), prims.md5(prims.md5(m + s) + m + s);
            DecryptedOk(prims, raw[16..], key, iv);
        }
      }
  }

  /** Rows after the first one with the title are never examined, so of two
      items with the same title the first decides the outcome. */
  lemma LookupIgnoresLaterRows(prims: Primitives, contents: seq<ContentsEntry>, entries: map<string, AgileEntry>,
                               keys: seq<EncryptionKey>, name: string, password: Bytes,
                               i: nat, rest: seq<ContentsEntry>)
    requires prims.Valid() && LookupSafe(prims, contents, entries, keys, name, password)
    requires TitleIndex(contents, name) == Some(i)
    ensures LookupSafe(prims, contents[..i + 1] + rest, entries, keys, name, password)
    ensures LookupResult(prims, contents[..i + 1] + rest, entries, keys, name, password) ==
            LookupResult(prims, contents, entries, keys, name, password)
  {
    FirstIndexPrefix(contents, (c: ContentsEntry) => c.title == name, i, rest);
    assert (contents[..i + 1] + rest)[i] == contents[i];
  }

  /** The master key is chosen by the item's keyID: its securityLevel (and
      its uuid and title fields) play no part. */
  lemma EntryDataUsesKeyID(prims: Primitives, keys: seq<EncryptionKey>, entry: AgileEntry, password: Bytes,
                           level: string, uuid: string, title: string)
    requires prims.Valid() && EntrySafe(prims, keys, entry, password)
    ensures EntrySafe(prims, keys, entry.(securityLevel := level, uuid := uuid, title := title), password)
    ensures EntryData(prims, keys, entry.(securityLevel := level, uuid := uuid, title := title), password) ==
            EntryData(prims, keys, entry, password)
  {
  }

  /** An item decrypts with the key and IV deriveKey computes from the
      master key and the item's salt, and a failure on the way is returned
      as it is. */
  lemma EntryDataRouting(prims: Primitives, keys: seq<EncryptionKey>, entry: AgileEntry, password: Bytes)
    requires prims.Valid() && EntrySafe(prims, keys, entry, password)
    ensures GetKeyResult(prims, keys, entry.keyID, password).Err? ==>
      EntryData(prims, keys, entry, password) == GetKeyResult(prims, keys, entry.keyID, password)
    ensures GetKeyResult(prims, keys, entry.keyID, password).Ok? ==>
      var masterKey := GetKeyResult(prims, keys, entry.keyID, password).value;
      match prims.base64Decode(entry.encrypted)
      case None => EntryData(prims, keys, entry, password) == Err(DecodeError)
      case Some(raw) =>
        var key := prims.md5(masterKey + raw[8..16]);
        var iv := prims.md5(key + masterKey + raw[8..16]);
        EntryData(prims, keys, entry, password) == Unpad(prims.cbcDecrypt(key, iv, raw[16..]), AesBlockSize)
  {
    if GetKeyResult(prims, keys, entry.keyID, password).Ok? {
      var masterKey := GetKeyResult(prims, keys, entry.keyID, password).value;
      if raw :| prims.base64Decode(entry.encrypted) == Some(raw) {
        var chain := HashChain(prims.md5, masterKey + Salt(raw), Rounds);
        assert chain[1] == prims.md5(chain[0] + (masterKey + raw[8..16]));
        assert chain[0] + (masterKey + raw[8..16]) == chain[0] + masterKey + raw[8..16];
      }
    }
  }
}
