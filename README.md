# go-onepass agilekeychain unlocking, in Dafny

A model of how the `.agilekeychain` support of go-onepass unlocks and decrypts
1Password vault items. The model covers the byte-level pipeline and the two
searches that drive it:

- `unpad` removes PKCS#7 padding (section 6.3 of RFC 5652) and rejects bad input
  with one of five errors.
- `deriveKey` is OpenSSL's `EVP_BytesToKey` with MD5, count 1 and exactly two
  rounds. It gives `key = MD5(secret ++ salt)` and `iv = MD5(key ++ secret ++ salt)`.
- `decrypt` refuses a key that is not 16, 24 or 32 bytes long. Otherwise it
  decrypts with AES-CBC into a fresh buffer and unpads with block size 16.
- `GetKey` unlocks the first key record whose identifier matches a security
  level. The record's blob holds an 8-byte marker, then an 8-byte salt, then
  ciphertext. PBKDF2-HMAC-SHA1 (section 5.2 of RFC 8018) turns the password and
  salt into 32 bytes: the AES key, then the IV.
- `Lookup` finds the first contents row with a given title. It unlocks the
  master key for the item's `keyID`, derives the item key and IV from the master
  key and the item's salt, and decrypts. On success it returns an empty
  `AgileEntry`.

Modules:

- `Types` (`types.dfy`): bytes, `Option`, `Result` and the error kinds. It also
  holds `Primitives`, a record of the library functions the code calls.
- `Utils` (`utils.dfy`): the model of utils.go.
- `AgileKeychain` (`agilekeychain.dfy`): the model of agilekeychain.go.

MD5, PBKDF2-HMAC-SHA1, AES-CBC decryption and base64 decoding are not defined
here. Every operation takes them as a `Primitives` value.

- `md5` returns a 16-byte `Digest`.
- `Primitives.Valid()` states the two length guarantees the code relies on:
  PBKDF2 returns the requested number of bytes, and CBC decryption keeps the
  length of its input.
- Base64 decoding is a function that may fail, so the decode-error paths of
  `GetKey` and `Lookup` stay in the model.

Where the Go code would panic, the model demands the condition of its caller.

- Slicing `raw[8:16]` needs a blob of at least 16 bytes.
- `cipher.NewCBCDecrypter` needs an IV of one block.
- `CryptBlocks` needs whole 16-byte blocks.

`Decrypt` demands the last two only when the key length is valid, because the
key-length error comes first. `GetKeySafe` and `LookupSafe` demand a
well-formed blob only for the record or item the code actually reaches.

Some of the Go behaviour may look surprising; the model follows the code:

- Ciphertext that is not whole blocks, and blobs shorter than 16 bytes, make the
  code panic. They are not reported as errors, so the model makes them
  preconditions.
- `Lookup` returns the empty entry `AgileEntry{}`, not the decrypted bytes.
- The iteration count is not checked. It goes to PBKDF2 unchanged.
- The pad size is bounded by the data length, not by the block size, so a
  consistent pad longer than one block is accepted (`OversizedPadAccepted`).

## Model

| member | source | states |
|---|---|---|
| `Utils.Unpad` | utils.go:34-61 | Each error happens exactly under its condition, and the checks run in order: block size, empty data, whole blocks, pad size 0 or larger than the data, inconsistent pad bytes. Success happens exactly when all checks pass. The result is then the prefix without the last `p` bytes, strictly shorter than the input, and re-padding it with `p` gives the input back |
| `Utils.UnpadPad` | utils.go:47-60 | For any data and any pad size 1..255 that makes the length a whole number of blocks, unpadding the padded data returns the data |
| `Utils.UnpadPkcs7Pad` | utils.go:31-33 | Unpad undoes the PKCS#7 padding OpenSSL applies, for any block size 1..255 |
| `Utils.OversizedPadAccepted` | utils.go:47-60 | The pad bound is the data length, not the block size. For all whole-block data whose last byte p satisfies blockSize < p <= length, with the last p bytes equal to p, unpad succeeds. It returns the data without those p bytes, so more than one block is removed |
| `Utils.OversizedPadExample` | utils.go:47-51 | An example of the above: 32 bytes of value 32 unpad to the empty sequence with block size 16 |
| `Utils.CorruptLastByte` | utils.go:47-51 | Replacing the last byte of whole-block data by 0, or by a value above the length, always gives "Invalid pad size" |
| `Utils.HashChain` | utils.go:66-74 | The digest chain: digest 0 is MD5(data) and digest i is MD5(digest i-1 ++ data) |
| `Utils.DeriveKey` | utils.go:63-77 | Exactly two rounds fill the digest slice in place. The key is MD5(password ++ salt), the IV is MD5(key ++ password ++ salt), and both are 16 bytes |
| `Utils.Decrypted` | utils.go:17-29 | It demands the IV and data lengths Go's cipher library needs once the key is valid, as `Decrypt` does. A key-size error happens exactly when the key is not 16, 24 or 32 bytes. A success has a valid key and is a strict prefix of the CBC decryption |
| `Utils.CryptBlocks` | utils.go:25-26 | The fresh buffer is filled in place with the CBC decryption of the data |
| `Utils.Decrypt` | utils.go:17-29 | An invalid key length is rejected with the key-size error before anything is decrypted. Otherwise the result is Unpad(CBC-decrypt(key, iv, data), 16) |
| `Utils.DecryptedOk` | utils.go:23-28 | Given the IV and data lengths the cipher library needs, a decrypt succeeds exactly when the key is valid, the data is non-empty and the CBC output passes both padding checks |
| `AgileKeychain.FirstIndex` | agilekeychain.go:151-155 | First-match search: the index found matches and no earlier element does. No index exactly when nothing matches |
| `AgileKeychain.Salt` | agilekeychain.go:161-163 | The salt is bytes 8..16 of the blob. Bytes 0..8, the marker, are skipped and never checked |
| `AgileKeychain.Ciphertext` | agilekeychain.go:164 | The ciphertext is bytes 16.. of the blob, so the blob is marker ++ salt ++ ciphertext |
| `AgileKeychain.UnlockKey` | agilekeychain.go:156-176 | Unlocking a record fails only with a decode error, "Invalid data" or a padding error. The 16-byte derived key never trips the key-size check, and whole blocks never trip the length check |
| `AgileKeychain.GetKey` | agilekeychain.go:145-180 | The loop returns the unlock of the first record whose identifier matches. "Key not found" comes back exactly when no identifier matches. For the match: a decode failure gives the decode error; otherwise the result is Unpad(CBC(dk[0:16], dk[16:32], raw[16:]), 16), where dk is the 32-byte PBKDF2-HMAC-SHA1 output over password, raw[8:16] and the record's iteration count |
| `AgileKeychain.GetKeyIgnoresLaterKeys` | agilekeychain.go:151-177 | Records after the first match never affect the result, even when unlocking the match fails |
| `AgileKeychain.GetKeySkipsOtherLevels` | agilekeychain.go:151-154 | A record with a different identifier placed in front changes nothing |
| `AgileKeychain.UnlockKeyIgnoresMarker` | agilekeychain.go:161-164 | Two blobs that differ only in their first 8 bytes unlock to the same result |
| `AgileKeychain.EntryData` | agilekeychain.go:89-107 | Decrypting an item fails only with "Key not found", a decode error, "Invalid data" or a padding error |
| `AgileKeychain.EntryDataRouting` | agilekeychain.go:89-107 | A GetKey error is returned unchanged. Otherwise the item blob is decoded, and a decode failure gives the decode error. Otherwise the result is Unpad(CBC(MD5(m ++ s), MD5(MD5(m ++ s) ++ m ++ s), raw[16:]), 16), where m is the master key and s is raw[8:16] |
| `AgileKeychain.EntryDataUsesKeyID` | agilekeychain.go:89 | The master key is chosen by the item's keyID. Its securityLevel, uuid and title fields do not matter |
| `AgileKeychain.Lookup` | agilekeychain.go:71-119 | The loop returns what LookupResult describes. A success is always the empty AgileEntry. "Entry not found" comes back exactly when no contents row has the title |
| `AgileKeychain.LookupOk` | agilekeychain.go:79-115 | Lookup succeeds exactly when all of these hold for the first row with the title: it has an item file; GetKey for the item's keyID succeeds with master key m; the item blob decodes to raw with more than 16 bytes; and out = CBC(MD5(m ++ s), MD5(MD5(m ++ s) ++ m ++ s), raw[16:]) passes both padding checks, where s is raw[8:16] (pad size in 1..length, pad bytes consistent) |
| `AgileKeychain.LookupIgnoresLaterRows` | agilekeychain.go:79-82 | Rows after the first one with the title never affect the result, so among duplicate titles the first decides |

## Left out

- `base64decode` (utils.go:12-14) is not modelled. It becomes the abstract, fallible `base64Decode` of `Primitives`.
- The internals of AES, CBC mode, MD5, SHA-1 and PBKDF2 are not modelled. They are Go library code, and the model keeps only their output lengths.
- `loadContents` and `loadKeys` (agilekeychain.go:121-131, 182-192) are not modelled. They do file and JSON I/O. Their results are parameters, so their failures (a missing file, bad JSON) are not modelled either.
- `loadPassword` (agilekeychain.go:133-143) becomes the map `entries` from uuid to item. A uuid missing from the map gives `LoadError`, standing for any failure to open or decode the item file.
- Untyped contents rows (`[]interface{}`) become `ContentsEntry` records. So the Go panics on a short row or a non-string uuid, and a non-string title never matching, are not modelled.
- `NewAgileKeychain` (agilekeychain.go:59-69) only checks a directory, so it is not modelled. main.go is not part of this model.
- `log.Println(string(data))` (agilekeychain.go:109) is a logging side effect and is not modelled.
- The identity of the pointer that `Lookup` returns is not modelled. The empty entry is returned as a value, while Go returns a pointer to a newly allocated struct.
- The `append` aliasing in `deriveKey` is not modelled. Its slices are plain sequence concatenations, because it never changes visible contents.
- The Go string-to-bytes conversion of the password (`[]byte(password)`) is not modelled; the password is taken as bytes.
- Known-answer vectors for MD5, PBKDF2 and AES are not stated, because the primitives are abstract.
