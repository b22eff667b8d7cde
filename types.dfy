/** Bytes, results and errors shared by the vault-unlocking code, and the
    library primitives it calls (MD5, PBKDF2-HMAC-SHA1, AES-CBC, base64),
    which the model does not define: they are passed in as function values. */
module Types {

  newtype byte = b: int | 0 <= b < 256

  type Bytes = seq<byte>

  /** An MD5 digest (RFC 1321): always 16 bytes. */
  type Digest = s: Bytes | |s| == 16 witness seq(16, _ => 0)

  datatype Option<+T> = None | Some(value: T)

  datatype Result<+T> = Ok(value: T) | Err(error: Error)

  /** The errors the Go code returns, one constructor per message or source. */
  datatype Error =
    | InvalidBlockSize        // "Invalid block size"
    | InvalidData             // "Invalid data"
    | NotBlockMultiple        // "Input is not a multiple of blocksize"
    | InvalidPadSize          // "Invalid pad size"
    | InvalidPadding          // "Invalid padding"
    | KeySizeError(size: int) // aes.KeySizeError from aes.NewCipher
    | DecodeError             // base64 decoding failed
    | LoadError               // an item file could not be loaded
    | KeyNotFound             // "Key not found"
    | EntryNotFound           // "Entry not found"

  /** The library functions the core calls.
      - md5: crypto/md5's Sum.
      - pbkdf2Sha1(password, salt, iterations, keyLen): golang.org/x/crypto/pbkdf2's Key with sha1.New.
      - cbcDecrypt(key, iv, data): AES (FIPS 197) in CBC mode (section 6.2 of NIST SP 800-38A),
        what cipher.NewCBCDecrypter(aes.NewCipher(key), iv).CryptBlocks computes.
      - base64Decode: base64.StdEncoding.DecodeString (section 4 of RFC 4648), which may fail. */
  datatype Primitives = Primitives(
    md5: Bytes -> Digest,
    pbkdf2Sha1: (Bytes, Bytes, int, nat) -> Bytes,
    cbcDecrypt: (Bytes, Bytes, Bytes) -> Bytes,
    base64Decode: string -> Option<Bytes>)
  {
    /** The output lengths the libraries guarantee. */
    ghost predicate Valid() {
      && (forall password, salt, iterations, keyLen ::
            |pbkdf2Sha1(password, salt, iterations, keyLen)| == keyLen)
      && (forall key, iv, data :: |cbcDecrypt(key, iv, data)| == |data|)
    }
  }
}
