/** utils.go: PKCS#7 unpadding, the two-round MD5 key/IV derivation and
    AES-CBC decryption followed by unpadding. */
module Utils {
  import opened Types

  /** aes.BlockSize, what block.BlockSize() returns for an AES cipher. */
  const AesBlockSize: int := 16

  /** The number of MD5 rounds deriveKey computes. */
  const Rounds: nat := 2

  // ---------------------------------------------------------------------
  // Unpadding (section 6.3 of RFC 5652)
  // ---------------------------------------------------------------------

  function Last(data: Bytes): (b: byte)
    requires |data| > 0
    ensures b == data[|data| - 1]
  {
    data[|data| - 1]
  }

  /** The length checks unpad makes before it reads the pad byte. */
  predicate WholeBlocks(data: Bytes, blockSize: int) {
    blockSize > 0 && |data| > 0 && |data| % blockSize == 0
  }

  /** The pad size (the last byte) is neither 0 nor longer than the data;
      it is not bounded by the block size. */
  predicate PadSizeInRange(data: Bytes)
    requires |data| > 0
  {
    0 < Last(data) as int <= |data|
  }

  /** Every one of the last `Last(data)` bytes equals the last byte. */
  predicate PaddingConsistent(data: Bytes)
    requires |data| > 0 && PadSizeInRange(data)
  {
    forall i :: |data| - Last(data) as int <= i < |data| ==> data[i] == Last(data)
  }

  /** `d` followed by `p` copies of the byte `p`. */
  function Pad(d: Bytes, p: int): (r: Bytes)
    requires 1 <= p <= 255
    ensures |r| == |d| + p
    ensures r[..|d|] == d
    ensures forall i :: |d| <= i < |r| ==> r[i] == p as byte
  {
    d + seq(p, _ => p as byte)
  }

  /** What OpenSSL appends when it encrypts: pad up to the next multiple of
      the block size, a whole block when `d` is already a multiple. */
  function Pkcs7Pad(d: Bytes, blockSize: int): (r: Bytes)
    requires 1 <= blockSize <= 255
    ensures |r| % blockSize == 0 && |d| < |r| <= |d| + blockSize
  {
    FillsLastBlock(|d|, blockSize);
    Pad(d, blockSize - |d| % blockSize)
  }

  /** Adding `blockSize - n % blockSize` to `n` reaches the next multiple. */
  lemma FillsLastBlock(n: nat, blockSize: int)
    requires blockSize > 0
    ensures (n + (blockSize - n % blockSize)) % blockSize == 0
  {
    var q := n / blockSize;
    assert n == q * blockSize + n % blockSize;
    assert n + (blockSize - n % blockSize) == (q + 1) * blockSize + 0;
    ModUnique(n + (blockSize - n % blockSize), blockSize, q + 1, 0);
  }

  /** Euclidean remainders are unique. */
  lemma ModUnique(x: int, b: int, a: int, r: int)
    requires b > 0 && 0 <= r < b && x == a * b + r
    ensures x % b == r
  {
    var q, m := x / b, x % b;
    assert x == q * b + m;
    assert (q - a) * b == r - m by {
      assert q * b - a * b == (q - a) * b;
    }
    if q > a {
      MulAtLeast(q - a, b);
    } else if q < a {
      MulAtLeast(a - q, b);
    }
  }

  lemma MulAtLeast(c: int, b: int)
    requires c >= 1 && b > 0
    ensures c * b >= b
  {
  }

  /** unpad: validates, in this order, the block size, emptiness, the length
      being a multiple of the block size, the pad size and the pad bytes, and
      on success returns the data without its padding. */
  function Unpad(data: Bytes, blockSize: int): (r: Result<Bytes>)
    ensures r == Err(InvalidBlockSize) <==> blockSize <= 0
    ensures r == Err(InvalidData) <==> blockSize > 0 && |data| == 0
    ensures r == Err(NotBlockMultiple) <==> blockSize > 0 && |data| > 0 && |data| % blockSize != 0
    ensures r == Err(InvalidPadSize) <==> WholeBlocks(data, blockSize) && !PadSizeInRange(data)
    ensures r == Err(InvalidPadding) <==>
      WholeBlocks(data, blockSize) && PadSizeInRange(data) && !PaddingConsistent(data)
    ensures r.Ok? <==>
      WholeBlocks(data, blockSize) && PadSizeInRange(data) && PaddingConsistent(data)
    ensures r.Ok? ==> r.value == data[..|data| - Last(data) as int] && |r.value| < |data|
    ensures r.Ok? ==> data == Pad(r.value, Last(data) as int)
  {
    if blockSize <= 0 then Err(InvalidBlockSize)
    else if |data| == 0 then Err(InvalidData)
    else if |data| % blockSize != 0 then Err(NotBlockMultiple)
    else
      var lastByte := Last(data);
      var padSize := lastByte as int;
      if padSize == 0 || padSize > |data| then Err(InvalidPadSize)
      else if !PaddingConsistent(data) then Err(InvalidPadding)
      else Ok(data[..|data| - padSize])
  }

  /** Padding with any pad size that makes the length a whole number of
      blocks is undone by Unpad. */
  lemma {:induction false} UnpadPad(d: Bytes, p: int, blockSize: int)
    requires 1 <= p <= 255 && blockSize > 0
    requires (|d| + p) % blockSize == 0
    ensures Unpad(Pad(d, p), blockSize) == Ok(d)
  {
    var padded := Pad(d, p);
    assert Last(padded) == p as byte;
    assert padded[..|padded| - p] == d;
  }

  /** Round trip with the block-size padding OpenSSL produces. */
  lemma {:induction false} UnpadPkcs7Pad(d: Bytes, blockSize: int)
    requires 1 <= blockSize <= 255
    ensures Unpad(Pkcs7Pad(d, blockSize), blockSize) == Ok(d)
  {
    var p := blockSize - |d| % blockSize;
    FillsLastBlock(|d|, blockSize);
    UnpadPad(d, p, blockSize);
  }

  /** A pad longer than one block is accepted whenever it fits in the data
      and is consistent: the bound is the data length, not the block size. */
  lemma OversizedPadAccepted(data: Bytes, blockSize: int)
    requires WholeBlocks(data, blockSize)
    requires blockSize < Last(data) as int <= |data|
    requires forall i :: |data| - Last(data) as int <= i < |data| ==> data[i] == Last(data)
    ensures Unpad(data, blockSize) == Ok(data[..|data| - Last(data) as int])
    ensures |Unpad(data, blockSize).value| < |data| - blockSize
  {
    assert PadSizeInRange(data) && PaddingConsistent(data);
  }

  /** An example: two 16-byte blocks of the byte 32 unpad to nothing. */
  lemma OversizedPadExample()
    ensures Unpad(seq(32, _ => 32 as byte), AesBlockSize) == Ok([])
  {
    var data: Bytes := seq(32, _ => 32 as byte);
    assert Last(data) == 32;
    assert PaddingConsistent(data);
  }

  /** Replacing the last byte of whole blocks by 0 or by a value larger than
      the data is always reported as a bad pad size. */
  lemma CorruptLastByte(data: Bytes, blockSize: int, v: byte)
    requires WholeBlocks(data, blockSize)
    requires v == 0 || v as int > |data|
    ensures Unpad(data[..|data| - 1] + [v], blockSize) == Err(InvalidPadSize)
  {
    var corrupted := data[..|data| - 1] + [v];
    assert |corrupted| == |data| && Last(corrupted) == v;
  }

  // ---------------------------------------------------------------------
  // Key and IV derivation (OpenSSL EVP_BytesToKey, MD5, count 1)
  // ---------------------------------------------------------------------

  /** The first `n` digests of the chain D0 = MD5(data), Di = MD5(D(i-1) ++ data). */
  function HashChain(md5: Bytes -> Digest, data: Bytes, n: nat): (r: seq<Digest>)
    ensures |r| == n
    ensures n > 0 ==> r[0] == md5(data)
    ensures forall i :: 0 < i < n ==> r[i] == md5(r[i - 1] + data)
  {
    if n == 0 then []
    else if n == 1 then [md5(data)]
    else
      var c := HashChain(md5, data, n - 1);
      c + [md5(c[n - 2] + data)]
  }

  /** deriveKey: two MD5 rounds over password ++ salt, filled into a slice
      of `Rounds` digests; the first is the key and the second the IV. */
  method DeriveKey(md5: Bytes -> Digest, password: Bytes, salt: Bytes) returns (key: Bytes, iv: Bytes)
    ensures [key, iv] == HashChain(md5, password + salt, Rounds)
    ensures key == md5(password + salt)
    ensures iv == md5(key + password + salt)
    ensures |key| == 16 && |iv| == 16
  {
    var rounds := Rounds;
    var data := password + salt;
    var md5Hashes := new Bytes[rounds];
    var sum := md5(data);
    md5Hashes[0] := sum;
    for i := 1 to rounds
      invariant md5Hashes[..i] == HashChain(md5, data, i)
    {
      sum := md5(md5Hashes[i - 1] + data);
      md5Hashes[i] := sum;
    }
    assert md5Hashes[..] == md5Hashes[..rounds];
    key, iv := md5Hashes[0], md5Hashes[1];
    assert key + password + salt == key + data;
  }

  // ---------------------------------------------------------------------
  // AES-CBC decryption
  // ---------------------------------------------------------------------

  /** The key lengths aes.NewCipher accepts (AES-128, AES-192, AES-256). */
  predicate ValidAesKeySize(n: int) {
    n == 16 || n == 24 || n == 32
  }

  /** What decrypt returns: an error on a bad key length, otherwise the
      CBC decryption of the data, unpadded with the AES block size. */
  function Decrypted(prims: Primitives, data: Bytes, key: Bytes, iv: Bytes): (r: Result<Bytes>)
    requires prims.Valid()
    requires ValidAesKeySize(|key|) ==> |iv| == AesBlockSize && |data| % AesBlockSize == 0
    ensures r.Err? && r.error.KeySizeError? <==> !ValidAesKeySize(|key|)
    ensures r.Ok? ==> ValidAesKeySize(|key|) && |r.value| < |data|
    ensures r.Ok? ==> r.value == prims.cbcDecrypt(key, iv, data)[..|r.value|]
  {
    if !ValidAesKeySize(|key|) then Err(KeySizeError(|key|))
    else Unpad(prims.cbcDecrypt(key, iv, data), AesBlockSize)
  }

  /** CryptBlocks: fills `dst` in place with the decryption of `src`. */
  method CryptBlocks(prims: Primitives, key: Bytes, iv: Bytes, dst: array<byte>, src: Bytes)
    requires prims.Valid()
    requires ValidAesKeySize(|key|) && |iv| == AesBlockSize && |src| % AesBlockSize == 0
    requires dst.Length == |src|
    modifies dst
    ensures dst[..] == prims.cbcDecrypt(key, iv, src)
  {
    var plain := prims.cbcDecrypt(key, iv, src);
    forall i | 0 <= i < dst.Length {
      dst[i] := plain[i];
    }
  }

  /** decrypt: rejects a bad key length before decrypting; otherwise
      decrypts into a fresh buffer and unpads it. The Go library panics on an
      IV that is not one block long and on data that is not whole blocks,
      so those are demanded of the caller once the key length is valid. */
  method Decrypt(prims: Primitives, data: Bytes, key: Bytes, iv: Bytes) returns (r: Result<Bytes>)
    requires prims.Valid()
    requires ValidAesKeySize(|key|) ==> |iv| == AesBlockSize && |data| % AesBlockSize == 0
    ensures !ValidAesKeySize(|key|) ==> r == Err(KeySizeError(|key|))
    ensures ValidAesKeySize(|key|) ==> r == Unpad(prims.cbcDecrypt(key, iv, data), AesBlockSize)
    ensures r == Decrypted(prims, data, key, iv)
  {
    if !ValidAesKeySize(|key|) {
      return Err(KeySizeError(|key|));
    }
    var ret := new byte[|data|];
    CryptBlocks(prims, key, iv, ret, data);
    r := Unpad(ret[..], AesBlockSize);
  }

  /** A successful decryption is exactly a CBC output that passed padding
      validation, and an invalid key is refused whatever the data. */
  lemma DecryptedOk(prims: Primitives, data: Bytes, key: Bytes, iv: Bytes)
    requires prims.Valid()
    requires ValidAesKeySize(|key|) ==> |iv| == AesBlockSize && |data| % AesBlockSize == 0
    ensures Decrypted(prims, data, key, iv).Ok? <==>
      ValidAesKeySize(|key|) && |data| > 0
      && PadSizeInRange(prims.cbcDecrypt(key, iv, data))
      && PaddingConsistent(prims.cbcDecrypt(key, iv, data))
  {
  }
}
