/**
 * The envelope codec (`crypto_aes`): the plaintext is padded to whole
 * 16-byte blocks as in section 6.3 of RFC 5652 (PKCS#7), encrypted with
 * AES-256-CBC under a key derived with SHA-256, and authenticated with
 * HMAC-SHA256. The blob is `[16-byte IV][ciphertext][32-byte tag]`, the tag
 * taken over `IV || ciphertext`.
 *
 * The hash, the HMAC and the block cipher come from the mbedtls library and
 * are parameters here (`Primitives`); the IV, drawn from the hardware random
 * number generator, is a parameter of `EncryptBlob`.
 */
module Envelope {
  import opened Common

  const BlockSize: nat := 16
  const IvSize: nat := 16
  const TagSize: nat := 32

  type Digest = b: Bytes | |b| == 32 witness Zeros(32)
  type Block = b: Bytes | |b| == 16 witness Zeros(16)

  /** The library calls: SHA-256, HMAC-SHA256 with a 32-byte key, and
      AES-256-CBC encryption and decryption under a key and an IV. The
      cipher calls report failure with `None`, as a non-zero return code of
      `mbedtls_aes_setkey_*` or `mbedtls_aes_crypt_cbc`. */
  datatype Primitives = Primitives(
    sha256: Bytes -> Digest,
    hmacSha256: (Digest, Bytes) -> Digest,
    cbcEncrypt: (Digest, Block, Bytes) -> Option<Bytes>,
    cbcDecrypt: (Digest, Block, Bytes) -> Option<Bytes>)

  /** What the model assumes of the library: on whole blocks AES-256-CBC
      succeeds and keeps the length, and decryption under the same key and
      IV inverts encryption. */
  ghost predicate Sound(p: Primitives)
  {
    (forall k, iv, x | |x| % BlockSize == 0 ::
       p.cbcEncrypt(k, iv, x).Some? && |p.cbcEncrypt(k, iv, x).value| == |x|)
    && (forall k, iv, x | |x| % BlockSize == 0 ::
       p.cbcDecrypt(k, iv, x).Some? && |p.cbcDecrypt(k, iv, x).value| == |x|)
    && (forall k, iv, x | |x| % BlockSize == 0 ::
       p.cbcDecrypt(k, iv, p.cbcEncrypt(k, iv, x).value) == Some(x))
  }

  /** The result of both operations: the `bool` they return and the bytes
      left in their output vector. */
  datatype Outcome = Outcome(ok: bool, buf: Bytes)

  /** `std::vector::resize(n)`: truncates, or extends with zero bytes. */
  function Resize(b: Bytes, n: nat): (r: Bytes)
    ensures |r| == n
    ensures forall i :: 0 <= i < n && i < |b| ==> r[i] == b[i]
    ensures forall i :: |b| <= i < n ==> r[i] == 0
  {
    if n <= |b| then b[..n] else b + Zeros(n - |b|)
  }

  // ---------------------------------------------------------------- keys

  datatype Keys = Keys(aes: Digest, hmac: Digest)

  /** `deriveKey`: the AES key hashes the pass, the HMAC key hashes the
      bytes of "HMAC" followed by those of the pass. */
  function DeriveKeys(p: Primitives, pass: string): (k: Keys)
    ensures k.aes == p.sha256(StrBytes(pass))
    ensures k.hmac == p.sha256(StrBytes("HMAC") + StrBytes(pass))
  {
    StrBytesAppend("HMAC", pass);
    Keys(p.sha256(StrBytes(pass)), p.sha256(StrBytes("HMAC" + pass)))
  }

  // ---------------------------------------------------------------- padding

  /** The number of pad bytes for an input of `n` bytes. */
  function PadLen(n: nat): (p: nat)
    ensures 1 <= p <= BlockSize && (n + p) % BlockSize == 0
    ensures n % BlockSize == 0 ==> p == BlockSize
  {
    var p := BlockSize - n % BlockSize;
    if p == 0 then BlockSize else p
  }

  /** The padded input: `x`, then `p` bytes of value `p`. */
  function Pad(x: Bytes): (r: Bytes)
    ensures |r| == |x| + PadLen(|x|) && |r| % BlockSize == 0
    ensures r[..|x|] == x
    ensures forall i :: |x| <= i < |r| ==> r[i] == PadLen(|x|)
  {
    x + seq(PadLen(|x|), _ => PadLen(|x|))
  }

  /** The checks of `pkcs7Unpad`: a non-empty whole number of blocks whose
      last byte `p` is between 1 and 16 and whose last `p` bytes all equal
      `p`. */
  predicate WellPadded(b: Bytes)
  {
    |b| > 0 && |b| % BlockSize == 0 && 1 <= b[|b| - 1] <= BlockSize
    && forall j :: |b| - b[|b| - 1] <= j < |b| ==> b[j] == b[|b| - 1]
  }

  /** Removing the padding: the bytes before the `p` pad bytes, when the
      buffer is well padded. */
  function Unpad(b: Bytes): (r: Option<Bytes>)
    ensures r.Some? <==> WellPadded(b)
  {
    if WellPadded(b) then Some(b[..|b| - b[|b| - 1]]) else None
  }

  /** Unpadding a padded input gives the input back. */
  lemma {:induction false} UnpadOfPad(x: Bytes)
    ensures Unpad(Pad(x)) == Some(x)
  {
    var r, p := Pad(x), PadLen(|x|);
    assert r[|r| - 1] == p;
    assert WellPadded(r);
    assert r[..|r| - p] == x;
  }

  /** Every buffer that unpads is the padding of what it unpads to, so
      `Pad` and `Unpad` are inverse on well-padded buffers. */
  lemma {:induction false} PadOfUnpad(b: Bytes)
    requires Unpad(b).Some?
    ensures Pad(Unpad(b).value) == b
  {
    var p := b[|b| - 1];
    var x := b[..|b| - p];
    assert Unpad(b).value == x;
    PadLenOfTrailer(|b|, p);
    var r := Pad(x);
    assert |r| == |b|;
    forall i | 0 <= i < |b|
      ensures r[i] == b[i]
    {
      if i >= |x| {
        assert b[i] == p;
      }
    }
  }

  /** A pad length `p` removed from a whole number of blocks is the pad
      length of what remains. */
  lemma {:induction false} PadLenOfTrailer(n: nat, p: nat)
    requires n % BlockSize == 0 && 1 <= p <= BlockSize && p <= n
    ensures PadLen(n - p) == p
  {
    var q := n / BlockSize;
    assert n == BlockSize * q;
    if p == BlockSize {
      assert n - p == BlockSize * (q - 1);
    } else {
      assert n - p == BlockSize * (q - 1) + (BlockSize - p);
    }
  }

  /** `pkcs7Pad`: the output is resized to `inLen + p`, the input copied to
      its front and the `p` trailing bytes set to `p`. */
  method Pkcs7Pad(input: Bytes) returns (out: Bytes)
    ensures out == Pad(input)
  {
    var pad := BlockSize - |input| % BlockSize;
    if pad == 0 {
      pad := BlockSize;
    }
    out := input + Zeros(pad);
    var k := |input|;
    while k < |out|
      invariant |input| <= k <= |out| == |input| + pad
      invariant out[..|input|] == input
      invariant forall j :: |input| <= j < k ==> out[j] == pad
    {
      out := out[k := pad];
      k := k + 1;
    }
    assert pad == PadLen(|input|);
    assert out == Pad(input);
  }

  /** `pkcs7Unpad(buf)`: on success the buffer loses its padding; on any
      failed check it is left as it was. */
  method Pkcs7Unpad(buf: Bytes) returns (ok: bool, out: Bytes)
    ensures ok == Unpad(buf).Some?
    ensures out == if ok then Unpad(buf).value else buf
  {
    if |buf| == 0 || |buf| % BlockSize != 0 {
      return false, buf;
    }
    var pad := buf[|buf| - 1];
    if pad < 1 || pad > BlockSize {
      return false, buf;
    }
    var i := 0;
    while i < pad
      invariant 0 <= i <= pad
      invariant forall j :: |buf| - i <= j < |buf| ==> buf[j] == pad
    {
      if buf[|buf| - 1 - i] != pad {
        return false, buf;
      }
      i := i + 1;
    }
    return true, buf[..|buf| - pad];
  }

  // ---------------------------------------------------------------- blobs

  /** `aesEncryptBlob(pass, plain, outBlob)` with the IV drawn: the blob
      starts with the IV and ends with the HMAC, under the derived key, of
      everything in front of the tag (the IV and the ciphertext of the
      padded plaintext). On a library failure `outBlob` is left as it was. */
  function EncryptBlob(p: Primitives, pass: string, iv: Block, plain: Bytes, outBlob: Bytes): (r: Outcome)
    ensures !r.ok ==> r.buf == outBlob
    ensures r.ok ==> |r.buf| >= IvSize + TagSize && r.buf[..IvSize] == iv
                     && r.buf[|r.buf| - TagSize..] == p.hmacSha256(DeriveKeys(p, pass).hmac, r.buf[..|r.buf| - TagSize])
  {
    var keys := DeriveKeys(p, pass);
    match p.cbcEncrypt(keys.aes, iv, Pad(plain))
    case None => Outcome(false, outBlob)
    case Some(cipher) =>
      var body := iv + cipher;
      var tag := p.hmacSha256(keys.hmac, body);
      assert (body + tag)[..|body|] == body;
      Outcome(true, body + tag)
  }

  /** The length checks of `aesDecryptBlob`: room for the IV and the tag,
      and a whole number of blocks between them. */
  predicate Framed(blob: Bytes)
  {
    |blob| >= IvSize + TagSize && (|blob| - IvSize - TagSize) % BlockSize == 0
  }

  /** The stored tag is the HMAC of everything in front of it. */
  predicate TagOk(p: Primitives, pass: string, blob: Bytes)
    requires Framed(blob)
  {
    p.hmacSha256(DeriveKeys(p, pass).hmac, blob[..|blob| - TagSize]) == blob[|blob| - TagSize..]
  }

  /** The CBC decryption of the ciphertext of a framed blob. */
  function Decrypted(p: Primitives, pass: string, blob: Bytes): Option<Bytes>
    requires Framed(blob)
  {
    p.cbcDecrypt(DeriveKeys(p, pass).aes, blob[..IvSize], blob[IvSize..|blob| - TagSize])
  }

  /** `aesDecryptBlob(pass, blob, outPlain)`. A blob that is too short,
      not block-aligned or fails the tag check is refused before anything
      is decrypted, and `outPlain` is untouched. Success means the tag
      matched and the decryption unpadded to the result. A later failure
      does not restore `outPlain`: when the cipher fails it is the old
      buffer resized to the ciphertext length, and when only unpadding
      fails it holds the whole decryption of the authenticated ciphertext,
      padding included (`BadPaddingKeepsDecryption`). */
  function DecryptBlob(p: Primitives, pass: string, blob: Bytes, outPlain: Bytes): (r: Outcome)
    ensures !Framed(blob) ==> r == Outcome(false, outPlain)
    ensures Framed(blob) && !TagOk(p, pass, blob) ==> r == Outcome(false, outPlain)
    ensures r.ok ==> (Framed(blob) && TagOk(p, pass, blob) && Decrypted(p, pass, blob).Some?
                      && Unpad(Decrypted(p, pass, blob).value) == Some(r.buf))
    ensures !r.ok && Framed(blob) && TagOk(p, pass, blob) ==>
              (r.buf == Resize(outPlain, |blob| - IvSize - TagSize)
               || (Decrypted(p, pass, blob).Some? && r.buf == Decrypted(p, pass, blob).value
                   && Unpad(r.buf).None?))
  {
    if |blob| < IvSize + TagSize then Outcome(false, outPlain)
    else
      var cipherLen := |blob| - IvSize - TagSize;
      if cipherLen % BlockSize != 0 then Outcome(false, outPlain)
      else
        var keys := DeriveKeys(p, pass);
        if p.hmacSha256(keys.hmac, blob[..IvSize + cipherLen]) != blob[IvSize + cipherLen..] then
          Outcome(false, outPlain)
        else
          var sized := Resize(outPlain, cipherLen);
          match p.cbcDecrypt(keys.aes, blob[..IvSize], blob[IvSize..IvSize + cipherLen])
          case None => Outcome(false, sized)
          case Some(d) =>
            match Unpad(d)
            case None => Outcome(false, d)
            case Some(x) => Outcome(true, x)
  }

  /** The as-written leak: a blob that carries a valid tag over a
      ciphertext whose decryption `d` is not well padded (16 zero bytes,
      say) is refused, yet `outPlain` comes back holding `d`. */
  lemma {:induction false} BadPaddingKeepsDecryption(p: Primitives, pass: string, iv: Block, d: Bytes, outPlain: Bytes)
    requires Sound(p) && |d| % BlockSize == 0 && !WellPadded(d)
    ensures var keys := DeriveKeys(p, pass);
      var body := iv + p.cbcEncrypt(keys.aes, iv, d).value;
      DecryptBlob(p, pass, body + p.hmacSha256(keys.hmac, body), outPlain) == Outcome(false, d)
  {
    var keys := DeriveKeys(p, pass);
    var cipher := p.cbcEncrypt(keys.aes, iv, d).value;
    var body := iv + cipher;
    var blob := body + p.hmacSha256(keys.hmac, body);
    assert |cipher| == |d|;
    assert blob[..IvSize] == iv;
    assert blob[IvSize..|blob| - TagSize] == cipher;
    assert blob[..|blob| - TagSize] == body;
    assert p.cbcDecrypt(keys.aes, iv, cipher) == Some(d);
  }

  /** Sixteen zero bytes are not well padded: their last byte is 0. */
  lemma {:induction false} ZeroBlockBadlyPadded()
    ensures |Zeros(16)| % BlockSize == 0 && !WellPadded(Zeros(16))
  {
    assert Zeros(16)[15] == 0;
  }

  /** `aesDecryptBlob` as the design intends it: the decryption goes to a
      scratch buffer and reaches `outPlain` only when it unpads, so that no
      failure leaves decrypted bytes behind. */
  function DecryptBlobClean(p: Primitives, pass: string, blob: Bytes, outPlain: Bytes): (r: Outcome)
    ensures !r.ok ==> r.buf == outPlain
    ensures r.ok ==> (Framed(blob) && TagOk(p, pass, blob) && Decrypted(p, pass, blob).Some?
                      && Unpad(Decrypted(p, pass, blob).value) == Some(r.buf))
  {
    if !Framed(blob) || !TagOk(p, pass, blob) then Outcome(false, outPlain)
    else
      match Decrypted(p, pass, blob)
      case None => Outcome(false, outPlain)
      case Some(d) =>
        match Unpad(d)
        case None => Outcome(false, outPlain)
        case Some(x) => Outcome(true, x)
  }

  /** The intended decryption accepts exactly the blobs the firmware
      accepts, with the same plaintext; they differ only in what a failure
      leaves in `outPlain`. */
  lemma {:induction false} CleanAgreesOnSuccess(p: Primitives, pass: string, blob: Bytes, outPlain: Bytes)
    ensures DecryptBlobClean(p, pass, blob, outPlain).ok == DecryptBlob(p, pass, blob, outPlain).ok
    ensures DecryptBlob(p, pass, blob, outPlain).ok ==>
              DecryptBlobClean(p, pass, blob, outPlain) == DecryptBlob(p, pass, blob, outPlain)
  {
    if Framed(blob) {
      var cipherLen := |blob| - IvSize - TagSize;
      assert IvSize + cipherLen == |blob| - TagSize;
    }
  }

  /** The round trip holds for the intended decryption too. */
  lemma {:induction false} CleanDecryptOfEncrypt(p: Primitives, pass: string, iv: Block, plain: Bytes, outBlob: Bytes, outPlain: Bytes)
    requires Sound(p)
    ensures DecryptBlobClean(p, pass, EncryptBlob(p, pass, iv, plain, outBlob).buf, outPlain) == Outcome(true, plain)
  {
    DecryptOfEncrypt(p, pass, iv, plain, outBlob, outPlain);
    CleanAgreesOnSuccess(p, pass, EncryptBlob(p, pass, iv, plain, outBlob).buf, outPlain);
  }

  /** The blob is the IV, one more block than the plaintext has whole
      blocks, and the tag: at least 64 bytes and block-aligned. */
  lemma {:induction false} EncryptLayout(p: Primitives, pass: string, iv: Block, plain: Bytes, outBlob: Bytes)
    requires Sound(p)
    ensures EncryptBlob(p, pass, iv, plain, outBlob).ok
    ensures |EncryptBlob(p, pass, iv, plain, outBlob).buf| == IvSize + |plain| + PadLen(|plain|) + TagSize
    ensures |EncryptBlob(p, pass, iv, plain, outBlob).buf| >= 64
    ensures |EncryptBlob(p, pass, iv, plain, outBlob).buf| % BlockSize == 0
  {
    var keys := DeriveKeys(p, pass);
    var x := Pad(plain);
    assert p.cbcEncrypt(keys.aes, iv, x).Some? && |p.cbcEncrypt(keys.aes, iv, x).value| == |x|;
  }

  /** Decrypting an encrypted blob with the same pass gives the plaintext,
      whatever the output vector held before. */
  lemma {:induction false} DecryptOfEncrypt(p: Primitives, pass: string, iv: Block, plain: Bytes, outBlob: Bytes, outPlain: Bytes)
    requires Sound(p)
    ensures EncryptBlob(p, pass, iv, plain, outBlob).ok
    ensures DecryptBlob(p, pass, EncryptBlob(p, pass, iv, plain, outBlob).buf, outPlain) == Outcome(true, plain)
  {
    var keys := DeriveKeys(p, pass);
    var x := Pad(plain);
    EncryptLayout(p, pass, iv, plain, outBlob);
    var cipher := p.cbcEncrypt(keys.aes, iv, x).value;
    var blob := EncryptBlob(p, pass, iv, plain, outBlob).buf;
    var body := iv + cipher;
    assert blob == body + p.hmacSha256(keys.hmac, body);
    assert blob[..IvSize] == iv;
    assert blob[IvSize..|blob| - TagSize] == cipher;
    assert blob[..|blob| - TagSize] == body;
    assert p.cbcDecrypt(keys.aes, iv, cipher) == Some(x);
    UnpadOfPad(plain);
  }

  /** A blob whose tag is replaced by any other 32 bytes is refused, and
      the output vector is untouched. */
  lemma {:induction false} TamperedTagRejected(p: Primitives, pass: string, iv: Block, plain: Bytes,
                                               outBlob: Bytes, tag: Digest, outPlain: Bytes)
    requires Sound(p)
    requires tag != EncryptBlob(p, pass, iv, plain, outBlob).buf[|EncryptBlob(p, pass, iv, plain, outBlob).buf| - TagSize..]
    ensures var blob := EncryptBlob(p, pass, iv, plain, outBlob).buf;
      DecryptBlob(p, pass, blob[..|blob| - TagSize] + tag, outPlain) == Outcome(false, outPlain)
  {
    EncryptLayout(p, pass, iv, plain, outBlob);
    var blob := EncryptBlob(p, pass, iv, plain, outBlob).buf;
    var forged := blob[..|blob| - TagSize] + tag;
    assert forged[..|forged| - TagSize] == blob[..|blob| - TagSize];
    assert forged[|forged| - TagSize..] == tag;
  }

  /** A 48-byte blob passes the length checks but never decrypts: its
      ciphertext is empty, and an empty buffer does not unpad. */
  lemma {:induction false} EmptyCipherRejected(p: Primitives, pass: string, blob: Bytes, outPlain: Bytes)
    requires Sound(p) && |blob| == IvSize + TagSize
    ensures Framed(blob)
    ensures !DecryptBlob(p, pass, blob, outPlain).ok
  {
  }
}
