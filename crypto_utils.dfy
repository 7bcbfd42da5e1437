/** The envelope every vault record's content is stored in: an IV and an AEAD
    ciphertext, framed as a 4-byte big-endian IV length, the IV and the
    ciphertext, then Base64-encoded. */
module CryptoUtils {
  import opened Wrappers
  import opened Binary
  import Base64
  import Utf8

  /** An IV and the ciphertext, tag included, that was sealed under it. */
  datatype EncryptedPayload = EncryptedPayload(iv: Bytes, ciphertext: Bytes)

  /** The exceptions the envelope and cipher code can throw. */
  datatype CryptoError =
    | BufferOverflow        // the framed size does not fit an Int: `ByteBuffer.allocate` or `put` throws
    | BadBase64             // `Base64.decode` rejects the text
    | BufferUnderflow       // `getInt` or `get(iv)` reads past the end of the decoded bytes
    | NegativeArraySize     // `ByteArray(ivLength)` with a negative length prefix
    | AuthenticationFailed  // the cipher's tag check fails

  /** `ByteBuffer.putInt` of a non-negative Int: its four big-endian bytes. */
  function IntBytes(n: int): (b: Bytes)
    requires 0 <= n <= INT_MAX
    ensures |b| == 4 && b[0] < 128
  {
    [n / 0x100_0000, n / 0x1_0000 % 256, n / 256 % 256, n % 256]
  }

  /** `ByteBuffer.getInt`: four big-endian bytes read as a signed 32-bit Int. */
  function IntOf(b0: Byte, b1: Byte, b2: Byte, b3: Byte): (n: int)
    ensures -0x8000_0000 <= n <= INT_MAX
    ensures n < 0 <==> b0 >= 128
  {
    var u := b0 as int * 0x100_0000 + b1 as int * 0x1_0000 + b2 as int * 256 + b3 as int;
    if u <= INT_MAX then u else u - 0x1_0000_0000
  }

  /** `getInt` reads back what `putInt` wrote, and four bytes that read as a
      non-negative Int are the bytes `putInt` writes for it. */
  lemma IntBytesRoundTrip(n: int, b: Bytes)
    requires 0 <= n <= INT_MAX && |b| == 4
    ensures IntOf(IntBytes(n)[0], IntBytes(n)[1], IntBytes(n)[2], IntBytes(n)[3]) == n
    ensures IntOf(b[0], b[1], b[2], b[3]) == n ==> b == IntBytes(n)
  {
    var q1, r0 := n / 256, n % 256;
    var q2, r1 := q1 / 256, q1 % 256;
    var q3, r2 := q2 / 256, q2 % 256;
    assert n == q1 * 256 + r0 && q1 == q2 * 256 + r1 && q2 == q3 * 256 + r2;
    assert n / 0x1_0000 == q2 && n / 0x100_0000 == q3;
    if IntOf(b[0], b[1], b[2], b[3]) == n {
      var x0, x1, x2, x3: int := b[0], b[1], b[2], b[3];
      assert x0 < 128;
      var u := x0 * 0x100_0000 + x1 * 0x1_0000 + x2 * 256 + x3;
      assert u == n;
      assert u % 256 == x3 && u / 256 == x0 * 0x1_0000 + x1 * 256 + x2;
      assert q1 % 256 == x2 && q1 / 256 == x0 * 256 + x1;
      assert q2 % 256 == x1 && q2 / 256 == x0;
    }
  }

  /** The framed size fits the Int capacity `ByteBuffer.allocate` takes. */
  predicate Fits(p: EncryptedPayload) {
    4 + |p.iv| + |p.ciphertext| <= INT_MAX
  }

  /** The bytes `toBase64` frames before encoding: the IV length, the IV, the ciphertext. */
  function Serialize(p: EncryptedPayload): (b: Bytes)
    requires Fits(p)
    ensures |b| == 4 + |p.iv| + |p.ciphertext|
    ensures b[4..4 + |p.iv|] == p.iv && b[4 + |p.iv|..] == p.ciphertext
  {
    var b := IntBytes(|p.iv|) + p.iv + p.ciphertext;
    assert b[4..4 + |p.iv|] == p.iv && b[4 + |p.iv|..] == p.ciphertext;
    b
  }

  /** What `fromBase64` makes of the decoded bytes: the first four are the IV
      length, the next that many the IV, and all the rest the ciphertext. */
  function Parse(data: Bytes): (r: Result<EncryptedPayload, CryptoError>)
    ensures r.Ok? ==> 4 + |r.value.iv| + |r.value.ciphertext| == |data|
    ensures r.Ok? ==> data[4..] == r.value.iv + r.value.ciphertext
  {
    if |data| < 4 then Err(BufferUnderflow)
    else
      var ivLength := IntOf(data[0], data[1], data[2], data[3]);
      if ivLength < 0 then Err(NegativeArraySize)
      else if ivLength > |data| - 4 then Err(BufferUnderflow)
      else
        assert data[4..] == data[4..4 + ivLength] + data[4 + ivLength..];
        Ok(EncryptedPayload(data[4..4 + ivLength], data[4 + ivLength..]))
  }

  /** Parsing inverts framing, for every IV and ciphertext, empty ones included. */
  lemma ParseSerialize(p: EncryptedPayload)
    requires Fits(p)
    ensures Parse(Serialize(p)) == Ok(p)
  {
    var b := Serialize(p);
    IntBytesRoundTrip(|p.iv|, b[..4]);
    assert b[..4] == IntBytes(|p.iv|);
  }

  /** Parsing either fails or consumes every byte: framing what it returns
      gives back the input, so no payload is ever truncated. */
  lemma SerializeParse(data: Bytes)
    requires |data| <= INT_MAX
    requires Parse(data).Ok?
    ensures Fits(Parse(data).value) && Serialize(Parse(data).value) == data
  {
    var p := Parse(data).value;
    var n := IntOf(data[0], data[1], data[2], data[3]);
    IntBytesRoundTrip(n, data[..4]);
    assert data == data[..4] + data[4..];
  }

  /** Parsing fails exactly when there are fewer than four bytes, when the
      length prefix is negative, or when it exceeds the bytes that follow. */
  lemma ParseFailures(data: Bytes)
    ensures Parse(data).Err? <==>
      |data| < 4 || IntOf(data[0], data[1], data[2], data[3]) < 0
                 || IntOf(data[0], data[1], data[2], data[3]) > |data| - 4
    ensures |data| < 4 ==> Parse(data) == Err(BufferUnderflow)
    ensures |data| >= 4 && data[0] >= 128 ==> Parse(data) == Err(NegativeArraySize)
  {
  }

  /** The text `toBase64` returns, or the exception it throws. */
  function EncodeText(p: EncryptedPayload): (r: Result<string, CryptoError>)
    ensures r.Ok? <==> Fits(p)
    ensures r.Ok? ==> |r.value| == 4 * ((6 + |p.iv| + |p.ciphertext|) / 3)
  {
    if Fits(p) then Ok(Base64.Encode(Serialize(p))) else Err(BufferOverflow)
  }

  /** The payload `fromBase64` returns, or the exception it throws. */
  function DecodeText(encoded: string): (r: Result<EncryptedPayload, CryptoError>)
    ensures Base64.Decode(encoded).None? ==> r == Err(BadBase64)
    ensures r.Ok? ==> Base64.Decode(encoded).Some?
                      && 4 + |r.value.iv| + |r.value.ciphertext| == |Base64.Decode(encoded).value|
  {
    match Base64.Decode(encoded)
    case None => Err(BadBase64)
    case Some(data) => Parse(data)
  }

  /** `fromBase64(toBase64(p)) == p` whenever `toBase64` succeeds. */
  lemma DecodeTextEncodeText(p: EncryptedPayload)
    requires Fits(p)
    ensures DecodeText(EncodeText(p).value) == Ok(p)
  {
    Base64.DecodeEncode(Serialize(p));
    ParseSerialize(p);
  }

  /** `ByteBuffer.put(src)` at `position`: copies `src` into `buffer` and
      returns the advanced position. */
  method Put(buffer: array<Byte>, position: nat, src: Bytes) returns (next: nat)
    requires position + |src| <= buffer.Length
    modifies buffer
    ensures next == position + |src|
    ensures buffer[position..next] == src
    ensures buffer[..position] == old(buffer[..position])
    ensures buffer[next..] == old(buffer[next..])
  {
    var i := 0;
    while i < |src|
      invariant 0 <= i <= |src|
      invariant buffer[position..position + i] == src[..i]
      invariant buffer[..position] == old(buffer[..position])
      invariant buffer[position + i..] == old(buffer[position + i..])
    {
      buffer[position + i] := src[i];
      i := i + 1;
    }
    next := position + |src|;
  }

  /** `ByteBuffer.get(dst)` at `position`: fills `dst` from `data`. */
  method Get(data: Bytes, position: nat, dst: array<Byte>)
    requires position + dst.Length <= |data|
    modifies dst
    ensures dst[..] == data[position..position + dst.Length]
  {
    var i := 0;
    while i < dst.Length
      invariant 0 <= i <= dst.Length
      invariant dst[..i] == data[position..position + i]
    {
      dst[i] := data[position + i];
      i := i + 1;
    }
  }

  /** `EncryptedPayload.toBase64`: fills a buffer of `4 + |iv| + |ciphertext|`
      bytes with the IV length, the IV and the ciphertext, and encodes it. */
  method ToBase64(p: EncryptedPayload) returns (r: Result<string, CryptoError>)
    ensures r == EncodeText(p)
  {
    var capacity := 4 + |p.iv| + |p.ciphertext|;
    if capacity > INT_MAX {
      return Err(BufferOverflow);
    }
    var buffer := new Byte[capacity];
    var position := Put(buffer, 0, IntBytes(|p.iv|));
    position := Put(buffer, position, p.iv);
    position := Put(buffer, position, p.ciphertext);
    assert buffer[..] == Serialize(p) by {
      assert buffer[..] == buffer[..4] + buffer[4..4 + |p.iv|] + buffer[4 + |p.iv|..];
    }
    r := Ok(Base64.Encode(buffer[..]));
  }

  /** `EncryptedPayload.fromBase64`: decodes the text, reads the IV length, then
      that many IV bytes, then every remaining byte as the ciphertext. */
  method FromBase64(encoded: string) returns (r: Result<EncryptedPayload, CryptoError>)
    ensures r == DecodeText(encoded)
  {
    var decoded := Base64.Decode(encoded);
    if decoded.None? {
      return Err(BadBase64);
    }
    var data := decoded.value;
    if |data| < 4 {
      return Err(BufferUnderflow);
    }
    var ivLength := IntOf(data[0], data[1], data[2], data[3]);
    var position := 4;
    if ivLength < 0 {
      return Err(NegativeArraySize);
    }
    var iv := new Byte[ivLength];
    if ivLength > |data| - position {
      return Err(BufferUnderflow);
    }
    Get(data, position, iv);
    position := position + ivLength;
    var ciphertext := new Byte[|data| - position];
    Get(data, position, ciphertext);
    assert iv[..] == data[4..4 + ivLength];
    assert ciphertext[..] == data[4 + ivLength..];
    r := Ok(EncryptedPayload(iv[..], ciphertext[..]));
  }

  /** `equals`: payloads are equal exactly when their IVs have the same
      contents and their ciphertexts have the same contents, which makes them
      equal as values; equal payloads have equal hash codes. */
  function Equals(a: EncryptedPayload, b: EncryptedPayload): (r: bool)
    ensures r <==> a == b
    ensures r ==> HashCode(a) == HashCode(b)
  {
    a.iv == b.iv && a.ciphertext == b.ciphertext
  }

  /** Kotlin `Int` arithmetic: wraps a mathematical integer into 32 bits. */
  function Wrap32(n: int): (r: int)
    ensures -0x8000_0000 <= r <= INT_MAX
    ensures (r - n) % 0x1_0000_0000 == 0
  {
    var m := n % 0x1_0000_0000;
    if m > INT_MAX then m - 0x1_0000_0000 else m
  }

  /** The signed value of a JVM `Byte`. */
  function Signed(b: Byte): int {
    if b < 128 then b else b - 256
  }

  /** `ByteArray.contentHashCode()`: `31 * h + element` over the bytes, from `h = 1`. */
  function ContentHashCode(b: Bytes): int
    decreases |b|
  {
    if b == [] then 1 else Wrap32(31 * ContentHashCode(b[..|b| - 1]) + Signed(b[|b| - 1]))
  }

  /** `hashCode`: `31 * iv.contentHashCode() + ciphertext.contentHashCode()`. */
  function HashCode(p: EncryptedPayload): (r: int)
    ensures -0x8000_0000 <= r <= INT_MAX
  {
    Wrap32(31 * ContentHashCode(p.iv) + ContentHashCode(p.ciphertext))
  }

  /** The AES-GCM cipher bound to the keystore's master key, seen from
      outside: `seal(iv, plaintext)` gives the ciphertext with its tag, and
      `open(iv, ciphertext)` the plaintext, or `None` when the tag check fails. */
  datatype Aead = Aead(seal: (Bytes, Bytes) -> Bytes, open: (Bytes, Bytes) -> Option<Bytes>)

  /** The cipher's correctness: opening what was sealed under the same IV
      gives the plaintext back. */
  ghost predicate OpensWhatItSeals(c: Aead) {
    forall iv, m :: c.open(iv, c.seal(iv, m)) == Some(m)
  }

  /** `CryptoUtils.encryptBytes`; `iv` is the fresh IV the cipher generated. */
  function EncryptBytes(c: Aead, iv: Bytes, data: Bytes): (p: EncryptedPayload)
    ensures p.iv == iv
    ensures OpensWhatItSeals(c) ==> c.open(p.iv, p.ciphertext) == Some(data)
  {
    EncryptedPayload(iv, c.seal(iv, data))
  }

  /** `CryptoUtils.decryptBytes`: opens the ciphertext under the payload's IV. */
  function DecryptBytes(c: Aead, p: EncryptedPayload): (r: Result<Bytes, CryptoError>)
    ensures r.Err? ==> r.error == AuthenticationFailed
  {
    match c.open(p.iv, p.ciphertext)
    case Some(m) => Ok(m)
    case None => Err(AuthenticationFailed)
  }

  /** `decryptBytes(encryptBytes(d)) == d` for a correct cipher. */
  lemma DecryptBytesEncryptBytes(c: Aead, iv: Bytes, data: Bytes)
    requires OpensWhatItSeals(c)
    ensures DecryptBytes(c, EncryptBytes(c, iv, data)) == Ok(data)
  {
  }

  /** `CryptoUtils.encrypt`: seals the UTF-8 bytes of the text under a fresh
      IV and returns the Base64 envelope. */
  function Encrypt(c: Aead, iv: Bytes, plainText: string): (r: Result<string, CryptoError>)
    ensures r.Ok? <==> Fits(EncryptBytes(c, iv, Utf8.Encode(plainText)))
  {
    EncodeText(EncryptBytes(c, iv, Utf8.Encode(plainText)))
  }

  /** `CryptoUtils.decrypt`: parses the envelope, opens the ciphertext and
      decodes the plaintext bytes as UTF-8. */
  function Decrypt(c: Aead, encrypted: string): (r: Result<string, CryptoError>)
    ensures r.Ok? ==> DecodeText(encrypted).Ok?
                      && c.open(DecodeText(encrypted).value.iv, DecodeText(encrypted).value.ciphertext).Some?
    ensures r.Err? ==> r.error != BufferOverflow
  {
    match DecodeText(encrypted)
    case Err(e) => Err(e)
    case Ok(p) =>
      match DecryptBytes(c, p)
      case Err(e) => Err(e)
      case Ok(m) => Ok(Utf8.Decode(m))
  }

  /** `decrypt(encrypt(s)) == s` for a correct cipher, whenever `encrypt` succeeds. */
  lemma DecryptEncrypt(c: Aead, iv: Bytes, plainText: string)
    requires OpensWhatItSeals(c)
    requires Encrypt(c, iv, plainText).Ok?
    ensures Decrypt(c, Encrypt(c, iv, plainText).value) == Ok(plainText)
  {
    var p := EncryptBytes(c, iv, Utf8.Encode(plainText));
    DecodeTextEncodeText(p);
    Utf8.DecodeEncode(plainText);
  }

  /** Whichever IV and plaintext produced an envelope, a correct cipher
      decrypts that envelope to that plaintext. */
  lemma DecryptOfAnyEnvelope(c: Aead, encrypted: string)
    ensures forall iv, s :: OpensWhatItSeals(c) && Encrypt(c, iv, s) == Ok(encrypted) ==>
                              Decrypt(c, encrypted) == Ok(s)
  {
    forall iv, s | OpensWhatItSeals(c) && Encrypt(c, iv, s) == Ok(encrypted)
      ensures Decrypt(c, encrypted) == Ok(s)
    {
      DecryptEncrypt(c, iv, s);
    }
  }
}
