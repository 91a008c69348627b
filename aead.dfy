/** The authenticated ciphers behind `IBlockChurner` (AES-GCM, NIST SP 800-38D,
    and AES-CCM, NIST SP 800-38C), reduced to the two facts the churn code
    relies on: the ciphertext is the plaintext exclusive-or'ed with a keystream
    fixed by key, nonce and offset (counter mode), and the tag is a function of
    key, nonce and ciphertext that decryption recomputes and compares. The
    block ciphers and SHA-256 themselves are parameters. */
module Aead {
  import opened Common
  import Counter

  /** The tag buffers of the churn code are 16 bytes long. */
  const TagLength: nat := 16

  /** The nonce is a 12-byte counter. */
  const NonceLength: nat := 12

  /** One AEAD algorithm: `keystream(key, nonce, i)` is the i-th keystream byte,
      `tag(key, nonce, ciphertext, tagLength)` the authentication tag asked
      for with a buffer of `tagLength` bytes. */
  datatype Aead = Aead(
    keystream: (seq<byte>, seq<byte>, nat) -> byte,
    tag: (seq<byte>, seq<byte>, seq<byte>, nat) -> seq<byte>)

  /** The library functions the crypto code calls. */
  datatype Primitives = Primitives(
    sha256: seq<byte> -> seq<byte>,
    gcm: Aead,
    ccm: Aead)

  /** Bytewise exclusive or of `data` with the first |data| bytes of `ks`. */
  function XorBytes(data: seq<byte>, ks: seq<byte>): (r: seq<byte>)
    requires |ks| >= |data|
    ensures |r| == |data|
    ensures forall i {:trigger r[i]} :: 0 <= i < |data| ==> r[i] == XorByte(data[i], ks[i])
  {
    seq(|data|, i requires 0 <= i < |data| => XorByte(data[i], ks[i]))
  }

  lemma XorBytesInvolution(data: seq<byte>, ks: seq<byte>)
    requires |ks| >= |data|
    ensures XorBytes(XorBytes(data, ks), ks) == data
  {
    var r := XorBytes(XorBytes(data, ks), ks);
    forall i | 0 <= i < |data| ensures r[i] == data[i] {
      XorByteInvolution(data[i], ks[i]);
    }
  }

  function KeyByte(a: Aead, key: seq<byte>, nonce: seq<byte>, i: nat): byte
  {
    a.keystream(key, nonce, i)
  }

  function Keystream(a: Aead, key: seq<byte>, nonce: seq<byte>, n: nat): (r: seq<byte>)
    ensures |r| == n
    ensures forall i :: 0 <= i < n ==> r[i] == a.keystream(key, nonce, i)
  {
    seq(n, (i: int) requires 0 <= i < n => KeyByte(a, key, nonce, i))
  }

  /** The tag of `ciphertext`, filling the caller's tag buffer. */
  function Tag(a: Aead, key: seq<byte>, nonce: seq<byte>, ciphertext: seq<byte>, tagLength: nat): (t: seq<byte>)
    ensures |t| == tagLength
  {
    Fit(a.tag(key, nonce, ciphertext, tagLength), tagLength)
  }

  /** `t` cut or zero-padded to exactly n bytes. */
  function Fit(t: seq<byte>, n: nat): (r: seq<byte>)
    ensures |r| == n
    ensures |t| >= n ==> r == t[..n]
  {
    if |t| >= n then t[..n] else t + Zeros(n - |t|)
  }

  datatype Sealed = Sealed(ciphertext: seq<byte>, tag: seq<byte>)

  /** `Encrypt(nonce, plaintext, ciphertext, tag)`: the ciphertext has the
      plaintext's length and the tag fills the tag buffer. */
  function Seal(a: Aead, key: seq<byte>, nonce: seq<byte>, plain: seq<byte>, tagLength: nat): (r: Sealed)
    ensures |r.ciphertext| == |plain| && |r.tag| == tagLength
    ensures r.tag == Tag(a, key, nonce, r.ciphertext, tagLength)
  {
    var c := XorBytes(plain, Keystream(a, key, nonce, |plain|));
    Sealed(c, Tag(a, key, nonce, c, tagLength))
  }

  /** Byte i of the ciphertext is byte i of the plaintext xor keystream byte i. */
  lemma SealBytes(a: Aead, key: seq<byte>, nonce: seq<byte>, plain: seq<byte>, tagLength: nat)
    ensures forall i :: 0 <= i < |plain| ==>
              Seal(a, key, nonce, plain, tagLength).ciphertext[i] == XorByte(plain[i], a.keystream(key, nonce, i))
  {
  }

  const TagMismatch: string := "The computed authentication tag did not match the input authentication tag."

  /** `Decrypt(nonce, ciphertext, tag, plaintext)`: a `CryptographicException`
      unless the tag is the ciphertext's. */
  function Open(a: Aead, key: seq<byte>, nonce: seq<byte>, ciphertext: seq<byte>, tag: seq<byte>): (r: Result<seq<byte>>)
    ensures r.Success? <==> tag == Tag(a, key, nonce, ciphertext, |tag|)
    ensures r.Failure? ==> r.error.CryptographicError?
    ensures r.Success? ==> |r.value| == |ciphertext|
  {
    if tag != Tag(a, key, nonce, ciphertext, |tag|) then
      Failure(CryptographicError(TagMismatch))
    else
      Success(XorBytes(ciphertext, Keystream(a, key, nonce, |ciphertext|)))
  }

  /** Decrypting what was sealed, with its tag, gives the plaintext back. */
  lemma OpenSeal(a: Aead, key: seq<byte>, nonce: seq<byte>, plain: seq<byte>, tagLength: nat)
    ensures var s := Seal(a, key, nonce, plain, tagLength);
            Open(a, key, nonce, s.ciphertext, s.tag) == Success(plain)
  {
    XorBytesInvolution(plain, Keystream(a, key, nonce, |plain|));
  }

  /** Counter mode is its own inverse: "encrypting" the ciphertext is the
      authless decryption. */
  lemma SealInvolution(a: Aead, key: seq<byte>, nonce: seq<byte>, plain: seq<byte>, tagLength: nat, tagLength': nat)
    ensures Seal(a, key, nonce, Seal(a, key, nonce, plain, tagLength).ciphertext, tagLength').ciphertext == plain
  {
    XorBytesInvolution(plain, Keystream(a, key, nonce, |plain|));
  }

  /** Authenticated and authless decryption agree whenever the former succeeds. */
  lemma OpenIsSeal(a: Aead, key: seq<byte>, nonce: seq<byte>, ciphertext: seq<byte>, tag: seq<byte>)
    requires Open(a, key, nonce, ciphertext, tag).Success?
    ensures Open(a, key, nonce, ciphertext, tag).value == Seal(a, key, nonce, ciphertext, |tag|).ciphertext
  {
  }

  /** Any tag other than the ciphertext's own is rejected. */
  lemma OpenRejects(a: Aead, key: seq<byte>, nonce: seq<byte>, plain: seq<byte>, tag: seq<byte>)
    requires var s := Seal(a, key, nonce, plain, |tag|); tag != s.tag
    ensures var s := Seal(a, key, nonce, plain, |tag|);
            Open(a, key, nonce, s.ciphertext, tag) == Failure(CryptographicError(TagMismatch))
  {
  }

  /** Sealing a longer buffer gives the same leading ciphertext bytes. */
  lemma SealPrefix(a: Aead, key: seq<byte>, nonce: seq<byte>, plain: seq<byte>, m: nat, tagLength: nat, tagLength': nat)
    requires m <= |plain|
    ensures Seal(a, key, nonce, plain, tagLength).ciphertext[..m] == Seal(a, key, nonce, plain[..m], tagLength').ciphertext
  {
  }

  // -----------------------------------------------------------------------
  // IBlockChurner

  /** A `GcmBlockChurner` or `CcmBlockChurner`: an algorithm and the SHA-256
      of the unique key it was built from. */
  datatype Churner = Churner(cipher: Aead, key: seq<byte>)

  /** `GetChurner(uniqueKey, isGcm)` with the churners' constructors. */
  function GetChurner(p: Primitives, uniqueKey: seq<byte>, isGcm: bool): (c: Churner)
    ensures c.cipher == (if isGcm then p.gcm else p.ccm)
    ensures c.key == p.sha256(uniqueKey)
  {
    Churner(if isGcm then p.gcm else p.ccm, p.sha256(uniqueKey))
  }

  /** `ChurnBlock(sourceBuffer, tagBuffer, counter, encryptOrAuthlessDecrypt)`:
      the output block and the tag buffer afterwards. Encrypting fills the
      tag buffer; authenticated decryption checks it and leaves it alone. */
  function ChurnBlock(c: Churner, source: seq<byte>, tagBuffer: seq<byte>, counter: seq<byte>,
                      encryptOrAuthlessDecrypt: bool): (r: Result<Sealed>)
    ensures r.Success? ==> |r.value.ciphertext| == |source| && |r.value.tag| == |tagBuffer|
    ensures encryptOrAuthlessDecrypt ==>
              (r.Success? && r.value == Seal(c.cipher, c.key, counter, source, |tagBuffer|))
    ensures !encryptOrAuthlessDecrypt ==>
              (r.Success? <==> tagBuffer == Tag(c.cipher, c.key, counter, source, |tagBuffer|)) &&
              (r.Success? ==> r.value.tag == tagBuffer) &&
              (r.Success? ==> r.value.ciphertext == Seal(c.cipher, c.key, counter, source, |tagBuffer|).ciphertext) &&
              (r.Failure? ==> r.error.CryptographicError?)
  {
    if encryptOrAuthlessDecrypt then
      Success(Seal(c.cipher, c.key, counter, source, |tagBuffer|))
    else
      var plain :- Open(c.cipher, c.key, counter, source, tagBuffer);
      Success(Sealed(plain, tagBuffer))
  }

  // -----------------------------------------------------------------------
  // Counter-mode streams made of blocks

  /** The nonce of the k-th block (1-based): twelve zero bytes after k
      increments in the platform's byte order. */
  function CounterAt(k: nat, platformLittleEndian: bool): seq<byte>
  {
    Counter.IncrementN(Zeros(NonceLength), k, !platformLittleEndian)
  }

  /** The counter of block k + 1 is the counter of block k incremented once. */
  lemma CounterAtNext(k: nat, platformLittleEndian: bool)
    ensures CounterAt(k + 1, platformLittleEndian)
         == Counter.Incremented(CounterAt(k, platformLittleEndian), !platformLittleEndian)
  {
    assert Counter.IncrementN(Zeros(NonceLength), k + 1, !platformLittleEndian)
        == Counter.IncrementNext(Zeros(NonceLength), k + 1, !platformLittleEndian);
  }

  /** While it fits, the k-th counter is k written in twelve bytes in the
      platform's byte order. */
  lemma CounterAtValue(k: nat, platformLittleEndian: bool)
    requires k < Counter.Pow256(NonceLength)
    ensures platformLittleEndian ==> CounterAt(k, platformLittleEndian) == Counter.FixedLE(k, NonceLength)
    ensures !platformLittleEndian ==> CounterAt(k, platformLittleEndian) == Counter.FixedBE(k, NonceLength)
  {
    if platformLittleEndian {
      Counter.CountUpLE(k, NonceLength);
    } else {
      Counter.CountUpBE(k, NonceLength);
    }
  }

  /** Keystream of a whole stream cut into blocks of `bs` bytes, block k
      encrypted under counter k + 1 from its own offset 0. */
  function StreamKeystream(a: Aead, key: seq<byte>, platformLittleEndian: bool, bs: nat, n: nat): (r: seq<byte>)
    requires bs > 0
    ensures |r| == n
    ensures forall i :: 0 <= i < n ==> r[i] == a.keystream(key, CounterAt(i / bs + 1, platformLittleEndian), i % bs)
  {
    seq(n, i requires 0 <= i < n => a.keystream(key, CounterAt(i / bs + 1, platformLittleEndian), i % bs))
  }

  /** A stream keystream is one keystream whatever length is asked for. */
  lemma StreamKeystreamPrefix(a: Aead, key: seq<byte>, le: bool, bs: nat, m: nat, n: nat)
    requires bs > 0 && m <= n
    ensures StreamKeystream(a, key, le, bs, n)[..m] == StreamKeystream(a, key, le, bs, m)
  {
  }

  /** Offsets inside block j. */
  lemma BlockOffset(i: nat, j: nat, bs: nat)
    requires bs > 0 && j * bs <= i < j * bs + bs
    ensures i / bs == j && i % bs == i - j * bs
  {
    var q := i / bs;
    if q < j {
      MulLe(q, j - 1, bs);
      assert false;
    }
    if q > j {
      MulLe(j + 1, q, bs);
      assert false;
    }
  }

  /** Block j (0-based) of `d`: bytes [j*bs, (j+1)*bs), cut at the end. */
  function Block(d: seq<byte>, j: nat, bs: nat): (b: seq<byte>)
    ensures |b| <= bs
  {
    if j * bs >= |d| then [] else d[j * bs .. Min(j * bs + bs, |d|)]
  }

  /** Counter-mode encryption of a whole stream, restricted to one block, is
      that block sealed under its own counter. */
  lemma BlockOfXor(a: Aead, key: seq<byte>, le: bool, bs: nat, data: seq<byte>, j: nat)
    requires bs > 0
    ensures Block(XorBytes(data, StreamKeystream(a, key, le, bs, |data|)), j, bs)
         == Seal(a, key, CounterAt(j + 1, le), Block(data, j, bs), TagLength).ciphertext
  {
    var ct := XorBytes(data, StreamKeystream(a, key, le, bs, |data|));
    if j * bs < |data| {
      var lhs := Block(ct, j, bs);
      var rhs := Seal(a, key, CounterAt(j + 1, le), Block(data, j, bs), TagLength).ciphertext;
      forall i | 0 <= i < |lhs| ensures lhs[i] == rhs[i] {
        BlockOffset(j * bs + i, j, bs);
      }
    }
  }
}
