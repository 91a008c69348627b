/** What `Decrypt` does to what `Encrypt` wrote: with the same key, buffer
    length and byte order it restores the plaintext, whether or not it checks
    the tags; with a tag stream whose tag for some block is not the one
    `Encrypt` wrote, it stops at that block with a `CryptographicException`,
    having written exactly the blocks before it. */
module CryptProperties {
  import opened Common
  import opened Streams
  import opened Aead
  import Hashing
  import opened Crypt
  import opened ChurnProperties

  /** The tag `Encrypt` writes for block j (0-based) of `plain`. */
  function BlockSealTag(aes: Churner, le: bool, bs: nat, plain: seq<byte>, j: nat): (tag: seq<byte>)
    ensures |tag| == TagLength
  {
    Seal(aes.cipher, aes.key, CounterAt(j + 1, le), Block(plain, j, bs), TagLength).tag
  }

  /** The loop of `Decrypt`, with blocks of `bs` bytes, over a file whose
      first |plain| bytes are enciphered data and whose last bytes are the
      pepper. */
  function DecryptedFrom(aes: Churner, le: bool, bs: nat, plain: seq<byte>, content: seq<byte>,
                         hasMac: bool, mac: seq<byte>, macPos0: nat): DecryptState
    requires bs > 0
  {
    DecryptRun(aes, le, hasMac, content, mac, NumBlocks(|plain|, bs), DecryptStart(bs, macPos0))
  }

  /** The loop of `Decrypt` over the output of `Encrypt` after j blocks: no
      exception, the source position and the target both at the end of block
      j - 1, the target holding the plaintext up to there, and one tag read
      per block when there is a tag stream. */
  ghost predicate RestoredUpTo(bs: nat, plain: seq<byte>, hasMac: bool, macPos0: nat, j: nat, st: DecryptState)
  {
    && bs > 0
    && |st.srcBuffer| == bs && |st.trgBuffer| == bs && |st.macBuffer| == TagLength
    && st.error.None?
    && st.position == BlocksEnd(j, bs, |plain|)
    && st.output == plain[..st.position]
    && st.macPosition == macPos0 + TagsRead(hasMac, j)
  }

  /** Where the first j blocks of n bytes end. */
  function BlocksEnd(j: nat, bs: nat, n: nat): (e: nat)
    ensures e <= n
  {
    Min(j * bs, n)
  }

  /** How far j turns of the loop move the tag stream. */
  function TagsRead(hasMac: bool, j: nat): nat
  {
    if hasMac then TagLength * j else 0
  }

  /** The first j tags are the front of any longer run of them. */
  lemma {:induction false} TagsUpToPrefix(c: Churner, le: bool, bs: nat, data: seq<byte>, j: nat, k: nat)
    requires j <= k
    ensures TagsUpTo(c, le, bs, data, k)[..TagLength * j] == TagsUpTo(c, le, bs, data, j)
    decreases k
  {
    if j < k {
      TagsUpToPrefix(c, le, bs, data, j, k - 1);
      var front := TagsUpTo(c, le, bs, data, k - 1);
      PrefixOfAppend(front, Seal(c.cipher, c.key, CounterAt(k, le), Block(data, k - 1, bs), TagLength).tag, TagLength * j);
    }
  }

  lemma PrefixOfAppend(a: seq<byte>, b: seq<byte>, m: nat)
    requires m <= |a|
    ensures (a + b)[..m] == a[..m]
  {
  }

  /** The tag of block j lies TagLength * j bytes into the tags. */
  lemma TagsUpToAt(c: Churner, le: bool, bs: nat, data: seq<byte>, j: nat, k: nat)
    requires j < k
    ensures TagsUpTo(c, le, bs, data, k)[TagLength * j..TagLength * j + TagLength] == BlockSealTag(c, le, bs, data, j)
  {
    TagsUpToPrefix(c, le, bs, data, j + 1, k);
    var whole := TagsUpTo(c, le, bs, data, k);
    var front := TagsUpTo(c, le, bs, data, j + 1);
    assert front == TagsUpTo(c, le, bs, data, j) + BlockSealTag(c, le, bs, data, j);
    assert whole[TagLength * j..TagLength * j + TagLength] == front[TagLength * j..];
  }

  /** A tag stream holding the first k tags from `macPos0` gives up the tag
      of any block j < k to a read at its place. */
  lemma TagRead(c: Churner, le: bool, bs: nat, data: seq<byte>, mac: seq<byte>, macPos0: nat, j: nat, k: nat)
    requires j < k && TagsAhead(mac, macPos0, TagsUpTo(c, le, bs, data, k))
    ensures ReadAt(mac, macPos0 + TagLength * j, TagLength) == BlockSealTag(c, le, bs, data, j)
  {
    TagsUpToAt(c, le, bs, data, j, k);
    MulLe(j + 1, k, TagLength);
    ReadWithin(mac, macPos0, TagsUpTo(c, le, bs, data, k), TagLength * j, BlockSealTag(c, le, bs, data, j));
  }

  /** A read at offset i into bytes lying at `p` gets the bytes found there. */
  lemma ReadWithin(mac: seq<byte>, p: nat, tags: seq<byte>, i: nat, t: seq<byte>)
    requires TagsAhead(mac, p, tags) && i + |t| <= |tags| && |t| > 0 && tags[i..i + |t|] == t
    ensures ReadAt(mac, p + i, |t|) == t
  {
    SliceOfSlice(mac, p, p + |tags|, tags, i, i + |t|);
  }

  lemma SliceOfSlice(s: seq<byte>, lo: nat, hi: nat, t: seq<byte>, i: nat, j: nat)
    requires lo <= hi <= |s| && i <= j <= hi - lo && s[lo..hi] == t
    ensures s[lo + i..lo + j] == t[i..j]
  {
    forall m | i <= m < j ensures s[lo + m] == t[m] {
      assert t[m] == s[lo..hi][m];
    }
  }

  /** A turn of `DecryptBlock` away from the pepper reads n bytes and deciphers them. */
  lemma DecryptedBlockIs(aes: Churner, authenticate: bool, le: bool, data: seq<byte>, position: nat,
                         srcBuffer: seq<byte>, macBuffer: seq<byte>, trgBuffer: seq<byte>, n: nat)
    requires |srcBuffer| > 0 && |trgBuffer| == |srcBuffer|
    requires position + PepperLength <= |data| && n == Min(|data| - PepperLength - position, |srcBuffer|)
    ensures DecryptedBlock(aes, authenticate, le, data, position, srcBuffer, macBuffer, trgBuffer)
         == DecipheredBlock(aes, authenticate, le, position, n, ReadInto(srcBuffer, data[position..position + n]),
                            macBuffer, trgBuffer)
  {
    var src := ReadInto(srcBuffer, data[position..position + n]);
    assert DecryptedBlock(aes, authenticate, le, data, position, srcBuffer, macBuffer, trgBuffer)
        == DecipheredBlock(aes, authenticate, le, position, n, src, macBuffer, trgBuffer);
  }

  lemma MulGe(j: nat, bs: nat)
    requires bs > 0
    ensures j <= j * bs
  {
    MulLe(1, bs, j);
  }

  /** Deciphering the ciphertext of block j under its own counter, with its
      own tag when checking, gives the plaintext block. */
  lemma DecipheredPlain(aes: Churner, authenticate: bool, le: bool, bs: nat, plain: seq<byte>, j: nat,
                        src: seq<byte>, macBuffer: seq<byte>, trgBuffer: seq<byte>)
    requires bs > 0 && j * bs < |plain| && j + 1 < Pow63
    requires |src| == bs && |trgBuffer| == bs
    requires src[..|Block(plain, j, bs)|] == BlockCiphertext(aes, le, bs, plain, j)
    requires authenticate ==> macBuffer == BlockSealTag(aes, le, bs, plain, j)
    ensures DecipheredBlock(aes, authenticate, le, j * bs, |Block(plain, j, bs)|, src, macBuffer, trgBuffer).read
         == Success(|Block(plain, j, bs)|)
    ensures DecipheredBlock(aes, authenticate, le, j * bs, |Block(plain, j, bs)|, src, macBuffer, trgBuffer)
              .trgBuffer[..|Block(plain, j, bs)|] == Block(plain, j, bs)
  {
    var block := Block(plain, j, bs);
    var counter := BlockCounter(1 + j * bs / |src|, le);
    assert counter == CounterAt(j + 1, le) by {
      BlockOffset(j * bs, j, bs);
      CounterCoherence(j + 1, le);
    }
    var out := DecipherBlock(aes, authenticate, counter, src, |block|, macBuffer, trgBuffer);
    assert out.Success? && out.value.trgBuffer[..|block|] == block by {
      DecipherSealed(aes, authenticate, counter, src, macBuffer, trgBuffer, block);
    }
    DecipheredBlockOf(aes, authenticate, le, j * bs, |block|, src, macBuffer, trgBuffer, out);
  }

  /** Deciphering what was sealed under a counter, with its tag when
      checking, gives back what was sealed. */
  lemma DecipherSealed(aes: Churner, authenticate: bool, counter: seq<byte>, src: seq<byte>,
                       macBuffer: seq<byte>, trgBuffer: seq<byte>, block: seq<byte>)
    requires |block| <= |src| == |trgBuffer|
    requires src[..|block|] == Seal(aes.cipher, aes.key, counter, block, TagLength).ciphertext
    requires authenticate ==> macBuffer == Seal(aes.cipher, aes.key, counter, block, TagLength).tag
    ensures DecipherBlock(aes, authenticate, counter, src, |block|, macBuffer, trgBuffer).Success?
    ensures DecipherBlock(aes, authenticate, counter, src, |block|, macBuffer, trgBuffer).value.trgBuffer[..|block|]
         == block
  {
    SealInvolution(aes.cipher, aes.key, counter, block, TagLength, TagLength);
  }

  /** The ciphertext `Encrypt` writes for block j (0-based) of `plain`. */
  function BlockCiphertext(aes: Churner, le: bool, bs: nat, plain: seq<byte>, j: nat): (c: seq<byte>)
    ensures |c| == |Block(plain, j, bs)|
  {
    Seal(aes.cipher, aes.key, CounterAt(j + 1, le), Block(plain, j, bs), TagLength).ciphertext
  }

  /** `content` is laid out as `Encrypt` writes it for `plain`: block by
      block the ciphertext of each block under its own counter, then the
      pepper. */
  ghost predicate CipheredAs(aes: Churner, le: bool, bs: nat, plain: seq<byte>, content: seq<byte>)
  {
    && bs > 0 && |content| == |plain| + PepperLength
    && forall j: nat {:trigger BlockCiphertext(aes, le, bs, plain, j)} :: j * bs < |plain| ==>
         content[j * bs..j * bs + |Block(plain, j, bs)|] == BlockCiphertext(aes, le, bs, plain, j)
  }

  /** What `Encrypt` writes is laid out block by block. */
  lemma CtrImageCiphered(aes: Churner, le: bool, bs: nat, plain: seq<byte>, pepper: seq<byte>)
    requires bs > 0 && |pepper| == PepperLength
    ensures CipheredAs(aes, le, bs, plain, CtrImage(aes, le, bs, plain) + pepper)
  {
    var ct := CtrImage(aes, le, bs, plain);
    var content := ct + pepper;
    forall j: nat | j * bs < |plain|
      ensures content[j * bs..j * bs + |Block(plain, j, bs)|] == BlockCiphertext(aes, le, bs, plain, j)
    {
      var p := j * bs;
      var n := |Block(plain, j, bs)|;
      BlockOfXor(aes.cipher, aes.key, le, bs, plain, j);
      assert Block(ct, j, bs) == ct[p..p + n];
      assert content[p..p + n] == ct[p..p + n];
    }
  }

  /** Block j of a layout of `plain` is the ciphertext of block j. */
  lemma CipheredBlock(aes: Churner, le: bool, bs: nat, plain: seq<byte>, content: seq<byte>, j: nat)
    requires CipheredAs(aes, le, bs, plain, content) && j * bs < |plain|
    ensures var p := j * bs;
            var n := |Block(plain, j, bs)|;
            && n == Min(|plain| - p, bs) && p + n <= |plain|
            && content[p..p + n] == BlockCiphertext(aes, le, bs, plain, j)
  {
    assert content[j * bs..j * bs + |Block(plain, j, bs)|] == BlockCiphertext(aes, le, bs, plain, j);
  }

  /** The block `DecryptBlock` reads at block j of what `Encrypt` wrote,
      with the block's own tag when checking, is the plaintext block. */
  lemma BlockRestored(aes: Churner, le: bool, bs: nat, plain: seq<byte>, content: seq<byte>, hasMac: bool,
                      mac: seq<byte>, macPos0: nat, j: nat, st: DecryptState)
    requires CipheredAs(aes, le, bs, plain, content) && |plain| < Pow63
    requires j * bs < |plain|
    requires RestoredUpTo(bs, plain, hasMac, macPos0, j, st)
    requires hasMac ==> ReadAt(mac, macPos0 + TagLength * j, TagLength) == BlockSealTag(aes, le, bs, plain, j)
    ensures var b := DecryptedBlock(aes, hasMac, le, content, st.position, st.srcBuffer,
                                    ReadInto(st.macBuffer, TagChunk(hasMac, mac, st)), st.trgBuffer);
            && b.read == Success(|Block(plain, j, bs)|)
            && b.trgBuffer[..|Block(plain, j, bs)|] == Block(plain, j, bs)
  {
    var p := j * bs;
    var n := |Block(plain, j, bs)|;
    assert st.position == p && n == Min(|content| - PepperLength - p, bs)
        && content[p..p + n] == BlockCiphertext(aes, le, bs, plain, j) by {
      MulGe(j, bs);
      CipheredBlock(aes, le, bs, plain, content, j);
    }
    var macBuffer := ReadInto(st.macBuffer, TagChunk(hasMac, mac, st));
    assert hasMac ==> macBuffer == BlockSealTag(aes, le, bs, plain, j) by {
      assert hasMac ==> macBuffer == TagChunk(hasMac, mac, st);
    }
    var src := ReadInto(st.srcBuffer, content[p..p + n]);
    DecipheredPlain(aes, hasMac, le, bs, plain, j, src, macBuffer, st.trgBuffer);
    DecryptedBlockIs(aes, hasMac, le, content, p, st.srcBuffer, macBuffer, st.trgBuffer, n);
  }

  /** One turn of the loop of `Decrypt` on block j of what `Encrypt` wrote,
      reading the block's own tag when checking: block j is restored. */
  lemma StepRestores(aes: Churner, le: bool, bs: nat, plain: seq<byte>, content: seq<byte>, hasMac: bool,
                     mac: seq<byte>, macPos0: nat, j: nat, st: DecryptState)
    requires CipheredAs(aes, le, bs, plain, content) && |plain| < Pow63
    requires j * bs < |plain|
    requires RestoredUpTo(bs, plain, hasMac, macPos0, j, st)
    requires hasMac ==> ReadAt(mac, macPos0 + TagLength * j, TagLength) == BlockSealTag(aes, le, bs, plain, j)
    ensures RestoredUpTo(bs, plain, hasMac, macPos0, j + 1,
                         DecryptStep(aes, le, hasMac, content, mac, st))
  {
    var b := DecryptedBlock(aes, hasMac, le, content, st.position, st.srcBuffer,
                            ReadInto(st.macBuffer, TagChunk(hasMac, mac, st)), st.trgBuffer);
    var p := j * bs;
    var n := |Block(plain, j, bs)|;
    assert b.read == Success(n) && b.trgBuffer[..n] == Block(plain, j, bs) by {
      BlockRestored(aes, le, bs, plain, content, hasMac, mac, macPos0, j, st);
    }
    StepRead(aes, le, hasMac, content, mac, st, b);
    assert st.position == p && p + n == Min((j + 1) * bs, |plain|) by {
      MulGe(j, bs);
      MulLe(j, j, bs);
    }
    assert st.output + b.trgBuffer[..n] == plain[..p + n];
    assert |TagChunk(hasMac, mac, st)| == TagsRead(hasMac, 1);
  }

  /** The turns of the loop over blocks j to k - 1 of what `Encrypt` wrote,
      with the tags it wrote for them when checking: block by block the
      plaintext is restored, and the run from block j is the run from block
      k after them. */
  lemma {:induction false} RunRestoresTo(aes: Churner, le: bool, bs: nat, plain: seq<byte>, content: seq<byte>,
                                         hasMac: bool, mac: seq<byte>, macPos0: nat, j: nat, k: nat,
                                         st: DecryptState)
    returns (mid: DecryptState)
    requires CipheredAs(aes, le, bs, plain, content) && |plain| < Pow63 && bs > 0
    requires j <= k <= NumBlocks(|plain|, bs)
    requires RestoredUpTo(bs, plain, hasMac, macPos0, j, st)
    requires hasMac ==> TagsRightBetween(aes, le, bs, plain, mac, macPos0, j, k)
    ensures RestoredUpTo(bs, plain, hasMac, macPos0, k, mid)
    ensures DecryptRun(aes, le, hasMac, content, mac, NumBlocks(|plain|, bs) - j, st)
         == DecryptRun(aes, le, hasMac, content, mac, NumBlocks(|plain|, bs) - k, mid)
    decreases k - j
  {
    if j == k {
      mid := st;
    } else {
      var next := NextRestored(aes, le, bs, plain, content, hasMac, mac, macPos0, j, k, st);
      mid := RunRestoresTo(aes, le, bs, plain, content, hasMac, mac, macPos0, j + 1, k, next);
    }
  }

  /** One turn of the loop over block j of what `Encrypt` wrote, with the
      right tags from block j up to block k: block j is restored. */
  lemma NextRestored(aes: Churner, le: bool, bs: nat, plain: seq<byte>, content: seq<byte>,
                     hasMac: bool, mac: seq<byte>, macPos0: nat, j: nat, k: nat, st: DecryptState)
    returns (next: DecryptState)
    requires CipheredAs(aes, le, bs, plain, content) && |plain| < Pow63 && bs > 0
    requires j < k <= NumBlocks(|plain|, bs)
    requires RestoredUpTo(bs, plain, hasMac, macPos0, j, st)
    requires hasMac ==> TagsRightBetween(aes, le, bs, plain, mac, macPos0, j, k)
    ensures RestoredUpTo(bs, plain, hasMac, macPos0, j + 1, next)
    ensures DecryptRun(aes, le, hasMac, content, mac, NumBlocks(|plain|, bs) - j, st)
         == DecryptRun(aes, le, hasMac, content, mac, NumBlocks(|plain|, bs) - (j + 1), next)
  {
    NumBlocksBound(|plain|, bs, j);
    if hasMac {
      assert ReadAt(mac, macPos0 + TagLength * j, TagLength) == BlockSealTag(aes, le, bs, plain, j);
    }
    StepRestores(aes, le, bs, plain, content, hasMac, mac, macPos0, j, st);
    next := DecryptStep(aes, le, hasMac, content, mac, st);
    RunUnfold(aes, le, hasMac, content, mac, NumBlocks(|plain|, bs) - j, st, next);
  }

  /** `Decrypt`'s loop over what `Encrypt` wrote restores the plaintext, with
      no exception: always when it does not check tags, and when it does,
      provided the tag stream holds from its position the tags `Encrypt`
      wrote. */
  lemma DecryptOfEncrypted(aes: Churner, le: bool, bs: nat, plain: seq<byte>, content: seq<byte>,
                           hasMac: bool, mac: seq<byte>, macPos0: nat)
    requires CipheredAs(aes, le, bs, plain, content) && |plain| < Pow63
    requires hasMac ==> TagsAhead(mac, macPos0, EncryptTags(aes, le, bs, plain))
    ensures DecryptedFrom(aes, le, bs, plain, content, hasMac, mac, macPos0).error == None
    ensures DecryptedFrom(aes, le, bs, plain, content, hasMac, mac, macPos0).output == plain
    ensures DecryptedFrom(aes, le, bs, plain, content, hasMac, mac, macPos0).macPosition
         == macPos0 + (if hasMac then |EncryptTags(aes, le, bs, plain)| else 0)
  {
    if hasMac {
      TagsAheadRight(aes, le, bs, plain, mac, macPos0, NumBlocks(|plain|, bs));
    }
    var N := NumBlocks(|plain|, bs);
    var last := RunRestoresTo(aes, le, bs, plain, content, hasMac, mac, macPos0,
                              0, N, DecryptStart(bs, macPos0));
    assert DecryptRun(aes, le, hasMac, content, mac, 0, last) == last;
    NumBlocksCover(|plain|, bs);
    assert plain[..|plain|] == plain;
  }

  /** A tag stream holding a tag at the position `Encrypt` wrote it from holds the tags from there. */
  lemma WrittenTagsAhead(mac0: seq<byte>, p: nat, tags: seq<byte>)
    ensures TagsAhead(WrittenTags(mac0, p, tags), p, tags)
  {
  }

  /** The round trip at the level of files: after `Encrypt` of the file at
      `path`, `Decrypt` of the file it made, with the same key, buffer
      length and byte order, finds the salt in the new name and gives back
      the original contents without an exception, reading the tag stream
      `Encrypt` wrote from where `Encrypt` started writing it. */
  lemma EncryptThenDecrypt(f: Hashing.HashFamily, gcm: Aead, key: seq<byte>, files: map<string, seq<byte>>,
                           path: string, bs: nat, pepper: seq<byte>, le: bool,
                           hasMac: bool, mac0: seq<byte>, macPos0: nat, toLower: char -> char)
    requires Sha256Sized(f) && |pepper| == PepperLength && bs > 0 && KeepsPathShape(toLower)
    requires path in files && |files[path]| < Pow63
    ensures var data := files[path];
            var aes := FileCipher(f, gcm, key, data, pepper);
            var files' := EncryptedFiles(f, gcm, key, files, path, bs, pepper, le, toLower);
            var path' := EncryptedPath(toLower, path, Salt(f, data));
            && path' in files' && |files'[path']| >= PepperLength
            && GenerateSalt(path') == Success(Salt(f, data))
            && var r := Decrypted(f, gcm, key, Salt(f, data), files'[path'], bs, le, hasMac,
                                  WrittenTags(mac0, macPos0, EncryptTags(aes, le, bs, data)), macPos0);
               r.error == None && r.output == data
  {
    var data := files[path];
    var salt := Salt(f, data);
    var aes := FileCipher(f, gcm, key, data, pepper);
    var content := CtrImage(aes, le, bs, data) + pepper;
    SaltFromName(toLower, path, salt);
    assert Pepper(content) == pepper;
    assert |content| - PepperLength == |data|;
    WrittenTagsAhead(mac0, macPos0, EncryptTags(aes, le, bs, data));
    CtrImageCiphered(aes, le, bs, data, pepper);
    DecryptOfEncrypted(aes, le, bs, data, content, hasMac, WrittenTags(mac0, macPos0, EncryptTags(aes, le, bs, data)), macPos0);
  }

  /** Checking the ciphertext of block j against any tag but its own
      throws a `CryptographicException`. */
  lemma DecipheredRejects(aes: Churner, authenticate: bool, le: bool, bs: nat, plain: seq<byte>, j: nat,
                          src: seq<byte>, macBuffer: seq<byte>, trgBuffer: seq<byte>)
    requires authenticate && bs > 0 && j * bs < |plain| && j + 1 < Pow63
    requires |src| == bs && |trgBuffer| == bs && |macBuffer| == TagLength
    requires src[..|Block(plain, j, bs)|] == BlockCiphertext(aes, le, bs, plain, j)
    requires macBuffer != BlockSealTag(aes, le, bs, plain, j)
    ensures DecipheredBlock(aes, authenticate, le, j * bs, |Block(plain, j, bs)|, src, macBuffer, trgBuffer).read
         == Failure(CryptographicError(TagMismatch))
  {
    var n := |Block(plain, j, bs)|;
    var counter := BlockCounter(1 + j * bs / |src|, le);
    assert counter == CounterAt(j + 1, le) by {
      BlockOffset(j * bs, j, bs);
      CounterCoherence(j + 1, le);
    }
    assert macBuffer != Tag(aes.cipher, aes.key, counter, src[..n], |macBuffer|);
    assert Open(aes.cipher, aes.key, counter, src[..n], macBuffer) == Failure(CryptographicError(TagMismatch));
  }

  /** Block j deciphered with a tag other than the one `Encrypt` wrote for
      it: the read throws a `CryptographicException`. */
  lemma BlockRejected(aes: Churner, le: bool, bs: nat, plain: seq<byte>, content: seq<byte>,
                      mac: seq<byte>, macPos0: nat, j: nat, st: DecryptState, tag: seq<byte>)
    requires CipheredAs(aes, le, bs, plain, content) && |plain| < Pow63
    requires j * bs < |plain|
    requires RestoredUpTo(bs, plain, true, macPos0, j, st)
    requires |tag| == TagLength && ReadAt(mac, macPos0 + TagLength * j, TagLength) == tag
    requires tag != BlockSealTag(aes, le, bs, plain, j)
    ensures DecryptedBlock(aes, true, le, content, st.position, st.srcBuffer,
                           ReadInto(st.macBuffer, TagChunk(true, mac, st)), st.trgBuffer).read
         == Failure(CryptographicError(TagMismatch))
  {
    var p := j * bs;
    var n := |Block(plain, j, bs)|;
    assert st.position == p && n == Min(|content| - PepperLength - p, bs)
        && content[p..p + n] == BlockCiphertext(aes, le, bs, plain, j) by {
      MulGe(j, bs);
      CipheredBlock(aes, le, bs, plain, content, j);
    }
    var macBuffer := ReadInto(st.macBuffer, TagChunk(true, mac, st));
    assert macBuffer == tag;
    var src := ReadInto(st.srcBuffer, content[p..p + n]);
    assert j + 1 < Pow63 && |src| == bs && src[..n] == BlockCiphertext(aes, le, bs, plain, j) by {
      MulGe(j, bs);
    }
    DecipheredRejects(aes, true, le, bs, plain, j, src, macBuffer, st.trgBuffer);
    DecryptedBlockIs(aes, true, le, content, p, st.srcBuffer, macBuffer, st.trgBuffer, n);
  }

  /** A checked turn on block j whose tag in the stream is not the one
      `Encrypt` wrote throws a `CryptographicException` and writes nothing. */
  lemma StepRejects(aes: Churner, le: bool, bs: nat, plain: seq<byte>, content: seq<byte>,
                    hasMac: bool, mac: seq<byte>, macPos0: nat, j: nat, st: DecryptState, tag: seq<byte>)
    requires hasMac && CipheredAs(aes, le, bs, plain, content) && |plain| < Pow63
    requires j * bs < |plain|
    requires RestoredUpTo(bs, plain, hasMac, macPos0, j, st)
    requires |tag| == TagLength && ReadAt(mac, macPos0 + TagLength * j, TagLength) == tag
    requires tag != BlockSealTag(aes, le, bs, plain, j)
    ensures DecryptStep(aes, le, hasMac, content, mac, st).error
         == Some(CryptographicError(TagMismatch))
    ensures DecryptStep(aes, le, hasMac, content, mac, st).output == st.output == plain[..j * bs]
  {
    BlockRejected(aes, le, bs, plain, content, mac, macPos0, j, st, tag);
    assert st.position == j * bs by {
      MulGe(j, bs);
    }
  }

  /** For each block i from j up to k, the tag stream holds at block i's
      place the tag `Encrypt` wrote for block i. */
  ghost predicate TagsRightBetween(aes: Churner, le: bool, bs: nat, plain: seq<byte>, mac: seq<byte>, macPos0: nat,
                                   j: nat, k: nat)
  {
    forall i :: j <= i < k ==> ReadAt(mac, macPos0 + TagLength * i, TagLength) == BlockSealTag(aes, le, bs, plain, i)
  }

  /** A tag stream holding the first k tags holds each of them at its block's place. */
  lemma TagsAheadRight(aes: Churner, le: bool, bs: nat, plain: seq<byte>, mac: seq<byte>, macPos0: nat, k: nat)
    requires TagsAhead(mac, macPos0, TagsUpTo(aes, le, bs, plain, k))
    ensures TagsRightBetween(aes, le, bs, plain, mac, macPos0, 0, k)
  {
    forall i | 0 <= i < k
      ensures ReadAt(mac, macPos0 + TagLength * i, TagLength) == BlockSealTag(aes, le, bs, plain, i)
    {
      TagRead(aes, le, bs, plain, mac, macPos0, i, k);
    }
  }

  /** The turns of the loop from block k on, when the tag at block k's
      place is the wrong one: the run stops at once. */
  lemma RejectsAt(aes: Churner, le: bool, bs: nat, plain: seq<byte>, content: seq<byte>,
                  hasMac: bool, mac: seq<byte>, macPos0: nat, k: nat, st: DecryptState, tag: seq<byte>)
    requires hasMac && CipheredAs(aes, le, bs, plain, content) && |plain| < Pow63 && bs > 0
    requires k < NumBlocks(|plain|, bs) && k * bs < |plain|
    requires RestoredUpTo(bs, plain, hasMac, macPos0, k, st)
    requires |tag| == TagLength && ReadAt(mac, macPos0 + TagLength * k, TagLength) == tag
    requires tag != BlockSealTag(aes, le, bs, plain, k)
    ensures DecryptRun(aes, le, hasMac, content, mac, NumBlocks(|plain|, bs) - k, st).error
         == Some(CryptographicError(TagMismatch))
    ensures DecryptRun(aes, le, hasMac, content, mac, NumBlocks(|plain|, bs) - k, st).output
         == plain[..k * bs]
  {
    assert DecryptStep(aes, le, hasMac, content, mac, st).error == Some(CryptographicError(TagMismatch))
        && DecryptStep(aes, le, hasMac, content, mac, st).output == plain[..k * bs] by {
      StepRejects(aes, le, bs, plain, content, hasMac, mac, macPos0, k, st, tag);
    }
    RunStops(aes, le, hasMac, content, mac, NumBlocks(|plain|, bs) - k, st, CryptographicError(TagMismatch), plain[..k * bs]);
  }

  /** Tampering: when the tag stream holds, at the place of each block
      before block k, the tag `Encrypt` wrote for it, but at block k's place
      another tag, checked decryption throws a `CryptographicException` at
      block k and the target holds exactly the plaintext of the blocks
      before it. */
  lemma TamperedTagStopsDecrypt(aes: Churner, le: bool, bs: nat, plain: seq<byte>, content: seq<byte>,
                                hasMac: bool, mac: seq<byte>, macPos0: nat, k: nat, tag: seq<byte>)
    requires hasMac && bs > 0 && k * bs < |plain| < Pow63
    requires CipheredAs(aes, le, bs, plain, content)
    requires TagsRightBetween(aes, le, bs, plain, mac, macPos0, 0, k)
    requires |tag| == TagLength && ReadAt(mac, macPos0 + TagLength * k, TagLength) == tag
    requires tag != BlockSealTag(aes, le, bs, plain, k)
    ensures DecryptedFrom(aes, le, bs, plain, content, hasMac, mac, macPos0).error == Some(CryptographicError(TagMismatch))
    ensures DecryptedFrom(aes, le, bs, plain, content, hasMac, mac, macPos0).output == plain[..k * bs]
  {
    NumBlocksBound(|plain|, bs, k);
    var mid := RunRestoresTo(aes, le, bs, plain, content, hasMac, mac, macPos0, 0, k, DecryptStart(bs, macPos0));
    RejectsAt(aes, le, bs, plain, content, hasMac, mac, macPos0, k, mid, tag);
  }
}
