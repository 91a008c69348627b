/** What the stream churn of `ChurnEngine` computes, block by block and as a
    whole: counter-mode output, one tag per block in block order, rejection
    of a tampered tag, and the round trips between encryption and the two
    kinds of decryption. */
module ChurnProperties {
  import opened Common
  import opened Streams
  import Counter
  import opened Aead
  import opened ChurnEngine

  /** The keystream the churn applies to a stream of `n` bytes. */
  function ChurnKeystream(c: Churner, le: bool, n: nat): (r: seq<byte>)
    ensures |r| == n
  {
    StreamKeystream(c.cipher, c.key, le, BufferLength, n)
  }

  /** The output of a churn that does not authenticate: counter-mode XOR of
      the whole stream. */
  function CtrChurn(c: Churner, le: bool, data: seq<byte>): (r: seq<byte>)
    ensures |r| == |data|
  {
    XorBytes(data, ChurnKeystream(c, le, |data|))
  }

  /** The tag that authenticated decryption expects for block j of the
      ciphertext `ct`. */
  function CipherTag(c: Churner, le: bool, ct: seq<byte>, j: nat): (tag: seq<byte>)
    ensures |tag| == TagLength
  {
    Tag(c.cipher, c.key, CounterAt(j + 1, le), Block(ct, j, BufferLength), TagLength)
  }

  /** The tags authenticated decryption of `ct` expects, in block order. */
  function CipherTags(c: Churner, le: bool, ct: seq<byte>): (r: seq<byte>)
    ensures |r| == TagLength * NumBlocks(|ct|, BufferLength)
  {
    CipherTagsFrom(c, le, ct, 0)
  }

  function CipherTagsFrom(c: Churner, le: bool, ct: seq<byte>, j: nat): (r: seq<byte>)
    ensures |r| == TagLength * (NumBlocks(|ct|, BufferLength) - Min(j, NumBlocks(|ct|, BufferLength)))
    decreases NumBlocks(|ct|, BufferLength) - j
  {
    if j >= NumBlocks(|ct|, BufferLength) then [] else CipherTag(c, le, ct, j) + CipherTagsFrom(c, le, ct, j + 1)
  }

  /** The bytes `rest` lie in `mac` from position `p` on. */
  predicate TagsAhead(mac: seq<byte>, p: nat, rest: seq<byte>)
  {
    rest == [] || (p + |rest| <= |mac| && mac[p..p + |rest|] == rest)
  }

  /** Reading a tag from where the expected tags lie gives the first one,
      and the others lie after it. */
  lemma TagsAheadRead(mac: seq<byte>, p: nat, tag: seq<byte>, rest: seq<byte>)
    requires |tag| == TagLength && TagsAhead(mac, p, tag + rest)
    ensures ReadAt(mac, p, TagLength) == tag
    ensures TagsAhead(mac, p + TagLength, rest)
  {
    assert mac[p..p + TagLength] == (tag + rest)[..TagLength];
    assert mac[p + TagLength..p + TagLength + |rest|] == (tag + rest)[TagLength..];
  }

  /** The tag encryption emits for a plaintext block is the tag authenticated
      decryption expects for the ciphertext block it became. */
  lemma SealedTagsAreCipherTags(c: Churner, le: bool, data: seq<byte>)
    ensures SealedTags(c, le, data) == CipherTags(c, le, CtrChurn(c, le, data))
  {
    TagsFromAreCipherTags(c, le, data, 0);
  }

  lemma {:induction false} TagsFromAreCipherTags(c: Churner, le: bool, data: seq<byte>, j: nat)
    ensures TagsFrom(c, le, data, j) == CipherTagsFrom(c, le, CtrChurn(c, le, data), j)
    decreases NumBlocks(|data|, BufferLength) - j
  {
    if j < NumBlocks(|data|, BufferLength) {
      BlockOfXor(c.cipher, c.key, le, BufferLength, data, j);
      TagsFromAreCipherTags(c, le, data, j + 1);
    }
  }

  /** One block of the loop when it does not fail: block j (0-based) starts
      at j * 32768, is churned under counter j + 1, appends its counter-mode
      image to the output and moves the tag stream on by one tag. */
  lemma StepBlock(c: Churner, encrypt: bool, hasMac: bool, le: bool, data: seq<byte>, j: nat, st: ChurnState)
    returns (s: ChurnState)
    requires |st.tagBuffer| == TagLength && st.counter == CounterAt(j, le)
    requires j * BufferLength < |data|
    requires !encrypt && hasMac ==> ReadAt(st.mac, st.macPosition, TagLength) == CipherTag(c, le, data, j)
    ensures s == Step(c, encrypt, hasMac, le, data[j * BufferLength..j * BufferLength + Min(BufferLength, |data| - j * BufferLength)], st)
    ensures s.error.None?
    ensures s.counter == CounterAt(j + 1, le)
    ensures s.output == st.output + Block(CtrChurn(c, le, data), j, BufferLength)
    ensures s.mac == (if encrypt && hasMac then WriteAt(st.mac, st.macPosition, BlockTag(c, le, data, j)) else st.mac)
    ensures s.macPosition == st.macPosition + (if hasMac then TagLength else 0)
  {
    var pos := j * BufferLength;
    var n := Min(BufferLength, |data| - pos);
    var b := data[pos..pos + n];
    assert b == Block(data, j, BufferLength);
    var counter := Counter.Incremented(st.counter, Counter.ResolveBigEndian(None, le));
    CounterAtNext(j, le);
    var chunk := TagRead(encrypt, hasMac, st);
    var tagIn := ReadInto(st.tagBuffer, chunk);
    assert !encrypt && hasMac ==> tagIn == CipherTag(c, le, data, j);
    BlockChurned(c, encrypt || !hasMac, le, data, j, tagIn);
    s := Step(c, encrypt, hasMac, le, b, st);
  }

  /** The block churner on block j under counter j + 1: it succeeds when it
      does not authenticate or the tag is the one expected. */
  lemma BlockChurned(c: Churner, encryptOrAuthless: bool, le: bool, data: seq<byte>, j: nat, tagIn: seq<byte>)
    requires |tagIn| == TagLength
    requires !encryptOrAuthless ==> tagIn == CipherTag(c, le, data, j)
    ensures var r := ChurnBlock(c, Block(data, j, BufferLength), tagIn, CounterAt(j + 1, le), encryptOrAuthless);
            && r.Success?
            && r.value.ciphertext == Block(CtrChurn(c, le, data), j, BufferLength)
            && (encryptOrAuthless ==> r.value.tag == BlockTag(c, le, data, j))
  {
    BlockOfXor(c.cipher, c.key, le, BufferLength, data, j);
  }

  lemma NumBlocksExact(n: nat, j: nat)
    requires j * BufferLength == n
    ensures NumBlocks(n, BufferLength) == j
  {
  }

  /** One turn of the loop from block j, as `StepBlock` describes it. */
  lemma NextBlock(c: Churner, encrypt: bool, hasMac: bool, le: bool, data: seq<byte>, j: nat, st: ChurnState)
    returns (s: ChurnState)
    requires |st.tagBuffer| == TagLength && st.error.None? && st.counter == CounterAt(j, le)
    requires j * BufferLength < |data|
    requires !encrypt && hasMac ==> ReadAt(st.mac, st.macPosition, TagLength) == CipherTag(c, le, data, j)
    ensures |s.tagBuffer| == TagLength && s.error.None? && s.counter == CounterAt(j + 1, le)
    ensures s.output == st.output + Block(CtrChurn(c, le, data), j, BufferLength)
    ensures s.position == st.position + Min(BufferLength, |data| - j * BufferLength)
    ensures s.mac == (if encrypt && hasMac then WriteAt(st.mac, st.macPosition, BlockTag(c, le, data, j)) else st.mac)
    ensures s.macPosition == st.macPosition + (if hasMac then TagLength else 0)
    ensures RunFrom(c, encrypt, hasMac, le, data, j * BufferLength, st)
         == RunFrom(c, encrypt, hasMac, le, data, j * BufferLength + Min(BufferLength, |data| - j * BufferLength), s)
  {
    var pos := j * BufferLength;
    var n := Min(BufferLength, |data| - pos);
    s := StepBlock(c, encrypt, hasMac, le, data, j, st);
    RunFromStep(c, encrypt, hasMac, le, data, pos, st);
  }

  /** The hypotheses under which the loop from block j on does not fail:
      the state is that after j blocks and, when authenticating, the
      expected tags of the remaining blocks lie at the tag stream's position. */
  ghost predicate FromBlock(c: Churner, encrypt: bool, hasMac: bool, le: bool, data: seq<byte>, j: nat, st: ChurnState)
  {
    && |st.tagBuffer| == TagLength && st.error.None? && st.counter == CounterAt(j, le)
    && j * BufferLength <= |data|
    && (!encrypt && hasMac ==> TagsAhead(st.mac, st.macPosition, CipherTagsFrom(c, le, data, j)))
  }

  /** One turn of the loop from block j when `FromBlock` holds. */
  lemma NextFromBlock(c: Churner, encrypt: bool, hasMac: bool, le: bool, data: seq<byte>, j: nat, st: ChurnState)
    returns (s: ChurnState)
    requires FromBlock(c, encrypt, hasMac, le, data, j, st) && j * BufferLength < |data|
    ensures |s.tagBuffer| == TagLength && s.error.None? && s.counter == CounterAt(j + 1, le)
    ensures s.output == st.output + Block(CtrChurn(c, le, data), j, BufferLength)
    ensures s.position == st.position + Min(BufferLength, |data| - j * BufferLength)
    ensures s.mac == (if encrypt && hasMac then WriteAt(st.mac, st.macPosition, BlockTag(c, le, data, j)) else st.mac)
    ensures s.macPosition == st.macPosition + (if hasMac then TagLength else 0)
    ensures RunFrom(c, encrypt, hasMac, le, data, j * BufferLength, st)
         == RunFrom(c, encrypt, hasMac, le, data, j * BufferLength + Min(BufferLength, |data| - j * BufferLength), s)
    ensures (j + 1) * BufferLength < |data| ==> FromBlock(c, encrypt, hasMac, le, data, j + 1, s)
  {
    TagAhead(c, encrypt, hasMac, le, data, j, st);
    s := NextBlock(c, encrypt, hasMac, le, data, j, st);
    if (j + 1) * BufferLength < |data| {
      FromNext(c, encrypt, hasMac, le, data, j, st, s);
    }
  }

  lemma TagAhead(c: Churner, encrypt: bool, hasMac: bool, le: bool, data: seq<byte>, j: nat, st: ChurnState)
    requires FromBlock(c, encrypt, hasMac, le, data, j, st) && j * BufferLength < |data|
    ensures !encrypt && hasMac ==>
              && ReadAt(st.mac, st.macPosition, TagLength) == CipherTag(c, le, data, j)
              && TagsAhead(st.mac, st.macPosition + TagLength, CipherTagsFrom(c, le, data, j + 1))
  {
    NumBlocksBound(|data|, BufferLength, j);
    if !encrypt && hasMac {
      TagsAheadRead(st.mac, st.macPosition, CipherTag(c, le, data, j), CipherTagsFrom(c, le, data, j + 1));
    }
  }

  lemma FromNext(c: Churner, encrypt: bool, hasMac: bool, le: bool, data: seq<byte>, j: nat, st: ChurnState, s: ChurnState)
    requires (j + 1) * BufferLength < |data|
    requires !encrypt && hasMac ==> TagsAhead(st.mac, st.macPosition + TagLength, CipherTagsFrom(c, le, data, j + 1))
    requires |s.tagBuffer| == TagLength && s.error.None? && s.counter == CounterAt(j + 1, le)
    requires !encrypt && hasMac ==> s.mac == st.mac && s.macPosition == st.macPosition + TagLength
    ensures FromBlock(c, encrypt, hasMac, le, data, j + 1, s)
  {
  }

  /** Where the loop goes after block j: to block j + 1, or to its end. */
  lemma AfterBlock(c: Churner, encrypt: bool, hasMac: bool, le: bool, data: seq<byte>, j: nat, st: ChurnState, s: ChurnState)
    requires |s.tagBuffer| == TagLength && j * BufferLength < |data|
    ensures (j + 1) * BufferLength < |data| ==>
              RunFrom(c, encrypt, hasMac, le, data, j * BufferLength + Min(BufferLength, |data| - j * BufferLength), s)
              == RunFrom(c, encrypt, hasMac, le, data, (j + 1) * BufferLength, s)
    ensures (j + 1) * BufferLength >= |data| ==>
              RunFrom(c, encrypt, hasMac, le, data, j * BufferLength + Min(BufferLength, |data| - j * BufferLength), s) == s
  {
    var next := j * BufferLength + Min(BufferLength, |data| - j * BufferLength);
    if (j + 1) * BufferLength < |data| {
      NextOffset(j, |data|);
    } else {
      RunFromDone(c, encrypt, hasMac, le, data, next, s);
    }
  }

  lemma NextOffset(j: nat, n: nat)
    requires (j + 1) * BufferLength < n
    ensures j * BufferLength + Min(BufferLength, n - j * BufferLength) == (j + 1) * BufferLength
  {
  }

  lemma RunFromDone(c: Churner, encrypt: bool, hasMac: bool, le: bool, data: seq<byte>, pos: nat, st: ChurnState)
    requires |st.tagBuffer| == TagLength && pos >= |data|
    ensures RunFrom(c, encrypt, hasMac, le, data, pos, st) == st
  {
  }

  /** The loop from block j on does not fail and reads the whole rest. */
  lemma {:induction false} RunProgress(c: Churner, encrypt: bool, hasMac: bool, le: bool, data: seq<byte>, j: nat, st: ChurnState)
    requires FromBlock(c, encrypt, hasMac, le, data, j, st)
    ensures RunFrom(c, encrypt, hasMac, le, data, j * BufferLength, st).error.None?
    ensures RunFrom(c, encrypt, hasMac, le, data, j * BufferLength, st).position == st.position + |data| - j * BufferLength
    ensures RunFrom(c, encrypt, hasMac, le, data, j * BufferLength, st).macPosition
         == st.macPosition + (if hasMac then |TagsFrom(c, le, data, j)| else 0)
    decreases |data| - j * BufferLength
  {
    NumBlocksBound(|data|, BufferLength, j);
    if j * BufferLength == |data| {
      NumBlocksExact(|data|, j);
    } else {
      var s := NextFromBlock(c, encrypt, hasMac, le, data, j, st);
      AfterBlock(c, encrypt, hasMac, le, data, j, st, s);
      NumBlocksBound(|data|, BufferLength, j + 1);
      if (j + 1) * BufferLength < |data| {
        RunProgress(c, encrypt, hasMac, le, data, j + 1, s);
      }
    }
  }

  /** The output of the loop from block j on is the counter-mode image of
      the rest of the stream. */
  lemma {:induction false} RunOutput(c: Churner, encrypt: bool, hasMac: bool, le: bool, data: seq<byte>, j: nat, st: ChurnState)
    requires FromBlock(c, encrypt, hasMac, le, data, j, st)
    ensures RunFrom(c, encrypt, hasMac, le, data, j * BufferLength, st).output == st.output + CtrChurn(c, le, data)[j * BufferLength..]
    decreases |data| - j * BufferLength
  {
    var ct := CtrChurn(c, le, data);
    var pos := j * BufferLength;
    if pos < |data| {
      var s := NextFromBlock(c, encrypt, hasMac, le, data, j, st);
      AfterBlock(c, encrypt, hasMac, le, data, j, st, s);
      var n := Min(BufferLength, |data| - pos);
      SliceBlock(ct, j, n);
      var b := Block(ct, j, BufferLength);
      if (j + 1) * BufferLength < |data| {
        RunOutput(c, encrypt, hasMac, le, data, j + 1, s);
        assert pos + n == (j + 1) * BufferLength;
        AppendAssoc(st.output, b, ct[pos + n..]);
      } else {
        assert RunFrom(c, encrypt, hasMac, le, data, pos, st) == s;
        assert ct[pos + n..] == [];
        assert ct[pos..] == b;
      }
    } else {
      assert ct[pos..] == [];
    }
  }

  /** Encrypting with a tag stream writes the tags of the remaining blocks
      at the tag stream's position, in block order. */
  lemma {:induction false} RunMac(c: Churner, le: bool, data: seq<byte>, j: nat, st: ChurnState)
    requires FromBlock(c, true, true, le, data, j, st) && j * BufferLength < |data|
    ensures RunFrom(c, true, true, le, data, j * BufferLength, st).mac == WriteAt(st.mac, st.macPosition, TagsFrom(c, le, data, j))
    decreases |data| - j * BufferLength
  {
    var s := MacBlock(c, le, data, j, st);
    if (j + 1) * BufferLength < |data| {
      RunMac(c, le, data, j + 1, s);
      TagsFromNext(c, le, data, j);
      WriteAtAdjacent(st.mac, st.macPosition, BlockTag(c, le, data, j), TagsFrom(c, le, data, j + 1));
    } else {
      LastTag(c, le, data, j);
    }
  }

  lemma TagsFromNext(c: Churner, le: bool, data: seq<byte>, j: nat)
    requires j * BufferLength < |data|
    ensures TagsFrom(c, le, data, j) == BlockTag(c, le, data, j) + TagsFrom(c, le, data, j + 1)
  {
    NumBlocksBound(|data|, BufferLength, j);
  }

  /** The tags from the last block on are that block's tag. */
  lemma LastTag(c: Churner, le: bool, data: seq<byte>, j: nat)
    requires j * BufferLength < |data| && !((j + 1) * BufferLength < |data|)
    ensures TagsFrom(c, le, data, j) == BlockTag(c, le, data, j)
  {
    TagsFromNext(c, le, data, j);
    NumBlocksBound(|data|, BufferLength, j + 1);
    TagsFromEnd(c, le, data, j + 1);
    AppendEmpty(BlockTag(c, le, data, j), TagsFrom(c, le, data, j + 1));
  }

  lemma TagsFromEnd(c: Churner, le: bool, data: seq<byte>, j: nat)
    requires j >= NumBlocks(|data|, BufferLength)
    ensures TagsFrom(c, le, data, j) == []
  {
  }

  /** One encrypting block, with only what `RunMac` needs of it. */
  lemma MacBlock(c: Churner, le: bool, data: seq<byte>, j: nat, st: ChurnState) returns (s: ChurnState)
    requires FromBlock(c, true, true, le, data, j, st) && j * BufferLength < |data|
    ensures s.mac == WriteAt(st.mac, st.macPosition, BlockTag(c, le, data, j))
    ensures s.macPosition == st.macPosition + TagLength
    ensures (j + 1) * BufferLength < |data| ==>
              && FromBlock(c, true, true, le, data, j + 1, s)
              && RunFrom(c, true, true, le, data, j * BufferLength, st) == RunFrom(c, true, true, le, data, (j + 1) * BufferLength, s)
    ensures (j + 1) * BufferLength >= |data| ==> RunFrom(c, true, true, le, data, j * BufferLength, st) == s
  {
    s := NextFromBlock(c, true, true, le, data, j, st);
    AfterBlock(c, true, true, le, data, j, st, s);
  }

  lemma AppendEmpty(a: seq<byte>, b: seq<byte>)
    requires b == []
    ensures a + b == a
  {
  }

  /** Only encryption writes to the tag stream. */
  lemma {:induction false} RunMacUnchanged(c: Churner, encrypt: bool, hasMac: bool, le: bool, data: seq<byte>, j: nat, st: ChurnState)
    requires FromBlock(c, encrypt, hasMac, le, data, j, st) && !(encrypt && hasMac)
    ensures RunFrom(c, encrypt, hasMac, le, data, j * BufferLength, st).mac == st.mac
    decreases |data| - j * BufferLength
  {
    if j * BufferLength < |data| {
      var s := NextFromBlock(c, encrypt, hasMac, le, data, j, st);
      AfterBlock(c, encrypt, hasMac, le, data, j, st, s);
      if (j + 1) * BufferLength < |data| {
        RunMacUnchanged(c, encrypt, hasMac, le, data, j + 1, s);
      }
    }
  }

  lemma SliceBlock(ct: seq<byte>, j: nat, n: nat)
    requires n == Min(BufferLength, |ct| - j * BufferLength) && j * BufferLength < |ct|
    ensures ct[j * BufferLength..] == Block(ct, j, BufferLength) + ct[j * BufferLength + n..]
  {
  }

  // -----------------------------------------------------------------------
  // The whole churn

  lemma StartsAtBlockZero(c: Churner, encrypt: bool, hasMac: bool, le: bool, data: seq<byte>, mac: seq<byte>, p: nat)
    requires !encrypt && hasMac ==> TagsAhead(mac, p, CipherTags(c, le, data))
    ensures FromBlock(c, encrypt, hasMac, le, data, 0, Initial(mac, p))
  {
  }

  /** Encryption never fails; its output is the counter-mode image of the
      input, of the same length; with a tag stream, the tags of all blocks are
      written at the tag stream's position in block order. */
  lemma EncryptChurn(c: Churner, hasMac: bool, le: bool, data: seq<byte>, mac: seq<byte>, p: nat)
    ensures var r := Churned(c, Encrypt, hasMac, le, data, mac, p);
            && r.error.None?
            && r.output == CtrChurn(c, le, data) && |r.output| == |data|
            && r.position == |data|
            && r.mac == (if hasMac && data != [] then WriteAt(mac, p, SealedTags(c, le, data)) else mac)
            && r.macPosition == p + (if hasMac then TagLength * NumBlocks(|data|, BufferLength) else 0)
  {
    StartsAtBlockZero(c, true, hasMac, le, data, mac, p);
    RunProgress(c, true, hasMac, le, data, 0, Initial(mac, p));
    RunOutput(c, true, hasMac, le, data, 0, Initial(mac, p));
    if hasMac && data != [] {
      RunMac(c, le, data, 0, Initial(mac, p));
    } else if !hasMac {
      RunMacUnchanged(c, true, hasMac, le, data, 0, Initial(mac, p));
    }
    assert CtrChurn(c, le, data)[0..] == CtrChurn(c, le, data);
  }

  /** Decryption without a tag stream never fails and is the same
      counter-mode transform; the tag stream, if any, is not touched. */
  lemma AuthlessDecryptChurn(c: Churner, le: bool, data: seq<byte>, mac: seq<byte>, p: nat)
    ensures var r := Churned(c, Decrypt, false, le, data, mac, p);
            && r.error.None?
            && r.output == CtrChurn(c, le, data)
            && r.position == |data|
            && r.mac == mac && r.macPosition == p
  {
    StartsAtBlockZero(c, false, false, le, data, mac, p);
    RunProgress(c, false, false, le, data, 0, Initial(mac, p));
    RunOutput(c, false, false, le, data, 0, Initial(mac, p));
    RunMacUnchanged(c, false, false, le, data, 0, Initial(mac, p));
    assert CtrChurn(c, le, data)[0..] == CtrChurn(c, le, data);
  }

  /** Authenticated decryption succeeds when the tag stream holds the
      expected tags of every block at its position: the output is the
      counter-mode image, one tag per block is consumed and the tag stream's
      contents are not changed. */
  lemma AuthenticatedDecryptChurn(c: Churner, le: bool, data: seq<byte>, mac: seq<byte>, p: nat)
    requires TagsAhead(mac, p, CipherTags(c, le, data))
    ensures var r := Churned(c, Decrypt, true, le, data, mac, p);
            && r.error.None?
            && r.output == CtrChurn(c, le, data)
            && r.position == |data|
            && r.mac == mac && r.macPosition == p + TagLength * NumBlocks(|data|, BufferLength)
  {
    StartsAtBlockZero(c, false, true, le, data, mac, p);
    RunProgress(c, false, true, le, data, 0, Initial(mac, p));
    RunOutput(c, false, true, le, data, 0, Initial(mac, p));
    RunMacUnchanged(c, false, true, le, data, 0, Initial(mac, p));
    assert CtrChurn(c, le, data)[0..] == CtrChurn(c, le, data);
  }

  /** Churning is its own inverse when decryption does not authenticate. */
  lemma RoundTripAuthless(c: Churner, hasMac: bool, le: bool, data: seq<byte>, mac: seq<byte>, p: nat, mac': seq<byte>, p': nat)
    ensures var e := Churned(c, Encrypt, hasMac, le, data, mac, p);
            Churned(c, Decrypt, false, le, e.output, mac', p').output == data
  {
    EncryptChurn(c, hasMac, le, data, mac, p);
    var ct := Churned(c, Encrypt, hasMac, le, data, mac, p).output;
    AuthlessDecryptChurn(c, le, ct, mac', p');
    XorBytesInvolution(data, ChurnKeystream(c, le, |data|));
  }

  /** Decrypting an encryption with the tag stream it wrote, from the same
      position, authenticates every block and gives the input back. */
  lemma RoundTripAuthenticated(c: Churner, le: bool, data: seq<byte>, mac: seq<byte>, p: nat)
    ensures var e := Churned(c, Encrypt, true, le, data, mac, p);
            var d := Churned(c, Decrypt, true, le, e.output, e.mac, p);
            d.error.None? && d.output == data && d.macPosition == e.macPosition
  {
    EncryptChurn(c, true, le, data, mac, p);
    var e := Churned(c, Encrypt, true, le, data, mac, p);
    SealedTagsAreCipherTags(c, le, data);
    assert TagsAhead(e.mac, p, CipherTags(c, le, e.output));
    AuthenticatedDecryptChurn(c, le, e.output, e.mac, p);
    XorBytesInvolution(data, ChurnKeystream(c, le, |data|));
  }

  /** A first tag other than the one expected stops authenticated decryption
      at the first block with a `CryptographicException`, before any output. */
  lemma TamperedFirstTag(c: Churner, le: bool, data: seq<byte>, mac: seq<byte>, p: nat)
    requires data != []
    requires ReadInto(Zeros(TagLength), ReadAt(mac, p, TagLength)) != CipherTag(c, le, data, 0)
    ensures var r := Churned(c, Decrypt, true, le, data, mac, p);
            r.error.Some? && r.error.value.CryptographicError? && r.output == []
  {
    var n := Min(BufferLength, |data|);
    FirstStepRejects(c, le, data, mac, p);
    RunFromStep(c, false, true, le, data, 0, Initial(mac, p));
    RunFromStopped(c, false, true, le, data, n, Step(c, false, true, le, data[0..n], Initial(mac, p)));
  }

  /** The tag stream holds, at the place of each block before block k, the
      tag authenticated decryption expects for it. */
  ghost predicate TagsRightBefore(c: Churner, le: bool, data: seq<byte>, mac: seq<byte>, p: nat, k: nat)
  {
    forall j :: 0 <= j < k ==> ReadAt(mac, p + TagLength * j, TagLength) == CipherTag(c, le, data, j)
  }

  /** Tampering at any block: when the tag stream holds the expected tags of
      the blocks before block k but another whole tag at block k's place,
      authenticated decryption throws a `CryptographicException` at block k,
      and the output holds exactly the counter-mode image of the blocks
      before it. */
  lemma TamperedTag(c: Churner, le: bool, data: seq<byte>, mac: seq<byte>, p: nat, k: nat, tag: seq<byte>)
    requires k * BufferLength < |data|
    requires TagsRightBefore(c, le, data, mac, p, k)
    requires |tag| == TagLength && ReadAt(mac, p + TagLength * k, TagLength) == tag
    requires tag != CipherTag(c, le, data, k)
    ensures var r := Churned(c, Decrypt, true, le, data, mac, p);
            r.error.Some? && r.error.value.CryptographicError? && r.output == CtrChurn(c, le, data)[..k * BufferLength]
  {
    var st := Initial(mac, p);
    assert st.counter == CounterAt(0, le);
    assert st.output == CtrChurn(c, le, data)[..0 * BufferLength];
    RunToTamper(c, le, data, mac, p, 0, k, tag, st);
  }

  /** The loop from block j up to the tampered block k. */
  lemma {:induction false} RunToTamper(c: Churner, le: bool, data: seq<byte>, mac: seq<byte>, p: nat, j: nat, k: nat,
                                       tag: seq<byte>, st: ChurnState)
    requires j <= k && k * BufferLength < |data|
    requires TagsRightBefore(c, le, data, mac, p, k)
    requires |tag| == TagLength && ReadAt(mac, p + TagLength * k, TagLength) == tag
    requires tag != CipherTag(c, le, data, k)
    requires |st.tagBuffer| == TagLength && st.error.None? && st.counter == CounterAt(j, le)
    requires st.mac == mac && st.macPosition == p + TagLength * j
    requires st.output == CtrChurn(c, le, data)[..j * BufferLength]
    ensures var r := RunFrom(c, false, true, le, data, j * BufferLength, st);
            r.error.Some? && r.error.value.CryptographicError? && r.output == CtrChurn(c, le, data)[..k * BufferLength]
    decreases k - j
  {
    var ct := CtrChurn(c, le, data);
    if j < k {
      BlocksBefore(j, k);
      var s := NextBlock(c, false, true, le, data, j, st);
      AfterBlock(c, false, true, le, data, j, st, s);
      PrefixNextBlock(ct, j);
      RunToTamper(c, le, data, mac, p, j + 1, k, tag, s);
    } else {
      var pos := j * BufferLength;
      var n := Min(BufferLength, |data| - pos);
      var s := StepRejects(c, le, data, j, tag, st);
      RunFromStep(c, false, true, le, data, pos, st);
      RunFromStopped(c, false, true, le, data, pos + n, s);
    }
  }

  lemma BlocksBefore(j: nat, k: nat)
    requires j < k
    ensures (j + 1) * BufferLength <= k * BufferLength
  {
  }

  /** The output after block j is the counter-mode image up to block j + 1. */
  lemma PrefixNextBlock(ct: seq<byte>, j: nat)
    requires (j + 1) * BufferLength <= |ct|
    ensures ct[..j * BufferLength] + Block(ct, j, BufferLength) == ct[..(j + 1) * BufferLength]
  {
  }

  /** Block k under a whole tag other than the one expected throws without
      adding to the output. */
  lemma StepRejects(c: Churner, le: bool, data: seq<byte>, k: nat, tag: seq<byte>, st: ChurnState)
    returns (s: ChurnState)
    requires k * BufferLength < |data|
    requires |tag| == TagLength && tag != CipherTag(c, le, data, k)
    requires |st.tagBuffer| == TagLength && st.counter == CounterAt(k, le)
    requires ReadAt(st.mac, st.macPosition, TagLength) == tag
    ensures s == Step(c, false, true, le, data[k * BufferLength..k * BufferLength + Min(BufferLength, |data| - k * BufferLength)], st)
    ensures s.error.Some? && s.error.value.CryptographicError? && s.output == st.output
  {
    var pos := k * BufferLength;
    var b := data[pos..pos + Min(BufferLength, |data| - pos)];
    assert b == Block(data, k, BufferLength);
    CounterAtNext(k, le);
    assert ReadInto(st.tagBuffer, tag) == tag;
    s := Step(c, false, true, le, b, st);
  }

  /** The first block under a tag other than the one expected throws
      before any output. */
  lemma FirstStepRejects(c: Churner, le: bool, data: seq<byte>, mac: seq<byte>, p: nat)
    requires data != []
    requires ReadInto(Zeros(TagLength), ReadAt(mac, p, TagLength)) != CipherTag(c, le, data, 0)
    ensures var s := Step(c, false, true, le, data[0..Min(BufferLength, |data|)], Initial(mac, p));
            s.error.Some? && s.error.value.CryptographicError? && s.output == []
  {
    var st := Initial(mac, p);
    var n := Min(BufferLength, |data|);
    assert data[0..n] == Block(data, 0, BufferLength);
    assert CounterAt(0, le) == st.counter;
    assert Counter.Incremented(st.counter, Counter.ResolveBigEndian(None, le)) == CounterAt(1, le);
  }

  /** A block fails only under authenticated decryption, with a
      `CryptographicException`. */
  lemma StepError(c: Churner, encrypt: bool, hasMac: bool, le: bool, block: seq<byte>, st: ChurnState)
    requires |st.tagBuffer| == TagLength
    ensures var s := Step(c, encrypt, hasMac, le, block, st);
            s.error.Some? ==> !encrypt && hasMac && s.error.value.CryptographicError?
  {
  }

  lemma {:induction false} RunErrors(c: Churner, encrypt: bool, hasMac: bool, le: bool, data: seq<byte>, pos: nat, st: ChurnState)
    requires |st.tagBuffer| == TagLength
    requires st.error.Some? ==> !encrypt && hasMac && st.error.value.CryptographicError?
    ensures var r := RunFrom(c, encrypt, hasMac, le, data, pos, st);
            r.error.Some? ==> !encrypt && hasMac && r.error.value.CryptographicError?
    decreases |data| - pos
  {
    if pos < |data| && st.error.None? {
      var n := Min(BufferLength, |data| - pos);
      RunFromStep(c, encrypt, hasMac, le, data, pos, st);
      StepError(c, encrypt, hasMac, le, data[pos..pos + n], st);
      RunErrors(c, encrypt, hasMac, le, data, pos + n, Step(c, encrypt, hasMac, le, data[pos..pos + n], st));
    }
  }

  /** The only exception the stream churn raises is a failed authentication,
      and only when decrypting with a tag stream. */
  lemma ChurnFailures(c: Churner, direction: Direction, hasMac: bool, le: bool, data: seq<byte>, mac: seq<byte>, p: nat)
    ensures var r := Churned(c, direction, hasMac, le, data, mac, p);
            r.error.Some? ==> direction == Decrypt && hasMac && r.error.value.CryptographicError?
  {
    RunErrors(c, direction == Encrypt, hasMac, le, data, 0, Initial(mac, p));
  }
}
