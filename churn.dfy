/** The stream churn of FullStack.Crypto/ChurnExtensions.cs: the source is read
    in 32 KiB blocks, block k (1-based) is churned under the 12-byte counter k,
    and one 16-byte tag per block goes to, or comes from, an optional tag
    stream. */
module ChurnEngine {
  import opened Common
  import opened Streams
  import Counter
  import opened Aead

  const BufferLength: nat := 32768

  datatype Direction = Decrypt | Encrypt

  /** What the loop has done so far: the counter and tag buffer, the bytes
      written to the target, the tag stream's contents and position, how far
      the source has been read, and the exception that ended the loop, if any. */
  datatype ChurnState = ChurnState(
    counter: seq<byte>,
    tagBuffer: seq<byte>,
    output: seq<byte>,
    mac: seq<byte>,
    macPosition: nat,
    position: nat,
    error: Option<Error>)

  /** `new byte[12]` counter, `new byte[16]` tag buffer, empty target. */
  function Initial(mac: seq<byte>, macPosition: nat): ChurnState
  {
    ChurnState(Zeros(NonceLength), Zeros(TagLength), [], mac, macPosition, 0, None)
  }

  /** One pass of the read loop over `block`, the bytes just read. */
  function Step(c: Churner, encrypt: bool, hasMac: bool, le: bool, block: seq<byte>, st: ChurnState): (r: ChurnState)
    requires |st.tagBuffer| == TagLength
    ensures |r.tagBuffer| == TagLength
    ensures r.position == st.position + |block|
  {
    var counter := Counter.Incremented(st.counter, Counter.ResolveBigEndian(None, le));
    var chunk := TagRead(encrypt, hasMac, st);
    var tagIn := ReadInto(st.tagBuffer, chunk);
    var churned := ChurnBlock(c, block, tagIn, counter, encrypt || !hasMac);
    Advance(st, counter, |chunk|, tagIn, |block|, churned, encrypt && hasMac)
  }

  /** The tag bytes read before a block: only when decrypting with a tag stream. */
  function TagRead(encrypt: bool, hasMac: bool, st: ChurnState): (chunk: seq<byte>)
    ensures |chunk| <= TagLength
  {
    if !encrypt && hasMac then ReadAt(st.mac, st.macPosition, TagLength) else []
  }

  /** The state after a block churned to `churned`; `writesTag` when encrypting
      with a tag stream. */
  function Advance(st: ChurnState, counter: seq<byte>, tagRead: nat, tagIn: seq<byte>, n: nat,
                   churned: Result<Sealed>, writesTag: bool): ChurnState
  {
    var macPosition := st.macPosition + tagRead;
    if churned.Failure? then
      ChurnState(counter, tagIn, st.output, st.mac, macPosition, st.position + n, Some(churned.error))
    else if writesTag then
      ChurnState(counter, churned.value.tag, st.output + churned.value.ciphertext,
                 WriteAt(st.mac, macPosition, churned.value.tag), macPosition + |churned.value.tag|, st.position + n, None)
    else
      ChurnState(counter, churned.value.tag, st.output + churned.value.ciphertext, st.mac, macPosition, st.position + n, None)
  }

  /** The loop from source offset `pos` to the end of `data` or the first exception. */
  function RunFrom(c: Churner, encrypt: bool, hasMac: bool, le: bool, data: seq<byte>, pos: nat, st: ChurnState): ChurnState
    requires |st.tagBuffer| == TagLength
    decreases |data| - pos, 2
  {
    if pos >= |data| then st
    else RunLive(c, encrypt, hasMac, le, data, pos, st)
  }

  /** With bytes left: an exception ends the loop, otherwise it goes on. */
  function RunLive(c: Churner, encrypt: bool, hasMac: bool, le: bool, data: seq<byte>, pos: nat, st: ChurnState): ChurnState
    requires |st.tagBuffer| == TagLength && pos < |data|
    decreases |data| - pos, 1
  {
    if st.error.Some? then st
    else RunRest(c, encrypt, hasMac, le, data, pos, st)
  }

  /** A turn on the next block of at most `BufferLength` bytes, then the rest of the loop. */
  function RunRest(c: Churner, encrypt: bool, hasMac: bool, le: bool, data: seq<byte>, pos: nat, st: ChurnState): ChurnState
    requires |st.tagBuffer| == TagLength && pos < |data|
    decreases |data| - pos, 0
  {
    var n := Min(BufferLength, |data| - pos);
    RunFrom(c, encrypt, hasMac, le, data, pos + n, Step(c, encrypt, hasMac, le, data[pos..pos + n], st))
  }

  /** One unfolding of the loop. */
  lemma RunFromStep(c: Churner, encrypt: bool, hasMac: bool, le: bool, data: seq<byte>, pos: nat, st: ChurnState)
    requires |st.tagBuffer| == TagLength && pos < |data| && st.error.None?
    ensures var n := Min(BufferLength, |data| - pos);
            RunFrom(c, encrypt, hasMac, le, data, pos, st)
              == RunFrom(c, encrypt, hasMac, le, data, pos + n, Step(c, encrypt, hasMac, le, data[pos..pos + n], st))
  {
    assert RunFrom(c, encrypt, hasMac, le, data, pos, st) == RunLive(c, encrypt, hasMac, le, data, pos, st);
    assert RunLive(c, encrypt, hasMac, le, data, pos, st) == RunRest(c, encrypt, hasMac, le, data, pos, st);
  }

  /** A run from a state that holds an exception ends there. */
  lemma RunFromStopped(c: Churner, encrypt: bool, hasMac: bool, le: bool, data: seq<byte>, pos: nat, st: ChurnState)
    requires |st.tagBuffer| == TagLength && st.error.Some?
    ensures RunFrom(c, encrypt, hasMac, le, data, pos, st) == st
  {
    if pos < |data| {
      assert RunFrom(c, encrypt, hasMac, le, data, pos, st) == RunLive(c, encrypt, hasMac, le, data, pos, st);
    }
  }

  /** `RunFromStep` for a state `next` already known to be the next one. */
  lemma RunFromNext(c: Churner, encrypt: bool, hasMac: bool, le: bool, data: seq<byte>, pos: nat, st: ChurnState, next: ChurnState)
    requires |st.tagBuffer| == TagLength && pos < |data| && st.error.None?
    requires next == Step(c, encrypt, hasMac, le, data[pos..pos + Min(BufferLength, |data| - pos)], st)
    ensures RunFrom(c, encrypt, hasMac, le, data, pos, st) == RunFrom(c, encrypt, hasMac, le, data, pos + Min(BufferLength, |data| - pos), next)
  {
    RunFromStep(c, encrypt, hasMac, le, data, pos, st);
  }

  /** The whole churn of a source holding `data`, with a tag stream holding
      `mac` at position `macPosition` (ignored when there is none). */
  function Churned(c: Churner, direction: Direction, hasMac: bool, le: bool, data: seq<byte>,
                   mac: seq<byte>, macPosition: nat): ChurnState
  {
    RunFrom(c, direction == Encrypt, hasMac, le, data, 0, Initial(mac, macPosition))
  }

  /** The key handed to the churner: `pass.Concat(salt)`. */
  function UniqueKey(salt: seq<byte>, pass: seq<byte>): (k: seq<byte>)
    ensures |k| == |pass| + |salt| && k[..|pass|] == pass && k[|pass|..] == salt
  {
    pass + salt
  }

  /** The tags an encrypting churn emits for `data`, one per block, in block order. */
  function SealedTags(c: Churner, le: bool, data: seq<byte>): (r: seq<byte>)
    ensures |r| == TagLength * NumBlocks(|data|, BufferLength)
  {
    TagsFrom(c, le, data, 0)
  }

  /** The tags of blocks j, j + 1, ... of `data`. */
  function TagsFrom(c: Churner, le: bool, data: seq<byte>, j: nat): (r: seq<byte>)
    ensures |r| == TagLength * (NumBlocks(|data|, BufferLength) - Min(j, NumBlocks(|data|, BufferLength)))
    decreases NumBlocks(|data|, BufferLength) - j
  {
    if j >= NumBlocks(|data|, BufferLength) then [] else BlockTag(c, le, data, j) + TagsFrom(c, le, data, j + 1)
  }

  function BlockTag(c: Churner, le: bool, data: seq<byte>, j: nat): (tag: seq<byte>)
    ensures |tag| == TagLength
  {
    Seal(c.cipher, c.key, CounterAt(j + 1, le), Block(data, j, BufferLength), TagLength).tag
  }

  function MacContent(gmac: MemStream?): seq<byte>
    reads gmac
  {
    if gmac != null then gmac.data else []
  }

  function MacPosition(gmac: MemStream?): nat
    reads gmac
  {
    if gmac != null then gmac.position else 0
  }

  // -----------------------------------------------------------------------
  // The method

  /** The body of the read loop for the block `srcBuffer`: increment the
      counter, read a tag on decrypt, churn, write a tag on encrypt, write the
      output block. The new state is `Step`'s. */
  method ChurnChunk(churner: Churner, encrypt: bool, le: bool, target: MemStream, gmac: MemStream?,
                    counter: array<byte>, tagBuffer: seq<byte>, srcBuffer: seq<byte>, ghost st: ChurnState)
    returns (counter': array<byte>, tagBuffer': seq<byte>, error: Option<Error>, ghost st': ChurnState)
    requires gmac != null ==> gmac != target
    requires target.canWrite
    requires gmac != null && encrypt ==> gmac.canWrite
    requires gmac != null && !encrypt ==> gmac.canRead
    requires |st.tagBuffer| == TagLength
    requires counter[..] == st.counter && tagBuffer == st.tagBuffer
    requires target.data == st.output && target.position == |st.output|
    requires gmac != null ==> gmac.data == st.mac && gmac.position == st.macPosition
    modifies counter, target, gmac
    ensures st' == Step(churner, encrypt, gmac != null, le, srcBuffer, st)
    ensures counter' == counter || fresh(counter')
    ensures counter'[..] == st'.counter && tagBuffer' == st'.tagBuffer && error == st'.error
    ensures target.data == st'.output && target.position == |st'.output|
    ensures gmac != null ==> gmac.data == st'.mac && gmac.position == st'.macPosition
  {
    var tagChunk;
    counter', tagBuffer', tagChunk := PrepareChunk(encrypt, le, gmac, counter, tagBuffer, st);
    var churned := ChurnBlock(churner, srcBuffer, tagBuffer', counter'[..], encrypt || gmac == null);
    st' := Advance(st, counter'[..], |tagChunk|, tagBuffer', |srcBuffer|, churned, encrypt && gmac != null);
    assert st' == Step(churner, encrypt, gmac != null, le, srcBuffer, st);
    if churned.Failure? {
      return counter', tagBuffer', Some(churned.error), st';
    }
    tagBuffer' := churned.value.tag;
    EmitChunk(target, gmac, encrypt && gmac != null, churned.value);
    error := None;
  }

  /** Increment the counter and, when decrypting with a tag stream, read the
      block's tag into the tag buffer. */
  method PrepareChunk(encrypt: bool, le: bool, gmac: MemStream?, counter: array<byte>,
                      tagBuffer: seq<byte>, ghost st: ChurnState)
    returns (counter': array<byte>, tagBuffer': seq<byte>, tagChunk: seq<byte>)
    requires gmac != null && !encrypt ==> gmac.canRead
    requires |st.tagBuffer| == TagLength
    requires counter[..] == st.counter && tagBuffer == st.tagBuffer
    requires gmac != null ==> gmac.data == st.mac && gmac.position == st.macPosition
    modifies counter, gmac
    ensures counter' == counter || fresh(counter')
    ensures counter'[..] == Counter.Incremented(st.counter, Counter.ResolveBigEndian(None, le))
    ensures tagChunk == TagRead(encrypt, gmac != null, st)
    ensures tagBuffer' == ReadInto(st.tagBuffer, tagChunk)
    ensures gmac != null ==> gmac.data == st.mac && gmac.position == st.macPosition + |tagChunk|
  {
    counter' := Counter.Increment(counter, None, le);
    tagBuffer' := tagBuffer;
    tagChunk := [];
    if !encrypt && gmac != null {
      tagChunk := gmac.Read(TagLength);
      tagBuffer' := ReadInto(tagBuffer', tagChunk);
    }
  }

  /** Write the tag on encrypt with a tag stream, then the output block. */
  method EmitChunk(target: MemStream, gmac: MemStream?, writesTag: bool, churned: Sealed)
    requires gmac != null ==> gmac != target
    requires target.canWrite && target.position == |target.data|
    requires writesTag ==> gmac != null && gmac.canWrite
    modifies target, gmac
    ensures target.data == old(target.data) + churned.ciphertext && target.position == |target.data|
    ensures gmac != null && writesTag ==>
              gmac.data == WriteAt(old(gmac.data), old(gmac.position), churned.tag) &&
              gmac.position == old(gmac.position) + |churned.tag|
    ensures gmac != null && !writesTag ==> gmac.data == old(gmac.data) && gmac.position == old(gmac.position)
  {
    if writesTag {
      gmac.Write(churned.tag);
    }
    WriteAtEnd(target.data, churned.ciphertext);
    target.Write(churned.ciphertext);
  }

  /** The loop invariant of `Churn`: the streams, counter and buffers agree
      with the spec state `st` after `pos` source bytes, `chunk` is the read
      that the loop test has just made, and the rest of the run ends in `final`. */
  ghost predicate Synced(churner: Churner, encrypt: bool, le: bool, source: MemStream, target: MemStream,
                         gmac: MemStream?, counter: array<byte>, tagBuffer: seq<byte>, srcBuffer: seq<byte>,
                         chunk: seq<byte>, data: seq<byte>, pos: nat, st: ChurnState, final: ChurnState)
    reads source, target, gmac, counter
  {
    && pos <= |data|
    && source.data == data && source.position == pos + |chunk|
    && (|srcBuffer| == BufferLength || pos == |data|)
    && chunk == ReadAt(data, pos, |srcBuffer|)
    && |st.tagBuffer| == TagLength && st.error.None? && st.position == pos
    && RunFrom(churner, encrypt, gmac != null, le, data, pos, st) == final
    && counter[..] == st.counter && tagBuffer == st.tagBuffer
    && target.data == st.output && target.position == |st.output|
    && (gmac != null ==> gmac.data == st.mac && gmac.position == st.macPosition)
  }

  /** `ChurnChunk` on the block of `data` at `pos`, stated as one unfolding of
      the loop. */
  method ChurnAt(churner: Churner, encrypt: bool, le: bool, target: MemStream, gmac: MemStream?,
                 counter: array<byte>, tagBuffer: seq<byte>, block: seq<byte>,
                 ghost data: seq<byte>, ghost pos: nat, ghost st: ChurnState)
    returns (counter': array<byte>, tagBuffer': seq<byte>, error: Option<Error>, ghost st': ChurnState)
    requires gmac != null ==> gmac != target
    requires target.canWrite
    requires gmac != null && encrypt ==> gmac.canWrite
    requires gmac != null && !encrypt ==> gmac.canRead
    requires |st.tagBuffer| == TagLength && st.error.None? && pos < |data|
    requires block == data[pos..pos + Min(BufferLength, |data| - pos)]
    requires counter[..] == st.counter && tagBuffer == st.tagBuffer
    requires target.data == st.output && target.position == |st.output|
    requires gmac != null ==> gmac.data == st.mac && gmac.position == st.macPosition
    modifies counter, target, gmac
    ensures counter' == counter || fresh(counter')
    ensures |st'.tagBuffer| == TagLength && st'.position == st.position + |block|
    ensures RunFrom(churner, encrypt, gmac != null, le, data, pos, st)
         == RunFrom(churner, encrypt, gmac != null, le, data, pos + |block|, st')
    ensures counter'[..] == st'.counter && tagBuffer' == st'.tagBuffer && error == st'.error
    ensures target.data == st'.output && target.position == |st'.output|
    ensures gmac != null ==> gmac.data == st'.mac && gmac.position == st'.macPosition
  {
    counter', tagBuffer', error, st' := ChurnChunk(churner, encrypt, le, target, gmac,
                                                  counter, tagBuffer, block, st);
    RunFromNext(churner, encrypt, gmac != null, le, data, pos, st, st');
  }

  /** One iteration of the read loop of `Churn`, from the block just read up
      to the next read. */
  method ChurnNext(churner: Churner, encrypt: bool, le: bool, source: MemStream, target: MemStream,
                   gmac: MemStream?, counter: array<byte>, tagBuffer: seq<byte>, srcBuffer: seq<byte>,
                   chunk: seq<byte>, ghost data: seq<byte>, ghost pos: nat, ghost st: ChurnState, ghost final: ChurnState)
    returns (counter': array<byte>, tagBuffer': seq<byte>, srcBuffer': seq<byte>, chunk': seq<byte>,
             error: Option<Error>, ghost pos': nat, ghost st': ChurnState)
    requires source != target
    requires gmac != null ==> gmac != source && gmac != target
    requires source.canRead && target.canWrite
    requires gmac != null && encrypt ==> gmac.canWrite
    requires gmac != null && !encrypt ==> gmac.canRead
    requires Synced(churner, encrypt, le, source, target, gmac, counter, tagBuffer, srcBuffer, chunk, data, pos, st, final)
    requires |chunk| != 0
    modifies source, target, gmac, counter
    ensures counter' == counter || fresh(counter')
    ensures pos < pos' <= |data|
    ensures error.None? ==>
              Synced(churner, encrypt, le, source, target, gmac, counter', tagBuffer', srcBuffer', chunk', data, pos', st', final)
    ensures error.Some? ==>
              && final == st' && error == st'.error
              && source.data == data && source.position == st'.position
              && target.data == st'.output && target.position == |st'.output|
              && (gmac != null ==> gmac.data == st'.mac && gmac.position == st'.macPosition)
  {
    srcBuffer' := ReadInto(srcBuffer, chunk);
    if |chunk| != |srcBuffer'| {
      srcBuffer' := srcBuffer'[..|chunk|];
    }
    assert srcBuffer' == data[pos..pos + Min(BufferLength, |data| - pos)];

    counter', tagBuffer', error, st' := ChurnAt(churner, encrypt, le, target, gmac,
                                               counter, tagBuffer, srcBuffer', data, pos, st);
    pos' := pos + |chunk|;
    if error.Some? {
      chunk' := [];
      return;
    }
    chunk' := source.Read(|srcBuffer'|);
  }

  /** `Churn(this Stream source, Stream target, direction, isGcm, salt, pass,
      gmacStream)`. The new state of all three streams is that of `Churned`;
      on success the target is rewound. */
  method Churn(p: Primitives, source: MemStream, target: MemStream, direction: Direction, isGcm: bool,
               salt: seq<byte>, pass: seq<byte>, gmac: MemStream?, platformLittleEndian: bool)
    returns (outcome: Outcome)
    requires source != target
    requires gmac != null ==> gmac != source && gmac != target
    requires source.canRead && source.canSeek && target.canWrite && target.canSeek
    requires gmac != null && direction == Encrypt ==> gmac.canWrite
    requires gmac != null && direction == Decrypt ==> gmac.canRead
    modifies source, target, gmac
    ensures var r := Churned(GetChurner(p, UniqueKey(salt, pass), isGcm), direction, gmac != null,
                             platformLittleEndian, old(source.data), old(MacContent(gmac)), old(MacPosition(gmac)));
            && source.data == old(source.data) && source.position == r.position
            && target.data == r.output
            && target.position == (if r.error.None? then 0 else |r.output|)
            && (gmac != null ==> gmac.data == r.mac && gmac.position == r.macPosition)
            && outcome == (if r.error.None? then Pass else Fail(r.error.value))
  {
    var encrypt := direction == Encrypt;
    ghost var data := source.data;
    ghost var final := Churned(GetChurner(p, UniqueKey(salt, pass), isGcm), direction, gmac != null,
                               platformLittleEndian, data, MacContent(gmac), MacPosition(gmac));
    var churner, counter, tagBuffer, srcBuffer, chunk := ChurnStart(p, source, target, direction, isGcm, salt, pass, gmac,
                                                                    platformLittleEndian, final);
    ghost var st := Initial(MacContent(gmac), MacPosition(gmac));
    ghost var pos := 0;
    while |chunk| != 0
      invariant fresh(counter)
      invariant Synced(churner, encrypt, platformLittleEndian, source, target, gmac, counter, tagBuffer, srcBuffer,
                       chunk, data, pos, st, final)
      decreases |data| - pos
    {
      var error;
      counter, tagBuffer, srcBuffer, chunk, error, pos, st :=
        ChurnNext(churner, encrypt, platformLittleEndian, source, target, gmac, counter, tagBuffer, srcBuffer,
                  chunk, data, pos, st, final);
      if error.Some? {
        return Fail(error.value);
      }
    }

    assert RunFrom(churner, encrypt, gmac != null, platformLittleEndian, data, pos, st) == st;
    target.Seek(0);
    return Pass;
  }

  /** Everything before the read loop of `Churn`: the buffers and counter,
      the rewind and truncation, the churner and the first read. */
  method ChurnStart(p: Primitives, source: MemStream, target: MemStream, direction: Direction, isGcm: bool,
                    salt: seq<byte>, pass: seq<byte>, gmac: MemStream?, platformLittleEndian: bool,
                    ghost final: ChurnState)
    returns (churner: Churner, counter: array<byte>, tagBuffer: seq<byte>, srcBuffer: seq<byte>, chunk: seq<byte>)
    requires source != target
    requires gmac != null ==> gmac != source && gmac != target
    requires source.canRead && source.canSeek && target.canWrite && target.canSeek
    requires final == Churned(GetChurner(p, UniqueKey(salt, pass), isGcm), direction, gmac != null,
                              platformLittleEndian, source.data, MacContent(gmac), MacPosition(gmac))
    modifies source, target
    ensures fresh(counter)
    ensures churner == GetChurner(p, UniqueKey(salt, pass), isGcm)
    ensures gmac != null ==> gmac.data == old(gmac.data) && gmac.position == old(gmac.position)
    ensures Synced(churner, direction == Encrypt, platformLittleEndian, source, target, gmac, counter, tagBuffer,
                   srcBuffer, chunk, old(source.data), 0, Initial(old(MacContent(gmac)), old(MacPosition(gmac))), final)
  {
    srcBuffer := Zeros(BufferLength);
    tagBuffer := Zeros(TagLength);
    counter := new byte[NonceLength](_ => 0);
    assert counter[..] == Zeros(NonceLength);

    source.Seek(0);
    target.SetLength(0);

    var uniqueKey := UniqueKey(salt, pass);
    churner := GetChurner(p, uniqueKey, isGcm);
    chunk := source.Read(|srcBuffer|);
  }
}
