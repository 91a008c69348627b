/** The hashing helpers of FullStack.Crypto/Hash/HashExtensions.cs: a digest
    of bytes, of a whole stream, of a file, and the "light" hash that samples
    evenly spaced chunks of a stream. The digest algorithms themselves are
    parameters (a `HashFamily`). */
module Hashing {
  import opened Common
  import opened Streams
  import opened Assertions
  import Codec

  /** `HashAlgo` values; any other number is an undefined enum value. */
  type HashAlgo = int
  const Md5: HashAlgo := 0
  const Sha1: HashAlgo := 1
  const Sha256: HashAlgo := 2
  const Sha384: HashAlgo := 3
  const Sha512: HashAlgo := 4

  /** What `MD5.Create()` … `SHA512.Create()` return. */
  datatype HashFamily = HashFamily(md5: Hasher, sha1: Hasher, sha256: Hasher, sha384: Hasher, sha512: Hasher)

  // -----------------------------------------------------------------------
  // Algorithm dispatch and whole-input hashes

  /** `ToAlgorithm`: the five defined values map to their algorithms; any other
      value is an undefined enum value, which formats as its number. */
  function ToAlgorithm(f: HashFamily, algo: HashAlgo): (r: Result<Hasher>)
    ensures r.Success? <==> Md5 <= algo <= Sha512
    ensures algo == Md5 ==> r.Success? && r.value == f.md5
    ensures algo == Sha1 ==> r.Success? && r.value == f.sha1
    ensures algo == Sha256 ==> r.Success? && r.value == f.sha256
    ensures algo == Sha384 ==> r.Success? && r.value == f.sha384
    ensures algo == Sha512 ==> r.Success? && r.value == f.sha512
    ensures r.Failure? ==> r.error == NotSupported(IntText(algo) + " unsupported")
  {
    if algo == Md5 then Success(f.md5)
    else if algo == Sha1 then Success(f.sha1)
    else if algo == Sha256 then Success(f.sha256)
    else if algo == Sha384 then Success(f.sha384)
    else if algo == Sha512 then Success(f.sha512)
    else Failure(NotSupported(IntText(algo) + " unsupported"))
  }

  /** `Hash(this byte[] input, algo)`: the chosen algorithm's digest of the input. */
  function HashBytes(f: HashFamily, input: seq<byte>, algo: HashAlgo): (r: Result<seq<byte>>)
    ensures r.Success? <==> Md5 <= algo <= Sha512
    ensures r.Success? ==> r.value == ToAlgorithm(f, algo).value.digest(input)
    ensures r.Failure? ==> r.error == NotSupported(IntText(algo) + " unsupported")
  {
    var hasher :- ToAlgorithm(f, algo);
    Success(hasher.digest(input))
  }

  /** What `Hash(this Stream, algo)` returns for a readable, seekable stream
      holding `data`: an empty stream is refused before the algorithm is
      chosen. */
  function StreamHash(f: HashFamily, data: seq<byte>, algo: HashAlgo): (r: Result<seq<byte>>)
    ensures |data| == 0 ==> r == Failure(ArgumentError(NotReadable))
    ensures |data| > 0 ==> r == HashBytes(f, data, algo)
  {
    if |data| == 0 then Failure(ArgumentError(NotReadable)) else HashBytes(f, data, algo)
  }

  /** `Hash(this Stream input, algo)`: asserts the stream is readable, rewinds
      it, and hashes all of it, which leaves the position at the end. A failed
      assertion leaves the stream as it was; an unknown algorithm is found
      after the rewind. */
  method HashStream(f: HashFamily, input: MemStream?, algo: HashAlgo) returns (r: Result<seq<byte>>)
    modifies input
    ensures input != null ==> input.data == old(input.data)
    ensures old(AssertReadable(input)).Fail? ==>
              r == Failure(ArgumentError(NotReadable)) && (input != null ==> input.position == old(input.position))
    ensures old(AssertReadable(input)).Pass? ==> r == HashBytes(f, input.data, algo)
    ensures old(AssertReadable(input)).Pass? ==> input.position == (if r.Success? then |input.data| else 0)
  {
    var check := AssertReadable(input);
    if check.Fail? {
      return Failure(check.error);
    }
    input.Seek(0);
    var hasher := ToAlgorithm(f, algo);
    if hasher.Failure? {
      return Failure(hasher.error);
    }
    var all := input.Read(input.Length());
    assert all == input.data;
    r := Success(hasher.value.digest(all));
  }

  /** `Hash(this FileInfo, algo)`: opens the file for reading (a missing file
      is a `FileNotFoundException`) and hashes its stream. */
  method HashFile(f: HashFamily, fs: FileSystem, path: string, algo: HashAlgo) returns (r: Result<seq<byte>>)
    ensures path !in fs.files ==> r == Failure(FileNotFound(path))
    ensures path in fs.files ==> r == StreamHash(f, fs.files[path], algo)
  {
    if path !in fs.files {
      return Failure(FileNotFound(path));
    }
    var stream := new MemStream(fs.files[path], true, false, true);
    r := HashStream(f, stream, algo);
  }

  // -----------------------------------------------------------------------
  // The light hash

  /** The chunks the light hash reads: one of up to `chunkSize` bytes at
      `offset`, then the next one `chunkSize + skip` further on, until an
      offset at or past the end (or a chunk size of zero, which reads nothing). */
  function Samples(data: seq<byte>, chunkSize: nat, skip: nat, offset: nat): seq<seq<byte>>
    decreases |data| - offset
  {
    if chunkSize == 0 || offset >= |data| then []
    else [ReadAt(data, offset, chunkSize)] + Samples(data, chunkSize, skip, offset + chunkSize + skip)
  }

  /** The chunks one after the other. */
  function Flatten(chunks: seq<seq<byte>>): seq<byte>
  {
    if chunks == [] then [] else chunks[0] + Flatten(chunks[1..])
  }

  /** The bytes the sampling loop feeds to the hasher from `offset` on. */
  function SampledFrom(data: seq<byte>, chunkSize: nat, skip: nat, offset: nat): seq<byte>
    decreases |data| - offset
  {
    if chunkSize == 0 || offset >= |data| then []
    else ReadAt(data, offset, chunkSize) + SampledFrom(data, chunkSize, skip, offset + chunkSize + skip)
  }

  /** What the loop feeds is the sampled chunks one after the other. */
  lemma {:induction false} SampledFlatten(data: seq<byte>, chunkSize: nat, skip: nat, offset: nat)
    ensures SampledFrom(data, chunkSize, skip, offset) == Flatten(Samples(data, chunkSize, skip, offset))
    decreases |data| - offset
  {
    if chunkSize > 0 && offset < |data| {
      SampledFlatten(data, chunkSize, skip, offset + chunkSize + skip);
      FlattenCons(ReadAt(data, offset, chunkSize), Samples(data, chunkSize, skip, offset + chunkSize + skip));
    }
  }

  /** The number of chunks sampled from `n` bytes. */
  function SampleCount(n: nat, chunkSize: nat, skip: nat): nat
  {
    if chunkSize == 0 then 0 else NumBlocks(n, chunkSize + skip)
  }

  /** The sampling schedule: chunk k starts at k * (chunkSize + skip), before
      the end, and is what a read of `chunkSize` bytes there returns, that
      is min(chunkSize, n - offset) bytes; there is one chunk per such offset
      and no more. */
  lemma SampleSchedule(data: seq<byte>, chunkSize: nat, skip: nat, k: nat, offset: nat)
    requires chunkSize > 0
    ensures k < |Samples(data, chunkSize, skip, offset)| <==> offset + k * (chunkSize + skip) < |data|
    ensures k < |Samples(data, chunkSize, skip, offset)| ==>
              Samples(data, chunkSize, skip, offset)[k] == ReadAt(data, offset + k * (chunkSize + skip), chunkSize)
  {
    SampleLength(data, chunkSize, skip, k, offset);
    SampleOffsetIs(offset, chunkSize + skip, k);
    if k < |Samples(data, chunkSize, skip, offset)| {
      SampleAt(data, chunkSize, skip, k, offset);
    }
  }

  /** The offset of chunk k: k strides past `offset`. */
  function SampleOffset(offset: nat, stride: nat, k: nat): (r: nat)
    decreases k
  {
    if k == 0 then offset else SampleOffset(offset + stride, stride, k - 1)
  }

  lemma {:induction false} SampleOffsetIs(offset: nat, stride: nat, k: nat)
    ensures SampleOffset(offset, stride, k) == offset + k * stride
    decreases k
  {
    if k > 0 {
      SampleOffsetIs(offset + stride, stride, k - 1);
      MulStep(k, stride);
    }
  }

  /** There is a chunk k exactly when its offset is before the end. */
  lemma {:induction false} SampleLength(data: seq<byte>, chunkSize: nat, skip: nat, k: nat, offset: nat)
    requires chunkSize > 0
    ensures k < |Samples(data, chunkSize, skip, offset)| <==> SampleOffset(offset, chunkSize + skip, k) < |data|
    decreases |data| - offset
  {
    var stride := chunkSize + skip;
    if offset >= |data| {
      SampleOffsetIs(offset, stride, k);
      MulNonNegative(k, stride);
    } else if k > 0 {
      SampleLength(data, chunkSize, skip, k - 1, offset + stride);
    }
  }

  /** Chunk k is the read at its offset. */
  lemma {:induction false} SampleAt(data: seq<byte>, chunkSize: nat, skip: nat, k: nat, offset: nat)
    requires chunkSize > 0 && k < |Samples(data, chunkSize, skip, offset)|
    ensures Samples(data, chunkSize, skip, offset)[k] == ReadAt(data, SampleOffset(offset, chunkSize + skip, k), chunkSize)
    decreases |data| - offset
  {
    var stride := chunkSize + skip;
    var here := Samples(data, chunkSize, skip, offset);
    var next := Samples(data, chunkSize, skip, offset + stride);
    assert here == [ReadAt(data, offset, chunkSize)] + next;
    if k > 0 {
      SampleAt(data, chunkSize, skip, k - 1, offset + stride);
      assert here[k] == next[k - 1];
    }
  }

  lemma MulNonNegative(k: nat, stride: nat)
    ensures k * stride >= 0
  {
  }

  lemma MulStep(k: nat, stride: nat)
    requires k > 0
    ensures k * stride == (k - 1) * stride + stride
  {
  }

  /** Sampling from the start reads `SampleCount` chunks. */
  lemma SampleTotal(data: seq<byte>, chunkSize: nat, skip: nat)
    ensures |Samples(data, chunkSize, skip, 0)| == SampleCount(|data|, chunkSize, skip)
  {
    if chunkSize > 0 {
      var n := |Samples(data, chunkSize, skip, 0)|;
      SampleSchedule(data, chunkSize, skip, n, 0);
      NumBlocksBound(|data|, chunkSize + skip, n);
      if n > 0 {
        SampleSchedule(data, chunkSize, skip, n - 1, 0);
        NumBlocksBound(|data|, chunkSize + skip, n - 1);
      }
    }
  }

  /** The digest `LightHash` returns for a stream holding `data`: the
      algorithm is fed the digest of the UTF-8 decimal length, then every
      sampled chunk, skipping `|data| / readCount` bytes after each. */
  function LightDigest(hasher: Hasher, enc: Codec.Encodings, data: seq<byte>, readCount: nat, chunkSize: nat): seq<byte>
    requires readCount >= 1
  {
    var seed := hasher.digest(enc.getBytes(Codec.Utf8, DecimalText(|data|)));
    hasher.digest(seed + Flatten(Samples(data, chunkSize, |data| / readCount, 0)))
  }

  lemma FlattenCons(chunk: seq<byte>, rest: seq<seq<byte>>)
    ensures Flatten([chunk] + rest) == chunk + Flatten(rest)
  {
    assert ([chunk] + rest)[1..] == rest;
  }

  /** `LightHash(this Stream, algo, readCount, chunkSize)`. The algorithm is chosen
      first, then it must be reusable and the stream readable; nothing is
      read before those checks. The stream ends rewound to 0. */
  method LightHash(f: HashFamily, enc: Codec.Encodings, stream: MemStream?, algo: HashAlgo, readCount: int, chunkSize: int)
    returns (r: Result<seq<byte>>)
    requires readCount >= 1
    modifies stream
    ensures stream != null ==> stream.data == old(stream.data)
    ensures ToAlgorithm(f, algo).Failure? ==> r == Failure(ToAlgorithm(f, algo).error)
    ensures ToAlgorithm(f, algo).Success? && !ToAlgorithm(f, algo).value.canReuseTransform ==>
              r == Failure(ArgumentError(NotReusable))
    ensures (ToAlgorithm(f, algo).Success? && ToAlgorithm(f, algo).value.canReuseTransform &&
             old(AssertReadable(stream)).Fail?) ==> r == Failure(ArgumentError(NotReadable))
    ensures (ToAlgorithm(f, algo).Success? && ToAlgorithm(f, algo).value.canReuseTransform &&
             old(AssertReadable(stream)).Pass?) ==>
              (r.Success? <==> chunkSize >= 0) && (chunkSize < 0 ==> r == Failure(Overflow(ArithmeticOverflow)))
    ensures r.Failure? && stream != null ==> stream.position == old(stream.position)
    ensures r.Success? ==>
              && ToAlgorithm(f, algo).Success?
              && stream != null && stream.position == 0 && chunkSize >= 0
              && r.value == LightDigest(ToAlgorithm(f, algo).value, enc, stream.data, readCount, chunkSize)
  {
    var algorithm := ToAlgorithm(f, algo);
    if algorithm.Failure? {
      return Failure(algorithm.error);
    }
    var hasher := algorithm.value;
    var reusable := AssertReusable(hasher);
    if reusable.Fail? {
      return Failure(reusable.error);
    }
    var readable := AssertReadable(stream);
    if readable.Fail? {
      return Failure(readable.error);
    }

    var seedBytes := Codec.CharBytes(enc, DecimalText(stream.Length()), Codec.Utf8);
    var seed := HashBytes(f, seedBytes.value, algo);
    var skip := stream.Length() / readCount;
    if chunkSize < 0 {
      return Failure(Overflow(ArithmeticOverflow));
    }
    stream.Seek(0);
    var sampled := ReadSamples(stream, chunkSize, skip);
    SampledFlatten(stream.data, chunkSize, skip, 0);
    stream.Seek(0);
    r := Success(hasher.digest(seed.value + sampled));
  }

  /** The sampling loop of `LightHash`: from the start of the stream, read a
      chunk, skip ahead, until a read returns nothing. */
  method ReadSamples(stream: MemStream, chunkSize: nat, skip: nat) returns (sampled: seq<byte>)
    requires stream.canRead && stream.canSeek && stream.position == 0
    modifies stream`position
    ensures sampled == SampledFrom(stream.data, chunkSize, skip, 0)
  {
    ghost var data := stream.data;
    ghost var whole := SampledFrom(data, chunkSize, skip, stream.position);
    ghost var offset := 0;
    sampled := [];
    var chunk := stream.Read(chunkSize);
    while |chunk| > 0
      invariant stream.data == data && stream.canRead && stream.canSeek
      invariant offset < |data| ==> chunk == ReadAt(data, offset, chunkSize) && stream.position == offset + |chunk|
      invariant offset >= |data| ==> chunk == []
      invariant whole == sampled + SampledFrom(data, chunkSize, skip, offset)
      decreases |data| - offset
    {
      ghost var before, last := offset, sampled;
      sampled := sampled + chunk;
      chunk, offset := SkipAndRead(stream, chunkSize, skip, data, offset, chunk);
      SampledSoFar(data, chunkSize, skip, before, offset, whole, last, sampled);
    }
    assert SampledFrom(data, chunkSize, skip, offset) == [];
  }

  /** The chunk read at `offset` joins what was sampled before it. */
  lemma SampledSoFar(data: seq<byte>, chunkSize: nat, skip: nat, offset: nat, next: nat, whole: seq<byte>,
                     sampled: seq<byte>, sampled': seq<byte>)
    requires offset < |data| && next == offset + chunkSize + skip
    requires sampled' == sampled + ReadAt(data, offset, chunkSize) && chunkSize > 0
    requires whole == sampled + SampledFrom(data, chunkSize, skip, offset)
    ensures whole == sampled' + SampledFrom(data, chunkSize, skip, next)
  {
    SampleStep(data, chunkSize, skip, offset);
    var chunk := ReadAt(data, offset, chunkSize);
    var rest := SampledFrom(data, chunkSize, skip, next);
    assert whole == sampled + (chunk + rest);
    AppendAssoc(sampled, chunk, rest);
  }

  /** The end of a turn of the sampling loop: `Seek(skip, SeekOrigin.Current)`,
      then read the next chunk. */
  method SkipAndRead(stream: MemStream, chunkSize: nat, skip: nat, ghost data: seq<byte>, ghost offset: nat,
                     chunk: seq<byte>) returns (chunk': seq<byte>, ghost offset': nat)
    requires stream.data == data && stream.canRead && stream.canSeek
    requires offset < |data| && chunk == ReadAt(data, offset, chunkSize) && |chunk| > 0
    requires stream.position == offset + |chunk|
    modifies stream`position
    ensures offset' == offset + chunkSize + skip
    ensures offset' < |data| ==> chunk' == ReadAt(data, offset', chunkSize) && stream.position == offset' + |chunk'|
    ensures offset' >= |data| ==> chunk' == []
  {
    offset' := offset + chunkSize + skip;
    SampleStep(data, chunkSize, skip, offset);
    stream.Seek(stream.position + skip);
    chunk' := stream.Read(chunkSize);
  }

  /** One turn of the sampling loop: the chunk at `offset` comes first, and
      the position the loop seeks to is the next offset, or at least past
      the end when that offset is. */
  lemma SampleStep(data: seq<byte>, chunkSize: nat, skip: nat, offset: nat)
    requires offset < |data| && chunkSize > 0
    ensures SampledFrom(data, chunkSize, skip, offset)
         == ReadAt(data, offset, chunkSize) + SampledFrom(data, chunkSize, skip, offset + chunkSize + skip)
    ensures offset + chunkSize + skip < |data| ==>
              offset + |ReadAt(data, offset, chunkSize)| + skip == offset + chunkSize + skip
    ensures offset + |ReadAt(data, offset, chunkSize)| + skip >= |data| ==> offset + chunkSize + skip >= |data|
  {
  }

  /** `LightHash(this FileInfo, …)`: opens the file for reading (a missing
      file is a `FileNotFoundException`) and light-hashes its stream. */
  method LightHashFile(f: HashFamily, enc: Codec.Encodings, fs: FileSystem, path: string, algo: HashAlgo,
                       readCount: int, chunkSize: int) returns (r: Result<seq<byte>>)
    requires readCount >= 1
    ensures path !in fs.files ==> r == Failure(FileNotFound(path))
    ensures path in fs.files && ToAlgorithm(f, algo).Failure? ==> r == Failure(ToAlgorithm(f, algo).error)
    ensures (path in fs.files && ToAlgorithm(f, algo).Success? && !ToAlgorithm(f, algo).value.canReuseTransform) ==>
              r == Failure(ArgumentError(NotReusable))
    ensures (path in fs.files && ToAlgorithm(f, algo).Success? && ToAlgorithm(f, algo).value.canReuseTransform &&
             |fs.files[path]| == 0) ==>
              r == Failure(ArgumentError(NotReadable))
    ensures (path in fs.files && ToAlgorithm(f, algo).Success? && ToAlgorithm(f, algo).value.canReuseTransform &&
             |fs.files[path]| > 0 && chunkSize < 0) ==>
              r == Failure(Overflow(ArithmeticOverflow))
    ensures (path in fs.files && ToAlgorithm(f, algo).Success? && ToAlgorithm(f, algo).value.canReuseTransform &&
             |fs.files[path]| > 0 && chunkSize >= 0) ==>
              r == Success(LightDigest(ToAlgorithm(f, algo).value, enc, fs.files[path], readCount, chunkSize))
    ensures path in fs.files && |fs.files[path]| == 0 ==> r.Failure?
  {
    if path !in fs.files {
      return Failure(FileNotFound(path));
    }
    var stream := new MemStream(fs.files[path], true, false, true);
    r := LightHash(f, enc, stream, algo, readCount, chunkSize);
  }
}
