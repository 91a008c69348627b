/** The argument checks of FullStack.Crypto/AssertExtensions.cs. Each either
    passes or throws an `ArgumentException`; none changes what it inspects,
    which here is by construction, since they are functions. */
module Assertions {
  import opened Common
  import opened Streams

  /** `AssertReadable`: the stream must exist, be readable and seekable, and
      hold at least one byte. */
  function AssertReadable(stream: MemStream?): (r: Outcome)
    reads stream
    ensures r.Fail? <==> stream == null || !stream.canRead || !stream.canSeek || |stream.data| == 0
    ensures r.Fail? ==> r.error == ArgumentError(NotReadable)
  {
    if stream == null || !stream.canRead || !stream.canSeek || stream.Length() == 0 then
      Fail(ArgumentError(NotReadable))
    else
      Pass
  }

  /** `AssertWriteable`: the stream must exist, be writeable and seekable, and
      be empty. */
  function AssertWriteable(stream: MemStream?): (r: Outcome)
    reads stream
    ensures r.Fail? <==> stream == null || !stream.canWrite || !stream.canSeek || |stream.data| != 0
    ensures r.Fail? ==> r.error == ArgumentError(NotWriteable)
  {
    if stream == null || !stream.canWrite || !stream.canSeek || stream.Length() != 0 then
      Fail(ArgumentError(NotWriteable))
    else
      Pass
  }

  /** `AssertReusable`: the hash transform must be reusable. */
  function AssertReusable(hasher: Hasher): (r: Outcome)
    ensures r.Fail? <==> !hasher.canReuseTransform
    ensures r.Fail? ==> r.error == ArgumentError(NotReusable)
  {
    if !hasher.canReuseTransform then Fail(ArgumentError(NotReusable)) else Pass
  }

  /** `AssertExists`: the file must exist; the message names its full path. */
  function AssertExists(fs: FileSystem, path: string): (r: Outcome)
    reads fs
    ensures r.Fail? <==> path !in fs.files
    ensures r.Fail? ==> r.error == ArgumentError("File not found: " + path)
  {
    if path !in fs.files then Fail(ArgumentError("File not found: " + path)) else Pass
  }
}
