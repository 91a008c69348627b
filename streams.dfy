/** In-memory models of the .NET `Stream` and of the file system that the
    crypto code works against. A stream is a byte sequence with a position;
    `Read` returns as many bytes as were asked for or as remain, whichever is
    fewer. The file system is a map from full path to file contents. */
module Streams {
  import opened Common

  /** Bytes a read of `count` at `pos` returns: min(count, remaining). */
  function ReadAt(data: seq<byte>, pos: nat, count: nat): (r: seq<byte>)
    ensures |r| == Min(count, Max(0, |data| - pos))
    ensures pos <= |data| ==> r == data[pos..pos + |r|]
  {
    if pos >= |data| then [] else data[pos..pos + Min(count, |data| - pos)]
  }

  /** Contents after writing `bytes` at `pos`: overwrite in place, extend at the
      end, zero-fill a gap left by a seek past the end. */
  function WriteAt(data: seq<byte>, pos: nat, bytes: seq<byte>): (r: seq<byte>)
    ensures |r| == Max(|data|, pos + |bytes|)
    ensures r[pos..pos + |bytes|] == bytes
    ensures forall i :: 0 <= i < |r| && !(pos <= i < pos + |bytes|) ==>
              r[i] == (if i < |data| then data[i] else 0)
  {
    var head := if pos <= |data| then data[..pos] else data + Zeros(pos - |data|);
    var tail := if pos + |bytes| < |data| then data[pos + |bytes|..] else [];
    head + bytes + tail
  }

  /** Writing at the end appends. */
  lemma WriteAtEnd(data: seq<byte>, bytes: seq<byte>)
    ensures WriteAt(data, |data|, bytes) == data + bytes
  {
  }

  /** Two successive writes at adjacent positions are one write. */
  lemma WriteAtAdjacent(d: seq<byte>, p: nat, a: seq<byte>, b: seq<byte>)
    ensures WriteAt(WriteAt(d, p, a), p + |a|, b) == WriteAt(d, p, a + b)
  {
    var lhs := WriteAt(WriteAt(d, p, a), p + |a|, b);
    var rhs := WriteAt(d, p, a + b);
    assert |lhs| == |rhs|;
    forall i | 0 <= i < |lhs| ensures lhs[i] == rhs[i] {
      if p <= i < p + |a| {
        assert rhs[p..p + |a + b|][i - p] == (a + b)[i - p];
      } else if p + |a| <= i < p + |a| + |b| {
        assert rhs[p..p + |a + b|][i - p] == (a + b)[i - p];
        assert lhs[p + |a|..p + |a| + |b|][i - p - |a|] == b[i - p - |a|];
      }
    }
  }

  /** A buffer after `Read(buffer, 0, buffer.Length)` returned `chunk`: the
      bytes read replace the front of the buffer and the rest keeps what it
      held. */
  function ReadInto(buffer: seq<byte>, chunk: seq<byte>): (r: seq<byte>)
    requires |chunk| <= |buffer|
    ensures |r| == |buffer| && r[..|chunk|] == chunk && r[|chunk|..] == buffer[|chunk|..]
  {
    chunk + buffer[|chunk|..]
  }

  /** `Stream.SetLength`: truncate, or extend with zero bytes. */
  function Resized(data: seq<byte>, n: nat): (r: seq<byte>)
    ensures |r| == n
    ensures forall i :: 0 <= i < n ==> r[i] == (if i < |data| then data[i] else 0)
  {
    if n <= |data| then data[..n] else data + Zeros(n - |data|)
  }

  /** A seekable in-memory stream with the capability flags the code tests. */
  class MemStream {
    var data: seq<byte>
    var position: nat
    const canRead: bool
    const canWrite: bool
    const canSeek: bool

    constructor (content: seq<byte>, canRead: bool, canWrite: bool, canSeek: bool)
      ensures data == content && position == 0
      ensures this.canRead == canRead && this.canWrite == canWrite && this.canSeek == canSeek
    {
      data := content;
      position := 0;
      this.canRead := canRead;
      this.canWrite := canWrite;
      this.canSeek := canSeek;
    }

    function Length(): nat
      reads this
    {
      |data|
    }

    /** `Read(buffer, 0, count)`: the bytes read (their number is the return
        value of the .NET call); the position advances past them. */
    method Read(count: nat) returns (chunk: seq<byte>)
      requires canRead
      modifies this`position
      ensures chunk == ReadAt(data, old(position), count)
      ensures position == old(position) + |chunk|
    {
      chunk := ReadAt(data, position, count);
      position := position + |chunk|;
    }

    method Write(bytes: seq<byte>)
      requires canWrite
      modifies this`data, this`position
      ensures data == WriteAt(old(data), old(position), bytes)
      ensures position == old(position) + |bytes|
    {
      data := WriteAt(data, position, bytes);
      position := position + |bytes|;
    }

    /** `Seek(offset, SeekOrigin.Begin)` and `Position = offset`. */
    method Seek(offset: nat)
      requires canSeek
      modifies this`position
      ensures position == offset
    {
      position := offset;
    }

    /** `SetLength(n)`: the position is pulled back if it was past the end. */
    method SetLength(n: nat)
      requires canSeek && canWrite
      modifies this`data, this`position
      ensures data == Resized(old(data), n)
      ensures position == Min(old(position), n)
    {
      data := Resized(data, n);
      position := Min(position, n);
    }
  }

  /** The file system: full path to contents, and the directories that
      exist, named as `DirectoryName` gives them. */
  class FileSystem {
    var files: map<string, seq<byte>>
    var directories: set<string>

    constructor (files: map<string, seq<byte>>, directories: set<string>)
      ensures this.files == files && this.directories == directories
    {
      this.files := files;
      this.directories := directories;
    }

    /** `FileInfo.Delete`: removing a missing file is not an error. */
    method Delete(path: string)
      modifies this`files
      ensures files == old(files) - {path}
    {
      files := files - {path};
    }

    /** `FileInfo.MoveTo(to, overwrite: true)`: the contents move to the new
        path, replacing whatever was there. When the new path's directory
        does not exist, a `DirectoryNotFoundException` is thrown and nothing
        moves. */
    method Move(from: string, to: string) returns (outcome: Outcome)
      requires from in files
      modifies this`files
      ensures DirectoryName(to) in directories ==>
                outcome == Pass && files == (old(files) - {from})[to := old(files)[from]]
      ensures DirectoryName(to) !in directories ==>
                outcome == Fail(DirectoryNotFound(to)) && files == old(files)
    {
      if DirectoryName(to) !in directories {
        return Fail(DirectoryNotFound(to));
      }
      files := (files - {from})[to := files[from]];
      return Pass;
    }

    /** Disposing a written stream flushes its contents to the file. */
    method Store(path: string, contents: seq<byte>)
      modifies this`files
      ensures files == old(files)[path := contents]
    {
      files := files[path := contents];
    }
  }

  // -----------------------------------------------------------------------
  // Paths. The directory separator is '/'.

  const Separator: char := '/'

  /** Index of the last separator in `path`, or -1. */
  function LastSeparator(path: string): (i: int)
    ensures -1 <= i < |path|
    ensures i >= 0 ==> path[i] == Separator
    ensures forall j :: i < j < |path| ==> path[j] != Separator
  {
    if path == [] then -1
    else if path[|path| - 1] == Separator then |path| - 1
    else LastSeparator(path[..|path| - 1])
  }

  /** `FileInfo.DirectoryName`. */
  function DirectoryName(path: string): string
  {
    var i := LastSeparator(path);
    if i < 0 then "" else path[..i]
  }

  /** `FileInfo.Name`. */
  function FileName(path: string): (name: string)
    ensures Separator !in name
  {
    var i := LastSeparator(path);
    path[i + 1..]
  }

  /** Index of the last '.' in `name`, or -1. */
  function LastDot(name: string): (i: int)
    ensures -1 <= i < |name|
    ensures i >= 0 ==> name[i] == '.'
    ensures forall j :: i < j < |name| ==> name[j] != '.'
  {
    if name == [] then -1
    else if name[|name| - 1] == '.' then |name| - 1
    else LastDot(name[..|name| - 1])
  }

  /** `FileInfo.Extension` (`Path.GetExtension`): from the last '.' of the
      file name on; empty when there is none or when it is the last character. */
  function Extension(path: string): (ext: string)
    ensures ext == [] || (ext[0] == '.' && |ext| >= 2)
    ensures Separator !in ext
  {
    var name := FileName(path);
    var i := LastDot(name);
    if i < 0 || i == |name| - 1 then "" else name[i..]
  }

  predicate IsRooted(path: string)
  {
    |path| > 0 && path[0] == Separator
  }

  /** `Path.Combine(dir, name)`: a rooted `name` wins; otherwise the two are
      joined by exactly one separator. */
  function Combine(dir: string, name: string): (r: string)
    ensures !IsRooted(name) && dir != [] && dir[|dir| - 1] != Separator ==>
              r == dir + [Separator] + name
  {
    if IsRooted(name) || dir == [] then name
    else if dir[|dir| - 1] == Separator then dir + name
    else dir + [Separator] + name
  }

  /** A combined name without separators is found again as the file name. */
  lemma {:induction false} CombineFileName(dir: string, name: string)
    requires Separator !in name && dir != []
    ensures FileName(Combine(dir, name)) == name
  {
    var r := Combine(dir, name);
    LastSeparatorOfJoin(r, |r| - |name| - 1);
  }

  lemma {:induction false} LastSeparatorOfJoin(r: string, k: int)
    requires -1 <= k < |r|
    requires k >= 0 ==> r[k] == Separator
    requires forall j :: k < j < |r| ==> r[j] != Separator
    ensures LastSeparator(r) == k
    decreases |r|
  {
    if r != [] && r[|r| - 1] != Separator {
      LastSeparatorOfJoin(r[..|r| - 1], k);
    }
  }

  /** `string.ToLower()`: the current culture's lower-casing, applied to each
      character. The culture's mapping is a parameter. */
  function Lower(toLower: char -> char, s: string): (r: string)
    ensures |r| == |s|
    ensures forall i :: 0 <= i < |s| ==> r[i] == toLower(s[i])
  {
    seq(|s|, i requires 0 <= i < |s| => toLower(s[i]))
  }

  /** What every culture's lower-casing does to a path: a separator stays a
      separator, no other character becomes one, and lower-case hex digits
      are already lower case. */
  predicate KeepsPathShape(toLower: char -> char)
  {
    && toLower(Separator) == Separator
    && (forall c :: c != Separator ==> toLower(c) != Separator)
    && (forall c :: ('0' <= c <= '9' || 'a' <= c <= 'f') ==> toLower(c) == c)
  }
}
