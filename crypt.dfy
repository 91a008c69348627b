/** The in-place file encryption of FullStack.Crypto/CryptExtensions.cs.
    `Encrypt` overwrites a file with its AES-GCM counter-mode image block by
    block, appends a 32-byte pepper and renames the file after its scrambled
    SHA-256 digest; `Decrypt` recovers that salt from the file name, the
    pepper from the file's tail, and writes the plaintext to a stream,
    authenticating each block against a tag stream when one is given. */
module Crypt {
  import opened Common
  import opened Streams
  import Counter
  import opened Aead
  import Codec
  import Hashing

  /** `PepperLength`: the random bytes appended to an encrypted file. */
  const PepperLength: nat := 32

  /** `CtrPad`: the four zero bytes that widen an 8-byte block number to a nonce. */
  const CtrPad: seq<byte> := [0, 0, 0, 0]

  /** SHA-256 yields 32 bytes. */
  ghost predicate Sha256Sized(f: Hashing.HashFamily)
  {
    forall m :: |f.sha256.digest(m)| == 32
  }

  // -----------------------------------------------------------------------
  // The salt: a scrambled SHA-256 of the plaintext

  /** The salt after `Array.Reverse(salt, 0, 8)`, `Array.Reverse(salt, 5,
      salt.Length - 5)` and `Array.Reverse(salt)`: bytes 0..2 reversed, then
      bytes 8.. in order, then bytes 3..7 in order. */
  function Scrambled(h: seq<byte>): (r: seq<byte>)
    requires |h| >= 8
    ensures |r| == |h|
  {
    Reverse(h[..3]) + h[8..] + h[3..8]
  }

  /** The scramble only moves bytes. */
  lemma ScrambledPermutation(h: seq<byte>)
    requires |h| >= 8
    ensures multiset(Scrambled(h)) == multiset(h)
  {
    ReversePermutation(h[..3]);
    assert h == h[..3] + h[3..8] + h[8..];
  }

  lemma {:induction false} ReversePermutation(s: seq<byte>)
    ensures multiset(Reverse(s)) == multiset(s)
  {
    if s != [] {
      ReversePermutation(s[1..]);
      assert s == [s[0]] + s[1..];
    }
  }

  /** Different digests give different salts, hence different file names. */
  lemma ScrambledInjective(a: seq<byte>, b: seq<byte>)
    requires |a| >= 8 && |b| >= 8 && Scrambled(a) == Scrambled(b)
    ensures a == b
  {
    var sa := Scrambled(a);
    forall i | 0 <= i < |a| ensures a[i] == b[i] {
      if i < 3 {
        assert sa[2 - i] == a[i] && Scrambled(b)[2 - i] == b[i];
      } else if i < 8 {
        assert sa[|a| - 8 + i] == a[i] && Scrambled(b)[|b| - 8 + i] == b[i];
      } else {
        assert sa[i - 5] == a[i] && Scrambled(b)[i - 5] == b[i];
      }
    }
  }

  /** `Array.Reverse(a, lo, hi - lo)`: the range [lo, hi) reversed in place. */
  method ReverseRange(a: array<byte>, lo: nat, hi: nat)
    requires lo <= hi <= a.Length
    modifies a
    ensures a[..] == old(a[..lo]) + Reverse(old(a[lo..hi])) + old(a[hi..])
  {
    ghost var s := a[..];
    var i := lo;
    var j := hi;
    while i + 1 < j
      invariant lo <= i && j <= hi && i - lo == hi - j && i <= j
      invariant forall k :: 0 <= k < a.Length && !(lo <= k < hi) ==> a[k] == s[k]
      invariant forall k :: lo <= k < i ==> a[k] == s[lo + hi - 1 - k]
      invariant forall k :: j <= k < hi ==> a[k] == s[lo + hi - 1 - k]
      invariant forall k :: i <= k < j ==> a[k] == s[k]
      decreases j - i
    {
      a[i], a[j - 1] := a[j - 1], a[i];
      i := i + 1;
      j := j - 1;
    }
    ReversedRange(s, a[..], lo, hi);
  }

  /** A sequence that agrees with `s` outside [lo, hi) and holds it mirrored
      inside is `s` with that range reversed. */
  lemma ReversedRange(s: seq<byte>, t: seq<byte>, lo: nat, hi: nat)
    requires lo <= hi <= |s| == |t|
    requires forall k :: 0 <= k < |s| && !(lo <= k < hi) ==> t[k] == s[k]
    requires forall k :: lo <= k < hi ==> t[k] == s[lo + hi - 1 - k]
    ensures t == s[..lo] + Reverse(s[lo..hi]) + s[hi..]
  {
    forall k | 0 <= k < |s|
      ensures t[k] == (s[..lo] + Reverse(s[lo..hi]) + s[hi..])[k]
    {
      ReversedRangeAt(s, lo, hi, k);
    }
  }

  /** The three reversals of `Encrypt`, in place on the digest. */
  method Scramble(salt: array<byte>)
    requires salt.Length >= 8
    modifies salt
    ensures salt[..] == Scrambled(old(salt[..]))
  {
    ghost var h := salt[..];
    ReverseRange(salt, 0, 8);
    ghost var h1 := salt[..];
    ReverseRange(salt, 5, salt.Length);
    ghost var h2 := salt[..];
    ReverseRange(salt, 0, salt.Length);
    ScrambleSteps(h, h1, h2, salt[..]);
  }

  /** Byte k after reversing [lo, hi) of `s`. */
  lemma ReversedRangeAt(s: seq<byte>, lo: nat, hi: nat, k: nat)
    requires lo <= hi <= |s| && k < |s|
    ensures (s[..lo] + Reverse(s[lo..hi]) + s[hi..])[k] == if lo <= k < hi then s[lo + hi - 1 - k] else s[k]
  {
  }

  lemma ScrambleSteps(h: seq<byte>, h1: seq<byte>, h2: seq<byte>, h3: seq<byte>)
    requires |h| >= 8
    requires h1 == h[..0] + Reverse(h[0..8]) + h[8..]
    requires h2 == h1[..5] + Reverse(h1[5..|h1|]) + h1[|h1|..]
    requires h3 == h2[..0] + Reverse(h2[0..|h2|]) + h2[|h2|..]
    ensures h3 == Scrambled(h)
  {
    var n := |h|;
    forall k | 0 <= k < n ensures h3[k] == Scrambled(h)[k] {
      ReversedRangeAt(h2, 0, n, k);
      var m := n - 1 - k;
      ReversedRangeAt(h1, 5, n, m);
      var m1 := if m < 5 then m else 5 + n - 1 - m;
      ReversedRangeAt(h, 0, 8, m1);
    }
  }

  /** The file name `Encrypt` gives the encrypted file: the hex of the salt
      with the original extension, in the original directory, the whole path
      lower-cased by the culture's `toLower`. */
  function EncryptedPath(toLower: char -> char, path: string, salt: seq<byte>): string
  {
    Lower(toLower, Combine(DirectoryName(path), Codec.ToHex(salt) + Extension(path)))
  }

  const TooShort: string := "length"

  /** `GenerateSalt`: the first 64 characters of the file name read as hex.
      A shorter name is an `ArgumentOutOfRangeException` from `Substring`. */
  function GenerateSalt(path: string): (r: Result<seq<byte>>)
    ensures |FileName(path)| < 64 ==> r == Failure(ArgumentOutOfRange(TooShort))
    ensures |FileName(path)| >= 64 ==> r == Codec.FromHex(FileName(path)[..64])
  {
    var name := FileName(path);
    if |name| < 64 then Failure(ArgumentOutOfRange(TooShort)) else Codec.FromHex(name[..64])
  }

  /** `Decrypt` finds the salt again in the name `Encrypt` gave the file. */
  lemma SaltFromName(toLower: char -> char, path: string, salt: seq<byte>)
    requires |salt| == 32 && KeepsPathShape(toLower)
    ensures GenerateSalt(EncryptedPath(toLower, path, salt)) == Success(salt)
  {
    var hex := Codec.ToHex(salt);
    var name := hex + Extension(path);
    EncryptedFileName(toLower, path, salt);
    LowerHex(toLower, salt, Extension(path));
    assert Lower(toLower, name)[..64] == hex;
    Codec.FromHexToHex(salt);
  }

  /** The encrypted file's name is the lower-cased hex salt and extension. */
  lemma EncryptedFileName(toLower: char -> char, path: string, salt: seq<byte>)
    requires KeepsPathShape(toLower)
    ensures FileName(EncryptedPath(toLower, path, salt)) == Lower(toLower, Codec.ToHex(salt) + Extension(path))
  {
    var name := Codec.ToHex(salt) + Extension(path);
    HexNoSeparator(salt);
    JoinedFileName(DirectoryName(path), name);
    LowerFileName(toLower, Combine(DirectoryName(path), name));
  }

  lemma JoinedFileName(dir: string, name: string)
    requires Separator !in name
    ensures FileName(Combine(dir, name)) == name
  {
    if dir == [] || IsRooted(name) {
      LastSeparatorOfJoin(name, -1);
    } else {
      CombineFileName(dir, name);
    }
  }

  lemma LowerHex(toLower: char -> char, bytes: seq<byte>, rest: string)
    requires KeepsPathShape(toLower)
    ensures Lower(toLower, Codec.ToHex(bytes) + rest)[..|Codec.ToHex(bytes)|] == Codec.ToHex(bytes)
  {
    var s := Codec.ToHex(bytes);
    forall k | 0 <= k < |s| ensures toLower(s[k]) == s[k] {
      Codec.ToHexAt(bytes, k / 2);
    }
  }

  lemma HexNoSeparator(bytes: seq<byte>)
    ensures Separator !in Codec.ToHex(bytes)
  {
    var s := Codec.ToHex(bytes);
    forall k | 0 <= k < |s| ensures s[k] != Separator {
      Codec.ToHexAt(bytes, k / 2);
    }
  }

  /** Lower-casing a path lower-cases its file name and nothing else about it. */
  lemma LowerFileName(toLower: char -> char, path: string)
    requires KeepsPathShape(toLower)
    ensures FileName(Lower(toLower, path)) == Lower(toLower, FileName(path))
  {
    LastSeparatorOfJoin(Lower(toLower, path), LastSeparator(path));
  }

  /** Lower-casing a path lower-cases its directory and nothing else about it. */
  lemma LowerDirectoryName(toLower: char -> char, path: string)
    requires KeepsPathShape(toLower)
    ensures DirectoryName(Lower(toLower, path)) == Lower(toLower, DirectoryName(path))
  {
    var i := LastSeparator(path);
    LastSeparatorOfJoin(Lower(toLower, path), i);
    if i >= 0 {
      assert Lower(toLower, path)[..i] == Lower(toLower, path[..i]);
    }
  }

  /** The directory `Encrypt` moves the file into is the file's own
      directory, lower-cased: the move fails exactly when no directory of
      that lower-cased name exists. */
  lemma EncryptedDirectory(toLower: char -> char, path: string, salt: seq<byte>)
    requires KeepsPathShape(toLower)
    requires DirectoryName(path) == [] || DirectoryName(path)[|DirectoryName(path)| - 1] != Separator
    ensures DirectoryName(EncryptedPath(toLower, path, salt)) == Lower(toLower, DirectoryName(path))
  {
    var dir := DirectoryName(path);
    var name := Codec.ToHex(salt) + Extension(path);
    HexNoSeparator(salt);
    var joined := Combine(dir, name);
    if dir == [] {
      LastSeparatorOfJoin(joined, -1);
    } else {
      assert joined == dir + [Separator] + name;
      LastSeparatorOfJoin(joined, |dir|);
      assert joined[..|dir|] == dir;
    }
    LowerDirectoryName(toLower, joined);
  }

  // -----------------------------------------------------------------------
  // The pepper and the cipher

  /** The last 32 bytes of an encrypted file. */
  function Pepper(content: seq<byte>): (p: seq<byte>)
    requires |content| >= PepperLength
    ensures |p| == PepperLength
  {
    content[|content| - PepperLength..]
  }

  /** The bytes before the pepper. */
  function Body(content: seq<byte>): (b: seq<byte>)
    requires |content| >= PepperLength
    ensures b + Pepper(content) == content
  {
    content[..|content| - PepperLength]
  }

  const SeekBeforeBegin: string := "An attempt was made to move the position before the beginning of the stream."

  /** `GeneratePepper`: seek 32 bytes back from the end, read them, rewind.
      A stream shorter than that cannot seek there. */
  method GeneratePepper(source: MemStream) returns (r: Result<seq<byte>>)
    requires source.canRead && source.canSeek
    modifies source`position
    ensures |source.data| < PepperLength ==>
              r == Failure(IoError(SeekBeforeBegin)) && source.position == old(source.position)
    ensures |source.data| >= PepperLength ==> r == Success(Pepper(source.data)) && source.position == 0
  {
    if source.Length() < PepperLength {
      return Failure(IoError(SeekBeforeBegin));
    }
    source.Seek(source.Length() - PepperLength);
    var pepper := source.Read(PepperLength);
    assert pepper == Pepper(source.data);
    source.Seek(0);
    return Success(pepper);
  }

  /** `GenerateAes(key, salt, pepper)`: AES-GCM keyed with
      SHA-256(pepper ++ key ++ reversed salt). */
  function GenerateAes(f: Hashing.HashFamily, gcm: Aead, key: seq<byte>, salt: seq<byte>, pepper: seq<byte>): (c: Churner)
  {
    Churner(gcm, f.sha256.digest(pepper + key + Reverse(salt)))
  }

  /** The cipher is AES-GCM and its key is SHA-256 of pepper, key and the
      reversed salt, as `Hash(HashAlgorithm.Sha256)` computes it. */
  lemma GenerateAesKey(f: Hashing.HashFamily, gcm: Aead, key: seq<byte>, salt: seq<byte>, pepper: seq<byte>)
    ensures GenerateAes(f, gcm, key, salt, pepper).cipher == gcm
    ensures GenerateAes(f, gcm, key, salt, pepper).key == Hashing.HashBytes(f, pepper + key + Reverse(salt), Hashing.Sha256).value
  {
  }

  // -----------------------------------------------------------------------
  // Block counters

  /** `BitConverter.GetBytes(blockNumber)` padded by `CtrPad` on the side of
      the most significant bytes: the block number in 12 bytes, in the
      platform's byte order. */
  function BlockCounter(k: nat, platformLittleEndian: bool): (c: seq<byte>)
    ensures |c| == NonceLength
  {
    if platformLittleEndian then Counter.FixedLE(k, 8) + CtrPad else CtrPad + Counter.FixedBE(k, 8)
  }

  const Pow63: nat := 0x8000_0000_0000_0000

  /** The counter `Decrypt` builds for block k is the one `Encrypt` reached by
      k increments of a zeroed 12-byte counter. */
  lemma CounterCoherence(k: nat, le: bool)
    requires k < Pow63
    ensures BlockCounter(k, le) == CounterAt(k, le)
  {
    Pow256Of8And12();
    CounterAtValue(k, le);
    assert CtrPad == Zeros(4);
    if le {
      Counter.FixedLEWiden(k, 8, 4);
    } else {
      Counter.FixedBEWiden(k, 8, 4);
    }
  }

  lemma Pow256Of8And12()
    ensures Counter.Pow256(8) == 0x1_0000_0000_0000_0000
    ensures Counter.Pow256(12) > Counter.Pow256(8)
  {
    assert Counter.Pow256(4) == 0x1_0000_0000 by {
      assert Counter.Pow256(2) == 0x1_0000;
    }
    assert Counter.Pow256(8) == 256 * 256 * 256 * 256 * Counter.Pow256(4) by {
      assert Counter.Pow256(6) == 256 * 256 * Counter.Pow256(4);
    }
    assert Counter.Pow256(12) == 256 * 256 * 256 * 256 * Counter.Pow256(8) by {
      assert Counter.Pow256(10) == 256 * 256 * Counter.Pow256(8);
    }
  }

  // -----------------------------------------------------------------------
  // Encryption

  /** The salt of a plaintext: its SHA-256, scrambled. */
  function Salt(f: Hashing.HashFamily, data: seq<byte>): (salt: seq<byte>)
    requires Sha256Sized(f)
    ensures |salt| == 32
  {
    Scrambled(f.sha256.digest(data))
  }

  /** The cipher `Encrypt` uses on `data` with a given pepper. */
  function FileCipher(f: Hashing.HashFamily, gcm: Aead, key: seq<byte>, data: seq<byte>, pepper: seq<byte>): Churner
    requires Sha256Sized(f)
  {
    GenerateAes(f, gcm, key, Salt(f, data), pepper)
  }

  /** The counter-mode image of `data` cut into blocks of `bs` bytes, block j
      (0-based) under the counter j + 1. */
  function CtrImage(c: Churner, le: bool, bs: nat, data: seq<byte>): (r: seq<byte>)
    requires bs > 0
    ensures |r| == |data|
  {
    XorBytes(data, StreamKeystream(c.cipher, c.key, le, bs, |data|))
  }

  /** The tags of blocks 0 to j - 1, in block order. */
  function TagsUpTo(c: Churner, le: bool, bs: nat, data: seq<byte>, j: nat): (r: seq<byte>)
    ensures |r| == TagLength * j
  {
    if j == 0 then []
    else TagsUpTo(c, le, bs, data, j - 1) + Seal(c.cipher, c.key, CounterAt(j, le), Block(data, j - 1, bs), TagLength).tag
  }

  /** The tags `Encrypt` writes to the tag stream: one per block. A buffer
      of length 0 reads nothing, so no block is encrypted. */
  function EncryptTags(c: Churner, le: bool, bs: nat, data: seq<byte>): (r: seq<byte>)
  {
    if bs == 0 then [] else TagsUpTo(c, le, bs, data, NumBlocks(|data|, bs))
  }

  /** The contents `Encrypt` leaves: the counter-mode image followed by the
      pepper. With a buffer of length 0 the loop reads nothing and the pepper
      is written at position 0, over the front of the plaintext. */
  function EncryptedContent(c: Churner, le: bool, bs: nat, data: seq<byte>, pepper: seq<byte>): seq<byte>
  {
    if bs == 0 then WriteAt(data, 0, pepper) else CtrImage(c, le, bs, data) + pepper
  }

  /** The file system after `Encrypt` of the non-empty file at `path`: the
      file is gone and the encrypted one is at the name made from its salt. */
  function EncryptedFiles(f: Hashing.HashFamily, gcm: Aead, key: seq<byte>, files: map<string, seq<byte>>,
                          path: string, bs: nat, pepper: seq<byte>, le: bool, toLower: char -> char)
    : map<string, seq<byte>>
    requires Sha256Sized(f) && path in files
  {
    var data := files[path];
    (files - {path})[EncryptedPath(toLower, path, Salt(f, data)) := EncryptedContent(FileCipher(f, gcm, key, data, pepper), le, bs, data, pepper)]
  }

  /** The file system when `Encrypt` of the non-empty file at `path` cannot
      move it: the file is encrypted in place under its old name. */
  function EncryptedInPlace(f: Hashing.HashFamily, gcm: Aead, key: seq<byte>, files: map<string, seq<byte>>,
                            path: string, bs: nat, pepper: seq<byte>, le: bool): map<string, seq<byte>>
    requires Sha256Sized(f) && path in files
  {
    var data := files[path];
    files[path := EncryptedContent(FileCipher(f, gcm, key, data, pepper), le, bs, data, pepper)]
  }

  /** A tag stream holding `d` at position `p` after `tags` were written:
      no write, no change. */
  function WrittenTags(d: seq<byte>, p: nat, tags: seq<byte>): seq<byte>
  {
    if tags == [] then d else WriteAt(d, p, tags)
  }

  /** The loop invariant of `Encrypt` for a buffer of `bs` > 0 bytes: j
      blocks, `pos` bytes, are encrypted in place; `chunk` is the read the
      loop test just made; the counter has been incremented j times; the
      tag stream has the first j tags at its starting position. */
  ghost predicate EncryptSynced(aes: Churner, le: bool, bs: nat, source: MemStream, mac: MemStream?,
                                counter: array<byte>, srcLen: nat, chunk: seq<byte>, data: seq<byte>,
                                j: nat, pos: nat, mac0: seq<byte>, macPos0: nat)
    reads source, mac, counter
  {
    && bs > 0
    && pos <= |data| && pos == Min(j * bs, |data|) && j <= NumBlocks(|data|, bs)
    && source.data == CtrImage(aes, le, bs, data)[..pos] + data[pos..]
    && source.position == pos + |chunk|
    && (srcLen == bs || pos == |data|)
    && chunk == ReadAt(data, pos, srcLen)
    && counter[..] == CounterAt(j, le)
    && (mac != null ==> mac.data == WrittenTags(mac0, macPos0, TagsUpTo(aes, le, bs, data, j))
                        && mac.position == macPos0 + TagLength * j)
  }

  /** `Encrypt(this FileInfo fi, key, bufferLength, mac)`, with the random
      pepper as a parameter. The file is encrypted in place, the pepper
      appended, and the file moved to the name made from its salt; the tag
      of each block goes to the tag stream when there is one. A missing file
      and an empty one fail before anything is written. */
  method Encrypt(f: Hashing.HashFamily, gcm: Aead, fs: FileSystem, path: string, key: seq<byte>,
                 bufferLength: int, mac: MemStream?, pepper: seq<byte>, platformLittleEndian: bool,
                 toLower: char -> char)
    returns (outcome: Outcome)
    requires Sha256Sized(f) && |pepper| == PepperLength
    requires mac != null ==> mac.canWrite
    modifies fs`files, mac
    ensures bufferLength < 0 ==> outcome == Fail(Overflow(ArithmeticOverflow)) && fs.files == old(fs.files)
    ensures bufferLength >= 0 && path !in old(fs.files) ==> outcome == Fail(FileNotFound(path)) && fs.files == old(fs.files)
    ensures bufferLength >= 0 && path in old(fs.files) && old(fs.files[path]) == [] ==>
              outcome == Fail(ArgumentError(NotReadable)) && fs.files == old(fs.files)
    ensures (bufferLength < 0 || path !in old(fs.files) || old(fs.files[path]) == []) && mac != null ==>
              mac.data == old(mac.data) && mac.position == old(mac.position)
    ensures bufferLength >= 0 && path in old(fs.files) && old(fs.files[path]) != [] ==>
              var target := EncryptedPath(toLower, path, Salt(f, old(fs.files[path])));
              && (DirectoryName(target) in fs.directories ==>
                    && outcome == Pass
                    && fs.files == EncryptedFiles(f, gcm, key, old(fs.files), path, bufferLength, pepper,
                                                  platformLittleEndian, toLower))
              && (DirectoryName(target) !in fs.directories ==>
                    && outcome == Fail(DirectoryNotFound(target))
                    && fs.files == EncryptedInPlace(f, gcm, key, old(fs.files), path, bufferLength, pepper,
                                                    platformLittleEndian))
    ensures bufferLength >= 0 && path in old(fs.files) && old(fs.files[path]) != [] && mac != null ==>
              && mac.data == WrittenTags(old(mac.data), old(mac.position),
                                     EncryptTags(FileCipher(f, gcm, key, old(fs.files[path]), pepper),
                                                 platformLittleEndian, bufferLength, old(fs.files[path])))
              && mac.position == old(mac.position) + |EncryptTags(FileCipher(f, gcm, key, old(fs.files[path]), pepper),
                                                                  platformLittleEndian, bufferLength, old(fs.files[path]))|
  {
    if bufferLength < 0 {
      return Fail(Overflow(ArithmeticOverflow));
    }
    if path !in fs.files {
      return Fail(FileNotFound(path));
    }
    var source := new MemStream(fs.files[path], true, true, true);
    ghost var data := source.data;
    var digest := Hashing.HashStream(f, source, Hashing.Sha256);
    if digest.Failure? {
      return Fail(digest.error);
    }
    source.Seek(0);
    var name, aes := SaltAndCipher(f, gcm, key, data, digest.value, pepper);
    EncryptBlocks(aes, platformLittleEndian, bufferLength, source, mac);
    if bufferLength > 0 {
      WriteAtEnd(source.data, pepper);
    }
    assert WriteAt(source.data, source.position, pepper)
        == EncryptedContent(aes, platformLittleEndian, bufferLength, data, pepper);
    outcome := PlaceEncrypted(fs, path, source, name, pepper, toLower);
  }

  /** Lines 67 to 71 of `Encrypt`: write the pepper, close the file, and move
      it to the lower-cased name in its directory. When that directory does
      not exist, the move throws and the encrypted file keeps its old name. */
  method PlaceEncrypted(fs: FileSystem, path: string, source: MemStream, name: string, pepper: seq<byte>,
                        toLower: char -> char)
    returns (outcome: Outcome)
    requires source.canWrite && path in fs.files
    modifies fs`files, source
    ensures var target := Lower(toLower, Combine(DirectoryName(path), name + Extension(path)));
            var content := WriteAt(old(source.data), old(source.position), pepper);
            && (DirectoryName(target) in fs.directories ==>
                  outcome == Pass && fs.files == (old(fs.files) - {path})[target := content])
            && (DirectoryName(target) !in fs.directories ==>
                  outcome == Fail(DirectoryNotFound(target)) && fs.files == old(fs.files)[path := content])
  {
    var target := Lower(toLower, Combine(DirectoryName(path), name + Extension(path)));
    ghost var files := fs.files;
    source.Write(pepper);
    var content := source.data;
    fs.Store(path, content);
    assert fs.files == files[path := content];
    outcome := fs.Move(path, target);
  }

  /** Lines 42 to 50 of `Encrypt`: scramble the digest into the salt, name
      the file after it, and build the cipher. */
  method SaltAndCipher(f: Hashing.HashFamily, gcm: Aead, key: seq<byte>, ghost data: seq<byte>,
                       digest: seq<byte>, pepper: seq<byte>)
    returns (name: string, aes: Churner)
    requires Sha256Sized(f) && digest == f.sha256.digest(data)
    ensures name == Codec.ToHex(Salt(f, data))
    ensures aes == FileCipher(f, gcm, key, data, pepper)
  {
    var salt := new byte[|digest|](i requires 0 <= i < |digest| => digest[i]);
    assert salt[..] == digest;
    Scramble(salt);
    name := Codec.EncodeHex(salt[..]);
    aes := GenerateAes(f, gcm, key, salt[..], pepper);
  }

  /** The read loop of `Encrypt` on a stream at position 0: every block is
      replaced by its image and its tag written to the tag stream. */
  method EncryptBlocks(aes: Churner, platformLittleEndian: bool, bufferLength: nat, source: MemStream, mac: MemStream?)
    requires source.canRead && source.canWrite && source.canSeek && source.position == 0
    requires mac != null ==> mac != source && mac.canWrite
    modifies source, mac
    ensures bufferLength == 0 ==> source.data == old(source.data) && source.position == 0
    ensures bufferLength > 0 ==>
              source.data == CtrImage(aes, platformLittleEndian, bufferLength, old(source.data))
              && source.position == |source.data|
    ensures mac != null ==>
              && mac.data == WrittenTags(old(mac.data), old(mac.position),
                                         EncryptTags(aes, platformLittleEndian, bufferLength, old(source.data)))
              && mac.position == old(mac.position) + |EncryptTags(aes, platformLittleEndian, bufferLength, old(source.data))|
  {
    ghost var data := source.data;
    var counter := new byte[NonceLength](_ => 0);
    assert counter[..] == Zeros(NonceLength);
    var srcLen := bufferLength;
    var chunk := source.Read(srcLen);
    ghost var mac0 := if mac != null then mac.data else [];
    ghost var macPos0 := if mac != null then mac.position else 0;
    ghost var j := 0;
    ghost var pos := 0;
    while |chunk| != 0
      invariant fresh(counter)
      invariant bufferLength == 0 ==> chunk == [] && source.data == data && source.position == 0
      invariant bufferLength > 0 ==>
                  EncryptSynced(aes, platformLittleEndian, bufferLength, source, mac, counter, srcLen, chunk,
                                data, j, pos, mac0, macPos0)
      invariant mac != null ==> mac0 == old(mac.data) && macPos0 == old(mac.position)
      invariant bufferLength == 0 && mac != null ==> mac.data == mac0 && mac.position == macPos0
      decreases |data| - pos
    {
      counter, srcLen, chunk, j, pos :=
        EncryptNext(aes, platformLittleEndian, bufferLength, source, mac, counter, srcLen, chunk,
                    data, j, pos, mac0, macPos0);
    }
    if bufferLength > 0 {
      EncryptDone(aes, platformLittleEndian, bufferLength, data, j, pos, srcLen);
    }
  }

  /** When the loop test reads nothing, every block has been encrypted. */
  lemma EncryptDone(aes: Churner, le: bool, bs: nat, data: seq<byte>, j: nat, pos: nat, srcLen: nat)
    requires bs > 0 && pos <= |data| && pos == Min(j * bs, |data|) && j <= NumBlocks(|data|, bs)
    requires srcLen == bs || pos == |data|
    requires ReadAt(data, pos, srcLen) == []
    ensures pos == |data| && j == NumBlocks(|data|, bs)
  {
    NumBlocksBound(|data|, bs, j);
  }

  /** One turn of the loop of `Encrypt`: increment the counter, shrink the
      buffer on a short read, encrypt the block, write its tag, write the
      ciphertext over the block and read the next one. */
  method EncryptNext(aes: Churner, le: bool, bs: nat, source: MemStream, mac: MemStream?,
                     counter: array<byte>, srcLen: nat, chunk: seq<byte>, ghost data: seq<byte>,
                     ghost j: nat, ghost pos: nat, ghost mac0: seq<byte>, ghost macPos0: nat)
    returns (counter': array<byte>, srcLen': nat, chunk': seq<byte>, ghost j': nat, ghost pos': nat)
    requires source.canRead && source.canWrite && source.canSeek
    requires mac != null ==> mac != source && mac.canWrite
    requires EncryptSynced(aes, le, bs, source, mac, counter, srcLen, chunk, data, j, pos, mac0, macPos0)
    requires |chunk| != 0
    modifies source, mac, counter
    ensures counter' == counter || fresh(counter')
    ensures pos < pos' <= |data|
    ensures EncryptSynced(aes, le, bs, source, mac, counter', srcLen', chunk', data, j', pos', mac0, macPos0)
  {
    EncryptBlock(aes, le, bs, data, j, pos, chunk);
    ghost var image := CtrImage(aes, le, bs, data);
    counter' := EncryptChunk(aes, le, bs, source, mac, counter, chunk, image, data, j, pos, mac0, macPos0);
    srcLen' := srcLen;
    if |chunk| < bs {
      srcLen' := |chunk|;
    }
    j' := j + 1;
    pos' := pos + |chunk|;
    ghost var written := source.data;
    assert written == image[..pos'] + data[pos'..];
    SameSuffixRead(written, data, image[..pos'], pos', srcLen');
    chunk' := source.Read(srcLen');
  }

  /** A read after position p sees only what lies after p. */
  lemma SameSuffixRead(d: seq<byte>, data: seq<byte>, front: seq<byte>, p: nat, n: nat)
    requires |front| == p <= |data| && d == front + data[p..]
    ensures ReadAt(d, p, n) == ReadAt(data, p, n)
  {
    assert d[p..] == data[p..];
  }

  /** The body of the loop of `Encrypt` up to the next read: block j, just
      read at `pos`, is encrypted under counter j + 1 and overwritten in
      place by its part of `image`, and its tag is written to the tag stream. */
  method EncryptChunk(aes: Churner, le: bool, bs: nat, source: MemStream, mac: MemStream?,
                      counter: array<byte>, chunk: seq<byte>, ghost image: seq<byte>, ghost data: seq<byte>,
                      ghost j: nat, ghost pos: nat, ghost mac0: seq<byte>, ghost macPos0: nat)
    returns (counter': array<byte>)
    requires source.canWrite && source.canSeek
    requires mac != null ==> mac != source && mac.canWrite
    requires |image| == |data| && pos + |chunk| <= |data|
    requires chunk == Block(data, j, bs)
    requires Seal(aes.cipher, aes.key, CounterAt(j + 1, le), chunk, TagLength).ciphertext == image[pos..pos + |chunk|]
    requires counter[..] == CounterAt(j, le)
    requires source.data == image[..pos] + data[pos..] && source.position == pos + |chunk|
    requires mac != null ==> mac.data == WrittenTags(mac0, macPos0, TagsUpTo(aes, le, bs, data, j))
    requires mac != null ==> mac.position == macPos0 + TagLength * j
    modifies source, mac, counter
    ensures counter' == counter || fresh(counter')
    ensures counter'[..] == CounterAt(j + 1, le)
    ensures source.data == image[..pos + |chunk|] + data[pos + |chunk|..]
    ensures source.position == pos + |chunk|
    ensures mac != null ==> mac.data == WrittenTags(mac0, macPos0, TagsUpTo(aes, le, bs, data, j + 1))
    ensures mac != null ==> mac.position == macPos0 + TagLength * (j + 1)
  {
    counter' := Counter.Increment(counter, None, le);
    CounterAtNext(j, le);
    var sealed := Seal(aes.cipher, aes.key, counter'[..], chunk, TagLength);
    EmitTag(aes, le, bs, data, j, mac, sealed.tag, mac0, macPos0);
    OverwriteBlock(source, sealed.ciphertext, image, data, pos, |chunk|);
  }

  /** `mac?.Write(macBuffer)`: the tag of block j follows the tags before it. */
  method EmitTag(aes: Churner, le: bool, bs: nat, ghost data: seq<byte>, ghost j: nat, mac: MemStream?, tag: seq<byte>,
                 ghost mac0: seq<byte>, ghost macPos0: nat)
    requires mac != null ==> mac.canWrite
    requires tag == Seal(aes.cipher, aes.key, CounterAt(j + 1, le), Block(data, j, bs), TagLength).tag
    requires mac != null ==> mac.data == WrittenTags(mac0, macPos0, TagsUpTo(aes, le, bs, data, j))
    requires mac != null ==> mac.position == macPos0 + TagLength * j
    modifies mac
    ensures mac != null ==> mac.data == WrittenTags(mac0, macPos0, TagsUpTo(aes, le, bs, data, j + 1))
    ensures mac != null ==> mac.position == macPos0 + TagLength * (j + 1)
  {
    if mac == null {
      return;
    }
    ghost var prev := TagsUpTo(aes, le, bs, data, j);
    assert TagsUpTo(aes, le, bs, data, j + 1) == prev + tag;
    assert |prev| == TagLength * j;
    ghost var before := mac.data;
    mac.Write(tag);
    assert mac.data == WriteAt(before, macPos0 + |prev|, tag);
    if j > 0 {
      assert before == WriteAt(mac0, macPos0, prev);
      WriteAtAdjacent(mac0, macPos0, prev, tag);
    } else {
      assert prev + tag == tag;
    }
  }

  /** `source.Position -= readSize; source.Write(trgBuffer)`: the block just
      read is replaced by its image. */
  method OverwriteBlock(source: MemStream, block: seq<byte>, ghost image: seq<byte>, ghost data: seq<byte>,
                        ghost pos: nat, ghost n: nat)
    requires source.canWrite && source.canSeek
    requires |image| == |data| && pos + n <= |data| && |block| == n
    requires block == image[pos..pos + n]
    requires source.data == image[..pos] + data[pos..] && source.position == pos + n
    modifies source
    ensures source.data == image[..pos + n] + data[pos + n..] && source.position == pos + n
  {
    WriteInPlace(image, data, pos, block);
    source.Seek(source.position - |block|);
    source.Write(block);
  }

  /** Block j of a loop that has just read `chunk` at `pos`. */
  lemma EncryptBlock(aes: Churner, le: bool, bs: nat, data: seq<byte>, j: nat, pos: nat, chunk: seq<byte>)
    requires bs > 0 && pos == Min(j * bs, |data|)
    requires chunk == ReadAt(data, pos, bs) && chunk != []
    ensures pos == j * bs && j < NumBlocks(|data|, bs)
    ensures chunk == Block(data, j, bs)
    ensures Seal(aes.cipher, aes.key, CounterAt(j + 1, le), chunk, TagLength).ciphertext
         == CtrImage(aes, le, bs, data)[pos..pos + |chunk|]
    ensures pos + |chunk| == Min((j + 1) * bs, |data|)
  {
    assert pos == j * bs && j < NumBlocks(|data|, bs) && chunk == Block(data, j, bs)
        && pos + |chunk| == Min((j + 1) * bs, |data|) by {
      NumBlocksBound(|data|, bs, j);
      assert (j + 1) * bs == j * bs + bs;
    }
    var image := CtrImage(aes, le, bs, data);
    assert image[pos..pos + |chunk|] == Block(image, j, bs);
    BlockOfXor(aes.cipher, aes.key, le, bs, data, j);
  }

  /** Writing a block's image over it extends the encrypted prefix by that block. */
  lemma WriteInPlace(image: seq<byte>, data: seq<byte>, pos: nat, block: seq<byte>)
    requires |image| == |data| && pos + |block| <= |data|
    requires block == image[pos..pos + |block|]
    ensures WriteAt(image[..pos] + data[pos..], pos, block) == image[..pos + |block|] + data[pos + |block|..]
  {
    var lhs := WriteAt(image[..pos] + data[pos..], pos, block);
    var rhs := image[..pos + |block|] + data[pos + |block|..];
    assert |lhs| == |rhs|;
    forall i | 0 <= i < |lhs| ensures lhs[i] == rhs[i] {
      if pos <= i < pos + |block| {
        assert lhs[pos..pos + |block|][i - pos] == block[i - pos];
      }
    }
  }

  // -----------------------------------------------------------------------
  // Decryption

  /** The buffers after the cipher call of `DecryptBlock`. */
  datatype BlockOutput = BlockOutput(trgBuffer: seq<byte>, macBuffer: seq<byte>)

  /** The cipher call of `DecryptBlock` on `srcBuffer`, whose first n bytes
      are the block just read. Authenticated, it is `Decrypt` of those n bytes
      against the tag in `macBuffer` into the front of `trgBuffer`; otherwise
      it is `Encrypt` of the whole buffer, stale tail included, into
      `trgBuffer`, with the tag it computes put into `macBuffer`. */
  function DecipherBlock(aes: Churner, authenticate: bool, counter: seq<byte>, srcBuffer: seq<byte>, n: nat,
                         macBuffer: seq<byte>, trgBuffer: seq<byte>): (r: Result<BlockOutput>)
    requires n <= |srcBuffer| == |trgBuffer|
    ensures r.Success? ==> |r.value.trgBuffer| == |trgBuffer| && |r.value.macBuffer| == |macBuffer|
  {
    if authenticate then
      var plain :- Open(aes.cipher, aes.key, counter, srcBuffer[..n], macBuffer);
      assert (plain + trgBuffer[n..])[..n] == plain;
      Success(BlockOutput(plain + trgBuffer[n..], macBuffer))
    else
      var sealed := Seal(aes.cipher, aes.key, counter, srcBuffer, |macBuffer|);
      SealPrefix(aes.cipher, aes.key, counter, srcBuffer, n, |macBuffer|, TagLength);
      Success(BlockOutput(sealed.ciphertext, sealed.tag))
  }

  /** The cipher call fails only when checking, exactly when the tag buffer
      does not hold the tag of the bytes read, and then with a
      `CryptographicException`; when it succeeds, the front of the target
      buffer is the counter-mode transform of the bytes read. */
  lemma DecipherBlockSpec(aes: Churner, authenticate: bool, counter: seq<byte>, srcBuffer: seq<byte>, n: nat,
                          macBuffer: seq<byte>, trgBuffer: seq<byte>)
    requires n <= |srcBuffer| == |trgBuffer|
    ensures var r := DecipherBlock(aes, authenticate, counter, srcBuffer, n, macBuffer, trgBuffer);
            && (!authenticate ==> r.Success?)
            && (authenticate ==> (r.Success? <==> macBuffer == Tag(aes.cipher, aes.key, counter, srcBuffer[..n], |macBuffer|)))
            && (r.Failure? ==> r.error.CryptographicError?)
            && (r.Success? ==> r.value.trgBuffer[..n] == Seal(aes.cipher, aes.key, counter, srcBuffer[..n], TagLength).ciphertext)
  {
    if !authenticate {
      SealPrefix(aes.cipher, aes.key, counter, srcBuffer, n, |macBuffer|, TagLength);
    }
  }

  /** What `DecryptBlock` returns and leaves behind. */
  datatype BlockState = BlockState(read: Result<nat>, position: nat, srcBuffer: seq<byte>,
                                   macBuffer: seq<byte>, trgBuffer: seq<byte>)

  const NonNegative: string := "count"

  /** `DecryptBlock` on a source holding `data` at `position`: read up to a
      buffer of bytes, stopping at the pepper; the block number is
      1 + position / buffer length; decipher. A position inside the pepper
      makes the read count negative, an `ArgumentOutOfRangeException`. A tag
      mismatch is a `CryptographicException` that clears the plaintext span. */
  function DecryptedBlock(aes: Churner, authenticate: bool, le: bool, data: seq<byte>, position: nat,
                          srcBuffer: seq<byte>, macBuffer: seq<byte>, trgBuffer: seq<byte>): (r: BlockState)
    requires |srcBuffer| > 0 && |trgBuffer| == |srcBuffer|
    ensures position + PepperLength > |data| ==> r.read == Failure(ArgumentOutOfRange(NonNegative)) && r.position == position
    ensures r.read.Success? ==>
              r.read.value == Min(|data| - PepperLength - position, |srcBuffer|) && r.position == position + r.read.value
    ensures |r.srcBuffer| == |srcBuffer| && |r.trgBuffer| == |trgBuffer| && |r.macBuffer| == |macBuffer|
  {
    if position + PepperLength > |data| then
      BlockState(Failure(ArgumentOutOfRange(NonNegative)), position, srcBuffer, macBuffer, trgBuffer)
    else
      var n := Min(|data| - PepperLength - position, |srcBuffer|);
      DecipheredBlock(aes, authenticate, le, position, n, ReadInto(srcBuffer, data[position..position + n]),
                      macBuffer, trgBuffer)
  }

  /** The part of `DecryptBlock` after n bytes were read into `src` from
      `position`: the block's counter, the cipher call, and the buffers it
      leaves behind. */
  function DecipheredBlock(aes: Churner, authenticate: bool, le: bool, position: nat, n: nat,
                           src: seq<byte>, macBuffer: seq<byte>, trgBuffer: seq<byte>): (r: BlockState)
    requires n <= |src| == |trgBuffer| && |src| > 0
    ensures r.position == position + n && r.srcBuffer == src
    ensures r.read.Success? ==> r.read.value == n
    ensures |r.trgBuffer| == |trgBuffer| && |r.macBuffer| == |macBuffer|
  {
    var out := DecipherBlock(aes, authenticate, BlockCounter(1 + position / |src|, le), src, n, macBuffer, trgBuffer);
    if out.Failure? then
      BlockState(Failure(out.error), position + n, src, macBuffer, Zeros(n) + trgBuffer[n..])
    else
      BlockState(Success(n), position + n, src, out.value.macBuffer, out.value.trgBuffer)
  }

  /** `DecryptBlock(aes, source, authenticate, srcBuffer, macBuffer, trgBuffer)`,
      the buffers passed in and returned as values. */
  method DecryptBlock(aes: Churner, source: MemStream, authenticate: bool, srcBuffer: seq<byte>,
                      macBuffer: seq<byte>, trgBuffer: seq<byte>, platformLittleEndian: bool)
    returns (read: Result<nat>, srcBuffer': seq<byte>, macBuffer': seq<byte>, trgBuffer': seq<byte>)
    requires source.canRead
    requires |srcBuffer| > 0 && |trgBuffer| == |srcBuffer|
    modifies source`position
    ensures BlockState(read, source.position, srcBuffer', macBuffer', trgBuffer')
         == DecryptedBlock(aes, authenticate, platformLittleEndian, source.data, old(source.position),
                           srcBuffer, macBuffer, trgBuffer)
  {
    if source.position + PepperLength > source.Length() {
      return Failure(ArgumentOutOfRange(NonNegative)), srcBuffer, macBuffer, trgBuffer;
    }
    var length := source.Length() - PepperLength;
    var position := source.position;
    var maxReadSize := Min(length - position, |srcBuffer|);
    var chunk := source.Read(maxReadSize);
    assert chunk == source.data[position..position + maxReadSize];
    srcBuffer' := ReadInto(srcBuffer, chunk);
    var readSize := |chunk|;
    var block := DecipheredBlock(aes, authenticate, platformLittleEndian, position, readSize, srcBuffer', macBuffer, trgBuffer);
    assert block == DecryptedBlock(aes, authenticate, platformLittleEndian, source.data, position,
                                   srcBuffer, macBuffer, trgBuffer);
    return block.read, srcBuffer', block.macBuffer, block.trgBuffer;
  }

  /** Where the loop of `Decrypt` is: the source position, the three
      buffers, what has been written to the target, the tag stream position,
      and the exception that ended the loop, if any. */
  datatype DecryptState = DecryptState(position: nat, srcBuffer: seq<byte>, macBuffer: seq<byte>,
                                       trgBuffer: seq<byte>, output: seq<byte>, macPosition: nat,
                                       error: Option<Error>)

  ghost predicate Buffers(st: DecryptState)
  {
    |st.srcBuffer| > 0 && |st.trgBuffer| == |st.srcBuffer|
  }

  /** What a turn of the loop reads from the tag stream: a buffer of bytes, or nothing without one. */
  function TagChunk(hasMac: bool, mac: seq<byte>, st: DecryptState): (r: seq<byte>)
    ensures |r| <= |st.macBuffer|
  {
    if hasMac then ReadAt(mac, st.macPosition, |st.macBuffer|) else []
  }

  /** One turn of the loop of `Decrypt`: with a tag stream, read the next
      tag into the tag buffer; decrypt a block; write what was read. */
  function DecryptStep(aes: Churner, le: bool, hasMac: bool, data: seq<byte>, mac: seq<byte>,
                       st: DecryptState): (r: DecryptState)
    requires Buffers(st)
    ensures Buffers(r) && |r.srcBuffer| == |st.srcBuffer|
  {
    var tagChunk := TagChunk(hasMac, mac, st);
    var macBuffer := ReadInto(st.macBuffer, tagChunk);
    var b := DecryptedBlock(aes, hasMac, le, data, st.position, st.srcBuffer, macBuffer, st.trgBuffer);
    DecryptState(b.position, b.srcBuffer, b.macBuffer, b.trgBuffer,
                 if b.read.Success? then st.output + b.trgBuffer[..b.read.value] else st.output,
                 st.macPosition + |tagChunk|,
                 if b.read.Success? then None else Some(b.read.error))
  }

  /** The loop of `Decrypt` with `remaining` turns to go, ended early by an exception. */
  function DecryptRun(aes: Churner, le: bool, hasMac: bool, data: seq<byte>, mac: seq<byte>,
                      remaining: nat, st: DecryptState): (r: DecryptState)
    requires Buffers(st)
    ensures Buffers(r)
    decreases remaining, 2
  {
    if remaining == 0 then st
    else DecryptLive(aes, le, hasMac, data, mac, remaining, st)
  }

  /** With turns to go: an exception ends the loop, otherwise it goes on. */
  function DecryptLive(aes: Churner, le: bool, hasMac: bool, data: seq<byte>, mac: seq<byte>,
                       remaining: nat, st: DecryptState): (r: DecryptState)
    requires Buffers(st) && remaining > 0
    ensures Buffers(r)
    decreases remaining, 1
  {
    if st.error.Some? then st
    else DecryptRest(aes, le, hasMac, data, mac, remaining, st)
  }

  /** A turn of the loop, then the `remaining - 1` turns after it. */
  function DecryptRest(aes: Churner, le: bool, hasMac: bool, data: seq<byte>, mac: seq<byte>,
                       remaining: nat, st: DecryptState): (r: DecryptState)
    requires Buffers(st) && remaining > 0
    ensures Buffers(r)
    decreases remaining, 0
  {
    DecryptRun(aes, le, hasMac, data, mac, remaining - 1, DecryptStep(aes, le, hasMac, data, mac, st))
  }

  /** The state before the loop: zeroed buffers, nothing written. */
  function DecryptStart(bs: nat, macPosition: nat): (st: DecryptState)
    requires bs > 0
    ensures Buffers(st)
  {
    DecryptState(0, Zeros(bs), Zeros(TagLength), Zeros(bs), [], macPosition, None)
  }

  /** `Decrypt` of a file holding `content` (at least the pepper), whose name
      gave `salt`: ceil((|content| - 32) / bs) turns of the loop. */
  function Decrypted(f: Hashing.HashFamily, gcm: Aead, key: seq<byte>, salt: seq<byte>, content: seq<byte>,
                     bs: nat, le: bool, hasMac: bool, mac: seq<byte>, macPosition: nat): (r: DecryptState)
    requires bs > 0 && |content| >= PepperLength
  {
    DecryptRun(GenerateAes(f, gcm, key, salt, Pepper(content)), le, hasMac, content, mac,
               NumBlocks(|content| - PepperLength, bs), DecryptStart(bs, macPosition))
  }

  function MacData(mac: MemStream?): seq<byte>
    reads mac
  {
    if mac != null then mac.data else []
  }

  function MacPos(mac: MemStream?): nat
    reads mac
  {
    if mac != null then mac.position else 0
  }

  /** `Decrypt(this FileInfo fi, key, target, bufferLength, mac)`. The salt
      comes from the file name before anything else happens; then the target
      is emptied; then the file is opened and its pepper read. The target
      receives the output of `Decrypted` and the tag stream is read from its
      position, one tag per block. */
  method Decrypt(f: Hashing.HashFamily, gcm: Aead, fs: FileSystem, path: string, key: seq<byte>,
                 target: MemStream, bufferLength: int, mac: MemStream?, platformLittleEndian: bool)
    returns (outcome: Outcome)
    requires bufferLength != 0
    requires target.canWrite && target.canSeek
    requires mac != null ==> mac != target && mac.canRead
    modifies target, mac
    ensures mac != null ==> mac.data == old(mac.data)
    ensures bufferLength < 0 ==>
              && outcome == Fail(Overflow(ArithmeticOverflow))
              && target.data == old(target.data) && target.position == old(target.position)
              && (mac != null ==> mac.position == old(mac.position))
    ensures bufferLength > 0 && GenerateSalt(path).Failure? ==>
              && outcome == Fail(GenerateSalt(path).error)
              && target.data == old(target.data) && target.position == old(target.position)
              && (mac != null ==> mac.position == old(mac.position))
    ensures bufferLength > 0 && GenerateSalt(path).Success? && path !in fs.files ==>
              && outcome == Fail(FileNotFound(path))
              && target.data == [] && target.position == 0
              && (mac != null ==> mac.position == old(mac.position))
    ensures bufferLength > 0 && GenerateSalt(path).Success? && path in fs.files && |fs.files[path]| < PepperLength ==>
              && outcome == Fail(IoError(SeekBeforeBegin))
              && target.data == [] && target.position == 0
              && (mac != null ==> mac.position == old(mac.position))
    ensures bufferLength > 0 && GenerateSalt(path).Success? && path in fs.files && |fs.files[path]| >= PepperLength ==>
              DecryptOutcome(Decrypted(f, gcm, key, GenerateSalt(path).value, fs.files[path], bufferLength,
                                       platformLittleEndian, mac != null, old(MacData(mac)), old(MacPos(mac))),
                             outcome, target, mac)
  {
    ghost var macData := MacData(mac);
    ghost var macPos := MacPos(mac);
    if bufferLength < 0 {
      return Fail(Overflow(ArithmeticOverflow));
    }
    var salt := GenerateSalt(path);
    if salt.Failure? {
      return Fail(salt.error);
    }
    target.SetLength(0);
    assert target.data == [] && target.position == 0;
    if path !in fs.files {
      return Fail(FileNotFound(path));
    }
    var source := new MemStream(fs.files[path], true, false, true);
    var pepper := GeneratePepper(source);
    if pepper.Failure? {
      return Fail(pepper.error);
    }
    var aes := GenerateAes(f, gcm, key, salt.value, pepper.value);
    outcome := DecryptBlocks(f, gcm, key, salt.value, aes, platformLittleEndian, bufferLength, source, target, mac,
                             macData, macPos);
  }

  /** The loop of `Decrypt`, from the top of the source and an empty target. */
  method DecryptBlocks(ghost f: Hashing.HashFamily, ghost gcm: Aead, ghost key: seq<byte>, ghost salt: seq<byte>,
                       aes: Churner, le: bool, bufferLength: nat, source: MemStream, target: MemStream, mac: MemStream?,
                       ghost macData: seq<byte>, ghost macPos: nat)
    returns (outcome: Outcome)
    requires bufferLength > 0 && |source.data| >= PepperLength && source.position == 0
    requires aes == GenerateAes(f, gcm, key, salt, Pepper(source.data))
    requires source != target && (mac != null ==> mac != source && mac != target)
    requires source.canRead && target.canWrite && (mac != null ==> mac.canRead)
    requires target.data == [] && target.position == 0
    requires MacData(mac) == macData && MacPos(mac) == macPos
    modifies source`position, target, mac
    ensures mac != null ==> mac.data == old(mac.data)
    ensures DecryptOutcome(Decrypted(f, gcm, key, salt, source.data, bufferLength, le, mac != null, macData, macPos),
                           outcome, target, mac)
  {
    var macBuffer := Zeros(TagLength);
    var srcBuffer := Zeros(bufferLength);
    var trgBuffer := Zeros(bufferLength);
    var totalBlocks := NumBlocks(source.Length() - PepperLength, bufferLength);
    ghost var data := source.data;
    ghost var st := DecryptStart(bufferLength, macPos);
    ghost var final := Decrypted(f, gcm, key, salt, data, bufferLength, le, mac != null, macData, macPos);
    assert DecryptRun(aes, le, mac != null, data, macData, totalBlocks, st) == final;
    assert DecryptSynced(source, target, mac, srcBuffer, macBuffer, trgBuffer, data, macData, st);
    outcome := DecryptLoop(aes, le, totalBlocks, source, target, mac, srcBuffer, macBuffer, trgBuffer,
                           data, macData, st);
    assert DecryptOutcome(final, outcome, target, mac);
  }

  /** The `for` loop of `Decrypt`: `totalBlocks` turns of `DecryptNext`, or
      fewer when one of them throws. */
  method DecryptLoop(aes: Churner, le: bool, totalBlocks: nat, source: MemStream, target: MemStream, mac: MemStream?,
                     srcBuffer: seq<byte>, macBuffer: seq<byte>, trgBuffer: seq<byte>,
                     ghost data: seq<byte>, ghost macData: seq<byte>, ghost st: DecryptState)
    returns (outcome: Outcome)
    requires source != target && (mac != null ==> mac != source && mac != target)
    requires source.canRead && target.canWrite && (mac != null ==> mac.canRead)
    requires Buffers(st) && st.error.None?
    requires DecryptSynced(source, target, mac, srcBuffer, macBuffer, trgBuffer, data, macData, st)
    modifies source`position, target, mac
    ensures mac != null ==> mac.data == macData
    ensures DecryptOutcome(DecryptRun(aes, le, mac != null, data, macData, totalBlocks, st), outcome, target, mac)
  {
    ghost var final := DecryptRun(aes, le, mac != null, data, macData, totalBlocks, st);
    var srcBuffer, macBuffer, trgBuffer := srcBuffer, macBuffer, trgBuffer;
    ghost var st := st;
    var b := 0;
    while b < totalBlocks
      invariant b <= totalBlocks
      invariant Buffers(st) && st.error.None?
      invariant DecryptRun(aes, le, mac != null, data, macData, totalBlocks - b, st) == final
      invariant DecryptSynced(source, target, mac, srcBuffer, macBuffer, trgBuffer, data, macData, st)
      decreases totalBlocks - b
    {
      var error;
      srcBuffer, macBuffer, trgBuffer, error, st :=
        DecryptNext(aes, le, source, target, mac, srcBuffer, macBuffer, trgBuffer, data, macData, st, totalBlocks - b);
      if error.Some? {
        return Fail(error.value);
      }
      b := b + 1;
    }
    return Pass;
  }

  /** One turn taken: the run goes on from the next state, or stops there. */
  lemma RunUnfold(aes: Churner, le: bool, hasMac: bool, data: seq<byte>, mac: seq<byte>, n: nat,
                  st: DecryptState, st': DecryptState)
    requires Buffers(st) && st.error.None? && n > 0
    requires st' == DecryptStep(aes, le, hasMac, data, mac, st)
    ensures Buffers(st')
    ensures DecryptRun(aes, le, hasMac, data, mac, n, st) == DecryptRun(aes, le, hasMac, data, mac, n - 1, st')
    ensures st'.error.Some? ==> DecryptRun(aes, le, hasMac, data, mac, n - 1, st') == st'
  {
    assert DecryptRun(aes, le, hasMac, data, mac, n, st) == DecryptLive(aes, le, hasMac, data, mac, n, st);
    assert DecryptLive(aes, le, hasMac, data, mac, n, st) == DecryptRest(aes, le, hasMac, data, mac, n, st);
  }

  /** A block the cipher call deciphered: the read succeeds with what the
      call wrote into the target buffer. */
  lemma DecipheredBlockOf(aes: Churner, authenticate: bool, le: bool, position: nat, n: nat,
                          src: seq<byte>, macBuffer: seq<byte>, trgBuffer: seq<byte>, out: Result<BlockOutput>)
    requires n <= |src| == |trgBuffer| && |src| > 0
    requires out == DecipherBlock(aes, authenticate, BlockCounter(1 + position / |src|, le), src, n, macBuffer, trgBuffer)
    requires out.Success?
    ensures DecipheredBlock(aes, authenticate, le, position, n, src, macBuffer, trgBuffer).read == Success(n)
    ensures DecipheredBlock(aes, authenticate, le, position, n, src, macBuffer, trgBuffer).trgBuffer
         == out.value.trgBuffer
  {
  }

  /** A turn whose block was read: the next state, field by field. */
  lemma StepRead(aes: Churner, le: bool, hasMac: bool, data: seq<byte>, mac: seq<byte>, st: DecryptState,
                 b: BlockState)
    requires Buffers(st)
    requires b == DecryptedBlock(aes, hasMac, le, data, st.position, st.srcBuffer,
                                 ReadInto(st.macBuffer, TagChunk(hasMac, mac, st)), st.trgBuffer)
    requires b.read.Success?
    ensures DecryptStep(aes, le, hasMac, data, mac, st)
         == DecryptState(b.position, b.srcBuffer, b.macBuffer, b.trgBuffer, st.output + b.trgBuffer[..b.read.value],
                         st.macPosition + |TagChunk(hasMac, mac, st)|, None)
  {
  }

  /** A turn that throws ends the run with that turn's exception and output. */
  lemma RunStops(aes: Churner, le: bool, hasMac: bool, data: seq<byte>, mac: seq<byte>, n: nat, st: DecryptState,
                 e: Error, output: seq<byte>)
    requires Buffers(st) && st.error.None? && n > 0
    requires DecryptStep(aes, le, hasMac, data, mac, st).error == Some(e)
    requires DecryptStep(aes, le, hasMac, data, mac, st).output == output
    ensures DecryptRun(aes, le, hasMac, data, mac, n, st).error == Some(e)
    ensures DecryptRun(aes, le, hasMac, data, mac, n, st).output == output
  {
    RunUnfold(aes, le, hasMac, data, mac, n, st, DecryptStep(aes, le, hasMac, data, mac, st));
  }

  /** The target, the tag stream and the outcome after the loop ended in `st`. */
  ghost predicate DecryptOutcome(st: DecryptState, outcome: Outcome, target: MemStream, mac: MemStream?)
    reads target, mac
  {
    && target.data == st.output && target.position == |st.output|
    && outcome == (if st.error.None? then Pass else Fail(st.error.value))
    && (mac != null ==> mac.position == st.macPosition)
  }

  /** The streams and buffers of `Decrypt` agree with the state `st`. */
  ghost predicate DecryptSynced(source: MemStream, target: MemStream, mac: MemStream?, srcBuffer: seq<byte>,
                                macBuffer: seq<byte>, trgBuffer: seq<byte>, data: seq<byte>, macData: seq<byte>,
                                st: DecryptState)
    reads source, target, mac
  {
    && source.data == data && source.position == st.position
    && srcBuffer == st.srcBuffer && macBuffer == st.macBuffer && trgBuffer == st.trgBuffer
    && target.data == st.output && target.position == |st.output|
    && (mac != null ==> mac.data == macData && mac.position == st.macPosition)
  }

  /** One turn of the loop of `Decrypt`. */
  method DecryptNext(aes: Churner, le: bool, source: MemStream, target: MemStream, mac: MemStream?,
                     srcBuffer: seq<byte>, macBuffer: seq<byte>, trgBuffer: seq<byte>,
                     ghost data: seq<byte>, ghost macData: seq<byte>, ghost st: DecryptState, ghost remaining: nat)
    returns (srcBuffer': seq<byte>, macBuffer': seq<byte>, trgBuffer': seq<byte>, error: Option<Error>,
             ghost st': DecryptState)
    requires source != target && (mac != null ==> mac != source && mac != target)
    requires source.canRead && target.canWrite && (mac != null ==> mac.canRead)
    requires Buffers(st) && st.error.None? && remaining > 0
    requires DecryptSynced(source, target, mac, srcBuffer, macBuffer, trgBuffer, data, macData, st)
    modifies source`position, target, mac
    ensures Buffers(st')
    ensures DecryptRun(aes, le, mac != null, data, macData, remaining, st)
         == DecryptRun(aes, le, mac != null, data, macData, remaining - 1, st')
    ensures error.Some? ==> DecryptRun(aes, le, mac != null, data, macData, remaining - 1, st') == st'
    ensures error == st'.error
    ensures DecryptSynced(source, target, mac, srcBuffer', macBuffer', trgBuffer', data, macData, st')
  {
    macBuffer' := macBuffer;
    var tagChunk: seq<byte> := [];
    if mac != null {
      tagChunk := mac.Read(|macBuffer'|);
      macBuffer' := ReadInto(macBuffer', tagChunk);
    }
    var read;
    read, srcBuffer', macBuffer', trgBuffer' := DecryptBlock(aes, source, mac != null, srcBuffer, macBuffer', trgBuffer, le);
    st' := DecryptStep(aes, le, mac != null, data, macData, st);
    RunUnfold(aes, le, mac != null, data, macData, remaining, st, st');
    if read.Failure? {
      return srcBuffer', macBuffer', trgBuffer', Some(read.error), st';
    }
    WriteAtEnd(target.data, trgBuffer'[..read.value]);
    target.Write(trgBuffer'[..read.value]);
    error := None;
  }
}
