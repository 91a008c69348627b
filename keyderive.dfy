/** `DeriveKey` of FullStack.Crypto/StringExtensions.cs: the sources are
    hex-encoded, the hex strings sorted, and each folded into the seed by
    seed := Base64(SHA1(UTF8(hex ++ seed))); the key is SHA1(UTF8(seed)). */
module KeyDerivation {
  import opened Common
  import Codec
  import Hashing

  // -----------------------------------------------------------------------
  // Ordering of strings

  /** Ordinal lexicographic order: a prefix comes first, otherwise the first
      differing character decides. */
  predicate StringLe(a: string, b: string)
    decreases |a|
  {
    a == [] || (b != [] && (a[0] < b[0] || (a[0] == b[0] && StringLe(a[1..], b[1..]))))
  }

  lemma {:induction false} StringLeTotal(a: string, b: string)
    ensures StringLe(a, b) || StringLe(b, a)
    decreases |a|
  {
    if a != [] && b != [] && a[0] == b[0] {
      StringLeTotal(a[1..], b[1..]);
    }
  }

  lemma {:induction false} StringLeAntisymmetric(a: string, b: string)
    requires StringLe(a, b) && StringLe(b, a)
    ensures a == b
    decreases |a|
  {
    if a != [] {
      StringLeAntisymmetric(a[1..], b[1..]);
      assert a == [a[0]] + a[1..] && b == [b[0]] + b[1..];
    }
  }

  lemma {:induction false} StringLeTransitive(a: string, b: string, c: string)
    requires StringLe(a, b) && StringLe(b, c)
    ensures StringLe(a, c)
    decreases |a|
  {
    if a != [] && a[0] == b[0] && b[0] == c[0] {
      StringLeTransitive(a[1..], b[1..], c[1..]);
    }
  }

  predicate Sorted(s: seq<string>)
  {
    forall i, j :: 0 <= i < j < |s| ==> StringLe(s[i], s[j])
  }

  // -----------------------------------------------------------------------
  // Sorting, as `OrderBy(s => s)` does

  /** `x` placed before the first element it does not come after. */
  function Insert(x: string, s: seq<string>): (r: seq<string>)
    ensures multiset(r) == multiset(s) + multiset{x}
    ensures |r| == |s| + 1
  {
    if s == [] || StringLe(x, s[0]) then [x] + s
    else
      assert s == [s[0]] + s[1..];
      [s[0]] + Insert(x, s[1..])
  }

  lemma {:induction false} InsertSorted(x: string, s: seq<string>)
    requires Sorted(s)
    ensures Sorted(Insert(x, s))
  {
    if s != [] && !StringLe(x, s[0]) {
      StringLeTotal(x, s[0]);
      InsertSorted(x, s[1..]);
      var r := Insert(x, s);
      var tail := Insert(x, s[1..]);
      assert r == [s[0]] + tail;
      forall j | 0 < j < |r|
        ensures StringLe(s[0], r[j])
      {
        assert r[j] in multiset(tail);
        assert r[j] in multiset(s[1..]) + multiset{x};
        if r[j] != x {
          assert r[j] in s[1..];
          var k :| 0 <= k < |s[1..]| && s[1..][k] == r[j];
          assert s[k + 1] == r[j];
        }
      }
      forall i, j | 0 <= i < j < |r|
        ensures StringLe(r[i], r[j])
      {
        if i > 0 {
          assert r[i] == tail[i - 1] && r[j] == tail[j - 1];
        }
      }
    } else if s != [] {
      var r := Insert(x, s);
      forall i, j | 0 <= i < j < |r|
        ensures StringLe(r[i], r[j])
      {
        if i == 0 {
          if j > 1 {
            StringLeTransitive(x, s[0], s[j - 1]);
          }
        }
      }
    }
  }

  /** Insertion sort: the sorted permutation of `s`. */
  function Sort(s: seq<string>): (r: seq<string>)
    ensures multiset(r) == multiset(s)
    ensures |r| == |s|
  {
    if s == [] then []
    else
      assert s == [s[0]] + s[1..];
      Insert(s[0], Sort(s[1..]))
  }

  lemma {:induction false} SortSorted(s: seq<string>)
    ensures Sorted(Sort(s))
  {
    if s != [] {
      SortSorted(s[1..]);
      InsertSorted(s[0], Sort(s[1..]));
    }
  }

  /** A sorted sequence is determined by its elements: two sorted
      arrangements of the same strings are the same sequence. */
  lemma {:induction false} SortedUnique(a: seq<string>, b: seq<string>)
    requires Sorted(a) && Sorted(b) && multiset(a) == multiset(b)
    ensures a == b
    decreases |a|
  {
    assert |a| == |multiset(a)| == |b|;
    if a != [] {
      assert b[0] in multiset(a) && a[0] in multiset(b);
      SortedFirst(a, b[0]);
      SortedFirst(b, a[0]);
      StringLeAntisymmetric(a[0], b[0]);
      assert a == [a[0]] + a[1..] && b == [b[0]] + b[1..];
      assert multiset(a) == multiset{a[0]} + multiset(a[1..]);
      assert multiset(b) == multiset{a[0]} + multiset(b[1..]);
      MultisetCancel(a[0], multiset(a[1..]), multiset(b[1..]));
      SortedUnique(a[1..], b[1..]);
    }
  }

  /** The first element of a sorted sequence comes before all of them. */
  lemma SortedFirst(s: seq<string>, x: string)
    requires Sorted(s) && x in s
    ensures StringLe(s[0], x)
  {
    var k :| 0 <= k < |s| && s[k] == x;
    if k == 0 {
      StringLeReflexive(x);
    }
  }

  lemma MultisetCancel<T>(x: T, p: multiset<T>, q: multiset<T>)
    requires multiset{x} + p == multiset{x} + q
    ensures p == q
  {
    assert p == (multiset{x} + p) - multiset{x};
    assert q == (multiset{x} + q) - multiset{x};
  }

  lemma {:induction false} StringLeReflexive(a: string)
    ensures StringLe(a, a)
    decreases |a|
  {
    if a != [] {
      StringLeReflexive(a[1..]);
    }
  }

  // -----------------------------------------------------------------------
  // The derivation

  /** `sources.Select(k => k.AsString(ByteCodec.Hex))`. */
  function HexAll(sources: seq<seq<byte>>): (r: seq<string>)
    ensures |r| == |sources|
    ensures forall i :: 0 <= i < |sources| ==> r[i] == Codec.ToHex(sources[i])
  {
    if sources == [] then [] else [Codec.ToHex(sources[0])] + HexAll(sources[1..])
  }

  /** The hex strings in the order they are folded. Every source has one;
      duplicates are kept. */
  function HexHashes(sources: seq<seq<byte>>): (r: seq<string>)
    ensures |r| == |sources|
    ensures multiset(r) == multiset(HexAll(sources))
  {
    Sort(HexAll(sources))
  }

  /** One fold step: `$"{hexHash}{seed}".AsBytes(Utf8).Hash(Sha1).AsString(Base64)`. */
  function NextSeed(f: Hashing.HashFamily, enc: Codec.Encodings, seed: string, hexHash: string): string
  {
    enc.toBase64(f.sha1.digest(enc.getBytes(Codec.Utf8, hexHash + seed)))
  }

  /** The seed after folding in each of `hexHashes`, first to last. */
  function FoldSeed(f: Hashing.HashFamily, enc: Codec.Encodings, seed: string, hexHashes: seq<string>): string
    decreases |hexHashes|
  {
    if hexHashes == [] then seed else FoldSeed(f, enc, NextSeed(f, enc, seed, hexHashes[0]), hexHashes[1..])
  }

  /** The key `DeriveKey(seed, sources)` returns. */
  function DerivedKey(f: Hashing.HashFamily, enc: Codec.Encodings, seed: string, sources: seq<seq<byte>>): seq<byte>
  {
    f.sha1.digest(enc.getBytes(Codec.Utf8, FoldSeed(f, enc, seed, HexHashes(sources))))
  }

  /** `DeriveKey(this string seed, params byte[][] sources)`. */
  method DeriveKey(f: Hashing.HashFamily, enc: Codec.Encodings, seed: string, sources: seq<seq<byte>>)
    returns (key: seq<byte>)
    ensures key == DerivedKey(f, enc, seed, sources)
  {
    var hexHashes := HexHashes(sources);
    var current := seed;
    var i := 0;
    while i < |hexHashes|
      invariant 0 <= i <= |hexHashes|
      invariant FoldSeed(f, enc, current, hexHashes[i..]) == FoldSeed(f, enc, seed, hexHashes)
    {
      assert hexHashes[i..][1..] == hexHashes[i + 1..];
      var hashed := Hashing.HashBytes(f, enc.getBytes(Codec.Utf8, hexHashes[i] + current), Hashing.Sha1);
      current := enc.toBase64(hashed.value);
      i := i + 1;
    }
    var final := Hashing.HashBytes(f, enc.getBytes(Codec.Utf8, current), Hashing.Sha1);
    key := final.value;
  }

  /** The key does not depend on the order of the sources. */
  lemma OrderIndependent(f: Hashing.HashFamily, enc: Codec.Encodings, seed: string, a: seq<seq<byte>>, b: seq<seq<byte>>)
    requires multiset(a) == multiset(b)
    ensures DerivedKey(f, enc, seed, a) == DerivedKey(f, enc, seed, b)
  {
    HexAllMultiset(a, b);
    SortSorted(HexAll(a));
    SortSorted(HexAll(b));
    SortedUnique(HexHashes(a), HexHashes(b));
  }

  /** Hex-encoding the same sources in any order gives the same strings. */
  lemma {:induction false} HexAllMultiset(a: seq<seq<byte>>, b: seq<seq<byte>>)
    requires multiset(a) == multiset(b)
    ensures multiset(HexAll(a)) == multiset(HexAll(b))
    decreases |a|
  {
    assert |a| == |multiset(a)| == |b|;
    if a != [] {
      assert a[0] in multiset(b);
      var j :| 0 <= j < |b| && b[j] == a[0];
      var rest := RemoveAt(b, j);
      assert a == [a[0]] + a[1..];
      assert multiset(a) == multiset{a[0]} + multiset(a[1..]);
      MultisetCancel(a[0], multiset(a[1..]), multiset(rest));
      HexAllMultiset(a[1..], rest);
      assert HexAll(a) == [Codec.ToHex(a[0])] + HexAll(a[1..]);
      assert multiset(HexAll(a)) == multiset{Codec.ToHex(a[0])} + multiset(HexAll(a[1..]));
    }
  }

  /** `b` without its element at `j`, in both the sources and their hex strings. */
  lemma RemoveAt(b: seq<seq<byte>>, j: nat) returns (rest: seq<seq<byte>>)
    requires j < |b|
    ensures multiset(b) == multiset{b[j]} + multiset(rest)
    ensures multiset(HexAll(b)) == multiset{Codec.ToHex(b[j])} + multiset(HexAll(rest))
  {
    var front, back := b[..j], b[j + 1..];
    rest := front + back;
    assert b == front + ([b[j]] + back);
    MultisetMiddle(front, b[j], back);
    HexAllAppend(front, [b[j]] + back);
    HexAllAppend(front, back);
    assert HexAll([b[j]] + back) == [Codec.ToHex(b[j])] + HexAll(back);
    MultisetMiddle(HexAll(front), Codec.ToHex(b[j]), HexAll(back));
  }

  lemma MultisetMiddle<T>(front: seq<T>, x: T, back: seq<T>)
    ensures multiset(front + ([x] + back)) == multiset{x} + multiset(front + back)
  {
    calc {
      multiset(front + ([x] + back));
      multiset(front) + (multiset{x} + multiset(back));
      multiset{x} + (multiset(front) + multiset(back));
      multiset{x} + multiset(front + back);
    }
  }

  lemma {:induction false} HexAllAppend(x: seq<seq<byte>>, y: seq<seq<byte>>)
    ensures HexAll(x + y) == HexAll(x) + HexAll(y)
  {
    if x == [] {
      assert x + y == y;
    } else {
      var xy := x + y;
      assert xy[0] == x[0] && xy[1..] == x[1..] + y;
      HexAllAppend(x[1..], y);
      assert HexAll(xy) == [Codec.ToHex(x[0])] + (HexAll(x[1..]) + HexAll(y));
    }
  }

  /** With no sources the key is SHA1(UTF8(seed)). */
  lemma NoSources(f: Hashing.HashFamily, enc: Codec.Encodings, seed: string)
    ensures DerivedKey(f, enc, seed, []) == f.sha1.digest(enc.getBytes(Codec.Utf8, seed))
  {
  }

  /** A key is a SHA-1 digest: 20 bytes when the algorithm yields 20 bytes. */
  lemma KeyLength(f: Hashing.HashFamily, enc: Codec.Encodings, seed: string, sources: seq<seq<byte>>)
    requires forall m :: |f.sha1.digest(m)| == 20
    ensures |DerivedKey(f, enc, seed, sources)| == 20
  {
  }
}
