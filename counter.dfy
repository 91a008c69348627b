/** The growable nonce counter of FullStack.Crypto/ByteExtensions.cs: a byte
    array read as an unbounded unsigned integer in a chosen byte order, which
    gains one byte when every byte is at its maximum. */
module Counter {
  import opened Common

  // ---------------------------------------------------------------------
  // Reading a byte sequence as a number

  function Pow256(n: nat): (r: nat)
    ensures r >= 1
  {
    if n == 0 then 1 else 256 * Pow256(n - 1)
  }

  /** Value with the least significant byte first. */
  function ValueLE(s: seq<byte>): nat
  {
    if s == [] then 0 else s[0] + 256 * ValueLE(s[1..])
  }

  /** Value with the most significant byte first. */
  function ValueBE(s: seq<byte>): nat
  {
    if s == [] then 0 else 256 * ValueBE(s[..|s| - 1]) + s[|s| - 1]
  }

  /** Every byte is 0xFF (vacuously true of the empty counter). */
  predicate AllMax(s: seq<byte>)
  {
    forall i :: 0 <= i < |s| ==> s[i] == MaxByte
  }

  // ---------------------------------------------------------------------
  // What one increment does

  function IncrementLE(s: seq<byte>): seq<byte>
  {
    if s == [] then [1]
    else if s[0] < MaxByte then [s[0] + 1] + s[1..]
    else [0] + IncrementLE(s[1..])
  }

  function IncrementBE(s: seq<byte>): seq<byte>
  {
    if s == [] then [1]
    else if s[|s| - 1] < MaxByte then s[..|s| - 1] + [s[|s| - 1] + 1]
    else IncrementBE(s[..|s| - 1]) + [0]
  }

  /** The counter after `Increment`, for a resolved byte order. */
  function Incremented(s: seq<byte>, bigEndian: bool): seq<byte>
  {
    if bigEndian then IncrementBE(s) else IncrementLE(s)
  }

  /** `bigEndian ??= !BitConverter.IsLittleEndian`: an explicit order wins,
      otherwise the platform's order is used. */
  function ResolveBigEndian(bigEndian: Option<bool>, platformLittleEndian: bool): (be: bool)
    ensures bigEndian.Some? ==> be == bigEndian.value
    ensures bigEndian.None? ==> (be <==> !platformLittleEndian)
  {
    match bigEndian
    case Some(b) => b
    case None => !platformLittleEndian
  }

  // ---------------------------------------------------------------------
  // Properties of one increment

  /** Read in the chosen order, the value goes up by exactly one. */
  lemma {:induction false} IncrementLEValue(s: seq<byte>)
    ensures ValueLE(IncrementLE(s)) == ValueLE(s) + 1
  {
    if s != [] && s[0] == MaxByte {
      IncrementLEValue(s[1..]);
      assert IncrementLE(s)[1..] == IncrementLE(s[1..]);
    } else if s != [] {
      assert IncrementLE(s)[1..] == s[1..];
    }
  }

  lemma {:induction false} IncrementBEValue(s: seq<byte>)
    ensures ValueBE(IncrementBE(s)) == ValueBE(s) + 1
  {
    if s != [] {
      var r := IncrementBE(s);
      var init := s[..|s| - 1];
      if s[|s| - 1] == MaxByte {
        IncrementBEValue(init);
        assert r[..|r| - 1] == IncrementBE(init);
      } else {
        assert r[..|r| - 1] == init;
      }
    }
  }

  lemma IncrementValue(s: seq<byte>, bigEndian: bool)
    ensures bigEndian ==> ValueBE(Incremented(s, bigEndian)) == ValueBE(s) + 1
    ensures !bigEndian ==> ValueLE(Incremented(s, bigEndian)) == ValueLE(s) + 1
  {
    if bigEndian { IncrementBEValue(s); } else { IncrementLEValue(s); }
  }

  /** The length only changes on overflow, and then by exactly one byte: on
      overflow every old position becomes 0 and a single 1 is prepended
      (big-endian) or appended (little-endian). */
  lemma {:induction false} IncrementLEOverflow(s: seq<byte>)
    ensures AllMax(s) ==> IncrementLE(s) == Zeros(|s|) + [1]
    ensures !AllMax(s) ==> |IncrementLE(s)| == |s|
  {
    if s != [] {
      IncrementLEOverflow(s[1..]);
      if !AllMax(s) && s[0] == MaxByte {
        assert !AllMax(s[1..]) by {
          var i :| 0 <= i < |s| && s[i] != MaxByte;
          assert s[1..][i - 1] != MaxByte;
        }
      }
      if AllMax(s) {
        assert AllMax(s[1..]) by {
          forall i | 0 <= i < |s| - 1 ensures s[1..][i] == MaxByte { assert s[i + 1] == MaxByte; }
        }
        assert [0] + Zeros(|s| - 1) == Zeros(|s|);
      }
    }
  }

  lemma {:induction false} IncrementBEOverflow(s: seq<byte>)
    ensures AllMax(s) ==> IncrementBE(s) == [1] + Zeros(|s|)
    ensures !AllMax(s) ==> |IncrementBE(s)| == |s|
  {
    if s != [] {
      var init := s[..|s| - 1];
      IncrementBEOverflow(init);
      if !AllMax(s) && s[|s| - 1] == MaxByte {
        assert !AllMax(init) by {
          var i :| 0 <= i < |s| && s[i] != MaxByte;
          assert init[i] != MaxByte;
        }
      }
      if AllMax(s) {
        assert AllMax(init) by {
          forall i | 0 <= i < |init| ensures init[i] == MaxByte { assert s[i] == MaxByte; }
        }
        assert Zeros(|s| - 1) + [0] == Zeros(|s|);
      }
    }
  }

  /** Without overflow, the run of 0xFF bytes at the least significant end
      becomes 0, the next byte goes up by one, and every more significant
      byte is untouched. */
  lemma {:induction false} IncrementLEStopsAt(s: seq<byte>, k: nat)
    requires k < |s| && s[k] < MaxByte
    requires forall i :: 0 <= i < k ==> s[i] == MaxByte
    ensures IncrementLE(s) == Zeros(k) + [s[k] + 1] + s[k + 1..]
  {
    if k > 0 {
      IncrementLEStopsAt(s[1..], k - 1);
      assert s[1..][k..] == s[k + 1..];
      assert [0] + Zeros(k - 1) == Zeros(k);
    }
  }

  lemma {:induction false} IncrementBEStopsAt(s: seq<byte>, k: nat)
    requires k < |s| && s[k] < MaxByte
    requires forall i :: k < i < |s| ==> s[i] == MaxByte
    ensures IncrementBE(s) == s[..k] + [s[k] + 1] + Zeros(|s| - 1 - k)
  {
    if k < |s| - 1 {
      var init := s[..|s| - 1];
      IncrementBEStopsAt(init, k);
      assert init[..k] == s[..k];
      assert Zeros(|s| - 2 - k) + [0] == Zeros(|s| - 1 - k);
    }
  }

  /** Big-endian increment of a reversed counter is the reversal of the
      little-endian increment. */
  lemma {:induction false} IncrementMirror(s: seq<byte>)
    ensures IncrementBE(Reverse(s)) == Reverse(IncrementLE(s))
  {
    if s != [] {
      var r := Reverse(s);
      assert r[..|r| - 1] == Reverse(s[1..]);
      assert r[|r| - 1] == s[0];
      if s[0] == MaxByte {
        IncrementMirror(s[1..]);
        ReverseAppend([0], IncrementLE(s[1..]));
      } else {
        ReverseAppend([s[0] + 1], s[1..]);
      }
    }
  }

  // ---------------------------------------------------------------------
  // The in-place method

  /** Position i has already been passed by the loop, whose index is now n. */
  predicate Done(bigEndian: bool, n: int, i: int)
  {
    if bigEndian then n < i else i < n
  }

  /** `Increment(ref byte[] counter, bool? bigEndian)`. The loop walks from the
      least significant end, zeroing 0xFF bytes, and increments the first byte
      below 0xFF in place; if there is none, the reference is replaced by a new
      array one byte longer. */
  method Increment(counter: array<byte>, bigEndian: Option<bool>, platformLittleEndian: bool)
    returns (result: array<byte>)
    modifies counter
    ensures result[..] == Incremented(old(counter[..]), ResolveBigEndian(bigEndian, platformLittleEndian))
    ensures result == counter <==> !AllMax(old(counter[..]))
    ensures result != counter ==> fresh(result) && counter[..] == Zeros(counter.Length)
  {
    var be := ResolveBigEndian(bigEndian, platformLittleEndian);
    var start := if be then counter.Length - 1 else 0;
    var terminate := if be then -1 else counter.Length;
    var step := if be then -1 else 1;
    ghost var s := counter[..];
    var n := start;
    while n != terminate
      invariant be ==> -1 <= n < counter.Length
      invariant !be ==> 0 <= n <= counter.Length
      invariant forall i :: 0 <= i < |s| && Done(be, n, i) ==> s[i] == MaxByte && counter[i] == 0
      invariant forall i :: 0 <= i < |s| && !Done(be, n, i) ==> counter[i] == s[i]
      decreases if be then n + 1 else counter.Length - n
    {
      if counter[n] < MaxByte {
        counter[n] := counter[n] + 1;
        IncrementedAt(s, counter[..], be, n);
        return counter;
      } else {
        counter[n] := 0;
      }
      n := n + step;
    }
    OverflowedAll(s, counter[..], be);
    var grown := if be then [1] + counter[..] else counter[..] + [1];
    result := new byte[|grown|](i requires 0 <= i < |grown| => grown[i]);
    assert result[..] == grown;
  }

  /** The loop stops at position n: the bytes it passed were 0xFF and are now
      0, byte n went up by one and the rest are untouched. That is the
      increment. */
  lemma IncrementedAt(s: seq<byte>, c: seq<byte>, be: bool, n: int)
    requires 0 <= n < |s| == |c| && s[n] < MaxByte && c[n] == s[n] + 1
    requires forall i :: 0 <= i < |s| && Done(be, n, i) ==> s[i] == MaxByte && c[i] == 0
    requires forall i :: 0 <= i < |s| && !Done(be, n, i) && i != n ==> c[i] == s[i]
    ensures c == Incremented(s, be) && !AllMax(s)
  {
    if be {
      IncrementBEStopsAt(s, n);
    } else {
      IncrementLEStopsAt(s, n);
    }
    assert forall i :: 0 <= i < |s| ==> c[i] == Incremented(s, be)[i];
  }

  /** The loop ran to the end: every byte was 0xFF and is now 0. */
  lemma OverflowedAll(s: seq<byte>, c: seq<byte>, be: bool)
    requires |s| == |c|
    requires forall i :: 0 <= i < |s| ==> s[i] == MaxByte && c[i] == 0
    ensures AllMax(s) && c == Zeros(|s|)
    ensures Incremented(s, be) == (if be then [1] + c else c + [1])
  {
    IncrementLEOverflow(s);
    IncrementBEOverflow(s);
  }

  // ---------------------------------------------------------------------
  // Counting up from zero

  /** The counter after `k` calls of `Increment` in a fixed byte order. */
  function IncrementN(s: seq<byte>, k: nat, bigEndian: bool): seq<byte>
    decreases k, 1
  {
    if k == 0 then s else IncrementNext(s, k, bigEndian)
  }

  /** The k-th call of `Increment`, on the counter left by the k - 1 before it. */
  function IncrementNext(s: seq<byte>, k: nat, bigEndian: bool): seq<byte>
    requires k > 0
    decreases k, 0
  {
    Incremented(IncrementN(s, k - 1, bigEndian), bigEndian)
  }

  /** The `n` low-order bytes of `v`, least significant first (v mod 256^n). */
  function FixedLE(v: nat, n: nat): (r: seq<byte>)
    ensures |r| == n
  {
    if n == 0 then [] else [v % 256] + FixedLE(v / 256, n - 1)
  }

  /** The `n` low-order bytes of `v`, most significant first. */
  function FixedBE(v: nat, n: nat): (r: seq<byte>)
    ensures |r| == n
  {
    if n == 0 then [] else FixedBE(v / 256, n - 1) + [v % 256]
  }

  lemma {:induction false} FixedBEReverse(v: nat, n: nat)
    ensures FixedBE(v, n) == Reverse(FixedLE(v, n))
  {
    if n > 0 {
      FixedBEReverse(v / 256, n - 1);
      ReverseAppend([v % 256], FixedLE(v / 256, n - 1));
    }
  }

  lemma {:induction false} FixedLEZero(n: nat)
    ensures FixedLE(0, n) == Zeros(n)
  {
    if n > 0 {
      FixedLEZero(n - 1);
      assert [0] + Zeros(n - 1) == Zeros(n);
    }
  }

  /** Encoding a value that fits and reading it back gives the value. */
  lemma {:induction false} FixedLEValue(v: nat, n: nat)
    requires v < Pow256(n)
    ensures ValueLE(FixedLE(v, n)) == v
  {
    if n > 0 {
      var r := FixedLE(v, n);
      FixedLEValue(v / 256, n - 1);
      assert r[1..] == FixedLE(v / 256, n - 1);
    }
  }

  lemma {:induction false} ValueLEBound(s: seq<byte>)
    ensures ValueLE(s) < Pow256(|s|)
  {
    if s != [] {
      ValueLEBound(s[1..]);
      assert 256 * ValueLE(s[1..]) <= 256 * (Pow256(|s| - 1) - 1);
    }
  }

  /** A counter is determined by its length and its value. */
  lemma {:induction false} FixedOfValueLE(s: seq<byte>)
    ensures FixedLE(ValueLE(s), |s|) == s
  {
    if s != [] {
      FixedOfValueLE(s[1..]);
      DigitOf(s[0], ValueLE(s[1..]));
      assert FixedLE(ValueLE(s), |s|) == [s[0]] + FixedLE(ValueLE(s[1..]), |s| - 1);
      assert s == [s[0]] + s[1..];
    }
  }

  /** The low byte and the rest of `low + 256 * high`. */
  lemma DigitOf(low: byte, high: nat)
    ensures (low + 256 * high) % 256 == low && (low + 256 * high) / 256 == high
  {
  }

  /** Only the largest value of a length is all 0xFF. */
  lemma {:induction false} AllMaxValue(s: seq<byte>)
    ensures AllMax(s) ==> ValueLE(s) == Pow256(|s|) - 1
  {
    if s != [] && AllMax(s) {
      assert AllMax(s[1..]) by {
        forall i | 0 <= i < |s| - 1 ensures s[1..][i] == MaxByte { assert s[i + 1] == MaxByte; }
      }
      AllMaxValue(s[1..]);
    }
  }

  /** From zero, `k` little-endian increments give k in `n` bytes, as long as k fits. */
  lemma {:induction false} CountUpLE(k: nat, n: nat)
    requires k < Pow256(n)
    ensures IncrementN(Zeros(n), k, false) == FixedLE(k, n)
  {
    if k == 0 {
      FixedLEZero(n);
    } else {
      CountUpLE(k - 1, n);
      var prev := IncrementN(Zeros(n), k - 1, false);
      FixedLEValue(k - 1, n);
      AllMaxValue(prev);
      IncrementLEOverflow(prev);
      IncrementLEValue(prev);
      FixedOfValueLE(IncrementLE(prev));
    }
  }

  lemma {:induction false} IncrementNMirror(s: seq<byte>, k: nat)
    ensures IncrementN(Reverse(s), k, true) == Reverse(IncrementN(s, k, false))
  {
    if k > 0 {
      IncrementNMirror(s, k - 1);
      IncrementMirror(IncrementN(s, k - 1, false));
    }
  }

  lemma CountUpBE(k: nat, n: nat)
    requires k < Pow256(n)
    ensures IncrementN(Zeros(n), k, true) == FixedBE(k, n)
  {
    assert Reverse(Zeros(n)) == Zeros(n);
    IncrementNMirror(Zeros(n), k);
    CountUpLE(k, n);
    FixedBEReverse(k, n);
  }

  /** A value that fits in `m` bytes, written in `m + n` bytes, has `n` zero
      bytes at its most significant end. */
  lemma {:induction false} FixedLEWiden(v: nat, m: nat, n: nat)
    requires v < Pow256(m)
    ensures FixedLE(v, m + n) == FixedLE(v, m) + Zeros(n)
  {
    if m == 0 {
      FixedLEZero(n);
    } else {
      FixedLEWiden(v / 256, m - 1, n);
    }
  }

  lemma {:induction false} FixedBEWiden(v: nat, m: nat, n: nat)
    requires v < Pow256(m)
    ensures FixedBE(v, m + n) == Zeros(n) + FixedBE(v, m)
  {
    if m == 0 {
      FixedLEZero(n);
      FixedBEReverse(0, n);
      assert Reverse(Zeros(n)) == Zeros(n);
    } else {
      FixedBEWiden(v / 256, m - 1, n);
    }
  }
}
