/** Shared vocabulary: bytes, failure-compatible results, the .NET exception
    kinds the modelled code raises, and small sequence helpers. */
module Common {

  /** An unsigned 8-bit value, as the C# `byte`. */
  type byte = x: int | 0 <= x < 256

  const MaxByte: byte := 255

  datatype Option<+T> = None | Some(value: T)

  /** The exceptions the modelled code throws, by .NET exception type. */
  datatype Error =
    | ArgumentError(message: string)        // System.ArgumentException
    | ArgumentOutOfRange(message: string)   // System.ArgumentOutOfRangeException
    | NotSupported(message: string)         // System.NotSupportedException
    | FormatError(message: string)          // System.FormatException
    | CryptographicError(message: string)   // System.Security.Cryptography.CryptographicException
    | FileNotFound(path: string)            // System.IO.FileNotFoundException
    | IoError(message: string)              // System.IO.IOException
    | Overflow(message: string)             // System.OverflowException
    | DirectoryNotFound(path: string)       // System.IO.DirectoryNotFoundException

  /** The messages of the argument checks. */
  const NotReadable: string := "Stream not readable"
  const NotWriteable: string := "Stream not writeable"
  const NotReusable: string := "Hash algorithm not reusable"

  /** What `new byte[n]` throws for a negative n. */
  const ArithmeticOverflow: string := "Arithmetic operation resulted in an overflow."

  /** A value or the exception that was thrown instead. */
  datatype Result<+T> = Success(value: T) | Failure(error: Error) {
    predicate IsFailure() { Failure? }
    function PropagateFailure<U>(): Result<U>
      requires Failure?
    {
      Failure(error)
    }
    function Extract(): T
      requires Success?
    {
      value
    }
  }

  /** Completion of a `void` operation: normal return or a thrown exception. */
  datatype Outcome = Pass | Fail(error: Error) {
    predicate IsFailure() { Fail? }
    function PropagateFailure(): Outcome
      requires Fail?
    {
      this
    }
  }

  /** A `System.Security.Cryptography.HashAlgorithm` instance: its digest of
      a whole input, and whether its transform can be reused. */
  datatype Hasher = Hasher(digest: seq<byte> -> seq<byte>, canReuseTransform: bool)

  function Min(a: int, b: int): int { if a <= b then a else b }
  function Max(a: int, b: int): int { if a >= b then a else b }

  /** `new byte[n]`: n zero bytes. */
  function Zeros(n: nat): (r: seq<byte>)
    ensures |r| == n
    ensures forall i :: 0 <= i < n ==> r[i] == 0
  {
    seq(n, _ => 0)
  }

  lemma ZerosAppend(a: nat, b: nat)
    ensures Zeros(a) + Zeros(b) == Zeros(a + b)
  {
  }

  lemma AppendAssoc<T>(a: seq<T>, b: seq<T>, c: seq<T>)
    ensures (a + b) + c == a + (b + c)
  {
  }

  /** `Enumerable.Reverse` / `Array.Reverse` on a whole sequence. */
  function Reverse<T>(s: seq<T>): (r: seq<T>)
    ensures |r| == |s|
    ensures forall i :: 0 <= i < |s| ==> r[i] == s[|s| - 1 - i]
  {
    if s == [] then [] else Reverse(s[1..]) + [s[0]]
  }

  lemma ReverseAppend<T>(a: seq<T>, b: seq<T>)
    ensures Reverse(a + b) == Reverse(b) + Reverse(a)
  {
  }

  lemma ReverseReverse<T>(s: seq<T>)
    ensures Reverse(Reverse(s)) == s
  {
  }

  /** Exclusive or of the lowest `width` bits of `a` and `b`. */
  function XorBits(a: nat, b: nat, width: nat): (r: nat)
    ensures r < Pow2(width)
    decreases width
  {
    if width == 0 then 0 else (a % 2 + b % 2) % 2 + 2 * XorBits(a / 2, b / 2, width - 1)
  }

  function Pow2(n: nat): (r: nat)
    ensures r > 0
  {
    if n == 0 then 1 else 2 * Pow2(n - 1)
  }

  /** The C# `^` operator on two bytes: exclusive or, bit by bit. */
  function XorByte(a: byte, b: byte): byte
  {
    Pow2Byte();
    XorBits(a, b, ByteBits)
  }

  /** Bits in a byte. */
  const ByteBits: nat := 8

  lemma Pow2Byte()
    ensures Pow2(ByteBits) == 256
  {
    assert Pow2(8) == 256;
  }

  /** Exclusive or with the same key twice gives back the lowest `width` bits. */
  lemma {:induction false} XorBitsInvolution(a: nat, k: nat, width: nat)
    requires a < Pow2(width)
    ensures XorBits(XorBits(a, k, width), k, width) == a
    decreases width
  {
    if width > 0 {
      var x := XorBits(a, k, width);
      XorBitsInvolution(a / 2, k / 2, width - 1);
      BitSplit(x, (a % 2 + k % 2) % 2, XorBits(a / 2, k / 2, width - 1));
      BitTwice(a % 2, k % 2);
      assert XorBits(x, k, width) == (a % 2) + 2 * (a / 2);
    }
  }

  /** The lowest bit and the rest of a number written as bit + 2 * rest. */
  lemma BitSplit(x: nat, bit: nat, rest: nat)
    requires bit < 2 && x == bit + 2 * rest
    ensures x % 2 == bit && x / 2 == rest
  {
  }

  /** One bit exclusive-or'ed with the same bit twice. */
  lemma BitTwice(p: nat, q: nat)
    requires p < 2 && q < 2
    ensures ((p + q) % 2 + q) % 2 == p
  {
  }

  lemma XorByteInvolution(a: byte, k: byte)
    ensures XorByte(XorByte(a, k), k) == a
  {
    Pow2Byte();
    XorBitsInvolution(a, k, ByteBits);
  }

  // -----------------------------------------------------------------------
  // Whole blocks

  lemma MulLe(a: nat, b: nat, c: nat)
    requires a <= b
    ensures a * c <= b * c
  {
  }

  /** Number of blocks of `bs` bytes needed for `n` bytes: the ceiling of n / bs. */
  function NumBlocks(n: nat, bs: nat): nat
    requires bs > 0
  {
    (n + bs - 1) / bs
  }

  lemma DivLe(x: nat, b: nat, q: nat)
    requires b > 0
    ensures q <= x / b <==> q * b <= x
  {
    var d := x / b;
    assert d * b <= x < d * b + b;
    if q <= d {
      MulLe(q, d, b);
    } else {
      MulLe(d + 1, q, b);
    }
  }

  /** Block j exists exactly when it starts before the end. */
  lemma NumBlocksBound(n: nat, bs: nat, j: nat)
    requires bs > 0
    ensures j < NumBlocks(n, bs) <==> j * bs < n
  {
    DivLe(n + bs - 1, bs, j + 1);
  }

  /** The blocks end at the end of the data. */
  lemma NumBlocksCover(n: nat, bs: nat)
    requires bs > 0
    ensures n <= NumBlocks(n, bs) * bs
    ensures NumBlocks(n, bs) == 0 <==> n == 0
  {
    var nb := NumBlocks(n, bs);
    NumBlocksBound(n, bs, nb);
    if n > 0 {
      NumBlocksBound(n, bs, 0);
    }
  }

  // -----------------------------------------------------------------------
  // Decimal text, as `$"{n}"` formats an integer (and an undefined enum value)

  function DigitChar(d: nat): (c: char)
    requires d < 10
    ensures '0' <= c <= '9' && c as int - '0' as int == d
  {
    ('0' as int + d) as char
  }

  /** The decimal digits of n, most significant first, without leading zeros. */
  function DecimalText(n: nat): (s: string)
    ensures |s| >= 1 && (|s| == 1 || s[0] != '0')
    ensures forall i :: 0 <= i < |s| ==> '0' <= s[i] <= '9'
  {
    if n < 10 then [DigitChar(n)] else DecimalText(n / 10) + [DigitChar(n % 10)]
  }

  /** The number a string of decimal digits denotes. */
  function DecimalValue(s: string): nat
    requires forall i :: 0 <= i < |s| ==> '0' <= s[i] <= '9'
  {
    if s == [] then 0 else DecimalValue(s[..|s| - 1]) * 10 + (s[|s| - 1] as int - '0' as int)
  }

  /** The decimal text of n denotes n. */
  lemma {:induction false} DecimalRoundTrip(n: nat)
    ensures DecimalValue(DecimalText(n)) == n
  {
    if n >= 10 {
      DecimalRoundTrip(n / 10);
      var s := DecimalText(n);
      assert s[..|s| - 1] == DecimalText(n / 10);
    }
  }

  /** An `int` as text, with a leading '-' when negative. */
  function IntText(i: int): (s: string)
    ensures i < 0 ==> s == "-" + DecimalText(-i)
    ensures i >= 0 ==> s == DecimalText(i)
  {
    if i < 0 then "-" + DecimalText(-i) else DecimalText(i)
  }
}
