/** The byte codecs of FullStack.Text.Extensions/Codec/CodecExtensions.cs.
    Hex is modelled in full: lower-case base16 in the manner of section 8 of
    RFC 4648, two digits per byte. Base64 and the character encodings are
    library calls and are parameters here. */
module Codec {
  import opened Common

  // -----------------------------------------------------------------------
  // Hex digits

  /** The digit `b.ToString("x2")` writes for a nibble. */
  function HexDigit(v: nat): (c: char)
    requires v < 16
    ensures IsHexDigit(c) && HexValue(c) == v
    ensures !('A' <= c <= 'Z')
  {
    if v < 10 then ('0' as int + v) as char else ('a' as int + v - 10) as char
  }

  /** The characters `Convert.ToByte(s, 16)` reads as base-16 digits. */
  predicate IsHexDigit(c: char)
  {
    ('0' <= c <= '9') || ('a' <= c <= 'f') || ('A' <= c <= 'F')
  }

  function HexValue(c: char): (v: nat)
    requires IsHexDigit(c)
    ensures v < 16
  {
    if '0' <= c <= '9' then c as int - '0' as int
    else if 'a' <= c <= 'f' then c as int - 'a' as int + 10
    else c as int - 'A' as int + 10
  }

  // -----------------------------------------------------------------------
  // Encoding: byte[] -> string

  /** `b.ToString("x2")`: high nibble, then low nibble. */
  function ByteHex(b: byte): (s: string)
    ensures |s| == 2
  {
    [HexDigit(b / 16), HexDigit(b % 16)]
  }

  /** The hex text of a byte sequence: the two digits of each byte, in order. */
  function ToHex(bytes: seq<byte>): (s: string)
    ensures |s| == 2 * |bytes|
  {
    if bytes == [] then "" else ToHex(bytes[..|bytes| - 1]) + ByteHex(bytes[|bytes| - 1])
  }

  /** Characters 2i and 2i+1 of the hex text are the digits of byte i, and
      no character is an upper-case letter. */
  lemma {:induction false} ToHexAt(bytes: seq<byte>, i: nat)
    requires i < |bytes|
    ensures ToHex(bytes)[2 * i] == HexDigit(bytes[i] / 16)
    ensures ToHex(bytes)[2 * i + 1] == HexDigit(bytes[i] % 16)
  {
    var init := bytes[..|bytes| - 1];
    if i < |bytes| - 1 {
      ToHexAt(init, i);
      assert ToHex(bytes)[..2 * |init|] == ToHex(init);
    }
  }

  /** Hex text is lower case: it holds no upper-case letter. */
  lemma ToHexNoUpper(bytes: seq<byte>)
    ensures forall k :: 0 <= k < |ToHex(bytes)| ==> !('A' <= ToHex(bytes)[k] <= 'Z')
  {
    forall k | 0 <= k < |ToHex(bytes)| ensures !('A' <= ToHex(bytes)[k] <= 'Z') {
      ToHexAt(bytes, k / 2);
    }
  }

  /** The hex branch of `ToStringFunc`: a `StringBuilder` gets the two digits
      of each byte in turn. */
  method EncodeHex(bytes: seq<byte>) returns (s: string)
    ensures s == ToHex(bytes)
    ensures |s| == 2 * |bytes|
  {
    var sb := "";
    var i := 0;
    while i < |bytes|
      invariant 0 <= i <= |bytes|
      invariant sb == ToHex(bytes[..i])
    {
      assert bytes[..i + 1][..i] == bytes[..i];
      sb := sb + ByteHex(bytes[i]);
      i := i + 1;
    }
    assert bytes[..i] == bytes;
    return sb;
  }

  // -----------------------------------------------------------------------
  // Decoding: string -> byte[]

  const MinusSign: string := "String cannot contain a minus sign if the base is not 10."
  const NoDigits: string := "Could not find any recognizable digits."
  const TrailingCharacters: string := "Additional non-parsable characters are at the end of the string."

  /** `Convert.ToByte(pair, 16)` on a two-character string. An optional '+'
      sign and a "0x" prefix are recognised, a '-' sign is refused with an
      `ArgumentException`, and anything that does not leave a complete
      base-16 number is a `FormatException`. */
  function ParsePair(c0: char, c1: char): (r: Result<byte>)
    ensures IsHexDigit(c0) && IsHexDigit(c1) && !(c0 == '0' && (c1 == 'x' || c1 == 'X')) ==>
              r == Success(16 * HexValue(c0) + HexValue(c1))
    ensures r.Failure? ==> r.error.ArgumentError? || r.error.FormatError?
  {
    if c0 == '-' then
      Failure(ArgumentError(MinusSign))
    else if c0 == '+' then
      if IsHexDigit(c1) then Success(HexValue(c1) as byte) else Failure(FormatError(NoDigits))
    else if c0 == '0' && (c1 == 'x' || c1 == 'X') then
      Failure(FormatError(NoDigits))
    else if !IsHexDigit(c0) then
      Failure(FormatError(NoDigits))
    else if !IsHexDigit(c1) then
      Failure(FormatError(TrailingCharacters))
    else
      Success((16 * HexValue(c0) + HexValue(c1)) as byte)
  }

  /** The bytes of the first `n` pairs of `s`, or the first pair's error. */
  function FromHexPairs(s: string, n: nat): (r: Result<seq<byte>>)
    requires 2 * n <= |s|
    ensures r.Success? ==> |r.value| == n
  {
    if n == 0 then Success([])
    else
      var init :- FromHexPairs(s, n - 1);
      var b :- ParsePair(s[2 * n - 2], s[2 * n - 1]);
      Success(init + [b])
  }

  /** The hex branch of `ToBytesFunc`: floor(|s| / 2) pairs; an odd last
      character is never looked at. */
  function FromHex(s: string): Result<seq<byte>>
  {
    FromHexPairs(s, |s| / 2)
  }

  /** A decoded text has one byte per pair, each the value of its pair. */
  lemma {:induction false} FromHexPairsAt(s: string, n: nat, i: nat)
    requires 2 * n <= |s| && i < n && FromHexPairs(s, n).Success?
    ensures ParsePair(s[2 * i], s[2 * i + 1]) == Success(FromHexPairs(s, n).value[i])
  {
    if i < n - 1 {
      FromHexPairsAt(s, n - 1, i);
    }
  }

  /** Decoding succeeds exactly when every pair parses. */
  lemma {:induction false} FromHexPairsSuccess(s: string, n: nat)
    requires 2 * n <= |s|
    ensures FromHexPairs(s, n).Success? <==> forall i :: 0 <= i < n ==> ParsePair(s[2 * i], s[2 * i + 1]).Success?
  {
    if n > 0 {
      FromHexPairsSuccess(s, n - 1);
      assert FromHexPairs(s, n).Success? <==>
             FromHexPairs(s, n - 1).Success? && ParsePair(s[2 * (n - 1)], s[2 * (n - 1) + 1]).Success?;
    }
  }

  /** A pair that does not parse, after pairs that do, is the error of every
      longer decode. */
  lemma {:induction false} FromHexPairsFailure(s: string, i: nat, m: nat)
    requires i < m && 2 * m <= |s|
    requires FromHexPairs(s, i).Success? && ParsePair(s[2 * i], s[2 * i + 1]).Failure?
    ensures FromHexPairs(s, m) == Failure(ParsePair(s[2 * i], s[2 * i + 1]).error)
  {
    if m > i + 1 {
      FromHexPairsFailure(s, i, m - 1);
    }
  }

  /** The two digits of a byte parse back to it. */
  lemma ParseByteHex(b: byte)
    ensures ParsePair(ByteHex(b)[0], ByteHex(b)[1]) == Success(b)
  {
    assert 16 * (b / 16) + b % 16 == b;
  }

  /** Round trip: decoding the hex text of any bytes gives them back. */
  lemma {:induction false} FromHexToHex(bytes: seq<byte>)
    ensures FromHex(ToHex(bytes)) == Success(bytes)
  {
    if bytes != [] {
      var init := bytes[..|bytes| - 1];
      var b := bytes[|bytes| - 1];
      var s := ToHex(bytes);
      assert s == ToHex(init) + ByteHex(b);
      FromHexToHex(init);
      PrefixPairs(ToHex(init), ByteHex(b), |init|);
      assert FromHexPairs(s, |init|) == Success(init);
      assert s[2 * |init|] == ByteHex(b)[0] && s[2 * |init| + 1] == ByteHex(b)[1];
      ParseByteHex(b);
      assert FromHexPairs(s, |bytes|) == Success(init + [b]);
      assert init + [b] == bytes;
    }
  }

  /** Appending text after the first n pairs does not change them. */
  lemma {:induction false} PrefixPairs(s: string, t: string, n: nat)
    requires 2 * n <= |s|
    ensures FromHexPairs(s + t, n) == FromHexPairs(s, n)
  {
    if n > 0 {
      PrefixPairs(s, t, n - 1);
      assert (s + t)[2 * n - 2] == s[2 * n - 2] && (s + t)[2 * n - 1] == s[2 * n - 1];
    }
  }

  /** An odd trailing character is ignored. */
  lemma OddCharacterIgnored(s: string, c: char)
    requires |s| % 2 == 0
    ensures FromHex(s + [c]) == FromHex(s)
  {
    PrefixPairs(s, [c], |s| / 2);
  }

  /** The loop of the hex branch of `ToBytesFunc`: `new byte[str.Length / 2]`
      filled pair by pair with `Convert.ToByte(str.Substring(i * 2, 2), 16)`. */
  method DecodeHex(str: string) returns (r: Result<seq<byte>>)
    ensures r == FromHex(str)
    ensures r.Success? ==> |r.value| == |str| / 2
  {
    var n := |str| / 2;
    var bytes := new byte[n];
    var i := 0;
    while i < n
      invariant 0 <= i <= n && 2 * n <= |str|
      invariant FromHexPairs(str, i).Success? && bytes[..i] == FromHexPairs(str, i).value
    {
      var b := ParsePair(str[i * 2], str[i * 2 + 1]);
      if b.Failure? {
        FromHexPairsFailure(str, i, n);
        return Failure(b.error);
      }
      NextPair(str, i);
      bytes[i] := b.value;
      assert bytes[..i + 1] == bytes[..i] + [b.value];
      i := i + 1;
    }
    assert bytes[..] == bytes[..i];
    return Success(bytes[..]);
  }

  /** One more pair that parses extends a successful decode by its byte. */
  lemma NextPair(s: string, i: nat)
    requires 2 * i + 2 <= |s| && FromHexPairs(s, i).Success?
    requires ParsePair(s[2 * i], s[2 * i + 1]).Success?
    ensures FromHexPairs(s, i + 1) == Success(FromHexPairs(s, i).value + [ParsePair(s[2 * i], s[2 * i + 1]).value])
  {
  }

  // -----------------------------------------------------------------------
  // Dispatch

  /** `ByteCodec` values; any other number is an undefined enum value. */
  type ByteCodec = int
  const Base64: ByteCodec := 0
  const Hex: ByteCodec := 1

  /** `CharCodec` values. */
  type CharCodec = int
  const Ascii: CharCodec := 0
  const Unicode: CharCodec := 1
  const Utf8: CharCodec := 2

  /** The library conversions the codec dispatches to. */
  datatype Encodings = Encodings(
    fromBase64: string -> Result<seq<byte>>,
    toBase64: seq<byte> -> string,
    getBytes: (CharCodec, string) -> seq<byte>,
    getString: (CharCodec, seq<byte>) -> string)

  /** `AsBytes(this string, ByteCodec)`. */
  function AsBytes(enc: Encodings, input: string, codec: ByteCodec): (r: Result<seq<byte>>)
    ensures codec == Hex ==> r == FromHex(input)
    ensures codec == Base64 ==> r == enc.fromBase64(input)
    ensures codec != Hex && codec != Base64 ==> r == Failure(NotSupported(IntText(codec) + " -> bytes unsupported"))
  {
    if codec == Base64 then enc.fromBase64(input)
    else if codec == Hex then FromHex(input)
    else Failure(NotSupported(IntText(codec) + " -> bytes unsupported"))
  }

  /** `AsString(this byte[], ByteCodec)`. */
  function AsString(enc: Encodings, input: seq<byte>, codec: ByteCodec): (r: Result<string>)
    ensures codec == Hex ==> r == Success(ToHex(input))
    ensures codec == Base64 ==> r == Success(enc.toBase64(input))
    ensures codec != Hex && codec != Base64 ==> r == Failure(NotSupported(IntText(codec) + " -> string unsupported"))
  {
    if codec == Base64 then Success(enc.toBase64(input))
    else if codec == Hex then Success(ToHex(input))
    else Failure(NotSupported(IntText(codec) + " -> string unsupported"))
  }

  /** `AsBytes(this string, CharCodec)`: ASCII, UTF-16 or UTF-8. */
  function CharBytes(enc: Encodings, input: string, codec: CharCodec): (r: Result<seq<byte>>)
    ensures r.Success? <==> codec in {Ascii, Unicode, Utf8}
    ensures r.Success? ==> r.value == enc.getBytes(codec, input)
    ensures r.Failure? ==> r.error == NotSupported(IntText(codec) + " unsupported")
  {
    if codec in {Ascii, Unicode, Utf8} then Success(enc.getBytes(codec, input))
    else Failure(NotSupported(IntText(codec) + " unsupported"))
  }

  /** `AsString(this byte[], CharCodec)`. */
  function CharString(enc: Encodings, input: seq<byte>, codec: CharCodec): (r: Result<string>)
    ensures r.Success? <==> codec in {Ascii, Unicode, Utf8}
    ensures r.Success? ==> r.value == enc.getString(codec, input)
    ensures r.Failure? ==> r.error == NotSupported(IntText(codec) + " unsupported")
  {
    if codec in {Ascii, Unicode, Utf8} then Success(enc.getString(codec, input))
    else Failure(NotSupported(IntText(codec) + " unsupported"))
  }

  /** Hex text through either dispatch decodes to what was encoded. */
  lemma HexRoundTrip(enc: Encodings, bytes: seq<byte>)
    ensures AsString(enc, bytes, Hex).Success?
    ensures AsBytes(enc, AsString(enc, bytes, Hex).value, Hex) == Success(bytes)
  {
    FromHexToHex(bytes);
  }
}
