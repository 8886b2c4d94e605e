/** The GRid codec of SportsDataIO.GRidConversion.Base62: a GUID becomes
    `tag + "_" + 22 base-62 digits`, and such a string is parsed back.

    A GUID is its 16 bytes as .NET's Guid.ToByteArray returns them: the first
    three fields (4, 2 and 2 bytes) are little-endian on every host, the other
    eight bytes are in network order. `littleEndian` stands for
    BitConverter.IsLittleEndian, which decides whether the code swaps those
    fields. EncodeFixed and DecodeFixed swap them on every host. */
module Base62 {
  import opened Arithmetic
  import opened Bytes
  import opened Text
  import opened Numerals

  /** Base62.SEPARATOR */
  const Separator: char := '_'

  /** Digits in every encoded body. */
  const Width: nat := 22

  const GuidSize: nat := 16

  type Guid = s: seq<byte> | |s| == GuidSize witness Zeros(GuidSize)

  /** Guid.Empty, the all-zero GUID. */
  const EmptyGuid: Guid := Zeros(GuidSize)

  datatype FormatError = InvalidCharacter(c: char)

  datatype Result<T> = Success(value: T) | Failure(error: FormatError)

  // ---------------------------------------------------------------------
  // Byte order

  /** The three in-place reversals of bytes 0..3, 4..5 and 6..7. */
  function FieldSwap(g: Guid): (r: Guid)
  {
    ReverseSegment(ReverseSegment(ReverseSegment(g, 0, 4), 4, 2), 6, 2)
  }

  /** The swap reverses each of the three leading fields and leaves the
      trailing eight bytes alone. */
  lemma FieldSwapBytes(g: Guid)
    ensures FieldSwap(g) == [g[3], g[2], g[1], g[0], g[5], g[4], g[7], g[6]] + g[8..]
  {
    var a := ReverseSegment(g, 0, 4);
    var b := ReverseSegment(a, 4, 2);
    var e := [g[3], g[2], g[1], g[0], g[5], g[4], g[7], g[6]] + g[8..];
    forall i | 0 <= i < GuidSize
      ensures FieldSwap(g)[i] == e[i]
    {
      ReverseSegmentAt(g, 0, 4, i);
      ReverseSegmentAt(a, 4, 2, i);
      ReverseSegmentAt(b, 6, 2, i);
    }
  }

  lemma FieldSwapInvolution(g: Guid)
    ensures FieldSwap(FieldSwap(g)) == g
  {
    FieldSwapBytes(g);
    FieldSwapBytes(FieldSwap(g));
  }

  /** RFC 4122 network byte order of a GUID given in .NET layout (section
      4.1.2 of RFC 4122); decoding applies the same swap to undo it. */
  function NetworkOrder(g: Guid, littleEndian: bool): (r: Guid)
  {
    if littleEndian then FieldSwap(g) else g
  }

  lemma NetworkOrderInvolution(g: Guid, littleEndian: bool)
    ensures NetworkOrder(NetworkOrder(g, littleEndian), littleEndian) == g
  {
    if littleEndian {
      FieldSwapInvolution(g);
    }
  }

  // ---------------------------------------------------------------------
  // The number a GUID stands for

  /** N: the GUID's network-order bytes read most significant first. */
  function GuidValue(g: Guid, littleEndian: bool): (n: nat)
    ensures n < Pow(256, GuidSize)
  {
    var network := NetworkOrder(g, littleEndian);
    LeNatOfReverse(network);
    LeNatBound(Reverse(network));
    BeNat(network)
  }

  /** The GUID whose network-order bytes are the low 16 bytes of n. */
  function GuidOfValue(n: nat, littleEndian: bool): (g: Guid)
  {
    NetworkOrder(Reverse(LeBytes(n, GuidSize)), littleEndian)
  }

  /** Decoding a number keeps it modulo 2^128. */
  lemma GuidValueOfGuidOfValue(n: nat, littleEndian: bool)
    ensures GuidValue(GuidOfValue(n, littleEndian), littleEndian) == n % Pow(256, GuidSize)
  {
    var network := Reverse(LeBytes(n, GuidSize));
    NetworkOrderInvolution(network, littleEndian);
    LeNatOfReverse(network);
    ReverseReverse(LeBytes(n, GuidSize));
    LeNatOfLeBytes(n, GuidSize);
  }

  /** Reading a GUID as a number loses nothing. */
  lemma GuidOfValueOfGuid(g: Guid, littleEndian: bool)
    ensures GuidOfValue(GuidValue(g, littleEndian), littleEndian) == g
  {
    var network := NetworkOrder(g, littleEndian);
    LeNatOfReverse(network);
    LeBytesOfLeNat(Reverse(network));
    ReverseReverse(network);
    NetworkOrderInvolution(g, littleEndian);
  }

  // ---------------------------------------------------------------------
  // Specification of Encode and Decode

  /** What Encode returns: the tag, the separator, and the 22-digit base-62
      numeral of N. */
  function Grid(g: Guid, tag: string, littleEndian: bool): (r: string)
    ensures |r| == |tag| + 1 + Width
    ensures r[..|tag|] == tag && r[|tag|] == Separator
    ensures AllDigits(r[|tag| + 1..])
  {
    var body := Numeral(GuidValue(g, littleEndian), Width);
    assert (tag + [Separator] + body)[|tag| + 1..] == body;
    tag + [Separator] + body
  }

  /** The text after the last separator, or the whole input without one. */
  function IdPart(input: string): (body: string)
    ensures Separator !in body
    ensures |body| <= |input| && input[|input| - |body|..] == body
    ensures Separator in input ==> input[|input| - |body| - 1] == Separator
    ensures Separator !in input ==> body == input
  {
    var separatorIndex := LastIndexOf(input, Separator);
    if separatorIndex > -1 then input[separatorIndex + 1..] else input
  }

  /** Position of the first character outside the alphabet. */
  function FirstInvalid(s: string): (i: nat)
    requires !AllDigits(s)
    ensures i < |s| && !IsDigit(s[i]) && AllDigits(s[..i])
  {
    if !IsDigit(s[0]) then 0
    else
      var k := FirstInvalid(s[1..]);
      assert s[..k + 1] == [s[0]] + s[1..][..k];
      k + 1
  }

  /** What Decode returns: the first character of the body that is not a
      digit is reported; otherwise the body's value, kept modulo 2^128, is
      turned back into a GUID. An empty body has value 0. */
  function Parse(input: string, littleEndian: bool): (r: Result<Guid>)
    ensures r.Success? <==> AllDigits(IdPart(input))
    ensures r.Failure? ==> r.error.c in IdPart(input) && !IsDigit(r.error.c)
  {
    var body := IdPart(input);
    if AllDigits(body) then Success(GuidOfValue(Value(body), littleEndian))
    else Failure(InvalidCharacter(body[FirstInvalid(body)]))
  }

  // ---------------------------------------------------------------------
  // The code

  /** The three Array.Reverse calls on the leading fields. */
  method SwapFields(bytes: array<byte>)
    requires bytes.Length == GuidSize
    modifies bytes
    ensures bytes[..] == FieldSwap(old(bytes[..]))
  {
    ReverseRange(bytes, 0, 4);
    ReverseRange(bytes, 4, 2);
    ReverseRange(bytes, 6, 2);
  }

  /** Base62.Encode(gruuid, typeIdentifier) */
  method Encode(guid: Guid, typeIdentifier: string, littleEndian: bool) returns (grid: string)
    ensures grid == Grid(guid, typeIdentifier, littleEndian)
  {
    var number := NumberOf(guid, littleEndian);
    var digits := Digits(number);
    grid := typeIdentifier + [Separator] + digits;
  }

  /** The loop of Base62.Encode: 22 DivRem steps by 62, filling a character
      buffer from its end. */
  method Digits(number: nat) returns (digits: string)
    ensures digits == Numeral(number, Width)
  {
    var n: nat := number;
    var buffer := new char[Width];
    for i := Width downto 0
      invariant Numeral(number, Width) == Numeral(n, i) + buffer[i..]
    {
      // BigInteger.DivRem truncates, which agrees with Euclidean division here
      var remainder := n % Radix;
      ghost var written := buffer[i + 1..];
      assert Numeral(n, i + 1) == Numeral(n / Radix, i) + [Alphabet[remainder]];
      n := n / Radix;
      buffer[i] := Alphabet[remainder];
      assert buffer[i..] == [Alphabet[remainder]] + written;
      assert Numeral(n, i) + buffer[i..] == (Numeral(n, i) + [Alphabet[remainder]]) + written;
    }
    assert buffer[0..] == buffer[..];
    digits := buffer[..];
  }

  /** Encode with the field swap made unconditional: on every host it does
      what Encode does on a little-endian host. */
  method EncodeFixed(guid: Guid, typeIdentifier: string) returns (grid: string)
    ensures grid == Grid(guid, typeIdentifier, true)
  {
    var number := NumberOf(guid, true);
    var digits := Digits(number);
    grid := typeIdentifier + [Separator] + digits;
  }

  /** The first half of Base62.Encode: the GUID's bytes, the field swap,
      the full reversal and the 17-byte positive BigInteger. */
  method NumberOf(guid: Guid, littleEndian: bool) returns (number: nat)
    ensures number == GuidValue(guid, littleEndian)
  {
    var bytes := new byte[GuidSize](i requires 0 <= i < GuidSize => guid[i]);
    assert bytes[..] == guid;
    if littleEndian {
      SwapFields(bytes);
    }
    ghost var network := NetworkOrder(guid, littleEndian);
    ReverseRange(bytes, 0, GuidSize);
    ReverseWhole(network);
    // a zero top byte makes the BigInteger non-negative
    var positiveBytes := new byte[GuidSize + 1](_ => 0);
    Copy(bytes, positiveBytes, GuidSize);
    assert positiveBytes[..] == Reverse(network) + [0];
    LeNatZeroExtend(Reverse(network));
    LeNatOfReverse(network);
    number := LeNat(positiveBytes[..]);
  }

  /** Base62.Decode(input); the FormatException becomes a Failure. */
  method Decode(input: string, littleEndian: bool) returns (result: Result<Guid>)
    ensures result == Parse(input, littleEndian)
  {
    var separatorIndex := LastIndexOf(input, Separator);
    var idPart := if separatorIndex > -1 then input[separatorIndex + 1..] else input;
    assert idPart == IdPart(input);
    var number: nat := 0;
    for k := 0 to |idPart|
      invariant AllDigits(idPart[..k]) && number == Value(idPart[..k])
    {
      var c := idPart[k];
      var val := IndexOf(Alphabet, c);
      IndexOfAlphabet(c);
      if val == -1 {
        FirstInvalidAt(idPart, k);
        return Failure(InvalidCharacter(c));
      }
      ValuePrefixStep(idPart, k);
      number := number * Radix + val;
    }
    assert idPart[..|idPart|] == idPart;
    var guid := GuidFromNumber(number, littleEndian);
    result := Success(guid);
  }

  /** Decode with the field swap restored on every host. */
  method DecodeFixed(input: string) returns (result: Result<Guid>)
    ensures result == Parse(input, true)
  {
    result := Decode(input, true);
  }

  /** The rest of Base62.Decode: ToByteArray, the copy into 16 zero bytes,
      and the two reversals. */
  method GuidFromNumber(number: nat, littleEndian: bool) returns (guid: Guid)
    ensures guid == GuidOfValue(number, littleEndian)
  {
    var bytes := ToByteArray(number);
    var byteArray := new byte[|bytes|](i requires 0 <= i < |bytes| => bytes[i]);
    var guidBytes := new byte[GuidSize](_ => 0);
    assert guidBytes[..] == Zeros(GuidSize);
    var lengthToCopy := if |bytes| < GuidSize then |bytes| else GuidSize;
    Copy(byteArray, guidBytes, lengthToCopy);
    ghost var low := LeBytes(number, GuidSize);
    assert guidBytes[..] == low by {
      assert byteArray[..] == bytes;
      CopyIntoZeros(bytes, lengthToCopy);
      PadOrTrimToByteArray(number, GuidSize);
    }
    ReverseRange(guidBytes, 0, GuidSize);
    ReverseWhole(low);
    if littleEndian {
      SwapFields(guidBytes);
    }
    guid := guidBytes[..];
  }

  lemma ReverseWhole<T>(s: seq<T>)
    ensures ReverseSegment(s, 0, |s|) == Reverse(s)
  {
    assert s[..0] + Reverse(s[0..|s|]) + s[|s|..] == Reverse(s[0..|s|]);
    assert s[0..|s|] == s;
  }

  /** What bytes[..length] over sixteen zero bytes leaves there. */
  lemma CopyIntoZeros(bytes: seq<byte>, length: nat)
    requires length == if |bytes| < GuidSize then |bytes| else GuidSize
    ensures bytes[..length] + Zeros(GuidSize)[length..] == PadOrTrim(bytes, GuidSize)
  {
  }

  lemma FirstInvalidAt(s: string, k: nat)
    requires k < |s| && AllDigits(s[..k]) && !IsDigit(s[k])
    ensures FirstInvalid(s) == k
  {
  }
}
