/** What the GRid codec promises, stated over the specification functions
    Grid and Parse that Base62.Encode and Base62.Decode are proved to compute. */
module Base62Properties {
  import opened Arithmetic
  import opened Bytes
  import opened Text
  import opened Numerals
  import opened Base62

  /** A GRid is the tag, one separator and a body of 22 alphabet characters,
      none of which is the separator. */
  lemma GridLayout(g: Guid, tag: string, littleEndian: bool)
    ensures Grid(g, tag, littleEndian) == tag + [Separator] + Numeral(GuidValue(g, littleEndian), Width)
    ensures |Numeral(GuidValue(g, littleEndian), Width)| == Width
    ensures forall c :: c in Numeral(GuidValue(g, littleEndian), Width) ==> c in Alphabet && c != Separator
  {
    var body := Numeral(GuidValue(g, littleEndian), Width);
    forall c | c in body
      ensures c in Alphabet && c != Separator
    {
      IsDigitInAlphabet(c);
    }
  }

  /** Decode's split on the last separator recovers the body, whatever
      separators the tag itself contains. */
  lemma IdPartOfGrid(g: Guid, tag: string, littleEndian: bool)
    ensures IdPart(Grid(g, tag, littleEndian)) == Numeral(GuidValue(g, littleEndian), Width)
  {
    GridLayout(g, tag, littleEndian);
    var grid, body := Grid(g, tag, littleEndian), Numeral(GuidValue(g, littleEndian), Width);
    var part := IdPart(grid);
    assert grid[|tag|] == Separator;
    assert grid[|grid| - Width..] == body;
  }

  /** Every GUID number fits in 22 base-62 digits, since 2^128 < 62^22. */
  lemma GuidValueFits(g: Guid, littleEndian: bool)
    ensures GuidValue(g, littleEndian) < Pow(Radix, Width)
  {
    GuidFitsWidth();
  }

  lemma SmallBodyValue(n: nat)
    requires n < Pow(Radix, Width)
    ensures Value(Numeral(n, Width)) == n
  {
    ValueOfSmallNumeral(n, Width);
  }

  /** The body denotes N itself: no digit is lost. */
  lemma BodyValue(g: Guid, littleEndian: bool)
    ensures Value(Numeral(GuidValue(g, littleEndian), Width)) == GuidValue(g, littleEndian)
  {
    GuidValueFits(g, littleEndian);
    SmallBodyValue(GuidValue(g, littleEndian));
  }

  /** Round trip: decoding a GRid gives back the GUID, for every tag and
      either byte order. */
  lemma RoundTrip(g: Guid, tag: string, littleEndian: bool)
    ensures Parse(Grid(g, tag, littleEndian), littleEndian) == Success(g)
  {
    IdPartOfGrid(g, tag, littleEndian);
    BodyValue(g, littleEndian);
    GuidOfValueOfGuid(g, littleEndian);
  }

  /** A body without a tag decodes as well. */
  lemma RoundTripBareBody(g: Guid, littleEndian: bool)
    ensures Parse(Numeral(GuidValue(g, littleEndian), Width), littleEndian) == Success(g)
  {
    var body := Numeral(GuidValue(g, littleEndian), Width);
    assert IdPart(body) == body;
    BodyValue(g, littleEndian);
    GuidOfValueOfGuid(g, littleEndian);
  }

  /** Re-encoding what a well-formed 22-digit body decodes to reproduces it. */
  lemma ReencodeRoundTrip(input: string, tag: string, littleEndian: bool)
    requires AllDigits(IdPart(input)) && |IdPart(input)| == Width
    requires Value(IdPart(input)) < Pow(256, GuidSize)
    ensures Parse(input, littleEndian).Success?
    ensures Grid(Parse(input, littleEndian).value, tag, littleEndian) == tag + [Separator] + IdPart(input)
  {
    var body := IdPart(input);
    var v := Value(body);
    var g := GuidOfValue(v, littleEndian);
    assert Parse(input, littleEndian) == Success(g);
    GuidValueOfGuidOfValue(v, littleEndian);
    ModSmall(v, Pow(256, GuidSize));
    assert GuidValue(g, littleEndian) == v;
    NumeralOfValue(body);
  }

  /** Fixed width and an ascending alphabet make GRids with one tag sort
      ordinally exactly as the GUIDs' numbers do. */
  lemma GridOrder(g1: Guid, g2: Guid, tag: string, littleEndian: bool)
    ensures LexLess(Grid(g1, tag, littleEndian), Grid(g2, tag, littleEndian))
        <==> GuidValue(g1, littleEndian) < GuidValue(g2, littleEndian)
  {
    var n1, n2 := GuidValue(g1, littleEndian), GuidValue(g2, littleEndian);
    GuidValueFits(g1, littleEndian);
    GuidValueFits(g2, littleEndian);
    NumeralOrder(n1, n2, Width);
    LexLessCommonPrefix(tag + [Separator], Numeral(n1, Width), Numeral(n2, Width));
  }

  /** The all-zero GUID stands for the number 0. */
  lemma EmptyGuidValue(littleEndian: bool)
    ensures GuidValue(EmptyGuid, littleEndian) == 0
  {
    var z := EmptyGuid;
    assert NetworkOrder(z, littleEndian) == z by {
      FieldSwapBytes(z);
    }
    LeNatOfReverse(z);
    assert Reverse(z) == Zeros(GuidSize);
    LeBytesOfZero(GuidSize);
    LeNatOfLeBytes(0, GuidSize);
  }

  /** The all-zero GUID encodes to 22 '0' characters. */
  lemma EmptyGuidGrid(tag: string, littleEndian: bool)
    ensures Grid(EmptyGuid, tag, littleEndian) == tag + "_0000000000000000000000"
  {
    EmptyGuidValue(littleEndian);
    NumeralOfZero(Width);
    assert [Separator] + seq(Width, _ => '0') == "_0000000000000000000000";
  }

  /** Decode succeeds exactly when every body character is in the alphabet,
      and then keeps the body's value modulo 2^128. */
  lemma ParseValue(input: string, littleEndian: bool)
    ensures Parse(input, littleEndian).Success? <==> AllDigits(IdPart(input))
    ensures Parse(input, littleEndian).Success? ==>
      GuidValue(Parse(input, littleEndian).value, littleEndian) == Value(IdPart(input)) % Pow(256, GuidSize)
  {
    if AllDigits(IdPart(input)) {
      GuidValueOfGuidOfValue(Value(IdPart(input)), littleEndian);
    }
  }

  /** Decode reports the first character of the body outside the alphabet. */
  lemma ParseRejects(input: string, littleEndian: bool, k: nat)
    requires k < |IdPart(input)| && IdPart(input)[k] !in Alphabet
    requires forall i :: 0 <= i < k ==> IdPart(input)[i] in Alphabet
    ensures Parse(input, littleEndian) == Failure(InvalidCharacter(IdPart(input)[k]))
  {
    var body := IdPart(input);
    IsDigitInAlphabet(body[k]);
    forall i | 0 <= i < k
      ensures IsDigit(body[..k][i])
    {
      IsDigitInAlphabet(body[i]);
    }
    FirstInvalidAt(body, k);
  }

  /** An empty body is not an error: it decodes to the all-zero GUID. */
  lemma ParseEmptyBody(tag: string, littleEndian: bool)
    ensures Parse(tag + [Separator], littleEndian) == Success(EmptyGuid)
  {
    var input := tag + [Separator];
    assert IdPart(input) == [];
    var z := EmptyGuid;
    LeBytesOfZero(GuidSize);
    assert Reverse(LeBytes(0, GuidSize)) == z;
    FieldSwapBytes(z);
    assert FieldSwap(z) == z;
    assert GuidOfValue(0, littleEndian) == z;
  }

  /** The text from BitConverter.IsLittleEndian onwards decides the string:
      the two flags give the same GRid exactly for the GUIDs that the field
      swap leaves unchanged. */
  lemma GridDependsOnByteOrder(g: Guid, tag: string)
    ensures Grid(g, tag, true) == Grid(g, tag, false) <==> FieldSwap(g) == g
  {
    if Grid(g, tag, true) == Grid(g, tag, false) {
      GridLayout(g, tag, true);
      GridLayout(g, tag, false);
      assert Numeral(GuidValue(g, true), Width) == Numeral(GuidValue(g, false), Width) by {
        var grid := Grid(g, tag, true);
        assert Numeral(GuidValue(g, true), Width) == grid[|tag| + 1..];
      }
      BodyValue(g, true);
      BodyValue(g, false);
      GuidOfValueOfGuid(g, true);
      GuidOfValueOfGuid(g, false);
    }
  }

  /** What the code's byte-order check assumes: if a host stored the three
      leading fields in its own byte order, a little-endian host would hold
      the swapped bytes of the GUID a big-endian host holds, and both would
      produce the same GRid. */
  lemma HostOrderPortable(network: Guid, tag: string)
    ensures Grid(FieldSwap(network), tag, true) == Grid(network, tag, false)
  {
    FieldSwapInvolution(network);
  }
}
