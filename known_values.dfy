/** The concrete values of the codec's unit tests: the known GRid of one
    GUID, and the edge case of the all-ones GUID. Each number is worked out
    a few bytes or digits at a time. */
module KnownValues {
  import opened Bytes
  import opened Numerals
  import opened Base62
  import opened Base62Properties

  /** 9b3ea5f2-e43b-44d0-83f3-e2d97dfff065 in .NET layout: the first three
      fields are stored little-endian. */
  const KnownGuid: Guid := [0xf2, 0xa5, 0x3e, 0x9b, 0x3b, 0xe4, 0xd0, 0x44, 0x83, 0xf3, 0xe2, 0xd9, 0x7d, 0xff, 0xf0, 0x65]

  /** The same GUID in network byte order. */
  const KnownNetwork: seq<byte> := [0x9b, 0x3e, 0xa5, 0xf2, 0xe4, 0x3b, 0x44, 0xd0, 0x83, 0xf3, 0xe2, 0xd9, 0x7d, 0xff, 0xf0, 0x65]

  /** ffffffff-ffff-ffff-ffff-ffffffffffff, the same in every layout. */
  const MaxGuid: Guid := seq(GuidSize, _ => 0xff as byte)

  /** The GRid of a GUID whose number and numeral are already known. */
  lemma GridOfKnownBody(g: Guid, tag: string, littleEndian: bool, n: nat, body: string)
    requires GuidValue(g, littleEndian) == n && Numeral(n, Width) == body
    ensures Grid(g, tag, littleEndian) == tag + [Separator] + body
  {
    GridLayout(g, tag, littleEndian);
  }

  lemma KnownNetworkOrder()
    ensures NetworkOrder(KnownGuid, true) == KnownNetwork
  {
    FieldSwapBytes(KnownGuid);
  }

  lemma KnownBytes4()
    ensures BeNat(KnownNetwork[..4]) == 0x9b3ea5f2
  {
    assert KnownNetwork[..0] == [];
    BeNatPrefix(KnownNetwork, 0);
    assert BeNat(KnownNetwork[..1]) == 0x9b;
    BeNatPrefix(KnownNetwork, 1);
    assert BeNat(KnownNetwork[..2]) == 0x9b3e;
    BeNatPrefix(KnownNetwork, 2);
    assert BeNat(KnownNetwork[..3]) == 0x9b3ea5;
    BeNatPrefix(KnownNetwork, 3);
  }

  lemma KnownBytes8()
    ensures BeNat(KnownNetwork[..8]) == 0x9b3ea5f2e43b44d0
  {
    KnownBytes4();
    BeNatPrefix(KnownNetwork, 4);
    assert BeNat(KnownNetwork[..5]) == 0x9b3ea5f2e4;
    BeNatPrefix(KnownNetwork, 5);
    assert BeNat(KnownNetwork[..6]) == 0x9b3ea5f2e43b;
    BeNatPrefix(KnownNetwork, 6);
    assert BeNat(KnownNetwork[..7]) == 0x9b3ea5f2e43b44;
    BeNatPrefix(KnownNetwork, 7);
  }

  lemma KnownBytes12()
    ensures BeNat(KnownNetwork[..12]) == 0x9b3ea5f2e43b44d083f3e2d9
  {
    KnownBytes8();
    BeNatPrefix(KnownNetwork, 8);
    assert BeNat(KnownNetwork[..9]) == 0x9b3ea5f2e43b44d083;
    BeNatPrefix(KnownNetwork, 9);
    assert BeNat(KnownNetwork[..10]) == 0x9b3ea5f2e43b44d083f3;
    BeNatPrefix(KnownNetwork, 10);
    assert BeNat(KnownNetwork[..11]) == 0x9b3ea5f2e43b44d083f3e2;
    BeNatPrefix(KnownNetwork, 11);
  }

  lemma KnownBytes16()
    ensures BeNat(KnownNetwork) == 0x9b3ea5f2e43b44d083f3e2d97dfff065
  {
    KnownBytes12();
    BeNatPrefix(KnownNetwork, 12);
    assert BeNat(KnownNetwork[..13]) == 0x9b3ea5f2e43b44d083f3e2d97d;
    BeNatPrefix(KnownNetwork, 13);
    assert BeNat(KnownNetwork[..14]) == 0x9b3ea5f2e43b44d083f3e2d97dff;
    BeNatPrefix(KnownNetwork, 14);
    assert BeNat(KnownNetwork[..15]) == 0x9b3ea5f2e43b44d083f3e2d97dfff0;
    BeNatPrefix(KnownNetwork, 15);
    assert KnownNetwork[..16] == KnownNetwork;
  }

  /** On a little-endian host the test GUID stands for the number spelled by
      the hex digits of its text form. */
  lemma KnownGuidValue()
    ensures GuidValue(KnownGuid, true) == 0x9b3ea5f2e43b44d083f3e2d97dfff065
  {
    KnownNetworkOrder();
    KnownBytes16();
  }

  lemma KnownDigits6()
    ensures Numeral(4328618240, 6) == "4iwRLE"
  {
    AlphabetCodes();
    assert Numeral(4, 1) == Numeral(0, 0) + [Alphabet[4]];
    assert Alphabet[4] == '4';
    assert Numeral(292, 2) == Numeral(4, 1) + [Alphabet[44]];
    assert Alphabet[44] == 'i';
    assert Numeral(18162, 3) == Numeral(292, 2) + [Alphabet[58]];
    assert Alphabet[58] == 'w';
    assert Numeral(1126071, 4) == Numeral(18162, 3) + [Alphabet[27]];
    assert Alphabet[27] == 'R';
    assert Numeral(69816423, 5) == Numeral(1126071, 4) + [Alphabet[21]];
    assert Alphabet[21] == 'L';
    assert Numeral(4328618240, 6) == Numeral(69816423, 5) + [Alphabet[14]];
    assert Alphabet[14] == 'E';
  }

  lemma KnownDigits11()
    ensures Numeral(3965589287253197188, 11) == "4iwRLEQjyM8"
  {
    AlphabetCodes();
    KnownDigits6();
    assert Numeral(268374330906, 7) == Numeral(4328618240, 6) + [Alphabet[26]];
    assert Alphabet[26] == 'Q';
    assert Numeral(16639208516217, 8) == Numeral(268374330906, 7) + [Alphabet[45]];
    assert Alphabet[45] == 'j';
    assert Numeral(1031630928005514, 9) == Numeral(16639208516217, 8) + [Alphabet[60]];
    assert Alphabet[60] == 'y';
    assert Numeral(63961117536341890, 10) == Numeral(1031630928005514, 9) + [Alphabet[22]];
    assert Alphabet[22] == 'M';
    assert Numeral(3965589287253197188, 11) == Numeral(63961117536341890, 10) + [Alphabet[8]];
    assert Alphabet[8] == '8';
  }

  lemma KnownDigits16()
    ensures Numeral(3633006544280133041016937201, 16) == "4iwRLEQjyM887lIH"
  {
    AlphabetCodes();
    KnownDigits11();
    assert Numeral(245866535809698225664, 12) == Numeral(3965589287253197188, 11) + [Alphabet[8]];
    assert Alphabet[8] == '8';
    assert Numeral(15243725220201289991175, 13) == Numeral(245866535809698225664, 12) + [Alphabet[7]];
    assert Alphabet[7] == '7';
    assert Numeral(945110963652479979452897, 14) == Numeral(15243725220201289991175, 13) + [Alphabet[47]];
    assert Alphabet[47] == 'l';
    assert Numeral(58596879746453758726079632, 15) == Numeral(945110963652479979452897, 14) + [Alphabet[18]];
    assert Alphabet[18] == 'I';
    assert Numeral(3633006544280133041016937201, 16) == Numeral(58596879746453758726079632, 15) + [Alphabet[17]];
    assert Alphabet[17] == 'H';
  }

  lemma KnownDigits22()
    ensures Numeral(0x9b3ea5f2e43b44d083f3e2d97dfff065, Width) == "4iwRLEQjyM887lIHKr7h3d"
  {
    AlphabetCodes();
    KnownDigits16();
    assert Numeral(225246405745368248543050106482, 17) == Numeral(3633006544280133041016937201, 16) + [Alphabet[20]];
    assert Alphabet[20] == 'K';
    assert Numeral(13965277156212831409669106601937, 18) == Numeral(225246405745368248543050106482, 17) + [Alphabet[53]];
    assert Alphabet[53] == 'r';
    assert Numeral(865847183685195547399484609320101, 19) == Numeral(13965277156212831409669106601937, 18) + [Alphabet[7]];
    assert Alphabet[7] == '7';
    assert Numeral(53682525388482123938768045777846305, 20) == Numeral(865847183685195547399484609320101, 19) + [Alphabet[43]];
    assert Alphabet[43] == 'h';
    assert Numeral(3328316574085891684203618838226470913, 21) == Numeral(53682525388482123938768045777846305, 20) + [Alphabet[3]];
    assert Alphabet[3] == '3';
    assert Numeral(206355627593325284420624367970041196645, 22) == Numeral(3328316574085891684203618838226470913, 21) + [Alphabet[39]];
    assert Alphabet[39] == 'd';
  }

  /** The known value: the GRid of the test GUID under the tag "item". */
  lemma KnownGrid()
    ensures Grid(KnownGuid, "item", true) == "item" + "_" + "4iwRLEQjyM887lIHKr7h3d"
  {
    KnownGuidValue();
    KnownDigits22();
    GridOfKnownBody(KnownGuid, "item", true, 0x9b3ea5f2e43b44d083f3e2d97dfff065, "4iwRLEQjyM887lIHKr7h3d");
  }

  /** Decoding the known GRid gives the test GUID back. */
  lemma KnownGridDecodes()
    ensures Parse("item" + "_" + "4iwRLEQjyM887lIHKr7h3d", true) == Success(KnownGuid)
  {
    KnownGrid();
    RoundTrip(KnownGuid, "item", true);
  }

  /** With .NET's fixed GUID layout, a big-endian host skips the swap and gets
      a different GRid for the test GUID: the known-value test cannot pass
      there. */
  lemma KnownGridOnBigEndianHost()
    ensures Grid(KnownGuid, "item", false) != "item" + "_" + "4iwRLEQjyM887lIHKr7h3d"
  {
    KnownGrid();
    KnownNetworkOrder();
    assert FieldSwap(KnownGuid)[0] != KnownGuid[0];
    GridDependsOnByteOrder(KnownGuid, "item");
  }

  lemma MaxNetworkOrder(littleEndian: bool)
    ensures NetworkOrder(MaxGuid, littleEndian) == MaxGuid
  {
    FieldSwapBytes(MaxGuid);
  }

  lemma MaxBytes4()
    ensures BeNat(MaxGuid[..4]) == 0xffffffff
  {
    assert MaxGuid[..0] == [];
    BeNatPrefix(MaxGuid, 0);
    assert BeNat(MaxGuid[..1]) == 0xff;
    BeNatPrefix(MaxGuid, 1);
    assert BeNat(MaxGuid[..2]) == 0xffff;
    BeNatPrefix(MaxGuid, 2);
    assert BeNat(MaxGuid[..3]) == 0xffffff;
    BeNatPrefix(MaxGuid, 3);
  }

  lemma MaxBytes8()
    ensures BeNat(MaxGuid[..8]) == 0xffffffffffffffff
  {
    MaxBytes4();
    BeNatPrefix(MaxGuid, 4);
    assert BeNat(MaxGuid[..5]) == 0xffffffffff;
    BeNatPrefix(MaxGuid, 5);
    assert BeNat(MaxGuid[..6]) == 0xffffffffffff;
    BeNatPrefix(MaxGuid, 6);
    assert BeNat(MaxGuid[..7]) == 0xffffffffffffff;
    BeNatPrefix(MaxGuid, 7);
  }

  lemma MaxBytes12()
    ensures BeNat(MaxGuid[..12]) == 0xffffffffffffffffffffffff
  {
    MaxBytes8();
    BeNatPrefix(MaxGuid, 8);
    assert BeNat(MaxGuid[..9]) == 0xffffffffffffffffff;
    BeNatPrefix(MaxGuid, 9);
    assert BeNat(MaxGuid[..10]) == 0xffffffffffffffffffff;
    BeNatPrefix(MaxGuid, 10);
    assert BeNat(MaxGuid[..11]) == 0xffffffffffffffffffffff;
    BeNatPrefix(MaxGuid, 11);
  }

  lemma MaxBytes16()
    ensures BeNat(MaxGuid) == 0xffffffffffffffffffffffffffffffff
  {
    MaxBytes12();
    BeNatPrefix(MaxGuid, 12);
    assert BeNat(MaxGuid[..13]) == 0xffffffffffffffffffffffffff;
    BeNatPrefix(MaxGuid, 13);
    assert BeNat(MaxGuid[..14]) == 0xffffffffffffffffffffffffffff;
    BeNatPrefix(MaxGuid, 14);
    assert BeNat(MaxGuid[..15]) == 0xffffffffffffffffffffffffffffff;
    BeNatPrefix(MaxGuid, 15);
    assert MaxGuid[..16] == MaxGuid;
  }

  /** The all-ones GUID stands for 2^128 - 1 in either byte order. */
  lemma MaxGuidValue(littleEndian: bool)
    ensures GuidValue(MaxGuid, littleEndian) == 0xffffffffffffffffffffffffffffffff
  {
    MaxNetworkOrder(littleEndian);
    MaxBytes16();
  }

  lemma MaxDigits6()
    ensures Numeral(7137932110, 6) == "7n42DG"
  {
    AlphabetCodes();
    assert Numeral(7, 1) == Numeral(0, 0) + [Alphabet[7]];
    assert Alphabet[7] == '7';
    assert Numeral(483, 2) == Numeral(7, 1) + [Alphabet[49]];
    assert Alphabet[49] == 'n';
    assert Numeral(29950, 3) == Numeral(483, 2) + [Alphabet[4]];
    assert Alphabet[4] == '4';
    assert Numeral(1856902, 4) == Numeral(29950, 3) + [Alphabet[2]];
    assert Alphabet[2] == '2';
    assert Numeral(115127937, 5) == Numeral(1856902, 4) + [Alphabet[13]];
    assert Alphabet[13] == 'D';
    assert Numeral(7137932110, 6) == Numeral(115127937, 5) + [Alphabet[16]];
    assert Alphabet[16] == 'G';
  }

  lemma MaxDigits11()
    ensures Numeral(6539293958884420617, 11) == "7n42DGM5Tfl"
  {
    AlphabetCodes();
    MaxDigits6();
    assert Numeral(442551790842, 7) == Numeral(7137932110, 6) + [Alphabet[22]];
    assert Alphabet[22] == 'M';
    assert Numeral(27438211032209, 8) == Numeral(442551790842, 7) + [Alphabet[5]];
    assert Alphabet[5] == '5';
    assert Numeral(1701169083996987, 9) == Numeral(27438211032209, 8) + [Alphabet[29]];
    assert Alphabet[29] == 'T';
    assert Numeral(105472483207813235, 10) == Numeral(1701169083996987, 9) + [Alphabet[41]];
    assert Alphabet[41] == 'f';
    assert Numeral(6539293958884420617, 11) == Numeral(105472483207813235, 10) + [Alphabet[47]];
    assert Alphabet[47] == 'l';
  }

  lemma MaxDigits16()
    ensures Numeral(5990861893833275821213442652, 16) == "7n42DGM5Tflk9n8m"
  {
    AlphabetCodes();
    MaxDigits11();
    assert Numeral(405436225450834078300, 12) == Numeral(6539293958884420617, 11) + [Alphabet[46]];
    assert Alphabet[46] == 'k';
    assert Numeral(25137045977951712854609, 13) == Numeral(405436225450834078300, 12) + [Alphabet[9]];
    assert Alphabet[9] == '9';
    assert Numeral(1558496850633006196985807, 14) == Numeral(25137045977951712854609, 13) + [Alphabet[49]];
    assert Alphabet[49] == 'n';
    assert Numeral(96626804739246384213120042, 15) == Numeral(1558496850633006196985807, 14) + [Alphabet[8]];
    assert Alphabet[8] == '8';
    assert Numeral(5990861893833275821213442652, 16) == Numeral(96626804739246384213120042, 15) + [Alphabet[48]];
    assert Alphabet[48] == 'm';
  }

  lemma MaxDigits22()
    ensures Numeral(0xffffffffffffffffffffffffffffffff, Width) == "7n42DGM5Tflk9n8mt7Fhc7"
  {
    AlphabetCodes();
    MaxDigits16();
    assert Numeral(371433437417663100915233444479, 17) == Numeral(5990861893833275821213442652, 16) + [Alphabet[55]];
    assert Alphabet[55] == 't';
    assert Numeral(23028873119895112256744473557705, 18) == Numeral(371433437417663100915233444479, 17) + [Alphabet[7]];
    assert Alphabet[7] == '7';
    assert Numeral(1427790133433496959918157360577725, 19) == Numeral(23028873119895112256744473557705, 18) + [Alphabet[15]];
    assert Alphabet[15] == 'F';
    assert Numeral(88522988272876811514925756355818993, 20) == Numeral(1427790133433496959918157360577725, 19) + [Alphabet[43]];
    assert Alphabet[43] == 'h';
    assert Numeral(5488425272918362313925396894060777604, 21) == Numeral(88522988272876811514925756355818993, 20) + [Alphabet[38]];
    assert Alphabet[38] == 'c';
    assert Numeral(340282366920938463463374607431768211455, 22) == Numeral(5488425272918362313925396894060777604, 21) + [Alphabet[7]];
    assert Alphabet[7] == '7';
  }

  /** The largest GUID does not fill the 22 digits: 2^128 - 1 is far below
      62^22 - 1, so its body starts with '7' and not with the last digit 'z'. */
  lemma MaxGrid(tag: string, littleEndian: bool)
    ensures Grid(MaxGuid, tag, littleEndian) == tag + "_" + "7n42DGM5Tflk9n8mt7Fhc7"
  {
    MaxGuidValue(littleEndian);
    MaxDigits22();
    GridOfKnownBody(MaxGuid, tag, littleEndian, 0xffffffffffffffffffffffffffffffff, "7n42DGM5Tflk9n8mt7Fhc7");
  }

  /** Decoding the largest GUID's GRid gives it back. */
  lemma MaxGridDecodes(tag: string, littleEndian: bool)
    ensures Parse(tag + "_" + "7n42DGM5Tflk9n8mt7Fhc7", littleEndian) == Success(MaxGuid)
  {
    MaxGrid(tag, littleEndian);
    RoundTrip(MaxGuid, tag, littleEndian);
  }
}
