# GRid codec (SportsDataIO.GRidConversion.Base62) in Dafny

`Base62` turns a GUID and a type tag into a "GRid" and parses it back. A GRid
is the tag, an underscore, and a 22-character base-62 body. The body is the
GUID read as one 128-bit number N in RFC 4122 network byte order (section
4.1.2 of RFC 4122), written most significant digit first over the alphabet
`0-9A-Za-z`. Decoding splits on the last underscore, folds `v * 62 + digit`
over the body, keeps the low 16 bytes of the result and restores the .NET
byte layout.

The model has these parts:

- A GUID is its 16 bytes as .NET's `Guid.ToByteArray` returns them. The first three fields are little-endian on every host.
- `BitConverter.IsLittleEndian` is the parameter `littleEndian`.
- `BigInteger` is `nat`:
  - `new BigInteger(bytes)` with a zero top byte is `LeNat`.
  - `ToByteArray` is `Bytes.ToByteArray`, the shortest two's-complement little-endian form of a non-negative value.

`Base62.Encode` and `Base62.Decode` are methods. They work on arrays the way
the C# code does:

- `Array.Reverse` on a range is `Bytes.ReverseRange`.
- `Array.Copy` is `Bytes.Copy`.
- The 22-step `DivRem` loop fills a `char` array from its end.
- The `foreach` fold runs over the body.

Each method is proved to compute a specification function:

- `Base62.Grid` for `Encode`;
- `Base62.Parse` for `Decode`.

The codec's properties are lemmas about those functions. They are:

- the layout of a GRid;
- the round trip, for every tag and both byte orders;
- the order of GRids follows the order of the numbers N;
- the error and truncation behaviour of `Decode`;
- the concrete values of the unit tests.

Modules:

- `Arithmetic`: powers and Euclidean division.
- `Bytes`: byte sequences as numbers, the `BigInteger` conversions, and the two array operations.
- `Text`: `IndexOf`, `LastIndexOf` and ordinal string order.
- `Numerals`: the alphabet and fixed-width base-62 numerals.
- `Base62`: the codec.
- `Base62Properties`: what the codec promises.
- `KnownValues`: the unit tests' GUIDs.

A stricter decoder would reject an empty body and bodies worth 2^128 or
more. This one does neither:

- An empty body has value 0 and gives the all-zero GUID (`Base62Properties.ParseEmptyBody`).
- A larger value is kept modulo 2^128 (`Base62Properties.ParseValue`).

2^128 - 1 does not fill the 22 digits: it encodes to
`7n42DGM5Tflk9n8mt7Fhc7` (`KnownValues.MaxGrid`).

## Model

| member | source | states |
|---|---|---|
| `Numerals.Alphabet` | SportsDataIO.GRidConversion/Base62.cs:15 | CHARACTER_SET, the 62 digits in value order |
| `Base62.Separator` | SportsDataIO.GRidConversion/Base62.cs:19 | SEPARATOR, the underscore between tag and body |
| `Numerals.AlphabetCodes` | SportsDataIO.GRidConversion/Base62.cs:15 | CHARACTER_SET has 62 characters: digit i is '0'+i for i < 10, 'A'+(i-10) for i < 36, 'a'+(i-36) otherwise |
| `Numerals.AlphabetAscending` | SportsDataIO.GRidConversion/Base62.cs:15 | CHARACTER_SET is in strictly ascending code-point order |
| `Numerals.NoUnderscoreInAlphabet` | SportsDataIO.GRidConversion/Base62.cs:15-19 | SEPARATOR is not one of the 62 digits |
| `Numerals.IsDigitInAlphabet` | SportsDataIO.GRidConversion/Base62.cs:15 | a character is in CHARACTER_SET exactly when it is an ASCII digit or Latin letter |
| `Numerals.DigitValue` | SportsDataIO.GRidConversion/Base62.cs:80 | a digit's value is below 62 and is its position in CHARACTER_SET |
| `Numerals.DigitValueOfDigit` | SportsDataIO.GRidConversion/Base62.cs:58 | the character at position d is a digit whose value is d again |
| `Numerals.IndexOfAlphabet` | SportsDataIO.GRidConversion/Base62.cs:80-81 | CHARACTER_SET.IndexOf(c) is c's digit value, or -1 exactly for characters outside the alphabet |
| `Numerals.Numeral` | SportsDataIO.GRidConversion/Base62.cs:54-59 | the base-62 body has exactly `width` characters, all from the alphabet |
| `Numerals.ValuePrefixStep` | SportsDataIO.GRidConversion/Base62.cs:82 | one more character extends the fold as `v * 62 + digit` |
| `Numerals.Value` | SportsDataIO.GRidConversion/Base62.cs:78-83 | the fold `v * 62 + digit` over a digit string, left to right; k digits are worth less than 62^k |
| `Numerals.ValueOfNumeral` | SportsDataIO.GRidConversion/Base62.cs:54-59 | the 22 DivRem steps keep exactly n modulo 62^width |
| `Numerals.ValueOfSmallNumeral` | SportsDataIO.GRidConversion/Base62.cs:53-59 | a number below 62^width is read back exactly from its numeral |
| `Numerals.NumeralOfValue` | SportsDataIO.GRidConversion/Base62.cs:78-83 | every string of digits is the numeral of its own value, at its own width |
| `Numerals.NumeralOfZero` | SportsDataIO.GRidConversion/Base62.cs:54-59 | zero is written as `width` '0' characters |
| `Numerals.NumeralMonotone` | SportsDataIO.GRidConversion/Base62.cs:53-59 | a smaller number below 62^width gets an ordinally smaller numeral |
| `Numerals.NumeralOrder` | SportsDataIO.GRidConversion/Base62.cs:53-59 | for numbers below 62^width, numerals compare ordinally exactly as the numbers do |
| `Arithmetic.GuidFitsWidth` | SportsDataIO.GRidConversion/Base62.cs:53 | 2^128 < 62^22: 128 bits fit into 22 base-62 characters |
| `Text.IndexOf` | SportsDataIO.GRidConversion/Base62.cs:80 | the result is -1 exactly when c is absent; otherwise it is the position of the first c |
| `Text.LastIndexOf` | SportsDataIO.GRidConversion/Base62.cs:71 | the result is -1 exactly when c is absent; otherwise it is the position of the last c |
| `Text.LexLess` | SportsDataIO.GRidConversion/Base62.cs:34-35 | ordinal string order, the order the sortability comment relies on: the first differing character decides, a proper prefix sorts first |
| `Text.LexLessCommonPrefix` | SportsDataIO.GRidConversion/Base62.cs:60-65 | a shared tag and separator do not change the ordinal order of two strings |
| `Bytes.ReverseRange` | SportsDataIO.GRidConversion/Base62.cs:38-48 | Array.Reverse(a, index, length) reverses that range and leaves the rest of the array alone |
| `Bytes.Copy` | SportsDataIO.GRidConversion/Base62.cs:51 | Array.Copy(source, destination, length) overwrites the first `length` elements and keeps the others |
| `Bytes.LeNat` | SportsDataIO.GRidConversion/Base62.cs:52 | new BigInteger(positiveBytes): the bytes read with byte 0 least significant |
| `Bytes.PadOrTrim` | SportsDataIO.GRidConversion/Base62.cs:88-92 | the first 16 bytes, or the bytes followed by zero bytes when there are fewer: what the copy into `guidBytes` leaves |
| `Bytes.LeNatOfReverse` | SportsDataIO.GRidConversion/Base62.cs:48 | reading the reversed array little-endian is reading the array big-endian |
| `Bytes.LeNatZeroExtend` | SportsDataIO.GRidConversion/Base62.cs:50-52 | the extra zero byte of the 17-byte buffer does not change the value |
| `Bytes.LeNatBound` | SportsDataIO.GRidConversion/Base62.cs:52 | k little-endian bytes are worth less than 256^k |
| `Bytes.LeNatOfLeBytes` | SportsDataIO.GRidConversion/Base62.cs:90-92 | the low k bytes of n read back as n modulo 256^k |
| `Bytes.LeBytesOfLeNat` | SportsDataIO.GRidConversion/Base62.cs:52 | writing out k bytes' value in k bytes gives the bytes back |
| `Bytes.MinimalLe` | SportsDataIO.GRidConversion/Base62.cs:86 | the shortest little-endian bytes of n: they are worth n, empty only for 0, with a non-zero last byte |
| `Bytes.ToByteArray` | SportsDataIO.GRidConversion/Base62.cs:86 | BigInteger.ToByteArray of a non-negative value: worth n, at least one byte, top byte below 128, and no removable top byte |
| `Bytes.PadOrTrimToByteArray` | SportsDataIO.GRidConversion/Base62.cs:86-92 | copying min(length, 16) bytes of ToByteArray(n) into 16 zero bytes leaves the low 16 bytes of n, worth n modulo 2^128 |
| `Base62.FieldSwap` | SportsDataIO.GRidConversion/Base62.cs:36-41 | the three in-place reversals of bytes 0..3, 4..5 and 6..7, as a function of the bytes |
| `Base62.NetworkOrder` | SportsDataIO.GRidConversion/Base62.cs:98-103 | the swap when the host is little-endian, the bytes unchanged otherwise |
| `Base62.FieldSwapBytes` | SportsDataIO.GRidConversion/Base62.cs:36-41 | the swap reverses bytes 0..3, 4..5 and 6..7 and leaves bytes 8..15 unchanged |
| `Base62.FieldSwapInvolution` | SportsDataIO.GRidConversion/Base62.cs:98-103 | applying the field swap twice gives the GUID back |
| `Base62.NetworkOrderInvolution` | SportsDataIO.GRidConversion/Base62.cs:36-41 | under either flag, Decode's conditional swap undoes Encode's |
| `Base62.GuidValue` | SportsDataIO.GRidConversion/Base62.cs:31-52 | N, the network-order bytes read big-endian, is below 2^128 |
| `Base62.GuidOfValue` | SportsDataIO.GRidConversion/Base62.cs:86-105 | the GUID whose network-order bytes are the low 16 bytes of n, most significant first |
| `Base62.GuidValueOfGuidOfValue` | SportsDataIO.GRidConversion/Base62.cs:86-103 | the GUID Decode builds from a number stands for that number modulo 2^128 |
| `Base62.GuidOfValueOfGuid` | SportsDataIO.GRidConversion/Base62.cs:31-52 | turning N back into a GUID gives the original GUID |
| `Base62.Grid` | SportsDataIO.GRidConversion/Base62.cs:60-65 | the GRid is \|tag\| + 23 characters long: the tag, the separator, then alphabet characters |
| `Base62.IdPart` | SportsDataIO.GRidConversion/Base62.cs:71-72 | the body has no separator and ends the input, preceded by a separator when the input has one; without a separator it is the whole input |
| `Base62.FirstInvalid` | SportsDataIO.GRidConversion/Base62.cs:78-81 | the first position of a non-alphabet character, with every character before it in the alphabet |
| `Base62.Parse` | SportsDataIO.GRidConversion/Base62.cs:68-106 | Decode's result: success exactly when every body character is in the alphabet; a failure names a body character outside it |
| `Base62.SwapFields` | SportsDataIO.GRidConversion/Base62.cs:36-41 | the three Array.Reverse calls leave the field-swapped GUID in the array |
| `Base62.NumberOf` | SportsDataIO.GRidConversion/Base62.cs:31-52 | ToByteArray, the conditional swap, the full reverse and the 17-byte positive BigInteger give N |
| `Base62.Digits` | SportsDataIO.GRidConversion/Base62.cs:54-60 | the 22 DivRem steps fill the buffer with the 22-digit numeral of N |
| `Base62.Encode` | SportsDataIO.GRidConversion/Base62.cs:29-66 | Encode returns the GRid of the GUID under the tag |
| `Base62.GuidFromNumber` | SportsDataIO.GRidConversion/Base62.cs:86-105 | ToByteArray, the pad or trim to 16 bytes, the reverse and the conditional swap give the GUID of N modulo 2^128 |
| `Base62.Decode` | SportsDataIO.GRidConversion/Base62.cs:68-106 | Decode splits on the last separator and fails at the body's first non-alphabet character; otherwise it returns the GUID of the folded value |
| `Base62.EncodeFixed` | SportsDataIO.GRidConversion/Base62.cs:36-41 | Encode with the field swap done on every host: the GRid a little-endian host produces |
| `Base62.DecodeFixed` | SportsDataIO.GRidConversion/Base62.cs:98-103 | Decode with the field swap restored on every host: the GUID a little-endian host produces |
| `Base62Properties.GridLayout` | SportsDataIO.GRidConversion/Base62.cs:54-65 | a GRid is tag, separator and 22 characters, each in the alphabet and none the separator |
| `Base62Properties.IdPartOfGrid` | SportsDataIO.GRidConversion/Base62.cs:71-72 | splitting a GRid on its last separator gives back the encoded body, even when the tag contains separators |
| `Base62Properties.GuidValueFits` | SportsDataIO.GRidConversion/Base62.cs:53 | every N is below 62^22 |
| `Base62Properties.BodyValue` | SportsDataIO.GRidConversion/Base62.cs:53-59 | the body's value is N itself: no digit is lost |
| `Base62Properties.RoundTrip` | SportsdataIO.GRidConversion.Tests/Base62Tests.cs:11-22 | decoding the GRid of any GUID, under any tag and either flag, gives the GUID back |
| `Base62Properties.RoundTripBareBody` | SportsDataIO.GRidConversion/Base62.cs:71-72 | a body without tag or separator also decodes to its GUID |
| `Base62Properties.ReencodeRoundTrip` | SportsDataIO.GRidConversion/Base62.cs:68-92 | a 22-digit body worth less than 2^128 decodes, and re-encoding gives the same body |
| `Base62Properties.GridOrder` | SportsDataIO.GRidConversion/Base62.cs:34-59 | with one tag, GRids compare ordinally exactly as the GUIDs' numbers N do |
| `Base62Properties.EmptyGuidValue` | SportsDataIO.GRidConversion/Base62.cs:31-52 | the all-zero GUID stands for 0 |
| `Base62Properties.EmptyGuidGrid` | SportsdataIO.GRidConversion.Tests/Base62Tests.cs:28-35 | the all-zero GUID encodes to the tag followed by `_` and 22 '0' characters |
| `Base62Properties.ParseValue` | SportsDataIO.GRidConversion/Base62.cs:78-92 | Decode succeeds exactly when every body character is in the alphabet, and then the GUID stands for the body's value modulo 2^128 |
| `Base62Properties.ParseRejects` | SportsDataIO.GRidConversion/Base62.cs:78-81 | the failure names the first body character outside the alphabet |
| `Base62Properties.ParseEmptyBody` | SportsDataIO.GRidConversion/Base62.cs:75-92 | a tag and separator with nothing after them decode to the all-zero GUID, without an error |
| `Base62Properties.GridDependsOnByteOrder` | SportsDataIO.GRidConversion/Base62.cs:36-41 | the two flags give the same GRid exactly for GUIDs the field swap leaves unchanged |
| `Base62Properties.HostOrderPortable` | SportsDataIO.GRidConversion/Base62.cs:32-41 | if a host kept the three fields in its own byte order, which the conditional swap presumes, both hosts' bytes for one GUID would give the same GRid |
| `KnownValues.GridOfKnownBody` | SportsDataIO.GRidConversion/Base62.cs:60-65 | once N and its numeral are known, the GRid is tag, separator and that numeral |
| `KnownValues.KnownGuidValue` | SportsdataIO.GRidConversion.Tests/Base62Tests.cs:41-44 | on a little-endian host, 9b3ea5f2-e43b-44d0-83f3-e2d97dfff065 stands for 0x9b3ea5f2e43b44d083f3e2d97dfff065 |
| `KnownValues.KnownGrid` | SportsdataIO.GRidConversion.Tests/Base62Tests.cs:44-53 | that GUID under the tag "item" encodes to `item_4iwRLEQjyM887lIHKr7h3d` |
| `KnownValues.KnownGridDecodes` | SportsdataIO.GRidConversion.Tests/Base62Tests.cs:54 | `item_4iwRLEQjyM887lIHKr7h3d` decodes to that GUID |
| `KnownValues.KnownGridOnBigEndianHost` | SportsdataIO.GRidConversion.Tests/Base62Tests.cs:41-53 | with .NET's fixed layout, the code on a big-endian host does not produce the expected `item_4iwRLEQjyM887lIHKr7h3d` |
| `KnownValues.MaxGuidValue` | SportsdataIO.GRidConversion.Tests/Base62Tests.cs:29 | the all-ones GUID stands for 2^128 - 1 under either flag |
| `KnownValues.MaxGrid` | SportsdataIO.GRidConversion.Tests/Base62Tests.cs:29-33 | the all-ones GUID encodes to the tag followed by `_7n42DGM5Tflk9n8mt7Fhc7` |
| `KnownValues.MaxGridDecodes` | SportsdataIO.GRidConversion.Tests/Base62Tests.cs:29-35 | that GRid decodes to the all-ones GUID |

## Left out

- `Guid`, `Guid.Parse`, `Guid.NewGuid` and `new Guid(bytes)`: a GUID is its 16 bytes. `Guid.ToByteArray` is the identity on them. The random GUID of the round-trip test becomes "every GUID".
- The GUID layout is an assumption, not checked against the .NET library: `Guid.ToByteArray` and `new Guid(bytes)` store the first three fields little-endian on every host. The code swaps them only on a little-endian host, which would be right only if a big-endian host kept them in its own order; `Base62Properties.HostOrderPortable` states what that reading would give.
- `BitConverter.IsLittleEndian` is a host query. It is the parameter `littleEndian`.
- `BigInteger` internals:
  - Only non-negative values occur, so general two's-complement parsing is not modelled.
  - `BigInteger.DivRem` truncates toward zero. On these non-negative values that equals Dafny's Euclidean `/` and `%`.
- `StringBuilder` and `new string(buffer)` are sequence concatenation and `buffer[..]`.
- The `FormatException` is the `Failure(InvalidCharacter(c))` result. Its message text is not modelled.
- The Encode loop is `Base62.Digits`, and the first half of Encode is `Base62.NumberOf`. The second half of Decode is `Base62.GuidFromNumber`. This splits the C# methods into smaller proved steps. It does not change their order of operations.
- The xUnit harness (attributes, `Assert.StartsWith`, `Split`). The tests' assertions are stated as lemmas over the model.
- `Guid.Parse` of the tests' GUID strings is not modelled. The test GUIDs are written out as their 16 bytes (`KnownValues.KnownGuid`, `KnownValues.MaxGuid`).
- `null` strings are not modelled: Dafny strings are never null. A null tag throws nothing in C#, because `StringBuilder.Append(null)` appends nothing, so `Encode(g, null)` is `Base62.Encode` with the empty tag. A null input makes `Decode` throw a `NullReferenceException` at `LastIndexOf`.
- A C# `char` is a UTF-16 code unit, and a Dafny `char` is a Unicode scalar value. A C# string with a lone surrogate has no Dafny counterpart. A character outside the Basic Multilingual Plane is one Dafny `char`, but the `foreach` in Decode sees two code units, and the exception names the high surrogate.

## Findings

| source | as written | input that shows it | evidently intended | confidence | as-written member | corrected member |
|---|---|---|---|---|---|---|
| SportsDataIO.GRidConversion/Base62.cs:36-41 | the three fields are swapped only when `BitConverter.IsLittleEndian`, yet `Guid.ToByteArray` returns them little-endian on every host, so the GRid of a GUID depends on the host | 9b3ea5f2-e43b-44d0-83f3-e2d97dfff065 under the tag "item" on a big-endian host does not give `item_4iwRLEQjyM887lIHKr7h3d`, the known value the test expects on every host | swap on every host (and restore on every host at lines 98-103), so one GUID has one GRid everywhere; `Base62.DecodeFixed` is the matching decoder, and `KnownValues.KnownGrid`, `KnownValues.KnownGridDecodes` and `Base62Properties.RoundTrip` prove the known value and the round trip for the swapped layout | medium, not executed | `KnownValues.KnownGridOnBigEndianHost` | `Base62.EncodeFixed` |
