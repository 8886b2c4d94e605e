/** Fixed-width base-62 numerals over the codec's alphabet. */
module Numerals {
  import opened Arithmetic
  import opened Text

  /** Base62.CHARACTER_SET: the digits in value order, 0 to 61. */
  const Alphabet: string := "0123456789ABCDEFGHIJKLMNOPQRSTUVWXYZabcdefghijklmnopqrstuvwxyz"

  const Radix: nat := 62

  /** The code point of digit i: ten decimal digits, then the upper-case and
      the lower-case Latin letters. */
  function DigitCode(i: int): int
  {
    if i < 10 then 48 + i else if i < 36 then 55 + i else 61 + i
  }

  lemma AlphabetCodes()
    ensures |Alphabet| == Radix
    ensures forall i :: 0 <= i < |Alphabet| ==> Alphabet[i] as int == DigitCode(i)
  {
    var low := "0123456789ABCDEFGHIJKLMNOPQRSTU";
    assert Alphabet[..31] == low;
    forall i | 0 <= i < 31
      ensures Alphabet[i] as int == DigitCode(i)
    {
      assert Alphabet[i] == low[i];
    }
  }

  /** The alphabet is in strictly ascending code-point order, which is what
      makes fixed-width numerals sort like the numbers they denote. */
  lemma AlphabetAscending()
    ensures forall i, j :: 0 <= i < j < |Alphabet| ==> Alphabet[i] < Alphabet[j]
  {
    AlphabetCodes();
  }

  lemma NoUnderscoreInAlphabet()
    ensures '_' !in Alphabet
  {
    AlphabetCodes();
  }

  /** Membership in the alphabet, by code-point range. */
  predicate IsDigit(c: char)
  {
    '0' <= c <= '9' || 'A' <= c <= 'Z' || 'a' <= c <= 'z'
  }

  lemma IsDigitInAlphabet(c: char)
    ensures IsDigit(c) <==> c in Alphabet
  {
    AlphabetCodes();
    if IsDigit(c) {
      var i := if c <= '9' then c as int - 48 else if c <= 'Z' then c as int - 55 else c as int - 61;
      assert Alphabet[i] as int == c as int;
    }
    if c in Alphabet {
      var i :| 0 <= i < |Alphabet| && Alphabet[i] == c;
      assert c as int == DigitCode(i);
    }
  }

  predicate AllDigits(s: string)
  {
    forall i :: 0 <= i < |s| ==> IsDigit(s[i])
  }

  /** The value of a digit: its position in the alphabet. */
  function DigitValue(c: char): (d: nat)
    requires IsDigit(c)
    ensures d < Radix && Alphabet[d] == c
  {
    AlphabetCodes();
    if c <= '9' then c as int - 48 else if c <= 'Z' then c as int - 55 else c as int - 61
  }

  /** Reading a digit back gives its position. */
  lemma DigitValueOfDigit(d: nat)
    requires d < Radix
    ensures IsDigit(Alphabet[d]) && DigitValue(Alphabet[d]) == d
  {
    AlphabetCodes();
  }

  /** CHARACTER_SET.IndexOf(c) is the digit's value, and -1 for any other
      character: the alphabet has no repeats. */
  lemma IndexOfAlphabet(c: char)
    ensures IndexOf(Alphabet, c) == if IsDigit(c) then DigitValue(c) else -1
  {
    IsDigitInAlphabet(c);
    if IsDigit(c) {
      AlphabetAscending();
    }
  }

  /** The `width` least significant base-62 digits of n, most significant
      first (n itself when n < 62^width). */
  function Numeral(n: nat, width: nat): (r: string)
    ensures |r| == width && AllDigits(r)
  {
    if width == 0 then []
    else
      AlphabetCodes();
      Numeral(n / Radix, width - 1) + [Alphabet[n % Radix]]
  }

  /** The value of a numeral: the fold v := v * 62 + digit, left to right.
      k digits are worth less than 62^k. */
  function Value(s: string): (v: nat)
    requires AllDigits(s)
    ensures v < Pow(Radix, |s|)
  {
    if s == [] then 0
    else
      var init := s[..|s| - 1];
      assert Value(init) * Radix + Radix <= Pow(Radix, |init|) * Radix;
      Value(init) * Radix + DigitValue(s[|s| - 1])
  }

  /** One step of the left-to-right fold over a string's prefixes. */
  lemma ValuePrefixStep(s: string, k: nat)
    requires k < |s| && AllDigits(s[..k]) && IsDigit(s[k])
    ensures AllDigits(s[..k + 1])
    ensures Value(s[..k + 1]) == Value(s[..k]) * Radix + DigitValue(s[k])
  {
    assert s[..k + 1][..k] == s[..k];
  }

  /** A numeral denotes its number reduced modulo 62^width; in particular it
      denotes n exactly when n < 62^width. */
  lemma {:induction false} ValueOfNumeral(n: nat, width: nat)
    ensures Value(Numeral(n, width)) == n % Pow(Radix, width)
    decreases width
  {
    if width > 0 {
      var s := Numeral(n, width);
      assert s[..width - 1] == Numeral(n / Radix, width - 1);
      ValueOfNumeral(n / Radix, width - 1);
      DigitValueOfDigit(n % Radix);
      ModProduct(n, Radix, Pow(Radix, width - 1));
    }
  }

  lemma ValueOfSmallNumeral(n: nat, width: nat)
    requires n < Pow(Radix, width)
    ensures Value(Numeral(n, width)) == n
  {
    ValueOfNumeral(n, width);
    ModSmall(n, Pow(Radix, width));
  }

  /** Every string of digits is the numeral of its own value. */
  lemma {:induction false} NumeralOfValue(s: string)
    requires AllDigits(s)
    ensures Numeral(Value(s), |s|) == s
    decreases |s|
  {
    if s != [] {
      var init, last := s[..|s| - 1], s[|s| - 1];
      DivModUnique(Value(s), Radix, Value(init), DigitValue(last));
      NumeralOfValue(init);
      assert s == init + [last];
    }
  }

  lemma {:induction false} NumeralOfZero(width: nat)
    ensures Numeral(0, width) == seq(width, _ => '0')
  {
    if width > 0 {
      NumeralOfZero(width - 1);
      AlphabetCodes();
    }
  }

  /** Smaller numbers get ordinally smaller numerals of the same width. */
  lemma {:induction false} NumeralMonotone(m: nat, n: nat, width: nat)
    requires m < n < Pow(Radix, width)
    ensures LexLess(Numeral(m, width), Numeral(n, width))
    decreases width
  {
    var hm, hn := m / Radix, n / Radix;
    var lm, ln := m % Radix, n % Radix;
    ModProduct(n, Radix, Pow(Radix, width - 1));
    if hm == hn {
      AlphabetAscending();
      LexLessLast(Numeral(hm, width - 1), Alphabet[lm], Alphabet[ln]);
    } else {
      NumeralMonotone(hm, hn, width - 1);
      LexLessExtend(Numeral(hm, width - 1), Numeral(hn, width - 1), [Alphabet[lm]], [Alphabet[ln]]);
    }
  }

  /** Fixed-width numerals sort exactly as their numbers do. */
  lemma NumeralOrder(m: nat, n: nat, width: nat)
    requires m < Pow(Radix, width) && n < Pow(Radix, width)
    ensures LexLess(Numeral(m, width), Numeral(n, width)) <==> m < n
  {
    if m < n {
      NumeralMonotone(m, n, width);
    } else if n < m {
      NumeralMonotone(n, m, width);
      LexLessAsymmetric(Numeral(n, width), Numeral(m, width));
    } else {
      LexLessIrreflexive(Numeral(m, width));
    }
  }
}
