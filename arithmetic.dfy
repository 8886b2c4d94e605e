/** Natural-number facts shared by the byte and base-62 conversions:
    powers, and the uniqueness of Euclidean division on naturals. */
module Arithmetic {

  function Pow(b: nat, e: nat): (r: nat)
    ensures b > 0 ==> r > 0
  {
    if e == 0 then 1 else b * Pow(b, e - 1)
  }

  /** Division is determined by any quotient/remainder pair that fits. */
  lemma DivModUnique(n: nat, d: nat, q: nat, r: nat)
    requires 0 <= r < d
    requires n == d * q + r
    ensures n / d == q && n % d == r
  {
    var q', r' := n / d, n % d;
    assert d * q' + r' == d * q + r;
    if q' != q {
      var k: int := q - q';
      assert d * q == d * q' + d * k;
      assert d * k == r' - r;
      if k > 0 {
        MulAtLeast(d, k);
      } else {
        MulAtLeast(d, -k);
      }
    }
  }

  lemma ModSmall(n: nat, d: nat)
    requires n < d
    ensures n % d == n && n / d == 0
  {
    DivModUnique(n, d, 0, n);
  }

  lemma MulAtLeast(d: nat, k: int)
    requires k >= 1
    ensures d * k >= d
  {
  }

  lemma MulDistributes(b: nat, x: nat, y: nat)
    ensures b * (x + y) == b * x + b * y
  {
  }

  lemma MulAssociates(b: nat, m: nat, q: nat)
    ensures b * (m * q) == (b * m) * q
  {
  }

  /** Splitting a remainder modulo a product into a low digit and the rest. */
  lemma ModProduct(n: nat, b: nat, m: nat)
    requires b > 0 && m > 0
    ensures n % b + b * ((n / b) % m) == n % (b * m)
    ensures (n / b) / m == n / (b * m)
  {
    var q, r := n / b, n % b;
    var q2, r2 := q / m, q % m;
    assert n == b * q + r;
    assert q == m * q2 + r2;
    MulDistributes(b, m * q2, r2);
    MulAssociates(b, m, q2);
    assert n == (b * m) * q2 + (b * r2 + r);
    MulDistributes(b, r2, m - 1 - r2);
    MulDistributes(b, m - 1, 1);
    assert b * r2 + r < b * m;
    DivModUnique(n, b * m, q2, b * r2 + r);
  }

  lemma {:induction false} PowAdd(b: nat, m: nat, n: nat)
    ensures Pow(b, m + n) == Pow(b, m) * Pow(b, n)
    decreases m
  {
    if m > 0 {
      PowAdd(b, m - 1, n);
      assert Pow(b, m + n) == b * Pow(b, m - 1 + n);
    }
  }

  /** 2^128, the number of 16-byte values, is below 62^22, the number of
      22-digit base-62 numerals. */
  lemma GuidFitsWidth()
    ensures Pow(256, 16) < Pow(62, 22)
  {
    var small, large := Pow(256, 8), Pow(62, 11);
    assert small == 18446744073709551616;
    assert large == 52036560683837093888;
    PowAdd(256, 8, 8);
    PowAdd(62, 11, 11);
    assert small * small < large * large by {
      assert small * small < small * large;
      assert small * large < large * large;
    }
  }
}
