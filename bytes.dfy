/** Byte sequences read as natural numbers, and the two conversions the codec
    borrows from System.Numerics.BigInteger: building a non-negative value from
    little-endian bytes, and serialising it back with ToByteArray. The arrays the
    codec mutates are modelled by the two System.Array calls it makes. */
module Bytes {
  import opened Arithmetic

  newtype byte = x: int | 0 <= x < 256

  function Zeros(k: nat): (r: seq<byte>)
  {
    seq(k, _ => 0 as byte)
  }

  function Reverse<T>(s: seq<T>): (r: seq<T>)
  {
    seq(|s|, i requires 0 <= i < |s| => s[|s| - 1 - i])
  }

  lemma ReverseReverse<T>(s: seq<T>)
    ensures Reverse(Reverse(s)) == s
  {
  }

  /** s with the `length` elements from `index` on in reverse order. */
  function ReverseSegment<T>(s: seq<T>, index: nat, length: nat): (r: seq<T>)
    requires index + length <= |s|
  {
    s[..index] + Reverse(s[index..index + length]) + s[index + length..]
  }

  lemma ReverseSegmentAt<T>(s: seq<T>, index: nat, length: nat, i: nat)
    requires index + length <= |s| && i < |s|
    ensures |ReverseSegment(s, index, length)| == |s|
    ensures ReverseSegment(s, index, length)[i]
         == if index <= i < index + length then s[2 * index + length - 1 - i] else s[i]
  {
  }

  /** Little-endian value: s[0] is the least significant byte. */
  function LeNat(s: seq<byte>): nat
  {
    if s == [] then 0 else s[0] as nat + 256 * LeNat(s[1..])
  }

  /** Big-endian value: s[0] is the most significant byte. */
  function BeNat(s: seq<byte>): nat
  {
    if s == [] then 0 else 256 * BeNat(s[..|s| - 1]) + s[|s| - 1] as nat
  }

  /** Reading one more byte big-endian shifts the value by a byte. */
  lemma BeNatPrefix(s: seq<byte>, k: nat)
    requires k < |s|
    ensures BeNat(s[..k + 1]) == 256 * BeNat(s[..k]) + s[k] as nat
  {
    assert s[..k + 1][..k] == s[..k];
  }

  /** The low k bytes of n, least significant first. */
  function LeBytes(n: nat, k: nat): (r: seq<byte>)
    ensures |r| == k
  {
    if k == 0 then [] else [(n % 256) as byte] + LeBytes(n / 256, k - 1)
  }

  lemma {:induction false} LeNatBound(s: seq<byte>)
    ensures LeNat(s) < Pow(256, |s|)
  {
    if s != [] {
      LeNatBound(s[1..]);
      assert LeNat(s[1..]) + 1 <= Pow(256, |s| - 1);
      assert 256 * (LeNat(s[1..]) + 1) <= 256 * Pow(256, |s| - 1);
    }
  }

  /** Reading a reversed sequence little-endian is reading it big-endian. */
  lemma {:induction false} LeNatOfReverse(s: seq<byte>)
    ensures LeNat(Reverse(s)) == BeNat(s)
    decreases |s|
  {
    if s != [] {
      var init := s[..|s| - 1];
      assert Reverse(s)[1..] == Reverse(init);
      LeNatOfReverse(init);
    }
  }

  /** A trailing zero byte does not change a little-endian value. */
  lemma {:induction false} LeNatZeroExtend(s: seq<byte>)
    ensures LeNat(s + [0]) == LeNat(s)
    decreases |s|
  {
    if s == [] {
      assert LeNat([0 as byte]) == 0 + 256 * LeNat([]);
    } else {
      assert (s + [0])[1..] == s[1..] + [0];
      LeNatZeroExtend(s[1..]);
    }
  }

  lemma {:induction false} LeNatOfLeBytes(n: nat, k: nat)
    ensures LeNat(LeBytes(n, k)) == n % Pow(256, k)
    decreases k
  {
    if k > 0 {
      LeNatOfLeBytes(n / 256, k - 1);
      ModProduct(n, 256, Pow(256, k - 1));
    }
  }

  lemma {:induction false} LeBytesOfLeNat(s: seq<byte>)
    ensures LeBytes(LeNat(s), |s|) == s
    decreases |s|
  {
    if s != [] {
      DivModUnique(LeNat(s), 256, LeNat(s[1..]), s[0] as nat);
      LeBytesOfLeNat(s[1..]);
    }
  }

  lemma {:induction false} LeBytesOfZero(k: nat)
    ensures LeBytes(0, k) == Zeros(k)
  {
    if k > 0 {
      LeBytesOfZero(k - 1);
    }
  }

  /** The shortest little-endian bytes of n: empty for zero, otherwise with a
      non-zero last byte. */
  function MinimalLe(n: nat): (r: seq<byte>)
    ensures LeNat(r) == n
    ensures n == 0 <==> r == []
    ensures r != [] ==> r[|r| - 1] != 0
  {
    if n == 0 then []
    else
      var rest := MinimalLe(n / 256);
      assert n == 256 * (n / 256) + n % 256;
      [(n % 256) as byte] + rest
  }

  /** BigInteger.ToByteArray for a non-negative value: its shortest
      little-endian two's-complement form. Zero is one zero byte, and a value
      whose top byte has its high bit set gains a zero sign byte. */
  function ToByteArray(n: nat): (r: seq<byte>)
    ensures LeNat(r) == n
    ensures |r| >= 1 && r[|r| - 1] < 128
    ensures |r| > 1 ==> r[|r| - 1] != 0 || r[|r| - 2] >= 128
  {
    var m := MinimalLe(n);
    if m == [] then
      [0]
    else if m[|m| - 1] >= 128 then
      LeNatZeroExtend(m);
      m + [0]
    else
      m
  }

  /** The first k bytes of s, padded with zero bytes when s is shorter: what
      copying min(|s|, k) bytes of s into a fresh k-byte array leaves there. */
  function PadOrTrim(s: seq<byte>, k: nat): (r: seq<byte>)
  {
    if |s| >= k then s[..k] else s + Zeros(k - |s|)
  }

  lemma PadOrTrimZeroExtend(s: seq<byte>, k: nat)
    ensures PadOrTrim(s + [0], k) == PadOrTrim(s, k)
  {
    if |s| < k {
      assert [0 as byte] + Zeros(k - |s| - 1) == Zeros(k - |s|);
    }
  }

  lemma {:induction false} PadOrTrimMinimal(n: nat, k: nat)
    ensures PadOrTrim(MinimalLe(n), k) == LeBytes(n, k)
    decreases k
  {
    if n == 0 {
      LeBytesOfZero(k);
    } else if k > 0 {
      var m := MinimalLe(n);
      assert m == [(n % 256) as byte] + MinimalLe(n / 256);
      PadOrTrimMinimal(n / 256, k - 1);
      assert PadOrTrim(m, k) == [m[0]] + PadOrTrim(m[1..], k - 1);
    }
  }

  /** Copying ToByteArray(n) into k zero bytes keeps exactly the low k bytes of
      n, so the value read back is n modulo 256^k: a sign byte is dropped and a
      short array is padded, and anything above the k-th byte is lost. */
  lemma PadOrTrimToByteArray(n: nat, k: nat)
    ensures PadOrTrim(ToByteArray(n), k) == LeBytes(n, k)
    ensures LeNat(PadOrTrim(ToByteArray(n), k)) == n % Pow(256, k)
  {
    var m := MinimalLe(n);
    PadOrTrimMinimal(n, k);
    PadOrTrimZeroExtend(m, k);
    LeNatOfLeBytes(n, k);
  }

  /** Array.Reverse(a, index, length). */
  method ReverseRange(a: array<byte>, index: nat, length: nat)
    requires index + length <= a.Length
    modifies a
    ensures a[..] == ReverseSegment(old(a[..]), index, length)
  {
    forall k | index <= k < index + length {
      a[k] := a[2 * index + length - 1 - k];
    }
  }

  /** Array.Copy(source, destination, length). */
  method Copy(source: array<byte>, destination: array<byte>, length: nat)
    requires length <= source.Length && length <= destination.Length
    modifies destination
    ensures destination[..] == old(source[..length]) + old(destination[length..])
  {
    forall k | 0 <= k < length {
      destination[k] := source[k];
    }
  }
}
