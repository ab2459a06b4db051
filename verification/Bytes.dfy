/** Byte strings and their reading as big-endian unsigned numbers. */
module Bytes {

  type Byte = b: int | 0 <= b < 256

  /** 256 to the k-th power: the number of byte strings of length k. */
  function Pow256(k: nat): (p: nat)
    ensures p > 0
  {
    if k == 0 then 1 else 256 * Pow256(k - 1)
  }

  /** The number that a byte string spells, most significant byte first. */
  function ToNat(bs: seq<Byte>): nat {
    if |bs| == 0 then 0 else 256 * ToNat(bs[..|bs| - 1]) + bs[|bs| - 1]
  }

  /** The low `len` bytes of `n`, most significant byte first. */
  function FromNat(n: nat, len: nat): (bs: seq<Byte>)
    ensures |bs| == len
  {
    if len == 0 then [] else FromNat(n / 256, len - 1) + [n % 256]
  }

  function Zeros(n: nat): (bs: seq<Byte>)
    ensures |bs| == n
  {
    seq(n, _ => 0)
  }

  lemma {:induction false} Pow256Add(a: nat, b: nat)
    ensures Pow256(a + b) == Pow256(a) * Pow256(b)
  {
    if a > 0 {
      Pow256Add(a - 1, b);
      assert Pow256(a + b) == 256 * Pow256(a - 1 + b);
      assert (256 * Pow256(a - 1)) * Pow256(b) == 256 * (Pow256(a - 1) * Pow256(b));
    }
  }

  lemma {:induction false} ToNatBound(bs: seq<Byte>)
    ensures ToNat(bs) < Pow256(|bs|)
  {
    if |bs| > 0 {
      ToNatBound(bs[..|bs| - 1]);
    }
  }

  lemma {:induction false} ToNatFromNat(n: nat, len: nat)
    requires n < Pow256(len)
    ensures ToNat(FromNat(n, len)) == n
  {
    if len > 0 {
      ToNatFromNat(n / 256, len - 1);
      assert FromNat(n, len)[..len - 1] == FromNat(n / 256, len - 1);
    }
  }

  lemma LastByte(n: nat, b: Byte)
    ensures (256 * n + b) / 256 == n && (256 * n + b) % 256 == b
  {
  }

  lemma {:induction false} FromNatToNat(bs: seq<Byte>)
    ensures FromNat(ToNat(bs), |bs|) == bs
  {
    if |bs| > 0 {
      LastByte(ToNat(bs[..|bs| - 1]), bs[|bs| - 1]);
      FromNatToNat(bs[..|bs| - 1]);
      assert bs == bs[..|bs| - 1] + [bs[|bs| - 1]];
    }
  }

  lemma MulSwap(x: int, y: int, z: int)
    ensures x * (y * z) == y * (x * z)
  {
  }

  lemma {:induction false} ToNatConcat(a: seq<Byte>, b: seq<Byte>)
    ensures ToNat(a + b) == ToNat(a) * Pow256(|b|) + ToNat(b)
  {
    if |b| == 0 {
      assert a + b == a;
    } else {
      var b' := b[..|b| - 1];
      assert (a + b)[..|a + b| - 1] == a + b';
      ToNatConcat(a, b');
      MulSwap(256, ToNat(a), Pow256(|b'|));
    }
  }

  lemma {:induction false} ToNatZeros(n: nat)
    ensures ToNat(Zeros(n)) == 0
  {
    if n > 0 {
      assert Zeros(n)[..n - 1] == Zeros(n - 1);
      ToNatZeros(n - 1);
    }
  }

  /** Leading zero bytes do not change the number. */
  lemma ToNatPadLeft(n: nat, bs: seq<Byte>)
    ensures ToNat(Zeros(n) + bs) == ToNat(bs)
  {
    ToNatConcat(Zeros(n), bs);
    ToNatZeros(n);
  }

  /** A two-part number prints as the print of its high part followed by the print of its low part. */
  lemma FromNatSplit(hi: nat, lo: nat, m: nat, k: nat)
    requires hi < Pow256(m) && lo < Pow256(k)
    ensures hi * Pow256(k) + lo < Pow256(m + k)
    ensures FromNat(hi * Pow256(k) + lo, m + k) == FromNat(hi, m) + FromNat(lo, k)
  {
    var bs := FromNat(hi, m) + FromNat(lo, k);
    ToNatConcat(FromNat(hi, m), FromNat(lo, k));
    ToNatFromNat(hi, m);
    ToNatFromNat(lo, k);
    assert ToNat(bs) == hi * Pow256(k) + lo;
    ToNatBound(bs);
    FromNatToNat(bs);
  }

  lemma {:induction false} MulStep(a: int, b: int, w: nat)
    requires a < b
    ensures a * w + w <= b * w
    decreases b - a
  {
    assert b * w == (b - 1) * w + w;
    if a < b - 1 {
      MulStep(a, b - 1, w);
    }
  }

  lemma QuotientUnique(q: int, r: int, hi: int, lo: int, w: nat)
    requires 0 <= r < w && 0 <= lo < w && q * w + r == hi * w + lo
    ensures q == hi && r == lo
  {
    if q < hi {
      MulStep(q, hi, w);
    } else if hi < q {
      MulStep(hi, q, w);
    }
  }

  /** Division and remainder by the weight of the low part split a number back into its parts. */
  lemma DivModParts(hi: nat, lo: nat, w: nat)
    requires lo < w
    ensures (hi * w + lo) / w == hi
    ensures (hi * w + lo) % w == lo
  {
    var n := hi * w + lo;
    assert n == (n / w) * w + n % w;
    QuotientUnique(n / w, n % w, hi, lo, w);
  }
}
