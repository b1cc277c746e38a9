/** The 64-bit floating word as the two 32-bit halves the arithmetic works on, and the shift, add and
    compare operations on halves. Each operation's contract says what it does to the 64-bit number. */
module FpWord {
  import opened Arith

  type u32 = x: int | 0 <= x < 0x1_0000_0000

  datatype Fpac = Fpac(h: u32, l: u32)

  function Val(f: Fpac): nat {
    f.h * TWO_32 + f.l
  }

  const ZERO_FAC := Fpac(0, 0)

  // Fields of the packed word: sign, excess-128 exponent, fraction without its hidden bit.

  predicate Negative(f: Fpac) {
    f.h >= TWO_31
  }

  function Exponent(f: Fpac): (e: nat)
    ensures e < 256
  {
    f.h / TWO_23 % 256
  }

  /** The packed word without its sign bit. */
  function Unsigned(f: Fpac): nat {
    f.h % TWO_31 * TWO_32 + f.l
  }

  /** The 56-bit fraction with its hidden bit. */
  function Fraction(f: Fpac): (r: nat)
    ensures TWO_55 <= r < TWO_56
  {
    (f.h % TWO_23 + TWO_23) * TWO_32 + f.l
  }

  // ---- the number under each half-word operation --------------------------------

  lemma AddHalves(s2: Fpac, s1: Fpac)
    ensures var l := (s1.l + s2.l) % TWO_32;
            var h := (s1.h + s2.h + if l < s2.l then 1 else 0) % TWO_32;
            h * TWO_32 + l == (Val(s1) + Val(s2)) % TWO_64
  {
    Wrap(s1.l + s2.l, TWO_32);
    var l := (s1.l + s2.l) % TWO_32;
    var c := if l < s2.l then 1 else 0;
    assert s1.l + s2.l == c * TWO_32 + l;
    Wrap(s1.h + s2.h + c, TWO_32);
    Wrap(Val(s1) + Val(s2), TWO_64);
  }

  lemma SubHalves(s2: Fpac, s1: Fpac)
    ensures var h := (s1.h - s2.h - if s1.l < s2.l then 1 else 0) % TWO_32;
            h * TWO_32 + (s1.l - s2.l) % TWO_32 == (Val(s1) - Val(s2)) % TWO_64
  {
    Wrap(s1.l - s2.l, TWO_32);
    var c := if s1.l < s2.l then 1 else 0;
    Wrap(s1.h - s2.h - c, TWO_32);
    Wrap(Val(s1) - Val(s2), TWO_64);
  }

  lemma Complement(n: nat)
    requires n <= 32
    ensures Pow2(n) * Pow2(32 - n) == Pow2(32 - n) * Pow2(n) == TWO_32
  {
    Pow2Add(n, 32 - n);
    Pow2Constants();
  }

  /** A half times 2^(32-n) splits at the word boundary exactly where the half splits at bit n. */
  lemma SplitHalf(h: nat, n: nat)
    requires n <= 32
    ensures h * Pow2(32 - n) / TWO_32 == h / Pow2(n)
    ensures h * Pow2(32 - n) % TWO_32 == h % Pow2(n) * Pow2(32 - n)
  {
    var p, c := Pow2(n), Pow2(32 - n);
    Complement(n);
    SplitProduct(h, p, c);
  }

  lemma SplitProduct(h: nat, p: nat, c: nat)
    requires p > 0 && c > 0
    ensures p * c > 0
    ensures h * c / (p * c) == h / p
    ensures h * c % (p * c) == h % p * c
  {
    var q, m := h / p, h % p;
    DivBounds(h, p);
    assert h == q * p + m;
    assert (q * p + m) * c == q * (p * c) + m * c;
    MulMonotone(m + 1, p, c);
    assert (m + 1) * c == m * c + c;
    ModUnique(h * c, p * c, q, m * c);
  }

  lemma BoundQuotient(x: nat, p: nat, c: nat)
    requires p > 0 && x < p * c
    ensures x / p < c
  {
    DivBounds(x, p);
    MulMonotone(c, x / p, p);
  }

  lemma NonNegativeQuotient(x: nat, p: nat)
    requires p > 0
    ensures 0 <= x / p <= x
  {
    var q, m := x / p, x % p;
    assert x == q * p + m;
    MulMonotone(1, p, q);
  }

  /** The high part of a half shifted right by n has 32 - n bits, so C's mask keeps all of it. */
  lemma MaskIdle(x: u32, n: nat)
    requires n <= 32
    ensures x / Pow2(n) < Pow2(32 - n) <= TWO_32
    ensures x / Pow2(n) % Pow2(32 - n) == x / Pow2(n)
  {
    Complement(n);
    BoundQuotient(x, Pow2(n), Pow2(32 - n));
    MulMonotone(1, Pow2(n), Pow2(32 - n));
    NonNegativeQuotient(x, Pow2(n));
    Wrap(x / Pow2(n), Pow2(32 - n));
  }

  /** The bits leaving the high half fit above the bits staying in the low half. */
  lemma RightJoin(h: u32, l: u32, n: nat)
    requires n <= 32
    ensures l / Pow2(n) + h * Pow2(32 - n) % TWO_32 < TWO_32
    ensures (h * TWO_32 + l) / Pow2(n) == h / Pow2(n) * TWO_32 + (l / Pow2(n) + h * Pow2(32 - n) % TWO_32)
  {
    var p, c := Pow2(n), Pow2(32 - n);
    Complement(n);
    RightJoinProduct(h, l, p, c);
    SplitHalf(h, n);
  }

  lemma RightJoinProduct(h: nat, l: nat, p: nat, c: nat)
    requires p > 0 && c > 0 && l < p * c
    ensures l / p + h % p * c < p * c
    ensures (h * (p * c) + l) / p == h / p * (p * c) + (l / p + h % p * c)
  {
    BoundQuotient(l, p, c);
    MulMonotone(h % p + 1, p, c);
    assert (h % p + 1) * c == h % p * c + c;
    assert h * (p * c) == h * c * p;
    DivShift(l, h * c, p);
    assert h * c == h / p * (p * c) + h % p * c by {
      DivBounds(h, p);
      assert h == h / p * p + h % p;
      assert (h / p * p + h % p) * c == h / p * (p * c) + h % p * c;
    }
  }

  lemma LeftJoin(h: u32, l: u32, n: nat)
    requires n <= 32
    ensures var hi := h * Pow2(n) % TWO_32 + l / Pow2(32 - n);
            hi < TWO_32 && (h * TWO_32 + l) * Pow2(n) % TWO_64 == hi * TWO_32 + l * Pow2(n) % TWO_32
  {
    var p, c := Pow2(n), Pow2(32 - n);
    Complement(n);
    assert c * p * (c * p) == TWO_64;
    LeftJoinProduct(h, l, p, c);
    assert h * p % (c * p) == h % c * p by { SplitProduct(h, c, p); }
    assert l * p % (c * p) == l % c * p by { SplitProduct(l, c, p); }
  }

  lemma LeftJoinProduct(h: nat, l: nat, p: nat, c: nat)
    requires p > 0 && c > 0 && l < c * p
    ensures var hi := h % c * p + l / c;
            hi < c * p && (h * (c * p) + l) * p % (c * p * (c * p)) == hi * (c * p) + l % c * p
  {
    var w := c * p;
    BoundQuotient(l, c, p);
    ScaledRemainder(h, c, p);
    ScaledRemainder(l, c, p);
    SplitProduct(h, c, p);
    SplitProduct(l, c, p);
    LeftJoinSum(h * p, l * p, h / c, h % c * p, l / c, l % c * p, w);
    Distribute(h, w, l, p);
  }

  lemma Distribute(h: int, w: int, l: int, p: int)
    ensures (h * w + l) * p == h * p * w + l * p
  {
  }

  lemma ScaledRemainder(x: nat, c: nat, p: nat)
    requires c > 0
    ensures 0 <= x % c * p && x % c * p + p <= c * p
  {
    MulMonotone(x % c + 1, c, p);
    MulMonotone(0, x % c, p);
    assert (x % c + 1) * p == x % c * p + p;
  }

  lemma LeftJoinSum(hp: int, lp: int, qh: int, mh: int, ql: int, lo: int, w: int)
    requires w > 0 && 0 <= lo < w && 0 <= mh + ql < w
    requires hp / w == qh && hp % w == mh && lp / w == ql && lp % w == lo
    ensures w * w > 0 && (hp * w + lp) % (w * w) == (mh + ql) * w + lo
  {
    assert hp == qh * w + mh && lp == ql * w + lo;
    assert (qh * w + mh) * w == qh * (w * w) + mh * w;
    MulMonotone(mh + ql + 1, w, w);
    MulMonotone(0, mh + ql, w);
    assert (mh + ql + 1) * w == (mh + ql) * w + w;
    assert mh * w + ql * w == (mh + ql) * w;
    ModUnique(hp * w + lp, w * w, qh, (mh + ql) * w + lo);
  }

  lemma HighOnly(h: u32, l: u32, n: nat)
    ensures (h * TWO_32 + l) / Pow2(n + 32) == h / Pow2(n)
  {
    Pow2Constants();
    Pow2Add(32, n);
    DivDiv(h * TWO_32 + l, TWO_32, Pow2(n));
    DivShift(l, h, TWO_32);
    ModUnique(l, TWO_32, 0, l);
  }

  lemma LowOnly(h: u32, l: u32, n: nat)
    ensures (h * TWO_32 + l) * Pow2(n + 32) % TWO_64 == l * Pow2(n) % TWO_32 * TWO_32
  {
    Pow2Constants();
    Pow2Add(n, 32);
    LowOnlyProduct(h, l, Pow2(n), TWO_32);
  }

  lemma LowOnlyProduct(h: int, l: int, p: int, w: int)
    requires w > 0
    ensures w * w > 0 && (h * w + l) * (p * w) % (w * w) == l * p % w * w
  {
    Distribute(h, w, l, p * w);
    MulAssoc(h, p, w);
    MulAssoc(h * p, w, w);
    MulAssoc(l, p, w);
    ScaledProduct(l * p, w);
    DropMultiple(l * p * w, h * p, w * w);
  }

  lemma ScaledProduct(c: int, w: int)
    requires w > 0
    ensures w * w > 0 && c * w % (w * w) == c % w * w
  {
    var q, m := c / w, c % w;
    assert c == q * w + m;
    Distribute(q, w, m, w);
    MulAssoc(q, w, w);
    MulMonotone(m + 1, w, w);
    assert (m + 1) * w == m * w + w;
    MulMonotone(0, m, w);
    ModUnique(c * w, w * w, q, m * w);
  }

  lemma DropMultiple(n: int, k: int, d: int)
    requires d > 0
    ensures (k * d + n) % d == n % d
  {
    assert n == n / d * d + n % d;
    assert (k + n / d) * d == k * d + n / d * d;
    ModUnique(k * d + n, d, k + n / d, n % d);
  }

  // ---- the operations -----------------------------------------------------------

  /** s1 + s2, with the carry read off the wrapped low half. */
  function FAdd(s2: Fpac, s1: Fpac): (ds: Fpac)
    ensures Val(ds) == (Val(s1) + Val(s2)) % TWO_64
  {
    AddHalves(s2, s1);
    var l := (s1.l + s2.l) % TWO_32;
    Fpac((s1.h + s2.h + if l < s2.l then 1 else 0) % TWO_32, l)
  }

  /** s1 - s2, with the borrow decided before the low half is written. */
  function FSub(s2: Fpac, s1: Fpac): (ds: Fpac)
    ensures Val(ds) == (Val(s1) - Val(s2)) % TWO_64
  {
    SubHalves(s2, s1);
    Fpac((s1.h - s2.h - if s1.l < s2.l then 1 else 0) % TWO_32, (s1.l - s2.l) % TWO_32)
  }

  predicate FLt(x: Fpac, y: Fpac)
    ensures FLt(x, y) <==> Val(x) < Val(y)
  {
    x.h < y.h || (x.h == y.h && x.l < y.l)
  }

  /** Compare magnitudes: sign bits masked off. */
  predicate FLtAp(x: Fpac, y: Fpac)
    ensures FLtAp(x, y) <==> Unsigned(x) < Unsigned(y)
  {
    x.h % TWO_31 < y.h % TWO_31 || (x.h % TWO_31 == y.h % TWO_31 && x.l < y.l)
  }

  function FGetFrac(sr: Fpac): (ds: Fpac)
    ensures Val(ds) == Fraction(sr)
  {
    Fpac(sr.h % TWO_23 + TWO_23, sr.l)
  }

  /** Logical right shift by 1..63, in two cases on whether the high half survives. */
  function FRshV(sr: Fpac, n: nat): (ds: Fpac)
    requires 1 <= n <= 63
    ensures Val(ds) == Val(sr) / Pow2(n)
  {
    if n >= 32 then
      HighOnly(sr.h, sr.l, n - 32);
      MaskIdle(sr.h, n - 32);
      Fpac(0, sr.h / Pow2(n - 32) % Pow2(64 - n))
    else
      FRshK(sr, n)
  }

  /** Left shift by 1..63; bits pushed past bit 63 are lost. */
  function FLshV(sr: Fpac, n: nat): (ds: Fpac)
    requires 1 <= n <= 63
    ensures Val(ds) == Val(sr) * Pow2(n) % TWO_64
  {
    if n >= 32 then
      LowOnly(sr.h, sr.l, n - 32);
      Fpac(sr.l * Pow2(n - 32) % TWO_32, 0)
    else
      FLshK(sr, n)
  }

  /** Left shift by a constant below 32. */
  function FLshK(sr: Fpac, n: nat): (ds: Fpac)
    requires 1 <= n <= 31
    ensures Val(ds) == Val(sr) * Pow2(n) % TWO_64
  {
    LeftJoin(sr.h, sr.l, n);
    MaskIdle(sr.l, 32 - n);
    Fpac(sr.h * Pow2(n) % TWO_32 + sr.l / Pow2(32 - n) % Pow2(n), sr.l * Pow2(n) % TWO_32)
  }

  /** Right shift by a constant below 32. */
  function FRshK(sr: Fpac, n: nat): (ds: Fpac)
    requires 1 <= n <= 31
    ensures Val(ds) == Val(sr) / Pow2(n)
  {
    RightJoin(sr.h, sr.l, n);
    MaskIdle(sr.h, n);
    MaskIdle(sr.l, n);
    Fpac(sr.h / Pow2(n) % Pow2(32 - n), sr.l / Pow2(n) % Pow2(32 - n) + sr.h * Pow2(32 - n) % TWO_32)
  }

  function FLsh1(ds: Fpac): (r: Fpac)
    ensures Val(r) == Val(ds) * 2 % TWO_64
  {
    assert Pow2(1) == 2;
    Pow2Constants();
    LeftJoin(ds.h, ds.l, 1);
    MaskIdle(ds.l, 31);
    Fpac(ds.h * 2 % TWO_32 + ds.l / TWO_31 % 2, ds.l * 2 % TWO_32)
  }

  function FRsh1(ds: Fpac): (r: Fpac)
    ensures Val(r) == Val(ds) / 2
  {
    assert Pow2(1) == 2;
    Pow2Constants();
    RightJoin(ds.h, ds.l, 1);
    MaskIdle(ds.h, 1);
    MaskIdle(ds.l, 1);
    SplitHalf(ds.h, 1);
    Fpac(ds.h / 2 % TWO_31, ds.l / 2 % TWO_31 + ds.h % 2 * TWO_31)
  }

  predicate GetBit(x: nat, n: nat) {
    x / Pow2(n) % 2 == 1
  }

  /** Bits lo .. lo+n-1 of a half: the test `h & (mask << lo)`. */
  function Bits(x: nat, lo: nat, n: nat): nat {
    x / Pow2(lo) % Pow2(n)
  }
}
