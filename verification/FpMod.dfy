/** MODf: the product split into an integer and a fraction by bit masks. */
module FpMod {
  import opened Arith
  import opened FpWord
  import opened FpPack
  import opened FpMul
  import opened FpAdd

  // ---- bitwise and on halves --------------------------------------------------------------------

  function BitAnd(x: nat, y: nat): (r: nat)
    ensures r <= x && r <= y
  {
    if x == 0 || y == 0 then 0 else 2 * BitAnd(x / 2, y / 2) + if x % 2 == 1 && y % 2 == 1 then 1 else 0
  }

  /** x & ~y */
  function BitAndNot(x: nat, y: nat): (r: nat)
    ensures r <= x
  {
    if x == 0 then 0 else 2 * BitAndNot(x / 2, y / 2) + if x % 2 == 1 && y % 2 == 0 then 1 else 0
  }

  /** A mask and its complement partition the bits of x. */
  lemma {:induction false} MasksPartition(x: nat, y: nat)
    ensures BitAnd(x, y) + BitAndNot(x, y) == x
  {
    if x != 0 {
      MasksPartition(x / 2, y / 2);
      if y == 0 {
        assert BitAnd(x / 2, 0) == 0;
      }
    }
  }

  /** A mask of n low ones takes the remainder modulo 2^n. */
  lemma {:induction false} AndLowMask(x: nat, n: nat)
    ensures BitAnd(x, Pow2(n) - 1) == x % Pow2(n)
  {
    if n == 0 {
      assert Pow2(0) == 1;
    } else {
      var p := Pow2(n - 1);
      assert Pow2(n) == 2 * p;
      assert (2 * p - 1) / 2 == p - 1 && (2 * p - 1) % 2 == 1;
      AndLowMask(x / 2, n - 1);
      HalfRemainder(x, p);
    }
  }

  lemma HalfRemainder(x: nat, p: nat)
    requires p > 0
    ensures x % (2 * p) == 2 * (x / 2 % p) + x % 2
  {
    var h, b := x / 2, x % 2;
    var q, m := h / p, h % p;
    assert x == 2 * h + b && h == q * p + m;
    assert 2 * (q * p) == q * (2 * p);
    ModUnique(x, 2 * p, q, 2 * m + b);
  }

  /** How a mask of j ones falls across the halves. */
  lemma MaskWord(m: Fpac, j: nat)
    requires j <= 59 && Val(m) == Pow2(j) - 1
    ensures if j >= 32 then m.h == Pow2(j - 32) - 1 && m.l == TWO_32 - 1 else m.h == 0 && m.l == Pow2(j) - 1
  {
    Pow2Constants();
    HalvesOf(m);
    if j >= 32 {
      Pow2Add(j - 32, 32);
      hide Pow2, Val;
      ModUnique(Val(m), TWO_32, Pow2(j - 32) - 1, TWO_32 - 1);
    } else {
      Pow2Monotone(j, 32);
      hide Pow2, Val;
      ModUnique(Val(m), TWO_32, 0, Pow2(j) - 1);
    }
  }

  /** The halves of what v leaves over multiples of p. */
  predicate Remains(h: nat, l: nat, v: nat, p: nat)
    requires p > 0
  {
    h * TWO_32 + l == v % p
  }

  /** Anding both halves with the mask takes the remainder of the whole number. */
  lemma AndHalves(x: Fpac, m: Fpac, j: nat)
    requires j <= 59 && Val(m) == Pow2(j) - 1
    ensures Remains(BitAnd(x.h, m.h), BitAnd(x.l, m.l), Val(x), Pow2(j))
  {
    hide BitAnd, Pow2, Val, Remains;
    MaskWord(m, j);
    if j >= 32 {
      AndHigh(x, j - 32);
    } else {
      AndLow(x, j);
    }
  }

  lemma AndHigh(x: Fpac, n: nat)
    ensures Remains(BitAnd(x.h, Pow2(n) - 1), BitAnd(x.l, TWO_32 - 1), Val(x), Pow2(n + 32))
  {
    Pow2Constants();
    Pow2Add(n, 32);
    hide Pow2, BitAnd;
    AndLowMask(x.h, n);
    AndLowMask(x.l, 32);
    HighRemainder(x.h, x.l, Pow2(n));
  }

  lemma AndLow(x: Fpac, j: nat)
    requires j < 32
    ensures Remains(BitAnd(x.h, 0), BitAnd(x.l, Pow2(j) - 1), Val(x), Pow2(j))
  {
    Complement(j);
    hide Pow2, BitAnd;
    AndLowMask(x.l, j);
    LowRemainder(x.h, x.l, Pow2(j), Pow2(32 - j));
  }

  lemma HighRemainder(h: nat, l: nat, p: nat)
    requires p > 0 && l < TWO_32
    ensures (h * TWO_32 + l) % (p * TWO_32) == h % p * TWO_32 + l % TWO_32
  {
    var q, m := h / p, h % p;
    assert h == q * p + m;
    assert q * p * TWO_32 == q * (p * TWO_32);
    ModUnique(l, TWO_32, 0, l);
    ModUnique(h * TWO_32 + l, p * TWO_32, q, m * TWO_32 + l);
  }

  lemma LowRemainder(h: nat, l: nat, p: nat, c: nat)
    requires p > 0 && p * c == TWO_32
    ensures (h * TWO_32 + l) % p == l % p
  {
    assert h * (p * c) == h * c * p;
    DropMultiple(l, h * c, p);
  }

  // ---- the split -----------------------------------------------------------------------------------

  /** Integer part, fraction part, V and exception code. */
  datatype ModResult = ModResult(whole: Fpac, frac: Fpac, v: bool, fec: nat)

  /** The largest exponent at which a fraction can remain. */
  function SplitLimit(dbl: bool): int {
    if dbl then 184 else 152
  }

  /** The part of a normalised product below the binary point, as guard bits of the product. */
  function BelowPoint(e: int, g: nat): nat
    requires 129 <= e <= 184
  {
    g % Pow2(187 - e)
  }

  function FractionSpec(neg: bool, m: nat, k: nat, fps: nat): Fpac
    requires m == 0 || 0 < m * Pow2(k) < TWO_59
  {
    if m == 0 then ZERO_FAC
    else
      var (e', m') := Normalise(128, m * Pow2(k));
      RoundPack(neg, e', m', true, fps).fac
  }

  lemma BelowPointRange(e: int, g: nat)
    requires 129 <= e <= 184 && TWO_58 <= g < TWO_59
    ensures var m, k := BelowPoint(e, g), e - 128;
            && 0 <= m * Pow2(k) < TWO_59 && (m > 0 ==> m * Pow2(k) > 0)
            && TWO_58 <= g - m < TWO_59
  {
    var p, k := Pow2(187 - e), e - 128;
    Pow2Constants();
    Pow2Add(187 - e, k);
    Pow2Add(187 - e, k - 1);
    hide Pow2;
    var m := g % p;
    MulMonotone(m + 1, p, Pow2(k));
    assert (m + 1) * Pow2(k) == m * Pow2(k) + Pow2(k);
    MulMonotone(1, m, Pow2(k));
    KeepsTop(g, p, Pow2(k - 1));
  }

  /** Clearing bits below the point keeps the hidden bit. */
  lemma KeepsTop(g: nat, p: nat, c: nat)
    requires p > 0 && p * c == TWO_58 <= g
    ensures g - g % p >= TWO_58
  {
    assert g == g / p * p + g % p;
    assert p * c == 0 + c * p;
    DivShift(0, c, p);
    DivMonotone(p * c, g, p);
    MulMonotone(c, g / p, p);
  }

  function ModSpec(fac: Fpac, fsrc: Fpac, fps: nat): ModResult {
    if Exponent(fac) == 0 || Exponent(fsrc) == 0 then ModResult(ZERO_FAC, ZERO_FAC, false, 0)
    else
      ProductRange(Fraction(fac), Fraction(fsrc));
      var neg := Negative(fac) != Negative(fsrc);
      var (e, g) := Normalised(Exponent(fac) + Exponent(fsrc) - 128, FracProduct(Fraction(fac), Fraction(fsrc)));
      SplitSpec(neg, e, g, fps)
  }

  /** All fraction, all integer, or both. */
  function SplitSpec(neg: bool, e: int, g: nat, fps: nat): ModResult
    requires TWO_58 <= g < TWO_59
  {
    if e <= 128 then
      var r := RoundPack(neg, e, g, true, fps);
      ModResult(ZERO_FAC, r.fac, r.v, r.fec)
    else if e > SplitLimit(Double(fps)) then
      var r := RoundPack(neg, e, g, false, fps);
      ModResult(r.fac, ZERO_FAC, r.v, r.fec)
    else
      BelowPointRange(e, g);
      var m := BelowPoint(e, g);
      var r := RoundPack(neg, e, g - m, false, fps);
      ModResult(r.fac, FractionSpec(neg, m, e - 128, fps), r.v, r.fec)
  }

  method ModFp11(fac: Fpac, fsrc: Fpac, fps: nat) returns (whole: Fpac, frac: Fpac, v: bool, fec: nat)
    ensures ModResult(whole, frac, v, fec) == ModSpec(fac, fsrc, fps)
  {
    hide Fraction, FracProduct, FLsh1, SplitSpec, FGetFrac;
    var facexp: int, fsrcexp: int := Exponent(fac), Exponent(fsrc);
    if facexp == 0 || fsrcexp == 0 {
      return ZERO_FAC, ZERO_FAC, false, 0;
    }
    ProductRange(Fraction(fac), Fraction(fsrc));
    var facfrac := FracMulFp11(FGetFrac(fac), FGetFrac(fsrc));
    facexp := facexp + fsrcexp - 128;
    HiddenBit(facfrac);
    if !GetBit(facfrac.h, 26) {
      Wrap(Val(facfrac) * 2, TWO_64);
      facfrac := FLsh1(facfrac);
      facexp := facexp - 1;
    }
    whole, frac, v, fec := SplitProduct(SignOf(fac, fsrc), facexp, facfrac, fps);
  }

  method SplitProduct(sign: Fpac, facexp: int, facfrac: Fpac, fps: nat)
    returns (whole: Fpac, frac: Fpac, v: bool, fec: nat)
    requires TWO_58 <= Val(facfrac) < TWO_59
    ensures ModResult(whole, frac, v, fec) == SplitSpec(Negative(sign), facexp, Val(facfrac), fps)
  {
    hide RoundPack, BelowPoint, FractionSpec;
    if facexp <= 128 {
      whole := ZERO_FAC;
      frac, v, fec := RoundAndPack(sign, facexp, facfrac, true, fps);
    } else if facexp > SplitLimit(Double(fps)) {
      frac := ZERO_FAC;
      whole, v, fec := RoundAndPack(sign, facexp, facfrac, false, fps);
    } else {
      BelowPointRange(facexp, Val(facfrac));
      var fracpart, intpart := MaskSplit(facfrac, facexp);
      frac := FractionPart(sign, fracpart, facexp - 128, fps);
      whole, v, fec := RoundAndPack(sign, facexp, intpart, false, fps);
    }
  }

  const FRACTION_MASK := Fpac(0x7FF_FFFF, 0xFFFF_FFFF)

  lemma MaskValue(k: nat)
    requires 1 <= k <= 56
    ensures Val(FRshV(FRACTION_MASK, k)) == Pow2(59 - k) - 1
  {
    Pow2Constants();
    Pow2Add(59 - k, k);
    hide Pow2, FRshV;
    OnesShifted(Pow2(59 - k), Pow2(k));
  }

  lemma OnesShifted(p: nat, c: nat)
    requires c > 0
    ensures (p * c - 1) / c == p - 1
  {
    assert (p - 1) * c == p * c - c;
    DivUnique(p * c - 1, c, p - 1);
  }

  lemma MaskedParts(x: Fpac, m: Fpac, j: nat)
    requires j <= 59 && Val(m) == Pow2(j) - 1
    ensures Val(Fpac(BitAnd(x.h, m.h), BitAnd(x.l, m.l))) == Val(x) % Pow2(j)
    ensures Val(Fpac(BitAndNot(x.h, m.h), BitAndNot(x.l, m.l))) == Val(x) - Val(x) % Pow2(j)
  {
    AndHalves(x, m, j);
    MasksPartition(x.l, m.l);
    MasksPartition(x.h, m.h);
    hide BitAnd, BitAndNot, Pow2;
  }

  method MaskSplit(facfrac: Fpac, facexp: int) returns (frac: Fpac, whole: Fpac)
    requires 129 <= facexp <= 184 && TWO_58 <= Val(facfrac) < TWO_59
    ensures Val(frac) == BelowPoint(facexp, Val(facfrac))
    ensures Val(whole) == Val(facfrac) - BelowPoint(facexp, Val(facfrac))
  {
    MaskValue(facexp - 128);
    assert 59 - (facexp - 128) == 187 - facexp;
    hide BitAnd, BitAndNot, FRshV, Val, Pow2;
    var fmask := FRshV(FRACTION_MASK, facexp - 128);
    MaskedParts(facfrac, fmask, 187 - facexp);
    frac := Fpac(BitAnd(facfrac.h, fmask.h), BitAnd(facfrac.l, fmask.l));
    whole := Fpac(BitAndNot(facfrac.h, fmask.h), BitAndNot(facfrac.l, fmask.l));
  }

  method FractionPart(sign: Fpac, fracpart: Fpac, k: nat, fps: nat) returns (frac: Fpac)
    requires 1 <= k <= 56 && Val(fracpart) < TWO_59 && 0 <= Val(fracpart) * Pow2(k) < TWO_59
    requires Val(fracpart) > 0 ==> Val(fracpart) * Pow2(k) > 0
    ensures frac == FractionSpec(Negative(sign), Val(fracpart), k, fps)
  {
    if fracpart.h == 0 && fracpart.l == 0 {
      return ZERO_FAC;
    }
    Wrap(Val(fracpart) * Pow2(k), TWO_64);
    hide Pow2, FLshV, RoundPack, Normalise;
    var shifted := FLshV(fracpart, k);
    var exp: int;
    shifted, exp := NormaliseByLadder(shifted, 128);
    var v, fec;
    frac, v, fec := RoundAndPack(sign, exp, shifted, true, fps);
  }
}
