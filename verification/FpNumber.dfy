/** The number a 64-bit accumulator stands for, read straight off its bits, and what it is for one to hold a real
    rounded once. The unpacked halves the routines work on appear here only to be related to it. */
module FpNumber {
  import opened Arith
  import opened FpWord
  import opened FpValue
  import opened FpPack
  import opened FpAddValue
  import opened FpSubValue

  const TWO_63: nat := 0x8000_0000_0000_0000

  /** Bits of the floating status register: 10 and 9 enable the underflow and overflow traps, 8 the conversion trap,
      7 is double precision, 6 long integers, 5 truncation. */
  predicate Status(fps: nat, bit: nat)
    requires bit < 16
  {
    fps / Pow2(bit) % 2 == 1
  }

  lemma StatusBits(fps: nat)
    ensures Truncating(fps) <==> Status(fps, 5)
    ensures (Long(fps) <==> Status(fps, 6)) && (Double(fps) <==> Status(fps, 7))
    ensures FpsBit(fps, FPS_IC) <==> Status(fps, 8)
    ensures (FpsBit(fps, FPS_IV) <==> Status(fps, 9)) && (FpsBit(fps, FPS_IU) <==> Status(fps, 10))
  {
    assert Pow2(5) == 0x20 && Pow2(6) == 0x40 && Pow2(7) == 0x80 by {
      assert Pow2(5) == 2 * Pow2(4);
    }
    assert Pow2(8) == 0x100 && Pow2(9) == 0x200 && Pow2(10) == 0x400 by {
      assert Pow2(8) == 2 * Pow2(7) && Pow2(10) == 2 * Pow2(9);
    }
  }

  // ---- a word as a number ------------------------------------------------------------------------------------------

  /** Sign, excess-128 exponent and 55 fraction bits below a leading one that is left out; an exponent of zero is
      zero. */
  function Scientific(neg: bool, e: nat, f: nat): real {
    var m := if e == 0 then 0.0 else (1.0 + f as real / TWO_55 as real) * P2(e - 129);
    if neg then -m else m
  }

  /** The sign is bit 63, the exponent bits 62 to 55, and of the fraction a single has the upper 23 bits only. */
  function Number(v: u64, dbl: bool): real {
    var f := v % TWO_55;
    Scientific(v >= TWO_63, v / TWO_55 % 256, if dbl then f else f - f % TWO_32)
  }

  /** The fields of a word are those of its halves. */
  lemma Fields(f: Fpac)
    ensures FromFac(f) >= TWO_63 <==> Negative(f)
    ensures FromFac(f) / TWO_55 % 256 == Exponent(f) && FromFac(f) % TWO_55 == Fraction(f) - TWO_55
    ensures FromFac(f) % TWO_55 / TWO_32 == f.h % TWO_23 && FromFac(f) % TWO_32 == f.l
  {
    WordFields(f);
    var s := if Negative(f) then 1 else 0;
    var m := f.h % TWO_23 * TWO_32 + f.l;
    assert FromFac(f) == (s * 256 + Exponent(f)) * TWO_55 + m;
    hide Exponent, Fraction, Negative;
    ModUnique(FromFac(f), TWO_55, s * 256 + Exponent(f), m);
    ModUnique(s * 256 + Exponent(f), 256, s, Exponent(f));
    ModUnique(m, TWO_32, f.h % TWO_23, f.l);
    ModUnique(FromFac(f), TWO_32, f.h, f.l);
  }

  /** f units of 2^e. */
  function Units(f: nat, e: int): real { f as real * P2(e) }

  lemma Scaled(neg: bool, e: nat, f: nat)
    requires e != 0
    ensures var m := Units(TWO_55 + f, e - 184); Scientific(neg, e, f) == if neg then -m else m
  {
    FiftyFivePlaces(e);
    hide P2;
    OverAndBack(f as real, TWO_55 as real, P2(e - 184));
  }

  lemma FiftyFivePlaces(e: int)
    ensures P2(e - 129) == P2(e - 184) * TWO_55 as real
  {
    Pow2Constants();
    assert Pow2(56) == 2 * Pow2(55);
    P2AddNat(e - 184, 55);
    hide P2, Pow2;
  }

  lemma OverAndBack(f: real, d: real, u: real)
    requires d > 0.0
    ensures (1.0 + f / d) * (u * d) == (d + f) * u
  {
    var q := f / d;
    assert q * d == f;
    assert (1.0 + q) * (u * d) == u * d + q * d * u;
  }

  lemma ScientificValue(f: Fpac)
    ensures Value(f) == Scientific(Negative(f), Exponent(f), Fraction(f) - TWO_55)
  {
    if Exponent(f) != 0 {
      Scaled(Negative(f), Exponent(f), Fraction(f) - TWO_55);
    }
    hide P2, Fraction, Exponent;
  }

  /** What the unpacked halves stand for is what the word stands for. */
  lemma NumberOf(f: Fpac, dbl: bool)
    ensures Number(FromFac(f), dbl) == Value(if dbl then f else Fpac(f.h, 0))
  {
    Fields(f);
    HighFields(f);
    ScientificValue(if dbl then f else Fpac(f.h, 0));
    hide Value, Scientific, Fraction, Exponent, Negative, FromFac;
  }

  lemma HighFields(f: Fpac)
    ensures var g, m := Fpac(f.h, 0), Fraction(f) - TWO_55;
            Negative(g) == Negative(f) && Exponent(g) == Exponent(f) && Fraction(g) - TWO_55 == m - m % TWO_32
  {
    ModUnique(Fraction(f) - TWO_55, TWO_32, f.h % TWO_23, f.l);
  }

  /** Unpacking an operand keeps the number it stands for in its precision. */
  lemma NumberRead(v: u64, fps: nat)
    ensures Number(v, Status(fps, 7)) == Value(ToFac(v, fps))
  {
    StatusBits(fps);
    var f := Fpac(v / TWO_32, v % TWO_32);
    DivBounds(v, TWO_32);
    assert FromFac(f) == v;
    hide Pow2;
    NumberOf(f, Double(fps));
  }

  // ---- a rounded real in a word ------------------------------------------------------------------------------------

  /** The word holds this sign, the exponent modulo 256, and a fraction of n places, leading one included. */
  predicate Packs(r: u64, dbl: bool, neg: bool, e: int, n: nat) {
    && (r >= TWO_63 <==> neg) && r / TWO_55 % 256 == e % 256
    && n == if dbl then r % TWO_55 + TWO_55 else r % TWO_55 / TWO_32 + TWO_23
  }

  /** What a number with exponent e and fraction n leaves: itself; or, out of range, with the trap for it enabled its
      code (octal 10 or 12) and the fraction under a wrapped exponent, and otherwise zero. V means overflow. */
  predicate Leaves(r: u64, v: bool, fec: nat, fps: nat, dbl: bool, neg: bool, e: int, n: nat) {
    if e > 255 then v && if Status(fps, 9) then fec == 8 && Packs(r, dbl, neg, e, n) else fec == 0 && r == 0
    else if e < 1 then !v && if Status(fps, 10) then fec == 10 && Packs(r, dbl, neg, e, n) else fec == 0 && r == 0
    else !v && fec == 0 && Packs(r, dbl, neg, e, n)
  }

  /** The word, V and the exception code are what the real x, rounded once to a working precision, has to leave; zero
      is the true zero. */
  ghost predicate Rounds(x: real, dbl: bool, trunc: bool, fps: nat, r: u64, v: bool, fec: nat) {
    if x == 0.0 then r == 0 && !v && fec == 0
    else exists e: int, n: nat :: RoundsTo(Abs(x), dbl, trunc, e, n) && Leaves(r, v, fec, fps, dbl, x < 0.0, e, n)
  }

  /** They are what x leaves when it is rounded one unit of its last place too far from zero. */
  ghost predicate RoundsUp(x: real, dbl: bool, trunc: bool, fps: nat, r: u64, v: bool, fec: nat) {
    exists e: int, n: nat :: RoundsUpTo(Abs(x), dbl, trunc, e, n) && Leaves(r, v, fec, fps, dbl, x < 0.0, e, n)
  }

  /** In range the word's number is the rounded fraction, in units of its last place. */
  lemma PackedNumber(r: u64, dbl: bool, neg: bool, e: int, n: nat)
    requires Packs(r, dbl, neg, e, n) && 1 <= e <= 255
    ensures var x := n as real * Ulp(dbl, e); Number(r, dbl) == if neg then -x else x
  {
    var kept := PackedPlaces(r, dbl, neg, e, n);
    hide *;
    Scaled(neg, e, kept);
    UnitsOfLast(TWO_55 + kept, n, dbl, e);
  }

  lemma PackedPlaces(r: u64, dbl: bool, neg: bool, e: int, n: nat) returns (kept: nat)
    requires Packs(r, dbl, neg, e, n) && 1 <= e <= 255
    ensures Number(r, dbl) == Scientific(neg, e, kept) && TWO_55 + kept == if dbl then n else n * TWO_32
  {
    var f := r % TWO_55;
    kept := if dbl then f else f - f % TWO_32;
    hide Scientific;
  }

  lemma UnitsOfLast(f: nat, n: nat, dbl: bool, e: int)
    requires f == if dbl then n else n * TWO_32
    ensures Units(f, e - 184) == n as real * Ulp(dbl, e)
  {
    if !dbl {
      ThirtyTwoPlaces(e);
      RealProduct(n, TWO_32);
      hide P2;
      Reordered(n as real, TWO_32 as real, P2(e - 184));
    }
  }

  lemma ThirtyTwoPlaces(e: int)
    ensures P2(e - 152) == P2(e - 184) * TWO_32 as real
  {
    Pow2Constants();
    P2AddNat(e - 184, 32);
    hide P2, Pow2;
  }

  lemma Reordered(n: real, t: real, u: real)
    ensures n * t * u == n * (u * t)
  {
  }

  /** A number delivered is within half a unit of its last place of the exact one, or less than a unit short of it
      when truncated. */
  lemma NearestNumber(x: real, dbl: bool, trunc: bool, fps: nat, r: u64)
    requires x != 0.0 && r / TWO_55 % 256 != 0 && Rounds(x, dbl, trunc, fps, r, false, 0)
    ensures var u := Ulp(dbl, r / TWO_55 % 256); Abs(Number(r, dbl) - x) <= if trunc then u else u / 2.0
  {
    hide P2, Pow2, RoundsIn, Number, Ulp, Abs, Status;
    var e: int, n: nat :| RoundsTo(Abs(x), dbl, trunc, e, n) && Leaves(r, false, 0, fps, dbl, x < 0.0, e, n);
    assert 1 <= e <= 255;
    PackedNumber(r, dbl, x < 0.0, e, n);
    var b: int, k: nat :| RoundsIn(Abs(x), dbl, trunc, b, k) && Renormalised(dbl, b, k, e, n);
    InPlace(Abs(x), dbl, trunc, b, k, e, n);
    SignedGap(x, n as real * Ulp(dbl, e), Number(r, dbl), Ulp(dbl, e), trunc);
  }

  lemma InPlace(x: real, dbl: bool, trunc: bool, b: int, k: nat, e: int, n: nat)
    requires RoundsIn(x, dbl, trunc, b, k) && Renormalised(dbl, b, k, e, n)
    ensures var y, u := n as real * Ulp(dbl, e), Ulp(dbl, e);
            if trunc then y <= x < y + u else y - u / 2.0 <= x <= y + u / 2.0
  {
    var u := Ulp(dbl, b);
    if k == Full(dbl) {
      P2Step(b - if dbl then 184 else 152);
      assert Ulp(dbl, e) == 2.0 * u && k as real == 2.0 * n as real;
      hide P2, Ulp, Full;
      assert n as real * (2.0 * u) == k as real * u;
    }
    hide P2, Ulp, Full;
    assert (k as real + 1.0) * u == k as real * u + u;
    assert (k as real - 0.5) * u == k as real * u - u / 2.0 && (k as real + 0.5) * u == k as real * u + u / 2.0;
  }

  lemma SignedGap(x: real, y: real, z: real, u: real, trunc: bool)
    requires z == (if x < 0.0 then -y else y) && u > 0.0
    requires if trunc then y <= Abs(x) < y + u else y - u / 2.0 <= Abs(x) <= y + u / 2.0
    ensures Abs(z - x) <= if trunc then u else u / 2.0
  {
  }

  // ---- and as the halves hold it -----------------------------------------------------------------------------------

  lemma HoldsPacks(w: Fpac, dbl: bool, neg: bool, e: int, n: nat)
    requires Full(dbl) / 2 <= n < Full(dbl)
    ensures Holds(w, dbl, neg, e, n) <==> Packs(FromFac(w), dbl, neg, e, n)
  {
    Fields(w);
    WordFields(w);
    var m := if dbl then n / TWO_32 else n;
    FractionHigh(n, dbl);
    ModUnique(m, TWO_23, 1, m - TWO_23);
    if dbl {
      DivBounds(n, TWO_32);
    }
    assert w.h == (if neg then TWO_31 else 0) + e % 256 * TWO_23 + (m - TWO_23) <==>
           Negative(w) == neg && Exponent(w) == e % 256 && w.h % TWO_23 == m - TWO_23 by {
      SameHigh(w.h, Negative(w), Exponent(w), w.h % TWO_23, neg, e % 256, m - TWO_23);
    }
    hide Exponent, Fraction, Negative, FromFac;
  }

  lemma SameHigh(h: nat, neg: bool, e: nat, m: nat, neg': bool, e': nat, m': nat)
    requires e < 256 && e' < 256 && m < TWO_23 && m' < TWO_23
    requires h == (if neg then TWO_31 else 0) + e * TWO_23 + m
    ensures h == (if neg' then TWO_31 else 0) + e' * TWO_23 + m' <==> neg == neg' && e == e' && m == m'
  {
  }

  lemma DeliversLeaves(res: FpResult, dbl: bool, fps: nat, neg: bool, e: int, n: nat)
    requires Full(dbl) / 2 <= n < Full(dbl)
    ensures Delivers(res, dbl, fps, neg, e, n) <==> Leaves(FromFac(res.fac), res.v, res.fec, fps, dbl, neg, e, n)
  {
    StatusBits(fps);
    HoldsPacks(res.fac, dbl, neg, e, n);
    assert res.fac == ZERO_FAC <==> FromFac(res.fac) == 0;
    hide Pow2, Packs, Holds, FromFac, FpsBit, Status;
  }

  /** A routine's result is correctly rounded just when the word it packs to is. */
  lemma RoundsAsDelivered(x: real, res: FpResult, trunc: bool, fps: nat)
    requires x != 0.0
    ensures CorrectlyRounded(res, Abs(x), x < 0.0, trunc, fps) <==>
            Rounds(x, Double(fps), trunc, fps, FromFac(res.fac), res.v, res.fec)
  {
    hide RoundsTo, Delivers, Leaves, FromFac, Abs;
    forall e: int, n: nat | RoundsTo(Abs(x), Double(fps), trunc, e, n)
      ensures Delivers(res, Double(fps), fps, x < 0.0, e, n) <==>
              Leaves(FromFac(res.fac), res.v, res.fec, fps, Double(fps), x < 0.0, e, n)
    {
      RoundedRange(Abs(x), Double(fps), trunc, e, n);
      DeliversLeaves(res, Double(fps), fps, x < 0.0, e, n);
    }
  }

  lemma RaisedRange(x: real, dbl: bool, trunc: bool, e: int, n: nat)
    requires RoundsUpTo(x, dbl, trunc, e, n)
    ensures Full(dbl) / 2 <= n < Full(dbl)
  {
    hide RoundsIn;
    var b: int, k: nat :|
      k < Full(dbl) && RoundsIn(x, dbl, trunc, b, k) && Renormalised(dbl, b, k + 1, e, n);
    PlaceRange(x, dbl, trunc, b, k);
  }

  lemma RoundsUpAsDelivered(x: real, res: FpResult, fps: nat)
    requires DeliversUp(res, Abs(x), x < 0.0, fps)
    ensures RoundsUp(x, Double(fps), Truncating(fps), fps, FromFac(res.fac), res.v, res.fec)
  {
    hide RoundsUpTo, Delivers, Leaves, FromFac, Abs, Double, Truncating;
    var dbl, trunc := Double(fps), Truncating(fps);
    var e: int, n: nat :| RoundsUpTo(Abs(x), dbl, trunc, e, n) && Delivers(res, dbl, fps, x < 0.0, e, n);
    RaisedRange(Abs(x), dbl, trunc, e, n);
    DeliversLeaves(res, dbl, fps, x < 0.0, e, n);
  }

  lemma ZeroRounds(dbl: bool, trunc: bool, fps: nat)
    ensures Rounds(0.0, dbl, trunc, fps, FromFac(ZERO_FAC), false, 0)
  {
  }
}
