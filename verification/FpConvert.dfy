/** Integer to float, float to integer, and rounding a double to single. */
module FpConvert {
  import opened Arith
  import opened FpWord
  import opened FpValue
  import opened FpPack
  import opened FpMul
  import opened FpAddValue
  import opened FpModValue

  // ---- round to single ------------------------------------------------------------------------------

  /** Adding half a single's last place to the packed word; a carry runs into the exponent and, past its
      top, flips the sign. */
  function RoundSpec(f: Fpac, fps: nat): FpResult {
    var outf := FAdd(Fpac(0, TWO_31), f);
    if Negative(outf) != Negative(f) then
      var flipped := Fpac(if Negative(outf) then outf.h - TWO_31 else outf.h + TWO_31, outf.l);
      if NoTrap(fps, FEC_OVFLO) then FpResult(ZERO_FAC, true, 0) else FpResult(flipped, true, FEC_OVFLO)
    else FpResult(outf, false, 0)
  }

  // ---- integer to float -------------------------------------------------------------------------------

  /** Shifts needed to bring the top bit of a 32-bit magnitude to bit 31. */
  function LeadingShift(m: nat): (i: nat)
    requires 0 < m < TWO_32
    ensures TWO_31 <= m * Pow2(i) < TWO_32
    decreases TWO_32 - m
  {
    if m >= TWO_31 then
      assert Pow2(0) == 1;
      0
    else
      var j := LeadingShift(2 * m);
      assert Pow2(j + 1) == 2 * Pow2(j);
      assert m * (2 * Pow2(j)) == 2 * m * Pow2(j);
      j + 1
  }

  function MagnitudeOf(facl: u32): nat {
    if facl >= TWO_31 then TWO_32 - facl else facl
  }

  function TopBits(facl: u32): (t: nat)
    requires facl != 0
    ensures TWO_31 <= t < TWO_32
  {
    MagnitudeOf(facl) * Pow2(LeadingShift(MagnitudeOf(facl)))
  }

  function IntExponent(facl: u32, fps: nat): int
    requires facl != 0
  {
    (if Long(fps) then 160 else 144) - LeadingShift(MagnitudeOf(facl))
  }

  function LoadIntSpec(facl: u32, fps: nat): Fpac {
    if facl == 0 then ZERO_FAC
    else
      var w := PackWord(facl >= TWO_31, IntExponent(facl, fps), TopBits(facl) * TWO_24);
      if Double(fps) || Truncating(fps) then w else RoundSpec(w, fps).fac
  }

  /** The packed fields the loop's normalised word is spread over. */
  lemma SpreadFields(neg: bool, e: int, t: u32)
    requires 0 <= e < 256
    ensures Fpac((if neg then TWO_31 else 0) + e * TWO_23 + t / 256 % TWO_23, t * TWO_24 % TWO_32)
         == PackWord(neg, e, t * TWO_24)
  {
    DivCancel(t, 256, TWO_24);
    ModUnique(e, 256, 0, e);
  }

  lemma {:induction false} LeadingSteps(m: nat, l: nat, i: nat)
    requires 0 < m < TWO_32 && 0 < l < TWO_32 && l == m * Pow2(i)
    ensures LeadingShift(m) == i + LeadingShift(l)
    decreases i
  {
    if i == 0 {
      assert Pow2(0) == 1;
    } else {
      assert Pow2(i) == 2 * Pow2(i - 1);
      hide Pow2;
      HalfStep(m, Pow2(i - 1), l);
      LeadingSteps(2 * m, l, i - 1);
    }
  }

  lemma HalfStep(m: nat, p: nat, l: nat)
    requires 0 < m && 0 < p && l == m * (2 * p) && l < TWO_32
    ensures 2 * m * p == l && m < TWO_31
  {
    MulMonotone(1, p, 2 * m);
    assert m * (2 * p) == p * (2 * m);
  }

  lemma ShiftBound(m: nat, i: nat)
    requires 0 < m < TWO_32 && i == LeadingShift(m)
    ensures i <= 31
  {
    MulMonotone(1, m, Pow2(i));
    Pow2Constants();
    hide Pow2, LeadingShift;
    if i >= 32 {
      Pow2Monotone(32, i);
    }
  }

  method LoadInt(facl: u32, fps: nat) returns (fac: Fpac)
    ensures fac == LoadIntSpec(facl, fps)
  {
    fac := Fpac(0, facl);
    if facl != 0 {
      var neg := facl >= TWO_31;
      var l: u32 := if neg then (TWO_32 - 1 - facl + 1) % TWO_32 else facl;
      assert l == MagnitudeOf(facl);
      ShiftBound(l, LeadingShift(l));
      var i: nat;
      i, l := ShiftToTop(l);
      var exp: int := (if Long(fps) then 160 else 144) - i;
      SpreadFields(neg, exp, l);
      fac := Fpac((if neg then TWO_31 else 0) + exp * TWO_23 + l / 256 % TWO_23, l * TWO_24 % TWO_32);
      if !Double(fps) && !Truncating(fps) {
        fac := RoundSpec(fac, fps).fac;
      }
    }
  }

  method ShiftToTop(m: u32) returns (i: nat, l: u32)
    requires m > 0
    ensures i == LeadingShift(m) && l == m * Pow2(i)
  {
    i, l := 0, m;
    assert Pow2(0) == 1;
    hide Pow2, LeadingShift;
    while l < TWO_31
      invariant 0 < l && l == m * Pow2(i)
      decreases TWO_32 - l
    {
      DoublePower(m, i);
      l := l * 2 % TWO_32;
      i := i + 1;
    }
    LeadingSteps(m, l, i);
    TopAlready(l);
  }

  lemma DoublePower(m: nat, i: nat)
    ensures m * Pow2(i + 1) == m * Pow2(i) * 2
  {
    assert Pow2(i + 1) == 2 * Pow2(i);
  }

  lemma TopAlready(l: u32)
    requires l >= TWO_31
    ensures LeadingShift(l) == 0
  {
  }

  // ---- float to integer -----------------------------------------------------------------------------------

  datatype IntResult = IntResult(dst: u32, c: bool, fec: nat)

  /** The overflow limit on the shifted magnitude, by operand length and sign. */
  function IntLimit(long: bool, neg: bool): nat {
    if !neg then TWO_31 else if long then TWO_31 + 1 else TWO_31 + 0x1_0000
  }

  /** Two's complement of a 32-bit magnitude. */
  function Negate(x: u32): u32 {
    if x == 0 then 0 else TWO_32 - x
  }

  function IntOverflow(fps: nat): IntResult {
    IntResult(0, true, if NoTrap(fps, FEC_ICVT) then 0 else FEC_ICVT)
  }

  function StoreInt(v: Fpac, fps: nat): IntResult {
    var long, neg, exp := Long(fps), Negative(v), Exponent(v);
    var fac := Fpac(v.h % TWO_23 + TWO_23, if Double(fps) then v.l else 0);
    var limit := if long then 160 else 144;
    if exp <= 128 then IntResult(0, false, 0)
    else if exp > limit then IntOverflow(fps)
    else
      var shifted := FRshV(fac, 24 + limit - exp);
      var l: u32 := if long then shifted.l else shifted.l - shifted.l % 0x1_0000;
      if l >= IntLimit(long, neg) then IntOverflow(fps)
      else IntResult(if neg then Negate(l) else l, false, 0)
  }

  // ---- truncation toward zero, exactly when it fits ----------------------------------------------------------

  /** The operand as stored-from: a single ignores its low half. */
  function Seen(v: Fpac, fps: nat): Fpac {
    if Double(fps) then v else Fpac(v.h, 0)
  }

  /** m is the integer part of x. */
  ghost predicate Truncates(m: int, x: real) {
    m as real <= x < m as real + 1.0
  }

  lemma TruncateScaled(f: nat, k: nat, x: real)
    requires IsScaled(x, f, 0 - k)
    ensures Truncates(f / Pow2(k), x)
  {
    InGuardUnits(f, 0 - k, k, x, f as real / Pow2(k) as real);
    DivBounds(f, Pow2(k));
    NonNegativeQuotient(f, Pow2(k));
    CutInReals(f, Pow2(k), f / Pow2(k), 1);
    P2Zero();
    hide P2, Pow2;
    var y := f as real / Pow2(k) as real;
    IsGuardUnit(x, y, 0 - k + k + 187);
  }

  function IntSize(long: bool): nat {
    if long then TWO_31 else 0x8000
  }

  /** Whether the truncation -m or m is representable. */
  predicate Fits(m: nat, neg: bool, long: bool) {
    m < IntSize(long) || (neg && m == IntSize(long))
  }

  /** The destination image of the integer: the value itself, a word sitting in the upper half. */
  function IntImage(m: nat, neg: bool, long: bool): u32
    requires Fits(m, neg, long)
  {
    var l := if long then m else m * 0x1_0000;
    if neg && l != 0 then TWO_32 - l else l
  }

  /** What STCfi has to deliver for a magnitude with integer part m. */
  function StoredInt(m: nat, neg: bool, fps: nat): IntResult {
    if Fits(m, neg, Long(fps)) then IntResult(IntImage(m, neg, Long(fps)), false, 0) else IntOverflow(fps)
  }

  lemma IntegerPart(v: Fpac, exp: int)
    requires exp == Exponent(v) && 128 < exp <= 160
    ensures Truncates(Fraction(v) / Pow2(184 - exp), Magnitude(v))
    ensures 0 <= Fraction(v) / Pow2(184 - exp) < TWO_32
  {
    SignedValue(v);
    TruncateScaled(Fraction(v), 184 - exp, Magnitude(v));
    Pow2Constants();
    Pow2Monotone(24, 184 - exp);
    hide Pow2;
    assert Fraction(v) < TWO_32 * TWO_24;
    MulMonotone(TWO_24, Pow2(184 - exp), TWO_32);
    BoundQuotient(Fraction(v), Pow2(184 - exp), TWO_32);
    NonNegativeQuotient(Fraction(v), Pow2(184 - exp));
  }

  lemma MagnitudeBinade(v: Fpac)
    requires Exponent(v) != 0
    ensures P2(Exponent(v) - 129) <= Magnitude(v) < P2(Exponent(v) - 128)
  {
    SignedValue(v);
    assert TWO_58 <= 8 * Fraction(v) < TWO_59;
    var g := 8 * Fraction(v);
    assert CutOf(g, g as real);
    hide *;
    InGuard(Fraction(v), Exponent(v), Magnitude(v));
    ProductBinade(Magnitude(v), g as real, Exponent(v), g);
  }

  lemma SmallPowers()
    ensures P2(0) == 1.0 && P2(15) == 32768.0 && P2(16) == 65536.0 && P2(31) == 2147483648.0 && P2(32) == 4294967296.0
  {
    Pow2Constants();
    P2Nat(15);
    P2Nat(16);
    P2Nat(31);
    P2Nat(32);
    assert Pow2(16) == 2 * Pow2(15);
  }

  /** Two integer parts of one number are equal. */
  lemma TruncateUnique(m1: int, m2: int, x: real)
    requires Truncates(m1, x) && Truncates(m2, x)
    ensures m1 == m2
  {
  }

  lemma SeenFields(v: Fpac, fps: nat)
    ensures var s := Seen(v, fps);
            Negative(s) == Negative(v) && Exponent(s) == Exponent(v)
            && s.h == v.h && s.l == (if Double(fps) then v.l else 0)
  {
  }

  lemma StoreShifted(fac: Fpac, n: nat)
    requires TWO_55 <= Val(fac) < TWO_56 && 24 <= n <= 55
    ensures FRshV(fac, n).l == Val(fac) / Pow2(n)
  {
    Pow2Constants();
    Pow2Monotone(24, n);
    hide Pow2, FRshV;
    assert Val(fac) < TWO_32 * TWO_24;
    MulMonotone(TWO_24, Pow2(n), TWO_32);
    BoundQuotient(Val(fac), Pow2(n), TWO_32);
    HalvesOf(FRshV(fac, n));
    ModUnique(Val(FRshV(fac, n)), TWO_32, 0, Val(FRshV(fac, n)));
  }

  /** A word result is the integer part sitting in the upper half once the lower half is masked off. */
  lemma WordMask(f: nat, exp: int)
    requires 128 < exp <= 144
    ensures var s := f / Pow2(168 - exp); s - s % 0x1_0000 == f / Pow2(184 - exp) * 0x1_0000
  {
    Pow2Add(168 - exp, 16);
    Pow2Constants();
    hide Pow2;
    DivDiv(f, Pow2(168 - exp), 0x1_0000);
  }

  lemma StoreInRange(v: Fpac, fps: nat, m: nat)
    requires 128 < Exponent(v) <= if Long(fps) then 160 else 144
    requires m == Fraction(Seen(v, fps)) / Pow2(184 - Exponent(v)) && m < TWO_32
    ensures StoreInt(v, fps) == StoredInt(m, Negative(v), fps)
  {
    var exp := Exponent(v);
    var n := 24 + (if Long(fps) then 160 else 144) - exp;
    var fac := Fpac(v.h % TWO_23 + TWO_23, if Double(fps) then v.l else 0);
    var l := FRshV(fac, n).l;
    SeenFrac(v, fps);
    StoreIsLow(v, fps, fac, n);
    assert TWO_55 <= Val(fac) < TWO_56 && 24 <= n <= 55;
    hide *;
    StoreShifted(fac, n);
    ShiftedPlaces(Val(fac), exp, Long(fps));
    LowStored(l, m, Negative(v), fps);
  }

  /** The in-range part of the store, from the low half of the shifted fraction. */
  function StoreLow(low: u32, neg: bool, fps: nat): IntResult {
    var l: u32 := if Long(fps) then low else low - low % 0x1_0000;
    if l >= IntLimit(Long(fps), neg) then IntOverflow(fps) else IntResult(if neg then Negate(l) else l, false, 0)
  }

  lemma StoreIsLow(v: Fpac, fps: nat, fac: Fpac, n: nat)
    requires 128 < Exponent(v) <= if Long(fps) then 160 else 144
    requires fac == Fpac(v.h % TWO_23 + TWO_23, if Double(fps) then v.l else 0)
    requires n == 24 + (if Long(fps) then 160 else 144) - Exponent(v)
    ensures StoreInt(v, fps) == StoreLow(FRshV(fac, n).l, Negative(v), fps)
  {
    hide FRshV, Exponent;
  }

  lemma LowStored(l: u32, m: nat, neg: bool, fps: nat)
    requires (if Long(fps) then l else l - l % 0x1_0000) == (if Long(fps) then m else m * 0x1_0000) && m < TWO_32
    ensures StoreLow(l, neg, fps) == StoredInt(m, neg, fps)
  {
    hide NoTrap;
  }

  lemma SeenFrac(v: Fpac, fps: nat)
    ensures Val(Fpac(v.h % TWO_23 + TWO_23, if Double(fps) then v.l else 0)) == Fraction(Seen(v, fps))
  {
    assert FGetFrac(Seen(v, fps)) == Fpac(v.h % TWO_23 + TWO_23, if Double(fps) then v.l else 0);
  }

  lemma ShiftedPlaces(f: nat, exp: int, long: bool)
    requires 128 < exp <= if long then 160 else 144
    ensures var s, m := f / Pow2(24 + (if long then 160 else 144) - exp), f / Pow2(184 - exp);
            (if long then s else s - s % 0x1_0000) == if long then m else m * 0x1_0000
  {
    if !long {
      WordMask(f, exp);
    }
  }

  /** For every float, STCfi delivers the value truncated toward zero when that integer is representable;
      otherwise it delivers 0 with C set, and the conversion trap's code when it is enabled. */
  lemma StoreTruncates(v: Fpac, fps: nat, m: nat)
    requires Truncates(m, Magnitude(Seen(v, fps)))
    ensures StoreInt(v, fps) == StoredInt(m, Negative(v), fps)
  {
    var s, x := Seen(v, fps), Magnitude(Seen(v, fps));
    SeenFields(v, fps);
    SmallPowers();
    var limit := if Long(fps) then 160 else 144;
    if Exponent(v) > 128 {
      MagnitudeBinade(s);
      if Exponent(v) <= limit {
        IntegerPart(s, Exponent(v));
        TruncateUnique(m, Fraction(s) / Pow2(184 - Exponent(v)), x);
        hide *;
        StoreInRange(v, fps, m);
      } else {
        P2Monotone(limit - 128, Exponent(v) - 129);
        hide P2, Magnitude, Exponent, Fraction;
        assert m as real + 1.0 > if Long(fps) then 4294967296.0 else 65536.0;
      }
    } else {
      BelowOne(s);
      TruncateUnique(m, 0, x);
      hide P2, Magnitude, Exponent, Fraction;
    }
  }

  lemma BelowOne(s: Fpac)
    requires Exponent(s) <= 128
    ensures Truncates(0, Magnitude(s))
  {
    P2Zero();
    if Exponent(s) != 0 {
      MagnitudeBinade(s);
      P2Monotone(Exponent(s) - 128, 0);
    }
  }

  // ---- a loaded integer is exact ----------------------------------------------------------------------------------

  lemma LoadedFields(facl: u32, fps: nat)
    requires facl != 0 && (Double(fps) || Truncating(fps))
    ensures var w := LoadIntSpec(facl, fps);
            && Exponent(w) == IntExponent(facl, fps) && Fraction(w) == TopBits(facl) * TWO_24
            && Negative(w) == (facl >= TWO_31)
  {
    ShiftBound(MagnitudeOf(facl), LeadingShift(MagnitudeOf(facl)));
    PackWordFields(facl >= TWO_31, IntExponent(facl, fps), TopBits(facl) * TWO_24);
  }

  lemma RoundSpecNoCarry(w: Fpac, fps: nat)
    requires w.l == 0
    ensures RoundSpec(w, fps) == FpResult(Fpac(w.h, TWO_31), false, 0)
  {
    Wrap(Val(w) + TWO_31, TWO_64);
    HalvesOf(FAdd(Fpac(0, TWO_31), w));
    HalvesOf(Fpac(w.h, TWO_31));
  }

  /** When the top bits fill at most 24 places, loading is exact up to a residue below the last place. */
  lemma LoadedExact(facl: u32, fps: nat)
    requires facl != 0 && TopBits(facl) % 256 == 0
    ensures var w := LoadIntSpec(facl, fps);
            && Exponent(w) == IntExponent(facl, fps) && Negative(w) == (facl >= TWO_31)
            && (w.l == 0 || w.l == TWO_31)
            && Fraction(w) == TopBits(facl) * TWO_24 + w.l
  {
    var e, t := IntExponent(facl, fps), TopBits(facl);
    ShiftBound(MagnitudeOf(facl), LeadingShift(MagnitudeOf(facl)));
    var w := PackWord(facl >= TWO_31, e, t * TWO_24);
    PackWordFields(facl >= TWO_31, e, t * TWO_24);
    assert t == t / 256 * 256;
    ModUnique(t * TWO_24, TWO_32, t / 256, 0);
    RoundSpecNoCarry(w, fps);
    hide TopBits, PackWord, RoundSpec;
  }

  lemma SeenFraction(w: Fpac, fps: nat)
    ensures Fraction(Seen(w, fps)) == if Double(fps) then Fraction(w) else Fraction(w) - w.l
  {
  }

  /** k integer places of magnitude m, plus a residue, shift back to m. */
  lemma ShiftBack(m: nat, i: nat, k: nat, r: nat)
    requires k >= 24 && (r == 0 || (r == TWO_31 && k >= 32))
    ensures (m * Pow2(i) * Pow2(k) + r) / Pow2(i + k) == m
  {
    Pow2Add(i, k);
    assert r < Pow2(k) by {
      Pow2Constants();
      if r != 0 {
        Pow2Monotone(32, k);
      }
    }
    MulMonotone(1, Pow2(i), Pow2(k));
    hide Pow2;
    MulAssoc(m, Pow2(i), Pow2(k));
    var d := Pow2(i) * Pow2(k);
    assert (m + 1) * d == m * d + d;
    DivUnique(m * d + r, d, m);
  }

  lemma FitsBack(facl: u32)
    ensures Fits(MagnitudeOf(facl), facl >= TWO_31, true)
    ensures IntImage(MagnitudeOf(facl), facl >= TWO_31, true) == facl
    ensures facl % 0x1_0000 == 0 ==>
              var m := MagnitudeOf(facl) / 0x1_0000;
              Fits(m, facl >= TWO_31, false) && IntImage(m, facl >= TWO_31, false) == facl
  {
    if facl % 0x1_0000 == 0 {
      assert facl == facl / 0x1_0000 * 0x1_0000;
      ModUnique(MagnitudeOf(facl), 0x1_0000,
                if facl >= TWO_31 then 0x1_0000 - facl / 0x1_0000 else facl / 0x1_0000, 0);
    }
  }

  lemma WordShift(m: nat)
    requires 0 < m < TWO_32 && m % 0x1_0000 == 0
    ensures LeadingShift(m) <= 15 && m * Pow2(LeadingShift(m)) % 256 == 0
  {
    var i, k := LeadingShift(m), m / 0x1_0000;
    assert m == k * 0x1_0000;
    Pow2Constants();
    hide LeadingShift, Pow2;
    if i >= 16 {
      Pow2Monotone(16, i);
      MulMonotone(0x1_0000, m, Pow2(i));
      MulMonotone(0x1_0000, Pow2(i), m);
    }
    WordMultiple(k, Pow2(i));
  }

  lemma WordMultiple(k: nat, p: nat)
    ensures k * 0x1_0000 * p % 256 == 0
  {
    assert k * 0x1_0000 * p == k * p * 256 * 256;
    ModUnique(k * 0x1_0000 * p, 256, k * p * 256, 0);
  }

  /** Every 16-bit integer survives a load and a store, whatever the precision and rounding settings of
      either, even if they are changed in between. */
  lemma WordRoundTrip(facl: u32, load: nat, store: nat)
    requires facl % 0x1_0000 == 0 && !Long(load) && !Long(store)
    ensures StoreInt(LoadIntSpec(facl, load), store) == IntResult(facl, false, 0)
  {
    if facl != 0 {
      var mag := MagnitudeOf(facl);
      var i, m := LeadingShift(mag), mag / 0x1_0000;
      var w := LoadIntSpec(facl, load);
      FitsBack(facl);
      assert mag == m * 0x1_0000 && mag % 0x1_0000 == 0 by {
        WordMagnitude(facl);
      }
      WordShift(mag);
      LoadedExact(facl, load);
      SeenFraction(w, store);
      WordFractionBack(m, i, Fraction(Seen(w, store)));
      assert IntExponent(facl, load) == 144 - i;
      hide *;
      StoreInRange(w, store, m);
      StoredBack(facl, m, store);
    }
  }

  lemma WordMagnitude(facl: u32)
    requires facl % 0x1_0000 == 0
    ensures MagnitudeOf(facl) % 0x1_0000 == 0
  {
    FitsBack(facl);
    assert facl == facl / 0x1_0000 * 0x1_0000;
    ModUnique(MagnitudeOf(facl), 0x1_0000,
              if facl >= TWO_31 then 0x1_0000 - facl / 0x1_0000 else facl / 0x1_0000, 0);
  }

  lemma StoredBack(facl: u32, m: nat, fps: nat)
    requires Fits(m, facl >= TWO_31, Long(fps)) && IntImage(m, facl >= TWO_31, Long(fps)) == facl
    ensures StoredInt(m, facl >= TWO_31, fps) == IntResult(facl, false, 0)
  {
  }

  lemma WordFractionBack(m: nat, i: nat, f: nat)
    requires f == m * 0x1_0000 * Pow2(i) * TWO_24 || f == m * 0x1_0000 * Pow2(i) * TWO_24 + TWO_31
    ensures f / Pow2(40 + i) == m
  {
    var r := f - m * 0x1_0000 * Pow2(i) * TWO_24;
    ShiftBack(m, i, 40, r);
    Pow2Add(24, 16);
    Pow2Constants();
    assert i + 40 == 40 + i;
    hide Pow2;
    WordScale(m, Pow2(i));
  }

  lemma WordScale(m: nat, p: nat)
    ensures m * p * (TWO_24 * 0x1_0000) == m * 0x1_0000 * p * TWO_24
  {
    MulAssoc(m, 0x1_0000, p);
  }

  // ---- long integers: exactly the ones with at most 24 significant bits survive single precision ------------------

  lemma LongDouble(facl: u32, fps: nat)
    requires Long(fps) && Double(fps) && facl != 0
    ensures StoreInt(LoadIntSpec(facl, fps), fps) == IntResult(facl, false, 0)
  {
    var mag, w := MagnitudeOf(facl), LoadIntSpec(facl, fps);
    var i := LeadingShift(mag);
    FitsBack(facl);
    LoadedFields(facl, fps);
    ShiftBound(mag, i);
    SeenFraction(w, fps);
    assert IntExponent(facl, fps) == 160 - i;
    LongFractionBack(mag, i, Fraction(Seen(w, fps)));
    hide *;
    StoreInRange(w, fps, mag);
    StoredBack(facl, mag, fps);
  }

  lemma LongFractionBack(m: nat, i: nat, f: nat)
    requires f == m * Pow2(i) * TWO_24
    ensures f / Pow2(24 + i) == m
  {
    ShiftBack(m, i, 24, 0);
    Pow2Constants();
    assert i + 24 == 24 + i;
  }

  lemma LongShort(facl: u32, fps: nat)
    requires Long(fps) && !Double(fps) && facl != 0 && TopBits(facl) % 256 == 0
    ensures StoreInt(LoadIntSpec(facl, fps), fps) == IntResult(facl, false, 0)
  {
    var mag, w := MagnitudeOf(facl), LoadIntSpec(facl, fps);
    var i := LeadingShift(mag);
    FitsBack(facl);
    LoadedExact(facl, fps);
    ShiftBound(mag, i);
    SeenFraction(w, fps);
    assert IntExponent(facl, fps) == 160 - i;
    LongFractionBack(mag, i, Fraction(Seen(w, fps)));
    hide *;
    StoreInRange(w, fps, mag);
    StoredBack(facl, mag, fps);
  }

  /** A fraction of n high places shifted down k places is an integer of at most 24 significant bits. */
  lemma ShortInteger(n: nat, k: nat, m: nat)
    requires TWO_23 <= n < TWO_24 && 24 <= k <= 55 && m == n * TWO_32 / Pow2(k) && 0 < m < TWO_32
    ensures m * Pow2(LeadingShift(m)) % 256 == 0
  {
    Pow2Constants();
    if k <= 32 {
      Pow2Add(32 - k, k);
      hide Pow2, LeadingShift;
      MulAssoc(n, Pow2(32 - k), Pow2(k));
      ModUnique(n * TWO_32, Pow2(k), n * Pow2(32 - k), 0);
      ShortExact(n, 32 - k, m);
    } else {
      Pow2Add(k - 32, 32);
      hide Pow2, LeadingShift;
      DivCancel(n, Pow2(k - 32), TWO_32);
      NonNegativeQuotient(n, Pow2(k - 32));
      SmallInteger(m);
    }
  }

  lemma ShortExact(n: nat, j: nat, m: nat)
    requires TWO_23 <= n < TWO_24 && j <= 8 && m == n * Pow2(j) && m < TWO_32
    ensures m * Pow2(LeadingShift(m)) % 256 == 0
  {
    assert n * Pow2(8) == n * 256 by {
      assert Pow2(8) == 256;
    }
    Pow2Add(j, 8 - j);
    MulAssoc(n, Pow2(j), Pow2(8 - j));
    LeadingSteps(m, n * 256, 8 - j);
    TopAlready(n * 256);
    ModUnique(n * 256, 256, n, 0);
  }

  lemma SmallInteger(m: nat)
    requires 0 < m < TWO_24
    ensures m * Pow2(LeadingShift(m)) % 256 == 0
  {
    var i := LeadingShift(m);
    assert Pow2(8) == 256;
    hide LeadingShift;
    if i < 8 {
      Pow2Monotone(i + 1, 8);
      assert Pow2(i + 1) == 2 * Pow2(i);
      hide Pow2;
      MulMonotone(Pow2(i), 128, m);
    }
    Pow2Add(8, i - 8);
    hide Pow2;
    assert m * (256 * Pow2(i - 8)) == m * Pow2(i - 8) * 256;
    ModUnique(m * Pow2(i), 256, m * Pow2(i - 8), 0);
  }

  /** Whatever single a long integer is stored from, the integer has at most 24 significant bits. */
  lemma SingleIsShort(v: Fpac, fps: nat, facl: u32)
    requires Long(fps) && !Double(fps) && facl != 0 && StoreInt(v, fps) == IntResult(facl, false, 0)
    ensures TopBits(facl) % 256 == 0
  {
    var s, exp := Seen(v, fps), Exponent(v);
    assert 128 < exp <= 160;
    IntegerPart(s, exp);
    var m := Fraction(s) / Pow2(184 - exp);
    StoreInRange(v, fps, m);
    var n := v.h % TWO_23 + TWO_23;
    assert Fraction(s) == n * TWO_32;
    hide StoreInt, Exponent, Fraction, Pow2, LeadingShift;
    assert MagnitudeOf(facl) == m;
    ShortInteger(n, 184 - exp, m);
  }

  /** A long integer survives a load and a store under one setting if and only if the setting is double or
      the integer has at most 24 significant bits. */
  lemma LongRoundTripIff(facl: u32, fps: nat)
    requires Long(fps)
    ensures StoreInt(LoadIntSpec(facl, fps), fps) == IntResult(facl, false, 0)
       <==> Double(fps) || facl == 0 || TopBits(facl) % 256 == 0
  {
    if facl != 0 {
      if Double(fps) {
        LongDouble(facl, fps);
      } else if TopBits(facl) % 256 == 0 {
        LongShort(facl, fps);
      } else if StoreInt(LoadIntSpec(facl, fps), fps) == IntResult(facl, false, 0) {
        hide *;
        SingleIsShort(LoadIntSpec(facl, fps), fps, facl);
      }
    }
  }

  // ---- rounding a double to single is correct rounding ------------------------------------------------------------

  /** Where rounding to single puts the fraction and exponent: the packed word carries between them. */
  lemma RoundSpecFields(f: Fpac, fps: nat)
    requires Exponent(f) != 0
    ensures var k := (Fraction(f) + TWO_31) / TWO_32;
            var (e, n) := if k == TWO_24 then (Exponent(f) + 1, TWO_23) else (Exponent(f) as int, k);
            var r := RoundSpec(f, fps);
            && TWO_23 <= k <= TWO_24
            && (r.v <==> e > 255)
            && (e <= 255 ==> r.fec == 0 && r.fac.h == (if Negative(f) then TWO_31 else 0) + e * TWO_23 + (n - TWO_23))
            && (e > 255 ==> if NoTrap(fps, FEC_OVFLO) then r.fac == ZERO_FAC && r.fec == 0
                            else r.fec == FEC_OVFLO && r.fac.h == if Negative(f) then TWO_31 else 0)
  {
    WordFields(f);
    var c := if f.l >= TWO_31 then 1 else 0;
    RoundUpWord(f, c);
    var m := f.h % TWO_23;
    assert Fraction(f) == (m + TWO_23) * TWO_32 + f.l;
    DivUnique(Fraction(f) + TWO_31, TWO_32, m + TWO_23 + c);
    hide NoTrap, Fraction, FAdd, Exponent;
  }

  /** Half of a single's last place carries into the high half exactly when the low half's top bit is set. */
  lemma RoundUpWord(f: Fpac, c: nat)
    requires c == if f.l >= TWO_31 then 1 else 0
    ensures FAdd(Fpac(0, TWO_31), f) == Fpac((f.h + c) % TWO_32, (f.l + TWO_31) % TWO_32)
    ensures (f.h + c) % TWO_32 == if f.h + c < TWO_32 then f.h + c else 0
  {
    Wrap(f.l + TWO_31, TWO_32);
    Wrap(f.h + c, TWO_32);
  }

  lemma RoundSpecDelivers(f: Fpac, fps: nat)
    requires Exponent(f) != 0
    ensures var k := (Fraction(f) + TWO_31) / TWO_32;
            var (e, n) := if k == TWO_24 then (Exponent(f) + 1, TWO_23) else (Exponent(f) as int, k);
            && Renormalised(false, Exponent(f), k, e, n)
            && Delivers(RoundSpec(f, fps), false, fps, Negative(f), e, n)
  {
    RoundSpecFields(f, fps);
    var k := (Fraction(f) + TWO_31) / TWO_32;
    var (e, n) := if k == TWO_24 then (Exponent(f) + 1, TWO_23) else (Exponent(f) as int, k);
    hide RoundSpec, Exponent, Fraction, Negative;
    ModUnique(n, TWO_23, 1, n - TWO_23);
    if e <= 255 {
      ModUnique(e, 256, 0, e);
    }
  }

  /** Rounding a double to single delivers its value rounded once to a 24-bit fraction; the carry from
      fraction to exponent, and out of the exponent, is the packed word's own. */
  lemma RoundToSingle(f: Fpac, fps: nat)
    requires Exponent(f) != 0
    ensures exists e: int, n: nat ::
              RoundsTo(Magnitude(f), false, false, e, n) && Delivers(RoundSpec(f, fps), false, fps, Negative(f), e, n)
  {
    var k := (Fraction(f) + TWO_31) / TWO_32;
    var (e, n) := if k == TWO_24 then (Exponent(f) + 1, TWO_23) else (Exponent(f) as int, k);
    RoundSpecDelivers(f, fps);
    SignedValue(f);
    var g := 8 * Fraction(f);
    assert k * TWO_35 - TWO_34 <= g && g + 1 <= (k + 1) * TWO_35 - TWO_34 by {
      DivBounds(Fraction(f) + TWO_31, TWO_32);
    }
    assert TWO_58 <= g < TWO_59;
    BinadeCountsSingle();
    hide RoundSpec, Exponent, Fraction, Negative, Magnitude, Delivers, IsScaled, IsGuard, RoundsIn, P2;
    InGuard(Fraction(f), Exponent(f), Magnitude(f));
    CountsRoundIn(Exponent(f), g, 1, k, true, false, Magnitude(f), g as real);
    assert RoundsTo(Magnitude(f), false, false, e, n);
  }

  lemma BinadeCountsSingle()
    ensures Full(false) / 2 * Place(false) == TWO_58 && Full(false) * Place(false) == TWO_59
    ensures Place(false) == TWO_35 && HalfPlace(false) == TWO_34
  {
  }

  /** A word with a zero exponent field stands for 0, but is rounded as a pattern: it still stands for 0 unless its
      fraction is all ones and carries into the exponent. */
  lemma RoundZeroIff(f: Fpac, fps: nat)
    requires Exponent(f) == 0
    ensures var r := RoundSpec(f, fps);
            && !r.v && r.fec == 0
            && (Magnitude(r.fac) == 0.0 <==> !(f.h % TWO_23 == TWO_23 - 1 && f.l >= TWO_31))
  {
    var c := if f.l >= TWO_31 then 1 else 0;
    RoundUpWord(f, c);
    WordFields(f);
    var r := Fpac(f.h + c, (f.l + TWO_31) % TWO_32);
    ZeroCarry(f.h % TWO_23, c, if Negative(f) then 1 else 0, r);
    if Exponent(r) != 0 {
      SignedValue(r);
    }
    hide FAdd, Fraction, P2;
  }

  lemma ZeroCarry(m: nat, c: nat, k: nat, r: Fpac)
    requires m < TWO_23 && c <= 1 && k <= 1 && r.h == k * TWO_31 + m + c
    ensures Exponent(r) == (if m + c == TWO_23 then 1 else 0) && (Negative(r) <==> k == 1)
  {
    DivUnique(r.h, TWO_23, k * 256 + if m + c == TWO_23 then 1 else 0);
  }

  // ---- a loaded integer is rounded once ---------------------------------------------------------------------------

  /** A packed word that is not rounded is its own value, exactly in double precision and cut in single. */
  lemma PackedRounds(neg: bool, e: int, f: nat, fps: nat)
    requires TWO_55 <= f < TWO_56 && 1 <= e <= 255 && (Double(fps) || Truncating(fps))
    ensures CorrectlyRounded(FpResult(PackWord(neg, e, f), false, 0), Magnitude(PackWord(neg, e, f)), neg,
                             Truncating(fps), fps)
  {
    var w, dbl, trunc := PackWord(neg, e, f), Double(fps), Truncating(fps);
    var k := if dbl then f else f / TWO_32;
    PackWordFields(neg, e, f);
    PackWordHolds(dbl, neg, e, f);
    SignedValue(w);
    KeptExactly(f, k, dbl, trunc);
    assert Delivers(FpResult(w, false, 0), dbl, fps, neg, e, k);
    hide PackWord, Magnitude, Delivers, IsScaled, IsGuard, RoundsIn, P2, Fraction, Exponent;
    InGuard(f, e, Magnitude(w));
    CountsRoundIn(e, 8 * f, 1, k, !trunc, dbl, Magnitude(w), (8 * f) as real);
    assert RoundsTo(Magnitude(w), dbl, trunc, e, k);
  }

  lemma KeptExactly(f: nat, k: nat, dbl: bool, trunc: bool)
    requires TWO_55 <= f < TWO_56 && k == (if dbl then f else f / TWO_32) && (dbl || trunc)
    ensures var c := if trunc then 0 else HalfPlace(dbl);
            k * Place(dbl) - c <= 8 * f && 8 * f + 1 <= (k + 1) * Place(dbl) - c
    ensures Full(dbl) / 2 * Place(dbl) <= 8 * f && 8 * f + 1 <= Full(dbl) * Place(dbl) && k < Full(dbl)
  {
    DivBounds(f, TWO_32);
  }

  /** The integer a word stands for: with a word-length setting, it is in the upper half. */
  function IntValue(facl: u32, fps: nat): real {
    if Long(fps) then MagnitudeOf(facl) as real else MagnitudeOf(facl) as real / 65536.0
  }

  lemma LoadedValue(facl: u32, fps: nat)
    requires facl != 0
    ensures Magnitude(PackWord(facl >= TWO_31, IntExponent(facl, fps), TopBits(facl) * TWO_24)) == IntValue(facl, fps)
  {
    var m, i, e := MagnitudeOf(facl), LeadingShift(MagnitudeOf(facl)), IntExponent(facl, fps);
    ShiftBound(m, i);
    IntScaled(facl, fps);
    assert e == (if Long(fps) then 160 else 144) - i && TopBits(facl) == m * Pow2(i);
    PackedScaled(facl >= TWO_31, e, TopBits(facl) * TWO_24);
    assert Pow2(24) == TWO_24 by {
      Pow2Constants();
    }
    var x := IntValue(facl, fps);
    hide *;
    Rescaled(x, m, i, e - 160);
    Rescaled(x, TopBits(facl), 24, e - 184);
    ScaledUnique(x, Magnitude(PackWord(facl >= TWO_31, e, TopBits(facl) * TWO_24)), TopBits(facl) * TWO_24, e - 184);
  }

  lemma IntScaled(facl: u32, fps: nat)
    ensures IsScaled(IntValue(facl, fps), MagnitudeOf(facl), if Long(fps) then 0 else -16)
  {
    Sixteenth();
    hide P2;
  }

  lemma PackedScaled(neg: bool, e: int, f: nat)
    requires 1 <= e <= 255 && TWO_55 <= f < TWO_56
    ensures IsScaled(Magnitude(PackWord(neg, e, f)), f, e - 184)
  {
    PackWordFields(neg, e, f);
    hide P2, PackWord, Exponent, Fraction;
  }

  /** A coarser unit is 2^k finer ones. */
  lemma Rescaled(x: real, f: nat, k: nat, e: int)
    requires IsScaled(x, f, e + k)
    ensures IsScaled(x, f * Pow2(k), e)
  {
    P2AddNat(e, k);
    RealProduct(f, Pow2(k));
    hide P2, Pow2;
    assert f as real * (P2(e) * Pow2(k) as real) == f as real * Pow2(k) as real * P2(e);
  }

  lemma Sixteenth()
    ensures P2(0) == 1.0 && P2(-16) == 1.0 / 65536.0
  {
    SmallPowers();
    P2AddNat(-16, 16);
    Pow2Constants();
    hide P2, Pow2;
  }

  /** LDCif is correctly rounded for every integer: exact where it fits, and where a single has no room for it rounded
      half up in magnitude, or truncated under that setting. */
  lemma LoadRounds(facl: u32, fps: nat)
    requires facl != 0
    ensures CorrectlyRounded(FpResult(LoadIntSpec(facl, fps), false, 0), IntValue(facl, fps), facl >= TWO_31,
                             Truncating(fps), fps)
  {
    var neg, e, f := facl >= TWO_31, IntExponent(facl, fps), TopBits(facl) * TWO_24;
    var w := PackWord(neg, e, f);
    ShiftBound(MagnitudeOf(facl), LeadingShift(MagnitudeOf(facl)));
    PackWordFields(neg, e, f);
    LoadedValue(facl, fps);
    if Double(fps) || Truncating(fps) {
      PackedRounds(neg, e, f, fps);
    } else {
      RoundToSingle(w, fps);
      RoundSpecFields(w, fps);
    }
    hide *;
  }
}
