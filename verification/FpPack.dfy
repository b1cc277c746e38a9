/** Rounding a guarded fraction and packing it: the tail every arithmetic operation shares. */
module FpPack {
  import opened Arith
  import opened FpWord
  import opened FpValue

  const FPS_T: nat := 0x20
  const FPS_L: nat := 0x40
  const FPS_D: nat := 0x80
  const FPS_IC: nat := 0x100
  const FPS_IV: nat := 0x200
  const FPS_IU: nat := 0x400
  const FPS_IUV: nat := 0x800

  const FEC_ICVT: nat := 6
  const FEC_OVFLO: nat := 8
  const FEC_UNFLO: nat := 10
  const FEC_UNDFV: nat := 12

  predicate FpsBit(fps: nat, mask: nat)
    requires mask > 0
  {
    fps / mask % 2 == 1
  }

  predicate Double(fps: nat) { FpsBit(fps, FPS_D) }

  predicate Truncating(fps: nat) { FpsBit(fps, FPS_T) }

  predicate Long(fps: nat) { FpsBit(fps, FPS_L) }

  /** A maskable exception whose enable bit is clear is dropped. */
  predicate NoTrap(fps: nat, code: nat) {
    FEC_ICVT <= code <= FEC_UNDFV &&
    !FpsBit(fps, match code / 2
                 case 3 => FPS_IC
                 case 4 => FPS_IV
                 case 5 => FPS_IU
                 case _ => FPS_IUV)
  }

  type u64 = v: int | 0 <= v < 0x1_0000_0000_0000_0000

  /** Single precision ignores the low 32 bits of an operand. */
  function ToFac(v: u64, fps: nat): Fpac {
    ModUnique(v, TWO_32, v / TWO_32, v % TWO_32);
    Fpac(v / TWO_32, if Double(fps) then v % TWO_32 else 0)
  }

  function FromFac(f: Fpac): u64 {
    f.h * TWO_32 + f.l
  }

  /** An operation's packed result, its V condition and the exception code it posts (0 for none). */
  datatype FpResult = FpResult(fac: Fpac, v: bool, fec: nat)

  function PackWord(neg: bool, e: int, f: nat): (w: Fpac)
  {
    Fpac((if neg then TWO_31 else 0) + e % 256 * TWO_23 + f / TWO_32 % TWO_23, f % TWO_32)
  }

  /** Exponents above 255 overflow, below 1 underflow; a masked exception yields zero. */
  function Deliver(w: Fpac, e: int, fps: nat): FpResult {
    if e > 255 then
      if NoTrap(fps, FEC_OVFLO) then FpResult(ZERO_FAC, true, 0) else FpResult(w, true, FEC_OVFLO)
    else if e <= 0 then
      if NoTrap(fps, FEC_UNFLO) then FpResult(ZERO_FAC, false, 0) else FpResult(w, false, FEC_UNFLO)
    else FpResult(w, false, 0)
  }

  /** Half of the last kept place, in guard units. */
  function HalfPlace(dbl: bool): nat {
    if dbl then 4 else TWO_34
  }

  /** The guarded fraction g (hidden bit at 58) after rounding, with the exponent it then has. */
  function Rounded(exp: int, g: nat, round: bool, dbl: bool): (int, nat) {
    var g' := if round then g + HalfPlace(dbl) else g;
    if g' >= TWO_59 then (exp + 1, g' / 2) else (exp, g')
  }

  function RoundPack(neg: bool, exp: int, g: nat, r: bool, fps: nat): FpResult {
    var (e, g') := Rounded(exp, g, r && !Truncating(fps), Double(fps));
    Deliver(PackWord(neg, e, g' / 8), e, fps)
  }

  lemma TopBit(f: Fpac)
    requires Val(f) < 2 * TWO_59
    ensures GetBit(f.h, 27) <==> Val(f) >= TWO_59
  {
    Pow2Constants();
    hide Pow2;
    var q := if Val(f) >= TWO_59 then 1 else 0;
    DivUnique(f.h, 0x800_0000, q);
  }

  lemma HiddenBit(f: Fpac)
    requires Val(f) < TWO_59
    ensures GetBit(f.h, 26) <==> Val(f) >= TWO_58
  {
    Pow2Constants();
    hide Pow2;
    var q := if Val(f) >= TWO_58 then 1 else 0;
    DivUnique(f.h, 0x400_0000, q);
  }

  lemma HalvesOf(f: Fpac)
    ensures Val(f) / TWO_32 == f.h && Val(f) % TWO_32 == f.l
  {
    ModUnique(Val(f), TWO_32, f.h, f.l);
  }

  /** Add half of the last kept place; a carry out of the fraction renormalises it. */
  method RoundUp(fracp: Fpac, exp0: int, dbl: bool) returns (frac: Fpac, exp: int)
    requires TWO_58 <= Val(fracp) < TWO_59
    ensures (exp, Val(frac)) == Rounded(exp0, Val(fracp), true, dbl)
  {
    frac, exp := fracp, exp0;
    if dbl {
      frac := FAdd(Fpac(0, 4), frac);
    } else {
      frac := FAdd(Fpac(4, 0), frac);
    }
    Wrap(Val(fracp) + HalfPlace(dbl), TWO_64);
    TopBit(frac);
    if GetBit(frac.h, 27) {
      frac := FRsh1(frac);
      exp := exp + 1;
    }
  }

  method RoundAndPack(facp: Fpac, exp0: int, fracp: Fpac, r: bool, fps: nat)
    returns (fac: Fpac, v: bool, fec: nat)
    requires TWO_58 <= Val(fracp) < TWO_59
    ensures FpResult(fac, v, fec) == RoundPack(Negative(facp), exp0, Val(fracp), r, fps)
  {
    var frac, exp := fracp, exp0;
    v, fec := false, 0;
    if r && !Truncating(fps) {
      frac, exp := RoundUp(frac, exp, Double(fps));
    }
    hide NoTrap, FpsBit, Truncating, Double, Rounded, TWO_58;
    ghost var g := Val(frac);
    assert Pow2(3) == 8;
    frac := FRshK(frac, 3);
    HalvesOf(frac);
    assert g / 8 == Val(frac);
    fac := Fpac((if Negative(facp) then TWO_31 else 0) + exp % 256 * TWO_23 + frac.h % TWO_23, frac.l);
    assert fac == PackWord(Negative(facp), exp, g / 8);
    if exp > 255 {
      v := true;
      if NoTrap(fps, FEC_OVFLO) {
        fac := ZERO_FAC;
      } else {
        fec := FEC_OVFLO;
      }
    } else if exp <= 0 {
      if NoTrap(fps, FEC_UNFLO) {
        fac := ZERO_FAC;
      } else {
        fec := FEC_UNFLO;
      }
    }
  }

  // ---- what rounding and packing achieve ------------------------------------------------------

  /** w holds sign, exponent and an n-unit fraction; the low half of a single is not looked at. */
  predicate Holds(w: Fpac, dbl: bool, neg: bool, e: int, n: nat) {
    && w.h == (if neg then TWO_31 else 0) + e % 256 * TWO_23 + (if dbl then n / TWO_32 else n) % TWO_23
    && (dbl ==> w.l == n % TWO_32)
  }

  /** The result a number with exponent e and fraction n has to come out as, exceptions included. */
  predicate Delivers(res: FpResult, dbl: bool, fps: nat, neg: bool, e: int, n: nat) {
    if e > 255 then
      res.v && if FpsBit(fps, FPS_IV) then res.fec == FEC_OVFLO && Holds(res.fac, dbl, neg, e, n)
               else res.fec == 0 && res.fac == ZERO_FAC
    else if e < 1 then
      !res.v && if FpsBit(fps, FPS_IU) then res.fec == FEC_UNFLO && Holds(res.fac, dbl, neg, e, n)
                else res.fec == 0 && res.fac == ZERO_FAC
    else
      !res.v && res.fec == 0 && Holds(res.fac, dbl, neg, e, n)
  }

  /** res is exactly what rounding the positive real x once, with this sign, delivers. */
  ghost predicate CorrectlyRounded(res: FpResult, x: real, neg: bool, trunc: bool, fps: nat) {
    exists e: int, n: nat :: RoundsTo(x, Double(fps), trunc, e, n) && Delivers(res, Double(fps), fps, neg, e, n)
  }

  /** The last place kept, in guard units. */
  function Place(dbl: bool): nat {
    2 * HalfPlace(dbl)
  }

  /** The guarded fraction in units of its last kept place. */
  function Kept(g: nat, round: bool, dbl: bool): nat {
    (if round then g + HalfPlace(dbl) else g) / Place(dbl)
  }

  /** g stands for an exact number of guard units somewhere in [g, g + s), and no rounding boundary lies
      strictly inside that gap: g may have been doubled after being cut (s == 2), and in single precision
      it may have been cut at the word boundary. */
  predicate Gap(dbl: bool, g: nat, s: nat) {
    || s == 1
    || (s == 2 && g % 2 == 0)
    || (!dbl && s == TWO_32 && g % TWO_32 == 0)
    || (!dbl && s == 2 * TWO_32 && g % (2 * TWO_32) == 0)
  }

  /** The rounding step keeps the integer nearest below (or half up), even when the guarded fraction
      was obtained by doubling a truncated one (s == 2): no rounding boundary lies between. */
  lemma KeptBounds(g: nat, round: bool, dbl: bool, s: nat)
    requires TWO_58 <= g < TWO_59 && Gap(dbl, g, s)
    ensures var k, c := Kept(g, round, dbl), if round then HalfPlace(dbl) else 0;
            && k * Place(dbl) - c <= g && g + s <= (k + 1) * Place(dbl) - c
            && Full(dbl) / 2 <= k <= Full(dbl)
            && Full(dbl) / 2 * Place(dbl) <= g && g + s <= Full(dbl) * Place(dbl)
  {
    var c := if round then HalfPlace(dbl) else 0;
    EvenGap(g, c, dbl, s);
  }

  lemma EvenGap(g: nat, c: nat, dbl: bool, s: nat)
    requires Gap(dbl, g, s)
    requires c == 0 || c == HalfPlace(dbl)
    ensures var k, p := (g + c) / Place(dbl), Place(dbl); k * p - c <= g && g + s <= (k + 1) * p - c
  {
    var p := Place(dbl);
    var k, r := (g + c) / p, (g + c) % p;
    assert g + c == k * p + r && r < p;
    GapUnits(g, dbl, s);
    hide *;
    GapOf(g, c, HalfPlace(dbl), s, g / s, HalfPlace(dbl) / s, p, k, r);
  }

  lemma GapUnits(g: nat, dbl: bool, s: nat)
    requires Gap(dbl, g, s)
    ensures s > 0 && g == g / s * s && HalfPlace(dbl) == HalfPlace(dbl) / s * s && Place(dbl) == 2 * HalfPlace(dbl)
  {
    assert s == 1 || s == 2 || s == TWO_32 || s == 2 * TWO_32;
  }

  /** When g and half a place are both multiples of s, so is every boundary, and none falls between g and g + s. */
  lemma GapOf(g: nat, c: nat, h: nat, s: nat, a: nat, b: nat, p: nat, k: nat, r: nat)
    requires s > 0 && (c == 0 || c == h) && g == a * s && h == b * s && p == 2 * h
    requires g + c == k * p + r && r < p
    ensures k * p - c <= g && g + s <= (k + 1) * p - c
  {
    assert (a + b) * s == a * s + b * s && 2 * b * s == 2 * (b * s);
    MultiplesApart(g + c, s, if c == 0 then a else a + b, 2 * b, p, k, r);
  }

  lemma MultiplesApart(n: nat, s: nat, x: nat, m: nat, p: nat, k: nat, r: nat)
    requires s > 0 && n == x * s && p == m * s && n == k * p + r && r < p
    ensures n + s <= (k + 1) * p
  {
    assert (k + 1) * p == k * p + p;
    NextMultiple(x, m, s, k + 1);
  }

  /** Packing the rounded fraction stores those kept places, renormalised on a carry out. */
  lemma RoundedKeeps(exp: int, g: nat, round: bool, dbl: bool)
    requires TWO_58 <= g < TWO_59
    ensures var (e, g') := Rounded(exp, g, round, dbl);
            var k := Kept(g, round, dbl);
            var n := if dbl then g' / 8 else g' / TWO_35;
            Renormalised(dbl, exp, k, e, n)
  {
    var c := if round then HalfPlace(dbl) else 0;
    var (e, g') := Rounded(exp, g, round, dbl);
    if g + c >= TWO_59 {
      DivDiv(g + c, 2, 8);
      DivDiv(g + c, 2, TWO_35);
    }
  }

  lemma PackWordHolds(dbl: bool, neg: bool, e: int, f: nat)
    ensures Holds(PackWord(neg, e, f), dbl, neg, e, if dbl then f else f / TWO_32)
  {
  }

  lemma DeliverDelivers(dbl: bool, neg: bool, e: int, f: nat, fps: nat)
    ensures Delivers(Deliver(PackWord(neg, e, f), e, fps), dbl, fps, neg, e, if dbl then f else f / TWO_32)
  {
    PackWordHolds(dbl, neg, e, f);
  }

  lemma GuardUnit(dbl: bool, exp: int)
    ensures Ulp(dbl, exp) == Place(dbl) as real * P2(exp - 187)
  {
    Pow2Constants();
    hide P2, Pow2;
    if dbl {
      P2AddNat(exp - 187, 3);
    } else {
      P2AddNat(exp - 187, 35);
      Pow2Add(32, 3);
    }
  }

  /** The same bounds, once y and the place are both scaled by gu. */
  lemma InPlaces(x: real, y: real, gu: real, u: real, p: real, lo: real, hi: real)
    requires gu > 0.0 && u == p * gu && x == y * gu
    requires Between(lo, y, hi, p)
    ensures Between(lo, x, hi, u)
  {
    ScaleMonotone(lo * p, y, gu);
    ScaleMonotone(y, hi * p, gu);
    assert lo * u == lo * p * gu;
    assert hi * u == hi * p * gu;
  }

  /** x is y guard units of a fraction with exponent e. */
  ghost predicate IsGuard(x: real, y: real, e: int) {
    x == y * P2(e - 187)
  }

  lemma KeptRoundsIn(exp: int, g: nat, round: bool, dbl: bool, x: real, y: real, s: nat)
    requires TWO_58 <= g < TWO_59 && Gap(dbl, g, s)
    requires g as real <= y < (g + s) as real && IsGuard(x, y, exp)
    ensures RoundsIn(x, dbl, !round, exp, Kept(g, round, dbl))
  {
    KeptBounds(g, round, dbl, s);
    hide P2, RoundsIn, IsGuard, Kept;
    CountsRoundIn(exp, g, s, Kept(g, round, dbl), round, dbl, x, y);
  }

  /** k is right for every y in [g, g + s) when that whole interval lies in k's place and in the binade. */
  lemma CountsRoundIn(exp: int, g: nat, s: nat, k: nat, round: bool, dbl: bool, x: real, y: real)
    requires var c := if round then HalfPlace(dbl) else 0;
             k * Place(dbl) - c <= g && g + s <= (k + 1) * Place(dbl) - c
    requires Full(dbl) / 2 * Place(dbl) <= g && g + s <= Full(dbl) * Place(dbl)
    requires g as real <= y < (g + s) as real && IsGuard(x, y, exp)
    ensures RoundsIn(x, dbl, !round, exp, k)
  {
    hide P2, RoundsIn, Between;
    KeptInReals(g, k, round, dbl, s, y);
    GuardUnit(dbl, exp);
    hide *;
    IsGuardUnit(x, y, exp);
    PlacesRoundIn(x, y, P2(exp - 187), Place(dbl) as real, dbl, !round, exp, k);
  }

  lemma IsGuardUnit(x: real, y: real, e: int)
    requires IsGuard(x, y, e)
    ensures x == y * P2(e - 187)
  {
  }

  lemma PlacesRoundIn(x: real, y: real, gu: real, p: real, dbl: bool, trunc: bool, b: int, k: nat)
    requires gu > 0.0 && Ulp(dbl, b) == p * gu && x == y * gu
    requires Between((Full(dbl) / 2) as real, y, Full(dbl) as real, p)
    requires if trunc then Between(k as real, y, k as real + 1.0, p)
             else Between(k as real - 0.5, y, k as real + 0.5, p)
    ensures RoundsIn(x, dbl, trunc, b, k)
  {
    hide Between, Ulp, Full;
    InPlaces(x, y, gu, Ulp(dbl, b), p, (Full(dbl) / 2) as real, Full(dbl) as real);
    if trunc {
      InPlaces(x, y, gu, Ulp(dbl, b), p, k as real, k as real + 1.0);
    } else {
      InPlaces(x, y, gu, Ulp(dbl, b), p, k as real - 0.5, k as real + 0.5);
    }
  }

  lemma KeptInReals(g: nat, k: nat, round: bool, dbl: bool, s: nat, y: real)
    requires var c := if round then HalfPlace(dbl) else 0;
             k * Place(dbl) - c <= g && g + s <= (k + 1) * Place(dbl) - c
    requires Full(dbl) / 2 * Place(dbl) <= g && g + s <= Full(dbl) * Place(dbl)
    requires g as real <= y < (g + s) as real
    ensures var p := Place(dbl) as real;
            && Between((Full(dbl) / 2) as real, y, Full(dbl) as real, p)
            && if round then Between(k as real - 0.5, y, k as real + 0.5, p)
               else Between(k as real, y, k as real + 1.0, p)
  {
    assert HalfPlace(dbl) > 0;
    hide Full, Between, HalfPlace;
    BetweenCounts(Full(dbl) / 2, Full(dbl), HalfPlace(dbl), 0, g, s, y);
    BetweenCounts(k, k + 1, HalfPlace(dbl), if round then HalfPlace(dbl) else 0, g, s, y);
    assert (k + 1) as real == k as real + 1.0 && (k + 1) as real - 0.5 == k as real + 0.5;
  }

  lemma BetweenCounts(lo: nat, hi: nat, h: nat, c: nat, g: nat, s: nat, y: real)
    requires h > 0 && (c == 0 || c == h)
    requires lo * (2 * h) - c <= g && g + s <= hi * (2 * h) - c
    requires g as real <= y < (g + s) as real
    ensures c == 0 ==> Between(lo as real, y, hi as real, (2 * h) as real)
    ensures c == h ==> Between(lo as real - 0.5, y, hi as real - 0.5, (2 * h) as real)
  {
    var p := (2 * h) as real;
    RealProduct(lo, 2 * h);
    RealProduct(hi, 2 * h);
    HalfOff(lo as real, p);
    HalfOff(hi as real, p);
    InBounds(lo * (2 * h), hi * (2 * h), c, g, s, y);
    assert h as real == 0.5 * p;
  }

  lemma InBounds(lo: int, hi: int, c: int, g: int, s: int, y: real)
    requires lo - c <= g && g + s <= hi - c && g as real <= y < (g + s) as real
    ensures lo as real - c as real <= y < hi as real - c as real
  {
  }

  lemma RealProduct(a: int, b: int)
    ensures (a * b) as real == a as real * b as real
  {
  }

  lemma HalfOff(a: real, p: real)
    ensures (a - 0.5) * p == a * p - p / 2.0
  {
  }

  /** Rounding and packing a guarded fraction g that stands for the exact y guard units rounds y once. */
  lemma RoundPackCorrect(neg: bool, exp: int, g: nat, r: bool, fps: nat, x: real, y: real, s: nat)
    requires TWO_58 <= g < TWO_59 && Gap(Double(fps), g, s)
    requires g as real <= y < (g + s) as real && IsGuard(x, y, exp)
    ensures CorrectlyRounded(RoundPack(neg, exp, g, r, fps), x, neg, !r || Truncating(fps), fps)
  {
    var round, dbl := r && !Truncating(fps), Double(fps);
    KeptRoundsIn(exp, g, round, dbl, x, y, s);
    RoundPackDelivers(neg, exp, g, r, fps);
    var (e, g') := Rounded(exp, g, round, dbl);
    hide *;
    RoundedDelivers(RoundPack(neg, exp, g, r, fps), x, neg, !round, fps, exp, Kept(g, round, dbl),
                    e, if dbl then g' / 8 else g' / TWO_35);
  }

  lemma RoundPackDelivers(neg: bool, exp: int, g: nat, r: bool, fps: nat)
    requires TWO_58 <= g < TWO_59
    ensures var round, dbl := r && !Truncating(fps), Double(fps);
            var (e, g') := Rounded(exp, g, round, dbl);
            var n := if dbl then g' / 8 else g' / TWO_35;
            && Renormalised(dbl, exp, Kept(g, round, dbl), e, n)
            && Delivers(RoundPack(neg, exp, g, r, fps), dbl, fps, neg, e, n)
  {
    var round, dbl := r && !Truncating(fps), Double(fps);
    var (e, g') := Rounded(exp, g, round, dbl);
    RoundedKeeps(exp, g, round, dbl);
    DivDiv(g', 8, TWO_32);
    DeliverDelivers(dbl, neg, e, g' / 8, fps);
    hide Rounded, Kept, Renormalised, Delivers, Deliver, PackWord;
  }

  lemma RoundedDelivers(res: FpResult, x: real, neg: bool, trunc: bool, fps: nat, b: int, k: nat, e: int, n: nat)
    requires RoundsIn(x, Double(fps), trunc, b, k)
    requires Renormalised(Double(fps), b, k, e, n)
    requires Delivers(res, Double(fps), fps, neg, e, n)
    ensures CorrectlyRounded(res, x, neg, trunc, fps)
  {
  }
}
