/** The entry points on 64-bit accumulators, stated on the numbers the words stand for. */
module FpApi {
  import opened Arith
  import opened FpWord
  import opened FpValue
  import opened FpPack
  import opened FpMul
  import opened FpDiv
  import opened FpAdd
  import opened FpAddValue
  import opened FpSubValue
  import opened FpMod
  import opened FpModValue
  import opened FpCompare
  import opened FpConvert
  import opened FpNumber

  /** Operands brought in through ToFac are what the value theorems require: singles have no low half. */
  lemma ToFacClean(v: u64, fps: nat)
    ensures Clean(ToFac(v, fps), fps) && Number(v, Status(fps, 7)) == Value(ToFac(v, fps))
    ensures Double(fps) ==> FromFac(ToFac(v, fps)) == v
  {
    NumberRead(v, fps);
    DivBounds(v, TWO_32);
    hide Number, Value, Status;
  }

  // ---- add and subtract --------------------------------------------------------------------------------------------

  /** Which sums are not correctly rounded: unlike signs, and the larger operand less the bits the smaller keeps when
      it is aligned falls on a rounding boundary although bits were dropped. */
  predicate Slips(a: Fpac, b: Fpac, fps: nat) {
    && Exponent(a) != 0 && Exponent(b) != 0 && Negative(a) != Negative(b)
    && TieLost(Larger(a, b), Smaller(a, b), fps)
  }

  /** A sum that is not zero has the sign of the larger operand. */
  lemma SumSign(a: Fpac, b: Fpac)
    requires Exponent(Larger(a, b)) != 0
    ensures var x := Value(a) + Value(b);
            && (x != 0.0 ==> (x < 0.0 <==> Negative(Larger(a, b))))
            && (Negative(a) == Negative(b) || Exponent(Smaller(a, b)) == 0 ==> x != 0.0)
  {
    var l, s := Larger(a, b), Smaller(a, b);
    ValueSigned(l);
    ValueSigned(s);
    PositiveMagnitude(l);
    if Exponent(s) != 0 {
      MagnitudeOrder(l, s);
    }
    hide Value, Exponent, Negative, Fraction, ExactAligned, P2;
  }

  lemma BothZero(a: Fpac, b: Fpac, fps: nat)
    requires Exponent(Larger(a, b)) == 0
    ensures Exponent(a) == 0 && Exponent(b) == 0 && AddSpec(a, b, fps) == FpResult(ZERO_FAC, false, 0)
  {
    ExponentOrder(Larger(a, b), Smaller(a, b));
    hide Exponent, Fraction;
  }

  lemma TieNotZero(a: Fpac, b: Fpac, fps: nat)
    requires Slips(a, b, fps)
    ensures Value(a) + Value(b) != 0.0
  {
    var l, s := Larger(a, b), Smaller(a, b);
    ExponentOrder(l, s);
    assert Value(a) + Value(b) == Value(l) + Value(s) && Negative(l) != Negative(s);
    assert Lost(FpWord.Fraction(s), Exponent(l) - Exponent(s));
    hide *;
    LostBelow(l, s);
    DifferenceInGuard(l, s);
  }

  /** A sum is the exact one rounded once if and only if it does not slip, zeros of every kind included; and if it
      does, it is one unit in the last place too large. */
  lemma AddRoundsIff(a: Fpac, b: Fpac, fps: nat)
    requires Clean(a, fps) && Clean(b, fps)
    ensures var r := AddSpec(a, b, fps);
            Rounds(Value(a) + Value(b), Double(fps), Truncating(fps), fps, FromFac(r.fac), r.v, r.fec) <==>
            !Slips(a, b, fps)
    ensures Slips(a, b, fps) ==>
              var r := AddSpec(a, b, fps);
              RoundsUp(Value(a) + Value(b), Double(fps), Truncating(fps), fps, FromFac(r.fac), r.v, r.fec)
  {
    var x, l, r := Value(a) + Value(b), Larger(a, b), AddSpec(a, b, fps);
    ZeroRounds(Double(fps), Truncating(fps), fps);
    if Exponent(l) == 0 {
      BothZero(a, b, fps);
      ValueSigned(a);
      ValueSigned(b);
      hide *;
    } else {
      SumSign(a, b);
      assert Slips(a, b, fps) ==> Exponent(Smaller(a, b)) != 0;
      assert !(Negative(a) == Negative(b) || Exponent(Smaller(a, b)) == 0) ==>
             Exponent(a) != 0 && Exponent(b) != 0 && (Slips(a, b, fps) <==> TieLost(l, Smaller(a, b), fps));
      hide Value, Exponent, Negative, AddSpec, Larger, Smaller, Slips, TieLost, CorrectlyRounded, DeliversUp, Rounds,
           RoundsUp, FromFac, Abs, Double, Truncating;
      if x != 0.0 {
        RoundsAsDelivered(x, r, Truncating(fps), fps);
      }
      if Negative(a) == Negative(b) || Exponent(Smaller(a, b)) == 0 {
        AddCorrectlyRounded(a, b, fps);
        assert !Slips(a, b, fps) by { NoSlip(a, b, fps); }
      } else {
        SubtractCorrectIff(a, b, fps);
        if Slips(a, b, fps) {
          TieNotZero(a, b, fps);
          RoundsUpAsDelivered(x, r, fps);
        }
      }
    }
  }

  lemma NoSlip(a: Fpac, b: Fpac, fps: nat)
    requires Negative(a) == Negative(b) || Exponent(Smaller(a, b)) == 0
    ensures !Slips(a, b, fps)
  {
    hide Exponent, Negative, TieLost;
  }

  /** fac += fsrc */
  method Add(facV: u64, fsrcV: u64, fps: nat) returns (r: u64, v: bool, fec: nat)
    ensures var dbl := Status(fps, 7);
            var x, slips := Number(facV, dbl) + Number(fsrcV, dbl), Slips(ToFac(facV, fps), ToFac(fsrcV, fps), fps);
            && (Rounds(x, dbl, Status(fps, 5), fps, r, v, fec) <==> !slips)
            && (slips ==> RoundsUp(x, dbl, Status(fps, 5), fps, r, v, fec))
    ensures var s := AddSpec(ToFac(facV, fps), ToFac(fsrcV, fps), fps); r == FromFac(s.fac) && v == s.v && fec == s.fec
  {
    var a, b := ToFac(facV, fps), ToFac(fsrcV, fps);
    ToFacClean(facV, fps);
    ToFacClean(fsrcV, fps);
    StatusBits(fps);
    AddRoundsIff(a, b, fps);
    hide *;
    var fac;
    fac, v, fec := AddFp11(a, b, fps);
    r := FromFac(fac);
  }

  // ---- multiply and divide -----------------------------------------------------------------------------------------

  function Product(v: u64, w: u64, dbl: bool): real { Number(v, dbl) * Number(w, dbl) }

  function Quotient(v: u64, w: u64, dbl: bool): real
    requires Number(w, dbl) != 0.0
  {
    Number(v, dbl) / Number(w, dbl)
  }

  /** The exact quotient of what two operands stand for. */
  function QuotientOf(a: Fpac, b: Fpac): real
    requires Value(b) != 0.0
  {
    Value(a) / Value(b)
  }

  lemma ProductRead(v: u64, w: u64, fps: nat)
    ensures Product(v, w, Status(fps, 7)) == ProductOf(ToFac(v, fps), ToFac(w, fps))
  {
    NumberRead(v, fps);
    NumberRead(w, fps);
    hide Number, Value, ToFac, Status;
  }

  lemma QuotientRead(v: u64, w: u64, fps: nat)
    requires Value(ToFac(w, fps)) != 0.0
    ensures Number(w, Status(fps, 7)) != 0.0
    ensures Quotient(v, w, Status(fps, 7)) == QuotientOf(ToFac(v, fps), ToFac(w, fps))
  {
    NumberRead(v, fps);
    NumberRead(w, fps);
    hide Number, Value, ToFac, Status;
  }

  lemma ProductSign(x: real, y: real, ax: real, ay: real, nx: bool, ny: bool)
    requires x == (if nx then -ax else ax) && y == (if ny then -ay else ay) && ax > 0.0 && ay > 0.0
    ensures x * y != 0.0 && (x * y < 0.0 <==> nx != ny)
    ensures x / y != 0.0 && (x / y < 0.0 <==> nx != ny)
  {
    PositiveProduct(ax, ay);
    var q := x / y;
    assert q * y == x;
  }

  lemma OperandSigns(a: Fpac, b: Fpac)
    requires Exponent(a) != 0 && Exponent(b) != 0
    ensures ProductOf(a, b) != 0.0 && (ProductOf(a, b) < 0.0 <==> Negative(a) != Negative(b))
    ensures Value(b) != 0.0 && QuotientOf(a, b) != 0.0 && (QuotientOf(a, b) < 0.0 <==> Negative(a) != Negative(b))
  {
    ValueSigned(a);
    ValueSigned(b);
    PositiveMagnitude(a);
    PositiveMagnitude(b);
    hide Value, Magnitude, Exponent, Negative;
    ProductSign(Value(a), Value(b), Magnitude(a), Magnitude(b), Negative(a), Negative(b));
  }

  lemma ZeroOperand(a: Fpac, b: Fpac)
    requires Exponent(a) == 0
    ensures Value(a) == 0.0 && ProductOf(a, b) == 0.0 && ProductOf(b, a) == 0.0
    ensures Value(b) != 0.0 ==> QuotientOf(a, b) == 0.0
  {
    ValueSigned(a);
    hide Value;
  }

  lemma QuotientDelivers(a: Fpac, b: Fpac, fps: nat)
    requires Exponent(a) != 0 && Exponent(b) != 0
    ensures Value(b) != 0.0
    ensures CorrectlyRounded(DivSpec(a, b, fps), Abs(QuotientOf(a, b)), Negative(a) != Negative(b), Truncating(fps),
                             fps)
  {
    DivCorrectlyRounded(a, b, fps);
    hide CorrectlyRounded, DivSpec, Value, Exponent, Negative;
  }

  /** A product is the exact one rounded once, for every pair of operands: a zero of any kind gives the true zero. */
  lemma MulRounds(a: Fpac, b: Fpac, fps: nat)
    ensures var r := MulSpec(a, b, fps);
            Rounds(ProductOf(a, b), Double(fps), Truncating(fps), fps, FromFac(r.fac), r.v, r.fec)
  {
    ZeroRounds(Double(fps), Truncating(fps), fps);
    hide *;
    if Exponent(a) == 0 || Exponent(b) == 0 {
      MulSpecZero(a, b, fps);
      if Exponent(a) == 0 {
        ZeroOperand(a, b);
      } else {
        ZeroOperand(b, a);
      }
    } else {
      OperandSigns(a, b);
      MulCorrectlyRounded(a, b, fps);
      RoundsAsDelivered(ProductOf(a, b), MulSpec(a, b, fps), Truncating(fps), fps);
    }
  }

  lemma ProductRounds(facV: u64, fsrcV: u64, fps: nat)
    ensures var dbl, s := Status(fps, 7), MulSpec(ToFac(facV, fps), ToFac(fsrcV, fps), fps);
            Rounds(Product(facV, fsrcV, dbl), dbl, Status(fps, 5), fps, FromFac(s.fac), s.v, s.fec)
  {
    hide *;
    StatusBits(fps);
    MulRounds(ToFac(facV, fps), ToFac(fsrcV, fps), fps);
    ProductRead(facV, fsrcV, fps);
  }

  /** fac *= fsrc */
  method Mul(facV: u64, fsrcV: u64, fps: nat) returns (r: u64, v: bool, fec: nat)
    ensures var dbl := Status(fps, 7);
            Rounds(Product(facV, fsrcV, dbl), dbl, Status(fps, 5), fps, r, v, fec)
    ensures var s := MulSpec(ToFac(facV, fps), ToFac(fsrcV, fps), fps); r == FromFac(s.fac) && v == s.v && fec == s.fec
  {
    var a, b := ToFac(facV, fps), ToFac(fsrcV, fps);
    ToFacClean(facV, fps);
    ToFacClean(fsrcV, fps);
    StatusBits(fps);
    ProductRounds(facV, fsrcV, fps);
    hide *;
    var fac;
    fac, v, fec := MulFp11(a, b, fps);
    r := FromFac(fac);
  }

  /** A quotient is the exact one rounded once, for every dividend: a zero of any kind, however dirty, gives the true
      zero. */
  lemma DivRounds(a: Fpac, b: Fpac, fps: nat)
    requires Exponent(b) != 0
    ensures Value(b) != 0.0
    ensures var r := DivSpec(a, b, fps);
            Rounds(QuotientOf(a, b), Double(fps), Truncating(fps), fps, FromFac(r.fac), r.v, r.fec)
  {
    ZeroRounds(Double(fps), Truncating(fps), fps);
    OperandSigns(b, b);
    hide *;
    if Exponent(a) == 0 {
      ZeroOperand(a, b);
      ZeroQuotient(a, b, fps);
    } else {
      OperandSigns(a, b);
      QuotientDelivers(a, b, fps);
      RoundsAsDelivered(QuotientOf(a, b), DivSpec(a, b, fps), Truncating(fps), fps);
    }
  }

  lemma ZeroQuotient(a: Fpac, b: Fpac, fps: nat)
    requires Exponent(a) == 0
    ensures DivSpec(a, b, fps) == FpResult(ZERO_FAC, false, 0)
  {
    hide RoundPack, FracQuotient, Fraction, Exponent;
  }

  lemma QuotientRounds(facV: u64, fsrcV: u64, fps: nat)
    requires Exponent(ToFac(fsrcV, fps)) != 0
    ensures Number(fsrcV, Status(fps, 7)) != 0.0
    ensures var dbl, s := Status(fps, 7), DivSpec(ToFac(facV, fps), ToFac(fsrcV, fps), fps);
            Rounds(Quotient(facV, fsrcV, dbl), dbl, Status(fps, 5), fps, FromFac(s.fac), s.v, s.fec)
  {
    hide *;
    StatusBits(fps);
    DivRounds(ToFac(facV, fps), ToFac(fsrcV, fps), fps);
    QuotientRead(facV, fsrcV, fps);
  }

  /** fac /= fsrc. The caller has already trapped a divisor with a zero exponent. */
  method Div(facV: u64, fsrcV: u64, fps: nat) returns (r: u64, v: bool, fec: nat)
    requires Exponent(ToFac(fsrcV, fps)) != 0
    ensures var dbl := Status(fps, 7);
            && Number(fsrcV, dbl) != 0.0
            && Rounds(Quotient(facV, fsrcV, dbl), dbl, Status(fps, 5), fps, r, v, fec)
    ensures var s := DivSpec(ToFac(facV, fps), ToFac(fsrcV, fps), fps); r == FromFac(s.fac) && v == s.v && fec == s.fec
  {
    var a, b := ToFac(facV, fps), ToFac(fsrcV, fps);
    ToFacClean(facV, fps);
    ToFacClean(fsrcV, fps);
    StatusBits(fps);
    QuotientRounds(facV, fsrcV, fps);
    hide *;
    var fac;
    fac, v, fec := DivFp11(a, b, fps);
    r := FromFac(fac);
  }

  /** Add and multiply do not see the order of their operands: result, V and exception code agree bit for
      bit for every pair of accumulators and every status word. */
  lemma AddMulCommute(a: u64, b: u64, fps: nat)
    ensures AddSpec(ToFac(a, fps), ToFac(b, fps), fps) == AddSpec(ToFac(b, fps), ToFac(a, fps), fps)
    ensures MulSpec(ToFac(a, fps), ToFac(b, fps), fps) == MulSpec(ToFac(b, fps), ToFac(a, fps), fps)
  {
    hide *;
    AddCommutes(ToFac(a, fps), ToFac(b, fps), fps);
    MulCommutes(ToFac(a, fps), ToFac(b, fps), fps);
  }

  // ---- modulo ------------------------------------------------------------------------------------------------------

  /** The bound below which a product has a fraction to split off. */
  function SplitBound(dbl: bool): real { P2(if dbl then 56 else 24) }

  /** x as it has to be split: an exact zero; below the bound its integer part t, exactly, and what is left of it
      rounded once - all that is left in single precision, all but one part in 2^57 of x in double; from the bound on
      x itself truncated, and no fraction. */
  ghost predicate Splits(x: real, dbl: bool, trunc: bool, fps: nat, frac: u64, whole: u64, v: bool, fec: nat) {
    if x == 0.0 then frac == 0 && whole == 0 && !v && fec == 0
    else if Abs(x) < SplitBound(dbl) then
      exists t: nat, u: real :: Parts(Abs(x), dbl, t, u) && Number(whole, dbl) == Signed(x, t as real)
        && Rounds(Signed(x, u), dbl, trunc, fps, frac, v, fec)
    else frac == 0 && Rounds(x, dbl, true, fps, whole, v, fec)
  }

  function Signed(x: real, m: real): real { if x < 0.0 then -m else m }

  ghost predicate Parts(x: real, dbl: bool, t: nat, u: real) {
    && t as real <= x < t as real + 1.0 && 0.0 <= u < 1.0 && AccountsFor(t as real + u, x)
    && (!dbl ==> t as real + u == x)
  }

  /** The integer part's word stands for it at either precision. */
  lemma WholeNumber(f: Fpac, dbl: bool)
    requires !dbl ==> f.l == 0
    ensures Number(FromFac(f), dbl) == Value(f)
  {
    NumberOf(f, dbl);
    hide Number, Value, FromFac;
  }

  lemma MakeSplits(x: real, dbl: bool, trunc: bool, fps: nat, frac: u64, whole: u64, v: bool, fec: nat, t: nat, u: real)
    requires x != 0.0 && Abs(x) < SplitBound(dbl) && Parts(Abs(x), dbl, t, u)
    requires Number(whole, dbl) == Signed(x, t as real) && Rounds(Signed(x, u), dbl, trunc, fps, frac, v, fec)
    ensures Splits(x, dbl, trunc, fps, frac, whole, v, fec)
  {
    hide Number, Rounds, Parts, SplitBound, Abs, Signed;
  }

  lemma FractionRounded(x: real, u: real, r: ModResult, fps: nat)
    requires u >= 0.0
    requires if u == 0.0 then r.frac == ZERO_FAC && !r.v && r.fec == 0
             else CorrectlyRounded(FpResult(r.frac, r.v, r.fec), u, x < 0.0, Truncating(fps), fps)
    ensures Rounds(Signed(x, u), Double(fps), Truncating(fps), fps, FromFac(r.frac), r.v, r.fec)
  {
    ZeroRounds(Double(fps), Truncating(fps), fps);
    if u != 0.0 {
      assert Abs(Signed(x, u)) == u && (Signed(x, u) < 0.0 <==> x < 0.0) && Signed(x, u) != 0.0;
      hide *;
      RoundsAsDelivered(Signed(x, u), FpResult(r.frac, r.v, r.fec), Truncating(fps), fps);
    } else {
      assert Signed(x, u) == 0.0;
      hide *;
    }
  }

  /** Every product is split, a zero of any kind into two true zeros. */
  lemma ModSplits(a: Fpac, b: Fpac, fps: nat)
    requires Clean(a, fps) && Clean(b, fps)
    ensures var r := ModSpec(a, b, fps);
            Splits(ProductOf(a, b), Double(fps), Truncating(fps), fps, FromFac(r.frac), FromFac(r.whole), r.v, r.fec)
  {
    var x, r := ProductOf(a, b), ModSpec(a, b, fps);
    hide *;
    if Exponent(a) == 0 || Exponent(b) == 0 {
      ModOfZero(a, b, fps);
      ZeroSplits(Double(fps), Truncating(fps), fps);
    } else {
      BoundIs(Double(fps));
      OperandSigns(a, b);
      if Abs(x) < SplitBound(Double(fps)) {
        var t, u := ModSplitsExactly(a, b, fps);
        SplitPacked(x, t, u, r, fps);
      } else {
        ModAllInteger(a, b, fps);
        AllInteger(x, r, fps);
      }
    }
  }

  lemma ZeroSplits(dbl: bool, trunc: bool, fps: nat)
    ensures Splits(0.0, dbl, trunc, fps, FromFac(ZERO_FAC), FromFac(ZERO_FAC), false, 0)
  {
    hide SplitBound;
  }

  lemma BoundIs(dbl: bool)
    ensures SplitBound(dbl) == P2(if dbl then 56 else 24)
  {
    hide P2;
  }

  lemma SplitPacked(x: real, t: nat, u: real, r: ModResult, fps: nat)
    requires x != 0.0 && Abs(x) < SplitBound(Double(fps))
    requires SplitsProduct(r, Abs(x), x < 0.0, t, u, fps) && AccountsFor(t as real + u, Abs(x))
    requires !Double(fps) ==> t as real + u == Abs(x)
    ensures Splits(x, Double(fps), Truncating(fps), fps, FromFac(r.frac), FromFac(r.whole), r.v, r.fec)
  {
    assert Parts(Abs(x), Double(fps), t, u) && (!Double(fps) ==> r.whole.l == 0);
    assert Value(r.whole) == Signed(x, t as real) && u >= 0.0;
    FractionRounded(x, u, r, fps);
    hide *;
    WholeNumber(r.whole, Double(fps));
    MakeSplits(x, Double(fps), Truncating(fps), fps, FromFac(r.frac), FromFac(r.whole), r.v, r.fec, t, u);
  }

  lemma AllInteger(x: real, r: ModResult, fps: nat)
    requires x != 0.0 && Abs(x) >= SplitBound(Double(fps)) && r.frac == ZERO_FAC
    requires CorrectlyRounded(FpResult(r.whole, r.v, r.fec), Abs(x), x < 0.0, true, fps)
    ensures Splits(x, Double(fps), Truncating(fps), fps, FromFac(r.frac), FromFac(r.whole), r.v, r.fec)
  {
    assert FromFac(ZERO_FAC) == 0;
    RoundsAsDelivered(x, FpResult(r.whole, r.v, r.fec), true, fps);
    hide CorrectlyRounded, Rounds, SplitBound, Abs;
  }

  lemma ModOfZero(a: Fpac, b: Fpac, fps: nat)
    requires Exponent(a) == 0 || Exponent(b) == 0
    ensures ProductOf(a, b) == 0.0 && ModSpec(a, b, fps) == ModResult(ZERO_FAC, ZERO_FAC, false, 0)
  {
    if Exponent(a) == 0 {
      ZeroOperand(a, b);
    } else {
      ZeroOperand(b, a);
    }
    hide Value, Exponent, SplitSpec, FracProduct, Fraction, ProductOf;
  }

  lemma ProductSplits(facV: u64, fsrcV: u64, fps: nat)
    ensures var dbl, s := Status(fps, 7), ModSpec(ToFac(facV, fps), ToFac(fsrcV, fps), fps);
            Splits(Product(facV, fsrcV, dbl), dbl, Status(fps, 5), fps, FromFac(s.frac), FromFac(s.whole), s.v, s.fec)
  {
    ToFacClean(facV, fps);
    ToFacClean(fsrcV, fps);
    hide *;
    StatusBits(fps);
    ModSplits(ToFac(facV, fps), ToFac(fsrcV, fps), fps);
    ProductRead(facV, fsrcV, fps);
  }

  /** The product split into a fraction, for the accumulator, and an integer, for its neighbour. */
  method Mod(facV: u64, fsrcV: u64, fps: nat) returns (frac: u64, whole: u64, v: bool, fec: nat)
    ensures var dbl := Status(fps, 7);
            Splits(Product(facV, fsrcV, dbl), dbl, Status(fps, 5), fps, frac, whole, v, fec)
    ensures var s := ModSpec(ToFac(facV, fps), ToFac(fsrcV, fps), fps);
            frac == FromFac(s.frac) && whole == FromFac(s.whole) && v == s.v && fec == s.fec
  {
    var a, b := ToFac(facV, fps), ToFac(fsrcV, fps);
    ToFacClean(facV, fps);
    ToFacClean(fsrcV, fps);
    StatusBits(fps);
    ProductSplits(facV, fsrcV, fps);
    hide *;
    var i, f;
    i, f, v, fec := ModFp11(a, b, fps);
    frac, whole := FromFac(f), FromFac(i);
  }

  // ---- compare -----------------------------------------------------------------------------------------------------

  /** pdp11_fp_cmp: Z if the numbers are equal, N if the source is the less, for every pair of words. */
  function CompareWords(facV: u64, fsrcV: u64, fps: nat): (c: Comparison)
    ensures var x, y := Number(facV, Status(fps, 7)), Number(fsrcV, Status(fps, 7));
            (c.z <==> y == x) && (c.n <==> y < x) && (c.zeroAc <==> x == 0.0 && y == 0.0)
  {
    NumberRead(facV, fps);
    NumberRead(fsrcV, fps);
    CompareDecidesOrder(ToFac(facV, fps), ToFac(fsrcV, fps));
    Compare(ToFac(facV, fps), ToFac(fsrcV, fps))
  }

  /** So across calls the comparison is a total preorder. */
  lemma ComparePreorder(a: u64, b: u64, c: u64, fps: nat)
    ensures var le := (x: u64, y: u64) => CompareWords(y, x, fps).n || CompareWords(y, x, fps).z;
            && (le(a, b) || le(b, a))
            && (le(a, b) && le(b, c) ==> le(a, c))
            && (le(a, b) && le(b, a) <==> CompareWords(a, b, fps).z)
  {
    hide Compare, Value, Number, Status, ToFac;
  }

  // ---- conversions -------------------------------------------------------------------------------------------------

  /** Two's complement in 32 bits. */
  function Signed32(w: u32): int { if w >= TWO_31 then w - TWO_32 else w }

  /** The integer an operand is for: all of it, or with word length its upper half. */
  function IntegerIn(w: u32, long: bool): real {
    if long then Signed32(w) as real else Signed32(w) as real / 65536.0
  }

  /** LDCif delivers every integer, zero included, rounded once: exactly where it fits. */
  lemma LoadsInteger(facl: u32, fps: nat)
    ensures Rounds(IntegerIn(facl, Status(fps, 6)), Status(fps, 7), Status(fps, 5), fps,
                   FromFac(LoadIntSpec(facl, fps)), false, 0)
  {
    StatusBits(fps);
    var x := IntegerIn(facl, Long(fps));
    if facl == 0 {
      assert x == 0.0 && FromFac(LoadIntSpec(facl, fps)) == 0;
      hide *;
      ZeroRounds(Double(fps), Truncating(fps), fps);
      IsZero();
    } else {
      assert Abs(x) == IntValue(facl, fps) && (x < 0.0 <==> facl >= TWO_31) && x != 0.0;
      hide *;
      LoadRounds(facl, fps);
      RoundsAsDelivered(x, FpResult(LoadIntSpec(facl, fps), false, 0), Truncating(fps), fps);
    }
  }

  lemma IsZero()
    ensures FromFac(ZERO_FAC) == 0
  {
  }

  /** Truncation toward zero. */
  function Toward0(x: real): int { if x < 0.0 then 0 - (-x).Floor else x.Floor }

  predicate Representable(t: int, long: bool) {
    if long then -0x8000_0000 <= t < 0x8000_0000 else -0x8000 <= t < 0x8000
  }

  /** STCfi stores the number truncated toward zero, a word in the upper half, when it can be represented; and
      otherwise zero with C set, and the conversion trap's code (octal 6) when that is enabled. */
  lemma StoresInteger(v: u64, fps: nat)
    ensures var t, long := Toward0(Number(v, Status(fps, 7))), Status(fps, 6);
            var r := StoreInt(Fpac(v / TWO_32, v % TWO_32), fps);
            if Representable(t, long) then !r.c && r.fec == 0 && IntegerIn(r.dst, long) == t as real
            else r.c && r.dst == 0 && r.fec == if Status(fps, 8) then 6 else 0
  {
    StatusBits(fps);
    var f := Fpac(v / TWO_32, v % TWO_32);
    var s := Seen(f, fps);
    DivBounds(v, TWO_32);
    assert FromFac(f) == v;
    NumberOf(f, Double(fps));
    assert s == if Double(fps) then f else Fpac(f.h, 0);
    var m := Magnitude(s).Floor;
    assert Truncates(m, Magnitude(s)) && m >= 0;
    ValueSigned(s);
    SeenFields(f, fps);
    assert Toward0(Value(s)) == if Negative(f) then 0 - m else m;
    hide *;
    StoreTruncates(f, fps, m);
    StoredReads(m, Negative(f), fps);
  }

  lemma StoredReads(m: nat, neg: bool, fps: nat)
    ensures var t, long := if neg then 0 - m else m, Long(fps);
            var r := StoredInt(m, neg, fps);
            if Representable(t, long) then !r.c && r.fec == 0 && IntegerIn(r.dst, long) == t as real
            else r.c && r.dst == 0 && r.fec == if FpsBit(fps, FPS_IC) then 6 else 0
  {
  }

  /** pdp11_fp_round: a double, rounded half up in magnitude, read as a single; out of range as for any result. */
  lemma RoundsToSingle(val: u64, fps: nat)
    requires val / TWO_55 % 256 != 0
    ensures var r := RoundSpec(Fpac(val / TWO_32, val % TWO_32), fps);
            Rounds(Number(val, true), false, false, fps, FromFac(r.fac), r.v, r.fec)
  {
    var f := Fpac(val / TWO_32, val % TWO_32);
    DivBounds(val, TWO_32);
    assert FromFac(f) == val;
    NumberOf(f, true);
    Fields(f);
    ValueSigned(f);
    PositiveMagnitude(f);
    assert Abs(Value(f)) == Magnitude(f) && Value(f) != 0.0;
    RoundToSingle(f, fps);
    var r := RoundSpec(f, fps);
    hide *;
    var e: int, n: nat :| RoundsTo(Magnitude(f), false, false, e, n) && Delivers(r, false, fps, Negative(f), e, n);
    RoundedRange(Magnitude(f), false, false, e, n);
    DeliversLeaves(r, false, fps, Negative(f), e, n);
    MakeRounds(Value(f), false, false, fps, FromFac(r.fac), r.v, r.fec, e, n);
  }

  lemma MakeRounds(x: real, dbl: bool, trunc: bool, fps: nat, r: u64, v: bool, fec: nat, e: int, n: nat)
    requires x != 0.0 && RoundsTo(Abs(x), dbl, trunc, e, n) && Leaves(r, v, fec, fps, dbl, x < 0.0, e, n)
    ensures Rounds(x, dbl, trunc, fps, r, v, fec)
  {
    hide RoundsTo, Leaves, Abs;
  }
}
