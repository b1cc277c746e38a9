/** Floating compare decides the order of the represented values. */
module FpCompare {
  import opened Arith
  import opened FpWord
  import opened FpValue
  import opened FpMul
  import opened FpAdd
  import opened FpAddValue

  /** Condition codes N and Z, and whether the accumulator is to be replaced by a true zero. */
  datatype Comparison = Comparison(n: bool, z: bool, zeroAc: bool)

  /** Any pattern with a zero exponent field is taken as zero. */
  function CleanZero(f: Fpac): Fpac {
    if Exponent(f) == 0 then ZERO_FAC else f
  }

  /** Compare source against accumulator: N from the source's sign, flipped when the signs agree, the
      accumulator is not zero and the source word is the smaller. */
  function Compare(fac0: Fpac, fsrc0: Fpac): Comparison {
    var fsrc, fac := CleanZero(fsrc0), CleanZero(fac0);
    if fsrc.h == fac.h && fsrc.l == fac.l then
      Comparison(false, true, fsrc.h == 0 && fsrc.l == 0)
    else
      var n := Negative(fsrc);
      if Negative(fsrc) == Negative(fac) && fac.h != 0 && FLt(fsrc, fac) then Comparison(!n, false, false)
      else Comparison(n, false, false)
  }

  // ---- words order as magnitudes do --------------------------------------------------------------

  lemma SameExponentOrder(f1: nat, f2: nat, m1: real, m2: real, e: int)
    requires IsScaled(m1, f1, e) && IsScaled(m2, f2, e) && f2 < f1
    ensures m2 < m1
  {
    hide P2;
    ScaleMonotone(f2 as real, f1 as real, P2(e));
  }

  lemma BinadeOrder(f1: nat, f2: nat, m1: real, m2: real, e1: int, e2: int)
    requires IsScaled(m1, f1, e1) && IsScaled(m2, f2, e2) && e2 < e1
    requires TWO_55 <= f1 && f2 < TWO_56
    ensures m2 < m1
  {
    P2Monotone(e2, e1);
    hide P2;
    BinadeChain(TWO_55 as real, f1 as real, f2 as real, P2(e1), P2(e2), m1, m2);
  }

  lemma BinadeChain(d: real, f1: real, f2: real, u1: real, u2: real, m1: real, m2: real)
    requires d > 0.0 && u2 > 0.0 && 2.0 * u2 <= u1 && d <= f1 && f2 < 2.0 * d
    requires m1 == f1 * u1 && m2 == f2 * u2
    ensures m2 < m1
  {
    ScaleMonotone(f2, 2.0 * d, u2);
    ScaleMonotone(2.0 * u2, u1, d);
    ScaleMonotone(d, f1, u1);
    assert 2.0 * d * u2 == 2.0 * u2 * d;
  }

  lemma StrictOrder(a: Fpac, b: Fpac)
    requires Exponent(a) != 0 && Unsigned(b) < Unsigned(a)
    ensures Magnitude(b) < Magnitude(a)
  {
    UnsignedFields(a);
    UnsignedFields(b);
    SignedValue(a);
    assert Magnitude(a) > 0.0 by {
      hide Fraction, Exponent;
      PositiveMagnitude(a);
    }
    if Exponent(b) != 0 {
      SignedValue(b);
      hide IsScaled, Magnitude, Unsigned;
      if Exponent(b) == Exponent(a) {
        SameExponentOrder(Fraction(a), Fraction(b), Magnitude(a), Magnitude(b), Exponent(a) - 184);
      } else {
        BinadeOrder(Fraction(a), Fraction(b), Magnitude(a), Magnitude(b), Exponent(a) - 184, Exponent(b) - 184);
      }
    }
  }

  lemma PositiveMagnitude(a: Fpac)
    requires Exponent(a) != 0
    ensures Magnitude(a) > 0.0
  {
    SignedValue(a);
    hide *;
    ScaledPositive(Magnitude(a), Fraction(a), Exponent(a) - 184);
  }

  lemma ScaledPositive(m: real, f: nat, e: int)
    requires IsScaled(m, f, e) && f > 0
    ensures m > 0.0
  {
    hide P2;
    PositiveProduct(f as real, P2(e));
  }

  lemma CleanZeroValue(f: Fpac)
    ensures Value(CleanZero(f)) == Value(f)
    ensures Exponent(CleanZero(f)) == Exponent(f)
    ensures Exponent(f) == 0 ==> CleanZero(f) == ZERO_FAC
    ensures Exponent(f) != 0 ==> CleanZero(f) == f && f.h != 0
  {
    assert Exponent(ZERO_FAC) == 0;
    assert f.h == 0 ==> Exponent(f) == 0;
    ValueSigned(f);
    ValueSigned(ZERO_FAC);
    hide Value, Magnitude, Exponent;
  }

  lemma WordOrder(a: Fpac, b: Fpac)
    ensures Negative(a) == Negative(b) ==> (FLt(a, b) <==> Unsigned(a) < Unsigned(b))
    ensures Negative(a) == Negative(b) && Unsigned(a) == Unsigned(b) ==> a == b
  {
    assert a.h % TWO_31 == if Negative(a) then a.h - TWO_31 else a.h as int;
    assert b.h % TWO_31 == if Negative(b) then b.h - TWO_31 else b.h as int;
  }

  /** Distinct cleaned words have distinct magnitudes or opposite signs. */
  lemma MagnitudeDecides(a: Fpac, b: Fpac)
    requires Exponent(a) != 0 && Exponent(b) != 0 && Negative(a) == Negative(b)
    ensures Magnitude(a) < Magnitude(b) <==> FLt(a, b)
    ensures Magnitude(a) == Magnitude(b) <==> a == b
  {
    WordOrder(a, b);
    hide Magnitude, Unsigned, FLt, Exponent, Negative;
    if Unsigned(a) < Unsigned(b) {
      StrictOrder(b, a);
    } else if Unsigned(b) < Unsigned(a) {
      StrictOrder(a, b);
    }
  }

  /** Z if and only if the represented values are equal, N if and only if the source is less, for every pair
      of words: dirty and negative zeros all compare as zero. */
  lemma CompareDecidesOrder(fac: Fpac, fsrc: Fpac)
    ensures var c := Compare(fac, fsrc);
            && (c.z <==> Value(fsrc) == Value(fac))
            && (c.n <==> Value(fsrc) < Value(fac))
            && (c.zeroAc <==> Value(fsrc) == 0.0 && Value(fac) == 0.0)
  {
    CleanZeroValue(fac);
    CleanZeroValue(fsrc);
    ValueSigned(fac);
    ValueSigned(fsrc);
    if Exponent(fac) != 0 {
      PositiveMagnitude(fac);
    }
    if Exponent(fsrc) != 0 {
      PositiveMagnitude(fsrc);
    }
    if Exponent(fac) != 0 && Exponent(fsrc) != 0 && Negative(fac) == Negative(fsrc) {
      MagnitudeDecides(fsrc, fac);
      MagnitudeDecides(fac, fsrc);
    }
    hide Value, Magnitude, Exponent;
  }
}
