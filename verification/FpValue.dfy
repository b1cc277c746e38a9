/** What a packed word means as a real number, and what it is for a result to be the correct rounding
    of an exact real. Nothing here mentions how the arithmetic is carried out. */
module FpValue {
  import opened Arith
  import opened FpWord

  function P2(k: int): (r: real)
    ensures r > 0.0
    decreases if k < 0 then -k else k
  {
    if k == 0 then 1.0 else if k > 0 then 2.0 * P2(k - 1) else P2(k + 1) / 2.0
  }

  lemma P2Step(k: int)
    ensures P2(k + 1) == 2.0 * P2(k)
  {
  }

  lemma {:induction false} P2Nat(n: nat)
    ensures P2(n) == Pow2(n) as real
  {
    if n != 0 {
      P2Nat(n - 1);
      assert Pow2(n) == 2 * Pow2(n - 1);
    }
  }

  lemma P2AddNat(a: int, n: nat)
    ensures P2(a + n) == P2(a) * (Pow2(n) as real)
  {
    hide *;
    P2Add(a, n);
    P2Nat(n);
  }

  lemma P2Zero()
    ensures P2(0) == 1.0
  {
  }

  lemma {:induction false} P2Add(a: int, b: int)
    ensures P2(a + b) == P2(a) * P2(b)
    decreases if b < 0 then -b else b
  {
    hide *;
    P2Zero();
    if b > 0 {
      P2Add(a, b - 1);
      P2AddStep(a, b - 1);
    } else if b < 0 {
      P2Add(a, b + 1);
      P2AddStep(a, b);
    } else {
      assert a + b == a && P2(b) == 1.0;
    }
  }

  lemma P2AddStep(a: int, b: int)
    ensures P2(a + b) == P2(a) * P2(b) <==> P2(a + (b + 1)) == P2(a) * P2(b + 1)
  {
    hide *;
    P2Step(a + b);
    P2Step(b);
    assert a + b + 1 == a + (b + 1);
    Doubling(P2(a), P2(b), P2(b + 1), P2(a + b), P2(a + (b + 1)));
  }

  lemma Doubling(x: real, y: real, y2: real, z: real, z2: real)
    requires y2 == 2.0 * y && z2 == 2.0 * z
    ensures z == x * y <==> z2 == x * y2
  {
    assert x * (2.0 * y) == 2.0 * (x * y);
  }

  lemma {:induction false} P2Monotone(a: int, b: int)
    requires a <= b
    ensures P2(a) <= P2(b)
    ensures a < b ==> 2.0 * P2(a) <= P2(b)
    decreases b - a
  {
    if a < b {
      P2Monotone(a, b - 1);
      P2Step(b - 1);
    }
  }

  lemma ScaleMonotone(a: real, b: real, u: real)
    requires u > 0.0
    ensures a <= b <==> a * u <= b * u
    ensures a < b <==> a * u < b * u
  {
  }

  // ---- the real number behind a packed word -----------------------------------------

  /** An exponent field of zero means zero, whatever the sign and fraction hold. */
  function Magnitude(f: Fpac): (r: real)
    ensures r >= 0.0
  {
    if Exponent(f) == 0 then 0.0 else Fraction(f) as real * P2(Exponent(f) - 184)
  }

  function Value(f: Fpac): real {
    if Negative(f) then -Magnitude(f) else Magnitude(f)
  }

  function Abs(x: real): real {
    if x < 0.0 then -x else x
  }

  // ---- correct rounding to a 24- or 56-bit fraction ------------------------------------

  function Full(dbl: bool): nat {
    if dbl then TWO_56 else TWO_24
  }

  /** One unit in the last place of a number with exponent e. */
  function Ulp(dbl: bool, e: int): (r: real)
    ensures r > 0.0
  {
    P2(e - if dbl then 184 else 152)
  }

  /** lo <= x < hi when the bounds count units of u. */
  ghost predicate Between(lo: real, x: real, hi: real, u: real) {
    lo * u <= x < hi * u
  }

  /** x lies in binade b and k is x in units of that binade's last place, rounded half up or cut. */
  ghost predicate RoundsIn(x: real, dbl: bool, trunc: bool, b: int, k: nat) {
    var u := Ulp(dbl, b);
    && Between((Full(dbl) / 2) as real, x, Full(dbl) as real, u)
    && if trunc then Between(k as real, x, k as real + 1.0, u)
       else Between(k as real - 0.5, x, k as real + 0.5, u)
  }

  /** Rounding up to a power of two moves to the next binade. */
  ghost predicate Renormalised(dbl: bool, b: int, k: nat, e: int, n: nat) {
    if k == Full(dbl) then e == b + 1 && n == Full(dbl) / 2 else e == b && n == k
  }

  /** (e, n) is the exponent and fraction of the positive real x rounded to working precision. */
  ghost predicate RoundsTo(x: real, dbl: bool, trunc: bool, e: int, n: nat) {
    exists b: int, k: nat :: RoundsIn(x, dbl, trunc, b, k) && Renormalised(dbl, b, k, e, n)
  }

  lemma BinadeUnique(x: real, dbl: bool, b1: int, b2: int)
    requires Between((Full(dbl) / 2) as real, x, Full(dbl) as real, Ulp(dbl, b1))
    requires Between((Full(dbl) / 2) as real, x, Full(dbl) as real, Ulp(dbl, b2))
    ensures b1 == b2
  {
    hide P2, Full;
    if b1 < b2 {
      BinadesApart(x, dbl, b1, b2);
    } else if b2 < b1 {
      BinadesApart(x, dbl, b2, b1);
    }
  }

  lemma BinadesApart(x: real, dbl: bool, b1: int, b2: int)
    requires x < Full(dbl) as real * Ulp(dbl, b1)
    requires b1 < b2
    ensures x < (Full(dbl) / 2) as real * Ulp(dbl, b2)
  {
    var o := if dbl then 184 else 152;
    P2Monotone(b1 - o, b2 - o);
    var h := (Full(dbl) / 2) as real;
    assert Full(dbl) as real == 2.0 * h;
    hide P2, Full;
    ScaleMonotone(2.0 * Ulp(dbl, b1), Ulp(dbl, b2), h);
  }

  lemma CutUnique(k1: int, k2: int, x: real, u: real, d: real)
    requires u > 0.0
    requires Between(k1 as real - d, x, k1 as real + (1.0 - d), u)
    requires Between(k2 as real - d, x, k2 as real + (1.0 - d), u)
    ensures k1 == k2
  {
    CutOrder(k1 as real - d, k2 as real + (1.0 - d), x, u);
    CutOrder(k2 as real - d, k1 as real + (1.0 - d), x, u);
  }

  lemma CutOrder(a: real, b: real, x: real, u: real)
    requires u > 0.0 && a * u <= x < b * u
    ensures a < b
  {
  }

  lemma LastPlaceUnique(x: real, dbl: bool, trunc: bool, b: int, k1: nat, k2: nat)
    requires RoundsIn(x, dbl, trunc, b, k1) && RoundsIn(x, dbl, trunc, b, k2)
    ensures k1 == k2
  {
    hide P2, Ulp, Full, Between;
    CutUnique(k1, k2, x, Ulp(dbl, b), if trunc then 0.0 else 0.5);
  }

  lemma RoundsInUnique(x: real, dbl: bool, trunc: bool, b1: int, k1: nat, b2: int, k2: nat)
    requires RoundsIn(x, dbl, trunc, b1, k1) && RoundsIn(x, dbl, trunc, b2, k2)
    ensures b1 == b2 && k1 == k2
  {
    hide Between;
    BinadeUnique(x, dbl, b1, b2);
    LastPlaceUnique(x, dbl, trunc, b1, k1, k2);
  }

  /** Rounding is a function: a real has at most one rounded exponent and fraction. */
  lemma RoundingUnique(x: real, dbl: bool, trunc: bool, e1: int, n1: nat, e2: int, n2: nat)
    requires RoundsTo(x, dbl, trunc, e1, n1) && RoundsTo(x, dbl, trunc, e2, n2)
    ensures e1 == e2 && n1 == n2
  {
    hide RoundsIn;
    var b1, k1: nat :| RoundsIn(x, dbl, trunc, b1, k1) && Renormalised(dbl, b1, k1, e1, n1);
    var b2, k2: nat :| RoundsIn(x, dbl, trunc, b2, k2) && Renormalised(dbl, b2, k2, e2, n2);
    RoundsInUnique(x, dbl, trunc, b1, k1, b2, k2);
  }

}
