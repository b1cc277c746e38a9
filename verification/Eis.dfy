/** ASH and ASHC: shifts by a signed count from -32 to 31, computed at a stroke, against the same shift done one
    bit at a time. */
module Eis {
  import opened Arith
  import opened Words

  /** Two's complement at the two widths the shifts work on. */
  function Modulus(wide: bool): (m: nat)
    ensures m > 1
  {
    if wide then TWO_32 else 0x1_0000
  }

  predicate Fits(x: int, wide: bool) {
    0 <= 2 * x + Modulus(wide) < 2 * Modulus(wide)
  }

  /** The signed number a pattern of that width stands for. */
  function Signed(w: int, wide: bool): (s: int)
    ensures Fits(s, wide)
    ensures Fits(w, wide) ==> s == w
  {
    var p := w % Modulus(wide);
    if 2 * p >= Modulus(wide) then p - Modulus(wide) else p
  }

  // ---- one bit at a time ----------------------------------------------------------------------------------

  /** A shift's outcome: the value, the last bit shifted out, and whether the sign ever changed. */
  datatype Shifted = Shifted(value: int, carry: bool, overflow: bool)

  function StepLeft(x: Shifted, wide: bool): Shifted {
    var value := Signed(2 * x.value, wide);
    Shifted(value, x.value < 0, x.overflow || (value < 0) != (x.value < 0))
  }

  /** An arithmetic shift right never changes the sign. */
  function StepRight(x: Shifted): Shifted {
    Shifted(x.value / 2, x.value % 2 == 1, x.overflow)
  }

  function Left(s: int, n: nat, wide: bool): Shifted {
    if n == 0 then Shifted(s, false, false) else StepLeft(Left(s, n - 1, wide), wide)
  }

  function Right(s: int, n: nat): Shifted {
    if n == 0 then Shifted(s, false, false) else StepRight(Right(s, n - 1))
  }

  /** A six-bit shift code: up to 31 places left, or from 32 down to 1 place right. */
  function Reference(s: int, code: nat, wide: bool): Shifted
    requires code < 64
  {
    if code < 32 then Left(s, code, wide) else Right(s, 64 - code)
  }

  // ---- at a stroke ----------------------------------------------------------------------------------------

  /** The signed reading is the one number in range that differs by a multiple of the modulus. */
  lemma SignedIs(w: int, v: int, k: int, wide: bool)
    requires Fits(v, wide) && w == v + k * Modulus(wide)
    ensures Signed(w, wide) == v
  {
    var m := Modulus(wide);
    if v >= 0 {
      ModUnique(w, m, k, v);
    } else {
      assert (k - 1) * m == k * m - m;
      ModUnique(w, m, k - 1, v + m);
    }
  }

  lemma SignedDiffers(w: int, wide: bool) returns (k: int)
    ensures w == Signed(w, wide) + k * Modulus(wide)
    ensures Fits(w, wide) <==> k == 0
  {
    var m := Modulus(wide);
    var q, p := w / m, w % m;
    assert w == q * m + p;
    k := if 2 * p >= m then q + 1 else q;
    assert (q + 1) * m == q * m + m;
    OutOfRange(Signed(w, wide), k, m, k * m);
  }

  lemma OutOfRange(v: int, k: int, m: nat, km: int)
    requires km == k * m && m > 0 && 0 <= 2 * v + m < 2 * m
    ensures k != 0 ==> !(0 <= 2 * (v + km) + m < 2 * m) && !(0 <= 4 * (v + km) + m < 2 * m)
  {
    if k > 0 {
      MulMonotone(1, k, m);
    } else if k < 0 {
      MulMonotone(k, -1, m);
    }
  }

  /** Doubling once more, whatever was lost before. */
  lemma Doubled(y: int, wide: bool)
    ensures Signed(2 * Signed(y, wide), wide) == Signed(2 * y, wide)
    ensures Signed(y, wide) < 0 <==> (2 * y) / Modulus(wide) % 2 == 1
    ensures !Fits(2 * y, wide) <==>
            !Fits(y, wide) || (Signed(2 * Signed(y, wide), wide) < 0) != (Signed(y, wide) < 0)
  {
    var m, v := Modulus(wide), Signed(y, wide);
    var k := SignedDiffers(y, wide);
    var j := SignedDiffers(2 * v, wide);
    var u := Signed(2 * v, wide);
    assert (j + 2 * k) * m == j * m + 2 * (k * m);
    SignedIs(2 * y, u, j + 2 * k, wide);
    CarryParity(v, k, m, 2 * y);
    OutOfRange(v, k, m, k * m);
    DoubleChangesSign(v, j, u, m, j * m);
    hide Signed, Modulus;
  }

  lemma CarryParity(v: int, k: int, m: nat, x: int)
    requires m > 0 && 0 <= 2 * v + m < 2 * m && x == 2 * v + 2 * (k * m)
    ensures v < 0 <==> x / m % 2 == 1
  {
    var q := if v < 0 then 2 * k - 1 else 2 * k;
    assert (2 * k - 1) * m == 2 * (k * m) - m && (2 * k) * m == 2 * (k * m) && (2 * k + 1) * m == 2 * (k * m) + m;
    DivUnique(x, m, q);
    if v < 0 {
      ModUnique(q, 2, k - 1, 1);
    } else {
      ModUnique(q, 2, k, 0);
    }
  }

  lemma DoubleChangesSign(v: int, j: int, u: int, m: nat, jm: int)
    requires m > 0 && 0 <= 2 * v + m < 2 * m && 0 <= 2 * u + m < 2 * m && jm == j * m && 2 * v == u + jm
    ensures j == 0 <==> (u < 0) == (v < 0)
    ensures j == 0 <==> 0 <= 4 * v + m < 2 * m
  {
    if j > 0 {
      MulMonotone(1, j, m);
      if j > 1 { MulMonotone(2, j, m); }
    } else if j < 0 {
      MulMonotone(j, -1, m);
      if j < -1 { MulMonotone(j, -2, m); }
    }
  }

  /** n single shifts left multiply by a power of two: the value wraps, the carry is the bit just above the
      word, and the sign changed on the way just when the product does not fit. */
  lemma {:induction false} LeftProduct(s: int, n: nat, wide: bool)
    requires Fits(s, wide)
    ensures var x := s * Pow2(n);
            && Left(s, n, wide).value == Signed(x, wide)
            && Left(s, n, wide).overflow == !Fits(x, wide)
            && (n > 0 ==> (Left(s, n, wide).carry <==> x / Modulus(wide) % 2 == 1))
  {
    if n > 0 {
      LeftProduct(s, n - 1, wide);
      var y := s * Pow2(n - 1);
      assert s * Pow2(n) == 2 * y by {
        MulAssoc(s, 2, Pow2(n - 1));
      }
      Doubled(y, wide);
      LeftAgain(s, n, wide);
      hide *;
    } else {
      hide Signed, Fits;
    }
  }

  lemma LeftAgain(s: int, n: nat, wide: bool)
    requires n > 0
    ensures var x := Left(s, n - 1, wide);
            && Left(s, n, wide).value == Signed(2 * x.value, wide)
            && Left(s, n, wide).carry == (x.value < 0)
            && Left(s, n, wide).overflow == (x.overflow || (Signed(2 * x.value, wide) < 0) != (x.value < 0))
  {
    hide Signed;
  }

  lemma {:induction false} RightQuotient(s: int, n: nat)
    ensures Right(s, n).value == s / Pow2(n) && !Right(s, n).overflow
    ensures n > 0 ==> (Right(s, n).carry <==> s / Pow2(n - 1) % 2 == 1)
  {
    if n > 0 {
      RightQuotient(s, n - 1);
      DivDiv(s, Pow2(n - 1), 2);
      assert Pow2(n) == Pow2(n - 1) * 2;
      hide Pow2;
    }
  }

  /** The count of a six-bit code, in two's complement. */
  function CountOf(code: nat): int
    requires code < 64
  {
    if code < 32 then code else code - 64
  }

  /** A shift by a code multiplies by two to its count: to the left wrapping, with V when the product does not fit and C
      the bit above the word, and to the right rounding down, with C the last bit out and never V. */
  lemma ShiftsByCount(s: int, code: nat, wide: bool)
    requires Fits(s, wide) && code < 64
    ensures var n, x := CountOf(code), Reference(s, code, wide);
            if n >= 0
            then && x.value == Signed(s * Pow2(n), wide) && x.overflow == !Fits(s * Pow2(n), wide)
                 && (n > 0 ==> (x.carry <==> s * Pow2(n) / Modulus(wide) % 2 == 1)) && (n == 0 ==> !x.carry)
            else x.value == s / Pow2(0 - n) && !x.overflow && (x.carry <==> s / Pow2(0 - n - 1) % 2 == 1)
  {
    if code < 32 {
      LeftProduct(s, code, wide);
    } else {
      RightQuotient(s, 64 - code);
    }
    assert Left(s, 0, wide) == Shifted(s, false, false);
    hide Left, Right, Signed, Fits, Pow2, Modulus;
  }

  /** Or-ing ones in above bit k, when the number is negative. */
  function SignFilled(x: int, sign: bool, k: nat): int {
    if sign then x % Pow2(k) - Pow2(k) else x
  }

  /** An arithmetic shift has already copied the sign, so filling it in again changes nothing. */
  lemma FillAfterShift(s: int, n: nat)
    requires Fits(s, true) && 0 < n <= 32
    ensures SignFilled(s / Pow2(n), s < 0, 32 - n) == s / Pow2(n)
  {
    if s < 0 {
      var d, p := Pow2(n), Pow2(32 - n);
      Pow2Add(n, 32 - n);
      Pow2Constants();
      NegativeQuotient(s, d, p, s / d);
      ModUnique(s / d, p, -1, s / d + p);
    }
  }

  lemma NegativeQuotient(s: int, d: nat, p: nat, q: int)
    requires d > 0 && d * p == TWO_32 && -0x8000_0000 <= s < 0 && q == s / d
    ensures 0 - p <= q < 0
  {
    DivBounds(s, d);
    assert (0 - p) * d == 0 - d * p;
    MulMonotone(q + 1, 0 - p, d);
    MulMonotone(0, q, d);
  }

  /** The bits a left shift pushes out are the number's top bits, and nothing is lost when they all repeat the
      new sign. */
  lemma PushedOut(s: int, d: nat, p: nat, m: nat, wide: bool)
    requires d > 0 && p > 0 && m == d * p == Modulus(wide)
    ensures (s * p) / m == s / d
    ensures Fits(s * p, wide) <==> s / d == (if 2 * (s * p % m) >= m then -1 else 0)
  {
    DivBounds(s, d);
    var q := s / d;
    MulAssoc(q, d, p);
    MulAssoc(q + 1, d, p);
    assert (q + 1) * m == q * m + m;
    StrictProduct(s, (q + 1) * d, p);
    MulMonotone(q * d, s, p);
    DivUnique(s * p, m, q);
    assert s * p == q * m + s * p % m;
    RangeByQuotient(q, m, s * p % m, q * m);
  }

  lemma StrictProduct(a: int, b: int, c: int)
    requires a < b && c > 0
    ensures a * c < b * c
  {
  }

  lemma RangeByQuotient(q: int, m: nat, r: nat, qm: int)
    requires qm == q * m && r < m
    ensures 0 <= 2 * (qm + r) + m < 2 * m <==> q == (if 2 * r >= m then -1 else 0)
  {
    if q > 0 {
      MulMonotone(1, q, m);
    } else if q < -1 {
      MulMonotone(q, -2, m);
    }
  }

  /** Wrapping at 32 bits first does not disturb the low 16. */
  lemma WrapTwice(x: int)
    ensures Signed(x, true) % 0x1_0000 == x % 0x1_0000
  {
    var k := SignedDiffers(x, true);
    assert x == Signed(x, true) + (k * 0x1_0000) * 0x1_0000;
    DivShift(Signed(x, true), k * 0x1_0000, 0x1_0000);
  }

  lemma SignedOfResidue(x: int, wide: bool)
    ensures Signed(x % Modulus(wide), wide) == Signed(x, wide)
  {
  }

  /** What ASH computes for a left shift of 1 to 15, in terms of the product it overflows from. */
  lemma AshShortLeft(s: int, n: nat)
    requires Fits(s, false) && 0 < n <= 15
    ensures var i := s / Pow2(16 - n) % 0x1_0000;
            var x := s * Pow2(n);
            && (i % 2 == 1 <==> x / 0x1_0000 % 2 == 1)
            && ((i != if x % 0x1_0000 >= 0x8000 then 0xFFFF else 0) <==> !Fits(x, false))
  {
    Pow2Add(16 - n, n);
    Pow2Constants();
    PushedOut(s, Pow2(16 - n), Pow2(n), 0x1_0000, false);
    QuotientShrinks(s, Pow2(16 - n), s / Pow2(16 - n));
    hide Pow2;
  }

  lemma QuotientShrinks(s: int, d: nat, q: int)
    requires d > 0 && q == s / d && -0x8000 <= s < 0x8000
    ensures -0x8000 <= q < 0x8000
  {
    DivBounds(s, d);
    if q >= 0x8000 {
      MulMonotone(0x8000, q, d);
      MulMonotone(1, d, 0x8000);
    } else if q < -0x8000 {
      MulMonotone(q + 1, -0x8000, d);
      MulMonotone(1, d, 0x8000);
    }
  }

  /** From 16 places on, nothing of a 16-bit value is left. */
  lemma AshLongLeft(s: int, n: nat)
    requires Fits(s, false) && 16 <= n
    ensures var x := s * Pow2(n);
            && x % 0x1_0000 == 0 && x / 0x1_0000 == s * Pow2(n - 16)
            && (Fits(x, false) <==> s == 0)
  {
    var p := Pow2(n - 16);
    Pow2Add(16, n - 16);
    Pow2Constants();
    assert s * Pow2(n) == (s * p) * 0x1_0000 by {
      MulAssoc(s, 0x1_0000, p);
    }
    ModUnique((s * p) * 0x1_0000, 0x1_0000, s * p, 0);
    if s > 0 {
      MulMonotone(1, s, p);
    } else if s < 0 {
      MulMonotone(s, -1, p);
    }
    hide Pow2;
  }

  predicate Odd(x: int) { x % 2 == 1 }

  /** Whether the 16 bits pushed out are not all copies of the sign left behind. */
  predicate SignLost(dst: int, i: int) {
    i != if dst % 0x1_0000 >= 0x8000 then 0xFFFF else 0
  }

  lemma ShortLeftIs(s: int, n: nat, dst: int, i: int)
    requires Fits(s, false) && 0 < n <= 15
    requires dst == Signed(s * Pow2(n), true) && i == s / Pow2(16 - n) % 0x1_0000
    ensures Left(s, n, false) ==
            Shifted(Signed(dst % 0x1_0000, false), Odd(i), SignLost(dst, i))
  {
    var x := s * Pow2(n);
    WrapTwice(x);
    AshShortLeft(s, n);
    LeftProduct(s, n, false);
    SignedOfResidue(x, false);
    hide Left, Signed, Pow2, Fits;
  }

  lemma LongLeftIs(s: int, n: nat)
    requires Fits(s, false) && 16 <= n < 32
    ensures Left(s, n, false) == Shifted(Signed(0, false), Odd(s * Pow2(n - 16)), s != 0)
  {
    var x := s * Pow2(n);
    AshLongLeft(s, n);
    LeftProduct(s, n, false);
    SignedOfResidue(x, false);
    hide Left, Signed, Pow2, Fits;
  }

  lemma FullRightIs(s: int, wide: bool)
    requires Fits(s, wide)
    ensures Right(s, 32) == Shifted(Signed((if s < 0 then -1 else 0) % Modulus(wide), wide), s < 0, false)
  {
    Pow2Constants();
    RightQuotient(s, 32);
    hide Right, Pow2, Signed, Modulus;
    OnlySign(s, wide);
    SignedOfResidue(if s < 0 then -1 else 0, wide);
    FitsAsIs(if s < 0 then -1 else 0, wide);
  }

  lemma OnlySign(s: int, wide: bool)
    requires Fits(s, wide)
    ensures s / TWO_32 == (if s < 0 then -1 else 0) && s / TWO_31 == (if s < 0 then -1 else 0)
  {
  }

  lemma FitsAsIs(x: int, wide: bool)
    requires -1 <= x <= 0
    ensures Signed(x, wide) == x && (x % 2 == 1 <==> x < 0)
  {
  }

  lemma RightIs(s: int, n: nat, dst: int, wide: bool)
    requires Fits(s, wide) && 0 < n < 32 && dst == SignFilled(s / Pow2(n), s < 0, 32 - n)
    ensures Right(s, n) == Shifted(Signed(dst % Modulus(wide), wide), Odd(s / Pow2(n - 1)), false)
  {
    FillAfterShift(s, n);
    RightQuotient(s, n);
    QuotientFits(s, Pow2(n), s / Pow2(n), wide);
    SignedOfResidue(dst, wide);
    hide Right, Pow2, SignFilled, Modulus;
  }

  lemma QuotientFits(s: int, d: nat, q: int, wide: bool)
    requires d > 0 && q == s / d && Fits(s, wide)
    ensures Fits(q, wide)
  {
    DivBounds(s, d);
    if q > 0 {
      MulMonotone(1, d, q);
    } else if q < -1 {
      MulMonotone(1, d, 0 - q - 1);
      assert (q + 1) * d == 0 - (0 - q - 1) * d;
    }
  }

  lemma AshSource(value: u16, src: int)
    requires src == if value >= 0x8000 then value - 0x1_0000 else value
    ensures Signed(value, false) == src && Fits(src, false) && (src < 0 <==> value >= 0x8000)
    ensures Signed(src % 0x1_0000, false) == src && Signed(0, false) == 0
  {
  }

  lemma ReferenceParts(s: int, code: nat)
    requires code < 64
    ensures code == 0 ==> Reference(s, code, false) == Shifted(s, false, false)
    ensures code < 32 ==> Reference(s, code, false) == Left(s, code, false)
    ensures 32 <= code ==> Reference(s, code, false) == Right(s, 64 - code)
  {
  }

  /** op_ash */
  method Ash(value: u16, code: nat) returns (result: u16, v: bool, c: bool)
    requires code < 64
    ensures Shifted(Signed(result, false), c, v) == Reference(Signed(value, false), code, false)
  {
    var sign := value >= 0x8000;
    var src := if sign then value - 0x1_0000 else value;
    AshSource(value, src);
    ReferenceParts(src, code);
    assert Modulus(false) == 0x1_0000;
    hide *;
    var dst;
    v, c := false, false;
    if code == 0 {
      dst := src;
    } else if code <= 15 {
      dst := Signed(src * Pow2(code), true);
      var i := src / Pow2(16 - code) % 0x1_0000;
      v := SignLost(dst, i);
      c := Odd(i);
      ShortLeftIs(src, code, dst, i);
    } else if code <= 31 {
      dst := 0;
      v := src != 0;
      c := Odd(src * Pow2(code - 16));
      LongLeftIs(src, code);
    } else if code == 32 {
      dst := if sign then -1 else 0;
      c := sign;
      FullRightIs(src, false);
    } else {
      dst := SignFilled(src / Pow2(64 - code), sign, code - 32);
      c := Odd(src / Pow2(63 - code));
      RightIs(src, 64 - code, dst, false);
    }
    result := dst % 0x1_0000;
  }

  /** A register pair as one pattern. */
  function PairOf(high: u16, low: u16): (w: nat)
    ensures w < TWO_32
  {
    var h: int := high;
    h * 0x1_0000 + low
  }

  // ---- ASHC ------------------------------------------------------------------------------------------------

  /** What ASHC computes for a left shift: the bits pushed out, sign-filled, against the new sign. */
  lemma WideLeftIs(s: int, n: nat, dst: int, i: int)
    requires Fits(s, true) && 0 < n < 32
    requires dst == Signed(s * Pow2(n), true) && i == SignFilled(s / Pow2(32 - n), s < 0, n)
    ensures Left(s, n, true) == Shifted(dst, Odd(i), i != if dst < 0 then -1 else 0)
  {
    Pow2Add(32 - n, n);
    Pow2Constants();
    FillAfterShift(s, 32 - n);
    LeftProduct(s, n, true);
    PushedOut(s, Pow2(32 - n), Pow2(n), TWO_32, true);
    NegativeByResidue(s * Pow2(n));
    hide Left, Pow2, Signed, SignFilled, Fits;
  }

  lemma NegativeByResidue(x: int)
    ensures Signed(x, true) < 0 <==> 2 * (x % TWO_32) >= TWO_32
  {
  }

  /** op_ashc */
  method Ashc(high: u16, low: u16, code: nat) returns (high': u16, low': u16, v: bool, c: bool)
    requires code < 64
    ensures Shifted(Signed(PairOf(high', low'), true), c, v) ==
            Reference(Signed(PairOf(high, low), true), code, true)
  {
    var sign := high >= 0x8000;
    var src := Signed(PairOf(high, low), true);
    assert sign == (src < 0) && Left(src, 0, true) == Shifted(src, false, false);
    hide Pow2, Left, Right, Signed, SignFilled, Fits, Odd, SignLost;
    var dst;
    v, c := false, false;
    if code == 0 {
      dst := src;
    } else if code <= 31 {
      dst := Signed(src * Pow2(code), true);
      var i := SignFilled(src / Pow2(32 - code), sign, code);
      v := i != if dst < 0 then -1 else 0;
      c := Odd(i);
      WideLeftIs(src, code, dst, i);
    } else if code == 32 {
      dst := if sign then -1 else 0;
      c := sign;
      FullRightIs(src, true);
    } else {
      dst := SignFilled(src / Pow2(64 - code), sign, code - 32);
      c := Odd(src / Pow2(63 - code));
      RightIs(src, 64 - code, dst, true);
    }
    var w := dst % TWO_32;
    high', low' := w / 0x1_0000, w % 0x1_0000;
    SignedOfResidue(dst, true);
    assert PairOf(high', low') == w;
  }
}
