/** Powers of two and the few division facts the fraction arithmetic rests on. */
module Arith {

  const TWO_23: nat := 0x80_0000
  const TWO_24: nat := 0x100_0000
  const TWO_31: nat := 0x8000_0000
  const TWO_32: nat := 0x1_0000_0000
  const TWO_34: nat := 0x4_0000_0000
  const TWO_35: nat := 0x8_0000_0000
  const TWO_55: nat := 0x80_0000_0000_0000
  const TWO_56: nat := 0x100_0000_0000_0000
  const TWO_58: nat := 0x400_0000_0000_0000
  const TWO_59: nat := 0x800_0000_0000_0000
  const TWO_64: nat := 0x1_0000_0000_0000_0000

  function Pow2(n: nat): (r: nat)
    ensures r > 0
  {
    if n == 0 then 1 else 2 * Pow2(n - 1)
  }

  lemma {:induction false} Pow2Add(a: nat, b: nat)
    ensures Pow2(a + b) == Pow2(a) * Pow2(b)
  {
    if b != 0 {
      Pow2Add(a, b - 1);
      assert Pow2(a + b) == 2 * Pow2(a + (b - 1));
    }
  }

  lemma {:induction false} Pow2Monotone(a: nat, b: nat)
    requires a <= b
    ensures Pow2(a) <= Pow2(b)
    ensures a < b ==> Pow2(a) < Pow2(b)
  {
    if a < b {
      Pow2Monotone(a, b - 1);
    }
  }

  lemma Pow2Constants()
    ensures Pow2(3) == 8
    ensures Pow2(6) == 0x40
    ensures Pow2(12) == 0x1000
    ensures Pow2(16) == 0x1_0000
    ensures Pow2(23) == TWO_23
    ensures Pow2(24) == TWO_24
    ensures Pow2(26) == 0x400_0000
    ensures Pow2(27) == 0x800_0000
    ensures Pow2(31) == TWO_31
    ensures Pow2(32) == TWO_32
    ensures Pow2(56) == TWO_56
    ensures Pow2(58) == TWO_58
    ensures Pow2(59) == TWO_59
    ensures Pow2(64) == TWO_64
  {
    assert Pow2(8) == 0x100;
    assert Pow2(16) == 0x1_0000;
    assert Pow2(24) == TWO_24;
    Pow2Add(32, 24);
    Pow2Add(32, 32);
    Pow2Add(56, 3);
    Pow2Add(56, 2);
  }

  /** q is the quotient of n by d exactly when it brackets n. */
  lemma DivUnique(n: int, d: int, q: int)
    requires d > 0
    requires q * d <= n < (q + 1) * d
    ensures n / d == q
  {
    var p, m := n / d, n % d;
    assert n == p * d + m;
    MulMonotone(p + 1, q, d);
    MulMonotone(q + 1, p, d);
  }

  /** The quotient brackets its dividend. */
  lemma DivBounds(n: int, d: int)
    requires d > 0
    ensures (n / d) * d <= n < (n / d + 1) * d
  {
    assert n == (n / d) * d + n % d;
  }

  lemma MulAssoc(a: int, b: int, c: int)
    ensures a * (b * c) == a * b * c == a * c * b
  {
  }

  /** Dividing in two stages is dividing once: floors compose. */
  lemma DivDiv(n: int, a: int, b: int)
    requires a > 0 && b > 0
    ensures a * b > 0 && (n / a) / b == n / (a * b)
  {
    DivBounds(n, a);
    DivBounds(n / a, b);
    NestedBounds(n, n / a, n / a / b, a, b);
    DivUnique(n, a * b, n / a / b);
  }

  lemma NestedBounds(n: int, p: int, q: int, a: int, b: int)
    requires a > 0 && b > 0
    requires p * a <= n < (p + 1) * a && q * b <= p < (q + 1) * b
    ensures a * b > 0 && q * (a * b) <= n < (q + 1) * (a * b)
  {
    MulAssoc(q, a, b);
    MulAssoc(q + 1, a, b);
    MulMonotone(q * b, p, a);
    MulMonotone(p + 1, (q + 1) * b, a);
  }

  /** A multiple of the divisor passes through the division. */
  lemma DivShift(n: int, k: int, d: int)
    requires d > 0
    ensures (n + k * d) / d == n / d + k
  {
    DivBounds(n, d);
    assert (n / d + k) * d == (n / d) * d + k * d;
    assert (n / d + k + 1) * d == (n / d + 1) * d + k * d;
    DivUnique(n + k * d, d, n / d + k);
  }

  lemma DivCancel(n: int, d: int, c: int)
    requires d > 0 && c > 0
    ensures d * c > 0 && (n * c) / (d * c) == n / d
  {
    DivBounds(n, d);
    var q := n / d;
    assert q * (d * c) == (q * d) * c;
    assert (q + 1) * (d * c) == ((q + 1) * d) * c;
    DivUnique(n * c, d * c, q);
  }

  lemma DivMonotone(a: int, b: int, d: int)
    requires d > 0 && a <= b
    ensures a / d <= b / d
  {
    DivBounds(a, d);
    DivBounds(b, d);
    MulMonotone(b / d + 1, a / d, d);
  }

  lemma ModUnique(n: int, d: int, q: int, m: int)
    requires d > 0 && 0 <= m < d && n == q * d + m
    ensures n / d == q && n % d == m
  {
    DivUnique(n, d, q);
    assert n == (n / d) * d + n % d;
  }

  /** Wrapping at d of something that overflows at most once, either way. */
  lemma Wrap(x: int, d: int)
    requires d > 0 && -d <= x < 2 * d
    ensures x % d == if x < 0 then x + d else if x < d then x else x - d
  {
    ModUnique(x, d, if x < 0 then -1 else if x < d then 0 else 1,
              if x < 0 then x + d else if x < d then x else x - d);
  }

  lemma MulMonotone(a: int, b: int, c: int)
    requires 0 <= c
    ensures a <= b ==> a * c <= b * c
  {
  }

  /** A quotient lies where the products with the divisor say. */
  lemma DivWithin(n: int, d: int, lo: int, hi: int)
    requires d > 0 && lo * d <= n < hi * d
    ensures lo <= n / d < hi
  {
    var q := n / d;
    DivBounds(n, d);
    MulMonotone(q + 1, lo, d);
    MulMonotone(hi, q, d);
  }

  /** Between multiples of u, of which d is one, there is nothing closer than u. */
  lemma NextMultiple(x: int, m: int, u: int, k: int)
    requires u > 0
    ensures x * u < k * (m * u) ==> x * u + u <= k * (m * u)
    ensures k * (m * u) < x * u ==> k * (m * u) + u <= x * u
  {
    MulAssoc(k, m, u);
    MulMonotone(k * m, x, u);
    MulMonotone(x, k * m, u);
    MulMonotone(x + 1, k * m, u);
    MulMonotone(k * m + 1, x, u);
    assert (x + 1) * u == x * u + u && (k * m + 1) * u == k * m * u + u;
  }
}
