/** Unsigned bytes and natural powers. */
module Numbers {

  /** Swift's `UInt8`. */
  newtype byte = x: int | 0 <= x < 256

  function Pow(base: nat, e: nat): (r: nat)
    ensures base > 0 ==> r > 0
  {
    if e == 0 then 1 else base * Pow(base, e - 1)
  }

  lemma {:induction false} PowMonotone(base: nat, e: nat, f: nat)
    requires base > 0 && e <= f
    ensures Pow(base, e) <= Pow(base, f)
  {
    if f > e {
      PowMonotone(base, e, f - 1);
      assert Pow(base, f) == base * Pow(base, f - 1);
    }
  }

  lemma QuotientAtMost(a: nat, b: nat)
    requires b > 0
    ensures a / b <= a
  {
    var q := a / b;
    assert q * b <= a;
    MulLeft(1, b, q);
  }

  /** A quotient and remainder that fit are the quotient and remainder. */
  lemma DivideExactly(a: nat, b: nat, q: nat, m: nat)
    requires 0 <= m < b && a == q * b + m
    ensures a / b == q
  {
    var q', m' := a / b, a % b;
    var d := q - q';
    assert d * b == m' - m;
    MulSign(d, b);
  }

  /** A non-zero multiple of `b` is at least `b` away from zero. */
  lemma MulSign(d: int, b: nat)
    ensures d >= 1 ==> d * b >= b
    ensures d <= -1 ==> d * b <= -(b as int)
  {
    if d >= 1 {
      MulLeft(1, d, b);
    } else if d <= -1 {
      MulLeft(1, -d, b);
      assert d * b == -((-d) * b);
    }
  }

  /** Dividing by `a` and then by `b` is dividing by `a * b`. */
  lemma DivDiv(x: nat, a: nat, b: nat)
    requires a > 0 && b > 0
    ensures x / a / b == x / (a * b)
  {
    var q, r := x / a, x % a;
    var q2, r2 := q / b, q % b;
    MulRegroup(q2, b, r2, a);
    assert x == q2 * (a * b) + (r2 * a + r);
    DigitPair(r2, r, a, b);
    DivideExactly(x, a * b, q2, r2 * a + r);
  }

  lemma MulRegroup(q: nat, b: nat, r: nat, a: nat)
    ensures (q * b + r) * a == q * (a * b) + r * a
  {
  }

  /** A two-digit number in mixed radix `b`, `a` stays below `a * b`. */
  lemma DigitPair(high: nat, low: nat, a: nat, b: nat)
    requires high < b && low < a
    ensures high * a + low < a * b
  {
    MulLeft(high, b - 1, a);
    assert (b - 1) * a == a * b - a;
  }

  lemma MulLeft(a: nat, b: nat, c: nat)
    requires a <= b
    ensures a * c <= b * c
  {
  }
}
