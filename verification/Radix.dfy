/** Digits of numbers. */
module Radix {
  function Power(base: nat, k: nat): nat {
    if k == 0 then 1 else base * Power(base, k - 1)
  }

  lemma {:induction false} PowerPositive(base: nat, k: nat)
    requires base > 0
    ensures Power(base, k) > 0
  {
    if k > 0 {
      PowerPositive(base, k - 1);
    }
  }

  /** The digit with weight base^k. */
  function Digit(v: nat, base: nat, k: nat): (d: nat)
    requires base > 0
    ensures d < base
  {
    PowerPositive(base, k);
    v / Power(base, k) % base
  }

  /** Dropping the last digit moves the others down. */
  lemma DigitDown(v: nat, base: nat, k: nat)
    requires base > 0 && k > 0
    ensures Digit(v, base, k) == Digit(v / base, base, k - 1)
  {
    PowerPositive(base, k - 1);
    DivideTwice(v, base, Power(base, k - 1));
  }

  lemma DigitLast(v: nat, base: nat)
    requires base > 0
    ensures Digit(v, base, 0) == v % base
  {
  }

  lemma DivideTwice(v: nat, a: nat, b: nat)
    requires a > 0 && b > 0
    ensures a * b > 0 && v / a / b == v / (a * b)
  {
    var q := v / a;
    var k, r := q / b, q % b;
    Regroup(k, b, r, a);
    Below(r, b, a);
    DivideUnique(v, a * b, k, r * a + v % a);
  }

  lemma Regroup(k: nat, b: nat, r: nat, a: nat)
    ensures (k * b + r) * a == k * (a * b) + r * a
  {
  }

  lemma Below(r: nat, b: nat, a: nat)
    requires r < b && a > 0
    ensures a * b > 0 && r * a + a <= a * b
  {
    assert (r + 1) * a <= b * a;
  }

  lemma DivideUnique(v: nat, m: nat, q: nat, r: nat)
    requires m > 0 && v == q * m + r && r < m
    ensures v / m == q
  {
    var d := q - v / m;
    assert d * m == v % m - r;
    assert d >= 1 ==> d * m >= m;
    assert d <= -1 ==> d * m <= 0 - m;
  }
}
