/** Euclid's algorithm as dependencyGCD runs it (evaluation/finalv5oracle/dependency.go), with Go's
    truncated remainder, and what coprimality gives. */
module Euclid {
  import opened GoBytes

  function Abs(n: int): nat {
    if n < 0 then -n else n
  }

  /** Go's %: the sign of the remainder is the sign of the dividend. */
  function GoRem(a: int, b: int): (r: int)
    requires b != 0
    ensures Abs(r) < Abs(b)
  {
    if a >= 0 then a % Abs(b) else -((-a) % Abs(b))
  }

  function GoDiv(a: int, b: int): int
    requires b != 0
  {
    var q := Abs(a) / Abs(b);
    if (a < 0) == (b < 0) then q else -(q as int)
  }

  lemma {:induction false} DivRem(a: int, b: int)
    requires b != 0
    ensures a == GoDiv(a, b) * b + GoRem(a, b)
  {
    var q, r := Abs(a) / Abs(b), Abs(a) % Abs(b);
    assert Abs(a) == q * Abs(b) + r;
    Signs(q, Abs(b));
  }

  lemma {:induction false} Signs(q: int, b: int)
    ensures (-q) * b == -(q * b) && q * (-b) == -(q * b) && (-q) * (-b) == q * b
  {
  }

  ghost predicate Divides(d: int, n: int) {
    exists k: int :: n == d * k
  }

  function Gcd(a: int, b: int): nat
    decreases Abs(b)
  {
    if b == 0 then Abs(a) else Gcd(b, GoRem(a, b))
  }

  lemma {:induction false} DividesCombination(d: int, m: int, n: int, p: int, q: int)
    requires Divides(d, m) && Divides(d, n)
    ensures Divides(d, p * m + q * n)
  {
    var i :| m == d * i;
    var j :| n == d * j;
    assert p * m + q * n == d * (p * i + q * j) by {
      Swap3(p, d, i);
      Swap3(q, d, j);
    }
  }

  lemma {:induction false} Swap3(p: int, d: int, i: int)
    ensures p * (d * i) == d * (p * i)
  {
  }

  lemma {:induction false} DividesBase(a: int)
    ensures Divides(Abs(a), a) && Divides(Abs(a), 0)
  {
    assert a == Abs(a) * (if a < 0 then -1 else 1);
    assert 0 == Abs(a) * 0;
  }

  lemma {:induction false} GcdDivides(a: int, b: int)
    ensures Divides(Gcd(a, b), a) && Divides(Gcd(a, b), b)
    decreases Abs(b)
  {
    if b == 0 {
      DividesBase(a);
    } else {
      var q, r := GoDiv(a, b), GoRem(a, b);
      GcdDivides(b, r);
      DividesCombination(Gcd(b, r), b, r, q, 1);
      assert a == q * b + 1 * r by { DivRem(a, b); }
    }
  }

  lemma {:induction false} GcdZero(a: int, b: int)
    ensures Gcd(a, b) == 0 <==> a == 0 && b == 0
    decreases Abs(b)
  {
    if b != 0 { GcdZero(b, GoRem(a, b)); }
  }

  lemma {:induction false} GcdIsGreatest(a: int, b: int, d: int)
    requires Divides(d, a) && Divides(d, b)
    ensures Divides(d, Gcd(a, b))
    decreases Abs(b)
  {
    if b == 0 {
      var k :| a == d * k;
      assert -a == d * (-k);
    } else {
      var q := GoDiv(a, b);
      DivRem(a, b);
      DividesCombination(d, a, b, 1, -q);
      Signs(q, b);
      assert 1 * a + (-q) * b == GoRem(a, b);
      GcdIsGreatest(b, GoRem(a, b), d);
    }
  }

  lemma {:induction false} Bezout(a: int, b: int) returns (x: int, y: int)
    ensures x * a + y * b == Gcd(a, b)
    decreases Abs(b)
  {
    if b == 0 {
      x, y := if a < 0 then -1 else 1, 0;
    } else {
      var u, v := Bezout(b, GoRem(a, b));
      DivRem(a, b);
      x, y := v, u - v * GoDiv(a, b);
      Unfold(u, v, GoDiv(a, b), a, b, GoRem(a, b));
    }
  }

  lemma {:induction false} Unfold(u: int, v: int, q: int, a: int, b: int, r: int)
    requires a == q * b + r
    ensures u * b + v * r == v * a + (u - v * q) * b
  {
    assert v * a == v * (q * b) + v * r;
    assert v * (q * b) == (v * q) * b;
    assert (u - v * q) * b == u * b - (v * q) * b;
  }

  /** A factor coprime to n can be cancelled modulo n. */
  lemma {:induction false} CoprimeCancels(k: int, step: int, n: int)
    requires Gcd(step, n) == 1 && Divides(n, k * step)
    ensures Divides(n, k)
  {
    var x, y := Bezout(step, n);
    DividesCombination(n, k * step, n * 1, x, k * y) by { assert n * 1 == n; assert Divides(n, n * 1); }
    BezoutTimes(k, x, step, y, n);
  }

  lemma {:induction false} BezoutTimes(k: int, x: int, step: int, y: int, n: int)
    requires x * step + y * n == 1
    ensures x * (k * step) + (k * y) * (n * 1) == k
  {
    assert x * (k * step) == k * (x * step);
    assert (k * y) * (n * 1) == k * (y * n);
    assert k * (x * step) + k * (y * n) == k * (x * step + y * n);
  }

  /** The loop in int64 arithmetic: the closing negation wraps for the most negative value. */
  method DependencyGcd(left: int64, right: int64) returns (g: int64)
    ensures g == Wrap64(Gcd(left, right))
    ensures g == Gcd(left, right) <==> !Overflows(left, right)
  {
    var a: int64, b: int64 := left, right;
    while b != 0
      invariant Gcd(a, b) == Gcd(left, right)
      decreases Abs(b)
    {
      a, b := b, GoRem(a, b);
    }
    g := if a < 0 then Wrap64(0 - (a as int)) else a;
    OverflowExactly(left, right);
  }

  /** Both arguments are 0 or -2^63, and not both are 0. */
  predicate Overflows(left: int, right: int) {
    (left == 0 || left == -TWO63) && (right == 0 || right == -TWO63) && !(left == 0 && right == 0)
  }

  /** The greatest common divisor fits int64 except for the arguments that overflow, where it is 2^63. */
  lemma {:induction false} OverflowExactly(left: int64, right: int64)
    ensures Overflows(left, right) <==> Gcd(left, right) == TWO63
    ensures !Overflows(left, right) ==> Gcd(left, right) < TWO63
  {
    GcdDivides(left, right);
    DivisorBound(Gcd(left, right), left);
    DivisorBound(Gcd(left, right), right);
    GcdZero(left, right);
    if Overflows(left, right) { GcdOfMinimum(left, right); }
  }

  lemma {:induction false} DivisorBound(g: nat, n: int)
    requires Divides(g, n)
    ensures n != 0 ==> g <= Abs(n)
  {
    var k :| n == g * k;
    assert k >= 1 ==> g * (k - 1) >= 0;
    assert k <= -1 ==> g * (-k - 1) >= 0;
  }

  lemma {:induction false} GcdOfMinimum(left: int64, right: int64)
    requires Overflows(left, right)
    ensures Gcd(left, right) == TWO63
  {
    if left == 0 {
      assert Gcd(left, right) == Gcd(right, 0);
    } else if right != 0 {
      assert GoRem(left, right) == 0;
      assert Gcd(left, right) == Gcd(right, 0);
    }
  }

  lemma {:induction false} GcdOfOne(n: int)
    ensures Gcd(1, n) == 1
  {
    GcdDivides(1, n);
    var g := Gcd(1, n);
    var k :| 1 == g * k;
    UnitFactor(g, k);
  }

  lemma {:induction false} UnitFactor(g: nat, k: int)
    requires g * k == 1
    ensures g == 1
  {
    assert g >= 1 ==> (k >= 2 ==> (g - 1) * k >= 0);
    assert k <= 0 ==> g * (-k) >= 0;
    assert g >= 2 ==> (g - 2) * (k - 1) >= 0 || k < 1;
  }

  /** A quotient and a remainder below the divisor are determined by the number. */
  lemma {:induction false} QuotientUnique(a: int, b: int, x: int, y: int, n: int)
    requires 0 <= b < n && 0 <= y < n && a * n + b == x * n + y
    ensures a == x && b == y
  {
    var d := a - x;
    assert d * n == y - b;
    assert d >= 1 ==> (d - 1) * n >= 0;
    assert d <= -1 ==> (-1 - d) * n >= 0;
  }

  lemma {:induction false} DivisionIs(m: int, q: int, r: int, n: int)
    requires 0 <= r < n && m == q * n + r
    ensures m / n == q && m % n == r
  {
    assert m == m / n * n + m % n;
    QuotientUnique(m / n, m % n, q, r, n);
  }

  /** Dividing both parts by the greatest common divisor leaves a fraction in lowest terms. */
  lemma {:induction false} LowestTerms(a: int, b: int, g: int, p: int, q: int)
    requires g == Gcd(a, b) && b > 0 && a == g * p && b == g * q
    ensures q > 0 && Gcd(p, q) == 1 && p * b == a * q
  {
    GcdZero(a, b);
    CrossMultiply(g, p, q);
    GcdDivides(p, q);
    CommonFactor(a, b, g, p, q, Gcd(p, q));
  }

  lemma {:induction false} CrossMultiply(g: int, p: int, q: int)
    ensures p * (g * q) == (g * p) * q
    ensures g > 0 && g * q > 0 ==> q > 0
  {
    assert q <= 0 && g > 0 ==> g * (-q) >= 0;
  }

  lemma {:induction false} CommonFactor(a: int, b: int, g: int, p: int, q: int, d: nat)
    requires g == Gcd(a, b) && g > 0 && a == g * p && b == g * q
    requires Divides(d, p) && Divides(d, q)
    ensures d == 1
  {
    var i :| p == d * i;
    var j :| q == d * j;
    ScaleDivisor(g, d, i);
    ScaleDivisor(g, d, j);
    GcdIsGreatest(a, b, g * d);
    var k :| g == (g * d) * k;
    CancelFactor(g, d, k);
    UnitFactor(d, k);
  }

  lemma {:induction false} ScaleDivisor(g: int, d: int, i: int)
    ensures Divides(g * d, g * (d * i))
  {
    assert g * (d * i) == (g * d) * i;
  }

  lemma {:induction false} CancelFactor(g: int, d: int, k: int)
    requires g > 0 && g == (g * d) * k
    ensures d * k == 1
  {
    var e := d * k - 1;
    assert g * e == (g * d) * k - g;
    assert e >= 1 ==> g * (e - 1) >= 0;
    assert e <= -1 ==> g * (-1 - e) >= 0;
  }

  lemma {:induction false} ExactQuotient(n: int, g: int)
    requires g > 0 && Divides(g, n)
    ensures n == g * GoDiv(n, g)
  {
    var k :| n == g * k;
    DivRem(n, g);
    QuotientFound(n, g, k, GoDiv(n, g), GoRem(n, g));
  }

  lemma {:induction false} QuotientFound(n: int, g: int, k: int, q: int, r: int)
    requires g > 0 && n == g * k && n == q * g + r && -g < r < g
    ensures k == q
  {
    var d := k - q;
    assert d * g == r;
    assert d >= 1 ==> (d - 1) * g >= 0;
    assert d <= -1 ==> (-1 - d) * g >= 0;
  }
}
