/** Integer helpers: Python's floor division and modulo, `ceil_div`, and divisibility. */
module Arith {

  function Abs(x: int): nat {
    if x < 0 then -x else x
  }

  function Max(x: int, y: int): int {
    if x < y then y else x
  }

  function Min(x: int, y: int): int {
    if x < y then x else y
  }

  /** Python's `n // d`: the quotient rounded towards minus infinity. */
  function PyDiv(n: int, d: int): (q: int)
    requires d != 0
    ensures d > 0 ==> d * q <= n < d * q + d
    ensures d < 0 ==> d * q + d < n <= d * q
  {
    if d > 0 then n / d else (-n) / (-d)
  }

  /** Python's `n % d`: the remainder takes the sign of the divisor. */
  function PyMod(n: int, d: int): (r: int)
    requires d != 0
    ensures n == d * PyDiv(n, d) + r
    ensures d > 0 ==> 0 <= r < d
    ensures d < 0 ==> d < r <= 0
  {
    if d > 0 then n % d else -((-n) % (-d))
  }

  /** `ceil_div(n, d)`, written as `-(-n // d)`: the ceiling of n/d. */
  function CeilDiv(n: int, d: int): (q: int)
    requires d != 0
    ensures d > 0 ==> q * d >= n && (q - 1) * d < n
    ensures d < 0 ==> q * d <= n && (q - 1) * d > n
  {
    -PyDiv(-n, d)
  }

  /** d divides n; zero divides only zero. */
  predicate Divides(d: int, n: int) {
    if d == 0 then n == 0 else n % d == 0
  }

  lemma DividesProduct(d: int, k: int)
    ensures Divides(d, d * k)
  {
    if d != 0 {
      var n := d * k;
      var q, r := n / d, n % d;
      assert n == d * q + r && 0 <= r < Abs(d);
      assert d * (k - q) == r;
      if k - q != 0 {
        MulAtLeast(d, k - q);
        assert false;
      }
    }
  }

  /** A non-zero multiple of d is at least |d| in absolute value. */
  lemma MulAtLeast(d: int, k: int)
    requires d != 0 && k != 0
    ensures Abs(d * k) >= Abs(d)
  {
    PositiveMulAtLeast(Abs(d), Abs(k));
    assert Abs(d * k) == Abs(d) * Abs(k);
  }

  lemma {:induction false} PositiveMulAtLeast(d: int, k: int)
    requires d > 0 && k > 0
    ensures d * k >= d
    decreases k
  {
    if k > 1 {
      PositiveMulAtLeast(d, k - 1);
      assert d * k == d * (k - 1) + d;
    }
  }

  /** The cofactor of a divisor. */
  lemma Cofactor(d: int, n: int) returns (k: int)
    requires Divides(d, n)
    ensures n == d * k
  {
    if d == 0 {
      k := 0;
    } else {
      k := n / d;
    }
  }

  lemma {:induction false} DividesCombination(d: int, a: int, b: int, x: int, y: int)
    requires Divides(d, a) && Divides(d, b)
    ensures Divides(d, a * x + b * y)
  {
    var ka := Cofactor(d, a);
    var kb := Cofactor(d, b);
    assert a * x + b * y == d * (ka * x + kb * y) by {
      assert a * x == d * (ka * x);
      assert b * y == d * (kb * y);
    }
    DividesProduct(d, ka * x + kb * y);
  }

  lemma DividesTransitive(a: int, b: int, c: int)
    requires Divides(a, b) && Divides(b, c)
    ensures Divides(a, c)
  {
    var m := Cofactor(a, b);
    var n := Cofactor(b, c);
    assert c == a * (m * n);
    DividesProduct(a, m * n);
  }

  /** Divisibility only depends on the magnitudes. */
  lemma DividesAbs(d: int, n: int)
    ensures Divides(d, n) <==> Divides(Abs(d), Abs(n))
  {
    if Divides(d, n) {
      DividesCombination(d, n, n, if n < 0 then -1 else 1, 0);
      DividesCombination(d, d, d, if d < 0 then -1 else 1, 0) by { DividesProduct(d, 1); }
      DividesTransitive(Abs(d), d, Abs(n)) by {
        DividesCombination(Abs(d), Abs(d), Abs(d), if d < 0 then -1 else 1, 0) by { DividesProduct(Abs(d), 1); }
      }
    }
    if Divides(Abs(d), Abs(n)) {
      DividesProduct(d, if d < 0 then -1 else 1);
      DividesTransitive(d, Abs(d), Abs(n));
      DividesCombination(d, Abs(n), Abs(n), if n < 0 then -1 else 1, 0);
    }
  }

  /** A positive divisor of a positive number is no larger than it. */
  lemma DividesBounded(d: int, n: int)
    requires d > 0 && n > 0 && Divides(d, n)
    ensures d <= n
  {
    var k := Cofactor(d, n);
    MulAtLeast(d, k);
  }

  /** Non-negative numbers that divide each other are equal. */
  lemma DividesAntisymmetric(x: int, y: int)
    requires x >= 0 && y >= 0
    requires Divides(x, y) && Divides(y, x)
    ensures x == y
  {
    if x > 0 && y > 0 {
      DividesBounded(x, y);
      DividesBounded(y, x);
    }
  }

  /** Multiplication by a non-zero factor can be cancelled. */
  lemma CancelMul(d: int, k: int, m: int)
    requires d != 0 && d * k == d * m
    ensures k == m
  {
    assert d * (k - m) == 0;
    if k - m != 0 {
      MulAtLeast(d, k - m);
    }
  }

  /** Scaling a linear combination scales its coefficients. */
  lemma ScaleCombination(a: int, b: int, s: int, t: int, m: int)
    ensures a * (s * m) + b * (t * m) == (a * s + b * t) * m
  {
  }

  /** Division by a positive divisor of n is exact. */
  lemma ExactDiv(n: int, d: int)
    requires d > 0 && Divides(d, n)
    ensures d * (n / d) == n
  {
  }

  lemma Distribute(d: int, x: int, y: int, s: int, u: int)
    ensures d * (x * s + y * u) == (d * x) * s + (d * y) * u
  {
  }

  lemma MulNegate(x: int, y: int)
    ensures x * (-y) == -(x * y) && (-x) * y == -(x * y) && (-x) * (-y) == x * y
  {
  }

  /** Subtracting two linear combinations with the same coefficients. */
  lemma CombinationDifference(a: int, b: int, x: int, y: int, x0: int, y0: int)
    ensures a * (x - x0) + b * (y - y0) == (a * x + b * y) - (a * x0 + b * y0)
  {
  }

  /** Multiplying by a positive factor preserves order. */
  lemma MulMonotone(m: int, t1: int, t2: int)
    requires m > 0 && t1 <= t2
    ensures m * t1 <= m * t2
  {
    assert m * t2 - m * t1 == m * (t2 - t1);
  }
}
