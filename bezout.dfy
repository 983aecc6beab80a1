/** `get_bezout`: the extended Euclidean algorithm on |a| and |b|. */
module Bezout {
  import opened Arith
  import opened NumberTheory

  /** The extended Euclidean loop from the state (x, y, s1, s2, t1, t2) on: each
      step replaces the state by (y, x % y, s2, s1 - q*s2, t2, t1 - q*t2) with
      q = x // y, and the loop stops with (s1, t1) once y is zero. */
  function ExtendedEuclid(x: nat, y: nat, s1: int, s2: int, t1: int, t2: int): (int, int)
    decreases y
  {
    if y == 0 then (s1, t1)
    else
      var q := x / y;
      ExtendedEuclid(y, x % y, s2, s1 - q * s2, t2, t1 - q * t2)
  }

  /** The pair `get_bezout(a, b, d)` returns. The sign correction tests the sign
      of d rather than those of a and b, so for d >= 0 nothing is negated. */
  function BezoutOf(a: int, b: int, d: int): (r: (int, int))
    ensures d >= 0 ==> r == ExtendedEuclid(Abs(a), Abs(b), 1, 0, 0, 1)
  {
    var (s1, t1) := ExtendedEuclid(Abs(a), Abs(b), 1, 0, 0, 1);
    (if d == Abs(d) then s1 else -s1, if d == Abs(d) then t1 else -t1)
  }

  /** One step of the loop keeps the remainder a combination of |A| and |B|. */
  lemma EuclidStep(bigA: int, bigB: int, x: nat, y: nat, s1: int, s2: int, t1: int, t2: int)
    requires y > 0
    requires x == s1 * bigA + t1 * bigB
    requires y == s2 * bigA + t2 * bigB
    ensures x % y == (s1 - (x / y) * s2) * bigA + (t1 - (x / y) * t2) * bigB
  {
    var q, r := x / y, x % y;
    assert r == x - q * y;
    assert q * y == (q * s2) * bigA + (q * t2) * bigB;
  }

  /** While the loop runs, x and y stay combinations of |A| and |B| with the
      tracked coefficients; so the final pair combines |A| and |B| into gcd(x, y). */
  lemma {:induction false} ExtendedEuclidInvariant(
    bigA: nat, bigB: nat, x: nat, y: nat, s1: int, s2: int, t1: int, t2: int)
    requires x == s1 * bigA + t1 * bigB
    requires y == s2 * bigA + t2 * bigB
    ensures var p := ExtendedEuclid(x, y, s1, s2, t1, t2); p.0 * bigA + p.1 * bigB == GcdOf(x, y)
    decreases y
  {
    if y != 0 {
      var q, r := x / y, x % y;
      assert PyMod(x, y) == r;
      EuclidStep(bigA, bigB, x, y, s1, s2, t1, t2);
      ExtendedEuclidInvariant(bigA, bigB, y, r, s2, s1 - q * s2, t2, t1 - q * t2);
    }
  }

  /** Bézout's identity on the absolute values, for every sign of a and b. */
  lemma BezoutIdentityAbs(a: int, b: int)
    ensures var p := BezoutOf(a, b, GcdOf(a, b)); Abs(a) * p.0 + Abs(b) * p.1 == GcdOf(a, b)
  {
    var bigA, bigB, g := Abs(a), Abs(b), GcdOf(a, b);
    var e := ExtendedEuclid(bigA, bigB, 1, 0, 0, 1);
    var h := GcdOf(bigA, bigB);
    assert e.0 * bigA + e.1 * bigB == h by {
      ExtendedEuclidInvariant(bigA, bigB, bigA, bigB, 1, 0, 0, 1);
    }
    assert g == h by {
      GcdSymmetries(a, b);
    }
    assert BezoutOf(a, b, g) == e by {
      assert g >= 0;
    }
    assert bigA * e.0 == e.0 * bigA && bigB * e.1 == e.1 * bigB;
  }

  /** The signed identity a*s + b*t == gcd(a, b) holds when a and b are not negative. */
  lemma BezoutIdentity(a: int, b: int)
    requires a >= 0 && b >= 0
    ensures var p := BezoutOf(a, b, GcdOf(a, b)); a * p.0 + b * p.1 == GcdOf(a, b)
  {
    BezoutIdentityAbs(a, b);
  }

  /** The sign correction never fires: the result is the plain extended-Euclid pair. */
  lemma SignCorrectionInert(a: int, b: int)
    ensures BezoutOf(a, b, GcdOf(a, b)) == ExtendedEuclid(Abs(a), Abs(b), 1, 0, 0, 1)
  {
  }

  /** For a = -3, b = 5 (gcd 1) the returned pair is (2, -1), and
      -3*2 + 5*(-1) == -11, not 1. */
  lemma BezoutNegativeCounterexample()
    ensures GcdOf(-3, 5) == 1
    ensures BezoutOf(-3, 5, 1) == (2, -1)
    ensures -3 * 2 + 5 * -1 != GcdOf(-3, 5)
  {
    assert GcdOf(2, 1) == 1 by { assert GcdOf(1, 0) == 1; }
    assert GcdOf(-3, 5) == 1 by {
      assert PyMod(-3, 5) == 2;
      assert PyMod(5, 2) == 1;
      assert PyMod(2, 1) == 0;
    }
    assert ExtendedEuclid(3, 5, 1, 0, 0, 1) == (2, -1) by {
      assert ExtendedEuclid(1, 0, 2, -5, -1, 3) == (2, -1);
      assert ExtendedEuclid(2, 1, -1, 2, 1, -1) == (2, -1);
      assert ExtendedEuclid(3, 2, 1, -1, 0, 1) == (2, -1);
      assert ExtendedEuclid(5, 3, 0, 1, 1, 0) == (2, -1);
    }
  }

  /** `get_bezout(a, b, d)`. The source's check that d is gcd(a, b) is the precondition. */
  method GetBezout(a: int, b: int, d: int) returns (s: int, t: int)
    requires GcdOf(a, b) == d
    ensures (s, t) == BezoutOf(a, b, d)
    ensures Abs(a) * s + Abs(b) * t == d
    ensures a >= 0 && b >= 0 ==> a * s + b * t == d
  {
    var bigA, bigB := Abs(a), Abs(b);
    assert GcdOf(bigA, bigB) == d by {
      GcdSymmetries(a, b);
    }
    var x: nat, y: nat, s1, s2, t1, t2 := bigA, bigB, 1, 0, 0, 1;
    while y != 0
      invariant x == s1 * bigA + t1 * bigB
      invariant y == s2 * bigA + t2 * bigB
      invariant GcdOf(x, y) == d
      invariant ExtendedEuclid(x, y, s1, s2, t1, t2) == ExtendedEuclid(bigA, bigB, 1, 0, 0, 1)
      decreases y
    {
      // divmod on non-negative operands: Python's and Dafny's division agree
      var q, r := x / y, x % y;
      assert GcdOf(y, r) == d by {
        assert PyMod(x, y) == r;
      }
      assert r == (s1 - q * s2) * bigA + (t1 - q * t2) * bigB by {
        EuclidStep(bigA, bigB, x, y, s1, s2, t1, t2);
      }
      x, y, s1, s2, t1, t2 := y, r, s2, s1 - q * s2, t2, t1 - q * t2;
    }
    assert x == d;
    // d is a gcd, hence never negative: the sign correction keeps (s1, t1)
    var dNonNegative := d == Abs(d);
    assert dNonNegative;
    assert bigA * s1 + bigB * t1 == d;
    s := if dNonNegative then s1 else -s1;
    t := if dNonNegative then t1 else -t1;
    assert (s, t) == BezoutOf(a, b, d);
  }

  /** The sign correction that makes the docstring's a·s + b·t = d hold for signed
      inputs: negate the coefficient of each negative input. */
  function SignedBezout(a: int, b: int): (int, int) {
    var (s1, t1) := ExtendedEuclid(Abs(a), Abs(b), 1, 0, 0, 1);
    (if a < 0 then -s1 else s1, if b < 0 then -t1 else t1)
  }

  lemma SignedBezoutIdentity(a: int, b: int)
    ensures var p := SignedBezout(a, b); a * p.0 + b * p.1 == GcdOf(a, b)
  {
    var e, p := ExtendedEuclid(Abs(a), Abs(b), 1, 0, 0, 1), SignedBezout(a, b);
    assert Abs(a) * e.0 + Abs(b) * e.1 == GcdOf(a, b) by {
      BezoutIdentityAbs(a, b);
    }
    assert a * p.0 == Abs(a) * e.0 by {
      MulNegate(a, e.0);
    }
    assert b * p.1 == Abs(b) * e.1 by {
      MulNegate(b, e.1);
    }
  }
}
