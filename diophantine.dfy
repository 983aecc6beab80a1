/** Particular and general solutions of a·x + b·y = c. */
module Diophantine {
  import opened Arith
  import opened NumberTheory
  import opened Bezout

  /** One coordinate of the general solution: base + slope·t. */
  datatype Line = Line(base: int, slope: int)

  function Eval(l: Line, t: int): int {
    l.base + l.slope * t
  }

  /** `general_solution`'s result `[(x0, xm), (y0, ym)]`. */
  datatype Family = Family(x: Line, y: Line)

  /** The solvability test is exact: gcd(a, b) | c holds iff a·x + b·y == c has an
      integer solution. */
  lemma SolvableIff(a: int, b: int, c: int)
    requires a != 0 || b != 0
    ensures IsIntegralSolExist(a, b, c) <==> exists x, y :: IsSolution(a, b, c, x, y)
  {
    var d := GcdOf(a, b);
    if IsIntegralSolExist(a, b, c) {
      var p := SignedBezout(a, b);
      var m := c / d;
      assert IsSolution(a, b, c, p.0 * m, p.1 * m) by {
        SignedBezoutIdentity(a, b);
        ExactDiv(c, d);
        ScaleCombination(a, b, p.0, p.1, m);
      }
    }
    if exists x, y :: IsSolution(a, b, c, x, y) {
      var x, y :| IsSolution(a, b, c, x, y);
      GcdOfIsGcd(a, b);
      DividesCombination(d, a, b, x, y);
    }
  }

  /** Scaling a Bézout pair of (|a|, |b|) by c/d solves |a|·x + |b|·y == c. */
  lemma ScaledBezout(a: int, b: int, c: int, s: int, t: int, d: int)
    requires d > 0 && c % d == 0
    requires Abs(a) * s + Abs(b) * t == d
    ensures Abs(a) * (s * (c / d)) + Abs(b) * (t * (c / d)) == c
  {
    ExactDiv(c, d);
    ScaleCombination(Abs(a), Abs(b), s, t, c / d);
  }

  /** `particular_solution(a, b, c)`: NoIntegralSolution when gcd(a, b) does not
      divide c (the source exits the process there); otherwise the Bézout pair scaled
      by c // d. The pair solves the equation on |a| and |b|, and so solves the
      equation itself when a and b are not negative. */
  function ParticularSolution(a: int, b: int, c: int): (r: Result<(int, int)>)
    requires a != 0 || b != 0
    ensures r.Failure? <==> !IsIntegralSolExist(a, b, c)
    ensures r.Failure? ==> r.error == NoIntegralSolution
    ensures r.Success? ==> Abs(a) * r.value.0 + Abs(b) * r.value.1 == c
    ensures r.Success? && a >= 0 && b >= 0 ==> IsSolution(a, b, c, r.value.0, r.value.1)
  {
    if !IsIntegralSolExist(a, b, c) then Failure(NoIntegralSolution)
    else
      var d := GcdOf(a, b);
      var p := BezoutOf(a, b, d);
      var m := PyDiv(c, d);
      BezoutIdentityAbs(a, b);
      ScaledBezout(a, b, c, p.0, p.1, d);
      Success((p.0 * m, p.1 * m))
  }

  /** For a = -3, b = 5, c = 1 the pair returned is (2, -1), which does not solve
      -3·x + 5·y == 1: the source's check after computing it fails. */
  lemma ParticularSolutionNegativeCounterexample()
    ensures ParticularSolution(-3, 5, 1) == Success((2, -1))
    ensures !IsSolution(-3, 5, 1, 2, -1)
  {
    BezoutNegativeCounterexample();
  }

  /** With the corrected sign handling, the scaled pair solves the signed equation. */
  function CorrectedParticularSolution(a: int, b: int, c: int): (r: Result<(int, int)>)
    requires a != 0 || b != 0
    ensures r.Failure? <==> !IsIntegralSolExist(a, b, c)
    ensures r.Failure? ==> r.error == NoIntegralSolution
    ensures r.Success? ==> IsSolution(a, b, c, r.value.0, r.value.1)
    ensures a >= 0 && b >= 0 ==> r == ParticularSolution(a, b, c)
  {
    if !IsIntegralSolExist(a, b, c) then Failure(NoIntegralSolution)
    else
      var d := GcdOf(a, b);
      var p := SignedBezout(a, b);
      var m := PyDiv(c, d);
      SignedBezoutIdentity(a, b);
      ExactDiv(c, d);
      ScaleCombination(a, b, p.0, p.1, m);
      Success((p.0 * m, p.1 * m))
  }

  /** When a·xm + b·ym == 0, moving along the family does not change a·x + b·y. */
  lemma ShiftInvariant(a: int, b: int, f: Family)
    requires a * f.x.slope + b * f.y.slope == 0
    ensures forall t :: a * Eval(f.x, t) + b * Eval(f.y, t) == a * f.x.base + b * f.y.base
  {
    forall t ensures a * Eval(f.x, t) + b * Eval(f.y, t) == a * f.x.base + b * f.y.base {
      assert a * (f.x.slope * t) + b * (f.y.slope * t) == (a * f.x.slope + b * f.y.slope) * t;
    }
  }

  /** b // d and -a // d are exact, and a·(b/d) - b·(a/d) == 0. */
  lemma ReducedSlopes(a: int, b: int)
    requires a != 0 || b != 0
    ensures var d := GcdOf(a, b); d * PyDiv(b, d) == b && d * PyDiv(-a, d) == -a
    ensures var d := GcdOf(a, b); a * PyDiv(b, d) + b * PyDiv(-a, d) == 0
  {
    var d := GcdOf(a, b);
    GcdOfIsGcd(a, b);
    DividesCombination(d, a, a, -1, 0);
    ExactDiv(b, d);
    ExactDiv(-a, d);
    var xm, ym := PyDiv(b, d), PyDiv(-a, d);
    assert a * xm + b * ym == 0 by {
      assert d * (a * xm + b * ym) == a * (d * xm) + b * (d * ym);
    }
  }

  /** The family with base p and slopes (xm, ym), or (-xm, -ym) when inverted. */
  function MakeFamily(p: (int, int), xm: int, ym: int, invertSolution: bool): (f: Family)
    ensures (f.x.base, f.y.base) == p
    ensures f.x.slope * ym == f.y.slope * xm
  {
    if invertSolution then Family(Line(p.0, -xm), Line(p.1, -ym))
    else Family(Line(p.0, xm), Line(p.1, ym))
  }

  lemma MakeFamilySlopes(a: int, b: int, d: int, p: (int, int), xm: int, ym: int, invertSolution: bool)
    requires d * xm == b && d * ym == -a
    requires a * xm + b * ym == 0
    ensures var f := MakeFamily(p, xm, ym, invertSolution);
      && d * f.x.slope == (if invertSolution then -b else b)
      && d * f.y.slope == (if invertSolution then a else -a)
      && a * f.x.slope + b * f.y.slope == 0
  {
    MulNegate(d, xm);
    MulNegate(d, ym);
    MulNegate(a, xm);
    MulNegate(b, ym);
  }

  /** `general_solution(a, b, c, invert_solution)`: the particular solution with
      the slopes b // d and -a // d, both negated when `invert_solution` is set. */
  function GeneralSolution(a: int, b: int, c: int, invertSolution: bool): (r: Result<Family>)
    requires a != 0 || b != 0
    ensures r.Failure? <==> !IsIntegralSolExist(a, b, c)
    ensures r.Failure? ==> r.error == NoIntegralSolution
    ensures r.Success? ==>
      var d := GcdOf(a, b);
      && (r.value.x.base, r.value.y.base) == ParticularSolution(a, b, c).value
      && d * r.value.x.slope == (if invertSolution then -b else b)
      && d * r.value.y.slope == (if invertSolution then a else -a)
    ensures r.Success? ==> forall t ::
      a * Eval(r.value.x, t) + b * Eval(r.value.y, t) == a * r.value.x.base + b * r.value.y.base
    ensures r.Success? && a >= 0 && b >= 0 ==> forall t ::
      IsSolution(a, b, c, Eval(r.value.x, t), Eval(r.value.y, t))
  {
    var d := GcdOf(a, b);
    match ParticularSolution(a, b, c)
    case Failure(e) => Failure(e)
    case Success(p) =>
      var xm, ym := PyDiv(b, d), PyDiv(-a, d);
      var f := MakeFamily(p, xm, ym, invertSolution);
      ReducedSlopes(a, b);
      MakeFamilySlopes(a, b, d, p, xm, ym, invertSolution);
      ShiftInvariant(a, b, f);
      Success(f)
  }

  /** From a·s + b·u == 1 and a·x + b·y == 0, the shift t = x·u - y·s gives back
      x == b·t and y == -a·t. */
  lemma Reconstruct(bigA: int, bigB: int, s: int, u: int, x: int, y: int)
    requires bigA * s + bigB * u == 1
    requires bigA * x + bigB * y == 0
    ensures bigB * (x * u - y * s) == x
    ensures -bigA * (x * u - y * s) == y
  {
    assert bigB * (x * u - y * s) == x * (bigB * u) - s * (bigB * y);
    assert bigB * y == -(bigA * x);
    assert x * (bigB * u) - s * (-(bigA * x)) == x * (bigA * s + bigB * u);
    assert -bigA * (x * u - y * s) == -u * (bigA * x) + y * (bigA * s);
    assert bigA * x == -(bigB * y);
    assert -u * (-(bigB * y)) + y * (bigA * s) == y * (bigA * s + bigB * u);
  }

  /** a/d and b/d are coprime: some combination of them is 1. */
  lemma ReducedCoprime(a: int, b: int) returns (s: int, u: int)
    requires a != 0 || b != 0
    ensures var d := GcdOf(a, b); (a / d) * s + (b / d) * u == 1
  {
    var d := GcdOf(a, b);
    s, u := SignedBezout(a, b).0, SignedBezout(a, b).1;
    var bigA, bigB := a / d, b / d;
    assert a * s + b * u == d by {
      SignedBezoutIdentity(a, b);
    }
    assert a == d * bigA && b == d * bigB by {
      GcdOfIsGcd(a, b);
      ExactDiv(a, d);
      ExactDiv(b, d);
    }
    Distribute(d, bigA, bigB, s, u);
    CancelMul(d, bigA * s + bigB * u, 1);
  }

  /** Every solution lies on the family: when the base solves the equation, each
      solution (x, y) is the point of the family at some t. */
  lemma GeneralSolutionComplete(a: int, b: int, c: int, invertSolution: bool, x: int, y: int)
    returns (t: int)
    requires a != 0 || b != 0
    requires GeneralSolution(a, b, c, invertSolution).Success?
    requires var f := GeneralSolution(a, b, c, invertSolution).value;
      IsSolution(a, b, c, f.x.base, f.y.base)
    requires IsSolution(a, b, c, x, y)
    ensures var f := GeneralSolution(a, b, c, invertSolution).value;
      x == Eval(f.x, t) && y == Eval(f.y, t)
  {
    var f := GeneralSolution(a, b, c, invertSolution).value;
    var d := GcdOf(a, b);
    var bigA, bigB := a / d, b / d;
    assert a == d * bigA && b == d * bigB by {
      GcdOfIsGcd(a, b);
      ExactDiv(a, d);
      ExactDiv(b, d);
    }
    var s, u := ReducedCoprime(a, b);
    var dx, dy := x - f.x.base, y - f.y.base;
    assert bigA * dx + bigB * dy == 0 by {
      CombinationDifference(a, b, x, y, f.x.base, f.y.base);
      Distribute(d, bigA, bigB, dx, dy);
      CancelMul(d, bigA * dx + bigB * dy, 0);
    }
    Reconstruct(bigA, bigB, s, u, dx, dy);
    var t0 := dx * u - dy * s;
    assert f.x.slope == (if invertSolution then -bigB else bigB) by {
      MulNegate(d, bigB);
      CancelMul(d, f.x.slope, if invertSolution then -bigB else bigB);
    }
    assert f.y.slope == (if invertSolution then bigA else -bigA) by {
      MulNegate(d, bigA);
      CancelMul(d, f.y.slope, if invertSolution then bigA else -bigA);
    }
    t := if invertSolution then -t0 else t0;
    MulNegate(bigB, t0);
    MulNegate(bigA, t0);
  }

  /** Distinct parameters give distinct points. */
  lemma GeneralSolutionInjective(a: int, b: int, c: int, invertSolution: bool, t1: int, t2: int)
    requires a != 0 || b != 0
    requires IsIntegralSolExist(a, b, c)
    ensures var f := GeneralSolution(a, b, c, invertSolution).value;
      Eval(f.x, t1) == Eval(f.x, t2) && Eval(f.y, t1) == Eval(f.y, t2) ==> t1 == t2
  {
    var f := GeneralSolution(a, b, c, invertSolution).value;
    if Eval(f.x, t1) == Eval(f.x, t2) && Eval(f.y, t1) == Eval(f.y, t2) {
      if f.x.slope != 0 {
        CancelMul(f.x.slope, t1, t2);
      } else {
        assert b == 0;
        assert f.y.slope != 0;
        CancelMul(f.y.slope, t1, t2);
      }
    }
  }

  /** `general_solution(0, 2, 2)`: gcd 2, Bézout pair (0, 1), scale 1, slopes 1 and 0,
      so the family is x = t, y = 1. */
  lemma GeneralSolutionZeroTwoTwo()
    ensures GeneralSolution(0, 2, 2, false) == Success(Family(Line(0, 1), Line(1, 0)))
  {
    assert GcdOf(0, 2) == 2 by {
      assert PyMod(0, 2) == 0;
      assert GcdOf(2, 0) == 2;
    }
    assert PyMod(2, 2) == 0;
    assert ExtendedEuclid(0, 2, 1, 0, 0, 1) == (0, 1) by {
      assert ExtendedEuclid(2, 0, 0, 1, 1, 0) == (0, 1);
    }
    assert BezoutOf(0, 2, 2) == (0, 1);
    assert PyDiv(2, 2) == 1 && PyDiv(-0, 2) == 0;
    assert ParticularSolution(0, 2, 2) == Success((0, 1));
  }
}
