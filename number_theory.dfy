/** Euclid's gcd, its n-ary fold `gcd_mult`, and the solvability test gcd(a, b) | c. */
module NumberTheory {
  import opened Arith

  datatype Error = ValueError | NoIntegralSolution

  datatype Result<T> = Success(value: T) | Failure(error: Error)

  /** g is a greatest common divisor of a and b: a non-negative common divisor
      that every common divisor divides. */
  ghost predicate IsGcd(a: int, b: int, g: int) {
    && g >= 0
    && Divides(g, a) && Divides(g, b)
    && forall k :: Divides(k, a) && Divides(k, b) ==> Divides(k, g)
  }

  /** The value Euclid's loop `while b: a, b = b, a % b` ends with, made non-negative.
      It terminates because |b| strictly decreases under Python's modulo. */
  function GcdOf(a: int, b: int): (g: int)
    ensures g >= 0
    ensures g == 0 <==> a == 0 && b == 0
    decreases Abs(b)
  {
    if b == 0 then Abs(a) else GcdOf(b, PyMod(a, b))
  }

  /** gcd(a, b) as the source computes it, with a loop. */
  method Gcd(a: int, b: int) returns (g: int)
    ensures g == GcdOf(a, b)
    ensures IsGcd(a, b, g)
  {
    var x, y := a, b;
    while y != 0
      invariant GcdOf(x, y) == GcdOf(a, b)
      decreases Abs(y)
    {
      x, y := y, PyMod(x, y);
    }
    g := Abs(x);
    GcdOfIsGcd(a, b);
  }

  lemma {:induction false} GcdOfIsGcd(a: int, b: int)
    ensures IsGcd(a, b, GcdOf(a, b))
    decreases Abs(b)
  {
    var g := GcdOf(a, b);
    if b == 0 {
      DividesAbs(g, a);
      DividesProduct(g, 0);
      forall k | Divides(k, a) && Divides(k, b) ensures Divides(k, g) {
        DividesAbs(k, a);
        DividesAbs(k, g);
      }
    } else {
      var q, r := PyDiv(a, b), PyMod(a, b);
      GcdOfIsGcd(b, r);
      assert a == r * 1 + b * q;
      DividesCombination(g, r, b, 1, q);
      assert r == a * 1 + b * (-q) by {
        MulNegate(b, q);
      }
      forall k | Divides(k, a) && Divides(k, b) ensures Divides(k, g) {
        DividesCombination(k, a, b, 1, -q);
      }
    }
  }

  /** Two greatest common divisors of the same pair coincide. */
  lemma GcdUnique(a: int, b: int, g1: int, g2: int)
    requires IsGcd(a, b, g1) && IsGcd(a, b, g2)
    ensures g1 == g2
  {
    DividesAntisymmetric(g1, g2);
  }

  lemma GcdOfCharacterized(a: int, b: int, g: int)
    ensures IsGcd(a, b, g) <==> g == GcdOf(a, b)
  {
    GcdOfIsGcd(a, b);
    if IsGcd(a, b, g) {
      GcdUnique(a, b, g, GcdOf(a, b));
    }
  }

  lemma GcdZero()
    ensures GcdOf(0, 0) == 0
  {
  }

  /** gcd(a, b) == gcd(b, a) == gcd(-a, b) == gcd(|a|, |b|). */
  lemma GcdSymmetries(a: int, b: int)
    ensures GcdOf(a, b) == GcdOf(b, a)
    ensures GcdOf(a, b) == GcdOf(-a, b)
    ensures GcdOf(a, b) == GcdOf(Abs(a), Abs(b))
  {
    var g := GcdOf(a, b);
    GcdOfIsGcd(a, b);
    DividesAbs(g, a);
    DividesAbs(g, -a);
    DividesAbs(g, b);
    forall k | Divides(k, -a) && Divides(k, b) ensures Divides(k, g) {
      DividesAbs(k, -a);
      DividesAbs(k, a);
    }
    forall k | Divides(k, Abs(a)) && Divides(k, Abs(b)) ensures Divides(k, g) {
      DividesAbs(k, a);
      DividesAbs(k, Abs(a));
      DividesAbs(k, b);
      DividesAbs(k, Abs(b));
    }
    DividesAbs(g, Abs(a));
    DividesAbs(g, Abs(b));
    GcdOfCharacterized(b, a, g);
    GcdOfCharacterized(-a, b, g);
    GcdOfCharacterized(Abs(a), Abs(b), g);
  }

  /** `gcd_mult`'s running result: the left fold of gcd over the absolute values,
      seeded with |s[0]|. */
  function GcdAll(s: seq<int>): (g: int)
    requires |s| >= 1
    ensures g >= 0
  {
    if |s| == 1 then Abs(s[0]) else GcdOf(GcdAll(s[..|s| - 1]), Abs(s[|s| - 1]))
  }

  ghost predicate CommonDivisor(k: int, s: seq<int>) {
    forall i :: 0 <= i < |s| ==> Divides(k, s[i])
  }

  /** The fold is the greatest common divisor of all the arguments. */
  lemma {:induction false} GcdAllIsGcd(s: seq<int>)
    requires |s| >= 1
    ensures CommonDivisor(GcdAll(s), s)
    ensures forall k :: CommonDivisor(k, s) ==> Divides(k, GcdAll(s))
  {
    var g := GcdAll(s);
    var n := |s|;
    if n == 1 {
      DividesAbs(g, s[0]);
      DividesAbs(g, g);
      forall k | CommonDivisor(k, s) ensures Divides(k, g) {
        DividesAbs(k, s[0]);
        DividesAbs(k, g);
      }
    } else {
      var p, x := s[..n - 1], s[n - 1];
      GcdAllIsGcd(p);
      var h := GcdAll(p);
      GcdOfIsGcd(h, Abs(x));
      forall i | 0 <= i < n ensures Divides(g, s[i]) {
        if i < n - 1 {
          assert s[i] == p[i];
          DividesTransitive(g, h, s[i]);
        } else {
          DividesAbs(g, Abs(x));
          DividesAbs(g, x);
        }
      }
      forall k | CommonDivisor(k, s) ensures Divides(k, g) {
        assert CommonDivisor(k, p) by {
          forall i | 0 <= i < |p| ensures Divides(k, p[i]) {
            assert p[i] == s[i];
          }
        }
        assert Divides(k, x);
        DividesAbs(k, x);
        DividesAbs(k, Abs(x));
      }
    }
  }

  /** Once the running gcd is 1 it stays 1, so `gcd_mult`'s early `return 1`
      agrees with the full fold. */
  lemma {:induction false} GcdAllAbsorbsOne(s: seq<int>, i: nat)
    requires 1 <= i <= |s|
    requires GcdAll(s[..i]) == 1
    ensures GcdAll(s) == 1
    decreases |s| - i
  {
    if i == |s| {
      assert s[..i] == s;
    } else {
      var p := s[..i + 1];
      assert p[..i] == s[..i];
      GcdOneAbsorbs(Abs(s[i]));
      assert GcdAll(p) == 1;
      GcdAllAbsorbsOne(s, i + 1);
    }
  }

  lemma GcdOneAbsorbs(x: int)
    ensures GcdOf(1, x) == 1
  {
    GcdOfIsGcd(1, x);
    DividesBounded(GcdOf(1, x), 1);
  }

  /** gcd_mult: fails with ValueError on no arguments, else folds gcd over the
      absolute values and stops as soon as the running result is 1. */
  method GcdMult(args: seq<int>) returns (r: Result<int>)
    ensures args == [] <==> r == Failure(ValueError)
    ensures args != [] ==> r == Success(GcdAll(args))
  {
    if args == [] {
      return Failure(ValueError);
    }
    var result := Abs(args[0]);
    assert args[..1] == [args[0]];
    for i := 1 to |args|
      invariant result == GcdAll(args[..i])
    {
      result := Gcd(result, Abs(args[i]));
      assert args[..i + 1][..i] == args[..i];
      if result == 1 {
        GcdAllAbsorbsOne(args, i + 1);
        return Success(1);
      }
    }
    assert args[..|args|] == args;
    return Success(result);
  }

  /** a·x + b·y == c. */
  predicate IsSolution(a: int, b: int, c: int, x: int, y: int) {
    a * x + b * y == c
  }

  /** `is_integral_sol_exist`: gcd(a, b) divides c. The source computes `c % 0`
      when a == b == 0, so that case is excluded. */
  function IsIntegralSolExist(a: int, b: int, c: int): (r: bool)
    requires a != 0 || b != 0
    ensures r <==> Divides(GcdOf(a, b), c)
  {
    PyMod(c, GcdOf(a, b)) == 0
  }
}
