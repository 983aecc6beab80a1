# Linear Diophantine equations a·x + b·y = c

This project models `main.py`, a small Python module that solves linear
Diophantine equations in two variables. It proves properties of that model.
The module has five parts, and each is a Dafny module:

- `Arith` (`arith.dfy`) holds the integer helpers. Python's floor `//` and `%` are
  written out as `PyDiv` and `PyMod`, because Dafny's own operators are Euclidean.
  `ceil_div` is `CeilDiv`, and divisibility is `Divides`.
- `NumberTheory` (`number_theory.dfy`) holds the following:
  - Euclid's `gcd`, as the loop `Gcd` and the recursive function `GcdOf` that specifies it.
  - The n-ary `gcd_mult`, as `GcdMult` and its specification, the fold `GcdAll`.
  - The solvability test `is_integral_sol_exist`, as `IsIntegralSolExist`.
- `Bezout` (`bezout.dfy`) holds the extended Euclidean loop of `get_bezout`. The
  method is `GetBezout`. Its specification is the function `BezoutOf`: the
  recursive `ExtendedEuclid` followed by the sign test of main.py:69.
- `Diophantine` (`diophantine.dfy`) holds `particular_solution` as
  `ParticularSolution` and `general_solution` as `GeneralSolution`. Their result is
  the family `x = x0 + xm·t`, `y = y0 + ym·t`.
- `NaturalSolutions` (`natural_solutions.dfy`) holds `get_natural_solutions`:
  - the t-range that keeps each coordinate positive;
  - the intersection of the two ranges;
  - the scan that collects the pairs with both coordinates positive.

Process exits become values. `sys.exit(1)` in `particular_solution` becomes
`Failure(NoIntegralSolution)`. The `ValueError` of `gcd_mult` becomes
`Failure(ValueError)`. The `float('inf')` bounds become `None` in an `Option<int>`.

Two places in `main.py` promise more than the code delivers. The model follows
the code in both:

- **Sign correction.** The docstring of `get_bezout` (main.py:55-56) promises
  a·s + b·t = d, and the assert at the end of `particular_solution` (main.py:94)
  relies on it. The loop runs on |a| and |b|. The comment at main.py:68 says the signs are
  then adjusted "based on original gcd value", and the code tests d == abs(d)
  (main.py:69). A gcd is never negative, so nothing is negated. The model proves
  |a|·s + |b|·t = d for all inputs, and a·s + b·t = d only for a, b ≥ 0 (see
  Findings).
- **Degenerate equation.** The docstring of `is_integral_sol_exist`
  (main.py:49-50) says a solution exists when gcd(a, b) divides c. For a = b = 0,
  gcd(0, 0) is 0 (`GcdZero`), and 0 divides c only when c = 0, so that reading
  gives "solvable exactly when c = 0". The code instead computes `c % 0`
  (main.py:52), which raises in Python. The model makes (a, b) ≠ (0, 0) a
  precondition of `IsIntegralSolExist` and of everything downstream of it.

## Model

| member | source | states |
|---|---|---|
| Arith.PyDiv | main.py:13 | Python's `//` (also at main.py:90, 115, 159 and 170), rounding down: for d > 0, d·q ≤ n < d·q + d; for d < 0, the mirrored bounds |
| Arith.PyMod | main.py:23 | n == d·(n // d) + r, with r in [0, d) for d > 0 and in (d, 0] for d < 0, so the remainder takes the divisor's sign |
| Arith.CeilDiv | main.py:11-13 | -(-n // d) is the ceiling: for d > 0 it is the least q with q·d ≥ n, i.e. q·d ≥ n > (q-1)·d; mirrored for d < 0 |
| NumberTheory.GcdOf | main.py:15-24 | Euclid's loop ends (abs(b) decreases under floor modulo) with a non-negative value that is 0 exactly when a = b = 0 |
| NumberTheory.Gcd | main.py:15-24 | The loop returns GcdOf(a, b), and that value is a greatest common divisor of a and b |
| NumberTheory.GcdOfIsGcd | main.py:15-24 | gcd(a, b) is non-negative, divides a and b, and is divided by every common divisor |
| NumberTheory.GcdUnique | main.py:15-24 | Two greatest common divisors of the same pair are equal |
| NumberTheory.GcdOfCharacterized | main.py:15-24 | g is a greatest common divisor of a and b if and only if g == gcd(a, b) |
| NumberTheory.GcdZero | main.py:22-24 | gcd(0, 0) == 0 |
| NumberTheory.GcdSymmetries | main.py:15-24 | gcd(a, b) == gcd(b, a) == gcd(-a, b) == gcd(abs(a), abs(b)) |
| NumberTheory.GcdAll | main.py:36-38 | The left fold of gcd over the absolute values is never negative |
| NumberTheory.GcdAllIsGcd | main.py:26-41 | The fold divides every argument and is divided by every common divisor of all the arguments |
| NumberTheory.GcdAllAbsorbsOne | main.py:39-40 | Once the running gcd is 1 the full fold is 1, so the early `return 1` agrees with the fold |
| NumberTheory.GcdOneAbsorbs | main.py:38-40 | gcd(1, x) == 1 for every x |
| NumberTheory.IsIntegralSolExist | main.py:43-52 | c % gcd(a, b) == 0 holds exactly when gcd(a, b) divides c; its partner Diophantine.SolvableIff proves this is exactly solvability |
| NumberTheory.GcdMult | main.py:26-41 | Fails with ValueError exactly when there are no arguments; otherwise returns the fold of gcd over the absolute values |
| Bezout.ExtendedEuclid | main.py:63-66 | The loop's result from a given state; its partner Bezout.ExtendedEuclidInvariant proves the pair combines the two inputs into their gcd |
| Bezout.BezoutOf | main.py:54-69 | The pair `get_bezout` returns; for d ≥ 0 (every gcd) it is the unnegated extended-Euclid pair on abs(a), abs(b) |
| Bezout.EuclidStep | main.py:65-66 | One division step keeps the new remainder a combination of abs(A) and abs(B) with the updated coefficients |
| Bezout.ExtendedEuclidInvariant | main.py:63-66 | From a state where x = s1·abs(A) + t1·abs(B) and y = s2·abs(A) + t2·abs(B), the final pair combines abs(A) and abs(B) into gcd(x, y) |
| Bezout.BezoutIdentityAbs | main.py:54-69 | For every sign of a and b, the pair returned satisfies abs(a)·s + abs(b)·t == gcd(a, b) |
| Bezout.BezoutIdentity | main.py:54-69 | For a, b ≥ 0 the pair returned satisfies a·s + b·t == gcd(a, b) |
| Bezout.SignCorrectionInert | main.py:69 | The sign correction never negates: the result is the plain extended-Euclid pair on abs(a), abs(b) |
| Bezout.BezoutNegativeCounterexample | main.py:69 | For a = -3, b = 5 the pair is (2, -1), and -3·2 + 5·(-1) ≠ gcd(-3, 5) = 1 |
| Bezout.GetBezout | main.py:54-69 | Requires d == gcd(a, b), as the assert at line 60 does. Returns the extended-Euclid pair with abs(a)·s + abs(b)·t == d, and a·s + b·t == d when a, b ≥ 0 |
| Bezout.SignedBezoutIdentity | main.py:54-69 | The corrected coefficients (negated per negative input) satisfy a·s + b·t == gcd(a, b) for all signs |
| Diophantine.SolvableIff | main.py:43-52 | gcd(a, b) divides c if and only if a·x + b·y == c has an integer solution |
| Diophantine.ScaledBezout | main.py:89-91 | Scaling a Bézout pair of (abs(a), abs(b)) by c / d solves abs(a)·x + abs(b)·y == c |
| Diophantine.ParticularSolution | main.py:71-96 | Fails with NoIntegralSolution exactly when the equation is not solvable. Otherwise abs(a)·x0 + abs(b)·y0 == c, and a·x0 + b·y0 == c (the assert at line 94) when a, b ≥ 0 |
| Diophantine.ParticularSolutionNegativeCounterexample | main.py:88-94 | For (a, b, c) = (-3, 5, 1) the pair computed is (2, -1), which does not solve the equation |
| Diophantine.CorrectedParticularSolution | main.py:71-96 | With the corrected signs, the pair solves a·x + b·y == c for every solvable equation, and it equals the source's pair when a, b ≥ 0 |
| Diophantine.ShiftInvariant | main.py:115-118 | When a·xm + b·ym == 0, a·x + b·y is the same at every point of the family |
| Diophantine.ReducedSlopes | main.py:115 | b // d and -a // d are exact divisions, and a·(b/d) + b·(-a/d) == 0 |
| Diophantine.MakeFamily | main.py:124 | The returned family has the particular solution as its base, and its slopes stay proportional to (xm, ym) whichever way `invert_solution` is set |
| Diophantine.MakeFamilySlopes | main.py:124 | Negating both slopes for `invert_solution` keeps d·xm == ±b, d·ym == ∓a and a·xm + b·ym == 0 |
| Diophantine.GeneralSolution | main.py:98-124 | Fails exactly when the equation is not solvable. Otherwise the base is the particular solution and d·xm == ±b, d·ym == ∓a. For every t, a·x(t) + b·y(t) equals its value at the base, so every point solves the equation when a, b ≥ 0 (the assert at line 118 only checks t = 1) |
| Diophantine.GeneralSolutionZeroTwoTwo | main.py:110-124 | For (a, b, c) = (0, 2, 2) the general solution is the family x = t, y = 1 |
| Diophantine.GeneralSolutionComplete | main.py:98-124 | When the base solves the equation, every integer solution (x, y) is the family's point at some t |
| Diophantine.GeneralSolutionInjective | main.py:98-124 | Distinct parameters t give distinct points |
| NaturalSolutions.LowerBoundExact | main.py:154-156 | For slope m > 0, v0 + m·t > 0 if and only if t ≥ ceil_div(1 - v0, m) |
| NaturalSolutions.UpperBoundExact | main.py:157-159 | For slope m < 0, v0 + m·t > 0 if and only if t ≤ (v0 - 1) // abs(m) |
| NaturalSolutions.CoordRange | main.py:153-173 | A coordinate has a finite lower bound exactly when its slope is positive and a finite upper bound exactly when its slope is negative |
| NaturalSolutions.CoordRangeExact | main.py:153-173 | Every t where a coordinate is positive lies in its range. The converse holds unless the slope is zero and the constant is not positive |
| NaturalSolutions.MaxLower | main.py:175 | `max` of two lower bounds (None as minus infinity): t is above it exactly when t is above both, and it is None only when both are |
| NaturalSolutions.MinUpper | main.py:176 | `min` of two upper bounds (None as plus infinity): t is below it exactly when t is below both, and it is None only when both are |
| NaturalSolutions.Intersect | main.py:175-176 | t lies in max-of-lowers..min-of-uppers if and only if it lies in both ranges |
| NaturalSolutions.TRange | main.py:175-176 | [t_lower, t_upper] holds t exactly when both coordinates' ranges hold it |
| NaturalSolutions.TRangeExact | main.py:153-176 | Every natural point's t lies in [t_lower, t_upper]. Every t in that range is natural unless a coordinate is a non-positive constant |
| NaturalSolutions.PositiveTs | main.py:190-194 | The scanned parameters: all in [lo, hi), both coordinates positive at each, strictly increasing (pairs come in increasing t) |
| NaturalSolutions.PositiveTsComplete | main.py:190-194 | The scan misses no t in [lo, hi) at which both coordinates are positive |
| NaturalSolutions.PositiveTsPrefix | main.py:190-195 | Stopping the scan early yields a prefix of the full scan |
| NaturalSolutions.TakeScanned | main.py:193-195 | Breaking after the n-th pair yields the first n parameters of the full scan |
| NaturalSolutions.PointsStep | main.py:182-186 | Scanning one more t appends its pair exactly when both coordinates are positive there |
| NaturalSolutions.Start | main.py:181 | The scan's first t: no t below it lies in the range when t_lower is finite, and it lies in the range when only t_lower is finite |
| NaturalSolutions.ScanUnbounded | main.py:179-187 | At most max(limit, 0) pairs. They are the natural points from the start up to some t, in order, and fewer than `limit` only if the step bound ran out |
| NaturalSolutions.ScanBounded | main.py:189-195 | The natural points of [t_lower, t_upper] in increasing t: all of them when `all` is set, else the first max(limit, 1), so at most `limit` for limit ≥ 1 |
| NaturalSolutions.EnumerateNatural | main.py:150-197 | Every pair has both coordinates positive, and the result is what ScanResult describes: with a finite range exactly the scanned natural points (all, or the first max(limit, 1)); otherwise the ScanUnbounded guarantees |
| NaturalSolutions.GetNaturalSolutions | main.py:126-197 | When a + b == c it returns exactly [(1, 1)]; otherwise positive pairs that are exactly the scan's result (ScanResult) |
| NaturalSolutions.BoundedScanComplete | main.py:189-195 | With a finite range, every natural point of the family is among the scanned parameters |
| NaturalSolutions.PointsSolve | main.py:126-197 | On a family whose base solves the equation, every reported pair solves it |
| NaturalSolutions.TrivialCaseUnique | main.py:145-148 | For a, b > 0, (1, 1) is the only natural solution of a·x + b·y == a + b |
| NaturalSolutions.TrivialShortcutCounterexample | main.py:145-148 | For (a, b, c) = (-1, 3, 2), a + b == c holds, yet (4, 2) is a natural solution besides (1, 1) |
| NaturalSolutions.TrivialShortcutGeneralCounterexample | main.py:145-148 | For (a, b, c) = (0, 2, 2) general_solution gives the family x = t, y = 1, a + b == c holds, and its point at t = 2 is the natural solution (2, 1), which the shortcut drops |
| NaturalSolutions.GetNaturalSolutionsCorrected | main.py:126-197 | The shortcut is taken only for a, b > 0, where [(1, 1)] is returned and contains every natural solution. Everywhere else the result is exactly the source's scan (ScanResult) |

## Left out

- Console output: `pRed`, `pGreen` and the `prnt` printing (main.py:3-9, 85, 120-122, 147) are not modelled.
- `sys.exit(1)` (main.py:86) is not modelled as a process exit; it becomes `Failure(NoIntegralSolution)`.
- The branch `if sol is False: return []` (main.py:112-113) is left out because it is dead: `particular_solution` never returns False.
- The `assert` statements (main.py:60, 94, 118) are not runtime checks here. Line 60 becomes GetBezout's precondition. Lines 94 and 118 become ensures clauses, conditioned on a, b ≥ 0.
- ParticularSolution: the signed identity a·x0 + b·y0 == c is stated only for a, b ≥ 0. For negative inputs the source's assert at line 94 can fail, and the model then returns the unchecked pair instead of raising.
- GeneralSolution: every point solves the equation only for a, b ≥ 0; for other signs, only a·x + b·y staying constant along the family is stated. The reason is the same as for ParticularSolution.
- GetBezout: a·s + b·t == d is stated only for a, b ≥ 0, because the sign correction at main.py:69 never fires.
- a = b = 0 is excluded by precondition, since the source computes `c % 0` there.
- ScanUnbounded: the source's `while len(solutions) < limit` loop (main.py:180-187) need not end. It runs forever when a slope is zero with a non-positive constant, when both slopes are negative and t_upper < 0, or when fewer than `limit` natural pairs exist. The model stops after `fuel` steps and proves partial correctness only.
- `float('inf')` is not modelled as real arithmetic; it is only the absent-bound marker, `None`.
- Default arguments (`limit=1000`, `all=False`, `invert_solution=False`) are explicit parameters.

## Findings

| source | as written | input that shows it | evidently intended | confidence | as-written member | corrected member |
|---|---|---|---|---|---|---|
| main.py:69 | The sign correction tests d == abs(d), which is always true, so coefficients of negative inputs are never negated | a = -3, b = 5, c = 1: get_bezout gives (2, -1), -3·2 + 5·(-1) = -11 ≠ 1, so the assert at line 94 fails | Negate s for a < 0 and t for b < 0, so that a·s + b·t == d for all signs | high (proved; not executed) | Bezout.BezoutNegativeCounterexample, Diophantine.ParticularSolutionNegativeCounterexample | Bezout.SignedBezoutIdentity, Diophantine.CorrectedParticularSolution |
| main.py:145-148 | Returns [(1, 1)] whenever a + b == c, claiming it is the only natural solution | a = 0, b = 2, c = 2: general_solution gives x = t, y = 1, whose point (2, 1) at t = 2 is also a natural solution; with x_gen and y_gen passed directly, a = -1, b = 3, c = 2 has (4, 2) too | Take the shortcut only for a, b > 0, where (1, 1) is the unique natural solution | high (proved; not executed) | NaturalSolutions.TrivialShortcutGeneralCounterexample, NaturalSolutions.TrivialShortcutCounterexample | NaturalSolutions.TrivialCaseUnique, NaturalSolutions.GetNaturalSolutionsCorrected |
