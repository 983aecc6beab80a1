/** `get_natural_solutions`: the solutions of a family with both coordinates positive. */
module NaturalSolutions {
  import opened Arith
  import opened NumberTheory
  import opened Bezout
  import opened Diophantine

  datatype Option<T> = None | Some(value: T)

  /** A range of the parameter t. An absent lower bound stands for minus infinity
      and an absent upper bound for plus infinity. */
  datatype Range = Range(lower: Option<int>, upper: Option<int>)

  /** t is not below the lower bound lo. */
  predicate AboveLower(lo: Option<int>, t: int) {
    lo.None? || lo.value <= t
  }

  /** t is not above the upper bound up. */
  predicate BelowUpper(up: Option<int>, t: int) {
    up.None? || t <= up.value
  }

  predicate InRange(r: Range, t: int) {
    AboveLower(r.lower, t) && BelowUpper(r.upper, t)
  }

  /** Both coordinates of the family are positive at t. */
  predicate Natural(xGen: Line, yGen: Line, t: int) {
    Eval(xGen, t) > 0 && Eval(yGen, t) > 0
  }

  /** For a positive slope, base + slope·t > 0 exactly from t = ceil_div(1 - base, slope) on. */
  lemma LowerBoundExact(l: Line, t: int)
    requires l.slope > 0
    ensures Eval(l, t) > 0 <==> t >= CeilDiv(1 - l.base, l.slope)
  {
    var q := CeilDiv(1 - l.base, l.slope);
    if t >= q {
      MulMonotone(l.slope, q, t);
    } else {
      MulMonotone(l.slope, t, q - 1);
    }
  }

  /** For a negative slope, base + slope·t > 0 exactly up to t = (base - 1) // |slope|. */
  lemma UpperBoundExact(l: Line, t: int)
    requires l.slope < 0
    ensures Eval(l, t) > 0 <==> t <= PyDiv(l.base - 1, Abs(l.slope))
  {
    var k := Abs(l.slope);
    var q := PyDiv(l.base - 1, k);
    assert l.slope * t == -(k * t);
    if t <= q {
      MulMonotone(k, t, q);
    } else {
      MulMonotone(k, q + 1, t);
    }
  }

  /** The t-bounds of one coordinate: a lower bound for a positive slope, an upper
      bound for a negative one, neither for slope zero. */
  function CoordRange(l: Line): (r: Range)
    ensures r.lower.Some? <==> l.slope > 0
    ensures r.upper.Some? <==> l.slope < 0
  {
    if l.slope > 0 then Range(Some(CeilDiv(1 - l.base, l.slope)), None)
    else if l.slope < 0 then Range(None, Some(PyDiv(l.base - 1, Abs(l.slope))))
    else Range(None, None)
  }

  /** Every t at which the coordinate is positive lies in its range; the converse
      holds unless the slope is zero and the base is not positive. */
  lemma CoordRangeExact(l: Line, t: int)
    ensures Eval(l, t) > 0 ==> InRange(CoordRange(l), t)
    ensures (l.slope != 0 || l.base > 0) ==> (InRange(CoordRange(l), t) ==> Eval(l, t) > 0)
  {
    if l.slope > 0 {
      LowerBoundExact(l, t);
    } else if l.slope < 0 {
      UpperBoundExact(l, t);
    }
  }

  /** Python's `max` over lower bounds, minus infinity being the least. */
  function MaxLower(p: Option<int>, q: Option<int>): (r: Option<int>)
    ensures r.None? <==> p.None? && q.None?
    ensures forall t :: AboveLower(r, t) <==> AboveLower(p, t) && AboveLower(q, t)
  {
    if p.None? then q else if q.None? then p else Some(Max(p.value, q.value))
  }

  /** Python's `min` over upper bounds, plus infinity being the greatest. */
  function MinUpper(p: Option<int>, q: Option<int>): (r: Option<int>)
    ensures r.None? <==> p.None? && q.None?
    ensures forall t :: BelowUpper(r, t) <==> BelowUpper(p, t) && BelowUpper(q, t)
  {
    if p.None? then q else if q.None? then p else Some(Min(p.value, q.value))
  }

  function Intersect(r1: Range, r2: Range): (r: Range)
    ensures forall t :: InRange(r, t) <==> InRange(r1, t) && InRange(r2, t)
  {
    Range(MaxLower(r1.lower, r2.lower), MinUpper(r1.upper, r2.upper))
  }

  /** The combined range [t_lower, t_upper] of the two coordinates. */
  function TRange(xGen: Line, yGen: Line): (r: Range)
    ensures forall t :: InRange(r, t) <==> InRange(CoordRange(xGen), t) && InRange(CoordRange(yGen), t)
  {
    Intersect(CoordRange(xGen), CoordRange(yGen))
  }

  /** Every natural point of the family lies in the combined range, and every t of
      the range is natural when neither coordinate is a non-positive constant. */
  lemma TRangeExact(xGen: Line, yGen: Line, t: int)
    ensures Natural(xGen, yGen, t) ==> InRange(TRange(xGen, yGen), t)
    ensures (xGen.slope != 0 || xGen.base > 0) && (yGen.slope != 0 || yGen.base > 0) ==>
      (InRange(TRange(xGen, yGen), t) ==> Natural(xGen, yGen, t))
  {
    CoordRangeExact(xGen, t);
    CoordRangeExact(yGen, t);
  }

  /** The t in [lo, hi) at which both coordinates are positive, in increasing order. */
  function PositiveTs(xGen: Line, yGen: Line, lo: int, hi: int): (ts: seq<int>)
    ensures forall i :: 0 <= i < |ts| ==> lo <= ts[i] < hi && Natural(xGen, yGen, ts[i])
    ensures forall i, j :: 0 <= i < j < |ts| ==> ts[i] < ts[j]
    decreases hi - lo
  {
    if hi <= lo then []
    else PositiveTs(xGen, yGen, lo, hi - 1) + (if Natural(xGen, yGen, hi - 1) then [hi - 1] else [])
  }

  /** The scan misses no parameter at which both coordinates are positive. */
  lemma {:induction false} PositiveTsComplete(xGen: Line, yGen: Line, lo: int, hi: int, t: int)
    requires lo <= t < hi && Natural(xGen, yGen, t)
    ensures t in PositiveTs(xGen, yGen, lo, hi)
    decreases hi - lo
  {
    var p := PositiveTs(xGen, yGen, lo, hi - 1);
    if t < hi - 1 {
      PositiveTsComplete(xGen, yGen, lo, hi - 1, t);
      assert PositiveTs(xGen, yGen, lo, hi)[..|p|] == p;
    }
  }

  /** Scanning further only appends: the scan up to m is a prefix of the scan up to n. */
  lemma {:induction false} PositiveTsPrefix(xGen: Line, yGen: Line, lo: int, m: int, n: int)
    requires lo <= m <= n
    ensures var short := PositiveTs(xGen, yGen, lo, m);
      |short| <= |PositiveTs(xGen, yGen, lo, n)| && short == PositiveTs(xGen, yGen, lo, n)[..|short|]
    decreases n - m
  {
    if m < n {
      PositiveTsPrefix(xGen, yGen, lo, m, n - 1);
      var long := PositiveTs(xGen, yGen, lo, n - 1);
      assert PositiveTs(xGen, yGen, lo, n)[..|long|] == long;
    }
  }

  /** The pairs (x, y) of the family at the given parameters. */
  function Points(xGen: Line, yGen: Line, ts: seq<int>): (ps: seq<(int, int)>)
    ensures |ps| == |ts|
    ensures forall i :: 0 <= i < |ts| ==> ps[i] == (Eval(xGen, ts[i]), Eval(yGen, ts[i]))
  {
    seq(|ts|, i requires 0 <= i < |ts| => (Eval(xGen, ts[i]), Eval(yGen, ts[i])))
  }

  /** The first n elements of s, or all of s when it is shorter. */
  function Take(s: seq<int>, n: nat): (r: seq<int>)
    ensures |r| == Min(n, |s|) && r == s[..|r|]
  {
    if n < |s| then s[..n] else s
  }

  /** Where the unbounded scan starts: t_lower when it is finite, else 0. Starting
      there skips no t of the range when t_lower is finite. */
  function Start(r: Range): (s: int)
    ensures r.lower.Some? && r.upper.None? ==> InRange(r, s)
    ensures forall t :: t < s && r.lower.Some? ==> !InRange(r, t)
  {
    if r.lower.Some? then r.lower.value else 0
  }

  /** Scanning one more t appends its pair when it is natural. */
  lemma PointsStep(xGen: Line, yGen: Line, lo: int, t: int)
    requires lo <= t
    ensures Points(xGen, yGen, PositiveTs(xGen, yGen, lo, t + 1))
      == Points(xGen, yGen, PositiveTs(xGen, yGen, lo, t))
         + (if Natural(xGen, yGen, t) then [(Eval(xGen, t), Eval(yGen, t))] else [])
  {
    var p, q := PositiveTs(xGen, yGen, lo, t), PositiveTs(xGen, yGen, lo, t + 1);
    if Natural(xGen, yGen, t) {
      assert q == p + [t];
    } else {
      assert q == p;
    }
  }

  /** Taking as many parameters as the scan up to m found gives that scan. */
  lemma TakeScanned(xGen: Line, yGen: Line, lo: int, m: int, hi: int, n: nat)
    requires lo <= m <= hi
    requires |PositiveTs(xGen, yGen, lo, m)| == n
    ensures Take(PositiveTs(xGen, yGen, lo, hi), n) == PositiveTs(xGen, yGen, lo, m)
  {
    PositiveTsPrefix(xGen, yGen, lo, m, hi);
  }

  /** What the scan of `get_natural_solutions` returns. With a finite combined
      range: the natural pairs of [t_lower, t_upper] in increasing t, all of them
      when `all` is set and otherwise the first max(limit, 1). With a range unbounded
      on a side: the natural pairs from Start upwards to some point, at most
      max(limit, 0) of them, and fewer than `limit` only when the fuel ran out. */
  ghost predicate ScanResult(
    xGen: Line, yGen: Line, limit: int, all: bool, fuel: nat, solutions: seq<(int, int)>)
  {
    var r := TRange(xGen, yGen);
    if r.lower.Some? && r.upper.Some? then
      var ts := PositiveTs(xGen, yGen, r.lower.value, r.upper.value + 1);
      solutions == Points(xGen, yGen, if all then ts else Take(ts, Max(limit, 1)))
    else
      && |solutions| <= Max(limit, 0)
      && exists hi ::
           && Start(r) <= hi <= Start(r) + fuel
           && solutions == Points(xGen, yGen, PositiveTs(xGen, yGen, Start(r), hi))
           && (hi < Start(r) + fuel ==> |solutions| >= limit)
  }

  /** The scan of an unbounded range: from `start` upwards until `limit` pairs are
      found. The source's loop need not end; this one stops after `fuel` steps. */
  method ScanUnbounded(xGen: Line, yGen: Line, start: int, limit: int, fuel: nat)
    returns (solutions: seq<(int, int)>)
    ensures |solutions| <= Max(limit, 0)
    ensures exists hi ::
              && start <= hi <= start + fuel
              && solutions == Points(xGen, yGen, PositiveTs(xGen, yGen, start, hi))
              && (hi < start + fuel ==> |solutions| >= limit)
  {
    solutions := [];
    var t := start;
    while |solutions| < limit && t < start + fuel
      invariant start <= t <= start + fuel
      invariant solutions == Points(xGen, yGen, PositiveTs(xGen, yGen, start, t))
      invariant |solutions| <= Max(limit, 0)
      decreases start + fuel - t
    {
      PointsStep(xGen, yGen, start, t);
      var x, y := Eval(xGen, t), Eval(yGen, t);
      if x > 0 && y > 0 {
        solutions := solutions + [(x, y)];
      }
      t := t + 1;
    }
  }

  /** The scan of the bounded range [lo, hi]: every natural pair in order, or,
      unless `all` is set, those up to the one that brings the count to `limit`. */
  method ScanBounded(xGen: Line, yGen: Line, lo: int, hi: int, limit: int, all: bool)
    returns (solutions: seq<(int, int)>)
    ensures var ts := PositiveTs(xGen, yGen, lo, hi + 1);
      solutions == Points(xGen, yGen, if all then ts else Take(ts, Max(limit, 1)))
    ensures !all && limit >= 1 ==> |solutions| <= limit
  {
    solutions := [];
    ghost var ts := PositiveTs(xGen, yGen, lo, hi + 1);
    ghost var n := Max(limit, 1);
    if lo <= hi {
      for t := lo to hi + 1
        invariant solutions == Points(xGen, yGen, PositiveTs(xGen, yGen, lo, t))
        invariant !all ==> |solutions| < n
      {
        PointsStep(xGen, yGen, lo, t);
        var x, y := Eval(xGen, t), Eval(yGen, t);
        if x > 0 && y > 0 {
          solutions := solutions + [(x, y)];
          if !all && |solutions| >= limit {
            TakeScanned(xGen, yGen, lo, t + 1, hi + 1, n);
            assert solutions == Points(xGen, yGen, Take(ts, n));
            return;
          }
        }
      }
    }
    assert solutions == Points(xGen, yGen, ts);
    assert !all ==> Take(ts, n) == ts;
  }

  /** `get_natural_solutions` from line 150 on: the bounds of t, then the scan over
      the unbounded or the bounded range. */
  method EnumerateNatural(xGen: Line, yGen: Line, limit: int, all: bool, fuel: nat)
    returns (solutions: seq<(int, int)>)
    ensures forall i :: 0 <= i < |solutions| ==> solutions[i].0 > 0 && solutions[i].1 > 0
    ensures ScanResult(xGen, yGen, limit, all, fuel, solutions)
  {
    var r := TRange(xGen, yGen);
    if r.lower.None? || r.upper.None? {
      solutions := ScanUnbounded(xGen, yGen, Start(r), limit, fuel);
    } else {
      solutions := ScanBounded(xGen, yGen, r.lower.value, r.upper.value, limit, all);
    }
  }

  /** `get_natural_solutions(a, b, c, x_gen, y_gen, limit, all)`: when a + b == c it
      answers [(1, 1)] at once; otherwise it scans the family. */
  method GetNaturalSolutions(
    a: int, b: int, c: int, xGen: Line, yGen: Line, limit: int, all: bool, fuel: nat)
    returns (solutions: seq<(int, int)>)
    ensures forall i :: 0 <= i < |solutions| ==> solutions[i].0 > 0 && solutions[i].1 > 0
    ensures a + b == c ==> solutions == [(1, 1)]
    ensures a + b != c ==> ScanResult(xGen, yGen, limit, all, fuel, solutions)
  {
    if a + b == c {
      return [(1, 1)];
    }
    solutions := EnumerateNatural(xGen, yGen, limit, all, fuel);
  }

  /** In the bounded case with `all` set, the scan misses no natural point. */
  lemma BoundedScanComplete(xGen: Line, yGen: Line, t: int)
    requires TRange(xGen, yGen).lower.Some? && TRange(xGen, yGen).upper.Some?
    requires Natural(xGen, yGen, t)
    ensures var r := TRange(xGen, yGen);
      t in PositiveTs(xGen, yGen, r.lower.value, r.upper.value + 1)
  {
    var r := TRange(xGen, yGen);
    TRangeExact(xGen, yGen, t);
    PositiveTsComplete(xGen, yGen, r.lower.value, r.upper.value + 1, t);
  }

  /** On a family whose base solves the equation, every pair reported solves it. */
  lemma PointsSolve(a: int, b: int, c: int, invertSolution: bool, ts: seq<int>)
    requires a != 0 || b != 0
    requires GeneralSolution(a, b, c, invertSolution).Success?
    requires var f := GeneralSolution(a, b, c, invertSolution).value;
      IsSolution(a, b, c, f.x.base, f.y.base)
    ensures var f := GeneralSolution(a, b, c, invertSolution).value;
      forall p :: p in Points(f.x, f.y, ts) ==> IsSolution(a, b, c, p.0, p.1)
  {
  }

  /** For positive a and b the shortcut is sound: (1, 1) is the only natural solution
      of a·x + b·y == a + b. */
  lemma TrivialCaseUnique(a: int, b: int, x: int, y: int)
    requires a > 0 && b > 0 && x > 0 && y > 0
    requires IsSolution(a, b, a + b, x, y)
    ensures x == 1 && y == 1
  {
    PositiveMulAtLeast(a, x);
    PositiveMulAtLeast(b, y);
    CancelMul(a, x, 1);
    CancelMul(b, y, 1);
  }

  /** With a = -1, b = 3, c = 2 the shortcut answers [(1, 1)], yet (4, 2) is a
      natural solution too. */
  lemma TrivialShortcutCounterexample()
    ensures -1 + 3 == 2
    ensures IsSolution(-1, 3, 2, 1, 1) && IsSolution(-1, 3, 2, 4, 2)
  {
  }

  /** The same happens on a family `general_solution` produces: for a = 0, b = 2,
      c = 2 the family is x = t, y = 1, the shortcut answers [(1, 1)], and its
      point at t = 2 is the natural solution (2, 1). */
  lemma TrivialShortcutGeneralCounterexample()
    ensures 0 + 2 == 2
    ensures GeneralSolution(0, 2, 2, false) == Success(Family(Line(0, 1), Line(1, 0)))
    ensures var f := Family(Line(0, 1), Line(1, 0));
      (Eval(f.x, 2), Eval(f.y, 2)) == (2, 1) && IsSolution(0, 2, 2, 2, 1)
  {
    GeneralSolutionZeroTwoTwo();
  }

  /** The shortcut restricted to positive a and b, where it is sound. */
  predicate TrivialCase(a: int, b: int, c: int) {
    a > 0 && b > 0 && a + b == c
  }

  /** `get_natural_solutions` with the shortcut taken only where it is sound. */
  method GetNaturalSolutionsCorrected(
    a: int, b: int, c: int, xGen: Line, yGen: Line, limit: int, all: bool, fuel: nat)
    returns (solutions: seq<(int, int)>)
    ensures forall i :: 0 <= i < |solutions| ==> solutions[i].0 > 0 && solutions[i].1 > 0
    ensures TrivialCase(a, b, c) ==> solutions == [(1, 1)]
    ensures TrivialCase(a, b, c) ==>
      forall x, y :: x > 0 && y > 0 && IsSolution(a, b, c, x, y) ==> (x, y) in solutions
    ensures !TrivialCase(a, b, c) ==> ScanResult(xGen, yGen, limit, all, fuel, solutions)
  {
    if TrivialCase(a, b, c) {
      forall x, y | x > 0 && y > 0 && IsSolution(a, b, c, x, y) ensures (x, y) in [(1, 1)] {
        TrivialCaseUnique(a, b, x, y);
      }
      return [(1, 1)];
    }
    solutions := EnumerateNatural(xGen, yGen, limit, all, fuel);
  }
}
