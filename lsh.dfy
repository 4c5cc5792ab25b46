/** LSH banding probability, its slope, and the choice of (bands, rows per
    band) for a signature length and a target similarity. */
module Lsh {
  import opened Wrappers

  /** r bands of b rows each. */
  datatype LshParams = LshParams(r: int, b: int)

  /** x^n for a natural exponent. */
  function Pow(x: real, n: nat): real
    decreases n
  {
    if n == 0 then 1.0 else x * Pow(x, n - 1)
  }

  /** Python's `x ** n` for a float x and an int n: a negative power of 0.0
      raises ZeroDivisionError. */
  function PyPow(x: real, n: int): (r: Result<real>)
    ensures r.Err? <==> x == 0.0 && n < 0
    ensures r.Err? ==> r.error == ZeroDivision
    ensures n >= 0 ==> r == Ok(Pow(x, n))
  {
    if n >= 0 then Ok(Pow(x, n))
    else if x == 0.0 then Err(ZeroDivision)
    else
      PowNonZero(x, -n);
      Ok(1.0 / Pow(x, -n))
  }

  lemma {:induction false} PowNonZero(x: real, n: nat)
    requires x != 0.0
    ensures Pow(x, n) != 0.0
    decreases n
  {
    if n > 0 { PowNonZero(x, n - 1); }
  }

  /** Powers of a number in [0, 1] stay in [0, 1]. */
  lemma {:induction false} PowUnit(x: real, n: nat)
    requires 0.0 <= x <= 1.0
    ensures 0.0 <= Pow(x, n) <= 1.0
    decreases n
  {
    if n > 0 {
      PowUnit(x, n - 1);
      var p := Pow(x, n - 1);
      MulUnit(x, p);
    }
  }

  /** The product of two numbers in [0, 1] lies in [0, 1]. */
  lemma MulUnit(x: real, y: real)
    requires 0.0 <= x <= 1.0 && 0.0 <= y <= 1.0
    ensures 0.0 <= x * y <= y <= 1.0
  {
  }

  /** Positive powers of a positive number are positive. */
  lemma {:induction false} PowPositive(x: real, n: nat)
    requires x > 0.0
    ensures Pow(x, n) > 0.0
    decreases n
  {
    if n > 0 { PowPositive(x, n - 1); }
  }

  lemma {:induction false} PowZero(n: nat)
    requires n >= 1
    ensures Pow(0.0, n) == 0.0
  {
  }

  lemma {:induction false} PowOne(n: nat)
    ensures Pow(1.0, n) == 1.0
    decreases n
  {
    if n > 0 { PowOne(n - 1); }
  }

  /** x^n is non-decreasing in x >= 0. */
  lemma {:induction false} PowMonotone(x: real, y: real, n: nat)
    requires 0.0 <= x <= y
    ensures Pow(x, n) <= Pow(y, n)
    decreases n
  {
    if n > 0 {
      PowMonotone(x, y, n - 1);
      PowNonNegative(x, n - 1);
      var px, py := Pow(x, n - 1), Pow(y, n - 1);
      assert x * px <= y * px;
      assert y * px <= y * py;
    }
  }

  lemma {:induction false} PowNonNegative(x: real, n: nat)
    requires x >= 0.0
    ensures Pow(x, n) >= 0.0
    decreases n
  {
    if n > 0 { PowNonNegative(x, n - 1); }
  }

  /** lsh_probability: f(s) = 1 - (1 - s^b)^r, an error for s outside [0, 1]. */
  function LshProbability(s: real, r: int, b: int): (res: Result<real>)
    ensures res == Err(SimilarityOutOfRange) <==> s < 0.0 || s > 1.0
    ensures 0.0 <= s <= 1.0 && r >= 0 && b >= 0 ==> res.Ok? && 0.0 <= res.value <= 1.0
  {
    if s < 0.0 || s > 1.0 then Err(SimilarityOutOfRange)
    else
      match PyPow(s, b)
      case Err(e) => Err(e)
      case Ok(sb) =>
        match PyPow(1.0 - sb, r)
        case Err(e) => Err(e)
        case Ok(q) =>
          if r >= 0 && b >= 0 then
            PowUnit(s, b);
            PowUnit(1.0 - sb, r);
            Ok(1.0 - q)
          else Ok(1.0 - q)
  }

  /** With at least one band and one row, f is defined on [0, 1] and equals
      1 - (1 - s^b)^r. */
  lemma ProbabilityFormula(s: real, r: int, b: int)
    requires 0.0 <= s <= 1.0 && r >= 1 && b >= 1
    ensures LshProbability(s, r, b) == Ok(1.0 - Pow(1.0 - Pow(s, b), r))
  {
  }

  /** f(0) = 0 and f(1) = 1 whenever r, b >= 1. */
  lemma ProbabilityEndpoints(r: int, b: int)
    requires r >= 1 && b >= 1
    ensures LshProbability(0.0, r, b) == Ok(0.0)
    ensures LshProbability(1.0, r, b) == Ok(1.0)
  {
    PowZero(b);
    PowOne(b);
    PowOne(r);
    PowZero(r);
  }

  /** The S-curve rises: a more similar pair is at least as likely to
      become a candidate. */
  lemma ProbabilityMonotone(s1: real, s2: real, r: int, b: int)
    requires 0.0 <= s1 <= s2 <= 1.0 && r >= 1 && b >= 1
    ensures LshProbability(s1, r, b).value <= LshProbability(s2, r, b).value
  {
    PowMonotone(s1, s2, b);
    PowUnit(s2, b);
    PowUnit(s1, b);
    PowMonotone(1.0 - Pow(s2, b), 1.0 - Pow(s1, b), r);
  }

  /** lsh_slope: 0 outside (0, 1); inside, r·b·s^(b-1)·(1 - s^b)^(r-1),
      which can fail only when 0.0 is raised to a negative power. */
  function LshSlope(s: real, r: int, b: int): (res: Result<real>)
    ensures s <= 0.0 || s >= 1.0 ==> res == Ok(0.0)
    ensures 0.0 < s < 1.0 && r >= 1 ==> res.Ok?
  {
    if s <= 0.0 then Ok(0.0)
    else if s >= 1.0 then Ok(0.0)
    else
      var p1 := PyPow(s, b - 1).value;
      var sb := PyPow(s, b).value;
      match PyPow(1.0 - sb, r - 1)
      case Err(e) => Err(e)
      case Ok(p2) => Ok(SlopeTerm(r, b, p1, p2))
  }

  /** r·b·p1·p2, the product the slope is made of. */
  function SlopeTerm(r: int, b: int, p1: real, p2: real): real
  {
    (r * b) as real * p1 * p2
  }

  /** Inside (0, 1), with r, b >= 1, the slope is r·b·s^(b-1)·(1 - s^b)^(r-1). */
  lemma SlopeFormula(s: real, r: int, b: int)
    requires 0.0 < s < 1.0 && r >= 1 && b >= 1
    ensures LshSlope(s, r, b) == Ok(SlopeTerm(r, b, Pow(s, b - 1), Pow(1.0 - Pow(s, b), r - 1)))
  {
    var sb := Pow(s, b);
    assert PyPow(s, b - 1) == Ok(Pow(s, b - 1));
    assert PyPow(s, b) == Ok(sb);
    assert PyPow(1.0 - sb, r - 1) == Ok(Pow(1.0 - sb, r - 1));
  }

  /** Inside (0, 1), with r, b >= 1, the slope is non-negative. */
  lemma SlopeNonNegative(s: real, r: int, b: int)
    requires 0.0 < s < 1.0 && r >= 1 && b >= 1
    ensures LshSlope(s, r, b).Ok? && LshSlope(s, r, b).value >= 0.0
  {
    SlopeFormula(s, r, b);
    var sb := Pow(s, b);
    PowUnit(s, b - 1);
    PowUnit(s, b);
    PowUnit(1.0 - sb, r - 1);
    SlopeTermNonNegative(r, b, Pow(s, b - 1), Pow(1.0 - sb, r - 1));
  }

  lemma SlopeTermNonNegative(r: int, b: int, p1: real, p2: real)
    requires r >= 0 && b >= 0 && p1 >= 0.0 && p2 >= 0.0
    ensures SlopeTerm(r, b, p1, p2) >= 0.0
  {
    var k := (r * b) as real;
    assert k >= 0.0;
    assert k * p1 >= 0.0;
  }

  /** The pairs (r, n / r) for r = lo, ..., n with r dividing n. */
  function FactorsFrom(n: int, lo: int): seq<(int, int)>
    requires lo >= 1
    decreases n - lo
  {
    if lo > n then []
    else (if n % lo == 0 then [(lo, n / lo)] else []) + FactorsFrom(n, lo + 1)
  }

  /** factor_pairs(n): every (r, b) with r * b == n and r >= 1, by increasing r. */
  function FactorPairs(n: int): seq<(int, int)>
  {
    FactorsFrom(n, 1)
  }

  /** The pairs from `lo` on are exactly the divisors r >= lo of n with their
      cofactors, each with r * b == n, in strictly increasing r. */
  lemma {:induction false} FactorsFromSpec(n: int, lo: int)
    requires lo >= 1
    ensures forall i :: 0 <= i < |FactorsFrom(n, lo)| ==>
              var p := FactorsFrom(n, lo)[i];
              lo <= p.0 <= n && n % p.0 == 0 && p.1 == n / p.0 && p.0 * p.1 == n
    ensures forall i, j :: 0 <= i < j < |FactorsFrom(n, lo)| ==> FactorsFrom(n, lo)[i].0 < FactorsFrom(n, lo)[j].0
    ensures forall d :: lo <= d <= n && n % d == 0 ==> (d, n / d) in FactorsFrom(n, lo)
    decreases n - lo
  {
    if lo <= n {
      FactorsFromSpec(n, lo + 1);
      var head := if n % lo == 0 then [(lo, n / lo)] else [];
      var tail := FactorsFrom(n, lo + 1);
      assert FactorsFrom(n, lo) == head + tail;
      if n % lo == 0 {
        assert lo * (n / lo) == n by { DivMul(n, lo); }
      }
    }
  }

  lemma DivMul(n: int, d: int)
    requires d >= 1 && n % d == 0
    ensures d * (n / d) == n
  {
  }

  lemma DivAtLeastOne(n: int, d: int)
    requires 1 <= d <= n
    ensures n / d >= 1
  {
  }

  /** factor_pairs in full: the (r, n / r) with 1 <= r <= n and r | n, each
      with r * b == n, in strictly increasing r; none for n <= 0. */
  lemma FactorPairsSpec(n: int)
    ensures n <= 0 ==> FactorPairs(n) == []
    ensures forall i :: 0 <= i < |FactorPairs(n)| ==>
              var p := FactorPairs(n)[i];
              1 <= p.0 <= n && n % p.0 == 0 && p.1 == n / p.0 && p.0 * p.1 == n && p.1 >= 1
    ensures forall i, j :: 0 <= i < j < |FactorPairs(n)| ==> FactorPairs(n)[i].0 < FactorPairs(n)[j].0
    ensures forall d :: 1 <= d <= n && n % d == 0 ==> (d, n / d) in FactorPairs(n)
    ensures n >= 1 ==> |FactorPairs(n)| >= 1 && FactorPairs(n)[0] == (1, n)
  {
    FactorsFromSpec(n, 1);
    var fp := FactorPairs(n);
    forall i | 0 <= i < |fp| ensures fp[i].1 >= 1 {
      DivAtLeastOne(n, fp[i].0);
    }
    if n >= 1 {
      assert (1, n) in fp;
      var k :| 0 <= k < |fp| && fp[k] == (1, n);
      if k > 0 { assert fp[0].0 < fp[k].0; }
    }
  }

  /** |f(tau) - 0.5| for a pair with r, b >= 1 and tau in [0, 1]. */
  function Distance(tau: real, r: int, b: int): real
    requires 0.0 <= tau <= 1.0 && r >= 1 && b >= 1
  {
    var f := LshProbability(tau, r, b).value;
    if f >= 0.5 then f - 0.5 else 0.5 - f
  }

  /** The slope at tau for a pair with r, b >= 1. */
  function Slope(tau: real, r: int, b: int): real
    requires 0.0 <= tau <= 1.0 && r >= 1 && b >= 1
  {
    LshSlope(tau, r, b).value
  }

  /** `p` is better than `q` at tau: strictly closer to 0.5, or as close and
      strictly steeper. */
  predicate Better(tau: real, p: (int, int), q: (int, int))
    requires 0.0 <= tau <= 1.0 && p.0 >= 1 && p.1 >= 1 && q.0 >= 1 && q.1 >= 1
  {
    Distance(tau, p.0, p.1) < Distance(tau, q.0, q.1)
    || (Distance(tau, p.0, p.1) == Distance(tau, q.0, q.1) && Slope(tau, p.0, p.1) > Slope(tau, q.0, q.1))
  }

  /** choose_lsh_params: scan the factor pairs by increasing r and keep the
      first that no later pair beats. Fails for t <= 0 (no pairs) and, since
      lsh_probability raises, for tau outside [0, 1]. */
  method ChooseLshParams(t: int, tau: real) returns (res: Result<LshParams>)
    ensures t <= 0 ==> res == Err(NoValidParams)
    ensures t >= 1 && (tau < 0.0 || tau > 1.0) ==> res == Err(SimilarityOutOfRange)
    ensures t >= 1 && 0.0 <= tau <= 1.0 ==> res.Ok?
    ensures res.Ok? ==> var p := res.value;
      && (p.r, p.b) in FactorPairs(t) && p.r * p.b == t && p.r >= 1 && p.b >= 1 && 0.0 <= tau <= 1.0
      && forall q :: q in FactorPairs(t) ==>
           && q.0 >= 1 && q.1 >= 1
           && Distance(tau, p.r, p.b) <= Distance(tau, q.0, q.1)
           && !Better(tau, q, (p.r, p.b))
           && (q.0 < p.r ==> Better(tau, (p.r, p.b), q))
  {
    var pairs := FactorPairs(t);
    FactorPairsSpec(t);
    if |pairs| == 0 {
      return Err(NoValidParams);
    }
    var best := 0;
    var bestDistance: real := 0.0;
    var bestSlope: real := 0.0;
    var i := 0;
    while i < |pairs|
      invariant 0 <= i <= |pairs|
      invariant i > 0 ==> BestSoFar(tau, pairs, i, best, bestDistance, bestSlope)
    {
      var (r, b) := pairs[i];
      var f := LshProbability(tau, r, b);
      if f.Err? {
        return Err(f.error);
      }
      best, bestDistance, bestSlope := ConsiderPair(tau, pairs, i, best, bestDistance, bestSlope);
      i := i + 1;
    }
    var p := pairs[best];
    res := Ok(LshParams(p.0, p.1));
    forall q | q in pairs
      ensures Distance(tau, p.0, p.1) <= Distance(tau, q.0, q.1)
      ensures q.0 < p.0 ==> Better(tau, p, q)
    {
      var j :| 0 <= j < |pairs| && pairs[j] == q;
      if q.0 < p.0 {
        assert pairs[j].0 < pairs[best].0;
        assert j < best;
      }
    }
  }

  /** Every pair has r, b >= 1. */
  predicate PositivePairs(pairs: seq<(int, int)>)
  {
    forall k :: 0 <= k < |pairs| ==> pairs[k].0 >= 1 && pairs[k].1 >= 1
  }

  /** After scanning pairs[..i], pairs[best] is the kept pair: no scanned pair
      beats it and it beats every pair before it; bestDistance and bestSlope
      are its distance and slope. */
  predicate BestSoFar(tau: real, pairs: seq<(int, int)>, i: int, best: int, bestDistance: real, bestSlope: real)
  {
    && 0.0 <= tau <= 1.0 && PositivePairs(pairs) && 0 <= best < i <= |pairs|
    && bestDistance == Distance(tau, pairs[best].0, pairs[best].1)
    && bestSlope == Slope(tau, pairs[best].0, pairs[best].1)
    && (forall j :: 0 <= j < i ==> !Better(tau, pairs[j], pairs[best]))
    && (forall j :: 0 <= j < best ==> Better(tau, pairs[best], pairs[j]))
  }

  /** One step of the scan: the first pair is kept; a later one replaces the
      kept pair when strictly closer to 0.5, or as close and strictly
      steeper. */
  method ConsiderPair(tau: real, pairs: seq<(int, int)>, i: int, best0: int, bestDistance0: real, bestSlope0: real)
    returns (best: int, bestDistance: real, bestSlope: real)
    requires 0.0 <= tau <= 1.0 && PositivePairs(pairs) && 0 <= i < |pairs|
    requires i > 0 ==> BestSoFar(tau, pairs, i, best0, bestDistance0, bestSlope0)
    ensures BestSoFar(tau, pairs, i + 1, best, bestDistance, bestSlope)
  {
    var (r, b) := pairs[i];
    var f := LshProbability(tau, r, b).value;
    var distance := if f >= 0.5 then f - 0.5 else 0.5 - f;
    var slope := LshSlope(tau, r, b).value;
    assert distance == Distance(tau, r, b) && slope == Slope(tau, r, b);
    best, bestDistance, bestSlope := best0, bestDistance0, bestSlope0;
    if i == 0 {
      best, bestDistance, bestSlope := 0, distance, slope;
    } else if distance < bestDistance {
      best, bestDistance, bestSlope := i, distance, slope;
    } else if distance == bestDistance && slope > bestSlope {
      best, bestDistance, bestSlope := i, distance, slope;
    }
  }

  /** Two pairs tying on both distance and slope: the scan keeps the first,
      here (1, 2) over (2, 1) for t = 2 and tau = 0.5. */
  method TieBreakExample() returns (p: Result<LshParams>)
    ensures p == Ok(LshParams(1, 2))
  {
    p := ChooseLshParams(2, 0.5);
    FactorPairsSpec(2);
    assert FactorPairs(2) == [(1, 2), (2, 1)];
    assert Distance(0.5, 1, 2) == 0.25 && Distance(0.5, 2, 1) == 0.25;
    assert Slope(0.5, 1, 2) == 1.0 && Slope(0.5, 2, 1) == 1.0;
  }
}
