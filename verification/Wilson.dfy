/**
 The Wilson score interval, the conservative difference of two of them, and the
 ablation verdict read off that difference
 (evals/benchmarks/statistical_eval.py, evals/benchmarks/ablation_eval.py).

 Floats are reals. `math.sqrt` is a parameter constrained by `SquareRoot`.
 */
module Wilson {
  import opened RealArith
  import opened Results

  datatype Interval = Interval(low: real, high: real)

  datatype Verdict = Demonstrated | Refuted | NotDemonstrated

  // What `math.sqrt` promises: the non-negative root of every non-negative number.
  ghost predicate SquareRoot(sqrt: real -> real) {
    forall x: real :: x >= 0.0 ==> sqrt(x) >= 0.0 && sqrt(x) * sqrt(x) == x
  }

  function Max(x: real, y: real): real { if x >= y then x else y }

  function Min(x: real, y: real): real { if x <= y then x else y }

  // The squared normal quantile per trial, z*z/n.
  function Noise(total: int, z: real): real
    requires total >= 1
  {
    Over(z * z, total as real)
  }

  function Share(successes: int, total: int): real
    requires total >= 1
  {
    Over(successes as real, total as real)
  }

  function Center(successes: int, total: int, z: real): real
    requires total >= 1 && z > 0.0
  {
    NoiseFacts(total, z);
    (Share(successes, total) + Over(z * z, 2.0 * total as real)) / (1.0 + Noise(total, z))
  }

  function Radicand(successes: int, total: int, z: real): real
    requires total >= 1
  {
    var n, proportion := total as real, Share(successes, total);
    TimesPositive(4.0 * n, n);
    Over(proportion * (1.0 - proportion), n) + Over(z * z, Times(4.0 * n, n))
  }

  function Spread(sqrt: real -> real, successes: int, total: int, z: real): real
    requires total >= 1 && z > 0.0
  {
    NoiseFacts(total, z);
    z * sqrt(Radicand(successes, total, z)) / (1.0 + Noise(total, z))
  }

  lemma NoiseFacts(n: int, z: real)
    requires n >= 1 && z > 0.0
    ensures Noise(n, z) > 0.0 && Noise(n, z) * n as real == z * z
  {
    TimesPositive(z, z);
    OverFacts(Times(z, z), n as real);
  }

  // The interval of `successes` out of `total`, or an error for impossible counts.
  function WilsonInterval(sqrt: real -> real, successes: int, total: int, z: real): Result<Interval, string>
    requires z > 0.0
  {
    if total < 1 || successes < 0 || successes > total then
      Err("Wilson interval requires 0 <= successes <= total")
    else
      var center, spread := Center(successes, total, z), Spread(sqrt, successes, total, z);
      Ok(Interval(Max(0.0, center - spread), Min(1.0, center + spread)))
  }

  // Candidate minus baseline, as if the two intervals were independent.
  function Conservative(baseline: Interval, candidate: Interval): Interval {
    Interval(candidate.low - baseline.high, candidate.high - baseline.low)
  }

  const SUPERIORITY_FLOOR := 0.0

  // What an interval for "full stack minus arm" shows.
  function AblationVerdict(interval: Interval): Verdict {
    if interval.low > SUPERIORITY_FLOOR then Demonstrated
    else if interval.high < SUPERIORITY_FLOOR then Refuted
    else NotDemonstrated
  }

  // ----- The interval as the two roots of a quadratic

  // Scaled form: `p` the proportion, `q` = z*z/n, `d` = z times the square root.
  ghost predicate Core(p: real, q: real, d: real) {
    0.0 <= p <= 1.0 && q > 0.0 && d >= 0.0 && d * d == q * (p * (1.0 - p)) + q * q / 4.0
  }

  ghost function Lo(p: real, q: real, d: real): real requires q > 0.0 { (p + q / 2.0 - d) / (1.0 + q) }

  ghost function Hi(p: real, q: real, d: real): real requires q > 0.0 { (p + q / 2.0 + d) / (1.0 + q) }

  // The smaller root is the larger root of the mirrored sample.
  lemma Mirror(p: real, q: real, d: real)
    requires Core(p, q, d)
    ensures Core(1.0 - p, q, d)
    ensures Lo(1.0 - p, q, d) == 1.0 - Hi(p, q, d)
  {
    assert (1.0 - p) * (1.0 - (1.0 - p)) == p * (1.0 - p);
    calc {
      1.0 - Hi(p, q, d);
      (1.0 + q) / (1.0 + q) - (p + q / 2.0 + d) / (1.0 + q);
      ((1.0 + q) - (p + q / 2.0 + d)) / (1.0 + q);
      Lo(1.0 - p, q, d);
    }
  }

  lemma Divide(a: real, b: real, x: real)
    requires b > 0.0 && x == a / b
    ensures x * b == a
  {}

  lemma LowRoot(p: real, q: real, d: real)
    requires Core(p, q, d)
    ensures var x := Lo(p, q, d); (p - x) * (p - x) == q * (x * (1.0 - x))
  {
    var x := Lo(p, q, d);
    var u := p + q / 2.0;
    Divide(u - d, 1.0 + q, x);
    assert d == u - x * (1.0 + q);
    RootAlgebra(p, q, x, d);
  }

  lemma HighRoot(p: real, q: real, d: real)
    requires Core(p, q, d)
    ensures var x := Hi(p, q, d); (p - x) * (p - x) == q * (x * (1.0 - x))
  {
    Mirror(p, q, d);
    LowRoot(1.0 - p, q, d);
    var x, y := Hi(p, q, d), Lo(1.0 - p, q, d);
    assert (1.0 - p) - y == x - p;
    assert (x - p) * (x - p) == (p - x) * (p - x);
    assert y * (1.0 - y) == x * (1.0 - x);
  }

  // Completing the square: d = p + q/2 - x(1+q) turns the discriminant into the quadratic.
  lemma RootAlgebra(p: real, q: real, x: real, d: real)
    requires q > 0.0
    requires d == p + q / 2.0 - x * (1.0 + q)
    requires d * d == q * (p * (1.0 - p)) + q * q / 4.0
    ensures (p - x) * (p - x) == q * (x * (1.0 - x))
  {
    var f := (p - x) * (p - x) - q * (x * (1.0 - x));
    assert d * d - (q * (p * (1.0 - p)) + q * q / 4.0) == (1.0 + q) * f;
  }

  // Below the smaller root the quadratic is positive.
  lemma BelowLow(p: real, q: real, d: real, y: real)
    requires Core(p, q, d) && y < Lo(p, q, d)
    ensures (p - y) * (p - y) > q * (y * (1.0 - y))
  {
    var x := Lo(p, q, d);
    Divide(p + q / 2.0 - d, 1.0 + q, x);
    var e := p + q / 2.0 - y * (1.0 + q);
    assert e > d by { assert (x - y) * (1.0 + q) > 0.0; }
    SquareOrder(d, e);
    var f := (p - y) * (p - y) - q * (y * (1.0 - y));
    assert e * e - d * d == (1.0 + q) * f;
  }

  lemma LowNonNegative(p: real, q: real, d: real)
    requires Core(p, q, d)
    ensures 0.0 <= Lo(p, q, d)
  {
    var u := p + q / 2.0;
    assert u * u - d * d == (p * p) * (1.0 + q);
    TimesNonNegative(p, p);
    TimesNonNegative(p * p, 1.0 + q);
    SquareOrder(d, u);
  }

  // The smaller root never passes the sample proportion, and meets it only at zero.
  lemma LowBelowProportion(p: real, q: real, d: real)
    requires Core(p, q, d)
    ensures Lo(p, q, d) <= p
    ensures p > 0.0 ==> Lo(p, q, d) < p
  {
    var x := Lo(p, q, d);
    var w := q * (0.5 - p);
    Divide(p + q / 2.0 - d, 1.0 + q, x);
    assert (p - x) * (1.0 + q) == d - w;
    assert d * d - w * w == (q + q * q) * (p * (1.0 - p));
    TimesNonNegative(p, 1.0 - p);
    TimesPositive(q, q);
    TimesNonNegative(q + q * q, p * (1.0 - p));
    if w < 0.0 {
      assert d > w;
    } else {
      SquareOrder(w, d);
      if p > 0.0 {
        assert w == q * 0.5 - q * p;
        assert p < 1.0;
        TimesPositive(p, 1.0 - p);
        TimesPositive(q + q * q, p * (1.0 - p));
      }
    }
    FactorSign(p - x, 1.0 + q);
  }

  // The quadratic whose roots the bounds are.
  ghost function Quadratic(p: real, q: real, y: real): real { (p - y) * (p - y) - q * (y * (1.0 - y)) }

  // Up to the smaller root the quadratic is not negative, and at the root it vanishes.
  lemma UpToLow(p: real, q: real, d: real, y: real)
    requires Core(p, q, d) && y <= Lo(p, q, d)
    ensures Quadratic(p, q, y) >= 0.0 && y <= p
    ensures y == Lo(p, q, d) ==> Quadratic(p, q, y) == 0.0
  {
    LowBelowProportion(p, q, d);
    LowRoot(p, q, d);
    if y < Lo(p, q, d) { BelowLow(p, q, d, y); }
  }

  lemma QuadraticGrows(p: real, p': real, q: real, y: real)
    requires y <= p < p'
    ensures Quadratic(p, q, y) < Quadratic(p', q, y)
  {
    SquareOrder(p - y, p' - y);
  }

  // A larger proportion has a strictly larger smaller root.
  lemma LowMonotone(p: real, d: real, p': real, d': real, q: real)
    requires Core(p, q, d) && Core(p', q, d') && p < p'
    ensures Lo(p, q, d) < Lo(p', q, d')
  {
    var y := Lo(p', q, d');
    UpToLow(p', q, d', y);
    if y <= Lo(p, q, d) {
      UpToLow(p, q, d, y);
      QuadraticGrows(p, p', q, y);
    }
  }

  // The interval is at least q/(1+q) wide, and exactly that wide only for p = 0 and p = 1.
  lemma CoreWidth(p: real, q: real, d: real)
    requires Core(p, q, d)
    ensures var w := Hi(p, q, d) - Lo(p, q, d);
            w >= Over(q, 1.0 + q) && (w == Over(q, 1.0 + q) <==> p == 0.0 || p == 1.0)
  {
    RootAboveHalf(p, q, d);
    assert Hi(p, q, d) - Lo(p, q, d) == Over(2.0 * d, 1.0 + q);
    OverOrder(q, 2.0 * d, 1.0 + q);
    OverOrder(2.0 * d, q, 1.0 + q);
  }

  lemma RootAboveHalf(p: real, q: real, d: real)
    requires Core(p, q, d)
    ensures 2.0 * d >= q && (2.0 * d == q <==> p == 0.0 || p == 1.0)
  {
    var v := Times(p, 1.0 - p);
    TimesNonNegative(p, 1.0 - p);
    TimesNonNegative(q, v);
    assert d * d == Times(q, v) + (q / 2.0) * (q / 2.0);
    SquareOrder(q / 2.0, d);
    if p != 0.0 && p != 1.0 {
      TimesPositive(p, 1.0 - p);
      TimesPositive(q, v);
    } else {
      SquareOrder(d, q / 2.0);
    }
  }

  // ----- From the code's formula to the scaled form

  ghost predicate Sample(s: int, n: int, z: real) { n >= 1 && 0 <= s <= n && z > 0.0 }

  ghost function Root(sqrt: real -> real, s: int, n: int, z: real): real
    requires n >= 1
  {
    z * sqrt(Radicand(s, n, z))
  }

  lemma ShareRange(s: int, n: int)
    requires n >= 1 && 0 <= s <= n
    ensures 0.0 <= Share(s, n) <= 1.0
    ensures Share(s, n) * n as real == s as real
    ensures Share(s, n) == 0.0 <==> s == 0
    ensures Share(s, n) == 1.0 <==> s == n
  {
    OverFacts(s as real, n as real);
    OverUnique(n as real, n as real, 1.0);
    OverOrder(s as real, n as real, n as real);
  }

  lemma QuarterNoise(q: real, zz: real, m: real)
    requires m > 0.0 && q * m == zz && q >= 0.0
    ensures Times(4.0 * m, m) > 0.0
    ensures var a := Over(zz, Times(4.0 * m, m)); a >= 0.0 && zz * a == q * q / 4.0
  {
    TimesPositive(4.0 * m, m);
    OverFacts(q, 4.0 * m);
    var a := Over(q, 4.0 * m);
    assert a * Times(4.0 * m, m) == (a * (4.0 * m)) * m;
    OverUnique(zz, Times(4.0 * m, m), a);
  }

  // z*z times the radicand is the scaled discriminant.
  lemma Discriminant(p: real, q: real, zz: real, m: real)
    requires m > 0.0 && q * m == zz && 0.0 <= p <= 1.0 && q >= 0.0
    ensures Times(4.0 * m, m) > 0.0
    ensures var a := Over(p * (1.0 - p), m) + Over(zz, Times(4.0 * m, m));
            a >= 0.0 && zz * a == q * (p * (1.0 - p)) + q * q / 4.0
  {
    TimesNonNegative(p, 1.0 - p);
    var v := Times(p, 1.0 - p);
    OverFacts(v, m);
    assert zz * Over(v, m) == q * v;
    QuarterNoise(q, zz, m);
  }

  lemma HalfNoise(q: real, zz: real, m: real)
    requires m > 0.0 && q * m == zz
    ensures Over(zz, 2.0 * m) == q / 2.0
  {
    OverUnique(zz, 2.0 * m, q / 2.0);
  }

  lemma CoreFromRoot(p: real, q: real, z: real, m: real, r: real)
    requires m > 0.0 && z > 0.0 && q > 0.0 && q * m == z * z && 0.0 <= p <= 1.0 && r >= 0.0
    requires Times(4.0 * m, m) > 0.0 && r * r == Over(p * (1.0 - p), m) + Over(z * z, Times(4.0 * m, m))
    ensures Core(p, q, z * r)
  {
    Discriminant(p, q, z * z, m);
    TimesNonNegative(z, r);
    assert (z * r) * (z * r) == (z * z) * (r * r);
  }

  lemma RootExact(sqrt: real -> real, a: real)
    requires SquareRoot(sqrt) && a >= 0.0
    ensures sqrt(a) >= 0.0 && sqrt(a) * sqrt(a) == a
  {}

  lemma RadicandNonNegative(s: int, n: int, z: real)
    requires Sample(s, n, z)
    ensures Radicand(s, n, z) >= 0.0
  {
    ShareRange(s, n);
    NoiseFacts(n, z);
    Discriminant(Share(s, n), Noise(n, z), z * z, n as real);
  }

  lemma ScaledCore(sqrt: real -> real, s: int, n: int, z: real)
    requires SquareRoot(sqrt) && Sample(s, n, z)
    ensures Core(Share(s, n), Noise(n, z), Root(sqrt, s, n, z))
  {
    ShareRange(s, n);
    NoiseFacts(n, z);
    RadicandNonNegative(s, n, z);
    RootExact(sqrt, Radicand(s, n, z));
    CoreFromRoot(Share(s, n), Noise(n, z), z, n as real, sqrt(Radicand(s, n, z)));
  }

  lemma Scaled(sqrt: real -> real, s: int, n: int, z: real)
    requires SquareRoot(sqrt) && Sample(s, n, z)
    ensures Core(Share(s, n), Noise(n, z), Root(sqrt, s, n, z))
    ensures Center(s, n, z) - Spread(sqrt, s, n, z) == Lo(Share(s, n), Noise(n, z), Root(sqrt, s, n, z))
    ensures Center(s, n, z) + Spread(sqrt, s, n, z) == Hi(Share(s, n), Noise(n, z), Root(sqrt, s, n, z))
  {
    var p, q, d := Share(s, n), Noise(n, z), Root(sqrt, s, n, z);
    ScaledCore(sqrt, s, n, z);
    NoiseFacts(n, z);
    HalfNoise(q, z * z, n as real);
    CommonDenominator(p + q / 2.0, d, 1.0 + q);
  }

  lemma CommonDenominator(u: real, d: real, b: real)
    requires b > 0.0
    ensures u / b - d / b == (u - d) / b && u / b + d / b == (u + d) / b
  {}

  // ----- Theorems about the interval the code returns

  // The root of a sample lies in [0, p] and meets p only at zero; likewise for the mirror image.
  lemma CoreInterval(p: real, q: real, d: real)
    requires Core(p, q, d)
    ensures var lo, hi := Lo(p, q, d), Hi(p, q, d);
            && (p - lo) * (p - lo) == q * (lo * (1.0 - lo))
            && (p - hi) * (p - hi) == q * (hi * (1.0 - hi))
            && 0.0 <= lo <= p <= hi <= 1.0
            && (lo == p ==> p == 0.0) && (hi == p ==> p == 1.0)
  {
    LowRoot(p, q, d);
    LowNonNegative(p, q, d);
    LowBelowProportion(p, q, d);
    Mirror(p, q, d);
    HighRoot(p, q, d);
    LowNonNegative(1.0 - p, q, d);
    LowBelowProportion(1.0 - p, q, d);
  }

  // Both bounds solve (p - x)^2 == q x (1 - x), the clamps to [0, 1] never bite, and the
  // sample proportion lies inside, on a bound only when it is 0 or 1.
  lemma WilsonRoots(sqrt: real -> real, s: int, n: int, z: real)
    requires SquareRoot(sqrt) && Sample(s, n, z)
    ensures WilsonInterval(sqrt, s, n, z).Ok?
    ensures var i, p, q := WilsonInterval(sqrt, s, n, z).value, Share(s, n), Noise(n, z);
            && i == Interval(Center(s, n, z) - Spread(sqrt, s, n, z), Center(s, n, z) + Spread(sqrt, s, n, z))
            && (p - i.low) * (p - i.low) == q * (i.low * (1.0 - i.low))
            && (p - i.high) * (p - i.high) == q * (i.high * (1.0 - i.high))
            && 0.0 <= i.low <= p <= i.high <= 1.0
            && (i.low == p ==> s == 0) && (i.high == p ==> s == n)
  {
    Scaled(sqrt, s, n, z);
    ShareRange(s, n);
    CoreInterval(Share(s, n), Noise(n, z), Root(sqrt, s, n, z));
  }

  // More successes out of the same total raise both bounds strictly.
  lemma WilsonMonotone(sqrt: real -> real, s: int, s': int, n: int, z: real)
    requires SquareRoot(sqrt) && Sample(s, n, z) && Sample(s', n, z) && s < s'
    ensures var i, j := WilsonInterval(sqrt, s, n, z), WilsonInterval(sqrt, s', n, z);
            i.Ok? && j.Ok? && i.value.low < j.value.low && i.value.high < j.value.high
  {
    var p, p', q := Share(s, n), Share(s', n), Noise(n, z);
    var d, d' := Root(sqrt, s, n, z), Root(sqrt, s', n, z);
    WilsonRoots(sqrt, s, n, z);
    WilsonRoots(sqrt, s', n, z);
    Scaled(sqrt, s, n, z);
    Scaled(sqrt, s', n, z);
    OverOrder(s as real, s' as real, n as real);
    LowMonotone(p, d, p', d', q);
    Mirror(p, q, d);
    Mirror(p', q, d');
    LowMonotone(1.0 - p', d', 1.0 - p, d, q);
  }

  ghost function Width(i: Interval): real { i.high - i.low }

  // z*z/(n + z*z): the width of a flawless or hopeless sample.
  function Narrowest(n: int, z: real): real
    requires n >= 1
  {
    assert z * z >= 0.0;
    Over(z * z, n as real + z * z)
  }

  lemma NarrowestIs(n: int, z: real)
    requires n >= 1 && z > 0.0
    ensures Narrowest(n, z) == Over(Noise(n, z), 1.0 + Noise(n, z))
  {
    var q, m := Noise(n, z), n as real;
    NoiseFacts(n, z);
    OverFacts(q, 1.0 + q);
    var x := Over(q, 1.0 + q);
    assert x * (m + z * z) == (x * (1.0 + q)) * m;
    OverUnique(z * z, m + z * z, x);
  }

  // No sample of n trials has a narrower interval, and exactly the samples with all or no
  // successes attain the minimum.
  lemma WilsonWidth(sqrt: real -> real, s: int, n: int, z: real)
    requires SquareRoot(sqrt) && Sample(s, n, z)
    ensures WilsonInterval(sqrt, s, n, z).Ok?
    ensures var w := Width(WilsonInterval(sqrt, s, n, z).value);
            w >= Narrowest(n, z) && (w == Narrowest(n, z) <==> s == 0 || s == n)
  {
    var p, q, d := Share(s, n), Noise(n, z), Root(sqrt, s, n, z);
    WilsonRoots(sqrt, s, n, z);
    Scaled(sqrt, s, n, z);
    ShareRange(s, n);
    NarrowestIs(n, z);
    CoreWidth(p, q, d);
  }

  // Flawless samples: the interval is [1 - z*z/(n+z*z), 1].
  lemma WilsonFlawless(sqrt: real -> real, n: int, z: real)
    requires SquareRoot(sqrt) && Sample(n, n, z)
    ensures WilsonInterval(sqrt, n, n, z) == Ok(Interval(1.0 - Narrowest(n, z), 1.0))
  {
    WilsonRoots(sqrt, n, n, z);
    WilsonWidth(sqrt, n, n, z);
    ShareRange(n, n);
  }

  // Hopeless samples: the interval is [0, z*z/(n+z*z)].
  lemma WilsonHopeless(sqrt: real -> real, n: int, z: real)
    requires SquareRoot(sqrt) && Sample(0, n, z)
    ensures WilsonInterval(sqrt, 0, n, z) == Ok(Interval(0.0, Narrowest(n, z)))
  {
    WilsonRoots(sqrt, 0, n, z);
    WilsonWidth(sqrt, 0, n, z);
    ShareRange(0, n);
  }

  // ----- The interval as a function of the counts

  // The interval of s successes out of n, as the comparison of two arms uses it.
  type Scoring = (int, int) -> Interval

  function WilsonScoring(sqrt: real -> real, z: real): Scoring
    requires z > 0.0
  {
    (s: int, n: int) =>
      match WilsonInterval(sqrt, s, n, z)
      case Ok(i) => i
      case Err(_) => Interval(0.0, 1.0)
  }

  // Bounds in [0, 1], in order.
  ghost predicate InOrder(w: Scoring, s: int, n: int) { 0.0 <= w(s, n).low <= w(s, n).high <= 1.0 }

  // Bounds in [0, 1] that rise strictly with the successes.
  ghost predicate Ordered(w: Scoring) {
    && (forall s, n :: n >= 1 && 0 <= s <= n ==> InOrder(w, s, n))
    && (forall s, s', n :: n >= 1 && 0 <= s < s' <= n ==> w(s, n).low < w(s', n).low && w(s, n).high < w(s', n).high)
  }

  // The least width exactly at no and all successes.
  ghost predicate Bounded(w: Scoring, s: int, n: int, z: real)
    requires n >= 1
  {
    && InOrder(w, s, n)
    && Width(w(s, n)) >= Narrowest(n, z)
    && (Width(w(s, n)) == Narrowest(n, z) <==> s == 0 || s == n)
  }

  // The intervals of no and of all successes.
  ghost predicate Extremes(w: Scoring, n: int, z: real)
    requires n >= 1
  {
    w(n, n) == Interval(1.0 - Narrowest(n, z), 1.0) && w(0, n) == Interval(0.0, Narrowest(n, z))
  }

  // What the comparison needs to know of its interval function.
  ghost predicate Scores(w: Scoring, z: real) {
    && Ordered(w)
    && (forall s, n :: n >= 1 && 0 <= s <= n ==> Bounded(w, s, n, z))
    && (forall n :: n >= 1 ==> Extremes(w, n, z))
  }

  lemma ScoringIs(sqrt: real -> real, s: int, n: int, z: real)
    requires SquareRoot(sqrt) && Sample(s, n, z)
    ensures WilsonInterval(sqrt, s, n, z) == Ok(WilsonScoring(sqrt, z)(s, n))
  {
    WilsonRoots(sqrt, s, n, z);
  }

  // The code's interval is such a function.
  lemma WilsonScores(sqrt: real -> real, z: real)
    requires SquareRoot(sqrt) && z > 0.0
    ensures Scores(WilsonScoring(sqrt, z), z)
  {
    var w := WilsonScoring(sqrt, z);
    forall s, n | n >= 1 && 0 <= s <= n ensures Bounded(w, s, n, z) && InOrder(w, s, n) {
      ScoringIs(sqrt, s, n, z);
      WilsonRoots(sqrt, s, n, z);
      WilsonWidth(sqrt, s, n, z);
    }
    forall s, s', n | n >= 1 && 0 <= s < s' <= n ensures w(s, n).low < w(s', n).low && w(s, n).high < w(s', n).high {
      ScoringIs(sqrt, s, n, z);
      ScoringIs(sqrt, s', n, z);
      WilsonMonotone(sqrt, s, s', n, z);
    }
    forall n | n >= 1 ensures Extremes(w, n, z) {
      ScoringIs(sqrt, n, n, z);
      ScoringIs(sqrt, 0, n, z);
      WilsonFlawless(sqrt, n, z);
      WilsonHopeless(sqrt, n, z);
    }
  }

  // The verdict on an arm against the full stack.
  function ArmVerdict(w: Scoring, arm: int, full: int, n: int): Verdict {
    AblationVerdict(Conservative(w(arm, n), w(full, n)))
  }

  // The verdict is decided exactly when the two samples' own intervals are disjoint, in favour of the
  // one that lies higher.
  lemma VerdictDecided(w: Scoring, arm: int, full: int, n: int)
    requires Ordered(w) && n >= 1 && 0 <= arm <= n && 0 <= full <= n
    ensures ArmVerdict(w, arm, full, n) == Demonstrated <==> w(full, n).low > w(arm, n).high
    ensures ArmVerdict(w, arm, full, n) == Refuted <==> w(full, n).high < w(arm, n).low
  {
    assert InOrder(w, arm, n) && InOrder(w, full, n);
  }

  // A component is only called demonstrated when the full stack really had more successes,
  // and only refuted when it really had fewer.
  lemma VerdictSound(w: Scoring, arm: int, full: int, n: int)
    requires Ordered(w) && n >= 1 && 0 <= arm <= n && 0 <= full <= n
    ensures var v := ArmVerdict(w, arm, full, n);
            && (v == Demonstrated ==> full > arm)
            && (v == Refuted ==> full < arm)
            && (full == arm ==> v == NotDemonstrated)
  {
    assert InOrder(w, arm, n) && InOrder(w, full, n);
  }

  // Exchanging the two arms exchanges the two decided verdicts.
  lemma VerdictAntisymmetric(w: Scoring, arm: int, full: int, n: int)
    requires Ordered(w) && n >= 1 && 0 <= arm <= n && 0 <= full <= n
    ensures ArmVerdict(w, arm, full, n) == Demonstrated <==> ArmVerdict(w, full, arm, n) == Refuted
    ensures ArmVerdict(w, arm, full, n) == Refuted <==> ArmVerdict(w, full, arm, n) == Demonstrated
  {
    VerdictDecided(w, arm, full, n);
    VerdictDecided(w, full, arm, n);
  }

  // More successes of the full stack, or fewer of the arm, never undo a demonstration.
  lemma VerdictMonotone(w: Scoring, arm: int, full: int, arm': int, full': int, n: int)
    requires Ordered(w) && n >= 1 && 0 <= arm' <= arm <= n && 0 <= full <= full' <= n
    requires ArmVerdict(w, arm, full, n) == Demonstrated
    ensures ArmVerdict(w, arm', full', n) == Demonstrated
  {
    VerdictDecided(w, arm, full, n);
    VerdictDecided(w, arm', full', n);
    assert arm' < arm ==> w(arm', n).high < w(arm, n).high;
    assert full < full' ==> w(full, n).low < w(full', n).low;
  }

  // The clearest data there are, always against never, demonstrate exactly when n > z*z; so with no
  // more than z*z trials nothing is ever demonstrated.
  lemma VerdictReach(w: Scoring, n: int, z: real)
    requires Ordered(w) && n >= 1 && Extremes(w, n, z)
    ensures ArmVerdict(w, 0, n, n) == Demonstrated <==> n as real > z * z
    ensures n as real <= z * z ==>
              forall arm, full :: 0 <= arm <= n && 0 <= full <= n ==> ArmVerdict(w, arm, full, n) != Demonstrated
  {
    VerdictDecided(w, 0, n, n);
    NarrowestHalf(n, z);
    forall arm, full | 0 <= arm <= n && 0 <= full <= n && ArmVerdict(w, arm, full, n) == Demonstrated
      ensures ArmVerdict(w, 0, n, n) == Demonstrated
    {
      VerdictMonotone(w, arm, full, 0, n, n);
    }
  }

  lemma NarrowestHalf(n: int, z: real)
    requires n >= 1
    ensures 2.0 * Narrowest(n, z) < 1.0 <==> n as real > z * z
  {
    assert z * z >= 0.0;
    var b := n as real + z * z;
    OverFacts(z * z, b);
    OverUnique(b / 2.0, b, 0.5);
    OverOrder(z * z, b / 2.0, b);
    OverOrder(b / 2.0, z * z, b);
  }

  // Impossible counts, and only those, are refused.
  lemma WilsonRefuses(sqrt: real -> real, s: int, n: int, z: real)
    requires z > 0.0
    ensures WilsonInterval(sqrt, s, n, z).Err? <==> n < 1 || s < 0 || s > n
  {}
}
