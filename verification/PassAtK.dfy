/**
 pass@k and pass^k, the two small-sample estimators of the benchmark report
 (evals/benchmarks/statistical_eval.py).
 */
module PassAtK {
  import opened RealArith
  import opened Results

  // `math.comb`, by Pascal's rule.
  function Comb(n: nat, k: nat): nat {
    if k == 0 then 1
    else if n == 0 then 0
    else Comb(n - 1, k) + Comb(n - 1, k - 1)
  }

  // A raised error, or an estimate that is absent when there are fewer than k trials.
  type Estimate = Result<Option<real>, string>

  function PassAt(successes: int, total: int, k: int): Estimate {
    if k < 1 then Err("k must be positive")
    else if total < k then Ok(None)
    else
      var failures := total - successes;
      if failures < k then Ok(Some(1.0))
      else
        CombPositive(total, k);
        Ok(Some(1.0 - Over(Comb(failures, k) as real, Comb(total, k) as real)))
  }

  function PassPower(successes: int, total: int, k: int): Estimate {
    if k < 1 then Err("k must be positive")
    else if total < k then Ok(None)
    else if successes < k then Ok(Some(0.0))
    else
      CombPositive(total, k);
      Ok(Some(Over(Comb(successes, k) as real, Comb(total, k) as real)))
  }

  // ----- Binomial coefficients

  lemma {:induction false} CombZero(n: nat, k: nat)
    requires n < k
    ensures Comb(n, k) == 0
  {
    if n > 0 {
      CombZero(n - 1, k);
      CombZero(n - 1, k - 1);
    }
  }

  lemma {:induction false} CombPositive(n: nat, k: nat)
    requires k <= n
    ensures Comb(n, k) > 0
  {
    if 0 < k {
      CombPositive(n - 1, k - 1);
    }
  }

  lemma {:induction false} CombMonotone(m: nat, n: nat, k: nat)
    requires m <= n
    ensures Comb(m, k) <= Comb(n, k)
    decreases n
  {
    if m < n && k > 0 {
      CombMonotone(m, n - 1, k);
    }
  }

  // Choosing one more: (k + 1) C(n, k+1) == (n - k) C(n, k).
  lemma {:induction false} CombNext(n: nat, k: nat)
    ensures (k + 1) * Comb(n, k + 1) == (n - k) * Comb(n, k)
  {
    if n == 0 {
    } else if k == 0 {
      CombNext(n - 1, 0);
    } else {
      CombNext(n - 1, k);
      CombNext(n - 1, k - 1);
      NextAlgebra(n - 1, k, Comb(n - 1, k + 1), Comb(n - 1, k), Comb(n - 1, k - 1));
    }
  }

  lemma NextAlgebra(m: int, k: int, c2: int, c1: int, c0: int)
    requires (k + 1) * c2 == (m - k) * c1
    requires k * c1 == (m - k + 1) * c0
    ensures (k + 1) * (c2 + c1) == (m + 1 - k) * (c1 + c0)
  {
    calc {
      (k + 1) * (c2 + c1);
      (k + 1) * c2 + (k + 1) * c1;
      (m - k) * c1 + k * c1 + c1;
      (m - k) * c1 + c1 + (m - k + 1) * c0;
      (m + 1 - k) * (c1 + c0);
    }
  }

  lemma CombOne(n: nat)
    ensures Comb(n, 1) == n
  {
    CombNext(n, 0);
  }

  // ----- The estimators as one ratio

  // C(s, k) / C(n, k): the chance that k trials drawn from n all succeed.
  ghost function AllOf(s: nat, n: nat, k: nat): real
    requires s <= n && 1 <= k <= n
  {
    CombPositive(n, k);
    Over(Comb(s, k) as real, Comb(n, k) as real)
  }

  // The early returns agree with the binomial formula, and the two estimators are one
  // function seen from both sides.
  lemma PassFormula(s: nat, n: nat, k: nat)
    requires s <= n && 1 <= k <= n
    ensures PassPower(s, n, k) == Ok(Some(AllOf(s, n, k)))
    ensures PassAt(s, n, k) == Ok(Some(1.0 - AllOf(n - s, n, k)))
  {
    CombPositive(n, k);
    if s < k {
      CombZero(s, k);
      OverUnique(0.0, Comb(n, k) as real, 0.0);
    }
    if n - s < k {
      CombZero(n - s, k);
      OverUnique(0.0, Comb(n, k) as real, 0.0);
    }
  }

  lemma AllOfRange(s: nat, n: nat, k: nat)
    requires s <= n && 1 <= k <= n
    ensures 0.0 <= AllOf(s, n, k) <= 1.0
    ensures s == n ==> AllOf(s, n, k) == 1.0
  {
    CombPositive(n, k);
    CombMonotone(s, n, k);
    OverFacts(Comb(s, k) as real, Comb(n, k) as real);
    OverUnique(Comb(n, k) as real, Comb(n, k) as real, 1.0);
    OverOrder(Comb(s, k) as real, Comb(n, k) as real, Comb(n, k) as real);
  }

  lemma AllOfMonotone(s: nat, s': nat, n: nat, k: nat)
    requires s <= s' <= n && 1 <= k <= n
    ensures AllOf(s, n, k) <= AllOf(s', n, k)
  {
    CombPositive(n, k);
    CombMonotone(s, s', k);
    OverOrder(Comb(s, k) as real, Comb(s', k) as real, Comb(n, k) as real);
  }

  // Drawing one more trial cannot make "all succeed" more likely.
  lemma AllOfStep(s: nat, n: nat, k: nat)
    requires s <= n && 1 <= k < n
    ensures AllOf(s, n, k + 1) <= AllOf(s, n, k)
  {
    CombPositive(n, k);
    CombPositive(n, k + 1);
    var a, b, c, d := Comb(s, k + 1), Comb(s, k), Comb(n, k + 1), Comb(n, k);
    CrossBound(s, n, k, a, b, c, d) by {
      CombNext(s, k);
      CombNext(n, k);
    }
    RatioOrder(a as real, c as real, b as real, d as real);
  }

  lemma CrossBound(s: nat, n: nat, k: nat, a: nat, b: nat, c: nat, d: nat)
    requires s <= n
    requires (k + 1) * a == (s - k) * b && (k + 1) * c == (n - k) * d
    ensures a * d <= b * c
  {
    calc <= {
      (k + 1) * (a * d);
      ((k + 1) * a) * d;
      ((s - k) * b) * d;
      (s - k) * (b * d);
      { assert 0 <= b * d; assert (n - s) * (b * d) >= 0; }
      (n - k) * (b * d);
      ((n - k) * d) * b;
      ((k + 1) * c) * b;
      (k + 1) * (b * c);
    }
    Cancel(k + 1, a * d, b * c);
  }

  lemma Cancel(k: int, x: int, y: int)
    requires k > 0 && k * x <= k * y
    ensures x <= y
  {}

  lemma RatioOrder(a: real, c: real, b: real, d: real)
    requires c > 0.0 && d > 0.0 && a * d <= b * c
    ensures Over(a, c) <= Over(b, d)
  {
    TimesPositive(c, d);
    var cd := Times(c, d);
    assert Over(a, c) * c == a && Over(b, d) * d == b;
    assert Over(a, c) * cd == a * d && Over(b, d) * cd == b * c;
    OverUnique(a * d, cd, Over(a, c));
    OverUnique(b * c, cd, Over(b, d));
    OverOrder(a * d, b * c, cd);
  }

  lemma {:induction false} AllOfAntitone(s: nat, n: nat, k: nat, k': nat)
    requires s <= n && 1 <= k <= k' <= n
    ensures AllOf(s, n, k') <= AllOf(s, n, k)
    decreases k' - k
  {
    if k < k' {
      AllOfStep(s, n, k' - 1);
      AllOfAntitone(s, n, k, k' - 1);
    }
  }

  lemma AllOfOne(s: nat, n: nat)
    requires s <= n && 1 <= n
    ensures AllOf(s, n, 1) == Over(s as real, n as real)
    ensures 1.0 - AllOf(n - s, n, 1) == Over(s as real, n as real)
  {
    CombOne(s);
    CombOne(n - s);
    CombOne(n);
    OverFacts((n - s) as real, n as real);
    OverUnique(s as real, n as real, 1.0 - Over((n - s) as real, n as real));
  }

  // ----- What the estimators count

  // The ways to draw k of the given trials.
  ghost function Draws(trials: set<nat>, k: nat): set<set<nat>> {
    set draw | draw <= trials && |draw| == k
  }

  ghost function WithTrial(draws: set<set<nat>>, x: nat): set<set<nat>> {
    set draw | draw in draws :: draw + {x}
  }

  lemma {:induction false} WithTrialSize(draws: set<set<nat>>, x: nat)
    requires forall draw :: draw in draws ==> x !in draw
    ensures |WithTrial(draws, x)| == |draws|
  {
    if draws != {} {
      var draw :| draw in draws;
      WithTrialSize(draws - {draw}, x);
      assert draws == draws - {draw} + {draw};
      WithTrialAdded(draws - {draw}, draw, x);
    }
  }

  lemma WithTrialAdded(draws: set<set<nat>>, draw: set<nat>, x: nat)
    requires x !in draw && draw !in draws && forall other :: other in draws ==> x !in other
    ensures |WithTrial(draws + {draw}, x)| == |WithTrial(draws, x)| + 1
  {
    assert WithTrial(draws + {draw}, x) == WithTrial(draws, x) + {draw + {x}};
    forall other | other in draws ensures other + {x} != draw + {x} {
      assert (other + {x}) - {x} == other && (draw + {x}) - {x} == draw;
    }
  }

  // A draw either leaves a given trial out or adds it to a smaller draw of the others.
  lemma DrawsWith(trials: set<nat>, k: nat, x: nat)
    requires x in trials && k > 0
    ensures Draws(trials, k) == Draws(trials - {x}, k) + WithTrial(Draws(trials - {x}, k - 1), x)
    ensures Draws(trials - {x}, k) !! WithTrial(Draws(trials - {x}, k - 1), x)
  {
    var others := trials - {x};
    forall draw
      ensures draw in Draws(trials, k) <==> draw in Draws(others, k) || draw in WithTrial(Draws(others, k - 1), x) {
      DrawWith(trials, k, x, draw);
    }
  }

  lemma DrawWith(trials: set<nat>, k: nat, x: nat, draw: set<nat>)
    requires x in trials && k > 0
    ensures draw in Draws(trials, k) <==>
            draw in Draws(trials - {x}, k) || draw in WithTrial(Draws(trials - {x}, k - 1), x)
  {
    if x in draw {
      assert draw == (draw - {x}) + {x};
      assert draw in Draws(trials, k) ==> draw - {x} in Draws(trials - {x}, k - 1);
    } else {
      assert draw <= trials <==> draw <= trials - {x};
    }
  }

  // Pascal's rule counts the draws.
  lemma {:induction false} DrawsCounted(trials: set<nat>, k: nat)
    ensures |Draws(trials, k)| == Comb(|trials|, k)
  {
    if k == 0 {
      NoDraw(trials);
    } else if trials == {} {
      NothingToDraw(k);
    } else {
      var x :| x in trials;
      DrawsSplit(trials, k, x);
      DrawsCounted(trials - {x}, k);
      DrawsCounted(trials - {x}, k - 1);
      assert |trials - {x}| == |trials| - 1;
    }
  }

  lemma NoDraw(trials: set<nat>)
    ensures Draws(trials, 0) == {{}}
  {
    assert {} in Draws(trials, 0);
    forall draw | draw in Draws(trials, 0) ensures draw == {} {}
  }

  lemma NothingToDraw(k: nat)
    requires k > 0
    ensures Draws({}, k) == {}
  {}

  lemma DrawsSplit(trials: set<nat>, k: nat, x: nat)
    requires x in trials && k > 0
    ensures |Draws(trials, k)| == |Draws(trials - {x}, k)| + |Draws(trials - {x}, k - 1)|
  {
    DrawsWith(trials, k, x);
    WithTrialSize(Draws(trials - {x}, k - 1), x);
    assert |Draws(trials - {x}, k) + WithTrial(Draws(trials - {x}, k - 1), x)|
        == |Draws(trials - {x}, k)| + |WithTrial(Draws(trials - {x}, k - 1), x)|;
  }

  // pass^k is the share of draws in which every trial succeeded, pass@k the share in which at
  // least one did.
  lemma PassMeans(trials: set<nat>, successes: set<nat>, k: nat)
    requires successes <= trials && 1 <= k <= |trials|
    ensures var all := Draws(trials, k);
            && |all| > 0
            && PassPower(|successes|, |trials|, k)
               == Ok(Some(Over(|set draw | draw in all && draw <= successes| as real, |all| as real)))
            && PassAt(|successes|, |trials|, k)
               == Ok(Some(Over(|set draw | draw in all && draw * successes != {}| as real, |all| as real)))
  {
    var s, n := |successes|, |trials|;
    var all, failures := Draws(trials, k), trials - successes;
    assert trials == successes + failures;
    DrawsCounted(trials, k);
    DrawsCounted(successes, k);
    DrawsCounted(failures, k);
    CombPositive(n, k);
    PassFormula(s, n, k);
    var only := set draw | draw in all && draw <= successes;
    var some := set draw | draw in all && draw * successes != {};
    assert only == Draws(successes, k);
    assert some == all - Draws(failures, k) && Draws(failures, k) <= all;
    assert |some| == |all| - |Draws(failures, k)|;
    Complement(|Draws(failures, k)|, |all|);
  }

  lemma Complement(a: nat, n: nat)
    requires n > 0
    ensures Over((n - a) as real, n as real) == 1.0 - Over(a as real, n as real)
  {
    OverFacts(a as real, n as real);
    OverUnique((n - a) as real, n as real, 1.0 - Over(a as real, n as real));
  }

  // ----- Laws of the two estimators

  ghost predicate Estimated(e: Estimate) { e.Ok? && e.value.Some? }

  // The estimate of a call that returns one.
  ghost function Value(e: Estimate): real
    requires Estimated(e)
  {
    e.value.value
  }

  // pass@k is the complement of pass^k on the failures, both are probabilities, and the plain
  // success rate lies between them, meeting both at k = 1.
  lemma PassLaws(s: nat, n: nat, k: nat)
    requires s <= n && 1 <= k <= n
    ensures Estimated(PassAt(s, n, k))
    ensures Estimated(PassPower(s, n, k))
    ensures Estimated(PassPower(n - s, n, k))
    ensures Value(PassAt(s, n, k)) == 1.0 - Value(PassPower(n - s, n, k))
    ensures 0.0 <= Value(PassPower(s, n, k)) <= Over(s as real, n as real) <= Value(PassAt(s, n, k)) <= 1.0
    ensures k == 1 ==> Value(PassPower(s, n, k)) == Value(PassAt(s, n, k)) == Over(s as real, n as real)
  {
    PassFormula(s, n, k);
    PassFormula(n - s, n, k);
    AllOfRange(s, n, k);
    AllOfRange(n - s, n, k);
    AllOfOne(s, n);
    AllOfAntitone(s, n, 1, k);
    AllOfAntitone(n - s, n, 1, k);
  }

  // Both estimators grow with the number of successes.
  lemma PassMonotoneInSuccesses(s: nat, s': nat, n: nat, k: nat)
    requires s <= s' <= n && 1 <= k <= n
    ensures Estimated(PassPower(s, n, k)) && Estimated(PassPower(s', n, k))
    ensures Estimated(PassAt(s, n, k)) && Estimated(PassAt(s', n, k))
    ensures Value(PassPower(s, n, k)) <= Value(PassPower(s', n, k))
    ensures Value(PassAt(s, n, k)) <= Value(PassAt(s', n, k))
  {
    PassFormula(s, n, k);
    PassFormula(s', n, k);
    AllOfMonotone(s, s', n, k);
    AllOfMonotone(n - s', n - s, n, k);
  }

  // Asking for more draws lowers pass^k and raises pass@k.
  lemma PassMonotoneInK(s: nat, n: nat, k: nat, k': nat)
    requires s <= n && 1 <= k <= k' <= n
    ensures Estimated(PassPower(s, n, k)) && Estimated(PassPower(s, n, k'))
    ensures Estimated(PassAt(s, n, k)) && Estimated(PassAt(s, n, k'))
    ensures Value(PassPower(s, n, k')) <= Value(PassPower(s, n, k))
    ensures Value(PassAt(s, n, k)) <= Value(PassAt(s, n, k'))
  {
    PassFormula(s, n, k);
    PassFormula(s, n, k');
    AllOfAntitone(s, n, k, k');
    AllOfAntitone(n - s, n, k, k');
  }

  // An estimate is refused exactly for a k that is not positive, and absent exactly when there are
  // fewer than k trials.
  lemma PassAbsent(successes: int, total: int, k: int)
    ensures PassAt(successes, total, k).Err? <==> k < 1
    ensures PassPower(successes, total, k).Err? <==> k < 1
    ensures PassAt(successes, total, k) == Ok(None) <==> 1 <= k && total < k
    ensures PassPower(successes, total, k) == Ok(None) <==> 1 <= k && total < k
  {}
}
