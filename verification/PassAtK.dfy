/** The unbiased pass@k estimator over n trials of which c passed. Floating point is read as real
    arithmetic, and a sum of logarithms as the product it stands for. */
module PassAtK {
  import Graphs

  /** Binomial coefficients by Pascal's rule. */
  function Choose(n: nat, k: nat): nat {
    if k == 0 then 1
    else if n == 0 then 0
    else Choose(n - 1, k - 1) + Choose(n - 1, k)
  }

  lemma {:induction false} ChooseIsPositive(n: nat, k: nat)
    ensures Choose(n, k) > 0 <==> k <= n
  {
    if k > 0 && n > 0 {
      ChooseIsPositive(n - 1, k - 1);
      ChooseIsPositive(n - 1, k);
    }
  }

  /** One column further to the right in a row of Pascal's triangle. */
  lemma {:induction false} NextInRow(n: nat, k: nat)
    ensures (k + 1) * Choose(n, k + 1) == (n - k) * Choose(n, k)
  {
    if n > 0 {
      NextInRow(n - 1, k);
      if k > 0 {
        NextInRow(n - 1, k - 1);
        PascalStep(n, k, Choose(n - 1, k - 1), Choose(n - 1, k), Choose(n - 1, k + 1));
      } else {
        PascalStep(n, 0, 0, 1, Choose(n - 1, 1));
      }
    }
  }

  lemma PascalStep(n: int, k: int, c: int, a: int, b: int)
    requires (k + 1) * b == (n - 1 - k) * a && k * a == (n - k) * c
    ensures (k + 1) * (a + b) == (n - k) * (c + a)
  {
    assert (k + 1) * (a + b) == (k + 1) * a + (k + 1) * b;
    assert (n - k) * (c + a) == (n - k) * c + (n - k) * a;
    assert (k + 1) * a + (n - 1 - k) * a == n * a == k * a + (n - k) * a;
  }

  lemma {:induction false} ChooseGrows(m: nat, n: nat, k: nat)
    requires m <= n
    ensures Choose(m, k) <= Choose(n, k)
    decreases n
  {
    if m < n {
      ChooseGrows(m, n - 1, k);
    }
  }

  // ---------- The estimator ----------

  /** The share of k-samples out of n trials that fall entirely among m of them. */
  function Share(m: nat, n: nat, k: nat): real
    requires k <= n
  {
    ChooseIsPositive(n, k);
    Choose(m, k) as real / Choose(n, k) as real
  }

  /** Drawing one more trial multiplies the share by (m - k) / (n - k). */
  lemma ShareStep(m: nat, n: nat, k: nat)
    requires k < n
    ensures Share(m, n, k + 1) == Share(m, n, k) * ((m - k) as real / (n - k) as real)
  {
    hide Choose;
    NextInRow(m, k);
    NextInRow(n, k);
    ChooseIsPositive(n, k);
    ChooseIsPositive(n, k + 1);
    ProductAsReal(k + 1, Choose(m, k + 1), m - k, Choose(m, k));
    ProductAsReal(k + 1, Choose(n, k + 1), n - k, Choose(n, k));
    QuotientsAgree(Choose(m, k) as real, Choose(n, k) as real, Choose(m, k + 1) as real, Choose(n, k + 1) as real,
                   (k + 1) as real, (m - k) as real, (n - k) as real);
  }

  lemma ProductAsReal(a: int, b: int, c: int, d: int)
    requires a * b == c * d
    ensures a as real * b as real == c as real * d as real
  {
    assert (a * b) as real == a as real * b as real;
    assert (c * d) as real == c as real * d as real;
  }

  lemma QuotientsAgree(a: real, b: real, a': real, b': real, t: real, p: real, q: real)
    requires b > 0.0 && b' > 0.0 && t > 0.0 && q > 0.0
    requires t * a' == p * a && t * b' == q * b
    ensures a' / b' == (a / b) * (p / q)
  {
    var x, y, z := a / b, p / q, a' / b';
    assert a == x * b && p == y * q && a' == z * b';
    assert t * (z * b') == (y * q) * (x * b);
    assert z * (t * b') == (x * y) * (q * b);
    var w := q * b;
    assert w > 0.0;
    assert z * w == (x * y) * w;
    assert (z - x * y) * w == 0.0;
  }

  lemma NoShare(m: nat, n: nat, k: nat)
    requires m < k <= n
    ensures Share(m, n, k) == 0.0
  {
    ChooseIsPositive(m, k);
    ChooseIsPositive(n, k);
    var w := Choose(n, k) as real;
    assert w > 0.0 && 0.0 / w == 0.0;
  }

  /** What the estimator returns for any arguments, as a closed form. */
  function Estimate(n: int, c: int, k: int): real {
    if n < k then 0.0
    else if k <= 0 then if c != 0 && c >= n then 1.0 else 0.0
    else 1.0 - Share(if c >= n then 0 else n - c, n, k)
  }

  method Compute(n: int, c: int, k: int) returns (r: real)
    ensures r == Estimate(n, c, k)
  {
    if n < k {
      return 0.0;
    }
    if c == 0 {
      if k > 0 {
        ChooseIsPositive(n, k);
        Quotient(Choose(n, k) as real, Choose(n, k) as real);
      }
      return 0.0;
    }
    if c >= n {
      if k > 0 { NoShare(0, n, k); }
      return 1.0;
    }
    if n - c < k {
      NoShare(n - c, n, k);
      return 1.0;
    }
    var ratio := 1.0;
    var i := 0;
    while i < k
      invariant 0 <= i && (k >= 0 ==> i <= k) && (k < 0 ==> i == 0)
      invariant k >= 0 ==> ratio == Share(n - c, n, i)
      invariant k < 0 ==> ratio == 1.0
      decreases k - i
    {
      // The arguments of both logarithms are positive.
      assert n - c - i > 0 && n - i > 0;
      ShareStep(n - c, n, i);
      ratio := ratio * ((n - c - i) as real / (n - i) as real);
      i := i + 1;
    }
    return 1.0 - ratio;
  }

  /** With fewer trials than the sample needs, or none that passed, the answer is 0; a sample of no trials
      answers 1 only if all of at least one trials passed. */
  lemma GuardsSay(n: int, c: int, k: int)
    ensures n < k || c == 0 ==> Estimate(n, c, k) == 0.0
    ensures n >= k && c != 0 && c >= n ==> Estimate(n, c, k) == 1.0
    ensures n >= k && k <= 0 && c < n ==> Estimate(n, c, k) == 0.0
  {
    if n >= k > 0 {
      if c == 0 {
        ShareIsAFraction(n, n, k);
      } else if c >= n {
        NoShare(0, n, k);
      }
    }
  }

  /** The guards agree with the closed formula 1 - C(n-c, k) / C(n, k) on every proper number of
      trials except for samples of size zero when everything passed. */
  lemma FormulaHoldsExactlyWhen(n: nat, c: nat, k: nat)
    requires c <= n && k <= n
    ensures Estimate(n, c, k) == 1.0 - Share(n - c, n, k) <==> !(k == 0 && c == n && n > 0)
  {
    if k == 0 {
      assert Share(n - c, n, 0) == 1.0;
    }
  }

  lemma ShareIsAFraction(m: nat, n: nat, k: nat)
    requires m <= n && k <= n
    ensures 0.0 <= Share(m, n, k) <= 1.0
    ensures Share(m, n, k) == 0.0 <==> m < k
    ensures Share(m, n, k) == 1.0 <==> k == 0 || m == n
  {
    hide Choose;
    ChooseIsPositive(n, k);
    ChooseIsPositive(m, k);
    ChooseGrows(m, n, k);
    Quotient(Choose(m, k) as real, Choose(n, k) as real);
    if k == 0 {
      EmptySample(m);
      EmptySample(n);
    } else if m < n {
      OneMoreTrial(n, k);
      ChooseGrows(m, n - 1, k);
    }
  }

  lemma Quotient(p: real, q: real)
    requires 0.0 <= p <= q && q > 0.0
    ensures 0.0 <= p / q <= 1.0
    ensures p / q == 0.0 <==> p == 0.0
    ensures p / q == 1.0 <==> p == q
  {
    QuotientGrows(0.0, p, q);
    QuotientGrows(p, q, q);
    assert 0.0 / q == 0.0 && q / q == 1.0;
    var x := p / q;
    assert x * q == p;
  }

  lemma EmptySample(n: nat)
    ensures Choose(n, 0) == 1
  {
  }

  lemma EstimateIsAProbability(n: nat, c: nat, k: nat)
    requires c <= n
    ensures 0.0 <= Estimate(n, c, k) <= 1.0
    ensures 1 <= k <= n ==> (Estimate(n, c, k) == 0.0 <==> c == 0)
    ensures 1 <= k <= n ==> (Estimate(n, c, k) == 1.0 <==> n - c < k)
  {
    hide Share;
    if 1 <= k <= n {
      ShareIsAFraction(n - c, n, k);
    }
  }

  lemma OneMoreTrial(n: nat, k: nat)
    requires 1 <= k <= n
    ensures Choose(n - 1, k) < Choose(n, k)
  {
    ChooseIsPositive(n - 1, k - 1);
  }

  /** More passing trials never lower the estimate. */
  lemma GrowsWithPasses(n: nat, c: nat, d: nat, k: nat)
    requires c <= d <= n
    ensures Estimate(n, c, k) <= Estimate(n, d, k)
  {
    hide Choose;
    if 1 <= k <= n {
      ChooseGrows(n - d, n - c, k);
      ChooseIsPositive(n, k);
      QuotientGrows(Choose(n - d, k) as real, Choose(n - c, k) as real, Choose(n, k) as real);
    }
  }

  lemma QuotientGrows(p: real, q: real, w: real)
    requires p <= q && w > 0.0
    ensures p / w <= q / w
  {
    assert (q - p) / w >= 0.0;
    assert q / w == p / w + (q - p) / w;
  }

  /** Larger samples never lower the estimate, as long as there are trials enough to draw them. */
  lemma {:induction false} GrowsWithSampleSize(n: nat, c: nat, k: nat, l: nat)
    requires c <= n && 1 <= k <= l <= n
    ensures Estimate(n, c, k) <= Estimate(n, c, l)
    decreases l
  {
    hide Share, Choose;
    if k < l {
      GrowsWithSampleSize(n, c, k, l - 1);
      ShareShrinks(n - c, n, l - 1);
    }
  }

  lemma ShareShrinks(m: nat, n: nat, k: nat)
    requires m <= n && k < n
    ensures Share(m, n, k + 1) <= Share(m, n, k)
  {
    hide Share, Choose;
    ShareStep(m, n, k);
    ShareIsAFraction(m, n, k);
    var x, p, q := Share(m, n, k), (m - k) as real, (n - k) as real;
    Shrinks(x, p, q);
    assert Share(m, n, k + 1) == x * (p / q);
  }

  lemma Shrinks(x: real, p: real, q: real)
    requires x >= 0.0 && p <= q && q > 0.0
    ensures x * (p / q) <= x
  {
    QuotientGrows(p, q, q);
    var y := p / q;
    assert y <= 1.0;
    assert x * (1.0 - y) >= 0.0;
    assert x * (1.0 - y) == x - x * y;
  }

  // ---------- What the estimate means ----------

  /** The samples of k trials out of a set of trials. */
  ghost function Samples(trials: set<int>, k: nat): set<set<int>> {
    set s | s <= trials && |s| == k
  }

  ghost function WithTrial(samples: set<set<int>>, t: int): set<set<int>> {
    set s | s in samples :: s + {t}
  }

  lemma {:induction false} WithTrialKeepsCount(samples: set<set<int>>, t: int)
    requires forall s :: s in samples ==> t !in s
    ensures |WithTrial(samples, t)| == |samples|
  {
    hide WithTrial;
    if samples == {} {
      NoSamples(t);
    } else {
      SampleExists(samples);
      var s :| s in samples;
      OneMoreSample(samples, s, t);
      WithTrialKeepsCount(samples - {s}, t);
    }
  }

  lemma SampleExists(samples: set<set<int>>)
    requires samples != {}
    ensures exists s :: s in samples
  {
    if forall s :: s !in samples {
      assert false;
    }
  }

  lemma NoSamples(t: int)
    ensures WithTrial({}, t) == {}
  {
  }

  lemma OneMoreSample(samples: set<set<int>>, s: set<int>, t: int)
    requires s in samples && forall u :: u in samples ==> t !in u
    ensures WithTrial(samples, t) == WithTrial(samples - {s}, t) + {s + {t}}
    ensures s + {t} !in WithTrial(samples - {s}, t)
  {
    forall u | u in samples - {s}
      ensures u + {t} != s + {t}
    {
      assert u == (u + {t}) - {t} && s == (s + {t}) - {t};
    }
  }

  lemma SamplesSplit(trials: set<int>, t: int, k: nat)
    requires t in trials && k > 0
    ensures Samples(trials, k) == Samples(trials - {t}, k) + WithTrial(Samples(trials - {t}, k - 1), t)
    ensures Samples(trials - {t}, k) !! WithTrial(Samples(trials - {t}, k - 1), t)
    ensures forall s :: s in Samples(trials - {t}, k - 1) ==> t !in s
  {
    forall s | s in Samples(trials, k)
      ensures s in Samples(trials - {t}, k) + WithTrial(Samples(trials - {t}, k - 1), t)
    {
      if t in s {
        assert s - {t} in Samples(trials - {t}, k - 1);
        assert s == (s - {t}) + {t};
      } else {
        assert s <= trials - {t};
      }
    }
  }

  lemma {:induction false} CountSamples(trials: set<int>, k: nat)
    ensures |Samples(trials, k)| == Choose(|trials|, k)
  {
    hide Samples, WithTrial;
    if k == 0 || trials == {} {
      TrivialSamples(trials, k);
    } else {
      Graphs.Inhabited(trials);
      var t :| t in trials;
      SamplesSplit(trials, t, k);
      CountSamples(trials - {t}, k);
      CountSamples(trials - {t}, k - 1);
      WithTrialKeepsCount(Samples(trials - {t}, k - 1), t);
    }
  }

  lemma TrivialSamples(trials: set<int>, k: nat)
    requires k == 0 || trials == {}
    ensures Samples(trials, k) == if k == 0 then {{}} else {}
  {
  }

  /** The samples that contain a passing trial. */
  ghost function Successes(trials: set<int>, passed: set<int>, k: nat): set<set<int>> {
    set s | s in Samples(trials, k) && !(s !! passed)
  }

  /** The estimate is the chance that a sample of k trials, drawn without replacement, contains one
      that passed: the number of such samples over the number of all samples. */
  lemma EstimateIsTheChanceOfAPass(trials: set<int>, passed: set<int>, k: nat)
    requires passed <= trials && 1 <= k <= |trials|
    ensures |Samples(trials, k)| > 0
    ensures Estimate(|trials|, |passed|, k)
         == |Successes(trials, passed, k)| as real / |Samples(trials, k)| as real
  {
    var failed := trials - passed;
    assert |failed| == |trials| - |passed|;
    CountSamples(trials, k);
    CountSamples(failed, k);
    ChooseIsPositive(|trials|, k);
    var all, good, bad := Samples(trials, k), Successes(trials, passed, k), Samples(failed, k);
    assert all == good + bad by {
      forall s | s in all && s !in good ensures s in bad { assert s !! passed; }
    }
    assert forall s :: s in bad ==> s <= failed;
    assert good !! bad;
    assert |all| == |good| + |bad|;
    Complement(|good| as real, |bad| as real, |all| as real);
  }

  lemma Complement(g: real, b: real, w: real)
    requires w == g + b && w > 0.0
    ensures 1.0 - b / w == g / w
  {
    assert b / w + g / w == (b + g) / w;
    assert w / w == 1.0;
  }
}
