/**
  The foliage factor in plain sums: what is reported, stated over ranges of the samples with the
  textbook formulas for variance and covariance.
 */
module FoliageMoments {
  import opened FoliageFactor
  import opened Options

  // ---------- sums over the samples from lo up to hi ----------

  function Total(s: seq<real>, lo: nat, hi: nat): real
    requires lo <= hi <= |s|
  {
    if hi == lo then 0.0 else Total(s, lo, hi - 1) + s[hi - 1]
  }

  function Products(a: seq<real>, b: seq<real>, lo: nat, hi: nat): real
    requires lo <= hi <= |a| == |b|
  {
    if hi == lo then 0.0 else Products(a, b, lo, hi - 1) + a[hi - 1] * b[hi - 1]
  }

  function SpreadOf(m: real, products: real, x: real, y: real): real {
    m * products - x * y
  }

  // The number of samples times their products, less the product of the totals
  function Spread(a: seq<real>, b: seq<real>, lo: nat, hi: nat): real
    requires lo <= hi <= |a| == |b|
  {
    SpreadOf((hi - lo) as real, Products(a, b, lo, hi), Total(a, lo, hi), Total(b, lo, hi))
  }

  function VarianceIn(s: seq<real>, lo: nat, hi: nat): real
    requires lo < hi <= |s|
  {
    var m := (hi - lo) as real;
    Spread(s, s, lo, hi) / (m * m)
  }

  function CovarianceIn(a: seq<real>, b: seq<real>, lo: nat, hi: nat): real
    requires lo + 1 < hi <= |a| == |b|
  {
    var m := (hi - lo) as real;
    Spread(a, b, lo, hi) / (m * (m - 1.0))
  }

  // ---------- they are the statistics of the window ----------

  function Less(s: seq<real>, c: real): (r: seq<real>)
    ensures |r| == |s|
  {
    seq(|s|, i requires 0 <= i < |s| => s[i] - c)
  }

  function Times(x: real, n: nat): real {
    x * n as real
  }

  lemma {:induction false} SumOfLess(s: seq<real>, c: real)
    ensures Sum(Less(s, c)) == Sum(s) - Times(c, |s|)
  {
    if s != [] {
      var n := |s| - 1;
      assert Less(s, c)[..n] == Less(s[..n], c);
      SumOfLess(s[..n], c);
      OneMoreTime(c, n);
    }
  }

  lemma OneMoreTime(c: real, n: nat)
    ensures Times(c, n + 1) == Times(c, n) + c
  {
  }

  // Taking a number from the first factor everywhere takes as much of the total of the second
  lemma {:induction false} DotOfLess(a: seq<real>, p: real, b: seq<real>)
    requires |a| == |b|
    ensures Dot(Less(a, p), b) == Dot(a, b) - p * Sum(b)
  {
    if a != [] {
      var n := |a| - 1;
      assert Less(a, p)[..n] == Less(a[..n], p);
      DotOfLess(a[..n], p, b[..n]);
      TakenAway(a[n], p, b[n], Sum(b[..n]));
    }
  }

  lemma TakenAway(x: real, p: real, y: real, sum: real)
    ensures (x - p) * y == x * y - p * y
    ensures p * (sum + y) == p * sum + p * y
  {
  }

  lemma {:induction false} MeanTimes(s: seq<real>)
    requires s != []
    ensures Times(Mean(s), |s|) == Sum(s)
  {
    QuotientTimes(Sum(s), |s| as real);
  }

  lemma {:induction false} CenteredDot(a: seq<real>, b: seq<real>)
    requires |a| == |b| > 0
    ensures Times(Dot(Centered(a), Centered(b)), |a|) == SpreadOf(|a| as real, Dot(a, b), Sum(a), Sum(b))
  {
    OneCenteredIsEnough(a, b);
    MeanTimes(b);
    DotWithCentered(a, b);
    MeanCancels(Dot(a, Centered(b)), Dot(a, b), Mean(b), Sum(a), Sum(b), |a|);
  }

  lemma {:induction false} CenteredSum(s: seq<real>)
    requires s != []
    ensures Sum(Centered(s)) == 0.0
  {
    assert Centered(s) == Less(s, Mean(s));
    SumOfLess(s, Mean(s));
    MeanTimes(s);
  }

  lemma {:induction false} OneCenteredIsEnough(a: seq<real>, b: seq<real>)
    requires |a| == |b| > 0
    ensures Dot(Centered(a), Centered(b)) == Dot(a, Centered(b))
  {
    assert Centered(a) == Less(a, Mean(a));
    DotOfLess(a, Mean(a), Centered(b));
    CenteredSum(b);
    TimesNothing(Mean(a));
  }

  lemma TimesNothing(x: real)
    ensures x * 0.0 == 0.0
  {
  }

  lemma {:induction false} DotWithCentered(a: seq<real>, b: seq<real>)
    requires |a| == |b| > 0
    ensures Dot(a, Centered(b)) == Dot(a, b) - Mean(b) * Sum(a)
  {
    assert Centered(b) == Less(b, Mean(b));
    DotOfLess(b, Mean(b), a);
    DotCommutes(a, b);
    DotCommutes(a, Centered(b));
  }

  lemma {:induction false} DotCommutes(a: seq<real>, b: seq<real>)
    requires |a| == |b|
    ensures Dot(a, b) == Dot(b, a)
  {
    if a != [] {
      DotCommutes(a[..|a| - 1], b[..|a| - 1]);
    }
  }

  lemma MeanCancels(centered: real, d: real, mean: real, x: real, y: real, n: nat)
    requires Times(mean, n) == y && centered == d - mean * x
    ensures Times(centered, n) == SpreadOf(n as real, d, x, y)
  {
    assert mean * x * n as real == x * (mean * n as real);
  }

  lemma {:induction false} TotalIsSum(s: seq<real>, lo: nat, hi: nat)
    requires lo <= hi <= |s|
    ensures Total(s, lo, hi) == Sum(s[lo..hi])
  {
    if lo < hi {
      TotalIsSum(s, lo, hi - 1);
      assert s[lo..hi][..hi - lo - 1] == s[lo..hi - 1];
    }
  }

  lemma {:induction false} ProductsAreDot(a: seq<real>, b: seq<real>, lo: nat, hi: nat)
    requires lo <= hi <= |a| == |b|
    ensures Products(a, b, lo, hi) == Dot(a[lo..hi], b[lo..hi])
  {
    if lo < hi {
      ProductsAreDot(a, b, lo, hi - 1);
      assert a[lo..hi][..hi - lo - 1] == a[lo..hi - 1] && b[lo..hi][..hi - lo - 1] == b[lo..hi - 1];
    }
  }

  lemma {:induction false} SpreadIsCentered(a: seq<real>, b: seq<real>, lo: nat, hi: nat)
    requires lo < hi <= |a| == |b|
    ensures Times(Dot(Centered(a[lo..hi]), Centered(b[lo..hi])), hi - lo) == Spread(a, b, lo, hi)
  {
    CenteredDot(a[lo..hi], b[lo..hi]);
    ProductsAreDot(a, b, lo, hi);
    TotalIsSum(a, lo, hi);
    TotalIsSum(b, lo, hi);
  }

  lemma Reduce(x: real, y: real, m: real, k: real)
    requires m > 0.0 && k > 0.0 && x * m == y
    ensures m * k > 0.0 && x / k == y / (m * k)
  {
    ProductPositive(m, k);
    QuotientTimes(x, k);
    QuotientTimes(y, m * k);
    assert x / k * (m * k) == x / k * k * m;
    SameQuotient(x / k, y / (m * k), m * k);
  }

  lemma SameQuotient(x: real, y: real, z: real)
    requires z > 0.0 && x * z == y * z
    ensures x == y
  {
    LessByFactor(x, y, z);
    LessByFactor(y, x, z);
  }

  lemma {:induction false} VarianceIs(s: seq<real>, lo: nat, hi: nat)
    requires lo < hi <= |s|
    ensures Variance(s[lo..hi]) == VarianceIn(s, lo, hi)
  {
    SpreadIsCentered(s, s, lo, hi);
    var m := (hi - lo) as real;
    Reduce(Dot(Centered(s[lo..hi]), Centered(s[lo..hi])), Spread(s, s, lo, hi), m, m);
  }

  lemma {:induction false} CovarianceIs(a: seq<real>, b: seq<real>, lo: nat, hi: nat)
    requires lo + 1 < hi <= |a| == |b|
    ensures Covariance(a[lo..hi], b[lo..hi]) == CovarianceIn(a, b, lo, hi)
  {
    SpreadIsCentered(a, b, lo, hi);
    var m, dot := (hi - lo) as real, Dot(Centered(a[lo..hi]), Centered(b[lo..hi]));
    assert Covariance(a[lo..hi], b[lo..hi]) == dot / (m - 1.0);
    Reduce(dot, Spread(a, b, lo, hi), m, m - 1.0);
  }

  // ---------- the windows ----------

  // Windows start w samples apart
  function Start(w: nat, k: nat): nat {
    if k == 0 then 0 else Start(w, k - 1) + w
  }

  // A window runs one sample beyond the start of the next one, but not beyond the last sample
  function End(length: nat, next: nat): nat {
    if next < length then next + 1 else length
  }

  lemma StartIs(w: nat, k: nat)
    ensures Start(w, k) == k * w
  {
    if k > 0 {
      StartIs(w, k - 1);
      assert k * w == (k - 1) * w + w;
    }
  }

  lemma NoneWide(k: nat)
    ensures Start(0, k) == 0
  {
    if k > 0 {
      NoneWide(k - 1);
    }
  }

  // There are samples in every window
  lemma StartBeforeEnd(length: nat, w: nat, k: nat)
    requires k > 0 && Start(w, k) <= length && length > 0
    ensures Start(w, k - 1) < End(length, Start(w, k)) <= length
  {
    if w == 0 {
      NoneWide(k);
    }
  }

  // What is known of a window
  datatype Moments = Moments(forward: real, reverse: real, covariance: real)

  function MomentsIn(f: seq<real>, r: seq<real>, lo: nat, hi: nat): Moments
    requires lo < hi <= |f| == |r|
  {
    Moments(VarianceIn(f, lo, hi), VarianceIn(r, lo, hi), if lo + 1 < hi then CovarianceIn(f, r, lo, hi) else 0.0)
  }

  // The windows of w samples and one more, from the start of the series on
  function Windows(f: seq<real>, r: seq<real>, w: nat, k: nat): seq<Moments>
    requires |f| == |r| > 0 && Start(w, k) <= |f|
  {
    if k == 0 then []
    else
      StartBeforeEnd(|f|, w, k);
      Windows(f, r, w, k - 1) + [MomentsIn(f, r, Start(w, k - 1), End(|f|, Start(w, k)))]
  }

  // Both series vary, and by more than the minimum
  predicate Vary(m: Moments, minimumVar: real) {
    m.forward > minimumVar && m.reverse > minimumVar && m.forward > 0.0 && m.reverse > 0.0
  }

  // The sum of the weights of windows that vary
  function Weights(windows: seq<Moments>, minimumVar: real): real {
    if windows == [] then 0.0
    else
      var m := windows[|windows| - 1];
      Weights(windows[..|windows| - 1], minimumVar) + if Vary(m, minimumVar) then m.forward + m.reverse else 0.0
  }

  lemma RootOfVarying(m: Moments, minimumVar: real, sqrt: SquareRoot)
    requires Vary(m, minimumVar) && IsSquareRoot(sqrt)
    ensures sqrt(m.forward * m.reverse) > 0.0
  {
    ProductPositive(m.forward, m.reverse);
    RootPositive(m.forward * m.reverse, sqrt);
  }

  // The covariance over the root of the variances
  function Normalization(m: Moments, minimumVar: real, sqrt: SquareRoot): real
    requires Vary(m, minimumVar) && IsSquareRoot(sqrt)
  {
    RootOfVarying(m, minimumVar, sqrt);
    m.covariance / sqrt(m.forward * m.reverse)
  }

  // The sum of their weights times their normalized covariances
  function Correlated(windows: seq<Moments>, minimumVar: real, sqrt: SquareRoot): real
    requires IsSquareRoot(sqrt)
  {
    if windows == [] then 0.0
    else
      var m := windows[|windows| - 1];
      Correlated(windows[..|windows| - 1], minimumVar, sqrt)
      + if Vary(m, minimumVar) then (m.forward + m.reverse) * Normalization(m, minimumVar, sqrt) else 0.0
  }

  // ---------- the code's terms are these ----------

  ghost predicate Describes(m: Moments, forward: seq<real>, reverse: seq<real>)
    requires |forward| == |reverse| > 0
  {
    && m.forward == Variance(forward) && m.reverse == Variance(reverse)
    && (|forward| >= 2 ==> m.covariance == Covariance(forward, reverse))
  }

  lemma {:induction false} MomentsDescribe(f: seq<real>, r: seq<real>, lo: nat, hi: nat)
    requires lo < hi <= |f| == |r|
    ensures Describes(MomentsIn(f, r, lo, hi), f[lo..hi], r[lo..hi])
  {
    VarianceIs(f, lo, hi);
    VarianceIs(r, lo, hi);
    if lo + 1 < hi {
      CovarianceIs(f, r, lo, hi);
    }
  }

  function TermOf(m: Moments, minimumVar: real, sqrt: SquareRoot): seq<(real, real)>
    requires IsSquareRoot(sqrt)
  {
    if Vary(m, minimumVar) then [(m.forward + m.reverse, Normalization(m, minimumVar, sqrt))] else []
  }

  lemma {:induction false} TermIs(forward: seq<real>, reverse: seq<real>, m: Moments, minimumVar: real,
                                  sqrt: SquareRoot)
    requires |forward| == |reverse| > 0 && minimumVar >= 0.0 && IsSquareRoot(sqrt) && Describes(m, forward, reverse)
    ensures Contribution(forward, reverse, minimumVar, sqrt) == TermOf(m, minimumVar, sqrt)
  {
    if Varies(forward, reverse, minimumVar) {
      VaryingIsUsable(forward, reverse, minimumVar, sqrt);
      RootOfVarying(m, minimumVar, sqrt);
      QuotientIs(forward, reverse, m, minimumVar, sqrt);
    } else {
      assert !Vary(m, minimumVar);
    }
  }

  lemma SameProduct(a: real, b: real, c: real, d: real)
    requires a == c && b == d
    ensures a * b == c * d
  {
  }

  lemma SameRoot(x: real, y: real, sqrt: SquareRoot)
    requires x == y
    ensures sqrt(x) == sqrt(y)
  {
  }

  lemma {:induction false} QuotientIs(forward: seq<real>, reverse: seq<real>, m: Moments, minimumVar: real,
                                      sqrt: SquareRoot)
    requires |forward| == |reverse| >= 2 && Vary(m, minimumVar) && IsSquareRoot(sqrt) && Describes(m, forward, reverse)
    ensures sqrt(Variance(forward) * Variance(reverse)) > 0.0
    ensures Normalized(forward, reverse, sqrt) == Normalization(m, minimumVar, sqrt)
  {
    RootOfVarying(m, minimumVar, sqrt);
    var root := sqrt(m.forward * m.reverse);
    SameProduct(m.forward, m.reverse, Variance(forward), Variance(reverse));
    SameRoot(m.forward * m.reverse, Variance(forward) * Variance(reverse), sqrt);
    assert sqrt(Variance(forward) * Variance(reverse)) == root;
    assert Normalized(forward, reverse, sqrt) == m.covariance / root;
  }

  function TermsOf(windows: seq<Moments>, minimumVar: real, sqrt: SquareRoot): seq<(real, real)>
    requires IsSquareRoot(sqrt)
  {
    if windows == [] then []
    else TermsOf(windows[..|windows| - 1], minimumVar, sqrt) + TermOf(windows[|windows| - 1], minimumVar, sqrt)
  }

  lemma {:induction false} SumsAre(windows: seq<Moments>, minimumVar: real, sqrt: SquareRoot)
    requires IsSquareRoot(sqrt)
    ensures WeightSum(TermsOf(windows, minimumVar, sqrt)) == Weights(windows, minimumVar)
    ensures WeightedSum(TermsOf(windows, minimumVar, sqrt)) == Correlated(windows, minimumVar, sqrt)
  {
    if windows != [] {
      var front, m := windows[..|windows| - 1], windows[|windows| - 1];
      SumsAre(front, minimumVar, sqrt);
      var terms := TermsOf(front, minimumVar, sqrt);
      if Vary(m, minimumVar) {
        var t := (m.forward + m.reverse, Normalization(m, minimumVar, sqrt));
        assert (terms + [t])[..|terms|] == terms;
      } else {
        assert terms + [] == terms;
      }
    }
  }

  lemma {:induction false} WindowIs(s: seq<real>, w: nat, k: nat)
    requires k > 0 && Start(w, k) <= |s| && s != []
    ensures k * w <= |s| && (k - 1) * w <= |s|
    ensures Start(w, k - 1) < End(|s|, Start(w, k)) <= |s|
    ensures Window(s, w, k - 1) == s[Start(w, k - 1)..End(|s|, Start(w, k))]
  {
    StartIs(w, k);
    StartIs(w, k - 1);
    StartBeforeEnd(|s|, w, k);
  }

  ghost predicate AllDescribed(windows: seq<Moments>, f: seq<real>, r: seq<real>, w: nat)
    requires |f| == |r| > 0
  {
    forall i :: 0 <= i < |windows| ==>
      (i + 1) * w <= |f| && Describes(windows[i], Window(f, w, i), Window(r, w, i))
  }

  lemma {:induction false} WindowsDescribe(f: seq<real>, r: seq<real>, w: nat, k: nat)
    requires |f| == |r| > 0 && Start(w, k) <= |f|
    ensures |Windows(f, r, w, k)| == k && AllDescribed(Windows(f, r, w, k), f, r, w)
  {
    if k > 0 {
      WindowsDescribe(f, r, w, k - 1);
      var m := NextWindow(f, r, w, k);
    }
  }

  lemma {:induction false} NextWindow(f: seq<real>, r: seq<real>, w: nat, k: nat) returns (m: Moments)
    requires |f| == |r| > 0 && k > 0 && Start(w, k) <= |f|
    ensures Windows(f, r, w, k) == Windows(f, r, w, k - 1) + [m]
    ensures k * w <= |f| && Describes(m, Window(f, w, k - 1), Window(r, w, k - 1))
  {
    WindowIs(f, w, k);
    WindowIs(r, w, k);
    m := MomentsIn(f, r, Start(w, k - 1), End(|f|, Start(w, k)));
    MomentsDescribe(f, r, Start(w, k - 1), End(|f|, Start(w, k)));
  }

  lemma {:induction false} TermsAre(windows: seq<Moments>, f: seq<real>, r: seq<real>, w: nat,
                                    minimumVar: real, sqrt: SquareRoot)
    requires |f| == |r| > 0 && |windows| * w <= |f| && minimumVar >= 0.0 && IsSquareRoot(sqrt)
    requires AllDescribed(windows, f, r, w)
    ensures Contributions(f, r, w, |windows|, minimumVar, sqrt) == TermsOf(windows, minimumVar, sqrt)
  {
    if windows != [] {
      var k := |windows| - 1;
      EarlierWindowFits(k + 1, w, |f|);
      TermsAre(windows[..k], f, r, w, minimumVar, sqrt);
      LastTerm(windows[k], f, r, w, k, minimumVar, sqrt);
    }
  }

  lemma {:induction false} LastTerm(m: Moments, f: seq<real>, r: seq<real>, w: nat, k: nat,
                                    minimumVar: real, sqrt: SquareRoot)
    requires |f| == |r| > 0 && k * w <= |f| && (k + 1) * w <= |f| && minimumVar >= 0.0 && IsSquareRoot(sqrt)
    requires Describes(m, Window(f, w, k), Window(r, w, k))
    ensures Contributions(f, r, w, k + 1, minimumVar, sqrt)
            == Contributions(f, r, w, k, minimumVar, sqrt) + TermOf(m, minimumVar, sqrt)
  {
    TermIs(Window(f, w, k), Window(r, w, k), m, minimumVar, sqrt);
  }

  // ---------- what is reported ----------

  lemma {:induction false} AverageTimes(terms: seq<(real, real)>, bound: real)
    requires TermsWithin(terms, bound) && bound >= 0.0
    ensures IsWeightedMean(Average(terms), WeightSum(terms), WeightedSum(terms))
  {
    SumsWithin(terms, bound);
    if WeightSum(terms) > 0.0 {
      QuotientTimes(WeightedSum(terms), WeightSum(terms));
    }
  }

  lemma {:induction false} OutcomeIsAverage(f: seq<real>, r: seq<real>, n: int, minWindowSize: int, minimumVar: real,
                                            sqrt: SquareRoot)
    requires |f| == |r| > 0 && n > 0 && n * (|f| / n) <= |f| && IsSquareRoot(sqrt)
    ensures var outcome := OutcomeOf(f, r, n, minWindowSize, minimumVar, sqrt);
            outcome.Factor? ==> outcome.value == Average(Contributions(f, r, |f| / n, n, AtLeastZero(minimumVar), sqrt))
  {
  }

  // A negative minimum is no different from 0
  lemma {:induction false} NegativeMinimum(windows: seq<Moments>, minimumVar: real, sqrt: SquareRoot)
    requires IsSquareRoot(sqrt)
    ensures Weights(windows, minimumVar) == Weights(windows, AtLeastZero(minimumVar))
    ensures Correlated(windows, minimumVar, sqrt) == Correlated(windows, AtLeastZero(minimumVar), sqrt)
  {
    if windows != [] {
      NegativeMinimum(windows[..|windows| - 1], minimumVar, sqrt);
    }
  }

  // v is the mean of the normalized covariances, weighted by the variances, and 0 if no window varies
  predicate IsWeightedMean(v: real, weights: real, correlated: real) {
    v * weights == correlated && (weights == 0.0 ==> v == 0.0)
  }

  lemma {:induction false} AverageOfTerms(f: seq<real>, r: seq<real>, w: nat, n: nat, minimumVar: real,
                                          sqrt: SquareRoot)
    requires |f| == |r| > 0 && n * w <= |f| && minimumVar >= 0.0 && IsSquareRoot(sqrt)
    ensures var terms := Contributions(f, r, w, n, minimumVar, sqrt);
            IsWeightedMean(Average(terms), WeightSum(terms), WeightedSum(terms))
  {
    ContributionsWithin(f, r, w, n, minimumVar, sqrt);
    AverageTimes(Contributions(f, r, w, n, minimumVar, sqrt), Bound(w));
  }

  lemma {:induction false} AverageIs(f: seq<real>, r: seq<real>, w: nat, n: nat, minimumVar: real, sqrt: SquareRoot)
    requires |f| == |r| > 0 && Start(w, n) <= |f| && n * w <= |f| && minimumVar >= 0.0 && IsSquareRoot(sqrt)
    ensures IsWeightedMean(Average(Contributions(f, r, w, n, minimumVar, sqrt)),
                           Weights(Windows(f, r, w, n), minimumVar), Correlated(Windows(f, r, w, n), minimumVar, sqrt))
  {
    AverageOfTerms(f, r, w, n, minimumVar, sqrt);
    WindowsDescribe(f, r, w, n);
    TermsAre(Windows(f, r, w, n), f, r, w, minimumVar, sqrt);
    SumsAre(Windows(f, r, w, n), minimumVar, sqrt);
  }

  // For all settings, whatever number is reported
  lemma {:induction false} FactorIs(f: seq<real>, r: seq<real>, n: int, w: nat, minWindowSize: int, minimumVar: real,
                                    sqrt: SquareRoot)
    requires |f| == |r| > 0 && n > 0 && w == |f| / n && IsSquareRoot(sqrt)
    ensures Start(w, n) <= |f|
    ensures var outcome, windows := OutcomeOf(f, r, n, minWindowSize, minimumVar, sqrt), Windows(f, r, w, n);
            outcome.Factor? ==>
              IsWeightedMean(outcome.value, Weights(windows, minimumVar), Correlated(windows, minimumVar, sqrt))
  {
    var least := AtLeastZero(minimumVar);
    WindowLength(|f|, n);
    StartIs(w, n);
    OutcomeIsAverage(f, r, n, minWindowSize, minimumVar, sqrt);
    AverageIs(f, r, w, n, least, sqrt);
    NegativeMinimum(Windows(f, r, w, n), minimumVar, sqrt);
  }

  // When there is no number to report: too few samples, no windows, no samples at all, or a window in
  // which one of the series does not vary and that a negative minimum does not skip
  lemma {:induction false} OutcomeKinds(f: seq<real>, r: seq<real>, n: int, minWindowSize: int, minimumVar: real,
                                        sqrt: SquareRoot)
    requires |f| == |r| && IsSquareRoot(sqrt)
    ensures var outcome, enough := OutcomeOf(f, r, n, minWindowSize, minimumVar, sqrt), |f| >= minWindowSize * n;
            && (outcome == TooFew <==> !enough)
            && (outcome == DivisionByZero <==> enough && n == 0)
            && (enough && n < 0 ==> outcome == Factor(0.0))
            && (outcome == NotANumber ==> enough && n > 0 && (f == [] || minimumVar < 0.0))
            && (enough && n > 0 && f == [] ==> outcome == NotANumber)
  {
  }

  lemma {:induction false} StillWindowIsNaN(f: seq<real>, r: seq<real>, n: int, w: nat, minWindowSize: int,
                                            minimumVar: real, sqrt: SquareRoot)
    requires |f| == |r| > 0 && n > 0 && w == |f| / n && minimumVar < 0.0 && IsSquareRoot(sqrt)
    requires |f| >= minWindowSize * n
    ensures Start(w, n) <= |f|
    ensures var windows := Windows(f, r, w, n);
            OutcomeOf(f, r, n, minWindowSize, minimumVar, sqrt) == NotANumber
            <==> exists m :: m in windows && (m.forward <= 0.0 || m.reverse <= 0.0)
  {
    WindowLength(|f|, n);
    StartIs(w, n);
    WindowsDescribe(f, r, w, n);
    AllVaryIs(Windows(f, r, w, n), f, r, w);
  }

  lemma {:induction false} AllVaryIs(windows: seq<Moments>, f: seq<real>, r: seq<real>, w: nat)
    requires |f| == |r| > 0 && |windows| * w <= |f| && AllDescribed(windows, f, r, w)
    ensures AllVary(f, r, w, |windows|) <==> forall m :: m in windows ==> m.forward > 0.0 && m.reverse > 0.0
  {
    if AllVary(f, r, w, |windows|) {
      forall m | m in windows ensures m.forward > 0.0 && m.reverse > 0.0 {
        var i :| 0 <= i < |windows| && windows[i] == m;
        assert (i + 1) * w <= |f|;
        WindowVaries(windows, f, r, w, i);
      }
    } else {
      var i := StillWindow(f, r, w, |windows|);
      WindowVaries(windows, f, r, w, i);
      assert windows[i] in windows;
    }
  }

  lemma {:induction false} StillWindow(f: seq<real>, r: seq<real>, w: nat, k: nat) returns (i: nat)
    requires |f| == |r| > 0 && k * w <= |f| && !AllVary(f, r, w, k)
    ensures i < k && (i + 1) * w <= |f| && !Varies(Window(f, w, i), Window(r, w, i), 0.0)
  {
    i :| 0 <= i < k && (i + 1) * w <= |f| && !Varies(Window(f, w, i), Window(r, w, i), 0.0);
  }

  lemma {:induction false} WindowVaries(windows: seq<Moments>, f: seq<real>, r: seq<real>, w: nat, i: nat)
    requires |f| == |r| > 0 && i < |windows| && (i + 1) * w <= |f| && AllDescribed(windows, f, r, w)
    ensures Varies(Window(f, w, i), Window(r, w, i), 0.0) <==> windows[i].forward > 0.0 && windows[i].reverse > 0.0
  {
    assert Describes(windows[i], Window(f, w, i), Window(r, w, i));
  }
}
