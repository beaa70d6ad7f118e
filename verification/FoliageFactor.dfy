/**
  The foliage factor of a link: covariance of forward and reverse path loss over windows of common
  samples, normalized by the variances and averaged with the variances as weights.

  Numbers are reals; the square root is a parameter known only by its defining property, and the
  final rounding to three digits is not modelled.
 */
module FoliageFactor {
  import opened Options

  // ---------- numpy's statistics ----------

  function Sum(s: seq<real>): real {
    if s == [] then 0.0 else Sum(s[..|s| - 1]) + s[|s| - 1]
  }

  function Dot(a: seq<real>, b: seq<real>): real
    requires |a| == |b|
  {
    if a == [] then 0.0 else Dot(a[..|a| - 1], b[..|b| - 1]) + a[|a| - 1] * b[|b| - 1]
  }

  function Mean(s: seq<real>): real
    requires s != []
  {
    Sum(s) / |s| as real
  }

  function Centered(s: seq<real>): (c: seq<real>)
    requires s != []
    ensures |c| == |s|
  {
    seq(|s|, i requires 0 <= i < |s| => s[i] - Mean(s))
  }

  // np.var divides by the number of samples
  function Variance(s: seq<real>): real
    requires s != []
  {
    Dot(Centered(s), Centered(s)) / |s| as real
  }

  // np.cov divides by one less
  function Covariance(a: seq<real>, b: seq<real>): real
    requires |a| == |b| >= 2
  {
    Dot(Centered(a), Centered(b)) / (|a| - 1) as real
  }

  // ---------- Cauchy-Schwarz ----------

  lemma SquareNonNegative(x: real)
    ensures x * x >= 0.0
  {
  }

  lemma SquarePositive(x: real)
    requires x != 0.0
    ensures x * x > 0.0
  {
  }

  lemma {:induction false} DotSelfNonNegative(a: seq<real>)
    ensures Dot(a, a) >= 0.0
  {
    if a != [] {
      DotSelfNonNegative(a[..|a| - 1]);
      SquareNonNegative(a[|a| - 1]);
    }
  }

  predicate NonNegativeForm(aa: real, ab: real, bb: real, s: real, t: real) {
    s * s * aa - 2.0 * (s * t * ab) + t * t * bb >= 0.0
  }

  // The sum of (s a_i - t b_i)^2
  lemma {:induction false} Quadratic(a: seq<real>, b: seq<real>, s: real, t: real)
    requires |a| == |b|
    ensures NonNegativeForm(Dot(a, a), Dot(a, b), Dot(b, b), s, t)
  {
    if a != [] {
      var n := |a| - 1;
      var x, y := a[n], b[n];
      var aa, ab, bb := Dot(a[..n], a[..n]), Dot(a[..n], b[..n]), Dot(b[..n], b[..n]);
      Quadratic(a[..n], b[..n], s, t);
      QuadraticStep(aa, ab, bb, s, t, x, y);
    }
  }

  lemma QuadraticStep(aa: real, ab: real, bb: real, s: real, t: real, x: real, y: real)
    requires NonNegativeForm(aa, ab, bb, s, t)
    ensures NonNegativeForm(aa + x * x, ab + x * y, bb + y * y, s, t)
  {
    SquareNonNegative(s * x - t * y);
    assert (s * x - t * y) * (s * x - t * y) == s * s * (x * x) - 2.0 * (s * t * (x * y)) + t * t * (y * y);
    assert s * s * (aa + x * x) == s * s * aa + s * s * (x * x);
    assert s * t * (ab + x * y) == s * t * ab + s * t * (x * y);
    assert t * t * (bb + y * y) == t * t * bb + t * t * (y * y);
  }

  lemma {:induction false} ZeroVector(a: seq<real>, b: seq<real>)
    requires |a| == |b| && Dot(a, a) == 0.0
    ensures Dot(a, b) == 0.0
  {
    if a != [] {
      var n := |a| - 1;
      DotSelfNonNegative(a[..n]);
      SquareNonNegative(a[n]);
      if a[n] != 0.0 {
        SquarePositive(a[n]);
      }
      ZeroVector(a[..n], b[..n]);
    }
  }

  lemma CauchySchwarz(a: seq<real>, b: seq<real>)
    requires |a| == |b|
    ensures Dot(a, b) * Dot(a, b) <= Dot(a, a) * Dot(b, b)
  {
    var aa, ab, bb := Dot(a, a), Dot(a, b), Dot(b, b);
    DotSelfNonNegative(a);
    if aa == 0.0 {
      ZeroVector(a, b);
    } else {
      Quadratic(a, b, ab, aa);
      Discriminant(aa, ab, bb);
    }
  }

  lemma Discriminant(aa: real, ab: real, bb: real)
    requires aa > 0.0 && NonNegativeForm(aa, ab, bb, ab, aa)
    ensures ab * ab <= aa * bb
  {
    assert ab * ab * aa - 2.0 * (ab * aa * ab) + aa * aa * bb == aa * (aa * bb - ab * ab);
    if aa * bb - ab * ab < 0.0 {
      NegativeProduct(aa, aa * bb - ab * ab);
    }
  }

  lemma NegativeProduct(x: real, y: real)
    requires x > 0.0 && y < 0.0
    ensures x * y < 0.0
  {
  }

  // ---------- one window ----------

  type SquareRoot = real -> real

  ghost predicate IsSquareRoot(sqrt: SquareRoot) {
    forall x :: x >= 0.0 ==> sqrt(x) >= 0.0 && sqrt(x) * sqrt(x) == x
  }

  predicate Varies(forward: seq<real>, reverse: seq<real>, minimumVar: real)
    requires |forward| == |reverse| > 0
  {
    Variance(forward) > minimumVar && Variance(reverse) > minimumVar
  }

  lemma SingleSampleIsStable(s: seq<real>)
    requires |s| == 1
    ensures Variance(s) == 0.0
  {
    assert s[..0] == [];
    assert Sum(s) == Sum(s[..0]) + s[0] == s[0];
    QuotientTimes(s[0], 1.0);
    assert Mean(s) == s[0];
    var c := Centered(s);
    assert c == [0.0] && c[..0] == [];
    assert Dot(c, c) == Dot(c[..0], c[..0]) + 0.0 * 0.0 == 0.0;
    QuotientTimes(0.0, 1.0);
  }

  lemma QuotientTimes(x: real, y: real)
    requires y != 0.0
    ensures x / y * y == x
  {
  }

  lemma Distribute(x: real, y: real, z: real)
    ensures (x - y) * z == x * z - y * z
  {
  }

  lemma ProductPositive(x: real, y: real)
    requires x > 0.0 && y > 0.0
    ensures x * y > 0.0
  {
  }

  lemma RootPositive(x: real, sqrt: SquareRoot)
    requires IsSquareRoot(sqrt) && x > 0.0
    ensures sqrt(x) > 0.0
  {
  }

  function Normalized(forward: seq<real>, reverse: seq<real>, sqrt: SquareRoot): real
    requires |forward| == |reverse| >= 2 && sqrt(Variance(forward) * Variance(reverse)) != 0.0
  {
    Covariance(forward, reverse) / sqrt(Variance(forward) * Variance(reverse))
  }

  lemma SquareGrows(x: real, y: real)
    requires 0.0 <= y < x
    ensures x * x > y * y
  {
    ProductPositive(x - y, x);
    assert x * x == y * x + (x - y) * x;
    assert y * (x - y) >= 0.0;
  }

  lemma AbsFromSquares(x: real, y: real)
    requires y >= 0.0 && x * x <= y * y
    ensures -y <= x <= y
  {
    if x > y {
      SquareGrows(x, y);
    } else if -x > y {
      SquareGrows(-x, y);
    }
  }

  lemma NormalizedTimesRoot(forward: seq<real>, reverse: seq<real>, sqrt: SquareRoot, root: real)
    requires |forward| == |reverse| >= 2 && root == sqrt(Variance(forward) * Variance(reverse)) && root != 0.0
    ensures Normalized(forward, reverse, sqrt) * root == Covariance(forward, reverse)
  {
    QuotientTimes(Covariance(forward, reverse), root);
  }

  // The normalized covariance of m samples is at most m / (m - 1) in size
  lemma NormalizedBound(forward: seq<real>, reverse: seq<real>, minimumVar: real, sqrt: SquareRoot)
    requires IsSquareRoot(sqrt) && minimumVar >= 0.0
    requires |forward| == |reverse| >= 2 && Varies(forward, reverse, minimumVar)
    ensures var root := sqrt(Variance(forward) * Variance(reverse));
            var m := |forward| as real;
            root > 0.0 && -m <= Normalized(forward, reverse, sqrt) * (m - 1.0) <= m
  {
    var root, m := sqrt(Variance(forward) * Variance(reverse)), |forward| as real;
    ProductPositive(Variance(forward), Variance(reverse));
    RootPositive(Variance(forward) * Variance(reverse), sqrt);
    DotBound(forward, reverse, root);
    NormalizedTimesRoot(forward, reverse, sqrt, root);
    QuotientTimes(Dot(Centered(forward), Centered(reverse)), m - 1.0);
    DivideOut(Normalized(forward, reverse, sqrt), m - 1.0, root, m, Covariance(forward, reverse),
              Dot(Centered(forward), Centered(reverse)));
  }

  lemma DotBound(forward: seq<real>, reverse: seq<real>, root: real)
    requires |forward| == |reverse| >= 2
    requires root >= 0.0 && root * root == Variance(forward) * Variance(reverse)
    ensures var ab, m := Dot(Centered(forward), Centered(reverse)), |forward| as real;
            -(m * root) <= ab <= m * root
  {
    var m := |forward| as real;
    VarianceTimes(forward, m);
    VarianceTimes(reverse, m);
    VectorBound(Centered(forward), Centered(reverse), Variance(forward), Variance(reverse), m, root);
  }

  lemma VectorBound(a: seq<real>, b: seq<real>, va: real, vb: real, m: real, root: real)
    requires |a| == |b| && Dot(a, a) == va * m && Dot(b, b) == vb * m
    requires m > 0.0 && root >= 0.0 && root * root == va * vb
    ensures -(m * root) <= Dot(a, b) <= m * root
  {
    CauchySchwarz(a, b);
    FromVariances(Dot(a, a), Dot(b, b), Dot(a, b), va, vb, m, root);
  }

  lemma VarianceTimes(s: seq<real>, m: real)
    requires s != [] && m == |s| as real
    ensures Variance(s) * m == Dot(Centered(s), Centered(s))
  {
    QuotientTimes(Dot(Centered(s), Centered(s)), m);
  }

  lemma FromVariances(aa: real, bb: real, ab: real, va: real, vb: real, m: real, root: real)
    requires aa == va * m && bb == vb * m && ab * ab <= aa * bb
    requires m > 0.0 && root >= 0.0 && root * root == va * vb
    ensures -(m * root) <= ab <= m * root
  {
    ScaledRoot(va, vb, m, root);
    assert m * root >= 0.0;
    AbsFromSquares(ab, m * root);
  }

  lemma ScaledRoot(va: real, vb: real, m: real, root: real)
    requires root * root == va * vb
    ensures (va * m) * (vb * m) == (m * root) * (m * root)
  {
    assert (va * m) * (vb * m) == m * m * (va * vb);
    assert (m * root) * (m * root) == m * m * (root * root);
  }

  lemma DivideOut(x: real, k: real, root: real, m: real, cov: real, ab: real)
    requires root > 0.0 && x * root == cov && cov * k == ab && -(m * root) <= ab <= m * root
    ensures -m <= x * k <= m
  {
    assert cov * k == (x * k) * root;
    if x * k > m {
      ProductPositive(x * k - m, root);
      Distribute(x * k, m, root);
    } else if x * k < -m {
      ProductPositive(-m - x * k, root);
      Distribute(-m, x * k, root);
    }
  }

  // Two identical series are not at 1 but at m / (m - 1), because the two divisors differ
  lemma IdenticalSeriesExceedOne(s: seq<real>, sqrt: SquareRoot)
    requires IsSquareRoot(sqrt) && |s| >= 2 && Variance(s) > 0.0
    ensures sqrt(Variance(s) * Variance(s)) == Variance(s)
    ensures Normalized(s, s, sqrt) * (|s| as real - 1.0) == |s| as real
  {
    var m, root := |s| as real, sqrt(Variance(s) * Variance(s));
    SquareNonNegative(Variance(s));
    EqualSquares(root, Variance(s));
    NormalizedTimesRoot(s, s, sqrt, root);
    VarianceTimes(s, m);
    QuotientTimes(Dot(Centered(s), Centered(s)), m - 1.0);
    SolveFor(Normalized(s, s, sqrt), Variance(s), m, Covariance(s, s));
  }

  // One window's factor stays within 1 exactly when the centered series are not too much alike
  lemma WithinOneExact(forward: seq<real>, reverse: seq<real>, minimumVar: real, sqrt: SquareRoot)
    requires IsSquareRoot(sqrt) && minimumVar >= 0.0
    requires |forward| == |reverse| >= 2 && Varies(forward, reverse, minimumVar)
    ensures var m, a, b := |forward| as real, Centered(forward), Centered(reverse);
            sqrt(Variance(forward) * Variance(reverse)) != 0.0
            && (-1.0 <= Normalized(forward, reverse, sqrt) <= 1.0 <==> NotTooAlike(m, Dot(a, a), Dot(a, b), Dot(b, b)))
  {
    var m, root := |forward| as real, sqrt(Variance(forward) * Variance(reverse));
    var ab := Dot(Centered(forward), Centered(reverse));
    ProductPositive(Variance(forward), Variance(reverse));
    RootPositive(Variance(forward) * Variance(reverse), sqrt);
    NormalizedTimesRoot(forward, reverse, sqrt, root);
    QuotientTimes(ab, m - 1.0);
    VarianceTimes(forward, m);
    VarianceTimes(reverse, m);
    ScaledRoot(Variance(forward), Variance(reverse), m, root);
    WithinOne(Normalized(forward, reverse, sqrt), root, m, Covariance(forward, reverse), ab,
              Dot(Centered(forward), Centered(forward)), Dot(Centered(reverse), Centered(reverse)));
  }

  // The correlation of the m samples is at most (m - 1) / m in size
  predicate NotTooAlike(m: real, aa: real, ab: real, bb: real) {
    (m * ab) * (m * ab) <= ((m - 1.0) * (m - 1.0)) * (aa * bb)
  }

  lemma WithinOne(x: real, root: real, m: real, cov: real, ab: real, aa: real, bb: real)
    requires root > 0.0 && m >= 2.0 && x * root == cov && cov * (m - 1.0) == ab
    requires aa * bb == (m * root) * (m * root)
    ensures -1.0 <= x <= 1.0 <==> NotTooAlike(m, aa, ab, bb)
  {
    var scale := (m - 1.0) * (m * root);
    ProductPositive(m, root);
    ProductPositive(m - 1.0, m * root);
    assert m * ab == x * scale by {
      assert ab == (x * root) * (m - 1.0);
      assert m * ((x * root) * (m - 1.0)) == x * ((m - 1.0) * (m * root));
    }
    assert ((m - 1.0) * (m - 1.0)) * (aa * bb) == scale * scale by {
      assert ((m - 1.0) * (m - 1.0)) * ((m * root) * (m * root)) == scale * scale;
    }
    var p, q := m * ab, scale * scale;
    ScaleWithin(x, p, scale, q);
    AlikeMeans(m, aa, ab, bb, p, q);
  }

  lemma AlikeMeans(m: real, aa: real, ab: real, bb: real, p: real, q: real)
    requires m * ab == p && ((m - 1.0) * (m - 1.0)) * (aa * bb) == q
    ensures NotTooAlike(m, aa, ab, bb) <==> p * p <= q
  {
  }

  lemma ScaleWithin(x: real, p: real, scale: real, q: real)
    requires scale > 0.0 && p == x * scale && q == scale * scale
    ensures -1.0 <= x <= 1.0 <==> p * p <= q
  {
    assert 1.0 * scale == scale && -1.0 * scale == -scale;
    if -1.0 <= x <= 1.0 {
      WeightTimesFactor(scale, x, 1.0);
      assert scale * x == p;
      SquareWithin(p, scale);
    } else if p * p <= q {
      AbsFromSquares(p, scale);
      LessByFactor(x, 1.0, scale);
      LessByFactor(-1.0, x, scale);
    }
  }

  lemma SquareWithin(x: real, y: real)
    requires -y <= x <= y
    ensures x * x <= y * y
  {
    assert (y - x) * (y + x) >= 0.0;
    assert (y - x) * (y + x) == y * y - x * x;
  }

  lemma EqualSquares(x: real, y: real)
    requires x >= 0.0 && y >= 0.0 && x * x == y * y
    ensures x == y
  {
    AbsFromSquares(x, y);
    AbsFromSquares(y, x);
  }

  lemma SolveFor(x: real, v: real, m: real, cov: real)
    requires v > 0.0 && x * v == cov && cov * (m - 1.0) == v * m
    ensures x * (m - 1.0) == m
  {
    assert (x * (m - 1.0) - m) * v == 0.0 by {
      Distribute(x * (m - 1.0), m, v);
      assert x * (m - 1.0) * v == (x * v) * (m - 1.0);
    }
  }

  // ---------- all windows ----------

  function WindowEnd(length: nat, w: nat, i: nat): nat {
    if (i + 1) * w + 1 < length then (i + 1) * w + 1 else length
  }

  // Slices overlap by one sample; the last one is cut off at the end of the list
  function Window(s: seq<real>, w: nat, i: nat): seq<real>
    requires s != [] && (i + 1) * w <= |s|
    ensures w <= |Window(s, w, i)| <= w + 1 && Window(s, w, i) != []
  {
    assert (i + 1) * w == i * w + w;
    s[i * w..WindowEnd(|s|, w, i)]
  }

  // weight and factor of a window that varies enough
  function Contribution(forward: seq<real>, reverse: seq<real>, minimumVar: real, sqrt: SquareRoot): seq<(real, real)>
    requires |forward| == |reverse| > 0 && minimumVar >= 0.0 && IsSquareRoot(sqrt)
  {
    if Varies(forward, reverse, minimumVar) then
      VaryingIsUsable(forward, reverse, minimumVar, sqrt);
      [(Variance(forward) + Variance(reverse), Normalized(forward, reverse, sqrt))]
    else
      []
  }

  lemma VaryingIsUsable(forward: seq<real>, reverse: seq<real>, minimumVar: real, sqrt: SquareRoot)
    requires |forward| == |reverse| > 0 && minimumVar >= 0.0 && IsSquareRoot(sqrt)
    requires Varies(forward, reverse, minimumVar)
    ensures |forward| >= 2 && sqrt(Variance(forward) * Variance(reverse)) > 0.0
  {
    if |forward| == 1 {
      SingleSampleIsStable(forward);
    }
    ProductPositive(Variance(forward), Variance(reverse));
    RootPositive(Variance(forward) * Variance(reverse), sqrt);
  }

  lemma EarlierWindowFits(k: nat, w: nat, length: nat)
    requires k > 0 && k * w <= length
    ensures (k - 1) * w <= length
  {
    assert k * w == (k - 1) * w + w;
  }

  function Contributions(forward: seq<real>, reverse: seq<real>, w: nat, k: nat, minimumVar: real, sqrt: SquareRoot):
    seq<(real, real)>
    requires |forward| == |reverse| > 0 && k * w <= |forward| && minimumVar >= 0.0 && IsSquareRoot(sqrt)
  {
    if k == 0 then []
    else
      EarlierWindowFits(k, w, |forward|);
      Contributions(forward, reverse, w, k - 1, minimumVar, sqrt)
      + Contribution(Window(forward, w, k - 1), Window(reverse, w, k - 1), minimumVar, sqrt)
  }

  function WeightSum(terms: seq<(real, real)>): real {
    if terms == [] then 0.0 else WeightSum(terms[..|terms| - 1]) + terms[|terms| - 1].0
  }

  function WeightedSum(terms: seq<(real, real)>): real {
    if terms == [] then 0.0
    else WeightedSum(terms[..|terms| - 1]) + terms[|terms| - 1].0 * terms[|terms| - 1].1
  }

  function Average(terms: seq<(real, real)>): real {
    if WeightSum(terms) > 0.0 then WeightedSum(terms) / WeightSum(terms) else WeightedSum(terms)
  }

  // A set in some order, the way Python walks through it
  ghost predicate Lists<T(!new)>(order: seq<T>, s: set<T>) {
    && (forall i, j :: 0 <= i < j < |order| ==> order[i] != order[j])
    && (forall i :: 0 <= i < |order| ==> order[i] in s)
    && forall x :: x in s ==> x in order
  }

  method ListInSomeOrder<T(==, !new)>(s: set<T>) returns (order: seq<T>)
    ensures Lists(order, s)
  {
    order := [];
    var rest := s;
    while rest != {}
      invariant rest <= s && Lists(order, s - rest)
      decreases |rest|
    {
      var x :| x in rest;
      order := order + [x];
      rest := rest - {x};
    }
  }

  // TooFew stands for None, NotANumber for NaN, DivisionByZero for the exception of a window length
  // with no windows
  datatype Outcome = TooFew | DivisionByZero | NotANumber | Factor(value: real)

  // No window makes numpy divide by zero
  ghost predicate AllVary(forward: seq<real>, reverse: seq<real>, w: nat, k: nat)
    requires |forward| == |reverse| > 0 && k * w <= |forward|
  {
    forall i {:trigger Window(forward, w, i)} :: 0 <= i < k && (i + 1) * w <= |forward| ==>
      Varies(Window(forward, w, i), Window(reverse, w, i), 0.0)
  }

  // For all series and settings.  A negative minimum skips no window, so that every one has to vary
  ghost function OutcomeOf(forward: seq<real>, reverse: seq<real>, numberOfWindows: int, minWindowSize: int,
                           minimumVar: real, sqrt: SquareRoot): Outcome
    requires |forward| == |reverse| && IsSquareRoot(sqrt)
  {
    if |forward| < minWindowSize * numberOfWindows then TooFew
    else if numberOfWindows == 0 then DivisionByZero
    else if numberOfWindows < 0 then Factor(0.0)
    else if forward == [] then NotANumber
    else
      var w := |forward| / numberOfWindows;
      WindowLength(|forward|, numberOfWindows);
      if minimumVar < 0.0 && !AllVary(forward, reverse, w, numberOfWindows) then NotANumber
      else Factor(Average(Contributions(forward, reverse, w, numberOfWindows, AtLeastZero(minimumVar), sqrt)))
  }

  function AtLeastZero(x: real): (r: real)
    ensures r >= 0.0
  {
    if x < 0.0 then 0.0 else x
  }

  // common lists the times that both directions have
  method ComputeFoliageFactor(forward: map<int, real>, reverse: map<int, real>,
                              numberOfWindows: int, minWindowSize: int, minimumVar: real, sqrt: SquareRoot)
    returns (common: seq<int>, outcome: Outcome)
    requires IsSquareRoot(sqrt)
    ensures Lists(common, forward.Keys * reverse.Keys)
    ensures outcome == OutcomeOf(Values(forward, common), Values(reverse, common), numberOfWindows, minWindowSize,
                                 minimumVar, sqrt)
  {
    common := ListInSomeOrder(forward.Keys * reverse.Keys);
    outcome := FactorOfSeries(Values(forward, common), Values(reverse, common), numberOfWindows, minWindowSize,
                              minimumVar, sqrt);
  }

  method FactorOfSeries(forward: seq<real>, reverse: seq<real>,
                        numberOfWindows: int, minWindowSize: int, minimumVar: real, sqrt: SquareRoot)
    returns (outcome: Outcome)
    requires IsSquareRoot(sqrt) && |forward| == |reverse|
    ensures outcome == OutcomeOf(forward, reverse, numberOfWindows, minWindowSize, minimumVar, sqrt)
  {
    if |forward| < minWindowSize * numberOfWindows {
      return TooFew;
    }
    if numberOfWindows == 0 {
      return DivisionByZero;
    }
    if numberOfWindows < 0 {
      return Factor(0.0);
    }
    if forward == [] {
      return NotANumber;
    }
    var w := |forward| / numberOfWindows;
    WindowLength(|forward|, numberOfWindows);
    var terms := WindowTerms(forward, reverse, w, numberOfWindows, minimumVar, sqrt);
    if terms.None? {
      return NotANumber;
    }
    var average := WeightedAverage(terms.value);
    outcome := Factor(average);
  }

  method WeightedAverage(terms: seq<(real, real)>) returns (average: real)
    ensures average == Average(terms)
  {
    var weighted, total := 0.0, 0.0;
    for i := 0 to |terms|
      invariant weighted == WeightedSum(terms[..i]) && total == WeightSum(terms[..i])
    {
      assert terms[..i + 1][..i] == terms[..i];
      weighted := weighted + terms[i].0 * terms[i].1;
      total := total + terms[i].0;
    }
    assert terms[..|terms|] == terms;
    average := if total > 0.0 then weighted / total else weighted;
  }

  function Values(loss: map<int, real>, common: seq<int>): (values: seq<real>)
    requires forall i :: 0 <= i < |common| ==> common[i] in loss
    ensures |values| == |common| && forall i :: 0 <= i < |common| ==> values[i] == loss[common[i]]
  {
    seq(|common|, i requires 0 <= i < |common| => loss[common[i]])
  }

  lemma WindowLength(length: nat, n: nat)
    requires n > 0
    ensures n * (length / n) <= length
  {
  }

  // None as soon as a window that is not skipped has a variance of zero
  method WindowTerms(forward: seq<real>, reverse: seq<real>, w: nat, n: nat, minimumVar: real, sqrt: SquareRoot)
    returns (terms: Option<seq<(real, real)>>)
    requires |forward| == |reverse| > 0 && n * w <= |forward| && IsSquareRoot(sqrt)
    ensures terms.None? <==> minimumVar < 0.0 && !AllVary(forward, reverse, w, n)
    ensures terms.Some? ==> terms.value == Contributions(forward, reverse, w, n, AtLeastZero(minimumVar), sqrt)
  {
    var found: seq<(real, real)> := [];
    for i := 0 to n
      invariant i * w <= |forward|
      invariant minimumVar < 0.0 ==> AllVary(forward, reverse, w, i)
      invariant found == Contributions(forward, reverse, w, i, AtLeastZero(minimumVar), sqrt)
    {
      NextWindowFits(i, n, w, |forward|);
      var term := WindowTerm(Window(forward, w, i), Window(reverse, w, i), minimumVar, sqrt);
      if term.None? {
        return None;
      }
      found := found + term.value;
    }
    terms := Some(found);
  }

  method WindowTerm(forward: seq<real>, reverse: seq<real>, minimumVar: real, sqrt: SquareRoot)
    returns (term: Option<seq<(real, real)>>)
    requires |forward| == |reverse| > 0 && IsSquareRoot(sqrt)
    ensures term.None? <==> minimumVar < 0.0 && !Varies(forward, reverse, 0.0)
    ensures term.Some? ==> term.value == Contribution(forward, reverse, AtLeastZero(minimumVar), sqrt)
  {
    VarianceNonNegative(forward);
    VarianceNonNegative(reverse);
    if Variance(forward) <= minimumVar || Variance(reverse) <= minimumVar {
      return Some([]);
    }
    if Variance(forward) == 0.0 || Variance(reverse) == 0.0 {
      return None;
    }
    VaryingIsUsable(forward, reverse, AtLeastZero(minimumVar), sqrt);
    var crossCovariance := Covariance(forward, reverse) / sqrt(Variance(forward) * Variance(reverse));
    term := Some([(Variance(forward) + Variance(reverse), crossCovariance)]);
  }

  lemma VarianceNonNegative(s: seq<real>)
    requires s != []
    ensures Variance(s) >= 0.0
  {
    DotSelfNonNegative(Centered(s));
  }

  lemma NextWindowFits(i: nat, n: nat, w: nat, length: nat)
    requires i < n && n * w <= length
    ensures (i + 1) * w <= length
  {
    FewerFit(n - i - 1, i + 1, w, length);
  }

  lemma {:induction false} FewerFit(extra: nat, k: nat, w: nat, length: nat)
    requires (k + extra) * w <= length
    ensures k * w <= length
  {
    if extra > 0 {
      EarlierWindowFits(k + extra, w, length);
      FewerFit(extra - 1, k, w, length);
    }
  }

  // ---------- the bound ----------

  // 1 + 1 / (w - 1) for windows of at least two samples, and 2 for shorter ones
  function Bound(w: nat): real {
    1.0 + 1.0 / (if w >= 2 then w as real - 1.0 else 1.0)
  }

  lemma FactorWithinBound(x: real, m: real, w: nat)
    requires w as real <= m && m >= 2.0 && -m <= x * (m - 1.0) <= m
    ensures -Bound(w) <= x <= Bound(w)
  {
    var k := if w >= 2 then w as real - 1.0 else 1.0;
    QuotientTimes(1.0, k);
    OneSided(x, m - 1.0, k, 1.0 / k);
    OneSided(-x, m - 1.0, k, 1.0 / k);
  }

  lemma OneSided(x: real, n: real, k: real, inverse: real)
    requires 1.0 <= k <= n && inverse * k == 1.0 && x * n <= n + 1.0
    ensures x <= 1.0 + inverse
  {
    var y := x - 1.0;
    Distribute(x, 1.0, n);
    if y > 0.0 {
      assert y * (n - k) >= 0.0;
      assert y * n == y * k + y * (n - k);
      LessByFactor(y, inverse, k);
    } else {
      LessByFactor(0.0, inverse, k);
    }
  }

  lemma LessByFactor(x: real, y: real, k: real)
    requires k > 0.0 && x * k <= y * k
    ensures x <= y
  {
    if x > y {
      ProductPositive(x - y, k);
      Distribute(x, y, k);
    }
  }

  predicate TermsWithin(terms: seq<(real, real)>, bound: real) {
    forall t :: t in terms ==> t.0 > 0.0 && -bound <= t.1 <= bound
  }

  lemma ContributionWithin(forward: seq<real>, reverse: seq<real>, w: nat, minimumVar: real, sqrt: SquareRoot)
    requires |forward| == |reverse| > 0 && w <= |forward| && minimumVar >= 0.0 && IsSquareRoot(sqrt)
    ensures TermsWithin(Contribution(forward, reverse, minimumVar, sqrt), Bound(w))
  {
    if Varies(forward, reverse, minimumVar) {
      VaryingIsUsable(forward, reverse, minimumVar, sqrt);
      NormalizedBound(forward, reverse, minimumVar, sqrt);
      FactorWithinBound(Normalized(forward, reverse, sqrt), |forward| as real, w);
    }
  }

  lemma WindowWithin(forward: seq<real>, reverse: seq<real>, w: nat, i: nat, minimumVar: real, sqrt: SquareRoot)
    requires |forward| == |reverse| > 0 && (i + 1) * w <= |forward| && minimumVar >= 0.0 && IsSquareRoot(sqrt)
    ensures TermsWithin(Contribution(Window(forward, w, i), Window(reverse, w, i), minimumVar, sqrt), Bound(w))
  {
    ContributionWithin(Window(forward, w, i), Window(reverse, w, i), w, minimumVar, sqrt);
  }

  lemma TermsJoin(a: seq<(real, real)>, b: seq<(real, real)>, bound: real)
    requires TermsWithin(a, bound) && TermsWithin(b, bound)
    ensures TermsWithin(a + b, bound)
  {
  }

  lemma {:induction false} ContributionsWithin(forward: seq<real>, reverse: seq<real>, w: nat, k: nat,
                                               minimumVar: real, sqrt: SquareRoot)
    requires |forward| == |reverse| > 0 && k * w <= |forward| && minimumVar >= 0.0 && IsSquareRoot(sqrt)
    ensures TermsWithin(Contributions(forward, reverse, w, k, minimumVar, sqrt), Bound(w))
  {
    if k > 0 {
      EarlierWindowFits(k, w, |forward|);
      ContributionsWithin(forward, reverse, w, k - 1, minimumVar, sqrt);
      WindowWithin(forward, reverse, w, k - 1, minimumVar, sqrt);
      TermsJoin(Contributions(forward, reverse, w, k - 1, minimumVar, sqrt),
                Contribution(Window(forward, w, k - 1), Window(reverse, w, k - 1), minimumVar, sqrt), Bound(w));
    }
  }

  lemma {:induction false} SumsWithin(terms: seq<(real, real)>, bound: real)
    requires TermsWithin(terms, bound) && bound >= 0.0
    ensures WeightSum(terms) >= 0.0 && (terms != [] ==> WeightSum(terms) > 0.0)
    ensures -(bound * WeightSum(terms)) <= WeightedSum(terms) <= bound * WeightSum(terms)
  {
    if terms != [] {
      var front, t := terms[..|terms| - 1], terms[|terms| - 1];
      SumsWithin(front, bound);
      assert t in terms;
      AddTerm(WeightedSum(front), WeightSum(front), t, bound);
    }
  }

  lemma AddTerm(a: real, wa: real, t: (real, real), bound: real)
    requires -(bound * wa) <= a <= bound * wa && t.0 > 0.0 && -bound <= t.1 <= bound
    ensures -(bound * (wa + t.0)) <= a + t.0 * t.1 <= bound * (wa + t.0)
  {
    match t
    case (weight, x) =>
      WeightTimesFactor(weight, x, bound);
      CombineBounds(a, wa, weight * x, weight, bound);
  }

  lemma CombineBounds(a: real, wa: real, b: real, wb: real, bound: real)
    requires -(bound * wa) <= a <= bound * wa && -(bound * wb) <= b <= bound * wb
    ensures -(bound * (wa + wb)) <= a + b <= bound * (wa + wb)
  {
    assert bound * (wa + wb) == bound * wa + bound * wb;
  }

  lemma WeightTimesFactor(weight: real, x: real, bound: real)
    requires weight > 0.0 && -bound <= x <= bound
    ensures -(bound * weight) <= weight * x <= bound * weight
  {
    assert weight * (bound - x) >= 0.0 && weight * (bound + x) >= 0.0;
    assert weight * (bound - x) == bound * weight - weight * x;
    assert weight * (bound + x) == bound * weight + weight * x;
  }

  lemma AverageWithin(terms: seq<(real, real)>, bound: real)
    requires TermsWithin(terms, bound) && bound >= 0.0
    ensures -bound <= Average(terms) <= bound
  {
    SumsWithin(terms, bound);
    if terms != [] {
      QuotientWithin(WeightedSum(terms), WeightSum(terms), bound);
    }
  }

  lemma QuotientWithin(x: real, y: real, bound: real)
    requires y > 0.0 && -(bound * y) <= x <= bound * y
    ensures -bound <= x / y <= bound
  {
    QuotientTimes(x, y);
    var q := x / y;
    if q > bound {
      ProductPositive(q - bound, y);
      Distribute(q, bound, y);
    } else if q < -bound {
      ProductPositive(-bound - q, y);
      Distribute(-bound, q, y);
    }
  }

  // For every pair of series the factor stays within the bound, which never exceeds 2
  lemma FoliageFactorBound(forward: seq<real>, reverse: seq<real>, w: nat, n: nat, minimumVar: real, sqrt: SquareRoot)
    requires |forward| == |reverse| > 0 && n * w <= |forward| && minimumVar >= 0.0 && IsSquareRoot(sqrt)
    ensures var factor := Average(Contributions(forward, reverse, w, n, minimumVar, sqrt));
            -Bound(w) <= factor <= Bound(w) && Bound(w) <= 2.0
  {
    ContributionsWithin(forward, reverse, w, n, minimumVar, sqrt);
    AverageWithin(Contributions(forward, reverse, w, n, minimumVar, sqrt), Bound(w));
  }

  // Whatever the settings, a number that is reported lies within 2; with a minimum that is not negative
  // and some samples in every window, a number is always reported
  lemma OutcomeWithin(forward: seq<real>, reverse: seq<real>, numberOfWindows: int, minWindowSize: int,
                      minimumVar: real, sqrt: SquareRoot)
    requires |forward| == |reverse| && IsSquareRoot(sqrt)
    ensures var outcome := OutcomeOf(forward, reverse, numberOfWindows, minWindowSize, minimumVar, sqrt);
            && (outcome.Factor? ==> -2.0 <= outcome.value <= 2.0)
            && (minimumVar >= 0.0 && numberOfWindows > 0 && minWindowSize > 0 ==>
                  (outcome.Factor? <==> minWindowSize * numberOfWindows <= |forward|))
  {
    if numberOfWindows > 0 {
      WindowLength(|forward|, numberOfWindows);
      if forward != [] {
        FoliageFactorBound(forward, reverse, |forward| / numberOfWindows, numberOfWindows,
                           AtLeastZero(minimumVar), sqrt);
      } else if minWindowSize > 0 {
        ProductAtLeastOne(minWindowSize, numberOfWindows);
      }
    }
  }

  lemma ProductAtLeastOne(m: int, n: int)
    requires m > 0 && n > 0
    ensures m * n > 0
  {
  }
}
