/** What a served forecast means: it follows the fitted trend, and it continues a
    periodic series exactly. */
module ForecastMeaning {
  import opened Seasonal
  import opened Forecast

  function NonNegative(v: real): real { if v < 0.0 then 0.0 else v }

  // ---- The trend ----

  /** How many steps of the trend are taken by step h. */
  ghost function Reach(h: nat): real { 9.0 * (1.0 - Pow(0.9, h)) }

  /** The fitted line, so many steps of the trend further, in its season; never negative. */
  ghost function Line(fit: Holt, steps: real, season: real): real {
    NonNegative(season * (fit.level + steps * fit.trend))
  }

  /** The value served for step h: the seasonal index times the level plus the damped
      trend, in closed form, and never negative. */
  lemma ServedClosedForm(y: seq<real>, period: nat, h: nat)
    requires |y| > 0 && h > 0
    ensures Served(y, period, h) == Line(Fit(y, period), Reach(h), Season(y, period, |y| + h - 1))
  {
    var fit, season := Fit(y, period), Season(y, period, |y| + h - 1);
    ServedUnfolds(y, period, h);
    DampingReaches(h);
    hide *;
    ProjectForm(fit, Reach(h), season);
  }

  lemma DampingReaches(h: nat)
    ensures DampedSum(h) == Reach(h)
  {
    DampingIsBounded(h);
  }

  lemma ServedUnfolds(y: seq<real>, period: nat, h: nat)
    requires |y| > 0 && h > 0
    ensures Served(y, period, h) == Project(Fit(y, period), DampedSum(h), Season(y, period, |y| + h - 1))
  {
    hide Project, Fit, Season, DampedSum;
  }

  lemma ProjectForm(fit: Holt, damping: real, season: real)
    ensures Project(fit, damping, season) == Line(fit, damping, season)
  {
    Commutes(fit.level + damping * fit.trend, season);
  }

  lemma Commutes(a: real, b: real)
    ensures a * b == b * a
  {}

  lemma {:induction false} DampingGrows(h: nat, more: nat)
    ensures DampedSum(h) <= DampedSum(h + more)
  {
    if more > 0 {
      DampingGrows(h, more - 1);
      DampingIsBounded(h + more);
    }
  }

  /** At the same season position, a later point is never below an earlier one where
      the trend is not negative, and never above where it is not positive. */
  lemma ServedFollowsTheTrend(y: seq<real>, period: nat, h: nat, more: nat)
    requires |y| > 0 && h > 0 && Season(y, period, |y| + h - 1) >= 0.0
    requires Season(y, period, |y| + h + more - 1) == Season(y, period, |y| + h - 1)
    ensures Fit(y, period).trend >= 0.0 ==> Served(y, period, h) <= Served(y, period, h + more)
    ensures Fit(y, period).trend <= 0.0 ==> Served(y, period, h) >= Served(y, period, h + more)
  {
    var fit, s := Fit(y, period), Season(y, period, |y| + h - 1);
    ServedUnfolds(y, period, h);
    ServedUnfolds(y, period, h + more);
    assert |y| + (h + more) - 1 == |y| + h + more - 1;
    DampingGrows(h, more);
    hide *;
    ProjectFollows(fit, DampedSum(h), DampedSum(h + more), s);
  }

  lemma ProjectFollows(fit: Holt, a: real, b: real, s: real)
    requires s >= 0.0 && a <= b
    ensures fit.trend >= 0.0 ==> Project(fit, a, s) <= Project(fit, b, s)
    ensures fit.trend <= 0.0 ==> Project(fit, a, s) >= Project(fit, b, s)
  {
    var u, v := Value(fit, a, s), Value(fit, b, s);
    assert Project(fit, a, s) == Clamp(u) && Project(fit, b, s) == Clamp(v);
    hide Project, Value;
    Between(fit, s, a, b);
    ClampAscends(u, v);
    ClampAscends(v, u);
    hide Clamp;
  }

  ghost function Value(fit: Holt, damping: real, s: real): real { (fit.level + damping * fit.trend) * s }

  lemma ClampAscends(a: real, b: real)
    ensures a <= b ==> Clamp(a) <= Clamp(b)
  {}

  lemma Between(fit: Holt, s: real, a: real, b: real)
    requires s >= 0.0 && a <= b
    ensures fit.trend >= 0.0 ==> Value(fit, a, s) <= Value(fit, b, s)
    ensures fit.trend <= 0.0 ==> Value(fit, a, s) >= Value(fit, b, s)
  {
    assert Value(fit, b, s) - Value(fit, a, s) == (b - a) * fit.trend * s;
    hide Value;
    Sign(b - a, fit.trend, s);
  }

  lemma Sign(d: real, trend: real, s: real)
    requires d >= 0.0 && s >= 0.0
    ensures trend >= 0.0 ==> d * trend * s >= 0.0
    ensures trend <= 0.0 ==> d * trend * s <= 0.0
  {
    if trend >= 0.0 {
      assert d * trend >= 0.0;
    } else {
      assert d * (-trend) >= 0.0;
      assert (d * (-trend)) * s >= 0.0;
    }
  }

  lemma {:induction false} AppendingKeepsTheFit(y: seq<real>, v: real, n: nat)
    requires 2 <= |y| && 0 < n <= |y|
    ensures HoltAfter(y + [v], n) == HoltAfter(y, n)
  {
    hide HoltStep;
    if n > 1 { AppendingKeepsTheFit(y, v, n - 1); }
  }

  /** Without a season, the first served point is the value that the smoothing fits at
      the next index, once a next value is there, kept non-negative. */
  lemma FirstServedIsTheNextFitted(y: seq<real>, v: real)
    requires |y| >= 2
    ensures Served(y, 0, 1) == NonNegative(Ahead(HoltAfter(y + [v], |y|)))
  {
    hide HoltAfter;
    AppendingKeepsTheFit(y, v, |y|);
    assert Deseasonalised(y, 0) == y;
    assert Pow(PHI, 1) == PHI && DampedSum(1) == PHI;
  }

  /** The second fitted value extrapolates the first difference, damped. */
  lemma SecondFittedValue(y: seq<real>)
    requires |y| >= 2
    ensures Ahead(HoltAfter(y, 1)) == y[0] + 0.9 * (y[1] - y[0])
  {}

  // ---- Periodic series ----

  /** y repeats the positive profile s. */
  ghost predicate Repeats(y: seq<real>, s: seq<real>) {
    && s != [] && (forall p :: 0 <= p < |s| ==> s[p] > 0.0)
    && forall i :: 0 <= i < |y| ==> y[i] == s[i % |s|]
  }

  lemma SameResidue(i: nat, period: nat)
    requires period > 0
    ensures (i + period) % period == i % period
  {
    assert i == period * (i / period) + i % period;
    assert period * (i / period + 1) == period * (i / period) + period;
    ModUnique(i + period, period, i / period + 1, i % period);
  }

  lemma SmallResidue(i: nat, period: nat)
    requires i < period
    ensures i % period == i
  {}

  lemma {:induction false} RangeSumShift(y: seq<real>, lo: nat, n: nat)
    requires lo + n < |y|
    ensures RangeSum(y, lo + 1, n) + y[lo] == RangeSum(y, lo, n) + y[lo + n]
  {
    if n > 0 { RangeSumShift(y, lo, n - 1); }
  }

  lemma {:induction false} FirstPeriod(y: seq<real>, s: seq<real>, n: nat)
    requires Repeats(y, s) && n <= |s| && n <= |y|
    ensures RangeSum(y, 0, n) == Total(s[..n])
  {
    if n > 0 {
      SmallResidue(n - 1, |s|);
      assert y[n - 1] == s[n - 1];
      FirstPeriod(y, s, n - 1);
      hide Repeats;
      assert s[..n][..n - 1] == s[..n - 1];
    }
  }

  lemma {:induction false} EveryWindowSums(y: seq<real>, s: seq<real>, i: nat)
    requires Repeats(y, s) && i + |s| <= |y|
    ensures RangeSum(y, i, |s|) == Total(s)
  {
    if i == 0 {
      FirstPeriod(y, s, |s|);
      assert s[..|s|] == s;
    } else {
      hide RangeSum;
      EveryWindowSums(y, s, i - 1);
      RangeSumShift(y, i - 1, |s|);
      SameResidue(i - 1, |s|);
    }
  }

  lemma {:induction false} ProfileIsPositive(s: seq<real>)
    requires forall p :: 0 <= p < |s| ==> s[p] > 0.0
    ensures Total(s) >= 0.0 && (s != [] ==> Total(s) > 0.0)
  {
    if s != [] { ProfileIsPositive(s[..|s| - 1]); }
  }

  ghost function Mean(s: seq<real>): real
    requires s != []
  {
    Total(s) / |s| as real
  }

  lemma MeanIsPositive(s: seq<real>)
    requires s != [] && forall p :: 0 <= p < |s| ==> s[p] > 0.0
    ensures Mean(s) > 0.0
  {
    ProfileIsPositive(s);
    hide Total;
  }

  lemma WindowIsMean(y: seq<real>, s: seq<real>, i: nat)
    requires Repeats(y, s) && i + |s| <= |y|
    ensures WindowMean(y, i, |s|) == Mean(s) && Admitted(y, i, |s|)
  {
    EveryWindowSums(y, s, i);
    MeanIsPositive(s);
    hide RangeSum, Total;
  }

  lemma PlaceHasResidue(y: seq<real>, s: seq<real>, i: nat, p: nat)
    requires Repeats(y, s) && p < |s| && i + |s| <= |y|
    ensures y[i + Offset(i, p, |s|)] == s[p]
  {
    OffsetIsTheOnlyPlace(i, p, |s|, Offset(i, p, |s|));
    hide Offset;
  }

  ghost function Times(n: nat, x: real): real { n as real * x }

  lemma TimesStep(n: nat, x: real)
    ensures Times(0, x) == 0.0 && Times(n + 1, x) == Times(n, x) + x
  {
    assert (n + 1) as real == n as real + 1.0;
  }

  lemma {:induction false} RatiosAreEqual(y: seq<real>, s: seq<real>, n: nat, p: nat)
    requires Repeats(y, s) && p < |s| && (n > 0 ==> n + |s| <= |y|) && Mean(s) > 0.0
    ensures RatioSum(y, |s|, n, p) == Times(n, s[p] / Mean(s))
    ensures AdmittedCount(y, |s|, n) == n
  {
    hide Times, Mean, Repeats, Offset;
    TimesStep(0, s[p] / Mean(s));
    if n > 0 {
      RatiosAreEqual(y, s, n - 1, p);
      WindowIsMean(y, s, n - 1);
      PlaceHasResidue(y, s, n - 1, p);
      hide WindowMean, Admitted;
      TimesStep(n - 1, s[p] / Mean(s));
    }
  }

  lemma TimesBack(n: nat, x: real)
    requires n > 0
    ensures Times(n, x) / n as real == x
  {}

  /** The seasonal indices of a periodic series are its profile over its mean. */
  lemma IndicesAreTheProfile(y: seq<real>, s: seq<real>, p: nat)
    requires Repeats(y, s) && p < |s| < |y|
    ensures Mean(s) > 0.0 && RawIndex(y, |s|, p) == s[p] / Mean(s)
  {
    MeanIsPositive(s);
    hide Times, Mean, Repeats, RatioSum, AdmittedCount;
    var n := Windows(y, |s|);
    RatiosAreEqual(y, s, n, p);
    TimesBack(n, s[p] / Mean(s));
  }

  lemma Cancel(x: real, m: real)
    requires x > 0.0 && m > 0.0
    ensures x / m > 0.0 && x / (x / m) == m && m * (x / m) == x
  {
    var r := x / m;
    assert r * m == x;
    RatioIsPositive(r, m, x);
    assert m * r / r == m;
  }

  lemma RatioIsPositive(r: real, m: real, x: real)
    requires r * m == x && x > 0.0 && m > 0.0
    ensures r > 0.0
  {
    SignOfProduct(r, m);
  }

  lemma SignOfProduct(r: real, m: real)
    requires m > 0.0
    ensures r <= 0.0 ==> r * m <= 0.0
  {
    if r <= 0.0 { assert (-r) * m >= 0.0; }
  }

  lemma DeseasonalisedIsFlat(y: seq<real>, s: seq<real>, i: nat)
    requires Repeats(y, s) && |s| < |y| && i < |y|
    ensures Mean(s) > 0.0 && Deseasonalised(y, |s|)[i] == Mean(s)
  {
    var p := i % |s|;
    IndicesAreTheProfile(y, s, p);
    Cancel(s[p], Mean(s));
    hide RawIndex, Mean;
  }

  lemma {:induction false} FlatFit(d: seq<real>, m: real, n: nat)
    requires 0 < n <= |d| && forall i :: 0 <= i < |d| ==> d[i] == m
    ensures HoltAfter(d, n) == Holt(m, 0.0)
  {
    if n > 1 { FlatFit(d, m, n - 1); }
  }

  lemma FitIsFlat(y: seq<real>, s: seq<real>)
    requires Repeats(y, s) && |s| < |y|
    ensures Fit(y, |s|) == Holt(Mean(s), 0.0)
  {
    assert s != [];
    hide Mean, Repeats, HoltAfter, Deseasonalised;
    var d := Deseasonalised(y, |s|);
    forall i | 0 <= i < |d| ensures d[i] == Mean(s) { DeseasonalisedIsFlat(y, s, i); }
    FlatFit(d, Mean(s), |y|);
  }

  lemma SeasonAt(y: seq<real>, s: seq<real>, position: nat)
    requires Repeats(y, s) && |s| < |y|
    ensures Mean(s) > 0.0 && Season(y, |s|, position) == s[position % |s|] / Mean(s)
  {
    var p := position % |s|;
    IndicesAreTheProfile(y, s, p);
    hide RawIndex, Mean, Repeats;
  }

  /** A series that repeats a positive profile is continued exactly. */
  lemma PeriodicSeriesIsContinued(y: seq<real>, s: seq<real>, h: nat)
    requires Repeats(y, s) && |s| < |y| && h > 0
    ensures Served(y, |s|, h) == s[(|y| + h - 1) % |s|]
  {
    var q := (|y| + h - 1) % |s|;
    PositiveAt(y, s, q);
    SeasonAt(y, s, |y| + h - 1);
    FitIsFlat(y, s);
    ServedUnfolds(y, |s|, h);
    hide *;
    FlatProject(Mean(s), DampedSum(h), s[q]);
  }

  lemma FlatProject(m: real, damping: real, x: real)
    requires m > 0.0 && x > 0.0
    ensures Project(Holt(m, 0.0), damping, x / m) == x
  {
    Cancel(x, m);
    ProjectForm(Holt(m, 0.0), damping, x / m);
    hide Project;
    assert damping * 0.0 == 0.0;
    Commutes(m, x / m);
  }

  lemma PositiveAt(y: seq<real>, s: seq<real>, q: nat)
    requires Repeats(y, s) && q < |s|
    ensures s[q] > 0.0
  {}

  /** On such a series the model and the naive reference are both right at every
      origin that has seen two periods. */
  lemma PeriodicSeriesIsPredicted(y: seq<real>, s: seq<real>, k: nat)
    requires Repeats(y, s) && 2 <= |s| && 2 * |s| <= k < |y|
    ensures ModelAt(y, |s|, k) == y[k] && NaiveAt(y, |s|, k) == y[k]
  {
    assert Repeats(y[..k], s);
    SameResidue(k - |s|, |s|);
    hide Served, OneStep;
    OneStepIsFirstServed(y[..k], |s|);
    PeriodicSeriesIsContinued(y[..k], s, 1);
  }
}
