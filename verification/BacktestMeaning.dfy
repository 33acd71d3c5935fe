/** What the backtest scores and the seasonal indices are means of. */
module BacktestMeaning {
  import opened Seasonal
  import opened Forecast
  import opened ForecastMeaning

  // ---- The scores ----

  function Distance(a: real, b: real): real { if a < b then b - a else a - b }

  ghost function Misses(actual: seq<real>, predicted: seq<real>): seq<real>
    requires |actual| == |predicted|
  {
    seq(|actual|, i requires 0 <= i < |actual| => Distance(actual[i], predicted[i]))
  }

  ghost function PercentMisses(actual: seq<real>, predicted: seq<real>): seq<real>
    requires |actual| == |predicted|
  {
    seq(|actual|, i requires 0 <= i < |actual| =>
      if actual[i] > 0.0 then Distance(actual[i], predicted[i]) / actual[i] * 100.0 else 0.0)
  }

  /** The model's predictions at the origins lo..hi-1. */
  ghost function Modelled(y: seq<real>, period: int, lo: nat, hi: nat): (r: seq<real>)
    requires 0 < lo <= hi <= |y|
    ensures |r| == hi - lo
  {
    seq(hi - lo, i requires 0 <= i < hi - lo => ModelAt(y, period, lo + i))
  }

  /** The value one season before each of these origins, or just before it. */
  ghost function Earlier(y: seq<real>, period: nat, lo: nat, hi: nat): (r: seq<real>)
    requires 0 < lo <= hi <= |y|
    ensures |r| == hi - lo
  {
    seq(hi - lo, i requires 0 <= i < hi - lo =>
      if 1 <= period <= lo + i then y[lo + i - period] else y[lo + i - 1])
  }

  ghost function Sums(actual: seq<real>, model: seq<real>, naive: seq<real>): Scores
    requires |actual| == |model| == |naive|
  {
    Scores(Total(Misses(actual, model)), Total(PercentMisses(actual, model)),
           Total(Misses(actual, naive)), Total(PercentMisses(actual, naive)))
  }

  lemma SumsSnoc(actual: seq<real>, model: seq<real>, naive: seq<real>, a: real, m: real, n: real)
    requires |actual| == |model| == |naive|
    ensures var s := Sums(actual, model, naive);
            Sums(actual + [a], model + [m], naive + [n]) ==
            Scores(s.modelMae + AbsReal(a - m), s.modelMape + Percent(a, m),
                   s.naiveMae + AbsReal(a - n), s.naiveMape + Percent(a, n))
  {
    MissesSnoc(actual, model, a, m);
    MissesSnoc(actual, naive, a, n);
    hide Misses, PercentMisses, Total, AbsReal, Percent;
  }

  lemma MissesSnoc(actual: seq<real>, predicted: seq<real>, a: real, p: real)
    requires |actual| == |predicted|
    ensures Total(Misses(actual + [a], predicted + [p])) == Total(Misses(actual, predicted)) + AbsReal(a - p)
    ensures Total(PercentMisses(actual + [a], predicted + [p])) == Total(PercentMisses(actual, predicted)) + Percent(a, p)
  {
    assert Distance(a, p) == AbsReal(a - p);
    assert Misses(actual + [a], predicted + [p]) == Misses(actual, predicted) + [AbsReal(a - p)];
    assert PercentMisses(actual + [a], predicted + [p]) == PercentMisses(actual, predicted) + [Percent(a, p)];
    hide Misses, PercentMisses, AbsReal, Percent;
    TotalSnoc(Misses(actual, predicted), AbsReal(a - p));
    TotalSnoc(PercentMisses(actual, predicted), Percent(a, p));
  }

  lemma TotalSnoc(s: seq<real>, x: real)
    ensures Total(s + [x]) == Total(s) + x
  {
    assert (s + [x])[..|s|] == s;
  }

  lemma PredictionsSnoc(y: seq<real>, period: nat, lo: nat, k: nat)
    requires 0 < lo <= k < |y|
    ensures y[lo..k + 1] == y[lo..k] + [y[k]]
    ensures Modelled(y, period, lo, k + 1) == Modelled(y, period, lo, k) + [ModelAt(y, period, k)]
    ensures Earlier(y, period, lo, k + 1) == Earlier(y, period, lo, k) + [NaiveAt(y, period, k)]
  {
    hide ModelAt;
  }

  lemma SumsOfNothing(y: seq<real>, period: nat, lo: nat)
    requires 0 < lo <= |y|
    ensures Sums(y[lo..lo], Modelled(y, period, lo, lo), Earlier(y, period, lo, lo)) == Scores(0.0, 0.0, 0.0, 0.0)
  {
    hide ModelAt;
  }

  lemma {:induction false} ErrorsAreSums(y: seq<real>, period: nat, lo: nat, hi: nat)
    requires 0 < lo <= hi <= |y|
    ensures Errors(y, period, lo, hi) == Sums(y[lo..hi], Modelled(y, period, lo, hi), Earlier(y, period, lo, hi))
  {
    hide *;
    ErrorsUnfold(y, period, lo, hi);
    if lo < hi {
      var k := hi - 1;
      ErrorsAreSums(y, period, lo, k);
      PredictionsSnoc(y, period, lo, k);
      SumsSnoc(y[lo..k], Modelled(y, period, lo, k), Earlier(y, period, lo, k), y[k], ModelAt(y, period, k), NaiveAt(y, period, k));
    } else {
      SumsOfNothing(y, period, lo);
    }
  }

  /** How many of the last observations are scored. */
  function Scored(n: nat): nat { if n < 16 then 4 else if n < 192 then n / 4 else 48 }

  /** The scores are the means of the absolute and of the percentage misses over the
      scored tail, of the model and of the earlier value. */
  lemma ScoresMeaning(y: seq<real>, period: nat)
    requires |y| >= 8
    ensures var w := Scored(|y|);
            var lo := |y| - w;
            var actual, model, naive := y[lo..], Modelled(y, period, lo, |y|), Earlier(y, period, lo, |y|);
            BacktestScores(y, period) ==
            Scores(Mean(Misses(actual, model)), Mean(PercentMisses(actual, model)),
                   Mean(Misses(actual, naive)), Mean(PercentMisses(actual, naive)))
  {
    var lo := |y| - Scored(|y|);
    assert BacktestWindow(|y|) == Scored(|y|);
    assert y[lo..] == y[lo..|y|];
    ErrorsAreSums(y, period, lo, |y|);
    hide Errors, Modelled, Earlier, Total, Scored;
  }

  lemma {:induction false} ZeroTotal(s: seq<real>)
    requires forall i :: 0 <= i < |s| ==> s[i] >= 0.0
    ensures Total(s) >= 0.0 && (Total(s) == 0.0 <==> forall i :: 0 <= i < |s| ==> s[i] == 0.0)
  {
    if s != [] { ZeroTotal(s[..|s| - 1]); }
  }

  lemma ZeroMean(s: seq<real>)
    requires s != [] && forall i :: 0 <= i < |s| ==> s[i] >= 0.0
    ensures Mean(s) == 0.0 <==> forall i :: 0 <= i < |s| ==> s[i] == 0.0
  {
    ZeroTotal(s);
    assert Mean(s) * |s| as real == Total(s);
    hide Total;
  }

  /** A mean absolute error is zero exactly when every prediction was right. */
  lemma ZeroExactlyWhenRight(actual: seq<real>, predicted: seq<real>)
    requires |actual| == |predicted| > 0
    ensures Mean(Misses(actual, predicted)) == 0.0 <==> actual == predicted
  {
    var s := Misses(actual, predicted);
    ZeroMean(s);
    hide Mean;
    assert forall i :: 0 <= i < |s| ==> (s[i] == 0.0 <==> actual[i] == predicted[i]);
    if forall i :: 0 <= i < |s| ==> s[i] == 0.0 {
      assert actual == predicted;
    }
  }

  /** On a periodic series whose scored tail has seen two periods, model and naive
      reference are scored without error. */
  lemma PeriodicSeriesScoresZero(y: seq<real>, s: seq<real>)
    requires |y| >= 8 && Repeats(y, s) && 2 <= |s| && 2 * |s| + Scored(|y|) <= |y|
    ensures BacktestScores(y, |s|).modelMae == 0.0 && BacktestScores(y, |s|).naiveMae == 0.0
  {
    var lo := |y| - Scored(|y|);
    assert 0 < lo < |y|;
    hide *;
    ScoresMeaning(y, |s|);
    PeriodicTailHasNoMiss(y, s, lo);
  }

  lemma PeriodicTailHasNoMiss(y: seq<real>, s: seq<real>, lo: nat)
    requires Repeats(y, s) && 2 <= |s| && 2 * |s| <= lo < |y|
    ensures Mean(Misses(y[lo..], Modelled(y, |s|, lo, |y|))) == 0.0
    ensures Mean(Misses(y[lo..], Earlier(y, |s|, lo, |y|))) == 0.0
  {
    hide *;
    PeriodicTailIsRight(y, s, lo);
    ZeroExactlyWhenRight(y[lo..], y[lo..]);
  }

  lemma PeriodicTailIsRight(y: seq<real>, s: seq<real>, lo: nat)
    requires Repeats(y, s) && 2 <= |s| && 2 * |s| <= lo <= |y|
    ensures Modelled(y, |s|, lo, |y|) == y[lo..] && Earlier(y, |s|, lo, |y|) == y[lo..]
  {
    hide Repeats, ModelAt, NaiveAt;
    forall i | 0 <= i < |y| - lo ensures ModelAt(y, |s|, lo + i) == y[lo..][i] && y[lo + i - |s|] == y[lo..][i] {
      PeriodicSeriesIsPredicted(y, s, lo + i);
      OneSeasonBack(y, |s|, lo + i);
    }
  }

  lemma OneSeasonBack(y: seq<real>, period: nat, k: nat)
    requires 1 <= period <= k < |y|
    ensures NaiveAt(y, period, k) == y[k - period]
  {}

  // ---- The indices ----

  /** The ratios at residue p to the window means, over the first n forward windows
      whose mean is positive. */
  ghost function Ratios(y: seq<real>, period: nat, n: nat, p: nat): seq<real>
    requires p < period && (n > 0 ==> n + period <= |y|)
  {
    if n == 0 then [] else Ratios(y, period, n - 1, p) + Ratio(y[n - 1..n - 1 + period], n - 1, p)
  }

  /** The ratio that the window from i on has at residue p, if its mean is positive. */
  ghost function Ratio(window: seq<real>, i: nat, p: nat): seq<real>
    requires window != []
  {
    if Mean(window) > 0.0 then [Quotient(window[(p - i) % |window|], Mean(window))] else []
  }

  lemma {:induction false} RangeIsTotal(y: seq<real>, lo: nat, n: nat)
    requires lo + n <= |y|
    ensures RangeSum(y, lo, n) == Total(y[lo..lo + n])
  {
    if n > 0 {
      RangeIsTotal(y, lo, n - 1);
      assert y[lo..lo + n] == y[lo..lo + n - 1] + [y[lo + n - 1]];
      TotalSnoc(y[lo..lo + n - 1], y[lo + n - 1]);
    }
  }

  lemma OffsetIsTheResidue(i: nat, p: nat, period: nat)
    requires p < period
    ensures Offset(i, p, period) == (p - i) % period
  {
    var o := Offset(i, p, period);
    OffsetIsTheOnlyPlace(i, p, period, o);
    hide Offset;
    var q := (i + o) / period;
    assert i + o == period * q + p;
    assert period * (-q) == -(period * q);
    ModUnique(p - i, period, -q, o);
  }

  lemma OneWindow(y: seq<real>, i: nat, period: nat, p: nat)
    requires p < period && i + period <= |y|
    ensures WindowMean(y, i, period) == Mean(y[i..i + period])
    ensures y[i + Offset(i, p, period)] == y[i..i + period][(p - i) % period]
  {
    RangeIsTotal(y, i, period);
    OffsetIsTheResidue(i, p, period);
    hide Offset, RangeSum, Total;
  }

  lemma RatioSumUnfolds(y: seq<real>, period: nat, n: nat, p: nat)
    requires p < period && 0 < n && n + period <= |y|
    ensures var mean := WindowMean(y, n - 1, period);
            && RatioSum(y, period, n, p) == RatioSum(y, period, n - 1, p) +
                 (if mean > 0.0 then Quotient(y[n - 1 + Offset(n - 1, p, period)], mean) else 0.0)
            && AdmittedCount(y, period, n) == AdmittedCount(y, period, n - 1) + if mean > 0.0 then 1 else 0
  {
    hide WindowMean, Offset;
  }

  lemma WindowAdds(y: seq<real>, period: nat, n: nat, p: nat)
    requires p < period && 0 < n && n + period <= |y|
    ensures var ratio := Ratio(y[n - 1..n - 1 + period], n - 1, p);
            && |ratio| <= 1
            && RatioSum(y, period, n, p) == RatioSum(y, period, n - 1, p) + (if ratio == [] then 0.0 else ratio[0])
            && AdmittedCount(y, period, n) == AdmittedCount(y, period, n - 1) + |ratio|
  {
    hide Offset, WindowMean, Mean, RatioSum, AdmittedCount, Quotient;
    RatioSumUnfolds(y, period, n, p);
    OneWindow(y, n - 1, period, p);
  }

  lemma TotalWithAtMostOne(s: seq<real>, t: seq<real>)
    requires |t| <= 1
    ensures Total(s + t) == Total(s) + if t == [] then 0.0 else t[0]
  {
    hide Total;
    if t == [] { assert s + t == s; } else { TotalSnoc(s, t[0]); assert t == [t[0]]; }
  }

  lemma {:induction false} RatiosAddUp(y: seq<real>, period: nat, n: nat, p: nat)
    requires p < period && (n > 0 ==> n + period <= |y|)
    ensures RatioSum(y, period, n, p) == Total(Ratios(y, period, n, p))
    ensures AdmittedCount(y, period, n) == |Ratios(y, period, n, p)|
  {
    if n > 0 {
      hide Ratio, Total, RatioSum, AdmittedCount;
      RatiosAddUp(y, period, n - 1, p);
      WindowAdds(y, period, n, p);
      TotalWithAtMostOne(Ratios(y, period, n - 1, p), Ratio(y[n - 1..n - 1 + period], n - 1, p));
    }
  }

  /** Each seasonal index is the mean of its ratios over all forward windows of
      positive mean, 1 where there is none. */
  lemma IndexIsTheMeanRatio(y: seq<real>, period: nat, p: nat)
    requires p < period
    ensures var ratios := Ratios(y, period, if |y| > period then |y| - period else 0, p);
            RawIndex(y, period, p) == if ratios == [] then 1.0 else Mean(ratios)
  {
    RatiosAddUp(y, period, Windows(y, period), p);
    hide RatioSum, AdmittedCount, Ratios, Total;
  }

  /** Deseasonalising divides out the index of each position, where it is positive. */
  lemma DeseasonalisedMeaning(y: seq<real>, period: nat, i: nat)
    requires 0 < period && i < |y|
    ensures var index, d := RawIndex(y, period, i % period), Deseasonalised(y, period)[i];
            if index > 0.0 then d * index == y[i] else d == y[i]
  {
    hide RawIndex;
    var index := RawIndex(y, period, i % period);
    DividedBack(y[i], PositiveOrOne(index));
  }

  lemma DividedBack(x: real, d: real)
    requires d != 0.0
    ensures Quotient(x, d) * d == x
  {}
}
