/** The port-congestion baseline: seasonal indices, damped Holt smoothing, the
    served forecast and its rolling-origin backtest, over exact reals. */
module Forecast {
  import opened Seasonal

  const ALPHA := 0.4
  const BETA := 0.1
  const PHI := 0.9
  const MIN_HISTORY := 8

  datatype Observation = Observation(at: int, queue: real)

  datatype PointForecast = PointForecast(step: nat, at: int, queue: real)

  datatype Error = InsufficientHistory | BadArguments

  datatype Result = Ok(points: seq<PointForecast>, seasonalPeriod: nat, trainedOn: nat, scores: Scores) | Err(error: Error)

  function Clamp(v: real): real { if v < 0.0 then 0.0 else v }

  // ---- Damped Holt smoothing ----

  datatype Holt = Holt(level: real, trend: real)

  function HoltStep(h: Holt, v: real): Holt {
    var level := ALPHA * v + (1.0 - ALPHA) * (h.level + PHI * h.trend);
    Holt(level, BETA * (level - h.level) + (1.0 - BETA) * PHI * h.trend)
  }

  /** The fit after the first n values. */
  function HoltAfter(y: seq<real>, n: nat): Holt
    requires 0 < n <= |y|
  {
    if n == 1 then Holt(y[0], if |y| > 1 then y[1] - y[0] else 0.0) else HoltStep(HoltAfter(y, n - 1), y[n - 1])
  }

  /** The forecast one step past a fit. */
  function Ahead(h: Holt): real { h.level + PHI * h.trend }

  method HoltDamped(y: seq<real>) returns (level: real, trend: real, fitted: seq<real>)
    requires |y| > 0
    ensures Holt(level, trend) == HoltAfter(y, |y|)
    ensures |fitted| == |y| && fitted[0] == y[0]
    ensures forall i :: 0 < i < |y| ==> fitted[i] == Ahead(HoltAfter(y, i))
  {
    hide HoltStep, HoltAfter;
    HoltUnfolds(y, 1);
    level, trend := y[0], 0.0;
    if |y| > 1 {
      trend := y[1] - y[0];
    }
    fitted := [y[0]];
    for i := 1 to |y|
      invariant Holt(level, trend) == HoltAfter(y, i)
      invariant |fitted| == i && fitted[0] == y[0]
      invariant forall k :: 0 < k < i ==> fitted[k] == Ahead(HoltAfter(y, k))
    {
      HoltUnfolds(y, i + 1);
      StepUnfolds(level, trend, y[i]);
      fitted := fitted + [level + PHI * trend];
      var previous := level;
      level := ALPHA * y[i] + (1.0 - ALPHA) * (level + PHI * trend);
      trend := BETA * (level - previous) + (1.0 - BETA) * PHI * trend;
    }
  }

  /** Smoothing corrects the forecast of the value by a fixed part of its error, and the
      damped trend by a smaller part. */
  lemma StepCorrectsByTheError(h: Holt, v: real)
    ensures var error := v - Ahead(h);
            && HoltStep(h, v).level == Ahead(h) + 0.4 * error
            && HoltStep(h, v).trend == 0.9 * h.trend + 0.04 * error
  {
    assert HoltStep(h, v).level - h.level == 0.9 * h.trend + 0.4 * (v - Ahead(h));
  }

  lemma StepUnfolds(level: real, trend: real, v: real)
    ensures var next := ALPHA * v + (1.0 - ALPHA) * (level + PHI * trend);
            HoltStep(Holt(level, trend), v) == Holt(next, BETA * (next - level) + (1.0 - BETA) * PHI * trend)
  {}

  lemma HoltUnfolds(y: seq<real>, i: nat)
    requires 0 < i <= |y|
    ensures HoltAfter(y, i) ==
            if i == 1 then Holt(y[0], if |y| > 1 then y[1] - y[0] else 0.0)
            else HoltStep(HoltAfter(y, i - 1), y[i - 1])
  {}

  // ---- The fitted model ----

  /** The season length actually used: 0 when the series is too short. */
  function EffectivePeriod(period: int, n: nat): nat {
    if period < 2 || n < 2 * period then 0 else period
  }

  function Season(y: seq<real>, period: nat, position: nat): real {
    if period > 0 then RawIndices(y, period)[position % period] else 1.0
  }

  function PositiveOrOne(s: real): real { if s <= 0.0 then 1.0 else s }

  function Deseasonalised(y: seq<real>, period: nat): (r: seq<real>)
    ensures |r| == |y|
  {
    seq(|y|, i requires 0 <= i < |y| =>
      if period > 0 then Quotient(y[i], PositiveOrOne(Season(y, period, i))) else y[i])
  }

  function Fit(y: seq<real>, period: nat): Holt
    requires |y| > 0
  {
    HoltAfter(Deseasonalised(y, period), |y|)
  }

  method Deseasonalise(y: seq<real>, period: nat) returns (seasonal: seq<real>, d: seq<real>)
    ensures seasonal == RawIndices(y, period)
    ensures d == Deseasonalised(y, period)
  {
    hide RawIndex, Quotient;
    seasonal, d := [], y;
    if period > 0 {
      seasonal := SeasonalIndices(y, period);
      d := [];
      for i := 0 to |y|
        invariant d == Deseasonalised(y, period)[..i]
      {
        var s := seasonal[i % period];
        d := d + [Quotient(y[i], if s <= 0.0 then 1.0 else s)];
      }
    }
  }

  // ---- One step ahead ----

  /** Level plus damped trend, scaled by the season and kept non-negative. */
  function Project(h: Holt, damping: real, season: real): real {
    Clamp((h.level + damping * h.trend) * season)
  }

  /** The forecast for the value at `position`, from a fit of `train`. */
  function OneStep(train: seq<real>, period: nat, position: nat): real
    requires |train| > 0
  {
    Project(Fit(train, period), PHI, Season(train, period, position))
  }

  method PredictOneStep(train: seq<real>, seasonalPeriod: int, stepIdx: nat) returns (r: real)
    requires |train| > 0
    ensures r == OneStep(train, EffectivePeriod(seasonalPeriod, |train|), stepIdx)
  {
    hide RawIndex, HoltAfter, Deseasonalised, Project;
    var period := if seasonalPeriod < 2 || |train| < 2 * seasonalPeriod then 0 else seasonalPeriod;
    var seasonal, d := Deseasonalise(train, period);
    var level, trend, _ := HoltDamped(d);
    var scale := 1.0;
    if period > 0 {
      scale := seasonal[stepIdx % period];
    }
    r := Project(Holt(level, trend), PHI, scale);
  }

  // ---- The served forecast ----

  function Pow(x: real, n: nat): real { if n == 0 then 1.0 else x * Pow(x, n - 1) }

  /** PHI + PHI^2 + ... + PHI^h */
  function DampedSum(h: nat): real { if h == 0 then 0.0 else DampedSum(h - 1) + Pow(PHI, h) }

  /** The value served for step h. */
  function Served(y: seq<real>, period: nat, h: nat): real
    requires |y| > 0 && h > 0
  {
    Project(Fit(y, period), DampedSum(h), Season(y, period, |y| + h - 1))
  }

  /** The damped trend never adds more than nine steps of it. */
  lemma {:induction false} DampingIsBounded(h: nat)
    ensures DampedSum(h) == 9.0 * (1.0 - Pow(PHI, h))
    ensures 0.0 < Pow(PHI, h) <= 1.0 && 0.0 <= DampedSum(h) < 9.0
  {
    if h > 0 {
      DampingIsBounded(h - 1);
    }
  }

  function Insert(o: Observation, sorted: seq<Observation>): seq<Observation> {
    if sorted == [] || o.at <= sorted[0].at then [o] + sorted else [sorted[0]] + Insert(o, sorted[1..])
  }

  /** The defensive sort by time, keeping the order of equal times. */
  function SortByTime(obs: seq<Observation>): (r: seq<Observation>) {
    if obs == [] then [] else Insert(obs[0], SortByTime(obs[1..]))
  }

  ghost predicate Ascending(obs: seq<Observation>) {
    forall i, j :: 0 <= i < j < |obs| ==> obs[i].at <= obs[j].at
  }

  lemma {:induction false} SortingKeepsAll(obs: seq<Observation>)
    ensures multiset(SortByTime(obs)) == multiset(obs) && |SortByTime(obs)| == |obs|
    ensures Ascending(SortByTime(obs))
  {
    if obs != [] {
      var rest := obs[1..];
      assert SortByTime(obs) == Insert(obs[0], SortByTime(rest));
      SortingKeepsAll(rest);
      hide SortByTime, Insert, Ascending;
      InsertKeepsAll(obs[0], SortByTime(rest));
      InsertKeepsOrder(obs[0], SortByTime(rest));
      assert obs == [obs[0]] + rest;
    }
  }

  lemma {:induction false} InsertKeepsAll(o: Observation, sorted: seq<Observation>)
    ensures multiset(Insert(o, sorted)) == multiset(sorted) + multiset{o}
    ensures |Insert(o, sorted)| == |sorted| + 1
  {
    if sorted != [] && o.at > sorted[0].at {
      InsertKeepsAll(o, sorted[1..]);
      assert sorted == [sorted[0]] + sorted[1..];
    }
  }

  lemma {:induction false} InsertKeepsOrder(o: Observation, sorted: seq<Observation>)
    requires Ascending(sorted)
    ensures Ascending(Insert(o, sorted))
  {
    if sorted != [] && o.at > sorted[0].at {
      InsertKeepsOrder(o, sorted[1..]);
      InsertKeepsAll(o, sorted[1..]);
      var rest := Insert(o, sorted[1..]);
      forall x | x in rest ensures sorted[0].at <= x.at {
        assert x in multiset(rest);
        assert x == o || x in sorted[1..];
      }
    }
  }

  lemma {:induction false} SortingAscendingIsIdentity(obs: seq<Observation>)
    requires Ascending(obs)
    ensures SortByTime(obs) == obs
  {
    if obs != [] {
      SortingAscendingIsIdentity(obs[1..]);
      assert obs == [obs[0]] + obs[1..];
    }
  }

  function Queues(obs: seq<Observation>): (r: seq<real>)
    ensures |r| == |obs|
  {
    seq(|obs|, i requires 0 <= i < |obs| => obs[i].queue)
  }

  // ---- The backtest ----

  datatype Scores = Scores(modelMae: real, modelMape: real, naiveMae: real, naiveMape: real)

  function AbsReal(x: real): real { if x < 0.0 then -x else x }

  /** The error in percent of the actual value; nothing where that is not positive. */
  function Percent(actual: real, predicted: real): real {
    if actual > 0.0 then AbsReal(actual - predicted) / actual * 100.0 else 0.0
  }

  /** The number of origins scored: a quarter of the series, between 4 and 48. */
  function BacktestWindow(n: nat): nat {
    if n / 4 > 48 then 48 else if n / 4 < 4 then 4 else n / 4
  }

  /** The model's prediction of y[k] from what came before it. */
  function ModelAt(y: seq<real>, period: int, k: nat): real
    requires 0 < k < |y|
  {
    OneStep(y[..k], EffectivePeriod(period, k), k)
  }

  /** The naive prediction: the value one season earlier, or the one before. */
  function NaiveAt(y: seq<real>, period: int, k: nat): real
    requires 0 < k < |y|
  {
    if period > 0 && k - period >= 0 then y[k - period] else y[k - 1]
  }

  /** The four error sums over the origins start..i-1. */
  function Errors(y: seq<real>, period: int, start: nat, i: nat): Scores
    requires 0 < start <= i <= |y|
  {
    if i == start then Scores(0.0, 0.0, 0.0, 0.0)
    else
      var k := i - 1;
      var e := Errors(y, period, start, k);
      var m, n := ModelAt(y, period, k), NaiveAt(y, period, k);
      Scores(e.modelMae + AbsReal(y[k] - m), e.modelMape + Percent(y[k], m),
             e.naiveMae + AbsReal(y[k] - n), e.naiveMape + Percent(y[k], n))
  }

  lemma ErrorsUnfold(y: seq<real>, period: int, start: nat, i: nat)
    requires 0 < start <= i <= |y|
    ensures Errors(y, period, start, i) ==
            if i == start then Scores(0.0, 0.0, 0.0, 0.0)
            else
              var k := i - 1;
              var e := Errors(y, period, start, k);
              var m, n := ModelAt(y, period, k), NaiveAt(y, period, k);
              Scores(e.modelMae + AbsReal(y[k] - m), e.modelMape + Percent(y[k], m),
                     e.naiveMae + AbsReal(y[k] - n), e.naiveMape + Percent(y[k], n))
  {
    hide OneStep, AbsReal, Percent;
  }

  function Averaged(e: Scores, used: nat): Scores
    requires used > 0
  {
    Scores(e.modelMae / used as real, e.modelMape / used as real, e.naiveMae / used as real, e.naiveMape / used as real)
  }

  function BacktestScores(y: seq<real>, period: int): Scores
    requires |y| >= MIN_HISTORY
  {
    var used := BacktestWindow(|y|);
    Averaged(Errors(y, period, |y| - used, |y|), used)
  }

  method Backtest(y: seq<real>, seasonalPeriod: nat) returns (s: Scores)
    requires |y| >= MIN_HISTORY
    ensures s == BacktestScores(y, seasonalPeriod)
  {
    hide OneStep, AbsReal, Errors, Averaged;
    var n := |y|;
    var window := n / 4;
    if window > 48 {
      window := 48;
    }
    if window < 4 {
      window := 4;
    }
    var start := n - window;
    ErrorsUnfold(y, seasonalPeriod, start, start);
    var modelErr, modelApe, naiveErr, naiveApe, used := 0.0, 0.0, 0.0, 0.0, 0;
    for i := start to n
      invariant used == i - start
      invariant Scores(modelErr, modelApe, naiveErr, naiveApe) == Errors(y, seasonalPeriod, start, i)
    {
      var predicted := PredictOneStep(y[..i], seasonalPeriod, i);
      var ref := i - 1;
      if seasonalPeriod > 0 && i - seasonalPeriod >= 0 {
        ref := i - seasonalPeriod;
      }
      ErrorsUnfold(y, seasonalPeriod, start, i + 1);
      modelErr := modelErr + AbsReal(y[i] - predicted);
      naiveErr := naiveErr + AbsReal(y[i] - y[ref]);
      if y[i] > 0.0 {
        modelApe := modelApe + AbsReal(y[i] - predicted) / y[i] * 100.0;
        naiveApe := naiveApe + AbsReal(y[i] - y[ref]) / y[i] * 100.0;
      }
      used := used + 1;
    }
    s := Averaged(Scores(modelErr, modelApe, naiveErr, naiveApe), used);
  }

  // ---- Putting it together ----

  method ForecastSeries(obs: seq<Observation>, stepSeconds: int, horizon: int, seasonalPeriod: int) returns (r: Result)
    ensures r == Err(InsufficientHistory) <==> |obs| < MIN_HISTORY
    ensures r == Err(BadArguments) <==> |obs| >= MIN_HISTORY && (horizon <= 0 || stepSeconds <= 0)
    ensures r.Ok? ==>
              var sorted := SortByTime(obs);
              && |sorted| == |obs| && r.trainedOn == |obs| && |r.points| == horizon
              && r.seasonalPeriod == (if seasonalPeriod < 2 || |obs| < 2 * seasonalPeriod then 0 else seasonalPeriod)
              && r.scores == BacktestScores(Queues(sorted), r.seasonalPeriod)
              && forall h :: 1 <= h <= horizon ==>
                   r.points[h - 1] == PointForecast(h, sorted[|obs| - 1].at + h * stepSeconds,
                                                    Served(Queues(sorted), r.seasonalPeriod, h))
  {
    if |obs| < MIN_HISTORY {
      return Err(InsufficientHistory);
    }
    if horizon <= 0 || stepSeconds <= 0 {
      return Err(BadArguments);
    }
    hide RawIndex, HoltAfter, Deseasonalised, BacktestScores, SortByTime, Pow, Served;
    var sorted := SortByTime(obs);
    SortingKeepsAll(obs);
    var y := Queues(sorted);
    var period := if seasonalPeriod < 2 || |y| < 2 * seasonalPeriod then 0 else seasonalPeriod;
    var seasonal, d := Deseasonalise(y, period);
    var level, trend, _ := HoltDamped(d);
    var scores := Backtest(y, period);
    var points := ServePoints(y, period, seasonal, Holt(level, trend), sorted[|obs| - 1].at, stepSeconds, horizon);
    return Ok(points, period, |y|, scores);
  }

  method ServePoints(y: seq<real>, period: nat, seasonal: seq<real>, fit: Holt, lastAt: int, stepSeconds: int, horizon: nat)
    returns (points: seq<PointForecast>)
    requires |y| > 0 && seasonal == RawIndices(y, period) && fit == Fit(y, period)
    ensures |points| == horizon
    ensures forall h :: 1 <= h <= horizon ==>
              points[h - 1] == PointForecast(h, lastAt + h * stepSeconds, Served(y, period, h))
  {
    hide RawIndex, Fit, Project, Pow;
    var dampedSum := 0.0;
    points := [];
    for h := 1 to horizon + 1
      invariant |points| == h - 1 && dampedSum == DampedSum(h - 1)
      invariant forall k :: 1 <= k < h ==>
                  points[k - 1] == PointForecast(k, lastAt + k * stepSeconds, Served(y, period, k))
    {
      dampedSum := dampedSum + Pow(PHI, h);
      var scale := 1.0;
      if period > 0 {
        scale := seasonal[(|y| + h - 1) % period];
      }
      points := points + [PointForecast(h, lastAt + h * stepSeconds, Project(fit, dampedSum, scale))];
    }
  }

  // ---- The backtest scores the served model ----

  /** One-step prediction from a series is the first point served for it. */
  lemma OneStepIsFirstServed(y: seq<real>, period: nat)
    requires |y| > 0
    ensures OneStep(y, period, |y|) == Served(y, period, 1)
  {
    hide Project, Fit, Season;
    assert Pow(PHI, 1) == PHI * Pow(PHI, 0);
    assert DampedSum(1) == DampedSum(0) + Pow(PHI, 1) == PHI;
  }

  /** The period the backtest passes on is the caller's, wherever it matters. */
  lemma PeriodSurvivesTwice(period: int, n: nat, i: nat)
    requires i <= n
    ensures EffectivePeriod(EffectivePeriod(period, n), i) == EffectivePeriod(period, i)
  {}

  /** At every origin i the backtest scores the first point that `ForecastSeries`
      would serve for the first i observations. */
  lemma BacktestScoresTheServedModel(obs: seq<Observation>, period: int, i: nat)
    requires MIN_HISTORY <= i < |obs|
    ensures var sorted := SortByTime(obs);
            && |sorted| == |obs|
            && (var prefix := SortByTime(sorted[..i]);
                && |prefix| == i && Queues(prefix) == Queues(sorted)[..i]
                && ModelAt(Queues(sorted), EffectivePeriod(period, |obs|), i) ==
                   Served(Queues(prefix), EffectivePeriod(period, i), 1))
  {
    hide OneStep, Served, SortByTime;
    SortingKeepsAll(obs);
    var sorted := SortByTime(obs);
    assert Ascending(sorted[..i]);
    SortingAscendingIsIdentity(sorted[..i]);
    PeriodSurvivesTwice(period, |obs|, i);
    OneStepIsFirstServed(Queues(sorted)[..i], EffectivePeriod(period, i));
  }

  /** Long enough to be forecast at all. */
  predicate Servable(i: int) { i >= MIN_HISTORY }

  /** But the first origins may be shorter than any series the service accepts:
      all origins are servable exactly from twelve observations on. */
  lemma OriginsAreServable(n: nat)
    requires n >= MIN_HISTORY
    ensures (forall i :: n - BacktestWindow(n) <= i < n ==> Servable(i)) <==> n >= 12
  {
    var start := n - BacktestWindow(n);
    assert Servable(start) <==> n >= 12;
  }
}
