/** Multiplicative seasonal indices over exact reals. */
module Seasonal {

  // ---- Sums ----

  /** y[lo] + ... + y[lo + n - 1] */
  function RangeSum(y: seq<real>, lo: nat, n: nat): real
    requires lo + n <= |y|
  {
    if n == 0 then 0.0 else RangeSum(y, lo, n - 1) + y[lo + n - 1]
  }

  function Total(s: seq<real>): real {
    if s == [] then 0.0 else Total(s[..|s| - 1]) + s[|s| - 1]
  }

  lemma {:induction false} TotalUpdate(s: seq<real>, j: nat, x: real)
    requires j < |s|
    ensures Total(s[j := x]) == Total(s) + x - s[j]
  {
    var n := |s| - 1;
    if j < n {
      assert s[j := x][..n] == s[..n][j := x];
      TotalUpdate(s[..n], j, x);
    } else {
      assert s[j := x][..n] == s[..n];
    }
  }

  lemma {:induction false} TotalConstant(s: seq<real>, c: real)
    requires forall i :: 0 <= i < |s| ==> s[i] == c
    ensures Total(s) == |s| as real * c
  {
    if s != [] {
      TotalConstant(s[..|s| - 1], c);
    }
  }

  lemma {:induction false} TotalScaled(s: seq<real>, t: seq<real>, c: real)
    requires c != 0.0 && |s| == |t| && forall i :: 0 <= i < |s| ==> t[i] == s[i] / c
    ensures Total(t) == Total(s) / c
  {
    if s != [] {
      var n := |s| - 1;
      TotalScaled(s[..n], t[..n], c);
    }
  }

  // ---- One forward window ----

  function WindowMean(y: seq<real>, i: nat, period: nat): real
    requires period > 0 && i + period <= |y|
  {
    RangeSum(y, i, period) / period as real
  }

  /** The inner loop: the first k positions of the window are added to their
      residues, divided by the window mean. */
  function Spread(sums: seq<real>, y: seq<real>, i: nat, mean: real, k: nat): (r: seq<real>)
    requires mean != 0.0 && 0 < |sums| && k <= |sums| && i + |sums| <= |y|
    ensures |r| == |sums|
  {
    if k == 0 then sums
    else
      var s := Spread(sums, y, i, mean, k - 1);
      var j := (i + k - 1) % |sums|;
      s[j := s[j] + y[i + k - 1] / mean]
  }

  function Tally(counts: seq<nat>, i: nat, k: nat): (r: seq<nat>)
    requires 0 < |counts| && k <= |counts|
    ensures |r| == |counts|
  {
    if k == 0 then counts
    else
      var c := Tally(counts, i, k - 1);
      var j := (i + k - 1) % |counts|;
      c[j := c[j] + 1]
  }

  /** The place in the window that starts at i whose residue is p. */
  function Offset(i: nat, p: nat, period: nat): (r: nat)
    requires p < period
    ensures r < period
  {
    var q := i % period;
    if p >= q then p - q else p + period - q
  }

  lemma CancelLess(d: int, a: int, b: int)
    requires d > 0
    ensures d * a < d * b <==> a < b
  {
    if a < b { assert d * (b - a) > 0; } else { assert d * (a - b) >= 0; }
  }

  lemma ModUnique(n: int, d: int, q: int, r: int)
    requires d > 0 && n == d * q + r && 0 <= r < d
    ensures n % d == r
  {
    var a, b := n / d, n % d;
    assert n == d * a + b;
    assert d * (a - q) == r - b;
    CancelLess(d, a - q, 1);
    CancelLess(d, -1, a - q);
  }

  /** Each residue is met at exactly one place of a window. */
  lemma OffsetIsTheOnlyPlace(i: nat, p: nat, period: nat, k: nat)
    requires p < period && k < period
    ensures (i + k) % period == p <==> k == Offset(i, p, period)
  {
    var a, q := i / period, i % period;
    assert i == period * a + q;
    if q + k < period {
      ModUnique(i + k, period, a, q + k);
    } else {
      assert period * (a + 1) == period * a + period;
      ModUnique(i + k, period, a + 1, q + k - period);
    }
  }

  lemma {:induction false} SpreadAt(sums: seq<real>, y: seq<real>, i: nat, mean: real, k: nat, p: nat)
    requires mean != 0.0 && p < |sums| && k <= |sums| && i + |sums| <= |y|
    ensures var o := Offset(i, p, |sums|);
            Spread(sums, y, i, mean, k)[p] == if o < k then sums[p] + y[i + o] / mean else sums[p]
  {
    hide Offset;
    if k > 0 {
      SpreadAt(sums, y, i, mean, k - 1, p);
      OffsetIsTheOnlyPlace(i, p, |sums|, k - 1);
    }
  }

  lemma {:induction false} TallyAt(counts: seq<nat>, i: nat, k: nat, p: nat)
    requires p < |counts| && k <= |counts|
    ensures Tally(counts, i, k)[p] == if Offset(i, p, |counts|) < k then counts[p] + 1 else counts[p]
  {
    hide Offset;
    if k > 0 {
      TallyAt(counts, i, k - 1, p);
      OffsetIsTheOnlyPlace(i, p, |counts|, k - 1);
    }
  }

  lemma DivisionDistributes(a: real, b: real, c: real)
    requires c != 0.0
    ensures (a + b) / c == a / c + b / c
  {}

  lemma {:induction false} SpreadTotal(sums: seq<real>, y: seq<real>, i: nat, mean: real, k: nat)
    requires mean != 0.0 && 0 < |sums| && k <= |sums| && i + |sums| <= |y|
    ensures Total(Spread(sums, y, i, mean, k)) == Total(sums) + RangeSum(y, i, k) / mean
  {
    if k > 0 {
      var s, j := Spread(sums, y, i, mean, k - 1), (i + k - 1) % |sums|;
      SpreadTotal(sums, y, i, mean, k - 1);
      TotalUpdate(s, j, s[j] + y[i + k - 1] / mean);
      DivisionDistributes(RangeSum(y, i, k - 1), y[i + k - 1], mean);
    }
  }

  // ---- All windows ----

  /** Windows with a non-positive mean are skipped. */
  predicate Admitted(y: seq<real>, i: nat, period: nat)
    requires period > 0 && i + period <= |y|
  {
    WindowMean(y, i, period) > 0.0
  }

  function SumsAfter(y: seq<real>, period: nat, n: nat): (r: seq<real>)
    requires period > 0 && (n > 0 ==> n + period <= |y|)
    ensures |r| == period
  {
    if n == 0 then seq(period, _ => 0.0)
    else
      var s := SumsAfter(y, period, n - 1);
      if Admitted(y, n - 1, period) then Spread(s, y, n - 1, WindowMean(y, n - 1, period), period) else s
  }

  function CountsAfter(y: seq<real>, period: nat, n: nat): (r: seq<nat>)
    requires period > 0 && (n > 0 ==> n + period <= |y|)
    ensures |r| == period
  {
    if n == 0 then seq(period, _ => 0)
    else
      var c := CountsAfter(y, period, n - 1);
      if Admitted(y, n - 1, period) then Tally(c, n - 1, period) else c
  }

  function AdmittedCount(y: seq<real>, period: nat, n: nat): nat
    requires period > 0 && (n > 0 ==> n + period <= |y|)
  {
    if n == 0 then 0 else AdmittedCount(y, period, n - 1) + if Admitted(y, n - 1, period) then 1 else 0
  }

  /** The ratios of the positions with residue p to their windows' means. */
  function RatioSum(y: seq<real>, period: nat, n: nat, p: nat): real
    requires p < period && (n > 0 ==> n + period <= |y|)
  {
    if n == 0 then 0.0
    else
      var before := RatioSum(y, period, n - 1, p);
      if Admitted(y, n - 1, period) then
        before + y[n - 1 + Offset(n - 1, p, period)] / WindowMean(y, n - 1, period)
      else before
  }

  /** Every admitted window feeds each residue exactly once. */
  lemma {:induction false} ResiduesAreFedEqually(y: seq<real>, period: nat, n: nat, p: nat)
    requires p < period && (n > 0 ==> n + period <= |y|)
    ensures CountsAfter(y, period, n)[p] == AdmittedCount(y, period, n)
    ensures SumsAfter(y, period, n)[p] == RatioSum(y, period, n, p)
  {
    hide Offset, WindowMean;
    if n > 0 {
      ResiduesAreFedEqually(y, period, n - 1, p);
      if Admitted(y, n - 1, period) {
        AdmittedMean(y, n - 1, period);
        TallyAt(CountsAfter(y, period, n - 1), n - 1, period, p);
        SpreadAt(SumsAfter(y, period, n - 1), y, n - 1, WindowMean(y, n - 1, period), period, p);
      }
    }
  }

  lemma AdmittedMean(y: seq<real>, i: nat, period: nat)
    requires period > 0 && i + period <= |y| && Admitted(y, i, period)
    ensures WindowMean(y, i, period) > 0.0
    ensures RangeSum(y, i, period) / WindowMean(y, i, period) == period as real
  {
    var m, p := WindowMean(y, i, period), period as real;
    assert m * p == RangeSum(y, i, period);
    assert (m * p) / m == p;
  }

  ghost function Scaled(period: nat, c: nat): real { period as real * c as real }

  lemma ScaledStep(period: nat, c: nat)
    ensures Scaled(period, 0) == 0.0
    ensures Scaled(period, c + 1) == Scaled(period, c) + period as real
  {
    assert (c + 1) as real == c as real + 1.0;
  }

  lemma {:induction false} SumsTotal(y: seq<real>, period: nat, n: nat)
    requires period > 0 && (n > 0 ==> n + period <= |y|)
    ensures Total(SumsAfter(y, period, n)) == Scaled(period, AdmittedCount(y, period, n))
  {
    hide Scaled;
    if n == 0 {
      TotalConstant(SumsAfter(y, period, 0), 0.0);
      ScaledStep(period, 0);
    } else {
      hide WindowMean, RangeSum, Spread, Total;
      SumsTotal(y, period, n - 1);
      if Admitted(y, n - 1, period) {
        AdmittedMean(y, n - 1, period);
        SpreadTotal(SumsAfter(y, period, n - 1), y, n - 1, WindowMean(y, n - 1, period), period);
        ScaledStep(period, AdmittedCount(y, period, n - 1));
      }
    }
  }

  // ---- The indices ----

  /** The number of forward windows: those that start at i with i + period < len. */
  function Windows(y: seq<real>, period: nat): nat {
    if |y| > period then |y| - period else 0
  }

  /** Before normalisation: the mean ratio of each season position. */
  function RawIndex(y: seq<real>, period: nat, p: nat): real
    requires p < period
  {
    var n := Windows(y, period);
    if AdmittedCount(y, period, n) > 0 then RatioSum(y, period, n, p) / AdmittedCount(y, period, n) as real else 1.0
  }

  function RawIndices(y: seq<real>, period: nat): (r: seq<real>)
    ensures |r| == period
  {
    seq(period, p requires 0 <= p < period => RawIndex(y, period, p))
  }

  lemma ScaledBack(period: nat, c: nat)
    requires c > 0
    ensures Scaled(period, c) / c as real == period as real
  {}

  /** The indices already sum to the period, so their mean is 1. */
  lemma {:induction false} RawIndicesSumToPeriod(y: seq<real>, period: nat)
    requires period > 0
    ensures Total(RawIndices(y, period)) == period as real
  {
    hide RatioSum, SumsAfter, AdmittedCount;
    var n := Windows(y, period);
    var c := AdmittedCount(y, period, n);
    if c == 0 {
      TotalConstant(RawIndices(y, period), 1.0);
    } else {
      var sums := SumsAfter(y, period, n);
      forall p | 0 <= p < period
        ensures RawIndices(y, period)[p] == sums[p] / c as real
      {
        ResiduesAreFedEqually(y, period, n, p);
      }
      TotalScaled(sums, RawIndices(y, period), c as real);
      SumsTotal(y, period, n);
      ScaledBack(period, c);
    }
  }

  /** `seasonalIndices`, with its closing normalisation: the result is the raw
      indices, because normalising divides by 1. */
  method SeasonalIndices(y: seq<real>, period: nat) returns (indices: seq<real>)
    requires period > 0
    ensures indices == RawIndices(y, period)
  {
    hide RawIndices;
    var sums, counts := AccumulateWindows(y, period);
    var raw := MeanRatios(y, period, sums, counts);
    RawIndicesSumToPeriod(y, period);
    indices := Normalise(raw);
  }

  method MeanRatios(y: seq<real>, period: nat, sums: seq<real>, counts: seq<nat>) returns (raw: seq<real>)
    requires period > 0 && sums == SumsAfter(y, period, Windows(y, period))
    requires counts == CountsAfter(y, period, Windows(y, period))
    ensures raw == RawIndices(y, period)
  {
    hide RatioSum, SumsAfter, AdmittedCount, CountsAfter;
    raw := [];
    for p := 0 to period
      invariant |raw| == p && forall k :: 0 <= k < p ==> raw[k] == RawIndex(y, period, k)
    {
      ResiduesAreFedEqually(y, period, Windows(y, period), p);
      raw := raw + [if counts[p] > 0 then sums[p] / counts[p] as real else 1.0];
    }
  }

  method MeanOf(raw: seq<real>) returns (mean: real)
    requires raw != []
    ensures mean == Total(raw) / |raw| as real
  {
    mean := 0.0;
    for p := 0 to |raw|
      invariant mean == Total(raw[..p])
    {
      assert raw[..p + 1][..p] == raw[..p];
      mean := mean + raw[p];
    }
    assert raw[..|raw|] == raw;
    mean := mean / |raw| as real;
  }

  /** Dividing by the mean leaves indices of mean 1 unchanged. */
  method Normalise(raw: seq<real>) returns (indices: seq<real>)
    requires raw != []
    ensures |indices| == |raw|
    ensures Total(raw) == |raw| as real ==> indices == raw
  {
    hide Total;
    var mean := MeanOf(raw);
    QuotientOfSelf(|raw| as real);
    indices := DivideAll(raw, if mean <= 0.0 then 1.0 else mean);
  }

  lemma QuotientOfSelf(a: real)
    requires a != 0.0
    ensures a / a == 1.0
  {}

  function Quotient(x: real, d: real): real
    requires d != 0.0
  {
    x / d
  }

  method DivideAll(raw: seq<real>, d: real) returns (indices: seq<real>)
    requires d != 0.0
    ensures |indices| == |raw| && forall k :: 0 <= k < |raw| ==> indices[k] == Quotient(raw[k], d)
    ensures d == 1.0 ==> indices == raw
  {
    hide Quotient;
    indices := [];
    for p := 0 to |raw|
      invariant |indices| == p && forall k :: 0 <= k < p ==> indices[k] == Quotient(raw[k], d)
    {
      indices := indices + [Quotient(raw[p], d)];
    }
    forall k | 0 <= k < |raw| && d == 1.0 ensures indices[k] == raw[k] { QuotientByOne(raw[k]); }
  }

  lemma QuotientByOne(x: real)
    ensures Quotient(x, 1.0) == x
  {}

  method AccumulateWindows(y: seq<real>, period: nat) returns (sums: seq<real>, counts: seq<nat>)
    requires period > 0
    ensures sums == SumsAfter(y, period, Windows(y, period))
    ensures counts == CountsAfter(y, period, Windows(y, period))
  {
    var s, c := new real[period](_ => 0.0), new nat[period](_ => 0);
    var i := 0;
    while i + period < |y|
      invariant i <= Windows(y, period)
      invariant s[..] == SumsAfter(y, period, i) && c[..] == CountsAfter(y, period, i)
    {
      var windowMean := MeanOfWindow(y, i, period);
      if windowMean > 0.0 {
        AddWindow(s, c, y, i, windowMean);
      }
      i := i + 1;
    }
    sums, counts := s[..], c[..];
  }

  method MeanOfWindow(y: seq<real>, i: nat, period: nat) returns (mean: real)
    requires period > 0 && i + period <= |y|
    ensures mean == WindowMean(y, i, period)
  {
    mean := 0.0;
    for k := 0 to period
      invariant mean == RangeSum(y, i, k)
    {
      mean := mean + y[i + k];
    }
    mean := mean / period as real;
  }

  method AddWindow(sums: array<real>, counts: array<nat>, y: seq<real>, i: nat, mean: real)
    requires 0 < sums.Length == counts.Length && i + sums.Length <= |y| && mean != 0.0
    modifies sums, counts
    ensures sums[..] == Spread(old(sums[..]), y, i, mean, sums.Length)
    ensures counts[..] == Tally(old(counts[..]), i, counts.Length)
  {
    var period := sums.Length;
    for k := 0 to period
      invariant sums[..] == Spread(old(sums[..]), y, i, mean, k)
      invariant counts[..] == Tally(old(counts[..]), i, k)
    {
      var j := (i + k) % period;
      sums[j] := sums[j] + y[i + k] / mean;
      counts[j] := counts[j] + 1;
    }
  }
}
