/** Time-proportional allocation of fuel reports to voyage windows. */
module FuelAllocation {

  /** The greatest `time.Duration`, about 292 years in nanoseconds. */
  const MAX_DURATION: int := 0x7FFF_FFFF_FFFF_FFFF
  const U64_MAX: nat := 0xFFFF_FFFF_FFFF_FFFF

  datatype Window = Window(start: int, end: int)

  function Max(a: int, b: int): int { if a > b then a else b }
  function Min(a: int, b: int): int { if a < b then a else b }

  /** `a.Sub(b)`: the difference saturates at the ends of the duration range. */
  function Sub(a: int, b: int): int { Max(-MAX_DURATION - 1, Min(MAX_DURATION, a - b)) }

  /** `allocateOverlap`: the share of `fuel` that falls inside the window. */
  function AllocateOverlap(periodFrom: int, periodTo: int, w: Window, fuel: nat): (r: nat)
    ensures r <= fuel
  {
    var start := if w.start > periodFrom then w.start else periodFrom;
    var end := if w.end < periodTo then w.end else periodTo;
    var overlap, period := Sub(end, start), Sub(periodTo, periodFrom);
    if overlap <= 0 || period <= 0 then 0
    else ShareAtMost(fuel, overlap, period); (fuel * overlap) / period
  }

  lemma AtMostWhole(fuel: nat, part: int, whole: int)
    requires part <= whole
    ensures fuel * part <= fuel * whole
  {
    assert fuel * (whole - part) >= 0;
  }

  lemma ShareAtMost(fuel: nat, overlap: int, period: int)
    requires 0 <= overlap <= period && 0 < period
    ensures 0 <= (fuel * overlap) / period <= fuel
  {
    AtMostWhole(fuel, overlap, period);
    QuotientBounds(fuel * overlap, period);
    CancelAtMost(period, (fuel * overlap) / period, fuel);
  }

  lemma QuotientBounds(n: nat, d: int)
    requires d > 0
    ensures 0 <= n / d && d * (n / d) <= n <= d * (n / d) + d - 1
  {}

  lemma CancelAtMost(d: int, a: int, b: int)
    requires d > 0
    ensures d * a <= d * b <==> a <= b
  {
    if a > b { assert d * (a - b) > 0; } else { assert d * (b - a) >= 0; }
  }

  // ---- Allocation over several windows ----

  /** Nanoseconds of the period covered by the window. */
  function Covered(periodFrom: int, periodTo: int, w: Window): nat {
    Max(0, Min(periodTo, w.end) - Max(periodFrom, w.start))
  }

  function CoveredBy(periodFrom: int, periodTo: int, ws: seq<Window>): nat {
    if ws == [] then 0
    else CoveredBy(periodFrom, periodTo, ws[..|ws| - 1]) + Covered(periodFrom, periodTo, ws[|ws| - 1])
  }

  /** The fuel that a list of windows draws from one report. */
  function Drawn(periodFrom: int, periodTo: int, ws: seq<Window>, fuel: nat): nat {
    if ws == [] then 0
    else Drawn(periodFrom, periodTo, ws[..|ws| - 1], fuel) + AllocateOverlap(periodFrom, periodTo, ws[|ws| - 1], fuel)
  }

  ghost predicate NonEmpty(ws: seq<Window>) {
    forall i :: 0 <= i < |ws| ==> ws[i].start < ws[i].end
  }

  /** Windows in order, none reaching into a later one. */
  ghost predicate Disjoint(ws: seq<Window>) {
    NonEmpty(ws) && forall i, j :: 0 <= i < j < |ws| ==> ws[i].end <= ws[j].start
  }

  lemma {:induction false} DisjointCoverage(periodFrom: int, periodTo: int, ws: seq<Window>)
    requires Disjoint(ws) && periodFrom <= periodTo
    ensures CoveredBy(periodFrom, periodTo, ws) <=
            if ws == [] then 0 else Max(0, Min(periodTo, ws[|ws| - 1].end) - periodFrom)
  {
    if |ws| > 0 {
      var n := |ws| - 1;
      DisjointCoverage(periodFrom, periodTo, ws[..n]);
      if n > 0 { assert ws[n - 1].end <= ws[n].start; }
    }
  }

  lemma UnsaturatedShare(periodFrom: int, periodTo: int, w: Window, fuel: nat)
    requires 0 < periodTo - periodFrom <= MAX_DURATION
    ensures AllocateOverlap(periodFrom, periodTo, w, fuel) ==
            (fuel * Covered(periodFrom, periodTo, w)) / (periodTo - periodFrom)
  {
    var c, p := Covered(periodFrom, periodTo, w), periodTo - periodFrom;
    if c == 0 { assert fuel * c == 0; }
  }

  /** The draw is the covered share, short by less than one unit per window. */
  lemma {:induction false} DrawnShare(periodFrom: int, periodTo: int, ws: seq<Window>, fuel: nat)
    requires 0 < periodTo - periodFrom <= MAX_DURATION
    ensures var p := periodTo - periodFrom;
            var share := fuel * CoveredBy(periodFrom, periodTo, ws);
            share - |ws| * (p - 1) <= p * Drawn(periodFrom, periodTo, ws, fuel) <= share
  {
    hide AllocateOverlap, Covered, Max, Min;
    if ws != [] {
      var n, p := |ws| - 1, periodTo - periodFrom;
      DrawnShare(periodFrom, periodTo, ws[..n], fuel);
      UnsaturatedShare(periodFrom, periodTo, ws[n], fuel);
      ShareStep(p, fuel, n, CoveredBy(periodFrom, periodTo, ws[..n]), Drawn(periodFrom, periodTo, ws[..n], fuel),
                Covered(periodFrom, periodTo, ws[n]));
    }
  }

  lemma ShareStep(p: int, fuel: nat, n: int, covered: nat, drawn: nat, c: nat)
    requires p > 0 && fuel * covered - n * (p - 1) <= p * drawn <= fuel * covered
    ensures var q := (fuel * c) / p;
            fuel * (covered + c) - (n + 1) * (p - 1) <= p * (drawn + q) <= fuel * (covered + c)
  {
    var q := (fuel * c) / p;
    QuotientBounds(fuel * c, p);
    assert fuel * (covered + c) == fuel * covered + fuel * c;
    assert (n + 1) * (p - 1) == n * (p - 1) + (p - 1);
    assert p * (drawn + q) == p * drawn + p * q;
  }

  /** Disjoint windows together never draw more than the report's fuel. */
  lemma DisjointWindowsDrawAtMostTheFuel(periodFrom: int, periodTo: int, ws: seq<Window>, fuel: nat)
    requires Disjoint(ws) && periodTo - periodFrom <= MAX_DURATION
    ensures Drawn(periodFrom, periodTo, ws, fuel) <= fuel
  {
    hide Drawn, CoveredBy, Covered, AllocateOverlap;
    if periodFrom < periodTo {
      var p, c := periodTo - periodFrom, CoveredBy(periodFrom, periodTo, ws);
      DrawnShare(periodFrom, periodTo, ws, fuel);
      DisjointCoverage(periodFrom, periodTo, ws);
      AtMostWhole(fuel, c, p);
      CancelAtMost(p, Drawn(periodFrom, periodTo, ws, fuel), fuel);
    } else {
      DegeneratePeriodDrawsNothing(periodFrom, periodTo, ws, fuel);
    }
  }

  lemma {:induction false} DegeneratePeriodDrawsNothing(periodFrom: int, periodTo: int, ws: seq<Window>, fuel: nat)
    requires periodTo <= periodFrom
    ensures Drawn(periodFrom, periodTo, ws, fuel) == 0
  {
    if ws != [] {
      DegeneratePeriodDrawsNothing(periodFrom, periodTo, ws[..|ws| - 1], fuel);
    }
  }

  /** Windows that tile the period without gap or overlap. */
  ghost predicate Tiles(periodFrom: int, periodTo: int, ws: seq<Window>) {
    && NonEmpty(ws) && ws != []
    && ws[0].start == periodFrom && ws[|ws| - 1].end == periodTo
    && forall i :: 0 < i < |ws| ==> ws[i - 1].end == ws[i].start
  }

  lemma {:induction false} ChainsAscend(ws: seq<Window>, i: nat, j: nat)
    requires NonEmpty(ws) && (forall i :: 0 < i < |ws| ==> ws[i - 1].end == ws[i].start)
    requires i < j < |ws|
    ensures ws[i].end <= ws[j].start
  {
    if i + 1 < j {
      ChainsAscend(ws, i, j - 1);
      assert ws[j - 1].end == ws[j].start;
    } else {
      assert ws[j - 1].end == ws[j].start;
    }
  }

  lemma {:induction false} ChainCoverage(periodFrom: int, periodTo: int, ws: seq<Window>, k: nat)
    requires Tiles(periodFrom, periodTo, ws) && k <= |ws|
    ensures CoveredBy(periodFrom, periodTo, ws[..k]) == if k == 0 then 0 else ws[k - 1].end - periodFrom
    ensures k > 0 ==> periodFrom < ws[k - 1].end <= periodTo
  {
    if k > 0 {
      ChainCoverage(periodFrom, periodTo, ws, k - 1);
      assert ws[..k][..k - 1] == ws[..k - 1];
      if k < |ws| { ChainsAscend(ws, k - 1, |ws| - 1); }
    }
  }

  /** k windows that tile the period lose at most k - 1 units, and gain none. */
  lemma TilingLosesLessThanOneUnitPerWindow(periodFrom: int, periodTo: int, ws: seq<Window>, fuel: nat)
    requires Tiles(periodFrom, periodTo, ws) && periodTo - periodFrom <= MAX_DURATION
    ensures fuel - (|ws| - 1) <= Drawn(periodFrom, periodTo, ws, fuel) <= fuel
  {
    hide Drawn, CoveredBy, AllocateOverlap, Covered;
    var n, p, d := |ws|, periodTo - periodFrom, Drawn(periodFrom, periodTo, ws, fuel);
    forall i, j | 0 <= i < j < n ensures ws[i].end <= ws[j].start { ChainsAscend(ws, i, j); }
    DisjointWindowsDrawAtMostTheFuel(periodFrom, periodTo, ws, fuel);
    ChainCoverage(periodFrom, periodTo, ws, n);
    assert ws[..n] == ws;
    DrawnShare(periodFrom, periodTo, ws, fuel);
    TilingArithmetic(p, d, fuel, n);
  }

  lemma TilingArithmetic(p: int, d: int, fuel: int, n: int)
    requires p > 0 && p * d >= fuel * p - n * (p - 1) && n > 0
    ensures d >= fuel - n + 1
  {
    assert p * (fuel - n) == fuel * p - n * p;
    assert n * (p - 1) == n * p - n;
    CancelAtMost(p, d, fuel - n);
  }

  /** A period longer than a duration can express breaks the bound: its length
      saturates while the windows' overlaps add up to the true length. So the
      bound holds for every fuel amount and every set of disjoint windows if and
      only if the period fits. */
  lemma BoundHoldsExactlyWhenThePeriodFits(periodFrom: int, periodTo: int)
    ensures periodTo - periodFrom <= MAX_DURATION <==>
            forall ws, fuel: nat {:trigger Drawn(periodFrom, periodTo, ws, fuel)} ::
              fuel <= U64_MAX && Disjoint(ws) ==> Drawn(periodFrom, periodTo, ws, fuel) <= fuel
  {
    if periodTo - periodFrom <= MAX_DURATION {
      forall ws, fuel: nat | Disjoint(ws) ensures Drawn(periodFrom, periodTo, ws, fuel) <= fuel {
        DisjointWindowsDrawAtMostTheFuel(periodFrom, periodTo, ws, fuel);
      }
    } else {
      var w0 := Window(periodFrom, periodFrom + MAX_DURATION);
      var w1 := Window(periodFrom + MAX_DURATION, periodFrom + MAX_DURATION + 1);
      var m := MAX_DURATION as nat;
      assert AllocateOverlap(periodFrom, periodTo, w0, m) == (m * m) / m == m;
      assert AllocateOverlap(periodFrom, periodTo, w1, m) == (m * 1) / m == 1;
      assert [w0, w1][..1] == [w0] && [w0][..0] == [];
      assert Drawn(periodFrom, periodTo, [w0], m) == m;
      assert Drawn(periodFrom, periodTo, [w0, w1], m) == m + 1;
      assert Disjoint([w0, w1]) && m <= U64_MAX;
    }
  }
}
