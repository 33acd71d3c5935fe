/** The voyages a summary keeps never claim more fuel or CO2 than was reported. */
module EmissionsConservation {
  import opened Options
  import opened FuelAllocation
  import opened VoyageEmissions
  import Outbox

  function WindowsOf(vs: seq<Voyage>): seq<Window> {
    seq(|vs|, i requires 0 <= i < |vs| => vs[i].window)
  }

  // ---- The kept voyages are pairwise disjoint ----

  lemma {:induction false} KeptOrigin(vs: seq<Voyage>, n: nat, v: Voyage) returns (i: nat)
    requires n <= |vs| && v in KeptUpTo(vs, n)
    ensures i < n && vs[i] == v && !Clashes(vs, i)
  {
    if v in KeptUpTo(vs, n - 1) {
      i := KeptOrigin(vs, n - 1, v);
    } else {
      i := n - 1;
    }
  }

  lemma {:induction false} KeptUpToIsDisjoint(vs: seq<Voyage>, n: nat)
    requires n <= |vs| && Ordered(vs)
    requires forall i :: 0 <= i < |vs| ==> vs[i].window.start < vs[i].window.end
    ensures Disjoint(WindowsOf(KeptUpTo(vs, n)))
  {
    if n > 0 {
      KeptUpToIsDisjoint(vs, n - 1);
      var before := KeptUpTo(vs, n - 1);
      forall k | 0 <= k < |before| && !Clashes(vs, n - 1)
        ensures before[k].window.end <= vs[n - 1].window.start
      {
        var i := KeptOrigin(vs, n - 1, before[k]);
        assert !Overlap(vs[i].window, vs[n - 1].window);
      }
      var ws, ws' := WindowsOf(before), WindowsOf(KeptUpTo(vs, n));
      assert ws' == if Clashes(vs, n - 1) then ws else ws + [vs[n - 1].window];
    }
  }

  lemma KeptIsDisjoint(vs: seq<Voyage>)
    requires Ordered(vs)
    ensures Disjoint(WindowsOf(Kept(vs)))
  {
    hide Clashes, Overlap, Disjoint;
    ComputableMembers(vs);
    ComputableOrder(vs);
    var c := Computable(vs);
    forall i | 0 <= i < |c| ensures c[i].window.start < c[i].window.end { assert c[i] in c; }
    KeptUpToIsDisjoint(c, |c|);
  }

  /** Over all voyages a summary keeps, no report gives out more than its fuel. */
  lemma KeptVoyagesDrawAtMostTheFuel(vs: seq<Voyage>, r: FuelReport)
    requires Ordered(vs) && r.periodTo - r.periodFrom <= MAX_DURATION
    ensures Drawn(r.periodFrom, r.periodTo, WindowsOf(Kept(vs)), r.fuel) <= r.fuel
  {
    KeptIsDisjoint(vs);
    DisjointWindowsDrawAtMostTheFuel(r.periodFrom, r.periodTo, WindowsOf(Kept(vs)), r.fuel);
  }

  // ---- CO2 row by row ----

  /** The CO2 one voyage draws from one report. */
  function RowCo2(r: FuelReport, w: Window, registry: Registry): nat {
    if Share(r, w) == 0 then 0 else Co2Amount(r, Share(r, w), registry)
  }

  function RowCo2Over(r: FuelReport, ws: seq<Window>, registry: Registry): nat {
    if ws == [] then 0 else RowCo2Over(r, ws[..|ws| - 1], registry) + RowCo2(r, ws[|ws| - 1], registry)
  }

  lemma LastRow(rs: seq<FuelReport>, w: Window, registry: Registry)
    requires rs != []
    ensures var n := |rs| - 1;
            Co2In(VoyagePostings(rs, w, registry)) ==
            Co2In(VoyagePostings(rs[..n], w, registry)) + RowCo2(rs[n], w, registry)
  {
    hide Share;
    var n := |rs| - 1;
    var ps := VoyagePostings(rs[..n], w, registry);
    if Share(rs[n], w) == 0 {
      assert ps + [] == ps;
    } else {
      SumSnoc(ps, PostingOf(rs[n], Share(rs[n], w), registry));
    }
  }

  /** The summary total, split by the last report instead of by voyage. */
  lemma {:induction false} SplitLastRow(vs: seq<Voyage>, rs: seq<FuelReport>, registry: Registry)
    requires rs != []
    ensures var n := |rs| - 1;
            SummaryCo2(vs, rs, registry) ==
            SummaryCo2(vs, rs[..n], registry) + RowCo2Over(rs[n], WindowsOf(vs), registry)
  {
    hide LedgerOf, VoyagePostings, RowCo2;
    if vs != [] {
      var n, m := |rs| - 1, |vs| - 1;
      var w := vs[m].window;
      SplitLastRow(vs[..m], rs, registry);
      assert WindowsOf(vs)[..m] == WindowsOf(vs[..m]);
      LedgerSums(VoyagePostings(rs, w, registry), "");
      LedgerSums(VoyagePostings(rs[..n], w, registry), "");
      LastRow(rs, w, registry);
    }
  }

  lemma {:induction false} NoReportsNoCo2(vs: seq<Voyage>, registry: Registry)
    ensures SummaryCo2(vs, [], registry) == 0
  {
    if vs != [] {
      NoReportsNoCo2(vs[..|vs| - 1], registry);
    }
  }

  // ---- One report never yields more CO2 in parts than as a whole ----

  /** Any part of a compilable report is computable, at the same factor. */
  lemma PartIsComputable(r: FuelReport, part: nat, registry: Registry)
    requires Co2Of(r, r.fuel, registry).Ok? && part <= r.fuel
    ensures Co2Of(r, part, registry).Ok?
    ensures Co2Amount(r, part, registry) == part * registry(r.grade, r.periodTo).value / NANO
  {
    var f := registry(r.grade, r.periodTo).value;
    GuardIsExact(r.fuel, f);
    GuardIsExact(part, f);
    AtMostWhole(f, part, r.fuel);
  }

  lemma {:induction false} PartsScaled(r: FuelReport, ws: seq<Window>, registry: Registry)
    requires Co2Of(r, r.fuel, registry).Ok?
    ensures NANO * RowCo2Over(r, ws, registry) <=
            Drawn(r.periodFrom, r.periodTo, ws, r.fuel) * registry(r.grade, r.periodTo).value
  {
    if ws != [] {
      var n, f := |ws| - 1, registry(r.grade, r.periodTo).value;
      hide Co2Of, Co2Amount, AllocateOverlap;
      PartsScaled(r, ws[..n], registry);
      PartIsComputable(r, Share(r, ws[n]), registry);
      ScaledStep(RowCo2Over(r, ws[..n], registry), Drawn(r.periodFrom, r.periodTo, ws[..n], r.fuel), Share(r, ws[n]), f);
    }
  }

  lemma ScaledStep(co2: nat, drawn: nat, share: nat, f: nat)
    requires NANO * co2 <= drawn * f
    ensures NANO * (co2 + share * f / NANO) <= (drawn + share) * f
    ensures share == 0 ==> share * f / NANO == 0
  {
    QuotientBounds(share * f, NANO);
    assert (drawn + share) * f == drawn * f + share * f;
    if share == 0 { assert share * f == 0; }
  }

  lemma PartsAtMostWhole(r: FuelReport, ws: seq<Window>, registry: Registry)
    requires Co2Of(r, r.fuel, registry).Ok? && Disjoint(ws) && r.periodTo - r.periodFrom <= MAX_DURATION
    ensures RowCo2Over(r, ws, registry) <= Co2Amount(r, r.fuel, registry)
  {
    assert registry(r.grade, r.periodTo).Some?;
    hide Co2Of, Co2Amount, Drawn, RowCo2Over, Disjoint;
    var f, drawn := registry(r.grade, r.periodTo).value, Drawn(r.periodFrom, r.periodTo, ws, r.fuel);
    DisjointWindowsDrawAtMostTheFuel(r.periodFrom, r.periodTo, ws, r.fuel);
    PartsScaled(r, ws, registry);
    PartIsComputable(r, r.fuel, registry);
    WholeArithmetic(RowCo2Over(r, ws, registry), drawn, r.fuel, f);
  }

  lemma WholeArithmetic(co2: nat, drawn: nat, fuel: nat, f: nat)
    requires NANO * co2 <= drawn * f && drawn <= fuel
    ensures co2 <= fuel * f / NANO
  {
    AtMostWhole(f, drawn, fuel);
    QuotientBounds(fuel * f, NANO);
  }

  // ---- The theorem ----

  ghost predicate PeriodsFit(rs: seq<FuelReport>) {
    forall i :: 0 <= i < |rs| ==> rs[i].periodTo - rs[i].periodFrom <= MAX_DURATION
  }

  lemma {:induction false} KeptCo2AtMostAnnual(vs: seq<Voyage>, rs: seq<FuelReport>, registry: Registry)
    requires Disjoint(WindowsOf(vs)) && Compilable(rs, registry) && PeriodsFit(rs)
    ensures SummaryCo2(vs, rs, registry) <= Co2In(AnnualPostings(rs, registry))
  {
    hide Co2Of, Disjoint, SummaryCo2, RowCo2Over;
    if rs == [] {
      NoReportsNoCo2(vs, registry);
    } else {
      var n := |rs| - 1;
      assert forall i :: 0 <= i < n ==> rs[..n][i] == rs[i];
      KeptCo2AtMostAnnual(vs, rs[..n], registry);
      SplitLastRow(vs, rs, registry);
      PartsAtMostWhole(rs[n], WindowsOf(vs), registry);
      SumSnoc(AnnualPostings(rs[..n], registry), PostingOf(rs[n], rs[n].fuel, registry));
    }
  }

  /** Whenever the annual compile of the same reports succeeds, the kept voyages have
      all their factors and their total CO2 is at most the compiled total. */
  lemma SummaryNeverExceedsAnnual(vs: seq<Voyage>, rs: seq<FuelReport>, registry: Registry)
    requires Ordered(vs) && Compilable(rs, registry) && PeriodsFit(rs)
    ensures forall v :: v in Kept(vs) ==> VoyageComputable(rs, v.window, registry)
    ensures SummaryCo2(Kept(vs), rs, registry) <= LedgerOf(AnnualPostings(rs, registry)).co2
  {
    hide Co2Of, Disjoint, SummaryCo2, Kept, AllocateOverlap, Ordered;
    KeptIsDisjoint(vs);
    KeptCo2AtMostAnnual(Kept(vs), rs, registry);
    LedgerSums(AnnualPostings(rs, registry), "");
    forall v, i | v in Kept(vs) && 0 <= i < |rs| && Share(rs[i], v.window) > 0
      ensures Co2Of(rs[i], Share(rs[i], v.window), registry).Ok?
    {
      PartIsComputable(rs[i], Share(rs[i], v.window), registry);
    }
  }

  /** Where the annual compile succeeds, the summary succeeds if and only if no voyage
      is kept or the outbox admits the voyages' events. */
  lemma SummarySucceedsExactlyWhen(imo: string, vs: seq<Voyage>, rs: seq<FuelReport>, registry: Registry, admitted: set<string>)
    requires Ordered(vs) && Compilable(rs, registry) && PeriodsFit(rs)
    ensures AllPass(Kept(vs), imo, rs, registry, admitted) <==> Kept(vs) == [] || Enqueues(imo, admitted)
  {
    hide Kept, Enqueues, VoyageComputable, Ordered, Compilable;
    SummaryNeverExceedsAnnual(vs, rs, registry);
  }

  /** With the table as it is, whatever the reports, the summary succeeds if and only
      if it keeps no voyage. */
  lemma SummaryAsShipped(imo: string, vs: seq<Voyage>, rs: seq<FuelReport>, registry: Registry)
    ensures AllPass(Kept(vs), imo, rs, registry, Outbox.STORABLE) <==> Kept(vs) == []
  {
    hide Kept;
    Outbox.OnlyVoyageEmissionsIsRefused(EVENT);
  }
}
