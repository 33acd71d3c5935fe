/** The vessel histories after whole runs of static reports, in any arrival order. */
module VesselHistory {
  import opened Options
  import opened VesselStatic

  ghost function After(reports: seq<Report>): seq<Row> {
    if reports == [] then [] else Upsert(After(reports[..|reports| - 1]), reports[|reports| - 1]).0
  }

  /** Reports of different vessels carry different ids; a vessel may repeat its own. */
  ghost predicate ReportsApart(reports: seq<Report>) {
    forall i, j :: 0 <= i < |reports| && 0 <= j < |reports| && reports[i].mmsi != reports[j].mmsi ==>
      reports[i].id != reports[j].id
  }

  ghost predicate FromReports(rows: seq<Row>, reports: seq<Report>) {
    forall i :: 0 <= i < |rows| ==> FromReport(rows[i], reports)
  }

  ghost predicate FromReport(row: Row, reports: seq<Report>) {
    exists j :: 0 <= j < |reports| && reports[j].id == row.id && reports[j].mmsi == row.mmsi
  }

  lemma FromReportGrows(row: Row, reports: seq<Report>)
    requires reports != [] && FromReport(row, reports[..|reports| - 1])
    ensures FromReport(row, reports)
  {
    var before := reports[..|reports| - 1];
    var j :| 0 <= j < |before| && before[j].id == row.id && before[j].mmsi == row.mmsi;
    assert reports[j] == before[j];
  }

  lemma {:induction false} RowsComeFromReports(reports: seq<Report>)
    ensures FromReports(After(reports), reports)
  {
    if reports != [] {
      var n := |reports| - 1;
      var before, after := After(reports[..n]), After(reports);
      assert after == Upsert(before, reports[n]).0;
      RowsComeFromReports(reports[..n]);
      hide After, Upsert;
      UpsertIds(before, reports[n]);
      forall i | 0 <= i < |after| ensures FromReport(after[i], reports) {
        if i < |before| {
          assert FromReport(before[i], reports[..n]);
          FromReportGrows(before[i], reports);
        } else {
          assert reports[n].id == after[i].id;
        }
      }
    }
  }

  /** Rows of a run are as far apart as its reports, also from its last report. */
  lemma RowsApart(reports: seq<Report>, rows: seq<Row>)
    requires ReportsApart(reports) && FromReports(rows, reports)
    ensures IdsApart(rows)
    ensures forall k :: 0 <= k < |reports| ==> IdApart(rows, reports[k])
  {
    assert forall i :: 0 <= i < |rows| ==> FromReport(rows[i], reports);
    forall i, j | 0 <= i < |rows| && 0 <= j < |rows| && rows[i].mmsi != rows[j].mmsi ensures rows[i].id != rows[j].id {
      assert FromReport(rows[i], reports) && FromReport(rows[j], reports);
    }
    forall k, i | 0 <= k < |reports| && 0 <= i < |rows| && rows[i].mmsi != reports[k].mmsi
      ensures rows[i].id != reports[k].id
    {
      assert FromReport(rows[i], reports);
    }
  }

  lemma LastReportIsApart(reports: seq<Report>)
    requires ReportsApart(reports) && reports != []
    ensures ReportsApart(reports[..|reports| - 1])
    ensures var before := After(reports[..|reports| - 1]); IdsApart(before) && IdApart(before, reports[|reports| - 1])
  {
    hide After;
    var n := |reports| - 1;
    var before := After(reports[..n]);
    RowsComeFromReports(reports[..n]);
    forall i | 0 <= i < |before| ensures FromReport(before[i], reports) {
      assert FromReport(before[i], reports[..n]);
      FromReportGrows(before[i], reports);
    }
    RowsApart(reports, before);
  }

  lemma ApartMeansSoleOwner(rows: seq<Row>, r: Report)
    requires IdsApart(rows)
    ensures !ClosesAnothersRow(rows, r)
    ensures var current := Current(rows, r.mmsi); current.Some? ==> SoleOwner(rows, current.value)
  {}

  /** Any reports of any vessels, in any order: every vessel's versions tile time, as
      long as no two vessels share a report id. One vessel alone needs no premise. */
  lemma {:induction false} HistoriesTile(reports: seq<Report>)
    requires ReportsApart(reports)
    ensures AllTiled(After(reports))
  {
    if reports != [] {
      var n := |reports| - 1;
      assert After(reports) == Upsert(After(reports[..n]), reports[n]).0;
      hide *;
      LastReportIsApart(reports);
      HistoriesTile(reports[..n]);
      ApartMeansSoleOwner(After(reports[..n]), reports[n]);
      StaysTiledExactlyWhen(After(reports[..n]), reports[n]);
    } else {
      assert After(reports) == [];
    }
  }

  ghost predicate TiledAt(reports: seq<Report>, k: nat)
    requires k <= |reports|
  {
    AllTiled(After(reports[..k]))
  }

  ghost predicate ClosesAnothersAt(reports: seq<Report>, k: nat)
    requires k < |reports|
  {
    ClosesAnothersRow(After(reports[..k]), reports[k])
  }

  lemma TiledStep(reports: seq<Report>, k: nat)
    requires k < |reports| && TiledAt(reports, k)
    ensures TiledAt(reports, k + 1) <==> !ClosesAnothersAt(reports, k)
  {
    assert reports[..k + 1][..k] == reports[..k];
    assert After(reports[..k + 1]) == Upsert(After(reports[..k]), reports[k]).0;
    hide After, Upsert, AllTiled, ClosesAnothersRow;
    StaysTiledExactlyWhen(After(reports[..k]), reports[k]);
  }

  lemma {:induction false} TiledUpTo(reports: seq<Report>, k: nat)
    requires k <= |reports| && TiledAt(reports, 0) && forall j :: 0 <= j < |reports| ==> !ClosesAnothersAt(reports, j)
    ensures TiledAt(reports, k)
  {
    hide TiledAt, ClosesAnothersAt;
    if k > 0 {
      TiledUpTo(reports, k - 1);
      TiledStep(reports, k - 1);
    }
  }

  /** Any reports, with any ids: all histories are tiled at every point of the run, if
      and only if no upsert of the run closes another vessel's row. */
  lemma RunStaysTiledExactlyWhen(reports: seq<Report>)
    ensures (forall k :: 0 <= k <= |reports| ==> TiledAt(reports, k)) <==>
            (forall k :: 0 <= k < |reports| ==> !ClosesAnothersAt(reports, k))
  {
    assert reports[..0] == [] && TiledAt(reports, 0);
    hide TiledAt, ClosesAnothersAt;
    if forall k :: 0 <= k < |reports| ==> !ClosesAnothersAt(reports, k) {
      forall k | 0 <= k <= |reports| ensures TiledAt(reports, k) { TiledUpTo(reports, k); }
    } else {
      var k :| 0 <= k < |reports| && ClosesAnothersAt(reports, k);
      if TiledAt(reports, k) { TiledStep(reports, k); }
    }
  }

  /** A single vessel's reports may carry any ids. */
  lemma OneVesselTiles(reports: seq<Report>, mmsi: string)
    requires forall i :: 0 <= i < |reports| ==> reports[i].mmsi == mmsi
    ensures AllTiled(After(reports))
  {
    hide AllTiled, After;
    HistoriesTile(reports);
  }

  // ---- Which reports the history consists of ----

  /** A report opens a version when the table can store it and it is the first, or
      newer than the last opening and different from it. */
  predicate Opens(openings: seq<Report>, r: Report) {
    Storable(r) &&
    (openings == [] ||
     var last := openings[|openings| - 1];
     last.observedAt < r.observedAt && Compared(last) != Compared(r))
  }

  /** What is compared: the attributes, where an absent position-fixing type counts as
      unspecified. */
  function Compared(r: Report): Attributes {
    r.attributes.(epfsType := if r.attributes.epfsType == "" then "UNSPECIFIED" else r.attributes.epfsType)
  }

  lemma ComparedIsNormalised(r: Report)
    ensures Compared(r) == Normalised(r.attributes)
  {}

  /** The row holds what the report said, from the time it was observed. */
  ghost predicate Holds(row: Row, r: Report) {
    && row.id == r.id && row.mmsi == r.mmsi && row.attributes == Compared(r) && row.eta == r.eta && row.labels == r.labels
    && row.validFrom == r.observedAt
  }

  /** The version-opening reports of a vessel, in arrival order. */
  function Openings(reports: seq<Report>, mmsi: string): seq<Report> {
    if reports == [] then []
    else
      var n := |reports| - 1;
      var before := Openings(reports[..n], mmsi);
      if reports[n].mmsi == mmsi && Opens(before, reports[n]) then before + [reports[n]] else before
  }

  /** The rows those reports stand for: each valid until the next was observed. */
  function Versions(openings: seq<Report>): (h: seq<Row>)
    ensures |h| == |openings|
  {
    seq(|openings|, i requires 0 <= i < |openings| =>
      NewRow(openings[i]).(validTo := if i + 1 < |openings| then Some(openings[i + 1].observedAt) else None))
  }

  lemma VersionsSnoc(openings: seq<Report>, r: Report)
    ensures Versions(openings + [r]) == Extended(Versions(openings), r)
  {}

  /** The row an upsert looks at is that of the last opening. */
  lemma CurrentIsTheLastOpening(rows: seq<Row>, mmsi: string, openings: seq<Report>)
    requires Tiled(HistoryOf(rows, mmsi)) && HistoryOf(rows, mmsi) == Versions(openings)
    ensures var current := Current(rows, mmsi);
            && (current.Some? <==> openings != [])
            && (current.Some? ==>
                  var last := openings[|openings| - 1];
                  rows[current.value].attributes == Compared(last) && rows[current.value].validFrom == last.observedAt)
  {
    var current := Current(rows, mmsi);
    hide HistoryOf, Tiled, Current, Versions, Compared;
    if current.Some? {
      OpenIsLast(rows, current.value);
      assert openings != [];
      VersionHolds(openings, |openings| - 1);
    } else {
      NoOpenRowNoHistory(rows, mmsi);
    }
  }

  /** What the table opens is what the reference opens. */
  lemma OpenedExactlyWhen(rows: seq<Row>, r: Report, openings: seq<Report>)
    requires AllTiled(rows) && IdsApart(rows) && IdApart(rows, r)
    requires HistoryOf(rows, r.mmsi) == Versions(openings)
    ensures Opened(rows, r) <==> Opens(openings, r)
  {
    assert Tiled(HistoryOf(rows, r.mmsi));
    assert r.mmsi == "" ==> !Storable(r);
    hide AllTiled, HistoryOf, Tiled, Current, Storable, Admissible, Upsert, IdsApart, IdApart, Normalised, Compared, Versions;
    RefusedExactlyWhenUnstorable(rows, r);
    UpsertRows(rows, r);
    ComparedIsNormalised(r);
    CurrentIsTheLastOpening(rows, r.mmsi, openings);
  }

  /** After any reports in any arrival order, the stored history of a vessel is
      exactly its version-opening reports, each valid until the next. */
  lemma {:induction false} HistoryIsTheOpenings(reports: seq<Report>, mmsi: string)
    requires ReportsApart(reports)
    ensures HistoryOf(After(reports), mmsi) == Versions(Openings(reports, mmsi))
  {
    if reports != [] {
      var n := |reports| - 1;
      var before, r := After(reports[..n]), reports[n];
      var openings := Openings(reports[..n], mmsi);
      assert After(reports) == Upsert(before, r).0;
      assert Openings(reports, mmsi) == if r.mmsi == mmsi && Opens(openings, r) then openings + [r] else openings;
      hide *;
      LastReportIsApart(reports);
      HistoriesTile(reports[..n]);
      HistoryIsTheOpenings(reports[..n], mmsi);
      OneStep(before, r, mmsi, openings);
    }
  }

  lemma OneStep(rows: seq<Row>, r: Report, mmsi: string, openings: seq<Report>)
    requires AllTiled(rows) && IdsApart(rows) && IdApart(rows, r)
    requires HistoryOf(rows, mmsi) == Versions(openings)
    ensures HistoryOf(Upsert(rows, r).0, mmsi) ==
            Versions(if r.mmsi == mmsi && Opens(openings, r) then openings + [r] else openings)
  {
    assert Tiled(HistoryOf(rows, r.mmsi));
    hide *;
    ApartMeansSoleOwner(rows, r);
    UpsertHistory(rows, r, mmsi);
    if r.mmsi == mmsi {
      OpenedExactlyWhen(rows, r, openings);
      VersionsSnoc(openings, r);
    }
  }

  lemma OutcomeStep(rows: seq<Row>, r: Report, openings: seq<Report>)
    requires AllTiled(rows) && IdsApart(rows) && IdApart(rows, r)
    requires HistoryOf(rows, r.mmsi) == Versions(openings)
    ensures OutcomeFollows(openings, r, Upsert(rows, r).1)
  {
    assert Tiled(HistoryOf(rows, r.mmsi));
    hide AllTiled, HistoryOf, Tiled, Current, Storable, Admissible, IdsApart, IdApart, Normalised, CloseById, Closing, Compared, Versions;
    RefusedExactlyWhenUnstorable(rows, r);
    ComparedIsNormalised(r);
    CurrentIsTheLastOpening(rows, r.mmsi, openings);
  }

  /** What the caller is told: nothing to do for the same attributes, dropped where the
      report is different but not newer, an error where the table cannot store it. */
  ghost predicate OutcomeFollows(openings: seq<Report>, r: Report, outcome: Outcome) {
    if r.mmsi == "" then outcome == NoMmsi
    else if openings != [] && Compared(openings[|openings| - 1]) == Compared(r) then outcome == Applied
    else if openings != [] && r.observedAt <= openings[|openings| - 1].observedAt then outcome == Dropped
    else outcome == if Storable(r) then Applied else ConstraintViolated
  }

  /** The outcome of the last of any reports, told from the versions opened before it. */
  lemma OutcomeExactlyWhen(reports: seq<Report>)
    requires ReportsApart(reports) && reports != []
    ensures var n := |reports| - 1;
            OutcomeFollows(Openings(reports[..n], reports[n].mmsi), reports[n], Upsert(After(reports[..n]), reports[n]).1)
  {
    hide *;
    var n := |reports| - 1;
    LastReportIsApart(reports);
    HistoriesTile(reports[..n]);
    HistoryIsTheOpenings(reports[..n], reports[n].mmsi);
    OutcomeStep(After(reports[..n]), reports[n], Openings(reports[..n], reports[n].mmsi));
  }

  // ---- Reading the history at an instant ----

  ghost predicate Covers(row: Row, t: int) {
    row.validFrom <= t && (row.validTo.Some? ==> t < row.validTo.value)
  }

  /** From the first version onward, each instant has exactly one row: the last
      version opened at or before it. */
  lemma {:induction false} OneRowPerInstant(h: seq<Row>, t: int) returns (k: nat)
    requires Tiled(h) && h != [] && h[0].validFrom <= t
    ensures k < |h| && Covers(h[k], t)
    ensures forall i :: 0 <= i < |h| ==> (Covers(h[i], t) <==> i == k)
    ensures forall i :: 0 <= i < |h| ==> (h[i].validFrom <= t <==> i <= k)
  {
    k := LastAtOrBefore(h, t, |h|);
    forall i | 0 <= i < |h| ensures h[i].validFrom <= t <==> i <= k {
      if i < k { TiledAscends(h, i, k); }
      if k + 1 < i { TiledAscends(h, k + 1, i); }
    }
    forall i | 0 <= i < |h| ensures Covers(h[i], t) <==> i == k {
      if i + 1 < |h| { assert h[i].validTo == Some(h[i + 1].validFrom); }
    }
  }

  lemma {:induction false} LastAtOrBefore(h: seq<Row>, t: int, n: nat) returns (k: nat)
    requires Tiled(h) && 0 < n <= |h| && h[0].validFrom <= t
    ensures k < n && h[k].validFrom <= t && (k + 1 < n ==> t < h[k + 1].validFrom)
  {
    if h[n - 1].validFrom <= t {
      k := n - 1;
    } else {
      k := LastAtOrBefore(h, t, n - 1);
    }
  }

  /** From the first opening on, each instant is covered by exactly one stored row,
      which is that of the last version-opening report observed at or before it. */
  lemma InstantHasTheLastOpening(reports: seq<Report>, mmsi: string, t: int) returns (k: nat)
    requires ReportsApart(reports)
    requires var openings := Openings(reports, mmsi); openings != [] && openings[0].observedAt <= t
    ensures var openings, h := Openings(reports, mmsi), HistoryOf(After(reports), mmsi);
            && k < |openings| == |h| && Holds(h[k], openings[k])
            && (forall i :: 0 <= i < |h| ==> (Covers(h[i], t) <==> i == k))
            && (forall i :: 0 <= i < |openings| ==> (openings[i].observedAt <= t <==> i <= k))
  {
    assert AllTiled(After(reports)) ==> Tiled(HistoryOf(After(reports), mmsi));
    hide Openings, After, HistoryOf, Tiled, AllTiled, Versions, Covers, ReportsApart;
    HistoriesTile(reports);
    HistoryIsTheOpenings(reports, mmsi);
    k := InstantOfVersions(Openings(reports, mmsi), t);
  }

  lemma InstantOfVersions(openings: seq<Report>, t: int) returns (k: nat)
    requires Tiled(Versions(openings)) && openings != [] && openings[0].observedAt <= t
    ensures var h := Versions(openings);
            && k < |openings| && Holds(h[k], openings[k])
            && (forall i :: 0 <= i < |h| ==> (Covers(h[i], t) <==> i == k))
            && (forall i :: 0 <= i < |openings| ==> (openings[i].observedAt <= t <==> i <= k))
  {
    hide Tiled, Covers, Versions, NewRow, Normalised, Compared;
    var h := Versions(openings);
    forall i | 0 <= i < |h| ensures h[i].validFrom == openings[i].observedAt { VersionHolds(openings, i); }
    k := OneRowPerInstant(h, t);
    VersionHolds(openings, k);
  }

  lemma VersionHolds(openings: seq<Report>, i: nat)
    requires i < |openings|
    ensures Holds(Versions(openings)[i], openings[i])
  {
    ComparedIsNormalised(openings[i]);
  }

  // ---- Two vessels that share a report id ----

  const PLAIN := Attributes("", "", "FIRST", 0, 0, 0, 0, 0, 0, "", "GPS")
  const RENAMED := Attributes("", "", "SECOND", 0, 0, 0, 0, 0, 0, "", "GPS")
  const LABELS := ("AIS", "PUBLIC")
  const ANA := "111111111"
  const BEA := "222222222"

  /** Ana and Bea both report under id "x"; then Ana's change closes both open rows. */
  const SHARED: seq<Report> := [
    Report("x", ANA, PLAIN, None, LABELS, 1),
    Report("x", BEA, PLAIN, None, LABELS, 2),
    Report("y", ANA, RENAMED, None, LABELS, 3)]

  lemma SharedAreStorable(i: nat)
    requires i < 3
    ensures Storable(SHARED[i])
  {
    assert Text.AllDigits(ANA) && Text.AllDigits(BEA);
    assert Text.IsIdentifier("x", 128) && Text.IsIdentifier("y", 128);
  }

  const FIRST := NewRow(SHARED[0])
  const SECOND := NewRow(SHARED[1])
  const CLOSED: seq<Row> := [FIRST.(validTo := Some(3)), SECOND.(validTo := Some(3))]

  lemma BothOpen()
    ensures After(SHARED[..2]) == [FIRST, SECOND]
  {
    SharedAreStorable(0);
    SharedAreStorable(1);
    hide Storable;
    assert SHARED[..2][..1] == SHARED[..1] && SHARED[..1][..0] == [];
    assert After(SHARED[..1]) == [FIRST];
    assert Current([FIRST], BEA).None?;
  }

  lemma ThirdOpens()
    ensures Current([FIRST, SECOND], ANA) == Some(0) && Opened([FIRST, SECOND], SHARED[2])
  {
    SharedAreStorable(2);
    hide Storable;
    assert CurrentOf([FIRST, SECOND], ANA, 1) == Some(0);
  }

  lemma BothClosed()
    ensures After(SHARED) == CLOSED + [NewRow(SHARED[2])]
  {
    BothOpen();
    assert After(SHARED) == Upsert(After(SHARED[..2]), SHARED[2]).0;
    hide After, Upsert, Current, Opened;
    ThirdOpens();
    UpsertRows([FIRST, SECOND], SHARED[2]);
    assert CloseById([FIRST, SECOND], "x", 3) == CLOSED;
  }

  /** Bea's history is no longer tiled: her only version is closed and nothing follows. */
  lemma SharedIdClosesAnothersRow()
    ensures HistoryOf(After(SHARED), BEA) == [SECOND.(validTo := Some(3))]
    ensures !AllTiled(After(SHARED))
  {
    BothClosed();
    hide After, HistoryOf, Storable;
    assert CLOSED == [] + [CLOSED[0]] + [CLOSED[1]];
    NoRowsNoHistory(BEA);
    HistorySnoc([], CLOSED[0], BEA);
    HistorySnoc([] + [CLOSED[0]], CLOSED[1], BEA);
    HistorySnoc(CLOSED, NewRow(SHARED[2]), BEA);
    assert !Tiled([CLOSED[1]]);
  }

  lemma NoRowsNoHistory(mmsi: string)
    ensures HistoryOf([], mmsi) == []
  {}
}
