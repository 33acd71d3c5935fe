/** The SCD-2 history of vessel static data: each change of a compared attribute
    closes the vessel's open row and opens the next. */
module VesselStatic {
  import opened Options
  import Text

  /** The attributes that the upsert compares; the ETA is carried but not compared. */
  datatype Attributes = Attributes(
    imo: string, callsign: string, shipName: string, shipTypeCode: int,
    bow: int, stern: int, port: int, starboard: int, draught: int,
    destination: string, epfsType: string)

  /** `labels` are the source class and the classification. */
  datatype Report = Report(
    id: string, mmsi: string, attributes: Attributes, eta: Option<int>, labels: (string, string), observedAt: int)

  datatype Row = Row(
    id: string, mmsi: string, attributes: Attributes, eta: Option<int>, labels: (string, string),
    validFrom: int, validTo: Option<int>)

  datatype Outcome = Applied | Dropped | NoMmsi | ConstraintViolated

  // ---- The upsert ----

  function Normalised(a: Attributes): Attributes {
    if a.epfsType == "" then a.(epfsType := "UNSPECIFIED") else a
  }

  /** The vessel's open row with the greatest valid_from, among the first n. */
  function CurrentOf(rows: seq<Row>, mmsi: string, n: nat): (r: Option<nat>)
    requires n <= |rows|
    ensures r.Some? ==> r.value < n && rows[r.value].mmsi == mmsi && rows[r.value].validTo.None?
    ensures r.None? ==> forall i :: 0 <= i < n && rows[i].mmsi == mmsi ==> rows[i].validTo.Some?
  {
    if n == 0 then None
    else
      var best := CurrentOf(rows, mmsi, n - 1);
      var row := rows[n - 1];
      if row.mmsi == mmsi && row.validTo.None? &&
         (best.Some? ==> rows[best.value].validFrom < row.validFrom)
      then Some(n - 1) else best
  }

  function Current(rows: seq<Row>, mmsi: string): (r: Option<nat>)
    ensures r.Some? ==> r.value < |rows| && rows[r.value].mmsi == mmsi && rows[r.value].validTo.None?
    ensures r.None? ==> forall i :: 0 <= i < |rows| && rows[i].mmsi == mmsi ==> rows[i].validTo.Some?
  {
    CurrentOf(rows, mmsi, |rows|)
  }

  /** UPDATE ... SET valid_to WHERE static_report_id = id AND valid_to IS NULL:
      the statement selects by report id only. */
  function CloseById(rows: seq<Row>, id: string, at: int): (r: seq<Row>)
    ensures |r| == |rows|
  {
    seq(|rows|, i requires 0 <= i < |rows| =>
      if rows[i].id == id && rows[i].validTo.None? then rows[i].(validTo := Some(at)) else rows[i])
  }

  function NewRow(r: Report): Row {
    Row(r.id, r.mmsi, Normalised(r.attributes), r.eta, r.labels, r.observedAt, None)
  }

  const EPFS_TYPES: set<string> := {
    "GPS", "GLONASS", "COMBINED_GPS_GLONASS", "LORAN_C", "CHAYKA", "INTEGRATED_NAVIGATION",
    "OBSERVED", "GALILEO", "INTERNAL_GNSS", "UNSPECIFIED"}

  const SOURCE_CLASSES: set<string> := {"AIS", "GSM_TRACKER", "SAT_TRACKER", "APP_REPORT"}

  const CLASSIFICATIONS: set<string> := {"PUBLIC", "INTERNAL", "RESTRICTED", "CONFIDENTIAL", "SECRET"}

  /** The column CHECKs of the table. */
  predicate Storable(r: Report) {
    var a := Normalised(r.attributes);
    && Text.IsIdentifier(r.id, 128)
    && |r.mmsi| == 9 && Text.AllDigits(r.mmsi)
    && (a.imo == "" || (|a.imo| == 7 && Text.AllDigits(a.imo)))
    && |a.callsign| <= 16 && |a.shipName| <= 128 && |a.destination| <= 128
    && 0 <= a.shipTypeCode <= 99
    && 0 <= a.bow <= 511 && 0 <= a.stern <= 511 && 0 <= a.port <= 63 && 0 <= a.starboard <= 63
    && 0 <= a.draught <= 25500
    && a.epfsType in EPFS_TYPES && r.labels.0 in SOURCE_CLASSES && r.labels.1 in CLASSIFICATIONS
  }

  /** All constraints the statements must meet: valid_to > valid_from on what is
      closed, the primary key (static_report_id, valid_from), at most one open row per
      vessel, and the column CHECKs. */
  predicate Admissible(rows: seq<Row>, closing: Option<string>, r: Report) {
    && (forall i :: 0 <= i < |rows| && closing == Some(rows[i].id) && rows[i].validTo.None? ==>
          rows[i].validFrom < r.observedAt)
    && (forall i :: 0 <= i < |rows| ==> rows[i].id != r.id || rows[i].validFrom != r.observedAt)
    && (forall i :: 0 <= i < |rows| && rows[i].mmsi == r.mmsi && rows[i].validTo.None? ==> closing == Some(rows[i].id))
    && Storable(r)
  }

  function Closing(rows: seq<Row>, r: Report): Option<string> {
    var current := Current(rows, r.mmsi);
    if current.Some? then Some(rows[current.value].id) else None
  }

  /** The report is a change: the vessel's first version, or newer than its open one
      and different from it. */
  predicate Changes(rows: seq<Row>, r: Report) {
    && r.mmsi != ""
    && var current := Current(rows, r.mmsi);
    current.Some? ==>
      && rows[current.value].attributes != Normalised(r.attributes)
      && rows[current.value].validFrom < r.observedAt
  }

  function Upsert(rows: seq<Row>, r: Report): (seq<Row>, Outcome) {
    var current := Current(rows, r.mmsi);
    if r.mmsi == "" then (rows, NoMmsi)
    else if current.Some? && rows[current.value].attributes == Normalised(r.attributes) then (rows, Applied)
    else if current.Some? && r.observedAt <= rows[current.value].validFrom then (rows, Dropped)
    else if !Admissible(rows, Closing(rows, r), r) then (rows, ConstraintViolated)
    else
      var closed := if current.Some? then CloseById(rows, rows[current.value].id, r.observedAt) else rows;
      (closed + [NewRow(r)], Applied)
  }

  class Table {
    var rows: seq<Row>

    constructor ()
      ensures rows == []
    {
      rows := [];
    }

    method UpsertVesselStatic(r: Report) returns (outcome: Outcome)
      modifies this
      ensures (rows, outcome) == Upsert(old(rows), r)
    {
      hide CurrentOf, CloseById, Admissible;
      if r.mmsi == "" {
        return NoMmsi;
      }
      var attributes := r.attributes;
      if attributes.epfsType == "" {
        attributes := attributes.(epfsType := "UNSPECIFIED");
      }
      var current := Current(rows, r.mmsi);
      if current.Some? {
        var row := rows[current.value];
        if row.attributes == attributes {
          return Applied;
        }
        if !(r.observedAt > row.validFrom) {
          return Dropped;
        }
        if !Admissible(rows, Some(row.id), r) {
          return ConstraintViolated;
        }
        rows := CloseById(rows, row.id, r.observedAt);
      } else if !Admissible(rows, None, r) {
        return ConstraintViolated;
      }
      rows := rows + [Row(r.id, r.mmsi, attributes, r.eta, r.labels, r.observedAt, None)];
      return Applied;
    }
  }

  // ---- The history of one vessel ----

  function HistoryOf(rows: seq<Row>, mmsi: string): seq<Row> {
    if rows == [] then []
    else HistoryOf(rows[..|rows| - 1], mmsi) + if rows[|rows| - 1].mmsi == mmsi then [rows[|rows| - 1]] else []
  }

  /** Each version ends exactly where the next begins and differs from it; the last
      version is open, and only that one. */
  ghost predicate Tiled(h: seq<Row>) {
    && (forall i :: 0 <= i < |h| - 1 ==>
          && h[i].validTo == Some(h[i + 1].validFrom) && h[i].validFrom < h[i + 1].validFrom
          && h[i].attributes != h[i + 1].attributes)
    && (h != [] ==> h[|h| - 1].validTo.None?)
  }

  ghost predicate AllTiled(rows: seq<Row>) { forall mmsi :: Tiled(HistoryOf(rows, mmsi)) }

  lemma {:induction false} HistoryHas(rows: seq<Row>, k: nat)
    requires k < |rows|
    ensures rows[k] in HistoryOf(rows, rows[k].mmsi)
  {
    var n := |rows| - 1;
    if k < n {
      HistoryHas(rows[..n], k);
    }
  }

  lemma {:induction false} HistoryMembers(rows: seq<Row>, mmsi: string)
    ensures forall r :: r in HistoryOf(rows, mmsi) ==> r in rows && r.mmsi == mmsi
  {
    if rows != [] {
      HistoryMembers(rows[..|rows| - 1], mmsi);
    }
  }

  /** Replacing the last row of a vessel replaces the end of its history, and
      leaves every other history as it was. */
  lemma {:induction false} ReplaceInHistory(rows: seq<Row>, k: nat, row: Row, mmsi: string)
    requires k < |rows| && row.mmsi == rows[k].mmsi
    requires forall j :: k < j < |rows| ==> rows[j].mmsi != rows[k].mmsi
    ensures var h := HistoryOf(rows, mmsi);
            HistoryOf(rows[k := row], mmsi) ==
            if mmsi == row.mmsi && h != [] then h[..|h| - 1] + [row] else h
    ensures HistoryOf(rows, row.mmsi) != []
  {
    var n := |rows| - 1;
    var before, replaced := rows[..n], rows[k := row];
    assert replaced[..n] == if k < n then before[k := row] else before;
    assert HistoryOf(rows, mmsi) == HistoryOf(before, mmsi) + if rows[n].mmsi == mmsi then [rows[n]] else [];
    assert HistoryOf(replaced, mmsi) == HistoryOf(replaced[..n], mmsi) + if replaced[n].mmsi == mmsi then [replaced[n]] else [];
    assert HistoryOf(rows, row.mmsi) == HistoryOf(before, row.mmsi) + if rows[n].mmsi == row.mmsi then [rows[n]] else [];
    hide HistoryOf;
    if k < n {
      ReplaceInHistory(before, k, row, mmsi);
    }
  }

  lemma OnlyLastIsOpen(h: seq<Row>, i: nat)
    requires Tiled(h) && i < |h|
    ensures h[i].validTo.None? ==> i == |h| - 1
  {
    if i < |h| - 1 { assert h[i].validTo == Some(h[i + 1].validFrom); }
  }

  lemma {:induction false} TiledAscends(h: seq<Row>, i: nat, j: nat)
    requires Tiled(h) && i < j < |h|
    ensures h[i].validFrom < h[j].validFrom
  {
    if i + 1 < j {
      TiledAscends(h, i, j - 1);
    }
  }

  /** A later row of the vessel would follow its open row in the history. */
  lemma OpenBeforeLast(rows: seq<Row>, k: nat)
    requires k < |rows| - 1 && rows[k].validTo.None? && Tiled(HistoryOf(rows, rows[k].mmsi))
    ensures rows[|rows| - 1].mmsi != rows[k].mmsi
    ensures HistoryOf(rows, rows[k].mmsi) == HistoryOf(rows[..|rows| - 1], rows[k].mmsi)
  {
    var n, mmsi := |rows| - 1, rows[k].mmsi;
    var before, h := HistoryOf(rows[..n], mmsi), HistoryOf(rows, mmsi);
    HistoryHas(rows[..n], k);
    assert h == before + if rows[n].mmsi == mmsi then [rows[n]] else [];
    hide HistoryOf, Tiled;
    var i :| 0 <= i < |before| && before[i] == rows[k];
    OnlyLastIsOpen(h, i);
  }

  /** A vessel's open row is the last of its history. */
  lemma {:induction false} OpenIsLast(rows: seq<Row>, k: nat)
    requires k < |rows| && rows[k].validTo.None? && Tiled(HistoryOf(rows, rows[k].mmsi))
    ensures forall j :: k < j < |rows| ==> rows[j].mmsi != rows[k].mmsi
    ensures var h := HistoryOf(rows, rows[k].mmsi); h != [] && h[|h| - 1] == rows[k]
  {
    var n := |rows| - 1;
    if k < n {
      hide HistoryOf, Tiled;
      OpenBeforeLast(rows, k);
      OpenIsLast(rows[..n], k);
      assert forall j :: k < j < n ==> rows[..n][j] == rows[j];
    }
  }

  lemma OneOpenRow(rows: seq<Row>, i: nat, k: nat)
    requires i < |rows| && k < |rows| && rows[i].mmsi == rows[k].mmsi && Tiled(HistoryOf(rows, rows[k].mmsi))
    requires rows[i].validTo.None? && rows[k].validTo.None?
    ensures i == k
  {
    hide HistoryOf, Tiled;
    OpenIsLast(rows, i);
    OpenIsLast(rows, k);
  }

  lemma OpenIsNewest(rows: seq<Row>, mmsi: string, i: nat, k: nat)
    requires i < |rows| && k < |rows| && rows[i].mmsi == mmsi && rows[k].mmsi == mmsi && Tiled(HistoryOf(rows, mmsi))
    requires rows[k].validTo.None?
    ensures rows[i].validFrom <= rows[k].validFrom
  {
    hide *;
    OpenEndsHistory(rows, k);
    NotNewerThanLast(rows, i, mmsi);
  }

  lemma NotNewerThanLast(rows: seq<Row>, i: nat, mmsi: string)
    requires i < |rows| && rows[i].mmsi == mmsi && Tiled(HistoryOf(rows, mmsi))
    ensures var h := HistoryOf(rows, mmsi); h != [] && rows[i].validFrom <= h[|h| - 1].validFrom
  {
    hide *;
    HistoryHas(rows, i);
    LastIsNewest(HistoryOf(rows, mmsi), rows[i]);
  }

  lemma OpenEndsHistory(rows: seq<Row>, k: nat)
    requires k < |rows| && rows[k].validTo.None? && Tiled(HistoryOf(rows, rows[k].mmsi))
    ensures var h := HistoryOf(rows, rows[k].mmsi); h != [] && h[|h| - 1] == rows[k]
  {
    OpenIsLast(rows, k);
  }

  lemma LastIsNewest(h: seq<Row>, row: Row)
    requires Tiled(h) && row in h
    ensures row.validFrom <= h[|h| - 1].validFrom
  {
    hide *;
    var p :| 0 <= p < |h| && h[p] == row;
    if p < |h| - 1 { TiledAscends(h, p, |h| - 1); }
  }

  lemma NoOpenRowNoHistory(rows: seq<Row>, mmsi: string)
    requires Tiled(HistoryOf(rows, mmsi))
    requires forall i :: 0 <= i < |rows| && rows[i].mmsi == mmsi ==> rows[i].validTo.Some?
    ensures HistoryOf(rows, mmsi) == []
  {
    var h := HistoryOf(rows, mmsi);
    HistoryMembers(rows, mmsi);
    assert forall r :: r in rows && r.mmsi == mmsi ==> r.validTo.Some?;
    LastIsMember(h);
  }

  lemma LastIsMember(h: seq<Row>)
    ensures h == [] || h[|h| - 1] in h
  {}

  // ---- Closing by report id ----

  /** No open row of another vessel carries the id of row k. */
  ghost predicate SoleOwner(rows: seq<Row>, k: nat)
    requires k < |rows|
  {
    forall i :: 0 <= i < |rows| && rows[i].mmsi != rows[k].mmsi && rows[i].validTo.None? ==> rows[i].id != rows[k].id
  }

  lemma CloseIsOneRow(rows: seq<Row>, k: nat, at: int)
    requires k < |rows| && rows[k].validTo.None? && Tiled(HistoryOf(rows, rows[k].mmsi)) && SoleOwner(rows, k)
    ensures CloseById(rows, rows[k].id, at) == rows[k := rows[k].(validTo := Some(at))]
  {
    hide HistoryOf, Tiled;
    forall i | 0 <= i < |rows| && rows[i].id == rows[k].id && rows[i].validTo.None? ensures i == k {
      OneOpenRow(rows, i, k);
    }
  }

  /** The closing statement selects by report id alone, so it leaves the other
      vessels' rows untouched if and only if none of their open rows shares the id. */
  lemma ClosingTouchesOnlyThisVessel(rows: seq<Row>, k: nat, at: int)
    requires k < |rows|
    ensures (forall i :: 0 <= i < |rows| && rows[i].mmsi != rows[k].mmsi ==> CloseById(rows, rows[k].id, at)[i] == rows[i]) <==>
            SoleOwner(rows, k)
  {
    var closed := CloseById(rows, rows[k].id, at);
    forall i | 0 <= i < |rows|
      ensures closed[i] == rows[i] <==> !(rows[i].id == rows[k].id && rows[i].validTo.None?)
    {}
  }

  // ---- What one upsert does to the histories ----

  /** A version is opened: the report is a change and no constraint refuses it. */
  ghost predicate Opened(rows: seq<Row>, r: Report) { Changes(rows, r) && Admissible(rows, Closing(rows, r), r) }

  lemma UpsertRows(rows: seq<Row>, r: Report)
    ensures var current := Current(rows, r.mmsi);
            Upsert(rows, r).0 ==
            if !Opened(rows, r) then rows
            else if current.None? then rows + [NewRow(r)]
            else CloseById(rows, rows[current.value].id, r.observedAt) + [NewRow(r)]
    ensures Upsert(rows, r).1 == ConstraintViolated <==> Changes(rows, r) && !Admissible(rows, Closing(rows, r), r)
  {
    hide Current, Admissible, CloseById, NewRow;
  }

  /** The vessel's own history after a version was opened. */
  function Extended(h: seq<Row>, r: Report): seq<Row> {
    if h == [] then [NewRow(r)]
    else h[..|h| - 1] + [h[|h| - 1].(validTo := Some(r.observedAt))] + [NewRow(r)]
  }

  lemma HistorySnoc(rows: seq<Row>, row: Row, mmsi: string)
    ensures HistoryOf(rows + [row], mmsi) == HistoryOf(rows, mmsi) + if row.mmsi == mmsi then [row] else []
  {
    assert (rows + [row])[..|rows|] == rows;
  }

  lemma NextVersionHistory(rows: seq<Row>, k: nat, r: Report, mmsi: string)
    requires k < |rows| && rows[k].mmsi == r.mmsi
    requires forall j :: k < j < |rows| ==> rows[j].mmsi != r.mmsi
    requires var h := HistoryOf(rows, r.mmsi); h != [] && h[|h| - 1] == rows[k]
    ensures HistoryOf(rows[k := rows[k].(validTo := Some(r.observedAt))] + [NewRow(r)], mmsi) ==
            if r.mmsi == mmsi then Extended(HistoryOf(rows, mmsi), r) else HistoryOf(rows, mmsi)
  {
    hide HistoryOf;
    var closed := rows[k].(validTo := Some(r.observedAt));
    ReplaceInHistory(rows, k, closed, mmsi);
    HistorySnoc(rows[k := closed], NewRow(r), mmsi);
    assert HistoryOf(rows, mmsi) + [] == HistoryOf(rows, mmsi);
  }

  lemma FirstVersionHistory(rows: seq<Row>, r: Report, mmsi: string)
    requires HistoryOf(rows, r.mmsi) == []
    ensures HistoryOf(rows + [NewRow(r)], mmsi) ==
            if r.mmsi == mmsi then Extended(HistoryOf(rows, mmsi), r) else HistoryOf(rows, mmsi)
  {
    hide HistoryOf;
    HistorySnoc(rows, NewRow(r), mmsi);
    assert HistoryOf(rows, mmsi) + [] == HistoryOf(rows, mmsi);
  }

  /** Opening a version extends the vessel's own history and no other. */
  lemma UpsertHistory(rows: seq<Row>, r: Report, mmsi: string)
    requires Tiled(HistoryOf(rows, r.mmsi))
    requires var current := Current(rows, r.mmsi); current.Some? ==> SoleOwner(rows, current.value)
    ensures HistoryOf(Upsert(rows, r).0, mmsi) ==
            if r.mmsi == mmsi && Opened(rows, r) then Extended(HistoryOf(rows, mmsi), r) else HistoryOf(rows, mmsi)
  {
    UpsertRows(rows, r);
    var current := Current(rows, r.mmsi);
    hide HistoryOf, Tiled, Upsert, Current, CloseById, Opened, Extended, NewRow, SoleOwner;
    if current.Some? {
      OpenIsLast(rows, current.value);
      CloseIsOneRow(rows, current.value, r.observedAt);
      NextVersionHistory(rows, current.value, r, mmsi);
    } else {
      NoOpenRowNoHistory(rows, r.mmsi);
      FirstVersionHistory(rows, r, mmsi);
    }
  }

  // ---- When an upsert keeps every history tiled ----

  lemma ExtendedIsTiled(h: seq<Row>, r: Report)
    requires Tiled(h)
    requires h != [] ==> h[|h| - 1].validFrom < r.observedAt && h[|h| - 1].attributes != Normalised(r.attributes)
    ensures Tiled(Extended(h, r))
  {
    var g := Extended(h, r);
    forall i | 0 <= i < |g| - 1
      ensures g[i].validTo == Some(g[i + 1].validFrom) && g[i].validFrom < g[i + 1].validFrom
      ensures g[i].attributes != g[i + 1].attributes
    {
      if i < |h| - 1 { assert h[i].validTo == Some(h[i + 1].validFrom); }
    }
  }

  lemma UpsertKeepsTiled(rows: seq<Row>, r: Report, mmsi: string)
    requires Tiled(HistoryOf(rows, mmsi)) && Tiled(HistoryOf(rows, r.mmsi))
    requires var current := Current(rows, r.mmsi); current.Some? ==> SoleOwner(rows, current.value)
    ensures Tiled(HistoryOf(Upsert(rows, r).0, mmsi))
  {
    var current := Current(rows, r.mmsi);
    hide HistoryOf, Tiled, Upsert, Current, Extended, SoleOwner, Admissible, Normalised;
    UpsertHistory(rows, r, mmsi);
    if r.mmsi == mmsi && Opened(rows, r) {
      if current.Some? { OpenIsLast(rows, current.value); } else { NoOpenRowNoHistory(rows, r.mmsi); }
      ExtendedIsTiled(HistoryOf(rows, mmsi), r);
    }
  }

  /** The upsert closes the open row of another vessel along with its own. */
  ghost predicate ClosesAnothersRow(rows: seq<Row>, r: Report) {
    && Opened(rows, r)
    && var current := Current(rows, r.mmsi);
    current.Some? && !SoleOwner(rows, current.value)
  }

  /** The other vessel is left without an open row. */
  lemma ClosedWithoutSuccessor(rows: seq<Row>, r: Report, i: nat)
    requires Opened(rows, r) && i < |rows| && rows[i].mmsi != r.mmsi && rows[i].validTo.None?
    requires Closing(rows, r) == Some(rows[i].id) && Tiled(HistoryOf(rows, rows[i].mmsi))
    ensures !Tiled(HistoryOf(Upsert(rows, r).0, rows[i].mmsi))
  {
    UpsertRows(rows, r);
    hide HistoryOf, Tiled, Upsert, Current, Opened;
    var after := Upsert(rows, r).0;
    forall j | 0 <= j < |after| && after[j].mmsi == rows[i].mmsi ensures after[j].validTo.Some? {
      if j < |rows| && rows[j].validTo.None? { OneOpenRow(rows, j, i); }
    }
    HistoryHas(after, i);
    TiledNeedsAnOpenRow(after, rows[i].mmsi);
  }

  lemma TiledNeedsAnOpenRow(rows: seq<Row>, mmsi: string)
    requires forall i :: 0 <= i < |rows| && rows[i].mmsi == mmsi ==> rows[i].validTo.Some?
    ensures Tiled(HistoryOf(rows, mmsi)) ==> HistoryOf(rows, mmsi) == []
  {
    if Tiled(HistoryOf(rows, mmsi)) { NoOpenRowNoHistory(rows, mmsi); }
  }

  /** Every vessel's history stays tiled if and only if the upsert does not close
      another vessel's row. No premise on ids: a vessel may repeat its own. */
  lemma StaysTiledExactlyWhen(rows: seq<Row>, r: Report)
    requires AllTiled(rows)
    ensures AllTiled(Upsert(rows, r).0) <==> !ClosesAnothersRow(rows, r)
  {
    hide HistoryOf, Tiled, Current, Admissible, Upsert;
    if ClosesAnothersRow(rows, r) {
      var k := Current(rows, r.mmsi).value;
      var i :| 0 <= i < |rows| && rows[i].mmsi != rows[k].mmsi && rows[i].validTo.None? && rows[i].id == rows[k].id;
      assert Tiled(HistoryOf(rows, rows[i].mmsi));
      ClosedWithoutSuccessor(rows, r, i);
    } else {
      UnchangedUnlessOpened(rows, r);
      forall mmsi ensures Tiled(HistoryOf(Upsert(rows, r).0, mmsi)) {
        assert Tiled(HistoryOf(rows, mmsi)) && Tiled(HistoryOf(rows, r.mmsi));
        if Opened(rows, r) { UpsertKeepsTiled(rows, r, mmsi); }
      }
    }
  }

  lemma UnchangedUnlessOpened(rows: seq<Row>, r: Report)
    ensures !Opened(rows, r) ==> Upsert(rows, r).0 == rows
  {
    UpsertRows(rows, r);
  }

  // ---- Constraints ----

  /** Reports of different vessels carry different ids. */
  ghost predicate IdsApart(rows: seq<Row>) {
    forall i, j :: 0 <= i < |rows| && 0 <= j < |rows| && rows[i].mmsi != rows[j].mmsi ==> rows[i].id != rows[j].id
  }

  ghost predicate IdApart(rows: seq<Row>, r: Report) {
    forall i :: 0 <= i < |rows| && rows[i].mmsi != r.mmsi ==> rows[i].id != r.id
  }

  lemma KeyIsFree(rows: seq<Row>, r: Report, i: nat)
    requires AllTiled(rows) && Changes(rows, r) && i < |rows| && rows[i].mmsi == r.mmsi
    ensures rows[i].validFrom < r.observedAt
    ensures rows[i].validTo.None? ==> Closing(rows, r) == Some(rows[i].id)
  {
    var current := Current(rows, r.mmsi);
    assert Tiled(HistoryOf(rows, r.mmsi));
    hide AllTiled, HistoryOf, Tiled, Current;
    if current.Some? {
      OpenIsNewest(rows, r.mmsi, i, current.value);
      if rows[i].validTo.None? { OneOpenRow(rows, i, current.value); }
    } else {
      NoOpenRowNoHistory(rows, r.mmsi);
      HistoryHas(rows, i);
    }
  }

  /** With ids apart between vessels, only the column CHECKs can refuse a change: the
      key, the order of validity and the open-row index never do. */
  lemma RefusedExactlyWhenUnstorable(rows: seq<Row>, r: Report)
    requires AllTiled(rows) && IdsApart(rows) && IdApart(rows, r)
    ensures Upsert(rows, r).1 == ConstraintViolated <==> Changes(rows, r) && !Storable(r)
  {
    UpsertRows(rows, r);
    hide Current, Storable, AllTiled, Upsert;
    if Changes(rows, r) {
      forall i | 0 <= i < |rows| && rows[i].mmsi == r.mmsi
        ensures rows[i].validFrom < r.observedAt
        ensures rows[i].validTo.None? ==> Closing(rows, r) == Some(rows[i].id)
      {
        KeyIsFree(rows, r, i);
      }
      hide Changes;
      assert Admissible(rows, Closing(rows, r), r) <==> Storable(r);
    }
  }

  /** An upsert changes no ids or vessels and adds at most one row. */
  lemma UpsertIds(rows: seq<Row>, r: Report)
    ensures var rs := Upsert(rows, r).0;
            && |rows| <= |rs| <= |rows| + 1
            && (forall i :: 0 <= i < |rows| ==> rs[i].id == rows[i].id && rs[i].mmsi == rows[i].mmsi)
            && (|rs| > |rows| ==> rs[|rows|].id == r.id && rs[|rows|].mmsi == r.mmsi)
  {
    UpsertRows(rows, r);
    hide Current, Admissible, Upsert;
  }
}
