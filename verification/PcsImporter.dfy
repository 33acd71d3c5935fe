/** The PCS AIS importer: a composite (message_ts, mmsi) cursor over a growing
    source table, with polls that may fail at any point. */
module PcsImporter {
  import opened Text

  /** A source row; `report` stands for the position fields. */
  datatype Row = Row(ts: int, mmsi: string, report: int)

  datatype Cursor = Cursor(ts: int, mmsi: string) {
    predicate StrictlyAfter(ts0: int, mmsi0: string) {
      ts0 > ts || (ts0 == ts && Less(mmsi, mmsi0))
    }
  }

  /** The instant `time.Time{}.IsZero()` recognises. */
  const ZERO: int := -62_135_596_800_000_000

  function KeyOf(r: Row): Cursor { Cursor(r.ts, r.mmsi) }

  predicate After(c: Cursor, r: Row) { c.StrictlyAfter(r.ts, r.mmsi) }

  /** The table listed by its unique key (message_ts, mmsi). */
  ghost predicate Listed(table: seq<Row>) {
    forall i, j :: 0 <= i < j < |table| ==> After(KeyOf(table[i]), table[j])
  }

  /** The WHERE clause of the poll query. */
  function Where(table: seq<Row>, c: Cursor): seq<Row> {
    if table == [] then []
    else (if After(c, table[0]) then [table[0]] else []) + Where(table[1..], c)
  }

  function Query(table: seq<Row>, c: Cursor, limit: nat): seq<Row> {
    var rows := Where(table, c);
    if |rows| <= limit then rows else rows[..limit]
  }

  // ---- One poll ----

  /** How a poll ends: the query fails, ingesting its k-th row fails, or neither. */
  datatype Ending = QueryFails | IngestFails(at: nat) | Succeeds

  datatype State = State(cursor: Cursor, delivered: seq<Row>)

  function Poll(s: State, table: seq<Row>, batch: nat, ending: Ending): State {
    var rows := Query(table, s.cursor, batch);
    match ending
    case QueryFails => s
    case IngestFails(k) =>
      if k < |rows| then s.(delivered := s.delivered + rows[..k]) else Advance(s, rows)
    case Succeeds => Advance(s, rows)
  }

  function Advance(s: State, rows: seq<Row>): State {
    State(if rows == [] || rows[|rows| - 1].ts == ZERO then s.cursor else KeyOf(rows[|rows| - 1]),
          s.delivered + rows)
  }

  datatype PollResult = Failed | NoRows | Advanced(cursor: Cursor)

  class Importer {
    var cursor: Cursor
    var delivered: seq<Row>

    ghost function View(): State
      reads this
    {
      State(cursor, delivered)
    }

    constructor (start: Cursor)
      ensures View() == State(start, [])
    {
      cursor, delivered := start, [];
    }

    /** `poll`: ingest the batch row by row; the caller moves the cursor. */
    method PollBatch(table: seq<Row>, batch: nat, ending: Ending) returns (r: PollResult)
      modifies this`delivered
      ensures var rows := Query(table, cursor, batch);
              if ending == QueryFails then r == Failed && delivered == old(delivered)
              else if ending.IngestFails? && ending.at < |rows| then
                r == Failed && delivered == old(delivered) + rows[..ending.at]
              else
                && delivered == old(delivered) + rows
                && r == if rows == [] then NoRows else Advanced(KeyOf(rows[|rows| - 1]))
    {
      if ending == QueryFails {
        return Failed;
      }
      var rows := Query(table, cursor, batch);
      for i := 0 to |rows|
        invariant delivered == old(delivered) + rows[..i]
        invariant ending.IngestFails? ==> i <= ending.at
      {
        if ending.IngestFails? && ending.at == i {
          return Failed;
        }
        assert rows[..i + 1] == rows[..i] + [rows[i]];
        delivered := delivered + [rows[i]];
      }
      assert rows[..|rows|] == rows;
      if rows == [] {
        return NoRows;
      }
      var last := rows[|rows| - 1];
      return Advanced(Cursor(last.ts, last.mmsi));
    }

    /** One turn of the loop in `Run`. */
    method Turn(table: seq<Row>, batch: nat, ending: Ending)
      modifies this
      ensures View() == Poll(old(View()), table, batch, ending)
    {
      hide Where;
      var advanced := PollBatch(table, batch, ending);
      if advanced.Advanced? && advanced.cursor.ts != ZERO {
        cursor := advanced.cursor;
      }
    }
  }

  // ---- The order of keys ----

  lemma AfterTransitive(c: Cursor, a: Row, b: Row)
    requires After(c, a) && After(KeyOf(a), b)
    ensures After(c, b)
  {
    if c.ts == a.ts == b.ts { LessTransitive(c.mmsi, a.mmsi, b.mmsi); }
  }

  lemma AfterAsymmetric(a: Row, b: Row)
    ensures After(KeyOf(a), b) ==> !After(KeyOf(b), a)
    ensures !After(KeyOf(a), a)
  {
    LessTrichotomy(a.mmsi, b.mmsi);
    LessTrichotomy(a.mmsi, a.mmsi);
  }

  lemma {:induction false} WhereMembers(table: seq<Row>, c: Cursor)
    ensures forall r :: r in Where(table, c) <==> r in table && After(c, r)
  {
    hide After;
    if table != [] {
      WhereMembers(table[1..], c);
      assert table == [table[0]] + table[1..];
    }
  }

  /** The waiting rows are those later than the cursor, ties going by MMSI, and they
      wait in the order of time, then MMSI. */
  lemma WaitingMeaning(table: seq<Row>, c: Cursor)
    requires forall i, j :: 0 <= i < j < |table| ==>
               table[i].ts < table[j].ts || (table[i].ts == table[j].ts && Less(table[i].mmsi, table[j].mmsi))
    ensures forall r :: r in Where(table, c) <==> r in table && (r.ts > c.ts || (r.ts == c.ts && Less(c.mmsi, r.mmsi)))
    ensures var w := Where(table, c);
            forall i, j :: 0 <= i < j < |w| ==> w[i].ts < w[j].ts || (w[i].ts == w[j].ts && Less(w[i].mmsi, w[j].mmsi))
  {
    hide Where, Less;
    assert Listed(table);
    WhereMembers(table, c);
    WhereListed(table, c);
    forall i, j | 0 <= i < j < |Where(table, c)| ensures After(KeyOf(Where(table, c)[i]), Where(table, c)[j]) {}
  }

  lemma {:induction false} WhereListed(table: seq<Row>, c: Cursor)
    requires Listed(table)
    ensures Listed(Where(table, c))
  {
    hide After;
    if table != [] {
      WhereListed(table[1..], c);
      WhereMembers(table[1..], c);
      var rest := Where(table[1..], c);
      forall j | 0 <= j < |rest| ensures After(KeyOf(table[0]), rest[j]) {
        assert rest[j] in table[1..];
      }
    }
  }

  lemma SameEmptiness(a: seq<Row>, b: seq<Row>)
    requires forall r :: r in a <==> r in b
    ensures a == [] <==> b == []
  {
    if a != [] { assert a[0] in b; }
    if b != [] { assert b[0] in a; }
  }

  /** Two listings of the same rows are the same. */
  lemma {:induction false} ListedUnique(a: seq<Row>, b: seq<Row>)
    requires Listed(a) && Listed(b) && forall r :: r in a <==> r in b
    ensures a == b
  {
    hide After;
    SameEmptiness(a, b);
    if a != [] {
      assert a[0] in b;
      assert b[0] in a;
      var i :| 0 <= i < |b| && b[i] == a[0];
      var j :| 0 <= j < |a| && a[j] == b[0];
      AfterAsymmetric(a[0], b[0]);
      assert a[0] == b[0];
      assert a == [a[0]] + a[1..] && b == [b[0]] + b[1..];
      forall r ensures r in a[1..] <==> r in b[1..] {
        AfterAsymmetric(a[0], a[0]);
        assert r in a[1..] ==> After(KeyOf(a[0]), r);
        assert r in b[1..] ==> After(KeyOf(b[0]), r);
        assert r in a <==> r == a[0] || r in a[1..];
        assert r in b <==> r == b[0] || r in b[1..];
      }
      ListedUnique(a[1..], b[1..]);
    }
  }

  /** Moving the cursor to the m-th waiting row leaves exactly the later ones,
      even when the rows around it share one timestamp. */
  lemma WhereFromRow(table: seq<Row>, c: Cursor, m: nat)
    requires Listed(table) && 0 < m <= |Where(table, c)|
    ensures Where(table, KeyOf(Where(table, c)[m - 1])) == Where(table, c)[m..]
  {
    hide After, Where;
    var w := Where(table, c);
    var k := KeyOf(w[m - 1]);
    WhereMembers(table, c);
    WhereMembers(table, k);
    WhereListed(table, c);
    WhereListed(table, k);
    forall r ensures r in Where(table, k) <==> r in w[m..] {
      if r in w[m..] {
        var i :| 0 <= i < |w[m..]| && w[m..][i] == r;
        assert w[m + i] == r;
      }
      if r in table && After(k, r) {
        AfterTransitive(c, w[m - 1], r);
        assert r in w;
        var i :| 0 <= i < |w| && w[i] == r;
        AfterAsymmetric(w[m - 1], r);
        assert i >= m;
        assert w[m..][i - m] == r;
      }
    }
    assert Listed(w[m..]);
    ListedUnique(Where(table, k), w[m..]);
  }

  // ---- Successful polls over a fixed table ----

  function Polled(table: seq<Row>, start: Cursor, batch: nat, n: nat): State {
    if n == 0 then State(start, []) else Poll(Polled(table, start, batch, n - 1), table, batch, Succeeds)
  }

  ghost predicate NoZeroRow(rows: seq<Row>) {
    forall i :: 0 <= i < |rows| ==> rows[i].ts != -62_135_596_800_000_000
  }

  function Least(a: nat, b: nat): nat { if a < b then a else b }

  /** After n successful polls the first n * batch waiting rows were delivered, once
      each and in order, and the cursor stands on the last of them. */
  lemma {:induction false} PollsDeliverInOrder(table: seq<Row>, start: Cursor, batch: nat, n: nat)
    requires Listed(table) && batch > 0 && NoZeroRow(Where(table, start))
    ensures var w := Where(table, start);
            var m := Least(n * batch, |w|);
            Polled(table, start, batch, n) == State(if m == 0 then start else KeyOf(w[m - 1]), w[..m])
  {
    hide Where, After, Poll;
    var w := Where(table, start);
    if n > 0 {
      PollsDeliverInOrder(table, start, batch, n - 1);
      var m := Least((n - 1) * batch, |w|);
      if m > 0 {
        WhereFromRow(table, start, m);
      }
      PollStep(table, start, batch, m, w);
      OneMoreBatch(n, batch, |w|);
    }
  }

  lemma OneMoreBatch(n: nat, batch: nat, bound: nat)
    requires n > 0
    ensures Least(n * batch, bound) == Least(Least((n - 1) * batch, bound) + batch, bound)
  {
    assert n * batch == (n - 1) * batch + batch;
  }

  lemma PollStep(table: seq<Row>, start: Cursor, batch: nat, m: nat, w: seq<Row>)
    requires m <= |w| && NoZeroRow(w) && batch > 0
    requires var c := if m == 0 then start else KeyOf(w[m - 1]); Where(table, c) == w[m..]
    ensures var c := if m == 0 then start else KeyOf(w[m - 1]);
            var m' := Least(m + batch, |w|);
            Poll(State(c, w[..m]), table, batch, Succeeds) ==
            State(if m' == 0 then start else KeyOf(w[m' - 1]), w[..m'])
  {
    hide Where, After;
    var m' := Least(m + batch, |w|);
    assert w[..m] + w[m..m'] == w[..m'];
    assert if |w[m..]| <= batch then w[m..] == w[m..m'] else w[m..][..batch] == w[m..m'];
  }

  /** After an ingest that failed at row k, the next poll delivers the first k rows of the
      batch again and then the rest, and the cursor ends where it would have without the
      failure. */
  lemma RetryRepeatsThePrefix(s: State, table: seq<Row>, batch: nat, k: nat)
    requires k < |Where(table, s.cursor)| && k < batch
    ensures var w := Where(table, s.cursor);
            var rows := w[..Least(batch, |w|)];
            var retried := Poll(Poll(s, table, batch, IngestFails(k)), table, batch, Succeeds);
            && retried.delivered == s.delivered + rows[..k] + rows
            && retried.cursor == Poll(s, table, batch, Succeeds).cursor
  {
    hide Where;
  }

  lemma {:induction false} ListedPrefixDistinct(w: seq<Row>, i: nat, j: nat)
    requires Listed(w) && i < j < |w|
    ensures w[i] != w[j]
  {
    AfterAsymmetric(w[i], w[i]);
  }

  /** Exactly-once, in-order delivery for every batch size holds if and only if no
      waiting row carries the zero timestamp: such a row at the end of a batch
      leaves the cursor where it was, and the row is delivered again. */
  lemma ExactlyOnceUnlessZeroRow(table: seq<Row>, start: Cursor)
    requires Listed(table)
    ensures NoZeroRow(Where(table, start)) <==>
            forall batch: nat, n: nat :: batch > 0 ==>
              Polled(table, start, batch, n).delivered == Where(table, start)[..Least(n * batch, |Where(table, start)|)]
  {
    var w := Where(table, start);
    hide Where, Polled;
    if NoZeroRow(w) {
      forall batch: nat, n: nat | batch > 0
        ensures Polled(table, start, batch, n).delivered == w[..Least(n * batch, |w|)]
      {
        PollsDeliverInOrder(table, start, batch, n);
      }
    } else {
      var k :| 0 <= k < |w| && w[k].ts == ZERO;
      var z := FirstZero(w, k);
      ZeroRowRepeats(table, start, z);
      assert Least((z + 2) * 1, |w|) <= |w|;
      if z + 1 < |w| {
        WhereListed(table, start);
        ListedPrefixDistinct(w, z, z + 1);
        assert w[..z + 2][z + 1] == w[z + 1];
      }
      assert Polled(table, start, 1, z + 2).delivered != w[..Least((z + 2) * 1, |w|)];
    }
  }

  lemma {:induction false} FirstZero(w: seq<Row>, k: nat) returns (z: nat)
    requires k < |w| && w[k].ts == ZERO
    ensures z < |w| && w[z].ts == ZERO && NoZeroRow(w[..z])
  {
    if i :| 0 <= i < k && w[i].ts == ZERO {
      z := FirstZero(w, i);
    } else {
      z := k;
    }
  }

  /** One row per poll, up to the first zero row, which is then delivered twice. */
  lemma {:induction false} ZeroRowRepeats(table: seq<Row>, start: Cursor, z: nat)
    requires Listed(table) && z < |Where(table, start)|
    requires NoZeroRow(Where(table, start)[..z]) && Where(table, start)[z].ts == ZERO
    ensures Polled(table, start, 1, z + 2).delivered == Where(table, start)[..z + 1] + [Where(table, start)[z]]
  {
    hide Where;
    var w := Where(table, start);
    SinglesBeforeZero(table, start, z, z);
    if z > 0 {
      WhereFromRow(table, start, z);
    }
    var c := if z == 0 then start else KeyOf(w[z - 1]);
    assert Query(table, c, 1) == [w[z]];
    assert Polled(table, start, 1, z + 1) == State(c, w[..z] + [w[z]]);
    assert w[..z] + [w[z]] == w[..z + 1];
  }

  lemma {:induction false} SinglesBeforeZero(table: seq<Row>, start: Cursor, z: nat, n: nat)
    requires Listed(table) && n <= z < |Where(table, start)| && NoZeroRow(Where(table, start)[..z])
    ensures var w := Where(table, start);
            Polled(table, start, 1, n) == State(if n == 0 then start else KeyOf(w[n - 1]), w[..n])
  {
    hide Where;
    var w := Where(table, start);
    if n > 0 {
      SinglesBeforeZero(table, start, z, n - 1);
      if n > 1 {
        WhereFromRow(table, start, n - 1);
      }
      var c := if n == 1 then start else KeyOf(w[n - 2]);
      assert Query(table, c, 1) == [w[n - 1]];
      assert w[..z][n - 1] == w[n - 1];
      assert w[..n - 1] + [w[n - 1]] == w[..n];
    }
  }
}
