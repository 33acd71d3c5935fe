/** What the ingest pipeline does with the rows the importer delivers. A delivery is
    a call that returned no error; whether the row was stored is another matter,
    because the deduplication key is set before the insert. */
module PcsPipeline {
  import opened PcsImporter
  import PcsRuns

  /** The payload key: vessel and whole second of the message. */
  type Key = (string, int)

  function PayloadKey(r: Row): Key { (r.mmsi, r.ts / 1_000_000) }

  /** SETNX answers, or fails with the key recorded or not. */
  datatype Dedup = Answers | Errs(recorded: bool)

  /** How one call goes: the row is quarantined, or it passes the checks and then the
      dedup lookup, the insert and the publications decide. */
  datatype Fate = Quarantined(published: bool) | Admitted(dedup: Dedup, inserts: bool, publishes: bool)

  /** What happens at the pipeline, in order. */
  datatype Entry = Handled(row: Row, fate: Fate) | Expired(key: Key)

  predicate Records(e: Entry, key: Key) {
    && e.Handled? && PayloadKey(e.row) == key && e.fate.Admitted?
    && (e.fate.dedup == Answers || e.fate.dedup == Errs(true))
  }

  /** The key is set: recorded, and not expired since. */
  predicate KeySet(log: seq<Entry>, key: Key) {
    log != [] &&
    var n := |log| - 1;
    Records(log[n], key) || (log[n] != Expired(key) && KeySet(log[..n], key))
  }

  predicate Absorbed(log: seq<Entry>, row: Row, fate: Fate) {
    fate.Admitted? && fate.dedup == Answers && KeySet(log, PayloadKey(row))
  }

  /** `HandlePosition` returns no error. */
  predicate Returns(log: seq<Entry>, row: Row, fate: Fate) {
    match fate
    case Quarantined(published) => published
    case Admitted(_, inserts, publishes) => Absorbed(log, row, fate) || (inserts && publishes)
  }

  predicate Stores(log: seq<Entry>, row: Row, fate: Fate) {
    fate.Admitted? && !Absorbed(log, row, fate) && fate.inserts
  }

  /** The rows in the position table. */
  function Stored(log: seq<Entry>): set<Row> {
    if log == [] then {}
    else
      var n := |log| - 1;
      Stored(log[..n]) + if log[n].Handled? && Stores(log[..n], log[n].row, log[n].fate) then {log[n].row} else {}
  }

  // ---- When a row is stored ----

  /** The key of entry i was recorded at j and has not expired in between. */
  ghost predicate HeldBy(log: seq<Entry>, j: nat, i: nat, key: Key) {
    j < i <= |log| && Records(log[j], key) && forall m :: j < m < i ==> log[m] != Expired(key)
  }

  /** The call at i is not a duplicate: the lookup fails, or nobody holds the key. */
  ghost predicate OpensWindow(log: seq<Entry>, i: nat) {
    && i < |log| && log[i].Handled? && log[i].fate.Admitted?
    && (log[i].fate.dedup == Answers ==> forall j: nat :: !HeldBy(log, j, i, PayloadKey(log[i].row)))
  }

  ghost predicate StoredAt(log: seq<Entry>, i: nat, row: Row) {
    OpensWindow(log, i) && log[i].row == row && log[i].fate.inserts
  }

  lemma HeldInPrefix(log: seq<Entry>, n: nat, j: nat, i: nat, key: Key)
    requires i <= n <= |log|
    ensures HeldBy(log[..n], j, i, key) <==> HeldBy(log, j, i, key)
  {}

  lemma HeldOneMore(log: seq<Entry>, j: nat, key: Key)
    requires j < |log| - 1
    ensures var n := |log| - 1;
            HeldBy(log, j, n + 1, key) <==> HeldBy(log[..n], j, n, key) && log[n] != Expired(key)
  {
    hide Records;
    var n := |log| - 1;
    HeldInPrefix(log, n, j, n, key);
    if HeldBy(log, j, n + 1, key) {
      assert log[n] != Expired(key);
      assert HeldBy(log, j, n, key);
    }
  }

  lemma {:induction false} KeySetMeansHeld(log: seq<Entry>, key: Key)
    ensures KeySet(log, key) <==> exists j: nat :: HeldBy(log, j, |log|, key)
  {
    hide Records;
    if log != [] {
      var n := |log| - 1;
      KeySetMeansHeld(log[..n], key);
      RecordingIsNoExpiry(log[n], key);
      if KeySet(log, key) {
        if Records(log[n], key) {
          assert HeldBy(log, n, |log|, key);
        } else {
          var j: nat :| HeldBy(log[..n], j, n, key);
          HeldOneMore(log, j, key);
        }
      }
      if exists j: nat :: HeldBy(log, j, |log|, key) {
        var j: nat :| HeldBy(log, j, |log|, key);
        if j < n { HeldOneMore(log, j, key); }
      }
    }
  }

  lemma RecordingIsNoExpiry(e: Entry, key: Key)
    ensures Records(e, key) ==> e != Expired(key)
  {}

  lemma OpensMeansNotAbsorbed(log: seq<Entry>, i: nat)
    requires i < |log| && log[i].Handled? && log[i].fate.Admitted?
    ensures OpensWindow(log, i) <==> !Absorbed(log[..i], log[i].row, log[i].fate)
  {
    var key := PayloadKey(log[i].row);
    KeySetMeansHeld(log[..i], key);
    hide KeySet, HeldBy;
    forall j: nat ensures HeldBy(log[..i], j, i, key) <==> HeldBy(log, j, i, key) {
      HeldInPrefix(log, i, j, i, key);
    }
  }

  lemma StoredAtPrefix(log: seq<Entry>, n: nat, i: nat, row: Row)
    requires i < n <= |log|
    ensures StoredAt(log[..n], i, row) <==> StoredAt(log, i, row)
  {
    hide HeldBy;
    if log[i].Handled? {
      var key := PayloadKey(log[i].row);
      forall j: nat ensures HeldBy(log[..n], j, i, key) <==> HeldBy(log, j, i, key) { HeldInPrefix(log, n, j, i, key); }
    }
  }

  /** A row is stored if and only if some call with it was neither quarantined nor a
      duplicate, and its insert succeeded. */
  lemma {:induction false} StoredExactlyWhen(log: seq<Entry>, row: Row)
    ensures row in Stored(log) <==> exists i: nat :: StoredAt(log, i, row)
  {
    if log != [] {
      var n := |log| - 1;
      StoredExactlyWhen(log[..n], row);
      if log[n].Handled? && log[n].fate.Admitted? { OpensMeansNotAbsorbed(log, n); }
      assert StoredAt(log, n, row) <==> log[n].Handled? && log[n].row == row && Stores(log[..n], row, log[n].fate);
      hide Stores, OpensWindow;
      forall i: nat | i < n ensures StoredAt(log[..n], i, row) <==> StoredAt(log, i, row) { StoredAtPrefix(log, n, i, row); }
      if row in Stored(log[..n]) {
        var i: nat :| StoredAt(log[..n], i, row);
        assert StoredAt(log, i, row);
      }
      if exists i: nat :: StoredAt(log, i, row) {
        var i: nat :| StoredAt(log, i, row);
        assert i < n ==> StoredAt(log[..n], i, row);
      }
    }
  }

  // ---- The importer over the pipeline ----

  /** What may happen, in any order: a row arrives at the source, a key expires, a
      query fails, or a poll hands its rows to the pipeline. */
  datatype Event = Arrives(row: Row) | Expires(key: Key) | QueryBreaks | Polls(fates: seq<Fate>)

  /** The importer's happenings and the pipeline's log. */
  datatype Story = Story(happenings: seq<PcsRuns.Happening>, log: seq<Entry>)

  function FateAt(fates: seq<Fate>, i: nat): Fate { if i < |fates| then fates[i] else Quarantined(false) }

  /** The calls for the first n rows of a batch. */
  function Calls(rows: seq<Row>, fates: seq<Fate>, n: nat): (c: seq<Entry>)
    requires n <= |rows|
    ensures |c| == n
  {
    seq(n, i requires 0 <= i < n => Handled(rows[i], FateAt(fates, i)))
  }

  /** The first call from n on that returns an error, if any. */
  function FirstError(log: seq<Entry>, rows: seq<Row>, fates: seq<Fate>, n: nat): (k: nat)
    requires n <= |rows|
    ensures n <= k <= |rows|
    ensures forall i :: n <= i < k ==> Returns(log + Calls(rows, fates, i), rows[i], FateAt(fates, i))
    ensures k < |rows| ==> !Returns(log + Calls(rows, fates, k), rows[k], FateAt(fates, k))
    decreases |rows| - n
  {
    if n == |rows| || !Returns(log + Calls(rows, fates, n), rows[n], FateAt(fates, n)) then n
    else FirstError(log, rows, fates, n + 1)
  }

  /** A poll stops at the first error; that call has happened too. */
  function Next(world: PcsRuns.World, batch: nat, story: Story, e: Event): Story {
    match e
    case Arrives(row) => story.(happenings := story.happenings + [PcsRuns.Arrives(row)])
    case Expires(key) => story.(log := story.log + [Expired(key)])
    case QueryBreaks => story.(happenings := story.happenings + [PcsRuns.PollEnds(QueryFails)])
    case Polls(fates) =>
      var rows := Query(world.table, world.state.cursor, batch);
      var k := FirstError(story.log, rows, fates, 0);
      if k < |rows|
      then Story(story.happenings + [PcsRuns.PollEnds(IngestFails(k))], story.log + Calls(rows, fates, k + 1))
      else Story(story.happenings + [PcsRuns.PollEnds(Succeeds)], story.log + Calls(rows, fates, |rows|))
  }

  ghost function Tell(table: seq<Row>, start: Cursor, batch: nat, events: seq<Event>): Story {
    if events == [] then Story([], [])
    else
      var story := Tell(table, start, batch, events[..|events| - 1]);
      Next(PcsRuns.Run(table, start, batch, story.happenings), batch, story, events[|events| - 1])
  }

  ghost predicate AcknowledgedAt(log: seq<Entry>, i: nat, row: Row) {
    i < |log| && log[i].Handled? && log[i].row == row && Returns(log[..i], row, log[i].fate)
  }

  ghost predicate Acknowledged(log: seq<Entry>, row: Row) { exists i: nat :: AcknowledgedAt(log, i, row) }

  lemma AcknowledgedGrows(log: seq<Entry>, more: seq<Entry>, row: Row)
    requires Acknowledged(log, row)
    ensures Acknowledged(log + more, row)
  {
    var i: nat :| AcknowledgedAt(log, i, row);
    assert (log + more)[..i] == log[..i];
    assert AcknowledgedAt(log + more, i, row);
  }

  lemma BatchIsAcknowledged(log: seq<Entry>, rows: seq<Row>, fates: seq<Fate>, n: nat, j: nat)
    requires j < n <= |rows| && Returns(log + Calls(rows, fates, j), rows[j], FateAt(fates, j))
    ensures Acknowledged(log + Calls(rows, fates, n), rows[j])
  {
    hide Returns;
    var after := log + Calls(rows, fates, n);
    assert after[..|log| + j] == log + Calls(rows, fates, j);
    assert AcknowledgedAt(after, |log| + j, rows[j]);
  }

  /** Everything delivered was acknowledged. */
  ghost predicate AllAcknowledged(table: seq<Row>, start: Cursor, batch: nat, story: Story) {
    forall r :: r in PcsRuns.Run(table, start, batch, story.happenings).state.delivered ==> Acknowledged(story.log, r)
  }

  lemma {:induction false} DeliveredIsAcknowledged(table: seq<Row>, start: Cursor, batch: nat, events: seq<Event>)
    ensures AllAcknowledged(table, start, batch, Tell(table, start, batch, events))
  {
    if events != [] {
      var n := |events| - 1;
      var story := Tell(table, start, batch, events[..n]);
      assert Tell(table, start, batch, events) ==
             Next(PcsRuns.Run(table, start, batch, story.happenings), batch, story, events[n]);
      hide Tell, AllAcknowledged, Next, PcsRuns.Run;
      DeliveredIsAcknowledged(table, start, batch, events[..n]);
      EventKeepsAcknowledged(table, start, batch, story, events[n]);
    }
  }

  lemma RunOne(table: seq<Row>, start: Cursor, batch: nat, hs: seq<PcsRuns.Happening>, h: PcsRuns.Happening)
    ensures PcsRuns.Run(table, start, batch, hs + [h]) == PcsRuns.Next(PcsRuns.Run(table, start, batch, hs), batch, h)
  {
    assert (hs + [h])[..|hs|] == hs;
  }

  lemma EventKeepsAcknowledged(table: seq<Row>, start: Cursor, batch: nat, story: Story, e: Event)
    requires AllAcknowledged(table, start, batch, story)
    ensures AllAcknowledged(table, start, batch, Next(PcsRuns.Run(table, start, batch, story.happenings), batch, story, e))
  {
    hide PcsRuns.Run, Acknowledged, FirstError, Query;
    var world := PcsRuns.Run(table, start, batch, story.happenings);
    match e
    case Arrives(row) => RunOne(table, start, batch, story.happenings, PcsRuns.Arrives(row));
    case Expires(key) =>
      forall r | r in world.state.delivered ensures Acknowledged(story.log + [Expired(key)], r) {
        AcknowledgedGrows(story.log, [Expired(key)], r);
      }
    case QueryBreaks => RunOne(table, start, batch, story.happenings, PcsRuns.PollEnds(QueryFails));
    case Polls(fates) =>
      var rows := Query(world.table, world.state.cursor, batch);
      var k := FirstError(story.log, rows, fates, 0);
      var calls := Calls(rows, fates, if k < |rows| then k + 1 else |rows|);
      RunOne(table, start, batch, story.happenings, PcsRuns.PollEnds(if k < |rows| then IngestFails(k) else Succeeds));
      forall r | r in world.state.delivered ensures Acknowledged(story.log + calls, r) {
        AcknowledgedGrows(story.log, calls, r);
      }
      forall j | 0 <= j < k ensures Acknowledged(story.log + calls, rows[j]) {
        assert Returns(story.log + Calls(rows, fates, j), rows[j], FateAt(fates, j));
        BatchIsAcknowledged(story.log, rows, fates, |calls|, j);
      }
  }

  /** In every story, however calls and polls fail, rows arrive and keys expire: each
      row the cursor has passed, unless it was behind the cursor on arrival, was
      acknowledged; and it is in the position table if and only if some call with it was
      neither quarantined nor a duplicate and its insert succeeded. */
  lemma PassedRowsStoredExactlyWhen(table: seq<Row>, start: Cursor, batch: nat, events: seq<Event>, r: Row)
    requires Listed(table) && start.ts > ZERO && batch > 0
    requires var story := Tell(table, start, batch, events);
             var w := PcsRuns.Run(table, start, batch, story.happenings);
             r in w.table && !After(w.state.cursor, r) && r !in w.missed
    ensures var log := Tell(table, start, batch, events).log;
            Acknowledged(log, r) && (r in Stored(log) <==> exists i: nat :: StoredAt(log, i, r))
  {
    hide Tell, PcsRuns.Run, Stored, StoredAt, After, Listed;
    var story := Tell(table, start, batch, events);
    PcsRuns.NothingIsLost(table, start, batch, story.happenings);
    DeliveredIsAcknowledged(table, start, batch, events);
    StoredExactlyWhen(story.log, r);
  }

  // ---- When nothing acknowledged is lost ----

  /** Every admitted call that is not a duplicate inserts its row. */
  ghost predicate InsertsSucceed(log: seq<Entry>) {
    forall i :: 0 <= i < |log| && log[i].Handled? && log[i].fate.Admitted? ==> log[i].fate.inserts
  }

  /** No two rows of one vessel fall into the same second. */
  ghost predicate OneRowPerKey(log: seq<Entry>) {
    forall i, j ::
      && 0 <= i < |log| && 0 <= j < |log| && log[i].Handled? && log[j].Handled?
      && PayloadKey(log[i].row) == PayloadKey(log[j].row)
      ==> log[i].row == log[j].row
  }

  lemma {:induction false} AdmittedIsStored(log: seq<Entry>, i: nat)
    requires InsertsSucceed(log) && OneRowPerKey(log)
    requires i < |log| && log[i].Handled? && log[i].fate.Admitted?
    ensures exists j: nat :: StoredAt(log, j, log[i].row)
  {
    var key := PayloadKey(log[i].row);
    if OpensWindow(log, i) {
      assert StoredAt(log, i, log[i].row);
    } else {
      var j: nat :| HeldBy(log, j, i, key);
      assert log[j].row == log[i].row;
      AdmittedIsStored(log, j);
    }
  }

  /** Where inserts succeed and no two rows share a payload key, every row that passed
      the checks in some call is stored. */
  lemma NothingAdmittedIsLost(log: seq<Entry>, i: nat)
    requires InsertsSucceed(log) && OneRowPerKey(log)
    requires i < |log| && log[i].Handled? && log[i].fate.Admitted?
    ensures log[i].row in Stored(log)
  {
    hide InsertsSucceed, OneRowPerKey;
    AdmittedIsStored(log, i);
    StoredExactlyWhen(log, log[i].row);
  }

  // ---- How an acknowledged row is lost ----

  /** A failed insert leaves the key behind: the next call is absorbed, acknowledged,
      and the row is in no table. */
  lemma FailedInsertLosesTheRow(r: Row, publishes: bool, again: Fate)
    requires again.Admitted? && again.dedup == Answers
    ensures var first := [Handled(r, Admitted(Answers, false, publishes))];
            && !Returns([], r, first[0].fate)
            && Returns(first, r, again)
            && Stored(first + [Handled(r, again)]) == {}
  {
    var first := [Handled(r, Admitted(Answers, false, publishes))];
    var both := first + [Handled(r, again)];
    assert first[..0] == [] && both[..1] == first;
    assert Records(first[0], PayloadKey(r));
    assert Stored([]) == {};
    assert Stored(first) == {};
  }

  /** So is the second of two rows of one vessel in the same second, without any
      failure. */
  lemma SecondRowOfASecondIsLost(a: Row, b: Row, again: Fate)
    requires a != b && PayloadKey(a) == PayloadKey(b) && again.Admitted? && again.dedup == Answers
    ensures var first := [Handled(a, Admitted(Answers, true, true))];
            Returns(first, b, again) && Stored(first + [Handled(b, again)]) == {a}
  {
    var first := [Handled(a, Admitted(Answers, true, true))];
    var both := first + [Handled(b, again)];
    assert first[..0] == [] && both[..1] == first;
    assert Records(first[0], PayloadKey(b));
    assert Stored([]) == {};
    assert Stored(first) == {a};
  }
}
