/** The importer against a source table that keeps growing, with failing polls. */
module PcsRuns {
  import opened Text
  import opened PcsImporter

  datatype Happening = Arrives(row: Row) | PollEnds(ending: Ending)

  /** `missed` collects the rows that were behind the cursor when they arrived. */
  datatype World = World(table: seq<Row>, state: State, missed: set<Row>)

  predicate SameKey(a: Row, b: Row) { KeyOf(a) == KeyOf(b) }

  /** Insertion at the row's place in key order. */
  function InsertRow(table: seq<Row>, row: Row): seq<Row> {
    if table == [] || After(KeyOf(row), table[0]) then [row] + table else [table[0]] + InsertRow(table[1..], row)
  }

  predicate KeyTaken(table: seq<Row>, row: Row) { exists i :: 0 <= i < |table| && SameKey(table[i], row) }

  /** The primary key rejects a row whose key is taken. */
  function Next(w: World, batch: nat, h: Happening): World {
    match h
    case PollEnds(ending) => w.(state := Poll(w.state, w.table, batch, ending))
    case Arrives(row) =>
      if KeyTaken(w.table, row) then w
      else w.(table := InsertRow(w.table, row),
              missed := if After(w.state.cursor, row) then w.missed else w.missed + {row})
  }

  ghost function Start(table: seq<Row>, start: Cursor): World {
    World(table, State(start, []), set r | r in table && !After(start, r))
  }

  ghost function Run(table: seq<Row>, start: Cursor, batch: nat, hs: seq<Happening>): World {
    if hs == [] then Start(table, start)
    else Next(Run(table, start, batch, hs[..|hs| - 1]), batch, hs[|hs| - 1])
  }

  ghost predicate Inv(w: World) {
    && Listed(w.table) && w.state.cursor.ts > ZERO
    && (forall r :: r in w.state.delivered ==> r in w.table && r !in w.missed)
    && (forall r :: r in w.table && r !in w.missed && !After(w.state.cursor, r) ==> r in w.state.delivered)
    && (forall r :: r in w.missed ==> r in w.table && !After(w.state.cursor, r))
  }

  // ---- Arrivals ----

  lemma {:induction false} InsertMembers(table: seq<Row>, row: Row)
    ensures forall r :: r in InsertRow(table, row) <==> r == row || r in table
  {
    hide After;
    if table != [] && !After(KeyOf(row), table[0]) {
      InsertMembers(table[1..], row);
      assert table == [table[0]] + table[1..];
    }
  }

  lemma Comparable(a: Row, b: Row)
    requires !SameKey(a, b) && !After(KeyOf(a), b)
    ensures After(KeyOf(b), a)
  {
    LessTrichotomy(a.mmsi, b.mmsi);
  }

  lemma {:induction false} InsertListed(table: seq<Row>, row: Row)
    requires Listed(table) && !KeyTaken(table, row)
    ensures Listed(InsertRow(table, row))
  {
    hide After, SameKey;
    if table != [] {
      if After(KeyOf(row), table[0]) {
        forall j | 0 < j < |table| ensures After(KeyOf(row), table[j]) {
          AfterTransitive(KeyOf(row), table[0], table[j]);
        }
      } else {
        assert !KeyTaken(table[1..], row) by {
          assert forall i :: 0 <= i < |table[1..]| ==> table[1..][i] == table[i + 1];
        }
        InsertListed(table[1..], row);
        InsertMembers(table[1..], row);
        var rest := InsertRow(table[1..], row);
        forall j | 0 <= j < |rest| ensures After(KeyOf(table[0]), rest[j]) {
          assert rest[j] in rest;
          if rest[j] == row {
            assert !SameKey(row, table[0]) by { SameKeySymmetric(row, table[0]); }
            Comparable(row, table[0]);
          } else {
            assert rest[j] in table[1..];
          }
        }
      }
    }
  }

  lemma SameKeySymmetric(a: Row, b: Row)
    ensures SameKey(a, b) == SameKey(b, a)
  {}

  lemma MemberTakesKey(table: seq<Row>, row: Row)
    ensures row in table ==> KeyTaken(table, row)
  {
    if row in table {
      var i :| 0 <= i < |table| && table[i] == row;
      assert SameKey(table[i], row);
    }
  }

  lemma ArrivalKeepsInv(w: World, batch: nat, row: Row)
    requires Inv(w)
    ensures Inv(Next(w, batch, Arrives(row)))
  {
    if !KeyTaken(w.table, row) {
      hide After, Listed, InsertRow;
      InsertListed(w.table, row);
      InsertMembers(w.table, row);
      MemberTakesKey(w.table, row);
    }
  }

  // ---- Polls ----

  lemma PollKeepsInv(w: World, batch: nat, ending: Ending)
    requires Inv(w) && batch > 0
    ensures Inv(Next(w, batch, PollEnds(ending)))
  {
    hide After, Where;
    var c := w.state.cursor;
    var waiting := Where(w.table, c);
    WhereMembers(w.table, c);
    var rows := Query(w.table, c, batch);
    assert forall r :: r in rows ==> r in waiting;
    var w' := Next(w, batch, PollEnds(ending));
    if w'.state.cursor != c {
      var m := |rows|;
      assert rows == waiting[..m] && rows[m - 1] == waiting[m - 1];
      WhereFromRow(w.table, c, m);
      WhereMembers(w.table, w'.state.cursor);
      WaitingTimes(w.table, c, rows[m - 1]);
      assert waiting == waiting[..m] + waiting[m..];
      forall r | r in w.table && !After(c, r) ensures !After(w'.state.cursor, r) {
        CursorMovesForward(c, rows[m - 1], r);
      }
    } else if rows != [] {
      WaitingTimes(w.table, c, rows[|rows| - 1]);
    }
  }

  lemma WaitingTimes(table: seq<Row>, c: Cursor, r: Row)
    requires r in Where(table, c)
    ensures r.ts >= c.ts
  {
    WhereMembers(table, c);
  }

  lemma CursorMovesForward(c: Cursor, last: Row, r: Row)
    requires After(c, last) && !After(c, r)
    ensures !After(KeyOf(last), r)
  {
    if After(KeyOf(last), r) { AfterTransitive(c, last, r); }
  }

  lemma {:induction false} RunKeepsInv(table: seq<Row>, start: Cursor, batch: nat, hs: seq<Happening>)
    requires Listed(table) && start.ts > ZERO && batch > 0
    ensures Inv(Run(table, start, batch, hs))
  {
    if hs != [] {
      hide Next, Inv;
      var n := |hs| - 1;
      RunKeepsInv(table, start, batch, hs[..n]);
      var w := Run(table, start, batch, hs[..n]);
      match hs[n]
      case PollEnds(ending) => PollKeepsInv(w, batch, ending);
      case Arrives(row) => ArrivalKeepsInv(w, batch, row);
    }
  }

  /** However polls fail and rows arrive: every row the cursor has passed was
      delivered, except exactly those that were already behind it on arrival; and
      nothing else was ever delivered. */
  lemma NothingIsLost(table: seq<Row>, start: Cursor, batch: nat, hs: seq<Happening>)
    requires Listed(table) && start.ts > ZERO && batch > 0
    ensures var w := Run(table, start, batch, hs);
            && (forall r :: r in w.table && !After(w.state.cursor, r) ==>
                  (r in w.state.delivered <==> r !in w.missed))
            && (forall r :: r in w.state.delivered ==> r in w.table && r !in w.missed)
            && (Where(w.table, w.state.cursor) == [] ==>
                  forall r :: r in w.table ==> (r in w.state.delivered <==> r !in w.missed))
  {
    hide After;
    RunKeepsInv(table, start, batch, hs);
    var w := Run(table, start, batch, hs);
    WhereMembers(w.table, w.state.cursor);
    if Where(w.table, w.state.cursor) == [] {
      forall r | r in w.table ensures !After(w.state.cursor, r) {
        assert r !in Where(w.table, w.state.cursor);
      }
    }
  }

  // ---- Without failures nothing is delivered twice ----

  ghost predicate NoFailure(hs: seq<Happening>) {
    forall i :: 0 <= i < |hs| && hs[i].PollEnds? ==> hs[i].ending == Succeeds
  }

  ghost predicate InOrder(s: State) {
    Listed(s.delivered) && forall r :: r in s.delivered ==> !After(s.cursor, r)
  }

  lemma BehindThenAfter(c: Cursor, r: Row, later: Row)
    requires !After(c, r) && After(c, later)
    ensures After(KeyOf(r), later)
  {
    LessTrichotomy(c.mmsi, r.mmsi);
    if c.ts == r.ts == later.ts && r.mmsi != c.mmsi { LessTransitive(r.mmsi, c.mmsi, later.mmsi); }
  }

  lemma ListedConcat(a: seq<Row>, b: seq<Row>)
    requires Listed(a) && Listed(b) && forall r, x :: r in a && x in b ==> After(KeyOf(r), x)
    ensures Listed(a + b)
  {
    hide After;
    var c := a + b;
    forall i, j | 0 <= i < j < |c| ensures After(KeyOf(c[i]), c[j]) {
      if i < |a| <= j { assert c[i] in a && c[j] in b; }
      if j < |a| { assert c[i] == a[i] && c[j] == a[j]; }
      if |a| <= i { assert c[i] == b[i - |a|] && c[j] == b[j - |a|]; }
    }
  }

  lemma SuccessKeepsOrder(w: World, batch: nat)
    requires Inv(w) && batch > 0 && InOrder(w.state)
    ensures InOrder(Poll(w.state, w.table, batch, Succeeds))
  {
    hide After, Where;
    var c := w.state.cursor;
    var rows := Query(w.table, c, batch);
    WhereMembers(w.table, c);
    WhereListed(w.table, c);
    var s' := Poll(w.state, w.table, batch, Succeeds);
    forall r, x | r in w.state.delivered && x in rows ensures After(KeyOf(r), x) {
      assert x in Where(w.table, c);
      BehindThenAfter(c, r, x);
    }
    ListedConcat(w.state.delivered, rows);
    if rows != [] {
      var last := rows[|rows| - 1];
      assert last in Where(w.table, c);
      WaitingTimes(w.table, c, last);
      forall r | r in s'.delivered ensures !After(KeyOf(last), r) {
        if r in w.state.delivered {
          CursorMovesForward(c, last, r);
        } else {
          AfterAsymmetric(r, last);
          AfterAsymmetric(last, last);
        }
      }
    } else {
      assert w.state.delivered + rows == w.state.delivered;
    }
  }

  /** As long as no poll fails, the deliveries are strictly ascending in key: each
      row at most once, in order, also while the table grows. */
  lemma {:induction false} DeliveredOnceInOrder(table: seq<Row>, start: Cursor, batch: nat, hs: seq<Happening>)
    requires Listed(table) && start.ts > ZERO && batch > 0 && NoFailure(hs)
    ensures InOrder(Run(table, start, batch, hs).state)
  {
    if hs != [] {
      hide InOrder, Inv;
      var n := |hs| - 1;
      var w := Run(table, start, batch, hs[..n]);
      assert forall i :: 0 <= i < n ==> hs[..n][i] == hs[i];
      DeliveredOnceInOrder(table, start, batch, hs[..n]);
      RunKeepsInv(table, start, batch, hs[..n]);
      if hs[n].PollEnds? {
        SuccessKeepsOrder(w, batch);
      }
    }
  }
}
