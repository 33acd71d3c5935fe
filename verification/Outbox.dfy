/** The transactional outbox: rows are enqueued with their domain change and
    drained to Kafka at least once. Publishing is not undone by a rollback. */
module Outbox {

  /** The contract types and their topics. */
  const CONTRACTS: map<string, string> := map[
    "mrv.fuel-report.v1" := "mrv.fuel-reports",
    "mrv.voyage.v1" := "mrv.voyages",
    "mrv.verification.v1" := "mrv.verifications",
    "mrv.emissions-annual.v1" := "mrv.annual-reports",
    "mrv.soc.v1" := "mrv.soc",
    "mrv.activity-estimate.v1" := "mrv.activity-estimates",
    "mrv.voyage-emissions.v1" := "mrv.voyage-emissions"]

  /** The event types that the table's CHECK constraint admits. */
  const STORABLE: set<string> := {
    "mrv.fuel-report.v1", "mrv.voyage.v1", "mrv.verification.v1",
    "mrv.emissions-annual.v1", "mrv.soc.v1", "mrv.activity-estimate.v1"}

  datatype Row = Row(eventId: string, aggregateId: string, eventType: string, payload: string, published: bool)

  datatype Message = Message(topic: string, key: string, payload: string, eventId: string, eventType: string)

  datatype State = State(rows: seq<Row>, delivered: seq<Message>)

  const EMPTY := State([], [])

  function Topic(eventType: string): string {
    if eventType in CONTRACTS then CONTRACTS[eventType] else ""
  }

  function MessageOf(r: Row): Message {
    Message(Topic(r.eventType), r.aggregateId, r.payload, r.eventId, r.eventType)
  }

  function Messages(rows: seq<Row>): seq<Message> {
    if rows == [] then [] else Messages(rows[..|rows| - 1]) + [MessageOf(rows[|rows| - 1])]
  }

  // ---- Enqueue ----

  /** Can an event be enqueued? Its type needs a contract and must be one that the
      table admits, and the aggregate id must meet the length CHECK. */
  predicate Enqueueable(admitted: set<string>, eventType: string, aggregateId: string) {
    eventType in CONTRACTS && eventType in admitted && 1 <= |aggregateId| <= 256
  }

  /** The row is inserted with the domain change, or neither is. */
  function Enqueue(s: State, eventId: string, aggregateId: string, eventType: string, payload: string, commits: bool): State {
    if !Enqueueable(STORABLE, eventType, aggregateId) || !commits then s
    else s.(rows := s.rows + [Row(eventId, aggregateId, eventType, payload, false)])
  }

  // ---- Drain ----

  /** How a drain ends. A commit that reports an error may still have been applied,
      and a failed publish may still have reached the broker. */
  datatype Fate = Commits | CommitFails(applied: bool) | FailsAt(k: nat, reached: bool)

  /** The oldest unpublished rows that no other drain has locked. */
  function Pending(rows: seq<Row>, locked: set<string>): seq<Row> {
    if rows == [] then []
    else
      var r := rows[|rows| - 1];
      Pending(rows[..|rows| - 1], locked) + if !r.published && r.eventId !in locked then [r] else []
  }

  function Batch(s: State, size: nat, locked: set<string>): seq<Row> {
    var p := Pending(s.rows, locked);
    if |p| <= size then p else p[..size]
  }

  function Mark(rows: seq<Row>, ids: set<string>): (r: seq<Row>)
    ensures |r| == |rows|
  {
    seq(|rows|, i requires 0 <= i < |rows| => if rows[i].eventId in ids then rows[i].(published := true) else rows[i])
  }

  function IdsOf(rows: seq<Row>): set<string> { set i | 0 <= i < |rows| :: rows[i].eventId }

  function Drain(s: State, size: nat, locked: set<string>, fate: Fate): State {
    var batch := Batch(s, size, locked);
    match fate
    case Commits => State(Mark(s.rows, IdsOf(batch)), s.delivered + Messages(batch))
    case CommitFails(applied) =>
      State(if applied then Mark(s.rows, IdsOf(batch)) else s.rows, s.delivered + Messages(batch))
    case FailsAt(k, reached) =>
      if k < |batch|
      then s.(delivered := s.delivered + Messages(batch[..k]) + if reached then [MessageOf(batch[k])] else [])
      else State(Mark(s.rows, IdsOf(batch)), s.delivered + Messages(batch))
  }

  class Publisher {
    var rows: seq<Row>
    var delivered: seq<Message>

    ghost function View(): State
      reads this
    {
      State(rows, delivered)
    }

    constructor ()
      ensures View() == EMPTY
    {
      rows, delivered := [], [];
    }

    /** Insert the row inside the open transaction, which then commits or is rolled
        back. A type without a contract, or a row the table refuses, is an error. */
    method EnqueueRow(eventId: string, aggregateId: string, eventType: string, payload: string, commits: bool)
      returns (ok: bool)
      modifies this`rows
      ensures View() == Enqueue(old(View()), eventId, aggregateId, eventType, payload, commits)
      ensures ok <==> View() != old(View())
    {
      if eventType !in CONTRACTS {
        return false;
      }
      if eventType !in STORABLE || !(1 <= |aggregateId| <= 256) {
        return false;
      }
      if !commits {
        return false;
      }
      rows := rows + [Row(eventId, aggregateId, eventType, payload, false)];
      return true;
    }

    /** Publish row by row, marking each inside the transaction; an error rolls the
        marks back but not the deliveries. The unknown-type branch cannot occur. */
    method DrainOnce(size: nat, locked: set<string>, fate: Fate) returns (ok: bool)
      requires forall i :: 0 <= i < |rows| ==> rows[i].eventType in CONTRACTS
      modifies this
      ensures View() == Drain(old(View()), size, locked, fate)
      ensures ok <==> fate.Commits? || (fate.FailsAt? && |Batch(old(View()), size, locked)| <= fate.k)
    {
      hide Pending, Messages, MessageOf, IdsOf, Mark;
      var batch := Batch(State(rows, delivered), size, locked);
      BatchTypes(rows, size, locked, delivered);
      NothingSent(batch);
      var marked := {};
      for i := 0 to |batch|
        invariant rows == old(rows) && delivered == old(delivered) + Messages(batch[..i])
        invariant marked == IdsOf(batch[..i])
        invariant fate.FailsAt? ==> i <= fate.k
      {
        var row := batch[i];
        SentOneMore(batch, i);
        if row.eventType !in CONTRACTS {
          assert false;
        }
        if fate.FailsAt? && fate.k == i {
          if fate.reached {
            delivered := delivered + [MessageOf(row)];
          }
          return false;
        }
        delivered := delivered + [MessageOf(row)];
        marked := marked + {row.eventId};
      }
      assert batch[..|batch|] == batch;
      if fate.CommitFails? {
        if fate.applied {
          rows := Mark(rows, marked);
        }
        return false;
      }
      rows := Mark(rows, marked);
      return true;
    }
  }

  lemma NothingSent(batch: seq<Row>)
    ensures Messages(batch[..0]) == [] && IdsOf(batch[..0]) == {}
  {}

  lemma SentOneMore(batch: seq<Row>, i: nat)
    requires i < |batch|
    ensures Messages(batch[..i + 1]) == Messages(batch[..i]) + [MessageOf(batch[i])]
    ensures IdsOf(batch[..i + 1]) == IdsOf(batch[..i]) + {batch[i].eventId}
  {
    hide MessageOf;
    assert batch[..i + 1][..i] == batch[..i];
    assert forall j :: 0 <= j < i ==> batch[..i + 1][j] == batch[..i][j];
  }

  lemma {:induction false} PendingMembers(rows: seq<Row>, locked: set<string>)
    ensures forall r :: r in Pending(rows, locked) <==> r in rows && !r.published && r.eventId !in locked
  {
    if rows != [] {
      PendingMembers(rows[..|rows| - 1], locked);
      assert rows == rows[..|rows| - 1] + [rows[|rows| - 1]];
    }
  }

  lemma BatchTypes(rows: seq<Row>, size: nat, locked: set<string>, delivered: seq<Message>)
    requires forall i :: 0 <= i < |rows| ==> rows[i].eventType in CONTRACTS
    ensures forall r :: r in Batch(State(rows, delivered), size, locked) ==> r in rows && r.eventType in CONTRACTS
  {
    PendingMembers(rows, locked);
  }

  // ---- The guarantee ----

  ghost predicate RowOk(s: State, i: nat)
    requires i < |s.rows|
  {
    && s.rows[i].eventType in CONTRACTS
    && (s.rows[i].published ==> MessageOf(s.rows[i]) in s.delivered)
    && forall j :: i < j < |s.rows| ==> s.rows[j].eventId != s.rows[i].eventId
  }

  ghost predicate FromRow(s: State, m: Message) {
    exists i :: 0 <= i < |s.rows| && MessageOf(s.rows[i]) == m
  }

  ghost predicate Inv(s: State) {
    && (forall i :: 0 <= i < |s.rows| ==> RowOk(s, i))
    && (forall m :: m in s.delivered ==> FromRow(s, m))
  }

  lemma {:induction false} MessagesMembers(rows: seq<Row>)
    ensures forall m :: m in Messages(rows) <==> exists r :: r in rows && MessageOf(r) == m
  {
    if rows != [] {
      var n := |rows| - 1;
      MessagesMembers(rows[..n]);
      assert rows == rows[..n] + [rows[n]];
      assert rows[n] in rows;
    }
  }

  lemma EnqueueKeepsInv(s: State, eventId: string, aggregateId: string, eventType: string, payload: string, commits: bool)
    requires Inv(s) && Unused(s, eventId)
    ensures Inv(Enqueue(s, eventId, aggregateId, eventType, payload, commits))
  {
    var t := Enqueue(s, eventId, aggregateId, eventType, payload, commits);
    forall i | 0 <= i < |t.rows| ensures RowOk(t, i) {
      if i < |s.rows| { assert RowOk(s, i); }
    }
    forall m | m in t.delivered ensures FromRow(t, m) {
      assert FromRow(s, m);
      var i :| 0 <= i < |s.rows| && MessageOf(s.rows[i]) == m;
      assert MessageOf(t.rows[i]) == m;
    }
  }

  /** Deliveries of stored rows, with marks only for rows now delivered. */
  lemma DeliverKeepsInv(s: State, t: State, sent: seq<Row>, ids: set<string>)
    requires Inv(s) && t.rows == Mark(s.rows, ids)
    requires forall r :: r in sent ==> r in s.rows
    requires forall m :: m in t.delivered <==> m in s.delivered || exists r :: r in sent && MessageOf(r) == m
    requires forall i :: 0 <= i < |s.rows| && s.rows[i].eventId in ids ==> s.rows[i] in sent
    ensures Inv(t)
  {
    forall i | 0 <= i < |t.rows| ensures RowOk(t, i) {
      assert RowOk(s, i);
      assert MessageOf(t.rows[i]) == MessageOf(s.rows[i]);
    }
    forall m | m in t.delivered ensures FromRow(t, m) {
      if m in s.delivered {
        assert FromRow(s, m);
        var i :| 0 <= i < |s.rows| && MessageOf(s.rows[i]) == m;
        assert MessageOf(t.rows[i]) == m;
      } else {
        var r :| r in sent && MessageOf(r) == m;
        var i :| 0 <= i < |s.rows| && s.rows[i] == r;
        assert MessageOf(t.rows[i]) == m;
      }
    }
  }

  lemma MarkNothing(rows: seq<Row>)
    ensures Mark(rows, {}) == rows
  {}

  lemma DrainKeepsInv(s: State, size: nat, locked: set<string>, fate: Fate)
    requires Inv(s)
    ensures Inv(Drain(s, size, locked, fate))
  {
    hide Pending, Messages, Mark, MessageOf;
    var batch := Batch(s, size, locked);
    PendingMembers(s.rows, locked);
    var t := Drain(s, size, locked, fate);
    if fate.FailsAt? && fate.k < |batch| {
      var k := fate.k;
      var sent := if fate.reached then batch[..k] + [batch[k]] else batch[..k];
      MessagesMembers(batch[..k]);
      MarkNothing(s.rows);
      DeliverKeepsInv(s, t, sent, {});
    } else {
      MessagesMembers(batch);
      if fate.CommitFails? && !fate.applied {
        MarkNothing(s.rows);
        DeliverKeepsInv(s, t, batch, {});
      } else {
        forall i | 0 <= i < |s.rows| && s.rows[i].eventId in IdsOf(batch) ensures s.rows[i] in batch {
          var j :| 0 <= j < |batch| && batch[j].eventId == s.rows[i].eventId;
          var m :| 0 <= m < |s.rows| && s.rows[m] == batch[j];
          SameIdSameRow(s, i, m);
        }
        DeliverKeepsInv(s, t, batch, IdsOf(batch));
      }
    }
  }

  lemma SameIdSameRow(s: State, i: nat, j: nat)
    requires Inv(s) && i < |s.rows| && j < |s.rows| && s.rows[i].eventId == s.rows[j].eventId
    ensures i == j
  {
    assert RowOk(s, i) && RowOk(s, j);
  }

  // ---- Runs ----

  datatype Action =
    | DoEnqueue(eventId: string, aggregateId: string, eventType: string, payload: string, commits: bool)
    | DoDrain(size: nat, locked: set<string>, fate: Fate)

  function Next(s: State, a: Action): State {
    match a
    case DoEnqueue(eventId, aggregateId, eventType, payload, commits) =>
      Enqueue(s, eventId, aggregateId, eventType, payload, commits)
    case DoDrain(size, locked, fate) => Drain(s, size, locked, fate)
  }

  ghost function After(actions: seq<Action>): State {
    if actions == [] then EMPTY else Next(After(actions[..|actions| - 1]), actions[|actions| - 1])
  }

  /** Every enqueue generates its own event id. */
  ghost predicate FreshIds(actions: seq<Action>) {
    forall i :: 0 <= i < |actions| && actions[i].DoEnqueue? ==> Unused(After(actions[..i]), actions[i].eventId)
  }

  ghost predicate Unused(s: State, eventId: string) {
    forall j :: 0 <= j < |s.rows| ==> s.rows[j].eventId != eventId
  }

  lemma NextKeepsInv(s: State, a: Action)
    requires Inv(s)
    requires a.DoEnqueue? ==> Unused(s, a.eventId)
    ensures Inv(Next(s, a))
  {
    hide Inv, Drain, Enqueue;
    match a
    case DoEnqueue(eventId, aggregateId, eventType, payload, commits) =>
      EnqueueKeepsInv(s, eventId, aggregateId, eventType, payload, commits);
    case DoDrain(size, locked, fate) => DrainKeepsInv(s, size, locked, fate);
  }

  lemma FreshPrefix(actions: seq<Action>)
    requires FreshIds(actions) && actions != []
    ensures FreshIds(actions[..|actions| - 1])
  {
    hide After, Unused;
    var n := |actions| - 1;
    assert forall i :: 0 <= i < n ==> actions[..n][..i] == actions[..i] && actions[..n][i] == actions[i];
  }

  lemma {:induction false} RunKeepsInv(actions: seq<Action>)
    requires FreshIds(actions)
    ensures Inv(After(actions))
  {
    if actions == [] {
      assert After(actions) == EMPTY;
    } else {
      var n := |actions| - 1;
      assert After(actions) == Next(After(actions[..n]), actions[n]);
      hide After, Inv, Next;
      FreshPrefix(actions);
      RunKeepsInv(actions[..n]);
      NextKeepsInv(After(actions[..n]), actions[n]);
    }
  }

  lemma DeliveredFromRows(s: State)
    requires Inv(s)
    ensures forall i :: 0 <= i < |s.rows| && s.rows[i].published ==> MessageOf(s.rows[i]) in s.delivered
    ensures forall m, m' :: m in s.delivered && m' in s.delivered && m.eventId == m'.eventId ==> m == m'
    ensures forall i :: 0 <= i < |s.rows| ==> s.rows[i].eventType in CONTRACTS
  {
    forall i | 0 <= i < |s.rows|
      ensures s.rows[i].eventType in CONTRACTS && (s.rows[i].published ==> MessageOf(s.rows[i]) in s.delivered)
    {
      assert RowOk(s, i);
    }
    forall m, m' | m in s.delivered && m' in s.delivered && m.eventId == m'.eventId ensures m == m' {
      SameIdSameMessage(s, m, m');
    }
  }

  lemma SameIdSameMessage(s: State, m: Message, m': Message)
    requires Inv(s) && m in s.delivered && m' in s.delivered && m.eventId == m'.eventId
    ensures m == m'
  {
    assert FromRow(s, m) && FromRow(s, m');
    var i :| 0 <= i < |s.rows| && MessageOf(s.rows[i]) == m;
    var j :| 0 <= j < |s.rows| && MessageOf(s.rows[j]) == m';
    SameIdSameRow(s, i, j);
  }

  /** In every run, however publishes and commits fail: a row is marked published
      only if its message was delivered; whatever was delivered is the message of a
      stored row, so redeliveries of an event id are identical; and no stored row has
      a type the drain does not know. */
  lemma DeliveryTheorem(actions: seq<Action>)
    requires FreshIds(actions)
    ensures var s := After(actions);
            && (forall i :: 0 <= i < |s.rows| && s.rows[i].published ==> MessageOf(s.rows[i]) in s.delivered)
            && (forall m, m' :: m in s.delivered && m' in s.delivered && m.eventId == m'.eventId ==> m == m')
            && (forall i :: 0 <= i < |s.rows| ==> s.rows[i].eventType in CONTRACTS)
  {
    RunKeepsInv(actions);
    hide After;
    DeliveredFromRows(After(actions));
  }

  /** What a delivered message says: it comes from a stored row, with that row's key,
      payload, id and type, on the topic of the type's contract. */
  lemma MessageMeaning(actions: seq<Action>, m: Message)
    requires FreshIds(actions) && m in After(actions).delivered
    ensures exists i :: 0 <= i < |After(actions).rows| && Carries(m, After(actions).rows[i])
  {
    RunKeepsInv(actions);
    var s := After(actions);
    hide After;
    assert FromRow(s, m);
    var i :| 0 <= i < |s.rows| && MessageOf(s.rows[i]) == m;
    assert RowOk(s, i);
    assert Carries(m, s.rows[i]);
  }

  ghost predicate Carries(m: Message, r: Row) {
    && m.eventId == r.eventId && m.eventType == r.eventType && m.key == r.aggregateId && m.payload == r.payload
    && r.eventType in CONTRACTS && m.topic == CONTRACTS[r.eventType]
  }

  /** No row is ever lost, reordered or altered, except for its mark, which is never
      taken back; and no delivery is forgotten. */
  lemma NothingIsLost(s: State, a: Action)
    ensures var t := Next(s, a);
            && |s.rows| <= |t.rows| && s.delivered <= t.delivered
            && forall i :: 0 <= i < |s.rows| ==>
                 && t.rows[i].(published := s.rows[i].published) == s.rows[i]
                 && (s.rows[i].published ==> t.rows[i].published)
  {
    hide Pending, Messages;
  }

  // ---- Progress ----

  lemma {:induction false} MarkRemoves(rows: seq<Row>, ids: set<string>)
    ensures Pending(Mark(rows, ids), {}) == Pending(rows, ids)
  {
    if rows != [] {
      var n := |rows| - 1;
      assert Mark(rows, ids)[..n] == Mark(rows[..n], ids);
      MarkRemoves(rows[..n], ids);
    }
  }

  lemma {:induction false} SkipPrefix(rows: seq<Row>, k: nat)
    requires forall i, j :: 0 <= i < j < |rows| ==> rows[i].eventId != rows[j].eventId
    requires k <= |Pending(rows, {})|
    ensures Pending(rows, IdsOf(Pending(rows, {})[..k])) == Pending(rows, {})[k..]
  {
    if rows != [] {
      var n := |rows| - 1;
      var before, p := Pending(rows[..n], {}), Pending(rows, {});
      if k <= |before| {
        assert p[..k] == before[..k];
        SkipPrefix(rows[..n], k);
        LastIsNotBefore(rows, k);
      } else {
        assert p[..k] == p && p[k..] == [];
        assert forall i :: 0 <= i < |p| ==> p[i].eventId in IdsOf(p);
        AllSkipped(rows, IdsOf(p));
      }
    }
  }

  lemma LastIsNotBefore(rows: seq<Row>, k: nat)
    requires forall i, j :: 0 <= i < j < |rows| ==> rows[i].eventId != rows[j].eventId
    requires rows != [] && k <= |Pending(rows[..|rows| - 1], {})|
    ensures rows[|rows| - 1].eventId !in IdsOf(Pending(rows[..|rows| - 1], {})[..k])
  {
    hide Pending;
    var n := |rows| - 1;
    PendingMembers(rows[..n], {});
    var before := Pending(rows[..n], {});
    assert forall i :: 0 <= i < k ==> before[i] in rows[..n];
  }

  lemma {:induction false} AllSkipped(rows: seq<Row>, ids: set<string>)
    requires forall r :: r in Pending(rows, {}) ==> r.eventId in ids
    ensures Pending(rows, ids) == []
  {
    if rows != [] {
      assert forall r :: r in Pending(rows[..|rows| - 1], {}) ==> r in Pending(rows, {});
      AllSkipped(rows[..|rows| - 1], ids);
    }
  }

  ghost function Rest(p: seq<Row>, n: nat): seq<Row> { if |p| <= n then [] else p[n..] }

  ghost function First(p: seq<Row>, n: nat): seq<Row> { if |p| <= n then p else p[..n] }

  /** A drain that commits, with no row locked elsewhere, publishes the oldest
      `size` pending rows and leaves the rest in order. */
  lemma CommittedDrainProgresses(s: State, size: nat)
    requires Inv(s)
    ensures var p, t := Pending(s.rows, {}), Drain(s, size, {}, Commits);
            Pending(t.rows, {}) == Rest(p, size) && t.delivered == s.delivered + Messages(First(p, size))
  {
    forall i, j | 0 <= i < j < |s.rows| ensures s.rows[i].eventId != s.rows[j].eventId {
      assert RowOk(s, i);
    }
    hide Pending, IdsOf, Mark, Messages;
    var p := Pending(s.rows, {});
    var k := if |p| <= size then |p| else size;
    assert Batch(s, size, {}) == p[..k];
    MarkRemoves(s.rows, IdsOf(p[..k]));
    SkipPrefix(s.rows, k);
  }

  /** n drains that all commit, with nothing enqueued or locked in between. */
  ghost function Drained(s: State, size: nat, n: nat): State {
    if n == 0 then s else Drain(Drained(s, size, n - 1), size, {}, Commits)
  }

  lemma {:induction false} MessagesConcat(a: seq<Row>, b: seq<Row>)
    ensures Messages(a + b) == Messages(a) + Messages(b)
  {
    if b == [] {
      assert a + b == a;
    } else {
      var n := |b| - 1;
      assert (a + b)[..|a| + n] == a + b[..n];
      MessagesConcat(a, b[..n]);
    }
  }

  lemma OneMoreBatch(p: seq<Row>, k: nat, size: nat)
    ensures Rest(Rest(p, k), size) == Rest(p, k + size)
    ensures First(p, k) + First(Rest(p, k), size) == First(p, k + size)
  {}

  /** n batches of `size` rows. */
  ghost function Batches(size: nat, n: nat): nat { if n == 0 then 0 else Batches(size, n - 1) + size }

  lemma {:induction false} BatchesMultiply(size: nat, n: nat)
    ensures Batches(size, n) == n * size
  {
    if n > 0 { BatchesMultiply(size, n - 1); }
  }

  ghost predicate PublishedFirst(s: State, t: State, k: nat) {
    && Pending(t.rows, {}) == Rest(Pending(s.rows, {}), k)
    && t.delivered == s.delivered + Messages(First(Pending(s.rows, {}), k))
  }

  lemma PublishedNothing(s: State)
    ensures PublishedFirst(s, s, 0)
  {
    hide Pending;
    assert First(Pending(s.rows, {}), 0) == [] && Messages([]) == [];
    assert s.delivered + [] == s.delivered;
  }

  lemma PublishedMore(s: State, t: State, k: nat, size: nat)
    requires PublishedFirst(s, t, k) && Inv(t)
    ensures PublishedFirst(s, Drain(t, size, {}, Commits), k + size) && Inv(Drain(t, size, {}, Commits))
  {
    hide Pending, Rest, First, Messages, Inv, Drain;
    var p := Pending(s.rows, {});
    CommittedDrainProgresses(t, size);
    DrainKeepsInv(t, size, {}, Commits);
    OneMoreBatch(p, k, size);
    MessagesConcat(First(p, k), First(Rest(p, k), size));
  }

  /** n committed drains publish the first n * size pending rows, in order and once
      each, and leave the others pending in order. */
  lemma {:induction false} DrainsPublishInOrder(s: State, size: nat, n: nat)
    requires Inv(s)
    ensures Inv(Drained(s, size, n)) && PublishedFirst(s, Drained(s, size, n), Batches(size, n))
  {
    hide Inv, PublishedFirst, Drain;
    if n == 0 {
      PublishedNothing(s);
    } else {
      DrainsPublishInOrder(s, size, n - 1);
      PublishedMore(s, Drained(s, size, n - 1), Batches(size, n - 1), size);
    }
  }

  /** As many drains as it takes to cover the pending rows publish all of them. */
  lemma EnoughDrainsPublishAll(s: State, size: nat, n: nat)
    requires Inv(s) && size > 0 && n == (|Pending(s.rows, {})| + size - 1) / size
    ensures var p, t := Pending(s.rows, {}), Drained(s, size, n);
            Pending(t.rows, {}) == [] && t.delivered == s.delivered + Messages(p)
  {
    hide Pending, Drained, Inv, Messages;
    DrainsPublishInOrder(s, size, n);
    BatchesMultiply(size, n);
    hide Batches;
    CeilingCovers(|Pending(s.rows, {})|, size, n);
  }

  lemma CeilingCovers(p: nat, size: nat, n: nat)
    requires size > 0 && n == (p + size - 1) / size
    ensures p <= n * size
  {
    assert p + size - 1 == n * size + (p + size - 1) % size;
  }

  /** The table admits every contract type but one: a voyage-emissions event passes
      the contract check and is then refused, so it is never enqueued. */
  lemma OnlyVoyageEmissionsIsRefused(eventType: string)
    ensures eventType in CONTRACTS && eventType !in STORABLE <==> eventType == "mrv.voyage-emissions.v1"
  {}
}
