/** The sharded SSE fan-out hub. Every operation takes one shard lock at a time,
    so the concurrent hub is a state machine whose steps are the lock-protected
    sections; any interleaving of calls is a sequence of these steps. */
module Hub {

  const SHARDS: nat := 16
  const QUEUE: nat := 64

  datatype Event = Event(kind: string, classification: string, payload: string)

  /** A bounded Go channel: what waits in it, what its reader took, closed or not. */
  datatype Channel = Channel(queue: seq<Event>, received: seq<Event>, closed: bool)

  /** `subs` holds the live subscribers of each shard with their clearance.
      The remaining fields record the history that the guarantees speak of: the
      events each shard has processed, and where in them a subscriber joined. */
  datatype HubState = HubState(
    subs: seq<map<int, set<string>>>, channels: map<int, Channel>, nextId: int, pending: set<int>,
    panicked: bool,
    processed: seq<seq<Event>>, joined: map<int, nat>, clearance: map<int, set<string>>)

  function Initial(): HubState {
    HubState(seq(SHARDS, _ => map[]), map[], 0, {}, false, seq(SHARDS, _ => []), map[], map[])
  }

  function ShardOf(id: int): nat { id % SHARDS }

  // ---- Channel operations; both panic on a closed channel ----

  function Send(c: Channel, e: Event): Channel { c.(queue := c.queue + [e]) }
  function Close(c: Channel): Channel { c.(closed := true) }

  // ---- Steps ----

  datatype Step =
    | PublishShard(shard: nat, event: Event)   // one iteration of Publish
    | Allocate                                 // nextID.Add(1) in Subscribe
    | Join(id: int, labels: set<string>)       // the locked insertion in Subscribe
    | Cancel(id: int)                          // the cancel func
    | ShutdownShard(shard: nat)                // one iteration of Shutdown
    | Receive(id: int)                         // the reader takes one event

  /** A publish offers the event to this subscriber. */
  predicate Offered(s: HubState, i: nat, e: Event, id: int)
    requires i < |s.subs|
  {
    id in s.subs[i] && e.classification in s.subs[i][id] && id in s.channels
  }

  predicate Full(c: Channel) { |c.queue| >= QUEUE }

  function Publish1(s: HubState, i: nat, e: Event): HubState
    requires i < |s.subs| && i < |s.processed|
  {
    s.(subs := s.subs[i := map id | id in s.subs[i] && !(Offered(s, i, e, id) && Full(s.channels[id])) :: s.subs[i][id]],
       channels := map id | id in s.channels ::
         if !Offered(s, i, e, id) then s.channels[id]
         else if Full(s.channels[id]) then Close(s.channels[id]) else Send(s.channels[id], e),
       panicked := s.panicked || exists id :: id in s.subs[i] && Offered(s, i, e, id) && s.channels[id].closed,
       processed := s.processed[i := s.processed[i] + [e]])
  }

  function Leave(s: HubState, id: int): HubState
    requires ShardOf(id) < |s.subs|
  {
    var i := ShardOf(id);
    if id in s.subs[i] && id in s.channels then
      s.(subs := s.subs[i := s.subs[i] - {id}],
         channels := s.channels[id := Close(s.channels[id])],
         panicked := s.panicked || s.channels[id].closed)
    else s
  }

  function Shutdown1(s: HubState, i: nat): HubState
    requires i < |s.subs|
  {
    s.(subs := s.subs[i := map[]],
       channels := map id | id in s.channels :: if id in s.subs[i] then Close(s.channels[id]) else s.channels[id],
       panicked := s.panicked || exists id :: id in s.subs[i] && id in s.channels && s.channels[id].closed)
  }

  predicate Enabled(s: HubState, step: Step) {
    && |s.subs| == |s.processed| == SHARDS
    && match step
       case PublishShard(i, _) => i < SHARDS
       case Allocate => true
       case Join(id, _) => id in s.pending
       case Cancel(_) => true
       case ShutdownShard(i) => i < SHARDS
       case Receive(id) => id in s.channels && s.channels[id].queue != []
  }

  function Next(s: HubState, step: Step): HubState
    requires Enabled(s, step)
  {
    match step
    case PublishShard(i, e) => Publish1(s, i, e)
    case Allocate => s.(nextId := s.nextId + 1, pending := s.pending + {s.nextId + 1})
    case Join(id, labels) =>
      s.(pending := s.pending - {id},
         subs := s.subs[ShardOf(id) := s.subs[ShardOf(id)][id := labels]],
         channels := s.channels[id := Channel([], [], false)],
         joined := s.joined[id := |s.processed[ShardOf(id)]|],
         clearance := s.clearance[id := labels])
    case Cancel(id) => Leave(s, id)
    case ShutdownShard(i) => Shutdown1(s, i)
    case Receive(id) =>
      var c := s.channels[id];
      s.(channels := s.channels[id := c.(queue := c.queue[1..], received := c.received + [c.queue[0]])])
  }

  // ---- What a subscriber sees ----

  function Cleared(log: seq<Event>, labels: set<string>): seq<Event> {
    if log == [] then []
    else Cleared(log[..|log| - 1], labels) +
         if log[|log| - 1].classification in labels then [log[|log| - 1]] else []
  }

  lemma ClearedSnoc(log: seq<Event>, e: Event, labels: set<string>)
    ensures Cleared(log + [e], labels) == Cleared(log, labels) + if e.classification in labels then [e] else []
  {
    assert (log + [e])[..|log|] == log;
  }

  ghost predicate Live(s: HubState, id: int) {
    ShardOf(id) < |s.subs| && id in s.subs[ShardOf(id)]
  }

  /** Everything a subscriber got or will still get. */
  function Delivered(c: Channel): seq<Event> { c.received + c.queue }

  /** The cleared events its shard has processed since it subscribed. */
  ghost function Due(s: HubState, id: int): seq<Event>
    requires Known(s, id)
  {
    Cleared(s.processed[ShardOf(id)][s.joined[id]..], s.clearance[id])
  }

  ghost predicate Known(s: HubState, id: int) {
    && |s.processed| == |s.subs| == SHARDS
    && id in s.channels && id in s.joined && id in s.clearance
    && s.joined[id] <= |s.processed[ShardOf(id)]|
  }

  /** One subscriber's guarantee. */
  ghost predicate Served(s: HubState, id: int) {
    && Known(s, id) && |s.channels[id].queue| <= QUEUE
    && (Live(s, id) ==>
          && !s.channels[id].closed && s.subs[ShardOf(id)][id] == s.clearance[id]
          && Delivered(s.channels[id]) == Due(s, id))
    && (!Live(s, id) ==> s.channels[id].closed && Delivered(s.channels[id]) <= Due(s, id))
  }

  ghost predicate Inv(s: HubState) {
    && |s.processed| == |s.subs| == SHARDS && !s.panicked
    && (forall i, id :: 0 <= i < SHARDS && id in s.subs[i] ==> ShardOf(id) == i && id in s.channels)
    && (forall id :: id in s.channels ==> Served(s, id) && id <= s.nextId)
    && (forall id :: id in s.pending ==> id !in s.channels && id <= s.nextId)
  }

  lemma PublishServes(s: HubState, i: nat, e: Event, id: int)
    requires Inv(s) && i < SHARDS && id in s.channels
    ensures Served(Publish1(s, i, e), id)
  {
    hide Cleared;
    var t := Publish1(s, i, e);
    var k, c := ShardOf(id), s.channels[id];
    assert Served(s, id);
    if k != i {
      assert id !in s.subs[i];
    } else {
      var since := s.processed[i][s.joined[id]..];
      assert t.processed[i][s.joined[id]..] == since + [e];
      ClearedSnoc(since, e, s.clearance[id]);
      assert Delivered(Send(c, e)) == Delivered(c) + [e];
      assert Due(t, id) == Due(s, id) + if e.classification in s.clearance[id] then [e] else [];
    }
  }

  lemma OpenInShard(s: HubState, i: nat)
    requires Inv(s) && i < SHARDS
    ensures |s.subs| == |s.processed| == SHARDS && !s.panicked
    ensures forall id :: id in s.subs[i] ==> id in s.channels && !s.channels[id].closed
  {
    forall id | id in s.subs[i] ensures id in s.channels && Served(s, id) && Live(s, id) {}
  }

  lemma PublishKeepsInv(s: HubState, i: nat, e: Event)
    requires Inv(s) && i < SHARDS
    ensures Inv(Publish1(s, i, e))
  {
    OpenInShard(s, i);
    hide Served;
    var t := Publish1(s, i, e);
    forall id | id in t.channels ensures Served(t, id) { PublishServes(s, i, e, id); }
    assert forall j :: 0 <= j < SHARDS ==> t.subs[j].Keys <= s.subs[j].Keys;
  }

  lemma LeaveKeepsInv(s: HubState, id: int)
    requires Inv(s)
    ensures Inv(Leave(s, id))
  {
    var t := Leave(s, id);
    forall x | x in t.channels ensures Served(t, x) {
      assert Served(s, x);
    }
  }

  lemma ShutdownKeepsInv(s: HubState, i: nat)
    requires Inv(s) && i < SHARDS
    ensures Inv(Shutdown1(s, i))
  {
    var t := Shutdown1(s, i);
    forall x | x in t.channels ensures Served(t, x) {
      assert Served(s, x);
    }
    assert forall id :: id in s.subs[i] ==> Served(s, id);
  }

  lemma JoinKeepsInv(s: HubState, id: int, labels: set<string>)
    requires Inv(s) && id in s.pending
    ensures Inv(Next(s, Join(id, labels)))
  {
    var t := Next(s, Join(id, labels));
    forall x | x in t.channels ensures Served(t, x) {
      if x == id {
        assert t.processed[ShardOf(id)][t.joined[id]..] == [];
      } else {
        assert Served(s, x);
      }
    }
  }

  lemma ReceiveKeepsInv(s: HubState, id: int)
    requires Inv(s) && id in s.channels && s.channels[id].queue != []
    ensures Inv(Next(s, Receive(id)))
  {
    var t := Next(s, Receive(id));
    assert Delivered(t.channels[id]) == Delivered(s.channels[id]);
    forall x | x in t.channels ensures Served(t, x) {
      assert Served(s, x);
    }
  }

  lemma NextKeepsInv(s: HubState, step: Step)
    requires Inv(s) && Enabled(s, step)
    ensures Inv(Next(s, step))
  {
    match step
    case PublishShard(i, e) => PublishKeepsInv(s, i, e);
    case Allocate =>
      var t := Next(s, step);
      forall x | x in t.channels ensures Served(t, x) { assert Served(s, x); }
    case Join(id, labels) => JoinKeepsInv(s, id, labels);
    case Cancel(id) => LeaveKeepsInv(s, id);
    case ShutdownShard(i) => ShutdownKeepsInv(s, i);
    case Receive(id) => ReceiveKeepsInv(s, id);
  }

  // ---- Whole runs ----

  /** The hub after any sequence of steps; a step that is not enabled cannot
      happen and leaves the hub as it is. */
  ghost function After(steps: seq<Step>): HubState {
    if steps == [] then Initial()
    else
      var s, step := After(steps[..|steps| - 1]), steps[|steps| - 1];
      if Enabled(s, step) then Next(s, step) else s
  }

  /** In every run, under every interleaving: no channel is closed twice or sent to
      after closing; each subscriber's deliveries are a gap-free prefix of the
      cleared events its shard processed since it joined, and all of them as long
      as it is live; and every subscriber that is no longer live is closed. */
  lemma {:induction false} EveryRunServes(steps: seq<Step>)
    ensures var s := After(steps);
            && Inv(s) && !s.panicked
            && forall id :: id in s.channels ==>
                 && Known(s, id) && Delivered(s.channels[id]) <= Due(s, id)
                 && (Live(s, id) ==> Delivered(s.channels[id]) == Due(s, id))
                 && (Live(s, id) <==> !s.channels[id].closed)
  {
    if steps != [] {
      hide Next, Inv, Enabled;
      EveryRunServes(steps[..|steps| - 1]);
      if Enabled(After(steps[..|steps| - 1]), steps[|steps| - 1]) {
        NextKeepsInv(After(steps[..|steps| - 1]), steps[|steps| - 1]);
      }
    }
    InvServes(After(steps));
  }

  lemma InvServes(s: HubState)
    requires Inv(s)
    ensures forall id :: id in s.channels ==>
              && Known(s, id) && Delivered(s.channels[id]) <= Due(s, id)
              && (Live(s, id) ==> Delivered(s.channels[id]) == Due(s, id))
              && (Live(s, id) <==> !s.channels[id].closed)
    ensures !s.panicked
  {
    forall id | id in s.channels
      ensures Served(s, id)
    {}
  }

  // ---- A publish reaches every shard ----

  /** What an offer does to a subscriber's channel, and whether it stays. */
  ghost predicate Told(s: HubState, t: HubState, e: Event, id: int)
    requires id in s.channels && id in t.channels
  {
    var c := s.channels[id];
    if |c.queue| < 64 then t.channels[id] == Channel(c.queue + [e], c.received, c.closed) && Live(t, id)
    else t.channels[id] == Channel(c.queue, c.received, true) && !Live(t, id)
  }

  /** From s to t the shards below n have processed the event: each of their live
      subscribers that is cleared for it has it at the end of its queue, or is closed
      because the queue was full; nothing else has changed. */
  ghost predicate Reached(s: HubState, t: HubState, e: Event, n: nat) {
    && |s.subs| == |s.processed| == |t.subs| == |t.processed| == 16
    && t.channels.Keys == s.channels.Keys && t.clearance == s.clearance && t.joined == s.joined && t.nextId == s.nextId
    && (forall i :: 0 <= i < 16 ==> t.processed[i] == if i < n then s.processed[i] + [e] else s.processed[i])
    && forall id :: id in s.channels ==>
         if ShardOf(id) < n && Live(s, id) && id in s.clearance && e.classification in s.clearance[id]
         then Told(s, t, e, id)
         else t.channels[id] == s.channels[id] && (Live(t, id) <==> Live(s, id))
  }

  lemma ReachedNone(s: HubState, e: Event)
    requires Inv(s)
    ensures Reached(s, s, e, 0)
  {}

  lemma PublishAt(t: HubState, n: nat, e: Event, id: int)
    requires Inv(t) && n < 16 && id in t.channels
    ensures var u := Publish1(t, n, e);
            && id in u.channels
            && if ShardOf(id) == n && Live(t, id) && id in t.clearance && e.classification in t.clearance[id]
               then Told(t, u, e, id)
               else u.channels[id] == t.channels[id] && (Live(u, id) <==> Live(t, id))
  {
    assert Served(t, id);
    assert id in t.subs[n] ==> ShardOf(id) == n;
    hide Inv;
  }

  lemma ReachedOneMore(s: HubState, t: HubState, e: Event, n: nat)
    requires Inv(t) && Reached(s, t, e, n) && n < 16
    ensures Reached(s, Publish1(t, n, e), e, n + 1)
  {
    var u := Publish1(t, n, e);
    assert u.channels.Keys == t.channels.Keys;
    forall id | id in s.channels
      ensures id in u.channels
      ensures if ShardOf(id) < n + 1 && Live(s, id) && id in s.clearance && e.classification in s.clearance[id]
              then Told(s, u, e, id)
              else u.channels[id] == s.channels[id] && (Live(u, id) <==> Live(s, id))
    {
      PublishAt(t, n, e, id);
      hide Publish1, Inv;
    }
  }

  // ---- The hub object ----

  lemma HasMember(ids: set<int>)
    ensures ids == {} || exists id :: id in ids
  {
    if forall id :: id !in ids { assert ids == {}; }
  }

  /** What one publish does to one channel, and whether its subscriber stays. */
  function OfferOne(subs: map<int, set<string>>, c: Channel, e: Event, id: int): Channel {
    if id !in subs || e.classification !in subs[id] then c else if Full(c) then Close(c) else Send(c, e)
  }

  predicate Stays(subs: map<int, set<string>>, c: Channel, e: Event, id: int) {
    id in subs && !(e.classification in subs[id] && Full(c))
  }

  /** The loop over one shard's subscribers, in any order. It never sends to or
      closes a closed channel. */
  method OfferAll(subs: map<int, set<string>>, channels: map<int, Channel>, event: Event)
    returns (live: map<int, set<string>>, chans: map<int, Channel>)
    requires forall id :: id in subs ==> id in channels && !channels[id].closed
    ensures chans.Keys == channels.Keys && forall id :: id in channels ==> chans[id] == OfferOne(subs, channels[id], event, id)
    ensures forall id :: id in live <==> id in channels && Stays(subs, channels[id], event, id)
    ensures forall id :: id in live ==> id in subs && live[id] == subs[id]
  {
    live, chans := subs, channels;
    var todo := subs.Keys;
    while todo != {}
      invariant todo <= subs.Keys && chans.Keys == channels.Keys
      invariant forall id :: id in channels ==>
                  chans[id] == if id in todo then channels[id] else OfferOne(subs, channels[id], event, id)
      invariant forall id :: id in live <==> id in todo || (id in channels && Stays(subs, channels[id], event, id))
      invariant forall id :: id in live ==> id in subs && live[id] == subs[id]
      decreases |todo|
    {
      HasMember(todo);
      var id :| id in todo;
      todo := todo - {id};
      if event.classification !in subs[id] {
        continue;
      }
      assert !chans[id].closed;
      if |chans[id].queue| < QUEUE {
        chans := chans[id := Send(chans[id], event)];
      } else {
        chans := chans[id := Close(chans[id])];
        live := live - {id};
      }
    }
  }

  lemma OfferedIsPublished(s: HubState, i: nat, e: Event, live: map<int, set<string>>, chans: map<int, Channel>)
    requires i < |s.subs| && i < |s.processed| && !s.panicked
    requires forall id :: id in s.subs[i] ==> id in s.channels && !s.channels[id].closed
    requires chans.Keys == s.channels.Keys
    requires forall id :: id in s.channels ==> chans[id] == OfferOne(s.subs[i], s.channels[id], e, id)
    requires forall id :: id in live <==> id in s.channels && Stays(s.subs[i], s.channels[id], e, id)
    requires forall id :: id in live ==> id in s.subs[i] && live[id] == s.subs[i][id]
    ensures Publish1(s, i, e) ==
            s.(subs := s.subs[i := live], channels := chans, processed := s.processed[i := s.processed[i] + [e]])
  {
    var t := Publish1(s, i, e);
    assert forall id :: id in live <==> id in t.subs[i];
    assert forall id :: id in live ==> live[id] == t.subs[i][id];
    assert live == t.subs[i];
    assert chans.Keys == t.channels.Keys;
    assert forall id :: id in chans ==> chans[id] == t.channels[id];
    assert chans == t.channels;
  }

  lemma ClosedIsShutDown(s: HubState, i: nat, chans: map<int, Channel>)
    requires i < |s.subs| && !s.panicked
    requires forall id :: id in s.subs[i] ==> id in s.channels && !s.channels[id].closed
    requires chans.Keys == s.channels.Keys
    requires forall id :: id in s.channels ==> chans[id] == if id in s.subs[i] then Close(s.channels[id]) else s.channels[id]
    ensures Shutdown1(s, i) == s.(subs := s.subs[i := map[]], channels := chans)
  {
    var t := Shutdown1(s, i);
    assert chans.Keys == t.channels.Keys;
    assert forall id :: id in chans ==> chans[id] == t.channels[id];
    assert chans == t.channels;
  }

  class FanOut {
    var subs: seq<map<int, set<string>>>
    var channels: map<int, Channel>
    var nextId: int
    ghost var processed: seq<seq<Event>>
    ghost var joined: map<int, nat>
    ghost var clearance: map<int, set<string>>

    ghost function View(): HubState
      reads this
    {
      HubState(subs, channels, nextId, {}, false, processed, joined, clearance)
    }

    constructor ()
      ensures View() == Initial()
    {
      subs, channels, nextId := seq(SHARDS, _ => map[]), map[], 0;
      processed, joined, clearance := seq(SHARDS, _ => []), map[], map[];
    }

    /** The locked section of `Publish` for one shard. The subscribers are visited
        in any order; no send or close meets a closed channel. */
    method PublishToShard(i: nat, event: Event)
      requires Inv(View()) && i < SHARDS
      modifies this
      ensures View() == Publish1(old(View()), i, event) && Inv(View())
    {
      ghost var before := View();
      PublishKeepsInv(before, i, event);
      OpenInShard(before, i);
      hide Inv, Publish1, Stays, OfferOne;
      var live, chans := OfferAll(subs[i], channels, event);
      OfferedIsPublished(before, i, event, live, chans);
      subs, channels := subs[i := live], chans;
      processed := processed[i := processed[i] + [event]];
    }

    /** `Publish`: one shard after the other; nothing for an untyped event. */
    method Publish(event: Event)
      requires Inv(View())
      modifies this
      ensures Inv(View())
      ensures event.kind == "" ==> View() == old(View())
      ensures event.kind != "" ==> Reached(old(View()), View(), event, 16)
    {
      if event.kind == "" {
        return;
      }
      ReachedNone(View(), event);
      hide Publish1, Reached, Inv;
      for i := 0 to SHARDS
        invariant Inv(View()) && Reached(old(View()), View(), event, i)
      {
        ReachedOneMore(old(View()), View(), event, i);
        PublishToShard(i, event);
      }
    }

    method Subscribe(labels: set<string>) returns (id: int)
      requires Inv(View())
      modifies this
      ensures Inv(View()) && id == old(nextId) + 1
      ensures View() == Next(Next(old(View()), Allocate), Join(id, labels))
      ensures Live(View(), id) && Due(View(), id) == [] && |subs| == 16 && id in subs[id % 16]
      ensures channels == old(channels)[id := Channel([], [], false)] && id !in old(channels)
      ensures clearance == old(clearance)[id := labels] && joined == old(joined)[id := |processed[ShardOf(id)]|]
    {
      ghost var before := View();
      NextKeepsInv(before, Allocate);
      nextId := nextId + 1;
      id := nextId;
      JoinKeepsInv(Next(before, Allocate), id, labels);
      subs := subs[ShardOf(id) := subs[ShardOf(id)][id := labels]];
      channels := channels[id := Channel([], [], false)];
      joined := joined[id := |processed[ShardOf(id)]|];
      clearance := clearance[id := labels];
      assert View() == Next(Next(before, Allocate), Join(id, labels));
      assert Served(View(), id);
    }

    /** The cancel func: closes at most once, whoever ended the stream first. */
    method CancelSubscription(id: int)
      requires Inv(View())
      modifies this
      ensures Inv(View()) && View() == Leave(old(View()), id) && !Live(View(), id)
      ensures channels.Keys == old(channels).Keys
      ensures forall x :: x in channels ==>
                channels[x] == if x == id then old(channels)[x].(closed := true) else old(channels)[x]
    {
      assert id in channels ==> Served(View(), id);
      LeaveKeepsInv(View(), id);
      var i := ShardOf(id);
      if id in subs[i] {
        assert Served(View(), id) && !channels[id].closed;
        channels := channels[id := Close(channels[id])];
        subs := subs[i := subs[i] - {id}];
      }
    }

    /** The locked section of `Shutdown` for one shard: each channel is closed once. */
    method ShutdownOne(i: nat)
      requires Inv(View()) && i < SHARDS
      modifies this
      ensures View() == Shutdown1(old(View()), i) && Inv(View())
    {
      ghost var before := View();
      ShutdownKeepsInv(before, i);
      OpenInShard(before, i);
      hide Inv, Shutdown1;
      var chans := CloseAll(subs[i], channels);
      ClosedIsShutDown(before, i, chans);
      subs, channels := subs[i := map[]], chans;
    }

    /** `Shutdown`: afterwards every channel is closed and what was queued is kept. */
    method Shutdown()
      requires Inv(View())
      modifies this
      ensures Inv(View()) && channels.Keys == old(channels).Keys
      ensures forall id :: id in channels ==>
                channels[id].closed && Delivered(channels[id]) == Delivered(old(channels)[id])
    {
      assert |subs| == SHARDS;
      for i := 0 to SHARDS
        invariant Inv(View()) && |subs| == SHARDS && channels.Keys == old(channels).Keys
        invariant forall j :: 0 <= j < i ==> subs[j] == map[]
        invariant forall id :: id in channels ==> Delivered(channels[id]) == Delivered(old(channels)[id])
      {
        ShutdownOne(i);
      }
      forall id | id in channels ensures channels[id].closed { assert Served(View(), id); }
    }
  }

  method CloseAll(subs: map<int, set<string>>, channels: map<int, Channel>) returns (chans: map<int, Channel>)
    requires forall id :: id in subs ==> id in channels && !channels[id].closed
    ensures chans.Keys == channels.Keys
    ensures forall id :: id in channels ==> chans[id] == if id in subs then Close(channels[id]) else channels[id]
  {
    chans := channels;
    var todo := subs.Keys;
    while todo != {}
      invariant todo <= subs.Keys && chans.Keys == channels.Keys
      invariant forall id :: id in channels ==>
                  chans[id] == if id in subs && id !in todo then Close(channels[id]) else channels[id]
      decreases |todo|
    {
      HasMember(todo);
      var id :| id in todo;
      todo := todo - {id};
      assert !chans[id].closed;
      chans := chans[id := Close(chans[id])];
    }
  }
}
