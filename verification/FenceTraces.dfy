/** What the engine guarantees over whole report streams. */
module FenceTraces {
  import opened Text
  import opened FenceGeometry
  import opened FenceEngine

  /** The engine after a stream of reports, and the events its i-th call returned. */
  ghost function After(rs: seq<Report>): EngineState {
    if rs == [] then EMPTY else Apply(After(rs[..|rs| - 1]), rs[|rs| - 1]).0
  }

  ghost function Emitted(rs: seq<Report>, i: nat): seq<Event>
    requires i < |rs|
  {
    Apply(After(rs[..i]), rs[i]).1
  }

  ghost predicate GoodStream(rs: seq<Report>) {
    forall i :: 0 <= i < |rs| ==> DistinctIds(rs[i].fences)
  }

  // ---- Each call emits at most one event per fence, in ascending id order ----

  lemma StepEmitsAtMostOne(st: FenceState, f: Fence, inside: bool, speed: int, at: int)
    ensures |Step(st, f, inside, speed, at).1| <= 1
    ensures forall e :: e in Step(st, f, inside, speed, at).1 ==> e.geofenceId == f.geofenceId
  {}

  lemma {:induction false} StepAllAscends(vessel: VesselState, fences: seq<Fence>, r: Report)
    requires Ascending(fences)
    ensures var events := StepAll(vessel, fences, r).1;
            && (forall i, j :: 0 <= i < j < |events| ==> Less(events[i].geofenceId, events[j].geofenceId))
            && (forall e :: e in events ==> exists k :: 0 <= k < |fences| && fences[k].geofenceId == e.geofenceId)
  {
    hide Step, Inside, Less;
    if fences != [] {
      var k := |fences| - 1;
      var prefix := fences[..k];
      StepAllAscends(vessel, prefix, r);
      var (v, events) := StepAll(vessel, prefix, r);
      var f := fences[k];
      StepEmitsAtMostOne(Recall(v, f.geofenceId), f, Inside(f.vertices, r.p), r.speedMilliknots, r.atUnix);
      forall e | e in events
        ensures Less(e.geofenceId, f.geofenceId)
        ensures exists m :: 0 <= m < |fences| && fences[m].geofenceId == e.geofenceId
      {
        var m :| 0 <= m < |prefix| && prefix[m].geofenceId == e.geofenceId;
        assert fences[m] == prefix[m];
      }
    }
  }

  lemma CallEmitsInAscendingOrder(s: EngineState, r: Report)
    requires DistinctIds(r.fences)
    ensures var events := Apply(s, r).1;
            forall i, j :: 0 <= i < j < |events| ==> Less(events[i].geofenceId, events[j].geofenceId)
  {
    assert Apply(s, r).1 == if Accepts(s, r) then StepAll(VesselOf(s, Key(r)), SortById(r.fences), r).1 else [];
    hide StepAll, SortById, Less, Apply, Accepts, DistinctIds, Ascending;
    SortByIdAscends(r.fences);
    StepAllAscends(VesselOf(s, Key(r)), SortById(r.fences), r);
  }

  // ---- One fence seen through a call ----

  function OnlyId(events: seq<Event>, id: string): seq<Event> {
    if events == [] then []
    else
      var k := |events| - 1;
      OnlyId(events[..k], id) + if events[k].geofenceId == id then [events[k]] else []
  }

  lemma {:induction false} OnlyIdConcat(a: seq<Event>, b: seq<Event>, id: string)
    requires |b| <= 1
    ensures OnlyId(a + b, id) == OnlyId(a, id) + if b != [] && b[0].geofenceId == id then b else []
  {
    if b == [] {
      assert a + b == a;
    } else {
      assert (a + b)[..|a|] == a && b == [b[0]];
    }
  }

  ghost predicate HasFence(fences: seq<Fence>, id: string) {
    exists k :: 0 <= k < |fences| && fences[k].geofenceId == id
  }

  function StepFence(st: FenceState, f: Fence, r: Report): (FenceState, seq<Event>) {
    Step(st, f, Inside(f.vertices, r.p), r.speedMilliknots, r.atUnix)
  }

  /** The fence record and the events of one id, after a prefix of the fences. */
  ghost function Seen(vessel: VesselState, fences: seq<Fence>, r: Report, id: string): (FenceState, seq<Event>) {
    var (v, events) := StepAll(vessel, fences, r);
    (Recall(v, id), OnlyId(events, id))
  }

  lemma SeenStep(vessel: VesselState, fences: seq<Fence>, r: Report, id: string)
    requires fences != []
    ensures var n := |fences| - 1;
            var (st, events) := Seen(vessel, fences[..n], r, id);
            var (st', more) := StepFence(st, fences[n], r);
            Seen(vessel, fences, r, id) == if fences[n].geofenceId == id then (st', events + more) else (st, events)
  {
    hide Step, Inside;
    var n := |fences| - 1;
    var (v, events) := StepAll(vessel, fences[..n], r);
    var f := fences[n];
    StepEmitsAtMostOne(Recall(v, f.geofenceId), f, Inside(f.vertices, r.p), r.speedMilliknots, r.atUnix);
    OnlyIdConcat(events, StepFence(Recall(v, f.geofenceId), f, r).1, id);
    assert OnlyId(events, id) + [] == OnlyId(events, id);
  }

  lemma {:induction false} StepAllTouches(vessel: VesselState, fences: seq<Fence>, r: Report, k: nat)
    requires Ascending(fences) && k < |fences|
    ensures var id := fences[k].geofenceId;
            Seen(vessel, fences, r, id) == StepFence(Recall(vessel, id), fences[k], r)
  {
    hide StepFence, Less, Seen;
    var n, id := |fences| - 1, fences[k].geofenceId;
    var prefix := fences[..n];
    SeenStep(vessel, fences, r, id);
    if k == n {
      forall m | 0 <= m < |prefix| ensures prefix[m].geofenceId != id {
        LessTrichotomy(prefix[m].geofenceId, id);
        assert prefix[m] == fences[m];
      }
      StepAllSkips(vessel, prefix, r, id);
      var more := StepFence(Recall(vessel, id), fences[k], r).1;
      assert [] + more == more;
    } else {
      assert prefix[k] == fences[k] && Less(fences[k].geofenceId, fences[n].geofenceId);
      LessTrichotomy(id, fences[n].geofenceId);
      StepAllTouches(vessel, prefix, r, k);
    }
  }

  lemma {:induction false} StepAllSkips(vessel: VesselState, fences: seq<Fence>, r: Report, id: string)
    requires !HasFence(fences, id)
    ensures Seen(vessel, fences, r, id) == (Recall(vessel, id), [])
  {
    if fences != [] {
      hide StepFence, Seen;
      var n := |fences| - 1;
      assert forall m :: 0 <= m < n ==> fences[..n][m] == fences[m];
      SeenStep(vessel, fences, r, id);
      StepAllSkips(vessel, fences[..n], r, id);
    }
  }

  /** The fence record of (key, id). */
  ghost function RecordOf(s: EngineState, key: string, id: string): FenceState {
    Recall(VesselOf(s, key), id)
  }

  ghost function FenceWithId(fences: seq<Fence>, id: string): Fence
    requires HasFence(fences, id)
  {
    var k :| 0 <= k < |fences| && fences[k].geofenceId == id;
    fences[k]
  }

  lemma SortedPosition(fences: seq<Fence>, id: string) returns (k: nat)
    requires DistinctIds(fences) && HasFence(fences, id)
    ensures k < |SortById(fences)| && SortById(fences)[k] == FenceWithId(fences, id)
    ensures FenceWithId(fences, id).geofenceId == id
  {
    var f := FenceWithId(fences, id);
    assert f in multiset(SortById(fences));
    k :| 0 <= k < |SortById(fences)| && SortById(fences)[k] == f;
  }

  /** An accepted report acts on a fence record through that fence alone. */
  lemma ApplyOnFence(s: EngineState, r: Report, id: string)
    requires DistinctIds(r.fences) && Accepts(s, r)
    ensures var st := RecordOf(s, Key(r), id);
            (RecordOf(Apply(s, r).0, Key(r), id), OnlyId(Apply(s, r).1, id)) ==
            if HasFence(r.fences, id) then StepFence(st, FenceWithId(r.fences, id), r) else (st, [])
  {
    hide StepAll, SortById, Less, TrimSpace, StepFence, OnlyId, Recall;
    var sorted := SortById(r.fences);
    SortByIdAscends(r.fences);
    if HasFence(r.fences, id) {
      var k := SortedPosition(r.fences, id);
      StepAllTouches(VesselOf(s, Key(r)), sorted, r, k);
    } else {
      forall m | 0 <= m < |sorted| ensures sorted[m].geofenceId != id {
        assert sorted[m] in multiset(r.fences);
        assert sorted[m] in r.fences;
      }
      StepAllSkips(VesselOf(s, Key(r)), sorted, r, id);
    }
  }

  // ---- ENTER and EXIT alternate, with at most one DWELL per stay ----

  /** The kinds emitted for (key, id) over the stream, in order. */
  ghost function Trace(rs: seq<Report>, key: string, id: string): seq<EventType> {
    if rs == [] then []
    else
      var n := |rs| - 1;
      Trace(rs[..n], key, id) + if Key(rs[n]) == key then Kinds(OnlyId(Emitted(rs, n), id)) else []
  }

  function Kinds(events: seq<Event>): seq<EventType> {
    seq(|events|, i requires 0 <= i < |events| => events[i].kind)
  }

  datatype Phase = Outside | Staying | Dwelled | Broken

  /** The legal traces: (ENTER DWELL? EXIT)*, possibly cut short. */
  function Advance(phase: Phase, kind: EventType): Phase {
    match (phase, kind)
    case (Outside, Enter) => Staying
    case (Staying, Dwell) => Dwelled
    case (Staying, Exit) => Outside
    case (Dwelled, Exit) => Outside
    case _ => Broken
  }

  function PhaseAfter(kinds: seq<EventType>): Phase {
    if kinds == [] then Outside
    else Advance(PhaseAfter(kinds[..|kinds| - 1]), kinds[|kinds| - 1])
  }

  ghost function PhaseOf(st: FenceState): Phase {
    if !st.inside then Outside else if st.dwellEmitted then Dwelled else Staying
  }

  lemma StepAdvances(st: FenceState, f: Fence, r: Report)
    ensures var (st', events) := StepFence(st, f, r);
            PhaseOf(st') == if events == [] then PhaseOf(st) else Advance(PhaseOf(st), events[0].kind)
  {}

  lemma ApplyAdvances(s: EngineState, r: Report, key: string, id: string)
    requires DistinctIds(r.fences)
    ensures var (s', events) := Apply(s, r);
            var more := if Key(r) == key then OnlyId(events, id) else [];
            && |more| <= 1
            && PhaseOf(RecordOf(s', key, id)) ==
               if more == [] then PhaseOf(RecordOf(s, key, id))
               else Advance(PhaseOf(RecordOf(s, key, id)), more[0].kind)
  {
    hide StepFence, Apply, SortById, TrimSpace, PhaseOf, Advance;
    if Key(r) != key {
      OtherVesselUntouched(s, r, key);
    } else if Accepts(s, r) {
      ApplyOnFence(s, r, id);
      if HasFence(r.fences, id) {
        StepAdvances(RecordOf(s, key, id), FenceWithId(r.fences, id), r);
        StepEmitsAtMostOneForFence(RecordOf(s, key, id), FenceWithId(r.fences, id), r);
      }
    } else {
      NotAccepted(s, r);
    }
  }

  /** In every stream each fence sees ENTER, at most one DWELL, EXIT, ENTER, ...;
      where the trace stands is where the record stands. */
  lemma {:induction false} TraceIsLegal(rs: seq<Report>, key: string, id: string)
    requires GoodStream(rs)
    ensures PhaseAfter(Trace(rs, key, id)) == PhaseOf(RecordOf(After(rs), key, id))
    ensures PhaseAfter(Trace(rs, key, id)) != Broken
  {
    if rs != [] {
      hide Apply, RecordOf, OnlyId, Key;
      var n := |rs| - 1;
      TraceIsLegal(rs[..n], key, id);
      ApplyAdvances(After(rs[..n]), rs[n], key, id);
      var more := if Key(rs[n]) == key then Kinds(OnlyId(Emitted(rs, n), id)) else [];
      var t := Trace(rs[..n], key, id);
      if more == [] {
        assert t + more == t;
      } else {
        assert (t + more)[..|t|] == t;
      }
    }
  }

  /** Read as a regular expression: ENTER and EXIT alternate, starting with ENTER. */
  function Boundaries(kinds: seq<EventType>): seq<EventType> {
    if kinds == [] then []
    else
      var n := |kinds| - 1;
      Boundaries(kinds[..n]) + if kinds[n] == Dwell then [] else [kinds[n]]
  }

  lemma {:induction false} LegalTracesAlternate(kinds: seq<EventType>)
    requires PhaseAfter(kinds) != Broken
    ensures var b := Boundaries(kinds);
            && (forall i :: 0 <= i < |b| ==> b[i] == if i % 2 == 0 then Enter else Exit)
            && (|b| % 2 == 0 <==> PhaseAfter(kinds) == Outside)
  {
    if kinds != [] {
      LegalTracesAlternate(kinds[..|kinds| - 1]);
    }
  }

  lemma StepEmitsAtMostOneForFence(st: FenceState, f: Fence, r: Report)
    ensures |StepFence(st, f, r).1| <= 1
  {
    StepEmitsAtMostOne(st, f, Inside(f.vertices, r.p), r.speedMilliknots, r.atUnix);
  }

  lemma NotAccepted(s: EngineState, r: Report)
    ensures !Accepts(s, r) ==> Apply(s, r) == (s, [])
  {}

  /** A call changes nothing that is kept for another vessel. */
  lemma OtherVesselUntouched(s: EngineState, r: Report, key: string)
    requires Key(r) != key
    ensures VesselOf(Apply(s, r).0, key) == VesselOf(s, key)
    ensures key in Apply(s, r).0.last <==> key in s.last
    ensures key in s.last ==> Apply(s, r).0.last[key] == s.last[key]
  {}

  // ---- Late reports ----

  /** An earlier call already carried a greater timestamp for the same vessel. */
  ghost predicate Late(rs: seq<Report>, i: nat)
    requires i < |rs|
  {
    WellFormed(rs[i]) &&
    exists j :: 0 <= j < i && WellFormed(rs[j]) && Key(rs[j]) == Key(rs[i]) && rs[j].atUnix > rs[i].atUnix
  }

  /** `last` holds each vessel's greatest timestamp so far. */
  lemma {:induction false} LastIsGreatest(rs: seq<Report>, key: string)
    ensures forall j :: 0 <= j < |rs| && WellFormed(rs[j]) && Key(rs[j]) == key ==>
              key in After(rs).last && rs[j].atUnix <= After(rs).last[key]
    ensures key in After(rs).last ==>
              exists j :: 0 <= j < |rs| && WellFormed(rs[j]) && Key(rs[j]) == key && rs[j].atUnix == After(rs).last[key]
  {
    hide StepAll, Key, SortById;
    if rs != [] {
      var n := |rs| - 1;
      LastIsGreatest(rs[..n], key);
      assert forall j :: 0 <= j < n ==> rs[..n][j] == rs[j];
      var before := After(rs[..n]);
      if key in before.last {
        var j :| 0 <= j < n && WellFormed(rs[..n][j]) && Key(rs[..n][j]) == key && rs[..n][j].atUnix == before.last[key];
        assert WellFormed(rs[j]) && Key(rs[j]) == key;
      }
    }
  }

  /** The engine ignores exactly the malformed and the late reports. */
  lemma AcceptsExactlyTheTimely(rs: seq<Report>, i: nat)
    requires i < |rs|
    ensures Accepts(After(rs[..i]), rs[i]) <==> WellFormed(rs[i]) && !Late(rs, i)
  {
    hide After, Key;
    var prefix := rs[..i];
    assert forall j :: 0 <= j < i ==> prefix[j] == rs[j];
    LastIsGreatest(prefix, Key(rs[i]));
  }

  ghost function Kept(rs: seq<Report>): seq<Report> {
    if rs == [] then []
    else
      var n := |rs| - 1;
      Kept(rs[..n]) + if Late(rs, n) then [] else [rs[n]]
  }

  /** All events of a stream, in the order they were returned. */
  ghost function AllEvents(rs: seq<Report>): seq<Event> {
    if rs == [] then [] else AllEvents(rs[..|rs| - 1]) + Emitted(rs, |rs| - 1)
  }

  lemma AfterSnoc(rs: seq<Report>, r: Report)
    ensures After(rs + [r]) == Apply(After(rs), r).0
    ensures AllEvents(rs + [r]) == AllEvents(rs) + Apply(After(rs), r).1
  {
    assert (rs + [r])[..|rs|] == rs;
  }

  /** Deleting the late reports changes neither the state nor the events. */
  lemma {:induction false} LateReportsDoNotMatter(rs: seq<Report>)
    ensures After(Kept(rs)) == After(rs)
    ensures AllEvents(Kept(rs)) == AllEvents(rs)
  {
    hide Apply, WellFormed, Accepts, Late, AllEvents, After;
    if rs != [] {
      var n := |rs| - 1;
      LateReportsDoNotMatter(rs[..n]);
      AcceptsExactlyTheTimely(rs, n);
      assert rs == rs[..n] + [rs[n]];
      AfterSnoc(rs[..n], rs[n]);
      if Late(rs, n) {
        NotAccepted(After(rs[..n]), rs[n]);
        assert Kept(rs) == Kept(rs[..n]);
      } else {
        AfterSnoc(Kept(rs[..n]), rs[n]);
      }
    }
  }

  // ---- Vessels are independent ----

  ghost function OnlyVessel(rs: seq<Report>, key: string): seq<Report> {
    if rs == [] then []
    else
      var n := |rs| - 1;
      OnlyVessel(rs[..n], key) + if Key(rs[n]) == key then [rs[n]] else []
  }

  /** The events returned by one vessel's own calls. */
  ghost function EventsOf(rs: seq<Report>, key: string): seq<Event> {
    if rs == [] then []
    else
      var n := |rs| - 1;
      EventsOf(rs[..n], key) + if Key(rs[n]) == key then Emitted(rs, n) else []
  }

  ghost predicate SameVessel(s: EngineState, t: EngineState, key: string) {
    && VesselOf(s, key) == VesselOf(t, key)
    && (key in s.last <==> key in t.last)
    && (key in s.last ==> s.last[key] == t.last[key])
  }

  lemma ApplyDependsOnOwnVessel(s: EngineState, t: EngineState, r: Report)
    requires SameVessel(s, t, Key(r))
    ensures SameVessel(Apply(s, r).0, Apply(t, r).0, Key(r))
    ensures Apply(s, r).1 == Apply(t, r).1
  {
    hide StepAll, SortById, TrimSpace;
  }

  /** One vessel's events and state are those of a stream of its reports alone. */
  lemma {:induction false} VesselsAreIndependent(rs: seq<Report>, key: string)
    ensures SameVessel(After(rs), After(OnlyVessel(rs, key)), key)
    ensures EventsOf(rs, key) == AllEvents(OnlyVessel(rs, key))
  {
    if rs != [] {
      hide Apply, Key;
      var n := |rs| - 1;
      var own := OnlyVessel(rs[..n], key);
      VesselsAreIndependent(rs[..n], key);
      if Key(rs[n]) == key {
        ApplyDependsOnOwnVessel(After(rs[..n]), After(own), rs[n]);
        AfterSnoc(own, rs[n]);
      } else {
        OtherVesselUntouched(After(rs[..n]), rs[n], key);
        assert own + [] == own && EventsOf(rs[..n], key) + [] == EventsOf(rs[..n], key);
      }
    }
  }
}
