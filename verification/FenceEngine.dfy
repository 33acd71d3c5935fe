/** The geofence transition engine: a stream of position reports becomes a
    stream of ENTER / EXIT / DWELL events per vessel and fence. */
module FenceEngine {
  import opened Text
  import opened FenceGeometry

  datatype Fence = Fence(
    geofenceId: string, version: int, vertices: seq<Point>,
    dwellThresholdSeconds: int, dwellSpeedGateMilliknots: int)

  datatype EventType = Enter | Exit | Dwell

  datatype Event = Event(geofenceId: string, version: int, kind: EventType, occurredAt: int)

  /** The memory kept per vessel and fence; slowSince 0 means "not slow". */
  datatype FenceState = FenceState(inside: bool, enteredAt: int, dwellEmitted: bool, slowSince: int)

  const FRESH := FenceState(false, 0, false, 0)

  type VesselState = map<string, FenceState>

  datatype EngineState = EngineState(state: map<string, VesselState>, last: map<string, int>)

  const EMPTY := EngineState(map[], map[])

  datatype Report = Report(
    vesselKey: string, p: Point, speedMilliknots: int, atUnix: int, fences: seq<Fence>)

  // ---- Sorting the fences of a call ----

  ghost predicate DistinctIds(fences: seq<Fence>) {
    forall i, j :: 0 <= i < j < |fences| ==> fences[i].geofenceId != fences[j].geofenceId
  }

  ghost predicate Ascending(fences: seq<Fence>) {
    forall i, j :: 0 <= i < j < |fences| ==> Less(fences[i].geofenceId, fences[j].geofenceId)
  }

  function Insert(f: Fence, sorted: seq<Fence>): (r: seq<Fence>)
    ensures multiset(r) == multiset(sorted) + multiset{f}
  {
    if sorted == [] || !Less(sorted[0].geofenceId, f.geofenceId) then
      [f] + sorted
    else
      assert sorted == [sorted[0]] + sorted[1..];
      [sorted[0]] + Insert(f, sorted[1..])
  }

  function SortById(fences: seq<Fence>): (r: seq<Fence>)
    ensures multiset(r) == multiset(fences)
  {
    if fences == [] then []
    else
      assert fences == [fences[0]] + fences[1..];
      Insert(fences[0], SortById(fences[1..]))
  }

  lemma {:induction false} InsertKeepsAscending(f: Fence, sorted: seq<Fence>)
    requires Ascending(sorted)
    requires forall g :: g in sorted ==> g.geofenceId != f.geofenceId
    ensures Ascending(Insert(f, sorted))
  {
    if sorted != [] {
      LessTrichotomy(f.geofenceId, sorted[0].geofenceId);
      if Less(sorted[0].geofenceId, f.geofenceId) {
        InsertKeepsAscending(f, sorted[1..]);
        var rest := Insert(f, sorted[1..]);
        forall g | g in rest
          ensures Less(sorted[0].geofenceId, g.geofenceId)
        {
          assert g in multiset(rest);
          assert g == f || g in sorted[1..];
        }
      } else {
        forall k | 0 < k < |sorted|
          ensures Less(f.geofenceId, sorted[k].geofenceId)
        {
          LessTransitive(f.geofenceId, sorted[0].geofenceId, sorted[k].geofenceId);
        }
      }
    }
  }

  lemma {:induction false} SortByIdAscends(fences: seq<Fence>)
    requires DistinctIds(fences)
    ensures Ascending(SortById(fences))
  {
    if fences != [] {
      SortByIdAscends(fences[1..]);
      var rest := SortById(fences[1..]);
      forall g | g in rest
        ensures g.geofenceId != fences[0].geofenceId
      {
        assert g in multiset(rest);
        assert g in fences[1..];
      }
      InsertKeepsAscending(fences[0], rest);
    }
  }

  // ---- One fence, one report ----

  /** What one report does to one fence record, and the event it emits, if any. */
  function Step(st: FenceState, f: Fence, inside: bool, speed: int, at: int): (FenceState, seq<Event>) {
    var (st1, ev1) :=
      if inside && !st.inside then
        (FenceState(true, at, false, 0), [Event(f.geofenceId, f.version, Enter, at)])
      else if !inside && st.inside then
        (st.(inside := false, slowSince := 0), [Event(f.geofenceId, f.version, Exit, at)])
      else
        (st, []);
    if inside && f.dwellThresholdSeconds > 0 && !st1.dwellEmitted && 0 <= speed <= f.dwellSpeedGateMilliknots then
      var st2 := if st1.slowSince == 0 then st1.(slowSince := at) else st1;
      if at - st2.slowSince >= f.dwellThresholdSeconds then
        (st2.(dwellEmitted := true), ev1 + [Event(f.geofenceId, f.version, Dwell, at)])
      else (st2, ev1)
    else if inside && speed > f.dwellSpeedGateMilliknots && speed >= 0 then
      (st1.(slowSince := 0), ev1)
    else (st1, ev1)
  }

  function Recall(vessel: VesselState, id: string): FenceState {
    if id in vessel then vessel[id] else FRESH
  }

  /** The loop over the sorted fences. */
  function StepAll(vessel: VesselState, fences: seq<Fence>, r: Report): (VesselState, seq<Event>) {
    if fences == [] then (vessel, [])
    else
      var k := |fences| - 1;
      var (v, events) := StepAll(vessel, fences[..k], r);
      var f := fences[k];
      var (st, more) := Step(Recall(v, f.geofenceId), f, Inside(f.vertices, r.p), r.speedMilliknots, r.atUnix);
      (v[f.geofenceId := st], events + more)
  }

  function Key(r: Report): string { TrimSpace(r.vesselKey) }

  predicate WellFormed(r: Report) { Key(r) != "" && r.atUnix > 0 }

  predicate Accepts(s: EngineState, r: Report) {
    WellFormed(r) && (Key(r) in s.last ==> s.last[Key(r)] <= r.atUnix)
  }

  function VesselOf(s: EngineState, key: string): VesselState {
    if key in s.state then s.state[key] else map[]
  }

  /** What `Observe` does. */
  function Apply(s: EngineState, r: Report): (EngineState, seq<Event>) {
    if !Accepts(s, r) then (s, [])
    else
      var (v, events) := StepAll(VesselOf(s, Key(r)), SortById(r.fences), r);
      (EngineState(s.state[Key(r) := v], s.last[Key(r) := r.atUnix]), events)
  }

  class Engine {
    var state: map<string, VesselState>
    var last: map<string, int>

    ghost function View(): EngineState
      reads this
    {
      EngineState(state, last)
    }

    constructor ()
      ensures View() == EMPTY
    {
      state, last := map[], map[];
    }

    method Observe(r: Report) returns (events: seq<Event>)
      modifies this
      ensures View() == Apply(old(View()), r).0
      ensures events == Apply(old(View()), r).1
    {
      hide Step, Inside, SortById, TrimSpace;
      var key := TrimSpace(r.vesselKey);
      events := [];
      if key == "" || r.atUnix <= 0 {
        return;
      }
      if key in last && r.atUnix < last[key] {
        return;
      }
      last := last[key := r.atUnix];
      if key !in state {
        state := state[key := map[]];
      }
      ghost var before := state[key];
      var sorted := SortById(r.fences);
      var i := 0;
      while i < |sorted|
        invariant 0 <= i <= |sorted|
        invariant last == old(last)[key := r.atUnix]
        invariant key in state && state == old(state)[key := state[key]]
        invariant (state[key], events) == StepAll(before, sorted[..i], r)
      {
        var f := sorted[i];
        assert sorted[..i + 1][..i] == sorted[..i] && sorted[..i + 1][i] == f;
        var st := if f.geofenceId in state[key] then state[key][f.geofenceId] else FRESH;
        var inside := Contains(f.vertices, r.p);
        var st', more := ObserveFence(st, f, inside, r.speedMilliknots, r.atUnix);
        state := state[key := state[key][f.geofenceId := st']];
        events := events + more;
        i := i + 1;
      }
      assert sorted[..i] == sorted;
    }
  }

  /** The body of the loop: the record is updated field by field. */
  method ObserveFence(record: FenceState, f: Fence, inside: bool, speed: int, at: int)
    returns (st: FenceState, events: seq<Event>)
    ensures (st, events) == Step(record, f, inside, speed, at)
  {
    st, events := record, [];
    if inside && !st.inside {
      events := [Event(f.geofenceId, f.version, Enter, at)];
      st := st.(inside := true, enteredAt := at, dwellEmitted := false, slowSince := 0);
    } else if !inside && st.inside {
      events := [Event(f.geofenceId, f.version, Exit, at)];
      st := st.(inside := false, slowSince := 0);
    }
    if inside && f.dwellThresholdSeconds > 0 && !st.dwellEmitted && speed >= 0 && speed <= f.dwellSpeedGateMilliknots {
      if st.slowSince == 0 {
        st := st.(slowSince := at);
      }
      if at - st.slowSince >= f.dwellThresholdSeconds {
        events := events + [Event(f.geofenceId, f.version, Dwell, at)];
        st := st.(dwellEmitted := true);
      }
    } else if inside && speed > f.dwellSpeedGateMilliknots && speed >= 0 {
      st := st.(slowSince := 0);
    }
  }
}
