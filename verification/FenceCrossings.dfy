/** When exactly ENTER and EXIT fire, and what every event says. */
module FenceCrossings {
  import opened FenceGeometry
  import opened FenceEngine
  import opened FenceTraces
  import opened FenceDwell
  import opened Text

  predicate Says(events: seq<Event>, kind: EventType) {
    exists k :: 0 <= k < |events| && events[k].kind == kind
  }

  /** The last of the sightings, if any, was inside. */
  predicate EndsInside(h: seq<Sighting>) { h != [] && h[|h| - 1].inside }

  /** A call counts for a vessel and a fence exactly when it names both, at a positive
      time, and no earlier report of the vessel is later. */
  lemma CountsExactlyWhen(rs: seq<Report>, i: nat, key: string, id: string)
    requires i < |rs|
    ensures Counts(rs, i, key, id) <==>
            && key != "" && TrimSpace(rs[i].vesselKey) == key && rs[i].atUnix > 0 && HasFence(rs[i].fences, id)
            && forall j :: 0 <= j < i && TrimSpace(rs[j].vesselKey) == key ==> rs[j].atUnix <= rs[i].atUnix
  {
    hide TrimSpace, HasFence;
    if WellFormed(rs[i]) && Key(rs[i]) == key && !Late(rs, i) {
      forall j | 0 <= j < i && TrimSpace(rs[j].vesselKey) == key ensures rs[j].atUnix <= rs[i].atUnix {
        assert WellFormed(rs[j]) ==> !(rs[j].atUnix > rs[i].atUnix);
      }
    }
  }

  lemma StepFollowsTheSighting(st: FenceState, f: Fence, r: Report)
    ensures var (next, events) := StepFence(st, f, r);
            var inside := Inside(f.vertices, r.p);
            && next.inside == inside && |events| <= 1
            && (Says(events, Enter) <==> inside && !st.inside)
            && (Says(events, Exit) <==> !inside && st.inside)
            && forall e :: e in events ==> e.geofenceId == f.geofenceId && e.version == f.version && e.occurredAt == r.atUnix
  {
    hide Inside;
    var events := StepFence(st, f, r).1;
    assert Inside(f.vertices, r.p) && !st.inside ==> events != [] && events[0].kind == Enter;
    assert !Inside(f.vertices, r.p) && st.inside ==> events != [] && events[0].kind == Exit;
  }

  /** One call, seen from one vessel and fence. */
  lemma CallAtFence(rs: seq<Report>, n: nat, key: string, id: string)
    requires GoodStream(rs) && n < |rs|
    ensures var s := After(rs[..n]);
            var st, st' := RecordOf(s, key, id), RecordOf(Apply(s, rs[n]).0, key, id);
            if Counts(rs, n, key, id) then
              (st', OnlyId(Emitted(rs, n), id)) == StepFence(st, FenceWithId(rs[n].fences, id), rs[n])
            else
              st' == st && (Key(rs[n]) == key ==> OnlyId(Emitted(rs, n), id) == [])
  {
    assert DistinctIds(rs[n].fences);
    hide Apply, StepFence, Late, WellFormed, Key, Recall, GoodStream, SortById;
    var s, r := After(rs[..n]), rs[n];
    AcceptsExactlyTheTimely(rs, n);
    if Key(r) != key {
      OtherVesselUntouched(s, r, key);
    } else if Accepts(s, r) {
      ApplyOnFence(s, r, id);
    } else {
      NotAccepted(s, r);
    }
  }

  lemma {:induction false} RecordEndsInside(rs: seq<Report>, key: string, id: string)
    requires GoodStream(rs)
    ensures RecordOf(After(rs), key, id).inside == EndsInside(History(rs, key, id))
  {
    if rs != [] {
      var n := |rs| - 1;
      assert After(rs) == Apply(After(rs[..n]), rs[n]).0;
      hide Apply, StepFence, Counts, Emitted, RecordOf;
      RecordEndsInside(rs[..n], key, id);
      CallAtFence(rs, n, key, id);
      if Counts(rs, n, key, id) {
        StepFollowsTheSighting(RecordOf(After(rs[..n]), key, id), FenceWithId(rs[n].fences, id), rs[n]);
      } else {
        assert History(rs[..n], key, id) + [] == History(rs[..n], key, id);
      }
    }
  }

  /** In every stream and for every fence, whatever its threshold and gate: a call that
      counts for the fence returns ENTER if and only if the vessel is inside and was not
      at the previous sighting, EXIT if and only if it is outside and was inside; and
      whatever it returns carries the fence's version and the time of the report. */
  lemma CrossingTheorem(rs: seq<Report>, i: nat, key: string, id: string)
    requires GoodStream(rs) && i < |rs| && Counts(rs, i, key, id)
    ensures HasFence(rs[i].fences, id)
    ensures var was, now := EndsInside(History(rs[..i], key, id)), SightingOf(rs[i], id).inside;
            var events := OnlyId(Emitted(rs, i), id);
            && |events| <= 1
            && (Says(events, Enter) <==> now && !was)
            && (Says(events, Exit) <==> !now && was)
            && forall e :: e in events ==>
                 && e.geofenceId == id && e.version == FenceWithId(rs[i].fences, id).version
                 && e.occurredAt == rs[i].atUnix
  {
    assert HasFence(rs[i].fences, id);
    GoodPrefix(rs, i);
    hide Emitted, StepFence, RecordOf, Says, EndsInside, Counts, Apply;
    RecordEndsInside(rs[..i], key, id);
    CallAtFence(rs, i, key, id);
    StepFollowsTheSighting(RecordOf(After(rs[..i]), key, id), FenceWithId(rs[i].fences, id), rs[i]);
  }

  lemma GoodPrefix(rs: seq<Report>, n: nat)
    requires GoodStream(rs) && n <= |rs|
    ensures GoodStream(rs[..n])
  {}

  /** A call that does not count for a fence of its vessel returns nothing for it. */
  lemma SilentOtherwise(rs: seq<Report>, i: nat, id: string)
    requires GoodStream(rs) && i < |rs| && !Counts(rs, i, Key(rs[i]), id)
    ensures OnlyId(Emitted(rs, i), id) == []
  {
    hide Emitted, Counts, RecordOf, Apply, StepFence;
    CallAtFence(rs, i, Key(rs[i]), id);
  }

  // ---- When the stay began ----

  /** The last sighting is inside, and its stay began at this time. */
  ghost predicate StaysSince(h: seq<Sighting>, at: int) {
    exists e :: StayFrom(h, e, |h| - 1) && h[e].at == at
  }

  lemma StayGoesOn(h: seq<Sighting>, o: Sighting, at: int)
    requires o.inside
    ensures StaysSince(h, at) ==> StaysSince(h + [o], at)
    ensures !EndsInside(h) ==> StaysSince(h + [o], o.at)
  {
    var h' := h + [o];
    if StaysSince(h, at) {
      var e :| StayFrom(h, e, |h| - 1) && h[e].at == at;
      assert StayFrom(h', e, |h'| - 1) && h'[e].at == at;
    }
    if !EndsInside(h) { assert StayFrom(h', |h|, |h'| - 1) && h'[|h|].at == o.at; }
  }

  lemma StepRemembers(st: FenceState, f: Fence, r: Report)
    ensures var next := StepFence(st, f, r).0;
            Inside(f.vertices, r.p) ==> next.enteredAt == if st.inside then st.enteredAt else r.atUnix
  {
    hide Inside;
  }

  /** In every stream, while a vessel is inside a fence its record holds the time of the
      ENTER that began the stay. */
  lemma {:induction false} EntryIsRemembered(rs: seq<Report>, key: string, id: string)
    requires GoodStream(rs) && RecordOf(After(rs), key, id).inside
    ensures StaysSince(History(rs, key, id), RecordOf(After(rs), key, id).enteredAt)
  {
    if rs != [] {
      var n := |rs| - 1;
      var st := RecordOf(After(rs[..n]), key, id);
      var h := History(rs[..n], key, id);
      assert After(rs) == Apply(After(rs[..n]), rs[n]).0;
      GoodPrefix(rs, n);
      hide Apply, StepFence, Counts, Emitted, RecordOf, After, StaysSince, EndsInside, GoodStream;
      RecordEndsInside(rs[..n], key, id);
      CallAtFence(rs, n, key, id);
      if st.inside { EntryIsRemembered(rs[..n], key, id); }
      if Counts(rs, n, key, id) {
        StepFollowsTheSighting(st, FenceWithId(rs[n].fences, id), rs[n]);
        StepRemembers(st, FenceWithId(rs[n].fences, id), rs[n]);
        StayGoesOn(h, SightingOf(rs[n], id), st.enteredAt);
      } else {
        assert h + [] == h;
      }
    }
  }
}
