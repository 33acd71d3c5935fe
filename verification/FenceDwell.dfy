/** When exactly DWELL fires. */
module FenceDwell {
  import opened FenceGeometry
  import opened FenceEngine
  import opened FenceTraces

  /** One accepted report as one fence sees it. */
  datatype Sighting = Sighting(inside: bool, speed: int, at: int)

  predicate Slow(o: Sighting, gate: int) { 0 <= o.speed <= gate }
  predicate Fast(o: Sighting, gate: int) { o.speed >= 0 && o.speed > gate }

  /** The stay that the k-th sighting belongs to began at e: the latest ENTER. */
  ghost predicate StayFrom(h: seq<Sighting>, e: int, k: int) {
    && 0 <= e <= k < |h|
    && (forall m :: e <= m <= k ==> h[m].inside)
    && (e > 0 ==> !h[e - 1].inside)
  }

  /** j is the first slow sighting since the later of the ENTER at e and the last
      above-gate sighting. */
  ghost predicate ClockFrom(h: seq<Sighting>, e: int, j: int, k: int, gate: int) {
    && 0 <= e <= j <= k < |h| && Slow(h[j], gate)
    && (forall m :: j < m <= k ==> !Fast(h[m], gate))
    && (forall i :: e <= i < j && Slow(h[i], gate) ==> exists m :: i < m < j && Fast(h[m], gate))
  }

  /** The vessel has been slow for the threshold, and this stay has not dwelled. */
  ghost predicate DwellDue(h: seq<Sighting>, k: int, threshold: int, gate: int)
    decreases k
  {
    0 <= k < |h| && threshold > 0 && Slow(h[k], gate) &&
    exists e, j ::
      && StayFrom(h, e, k) && ClockFrom(h, e, j, k, gate)
      && h[k].at - h[j].at >= threshold
      && forall m :: e <= m < k ==> !DwellDue(h, m, threshold, gate)
  }

  lemma StayIsUnique(h: seq<Sighting>, e: int, f: int, k: int)
    requires StayFrom(h, e, k) && StayFrom(h, f, k)
    ensures e == f
  {}

  lemma ClockIsUnique(h: seq<Sighting>, e: int, i: int, j: int, k: int, gate: int)
    requires ClockFrom(h, e, i, k, gate) && ClockFrom(h, e, j, k, gate)
    ensures i == j
  {}

  // ---- The fence record as a summary of the sightings ----

  ghost function Dummy(threshold: int, gate: int): Fence { Fence("", 0, [], threshold, gate) }

  ghost function Replay(h: seq<Sighting>, threshold: int, gate: int): FenceState {
    if h == [] then FRESH
    else
      var o := h[|h| - 1];
      Step(Replay(h[..|h| - 1], threshold, gate), Dummy(threshold, gate), o.inside, o.speed, o.at).0
  }

  ghost predicate NoClock(h: seq<Sighting>, e: int, k: int, gate: int) {
    0 <= e && k < |h| &&
    forall i :: e <= i <= k && Slow(h[i], gate) ==> exists m :: i < m <= k && Fast(h[m], gate)
  }

  ghost predicate DwelledSince(h: seq<Sighting>, e: int, k: int, threshold: int, gate: int) {
    exists m :: e <= m < k && DwellDue(h, m, threshold, gate)
  }

  /** st summarises the first k sightings; j < 0 says that no clock runs. */
  ghost predicate Tracks(h: seq<Sighting>, k: int, threshold: int, gate: int, st: FenceState, e: int, j: int) {
    && 0 <= k <= |h|
    && (k == 0 ==> st == FRESH)
    && (k > 0 ==> st.inside == h[k - 1].inside)
    && (st.inside ==>
          && StayFrom(h, e, k - 1)
          && (st.dwellEmitted <==> DwelledSince(h, e, k, threshold, gate))
          && (!st.dwellEmitted ==>
                if j < 0 then st.slowSince == 0 && NoClock(h, e, k - 1, gate)
                else ClockFrom(h, e, j, k - 1, gate) && st.slowSince == h[j].at))
  }

  ghost predicate Positive(h: seq<Sighting>) {
    forall k :: 0 <= k < |h| ==> h[k].at > 0
  }

  /** Whether DWELL is due, given the stay and the clock that are running. */
  lemma DueFromClock(h: seq<Sighting>, e: int, j: int, k: int, threshold: int, gate: int)
    requires threshold > 0 && StayFrom(h, e, k) && ClockFrom(h, e, j, k, gate) && Slow(h[k], gate)
    requires !DwelledSince(h, e, k, threshold, gate)
    ensures DwellDue(h, k, threshold, gate) <==> h[k].at - h[j].at >= threshold
  {
    hide Slow;
    assert forall m :: e <= m < k ==> !DwellDue(h, m, threshold, gate);
    if DwellDue(h, k, threshold, gate) {
      var f, i :| StayFrom(h, f, k) && ClockFrom(h, f, i, k, gate) && h[k].at - h[i].at >= threshold;
      StayIsUnique(h, e, f, k);
      ClockIsUnique(h, e, i, j, k, gate);
    }
  }

  lemma NotDueTwice(h: seq<Sighting>, e: int, k: int, threshold: int, gate: int)
    requires StayFrom(h, e, k) && DwelledSince(h, e, k, threshold, gate)
    ensures !DwellDue(h, k, threshold, gate)
  {
    hide StayFrom, ClockFrom, Slow;
    if DwellDue(h, k, threshold, gate) {
      var f, i :| && StayFrom(h, f, k) && ClockFrom(h, f, i, k, gate)
                  && forall m :: f <= m < k ==> !DwellDue(h, m, threshold, gate);
      StayIsUnique(h, e, f, k);
    }
  }

  /** A fence's events of one call (at most one) include DWELL. */
  predicate SaysDwell(events: seq<Event>) {
    events != [] && events[|events| - 1].kind == Dwell
  }

  /** The record follows the sightings, and DWELL fires exactly when it is due. */
  lemma TrackStep(h: seq<Sighting>, k: int, threshold: int, gate: int, st: FenceState, e: int, j: int)
    returns (e': int, j': int)
    requires threshold > 0 && Positive(h) && k < |h| && Tracks(h, k, threshold, gate, st, e, j)
    ensures var (st', events) := Step(st, Dummy(threshold, gate), h[k].inside, h[k].speed, h[k].at);
            && Tracks(h, k + 1, threshold, gate, st', e', j')
            && (DwellDue(h, k, threshold, gate) <==> SaysDwell(events))
  {
    hide DwellDue;
    var o := h[k];
    e', j' := e, -1;
    if !o.inside {
      NotInsideNotDue(h, k, threshold, gate);
    } else if !st.inside {
      e' := k;
      assert StayFrom(h, k, k);
      assert !DwelledSince(h, k, k, threshold, gate);
      if Slow(o, gate) {
        j' := k;
        DueFromClock(h, k, k, k, threshold, gate);
      } else {
        NotSlowNotDue(h, k, threshold, gate);
      }
    } else {
      assert StayFrom(h, e, k);
      DwelledSinceStep(h, e, k, threshold, gate);
      if st.dwellEmitted {
        NotDueTwice(h, e, k, threshold, gate);
      } else if Slow(o, gate) {
        j' := if j < 0 then k else j;
        DueFromClock(h, e, j', k, threshold, gate);
      } else {
        NotSlowNotDue(h, k, threshold, gate);
        if !Fast(o, gate) { j' := j; }
      }
    }
  }

  lemma NotInsideNotDue(h: seq<Sighting>, k: int, threshold: int, gate: int)
    requires 0 <= k < |h| && !h[k].inside
    ensures !DwellDue(h, k, threshold, gate)
  {}

  lemma NotSlowNotDue(h: seq<Sighting>, k: int, threshold: int, gate: int)
    requires 0 <= k < |h| && !Slow(h[k], gate)
    ensures !DwellDue(h, k, threshold, gate)
  {}

  lemma DwelledSinceStep(h: seq<Sighting>, e: int, k: int, threshold: int, gate: int)
    requires 0 <= e <= k < |h|
    ensures DwelledSince(h, e, k + 1, threshold, gate) <==>
            DwelledSince(h, e, k, threshold, gate) || DwellDue(h, k, threshold, gate)
  {
    hide DwellDue;
  }

  lemma {:induction false} ReplayTracks(h: seq<Sighting>, k: nat, threshold: int, gate: int)
    returns (e: int, j: int)
    requires threshold > 0 && Positive(h) && k <= |h|
    ensures Tracks(h, k, threshold, gate, Replay(h[..k], threshold, gate), e, j)
  {
    if k == 0 {
      e, j := 0, -1;
    } else {
      hide Tracks, Step;
      e, j := ReplayTracks(h, k - 1, threshold, gate);
      e, j := TrackStep(h, k - 1, threshold, gate, Replay(h[..k - 1], threshold, gate), e, j);
      assert h[..k][..k - 1] == h[..k - 1];
    }
  }

  lemma DwellFiresExactlyWhenDue(h: seq<Sighting>, k: nat, threshold: int, gate: int)
    requires Positive(h) && k < |h|
    ensures DwellDue(h, k, threshold, gate) <==>
            SaysDwell(Step(Replay(h[..k], threshold, gate), Dummy(threshold, gate), h[k].inside, h[k].speed, h[k].at).1)
  {
    if threshold > 0 {
      hide Tracks, Step, DwellDue;
      var e, j := ReplayTracks(h, k, threshold, gate);
      e, j := TrackStep(h, k, threshold, gate, Replay(h[..k], threshold, gate), e, j);
    }
  }

  // ---- Whole streams ----

  /** The report counts for the fence: timely, of this vessel, fence present. */
  ghost predicate Counts(rs: seq<Report>, i: nat, key: string, id: string)
    requires i < |rs|
  {
    WellFormed(rs[i]) && Key(rs[i]) == key && !Late(rs, i) && HasFence(rs[i].fences, id)
  }

  ghost function SightingOf(r: Report, id: string): Sighting
    requires HasFence(r.fences, id)
  {
    Sighting(Inside(FenceWithId(r.fences, id).vertices, r.p), r.speedMilliknots, r.atUnix)
  }

  ghost function History(rs: seq<Report>, key: string, id: string): seq<Sighting> {
    if rs == [] then []
    else
      var n := |rs| - 1;
      History(rs[..n], key, id) + if Counts(rs, n, key, id) then [SightingOf(rs[n], id)] else []
  }

  /** Wherever the fence is present for this vessel, it has this threshold and gate. */
  ghost predicate FixedDwell(rs: seq<Report>, key: string, id: string, threshold: int, gate: int) {
    forall i :: 0 <= i < |rs| && Counts(rs, i, key, id) ==>
      var f := FenceWithId(rs[i].fences, id);
      f.dwellThresholdSeconds == threshold && f.dwellSpeedGateMilliknots == gate
  }

  lemma CountsPrefix(rs: seq<Report>, n: nat, i: nat, key: string, id: string)
    requires i < n <= |rs|
    ensures Counts(rs[..n], i, key, id) == Counts(rs, i, key, id)
  {
    hide Key, WellFormed;
    assert forall j :: 0 <= j < n ==> rs[..n][j] == rs[j];
  }

  lemma {:induction false} HistoryIsPositive(rs: seq<Report>, key: string, id: string)
    ensures Positive(History(rs, key, id))
  {
    if rs != [] {
      hide Key, Late, SightingOf;
      HistoryIsPositive(rs[..|rs| - 1], key, id);
      if Counts(rs, |rs| - 1, key, id) {
        SightingTime(rs[|rs| - 1], id);
      }
    }
  }

  lemma SightingTime(r: Report, id: string)
    requires HasFence(r.fences, id)
    ensures SightingOf(r, id).at == r.atUnix
  {}

  lemma StepIgnoresIdentity(st: FenceState, f: Fence, g: Fence, inside: bool, speed: int, at: int)
    requires f.dwellThresholdSeconds == g.dwellThresholdSeconds
    requires f.dwellSpeedGateMilliknots == g.dwellSpeedGateMilliknots
    ensures Step(st, f, inside, speed, at).0 == Step(st, g, inside, speed, at).0
    ensures SaysDwell(Step(st, f, inside, speed, at).1) == SaysDwell(Step(st, g, inside, speed, at).1)
  {}

  /** One call at one fence, in terms of the sighting it contributes. */
  lemma CallOnFence(rs: seq<Report>, n: nat, key: string, id: string, threshold: int, gate: int)
    requires GoodStream(rs) && n < |rs| && FixedDwell(rs, key, id, threshold, gate)
    ensures var st, st' := RecordOf(After(rs[..n]), key, id), RecordOf(Apply(After(rs[..n]), rs[n]).0, key, id);
            if !Counts(rs, n, key, id) then st' == st
            else
              var o := SightingOf(rs[n], id);
              var (next, events) := Step(st, Dummy(threshold, gate), o.inside, o.speed, o.at);
              st' == next && SaysDwell(OnlyId(Emitted(rs, n), id)) == SaysDwell(events)
  {
    hide Apply, Step, Inside, Late, WellFormed, Key, Recall, OnlyId, SaysDwell;
    var s, r := After(rs[..n]), rs[n];
    AcceptsExactlyTheTimely(rs, n);
    if Key(r) != key {
      OtherVesselUntouched(s, r, key);
    } else if Accepts(s, r) {
      ApplyOnFence(s, r, id);
      if HasFence(r.fences, id) {
        var f := FenceWithId(r.fences, id);
        StepIgnoresIdentity(RecordOf(s, key, id), f, Dummy(threshold, gate),
                            Inside(f.vertices, r.p), r.speedMilliknots, r.atUnix);
      }
    } else {
      NotAccepted(s, r);
    }
  }

  lemma {:induction false} RecordIsReplay(rs: seq<Report>, key: string, id: string, threshold: int, gate: int)
    requires GoodStream(rs) && FixedDwell(rs, key, id, threshold, gate)
    ensures RecordOf(After(rs), key, id) == Replay(History(rs, key, id), threshold, gate)
  {
    if rs != [] {
      hide Apply, Step, SightingOf, RecordOf, Counts, Emitted;
      var n := |rs| - 1;
      var h := History(rs[..n], key, id);
      FixedDwellPrefix(rs, n, key, id, threshold, gate);
      RecordIsReplay(rs[..n], key, id, threshold, gate);
      CallOnFence(rs, n, key, id, threshold, gate);
      if Counts(rs, n, key, id) {
        var o := SightingOf(rs[n], id);
        assert (h + [o])[..|h|] == h;
      } else {
        assert h + [] == h;
      }
    }
  }

  lemma FixedDwellPrefix(rs: seq<Report>, n: nat, key: string, id: string, threshold: int, gate: int)
    requires n <= |rs| && FixedDwell(rs, key, id, threshold, gate)
    ensures FixedDwell(rs[..n], key, id, threshold, gate)
  {
    hide Late, Key, WellFormed, FenceWithId;
    forall i | 0 <= i < n && Counts(rs[..n], i, key, id)
      ensures FenceWithId(rs[..n][i].fences, id).dwellThresholdSeconds == threshold
      ensures FenceWithId(rs[..n][i].fences, id).dwellSpeedGateMilliknots == gate
    {
      CountsPrefix(rs, n, i, key, id);
    }
  }

  /** In every stream, a call that counts for a fence returns DWELL for it if and
      only if DWELL is due by the vessel's sightings of that fence so far. */
  lemma DwellTheorem(rs: seq<Report>, i: nat, key: string, id: string, threshold: int, gate: int)
    requires GoodStream(rs) && i < |rs| && FixedDwell(rs, key, id, threshold, gate)
    requires Counts(rs, i, key, id)
    ensures var h := History(rs[..i + 1], key, id);
            |h| > 0 && (SaysDwell(OnlyId(Emitted(rs, i), id)) <==> DwellDue(h, |h| - 1, threshold, gate))
  {
    assert HasFence(rs[i].fences, id);
    hide Step, SightingOf, RecordOf, Counts, Emitted, DwellDue, FixedDwell, SaysDwell, OnlyId, Apply;
    var h, h' := History(rs[..i], key, id), History(rs[..i + 1], key, id);
    var o := SightingOf(rs[i], id);
    CountsPrefix(rs, i + 1, i, key, id);
    assert rs[..i + 1][..i] == rs[..i] && rs[..i + 1][i] == rs[i];
    assert h' == h + [o] && h'[..|h|] == h;
    HistoryIsPositive(rs[..i + 1], key, id);
    FixedDwellPrefix(rs, i, key, id, threshold, gate);
    RecordIsReplay(rs[..i], key, id, threshold, gate);
    CallOnFence(rs, i, key, id, threshold, gate);
    DwellFiresExactlyWhenDue(h', |h|, threshold, gate);
  }
}
