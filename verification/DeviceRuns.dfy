/** What holds of the device registry in every run. */
module DeviceRuns {
  import opened Options
  import opened Text
  import opened DeviceRegistry

  // ---- Every step keeps the invariant ----

  /** Changing one request and no device keeps the request rules and the rotation
      counts, as long as the request is not an approved rotation before or after. */
  lemma RequestChangeKeepsInv(t: Tables, id: string, r: Request)
    requires Inv(t) && RequestOk(t, r)
    requires !(r.status == Approved && r.payload.Rotate?)
    requires id in t.requests ==> !(t.requests[id].status == Approved && t.requests[id].payload.Rotate?)
    ensures Inv(t.(requests := t.requests[id := r]))
  {
    var t' := t.(requests := t.requests[id := r]);
    forall d | d in t.devices ensures EpochsMatch(t', d) && StatusesMatch(t', d) && Rotations(t', d) == Rotations(t, d) {
      assert EpochsMatch(t, d) && StatusesMatch(t, d);
    }
    forall x | x in t'.requests ensures RequestOk(t', t'.requests[x]) {
      if x != id { assert RequestOk(t, t.requests[x]); }
    }
  }

  lemma NoRotationsYet(t: Tables, d: string)
    requires Inv(t) && d !in t.devices
    ensures Rotations(t, d) == {}
  {
    assert forall x :: x in t.requests ==> RequestOk(t, t.requests[x]);
  }

  lemma ProvisionKeepsInv(t: Tables, id: string, r: Request, newId: string, device: Device, key: Key)
    requires Inv(t) && RequestOk(t, r) && r.payload.Provision? && newId !in t.devices
    requires id in t.requests && t.requests[id].payload.Provision?
    requires device.keyEpoch == 1 && device.status == Active && key.status == Current
    ensures Inv(Tables(t.devices[newId := device], t.keys[(newId, 1) := key], t.requests[id := r]))
  {
    var t' := Tables(t.devices[newId := device], t.keys[(newId, 1) := key], t.requests[id := r]);
    forall x | x in t'.requests ensures RequestOk(t', t'.requests[x]) {
      if x != id { assert RequestOk(t, t.requests[x]); }
    }
    forall d | d in t'.devices
      ensures EpochsMatch(t', d) && StatusesMatch(t', d) && t'.devices[d].keyEpoch == 1 + |Rotations(t', d)|
    {
      if d == newId {
        NoRotationsYet(t, newId);
        assert Rotations(t', d) == Rotations(t, d);
      } else {
        assert EpochsMatch(t, d) && StatusesMatch(t, d);
        assert Rotations(t', d) == Rotations(t, d);
      }
    }
  }

  lemma RotatedKeysOf(t: Tables, d: string, newKey: string, grace: int, now: int)
    requires d in t.devices && EpochsMatch(t, d) && StatusesMatch(t, d) && t.devices[d].status == Active
    ensures var epoch := t.devices[d].keyEpoch;
            var keys := RotatedKeys(t.keys, d, epoch, newKey, grace, now);
            && (forall e :: (d, e) in keys <==> 1 <= e <= epoch + 1)
            && (forall e :: (d, e) in keys ==> (keys[(d, e)].status == Current <==> e == epoch + 1))
            && (forall ke: (string, int) :: ke.0 != d ==> (ke in keys <==> ke in t.keys))
            && (forall ke: (string, int) :: ke.0 != d && ke in keys ==> keys[ke] == t.keys[ke])
  {
    var epoch := t.devices[d].keyEpoch;
    var keys := RotatedKeys(t.keys, d, epoch, newKey, grace, now);
    forall e | (d, e) in keys ensures keys[(d, e)].status == Current <==> e == epoch + 1 {
      if e != epoch + 1 { assert (d, e) in t.keys; }
    }
  }

  lemma RotationKeepsInv(t: Tables, id: string, r: Request, tenant: string, grace: int, now: int)
    requires Inv(t) && id in t.requests && t.requests[id].status == Pending
    requires r.payload == t.requests[id].payload && r.payload.Rotate? && r.status == Approved
    requires RequestOk(t, r)
    requires ApplyRotation(t, tenant, r.payload.deviceId, r.payload.newKey.value, grace, now).Ok?
    ensures var t1 := ApplyRotation(t, tenant, r.payload.deviceId, r.payload.newKey.value, grace, now).value;
            Inv(t1.(requests := t1.requests[id := r]))
  {
    var d0, newKey := r.payload.deviceId, r.payload.newKey.value;
    var t1 := ApplyRotation(t, tenant, d0, newKey, grace, now).value;
    var t' := t1.(requests := t1.requests[id := r]);
    hide RotatedKeys, Inv, EpochsMatch, StatusesMatch, RequestOk, Rotations;
    InvParts(t);
    AtDevice(t, d0);
    KeysKept(t, tenant, d0, newKey, grace, now);
    RequestsKept(t, id, r, t');
    forall d | d in t'.devices
      ensures EpochsMatch(t', d) && StatusesMatch(t', d) && t'.devices[d].keyEpoch == 1 + |Rotations(t', d)|
    {
      AtDevice(t, d);
      RotationAtDevice(t, id, r, tenant, grace, now, d);
    }
    InvFromParts(t');
  }

  lemma InvParts(t: Tables)
    requires Inv(t)
    ensures forall ke :: ke in t.keys ==> ke.0 in t.devices
    ensures forall id :: id in t.requests ==> RequestOk(t, t.requests[id])
  {}

  lemma AtDevice(t: Tables, d: string)
    requires Inv(t) && d in t.devices
    ensures EpochsMatch(t, d) && StatusesMatch(t, d) && t.devices[d].keyEpoch == 1 + |Rotations(t, d)|
  {}

  lemma InvFromParts(t: Tables)
    requires forall ke :: ke in t.keys ==> ke.0 in t.devices
    requires forall id :: id in t.requests ==> RequestOk(t, t.requests[id])
    requires forall d :: d in t.devices ==>
               EpochsMatch(t, d) && StatusesMatch(t, d) && t.devices[d].keyEpoch == 1 + |Rotations(t, d)|
    ensures Inv(t)
  {
    hide EpochsMatch, StatusesMatch, RequestOk, Rotations;
  }

  lemma KeysKept(t: Tables, tenant: string, d0: string, newKey: string, grace: int, now: int)
    requires ApplyRotation(t, tenant, d0, newKey, grace, now).Ok? && EpochsMatch(t, d0) && StatusesMatch(t, d0)
    requires forall ke :: ke in t.keys ==> ke.0 in t.devices
    ensures var t1 := ApplyRotation(t, tenant, d0, newKey, grace, now).value;
            forall ke :: ke in t1.keys ==> ke.0 in t1.devices
  {
    RotatedKeysOf(t, d0, newKey, grace, now);
    hide RotatedKeys, EpochsMatch, StatusesMatch;
  }

  lemma RequestsKept(t: Tables, id: string, r: Request, t': Tables)
    requires forall x :: x in t.requests ==> RequestOk(t, t.requests[x])
    requires RequestOk(t, r) && t'.requests == t.requests[id := r] && t'.devices.Keys == t.devices.Keys
    ensures forall x :: x in t'.requests ==> RequestOk(t', t'.requests[x])
  {
    forall x | x in t'.requests ensures RequestOk(t', t'.requests[x]) {
      if x != id { assert RequestOk(t, t.requests[x]); }
    }
  }

  lemma RotationAtDevice(t: Tables, id: string, r: Request, tenant: string, grace: int, now: int, d: string)
    requires id in t.requests && t.requests[id].status == Pending
    requires r.payload.Rotate? && r.payload.newKey.Some? && r.status == Approved
    requires ApplyRotation(t, tenant, r.payload.deviceId, r.payload.newKey.value, grace, now).Ok?
    requires EpochsMatch(t, r.payload.deviceId) && StatusesMatch(t, r.payload.deviceId)
    requires d in t.devices && EpochsMatch(t, d) && StatusesMatch(t, d) && t.devices[d].keyEpoch == 1 + |Rotations(t, d)|
    ensures var t1 := ApplyRotation(t, tenant, r.payload.deviceId, r.payload.newKey.value, grace, now).value;
            var t' := t1.(requests := t1.requests[id := r]);
            EpochsMatch(t', d) && StatusesMatch(t', d) && t'.devices[d].keyEpoch == 1 + |Rotations(t', d)|
  {
    hide RotatedKeys;
    var t1 := ApplyRotation(t, tenant, r.payload.deviceId, r.payload.newKey.value, grace, now).value;
    var t' := t1.(requests := t1.requests[id := r]);
    RotationEpochs(t, tenant, r.payload.deviceId, r.payload.newKey.value, grace, now, d);
    RotationCounts(t, id, r, d);
    assert Rotations(t', d) == Rotations(t.(requests := t.requests[id := r]), d);
  }

  lemma RotationEpochs(t: Tables, tenant: string, d0: string, newKey: string, grace: int, now: int, d: string)
    requires d in t.devices && EpochsMatch(t, d) && StatusesMatch(t, d)
    requires ApplyRotation(t, tenant, d0, newKey, grace, now).Ok? && EpochsMatch(t, d0) && StatusesMatch(t, d0)
    ensures var t' := ApplyRotation(t, tenant, d0, newKey, grace, now).value;
            EpochsMatch(t', d) && StatusesMatch(t', d)
  {
    RotatedKeysOf(t, d0, newKey, grace, now);
    hide RotatedKeys;
  }

  lemma RotationCounts(t: Tables, id: string, r: Request, d: string)
    requires id in t.requests && t.requests[id].status == Pending
    requires r.payload.Rotate? && r.status == Approved
    ensures |Rotations(t.(requests := t.requests[id := r]), d)| ==
            |Rotations(t, d)| + if d == r.payload.deviceId then 1 else 0
  {
    var t' := t.(requests := t.requests[id := r]);
    assert id !in Rotations(t, d);
    assert Rotations(t', d) == if d == r.payload.deviceId then Rotations(t, d) + {id} else Rotations(t, d);
  }

  lemma ApproveKeepsInv(t: Tables, tenant: string, id: string, checker: string, grace: int, now: int, newId: string, hash: string)
    requires Inv(t) && newId !in t.devices
    requires ApproveRequest(t, tenant, id, checker, grace, now, newId, hash).Ok?
    ensures Inv(ApproveRequest(t, tenant, id, checker, grace, now, newId, hash).value)
  {
    hide Inv, TrimSpace;
    RequestsAreOk(t, id);
    var r := t.requests[id];
    var decided := r.(status := Approved, decidedBy := Some(checker));
    match r.payload
    case Provision(key) =>
      ProvisionKeepsInv(t, id, decided.(secretHash := Some(hash), deviceId := Some(newId)), newId,
                        Device(tenant, Active, 1), Key(key.value, Current, now));
    case Rotate(d, key) =>
      RotationKeepsInv(t, id, decided.(deviceId := Some(d)), tenant, GraceOrDefault(grace), now);
  }

  lemma RequestsAreOk(t: Tables, id: string)
    requires Inv(t)
    ensures id in t.requests ==> RequestOk(t, t.requests[id])
  {}

  lemma SetStatusKeepsInv(t: Tables, tenant: string, d: string, target: DeviceStatus, actor: string)
    requires Inv(t) && SetDeviceStatus(t, tenant, d, target, actor).Ok?
    ensures Inv(SetDeviceStatus(t, tenant, d, target, actor).value)
  {
    var t' := SetDeviceStatus(t, tenant, d, target, actor).value;
    forall x | x in t'.requests ensures RequestOk(t', t'.requests[x]) { assert RequestOk(t, t.requests[x]); }
    forall x | x in t'.devices
      ensures EpochsMatch(t', x) && StatusesMatch(t', x) && Rotations(t', x) == Rotations(t, x)
    {
      assert EpochsMatch(t, x) && StatusesMatch(t, x);
    }
  }

  lemma NextKeepsInv(t: Tables, a: Action, now: int)
    requires Inv(t) && FreshIds(t, a)
    ensures Inv(Next(t, a, now))
  {
    hide Inv, TrimSpace;
    if Attempt(t, a, now).Ok? {
      match a
      case Create(id, tenant, payload, maker) =>
        RequestChangeKeepsInv(t, id, Request(tenant, payload, maker, Pending, None, None, None));
      case Approve(id, tenant, checker, grace, newId, hash) =>
        ApproveKeepsInv(t, tenant, id, checker, grace, now, newId, hash);
      case Reject(id, tenant, checker) =>
        RequestsAreOk(t, id);
        RequestChangeKeepsInv(t, id, t.requests[id].(status := Rejected, decidedBy := Some(checker)));
      case SetStatus(d, tenant, target, actor) =>
        SetStatusKeepsInv(t, tenant, d, target, actor);
      case Consume(id, hash) =>
        RequestsAreOk(t, id);
        RequestChangeKeepsInv(t, id, t.requests[id].(status := Consumed));
    }
  }

  // ---- Runs ----

  datatype Timed = Timed(action: Action, at: int)

  ghost function After(run: seq<Timed>): Tables {
    if run == [] then EMPTY else Next(After(run[..|run| - 1]), run[|run| - 1].action, run[|run| - 1].at)
  }

  /** Any actions by anyone at any times, with ids generated afresh. */
  ghost predicate IsRun(run: seq<Timed>) {
    forall i :: 0 <= i < |run| ==> FreshIds(After(run[..i]), run[i].action)
  }

  lemma IsRunPrefix(run: seq<Timed>, n: nat)
    requires IsRun(run) && n <= |run|
    ensures IsRun(run[..n])
  {
    assert forall i :: 0 <= i < n ==> run[..n][..i] == run[..i];
  }

  lemma {:induction false} RunKeepsInv(run: seq<Timed>)
    requires IsRun(run)
    ensures Inv(After(run))
  {
    if run != [] {
      hide Next, FreshIds, Inv;
      var n := |run| - 1;
      IsRunPrefix(run, n);
      RunKeepsInv(run[..n]);
      NextKeepsInv(After(run[..n]), run[n].action, run[n].at);
    }
  }

  /** In every reachable registry: epochs are exactly 1..keyEpoch, one more than the
      approved rotations; a device that is not terminal has exactly one CURRENT key,
      at keyEpoch; a terminal one has only revoked keys; and no request was decided
      by its maker. */
  lemma ReachableRegistry(run: seq<Timed>, d: string)
    requires IsRun(run) && d in After(run).devices
    ensures var t := After(run);
            && (forall e :: (d, e) in t.keys <==> 1 <= e <= t.devices[d].keyEpoch)
            && t.devices[d].keyEpoch == 1 + |Rotations(t, d)|
            && (!Terminal(t.devices[d].status) ==>
                  forall e :: (d, e) in t.keys && t.keys[(d, e)].status == Current <==> e == t.devices[d].keyEpoch)
            && (Terminal(t.devices[d].status) ==>
                  forall e :: (d, e) in t.keys ==> t.keys[(d, e)].status == KeyRevoked)
            && (forall id :: id in t.requests && t.requests[id].decidedBy.Some? ==>
                  t.requests[id].decidedBy.value != t.requests[id].requestedBy)
  {
    RunKeepsInv(run);
    var t := After(run);
    assert EpochsMatch(t, d) && StatusesMatch(t, d);
    forall id | id in t.requests ensures RequestOk(t, t.requests[id]) {}
  }

  /** Exactly when an epoch authenticates if no step commits between the two reads; the
      inconsistency branch of the verifier is then not taken. */
  lemma AuthenticatesExactly(run: seq<Timed>, d: string, epoch: int, grace: int, now: int)
    requires IsRun(run)
    ensures var t := After(run);
            && Authenticate(t, d, epoch, grace, now) != EpochInconsistent
            && (Authenticate(t, d, epoch, grace, now).Accepted? <==>
                  && d in t.devices && t.devices[d].status == Active && (d, epoch) in t.keys
                  && (epoch == t.devices[d].keyEpoch ||
                      (t.keys[(d, epoch)].status == Previous && now - t.keys[(d, epoch)].rotatedAt <= grace)))
  {
    var t := After(run);
    if d in t.devices {
      ReachableRegistry(run, d);
    }
  }

  // ---- Dead keys stay dead ----

  /** Revoked, or demoted and past the grace window. */
  ghost predicate Dead(t: Tables, d: string, epoch: int, grace: int, now: int) {
    (d, epoch) in t.keys &&
    var k := t.keys[(d, epoch)];
    k.status == KeyRevoked || (k.status == Previous && now - k.rotatedAt > grace)
  }

  lemma DeadIsRejected(first: Tables, t: Tables, d: string, epoch: int, grace: int, now: int)
    requires Dead(t, d, epoch, grace, now)
    ensures !AuthenticateReads(first, t, d, epoch, grace, now).Accepted?
  {}

  /** What any step may do to a key row: the public key stays; a revoked row stays;
      a demoted row stays as it is or is revoked. */
  ghost predicate Ages(before: Key, after: Key) {
    && after.publicKey == before.publicKey
    && (before.status == KeyRevoked ==> after.status == KeyRevoked)
    && (before.status == Previous ==> after == before || after.status == KeyRevoked)
  }

  lemma RotationAges(t: Tables, tenant: string, d0: string, newKey: string, grace: int, now: int, d: string, epoch: int)
    requires ApplyRotation(t, tenant, d0, newKey, grace, now).Ok? && EpochsMatch(t, d0) && (d, epoch) in t.keys
    ensures var t' := ApplyRotation(t, tenant, d0, newKey, grace, now).value;
            (d, epoch) in t'.keys && Ages(t.keys[(d, epoch)], t'.keys[(d, epoch)])
  {
    assert (d, epoch) != (d0, t.devices[d0].keyEpoch + 1);
  }

  lemma KeyAges(t: Tables, a: Action, at: int, d: string, epoch: int)
    requires Inv(t) && FreshIds(t, a) && (d, epoch) in t.keys
    ensures (d, epoch) in Next(t, a, at).keys && Ages(t.keys[(d, epoch)], Next(t, a, at).keys[(d, epoch)])
  {
    assert d in t.devices by { assert (d, epoch) in t.keys; }
    if a.Approve? {
      forall x | x in t.devices ensures EpochsMatch(t, x) {}
      hide Inv, EpochsMatch;
      ApprovalAges(t, a, at, d, epoch);
    } else {
      hide Inv, TrimSpace;
    }
  }

  lemma ApprovalAges(t: Tables, a: Action, at: int, d: string, epoch: int)
    requires a.Approve? && FreshIds(t, a) && (d, epoch) in t.keys && d in t.devices
    requires forall x :: x in t.devices ==> EpochsMatch(t, x)
    ensures (d, epoch) in Next(t, a, at).keys && Ages(t.keys[(d, epoch)], Next(t, a, at).keys[(d, epoch)])
  {
    hide TrimSpace, EpochsMatch;
    if Attempt(t, a, at).Ok? && t.requests[a.id].payload.Rotate? {
      var p := t.requests[a.id].payload;
      assert p.deviceId in t.devices;
      var key, grace := p.newKey.value, GraceOrDefault(a.grace);
      assert Next(t, a, at).keys == ApplyRotation(t, a.tenant, p.deviceId, key, grace, at).value.keys;
      hide ApplyRotation, Next, Ages;
      RotationAges(t, a.tenant, p.deviceId, key, grace, at, d, epoch);
    }
  }

  lemma DeadStays(t: Tables, a: Action, at: int, d: string, epoch: int, grace: int, now: int)
    requires Inv(t) && FreshIds(t, a) && Dead(t, d, epoch, grace, now)
    ensures Dead(Next(t, a, at), d, epoch, grace, now)
  {
    hide Inv, Next, FreshIds;
    KeyAges(t, a, at, d, epoch);
  }

  lemma DeadLater(t: Tables, d: string, epoch: int, grace: int, now: int, later: int)
    requires Dead(t, d, epoch, grace, now) && now <= later
    ensures Dead(t, d, epoch, grace, later)
  {}

  lemma AfterStep(run: seq<Timed>)
    requires run != []
    ensures After(run) == Next(After(run[..|run| - 1]), run[|run| - 1].action, run[|run| - 1].at)
  {}

  /** With a verifier clock that never goes back and one grace value, an epoch that
      is revoked or expired never authenticates again, whenever the device row is read. */
  lemma DeadForGood(run: seq<Timed>, m: nat, i: nat, d: string, epoch: int, grace: int, now: int, later: int)
    requires IsRun(run) && m <= |run| && i <= |run| && now <= later
    requires Dead(After(run[..m]), d, epoch, grace, now)
    ensures !AuthenticateReads(After(run[..i]), After(run), d, epoch, grace, later).Accepted?
  {
    hide After, Dead, AuthenticateReads;
    DeadRemains(run, m, d, epoch, grace, now, later);
    DeadIsRejected(After(run[..i]), After(run), d, epoch, grace, later);
  }

  lemma {:induction false} DeadRemains(run: seq<Timed>, m: nat, d: string, epoch: int, grace: int, now: int, later: int)
    requires IsRun(run) && m <= |run| && now <= later
    requires Dead(After(run[..m]), d, epoch, grace, now)
    ensures Dead(After(run), d, epoch, grace, later)
    decreases |run|
  {
    hide Next, Dead, Inv, After;
    if m == |run| {
      assert run[..m] == run;
      DeadLater(After(run), d, epoch, grace, now, later);
    } else {
      var n := |run| - 1;
      IsRunPrefix(run, n);
      assert run[..n][..m] == run[..m];
      DeadRemains(run[..n], m, d, epoch, grace, now, later);
      RunKeepsInv(run[..n]);
      assert FreshIds(After(run[..n]), run[n].action);
      hide IsRun, FreshIds;
      DeadStays(After(run[..n]), run[n].action, run[n].at, d, epoch, grace, later);
      AfterStep(run);
    }
  }

  /** Rotation revokes only keys that the verifier, at the same grace, already
      rejects; every other epoch of any device keeps authenticating as before, the
      demoted one included. */
  lemma RotationRevokesOnlyTheRejected(t: Tables, tenant: string, d: string, newKey: string, grace: int, now: int, x: string, epoch: int)
    requires Inv(t) && grace >= 0 && ApplyRotation(t, tenant, d, newKey, grace, now).Ok?
    requires (x, epoch) in t.keys
    ensures var t' := ApplyRotation(t, tenant, d, newKey, grace, now).value;
            && (x, epoch) in t'.keys
            && (t'.keys[(x, epoch)].status == KeyRevoked && t.keys[(x, epoch)].status != KeyRevoked ==>
                  !Authenticate(t, x, epoch, grace, now).Accepted?)
            && (Authenticate(t, x, epoch, grace, now).Accepted? <==> Authenticate(t', x, epoch, grace, now).Accepted?)
  {
    assert EpochsMatch(t, d) && StatusesMatch(t, d);
    assert x in t.devices by { assert (x, epoch) in t.keys; }
    assert EpochsMatch(t, x) && StatusesMatch(t, x);
    hide Inv, EpochsMatch, StatusesMatch, Authenticate, ApplyRotation;
    if x == d {
      OwnKeysKeepVerdict(t, tenant, d, newKey, grace, now, epoch);
    } else {
      OtherKeysKeepVerdict(t, tenant, d, newKey, grace, now, x, epoch);
    }
  }

  lemma OtherKeysKeepVerdict(t: Tables, tenant: string, d: string, newKey: string, grace: int, now: int, x: string, epoch: int)
    requires ApplyRotation(t, tenant, d, newKey, grace, now).Ok? && x != d && (x, epoch) in t.keys
    ensures var t' := ApplyRotation(t, tenant, d, newKey, grace, now).value;
            && (x, epoch) in t'.keys && t'.keys[(x, epoch)] == t.keys[(x, epoch)]
            && Authenticate(t, x, epoch, grace, now) == Authenticate(t', x, epoch, grace, now)
  {}

  lemma OwnKeysKeepVerdict(t: Tables, tenant: string, d: string, newKey: string, grace: int, now: int, epoch: int)
    requires d in t.devices && EpochsMatch(t, d) && StatusesMatch(t, d)
    requires grace >= 0 && ApplyRotation(t, tenant, d, newKey, grace, now).Ok? && (d, epoch) in t.keys
    ensures var t' := ApplyRotation(t, tenant, d, newKey, grace, now).value;
            && (d, epoch) in t'.keys
            && (t'.keys[(d, epoch)].status == KeyRevoked && t.keys[(d, epoch)].status != KeyRevoked ==>
                  !Authenticate(t, d, epoch, grace, now).Accepted?)
            && (Authenticate(t, d, epoch, grace, now).Accepted? <==> Authenticate(t', d, epoch, grace, now).Accepted?)
  {}
}
