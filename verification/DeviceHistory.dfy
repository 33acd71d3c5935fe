/** Where the rows of the device registry come from: every key, status and consumed
    activation is traced back to the committed steps of the run. */
module DeviceHistory {
  import opened Options
  import opened Text
  import opened DeviceRegistry
  import opened DeviceRuns
  import opened DeviceReads

  // ---- What is accepted ----

  /** A checker may decide the request: it is pending, in the tenant, and another's. */
  predicate Decidable(t: Tables, tenant: string, id: string, checker: string) {
    && TrimSpace(checker) != "" && id in t.requests && t.requests[id].tenant == tenant
    && t.requests[id].requestedBy != checker && t.requests[id].status == Pending
  }

  /** Exactly the decidable requests with a usable payload are approved, and rotations
      only of active devices of the tenant; exactly the decidable ones are rejected. */
  lemma DecidedExactlyWhen(t: Tables, tenant: string, id: string, checker: string, grace: int, now: int, newId: string, hash: string)
    ensures ApproveRequest(t, tenant, id, checker, grace, now, newId, hash).Ok? <==>
            && Decidable(t, tenant, id, checker) && Usable(t.requests[id].payload)
            && (t.requests[id].payload.Rotate? ==>
                  var d := t.requests[id].payload.deviceId;
                  d in t.devices && t.devices[d].tenant == tenant && t.devices[d].status == Active)
    ensures RejectRequest(t, tenant, id, checker).Ok? <==> Decidable(t, tenant, id, checker)
  {
    hide TrimSpace;
  }

  /** Why an approval is refused: the checks in their order, the maker's before the
      status. */
  lemma ApprovalErrors(t: Tables, tenant: string, id: string, checker: string, grace: int, now: int, newId: string, hash: string)
    ensures var r := ApproveRequest(t, tenant, id, checker, grace, now, newId, hash);
            var visible := id in t.requests && t.requests[id].tenant == tenant;
            && (r == Err(BlankPrincipal) <==> TrimSpace(checker) == "")
            && (r == Err(RequestNotFound) <==> TrimSpace(checker) != "" && !visible)
            && (r == Err(MakerChecker) <==> TrimSpace(checker) != "" && visible && t.requests[id].requestedBy == checker)
            && (r == Err(RequestNotPending) <==>
                  TrimSpace(checker) != "" && visible && t.requests[id].requestedBy != checker && t.requests[id].status != Pending)
            && (r == Err(BadPayload) <==> Decidable(t, tenant, id, checker) && !Usable(t.requests[id].payload))
            && (r == Err(DeviceNotFound) <==>
                  && Decidable(t, tenant, id, checker) && RotatesDevice(t.requests[id].payload)
                  && (var d := t.requests[id].payload.deviceId; d !in t.devices || t.devices[d].tenant != tenant))
            && (r == Err(DeviceNotActive) <==>
                  && Decidable(t, tenant, id, checker) && RotatesDevice(t.requests[id].payload)
                  && (var d := t.requests[id].payload.deviceId;
                      d in t.devices && t.devices[d].tenant == tenant && t.devices[d].status != Active))
  {
    hide TrimSpace, RotatedKeys;
  }

  predicate RotatesDevice(p: Payload) { p.Rotate? && p.newKey.Some? }

  /** Why a device or epoch is refused, when both rows are read at once. */
  lemma RefusalReasons(t: Tables, d: string, epoch: int, grace: int, now: int)
    ensures var outcome := Authenticate(t, d, epoch, grace, now);
            && (outcome == DeviceUnknown <==> d !in t.devices)
            && (outcome == DeviceSuspended <==> d in t.devices && t.devices[d].status == Suspended)
            && (outcome == DeviceRevoked <==> d in t.devices && t.devices[d].status == Revoked)
            && (outcome == DeviceRetired <==> d in t.devices && t.devices[d].status == Decommissioned)
            && (outcome.Accepted? ==> (d, epoch) in t.keys && outcome.key == t.keys[(d, epoch)])
    ensures d in t.devices && t.devices[d].status == Active ==>
            var outcome := Authenticate(t, d, epoch, grace, now);
            && (outcome == EpochUnknown <==> (d, epoch) !in t.keys)
            && (outcome == EpochRevoked <==> (d, epoch) in t.keys && t.keys[(d, epoch)].status == KeyRevoked)
            && (outcome == GraceExpired <==>
                  (d, epoch) in t.keys && t.keys[(d, epoch)].status == Previous && now - t.keys[(d, epoch)].rotatedAt > grace)
  {}

  /** A status is accepted exactly for another status of a device of the tenant that is
      neither revoked nor decommissioned; an activation exactly for an approved request
      with this hash. */
  lemma AcceptedExactlyWhen(t: Tables, tenant: string, d: string, target: DeviceStatus, actor: string, id: string, hash: string)
    ensures SetDeviceStatus(t, tenant, d, target, actor).Ok? <==>
            && TrimSpace(actor) != "" && d in t.devices && t.devices[d].tenant == tenant
            && t.devices[d].status != target && t.devices[d].status in {Active, Suspended}
    ensures ConsumeActivation(t, id, hash).Ok? <==>
            id in t.requests && t.requests[id].status == Approved && t.requests[id].secretHash == Some(hash)
  {
    hide TrimSpace;
  }

  /** Every key after a rotation: the new epoch is CURRENT with the new key; the old
      CURRENT one is PREVIOUS from now on; a PREVIOUS one past its grace is revoked; and
      everything else is as before. */
  lemma RotationOutcome(t: Tables, tenant: string, d: string, newKey: string, grace: int, now: int, x: string, epoch: int)
    requires ApplyRotation(t, tenant, d, newKey, grace, now).Ok? && EpochsMatch(t, d)
    requires (x, epoch) in t.keys || (x == d && epoch == t.devices[d].keyEpoch + 1)
    ensures var t' := ApplyRotation(t, tenant, d, newKey, grace, now).value;
            && t'.devices[d].keyEpoch == t.devices[d].keyEpoch + 1 && (x, epoch) in t'.keys
            && t'.keys[(x, epoch)] ==
               if x == d && epoch == t.devices[d].keyEpoch + 1 then Key(newKey, Current, now)
               else if x != d then t.keys[(x, epoch)]
               else
                 var k := t.keys[(d, epoch)];
                 if k.status == Current then Key(k.publicKey, Previous, now)
                 else if k.status == Previous && now - k.rotatedAt > grace then Key(k.publicKey, KeyRevoked, k.rotatedAt)
                 else k
  {}

  /** A grace that is not positive means a day, in nanoseconds. */
  lemma DefaultGraceIsADay(grace: int)
    ensures GraceOrDefault(grace) == if grace <= 0 then 86_400_000_000_000 else grace
  {}

  // ---- Keys ----

  /** The approval `a` installs this key as this epoch of the device. */
  ghost predicate InstallsKey(t: Tables, a: Action, at: int, d: string, epoch: int, key: string) {
    && a.Approve? && a.id in t.requests && Attempt(t, a, at).Ok?
    && match t.requests[a.id].payload
       case Provision(k) => a.newId == d && epoch == 1 && k == Some(key)
       case Rotate(x, k) => x == d && d in t.devices && epoch == t.devices[d].keyEpoch + 1 && k == Some(key)
       case Malformed => false
  }

  ghost predicate InstalledKeyAt(run: seq<Timed>, k: nat, d: string, epoch: int, key: string) {
    k < |run| && InstallsKey(After(run[..k]), run[k].action, run[k].at, d, epoch, key)
  }

  lemma NewKeys(t: Tables, a: Action, at: int, d: string, epoch: int)
    requires (d, epoch) in Next(t, a, at).keys && (d, epoch) !in t.keys
    ensures InstallsKey(t, a, at, d, epoch, Next(t, a, at).keys[(d, epoch)].publicKey)
    ensures Next(t, a, at).keys[(d, epoch)].status == Current && Next(t, a, at).keys[(d, epoch)].rotatedAt == at
  {
    hide TrimSpace;
  }

  lemma InstalledPrefix(run: seq<Timed>, n: nat, k: nat, d: string, epoch: int, key: string)
    requires k < n <= |run|
    ensures InstalledKeyAt(run[..n], k, d, epoch, key) <==> InstalledKeyAt(run, k, d, epoch, key)
  {
    hide After, InstallsKey;
    assert run[..n][..k] == run[..k];
  }

  /** In every run, each key row holds the key of the approved request that installed
      its epoch: the provisioning for the first, a rotation for each later one. */
  lemma {:induction false} KeysComeFromApprovals(run: seq<Timed>, d: string, epoch: int)
    requires IsRun(run) && (d, epoch) in After(run).keys
    ensures exists k: nat :: InstalledKeyAt(run, k, d, epoch, After(run).keys[(d, epoch)].publicKey)
  {
    if run != [] {
      var n := |run| - 1;
      var t := After(run[..n]);
      var key := After(run).keys[(d, epoch)].publicKey;
      RunStep(run, 0);
      RunKeepsInv(run[..n]);
      hide After, IsRun, Inv, FreshIds, Next, InstallsKey;
      if (d, epoch) in t.keys {
        KeysComeFromApprovals(run[..n], d, epoch);
        KeyAges(t, run[n].action, run[n].at, d, epoch);
        var k: nat :| InstalledKeyAt(run[..n], k, d, epoch, t.keys[(d, epoch)].publicKey);
        InstalledPrefix(run, n, k, d, epoch, key);
      } else {
        NewKeys(t, run[n].action, run[n].at, d, epoch);
        assert InstalledKeyAt(run, n, d, epoch, key);
      }
    }
  }

  // ---- Demotion ----

  lemma OnlyRotationsDemote(t: Tables, a: Action, at: int, d: string, epoch: int)
    requires d in t.devices && StatusesMatch(t, d) && FreshIds(t, a)
    requires (d, epoch) in t.keys && t.keys[(d, epoch)].status == Current
    requires (d, epoch) in Next(t, a, at).keys && Next(t, a, at).keys[(d, epoch)].status == Previous
    ensures Rotates(t, a, at, d) && t.devices[d].keyEpoch == epoch
    ensures Next(t, a, at).keys[(d, epoch)].rotatedAt == at
  {
    hide TrimSpace;
  }

  lemma KeyOwner(t: Tables, d: string, epoch: int)
    requires Inv(t) && (d, epoch) in t.keys
    ensures d in t.devices && EpochsMatch(t, d) && StatusesMatch(t, d)
  {
    assert d in t.devices by { assert (d, epoch) in t.keys; }
  }

  ghost predicate DemotedAt(run: seq<Timed>, k: nat, d: string, epoch: int, at: int) {
    Installs(run, k, d, epoch + 1) && run[k].at == at
  }

  /** In every run, a key in its grace window was demoted by the rotation to the next
      epoch, and its window counts from that rotation. */
  lemma {:induction false} GraceCountsFromTheRotation(run: seq<Timed>, d: string, epoch: int)
    requires IsRun(run) && (d, epoch) in After(run).keys && After(run).keys[(d, epoch)].status == Previous
    ensures exists k: nat :: DemotedAt(run, k, d, epoch, After(run).keys[(d, epoch)].rotatedAt)
  {
    if run != [] {
      var n := |run| - 1;
      var t, at := After(run[..n]), After(run).keys[(d, epoch)].rotatedAt;
      RunStep(run, 0);
      RunKeepsInv(run[..n]);
      hide After, IsRun, Inv, FreshIds, Next, Installs, Rotates;
      if (d, epoch) in t.keys {
        KeyAges(t, run[n].action, run[n].at, d, epoch);
        KeyOwner(t, d, epoch);
        if t.keys[(d, epoch)].status == Previous {
          GraceCountsFromTheRotation(run[..n], d, epoch);
          var k: nat :| DemotedAt(run[..n], k, d, epoch, at);
          InstallsWithin(run[..n], k, d, epoch + 1);
          PrefixSteps(run, n, k, d, epoch + 1);
          assert DemotedAt(run, k, d, epoch, at);
        } else {
          OnlyRotationsDemote(t, run[n].action, run[n].at, d, epoch);
          InstallsNow(run, d, epoch);
          assert DemotedAt(run, n, d, epoch, at);
        }
      } else {
        NewKeys(t, run[n].action, run[n].at, d, epoch);
      }
    }
  }

  lemma InstallsWithin(run: seq<Timed>, k: nat, d: string, epoch: int)
    ensures Installs(run, k, d, epoch) ==> k < |run|
  {}

  lemma InstallsNow(run: seq<Timed>, d: string, epoch: int)
    requires run != [] && var t := After(run[..|run| - 1]);
             Rotates(t, run[|run| - 1].action, run[|run| - 1].at, d) && d in t.devices && t.devices[d].keyEpoch == epoch
    ensures Installs(run, |run| - 1, d, epoch + 1)
  {}

  // ---- Status ----

  /** The step commits this status of the device. */
  ghost predicate SetsStatus(t: Tables, step: Timed, d: string) {
    step.action.SetStatus? && step.action.d == d && Attempt(t, step.action, step.at).Ok?
  }

  /** The last status set in the run; devices start out ACTIVE. */
  ghost function LastStatus(run: seq<Timed>, d: string): DeviceStatus {
    if run == [] then Active
    else
      var n := |run| - 1;
      if SetsStatus(After(run[..n]), run[n], d) then run[n].action.target else LastStatus(run[..n], d)
  }

  lemma StatusStep(t: Tables, step: Timed, d: string)
    requires FreshIds(t, step.action)
    ensures var t' := Next(t, step.action, step.at);
            if d !in t.devices then
              !SetsStatus(t, step, d) && (d in t'.devices ==> t'.devices[d].status == Active)
            else
              && d in t'.devices && t'.devices[d].tenant == t.devices[d].tenant
              && t'.devices[d].status == if SetsStatus(t, step, d) then step.action.target else t.devices[d].status
  {
    hide TrimSpace, RotatedKeys;
  }

  /** In every run a device has the status last set, ACTIVE if none was. */
  lemma {:induction false} StatusIsTheLastSet(run: seq<Timed>, d: string)
    requires IsRun(run)
    ensures d in After(run).devices ==> After(run).devices[d].status == LastStatus(run, d)
    ensures d !in After(run).devices ==> LastStatus(run, d) == Active
  {
    if run != [] {
      var n := |run| - 1;
      RunStep(run, 0);
      hide After, IsRun, FreshIds, Next, SetsStatus;
      StatusIsTheLastSet(run[..n], d);
      StatusStep(After(run[..n]), run[n], d);
    }
  }

  // ---- Activation ----

  /** Step j approves the provisioning request with this activation hash. */
  ghost predicate ApprovedWith(run: seq<Timed>, j: nat, id: string, hash: string) {
    && j < |run| && run[j].action.Approve? && run[j].action.id == id && run[j].action.hash == hash
    && var t := After(run[..j]);
    id in t.requests && t.requests[id].payload.Provision? && Attempt(t, run[j].action, run[j].at).Ok?
  }

  ghost predicate ConsumedAt(run: seq<Timed>, k: nat, id: string, hash: string) {
    && k < |run| && run[k].action == Consume(id, hash)
    && exists j: nat :: j < k && ApprovedWith(run, j, id, hash)
  }

  lemma ApprovedPrefix(run: seq<Timed>, n: nat, j: nat, id: string, hash: string)
    requires n <= |run| && ApprovedWith(run[..n], j, id, hash)
    ensures ApprovedWith(run, j, id, hash) && j < n
  {
    hide After, Attempt;
    assert run[..n][..j] == run[..j];
  }

  /** What a step may do to the activation of a request. */
  lemma ActivationStep(t: Tables, step: Timed, id: string)
    requires FreshIds(t, step.action) && id in Next(t, step.action, step.at).requests
    ensures var r' := Next(t, step.action, step.at).requests[id];
            if id in t.requests && r'.secretHash == t.requests[id].secretHash then
              (r'.status == Consumed && t.requests[id].status != Consumed ==>
                 r'.secretHash.Some? && step.action == Consume(id, r'.secretHash.value))
            else
              && r'.status != Consumed
              && (r'.secretHash.Some? ==>
                    && step.action.Approve? && step.action.id == id && step.action.hash == r'.secretHash.value
                    && id in t.requests && t.requests[id].payload.Provision? && Attempt(t, step.action, step.at).Ok?)
  {
    hide TrimSpace, RotatedKeys;
  }

  /** In every run, an activation hash is the one set when its provisioning was
      approved, and a consumed request was consumed later with exactly that hash. */
  lemma {:induction false} ConsumedWithTheApprovedHash(run: seq<Timed>, id: string)
    requires IsRun(run) && id in After(run).requests
    ensures var r := After(run).requests[id];
            && (r.secretHash.Some? ==> exists j: nat :: ApprovedWith(run, j, id, r.secretHash.value))
            && (r.status == Consumed ==>
                  r.secretHash.Some? && exists k: nat :: ConsumedAt(run, k, id, r.secretHash.value))
  {
    if run != [] {
      var n := |run| - 1;
      var t, r := After(run[..n]), After(run).requests[id];
      RunStep(run, 0);
      ActivationStep(t, run[n], id);
      if id in t.requests && r.secretHash == t.requests[id].secretHash {
        hide After, IsRun, FreshIds, Next, Attempt;
        ConsumedWithTheApprovedHash(run[..n], id);
        if r.secretHash.Some? {
          var hash := r.secretHash.value;
          var j: nat :| ApprovedWith(run[..n], j, id, hash);
          ApprovedPrefix(run, n, j, id, hash);
          if r.status == Consumed {
            if t.requests[id].status == Consumed {
              var k: nat :| ConsumedAt(run[..n], k, id, hash);
              ConsumedPrefix(run, n, k, id, hash);
            } else {
              assert ConsumedAt(run, n, id, hash);
            }
          }
        }
      } else if r.secretHash.Some? {
        assert ApprovedWith(run, n, id, r.secretHash.value);
      }
    }
  }

  lemma ConsumedPrefix(run: seq<Timed>, n: nat, k: nat, id: string, hash: string)
    requires n <= |run| && ConsumedAt(run[..n], k, id, hash)
    ensures ConsumedAt(run, k, id, hash)
  {
    hide ApprovedWith;
    var j: nat :| j < k && ApprovedWith(run[..n], j, id, hash);
    ApprovedPrefix(run, n, j, id, hash);
  }
}
