/** Authentication reads the device row and then the key row, in two statements:
    what may commit in between, and what the verdict then means. The first read is
    at step `m` of a run, the second at its end. */
module DeviceReads {
  import opened Options
  import opened Text
  import opened DeviceRegistry
  import opened DeviceRuns

  // ---- What a step does to a device ----

  /** The step commits a rotation of the device. */
  ghost predicate Rotates(t: Tables, a: Action, at: int, d: string) {
    && a.Approve? && a.id in t.requests && t.requests[a.id].payload.Rotate? && t.requests[a.id].payload.deviceId == d
    && Attempt(t, a, at).Ok?
  }

  /** The step commits a terminal status of the device. */
  ghost predicate Retires(t: Tables, a: Action, at: int, d: string) {
    a.SetStatus? && a.d == d && Terminal(a.target) && Attempt(t, a, at).Ok?
  }

  lemma DeviceStep(t: Tables, a: Action, at: int, d: string)
    requires FreshIds(t, a) && d in t.devices
    ensures var t' := Next(t, a, at);
            && d in t'.devices
            && t'.devices[d].keyEpoch == t.devices[d].keyEpoch + (if Rotates(t, a, at, d) then 1 else 0)
            && (Terminal(t'.devices[d].status) <==> Terminal(t.devices[d].status) || Retires(t, a, at, d))
    ensures Rotates(t, a, at, d) ==> !Terminal(t.devices[d].status) && !Retires(t, a, at, d)
  {
    hide TrimSpace, RotatedKeys;
  }

  // ---- Epochs installed between the reads ----

  /** Step k of the run commits the rotation that installs this epoch. */
  ghost predicate Installs(run: seq<Timed>, k: nat, d: string, epoch: int) {
    && k < |run|
    && var t := After(run[..k]);
    Rotates(t, run[k].action, run[k].at, d) && d in t.devices && t.devices[d].keyEpoch + 1 == epoch
  }

  /** Step j takes the CURRENT mark from the device's key. */
  ghost predicate Ends(run: seq<Timed>, j: nat, d: string) {
    && j < |run|
    && var t := After(run[..j]);
    Rotates(t, run[j].action, run[j].at, d) || Retires(t, run[j].action, run[j].at, d)
  }

  ghost predicate InstalledAt(run: seq<Timed>, k: nat, d: string, epoch: int) {
    Installs(run, k, d, epoch) && forall j :: k < j < |run| ==> !Ends(run, j, d)
  }

  /** A rotation that installs precisely this epoch commits at or after step m, and
      nothing in the rest of the run rotates or retires the device again. */
  ghost predicate InstalledSince(run: seq<Timed>, m: nat, d: string, epoch: int) {
    exists k :: m <= k < |run| && InstalledAt(run, k, d, epoch)
  }

  lemma PrefixSteps(run: seq<Timed>, n: nat, k: nat, d: string, epoch: int)
    requires k < n <= |run|
    ensures Installs(run[..n], k, d, epoch) <==> Installs(run, k, d, epoch)
    ensures Ends(run[..n], k, d) <==> Ends(run, k, d)
  {
    hide After, Rotates, Retires;
    assert run[..n][..k] == run[..k];
  }

  lemma InstalledStep(run: seq<Timed>, m: nat, d: string, epoch: int)
    requires m < |run|
    ensures var n := |run| - 1;
            InstalledSince(run, m, d, epoch) <==>
            Installs(run, n, d, epoch) || (InstalledSince(run[..n], m, d, epoch) && !Ends(run, n, d))
  {
    hide Installs, Ends;
    var n := |run| - 1;
    forall k | 0 <= k < n
      ensures Installs(run[..n], k, d, epoch) <==> Installs(run, k, d, epoch)
      ensures Ends(run[..n], k, d) <==> Ends(run, k, d)
    {
      PrefixSteps(run, n, k, d, epoch);
    }
    forall k | 0 <= k < n ensures InstalledAt(run, k, d, epoch) <==> InstalledAt(run[..n], k, d, epoch) && !Ends(run, n, d) {}
    assert InstalledAt(run, n, d, epoch) <==> Installs(run, n, d, epoch);
  }

  lemma RunStep(run: seq<Timed>, m: nat)
    requires IsRun(run) && m < |run|
    ensures var n := |run| - 1;
            && IsRun(run[..n]) && FreshIds(After(run[..n]), run[n].action) && run[..n][..m] == run[..m]
            && After(run) == Next(After(run[..n]), run[n].action, run[n].at)
  {
    hide After, FreshIds, Next;
    IsRunPrefix(run, |run| - 1);
    AfterStep(run);
  }

  lemma {:induction false} CurrentSince(run: seq<Timed>, m: nat, d: string, epoch: int)
    requires IsRun(run) && m <= |run| && d in After(run[..m]).devices
    ensures d in After(run).devices
    ensures var a, b := After(run[..m]).devices[d], After(run).devices[d];
            && a.keyEpoch <= b.keyEpoch
            && (!Terminal(b.status) && epoch == b.keyEpoch && epoch != a.keyEpoch <==> InstalledSince(run, m, d, epoch))
    decreases |run|
  {
    if m == |run| {
      assert run[..m] == run;
    } else {
      hide After, IsRun, FreshIds, InstalledSince, Next, Terminal;
      var n := |run| - 1;
      RunStep(run, m);
      CurrentSince(run[..n], m, d, epoch);
      LastStep(run, d, epoch);
      hide Installs, Ends;
      InstalledStep(run, m, d, epoch);
    }
  }

  /** The last step of a run, at one device. */
  lemma LastStep(run: seq<Timed>, d: string, epoch: int)
    requires run != []
    requires var t := After(run[..|run| - 1]); d in t.devices && FreshIds(t, run[|run| - 1].action)
    requires After(run) == Next(After(run[..|run| - 1]), run[|run| - 1].action, run[|run| - 1].at)
    ensures d in After(run).devices
    ensures var n := |run| - 1;
            var a, b := After(run[..n]).devices[d], After(run).devices[d];
            && b.keyEpoch == a.keyEpoch + (if Installs(run, n, d, a.keyEpoch + 1) then 1 else 0)
            && (Installs(run, n, d, epoch) <==> Installs(run, n, d, a.keyEpoch + 1) && epoch == a.keyEpoch + 1)
            && (Installs(run, n, d, epoch) ==> Ends(run, n, d) && !Terminal(b.status))
            && (Terminal(b.status) ==> Terminal(a.status) || (Ends(run, n, d) && b.keyEpoch == a.keyEpoch))
            && (Terminal(a.status) ==> Terminal(b.status))
            && (Ends(run, n, d) ==> Terminal(b.status) || b.keyEpoch == a.keyEpoch + 1)
            && (b.keyEpoch > a.keyEpoch ==> Ends(run, n, d))
  {
    hide After, FreshIds, Terminal;
    DeviceStep(After(run[..|run| - 1]), run[|run| - 1].action, run[|run| - 1].at, d);
    hide Next, Rotates, Retires;
  }

  // ---- The two-read verdict ----

  /** The inconsistency branch is taken if and only if the device was active at the
      first read and, between the reads, a rotation installed precisely this epoch and
      nothing rotated or retired the device after it. */
  lemma InconsistentExactlyWhenInstalledBetween(run: seq<Timed>, m: nat, d: string, epoch: int, grace: int, now: int)
    requires IsRun(run) && m <= |run|
    ensures var first := After(run[..m]);
            AuthenticateReads(first, After(run), d, epoch, grace, now) == EpochInconsistent <==>
            d in first.devices && first.devices[d].status == Active && InstalledSince(run, m, d, epoch)
  {
    if d in After(run[..m]).devices {
      CurrentSince(run, m, d, epoch);
      ReachableRegistry(run, d);
    }
  }

  lemma AgesTransitive(a: Key, b: Key, c: Key)
    requires Ages(a, b) && Ages(b, c)
    ensures Ages(a, c)
  {}

  lemma {:induction false} KeysAge(run: seq<Timed>, m: nat, d: string, epoch: int)
    requires IsRun(run) && m <= |run| && (d, epoch) in After(run[..m]).keys
    ensures (d, epoch) in After(run).keys
    ensures Ages(After(run[..m]).keys[(d, epoch)], After(run).keys[(d, epoch)])
    decreases |run|
  {
    if m == |run| {
      assert run[..m] == run;
    } else {
      hide After, IsRun, FreshIds, Ages, Inv, Next;
      var n := |run| - 1;
      RunStep(run, m);
      RunKeepsInv(run[..n]);
      KeysAge(run[..n], m, d, epoch);
      KeyAges(After(run[..n]), run[n].action, run[n].at, d, epoch);
      AgesTransitive(After(run[..m]).keys[(d, epoch)], After(run[..n]).keys[(d, epoch)], After(run).keys[(d, epoch)]);
    }
  }

  lemma AgedVerdict(first: Tables, second: Tables, d: string, epoch: int, grace: int, now: int)
    requires d in first.devices && EpochsMatch(first, d) && StatusesMatch(first, d)
    requires (d, epoch) in first.keys ==> (d, epoch) in second.keys && Ages(first.keys[(d, epoch)], second.keys[(d, epoch)])
    requires (d, epoch) in second.keys ==> epoch >= 1
    requires AuthenticateReads(first, second, d, epoch, grace, now).Accepted? && epoch <= first.devices[d].keyEpoch
    ensures Authenticate(first, d, epoch, grace, now).Accepted?
    ensures Authenticate(first, d, epoch, grace, now).key.publicKey ==
            AuthenticateReads(first, second, d, epoch, grace, now).key.publicKey
  {}

  /** An epoch accepted over two reads would also have been accepted, with the same
      public key, had both rows been read at the first, with exactly one exception: an epoch
      that was installed and demoted again between the reads and is still in its grace. */
  lemma AcceptedExactlyAsAtFirstRead(run: seq<Timed>, m: nat, d: string, epoch: int, grace: int, now: int)
    requires IsRun(run) && m <= |run|
    requires AuthenticateReads(After(run[..m]), After(run), d, epoch, grace, now).Accepted?
    ensures var first, second := After(run[..m]), After(run);
            && d in first.devices && d in second.devices
            && (Authenticate(first, d, epoch, grace, now).Accepted? <==> epoch <= first.devices[d].keyEpoch)
            && (Authenticate(first, d, epoch, grace, now).Accepted? ==>
                  Authenticate(first, d, epoch, grace, now).key.publicKey ==
                  AuthenticateReads(first, second, d, epoch, grace, now).key.publicKey)
            && (epoch > first.devices[d].keyEpoch ==>
                  && second.keys[(d, epoch)].status == Previous
                  && second.devices[d].keyEpoch >= first.devices[d].keyEpoch + 2)
  {
    var first, second := After(run[..m]), After(run);
    IsRunPrefix(run, m);
    hide After, IsRun;
    ReachableRegistry(run[..m], d);
    CurrentSince(run, m, d, epoch);
    ReachableRegistry(run, d);
    if epoch <= first.devices[d].keyEpoch {
      RunKeepsInv(run[..m]);
      assert EpochsMatch(first, d) && StatusesMatch(first, d);
      hide Inv;
      if (d, epoch) in first.keys { KeysAge(run, m, d, epoch); }
      AgedVerdict(first, second, d, epoch, grace, now);
    }
  }

  // ---- Both cases occur ----

  const PROVISIONING: seq<Timed> := [
    Timed(Create("p", "t", Provision(Some("k1")), "maker"), 1),
    Timed(Approve("p", "t", "checker", 10, "dev", "hash"), 2),
    Timed(Create("r", "t", Rotate("dev", Some("k2")), "maker"), 3)]

  const ROTATION := Timed(Approve("r", "t", "checker", 10, "unused", ""), 4)

  const SECOND_ROTATION: seq<Timed> := [
    Timed(Create("s", "t", Rotate("dev", Some("k3")), "maker"), 5),
    Timed(Approve("s", "t", "checker", 10, "none", ""), 6)]

  function Requested(payload: Payload): Request { Request("t", payload, "maker", Pending, None, None, None) }

  function Provisioned(): Request {
    Request("t", Provision(Some("k1")), "maker", Approved, Some("checker"), Some("hash"), Some("dev"))
  }

  lemma Names()
    ensures TrimSpace("maker") == "maker" && TrimSpace("checker") == "checker" && TrimSpace("dev") == "dev"
  {}

  lemma Extend(run: seq<Timed>, step: Timed)
    requires IsRun(run) && FreshIds(After(run), step.action)
    ensures IsRun(run + [step]) && After(run + [step]) == Next(After(run), step.action, step.at)
  {
    var longer := run + [step];
    assert longer[..|run|] == run;
    assert forall i :: 0 <= i <= |run| ==> longer[..i] == run[..i];
    assert run[..|run|] == run;
    hide FreshIds, Next;
    AfterStep(longer);
  }

  lemma ProvisioningRun()
    ensures IsRun(PROVISIONING)
    ensures After(PROVISIONING) ==
            Tables(map["dev" := Device("t", Active, 1)], map[("dev", 1) := Key("k1", Current, 2)],
                   map["p" := Provisioned(), "r" := Requested(Rotate("dev", Some("k2")))])
  {
    Names();
    hide TrimSpace;
    assert IsRun([]) && After([]) == EMPTY;
    Extend([], PROVISIONING[0]);
    assert [] + [PROVISIONING[0]] == [PROVISIONING[0]];
    assert After([PROVISIONING[0]]) == Tables(map[], map[], map["p" := Requested(Provision(Some("k1")))]);
    Extend([PROVISIONING[0]], PROVISIONING[1]);
    assert [PROVISIONING[0]] + [PROVISIONING[1]] == PROVISIONING[..2];
    assert After(PROVISIONING[..2]) ==
           Tables(map["dev" := Device("t", Active, 1)], map[("dev", 1) := Key("k1", Current, 2)], map["p" := Provisioned()]);
    Extend(PROVISIONING[..2], PROVISIONING[2]);
    assert PROVISIONING[..2] + [PROVISIONING[2]] == PROVISIONING;
  }

  lemma RotationRun()
    ensures IsRun(PROVISIONING + [ROTATION])
    ensures After(PROVISIONING + [ROTATION]).devices == map["dev" := Device("t", Active, 2)]
    ensures After(PROVISIONING + [ROTATION]).keys ==
            map[("dev", 1) := Key("k1", Previous, 4), ("dev", 2) := Key("k2", Current, 4)]
    ensures "s" !in After(PROVISIONING + [ROTATION]).requests
  {
    ProvisioningRun();
    Names();
    hide TrimSpace, After, IsRun;
    Extend(PROVISIONING, ROTATION);
  }

  /** The inconsistency branch is reachable: a rotation commits between the reads. */
  lemma RotationBetweenTheReads()
    ensures var run := PROVISIONING + [ROTATION];
            && IsRun(run) && run[..3] == PROVISIONING
            && AuthenticateReads(After(run[..3]), After(run), "dev", 2, 10, 4) == EpochInconsistent
  {
    ProvisioningRun();
    RotationRun();
    hide After, IsRun;
    assert (PROVISIONING + [ROTATION])[..3] == PROVISIONING;
  }

  const ONE: seq<Timed> := PROVISIONING + [ROTATION]
  const TWO: seq<Timed> := ONE + [SECOND_ROTATION[0]]
  const BOTH: seq<Timed> := TWO + [SECOND_ROTATION[1]]

  lemma SecondRequest()
    ensures IsRun(TWO) && After(TWO).devices == map["dev" := Device("t", Active, 2)]
    ensures After(TWO).keys == map[("dev", 1) := Key("k1", Previous, 4), ("dev", 2) := Key("k2", Current, 4)]
    ensures "s" in After(TWO).requests && After(TWO).requests["s"] == Requested(Rotate("dev", Some("k3")))
  {
    RotationRun();
    Names();
    hide TrimSpace, After, IsRun;
    Extend(ONE, SECOND_ROTATION[0]);
  }

  lemma SecondRotation()
    ensures IsRun(BOTH) && ("dev", 2) in After(BOTH).keys && After(BOTH).keys[("dev", 2)] == Key("k2", Previous, 6)
  {
    SecondRequest();
    Names();
    hide TrimSpace, After, IsRun;
    Extend(TWO, SECOND_ROTATION[1]);
  }

  /** Two rotations between the reads: epoch 2, unknown at the first read and no longer
      current at the second, is accepted. */
  lemma TwoRotationsBetweenTheReads()
    ensures IsRun(BOTH) && BOTH[..3] == PROVISIONING
    ensures AuthenticateReads(After(BOTH[..3]), After(BOTH), "dev", 2, 10, 6).Accepted?
    ensures Authenticate(After(BOTH[..3]), "dev", 2, 10, 6) == EpochUnknown
  {
    ProvisioningRun();
    SecondRotation();
    hide After, IsRun;
    assert BOTH[..3] == PROVISIONING;
  }
}
