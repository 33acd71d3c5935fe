/** The device registry: four-eyes provisioning and key rotation, lifecycle
    status, and verification of key epochs at ingest. Each transaction is one
    atomic step on the tables; a failed one changes nothing. */
module DeviceRegistry {
  import opened Options
  import opened Text

  datatype DeviceStatus = Active | Suspended | Revoked | Decommissioned
  datatype KeyStatus = Current | Previous | KeyRevoked
  datatype RequestStatus = Pending | Approved | Rejected | Consumed

  datatype Device = Device(tenant: string, status: DeviceStatus, keyEpoch: int)
  datatype Key = Key(publicKey: string, status: KeyStatus, rotatedAt: int)
  /** The stored JSON: a key is None where it does not decode to 32 bytes. */
  datatype Payload = Provision(publicKey: Option<string>) | Rotate(deviceId: string, newKey: Option<string>) | Malformed
  datatype Request = Request(
    tenant: string, payload: Payload, requestedBy: string, status: RequestStatus,
    decidedBy: Option<string>, secretHash: Option<string>, deviceId: Option<string>)

  datatype Tables = Tables(
    devices: map<string, Device>, keys: map<(string, int), Key>, requests: map<string, Request>)

  const EMPTY := Tables(map[], map[], map[])

  datatype Error =
    | BlankPrincipal | BadPayload | RequestNotFound | MakerChecker | RequestNotPending
    | DeviceNotFound | DeviceNotActive | IllegalTransition | ActivationFailed

  datatype Result<T> = Ok(value: T) | Err(error: Error)

  const DEFAULT_GRACE: int := 24 * 3600 * 1_000_000_000

  function GraceOrDefault(grace: int): (g: int)
    ensures g > 0
  {
    if grace <= 0 then DEFAULT_GRACE else grace
  }

  predicate Terminal(status: DeviceStatus) { status == Revoked || status == Decommissioned }

  /** `ValidateStatusTransition` on known states. */
  predicate ValidTransition(from: DeviceStatus, to: DeviceStatus) { from != to && !Terminal(from) }

  // ---- Transactions ----

  /** The payload parses, is of a known type and carries a key. */
  predicate Usable(p: Payload) {
    match p case Provision(key) => key.Some? case Rotate(_, key) => key.Some? case Malformed => false
  }

  function CreateRequest(t: Tables, id: string, tenant: string, payload: Payload, maker: string): Result<Tables> {
    if !Usable(payload) || (payload.Rotate? && TrimSpace(payload.deviceId) == "") then Err(BadPayload)
    else if TrimSpace(maker) == "" then Err(BlankPrincipal)
    else Ok(t.(requests := t.requests[id := Request(tenant, payload, maker, Pending, None, None, None)]))
  }

  predicate Expired(k: Key, grace: int, now: int) { k.status == Previous && k.rotatedAt < now - grace }

  /** The UPDATE and INSERT statements of `applyRotation` on the key table. */
  function RevokeExpired(keys: map<(string, int), Key>, d: string, grace: int, now: int): map<(string, int), Key> {
    map ke | ke in keys ::
      if ke.0 == d && Expired(keys[ke], grace, now) then keys[ke].(status := KeyRevoked) else keys[ke]
  }

  function DemoteCurrent(keys: map<(string, int), Key>, d: string, now: int): map<(string, int), Key> {
    map ke | ke in keys ::
      if ke.0 == d && keys[ke].status == Current then keys[ke].(status := Previous, rotatedAt := now) else keys[ke]
  }

  function RotatedKeys(keys: map<(string, int), Key>, d: string, epoch: int, newKey: string, grace: int, now: int)
    : map<(string, int), Key>
  {
    DemoteCurrent(RevokeExpired(keys, d, grace, now), d, now)[(d, epoch + 1) := Key(newKey, Current, now)]
  }

  function ApplyRotation(t: Tables, tenant: string, d: string, newKey: string, grace: int, now: int): Result<Tables> {
    if d !in t.devices || t.devices[d].tenant != tenant then Err(DeviceNotFound)
    else if t.devices[d].status != Active then Err(DeviceNotActive)
    else
      var epoch := t.devices[d].keyEpoch;
      Ok(t.(keys := RotatedKeys(t.keys, d, epoch, newKey, grace, now),
            devices := t.devices[d := t.devices[d].(keyEpoch := epoch + 1)]))
  }

  /** Decidable: visible, not by its maker, still pending. */
  function Decide(t: Tables, tenant: string, id: string, checker: string): Result<Request> {
    if TrimSpace(checker) == "" then Err(BlankPrincipal)
    else if id !in t.requests || t.requests[id].tenant != tenant then Err(RequestNotFound)
    else if t.requests[id].requestedBy == checker then Err(MakerChecker)
    else if t.requests[id].status != Pending then Err(RequestNotPending)
    else Ok(t.requests[id])
  }

  /** `newId` and `hash` are the generated device id and activation-secret hash. */
  function ApproveRequest(t: Tables, tenant: string, id: string, checker: string, grace: int, now: int,
                          newId: string, hash: string): Result<Tables>
  {
    match Decide(t, tenant, id, checker)
    case Err(e) => Err(e)
    case Ok(r) =>
      var decided := r.(status := Approved, decidedBy := Some(checker));
      if !Usable(r.payload) then Err(BadPayload)
      else match r.payload
      case Provision(key) =>
        Ok(Tables(t.devices[newId := Device(tenant, Active, 1)],
                  t.keys[(newId, 1) := Key(key.value, Current, now)],
                  t.requests[id := decided.(secretHash := Some(hash), deviceId := Some(newId))]))
      case Rotate(d, key) =>
        match ApplyRotation(t, tenant, d, key.value, GraceOrDefault(grace), now)
        case Err(e) => Err(e)
        case Ok(t1) => Ok(t1.(requests := t1.requests[id := decided.(deviceId := Some(d))]))
  }

  function RejectRequest(t: Tables, tenant: string, id: string, checker: string): Result<Tables> {
    match Decide(t, tenant, id, checker)
    case Err(e) => Err(e)
    case Ok(r) => Ok(t.(requests := t.requests[id := r.(status := Rejected, decidedBy := Some(checker))]))
  }

  function SetDeviceStatus(t: Tables, tenant: string, d: string, target: DeviceStatus, actor: string): Result<Tables> {
    if TrimSpace(actor) == "" then Err(BlankPrincipal)
    else if d !in t.devices || t.devices[d].tenant != tenant then Err(DeviceNotFound)
    else if !ValidTransition(t.devices[d].status, target) then Err(IllegalTransition)
    else
      Ok(t.(devices := t.devices[d := t.devices[d].(status := target)],
            keys := if Terminal(target)
                    then map ke | ke in t.keys :: if ke.0 == d then t.keys[ke].(status := KeyRevoked) else t.keys[ke]
                    else t.keys))
  }

  function ConsumeActivation(t: Tables, id: string, hash: string): Result<Tables> {
    if id !in t.requests || t.requests[id].status != Approved || t.requests[id].secretHash != Some(hash)
    then Err(ActivationFailed)
    else Ok(t.(requests := t.requests[id := t.requests[id].(status := Consumed)]))
  }

  // ---- Verification at ingest ----

  datatype AuthOutcome =
    | Accepted(key: Key)
    | DeviceUnknown | DeviceSuspended | DeviceRevoked | DeviceRetired
    | EpochUnknown | EpochInconsistent | GraceExpired | EpochRevoked

  /** `authenticate`, with its two `key_epoch_unknown` branches kept apart. The device
      row and the key row are read by two statements, so from two states of the tables. */
  function AuthenticateReads(first: Tables, second: Tables, d: string, epoch: int, grace: int, now: int): AuthOutcome {
    if d !in first.devices then DeviceUnknown
    else match first.devices[d].status
      case Suspended => DeviceSuspended
      case Revoked => DeviceRevoked
      case Decommissioned => DeviceRetired
      case Active =>
        if (d, epoch) !in second.keys then EpochUnknown
        else
          var k := second.keys[(d, epoch)];
          match k.status
          case Current => if epoch != first.devices[d].keyEpoch then EpochInconsistent else Accepted(k)
          case Previous => if now - k.rotatedAt > grace then GraceExpired else Accepted(k)
          case KeyRevoked => EpochRevoked
  }

  /** The verdict when nothing commits between the two reads. */
  function Authenticate(t: Tables, d: string, epoch: int, grace: int, now: int): AuthOutcome {
    AuthenticateReads(t, t, d, epoch, grace, now)
  }

  // ---- Invariant ----

  ghost predicate EpochsMatch(t: Tables, d: string)
    requires d in t.devices
  {
    t.devices[d].keyEpoch >= 1 &&
    forall e :: (d, e) in t.keys <==> 1 <= e <= t.devices[d].keyEpoch
  }

  ghost predicate StatusesMatch(t: Tables, d: string)
    requires d in t.devices
  {
    forall e :: (d, e) in t.keys ==>
      if Terminal(t.devices[d].status) then t.keys[(d, e)].status == KeyRevoked
      else t.keys[(d, e)].status == Current <==> e == t.devices[d].keyEpoch
  }

  ghost predicate RequestOk(t: Tables, r: Request) {
    && Usable(r.payload)
    && (r.decidedBy.Some? ==> r.decidedBy.value != r.requestedBy)
    && (r.status == Pending <==> r.decidedBy.None?)
    && (r.payload.Rotate? ==> r.secretHash.None? && r.status != Consumed)
    && (r.payload.Rotate? && r.status == Approved ==> r.payload.deviceId in t.devices)
    && (r.status == Consumed ==> r.secretHash.Some?)
  }

  /** The approved rotations of a device. */
  ghost function Rotations(t: Tables, d: string): set<string> {
    set id | id in t.requests && t.requests[id].status == Approved &&
             t.requests[id].payload.Rotate? && t.requests[id].payload.deviceId == d
  }

  ghost predicate Inv(t: Tables) {
    && (forall d :: d in t.devices ==> EpochsMatch(t, d) && StatusesMatch(t, d))
    && (forall ke :: ke in t.keys ==> ke.0 in t.devices)
    && (forall id :: id in t.requests ==> RequestOk(t, t.requests[id]))
    && (forall d :: d in t.devices ==> t.devices[d].keyEpoch == 1 + |Rotations(t, d)|)
  }

  // ---- Steps and runs ----

  datatype Action =
    | Create(id: string, tenant: string, payload: Payload, maker: string)
    | Approve(id: string, tenant: string, checker: string, grace: int, newId: string, hash: string)
    | Reject(id: string, tenant: string, checker: string)
    | SetStatus(d: string, tenant: string, target: DeviceStatus, actor: string)
    | Consume(id: string, hash: string)

  function Attempt(t: Tables, a: Action, now: int): Result<Tables> {
    match a
    case Create(id, tenant, payload, maker) => CreateRequest(t, id, tenant, payload, maker)
    case Approve(id, tenant, checker, grace, newId, hash) => ApproveRequest(t, tenant, id, checker, grace, now, newId, hash)
    case Reject(id, tenant, checker) => RejectRequest(t, tenant, id, checker)
    case SetStatus(d, tenant, target, actor) => SetDeviceStatus(t, tenant, d, target, actor)
    case Consume(id, hash) => ConsumeActivation(t, id, hash)
  }

  /** Generated ids have not been used before. */
  ghost predicate FreshIds(t: Tables, a: Action) {
    && (a.Create? ==> a.id !in t.requests)
    && (a.Approve? ==> a.newId !in t.devices)
  }

  function Next(t: Tables, a: Action, now: int): Tables {
    match Attempt(t, a, now) case Ok(t') => t' case Err(_) => t
  }

  // ---- The store: each transaction updates its rows statement by statement ----

  datatype Approval = Approval(deviceId: string, keyEpoch: int)

  class Store {
    var devices: map<string, Device>
    var keys: map<(string, int), Key>
    var requests: map<string, Request>

    ghost function View(): Tables
      reads this
    {
      Tables(devices, keys, requests)
    }

    constructor ()
      ensures View() == EMPTY
    {
      devices, keys, requests := map[], map[], map[];
    }

    /** Revoke the expired, demote the current, install the new epoch, advance. */
    method Rotation(tenant: string, d: string, newKey: string, grace: int, now: int) returns (r: Result<int>)
      modifies this`devices, this`keys
      ensures match ApplyRotation(old(View()), tenant, d, newKey, grace, now)
              case Err(e) => r == Err(e) && View() == old(View())
              case Ok(t) => View() == t && r == Ok(t.devices[d].keyEpoch)
    {
      if d !in devices || devices[d].tenant != tenant {
        return Err(DeviceNotFound);
      }
      if devices[d].status != Active {
        return Err(DeviceNotActive);
      }
      var epoch := devices[d].keyEpoch;
      hide RevokeExpired, DemoteCurrent;
      keys := RevokeExpired(keys, d, grace, now);
      keys := DemoteCurrent(keys, d, now);
      keys := keys[(d, epoch + 1) := Key(newKey, Current, now)];
      devices := devices[d := devices[d].(keyEpoch := epoch + 1)];
      return Ok(epoch + 1);
    }

    method Approve(tenant: string, id: string, checker: string, grace0: int, now: int, newId: string, hash: string)
      returns (r: Result<Approval>)
      modifies this
      ensures match ApproveRequest(old(View()), tenant, id, checker, grace0, now, newId, hash)
              case Err(e) => r == Err(e) && View() == old(View())
              case Ok(t) =>
                && View() == t && r.Ok? && t.requests[id].deviceId == Some(r.value.deviceId)
                && r.value.deviceId in t.devices && r.value.keyEpoch == t.devices[r.value.deviceId].keyEpoch
    {
      hide TrimSpace, RotatedKeys;
      if TrimSpace(checker) == "" {
        return Err(BlankPrincipal);
      }
      var grace := if grace0 <= 0 then DEFAULT_GRACE else grace0;
      if id !in requests || requests[id].tenant != tenant {
        return Err(RequestNotFound);
      }
      if requests[id].requestedBy == checker {
        return Err(MakerChecker);
      }
      if requests[id].status != Pending {
        return Err(RequestNotPending);
      }
      if !Usable(requests[id].payload) {
        return Err(BadPayload);
      }
      match requests[id].payload
      case Provision(key) =>
        devices := devices[newId := Device(tenant, Active, 1)];
        keys := keys[(newId, 1) := Key(key.value, Current, now)];
        requests := requests[id := requests[id].(status := Approved, decidedBy := Some(checker),
                                                 secretHash := Some(hash), deviceId := Some(newId))];
        return Ok(Approval(newId, 1));
      case Rotate(d, key) =>
        var epoch := Rotation(tenant, d, key.value, grace, now);
        if epoch.Err? {
          return Err(epoch.error);
        }
        requests := requests[id := requests[id].(status := Approved, decidedBy := Some(checker), deviceId := Some(d))];
        return Ok(Approval(d, epoch.value));
    }

    method Reject(tenant: string, id: string, checker: string) returns (r: Result<Request>)
      modifies this`requests
      ensures match RejectRequest(old(View()), tenant, id, checker)
              case Err(e) => r == Err(e) && View() == old(View())
              case Ok(t) => View() == t && r == Ok(t.requests[id])
    {
      hide TrimSpace;
      if TrimSpace(checker) == "" {
        return Err(BlankPrincipal);
      }
      if id !in requests || requests[id].tenant != tenant {
        return Err(RequestNotFound);
      }
      if requests[id].requestedBy == checker {
        return Err(MakerChecker);
      }
      if requests[id].status != Pending {
        return Err(RequestNotPending);
      }
      requests := requests[id := requests[id].(status := Rejected, decidedBy := Some(checker))];
      return Ok(requests[id]);
    }

    /** One conditional update: it succeeds once per approved provisioning. */
    method Consume(id: string, hash: string) returns (r: Result<Request>)
      modifies this`requests
      ensures match ConsumeActivation(old(View()), id, hash)
              case Err(e) => r == Err(e) && View() == old(View())
              case Ok(t) => View() == t && r == Ok(t.requests[id])
    {
      if id !in requests || requests[id].status != Approved || requests[id].secretHash != Some(hash) {
        return Err(ActivationFailed);
      }
      requests := requests[id := requests[id].(status := Consumed)];
      return Ok(requests[id]);
    }

    method SetStatus(tenant: string, d: string, target: DeviceStatus, actor: string) returns (r: Result<Device>)
      modifies this`devices, this`keys
      ensures match SetDeviceStatus(old(View()), tenant, d, target, actor)
              case Err(e) => r == Err(e) && View() == old(View())
              case Ok(t) => View() == t && r == Ok(t.devices[d])
    {
      hide TrimSpace;
      if TrimSpace(actor) == "" {
        return Err(BlankPrincipal);
      }
      if d !in devices || devices[d].tenant != tenant {
        return Err(DeviceNotFound);
      }
      if !ValidTransition(devices[d].status, target) {
        return Err(IllegalTransition);
      }
      devices := devices[d := devices[d].(status := target)];
      if target == Revoked || target == Decommissioned {
        keys := map ke | ke in keys ::
          if ke.0 == d && keys[ke].status != KeyRevoked then keys[ke].(status := KeyRevoked) else keys[ke];
      }
      return Ok(devices[d]);
    }
  }
}
