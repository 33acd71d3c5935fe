/** Safety inspections: the detention and release lifecycle and the deficiencies
    recorded against an inspection. Each operation is one transaction that holds
    the inspection (or deficiency) row; a failed one changes nothing. */
module Inspections {
  import opened Options
  import Text

  datatype Stage = Scheduled | InProgress | Completed | Detained | Rectification | Released | Closed

  datatype Inspection = Inspection(
    stage: Stage, codes: set<string>, detainedBy: Option<string>, grounds: Option<string>,
    rectificationBy: Option<string>, releasedBy: Option<string>, closedBy: Option<string>)

  datatype Severity = Minor | Major | Critical
  datatype DeficiencyStage = Open | Rectified | Verified

  /** What the inspector records. */
  datatype Finding = Finding(
    code: string, description: string, severity: Severity, deadline: Option<int>, recordedBy: string)

  datatype Deficiency = Deficiency(
    inspection: string, finding: Finding, stage: DeficiencyStage,
    rectifiedBy: Option<string>, verifiedBy: Option<string>)

  datatype Register = Register(inspections: map<string, Inspection>, deficiencies: map<string, Deficiency>)

  const EMPTY := Register(map[], map[])

  datatype Action = Start | Complete | Detain | Rectify | Release | Close | Unknown
  datatype DeficiencyAction = MarkRectified | Verify | Other

  datatype Error = NotFound | InvalidTransition | MakerChecker | ConstraintViolated
  datatype Result = Ok(register: Register) | Err(error: Error)

  /** The length CHECK on every principal column. */
  predicate PrincipalFits(actor: string) { 1 <= |actor| <= 512 }

  // ---- Transactions ----

  /** The CRITICAL deficiencies of an inspection that are not VERIFIED. */
  function OpenCritical(r: Register, id: string): set<string> {
    set d | d in r.deficiencies
      && r.deficiencies[d].inspection == id && r.deficiencies[d].finding.severity == Critical && r.deficiencies[d].stage != Verified
  }

  /** The updated row, or the error; `blocked` says that a CRITICAL deficiency is open. */
  datatype Updated = Row(row: Inspection) | Refused(error: Error)

  function Move(row: Inspection, blocked: bool, actor: string, action: Action, note: string): Updated {
    match action
    case Start => if row.stage != Scheduled then Refused(InvalidTransition) else Row(row.(stage := InProgress))
    case Complete => if row.stage != InProgress then Refused(InvalidTransition) else Row(row.(stage := Completed))
    case Detain =>
      if row.stage != InProgress && row.stage != Completed then Refused(InvalidTransition)
      else if Text.TrimSpace(note) == "" then Refused(InvalidTransition)
      else if !PrincipalFits(actor) || |note| > 1000 then Refused(ConstraintViolated)
      else Row(row.(stage := Detained, detainedBy := Some(actor), grounds := Some(note)))
    case Rectify =>
      if row.stage != Detained then Refused(InvalidTransition)
      else if !PrincipalFits(actor) then Refused(ConstraintViolated)
      else Row(row.(stage := Rectification, rectificationBy := Some(actor)))
    case Release =>
      if row.stage != Rectification then Refused(InvalidTransition)
      else if row.detainedBy == Some(actor) then Refused(MakerChecker)
      else if blocked then Refused(InvalidTransition)
      else if !PrincipalFits(actor) then Refused(ConstraintViolated)
      else Row(row.(stage := Released, releasedBy := Some(actor)))
    case Close =>
      if row.stage != Completed && row.stage != Released then Refused(InvalidTransition)
      else if !PrincipalFits(actor) then Refused(ConstraintViolated)
      else Row(row.(stage := Closed, closedBy := Some(actor)))
    case Unknown => Refused(InvalidTransition)
  }

  function Transition(r: Register, id: string, actor: string, action: Action, note: string): Result {
    if id !in r.inspections then Err(NotFound)
    else match Move(r.inspections[id], OpenCritical(r, id) != {}, actor, action, note)
      case Refused(e) => Err(e)
      case Row(row) => Ok(r.(inspections := r.inspections[id := row]))
  }

  function Schedule(r: Register, id: string, codes: set<string>): Result {
    if id in r.inspections then Err(ConstraintViolated)
    else Ok(r.(inspections := r.inspections[id := Inspection(Scheduled, codes, None, None, None, None, None)]))
  }

  /** The CHECKs on a deficiency row: formats, lengths, and a deadline unless MINOR. */
  predicate FindingFits(id: string, f: Finding) {
    && Text.IsIdentifier(id, 128) && Text.IsIdentifier(f.code, 64) && 1 <= |f.description| <= 1000
    && (f.deadline.Some? || f.severity == Minor) && PrincipalFits(f.recordedBy)
  }

  /** The inspection's stage is not looked at. */
  function Record(r: Register, id: string, inspection: string, f: Finding): Result {
    if inspection !in r.inspections then Err(NotFound)
    else if f.code !in r.inspections[inspection].codes then Err(InvalidTransition)
    else if id in r.deficiencies || !FindingFits(id, f) then Err(ConstraintViolated)
    else Ok(r.(deficiencies := r.deficiencies[id := Deficiency(inspection, f, Open, None, None)]))
  }

  function Resolve(r: Register, id: string, actor: string, action: DeficiencyAction): Result {
    if id !in r.deficiencies then Err(NotFound)
    else
      var row := r.deficiencies[id];
      if action == MarkRectified && row.stage == Open then
        if !PrincipalFits(actor) then Err(ConstraintViolated)
        else Ok(r.(deficiencies := r.deficiencies[id := row.(stage := Rectified, rectifiedBy := Some(actor))]))
      else if action == Verify && row.stage == Rectified then
        if row.rectifiedBy == Some(actor) then Err(MakerChecker)
        else if !PrincipalFits(actor) then Err(ConstraintViolated)
        else Ok(r.(deficiencies := r.deficiencies[id := row.(stage := Verified, verifiedBy := Some(actor))]))
      else Err(InvalidTransition)
  }

  // ---- The store ----

  class Store {
    var inspections: map<string, Inspection>
    var deficiencies: map<string, Deficiency>

    ghost function View(): Register
      reads this
    {
      Register(inspections, deficiencies)
    }

    constructor ()
      ensures View() == EMPTY
    {
      inspections, deficiencies := map[], map[];
    }

    method TransitionInspection(id: string, actor: string, action: Action, note: string) returns (error: Option<Error>)
      modifies this`inspections
      ensures match Transition(old(View()), id, actor, action, note)
              case Ok(r) => error == None && View() == r
              case Err(e) => error == Some(e) && View() == old(View())
    {
      hide PrincipalFits, OpenCritical, Text.TrimSpace;
      if id !in inspections { return Some(NotFound); }
      var row := inspections[id];
      match action {
      case Start =>
        if row.stage != Scheduled { return Some(InvalidTransition); }
        row := row.(stage := InProgress);
      case Complete =>
        if row.stage != InProgress { return Some(InvalidTransition); }
        row := row.(stage := Completed);
      case Detain =>
        if row.stage != InProgress && row.stage != Completed { return Some(InvalidTransition); }
        if Text.TrimSpace(note) == "" { return Some(InvalidTransition); }
        if !PrincipalFits(actor) || |note| > 1000 { return Some(ConstraintViolated); }
        row := row.(stage := Detained, detainedBy := Some(actor), grounds := Some(note));
      case Rectify =>
        if row.stage != Detained { return Some(InvalidTransition); }
        if !PrincipalFits(actor) { return Some(ConstraintViolated); }
        row := row.(stage := Rectification, rectificationBy := Some(actor));
      case Release =>
        if row.stage != Rectification { return Some(InvalidTransition); }
        if row.detainedBy == Some(actor) { return Some(MakerChecker); }
        if OpenCritical(Register(inspections, deficiencies), id) != {} { return Some(InvalidTransition); }
        if !PrincipalFits(actor) { return Some(ConstraintViolated); }
        row := row.(stage := Released, releasedBy := Some(actor));
      case Close =>
        if row.stage != Completed && row.stage != Released { return Some(InvalidTransition); }
        if !PrincipalFits(actor) { return Some(ConstraintViolated); }
        row := row.(stage := Closed, closedBy := Some(actor));
      case Unknown => return Some(InvalidTransition);
      }
      inspections := inspections[id := row];
      return None;
    }

    method RecordDeficiency(id: string, inspection: string, f: Finding) returns (error: Option<Error>)
      modifies this`deficiencies
      ensures match Record(old(View()), id, inspection, f)
              case Ok(r) => error == None && View() == r
              case Err(e) => error == Some(e) && View() == old(View())
    {
      hide FindingFits;
      if inspection !in inspections { return Some(NotFound); }
      if f.code !in inspections[inspection].codes { return Some(InvalidTransition); }
      if id in deficiencies || !FindingFits(id, f) { return Some(ConstraintViolated); }
      deficiencies := deficiencies[id := Deficiency(inspection, f, Open, None, None)];
      return None;
    }

    method TransitionDeficiency(id: string, actor: string, action: DeficiencyAction) returns (error: Option<Error>)
      modifies this`deficiencies
      ensures match Resolve(old(View()), id, actor, action)
              case Ok(r) => error == None && View() == r
              case Err(e) => error == Some(e) && View() == old(View())
    {
      hide PrincipalFits;
      if id !in deficiencies { return Some(NotFound); }
      var row := deficiencies[id];
      if action == MarkRectified && row.stage == Open {
        row := row.(stage := Rectified, rectifiedBy := Some(actor));
      } else if action == Verify && row.stage == Rectified {
        if row.rectifiedBy == Some(actor) { return Some(MakerChecker); }
        row := row.(stage := Verified, verifiedBy := Some(actor));
      } else {
        return Some(InvalidTransition);
      }
      if !PrincipalFits(actor) { return Some(ConstraintViolated); }
      deficiencies := deficiencies[id := row];
      return None;
    }
  }

  // ---- What every row satisfies ----

  /** The table's lifecycle and release-checker CHECKs, and that a detention is
      only ever left through a release. */
  ghost predicate Coherent(i: Inspection) {
    && (i.detainedBy.Some? <==> i.stage in {Detained, Rectification, Released} || (i.stage == Closed && i.releasedBy.Some?))
    && (i.rectificationBy.Some? ==> i.stage in {Rectification, Released, Closed})
    && (i.releasedBy.Some? ==> i.stage in {Released, Closed} && i.releasedBy != i.detainedBy)
    && (i.stage == Released ==> i.releasedBy.Some?)
    && (i.closedBy.Some? <==> i.stage == Closed)
  }

  ghost predicate DeficiencyOk(d: Deficiency) {
    && (d.rectifiedBy.Some? <==> d.stage != Open)
    && (d.verifiedBy.Some? <==> d.stage == Verified)
    && (d.stage == Verified ==> d.verifiedBy != d.rectifiedBy)
    && (d.finding.deadline.None? ==> d.finding.severity == Minor)
  }

  ghost predicate Inv(r: Register) {
    && (forall i :: i in r.inspections ==> Coherent(r.inspections[i]))
    && (forall d :: d in r.deficiencies ==> DeficiencyOk(r.deficiencies[d]) && r.deficiencies[d].inspection in r.inspections)
  }

  // ---- Runs ----

  datatype Step =
    | DoSchedule(id: string, codes: set<string>)
    | DoTransition(id: string, actor: string, action: Action, note: string)
    | DoRecord(id: string, inspection: string, finding: Finding)
    | DoResolve(id: string, actor: string, how: DeficiencyAction)

  function Outcome(r: Register, step: Step): Result {
    match step
    case DoSchedule(id, codes) => Schedule(r, id, codes)
    case DoTransition(id, actor, action, note) => Transition(r, id, actor, action, note)
    case DoRecord(id, inspection, finding) => Record(r, id, inspection, finding)
    case DoResolve(id, actor, how) => Resolve(r, id, actor, how)
  }

  function Next(r: Register, step: Step): Register {
    match Outcome(r, step) case Ok(t) => t case Err(_) => r
  }

  ghost function After(steps: seq<Step>): Register {
    if steps == [] then EMPTY else Next(After(steps[..|steps| - 1]), steps[|steps| - 1])
  }

  lemma MoveKeepsCoherent(i: Inspection, blocked: bool, actor: string, action: Action, note: string)
    requires Coherent(i)
    ensures var u := Move(i, blocked, actor, action, note); u.Row? ==> Coherent(u.row)
  {
    hide PrincipalFits, Text.TrimSpace;
  }

  lemma NextKeepsInv(r: Register, step: Step)
    requires Inv(r)
    ensures Inv(Next(r, step))
  {
    hide PrincipalFits, Text.TrimSpace, OpenCritical;
    if step.DoTransition? && step.id in r.inspections {
      MoveKeepsCoherent(r.inspections[step.id], OpenCritical(r, step.id) != {}, step.actor, step.action, step.note);
      hide Move, Coherent;
    }
  }

  lemma {:induction false} RunKeepsInv(steps: seq<Step>)
    ensures Inv(After(steps))
  {
    if steps != [] {
      hide Next;
      RunKeepsInv(steps[..|steps| - 1]);
      NextKeepsInv(After(steps[..|steps| - 1]), steps[|steps| - 1]);
    }
  }

  // ---- What no step takes back ----

  /** A VERIFIED deficiency never changes again. */
  lemma VerifiedForGood(r: Register, step: Step, d: string)
    requires d in r.deficiencies && r.deficiencies[d].stage == Verified
    ensures d in Next(r, step).deficiencies && Next(r, step).deficiencies[d] == r.deficiencies[d]
  {
    hide PrincipalFits, Move, OpenCritical;
  }

  /** A release is never taken back, nor is the detention it ended. */
  lemma ReleasedForGood(r: Register, step: Step, i: string)
    requires Inv(r) && i in r.inspections && r.inspections[i].releasedBy.Some?
    ensures i in Next(r, step).inspections
    ensures Next(r, step).inspections[i].releasedBy == r.inspections[i].releasedBy
    ensures Next(r, step).inspections[i].detainedBy == r.inspections[i].detainedBy
  {
    hide PrincipalFits, OpenCritical, Text.TrimSpace;
    assert Coherent(r.inspections[i]);
  }

  /** Only a release step releases. */
  lemma OnlyReleaseReleases(r: Register, step: Step, i: string)
    requires Inv(r) && i in Next(r, step).inspections && Next(r, step).inspections[i].releasedBy.Some?
    requires i in r.inspections ==> r.inspections[i].releasedBy.None?
    ensures i in r.inspections && step.DoTransition? && step.id == i && step.action == Release
    ensures r.inspections[i].stage == Rectification && r.inspections[i].detainedBy.Some?
    ensures r.inspections[i].detainedBy != Some(step.actor) && OpenCritical(r, i) == {}
    ensures Next(r, step).deficiencies == r.deficiencies
    ensures Next(r, step).inspections[i] == r.inspections[i].(stage := Released, releasedBy := Some(step.actor))
  {
    hide PrincipalFits, OpenCritical, Text.TrimSpace;
    assert i in r.inspections ==> Coherent(r.inspections[i]);
  }

  lemma OnlyDetainDetains(r: Register, step: Step, i: string)
    requires i in Next(r, step).inspections && Next(r, step).inspections[i].detainedBy.Some?
    requires i in r.inspections ==> r.inspections[i].detainedBy != Next(r, step).inspections[i].detainedBy
    ensures step.DoTransition? && step.id == i && step.action == Detain
    ensures Next(r, step).inspections[i].detainedBy == Some(step.actor)
  {
    hide PrincipalFits, OpenCritical, Text.TrimSpace;
  }

  // ---- The release theorem ----

  ghost predicate DetainedAt(steps: seq<Step>, j: nat, i: string, who: string) {
    j < |steps| && steps[j].DoTransition? && steps[j].id == i && steps[j].action == Detain && steps[j].actor == who
  }

  lemma {:induction false} DetentionHasAStep(steps: seq<Step>, i: string)
    requires i in After(steps).inspections && After(steps).inspections[i].detainedBy.Some?
    ensures exists j :: DetainedAt(steps, j, i, After(steps).inspections[i].detainedBy.value)
  {
    var n := |steps| - 1;
    var r := After(steps[..n]);
    var who := After(steps).inspections[i].detainedBy.value;
    assert After(steps) == Next(r, steps[n]);
    hide After, Next;
    if i in r.inspections && r.inspections[i].detainedBy == Some(who) {
      DetentionHasAStep(steps[..n], i);
      var j :| DetainedAt(steps[..n], j, i, who);
      assert DetainedAt(steps, j, i, who);
    } else {
      OnlyDetainDetains(r, steps[n], i);
      assert DetainedAt(steps, n, i, who);
    }
  }

  /** At step `k` the inspection was released, by someone other than its detainer;
      every CRITICAL deficiency that it had then is VERIFIED, unchanged since, and
      was verified by someone other than its rectifier. */
  ghost predicate ReleasedAt(steps: seq<Step>, k: nat, i: string, now: Register) {
    && k < |steps| && i in now.inspections
    && var past := After(steps[..k]);
    && steps[k].DoTransition? && steps[k].id == i && steps[k].action == Release
    && i in past.inspections && past.inspections[i].stage == Rectification
    && now.inspections[i].releasedBy == Some(steps[k].actor)
    && now.inspections[i].detainedBy == past.inspections[i].detainedBy
    && past.inspections[i].detainedBy.Some? && past.inspections[i].detainedBy != Some(steps[k].actor)
    && (exists j :: 0 <= j < k && DetainedAt(steps, j, i, past.inspections[i].detainedBy.value))
    && forall d :: d in past.deficiencies && past.deficiencies[d].inspection == i && past.deficiencies[d].finding.severity == Critical ==>
         SignedOff(past, now, d)
  }

  ghost predicate SignedOff(past: Register, now: Register, d: string)
    requires d in past.deficiencies
  {
    && d in now.deficiencies && now.deficiencies[d] == past.deficiencies[d] && now.deficiencies[d].stage == Verified
    && now.deficiencies[d].rectifiedBy.Some? && now.deficiencies[d].verifiedBy.Some?
    && now.deficiencies[d].rectifiedBy != now.deficiencies[d].verifiedBy
  }

  /** In every run, every inspection that carries a release was properly released. */
  lemma {:induction false} ReleaseTheorem(steps: seq<Step>, i: string)
    requires i in After(steps).inspections && After(steps).inspections[i].releasedBy.Some?
    ensures exists k :: ReleasedAt(steps, k, i, After(steps))
  {
    var n := |steps| - 1;
    var r := After(steps[..n]);
    assert After(steps) == Next(r, steps[n]);
    RunKeepsInv(steps[..n]);
    hide After, Next;
    if i in r.inspections && r.inspections[i].releasedBy.Some? {
      ReleaseTheorem(steps[..n], i);
      var k :| ReleasedAt(steps[..n], k, i, r);
      StillReleased(steps, k, i, r);
      assert ReleasedAt(steps, k, i, After(steps));
    } else {
      JustReleased(steps, i, r);
      assert ReleasedAt(steps, n, i, After(steps));
    }
  }

  lemma JustReleased(steps: seq<Step>, i: string, r: Register)
    requires steps != [] && r == After(steps[..|steps| - 1]) && Inv(r)
    requires var t := Next(r, steps[|steps| - 1]); i in t.inspections && t.inspections[i].releasedBy.Some?
    requires i in r.inspections ==> r.inspections[i].releasedBy.None?
    ensures ReleasedAt(steps, |steps| - 1, i, Next(r, steps[|steps| - 1]))
  {
    var n := |steps| - 1;
    var t := Next(r, steps[n]);
    OnlyReleaseReleases(r, steps[n], i);
    hide Next, After;
    DetentionHasAStep(steps[..n], i);
    var who := r.inspections[i].detainedBy.value;
    var j :| DetainedAt(steps[..n], j, i, who);
    assert DetainedAt(steps, j, i, who);
    forall d | d in r.deficiencies && r.deficiencies[d].inspection == i && r.deficiencies[d].finding.severity == Critical
      ensures SignedOff(r, t, d)
    {
      assert d !in OpenCritical(r, i);
      assert DeficiencyOk(r.deficiencies[d]);
    }
  }

  lemma StillReleased(steps: seq<Step>, k: nat, i: string, r: Register)
    requires steps != [] && Inv(r) && ReleasedAt(steps[..|steps| - 1], k, i, r)
    ensures ReleasedAt(steps, k, i, Next(r, steps[|steps| - 1]))
  {
    var n := |steps| - 1;
    var step := steps[n];
    assert steps[..n][..k] == steps[..k];
    var past := After(steps[..k]);
    ReleasedForGood(r, step, i);
    var who := past.inspections[i].detainedBy.value;
    var j :| 0 <= j < k && DetainedAt(steps[..n], j, i, who);
    assert DetainedAt(steps, j, i, who);
    hide After, Inv;
    forall d | d in past.deficiencies && past.deficiencies[d].inspection == i && past.deficiencies[d].finding.severity == Critical
      ensures SignedOff(past, Next(r, step), d)
    {
      assert SignedOff(past, r, d);
      VerifiedForGood(r, step, d);
    }
  }

  /** A detention cannot be closed over: in every run a closed inspection that was
      detained was also released. */
  lemma DetentionEndsInRelease(steps: seq<Step>, i: string)
    requires i in After(steps).inspections
    ensures var row := After(steps).inspections[i];
            row.detainedBy.Some? && row.stage !in {Detained, Rectification} ==> row.releasedBy.Some?
  {
    RunKeepsInv(steps);
    hide After;
    assert Coherent(After(steps).inspections[i]);
  }
}
