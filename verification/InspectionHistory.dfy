/** The life of an inspection and of a deficiency, read off the committed steps. */
module InspectionHistory {
  import opened Options
  import Text
  import opened Inspections

  // ---- The path of an inspection ----

  /** The step commits a transition of the inspection. */
  ghost predicate Moves(r: Register, step: Step, i: string) {
    step.DoTransition? && step.id == i && Outcome(r, step).Ok?
  }

  /** The committed actions on an inspection, in order. */
  ghost function Path(steps: seq<Step>, i: string): seq<Action> {
    if steps == [] then []
    else
      var n := |steps| - 1;
      Path(steps[..n], i) + if Moves(After(steps[..n]), steps[n], i) then [steps[n].action] else []
  }

  /** Who last committed the action on the inspection, and with which note. */
  ghost function LastBy(steps: seq<Step>, i: string, action: Action): Option<(string, string)> {
    if steps == [] then None
    else
      var n := |steps| - 1;
      if Moves(After(steps[..n]), steps[n], i) && steps[n].action == action then Some((steps[n].actor, steps[n].note))
      else LastBy(steps[..n], i, action)
  }

  /** The ways to a stage: started, perhaps completed, perhaps detained, rectified and
      released, and closed at the end. */
  ghost predicate LeadsTo(path: seq<Action>, stage: Stage) {
    match stage
    case Scheduled => path == []
    case InProgress => path == [Start]
    case Completed => path == [Start, Complete]
    case Detained => path == [Start, Detain] || path == [Start, Complete, Detain]
    case Rectification => path == [Start, Detain, Rectify] || path == [Start, Complete, Detain, Rectify]
    case Released => path == [Start, Detain, Rectify, Release] || path == [Start, Complete, Detain, Rectify, Release]
    case Closed =>
      || path == [Start, Complete, Close] || path == [Start, Detain, Rectify, Release, Close]
      || path == [Start, Complete, Detain, Rectify, Release, Close]
  }

  ghost predicate Leads(path: seq<Action>) { exists stage :: LeadsTo(path, stage) }

  /** The row of an inspection with this path, by these principals. */
  ghost predicate RowFollows(row: Inspection, steps: seq<Step>, i: string) {
    && LeadsTo(Path(steps, i), row.stage)
    && row.detainedBy == Who(LastBy(steps, i, Detain)) && row.grounds == Note(LastBy(steps, i, Detain))
    && row.rectificationBy == Who(LastBy(steps, i, Rectify))
    && row.releasedBy == Who(LastBy(steps, i, Release)) && row.closedBy == Who(LastBy(steps, i, Close))
  }

  function Who(o: Option<(string, string)>): Option<string> { if o.Some? then Some(o.value.0) else None }
  function Note(o: Option<(string, string)>): Option<string> { if o.Some? then Some(o.value.1) else None }

  lemma MoveExtendsPath(row: Inspection, blocked: bool, actor: string, action: Action, note: string, path: seq<Action>)
    requires LeadsTo(path, row.stage) && Move(row, blocked, actor, action, note).Row?
    ensures var after := Move(row, blocked, actor, action, note).row;
            && LeadsTo(path + [action], after.stage) && after.codes == row.codes
            && after.detainedBy == (if action == Detain then Some(actor) else row.detainedBy)
            && after.grounds == (if action == Detain then Some(note) else row.grounds)
            && after.rectificationBy == (if action == Rectify then Some(actor) else row.rectificationBy)
            && after.releasedBy == (if action == Release then Some(actor) else row.releasedBy)
            && after.closedBy == (if action == Close then Some(actor) else row.closedBy)
  {
    hide PrincipalFits, Text.TrimSpace;
  }

  lemma InspectionStep(r: Register, step: Step, i: string)
    ensures var t := Next(r, step);
            && (Moves(r, step, i) ==>
                  && i in r.inspections && i in t.inspections
                  && var m := Move(r.inspections[i], OpenCritical(r, i) != {}, step.actor, step.action, step.note);
                     m.Row? && t.inspections[i] == m.row)
            && (!Moves(r, step, i) && i in r.inspections ==> i in t.inspections && t.inspections[i] == r.inspections[i])
            && (i !in r.inspections && i in t.inspections ==>
                  t.inspections[i] == Inspection(Scheduled, t.inspections[i].codes, None, None, None, None, None))
  {
    hide Move, OpenCritical, PrincipalFits, FindingFits;
  }

  /** In every run, an inspection's committed actions are one of the ways to its stage,
      and its row names who committed them. */
  lemma {:induction false} LifecycleTheorem(steps: seq<Step>, i: string)
    ensures i in After(steps).inspections ==>
              RowFollows(After(steps).inspections[i], steps, i)
    ensures i !in After(steps).inspections ==> Path(steps, i) == [] && forall a :: LastBy(steps, i, a) == None
  {
    if steps != [] {
      var n := |steps| - 1;
      var r, step := After(steps[..n]), steps[n];
      assert After(steps) == Next(r, step);
      LifecycleTheorem(steps[..n], i);
      InspectionStep(r, step, i);
      hide Next, Moves, Move, OpenCritical, After;
      if Moves(r, step, i) {
        MoveExtendsPath(r.inspections[i], OpenCritical(r, i) != {}, step.actor, step.action, step.note, Path(steps[..n], i));
      } else {
        assert Path(steps[..n], i) + [] == Path(steps[..n], i);
        forall a ensures LastBy(steps, i, a) == LastBy(steps[..n], i, a) {}
      }
    }
  }

  /** In every run, an action on an inspection is committed exactly when it continues a
      way to a stage and its guard holds: grounds for a detention, and for a release
      another principal than the detainer and every CRITICAL deficiency VERIFIED. */
  lemma MovesExactlyWhen(steps: seq<Step>, i: string, actor: string, action: Action, note: string)
    ensures var r := After(steps);
            Transition(r, i, actor, action, note).Ok? <==>
            && i in r.inspections && action != Unknown && Leads(Path(steps, i) + [action])
            && (action in {Detain, Rectify, Release, Close} ==> 1 <= |actor| <= 512)
            && (action == Detain ==> Text.TrimSpace(note) != "" && |note| <= 1000)
            && (action == Release ==> r.inspections[i].detainedBy != Some(actor) && CriticalVerified(r, i))
  {
    var r := After(steps);
    NoneOpen(r, i);
    LifecycleTheorem(steps, i);
    if i in r.inspections {
      assert LeadsTo(Path(steps, i), r.inspections[i].stage);
      hide After, Path, LastBy, Leads, LeadsTo, OpenCritical, CriticalVerified, Text.TrimSpace, Move;
      LeadsExactlyWhen(Path(steps, i), r.inspections[i].stage, action);
      MoveAccepted(r.inspections[i], OpenCritical(r, i) != {}, actor, action, note);
    }
  }

  ghost predicate CriticalVerified(r: Register, i: string) {
    forall d :: d in r.deficiencies && r.deficiencies[d].inspection == i && r.deficiencies[d].finding.severity == Critical ==>
      r.deficiencies[d].stage == Verified
  }

  lemma NoneOpen(r: Register, i: string)
    ensures OpenCritical(r, i) == {} <==> CriticalVerified(r, i)
  {
    if !CriticalVerified(r, i) {
      var d :| && d in r.deficiencies && r.deficiencies[d].inspection == i
               && r.deficiencies[d].finding.severity == Critical && r.deficiencies[d].stage != Verified;
      assert d in OpenCritical(r, i);
    }
  }

  lemma MoveAccepted(row: Inspection, blocked: bool, actor: string, action: Action, note: string)
    ensures Move(row, blocked, actor, action, note).Row? <==>
            && LeadsFrom(row.stage, action)
            && (action in {Detain, Rectify, Release, Close} ==> 1 <= |actor| <= 512)
            && (action == Detain ==> Text.TrimSpace(note) != "" && |note| <= 1000)
            && (action == Release ==> row.detainedBy != Some(actor) && !blocked)
  {
    hide Text.TrimSpace;
  }

  /** Why a transition is refused: the maker/checker error exactly for a release out of
      rectification by the detainer, a violated CHECK only behind all other guards. */
  lemma TransitionErrors(r: Register, i: string, actor: string, action: Action, note: string)
    ensures var t := Transition(r, i, actor, action, note);
            && (t == Err(NotFound) <==> i !in r.inspections)
            && (t == Err(MakerChecker) <==>
                  && i in r.inspections && action == Release && r.inspections[i].stage == Rectification
                  && r.inspections[i].detainedBy == Some(actor))
            && (t == Err(ConstraintViolated) ==>
                  action in {Detain, Rectify, Release, Close} && (!(1 <= |actor| <= 512) || (action == Detain && |note| > 1000)))
            && (t == Err(InvalidTransition) ==>
                  || action == Unknown || !LeadsFrom(r.inspections[i].stage, action)
                  || (action == Detain && Text.TrimSpace(note) == "") || (action == Release && !CriticalVerified(r, i)))
  {
    hide OpenCritical, CriticalVerified, Text.TrimSpace;
    NoneOpen(r, i);
  }

  predicate LeadsFrom(stage: Stage, action: Action) {
    || (action == Start && stage == Scheduled) || (action == Complete && stage == InProgress)
    || (action == Detain && stage in {InProgress, Completed}) || (action == Rectify && stage == Detained)
    || (action == Release && stage == Rectification) || (action == Close && stage in {Completed, Released})
  }

  /** From each stage exactly these actions lead on. */
  lemma LeadsExactlyWhen(path: seq<Action>, stage: Stage, action: Action)
    requires LeadsTo(path, stage)
    ensures Leads(path + [action]) <==> LeadsFrom(stage, action)
  {
    var p := path + [action];
    Snoc(path, action, [], Start);
    Snoc(path, action, [Start], Complete);
    Snoc(path, action, [Start], Detain);
    Snoc(path, action, [Start, Complete], Detain);
    Snoc(path, action, [Start, Detain], Rectify);
    Snoc(path, action, [Start, Complete, Detain], Rectify);
    Snoc(path, action, [Start, Detain, Rectify], Release);
    Snoc(path, action, [Start, Complete, Detain, Rectify], Release);
    Snoc(path, action, [Start, Complete], Close);
    Snoc(path, action, [Start, Detain, Rectify, Release], Close);
    Snoc(path, action, [Start, Complete, Detain, Rectify, Release], Close);
    StageIsUnique(path, stage);
    assert LeadsTo(p, InProgress) <==> action == Start && LeadsTo(path, Scheduled);
    assert LeadsTo(p, Completed) <==> action == Complete && LeadsTo(path, InProgress);
    assert LeadsTo(p, Detained) <==> action == Detain && (LeadsTo(path, InProgress) || LeadsTo(path, Completed));
    assert LeadsTo(p, Rectification) <==> action == Rectify && LeadsTo(path, Detained);
    assert LeadsTo(p, Released) <==> action == Release && LeadsTo(path, Rectification);
    assert LeadsTo(p, Closed) <==> action == Close && (LeadsTo(path, Completed) || LeadsTo(path, Released));
    assert !LeadsTo(p, Scheduled);
    hide LeadsTo;
    forall s ensures LeadsTo(p, s) ==> s != Scheduled {}
  }

  lemma Snoc(path: seq<Action>, action: Action, front: seq<Action>, last: Action)
    ensures path + [action] == front + [last] <==> path == front && action == last
  {
    if path + [action] == front + [last] {
      assert path == (path + [action])[..|path|] && front == (front + [last])[..|front|];
      assert action == (path + [action])[|path|] && last == (front + [last])[|front|];
    }
  }

  lemma StageIsUnique(path: seq<Action>, stage: Stage)
    requires LeadsTo(path, stage)
    ensures forall other :: LeadsTo(path, other) ==> other == stage
  {}

  // ---- The life of a deficiency ----

  ghost predicate Resolves(r: Register, step: Step, d: string, how: DeficiencyAction) {
    step.DoResolve? && step.id == d && step.how == how && Outcome(r, step).Ok?
  }

  /** Who last committed the action on the deficiency. */
  ghost function ResolvedBy(steps: seq<Step>, d: string, how: DeficiencyAction): Option<string> {
    if steps == [] then None
    else
      var n := |steps| - 1;
      if Resolves(After(steps[..n]), steps[n], d, how) then Some(steps[n].actor) else ResolvedBy(steps[..n], d, how)
  }

  ghost predicate RecordedAt(steps: seq<Step>, k: nat, d: string, row: Deficiency) {
    && k < |steps| && steps[k] == DoRecord(d, row.inspection, row.finding)
    && Outcome(After(steps[..k]), steps[k]).Ok?
  }

  /** The row has the stage and the principals of the committed actions. */
  ghost predicate DeficiencyFollows(row: Deficiency, rectified: Option<string>, verified: Option<string>) {
    && row.rectifiedBy == rectified && row.verifiedBy == verified
    && (row.stage == Open <==> rectified == None && verified == None)
    && (row.stage == Rectified <==> rectified.Some? && verified == None)
    && (row.stage == Verified <==> rectified.Some? && verified.Some? && rectified != verified)
  }

  /** A finding is recorded exactly for a code of a known inspection's checklist, under
      a new id and within the CHECKs; a deficiency is rectified exactly while OPEN, and
      verified exactly while RECTIFIED, by another than the rectifier. */
  lemma ResolvedExactlyWhen(r: Register, d: string, i: string, f: Finding, actor: string, how: DeficiencyAction)
    ensures Record(r, d, i, f).Ok? <==>
            && i in r.inspections && f.code in r.inspections[i].codes && d !in r.deficiencies
            && Text.IsIdentifier(d, 128) && Text.IsIdentifier(f.code, 64) && 1 <= |f.description| <= 1000
            && (f.deadline == None ==> f.severity == Minor) && 1 <= |f.recordedBy| <= 512
    ensures Resolve(r, d, actor, how).Ok? <==>
            && d in r.deficiencies && 1 <= |actor| <= 512
            && ((how == MarkRectified && r.deficiencies[d].stage == Open) ||
                (how == Verify && r.deficiencies[d].stage == Rectified && r.deficiencies[d].rectifiedBy != Some(actor)))
  {
    hide Text.IsIdentifier;
  }

  lemma DeficiencyStep(r: Register, step: Step, d: string)
    ensures var t := Next(r, step);
            if d !in r.deficiencies then
              && !Resolves(r, step, d, MarkRectified) && !Resolves(r, step, d, Verify)
              && (d in t.deficiencies ==>
                    && step == DoRecord(d, t.deficiencies[d].inspection, t.deficiencies[d].finding) && Outcome(r, step).Ok?
                    && t.deficiencies[d].stage == Open && t.deficiencies[d].rectifiedBy == None && t.deficiencies[d].verifiedBy == None)
            else
              && d in t.deficiencies
              && var a, b := r.deficiencies[d], t.deficiencies[d];
                 && b.inspection == a.inspection && b.finding == a.finding
                 && if Resolves(r, step, d, MarkRectified) then
                      a.stage == Open && b.stage == Rectified && b.rectifiedBy == Some(step.actor) && b.verifiedBy == a.verifiedBy
                    else if Resolves(r, step, d, Verify) then
                      && a.stage == Rectified && b.stage == Verified && a.rectifiedBy != Some(step.actor)
                      && b.verifiedBy == Some(step.actor) && b.rectifiedBy == a.rectifiedBy
                    else b == a
  {
    hide Move, OpenCritical, PrincipalFits, FindingFits;
  }

  /** In every run, a deficiency is OPEN until someone rectified it, RECTIFIED until
      someone else verified it, and VERIFIED from then on; its row names both. */
  lemma {:induction false} DeficiencyTheorem(steps: seq<Step>, d: string)
    ensures d in After(steps).deficiencies ==>
              DeficiencyFollows(After(steps).deficiencies[d], ResolvedBy(steps, d, MarkRectified), ResolvedBy(steps, d, Verify))
    ensures d in After(steps).deficiencies ==> exists k: nat :: RecordedAt(steps, k, d, After(steps).deficiencies[d])
    ensures d !in After(steps).deficiencies ==>
              ResolvedBy(steps, d, MarkRectified) == None && ResolvedBy(steps, d, Verify) == None
  {
    if steps != [] {
      var n := |steps| - 1;
      var r, step := After(steps[..n]), steps[n];
      assert After(steps) == Next(r, step);
      DeficiencyTheorem(steps[..n], d);
      DeficiencyStep(r, step, d);
      assert !(Resolves(r, step, d, MarkRectified) && Resolves(r, step, d, Verify));
      hide Next, Resolves, After, Outcome;
      if d in r.deficiencies {
        var k: nat :| RecordedAt(steps[..n], k, d, r.deficiencies[d]);
        assert steps[..n][..k] == steps[..k];
        assert RecordedAt(steps, k, d, After(steps).deficiencies[d]);
      } else if d in After(steps).deficiencies {
        assert RecordedAt(steps, n, d, After(steps).deficiencies[d]);
      }
    }
  }
}
