/** Critical deficiencies recorded after an inspection was released. */
module LateDeficiencies {
  import opened Options
  import Text
  import opened Inspections

  /** No released inspection has an open CRITICAL deficiency. */
  ghost predicate NoOpenAfterRelease(r: Register) {
    forall i :: i in r.inspections && r.inspections[i].releasedBy.Some? ==> OpenCritical(r, i) == {}
  }

  /** Recording looks only at the checklist: the step records a CRITICAL deficiency
      against an inspection that was already released. */
  ghost predicate LateCritical(r: Register, step: Step) {
    && step.DoRecord? && step.finding.severity == Critical
    && step.inspection in r.inspections && r.inspections[step.inspection].releasedBy.Some?
    && Outcome(r, step).Ok?
  }

  /** No step but a recording adds to the open CRITICAL deficiencies. */
  lemma OpenCriticalShrinks(r: Register, step: Step, i: string)
    requires !(step.DoRecord? && step.inspection == i && step.finding.severity == Critical && Outcome(r, step).Ok?)
    ensures OpenCritical(Next(r, step), i) <= OpenCritical(r, i)
  {
    hide PrincipalFits, FindingFits, Move;
  }

  lemma LateCriticalStaysOpen(r: Register, step: Step)
    requires LateCritical(r, step)
    ensures !NoOpenAfterRelease(Next(r, step))
  {
    hide PrincipalFits, FindingFits;
    assert step.id in OpenCritical(Next(r, step), step.inspection);
  }

  /** The code keeps released inspections free of open CRITICAL deficiencies in exactly
      the steps that do not record one after the release. */
  lemma ReleasesStayClearExactlyWhen(r: Register, step: Step)
    requires Inv(r) && NoOpenAfterRelease(r)
    ensures NoOpenAfterRelease(Next(r, step)) <==> !LateCritical(r, step)
  {
    if LateCritical(r, step) {
      LateCriticalStaysOpen(r, step);
    } else {
      var t := Next(r, step);
      forall i | i in t.inspections && t.inspections[i].releasedBy.Some? ensures OpenCritical(t, i) == {} {
        ClearAfterStep(r, step, i);
      }
    }
  }

  lemma ClearAfterStep(r: Register, step: Step, i: string)
    requires Inv(r) && NoOpenAfterRelease(r) && !LateCritical(r, step)
    requires i in Next(r, step).inspections && Next(r, step).inspections[i].releasedBy.Some?
    ensures OpenCritical(Next(r, step), i) == {}
  {
    hide Inv, OpenCritical;
    if i in r.inspections && r.inspections[i].releasedBy.Some? {
      OpenCriticalShrinks(r, step, i);
    } else {
      OnlyReleaseReleases(r, step, i);
      OpenCriticalShrinks(r, step, i);
    }
  }

  ghost predicate ClearAt(steps: seq<Step>, k: nat)
    requires k <= |steps|
  {
    NoOpenAfterRelease(After(steps[..k]))
  }

  ghost predicate LateAt(steps: seq<Step>, k: nat)
    requires k < |steps|
  {
    LateCritical(After(steps[..k]), steps[k])
  }

  lemma ClearStep(steps: seq<Step>, k: nat)
    requires k < |steps| && ClearAt(steps, k)
    ensures ClearAt(steps, k + 1) <==> !LateAt(steps, k)
  {
    assert steps[..k + 1] == steps[..k] + [steps[k]];
    AfterOne(steps[..k], steps[k]);
    RunKeepsInv(steps[..k]);
    hide After, Next, Inv, NoOpenAfterRelease, LateCritical;
    ReleasesStayClearExactlyWhen(After(steps[..k]), steps[k]);
  }

  /** At every point of a run all releases are clear, if and only if no step of the
      run records a CRITICAL deficiency after a release. */
  lemma RunStaysClearExactlyWhen(steps: seq<Step>)
    ensures (forall k :: 0 <= k <= |steps| ==> ClearAt(steps, k)) <==> (forall k :: 0 <= k < |steps| ==> !LateAt(steps, k))
  {
    NothingIsOpenYet();
    assert ClearAt(steps, 0);
    hide ClearAt, LateAt;
    if forall k :: 0 <= k < |steps| ==> !LateAt(steps, k) {
      forall k | 0 <= k <= |steps| ensures ClearAt(steps, k) { ClearUpTo(steps, k); }
    } else {
      var k :| 0 <= k < |steps| && LateAt(steps, k);
      if ClearAt(steps, k) { ClearStep(steps, k); }
    }
  }

  lemma {:induction false} ClearUpTo(steps: seq<Step>, k: nat)
    requires k <= |steps| && ClearAt(steps, 0) && forall j :: 0 <= j < |steps| ==> !LateAt(steps, j)
    ensures ClearAt(steps, k)
  {
    hide ClearAt, LateAt;
    if k > 0 {
      ClearUpTo(steps, k - 1);
      ClearStep(steps, k - 1);
    }
  }

  lemma NothingIsOpenYet()
    ensures NoOpenAfterRelease(After([]))
  {}

  const LATE: seq<Step> := [
    DoSchedule("i", {"c"}), DoTransition("i", "ana", Start, ""), DoTransition("i", "ana", Detain, "grounds"),
    DoTransition("i", "ana", Rectify, ""), DoTransition("i", "bea", Release, ""),
    DoRecord("d", "i", Finding("c", "cracked hull", Critical, Some(0), "ana"))]

  function LateRow(stage: Stage): Inspection {
    var detained := stage in {Detained, Rectification, Released};
    Inspection(stage, {"c"}, if detained then Some("ana") else None, if detained then Some("grounds") else None,
      if stage in {Rectification, Released} then Some("ana") else None,
      if stage == Released then Some("bea") else None, None)
  }

  lemma AfterOne(steps: seq<Step>, step: Step)
    ensures After(steps + [step]) == Next(After(steps), step)
  {
    assert (steps + [step])[..|steps|] == steps;
  }

  lemma LateStep(k: nat, from: Stage, to: Stage)
    requires 1 <= k < 5 && After(LATE[..k]) == Register(map["i" := LateRow(from)], map[])
    requires LATE[k].DoTransition? && LATE[k].id == "i"
    requires Move(LateRow(from), false, LATE[k].actor, LATE[k].action, LATE[k].note) == Row(LateRow(to))
    ensures After(LATE[..k + 1]) == Register(map["i" := LateRow(to)], map[])
  {
    assert LATE[..k + 1] == LATE[..k] + [LATE[k]];
    AfterOne(LATE[..k], LATE[k]);
    hide After, Move, LateRow, Next;
    MoveAlone(LateRow(from), LateRow(to), LATE[k]);
  }

  /** A step of the only inspection, without deficiencies. */
  lemma MoveAlone(before: Inspection, after: Inspection, step: Step)
    requires step.DoTransition? && step.id == "i"
    requires Move(before, false, step.actor, step.action, step.note) == Row(after)
    ensures Next(Register(map["i" := before], map[]), step) == Register(map["i" := after], map[])
  {
    hide Move;
    assert OpenCritical(Register(map["i" := before], map[]), "i") == {};
  }

  lemma LateMoves()
    ensures Move(LateRow(Scheduled), false, "ana", Start, "") == Row(LateRow(InProgress))
    ensures Move(LateRow(InProgress), false, "ana", Detain, "grounds") == Row(LateRow(Detained))
    ensures Move(LateRow(Detained), false, "ana", Rectify, "") == Row(LateRow(Rectification))
    ensures Move(LateRow(Rectification), false, "bea", Release, "") == Row(LateRow(Released))
  {
    assert Text.TrimSpace("grounds") == "grounds";
    hide Text.TrimSpace;
  }

  lemma LateSchedule()
    ensures After(LATE[..1]) == Register(map["i" := LateRow(Scheduled)], map[])
  {
    AfterOne([], LATE[0]);
    assert LATE[..1] == [] + [LATE[0]];
    assert After([]) == EMPTY;
  }

  lemma LateRelease()
    ensures After(LATE[..5]) == Register(map["i" := LateRow(Released)], map[])
  {
    hide After, Move, LateRow;
    LateSchedule();
    LateMoves();
    LateStep(1, Scheduled, InProgress);
    LateStep(2, InProgress, Detained);
    LateStep(3, Detained, Rectification);
    LateStep(4, Rectification, Released);
  }

  /** A run in which a released inspection ends with an open CRITICAL deficiency. */
  lemma DeficiencyAfterRelease()
    ensures "i" in After(LATE).inspections && After(LATE).inspections["i"].stage == Released
    ensures "d" in OpenCritical(After(LATE), "i") && !NoOpenAfterRelease(After(LATE))
  {
    LateRelease();
    AfterOne(LATE[..5], LATE[5]);
    assert LATE[..5] + [LATE[5]] == LATE;
    hide After;
    assert Text.IsIdentifier("d", 128) && Text.IsIdentifier("c", 64);
    LateCriticalStaysOpen(After(LATE[..5]), LATE[5]);
  }
}
