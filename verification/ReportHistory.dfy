/** The state of every annual report, read off the log of committed operations. */
module ReportHistory {
  import opened Options
  import opened AnnualReports

  // ---- The log records what was asked for ----

  /** The entry a committed action leaves. */
  ghost predicate Records(e: Entry, l: Ledger, a: Action) {
    match a
    case DoCompile(maker, imo, year, content, newId) =>
      && content.Some? && e.Compiled? && e.actor == maker && e.content == content.value
      && e.id == (if (imo, year) in l.byShipYear && l.byShipYear[(imo, year)] in l.reports then l.byShipYear[(imo, year)] else newId)
    case DoSubmit(who, id) => id in l.reports && e == Submission(id, who, l.reports[id].content)
    case DoDecide(checker, id, decision, _) => e == Decided(id, checker, decision)
    case DoIssue(issuer, id) => id in l.reports && e == Issued(id, issuer, l.reports[id].content)
  }

  lemma NextLogs(l: Ledger, a: Action)
    ensures var t := Next(l, a);
            if Attempt(l, a).Err? then t == l
            else |t.log| == |l.log| + 1 && t.log[..|l.log|] == l.log && Records(t.log[|l.log|], l, a)
  {
    hide Blank;
  }

  // ---- The last step of a report ----

  /** The last operation on the report other than the issue of its statement. */
  ghost function LastStep(log: seq<Entry>, id: string): Option<Entry> {
    if log == [] then None
    else
      var e := log[|log| - 1];
      if e.id == id && !e.Issued? then Some(e) else LastStep(log[..|log| - 1], id)
  }

  /** The report's row says what its last operation left it in. */
  ghost predicate Follows(r: Report, e: Entry) {
    && !e.Issued?
    && (r.state == Draft <==> e.Compiled?)
    && (r.state == Submitted <==> e.Submission? || (e.Decided? && e.decision == Clarify))
    && (r.state == Verified <==> e.Decided? && e.decision == Verify)
    && (r.state == Rejected <==> e.Decided? && e.decision == Reject)
    && (e.Compiled? ==> r.compiledBy == e.actor && r.content == e.content && r.submittedBy == None)
    && (e.Submission? ==> r.submittedBy == Some(e.actor) && r.compiledBy == e.actor && r.content == e.content)
    && (e.Decided? ==> r.submittedBy.Some? && r.submittedBy != Some(e.actor))
  }

  ghost predicate FollowsLog(l: Ledger, id: string) {
    && (id in l.reports <==> LastStep(l.log, id).Some?)
    && (id in l.reports ==> Follows(l.reports[id], LastStep(l.log, id).value))
  }

  lemma LastStepSnoc(log: seq<Entry>, e: Entry, id: string)
    ensures LastStep(log + [e], id) == if e.id == id && !e.Issued? then Some(e) else LastStep(log, id)
  {
    assert (log + [e])[..|log|] == log;
  }

  /** How one committed action changes one report. */
  lemma RowChanges(l: Ledger, a: Action, id: string)
    requires FollowsLog(l, id) && Attempt(l, a).Ok?
    requires a.DoCompile? ==> a.newId !in l.reports
    ensures var t := Next(l, a);
            var e := t.log[|t.log| - 1];
            if e.id == id && !e.Issued? then id in t.reports && Follows(t.reports[id], e)
            else (id in t.reports <==> id in l.reports) && (id in l.reports ==> t.reports[id] == l.reports[id])
  {
    hide Blank, LastStep;
  }

  lemma NextFollowsLog(l: Ledger, a: Action, id: string)
    requires FollowsLog(l, id) && (a.DoCompile? ==> a.newId !in l.reports)
    ensures FollowsLog(Next(l, a), id)
  {
    NextLogs(l, a);
    if Attempt(l, a).Ok? {
      var t := Next(l, a);
      RowChanges(l, a, id);
      hide Next, Attempt, Records, Follows;
      var e := t.log[|t.log| - 1];
      assert t.log == l.log + [e];
      LastStepSnoc(l.log, e, id);
    }
  }

  /** In every run: a report is a DRAFT, SUBMITTED, VERIFIED or REJECTED exactly as its
      last operation says, where a clarification sends it back to SUBMITTED; and whoever
      decided it was not its submitter. */
  lemma {:induction false} StateFollowsTheLog(actions: seq<Action>, id: string)
    requires FreshIds(actions)
    ensures FollowsLog(After(actions), id)
  {
    if actions != [] {
      hide Next, After, FreshIds, FollowsLog;
      var n := |actions| - 1;
      FreshPrefix(actions, n);
      FreshLast(actions);
      AfterStep(actions);
      StateFollowsTheLog(actions[..n], id);
      NextFollowsLog(After(actions[..n]), actions[n], id);
    }
  }

  // ---- Exactly what is accepted ----

  /** The principal may act: not blank, and it fits its column. */
  predicate MayAct(actor: string) { !Blank(actor) && |actor| <= 512 }

  ghost predicate HasIssue(log: seq<Entry>, id: string) { exists n :: 0 <= n < |log| && IsIssued(log[n], id) }

  /** The report id of a ship and year, if there is one. */
  ghost predicate IsReportOf(l: Ledger, imo: string, year: int, id: string) {
    id in l.reports && l.reports[id].imo == imo && l.reports[id].year == year
  }

  /** In every run, an operation is accepted exactly when the log calls for it: a
      compile while the ship's report, if any, was only compiled so far; a submission by
      the last compiler; a decision by another than the submitter, with a reason unless it
      is VERIFY, after a submission or a clarification; and an issue after VERIFY, once. */
  lemma AcceptedExactlyWhen(actions: seq<Action>, a: Action)
    requires FreshIds(actions)
    ensures var l := After(actions);
            Attempt(l, a).Ok? <==>
            match a
            case DoCompile(maker, imo, year, content, _) =>
              && 2019 <= year <= 2200 && content.Some? && MayAct(maker)
              && forall id :: IsReportOf(l, imo, year, id) ==> LastStep(l.log, id).Some? && LastStep(l.log, id).value.Compiled?
            case DoSubmit(who, id) =>
              MayAct(who) && var e := LastStep(l.log, id); e.Some? && e.value.Compiled? && e.value.actor == who
            case DoDecide(checker, id, decision, reason) =>
              && MayAct(checker) && |reason| <= 1024 && (decision != Verify ==> !Blank(reason))
              && id in l.reports
              && (var e := LastStep(l.log, id);
                  && e.Some? && (e.value.Submission? || (e.value.Decided? && e.value.decision == Clarify))
                  && l.reports[id].submittedBy != Some(checker))
            case DoIssue(issuer, id) =>
              && MayAct(issuer) && !HasIssue(l.log, id)
              && (var e := LastStep(l.log, id); e.Some? && e.value.Decided? && e.value.decision == Verify)
  {
    var l := After(actions);
    RunKeepsInv(actions);
    match a
    case DoCompile(_, imo, year, _, _) => CompileAccepted(actions, l, a);
    case DoSubmit(_, id) =>
      StateFollowsTheLog(actions, id);
      hide After, Inv, FreshIds, LastStep, Blank;
    case DoDecide(_, id, _, _) =>
      StateFollowsTheLog(actions, id);
      hide After, Inv, FreshIds, LastStep, Blank;
    case DoIssue(_, id) =>
      StateFollowsTheLog(actions, id);
      StatedMeansIssued(l, id);
      hide After, Inv, FreshIds, LastStep, Blank, HasIssue;
  }

  /** Why a decision is refused: the checks in their order. */
  lemma DecisionErrors(l: Ledger, checker: string, id: string, decision: Decision, reason: string)
    ensures var r := Decide(l, checker, id, decision, reason);
            var explained := decision == Verify || !Blank(reason);
            var open := id in l.reports && l.reports[id].state in {Submitted, VerifierReview};
            && (r == Err(ReasonRequired) <==> !explained)
            && (r == Err(BlankActor) <==> explained && Blank(checker))
            && (r == Err(NotFound) <==> explained && !Blank(checker) && id !in l.reports)
            && (r == Err(WrongState) <==> explained && !Blank(checker) && id in l.reports && !open)
            && (r == Err(MakerChecker) <==> explained && !Blank(checker) && open && l.reports[id].submittedBy == Some(checker))
            && (r == Err(ConstraintViolated) <==>
                  && explained && !Blank(checker) && open && l.reports[id].submittedBy != Some(checker)
                  && (|checker| > 512 || |reason| > 1024))
  {
    hide Blank;
  }

  lemma StatedMeansIssued(l: Ledger, id: string)
    requires Inv(l)
    ensures id in l.statements <==> HasIssue(l.log, id)
  {
    if id in l.statements {
      assert StatementOk(l, id);
      hide Inv;
      StatementHasIssue(l, id);
    }
  }

  lemma StatementHasIssue(l: Ledger, id: string)
    requires id in l.statements && StatementOk(l, id)
    ensures HasIssue(l.log, id)
  {
    hide VerifiedAt;
    var m, k :| 0 <= m < k && VerifiedAt(l.log, id, l.reports[id], m) &&
                HasEntry(l.log, k, Issued(id, l.statements[id].issuedBy, l.statements[id].content));
    assert IsIssued(l.log[k], id);
  }

  lemma CompileAccepted(actions: seq<Action>, l: Ledger, a: Action)
    requires FreshIds(actions) && l == After(actions) && Inv(l) && a.DoCompile?
    ensures Attempt(l, a).Ok? <==>
            && 2019 <= a.year <= 2200 && a.content.Some? && MayAct(a.maker)
            && forall id :: IsReportOf(l, a.imo, a.year, id) ==> LastStep(l.log, id).Some? && LastStep(l.log, id).value.Compiled?
  {
    var sy := (a.imo, a.year);
    forall id | IsReportOf(l, a.imo, a.year, id)
      ensures sy in l.byShipYear && l.byShipYear[sy] == id
      ensures LastStep(l.log, id).Some? && (LastStep(l.log, id).value.Compiled? <==> l.reports[id].state == Draft)
    {
      assert Indexed(l, id);
      StateFollowsTheLog(actions, id);
    }
    assert sy in l.byShipYear ==> IsReportOf(l, a.imo, a.year, l.byShipYear[sy]);
    hide After, Inv, FreshIds, LastStep, Blank;
  }
}
