/** The annual-report workflow: compile, submit, decide, issue. Each operation is
    one transaction; a failed one changes nothing. */
module AnnualReports {
  import opened Options
  import opened Text

  datatype ReportState = Draft | Submitted | VerifierReview | Verified | Rejected
  datatype Decision = Verify | Reject | Clarify

  /** What a compile yields: the totals document and the factor-set hash. */
  datatype Content = Content(totals: string, factorHash: string)

  datatype Report = Report(
    imo: string, year: int, content: Content, state: ReportState,
    compiledBy: string, submittedBy: Option<string>)

  datatype Statement = Statement(issuedBy: string, content: Content)

  /** The committed operations, in order. */
  datatype Entry =
    | Compiled(id: string, actor: string, content: Content)
    | Submission(id: string, actor: string, content: Content)
    | Decided(id: string, actor: string, decision: Decision)
    | Issued(id: string, actor: string, content: Content)

  /** `byShipYear` is the unique index on (imo_number, calendar_year). */
  datatype Ledger = Ledger(
    reports: map<string, Report>, byShipYear: map<(string, int), string>,
    statements: map<string, Statement>, log: seq<Entry>)

  const EMPTY := Ledger(map[], map[], map[], [])

  datatype Error =
    | BlankActor | YearOutOfRange | CompileFailed | WrongState | NotFound
    | NotTheCompiler | MakerChecker | ReasonRequired | StatementExists | ConstraintViolated

  datatype Result = Ok(value: Ledger) | Err(error: Error)

  predicate Blank(s: string) { TrimSpace(s) == "" }

  /** The length CHECK on every principal column; a blank actor gets no transaction. */
  predicate Fits(actor: string) { |actor| <= 512 }

  // ---- Transactions ----

  /** `content` is what the fuel reports yield, or None when the compile fails
      closed; `newId` is the id generated for a first compile. */
  function Compile(l: Ledger, actor: string, imo: string, year: int, content: Option<Content>, newId: string): Result {
    if year < 2019 || year > 2200 then Err(YearOutOfRange)
    else if Blank(actor) then Err(BlankActor)
    else if content.None? then Err(CompileFailed)
    else if (imo, year) !in l.byShipYear || l.byShipYear[(imo, year)] !in l.reports then
      if !Fits(actor) then Err(ConstraintViolated)
      else Ok(l.(reports := l.reports[newId := Report(imo, year, content.value, Draft, actor, None)],
                 byShipYear := l.byShipYear[(imo, year) := newId],
                 log := l.log + [Compiled(newId, actor, content.value)]))
    else
      var id := l.byShipYear[(imo, year)];
      if l.reports[id].state != Draft then Err(WrongState)
      else if !Fits(actor) then Err(ConstraintViolated)
      else Ok(l.(reports := l.reports[id := l.reports[id].(content := content.value, compiledBy := actor)],
                 log := l.log + [Compiled(id, actor, content.value)]))
  }

  function Submit(l: Ledger, actor: string, id: string): Result {
    if Blank(actor) then Err(BlankActor)
    else if id !in l.reports then Err(NotFound)
    else if l.reports[id].state != Draft then Err(WrongState)
    else if l.reports[id].compiledBy != actor then Err(NotTheCompiler)
    else if !Fits(actor) then Err(ConstraintViolated)
    else Ok(l.(reports := l.reports[id := l.reports[id].(state := Submitted, submittedBy := Some(actor))],
               log := l.log + [Submission(id, actor, l.reports[id].content)]))
  }

  function FinalState(d: Decision): ReportState {
    match d case Verify => Verified case Reject => Rejected case Clarify => Submitted
  }

  function Decide(l: Ledger, actor: string, id: string, decision: Decision, reason: string): Result {
    if decision != Verify && Blank(reason) then Err(ReasonRequired)
    else if Blank(actor) then Err(BlankActor)
    else if id !in l.reports then Err(NotFound)
    else if l.reports[id].state != Submitted && l.reports[id].state != VerifierReview then Err(WrongState)
    else if l.reports[id].submittedBy == Some(actor) then Err(MakerChecker)
    else if !Fits(actor) || |reason| > 1024 then Err(ConstraintViolated)
    else Ok(l.(reports := l.reports[id := l.reports[id].(state := FinalState(decision))],
               log := l.log + [Decided(id, actor, decision)]))
  }

  function Issue(l: Ledger, actor: string, id: string): Result {
    if Blank(actor) then Err(BlankActor)
    else if id !in l.reports then Err(NotFound)
    else if l.reports[id].state != Verified then Err(WrongState)
    else if id in l.statements then Err(StatementExists)
    else if !Fits(actor) then Err(ConstraintViolated)
    else Ok(l.(statements := l.statements[id := Statement(actor, l.reports[id].content)],
               log := l.log + [Issued(id, actor, l.reports[id].content)]))
  }

  // ---- The service ----

  class Service {
    var reports: map<string, Report>
    var byShipYear: map<(string, int), string>
    var statements: map<string, Statement>
    ghost var log: seq<Entry>

    ghost function View(): Ledger
      reads this
    {
      Ledger(reports, byShipYear, statements, log)
    }

    constructor ()
      ensures View() == EMPTY
    {
      reports, byShipYear, statements, log := map[], map[], map[], [];
    }

    /** The closing upsert of `CompileAnnualReport`: insert the first DRAFT of a ship
        and year, or replace the content of an existing DRAFT. */
    method UpsertDraft(actor: string, imo: string, year: int, content: Option<Content>, newId: string)
      returns (error: Option<Error>)
      modifies this`reports, this`byShipYear, this`log
      ensures match Compile(old(View()), actor, imo, year, content, newId)
              case Ok(l) => error == None && View() == l
              case Err(e) => error == Some(e) && View() == old(View())
    {
      hide Blank;
      if year < 2019 || year > 2200 {
        return Some(YearOutOfRange);
      }
      if Blank(actor) {
        return Some(BlankActor);
      }
      if content.None? {
        return Some(CompileFailed);
      }
      if (imo, year) !in byShipYear || byShipYear[(imo, year)] !in reports {
        if !Fits(actor) {
          return Some(ConstraintViolated);
        }
        reports := reports[newId := Report(imo, year, content.value, Draft, actor, None)];
        byShipYear := byShipYear[(imo, year) := newId];
        log := log + [Compiled(newId, actor, content.value)];
        return None;
      }
      var id := byShipYear[(imo, year)];
      if reports[id].state != Draft {
        return Some(WrongState);
      }
      if !Fits(actor) {
        return Some(ConstraintViolated);
      }
      var redrafted := reports[id].(content := content.value, compiledBy := actor);
      assert GuardAdmits(reports[id], redrafted);
      reports := reports[id := redrafted];
      log := log + [Compiled(id, actor, content.value)];
      return None;
    }

    method SubmitReport(actor: string, id: string) returns (error: Option<Error>)
      modifies this`reports, this`log
      ensures match Submit(old(View()), actor, id)
              case Ok(l) => error == None && View() == l
              case Err(e) => error == Some(e) && View() == old(View())
    {
      hide Blank;
      if Blank(actor) {
        return Some(BlankActor);
      }
      if id !in reports {
        return Some(NotFound);
      }
      if reports[id].state != Draft {
        return Some(WrongState);
      }
      if reports[id].compiledBy != actor {
        return Some(NotTheCompiler);
      }
      if !Fits(actor) {
        return Some(ConstraintViolated);
      }
      var submitted := reports[id].(state := Submitted, submittedBy := Some(actor));
      assert GuardAdmits(reports[id], submitted);
      log := log + [Submission(id, actor, reports[id].content)];
      reports := reports[id := submitted];
      return None;
    }

    /** Two updates: into VERIFIER_REVIEW, then to the state the decision names. The
        storage guard on state transitions admits both. */
    method RecordDecision(actor: string, id: string, decision: Decision, reason: string) returns (error: Option<Error>)
      modifies this`reports, this`log
      ensures match Decide(old(View()), actor, id, decision, reason)
              case Ok(l) => error == None && View() == l
              case Err(e) => error == Some(e) && View() == old(View())
    {
      hide Blank;
      if decision != Verify && Blank(reason) {
        return Some(ReasonRequired);
      }
      if Blank(actor) {
        return Some(BlankActor);
      }
      if id !in reports {
        return Some(NotFound);
      }
      if reports[id].state != Submitted && reports[id].state != VerifierReview {
        return Some(WrongState);
      }
      if reports[id].submittedBy == Some(actor) {
        return Some(MakerChecker);
      }
      if !Fits(actor) || |reason| > 1024 {
        return Some(ConstraintViolated);
      }
      if reports[id].state == Submitted {
        var reviewed := reports[id].(state := VerifierReview);
        assert GuardAdmits(reports[id], reviewed);
        reports := reports[id := reviewed];
      }
      var decided := reports[id].(state := FinalState(decision));
      assert GuardAdmits(reports[id], decided);
      reports := reports[id := decided];
      log := log + [Decided(id, actor, decision)];
      return None;
    }

    method IssueStatement(actor: string, id: string) returns (error: Option<Error>)
      modifies this`statements, this`log
      ensures match Issue(old(View()), actor, id)
              case Ok(l) => error == None && View() == l
              case Err(e) => error == Some(e) && View() == old(View())
    {
      hide Blank;
      if Blank(actor) {
        return Some(BlankActor);
      }
      if id !in reports {
        return Some(NotFound);
      }
      if reports[id].state != Verified {
        return Some(WrongState);
      }
      if id in statements {
        return Some(StatementExists);
      }
      if !Fits(actor) {
        return Some(ConstraintViolated);
      }
      statements := statements[id := Statement(actor, reports[id].content)];
      log := log + [Issued(id, actor, reports[id].content)];
      return None;
    }
  }

  /** The BEFORE UPDATE trigger on annual reports. */
  predicate GuardAdmits(before: Report, after: Report) {
    && (before.state == after.state ==> before.state == Draft)
    && TransitionAllowed(before.state, after.state)
    && (before.state != Draft ==> after.content == before.content)
  }

  predicate TransitionAllowed(from: ReportState, to: ReportState) {
    || (from == Draft && (to == Draft || to == Submitted))
    || (from == Submitted && to == VerifierReview)
    || (from == VerifierReview && (to == Verified || to == Rejected || to == Submitted))
  }

  // ---- The guarantee ----

  ghost predicate HasEntry(log: seq<Entry>, i: int, e: Entry) { 0 <= i < |log| && log[i] == e }

  /** The report was compiled and then submitted by one principal, with the content
      it has now. */
  ghost predicate SubmittedAt(log: seq<Entry>, id: string, r: Report, j: int) {
    && r.submittedBy == Some(r.compiledBy)
    && HasEntry(log, j, Submission(id, r.compiledBy, r.content))
    && exists i :: 0 <= i < j && HasEntry(log, i, Compiled(id, r.compiledBy, r.content))
  }

  /** ... and later verified by another. */
  ghost predicate VerifiedAt(log: seq<Entry>, id: string, r: Report, m: int) {
    exists j, verifier ::
      && 0 <= j < m && SubmittedAt(log, id, r, j)
      && HasEntry(log, m, Decided(id, verifier, Verify)) && verifier != r.compiledBy
  }

  ghost predicate ReportOk(l: Ledger, id: string)
    requires id in l.reports
  {
    var r := l.reports[id];
    match r.state
    case Draft =>
      r.submittedBy.None? && exists i :: HasEntry(l.log, i, Compiled(id, r.compiledBy, r.content))
    case Submitted => exists j :: SubmittedAt(l.log, id, r, j)
    case Rejected => exists j :: SubmittedAt(l.log, id, r, j)
    case Verified => exists m :: VerifiedAt(l.log, id, r, m)
    case VerifierReview => false
  }

  ghost predicate IsIssued(e: Entry, id: string) { e.Issued? && e.id == id }

  /** The statement's content is the verified report's, and its issue is recorded
      once, after the verification. */
  ghost predicate StatementOk(l: Ledger, id: string)
    requires id in l.statements
  {
    && id in l.reports && l.reports[id].state == Verified
    && l.statements[id].content == l.reports[id].content
    && exists m, k ::
         && 0 <= m < k && VerifiedAt(l.log, id, l.reports[id], m)
         && HasEntry(l.log, k, Issued(id, l.statements[id].issuedBy, l.statements[id].content))
         && forall n :: 0 <= n < |l.log| && IsIssued(l.log[n], id) ==> n == k
  }

  ghost predicate Indexed(l: Ledger, id: string)
    requires id in l.reports
  {
    var sy := (l.reports[id].imo, l.reports[id].year);
    sy in l.byShipYear && l.byShipYear[sy] == id
  }

  ghost predicate Inv(l: Ledger) {
    && (forall id :: id in l.reports ==> ReportOk(l, id) && Indexed(l, id))
    && (forall sy :: sy in l.byShipYear ==>
          l.byShipYear[sy] in l.reports && (l.reports[l.byShipYear[sy]].imo, l.reports[l.byShipYear[sy]].year) == sy)
    && (forall id :: id in l.statements ==> StatementOk(l, id))
    && (forall n :: 0 <= n < |l.log| && l.log[n].Issued? ==> l.log[n].id in l.statements)
  }

  // ---- Every step keeps it ----

  lemma SubmittedGrows(log: seq<Entry>, e: Entry, id: string, r: Report, j: int)
    requires SubmittedAt(log, id, r, j)
    ensures SubmittedAt(log + [e], id, r, j)
  {
    var i :| 0 <= i < j && HasEntry(log, i, Compiled(id, r.compiledBy, r.content));
    assert HasEntry(log + [e], i, Compiled(id, r.compiledBy, r.content));
  }

  lemma VerifiedGrows(log: seq<Entry>, e: Entry, id: string, r: Report, m: int)
    requires VerifiedAt(log, id, r, m)
    ensures VerifiedAt(log + [e], id, r, m)
  {
    var j, verifier :| && 0 <= j < m && SubmittedAt(log, id, r, j)
                       && HasEntry(log, m, Decided(id, verifier, Verify)) && verifier != r.compiledBy;
    SubmittedGrows(log, e, id, r, j);
    assert HasEntry(log + [e], m, Decided(id, verifier, Verify));
  }

  /** A report whose row does not change stays explained by the longer log. */
  lemma ReportGrows(l: Ledger, l': Ledger, e: Entry, id: string)
    requires id in l.reports && id in l'.reports && l'.reports[id] == l.reports[id]
    requires l'.log == l.log + [e] && ReportOk(l, id)
    ensures ReportOk(l', id)
  {
    var r := l.reports[id];
    match r.state
    case Draft =>
      var i :| HasEntry(l.log, i, Compiled(id, r.compiledBy, r.content));
      assert HasEntry(l'.log, i, Compiled(id, r.compiledBy, r.content));
    case Verified =>
      var m :| VerifiedAt(l.log, id, r, m);
      VerifiedGrows(l.log, e, id, r, m);
    case Submitted =>
      var j :| SubmittedAt(l.log, id, r, j);
      SubmittedGrows(l.log, e, id, r, j);
    case Rejected =>
      var j :| SubmittedAt(l.log, id, r, j);
      SubmittedGrows(l.log, e, id, r, j);
    case VerifierReview =>
  }

  lemma StatementGrows(l: Ledger, l': Ledger, e: Entry, id: string)
    requires id in l.statements && id in l'.statements && l'.statements[id] == l.statements[id]
    requires id in l.reports && id in l'.reports && l'.reports[id] == l.reports[id]
    requires l'.log == l.log + [e] && !IsIssued(e, id) && StatementOk(l, id)
    ensures StatementOk(l', id)
  {
    var m, k :| && 0 <= m < k && VerifiedAt(l.log, id, l.reports[id], m)
                && HasEntry(l.log, k, Issued(id, l.statements[id].issuedBy, l.statements[id].content))
                && forall n :: 0 <= n < |l.log| && IsIssued(l.log[n], id) ==> n == k;
    VerifiedGrows(l.log, e, id, l.reports[id], m);
    assert HasEntry(l'.log, k, Issued(id, l.statements[id].issuedBy, l.statements[id].content));
  }

  /** One report changes, nothing is issued: what must be shown of the new row. */
  lemma ChangeKeepsInv(l: Ledger, l': Ledger, e: Entry, id: string)
    requires Inv(l) && l'.log == l.log + [e] && !e.Issued? && l'.statements == l.statements
    requires id in l'.reports && l'.reports == l.reports[id := l'.reports[id]]
    requires var sy := (l'.reports[id].imo, l'.reports[id].year);
             if id in l.reports then l'.byShipYear == l.byShipYear && sy == (l.reports[id].imo, l.reports[id].year)
             else sy !in l.byShipYear && l'.byShipYear == l.byShipYear[sy := id]
    requires ReportOk(l', id) && id !in l.statements
    ensures Inv(l')
  {
    forall x | x in l'.reports ensures ReportOk(l', x) && Indexed(l', x) {
      if x != id {
        assert ReportOk(l, x) && Indexed(l, x);
        ReportGrows(l, l', e, x);
      } else if id in l.reports {
        assert Indexed(l, id);
      }
    }
    forall x | x in l'.statements ensures StatementOk(l', x) {
      assert StatementOk(l, x);
      StatementGrows(l, l', e, x);
    }
  }

  lemma StatedIsVerified(l: Ledger, id: string)
    requires Inv(l)
    ensures id in l.statements ==> id in l.reports && l.reports[id].state == Verified
  {
    if id in l.statements { assert StatementOk(l, id); }
  }

  lemma CompileKeepsInv(l: Ledger, actor: string, imo: string, year: int, content: Option<Content>, newId: string)
    requires Inv(l) && newId !in l.reports && Compile(l, actor, imo, year, content, newId).Ok?
    ensures Inv(Compile(l, actor, imo, year, content, newId).value)
  {
    hide Blank;
    var l' := Compile(l, actor, imo, year, content, newId).value;
    var id := if (imo, year) in l.byShipYear then l.byShipYear[(imo, year)] else newId;
    StatedIsVerified(l, id);
    assert HasEntry(l'.log, |l.log|, Compiled(id, actor, content.value));
    if id in l.reports { assert ReportOk(l, id); }
    ChangeKeepsInv(l, l', Compiled(id, actor, content.value), id);
  }

  lemma SubmitKeepsInv(l: Ledger, actor: string, id: string)
    requires Inv(l) && Submit(l, actor, id).Ok?
    ensures Inv(Submit(l, actor, id).value)
  {
    hide Blank;
    var l', r := Submit(l, actor, id).value, l.reports[id];
    StatedIsVerified(l, id);
    assert ReportOk(l, id);
    var i :| HasEntry(l.log, i, Compiled(id, r.compiledBy, r.content));
    assert HasEntry(l'.log, i, Compiled(id, r.compiledBy, r.content));
    assert HasEntry(l'.log, |l.log|, Submission(id, r.compiledBy, r.content));
    assert SubmittedAt(l'.log, id, l'.reports[id], |l.log|);
    ChangeKeepsInv(l, l', Submission(id, actor, r.content), id);
  }

  lemma DecideKeepsInv(l: Ledger, actor: string, id: string, decision: Decision, reason: string)
    requires Inv(l) && Decide(l, actor, id, decision, reason).Ok?
    ensures Inv(Decide(l, actor, id, decision, reason).value)
  {
    hide Blank;
    var l', r := Decide(l, actor, id, decision, reason).value, l.reports[id];
    StatedIsVerified(l, id);
    assert ReportOk(l, id);
    var e, r' := Decided(id, actor, decision), l'.reports[id];
    var j :| SubmittedAt(l.log, id, r, j);
    SubmittedGrows(l.log, e, id, r, j);
    assert SubmittedAt(l'.log, id, r', j);
    assert HasEntry(l'.log, |l.log|, e);
    if decision == Verify {
      assert VerifiedAt(l'.log, id, r', |l.log|);
    }
    ChangeKeepsInv(l, l', e, id);
  }

  lemma IssueKeepsInv(l: Ledger, actor: string, id: string)
    requires Inv(l) && Issue(l, actor, id).Ok?
    ensures Inv(Issue(l, actor, id).value)
  {
    hide Blank, ReportOk, StatementOk;
    var l', r := Issue(l, actor, id).value, l.reports[id];
    var e := Issued(id, actor, r.content);
    forall x | x in l'.reports ensures ReportOk(l', x) && Indexed(l', x) {
      assert ReportOk(l, x) && Indexed(l, x);
      ReportGrows(l, l', e, x);
    }
    assert ReportOk(l, id);
    assert forall n :: 0 <= n < |l.log| ==> !IsIssued(l.log[n], id);
    IssuedStatementOk(l, l', id, actor);
    forall x | x in l'.statements ensures StatementOk(l', x) {
      if x != id {
        assert StatementOk(l, x);
        StatedIsVerified(l, x);
        StatementGrows(l, l', e, x);
      }
    }
  }

  lemma IssuedStatementOk(l: Ledger, l': Ledger, id: string, actor: string)
    requires id in l.reports && l.reports[id].state == Verified && ReportOk(l, id)
    requires forall n :: 0 <= n < |l.log| ==> !IsIssued(l.log[n], id)
    requires l'.reports == l.reports && l'.log == l.log + [Issued(id, actor, l.reports[id].content)]
    requires l'.statements == l.statements[id := Statement(actor, l.reports[id].content)]
    ensures StatementOk(l', id)
  {
    var r := l.reports[id];
    var e := Issued(id, actor, r.content);
    var m :| VerifiedAt(l.log, id, r, m);
    VerifiedGrows(l.log, e, id, r, m);
    hide VerifiedAt;
    assert HasEntry(l'.log, |l.log|, e);
    assert m < |l.log| by { VerifiedInLog(l.log, id, r, m); }
    assert forall n :: 0 <= n < |l'.log| && IsIssued(l'.log[n], id) ==> n == |l.log|;
  }

  lemma VerifiedInLog(log: seq<Entry>, id: string, r: Report, m: int)
    requires VerifiedAt(log, id, r, m)
    ensures 0 <= m < |log|
  {}

  // ---- Runs ----

  datatype Action =
    | DoCompile(maker: string, imo: string, year: int, content: Option<Content>, newId: string)
    | DoSubmit(who: string, id: string)
    | DoDecide(checker: string, id: string, decision: Decision, reason: string)
    | DoIssue(issuer: string, id: string)

  function Attempt(l: Ledger, a: Action): Result {
    match a
    case DoCompile(who, imo, year, content, newId) => Compile(l, who, imo, year, content, newId)
    case DoSubmit(who, id) => Submit(l, who, id)
    case DoDecide(who, id, decision, reason) => Decide(l, who, id, decision, reason)
    case DoIssue(who, id) => Issue(l, who, id)
  }

  function Next(l: Ledger, a: Action): Ledger {
    match Attempt(l, a) case Ok(l') => l' case Err(_) => l
  }

  ghost function After(actions: seq<Action>): Ledger {
    if actions == [] then EMPTY else Next(After(actions[..|actions| - 1]), actions[|actions| - 1])
  }

  /** Generated report ids have not been used before. */
  ghost predicate FreshIds(actions: seq<Action>) {
    forall i :: 0 <= i < |actions| && actions[i].DoCompile? ==> actions[i].newId !in After(actions[..i]).reports
  }

  lemma NextKeepsInv(l: Ledger, a: Action)
    requires Inv(l) && (a.DoCompile? ==> a.newId !in l.reports)
    ensures Inv(Next(l, a))
  {
    hide Inv;
    if Attempt(l, a).Ok? {
      match a
      case DoCompile(who, imo, year, content, newId) => CompileKeepsInv(l, who, imo, year, content, newId);
      case DoSubmit(who, id) => SubmitKeepsInv(l, who, id);
      case DoDecide(who, id, decision, reason) => DecideKeepsInv(l, who, id, decision, reason);
      case DoIssue(who, id) => IssueKeepsInv(l, who, id);
    }
  }

  lemma {:induction false} RunKeepsInv(actions: seq<Action>)
    requires FreshIds(actions)
    ensures Inv(After(actions))
  {
    if actions != [] {
      hide Next, Inv, After, FreshIds;
      var n := |actions| - 1;
      FreshPrefix(actions, n);
      FreshLast(actions);
      AfterStep(actions);
      RunKeepsInv(actions[..n]);
      NextKeepsInv(After(actions[..n]), actions[n]);
    }
  }

  /** In every run, a Statement of Compliance exists only for a report compiled and
      then submitted by one principal and later verified by another; its content is
      the one submitted, and it was issued once. */
  lemma StatementTheorem(actions: seq<Action>, id: string)
    returns (i: nat, j: nat, m: nat, k: nat, maker: string, verifier: string)
    requires FreshIds(actions) && id in After(actions).statements
    ensures var l := After(actions);
            var content := l.statements[id].content;
            && i < j < m < k < |l.log| && maker != verifier
            && l.log[i] == Compiled(id, maker, content) && l.log[j] == Submission(id, maker, content)
            && l.log[m] == Decided(id, verifier, Verify)
            && l.log[k] == Issued(id, l.statements[id].issuedBy, content)
            && forall n :: 0 <= n < |l.log| && IsIssued(l.log[n], id) ==> n == k
  {
    RunKeepsInv(actions);
    var l := After(actions);
    hide After;
    assert StatementOk(l, id);
    var r := l.reports[id];
    var m0, k0 :| && 0 <= m0 < k0 && VerifiedAt(l.log, id, r, m0)
                  && HasEntry(l.log, k0, Issued(id, l.statements[id].issuedBy, l.statements[id].content))
                  && forall n :: 0 <= n < |l.log| && IsIssued(l.log[n], id) ==> n == k0;
    var j0, v :| && 0 <= j0 < m0 && SubmittedAt(l.log, id, r, j0)
                 && HasEntry(l.log, m0, Decided(id, v, Verify)) && v != r.compiledBy;
    var i0 :| 0 <= i0 < j0 && HasEntry(l.log, i0, Compiled(id, r.compiledBy, r.content));
    i, j, m, k, maker, verifier := i0, j0, m0, k0, r.compiledBy, v;
  }

  /** VERIFIED and REJECTED are never left, and nothing about such a report changes. */
  lemma FinalReportsNeverChange(l: Ledger, a: Action, id: string)
    requires Inv(l) && (a.DoCompile? ==> a.newId !in l.reports)
    requires id in l.reports && (l.reports[id].state == Verified || l.reports[id].state == Rejected)
    ensures id in Next(l, a).reports && Next(l, a).reports[id] == l.reports[id]
  {
    hide Blank, ReportOk, StatementOk;
  }

  lemma {:induction false} FinalForGood(actions: seq<Action>, m: nat, id: string)
    requires FreshIds(actions) && m <= |actions| && id in After(actions[..m]).reports
    requires var state := After(actions[..m]).reports[id].state; state == Verified || state == Rejected
    ensures id in After(actions).reports && After(actions).reports[id] == After(actions[..m]).reports[id]
    decreases |actions|
  {
    hide Next, Inv, After, FreshIds;
    if m == |actions| {
      assert actions[..m] == actions;
    } else {
      var n := |actions| - 1;
      FreshPrefix(actions, n);
      FreshLast(actions);
      assert actions[..n][..m] == actions[..m];
      FinalForGood(actions[..n], m, id);
      RunKeepsInv(actions[..n]);
      FinalReportsNeverChange(After(actions[..n]), actions[n], id);
      AfterStep(actions);
    }
  }

  lemma FreshPrefix(actions: seq<Action>, n: nat)
    requires FreshIds(actions) && n <= |actions|
    ensures FreshIds(actions[..n])
  {
    hide After;
    assert forall i :: 0 <= i < n ==> actions[..n][..i] == actions[..i] && actions[..n][i] == actions[i];
  }

  lemma FreshLast(actions: seq<Action>)
    requires FreshIds(actions) && actions != []
    ensures var n := |actions| - 1;
            actions[n].DoCompile? ==> actions[n].newId !in After(actions[..n]).reports
  {}

  lemma AfterStep(actions: seq<Action>)
    requires actions != []
    ensures After(actions) == Next(After(actions[..|actions| - 1]), actions[|actions| - 1])
  {}
}
