/**
 The operation executor: security, idempotency claim, root scope, application, marker,
 commit, completion.  Everything outside answers as it likes; the executor is proved to
 follow `WorkerProgram`, and to report one outcome, last, that agrees with its result.
 */
module Executor {
  import opened Options
  import opened Idempotency
  import opened WorkerProgram
  import opened CallHistory
  import opened ExecutionScope

  // ----- observation -----

  datatype Phase =
    | PhasePlan | PhaseMetadata | PhaseSecurity | PhaseIdempotencyBegin | PhaseExecutionScope
    | PhaseApplication | PhaseTransactionFinalize | PhaseIdempotencyFinalize | PhaseOutcome

  datatype Outcome = OutcomeStarted | OutcomeSuccess | OutcomeFailure | OutcomePanic

  datatype Event = Event(phase: Phase, outcome: Outcome)

  ghost predicate Quiet(events: seq<Event>) {
    forall e | e in events :: e.phase != PhaseOutcome
  }

  // ----- the outside -----

  datatype Error =
    | InvokerRequired | OperationIdRequired | ScopeAlreadyActive
    | SecurityFailed | SecurityNilContext | SecurityUnavailable
    | IdempotencyUnavailable | KeyRequired | AttemptUnavailable | ClaimFailed | ScopeFailed
    | ApplicationFailed | RollbackFailed | AtomicFailed | UnitCommitFailed | CompleteFailed | FailFailed

  /** The errors are joined; none means success.  An application panic is passed on. */
  datatype Result = Returned(errors: seq<Error>) | Panicked {
    predicate Ok() { this == Returned([]) }
  }

  function OutcomeOf(result: Result): Outcome {
    if result.Panicked? then OutcomePanic else if result.Ok() then OutcomeSuccess else OutcomeFailure
  }

  datatype OperationPlan = OperationPlan(
    operationId: OperationId, transaction: string, idempotency: string, isProtected: bool, requiresOperations: set<OperationId>)

  datatype SecurityAnswer = Denies | GivesNilContext | Passes

  datatype FactoryAnswer = FactoryFails | GivesNilUnit | GivesUnit(answer: nat -> bool, hasHandle: bool)

  /** What one call meets: `None` for a part that is not wired. */
  datatype Outside = Outside(
    hasInvoker: bool, scopeActive: bool, security: Option<SecurityAnswer>, factory: Option<FactoryAnswer>, app: AppOutcome)

  /** Why an idempotent call may not begin, or that it may. */
  datatype BeginAnswer = Begun | NoKey | NoAttempt | Unclaimed

  /** An idempotency coordinator over a store that may answer each call as it likes. */
  class Coordinator {
    const journal: Journal
    const answer: nat -> bool
    /** The call carries an idempotency key, and an attempt id can be made for it. */
    const hasKey: bool
    const hasAttempt: bool
    /** The store can join the transaction, and the coordinator offers the call for it. */
    const reportsAtomic: bool
    const offersAtomic: bool
    var asked: nat

    constructor (journal: Journal, answer: nat -> bool, hasKey: bool, hasAttempt: bool, reportsAtomic: bool, offersAtomic: bool)
      ensures this.journal == journal && this.answer == answer && asked == 0
      ensures this.hasKey == hasKey && this.hasAttempt == hasAttempt
      ensures this.reportsAtomic == reportsAtomic && this.offersAtomic == offersAtomic
    {
      this.journal, this.answer, this.asked := journal, answer, 0;
      this.hasKey, this.hasAttempt := hasKey, hasAttempt;
      this.reportsAtomic, this.offersAtomic := reportsAtomic, offersAtomic;
    }

    /** Without a key or an attempt id the store is not asked; otherwise its answer to one claim decides. */
    method Begin() returns (r: BeginAnswer)
      modifies this, journal
      ensures r == NoKey <==> !hasKey
      ensures r == NoAttempt <==> hasKey && !hasAttempt
      ensures r == Begun <==> hasKey && hasAttempt && answer(old(asked))
      ensures hasKey && hasAttempt ==> journal.log == old(journal.log) + [Effect.Claim(r == Begun)] && asked == old(asked) + 1
      ensures !(hasKey && hasAttempt) ==> journal.log == old(journal.log) && asked == old(asked)
    {
      if !hasKey {
        return NoKey;
      }
      if !hasAttempt {
        return NoAttempt;
      }
      var granted := answer(asked);
      asked := asked + 1;
      journal.log := journal.log + [Effect.Claim(granted)];
      r := if granted then Begun else Unclaimed;
    }

    method Finish(status: Status) returns (ok: bool)
      modifies this, journal
      ensures journal.log == old(journal.log) + [Effect.Mark(status, ok)]
      ensures ok == answer(old(asked)) && asked == old(asked) + 1
    {
      ok := answer(asked);
      asked := asked + 1;
      journal.log := journal.log + [Effect.Mark(status, ok)];
    }

    /**
     Stages the success marker in the transaction.  Without the call for it, a store that can
     join transactions or a handle, it fails and the store is not asked.
     */
    method CompleteInTransaction(hasHandle: bool) returns (ok: bool)
      modifies this, journal
      ensures journal.log == old(journal.log) + [Effect.Stage(ok)]
      ensures ok <==> offersAtomic && reportsAtomic && hasHandle && answer(old(asked))
      ensures asked == old(asked) + if offersAtomic && reportsAtomic && hasHandle then 1 else 0
    {
      if offersAtomic && reportsAtomic && hasHandle {
        ok := answer(asked);
        asked := asked + 1;
      } else {
        ok := false;
      }
      journal.log := journal.log + [Effect.Stage(ok)];
    }
  }

  // ----- the program one call follows -----

  predicate Idempotent(plan: OperationPlan) {
    plan.idempotency == "required"
  }

  function ModeOf(plan: OperationPlan): Mode {
    match NormalizeMode(plan.transaction)
    case Some(m) => m
    case None => NoTransaction
  }

  function ProgramOf(plan: OperationPlan, coordinator: Coordinator?): (program: Plan)
    ensures Proper(program)
  {
    var idempotent := Idempotent(plan);
    Plan(idempotent, ModeOf(plan),
         idempotent && plan.transaction == "local" && coordinator != null && coordinator.reportsAtomic)
  }

  /** Everything a call without errors does, in order. */
  ghost function SuccessLog(plan: OperationPlan, storeJoins: bool): seq<Effect> {
    var required := plan.idempotency == "required";
    var start := (if required then [Effect.Claim(true)] else []) + [Effect.Begin(true), Effect.App(AppOk)];
    var mark := if required then [Effect.Mark(Succeeded, true)] else [];
    if plan.transaction != "read_only" && plan.transaction != "local" then start + mark
    else if required && plan.transaction == "local" && storeJoins then
      start + [Effect.Stage(true), Effect.Commit(true), Effect.Close(true)]
    else start + [Effect.Commit(true), Effect.Close(true)] + mark
  }

  lemma FinishedSuccess(plan: OperationPlan, coordinator: Coordinator?, log: seq<Effect>)
    requires After(ProgramOf(plan, coordinator), log) == At(Done(true))
    ensures log == SuccessLog(plan, coordinator != null && coordinator.reportsAtomic)
  {
    FinishedFollowsPlan(ProgramOf(plan, coordinator), log, true);
  }

  /** A finished call in the words of its plan. */
  lemma FinishedCall(plan: OperationPlan, coordinator: Coordinator?, log: seq<Effect>, ok: bool)
    requires After(ProgramOf(plan, coordinator), log) == At(Done(ok))
    ensures ok <==> forall e | e in log :: Good(e)
    ensures ok ==> log == SuccessLog(plan, coordinator != null && coordinator.reportsAtomic)
    ensures KeptBehindSuccess(log) && RunsOnce(log)
    ensures Effect.Claim(true) in log ==> ClaimEnds(log, ok)
    ensures Effect.Claim(false) in log ==> log == [Effect.Claim(false)]
    ensures Effect.Begin(false) in log ==> forall e | e in log :: !e.App?
    ensures if plan.idempotency == "required" then log != [] && log[0].Claim?
            else forall e | e in log :: !e.Claim? && !e.Stage? && !e.Mark?
    ensures plan.transaction == "" || plan.transaction == "none" ==> forall e | e in log :: !e.Commit? && !e.Rollback? && !e.Close?
    ensures plan.transaction == "read_only" || plan.transaction == "local" ==> UndoneAfterFailure(log)
  {
    FinishedIsLawful(ProgramOf(plan, coordinator), log, ok);
    FinishedFollowsPlan(ProgramOf(plan, coordinator), log, ok);
    if ok {
      FinishedSuccess(plan, coordinator, log);
    }
  }

  /** Either no scope was opened, or the application ran, and the result tells how it came back. */
  ghost predicate Ran(plan: OperationPlan, outside: Outside, result: Result, log: seq<Effect>) {
    || (Effect.Begin(false) in log && result.Returned?)
    || (&& Effect.App(outside.app) in log
        && NormalizeMode(plan.transaction).Some?
        && (result.Panicked? <==> outside.app.AppPanic?)
        && (outside.app.AppError? ==> result.Returned? && ApplicationFailed in result.errors))
  }

  /** The application of a finished call, its one answer, and the result. */
  lemma FinishedApplication(plan: OperationPlan, coordinator: Coordinator?, log: seq<Effect>, outside: Outside, result: Result)
    requires After(ProgramOf(plan, coordinator), log) == At(Done(result.Ok()))
    requires (log == [Effect.Claim(false)] && result.Returned?) || Ran(plan, outside, result, log)
    ensures result.Ok() ==> outside.app.AppOk?
    ensures result.Panicked? <==> Effect.App(AppPanic) in log
    ensures Effect.App(AppError) in log ==> result.Returned? && ApplicationFailed in result.errors
    ensures forall e | e in log && e.App? :: e.outcome == outside.app
    ensures plan.transaction != "" && plan.transaction != "none" && plan.transaction != "read_only" && plan.transaction != "local" ==>
              forall e | e in log :: !e.App?
  {
    FinishedIsLawful(ProgramOf(plan, coordinator), log, result.Ok());
    FinishedFollowsPlan(ProgramOf(plan, coordinator), log, result.Ok());
  }

  lemma FinishedCounts(plan: OperationPlan, coordinator: Coordinator?, log: seq<Effect>, ok: bool)
    requires After(ProgramOf(plan, coordinator), log) == At(Done(ok))
    ensures Count(log, GoodCommit) <= 1 && Count(log, GoodBegin) <= 1
    ensures plan.transaction == "read_only" || plan.transaction == "local" ==> Count(log, AnyClose) == Count(log, GoodBegin)
    ensures forall i, j | 0 <= i < j < |log| && log[i] == Effect.Commit(true) :: !log[j].Rollback?
  {
    var program := ProgramOf(plan, coordinator);
    LogShape(program, log);
    FinishedCallClosesOnce(program, log);
    forall i, j | 0 <= i < j < |log| && log[i] == Effect.Commit(true) ensures !log[j].Rollback? {
      NoRollbackAfterCommit(program, log, i, j);
    }
  }

  lemma Pushed(program: Plan, log: seq<Effect>, e: Effect, pc: PC)
    requires After(program, log) == At(pc)
    ensures After(program, log + [e]) == Advance(program, pc, e)
  {
    assert (log + [e])[..|log|] == log;
  }

  /** A unit asked to commit ends as the program says. */
  lemma CommitLeads(program: Plan, log: seq<Effect>, part: seq<Effect>, ok: bool)
    requires After(program, log) == At(ToCommit) && part != [] && part[0].Commit? && EndsUnit(part, part[0].ok, ok)
    ensures After(program, log + part) == At(if ok then Completing(program) else Failing(program))
  {
    Pushed(program, log, part[0], ToCommit);
    if part[0].ok {
      Pushed(program, log + [part[0]], part[1], ToClose(true));
      assert log + part == log + [part[0]] + [part[1]];
    } else {
      Pushed(program, log + [part[0]], part[1], CommitFailed);
      Pushed(program, log + [part[0]] + [part[1]], part[2], ToClose(false));
      assert log + part == log + [part[0]] + [part[1]] + [part[2]];
    }
  }

  lemma RollbackLeads(program: Plan, log: seq<Effect>, part: seq<Effect>, ok: bool)
    requires After(program, log) == At(ToRollback) && part != [] && part[0].Rollback? && EndsUnit(part, false, ok)
    ensures After(program, log + part) == At(Failing(program))
  {
    Pushed(program, log, part[0], ToRollback);
    Pushed(program, log + [part[0]], part[1], ToClose(false));
    assert log + part == log + [part[0]] + [part[1]];
  }

  class Executor {
    const journal: Journal
    const idempotency: Coordinator?
    var events: seq<Event>

    constructor (journal: Journal, idempotency: Coordinator?)
      ensures this.journal == journal && this.idempotency == idempotency && events == []
    {
      this.journal, this.idempotency, this.events := journal, idempotency, [];
    }

    ghost predicate Wired() {
      idempotency != null ==> idempotency.journal == journal
    }

    method Observe(phase: Phase, outcome: Outcome)
      modifies this
      ensures events == old(events) + [Event(phase, outcome)]
    {
      events := events + [Event(phase, outcome)];
    }

    function Parts(): set<object> {
      if idempotency == null then {this as object, journal} else {this as object, journal, idempotency}
    }

    /** Ends the claim as failed, if there is one. */
    method Fail(plan: OperationPlan) returns (ok: bool)
      requires Wired() && (Idempotent(plan) ==> idempotency != null)
      requires After(ProgramOf(plan, idempotency), journal.log) == At(Failing(ProgramOf(plan, idempotency)))
      modifies Parts() - {this}
      ensures After(ProgramOf(plan, idempotency), journal.log) == At(Done(false))
      ensures old(journal.log) <= journal.log
    {
      ok := true;
      if Idempotent(plan) {
        ghost var was := journal.log;
        ok := idempotency.Finish(Failed);
        Pushed(ProgramOf(plan, idempotency), was, Effect.Mark(Failed, ok), ToFail);
      }
    }

    method RollbackRoot(plan: OperationPlan, root: Root) returns (ok: bool)
      requires Wired() && Scoped(plan, root) && !root.finalized
      requires After(ProgramOf(plan, idempotency), journal.log) ==
                 At(if root.unit != null then ToRollback else Failing(ProgramOf(plan, idempotency)))
      modifies root, journal, root.unit
      ensures After(ProgramOf(plan, idempotency), journal.log) == At(Failing(ProgramOf(plan, idempotency)))
      ensures old(journal.log) <= journal.log
    {
      ghost var was := journal.log;
      ok := root.Rollback();
      if root.unit != null {
        ghost var part: seq<Effect> :| journal.log == was + part && part != [] && part[0].Rollback? && EndsUnit(part, false, ok);
        RollbackLeads(ProgramOf(plan, idempotency), was, part, ok);
      }
    }

    ghost predicate Scoped(plan: OperationPlan, root: Root) {
      && (root.unit != null <==> HasUnit(ProgramOf(plan, idempotency)))
      && (root.unit != null ==> root.unit.journal == journal)
    }

    /** A finished call: the program has ended as the result says, and one outcome was reported, last. */
    twostate predicate Finished(plan: OperationPlan, result: Result, quiet: seq<Event>)
      reads this, journal
    {
      && After(ProgramOf(plan, idempotency), journal.log) == At(Done(result.Ok()))
      && old(journal.log) <= journal.log
      && Quiet(quiet)
      && events == old(events) + quiet + [Event(PhaseOutcome, OutcomeOf(result))]
    }

    /** Marks the claim failed, reports that and the failed outcome. */
    method FailAndReport(plan: OperationPlan) returns (marked: bool, ghost quiet: seq<Event>)
      requires Wired() && (Idempotent(plan) ==> idempotency != null)
      requires After(ProgramOf(plan, idempotency), journal.log) == At(Failing(ProgramOf(plan, idempotency)))
      modifies Parts()
      ensures After(ProgramOf(plan, idempotency), journal.log) == At(Done(false))
      ensures old(journal.log) <= journal.log
      ensures Quiet(quiet) && events == old(events) + quiet + [Event(PhaseOutcome, OutcomeFailure)]
    {
      marked := Fail(plan);
      quiet := [Event(PhaseIdempotencyFinalize, if marked then OutcomeSuccess else OutcomeFailure)];
      Observe(PhaseIdempotencyFinalize, if marked then OutcomeSuccess else OutcomeFailure);
      Observe(PhaseOutcome, OutcomeFailure);
    }

    /** Undoes the work of an application that returned an error. */
    method UndoAfterError(plan: OperationPlan, root: Root) returns (undone: bool, ghost quiet: seq<Event>)
      requires Wired() && Scoped(plan, root) && !root.finalized
      requires After(ProgramOf(plan, idempotency), journal.log) ==
                 At(if root.unit != null then ToRollback else Failing(ProgramOf(plan, idempotency)))
      modifies this, journal, root, root.unit
      ensures After(ProgramOf(plan, idempotency), journal.log) == At(Failing(ProgramOf(plan, idempotency)))
      ensures old(journal.log) <= journal.log
      ensures Quiet(quiet) && events == old(events) + quiet
    {
      Observe(PhaseApplication, OutcomeFailure);
      Observe(PhaseTransactionFinalize, OutcomeStarted);
      undone := RollbackRoot(plan, root);
      var outcome := if undone then OutcomeSuccess else OutcomeFailure;
      Observe(PhaseTransactionFinalize, outcome);
      Observe(PhaseIdempotencyFinalize, OutcomeStarted);
      quiet := [Event(PhaseApplication, OutcomeFailure), Event(PhaseTransactionFinalize, OutcomeStarted),
                Event(PhaseTransactionFinalize, outcome), Event(PhaseIdempotencyFinalize, OutcomeStarted)];
    }

    /** The application returned an error: its work is undone and its claim marked failed. */
    method AfterError(plan: OperationPlan, root: Root) returns (result: Result, ghost quiet: seq<Event>)
      requires Wired() && (Idempotent(plan) ==> idempotency != null) && Scoped(plan, root) && !root.finalized
      requires After(ProgramOf(plan, idempotency), journal.log) ==
                 At(if root.unit != null then ToRollback else Failing(ProgramOf(plan, idempotency)))
      modifies Parts(), root, root.unit
      ensures Finished(plan, result, quiet)
      ensures result.Returned? && ApplicationFailed in result.errors
    {
      var undone, first := UndoAfterError(plan, root);
      var marked, rest := FailAndReport(plan);
      quiet := first + rest;
      result := Returned([ApplicationFailed] + (if undone then [] else [RollbackFailed]) + (if marked then [] else [FailFailed]));
    }

    /** The application panicked; the panic is passed on once everything is ended. */
    method AfterPanic(plan: OperationPlan, root: Root) returns (result: Result, ghost quiet: seq<Event>)
      requires Wired() && (Idempotent(plan) ==> idempotency != null) && Scoped(plan, root) && !root.finalized
      requires After(ProgramOf(plan, idempotency), journal.log) ==
                 At(if root.unit != null then ToRollback else Failing(ProgramOf(plan, idempotency)))
      modifies Parts(), root, root.unit
      ensures Finished(plan, result, quiet) && result.Panicked?
    {
      Observe(PhaseApplication, OutcomePanic);
      var _ := RollbackRoot(plan, root);
      Observe(PhaseTransactionFinalize, OutcomePanic);
      var _ := Fail(plan);
      Observe(PhaseIdempotencyFinalize, OutcomePanic);
      Observe(PhaseOutcome, OutcomePanic);
      quiet := [Event(PhaseApplication, OutcomePanic), Event(PhaseTransactionFinalize, OutcomePanic),
                Event(PhaseIdempotencyFinalize, OutcomePanic)];
      result := Panicked;
    }

    /** The marker could not be staged: nothing is committed. */
    method AfterStagingError(plan: OperationPlan, root: Root) returns (result: Result, ghost quiet: seq<Event>)
      requires Wired() && Idempotent(plan) && idempotency != null && Scoped(plan, root) && !root.finalized && root.unit != null
      requires After(ProgramOf(plan, idempotency), journal.log) == At(ToRollback)
      modifies Parts(), root, root.unit
      ensures Finished(plan, result, quiet) && result.Returned?
    {
      var undone := RollbackRoot(plan, root);
      Observe(PhaseTransactionFinalize, OutcomeFailure);
      var marked, rest := FailAndReport(plan);
      quiet := [Event(PhaseTransactionFinalize, OutcomeFailure)] + rest;
      result := Returned([AtomicFailed] + (if undone then [] else [RollbackFailed]) + (if marked then [] else [FailFailed]));
    }

    method CommitRoot(plan: OperationPlan, root: Root) returns (ok: bool)
      requires Wired() && Scoped(plan, root) && !root.finalized
      requires After(ProgramOf(plan, idempotency), journal.log) ==
                 At(if root.unit != null then ToCommit else Completing(ProgramOf(plan, idempotency)))
      modifies root, journal, root.unit
      ensures After(ProgramOf(plan, idempotency), journal.log) ==
                At(if ok then Completing(ProgramOf(plan, idempotency)) else Failing(ProgramOf(plan, idempotency)))
      ensures old(journal.log) <= journal.log
    {
      ghost var was := journal.log;
      ok := root.Commit();
      if root.unit != null {
        ghost var part: seq<Effect> :| journal.log == was + part && part != [] && part[0].Commit? && EndsUnit(part, part[0].ok, ok);
        CommitLeads(ProgramOf(plan, idempotency), was, part, ok);
      }
    }

    /** The root is committed: the claim is completed, unless the marker went with the commit. */
    method AfterCommit(plan: OperationPlan, atomicDone: bool) returns (result: Result, ghost quiet: seq<Event>)
      requires Wired() && (Idempotent(plan) ==> idempotency != null)
      requires atomicDone <==> ProgramOf(plan, idempotency).atomic
      requires After(ProgramOf(plan, idempotency), journal.log) == At(Completing(ProgramOf(plan, idempotency)))
      modifies Parts()
      ensures Finished(plan, result, quiet) && result.Returned?
    {
      Observe(PhaseTransactionFinalize, OutcomeSuccess);
      Observe(PhaseIdempotencyFinalize, OutcomeStarted);
      quiet := [Event(PhaseTransactionFinalize, OutcomeSuccess), Event(PhaseIdempotencyFinalize, OutcomeStarted)];
      var completed := true;
      if Idempotent(plan) && !atomicDone {
        ghost var was := journal.log;
        completed := idempotency.Finish(Succeeded);
        Pushed(ProgramOf(plan, idempotency), was, Effect.Mark(Succeeded, completed), ToComplete);
      }
      result := Returned(if completed then [] else [CompleteFailed]);
      Observe(PhaseIdempotencyFinalize, OutcomeOf(result));
      Observe(PhaseOutcome, OutcomeOf(result));
      quiet := quiet + [Event(PhaseIdempotencyFinalize, OutcomeOf(result))];
    }

    /** Stages the success marker when the store can join the transaction. */
    method StageAtomicIdempotency(plan: OperationPlan, ghost root: Root, hasHandle: bool) returns (atomic: bool, ok: bool)
      requires Wired() && (Idempotent(plan) ==> idempotency != null) && Scoped(plan, root)
      requires After(ProgramOf(plan, idempotency), journal.log) ==
                 At(if ProgramOf(plan, idempotency).atomic then Staging
                    else if root.unit != null then ToCommit else Completing(ProgramOf(plan, idempotency)))
      modifies Parts() - {this}
      ensures atomic <==> ProgramOf(plan, idempotency).atomic
      ensures old(journal.log) <= journal.log
      ensures !ok ==> atomic && After(ProgramOf(plan, idempotency), journal.log) == At(ToRollback)
      ensures ok ==> After(ProgramOf(plan, idempotency), journal.log) ==
                       At(if root.unit != null then ToCommit else Completing(ProgramOf(plan, idempotency)))
    {
      atomic, ok := Idempotent(plan) && plan.transaction == "local" && idempotency != null && idempotency.reportsAtomic, true;
      if atomic {
        ghost var was := journal.log;
        ok := idempotency.CompleteInTransaction(hasHandle);
        Pushed(ProgramOf(plan, idempotency), was, Effect.Stage(ok), Staging);
      }
    }

    /** Everything the application asked for is there: commit, then completion. */
    method Finalize(plan: OperationPlan, root: Root, atomic: bool) returns (result: Result, ghost quiet: seq<Event>)
      requires Wired() && (Idempotent(plan) ==> idempotency != null) && Scoped(plan, root) && !root.finalized
      requires atomic <==> ProgramOf(plan, idempotency).atomic
      requires After(ProgramOf(plan, idempotency), journal.log) ==
                 At(if root.unit != null then ToCommit else Completing(ProgramOf(plan, idempotency)))
      modifies Parts(), root, root.unit
      ensures Finished(plan, result, quiet) && result.Returned?
    {
      var committed := CommitRoot(plan, root);
      if committed {
        result, quiet := AfterCommit(plan, atomic);
      } else {
        Observe(PhaseTransactionFinalize, OutcomeFailure);
        var marked, rest := FailAndReport(plan);
        quiet := [Event(PhaseTransactionFinalize, OutcomeFailure)] + rest;
        result := Returned([UnitCommitFailed] + (if marked then [] else [FailFailed]));
      }
    }

    /** Stages the marker if it can join the transaction, then commits and completes. */
    method StageAndFinalize(plan: OperationPlan, root: Root, hasHandle: bool) returns (result: Result, ghost quiet: seq<Event>)
      requires Wired() && (Idempotent(plan) ==> idempotency != null) && Scoped(plan, root) && !root.finalized
      requires After(ProgramOf(plan, idempotency), journal.log) ==
                 At(if ProgramOf(plan, idempotency).atomic then Staging
                    else if root.unit != null then ToCommit else Completing(ProgramOf(plan, idempotency)))
      modifies Parts(), root, root.unit
      ensures Finished(plan, result, quiet) && result.Returned?
    {
      var atomic, staged := StageAtomicIdempotency(plan, root, hasHandle);
      if staged {
        result, quiet := Finalize(plan, root, atomic);
      } else {
        result, quiet := AfterStagingError(plan, root);
      }
    }

    /** The application succeeded. */
    method AfterSuccess(plan: OperationPlan, root: Root, hasHandle: bool) returns (result: Result, ghost quiet: seq<Event>)
      requires Wired() && (Idempotent(plan) ==> idempotency != null) && Scoped(plan, root) && !root.finalized
      requires After(ProgramOf(plan, idempotency), journal.log) ==
                 At(if ProgramOf(plan, idempotency).atomic then Staging
                    else if root.unit != null then ToCommit else Completing(ProgramOf(plan, idempotency)))
      modifies Parts(), root, root.unit
      ensures Finished(plan, result, quiet) && result.Returned?
    {
      Observe(PhaseApplication, OutcomeSuccess);
      Observe(PhaseTransactionFinalize, OutcomeStarted);
      ghost var first := [Event(PhaseApplication, OutcomeSuccess), Event(PhaseTransactionFinalize, OutcomeStarted)];
      assert Quiet(first) && events == old(events) + first;
      ghost var rest;
      result, rest := StageAndFinalize(plan, root, hasHandle);
      quiet := first + rest;
    }

    /** The application has come back. */
    method AfterApplication(plan: OperationPlan, root: Root, hasHandle: bool, app: AppOutcome)
      returns (result: Result, ghost quiet: seq<Event>)
      requires Wired() && (Idempotent(plan) ==> idempotency != null) && Scoped(plan, root) && !root.finalized
      requires After(ProgramOf(plan, idempotency), journal.log) == Advance(ProgramOf(plan, idempotency), Open, Effect.App(app))
      modifies Parts(), root, root.unit
      ensures Finished(plan, result, quiet)
      ensures app.AppPanic? <==> result.Panicked?
      ensures app.AppError? ==> result.Returned? && ApplicationFailed in result.errors
    {
      match app {
        case AppPanic => result, quiet := AfterPanic(plan, root);
        case AppError => result, quiet := AfterError(plan, root);
        case AppOk => result, quiet := AfterSuccess(plan, root, hasHandle);
      }
    }

    /** The scope is open: the application runs, and everything after it. */
    method RunApplication(plan: OperationPlan, root: Root, hasHandle: bool, app: AppOutcome) returns (result: Result, ghost quiet: seq<Event>)
      requires Wired() && (Idempotent(plan) ==> idempotency != null) && Scoped(plan, root) && !root.finalized
      requires After(ProgramOf(plan, idempotency), journal.log) == At(Open)
      modifies Parts(), root, root.unit
      ensures Finished(plan, result, quiet)
      ensures app.AppPanic? <==> result.Panicked?
      ensures app.AppError? ==> result.Returned? && ApplicationFailed in result.errors
      ensures Effect.App(app) in journal.log
    {
      Observe(PhaseApplication, OutcomeStarted);
      ghost var was := journal.log;
      Pushed(ProgramOf(plan, idempotency), was, Effect.App(app), Open);
      journal.log := was + [Effect.App(app)];
      ghost var rest;
      result, rest := AfterApplication(plan, root, hasHandle, app);
      assert journal.log[|was|] == Effect.App(app);
      quiet := [Event(PhaseApplication, OutcomeStarted)] + rest;
    }

    // ----- before the application -----

    /** The security phase, or what stands in for it. */
    method Secure(plan: OperationPlan, security: Option<SecurityAnswer>) returns (error: Option<Error>)
      modifies this
      ensures old(events) <= events && Quiet(events[|old(events)|..])
      ensures error.None? <==> security == Some(Passes) || (security.None? && !plan.isProtected)
    {
      if security.None? {
        if plan.isProtected {
          Observe(PhaseSecurity, OutcomeFailure);
          return Some(SecurityUnavailable);
        }
        Observe(PhaseSecurity, OutcomeSuccess);
        return None;
      }
      Observe(PhaseSecurity, OutcomeStarted);
      match security.value {
        case Denies =>
          Observe(PhaseSecurity, OutcomeFailure);
          return Some(SecurityFailed);
        case GivesNilContext =>
          Observe(PhaseSecurity, OutcomeFailure);
          return Some(SecurityNilContext);
        case Passes =>
          Observe(PhaseSecurity, OutcomeSuccess);
          return None;
      }
    }

    /** Opens the root scope: a unit of work for a transactional mode, none otherwise. */
    method BeginRoot(plan: OperationPlan, factory: Option<FactoryAnswer>) returns (root: Root?, hasHandle: bool)
      requires After(ProgramOf(plan, idempotency), journal.log) == At(Ready)
      modifies journal
      ensures root != null ==> fresh(root) && !root.finalized && Scoped(plan, root) && root.rootId == plan.operationId
                               && (root.unit != null ==> fresh(root.unit))
                               && After(ProgramOf(plan, idempotency), journal.log) == At(Open)
      ensures root == null ==> After(ProgramOf(plan, idempotency), journal.log) == At(Failing(ProgramOf(plan, idempotency)))
      ensures root != null <==>
                NormalizeMode(plan.transaction).Some?
                && (NormalizeMode(plan.transaction).value.NoTransaction? || (factory.Some? && factory.value.GivesUnit?))
      ensures root != null ==> (root.mode.Local? <==> plan.transaction == "local")
                               && (root.mode.ReadOnly? <==> plan.transaction == "read_only")
      ensures journal.log == old(journal.log) + [Effect.Begin(root != null)]
    {
      root, hasHandle := null, false;
      var mode := NormalizeMode(plan.transaction);
      if mode.Some? {
        if mode.value.NoTransaction? {
          root := new Root(plan.operationId, NoTransaction, null);
        } else if factory.Some? && factory.value.GivesUnit? {
          var unit := new UnitOfWork(journal, factory.value.answer);
          root := new Root(plan.operationId, mode.value, unit);
          hasHandle := factory.value.hasHandle;
        }
      }
      Pushed(ProgramOf(plan, idempotency), journal.log, Effect.Begin(root != null), Ready);
      journal.log := journal.log + [Effect.Begin(root != null)];
    }

    /** One outcome was reported, last, and it is that of the result. */
    twostate predicate Reported(result: Result)
      reads this
    {
      && |old(events)| < |events| && old(events) <= events
      && events[|events| - 1] == Event(PhaseOutcome, OutcomeOf(result))
      && Quiet(events[|old(events)|..|events| - 1])
    }

    method ClaimKey(plan: OperationPlan) returns (r: BeginAnswer)
      requires Wired() && journal.log == [] && Idempotent(plan) && idempotency != null
      modifies Parts() - {this}
      ensures r.NoKey? || r.NoAttempt? <==> journal.log == []
      ensures r.NoKey? <==> !idempotency.hasKey
      ensures journal.log != [] ==>
                After(ProgramOf(plan, idempotency), journal.log) == At(if r.Begun? then Ready else Done(false))
      ensures r.Unclaimed? ==> journal.log == [Effect.Claim(false)]
    {
      ghost var was := journal.log;
      r := idempotency.Begin();
      if r.Begun? || r.Unclaimed? {
        Pushed(ProgramOf(plan, idempotency), was, Effect.Claim(r.Begun?), Idle);
      }
    }

    function WhyNotBegun(r: BeginAnswer): Error {
      match r
      case NoKey => KeyRequired
      case NoAttempt => AttemptUnavailable
      case _ => ClaimFailed
    }

    /** From the claim on: the journal is empty before. */
    method ExecuteSecured(plan: OperationPlan, outside: Outside) returns (result: Result)
      requires Wired() && journal.log == []
      modifies Parts()
      ensures Reported(result)
      ensures if journal.log == [] then !result.Ok()
              else After(ProgramOf(plan, idempotency), journal.log) == At(Done(result.Ok()))
      ensures Idempotent(plan) && idempotency != null && !idempotency.hasKey ==>
                result == Returned([KeyRequired]) && journal.log == []
      ensures journal.log == [] || journal.log == [Effect.Claim(false)] ==> result.Returned?
      ensures journal.log == [] || journal.log == [Effect.Claim(false)] || Ran(plan, outside, result, journal.log)
    {
      Observe(PhaseIdempotencyBegin, OutcomeStarted);
      if Idempotent(plan) {
        if idempotency == null {
          Observe(PhaseIdempotencyBegin, OutcomeFailure);
          Observe(PhaseOutcome, OutcomeFailure);
          return Returned([IdempotencyUnavailable]);
        }
        var answer := ClaimKey(plan);
        if !answer.Begun? {
          Observe(PhaseIdempotencyBegin, OutcomeFailure);
          Observe(PhaseOutcome, OutcomeFailure);
          return Returned([WhyNotBegun(answer)]);
        }
      }
      Observe(PhaseIdempotencyBegin, OutcomeSuccess);
      result := ExecuteScoped(plan, outside);
    }

    /** From the root scope on. */
    method ExecuteScoped(plan: OperationPlan, outside: Outside) returns (result: Result)
      requires Wired() && (Idempotent(plan) ==> idempotency != null)
      requires After(ProgramOf(plan, idempotency), journal.log) == At(Ready)
      modifies Parts()
      ensures Reported(result)
      ensures After(ProgramOf(plan, idempotency), journal.log) == At(Done(result.Ok()))
      ensures Ran(plan, outside, result, journal.log)
    {
      Observe(PhaseExecutionScope, OutcomeStarted);
      var root, hasHandle := BeginRoot(plan, outside.factory);
      if root == null {
        var _ := Fail(plan);
        Observe(PhaseExecutionScope, OutcomeFailure);
        Observe(PhaseOutcome, OutcomeFailure);
        return Returned([ScopeFailed]);
      }
      Observe(PhaseExecutionScope, OutcomeSuccess);
      ghost var was := events;
      ghost var quiet;
      result, quiet := RunApplication(plan, root, hasHandle, outside.app);
      assert events == was + quiet + [Event(PhaseOutcome, OutcomeOf(result))];
    }

    /** Security first, then the rest; what reached the outside is a finished run of the worker program. */
    method ExecuteGuarded(plan: OperationPlan, outside: Outside) returns (result: Result)
      requires Wired() && journal.log == []
      modifies Parts()
      ensures Reported(result)
      ensures journal.log != [] ==> outside.security == Some(Passes) || (outside.security.None? && !plan.isProtected)
      ensures if journal.log == [] then result.Returned? && !result.Ok()
              else After(ProgramOf(plan, idempotency), journal.log) == At(Done(result.Ok()))
      ensures journal.log == [Effect.Claim(false)] ==> result.Returned?
      ensures journal.log == [] || journal.log == [Effect.Claim(false)] || Ran(plan, outside, result, journal.log)
    {
      Observe(PhasePlan, OutcomeStarted);
      Observe(PhaseMetadata, OutcomeSuccess);
      var error := Secure(plan, outside.security);
      if error.Some? {
        Observe(PhaseOutcome, OutcomeFailure);
        return Returned([error.value]);
      }
      result := ExecuteSecured(plan, outside);
    }

    predicate Gated(plan: OperationPlan, outside: Outside) {
      !outside.hasInvoker || plan.operationId == "" || outside.scopeActive
    }

    /**
     One call of the executor.  A gated call does nothing at all; every other call reports one
     outcome, last, which agrees with the result.  There is no error exactly when every answer
     was good; without an error everything the plan asked for was done, once.  Whatever happened,
     nothing is kept that an application did not stand behind, what a failed one did is undone,
     a unit is closed once, and a granted claim is ended.
     */
    method Execute(plan: OperationPlan, outside: Outside) returns (result: Result)
      requires Wired() && journal.log == []
      modifies Parts()
      ensures Gated(plan, outside) ==> events == old(events) && journal.log == [] && !result.Ok() && !result.Panicked?
      ensures !Gated(plan, outside) ==> Reported(result)
      ensures result.Ok() ==> outside.app.AppOk?
      ensures result.Ok() <==> journal.log != [] && forall e | e in journal.log :: Good(e)
      ensures result.Ok() ==> journal.log == SuccessLog(plan, idempotency != null && idempotency.reportsAtomic)
      ensures result.Panicked? <==> Effect.App(AppPanic) in journal.log
      ensures Effect.App(AppError) in journal.log ==> result.Returned? && ApplicationFailed in result.errors
      ensures forall e | e in journal.log && e.App? :: e.outcome == outside.app
      ensures journal.log != [] ==> outside.security == Some(Passes) || (outside.security.None? && !plan.isProtected)
      ensures KeptBehindSuccess(journal.log) && RunsOnce(journal.log)
      ensures Effect.Claim(true) in journal.log ==> ClaimEnds(journal.log, result.Ok())
      ensures journal.log != [] ==> if plan.idempotency == "required" then journal.log[0].Claim?
                                    else forall e | e in journal.log :: !e.Claim? && !e.Stage? && !e.Mark?
      ensures plan.transaction == "" || plan.transaction == "none" ==>
                forall e | e in journal.log :: !e.Commit? && !e.Rollback? && !e.Close?
      ensures plan.transaction != "" && plan.transaction != "none" && plan.transaction != "read_only" && plan.transaction != "local" ==>
                forall e | e in journal.log :: !e.App?
      ensures plan.transaction == "read_only" || plan.transaction == "local" ==>
                UndoneAfterFailure(journal.log) && Count(journal.log, AnyClose) == Count(journal.log, GoodBegin)
      ensures Count(journal.log, GoodCommit) <= 1 && Count(journal.log, GoodBegin) <= 1
      ensures forall i, j | 0 <= i < j < |journal.log| && journal.log[i] == Effect.Commit(true) :: !journal.log[j].Rollback?
    {
      if !outside.hasInvoker {
        return Returned([InvokerRequired]);
      }
      if plan.operationId == "" {
        return Returned([OperationIdRequired]);
      }
      if outside.scopeActive {
        return Returned([ScopeAlreadyActive]);
      }
      result := ExecuteGuarded(plan, outside);
      if journal.log != [] {
        FinishedCall(plan, idempotency, journal.log, result.Ok());
        FinishedApplication(plan, idempotency, journal.log, outside, result);
        FinishedCounts(plan, idempotency, journal.log, result.Ok());
      }
    }

    /**
     A child operation joins the root scope of its parent and is not authorized again.  A panic
     of the child is not caught here: it unwinds to the root without a child outcome.
     */
    method ExecuteChild(parent: Option<Frame>, operation: OperationId, mode: string, needs: set<OperationId>,
                        hasInvoker: bool, app: AppOutcome) returns (joined: Joined, result: Result)
      modifies this
      ensures joined == if !hasInvoker || parent.None? then JoinRefused(ScopeUnavailable)
                        else JoinChild(parent, operation, mode, needs)
      ensures result.Panicked? <==> joined.Joined? && app.AppPanic?
      ensures result.Ok() <==> joined.Joined? && app.AppOk?
      ensures joined.JoinRefused? ==> events == old(events)
      ensures joined.Joined? && !app.AppPanic? ==> Reported(result)
      ensures joined.Joined? && app.AppPanic? ==> old(events) <= events && Quiet(events[|old(events)|..])
    {
      if !hasInvoker || parent.None? {
        return JoinRefused(ScopeUnavailable), Returned([ScopeFailed]);
      }
      joined := JoinChild(parent, operation, mode, needs);
      if joined.JoinRefused? {
        return joined, Returned([ScopeFailed]);
      }
      Observe(PhasePlan, OutcomeStarted);
      Observe(PhaseMetadata, OutcomeSuccess);
      Observe(PhaseApplication, OutcomeStarted);
      if app.AppPanic? {
        return joined, Panicked;
      }
      result := Returned(if app.AppOk? then [] else [ApplicationFailed]);
      Observe(PhaseApplication, OutcomeOf(result));
      Observe(PhaseOutcome, OutcomeOf(result));
    }
  }
}
