/** Request scopes: the GORM unit of work, the scope that owns one, and the callback run inside it. */
module RequestScope {
  import opened Idempotency
  import opened WorkerProgram
  import opened ExecutionScope

  // ----- the GORM unit of work -----

  datatype Asked = AskedCommit(ok: bool) | AskedRollback(ok: bool)

  /** A database transaction may answer each call as it likes. */
  class Transaction {
    const answer: nat -> bool
    ghost var asked: seq<Asked>
    var count: nat

    constructor (answer: nat -> bool)
      ensures asked == [] && count == 0 && this.answer == answer
    {
      this.answer, this.asked, this.count := answer, [], 0;
    }

    method Commit() returns (ok: bool)
      modifies this
      ensures asked == old(asked) + [AskedCommit(ok)] && ok == answer(old(count))
    {
      ok := answer(count);
      count := count + 1;
      asked := asked + [AskedCommit(ok)];
    }

    method Rollback() returns (ok: bool)
      modifies this
      ensures asked == old(asked) + [AskedRollback(ok)] && ok == answer(old(count))
    {
      ok := answer(count);
      count := count + 1;
      asked := asked + [AskedRollback(ok)];
    }
  }

  /** Failed commits, any number of them. */
  ghost predicate OnlyFailedCommits(asked: seq<Asked>) {
    forall i | 0 <= i < |asked| :: asked[i] == AskedCommit(false)
  }

  class GormUnitOfWork {
    const transaction: Transaction
    var finished: bool
    var finishErr: bool

    ghost predicate Valid()
      reads this, transaction
    {
      var asked := transaction.asked;
      if !finished then OnlyFailedCommits(asked) && !Committed()
      else
        && asked != [] && OnlyFailedCommits(asked[..|asked| - 1])
        && asked[|asked| - 1] == (if finishErr then AskedRollback(false)
                                  else if Committed() then AskedCommit(true)
                                  else AskedRollback(true))
    }

    /** The transaction's commit has succeeded. */
    ghost predicate Committed()
      reads this, transaction
    {
      transaction.asked != [] && transaction.asked[|transaction.asked| - 1] == AskedCommit(true)
    }

    constructor (transaction: Transaction)
      requires transaction.asked == []
      ensures Valid() && this.transaction == transaction && !finished && !Committed()
    {
      this.transaction, this.finished, this.finishErr := transaction, false, false;
    }

    method Commit() returns (ok: bool)
      requires Valid()
      modifies this, transaction
      ensures Valid()
      ensures old(finished) ==> transaction.asked == old(transaction.asked) && ok == !finishErr && finishErr == old(finishErr)
      ensures !old(finished) ==> (ok <==> finished) && (ok <==> Committed()) && (ok ==> !finishErr)
      ensures !old(finished) ==> transaction.asked == old(transaction.asked) + [AskedCommit(ok)]
      ensures old(Committed()) ==> ok && Committed()
      ensures old(finished) ==> finished
    {
      if finished {
        return !finishErr;
      }
      ok := transaction.Commit();
      assert transaction.asked[..|transaction.asked| - 1] == old(transaction.asked);
      finishErr := !ok;
      if ok {
        finished := true;
      }
    }

    method Rollback() returns (ok: bool)
      requires Valid()
      modifies this, transaction
      ensures Valid() && finished && ok == !finishErr
      ensures old(finished) ==> transaction.asked == old(transaction.asked) && finishErr == old(finishErr)
      ensures !old(finished) ==> ok == transaction.answer(old(transaction.count))
      ensures Committed() <==> old(Committed())
      ensures old(Committed()) ==> ok
    {
      if finished {
        return !finishErr;
      }
      ok := transaction.Rollback();
      assert transaction.asked[..|transaction.asked| - 1] == old(transaction.asked);
      finished := true;
      finishErr := !ok;
    }

    /** Never fails once the commit has succeeded, and leaves the transaction alone then. */
    method Close() returns (ok: bool)
      requires Valid()
      modifies this, transaction
      ensures Valid() && finished
      ensures old(finished) ==> ok && transaction.asked == old(transaction.asked) && finishErr == old(finishErr)
      ensures Committed() <==> old(Committed())
      ensures old(Committed()) ==> ok
    {
      if finished {
        return true;
      }
      ok := transaction.Rollback();
      assert transaction.asked[..|transaction.asked| - 1] == old(transaction.asked);
      finished := true;
      finishErr := !ok;
    }
  }

  ghost predicate OnlyCommits(asked: seq<Asked>) {
    forall a | a in asked :: a.AskedCommit?
  }

  /** The transaction ended by being rolled back, without an error. */
  ghost predicate RolledBackQuietly(asked: seq<Asked>) {
    asked != [] && asked[|asked| - 1] == AskedRollback(true)
  }

  datatype UnitCall = CallCommit | CallRollback | CallClose

  /**
   Under any sequence of calls the transaction is committed at most once and left alone
   afterwards; and from then on every call, Close among them, reports no error.
   */
  method DriveGorm(unit: GormUnitOfWork, calls: seq<UnitCall>) returns (oks: seq<bool>)
    requires unit.Valid() && !unit.finished && unit.transaction.asked == []
    modifies unit, unit.transaction
    ensures |oks| == |calls|
    ensures forall i, j | 0 <= i < j < |calls| && calls[i].CallCommit? && oks[i] && unit.Committed() :: oks[j]
    ensures var asked := unit.transaction.asked; asked == [] || OnlyFailedCommits(asked[..|asked| - 1])
    ensures unit.Valid() && ((forall c | c in calls :: c.CallCommit?) ==> OnlyCommits(unit.transaction.asked))
  {
    oks := [];
    var i := 0;
    while i < |calls|
      invariant 0 <= i <= |calls| && |oks| == i && unit.Valid()
      invariant forall j, k | 0 <= j < k < i && calls[j].CallCommit? && oks[j] && unit.Committed() :: oks[k]
      invariant forall j | 0 <= j < i && calls[j].CallCommit? && oks[j] :: unit.finished
      invariant (forall c | c in calls :: c.CallCommit?) ==> OnlyCommits(unit.transaction.asked)
    {
      var ok;
      assert calls[i] in calls;
      match calls[i] {
        case CallCommit => ok := unit.Commit();
        case CallRollback => ok := unit.Rollback();
        case CallClose => ok := unit.Close();
      }
      oks := oks + [ok];
      i := i + 1;
    }
  }

  /**
   The application can reach the unit and may have called it before the root commits it.  The
   root's commit is then reported as done exactly when the transaction was committed, or was
   rolled back quietly; an application that asks for commits only cannot bring that about.
   */
  method CommitAfterApplication(unit: GormUnitOfWork, calls: seq<UnitCall>) returns (ok: bool)
    requires unit.Valid() && !unit.finished && unit.transaction.asked == []
    modifies unit, unit.transaction
    ensures unit.Valid() && (ok <==> unit.Committed() || RolledBackQuietly(unit.transaction.asked))
    ensures (forall c | c in calls :: c.CallCommit?) ==> (ok <==> unit.Committed())
  {
    var oks := DriveGorm(unit, calls);
    ghost var asked := unit.transaction.asked;
    assert asked != [] ==> asked[|asked| - 1] in asked;
    ok := unit.Commit();
  }

  /** It does happen: one rollback by the application, and the root's commit reports an effect that there is not. */
  method RollbackHidesEffect(answer: nat -> bool) returns (unit: GormUnitOfWork, ok: bool)
    requires answer(0)
    ensures fresh(unit) && unit.Valid() && ok && !unit.Committed()
  {
    var transaction := new Transaction(answer);
    unit := new GormUnitOfWork(transaction);
    var rolled := unit.Rollback();
    ok := unit.Commit();
  }

  // ----- the request scope -----

  datatype FinalAction = NoAction | CommitDone | CommitRefused | RolledBack

  /** Everything a scope can ever have asked of its unit, for each way it can stand. */
  predicate ScopeLog(log: seq<Effect>, action: FinalAction, closed: bool) {
    var body := if closed && log != [] then log[..|log| - 1] else log;
    && (closed ==> log != [] && log[|log| - 1].Close? && (action.CommitDone? || action.RolledBack?))
    && match action
       case NoAction => body == []
       case CommitDone => body == [Effect.Commit(true)]
       case CommitRefused => body == [Effect.Commit(false)]
       case RolledBack =>
         || (|body| == 1 && body[0].Rollback?)
         || (|body| == 2 && body[0] == Effect.Commit(false) && body[1].Rollback?)
  }

  /** At most one good commit, no rollback after it, and closed at most once, last. */
  lemma ScopeLogShape(log: seq<Effect>, action: FinalAction, closed: bool)
    requires ScopeLog(log, action, closed)
    ensures forall i, j | 0 <= i < j < |log| && log[i] == Effect.Commit(true) :: log[j].Close?
    ensures forall i | 0 <= i < |log| && log[i].Close? :: closed && i == |log| - 1
    ensures closed <==> log != [] && log[|log| - 1].Close?
  {
    var body := if closed && log != [] then log[..|log| - 1] else log;
    assert forall i | 0 <= i < |body| :: body[i] == log[i];
  }

  /**
   The invariant rules out a closed scope that was neither committed nor rolled back, so the
   source's extra check for a closed scope in Commit and Rollback can never be what answers.
   */
  class Scope {
    const unit: UnitOfWork
    const journal: Journal
    var action: FinalAction
    var commitOk: bool
    var rollbackOk: bool
    var closed: bool
    var closeOk: bool

    ghost predicate Valid()
      reads this, unit, journal
    {
      && unit.journal == journal
      && ScopeLog(journal.log, action, closed)
      && (commitOk <==> !action.CommitRefused? && !(action.RolledBack? && journal.log[0].Commit?))
      && (action.RolledBack? ==> (rollbackOk <==> Effect.Rollback(true) in journal.log))
      && (closed && closeOk ==> journal.log[|journal.log| - 1] == Effect.Close(true))
      && (closed && !closeOk && action.CommitDone? ==> journal.log[|journal.log| - 1] == Effect.Close(false))
    }

    constructor (unit: UnitOfWork, journal: Journal)
      requires unit.journal == journal && journal.log == []
      ensures Valid() && this.unit == unit && this.journal == journal && action == NoAction && !closed
    {
      this.unit, this.journal := unit, journal;
      action, commitOk, rollbackOk, closed, closeOk := NoAction, true, true, false, true;
    }

    method Commit() returns (ok: bool)
      requires Valid()
      modifies this, unit, journal
      ensures Valid() && closed == old(closed)
      ensures old(action.NoAction?) ==> journal.log == old(journal.log) + [Effect.Commit(ok)]
      ensures ok <==> Effect.Commit(true) in journal.log
      ensures old(action.NoAction?) ==> (ok <==> action.CommitDone?) && (!ok <==> action.CommitRefused?)
      ensures !old(action.NoAction?) ==> action == old(action) && journal.log == old(journal.log) && (ok <==> action.CommitDone?)
    {
      assert action.CommitDone? ==> journal.log[0] == Effect.Commit(true);
      match action {
        case CommitDone => return commitOk;
        case CommitRefused => return commitOk;
        case RolledBack => return false;
        case NoAction =>
      }
      ok := unit.Commit();
      commitOk := ok;
      action := if ok then CommitDone else CommitRefused;
    }

    method Rollback() returns (ok: bool)
      requires Valid()
      modifies this, unit, journal
      ensures Valid() && closed == old(closed)
      ensures ok <==> Effect.Rollback(true) in journal.log
      ensures old(action.NoAction? || action.CommitRefused?) ==> journal.log == old(journal.log) + [Effect.Rollback(ok)]
      ensures old(action.CommitDone?) ==> !ok && action.CommitDone? && journal.log == old(journal.log)
      ensures !old(action.CommitDone?) ==> action.RolledBack?
      ensures old(action.RolledBack?) ==> journal.log == old(journal.log)
    {
      match action {
        case RolledBack => return rollbackOk;
        case CommitDone => return false;
        case _ =>
      }
      action := RolledBack;
      ok := unit.Rollback();
      rollbackOk := ok;
    }

    /** Closing twice is closing once; an unfinished scope is rolled back first. */
    method Close() returns (ok: bool)
      requires Valid()
      modifies this, unit, journal
      ensures Valid() && closed && ok == closeOk
      ensures old(closed) ==> ok == old(closeOk) && journal.log == old(journal.log) && action == old(action)
      ensures !old(closed) && old(action.CommitDone? || action.RolledBack?) ==> journal.log == old(journal.log) + [Effect.Close(ok)]
      ensures !old(closed) && old(action.NoAction? || action.CommitRefused?) ==>
                exists undone, shut :: journal.log == old(journal.log) + [Effect.Rollback(undone), Effect.Close(shut)] && ok == (undone && shut)
      ensures old(action.CommitDone?) <==> action.CommitDone?
    {
      if closed {
        return closeOk;
      }
      ok := true;
      if action.NoAction? || action.CommitRefused? {
        action := RolledBack;
        rollbackOk := unit.Rollback();
        ok := rollbackOk;
      }
      ghost var was := journal.log;
      var shut := unit.Close();
      assert journal.log[..|journal.log| - 1] == was;
      ok := ok && shut;
      closed, closeOk := true, ok;
    }
  }

  /**
   Building a scope: the unit is begun, then application code builds the repositories, which may
   fail or panic.  Until the scope is handed out, the factory cleans its unit up itself.
   */
  method NewScope(unit: UnitOfWork, journal: Journal, repositories: AppOutcome) returns (scope: Scope?)
    requires unit.journal == journal && journal.log == []
    modifies unit, journal
    ensures scope != null <==> repositories.AppOk?
    ensures scope != null ==> scope.Valid() && fresh(scope) && scope.unit == unit && scope.journal == journal
                              && journal.log == [] && scope.action.NoAction? && !scope.closed
    ensures scope == null ==> ScopeLog(journal.log, RolledBack, true)
                              && |journal.log| == 2 && journal.log[0].Rollback? && journal.log[1].Close?
  {
    if !repositories.AppOk? {
      var undone := unit.Rollback();
      var shut := unit.Close();
      assert journal.log == [Effect.Rollback(undone), Effect.Close(shut)];
      return null;
    }
    scope := new Scope(unit, journal);
  }

  // ----- running a callback in a scope -----

  /** The callback is handed the scope and may use it before it ends. */
  method RunCallback(scope: Scope, calls: seq<UnitCall>)
    requires scope.Valid()
    modifies scope, scope.unit, scope.journal
    ensures scope.Valid()
    ensures calls == [] ==> scope.action == old(scope.action) && scope.journal.log == old(scope.journal.log) && scope.closed == old(scope.closed)
  {
    for i := 0 to |calls|
      invariant scope.Valid()
      invariant i == 0 ==> scope.action == old(scope.action) && scope.journal.log == old(scope.journal.log)
                           && scope.closed == old(scope.closed)
    {
      match calls[i] {
        case CallCommit => var _ := scope.Commit();
        case CallRollback => var _ := scope.Rollback();
        case CallClose => var _ := scope.Close();
      }
    }
  }

  datatype Ending = Fine | WithError | WithPanic

  /**
   Commit on success, roll back on error, roll back and close on panic.  Whatever the callback
   did with the scope and however the unit answers, the scope ends closed, once; and success
   is reported only for a committed unit.
   */
  method Execute(unit: UnitOfWork, journal: Journal, repositories: AppOutcome, calls: seq<UnitCall>, app: AppOutcome)
    returns (ending: Ending, ghost action: FinalAction)
    requires unit.journal == journal && journal.log == []
    modifies unit, journal
    ensures ScopeLog(journal.log, action, true)
    ensures ending.WithPanic? <==> repositories.AppPanic? || (repositories.AppOk? && app.AppPanic?)
    ensures !repositories.AppOk? ==> action.RolledBack?
    ensures ending.Fine? <==> repositories.AppOk? && app.AppOk? && Effect.Commit(true) in journal.log && Effect.Close(true) in journal.log
    ensures ending.Fine? ==> action.CommitDone? && journal.log[|journal.log| - 1] == Effect.Close(true)
    ensures repositories.AppOk? && calls == [] && app.AppOk? ==> journal.log[0].Commit? && (action.CommitDone? <==> journal.log[0].ok)
    ensures calls == [] && !app.AppOk? ==> action.RolledBack? && |journal.log| == 2 && journal.log[0].Rollback? && journal.log[1].Close?
  {
    var scope := NewScope(unit, journal, repositories);
    if scope == null {
      return if repositories.AppPanic? then WithPanic else WithError, RolledBack;
    }
    RunCallback(scope, calls);
    match app {
      case AppPanic =>
        var _ := scope.Rollback();
        var _ := scope.Close();
        ending := WithPanic;
      case AppError =>
        var _ := scope.Rollback();
        var _ := scope.Close();
        ending := WithError;
      case AppOk =>
        var committed := scope.Commit();
        if committed {
          var shut := scope.Close();
          ending := if shut then Fine else WithError;
        } else {
          var _ := scope.Rollback();
          var _ := scope.Close();
          ending := WithError;
        }
    }
    action := scope.action;
  }
}
