/**
 The order in which one call of the operation executor touches the outside world:
 the idempotency store, the unit of work, the application.  `Advance` is that order;
 the executor method is proved to follow it, and the protocol runs interleave it.
 */
module WorkerProgram {
  import opened Idempotency

  datatype Mode = NoTransaction | ReadOnly | Local

  /** What the plan and the wiring ask for; atomic completion needs an idempotent, local plan. */
  datatype Plan = Plan(idempotent: bool, mode: Mode, atomic: bool)

  predicate Proper(plan: Plan) {
    plan.atomic ==> plan.idempotent && plan.mode == Local
  }

  datatype AppOutcome = AppOk | AppError | AppPanic

  /** One call to the outside, with what it came back with. */
  datatype Effect =
    | Claim(granted: bool)
    | Begin(ok: bool)
    | App(outcome: AppOutcome)
    | Stage(ok: bool)
    | Commit(ok: bool)
    | Rollback(ok: bool)
    | Close(ok: bool)
    | Mark(status: Status, ok: bool)

  datatype PC =
    | Idle
    | Ready
    | Open
    | Staging
    | ToCommit
    | CommitFailed
    | ToRollback
    | ToClose(committed: bool)
    | ToComplete
    | ToFail
    | Done(success: bool)

  function Start(plan: Plan): PC {
    if plan.idempotent then Idle else Ready
  }

  /** Plans without idempotency have nothing to mark. */
  function Completing(plan: Plan): PC {
    if plan.idempotent && !plan.atomic then ToComplete else Done(true)
  }

  function Failing(plan: Plan): PC {
    if plan.idempotent then ToFail else Done(false)
  }

  function HasUnit(plan: Plan): bool {
    plan.mode != NoTransaction
  }

  datatype Next = At(pc: PC) | Refused

  function Advance(plan: Plan, pc: PC, e: Effect): Next {
    match (pc, e)
    case (Idle, Claim(granted)) => At(if granted then Ready else Done(false))
    case (Ready, Begin(ok)) => At(if ok then Open else Failing(plan))
    case (Open, App(AppOk)) => At(if plan.atomic then Staging else if HasUnit(plan) then ToCommit else Completing(plan))
    case (Open, App(_)) => At(if HasUnit(plan) then ToRollback else Failing(plan))
    case (Staging, Stage(ok)) => At(if ok then ToCommit else ToRollback)
    case (ToCommit, Commit(ok)) => At(if ok then ToClose(true) else CommitFailed)
    case (CommitFailed, Rollback(_)) => At(ToClose(false))
    case (ToRollback, Rollback(_)) => At(ToClose(false))
    case (ToClose(committed), Close(ok)) => At(if committed && ok then Completing(plan) else Failing(plan))
    case (ToComplete, Mark(Succeeded, ok)) => At(Done(ok))
    case (ToFail, Mark(Failed, _)) => At(Done(false))
    case _ => Refused
  }

  /** Where a log of effects leads from the start, if the program allows it. */
  function After(plan: Plan, log: seq<Effect>): Next {
    if log == [] then At(Start(plan))
    else
      match After(plan, log[..|log| - 1])
      case At(pc) => Advance(plan, pc, log[|log| - 1])
      case Refused => Refused
  }

  datatype Kind = GoodCommit | AnyClose | GoodBegin | AnyMark

  predicate Is(e: Effect, kind: Kind) {
    match kind
    case GoodCommit => e == Commit(true)
    case AnyClose => e.Close?
    case GoodBegin => e == Begin(true)
    case AnyMark => e.Mark?
  }

  function Count(log: seq<Effect>, kind: Kind): nat {
    if log == [] then 0 else Count(log[..|log| - 1], kind) + if Is(log[|log| - 1], kind) then 1 else 0
  }

  /** The unit was acquired and is not closed yet. */
  predicate HoldsUnit(pc: PC) {
    pc.Open? || pc.Staging? || pc.ToCommit? || pc.CommitFailed? || pc.ToRollback? || pc.ToClose?
  }

  /** The unit's commit has succeeded at this point of a log that leads to `pc`. */
  predicate MayHaveCommitted(pc: PC) {
    (pc.ToClose? && pc.committed) || pc.ToComplete? || pc.ToFail? || pc.Done?
  }

  /**
   Whatever the outside answers: at most one commit succeeds, an acquired unit is closed
   once and stays acquired until then, and at most one mark is made.
   */
  lemma {:induction false} LogShape(plan: Plan, log: seq<Effect>)
    requires Proper(plan) && After(plan, log).At?
    ensures var pc := After(plan, log).pc;
            && Count(log, GoodCommit) <= 1 && (Count(log, GoodCommit) == 1 ==> MayHaveCommitted(pc))
            && (pc.ToClose? && pc.committed ==> Count(log, GoodCommit) == 1)
            && Count(log, GoodBegin) <= 1
            && (HoldsUnit(pc) ==> Count(log, GoodBegin) == 1)
            && (pc.Idle? || pc.Ready? ==> Count(log, GoodBegin) == 0)
            && Count(log, AnyClose) == (if HasUnit(plan) && !HoldsUnit(pc) then Count(log, GoodBegin) else 0)
            && (HoldsUnit(pc) && !HasUnit(plan) ==> pc.Open?)
            && Count(log, AnyMark) <= 1 && (Count(log, AnyMark) == 1 ==> pc.Done?)
  {
    if log != [] {
      LogShape(plan, log[..|log| - 1]);
    }
  }

  /** After a successful commit the unit is never rolled back. */
  lemma {:induction false} NoRollbackAfterCommit(plan: Plan, log: seq<Effect>, i: nat, j: nat)
    requires Proper(plan) && After(plan, log).At? && i < j < |log| && log[i] == Commit(true)
    ensures !log[j].Rollback?
    decreases |log|
  {
    var init := log[..|log| - 1];
    if j < |log| - 1 {
      NoRollbackAfterCommit(plan, init, i, j);
    } else {
      CommitsCounted(init, i);
      LogShape(plan, init);
    }
  }

  lemma {:induction false} CommitsCounted(log: seq<Effect>, i: nat)
    requires i < |log| && log[i] == Commit(true)
    ensures Count(log, GoodCommit) >= 1
  {
    if i < |log| - 1 {
      CommitsCounted(log[..|log| - 1], i);
    }
  }

  /** A finished call that opened a unit has closed it exactly once. */
  lemma FinishedCallClosesOnce(plan: Plan, log: seq<Effect>)
    requires Proper(plan) && After(plan, log).At? && After(plan, log).pc.Done?
    ensures HasUnit(plan) ==> Count(log, AnyClose) == Count(log, GoodBegin)
    ensures After(plan, log).pc.success && HasUnit(plan) ==> Count(log, GoodCommit) == 1
  {
    LogShape(plan, log);
    if HasUnit(plan) {
      SuccessCommitted(plan, log);
    }
  }

  lemma {:induction false} SuccessCommitted(plan: Plan, log: seq<Effect>)
    requires Proper(plan) && After(plan, log).At? && HasUnit(plan)
    ensures var pc := After(plan, log).pc;
            (pc.ToClose? && pc.committed) || pc.ToComplete? || (pc.Done? && pc.success) ==> Count(log, GoodCommit) == 1
  {
    if log != [] {
      var init := log[..|log| - 1];
      SuccessCommitted(plan, init);
      LogShape(plan, init);
    }
  }
}
