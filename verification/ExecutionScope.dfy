/** The root scope of one operation: who may join it, and how its unit of work ends. */
module ExecutionScope {
  import opened Options
  import opened WorkerProgram

  type OperationId = string

  // ----- modes -----

  /** Absent and blank modes mean no transaction; anything unknown is refused. */
  function NormalizeMode(mode: string): Option<Mode> {
    if mode == "" || mode == "none" then Some(NoTransaction)
    else if mode == "read_only" then Some(ReadOnly)
    else if mode == "local" then Some(Local)
    else None
  }

  function Strength(mode: Mode): nat {
    match mode
    case NoTransaction => 0
    case ReadOnly => 1
    case Local => 2
  }

  // ----- units of work -----

  /** Everything the outside was asked during one call, in order. */
  class Journal {
    ghost var log: seq<Effect>

    constructor ()
      ensures log == []
    {
      log := [];
    }
  }

  /** A unit of work may answer each call as it likes; the journal keeps what it was asked. */
  class UnitOfWork {
    const journal: Journal
    const answer: nat -> bool
    var asked: nat

    constructor (journal: Journal, answer: nat -> bool)
      ensures this.journal == journal && this.answer == answer && asked == 0
    {
      this.journal, this.answer, this.asked := journal, answer, 0;
    }

    method Commit() returns (ok: bool)
      modifies this, journal
      ensures journal.log == old(journal.log) + [Effect.Commit(ok)]
      ensures ok == answer(old(asked)) && asked == old(asked) + 1
    {
      ok := answer(asked);
      asked := asked + 1;
      journal.log := journal.log + [Effect.Commit(ok)];
    }

    method Rollback() returns (ok: bool)
      modifies this, journal
      ensures journal.log == old(journal.log) + [Effect.Rollback(ok)]
      ensures ok == answer(old(asked)) && asked == old(asked) + 1
    {
      ok := answer(asked);
      asked := asked + 1;
      journal.log := journal.log + [Effect.Rollback(ok)];
    }

    method Close() returns (ok: bool)
      modifies this, journal
      ensures journal.log == old(journal.log) + [Effect.Close(ok)]
      ensures ok == answer(old(asked)) && asked == old(asked) + 1
    {
      ok := answer(asked);
      asked := asked + 1;
      journal.log := journal.log + [Effect.Close(ok)];
    }
  }

  // ----- the root -----

  /** How a root may end its unit: nothing else is ever asked of it. */
  predicate EndsUnit(log: seq<Effect>, committed: bool, ok: bool) {
    || (log == [Effect.Commit(true), Effect.Close(ok)] && committed)
    || (|log| == 3 && log[0] == Effect.Commit(false) && log[1].Rollback? && log[2].Close? && !committed && !ok)
    || (|log| == 2 && log[0].Rollback? && log[1].Close? && !committed && (ok <==> log[0].ok && log[1].ok))
  }

  class Root {
    const rootId: OperationId
    const mode: Mode
    const unit: UnitOfWork?
    var finalized: bool

    constructor (rootId: OperationId, mode: Mode, unit: UnitOfWork?)
      ensures this.rootId == rootId && this.mode == mode && this.unit == unit && !finalized
    {
      this.rootId, this.mode, this.unit, this.finalized := rootId, mode, unit, false;
    }

    method Commit() returns (ok: bool)
      modifies this, if unit == null then {} else {unit as object, unit.journal}
      ensures finalized
      ensures old(finalized) || unit == null ==> ok
      ensures unit != null ==>
                if old(finalized) then unit.journal.log == old(unit.journal.log)
                else exists part: seq<Effect> :: unit.journal.log == old(unit.journal.log) + part && part != []
                                    && part[0].Commit? && EndsUnit(part, part[0].ok, ok)
    {
      if finalized {
        return true;
      }
      finalized := true;
      if unit == null {
        return true;
      }
      var committed := unit.Commit();
      if !committed {
        var undone := unit.Rollback();
        var closed := unit.Close();
        ghost var part := [Effect.Commit(false), Effect.Rollback(undone), Effect.Close(closed)];
        assert unit.journal.log == old(unit.journal.log) + part;
        return false;
      }
      ok := unit.Close();
      ghost var part := [Effect.Commit(true), Effect.Close(ok)];
      assert unit.journal.log == old(unit.journal.log) + part;
    }

    method Rollback() returns (ok: bool)
      modifies this, if unit == null then {} else {unit as object, unit.journal}
      ensures finalized
      ensures old(finalized) || unit == null ==> ok
      ensures unit != null ==>
                if old(finalized) then unit.journal.log == old(unit.journal.log)
                else exists part: seq<Effect> :: unit.journal.log == old(unit.journal.log) + part && part != []
                                    && part[0].Rollback? && EndsUnit(part, false, ok)
    {
      if finalized {
        return true;
      }
      finalized := true;
      if unit == null {
        return true;
      }
      var undone := unit.Rollback();
      var closed := unit.Close();
      ghost var part := [Effect.Rollback(undone), Effect.Close(closed)];
      assert unit.journal.log == old(unit.journal.log) + part;
      return undone && closed;
    }
  }

  datatype RootCall = AskCommit | AskRollback

  /**
   Whatever is asked of a root, in whatever order and however often, its unit is ended
   once: committed at most once, never rolled back after a good commit, closed once and last.
   */
  method Drive(root: Root, calls: seq<RootCall>) returns (ghost part: seq<Effect>)
    requires !root.finalized
    modifies root, if root.unit == null then {} else {root.unit as object, root.unit.journal}
    ensures root.finalized <==> calls != []
    ensures root.unit != null ==> root.unit.journal.log == old(root.unit.journal.log) + part
    ensures root.unit == null || calls == [] ==> part == []
    ensures root.unit != null && calls != [] ==> exists committed, ok :: EndsUnit(part, committed, ok)
    ensures root.unit != null && calls != [] && calls[0].AskRollback? ==> part[0].Rollback?
  {
    part := [];
    var i := 0;
    while i < |calls|
      invariant 0 <= i <= |calls|
      invariant root.finalized <==> i > 0
      invariant root.unit != null ==> root.unit.journal.log == old(root.unit.journal.log) + part
      invariant root.unit == null || i == 0 ==> part == []
      invariant root.unit != null && i > 0 ==> exists committed, ok :: EndsUnit(part, committed, ok)
      invariant root.unit != null && i > 0 && calls[0].AskRollback? ==> part[0].Rollback?
    {
      ghost var was := if root.unit == null then [] else root.unit.journal.log;
      if calls[i].AskCommit? {
        var ok := root.Commit();
      } else {
        var ok := root.Rollback();
      }
      if root.unit != null && i == 0 {
        part := root.unit.journal.log[|was|..];
      }
      i := i + 1;
    }
  }

  // ----- frames and children -----

  datatype Frame = Frame(root: Root, operation: OperationId, allowed: set<OperationId>, depth: nat)

  datatype JoinError = ScopeUnavailable | ChildUndeclared | InvalidMode | TransactionConflict

  datatype Joined = Joined(frame: Frame) | JoinRefused(error: JoinError)

  /** Joining opens nothing: the child shares the root, and so its unit and its mode. */
  function JoinChild(parent: Option<Frame>, operation: OperationId, mode: string, needs: set<OperationId>): Joined {
    if parent.None? then JoinRefused(ScopeUnavailable)
    else
      var p := parent.value;
      if operation !in p.allowed then JoinRefused(ChildUndeclared)
      else
        match NormalizeMode(mode)
        case None => JoinRefused(InvalidMode)
        case Some(m) =>
          if p.root.mode.NoTransaction? && !m.NoTransaction? then JoinRefused(TransactionConflict)
          else if p.root.mode.ReadOnly? && m.Local? then JoinRefused(TransactionConflict)
          else Joined(Frame(p.root, operation, needs - {""}, p.depth + 1))
  }

  /** A join succeeds exactly for a declared child whose mode is no stronger than the root's. */
  lemma JoinExactly(parent: Frame, operation: OperationId, mode: string, needs: set<OperationId>)
    ensures JoinChild(Some(parent), operation, mode, needs).Joined? <==>
              operation in parent.allowed && NormalizeMode(mode).Some?
              && Strength(NormalizeMode(mode).value) <= Strength(parent.root.mode)
    ensures JoinChild(Some(parent), operation, mode, needs).Joined? <==>
              && operation in parent.allowed
              && (mode == "" || mode == "none" || (mode == "read_only" && !parent.root.mode.NoTransaction?)
                  || (mode == "local" && parent.root.mode.Local?))
    ensures JoinChild(Some(parent), operation, mode, needs) == JoinRefused(ChildUndeclared) <==> operation !in parent.allowed
    ensures JoinChild(Some(parent), operation, mode, needs) == JoinRefused(InvalidMode) <==>
              operation in parent.allowed && mode != "" && mode != "none" && mode != "read_only" && mode != "local"
    ensures JoinChild(Some(parent), operation, mode, needs).Joined? ==>
              var child := JoinChild(Some(parent), operation, mode, needs).frame;
              && child.root == parent.root && child.operation == operation && child.depth == parent.depth + 1
              && child.allowed == needs - {""}
  {
  }
}
