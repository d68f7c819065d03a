/**
 Any number of workers, each one call of the executor on an idempotent plan, over one
 memory store and one database.  Every effect of a worker is one step; workers may stop
 for good at any point.  The runs are exactly the sequences of steps that are enabled.
 */
module MemoryRuns {
  import opened Idempotency
  import opened WorkerProgram

  /**
   `commitHonest`: a unit whose Commit reports an error was not committed.
   `closeHonest`: a unit's Close does not fail once its Commit has succeeded.
   */
  datatype Setting = Setting(workers: map<nat, Identity>, mode: Mode, commitHonest: bool, closeHonest: bool)

  datatype World = World(records: Records, pcs: map<nat, PC>, dead: set<nat>, committed: set<nat>)

  /** `durable` is what really became of the unit of work when its Commit was called. */
  datatype Step = Does(worker: nat, effect: Effect, durable: bool) | Dies(worker: nat)

  function PlanOf(c: Setting): Plan {
    Plan(true, c.mode, false)
  }

  function Initially(c: Setting): World {
    World(map[], map w | w in c.workers :: Idle, {}, {})
  }

  predicate Honest(c: Setting, pc: PC, e: Effect, durable: bool) {
    match e
    case Commit(ok) => (ok ==> durable) && (c.commitHonest && !ok ==> !durable)
    case Close(ok) => !durable && (c.closeHonest && pc == ToClose(true) ==> ok)
    case _ => !durable
  }

  /** A worker's effect fits its program, the store's answer and the honesty of the unit. */
  predicate Enabled(c: Setting, s: World, step: Step) {
    step.worker in c.workers && step.worker in s.pcs && step.worker !in s.dead &&
    match step
    case Dies(_) => true
    case Does(w, e, durable) =>
      && Advance(PlanOf(c), s.pcs[w], e).At?
      && Honest(c, s.pcs[w], e, durable)
      && (match e
          case Claim(granted) => granted <==> ClaimResultOf(s.records, c.workers[w]).Granted?
          case Mark(status, ok) => ok <==> MarkResultOf(s.records, c.workers[w], status).Marked?
          case _ => true)
  }

  function Taken(c: Setting, s: World, step: Step): World
    requires Enabled(c, s, step)
  {
    match step
    case Dies(w) => s.(dead := s.dead + {w})
    case Does(w, e, durable) =>
      World(
        match e
        case Claim(_) => Claimed(s.records, c.workers[w])
        case Mark(status, _) => MarkedWith(s.records, c.workers[w], status)
        case _ => s.records,
        s.pcs[w := Advance(PlanOf(c), s.pcs[w], e).pc],
        s.dead,
        if durable then s.committed + {w} else s.committed)
  }

  predicate Run(c: Setting, steps: seq<Step>)
    decreases |steps|, 0
  {
    steps == [] || (Run(c, steps[..|steps| - 1]) && Enabled(c, Reached(c, steps[..|steps| - 1]), steps[|steps| - 1]))
  }

  function Reached(c: Setting, steps: seq<Step>): World
    requires Run(c, steps)
    decreases |steps|, 1
  {
    if steps == [] then Initially(c)
    else Taken(c, Reached(c, steps[..|steps| - 1]), steps[|steps| - 1])
  }

  // ----- safety -----

  /** Between the granted claim and the final mark. */
  predicate Active(pc: PC) {
    !pc.Idle? && !pc.Done?
  }

  ghost predicate Excludes(c: Setting, s: World, v: nat, w: nat) {
    v in c.workers && w in c.workers && v in s.pcs && w in s.pcs && v != w && c.workers[v].at == c.workers[w].at ==>
      && !(Active(s.pcs[v]) && Active(s.pcs[w]))
      && !(v in s.committed && (Active(s.pcs[w]) || w in s.committed))
  }

  /** A committed worker still holds its claim on the way to the mark, or has made it. */
  ghost predicate Settled(c: Setting, s: World, w: nat) {
    w in c.workers && w in s.pcs ==>
      && (Active(s.pcs[w]) ==> Holds(s.records, c.workers[w]))
      && (w in s.committed ==>
            || s.pcs[w] == ToClose(true) || s.pcs[w].ToComplete?
            || (s.pcs[w].Done? && c.workers[w].at in s.records && s.records[c.workers[w].at].status.Succeeded?))
      && (s.pcs[w] == ToClose(true) || s.pcs[w].ToComplete? ==> w in s.committed)
  }

  ghost predicate Inv(c: Setting, s: World) {
    && s.pcs.Keys == c.workers.Keys && s.committed <= c.workers.Keys
    && (forall w :: Settled(c, s, w))
    && (forall v, w :: Excludes(c, s, v, w))
  }

  predicate Trusted(c: Setting) {
    c.mode != NoTransaction && c.commitHonest && c.closeHonest
  }

  lemma StepKeepsInv(c: Setting, s: World, step: Step)
    requires Trusted(c) && Inv(c, s) && Enabled(c, s, step)
    ensures Inv(c, Taken(c, s, step))
  {
    var t := Taken(c, s, step);
    var x := step.worker;
    assert Settled(c, s, x);
    forall w ensures Settled(c, t, w) {
      assert Settled(c, s, w) && Excludes(c, s, x, w) && Excludes(c, s, w, x);
    }
    forall v, w ensures Excludes(c, t, v, w) {
      assert Excludes(c, s, v, w) && Excludes(c, s, w, v);
      assert Settled(c, s, v) && Settled(c, s, w);
    }
  }

  lemma {:induction false} RunKeepsInv(c: Setting, steps: seq<Step>)
    requires Trusted(c) && Run(c, steps)
    ensures Inv(c, Reached(c, steps))
  {
    if steps != [] {
      RunKeepsInv(c, steps[..|steps| - 1]);
      StepKeepsInv(c, Reached(c, steps[..|steps| - 1]), steps[|steps| - 1]);
    }
  }

  /** In no run do two workers with the same key both commit. */
  ghost predicate OneCommitPerKey(c: Setting) {
    forall steps, v, w | Run(c, steps) && v in Reached(c, steps).committed && w in Reached(c, steps).committed
                         && v in c.workers && w in c.workers && c.workers[v].at == c.workers[w].at :: v == w
  }

  lemma AtMostOneCommit(c: Setting)
    requires Trusted(c)
    ensures OneCommitPerKey(c)
  {
    forall steps, v, w | Run(c, steps) && v in Reached(c, steps).committed && w in Reached(c, steps).committed
                         && v in c.workers && w in c.workers && c.workers[v].at == c.workers[w].at
      ensures v == w
    {
      RunKeepsInv(c, steps);
      assert Excludes(c, Reached(c, steps), v, w);
    }
  }

  /** Once a worker has committed, no claim on its key is granted any more. */
  lemma NoClaimAfterCommit(c: Setting, steps: seq<Step>, w: nat, other: Identity)
    requires Trusted(c) && Run(c, steps) && w in Reached(c, steps).committed
    requires w in c.workers && other.at == c.workers[w].at
    ensures ClaimResultOf(Reached(c, steps).records, other) != Granted
  {
    RunKeepsInv(c, steps);
    assert Settled(c, Reached(c, steps), w);
  }

  /** ... and commits are not taken back, so this holds for the rest of the run. */
  lemma {:induction false} CommitsLast(c: Setting, steps: seq<Step>, i: nat)
    requires Run(c, steps) && i <= |steps|
    ensures Run(c, steps[..i]) && Reached(c, steps[..i]).committed <= Reached(c, steps).committed
  {
    if i < |steps| {
      CommitsLast(c, steps[..|steps| - 1], i);
      assert steps[..|steps| - 1][..i] == steps[..i];
    } else {
      assert steps[..i] == steps;
    }
  }

  // ----- the two hypotheses are needed -----

  lemma Extended(c: Setting, steps: seq<Step>, step: Step) returns (more: seq<Step>)
    requires Run(c, steps) && Enabled(c, Reached(c, steps), step)
    ensures Run(c, more) && Reached(c, more) == Taken(c, Reached(c, steps), step)
  {
    more := steps + [step];
    assert more[..|steps|] == steps;
  }

  /** An idle worker whose key is free can run up to the call of its unit's Commit. */
  lemma UpToCommit(c: Setting, steps: seq<Step>, w: nat) returns (more: seq<Step>)
    requires c.mode != NoTransaction && Run(c, steps)
    requires w in c.workers && w in Reached(c, steps).pcs && w !in Reached(c, steps).dead
    requires Reached(c, steps).pcs[w] == Idle && ClaimResultOf(Reached(c, steps).records, c.workers[w]).Granted?
    ensures Run(c, more)
    ensures var s := Reached(c, steps);
            Reached(c, more) == s.(records := Claimed(s.records, c.workers[w]), pcs := s.pcs[w := ToCommit])
  {
    more := Extended(c, steps, Does(w, Claim(true), false));
    more := Extended(c, more, Does(w, Begin(true), false));
    more := Extended(c, more, Does(w, App(AppOk), false));
  }

  /** Close fails after the commit: the call goes on to mark its claim failed. */
  lemma CloseFails(c: Setting, steps: seq<Step>, w: nat) returns (more: seq<Step>)
    requires c.mode != NoTransaction && !c.closeHonest && Run(c, steps)
    requires w in c.workers && w in Reached(c, steps).pcs && w !in Reached(c, steps).dead
    requires Reached(c, steps).pcs[w] == ToCommit
    ensures Run(c, more)
    ensures var s := Reached(c, steps);
            Reached(c, more) == s.(pcs := s.pcs[w := ToFail], committed := s.committed + {w})
  {
    more := Extended(c, steps, Does(w, Commit(true), true));
    more := Extended(c, more, Does(w, Close(false), false));
  }

  /** Commit reports an error for a unit that is committed: the call goes the same way. */
  lemma CommitLies(c: Setting, steps: seq<Step>, w: nat) returns (more: seq<Step>)
    requires c.mode != NoTransaction && !c.commitHonest && Run(c, steps)
    requires w in c.workers && w in Reached(c, steps).pcs && w !in Reached(c, steps).dead
    requires Reached(c, steps).pcs[w] == ToCommit
    ensures Run(c, more)
    ensures var s := Reached(c, steps);
            Reached(c, more) == s.(pcs := s.pcs[w := ToFail], committed := s.committed + {w})
  {
    more := Extended(c, steps, Does(w, Commit(false), true));
    more := UndoAfterLie(c, more, w);
  }

  lemma UndoAfterLie(c: Setting, steps: seq<Step>, w: nat) returns (more: seq<Step>)
    requires c.mode != NoTransaction && Run(c, steps)
    requires w in c.workers && w in Reached(c, steps).pcs && w !in Reached(c, steps).dead
    requires Reached(c, steps).pcs[w] == CommitFailed
    ensures Run(c, more)
    ensures var s := Reached(c, steps); Reached(c, more) == s.(pcs := s.pcs[w := ToFail])
  {
    more := Extended(c, steps, Does(w, Rollback(true), false));
    more := Extended(c, more, Does(w, Close(true), false));
  }

  lemma CommitAndFree(c: Setting, steps: seq<Step>, w: nat) returns (more: seq<Step>)
    requires c.mode != NoTransaction && !(c.commitHonest && c.closeHonest) && Run(c, steps)
    requires w in c.workers && w in Reached(c, steps).pcs && w !in Reached(c, steps).dead
    requires Reached(c, steps).pcs[w] == ToCommit && Holds(Reached(c, steps).records, c.workers[w])
    ensures Run(c, more)
    ensures var s := Reached(c, steps);
            Reached(c, more) == s.(records := MarkedWith(s.records, c.workers[w], Failed),
                                   pcs := s.pcs[w := Done(false)], committed := s.committed + {w})
  {
    if c.commitHonest {
      more := CloseFails(c, steps, w);
    } else {
      more := CommitLies(c, steps, w);
    }
    more := Extended(c, more, Does(w, Mark(Failed, true), false));
  }

  lemma TwoCommits(c: Setting, v: nat, w: nat) returns (steps: seq<Step>)
    requires c.mode != NoTransaction && !(c.commitHonest && c.closeHonest)
    requires v in c.workers && w in c.workers && v != w && c.workers[v].at == c.workers[w].at
    ensures Run(c, steps) && v in Reached(c, steps).committed && w in Reached(c, steps).committed
  {
    steps := UpToCommit(c, [], v);
    steps := CommitAndFree(c, steps, v);
    steps := UpToCommit(c, steps, w);
    steps := Extended(c, steps, Does(w, Commit(true), true));
  }

  /** Exactly when the memory store keeps one commit per key: units are honest, or no key is shared. */
  lemma OneCommitExactly(c: Setting)
    requires c.mode != NoTransaction
    ensures OneCommitPerKey(c) <==>
              (c.commitHonest && c.closeHonest)
              || forall v, w | v in c.workers && w in c.workers && c.workers[v].at == c.workers[w].at :: v == w
  {
    if c.commitHonest && c.closeHonest {
      AtMostOneCommit(c);
    } else if v, w :| v in c.workers && w in c.workers && c.workers[v].at == c.workers[w].at && v != w {
      var steps := TwoCommits(c, v, w);
    }
  }
}
