/**
 The same workers over a durable store that can join the business transaction.  Claims
 are not one step here: a row is inserted if absent, otherwise read and then taken over
 by a conditional update, and in between anything may happen.  A lease may expire at any
 time, a database call may be applied although it reports an error, the server may abort
 an open transaction, a worker may stop for good.  A staged marker locks its row until
 its transaction ends.
 */
module DurableRuns {
  import opened Idempotency
  import opened WorkerProgram

  const MAX_TRIES := 4

  const ATOMIC_PLAN := Plan(true, Local, true)

  datatype Setting = Setting(workers: map<nat, Identity>)

  datatype Tx = NoTx | OpenTx(staged: bool) | Committed | Aborted

  /** A claim in progress, or the rest of the executor's program. */
  datatype DPC = Inserting(tries: nat) | Looking(tries: nat) | Taking(tries: nat, seen: Record) | In(pc: PC)

  datatype World = World(rows: Records, pcs: map<nat, DPC>, txs: map<nat, Tx>, dead: set<nat>)

  /** `reported` is false when a database call comes back with an error although it was applied. */
  datatype Step =
    | Insert(worker: nat, reported: bool)
    | Look(worker: nat, expired: bool)
    | Take(worker: nat, reported: bool)
    | GiveUp(worker: nat)
    | Does(worker: nat, effect: Effect, fate: Fate)
    | Abort(worker: nat)
    | Dies(worker: nat)

  /** What became of the transaction or row, whatever the caller was told. */
  datatype Fate = Applied | NotApplied | Ended

  function Initially(c: Setting): World {
    World(map[], map w | w in c.workers :: Inserting(0), map w | w in c.workers :: NoTx, {})
  }

  /** Some open transaction has staged a marker on this row. */
  predicate Locked(c: Setting, s: World, k: StoreKey) {
    exists v | v in c.workers :: c.workers[v].at == k && v in s.txs && s.txs[v] == OpenTx(true)
  }

  predicate Known(c: Setting, s: World, w: nat) {
    w in c.workers && w in s.pcs && w in s.txs
  }

  /** A mark on a row the attempt does not hold succeeds only if the row already says so. */
  predicate AlreadyMarked(rows: Records, id: Identity, status: Status) {
    id.at in rows && rows[id.at] == Record(status, id.attempt)
  }

  /** What the database can answer, and what can become of the call, for an effect after the claim. */
  predicate Possible(c: Setting, s: World, w: nat, e: Effect, fate: Fate)
    requires Known(c, s, w)
  {
    var id, tx := c.workers[w], s.txs[w];
    match e
    case Begin(ok) => ok <==> fate.Applied?
    case Stage(ok) =>
      && !Locked(c, s, id.at)
      && !fate.Ended? && (ok ==> tx.OpenTx?)
      && (fate.Applied? ==> tx.OpenTx? && Holds(s.rows, id))
      && (ok && !fate.Applied? ==> AlreadyMarked(s.rows, id, Succeeded))
    case Commit(ok) => (ok ==> fate.Applied?) && (fate.Applied? ==> tx.OpenTx?)
    case Rollback(ok) => !fate.Applied? && (ok ==> fate.Ended?)
    case Close(_) => !fate.Applied?
    case Mark(status, ok) =>
      && !Locked(c, s, id.at)
      && (fate.Applied? ==> Holds(s.rows, id))
      && (ok && !fate.Applied? ==> AlreadyMarked(s.rows, id, status))
    case App(_) => fate.NotApplied?
    case Claim(_) => false
  }

  predicate Enabled(c: Setting, s: World, step: Step) {
    && Known(c, s, step.worker) && (step.Abort? || step.worker !in s.dead)
    && var w := step.worker;
       var at := c.workers[w].at;
       match step
       case Insert(_, _) => s.pcs[w].Inserting?
       case Look(_, _) => s.pcs[w].Looking? && at in s.rows
       case Take(_, _) => s.pcs[w].Taking? && !Locked(c, s, at)
       case GiveUp(_) => !s.pcs[w].In?
       case Does(_, e, fate) =>
         s.pcs[w].In? && Advance(ATOMIC_PLAN, s.pcs[w].pc, e).At? && Possible(c, s, w, e, fate)
       case Abort(_) => s.txs[w].OpenTx?
       case Dies(_) => true
  }

  function Granted(s: World, w: nat, id: Identity, reported: bool): World {
    s.(rows := s.rows[id.at := Record(Running, id.attempt)], pcs := s.pcs[w := In(if reported then Ready else Done(false))])
  }

  function TxAfter(tx: Tx, e: Effect, fate: Fate): Tx {
    match e
    case Begin(ok) => if ok then OpenTx(false) else tx
    case Stage(_) => if fate.Applied? then OpenTx(true) else tx
    case Commit(_) => if fate.Applied? then Committed else if fate.Ended? && tx.OpenTx? then Aborted else tx
    case Rollback(_) => if fate.Ended? && tx.OpenTx? then Aborted else tx
    case Close(_) => if fate.Ended? && tx.OpenTx? then Aborted else tx
    case _ => tx
  }

  /** A commit makes the business effect and the staged marker durable in one step. */
  function RowsAfter(rows: Records, id: Identity, tx: Tx, e: Effect, fate: Fate): Records {
    match e
    case Commit(_) => if fate.Applied? && tx == OpenTx(true) then rows[id.at := Record(Succeeded, id.attempt)] else rows
    case Mark(status, _) => if fate.Applied? then rows[id.at := Record(status, id.attempt)] else rows
    case _ => rows
  }

  function Taken(c: Setting, s: World, step: Step): World
    requires Enabled(c, s, step)
  {
    var w := step.worker;
    var id := c.workers[w];
    match step
    case Insert(_, reported) =>
      if id.at !in s.rows then Granted(s, w, id, reported)
      else s.(pcs := s.pcs[w := Looking(s.pcs[w].tries)])
    case Look(_, expired) =>
      var row := s.rows[id.at];
      if row.status.Succeeded? || (row.status.Running? && !expired) then s.(pcs := s.pcs[w := In(Done(false))])
      else s.(pcs := s.pcs[w := Taking(s.pcs[w].tries, row)])
    case Take(_, reported) =>
      var tries := s.pcs[w].tries + 1;
      if id.at in s.rows && s.rows[id.at] == s.pcs[w].seen then Granted(s, w, id, reported)
      else s.(pcs := s.pcs[w := if tries < MAX_TRIES then Inserting(tries) else In(Done(false))])
    case GiveUp(_) => s.(pcs := s.pcs[w := In(Done(false))])
    case Does(_, e, fate) =>
      World(RowsAfter(s.rows, id, s.txs[w], e, fate),
            s.pcs[w := In(Advance(ATOMIC_PLAN, s.pcs[w].pc, e).pc)],
            s.txs[w := TxAfter(s.txs[w], e, fate)],
            s.dead)
    case Abort(_) => s.(txs := s.txs[w := Aborted])
    case Dies(_) => s.(dead := s.dead + {w})
  }

  predicate Run(c: Setting, steps: seq<Step>)
    decreases |steps|, 0
  {
    steps == [] || (Run(c, steps[..|steps| - 1]) && Enabled(c, Reached(c, steps[..|steps| - 1]), steps[|steps| - 1]))
  }

  function Reached(c: Setting, steps: seq<Step>): World
    requires Run(c, steps)
    decreases |steps|, 1
  {
    if steps == [] then Initially(c)
    else Taken(c, Reached(c, steps[..|steps| - 1]), steps[|steps| - 1])
  }

  // ----- safety -----

  /** Attempt ids are fresh: no two workers on one key share one. */
  predicate Fresh(c: Setting) {
    forall v, w | v in c.workers && w in c.workers && c.workers[v] == c.workers[w] :: v == w
  }

  /** The transaction fits the place in the program. */
  predicate Fits(pc: DPC, tx: Tx) {
    match pc
    case In(Ready) => tx.NoTx?
    case In(Open) => tx == OpenTx(false) || tx.Aborted?
    case In(Staging) => tx == OpenTx(false) || tx.Aborted?
    case In(ToCommit) => tx == OpenTx(true) || tx.Aborted?
    case In(ToRollback) => tx.OpenTx? || tx.Aborted?
    case In(CommitFailed) => !tx.NoTx?
    case In(ToComplete) => false
    case In(_) => true
    case Taking(_, seen) => tx.NoTx? && !seen.status.Succeeded?
    case _ => tx.NoTx?
  }

  ghost predicate WorkerOk(c: Setting, s: World, w: nat) {
    Known(c, s, w) ==>
      && Fits(s.pcs[w], s.txs[w])
      && (s.txs[w] == OpenTx(true) ==> Holds(s.rows, c.workers[w]))
      && (s.txs[w] == Committed ==> AlreadyMarked(s.rows, c.workers[w], Succeeded))
  }

  ghost predicate CommittedOn(c: Setting, s: World, w: nat, k: StoreKey) {
    w in c.workers && c.workers[w].at == k && w in s.txs && s.txs[w] == Committed
  }

  /** The durable marker says succeeded only if somebody's effect on this key is durable. */
  ghost predicate RowOk(c: Setting, s: World, k: StoreKey) {
    k in s.rows && s.rows[k].status.Succeeded? ==> exists w :: CommittedOn(c, s, w, k)
  }

  ghost predicate Inv(c: Setting, s: World) {
    && s.pcs.Keys == c.workers.Keys && s.txs.Keys == c.workers.Keys
    && (forall w :: WorkerOk(c, s, w))
    && (forall k :: RowOk(c, s, k))
  }

  /** A staging worker never finds its own marker there already: it would have committed before. */
  lemma NotMarkedBefore(c: Setting, s: World, w: nat)
    requires Fresh(c) && Inv(c, s) && Known(c, s, w) && s.txs[w] != Committed
    ensures !AlreadyMarked(s.rows, c.workers[w], Succeeded)
  {
    var id := c.workers[w];
    assert RowOk(c, s, id.at);
    if v :| CommittedOn(c, s, v, id.at) {
      assert WorkerOk(c, s, v);
      assert v != w;
    }
  }

  lemma StepKeepsWorkers(c: Setting, s: World, step: Step, w: nat)
    requires Fresh(c) && Inv(c, s) && Enabled(c, s, step)
    ensures WorkerOk(c, Taken(c, s, step), w)
  {
    var x := step.worker;
    assert WorkerOk(c, s, w) && WorkerOk(c, s, x);
    if s.txs[x] != Committed {
      NotMarkedBefore(c, s, x);
    }
  }

  lemma StepKeepsRows(c: Setting, s: World, step: Step, k: StoreKey)
    requires Fresh(c) && Inv(c, s) && Enabled(c, s, step)
    ensures RowOk(c, Taken(c, s, step), k)
  {
    var t := Taken(c, s, step);
    var x := step.worker;
    assert WorkerOk(c, s, x) && RowOk(c, s, k);
    if w :| CommittedOn(c, s, w, k) {
      assert WorkerOk(c, s, w);
      assert CommittedOn(c, t, w, k);
    }
    assert t.txs[x] == Committed && s.txs[x] != Committed ==> CommittedOn(c, t, x, c.workers[x].at);
  }

  lemma {:induction false} RunKeepsInv(c: Setting, steps: seq<Step>)
    requires Fresh(c) && Run(c, steps)
    ensures Inv(c, Reached(c, steps))
  {
    if steps != [] {
      var init, last := steps[..|steps| - 1], steps[|steps| - 1];
      RunKeepsInv(c, init);
      var s := Reached(c, init);
      forall w ensures WorkerOk(c, Taken(c, s, last), w) {
        StepKeepsWorkers(c, s, last, w);
      }
      forall k ensures RowOk(c, Taken(c, s, last), k) {
        StepKeepsRows(c, s, last, k);
      }
    }
  }

  /** Effect and marker are durable together or not at all, in every run, on every key. */
  lemma EffectIffMarker(c: Setting, steps: seq<Step>, k: StoreKey)
    requires Fresh(c) && Run(c, steps)
    ensures var s := Reached(c, steps);
            (exists w :: CommittedOn(c, s, w, k)) <==> k in s.rows && s.rows[k].status.Succeeded?
  {
    RunKeepsInv(c, steps);
    var s := Reached(c, steps);
    assert RowOk(c, s, k);
    if w :| CommittedOn(c, s, w, k) {
      assert WorkerOk(c, s, w);
    }
  }

  ghost predicate OneCommitPerKey(c: Setting) {
    forall steps, v, w, k | Run(c, steps) && CommittedOn(c, Reached(c, steps), v, k) && CommittedOn(c, Reached(c, steps), w, k) :: v == w
  }

  lemma AtMostOneCommit(c: Setting)
    requires Fresh(c)
    ensures OneCommitPerKey(c)
  {
    forall steps, v, w, k | Run(c, steps) && CommittedOn(c, Reached(c, steps), v, k) && CommittedOn(c, Reached(c, steps), w, k)
      ensures v == w
    {
      RunKeepsInv(c, steps);
      assert WorkerOk(c, Reached(c, steps), v) && WorkerOk(c, Reached(c, steps), w);
    }
  }

  /** After the commit, no step of any worker moves the row or grants a claim on it. */
  lemma NothingAfterCommit(c: Setting, steps: seq<Step>, w: nat, k: StoreKey, step: Step)
    requires Fresh(c) && Run(c, steps) && CommittedOn(c, Reached(c, steps), w, k)
    requires Enabled(c, Reached(c, steps), step)
    ensures var s := Reached(c, steps); var t := Taken(c, s, step);
            && CommittedOn(c, t, w, k) && k in s.rows && k in t.rows && t.rows[k] == s.rows[k]
            && (c.workers[step.worker].at == k && !s.pcs[step.worker].In? ==> t.pcs[step.worker] != In(Ready))
  {
    RunKeepsInv(c, steps);
    var s := Reached(c, steps);
    assert WorkerOk(c, s, w) && WorkerOk(c, s, step.worker);
  }

  // ----- fresh attempts are needed -----

  lemma Extended(c: Setting, steps: seq<Step>, step: Step) returns (more: seq<Step>)
    requires Run(c, steps) && Enabled(c, Reached(c, steps), step)
    ensures Run(c, more) && Reached(c, more) == Taken(c, Reached(c, steps), step)
  {
    more := steps + [step];
    assert more[..|steps|] == steps;
  }

  /** A worker that holds its claim can run up to the staging of its marker. */
  lemma UpToStaging(c: Setting, steps: seq<Step>, w: nat) returns (more: seq<Step>)
    requires Run(c, steps) && Known(c, Reached(c, steps), w) && w !in Reached(c, steps).dead
    requires Reached(c, steps).pcs[w] == In(Ready)
    ensures Run(c, more)
    ensures var s := Reached(c, steps);
            Reached(c, more) == s.(pcs := s.pcs[w := In(Staging)], txs := s.txs[w := OpenTx(false)])
  {
    more := Extended(c, steps, Does(w, Begin(true), Applied));
    more := Extended(c, more, Does(w, App(AppOk), NotApplied));
  }

  /** The first worker claims its key by inserting the row. */
  lemma FirstHolds(c: Setting, v: nat) returns (steps: seq<Step>)
    requires v in c.workers
    ensures Run(c, steps)
    ensures var i, id := Initially(c), c.workers[v];
            Reached(c, steps) == i.(rows := map[id.at := Record(Running, id.attempt)], pcs := i.pcs[v := In(Ready)])
  {
    steps := Extended(c, [], Insert(v, true));
  }

  /** The second one, with the same attempt id, takes the lease over: both hold the claim now. */
  lemma SecondHolds(c: Setting, v: nat, w: nat) returns (steps: seq<Step>)
    requires v in c.workers && w in c.workers && v != w && c.workers[v] == c.workers[w]
    ensures Run(c, steps)
    ensures var i, id := Initially(c), c.workers[v]; var s := Reached(c, steps);
            && s.rows == map[id.at := Record(Running, id.attempt)] && s.txs == i.txs && s.dead == {}
            && s.pcs.Keys == i.pcs.Keys && s.pcs[v] == In(Ready) && s.pcs[w] == In(Ready)
  {
    steps := FirstHolds(c, v);
    steps := Extended(c, steps, Insert(w, true));
    steps := Extended(c, steps, Look(w, true));
    steps := Extended(c, steps, Take(w, true));
  }

  /** Staging and committing, for a worker that holds its claim or finds its marker already there. */
  lemma StageAndCommit(c: Setting, steps: seq<Step>, w: nat) returns (more: seq<Step>)
    requires Run(c, steps) && Known(c, Reached(c, steps), w) && w !in Reached(c, steps).dead
    requires var s, id := Reached(c, steps), c.workers[w];
             s.pcs[w] == In(Staging) && s.txs[w] == OpenTx(false) && !Locked(c, s, id.at)
             && (Holds(s.rows, id) || AlreadyMarked(s.rows, id, Succeeded))
    ensures Run(c, more)
    ensures var s, id := Reached(c, steps), c.workers[w];
            Reached(c, more) == World(s.rows[id.at := Record(Succeeded, id.attempt)], s.pcs[w := In(ToClose(true))], s.txs[w := Committed], s.dead)
  {
    var id, s := c.workers[w], Reached(c, steps);
    more := Extended(c, steps, Does(w, Stage(true), if Holds(s.rows, id) then Applied else NotApplied));
    more := Extended(c, more, Does(w, Commit(true), Applied));
  }

  lemma TwoCommits(c: Setting, v: nat, w: nat) returns (steps: seq<Step>)
    requires v in c.workers && w in c.workers && v != w && c.workers[v] == c.workers[w]
    ensures Run(c, steps)
    ensures CommittedOn(c, Reached(c, steps), v, c.workers[v].at) && CommittedOn(c, Reached(c, steps), w, c.workers[v].at)
  {
    steps := SecondHolds(c, v, w);
    steps := UpToStaging(c, steps, v);
    steps := UpToStaging(c, steps, w);
    steps := StageAndCommit(c, steps, v);
    steps := StageAndCommit(c, steps, w);
  }

  /** Exactly when the durable store keeps one commit per key: attempt ids are fresh. */
  lemma OneCommitExactly(c: Setting)
    ensures OneCommitPerKey(c) <==> Fresh(c)
  {
    if Fresh(c) {
      AtMostOneCommit(c);
    } else {
      var v, w :| v in c.workers && w in c.workers && c.workers[v] == c.workers[w] && v != w;
      var steps := TwoCommits(c, v, w);
    }
  }
}
