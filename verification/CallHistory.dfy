/** What a finished call did to the outside, told as a story, and what the story means. */
module CallHistory {
  import opened Idempotency
  import opened WorkerProgram

  /** How far a call came, and how its unit was ended. */
  datatype Story =
    | NotClaimed
    | NotBegun
    | AppFailed(outcome: AppOutcome, undone: bool, closed: bool)
    | NotStaged(undone: bool, closed: bool)
    | NotCommitted(undone: bool, closed: bool)
    | NotClosed
    | AllDone

  predicate Fits(plan: Plan, story: Story) {
    match story
    case NotClaimed => plan.idempotent
    case AppFailed(outcome, _, _) => outcome != AppOk
    case NotStaged(_, _) => plan.atomic
    case NotCommitted(_, _) => plan.mode != NoTransaction
    case NotClosed => plan.mode != NoTransaction
    case _ => true
  }

  function Claimed(plan: Plan): seq<Effect> {
    if plan.idempotent then [Claim(true)] else []
  }

  function RanWell(plan: Plan): seq<Effect> {
    Claimed(plan) + [Begin(true), App(AppOk)]
  }

  function StagedWell(plan: Plan): seq<Effect> {
    RanWell(plan) + if plan.atomic then [Stage(true)] else []
  }

  function Undone(plan: Plan, undone: bool, closed: bool): seq<Effect> {
    if plan.mode == NoTransaction then [] else [Rollback(undone), Close(closed)]
  }

  /** Everything up to the mark. */
  function Told(plan: Plan, story: Story): seq<Effect> {
    match story
    case NotClaimed => [Claim(false)]
    case NotBegun => Claimed(plan) + [Begin(false)]
    case AppFailed(outcome, undone, closed) => Claimed(plan) + [Begin(true), App(outcome)] + Undone(plan, undone, closed)
    case NotStaged(undone, closed) => RanWell(plan) + [Stage(false)] + [Rollback(undone), Close(closed)]
    case NotCommitted(undone, closed) => StagedWell(plan) + [Commit(false)] + [Rollback(undone), Close(closed)]
    case NotClosed => StagedWell(plan) + [Commit(true)] + [Close(false)]
    case AllDone => StagedWell(plan) + if plan.mode == NoTransaction then [] else [Commit(true), Close(true)]
  }

  /** The mark at the end: a granted claim is ended, unless the staged marker did it. */
  function Ending(plan: Plan, story: Story, marked: bool): seq<Effect> {
    if story.NotClaimed? || !plan.idempotent then []
    else if !story.AllDone? then [Mark(Failed, marked)]
    else if plan.atomic then []
    else [Mark(Succeeded, marked)]
  }

  predicate Succeeds(plan: Plan, story: Story, marked: bool) {
    story.AllDone? && (plan.idempotent && !plan.atomic ==> marked)
  }

  ghost predicate Tells(plan: Plan, log: seq<Effect>, story: Story, marked: bool) {
    Fits(plan, story) && log == Told(plan, story) + Ending(plan, story, marked)
  }

  // ----- the program tells these stories and no others -----

  lemma OneMore(plan: Plan, log: seq<Effect>, e: Effect, pc: PC)
    requires After(plan, log) == At(pc)
    ensures After(plan, log + [e]) == Advance(plan, pc, e)
  {
    assert (log + [e])[..|log|] == log;
  }

  lemma TwoMore(plan: Plan, log: seq<Effect>, d: Effect, e: Effect, pc: PC)
    requires After(plan, log) == At(pc) && Advance(plan, pc, d).At?
    ensures After(plan, log + [d, e]) == Advance(plan, Advance(plan, pc, d).pc, e)
  {
    OneMore(plan, log, d, pc);
    OneMore(plan, log + [d], e, Advance(plan, pc, d).pc);
    assert log + [d] + [e] == log + [d, e];
  }

  lemma ClaimedLeads(plan: Plan)
    requires Proper(plan)
    ensures After(plan, Claimed(plan)) == At(Ready)
  {
    if plan.idempotent {
      OneMore(plan, [], Claim(true), Idle);
      assert [] + [Claim(true)] == [Claim(true)];
    }
  }

  lemma RanLeads(plan: Plan, outcome: AppOutcome)
    requires Proper(plan)
    ensures After(plan, Claimed(plan) + [Begin(true), App(outcome)]) == Advance(plan, Open, App(outcome))
  {
    ClaimedLeads(plan);
    TwoMore(plan, Claimed(plan), Begin(true), App(outcome), Ready);
  }

  lemma StagedLeads(plan: Plan)
    requires Proper(plan)
    ensures After(plan, StagedWell(plan)) == At(if plan.mode == NoTransaction then Completing(plan) else ToCommit)
  {
    RanLeads(plan, AppOk);
    if plan.atomic {
      OneMore(plan, RanWell(plan), Stage(true), Staging);
    } else {
      assert StagedWell(plan) == RanWell(plan);
    }
  }

  lemma UndoneLeads(plan: Plan, log: seq<Effect>, undone: bool, closed: bool, pc: PC)
    requires After(plan, log) == At(pc) && (pc == ToRollback || pc == CommitFailed)
    ensures After(plan, log + [Rollback(undone), Close(closed)]) == At(Failing(plan))
  {
    TwoMore(plan, log, Rollback(undone), Close(closed), pc);
  }

  /** Stories that end before the application has returned well. */
  lemma ToldEarlyLeads(plan: Plan, story: Story)
    requires Proper(plan) && Fits(plan, story) && (story.NotClaimed? || story.NotBegun? || story.AppFailed?)
    ensures After(plan, Told(plan, story)) == At(if story.NotClaimed? then Done(false) else Failing(plan))
  {
    ClaimedLeads(plan);
    match story
    case NotClaimed =>
      OneMore(plan, [], Claim(false), Idle);
      assert [] + [Claim(false)] == [Claim(false)];
    case NotBegun => OneMore(plan, Claimed(plan), Begin(false), Ready);
    case AppFailed(outcome, undone, closed) =>
      RanLeads(plan, outcome);
      var log := Claimed(plan) + [Begin(true), App(outcome)];
      if plan.mode == NoTransaction {
        assert Told(plan, story) == log;
      } else {
        UndoneLeads(plan, log, undone, closed, ToRollback);
      }
  }

  lemma ToldLateLeads(plan: Plan, story: Story)
    requires Proper(plan) && Fits(plan, story) && !(story.NotClaimed? || story.NotBegun? || story.AppFailed?)
    ensures After(plan, Told(plan, story)) == At(if story.AllDone? then Completing(plan) else Failing(plan))
  {
    RanLeads(plan, AppOk);
    StagedLeads(plan);
    match story
    case NotStaged(undone, closed) =>
      OneMore(plan, RanWell(plan), Stage(false), Staging);
      UndoneLeads(plan, RanWell(plan) + [Stage(false)], undone, closed, ToRollback);
    case NotCommitted(undone, closed) =>
      OneMore(plan, StagedWell(plan), Commit(false), ToCommit);
      UndoneLeads(plan, StagedWell(plan) + [Commit(false)], undone, closed, CommitFailed);
    case NotClosed =>
      OneMore(plan, StagedWell(plan), Commit(true), ToCommit);
      OneMore(plan, StagedWell(plan) + [Commit(true)], Close(false), ToClose(true));
    case AllDone =>
      if plan.mode == NoTransaction {
        assert Told(plan, story) == StagedWell(plan);
      } else {
        TwoMore(plan, StagedWell(plan), Commit(true), Close(true), ToCommit);
      }
  }

  /** Every story is a finished run of the program. */
  lemma StoryRuns(plan: Plan, log: seq<Effect>, story: Story, marked: bool)
    requires Proper(plan) && Tells(plan, log, story, marked)
    ensures After(plan, log) == At(Done(Succeeds(plan, story, marked)))
  {
    if story.NotClaimed? || story.NotBegun? || story.AppFailed? {
      ToldEarlyLeads(plan, story);
    } else {
      ToldLateLeads(plan, story);
    }
    var told := Told(plan, story);
    if Ending(plan, story, marked) == [] {
      assert log == told;
    } else if story.AllDone? {
      OneMore(plan, told, Mark(Succeeded, marked), ToComplete);
    } else {
      OneMore(plan, told, Mark(Failed, marked), ToFail);
    }
  }

  /** What has happened by the time the program is at `pc`. */
  ghost predicate SoFar(plan: Plan, log: seq<Effect>, pc: PC) {
    match pc
    case Idle => plan.idempotent && log == []
    case Ready => log == Claimed(plan)
    case Open => log == Claimed(plan) + [Begin(true)]
    case Staging => plan.atomic && log == RanWell(plan)
    case ToCommit => plan.mode != NoTransaction && log == StagedWell(plan)
    case CommitFailed => plan.mode != NoTransaction && log == StagedWell(plan) + [Commit(false)]
    case ToRollback => plan.mode != NoTransaction && BeforeUndoing(plan, log)
    case ToClose(committed) =>
      plan.mode != NoTransaction && if committed then log == StagedWell(plan) + [Commit(true)] else BeforeClosing(plan, log)
    case ToComplete => plan.idempotent && !plan.atomic && log == Told(plan, AllDone)
    case ToFail => plan.idempotent && BeforeFailing(plan, log)
    case Done(success) => exists story, marked :: Tells(plan, log, story, marked) && success == Succeeds(plan, story, marked)
  }

  ghost predicate BeforeUndoing(plan: Plan, log: seq<Effect>) {
    || (exists outcome :: outcome != AppOk && log == Claimed(plan) + [Begin(true), App(outcome)])
    || (plan.atomic && log == RanWell(plan) + [Stage(false)])
  }

  ghost predicate BeforeClosing(plan: Plan, log: seq<Effect>) {
    |log| > 0 && log[|log| - 1].Rollback?
    && (BeforeUndoing(plan, log[..|log| - 1]) || log[..|log| - 1] == StagedWell(plan) + [Commit(false)])
  }

  ghost predicate BeforeFailing(plan: Plan, log: seq<Effect>) {
    exists story :: Fits(plan, story) && !story.NotClaimed? && !story.AllDone? && log == Told(plan, story)
  }

  lemma FailingSoFar(plan: Plan, log: seq<Effect>, story: Story)
    requires Fits(plan, story) && !story.NotClaimed? && !story.AllDone? && log == Told(plan, story)
    ensures SoFar(plan, log, Failing(plan))
  {
    if !plan.idempotent {
      assert Tells(plan, log, story, true) by {
        assert log == log + [];
      }
    }
  }

  lemma CompletingSoFar(plan: Plan, log: seq<Effect>)
    requires log == Told(plan, AllDone)
    ensures SoFar(plan, log, Completing(plan))
  {
    if !plan.idempotent || plan.atomic {
      assert Tells(plan, log, AllDone, true) by {
        assert log == log + [];
      }
    }
  }

  lemma ClosedSoFar(plan: Plan, log: seq<Effect>, closed: bool)
    requires plan.mode != NoTransaction && BeforeClosing(plan, log)
    ensures SoFar(plan, log + [Close(closed)], Failing(plan))
  {
    var undone := log[|log| - 1].ok;
    var init := log[..|log| - 1];
    assert log + [Close(closed)] == init + [Rollback(undone), Close(closed)];
    if outcome :| outcome != AppOk && init == Claimed(plan) + [Begin(true), App(outcome)] {
      FailingSoFar(plan, log + [Close(closed)], AppFailed(outcome, undone, closed));
    } else if plan.atomic && init == RanWell(plan) + [Stage(false)] {
      FailingSoFar(plan, log + [Close(closed)], NotStaged(undone, closed));
    } else {
      FailingSoFar(plan, log + [Close(closed)], NotCommitted(undone, closed));
    }
  }

  lemma AppSoFar(plan: Plan, log: seq<Effect>, outcome: AppOutcome)
    requires Proper(plan) && SoFar(plan, log, Open)
    ensures Advance(plan, Open, App(outcome)).At? && SoFar(plan, log + [App(outcome)], Advance(plan, Open, App(outcome)).pc)
  {
    var more := log + [App(outcome)];
    assert more == Claimed(plan) + [Begin(true), App(outcome)];
    if outcome == AppOk {
      if !plan.atomic {
        assert more == StagedWell(plan);
        if plan.mode == NoTransaction {
          assert more == Told(plan, AllDone);
          CompletingSoFar(plan, more);
        }
      }
    } else if plan.mode == NoTransaction {
      assert more == Told(plan, AppFailed(outcome, true, true));
      FailingSoFar(plan, more, AppFailed(outcome, true, true));
    }
  }

  lemma CloseSoFar(plan: Plan, log: seq<Effect>, committed: bool, closed: bool)
    requires SoFar(plan, log, ToClose(committed))
    ensures SoFar(plan, log + [Close(closed)], if committed && closed then Completing(plan) else Failing(plan))
  {
    if !committed {
      ClosedSoFar(plan, log, closed);
    } else if closed {
      assert log + [Close(closed)] == Told(plan, AllDone);
      CompletingSoFar(plan, log + [Close(closed)]);
    } else {
      FailingSoFar(plan, log + [Close(closed)], NotClosed);
    }
  }

  lemma MarkSoFar(plan: Plan, log: seq<Effect>, pc: PC, status: Status, ok: bool)
    requires SoFar(plan, log, pc) && ((pc == ToComplete && status == Succeeded) || (pc == ToFail && status == Failed))
    ensures SoFar(plan, log + [Mark(status, ok)], Done(pc == ToComplete && ok))
  {
    if pc == ToComplete {
      assert Tells(plan, log + [Mark(status, ok)], AllDone, ok);
    } else {
      var story :| Fits(plan, story) && !story.NotClaimed? && !story.AllDone? && log == Told(plan, story);
      assert Tells(plan, log + [Mark(status, ok)], story, ok);
    }
  }

  lemma RollbackSoFar(plan: Plan, log: seq<Effect>, pc: PC, ok: bool)
    requires SoFar(plan, log, pc) && (pc == ToRollback || pc == CommitFailed)
    ensures SoFar(plan, log + [Rollback(ok)], ToClose(false))
  {
    assert (log + [Rollback(ok)])[..|log|] == log;
  }

  lemma EarlySoFar(plan: Plan, log: seq<Effect>, pc: PC, e: Effect)
    requires Proper(plan) && SoFar(plan, log, pc) && (pc == Idle || pc == Ready) && Advance(plan, pc, e).At?
    ensures SoFar(plan, log + [e], Advance(plan, pc, e).pc)
  {
    if pc == Idle {
      assert log + [e] == [e];
      if !e.granted {
        assert Tells(plan, [e], NotClaimed, true) by {
          assert [e] == [e] + [];
        }
      }
    } else if !e.ok {
      FailingSoFar(plan, log + [e], NotBegun);
    }
  }

  lemma StepSoFar(plan: Plan, log: seq<Effect>, pc: PC, e: Effect)
    requires Proper(plan) && SoFar(plan, log, pc) && Advance(plan, pc, e).At?
    ensures SoFar(plan, log + [e], Advance(plan, pc, e).pc)
  {
    match pc
    case Idle => EarlySoFar(plan, log, pc, e);
    case Ready => EarlySoFar(plan, log, pc, e);
    case Open => AppSoFar(plan, log, e.outcome);
    case ToClose(committed) => CloseSoFar(plan, log, committed, e.ok);
    case ToComplete => MarkSoFar(plan, log, pc, e.status, e.ok);
    case ToFail => MarkSoFar(plan, log, pc, e.status, e.ok);
    case ToRollback => RollbackSoFar(plan, log, pc, e.ok);
    case CommitFailed => RollbackSoFar(plan, log, pc, e.ok);
    case _ =>
  }

  lemma {:induction false} LogSoFar(plan: Plan, log: seq<Effect>)
    requires Proper(plan) && After(plan, log).At?
    ensures SoFar(plan, log, After(plan, log).pc)
  {
    if log != [] {
      var init := log[..|log| - 1];
      LogSoFar(plan, init);
      StepSoFar(plan, init, After(plan, init).pc, log[|log| - 1]);
      assert log == init + [log[|log| - 1]];
    }
  }

  /** The finished runs of the program are exactly the stories, and each ends as its story says. */
  lemma StoryExactly(plan: Plan, log: seq<Effect>, ok: bool)
    requires Proper(plan)
    ensures After(plan, log) == At(Done(ok)) <==>
              exists story, marked :: Tells(plan, log, story, marked) && ok == Succeeds(plan, story, marked)
  {
    if After(plan, log) == At(Done(ok)) {
      LogSoFar(plan, log);
    }
    if story, marked :| Tells(plan, log, story, marked) && ok == Succeeds(plan, story, marked) {
      StoryRuns(plan, log, story, marked);
    }
  }

  // ----- what every finished call keeps -----

  /** An answer that lets a call go on to a result without an error. */
  predicate Good(e: Effect) {
    match e
    case Claim(granted) => granted
    case App(outcome) => outcome == AppOk
    case Rollback(_) => false
    case Mark(status, ok) => status == Succeeded && ok
    case _ => e.ok
  }

  /** What makes an effect last: the commit, the staged marker, the mark of success. */
  predicate Keeps(e: Effect) {
    e.Commit? || e.Stage? || (e.Mark? && e.status == Succeeded)
  }

  ghost predicate KeptBehindSuccess(log: seq<Effect>) {
    forall j | 0 <= j < |log| && Keeps(log[j]) :: exists i | 0 <= i < j :: log[i] == App(AppOk)
  }

  ghost predicate UndoneAfterFailure(log: seq<Effect>) {
    forall i | 0 <= i < |log| && log[i].App? && log[i].outcome != AppOk ::
      i + 2 < |log| && log[i + 1].Rollback? && log[i + 2].Close?
  }

  ghost predicate RunsOnce(log: seq<Effect>) {
    forall i, j | 0 <= i < |log| && 0 <= j < |log| && log[i].App? && log[j].App? :: i == j
  }

  /** Without errors the claim ends in success, by a mark or by the staged marker; otherwise it does not. */
  ghost predicate ClaimEnds(log: seq<Effect>, ok: bool) {
    log != []
    && if ok then
         || (log[|log| - 1] == Mark(Succeeded, true) && forall i | 0 <= i < |log| - 1 :: !log[i].Mark? && !log[i].Stage?)
         || (Stage(true) in log && Commit(true) in log && forall e | e in log :: !e.Mark?)
       else
         && (log[|log| - 1] == Mark(Succeeded, false) || (log[|log| - 1].Mark? && log[|log| - 1].status == Failed))
         && forall i | 0 <= i < |log| - 1 :: !log[i].Mark?
  }

  ghost predicate Lawful(plan: Plan, log: seq<Effect>, ok: bool) {
    && (ok <==> forall e | e in log :: Good(e))
    && KeptBehindSuccess(log)
    && RunsOnce(log)
    && (plan.mode != NoTransaction ==> UndoneAfterFailure(log))
  }

  lemma NotClaimedLawful(plan: Plan, log: seq<Effect>, story: Story, marked: bool)
    requires Proper(plan) && Tells(plan, log, story, marked) && (story.NotClaimed? || story.NotBegun?)
    ensures Lawful(plan, log, false)
  {
    if story.NotClaimed? {
      assert log == [Claim(false)];
      assert !Good(log[0]);
    } else if plan.idempotent {
      assert log == [Claim(true), Begin(false), Mark(Failed, marked)];
      assert !Good(log[1]);
    } else {
      assert log == [Begin(false)];
      assert !Good(log[0]);
    }
  }

  lemma AppFailedSpelled(plan: Plan, log: seq<Effect>, story: Story, marked: bool)
    requires Proper(plan) && Tells(plan, log, story, marked) && story.AppFailed?
    ensures var o, u, c, m := App(story.outcome), Rollback(story.undone), Close(story.closed), Mark(Failed, marked);
            log == if plan.mode == NoTransaction then if plan.idempotent then [Claim(true), Begin(true), o, m] else [Begin(true), o]
                   else if plan.idempotent then [Claim(true), Begin(true), o, u, c, m] else [Begin(true), o, u, c]
  {
  }

  lemma AppFailedLawful(plan: Plan, log: seq<Effect>, story: Story, marked: bool)
    requires Proper(plan) && Tells(plan, log, story, marked) && story.AppFailed?
    ensures Lawful(plan, log, false)
  {
    AppFailedSpelled(plan, log, story, marked);
    if plan.idempotent {
      assert !Good(log[2]);
    } else {
      assert !Good(log[1]);
    }
  }

  lemma NotStagedLawful(plan: Plan, log: seq<Effect>, story: Story, marked: bool)
    requires Proper(plan) && Tells(plan, log, story, marked) && story.NotStaged?
    ensures Lawful(plan, log, false)
  {
    var u, c := Rollback(story.undone), Close(story.closed);
    assert log == [Claim(true), Begin(true), App(AppOk), Stage(false), u, c, Mark(Failed, marked)];
    assert !Good(log[3]) && log[2] == App(AppOk);
  }

  lemma NotCommittedSpelled(plan: Plan, log: seq<Effect>, story: Story, marked: bool)
    requires Proper(plan) && Tells(plan, log, story, marked) && story.NotCommitted?
    ensures var u, c, m := Rollback(story.undone), Close(story.closed), Mark(Failed, marked);
            log == if plan.atomic then [Claim(true), Begin(true), App(AppOk), Stage(true), Commit(false), u, c, m]
                   else if plan.idempotent then [Claim(true), Begin(true), App(AppOk), Commit(false), u, c, m]
                   else [Begin(true), App(AppOk), Commit(false), u, c]
  {
  }

  lemma NotCommittedLawful(plan: Plan, log: seq<Effect>, story: Story, marked: bool)
    requires Proper(plan) && Tells(plan, log, story, marked) && story.NotCommitted?
    ensures Lawful(plan, log, false)
  {
    NotCommittedSpelled(plan, log, story, marked);
    if plan.atomic {
      assert !Good(log[4]) && log[2] == App(AppOk);
    } else if plan.idempotent {
      assert !Good(log[3]) && log[2] == App(AppOk);
    } else {
      assert !Good(log[2]) && log[1] == App(AppOk);
    }
  }

  lemma NotClosedSpelled(plan: Plan, log: seq<Effect>, story: Story, marked: bool)
    requires Proper(plan) && Tells(plan, log, story, marked) && story.NotClosed?
    ensures var c, m := Close(false), Mark(Failed, marked);
            log == if plan.atomic then [Claim(true), Begin(true), App(AppOk), Stage(true), Commit(true), c, m]
                   else if plan.idempotent then [Claim(true), Begin(true), App(AppOk), Commit(true), c, m]
                   else [Begin(true), App(AppOk), Commit(true), c]
  {
  }

  lemma NotClosedLawful(plan: Plan, log: seq<Effect>, story: Story, marked: bool)
    requires Proper(plan) && Tells(plan, log, story, marked) && story.NotClosed?
    ensures Lawful(plan, log, false)
  {
    NotClosedSpelled(plan, log, story, marked);
    if plan.atomic {
      assert !Good(log[5]) && log[2] == App(AppOk);
    } else if plan.idempotent {
      assert !Good(log[4]) && log[2] == App(AppOk);
    } else {
      assert !Good(log[3]) && log[1] == App(AppOk);
    }
  }

  /** A call that got through has left one of five logs, which its plan tells apart. */
  ghost predicate GotThrough(plan: Plan, log: seq<Effect>, marked: bool) {
    if plan.mode == NoTransaction then
      log == if plan.idempotent then [Claim(true), Begin(true), App(AppOk), Mark(Succeeded, marked)] else [Begin(true), App(AppOk)]
    else if !plan.idempotent then
      log == [Begin(true), App(AppOk), Commit(true), Close(true)]
    else if plan.atomic then
      log == [Claim(true), Begin(true), App(AppOk), Stage(true), Commit(true), Close(true)]
    else
      log == [Claim(true), Begin(true), App(AppOk), Commit(true), Close(true), Mark(Succeeded, marked)]
  }

  lemma AllDoneSpelled(plan: Plan, log: seq<Effect>, marked: bool)
    requires Proper(plan)
    ensures Tells(plan, log, AllDone, marked) <==> GotThrough(plan, log, marked)
  {
  }

  lemma AllDoneUnclaimed(plan: Plan, log: seq<Effect>)
    requires !plan.idempotent && GotThrough(plan, log, true)
    ensures Lawful(plan, log, true)
  {
    assert log[1] == App(AppOk);
  }

  lemma AllDoneClaimed(plan: Plan, log: seq<Effect>, marked: bool)
    requires plan.idempotent && !plan.atomic && GotThrough(plan, log, marked)
    ensures Lawful(plan, log, marked)
  {
    assert log[2] == App(AppOk) && (Good(log[|log| - 1]) <==> marked);
  }

  lemma AllDoneAtomic(plan: Plan, log: seq<Effect>, marked: bool)
    requires Proper(plan) && plan.atomic && GotThrough(plan, log, marked)
    ensures Lawful(plan, log, true)
  {
    assert log[2] == App(AppOk) && log[3] == Stage(true) && log[4] == Commit(true);
  }

  lemma AllDoneLawful(plan: Plan, log: seq<Effect>, marked: bool)
    requires Proper(plan) && Tells(plan, log, AllDone, marked)
    ensures Lawful(plan, log, Succeeds(plan, AllDone, marked))
  {
    AllDoneSpelled(plan, log, marked);
    if !plan.idempotent {
      AllDoneUnclaimed(plan, log);
    } else if plan.atomic {
      AllDoneAtomic(plan, log, marked);
    } else {
      AllDoneClaimed(plan, log, marked);
    }
  }

  lemma NoMarkTold(plan: Plan, story: Story)
    requires Fits(plan, story)
    ensures forall e | e in Told(plan, story) :: !e.Mark?
    ensures plan.idempotent ==> |Told(plan, story)| > 0
    ensures story.NotClaimed? ==> Claim(true) !in Told(plan, story)
  {
  }

  lemma ClaimEnded(plan: Plan, log: seq<Effect>, story: Story, marked: bool)
    requires Proper(plan) && Tells(plan, log, story, marked) && Claim(true) in log
    ensures ClaimEnds(log, Succeeds(plan, story, marked))
  {
    NoMarkTold(plan, story);
    if story.AllDone? {
      AllDoneSpelled(plan, log, marked);
      if plan.idempotent && plan.atomic {
        assert log[3] == Stage(true) && log[4] == Commit(true);
      }
    }
  }

  /** Every finished call, whatever the outside answered. */
  lemma FinishedIsLawful(plan: Plan, log: seq<Effect>, ok: bool)
    requires Proper(plan) && After(plan, log) == At(Done(ok))
    ensures ok <==> forall e | e in log :: Good(e)
    ensures KeptBehindSuccess(log) && RunsOnce(log)
    ensures plan.mode != NoTransaction ==> UndoneAfterFailure(log)
    ensures Claim(true) in log ==> ClaimEnds(log, ok)
  {
    StoryExactly(plan, log, ok);
    var story, marked :| Tells(plan, log, story, marked) && ok == Succeeds(plan, story, marked);
    assert Lawful(plan, log, ok) by {
      match story
      case NotClaimed => NotClaimedLawful(plan, log, story, marked);
      case NotBegun => NotClaimedLawful(plan, log, story, marked);
      case AppFailed(_, _, _) => AppFailedLawful(plan, log, story, marked);
      case NotStaged(_, _) => NotStagedLawful(plan, log, story, marked);
      case NotCommitted(_, _) => NotCommittedLawful(plan, log, story, marked);
      case NotClosed => NotClosedLawful(plan, log, story, marked);
      case AllDone => AllDoneLawful(plan, log, marked);
    }
    if Claim(true) in log {
      ClaimEnded(plan, log, story, marked);
    }
  }

  /** What a plan lets into a log at all. */
  predicate Allowed(plan: Plan, e: Effect) {
    && (e.Claim? || e.Mark? ==> plan.idempotent)
    && (e.Stage? ==> plan.atomic)
    && (e.Commit? || e.Rollback? || e.Close? ==> plan.mode != NoTransaction)
  }

  lemma StoryAllowed(plan: Plan, log: seq<Effect>, story: Story, marked: bool)
    requires Proper(plan) && Tells(plan, log, story, marked)
    ensures forall e | e in log :: Allowed(plan, e)
  {
  }

  lemma StoryBegins(plan: Plan, log: seq<Effect>, story: Story, marked: bool)
    requires Proper(plan) && Tells(plan, log, story, marked)
    ensures plan.idempotent ==> log != [] && log[0].Claim?
    ensures Claim(false) in log ==> log == [Claim(false)]
  {
  }

  lemma StoryRanWhenBegun(plan: Plan, log: seq<Effect>, story: Story, marked: bool)
    requires Proper(plan) && Tells(plan, log, story, marked)
    ensures Begin(false) in log ==> forall e | e in log :: !e.App?
  {
  }

  /** What a finished call did is what its plan asked for; without errors, it did all of it. */
  lemma FinishedFollowsPlan(plan: Plan, log: seq<Effect>, ok: bool)
    requires Proper(plan) && After(plan, log) == At(Done(ok))
    ensures plan.idempotent ==> log != [] && log[0].Claim?
    ensures forall e | e in log :: Allowed(plan, e)
    ensures Claim(false) in log ==> log == [Claim(false)]
    ensures Begin(false) in log ==> forall e | e in log :: !e.App?
    ensures ok ==> GotThrough(plan, log, true)
  {
    StoryExactly(plan, log, ok);
    var story, marked :| Tells(plan, log, story, marked) && ok == Succeeds(plan, story, marked);
    StoryAllowed(plan, log, story, marked);
    StoryBegins(plan, log, story, marked);
    StoryRanWhenBegun(plan, log, story, marked);
    if ok {
      AllDoneSpelled(plan, log, marked);
    }
  }
}
