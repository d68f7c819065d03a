/** The platform provider itself, and the application that starts and stops it. */
module PlatformProvider {
  import opened Options
  import opened Sorting
  import opened Strings
  import opened ProviderMachine

  lemma RunOneMore(run: seq<Action>, a: Action)
    ensures Run(Initial(), run + [a]) == Step(Run(Initial(), run), a)
  {
    assert (run + [a])[..|run|] == run;
  }

  /** What the outside may do: which names are configured, which callbacks are set, how each call ends. */
  datatype World = World(configured: set<string>, starts: string -> bool, stops: string -> bool, answer: nat -> bool)

  class Provider {
    const world: World
    var phase: Phase
    var requirements: seq<string>
    var resources: seq<Resource>
    var shutdownOk: bool
    var asked: nat
    var nextId: nat
    /** The steps taken so far, and the state of the machine they lead to. */
    ghost var run: seq<Action>
    ghost var state: State

    constructor (world: World)
      ensures Valid() && this.world == world && phase == New && run == [] && state == Initial()
    {
      this.world := world;
      phase, requirements, resources, shutdownOk, asked, nextId := New, [], [], true, 0, 0;
      run, state := [], Initial();
    }

    /** The machine has taken the recorded steps, and the fields are what it says. */
    ghost predicate Mirrors()
      reads this
    {
      && state == Run(Initial(), run)
      && phase == state.phase && requirements == state.requirements && resources == state.resources
      && shutdownOk == state.shutdownOk && nextId == state.nextId
    }

    /** Between calls, no call is under way. */
    ghost predicate Valid()
      reads this
    {
      Mirrors() && At(state, 0) == Idle && phase in {New, Prepared, Started, Stopped}
    }

    ghost method Take(a: Action)
      requires state == Run(Initial(), run)
      modifies this`run, this`state
      ensures run == old(run) + [a] && state == Step(old(state), a) && state == Run(Initial(), run)
    {
      RunOneMore(run, a);
      run := run + [a];
      state := Step(state, a);
    }

    method Ask() returns (ok: bool)
      modifies this`asked
      ensures ok == world.answer(old(asked)) && asked == old(asked) + 1
    {
      ok := world.answer(asked);
      asked := asked + 1;
    }

    /** All answers from one place on up to another were good. */
    ghost predicate AllGood(from: nat, to: nat) {
      forall i | from <= i < to :: world.answer(i)
    }

    // ----- preparing -----

    /**
     Opens what is required in order, as far as that succeeds; an answer that is nil, or comes
     with an error, ends the opening, whatever callbacks it carries.
     */
    method OpenAll(required: seq<string>) returns (ok: bool, got: seq<Resource>, stray: Option<Resource>)
      requires Mirrors()
      modifies this`asked
      ensures FreshIds(state, got) && FreshStray(state, got, stray) && |got| <= |required|
      ensures forall i | 0 <= i < |got| :: got[i].key == required[i] && required[i] in world.configured
      ensures ok <==> |got| == |required|
      ensures stray.Some? <==> !ok && required[|got|] in world.configured
      ensures AllGood(old(asked), old(asked) + |got|) && (ok ==> asked == old(asked) + |got|)
      ensures stray.Some? ==> !world.answer(old(asked) + |got|)
    {
      got, stray := [], None;
      for i := 0 to |required|
        invariant |got| == i && FreshIds(state, got) && stray == None
        invariant forall j | 0 <= j < i :: got[j].key == required[j] && required[j] in world.configured
        invariant asked == old(asked) + i && AllGood(old(asked), asked)
      {
        if required[i] !in world.configured {
          return false, got, None;
        }
        var opens := Ask();
        if !opens {
          var starts := Ask();
          var stops := Ask();
          return false, got, Some(Resource(nextId + i, required[i], starts, stops));
        }
        got := got + [Resource(nextId + i, required[i], world.starts(required[i]), world.stops(required[i]))];
      }
      ok := true;
    }

    /** Everything required is configured, and every factory and the delegates answered well. */
    ghost predicate CanPrepare(required: seq<string>, complete: bool, from: nat) {
      complete && (forall i | 0 <= i < |required| :: required[i] in world.configured) && AllGood(from, from + |required| + 1)
    }

    /**
     Prepares the resources for a set of requirements, once.  When something cannot be
     opened, what was opened is closed again and the provider stays as new.
     */
    method Prepare(required: seq<string>, complete: bool) returns (ok: bool)
      requires Valid()
      modifies this
      ensures Valid() && old(run) <= run
      ensures old(phase) in {Prepared, Started} ==> run == old(run) && (ok <==> required == requirements)
      ensures old(phase) == Stopped ==> run == old(run) && !ok
      ensures old(phase) == New ==> (ok <==> CanPrepare(required, complete, old(asked)))
      ensures old(phase) == New && ok ==> phase == Prepared && requirements == required
      ensures old(phase) == New && ok ==> exists got :: Holds(got, required) && state.log == old(state.log) + OpenedEvents(got)
      ensures old(phase) == New && !ok ==> phase == New && resources == []
    {
      match phase {
        case Prepared | Starting | Started => return requirements == required;
        case Stopping | Stopped => return false;
        case New =>
      }
      ok := PrepareNew(required, complete);
    }

    /** The part of preparing that does the work. */
    method PrepareNew(required: seq<string>, complete: bool) returns (ok: bool)
      requires Valid() && phase == New
      modifies this
      ensures Valid() && old(run) <= run && (ok <==> CanPrepare(required, complete, old(asked)))
      ensures ok ==> phase == Prepared && requirements == required
      ensures ok ==> exists got :: Holds(got, required) && state.log == old(state.log) + OpenedEvents(got)
      ensures !ok ==> phase == New && resources == []
    {
      StillNew();
      if !complete {
        return false;
      }
      var got, outcome := OpenWithDelegates(required);
      ok := Settle(required, got, outcome);
      if ok {
        assert GivenEvents(got, None) == OpenedEvents(got);
        NamesCompare();
        SortBySorts(KeyBefore, got);
        assert Holds(got, required);
      }
    }

    /** Opens what is required, and the delegates after all of it. */
    method OpenWithDelegates(required: seq<string>) returns (got: seq<Resource>, outcome: Outcome)
      requires Mirrors()
      modifies this`asked
      ensures FreshIds(state, got) && FreshStray(state, got, outcome.Stray())
      ensures |got| <= |required| && (outcome == Succeeds ==> |got| == |required|)
      ensures forall i | 0 <= i < |got| :: got[i].key == required[i] && required[i] in world.configured
      ensures outcome == Succeeds <==> CanPrepare(required, true, old(asked))
    {
      var opens, stray;
      opens, got, stray := OpenAll(required);
      outcome := if stray.Some? then FailsAnswering(stray.value) else FailsOpening;
      if opens {
        var delegates := Ask();
        outcome := if delegates then Succeeds else FailsAfterwards;
      }
    }

    /** How preparing ends. */
    method Settle(required: seq<string>, got: seq<Resource>, outcome: Outcome) returns (ok: bool)
      requires Valid() && phase == New && resources == [] && FreshIds(state, got) && FreshStray(state, got, outcome.Stray())
      modifies this
      ensures Valid() && old(run) <= run && (ok <==> outcome == Succeeds)
      ensures ok ==> phase == Prepared && requirements == required && resources == SortBy(KeyBefore, got)
      ensures !ok ==> phase == New && resources == []
      ensures state.log == old(state.log) + GivenEvents(got, outcome.Stray()) + CloseEvents(ClosedBy(Action.Prepare(0, required, got, outcome)))
    {
      Take(Action.Prepare(0, required, got, outcome));
      nextId := nextId + |got| + if outcome.Stray().Some? then 1 else 0;
      if outcome != Succeeds {
        return false;
      }
      requirements, resources, phase := required, SortBy(KeyBefore, got), Prepared;
      ok := true;
    }

    /** The provider holds what was opened, one resource for each requirement, by name. */
    ghost predicate Holds(got: seq<Resource>, required: seq<string>)
      reads this
    {
      && |got| == |required| && (forall i | 0 <= i < |got| :: got[i].key == required[i] && required[i] in world.configured)
      && multiset(resources) == multiset(got)
      && forall i, j | 0 <= i < j < |resources| :: !Before(resources[j].key, resources[i].key)
    }

    lemma StillNew()
      requires Valid() && phase == New
      ensures resources == []
    {
      var mark := RunKeeps(run);
    }

    // ----- starting and closing -----

    /** Closes the resource before `index`, if it can be closed. */
    method CloseOne(index: nat, clean: bool, ghost log: seq<Event>) returns (ok: bool)
      requires Mirrors() && 0 < index && At(state, 0) == Closes(index, clean) && ClosedDownTo(state, log, index)
      modifies this`asked, this`run, this`state
      ensures Mirrors() && At(state, 0) == Closes(index - 1, ok) && ClosedDownTo(state, log, index - 1) && old(run) <= run
      ensures asked == old(asked) + (|state.log| - |old(state.log)|)
      ensures old(asked) <= asked && (ok <==> clean && AllGood(old(asked), asked))
    {
      var closed := true;
      if resources[index - 1].stops {
        closed := Ask();
      }
      ok := clean && closed;
      assert closed <==> AllGood(old(asked), asked);
      ClosingNext(state, log, 0, index, closed);
      Take(CloseNext(0, closed));
    }

    /** Closes everything from the last resource to the first; the provider has stopped then. */
    method CloseAll() returns (ok: bool)
      requires Mirrors() && At(state, 0) == Closes(|resources|, true)
      modifies this
      ensures Valid() && phase == Stopped && ok == shutdownOk
      ensures old(run) <= run && resources == old(resources)
      ensures state.log == old(state.log) + CloseEvents(resources)
      ensures asked == old(asked) + |CloseEvents(resources)| && (shutdownOk <==> AllGood(old(asked), asked))
    {
      ok := true;
      var index := |resources|;
      ClosingBegins(state);
      while index > 0
        invariant 0 <= index <= |resources| && resources == old(resources)
        invariant Mirrors() && At(state, 0) == Closes(index, ok) && old(run) <= run
        invariant ClosedDownTo(state, old(state.log), index)
        invariant old(asked) <= asked == old(asked) + (|state.log| - |old(state.log)|) && (ok <==> AllGood(old(asked), asked))
      {
        ok := CloseOne(index, ok, old(state.log));
        index := index - 1;
      }
      ClosingEnds(state, old(state.log));
      Take(CloseNext(0, true));
      phase, shutdownOk := Stopped, ok;
    }

    /** The resources before `k` were started, and every answer was good. */
    ghost predicate Reached(log: seq<Event>, from: nat, k: nat)
      reads this
    {
      && k <= |resources| && StartedUpTo(state, log, k)
      && asked == from + |StartEvents(resources[..k])| && AllGood(from, asked)
    }

    /** Starts the resource at `index`, if it can be started. */
    method StartOne(index: nat, ghost log: seq<Event>, ghost from: nat) returns (ok: bool)
      requires Mirrors() && index < |resources| && At(state, 0) == Starts(index) && Reached(log, from, index)
      modifies this`asked, this`run, this`state
      ensures Mirrors() && old(run) <= run
      ensures At(state, 0) == if ok then Starts(index + 1) else Closes(|resources|, true)
      ensures if ok then Reached(log, from, index + 1)
              else resources[index].starts && FirstBad(from, index) && StartedUpTo(state, log, index + 1)
    {
      ok := true;
      if resources[index].starts {
        ok := Ask();
      }
      StartsCounted(resources, index);
      StartingNext(state, log, 0, index, ok);
      Take(StartNext(0, ok));
    }

    /** A start would succeed: it has been made, or everything that can be started will answer well. */
    ghost predicate CanStart()
      reads this
    {
      phase == Started || (phase == Prepared && AllGood(asked, asked + |StartEvents(resources)|))
    }

    /** A shutdown would report no error: it is made and did not, or everything that can be shut down will answer well. */
    ghost predicate CanStop()
      reads this
    {
      if phase == Stopped then shutdownOk else AllGood(asked, asked + |CloseEvents(resources)|)
    }

    /** Every resource that can be started was called, in order, and every answer was good. */
    ghost predicate AllStarted(log: seq<Event>, from: nat)
      reads this
    {
      state.log == log + StartEvents(resources) && asked == from + |StartEvents(resources)| && AllGood(from, asked)
    }

    /** The last call made is that of the resource at `k`, and the first that was not answered well. */
    ghost predicate FirstBad(from: nat, k: nat)
      reads this
    {
      k < |resources|
      && var at := from + |StartEvents(resources[..k])|; AllGood(from, at) && asked == at + 1 && !world.answer(at)
    }

    /**
     The resource at `k` is the first that did not start; it and all the others were closed, and
     the shutdown is reported as good exactly when every one of those calls was answered well.
     */
    ghost predicate FailedToStart(log: seq<Event>, from: nat, k: nat)
      reads this
    {
      && k < |resources| && StartFailedAt(state, log, k)
      && (var at := from + |StartEvents(resources[..k])|;
          && AllGood(from, at) && !world.answer(at)
          && asked == at + 1 + |CloseEvents(resources)| && (shutdownOk <==> AllGood(at + 1, asked)))
    }

    /** Starts the prepared resources in order; if one does not start, all are closed again. */
    method Start() returns (ok: bool)
      requires Valid()
      modifies this
      ensures Valid() && old(run) <= run && resources == old(resources)
      ensures ok <==> old(CanStart())
      ensures ok ==> phase == Started
      ensures old(phase) == Prepared && !ok ==> phase == Stopped
      ensures old(phase) != Prepared ==> run == old(run) && phase == old(phase) && (ok <==> phase == Started)
      ensures old(phase) == Prepared && ok ==> AllStarted(old(state.log), old(asked))
      ensures old(phase) == Prepared && ok ==> forall r | r in resources && r.starts :: Times(state, StartCalled(r.id)) == 1
      ensures old(phase) == Prepared && !ok ==> exists k: nat :: FailedToStart(old(state.log), old(asked), k)
    {
      match phase {
        case Started => return true;
        case New | Stopping | Stopped | Starting => return false;
        case Prepared =>
      }
      ok := StartPrepared();
      if ok {
        forall r | r in resources && r.starts ensures Times(state, StartCalled(r.id)) == 1 {
          StartedEach(old(state.log), r);
        }
      } else {
        ghost var k: nat :| FailedToStart(old(state.log), old(asked), k);
        StartsBelow(resources, k);
      }
    }

    /** A resource that was started was started once. */
    lemma StartedEach(log: seq<Event>, r: Resource)
      requires Valid() && state.log == log + StartEvents(resources) && r in resources && r.starts
      ensures Times(state, StartCalled(r.id)) == 1
    {
      StartMembers(resources, r);
      EachAtMostOnce(run, r.id);
      assert StartCalled(r.id) in multiset(state.log);
    }

    method StartPrepared() returns (ok: bool)
      requires Valid() && phase == Prepared
      modifies this
      ensures Valid() && old(run) <= run && resources == old(resources) && phase == (if ok then Started else Stopped)
      ensures ok ==> AllStarted(old(state.log), old(asked))
      ensures !ok ==> exists k: nat :: FailedToStart(old(state.log), old(asked), k)
    {
      Take(BeginStart(0));
      phase := Starting;
      ghost var log := state.log;
      var reached := StartInTurn();
      ok := reached == |resources|;
      if ok {
        Take(StartNext(0, true));
        phase := Started;
      } else {
        UndoStart(reached, log, old(asked));
      }
    }

    /** Closes everything after a start that failed at `reached`. */
    method UndoStart(ghost reached: nat, ghost log: seq<Event>, ghost from: nat)
      requires Mirrors() && At(state, 0) == Closes(|resources|, true)
      requires reached < |resources| && resources[reached].starts && StartedUpTo(state, log, reached + 1)
      requires FirstBad(from, reached)
      modifies this
      ensures Valid() && old(run) <= run && resources == old(resources) && phase == Stopped
      ensures FailedToStart(log, from, reached)
    {
      ghost var s := state;
      var closed := CloseAll();
      StartingFails(s, state, log, reached);
    }

    /** Starts the resources in turn up to the first that does not start. */
    method StartInTurn() returns (reached: nat)
      requires Mirrors() && At(state, 0) == Starts(0)
      modifies this`asked, this`run, this`state
      ensures Mirrors() && old(run) <= run && reached <= |resources|
      ensures if reached == |resources|
              then At(state, 0) == Starts(reached) && AllStarted(old(state.log), old(asked))
              else At(state, 0) == Closes(|resources|, true) && resources[reached].starts && StartedUpTo(state, old(state.log), reached + 1)
      ensures reached < |resources| ==> FirstBad(old(asked), reached)
    {
      ghost var log, from := state.log, asked;
      reached := 0;
      while reached < |resources|
        invariant 0 <= reached <= |resources| && Mirrors() && old(run) <= run
        invariant At(state, 0) == Starts(reached) && Reached(log, from, reached)
      {
        var started := StartOne(reached, log, from);
        if !started {
          return;
        }
        reached := reached + 1;
      }
      StartingEnds(state, log);
      assert resources[..|resources|] == resources;
    }

    /** Stops the provider; once stopped, the answer is repeated and nothing is called. */
    method Shutdown() returns (ok: bool)
      requires Valid()
      modifies this
      ensures Valid() && old(run) <= run && resources == old(resources)
      ensures phase == Stopped && ok == shutdownOk && (ok <==> old(CanStop()))
      ensures old(phase) == Stopped ==> run == old(run) && shutdownOk == old(shutdownOk)
      ensures old(phase) != Stopped ==> state.log == old(state.log) + CloseEvents(resources)
      ensures old(phase) != Stopped ==> asked == old(asked) + |CloseEvents(resources)| && (ok <==> AllGood(old(asked), asked))
      ensures old(phase) == Stopped ==> asked == old(asked)
    {
      if phase == Stopped {
        return shutdownOk;
      }
      Take(BeginShutdown(0));
      phase := Stopping;
      ok := CloseAll();
    }

    /** What the machine guarantees holds of the provider after any calls. */
    lemma Guarantees(r: Resource)
      requires Valid()
      ensures Times(state, StartCalled(r.id)) <= 1 && Times(state, ShutdownCalled(r.id)) <= 1 && NeverRestarted(state.log)
      ensures Opened(r) in state.log && (phase == Stopped || phase == New) ==>
                Times(state, ShutdownCalled(r.id)) == if r.stops then 1 else 0
      ensures phase == Stopped || phase == New ==> (AllGivenBack(state) <==> RefusedEmpty(state))
    {
      EachAtMostOnce(run, r.id);
      NothingLeftOpen(run, r);
      if phase == Stopped || phase == New {
        GivenBackExactly(run);
      }
      if phase == New {
        StillNew();
      }
    }
  }
}
