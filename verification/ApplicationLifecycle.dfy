/** An application that owns a provider: the order of its calls, and what a failed start leaves behind. */
module ApplicationLifecycle {
  import opened ProviderMachine
  import opened PlatformProvider

  datatype AppState = AppNew | Initializing | AppStarting | Ready | AppStopping | AppStopped | Failed

  datatype Call =
    | ProviderStart
    | ModuleStart(index: nat)
    | ComponentStart(index: nat)
    | ComponentShutdown(index: nat)
    | ModuleShutdown(index: nat)
    | ProviderShutdown
    | BusClose

  function ComponentsDown(n: nat): (r: seq<Call>)
    ensures |r| == n && forall i | 0 <= i < n :: r[i] == ComponentShutdown(n - 1 - i)
  {
    seq(n, i requires 0 <= i < n => ComponentShutdown(n - 1 - i))
  }

  function ModulesDown(n: nat): (r: seq<Call>)
    ensures |r| == n && forall i | 0 <= i < n :: r[i] == ModuleShutdown(n - 1 - i)
  {
    seq(n, i requires 0 <= i < n => ModuleShutdown(n - 1 - i))
  }

  function ModulesUp(n: nat): (r: seq<Call>)
    ensures |r| == n && forall i | 0 <= i < n :: r[i] == ModuleStart(i)
  {
    seq(n, i requires 0 <= i < n => ModuleStart(i))
  }

  function ComponentsUp(n: nat): (r: seq<Call>)
    ensures |r| == n && forall i | 0 <= i < n :: r[i] == ComponentStart(i)
  {
    seq(n, i requires 0 <= i < n => ComponentStart(i))
  }

  /** Modules go down from the last to the first, then the provider, then the event bus. */
  function CompositionDown(modules: nat): seq<Call> {
    ModulesDown(modules) + [ProviderShutdown, BusClose]
  }

  function StartedUp(modules: nat, components: nat): seq<Call> {
    [ProviderStart] + ModulesUp(modules) + ComponentsUp(components)
  }

  /** Where a start ended: nowhere, when everything started. */
  datatype Place = Nowhere | InProvider | InModule(index: nat) | InComponent(index: nat)

  /** The calls of a start that ended at `place`: what was opened before is closed, modules and provider in any case. */
  function StartCalls(place: Place, modules: nat, components: nat): seq<Call> {
    match place
    case Nowhere => StartedUp(modules, components)
    case InProvider => [ProviderStart] + CompositionDown(modules)
    case InModule(i) => [ProviderStart] + ModulesUp(i + 1) + CompositionDown(modules)
    case InComponent(j) => StartedUp(modules, j + 1) + ComponentsDown(j + 1) + CompositionDown(modules)
  }

  /** The calls after the provider's start. */
  function RestCalls(place: Place, modules: nat, components: nat): seq<Call>
    requires !place.InProvider?
  {
    match place
    case Nowhere => ModulesUp(modules) + ComponentsUp(components)
    case InModule(i) => ModulesUp(i + 1) + CompositionDown(modules)
    case InComponent(j) => ModulesUp(modules) + (ComponentsUp(j + 1) + ComponentsDown(j + 1) + CompositionDown(modules))
  }

  lemma Regrouped(place: Place, modules: nat, components: nat)
    requires !place.InProvider?
    ensures [ProviderStart] + RestCalls(place, modules, components) == StartCalls(place, modules, components)
  {
  }

  lemma InTurn(log: seq<Call>, first: seq<Call>, rest: seq<Call>)
    ensures log + first + rest == log + (first + rest)
  {
  }

  class App {
    const provider: Provider
    const modules: nat
    const components: nat
    const answer: nat -> bool
    var asked: nat
    var state: AppState
    ghost var calls: seq<Call>

    constructor (provider: Provider, modules: nat, components: nat, answer: nat -> bool)
      ensures this.provider == provider && this.modules == modules && this.components == components
      ensures state == AppNew && calls == [] && asked == 0 && this.answer == answer
    {
      this.provider, this.modules, this.components, this.answer := provider, modules, components, answer;
      asked, state, calls := 0, AppNew, [];
    }

    method Ask(ghost call: Call) returns (ok: bool)
      modifies this`asked, this`calls
      ensures calls == old(calls) + [call]
      ensures ok == answer(old(asked)) && asked == old(asked) + 1
    {
      ok := answer(asked);
      asked := asked + 1;
      calls := calls + [call];
    }

    /** All answers from one place on up to another were good. */
    ghost predicate AllGood(from: nat, to: nat) {
      forall i | from <= i < to :: answer(i)
    }

    /** Closes the first `n` runtime components, last first. */
    method ShutdownComponents(n: nat) returns (ok: bool)
      modifies this`asked, this`calls
      ensures calls == old(calls) + ComponentsDown(n)
      ensures asked == old(asked) + n && (ok <==> AllGood(old(asked), old(asked) + n))
    {
      ok := true;
      for i := 0 to n
        invariant calls == old(calls) + ComponentsDown(n)[..i]
        invariant asked == old(asked) + i && (ok <==> AllGood(old(asked), old(asked) + i))
      {
        var closed := Ask(ComponentShutdown(n - 1 - i));
        ok := ok && closed;
        assert ComponentsDown(n)[..i + 1] == ComponentsDown(n)[..i] + [ComponentShutdown(n - 1 - i)];
      }
    }

    /** Closes the modules, last first. */
    method ShutdownModules() returns (ok: bool)
      modifies this`asked, this`calls
      ensures calls == old(calls) + ModulesDown(modules)
      ensures asked == old(asked) + modules && (ok <==> AllGood(old(asked), old(asked) + modules))
    {
      ok := true;
      for i := 0 to modules
        invariant calls == old(calls) + ModulesDown(modules)[..i]
        invariant asked == old(asked) + i && (ok <==> AllGood(old(asked), old(asked) + i))
      {
        var closed := Ask(ModuleShutdown(modules - 1 - i));
        ok := ok && closed;
        assert ModulesDown(modules)[..i + 1] == ModulesDown(modules)[..i] + [ModuleShutdown(modules - 1 - i)];
      }
    }

    /** Closes the modules, the provider and the event bus, whatever fails on the way. */
    method ShutdownComposition() returns (ok: bool)
      requires provider.Valid()
      modifies this`asked, this`calls, provider
      ensures provider.Valid() && provider.phase == Stopped && old(provider.run) <= provider.run
      ensures old(provider.phase) == Stopped ==> provider.run == old(provider.run)
      ensures calls == old(calls) + CompositionDown(modules)
      ensures asked == old(asked) + modules + 1
      ensures ok <==> AllGood(old(asked), asked) && old(provider.CanStop())
    {
      ghost var was := calls;
      ok := ShutdownModules();
      var below := ShutdownBelow();
      InTurn(was, ModulesDown(modules), [ProviderShutdown, BusClose]);
      ok := ok && below;
    }

    /** Closes what the modules stand on: the provider, then the event bus. */
    method ShutdownBelow() returns (ok: bool)
      requires provider.Valid()
      modifies this`asked, this`calls, provider
      ensures provider.Valid() && provider.phase == Stopped && old(provider.run) <= provider.run
      ensures old(provider.phase) == Stopped ==> provider.run == old(provider.run)
      ensures calls == old(calls) + [ProviderShutdown, BusClose] && asked == old(asked) + 1
      ensures ok <==> answer(old(asked)) && old(provider.CanStop())
    {
      var stopped := provider.Shutdown();
      calls := calls + [ProviderShutdown];
      var closed := Ask(BusClose);
      ok := stopped && closed;
    }

    /** Everything before `place` started, and what is there did not; nothing else was left. */
    ghost predicate FirstFailure(place: Place, from: nat) {
      match place
      case Nowhere => AllGood(from, from + modules + components)
      case InProvider => true
      case InModule(i) => i < modules && AllGood(from, from + i) && !answer(from + i)
      case InComponent(j) => j < components && AllGood(from, from + modules + j) && !answer(from + modules + j)
    }

    method StartModules() returns (ok: bool, ghost reached: nat)
      modifies this`asked, this`calls
      ensures reached <= modules && calls == old(calls) + ModulesUp(reached) && asked == old(asked) + reached
      ensures if ok then reached == modules && AllGood(old(asked), asked)
              else reached > 0 && AllGood(old(asked), asked - 1) && !answer(asked - 1)
    {
      reached := 0;
      for i := 0 to modules
        invariant calls == old(calls) + ModulesUp(i) && asked == old(asked) + i && AllGood(old(asked), asked)
      {
        ok := Ask(ModuleStart(i));
        assert ModulesUp(i + 1) == ModulesUp(i) + [ModuleStart(i)];
        if !ok {
          return false, i + 1;
        }
      }
      return true, modules;
    }

    method StartComponents() returns (ok: bool, reached: nat)
      modifies this`asked, this`calls
      ensures reached <= components && calls == old(calls) + ComponentsUp(reached) && asked == old(asked) + reached
      ensures if ok then reached == components && AllGood(old(asked), asked)
              else reached > 0 && AllGood(old(asked), asked - 1) && !answer(asked - 1)
    {
      for i := 0 to components
        invariant calls == old(calls) + ComponentsUp(i) && asked == old(asked) + i && AllGood(old(asked), asked)
      {
        ok := Ask(ComponentStart(i));
        assert ComponentsUp(i + 1) == ComponentsUp(i) + [ComponentStart(i)];
        if !ok {
          return false, i + 1;
        }
      }
      return true, components;
    }

    /**
     Starts the provider, then the modules, then the runtime components.  It succeeds exactly
     when all of them do; otherwise it ends at the first that did not start, everything below
     that is closed and the provider has stopped.
     */
    method Start() returns (ok: bool, ghost place: Place)
      requires provider.Valid()
      modifies this, provider
      ensures provider.Valid() && old(provider.run) <= provider.run
      ensures old(state) == Ready ==> ok && state == Ready
      ensures old(state) in {AppStopping, AppStopped, Failed} ==> !ok && state == old(state)
      ensures old(state) in {Ready, AppStopping, AppStopped, Failed} ==> calls == old(calls) && provider.run == old(provider.run)
      ensures old(state) in {AppNew, Initializing, AppStarting} ==>
        && (ok <==> old(provider.CanStart()) && AllGood(old(asked), old(asked) + modules + components))
        && (ok <==> place == Nowhere) && (place == InProvider <==> !old(provider.CanStart()))
        && FirstFailure(place, old(asked)) && calls == old(calls) + StartCalls(place, modules, components)
        && if ok then state == Ready && provider.phase == Started else state == Failed && provider.phase == Stopped
    {
      place := Nowhere;
      match state {
        case Ready => return true, Nowhere;
        case AppStopping | AppStopped | Failed => return false, Nowhere;
        case AppNew | Initializing | AppStarting =>
      }
      state := AppStarting;
      ok, place := StartAll();
      state := if ok then Ready else Failed;
    }

    method StartAll() returns (ok: bool, ghost place: Place)
      requires provider.Valid()
      modifies this`asked, this`calls, provider
      ensures provider.Valid() && old(provider.run) <= provider.run
      ensures calls == old(calls) + StartCalls(place, modules, components)
      ensures (ok <==> place == Nowhere) && (place == InProvider <==> !old(provider.CanStart())) && FirstFailure(place, old(asked))
      ensures provider.phase == if ok then Started else Stopped
    {
      ghost var was := calls;
      ok := provider.Start();
      calls := calls + [ProviderStart];
      if !ok {
        var cleaned := ShutdownComposition();
        InTurn(was, [ProviderStart], CompositionDown(modules));
        place := InProvider;
        return;
      }
      ok, place := StartRest();
      InTurn(was, [ProviderStart], RestCalls(place, modules, components));
      Regrouped(place, modules, components);
    }

    /** What is started once the provider is. */
    method StartRest() returns (ok: bool, ghost place: Place)
      requires provider.Valid() && provider.phase == Started
      modifies this`asked, this`calls, provider
      ensures provider.Valid() && old(provider.run) <= provider.run
      ensures !place.InProvider? && calls == old(calls) + RestCalls(place, modules, components)
      ensures (ok <==> place == Nowhere) && FirstFailure(place, old(asked))
      ensures provider.phase == if ok then Started else Stopped
    {
      ghost var reached, was := 0, calls;
      ok, reached := StartModules();
      if !ok {
        var cleaned := ShutdownComposition();
        place := InModule(reached - 1);
        InTurn(was, ModulesUp(reached), CompositionDown(modules));
        return;
      }
      ok, reached := StartComponentsOrUndo();
      if ok {
        place := Nowhere;
        InTurn(was, ModulesUp(modules), ComponentsUp(components));
      } else {
        place := InComponent(reached - 1);
        InTurn(was, ModulesUp(modules), ComponentsUp(reached) + ComponentsDown(reached) + CompositionDown(modules));
      }
    }

    /** Starts the components; if one does not start, undoes everything. */
    method StartComponentsOrUndo() returns (ok: bool, ghost reached: nat)
      requires provider.Valid() && provider.phase == Started
      modifies this`asked, this`calls, provider
      ensures provider.Valid() && old(provider.run) <= provider.run
      ensures calls == old(calls) + if ok then ComponentsUp(components)
                                    else ComponentsUp(reached) + ComponentsDown(reached) + CompositionDown(modules)
      ensures if ok then AllGood(old(asked), old(asked) + components)
              else 0 < reached <= components && AllGood(old(asked), old(asked) + reached - 1) && !answer(old(asked) + reached - 1)
      ensures provider.phase == if ok then Started else Stopped
    {
      var n;
      ok, n := StartComponents();
      reached := n;
      if !ok {
        var closed := ShutdownComponents(n);
        var cleaned := ShutdownComposition();
      }
    }

    /**
     Closes components, modules and provider; also after a start that failed, which had done it
     already.  There is no error exactly when all of them, and the event bus, answered well.
     */
    method Shutdown() returns (ok: bool)
      requires provider.Valid()
      modifies this, provider
      ensures provider.Valid() && state == AppStopped && old(provider.run) <= provider.run
      ensures old(state) == AppStopped ==> ok && calls == old(calls) && provider.run == old(provider.run)
      ensures old(state) != AppStopped ==>
        && provider.phase == Stopped && calls == old(calls) + ComponentsDown(components) + CompositionDown(modules)
        && asked == old(asked) + components + modules + 1
        && (ok <==> AllGood(old(asked), asked) && old(provider.CanStop()))
      ensures old(provider.phase) == Stopped ==> provider.run == old(provider.run)
    {
      if state == AppStopped {
        return true;
      }
      state := AppStopping;
      var down := ShutdownComponents(components);
      ok := ShutdownComposition();
      ok := ok && down;
      state := AppStopped;
    }
  }

  /**
   A start that fails and a later shutdown, together: nothing of the provider is called a
   second time, and everything it took over that can be shut down was shut down once.
   */
  method FailThenShutdown(app: App, r: Resource) returns (started: bool)
    requires app.provider.Valid() && app.state == AppNew
    modifies app, app.provider
    ensures app.provider.Valid() && app.provider.phase == Stopped
    ensures Opened(r) in app.provider.state.log ==>
              Times(app.provider.state, ShutdownCalled(r.id)) == if r.stops then 1 else 0
    ensures AllGivenBack(app.provider.state) <==> RefusedEmpty(app.provider.state)
    ensures NeverRestarted(app.provider.state.log)
  {
    ghost var place;
    started, place := app.Start();
    ghost var run := app.provider.run;
    var ok := app.Shutdown();
    assert !started ==> app.provider.run == run;
    app.provider.Guarantees(r);
  }
}
