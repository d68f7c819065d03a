/**
 The life of a platform provider under concurrent calls: every critical section and every
 call of a resource is one step, and any number of threads interleave.
 */
module ProviderMachine {
  import opened Options
  import opened Sorting
  import opened Strings

  datatype Phase = New | Prepared | Starting | Started | Stopping | Stopped

  /** A resource and which of its callbacks are set. */
  datatype Resource = Resource(id: nat, key: string, starts: bool, stops: bool)

  /**
   A resource taken over; an answer of a factory that was not taken, being nil or beside an
   error, with the callbacks it carried; and the calls of the callbacks.
   */
  datatype Event = Opened(resource: Resource) | Refused(resource: Resource) | StartCalled(id: nat) | ShutdownCalled(id: nat)

  /** Where a call is: about to start the resource at `next`, or to close the one before `next`. */
  datatype Progress = Idle | Starts(next: nat) | Closes(next: nat, clean: bool)

  datatype State = State(
    phase: Phase,
    requirements: seq<string>,
    resources: seq<Resource>,
    shutdownOk: bool,
    log: seq<Event>,
    nextId: nat,
    threads: map<nat, Progress>)

  function Initial(): State {
    State(New, [], [], true, [], 0, map[])
  }

  function At(s: State, t: nat): Progress {
    if t in s.threads then s.threads[t] else Idle
  }

  function Moved(s: State, t: nat, p: Progress): State {
    s.(threads := s.threads[t := p])
  }

  predicate KeyBefore(x: Resource, y: Resource) {
    Before(x.key, y.key)
  }

  function OpenedEvents(resources: seq<Resource>): (r: seq<Event>)
    ensures |r| == |resources| && forall i | 0 <= i < |r| :: r[i] == Opened(resources[i])
  {
    seq(|resources|, i requires 0 <= i < |resources| => Opened(resources[i]))
  }

  /** What a preparation is given by the factories: resources, and possibly one answer it does not take. */
  function GivenEvents(got: seq<Resource>, stray: Option<Resource>): seq<Event> {
    OpenedEvents(got) + if stray.Some? then [Refused(stray.value)] else []
  }

  /** Closing from the last resource to the first, as far as they can be closed. */
  function CloseEvents(resources: seq<Resource>): seq<Event> {
    if resources == [] then []
    else
      var last := resources[|resources| - 1];
      (if last.stops then [ShutdownCalled(last.id)] else []) + CloseEvents(resources[..|resources| - 1])
  }

  /** Starting from the first resource to the last, as far as they can be started. */
  function StartEvents(resources: seq<Resource>): seq<Event> {
    if resources == [] then []
    else
      var last := resources[|resources| - 1];
      StartEvents(resources[..|resources| - 1]) + if last.starts then [StartCalled(last.id)] else []
  }

  /**
   Where preparing may fail: at a name that is not configured, at a factory whose answer is
   not taken, or after all of them, when they are sorted already.
   */
  datatype Outcome = Succeeds | FailsOpening | FailsAnswering(answer: Resource) | FailsAfterwards {
    function Stray(): Option<Resource> {
      if FailsAnswering? then Some(answer) else None
    }
  }

  datatype Action =
    | Prepare(thread: nat, requirements: seq<string>, got: seq<Resource>, outcome: Outcome)
    | BeginStart(thread: nat)
    | StartNext(thread: nat, ok: bool)
    | BeginShutdown(thread: nat)
    | CloseNext(thread: nat, ok: bool)

  /** Each opening makes a new resource. */
  predicate FreshIds(s: State, got: seq<Resource>) {
    forall i | 0 <= i < |got| :: got[i].id == s.nextId + i
  }

  predicate FreshStray(s: State, got: seq<Resource>, stray: Option<Resource>) {
    stray.Some? ==> stray.value.id == s.nextId + |got|
  }

  /** What a preparation that fails closes again, in the order it holds it. */
  function ClosedBy(a: Action): seq<Resource>
    requires a.Prepare?
  {
    match a.outcome
    case Succeeds => []
    case FailsOpening => a.got
    case FailsAnswering(_) => a.got
    case FailsAfterwards => SortBy(KeyBefore, a.got)
  }

  /** Opening, and closing again on failure, happen while the lock is held. */
  function PrepareStep(s: State, a: Action): State
    requires a.Prepare?
  {
    var stray := a.outcome.Stray();
    if s.phase != New || At(s, a.thread) != Idle || !FreshIds(s, a.got) || !FreshStray(s, a.got, stray) then s
    else
      var log := s.log + GivenEvents(a.got, stray) + CloseEvents(ClosedBy(a));
      var next := s.nextId + |a.got| + if stray.Some? then 1 else 0;
      if a.outcome.Succeeds?
      then s.(phase := Prepared, requirements := a.requirements, resources := SortBy(KeyBefore, a.got), log := log, nextId := next)
      else s.(log := log, nextId := next)
  }

  function StartStep(s: State, t: nat, k: nat, ok: bool): State {
    if k >= |s.resources| then Moved(s, t, Idle).(phase := Started)
    else
      var r := s.resources[k];
      if !r.starts then Moved(s, t, Starts(k + 1))
      else
        Moved(s, t, if ok then Starts(k + 1) else Closes(|s.resources|, true)).(log := s.log + [StartCalled(r.id)])
  }

  function CloseStep(s: State, t: nat, k: nat, clean: bool, ok: bool): State {
    if k == 0 || k > |s.resources| then Moved(s, t, Idle).(phase := Stopped, shutdownOk := clean)
    else
      var r := s.resources[k - 1];
      if !r.stops then Moved(s, t, Closes(k - 1, clean))
      else Moved(s, t, Closes(k - 1, clean && ok)).(log := s.log + [ShutdownCalled(r.id)])
  }

  /** One step; a call that is refused, or not under way, changes nothing. */
  function Step(s: State, a: Action): State {
    match a
    case Prepare(_, _, _, _) => PrepareStep(s, a)
    case BeginStart(t) =>
      if At(s, t) == Idle && s.phase == Prepared then Moved(s, t, Starts(0)).(phase := Starting) else s
    case StartNext(t, ok) =>
      if At(s, t).Starts? then StartStep(s, t, At(s, t).next, ok) else s
    case BeginShutdown(t) =>
      if At(s, t) == Idle && s.phase in {New, Prepared, Started}
      then Moved(s, t, Closes(|s.resources|, true)).(phase := Stopping)
      else s
    case CloseNext(t, ok) =>
      if At(s, t).Closes? then CloseStep(s, t, At(s, t).next, At(s, t).clean, ok) else s
  }

  // ----- the calls of one start and one closing, in order -----

  /** The resources before `k` are started. */
  ghost predicate StartedUpTo(s: State, log: seq<Event>, k: nat) {
    k <= |s.resources| && s.log == log + StartEvents(s.resources[..k])
  }

  /** The resources from `k` on are closed, the last one first. */
  ghost predicate ClosedDownTo(s: State, log: seq<Event>, k: nat) {
    k <= |s.resources| && s.log + CloseEvents(s.resources[..k]) == log + CloseEvents(s.resources)
  }

  lemma StartingNext(s: State, log: seq<Event>, t: nat, k: nat, ok: bool)
    requires StartedUpTo(s, log, k) && k < |s.resources| && At(s, t) == Starts(k)
    ensures StartedUpTo(Step(s, StartNext(t, ok)), log, k + 1)
  {
    assert s.resources[..k + 1][..k] == s.resources[..k];
  }

  lemma StartsCounted(p: seq<Resource>, k: nat)
    requires k < |p|
    ensures |StartEvents(p[..k + 1])| == |StartEvents(p[..k])| + if p[k].starts then 1 else 0
  {
    assert p[..k + 1][..k] == p[..k];
  }

  /** A call that is still to come is one of all the calls. */
  lemma {:induction false} StartsBelow(p: seq<Resource>, k: nat)
    requires k < |p| && p[k].starts
    ensures |StartEvents(p[..k])| < |StartEvents(p)|
  {
    var init := p[..|p| - 1];
    if k < |init| {
      assert init[..k] == p[..k];
      StartsBelow(init, k);
    }
  }

  lemma StartingEnds(s: State, log: seq<Event>)
    requires StartedUpTo(s, log, |s.resources|)
    ensures s.log == log + StartEvents(s.resources)
  {
    assert s.resources[..|s.resources|] == s.resources;
  }

  /** The calls of a start that fails at `k`: everything is closed, started or not. */
  ghost predicate StartFailedAt(s: State, log: seq<Event>, k: nat) {
    k < |s.resources| && s.resources[k].starts && s.log == log + StartEvents(s.resources[..k + 1]) + CloseEvents(s.resources)
  }

  lemma StartingFails(s: State, n: State, log: seq<Event>, k: nat)
    requires k < |s.resources| && s.resources[k].starts && StartedUpTo(s, log, k + 1)
    requires n.resources == s.resources && n.log == s.log + CloseEvents(s.resources)
    ensures StartFailedAt(n, log, k)
  {
  }

  lemma ClosingBegins(s: State)
    ensures ClosedDownTo(s, s.log, |s.resources|)
  {
    assert s.resources[..|s.resources|] == s.resources;
  }

  lemma ClosingNext(s: State, log: seq<Event>, t: nat, k: nat, ok: bool)
    requires ClosedDownTo(s, log, k) && 0 < k && At(s, t).Closes? && At(s, t).next == k
    ensures ClosedDownTo(Step(s, CloseNext(t, ok)), log, k - 1)
    ensures |Step(s, CloseNext(t, ok)).log| == |s.log| + if s.resources[k - 1].stops then 1 else 0
  {
    var n := Step(s, CloseNext(t, ok));
    assert s.resources[..k][..k - 1] == s.resources[..k - 1];
    ClosedOneMore(s.log, if s.resources[k - 1].stops then [ShutdownCalled(s.resources[k - 1].id)] else [], CloseEvents(s.resources[..k - 1]));
  }

  lemma ClosedOneMore(log: seq<Event>, one: seq<Event>, rest: seq<Event>)
    ensures log + (one + rest) == (log + one) + rest
    ensures one == [] ==> log + one == log
  {
  }

  lemma ClosingEnds(s: State, log: seq<Event>)
    requires ClosedDownTo(s, log, 0)
    ensures s.log == log + CloseEvents(s.resources)
  {
    assert s.log + CloseEvents([]) == s.log;
  }

  function Run(s: State, actions: seq<Action>): State {
    if actions == [] then s else Step(Run(s, actions[..|actions| - 1]), actions[|actions| - 1])
  }

  // ----- what every run keeps -----

  function Times(s: State, e: Event): nat {
    multiset(s.log)[e]
  }

  /** One call at most is under way, and the phase says which. */
  ghost predicate OneAtWork(s: State, mark: nat) {
    && (forall t, u | At(s, t) != Idle && At(s, u) != Idle :: t == u)
    && (forall t | At(s, t).Starts? :: s.phase == Starting && At(s, t).next <= |s.resources| == mark)
    && (forall t | At(s, t).Closes? :: s.phase in {Starting, Stopping} && At(s, t).next == mark <= |s.resources|)
    && (s.phase in {New, Prepared, Started, Stopped} ==> forall t :: At(s, t) == Idle)
    && (s.phase in {New, Prepared, Started} ==> mark == |s.resources|)
    && (s.phase == Stopped ==> mark == 0)
    && (s.phase == New ==> s.resources == [])
  }

  ghost predicate WasOpened(log: seq<Event>, id: nat) {
    exists r :: Opened(r) in log && r.id == id
  }

  function EventId(e: Event): nat {
    match e
    case Opened(r) => r.id
    case Refused(r) => r.id
    case StartCalled(id) => id
    case ShutdownCalled(id) => id
  }

  predicate IsCall(e: Event) {
    e.StartCalled? || e.ShutdownCalled?
  }

  ghost predicate OpenedOnce(s: State) {
    && (forall e | e in s.log && IsCall(e) :: WasOpened(s.log, e.id))
    && (forall e | e in s.log :: EventId(e) < s.nextId)
    && (forall r | Refused(r) in s.log :: !WasOpened(s.log, r.id))
    && (forall q, r | Opened(q) in s.log && Opened(r) in s.log && q.id == r.id :: q == r)
    && (forall r | r in s.resources :: Opened(r) in s.log)
    && DistinctIds(s.resources)
  }

  ghost predicate DistinctIds(p: seq<Resource>) {
    forall i, j | 0 <= i < j < |p| :: p[i].id != p[j].id
  }

  predicate Owned(s: State, id: nat) {
    exists r | r in s.resources :: r.id == id
  }

  /** From `mark` on the resources are closed, and so is everything a failed preparation opened. */
  ghost predicate ClosedFrom(s: State, mark: nat) {
    && (forall i | 0 <= i < |s.resources| ::
          Times(s, ShutdownCalled(s.resources[i].id)) == if i >= mark && s.resources[i].stops then 1 else 0)
    && (forall r | Opened(r) in s.log && !Owned(s, r.id) :: Times(s, ShutdownCalled(r.id)) == if r.stops then 1 else 0)
  }

  ghost predicate NeverRestarted(log: seq<Event>) {
    forall i, j | 0 <= i < j < |log| && log[i].ShutdownCalled? && log[j].StartCalled? :: log[i].id != log[j].id
  }

  /** No resource is started twice, and none before its turn. */
  ghost predicate StartedOnce(s: State) {
    && (forall id :: Times(s, StartCalled(id)) <= 1)
    && (s.phase == Prepared ==> forall i | 0 <= i < |s.resources| :: Times(s, StartCalled(s.resources[i].id)) == 0)
    && (forall t | At(s, t).Starts? ::
          forall i | At(s, t).next <= i < |s.resources| :: Times(s, StartCalled(s.resources[i].id)) == 0)
  }

  ghost predicate Inv(s: State, mark: nat) {
    OneAtWork(s, mark) && OpenedOnce(s) && ClosedFrom(s, mark) && StartedOnce(s) && NeverRestarted(s.log)
  }

  lemma InitialInv()
    ensures Inv(Initial(), 0)
  {
  }

  /** An action that only moves a thread or the phase. */
  lemma QuietKeeps(s: State, n: State, mark: nat)
    requires Inv(s, mark) && n.log == s.log && n.resources == s.resources && n.nextId == s.nextId
    requires OneAtWork(n, mark) && StartedOnce(n)
    ensures Inv(n, mark)
  {
    assert forall id :: Owned(n, id) <==> Owned(s, id);
    assert forall e :: Times(n, e) == Times(s, e);
  }

  lemma BeginStartKeeps(s: State, mark: nat, t: nat)
    requires Inv(s, mark)
    ensures Inv(Step(s, BeginStart(t)), mark)
  {
    var n := Step(s, BeginStart(t));
    assert forall u :: At(n, u) == if u == t && n != s then Starts(0) else At(s, u);
    assert forall e :: Times(n, e) == Times(s, e);
    QuietKeeps(s, n, mark);
  }

  lemma BeginShutdownKeeps(s: State, mark: nat, t: nat)
    requires Inv(s, mark)
    ensures Inv(Step(s, BeginShutdown(t)), mark)
  {
    var n := Step(s, BeginShutdown(t));
    assert forall u :: At(n, u) == if u == t && n != s then Closes(|s.resources|, true) else At(s, u);
    assert forall e :: Times(n, e) == Times(s, e);
    QuietKeeps(s, n, mark);
  }

  /** What appending one event does to the log. */
  lemma Appended(s: State, n: State, e: Event)
    requires n.log == s.log + [e]
    ensures forall x :: Times(n, x) == Times(s, x) + if x == e then 1 else 0
    ensures forall x :: x in n.log <==> x in s.log || x == e
    ensures NeverRestarted(s.log) && (e.StartCalled? ==> Times(s, ShutdownCalled(e.id)) == 0) ==> NeverRestarted(n.log)
  {
    if NeverRestarted(s.log) && (e.StartCalled? ==> Times(s, ShutdownCalled(e.id)) == 0) {
      forall i | 0 <= i < |s.log| && e.StartCalled? && s.log[i].ShutdownCalled? ensures s.log[i].id != e.id {
        assert s.log[i] in multiset(s.log);
      }
    }
  }

  /** A call of a known resource opens nothing. */
  lemma CallOpensNothing(s: State, n: State, e: Event)
    requires OpenedOnce(s) && n.log == s.log + [e] && n.resources == s.resources && n.nextId == s.nextId
    requires IsCall(e) && WasOpened(s.log, e.id)
    ensures OpenedOnce(n)
  {
    assert forall x :: x in n.log <==> x in s.log || x == e;
    assert forall id :: WasOpened(s.log, id) <==> WasOpened(n.log, id);
  }

  lemma StartClosesNothing(s: State, n: State, mark: nat, id: nat)
    requires ClosedFrom(s, mark) && n.log == s.log + [StartCalled(id)] && n.resources == s.resources
    ensures ClosedFrom(n, mark)
  {
    Appended(s, n, StartCalled(id));
    assert forall x :: Owned(n, x) <==> Owned(s, x);
  }

  lemma StartCounts(s: State, n: State, t: nat, k: nat, p: Progress)
    requires OneAtWork(s, |s.resources|) && OpenedOnce(s) && StartedOnce(s) && At(s, t) == Starts(k) && k < |s.resources|
    requires n == Moved(s, t, p).(log := s.log + [StartCalled(s.resources[k].id)]) && (p == Starts(k + 1) || p.Closes?)
    ensures StartedOnce(n)
  {
    Appended(s, n, StartCalled(s.resources[k].id));
    assert forall u :: At(n, u) == if u == t then p else At(s, u);
  }

  lemma StartMoves(s: State, mark: nat, t: nat, ok: bool)
    requires OneAtWork(s, mark) && At(s, t).Starts?
    ensures OneAtWork(Step(s, StartNext(t, ok)), mark)
  {
    var n := Step(s, StartNext(t, ok));
    assert forall u | u != t :: At(n, u) == At(s, u) == Idle;
  }

  lemma StartLogged(s: State, n: State, mark: nat, t: nat, k: nat)
    requires Inv(s, mark) && At(s, t) == Starts(k) && k < |s.resources| && OneAtWork(n, mark)
    requires n == Moved(s, t, At(n, t)).(log := s.log + [StartCalled(s.resources[k].id)]) && (At(n, t) == Starts(k + 1) || At(n, t).Closes?)
    ensures Inv(n, mark)
  {
    var r := s.resources[k];
    assert r in s.resources && Opened(r) in s.log;
    CallOpensNothing(s, n, StartCalled(r.id));
    StartClosesNothing(s, n, mark, r.id);
    StartCounts(s, n, t, k, At(n, t));
    Appended(s, n, StartCalled(r.id));
  }

  lemma StartNextKeeps(s: State, mark: nat, t: nat, ok: bool)
    requires Inv(s, mark) && At(s, t).Starts?
    ensures Inv(Step(s, StartNext(t, ok)), mark)
  {
    var n, k := Step(s, StartNext(t, ok)), At(s, t).next;
    StartMoves(s, mark, t, ok);
    if k < |s.resources| && s.resources[k].starts {
      StartLogged(s, n, mark, t, k);
    } else {
      assert forall u | u != t :: At(n, u) == At(s, u) == Idle;
      assert forall e :: Times(n, e) == Times(s, e);
      QuietKeeps(s, n, mark);
    }
  }

  /** Closing the resource before `mark` moves the mark. */
  lemma CloseMoves(s: State, n: State, mark: nat)
    requires ClosedFrom(s, mark) && DistinctIds(s.resources) && 0 < mark <= |s.resources| && n.resources == s.resources
    requires
      var r := s.resources[mark - 1];
      n.log == if r.stops then s.log + [ShutdownCalled(r.id)] else s.log
    ensures ClosedFrom(n, mark - 1)
  {
    var r := s.resources[mark - 1];
    assert r in s.resources && Owned(s, r.id);
    if r.stops {
      Appended(s, n, ShutdownCalled(r.id));
    } else {
      assert forall e :: Times(n, e) == Times(s, e);
    }
    assert forall x :: Owned(n, x) <==> Owned(s, x);
  }

  lemma CloseStartsNothing(s: State, n: State, id: nat)
    requires StartedOnce(s) && NeverRestarted(s.log) && n.log == s.log + [ShutdownCalled(id)] && n.resources == s.resources
    requires n.phase != Prepared && forall t :: !At(n, t).Starts?
    ensures StartedOnce(n) && NeverRestarted(n.log)
  {
    Appended(s, n, ShutdownCalled(id));
  }

  lemma CloseAdvances(s: State, mark: nat, t: nat, ok: bool)
    requires OneAtWork(s, mark) && At(s, t).Closes?
    ensures OneAtWork(Step(s, CloseNext(t, ok)), if mark == 0 then 0 else mark - 1)
    ensures forall u :: !At(Step(s, CloseNext(t, ok)), u).Starts?
  {
    var n := Step(s, CloseNext(t, ok));
    assert forall u | u != t :: At(n, u) == At(s, u) == Idle;
  }

  lemma CloseNextKeeps(s: State, mark: nat, t: nat, ok: bool)
    requires Inv(s, mark) && At(s, t).Closes?
    ensures Inv(Step(s, CloseNext(t, ok)), if mark == 0 then 0 else mark - 1)
  {
    var n := Step(s, CloseNext(t, ok));
    CloseAdvances(s, mark, t, ok);
    if mark == 0 || !s.resources[mark - 1].stops {
      assert forall e :: Times(n, e) == Times(s, e);
      if mark > 0 {
        CloseMoves(s, n, mark);
      } else {
        QuietKeeps(s, n, 0);
      }
    } else {
      var r := s.resources[mark - 1];
      assert r in s.resources && Opened(r) in s.log;
      CloseMoves(s, n, mark);
      CallOpensNothing(s, n, ShutdownCalled(r.id));
      CloseStartsNothing(s, n, r.id);
    }
  }

  lemma SortKeepsIds(s: State, got: seq<Resource>)
    requires FreshIds(s, got)
    ensures DistinctIds(got) && DistinctIds(SortBy(KeyBefore, got))
    ensures forall r :: r in SortBy(KeyBefore, got) <==> r in got
  {
    NamesCompare();
    SortBySorts(KeyBefore, got);
    var p := SortBy(KeyBefore, got);
    UniqueInMultiset(got, p);
    forall i, j | 0 <= i < j < |p| ensures p[i].id != p[j].id {
      assert p[i] in p && p[j] in p;
      if p[i].id == p[j].id {
        SameIdSame(s, got, p[i], p[j]);
      }
    }
  }

  lemma SameIdSame(s: State, got: seq<Resource>, q: Resource, r: Resource)
    requires FreshIds(s, got) && q in got && r in got && q.id == r.id
    ensures q == r
  {
  }

  predicate HasId(p: seq<Resource>, id: nat, stops: bool) {
    exists r | r in p :: r.id == id && r.stops == stops
  }

  /** Closing a list shuts each resource that can be shut down once, and calls nothing else. */
  lemma {:induction false} CloseCounts(p: seq<Resource>)
    requires DistinctIds(p)
    ensures forall e | e in CloseEvents(p) :: e.ShutdownCalled? && HasId(p, e.id, true)
    ensures forall id :: multiset(CloseEvents(p))[ShutdownCalled(id)] == if HasId(p, id, true) then 1 else 0
  {
    if p != [] {
      var init, last := p[..|p| - 1], p[|p| - 1];
      assert p == init + [last] && last in p;
      CloseCounts(init);
      forall id ensures HasId(p, id, true) <==> HasId(init, id, true) || (last.id == id && last.stops) {
      }
      assert !HasId(init, last.id, true);
    }
  }

  /** Starting a list calls the resources that can be started. */
  lemma {:induction false} StartMembers(p: seq<Resource>, r: Resource)
    requires r in p && r.starts
    ensures StartCalled(r.id) in StartEvents(p)
  {
    var init, last := p[..|p| - 1], p[|p| - 1];
    assert p == init + [last];
    if r in init {
      StartMembers(init, r);
    }
  }

  /** What a preparation appends to the log. */
  lemma PrepareAppends(s: State, n: State, got: seq<Resource>, stray: Option<Resource>, closed: seq<Resource>)
    requires FreshIds(s, got) && OpenedOnce(s)
    requires n.log == s.log + GivenEvents(got, stray) + CloseEvents(closed)
    requires DistinctIds(closed) && (forall r | r in closed :: r in got)
    ensures forall e :: e in n.log <==>
      e in s.log || (e.Opened? && e.resource in got) || (e.Refused? && stray == Some(e.resource)) || e in CloseEvents(closed)
    ensures forall id :: Times(n, StartCalled(id)) == Times(s, StartCalled(id))
    ensures forall id :: Times(n, ShutdownCalled(id)) == Times(s, ShutdownCalled(id)) + if HasId(closed, id, true) then 1 else 0
  {
    var news, shut := GivenEvents(got, stray), CloseEvents(closed);
    CloseCounts(closed);
    GivenMembers(got, stray);
    assert multiset(n.log) == multiset(s.log) + multiset(news) + multiset(shut);
    forall id ensures multiset(news)[StartCalled(id)] == 0 && multiset(news)[ShutdownCalled(id)] == 0 {
      assert StartCalled(id) !in news && ShutdownCalled(id) !in news;
    }
    forall id ensures multiset(shut)[StartCalled(id)] == 0 {
      assert StartCalled(id) !in shut;
    }
  }

  lemma PrepareStartsNothing(log: seq<Event>, got: seq<Resource>, stray: Option<Resource>, closed: seq<Resource>)
    requires NeverRestarted(log) && DistinctIds(closed)
    ensures NeverRestarted(log + GivenEvents(got, stray) + CloseEvents(closed))
  {
    var news, shut := GivenEvents(got, stray), CloseEvents(closed);
    var more := log + news + shut;
    CloseCounts(closed);
    GivenMembers(got, stray);
    forall j | |log| <= j < |more| ensures !more[j].StartCalled? {
      if j < |log| + |news| {
        assert more[j] == news[j - |log|] && more[j] in news;
      } else {
        assert more[j] == shut[j - |log| - |news|] && more[j] in shut;
      }
    }
  }

  lemma OpenedMembers(got: seq<Resource>)
    ensures forall e :: e in OpenedEvents(got) <==> e.Opened? && e.resource in got
  {
    forall r | r in got ensures Opened(r) in OpenedEvents(got) {
      var i :| 0 <= i < |got| && got[i] == r;
      assert OpenedEvents(got)[i] == Opened(r);
    }
  }

  lemma GivenMembers(got: seq<Resource>, stray: Option<Resource>)
    ensures forall e :: e in GivenEvents(got, stray) <==> (e.Opened? && e.resource in got) || (e.Refused? && stray == Some(e.resource))
  {
    OpenedMembers(got);
  }

  lemma PrepareOpensOnce(s: State, n: State, got: seq<Resource>, stray: Option<Resource>, closed: seq<Resource>)
    requires FreshIds(s, got) && FreshStray(s, got, stray) && OpenedOnce(s) && s.resources == []
    requires n.log == s.log + GivenEvents(got, stray) + CloseEvents(closed)
    requires n.nextId == s.nextId + |got| + if stray.Some? then 1 else 0
    requires DistinctIds(closed) && (forall r | r in closed :: r in got)
    requires DistinctIds(n.resources) && (forall r | r in n.resources :: r in got)
    ensures OpenedOnce(n)
  {
    PrepareAppends(s, n, got, stray, closed);
    CloseCounts(closed);
    forall r ensures Opened(r) in n.log <==> Opened(r) in s.log || r in got {
    }
    PrepareKeepsIds(s, n, got);
    PrepareCallsOpened(s, n, closed);
    PrepareStraysAlone(s, n, got, stray);
    PrepareBounds(s, n, got, stray, closed);
  }

  lemma PrepareBounds(s: State, n: State, got: seq<Resource>, stray: Option<Resource>, closed: seq<Resource>)
    requires FreshIds(s, got) && FreshStray(s, got, stray)
    requires n.nextId == s.nextId + |got| + if stray.Some? then 1 else 0
    requires forall e | e in s.log :: EventId(e) < s.nextId
    requires forall r | r in closed :: r in got
    requires forall e | e in n.log ::
      e in s.log || (e.Opened? && e.resource in got) || (e.Refused? && stray == Some(e.resource)) || (IsCall(e) && HasId(closed, e.id, true))
    ensures forall e | e in n.log :: EventId(e) < n.nextId
  {
    forall e | e in n.log ensures EventId(e) < n.nextId {
      if e !in s.log && IsCall(e) {
        var r :| r in closed && r.id == e.id;
        assert r in got;
      }
    }
  }

  lemma PrepareKeepsIds(s: State, n: State, got: seq<Resource>)
    requires FreshIds(s, got) && OpenedOnce(s)
    requires forall r :: Opened(r) in n.log <==> Opened(r) in s.log || r in got
    ensures forall q, r | Opened(q) in n.log && Opened(r) in n.log && q.id == r.id :: q == r
  {
    forall q, r | Opened(q) in n.log && Opened(r) in n.log && q.id == r.id ensures q == r {
      if q in got && r in got {
        SameIdSame(s, got, q, r);
      }
      assert forall x | Opened(x) in s.log :: EventId(Opened(x)) < s.nextId;
    }
  }

  lemma PrepareCallsOpened(s: State, n: State, closed: seq<Resource>)
    requires OpenedOnce(s) && (forall r | Opened(r) in s.log || r in closed :: Opened(r) in n.log)
    requires forall e | e in n.log && IsCall(e) :: e in s.log || HasId(closed, e.id, true)
    ensures forall e | e in n.log && IsCall(e) :: WasOpened(n.log, e.id)
  {
    forall e | e in n.log && IsCall(e) ensures WasOpened(n.log, e.id) {
      if e in s.log {
        var r :| Opened(r) in s.log && r.id == e.id;
        assert Opened(r) in n.log;
      } else {
        var r :| r in closed && r.id == e.id;
        assert Opened(r) in n.log;
      }
    }
  }

  lemma PrepareStraysAlone(s: State, n: State, got: seq<Resource>, stray: Option<Resource>)
    requires FreshIds(s, got) && FreshStray(s, got, stray) && OpenedOnce(s)
    requires forall r :: Opened(r) in n.log <==> Opened(r) in s.log || r in got
    requires forall r :: Refused(r) in n.log <==> Refused(r) in s.log || stray == Some(r)
    ensures forall r | Refused(r) in n.log :: !WasOpened(n.log, r.id)
  {
    forall r, q | Refused(r) in n.log && Opened(q) in n.log ensures r.id != q.id {
      if Refused(r) in s.log {
        assert EventId(Refused(r)) < s.nextId;
        assert Opened(q) in s.log ==> !WasOpened(s.log, r.id);
      } else if Opened(q) in s.log {
        assert EventId(Opened(q)) < s.nextId;
      }
    }
  }

  lemma NothingBeforeOpening(s: State, id: nat)
    requires OpenedOnce(s) && id >= s.nextId
    ensures Times(s, ShutdownCalled(id)) == 0 && Times(s, StartCalled(id)) == 0
  {
    assert ShutdownCalled(id) !in s.log && StartCalled(id) !in s.log;
  }

  lemma PrepareCloses(s: State, n: State, got: seq<Resource>, stray: Option<Resource>, closed: seq<Resource>)
    requires FreshIds(s, got) && OpenedOnce(s) && s.resources == [] && ClosedFrom(s, 0)
    requires n.log == s.log + GivenEvents(got, stray) + CloseEvents(closed)
    requires DistinctIds(closed) && (forall r | r in closed :: r in got)
    requires forall r | r in got :: if closed == [] then r in n.resources else r in closed
    requires if closed == [] then forall r | r in n.resources :: r in got else n.resources == []
    ensures ClosedFrom(n, |n.resources|)
  {
    PrepareAppends(s, n, got, stray, closed);
    CloseCounts(closed);
    forall i | 0 <= i < |n.resources| ensures Times(n, ShutdownCalled(n.resources[i].id)) == 0 {
      assert n.resources[i] in n.resources;
      NothingBeforeOpening(s, n.resources[i].id);
    }
    forall r | Opened(r) in n.log && !Owned(n, r.id) ensures Times(n, ShutdownCalled(r.id)) == if r.stops then 1 else 0 {
      if r in got {
        NothingBeforeOpening(s, r.id);
        ClosedAmong(s, got, closed, r);
      } else {
        OldNotClosed(s, got, closed, r);
      }
    }
  }

  lemma ClosedAmong(s: State, got: seq<Resource>, closed: seq<Resource>, r: Resource)
    requires FreshIds(s, got) && (forall q | q in closed :: q in got) && r in closed
    ensures HasId(closed, r.id, true) <==> r.stops
  {
    forall q | q in closed && q.id == r.id ensures q == r {
      SameIdSame(s, got, q, r);
    }
  }

  lemma OldNotClosed(s: State, got: seq<Resource>, closed: seq<Resource>, r: Resource)
    requires FreshIds(s, got) && (forall q | q in closed :: q in got) && OpenedOnce(s) && Opened(r) in s.log
    ensures !HasId(closed, r.id, true)
  {
    assert EventId(Opened(r)) < s.nextId;
  }

  lemma PrepareKeeps(s: State, mark: nat, a: Action) returns (after: nat)
    requires Inv(s, mark) && a.Prepare?
    ensures Inv(Step(s, a), after)
  {
    var n := Step(s, a);
    after := |n.resources|;
    if n != s {
      SortKeepsIds(s, a.got);
      var stray := a.outcome.Stray();
      var closed := ClosedBy(a);
      assert n.log == s.log + GivenEvents(a.got, stray) + CloseEvents(closed);
      PrepareAppends(s, n, a.got, stray, closed);
      PrepareStartsNothing(s.log, a.got, stray, closed);
      PrepareOpensOnce(s, n, a.got, stray, closed);
      PrepareCloses(s, n, a.got, stray, closed);
      forall i | 0 <= i < |n.resources| ensures Times(n, StartCalled(n.resources[i].id)) == 0 {
        assert n.resources[i] in n.resources;
        NothingBeforeOpening(s, n.resources[i].id);
      }
      assert forall t :: At(n, t) == At(s, t);
    } else {
      after := mark;
    }
  }

  lemma StepKeeps(s: State, mark: nat, a: Action) returns (after: nat)
    requires Inv(s, mark)
    ensures Inv(Step(s, a), after)
  {
    after := mark;
    match a
    case Prepare(_, _, _, _) => after := PrepareKeeps(s, mark, a);
    case BeginStart(t) => BeginStartKeeps(s, mark, t);
    case StartNext(t, ok) =>
      if At(s, t).Starts? {
        StartNextKeeps(s, mark, t, ok);
      }
    case BeginShutdown(t) => BeginShutdownKeeps(s, mark, t);
    case CloseNext(t, ok) =>
      if At(s, t).Closes? {
        CloseNextKeeps(s, mark, t, ok);
        after := if mark == 0 then 0 else mark - 1;
      }
  }

  lemma {:induction false} RunKeeps(actions: seq<Action>) returns (mark: nat)
    ensures Inv(Run(Initial(), actions), mark)
  {
    if actions == [] {
      InitialInv();
      mark := 0;
    } else {
      var before := RunKeeps(actions[..|actions| - 1]);
      mark := StepKeeps(Run(Initial(), actions[..|actions| - 1]), before, actions[|actions| - 1]);
    }
  }

  // ----- what this means -----

  /** In every interleaving: a resource is started at most once, shut down at most once, and never started afterwards. */
  lemma EachAtMostOnce(actions: seq<Action>, id: nat)
    ensures
      var s := Run(Initial(), actions);
      && Times(s, StartCalled(id)) <= 1 && Times(s, ShutdownCalled(id)) <= 1 && NeverRestarted(s.log)
  {
    var s := Run(Initial(), actions);
    var mark := RunKeeps(actions);
    ClosedAtMostOnce(s, mark, id);
  }

  lemma ClosedAtMostOnce(s: State, mark: nat, id: nat)
    requires Inv(s, mark)
    ensures Times(s, ShutdownCalled(id)) <= 1
  {
    if ShutdownCalled(id) in s.log {
      var r :| Opened(r) in s.log && r.id == id;
      if Owned(s, id) {
        var i :| 0 <= i < |s.resources| && s.resources[i].id == id;
        assert Times(s, ShutdownCalled(s.resources[i].id)) <= 1;
      }
    } else {
      assert ShutdownCalled(id) !in multiset(s.log);
    }
  }

  /**
   Once the provider has stopped, and after a failed preparation at once, everything taken
   over that can be shut down has been shut down, once.
   */
  lemma NothingLeftOpen(actions: seq<Action>, r: Resource)
    ensures
      var s := Run(Initial(), actions);
      Opened(r) in s.log && (s.phase == Stopped || !Owned(s, r.id)) ==>
        Times(s, ShutdownCalled(r.id)) == if r.stops then 1 else 0
  {
    var s := Run(Initial(), actions);
    var mark := RunKeeps(actions);
    if Opened(r) in s.log && s.phase == Stopped && Owned(s, r.id) {
      var i :| 0 <= i < |s.resources| && s.resources[i].id == r.id;
      assert s.resources[i] in s.resources && s.resources[i] == r;
    }
  }

  /** An answer that was not taken is never called. */
  lemma RefusedIsNeverCalled(actions: seq<Action>, r: Resource)
    ensures
      var s := Run(Initial(), actions);
      Refused(r) in s.log ==> Times(s, ShutdownCalled(r.id)) == 0 && Times(s, StartCalled(r.id)) == 0
  {
    var s := Run(Initial(), actions);
    var mark := RunKeeps(actions);
    if Refused(r) in s.log {
      assert !WasOpened(s.log, r.id);
      assert ShutdownCalled(r.id) !in s.log && StartCalled(r.id) !in s.log;
    }
  }

  /** Everything a factory handed out that can be shut down has been shut down, once. */
  ghost predicate AllGivenBack(s: State) {
    forall r | (Opened(r) in s.log || Refused(r) in s.log) && r.stops :: Times(s, ShutdownCalled(r.id)) == 1
  }

  /** No answer that was not taken carried a shutdown. */
  ghost predicate RefusedEmpty(s: State) {
    forall r | Refused(r) in s.log :: !r.stops
  }

  /**
   While nothing is prepared, and once the provider has stopped: all that was handed out is
   given back exactly when no refused answer carried a shutdown.
   */
  lemma GivenBackExactly(actions: seq<Action>)
    requires Run(Initial(), actions).phase in {New, Stopped}
    ensures AllGivenBack(Run(Initial(), actions)) <==> RefusedEmpty(Run(Initial(), actions))
  {
    var s := Run(Initial(), actions);
    var mark := RunKeeps(actions);
    forall r | Opened(r) in s.log && r.stops ensures Times(s, ShutdownCalled(r.id)) == 1 {
      NothingLeftOpen(actions, r);
    }
    forall r | Refused(r) in s.log ensures Times(s, ShutdownCalled(r.id)) == 0 {
      RefusedIsNeverCalled(actions, r);
    }
  }

  /** One failed preparation: it gives back what it was given exactly unless a factory answered nil, or an error, with a shutdown. */
  lemma FailedPreparationExactly(actions: seq<Action>, a: Action)
    requires a.Prepare? && a.outcome != Succeeds
    requires var s := Run(Initial(), actions); s.phase == New && FreshIds(s, a.got) && FreshStray(s, a.got, a.outcome.Stray())
    requires AllGivenBack(Run(Initial(), actions))
    ensures AllGivenBack(Run(Initial(), actions + [a])) <==> !(a.outcome.FailsAnswering? && a.outcome.answer.stops)
  {
    var s := Run(Initial(), actions);
    var mark := RunKeeps(actions);
    assert At(s, a.thread) == Idle;
    assert (actions + [a])[..|actions|] == actions;
    var n := Run(Initial(), actions + [a]);
    assert n == Step(s, a);
    GivenBackExactly(actions);
    GivenBackExactly(actions + [a]);
    RefusedAfter(s, n, a);
  }

  lemma RefusedAfter(s: State, n: State, a: Action)
    requires a.Prepare? && a.outcome != Succeeds && n.log == s.log + GivenEvents(a.got, a.outcome.Stray()) + CloseEvents(ClosedBy(a))
    ensures RefusedEmpty(n) <==> RefusedEmpty(s) && !(a.outcome.FailsAnswering? && a.outcome.answer.stops)
  {
    GivenMembers(a.got, a.outcome.Stray());
    ClosingRefusesNothing(ClosedBy(a));
    assert forall r :: Refused(r) in n.log <==> Refused(r) in s.log || a.outcome.Stray() == Some(r);
    assert a.outcome.FailsAnswering? ==> Refused(a.outcome.answer) in n.log;
  }

  lemma {:induction false} ClosingRefusesNothing(p: seq<Resource>)
    ensures forall e | e in CloseEvents(p) :: e.ShutdownCalled?
  {
    if p != [] {
      ClosingRefusesNothing(p[..|p| - 1]);
    }
  }

  /** The shortest way to leave something open: one factory that answers nil and a shutdown. */
  lemma NilWithShutdownIsLeftOpen(name: string)
    ensures
      var r := Resource(0, name, false, true);
      var s := Run(Initial(), [Prepare(0, [name], [], FailsAnswering(r)), BeginShutdown(0), CloseNext(0, true)]);
      s.phase == Stopped && s.log == [Refused(r)] && !AllGivenBack(s)
  {
    var r := Resource(0, name, false, true);
    var actions := [Prepare(0, [name], [], FailsAnswering(r)), BeginShutdown(0), CloseNext(0, true)];
    assert actions[..2] == [actions[0], actions[1]] && actions[..2][..1] == [actions[0]] && [actions[0]][..0] == [];
    assert GivenEvents([], Some(r)) == [Refused(r)] && CloseEvents([]) == [];
    assert FailsAnswering(r).Stray() == Some(r) && ClosedBy(actions[0]) == [];
    assert Initial().log + GivenEvents([], Some(r)) + CloseEvents([]) == [Refused(r)];
    assert Run(Initial(), []) == Initial();
    var s1 := Run(Initial(), [actions[0]]);
    assert s1 == Step(Initial(), actions[0]) == Initial().(log := [Refused(r)], nextId := 1);
    var s2 := Run(Initial(), actions[..2]);
    assert s2 == Step(s1, actions[1]) == Moved(s1, 0, Closes(0, true)).(phase := Stopping);
    var s3 := Run(Initial(), actions);
    assert s3 == Step(s2, actions[2]);
    assert Refused(r) in s3.log && Times(s3, ShutdownCalled(0)) == 0;
  }
}
