/**
 Why children need no authorization of their own: whatever operation a joined chain of
 children arrives at, the linter made the root declare its permissions.
 */
module ChildAuthority {
  import opened Options
  import opened Sorting
  import opened Graphs
  import opened Permissions
  import opened Composition
  import opened PlanSets
  import opened OperationPlans
  import opened Authorization
  import opened ExecutionScope

  function NameSet(names: seq<Name>): set<Name> {
    set n | n in names
  }

  /** The frame a root operation starts with. */
  ghost predicate RootFrame(operations: Operations, f: ExecutionScope.Frame) {
    && f.operation in operations && f.depth == 0
    && f.allowed == NameSet(operations[f.operation].requiresOperations) - {""}
  }

  /** `child` was joined under `parent` with the plan of its own operation. */
  ghost predicate JoinsUnder(operations: Operations, parent: ExecutionScope.Frame, child: ExecutionScope.Frame) {
    && child.operation in operations
    && exists mode ::
         JoinChild(Some(parent), child.operation, mode, NameSet(operations[child.operation].requiresOperations)) == Joined(child)
  }

  ghost predicate JoinAt(operations: Operations, frames: seq<ExecutionScope.Frame>, i: int) {
    0 <= i < |frames| - 1 ==> JoinsUnder(operations, frames[i], frames[i + 1])
  }

  /** Frames on the way from a root to a child at any depth. */
  ghost predicate Chain(operations: Operations, frames: seq<ExecutionScope.Frame>) {
    frames != [] && RootFrame(operations, frames[0]) && forall i :: JoinAt(operations, frames, i)
  }

  function Path(frames: seq<ExecutionScope.Frame>): (w: seq<Name>)
    ensures |w| == |frames| && forall i | 0 <= i < |w| :: w[i] == frames[i].operation
  {
    seq(|frames|, i requires 0 <= i < |frames| => frames[i].operation)
  }

  lemma ChainInit(operations: Operations, frames: seq<ExecutionScope.Frame>)
    requires Chain(operations, frames) && |frames| > 1
    ensures Chain(operations, frames[..|frames| - 1])
    ensures JoinsUnder(operations, frames[|frames| - 2], frames[|frames| - 1])
  {
    var init := frames[..|frames| - 1];
    assert JoinAt(operations, frames, |frames| - 2);
    forall i ensures JoinAt(operations, init, i) {
      assert JoinAt(operations, frames, i);
    }
  }

  /** A chain follows declared requirements; all its frames share the root, and depth counts the joins. */
  lemma {:induction false} ChainIsWalk(operations: Operations, frames: seq<ExecutionScope.Frame>)
    requires Chain(operations, frames)
    ensures IsWalk(CallGraph(operations), Path(frames))
    ensures forall f | f in frames :: f.operation in operations && f.root == frames[0].root
    ensures forall i | 0 <= i < |frames| :: frames[i].depth == i
    ensures forall f | f in frames :: f.allowed == NameSet(operations[f.operation].requiresOperations) - {""}
  {
    if |frames| > 1 {
      ChainInit(operations, frames);
      var init, last := frames[..|frames| - 1], frames[|frames| - 1];
      assert frames == init + [last];
      ChainIsWalk(operations, init);
      var parent := init[|init| - 1];
      var mode :| JoinChild(Some(parent), last.operation, mode, NameSet(operations[last.operation].requiresOperations)) == Joined(last);
      JoinExactly(parent, last.operation, mode, NameSet(operations[last.operation].requiresOperations));
      assert last.operation in parent.allowed;
      WalkExtend(CallGraph(operations), Path(init), last.operation);
      assert Path(frames) == Path(init) + [last.operation];
    }
  }

  /** The operation a chain arrives at. */
  ghost function LastOf(operations: Operations, frames: seq<ExecutionScope.Frame>): (id: Name)
    requires Chain(operations, frames)
    ensures id in operations
  {
    ChainIsWalk(operations, frames);
    assert frames[|frames| - 1] in frames;
    frames[|frames| - 1].operation
  }

  /** What a joined operation demands, the root declares, where every operation declares its closure. */
  lemma RootDeclares(operations: Operations, frames: seq<ExecutionScope.Frame>, p: Permission)
    requires Chain(operations, frames) && (forall id, q :: !Missing(operations, id, q))
    requires p in operations[LastOf(operations, frames)].permissions
    ensures frames[0].operation in operations && p in operations[frames[0].operation].permissions
  {
    var root, last := frames[0].operation, LastOf(operations, frames);
    ChainIsWalk(operations, frames);
    if |frames| > 1 {
      assert Walks(CallGraph(operations), Path(frames), root, last);
      assert InClosure(operations, root, p);
      assert !Missing(operations, root, p);
    }
  }

  /**
   The end-to-end guarantee: the manifest passed the linter, the root's plan demands all of
   its permissions, and the root was allowed.  Then each non-blank permission of each
   operation that any chain of joins arrives at is among the root's grants.
   */
  lemma EveryDescendantIsGranted(
      services: seq<Service>, frames: seq<ExecutionScope.Frame>, security: Security,
      principal: Principal, answer: Option<Resolution>, v: Verdict, p: Permission)
    requires Clean(services)
    requires Chain(OperationsOf(IndexOfServices(services)), frames)
    requires
      var root := OperationsOf(IndexOfServices(services))[frames[0].operation];
      !SaysAny(root.permissionMode) && Decides(principal, PolicyFor(root, security), answer, v) && v.decision.allowed
    requires
      var operations := OperationsOf(IndexOfServices(services));
      var last := frames[|frames| - 1].operation;
      last in operations && p in operations[last].permissions && p != ""
    ensures Granted(v.decision.grants, p)
  {
    var operations := OperationsOf(IndexOfServices(services));
    RootDeclares(operations, frames, p);
    AllowedMeansGranted(operations[frames[0].operation], security, principal, answer, v, p);
  }

  /**
   And the demand of all is needed: a permission of a joined operation is always among the
   grants of an allowed root exactly where the root's plan demands all, or names no other.
   */
  lemma DescendantGrantedExactly(services: seq<Service>, frames: seq<ExecutionScope.Frame>, security: Security, p: Permission)
    requires Clean(services) && Chain(OperationsOf(IndexOfServices(services)), frames) && p != ""
    requires
      var operations := OperationsOf(IndexOfServices(services));
      p in operations[LastOf(operations, frames)].permissions
    ensures
      var root := OperationsOf(IndexOfServices(services))[frames[0].operation];
      !SaysAny(root.permissionMode) || OnlyPermission(root, p) <==>
        forall principal, answer, v | Decides(principal, PolicyFor(root, security), answer, v) && v.decision.allowed ::
          Granted(v.decision.grants, p)
  {
    RootDeclares(OperationsOf(IndexOfServices(services)), frames, p);
    GrantedExactly(OperationsOf(IndexOfServices(services))[frames[0].operation], security, p);
  }

  /**
   The same for what runs, the compiled plans; the compiler checks by itself what the linter
   does.  A root that was allowed under its plan holds every permission of the plan of each
   operation it leads to ...
   */
  lemma EveryPlannedDescendantIsGranted(
      owners: map<Name, PlanOwner>, detail: Name -> Detail, root: OperationPlan, last: OperationPlan,
      frames: seq<ExecutionScope.Frame>, security: Security,
      principal: Principal, answer: Option<Resolution>, v: Verdict, p: Permission)
    requires Finishable(owners, detail) && PlanOf(owners, root) && PlanOf(owners, last)
    requires Chain(OperationsIn(owners), frames)
    requires frames[0].operation == root.owner.operation.id && frames[|frames| - 1].operation == last.owner.operation.id
    requires !SaysAny(root.owner.operation.permissionMode)
    requires Decides(principal, PolicyFor(root.owner.operation, security), answer, v) && v.decision.allowed
    requires p in last.owner.operation.permissions && p != ""
    ensures Granted(v.decision.grants, p)
  {
    RootDeclares(OperationsIn(owners), frames, p);
    AllowedMeansGranted(root.owner.operation, security, principal, answer, v, p);
  }

  /** ... and so every permission of the closure that its plan carries. */
  lemma ClosureIsGranted(
      owners: map<Name, PlanOwner>, detail: Name -> Detail, root: OperationPlan, security: Security,
      principal: Principal, answer: Option<Resolution>, v: Verdict, p: Permission)
    requires Finishable(owners, detail) && PlanOf(owners, root)
    requires !SaysAny(root.owner.operation.permissionMode)
    requires Decides(principal, PolicyFor(root.owner.operation, security), answer, v) && v.decision.allowed
    requires p in root.permissionClosure && p != ""
    ensures Granted(v.decision.grants, p)
  {
    assert !Missing(OperationsIn(owners), root.owner.operation.id, p);
    AllowedMeansGranted(root.owner.operation, security, principal, answer, v, p);
  }

  /** A child's transaction mode is never stronger than the mode of the root it joined. */
  lemma ChildNeverStronger(operations: Operations, frames: seq<ExecutionScope.Frame>, i: nat, mode: string)
    requires Chain(operations, frames) && i < |frames| - 1
    requires frames[i + 1].operation in operations
    requires JoinChild(Some(frames[i]), frames[i + 1].operation, mode,
                       NameSet(operations[frames[i + 1].operation].requiresOperations)) == Joined(frames[i + 1])
    ensures NormalizeMode(mode).Some? && Strength(NormalizeMode(mode).value) <= Strength(frames[0].root.mode)
  {
    ChainIsWalk(operations, frames);
    assert frames[i] in frames && frames[i].root == frames[0].root;
    JoinExactly(frames[i], frames[i + 1].operation, mode, NameSet(operations[frames[i + 1].operation].requiresOperations));
  }

  lemma {:induction false} WalkVisitsOnce(g: Graph, w: seq<Name>)
    requires Acyclic(g) && IsWalk(g, w)
    ensures Unique(w)
  {
    if |w| > 1 {
      WalkInit(g, w);
      var init := w[..|w| - 1];
      WalkVisitsOnce(g, init);
      forall i | 0 <= i < |w| - 1 ensures w[i] != w[|w| - 1] {
        WalkDrop(g, w, i);
        assert !IsCycle(g, w[i..]);
      }
    }
  }

  lemma {:induction false} DistinctFits(w: seq<Name>, all: set<Name>)
    requires Unique(w) && forall n | n in w :: n in all
    ensures |w| <= |all|
  {
    if w != [] {
      var init, last := w[..|w| - 1], w[|w| - 1];
      assert w == init + [last] && last in w;
      DistinctFits(init, all - {last});
    }
  }

  /** Where operations do not need each other in a circle, nesting stays below their number. */
  lemma DepthIsBounded(operations: Operations, frames: seq<ExecutionScope.Frame>, f: ExecutionScope.Frame)
    requires Chain(operations, frames) && f in frames && Acyclic(CallGraph(operations))
    ensures f.depth < |operations|
  {
    ChainIsWalk(operations, frames);
    WalkVisitsOnce(CallGraph(operations), Path(frames));
    forall n | n in Path(frames) ensures n in operations.Keys {
      var i :| 0 <= i < |frames| && frames[i].operation == n;
      assert frames[i] in frames;
    }
    DistinctFits(Path(frames), operations.Keys);
    assert |operations| == |operations.Keys|;
  }

  /** Compiled operations never do, so nesting under compiled plans is bounded. */
  lemma PlannedDepthIsBounded(owners: map<Name, PlanOwner>, detail: Name -> Detail, frames: seq<ExecutionScope.Frame>, f: ExecutionScope.Frame)
    requires Finishable(owners, detail) && Chain(OperationsIn(owners), frames) && f in frames
    ensures f.depth < |owners|
  {
    DepthIsBounded(OperationsIn(owners), frames, f);
    assert OperationsIn(owners).Keys == owners.Keys;
    assert |OperationsIn(owners)| == |OperationsIn(owners).Keys| && |owners| == |owners.Keys|;
  }
}
