/** The order in which generated code builds the applications (Kahn's algorithm). */
module AssemblyOrder {
  import opened Keys
  import opened Sorting
  import opened Strings
  import opened Graphs
  import opened PlanFacts
  import opened CycleSearch

  /** Who depends on `id`, once per edge. */
  function Dependents(edges: seq<Dependency>, id: Name): (r: seq<Name>) {
    if edges == [] then []
    else
      var e := edges[|edges| - 1];
      Dependents(edges[..|edges| - 1], id) + if e.to == id then [e.from] else []
  }

  /** How many edges lead from `id` to names that are not in `order` yet. */
  function Pending(edges: seq<Dependency>, id: Name, order: seq<Name>): (n: nat)
    ensures n == 0 <==> forall b | Depends(edges, id, b) :: b in order
  {
    if edges == [] then 0
    else
      var init, e := edges[..|edges| - 1], edges[|edges| - 1];
      assert edges == init + [e];
      OneMore(edges, |edges| - 1);
      assert Joins(e, e.from, e.to);
      Pending(init, id, order) + if e.from == id && e.to !in order then 1 else 0
  }

  /** Taking `id` into the order releases each of its dependents once per edge. */
  lemma {:induction false} PendingDrops(edges: seq<Dependency>, x: Name, order: seq<Name>, id: Name)
    requires id !in order
    ensures Pending(edges, x, order) == Pending(edges, x, order + [id]) + multiset(Dependents(edges, id))[x]
  {
    if edges != [] {
      PendingDrops(edges[..|edges| - 1], x, order, id);
    }
  }

  /** All that `id` needs is in the order, and `id` is not. */
  ghost predicate Ready(edges: seq<Dependency>, order: seq<Name>, id: Name) {
    id !in order && forall b | Depends(edges, id, b) :: b in order
  }

  /** Place `k` of the order holds the least name that was ready at that point. */
  ghost predicate LeastReady(edges: seq<Dependency>, ids: set<Name>, order: seq<Name>, k: nat)
    requires k < |order|
  {
    && order[k] in ids && Ready(edges, order[..k], order[k])
    && forall x | x in ids && Ready(edges, order[..k], x) :: !Less(x, order[k])
  }

  ghost predicate Greedy(edges: seq<Dependency>, ids: set<Name>, order: seq<Name>) {
    forall k: nat | k < |order| :: LeastReady(edges, ids, order, k)
  }

  lemma ShiftedIn<T>(s: seq<T>, i: nat, blank: T, x: T)
    requires i <= |s|
    ensures
      var r := s + [blank];
      (r[..i + 1] + r[i..|r| - 1])[i := x] == s[..i] + [x] + s[i..]
  {
    assert (s + [blank])[i..|s|] == s[i..];
  }

  /** Inserts where a binary search ends, by growing the list and shifting its tail. */
  method InsertAssemblyString(values: seq<Name>, value: Name) returns (r: seq<Name>)
    ensures r == Insert(values, value)
  {
    var index := Place(Before, values, value);
    ShiftedIn(values, index, "", value);
    r := values + [""];
    r := r[..index + 1] + r[index..|r| - 1];
    r := r[index := value];
  }

  ghost predicate Tally(edges: seq<Dependency>, ids: set<Name>, indegree: map<Name, int>, lists: map<Name, seq<Name>>) {
    && indegree.Keys == ids && (forall x | x in ids :: indegree[x] == Pending(edges, x, []))
    && (forall x :: Succ(lists, x) == Dependents(edges, x))
  }

  lemma OneEdgeMore(edges: seq<Dependency>, e: Dependency, x: Name)
    ensures Dependents(edges + [e], x) == if e.to == x then Dependents(edges, x) + [e.from] else Dependents(edges, x)
    ensures Pending(edges + [e], x, []) == Pending(edges, x, []) + if e.from == x then 1 else 0
  {
    assert (edges + [e])[..|edges|] == edges;
  }

  lemma TallyOne(edges: seq<Dependency>, e: Dependency, ids: set<Name>, indegree: map<Name, int>, lists: map<Name, seq<Name>>)
    requires e.from in ids && Tally(edges, ids, indegree, lists)
    ensures Tally(edges + [e], ids, indegree[e.from := indegree[e.from] + 1], lists[e.to := Succ(lists, e.to) + [e.from]])
  {
    var more, lists' := edges + [e], lists[e.to := Succ(lists, e.to) + [e.from]];
    forall x ensures Succ(lists', x) == Dependents(more, x) {
      OneEdgeMore(edges, e, x);
    }
    CountOne(edges, e, ids, indegree);
  }

  lemma CountOne(edges: seq<Dependency>, e: Dependency, ids: set<Name>, indegree: map<Name, int>)
    requires e.from in ids && indegree.Keys == ids && forall x | x in ids :: indegree[x] == Pending(edges, x, [])
    ensures forall x | x in ids :: indegree[e.from := indegree[e.from] + 1][x] == Pending(edges + [e], x, [])
  {
    forall x | x in ids ensures indegree[e.from := indegree[e.from] + 1][x] == Pending(edges + [e], x, []) {
      OneEdgeMore(edges, e, x);
    }
  }

  method Degrees(edges: seq<Dependency>, ids: set<Name>)
    returns (indegree: map<Name, int>, dependents: map<Name, seq<Name>>)
    requires forall e | e in edges :: e.from in ids
    ensures indegree.Keys == ids && forall x | x in ids :: indegree[x] == Pending(edges, x, [])
    ensures forall x :: Succ(dependents, x) == Sort(Dependents(edges, x))
  {
    indegree := map x | x in ids :: 0;
    var lists: map<Name, seq<Name>> := map[];
    for i := 0 to |edges|
      invariant Tally(edges[..i], ids, indegree, lists)
    {
      var e := edges[i];
      assert edges[..i + 1] == edges[..i] + [e] && e in edges;
      TallyOne(edges[..i], e, ids, indegree, lists);
      indegree := indegree[e.from := indegree[e.from] + 1];
      lists := lists[e.to := Succ(lists, e.to) + [e.from]];
    }
    assert edges[..|edges|] == edges;
    dependents := map x | x in lists :: Sort(lists[x]);
  }

  /** The counters while the dependents from `j` on still wait for their last release. */
  ghost predicate Counts(edges: seq<Dependency>, indegree: map<Name, int>, order: seq<Name>, waiting: seq<Name>) {
    forall x | x in indegree :: indegree[x] == Pending(edges, x, order) + multiset(waiting)[x]
  }

  /** The sorted names outside the order whose counter is zero. */
  ghost predicate ReadyList(ready: seq<Name>, indegree: map<Name, int>, order: seq<Name>) {
    && Ordered(ready) && Unique(ready)
    && forall x :: x in ready <==> x in indegree && x !in order && indegree[x] == 0
  }

  ghost predicate Settled(order: seq<Name>, indegree: map<Name, int>) {
    forall x | x in order :: x in indegree && indegree[x] == 0
  }

  /** Where the inner loop is: the rest still waits for its release. */
  ghost predicate Releasing(edges: seq<Dependency>, indegree: map<Name, int>, order: seq<Name>, ready: seq<Name>, waiting: seq<Name>) {
    Counts(edges, indegree, order, waiting) && ReadyList(ready, indegree, order) && Settled(order, indegree)
  }

  lemma ReleaseStep(edges: seq<Dependency>, indegree: map<Name, int>, order: seq<Name>, ready: seq<Name>, waiting: seq<Name>)
    requires Releasing(edges, indegree, order, ready, waiting) && waiting != [] && waiting[0] in indegree
    ensures
      var d := waiting[0];
      var n := indegree[d] - 1;
      Releasing(edges, indegree[d := n], order, if n == 0 then Insert(ready, d) else ready, waiting[1..])
  {
    TakeHead(edges, indegree, order, waiting);
    ReleaseOne(indegree, order, ready, waiting[0]);
  }

  /** The inner loop: releases the dependents of the name just taken. */
  method Release(ghost edges: seq<Dependency>, ghost order: seq<Name>, waiting: seq<Name>,
                 degrees: map<Name, int>, start: seq<Name>)
    returns (indegree: map<Name, int>, ready: seq<Name>)
    requires Releasing(edges, degrees, order, start, waiting)
    requires forall x | x in waiting :: x in degrees
    ensures indegree.Keys == degrees.Keys && Releasing(edges, indegree, order, ready, [])
  {
    indegree, ready := degrees, start;
    assert waiting[0..] == waiting;
    for j := 0 to |waiting|
      invariant indegree.Keys == degrees.Keys
      invariant Releasing(edges, indegree, order, ready, waiting[j..])
    {
      assert waiting[j..][0] == waiting[j] && waiting[j..][1..] == waiting[j + 1..];
      indegree, ready := ReleaseDependent(edges, order, waiting[j], waiting[j..], indegree, ready);
    }
    assert waiting[|waiting|..] == [];
  }

  method ReleaseDependent(ghost edges: seq<Dependency>, ghost order: seq<Name>, dependent: Name, ghost waiting: seq<Name>,
                          degrees: map<Name, int>, start: seq<Name>)
    returns (indegree: map<Name, int>, ready: seq<Name>)
    requires Releasing(edges, degrees, order, start, waiting) && waiting != [] && waiting[0] == dependent && dependent in degrees
    ensures indegree.Keys == degrees.Keys && Releasing(edges, indegree, order, ready, waiting[1..])
  {
    ReleaseStep(edges, degrees, order, start, waiting);
    indegree, ready := degrees[dependent := degrees[dependent] - 1], start;
    if indegree[dependent] == 0 {
      ready := InsertAssemblyString(ready, dependent);
    }
  }

  lemma TakeHead(edges: seq<Dependency>, indegree: map<Name, int>, order: seq<Name>, waiting: seq<Name>)
    requires waiting != [] && Counts(edges, indegree, order, waiting) && waiting[0] in indegree
    ensures indegree[waiting[0]] > 0
    ensures Counts(edges, indegree[waiting[0] := indegree[waiting[0]] - 1], order, waiting[1..])
  {
    assert waiting == [waiting[0]] + waiting[1..];
    assert multiset(waiting) == multiset{waiting[0]} + multiset(waiting[1..]);
  }

  lemma ReleaseOne(indegree: map<Name, int>, order: seq<Name>, ready: seq<Name>, d: Name)
    requires ReadyList(ready, indegree, order) && d in indegree && indegree[d] > 0
    requires Settled(order, indegree)
    ensures
      var n := indegree[d] - 1;
      Settled(order, indegree[d := n]) &&
      ReadyList(if n == 0 then Insert(ready, d) else ready, indegree[d := n], order)
  {
    InsertKeeps(ready, d);
    if indegree[d] == 1 {
      InsertUnique(ready, d);
    }
  }

  lemma InsertUnique(s: seq<Name>, x: Name)
    requires Unique(s) && x !in s
    ensures Unique(Insert(s, x)) && forall y :: y in Insert(s, x) <==> y in s || y == x
  {
    InsertKeeps(s, x);
    assert forall y :: y in Insert(s, x) <==> Has(Insert(s, x), y);
  }

  /** The graph of the edges, from what each name needs. */
  function DependencyMap(edges: seq<Dependency>, ids: set<Name>): Graph {
    map a | a in ids :: Sort(Needs(edges, a))
  }

  lemma DependencyMapEdges(edges: seq<Dependency>, ids: set<Name>)
    requires forall e | e in edges :: e.from in ids
    ensures forall a, b :: Edge(DependencyMap(edges, ids), a, b) <==> Depends(edges, a, b)
  {
    forall a, b ensures Edge(DependencyMap(edges, ids), a, b) <==> Depends(edges, a, b) {
      SortSorts(Needs(edges, a));
      assert Has(Sort(Needs(edges, a)), b) <==> Has(Needs(edges, a), b);
    }
  }

  // ----- the order -----

  /** Everything taken so far was the least ready name of its time, and the counters are up to date. */
  ghost predicate Progress(edges: seq<Dependency>, ids: set<Name>, indegree: map<Name, int>, order: seq<Name>, ready: seq<Name>) {
    && indegree.Keys == ids
    && Counts(edges, indegree, order, []) && ReadyList(ready, indegree, order)
    && Settled(order, indegree)
    && Unique(order) && Greedy(edges, ids, order)
  }

  lemma GreedyTakes(edges: seq<Dependency>, ids: set<Name>, indegree: map<Name, int>, order: seq<Name>, ready: seq<Name>)
    requires Progress(edges, ids, indegree, order, ready) && ready != []
    ensures Greedy(edges, ids, order + [ready[0]])
  {
    var id, more := ready[0], order + [ready[0]];
    forall x | x in ids ensures Ready(edges, order, x) <==> x in ready {
    }
    forall x | x in ready ensures !Less(x, id) {
      var i :| 0 <= i < |ready| && ready[i] == x;
      BeforeIsLess(x, id);
      LessTrichotomy(id, id);
    }
    forall k: nat | k < |more| ensures LeastReady(edges, ids, more, k) {
      assert more[..k] == order[..k];
      if k < |order| {
        assert LeastReady(edges, ids, order, k);
      } else {
        assert more[..k] == order;
      }
    }
  }

  lemma CountsAfterTaking(edges: seq<Dependency>, indegree: map<Name, int>, order: seq<Name>, id: Name)
    requires Counts(edges, indegree, order, []) && id !in order
    ensures Counts(edges, indegree, order + [id], Sort(Dependents(edges, id)))
  {
    SortSorts(Dependents(edges, id));
    forall x ensures Pending(edges, x, order) == Pending(edges, x, order + [id]) + multiset(Dependents(edges, id))[x] {
      PendingDrops(edges, x, order, id);
    }
  }

  lemma {:induction false} DependentsDepend(edges: seq<Dependency>, id: Name)
    ensures forall x :: x in Dependents(edges, id) <==> Depends(edges, x, id)
  {
    if edges != [] {
      var init, e := edges[..|edges| - 1], edges[|edges| - 1];
      DependentsDepend(init, id);
      OneMore(edges, |edges| - 1);
      assert edges[..|edges|] == edges;
      forall x ensures x in Dependents(edges, id) <==> Depends(init, x, id) || Joins(e, x, id) {
      }
    }
  }

  lemma ReadyTail(ready: seq<Name>, indegree: map<Name, int>, order: seq<Name>)
    requires ReadyList(ready, indegree, order) && ready != []
    ensures ready[0] in indegree && ready[0] !in order && indegree[ready[0]] == 0
    ensures ReadyList(ready[1..], indegree, order + [ready[0]])
  {
    assert ready == [ready[0]] + ready[1..];
  }

  lemma ReleasedKnown(edges: seq<Dependency>, ids: set<Name>, id: Name)
    requires forall e | e in edges :: e.from in ids
    ensures forall x | x in Sort(Dependents(edges, id)) :: x in ids
  {
    SortSorts(Dependents(edges, id));
    DependentsDepend(edges, id);
    forall x | x in Sort(Dependents(edges, id)) ensures x in ids {
      assert Has(Sort(Dependents(edges, id)), x) && Has(Dependents(edges, id), x);
    }
  }

  /** One turn of the outer loop. */
  method Take(ghost edges: seq<Dependency>, ghost ids: set<Name>, dependents: map<Name, seq<Name>>,
              degrees: map<Name, int>, taken: seq<Name>, waiting: seq<Name>)
    returns (indegree: map<Name, int>, order: seq<Name>, ready: seq<Name>)
    requires forall e | e in edges :: e.from in ids
    requires forall x :: Succ(dependents, x) == Sort(Dependents(edges, x))
    requires Progress(edges, ids, degrees, taken, waiting) && waiting != []
    ensures Progress(edges, ids, indegree, order, ready) && order == taken + [waiting[0]]
  {
    GreedyTakes(edges, ids, degrees, taken, waiting);
    ReadyTail(waiting, degrees, taken);
    CountsAfterTaking(edges, degrees, taken, waiting[0]);
    ReleasedKnown(edges, ids, waiting[0]);
    order := taken + [waiting[0]];
    indegree, ready := Release(edges, order, Succ(dependents, waiting[0]), degrees, waiting[1..]);
  }

  lemma GreedyIsDependencyFirst(edges: seq<Dependency>, ids: set<Name>, order: seq<Name>)
    requires Greedy(edges, ids, order) && forall e | e in edges :: e.from in ids
    ensures SuccessorsFirst(DependencyMap(edges, ids), order)
  {
    DependencyMapEdges(edges, ids);
    forall i, b | 0 <= i < |order| && Edge(DependencyMap(edges, ids), order[i], b) ensures b in order[..i] {
      assert LeastReady(edges, ids, order, i);
    }
  }

  lemma StillPending(edges: seq<Dependency>, indegree: map<Name, int>, order: seq<Name>, x: Name)
    requires Counts(edges, indegree, order, []) && ReadyList([], indegree, order) && x in indegree && x !in order
    ensures exists b :: Depends(edges, x, b) && b !in order
  {
    assert x !in [];
    assert Pending(edges, x, order) != 0;
  }

  /** When nothing is ready but names are left over, those names hold a cycle. */
  lemma StuckOnCycle(edges: seq<Dependency>, ids: set<Name>, indegree: map<Name, int>, order: seq<Name>, a: Name)
    requires forall e | e in edges :: e.from in ids && e.to in ids
    requires Counts(edges, indegree, order, []) && ReadyList([], indegree, order) && indegree.Keys == ids
    requires a in ids && a !in order
    ensures !Acyclic(DependencyMap(edges, ids))
  {
    var g, left := DependencyMap(edges, ids), ids - set x | x in order;
    DependencyMapEdges(edges, ids);
    forall x ensures StaysIn(g, left, x) {
      if x in left {
        StillPending(edges, indegree, order, x);
        var b :| Depends(edges, x, b) && b !in order;
        assert Edge(g, x, b) && b in left;
      }
    }
    var c := CycleByPigeonhole(g, left, [a]);
  }

  lemma {:induction false} DistinctSize(order: seq<Name>)
    requires Unique(order)
    ensures |set x | x in order| == |order|
  {
    if order != [] {
      var init, last := order[..|order| - 1], order[|order| - 1];
      DistinctSize(init);
      assert order == init + [last];
      assert (set x | x in order) == (set x | x in init) + {last};
    }
  }

  lemma AllTaken(ids: set<Name>, order: seq<Name>)
    requires Unique(order) && forall x | x in order :: x in ids
    ensures |order| == |ids| <==> forall x | x in ids :: x in order
  {
    DistinctSize(order);
    var taken := set x | x in order;
    assert |ids - taken| == |ids| - |taken|;
    assert (forall x | x in ids :: x in order) ==> taken == ids;
  }

  /**
   Orders the applications so that each comes after what it depends on, always taking the
   least name that is ready.  It fails exactly on graphs with a cycle.
   */
  method AssemblyApplicationOrder(applications: seq<Name>, edges: seq<Dependency>) returns (ok: bool, order: seq<Name>)
    requires forall e | e in edges :: e.from in applications && e.to in applications
    ensures
      var ids := set a | a in applications;
      var g := DependencyMap(edges, ids);
      && (ok <==> Acyclic(g))
      && (ok ==> Unique(order) && SuccessorsFirst(g, order) && Greedy(edges, ids, order))
      && (ok ==> forall x :: x in order <==> x in applications)
  {
    var ids := set a | a in applications;
    var indegree, dependents := Degrees(edges, ids);
    var ready := SortedNames(set x | x in ids && indegree[x] == 0);
    order := [];
    while ready != []
      invariant Progress(edges, ids, indegree, order, ready)
      decreases |ids| - |order|
    {
      GreedyTakes(edges, ids, indegree, order, ready);
      MoreToTake(ids, order, ready[0]);
      indegree, order, ready := Take(edges, ids, dependents, indegree, order, ready);
    }
    ok := |order| == |indegree|;
    assert |indegree| == |indegree.Keys|;
    AllTaken(ids, order);
    GreedyIsDependencyFirst(edges, ids, order);
    DependencyMapEdges(edges, ids);
    if ok {
      FinishedAcyclic(DependencyMap(edges, ids), order);
    } else {
      var a :| a in ids && a !in order;
      StuckOnCycle(edges, ids, indegree, order, a);
    }
  }

  lemma MoreToTake(ids: set<Name>, order: seq<Name>, id: Name)
    requires Unique(order) && (forall x | x in order :: x in ids) && id in ids && id !in order
    ensures |order| < |ids|
  {
    DistinctSize(order);
    var taken := set x | x in order;
    assert |ids - taken| == |ids| - |taken| && id in ids - taken;
  }

  /** There is only one such order. */
  lemma GreedyUnique(edges: seq<Dependency>, ids: set<Name>, s: seq<Name>, t: seq<Name>)
    requires Greedy(edges, ids, s) && Greedy(edges, ids, t) && |s| == |t|
    ensures s == t
  {
    for k := 0 to |s|
      invariant s[..k] == t[..k]
    {
      assert LeastReady(edges, ids, s, k) && LeastReady(edges, ids, t, k);
      LessTrichotomy(s[k], t[k]);
      assert s[..k + 1] == s[..k] + [s[k]] && t[..k + 1] == t[..k] + [t[k]];
    }
    assert s[..|s|] == s && t[..|t|] == t;
  }

  /**
   The renderer orders only what the validator let through: it fails exactly when the
   validator's search finds a cycle.
   */
  method ValidatedOrder(applications: seq<Name>, edges: seq<Dependency>)
    returns (cycle: seq<Name>, ok: bool, order: seq<Name>)
    requires forall e | e in edges :: e.from in applications && e.to in applications && e.to != ""
    ensures ok <==> cycle == []
    ensures !ok ==> |cycle| >= 2 && cycle[0] == cycle[|cycle| - 1]
    ensures !ok ==> forall i | 0 <= i < |cycle| - 1 :: Depends(edges, cycle[i], cycle[i + 1])
    ensures ok ==> Unique(order) && SuccessorsFirst(DependencyMap(edges, set a | a in applications), order)
    ensures ok ==> forall x :: x in order <==> x in applications
  {
    cycle := FirstCycle(edges, applications);
    ghost var g := EdgeGraph(edges);
    EdgeGraphEdges(edges);
    TargetsNamed(edges);
    ok, order := AssemblyApplicationOrder(applications, edges);
    ghost var h := DependencyMap(edges, set a | a in applications);
    DependencyMapEdges(edges, set a | a in applications);
    MoreEdges(g, h);
    MoreEdges(h, g);
    if !ok {
      assert forall i :: LinkAt(g, cycle, i);
      forall i | 0 <= i < |cycle| - 1 ensures Depends(edges, cycle[i], cycle[i + 1]) {
        assert LinkAt(g, cycle, i) && Edge(g, cycle[i], cycle[i + 1]);
      }
    }
  }

  // ----- the generated constructor code -----

  /** Reading the value of an application to wrap it for another, and setting a value. */
  datatype Statement = NewChildCapability(of: Name, needs: Name) | Build(of: Name, arguments: seq<Name>)

  function Capabilities(id: Name, dependencies: seq<Name>): (r: seq<Statement>)
    ensures |r| == |dependencies|
    ensures forall i | 0 <= i < |r| :: r[i] == NewChildCapability(id, dependencies[i])
  {
    seq(|dependencies|, i requires 0 <= i < |dependencies| => NewChildCapability(id, dependencies[i]))
  }

  /** The statements of BuildApplications, application by application. */
  method BuildApplications(order: seq<Name>, infos: Graph) returns (code: seq<Statement>)
    ensures code == CodeFor(order, infos)
  {
    code := [];
    for i := 0 to |order|
      invariant code == CodeFor(order[..i], infos)
    {
      var id := order[i];
      code := code + Capabilities(id, Succ(infos, id));
      code := code + [Build(id, Succ(infos, id))];
      assert order[..i + 1][..i] == order[..i];
    }
    assert order[..|order|] == order;
  }

  function CodeFor(order: seq<Name>, infos: Graph): (code: seq<Statement>) {
    if order == [] then []
    else
      var id := order[|order| - 1];
      CodeFor(order[..|order| - 1], infos) + Capabilities(id, Succ(infos, id)) + [Build(id, Succ(infos, id))]
  }

  /** The variable of `id` is set before statement `k`. */
  ghost predicate SetBefore(code: seq<Statement>, id: Name, k: int) {
    exists j | 0 <= j < |code| :: j < k && code[j].Build? && code[j].of == id
  }

  lemma {:induction false} AllAreSet(order: seq<Name>, infos: Graph, id: Name)
    requires id in order
    ensures SetBefore(CodeFor(order, infos), id, |CodeFor(order, infos)|)
  {
    var init, last := order[..|order| - 1], order[|order| - 1];
    assert order == init + [last];
    var code := CodeFor(order, infos);
    if id == last {
      assert code[|code| - 1] == Build(last, Succ(infos, last));
    } else {
      AllAreSet(init, infos, id);
      SetEarlier(CodeFor(init, infos), code, id, |CodeFor(init, infos)|);
    }
  }

  lemma SetEarlier(code: seq<Statement>, more: seq<Statement>, id: Name, k: int)
    requires code <= more && SetBefore(code, id, k)
    ensures SetBefore(more, id, k)
  {
    var j :| 0 <= j < |code| && j < k && code[j].Build? && code[j].of == id;
    assert more[j] == code[j];
  }

  /** Every application read has been built before it is read. */
  lemma {:induction false} ReadsOnlyBuilt(order: seq<Name>, infos: Graph, k: nat)
    requires SuccessorsFirst(infos, order) && (forall a, b | Edge(infos, a, b) :: b in infos)
    requires k < |CodeFor(order, infos)| && CodeFor(order, infos)[k].NewChildCapability?
    ensures SetBefore(CodeFor(order, infos), CodeFor(order, infos)[k].needs, k)
  {
    var init, last := order[..|order| - 1], order[|order| - 1];
    assert order == init + [last];
    assert forall i | 0 <= i < |init| :: init[..i] == order[..i];
    var before, code := CodeFor(init, infos), CodeFor(order, infos);
    assert before <= code;
    if k < |before| {
      ReadsOnlyBuilt(init, infos, k);
      SameBefore(before, code, k);
    } else {
      var read := Succ(infos, last)[k - |before|];
      assert Edge(infos, last, read) && order[..|order| - 1] == init;
      AllAreSet(init, infos, read);
      SetEarlier(before, code, read, |before|);
    }
  }

  /** No variable is set twice. */
  lemma {:induction false} BuiltOnce(order: seq<Name>, infos: Graph, k: nat)
    requires Unique(order) && k < |CodeFor(order, infos)| && CodeFor(order, infos)[k].Build?
    ensures CodeFor(order, infos)[k].of in order && !SetBefore(CodeFor(order, infos), CodeFor(order, infos)[k].of, k)
  {
    var init, last := order[..|order| - 1], order[|order| - 1];
    assert order == init + [last] && last in order;
    var before, code := CodeFor(init, infos), CodeFor(order, infos);
    assert before <= code;
    if k < |before| {
      BuiltOnce(init, infos, k);
      SameBefore(before, code, k);
    } else {
      BuildsOnlyTheOrder(init, infos);
      assert forall j | 0 <= j < k :: code[j].Build? ==> j < |before| && code[j] == before[j];
    }
  }

  lemma SameBefore(code: seq<Statement>, more: seq<Statement>, k: nat)
    requires code <= more && k <= |code|
    ensures forall id :: SetBefore(more, id, k) <==> SetBefore(code, id, k)
  {
    assert forall j | 0 <= j < k :: more[j] == code[j];
  }

  lemma {:induction false} BuildsOnlyTheOrder(order: seq<Name>, infos: Graph)
    ensures forall j | 0 <= j < |CodeFor(order, infos)| && CodeFor(order, infos)[j].Build? :: CodeFor(order, infos)[j].of in order
  {
    if order != [] {
      BuildsOnlyTheOrder(order[..|order| - 1], infos);
    }
  }

  lemma {:induction false} StatementsOf(order: seq<Name>, infos: Graph, k: nat)
    requires k < |CodeFor(order, infos)|
    ensures match CodeFor(order, infos)[k]
            case NewChildCapability(id, needed) => Edge(infos, id, needed)
            case Build(id, arguments) => arguments == Succ(infos, id)
  {
    var init, last := order[..|order| - 1], order[|order| - 1];
    var before := CodeFor(init, infos);
    if k < |before| {
      StatementsOf(init, infos, k);
      assert CodeFor(order, infos)[k] == before[k];
    }
  }

  /** Capabilities are made for what is depended on, from applications that were built before. */
  ghost predicate ReadsInOrder(code: seq<Statement>, edges: seq<Dependency>) {
    forall k | 0 <= k < |code| && code[k].NewChildCapability? ::
      Depends(edges, code[k].of, code[k].needs) && SetBefore(code, code[k].needs, k)
  }

  /** Applications are built from the capabilities they need, and none is built again. */
  ghost predicate BuildsInOrder(code: seq<Statement>, applications: seq<Name>, edges: seq<Dependency>) {
    forall k | 0 <= k < |code| && code[k].Build? ::
      code[k].of in applications && code[k].arguments == Sort(Needs(edges, code[k].of)) && !SetBefore(code, code[k].of, k)
  }

  /** What generated code has to do. */
  ghost predicate Builds(code: seq<Statement>, applications: seq<Name>, edges: seq<Dependency>) {
    && ReadsInOrder(code, edges) && BuildsInOrder(code, applications, edges)
    && (forall a | a in applications :: SetBefore(code, a, |code|))
  }

  /** From edges to code: there is code exactly when the edges have no cycle, and it builds what it should. */
  method RenderApplications(applications: seq<Name>, edges: seq<Dependency>)
    returns (cycle: seq<Name>, ok: bool, code: seq<Statement>)
    requires forall e | e in edges :: e.from in applications && e.to in applications && e.to != ""
    ensures ok <==> cycle == []
    ensures !ok ==> |cycle| >= 2 && cycle[0] == cycle[|cycle| - 1]
    ensures !ok ==> forall i | 0 <= i < |cycle| - 1 :: Depends(edges, cycle[i], cycle[i + 1])
    ensures ok ==> Builds(code, applications, edges)
  {
    var order;
    cycle, ok, order := ValidatedOrder(applications, edges);
    code := [];
    if ok {
      var infos := DependencyMap(edges, set a | a in applications);
      code := BuildApplications(order, infos);
      OrderBuilds(applications, edges, order);
    }
  }

  lemma OrderBuilds(applications: seq<Name>, edges: seq<Dependency>, order: seq<Name>)
    requires forall e | e in edges :: e.from in applications && e.to in applications
    requires Unique(order) && SuccessorsFirst(DependencyMap(edges, set a | a in applications), order)
    requires forall x :: x in order <==> x in applications
    ensures Builds(CodeFor(order, DependencyMap(edges, set a | a in applications)), applications, edges)
  {
    var ids := set a | a in applications;
    var infos := DependencyMap(edges, ids);
    DependencyMapEdges(edges, ids);
    NeededAreKnown(applications, edges, ids);
    CodeReads(order, infos, edges);
    CodeBuilds(order, infos, applications, edges);
    forall a | a in applications ensures SetBefore(CodeFor(order, infos), a, |CodeFor(order, infos)|) {
      AllAreSet(order, infos, a);
    }
  }

  lemma CodeReads(order: seq<Name>, infos: Graph, edges: seq<Dependency>)
    requires SuccessorsFirst(infos, order) && (forall a, b | Edge(infos, a, b) :: b in infos && Depends(edges, a, b))
    ensures ReadsInOrder(CodeFor(order, infos), edges)
  {
    var code := CodeFor(order, infos);
    forall k | 0 <= k < |code| && code[k].NewChildCapability?
      ensures Depends(edges, code[k].of, code[k].needs) && SetBefore(code, code[k].needs, k)
    {
      StatementsOf(order, infos, k);
      ReadsOnlyBuilt(order, infos, k);
    }
  }

  lemma CodeBuilds(order: seq<Name>, infos: Graph, applications: seq<Name>, edges: seq<Dependency>)
    requires Unique(order) && forall x | x in order :: x in applications && Succ(infos, x) == Sort(Needs(edges, x))
    ensures BuildsInOrder(CodeFor(order, infos), applications, edges)
  {
    var code := CodeFor(order, infos);
    forall k | 0 <= k < |code| && code[k].Build?
      ensures code[k].of in applications && code[k].arguments == Sort(Needs(edges, code[k].of)) && !SetBefore(code, code[k].of, k)
    {
      StatementsOf(order, infos, k);
      BuiltOnce(order, infos, k);
    }
  }

  lemma NeededAreKnown(applications: seq<Name>, edges: seq<Dependency>, ids: set<Name>)
    requires forall e | e in edges :: e.from in applications && e.to in applications
    requires ids == set a | a in applications
    ensures forall a, b | Edge(DependencyMap(edges, ids), a, b) :: b in DependencyMap(edges, ids)
  {
    DependencyMapEdges(edges, ids);
    forall a, b | Depends(edges, a, b) ensures b in applications {
    }
  }
}
