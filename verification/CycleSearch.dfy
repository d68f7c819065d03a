/** The coloured depth-first searches that look for dependency cycles. */
module CycleSearch {
  import opened Sorting
  import opened Strings
  import opened Graphs
  import opened PlanFacts

  /** The edges as adjacency lists, with an empty list for each name that needs nothing. */
  method Adjacency(edges: seq<Dependency>, nodes: seq<Name>) returns (g: Graph)
    ensures forall a, b :: Edge(g, a, b) <==> Depends(edges, a, b) && b != ""
    ensures forall n | n in nodes :: n in g
    ensures forall a | a in g :: Ordered(g[a]) && Unique(g[a])
  {
    g := map[];
    for i := 0 to |nodes|
      invariant forall a | a in g :: g[a] == []
      invariant forall n | n in nodes[..i] :: n in g
    {
      g := g[nodes[i] := []];
    }
    for i := 0 to |edges|
      invariant forall a, b :: Edge(g, a, b) <==> Depends(edges[..i], a, b)
      invariant forall n | n in nodes :: n in g
    {
      var e := edges[i];
      OneMore(edges, i);
      ghost var was := g;
      g := g[e.from := Succ(g, e.from) + [e.to]];
      assert forall a, b :: Edge(g, a, b) <==> Edge(was, a, b) || Joins(e, a, b);
    }
    assert edges[..|edges|] == edges;
    forall a | a in g
      ensures Ordered(StableStrings(g[a])) && Unique(StableStrings(g[a]))
    {
      StableHas(g[a]);
    }
    ghost var raw := g;
    g := map a | a in g :: StableStrings(g[a]);
    forall a, b ensures Edge(g, a, b) <==> Edge(raw, a, b) && b != "" {
      if a in raw {
        StableHas(raw[a]);
        assert Has(StableStrings(raw[a]), b) <==> Has(raw[a], b) && b != "";
      }
    }
  }

  /** The names at either end of an edge. */
  function Ends(edges: seq<Dependency>): set<Name> {
    (set e | e in edges :: e.from) + set e | e in edges :: e.to
  }

  /** The dependencies as a graph; blank names are nobody's target. */
  function EdgeGraph(dependencies: seq<Dependency>): Graph {
    map a | a in Ends(dependencies) :: StableStrings(Needs(dependencies, a))
  }

  lemma EdgeGraphEdges(dependencies: seq<Dependency>)
    ensures forall a, b :: Edge(EdgeGraph(dependencies), a, b) <==> Depends(dependencies, a, b) && b != ""
  {
    forall a, b ensures Edge(EdgeGraph(dependencies), a, b) <==> Depends(dependencies, a, b) && b != "" {
      StableHas(Needs(dependencies, a));
      assert Has(StableStrings(Needs(dependencies, a)), b) <==> Has(Needs(dependencies, a), b) && b != "";
      if Depends(dependencies, a, b) {
        var e :| e in dependencies && Joins(e, a, b);
        assert a in Ends(dependencies);
      }
    }
  }

  /** Where no target is blank, the graph has exactly the dependencies for edges. */
  lemma TargetsNamed(dependencies: seq<Dependency>)
    requires forall e | e in dependencies :: e.to != ""
    ensures forall a, b :: Edge(EdgeGraph(dependencies), a, b) <==> Depends(dependencies, a, b)
  {
    EdgeGraphEdges(dependencies);
    forall a, b | Depends(dependencies, a, b) ensures b != "" {
      var e :| e in dependencies && Joins(e, a, b);
    }
  }

  datatype Color = Gray | Black

  /** How colours, stack and positions hang together. */
  ghost predicate Coherent(g: Graph, state: map<Name, Color>, stack: seq<Name>, position: map<Name, nat>,
                           cycles: seq<seq<Name>>, done: seq<Name>)
  {
    && Unique(stack) && Unique(done)
    && (stack != [] ==> IsWalk(g, stack))
    && (forall n :: n in stack <==> n in state && state[n].Gray?)
    && (forall n :: n in done <==> n in state && state[n].Black?)
    && (forall i | 0 <= i < |stack| :: stack[i] in position && position[stack[i]] == i)
    && (cycles == [] ==> SuccessorsFirst(g, done))
  }

  lemma Pushed(g: Graph, state: map<Name, Color>, stack: seq<Name>, position: map<Name, nat>,
               cycles: seq<seq<Name>>, done: seq<Name>, node: Name)
    requires Coherent(g, state, stack, position, cycles, done) && node !in state
    requires stack != [] ==> Edge(g, stack[|stack| - 1], node)
    ensures Coherent(g, state[node := Gray], stack + [node], position[node := |stack|], cycles, done)
  {
    if stack != [] {
      WalkExtend(g, stack, node);
    }
  }

  lemma Popped(g: Graph, state: map<Name, Color>, stack: seq<Name>, position: map<Name, nat>,
               cycles: seq<seq<Name>>, done: seq<Name>)
    requires Coherent(g, state, stack, position, cycles, done) && stack != []
    requires cycles == [] ==> forall b | Edge(g, stack[|stack| - 1], b) && b in g :: b in done
    ensures
      var node := stack[|stack| - 1];
      Coherent(g, state[node := Black], stack[..|stack| - 1], position - {node}, cycles, done + [node])
  {
    var node := stack[|stack| - 1];
    assert node in stack && node !in done;
    if |stack| > 1 {
      WalkInit(g, stack);
    }
    TakenLast(stack);
    Appended(g, done, node);
  }

  /**
   The state of one search.  Names without a colour are untouched; gray names are the
   ones on the stack; black names are finished.  `done` keeps, for the proof, the order
   in which names were finished.
   */
  class Search {
    const g: Graph
    var state: map<Name, Color>
    var stack: seq<Name>
    var position: map<Name, nat>
    var cycles: seq<seq<Name>>
    ghost var done: seq<Name>

    constructor (g: Graph)
      ensures this.g == g && Inv() && stack == [] && done == [] && cycles == []
    {
      this.g, state, stack, position, cycles, done := g, map[], [], map[], [], [];
    }

    /**
     The stack is the walk from the root of the search to the name being visited, and as
     long as no cycle was met the finished names are in dependency-first order.
     */
    ghost predicate Inv()
      reads this
    {
      Coherent(g, state, stack, position, cycles, done)
    }

    /** The names a visit has not touched yet: what a deeper visit has fewer of. */
    ghost function Untouched(): set<Name>
      reads this
    {
      Names(g) - state.Keys
    }

    /** Colours a new name gray and puts it on the stack. */
    method Push(node: Name)
      requires Inv() && node !in state
      requires stack != [] ==> Edge(g, stack[|stack| - 1], node)
      modifies this
      ensures Inv() && stack == old(stack) + [node] && done == old(done) && cycles == old(cycles)
      ensures Untouched() == old(Untouched()) - {node}
    {
      Pushed(g, state, stack, position, cycles, done, node);
      state := state[node := Gray];
      position := position[node := |stack|];
      stack := stack + [node];
    }

    /** Takes a name whose successors are all finished from the stack and colours it black. */
    method Pop(node: Name)
      requires Inv() && stack != [] && stack[|stack| - 1] == node
      requires cycles == [] ==> forall b | Edge(g, node, b) && b in g :: b in done
      modifies this
      ensures Inv() && stack == old(stack)[..|old(stack)| - 1] && done == old(done) + [node] && cycles == old(cycles)
      ensures Untouched() == old(Untouched())
    {
      Popped(g, state, stack, position, cycles, done);
      stack := stack[..|stack| - 1];
      position := position - {node};
      state := state[node := Black];
      done := done + [node];
    }

    /** A gray name closes a cycle: the stack from its position on, and the name again. */
    method CloseCycle(node: Name) returns (cycle: seq<Name>)
      requires Inv() && node in stack && Edge(g, stack[|stack| - 1], node)
      ensures IsCycle(g, cycle) && cycle != []
    {
      var start := position[node];
      WalkExtend(g, stack, node);
      WalkDrop(g, stack + [node], start);
      cycle := stack[start..] + [node];
      assert (stack + [node])[start..] == cycle;
    }

    /** No cycle was met, the stack is as it was, and no name was touched or finished in vain. */
    ghost predicate Resumed(was: seq<Name>, finished: seq<Name>, untouched: set<Name>)
      reads this
    {
      Inv() && cycles == [] && stack == was && Untouched() <= untouched && forall n | n in finished :: n in done
    }

    /**
     Finishes `node` and everything it reaches, or stops at the first cycle.  The stack is
     as before when there is none.
     */
    method Visit(node: Name) returns (cycle: seq<Name>)
      requires Inv() && node in Names(g) && cycles == []
      requires stack != [] ==> Edge(g, stack[|stack| - 1], node)
      modifies this
      ensures cycle != [] ==> IsCycle(g, cycle)
      ensures cycle == [] ==> Resumed(old(stack), old(done), old(Untouched())) && node in done
      decreases Untouched(), 0
    {
      if node in state && state[node] == Black {
        return [];
      }
      if node in state && state[node] == Gray {
        cycle := CloseCycle(node);
        return;
      }
      Push(node);
      cycle := VisitSuccessors(node, Succ(g, node));
      if cycle != [] {
        return;
      }
      Pop(node);
      return [];
    }

    method VisitSuccessors(node: Name, succ: seq<Name>) returns (cycle: seq<Name>)
      requires Inv() && cycles == [] && stack != [] && stack[|stack| - 1] == node
      requires forall b | b in succ :: Edge(g, node, b)
      modifies this
      ensures cycle != [] ==> IsCycle(g, cycle)
      ensures cycle == [] ==> Resumed(old(stack), old(done), old(Untouched())) && forall b | b in succ :: b in done
      decreases Untouched(), 1
    {
      cycle := [];
      var i := 0;
      while i < |succ|
        invariant 0 <= i <= |succ|
        invariant Resumed(old(stack), old(done), old(Untouched())) && cycle == []
        invariant forall j | 0 <= j < i :: succ[j] in done
      {
        assert Edge(g, node, succ[i]) && succ[i] in Names(g);
        cycle := Visit(succ[i]);
        if cycle != [] {
          return;
        }
        i := i + 1;
      }
    }

    /** Everything reported so far is a cycle, each one reported once. */
    ghost predicate Genuine()
      reads this
    {
      && (forall i | 0 <= i < |cycles| :: IsCycle(g, cycles[i]))
      && (forall i, j | 0 <= i < j < |cycles| :: cycles[i] != cycles[j])
    }

    method Note(cycle: seq<Name>)
      requires Inv() && Genuine() && IsCycle(g, cycle)
      modifies this`cycles
      ensures Inv() && Genuine() && cycles != []
    {
      if cycle !in cycles {
        cycles := cycles + [cycle];
      }
    }

    /**
     The search of the linter: it notes a cycle, unless it has noted it before, and goes
     on.  It follows only names that have a list.
     */
    method VisitAll(node: Name)
      requires Inv() && Genuine() && node in g
      requires stack != [] ==> Edge(g, stack[|stack| - 1], node)
      modifies this
      ensures Inv() && Genuine() && stack == old(stack) && (old(cycles) != [] ==> cycles != [])
      ensures node in done || cycles != []
      ensures Untouched() <= old(Untouched())
      ensures forall n | n in old(done) :: n in done
      decreases Untouched(), 0
    {
      if node in state && state[node] == Black {
        return;
      }
      if node in state && state[node] == Gray {
        var cycle := CloseCycle(node);
        Note(cycle);
        return;
      }
      Push(node);
      SortSorts(Succ(g, node));
      var succ := Sort(Succ(g, node));
      assert forall b | b in succ :: Has(succ, b) && Has(Succ(g, node), b);
      VisitEach(node, succ);
      assert forall b | Edge(g, node, b) :: Has(Succ(g, node), b) && Has(succ, b);
      Pop(node);
    }

    method VisitEach(node: Name, succ: seq<Name>)
      requires Inv() && Genuine() && stack != [] && stack[|stack| - 1] == node
      requires forall b | b in succ :: Edge(g, node, b)
      modifies this
      ensures Inv() && Genuine() && stack == old(stack) && (old(cycles) != [] ==> cycles != [])
      ensures cycles == [] ==> forall b | b in succ && b in g :: b in done
      ensures Untouched() <= old(Untouched())
      ensures forall n | n in old(done) :: n in done
      decreases Untouched(), 1
    {
      var i := 0;
      while i < |succ|
        invariant 0 <= i <= |succ|
        invariant Inv() && Genuine() && stack == old(stack) && (old(cycles) != [] ==> cycles != [])
        invariant Untouched() <= old(Untouched())
        invariant forall n | n in old(done) :: n in done
        invariant cycles == [] ==> forall j | 0 <= j < i && succ[j] in g :: succ[j] in done
      {
        if succ[i] in g {
          VisitAll(succ[i]);
        }
        i := i + 1;
      }
    }
  }

  lemma TakenLast(stack: seq<Name>)
    requires Unique(stack) && stack != []
    ensures forall n :: n in stack[..|stack| - 1] <==> n in stack && n != stack[|stack| - 1]
  {
    var init, last := stack[..|stack| - 1], stack[|stack| - 1];
    assert stack == init + [last];
  }

  lemma Appended(g: Graph, order: seq<Name>, n: Name)
    ensures
      SuccessorsFirst(g, order) && (forall b | Edge(g, n, b) && b in g :: b in order)
      ==> SuccessorsFirst(g, order + [n])
  {
    var more := order + [n];
    assert forall i | 0 <= i < |order| :: more[..i] == order[..i];
    assert more[..|order|] == order;
  }

  /** Once every name is finished in dependency-first order there is no cycle. */
  lemma FinishedAcyclic(g: Graph, done: seq<Name>)
    requires SuccessorsFirst(g, done) && Unique(done)
    requires forall a, b | Edge(g, a, b) && b in g :: b in done
    ensures Acyclic(g)
  {
    forall w ensures !IsCycle(g, w) {
      if IsCycle(g, w) {
        WalkTail(g, w);
        WalkInit(g, w);
        NoCycleInOrder(g, done, w);
      }
    }
  }

  /** The cycle the compiler reports: there is one to report exactly when the graph has one. */
  method FirstCycle(dependencies: seq<Dependency>, nodes: seq<Name>) returns (cycle: seq<Name>)
    requires forall e | e in dependencies :: e.from in nodes && e.to in nodes && e.to != ""
    ensures cycle == [] <==> Acyclic(EdgeGraph(dependencies))
    ensures cycle != [] ==> IsCycle(EdgeGraph(dependencies), cycle)
  {
    var adjacency := Adjacency(dependencies, nodes);
    EdgeGraphEdges(dependencies);
    MoreEdges(adjacency, EdgeGraph(dependencies));
    MoreEdges(EdgeGraph(dependencies), adjacency);
    cycle := SearchAll(adjacency, nodes);
  }

  /** Starts a search at each name in turn until one finds a cycle. */
  method SearchAll(g: Graph, nodes: seq<Name>) returns (cycle: seq<Name>)
    requires forall n | n in nodes :: n in g
    requires forall a, b | Edge(g, a, b) :: b in nodes && b != ""
    ensures cycle == [] <==> Acyclic(g)
    ensures cycle != [] ==> IsCycle(g, cycle)
  {
    var search := new Search(g);
    var names := StableStrings(nodes);
    StableHas(nodes);
    var i := 0;
    while i < |names|
      invariant 0 <= i <= |names| && search.Inv() && search.stack == [] && search.cycles == []
      invariant forall j | 0 <= j < i :: names[j] in search.done
    {
      assert Has(names, names[i]) && Has(nodes, names[i]);
      cycle := search.Visit(names[i]);
      if cycle != [] {
        return;
      }
      i := i + 1;
    }
    assert forall n | n in nodes && n != "" :: Has(names, n);
    FinishedAcyclic(g, search.done);
    return [];
  }

  /** All the cycles the linter reports. */
  method DependencyCycles(g: Graph) returns (cycles: seq<seq<Name>>)
    ensures cycles == [] <==> Acyclic(g)
    ensures forall i | 0 <= i < |cycles| :: IsCycle(g, cycles[i])
    ensures forall i, j | 0 <= i < j < |cycles| :: cycles[i] != cycles[j]
  {
    var search := new Search(g);
    var nodes := SortedNames(g.Keys);
    var i := 0;
    while i < |nodes|
      invariant 0 <= i <= |nodes| && search.Inv() && search.Genuine() && search.stack == []
      invariant search.cycles == [] ==> forall j | 0 <= j < i :: nodes[j] in search.done
    {
      search.VisitAll(nodes[i]);
      i := i + 1;
    }
    cycles := search.cycles;
    if cycles == [] {
      FinishedAcyclic(g, search.done);
    } else {
      assert IsCycle(g, cycles[0]);
    }
  }
}
