/** The transitive closure of the application dependencies, and the check for a stale one. */
module Closure {
  import opened Sorting
  import opened Strings
  import opened Graphs
  import opened PlanFacts
  import opened CycleSearch

  /** One search: the names visited so far from a fixed start. */
  class Explorer {
    const g: Graph
    const start: Name
    var visited: set<Name>

    constructor (g: Graph, start: Name)
      ensures this.g == g && this.start == start && visited == {}
    {
      this.g, this.start, visited := g, start, {};
    }

    /** Everything visited is reached from the start. */
    ghost predicate Sound()
      reads this
    {
      forall n | n in visited :: Reaches(g, start, n)
    }

    /** The successors of `a` are visited. */
    ghost predicate Expanded(a: Name)
      reads this
    {
      forall b | Edge(g, a, b) :: b in visited
    }

    /** Visits what `current` reaches; whatever is new has been expanded. */
    method Visit(current: Name)
      requires Sound() && (current == start || current in visited)
      modifies this
      ensures Sound() && old(visited) <= visited && Expanded(current)
      ensures forall a | a in visited && a !in old(visited) :: Expanded(a)
      decreases Names(g) - visited
    {
      var succ := Succ(g, current);
      for i := 0 to |succ|
        invariant Sound() && old(visited) <= visited
        invariant forall j | 0 <= j < i :: succ[j] in visited
        invariant forall a | a in visited && a !in old(visited) :: Expanded(a)
      {
        var next := succ[i];
        if next !in visited {
          Step(current, next);
          visited := visited + {next};
          Visit(next);
        }
      }
    }

    lemma Step(current: Name, next: Name)
      requires Sound() && (current == start || current in visited) && Edge(g, current, next)
      ensures Reaches(g, start, next) && next in Names(g)
    {
      EdgeReaches(g, current, next);
      if current != start {
        ReachesTransitive(g, start, current, next);
      }
    }
  }

  /** The names reached from `start`. */
  method Reached(g: Graph, start: Name) returns (visited: set<Name>)
    ensures forall n :: n in visited <==> Reaches(g, start, n)
  {
    var explorer := new Explorer(g, start);
    explorer.Visit(start);
    visited := explorer.visited;
    forall n | Reaches(g, start, n) ensures n in visited {
      var w :| Walks(g, w, start, n);
      WalkTail(g, w);
      assert explorer.Expanded(start);
      assert forall a | a in visited :: explorer.Expanded(a);
      ClosedHolds(g, visited, w[1..]);
      assert n == w[1..][|w| - 2];
    }
  }

  function Derived(source: string, a: Name, b: Name): Dependency {
    Dependency(a, b, Evidence("derived", source, a + "->" + b))
  }

  /** `r` lists, once each, the pairs of different names of which the first reaches the second. */
  ghost predicate Closes(g: Graph, source: string, r: seq<Dependency>) {
    && Unique(r)
    && (forall e :: e in r <==> e == Derived(source, e.from, e.to) && e.from != e.to && Reaches(g, e.from, e.to))
  }

  /** Sorted, a closure is determined by the graph: there is one canonical list. */
  lemma ClosureCanonical(g: Graph, source: string, r: seq<Dependency>, s: seq<Dependency>)
    requires Closes(g, source, r) && Closes(g, source, s)
    ensures NormalizeDependencies(r) == NormalizeDependencies(s)
  {
    SameElements(r, s);
    DependenciesCompare();
    SortForgetsOrder(DependencyBefore, r, s);
  }

  method DependencyClosure(direct: seq<Dependency>, source: string) returns (r: seq<Dependency>)
    ensures Closes(EdgeGraph(direct), source, r) && r == NormalizeDependencies(r)
  {
    var edges := NormalizeDependencies(direct);
    NormalizeKeeps(direct);
    assert forall a, b :: Depends(edges, a, b) <==> Depends(direct, a, b);
    var adjacency := Adjacency(edges, []);
    var ids := SortedNames(Ends(edges));
    var result: seq<Dependency> := [];
    for i := 0 to |ids|
      invariant Lists(adjacency, source, ids[..i], result)
    {
      var visited := Reached(adjacency, ids[i]);
      result := AppendAll(adjacency, source, ids, i, visited, result);
    }
    assert ids[..|ids|] == ids;
    ListsAll(adjacency, source, ids, result);
    NormalizeKeeps(result);
    r := NormalizeDependencies(result);
    UniqueInMultiset(result, r);
    ClosureCanonical(adjacency, source, result, r);
    EdgeGraphEdges(direct);
    SameClosure(adjacency, EdgeGraph(direct), source, r);
  }

  /** Graphs with the same edges have the same closure. */
  lemma SameClosure(g: Graph, h: Graph, source: string, r: seq<Dependency>)
    requires forall a, b :: Edge(g, a, b) <==> Edge(h, a, b)
    ensures Closes(g, source, r) <==> Closes(h, source, r)
  {
    MoreEdges(g, h);
    MoreEdges(h, g);
  }

  /** The entries of the closure that start at one of `from`. */
  ghost predicate Lists(g: Graph, source: string, from: seq<Name>, r: seq<Dependency>) {
    && Unique(r)
    && (forall e :: e in r <==>
          e == Derived(source, e.from, e.to) && e.from in from && e.from != e.to && Reaches(g, e.from, e.to))
  }

  lemma ListsAll(g: Graph, source: string, from: seq<Name>, r: seq<Dependency>)
    requires Lists(g, source, from, r) && forall a, b | Edge(g, a, b) :: a in from
    ensures Closes(g, source, r)
  {
    forall a, b | Reaches(g, a, b) ensures a in from {
      ReachesFirst(g, a, b);
    }
  }

  method AppendAll(ghost g: Graph, source: string, ids: seq<Name>, i: nat, visited: set<Name>, start: seq<Dependency>)
    returns (result: seq<Dependency>)
    requires i < |ids| && Unique(ids) && Lists(g, source, ids[..i], start)
    requires forall n :: n in visited <==> Reaches(g, ids[i], n)
    ensures Lists(g, source, ids[..i + 1], result)
  {
    var from, rest := ids[i], visited;
    result := start;
    while rest != {}
      invariant rest <= visited
      invariant Unique(result)
      invariant forall e :: e in result <==>
        e in start || (e == Derived(source, from, e.to) && e.to in visited && e.to !in rest && e.to != from)
    {
      var to :| to in rest;
      rest := rest - {to};
      if to != from {
        result := result + [Derived(source, from, to)];
      }
    }
    assert ids[..i + 1] == ids[..i] + [from];
  }

  /** The check of the validator, that a plan carries the closure of its own dependencies. */
  method ClosureIsCurrent(direct: seq<Dependency>, closure: seq<Dependency>, source: string) returns (ok: bool)
    ensures ok <==> Closes(EdgeGraph(direct), source, closure)
  {
    var want := DependencyClosure(direct, source);
    ok := want == NormalizeDependencies(closure);
    NormalizeKeeps(closure);
    if Closes(EdgeGraph(direct), source, closure) {
      ClosureCanonical(EdgeGraph(direct), source, closure, want);
    }
    if ok {
      UniqueInMultiset(want, closure);
    }
  }
}
