/** The facts an assembly plan is made of that its graph algorithms work on. */
module PlanFacts {
  import opened Keys
  import opened Sorting
  import opened Strings

  datatype Evidence = Evidence(ownership: string, source: string, ref: string)

  /** `from` needs `to`. */
  datatype Dependency = Dependency(from: Key, to: Key, evidence: Evidence)

  predicate DependencyBefore(x: Dependency, y: Dependency) {
    if x.from != y.from then Before(x.from, y.from) else Before(x.to, y.to)
  }

  lemma DependenciesCompare()
    ensures Comparison(DependencyBefore)
    ensures forall x, y | !DependencyBefore(x, y) && !DependencyBefore(y, x) :: x.from == y.from && x.to == y.to
  {
    NamesCompare();
  }

  function NormalizeDependencies(edges: seq<Dependency>): (r: seq<Dependency>) {
    SortBy(DependencyBefore, edges)
  }

  predicate Joins(e: Dependency, a: Key, b: Key) {
    e.from == a && e.to == b
  }

  ghost predicate Depends(edges: seq<Dependency>, a: Key, b: Key) {
    exists e | e in edges :: Joins(e, a, b)
  }

  lemma OneMore(edges: seq<Dependency>, i: nat)
    requires i < |edges|
    ensures forall a, b ::
      Depends(edges[..i + 1], a, b) <==> Depends(edges[..i], a, b) || Joins(edges[i], a, b)
  {
    assert edges[..i + 1] == edges[..i] + [edges[i]];
    forall a, b | Joins(edges[i], a, b) ensures Depends(edges[..i + 1], a, b) {
      assert edges[i] in edges[..i + 1];
    }
  }

  lemma LastEdge(edges: seq<Dependency>, a: Key, b: Key)
    requires edges != []
    ensures Depends(edges, a, b) <==> Depends(edges[..|edges| - 1], a, b) || Joins(edges[|edges| - 1], a, b)
  {
    var init, last := edges[..|edges| - 1], edges[|edges| - 1];
    assert edges == init + [last] && last in edges;
    if Depends(init, a, b) {
      var e :| e in init && Joins(e, a, b);
      assert e in edges;
    }
  }

  /** What sorting keeps. */
  lemma NormalizeKeeps(edges: seq<Dependency>)
    ensures InOrder(DependencyBefore, NormalizeDependencies(edges))
    ensures multiset(NormalizeDependencies(edges)) == multiset(edges)
    ensures forall e :: e in NormalizeDependencies(edges) <==> e in edges
  {
    DependenciesCompare();
    SortBySorts(DependencyBefore, edges);
    var r := NormalizeDependencies(edges);
    forall e ensures e in r <==> e in edges {
      assert e in multiset(r) <==> e in multiset(edges);
    }
  }

  /** What `id` depends on, once per edge. */
  function Needs(edges: seq<Dependency>, id: Key): (r: seq<Key>)
    ensures forall b :: b in r <==> Depends(edges, id, b)
  {
    if edges == [] then []
    else
      var init, e := edges[..|edges| - 1], edges[|edges| - 1];
      var r := Needs(init, id) + if e.from == id then [e.to] else [];
      NeedsLast(edges, id, Needs(init, id), r);
      r
  }

  lemma NeedsLast(edges: seq<Dependency>, id: Key, before: seq<Key>, r: seq<Key>)
    requires edges != [] && forall b :: b in before <==> Depends(edges[..|edges| - 1], id, b)
    requires var e := edges[|edges| - 1]; r == before + if e.from == id then [e.to] else []
    ensures forall b :: b in r <==> Depends(edges, id, b)
  {
    forall b ensures b in r <==> Depends(edges, id, b) {
      LastEdge(edges, id, b);
    }
  }
}
