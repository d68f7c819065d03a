/** Directed graphs over names, walks in them, and what it means to have a cycle. */
module Graphs {
  import opened Sorting

  type Name = string

  /** Adjacency lists; a name without a list has no successors. */
  type Graph = map<Name, seq<Name>>

  function Succ(g: Graph, a: Name): seq<Name> {
    if a in g then g[a] else []
  }

  predicate Edge(g: Graph, a: Name, b: Name) {
    b in Succ(g, a)
  }

  ghost predicate LinkAt(g: Graph, w: seq<Name>, i: int) {
    0 <= i < |w| - 1 ==> Edge(g, w[i], w[i + 1])
  }

  ghost predicate IsWalk(g: Graph, w: seq<Name>) {
    w != [] && forall i :: LinkAt(g, w, i)
  }

  lemma WalkTail(g: Graph, w: seq<Name>)
    requires IsWalk(g, w) && |w| > 1
    ensures IsWalk(g, w[1..]) && Edge(g, w[0], w[1])
  {
    assert LinkAt(g, w, 0);
    forall i ensures LinkAt(g, w[1..], i) {
      assert LinkAt(g, w, i + 1);
    }
  }

  lemma WalkInit(g: Graph, w: seq<Name>)
    requires IsWalk(g, w) && |w| > 1
    ensures IsWalk(g, w[..|w| - 1]) && Edge(g, w[|w| - 2], w[|w| - 1])
  {
    var init := w[..|w| - 1];
    assert LinkAt(g, w, |w| - 2);
    forall i ensures LinkAt(g, init, i) {
      assert LinkAt(g, w, i);
    }
  }

  lemma WalkExtend(g: Graph, w: seq<Name>, b: Name)
    requires IsWalk(g, w) && Edge(g, w[|w| - 1], b)
    ensures IsWalk(g, w + [b])
  {
    forall i ensures LinkAt(g, w + [b], i) {
      assert LinkAt(g, w, i);
    }
  }

  lemma WalkDrop(g: Graph, w: seq<Name>, k: nat)
    requires IsWalk(g, w) && k < |w|
    ensures IsWalk(g, w[k..])
  {
    forall i ensures LinkAt(g, w[k..], i) {
      assert LinkAt(g, w, i + k);
    }
  }

  /** A walk of at least one edge from `a` to `b`. */
  ghost predicate Walks(g: Graph, w: seq<Name>, a: Name, b: Name) {
    IsWalk(g, w) && |w| >= 2 && w[0] == a && w[|w| - 1] == b
  }

  /** `b` can be reached from `a` along one or more edges. */
  ghost predicate Reaches(g: Graph, a: Name, b: Name) {
    exists w :: Walks(g, w, a, b)
  }

  /** A closed walk: it comes back to where it started. */
  ghost predicate IsCycle(g: Graph, w: seq<Name>) {
    IsWalk(g, w) && |w| >= 2 && w[0] == w[|w| - 1]
  }

  ghost predicate Acyclic(g: Graph) {
    forall w :: !IsCycle(g, w)
  }

  /** Every name the graph mentions. */
  function Names(g: Graph): set<Name> {
    g.Keys + set a, b | a in g && b in g[a] :: b
  }

  lemma EdgeReaches(g: Graph, a: Name, b: Name)
    requires Edge(g, a, b)
    ensures Reaches(g, a, b)
  {
    assert Walks(g, [a, b], a, b);
  }

  lemma WalkJoin(g: Graph, u: seq<Name>, v: seq<Name>)
    requires IsWalk(g, u) && IsWalk(g, v) && u[|u| - 1] == v[0]
    ensures IsWalk(g, u + v[1..])
  {
    var w := u + v[1..];
    forall i ensures LinkAt(g, w, i) {
      assert LinkAt(g, u, i) && LinkAt(g, v, i - |u| + 1);
    }
  }

  lemma ReachesTransitive(g: Graph, a: Name, b: Name, c: Name)
    requires Reaches(g, a, b) && Reaches(g, b, c)
    ensures Reaches(g, a, c)
  {
    var u :| Walks(g, u, a, b);
    var v :| Walks(g, v, b, c);
    WalkJoin(g, u, v);
    assert Walks(g, u + v[1..], a, c);
  }

  /** Reaching means taking a first edge, and perhaps reaching on from there. */
  lemma ReachesFirst(g: Graph, a: Name, c: Name)
    requires Reaches(g, a, c)
    ensures exists b :: Edge(g, a, b) && (b == c || Reaches(g, b, c))
  {
    var w :| Walks(g, w, a, c);
    WalkTail(g, w);
    if |w| > 2 {
      assert Walks(g, w[1..], w[1], c);
    }
  }

  /** A set closed under successors holds everything its members reach. */
  lemma {:induction false} ClosedHolds(g: Graph, s: set<Name>, w: seq<Name>)
    requires IsWalk(g, w) && w[0] in s && forall a, b | a in s && Edge(g, a, b) :: b in s
    ensures forall i | 0 <= i < |w| :: w[i] in s
  {
    if |w| > 1 {
      WalkInit(g, w);
      ClosedHolds(g, s, w[..|w| - 1]);
    }
  }

  /** What is a walk, a cycle, or reached over some edges is so over more edges. */
  lemma MoreEdges(g: Graph, h: Graph)
    requires forall a, b :: Edge(g, a, b) ==> Edge(h, a, b)
    ensures forall w | IsWalk(g, w) :: IsWalk(h, w)
    ensures forall w | IsCycle(g, w) :: IsCycle(h, w)
    ensures Acyclic(h) ==> Acyclic(g)
    ensures forall a, b | Reaches(g, a, b) :: Reaches(h, a, b)
  {
    forall w | IsWalk(g, w) ensures IsWalk(h, w) {
      forall i ensures LinkAt(h, w, i) {
        assert LinkAt(g, w, i);
      }
    }
    forall a, b | Reaches(g, a, b) ensures Reaches(h, a, b) {
      var w :| Walks(g, w, a, b);
      assert Walks(h, w, a, b);
    }
  }

  // ----- orders -----

  /** Each name comes after all its successors that have a list themselves: a dependency-first order. */
  ghost predicate SuccessorsFirst(g: Graph, order: seq<Name>) {
    forall i, b | 0 <= i < |order| && Edge(g, order[i], b) && b in g :: b in order[..i]
  }

  /** A walk that starts inside a successors-first order moves strictly towards its front. */
  lemma {:induction false} WalkMovesForward(g: Graph, order: seq<Name>, w: seq<Name>, at: nat) returns (end: nat)
    requires SuccessorsFirst(g, order) && IsWalk(g, w)
    requires at < |order| && order[at] == w[0] && w[|w| - 1] in g
    ensures end <= at && order[end] == w[|w| - 1] && (|w| > 1 ==> end < at)
    decreases |w|
  {
    if |w| == 1 {
      end := at;
    } else {
      WalkTail(g, w);
      if |w| > 2 {
        WalkTail(g, w[1..]);
      }
      var next :| 0 <= next < at && order[next] == w[1];
      end := WalkMovesForward(g, order, w[1..], next);
    }
  }

  /** No cycle passes through a name that such an order holds. */
  lemma NoCycleInOrder(g: Graph, order: seq<Name>, w: seq<Name>)
    requires SuccessorsFirst(g, order) && Unique(order) && IsWalk(g, w) && |w| >= 2
    requires w[0] in order && w[|w| - 1] in g
    ensures w[0] != w[|w| - 1]
  {
    var at :| 0 <= at < |order| && order[at] == w[0];
    var end := WalkMovesForward(g, order, w, at);
  }

  ghost predicate StaysIn(g: Graph, s: set<Name>, a: Name) {
    a in s ==> exists b :: b in s && Edge(g, a, b)
  }

  /** Where every member of a non-empty finite set has a successor in it, there is a cycle. */
  lemma {:induction false} CycleByPigeonhole(g: Graph, s: set<Name>, w: seq<Name>) returns (c: seq<Name>)
    requires forall a :: StaysIn(g, s, a)
    requires IsWalk(g, w) && Unique(w) && forall a | a in w :: a in s
    ensures IsCycle(g, c)
    decreases s - set a | a in w
  {
    var last := w[|w| - 1];
    assert last in w && StaysIn(g, s, last);
    var b :| b in s && Edge(g, last, b);
    WalkExtend(g, w, b);
    var more := w + [b];
    if b in w {
      var i :| 0 <= i < |w| && w[i] == b;
      WalkDrop(g, more, i);
      c := more[i..];
    } else {
      SetOfMore(w, b);
      c := CycleByPigeonhole(g, s, more);
    }
  }

  lemma SetOfMore(w: seq<Name>, b: Name)
    ensures (set a | a in w + [b]) == (set a | a in w) + {b}
  {
  }
}
