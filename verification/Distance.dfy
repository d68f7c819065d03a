/** How far apart two names of a graph are. */
module Distance {
  import opened Graphs

  ghost predicate IsWalkOf(g: Graph, w: seq<Name>, a: Name, b: Name, n: nat) {
    IsWalk(g, w) && |w| == n + 1 && w[0] == a && w[n] == b
  }

  /** `b` is `n` edges away from `a` along some walk. */
  ghost predicate InSteps(g: Graph, a: Name, b: Name, n: nat) {
    exists w :: IsWalkOf(g, w, a, b, n)
  }

  /** ... and along no shorter one. */
  ghost predicate AtDistance(g: Graph, a: Name, b: Name, n: nat) {
    InSteps(g, a, b, n) && forall m: nat | m < n :: !InSteps(g, a, b, m)
  }

  lemma NoSteps(g: Graph, a: Name, b: Name)
    ensures InSteps(g, a, b, 0) <==> a == b
    ensures AtDistance(g, a, b, 0) <==> a == b
  {
    assert IsWalkOf(g, [a], a, a, 0);
  }

  lemma OneStepMore(g: Graph, a: Name, c: Name, b: Name, n: nat)
    requires InSteps(g, a, c, n) && Edge(g, c, b)
    ensures InSteps(g, a, b, n + 1)
  {
    var w :| IsWalkOf(g, w, a, c, n);
    WalkExtend(g, w, b);
    assert IsWalkOf(g, w + [b], a, b, n + 1);
  }

  lemma LastStep(g: Graph, a: Name, b: Name, n: nat) returns (c: Name)
    requires InSteps(g, a, b, n + 1)
    ensures InSteps(g, a, c, n) && Edge(g, c, b)
  {
    var w :| IsWalkOf(g, w, a, b, n + 1);
    WalkInit(g, w);
    c := w[n];
    assert IsWalkOf(g, w[..|w| - 1], a, c, n);
  }

  /** Shortest walks have shortest beginnings. */
  lemma Predecessor(g: Graph, a: Name, b: Name, n: nat) returns (c: Name)
    requires AtDistance(g, a, b, n + 1)
    ensures AtDistance(g, a, c, n) && Edge(g, c, b)
  {
    c := LastStep(g, a, b, n);
    forall m: nat | m < n ensures !InSteps(g, a, c, m) {
      if InSteps(g, a, c, m) {
        OneStepMore(g, a, c, b, m);
      }
    }
  }

  lemma DistanceUnique(g: Graph, a: Name, b: Name, m: nat, n: nat)
    requires AtDistance(g, a, b, m) && AtDistance(g, a, b, n)
    ensures m == n
  {
    assert m < n ==> !InSteps(g, a, b, m);
    assert n < m ==> !InSteps(g, a, b, n);
  }

  lemma DistancesDiffer(g: Graph, a: Name, b: Name, m: nat, c: Name, n: nat)
    requires AtDistance(g, a, b, m) && AtDistance(g, a, c, n) && m != n
    ensures b != c
  {
    if b == c {
      DistanceUnique(g, a, b, m, n);
    }
  }

  lemma {:induction false} SomeDistance(g: Graph, a: Name, b: Name, n: nat) returns (m: nat)
    requires InSteps(g, a, b, n)
    ensures m <= n && AtDistance(g, a, b, m)
  {
    if k: nat :| k < n && InSteps(g, a, b, k) {
      m := SomeDistance(g, a, b, k);
    } else {
      m := n;
    }
  }

  // ----- both directions -----

  ghost predicate Opposite(g: Graph, h: Graph) {
    forall a, b :: Edge(g, a, b) <==> Edge(h, b, a)
  }

  function Backwards(w: seq<Name>): (r: seq<Name>)
    ensures |r| == |w| && forall i | 0 <= i < |w| :: r[i] == w[|w| - 1 - i]
  {
    seq(|w|, i requires 0 <= i < |w| => w[|w| - 1 - i])
  }

  lemma StepsBack(g: Graph, h: Graph, a: Name, b: Name, n: nat)
    requires Opposite(g, h) && InSteps(g, a, b, n)
    ensures InSteps(h, b, a, n)
  {
    var w :| IsWalkOf(g, w, a, b, n);
    forall i ensures LinkAt(h, Backwards(w), i) {
      assert LinkAt(g, w, |w| - 2 - i);
    }
    assert IsWalkOf(h, Backwards(w), b, a, n);
  }

  /** Distances are the same seen from either end. */
  lemma DistanceBack(g: Graph, h: Graph, a: Name, b: Name, n: nat)
    requires Opposite(g, h)
    ensures AtDistance(g, a, b, n) <==> AtDistance(h, b, a, n)
  {
    forall m: nat ensures InSteps(g, a, b, m) <==> InSteps(h, b, a, m) {
      if InSteps(g, a, b, m) {
        StepsBack(g, h, a, b, m);
      }
      if InSteps(h, b, a, m) {
        StepsBack(h, g, b, a, m);
      }
    }
  }
}
