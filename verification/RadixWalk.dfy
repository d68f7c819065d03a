/** What a walk over part of the tree shows its callback, and how such walks compose. */
module RadixWalk {
  import opened Keys
  import opened RadixNode

  /**
   A walk callback.  The source's callback may keep state, so it is a function of everything
   it has been shown so far, the current entry last; true asks to stop.
   */
  type WalkFn = seq<LeafNode> -> bool

  ghost function KeysUnder(c: map<Key, Handle>, p: Key): set<Key> {
    set m | m in c && p <= m
  }

  ghost function KeysAbove(c: map<Key, Handle>, path: Key): set<Key> {
    set m | m in c && m <= path
  }

  /** The map without the keys under `p`. */
  ghost function Without(c: map<Key, Handle>, p: Key): map<Key, Handle> {
    map m | m in c && !(p <= m) :: c[m]
  }

  lemma NoneUnder(c: map<Key, Handle>, p: Key)
    requires KeysUnder(c, p) == {}
    ensures Without(c, p) == c
  {
    forall m | m in c ensures !(p <= m) {
      assert m !in KeysUnder(c, p);
    }
  }

  lemma SameUnder(c: map<Key, Handle>, p: Key, q: Key)
    requires KeysUnder(c, p) == KeysUnder(c, q)
    ensures Without(c, p) == Without(c, q)
  {
    forall m | m in c ensures p <= m <==> q <= m {
      assert m in KeysUnder(c, p) <==> m in KeysUnder(c, q);
    }
  }

  /** Cutting a prefix leaves exactly the rest. */
  lemma WithoutCount(c: map<Key, Handle>, p: Key)
    ensures |Without(c, p)| == |c| - |KeysUnder(c, p)|
  {
    var rest := Without(c, p);
    assert rest.Keys == c.Keys - KeysUnder(c, p);
    assert KeysUnder(c, p) <= c.Keys;
    assert |rest| == |rest.Keys| && |c| == |c.Keys|;
  }

  ghost predicate Ascending(part: seq<LeafNode>) {
    forall i, j | 0 <= i < j < |part| :: Less(part[i].key, part[j].key)
  }

  /** `m` was shown, or the walk stopped before it. */
  ghost predicate ShownOrPast(c: map<Key, Handle>, part: seq<LeafNode>, stopped: bool, m: Key) {
    m in c ==> LeafNode(m, c[m]) in part || (stopped && part != [] && Less(part[|part| - 1].key, m))
  }

  /** The callback let the walk go on after each of the entries before `n`. */
  ghost predicate WentOn(fn: WalkFn, acc: seq<LeafNode>, part: seq<LeafNode>, n: int) {
    forall i | 0 < i <= n && i <= |part| :: !fn(acc + part[..i])
  }

  /**
   After `acc`, the callback was shown `part`: entries of `c` with keys in `dom`, in
   increasing order, every one of them unless the callback stopped the walk, and then
   every one up to the entry it stopped at.
   */
  ghost predicate Visits(c: map<Key, Handle>, dom: set<Key>, fn: WalkFn,
                         acc: seq<LeafNode>, part: seq<LeafNode>, stopped: bool)
  {
    && Ascending(part)
    && (forall e | e in part :: e.key in dom && e.key in c && c[e.key] == e.val)
    && (forall m | m in dom :: ShownOrPast(c, part, stopped, m))
    && (stopped ==> part != [] && fn(acc + part))
    && WentOn(fn, acc, part, if stopped then |part| - 1 else |part|)
  }

  lemma VisitsOwn(c: map<Key, Handle>, e: LeafNode, fn: WalkFn, acc: seq<LeafNode>)
    requires e.key in c && c[e.key] == e.val
    ensures Visits(c, {e.key}, fn, acc, [e], fn(acc + [e]))
  {
    assert [e][..1] == [e];
  }

  lemma VisitsAppend(c: map<Key, Handle>, d1: set<Key>, d2: set<Key>, fn: WalkFn,
                     acc: seq<LeafNode>, p1: seq<LeafNode>, p2: seq<LeafNode>, stopped: bool)
    requires Visits(c, d1, fn, acc, p1, false) && Visits(c, d2, fn, acc + p1, p2, stopped)
    requires forall a, b | a in d1 && b in d2 :: Less(a, b)
    ensures Visits(c, d1 + d2, fn, acc, p1 + p2, stopped)
  {
    var part := p1 + p2;
    assert acc + p1 + p2 == acc + part;
    forall i, j | 0 <= i < j < |part| ensures Less(part[i].key, part[j].key) {
      assert i < |p1| ==> p1[i] in p1;
      assert |p1| <= j ==> p2[j - |p1|] in p2;
    }
    forall m | m in d1 + d2 ensures ShownOrPast(c, part, stopped, m) {
      if m in d1 {
        assert ShownOrPast(c, p1, false, m);
      } else {
        assert ShownOrPast(c, p2, stopped, m);
      }
    }
    forall i | 0 < i <= (if stopped then |part| - 1 else |part|) ensures !fn(acc + part[..i]) {
      if i <= |p1| {
        assert part[..i] == p1[..i];
      } else {
        assert acc + part[..i] == acc + p1 + p2[..i - |p1|];
      }
    }
  }

  /** A walk that was stopped at the first part never sees the rest, and need not. */
  lemma VisitsCut(c: map<Key, Handle>, d1: set<Key>, d2: set<Key>, fn: WalkFn,
                  acc: seq<LeafNode>, part: seq<LeafNode>)
    requires Visits(c, d1, fn, acc, part, true)
    requires forall a, b | a in d1 && b in d2 :: Less(a, b)
    ensures Visits(c, d1 + d2, fn, acc, part, true)
  {
    assert part[|part| - 1] in part;
    forall m | m in d1 + d2 ensures ShownOrPast(c, part, true, m) {
      if m in d1 {
        assert ShownOrPast(c, part, true, m);
      }
    }
  }

  /** The entries shown are told apart by their keys, so a finished walk shows as many as there are keys. */
  lemma {:induction false} AscendingCount(part: seq<LeafNode>)
    requires Ascending(part)
    ensures |set e | e in part :: e.key| == |part|
  {
    if part != [] {
      var init, last := part[..|part| - 1], part[|part| - 1];
      AscendingCount(init);
      var ks := set e | e in init :: e.key;
      assert part == init + [last];
      assert (set e | e in part :: e.key) == ks + {last.key};
      forall e | e in init ensures e.key != last.key {
        LessTrichotomy(e.key, e.key);
      }
    }
  }

  lemma FinishedCount(c: map<Key, Handle>, dom: set<Key>, fn: WalkFn, acc: seq<LeafNode>, part: seq<LeafNode>)
    requires dom <= c.Keys && Visits(c, dom, fn, acc, part, false)
    ensures |part| == |dom|
  {
    AscendingCount(part);
    var ks := set e | e in part :: e.key;
    forall m | m in dom ensures m in ks {
      assert ShownOrPast(c, part, false, m);
    }
    assert ks == dom;
  }

  /** Two finished walks over the same keys show the same entries in the same order, whatever their callbacks. */
  lemma FinishedDetermined(c: map<Key, Handle>, dom: set<Key>, fn: WalkFn, gn: WalkFn, p: seq<LeafNode>, q: seq<LeafNode>)
    requires dom <= c.Keys && Visits(c, dom, fn, [], p, false) && Visits(c, dom, gn, [], q, false)
    ensures p == q
  {
    forall e ensures e in p <==> e in q {
      if e in p {
        assert ShownOrPast(c, q, false, e.key);
      }
      if e in q {
        assert ShownOrPast(c, p, false, e.key);
      }
    }
    SameOrder(p, q);
  }

  /** Two walks that agree up to `k` agree at `k`: neither has a smaller entry there. */
  lemma NotSmaller(c: map<Key, Handle>, dom: set<Key>, fn: WalkFn, acc: seq<LeafNode>, p: seq<LeafNode>, q: seq<LeafNode>, s: bool, k: nat)
    requires k < |p| && k < |q| && p[..k] == q[..k] && Ascending(p) && Visits(c, dom, fn, acc, q, s)
    requires p[k].key in dom && p[k].key in c
    ensures !Less(p[k].key, q[k].key)
  {
    var m, last := p[k].key, q[|q| - 1].key;
    forall i | 0 <= i < k ensures q[i].key != m {
      assert q[i] == q[..k][i] == p[..k][i] == p[i];
      LessTrichotomy(q[i].key, m);
    }
    assert ShownOrPast(c, q, s, m);
    LessTrichotomy(q[k].key, m);
    if Less(last, m) {
      if |q| - 1 > k {
        LessTransitive(q[k].key, last, m);
      }
    }
  }

  lemma {:induction false} SamePrefix(
      c: map<Key, Handle>, dom: set<Key>, fn: WalkFn, acc: seq<LeafNode>, p: seq<LeafNode>, q: seq<LeafNode>, sp: bool, sq: bool, k: nat)
    requires Visits(c, dom, fn, acc, p, sp) && Visits(c, dom, fn, acc, q, sq) && k <= |p| && k <= |q|
    ensures p[..k] == q[..k]
  {
    if k > 0 {
      SamePrefix(c, dom, fn, acc, p, q, sp, sq, k - 1);
      assert p[k - 1] in p && q[k - 1] in q;
      NotSmaller(c, dom, fn, acc, p, q, sq, k - 1);
      NotSmaller(c, dom, fn, acc, q, p, sp, k - 1);
      LessTrichotomy(p[k - 1].key, q[k - 1].key);
      assert p[..k] == p[..k - 1] + [p[k - 1]] && q[..k] == q[..k - 1] + [q[k - 1]];
    }
  }

  /** Where a walk goes on behind another one, the other one was stopped. */
  lemma ShorterWasStopped(c: map<Key, Handle>, dom: set<Key>, p: seq<LeafNode>, q: seq<LeafNode>, sp: bool)
    requires Ascending(q) && forall e | e in q :: e.key in dom && e.key in c
    requires forall m | m in dom :: ShownOrPast(c, p, sp, m)
    ensures |p| < |q| && p == q[..|p|] ==> sp
  {
    if |p| < |q| && p == q[..|p|] {
      var e := q[|p|];
      assert e in q && ShownOrPast(c, p, sp, e.key);
      forall i | 0 <= i < |p| ensures p[i].key != e.key {
        assert p[i] == q[i];
        LessTrichotomy(p[i].key, e.key);
      }
    }
  }

  /** ... and the callback did not ask for it. */
  lemma LongerWentOn(fn: WalkFn, acc: seq<LeafNode>, p: seq<LeafNode>, q: seq<LeafNode>, n: int)
    requires WentOn(fn, acc, q, n) && p != []
    ensures |p| <= n && |p| <= |q| && p == q[..|p|] ==> !fn(acc + p)
  {
  }

  lemma NotLonger(c: map<Key, Handle>, dom: set<Key>, fn: WalkFn, acc: seq<LeafNode>, p: seq<LeafNode>, q: seq<LeafNode>, sp: bool, sq: bool)
    requires Visits(c, dom, fn, acc, p, sp) && Visits(c, dom, fn, acc, q, sq)
    ensures |q| <= |p|
  {
    SamePrefix(c, dom, fn, acc, p, q, sp, sq, if |p| <= |q| then |p| else |q|);
    assert p[..|p|] == p;
    ShorterWasStopped(c, dom, p, q, sp);
    if p != [] {
      LongerWentOn(fn, acc, p, q, if sq then |q| - 1 else |q|);
    }
  }

  /** Nothing is left open: with one callback, two walks over the same keys show the same and end alike, stopped or not. */
  lemma WalkDetermined(
      c: map<Key, Handle>, dom: set<Key>, fn: WalkFn, acc: seq<LeafNode>, p: seq<LeafNode>, q: seq<LeafNode>, sp: bool, sq: bool)
    requires Visits(c, dom, fn, acc, p, sp) && Visits(c, dom, fn, acc, q, sq)
    ensures p == q && sp == sq
  {
    NotLonger(c, dom, fn, acc, p, q, sp, sq);
    NotLonger(c, dom, fn, acc, q, p, sq, sp);
    SamePrefix(c, dom, fn, acc, p, q, sp, sq, |p|);
    assert p[..|p|] == p && q[..|q|] == q;
    if p != [] {
      LongerWentOn(fn, acc, p, q, if sq then |q| - 1 else |q|);
      LongerWentOn(fn, acc, q, p, if sp then |p| - 1 else |p|);
    }
  }

  lemma {:induction false} SameOrder(p: seq<LeafNode>, q: seq<LeafNode>)
    requires Ascending(p) && Ascending(q)
    requires forall e :: e in p <==> e in q
    ensures p == q
  {
    assert |q| > 0 ==> q[0] in q;
    if p != [] {
      assert p[0] in p && p[0] in q;
      var j :| 0 <= j < |q| && q[j] == p[0];
      assert q[0] in q && q[0] in p;
      var i :| 0 <= i < |p| && p[i] == q[0];
      LessTrichotomy(p[0].key, q[0].key);
      LessTrichotomy(p[0].key, p[0].key);
      assert i == 0 && j == 0;
      var p', q' := p[1..], q[1..];
      forall e ensures e in p' <==> e in q' {
        TailMember(p, e);
        TailMember(q, e);
      }
      SameOrder(p', q');
    }
  }

  lemma TailMember(p: seq<LeafNode>, e: LeafNode)
    requires Ascending(p) && p != []
    ensures e in p[1..] <==> e in p && e != p[0]
  {
    LessTrichotomy(p[0].key, p[0].key);
    assert p == [p[0]] + p[1..];
  }

  /** An entry comes before everything under its key's proper extensions, and children come in label order. */
  lemma SiblingsOrdered(k: Key, a: Key, b: Key)
    requires k < a && k < b && a[|k|] < b[|k|]
    ensures Less(a, b)
  {
    assert DivergesAt(a, b, |k|);
  }

  /** Everything that starts with `k` comes before `m`. */
  ghost predicate Precedes(k: Key, m: Key) {
    exists i :: DivergesAt(k, m, i)
  }

  lemma PrecedesExtends(k: Key, m: Key)
    ensures Precedes(k, m) ==> Less(k, m) && (forall x | k <= x :: Precedes(x, m)) && (forall y | m <= y :: Precedes(k, y))
  {
    forall x, i | DivergesAt(k, m, i) && k <= x ensures Precedes(x, m) {
      DivergenceExtends(k, m, x, m, i);
    }
    forall y, i | DivergesAt(k, m, i) && m <= y ensures Precedes(k, y) {
      DivergenceExtends(k, m, k, y, i);
    }
  }

  lemma PrecedesSibling(k: Key, a: Key, b: Key)
    requires k < a && k < b && a[|k|] < b[|k|]
    ensures Precedes(a, b)
  {
    assert DivergesAt(a, b, |k|);
  }
}
