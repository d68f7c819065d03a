/**
 The shape of a radix tree, seen from outside the heap.  A node is named by the
 whole key that leads to it, `t[k].kids[l]` names the child of `k` under label `l`,
 `t[k].up` is the length of its parent's key,
 and `t[k].wild` marks a wildcard node.  Every change the tree makes to
 its nodes is one of the five edits below.
 */
module RadixShape {
  import opened Keys

  datatype Links = Links(kids: map<char, Key>, up: nat, wild: bool)

  type Shape = map<Key, Links>

  ghost predicate ChildOk(t: Shape, k: Key, l: char) {
    k in t && l in t[k].kids ==>
      var c := t[k].kids[l];
      c in t && k < c && c[|k|] == l && t[c].up == |k|
  }

  /** A node above `m` has an edge towards `m`, and the child stays above or at `m`. */
  ghost predicate Descends(t: Shape, k: Key, m: Key) {
    k in t && m in t && k < m ==> m[|k|] in t[k].kids && t[k].kids[m[|k|]] <= m
  }

  ghost predicate WF(t: Shape) {
    && [] in t
    && (forall k, l :: ChildOk(t, k, l))
    && (forall k, m :: Descends(t, k, m))
  }

  const EMPTY: Shape := map[[] := Links(map[], 0, false)]

  lemma EmptyWF()
    ensures WF(EMPTY)
  {
  }

  /** Every node but the root hangs under exactly one node. */
  lemma {:induction false} ParentFrom(t: Shape, m: Key, k: Key) returns (p: Key)
    requires WF(t) && m in t && k in t && k < m
    ensures p in t && p < m && m[|p|] in t[p].kids && t[p].kids[m[|p|]] == m
    decreases |m| - |k|
  {
    assert Descends(t, k, m);
    assert ChildOk(t, k, m[|k|]);
    var c := t[k].kids[m[|k|]];
    if c == m {
      p := k;
    } else {
      p := ParentFrom(t, m, c);
    }
  }

  lemma ParentUnique(t: Shape, m: Key, p: Key, q: Key)
    requires WF(t) && m in t
    requires p in t && p < m && m[|p|] in t[p].kids && t[p].kids[m[|p|]] == m
    requires q in t && q < m && m[|q|] in t[q].kids && t[q].kids[m[|q|]] == m
    ensures p == q
  {
    Comparable(p, q, m);
    assert Descends(t, p, q) && Descends(t, q, p);
  }

  lemma OnlyParent(t: Shape, p: Key, m: Key)
    requires WF(t) && m in t
    requires p in t && p < m && m[|p|] in t[p].kids && t[p].kids[m[|p|]] == m
    ensures forall q, l | q in t && l in t[q].kids && t[q].kids[l] == m :: q == p && l == m[|p|]
  {
    forall q, l | q in t && l in t[q].kids && t[q].kids[l] == m ensures q == p && l == m[|p|] {
      assert ChildOk(t, q, l);
      ParentUnique(t, m, p, q);
    }
  }

  // ----- wildcard nodes on the way -----

  /** From `k` the way to `s` leads on to a wildcard node. */
  ghost predicate WildUnder(t: Shape, k: Key, s: Key) {
    k in t && k < s && s[|k|] in t[k].kids && t[k].kids[s[|k|]] in t && t[t[k].kids[s[|k|]]].wild
  }

  /** Going down towards `s`, one meets a wildcard node. */
  ghost predicate MeetsWild(t: Shape, s: Key) {
    exists k :: WildUnder(t, k, s)
  }

  ghost predicate ClearUpTo(t: Shape, s: Key, n: nat) {
    forall k | |k| < n :: !WildUnder(t, k, s)
  }

  lemma ClearStep(t: Shape, k: Key, s: Key)
    requires WF(t) && k in t && k < s && s[|k|] in t[k].kids && ClearUpTo(t, s, |k|)
    requires t[k].kids[s[|k|]] <= s && !WildUnder(t, k, s)
    ensures ClearUpTo(t, s, |t[k].kids[s[|k|]]|)
  {
    var c := t[k].kids[s[|k|]];
    assert ChildOk(t, k, s[|k|]);
    forall m | |m| < |c| ensures !WildUnder(t, m, s) {
      if m < s && |k| <= |m| {
        Comparable(k, m, s);
        assert Descends(t, k, m);
      }
    }
  }

  /** No node lies between `k` and `s`: they are the same, or no edge leads on, or the next node leads elsewhere. */
  lemma ClearEnd(t: Shape, k: Key, s: Key)
    requires WF(t) && k in t && k <= s && ClearUpTo(t, s, |k|) && !WildUnder(t, k, s)
    requires k == s || s[|k|] !in t[k].kids || !(t[k].kids[s[|k|]] <= s)
    ensures !MeetsWild(t, s)
  {
    forall m ensures !WildUnder(t, m, s) {
      if m < s && |k| <= |m| {
        Comparable(k, m, s);
        assert Descends(t, k, m);
        if k < m {
          assert m[|k|] == s[|k|];
        }
      }
    }
  }

  // ----- where a new key is hung -----

  /** `k` is above `s`, and no edge of it leads on towards `s`. */
  ghost predicate Hook(t: Shape, k: Key, s: Key) {
    k in t && k < s && s[|k|] !in t[k].kids
  }

  lemma HookUnique(t: Shape, k: Key, m: Key, s: Key)
    requires WF(t) && Hook(t, k, s) && Hook(t, m, s)
    ensures k == m
  {
    Comparable(k, m, s);
    assert Descends(t, k, m) && Descends(t, m, k);
  }

  /** There is none where the way to `s` goes on, or is at its end. */
  lemma NoHook(t: Shape, k: Key, s: Key)
    requires WF(t) && k in t && k <= s
    requires k == s || (s[|k|] in t[k].kids && !(t[k].kids[s[|k|]] <= s))
    ensures forall m :: !Hook(t, m, s)
  {
    forall m ensures !Hook(t, m, s) {
      if m in t && m < s {
        Comparable(k, m, s);
        assert Descends(t, k, m) && Descends(t, m, k);
      }
    }
  }

  // ----- edits -----

  /** A new node `s` under `p`, where `p` had no edge towards `s`. */
  function AddChild(t: Shape, p: Key, s: Key, isWild: bool): Shape
    requires p in t && p < s
  {
    t[s := Links(map[], |p|, isWild)][p := t[p].(kids := t[p].kids[s[|p|] := s])]
  }

  lemma AddChildWF(t: Shape, p: Key, s: Key, isWild: bool)
    requires WF(t) && p in t && p < s && s[|p|] !in t[p].kids
    ensures s !in t && WF(AddChild(t, p, s, isWild))
  {
    assert Descends(t, p, s);
    var u := AddChild(t, p, s, isWild);
    forall k, l ensures ChildOk(u, k, l) {
      assert ChildOk(t, k, l);
    }
    forall k, m ensures Descends(u, k, m) {
      assert Descends(t, k, m) && Descends(t, k, p) && Descends(t, p, k) && Descends(t, p, m);
      if k <= s {
        Comparable(k, p, s);
      }
    }
  }

  /** A node at `c`, put on the edge from `p` to its child `d`. */
  function Split(t: Shape, p: Key, c: Key, d: Key): Shape
    requires p in t && d in t && p < c < d
  {
    t[c := Links(map[d[|c|] := d], |p|, false)][p := t[p].(kids := t[p].kids[c[|p|] := c])][d := t[d].(up := |c|)]
  }

  lemma SplitWF(t: Shape, p: Key, c: Key, d: Key)
    requires WF(t) && p in t && p < c < d && d in t
    requires d[|p|] in t[p].kids && t[p].kids[d[|p|]] == d
    ensures c !in t && WF(Split(t, p, c, d))
  {
    assert Descends(t, p, c);
    assert c[|p|] == d[|p|];
    OnlyParent(t, p, d);
    var u := Split(t, p, c, d);
    forall k, l ensures ChildOk(u, k, l) {
      assert ChildOk(t, k, l);
    }
    forall k, m ensures Descends(u, k, m) {
      assert Descends(t, k, m) && Descends(t, k, p) && Descends(t, p, k) && Descends(t, p, m);
      if k <= c {
        Comparable(k, p, c);
      }
    }
  }

  /** The childless node `c` is taken from its parent `p`. */
  function Unlink(t: Shape, p: Key, c: Key): Shape
    requires p in t && p < c
  {
    t[p := t[p].(kids := t[p].kids - {c[|p|]})] - {c}
  }

  lemma UnlinkWF(t: Shape, p: Key, c: Key)
    requires WF(t) && p in t && p < c && c in t && t[c].kids == map[]
    requires c[|p|] in t[p].kids && t[p].kids[c[|p|]] == c
    ensures WF(Unlink(t, p, c))
  {
    var u := Unlink(t, p, c);
    OnlyParent(t, p, c);
    forall k, l ensures ChildOk(u, k, l) {
      assert ChildOk(t, k, l);
    }
    forall k, m ensures Descends(u, k, m) {
      assert Descends(t, k, m) && Descends(t, c, m);
      assert c <= m ==> c == m || c < m;
    }
  }

  /** The node `k`, whose only child is `c`, is fused with it and takes its name. */
  function Fuse(t: Shape, p: Key, k: Key, c: Key): Shape
    requires p in t && k in t && c in t && p < k < c
  {
    t[p := t[p].(kids := t[p].kids[k[|p|] := c])][c := Links(t[c].kids, |p|, t[k].wild)] - {k}
  }

  lemma FuseWF(t: Shape, p: Key, k: Key, c: Key)
    requires WF(t) && p in t && k in t && p < k < c
    requires k[|p|] in t[p].kids && t[p].kids[k[|p|]] == k
    requires t[k].kids == map[c[|k|] := c] && c in t
    ensures WF(Fuse(t, p, k, c))
  {
    var u := Fuse(t, p, k, c);
    OnlyParent(t, p, k);
    OnlyParent(t, k, c);
    forall q, l ensures ChildOk(u, q, l) {
      assert ChildOk(t, q, l);
    }
    forall q, m ensures Descends(u, q, m) {
      assert Descends(t, q, m) && Descends(t, k, m);
      assert k <= m ==> k == m || k < m;
    }
  }

  /** Everything strictly under `c` is cut off; `c` itself stays. */
  function Prune(t: Shape, c: Key): Shape
    requires c in t
  {
    (map k | k in t && !(c < k) :: t[k])[c := t[c].(kids := map[])]
  }

  lemma PruneWF(t: Shape, c: Key)
    requires WF(t) && c in t
    ensures WF(Prune(t, c))
  {
    var u := Prune(t, c);
    forall k, l ensures ChildOk(u, k, l) {
      assert ChildOk(t, k, l) && Descends(t, k, c);
      if k in t && l in t[k].kids && c <= t[k].kids[l] {
        Comparable(c, k, t[k].kids[l]);
      }
    }
    forall k, m ensures Descends(u, k, m) {
      assert Descends(t, k, m);
    }
  }

  /** The nodes at or under `k`: a child's set is strictly smaller, so every walk ends. */
  ghost function Under(t: Shape, k: Key): set<Key> {
    set m | m in t && k <= m
  }

  lemma UnderShrinks(t: Shape, k: Key, l: char)
    requires WF(t) && k in t && l in t[k].kids
    ensures Under(t, t[k].kids[l]) < Under(t, k)
  {
    assert ChildOk(t, k, l);
    assert k in Under(t, k) && k !in Under(t, t[k].kids[l]);
  }
}
