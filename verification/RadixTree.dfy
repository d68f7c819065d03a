/** The radix tree of route handlers: its methods against the plain map `Contents()`. */
module RadixTree {
  import opened Options
  import opened Keys
  import opened RadixShape
  import opened RadixNode
  import opened RadixLinks
  import opened RadixWalk

  /** Position of the first `mark` in `s`, or -1. */
  function FirstMark(s: Key, mark: char): (idx: int)
    ensures -1 <= idx < |s|
    ensures idx == -1 <==> mark !in s
    ensures idx >= 0 ==> s[idx] == mark && mark !in s[..idx]
  {
    if s == [] then -1
    else if s[0] == mark then 0
    else
      var rest := FirstMark(s[1..], mark);
      if rest == -1 then -1 else 1 + rest
  }

  /** Length of the shared prefix of two strings. */
  method LongestCommonPrefix(k1: Key, k2: Key) returns (i: nat)
    ensures IsCommonPrefix(k1, k2, i)
    ensures i <= |k1| && i <= |k2| && k1[..i] == k2[..i]
  {
    var max := if |k2| < |k1| then |k2| else |k1|;
    i := 0;
    while i < max
      invariant 0 <= i <= max && k1[..i] == k2[..i]
      invariant AgreeUpTo(k1, k2, i)
    {
      if k1[i] != k2[i] {
        break;
      }
      i := i + 1;
    }
  }

  datatype Param = Param(val: Key, key: Key)

  /** What a lookup ends with; the source dereferences and slices without checks at a wildcard node. */
  datatype Lookup = Found(val: Handle, param: Option<Param>) | Missing | Panics

  lemma RemoveOne(m: map<Key, Handle>, s: Key)
    requires s in m
    ensures |m - {s}| == |m| - 1
  {
    var less := m - {s};
    assert less.Keys == m.Keys - {s};
    assert |less| == |less.Keys|;
  }

  class RouterHandleTree {
    var root: Node
    var size: int

    ghost var view: View

    ghost predicate Linked()
      reads `root, `view, view.repr
    {
      LinkedAs(root, view)
    }

    ghost function Contents(): map<Key, Handle>
      reads `view
    {
      view.contents
    }

    ghost predicate Valid()
      reads this, view.repr
    {
      Linked() && size == |Contents()|
    }

    /** Histories without DeletePrefix keep the tree compressed. */
    ghost predicate Compact()
      reads `view
    {
      forall k :: Lean(k, view)
    }

    /** No wildcard node: every key was stored without a `*`. */
    ghost predicate NoWild()
      reads `view
    {
      forall k :: Tame(k, view)
    }

    constructor ()
      ensures Valid() && Compact() && NoWild() && Contents() == map[] && view.shape == EMPTY
      ensures fresh(view.repr)
    {
      var node := new Node([], None, false, [], 0, []);
      root, size := node, 0;
      view := View(EMPTY, map[[] := node], map[], {node});
      new;
      EmptyWF();
    }

    /** The child a node's edge leads to, and how its key continues. */
    lemma ChildOf(k: Key, e: Edge)
      requires Linked() && k in view.at && e in view.at[k].edges
      ensures ChildOk(view.shape, k, e.tag) && e.tag in view.shape[k].kids
      ensures var c := view.shape[k].kids[e.tag];
              c in view.at && e.node == view.at[c] && k < c && c == k + e.node.prefix
              && e.node.prefix != [] && e.node.prefix[0] == e.tag
    {
      assert Here(k, view);
      assert ChildOk(view.shape, k, e.tag);
      var c := view.shape[k].kids[e.tag];
      assert Here(c, view);
      SplitOff(k, c);
    }

    /** Distinct keys name distinct nodes. */
    lemma OneKey(k: Key, m: Key)
      requires Linked() && k in view.at && m in view.at && view.at[k] == view.at[m]
      ensures k == m
    {
      assert Here(k, view) && Here(m, view);
    }

    // ----- the edits: each comes as a change of the heap, then of the view -----

    method HangHeap(parent: Node, ghost p: Key, s: Key, search: Key, v: Handle, isWild: bool, key: Key, idx: int)
      returns (node: Node)
      requires Linked() && p in view.at && view.at[p] == parent
      requires s == p + search && search != [] && !HasLabel(parent.edges, search[0])
      modifies parent`edges
      ensures fresh(node) && p < s && s[|p|] !in view.shape[p].kids && s !in view.at
      ensures node.idx == idx && node.key == key
      ensures forall k :: k != p ==> Here(k, view)
      ensures Here(p, Attached(view, p, s, node, v, isWild)) && Here(s, Attached(view, p, s, node, v, isWild))
    {
      assert Here(p, view);
      EdgesOkLabel(parent.edges, view.shape[p].kids, view.at, search[0]);
      Extend(p, search);
      AddChildWF(view.shape, p, s, isWild);
      node := new Node(search, Some(LeafNode(s, v)), isWild, key, idx, s);
      parent.AddEdge(Edge(search[0], node));
      forall k ensures k != p ==> Here(k, view) {
        assert old(Here(k, view));
        assert k in view.at && k != p ==> view.at[k] != parent;
      }
      AttachTouched(view, p, s, node, v, isWild, old(parent.edges));
    }

    method Hang(parent: Node, ghost p: Key, s: Key, search: Key, v: Handle, isWild: bool, key: Key, idx: int)
      returns (node: Node)
      requires Linked() && p in view.at && view.at[p] == parent
      requires s == p + search && search != [] && !HasLabel(parent.edges, search[0])
      modifies parent`edges
      ensures fresh(node) && p < s && s[|p|] !in view.shape[p].kids && s !in view.at
      ensures node.idx == idx && node.key == key
      ensures LinkedAs(root, Attached(view, p, s, node, v, isWild))
    {
      node := HangHeap(parent, p, s, search, v, isWild, key, idx);
      AttachLinked(root, view, p, s, node, v, isWild);
    }

    /** Hangs a new leaf node under `parent`, which has no edge towards it. */
    method Attach(parent: Node, ghost p: Key, s: Key, search: Key, v: Handle, isWild: bool, key: Key, idx: int)
      requires Linked() && p in view.at && view.at[p] == parent
      requires s == p + search && search != [] && !HasLabel(parent.edges, search[0])
      modifies this`size, this`view, parent`edges
      ensures Linked() && size == old(size) + 1
      ensures Contents() == old(Contents())[s := v] && s !in old(Contents())
      ensures fresh(view.repr - old(view.repr))
      ensures forall k | old(Lean(k, view)) || (k == p && old(view.shape[p].kids) != map[]) :: Lean(k, view)
      ensures forall k | old(Tame(k, view)) && (k == s ==> !isWild) :: Tame(k, view)
      ensures old(Hook(view.shape, p, s)) && view.shape == AddChild(old(view.shape), p, s, isWild)
      ensures s in view.at && view.at[s].idx == idx && view.at[s].key == key
    {
      var node := Hang(parent, p, s, search, v, isWild, key, idx);
      size := size + 1;
      view := Attached(view, p, s, node, v, isWild);
      AttachLean(old(view), p, s, node, v, isWild);
    }

    method CutHeap(parent: Node, ghost p: Key, n: Node, ghost d: Key, head: Key, ghost c: Key) returns (child: Node)
      requires Linked() && p in view.at && view.at[p] == parent && d in view.at && view.at[d] == n
      requires p < d && d[|p|] in view.shape[p].kids && view.shape[p].kids[d[|p|]] == d
      requires head != [] && head < n.prefix && c == p + head
      modifies parent`edges, n`prefix
      ensures p < c < d && c !in view.at && fresh(child)
      ensures forall k :: k != p && k != d ==> Here(k, view)
      ensures Here(p, Divided(view, p, c, d, child))
      ensures Here(c, Divided(view, p, c, d, child))
      ensures Here(d, Divided(view, p, c, d, child))
      ensures child.leaf == None && child.edges == [Edge(old(n.prefix)[|head|], n)] && !child.isWild
    {
      SplitWhere(p, d, head, c);
      SplitWF(view.shape, p, c, d);
      child := parent.Cut(n, head, c);
      forall k ensures k != p && k != d ==> Here(k, view) {
        assert old(Here(k, view));
        assert k in view.at && k != p && k != d ==> view.at[k] != parent && view.at[k] != n;
      }
      SplitAbove(view, p, c, d, child, old(parent.edges));
      SplitBelow(view, p, c, d, child);
    }

    method CutEdge(parent: Node, ghost p: Key, n: Node, ghost d: Key, head: Key, ghost c: Key) returns (child: Node)
      requires Linked() && p in view.at && view.at[p] == parent && d in view.at && view.at[d] == n
      requires p < d && d[|p|] in view.shape[p].kids && view.shape[p].kids[d[|p|]] == d
      requires head != [] && head < n.prefix && c == p + head
      modifies parent`edges, n`prefix
      ensures p < c < d && c !in view.at && fresh(child) && LinkedAs(root, Divided(view, p, c, d, child))
      ensures child.leaf == None && child.edges == [Edge(old(n.prefix)[|head|], n)] && !child.isWild
    {
      child := CutHeap(parent, p, n, d, head, c);
      SplitLinked(root, view, p, c, d, child);
    }

    /** Puts a new inner node `c` on the edge from `parent` to `n`, after the bytes `head`. */
    method SplitEdge(parent: Node, ghost p: Key, n: Node, ghost d: Key, head: Key, ghost c: Key) returns (child: Node)
      requires Linked() && p in view.at && view.at[p] == parent && d in view.at && view.at[d] == n
      requires p < d && d[|p|] in view.shape[p].kids && view.shape[p].kids[d[|p|]] == d
      requires head != [] && head < n.prefix && c == p + head
      modifies this`view, parent`edges, n`prefix
      ensures Linked() && Contents() == old(Contents())
      ensures fresh(child) && c !in old(view.at) && c in view.at && view.at[c] == child && view.shape[c].kids != map[] && view.repr == old(view.repr) + {child}
      ensures child.leaf == None && child.edges == [Edge(old(n.prefix)[|head|], n)] && !child.isWild
      ensures forall k | k != c && old(Lean(k, view)) :: Lean(k, view)
      ensures forall k | old(Tame(k, view)) :: Tame(k, view)
    {
      child := CutEdge(parent, p, n, d, head, c);
      view := Divided(view, p, c, d, child);
      SplitLean(old(view), p, c, d, child);
    }

    /** Where a split lands: strictly between the parent and the old child. */
    lemma SplitWhere(p: Key, d: Key, head: Key, c: Key)
      requires Linked() && p in view.at && d in view.at
      requires p < d && d[|p|] in view.shape[p].kids && view.shape[p].kids[d[|p|]] == d
      requires head != [] && head < view.at[d].prefix && c == p + head
      ensures var n := view.at[d];
              view.at[p] != n && d == p + n.prefix && p < c < d && Body(view.at[p], p, view.shape[p].up, view.contents, view.shape[p].wild)
              && c[|p|] == d[|p|] == head[0] && HasLabel(view.at[p].edges, head[0]) && SortedEdges(view.at[p].edges)
              && d[|c|] == n.prefix[|head|] && c[|p|..] == head && d[|c|..] == n.prefix[|head|..]
              && EdgesOk(view.at[p].edges, view.shape[p].kids, view.at) && EdgesOk(n.edges, view.shape[d].kids, view.at)
              && n.path == d && n.leaf == LeafFor(view.contents, d) && n.isWild == view.shape[d].wild && c !in view.contents
    {
      assert Here(p, view) && Here(d, view);
      assert ChildOk(view.shape, p, d[|p|]);
      SplitOff(p, d);
      Nest(p, head, view.at[d].prefix);
      EdgesOkLabel(view.at[p].edges, view.shape[p].kids, view.at, head[0]);
      SplitWF(view.shape, p, c, d);
    }

    /** The key ends at a node that is already there: replace its value or give it one. */
    method Store(n: Node, k: Key, v: Handle) returns (replaced: Option<Handle>, updated: bool)
      requires Linked() && k in view.at && view.at[k] == n
      modifies this`size, this`view, n`leaf
      ensures Linked() && Contents() == old(Contents())[k := v] && view.repr == old(view.repr)
      ensures updated <==> k in old(Contents())
      ensures replaced == if k in old(Contents()) then Some(old(Contents())[k]) else None
      ensures size == old(size) + if updated then 0 else 1
      ensures Lean(k, view) && forall q | old(Lean(q, view)) :: Lean(q, view)
      ensures forall q | old(Tame(q, view)) :: Tame(q, view)
    {
      assert Here(k, view);
      if n.IsLeaf() {
        replaced, updated := Some(n.leaf.value.val), true;
      } else {
        replaced, updated, size := None, false, size + 1;
      }
      n.leaf := Some(LeafNode(k, v));
      view := view.(contents := view.contents[k := v]);
      forall q ensures q != k ==> Here(q, old(view)) {
        assert old(Here(q, view));
        assert q in view.at && q != k ==> view.at[q] != n;
      }
      StoreLinked(root, old(view), k, view.contents);
    }

    // ----- Insert -----

    /** After a split the new key ends at the new node, or hangs under it. */
    method PlaceAt(child: Node, ghost c: Key, s: Key, rest: Key, v: Handle)
      requires Linked() && c in view.at && view.at[c] == child && c !in Contents() && view.shape[c].kids != map[]
      requires s == c + rest && (rest != [] ==> !HasLabel(child.edges, rest[0]))
      modifies this`size, this`view, child
      ensures Linked() && s !in old(Contents()) && Contents() == old(Contents())[s := v] && size == old(size) + 1
      ensures fresh(view.repr - old(view.repr))
      ensures forall k | k == c || old(Lean(k, view)) :: Lean(k, view)
      ensures forall k | old(Tame(k, view)) :: Tame(k, view)
    {
      if rest == [] {
        assert s == c;
        var _, _ := Store(child, s, v);
      } else {
        Attach(child, c, s, rest, v, false, [], 0);
      }
    }

    lemma SplitLabels(edges: seq<Edge>, edge: Key, n: Node, search: Key, prefix: nat)
      requires prefix < |edge| && prefix <= |search| && edges == [Edge(edge[prefix], n)]
      requires prefix < |search| ==> search[prefix] != edge[prefix]
      ensures search[prefix..] != [] ==> !HasLabel(edges, search[prefix..][0])
    {
    }

    /** The last case of Insert: `s` leaves the edge from `parent` to `n` after `prefix` bytes, or ends there. */
    method InsertSplit(parent: Node, ghost p: Key, n: Node, ghost d: Key, s: Key, search: Key, prefix: nat, v: Handle)
      requires Linked() && p in view.at && view.at[p] == parent && d in view.at && view.at[d] == n
      requires p < d && d[|p|] in view.shape[p].kids && view.shape[p].kids[d[|p|]] == d
      requires 0 < prefix <= |search| && prefix < |n.prefix| && search[..prefix] == n.prefix[..prefix]
      requires prefix < |search| ==> search[prefix] != n.prefix[prefix]
      requires s == p + search
      modifies this`size, this`view, parent`edges, n`prefix
      ensures Linked() && s !in old(Contents()) && Contents() == old(Contents())[s := v] && size == old(size) + 1
      ensures fresh(view.repr - old(view.repr))
      ensures forall k | old(Lean(k, view)) :: Lean(k, view)
      ensures forall k | old(Tame(k, view)) :: Tame(k, view)
    {
      var head, rest := search[..prefix], search[prefix..];
      ghost var c := p + head;
      CutAt(p, search, n.prefix, prefix);
      var child := SplitEdge(parent, p, n, d, head, c);
      ghost var mid := view.repr;
      SplitLabels(child.edges, old(n.prefix), n, search, prefix);
      PlaceAt(child, c, s, rest, v);
      assert view.repr - old(view.repr) <= (view.repr - mid) + {child};
    }

    /**
     The descent of Insert: follows whole edges as far as `s` matches them.  Stops at `n` with
     `search` left to go: nothing left, or no edge (`child` is null), or an edge that matches
     only its first `prefix` bytes.
     */
    method Locate(s: Key) returns (n: Node, search: Key, child: Node?, prefix: nat, ghost k: Key)
      requires Linked()
      ensures k in view.at && view.at[k] == n && s == k + search
      ensures search != [] && child == null ==> !HasLabel(n.edges, search[0])
      ensures search != [] && child != null ==>
                && k + child.prefix in view.at && view.at[k + child.prefix] == child && child.prefix != []
                && search[0] in view.shape[k].kids && view.shape[k].kids[search[0]] == k + child.prefix
                && (k + child.prefix)[|k|] == search[0]
                && prefix < |child.prefix| && IsCommonPrefix(search, child.prefix, prefix)
                && search[..prefix] == child.prefix[..prefix]
    {
      n, search, k, child, prefix := root, s, [], null, 0;
      while search != []
        invariant k in view.at && view.at[k] == n && s == k + search
        decreases |search|
      {
        assert Here(k, view);
        child := n.GetEdge(search[0]);
        if child == null {
          return;
        }
        ChildOf(k, Edge(search[0], child));
        prefix := LongestCommonPrefix(search, child.prefix);
        if prefix != |child.prefix| {
          return;
        }
        Advance(k, child.prefix, search);
        n, k, search := child, k + child.prefix, search[prefix..];
      }
    }

    /** The case of Insert without an edge to follow. */
    method HangNew(parent: Node, ghost p: Key, s: Key, search: Key, v: Handle, isWild: bool, key: Key, idx: int)
      requires Linked() && p in view.at && view.at[p] == parent
      requires s == p + search && search != [] && !HasLabel(parent.edges, search[0])
      modifies this`size, this`view, parent`edges
      ensures Linked() && size == old(size) + 1
      ensures Contents() == old(Contents())[s := v] && s !in old(Contents())
      ensures fresh(view.repr - old(view.repr))
      ensures old(Compact()) ==> Compact()
      ensures old(NoWild()) && !isWild ==> NoWild()
      ensures exists m :: old(Hook(view.shape, m, s))
      ensures forall m | old(Hook(view.shape, m, s)) :: view.shape == AddChild(old(view.shape), m, s, isWild)
      ensures s in view.at && view.at[s].idx == idx && view.at[s].key == key
    {
      ghost var t := view.shape;
      ghost var w := view;
      Attach(parent, p, s, search, v, isWild, key, idx);
      forall m | Hook(t, m, s) ensures m == p {
        HookUnique(t, p, m, s);
      }
      assert Hook(w.shape, p, s);
    }

    lemma SplitsShort(k: Key, edge: Key, search: Key, prefix: nat)
      requires prefix < |edge| && IsCommonPrefix(search, edge, prefix)
      ensures !(k + edge <= k + search)
    {
      NotUnder(k, edge, search);
    }

    /**
     Adds a new entry or updates an existing one; reports the value it replaced.  A key that is
     hung where no edge leads towards it gets a node of its own, a wildcard node if the key holds
     a mark; in every other case no node becomes one.
     */
    method Insert(s: Key, v: Handle) returns (replaced: Option<Handle>, updated: bool)
      requires Valid()
      modifies this, view.repr
      ensures Valid() && fresh(view.repr - old(view.repr))
      ensures Contents() == old(Contents())[s := v]
      ensures updated <==> s in old(Contents())
      ensures replaced == if s in old(Contents()) then Some(old(Contents())[s]) else None
      ensures old(Compact()) ==> Compact()
      ensures old(NoWild()) && STAR !in s ==> NoWild()
      ensures forall k | old(Hook(view.shape, k, s)) :: view.shape == AddChild(old(view.shape), k, s, STAR in s)
      ensures (exists k :: old(Hook(view.shape, k, s))) ==>
                && s in view.at && view.at[s].idx == FirstMark(s, STAR)
                && view.at[s].key == if STAR in s then s[FirstMark(s, STAR) + 1..] else []
      ensures (forall k :: !old(Hook(view.shape, k, s))) ==> forall k | old(Tame(k, view)) :: Tame(k, view)
    {
      var idx := FirstMark(s, STAR);
      var isWild := idx > -1;
      var key := if idx != -1 then s[idx + 1..] else [];
      assert isWild == (STAR in s);
      var n, search, child, prefix, k := Locate(s);
      replaced, updated := None, false;
      if search == [] {
        assert s == k;
        NoHook(view.shape, k, s);
        replaced, updated := Store(n, s, v);
      } else if child == null {
        HangNew(n, k, s, search, v, isWild, key, idx);
      } else {
        Extend(k, search);
        SplitsShort(k, child.prefix, search, prefix);
        NoHook(view.shape, k, s);
        InsertSplit(n, k, child, k + child.prefix, s, search, prefix, v);
      }
    }

    // ----- Delete -----

    method SnipEdge(parent: Node, ghost p: Key, first: char, ghost c: Key)
      requires Linked() && p in view.at && view.at[p] == parent && c in view.at && view.at[c].edges == [] && c !in view.contents
      requires p < c && c[|p|] == first && first in view.shape[p].kids && view.shape[p].kids[first] == c
      modifies parent`edges
      ensures LinkedAs(root, Dropped(view, p, c))
    {
      assert Here(p, view) && Here(c, view);
      EdgesOkLabel(parent.edges, view.shape[p].kids, view.at, first);
      parent.DelEdge(first);
      forall k ensures k != p ==> Here(k, view) {
        assert old(Here(k, view));
        assert k in view.at && k != p ==> view.at[k] != parent;
      }
      UnlinkLinked(root, view, p, c, old(parent.edges));
    }

    method AbsorbChild(n: Node, ghost p: Key, ghost k: Key) returns (ghost c: Key)
      requires Linked() && k in view.at && view.at[k] == n && n.leaf == None && |n.edges| == 1
      requires p in view.at && p < k && k[|p|] in view.shape[p].kids && view.shape[p].kids[k[|p|]] == k
      modifies n`prefix, n`leaf, n`edges, n`path
      ensures k < c && c in view.at && LinkedAs(root, Fused(view, p, k, c))
    {
      c := OnlyChild(p, k);
      n.MergeChild();
      n.path := c;
      forall q ensures q != k && q != c ==> Here(q, view) {
        assert old(Here(q, view));
      }
      FuseTouched(view, p, k, c);
      FuseLinked(root, view, p, k, c);
    }

    lemma OnlyChild(p: Key, k: Key) returns (c: Key)
      requires Linked() && k in view.at && view.at[k].leaf == None && |view.at[k].edges| == 1
      requires p in view.at && p < k && k[|p|] in view.shape[p].kids && view.shape[p].kids[k[|p|]] == k
      ensures k < c && c in view.at && k !in view.contents && view.shape[k].kids == map[c[|k|] := c]
      ensures var n, m := view.at[k], view.at[c];
              n.edges[0].node == m && n != m && |p| <= |c| && c[|p|..] == n.prefix + m.prefix
              && n.isWild == view.shape[k].wild
              && m.leaf == LeafFor(view.contents, c) && EdgesOk(m.edges, view.shape[c].kids, view.at)
      ensures forall q | q in view.at && q != k :: view.at[q] != view.at[k]
    {
      var n := view.at[k];
      var e := n.edges[0];
      assert e in n.edges;
      ChildOf(k, e);
      c := view.shape[k].kids[e.tag];
      assert Here(k, view) && Here(c, view);
      assert ChildOk(view.shape, p, k[|p|]);
      SplitOff(p, k);
      SplitOff(k, c);
      SplitOff(p, c);
      assert p + c[|p|..] == p + (n.prefix + view.at[c].prefix);
      assert n.edges == [e];
      forall l | l in view.shape[k].kids ensures l == e.tag {
        EdgesOkLabel(n.edges, view.shape[k].kids, view.at, l);
      }
      forall q | q in view.at && view.at[q] == n ensures q == k {
        OneKey(q, k);
      }
    }

    method ClearLeaf(n: Node, ghost k: Key)
      requires Linked() && k in view.at && view.at[k] == n
      modifies n`leaf
      ensures LinkedAs(root, view.(contents := view.contents - {k}))
    {
      assert Here(k, view);
      n.leaf := None;
      ghost var contents := view.contents - {k};
      forall q ensures q != k ==> Here(q, view) {
        assert old(Here(q, view));
        assert q in view.at && q != k ==> view.at[q] != n;
      }
      StoreLinked(root, view, k, contents);
    }

    /** Takes the childless node `c`, which stores nothing, from its parent. */
    method Snip(parent: Node, ghost p: Key, first: char, ghost c: Key)
      requires Linked() && p in view.at && view.at[p] == parent && c in view.at && view.at[c].edges == [] && c !in view.contents
      requires p < c && c[|p|] == first && first in view.shape[p].kids && view.shape[p].kids[first] == c
      modifies this`view, parent`edges
      ensures Linked() && view == Dropped(old(view), p, c)
    {
      SnipEdge(parent, p, first, c);
      view := Dropped(view, p, c);
    }

    /** Fuses the node of `k`, which stores nothing, with its only child, whose name it takes. */
    method Absorb(n: Node, ghost p: Key, ghost k: Key) returns (ghost c: Key)
      requires Linked() && k in view.at && view.at[k] == n && n.leaf == None && |n.edges| == 1
      requires p in view.at && p < k && k[|p|] in view.shape[p].kids && view.shape[p].kids[k[|p|]] == k
      modifies this`view, n`prefix, n`leaf, n`edges, n`path
      ensures k < c && c in old(view.at) && Linked() && view == Fused(old(view), p, k, c)
    {
      c := AbsorbChild(n, p, k);
      view := Fused(view, p, k, c);
    }

    /** The node of `k` stops storing its value. */
    method Clear(n: Node, ghost k: Key)
      requires Linked() && k in view.at && view.at[k] == n && k in Contents()
      modifies this`size, this`view, n`leaf
      ensures Linked() && view == old(view).(contents := old(view.contents) - {k}) && size == old(size) - 1
      ensures n.leaf == None
      ensures forall q | q != k && old(Lean(q, view)) :: Lean(q, view)
      ensures forall q | old(Tame(q, view)) :: Tame(q, view)
    {
      ClearLeaf(n, k);
      size := size - 1;
      view := view.(contents := view.contents - {k});
      assert Here(k, view);
    }

    /** The descent of Delete: the node that stores `s`, and the node above it. */
    method Seek(s: Key) returns (found: bool, n: Node, parent: Node?, first: char, ghost p: Key)
      requires Linked()
      ensures found <==> s in Contents()
      ensures found ==> s in view.at && view.at[s] == n && n.leaf == Some(LeafNode(s, Contents()[s]))
      ensures found ==> (parent == null <==> s == [])
      ensures found && parent != null ==>
                && p in view.at && view.at[p] == parent
                && p < s && s[|p|] == first && first in view.shape[p].kids && view.shape[p].kids[first] == s
    {
      ghost var k: Key := [];
      var search := s;
      n, parent, first, p := root, null, STAR, [];
      while search != []
        invariant k in view.at && view.at[k] == n && s == k + search
        invariant parent == null <==> k == []
        invariant parent != null ==>
                    && p in view.at && view.at[p] == parent
                    && p < k && k[|p|] == first && first in view.shape[p].kids && view.shape[p].kids[first] == k
        decreases |search|
      {
        assert Here(k, view);
        Extend(k, search);
        assert Descends(view.shape, k, s);
        var child := n.GetEdge(search[0]);
        if child == null {
          EdgesOkLabel(n.edges, view.shape[k].kids, view.at, search[0]);
          return false, n, parent, first, p;
        }
        ChildOf(k, Edge(search[0], child));
        if !(child.prefix <= search) {
          NotUnder(k, child.prefix, search);
          return false, n, parent, first, p;
        }
        Advance(k, child.prefix, search);
        parent, first, p := n, search[0], k;
        n, k, search := child, k + child.prefix, search[|child.prefix|..];
      }
      assert s == k;
      assert Here(k, view);
      found := n.IsLeaf();
    }

    /** After Delete has cleared the node of `s`: a bare node goes, a needless one is merged. */
    method Tidy(n: Node, s: Key, parent: Node, first: char, ghost p: Key)
      requires Linked() && s in view.at && view.at[s] == n && n.leaf == None && s !in view.contents
      requires p in view.at && view.at[p] == parent && parent != n
      requires p < s && s[|p|] == first && first in view.shape[p].kids && view.shape[p].kids[first] == s
      modifies this`view, parent`edges, n
      ensures Linked() && Contents() == old(Contents()) && view.repr == old(view.repr)
      ensures p in view.at && view.at[p] == parent
      ensures forall k | k != s && k != p && old(Lean(k, view)) :: Lean(k, view)
      ensures Lean(s, view)
      ensures old(Lean(p, view)) && |parent.edges| != 1 ==> Lean(p, view)
      ensures old(NoWild()) ==> NoWild()
    {
      ghost var w := view;
      assert Here(s, w) && Here(p, w);
      assert old(NoWild()) ==> Tame(s, w);
      if |n.edges| == 0 {
        UnlinkLean(w, p, s);
        Snip(parent, p, first, s);
        assert Here(p, view);
      } else if |n.edges| == 1 {
        ghost var c := Absorb(n, p, s);
        FuseLean(w, p, s, c);
      }
    }

    /** The last step of Delete: a parent left with one child and no value is merged, unless it is the root. */
    method TidyParent(parent: Node, ghost p: Key)
      requires Linked() && p in view.at && view.at[p] == parent
      modifies this`view, parent
      ensures Linked() && Contents() == old(Contents()) && view.repr == old(view.repr)
      ensures forall k | k != p && old(Lean(k, view)) :: Lean(k, view)
      ensures old(Lean(p, view)) || old(|parent.edges|) == 1 ==> Lean(p, view)
      ensures old(NoWild()) ==> NoWild()
      ensures forall k | old(Bare(k, view)) :: Bare(k, view)
    {
      assert Here(p, view) && Here([], view);
      if parent != root && |parent.edges| == 1 && !parent.IsLeaf() {
        ghost var g := ParentFrom(view.shape, p, []);
        ghost var w := view;
        assert old(NoWild()) ==> Tame(p, w);
        ghost var c := Absorb(parent, g, p);
        FuseLean(w, g, p, c);
      }
    }

    method TidyBoth(n: Node, s: Key, parent: Node, first: char, ghost p: Key)
      requires Linked() && s in view.at && view.at[s] == n && n.leaf == None && s !in view.contents
      requires p in view.at && view.at[p] == parent && parent != n
      requires p < s && s[|p|] == first && first in view.shape[p].kids && view.shape[p].kids[first] == s
      modifies this`view, parent, n
      ensures Linked() && Contents() == old(Contents()) && view.repr == old(view.repr)
      ensures (forall k :: k != s ==> old(Lean(k, view))) ==> Compact()
      ensures old(NoWild()) ==> NoWild()
    {
      Tidy(n, s, parent, first, p);
      TidyParent(parent, p);
    }

    /** The part of Delete that changes the tree. */
    method Remove(n: Node, s: Key, parent: Node?, first: char, ghost p: Key)
      requires Linked() && s in view.at && view.at[s] == n && s in Contents()
      requires parent == null <==> s == []
      requires parent != null ==>
                 && p in view.at && view.at[p] == parent
                 && p < s && s[|p|] == first && first in view.shape[p].kids && view.shape[p].kids[first] == s
      modifies this`size, this`view, n, parent
      ensures Linked() && size == old(size) - 1 && view.repr == old(view.repr)
      ensures Contents() == old(Contents()) - {s}
      ensures old(Compact()) ==> Compact()
      ensures old(NoWild()) ==> NoWild()
    {
      assert parent != null ==> Here(p, view) && Here(s, view);
      Clear(n, s);
      if parent != null {
        TidyBoth(n, s, parent, first, p);
      }
    }

    /** Removes a key, returning its value and whether it was there. */
    method Delete(s: Key) returns (deleted: Option<Handle>, ok: bool)
      requires Valid()
      modifies this, view.repr
      ensures Valid() && view.repr == old(view.repr)
      ensures Contents() == old(Contents()) - {s}
      ensures ok <==> s in old(Contents())
      ensures deleted == if ok then Some(old(Contents())[s]) else None
      ensures old(Compact()) ==> Compact()
      ensures old(NoWild()) ==> NoWild()
    {
      var found, n, parent, first, p := Seek(s);
      if !found {
        return None, false;
      }
      deleted, ok := Some(n.leaf.value.val), true;
      Remove(n, s, parent, first, p);
      RemoveOne(old(Contents()), s);
    }

    // ----- lookups -----

    /** A key stored below `k` continues along the edge for its next byte. */
    lemma NextEdge(k: Key, m: Key)
      requires Linked() && k in view.at && m in Contents() && k < m
      ensures m[|k|] in view.shape[k].kids && view.shape[k].kids[m[|k|]] <= m
      ensures HasLabel(view.at[k].edges, m[|k|])
    {
      assert Here(k, view);
      assert Descends(view.shape, k, m);
      EdgesOkLabel(view.at[k].edges, view.shape[k].kids, view.at, m[|k|]);
    }

    /** What a map lookup says. */
    ghost function Stored(s: Key): Lookup
      reads `view
    {
      if s in Contents() then Found(Contents()[s], None) else Missing
    }

    lemma NoWildMeetsNone(s: Key)
      requires Linked() && NoWild()
      ensures !MeetsWild(view.shape, s)
    {
      forall k ensures !WildUnder(view.shape, k, s) {
        if k in view.shape && k < s && s[|k|] in view.shape[k].kids {
          assert Tame(view.shape[k].kids[s[|k|]], view);
        }
      }
    }

    /** Where no node leads on to `s`, nothing is stored under it, and no wildcard node was passed. */
    lemma NothingFurther(k: Key, s: Key)
      requires Linked() && k in view.at && k < s && ClearUpTo(view.shape, s, |k|) && !WildUnder(view.shape, k, s)
      requires s[|k|] !in view.shape[k].kids || !(view.shape[k].kids[s[|k|]] <= s)
      ensures Stored(s) == Missing && !MeetsWild(view.shape, s)
    {
      ClearEnd(view.shape, k, s);
      if s in Contents() {
        NextEdge(k, s);
      }
    }

    /** What the first wildcard node met, the one under `k`, answers: its value with the rest of the key from its mark on. */
    ghost predicate WildAnswer(k: Key, s: Key, r: Lookup)
      requires Linked() && WildUnder(view.shape, k, s)
      reads `root, `view, view.repr
    {
      var c := view.shape[k].kids[s[|k|]];
      var n := view.at[c];
      && ClearUpTo(view.shape, s, |k|)
      && r == if c in Contents() && 0 <= n.idx <= |s| then Found(Contents()[c], Some(Param(s[n.idx..], n.key))) else Panics
    }

    /**
     Looks up a key.  The wildcard branch is the source's; the answer is that of a map exactly
     when no wildcard node is met on the way, and otherwise it carries a parameter.
     */
    method Get(s: Key) returns (r: Lookup)
      requires Linked()
      ensures r == Stored(s) <==> !MeetsWild(view.shape, s)
      ensures MeetsWild(view.shape, s) ==> exists k | WildUnder(view.shape, k, s) :: WildAnswer(k, s, r)
      ensures NoWild() ==> r == Stored(s)
    {
      var n, search := root, s;
      ghost var k: Key := [];
      if NoWild() {
        NoWildMeetsNone(s);
      }
      while search != []
        invariant k in view.at && view.at[k] == n && s == k + search
        invariant ClearUpTo(view.shape, s, |k|)
        decreases |search|
      {
        assert Here(k, view);
        Extend(k, search);
        var child := n.GetEdge(search[0]);
        if child == null {
          EdgesOkLabel(n.edges, view.shape[k].kids, view.at, search[0]);
          NothingFurther(k, s);
          return Missing;
        }
        ChildOf(k, Edge(search[0], child));
        assert child.isWild <==> WildUnder(view.shape, k, s) by { assert Here(k + child.prefix, view); }
        n := child;
        if n.isWild {
          if n.leaf == None || !(0 <= n.idx <= |s|) {
            r := Panics;
          } else {
            r := Found(n.leaf.value.val, Some(Param(s[n.idx..], n.key)));
          }
          assert WildAnswer(k, s, r) by { assert Here(view.shape[k].kids[s[|k|]], view); }
          return;
        }
        NotUnder(k, n.prefix, search);
        if n.prefix <= search {
          ClearStep(view.shape, k, s);
          Advance(k, n.prefix, search);
          k, search := k + n.prefix, search[|n.prefix|..];
        } else {
          NothingFurther(k, s);
          return Missing;
        }
      }
      assert s == k;
      assert Here(k, view);
      ClearEnd(view.shape, k, s);
      return if n.IsLeaf() then Found(n.leaf.value.val, None) else Missing;
    }

    /** Stored prefixes of `s` other than `k` itself are shorter than `k`, or lie along its next edge. */
    lemma PrefixesOf(k: Key, search: Key, s: Key)
      requires Linked() && k in view.at && s == k + search
      ensures k <= s
      ensures forall m | m in Contents() && m <= s && |m| == |k| :: m == k
      ensures forall m | m in Contents() && m <= s && |k| < |m| ::
                search != [] && HasLabel(view.at[k].edges, search[0])
                && search[0] in view.shape[k].kids && view.shape[k].kids[search[0]] <= m
    {
      Extend(k, search);
      forall m | m in Contents() && m <= s && |m| == |k| ensures m == k {
        Comparable(m, k, s);
      }
      forall m | m in Contents() && m <= s && |k| < |m|
        ensures search != [] && HasLabel(view.at[k].edges, search[0])
        ensures search[0] in view.shape[k].kids && view.shape[k].kids[search[0]] <= m
      {
        Comparable(k, m, s);
        NextEdge(k, m);
      }
    }

    ghost predicate StoredPrefix(s: Key, e: LeafNode)
      reads `view
    {
      e.key in Contents() && Contents()[e.key] == e.val && e.key <= s
    }

    /** Of the stored prefixes of `s` shorter than `n`, `last` is the longest, if there is one. */
    ghost predicate LongestBelow(s: Key, n: nat, last: Option<LeafNode>)
      reads `view
    {
      && (last.Some? ==> StoredPrefix(s, last.value))
      && (forall m | m in Contents() && m <= s && |m| < n :: last.Some? && |m| <= |last.value.key|)
    }

    lemma LongestHere(s: Key, k: Key, search: Key, last: Option<LeafNode>)
      requires Linked() && k in view.at && s == k + search && LongestBelow(s, |k|, last)
      ensures LongestBelow(s, |k| + 1, if LeafFor(Contents(), k).Some? then LeafFor(Contents(), k) else last)
    {
      PrefixesOf(k, search, s);
    }

    /** Behind `k` the next stored prefix, if there is one, lies along the next edge. */
    lemma LongestBeyond(s: Key, k: Key, search: Key, last: Option<LeafNode>)
      requires Linked() && k in view.at && s == k + search && LongestBelow(s, |k| + 1, last)
      ensures search != [] && search[0] in view.shape[k].kids && view.shape[k].kids[search[0]] <= s ==>
                LongestBelow(s, |view.shape[k].kids[search[0]]|, last)
      ensures (|| search == [] || !HasLabel(view.at[k].edges, search[0])
               || (search[0] in view.shape[k].kids && !(view.shape[k].kids[search[0]] <= s))) ==>
                LongestBelow(s, |s| + 1, last)
    {
      PrefixesOf(k, search, s);
    }

    /** The longest stored key that `s` starts with. */
    method LongestPrefix(s: Key) returns (last: Option<LeafNode>)
      requires Linked()
      ensures last.Some? ==> last.value.key in Contents() && Contents()[last.value.key] == last.value.val && last.value.key <= s
      ensures forall m | m in Contents() && m <= s :: last.Some? && |m| <= |last.value.key|
    {
      var n, search := root, s;
      ghost var k: Key := [];
      last := None;
      while true
        invariant k in view.at && view.at[k] == n && s == k + search && LongestBelow(s, |k|, last)
        decreases |search|
      {
        assert Here(k, view);
        LongestHere(s, k, search, last);
        if n.IsLeaf() {
          last := n.leaf;
        }
        LongestBeyond(s, k, search, last);
        if search == [] {
          return;
        }
        var child := n.GetEdge(search[0]);
        if child == null {
          return;
        }
        ChildOf(k, Edge(search[0], child));
        NotUnder(k, child.prefix, search);
        if !(child.prefix <= search) {
          return;
        }
        Advance(k, child.prefix, search);
        n, k, search := child, k + child.prefix, search[|child.prefix|..];
      }
    }

    // ----- least and greatest -----

    /** Where a walk down one side of the tree can end. */
    ghost predicate End(m: Key)
      reads `view
    {
      m in Contents() || Bare(m, view)
    }

    /** The least stored key; it is missed exactly when a bare node comes before every stored key. */
    method Minimum() returns (least: Option<LeafNode>)
      requires Linked()
      ensures least.Some? ==>
                && least.value.key in Contents() && Contents()[least.value.key] == least.value.val
                && forall m | m in Contents() :: m == least.value.key || Less(least.value.key, m)
      ensures least.None? <==> exists k :: Bare(k, view) && forall m | m in Contents() :: Less(k, m)
      ensures Compact() ==> (least.Some? <==> Contents() != map[])
    {
      var n := root;
      ghost var k: Key := [];
      while true
        invariant k in view.at && view.at[k] == n
        invariant forall m | End(m) :: k <= m || Precedes(k, m)
        decreases Under(view.shape, k)
      {
        assert Here(k, view);
        forall m | End(m) ensures m == k || Less(k, m) {
          PrecedesExtends(k, m);
        }
        if n.IsLeaf() {
          least := n.leaf;
          forall b | Bare(b, view) ensures !Less(b, k) {
            LessTrichotomy(b, k);
          }
          return;
        }
        if |n.edges| == 0 {
          break;
        }
        var e := n.edges[0];
        assert e in n.edges;
        ChildOf(k, e);
        UnderShrinks(view.shape, k, e.tag);
        ghost var c := k + e.node.prefix;
        forall m | End(m) ensures c <= m || Precedes(c, m) {
          FirstEdge(k, e, m);
        }
        n, k := e.node, c;
      }
      assert Bare(k, view);
      forall m | m in Contents() ensures !(k <= m) {
        assert k <= m ==> k == m || k < m;
        assert Descends(view.shape, k, m);
      }
      assert Lean(k, view) ==> k == [];
      return None;
    }

    /** Going down the first edge leaves no end before the walker. */
    lemma FirstEdge(k: Key, e: Edge, m: Key)
      requires Linked() && k in view.at && |view.at[k].edges| > 0 && e == view.at[k].edges[0]
      requires k !in Contents() && End(m) && (k <= m || Precedes(k, m))
      ensures var c := k + e.node.prefix; c <= m || Precedes(c, m)
    {
      var edges := view.at[k].edges;
      assert e in edges;
      ChildOf(k, e);
      PrecedesExtends(k, m);
      assert Here(k, view);
      EdgesOkLabel(edges, view.shape[k].kids, view.at, e.tag);
      assert k <= m ==> k == m || k < m;
      if k < m {
        assert Descends(view.shape, k, m);
        EdgesOkLabel(edges, view.shape[k].kids, view.at, m[|k|]);
        if e.tag < m[|k|] {
          PrecedesSibling(k, k + e.node.prefix, m);
        }
      }
    }

    /** The greatest stored key; it is missed exactly when a bare node comes after every stored key. */
    method Maximum() returns (greatest: Option<LeafNode>)
      requires Linked()
      ensures greatest.Some? ==>
                && greatest.value.key in Contents() && Contents()[greatest.value.key] == greatest.value.val
                && forall m | m in Contents() :: m == greatest.value.key || Less(m, greatest.value.key)
      ensures greatest.None? <==> exists k :: Bare(k, view) && forall m | m in Contents() :: Less(m, k)
      ensures Compact() ==> (greatest.Some? <==> Contents() != map[])
    {
      var n := root;
      ghost var k: Key := [];
      while |n.edges| > 0
        invariant k in view.at && view.at[k] == n
        invariant forall m | End(m) :: m < k || k <= m || Precedes(m, k)
        decreases Under(view.shape, k)
      {
        assert Here(k, view);
        var e := n.edges[|n.edges| - 1];
        assert e in n.edges;
        ChildOf(k, e);
        UnderShrinks(view.shape, k, e.tag);
        ghost var c := k + e.node.prefix;
        forall m | End(m) ensures m < c || c <= m || Precedes(m, c) {
          LastEdge(k, e, m);
        }
        n, k := e.node, c;
      }
      assert Here(k, view);
      forall m | End(m) ensures m == k || Less(m, k) {
        PrecedesExtends(m, k);
        assert Descends(view.shape, k, m);
      }
      if n.IsLeaf() {
        greatest := n.leaf;
        forall b | Bare(b, view) ensures !Less(k, b) {
          LessTrichotomy(b, k);
        }
        return;
      }
      assert Bare(k, view);
      forall m | m in Contents() ensures !(k <= m) {
        assert k <= m ==> k == m || k < m;
        assert Descends(view.shape, k, m);
      }
      assert Lean(k, view) ==> k == [];
      return None;
    }

    /** Going down the last edge leaves no end after the walker. */
    lemma LastEdge(k: Key, e: Edge, m: Key)
      requires Linked() && k in view.at && |view.at[k].edges| > 0 && e == view.at[k].edges[|view.at[k].edges| - 1]
      requires End(m) && (m < k || k <= m || Precedes(m, k))
      ensures var c := k + e.node.prefix; m < c || c <= m || Precedes(m, c)
    {
      var edges := view.at[k].edges;
      assert e in edges;
      ChildOf(k, e);
      PrecedesExtends(m, k);
      if k < m {
        assert Here(k, view);
        assert Descends(view.shape, k, m);
        EdgesOkLabel(edges, view.shape[k].kids, view.at, m[|k|]);
        if m[|k|] < e.tag {
          PrecedesSibling(k, m, k + e.node.prefix);
        }
      }
    }

    // ----- walks -----

    /** The keys under `k` that a walk has dealt with once it is through the first `i` edges. */
    ghost function DoneBefore(k: Key, i: nat): set<Key>
      requires k in view.at && i <= |view.at[k].edges|
      reads `view, if k in view.at then {view.at[k]} else {}
    {
      set m | m in KeysUnder(Contents(), k) && (m == k || exists j :: 0 <= j < i && k < m && view.at[k].edges[j].tag == m[|k|])
    }

    lemma DoneNone(k: Key)
      requires Linked() && k in view.at
      ensures DoneBefore(k, 0) == if k in Contents() then {k} else {}
    {
    }

    lemma DoneAll(k: Key)
      requires Linked() && k in view.at
      ensures DoneBefore(k, |view.at[k].edges|) == KeysUnder(Contents(), k)
    {
      var edges := view.at[k].edges;
      forall m | m in KeysUnder(Contents(), k) ensures m in DoneBefore(k, |edges|) {
        assert m == k || k < m;
        if m != k {
          NextEdge(k, m);
          var e :| e in edges && e.tag == m[|k|];
          var j :| 0 <= j < |edges| && edges[j] == e;
        }
      }
    }

    lemma DoneNext(k: Key, i: nat)
      requires Linked() && k in view.at && i < |view.at[k].edges|
      ensures var e := view.at[k].edges[i]; var c := k + e.node.prefix;
              && DoneBefore(k, i + 1) == DoneBefore(k, i) + KeysUnder(Contents(), c)
              && forall a, b | a in DoneBefore(k, i) && b in KeysUnder(Contents(), c) :: Less(a, b)
    {
      var edges := view.at[k].edges;
      var e := edges[i];
      assert e in edges;
      ChildOf(k, e);
      assert Here(k, view);
      var c := k + e.node.prefix;
      forall m | m in Contents() && k < m && m[|k|] == e.tag ensures c <= m {
        NextEdge(k, m);
      }
      forall a, b | a in DoneBefore(k, i) && b in KeysUnder(Contents(), c) ensures Less(a, b) {
        if a != k {
          SiblingsOrdered(k, a, b);
        }
      }
    }

    /** A walk stopped among the first `i` children is a stopped walk of the whole node. */
    lemma StoppedEarly(k: Key, i: nat, fn: WalkFn, acc: seq<LeafNode>, part: seq<LeafNode>)
      requires Linked() && k in view.at && i <= |view.at[k].edges|
      requires Visits(Contents(), DoneBefore(k, i), fn, acc, part, true)
      ensures Visits(Contents(), KeysUnder(Contents(), k), fn, acc, part, true)
    {
      assert Here(k, view);
      var done, rest := DoneBefore(k, i), KeysUnder(Contents(), k) - DoneBefore(k, i);
      forall a, b | a in done && b in rest ensures Less(a, b) {
        assert b == k || k < b;
        if a != k && k < b {
          NextEdge(k, b);
          SiblingsOrdered(k, a, b);
        }
      }
      VisitsCut(Contents(), done, rest, fn, acc, part);
      assert done + rest == KeysUnder(Contents(), k);
    }

    /** A pre-order walk of a node: its own entry first, then its children in label order. */
    method RecursiveWalk(n: Node, ghost k: Key, fn: WalkFn, acc: seq<LeafNode>) returns (part: seq<LeafNode>, stopped: bool)
      requires Linked() && k in view.at && view.at[k] == n
      ensures Visits(Contents(), KeysUnder(Contents(), k), fn, acc, part, stopped)
      decreases Under(view.shape, k)
    {
      assert Here(k, view);
      DoneNone(k);
      DoneAll(k);
      part, stopped := [], false;
      if n.leaf != None {
        part := [n.leaf.value];
        stopped := fn(acc + part);
        VisitsOwn(Contents(), n.leaf.value, fn, acc);
        if stopped {
          StoppedEarly(k, 0, fn, acc, part);
          return;
        }
      }
      var i := 0;
      while i < |n.edges|
        invariant 0 <= i <= |n.edges|
        invariant Visits(Contents(), DoneBefore(k, i), fn, acc, part, false)
      {
        var e := n.edges[i];
        assert e in n.edges;
        ChildOf(k, e);
        UnderShrinks(view.shape, k, e.tag);
        ghost var c := k + e.node.prefix;
        DoneNext(k, i);
        var sub;
        sub, stopped := RecursiveWalk(e.node, c, fn, acc + part);
        VisitsAppend(Contents(), DoneBefore(k, i), KeysUnder(Contents(), c), fn, acc, part, sub, stopped);
        part := part + sub;
        if stopped {
          StoppedEarly(k, i + 1, fn, acc, part);
          return;
        }
        i := i + 1;
      }
    }

    method Walk(fn: WalkFn) returns (part: seq<LeafNode>, stopped: bool)
      requires Linked()
      ensures Visits(Contents(), Contents().Keys, fn, [], part, stopped)
    {
      part, stopped := RecursiveWalk(root, [], fn, []);
      assert KeysUnder(Contents(), []) == Contents().Keys;
    }

    /** One step towards `prefix`: everything stored under it is under the child, if it meets the child at all. */
    lemma StepTowards(k: Key, search: Key, prefix: Key)
      requires Linked() && k in view.at && prefix == k + search && search != []
      ensures !HasLabel(view.at[k].edges, search[0]) ==> KeysUnder(Contents(), prefix) == {}
      ensures forall e | e in view.at[k].edges && e.tag == search[0] ::
                var c := k + e.node.prefix;
                && (forall m | m in KeysUnder(Contents(), prefix) :: c <= m)
                && (search <= e.node.prefix ==> KeysUnder(Contents(), prefix) == KeysUnder(Contents(), c))
                && (!(search <= e.node.prefix) && !(e.node.prefix <= search) ==> KeysUnder(Contents(), prefix) == {})
    {
      Extend(k, search);
      forall m | m in KeysUnder(Contents(), prefix) ensures k < m && m[|k|] == search[0] && HasLabel(view.at[k].edges, search[0]) {
        NextEdge(k, m);
      }
      forall e | e in view.at[k].edges && e.tag == search[0]
        ensures var c := k + e.node.prefix;
                && (forall m | m in KeysUnder(Contents(), prefix) :: c <= m)
                && (search <= e.node.prefix ==> KeysUnder(Contents(), prefix) == KeysUnder(Contents(), c))
                && (!(search <= e.node.prefix) && !(e.node.prefix <= search) ==> KeysUnder(Contents(), prefix) == {})
      {
        ChildOf(k, e);
        var c := k + e.node.prefix;
        NotUnder(k, search, e.node.prefix);
        NotUnder(k, e.node.prefix, search);
        forall m | m in KeysUnder(Contents(), prefix) ensures c <= m && (prefix <= c || c <= prefix) {
          NextEdge(k, m);
          Comparable(c, prefix, m);
        }
      }
    }

    /** Walks the entries under `prefix`. */
    method WalkPrefix(prefix: Key, fn: WalkFn) returns (part: seq<LeafNode>, stopped: bool)
      requires Linked()
      ensures Visits(Contents(), KeysUnder(Contents(), prefix), fn, [], part, stopped)
    {
      var n, search := root, prefix;
      ghost var k: Key := [];
      while search != []
        invariant k in view.at && view.at[k] == n && prefix == k + search
        decreases |search|
      {
        assert Here(k, view);
        StepTowards(k, search, prefix);
        var child := n.GetEdge(search[0]);
        if child == null {
          return [], false;
        }
        ChildOf(k, Edge(search[0], child));
        if child.prefix <= search {
          Advance(k, child.prefix, search);
          n, k, search := child, k + child.prefix, search[|child.prefix|..];
        } else if search <= child.prefix {
          part, stopped := RecursiveWalk(child, k + child.prefix, fn, []);
          return;
        } else {
          return [], false;
        }
      }
      assert k == prefix;
      part, stopped := RecursiveWalk(n, k, fn, []);
    }

    /** The stored keys that are proper prefixes of `k`. */
    ghost function KeysOver(k: Key): set<Key>
      reads `view
    {
      set m | m in Contents() && m < k
    }

    ghost function OwnKey(k: Key): set<Key>
      reads `view
    {
      if k in Contents() then {k} else {}
    }

    /** What is behind a walker at `k` comes before what is ahead of it on the way to `path`. */
    lemma OnPath(k: Key, path: Key)
      requires Linked() && k in view.at && k <= path
      ensures var all, done := KeysAbove(Contents(), path), KeysOver(k) + OwnKey(k);
              && (forall a, b | a in KeysOver(k) && b in OwnKey(k) :: Less(a, b))
              && done <= all && (forall a, b | a in done && b in all - done :: Less(a, b))
              && (forall m | m in all - done :: k < m)
    {
      forall m | m in KeysAbove(Contents(), path) ensures m in KeysOver(k) + OwnKey(k) || k < m {
        Comparable(m, k, path);
      }
    }

    /** The last node on the way: nothing is ahead. */
    lemma PathEnds(k: Key, search: Key, path: Key)
      requires Linked() && k in view.at && path == k + search
      requires search == [] || !HasLabel(view.at[k].edges, search[0])
               || exists e :: e in view.at[k].edges && e.tag == search[0] && !(e.node.prefix <= search)
      ensures KeysAbove(Contents(), path) == KeysOver(k) + OwnKey(k)
    {
      Extend(k, search);
      OnPath(k, path);
      var all, done := KeysAbove(Contents(), path), KeysOver(k) + OwnKey(k);
      forall m | m in all - done
        ensures search != [] && HasLabel(view.at[k].edges, search[0])
        ensures forall e | e in view.at[k].edges && e.tag == search[0] :: e.node.prefix <= search
      {
        Comparable(k, m, path);
        NextEdge(k, m);
        forall e | e in view.at[k].edges && e.tag == search[0] ensures e.node.prefix <= search {
          ChildOf(k, e);
          NotUnder(k, e.node.prefix, search);
          Chain(k + e.node.prefix, m, path);
        }
      }
      assert all - done == {};
    }

    /** The next node on the way: only the own key of `k` is added to what is behind. */
    lemma PathGoesOn(k: Key, e: Edge)
      requires Linked() && k in view.at && e in view.at[k].edges
      ensures KeysOver(k + e.node.prefix) == KeysOver(k) + OwnKey(k)
    {
      ChildOf(k, e);
      var c := k + e.node.prefix;
      forall m | m in KeysOver(c) ensures m in KeysOver(k) + OwnKey(k) {
        Comparable(m, k, c);
        assert Descends(view.shape, k, m);
      }
    }

    /** The callback sees the entry of `k`, if there is one, and may stop there. */
    lemma PathVisit(k: Key, path: Key, fn: WalkFn, part: seq<LeafNode>)
      requires Linked() && k in view.at && k <= path
      requires Visits(Contents(), KeysOver(k), fn, [], part, false)
      ensures k !in Contents() ==> Visits(Contents(), KeysOver(k) + OwnKey(k), fn, [], part, false)
      ensures k in Contents() ==>
                var more := part + [LeafNode(k, Contents()[k])];
                if fn(more) then Visits(Contents(), KeysAbove(Contents(), path), fn, [], more, true)
                else Visits(Contents(), KeysOver(k) + OwnKey(k), fn, [], more, false)
    {
      OnPath(k, path);
      var all, done := KeysAbove(Contents(), path), KeysOver(k) + OwnKey(k);
      if k in Contents() {
        var e := LeafNode(k, Contents()[k]);
        var more := part + [e];
        assert [] + part == part && [] + more == more;
        VisitsOwn(Contents(), e, fn, part);
        VisitsAppend(Contents(), KeysOver(k), OwnKey(k), fn, [], part, [e], fn(more));
        if fn(more) {
          VisitsCut(Contents(), done, all - done, fn, [], more);
          assert done + (all - done) == all;
        }
      } else {
        assert done == KeysOver(k);
      }
    }

    /** Walks the entries on the way down to `path`: the stored keys that `path` starts with. */
    method WalkPath(path: Key, fn: WalkFn) returns (part: seq<LeafNode>, stopped: bool)
      requires Linked()
      ensures Visits(Contents(), KeysAbove(Contents(), path), fn, [], part, stopped)
    {
      var n, search := root, path;
      ghost var k: Key := [];
      part, stopped := [], false;
      while true
        invariant k in view.at && view.at[k] == n && path == k + search
        invariant Visits(Contents(), KeysOver(k), fn, [], part, false)
        decreases |search|
      {
        assert Here(k, view);
        Extend(k, search);
        PathVisit(k, path, fn, part);
        if n.leaf != None {
          part := part + [n.leaf.value];
          if fn(part) {
            return part, true;
          }
        }
        if search == [] {
          PathEnds(k, search, path);
          return;
        }
        var child := n.GetEdge(search[0]);
        if child == null {
          PathEnds(k, search, path);
          return;
        }
        ChildOf(k, Edge(search[0], child));
        if !(child.prefix <= search) {
          PathEnds(k, search, path);
          return;
        }
        Advance(k, child.prefix, search);
        PathGoesOn(k, Edge(search[0], child));
        n, k, search := child, k + child.prefix, search[|child.prefix|..];
      }
    }

    /** The tree as a plain map. */
    method ToMap() returns (out: map<Key, Handle>)
      requires Linked()
      ensures out == Contents()
    {
      var part, _ := Walk(_ => false);
      out := map[];
      var i := 0;
      while i < |part|
        invariant 0 <= i <= |part|
        invariant forall m | m in out :: m in Contents() && out[m] == Contents()[m]
        invariant forall j | 0 <= j < i :: part[j].key in out
      {
        assert part[i] in part;
        out := out[part[i].key := part[i].val];
        i := i + 1;
      }
      forall m | m in Contents() ensures m in out {
        assert ShownOrPast(Contents(), part, false, m);
      }
    }

    method Len() returns (n: int)
      requires Valid()
      ensures n == |Contents()|
    {
      n := size;
    }

    // ----- DeletePrefix -----

    /** In a compressed tree every node but the root has a stored key at or under it. */
    lemma {:induction false} CompactHasKey(k: Key) returns (m: Key)
      requires Linked() && Compact() && k in view.shape && k != []
      ensures m in Contents() && k <= m
      decreases Under(view.shape, k)
    {
      assert Lean(k, view);
      if k in Contents() {
        m := k;
      } else {
        assert view.shape[k].kids.Keys != {};
        var l :| l in view.shape[k].kids;
        assert ChildOk(view.shape, k, l);
        UnderShrinks(view.shape, k, l);
        m := CompactHasKey(view.shape[k].kids[l]);
      }
    }

    method PruneNode(n: Node, ghost k: Key)
      requires Linked() && k in view.at && view.at[k] == n
      modifies n`leaf, n`edges
      ensures LinkedAs(root, Pruned(view, k))
    {
      assert Here(k, view);
      if n.IsLeaf() {
        n.leaf := None;
      }
      n.edges := [];
      forall q ensures q != k ==> Here(q, view) {
        assert old(Here(q, view));
        assert q in view.at && q != k ==> view.at[q] != n;
      }
      PruneLinked(root, view, k);
    }

    /** Cuts everything under the node of `k`, and its own value. */
    method CutOff(n: Node, ghost k: Key)
      requires Linked() && k in view.at && view.at[k] == n
      modifies this`view, n`leaf, n`edges
      ensures Linked() && view == Pruned(old(view), k) && Bare(k, view)
      ensures old(NoWild()) ==> NoWild()
    {
      PruneNode(n, k);
      view := Pruned(view, k);
      forall q ensures old(NoWild()) ==> Tame(q, view) {
        assert old(NoWild()) ==> old(Tame(q, view));
      }
    }

    /** The end of DeletePrefix: counts and cuts what is at or under the node of `k`. */
    method PruneAt(parent: Node?, n: Node, ghost p: Key, ghost k: Key) returns (count: nat)
      requires Linked() && k in view.at && view.at[k] == n
      requires parent == null <==> k == []
      requires parent != null ==> p in view.at && view.at[p] == parent && p < k
      modifies this`size, this`view, n, parent
      ensures Linked() && view.repr == old(view.repr) && size == old(size) - count
      ensures Contents() == Without(old(Contents()), k)
      ensures count == |KeysUnder(old(Contents()), k)|
      ensures old(NoWild()) ==> NoWild()
      ensures k == [] ==> Compact()
      ensures k != [] ==> !Compact() && Bare(k, view)
    {
      var fn: WalkFn := _ => false;
      var part, _ := RecursiveWalk(n, k, fn, []);
      FinishedCount(Contents(), KeysUnder(Contents(), k), fn, [], part);
      count := |part|;
      CutOff(n, k);
      if parent != null {
        TidyParent(parent, p);
        assert !Lean(k, view);
      }
      size := size - count;
    }

    /** The prefix is used up at the node of `k`, at or below `s`: both name the same stored keys. */
    method DeletePrefixAt(parent: Node?, n: Node, ghost p: Key, ghost k: Key, ghost s: Key) returns (count: nat)
      requires Linked() && k in view.at && view.at[k] == n
      requires parent == null <==> k == []
      requires parent != null ==> p in view.at && view.at[p] == parent && p < k
      requires KeysUnder(Contents(), s) == KeysUnder(Contents(), k) && s <= k && (s == [] ==> k == [])
      modifies this`size, this`view, n, parent
      ensures Linked() && view.repr == old(view.repr) && size == old(size) - count
      ensures Contents() == Without(old(Contents()), s)
      ensures count == |KeysUnder(old(Contents()), s)|
      ensures old(NoWild()) ==> NoWild()
      ensures old(Compact()) ==> (Compact() <==> count == 0 || s == [])
      ensures count > 0 && s != [] ==> exists m :: s <= m && Bare(m, view)
    {
      if k != [] && old(Compact()) {
        ghost var m := CompactHasKey(k);
        assert m in KeysUnder(Contents(), k);
      }
      SameUnder(Contents(), s, k);
      count := PruneAt(parent, n, p, k);
    }

    /** What the descent with `prefix` left to match finds behind one edge. */
    lemma StepInto(k: Key, e: Edge, prefix: Key, s: Key)
      requires Linked() && k in view.at && s == k + prefix && prefix != []
      requires e in view.at[k].edges && e.tag == prefix[0]
      ensures
        var c := k + e.node.prefix;
        && c in view.at && view.at[c] == e.node && k < c && Under(view.shape, c) < Under(view.shape, k)
        && (prefix <= e.node.prefix ==> KeysUnder(Contents(), s) == KeysUnder(Contents(), c) && s <= c && s != [])
        && (e.node.prefix <= prefix ==> s == c + prefix[|e.node.prefix|..])
        && (!(prefix <= e.node.prefix) && !(e.node.prefix <= prefix) ==> KeysUnder(Contents(), s) == {})
    {
      StepTowards(k, prefix, s);
      ChildOf(k, e);
      UnderShrinks(view.shape, k, e.tag);
      NotUnder(k, prefix, e.node.prefix);
      if e.node.prefix <= prefix {
        Advance(k, e.node.prefix, prefix);
      }
    }

    method DeletePrefixFrom(parent: Node?, n: Node, prefix: Key, ghost p: Key, ghost k: Key, ghost s: Key)
      returns (count: nat)
      requires Linked() && k in view.at && view.at[k] == n
      requires parent == null <==> k == []
      requires parent != null ==> p in view.at && view.at[p] == parent && p < k
      requires if prefix == [] then KeysUnder(Contents(), s) == KeysUnder(Contents(), k) && s <= k && (s == [] ==> k == [])
               else s == k + prefix
      modifies this`size, this`view, view.repr
      ensures Linked() && view.repr == old(view.repr) && size == old(size) - count
      ensures Contents() == Without(old(Contents()), s)
      ensures count == |KeysUnder(old(Contents()), s)|
      ensures old(NoWild()) ==> NoWild()
      ensures old(Compact()) ==> (Compact() <==> count == 0 || s == [])
      ensures count > 0 && s != [] ==> exists m :: s <= m && Bare(m, view)
      decreases |prefix|, Under(view.shape, k)
    {
      assert Here(k, view);
      if prefix == [] {
        count := DeletePrefixAt(parent, n, p, k, s);
        return;
      }
      var child := n.GetEdge(prefix[0]);
      if child == null {
        StepTowards(k, prefix, s);
        NoneUnder(Contents(), s);
        return 0;
      }
      StepInto(k, Edge(prefix[0], child), prefix, s);
      if !(prefix <= child.prefix) && !(child.prefix <= prefix) {
        NoneUnder(Contents(), s);
        return 0;
      }
      var rest := if |child.prefix| > |prefix| then prefix[|prefix|..] else prefix[|child.prefix|..];
      count := DeletePrefixFrom(n, child, rest, k, k + child.prefix, s);
    }

    /** Removes every key under a prefix and says how many there were. */
    method DeletePrefix(s: Key) returns (count: nat)
      requires Valid()
      modifies this, view.repr
      ensures Valid() && view.repr == old(view.repr)
      ensures Contents() == Without(old(Contents()), s)
      ensures count == |KeysUnder(old(Contents()), s)|
      ensures old(NoWild()) ==> NoWild()
      ensures old(Compact()) ==> (Compact() <==> count == 0 || s == [])
      ensures count > 0 && s != [] ==> exists k :: s <= k && Bare(k, view)
    {
      WithoutCount(Contents(), s);
      count := DeletePrefixFrom(null, root, s, [], [], s);
    }
  }
}
