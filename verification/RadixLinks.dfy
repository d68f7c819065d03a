/**
 How the heap of a radix tree agrees with its description, a `View`.  Each edit of the
 tree has a function on views and a lemma: if the touched nodes were changed in this
 way and the others were not, heap and view agree again.
 */
module RadixLinks {
  import opened Options
  import opened Keys
  import opened RadixShape
  import opened RadixNode

  /**
   `contents` is the map the tree stands for, `at` names every node by the whole key that
   leads to it, `shape` says how those keys hang together, `repr` holds every node ever used.
   */
  datatype View = View(shape: Shape, at: map<Key, Node>, contents: map<Key, Handle>, repr: set<Node>)

  function LeafFor(contents: map<Key, Handle>, k: Key): Option<LeafNode> {
    if k in contents then Some(LeafNode(k, contents[k])) else None
  }

  /** A node's edges are exactly its children in the shape, found through the naming. */
  ghost predicate EdgesOk(edges: seq<Edge>, kids: map<char, Key>, at: map<Key, Node>) {
    && SortedEdges(edges)
    && |edges| == |kids|
    && (forall l | l in kids :: kids[l] in at && Edge(l, at[kids[l]]) in edges)
    && (forall e | e in edges :: e.tag in kids && kids[e.tag] in at && e.node == at[kids[e.tag]])
  }

  /** Everything a node says about itself, leaving its edges aside. */
  ghost predicate Body(n: Node, k: Key, up: nat, contents: map<Key, Handle>, isWild: bool)
    reads n
  {
    && n.path == k
    && n.isWild == isWild
    && n.leaf == LeafFor(contents, k)
    && up <= |k|
    && n.prefix == k[up..]
  }

  /** The heap node of `k` is what the view says it is. */
  ghost predicate Here(k: Key, w: View)
    reads if k in w.at then {w.at[k]} else {}
  {
    k in w.at && k in w.shape ==>
      Body(w.at[k], k, w.shape[k].up, w.contents, w.shape[k].wild) && EdgesOk(w.at[k].edges, w.shape[k].kids, w.at)
  }

  ghost predicate Domains(root: Node, w: View) {
    && w.at.Keys == w.shape.Keys
    && w.contents.Keys <= w.at.Keys
    && [] in w.at && w.at[[]] == root
    && w.shape[[]].up == 0
    && (forall k | k in w.at :: w.at[k] in w.repr)
  }

  ghost predicate LinkedAs(root: Node, w: View)
    reads w.repr
  {
    && WF(w.shape)
    && Domains(root, w)
    && (forall k :: Here(k, w))
  }

  lemma EdgesOkLabel(edges: seq<Edge>, kids: map<char, Key>, at: map<Key, Node>, l: char)
    requires EdgesOk(edges, kids, at)
    ensures l in kids <==> HasLabel(edges, l)
  {
    if l in kids {
      assert Edge(l, at[kids[l]]) in edges;
    }
  }

  /** Edges survive any change of the naming that keeps the children. */
  lemma EdgesOkFrame(edges: seq<Edge>, kids: map<char, Key>, a: map<Key, Node>, b: map<Key, Node>)
    requires EdgesOk(edges, kids, a)
    requires forall l | l in kids :: kids[l] in b && b[kids[l]] == a[kids[l]]
    ensures EdgesOk(edges, kids, b)
  {
  }

  lemma EdgesOkAdd(was: seq<Edge>, edges: seq<Edge>, kids: map<char, Key>, at: map<Key, Node>, e: Edge, c: Key)
    requires EdgesOk(was, kids, at) && c in at && at[c] == e.node
    requires SortedEdges(edges) && |edges| == |was| + 1 && !HasLabel(was, e.tag)
    requires forall x :: x in edges <==> x in was || x == e
    ensures e.tag !in kids && EdgesOk(edges, kids[e.tag := c], at)
  {
    EdgesOkLabel(was, kids, at, e.tag);
  }

  lemma EdgesOkReplace(was: seq<Edge>, edges: seq<Edge>, kids: map<char, Key>, at: map<Key, Node>, e: Edge, c: Key)
    requires EdgesOk(was, kids, at) && e.tag in kids && c in at && at[c] == e.node
    requires SortedEdges(edges) && |edges| == |was|
    requires forall x :: x in edges <==> (x in was && x.tag != e.tag) || x == e
    ensures EdgesOk(edges, kids[e.tag := c], at)
  {
    var kids' := kids[e.tag := c];
    assert kids'.Keys == kids.Keys;
    assert |kids'| == |kids'.Keys| == |kids|;
  }

  lemma EdgesOkDrop(was: seq<Edge>, edges: seq<Edge>, kids: map<char, Key>, at: map<Key, Node>, l: char)
    requires EdgesOk(was, kids, at) && l in kids
    requires SortedEdges(edges) && |edges| == |was| - 1
    requires forall x :: x in edges <==> x in was && x.tag != l
    ensures EdgesOk(edges, kids - {l}, at)
  {
    var kids' := kids - {l};
    assert kids'.Keys == kids.Keys - {l};
    assert |kids'| == |kids'.Keys| == |kids| - 1;
  }

  /** The edge to a child stays while the child takes another name. */
  lemma EdgesOkRename(edges: seq<Edge>, kids: map<char, Key>, at: map<Key, Node>, at': map<Key, Node>, l: char, c: Key)
    requires EdgesOk(edges, kids, at) && l in kids && c in at' && at'[c] == at[kids[l]]
    requires forall x | x in kids && x != l :: kids[x] in at' && at'[kids[x]] == at[kids[x]]
    ensures EdgesOk(edges, kids[l := c], at')
  {
    var kids' := kids[l := c];
    assert kids'.Keys == kids.Keys;
    assert |kids'| == |kids'.Keys| == |kids|;
  }

  /** A node is untouched by an edit that keeps its links, its leaf and the names of its children. */
  lemma HereFrame(k: Key, w: View, u: View)
    requires Here(k, w) && k in w.at && k in w.shape
    requires k in u.at && u.at[k] == w.at[k] && k in u.shape && u.shape[k] == w.shape[k]
    requires LeafFor(w.contents, k) == LeafFor(u.contents, k)
    requires forall l | l in w.shape[k].kids && w.shape[k].kids[l] in w.at ::
               w.shape[k].kids[l] in u.at && u.at[w.shape[k].kids[l]] == w.at[w.shape[k].kids[l]]
    ensures Here(k, u)
  {
    EdgesOkFrame(w.at[k].edges, w.shape[k].kids, w.at, u.at);
  }

  /** A node that earns its place: it stores a key or it branches. */
  ghost predicate Lean(k: Key, w: View) {
    k in w.shape && k != [] ==> k in w.contents || |w.shape[k].kids| >= 2
  }

  /** A childless node that stores nothing; only DeletePrefix leaves such nodes. */
  ghost predicate Bare(k: Key, w: View) {
    k in w.shape && k !in w.contents && w.shape[k].kids == map[]
  }

  ghost predicate Tame(k: Key, w: View) {
    k in w.shape ==> !w.shape[k].wild
  }

  /** One map update adds at most one entry, one removal takes at most one. */
  lemma KidsCount(kids: map<char, Key>, l: char, c: Key)
    ensures |kids[l := c]| == |kids| + (if l in kids then 0 else 1)
    ensures |kids - {l}| == |kids| - (if l in kids then 1 else 0)
  {
    var more, less := kids[l := c], kids - {l};
    assert more.Keys == kids.Keys + {l};
    assert less.Keys == kids.Keys - {l};
    assert |more| == |more.Keys| && |less| == |less.Keys|;
  }

  // ----- a value changes -----

  lemma StoreLinked(root: Node, w: View, s: Key, contents: map<Key, Handle>)
    requires WF(w.shape) && Domains(root, w) && contents.Keys <= w.at.Keys
    requires forall k :: k != s ==> Here(k, w)
    requires Here(s, w.(contents := contents))
    requires forall k :: k != s ==> LeafFor(w.contents, k) == LeafFor(contents, k)
    ensures LinkedAs(root, w.(contents := contents))
  {
    var u := w.(contents := contents);
    forall k ensures Here(k, u) {
      if k in w.at && k != s {
        assert Here(k, w);
        HereFrame(k, w, u);
      }
    }
  }

  // ----- a new leaf node under p -----

  function Attached(w: View, p: Key, s: Key, node: Node, v: Handle, isWild: bool): View
    requires p in w.shape && p < s
  {
    View(AddChild(w.shape, p, s, isWild), w.at[s := node], w.contents[s := v], w.repr + {node})
  }

  lemma AttachTouched(w: View, p: Key, s: Key, node: Node, v: Handle, isWild: bool, wasEdges: seq<Edge>)
    requires WF(w.shape) && w.at.Keys == w.shape.Keys && p in w.at && p < s && s !in w.at
    requires EdgesOk(wasEdges, w.shape[p].kids, w.at) && !HasLabel(wasEdges, s[|p|])
    requires SortedEdges(w.at[p].edges) && |w.at[p].edges| == |wasEdges| + 1
    requires forall x :: x in w.at[p].edges <==> x in wasEdges || x == Edge(s[|p|], node)
    requires Body(w.at[p], p, w.shape[p].up, w.contents, w.shape[p].wild)
    requires Body(node, s, |p|, w.contents[s := v], isWild) && node.edges == []
    ensures Here(p, Attached(w, p, s, node, v, isWild)) && Here(s, Attached(w, p, s, node, v, isWild))
  {
    var at := w.at[s := node];
    EdgesOkFrame(wasEdges, w.shape[p].kids, w.at, at);
    EdgesOkAdd(wasEdges, w.at[p].edges, w.shape[p].kids, at, Edge(s[|p|], node), s);
  }

  lemma AttachLinked(root: Node, w: View, p: Key, s: Key, node: Node, v: Handle, isWild: bool)
    requires WF(w.shape) && Domains(root, w)
    requires p in w.at && p < s && s[|p|] !in w.shape[p].kids
    requires forall k :: k != p ==> Here(k, w)
    requires Here(p, Attached(w, p, s, node, v, isWild)) && Here(s, Attached(w, p, s, node, v, isWild))
    ensures s !in w.at && LinkedAs(root, Attached(w, p, s, node, v, isWild))
  {
    AddChildWF(w.shape, p, s, isWild);
    var u := Attached(w, p, s, node, v, isWild);
    forall k ensures Here(k, u) {
      if k in w.at && k != p {
        assert Here(k, w);
        HereFrame(k, w, u);
      }
    }
  }

  lemma AttachLean(w: View, p: Key, s: Key, node: Node, v: Handle, isWild: bool)
    requires p in w.shape && p < s && s !in w.shape && s[|p|] !in w.shape[p].kids
    ensures forall k | Lean(k, w) || (k == p && w.shape[p].kids != map[]) :: Lean(k, Attached(w, p, s, node, v, isWild))
    ensures forall k | Tame(k, w) && (k == s ==> !isWild) :: Tame(k, Attached(w, p, s, node, v, isWild))
  {
    KidsCount(w.shape[p].kids, s[|p|], s);
  }

  // ----- a new inner node c on the edge from p to d -----

  function Divided(w: View, p: Key, c: Key, d: Key, node: Node): View
    requires p in w.shape && d in w.shape && p < c < d
  {
    w.(shape := Split(w.shape, p, c, d), at := w.at[c := node], repr := w.repr + {node})
  }

  lemma SplitAbove(w: View, p: Key, c: Key, d: Key, node: Node, wasEdges: seq<Edge>)
    requires w.at.Keys == w.shape.Keys && p in w.at && d in w.at && p < c < d && c !in w.at
    requires d[|p|] in w.shape[p].kids && w.shape[p].kids[d[|p|]] == d
    requires forall l | l in w.shape[p].kids :: w.shape[p].kids[l] in w.at
    requires EdgesOk(wasEdges, w.shape[p].kids, w.at)
    requires SortedEdges(w.at[p].edges) && |w.at[p].edges| == |wasEdges|
    requires forall x :: x in w.at[p].edges <==> (x in wasEdges && x.tag != c[|p|]) || x == Edge(c[|p|], node)
    requires Body(w.at[p], p, w.shape[p].up, w.contents, w.shape[p].wild)
    ensures Here(p, Divided(w, p, c, d, node))
  {
    var at := w.at[c := node];
    assert c[|p|] == d[|p|];
    EdgesOkFrame(wasEdges, w.shape[p].kids, w.at, at);
    EdgesOkReplace(wasEdges, w.at[p].edges, w.shape[p].kids, at, Edge(c[|p|], node), c);
  }

  lemma SplitBelow(w: View, p: Key, c: Key, d: Key, node: Node)
    requires w.at.Keys == w.shape.Keys && p in w.at && d in w.at && p < c < d && c !in w.at
    requires Body(w.at[d], d, |c|, w.contents, w.shape[d].wild) && EdgesOk(w.at[d].edges, w.shape[d].kids, w.at)
    requires Body(node, c, |p|, w.contents, false) && node.edges == [Edge(d[|c|], w.at[d])]
    ensures Here(c, Divided(w, p, c, d, node))
    ensures Here(d, Divided(w, p, c, d, node))
  {
    EdgesOkFrame(w.at[d].edges, w.shape[d].kids, w.at, w.at[c := node]);
  }

  lemma SplitLinked(root: Node, w: View, p: Key, c: Key, d: Key, node: Node)
    requires WF(w.shape) && Domains(root, w)
    requires p in w.at && p < c < d && d in w.at
    requires d[|p|] in w.shape[p].kids && w.shape[p].kids[d[|p|]] == d
    requires forall k :: k != p && k != d ==> Here(k, w)
    requires Here(p, Divided(w, p, c, d, node))
    requires Here(c, Divided(w, p, c, d, node))
    requires Here(d, Divided(w, p, c, d, node))
    ensures c !in w.at && LinkedAs(root, Divided(w, p, c, d, node))
  {
    SplitWF(w.shape, p, c, d);
    var u := Divided(w, p, c, d, node);
    forall k ensures Here(k, u) {
      if k in w.at && k != p && k != d {
        assert Here(k, w);
        HereFrame(k, w, u);
      }
    }
  }

  lemma SplitLean(w: View, p: Key, c: Key, d: Key, node: Node)
    requires p in w.shape && d in w.shape && p < c < d && c !in w.shape
    requires d[|p|] in w.shape[p].kids
    ensures forall k | k != c && Lean(k, w) :: Lean(k, Divided(w, p, c, d, node))
    ensures forall k | Tame(k, w) :: Tame(k, Divided(w, p, c, d, node))
    ensures var u := Divided(w, p, c, d, node); c in u.shape && u.shape[c].kids != map[]
  {
    assert c[|p|] == d[|p|];
    KidsCount(w.shape[p].kids, c[|p|], c);
    assert d[|c|] in Divided(w, p, c, d, node).shape[c].kids;
  }

  // ----- the childless node c, which stores nothing, is taken from its parent p -----

  function Dropped(w: View, p: Key, c: Key): View
    requires p in w.shape && p < c
  {
    w.(shape := Unlink(w.shape, p, c), at := w.at - {c})
  }

  lemma UnlinkLinked(root: Node, w: View, p: Key, c: Key, wasEdges: seq<Edge>)
    requires WF(w.shape) && Domains(root, w)
    requires p in w.at && p < c && c in w.at && c !in w.contents && w.shape[c].kids == map[]
    requires c[|p|] in w.shape[p].kids && w.shape[p].kids[c[|p|]] == c
    requires forall k :: k != p ==> Here(k, w)
    requires EdgesOk(wasEdges, w.shape[p].kids, w.at)
    requires SortedEdges(w.at[p].edges) && |w.at[p].edges| == |wasEdges| - 1
    requires forall x :: x in w.at[p].edges <==> x in wasEdges && x.tag != c[|p|]
    requires Body(w.at[p], p, w.shape[p].up, w.contents, w.shape[p].wild)
    ensures LinkedAs(root, Dropped(w, p, c))
  {
    UnlinkWF(w.shape, p, c);
    OnlyParent(w.shape, p, c);
    var u := Dropped(w, p, c);
    forall k ensures Here(k, u) {
      if k in u.at && k != p {
        assert Here(k, w);
        HereFrame(k, w, u);
      } else if k == p {
        EdgesOkDrop(wasEdges, w.at[p].edges, w.shape[p].kids, w.at, c[|p|]);
        forall l | l in u.shape[p].kids ensures u.shape[p].kids[l] in u.at {
          assert ChildOk(u.shape, p, l);
        }
        EdgesOkFrame(w.at[p].edges, u.shape[p].kids, w.at, u.at);
      }
    }
  }

  lemma UnlinkLean(w: View, p: Key, c: Key)
    requires p in w.shape && p < c && c[|p|] in w.shape[p].kids
    ensures forall k | k != p && Lean(k, w) :: Lean(k, Dropped(w, p, c))
    ensures forall k | Tame(k, w) :: Tame(k, Dropped(w, p, c))
    ensures Lean(p, w) && (p == [] || p in w.contents || |Dropped(w, p, c).shape[p].kids| != 1) ==> Lean(p, Dropped(w, p, c))
  {
    KidsCount(w.shape[p].kids, c[|p|], c);
  }

  // ----- the node of k absorbs its only child c and stands for c -----

  function Fused(w: View, p: Key, k: Key, c: Key): View
    requires p in w.shape && k in w.shape && c in w.shape && k in w.at && p < k < c
  {
    w.(shape := Fuse(w.shape, p, k, c), at := (w.at - {k})[c := w.at[k]])
  }

  lemma KidsKnown(t: Shape, p: Key)
    requires WF(t) && p in t
    ensures forall l | l in t[p].kids :: t[p].kids[l] in t
  {
    forall l | l in t[p].kids ensures t[p].kids[l] in t {
      assert ChildOk(t, p, l);
    }
  }

  lemma FuseTouched(w: View, p: Key, k: Key, c: Key)
    requires WF(w.shape) && w.at.Keys == w.shape.Keys
    requires p in w.at && k in w.at && c in w.at && p < k < c
    requires k[|p|] in w.shape[p].kids && w.shape[p].kids[k[|p|]] == k
    requires w.shape[k].kids == map[c[|k|] := c]
    requires Here(p, w)
    requires Body(w.at[k], c, |p|, w.contents, w.shape[k].wild) && EdgesOk(w.at[k].edges, w.shape[c].kids, w.at)
    ensures Here(p, Fused(w, p, k, c)) && Here(c, Fused(w, p, k, c))
  {
    FuseWF(w.shape, p, k, c);
    OnlyParent(w.shape, p, k);
    OnlyParent(w.shape, k, c);
    var u := Fused(w, p, k, c);
    KidsKnown(u.shape, p);
    EdgesOkRename(w.at[p].edges, w.shape[p].kids, w.at, u.at, k[|p|], c);
    EdgesOkFrame(w.at[k].edges, w.shape[c].kids, w.at, u.at);
  }

  lemma FuseLinked(root: Node, w: View, p: Key, k: Key, c: Key)
    requires WF(w.shape) && Domains(root, w)
    requires p in w.at && k in w.at && c in w.at && p < k < c && k !in w.contents
    requires k[|p|] in w.shape[p].kids && w.shape[p].kids[k[|p|]] == k
    requires w.shape[k].kids == map[c[|k|] := c]
    requires forall q :: q != k && q != c ==> Here(q, w)
    requires Here(p, Fused(w, p, k, c)) && Here(c, Fused(w, p, k, c))
    ensures LinkedAs(root, Fused(w, p, k, c))
  {
    FuseWF(w.shape, p, k, c);
    OnlyParent(w.shape, p, k);
    OnlyParent(w.shape, k, c);
    var u := Fused(w, p, k, c);
    forall q ensures Here(q, u) {
      if q in u.at && q != p && q != c {
        assert Here(q, w);
        HereFrame(q, w, u);
      }
    }
  }

  lemma FuseLean(w: View, p: Key, k: Key, c: Key)
    requires p in w.shape && k in w.shape && c in w.shape && k in w.at && p < k < c
    requires k[|p|] in w.shape[p].kids
    ensures forall q | q != k && Lean(q, w) :: Lean(q, Fused(w, p, k, c))
    ensures Lean(k, Fused(w, p, k, c))
    ensures forall q | Tame(q, w) && Tame(k, w) :: Tame(q, Fused(w, p, k, c))
    ensures forall q | Bare(q, w) && w.shape[k].kids != map[] :: Bare(q, Fused(w, p, k, c))
  {
    KidsCount(w.shape[p].kids, k[|p|], c);
  }

  // ----- everything at or under c goes; the emptied node of c itself stays -----

  function Pruned(w: View, c: Key): View
    requires c in w.shape
  {
    w.(shape := Prune(w.shape, c),
       at := map k | k in w.at && !(c < k) :: w.at[k],
       contents := map k | k in w.contents && !(c <= k) :: w.contents[k])
  }

  lemma PruneLinked(root: Node, w: View, c: Key)
    requires WF(w.shape) && Domains(root, w)
    requires c in w.at && w.at[c].path == c && w.at[c].leaf == None && w.at[c].edges == []
    requires w.at[c].isWild == w.shape[c].wild
    requires w.shape[c].up <= |c| && w.at[c].prefix == c[w.shape[c].up..]
    requires forall k :: k != c ==> Here(k, w)
    ensures LinkedAs(root, Pruned(w, c))
  {
    PruneWF(w.shape, c);
    var u := Pruned(w, c);
    assert c !in u.contents;
    forall k ensures Here(k, u) {
      if k in u.at && k != c {
        forall l | l in u.shape[k].kids ensures u.shape[k].kids[l] in u.at {
          assert ChildOk(u.shape, k, l);
        }
        assert c <= k ==> c == k || c < k;
        assert Here(k, w);
        HereFrame(k, w, u);
      }
    }
  }
}
