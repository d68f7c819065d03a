/** A node of the radix tree and the operations on its sorted edge slice. */
module RadixNode {
  import opened Options
  import opened Keys

  /** A registered handler; only its identity matters to the tree. */
  datatype Handle = Handle(id: nat)

  datatype LeafNode = LeafNode(key: Key, val: Handle)

  datatype Edge = Edge(tag: char, node: Node)

  ghost predicate SortedEdges(edges: seq<Edge>) {
    forall i, j | 0 <= i < j < |edges| :: edges[i].tag < edges[j].tag
  }

  ghost predicate HasLabel(edges: seq<Edge>, tag: char) {
    exists e :: e in edges && e.tag == tag
  }

  lemma InsertedMembers(edges: seq<Edge>, i: nat, e: Edge)
    requires i <= |edges|
    ensures forall x :: x in edges[..i] + [e] + edges[i..] <==> x in edges || x == e
  {
    assert edges == edges[..i] + edges[i..];
  }

  lemma InsertedSorted(edges: seq<Edge>, i: nat, e: Edge)
    requires SortedEdges(edges) && i <= |edges|
    requires forall j | 0 <= j < i :: edges[j].tag < e.tag
    requires forall j | i <= j < |edges| :: e.tag < edges[j].tag
    ensures SortedEdges(edges[..i] + [e] + edges[i..])
  {
  }

  class Node {
    var leaf: Option<LeafNode>
    var prefix: Key
    var isWild: bool
    var key: Key
    var idx: int
    var edges: seq<Edge>

    /** The whole key that leads here from the root: the prefixes on the way, joined. */
    ghost var path: Key

    constructor (prefix: Key, leaf: Option<LeafNode>, isWild: bool, key: Key, idx: int, ghost path: Key)
      ensures this.prefix == prefix && this.leaf == leaf && this.edges == [] && this.path == path
      ensures this.isWild == isWild && this.key == key && this.idx == idx
    {
      this.prefix, this.leaf, this.edges, this.path := prefix, leaf, [], path;
      this.isWild, this.key, this.idx := isWild, key, idx;
    }

    predicate IsLeaf()
      reads this
    {
      leaf.Some?
    }

    /** Binary search for the first edge whose tag is not below `tag`. */
    method Search(tag: char) returns (at: nat)
      requires SortedEdges(edges)
      ensures at <= |edges|
      ensures forall j | 0 <= j < at :: edges[j].tag < tag
      ensures forall j | at <= j < |edges| :: tag <= edges[j].tag
    {
      var hi := |edges|;
      at := 0;
      while at < hi
        invariant 0 <= at <= hi <= |edges|
        invariant forall j | 0 <= j < at :: edges[j].tag < tag
        invariant forall j | hi <= j < |edges| :: tag <= edges[j].tag
      {
        var mid := (at + hi) / 2;
        if edges[mid].tag < tag {
          at := mid + 1;
        } else {
          hi := mid;
        }
      }
    }

    method GetEdge(tag: char) returns (child: Node?)
      requires SortedEdges(edges)
      ensures child != null ==> Edge(tag, child) in edges
      ensures child == null ==> !HasLabel(edges, tag)
    {
      var i := Search(tag);
      if i < |edges| && edges[i].tag == tag {
        assert edges[i] in edges;
        return edges[i].node;
      }
      return null;
    }

    /** Append, then sort: the sort moves the new edge to its place. */
    method AddEdge(e: Edge)
      requires SortedEdges(edges) && !HasLabel(edges, e.tag)
      modifies this`edges
      ensures SortedEdges(edges)
      ensures forall x :: x in edges <==> x in old(edges) || x == e
      ensures |edges| == |old(edges)| + 1
    {
      var i := Search(e.tag);
      assert forall j | 0 <= j < |edges| :: edges[j] in edges;
      InsertedMembers(edges, i, e);
      InsertedSorted(edges, i, e);
      edges := edges[..i] + [e] + edges[i..];
    }

    /** The source panics when the edge is missing; `ok` is false exactly then. */
    method UpdateEdge(tag: char, node: Node) returns (ok: bool)
      requires SortedEdges(edges)
      modifies this`edges
      ensures ok <==> HasLabel(old(edges), tag)
      ensures !ok ==> edges == old(edges)
      ensures ok ==> SortedEdges(edges) && |edges| == |old(edges)|
      ensures ok ==> forall x :: x in edges <==> (x in old(edges) && x.tag != tag) || x == Edge(tag, node)
    {
      var i := Search(tag);
      if i < |edges| && edges[i].tag == tag {
        assert edges[i] in edges;
        edges := edges[i := Edge(tag, node)];
        ghost var was := old(edges);
        assert edges[i] == Edge(tag, node);
        forall x | x in was && x.tag != tag ensures x in edges {
          var j :| 0 <= j < |was| && was[j] == x;
          assert edges[j] == x;
        }
        return true;
      }
      return false;
    }

    method DelEdge(tag: char)
      requires SortedEdges(edges)
      modifies this`edges
      ensures SortedEdges(edges)
      ensures forall x :: x in edges <==> x in old(edges) && x.tag != tag
      ensures |edges| == |old(edges)| - (if HasLabel(old(edges), tag) then 1 else 0)
    {
      var i := Search(tag);
      if i < |edges| && edges[i].tag == tag {
        ghost var was := edges;
        assert was[i] in was;
        edges := edges[..i] + edges[i + 1..];
        assert was == was[..i] + [was[i]] + was[i + 1..];
      }
    }

    /** Takes over the only child: the prefixes join, its leaf and edges move up. */
    method MergeChild()
      requires |edges| > 0
      modifies this`prefix, this`leaf, this`edges
      ensures prefix == old(prefix + edges[0].node.prefix)
      ensures leaf == old(edges[0].node.leaf)
      ensures edges == old(edges[0].node.edges)
    {
      var child := edges[0].node;
      prefix := prefix + child.prefix;
      leaf := child.leaf;
      edges := child.edges;
    }

    /** Puts a new inner node, named `path`, on this node's edge to `n`, after the bytes `head`. */
    method Cut(n: Node, head: Key, ghost path: Key) returns (child: Node)
      requires n != this && SortedEdges(edges)
      requires head != [] && head < n.prefix && HasLabel(edges, head[0])
      modifies this`edges, n`prefix
      ensures fresh(child) && child.path == path && child.prefix == head && child.leaf == None && !child.isWild
      ensures child.edges == [Edge(old(n.prefix)[|head|], n)]
      ensures n.prefix == old(n.prefix)[|head|..]
      ensures SortedEdges(edges) && |edges| == |old(edges)|
      ensures forall x :: x in edges <==> (x in old(edges) && x.tag != head[0]) || x == Edge(head[0], child)
    {
      child := new Node(head, None, false, [], 0, path);
      var ok := UpdateEdge(head[0], child);
      assert ok;
      child.AddEdge(Edge(n.prefix[|head|], n));
      n.prefix := n.prefix[|head|..];
    }
  }
}
