/** Whole histories: whatever is done to a tree, it answers as a plain map under the same history does. */
module RadixHistory {
  import opened Options
  import opened Keys
  import opened RadixShape
  import opened RadixNode
  import opened RadixLinks
  import opened RadixWalk
  import opened RadixTree

  datatype Op = Put(key: Key, val: Handle) | Drop(key: Key) | DropPrefix(prefix: Key)

  datatype Reply =
    | Replaced(was: Option<Handle>, updated: bool)
    | Deleted(was: Option<Handle>, ok: bool)
    | Cut(count: nat)

  function Lookup(c: map<Key, Handle>, k: Key): Option<Handle> {
    if k in c then Some(c[k]) else None
  }

  /** What an operation does to a plain map. */
  ghost function MapStep(c: map<Key, Handle>, op: Op): map<Key, Handle> {
    match op
    case Put(k, v) => c[k := v]
    case Drop(k) => c - {k}
    case DropPrefix(p) => Without(c, p)
  }

  /** What a plain map answers to it. */
  ghost function MapReply(c: map<Key, Handle>, op: Op): Reply {
    match op
    case Put(k, _) => Replaced(Lookup(c, k), k in c)
    case Drop(k) => Deleted(Lookup(c, k), k in c)
    case DropPrefix(p) => Cut(|KeysUnder(c, p)|)
  }

  ghost function MapRun(c: map<Key, Handle>, ops: seq<Op>): map<Key, Handle> {
    if ops == [] then c else MapStep(MapRun(c, ops[..|ops| - 1]), ops[|ops| - 1])
  }

  ghost function MapReplies(c: map<Key, Handle>, ops: seq<Op>): seq<Reply> {
    if ops == [] then []
    else MapReplies(c, ops[..|ops| - 1]) + [MapReply(MapRun(c, ops[..|ops| - 1]), ops[|ops| - 1])]
  }

  method Apply(t: RouterHandleTree, op: Op) returns (reply: Reply)
    requires t.Valid()
    modifies t, t.view.repr
    ensures t.Valid() && fresh(t.view.repr - old(t.view.repr))
    ensures t.Contents() == MapStep(old(t.Contents()), op)
    ensures reply == MapReply(old(t.Contents()), op)
    ensures old(t.Compact()) && !op.DropPrefix? ==> t.Compact()
    ensures old(t.NoWild()) && (op.Put? ==> STAR !in op.key) ==> t.NoWild()
  {
    match op {
      case Put(k, v) =>
        var was, updated := t.Insert(k, v);
        reply := Replaced(was, updated);
      case Drop(k) =>
        var was, ok := t.Delete(k);
        reply := Deleted(was, ok);
      case DropPrefix(p) =>
        var count := t.DeletePrefix(p);
        reply := Cut(count);
    }
  }

  /** Runs a history on a new tree.  That the tree never panics on a missing edge is part of its methods' proofs. */
  method Replay(ops: seq<Op>) returns (t: RouterHandleTree, replies: seq<Reply>)
    ensures fresh(t) && fresh(t.view.repr) && t.Valid()
    ensures t.Contents() == MapRun(map[], ops) && t.size == |MapRun(map[], ops)|
    ensures replies == MapReplies(map[], ops)
    ensures (forall op | op in ops :: !op.DropPrefix?) ==> t.Compact()
    ensures (forall op | op in ops && op.Put? :: STAR !in op.key) ==> t.NoWild()
  {
    t := new RouterHandleTree();
    replies := [];
    var i := 0;
    while i < |ops|
      invariant 0 <= i <= |ops|
      invariant fresh(t) && fresh(t.view.repr) && t.Valid()
      invariant t.Contents() == MapRun(map[], ops[..i])
      invariant replies == MapReplies(map[], ops[..i])
      invariant (forall op | op in ops :: !op.DropPrefix?) ==> t.Compact()
      invariant (forall op | op in ops && op.Put? :: STAR !in op.key) ==> t.NoWild()
    {
      assert ops[..i + 1][..i] == ops[..i];
      assert ops[i] in ops;
      var reply := Apply(t, ops[i]);
      replies := replies + [reply];
      i := i + 1;
    }
    assert ops[..|ops|] == ops;
  }

  /** A tree built from a map stands for that map; the order in which the map is visited does not matter. */
  method NewFromMap(m: map<Key, Handle>) returns (t: RouterHandleTree)
    ensures fresh(t) && t.Valid() && t.Compact() && t.Contents() == m
  {
    t := new RouterHandleTree();
    var keys := m.Keys;
    while keys != {}
      invariant fresh(t) && fresh(t.view.repr) && t.Valid() && t.Compact() && keys <= m.Keys
      invariant t.Contents() == map k | k in m && k !in keys :: m[k]
      decreases keys
    {
      var k :| k in keys;
      var _, _ := t.Insert(k, m[k]);
      keys := keys - {k};
    }
  }

  /** The least key is really missed after a prefix is cut: the node left behind hides it. */
  method BareNodeHidesMinimum(t: RouterHandleTree, v: Handle) returns (least: Option<LeafNode>)
    requires t.Valid() && t.Contents() == map["a" := v, "b" := v]
    modifies t, t.view.repr
    ensures t.Valid() && t.Contents() == map["b" := v] && least == None
  {
    ghost var ks := KeysUnder(t.Contents(), "a");
    assert "a" in ks;
    assert "a"[0] != "b"[0] && !("a" <= "b");
    assert Without(t.Contents(), "a") == map["b" := v];
    var count := t.DeletePrefix("a");
    ghost var k :| "a" <= k && Bare(k, t.view);
    assert DivergesAt(k, "b", 0);
    least := t.Minimum();
    assert Bare(k, t.view) && forall m | m in t.Contents() :: Less(k, m);
  }

  /** ... and so is the greatest, when the prefix behind it is cut. */
  method BareNodeHidesMaximum(t: RouterHandleTree, v: Handle) returns (greatest: Option<LeafNode>)
    requires t.Valid() && t.Contents() == map["a" := v, "b" := v]
    modifies t, t.view.repr
    ensures t.Valid() && t.Contents() == map["a" := v] && greatest == None
  {
    ghost var ks := KeysUnder(t.Contents(), "b");
    assert "b" in ks;
    assert "a"[0] != "b"[0] && !("b" <= "a");
    assert Without(t.Contents(), "b") == map["a" := v];
    var count := t.DeletePrefix("b");
    ghost var k :| "b" <= k && Bare(k, t.view);
    assert DivergesAt("a", k, 0);
    greatest := t.Maximum();
    assert Bare(k, t.view) && forall m | m in t.Contents() :: Less(m, k);
  }

  /** Alone in a tree, a key with a mark answers for every key that begins as it does and reaches to its mark. */
  method WildcardAnswersForOthers(s: Key, x: Key, v: Handle) returns (t: RouterHandleTree, r: RadixTree.Lookup)
    requires s != [] && STAR in s && x != [] && x[0] == s[0] && FirstMark(s, STAR) <= |x|
    ensures fresh(t) && t.Valid() && t.Contents() == map[s := v]
    ensures r.Found? && r.val == v && r.param.Some? && r.param.value.val == x[FirstMark(s, STAR)..]
    ensures r.param.value.key == s[FirstMark(s, STAR) + 1..]
  {
    t := new RouterHandleTree();
    assert Hook(t.view.shape, [], s);
    var _, _ := t.Insert(s, v);
    assert t.view.shape == AddChild(EMPTY, [], s, true);
    assert WildUnder(t.view.shape, [], x);
    r := t.Get(x);
  }
}
