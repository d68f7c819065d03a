/** Byte strings as Go sees them: a key is a sequence of bytes (one `char` each), ordered bytewise. */
module Keys {

  type Key = string

  /** Marks a wildcard route. */
  const STAR := '*'

  /** `a` and `b` agree before position `i`. */
  ghost predicate AgreeUpTo(a: Key, b: Key, i: int) {
    0 <= i <= |a| && i <= |b| && forall j | 0 <= j < i :: a[j] == b[j]
  }

  /** ... and `a` holds the smaller byte there. */
  ghost predicate DivergesAt(a: Key, b: Key, i: int) {
    AgreeUpTo(a, b, i) && i < |a| && i < |b| && a[i] < b[i]
  }

  /** The order of Go strings: a proper prefix, or a smaller byte at the first difference. */
  ghost predicate Less(a: Key, b: Key) {
    a < b || exists i :: DivergesAt(a, b, i)
  }

  ghost predicate IsCommonPrefix(a: Key, b: Key, i: int) {
    AgreeUpTo(a, b, i) && (i < |a| && i < |b| ==> a[i] != b[i])
  }

  lemma CommonPrefixExists(a: Key, b: Key) returns (i: int)
    ensures IsCommonPrefix(a, b, i) && IsCommonPrefix(b, a, i)
  {
    i := 0;
    while i < |a| && i < |b| && a[i] == b[i]
      invariant AgreeUpTo(a, b, i)
    {
      i := i + 1;
    }
  }

  /** The order is decided at the first difference. */
  lemma LessDecided(a: Key, b: Key, i: int)
    requires IsCommonPrefix(a, b, i)
    ensures Less(a, b) <==> i < |b| && (i == |a| || a[i] < b[i])
  {
    assert a < b ==> AgreeUpTo(a, b, |a|);
    assert i < |b| && i == |a| ==> a < b;
    assert i < |b| && i < |a| && a[i] < b[i] ==> DivergesAt(a, b, i);
  }

  /** `Less` is a strict total order: exactly one of the three cases holds, and it composes. */
  lemma LessTrichotomy(a: Key, b: Key)
    ensures a == b || Less(a, b) || Less(b, a)
    ensures !(Less(a, b) && Less(b, a)) && !Less(a, a)
  {
    var i := CommonPrefixExists(a, b);
    LessDecided(a, b, i);
    LessDecided(b, a, i);
    LessDecided(a, a, |a|);
  }

  lemma LessTransitive(a: Key, b: Key, c: Key)
    requires Less(a, b) && Less(b, c)
    ensures Less(a, c)
  {
    var i := CommonPrefixExists(a, b);
    var j := CommonPrefixExists(b, c);
    var k := CommonPrefixExists(a, c);
    LessDecided(a, b, i);
    LessDecided(b, c, j);
    LessDecided(a, c, k);
  }

  /** Two extensions of keys that already diverge compare as the divergence does. */
  lemma DivergenceExtends(a: Key, b: Key, x: Key, y: Key, i: int)
    requires DivergesAt(a, b, i) && a <= x && b <= y
    ensures DivergesAt(x, y, i)
  {
  }

  /** Two prefixes of one key are comparable, and continue as the key does. */
  lemma Comparable(a: Key, b: Key, m: Key)
    requires a <= m && b <= m
    ensures a < b || a == b || b < a
    ensures a < b ==> b[|a|] == m[|a|]
    ensures b < a ==> a[|b|] == m[|b|]
  {
    assert a == m[..|a|] && b == m[..|b|];
    if |a| < |b| {
      assert a == b[..|a|];
    } else if |b| < |a| {
      assert b == a[..|b|];
    }
  }

  lemma SplitOff(a: Key, b: Key)
    requires a <= b
    ensures b == a + b[|a|..]
  {
  }

  lemma Extend(a: Key, b: Key)
    ensures a <= a + b && (a + b)[|a|..] == b
    ensures b != [] ==> a < a + b && (a + b)[|a|] == b[0]
  {
  }

  /** `p` followed by a proper part of what leads on to `d` lies strictly between the two. */
  lemma Nest(p: Key, head: Key, rest: Key)
    requires head != [] && head < rest
    ensures p < p + head < p + rest
    ensures (p + rest)[|p|] == head[0] == rest[0] && (p + head)[|p|] == head[0]
    ensures (p + head)[|p|..] == head && (p + rest)[|p + head|..] == rest[|head|..]
    ensures (p + rest)[|p + head|] == rest[|head|]
  {
  }

  /** Where a key that shares `i` bytes with an edge is cut. */
  lemma CutAt(p: Key, search: Key, edge: Key, i: nat)
    requires i <= |search| && i < |edge| && search[..i] == edge[..i]
    ensures search[..i] < edge && edge[|search[..i]|] == edge[i]
    ensures p + search == p + search[..i] + search[i..]
    ensures search[i..] == [] ==> p + search == p + search[..i]
  {
  }

  lemma Advance(k: Key, edge: Key, search: Key)
    requires |edge| <= |search| && search[..|edge|] == edge
    ensures k + search == k + edge + search[|edge|..]
  {
  }

  lemma NotUnder(k: Key, edge: Key, search: Key)
    ensures edge <= search <==> k + edge <= k + search
  {
    if k + edge <= k + search {
      assert (k + edge)[|k|..] == edge && (k + search)[|k|..] == search;
      assert forall i | 0 <= i < |edge| :: edge[i] == (k + edge)[|k| + i] == (k + search)[|k| + i] == search[i];
    }
  }

  lemma Chain(a: Key, b: Key, c: Key)
    requires a <= b <= c
    ensures a <= c
  {
  }
}
