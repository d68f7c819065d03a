/** Sorting by a comparison, and when the sorted list is canonical. */
module Sorting {

  predicate Unique<T(==)>(s: seq<T>) {
    forall i, j | 0 <= i < j < |s| :: s[i] != s[j]
  }

  lemma CountOfUnique<T>(s: seq<T>, x: T)
    requires Unique(s)
    ensures multiset(s)[x] == if x in s then 1 else 0
  {
    if x in s {
      var i :| 0 <= i < |s| && s[i] == x;
      assert s == s[..i] + [x] + s[i + 1..];
    }
  }

  lemma TwiceCounts<T>(s: seq<T>, i: nat, j: nat)
    requires i < j < |s|
    ensures s[i] == s[j] ==> multiset(s)[s[i]] >= 2
  {
    assert s == s[..i] + [s[i]] + s[i + 1..j] + [s[j]] + s[j + 1..];
  }

  /** Rearranging keeps the elements, and keeps them unique. */
  lemma UniqueInMultiset<T>(s: seq<T>, t: seq<T>)
    requires multiset(s) == multiset(t)
    ensures forall x :: x in s <==> x in t
    ensures Unique(s) ==> Unique(t)
  {
    forall x ensures x in s <==> x in t {
      assert x in multiset(s) <==> x in multiset(t);
    }
    forall i, j | Unique(s) && 0 <= i < j < |t| ensures t[i] != t[j] {
      TwiceCounts(t, i, j);
      CountOfUnique(s, t[i]);
    }
  }

  /** Lists without repetitions that hold the same hold them equally often. */
  lemma SameElements<T>(s: seq<T>, t: seq<T>)
    requires Unique(s) && Unique(t) && forall x :: x in s <==> x in t
    ensures multiset(s) == multiset(t)
  {
    forall x ensures multiset(s)[x] == multiset(t)[x] {
      CountOfUnique(s, x);
      CountOfUnique(t, x);
    }
  }

  /** What a sort needs of its comparison: a strict order whose ties are an equivalence. */
  ghost predicate Comparison<T(!new)>(before: (T, T) -> bool) {
    && (forall x, y | before(x, y) :: !before(y, x))
    && (forall x, y, z | !before(y, x) && !before(z, y) :: !before(z, x))
  }

  predicate InOrder<T>(before: (T, T) -> bool, s: seq<T>) {
    forall i, j | 0 <= i < j < |s| :: !before(s[j], s[i])
  }

  /** The first index whose element is not before `x`, which is where a binary search ends. */
  function Place<T>(before: (T, T) -> bool, s: seq<T>, x: T): (i: nat)
    ensures i <= |s|
    ensures forall j | 0 <= j < i :: before(s[j], x)
    ensures i < |s| ==> !before(s[i], x)
  {
    if s != [] && before(s[0], x) then 1 + Place(before, s[1..], x) else 0
  }

  function InsertBy<T>(before: (T, T) -> bool, s: seq<T>, x: T): (r: seq<T>) {
    s[..Place(before, s, x)] + [x] + s[Place(before, s, x)..]
  }

  lemma InsertByKeeps<T>(before: (T, T) -> bool, s: seq<T>, x: T)
    ensures multiset(InsertBy(before, s, x)) == multiset(s) + multiset{x}
  {
    assert s == s[..Place(before, s, x)] + s[Place(before, s, x)..];
  }

  lemma InsertByInOrder<T(!new)>(before: (T, T) -> bool, s: seq<T>, x: T)
    requires Comparison(before) && InOrder(before, s)
    ensures InOrder(before, InsertBy(before, s, x))
  {
    var i := Place(before, s, x);
    forall j | 0 <= j < |s| ensures if j < i then !before(x, s[j]) else !before(s[j], x) {
      if i < j {
        assert !before(s[i], x) && !before(s[j], s[i]);
      }
    }
  }

  function SortBy<T>(before: (T, T) -> bool, s: seq<T>): (r: seq<T>) {
    if s == [] then [] else InsertBy(before, SortBy(before, s[..|s| - 1]), s[|s| - 1])
  }

  lemma {:induction false} SortBySorts<T(!new)>(before: (T, T) -> bool, s: seq<T>)
    requires Comparison(before)
    ensures InOrder(before, SortBy(before, s)) && multiset(SortBy(before, s)) == multiset(s)
  {
    if s != [] {
      var init := s[..|s| - 1];
      assert s == init + [s[|s| - 1]];
      SortBySorts(before, init);
      InsertByKeeps(before, SortBy(before, init), s[|s| - 1]);
      InsertByInOrder(before, SortBy(before, init), s[|s| - 1]);
    }
  }

  /** How many elements there are of a kind. */
  function CountBy<T>(s: seq<T>, kind: T -> bool): nat {
    if s == [] then 0 else CountBy(s[..|s| - 1], kind) + if kind(s[|s| - 1]) then 1 else 0
  }

  lemma CountByMore<T>(s: seq<T>, x: T, kind: T -> bool)
    ensures CountBy(s + [x], kind) == CountBy(s, kind) + if kind(x) then 1 else 0
  {
    assert (s + [x])[..|s|] == s;
  }

  lemma {:induction false} CountByJoined<T>(s: seq<T>, t: seq<T>, kind: T -> bool)
    ensures CountBy(s + t, kind) == CountBy(s, kind) + CountBy(t, kind)
  {
    if t == [] {
      assert s + t == s;
    } else {
      var init, last := t[..|t| - 1], t[|t| - 1];
      assert s + t == s + init + [last];
      CountByMore(s + init, last, kind);
      CountByJoined(s, init, kind);
    }
  }

  lemma {:induction false} CountByNone<T>(s: seq<T>, kind: T -> bool)
    ensures CountBy(s, kind) == 0 <==> forall x | x in s :: !kind(x)
  {
    if s != [] {
      var init, last := s[..|s| - 1], s[|s| - 1];
      assert s == init + [last];
      CountByNone(init, kind);
    }
  }

  /** Sorting changes no count. */
  lemma {:induction false} CountBySorted<T>(before: (T, T) -> bool, s: seq<T>, kind: T -> bool)
    ensures CountBy(SortBy(before, s), kind) == CountBy(s, kind)
  {
    if s != [] {
      var init, last := s[..|s| - 1], s[|s| - 1];
      CountBySorted(before, init, kind);
      var t := SortBy(before, init);
      var i := Place(before, t, last);
      assert t == t[..i] + t[i..];
      CountByJoined(t[..i], t[i..], kind);
      CountByMore(t[..i], last, kind);
      CountByJoined(t[..i] + [last], t[i..], kind);
    }
  }

  /** More than one of a kind stand at two places. */
  lemma {:induction false} CountByTwice<T>(s: seq<T>, kind: T -> bool)
    ensures CountBy(s, kind) >= 2 <==> exists i, j | 0 <= i < j < |s| :: kind(s[i]) && kind(s[j])
  {
    if s != [] {
      var init, last := s[..|s| - 1], s[|s| - 1];
      CountByTwice(init, kind);
      CountByNone(init, kind);
      if kind(last) && CountBy(init, kind) >= 1 {
        var x :| x in init && kind(x);
        var i :| 0 <= i < |init| && init[i] == x;
        assert kind(s[i]) && kind(s[|init|]);
      }
      if i, j :| 0 <= i < j < |init| && kind(init[i]) && kind(init[j]) {
        assert kind(s[i]) && kind(s[j]);
      }
      if i, j :| 0 <= i < j < |s| && kind(s[i]) && kind(s[j]) {
        assert s[i] == init[i] && init[i] in init;
        assert j < |init| ==> s[j] == init[j];
      }
    }
  }

  /** Two different elements are never tied. */
  ghost predicate Separates<T(!new)>(before: (T, T) -> bool, s: seq<T>) {
    forall x, y | x in s && y in s && !before(x, y) && !before(y, x) :: x == y
  }

  lemma SameHead<T(!new)>(before: (T, T) -> bool, s: seq<T>, t: seq<T>)
    requires InOrder(before, s) && InOrder(before, t) && multiset(s) == multiset(t)
    requires Separates(before, s) && s != [] && t != []
    ensures s[0] == t[0]
  {
    UniqueInMultiset(s, t);
    assert s[0] in s && t[0] in t;
    var i :| 0 <= i < |t| && t[i] == s[0];
    var j :| 0 <= j < |s| && s[j] == t[0];
    if i > 0 && j > 0 {
      assert !before(s[j], s[0]) && !before(t[i], t[0]);
    }
  }

  lemma HeadsAgree<T(!new)>(before: (T, T) -> bool, s: seq<T>, t: seq<T>)
    requires InOrder(before, s) && InOrder(before, t) && multiset(s) == multiset(t)
    requires Separates(before, s) && s != []
    ensures t != [] && s[0] == t[0] && multiset(s[1..]) == multiset(t[1..])
  {
    assert s[0] in multiset(t) && t != [];
    SameHead(before, s, t);
    assert s == [s[0]] + s[1..] && t == [t[0]] + t[1..];
    assert multiset(s[1..]) == multiset(s) - multiset{s[0]};
    assert multiset(t[1..]) == multiset(t) - multiset{t[0]};
  }

  lemma {:induction false} InOrderUnique<T(!new)>(before: (T, T) -> bool, s: seq<T>, t: seq<T>)
    requires InOrder(before, s) && InOrder(before, t) && multiset(s) == multiset(t)
    requires Separates(before, s)
    ensures s == t
  {
    if s == [] {
      assert |multiset(t)| == |t|;
    } else {
      HeadsAgree(before, s, t);
      InOrderUnique(before, s[1..], t[1..]);
      assert s == [s[0]] + s[1..] && t == [t[0]] + t[1..];
    }
  }

  /** Where the comparison separates the elements, sorting forgets how they were listed. */
  lemma SortForgetsOrder<T(!new)>(before: (T, T) -> bool, s: seq<T>, t: seq<T>)
    requires Comparison(before) && multiset(s) == multiset(t) && Separates(before, s)
    ensures SortBy(before, s) == SortBy(before, t)
  {
    SortBySorts(before, s);
    SortBySorts(before, t);
    assert forall x :: x in SortBy(before, s) <==> x in multiset(SortBy(before, s));
    assert forall x :: x in multiset(s) <==> x in s;
    InOrderUnique(before, SortBy(before, s), SortBy(before, t));
  }

  /** A list that is in order already stays as it is. */
  lemma SortedStays<T(!new)>(before: (T, T) -> bool, s: seq<T>)
    requires Comparison(before) && InOrder(before, s) && Separates(before, s)
    ensures SortBy(before, s) == s
  {
    SortBySorts(before, s);
    InOrderUnique(before, s, SortBy(before, s));
  }
}
