/** Names sorted as the compiler sorts them, and why sorted names are canonical. */
module Strings {
  import opened Keys
  import opened Sorting

  /** The order of Go strings, decided byte by byte. */
  predicate Before(a: Key, b: Key) {
    b != "" && (a == "" || a[0] < b[0] || (a[0] == b[0] && Before(a[1..], b[1..])))
  }

  lemma {:induction false} BeforeIsLess(a: Key, b: Key)
    ensures Before(a, b) <==> Less(a, b)
  {
    if a != "" && b != "" && a[0] == b[0] {
      BeforeIsLess(a[1..], b[1..]);
      var i := CommonPrefixExists(a[1..], b[1..]);
      LessDecided(a[1..], b[1..], i);
      assert IsCommonPrefix(a, b, i + 1);
      LessDecided(a, b, i + 1);
    } else {
      LessDecided(a, b, 0);
    }
  }

  lemma NamesCompare()
    ensures Comparison(Before)
    ensures forall a, b | !Before(a, b) && !Before(b, a) :: a == b
  {
    forall a, b ensures Before(a, b) <==> Less(a, b) {
      BeforeIsLess(a, b);
    }
    forall a, b ensures a == b || Less(a, b) || Less(b, a) {
      LessTrichotomy(a, b);
    }
    forall a, b | Less(a, b) ensures !Less(b, a) {
      LessTrichotomy(a, b);
    }
    forall a, b, c | !Less(b, a) && !Less(c, b) ensures !Less(c, a) {
      if Less(c, a) && Less(a, b) {
        LessTransitive(c, a, b);
      }
    }
  }

  /** No name is smaller than one in front of it. */
  ghost predicate Ordered(s: seq<Key>) {
    InOrder(Before, s)
  }

  predicate Has(s: seq<Key>, x: Key) {
    x in s
  }

  function Insert(s: seq<Key>, x: Key): (r: seq<Key>) {
    InsertBy(Before, s, x)
  }

  lemma InsertKeeps(s: seq<Key>, x: Key)
    ensures multiset(Insert(s, x)) == multiset(s) + multiset{x}
    ensures forall y :: Has(Insert(s, x), y) <==> Has(s, y) || y == x
    ensures Ordered(s) ==> Ordered(Insert(s, x))
  {
    NamesCompare();
    InsertByKeeps(Before, s, x);
    SameMembers(multiset(s) + multiset{x}, Insert(s, x));
    if Ordered(s) {
      InsertByInOrder(Before, s, x);
    }
  }

  lemma SameMembers(m: multiset<Key>, s: seq<Key>)
    requires m == multiset(s)
    ensures forall y :: Has(s, y) <==> y in m
  {
  }

  function Sort(values: seq<Key>): (r: seq<Key>) {
    SortBy(Before, values)
  }

  lemma SortSorts(values: seq<Key>)
    ensures Ordered(Sort(values)) && multiset(Sort(values)) == multiset(values)
    ensures forall y :: Has(Sort(values), y) <==> Has(values, y)
  {
    NamesCompare();
    SortBySorts(Before, values);
    SameMembers(multiset(values), Sort(values));
  }

  /** Drops empty names and repetitions, and sorts. */
  function StableStrings(values: seq<Key>): (r: seq<Key>) {
    if values == [] then []
    else
      var rest := StableStrings(values[..|values| - 1]);
      var last := values[|values| - 1];
      if last == "" || last in rest then rest else Insert(rest, last)
  }

  lemma {:induction false} StableHas(values: seq<Key>)
    ensures Ordered(StableStrings(values)) && Unique(StableStrings(values))
    ensures forall y :: Has(StableStrings(values), y) <==> Has(values, y) && y != ""
  {
    if values != [] {
      var init, last := values[..|values| - 1], values[|values| - 1];
      assert values == init + [last];
      StableHas(init);
      InsertKeeps(StableStrings(init), last);
    }
  }

  /** A sorted list without repetitions is determined by its set of names. */
  lemma NamesDetermine(s: seq<Key>, t: seq<Key>)
    requires Ordered(s) && Ordered(t) && Unique(s) && Unique(t)
    requires forall y :: Has(s, y) <==> Has(t, y)
    ensures s == t
  {
    assert forall y :: y in s <==> Has(s, y) && Has(t, y);
    SameElements(s, t);
    NamesCompare();
    InOrderUnique(Before, s, t);
  }

  /** What is stable depends on the set of names only: not on their order, not on repetitions. */
  lemma StableCanonical(a: seq<Key>, b: seq<Key>)
    requires forall y | y != "" :: Has(a, y) <==> Has(b, y)
    ensures StableStrings(a) == StableStrings(b)
  {
    StableHas(a);
    StableHas(b);
    NamesDetermine(StableStrings(a), StableStrings(b));
  }

  /** Stable names stay as they are. */
  lemma StableIdempotent(a: seq<Key>)
    requires Ordered(a) && Unique(a) && !Has(a, "")
    ensures StableStrings(a) == a
  {
    StableHas(a);
    NamesDetermine(StableStrings(a), a);
  }

  lemma StableTwice(s: seq<Key>)
    ensures StableStrings(StableStrings(s)) == StableStrings(s)
  {
    StableHas(s);
    assert !Has(StableStrings(s), "");
    StableIdempotent(StableStrings(s));
  }

  /** A set of names, sorted. */
  method SortedNames(all: set<Key>) returns (names: seq<Key>)
    ensures Ordered(names) && Unique(names)
    ensures forall n :: n in names <==> n in all
  {
    names := [];
    var rest := all;
    while rest != {}
      invariant rest <= all && Ordered(names) && Unique(names)
      invariant forall n :: n in names <==> n in all && n !in rest
    {
      var n :| n in rest;
      rest := rest - {n};
      InsertKeeps(names, n);
      assert forall y :: y in Insert(names, n) <==> Has(Insert(names, n), y);
      names := Insert(names, n);
    }
  }
}
