/** Text as the generated keys and the path templates use it: searching, joining and splitting. */
module Text {
  function Upper(s: string): (r: string)
    ensures |r| == |s|
  {
    seq(|s|, i requires 0 <= i < |s| => if 'a' <= s[i] <= 'z' then s[i] - 32 as char else s[i])
  }

  predicate NoneOf(s: string, chars: string) {
    forall i | 0 <= i < |s| :: s[i] !in chars
  }

  function Lower(s: string): (r: string)
    ensures |r| == |s|
  {
    seq(|s|, i requires 0 <= i < |s| => if 'A' <= s[i] <= 'Z' then s[i] + 32 as char else s[i])
  }

  /** White space as Unicode defines it. */
  predicate IsSpace(c: char) {
    || '\t' <= c <= '\r' || c == ' ' || c == '\U{85}' || c == '\U{A0}' || c == '\U{1680}' || '\U{2000}' <= c <= '\U{200A}'
    || c == '\U{2028}' || c == '\U{2029}' || c == '\U{202F}' || c == '\U{205F}' || c == '\U{3000}'
  }

  predicate Trimmed(s: string) {
    s != "" ==> !IsSpace(s[0]) && !IsSpace(s[|s| - 1])
  }

  /** The text without the white space around it. */
  function Trim(s: string): (r: string)
    ensures |r| <= |s| && Trimmed(r) && (r == s <==> Trimmed(s))
  {
    if s == "" then s
    else if IsSpace(s[0]) then Trim(s[1..])
    else if IsSpace(s[|s| - 1]) then Trim(s[..|s| - 1])
    else s
  }

  /** Trimming takes away white space only. */
  lemma {:induction false} TrimKeeps(s: string, c: char)
    requires !IsSpace(c)
    ensures c in s <==> c in Trim(s)
  {
    if s != "" {
      var last := |s| - 1;
      if IsSpace(s[0]) {
        TrimKeeps(s[1..], c);
        assert s == [s[0]] + s[1..];
      } else if IsSpace(s[last]) {
        TrimKeeps(s[..last], c);
        assert s == s[..last] + [s[last]];
      }
    }
  }

  function Join(sep: char, parts: seq<string>): string {
    if parts == [] then ""
    else if |parts| == 1 then parts[0]
    else parts[0] + [sep] + Join(sep, parts[1..])
  }

  /** The first place of `c`, or the length. */
  function IndexOf(s: string, c: char): (i: nat)
    ensures i <= |s| && (forall j | 0 <= j < i :: s[j] != c) && (i < |s| ==> s[i] == c)
  {
    if s == "" || s[0] == c then 0 else 1 + IndexOf(s[1..], c)
  }

  /** Splitting at every separator. */
  function Split(sep: char, s: string): (parts: seq<string>)
    ensures parts != []
    decreases |s|
  {
    var i := IndexOf(s, sep);
    if i == |s| then [s] else [s[..i]] + Split(sep, s[i + 1..])
  }

  lemma {:induction false} JoinOfSplit(sep: char, s: string)
    ensures Join(sep, Split(sep, s)) == s
    ensures forall p | p in Split(sep, s) :: NoneOf(p, [sep])
    decreases |s|
  {
    var i := IndexOf(s, sep);
    if i < |s| {
      JoinOfSplit(sep, s[i + 1..]);
      assert Split(sep, s)[1..] == Split(sep, s[i + 1..]);
      assert s == s[..i] + [sep] + s[i + 1..];
    }
  }

  /** The first separator is the one put there. */
  lemma CutAtFirst(sep: char, first: string, rest: string)
    requires NoneOf(first, [sep])
    ensures
      var s := first + [sep] + rest;
      IndexOf(s, sep) == |first| && s[..|first|] == first && s[|first| + 1..] == rest
  {
    var s := first + [sep] + rest;
    assert s[|first|] == sep && forall j | 0 <= j < |first| :: s[j] == first[j] && first[j] !in [sep];
  }

  lemma {:induction false} SplitOfJoin(sep: char, parts: seq<string>)
    requires parts != [] && forall p | p in parts :: NoneOf(p, [sep])
    ensures Split(sep, Join(sep, parts)) == parts
  {
    var first, s := parts[0], Join(sep, parts);
    assert NoneOf(first, [sep]);
    if |parts| > 1 {
      SplitOfJoin(sep, parts[1..]);
      CutAtFirst(sep, first, Join(sep, parts[1..]));
      assert parts == [first] + parts[1..];
    }
  }

  function Count(s: string, c: char): nat {
    if s == "" then 0 else (if s[0] == c then 1 else 0) + Count(s[1..], c)
  }

  lemma {:induction false} CountNone(s: string, c: char)
    requires forall i | 0 <= i < |s| :: s[i] != c
    ensures Count(s, c) == 0
  {
    if s != "" {
      CountNone(s[1..], c);
    }
  }

  lemma {:induction false} CountLast(s: string, d: char, c: char)
    ensures Count(s + [d], c) == Count(s, c) + if d == c then 1 else 0
  {
    if s == "" {
      assert s + [d] == [d] && [d][1..] == "";
    } else {
      assert (s + [d])[1..] == s[1..] + [d];
      CountLast(s[1..], d, c);
    }
  }

  lemma {:induction false} CountSome(s: string, c: char)
    ensures Count(s, c) == 0 <==> NoneOf(s, [c])
  {
    if s != "" {
      CountSome(s[1..], c);
      assert s == [s[0]] + s[1..];
      assert NoneOf(s, [c]) <==> s[0] !in [c] && NoneOf(s[1..], [c]) by {
        assert forall i | 0 <= i < |s[1..]| :: s[1..][i] == s[i + 1];
        if s[0] !in [c] && NoneOf(s[1..], [c]) {
          assert forall i | 0 < i < |s| :: s[i] == s[1..][i - 1];
        }
      }
    }
  }

  lemma {:induction false} CountJoined(a: string, b: string, c: char)
    ensures Count(a + b, c) == Count(a, c) + Count(b, c)
  {
    if a == "" {
      assert a + b == b;
    } else {
      assert (a + b)[0] == a[0] && (a + b)[1..] == a[1..] + b;
      CountJoined(a[1..], b, c);
    }
  }

  /** How often `c` occurs in all the parts. */
  function CountAll(parts: seq<string>, c: char): nat {
    if parts == [] then 0 else Count(parts[0], c) + CountAll(parts[1..], c)
  }

  /** A joined text holds the separators of its parts, and one between each two. */
  lemma {:induction false} CountOfJoin(sep: char, parts: seq<string>)
    requires parts != []
    ensures Count(Join(sep, parts), sep) == |parts| - 1 + CountAll(parts, sep)
  {
    if |parts| > 1 {
      var rest := Join(sep, parts[1..]);
      CountOfJoin(sep, parts[1..]);
      CountJoined(parts[0] + [sep], rest, sep);
      CountJoined(parts[0], [sep], sep);
      assert [sep][1..] == "";
    } else {
      assert parts[1..] == [];
    }
  }

  lemma {:induction false} CountAllZero(parts: seq<string>, c: char)
    ensures CountAll(parts, c) == 0 <==> forall p | p in parts :: NoneOf(p, [c])
  {
    if parts != [] {
      CountSome(parts[0], c);
      CountAllZero(parts[1..], c);
      assert parts == [parts[0]] + parts[1..];
    }
  }

  /** Equal joined texts of as many parts: if one side's parts hold no separator, the parts are equal. */
  lemma JoinSettles(sep: char, a: seq<string>, b: seq<string>)
    requires |a| == |b| > 0 && Join(sep, a) == Join(sep, b)
    requires forall p | p in a :: NoneOf(p, [sep])
    ensures a == b
  {
    CountOfJoin(sep, a);
    CountOfJoin(sep, b);
    CountAllZero(a, sep);
    CountAllZero(b, sep);
    SplitOfJoin(sep, a);
    SplitOfJoin(sep, b);
  }

  lemma SplitPlain(sep: char, s: string)
    requires NoneOf(s, [sep])
    ensures Split(sep, s) == [s]
  {
    assert forall i | 0 <= i < |s| :: s[i] !in [sep];
  }

  lemma SplitFirst(sep: char, first: string, rest: string)
    requires NoneOf(first, [sep])
    ensures Split(sep, first + [sep] + rest) == [first] + Split(sep, rest)
  {
    CutAtFirst(sep, first, rest);
  }

  lemma CutFirst(sep: char, s: string) returns (first: string, rest: string)
    requires !NoneOf(s, [sep])
    ensures NoneOf(first, [sep]) && s == first + [sep] + rest && |rest| < |s|
  {
    var i := IndexOf(s, sep);
    assert i < |s| by {
      var j :| 0 <= j < |s| && s[j] in [sep];
    }
    assert s == s[..i] + [s[i]] + s[i + 1..] && forall j | 0 <= j < i :: s[..i][j] == s[j];
    first, rest := s[..i], s[i + 1..];
  }

  lemma RegroupParts(sep: char, a: string, b: string, c: string)
    ensures a + [sep] + (b + [sep] + c) == (a + [sep] + b) + [sep] + c
  {
  }

  lemma FirstApart<T>(x: T, s: seq<T>, t: seq<T>)
    ensures [x] + (s + t) == ([x] + s) + t
  {
  }

  /** Splitting at a separator splits the two sides. */
  lemma {:induction false} SplitApart(sep: char, x: string, y: string)
    ensures Split(sep, x + [sep] + y) == Split(sep, x) + Split(sep, y)
    decreases |x|
  {
    if NoneOf(x, [sep]) {
      SplitPlain(sep, x);
      SplitFirst(sep, x, y);
    } else {
      var first, rest := CutFirst(sep, x);
      SplitFirst(sep, first, rest);
      RegroupParts(sep, first, rest, y);
      SplitFirst(sep, first, rest + [sep] + y);
      SplitApart(sep, rest, y);
      FirstApart(first, Split(sep, rest), Split(sep, y));
    }
  }

  /** Joining two lists of parts joins the two texts. */
  lemma {:induction false} JoinApart(sep: char, a: seq<string>, b: seq<string>)
    requires a != [] && b != []
    ensures Join(sep, a + b) == Join(sep, a) + [sep] + Join(sep, b)
  {
    assert (a + b)[0] == a[0] && (a + b)[1..] == a[1..] + b;
    if |a| == 1 {
      assert a[1..] + b == b;
    } else {
      JoinApart(sep, a[1..], b);
    }
  }
}
