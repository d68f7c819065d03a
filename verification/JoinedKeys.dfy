/** The keys by which a comparison recognises bindings and names, and when two different ones share a key. */
module JoinedKeys {
  import opened Keys
  import opened Sorting
  import opened Strings
  import opened Text
  import opened Compatibility
  import Composition

  // ----- bindings -----

  /** What a binding says; the verb is read in upper case. */
  function BindingParts(b: HTTPBinding): (r: seq<string>)
    ensures |r| == 4 && BindingKey(b) == Join('|', r)
  {
    [Upper(b.verb), b.path, b.body, b.responseBody]
  }

  predicate SameBinding(b: HTTPBinding, c: HTTPBinding) {
    Upper(b.verb) == Upper(c.verb) && b.path == c.path && b.body == c.body && b.responseBody == c.responseBody
  }

  predicate NoBars(b: HTTPBinding) {
    NoneOf(b.verb, "|") && NoneOf(b.path, "|") && NoneOf(b.body, "|") && NoneOf(b.responseBody, "|")
  }

  lemma UpperBars(s: string)
    ensures NoneOf(Upper(s), "|") <==> NoneOf(s, "|")
  {
    forall i | 0 <= i < |s| ensures Upper(s)[i] in "|" <==> s[i] in "|" {
      assert Upper(s)[i] == if 'a' <= s[i] <= 'z' then s[i] - 32 as char else s[i];
    }
  }

  lemma PartsWithoutBars(b: HTTPBinding)
    ensures NoBars(b) <==> forall p | p in BindingParts(b) :: NoneOf(p, ['|'])
  {
    UpperBars(b.verb);
    var parts := BindingParts(b);
    assert parts[0] in parts && parts[1] in parts && parts[2] in parts && parts[3] in parts;
    assert ['|'] == "|";
  }

  /** A key written out. */
  lemma BindingKeyText(v: string, p: string, b: string, r: string)
    ensures Join('|', [v, p, b, r]) == v + ['|'] + (p + ['|'] + (b + ['|'] + r))
  {
    assert [v, p, b, r][1..] == [p, b, r] && [p, b, r][1..] == [b, r] && [b, r][1..] == [r];
    assert Join('|', [r]) == r;
    assert Join('|', [b, r]) == b + ['|'] + r;
    assert Join('|', [p, b, r]) == p + ['|'] + Join('|', [b, r]);
    assert Join('|', [v, p, b, r]) == v + ['|'] + Join('|', [p, b, r]);
  }

  lemma BarAt(s: string) returns (x: string, y: string)
    requires !NoneOf(s, "|")
    ensures s == x + ['|'] + y
  {
    var i :| 0 <= i < |s| && s[i] in "|";
    x, y := s[..i], s[i + 1..];
  }

  lemma UpperBarAt(s: string) returns (x: string, y: string)
    requires !NoneOf(s, "|")
    ensures Upper(s) == Upper(x) + ['|'] + y
  {
    var i :| 0 <= i < |s| && s[i] in "|";
    x, y := s[..i], Upper(s)[i + 1..];
    assert Upper(s) == Upper(s)[..i] + [Upper(s)[i]] + Upper(s)[i + 1..];
    assert Upper(s)[..i] == Upper(x);
  }

  /** Where a part holds a bar, what follows the bar can be moved into the next part without changing the key. */
  lemma Shifted(b: HTTPBinding) returns (c: HTTPBinding)
    requires !NoBars(b)
    ensures BindingKey(c) == BindingKey(b) && !SameBinding(c, b)
  {
    var v := Upper(b.verb);
    BindingKeyText(v, b.path, b.body, b.responseBody);
    if !NoneOf(b.path, "|") {
      var x, y := BarAt(b.path);
      c := HTTPBinding(b.verb, x, y + ['|'] + b.body, b.responseBody);
      BindingKeyText(v, c.path, c.body, c.responseBody);
      RegroupParts('|', x, y, b.body + ['|'] + b.responseBody);
      RegroupParts('|', y, b.body, b.responseBody);
    } else if !NoneOf(b.body, "|") {
      var x, y := BarAt(b.body);
      c := HTTPBinding(b.verb, b.path, x, y + ['|'] + b.responseBody);
      BindingKeyText(v, c.path, c.body, c.responseBody);
      RegroupParts('|', x, y, b.responseBody);
    } else if !NoneOf(b.responseBody, "|") {
      var x, y := BarAt(b.responseBody);
      c := HTTPBinding(b.verb, b.path, b.body + ['|'] + x, y);
      BindingKeyText(v, c.path, c.body, c.responseBody);
      RegroupParts('|', b.body, x, y);
    } else {
      var x, y := UpperBarAt(b.verb);
      c := HTTPBinding(x, y + ['|'] + b.path, b.body, b.responseBody);
      var rest := b.body + ['|'] + b.responseBody;
      BindingKeyText(Upper(x), c.path, c.body, c.responseBody);
      RegroupParts('|', Upper(x), y, b.path + ['|'] + rest);
      RegroupParts('|', y, b.path, rest);
    }
  }

  lemma KeySettles(b: HTTPBinding, c: HTTPBinding)
    requires NoBars(b) && BindingKey(c) == BindingKey(b)
    ensures SameBinding(c, b)
  {
    PartsWithoutBars(b);
    JoinSettles('|', BindingParts(b), BindingParts(c));
    var p, q := BindingParts(b), BindingParts(c);
    assert p[0] == q[0] && p[1] == q[1] && p[2] == q[2] && p[3] == q[3];
  }

  /** The key tells a binding from every other exactly when none of its parts holds a bar. */
  lemma BindingKeyExactly(b: HTTPBinding)
    ensures NoBars(b) <==> forall c | BindingKey(c) == BindingKey(b) :: SameBinding(c, b)
  {
    if NoBars(b) {
      forall c | BindingKey(c) == BindingKey(b) ensures SameBinding(c, b) {
        KeySettles(b, c);
      }
    } else {
      var c := Shifted(b);
    }
  }

  /** The binding is among the others, whatever the case of its verb. */
  predicate Survives(b: HTTPBinding, n: seq<HTTPBinding>) {
    exists c | c in n :: SameBinding(c, b)
  }

  /** A bar-free binding survives every change without a breaking one. */
  lemma BindingSurvives(o: seq<HTTPBinding>, n: seq<HTTPBinding>, b: HTTPBinding)
    requires BindingsOk(o, n) && b in o && NoBars(b)
    ensures Survives(b, n)
  {
    assert BindingKept(n, b);
    var c :| c in n && BindingKey(c) == BindingKey(b);
    KeySettles(b, c);
  }

  /** ... and no other binding is safe: a bar lets some change pass that loses it. */
  lemma SurvivesExactly(b: HTTPBinding)
    ensures NoBars(b) <==> forall n | BindingsOk([b], n) :: Survives(b, n)
  {
    if NoBars(b) {
      forall n | BindingsOk([b], n) ensures Survives(b, n) {
        BindingSurvives([b], n, b);
      }
    } else {
      var c := Shifted(b);
      assert c in [c] && BindingKept([c], b) && BindingsOk([b], [c]);
      assert !Survives(b, [c]);
    }
  }

  // ----- names -----

  /** The name is among the others once they are trimmed; blanks do not count. */
  predicate Carries(names: seq<string>, x: string) {
    x != "" && exists y | y in names :: Trim(y) == x
  }

  ghost predicate CarrySame(a: seq<string>, b: seq<string>) {
    forall x :: Carries(a, x) <==> Carries(b, x)
  }

  lemma NormalCarries(names: seq<string>)
    ensures Ordered(NormalNames(names)) && Unique(NormalNames(names))
    ensures forall x :: x in NormalNames(names) <==> Carries(names, x)
    ensures forall x | x in NormalNames(names) :: x != "" && Trimmed(x)
  {
    var trimmed := TrimAll(names);
    StableHas(trimmed);
    forall x ensures x in NormalNames(names) <==> Carries(names, x) {
      assert Has(NormalNames(names), x) <==> Has(trimmed, x) && x != "";
      if y :| y in names && Trim(y) == x {
        var i :| 0 <= i < |names| && names[i] == y;
        assert trimmed[i] == x;
      }
      if x in trimmed {
        var i :| 0 <= i < |trimmed| && trimmed[i] == x;
        assert names[i] in names && Trim(names[i]) == x;
      }
    }
  }

  /** Names that are in order already stay as they are. */
  lemma NormalStays(names: seq<string>)
    requires Ordered(names) && Unique(names) && forall x | x in names :: x != "" && Trimmed(x)
    ensures NormalNames(names) == names
  {
    var trimmed := TrimAll(names);
    forall i | 0 <= i < |names| ensures trimmed[i] == names[i] {
      assert names[i] in names;
    }
    assert trimmed == names && !Has(names, "");
    StableIdempotent(names);
  }

  lemma NormalOne(x: string)
    requires x != "" && Trimmed(x)
    ensures NormalNames([x]) == [x]
  {
    NormalStays([x]);
  }

  lemma NormalTwo(x: string, y: string)
    requires x != "" && y != "" && Trimmed(x) && Trimmed(y) && Before(x, y)
    ensures NormalNames([x, y]) == [x, y]
  {
    NamesCompare();
    BeforeIsLess(x, x);
    LessTrichotomy(x, x);
    NormalStays([x, y]);
  }

  lemma JoinEmpty(parts: seq<string>)
    requires forall p | p in parts :: p != ""
    ensures Join(',', parts) == "" <==> parts == []
  {
    if parts != [] {
      assert parts[0] in parts;
    }
  }

  /** Trimmed names joined are trimmed. */
  lemma {:induction false} JoinTrimmed(parts: seq<string>)
    requires forall p | p in parts :: p != "" && Trimmed(p)
    ensures Trimmed(Join(',', parts))
  {
    if parts != [] {
      assert parts[0] in parts;
      if |parts| > 1 {
        assert forall p | p in parts[1..] :: p in parts;
        JoinTrimmed(parts[1..]);
        JoinEmpty(parts[1..]);
        TrimmedAround(parts[0], Join(',', parts[1..]));
      }
    }
  }

  lemma TrimmedAround(x: string, y: string)
    requires x != "" && y != "" && Trimmed(x) && Trimmed(y)
    ensures Trimmed(x + [','] + y)
  {
    var s := x + [','] + y;
    assert s[0] == x[0] && s[|s| - 1] == y[|y| - 1];
  }

  lemma {:induction false} BeforeExtends(a: string, b: string, more: string)
    requires Before(a, b)
    ensures Before(a, b + more)
  {
    if a != "" && a[0] == b[0] {
      assert (b + more)[1..] == b[1..] + more;
      BeforeExtends(a[1..], b[1..], more);
    }
  }

  /** At the comma at `i` the name falls into two names that would be listed in this order. */
  predicate FallsApart(x: string, i: nat) {
    i < |x| && x[i] == ',' && x[..i] != "" && x[i + 1..] != "" && Trimmed(x[..i]) && Trimmed(x[i + 1..]) && Before(x[..i], x[i + 1..])
  }

  /** One name at most, and none that could be two. */
  predicate Unmistakable(names: seq<string>) {
    var s := NormalNames(names);
    |s| <= 1 && forall x, i | x in s && 0 <= i < |x| :: !FallsApart(x, i)
  }

  /** The first of several names and the rest of them are two pieces in order. */
  lemma ManyFallApart(s: seq<string>) returns (i: nat)
    requires |s| >= 2 && Ordered(s) && Unique(s) && forall x | x in s :: x != "" && Trimmed(x)
    ensures FallsApart(Join(',', s), i)
  {
    var u, rest := s[0], s[1..];
    var v := Join(',', rest);
    assert u in s && s[1] in s && forall x | x in rest :: x in s;
    JoinTrimmed(rest);
    JoinEmpty(rest);
    NamesCompare();
    assert !Before(s[1], s[0]) && s[0] != s[1];
    if |rest| > 1 {
      BeforeExtends(u, s[1], [','] + Join(',', rest[1..]));
      assert v == s[1] + ([','] + Join(',', rest[1..]));
    }
    i := |u|;
    CutAt(u, v);
  }

  lemma CutAt(u: string, v: string)
    ensures
      var s := u + [','] + v;
      s[|u|] == ',' && s[..|u|] == u && s[|u| + 1..] == v
  {
  }

  lemma JoinPair(u: string, v: string)
    ensures Join(',', [u, v]) == u + [','] + v
  {
    assert [u, v][1..] == [v];
  }

  /** One name in place of two. */
  lemma TwoForOne(x: string, i: nat) returns (b: seq<string>)
    requires FallsApart(x, i)
    ensures NamesKey(b) == x && !Carries(b, x)
  {
    var u, v := x[..i], x[i + 1..];
    b := [u, v];
    NormalTwo(u, v);
    JoinPair(u, v);
    assert x == u + [','] + v;
    NormalCarries(b);
    assert x !in [u, v];
  }

  /** Another list with the same key, where there is one. */
  lemma Mistaken(names: seq<string>) returns (b: seq<string>)
    requires !Unmistakable(names)
    ensures NamesKey(b) == NamesKey(names) && !CarrySame(names, b)
  {
    var s := NormalNames(names);
    if |s| >= 2 {
      CommaHidesChange(names);
      b := [NamesKey(names)];
    } else {
      var x, i :| x in s && 0 <= i < |x| && FallsApart(x, i);
      assert s == [x];
      b := TwoForOne(x, i);
      NormalCarries(names);
    }
  }

  lemma OneNameKey(names: seq<string>)
    requires |NormalNames(names)| <= 1
    ensures NormalNames(names) == if NamesKey(names) == "" then [] else [NamesKey(names)]
  {
    NormalCarries(names);
    JoinEmpty(NormalNames(names));
  }

  lemma NotTwo(a: seq<string>, b: seq<string>)
    requires Unmistakable(a) && NamesKey(b) == NamesKey(a)
    ensures |NormalNames(b)| <= 1
  {
    OneNameKey(a);
    NormalCarries(b);
    JoinEmpty(NormalNames(b));
    assert NormalNames(a) != [] ==> NamesKey(a) in NormalNames(a);
    if |NormalNames(b)| >= 2 {
      var i := ManyFallApart(NormalNames(b));
    }
  }

  lemma NotMistaken(a: seq<string>, b: seq<string>)
    requires Unmistakable(a) && NamesKey(b) == NamesKey(a)
    ensures CarrySame(a, b)
  {
    NotTwo(a, b);
    OneNameKey(a);
    OneNameKey(b);
    NormalCarries(a);
    NormalCarries(b);
  }

  /** The key tells a list of names from every other exactly when it is one name at most, and not one that could be two. */
  lemma NamesKeyExactly(a: seq<string>)
    ensures Unmistakable(a) <==> forall b | NamesKey(b) == NamesKey(a) :: CarrySame(a, b)
  {
    if Unmistakable(a) {
      forall b | NamesKey(b) == NamesKey(a) ensures CarrySame(a, b) {
        NotMistaken(a, b);
      }
    } else {
      var b := Mistaken(a);
    }
  }

  /** Joined into one name, two or more names keep their key: a comma can hide a change of permissions. */
  lemma CommaHidesChange(names: seq<string>)
    requires |NormalNames(names)| >= 2
    ensures NamesKey([NamesKey(names)]) == NamesKey(names) && !CarrySame(names, [NamesKey(names)])
  {
    var s, key := NormalNames(names), NamesKey(names);
    NormalCarries(names);
    JoinEmpty(s);
    JoinTrimmed(s);
    NormalOne(key);
    NormalCarries([key]);
    assert s[0] in s && Carries(names, s[0]) && s[0] != key;
  }

  predicate NoCommas(names: seq<string>) {
    forall p | p in names :: NoneOf(p, ",")
  }

  /** Between names without commas the key decides. */
  lemma KeyWithoutCommas(a: seq<string>, b: seq<string>)
    requires NamesKey(a) == NamesKey(b) && NoCommas(NormalNames(a)) && NoCommas(NormalNames(b))
    ensures CarrySame(a, b)
  {
    var s, t := NormalNames(a), NormalNames(b);
    NormalCarries(a);
    NormalCarries(b);
    if s == [] || t == [] {
      JoinEmpty(s);
      JoinEmpty(t);
    } else {
      assert forall p :: NoneOf(p, ",") <==> NoneOf(p, [',']);
      SplitOfJoin(',', s);
      SplitOfJoin(',', t);
    }
    assert s == t;
  }

  lemma KeyWithoutComma(x: string)
    requires Composition.PlainKey(x)
    ensures NoneOf(x, ",")
  {
    Composition.EveryKeyChar(x[1..]);
    forall i | 0 <= i < |x| ensures x[i] != ',' {
      assert i > 0 ==> x[i] == x[1..][i - 1] && x[i] in x[1..];
    }
  }

  /** Permissions that pass the linter hold no comma. */
  lemma LintedNames(names: seq<string>)
    requires forall p | p in names :: Composition.ValidPolicyKey(p)
    ensures NoCommas(NormalNames(names))
  {
    NormalCarries(names);
    forall x | x in NormalNames(names) ensures NoneOf(x, ",") {
      var y :| y in names && Trim(y) == x;
      assert Composition.ValidPolicyKey(y);
      KeyWithoutComma(x);
    }
  }

  /** So between linted contracts the key decides. */
  lemma LintedKeyDecides(a: seq<string>, b: seq<string>)
    requires (forall p | p in a :: Composition.ValidPolicyKey(p)) && (forall p | p in b :: Composition.ValidPolicyKey(p))
    ensures NamesKey(a) == NamesKey(b) <==> CarrySame(a, b)
  {
    LintedNames(a);
    LintedNames(b);
    if NamesKey(a) == NamesKey(b) {
      KeyWithoutCommas(a, b);
    }
    if CarrySame(a, b) {
      NormalCarries(a);
      NormalCarries(b);
      NamesDetermine(NormalNames(a), NormalNames(b));
    }
  }
}
