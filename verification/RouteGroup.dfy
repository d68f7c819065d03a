/** How several custom verbs share one path pattern, and which handler a request gets. */
module RouteGroup {
  import opened Text
  import opened PathTemplate

  // ----- the names that stand in for variables -----

  function Digit(d: nat): char
    requires d < 10
  {
    ['0', '1', '2', '3', '4', '5', '6', '7', '8', '9'][d]
  }

  function Decimal(n: nat): (s: string)
    ensures s != "" && forall i | 0 <= i < |s| :: '0' <= s[i] <= '9'
  {
    if n < 10 then [Digit(n)] else Decimal(n / 10) + [Digit(n % 10)]
  }

  lemma {:induction false} DecimalInjective(m: nat, n: nat)
    requires Decimal(m) == Decimal(n)
    ensures m == n
    decreases m
  {
    var s, t := Decimal(m), Decimal(n);
    assert s[|s| - 1] == Digit(m % 10) && t[|t| - 1] == Digit(n % 10);
    assert m % 10 == n % 10;
    assert m >= 10 <==> |s| > 1;
    assert n >= 10 <==> |t| > 1;
    if |s| > 1 {
      assert s[..|s| - 1] == Decimal(m / 10) && t[..|t| - 1] == Decimal(n / 10);
      DecimalInjective(m / 10, n / 10);
    }
  }

  const PREFIX := "__yunka_http_"

  function Synthetic(k: nat): string {
    PREFIX + Decimal(k)
  }

  lemma SyntheticInjective(m: nat, n: nat)
    requires Synthetic(m) == Synthetic(n)
    ensures m == n
  {
    assert Synthetic(m)[|PREFIX|..] == Decimal(m) && Synthetic(n)[|PREFIX|..] == Decimal(n);
    DecimalInjective(m, n);
  }

  lemma SyntheticGood(k: nat)
    ensures GoodName(Synthetic(k))
  {
    var s := Synthetic(k);
    forall i | 0 <= i < |s| ensures s[i] !in "=/*{}" {
      if i >= |PREFIX| {
        assert s[i] == Decimal(k)[i - |PREFIX|];
      } else {
        assert s[i] == PREFIX[i];
      }
    }
  }

  // ----- patterns -----

  datatype Binding = Binding(name: string, synthetic: string, stripVerb: bool)

  predicate FinalVariable(t: Template) {
    t.segments != [] && t.segments[|t.segments| - 1].Variable?
  }

  /** The variables replaced by numbered names, from `k` on. */
  function Renamed(segments: seq<Segment>, k: nat): (r: seq<Segment>)
    ensures |r| == |segments|
    ensures forall i | 0 <= i < |r| :: r[i].Variable? <==> segments[i].Variable?
  {
    if segments == [] then []
    else if segments[0].Variable? then [Variable(Synthetic(k))] + Renamed(segments[1..], k + 1)
    else [segments[0]] + Renamed(segments[1..], k)
  }

  /** What templates must share to be served behind one pattern. */
  function Shape(t: Template): Template {
    Template(Renamed(t.segments, 0), if FinalVariable(t) then "" else t.customVerb)
  }

  function BindingsFrom(segments: seq<Segment>, k: nat, verb: string): seq<Binding> {
    if segments == [] then []
    else if segments[0].Variable? then
      [Binding(segments[0].name, Synthetic(k), verb != "" && |segments| == 1)] + BindingsFrom(segments[1..], k + 1, verb)
    else BindingsFrom(segments[1..], k, verb)
  }

  /** One binding for each variable; the verb is stripped from the last, if it ends the path. */
  lemma {:induction false} BindingsOfVariables(segments: seq<Segment>, k: nat, verb: string)
    ensures
      var b := BindingsFrom(segments, k, verb);
      && |b| == |Variables(segments)|
      && (forall i | 0 <= i < |b| :: b[i].name == Variables(segments)[i] && b[i].synthetic == Synthetic(k + i))
      && (forall i | 0 <= i < |b| :: b[i].stripVerb <==>
            verb != "" && i == |b| - 1 && segments != [] && segments[|segments| - 1].Variable?)
  {
    if segments != [] {
      BindingsOfVariables(segments[1..], if segments[0].Variable? then k + 1 else k, verb);
      if |segments| > 1 && segments[|segments| - 1].Variable? {
        LastIsVariable(segments[1..]);
      }
    }
  }

  lemma {:induction false} LastIsVariable(segments: seq<Segment>)
    requires segments != [] && segments[|segments| - 1].Variable?
    ensures Variables(segments) != []
  {
    if |segments| > 1 {
      LastIsVariable(segments[1..]);
    }
  }

  lemma {:induction false} RenamedGood(segments: seq<Segment>, k: nat)
    requires forall g | g in segments :: GoodSegment(g)
    ensures forall g | g in Renamed(segments, k) :: GoodSegment(g)
    ensures |Variables(Renamed(segments, k))| == |Variables(segments)|
  {
    if segments != [] {
      SyntheticGood(k);
      RenamedGood(segments[1..], if segments[0].Variable? then k + 1 else k);
    }
  }

  /** The variables in front of the segment at `i`. */
  function InFrontOf(segments: seq<Segment>, i: nat): nat
    requires i < |segments|
  {
    if i == 0 then 0 else (if segments[0].Variable? then 1 else 0) + InFrontOf(segments[1..], i - 1)
  }

  lemma RenamedNext(segments: seq<Segment>, k: nat, i: nat)
    requires 0 < i < |segments|
    ensures Renamed(segments, k)[i] == Renamed(segments[1..], if segments[0].Variable? then k + 1 else k)[i - 1]
  {
  }

  /** A variable gets the number of the variables in front of it, and everything else stays as it is. */
  lemma {:induction false} RenamedAt(segments: seq<Segment>, k: nat, i: nat)
    requires i < |segments|
    ensures Renamed(segments, k)[i] == if segments[i].Variable? then Variable(Synthetic(k + InFrontOf(segments, i))) else segments[i]
  {
    if i > 0 {
      var more := if segments[0].Variable? then k + 1 else k;
      RenamedAt(segments[1..], more, i - 1);
      RenamedNext(segments, k, i);
      assert more + InFrontOf(segments[1..], i - 1) == k + InFrontOf(segments, i);
    }
  }

  lemma ShapeBuilt(t: Template)
    requires Built(t)
    ensures Built(Shape(t)) && FinalVariable(Shape(t)) == FinalVariable(t)
    ensures |Variables(Shape(t).segments)| == |Variables(t.segments)|
  {
    RenamedGood(t.segments, 0);
  }

  /** Templates with the same pattern have as many variables, and end alike. */
  lemma SameShape(t: Template, u: Template)
    requires Built(t) && Built(u) && Print(Shape(t)) == Print(Shape(u))
    ensures |Variables(t.segments)| == |Variables(u.segments)| && (FinalVariable(t) <==> FinalVariable(u))
    ensures !FinalVariable(t) ==> t.customVerb == u.customVerb
  {
    ShapeBuilt(t);
    ShapeBuilt(u);
    PrintInjective(Shape(t), Shape(u));
  }

  function PatternParts(segments: seq<Segment>, k: nat): seq<string> {
    if segments == [] then []
    else if segments[0].Variable? then ["{" + Synthetic(k) + "}"] + PatternParts(segments[1..], k + 1)
    else [segments[0].text] + PatternParts(segments[1..], k)
  }

  lemma PrintedFirst(g: Segment, rest: seq<Segment>)
    ensures Printed([g] + rest) == [PrintSegment(g)] + Printed(rest)
  {
  }

  lemma {:induction false} PatternPartsPrinted(segments: seq<Segment>, k: nat)
    ensures PatternParts(segments, k) == Printed(Renamed(segments, k))
  {
    if segments != [] {
      var more := if segments[0].Variable? then k + 1 else k;
      var first := if segments[0].Variable? then Variable(Synthetic(k)) else segments[0];
      PatternPartsPrinted(segments[1..], more);
      PrintedFirst(first, Renamed(segments[1..], more));
    }
  }

  lemma Regroup<T>(a: seq<T>, x: T, b: seq<T>)
    ensures a + ([x] + b) == a + [x] + b
  {
  }

  /** The loop over the segments. */
  method PatternAndBindings(t: Template) returns (parts: seq<string>, bindings: seq<Binding>)
    ensures parts == PatternParts(t.segments, 0) && bindings == BindingsFrom(t.segments, 0, t.customVerb)
  {
    parts, bindings := [], [];
    var variableIndex := 0;
    assert t.segments[0..] == t.segments;
    for index := 0 to |t.segments|
      invariant PatternParts(t.segments, 0) == parts + PatternParts(t.segments[index..], variableIndex)
      invariant BindingsFrom(t.segments, 0, t.customVerb) == bindings + BindingsFrom(t.segments[index..], variableIndex, t.customVerb)
    {
      var current := t.segments[index];
      ghost var rest := t.segments[index + 1..];
      assert t.segments[index..][1..] == rest && t.segments[index..][0] == current && |t.segments[index..]| == |rest| + 1;
      if current.Literal? {
        Regroup(parts, current.text, PatternParts(rest, variableIndex));
        parts := parts + [current.text];
      } else {
        var synthetic := Synthetic(variableIndex);
        var binding := Binding(current.name, synthetic, t.customVerb != "" && index == |t.segments| - 1);
        Regroup(parts, "{" + synthetic + "}", PatternParts(rest, variableIndex + 1));
        Regroup(bindings, binding, BindingsFrom(rest, variableIndex + 1, t.customVerb));
        parts := parts + ["{" + synthetic + "}"];
        bindings := bindings + [binding];
        variableIndex := variableIndex + 1;
      }
    }
  }

  /** The text a template is registered under, its bindings, and whether it has any. */
  method ServeMuxPattern(verb: string, raw: string, t: Template) returns (pattern: string, bindings: seq<Binding>, multiplexed: bool)
    requires raw == Print(t)
    ensures bindings == BindingsFrom(t.segments, 0, t.customVerb)
    ensures multiplexed <==> Variables(t.segments) != []
    ensures pattern == verb + " " + if multiplexed then Print(Shape(t)) else raw
  {
    var finalVariable := FinalVariable(t);
    var parts;
    parts, bindings := PatternAndBindings(t);
    BindingsOfVariables(t.segments, 0, t.customVerb);
    multiplexed := |bindings| > 0;
    var path := PatternPath(t, parts, finalVariable);
    if !multiplexed {
      path := raw;
    }
    pattern := verb + " " + path;
  }

  method PatternPath(t: Template, parts: seq<string>, finalVariable: bool) returns (path: string)
    requires parts == PatternParts(t.segments, 0) && finalVariable == FinalVariable(t)
    ensures path == Print(Shape(t))
  {
    PatternPartsPrinted(t.segments, 0);
    path := "/" + Join('/', parts);
    JoinVerb(path, t.customVerb);
    if t.customVerb != "" && !finalVariable {
      path := path + ":" + t.customVerb;
    }
  }

  lemma JoinVerb(path: string, verb: string)
    ensures verb != "" ==> path + ":" + verb == path + PrintVerb(verb)
    ensures path + PrintVerb("") == path
  {
  }
}
