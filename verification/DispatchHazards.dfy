/**
 The condition on variable names is exact: whenever a name captures the stand-in of another
 variable, some request is served wrongly after some order of registration.
 */
module DispatchHazards {
  import opened Options
  import opened Text
  import opened RouteGroup
  import opened Dispatch

  /** Binding `j` read `text`: what an earlier binding wrote there, or what the request held. */
  ghost predicate ReadFrom(bindings: seq<Binding>, bound: seq<string>, values: Values, j: nat, text: string)
    requires j < |bindings| && j < |bound|
  {
    || (text == PathValue(values, bindings[j].synthetic) && forall i | 0 <= i < j :: bindings[i].name != bindings[j].synthetic)
    || (exists i | 0 <= i < j :: bindings[i].name == bindings[j].synthetic && text == bound[i])
  }

  lemma ReadFromBehind(b: Binding, v: string, bindings: seq<Binding>, bound: seq<string>, values: Values, j: nat, text: string)
    requires j < |bindings| && j < |bound| && ReadFrom(bindings, bound, values[b.name := v], j, text)
    ensures ReadFrom([b] + bindings, [v] + bound, values, j + 1, text)
  {
    var more, all := [b] + bindings, [v] + bound;
    assert forall i | 0 < i <= j + 1 :: more[i] == bindings[i - 1] && all[i] == bound[i - 1];
    if i :| 0 <= i < j && bindings[i].name == bindings[j].synthetic && text == bound[i] {
      assert more[i + 1].name == more[j + 1].synthetic && text == all[i + 1];
    } else if b.name == bindings[j].synthetic {
      assert more[0].name == more[j + 1].synthetic && text == all[0];
    }
  }

  ghost predicate ReadBy(bindings: seq<Binding>, verb: string, values: Values, j: nat, text: string)
    requires j < |bindings|
  {
    var bound := Bind(bindings, verb, values).bound;
    j < |bound| && Own(bindings[j], verb, text) == Some(bound[j]) && ReadFrom(bindings, bound, values, j, text)
  }

  lemma {:induction false} ReadAt(bindings: seq<Binding>, verb: string, values: Values, j: nat) returns (text: string)
    requires j < |bindings| && j < |Bind(bindings, verb, values).bound|
    ensures ReadBy(bindings, verb, values, j, text)
  {
    var b := bindings[0];
    var bound := Bind(bindings, verb, values).bound;
    if j == 0 {
      text := PathValue(values, b.synthetic);
    } else {
      var more := values[b.name := bound[0]];
      text := ReadAt(bindings[1..], verb, more, j - 1);
      ReadFromBehind(b, bound[0], bindings[1..], bound[1..], values, j - 1, text);
      assert [b] + bindings[1..] == bindings && [bound[0]] + bound[1..] == bound;
    }
  }

  /** What a name holds in the end: what the last binding of that name wrote. */
  lemma {:induction false} LastWrite(bindings: seq<Binding>, verb: string, values: Values, name: string, i: nat) returns (k: nat)
    requires i < |Bind(bindings, verb, values).bound| <= |bindings| && bindings[i].name == name
    ensures i <= k < |Bind(bindings, verb, values).bound| && bindings[k].name == name
    ensures PathValue(Bind(bindings, verb, values).values, name) == Bind(bindings, verb, values).bound[k]
  {
    var b := bindings[0];
    var a := Bind(bindings, verb, values);
    var more := values[b.name := a.bound[0]];
    var rest := Bind(bindings[1..], verb, more);
    assert rest.bound == a.bound[1..] && rest.values == a.values;
    if j :| 0 < j < |a.bound| && i <= j && bindings[j].name == name {
      k := LastWrite(bindings[1..], verb, more, name, j - 1);
      k := k + 1;
    } else {
      Unwritten(bindings[1..], verb, more, name);
      k := 0;
    }
  }

  lemma {:induction false} Unwritten(bindings: seq<Binding>, verb: string, values: Values, name: string)
    ensures |Bind(bindings, verb, values).bound| <= |bindings|
    ensures (forall i | 0 <= i < |Bind(bindings, verb, values).bound| :: bindings[i].name != name) ==>
              PathValue(Bind(bindings, verb, values).values, name) == PathValue(values, name)
  {
    if bindings != [] {
      var own := Own(bindings[0], verb, PathValue(values, bindings[0].synthetic));
      if own.Some? {
        Unwritten(bindings[1..], verb, values[bindings[0].name := own.value], name);
      }
    }
  }

  // ----- a request that tells the variables apart -----

  /** `k + 1` marks. */
  function Marks(k: nat): (s: string)
    ensures |s| == k + 1 && NoneOf(s, ":")
  {
    seq(k + 1, _ => 'x')
  }

  /** A different text in each place; the last one ends in the verb of `target`, if it strips one. */
  function TellingAt(n: nat, target: Route, k: nat): string {
    if k == n - 1 && Selective(target) then Marks(k) + (":" + target.customVerb) else Marks(k)
  }

  function Telling(n: nat, target: Route, m: nat): Values {
    if m == 0 then map[] else Telling(n, target, m - 1)[Synthetic(m - 1) := TellingAt(n, target, m - 1)]
  }

  lemma {:induction false} TellingTexts(n: nat, target: Route, m: nat, k: nat)
    requires k < m
    ensures TextAt(Telling(n, target, m), k) == TellingAt(n, target, k)
  {
    if k < m - 1 {
      if Synthetic(k) == Synthetic(m - 1) {
        SyntheticInjective(k, m - 1);
      }
      TellingTexts(n, target, m - 1, k);
    }
  }

  lemma EndHasColon(text: string, verb: string)
    requires EndsWith(text, ":" + verb)
    ensures text[|text| - |verb| - 1] == ':'
  {
    assert text[|text| - |verb| - 1..][0] == ':';
  }

  lemma NoVerbInMarks(k: nat, verb: string)
    ensures !EndsWith(Marks(k), ":" + verb)
  {
    if EndsWith(Marks(k), ":" + verb) {
      EndHasColon(Marks(k), verb);
    }
  }

  lemma MarksDiffer(k: nat, m: nat)
    ensures Marks(k) == Marks(m) <==> k == m
  {
    assert |Marks(k)| == k + 1 && |Marks(m)| == m + 1;
  }

  /** The target makes the marks of each text. */
  lemma OwnMarks(target: Route, n: nat, final: bool, k: nat)
    requires Shaped(target, n, final) && k < n
    ensures Own(target.bindings[k], target.customVerb, TellingAt(n, target, k)) == Some(Marks(k))
  {
    var text, end := TellingAt(n, target, k), ":" + target.customVerb;
    if k == n - 1 && Selective(target) {
      assert text[|text| - |end|..] == end && text[..|text| - |end|] == Marks(k);
    }
  }

  /** The telling request belongs to its target. */
  lemma TargetWins(routes: seq<Route>, n: nat, final: bool, target: Route)
    requires Uniform(routes, n, final) && target in routes && n >= 1
    ensures Wins(routes, TextAt(Telling(n, target, n), n - 1), target)
  {
    TellingTexts(n, target, n, n - 1);
    OwnMarks(target, n, final, n - 1);
    forall q | !Selective(target) && q in routes && Selective(q) ensures !Matches(q, Marks(n - 1)) {
      NoVerbInMarks(n - 1, q.customVerb);
    }
  }

  /** Being served faithfully, the telling request gets the marks in order. */
  lemma FaithfulMarks(routes: seq<Route>, n: nat, final: bool, target: Route)
    requires Uniform(routes, n, final) && target in routes && n >= 1 && Faithful(routes, n, Telling(n, target, n))
    ensures
      var o := Serve(routes, Telling(n, target, n));
      o.Served? && o.route == target && |o.bound| == n && forall k | 0 <= k < n :: o.bound[k] == Marks(k)
  {
    var values := Telling(n, target, n);
    var o := Serve(routes, values);
    TargetWins(routes, n, final, target);
    if o.Served? {
      WinnerUnique(routes, n, final, TextAt(values, n - 1), o.route, target);
      forall k | 0 <= k < n ensures o.bound[k] == Marks(k) {
        TellingTexts(n, target, n, k);
        OwnMarks(target, n, final, k);
      }
    }
  }

  /** A serving route was applied to the request as the routes before it had left it. */
  lemma {:induction false} ServedBy(routes: seq<Route>, values: Values) returns (held: Values)
    requires Serve(routes, values).Served?
    ensures
      var o := Serve(routes, values);
      var a := Bind(o.route.bindings, o.route.customVerb, held);
      o.route in routes && a.ok && a.bound == o.bound && a.values == o.values
  {
    var a := Bind(routes[0].bindings, routes[0].customVerb, values);
    if a.ok {
      held := values;
    } else {
      held := ServedBy(routes[1..], a.values);
    }
  }

  /** A route with a captured name never binds the marks in order, whatever the request holds. */
  lemma CapturedIsWrong(r: Route, n: nat, final: bool, held: Values)
    requires Shaped(r, n, final) && Captures(r)
    requires |Bind(r.bindings, r.customVerb, held).bound| == n
    ensures exists k | 0 <= k < n :: Bind(r.bindings, r.customVerb, held).bound[k] != Marks(k)
  {
    var bound := Bind(r.bindings, r.customVerb, held).bound;
    var i, j :| 0 <= i < j < n && r.bindings[i].name == Synthetic(j);
    var text := ReadAt(r.bindings, r.customVerb, held, j);
    assert r.bindings[j].synthetic == Synthetic(j);
    var m :| 0 <= m < j && r.bindings[m].name == r.bindings[j].synthetic && text == bound[m];
    NoVerbInMarks(m, r.customVerb);
    MarksDiffer(m, j);
    assert bound[m] != Marks(m) || bound[j] != Marks(j);
  }

  lemma CaptureShows(routes: seq<Route>, n: nat, final: bool, r: Route)
    requires Uniform(routes, n, final) && r in routes && Captures(r) && n >= 1
    ensures !Faithful(routes, n, Telling(n, r, n))
  {
    if Faithful(routes, n, Telling(n, r, n)) {
      FaithfulMarks(routes, n, final, r);
      var held := ServedBy(routes, Telling(n, r, n));
      CapturedIsWrong(r, n, final, held);
    }
  }

  // ----- reordering -----

  /** The routes but two, in their order. */
  function Others(routes: seq<Route>, q: Route, r: Route): seq<Route> {
    if routes == [] then []
    else (if routes[0] == q || routes[0] == r then [] else [routes[0]]) + Others(routes[1..], q, r)
  }

  lemma {:induction false} OthersUniform(routes: seq<Route>, q: Route, r: Route, n: nat, final: bool)
    requires Uniform(routes, n, final)
    ensures Uniform(Others(routes, q, r), n, final)
    ensures forall x :: x in Others(routes, q, r) <==> x in routes && x != q && x != r
  {
    if routes != [] {
      UniformTail(routes, n, final);
      OthersUniform(routes[1..], q, r, n, final);
      assert routes == [routes[0]] + routes[1..];
      var rest := Others(routes[1..], q, r);
      forall x | x in rest ensures x.customVerb != routes[0].customVerb {
        var i :| 0 <= i < |routes[1..]| && routes[1..][i] == x;
        assert routes[i + 1] == x;
      }
    }
  }

  lemma {:induction false} OthersCount(routes: seq<Route>, q: Route, r: Route, x: Route)
    ensures multiset(Others(routes, q, r))[x] == if x == q || x == r then 0 else multiset(routes)[x]
  {
    if routes != [] {
      OthersCount(routes[1..], q, r, x);
      assert routes == [routes[0]] + routes[1..];
    }
  }

  lemma CountedOnce(routes: seq<Route>, n: nat, final: bool, x: Route)
    requires Uniform(routes, n, final) && x in routes
    ensures multiset(routes)[x] == 1
  {
    var i :| 0 <= i < |routes| && routes[i] == x;
    assert routes == routes[..i] + [x] + routes[i + 1..];
    assert x !in routes[..i] && x !in routes[i + 1..];
  }

  /** The same routes, as they stand after some other order of registration. */
  ghost predicate Reorders(p: seq<Route>, routes: seq<Route>, n: nat, final: bool) {
    multiset(p) == multiset(routes) && Uniform(p, n, final)
  }

  lemma HasMember(routes: seq<Route>)
    ensures routes != [] ==> exists x :: x in routes
  {
    if routes != [] {
      assert routes[0] in routes;
    }
  }

  lemma VerbsDiffer(routes: seq<Route>, n: nat, final: bool, x: Route, y: Route)
    requires Uniform(routes, n, final) && x in routes && y in routes && x != y
    ensures x.customVerb != y.customVerb
  {
    var i :| 0 <= i < |routes| && routes[i] == x;
    var j :| 0 <= j < |routes| && routes[j] == y;
  }

  lemma FrontUniform(routes: seq<Route>, n: nat, final: bool, q: Route, r: Route)
    requires Uniform(routes, n, final) && q in routes && r in routes && q != r
    requires q.customVerb != "" && (r.customVerb == "" ==> forall x | x in routes && x != q :: x.customVerb == "")
    ensures Uniform([q, r] + Others(routes, q, r), n, final)
  {
    OthersUniform(routes, q, r, n, final);
    var rest := Others(routes, q, r);
    OthersDiffer(routes, n, final, q, r);
    HasMember(rest);
    UniformCons(r, rest, n, final);
    UniformCons(q, [r] + rest, n, final);
    assert [q] + ([r] + rest) == [q, r] + rest;
  }

  lemma OthersDiffer(routes: seq<Route>, n: nat, final: bool, q: Route, r: Route)
    requires Uniform(routes, n, final) && q in routes && r in routes && q != r
    ensures final && q.customVerb != r.customVerb
    ensures forall x | x in Others(routes, q, r) :: x.customVerb != q.customVerb && x.customVerb != r.customVerb
  {
    OthersUniform(routes, q, r, n, final);
    VerbsDiffer(routes, n, final, q, r);
    forall x | x in Others(routes, q, r) ensures x.customVerb != q.customVerb && x.customVerb != r.customVerb {
      VerbsDiffer(routes, n, final, x, q);
      VerbsDiffer(routes, n, final, x, r);
    }
  }

  lemma UniformCons(x: Route, rest: seq<Route>, n: nat, final: bool)
    requires Shaped(x, n, final) && Uniform(rest, n, final)
    requires rest != [] ==> final && x.customVerb != ""
    requires forall y | y in rest :: y.customVerb != x.customVerb
    ensures Uniform([x] + rest, n, final)
  {
  }

  /** Two routes moved to the front, the selective one first. */
  lemma MoveToFront(routes: seq<Route>, n: nat, final: bool, q: Route, r: Route)
    requires Uniform(routes, n, final) && q in routes && r in routes && q != r
    requires q.customVerb != "" && (r.customVerb == "" ==> forall x | x in routes && x != q :: x.customVerb == "")
    ensures Reorders([q, r] + Others(routes, q, r), routes, n, final)
  {
    FrontUniform(routes, n, final, q, r);
    var rest := Others(routes, q, r);
    var p := [q, r] + rest;
    CountedOnce(routes, n, final, q);
    CountedOnce(routes, n, final, r);
    assert multiset(p) == multiset{q} + multiset{r} + multiset(rest);
    forall x ensures multiset(p)[x] == multiset(routes)[x] {
      OthersCount(routes, q, r, x);
    }
  }

  /** In vain, a disturbing route leaves the mark of a later variable in the place of an earlier one. */
  lemma DisturbanceStays(q: Route, n: nat, target: Route, i: nat, j: nat)
    requires Shaped(q, n, true) && Shaped(target, n, true) && !Captures(q) && q.customVerb != "" && target.customVerb != q.customVerb
    requires j < i < n - 1 && q.bindings[i].name == Synthetic(j)
    ensures
      var a := Bind(q.bindings, q.customVerb, Telling(n, target, n));
      !a.ok && exists k :: i <= k && TextAt(a.values, j) == Marks(k)
  {
    var values := Telling(n, target, n);
    RouteAlone(q, n, true, values);
    TellingTexts(n, target, n, n - 1);
    NotItsVerb(q, n, target);
    var a := Bind(q.bindings, q.customVerb, values);
    forall x, y | 0 <= x < y < n ensures q.bindings[x].name != q.bindings[y].synthetic {
      assert q.bindings[y].synthetic == Synthetic(y);
    }
    BindReadsOwn(q.bindings, q.customVerb, values);
    assert |a.bound| == n - 1;
    var k := LastWrite(q.bindings, q.customVerb, values, Synthetic(j), i);
    TellingTexts(n, target, n, k);
    assert q.bindings[k].synthetic == Synthetic(k) && a.bound[k] == Marks(k);
  }

  lemma NotItsVerb(q: Route, n: nat, target: Route)
    requires Shaped(q, n, true) && Shaped(target, n, true) && q.customVerb != "" && target.customVerb != q.customVerb
    ensures !Matches(q, TellingAt(n, target, n - 1))
  {
    NoVerbInMarks(n - 1, q.customVerb);
    OwnMarks(target, n, true, n - 1);
    if Selective(target) && Matches(q, TellingAt(n, target, n - 1)) {
      AtMostOneVerb(q, target, n, TellingAt(n, target, n - 1));
    }
  }

  lemma SkipFirst(q: Route, r: Route, rest: seq<Route>, values: Values)
    ensures ([q, r] + rest)[1..] == [r] + rest
    ensures
      var a := Bind(q.bindings, q.customVerb, values);
      !a.ok ==> Serve([q, r] + rest, values) == Serve([r] + rest, a.values)
  {
    assert ([q, r] + rest)[1..] == [r] + rest;
  }

  lemma DisturbanceShows(routes: seq<Route>, n: nat, final: bool, q: Route, r: Route)
    requires Uniform(routes, n, final) && q in routes && r in routes && q != r && Disturbs(q)
    requires forall x | x in routes :: !Captures(x)
    requires r.customVerb == "" ==> forall x | x in routes && x != q :: x.customVerb == ""
    ensures
      var p := [q, r] + Others(routes, q, r);
      Reorders(p, routes, n, final) && !Faithful(p, n, Telling(n, r, n))
  {
    assert final && q.customVerb != "";
    var p, values := [q, r] + Others(routes, q, r), Telling(n, r, n);
    MoveToFront(routes, n, final, q, r);
    var i, j :| 0 <= i < n - 1 && 0 <= j < n && i != j && q.bindings[i].name == Synthetic(j);
    VerbsDiffer(routes, n, final, q, r);
    DisturbanceStays(q, n, r, i, j);
    var left := Bind(q.bindings, q.customVerb, values).values;
    SkipFirst(q, r, Others(routes, q, r), values);
    var k :| i <= k && TextAt(left, j) == Marks(k);
    MarksDiffer(k, j);
    if Faithful(p, n, values) {
      FaithfulMarks(p, n, final, r);
      UniformTail(p, n, final);
      SecondServes([r] + Others(routes, q, r), n, final, left, r);
      ReadsWhatIsLeft(r, n, left, j);
    }
  }

  /** If the first route serves, it was applied to the request as it stood. */
  lemma SecondServes(routes: seq<Route>, n: nat, final: bool, held: Values, r: Route)
    requires Uniform(routes, n, final) && routes != [] && routes[0] == r
    requires Serve(routes, held).Served? && Serve(routes, held).route == r
    ensures Bind(r.bindings, r.customVerb, held).ok && Serve(routes, held).bound == Bind(r.bindings, r.customVerb, held).bound
  {
    var a := Bind(r.bindings, r.customVerb, held);
    forall i | 0 <= i < |routes[1..]| ensures routes[1..][i] != r {
      assert routes[i + 1] == routes[1..][i];
    }
    if !a.ok {
      var more := ServedBy(routes[1..], a.values);
    }
  }

  lemma ReadsWhatIsLeft(r: Route, n: nat, held: Values, j: nat)
    requires Shaped(r, n, true) && !Captures(r) && j < n - 1 && Bind(r.bindings, r.customVerb, held).ok
    requires |Bind(r.bindings, r.customVerb, held).bound| == n
    ensures Bind(r.bindings, r.customVerb, held).bound[j] == TextAt(held, j)
  {
    var text := ReadAt(r.bindings, r.customVerb, held, j);
    assert r.bindings[j].synthetic == Synthetic(j);
  }

  /** Every request is served faithfully, in whatever order the routes were registered. */
  ghost predicate OrderFree(routes: seq<Route>, n: nat, final: bool)
    requires n >= 1
  {
    forall p, values | Reorders(p, routes, n, final) :: Faithful(p, n, values)
  }

  lemma ReorderKeepsHazards(p: seq<Route>, routes: seq<Route>)
    requires multiset(p) == multiset(routes)
    ensures NoHazard(p) <==> NoHazard(routes)
  {
    forall r ensures r in p <==> r in routes {
      assert r in multiset(p) <==> r in multiset(routes);
    }
    assert |multiset(p)| == |p| && |multiset(routes)| == |routes|;
  }

  lemma NoHazardSuffices(routes: seq<Route>, n: nat, final: bool)
    requires Uniform(routes, n, final) && n >= 1 && NoHazard(routes)
    ensures OrderFree(routes, n, final)
  {
    forall p, values | Reorders(p, routes, n, final) ensures Faithful(p, n, values) {
      ReorderKeepsHazards(p, routes);
      ServesFaithfully(p, n, final, values);
    }
  }

  /** Some request is served wrongly after some order of registration. */
  ghost predicate Misserves(routes: seq<Route>, n: nat, final: bool)
    requires n >= 1
  {
    exists p, values :: Reorders(p, routes, n, final) && !Faithful(p, n, values)
  }

  lemma CaptureMisserves(routes: seq<Route>, n: nat, final: bool, r: Route)
    requires Uniform(routes, n, final) && n >= 1 && r in routes && Captures(r)
    ensures Misserves(routes, n, final)
  {
    CaptureShows(routes, n, final, r);
    assert Reorders(routes, routes, n, final);
  }

  lemma DisturbanceMisserves(routes: seq<Route>, n: nat, final: bool, q: Route)
    requires Uniform(routes, n, final) && n >= 1 && q in routes && Disturbs(q) && |routes| >= 2
    requires forall x | x in routes :: !Captures(x)
    ensures Misserves(routes, n, final)
  {
    var r := Another(routes, n, final, q);
    DisturbanceShows(routes, n, final, q, r);
    Misserved(routes, [q, r] + Others(routes, q, r), n, final, Telling(n, r, n));
  }

  lemma Misserved(routes: seq<Route>, p: seq<Route>, n: nat, final: bool, values: Values)
    requires n >= 1 && Reorders(p, routes, n, final) && !Faithful(p, n, values)
    ensures Misserves(routes, n, final)
  {
  }

  /** The exact condition, checkable when routes are registered. */
  lemma OrderFreeExactly(routes: seq<Route>, n: nat, final: bool)
    requires Uniform(routes, n, final) && n >= 1
    ensures OrderFree(routes, n, final) <==> NoHazard(routes)
  {
    if NoHazard(routes) {
      NoHazardSuffices(routes, n, final);
    } else {
      forall r | r in routes && Captures(r) ensures Misserves(routes, n, final) {
        CaptureMisserves(routes, n, final, r);
      }
      forall q | q in routes && Disturbs(q) && |routes| >= 2 && forall x | x in routes :: !Captures(x)
        ensures Misserves(routes, n, final)
      {
        DisturbanceMisserves(routes, n, final, q);
      }
    }
  }

  /** A second route, with a verb if there is one. */
  lemma Another(routes: seq<Route>, n: nat, final: bool, q: Route) returns (r: Route)
    requires Uniform(routes, n, final) && |routes| >= 2
    ensures r in routes && r != q && (r.customVerb == "" ==> forall x | x in routes && x != q :: x.customVerb == "")
  {
    if x :| x in routes && x != q && x.customVerb != "" {
      r := x;
    } else {
      assert routes[0].customVerb != "" && routes[0] in routes && routes[1] in routes;
      r := routes[1];
    }
  }

  // ----- what the handler reads -----

  lemma {:induction false} OkBindsAll(bindings: seq<Binding>, verb: string, values: Values)
    requires Bind(bindings, verb, values).ok
    ensures |Bind(bindings, verb, values).bound| == |bindings|
  {
    if bindings != [] {
      var own := Own(bindings[0], verb, PathValue(values, bindings[0].synthetic));
      OkBindsAll(bindings[1..], verb, values[bindings[0].name := own.value]);
    }
  }

  /** No later variable has the name of variable `k`. */
  predicate LastOfName(bindings: seq<Binding>, k: nat) {
    k < |bindings| && forall j | k < j < |bindings| :: bindings[j].name != bindings[k].name
  }

  /** Under a variable's name the handler reads what the last variable of that name was given. */
  lemma ReadsLast(bindings: seq<Binding>, verb: string, values: Values, i: nat, k: nat)
    requires Bind(bindings, verb, values).ok && LastOfName(bindings, k) && i <= k && bindings[i].name == bindings[k].name
    ensures k < |Bind(bindings, verb, values).bound|
    ensures PathValue(Bind(bindings, verb, values).values, bindings[i].name) == Bind(bindings, verb, values).bound[k]
  {
    OkBindsAll(bindings, verb, values);
    var m := LastWrite(bindings, verb, values, bindings[k].name, k);
  }

  /** Each name reads, as the handler sees it, the text in the place of the last variable of that name. */
  ghost predicate ReadsOwn(r: Route, values: Values, seen: Values) {
    forall k | 0 <= k < |r.bindings| && LastOfName(r.bindings, k) ::
      Own(r.bindings[k], r.customVerb, TextAt(values, k)) == Some(PathValue(seen, r.bindings[k].name))
  }

  /** Without hazards the handler that gets the request reads its own texts under its own names. */
  lemma HandlerReadsOwn(routes: seq<Route>, n: nat, final: bool, values: Values)
    requires Uniform(routes, n, final) && NoHazard(routes) && n >= 1
    ensures
      var o := Serve(routes, values);
      o.Served? ==> Wins(routes, TextAt(values, n - 1), o.route) && ReadsOwn(o.route, values, o.values)
  {
    ServesFaithfully(routes, n, final, values);
    var o := Serve(routes, values);
    if o.Served? {
      var held := ServedBy(routes, values);
      var r := o.route;
      forall k | 0 <= k < |r.bindings| && LastOfName(r.bindings, k)
        ensures Own(r.bindings[k], r.customVerb, TextAt(values, k)) == Some(PathValue(o.values, r.bindings[k].name))
      {
        ReadsLast(r.bindings, r.customVerb, held, k, k);
      }
    }
  }

  /** A variable whose name is used again is lost: the handler reads the later text instead. */
  lemma RepeatedNameIsLost(r: Route, values: Values, i: nat, k: nat)
    requires Bind(r.bindings, r.customVerb, values).ok && LastOfName(r.bindings, k) && i < k && r.bindings[i].name == r.bindings[k].name
    ensures
      var a := Bind(r.bindings, r.customVerb, values);
      |a.bound| == |r.bindings| && PathValue(a.values, r.bindings[i].name) == a.bound[k]
  {
    OkBindsAll(r.bindings, r.customVerb, values);
    ReadsLast(r.bindings, r.customVerb, values, i, k);
  }

  predicate DistinctNames(r: Route) {
    forall i, k | 0 <= i < k < |r.bindings| :: r.bindings[i].name != r.bindings[k].name
  }

  /** The handler that gets the request reads, under the name of every variable, the text in its own place. */
  ghost predicate ReadsAll(routes: seq<Route>, values: Values) {
    var o := Serve(routes, values);
    o.Served? ==> forall k | 0 <= k < |o.route.bindings| ::
      Own(o.route.bindings[k], o.route.customVerb, TextAt(values, k)) == Some(PathValue(o.values, o.route.bindings[k].name))
  }

  lemma DistinctReadsAll(routes: seq<Route>, n: nat, final: bool, values: Values)
    requires Uniform(routes, n, final) && NoHazard(routes) && n >= 1
    requires forall r | r in routes :: DistinctNames(r)
    ensures ReadsAll(routes, values)
  {
    HandlerReadsOwn(routes, n, final, values);
    var o := Serve(routes, values);
    if o.Served? {
      forall k | 0 <= k < |o.route.bindings| ensures LastOfName(o.route.bindings, k) {
      }
    }
  }

  /** Where a name is used again, the request that tells the variables apart is served, and the earlier text is not what is read. */
  lemma RepeatedNameMisreads(routes: seq<Route>, n: nat, final: bool, r: Route)
    requires Uniform(routes, n, final) && NoHazard(routes) && n >= 1 && r in routes && !DistinctNames(r)
    ensures Serve(routes, Telling(n, r, n)).Served? && Serve(routes, Telling(n, r, n)).route == r
    ensures !ReadsAll(routes, Telling(n, r, n))
  {
    var values := Telling(n, r, n);
    ServesFaithfully(routes, n, final, values);
    FaithfulMarks(routes, n, final, r);
    var o := Serve(routes, values);
    var held := ServedBy(routes, values);
    var i, j :| 0 <= i < j < n && r.bindings[i].name == r.bindings[j].name;
    var k := LastPlace(r.bindings, j);
    RepeatedNameIsLost(r, held, i, k);
    TellingTexts(n, r, n, i);
    OwnMarks(r, n, final, i);
    MarksDiffer(i, k);
    assert PathValue(o.values, r.bindings[i].name) == Marks(k);
  }

  /** Without hazards, every handler reads all its texts exactly when no route uses a name twice. */
  lemma ReadsAllExactly(routes: seq<Route>, n: nat, final: bool)
    requires Uniform(routes, n, final) && NoHazard(routes) && n >= 1
    ensures (forall values :: ReadsAll(routes, values)) <==> (forall r | r in routes :: DistinctNames(r))
  {
    if forall r | r in routes :: DistinctNames(r) {
      forall values ensures ReadsAll(routes, values) {
        DistinctReadsAll(routes, n, final, values);
      }
    } else {
      var r :| r in routes && !DistinctNames(r);
      RepeatedNameMisreads(routes, n, final, r);
    }
  }

  /** In every order of registration, every request reaches the right handler, which reads all its texts. */
  ghost predicate AllReadRightly(routes: seq<Route>, n: nat, final: bool)
    requires n >= 1
  {
    forall p, values | Reorders(p, routes, n, final) :: Faithful(p, n, values) && ReadsAll(p, values)
  }

  /** The whole condition, from the registration of routes to what their handlers read. */
  lemma AllReadRightlyExactly(routes: seq<Route>, n: nat, final: bool)
    requires Uniform(routes, n, final) && n >= 1
    ensures AllReadRightly(routes, n, final) <==> NoHazard(routes) && forall r | r in routes :: DistinctNames(r)
  {
    OrderFreeExactly(routes, n, final);
    if NoHazard(routes) && forall r | r in routes :: DistinctNames(r) {
      forall p, values | Reorders(p, routes, n, final) ensures Faithful(p, n, values) && ReadsAll(p, values) {
        ReorderKeepsHazards(p, routes);
        SameMembers(p, routes);
        DistinctReadsAll(p, n, final, values);
      }
    } else if NoHazard(routes) {
      assert Reorders(routes, routes, n, final);
      ReadsAllExactly(routes, n, final);
    } else {
      assert !OrderFree(routes, n, final);
    }
  }

  lemma SameMembers(p: seq<Route>, routes: seq<Route>)
    requires multiset(p) == multiset(routes)
    ensures forall r :: r in p <==> r in routes
  {
    forall r ensures r in p <==> r in routes {
      assert r in multiset(p) <==> r in multiset(routes);
    }
  }

  /** So two orders of registration serve every request alike. */
  lemma OrderDoesNotMatter(s: seq<Route>, t: seq<Route>, n: nat, final: bool, values: Values)
    requires Uniform(s, n, final) && Reorders(t, s, n, final) && NoHazard(s) && n >= 1
    ensures
      var o, u := Serve(s, values), Serve(t, values);
      && (o.Served? <==> u.Served?)
      && (o.Served? ==> o.route == u.route && o.bound == u.bound)
      && (o.Served? ==> forall b | b in o.route.bindings :: PathValue(o.values, b.name) == PathValue(u.values, b.name))
  {
    ReorderKeepsHazards(t, s);
    ServesFaithfully(s, n, final, values);
    ServesFaithfully(t, n, final, values);
    SameMembers(t, s);
    var o, u := Serve(s, values), Serve(t, values);
    if o.Served? && u.Served? {
      WinnerUnique(s, n, final, TextAt(values, n - 1), o.route, u.route);
      SameReads(s, t, values);
    }
  }

  /** Given the same route and the same bound texts, the handler reads the same. */
  lemma SameReads(s: seq<Route>, t: seq<Route>, values: Values)
    requires Serve(s, values).Served? && Serve(t, values).Served?
    requires Serve(s, values).route == Serve(t, values).route && Serve(s, values).bound == Serve(t, values).bound
    ensures forall b | b in Serve(s, values).route.bindings :: PathValue(Serve(s, values).values, b.name) == PathValue(Serve(t, values).values, b.name)
  {
    var held := ServedBy(s, values);
    var kept := ServedBy(t, values);
    var r := Serve(s, values).route;
    forall i | 0 <= i < |r.bindings|
      ensures PathValue(Serve(s, values).values, r.bindings[i].name) == PathValue(Serve(t, values).values, r.bindings[i].name)
    {
      var k := LastPlace(r.bindings, i);
      ReadsLast(r.bindings, r.customVerb, held, i, k);
      ReadsLast(r.bindings, r.customVerb, kept, i, k);
    }
  }

  lemma {:induction false} LastPlace(bindings: seq<Binding>, i: nat) returns (k: nat)
    requires i < |bindings|
    ensures i <= k && LastOfName(bindings, k) && bindings[k].name == bindings[i].name
    decreases |bindings| - i
  {
    if j :| i < j < |bindings| && bindings[j].name == bindings[i].name {
      k := LastPlace(bindings, j);
    } else {
      k := i;
    }
  }
}
