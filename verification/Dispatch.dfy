/** Serving a request behind a shared pattern: which route gets it and what it binds. */
module Dispatch {
  import opened Options
  import opened Text
  import opened RouteGroup

  type Values = map<string, string>

  datatype Route = Route(raw: string, customVerb: string, bindings: seq<Binding>, handler: nat)

  function PathValue(values: Values, name: string): string {
    if name in values then values[name] else ""
  }

  predicate EndsWith(s: string, end: string) {
    |end| <= |s| && s[|s| - |end|..] == end
  }

  /** What a binding makes of the text found in its place; absent when the verb does not fit. */
  function Own(b: Binding, verb: string, text: string): Option<string> {
    if !b.stripVerb then Some(text)
    else if EndsWith(text, ":" + verb) && |text| > |verb| + 1 then Some(text[..|text| - |verb| - 1])
    else None
  }

  /** The outcome of applying a route: the values bound in turn, and what the request holds then. */
  datatype Applied = Applied(ok: bool, bound: seq<string>, values: Values)

  /** Each binding reads the request as the ones before it left it. */
  function Bind(bindings: seq<Binding>, verb: string, values: Values): Applied {
    if bindings == [] then Applied(true, [], values)
    else
      match Own(bindings[0], verb, PathValue(values, bindings[0].synthetic))
      case None => Applied(false, [], values)
      case Some(v) =>
        var rest := Bind(bindings[1..], verb, values[bindings[0].name := v]);
        Applied(rest.ok, [v] + rest.bound, rest.values)
  }

  class Request {
    var values: Values

    constructor (values: Values)
      ensures this.values == values
    {
      this.values := values;
    }

    /** Binds the variables of a route on the request; stops at a verb that does not fit. */
    method Apply(route: Route) returns (ok: bool, ghost bound: seq<string>)
      modifies this
      ensures Applied(ok, bound, values) == Bind(route.bindings, route.customVerb, old(values))
    {
      var bindings, verb := route.bindings, route.customVerb;
      bound := [];
      var i := 0;
      assert bindings[0..] == bindings;
      while i < |bindings|
        invariant 0 <= i <= |bindings|
        invariant
          var rest := Bind(bindings[i..], verb, values);
          Bind(bindings, verb, old(values)) == Applied(rest.ok, bound + rest.bound, rest.values)
      {
        var binding := bindings[i];
        var value := PathValue(values, binding.synthetic);
        ghost var text := value;
        ghost var later := bindings[i + 1..];
        assert bindings[i..][0] == binding && bindings[i..][1..] == later;
        if binding.stripVerb {
          var suffix := ":" + verb;
          if !EndsWith(value, suffix) {
            assert bound + [] == bound;
            return false, bound;
          }
          value := value[..|value| - |suffix|];
          if value == "" {
            assert bound + [] == bound;
            return false, bound;
          }
        }
        assert Own(binding, verb, text) == Some(value);
        values := values[binding.name := value];
        Regroup(bound, value, Bind(later, verb, values).bound);
        bound := bound + [value];
        i := i + 1;
      }
      assert bindings[|bindings|..] == [] && bound + [] == bound;
      ok := true;
    }
  }

  datatype Outcome = Served(route: Route, bound: seq<string>, values: Values) | NotFound(values: Values)

  /** The first route that applies serves; the ones before it may have left traces in the request. */
  function Serve(routes: seq<Route>, values: Values): Outcome {
    if routes == [] then NotFound(values)
    else
      var a := Bind(routes[0].bindings, routes[0].customVerb, values);
      if a.ok then Served(routes[0], a.bound, a.values) else Serve(routes[1..], a.values)
  }

  // ----- groups -----

  predicate Selective(r: Route) {
    r.bindings != [] && r.bindings[|r.bindings| - 1].stripVerb
  }

  /** `n` bindings on the numbered names, the last of which strips the verb if the path ends in it. */
  ghost predicate Shaped(r: Route, n: nat, final: bool) {
    && |r.bindings| == n >= 1 && NoneOf(r.customVerb, ":")
    && forall k | 0 <= k < n ::
         r.bindings[k].synthetic == Synthetic(k) && (r.bindings[k].stripVerb <==> r.customVerb != "" && final && k == n - 1)
  }

  /** What registration guarantees of the routes behind one pattern. */
  ghost predicate Uniform(routes: seq<Route>, n: nat, final: bool) {
    && (forall r | r in routes :: Shaped(r, n, final))
    && (forall i, j | 0 <= i < j < |routes| :: routes[i].customVerb != routes[j].customVerb)
    && (forall i | 0 <= i < |routes| - 1 :: routes[i].customVerb != "")
    && (!final ==> |routes| <= 1)
  }

  /** The route fits the text found in the place of the last variable. */
  predicate Matches(r: Route, text: string) {
    r.bindings != [] && Own(r.bindings[|r.bindings| - 1], r.customVerb, text).Some?
  }

  lemma NoColonBehind(text: string, v: string)
    requires EndsWith(text, ":" + v) && NoneOf(v, ":")
    ensures text[|text| - |v| - 1] == ':' && forall i | |text| - |v| <= i < |text| :: text[i] != ':'
  {
    var tail := text[|text| - |v| - 1..];
    assert tail[0] == ':';
    forall i | |text| - |v| <= i < |text| ensures text[i] != ':' {
      assert text[i] == tail[i - (|text| - |v| - 1)] == v[i - (|text| - |v|)];
    }
  }

  lemma SuffixDecides(text: string, v: string, w: string)
    requires EndsWith(text, ":" + v) && EndsWith(text, ":" + w) && NoneOf(v, ":") && NoneOf(w, ":")
    ensures v == w
  {
    NoColonBehind(text, v);
    NoColonBehind(text, w);
    assert (":" + v)[1..] == v && (":" + w)[1..] == w;
  }

  /** No text fits two routes with a verb. */
  lemma AtMostOneVerb(q: Route, r: Route, n: nat, text: string)
    requires Shaped(q, n, true) && Shaped(r, n, true) && q.customVerb != "" && r.customVerb != ""
    requires Matches(q, text) && Matches(r, text)
    ensures q.customVerb == r.customVerb
  {
    SuffixDecides(text, q.customVerb, r.customVerb);
  }

  /** The route a text belongs to, whatever the order of the routes. */
  ghost predicate Wins(routes: seq<Route>, text: string, r: Route) {
    && r in routes && Matches(r, text)
    && (!Selective(r) ==> forall q | q in routes && Selective(q) :: !Matches(q, text))
  }

  lemma WinnerUnique(routes: seq<Route>, n: nat, final: bool, text: string, q: Route, r: Route)
    requires Uniform(routes, n, final) && Wins(routes, text, q) && Wins(routes, text, r)
    ensures q == r
  {
    var i :| 0 <= i < |routes| && routes[i] == q;
    var j :| 0 <= j < |routes| && routes[j] == r;
    assert Selective(q) <==> q.customVerb != "" && final;
    assert Selective(r) <==> r.customVerb != "" && final;
    if Selective(q) && Selective(r) {
      AtMostOneVerb(q, r, n, text);
    }
  }

  /** The text in the place of variable `k`. */
  function TextAt(values: Values, k: nat): string {
    PathValue(values, Synthetic(k))
  }

  /** Every variable of the route holds what stood in its own place. */
  ghost predicate BoundOwn(r: Route, values: Values, bound: seq<string>) {
    |bound| == |r.bindings| && forall k | 0 <= k < |bound| :: Own(r.bindings[k], r.customVerb, TextAt(values, k)) == Some(bound[k])
  }

  /** The route the text belongs to serves, with its own values; if it belongs to none, none serves. */
  ghost predicate Faithful(routes: seq<Route>, n: nat, values: Values)
    requires n >= 1
  {
    match Serve(routes, values)
    case Served(r, bound, _) => Wins(routes, TextAt(values, n - 1), r) && BoundOwn(r, values, bound)
    case NotFound(_) => forall r | r in routes :: !Matches(r, TextAt(values, n - 1))
  }

  // ----- captured names -----

  /** A variable named like the stand-in of a later one: binding it overwrites what the later one reads. */
  ghost predicate Captures(r: Route) {
    exists i, j | 0 <= i < j < |r.bindings| :: r.bindings[i].name == Synthetic(j)
  }

  /**
   A route that may be tried in vain and has by then overwritten the stand-in of another
   variable.
   */
  ghost predicate Disturbs(r: Route) {
    Selective(r)
    && exists i, j | 0 <= i < |r.bindings| - 1 && 0 <= j < |r.bindings| && i != j :: r.bindings[i].name == Synthetic(j)
  }

  /** What can be checked at registration. */
  ghost predicate NoHazard(routes: seq<Route>) {
    && (forall r | r in routes :: !Captures(r))
    && (|routes| >= 2 ==> forall r | r in routes :: !Disturbs(r))
  }

  /** Without captured names each binding reads what was there at the start. */
  lemma {:induction false} BindReadsOwn(bindings: seq<Binding>, verb: string, values: Values)
    requires forall i, j | 0 <= i < j < |bindings| :: bindings[i].name != bindings[j].synthetic
    ensures
      var a := Bind(bindings, verb, values);
      && |a.bound| <= |bindings| && (a.ok <==> |a.bound| == |bindings|)
      && (forall k | 0 <= k < |a.bound| :: Own(bindings[k], verb, PathValue(values, bindings[k].synthetic)) == Some(a.bound[k]))
      && (!a.ok ==> Own(bindings[|a.bound|], verb, PathValue(values, bindings[|a.bound|].synthetic)).None?)
  {
    if bindings != [] {
      var own := Own(bindings[0], verb, PathValue(values, bindings[0].synthetic));
      if own.Some? {
        var more := values[bindings[0].name := own.value];
        assert forall j | 0 < j < |bindings| :: PathValue(more, bindings[j].synthetic) == PathValue(values, bindings[j].synthetic);
        BindReadsOwn(bindings[1..], verb, more);
      }
    }
  }

  /** A name that is bound to nothing but itself keeps its value. */
  lemma {:induction false} BindKeeps(bindings: seq<Binding>, verb: string, values: Values, name: string)
    requires !Bind(bindings, verb, values).ok
    requires forall i | 0 <= i < |bindings| - 1 :: !bindings[i].stripVerb
    requires forall i | 0 <= i < |bindings| - 1 && bindings[i].name == name :: bindings[i].synthetic == name
    ensures PathValue(Bind(bindings, verb, values).values, name) == PathValue(values, name)
  {
    var own := Own(bindings[0], verb, PathValue(values, bindings[0].synthetic));
    if own.Some? {
      assert |bindings| > 1;
      BindKeeps(bindings[1..], verb, values[bindings[0].name := own.value], name);
    }
  }

  /** One route: it applies exactly when it matches, with its own values; in vain, it leaves the stand-ins alone. */
  lemma RouteAlone(r: Route, n: nat, final: bool, values: Values)
    requires Shaped(r, n, final) && !Captures(r)
    ensures
      var a := Bind(r.bindings, r.customVerb, values);
      && (a.ok <==> Matches(r, TextAt(values, n - 1)))
      && (a.ok ==> BoundOwn(r, values, a.bound))
      && (!a.ok && !Disturbs(r) ==> forall k: nat | k < n :: TextAt(a.values, k) == TextAt(values, k))
  {
    var b := r.bindings;
    forall i, j | 0 <= i < j < |b| ensures b[i].name != b[j].synthetic {
      assert b[j].synthetic == Synthetic(j);
    }
    BindReadsOwn(b, r.customVerb, values);
    var a := Bind(b, r.customVerb, values);
    assert b[n - 1].synthetic == Synthetic(n - 1);
    if !a.ok {
      assert |a.bound| == n - 1;
      forall k: nat | k < n && !Disturbs(r) ensures TextAt(a.values, k) == TextAt(values, k) {
        BindKeeps(b, r.customVerb, values, Synthetic(k));
      }
    }
  }

  lemma UniformTail(routes: seq<Route>, n: nat, final: bool)
    requires Uniform(routes, n, final) && routes != []
    ensures Uniform(routes[1..], n, final)
  {
  }

  /** Passing over a route that does not match and leaves no trace. */
  lemma PassOver(routes: seq<Route>, n: nat, final: bool, values: Values, more: Values)
    requires Uniform(routes, n, final) && routes != [] && n >= 1
    requires !Matches(routes[0], TextAt(values, n - 1)) && forall k: nat | k < n :: TextAt(more, k) == TextAt(values, k)
    requires !Bind(routes[0].bindings, routes[0].customVerb, values).ok
    requires more == Bind(routes[0].bindings, routes[0].customVerb, values).values
    requires Faithful(routes[1..], n, more)
    ensures Faithful(routes, n, values)
  {
    assert routes == [routes[0]] + routes[1..];
    match Serve(routes[1..], more)
    case Served(r, bound, _) =>
      assert r in routes[1..] && Shaped(r, n, final);
      assert BoundOwn(r, values, bound) by {
        forall k | 0 <= k < |bound| ensures Own(r.bindings[k], r.customVerb, TextAt(values, k)) == Some(bound[k]) {
          assert TextAt(more, k) == TextAt(values, k);
        }
      }
    case NotFound(_) =>
  }

  /** Without hazards the group is faithful in whatever order its routes were registered. */
  lemma {:induction false} ServesFaithfully(routes: seq<Route>, n: nat, final: bool, values: Values)
    requires Uniform(routes, n, final) && NoHazard(routes) && n >= 1
    ensures Faithful(routes, n, values)
  {
    if routes != [] {
      var r := routes[0];
      RouteAlone(r, n, final, values);
      var a := Bind(r.bindings, r.customVerb, values);
      if a.ok {
        assert Selective(r) || |routes| == 1;
      } else {
        UniformTail(routes, n, final);
        ServesFaithfully(routes[1..], n, final, a.values);
        if |routes| >= 2 {
          PassOver(routes, n, final, values, a.values);
        }
      }
    }
  }
}
