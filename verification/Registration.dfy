/** Registering bindings: how the groups behind shared patterns come about, and what they keep. */
module Registration {
  import opened Options
  import opened Text
  import opened PathTemplate
  import opened RouteGroup
  import opened Dispatch
  import opened DispatchHazards

  function WithVerb(routes: seq<Route>): seq<Route> {
    if routes == [] then []
    else (if routes[0].customVerb != "" then [routes[0]] else []) + WithVerb(routes[1..])
  }

  function WithoutVerb(routes: seq<Route>): seq<Route> {
    if routes == [] then []
    else (if routes[0].customVerb == "" then [routes[0]] else []) + WithoutVerb(routes[1..])
  }

  /** The stable sort that puts routes with a verb first. */
  function VerbsFirst(routes: seq<Route>): seq<Route> {
    WithVerb(routes) + WithoutVerb(routes)
  }

  lemma {:induction false} PartitionMembers(routes: seq<Route>)
    ensures forall r :: r in WithVerb(routes) <==> r in routes && r.customVerb != ""
    ensures forall r :: r in WithoutVerb(routes) <==> r in routes && r.customVerb == ""
    ensures |VerbsFirst(routes)| == |routes|
  {
    if routes != [] {
      PartitionMembers(routes[1..]);
      assert routes == [routes[0]] + routes[1..];
    }
  }

  ghost predicate VerbsUnique(routes: seq<Route>) {
    forall i, j | 0 <= i < j < |routes| :: routes[i].customVerb != routes[j].customVerb
  }

  lemma HeadDiffers(routes: seq<Route>)
    requires VerbsUnique(routes) && routes != []
    ensures forall r | r in routes[1..] :: r.customVerb != routes[0].customVerb
  {
    forall r | r in routes[1..] ensures r.customVerb != routes[0].customVerb {
      var i :| 0 <= i < |routes[1..]| && routes[1..][i] == r;
      assert routes[i + 1] == r;
    }
  }

  lemma {:induction false} PartitionUnique(routes: seq<Route>)
    requires VerbsUnique(routes)
    ensures VerbsUnique(WithVerb(routes)) && |WithoutVerb(routes)| <= 1
  {
    if routes != [] {
      PartitionUnique(routes[1..]);
      PartitionMembers(routes[1..]);
      HeadDiffers(routes);
      SingleMember(WithoutVerb(routes[1..]));
    }
  }

  lemma SingleMember(routes: seq<Route>)
    ensures (forall r :: r !in routes) ==> routes == []
  {
    if routes != [] {
      assert routes[0] in routes;
    }
  }

  lemma SortedUnique(routes: seq<Route>)
    requires VerbsUnique(routes)
    ensures |VerbsFirst(routes)| == |routes| && VerbsUnique(VerbsFirst(routes))
    ensures forall i | 0 <= i < |routes| - 1 :: VerbsFirst(routes)[i].customVerb != ""
    ensures forall r :: r in VerbsFirst(routes) <==> r in routes
  {
    PartitionUnique(routes);
    PartitionMembers(routes);
    var a, b := WithVerb(routes), WithoutVerb(routes);
    forall i | 0 <= i < |a| ensures a[i].customVerb != "" {
      assert a[i] in a;
    }
    forall i | 0 <= i < |b| ensures b[i].customVerb == "" {
      assert b[i] in b;
    }
  }

  /** A route made from a path: its template, with the bindings of its variables. */
  ghost predicate MadeFrom(r: Route, t: Template) {
    && Wellformed(t) && Print(t) == r.raw && Variables(t.segments) != []
    && r.customVerb == t.customVerb && r.bindings == BindingsFrom(t.segments, 0, t.customVerb)
  }

  /** The route belongs behind this pattern. */
  ghost predicate Belongs(r: Route, pattern: string) {
    exists verb, t :: NoneOf(verb, " ") && MadeFrom(r, t) && pattern == verb + " " + Print(Shape(t))
  }

  ghost predicate GroupOk(pattern: string, routes: seq<Route>) {
    && routes != [] && (forall r | r in routes :: Belongs(r, pattern))
    && VerbsUnique(routes) && (forall i | 0 <= i < |routes| - 1 :: routes[i].customVerb != "")
  }

  lemma PatternSplit(v: string, w: string, p: string, q: string)
    requires NoneOf(v, " ") && NoneOf(w, " ") && v + " " + p == w + " " + q
    ensures v == w && p == q
  {
    var s := v + " " + p;
    assert s[|v|] == ' ' && s[|w|] == ' ';
    assert forall i | 0 <= i < |v| :: s[i] == v[i];
    assert forall i | 0 <= i < |w| :: s[i] == w[i];
    assert s[..|v|] == v && s[..|w|] == w && s[|v| + 1..] == p && s[|w| + 1..] == q;
  }

  lemma MadeShaped(r: Route, t: Template)
    requires MadeFrom(r, t)
    ensures Shaped(r, |Variables(t.segments)|, FinalVariable(t))
  {
    BindingsOfVariables(t.segments, 0, t.customVerb);
    assert NoneOf(t.customVerb, ":") by {
      assert forall i | 0 <= i < |t.customVerb| :: t.customVerb[i] !in "/{}: \t\r\n";
    }
  }

  /** Routes behind one pattern have the same shape. */
  lemma SamePatternSameShape(q: Route, r: Route, pattern: string) returns (n: nat, final: bool)
    requires Belongs(q, pattern) && Belongs(r, pattern)
    ensures n >= 1 && Shaped(q, n, final) && Shaped(r, n, final)
    ensures !final ==> q.customVerb == r.customVerb
  {
    var v, t :| NoneOf(v, " ") && MadeFrom(q, t) && pattern == v + " " + Print(Shape(t));
    var w, u :| NoneOf(w, " ") && MadeFrom(r, u) && pattern == w + " " + Print(Shape(u));
    PatternSplit(v, w, Print(Shape(t)), Print(Shape(u)));
    SameShape(t, u);
    MadeShaped(q, t);
    MadeShaped(r, u);
    n, final := |Variables(t.segments)|, FinalVariable(t);
  }

  lemma ShapeUnique(r: Route, m: nat, n: nat, a: bool, b: bool)
    requires Shaped(r, m, a) && Shaped(r, n, b) && r.customVerb != ""
    ensures m == n && a == b
  {
    assert r.bindings[n - 1].stripVerb <==> b;
  }

  /** Every group that registration builds is one that dispatch was proved for. */
  lemma GroupUniform(pattern: string, routes: seq<Route>) returns (n: nat, final: bool)
    requires GroupOk(pattern, routes)
    ensures n >= 1 && Uniform(routes, n, final)
  {
    var first := routes[0];
    n, final := SamePatternSameShape(first, first, pattern);
    forall r | r in routes ensures Shaped(r, n, final) && (!final ==> r.customVerb == first.customVerb) {
      var m, f := SamePatternSameShape(first, r, pattern);
      if |routes| > 1 {
        ShapeUnique(first, m, n, f, final);
      }
    }
    assert |routes| > 1 ==> routes[1] in routes && routes[0].customVerb != routes[1].customVerb;
  }

  /** Behind every registered pattern, order of registration is harmless, and handlers read their own texts, exactly without hazards and repeated names. */
  lemma RegisteredOrderFree(pattern: string, routes: seq<Route>) returns (n: nat, final: bool)
    requires GroupOk(pattern, routes)
    ensures n >= 1 && Uniform(routes, n, final)
    ensures OrderFree(routes, n, final) <==> NoHazard(routes)
    ensures AllReadRightly(routes, n, final) <==> NoHazard(routes) && forall r | r in routes :: DistinctNames(r)
  {
    n, final := GroupUniform(pattern, routes);
    OrderFreeExactly(routes, n, final);
    AllReadRightlyExactly(routes, n, final);
  }

  /**
   A path with a hazard, `/v1/{__yunka_http_1}/{id}`: its second variable is given the text
   in the place of the first.
   */
  lemma CaptureExample(handler: nat)
    ensures
      var r := Route("/v1/{__yunka_http_1}/{id}", "",
                     [Binding(Synthetic(1), Synthetic(0), false), Binding("id", Synthetic(1), false)], handler);
      var values := map[Synthetic(0) := "a", Synthetic(1) := "b"];
      && Shaped(r, 2, true) && !NoHazard([r])
      && Serve([r], values).Served? && Serve([r], values).bound == ["a", "a"] && TextAt(values, 1) == "b"
  {
    var first, second := Binding(Synthetic(1), Synthetic(0), false), Binding("id", Synthetic(1), false);
    var r := Route("/v1/{__yunka_http_1}/{id}", "", [first, second], handler);
    var values := map[Synthetic(0) := "a", Synthetic(1) := "b"];
    if Synthetic(0) == Synthetic(1) {
      SyntheticInjective(0, 1);
    }
    var more := values[Synthetic(1) := "a"];
    assert [first, second][1..] == [second] && [second][1..] == [];
    assert Bind([second], "", more) == Applied(true, ["a"], more["id" := "a"]);
    assert Bind([first, second], "", values) == Applied(true, ["a"] + ["a"], more["id" := "a"]);
    assert r in [r] && r.bindings[0].name == Synthetic(1) && Captures(r);
  }

  predicate HasVerb(routes: seq<Route>, verb: string) {
    exists r | r in routes :: r.customVerb == verb
  }

  class Group {
    var routes: seq<Route>
    var matches: set<string>

    constructor ()
      ensures routes == [] && matches == {}
    {
      routes, matches := [], {};
    }

    ghost predicate Recorded()
      reads this
    {
      matches == set r | r in routes :: r.customVerb
    }

    /** The routes are those of one pattern, as a registry keeps them. */
    ghost predicate InOrder(pattern: string)
      reads this
    {
      Recorded() && GroupOk(pattern, routes)
    }

    /** Refuses a verb that the group has already; otherwise sorts the route in. */
    method Add(route: Route) returns (ok: bool)
      requires Recorded()
      modifies this
      ensures Recorded()
      ensures ok <==> forall r | r in old(routes) :: r.customVerb != route.customVerb
      ensures routes == if ok then VerbsFirst(old(routes) + [route]) else old(routes)
    {
      if route.customVerb in matches {
        return false;
      }
      matches := matches + {route.customVerb};
      PartitionMembers(routes + [route]);
      forall r ensures r in VerbsFirst(routes + [route]) <==> r in routes || r == route {
        assert r in VerbsFirst(routes + [route]) <==> r in WithVerb(routes + [route]) || r in WithoutVerb(routes + [route]);
      }
      routes := VerbsFirst(routes + [route]);
      ok := true;
    }

    /** Adding to a group that is in order keeps it so. */
    method AddTo(ghost pattern: string, route: Route) returns (ok: bool)
      requires InOrder(pattern) && Belongs(route, pattern)
      modifies this
      ensures InOrder(pattern)
      ensures ok <==> !HasVerb(old(routes), route.customVerb)
      ensures routes == if ok then VerbsFirst(old(routes) + [route]) else old(routes)
    {
      ghost var was := routes;
      ok := Add(route);
      if ok {
        AddKeeps(pattern, was, route);
      }
    }

    /** Tries the routes in turn on the request itself. */
    method ServeHTTP(request: Request) returns (served: Option<Route>, ghost bound: seq<string>)
      modifies request
      ensures Serve(routes, old(request.values)) ==
              match served { case Some(r) => Served(r, bound, request.values) case None => NotFound(request.values) }
    {
      var i := 0;
      bound := [];
      assert routes[0..] == routes;
      while i < |routes|
        invariant 0 <= i <= |routes|
        invariant Serve(routes, old(request.values)) == Serve(routes[i..], request.values)
      {
        assert routes[i..][0] == routes[i] && routes[i..][1..] == routes[i + 1..];
        var ok;
        ok, bound := request.Apply(routes[i]);
        if ok {
          return Some(routes[i]), bound;
        }
        i := i + 1;
      }
      return None, [];
    }
  }

  /** A new group with its first route. */
  method FirstOf(pattern: string, route: Route) returns (group: Group)
    requires Belongs(route, pattern)
    ensures fresh(group) && group.InOrder(pattern)
    ensures group.routes == VerbsFirst([] + [route])
  {
    group := new Group();
    var ok := group.Add(route);
    AddKeeps(pattern, [], route);
  }

  /** Adding an accepted route keeps a group in order. */
  lemma AddKeeps(pattern: string, routes: seq<Route>, route: Route)
    requires routes == [] || GroupOk(pattern, routes)
    requires Belongs(route, pattern) && forall r | r in routes :: r.customVerb != route.customVerb
    ensures GroupOk(pattern, VerbsFirst(routes + [route]))
  {
    SortedUnique(routes + [route]);
  }

  datatype Registered = Accepted | InvalidPath | InvalidMethod | DuplicateBinding | RefusedByMux

  class Registry {
    var groups: map<string, Group>

    constructor ()
      ensures groups == map[] && Valid()
    {
      groups := map[];
    }

    ghost predicate Valid()
      reads this, groups.Values
    {
      && (forall p, q | p in groups && q in groups && p != q :: groups[p] != groups[q])
      && (forall p | p in groups :: groups[p].InOrder(p))
    }

    /** The routes behind a pattern. */
    ghost function Behind(pattern: string): seq<Route>
      reads this, groups.Values
    {
      if pattern in groups then groups[pattern].routes else []
    }

    /** What becomes of a route: a second one with its verb is refused, and the first one is up to the multiplexer. */
    ghost function Answer(routes: seq<Route>, verb: string, muxAccepts: bool): Registered {
      if HasVerb(routes, verb) then DuplicateBinding
      else if routes == [] && !muxAccepts then RefusedByMux
      else Accepted
    }

    /** The route stands among those behind its pattern, verbs first, and nothing else has changed. */
    twostate predicate Added(name: string, path: string, t: Template, handler: nat)
      reads this, groups.Values
    {
      Wellformed(t) &&
      var pattern := name + " " + Print(Shape(t));
      var route := Route(path, t.customVerb, BindingsFrom(t.segments, 0, t.customVerb), handler);
      MadeFrom(route, t) && SortedIn(pattern, route)
    }

    twostate predicate SortedIn(pattern: string, route: Route)
      reads this, groups.Values
    {
      && Behind(pattern) == VerbsFirst(old(Behind(pattern)) + [route])
      && forall p | p != pattern :: Behind(p) == old(Behind(p))
    }

    twostate predicate Unchanged()
      reads this, groups.Values
    {
      forall p :: Behind(p) == old(Behind(p))
    }

    /** Registers one binding; `muxAccepts` is what the server's own multiplexer says to a new pattern. */
    method Register(verb: string, path: string, handler: nat, muxAccepts: bool) returns (r: Registered, ghost t: Template)
      requires Valid()
      modifies this, groups.Values
      ensures Valid()
      ensures r.InvalidPath? <==> !Grammatical(path)
      ensures r != InvalidPath ==> Wellformed(t) && Print(t) == path
      ensures r.InvalidMethod? <==> Grammatical(path) && (Trim(verb) == "" || !NoneOf(Upper(Trim(verb)), " \t\r\n"))
      ensures r != InvalidPath && r != InvalidMethod ==>
        r == Answer(if Variables(t.segments) == [] then [] else old(Behind(Upper(Trim(verb)) + " " + Print(Shape(t)))), t.customVerb, muxAccepts)
      ensures r != Accepted || Variables(t.segments) == [] ==> Unchanged()
      ensures r == Accepted && Variables(t.segments) != [] ==> Added(Upper(Trim(verb)), path, t, handler)
    {
      t := Template([], "");
      var parsed := ParseTemplate(path);
      if parsed.None? {
        return InvalidPath, t;
      }
      var parts := parsed.value;
      t := parts;
      GrammaticalOf(path, t);
      r := RegisterParsed(verb, path, parts, handler, muxAccepts);
    }

    /** Registers one binding whose path is in order. */
    method RegisterParsed(verb: string, path: string, t: Template, handler: nat, muxAccepts: bool) returns (r: Registered)
      requires Valid() && Wellformed(t) && Print(t) == path
      modifies this, groups.Values
      ensures Valid() && !r.InvalidPath?
      ensures r.InvalidMethod? <==> Trim(verb) == "" || !NoneOf(Upper(Trim(verb)), " \t\r\n")
      ensures !r.InvalidMethod? ==>
        r == Answer(if Variables(t.segments) == [] then [] else old(Behind(Upper(Trim(verb)) + " " + Print(Shape(t)))), t.customVerb, muxAccepts)
      ensures r != Accepted || Variables(t.segments) == [] ==> Unchanged()
      ensures r == Accepted && Variables(t.segments) != [] ==> Added(Upper(Trim(verb)), path, t, handler)
    {
      var name := Upper(Trim(verb));
      if name == "" || !NoneOf(name, " \t\r\n") {
        return InvalidMethod;
      }
      r := RegisterTemplate(name, path, t, handler, muxAccepts);
    }

    /** Registers one binding whose path and verb are in order. */
    method RegisterTemplate(name: string, path: string, t: Template, handler: nat, muxAccepts: bool) returns (r: Registered)
      requires Valid() && NoneOf(name, " \t\r\n") && Wellformed(t) && Print(t) == path
      modifies this, groups.Values
      ensures Valid()
      ensures r == Answer(if Variables(t.segments) == [] then [] else old(Behind(name + " " + Print(Shape(t)))), t.customVerb, muxAccepts)
      ensures r != Accepted || Variables(t.segments) == [] ==> Unchanged()
      ensures r == Accepted && Variables(t.segments) != [] ==> Added(name, path, t, handler)
    {
      var pattern, bindings, multiplexed := ServeMuxPattern(name, path, t);
      if !multiplexed {
        r := if muxAccepts then Accepted else RefusedByMux;
        return;
      }
      var route := Route(path, t.customVerb, bindings, handler);
      BelongsTo(name, pattern, route, t);
      r := AddRoute(pattern, route, muxAccepts);
    }

    lemma GrammaticalOf(path: string, t: Template)
      requires Wellformed(t) && Print(t) == path
      ensures Grammatical(path)
    {
    }

    lemma BelongsTo(name: string, pattern: string, route: Route, t: Template)
      requires NoneOf(name, " \t\r\n") && MadeFrom(route, t) && pattern == name + " " + Print(Shape(t))
      ensures Belongs(route, pattern)
    {
      assert forall i | 0 <= i < |name| :: name[i] !in " \t\r\n";
    }

    method AddRoute(pattern: string, route: Route, muxAccepts: bool) returns (r: Registered)
      requires Valid() && Belongs(route, pattern)
      modifies this, groups.Values
      ensures Valid()
      ensures r == Answer(old(Behind(pattern)), route.customVerb, muxAccepts)
      ensures if r == Accepted then SortedIn(pattern, route) else Unchanged()
    {
      if pattern in groups {
        r := AddToGroup(pattern, route);
        return;
      }
      r := AddNewGroup(pattern, route, muxAccepts);
    }

    /** A pattern the multiplexer does not know yet: it may refuse it. */
    method AddNewGroup(pattern: string, route: Route, muxAccepts: bool) returns (r: Registered)
      requires Valid() && pattern !in groups && Belongs(route, pattern)
      modifies this
      ensures Valid()
      ensures r == if muxAccepts then Accepted else RefusedByMux
      ensures !muxAccepts ==> groups == old(groups) && forall p :: Behind(p) == old(Behind(p))
      ensures muxAccepts ==> Behind(pattern) == VerbsFirst(old(Behind(pattern)) + [route])
      ensures forall p | p != pattern :: Behind(p) == old(Behind(p))
    {
      var group := FirstOf(pattern, route);
      if !muxAccepts {
        return RefusedByMux;
      }
      groups := groups[pattern := group];
      r := Accepted;
    }

    /** Changing the group of one pattern leaves the others alone. */
    twostate lemma OthersStay(pattern: string)
      requires old(Valid()) && groups == old(groups) && pattern in groups
      requires forall p | p in groups && groups[p] != groups[pattern] :: unchanged(groups[p])
      ensures forall p | p in groups && p != pattern :: groups[p].InOrder(p)
      ensures forall p | p != pattern :: Behind(p) == old(Behind(p))
    {
      forall p | p in groups && p != pattern ensures groups[p].InOrder(p) {
        assert old(groups[p].InOrder(p)) && unchanged(groups[p]);
      }
    }

    /** A further route behind a pattern the multiplexer knows already. */
    method AddToGroup(pattern: string, route: Route) returns (r: Registered)
      requires Valid() && pattern in groups && Belongs(route, pattern)
      modifies groups[pattern]
      ensures Valid()
      ensures r == if HasVerb(old(groups[pattern].routes), route.customVerb) then DuplicateBinding else Accepted
      ensures forall p | p != pattern :: Behind(p) == old(Behind(p))
      ensures groups[pattern].routes ==
                if r == Accepted then VerbsFirst(old(groups[pattern].routes) + [route]) else old(groups[pattern].routes)
    {
      var ok := groups[pattern].AddTo(pattern, route);
      OthersStay(pattern);
      r := if ok then Accepted else DuplicateBinding;
    }
  }
}
