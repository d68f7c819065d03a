/** Exactly which inputs compile, said of the input alone. */
module AssemblyInputs {
  import opened Sorting
  import opened Strings
  import opened Text
  import opened PlanFacts
  import opened Graphs
  import opened CycleSearch
  import opened Closure
  import opened AssemblyPlan
  import opened AssemblyValidation
  import opened AssemblyLaws
  import opened AssemblyContents

  // ----- the condition -----

  function ApplicationNeeds(x: ApplicationInput): seq<string> {
    x.dependsOn
  }

  function OperationNeeds(x: OperationInput): seq<string> {
    x.requiresOperations
  }

  function ModuleNeeds(x: ModuleInput): seq<string> {
    x.dependsOn
  }

  /** The text is a first character and more of them, at most so many. */
  ghost predicate Spelled(s: string, first: char -> bool, more: char -> bool, most: int) {
    exists c, rest :: s == [c] + rest && first(c) && |rest| <= most && forall d | d in rest :: more(d)
  }

  lemma SpelledExactly(s: string, first: char -> bool, more: char -> bool, most: int)
    ensures Spelled(s, first, more, most) <==> s != "" && first(s[0]) && |s| - 1 <= most && forall i | 1 <= i < |s| :: more(s[i])
  {
    if s != "" {
      assert s == [s[0]] + s[1..];
      assert forall i | 1 <= i < |s| :: s[i] == s[1..][i - 1] && s[1..][i - 1] in s[1..];
      if c, rest :| s == [c] + rest && first(c) && |rest| <= most && forall d | d in rest :: more(d) {
        assert rest == s[1..];
      }
    }
  }

  predicate InName(c: char) {
    'a' <= c <= 'z' || '0' <= c <= '9' || c == '.' || c == '_' || c == '-'
  }

  predicate InType(c: char) {
    'a' <= c <= 'z' || 'A' <= c <= 'Z' || '0' <= c <= '9' || c == '_'
  }

  /** The two patterns that a capability's name and type have to match. */
  lemma CapabilitySpelled(c: Capability)
    ensures CapabilityName(c.name) <==> Spelled(c.name, (d: char) => 'a' <= d <= 'z', InName, 127)
    ensures CapabilityType(c.typeName) <==> Spelled(c.typeName, (d: char) => 'A' <= d <= 'Z', InType, |c.typeName|)
  {
    SpelledExactly(c.name, (d: char) => 'a' <= d <= 'z', InName, 127);
    SpelledExactly(c.typeName, (d: char) => 'A' <= d <= 'Z', InType, |c.typeName|);
  }

  /** Evidence names one of four owners, a source and a place in it. */
  lemma EvidenceExactly(e: Evidence)
    ensures GoodEvidence(e) <==>
              && (e.ownership == "canonical" || e.ownership == "reused" || e.ownership == "derived" || e.ownership == "runtime_local")
              && e.source != "" && e.ref != ""
  {
  }

  predicate ApplicationFine(x: ApplicationInput) {
    && x.domain != "" && x.name != "" && x.id == x.domain + "/" + x.name
    && (forall c | c in x.capabilities :: CapabilityOk(c))
    && (forall i, j | 0 <= i < j < |x.capabilities| :: x.capabilities[i].name != x.capabilities[j].name)
    && GoodEvidence(x.evidence)
  }

  predicate BindingFine(b: BindingInput) {
    b.index >= 0 && (Lower(b.transport) == "http" || Lower(b.transport) == "rpc") && GoodEvidence(b.evidence)
  }

  predicate OperationFine(x: OperationInput) {
    && x.id != "" && GoodEvidence(x.evidence) && (forall b | b in x.bindings :: BindingFine(b))
    && forall i, j | 0 <= i < j < |x.bindings| ::
         x.bindings[i].index == x.bindings[j].index ==> Lower(x.bindings[i].transport) != Lower(x.bindings[j].transport)
  }

  predicate ModuleFine(x: ModuleInput) {
    x.name != "" && GoodEvidence(x.evidence)
  }

  /** One of the things needs another. */
  ghost predicate Needing<X(!new)>(xs: seq<X>, id: X -> string, needs: X -> seq<string>, a: string, b: string) {
    b != "" && exists x | x in xs :: id(x) == a && b in needs(x)
  }

  /** Everything needed is there, and nothing needs itself, not even around a circle. */
  ghost predicate NeedsFine<X(!new)>(xs: seq<X>, id: X -> string, needs: X -> seq<string>) {
    && (forall a, b | Needing(xs, id, needs, a, b) :: a != b && exists y | y in xs :: id(y) == b)
    && (forall c: seq<string> ::
          !(|c| >= 2 && c[0] == c[|c| - 1] && forall i | 0 <= i < |c| - 1 :: Needing(xs, id, needs, c[i], c[i + 1])))
  }

  ghost predicate ApplicationsCompile(input: Input) {
    && (forall x | x in input.applications :: ApplicationFine(x)) && UniqueBy(input.applications, InputApplicationId)
    && NeedsFine(input.applications, InputApplicationId, ApplicationNeeds)
  }

  /** Every operation is fine, and belongs to an application that is there. */
  ghost predicate OperationsPlaced(input: Input) {
    && (forall x | x in input.operations :: OperationFine(x)) && UniqueBy(input.operations, InputOperationId)
    && (forall x | x in input.operations :: exists a | a in input.applications :: InputApplicationId(a) == x.application)
  }

  ghost predicate OperationsCompile(input: Input) {
    OperationsPlaced(input) && NeedsFine(input.operations, InputOperationId, OperationNeeds)
  }

  ghost predicate ModulesCompile(input: Input) {
    && (forall x | x in input.modules :: ModuleFine(x)) && UniqueBy(input.modules, InputModuleName)
    && NeedsFine(input.modules, InputModuleName, ModuleNeeds)
  }

  // ----- the things one by one -----

  lemma CapabilitiesFine(x: ApplicationInput, a: Application)
    requires SameApplication(x, a)
    ensures ApplicationOk(a) <==> ApplicationFine(x)
  {
    UniqueByRearranged(a.capabilities, x.capabilities, CapabilityKey);
    assert UniqueBy(x.capabilities, CapabilityKey) <==>
             forall i, j | 0 <= i < j < |x.capabilities| :: x.capabilities[i].name != x.capabilities[j].name by {
      assert forall i | 0 <= i < |x.capabilities| :: CapabilityKey(x.capabilities[i]) == x.capabilities[i].name;
    }
  }

  lemma BoundFine(x: OperationInput, o: Operation)
    requires o.id == x.id
    ensures (forall b | b in BoundAs(x) :: BindingOk(o, b)) <==> forall b | b in x.bindings :: BindingFine(b)
  {
    var bound := BoundAs(x);
    assert forall i | 0 <= i < |x.bindings| :: BindingOk(o, bound[i]) <==> BindingFine(x.bindings[i]);
    assert forall i | 0 <= i < |x.bindings| :: bound[i] in bound && x.bindings[i] in x.bindings;
  }

  lemma SlotsFine(x: OperationInput)
    ensures UniqueBy(BoundAs(x), BindingSlot) <==>
              forall i, j | 0 <= i < j < |x.bindings| ::
                x.bindings[i].index == x.bindings[j].index ==> Lower(x.bindings[i].transport) != Lower(x.bindings[j].transport)
  {
    var bound := BoundAs(x);
    assert forall i | 0 <= i < |x.bindings| ::
        bound[i] == Binding(x.id, Lower(x.bindings[i].transport), x.bindings[i].index, x.bindings[i].evidence);
  }

  lemma BindingsFine(x: OperationInput, o: Operation)
    requires SameOperation(x, o)
    ensures (o.id != "" && GoodEvidence(o.evidence) && (forall b | b in o.bindings :: BindingOk(o, b)) && UniqueBy(o.bindings, BindingSlot))
            <==> OperationFine(x)
  {
    UniqueByRearranged(o.bindings, BoundAs(x), BindingSlot);
    BoundFine(x, o);
    SlotsFine(x);
  }

  // ----- the lists -----

  lemma ApplicationsFine(input: Input, n: Plan)
    requires Carries(SameApplication, input.applications, n.applications)
    ensures ApplicationsOk(n.applications) <==>
              (forall x | x in input.applications :: ApplicationFine(x)) && UniqueBy(input.applications, InputApplicationId)
  {
    CarriedUnique(SameApplication, input.applications, n.applications, InputApplicationId, ApplicationId);
    if ApplicationsOk(n.applications) {
      forall x | x in input.applications ensures ApplicationFine(x) {
        var a := ItemOf(SameApplication, input.applications, n.applications, x);
        CapabilitiesFine(x, a);
      }
    }
    if forall x | x in input.applications :: ApplicationFine(x) {
      forall a | a in n.applications ensures ApplicationOk(a) {
        var x := ThingOf(SameApplication, input.applications, n.applications, a);
        CapabilitiesFine(x, a);
      }
    }
  }

  lemma ModulesFine(input: Input, n: Plan)
    requires Carries(SameModule, input.modules, n.modules)
    ensures ModulesOk(n.modules) <==>
              (forall x | x in input.modules :: ModuleFine(x)) && UniqueBy(input.modules, InputModuleName)
  {
    CarriedUnique(SameModule, input.modules, n.modules, InputModuleName, ModuleName);
    if ModulesOk(n.modules) {
      forall x | x in input.modules ensures ModuleFine(x) {
        var m := ItemOf(SameModule, input.modules, n.modules, x);
      }
    }
    if forall x | x in input.modules :: ModuleFine(x) {
      forall m | m in n.modules ensures ModuleOk(m) {
        var x := ThingOf(SameModule, input.modules, n.modules, m);
      }
    }
  }

  lemma OperationsFine(input: Input, n: Plan)
    requires Carries(SameOperation, input.operations, n.operations) && Carries(SameApplication, input.applications, n.applications)
    ensures OperationsOk(n.operations, ApplicationIds(n)) <==> OperationsPlaced(input)
  {
    CarriedUnique(SameOperation, input.operations, n.operations, InputOperationId, OperationId);
    forall k ensures k in ApplicationIds(n) <==> exists a | a in input.applications :: InputApplicationId(a) == k {
      CarriedKeys(SameApplication, input.applications, n.applications, InputApplicationId, ApplicationId, k);
    }
    if OperationsOk(n.operations, ApplicationIds(n)) {
      forall x | x in input.operations ensures OperationFine(x) && x.application in ApplicationIds(n) {
        var o := ItemOf(SameOperation, input.operations, n.operations, x);
        assert OperationOk(o, ApplicationIds(n));
        BindingsFine(x, o);
      }
    }
    if forall x | x in input.operations :: OperationFine(x) && x.application in ApplicationIds(n) {
      forall o | o in n.operations ensures OperationOk(o, ApplicationIds(n)) {
        var x := ThingOf(SameOperation, input.operations, n.operations, o);
        BindingsFine(x, o);
      }
    }
  }

  // ----- the dependencies -----

  /** The dependencies are what the things need, one for each. */
  ghost predicate ListsNeeds<X(!new)>(xs: seq<X>, id: X -> string, needs: X -> seq<string>, evidence: X -> Evidence, part: string,
                                      deps: seq<Dependency>)
  {
    forall e :: e in deps <==> exists x | x in xs :: DependencyOf(e, id(x), needs(x), evidence(x), part)
  }

  ghost predicate Keyed<X(!new)>(xs: seq<X>, id: X -> string, names: seq<string>) {
    forall k :: k in names <==> exists x | x in xs :: id(x) == k
  }

  /** Where the things have different keys, no two dependencies join the same. */
  lemma {:induction false} EdgesOnce<X(!new)>(edges: X -> seq<Dependency>, key: X -> string, items: seq<X>)
    requires UniqueBy(items, key)
    requires forall x | x in items :: UniqueBy(edges(x), Pair) && forall e | e in edges(x) :: e.from == key(x)
    ensures UniqueBy(FlatMap(edges, items), Pair)
  {
    if items != [] {
      var init, last := items[..|items| - 1], items[|items| - 1];
      assert items == init + [last];
      EdgesOnce(edges, key, init);
      forall e | e in FlatMap(edges, init) ensures e.from != key(last) {
        FlatMapHas(edges, init, e);
        var x :| x in init && e in edges(x);
        var i :| 0 <= i < |init| && init[i] == x;
        assert items[i] == x && items[|items| - 1] == last;
      }
      UniqueJoined(FlatMap(edges, init), edges(last));
    }
  }

  lemma UniqueJoined(s: seq<Dependency>, t: seq<Dependency>)
    requires UniqueBy(s, Pair) && UniqueBy(t, Pair) && forall d, e | d in s && e in t :: d.from != e.from
    ensures UniqueBy(s + t, Pair)
  {
    forall i, j | 0 <= i < j < |s + t| ensures Pair((s + t)[i]) != Pair((s + t)[j]) {
      if i < |s| <= j {
        assert s[i] in s && t[j - |s|] in t;
      }
    }
  }

  /** Everything one thing needs, once each. */
  lemma NeedsOnce(name: string, needs: seq<string>, edge: string -> Dependency)
    requires forall d :: edge(d).from == name && edge(d).to == d
    ensures UniqueBy(Map(edge, StableStrings(needs)), Pair)
    ensures forall e | e in Map(edge, StableStrings(needs)) :: e.from == name
  {
    StableHas(needs);
  }

  /** Dependencies made of what things need: they pass exactly when everything needed is another one of them. */
  lemma DependenciesFine<X(!new)>(xs: seq<X>, id: X -> string, needs: X -> seq<string>, evidence: X -> Evidence, part: string,
                                  deps: seq<Dependency>, names: seq<string>)
    requires ListsNeeds(xs, id, needs, evidence, part, deps)
    requires UniqueBy(deps, Pair) && Keyed(xs, id, names)
    requires forall x | x in xs :: GoodEvidence(evidence(x))
    ensures DependenciesOk(deps, names) <==>
              forall a, b | Needing(xs, id, needs, a, b) :: a != b && exists y | y in xs :: id(y) == b
  {
    if DependenciesOk(deps, names) {
      forall a, b | Needing(xs, id, needs, a, b) ensures a != b && exists y | y in xs :: id(y) == b {
        var x :| x in xs && id(x) == a && b in needs(x);
        var e := Dependency(a, b, Evidence("reused", evidence(x).source, evidence(x).ref + (part + b)));
        assert DependencyOf(e, id(x), needs(x), evidence(x), part);
        assert e in deps;
      }
    }
    if forall a, b | Needing(xs, id, needs, a, b) :: a != b && exists y | y in xs :: id(y) == b {
      forall e | e in deps ensures DependencyOk(e, names) {
        var x :| x in xs && DependencyOf(e, id(x), needs(x), evidence(x), part);
        assert Needing(xs, id, needs, e.from, e.to);
      }
    }
  }

  /** Their graph is acyclic exactly when no things need each other around a circle. */
  lemma CircleFine<X(!new)>(xs: seq<X>, id: X -> string, needs: X -> seq<string>, evidence: X -> Evidence, part: string, deps: seq<Dependency>)
    requires ListsNeeds(xs, id, needs, evidence, part, deps)
    ensures Acyclic(EdgeGraph(deps)) <==>
              forall c: seq<string> ::
                !(|c| >= 2 && c[0] == c[|c| - 1] && forall i | 0 <= i < |c| - 1 :: Needing(xs, id, needs, c[i], c[i + 1]))
  {
    var g := EdgeGraph(deps);
    EdgesNeed(xs, id, needs, evidence, part, deps);
    if !Acyclic(g) {
      var w :| IsCycle(g, w);
      forall i | 0 <= i < |w| - 1 ensures Needing(xs, id, needs, w[i], w[i + 1]) {
        assert LinkAt(g, w, i);
      }
    }
    if c: seq<string> :| |c| >= 2 && c[0] == c[|c| - 1] && forall i | 0 <= i < |c| - 1 :: Needing(xs, id, needs, c[i], c[i + 1]) {
      assert forall i :: LinkAt(g, c, i);
      assert IsCycle(g, c);
    }
  }

  lemma EdgesNeed<X(!new)>(xs: seq<X>, id: X -> string, needs: X -> seq<string>, evidence: X -> Evidence, part: string, deps: seq<Dependency>)
    requires ListsNeeds(xs, id, needs, evidence, part, deps)
    ensures forall a, b :: Edge(EdgeGraph(deps), a, b) <==> Needing(xs, id, needs, a, b)
  {
    EdgeGraphEdges(deps);
    forall a, b ensures Depends(deps, a, b) && b != "" <==> Needing(xs, id, needs, a, b) {
      if e :| e in deps && Joins(e, a, b) {
        var x :| x in xs && DependencyOf(e, id(x), needs(x), evidence(x), part);
      }
      if Needing(xs, id, needs, a, b) {
        var x :| x in xs && id(x) == a && b in needs(x);
        var e := Dependency(a, b, Evidence("reused", evidence(x).source, evidence(x).ref + (part + b)));
        assert DependencyOf(e, id(x), needs(x), evidence(x), part) && Joins(e, a, b);
        assert e in deps;
      }
    }
  }

  /** Both together. */
  lemma NeedsExactly<X(!new)>(xs: seq<X>, id: X -> string, needs: X -> seq<string>, evidence: X -> Evidence, part: string,
                              deps: seq<Dependency>, names: seq<string>)
    requires ListsNeeds(xs, id, needs, evidence, part, deps)
    requires UniqueBy(deps, Pair) && Keyed(xs, id, names) && forall x | x in xs :: GoodEvidence(evidence(x))
    ensures DependenciesOk(deps, names) && Acyclic(EdgeGraph(deps)) <==> NeedsFine(xs, id, needs)
  {
    DependenciesFine(xs, id, needs, evidence, part, deps, names);
    CircleFine(xs, id, needs, evidence, part, deps);
  }

  /** The dependencies of things with different keys, as a normalized input makes them. */
  lemma MadeOnceEach<X(!new)>(before: (X, X) -> bool, normal: X -> X, edges: X -> seq<Dependency>, key: X -> string, xs: seq<X>)
    requires Comparison(before) && UniqueBy(xs, key) && forall x :: key(normal(x)) == key(x)
    requires forall x :: UniqueBy(edges(normal(x)), Pair) && forall e | e in edges(normal(x)) :: e.from == key(x)
    ensures UniqueBy(FlatMap(edges, SortBy(before, Map(normal, xs))), Pair)
  {
    var items := SortBy(before, Map(normal, xs));
    SortBySorts(before, Map(normal, xs));
    UniqueByRearranged(items, Map(normal, xs), key);
    assert forall i | 0 <= i < |xs| :: key(Map(normal, xs)[i]) == key(xs[i]);
    forall y | y in items ensures UniqueBy(edges(y), Pair) && forall e | e in edges(y) :: e.from == key(y) {
      MapHas(normal, xs, y);
      var x :| x in xs && normal(x) == y;
    }
    EdgesOnce(edges, key, items);
  }

  /** Sorting dependencies any number of times. */
  lemma StillOnce(edges: seq<Dependency>, n: seq<Dependency>)
    requires n == NormalizeDependencies(NormalizeDependencies(NormalizeDependencies(edges)))
    ensures UniqueBy(n, Pair) <==> UniqueBy(edges, Pair)
  {
    NormalizeKeeps(edges);
    NormalizeKeeps(NormalizeDependencies(edges));
    NormalizeKeeps(NormalizeDependencies(NormalizeDependencies(edges)));
    UniqueByRearranged(n, edges, Pair);
  }

  // ----- the three parts -----

  function ApplicationEvidence(x: ApplicationInput): Evidence {
    x.evidence
  }

  function OperationEvidence(x: OperationInput): Evidence {
    x.evidence
  }

  function ModuleEvidence(x: ModuleInput): Evidence {
    x.evidence
  }

  lemma ApplicationDepsOnce(input: Input, p: Plan)
    requires MadeFrom(NormalInput(input), p) && UniqueBy(input.applications, InputApplicationId)
    ensures UniqueBy(Normalize(p).applicationDependencies, Pair)
  {
    forall x ensures UniqueBy(ApplicationEdges(NormalApplicationInput(x)), Pair)
      ensures forall e | e in ApplicationEdges(NormalApplicationInput(x)) :: e.from == InputApplicationId(x)
    {
      NeedsOnce(x.id, x.dependsOn, (d: string) => Dependency(x.id, d, Reused(x.evidence, "/requires/" + d)));
      assert ApplicationEdges(NormalApplicationInput(x)) ==
             Map((d: string) => Dependency(x.id, d, Reused(x.evidence, "/requires/" + d)), StableStrings(x.dependsOn));
    }
    PlansCompare();
    MadeOnceEach(ApplicationInputBefore, NormalApplicationInput, ApplicationEdges, InputApplicationId, input.applications);
    StillOnce(FlatMap(ApplicationEdges, NormalInput(input).applications), Normalize(p).applicationDependencies);
  }

  lemma ApplicationDeps(input: Input, p: Plan)
    requires MadeFrom(NormalInput(input), p)
    ensures ListsNeeds(input.applications, InputApplicationId, ApplicationNeeds, ApplicationEvidence, "/requires/",
                       Normalize(p).applicationDependencies)
  {
    forall e ensures e in Normalize(p).applicationDependencies <==>
              exists x | x in input.applications :: DependencyOf(e, x.id, x.dependsOn, x.evidence, "/requires/")
    {
      PlanDependencies(input, p, e);
      NormalizedHas(p.applicationDependencies, e);
    }
  }

  lemma ApplicationNames(input: Input, n: Plan)
    requires Carries(SameApplication, input.applications, n.applications)
    ensures Keyed(input.applications, InputApplicationId, ApplicationIds(n))
  {
    forall k ensures k in ApplicationIds(n) <==> exists a | a in input.applications :: InputApplicationId(a) == k {
      CarriedKeys(SameApplication, input.applications, n.applications, InputApplicationId, ApplicationId, k);
    }
  }

  lemma ApplicationsPassExactly(input: Input, p: Plan)
    requires MadeFrom(NormalInput(input), p)
    ensures ApplicationsPass(Normalize(p)) <==> ApplicationsCompile(input)
  {
    var n := Normalize(p);
    PlanHolds(input, p);
    NormalizeHolds(input, p);
    ApplicationsFine(input, n);
    PlanSorted(input, p);
    if ApplicationsOk(n.applications) {
      ApplicationDepsOnce(input, p);
      ApplicationDeps(input, p);
      ApplicationNames(input, n);
      NeedsExactly(input.applications, InputApplicationId, ApplicationNeeds, ApplicationEvidence, "/requires/",
                   n.applicationDependencies, ApplicationIds(n));
    }
  }

  lemma OperationDepsOnce(input: Input, p: Plan)
    requires MadeFrom(NormalInput(input), p) && UniqueBy(input.operations, InputOperationId)
    ensures UniqueBy(Normalize(p).operationDependencies, Pair)
  {
    forall x ensures UniqueBy(OperationEdges(NormalOperationInput(x)), Pair)
      ensures forall e | e in OperationEdges(NormalOperationInput(x)) :: e.from == InputOperationId(x)
    {
      NeedsOnce(x.id, x.requiresOperations, (d: string) => Dependency(x.id, d, Reused(x.evidence, "/requiresOperations/" + d)));
      assert OperationEdges(NormalOperationInput(x)) ==
             Map((d: string) => Dependency(x.id, d, Reused(x.evidence, "/requiresOperations/" + d)), StableStrings(x.requiresOperations));
    }
    PlansCompare();
    MadeOnceEach(OperationInputBefore, NormalOperationInput, OperationEdges, InputOperationId, input.operations);
    StillOnce(FlatMap(OperationEdges, NormalInput(input).operations), Normalize(p).operationDependencies);
  }

  lemma OperationDeps(input: Input, p: Plan)
    requires MadeFrom(NormalInput(input), p)
    ensures ListsNeeds(input.operations, InputOperationId, OperationNeeds, OperationEvidence, "/requiresOperations/",
                       Normalize(p).operationDependencies)
  {
    forall e ensures e in Normalize(p).operationDependencies <==>
              exists x | x in input.operations :: DependencyOf(e, x.id, x.requiresOperations, x.evidence, "/requiresOperations/")
    {
      PlanOperationDependencies(input, p, e);
      NormalizedHas(p.operationDependencies, e);
    }
  }

  lemma OperationNames(input: Input, n: Plan)
    requires Carries(SameOperation, input.operations, n.operations)
    ensures Keyed(input.operations, InputOperationId, OperationIds(n))
  {
    forall k ensures k in OperationIds(n) <==> exists x | x in input.operations :: InputOperationId(x) == k {
      CarriedKeys(SameOperation, input.operations, n.operations, InputOperationId, OperationId, k);
    }
  }

  lemma OperationNeedsExactly(input: Input, p: Plan)
    requires MadeFrom(NormalInput(input), p) && OperationsPlaced(input)
    requires Carries(SameOperation, input.operations, Normalize(p).operations)
    ensures
      var n := Normalize(p);
      DependenciesOk(n.operationDependencies, OperationIds(n)) && Acyclic(EdgeGraph(n.operationDependencies)) <==>
      NeedsFine(input.operations, InputOperationId, OperationNeeds)
  {
    var n := Normalize(p);
    OperationDepsOnce(input, p);
    OperationDeps(input, p);
    OperationNames(input, n);
    forall x | x in input.operations ensures GoodEvidence(OperationEvidence(x)) {
      assert OperationFine(x);
    }
    NeedsExactly(input.operations, InputOperationId, OperationNeeds, OperationEvidence, "/requiresOperations/",
                 n.operationDependencies, OperationIds(n));
  }

  lemma OperationsPassExactly(input: Input, p: Plan)
    requires MadeFrom(NormalInput(input), p)
    ensures OperationsPass(Normalize(p)) <==> OperationsCompile(input)
  {
    PlanHolds(input, p);
    NormalizeHolds(input, p);
    OperationsFine(input, Normalize(p));
    if OperationsPlaced(input) {
      OperationNeedsExactly(input, p);
    }
  }

  lemma ModuleDepsOnce(input: Input, p: Plan)
    requires MadeFrom(NormalInput(input), p) && UniqueBy(input.modules, InputModuleName)
    ensures UniqueBy(Normalize(p).moduleDependencies, Pair)
  {
    forall x ensures UniqueBy(ModuleEdges(NormalModuleInput(x)), Pair)
      ensures forall e | e in ModuleEdges(NormalModuleInput(x)) :: e.from == InputModuleName(x)
    {
      NeedsOnce(x.name, x.dependsOn, (d: string) => Dependency(x.name, d, Reused(x.evidence, "/dependsOn/" + d)));
      assert ModuleEdges(NormalModuleInput(x)) ==
             Map((d: string) => Dependency(x.name, d, Reused(x.evidence, "/dependsOn/" + d)), StableStrings(x.dependsOn));
    }
    PlansCompare();
    MadeOnceEach(ModuleInputBefore, NormalModuleInput, ModuleEdges, InputModuleName, input.modules);
    StillOnce(FlatMap(ModuleEdges, NormalInput(input).modules), Normalize(p).moduleDependencies);
  }

  lemma ModuleDeps(input: Input, p: Plan)
    requires MadeFrom(NormalInput(input), p)
    ensures ListsNeeds(input.modules, InputModuleName, ModuleNeeds, ModuleEvidence, "/dependsOn/",
                       Normalize(p).moduleDependencies)
  {
    forall e ensures e in Normalize(p).moduleDependencies <==>
              exists x | x in input.modules :: DependencyOf(e, x.name, x.dependsOn, x.evidence, "/dependsOn/")
    {
      PlanModuleDependencies(input, p, e);
      NormalizedHas(p.moduleDependencies, e);
    }
  }

  lemma NamesOfModules(input: Input, n: Plan)
    requires Carries(SameModule, input.modules, n.modules)
    ensures Keyed(input.modules, InputModuleName, ModuleNames(n))
  {
    forall k ensures k in ModuleNames(n) <==> exists x | x in input.modules :: InputModuleName(x) == k {
      CarriedKeys(SameModule, input.modules, n.modules, InputModuleName, ModuleName, k);
    }
  }

  lemma ModulesPassExactly(input: Input, p: Plan)
    requires MadeFrom(NormalInput(input), p)
    ensures ModulesPass(Normalize(p)) <==> ModulesCompile(input)
  {
    var n := Normalize(p);
    PlanHolds(input, p);
    NormalizeHolds(input, p);
    ModulesFine(input, n);
    if ModulesOk(n.modules) {
      ModuleDepsOnce(input, p);
      ModuleDeps(input, p);
      NamesOfModules(input, n);
      NeedsExactly(input.modules, InputModuleName, ModuleNeeds, ModuleEvidence, "/dependsOn/",
                   n.moduleDependencies, ModuleNames(n));
    }
  }

  // ----- the requirements pass -----

  lemma RequirementPasses(r: Requirement, x: ModuleInput, names: seq<string>)
    requires RequirementFor(r, x.name, x.requirements, x.evidence) && GoodEvidence(x.evidence) && x.name in names
    ensures RequirementOk(r, names)
  {
  }

  lemma RequirementsPass(input: Input, p: Plan)
    requires MadeFrom(NormalInput(input), p) && ModulesCompile(input)
    ensures RequirementsOk(Normalize(p).requirements, ModuleNames(Normalize(p)))
  {
    var n := Normalize(p);
    PlanHolds(input, p);
    NormalizeHolds(input, p);
    NamesOfModules(input, n);
    forall r | r in n.requirements ensures RequirementOk(r, ModuleNames(n)) {
      RequirementStays(input, p, r);
      PlanRequirements(input, p, r);
      var x :| x in input.modules && RequirementFor(r, x.name, x.requirements, x.evidence);
      assert InputModuleName(x) == x.name && ModuleFine(x);
      RequirementPasses(r, x, ModuleNames(n));
    }
  }

  lemma RequirementStays(input: Input, p: Plan, r: Requirement)
    requires MadeFrom(NormalInput(input), p)
    ensures r in Normalize(p).requirements <==> r in p.requirements
  {
    var all := FlatMap(RequirementsOf, Map(ToModule, NormalInput(input).modules));
    AllLowerKinds(Map(ToModule, NormalInput(input).modules));
    RequirementsSettle(all);
    RequirementsSettle(NormalRequirements(all));
    RequirementsSettle(NormalRequirements(NormalRequirements(all)));
    UniqueInMultiset(p.requirements, Normalize(p).requirements);
  }

  /** An input compiles exactly when its things are fine one by one, their keys differ, and what they need is there. */
  lemma CompilesExactly(input: Input, p: Plan)
    requires MadeFrom(NormalInput(input), p)
    ensures ValidNormal(Normalize(p)) <==> ApplicationsCompile(input) && OperationsCompile(input) && ModulesCompile(input)
  {
    ApplicationsPassExactly(input, p);
    OperationsPassExactly(input, p);
    ModulesPassExactly(input, p);
    CompiledClosureCurrent(NormalInput(input), p);
    CompiledTargetCurrent(NormalInput(input), p);
    if ModulesCompile(input) {
      RequirementsPass(input, p);
      CompiledRequirementsCurrent(input, p);
    }
  }
}
