/** What a compiled plan holds of its input, and exactly which inputs compile. */
module AssemblyContents {
  import opened Sorting
  import opened Strings
  import opened Text
  import opened PlanFacts
  import opened Graphs
  import opened CycleSearch
  import opened Closure
  import opened AssemblyPlan
  import opened AssemblyValidation
  import opened AssemblyLaws

  // ----- lists that hold the same things, each in its own form -----

  ghost predicate Matches<X(!new), A(!new)>(same: (X, A) -> bool, xs: seq<X>, items: seq<A>) {
    |items| == |xs| && forall i | 0 <= i < |xs| :: same(xs[i], items[i])
  }

  /** The items are the `xs`, each in its own form, in some order. */
  ghost predicate Carries<X(!new), A(!new)>(same: (X, A) -> bool, xs: seq<X>, items: seq<A>) {
    exists listed :: multiset(listed) == multiset(items) && Matches(same, xs, listed)
  }

  ghost predicate Keeps<X(!new), A(!new)>(same: (X, A) -> bool, f: A -> A) {
    forall x, a | same(x, a) :: same(x, f(a))
  }

  /** Normalizing the items and sorting them changes nothing about what they hold. */
  lemma CarriedOn<X(!new), A(!new)>(same: (X, A) -> bool, before: (A, A) -> bool, f: A -> A, xs: seq<X>, items: seq<A>)
    requires Carries(same, xs, items) && Comparison(before) && Keeps(same, f)
    ensures Carries(same, xs, SortBy(before, Map(f, items)))
  {
    var listed :| multiset(listed) == multiset(items) && Matches(same, xs, listed);
    SortBySorts(before, Map(f, items));
    MapRearranged(f, listed, items);
    assert Matches(same, xs, Map(f, listed));
  }

  /** Every thing is there. */
  lemma ItemOf<X(!new), A(!new)>(same: (X, A) -> bool, xs: seq<X>, items: seq<A>, x: X) returns (a: A)
    requires Carries(same, xs, items) && x in xs
    ensures a in items && same(x, a)
  {
    var listed :| multiset(listed) == multiset(items) && Matches(same, xs, listed);
    UniqueInMultiset(listed, items);
    var i :| 0 <= i < |xs| && xs[i] == x;
    a := listed[i];
  }

  /** Nothing else is there. */
  lemma ThingOf<X(!new), A(!new)>(same: (X, A) -> bool, xs: seq<X>, items: seq<A>, a: A) returns (x: X)
    requires Carries(same, xs, items) && a in items
    ensures x in xs && same(x, a)
  {
    var listed :| multiset(listed) == multiset(items) && Matches(same, xs, listed);
    UniqueInMultiset(listed, items);
    var i :| 0 <= i < |listed| && listed[i] == a;
    x := xs[i];
  }

  lemma CarriedEach<X(!new), A(!new)>(same: (X, A) -> bool, xs: seq<X>, items: seq<A>)
    requires Carries(same, xs, items)
    ensures |items| == |xs|
    ensures forall x | x in xs :: exists a | a in items :: same(x, a)
    ensures forall a | a in items :: exists x | x in xs :: same(x, a)
  {
    var listed :| multiset(listed) == multiset(items) && Matches(same, xs, listed);
    assert |items| == |multiset(items)| == |listed|;
    forall x | x in xs ensures exists a | a in items :: same(x, a) {
      var a := ItemOf(same, xs, items, x);
    }
    forall a | a in items ensures exists x | x in xs :: same(x, a) {
      var x := ThingOf(same, xs, items, a);
    }
  }

  lemma MapHas<A, B>(f: A -> B, s: seq<A>, y: B)
    ensures y in Map(f, s) <==> exists x | x in s :: f(x) == y
  {
    forall x | x in s ensures f(x) in Map(f, s) {
      var i :| 0 <= i < |s| && s[i] == x;
      assert Map(f, s)[i] == f(x);
    }
  }

  /** The keys of the items are those of the things. */
  lemma CarriedKeys<X(!new), A(!new), K>(same: (X, A) -> bool, xs: seq<X>, items: seq<A>, ofX: X -> K, ofA: A -> K, k: K)
    requires Carries(same, xs, items) && forall x, a | same(x, a) :: ofX(x) == ofA(a)
    ensures k in Map(ofA, items) <==> exists x | x in xs :: ofX(x) == k
  {
    MapHas(ofA, items, k);
    if a :| a in items && ofA(a) == k {
      var x := ThingOf(same, xs, items, a);
      assert ofX(x) == k;
    }
    if x :| x in xs && ofX(x) == k {
      var a := ItemOf(same, xs, items, x);
      assert ofA(a) == k;
    }
  }

  lemma CarriedUnique<X(!new), A(!new), K>(same: (X, A) -> bool, xs: seq<X>, items: seq<A>, ofX: X -> K, ofA: A -> K)
    requires Carries(same, xs, items) && forall x, a | same(x, a) :: ofX(x) == ofA(a)
    ensures UniqueBy(items, ofA) <==> UniqueBy(xs, ofX)
  {
    var listed :| multiset(listed) == multiset(items) && Matches(same, xs, listed);
    UniqueByRearranged(listed, items, ofA);
    assert forall i | 0 <= i < |xs| :: same(xs[i], listed[i]) && ofX(xs[i]) == ofA(listed[i]);
  }

  // ----- what a plan holds of each thing -----

  function InputApplicationId(a: ApplicationInput): string {
    a.id
  }

  function InputOperationId(o: OperationInput): string {
    o.id
  }

  function InputModuleName(m: ModuleInput): string {
    m.name
  }

  predicate SameApplication(x: ApplicationInput, a: Application) {
    && a.id == x.id && a.domain == x.domain && a.name == x.name && a.evidence == x.evidence
    && multiset(a.capabilities) == multiset(x.capabilities)
  }

  /** The bindings as a plan holds them: for the operation, with the transport in lower case. */
  function BoundAs(x: OperationInput): seq<Binding> {
    Map((b: BindingInput) => Binding(x.id, Lower(b.transport), b.index, b.evidence), x.bindings)
  }

  predicate SameOperation(x: OperationInput, o: Operation) {
    && o.id == x.id && o.application == x.application && o.evidence == x.evidence
    && multiset(o.bindings) == multiset(BoundAs(x))
  }

  predicate SameModule(x: ModuleInput, m: Module) {
    && m.name == x.name && m.version == x.version && m.evidence == x.evidence
    && m.requirements.configKey == x.requirements.configKey
    && m.requirements.logger == x.requirements.logger && m.requirements.eventBus == x.requirements.eventBus
    && m.requirements.databases == StableStrings(x.requirements.databases)
    && m.requirements.rpc == StableStrings(x.requirements.rpc)
  }

  lemma SameApplicationMade(x: ApplicationInput)
    ensures SameApplication(x, ToApplication(NormalApplicationInput(x)))
  {
    PlansCompare();
    SortBySorts(CapabilityBefore, x.capabilities);
  }

  lemma SameApplicationKept()
    ensures Keeps(SameApplication, NormalApplication)
  {
    PlansCompare();
    forall x, a | SameApplication(x, a) ensures SameApplication(x, NormalApplication(a)) {
      SortBySorts(CapabilityBefore, a.capabilities);
    }
  }

  lemma SameOperationMade(x: OperationInput)
    ensures SameOperation(x, ToOperation(NormalOperationInput(x)))
  {
    PlansCompare();
    var lowered := Map(NormalBindingInput, x.bindings);
    SortBySorts(BindingInputBefore, lowered);
    var place := (b: BindingInput) => Binding(x.id, b.transport, b.index, b.evidence);
    MapRearranged(place, SortBy(BindingInputBefore, lowered), lowered);
    assert Map(place, lowered) == BoundAs(x);
    assert ToOperation(NormalOperationInput(x)).bindings == Map(place, SortBy(BindingInputBefore, lowered));
  }

  lemma LowerTwice(s: string)
    ensures Lower(Lower(s)) == Lower(s)
  {
  }

  lemma BoundStays(x: OperationInput)
    ensures Map(NormalBinding, BoundAs(x)) == BoundAs(x)
  {
    forall i | 0 <= i < |x.bindings| ensures NormalBinding(BoundAs(x)[i]) == BoundAs(x)[i] {
      LowerTwice(x.bindings[i].transport);
    }
  }

  lemma SameOperationKept()
    ensures Keeps(SameOperation, NormalOperation)
  {
    PlansCompare();
    forall x, o | SameOperation(x, o) ensures SameOperation(x, NormalOperation(o)) {
      SortBySorts(BindingBefore, Map(NormalBinding, o.bindings));
      MapRearranged(NormalBinding, o.bindings, BoundAs(x));
      BoundStays(x);
    }
  }

  lemma SameModuleKept()
    ensures forall x :: SameModule(x, ToModule(NormalModuleInput(x)))
    ensures Keeps(SameModule, NormalModule)
  {
    forall x, m | SameModule(x, m) ensures SameModule(x, NormalModule(m)) {
      StableTwice(x.requirements.databases);
      StableTwice(x.requirements.rpc);
    }
  }

  // ----- the lists of a plan -----

  ghost predicate Holds(input: Input, p: Plan) {
    && Carries(SameApplication, input.applications, p.applications)
    && Carries(SameOperation, input.operations, p.operations)
    && Carries(SameModule, input.modules, p.modules)
  }

  lemma NormalizeHolds(input: Input, p: Plan)
    requires Holds(input, p)
    ensures Holds(input, Normalize(p))
  {
    PlansCompare();
    SameApplicationKept();
    SameOperationKept();
    SameModuleKept();
    CarriedOn(SameApplication, ApplicationBefore, NormalApplication, input.applications, p.applications);
    CarriedOn(SameOperation, OperationBefore, NormalOperation, input.operations, p.operations);
    CarriedOn(SameModule, ModuleBefore, NormalModule, input.modules, p.modules);
  }

  /** Made from the sorted normal forms, the list holds the same. */
  lemma DraftCarries<X(!new), A(!new)>(same: (X, A) -> bool, before: (X, X) -> bool, f: X -> X, make: X -> A, xs: seq<X>)
    requires Comparison(before) && forall x :: same(x, make(f(x)))
    ensures Carries(same, xs, Map(make, SortBy(before, Map(f, xs))))
  {
    SortBySorts(before, Map(f, xs));
    MapRearranged(make, SortBy(before, Map(f, xs)), Map(f, xs));
    assert Matches(same, xs, Map(make, Map(f, xs)));
  }

  lemma DraftHolds(input: Input, closure: seq<Dependency>)
    ensures Holds(input, Draft(NormalInput(input), closure))
  {
    PlansCompare();
    forall x ensures SameApplication(x, ToApplication(NormalApplicationInput(x))) {
      SameApplicationMade(x);
    }
    forall x ensures SameOperation(x, ToOperation(NormalOperationInput(x))) {
      SameOperationMade(x);
    }
    SameModuleKept();
    DraftCarries(SameApplication, ApplicationInputBefore, NormalApplicationInput, ToApplication, input.applications);
    DraftCarries(SameOperation, OperationInputBefore, NormalOperationInput, ToOperation, input.operations);
    DraftCarries(SameModule, ModuleInputBefore, NormalModuleInput, ToModule, input.modules);
  }

  /**
   The applications, operations and modules of a plan are those of its input: as many, with the
   same names, parts and evidence, and nothing else.
   */
  lemma PlanHolds(input: Input, p: Plan)
    requires MadeFrom(NormalInput(input), p)
    ensures Carries(SameApplication, input.applications, p.applications)
    ensures Carries(SameOperation, input.operations, p.operations)
    ensures Carries(SameModule, input.modules, p.modules)
  {
    var i := NormalInput(input);
    var closure :| p == Finish(Draft(i, closure));
    var draft := Draft(i, closure);
    DraftHolds(input, closure);
    NormalizeHolds(input, draft);
    var first := Normalize(draft);
    NormalizeHolds(input, first.(targets := [DeriveRootTarget(first)]));
  }

  lemma HeldApplications(input: Input, p: Plan)
    requires MadeFrom(NormalInput(input), p)
    ensures |p.applications| == |input.applications|
    ensures forall x | x in input.applications :: exists a | a in p.applications :: SameApplication(x, a)
    ensures forall a | a in p.applications :: exists x | x in input.applications :: SameApplication(x, a)
  {
    PlanHolds(input, p);
    CarriedEach(SameApplication, input.applications, p.applications);
  }

  lemma HeldOperations(input: Input, p: Plan)
    requires MadeFrom(NormalInput(input), p)
    ensures |p.operations| == |input.operations|
    ensures forall x | x in input.operations :: exists o | o in p.operations :: SameOperation(x, o)
    ensures forall o | o in p.operations :: exists x | x in input.operations :: SameOperation(x, o)
  {
    PlanHolds(input, p);
    CarriedEach(SameOperation, input.operations, p.operations);
  }

  lemma HeldModules(input: Input, p: Plan)
    requires MadeFrom(NormalInput(input), p)
    ensures |p.modules| == |input.modules|
    ensures forall x | x in input.modules :: exists m | m in p.modules :: SameModule(x, m)
    ensures forall m | m in p.modules :: exists x | x in input.modules :: SameModule(x, m)
  {
    PlanHolds(input, p);
    CarriedEach(SameModule, input.modules, p.modules);
  }

  // ----- dependencies -----

  lemma StableIn(s: seq<string>, b: string)
    ensures b in StableStrings(s) <==> b in s && b != ""
  {
    StableHas(s);
    assert Has(StableStrings(s), b) <==> Has(s, b) && b != "";
  }

  /** What the sorted normal forms of some things make, all together. */
  lemma MadeOfAll<X(!new), A>(before: (X, X) -> bool, normal: X -> X, make: X -> seq<A>, xs: seq<X>, e: A)
    requires Comparison(before)
    ensures e in FlatMap(make, SortBy(before, Map(normal, xs))) <==> exists x | x in xs :: e in make(normal(x))
  {
    var items := SortBy(before, Map(normal, xs));
    SortBySorts(before, Map(normal, xs));
    UniqueInMultiset(items, Map(normal, xs));
    FlatMapHas(make, items, e);
    forall x | x in xs ensures normal(x) in items {
      MapHas(normal, xs, normal(x));
    }
    forall y | y in items ensures exists x | x in xs :: normal(x) == y {
      MapHas(normal, xs, y);
    }
  }

  /** One dependency for each name that is not blank. */
  predicate DependencyOf(e: Dependency, name: string, needs: seq<string>, evidence: Evidence, part: string) {
    && e.from == name && e.to in needs && e.to != ""
    && e.evidence == Evidence("reused", evidence.source, evidence.ref + (part + e.to))
  }

  lemma EdgesOf(name: string, needs: seq<string>, evidence: Evidence, part: string, edge: string -> Dependency, e: Dependency)
    requires forall d :: edge(d) == Dependency(name, d, Reused(evidence, part + d))
    ensures e in Map(edge, StableStrings(needs)) <==> DependencyOf(e, name, needs, evidence, part)
  {
    MapHas(edge, StableStrings(needs), e);
    StableIn(needs, e.to);
  }

  lemma ApplicationEdgesOf(x: ApplicationInput, e: Dependency)
    ensures e in ApplicationEdges(NormalApplicationInput(x)) <==> DependencyOf(e, x.id, x.dependsOn, x.evidence, "/requires/")
  {
    var edge := (d: string) => Dependency(x.id, d, Reused(x.evidence, "/requires/" + d));
    EdgesOf(x.id, x.dependsOn, x.evidence, "/requires/", edge, e);
    assert ApplicationEdges(NormalApplicationInput(x)) == Map(edge, StableStrings(x.dependsOn));
  }

  lemma OperationEdgesOf(x: OperationInput, e: Dependency)
    ensures e in OperationEdges(NormalOperationInput(x)) <==>
              DependencyOf(e, x.id, x.requiresOperations, x.evidence, "/requiresOperations/")
  {
    var edge := (d: string) => Dependency(x.id, d, Reused(x.evidence, "/requiresOperations/" + d));
    EdgesOf(x.id, x.requiresOperations, x.evidence, "/requiresOperations/", edge, e);
    assert OperationEdges(NormalOperationInput(x)) == Map(edge, StableStrings(x.requiresOperations));
  }

  lemma ModuleEdgesOf(x: ModuleInput, e: Dependency)
    ensures e in ModuleEdges(NormalModuleInput(x)) <==> DependencyOf(e, x.name, x.dependsOn, x.evidence, "/dependsOn/")
  {
    var edge := (d: string) => Dependency(x.name, d, Reused(x.evidence, "/dependsOn/" + d));
    EdgesOf(x.name, x.dependsOn, x.evidence, "/dependsOn/", edge, e);
    assert ModuleEdges(NormalModuleInput(x)) == Map(edge, StableStrings(x.dependsOn));
  }

  lemma NormalizedHas(s: seq<Dependency>, e: Dependency)
    ensures e in NormalizeDependencies(s) <==> e in s
  {
    NormalizeKeeps(s);
  }

  /** The application dependencies of a plan are exactly those its input declares, blanks left out. */
  lemma PlanDependencies(input: Input, p: Plan, e: Dependency)
    requires MadeFrom(NormalInput(input), p)
    ensures e in p.applicationDependencies <==>
              exists x | x in input.applications :: DependencyOf(e, x.id, x.dependsOn, x.evidence, "/requires/")
  {
    var edges := FlatMap(ApplicationEdges, NormalInput(input).applications);
    NormalizedHas(edges, e);
    NormalizedHas(NormalizeDependencies(edges), e);
    PlansCompare();
    MadeOfAll(ApplicationInputBefore, NormalApplicationInput, ApplicationEdges, input.applications, e);
    forall x | x in input.applications
      ensures e in ApplicationEdges(NormalApplicationInput(x)) <==> DependencyOf(e, x.id, x.dependsOn, x.evidence, "/requires/")
    {
      ApplicationEdgesOf(x, e);
    }
  }

  lemma PlanOperationDependencies(input: Input, p: Plan, e: Dependency)
    requires MadeFrom(NormalInput(input), p)
    ensures e in p.operationDependencies <==>
              exists x | x in input.operations :: DependencyOf(e, x.id, x.requiresOperations, x.evidence, "/requiresOperations/")
  {
    var edges := FlatMap(OperationEdges, NormalInput(input).operations);
    NormalizedHas(edges, e);
    NormalizedHas(NormalizeDependencies(edges), e);
    PlansCompare();
    MadeOfAll(OperationInputBefore, NormalOperationInput, OperationEdges, input.operations, e);
    forall x | x in input.operations
      ensures e in OperationEdges(NormalOperationInput(x)) <==>
                DependencyOf(e, x.id, x.requiresOperations, x.evidence, "/requiresOperations/")
    {
      OperationEdgesOf(x, e);
    }
  }

  lemma PlanModuleDependencies(input: Input, p: Plan, e: Dependency)
    requires MadeFrom(NormalInput(input), p)
    ensures e in p.moduleDependencies <==>
              exists x | x in input.modules :: DependencyOf(e, x.name, x.dependsOn, x.evidence, "/dependsOn/")
  {
    var edges := FlatMap(ModuleEdges, NormalInput(input).modules);
    NormalizedHas(edges, e);
    NormalizedHas(NormalizeDependencies(edges), e);
    PlansCompare();
    MadeOfAll(ModuleInputBefore, NormalModuleInput, ModuleEdges, input.modules, e);
    forall x | x in input.modules
      ensures e in ModuleEdges(NormalModuleInput(x)) <==> DependencyOf(e, x.name, x.dependsOn, x.evidence, "/dependsOn/")
    {
      ModuleEdgesOf(x, e);
    }
  }

  // ----- the closure -----

  /** The application needs the other, in the input. */
  ghost predicate Declares(input: Input, a: string, b: string) {
    b != "" && exists x | x in input.applications :: x.id == a && b in x.dependsOn
  }

  lemma PlanEdges(input: Input, p: Plan)
    requires MadeFrom(NormalInput(input), p)
    ensures forall a, b :: Edge(EdgeGraph(p.applicationDependencies), a, b) <==> Declares(input, a, b)
  {
    EdgeGraphEdges(p.applicationDependencies);
    forall a, b ensures Depends(p.applicationDependencies, a, b) && b != "" <==> Declares(input, a, b) {
      forall e | Joins(e, a, b) {
        PlanDependencies(input, p, e);
      }
      forall x | x in input.applications && x.id == a && b in x.dependsOn && b != "" ensures Depends(p.applicationDependencies, a, b) {
        var e := Dependency(a, b, Evidence("reused", x.evidence.source, x.evidence.ref + ("/requires/" + b)));
        PlanDependencies(input, p, e);
        assert DependencyOf(e, x.id, x.dependsOn, x.evidence, "/requires/") && Joins(e, a, b);
      }
    }
  }

  /** The closure a plan carries says exactly what its input's applications reach. */
  lemma PlanClosure(input: Input, p: Plan, a: string, b: string)
    requires MadeFrom(NormalInput(input), p)
    ensures Depends(p.applicationClosure, a, b) <==> a != b && Reaches(EdgeGraph(p.applicationDependencies), a, b)
    ensures forall e | e in p.applicationClosure :: e.evidence == Evidence("derived", "application-dependency-closure", e.from + "->" + e.to)
    ensures forall x, y :: Edge(EdgeGraph(p.applicationDependencies), x, y) <==> Declares(input, x, y)
  {
    var i := NormalInput(input);
    var edges := FlatMap(ApplicationEdges, i.applications);
    var c :| ClosesInput(i, c) && p == Finish(Draft(i, c));
    assert p.applicationClosure == c;
    DependenciesKept(edges);
    DependenciesKept(NormalizeDependencies(edges));
    EdgeGraphEdges(edges);
    EdgeGraphEdges(p.applicationDependencies);
    SameClosure(EdgeGraph(edges), EdgeGraph(p.applicationDependencies), CLOSURE_SOURCE, c);
    PlanEdges(input, p);
    if a != b && Reaches(EdgeGraph(p.applicationDependencies), a, b) {
      assert Derived(CLOSURE_SOURCE, a, b) in c && Joins(Derived(CLOSURE_SOURCE, a, b), a, b);
    }
  }

  // ----- requirements -----

  /** What a module asks for, one requirement each. */
  predicate RequirementFor(r: Requirement, name: string, q: ModuleRequirements, evidence: Evidence) {
    && r.moduleName == name && r.evidence.ownership == "reused" && r.evidence.source == evidence.source
    && (|| (r.kind == "config" && r.name == q.configKey && r.name != ""
            && r.evidence.ref == evidence.ref + "/requirements/configKey")
        || (r.kind == "logger" && q.logger && r.name == "" && r.evidence.ref == evidence.ref + "/requirements/logger")
        || (r.kind == "database" && r.name in q.databases && r.name != ""
            && r.evidence.ref == evidence.ref + ("/requirements/databases/" + r.name))
        || (r.kind == "event_bus" && q.eventBus && r.name == "" && r.evidence.ref == evidence.ref + "/requirements/eventBus")
        || (r.kind == "rpc" && r.name in q.rpc && r.name != ""
            && r.evidence.ref == evidence.ref + ("/requirements/rpc/" + r.name)))
  }

  lemma ListedExactly(m: Module, r: Requirement)
    ensures r in ListedRequirements(m) <==> RequirementFor(r, m.name, m.requirements, m.evidence)
  {
    StableIn(m.requirements.databases, r.name);
    StableIn(m.requirements.rpc, r.name);
    MapHas((d: string) => Needed(m, "database", d, "/requirements/databases/" + d), StableStrings(m.requirements.databases), r);
    MapHas((n: string) => Needed(m, "rpc", n, "/requirements/rpc/" + n), StableStrings(m.requirements.rpc), r);
  }

  /** A requirement is listed exactly for what the module asks for. */
  lemma RequirementsExactly(m: Module, r: Requirement)
    ensures r in RequirementsOf(m) <==> RequirementFor(r, m.name, m.requirements, m.evidence)
  {
    var listed := ListedRequirements(m);
    KindsAreLower();
    PlansCompare();
    SortBySorts(RequirementBefore, Map(NormalRequirement, listed));
    UniqueInMultiset(RequirementsOf(m), Map(NormalRequirement, listed));
    MapHas(NormalRequirement, listed, r);
    forall x | x in listed ensures NormalRequirement(x) == x {
      ListedShape(m, x);
    }
    ListedExactly(m, r);
  }

  lemma NormalAsks(x: ModuleInput, r: Requirement)
    ensures r in RequirementsOf(ToModule(NormalModuleInput(x))) <==> RequirementFor(r, x.name, x.requirements, x.evidence)
  {
    RequirementsExactly(ToModule(NormalModuleInput(x)), r);
    StableIn(x.requirements.databases, r.name);
    StableIn(x.requirements.rpc, r.name);
  }

  lemma ModuleOfInput(input: Input, m: Module)
    ensures m in Map(ToModule, NormalInput(input).modules) <==> exists x | x in input.modules :: m == ToModule(NormalModuleInput(x))
  {
    var items := NormalInput(input).modules;
    PlansCompare();
    SortBySorts(ModuleInputBefore, Map(NormalModuleInput, input.modules));
    UniqueInMultiset(items, Map(NormalModuleInput, input.modules));
    MapHas(ToModule, items, m);
    forall x | x in input.modules ensures NormalModuleInput(x) in items {
      MapHas(NormalModuleInput, input.modules, NormalModuleInput(x));
    }
    forall y | y in items ensures exists x | x in input.modules :: NormalModuleInput(x) == y {
      MapHas(NormalModuleInput, input.modules, y);
    }
  }

  lemma AskedOf(input: Input, r: Requirement)
    ensures r in FlatMap(RequirementsOf, Map(ToModule, NormalInput(input).modules)) <==>
              exists x | x in input.modules :: r in RequirementsOf(ToModule(NormalModuleInput(x)))
  {
    var modules := Map(ToModule, NormalInput(input).modules);
    FlatMapHas(RequirementsOf, modules, r);
    if m :| m in modules && r in RequirementsOf(m) {
      ModuleOfInput(input, m);
    }
    forall x | x in input.modules && r in RequirementsOf(ToModule(NormalModuleInput(x)))
      ensures exists m | m in modules :: r in RequirementsOf(m)
    {
      ModuleOfInput(input, ToModule(NormalModuleInput(x)));
    }
  }

  lemma RequirementsHeld(input: Input, p: Plan, r: Requirement)
    requires MadeFrom(NormalInput(input), p)
    ensures r in p.requirements <==> r in FlatMap(RequirementsOf, Map(ToModule, NormalInput(input).modules))
  {
    var modules := Map(ToModule, NormalInput(input).modules);
    var all := FlatMap(RequirementsOf, modules);
    AllLowerKinds(modules);
    RequirementsSettle(all);
    RequirementsSettle(NormalRequirements(all));
    UniqueInMultiset(all, NormalRequirements(NormalRequirements(all)));
    assert p.requirements == NormalRequirements(NormalRequirements(all));
  }

  /** The requirements of a plan are exactly what the modules of its input ask for. */
  lemma PlanRequirements(input: Input, p: Plan, r: Requirement)
    requires MadeFrom(NormalInput(input), p)
    ensures r in p.requirements <==> exists x | x in input.modules :: RequirementFor(r, x.name, x.requirements, x.evidence)
  {
    RequirementsHeld(input, p, r);
    AskedOf(input, r);
    forall x | x in input.modules
      ensures r in RequirementsOf(ToModule(NormalModuleInput(x))) <==> RequirementFor(r, x.name, x.requirements, x.evidence)
    {
      NormalAsks(x, r);
    }
  }

  // ----- the target -----

  /** Sorted names, each once, none of them blank. */
  ghost predicate NamesOnce(s: seq<string>) {
    "" !in s && (forall i, j | 0 <= i < j < |s| :: s[i] != s[j] && !Before(s[j], s[i]))
  }

  lemma StableOnce(s: seq<string>)
    ensures NamesOnce(StableStrings(s))
  {
    StableHas(s);
    StableIn(s, "");
  }

  lemma OneTargetDerived(input: Input, p: Plan)
    requires MadeFrom(NormalInput(input), p)
    ensures p.targets == [DeriveRootTarget(p)]
  {
    var c :| p == Finish(Draft(NormalInput(input), c));
    var first := Normalize(Draft(NormalInput(input), c));
    var t := DeriveRootTarget(first);
    var second := first.(targets := [t]);
    DerivedTargetNormal(first);
    OneTarget(second, t);
    TargetKept(second);
    assert DeriveRootTarget(second) == t;
  }

  /** The operation is there, with bindings or without. */
  predicate Bound(o: Operation, id: string, bound: bool) {
    o.id == id && (o.bindings != []) == bound
  }

  predicate BoundInput(x: OperationInput, id: string, bound: bool) {
    x.id == id && (x.bindings != []) == bound
  }

  /** The target lists an operation as external exactly when it has a binding, and as internal otherwise. */
  lemma TargetExactly(p: Plan, id: string)
    requires id != ""
    ensures id in DeriveRootTarget(p).externalOperations <==> exists o | o in p.operations :: Bound(o, id, true)
    ensures id in DeriveRootTarget(p).internalOperations <==> exists o | o in p.operations :: Bound(o, id, false)
  {
    StableIn(FlatMap(IsExternal, p.operations), id);
    StableIn(FlatMap(IsInternal, p.operations), id);
    FlatMapHas(IsExternal, p.operations, id);
    FlatMapHas(IsInternal, p.operations, id);
  }

  lemma BoundAlike(x: OperationInput, o: Operation)
    requires SameOperation(x, o)
    ensures x.bindings == [] <==> o.bindings == []
  {
    assert |multiset(o.bindings)| == |o.bindings| && |multiset(BoundAs(x))| == |x.bindings|;
  }

  lemma HeldBound(input: Input, p: Plan, id: string, bound: bool)
    requires MadeFrom(NormalInput(input), p)
    ensures (exists o | o in p.operations :: Bound(o, id, bound)) <==> exists x | x in input.operations :: BoundInput(x, id, bound)
  {
    PlanHolds(input, p);
    if o :| o in p.operations && Bound(o, id, bound) {
      var x := ThingOf(SameOperation, input.operations, p.operations, o);
      BoundAlike(x, o);
    }
    if x :| x in input.operations && BoundInput(x, id, bound) {
      var o := ItemOf(SameOperation, input.operations, p.operations, x);
      BoundAlike(x, o);
    }
  }

  lemma TargetOperations(input: Input, p: Plan, id: string)
    requires MadeFrom(NormalInput(input), p) && id != ""
    ensures id in DeriveRootTarget(p).externalOperations <==> exists x | x in input.operations :: BoundInput(x, id, true)
    ensures id in DeriveRootTarget(p).internalOperations <==> exists x | x in input.operations :: BoundInput(x, id, false)
  {
    TargetExactly(p, id);
    HeldBound(input, p, id, true);
    HeldBound(input, p, id, false);
  }

  lemma TargetNames(input: Input, p: Plan, id: string)
    requires MadeFrom(NormalInput(input), p) && id != ""
    ensures id in DeriveRootTarget(p).applications <==> exists x | x in input.applications :: InputApplicationId(x) == id
    ensures id in DeriveRootTarget(p).modules <==> exists x | x in input.modules :: InputModuleName(x) == id
  {
    StableIn(Map((a: Application) => a.id, p.applications), id);
    StableIn(Map((m: Module) => m.name, p.modules), id);
    PlanHolds(input, p);
    CarriedKeys(SameApplication, input.applications, p.applications, InputApplicationId, (a: Application) => a.id, id);
    CarriedKeys(SameModule, input.modules, p.modules, InputModuleName, (m: Module) => m.name, id);
  }

  /**
   A plan has one target, the root, which lists every application and module of the input, every
   operation with a binding as external and every other one as internal; and nothing else.
   */
  lemma PlanTarget(input: Input, p: Plan, id: string)
    requires MadeFrom(NormalInput(input), p) && id != ""
    ensures |p.targets| == 1 && p.targets[0].name == "root"
    ensures p.targets[0].evidence == Evidence("derived", "assemblyplan", "targets/root")
    ensures id in p.targets[0].applications <==> exists x | x in input.applications :: x.id == id
    ensures id in p.targets[0].modules <==> exists x | x in input.modules :: x.name == id
    ensures id in p.targets[0].externalOperations <==> exists x | x in input.operations :: BoundInput(x, id, true)
    ensures id in p.targets[0].internalOperations <==> exists x | x in input.operations :: BoundInput(x, id, false)
  {
    OneTargetDerived(input, p);
    TargetNames(input, p, id);
    TargetOperations(input, p, id);
  }

  lemma PlanTargetSorted(input: Input, p: Plan)
    requires MadeFrom(NormalInput(input), p)
    ensures p.targets != []
    ensures NamesOnce(p.targets[0].applications) && NamesOnce(p.targets[0].modules)
    ensures NamesOnce(p.targets[0].externalOperations) && NamesOnce(p.targets[0].internalOperations)
  {
    OneTargetDerived(input, p);
    StableOnce(Map((a: Application) => a.id, p.applications));
    StableOnce(Map((m: Module) => m.name, p.modules));
    StableOnce(FlatMap(IsExternal, p.operations));
    StableOnce(FlatMap(IsInternal, p.operations));
  }

  // ----- what it takes for a part not to be stale -----

  /**
   Where the modules are named differently, the requirements of a plan are current exactly when
   they are, kinds in lower case, those that its modules ask for, each as often.
   */
  lemma RequirementsCurrentExactly(p: Plan)
    requires UniqueBy(p.modules, ModuleName)
    ensures RequirementsCurrent(p) <==>
              multiset(Map(NormalRequirement, p.requirements)) == multiset(FlatMap(RequirementsOf, p.modules))
  {
    var asked, given := FlatMap(RequirementsOf, p.modules), Map(NormalRequirement, p.requirements);
    AllLowerKinds(p.modules);
    RequirementsApart(p.modules);
    SortedFacts(asked);
    LowerSame(asked);
    LowerSame(SortBy(RequirementBefore, asked));
    PlansCompare();
    SortBySorts(RequirementBefore, given);
    SortBySorts(RequirementBefore, SortBy(RequirementBefore, asked));
    if multiset(given) == multiset(asked) {
      SortForgetsOrder(RequirementBefore, SortBy(RequirementBefore, asked), given);
    }
  }

  /** The two lists name the same; blanks, repetitions and the order do not count. */
  predicate SameNamesIn(a: seq<string>, b: seq<string>) {
    (forall y | y in a && y != "" :: y in b) && (forall y | y in b && y != "" :: y in a)
  }

  lemma SameNamesExactly(a: seq<string>, b: seq<string>)
    ensures StableStrings(a) == StableStrings(b) <==> SameNamesIn(a, b)
  {
    if SameNamesIn(a, b) {
      assert forall y | y != "" :: Has(a, y) <==> Has(b, y);
      StableCanonical(a, b);
    } else {
      forall y ensures y in StableStrings(a) <==> y in a && y != "" {
        StableIn(a, y);
      }
      forall y ensures y in StableStrings(b) <==> y in b && y != "" {
        StableIn(b, y);
      }
    }
  }

  /** The target of a plan is current exactly when it is the root, with that evidence, and names what the plan holds. */
  lemma TargetCurrentExactly(p: Plan)
    ensures TargetCurrent(p) <==>
              && p.targets != [] && p.targets[0].name == "root"
              && p.targets[0].evidence == Evidence("derived", "assemblyplan", "targets/root")
              && SameNamesIn(ApplicationIds(p), p.targets[0].applications) && SameNamesIn(ModuleNames(p), p.targets[0].modules)
              && SameNamesIn(FlatMap(IsExternal, p.operations), p.targets[0].externalOperations)
              && SameNamesIn(FlatMap(IsInternal, p.operations), p.targets[0].internalOperations)
  {
    if p.targets != [] {
      var t := p.targets[0];
      DerivedTargetNormal(p);
      assert Map((a: Application) => a.id, p.applications) == ApplicationIds(p);
      assert Map((m: Module) => m.name, p.modules) == ModuleNames(p);
      SameNamesExactly(ApplicationIds(p), t.applications);
      SameNamesExactly(ModuleNames(p), t.modules);
      SameNamesExactly(FlatMap(IsExternal, p.operations), t.externalOperations);
      SameNamesExactly(FlatMap(IsInternal, p.operations), t.internalOperations);
    }
  }

  /** The lists of a plan are sorted by their keys, and an input without an identity makes a plan for the root. */
  lemma PlanSorted(input: Input, p: Plan)
    requires MadeFrom(NormalInput(input), p)
    ensures p.identity == if input.identity == "" then "root" else input.identity
    ensures forall i, j | 0 <= i < j < |p.applications| :: !Before(p.applications[j].id, p.applications[i].id)
    ensures forall i, j | 0 <= i < j < |p.operations| :: !Before(p.operations[j].id, p.operations[i].id)
    ensures forall i, j | 0 <= i < j < |p.modules| :: !Before(p.modules[j].name, p.modules[i].name)
  {
    var c :| p == Finish(Draft(NormalInput(input), c));
    var first := Normalize(Draft(NormalInput(input), c));
    PlansCompare();
    SortBySorts(ApplicationBefore, Map(NormalApplication, first.applications));
    SortBySorts(OperationBefore, Map(NormalOperation, first.operations));
    SortBySorts(ModuleBefore, Map(NormalModule, first.modules));
  }

  lemma FinishedParts(draft: Plan)
    ensures
      var p, first := Finish(draft), Normalize(draft);
      && p.applicationDependencies == NormalizeDependencies(first.applicationDependencies)
      && p.applicationClosure == NormalizeDependencies(first.applicationClosure)
      && p.operationDependencies == NormalizeDependencies(first.operationDependencies)
      && p.moduleDependencies == NormalizeDependencies(first.moduleDependencies)
      && p.requirements == NormalRequirements(first.requirements)
  {
  }

  /** Dependencies are listed by who needs, then by what is needed; requirements by module, kind and name. */
  lemma PlanPartsSorted(input: Input, p: Plan)
    requires MadeFrom(NormalInput(input), p)
    ensures InPairOrder(p.applicationDependencies) && InPairOrder(p.applicationClosure)
    ensures InPairOrder(p.operationDependencies) && InPairOrder(p.moduleDependencies)
    ensures InRequirementOrder(p.requirements)
  {
    var draft := MadeOf(input, p);
    var first := Normalize(draft);
    FinishedParts(draft);
    SortedInPairs(first.applicationDependencies);
    SortedInPairs(first.applicationClosure);
    SortedInPairs(first.operationDependencies);
    SortedInPairs(first.moduleDependencies);
    SortedRequirements(first.requirements);
  }

  lemma MadeOf(input: Input, p: Plan) returns (draft: Plan)
    requires MadeFrom(NormalInput(input), p)
    ensures p == Finish(draft)
  {
    var c :| p == Finish(Draft(NormalInput(input), c));
    draft := Draft(NormalInput(input), c);
  }

  ghost predicate InPairOrder(s: seq<Dependency>) {
    forall i, j | 0 <= i < j < |s| :: !Before(s[j].from, s[i].from) && (s[j].from == s[i].from ==> !Before(s[j].to, s[i].to))
  }

  lemma SortedInPairs(s: seq<Dependency>)
    ensures InPairOrder(NormalizeDependencies(s))
  {
    NormalizeKeeps(s);
    NamesCompare();
    assert forall i, j | 0 <= i < j < |s| :: !DependencyBefore(NormalizeDependencies(s)[j], NormalizeDependencies(s)[i]) by {
      assert |multiset(NormalizeDependencies(s))| == |NormalizeDependencies(s)| && |multiset(s)| == |s|;
    }
  }

  ghost predicate InRequirementOrder(s: seq<Requirement>) {
    forall i, j | 0 <= i < j < |s| ::
      && !Before(s[j].moduleName, s[i].moduleName)
      && (s[j].moduleName == s[i].moduleName ==> !Before(s[j].kind, s[i].kind))
      && (s[j].moduleName == s[i].moduleName && s[j].kind == s[i].kind ==> !Before(s[j].name, s[i].name))
  }

  lemma SortedRequirements(s: seq<Requirement>)
    ensures InRequirementOrder(NormalRequirements(s))
  {
    PlansCompare();
    NamesCompare();
    SortBySorts(RequirementBefore, Map(NormalRequirement, s));
  }
}
