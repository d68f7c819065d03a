/** A plan depends on the facts it is compiled from, not on how they are listed; and it can be compiled again from itself. */
module AssemblyInvariance {
  import opened Sorting
  import opened Strings
  import opened Text
  import opened PlanFacts
  import opened Graphs
  import opened AssemblyPlan
  import opened AssemblyValidation
  import opened AssemblyLaws
  import opened AssemblyContents
  import opened AssemblyInputs

  // ----- listing the same facts differently -----

  predicate SameNames(a: seq<string>, b: seq<string>) {
    (forall y | y in a && y != "" :: y in b) && (forall y | y in b && y != "" :: y in a)
  }

  predicate SimilarApplication(a: ApplicationInput, b: ApplicationInput) {
    && a.id == b.id && a.domain == b.domain && a.name == b.name && a.evidence == b.evidence
    && SameNames(a.dependsOn, b.dependsOn) && multiset(a.capabilities) == multiset(b.capabilities)
  }

  predicate SimilarOperation(a: OperationInput, b: OperationInput) {
    && a.id == b.id && a.application == b.application && a.evidence == b.evidence
    && SameNames(a.requiresOperations, b.requiresOperations) && multiset(a.bindings) == multiset(b.bindings)
  }

  predicate SimilarModule(a: ModuleInput, b: ModuleInput) {
    && a.name == b.name && a.version == b.version && a.evidence == b.evidence && SameNames(a.dependsOn, b.dependsOn)
    && a.requirements.configKey == b.requirements.configKey && a.requirements.logger == b.requirements.logger
    && a.requirements.eventBus == b.requirements.eventBus
    && SameNames(a.requirements.databases, b.requirements.databases) && SameNames(a.requirements.rpc, b.requirements.rpc)
  }

  /** The lists inside the items are rearranged. */
  predicate Nested(i: Input, j: Input) {
    && i.identity == j.identity
    && |i.applications| == |j.applications| && (forall k | 0 <= k < |i.applications| :: SimilarApplication(i.applications[k], j.applications[k]))
    && |i.operations| == |j.operations| && (forall k | 0 <= k < |i.operations| :: SimilarOperation(i.operations[k], j.operations[k]))
    && |i.modules| == |j.modules| && (forall k | 0 <= k < |i.modules| :: SimilarModule(i.modules[k], j.modules[k]))
  }

  /** The items themselves are rearranged. */
  predicate Permuted(i: Input, j: Input) {
    && i.identity == j.identity && multiset(i.applications) == multiset(j.applications)
    && multiset(i.operations) == multiset(j.operations) && multiset(i.modules) == multiset(j.modules)
  }

  ghost predicate Rearranged(i: Input, j: Input) {
    exists m :: Permuted(i, m) && Nested(m, j)
  }

  // ----- inputs without conflicts -----

  function InputSlot(b: BindingInput): (string, int) {
    (b.transport, b.index)
  }

  predicate CleanApplication(a: ApplicationInput) {
    UniqueBy(a.capabilities, CapabilityKey)
  }

  predicate CleanOperation(o: OperationInput) {
    UniqueBy(Map(NormalBindingInput, o.bindings), InputSlot)
  }

  predicate CleanInput(i: Input) {
    && UniqueBy(i.applications, InputApplicationId) && (forall a | a in i.applications :: CleanApplication(a))
    && UniqueBy(i.operations, InputOperationId) && (forall o | o in i.operations :: CleanOperation(o))
    && UniqueBy(i.modules, InputModuleName)
  }

  lemma UniqueSeparates<T(!new), K>(before: (T, T) -> bool, key: T -> K, s: seq<T>)
    requires UniqueBy(s, key) && forall x, y | !before(x, y) && !before(y, x) :: key(x) == key(y)
    ensures Separates(before, s)
  {
    forall x, y | x in s && y in s && !before(x, y) && !before(y, x) ensures x == y {
      var i :| 0 <= i < |s| && s[i] == x;
      var j :| 0 <= j < |s| && s[j] == y;
      assert key(s[i]) == key(s[j]);
    }
  }

  lemma MapUnique<A, B, K>(f: A -> B, key: A -> K, other: B -> K, s: seq<A>)
    requires forall i | 0 <= i < |s| :: other(f(s[i])) == key(s[i])
    ensures UniqueBy(Map(f, s), other) <==> UniqueBy(s, key)
  {
  }

  /** Permuting items that do not conflict leaves no trace in the normalized input. */
  lemma PermutedSame(i: Input, j: Input)
    requires CleanInput(i) && Permuted(i, j)
    ensures NormalInput(i) == NormalInput(j) && CleanInput(j)
  {
    PlansCompare();
    NamesCompare();
    MapRearranged(NormalApplicationInput, i.applications, j.applications);
    MapRearranged(NormalOperationInput, i.operations, j.operations);
    MapRearranged(NormalModuleInput, i.modules, j.modules);
    MapUnique(NormalApplicationInput, InputApplicationId, InputApplicationId, i.applications);
    MapUnique(NormalOperationInput, InputOperationId, InputOperationId, i.operations);
    MapUnique(NormalModuleInput, InputModuleName, InputModuleName, i.modules);
    UniqueSeparates(ApplicationInputBefore, InputApplicationId, Map(NormalApplicationInput, i.applications));
    UniqueSeparates(OperationInputBefore, InputOperationId, Map(NormalOperationInput, i.operations));
    UniqueSeparates(ModuleInputBefore, InputModuleName, Map(NormalModuleInput, i.modules));
    SortForgetsOrder(ApplicationInputBefore, Map(NormalApplicationInput, i.applications), Map(NormalApplicationInput, j.applications));
    SortForgetsOrder(OperationInputBefore, Map(NormalOperationInput, i.operations), Map(NormalOperationInput, j.operations));
    SortForgetsOrder(ModuleInputBefore, Map(NormalModuleInput, i.modules), Map(NormalModuleInput, j.modules));
    UniqueByRearranged(i.applications, j.applications, InputApplicationId);
    UniqueByRearranged(i.operations, j.operations, InputOperationId);
    UniqueByRearranged(i.modules, j.modules, InputModuleName);
  }

  lemma StableSame(a: seq<string>, b: seq<string>)
    requires SameNames(a, b)
    ensures StableStrings(a) == StableStrings(b)
  {
    assert forall y | y != "" :: Has(a, y) <==> Has(b, y);
    StableCanonical(a, b);
  }

  lemma SimilarApplicationSame(a: ApplicationInput, b: ApplicationInput)
    requires CleanApplication(a) && SimilarApplication(a, b)
    ensures NormalApplicationInput(a) == NormalApplicationInput(b)
  {
    PlansCompare();
    NamesCompare();
    StableSame(a.dependsOn, b.dependsOn);
    UniqueSeparates(CapabilityBefore, CapabilityKey, a.capabilities);
    SortForgetsOrder(CapabilityBefore, a.capabilities, b.capabilities);
  }

  lemma SimilarOperationSame(a: OperationInput, b: OperationInput)
    requires CleanOperation(a) && SimilarOperation(a, b)
    ensures NormalOperationInput(a) == NormalOperationInput(b)
  {
    PlansCompare();
    NamesCompare();
    StableSame(a.requiresOperations, b.requiresOperations);
    MapRearranged(NormalBindingInput, a.bindings, b.bindings);
    UniqueSeparates(BindingInputBefore, InputSlot, Map(NormalBindingInput, a.bindings));
    SortForgetsOrder(BindingInputBefore, Map(NormalBindingInput, a.bindings), Map(NormalBindingInput, b.bindings));
  }

  lemma SimilarModuleSame(a: ModuleInput, b: ModuleInput)
    requires SimilarModule(a, b)
    ensures NormalModuleInput(a) == NormalModuleInput(b)
  {
    StableSame(a.dependsOn, b.dependsOn);
    StableSame(a.requirements.databases, b.requirements.databases);
    StableSame(a.requirements.rpc, b.requirements.rpc);
  }

  lemma NestedSame(i: Input, j: Input)
    requires CleanInput(i) && Nested(i, j)
    ensures NormalInput(i) == NormalInput(j)
  {
    forall k | 0 <= k < |i.applications|
      ensures NormalApplicationInput(i.applications[k]) == NormalApplicationInput(j.applications[k])
    {
      assert i.applications[k] in i.applications;
      SimilarApplicationSame(i.applications[k], j.applications[k]);
    }
    forall k | 0 <= k < |i.operations|
      ensures NormalOperationInput(i.operations[k]) == NormalOperationInput(j.operations[k])
    {
      assert i.operations[k] in i.operations;
      SimilarOperationSame(i.operations[k], j.operations[k]);
    }
    forall k | 0 <= k < |i.modules| ensures NormalModuleInput(i.modules[k]) == NormalModuleInput(j.modules[k]) {
      SimilarModuleSame(i.modules[k], j.modules[k]);
    }
    assert Map(NormalApplicationInput, i.applications) == Map(NormalApplicationInput, j.applications);
    assert Map(NormalOperationInput, i.operations) == Map(NormalOperationInput, j.operations);
    assert Map(NormalModuleInput, i.modules) == Map(NormalModuleInput, j.modules);
  }

  // ----- what a valid plan says about its input -----

  lemma UniqueKeysBack<T, K>(s: seq<T>, t: seq<T>, key: T -> K)
    requires multiset(Map(key, s)) == multiset(Map(key, t)) && UniqueBy(s, key)
    ensures UniqueBy(t, key)
  {
    UniqueByKeys(s, key);
    UniqueByKeys(t, key);
    UniqueInMultiset(Map(key, s), Map(key, t));
  }

  lemma FineIsClean(input: Input)
    requires ApplicationsCompile(input) && OperationsCompile(input) && ModulesCompile(input)
    ensures CleanInput(input)
  {
    forall a | a in input.applications ensures CleanApplication(a) {
      assert ApplicationFine(a);
    }
    forall o | o in input.operations ensures CleanOperation(o) {
      assert OperationFine(o);
      var lowered := Map(NormalBindingInput, o.bindings);
      assert forall i | 0 <= i < |o.bindings| :: InputSlot(lowered[i]) == (Lower(o.bindings[i].transport), o.bindings[i].index);
    }
  }

  /** The input of a valid plan has no conflicts. */
  lemma CleanFromValid(input: Input, p: Plan)
    requires MadeFrom(NormalInput(input), p) && ValidNormal(Normalize(p))
    ensures CleanInput(input)
  {
    CompilesExactly(input, p);
    FineIsClean(input);
  }

  lemma RearrangedSame(i: Input, j: Input)
    requires CleanInput(i) && Rearranged(i, j)
    ensures NormalInput(i) == NormalInput(j)
  {
    var m :| Permuted(i, m) && Nested(m, j);
    PermutedSame(i, m);
    NestedSame(m, j);
  }

  /** Rearranging the facts in any way changes nothing about a plan that compiles. */
  lemma CompileForgetsOrder(i: Input, j: Input, p: Plan, q: Plan)
    requires Rearranged(i, j) && MadeFrom(NormalInput(i), p) && MadeFrom(NormalInput(j), q)
    requires ValidNormal(Normalize(p))
    ensures q == p
  {
    CleanFromValid(i, p);
    RearrangedSame(i, j);
    MadeOnce(NormalInput(i), p, q);
  }

  // ----- compiling again from the plan's own modules -----

  function RebuiltModule(p: Plan, m: Module): ModuleInput {
    ModuleInput(m.name, m.version, Needs(p.moduleDependencies, m.name), m.requirements, m.evidence)
  }

  function RebuiltModules(p: Plan, n: nat): (r: seq<ModuleInput>)
    requires n <= |p.modules|
    ensures |r| == n && forall k | 0 <= k < n :: r[k] == RebuiltModule(p, p.modules[k])
  {
    seq(n, k requires 0 <= k < n => RebuiltModule(p, p.modules[k]))
  }

  /** The targets of the dependencies, listed by source. */
  method DependencyLists(edges: seq<Dependency>) returns (dependencies: Graph)
    ensures forall a :: Succ(dependencies, a) == Needs(edges, a)
  {
    dependencies := map[];
    for k := 0 to |edges|
      invariant forall a :: Succ(dependencies, a) == Needs(edges[..k], a)
    {
      var e := edges[k];
      assert edges[..k + 1] == edges[..k] + [e];
      forall a ensures Needs(edges[..k + 1], a) == Needs(edges[..k], a) + if e.from == a then [e.to] else [] {
        NeedsOneMore(edges[..k], e, a);
      }
      dependencies := dependencies[e.from := Succ(dependencies, e.from) + [e.to]];
    }
    assert edges[..|edges|] == edges;
  }

  lemma NeedsOneMore(edges: seq<Dependency>, e: Dependency, a: string)
    ensures Needs(edges + [e], a) == Needs(edges, a) + if e.from == a then [e.to] else []
  {
    assert (edges + [e])[..|edges|] == edges;
  }

  /** The module inputs that the code generator reads off a plan. */
  method AssemblyModuleInputs(p: Plan) returns (inputs: seq<ModuleInput>)
    ensures inputs == RebuiltModules(p, |p.modules|)
  {
    var dependencies := DependencyLists(p.moduleDependencies);
    inputs := [];
    for k := 0 to |p.modules|
      invariant inputs == RebuiltModules(p, k)
    {
      var m := p.modules[k];
      inputs := inputs + [ModuleInput(m.name, m.version, Succ(dependencies, m.name), m.requirements, m.evidence)];
    }
  }

  /** The modules of a clean normalized input stay as they are in the plan. */
  lemma ModulesStay(input: Input, p: Plan)
    requires CleanInput(input) && MadeFrom(NormalInput(input), p)
    ensures p.modules == Map(ToModule, NormalInput(input).modules)
    ensures SortBy(ModuleInputBefore, NormalInput(input).modules) == NormalInput(input).modules
    ensures UniqueBy(NormalInput(input).modules, InputModuleName)
  {
    var i := NormalInput(input);
    var c :| p == Finish(Draft(i, c));
    PlansCompare();
    NamesCompare();
    NormalKeys(ModuleInputBefore, NormalModuleInput, InputModuleName, input.modules);
    UniqueKeysBack(input.modules, i.modules, InputModuleName);
    SortBySorts(ModuleInputBefore, Map(NormalModuleInput, input.modules));
    UniqueSeparates(ModuleInputBefore, InputModuleName, i.modules);
    SortedStays(ModuleInputBefore, i.modules);
    NormalModulesStay(input, i.modules);
  }

  lemma NormalModulesStay(input: Input, items: seq<ModuleInput>)
    requires items == NormalInput(input).modules && InOrder(ModuleInputBefore, items) && UniqueBy(items, InputModuleName)
    ensures
      var m := Map(ToModule, items);
      Map(NormalModule, m) == m && SortBy(ModuleBefore, Map(NormalModule, m)) == m
  {
    InputModulesNormal(input);
    AllNormalSame(Map(ToModule, items));
    OrderedModulesStay(items);
  }

  lemma AllNormalSame(m: seq<Module>)
    requires NormalModules(m)
    ensures Map(NormalModule, m) == m
  {
    assert forall k | 0 <= k < |m| :: m[k] in m;
  }

  lemma OrderedModulesStay(items: seq<ModuleInput>)
    requires InOrder(ModuleInputBefore, items) && UniqueBy(items, InputModuleName)
    ensures SortBy(ModuleBefore, Map(ToModule, items)) == Map(ToModule, items)
  {
    var m := Map(ToModule, items);
    PlansCompare();
    NamesCompare();
    MapUnique(ToModule, InputModuleName, ModuleName, items);
    UniqueSeparates(ModuleBefore, ModuleName, m);
    SortedStays(ModuleBefore, m);
  }

  /** In the plan, a module depends on what its input says. */
  lemma ModuleDependencies(items: seq<ModuleInput>, k: nat, b: string)
    requires k < |items| && UniqueBy(items, InputModuleName)
    ensures Depends(FlatMap(ModuleEdges, items), items[k].name, b) <==> b in items[k].dependsOn
  {
    var edges := FlatMap(ModuleEdges, items);
    if Depends(edges, items[k].name, b) {
      var e :| e in edges && Joins(e, items[k].name, b);
      FlatMapHas(ModuleEdges, items, e);
      var m :| m in items && e in ModuleEdges(m);
      var j :| 0 <= j < |items| && items[j] == m;
      assert InputModuleName(items[j]) == InputModuleName(items[k]);
    }
    if b in items[k].dependsOn {
      var n :| 0 <= n < |items[k].dependsOn| && items[k].dependsOn[n] == b;
      var e := ModuleEdges(items[k])[n];
      FlatMapHas(ModuleEdges, items, e);
      assert items[k] in items && e in ModuleEdges(items[k]) && Joins(e, items[k].name, b);
    }
  }

  lemma ModuleDependenciesKept(i: Input, p: Plan, a: string, b: string)
    requires MadeFrom(i, p)
    ensures Depends(p.moduleDependencies, a, b) <==> Depends(FlatMap(ModuleEdges, i.modules), a, b)
  {
    var c :| p == Finish(Draft(i, c));
    var edges := FlatMap(ModuleEdges, i.modules);
    DependenciesKept(edges);
    DependenciesKept(NormalizeDependencies(edges));
    assert p.moduleDependencies == NormalizeDependencies(NormalizeDependencies(edges));
  }

  /** The items of a normalized input are normal. */
  lemma InputModuleNormal(input: Input, item: ModuleInput)
    requires item in NormalInput(input).modules
    ensures StableStrings(item.dependsOn) == item.dependsOn && NormalModuleRequirements(item.requirements) == item.requirements
  {
    PlansCompare();
    SortBySorts(ModuleInputBefore, Map(NormalModuleInput, input.modules));
    UniqueInMultiset(NormalInput(input).modules, Map(NormalModuleInput, input.modules));
    var j :| 0 <= j < |input.modules| && NormalModuleInput(input.modules[j]) == item;
    StableTwice(input.modules[j].dependsOn);
    StableTwice(input.modules[j].requirements.databases);
    StableTwice(input.modules[j].requirements.rpc);
  }

  lemma RebuiltNeeds(i: Input, p: Plan, k: nat)
    requires MadeFrom(i, p) && k < |i.modules| && UniqueBy(i.modules, InputModuleName)
    ensures StableStrings(Needs(p.moduleDependencies, i.modules[k].name)) == StableStrings(i.modules[k].dependsOn)
  {
    var item := i.modules[k];
    var needs := Needs(p.moduleDependencies, item.name);
    forall b ensures Has(needs, b) <==> Has(item.dependsOn, b) {
      ModuleDependenciesKept(i, p, item.name, b);
      ModuleDependencies(i.modules, k, b);
    }
    StableCanonical(needs, item.dependsOn);
  }

  /** A module read off the plan normalizes to the module it came from. */
  lemma RebuiltNormal(input: Input, items: seq<ModuleInput>, p: Plan, k: nat)
    requires MadeFrom(NormalInput(input), p) && items == NormalInput(input).modules && k < |items|
    requires p.modules == Map(ToModule, items) && UniqueBy(items, InputModuleName)
    ensures NormalModuleInput(RebuiltModule(p, p.modules[k])) == items[k]
  {
    InputModuleNormal(input, items[k]);
    RebuiltNeeds(NormalInput(input), p, k);
  }

  lemma SameModules(input: Input, modules: seq<ModuleInput>)
    requires Map(NormalModuleInput, modules) == NormalInput(input).modules
    requires SortBy(ModuleInputBefore, NormalInput(input).modules) == NormalInput(input).modules
    ensures NormalInput(input.(modules := modules)) == NormalInput(input)
  {
  }

  lemma RebuiltSame(input: Input, p: Plan, items: seq<ModuleInput>)
    requires MadeFrom(NormalInput(input), p) && items == NormalInput(input).modules
    requires p.modules == Map(ToModule, items) && UniqueBy(items, InputModuleName)
    ensures Map(NormalModuleInput, RebuiltModules(p, |p.modules|)) == items
  {
    forall k | 0 <= k < |items| ensures NormalModuleInput(RebuiltModules(p, |p.modules|)[k]) == items[k] {
      RebuiltNormal(input, items, p, k);
    }
  }

  /** Compiling the same applications and operations with the plan's own modules gives the plan again. */
  lemma Recompiles(input: Input, p: Plan, q: Plan)
    requires MadeFrom(NormalInput(input), p) && ValidNormal(Normalize(p))
    requires MadeFrom(NormalInput(input.(modules := RebuiltModules(p, |p.modules|))), q)
    ensures q == p
  {
    CleanFromValid(input, p);
    ModulesStay(input, p);
    RebuiltSame(input, p, NormalInput(input).modules);
    SameModules(input, RebuiltModules(p, |p.modules|));
    MadeOnce(NormalInput(input), p, q);
  }
}
