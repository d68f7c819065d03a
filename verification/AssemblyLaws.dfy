/** What the compiler of assembly plans guarantees about its results. */
module AssemblyLaws {
  import opened Sorting
  import opened Strings
  import opened Text
  import opened PlanFacts
  import opened CycleSearch
  import opened Closure
  import opened AssemblyPlan
  import opened AssemblyValidation

  // ----- what compiling makes -----

  /** `closure` is the sorted closure of the application dependencies of a normalized input. */
  ghost predicate ClosesInput(i: Input, closure: seq<Dependency>) {
    closure == NormalizeDependencies(closure)
    && Closes(EdgeGraph(FlatMap(ApplicationEdges, i.applications)), CLOSURE_SOURCE, closure)
  }

  /** `p` is what compiling a normalized input makes, before it is validated. */
  ghost predicate MadeFrom(i: Input, p: Plan) {
    exists closure :: ClosesInput(i, closure) && p == Finish(Draft(i, closure))
  }

  lemma ClosureOnce(i: Input, c: seq<Dependency>, d: seq<Dependency>)
    requires ClosesInput(i, c) && ClosesInput(i, d)
    ensures c == d
  {
    ClosureCanonical(EdgeGraph(FlatMap(ApplicationEdges, i.applications)), CLOSURE_SOURCE, c, d);
  }

  /** The closure, and so the plan, is determined by the input. */
  lemma MadeOnce(i: Input, p: Plan, q: Plan)
    requires MadeFrom(i, p) && MadeFrom(i, q)
    ensures p == q
  {
    var c :| ClosesInput(i, c) && p == Finish(Draft(i, c));
    var d :| ClosesInput(i, d) && q == Finish(Draft(i, d));
    ClosureOnce(i, c, d);
  }

  // ----- normalizing keeps keys -----

  /** Normalizing each element and sorting keeps the keys. */
  lemma NormalKeys<T(!new), K(!new)>(before: (T, T) -> bool, f: T -> T, key: T -> K, s: seq<T>)
    requires Comparison(before) && forall x :: key(f(x)) == key(x)
    ensures multiset(Map(key, SortBy(before, Map(f, s)))) == multiset(Map(key, s))
    ensures multiset(SortBy(before, Map(f, s))) == multiset(Map(f, s))
  {
    SortBySorts(before, Map(f, s));
    MapRearranged(key, SortBy(before, Map(f, s)), Map(f, s));
    assert Map(key, Map(f, s)) == Map(key, s);
  }

  /** The keys of a plan's lists survive any number of normalizations. */
  lemma NormalizeKeepsKeys(p: Plan)
    ensures multiset(ApplicationIds(Normalize(p))) == multiset(ApplicationIds(p))
    ensures multiset(OperationIds(Normalize(p))) == multiset(OperationIds(p))
    ensures multiset(ModuleNames(Normalize(p))) == multiset(ModuleNames(p))
  {
    PlansCompare();
    NormalKeys(ApplicationBefore, NormalApplication, ApplicationId, p.applications);
    NormalKeys(OperationBefore, NormalOperation, OperationId, p.operations);
    NormalKeys(ModuleBefore, NormalModule, ModuleName, p.modules);
  }

  /** Dependencies are only sorted; sorted ones stay as they are when nothing is tied. */
  lemma DependenciesKept(s: seq<Dependency>)
    ensures multiset(NormalizeDependencies(s)) == multiset(s)
    ensures forall a, b :: Depends(NormalizeDependencies(s), a, b) <==> Depends(s, a, b)
  {
    NormalizeKeeps(s);
  }

  // ----- the closure is never stale -----

  lemma CompiledClosureCurrent(i: Input, p: Plan)
    requires MadeFrom(i, p)
    ensures ClosureCurrent(Normalize(p))
  {
    var edges := FlatMap(ApplicationEdges, i.applications);
    var c :| ClosesInput(i, c) && p == Finish(Draft(i, c));
    var n := Normalize(p);
    assert n.applicationClosure == c;
    DependenciesKept(edges);
    DependenciesKept(NormalizeDependencies(edges));
    DependenciesKept(NormalizeDependencies(NormalizeDependencies(edges)));
    assert n.applicationDependencies == NormalizeDependencies(NormalizeDependencies(NormalizeDependencies(edges)));
    EdgeGraphEdges(edges);
    EdgeGraphEdges(n.applicationDependencies);
    SameClosure(EdgeGraph(edges), EdgeGraph(n.applicationDependencies), CLOSURE_SOURCE, c);
  }

  // ----- the target is never stale -----

  lemma SameStable(s: seq<string>, t: seq<string>)
    requires multiset(s) == multiset(t)
    ensures StableStrings(s) == StableStrings(t)
  {
    UniqueInMultiset(s, t);
    assert forall y :: Has(s, y) <==> Has(t, y);
    StableCanonical(s, t);
  }

  lemma {:induction false} KindsKept(operations: seq<Operation>)
    ensures FlatMap(IsExternal, Map(NormalOperation, operations)) == FlatMap(IsExternal, operations)
    ensures FlatMap(IsInternal, Map(NormalOperation, operations)) == FlatMap(IsInternal, operations)
  {
    if operations != [] {
      var init, last := operations[..|operations| - 1], operations[|operations| - 1];
      KindsKept(init);
      BindingsCounted(last);
      assert Map(NormalOperation, operations)[..|operations| - 1] == Map(NormalOperation, init);
    }
  }

  lemma BindingsCounted(o: Operation)
    ensures NormalOperation(o).bindings == [] <==> o.bindings == []
    ensures NormalOperation(o).id == o.id
  {
    PlansCompare();
    SortBySorts(BindingBefore, Map(NormalBinding, o.bindings));
    var sorted := NormalOperation(o).bindings;
    assert |multiset(sorted)| == |sorted| && |multiset(Map(NormalBinding, o.bindings))| == |o.bindings|;
  }

  /** Normalizing a plan does not change the target derived from it. */
  lemma TargetKept(p: Plan)
    ensures DeriveRootTarget(Normalize(p)) == DeriveRootTarget(p)
  {
    NormalizeKeepsKeys(p);
    var n := Normalize(p);
    assert Map((a: Application) => a.id, p.applications) == ApplicationIds(p);
    assert Map((a: Application) => a.id, n.applications) == ApplicationIds(n);
    assert Map((m: Module) => m.name, p.modules) == ModuleNames(p);
    assert Map((m: Module) => m.name, n.modules) == ModuleNames(n);
    SameStable(ApplicationIds(n), ApplicationIds(p));
    SameStable(ModuleNames(n), ModuleNames(p));
    PlansCompare();
    SortBySorts(OperationBefore, Map(NormalOperation, p.operations));
    KindsKept(p.operations);
    FlatMapRearranged(IsExternal, n.operations, Map(NormalOperation, p.operations));
    FlatMapRearranged(IsInternal, n.operations, Map(NormalOperation, p.operations));
    SameStable(FlatMap(IsExternal, n.operations), FlatMap(IsExternal, p.operations));
    SameStable(FlatMap(IsInternal, n.operations), FlatMap(IsInternal, p.operations));
  }

  lemma DerivedTargetNormal(p: Plan)
    ensures NormalTarget(DeriveRootTarget(p)) == DeriveRootTarget(p)
  {
    var t := DeriveRootTarget(p);
    StableTwice(Map((a: Application) => a.id, p.applications));
    StableTwice(Map((m: Module) => m.name, p.modules));
    StableTwice(FlatMap(IsExternal, p.operations));
    StableTwice(FlatMap(IsInternal, p.operations));
  }

  lemma OneTarget(p: Plan, t: Target)
    requires p.targets == [t] && NormalTarget(t) == t
    ensures Normalize(p).targets == [t]
  {
    assert Map(NormalTarget, [t]) == [t];
    assert [t][..0] == [];
    assert SortBy(TargetBefore, []) == [];
    assert SortBy(TargetBefore, [t]) == [t];
  }

  lemma FinishedTarget(draft: Plan)
    ensures SingleRoot(Normalize(Finish(draft))) && TargetCurrent(Normalize(Finish(draft)))
  {
    var first := Normalize(draft);
    var t := DeriveRootTarget(first);
    var second := first.(targets := [t]);
    DerivedTargetNormal(first);
    OneTarget(second, t);
    OneTarget(Normalize(second), t);
    TargetKept(second);
    TargetKept(Normalize(second));
    assert DeriveRootTarget(second) == t;
  }

  lemma CompiledTargetCurrent(i: Input, p: Plan)
    requires MadeFrom(i, p)
    ensures SingleRoot(Normalize(p)) && TargetCurrent(Normalize(p))
  {
    var c :| p == Finish(Draft(i, c));
    FinishedTarget(Draft(i, c));
  }

  // ----- the requirements are never stale -----

  function SuffixOf(kind: string, name: string): string {
    if kind == "config" then "/requirements/configKey"
    else if kind == "logger" then "/requirements/logger"
    else if kind == "database" then "/requirements/databases/" + name
    else if kind == "event_bus" then "/requirements/eventBus"
    else "/requirements/rpc/" + name
  }

  lemma KindsAreLower()
    ensures Lower("config") == "config" && Lower("logger") == "logger" && Lower("database") == "database"
    ensures Lower("event_bus") == "event_bus" && Lower("rpc") == "rpc"
  {
  }

  /** A requirement of a module is determined by its kind and name. */
  predicate IsNeeded(m: Module, r: Requirement) {
    NormalRequirement(r) == r && r == Needed(m, r.kind, r.name, SuffixOf(r.kind, r.name))
  }

  lemma ListedShape(m: Module, r: Requirement)
    requires r in ListedRequirements(m)
    ensures IsNeeded(m, r)
  {
    KindsAreLower();
  }

  lemma RequirementShape(m: Module, r: Requirement)
    requires r in RequirementsOf(m)
    ensures IsNeeded(m, r)
  {
    PlansCompare();
    var listed := ListedRequirements(m);
    SortBySorts(RequirementBefore, Map(NormalRequirement, listed));
    UniqueInMultiset(RequirementsOf(m), Map(NormalRequirement, listed));
    var i :| 0 <= i < |listed| && NormalRequirement(listed[i]) == r;
    ListedShape(m, listed[i]);
  }

  ghost predicate NormalModules(s: seq<Module>) {
    forall m | m in s :: NormalModule(m) == m
  }

  ghost predicate LowerKinds(s: seq<Requirement>) {
    forall r | r in s :: NormalRequirement(r) == r
  }

  /** Normal modules are only sorted. */
  lemma ModulesSettle(s: seq<Module>)
    requires NormalModules(s)
    ensures
      var t := SortBy(ModuleBefore, Map(NormalModule, s));
      multiset(t) == multiset(s) && NormalModules(t)
  {
    assert forall i | 0 <= i < |s| :: s[i] in s;
    assert Map(NormalModule, s) == s;
    PlansCompare();
    SortBySorts(ModuleBefore, s);
    UniqueInMultiset(s, SortBy(ModuleBefore, s));
  }

  lemma RequirementsSettle(s: seq<Requirement>)
    requires LowerKinds(s)
    ensures multiset(NormalRequirements(s)) == multiset(s) && LowerKinds(NormalRequirements(s))
    ensures Map(NormalRequirement, s) == s
  {
    assert forall i | 0 <= i < |s| :: s[i] in s;
    assert Map(NormalRequirement, s) == s;
    PlansCompare();
    SortBySorts(RequirementBefore, s);
    UniqueInMultiset(s, NormalRequirements(s));
  }

  lemma AllLowerKinds(modules: seq<Module>)
    ensures LowerKinds(FlatMap(RequirementsOf, modules))
  {
    forall r | r in FlatMap(RequirementsOf, modules) ensures NormalRequirement(r) == r {
      FlatMapHas(RequirementsOf, modules, r);
      var m :| m in modules && r in RequirementsOf(m);
      RequirementShape(m, r);
    }
  }

  lemma TiedRequirements(modules: seq<Module>, x: Requirement, y: Requirement)
    requires UniqueBy(modules, ModuleName) && x in FlatMap(RequirementsOf, modules) && y in FlatMap(RequirementsOf, modules)
    requires x.moduleName == y.moduleName && x.kind == y.kind && x.name == y.name
    ensures x == y
  {
    FlatMapHas(RequirementsOf, modules, x);
    FlatMapHas(RequirementsOf, modules, y);
    var m :| m in modules && x in RequirementsOf(m);
    var k :| k in modules && y in RequirementsOf(k);
    RequirementShape(m, x);
    RequirementShape(k, y);
    SameName(modules, m, k);
  }

  /** Where module names are unique, no two requirements are tied. */
  lemma RequirementsApart(modules: seq<Module>)
    requires UniqueBy(modules, ModuleName)
    ensures Separates(RequirementBefore, FlatMap(RequirementsOf, modules))
  {
    var all := FlatMap(RequirementsOf, modules);
    NamesCompare();
    forall x, y | x in all && y in all && !RequirementBefore(x, y) && !RequirementBefore(y, x) ensures x == y {
      TiedRequirements(modules, x, y);
    }
  }

  lemma SameName(modules: seq<Module>, m: Module, k: Module)
    requires UniqueBy(modules, ModuleName) && m in modules && k in modules && m.name == k.name
    ensures m == k
  {
    var i :| 0 <= i < |modules| && modules[i] == m;
    var j :| 0 <= j < |modules| && modules[j] == k;
    assert ModuleName(modules[i]) == ModuleName(modules[j]);
  }

  lemma LowerSame(s: seq<Requirement>)
    requires LowerKinds(s)
    ensures NormalRequirements(s) == SortBy(RequirementBefore, s)
  {
    RequirementsSettle(s);
  }

  lemma SortedFacts(s: seq<Requirement>)
    requires LowerKinds(s) && Separates(RequirementBefore, s)
    ensures
      var t := SortBy(RequirementBefore, s);
      multiset(t) == multiset(s) && LowerKinds(t) && Separates(RequirementBefore, t)
  {
    PlansCompare();
    SortBySorts(RequirementBefore, s);
    UniqueInMultiset(s, SortBy(RequirementBefore, s));
  }

  /** Sorted twice or once, rearranged requirements agree. */
  lemma SortedAgree(x: seq<Requirement>, y: seq<Requirement>)
    requires LowerKinds(x) && LowerKinds(y) && multiset(x) == multiset(y) && Separates(RequirementBefore, x)
    ensures NormalRequirements(NormalRequirements(x)) == NormalRequirements(y)
  {
    var z := SortBy(RequirementBefore, x);
    SortedFacts(x);
    LowerSame(x);
    LowerSame(y);
    LowerSame(z);
    assert Comparison(RequirementBefore) by {
      PlansCompare();
    }
    SortForgetsOrder(RequirementBefore, z, y);
  }

  lemma RequirementsAgree(a: seq<Module>, b: seq<Module>, r: seq<Requirement>)
    requires multiset(a) == multiset(b) && UniqueBy(a, ModuleName)
    requires multiset(r) == multiset(FlatMap(RequirementsOf, b)) && LowerKinds(r)
    ensures NormalRequirements(AllRequirements(a)) == NormalRequirements(r)
  {
    FlatMapRearranged(RequirementsOf, a, b);
    AllLowerKinds(a);
    RequirementsApart(a);
    SortedAgree(FlatMap(RequirementsOf, a), r);
  }

  /** Modules as a normalized input has them. */
  lemma InputModulesNormal(input: Input)
    ensures NormalModules(Map(ToModule, NormalInput(input).modules))
  {
    var items := NormalInput(input).modules;
    PlansCompare();
    SortBySorts(ModuleInputBefore, Map(NormalModuleInput, input.modules));
    UniqueInMultiset(items, Map(NormalModuleInput, input.modules));
    forall m | m in Map(ToModule, items) ensures NormalModule(m) == m {
      var i :| 0 <= i < |items| && ToModule(items[i]) == m;
      assert items[i] in items;
      var j :| 0 <= j < |input.modules| && NormalModuleInput(input.modules[j]) == items[i];
      StableTwice(input.modules[j].requirements.databases);
      StableTwice(input.modules[j].requirements.rpc);
    }
  }

  lemma CompiledRequirementsCurrent(input: Input, p: Plan)
    requires MadeFrom(NormalInput(input), p) && ModulesOk(Normalize(p).modules)
    ensures RequirementsCurrent(Normalize(p))
  {
    var i := NormalInput(input);
    var c :| p == Finish(Draft(i, c));
    var m0 := Map(ToModule, i.modules);
    InputModulesNormal(input);
    ModulesSettle(m0);
    var m1 := SortBy(ModuleBefore, Map(NormalModule, m0));
    ModulesSettle(m1);
    var m2 := SortBy(ModuleBefore, Map(NormalModule, m1));
    ModulesSettle(m2);
    assert Normalize(p).modules == SortBy(ModuleBefore, Map(NormalModule, m2));
    var r0 := FlatMap(RequirementsOf, m0);
    AllLowerKinds(m0);
    RequirementsSettle(r0);
    RequirementsSettle(NormalRequirements(r0));
    RequirementsSettle(NormalRequirements(NormalRequirements(r0)));
    assert Normalize(p).requirements == NormalRequirements(NormalRequirements(NormalRequirements(r0)));
    RequirementsAgree(Normalize(p).modules, m0, Normalize(p).requirements);
  }

  /** Whatever else the validator may find wrong with a compiled plan, no derived part of it is stale. */
  lemma NeverStale(input: Input, p: Plan, e: PlanError)
    requires MadeFrom(NormalInput(input), p) && Explains(Normalize(p), e)
    ensures e != StaleClosure && e != StaleRequirements && e != StaleTarget
  {
    StaleSays(Normalize(p), e);
    CompiledClosureCurrent(NormalInput(input), p);
    CompiledTargetCurrent(NormalInput(input), p);
    RequirementsUnlessInvalid(input, p);
  }

  lemma StaleSays(n: Plan, e: PlanError)
    requires Explains(n, e)
    ensures e == StaleClosure ==> !ClosureCurrent(n)
    ensures e == StaleRequirements ==> ModulesOk(n.modules) && !RequirementsCurrent(n)
    ensures e == StaleTarget ==> !TargetCurrent(n)
  {
  }

  lemma RequirementsUnlessInvalid(input: Input, p: Plan)
    requires MadeFrom(NormalInput(input), p)
    ensures ModulesOk(Normalize(p).modules) ==> RequirementsCurrent(Normalize(p))
  {
    if ModulesOk(Normalize(p).modules) {
      CompiledRequirementsCurrent(input, p);
    }
  }
}
