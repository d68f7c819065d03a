/** Assembly plans: what they are compiled from, what they hold, and their normal form. */
module AssemblyPlan {
  import opened Sorting
  import opened Strings
  import opened PlanFacts
  import opened Text

  // ----- inputs -----

  datatype Capability = Capability(name: string, package: string, typeName: string, evidence: Evidence)

  datatype ApplicationInput = ApplicationInput(
    id: string, domain: string, name: string, dependsOn: seq<string>, capabilities: seq<Capability>, evidence: Evidence)

  datatype BindingInput = BindingInput(transport: string, index: int, evidence: Evidence)

  datatype OperationInput = OperationInput(
    id: string, application: string, requiresOperations: seq<string>, bindings: seq<BindingInput>, evidence: Evidence)

  datatype ModuleRequirements = ModuleRequirements(
    configKey: string, logger: bool, databases: seq<string>, eventBus: bool, rpc: seq<string>)

  datatype ModuleInput = ModuleInput(
    name: string, version: string, dependsOn: seq<string>, requirements: ModuleRequirements, evidence: Evidence)

  datatype Input = Input(
    identity: string, applications: seq<ApplicationInput>, operations: seq<OperationInput>, modules: seq<ModuleInput>)

  // ----- plans -----

  datatype Application = Application(
    id: string, domain: string, name: string, capabilities: seq<Capability>, evidence: Evidence)

  datatype Binding = Binding(operationId: string, transport: string, index: int, evidence: Evidence)

  datatype Operation = Operation(id: string, application: string, bindings: seq<Binding>, evidence: Evidence)

  datatype Module = Module(name: string, version: string, requirements: ModuleRequirements, evidence: Evidence)

  datatype Requirement = Requirement(moduleName: string, kind: string, name: string, evidence: Evidence)

  datatype Target = Target(
    name: string, applications: seq<string>, modules: seq<string>,
    externalOperations: seq<string>, internalOperations: seq<string>, evidence: Evidence)

  datatype Plan = Plan(
    identity: string,
    applications: seq<Application>,
    applicationDependencies: seq<Dependency>,
    applicationClosure: seq<Dependency>,
    operations: seq<Operation>,
    operationDependencies: seq<Dependency>,
    modules: seq<Module>,
    moduleDependencies: seq<Dependency>,
    requirements: seq<Requirement>,
    targets: seq<Target>)

  const ROOT_TARGET := "root"

  const CLOSURE_SOURCE := "application-dependency-closure"

  // ----- lists -----

  function Map<A, B>(f: A -> B, s: seq<A>): (r: seq<B>)
    ensures |r| == |s| && forall i | 0 <= i < |s| :: r[i] == f(s[i])
  {
    if s == [] then [] else Map(f, s[..|s| - 1]) + [f(s[|s| - 1])]
  }

  function FlatMap<A, B>(f: A -> seq<B>, s: seq<A>): seq<B> {
    if s == [] then [] else FlatMap(f, s[..|s| - 1]) + f(s[|s| - 1])
  }

  lemma MapOneMore<A, B>(f: A -> B, s: seq<A>, x: A)
    ensures Map(f, s + [x]) == Map(f, s) + [f(x)]
  {
    assert (s + [x])[..|s|] == s;
  }

  lemma FlatMapOneMore<A, B>(f: A -> seq<B>, s: seq<A>, x: A)
    ensures FlatMap(f, s + [x]) == FlatMap(f, s) + f(x)
  {
    assert (s + [x])[..|s|] == s;
  }

  lemma {:induction false} FlatMapHas<A, B>(f: A -> seq<B>, s: seq<A>, y: B)
    ensures y in FlatMap(f, s) <==> exists x | x in s :: y in f(x)
  {
    if s != [] {
      var init, last := s[..|s| - 1], s[|s| - 1];
      assert s == init + [last];
      FlatMapHas(f, init, y);
    }
  }

  /** Where a rearrangement has the last element. */
  lemma LastAmong<A>(s: seq<A>, t: seq<A>) returns (i: nat)
    requires multiset(s) == multiset(t) && s != []
    ensures i < |t| && t[i] == s[|s| - 1] && t == t[..i] + [t[i]] + t[i + 1..]
    ensures multiset(s[..|s| - 1]) == multiset(t[..i] + t[i + 1..])
  {
    var init, last := s[..|s| - 1], s[|s| - 1];
    assert s == init + [last];
    assert last in multiset(t);
    i :| 0 <= i < |t| && t[i] == last;
    assert t == t[..i] + [last] + t[i + 1..];
    var rest := t[..i] + t[i + 1..];
    assert multiset(s) == multiset(init) + multiset{last};
    assert multiset(rest) == multiset(t[..i]) + multiset(t[i + 1..]);
    assert multiset(t) == multiset(rest) + multiset{last} by {
      assert multiset(t) == multiset(t[..i]) + multiset{last} + multiset(t[i + 1..]);
    }
    forall x ensures multiset(init)[x] == multiset(rest)[x] {
      assert multiset(s)[x] == multiset(t)[x];
    }
  }

  /** Rearranging and mapping commute. */
  lemma {:induction false} MapRearranged<A, B>(f: A -> B, s: seq<A>, t: seq<A>)
    requires multiset(s) == multiset(t)
    ensures multiset(Map(f, s)) == multiset(Map(f, t))
  {
    if s == [] {
      assert |multiset(t)| == |t|;
    } else {
      var last := s[|s| - 1];
      var i := LastAmong(s, t);
      var rest := t[..i] + t[i + 1..];
      MapRearranged(f, s[..|s| - 1], rest);
      MapJoined(f, t[..i], t[i + 1..]);
      MapJoined(f, t[..i], [last]);
      MapJoined(f, t[..i] + [last], t[i + 1..]);
    }
  }

  lemma MapJoined<A, B>(f: A -> B, s: seq<A>, t: seq<A>)
    ensures Map(f, s + t) == Map(f, s) + Map(f, t)
  {
  }

  lemma {:induction false} FlatMapRearranged<A, B>(f: A -> seq<B>, s: seq<A>, t: seq<A>)
    requires multiset(s) == multiset(t)
    ensures multiset(FlatMap(f, s)) == multiset(FlatMap(f, t))
  {
    if s == [] {
      assert |multiset(t)| == |t|;
    } else {
      var last := s[|s| - 1];
      var i := LastAmong(s, t);
      var rest := t[..i] + t[i + 1..];
      FlatMapRearranged(f, s[..|s| - 1], rest);
      FlatMapJoined(f, t[..i], t[i + 1..]);
      FlatMapJoined(f, t[..i], [last]);
      FlatMapJoined(f, t[..i] + [last], t[i + 1..]);
      assert FlatMap(f, [last]) == f(last);
    }
  }

  lemma {:induction false} FlatMapJoined<A, B>(f: A -> seq<B>, s: seq<A>, t: seq<A>)
    ensures FlatMap(f, s + t) == FlatMap(f, s) + FlatMap(f, t)
  {
    if t == [] {
      assert s + t == s;
    } else {
      assert (s + t)[..|s + t| - 1] == s + t[..|t| - 1];
      FlatMapJoined(f, s, t[..|t| - 1]);
    }
  }

  // ----- orders -----

  predicate CapabilityBefore(x: Capability, y: Capability) {
    if x.name != y.name then Before(x.name, y.name)
    else if x.package != y.package then Before(x.package, y.package)
    else Before(x.typeName, y.typeName)
  }

  predicate BindingInputBefore(x: BindingInput, y: BindingInput) {
    if x.transport != y.transport then Before(x.transport, y.transport) else x.index < y.index
  }

  predicate BindingBefore(x: Binding, y: Binding) {
    if x.transport != y.transport then Before(x.transport, y.transport) else x.index < y.index
  }

  predicate RequirementBefore(x: Requirement, y: Requirement) {
    if x.moduleName != y.moduleName then Before(x.moduleName, y.moduleName)
    else if x.kind != y.kind then Before(x.kind, y.kind)
    else Before(x.name, y.name)
  }

  predicate ApplicationInputBefore(x: ApplicationInput, y: ApplicationInput) {
    Before(x.id, y.id)
  }

  predicate OperationInputBefore(x: OperationInput, y: OperationInput) {
    Before(x.id, y.id)
  }

  predicate ModuleInputBefore(x: ModuleInput, y: ModuleInput) {
    Before(x.name, y.name)
  }

  predicate ApplicationBefore(x: Application, y: Application) {
    Before(x.id, y.id)
  }

  predicate OperationBefore(x: Operation, y: Operation) {
    Before(x.id, y.id)
  }

  predicate ModuleBefore(x: Module, y: Module) {
    Before(x.name, y.name)
  }

  predicate TargetBefore(x: Target, y: Target) {
    Before(x.name, y.name)
  }

  lemma PlansCompare()
    ensures Comparison(ApplicationInputBefore) && Comparison(OperationInputBefore) && Comparison(ModuleInputBefore)
    ensures Comparison(ApplicationBefore) && Comparison(OperationBefore) && Comparison(ModuleBefore) && Comparison(TargetBefore)
    ensures Comparison(CapabilityBefore) && Comparison(BindingInputBefore) && Comparison(BindingBefore)
    ensures Comparison(RequirementBefore)
  {
    NamesCompare();
  }

  // ----- normal forms -----

  function NormalApplicationInput(a: ApplicationInput): ApplicationInput {
    a.(dependsOn := StableStrings(a.dependsOn), capabilities := SortBy(CapabilityBefore, a.capabilities))
  }

  function NormalBindingInput(b: BindingInput): BindingInput {
    b.(transport := Lower(b.transport))
  }

  function NormalOperationInput(o: OperationInput): OperationInput {
    o.(requiresOperations := StableStrings(o.requiresOperations),
       bindings := SortBy(BindingInputBefore, Map(NormalBindingInput, o.bindings)))
  }

  function NormalModuleRequirements(r: ModuleRequirements): ModuleRequirements {
    r.(databases := StableStrings(r.databases), rpc := StableStrings(r.rpc))
  }

  function NormalModuleInput(m: ModuleInput): ModuleInput {
    m.(dependsOn := StableStrings(m.dependsOn), requirements := NormalModuleRequirements(m.requirements))
  }

  function NormalInput(i: Input): Input {
    Input(if i.identity == "" then ROOT_TARGET else i.identity,
          SortBy(ApplicationInputBefore, Map(NormalApplicationInput, i.applications)),
          SortBy(OperationInputBefore, Map(NormalOperationInput, i.operations)),
          SortBy(ModuleInputBefore, Map(NormalModuleInput, i.modules)))
  }

  function NormalApplication(a: Application): Application {
    a.(capabilities := SortBy(CapabilityBefore, a.capabilities))
  }

  function NormalBinding(b: Binding): Binding {
    b.(transport := Lower(b.transport))
  }

  function NormalOperation(o: Operation): Operation {
    o.(bindings := SortBy(BindingBefore, Map(NormalBinding, o.bindings)))
  }

  function NormalModule(m: Module): Module {
    m.(requirements := NormalModuleRequirements(m.requirements))
  }

  function NormalRequirement(r: Requirement): Requirement {
    r.(kind := Lower(r.kind))
  }

  function NormalTarget(t: Target): Target {
    t.(applications := StableStrings(t.applications), modules := StableStrings(t.modules),
       externalOperations := StableStrings(t.externalOperations), internalOperations := StableStrings(t.internalOperations))
  }

  function NormalRequirements(requirements: seq<Requirement>): seq<Requirement> {
    SortBy(RequirementBefore, Map(NormalRequirement, requirements))
  }

  function Normalize(p: Plan): Plan {
    Plan(p.identity,
         SortBy(ApplicationBefore, Map(NormalApplication, p.applications)),
         NormalizeDependencies(p.applicationDependencies),
         NormalizeDependencies(p.applicationClosure),
         SortBy(OperationBefore, Map(NormalOperation, p.operations)),
         NormalizeDependencies(p.operationDependencies),
         SortBy(ModuleBefore, Map(NormalModule, p.modules)),
         NormalizeDependencies(p.moduleDependencies),
         NormalRequirements(p.requirements),
         SortBy(TargetBefore, Map(NormalTarget, p.targets)))
  }

  // ----- the parts of a plan -----

  function Reused(from: Evidence, suffix: string): Evidence {
    Evidence("reused", from.source, from.ref + suffix)
  }

  function ToApplication(item: ApplicationInput): Application {
    Application(item.id, item.domain, item.name, item.capabilities, item.evidence)
  }

  function ApplicationEdges(item: ApplicationInput): seq<Dependency> {
    Map((d: string) => Dependency(item.id, d, Reused(item.evidence, "/requires/" + d)), item.dependsOn)
  }

  function ToOperation(item: OperationInput): Operation {
    Operation(item.id, item.application,
              Map((b: BindingInput) => Binding(item.id, b.transport, b.index, b.evidence), item.bindings), item.evidence)
  }

  function OperationEdges(item: OperationInput): seq<Dependency> {
    Map((d: string) => Dependency(item.id, d, Reused(item.evidence, "/requiresOperations/" + d)), item.requiresOperations)
  }

  function ToModule(item: ModuleInput): Module {
    Module(item.name, item.version, item.requirements, item.evidence)
  }

  function ModuleEdges(item: ModuleInput): seq<Dependency> {
    Map((d: string) => Dependency(item.name, d, Reused(item.evidence, "/dependsOn/" + d)), item.dependsOn)
  }

  function Needed(m: Module, kind: string, name: string, suffix: string): Requirement {
    Requirement(m.name, kind, name, Reused(m.evidence, suffix))
  }

  function ListedRequirements(m: Module): seq<Requirement> {
    var r := m.requirements;
    (   (if r.configKey != "" then [Needed(m, "config", r.configKey, "/requirements/configKey")] else [])
      + (if r.logger then [Needed(m, "logger", "", "/requirements/logger")] else [])
      + Map((d: string) => Needed(m, "database", d, "/requirements/databases/" + d), StableStrings(r.databases))
      + (if r.eventBus then [Needed(m, "event_bus", "", "/requirements/eventBus")] else [])
      + Map((n: string) => Needed(m, "rpc", n, "/requirements/rpc/" + n), StableStrings(r.rpc)))
  }

  /** What a module asks of its environment. */
  function RequirementsOf(m: Module): seq<Requirement> {
    NormalRequirements(ListedRequirements(m))
  }

  function AllRequirements(modules: seq<Module>): seq<Requirement> {
    NormalRequirements(FlatMap(RequirementsOf, modules))
  }

  function IsExternal(o: Operation): seq<string> {
    if o.bindings == [] then [] else [o.id]
  }

  function IsInternal(o: Operation): seq<string> {
    if o.bindings == [] then [o.id] else []
  }

  function DeriveRootTarget(p: Plan): Target {
    Target(ROOT_TARGET,
           StableStrings(Map((a: Application) => a.id, p.applications)),
           StableStrings(Map((m: Module) => m.name, p.modules)),
           StableStrings(FlatMap(IsExternal, p.operations)),
           StableStrings(FlatMap(IsInternal, p.operations)),
           Evidence("derived", "assemblyplan", "targets/root"))
  }

  /** The plan before it is normalized, from a normalized input and the closure of its dependencies. */
  function Draft(i: Input, closure: seq<Dependency>): Plan {
    var modules := Map(ToModule, i.modules);
    Plan(i.identity,
         Map(ToApplication, i.applications), FlatMap(ApplicationEdges, i.applications), closure,
         Map(ToOperation, i.operations), FlatMap(OperationEdges, i.operations),
         modules, FlatMap(ModuleEdges, i.modules), FlatMap(RequirementsOf, modules), [])
  }

  function Finish(draft: Plan): Plan {
    var p := Normalize(draft);
    Normalize(p.(targets := [DeriveRootTarget(p)]))
  }
}
