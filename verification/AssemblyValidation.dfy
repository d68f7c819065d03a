/** The checks an assembly plan has to pass, in the order in which they are made. */
module AssemblyValidation {
  import opened Sorting
  import opened Text
  import opened PlanFacts
  import opened Graphs
  import opened CycleSearch
  import opened Closure
  import opened AssemblyPlan

  predicate UniqueBy<T, K(==)>(s: seq<T>, key: T -> K) {
    forall i, j | 0 <= i < j < |s| :: key(s[i]) != key(s[j])
  }

  lemma UniqueByKeys<T, K>(s: seq<T>, key: T -> K)
    ensures UniqueBy(s, key) <==> Unique(Map(key, s))
  {
  }

  /** Whether keys repeat does not depend on the order. */
  lemma UniqueByRearranged<T, K>(s: seq<T>, t: seq<T>, key: T -> K)
    requires multiset(s) == multiset(t)
    ensures UniqueBy(s, key) <==> UniqueBy(t, key)
    ensures forall x :: x in s <==> x in t
  {
    UniqueByKeys(s, key);
    UniqueByKeys(t, key);
    MapRearranged(key, s, t);
    UniqueInMultiset(Map(key, s), Map(key, t));
    UniqueInMultiset(Map(key, t), Map(key, s));
    UniqueInMultiset(s, t);
  }

  predicate GoodEvidence(e: Evidence) {
    e.ownership in ["canonical", "reused", "derived", "runtime_local"] && e.source != "" && e.ref != ""
  }

  predicate Lowercase(c: char) {
    'a' <= c <= 'z'
  }

  predicate Uppercase(c: char) {
    'A' <= c <= 'Z'
  }

  predicate Numeric(c: char) {
    '0' <= c <= '9'
  }

  /** A lower-case letter and up to 127 letters, digits, dots, underscores and dashes. */
  predicate CapabilityName(s: string) {
    1 <= |s| <= 128 && Lowercase(s[0]) && forall i | 1 <= i < |s| :: Lowercase(s[i]) || Numeric(s[i]) || s[i] in "._-"
  }

  /** An exported Go identifier. */
  predicate CapabilityType(s: string) {
    |s| >= 1 && Uppercase(s[0])
    && forall i | 1 <= i < |s| :: Lowercase(s[i]) || Uppercase(s[i]) || Numeric(s[i]) || s[i] == '_'
  }

  predicate CapabilityPackage(s: string) {
    s != "" && NoneOf(s, " \t\r\n") && s[0] != '.' && s[|s| - 1] != '/'
  }

  predicate CapabilityOk(c: Capability) {
    CapabilityName(c.name) && CapabilityPackage(c.package) && CapabilityType(c.typeName) && GoodEvidence(c.evidence)
  }

  function CapabilityKey(c: Capability): string {
    c.name
  }

  predicate CapabilitiesOk(capabilities: seq<Capability>) {
    (forall c | c in capabilities :: CapabilityOk(c)) && UniqueBy(capabilities, CapabilityKey)
  }

  predicate ApplicationOk(a: Application) {
    a.id != "" && a.domain != "" && a.name != "" && a.id == a.domain + "/" + a.name
    && CapabilitiesOk(a.capabilities) && GoodEvidence(a.evidence)
  }

  function ApplicationId(a: Application): string {
    a.id
  }

  predicate ApplicationsOk(applications: seq<Application>) {
    (forall a | a in applications :: ApplicationOk(a)) && UniqueBy(applications, ApplicationId)
  }

  predicate DependencyOk(d: Dependency, names: seq<string>) {
    d.from in names && d.to in names && d.from != d.to && GoodEvidence(d.evidence)
  }

  function Pair(d: Dependency): (string, string) {
    (d.from, d.to)
  }

  predicate DependenciesOk(dependencies: seq<Dependency>, names: seq<string>) {
    (forall d | d in dependencies :: DependencyOk(d, names)) && UniqueBy(dependencies, Pair)
  }

  predicate BindingOk(o: Operation, b: Binding) {
    b.operationId == o.id && b.index >= 0 && b.transport in ["http", "rpc"] && GoodEvidence(b.evidence)
  }

  function BindingSlot(b: Binding): (string, int) {
    (b.transport, b.index)
  }

  predicate OperationOk(o: Operation, applications: seq<string>) {
    o.id != "" && o.application in applications && GoodEvidence(o.evidence)
    && (forall b | b in o.bindings :: BindingOk(o, b)) && UniqueBy(o.bindings, BindingSlot)
  }

  function OperationId(o: Operation): string {
    o.id
  }

  predicate OperationsOk(operations: seq<Operation>, applications: seq<string>) {
    (forall o | o in operations :: OperationOk(o, applications)) && UniqueBy(operations, OperationId)
  }

  predicate ModuleOk(m: Module) {
    m.name != "" && GoodEvidence(m.evidence)
  }

  function ModuleName(m: Module): string {
    m.name
  }

  predicate ModulesOk(modules: seq<Module>) {
    (forall m | m in modules :: ModuleOk(m)) && UniqueBy(modules, ModuleName)
  }

  predicate RequirementOk(r: Requirement, modules: seq<string>) {
    && r.moduleName in modules && GoodEvidence(r.evidence)
    && (if r.kind in ["config", "database", "rpc"] then r.name != ""
        else r.kind in ["logger", "event_bus"] && r.name == "")
  }

  predicate RequirementsOk(requirements: seq<Requirement>, modules: seq<string>) {
    forall r | r in requirements :: RequirementOk(r, modules)
  }

  lemma SortedCapabilitiesOk(capabilities: seq<Capability>)
    ensures CapabilitiesOk(SortBy(CapabilityBefore, capabilities)) <==> CapabilitiesOk(capabilities)
  {
    PlansCompare();
    SortBySorts(CapabilityBefore, capabilities);
    UniqueByRearranged(SortBy(CapabilityBefore, capabilities), capabilities, CapabilityKey);
  }

  lemma SortedDependenciesOk(dependencies: seq<Dependency>, names: seq<string>)
    ensures DependenciesOk(NormalizeDependencies(dependencies), names) <==> DependenciesOk(dependencies, names)
  {
    NormalizeKeeps(dependencies);
    UniqueByRearranged(NormalizeDependencies(dependencies), dependencies, Pair);
  }

  // ----- all checks -----

  datatype PlanError =
    | Fine
    | IdentityMissing
    | InvalidApplications
    | InvalidApplicationDependencies
    | ApplicationCycle(cycle: seq<Name>)
    | StaleClosure
    | InvalidOperations
    | InvalidOperationDependencies
    | OperationCycle(cycle: seq<Name>)
    | InvalidModules
    | InvalidModuleDependencies
    | ModuleCycle(cycle: seq<Name>)
    | StaleRequirements
    | InvalidRequirements
    | InvalidTargets
    | StaleTarget

  function ApplicationIds(p: Plan): seq<string> {
    Map(ApplicationId, p.applications)
  }

  function OperationIds(p: Plan): seq<string> {
    Map(OperationId, p.operations)
  }

  function ModuleNames(p: Plan): seq<string> {
    Map(ModuleName, p.modules)
  }

  ghost predicate ClosureCurrent(p: Plan) {
    Closes(EdgeGraph(p.applicationDependencies), CLOSURE_SOURCE, p.applicationClosure)
  }

  predicate RequirementsCurrent(p: Plan) {
    NormalRequirements(AllRequirements(p.modules)) == NormalRequirements(p.requirements)
  }

  predicate TargetCurrent(p: Plan) {
    p.targets != [] && NormalTarget(DeriveRootTarget(p)) == NormalTarget(p.targets[0])
  }

  ghost predicate ApplicationsPass(p: Plan) {
    && p.identity != "" && ApplicationsOk(p.applications)
    && DependenciesOk(p.applicationDependencies, ApplicationIds(p)) && Acyclic(EdgeGraph(p.applicationDependencies))
  }

  ghost predicate OperationsPass(p: Plan) {
    && OperationsOk(p.operations, ApplicationIds(p))
    && DependenciesOk(p.operationDependencies, OperationIds(p)) && Acyclic(EdgeGraph(p.operationDependencies))
  }

  ghost predicate ModulesPass(p: Plan) {
    && ModulesOk(p.modules)
    && DependenciesOk(p.moduleDependencies, ModuleNames(p)) && Acyclic(EdgeGraph(p.moduleDependencies))
  }

  predicate SingleRoot(p: Plan) {
    |p.targets| == 1 && p.targets[0].name == ROOT_TARGET
  }

  /** A plan in normal form that passes every check. */
  ghost predicate ValidNormal(p: Plan) {
    && ApplicationsPass(p) && ClosureCurrent(p) && OperationsPass(p) && ModulesPass(p)
    && RequirementsCurrent(p) && RequirementsOk(p.requirements, ModuleNames(p))
    && SingleRoot(p) && TargetCurrent(p)
  }

  /** What is known when one of the checks for stale parts fails: all the checks before it passed. */
  ghost predicate Explains(p: Plan, e: PlanError) {
    match e
    case Fine => ValidNormal(p)
    case StaleClosure => ApplicationsPass(p) && !ClosureCurrent(p)
    case StaleRequirements => ModulesPass(p) && !RequirementsCurrent(p)
    case StaleTarget => SingleRoot(p) && !TargetCurrent(p)
    case ApplicationCycle(c) => IsCycle(EdgeGraph(p.applicationDependencies), c)
    case OperationCycle(c) => IsCycle(EdgeGraph(p.operationDependencies), c)
    case ModuleCycle(c) => IsCycle(EdgeGraph(p.moduleDependencies), c)
    case _ => true
  }
}
