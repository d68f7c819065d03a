/** The validator of assembly plans, check by check. */
module AssemblyChecks {
  import opened Sorting
  import opened PlanFacts
  import opened Graphs
  import opened CycleSearch
  import opened Closure
  import opened AssemblyPlan
  import opened AssemblyValidation

  /** `seen` holds the keys met before place `i`, and none was met twice. */
  ghost predicate Tracked<T(!new), K>(s: seq<T>, key: T -> K, i: nat, seen: set<K>)
    requires i <= |s|
  {
    && (forall j | 0 <= j < i :: key(s[j]) in seen)
    && (forall k | k in seen :: exists j | 0 <= j < i :: key(s[j]) == k)
    && (forall j, k | 0 <= j < k < i :: key(s[j]) != key(s[k]))
  }

  lemma Track<T(!new), K>(s: seq<T>, key: T -> K, i: nat, seen: set<K>)
    requires i < |s| && Tracked(s, key, i, seen)
    ensures key(s[i]) in seen ==> !UniqueBy(s, key)
    ensures key(s[i]) !in seen ==> Tracked(s, key, i + 1, seen + {key(s[i])})
  {
  }

  lemma TrackedAll<T(!new), K>(s: seq<T>, key: T -> K, seen: set<K>)
    requires Tracked(s, key, |s|, seen)
    ensures UniqueBy(s, key)
  {
  }

  method ValidateCapabilities(capabilities: seq<Capability>) returns (ok: bool)
    ensures ok <==> CapabilitiesOk(capabilities)
  {
    SortedCapabilitiesOk(capabilities);
    ok := ValidateSorted(SortBy(CapabilityBefore, capabilities));
  }

  method ValidateSorted(sorted: seq<Capability>) returns (ok: bool)
    ensures ok <==> CapabilitiesOk(sorted)
  {
    var seen: set<string> := {};
    for i := 0 to |sorted|
      invariant Tracked(sorted, CapabilityKey, i, seen)
      invariant forall j | 0 <= j < i :: CapabilityOk(sorted[j])
    {
      var value := sorted[i];
      Track(sorted, CapabilityKey, i, seen);
      assert value in sorted && CapabilityKey(value) == value.name;
      if !CapabilityName(value.name) || !CapabilityPackage(value.package) || !CapabilityType(value.typeName) {
        return false;
      }
      if value.name in seen {
        return false;
      }
      seen := seen + {value.name};
      if !GoodEvidence(value.evidence) {
        return false;
      }
    }
    TrackedAll(sorted, CapabilityKey, seen);
    ok := true;
  }

  method ValidateApplications(applications: seq<Application>) returns (ok: bool)
    ensures ok <==> ApplicationsOk(applications)
  {
    var seen: set<string> := {};
    for i := 0 to |applications|
      invariant Tracked(applications, ApplicationId, i, seen)
      invariant forall j | 0 <= j < i :: ApplicationOk(applications[j])
    {
      var item := applications[i];
      Track(applications, ApplicationId, i, seen);
      assert item in applications && ApplicationId(item) == item.id;
      if item.id == "" || item.domain == "" || item.name == "" {
        return false;
      }
      if item.id != item.domain + "/" + item.name {
        return false;
      }
      if item.id in seen {
        return false;
      }
      var fine := ValidateCapabilities(item.capabilities);
      if !fine || !GoodEvidence(item.evidence) {
        return false;
      }
      seen := seen + {item.id};
    }
    TrackedAll(applications, ApplicationId, seen);
    ok := true;
  }

  method ValidateDependencies(dependencies: seq<Dependency>, names: seq<string>) returns (ok: bool)
    ensures ok <==> DependenciesOk(dependencies, names)
  {
    SortedDependenciesOk(dependencies, names);
    var sorted := NormalizeDependencies(dependencies);
    var seen: set<(string, string)> := {};
    for i := 0 to |sorted|
      invariant Tracked(sorted, Pair, i, seen)
      invariant forall j | 0 <= j < i :: DependencyOk(sorted[j], names)
    {
      var d := sorted[i];
      Track(sorted, Pair, i, seen);
      assert d in sorted && Pair(d) == (d.from, d.to);
      if d.from !in names || d.to !in names || d.from == d.to {
        return false;
      }
      if (d.from, d.to) in seen {
        return false;
      }
      seen := seen + {(d.from, d.to)};
      if !GoodEvidence(d.evidence) {
        return false;
      }
    }
    TrackedAll(sorted, Pair, seen);
    ok := true;
  }

  method ValidateBindings(o: Operation) returns (ok: bool)
    ensures ok <==> (forall b | b in o.bindings :: BindingOk(o, b)) && UniqueBy(o.bindings, BindingSlot)
  {
    var seen: set<(string, int)> := {};
    for i := 0 to |o.bindings|
      invariant Tracked(o.bindings, BindingSlot, i, seen)
      invariant forall j | 0 <= j < i :: BindingOk(o, o.bindings[j])
    {
      var b := o.bindings[i];
      Track(o.bindings, BindingSlot, i, seen);
      assert b in o.bindings && BindingSlot(b) == (b.transport, b.index);
      if b.operationId != o.id || b.index < 0 || b.transport !in ["http", "rpc"] {
        return false;
      }
      if (b.transport, b.index) in seen {
        return false;
      }
      seen := seen + {(b.transport, b.index)};
      if !GoodEvidence(b.evidence) {
        return false;
      }
    }
    TrackedAll(o.bindings, BindingSlot, seen);
    ok := true;
  }

  method ValidateOperations(operations: seq<Operation>, applications: seq<string>) returns (ok: bool)
    ensures ok <==> OperationsOk(operations, applications)
  {
    var seen: set<string> := {};
    for i := 0 to |operations|
      invariant Tracked(operations, OperationId, i, seen)
      invariant forall j | 0 <= j < i :: OperationOk(operations[j], applications)
    {
      var item := operations[i];
      Track(operations, OperationId, i, seen);
      assert item in operations && OperationId(item) == item.id;
      if item.id == "" || item.id in seen || item.application !in applications || !GoodEvidence(item.evidence) {
        return false;
      }
      var fine := ValidateBindings(item);
      if !fine {
        return false;
      }
      seen := seen + {item.id};
    }
    TrackedAll(operations, OperationId, seen);
    ok := true;
  }

  method ValidateModules(modules: seq<Module>) returns (ok: bool)
    ensures ok <==> ModulesOk(modules)
  {
    var seen: set<string> := {};
    for i := 0 to |modules|
      invariant Tracked(modules, ModuleName, i, seen)
      invariant forall j | 0 <= j < i :: ModuleOk(modules[j])
    {
      var item := modules[i];
      Track(modules, ModuleName, i, seen);
      assert item in modules && ModuleName(item) == item.name;
      if item.name == "" || item.name in seen || !GoodEvidence(item.evidence) {
        return false;
      }
      seen := seen + {item.name};
    }
    TrackedAll(modules, ModuleName, seen);
    ok := true;
  }

  method ValidateRequirements(requirements: seq<Requirement>, modules: seq<string>) returns (ok: bool)
    ensures ok <==> RequirementsOk(requirements, modules)
  {
    for i := 0 to |requirements|
      invariant forall j | 0 <= j < i :: RequirementOk(requirements[j], modules)
    {
      var item := requirements[i];
      assert item in requirements;
      if item.moduleName !in modules {
        return false;
      }
      match item.kind {
        case "config" | "database" | "rpc" =>
          if item.name == "" {
            return false;
          }
        case "logger" | "event_bus" =>
          if item.name != "" {
            return false;
          }
        case _ => return false;
      }
      if !GoodEvidence(item.evidence) {
        return false;
      }
    }
    ok := true;
  }

  /** The search for a cycle among dependencies that passed. */
  method CycleAmong(dependencies: seq<Dependency>, names: seq<string>) returns (cycle: seq<Name>)
    requires DependenciesOk(dependencies, names) && "" !in names
    ensures cycle == [] <==> Acyclic(EdgeGraph(dependencies))
    ensures cycle != [] ==> IsCycle(EdgeGraph(dependencies), cycle)
  {
    cycle := FirstCycle(dependencies, names);
  }

  lemma KnownNames<T>(s: seq<T>, key: T -> string)
    requires forall x | x in s :: key(x) != ""
    ensures "" !in Map(key, s)
  {
    assert forall i | 0 <= i < |s| :: s[i] in s;
  }

  method ValidateApplicationPart(n: Plan) returns (e: PlanError)
    ensures e.Fine? <==> ApplicationsPass(n) && ClosureCurrent(n)
    ensures Explains(n, e) || e.Fine?
    ensures e in {IdentityMissing, InvalidApplications, InvalidApplicationDependencies, StaleClosure, Fine} || e.ApplicationCycle?
  {
    if n.identity == "" {
      return IdentityMissing;
    }
    var ok := ValidateApplications(n.applications);
    if !ok {
      return InvalidApplications;
    }
    var ids := ApplicationIds(n);
    KnownNames(n.applications, ApplicationId);
    ok := ValidateDependencies(n.applicationDependencies, ids);
    if !ok {
      return InvalidApplicationDependencies;
    }
    var cycle := CycleAmong(n.applicationDependencies, ids);
    if cycle != [] {
      return PlanError.ApplicationCycle(cycle);
    }
    ok := ClosureIsCurrent(n.applicationDependencies, n.applicationClosure, CLOSURE_SOURCE);
    e := if ok then Fine else StaleClosure;
  }

  method ValidateOperationPart(n: Plan) returns (e: PlanError)
    ensures e.Fine? <==> OperationsPass(n)
    ensures Explains(n, e) || e.Fine?
    ensures e in {InvalidOperations, InvalidOperationDependencies, Fine} || e.OperationCycle?
  {
    var ok := ValidateOperations(n.operations, ApplicationIds(n));
    if !ok {
      return InvalidOperations;
    }
    KnownNames(n.operations, OperationId);
    ok := ValidateDependencies(n.operationDependencies, OperationIds(n));
    if !ok {
      return InvalidOperationDependencies;
    }
    var cycle := CycleAmong(n.operationDependencies, OperationIds(n));
    e := if cycle != [] then PlanError.OperationCycle(cycle) else Fine;
  }

  method ValidateModulePart(n: Plan) returns (e: PlanError)
    ensures e.Fine? <==> ModulesPass(n)
    ensures Explains(n, e) || e.Fine?
    ensures e in {InvalidModules, InvalidModuleDependencies, Fine} || e.ModuleCycle?
  {
    var ok := ValidateModules(n.modules);
    if !ok {
      return InvalidModules;
    }
    KnownNames(n.modules, ModuleName);
    ok := ValidateDependencies(n.moduleDependencies, ModuleNames(n));
    if !ok {
      return InvalidModuleDependencies;
    }
    var cycle := CycleAmong(n.moduleDependencies, ModuleNames(n));
    e := if cycle != [] then PlanError.ModuleCycle(cycle) else Fine;
  }

  /** Normalizes, then checks part by part; the first check that fails names the error. */
  method Validate(plan: Plan) returns (e: PlanError)
    ensures Explains(Normalize(plan), e)
    ensures e.Fine? <==> ValidNormal(Normalize(plan))
  {
    var n := Normalize(plan);
    e := ValidateApplicationPart(n);
    if !e.Fine? {
      return;
    }
    e := ValidateOperationPart(n);
    if !e.Fine? {
      return;
    }
    e := ValidateModulePart(n);
    if !e.Fine? {
      return;
    }
    if !RequirementsCurrent(n) {
      return StaleRequirements;
    }
    var ok := ValidateRequirements(n.requirements, ModuleNames(n));
    if !ok {
      return InvalidRequirements;
    }
    if |n.targets| != 1 || n.targets[0].name != ROOT_TARGET {
      return InvalidTargets;
    }
    e := if TargetCurrent(n) then Fine else StaleTarget;
  }
}
