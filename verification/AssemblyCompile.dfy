/** The compiler of assembly plans, and why its result depends on the facts alone. */
module AssemblyCompile {
  import opened PlanFacts
  import opened Closure
  import opened AssemblyPlan
  import opened AssemblyValidation
  import opened AssemblyChecks
  import opened AssemblyLaws
  import opened AssemblyContents
  import opened AssemblyInputs

  // ----- the compiler -----

  method CompileApplications(items: seq<ApplicationInput>) returns (applications: seq<Application>, edges: seq<Dependency>)
    ensures applications == Map(ToApplication, items) && edges == FlatMap(ApplicationEdges, items)
  {
    applications, edges := [], [];
    for k := 0 to |items|
      invariant applications == Map(ToApplication, items[..k]) && edges == FlatMap(ApplicationEdges, items[..k])
    {
      assert items[..k + 1][..k] == items[..k];
      applications := applications + [ToApplication(items[k])];
      edges := edges + ApplicationEdges(items[k]);
    }
    assert items[..|items|] == items;
  }

  method CompileOperations(items: seq<OperationInput>) returns (operations: seq<Operation>, edges: seq<Dependency>)
    ensures operations == Map(ToOperation, items) && edges == FlatMap(OperationEdges, items)
  {
    operations, edges := [], [];
    for k := 0 to |items|
      invariant operations == Map(ToOperation, items[..k]) && edges == FlatMap(OperationEdges, items[..k])
    {
      assert items[..k + 1][..k] == items[..k];
      operations := operations + [ToOperation(items[k])];
      edges := edges + OperationEdges(items[k]);
    }
    assert items[..|items|] == items;
  }

  method CompileModules(items: seq<ModuleInput>)
    returns (modules: seq<Module>, edges: seq<Dependency>, requirements: seq<Requirement>)
    ensures modules == Map(ToModule, items) && edges == FlatMap(ModuleEdges, items)
    ensures requirements == FlatMap(RequirementsOf, modules)
  {
    modules, edges, requirements := [], [], [];
    for k := 0 to |items|
      invariant modules == Map(ToModule, items[..k]) && edges == FlatMap(ModuleEdges, items[..k])
      invariant requirements == FlatMap(RequirementsOf, modules)
    {
      var m := ToModule(items[k]);
      assert items[..k + 1] == items[..k] + [items[k]];
      MapOneMore(ToModule, items[..k], items[k]);
      FlatMapOneMore(ModuleEdges, items[..k], items[k]);
      FlatMapOneMore(RequirementsOf, modules, m);
      modules := modules + [m];
      edges := edges + ModuleEdges(items[k]);
      requirements := requirements + RequirementsOf(m);
    }
    assert items[..|items|] == items;
  }

  /** The plan of a normalized input before it is normalized itself. */
  method MakeDraft(i: Input) returns (draft: Plan)
    ensures ClosesInput(i, draft.applicationClosure) && draft == Draft(i, draft.applicationClosure)
  {
    var applications, applicationEdges := CompileApplications(i.applications);
    var closure := DependencyClosure(applicationEdges, CLOSURE_SOURCE);
    var operations, operationEdges := CompileOperations(i.operations);
    var modules, moduleEdges, requirements := CompileModules(i.modules);
    draft := Plan(i.identity, applications, applicationEdges, closure, operations, operationEdges,
                  modules, moduleEdges, requirements, []);
  }

  /** Compiles an input: the plan it makes, unless the validator finds fault with it. */
  method Compile(input: Input) returns (p: Plan, e: PlanError)
    ensures MadeFrom(NormalInput(input), p)
    ensures Explains(Normalize(p), e) && (e.Fine? <==> ValidNormal(Normalize(p)))
    ensures e.Fine? <==> ApplicationsCompile(input) && OperationsCompile(input) && ModulesCompile(input)
    ensures Carries(SameApplication, input.applications, p.applications)
    ensures Carries(SameOperation, input.operations, p.operations)
    ensures Carries(SameModule, input.modules, p.modules)
  {
    p := MakeDraft(NormalInput(input));
    p := Normalize(p);
    p := p.(targets := [DeriveRootTarget(p)]);
    p := Normalize(p);
    PlanHolds(input, p);
    CompilesExactly(input, p);
    e := Validate(p);
  }
}
