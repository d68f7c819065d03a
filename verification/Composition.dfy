/** The linter's rules for how applications and operations may build on each other. */
module Composition {
  import opened Options
  import opened Strings
  import opened Text
  import opened Graphs
  import opened CycleSearch
  import opened Permissions

  datatype Application = Application(name: string, needs: seq<Name>)

  /** A service; `bindings` is absent when its operations could not be read. */
  datatype Service = Service(
    fullName: string,
    domain: string,
    application: Option<Application>,
    bindings: Option<seq<Operation>>)

  datatype Owner = Owner(operation: Operation, applicationKey: Name)

  datatype Diagnostic =
    | DuplicateApplication(key: Name)
    | UnreadableOperations(service: string)
    | MalformedDependency(key: Name, dependency: Name)
    | ApplicationNeedsItself(key: Name)
    | UnknownApplication(key: Name, dependency: Name)
    | UnknownComposition(operation: Name)
    | UnknownOperation(operation: Name, needed: Name)
    | OperationNeedsItself(operation: Name)
    | UndeclaredApplication(operation: Name, application: Name)
    | ApplicationCycle(cycle: seq<Name>)
    | OperationCycle(cycle: seq<Name>)
    | PermissionsMissing(operation: Name, missing: seq<Permission>)

  /** White space around a key does not count. */
  predicate ValidPolicyKey(value: string) {
    PlainKey(Trim(value))
  }

  predicate PlainKey(value: string) {
    value != "" && 'a' <= value[0] <= 'z' && KeyChars(value[1..])
  }

  predicate KeyChar(c: char) {
    'a' <= c <= 'z' || '0' <= c <= '9' || c == '.' || c == '_' || c == '-' || c == ':'
  }

  predicate KeyChars(value: string) {
    value == "" || (KeyChar(value[0]) && KeyChars(value[1..]))
  }

  lemma {:induction false} EveryKeyChar(value: string)
    ensures KeyChars(value) <==> forall c | c in value :: KeyChar(c)
  {
    if value != "" {
      EveryKeyChar(value[1..]);
      assert value == [value[0]] + value[1..];
    }
  }

  /** Exactly two valid keys around one slash. */
  predicate ValidApplicationDependency(value: string) {
    var parts := Split('/', Trim(value));
    |parts| == 2 && ValidPolicyKey(parts[0]) && ValidPolicyKey(parts[1])
  }

  predicate Typed(s: Service) {
    s.application.Some? && s.domain != ""
  }

  function ApplicationKey(s: Service): Name
    requires Typed(s)
  {
    s.domain + "/" + s.application.value.name
  }

  // ----- the index of applications and operations -----

  datatype Index = Index(applications: map<Name, Service>, owners: map<Name, Owner>)

  predicate Collides(index: Index, s: Service)
    requires Typed(s)
  {
    ApplicationKey(s) in index.applications && index.applications[ApplicationKey(s)].fullName != s.fullName
  }

  function AddOperations(owners: map<Name, Owner>, operations: seq<Operation>, key: Name): map<Name, Owner> {
    if operations == [] then owners
    else
      var o := operations[|operations| - 1];
      var before := AddOperations(owners, operations[..|operations| - 1], key);
      if o.id == "" then before else before[o.id := Owner(o, key)]
  }

  function AddService(index: Index, s: Service): Index {
    if !Typed(s) then index
    else
      var key := ApplicationKey(s);
      Index(if Collides(index, s) then index.applications else index.applications[key := s],
            if s.bindings.None? then index.owners else AddOperations(index.owners, s.bindings.value, key))
  }

  function IndexOfServices(services: seq<Service>): Index {
    if services == [] then Index(map[], map[])
    else AddService(IndexOfServices(services[..|services| - 1]), services[|services| - 1])
  }

  /** Every typed service has its own key and readable operations. */
  ghost predicate Indexable(services: seq<Service>) {
    forall i | 0 <= i < |services| && Typed(services[i]) ::
      services[i].bindings.Some? && !Collides(IndexOfServices(services[..i]), services[i])
  }

  method IndexServices(services: seq<Service>) returns (index: Index, diagnostics: seq<Diagnostic>)
    ensures index == IndexOfServices(services)
    ensures diagnostics == [] <==> Indexable(services)
    ensures forall d | d in diagnostics :: d.DuplicateApplication? || d.UnreadableOperations?
  {
    index, diagnostics := Index(map[], map[]), [];
    for i := 0 to |services|
      invariant index == IndexOfServices(services[..i])
      invariant diagnostics == [] <==> forall j | 0 <= j < i && Typed(services[j]) ::
        services[j].bindings.Some? && !Collides(IndexOfServices(services[..j]), services[j])
      invariant forall d | d in diagnostics :: d.DuplicateApplication? || d.UnreadableOperations?
    {
      var s := services[i];
      assert services[..i + 1][..i] == services[..i];
      if Typed(s) {
        if Collides(index, s) {
          diagnostics := diagnostics + [DuplicateApplication(ApplicationKey(s))];
        }
        if s.bindings.None? {
          diagnostics := diagnostics + [UnreadableOperations(s.fullName)];
        }
      }
      index := AddService(index, s);
    }
    assert services[..|services|] == services;
  }

  /** The operation of a typed service that can be read. */
  predicate OwnedBy(services: seq<Service>, id: Name, owner: Owner) {
    exists s | s in services :: Typed(s) && s.bindings.Some? && owner.operation in s.bindings.value
                                && owner.operation.id == id && owner.applicationKey == ApplicationKey(s)
  }

  lemma {:induction false} AddedOwners(owners: map<Name, Owner>, operations: seq<Operation>, key: Name, id: Name)
    ensures
      var after := AddOperations(owners, operations, key);
      && (id in after ==>
            || (id in owners && after[id] == owners[id])
            || (after[id].operation in operations && after[id].operation.id == id != "" && after[id].applicationKey == key))
      && (id in owners ==> id in after)
      && (forall o | o in operations && o.id == id != "" :: id in after)
  {
    if operations != [] {
      var init, last := operations[..|operations| - 1], operations[|operations| - 1];
      assert operations == init + [last];
      AddedOwners(owners, init, key, id);
    }
  }

  /** The index knows exactly the operations of typed services, each with a service that declares it. */
  lemma {:induction false} IndexedOperations(services: seq<Service>, id: Name)
    ensures id in IndexOfServices(services).owners ==> OwnedBy(services, id, IndexOfServices(services).owners[id])
    ensures forall s, o | s in services && Typed(s) && s.bindings.Some? && o in s.bindings.value && o.id == id != ""
              :: id in IndexOfServices(services).owners
  {
    if services != [] {
      var init, last := services[..|services| - 1], services[|services| - 1];
      assert services == init + [last] && last in services;
      IndexedOperations(init, id);
      if Typed(last) && last.bindings.Some? {
        AddedOwners(IndexOfServices(init).owners, last.bindings.value, ApplicationKey(last), id);
      }
    }
  }

  // ----- one application -----

  predicate AcceptedDependency(index: Index, key: Name, dependency: Name) {
    ValidApplicationDependency(dependency) && dependency != key && dependency in index.applications
  }

  /** The dependencies that pass, in their order. */
  function Accepted(index: Index, key: Name, dependencies: seq<Name>): (r: seq<Name>)
    ensures forall d :: d in r <==> d in dependencies && AcceptedDependency(index, key, d)
  {
    if dependencies == [] then []
    else
      var d := dependencies[|dependencies| - 1];
      assert dependencies == dependencies[..|dependencies| - 1] + [d];
      Accepted(index, key, dependencies[..|dependencies| - 1]) + if AcceptedDependency(index, key, d) then [d] else []
  }

  function RequiresOf(s: Service): seq<Name> {
    if s.application.Some? then s.application.value.needs else []
  }

  /** What a known operation may be required for: not itself, and only across declared applications. */
  predicate ProperRequirement(index: Index, key: Name, declared: seq<Name>, o: Operation, needed: Name) {
    && needed in index.owners && needed != o.id
    && (index.owners[needed].applicationKey == key || index.owners[needed].applicationKey in declared)
  }

  predicate ProperOperation(index: Index, key: Name, declared: seq<Name>, o: Operation) {
    && (o.composition == "" || o.composition == "local" || o.composition == "remote_saga")
    && forall needed | needed in o.requiresOperations :: ProperRequirement(index, key, declared, o, needed)
  }

  predicate ProperApplication(index: Index, key: Name, s: Service) {
    && (forall d | d in RequiresOf(s) :: AcceptedDependency(index, key, d))
    && (s.bindings.Some? ==>
          forall o | o in s.bindings.value :: ProperOperation(index, key, Accepted(index, key, RequiresOf(s)), o))
  }

  predicate Local(d: Diagnostic) {
    !d.ApplicationCycle? && !d.OperationCycle? && !d.PermissionsMissing?
  }

  method LintOperation(index: Index, key: Name, declared: seq<Name>, o: Operation) returns (diagnostics: seq<Diagnostic>)
    ensures diagnostics == [] <==> ProperOperation(index, key, declared, o)
    ensures forall d | d in diagnostics :: Local(d)
  {
    diagnostics := [];
    if o.composition != "" && o.composition != "local" && o.composition != "remote_saga" {
      diagnostics := [UnknownComposition(o.id)];
    }
    ghost var known := diagnostics == [];
    for i := 0 to |o.requiresOperations|
      invariant diagnostics == [] <==>
        known && forall n | n in o.requiresOperations[..i] :: ProperRequirement(index, key, declared, o, n)
      invariant forall d | d in diagnostics :: Local(d)
    {
      var needed := o.requiresOperations[i];
      assert o.requiresOperations[..i + 1] == o.requiresOperations[..i] + [needed];
      ghost var was := diagnostics;
      if needed !in index.owners {
        diagnostics := diagnostics + [UnknownOperation(o.id, needed)];
      } else {
        var owner := index.owners[needed];
        if needed == o.id {
          diagnostics := diagnostics + [OperationNeedsItself(o.id)];
        }
        if owner.applicationKey != key && owner.applicationKey !in declared {
          diagnostics := diagnostics + [UndeclaredApplication(o.id, owner.applicationKey)];
        }
      }
      assert |diagnostics| == |was| <==> ProperRequirement(index, key, declared, o, needed);
    }
    assert o.requiresOperations[..|o.requiresOperations|] == o.requiresOperations;
  }

  method LintOperations(index: Index, key: Name, declared: seq<Name>, operations: seq<Operation>) returns (diagnostics: seq<Diagnostic>)
    ensures diagnostics == [] <==> forall o | o in operations :: ProperOperation(index, key, declared, o)
    ensures forall d | d in diagnostics :: Local(d)
  {
    diagnostics := [];
    for i := 0 to |operations|
      invariant diagnostics == [] <==> forall o | o in operations[..i] :: ProperOperation(index, key, declared, o)
      invariant forall d | d in diagnostics :: Local(d)
    {
      assert operations[..i + 1] == operations[..i] + [operations[i]];
      var more := LintOperation(index, key, declared, operations[i]);
      diagnostics := diagnostics + more;
    }
    assert operations[..|operations|] == operations;
  }

  /** What is wrong with one dependency of an application, if anything. */
  method LintDependency(index: Index, key: Name, dependency: Name) returns (diagnostics: seq<Diagnostic>)
    ensures diagnostics == [] <==> AcceptedDependency(index, key, dependency)
    ensures forall d | d in diagnostics :: Local(d)
  {
    if !ValidApplicationDependency(dependency) {
      return [MalformedDependency(key, dependency)];
    }
    if dependency == key {
      return [ApplicationNeedsItself(key)];
    }
    if dependency !in index.applications {
      return [UnknownApplication(key, dependency)];
    }
    return [];
  }

  method LintDependencies(index: Index, key: Name, dependencies: seq<Name>) returns (declared: seq<Name>, diagnostics: seq<Diagnostic>)
    ensures declared == Accepted(index, key, dependencies)
    ensures diagnostics == [] <==> forall d | d in dependencies :: AcceptedDependency(index, key, d)
    ensures forall d | d in diagnostics :: Local(d)
  {
    declared, diagnostics := [], [];
    for i := 0 to |dependencies|
      invariant declared == Accepted(index, key, dependencies[..i])
      invariant |declared| <= i && (diagnostics == [] <==> |declared| == i)
      invariant forall d | d in diagnostics :: Local(d)
    {
      assert dependencies[..i + 1][..i] == dependencies[..i];
      var more := LintDependency(index, key, dependencies[i]);
      if more == [] {
        declared := declared + [dependencies[i]];
      }
      diagnostics := diagnostics + more;
    }
    assert dependencies[..|dependencies|] == dependencies;
    AllAccepted(index, key, dependencies);
  }

  /** All dependencies pass exactly when none is left out. */
  lemma {:induction false} AllAccepted(index: Index, key: Name, dependencies: seq<Name>)
    ensures |Accepted(index, key, dependencies)| <= |dependencies|
    ensures |Accepted(index, key, dependencies)| == |dependencies| <==> forall d | d in dependencies :: AcceptedDependency(index, key, d)
  {
    if dependencies != [] {
      var init, d := dependencies[..|dependencies| - 1], dependencies[|dependencies| - 1];
      assert dependencies == init + [d];
      AllAccepted(index, key, init);
    }
  }

  method LintApplication(index: Index, key: Name, s: Service) returns (declared: seq<Name>, diagnostics: seq<Diagnostic>)
    ensures declared == Accepted(index, key, RequiresOf(s))
    ensures diagnostics == [] <==> ProperApplication(index, key, s)
    ensures forall d | d in diagnostics :: Local(d)
  {
    declared, diagnostics := LintDependencies(index, key, RequiresOf(s));
    if s.bindings.Some? {
      var more := LintOperations(index, key, declared, s.bindings.value);
      diagnostics := diagnostics + more;
    }
  }

  // ----- all of it -----

  function ApplicationGraph(index: Index): Graph {
    map key | key in index.applications && Accepted(index, key, RequiresOf(index.applications[key])) != []
      :: Accepted(index, key, RequiresOf(index.applications[key]))
  }

  function OperationsOf(index: Index): Operations {
    map id | id in index.owners :: index.owners[id].operation
  }

  /** What it takes to pass: the conditions the linter is there to enforce. */
  ghost predicate Clean(services: seq<Service>) {
    var index := IndexOfServices(services);
    && Indexable(services)
    && (forall key | key in index.applications :: ProperApplication(index, key, index.applications[key]))
    && Acyclic(ApplicationGraph(index))
    && Acyclic(CallGraph(OperationsOf(index)))
    && (forall id, p :: !Missing(OperationsOf(index), id, p))
  }

  method LintPermissions(operations: Operations) returns (diagnostics: seq<Diagnostic>)
    ensures diagnostics == [] <==> forall id, p :: !Missing(operations, id, p)
    ensures forall d | d in diagnostics :: d.PermissionsMissing? && Exact(operations, d)
  {
    diagnostics := [];
    var ids := SortedNames(operations.Keys);
    for i := 0 to |ids|
      invariant diagnostics == [] <==> forall id, p | id in ids[..i] :: !Missing(operations, id, p)
      invariant forall d | d in diagnostics :: d.PermissionsMissing? && Exact(operations, d)
    {
      var id := ids[i];
      assert id in ids && ids[..i + 1] == ids[..i] + [id];
      var closure := CollectRequiredPermissions(operations, id);
      var missing := SortedNames(closure - set p | p in operations[id].permissions);
      assert forall p :: p in missing <==> Missing(operations, id, p);
      if missing != [] {
        assert Missing(operations, id, missing[0]);
        diagnostics := diagnostics + [PermissionsMissing(id, missing)];
      }
    }
    assert ids[..|ids|] == ids;
  }

  /** A diagnostic about permissions names what is missing, all of it and nothing else. */
  ghost predicate Exact(operations: Operations, d: Diagnostic)
    requires d.PermissionsMissing?
  {
    d.missing != [] && forall p :: p in d.missing <==> Missing(operations, d.operation, p)
  }

  /** A diagnostic about a graph shows what is wrong with it. */
  ghost predicate Justified(index: Index, d: Diagnostic) {
    && (d.ApplicationCycle? ==> IsCycle(ApplicationGraph(index), d.cycle))
    && (d.OperationCycle? ==> IsCycle(CallGraph(OperationsOf(index)), d.cycle))
    && (d.PermissionsMissing? ==> Exact(OperationsOf(index), d))
  }

  method LintApplications(index: Index) returns (diagnostics: seq<Diagnostic>)
    ensures diagnostics == [] <==>
      forall key | key in index.applications :: ProperApplication(index, key, index.applications[key])
    ensures forall d | d in diagnostics :: Local(d)
  {
    diagnostics := [];
    var keys := SortedNames(index.applications.Keys);
    for i := 0 to |keys|
      invariant forall d | d in diagnostics :: Local(d)
      invariant diagnostics == [] <==>
        forall j | 0 <= j < i :: ProperApplication(index, keys[j], index.applications[keys[j]])
    {
      var declared, more := LintApplication(index, keys[i], index.applications[keys[i]]);
      diagnostics := diagnostics + more;
    }
  }

  method LintComposition(services: seq<Service>) returns (diagnostics: seq<Diagnostic>)
    ensures diagnostics == [] <==> Clean(services)
    ensures forall d | d in diagnostics :: Justified(IndexOfServices(services), d)
  {
    var index;
    index, diagnostics := IndexServices(services);
    var more := LintApplications(index);
    diagnostics := diagnostics + more;
    more := LintGraphs(index);
    diagnostics := diagnostics + more;
  }

  /** The rules that look at the graphs as a whole. */
  method LintGraphs(index: Index) returns (diagnostics: seq<Diagnostic>)
    ensures diagnostics == [] <==>
      && Acyclic(ApplicationGraph(index)) && Acyclic(CallGraph(OperationsOf(index)))
      && (forall id, p :: !Missing(OperationsOf(index), id, p))
    ensures forall d | d in diagnostics :: Justified(index, d)
  {
    var cycles := DependencyCycles(ApplicationGraph(index));
    diagnostics := seq(|cycles|, i requires 0 <= i < |cycles| => ApplicationCycle(cycles[i]));
    var operations := OperationsOf(index);
    cycles := DependencyCycles(CallGraph(operations));
    diagnostics := diagnostics + seq(|cycles|, i requires 0 <= i < |cycles| => OperationCycle(cycles[i]));
    var missing := LintPermissions(operations);
    diagnostics := diagnostics + missing;
  }
}
