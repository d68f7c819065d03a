/** The plans of a contract's operations, and the validation of a finished set of them. */
module PlanSets {
  import opened Options
  import opened Sorting
  import opened Strings
  import opened Text
  import opened Graphs
  import opened CycleSearch
  import opened Permissions

  datatype PlanOwner = PlanOwner(operation: Operation, domain: string, application: string, applicationRequires: seq<Name>) {
    function Key(): Name {
      domain + "/" + application
    }
  }

  datatype OperationPlan = OperationPlan(owner: PlanOwner, permissionClosure: seq<Permission>)

  /** What else an operation says of itself. */
  datatype Detail = Detail(useCase: string, requestType: string, responseType: string, transaction: string, idempotency: string)

  datatype SetError =
    | BadField(id: Name)
    | RepeatedId(id: Name)
    | RequiresItself(id: Name)
    | RequiresUnknown(id: Name, required: Name)
    | CyclicOperations(cycle: seq<Name>)
    | PermissionMissing(id: Name)
    | StaleClosure(id: Name)

  // ----- the rules -----

  function OrNone(s: string): string {
    if s == "" then "none" else s
  }

  /** Durable idempotency stands on a local transaction. */
  predicate ExecutionOk(transaction: string, idempotency: string) {
    && (transaction == "none" || transaction == "read_only" || transaction == "local")
    && (idempotency == "none" || idempotency == "required")
    && (idempotency == "required" ==> transaction == "local")
  }

  /** Without idempotency every known transaction goes; with it, only a local one. */
  lemma ExecutionExactly(transaction: string, idempotency: string)
    ensures ExecutionOk(OrNone(transaction), OrNone(idempotency)) <==>
              || (idempotency == "required" && transaction == "local")
              || ((idempotency == "" || idempotency == "none")
                  && (transaction == "" || transaction == "none" || transaction == "read_only" || transaction == "local"))
  {
  }

  predicate FieldsOk(owner: PlanOwner, d: Detail) {
    var o := owner.operation;
    && o.id != "" && owner.domain != "" && owner.application != ""
    && d.useCase != "" && d.requestType != "" && d.responseType != ""
    && (o.permissionMode == "" || o.permissionMode == "all" || o.permissionMode == "any")
    && ExecutionOk(OrNone(d.transaction), OrNone(d.idempotency))
    && (o.composition == "" || o.composition == "local" || o.composition == "remote_saga")
  }

  predicate AllFieldsOk(plans: seq<OperationPlan>, detail: Name -> Detail) {
    plans == []
    || (var plan := plans[|plans| - 1]; AllFieldsOk(plans[..|plans| - 1], detail) && FieldsOk(plan.owner, detail(plan.owner.operation.id)))
  }

  predicate UniqueIds(plans: seq<OperationPlan>) {
    forall i, j | 0 <= i < j < |plans| :: plans[i].owner.operation.id != plans[j].owner.operation.id
  }

  function OperationsAmong(plans: seq<OperationPlan>): Operations {
    if plans == [] then map[]
    else
      var o := plans[|plans| - 1].owner.operation;
      OperationsAmong(plans[..|plans| - 1])[o.id := o]
  }

  predicate RequirementKnown(operations: Operations, id: Name, required: seq<Name>) {
    forall r | r in required :: r != id && r in operations
  }

  ghost predicate RequirementsKnown(operations: Operations) {
    forall id | id in operations :: RequirementKnown(operations, id, operations[id].requiresOperations)
  }

  /** The closure of `id` as a sorted list. */
  ghost predicate ListsClosure(operations: Operations, id: Name, closure: seq<Permission>) {
    Ordered(closure) && Unique(closure) && forall p :: p in closure <==> InClosure(operations, id, p)
  }

  /** The closure that a plan carries is the one found again. */
  ghost predicate CarriesClosure(operations: Operations, plan: OperationPlan) {
    exists c :: ListsClosure(operations, plan.owner.operation.id, c) && Join('\0', c) == Join('\0', plan.permissionClosure)
  }

  ghost predicate PlanOk(operations: Operations, plan: OperationPlan) {
    (forall p :: !Missing(operations, plan.owner.operation.id, p)) && CarriesClosure(operations, plan)
  }

  ghost predicate SetOk(plans: seq<OperationPlan>, detail: Name -> Detail) {
    var operations := OperationsAmong(plans);
    && AllFieldsOk(plans, detail) && UniqueIds(plans)
    && RequirementsKnown(operations)
    && Acyclic(CallGraph(operations))
    && (forall i | 0 <= i < |plans| :: PlanOk(operations, plans[i]))
  }

  lemma {:induction false} AmongMembers(plans: seq<OperationPlan>, id: Name)
    ensures id in OperationsAmong(plans) <==> exists i | 0 <= i < |plans| :: plans[i].owner.operation.id == id
    ensures id in OperationsAmong(plans) ==> OperationsAmong(plans)[id].id == id
    ensures id in OperationsAmong(plans) ==> exists i | 0 <= i < |plans| :: plans[i].owner.operation == OperationsAmong(plans)[id]
  {
    if plans != [] {
      var init := plans[..|plans| - 1];
      AmongMembers(init, id);
      assert plans == init + [plans[|plans| - 1]];
    }
  }

  // ----- the validator -----

  method CheckFields(owner: PlanOwner, d: Detail) returns (ok: bool)
    ensures ok <==> FieldsOk(owner, d)
  {
    var o := owner.operation;
    if o.id == "" || owner.domain == "" || owner.application == "" {
      return false;
    }
    if d.useCase == "" || d.requestType == "" || d.responseType == "" {
      return false;
    }
    if o.permissionMode != "" && o.permissionMode != "all" && o.permissionMode != "any" {
      return false;
    }
    if !ExecutionOk(OrNone(d.transaction), OrNone(d.idempotency)) {
      return false;
    }
    ok := o.composition == "" || o.composition == "local" || o.composition == "remote_saga";
  }

  /** What the first loop asks of the fields of each plan ... */
  method CheckAllFields(plans: seq<OperationPlan>, detail: Name -> Detail) returns (error: Option<SetError>)
    ensures error.None? <==> AllFieldsOk(plans, detail)
    ensures error.Some? ==> !error.value.CyclicOperations?
  {
    for n := 0 to |plans|
      invariant AllFieldsOk(plans[..n], detail)
    {
      assert plans[..n + 1][..n] == plans[..n];
      var ok := CheckFields(plans[n].owner, detail(plans[n].owner.operation.id));
      if !ok {
        OneBadField(plans, detail, n);
        return Some(BadField(plans[n].owner.operation.id));
      }
    }
    assert plans[..|plans|] == plans;
    error := None;
  }

  /** ... and of its id against the ones before. */
  method IndexPlans(plans: seq<OperationPlan>) returns (operations: Operations, error: Option<SetError>)
    ensures error.None? <==> UniqueIds(plans)
    ensures error.None? ==> operations == OperationsAmong(plans)
    ensures error.Some? ==> !error.value.CyclicOperations?
  {
    operations := map[];
    for n := 0 to |plans|
      invariant operations == OperationsAmong(plans[..n]) && UniqueIds(plans[..n])
    {
      var o := plans[n].owner.operation;
      assert plans[..n + 1][..n] == plans[..n];
      AmongMembers(plans[..n], o.id);
      if o.id in operations {
        ghost var i :| 0 <= i < n && plans[..n][i].owner.operation.id == o.id;
        assert plans[i].owner.operation.id == plans[n].owner.operation.id;
        return operations, Some(RepeatedId(o.id));
      }
      operations := operations[o.id := o];
    }
    assert plans[..|plans|] == plans;
    error := None;
  }

  lemma {:induction false} OneBadField(plans: seq<OperationPlan>, detail: Name -> Detail, n: nat)
    requires n < |plans| && !FieldsOk(plans[n].owner, detail(plans[n].owner.operation.id))
    ensures !AllFieldsOk(plans, detail)
  {
    if n < |plans| - 1 {
      OneBadField(plans[..|plans| - 1], detail, n);
    }
  }

  lemma {:induction false} EachFieldsOk(plans: seq<OperationPlan>, detail: Name -> Detail)
    ensures AllFieldsOk(plans, detail) <==> forall plan | plan in plans :: FieldsOk(plan.owner, detail(plan.owner.operation.id))
  {
    if plans != [] {
      EachFieldsOk(plans[..|plans| - 1], detail);
      assert plans == plans[..|plans| - 1] + [plans[|plans| - 1]];
    }
  }

  method CheckRequiredOf(operations: Operations, id: Name, required: seq<Name>) returns (error: Option<SetError>)
    ensures error.None? <==> RequirementKnown(operations, id, required)
    ensures error.Some? ==> !error.value.CyclicOperations?
  {
    for n := 0 to |required|
      invariant forall m | 0 <= m < n :: required[m] != id && required[m] in operations
    {
      if required[n] == id {
        assert required[n] in required;
        return Some(RequiresItself(id));
      }
      if required[n] !in operations {
        assert required[n] in required;
        return Some(RequiresUnknown(id, required[n]));
      }
    }
    error := None;
  }

  method CheckRequired(operations: Operations) returns (error: Option<SetError>)
    ensures error.None? <==> RequirementsKnown(operations)
    ensures error.Some? ==> !error.value.CyclicOperations?
  {
    var ids := SortedNames(operations.Keys);
    for i := 0 to |ids|
      invariant forall j | 0 <= j < i :: RequirementKnown(operations, ids[j], operations[ids[j]].requiresOperations)
    {
      error := CheckRequiredOf(operations, ids[i], operations[ids[i]].requiresOperations);
      if error.Some? {
        return;
      }
    }
    forall id | id in operations ensures RequirementKnown(operations, id, operations[id].requiresOperations) {
      assert id in ids;
      var j :| 0 <= j < |ids| && ids[j] == id;
    }
    error := None;
  }

  lemma ClosureListed(operations: Operations, id: Name, c: seq<Permission>, d: seq<Permission>)
    requires ListsClosure(operations, id, c) && ListsClosure(operations, id, d)
    ensures c == d
  {
    assert forall p :: Has(c, p) <==> Has(d, p);
    NamesDetermine(c, d);
  }

  /** Finds the closure of one plan again and compares. */
  method CheckClosure(operations: Operations, plan: OperationPlan) returns (error: Option<SetError>)
    requires plan.owner.operation.id in operations && operations[plan.owner.operation.id] == plan.owner.operation
    ensures error.None? <==> PlanOk(operations, plan)
    ensures error.Some? ==> !error.value.CyclicOperations?
  {
    var id := plan.owner.operation.id;
    var found := CollectRequiredPermissions(operations, id);
    var declared := set p | p in plan.owner.operation.permissions;
    var missing := SortedNames(found - declared);
    if missing != [] {
      assert missing[0] in missing && Missing(operations, id, missing[0]);
      return Some(PermissionMissing(id));
    }
    forall p ensures !Missing(operations, id, p) {
      assert p in found && p !in declared ==> p in missing;
    }
    var want := SortedNames(found);
    assert ListsClosure(operations, id, want);
    forall c | ListsClosure(operations, id, c) ensures c == want {
      ClosureListed(operations, id, c, want);
    }
    error := if Join('\0', want) != Join('\0', plan.permissionClosure) then Some(StaleClosure(id)) else None;
  }

  method ValidateSet(plans: seq<OperationPlan>, detail: Name -> Detail) returns (error: Option<SetError>)
    ensures error.None? <==> SetOk(plans, detail)
    ensures error.Some? && error.value.CyclicOperations? ==> IsCycle(CallGraph(OperationsAmong(plans)), error.value.cycle)
  {
    error := CheckAllFields(plans, detail);
    if error.Some? {
      return;
    }
    var operations;
    operations, error := IndexPlans(plans);
    if error.Some? {
      return;
    }
    error := CheckRequired(operations);
    if error.Some? {
      return;
    }
    EachFieldsOk(plans, detail);
    var cycle := SearchOperations(plans, operations);
    if cycle != [] {
      return Some(CyclicOperations(cycle));
    }
    error := CheckClosures(plans, operations);
  }

  method SearchOperations(ghost plans: seq<OperationPlan>, operations: Operations) returns (cycle: seq<Name>)
    requires operations == OperationsAmong(plans) && RequirementsKnown(operations)
    requires forall i | 0 <= i < |plans| :: plans[i].owner.operation.id != ""
    ensures cycle == [] <==> Acyclic(CallGraph(operations))
    ensures cycle != [] ==> IsCycle(CallGraph(operations), cycle)
  {
    var ids := SortedNames(operations.Keys);
    forall a, b | Edge(CallGraph(operations), a, b) ensures b in ids && b != "" {
      AmongMembers(plans, b);
    }
    cycle := SearchAll(CallGraph(operations), ids);
  }

  method CheckClosures(plans: seq<OperationPlan>, operations: Operations) returns (error: Option<SetError>)
    requires operations == OperationsAmong(plans) && UniqueIds(plans)
    ensures error.None? <==> forall i | 0 <= i < |plans| :: PlanOk(operations, plans[i])
    ensures error.Some? ==> !error.value.CyclicOperations?
  {
    for n := 0 to |plans|
      invariant forall i | 0 <= i < n :: PlanOk(operations, plans[i])
    {
      FoundAmong(plans, n);
      error := CheckClosure(operations, plans[n]);
      if error.Some? {
        return;
      }
    }
    error := None;
  }

  lemma FoundAmong(plans: seq<OperationPlan>, n: nat)
    requires n < |plans| && UniqueIds(plans)
    ensures
      var o := plans[n].owner.operation;
      o.id in OperationsAmong(plans) && OperationsAmong(plans)[o.id] == o
  {
    AmongMembers(plans, plans[n].owner.operation.id);
    var i :| 0 <= i < |plans| && plans[i].owner.operation == OperationsAmong(plans)[plans[n].owner.operation.id];
  }
}
