/** Compiling the operations of a contract into plans that carry their permission closure. */
module OperationPlans {
  import opened Options
  import opened Keys
  import opened Sorting
  import opened Strings
  import opened Text
  import opened Graphs
  import opened CycleSearch
  import opened Permissions
  import opened PlanSets
  import opened Composition

  /** What an operation says about the boundary it works in: a context, and an aggregate or a reason why there is none. */
  datatype BoundaryIntent = BoundaryIntent(context: string, aggregate: string, reason: string)

  datatype Refusal =
    | BadBoundaryIntent
    | StrayOperation
    | UnnamedApplication
    | DuplicateApplicationKey
    | BadApplicationDependency
    | CyclicApplications
    | UnreadableService
    | UnnamedOperation
    | DuplicateOperation
    | UnknownRequirement
    | UndeclaredRequirement
    | InvalidSet(error: SetError)

  datatype Outcome = Planned(plans: seq<OperationPlan>) | Refused(why: Refusal)

  // ----- the rules -----

  /** One of aggregate and reason is given, and not both; keys are valid, and the reason is text. */
  predicate IntentOk(i: BoundaryIntent) {
    var aggregate, reason := Trim(i.aggregate), Trim(i.reason);
    ValidPolicyKey(i.context) && if aggregate == "" then reason != "" && NoneOf(reason, "\0") else reason == "" && ValidPolicyKey(aggregate)
  }

  predicate IntentsOk(intents: seq<BoundaryIntent>) {
    forall n | 0 <= n < |intents| :: IntentOk(intents[n])
  }

  /** A service either declares an application with readable operations, or has no operations. */
  predicate WellPlaced(s: Service) {
    if s.application.None? then s.bindings == Some([])
    else s.domain != "" && s.application.value.name != "" && s.bindings.Some?
  }

  function KeyOf(s: Service): Name {
    if s.application.Some? then s.domain + "/" + s.application.value.name else ""
  }

  /** The applications declared so far, by key. */
  function Declared(services: seq<Service>): map<Name, Service> {
    if services == [] then map[]
    else
      var last := services[|services| - 1];
      if last.application.None? then Declared(services[..|services| - 1])
      else Declared(services[..|services| - 1])[KeyOf(last) := last]
  }

  /** Another service has declared the application already. */
  predicate Taken(services: seq<Service>, i: nat)
    requires i < |services|
  {
    services[i].application.Some? && KeyOf(services[i]) in Declared(services[..i])
    && Declared(services[..i])[KeyOf(services[i])].fullName != services[i].fullName
  }

  function NeedsOf(s: Service): seq<Name> {
    StableStrings(RequiresOf(s))
  }

  predicate NeedOk(applications: map<Name, Service>, key: Name, d: Name) {
    ValidApplicationDependency(d) && d != key && d in applications
  }

  function NeedGraph(applications: map<Name, Service>): Graph {
    map key | key in applications :: NeedsOf(applications[key])
  }

  function OwnersOf(s: Service): seq<PlanOwner> {
    if s.application.None? || s.bindings.None? then []
    else seq(|s.bindings.value|, i requires 0 <= i < |s.bindings.value| =>
               PlanOwner(s.bindings.value[i], s.domain, s.application.value.name, RequiresOf(s)))
  }

  /** All operations, in the order of their services. */
  function Listing(services: seq<Service>): seq<PlanOwner> {
    if services == [] then [] else Listing(services[..|services| - 1]) + OwnersOf(services[|services| - 1])
  }

  function ById(listing: seq<PlanOwner>): map<Name, PlanOwner> {
    if listing == [] then map[] else ById(listing[..|listing| - 1])[listing[|listing| - 1].operation.id := listing[|listing| - 1]]
  }

  function OperationsIn(owners: map<Name, PlanOwner>): Operations {
    map id | id in owners :: owners[id].operation
  }

  /** A requirement is known, and belongs to the same application or to a declared one. */
  predicate RequirementOk(owners: map<Name, PlanOwner>, o: PlanOwner, r: Name) {
    r in owners && (owners[r].Key() == o.Key() || owners[r].Key() in o.applicationRequires)
  }

  predicate OperationIdsOk(listing: seq<PlanOwner>) {
    && (forall o | o in listing :: o.operation.id != "")
    && (forall i, j | 0 <= i < j < |listing| :: listing[i].operation.id != listing[j].operation.id)
  }

  /** What it takes for a contract to have plans. */
  ghost predicate Plannable(services: seq<Service>) {
    var applications, owners := Declared(services), ById(Listing(services));
    && (forall i | 0 <= i < |services| :: WellPlaced(services[i]) && !Taken(services, i))
    && (forall key, d | key in applications && d in NeedsOf(applications[key]) :: NeedOk(applications, key, d))
    && Acyclic(NeedGraph(applications))
    && OperationIdsOk(Listing(services))
    && (forall id, r | id in owners && r in owners[id].operation.requiresOperations :: RequirementOk(owners, owners[id], r))
  }

  /** What the validation of the finished plans adds: proper fields, no circle, and every closure declared. */
  ghost predicate Finishable(owners: map<Name, PlanOwner>, detail: Name -> Detail) {
    && (forall id | id in owners :: FieldsOk(owners[id], detail(id)))
    && Acyclic(CallGraph(OperationsIn(owners)))
    && (forall id, p :: !Missing(OperationsIn(owners), id, p))
  }

  // ----- the compiler -----

  method ValidateBoundaryIntent(i: BoundaryIntent) returns (ok: bool)
    ensures ok <==> IntentOk(i)
  {
    if !ValidPolicyKey(i.context) {
      return false;
    }
    var aggregate, reason := Trim(i.aggregate), Trim(i.reason);
    if (aggregate == "") == (reason == "") {
      return false;
    }
    if aggregate != "" && !ValidPolicyKey(aggregate) {
      return false;
    }
    ok := NoneOf(reason, "\0");
  }

  method ValidateBoundaryIntents(intents: seq<BoundaryIntent>) returns (ok: bool)
    ensures ok <==> IntentsOk(intents)
  {
    for n := 0 to |intents|
      invariant forall m | 0 <= m < n :: IntentOk(intents[m])
    {
      ok := ValidateBoundaryIntent(intents[n]);
      if !ok {
        return;
      }
    }
    ok := true;
  }

  method DeclareApplications(services: seq<Service>) returns (applications: map<Name, Service>, refusal: Option<Refusal>)
    ensures refusal.None? <==> forall i | 0 <= i < |services| :: WellPlaced(services[i]) && !Taken(services, i)
    ensures refusal.None? ==> applications == Declared(services)
  {
    applications := map[];
    for i := 0 to |services|
      invariant applications == Declared(services[..i])
      invariant forall j | 0 <= j < i :: WellPlaced(services[j]) && !Taken(services, j)
    {
      var s := services[i];
      assert services[..i + 1][..i] == services[..i];
      if s.application.None? {
        if s.bindings != Some([]) {
          return applications, Some(StrayOperation);
        }
      } else {
        if s.domain == "" || s.application.value.name == "" {
          return applications, Some(UnnamedApplication);
        }
        var key := KeyOf(s);
        if key in applications && applications[key].fullName != s.fullName {
          return applications, Some(DuplicateApplicationKey);
        }
        if s.bindings.None? {
          return applications, Some(UnreadableService);
        }
        applications := applications[key := s];
      }
    }
    assert services[..|services|] == services;
    refusal := None;
  }

  method CheckNeedsOf(applications: map<Name, Service>, key: Name, needs: seq<Name>) returns (ok: bool)
    ensures ok <==> forall d | d in needs :: NeedOk(applications, key, d)
  {
    for n := 0 to |needs|
      invariant forall m | 0 <= m < n :: NeedOk(applications, key, needs[m])
    {
      if !ValidApplicationDependency(needs[n]) || needs[n] == key || needs[n] !in applications {
        assert needs[n] in needs;
        return false;
      }
    }
    ok := true;
  }

  method CheckNeeds(applications: map<Name, Service>) returns (ok: bool)
    ensures ok <==> forall key, d | key in applications && d in NeedsOf(applications[key]) :: NeedOk(applications, key, d)
  {
    var keys := SortedNames(applications.Keys);
    for i := 0 to |keys|
      invariant forall j, d | 0 <= j < i && d in NeedsOf(applications[keys[j]]) :: NeedOk(applications, keys[j], d)
    {
      ok := CheckNeedsOf(applications, keys[i], NeedsOf(applications[keys[i]]));
      if !ok {
        return;
      }
    }
    forall key, d | key in applications && d in NeedsOf(applications[key]) ensures NeedOk(applications, key, d) {
      assert key in keys;
      var j :| 0 <= j < |keys| && keys[j] == key;
    }
    ok := true;
  }

  method ListOperations(services: seq<Service>) returns (listing: seq<PlanOwner>)
    ensures listing == Listing(services)
  {
    listing := [];
    for i := 0 to |services|
      invariant listing == Listing(services[..i])
    {
      assert services[..i + 1][..i] == services[..i];
      listing := listing + OwnersOf(services[i]);
    }
    assert services[..|services|] == services;
  }

  method CollectOwners(listing: seq<PlanOwner>) returns (owners: map<Name, PlanOwner>, refusal: Option<Refusal>)
    ensures refusal.None? <==> OperationIdsOk(listing)
    ensures refusal.None? ==> owners == ById(listing)
  {
    owners := map[];
    for i := 0 to |listing|
      invariant owners == ById(listing[..i]) && OperationIdsOk(listing[..i])
    {
      var o := listing[i];
      assert listing[..i + 1] == listing[..i] + [o] && listing[..i + 1][..i] == listing[..i];
      OwnersMembers(listing[..i], o.operation.id);
      if o.operation.id == "" {
        assert o in listing;
        return owners, Some(UnnamedOperation);
      }
      if o.operation.id in owners {
        ghost var j :| 0 <= j < i && listing[..i][j].operation.id == o.operation.id;
        assert listing[j].operation.id == listing[i].operation.id;
        return owners, Some(DuplicateOperation);
      }
      owners := owners[o.operation.id := o];
    }
    assert listing[..|listing|] == listing;
    refusal := None;
  }

  lemma {:induction false} OwnersMembers(listing: seq<PlanOwner>, id: Name)
    ensures id in ById(listing) <==> exists j | 0 <= j < |listing| :: listing[j].operation.id == id
    ensures id in ById(listing) ==> ById(listing)[id] in listing && ById(listing)[id].operation.id == id
  {
    if listing != [] {
      OwnersMembers(listing[..|listing| - 1], id);
      assert listing == listing[..|listing| - 1] + [listing[|listing| - 1]];
    }
  }

  method CheckRequirements(owners: map<Name, PlanOwner>) returns (refusal: Option<Refusal>)
    ensures refusal.None? <==>
      forall id, r | id in owners && r in owners[id].operation.requiresOperations :: RequirementOk(owners, owners[id], r)
  {
    var ids := SortedNames(owners.Keys);
    for i := 0 to |ids|
      invariant forall j, r | 0 <= j < i && r in owners[ids[j]].operation.requiresOperations :: RequirementOk(owners, owners[ids[j]], r)
    {
      var id := ids[i];
      var required := owners[id].operation.requiresOperations;
      for n := 0 to |required|
        invariant forall m | 0 <= m < n :: RequirementOk(owners, owners[id], required[m])
      {
        assert id in owners && required[n] in owners[id].operation.requiresOperations;
        if required[n] !in owners {
          return Some(UnknownRequirement);
        }
        var target := owners[required[n]];
        if target.Key() != owners[id].Key() && target.Key() !in owners[id].applicationRequires {
          return Some(UndeclaredRequirement);
        }
      }
    }
    forall id, r | id in owners && r in owners[id].operation.requiresOperations ensures RequirementOk(owners, owners[id], r) {
      assert id in ids;
      var j :| 0 <= j < |ids| && ids[j] == id;
    }
    refusal := None;
  }

  /** A plan of an operation, with exactly the permissions of what the operation reaches, sorted. */
  ghost predicate PlanOf(owners: map<Name, PlanOwner>, plan: OperationPlan) {
    var id := plan.owner.operation.id;
    && id in owners && owners[id] == plan.owner
    && Ordered(plan.permissionClosure) && Unique(plan.permissionClosure)
    && forall p :: p in plan.permissionClosure <==> InClosure(OperationsIn(owners), id, p)
  }

  method PlanAll(owners: map<Name, PlanOwner>) returns (plans: seq<OperationPlan>)
    requires forall id | id in owners :: owners[id].operation.id == id
    ensures |plans| == |owners| && (forall plan | plan in plans :: PlanOf(owners, plan))
    ensures forall id | id in owners :: exists plan | plan in plans :: plan.owner == owners[id]
    ensures forall i, j | 0 <= i < j < |plans| :: Less(plans[i].owner.operation.id, plans[j].owner.operation.id)
  {
    var ids := SortedNames(owners.Keys);
    plans := [];
    for i := 0 to |ids|
      invariant |plans| == i && (forall j | 0 <= j < i :: PlanOf(owners, plans[j]) && plans[j].owner.operation.id == ids[j])
    {
      var closure := CollectRequiredPermissions(OperationsIn(owners), ids[i]);
      var sorted := SortedNames(closure);
      plans := plans + [OperationPlan(owners[ids[i]], sorted)];
    }
    NamesCounted(ids, owners.Keys);
    forall id | id in owners ensures exists plan | plan in plans :: plan.owner == owners[id] {
      assert id in ids;
      var i :| 0 <= i < |ids| && ids[i] == id;
      assert plans[i] in plans && PlanOf(owners, plans[i]);
    }
    forall i, j | 0 <= i < j < |plans| ensures Less(plans[i].owner.operation.id, plans[j].owner.operation.id) {
      BeforeIsLess(ids[j], ids[i]);
      LessTrichotomy(ids[i], ids[j]);
    }
  }

  lemma {:induction false} NamesCounted(names: seq<Name>, all: set<Name>)
    requires Unique(names) && forall n :: n in names <==> n in all
    ensures |names| == |all|
  {
    if names == [] {
      assert all == {};
    } else {
      var init, last := names[..|names| - 1], names[|names| - 1];
      assert names == init + [last] && last in names;
      NamesCounted(init, all - {last});
    }
  }

  /** The plans list the operations of their owners. */
  lemma AmongOwners(owners: map<Name, PlanOwner>, plans: seq<OperationPlan>)
    requires (forall id | id in owners :: owners[id].operation.id == id) && (forall plan | plan in plans :: PlanOf(owners, plan))
    requires forall id | id in owners :: exists plan | plan in plans :: plan.owner == owners[id]
    ensures OperationsAmong(plans) == OperationsIn(owners)
  {
    var operations := OperationsAmong(plans);
    forall id ensures id in operations <==> id in owners {
      AmongMembers(plans, id);
      if id in operations {
        var i :| 0 <= i < |plans| && plans[i].owner.operation.id == id;
        assert plans[i] in plans && PlanOf(owners, plans[i]);
      }
      if id in owners {
        var plan :| plan in plans && plan.owner == owners[id];
        var i :| 0 <= i < |plans| && plans[i] == plan;
      }
    }
    forall id | id in operations ensures operations[id] == owners[id].operation {
      AmongMembers(plans, id);
      var i :| 0 <= i < |plans| && plans[i].owner.operation == operations[id];
      assert plans[i] in plans && PlanOf(owners, plans[i]);
    }
  }

  /** A compiled closure is never stale. */
  lemma PlannedClosureCurrent(owners: map<Name, PlanOwner>, plan: OperationPlan)
    requires PlanOf(owners, plan)
    ensures CarriesClosure(OperationsIn(owners), plan)
  {
    assert ListsClosure(OperationsIn(owners), plan.owner.operation.id, plan.permissionClosure);
  }

  lemma IdsInOrder(plans: seq<OperationPlan>)
    requires forall i, j | 0 <= i < j < |plans| :: Less(plans[i].owner.operation.id, plans[j].owner.operation.id)
    ensures UniqueIds(plans)
  {
    forall i, j | 0 <= i < j < |plans| ensures plans[i].owner.operation.id != plans[j].owner.operation.id {
      LessTrichotomy(plans[i].owner.operation.id, plans[j].owner.operation.id);
    }
  }

  lemma RequirementsSettled(owners: map<Name, PlanOwner>)
    requires forall id, r | id in owners && r in owners[id].operation.requiresOperations :: RequirementOk(owners, owners[id], r)
    requires Acyclic(CallGraph(OperationsIn(owners)))
    ensures RequirementsKnown(OperationsIn(owners))
  {
    var operations := OperationsIn(owners);
    forall id, r | id in operations && r in operations[id].requiresOperations ensures r != id && r in operations {
      assert RequirementOk(owners, owners[id], r);
      EdgeIsNoLoop(CallGraph(operations), id, r);
    }
  }

  lemma EdgeIsNoLoop(g: Graph, a: Name, b: Name)
    requires Acyclic(g) && Edge(g, a, b)
    ensures a != b
  {
    assert !IsCycle(g, [a, b]);
    EdgeReaches(g, a, b);
    assert a == b ==> Walks(g, [a, b], a, b);
  }

  /** The finished plans pass exactly when their owners are finishable. */
  lemma FinishedExactly(owners: map<Name, PlanOwner>, plans: seq<OperationPlan>, detail: Name -> Detail)
    requires forall id | id in owners :: owners[id].operation.id == id
    requires (forall plan | plan in plans :: PlanOf(owners, plan)) && UniqueIds(plans)
    requires forall id | id in owners :: exists plan | plan in plans :: plan.owner == owners[id]
    requires forall id, r | id in owners && r in owners[id].operation.requiresOperations :: RequirementOk(owners, owners[id], r)
    ensures SetOk(plans, detail) <==> Finishable(owners, detail)
  {
    var operations := OperationsIn(owners);
    AmongOwners(owners, plans);
    EachFieldsOk(plans, detail);
    FieldsOfAll(owners, plans, detail);
    forall i | 0 <= i < |plans| ensures CarriesClosure(operations, plans[i]) {
      assert plans[i] in plans;
      PlannedClosureCurrent(owners, plans[i]);
    }
    MissingOfAll(owners, plans);
    if Acyclic(CallGraph(operations)) {
      RequirementsSettled(owners);
    }
  }

  lemma FieldsOfAll(owners: map<Name, PlanOwner>, plans: seq<OperationPlan>, detail: Name -> Detail)
    requires (forall id | id in owners :: owners[id].operation.id == id) && (forall plan | plan in plans :: PlanOf(owners, plan))
    requires forall id | id in owners :: exists plan | plan in plans :: plan.owner == owners[id]
    ensures (forall plan | plan in plans :: FieldsOk(plan.owner, detail(plan.owner.operation.id))) <==>
            (forall id | id in owners :: FieldsOk(owners[id], detail(id)))
  {
    if forall plan | plan in plans :: FieldsOk(plan.owner, detail(plan.owner.operation.id)) {
      forall id | id in owners ensures FieldsOk(owners[id], detail(id)) {
        var plan :| plan in plans && plan.owner == owners[id];
        assert FieldsOk(plan.owner, detail(plan.owner.operation.id));
      }
    }
    if forall id | id in owners :: FieldsOk(owners[id], detail(id)) {
      forall plan | plan in plans ensures FieldsOk(plan.owner, detail(plan.owner.operation.id)) {
        assert PlanOf(owners, plan);
      }
    }
  }

  lemma MissingOfAll(owners: map<Name, PlanOwner>, plans: seq<OperationPlan>)
    requires (forall id | id in owners :: owners[id].operation.id == id) && (forall plan | plan in plans :: PlanOf(owners, plan))
    requires forall id | id in owners :: exists plan | plan in plans :: plan.owner == owners[id]
    ensures (forall i, p | 0 <= i < |plans| :: !Missing(OperationsIn(owners), plans[i].owner.operation.id, p)) <==>
            (forall id, p :: !Missing(OperationsIn(owners), id, p))
  {
    forall id, p | Missing(OperationsIn(owners), id, p)
      ensures exists i | 0 <= i < |plans| :: plans[i].owner.operation.id == id
    {
      var plan :| plan in plans && plan.owner == owners[id];
      var i :| 0 <= i < |plans| && plans[i] == plan;
    }
  }

  /** What it takes for a contract to compile. */
  ghost predicate Compilable(services: seq<Service>, intents: seq<BoundaryIntent>, detail: Name -> Detail) {
    IntentsOk(intents) && Plannable(services) && Finishable(ById(Listing(services)), detail)
  }

  /** Plans, one for each operation, each with its exact closure, in the order of their ids. */
  ghost predicate PlansOf(owners: map<Name, PlanOwner>, plans: seq<OperationPlan>) {
    && |plans| == |owners| && (forall plan | plan in plans :: PlanOf(owners, plan))
    && (forall id | id in owners :: exists plan | plan in plans :: plan.owner == owners[id])
    && (forall i, j | 0 <= i < j < |plans| :: Less(plans[i].owner.operation.id, plans[j].owner.operation.id))
  }

  /** The plans of a contract: there are some exactly when the contract compiles. */
  method CompileOperationPlans(services: seq<Service>, intents: seq<BoundaryIntent>, detail: Name -> Detail) returns (outcome: Outcome)
    ensures outcome.Planned? <==> Compilable(services, intents, detail)
    ensures outcome.Planned? ==> PlansOf(ById(Listing(services)), outcome.plans) && |outcome.plans| == |Listing(services)|
  {
    var intended := ValidateBoundaryIntents(intents);
    if !intended {
      return Refused(BadBoundaryIntent);
    }
    var owners, refusal := CollectPlannable(services);
    if refusal.Some? {
      return Refused(refusal.value);
    }
    forall id | id in owners ensures owners[id].operation.id == id {
      OwnersMembers(Listing(services), id);
    }
    OwnersCounted(Listing(services));
    var plans := PlanAll(owners);
    IdsInOrder(plans);
    FinishedExactly(owners, plans, detail);
    var error := ValidateSet(plans, detail);
    outcome := if error.Some? then Refused(InvalidSet(error.value)) else Planned(plans);
  }

  /** The checks on the way to the plans, and the operations by id. */
  method CollectPlannable(services: seq<Service>) returns (owners: map<Name, PlanOwner>, refusal: Option<Refusal>)
    ensures refusal.None? <==> Plannable(services)
    ensures refusal.None? ==> owners == ById(Listing(services))
  {
    owners := map[];
    var applications;
    applications, refusal := DeclareApplications(services);
    if refusal.Some? {
      return;
    }
    var ok := CheckNeeds(applications);
    if !ok {
      return owners, Some(BadApplicationDependency);
    }
    var cycles := DependencyCycles(NeedGraph(applications));
    if cycles != [] {
      return owners, Some(CyclicApplications);
    }
    var listing := ListOperations(services);
    owners, refusal := CollectOwners(listing);
    if refusal.Some? {
      return;
    }
    refusal := CheckRequirements(owners);
  }

  lemma {:induction false} OwnersCounted(listing: seq<PlanOwner>)
    requires OperationIdsOk(listing)
    ensures |ById(listing)| == |listing|
  {
    if listing != [] {
      var init, last := listing[..|listing| - 1], listing[|listing| - 1];
      assert listing == init + [last];
      OwnersCounted(init);
      OwnersMembers(init, last.operation.id);
      assert last.operation.id !in ById(init);
      assert |ById(init)[last.operation.id := last]| == |ById(init)| + 1 by {
        assert ById(init)[last.operation.id := last].Keys == ById(init).Keys + {last.operation.id};
      }
    }
  }

  // ----- what plans are of, in the texts of the services -----

  lemma {:induction false} ListingMembers(services: seq<Service>, o: PlanOwner)
    ensures o in Listing(services) <==> exists s | s in services :: o in OwnersOf(s)
  {
    if services != [] {
      ListingMembers(services[..|services| - 1], o);
      assert services == services[..|services| - 1] + [services[|services| - 1]];
    }
  }

  lemma OwnersOfMembers(s: Service, o: PlanOwner)
    ensures o in OwnersOf(s) <==>
      && s.application.Some? && s.bindings.Some? && o.operation in s.bindings.value
      && o.domain == s.domain && o.application == s.application.value.name && o.applicationRequires == RequiresOf(s)
  {
    if s.application.Some? && s.bindings.Some? && o.operation in s.bindings.value && o.domain == s.domain
       && o.application == s.application.value.name && o.applicationRequires == RequiresOf(s) {
      var i :| 0 <= i < |s.bindings.value| && s.bindings.value[i] == o.operation;
      assert OwnersOf(s)[i] == o;
    }
  }

  /** An application is declared under its domain and name, by a service that has it. */
  lemma {:induction false} DeclaredExactly(services: seq<Service>, key: Name)
    ensures key in Declared(services) <==>
              exists s | s in services && s.application.Some? :: key == s.domain + "/" + s.application.value.name
    ensures key in Declared(services) ==>
              var s := Declared(services)[key];
              s in services && s.application.Some? && key == s.domain + "/" + s.application.value.name
  {
    if services != [] {
      var init, last := services[..|services| - 1], services[|services| - 1];
      assert services == init + [last] && last in services;
      DeclaredExactly(init, key);
    }
  }

  /** A dependency passes exactly when it is well-formed, on another application, and that one is declared. */
  lemma NeedExactly(services: seq<Service>, key: Name, d: Name)
    ensures NeedOk(Declared(services), key, d) <==>
              && ValidApplicationDependency(d) && d != key
              && exists s | s in services && s.application.Some? :: d == s.domain + "/" + s.application.value.name
  {
    DeclaredExactly(services, d);
  }

  /** The graph of applications has their dependencies for edges, blanks left out. */
  lemma NeedEdges(services: seq<Service>, a: Name, b: Name)
    ensures Edge(NeedGraph(Declared(services)), a, b) <==>
              && a in Declared(services) && Declared(services)[a].application.Some?
              && b in Declared(services)[a].application.value.needs && b != ""
  {
    DeclaredExactly(services, a);
    if a in Declared(services) {
      StableHas(RequiresOf(Declared(services)[a]));
      assert Has(NeedsOf(Declared(services)[a]), b) <==> Has(RequiresOf(Declared(services)[a]), b) && b != "";
    }
  }

  /** Every service is in its place, and no two declare the same application. */
  ghost predicate Placed(services: seq<Service>) {
    && (forall s | s in services ::
          if s.application.None? then s.bindings == Some([])
          else s.domain != "" && s.application.value.name != "" && s.bindings.Some?)
    && (forall s, t | s in services && t in services && s.application.Some? && t.application.Some?
                      && s.domain + "/" + s.application.value.name == t.domain + "/" + t.application.value.name
          :: s.fullName == t.fullName)
  }

  lemma PlacedMore(init: seq<Service>, last: Service)
    requires Placed(init)
    ensures Placed(init + [last]) <==> WellPlaced(last) && !Taken(init + [last], |init|)
  {
    var services := init + [last];
    assert services[..|init|] == init && last in services && forall s | s in init :: s in services;
    if last.application.Some? {
      DeclaredExactly(init, last.domain + "/" + last.application.value.name);
    }
  }

  lemma TakenBefore(init: seq<Service>, last: Service, i: nat)
    requires i < |init|
    ensures Taken(init + [last], i) <==> Taken(init, i)
  {
    assert (init + [last])[..i] == init[..i];
  }

  /** Applications are declared without a refusal exactly when every service is in its place, apart from the others. */
  lemma {:induction false} PlacedExactly(services: seq<Service>)
    ensures (forall i | 0 <= i < |services| :: WellPlaced(services[i]) && !Taken(services, i)) <==> Placed(services)
  {
    if services != [] {
      var init, last := services[..|services| - 1], services[|services| - 1];
      assert services == init + [last] && forall s | s in init :: s in services;
      PlacedExactly(init);
      forall i | 0 <= i < |init| ensures Taken(services, i) <==> Taken(init, i) {
        TakenBefore(init, last, i);
      }
      if Placed(init) {
        PlacedMore(init, last);
      }
    }
  }

  /** The requirement is an operation of a service whose application is the same, or one that is declared. */
  predicate Meets(s: Service, o: PlanOwner, r: Name) {
    && s.application.Some? && s.bindings.Some? && (exists q | q in s.bindings.value :: q.id == r)
    && (var text := s.domain + "/" + s.application.value.name;
        text == o.domain + "/" + o.application || text in o.applicationRequires)
  }

  lemma RequirementExactly(services: seq<Service>, o: PlanOwner, r: Name)
    requires OperationIdsOk(Listing(services))
    ensures RequirementOk(ById(Listing(services)), o, r) <==> exists s | s in services :: Meets(s, o, r)
  {
    var owners := ById(Listing(services));
    OwnersMembers(Listing(services), r);
    if r in owners {
      ListingMembers(services, owners[r]);
      var s :| s in services && owners[r] in OwnersOf(s);
      OwnersOfMembers(s, owners[r]);
      assert RequirementOk(owners, o, r) ==> Meets(s, o, r);
    }
    forall s | s in services && Meets(s, o, r) ensures RequirementOk(owners, o, r) {
      var q :| q in s.bindings.value && q.id == r;
      var owner := PlanOwner(q, s.domain, s.application.value.name, RequiresOf(s));
      OwnersOfMembers(s, owner);
      ListingMembers(services, owner);
      SameIdSameOwner(Listing(services), owner);
    }
  }

  /** The owner is the operation `q` of the service. */
  predicate OwnerIs(owner: PlanOwner, s: Service, q: Operation) {
    && s.application.Some? && s.bindings.Some? && q in s.bindings.value
    && owner == PlanOwner(q, s.domain, s.application.value.name, s.application.value.needs)
  }

  /** There is a plan for every operation of every service with an application, and for nothing else. */
  lemma PlansOfServices(services: seq<Service>, plans: seq<OperationPlan>)
    requires OperationIdsOk(Listing(services)) && PlansOf(ById(Listing(services)), plans)
    ensures forall plan | plan in plans :: exists s, q | s in services :: OwnerIs(plan.owner, s, q)
    ensures forall s, q, owner | s in services && OwnerIs(owner, s, q) :: exists plan | plan in plans :: plan.owner == owner
  {
    var owners := ById(Listing(services));
    forall plan | plan in plans ensures exists s, q | s in services :: OwnerIs(plan.owner, s, q) {
      assert PlanOf(owners, plan);
      OwnersMembers(Listing(services), plan.owner.operation.id);
      ListingMembers(services, plan.owner);
      var s :| s in services && plan.owner in OwnersOf(s);
      OwnersOfMembers(s, plan.owner);
      assert OwnerIs(plan.owner, s, plan.owner.operation);
    }
    forall s, q, owner | s in services && OwnerIs(owner, s, q) ensures exists plan | plan in plans :: plan.owner == owner {
      OwnersOfMembers(s, owner);
      ListingMembers(services, owner);
      SameIdSameOwner(Listing(services), owner);
    }
  }

  // ----- the linter's index and the plans know the same operations -----

  /** An operation the linter knows has a plan. */
  lemma IndexedIsPlanned(services: seq<Service>, id: Name)
    requires OperationIdsOk(Listing(services)) && id in IndexOfServices(services).owners
    ensures id in ById(Listing(services)) && ById(Listing(services))[id].operation == IndexOfServices(services).owners[id].operation
  {
    var owner := IndexOfServices(services).owners[id];
    IndexedOperations(services, id);
    var s :| s in services && Typed(s) && s.bindings.Some? && owner.operation in s.bindings.value
             && owner.operation.id == id && owner.applicationKey == ApplicationKey(s);
    var o := PlanOwner(owner.operation, s.domain, s.application.value.name, RequiresOf(s));
    OwnersOfMembers(s, o);
    ListingMembers(services, o);
    SameIdSameOwner(Listing(services), o);
  }

  lemma SameIdSameOwner(listing: seq<PlanOwner>, o: PlanOwner)
    requires OperationIdsOk(listing) && o in listing
    ensures o.operation.id in ById(listing) && ById(listing)[o.operation.id] == o
  {
    OwnersMembers(listing, o.operation.id);
    var i :| 0 <= i < |listing| && listing[i] == o;
    var q := ById(listing)[o.operation.id];
    var j :| 0 <= j < |listing| && listing[j] == q;
  }

  /** An operation with a plan is known to the linter. */
  lemma PlannedIsIndexed(services: seq<Service>, id: Name)
    requires OperationIdsOk(Listing(services)) && (forall s | s in services :: WellPlaced(s))
    requires id in ById(Listing(services))
    ensures id in IndexOfServices(services).owners
  {
    var listing := Listing(services);
    OwnersMembers(listing, id);
    var o := ById(listing)[id];
    ListingMembers(services, o);
    var s :| s in services && o in OwnersOf(s);
    OwnersOfMembers(s, o);
    assert WellPlaced(s);
    IndexedOperations(services, id);
  }

  /** In a contract with plans, the linter's index and the plans agree on every operation. */
  lemma SameOperations(services: seq<Service>)
    requires Plannable(services)
    ensures OperationsIn(ById(Listing(services))) == OperationsOf(IndexOfServices(services))
  {
    forall s | s in services ensures WellPlaced(s) {
      var i :| 0 <= i < |services| && services[i] == s;
    }
    forall id ensures id in ById(Listing(services)) <==> id in IndexOfServices(services).owners {
      if id in ById(Listing(services)) {
        PlannedIsIndexed(services, id);
      }
      if id in IndexOfServices(services).owners {
        IndexedIsPlanned(services, id);
      }
    }
    forall id | id in IndexOfServices(services).owners
      ensures ById(Listing(services))[id].operation == IndexOfServices(services).owners[id].operation
    {
      IndexedIsPlanned(services, id);
    }
  }

  /** What passes the linter and can be planned compiles, if the fields of its operations are in order. */
  lemma LintedFinishes(services: seq<Service>, detail: Name -> Detail)
    requires Clean(services) && Plannable(services)
    ensures Finishable(ById(Listing(services)), detail) <==>
      forall id | id in ById(Listing(services)) :: FieldsOk(ById(Listing(services))[id], detail(id))
  {
    SameOperations(services);
  }
}
