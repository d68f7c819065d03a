/** The authorization of a root operation from its plan, and what its children get from it. */
module Authorization {
  import opened Options
  import opened Sorting
  import opened Strings
  import opened Text
  import opened Permissions

  datatype Mode = All | Any

  datatype Policy = Policy(
    operation: string,
    permissions: seq<Permission>,
    mode: Mode,
    tenantRequired: bool,
    authentication: seq<string>)

  datatype Principal = Principal(authenticated: bool, authMethod: string, tenantId: string)

  datatype Grant = Grant(permission: Permission, roleId: string, scope: string)

  /** What the grant resolver answers. */
  datatype Resolution = Resolved(grants: seq<Grant>) | ResolverUnavailable | RolesRequired | ResolutionFailed

  datatype Reason =
    | Allowed
    | Unauthenticated
    | TenantRequired
    | RoleRequired
    | PermissionDenied
    | AuthenticationMethodDenied
    | GrantResolverUnavailable
    | Unset

  datatype Decision = Decision(
    allowed: bool, operation: string, permissions: seq<Permission>, grants: seq<Grant>, reason: Reason)

  datatype Verdict = Decided(decision: Decision) | Failed(decision: Decision)

  // ----- policies -----

  /** Removes blanks and repetitions, then sorts. */
  method Deduplicate(values: seq<string>) returns (r: seq<string>)
    ensures r == StableStrings(values)
  {
    var seen: set<string> := {};
    r := [];
    for i := 0 to |values|
      invariant Unique(r) && forall y :: Has(r, y) <==> y in seen
      invariant forall y :: y in seen <==> Has(values[..i], y) && y != ""
    {
      var value := values[i];
      assert values[..i + 1] == values[..i] + [value];
      if value == "" {
        continue;
      }
      if value in seen {
        continue;
      }
      assert !Has(r, value);
      seen := seen + {value};
      r := r + [value];
    }
    assert values[..|values|] == values;
    StableHas(values);
    SortSorts(r);
    UniqueInMultiset(r, Sort(r));
    NamesDetermine(Sort(r), StableStrings(values));
    r := Sort(r);
  }

  method Normalize(policy: Policy) returns (r: Policy)
    ensures r == policy.(permissions := StableStrings(policy.permissions),
                         authentication := StableStrings(policy.authentication))
  {
    var permissions := Deduplicate(policy.permissions);
    var authentication := Deduplicate(policy.authentication);
    r := policy.(permissions := permissions, authentication := authentication);
  }

  predicate SaysAny(mode: string) {
    |mode| == 3 && mode[0] in "aA" && mode[1] in "nN" && mode[2] in "yY"
  }

  /** The word "any" in whatever case. */
  lemma SaysAnyExactly(mode: string)
    ensures SaysAny(mode) <==> Lower(mode) == "any"
  {
    if Lower(mode) == "any" {
      assert Lower(mode)[0] == 'a' && Lower(mode)[1] == 'n' && Lower(mode)[2] == 'y';
    }
  }

  /** The security part of an operation's plan. */
  datatype Security = Security(tenantRequired: bool, authentication: seq<string>)

  function PolicyFor(plan: Operation, security: Security): Policy {
    Policy(plan.id, StableStrings(plan.permissions), if SaysAny(plan.permissionMode) then Any else All,
           security.tenantRequired, StableStrings(security.authentication))
  }

  /** Any mode but "any", in whatever case, demands all permissions. */
  method PolicyFromOperationPlan(plan: Operation, security: Security) returns (policy: Policy)
    ensures policy == PolicyFor(plan, security)
  {
    var permissions: seq<Permission> := [];
    for i := 0 to |plan.permissions|
      invariant forall y :: Has(permissions, y) <==> Has(plan.permissions[..i], y) && y != ""
    {
      var permission := plan.permissions[i];
      assert plan.permissions[..i + 1] == plan.permissions[..i] + [permission];
      assert forall y :: Has(permissions + [permission], y) <==> Has(permissions, y) || y == permission;
      if permission != "" {
        permissions := permissions + [permission];
      }
    }
    assert plan.permissions[..|plan.permissions|] == plan.permissions;
    var mode := if SaysAny(plan.permissionMode) then Any else All;
    StableCanonical(permissions, plan.permissions);
    policy := Normalize(Policy(plan.id, permissions, mode, security.tenantRequired, security.authentication));
  }

  // ----- decisions -----

  predicate GrantBefore(x: Grant, y: Grant) {
    if x.permission != y.permission then Before(x.permission, y.permission)
    else if x.roleId != y.roleId then Before(x.roleId, y.roleId)
    else Before(x.scope, y.scope)
  }

  lemma GrantsCompare()
    ensures Comparison(GrantBefore)
    ensures forall x, y | !GrantBefore(x, y) && !GrantBefore(y, x) :: x == y
  {
    NamesCompare();
  }

  /** The resolver may return more than was asked for; only what was asked for counts. */
  function Asked(grants: seq<Grant>, permissions: seq<Permission>): (r: seq<Grant>)
    ensures forall g :: g in r <==> g in grants && g.permission in permissions
  {
    if grants == [] then []
    else
      var init, last := grants[..|grants| - 1], grants[|grants| - 1];
      assert grants == init + [last];
      Asked(init, permissions) + if last.permission in permissions then [last] else []
  }

  predicate Granted(grants: seq<Grant>, p: Permission) {
    exists g | g in grants :: g.permission == p
  }

  /** What the policy demands of the resolved grants. */
  predicate Satisfied(policy: Policy, grants: seq<Grant>) {
    if policy.mode.Any? then exists p | p in policy.permissions :: Granted(grants, p)
    else forall p | p in policy.permissions :: Granted(grants, p)
  }

  /** The first check that fails before grants are looked at. */
  function Refusal(principal: Principal, policy: Policy): Option<Reason> {
    if policy.authentication != [] && !principal.authenticated then Some(Unauthenticated)
    else if policy.authentication != [] && principal.authMethod !in policy.authentication then Some(AuthenticationMethodDenied)
    else if policy.permissions != [] && !principal.authenticated then Some(Unauthenticated)
    else if policy.tenantRequired && principal.tenantId == "" then Some(TenantRequired)
    else None
  }

  /** What is decided about a policy, given the resolver's answer, if there is a resolver. */
  ghost predicate Decides(principal: Principal, policy: Policy, answer: Option<Resolution>, v: Verdict) {
    && v.decision.operation == policy.operation && v.decision.permissions == StableStrings(policy.permissions)
    && var p := policy.(permissions := StableStrings(policy.permissions), authentication := StableStrings(policy.authentication));
    && (v.Failed? <==> Refusal(principal, p).None? && p.permissions != [] && answer == Some(ResolutionFailed))
    && (v.decision.allowed <==>
          Refusal(principal, p).None?
          && (p.permissions == [] || (answer.Some? && answer.value.Resolved? && Satisfied(p, answer.value.grants))))
    && (v.decision.reason ==
          if Refusal(principal, p).Some? then Refusal(principal, p).value
          else if p.permissions == [] then Allowed
          else if answer.None? || answer.value.ResolverUnavailable? then GrantResolverUnavailable
          else if answer.value.RolesRequired? then RoleRequired
          else if answer.value.ResolutionFailed? then Unset
          else if Satisfied(p, answer.value.grants) then Allowed
          else PermissionDenied)
    && v.decision.grants ==
         if Refusal(principal, p).None? && p.permissions != [] && answer.Some? && answer.value.Resolved?
         then SortBy(GrantBefore, Asked(answer.value.grants, p.permissions)) else []
  }

  method Authorize(principal: Principal, policy: Policy, answer: Option<Resolution>) returns (v: Verdict)
    ensures Decides(principal, policy, answer, v)
  {
    var p := Normalize(policy);
    var decision := Decision(false, p.operation, p.permissions, [], Unset);
    if p.authentication != [] {
      if !principal.authenticated {
        return Decided(decision.(reason := Unauthenticated));
      }
      if principal.authMethod !in p.authentication {
        return Decided(decision.(reason := AuthenticationMethodDenied));
      }
    }
    if p.permissions != [] && !principal.authenticated {
      return Decided(decision.(reason := Unauthenticated));
    }
    if p.tenantRequired && principal.tenantId == "" {
      return Decided(decision.(reason := TenantRequired));
    }
    if p.permissions == [] {
      return Decided(decision.(allowed := true, reason := Allowed));
    }
    if answer.None? {
      return Decided(decision.(reason := GrantResolverUnavailable));
    }
    match answer.value {
      case ResolverUnavailable => return Decided(decision.(reason := GrantResolverUnavailable));
      case RolesRequired => return Decided(decision.(reason := RoleRequired));
      case ResolutionFailed => return Failed(decision);
      case Resolved(grants) =>
        StableHas(policy.permissions);
        var allowed, normalized := Weigh(p, grants);
        v := Decided(decision.(allowed := allowed, grants := normalized, reason := if allowed then Allowed else PermissionDenied));
    }
  }

  /**
   Counts the permissions present among the grants.  That the count decides relies on the
   policy naming no permission twice.
   */
  method Weigh(p: Policy, grants: seq<Grant>) returns (allowed: bool, normalized: seq<Grant>)
    requires Unique(p.permissions)
    ensures allowed <==> Satisfied(p, grants)
    ensures normalized == SortBy(GrantBefore, Asked(grants, p.permissions))
  {
    var requested := set q | q in p.permissions;
    var present: set<Permission> := {};
    normalized := [];
    for i := 0 to |grants|
      invariant forall q :: q in present <==> q in requested && Granted(grants[..i], q)
      invariant normalized == Asked(grants[..i], p.permissions)
    {
      var grant := grants[i];
      assert grants[..i + 1] == grants[..i] + [grant] && grants[..i + 1][..i] == grants[..i];
      if grant.permission in requested {
        present := present + {grant.permission};
        normalized := normalized + [grant];
      }
    }
    assert grants[..|grants|] == grants;
    normalized := SortBy(GrantBefore, normalized);
    CountDecides(p, grants, present);
    if p.mode == Any {
      allowed := |present| > 0;
    } else {
      allowed := |present| == |p.permissions|;
    }
  }

  lemma CountDecides(p: Policy, grants: seq<Grant>, present: set<Permission>)
    requires Unique(p.permissions)
    requires forall q :: q in present <==> q in p.permissions && Granted(grants, q)
    ensures |present| > 0 <==> exists q | q in p.permissions :: Granted(grants, q)
    ensures |present| == |p.permissions| <==> forall q | q in p.permissions :: Granted(grants, q)
  {
    var requested := set q | q in p.permissions;
    SizeOfUnique(p.permissions, requested);
    assert present != {} ==> exists q :: q in present;
    assert present <= requested;
    assert |requested - present| == |requested| - |present|;
    assert (forall q | q in p.permissions :: Granted(grants, q)) ==> present == requested;
    assert |present| == |requested| ==> requested - present == {};
    assert requested - present == {} ==> forall q | q in p.permissions :: q in requested && q in present;
  }

  lemma {:induction false} SizeOfUnique(s: seq<Permission>, members: set<Permission>)
    requires Unique(s) && members == set q | q in s
    ensures |members| == |s|
  {
    if s != [] {
      var init, last := s[..|s| - 1], s[|s| - 1];
      assert s == init + [last];
      SizeOfUnique(init, members - {last});
    }
  }

  /** Grants sorted by permission, then by role, then by scope. */
  ghost predicate InGrantOrder(s: seq<Grant>) {
    forall i, j | 0 <= i < j < |s| ::
      && !Before(s[j].permission, s[i].permission)
      && (s[j].permission == s[i].permission ==> !Before(s[j].roleId, s[i].roleId))
      && (s[j].permission == s[i].permission && s[j].roleId == s[i].roleId ==> !Before(s[j].scope, s[i].scope))
  }

  lemma SortedGrants(s: seq<Grant>)
    ensures InGrantOrder(SortBy(GrantBefore, s)) && forall g :: g in SortBy(GrantBefore, s) <==> g in s
  {
    GrantsCompare();
    SortBySorts(GrantBefore, s);
    UniqueInMultiset(s, SortBy(GrantBefore, s));
    OrderedGrants(SortBy(GrantBefore, s));
  }

  lemma OrderedGrants(s: seq<Grant>)
    requires InOrder(GrantBefore, s)
    ensures InGrantOrder(s)
  {
    NamesCompare();
    assert forall i, j | 0 <= i < j < |s| :: !GrantBefore(s[j], s[i]);
    assert forall a :: !Before(a, a);
  }

  /** An allowed decision carries the resolved grants for the permissions of its policy and no others, in order. */
  lemma GrantsExactly(principal: Principal, policy: Policy, grants: seq<Grant>, v: Verdict, g: Grant)
    requires Decides(principal, policy, Some(Resolved(grants)), v) && v.decision.allowed
    ensures g in v.decision.grants <==> g in grants && g.permission in policy.permissions && g.permission != ""
    ensures InGrantOrder(v.decision.grants)
  {
    var permissions := StableStrings(policy.permissions);
    StableHas(policy.permissions);
    assert Has(permissions, g.permission) <==> Has(policy.permissions, g.permission) && g.permission != "";
    SortedGrants(Asked(grants, permissions));
  }

  /** Under mode "all" an allowed decision carries a grant for every permission of the plan. */
  lemma AllowedMeansGranted(plan: Operation, security: Security, principal: Principal, answer: Option<Resolution>, v: Verdict, p: Permission)
    requires Decides(principal, PolicyFor(plan, security), answer, v) && v.decision.allowed
    requires !SaysAny(plan.permissionMode) && p in plan.permissions && p != ""
    ensures Granted(v.decision.grants, p) && principal.authenticated
  {
    var once := StableStrings(plan.permissions);
    StableHas(plan.permissions);
    StableHas(once);
    assert Has(plan.permissions, p) && Has(once, p) && Has(StableStrings(once), p);
    var permissions := StableStrings(once);
    var asked := Asked(answer.value.grants, permissions);
    var g :| g in answer.value.grants && g.permission == p;
    assert g in asked;
    GrantsCompare();
    SortBySorts(GrantBefore, asked);
    assert g in multiset(asked) && g in multiset(v.decision.grants);
  }

  // ----- what a decision does not say -----

  lemma PolicyStays(plan: Operation, security: Security)
    ensures
      var p := PolicyFor(plan, security);
      StableStrings(p.permissions) == p.permissions && StableStrings(p.authentication) == p.authentication
  {
    StableTwice(plan.permissions);
    StableTwice(security.authentication);
  }

  /** Whoever passes the first checks is allowed when the grants satisfy the policy. */
  lemma AllowedBy(principal: Principal, plan: Operation, security: Security, grants: seq<Grant>) returns (v: Verdict)
    requires Refusal(principal, PolicyFor(plan, security)).None?
    requires StableStrings(plan.permissions) == [] || Satisfied(PolicyFor(plan, security), grants)
    ensures Decides(principal, PolicyFor(plan, security), Some(Resolved(grants)), v) && v.decision.allowed
    ensures forall g | g in v.decision.grants :: g in grants
  {
    var p := PolicyFor(plan, security);
    PolicyStays(plan, security);
    var asked := Asked(grants, p.permissions);
    var given := if p.permissions == [] then [] else SortBy(GrantBefore, asked);
    v := Decided(Decision(true, p.operation, p.permissions, given, Allowed));
    GrantsCompare();
    SortBySorts(GrantBefore, asked);
    forall g | g in given ensures g in grants {
      assert g in multiset(given) && g in multiset(asked);
    }
  }

  /** Someone the policy's first checks let pass, in a tenant or in none, with one of its methods of authentication. */
  predicate Fits(principal: Principal, security: Security, tenantId: string) {
    && principal.authenticated && principal.tenantId == tenantId
    && (StableStrings(security.authentication) != [] ==> principal.authMethod in StableStrings(security.authentication))
  }

  lemma FittingPasses(principal: Principal, plan: Operation, security: Security, tenantId: string)
    requires Fits(principal, security, tenantId) && (security.tenantRequired ==> tenantId != "")
    ensures Refusal(principal, PolicyFor(plan, security)).None?
  {
  }

  function AnyMethod(security: Security): string {
    var methods := StableStrings(security.authentication);
    if methods == [] then "" else methods[0]
  }

  /** The permission is the only one the plan names. */
  predicate OnlyPermission(plan: Operation, p: Permission) {
    forall q | q in plan.permissions && q != "" :: q == p
  }

  lemma AnyOfOneIsGranted(plan: Operation, security: Security, principal: Principal, answer: Option<Resolution>, v: Verdict, p: Permission)
    requires Decides(principal, PolicyFor(plan, security), answer, v) && v.decision.allowed
    requires p in plan.permissions && p != "" && OnlyPermission(plan, p)
    ensures Granted(v.decision.grants, p)
  {
    PolicyStays(plan, security);
    StableHas(plan.permissions);
    var permissions := StableStrings(plan.permissions);
    assert Has(permissions, p);
    forall q | q in permissions ensures q == p {
      assert Has(permissions, q);
    }
    var asked := Asked(answer.value.grants, permissions);
    var g :| g in answer.value.grants && g.permission == p;
    assert g in asked;
    GrantsCompare();
    SortBySorts(GrantBefore, asked);
    assert g in multiset(asked) && g in multiset(v.decision.grants);
  }

  /** Under mode "any" another permission is enough. */
  lemma AnotherIsEnough(plan: Operation, security: Security, p: Permission) returns (principal: Principal, answer: Option<Resolution>, v: Verdict)
    requires SaysAny(plan.permissionMode) && !OnlyPermission(plan, p)
    ensures Decides(principal, PolicyFor(plan, security), answer, v) && v.decision.allowed && !Granted(v.decision.grants, p)
  {
    var q :| q in plan.permissions && q != "" && q != p;
    var grants := [Grant(q, "", "")];
    principal := Principal(true, AnyMethod(security), "tenant");
    answer := Some(Resolved(grants));
    StableHas(plan.permissions);
    assert Has(StableStrings(plan.permissions), q) && grants[0] in grants && Granted(grants, q);
    FittingPasses(principal, plan, security, "tenant");
    v := AllowedBy(principal, plan, security, grants);
  }

  /** Being allowed always carries a permission exactly where the plan demands all, or names no other. */
  lemma GrantedExactly(plan: Operation, security: Security, p: Permission)
    requires p in plan.permissions && p != ""
    ensures !SaysAny(plan.permissionMode) || OnlyPermission(plan, p) <==>
      forall principal, answer, v | Decides(principal, PolicyFor(plan, security), answer, v) && v.decision.allowed ::
        Granted(v.decision.grants, p)
  {
    if !SaysAny(plan.permissionMode) || OnlyPermission(plan, p) {
      forall principal, answer, v | Decides(principal, PolicyFor(plan, security), answer, v) && v.decision.allowed
        ensures Granted(v.decision.grants, p)
      {
        if SaysAny(plan.permissionMode) {
          AnyOfOneIsGranted(plan, security, principal, answer, v, p);
        } else {
          AllowedMeansGranted(plan, security, principal, answer, v, p);
        }
      }
    } else {
      var principal, answer, v := AnotherIsEnough(plan, security, p);
    }
  }

  // ----- what one policy covers of another -----

  function GrantsOf(permissions: seq<Permission>): (r: seq<Grant>)
    ensures forall p | p in permissions :: Granted(r, p)
  {
    if permissions == [] then []
    else
      var last := permissions[|permissions| - 1];
      var init := GrantsOf(permissions[..|permissions| - 1]);
      assert permissions == permissions[..|permissions| - 1] + [last];
      assert Grant(last, "", "") in init + [Grant(last, "", "")];
      assert forall p | Granted(init, p) :: Granted(init + [Grant(last, "", "")], p);
      init + [Grant(last, "", "")]
  }

  lemma AllSatisfied(plan: Operation, security: Security, grants: seq<Grant>)
    requires forall p | p in StableStrings(plan.permissions) :: Granted(grants, p)
    ensures StableStrings(plan.permissions) == [] || Satisfied(PolicyFor(plan, security), grants)
  {
    var permissions := StableStrings(plan.permissions);
    if permissions != [] {
      assert permissions[0] in permissions;
    }
  }

  /** Whoever passes the first checks can be allowed, by a resolver that grants everything. */
  lemma CanBeAllowed(principal: Principal, plan: Operation, security: Security) returns (answer: Option<Resolution>, v: Verdict)
    requires Refusal(principal, PolicyFor(plan, security)).None?
    ensures Decides(principal, PolicyFor(plan, security), answer, v) && v.decision.allowed
  {
    var grants := GrantsOf(StableStrings(plan.permissions));
    AllSatisfied(plan, security, grants);
    answer := Some(Resolved(grants));
    v := AllowedBy(principal, plan, security, grants);
  }

  /** Whoever the outer plan lets pass, the inner one does not refuse before it looks at grants. */
  predicate Covers(plan: Operation, outer: Security, other: Operation, inner: Security) {
    var asked, known := StableStrings(inner.authentication), StableStrings(outer.authentication);
    && (inner.tenantRequired ==> outer.tenantRequired)
    && (asked != [] ==> known != [] && forall m | m in known :: m in asked)
    && (StableStrings(other.permissions) != [] ==> StableStrings(plan.permissions) != [] || known != [])
  }

  /** Someone the outer plan lets pass and the inner one refuses. */
  lemma Uncovered(plan: Operation, outer: Security, other: Operation, inner: Security) returns (principal: Principal)
    requires !Covers(plan, outer, other, inner)
    ensures Refusal(principal, PolicyFor(plan, outer)).None? && Refusal(principal, PolicyFor(other, inner)).Some?
  {
    var asked, known := StableStrings(inner.authentication), StableStrings(outer.authentication);
    StableHas(inner.authentication);
    assert !Has(asked, "");
    if inner.tenantRequired && !outer.tenantRequired {
      principal := Principal(true, AnyMethod(outer), "");
    } else if known == [] {
      principal := Principal(StableStrings(plan.permissions) != [], "", "tenant");
    } else {
      var m :| m in known && m !in asked;
      principal := Principal(true, m, "tenant");
    }
  }

  lemma CoveredPasses(plan: Operation, outer: Security, other: Operation, inner: Security, principal: Principal)
    requires Covers(plan, outer, other, inner) && Refusal(principal, PolicyFor(plan, outer)).None?
    ensures Refusal(principal, PolicyFor(other, inner)).None?
  {
  }

  /** What being allowed under one plan says of the tenant and the authentication that another one demands. */
  lemma CoversExactly(plan: Operation, outer: Security, other: Operation, inner: Security)
    ensures Covers(plan, outer, other, inner) <==>
      forall principal, answer, v | Decides(principal, PolicyFor(plan, outer), answer, v) && v.decision.allowed ::
        Refusal(principal, PolicyFor(other, inner)).None?
  {
    PolicyStays(plan, outer);
    if Covers(plan, outer, other, inner) {
      forall principal, answer, v | Decides(principal, PolicyFor(plan, outer), answer, v) && v.decision.allowed
        ensures Refusal(principal, PolicyFor(other, inner)).None?
      {
        CoveredPasses(plan, outer, other, inner, principal);
      }
    } else {
      var principal := Uncovered(plan, outer, other, inner);
      var answer, v := CanBeAllowed(principal, plan, outer);
    }
  }
}
