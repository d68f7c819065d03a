/** What a comparison without breaking changes is worth: it is a preorder, and old promises survive. */
module CompatibilityLaws {
  import opened Options
  import opened Compatibility
  import opened UntypedPolicies

  // ----- comparing a contract with itself -----

  /** Fields of one number, and enum values of one name, agree. */
  ghost predicate Consistent(m: Manifest) {
    && (forall name | name in MessagesByName(m) :: ConsistentFields(MessagesByName(m)[name]))
    && (forall name | name in EnumsByName(m) :: ConsistentValues(EnumsByName(m)[name]))
  }

  ghost predicate ConsistentFields(m: Message) {
    forall f, g | f in m.fields && g in m.fields && f.number == g.number :: SameField(f, g)
  }

  ghost predicate ConsistentValues(e: Enum) {
    forall v, w | v in e.values && w in e.values && v.name == w.name :: v.number == w.number
  }

  lemma MessageReflexive(m: Message)
    ensures MessageOk(m, m) <==> ConsistentFields(m)
  {
    IndexHolds(m.fields, (f: Field) => f.number);
    var index := FieldsByNumber(m);
    if MessageOk(m, m) {
      forall f, g | f in m.fields && g in m.fields && f.number == g.number ensures SameField(f, g) {
        assert FieldKept(m, f) && FieldKept(m, g);
      }
    }
    if ConsistentFields(m) {
      forall f | f in m.fields ensures FieldKept(m, f) {
        assert index[f.number] in m.fields;
      }
    }
  }

  lemma EnumReflexive(e: Enum)
    ensures EnumOk(e, e) <==> ConsistentValues(e)
  {
    IndexHolds(e.values, (v: EnumValue) => v.name);
    if EnumOk(e, e) {
      forall v, w | v in e.values && w in e.values && v.name == w.name ensures v.number == w.number {
        assert ValueKept(e, v) && ValueKept(e, w);
      }
    }
  }

  lemma ServiceReflexive(s: Service)
    ensures ServiceOk(s, s)
  {
    forall name | name in MethodsByName(s) ensures MethodOk(MethodsByName(s)[name], MethodsByName(s)[name]) {
      var m := MethodsByName(s)[name];
      assert forall b | b in m.http :: BindingKept(m.http, b);
    }
  }

  /** A contract is compatible with itself exactly when it does not contradict itself. */
  lemma Reflexive(m: Manifest)
    ensures Compatible(m, m) <==> Consistent(m)
  {
    forall name | name in MessagesByName(m)
      ensures MessageOk(MessagesByName(m)[name], MessagesByName(m)[name]) <==> ConsistentFields(MessagesByName(m)[name])
    {
      MessageReflexive(MessagesByName(m)[name]);
    }
    forall name | name in EnumsByName(m)
      ensures EnumOk(EnumsByName(m)[name], EnumsByName(m)[name]) <==> ConsistentValues(EnumsByName(m)[name])
    {
      EnumReflexive(EnumsByName(m)[name]);
    }
    forall name | name in ServicesByName(m) ensures ServiceOk(ServicesByName(m)[name], ServicesByName(m)[name]) {
      ServiceReflexive(ServicesByName(m)[name]);
    }
  }

  // ----- two steps -----

  lemma MessageTransitive(a: Message, b: Message, c: Message)
    requires MessageOk(a, b) && MessageOk(b, c) && ConsistentFields(c)
    ensures MessageOk(a, c)
  {
    IndexHolds(a.fields, (f: Field) => f.number);
    IndexHolds(b.fields, (f: Field) => f.number);
    IndexHolds(c.fields, (f: Field) => f.number);
    forall f | f in a.fields ensures FieldKept(c, f) {
      assert FieldKept(b, f);
      assert FieldKept(c, FieldsByNumber(b)[f.number]);
    }
    forall f | f in c.fields ensures FieldWelcome(a, f) {
      assert FieldWelcome(b, f);
      if f.number in FieldsByNumber(b) && f.number !in FieldsByNumber(a) {
        var g := FieldsByNumber(b)[f.number];
        assert FieldWelcome(a, g) && FieldKept(c, g);
        assert SameField(f, FieldsByNumber(c)[f.number]);
      }
    }
  }

  lemma EnumTransitive(a: Enum, b: Enum, c: Enum)
    requires EnumOk(a, b) && EnumOk(b, c)
    ensures EnumOk(a, c)
  {
    IndexHolds(b.values, (v: EnumValue) => v.name);
    forall v | v in a.values ensures ValueKept(c, v) {
      assert ValueKept(b, v);
      assert ValueKept(c, ValuesByName(b)[v.name]);
    }
  }

  ghost predicate SafeService(a: Service, b: Service) {
    forall name | name in MethodsByName(a) && name in MethodsByName(b) :: StepsSafely(MethodsByName(a)[name], MethodsByName(b)[name])
  }

  /** No method of both versions takes an unsafe step. */
  ghost predicate SafeStep(a: Manifest, b: Manifest) {
    forall name | name in ServicesByName(a) && name in ServicesByName(b) :: SafeService(ServicesByName(a)[name], ServicesByName(b)[name])
  }

  lemma ServiceTransitive(a: Service, b: Service, c: Service)
    requires ServiceOk(a, b) && ServiceOk(b, c) && SafeService(a, b)
    ensures ServiceOk(a, c)
  {
    forall name | name in MethodsByName(a)
      ensures name in MethodsByName(c) && MethodOk(MethodsByName(a)[name], MethodsByName(c)[name])
    {
      SafeStepComposes(MethodsByName(a)[name], MethodsByName(b)[name], MethodsByName(c)[name]);
    }
  }

  /** Two compatible steps are one compatible step, if the first is safe. */
  lemma Transitive(a: Manifest, b: Manifest, c: Manifest)
    requires Compatible(a, b) && Compatible(b, c) && SafeStep(a, b) && Consistent(c)
    ensures Compatible(a, c)
  {
    forall name | name in MessagesByName(a)
      ensures name in MessagesByName(c) && MessageOk(MessagesByName(a)[name], MessagesByName(c)[name])
    {
      MessageTransitive(MessagesByName(a)[name], MessagesByName(b)[name], MessagesByName(c)[name]);
    }
    forall name | name in EnumsByName(a) ensures name in EnumsByName(c) && EnumOk(EnumsByName(a)[name], EnumsByName(c)[name]) {
      EnumTransitive(EnumsByName(a)[name], EnumsByName(b)[name], EnumsByName(c)[name]);
    }
    forall name | name in ServicesByName(a)
      ensures name in ServicesByName(c) && ServiceOk(ServicesByName(a)[name], ServicesByName(c)[name])
    {
      ServiceTransitive(ServicesByName(a)[name], ServicesByName(b)[name], ServicesByName(c)[name]);
    }
  }

  // ----- ... and no further -----

  function PutPolicy(m: Method, rpc: string, policy: LegacyPolicy): Method {
    if m.name == rpc then m.(authorization := Some(policy)) else m
  }

  function PutInService(s: Service, name: string, rpc: string, policy: LegacyPolicy): Service {
    if s.fullName != name then s
    else s.(methods := seq(|s.methods|, i requires 0 <= i < |s.methods| => PutPolicy(s.methods[i], rpc, policy)))
  }

  /** The contract with another untyped policy on one method. */
  function PutInManifest(m: Manifest, name: string, rpc: string, policy: LegacyPolicy): Manifest {
    m.(services := seq(|m.services|, i requires 0 <= i < |m.services| => PutInService(m.services[i], name, rpc, policy)))
  }

  /** Items replaced in place, each under its own key, are indexed in place of the old ones. */
  lemma {:induction false} IndexReplaced<K, V>(items: seq<V>, others: seq<V>, key: V -> K)
    requires |others| == |items| && forall i | 0 <= i < |items| :: key(others[i]) == key(items[i])
    ensures IndexBy(others, key).Keys == IndexBy(items, key).Keys
    ensures forall k | k in IndexBy(items, key) ::
      exists i | 0 <= i < |items| :: IndexBy(items, key)[k] == items[i] && IndexBy(others, key)[k] == others[i]
  {
    if items != [] {
      var last := |items| - 1;
      IndexReplaced(items[..last], others[..last], key);
      forall k | k in IndexBy(items, key)
        ensures exists i | 0 <= i < |items| :: IndexBy(items, key)[k] == items[i] && IndexBy(others, key)[k] == others[i]
      {
        if k == key(items[last]) {
          assert IndexBy(items, key)[k] == items[last] && IndexBy(others, key)[k] == others[last];
        } else {
          var i :| 0 <= i < last && IndexBy(items[..last], key)[k] == items[..last][i] && IndexBy(others[..last], key)[k] == others[..last][i];
          assert IndexBy(items, key)[k] == items[i] && IndexBy(others, key)[k] == others[i];
        }
      }
    }
  }

  lemma MethodsReplaced(s: Service, name: string, rpc: string, policy: LegacyPolicy, x: string)
    requires s.fullName == name && x in MethodsByName(s)
    ensures x in MethodsByName(PutInService(s, name, rpc, policy))
    ensures MethodsByName(PutInService(s, name, rpc, policy))[x] == PutPolicy(MethodsByName(s)[x], rpc, policy)
  {
    IndexReplaced(s.methods, PutInService(s, name, rpc, policy).methods, (m: Method) => m.name);
  }

  lemma ServicesReplaced(m: Manifest, name: string, rpc: string, policy: LegacyPolicy, x: string)
    requires x in ServicesByName(m)
    ensures x in ServicesByName(PutInManifest(m, name, rpc, policy))
    ensures ServicesByName(PutInManifest(m, name, rpc, policy))[x] == PutInService(ServicesByName(m)[x], name, rpc, policy)
  {
    IndexReplaced(m.services, PutInManifest(m, name, rpc, policy).services, (s: Service) => s.fullName);
  }

  lemma ServiceTakes(s: Service, name: string, rpc: string, policy: LegacyPolicy)
    requires s.fullName == name && rpc in MethodsByName(s)
    requires MethodOk(MethodsByName(s)[rpc], MethodsByName(s)[rpc].(authorization := Some(policy)))
    ensures ServiceOk(s, PutInService(s, name, rpc, policy))
  {
    ServiceReflexive(s);
    IndexHolds(s.methods, (m: Method) => m.name);
    forall x | x in MethodsByName(s)
      ensures
        var n := PutInService(s, name, rpc, policy);
        x in MethodsByName(n) && MethodOk(MethodsByName(s)[x], MethodsByName(n)[x])
    {
      MethodsReplaced(s, name, rpc, policy, x);
    }
  }

  /** A policy one method of a contract can take, the contract can take. */
  lemma ManifestTakes(m: Manifest, name: string, rpc: string, policy: LegacyPolicy)
    requires Consistent(m) && name in ServicesByName(m) && rpc in MethodsByName(ServicesByName(m)[name])
    requires
      var x := MethodsByName(ServicesByName(m)[name])[rpc];
      MethodOk(x, x.(authorization := Some(policy)))
    ensures Compatible(m, PutInManifest(m, name, rpc, policy))
  {
    Reflexive(m);
    var n := PutInManifest(m, name, rpc, policy);
    IndexHolds(m.services, (s: Service) => s.fullName);
    forall x | x in ServicesByName(m) ensures x in ServicesByName(n) && ServiceOk(ServicesByName(m)[x], ServicesByName(n)[x]) {
      ServicesReplaced(m, name, rpc, policy, x);
      if x == name {
        ServiceTakes(ServicesByName(m)[x], name, rpc, policy);
      }
    }
  }

  lemma UnsafePlace(a: Manifest, b: Manifest) returns (name: string, rpc: string)
    requires !SafeStep(a, b)
    ensures name in ServicesByName(a) && rpc in MethodsByName(ServicesByName(a)[name])
    ensures name in ServicesByName(b) && rpc in MethodsByName(ServicesByName(b)[name])
    ensures !StepsSafely(MethodsByName(ServicesByName(a)[name])[rpc], MethodsByName(ServicesByName(b)[name])[rpc])
  {
    name :| name in ServicesByName(a) && name in ServicesByName(b) && !SafeService(ServicesByName(a)[name], ServicesByName(b)[name]);
    var s, t := ServicesByName(a)[name], ServicesByName(b)[name];
    rpc :| rpc in MethodsByName(s) && rpc in MethodsByName(t) && !StepsSafely(MethodsByName(s)[rpc], MethodsByName(t)[rpc]);
  }

  lemma MethodReplaced(m: Manifest, name: string, rpc: string, policy: LegacyPolicy)
    requires name in ServicesByName(m) && rpc in MethodsByName(ServicesByName(m)[name])
    ensures
      var n := PutInManifest(m, name, rpc, policy);
      && name in ServicesByName(n) && rpc in MethodsByName(ServicesByName(n)[name])
      && MethodsByName(ServicesByName(n)[name])[rpc] == MethodsByName(ServicesByName(m)[name])[rpc].(authorization := Some(policy))
  {
    IndexHolds(m.services, (x: Service) => x.fullName);
    IndexHolds(ServicesByName(m)[name].methods, (x: Method) => x.name);
    ServicesReplaced(m, name, rpc, policy, name);
    MethodsReplaced(ServicesByName(m)[name], name, rpc, policy, rpc);
  }

  lemma BrokenMethod(a: Manifest, c: Manifest, name: string, rpc: string)
    requires name in ServicesByName(a) && rpc in MethodsByName(ServicesByName(a)[name])
    requires name in ServicesByName(c) && rpc in MethodsByName(ServicesByName(c)[name])
    requires !MethodOk(MethodsByName(ServicesByName(a)[name])[rpc], MethodsByName(ServicesByName(c)[name])[rpc])
    ensures !Compatible(a, c)
  {
  }

  lemma UnsafeStepStops(a: Manifest, b: Manifest) returns (c: Manifest)
    requires Compatible(a, b) && Consistent(b) && !SafeStep(a, b)
    ensures Consistent(c) && Compatible(b, c) && !Compatible(a, c)
  {
    var name, rpc := UnsafePlace(a, b);
    var policy := UnsafeStepBreaks(MethodsByName(ServicesByName(a)[name])[rpc], MethodsByName(ServicesByName(b)[name])[rpc]);
    c := PutInManifest(b, name, rpc, policy);
    ManifestTakes(b, name, rpc, policy);
    MethodReplaced(b, name, rpc, policy);
    BrokenMethod(a, c, name, rpc);
  }

  /** A compatible step can be followed by every compatible step exactly when it is safe. */
  lemma TransitiveExactly(a: Manifest, b: Manifest)
    requires Compatible(a, b) && Consistent(b)
    ensures SafeStep(a, b) <==> forall c | Consistent(c) && Compatible(b, c) :: Compatible(a, c)
  {
    if SafeStep(a, b) {
      forall c | Consistent(c) && Compatible(b, c) ensures Compatible(a, c) {
        Transitive(a, b, c);
      }
    } else {
      var c := UnsafeStepStops(a, b);
    }
  }

  /** A contract of one method. */
  function OnlyMethod(m: Method): Manifest {
    Manifest([], [], [], [Service("Orders", "", None, [m])])
  }

  lemma IndexOne<K, V>(x: V, key: V -> K)
    ensures IndexBy([x], key) == map[key(x) := x]
  {
    assert [x][..0] == [];
  }

  lemma OnlyMethodIndexed(m: Method)
    ensures ServicesByName(OnlyMethod(m)) == map["Orders" := Service("Orders", "", None, [m])]
    ensures MethodsByName(Service("Orders", "", None, [m])) == map[m.name := m]
    ensures Consistent(OnlyMethod(m))
  {
    IndexOne(Service("Orders", "", None, [m]), (s: Service) => s.fullName);
    IndexOne(m, (x: Method) => x.name);
  }

  lemma OnlyMethodCompatible(m: Method, n: Method)
    requires m.name == n.name
    ensures Compatible(OnlyMethod(m), OnlyMethod(n)) <==> MethodOk(m, n)
  {
    OnlyMethodIndexed(m);
    OnlyMethodIndexed(n);
    var s, t := Service("Orders", "", None, [m]), Service("Orders", "", None, [n]);
    assert ServiceOk(s, t) <==> MethodOk(m, n) by {
      assert m.name in MethodsByName(s);
    }
    assert "Orders" in ServicesByName(OnlyMethod(m));
  }

  lemma DroppedAndBack(m: Method, p: LegacyPolicy)
    requires m.operation.None? && m.authorization.None? && m.http == []
    ensures
      var first, last := m.(authorization := Some(p)), m.(authorization := Some(p.(operationId := p.operationId + "x")));
      MethodOk(first, m) && MethodOk(m, last) && !MethodOk(first, last)
  {
    KeyGrows(p);
  }

  /** Two compatible steps that are not one: the untyped policy of a method is dropped, and comes back for another operation. */
  lemma NotTransitive() returns (a: Manifest, b: Manifest, c: Manifest)
    ensures Consistent(a) && Consistent(b) && Consistent(c)
    ensures Compatible(a, b) && Compatible(b, c) && !Compatible(a, c)
  {
    var p := LegacyPolicy("orders.read", "all", false, ["orders.read"], []);
    var bare := Method("Read", "Request", "Response", false, false, "", None, None, []);
    var first, last := bare.(authorization := Some(p)), bare.(authorization := Some(p.(operationId := p.operationId + "x")));
    DroppedAndBack(bare, p);
    a, b, c := OnlyMethod(first), OnlyMethod(bare), OnlyMethod(last);
    OnlyMethodIndexed(first);
    OnlyMethodIndexed(bare);
    OnlyMethodIndexed(last);
    OnlyMethodCompatible(first, bare);
    OnlyMethodCompatible(bare, last);
    OnlyMethodCompatible(first, last);
  }

  ghost predicate PlainPolicies(s: Service) {
    forall rpc | rpc in MethodsByName(s) && MethodsByName(s)[rpc].authorization.Some? :: PlainPolicy(MethodsByName(s)[rpc].authorization.value)
  }

  ghost predicate KeepsPolicies(a: Service, b: Service) {
    forall rpc | rpc in MethodsByName(a) && rpc in MethodsByName(b) :: KeepsPolicy(MethodsByName(a)[rpc], MethodsByName(b)[rpc])
  }

  lemma PlainService(a: Service, b: Service)
    requires ServiceOk(a, b) && PlainPolicies(a) && PlainPolicies(b)
    ensures SafeService(a, b) <==> KeepsPolicies(a, b)
  {
    forall rpc | rpc in MethodsByName(a) && rpc in MethodsByName(b)
      ensures StepsSafely(MethodsByName(a)[rpc], MethodsByName(b)[rpc]) <==> KeepsPolicy(MethodsByName(a)[rpc], MethodsByName(b)[rpc])
    {
      PlainStep(MethodsByName(a)[rpc], MethodsByName(b)[rpc]);
    }
  }

  /** Between contracts whose policies hold no bars, the steps that can be followed are those that drop no policy. */
  lemma PlainTransitiveExactly(a: Manifest, b: Manifest)
    requires Compatible(a, b) && Consistent(b)
    requires forall name | name in ServicesByName(a) :: PlainPolicies(ServicesByName(a)[name])
    requires forall name | name in ServicesByName(b) :: PlainPolicies(ServicesByName(b)[name])
    ensures (forall name | name in ServicesByName(a) && name in ServicesByName(b) :: KeepsPolicies(ServicesByName(a)[name], ServicesByName(b)[name]))
      <==> (forall c | Consistent(c) && Compatible(b, c) :: Compatible(a, c))
  {
    forall name | name in ServicesByName(a) && name in ServicesByName(b)
      ensures SafeService(ServicesByName(a)[name], ServicesByName(b)[name]) <==> KeepsPolicies(ServicesByName(a)[name], ServicesByName(b)[name])
    {
      PlainService(ServicesByName(a)[name], ServicesByName(b)[name]);
    }
    TransitiveExactly(a, b);
  }

  /** No number and no value name is used twice, and every policy is typed. */
  ghost predicate Orderly(m: Manifest) {
    && (forall x, i, j | x in m.messages && 0 <= i < j < |x.fields| :: x.fields[i].number != x.fields[j].number)
    && (forall e, i, j | e in m.enums && 0 <= i < j < |e.values| :: e.values[i].name != e.values[j].name)
    && (forall s, x | s in m.services && x in s.methods :: x.authorization.Some? ==> x.operation.Some?)
  }

  lemma OrderlyConsistent(m: Manifest)
    requires Orderly(m)
    ensures Consistent(m)
  {
    IndexHolds(m.messages, (x: Message) => x.fullName);
    IndexHolds(m.enums, (e: Enum) => e.fullName);
    forall name | name in MessagesByName(m) ensures ConsistentFields(MessagesByName(m)[name]) {
      var x := MessagesByName(m)[name];
      forall f, g | f in x.fields && g in x.fields && f.number == g.number ensures SameField(f, g) {
        var i :| 0 <= i < |x.fields| && x.fields[i] == f;
        var j :| 0 <= j < |x.fields| && x.fields[j] == g;
      }
    }
    forall name | name in EnumsByName(m) ensures ConsistentValues(EnumsByName(m)[name]) {
      var e := EnumsByName(m)[name];
      forall v, w | v in e.values && w in e.values && v.name == w.name ensures v.number == w.number {
        var i :| 0 <= i < |e.values| && e.values[i] == v;
        var j :| 0 <= j < |e.values| && e.values[j] == w;
      }
    }
  }

  lemma OrderlyTyped(m: Manifest, name: string, rpc: string)
    requires Orderly(m) && name in ServicesByName(m) && rpc in MethodsByName(ServicesByName(m)[name])
    ensures var x := MethodsByName(ServicesByName(m)[name])[rpc]; x.operation.None? ==> x.authorization.None?
  {
    IndexHolds(m.services, (s: Service) => s.fullName);
    IndexHolds(ServicesByName(m)[name].methods, (x: Method) => x.name);
  }

  /** Between orderly contracts, having no breaking change is a preorder. */
  lemma OrderlyPreorder(a: Manifest, b: Manifest, c: Manifest)
    requires Orderly(a) && Orderly(b) && Orderly(c)
    ensures Compatible(a, a)
    ensures Compatible(a, b) && Compatible(b, c) ==> Compatible(a, c)
  {
    OrderlyConsistent(a);
    OrderlyConsistent(c);
    Reflexive(a);
    forall m, name, rpc | m in [a, b, c] && name in ServicesByName(m) && rpc in MethodsByName(ServicesByName(m)[name])
      ensures var x := MethodsByName(ServicesByName(m)[name])[rpc]; x.operation.None? ==> x.authorization.None?
    {
      OrderlyTyped(m, name, rpc);
    }
    assert a in [a, b, c] && b in [a, b, c] && c in [a, b, c];
    if Compatible(a, b) && Compatible(b, c) {
      Transitive(a, b, c);
    }
  }
}
