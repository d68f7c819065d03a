/** What being compatible means for each part of a contract, said of the parts themselves. */
module Survival {
  import opened Options
  import opened Strings
  import opened Text
  import opened Compatibility

  predicate Distinct<K(==), V>(items: seq<V>, key: V -> K) {
    forall i, j | 0 <= i < j < |items| :: key(items[i]) != key(items[j])
  }

  /** Every item of the old index has its successor under the same key. */
  ghost predicate AllKept<K, V>(o: map<K, V>, n: map<K, V>, ok: (V, V) -> bool) {
    forall k | k in o :: k in n && ok(o[k], n[k])
  }

  ghost predicate AllSurvive<V(!new)>(os: seq<V>, ns: seq<V>, survives: (V, V) -> bool) {
    forall x | x in os :: exists y | y in ns :: survives(x, y)
  }

  /** Two indexes agree exactly when every item has a successor of the same key. */
  lemma IndexedExactly<K, V(!new)>(os: seq<V>, ns: seq<V>, key: V -> K, ok: (V, V) -> bool, survives: (V, V) -> bool)
    requires Distinct(os, key) && Distinct(ns, key)
    requires forall x, y | x in os && y in ns :: survives(x, y) <==> key(y) == key(x) && ok(x, y)
    ensures AllKept(IndexBy(os, key), IndexBy(ns, key), ok) <==> AllSurvive(os, ns, survives)
  {
    var o, n := IndexBy(os, key), IndexBy(ns, key);
    IndexHolds(os, key);
    IndexHolds(ns, key);
    if AllKept(o, n, ok) {
      forall x | x in os ensures exists y | y in ns :: survives(x, y) {
        IndexFinds(os, key, x);
        assert survives(x, n[key(x)]);
      }
    }
    if AllSurvive(os, ns, survives) {
      forall k | k in o ensures k in n && ok(o[k], n[k]) {
        var y :| y in ns && survives(o[k], y);
        IndexFinds(ns, key, y);
      }
    }
  }

  // ----- files -----

  lemma FilesExactly(o: Manifest, n: Manifest)
    requires Distinct(o.files, (f: File) => f.name) && Distinct(n.files, (f: File) => f.name)
    ensures FilesOk(o, n) <==>
              forall f | f in o.files && f.domain.Some? ::
                exists g | g in n.files :: g.name == f.name && g.domain.Some? && g.domain.value.name == f.domain.value.name
  {
    var name := (f: File) => f.name;
    IndexHolds(o.files, name);
    IndexHolds(n.files, name);
    if FilesOk(o, n) {
      forall f | f in o.files && f.domain.Some?
        ensures exists g | g in n.files :: g.name == f.name && g.domain.Some? && g.domain.value.name == f.domain.value.name
      {
        IndexFinds(o.files, name, f);
        assert DomainOk(FilesByName(o)[f.name], Lookup(FilesByName(n), f.name));
        assert FilesByName(n)[f.name] in n.files;
      }
    }
    if forall f | f in o.files && f.domain.Some? ::
         exists g | g in n.files :: g.name == f.name && g.domain.Some? && g.domain.value.name == f.domain.value.name
    {
      forall k | k in FilesByName(o) ensures DomainOk(FilesByName(o)[k], Lookup(FilesByName(n), k)) {
        var f := FilesByName(o)[k];
        if f.domain.Some? {
          var g :| g in n.files && g.name == f.name && g.domain.Some? && g.domain.value.name == f.domain.value.name;
          IndexFinds(n.files, name, g);
        }
      }
    }
  }

  // ----- messages -----

  /** The classification stays if there was one, every field stays as it is, and no new one is required. */
  predicate MessageSurvives(m: Message, x: Message) {
    && x.fullName == m.fullName && (m.dto.Some? ==> x.dto == m.dto)
    && (forall f | f in m.fields :: f in x.fields)
    && (forall f | f in x.fields && f.required :: exists g | g in m.fields :: g.number == f.number)
  }

  lemma MessageExactly(m: Message, x: Message)
    requires Distinct(m.fields, (f: Field) => f.number) && Distinct(x.fields, (f: Field) => f.number)
    ensures MessageOk(m, x) && x.fullName == m.fullName <==> MessageSurvives(m, x)
  {
    var number := (f: Field) => f.number;
    IndexHolds(m.fields, number);
    IndexHolds(x.fields, number);
    forall f | f in m.fields ensures FieldKept(x, f) <==> f in x.fields {
      if f in x.fields {
        IndexFinds(x.fields, number, f);
      }
    }
    forall f | f in x.fields ensures FieldWelcome(m, f) <==> (f.required ==> exists g | g in m.fields :: g.number == f.number) {
    }
  }

  // ----- enums -----

  predicate EnumSurvives(e: Enum, x: Enum) {
    x.fullName == e.fullName && forall v | v in e.values :: v in x.values
  }

  lemma EnumExactly(e: Enum, x: Enum)
    requires Distinct(x.values, (v: EnumValue) => v.name)
    ensures EnumOk(e, x) && x.fullName == e.fullName <==> EnumSurvives(e, x)
  {
    var name := (v: EnumValue) => v.name;
    IndexHolds(x.values, name);
    forall v | v in e.values ensures ValueKept(x, v) <==> v in x.values {
      if v in x.values {
        IndexFinds(x.values, name, v);
      }
    }
  }

  // ----- operations -----

  /** Everything is as it was, but for permissions and authentication, whose normal names join to the same text. */
  predicate OperationSurvives(o: Operation, x: Operation) {
    && x == o.(permissions := x.permissions, authentication := x.authentication)
    && Join(',', StableStrings(TrimAll(x.permissions))) == Join(',', StableStrings(TrimAll(o.permissions)))
    && Join(',', StableStrings(TrimAll(x.authentication))) == Join(',', StableStrings(TrimAll(o.authentication)))
  }

  lemma PolicyExactly(o: Operation, x: Operation)
    ensures SamePolicy(o, x) <==> OperationSurvives(o, x)
  {
  }

  /** The application keeps its name and each of its internal operations. */
  predicate ApplicationSurvives(a: Application, x: Application) {
    x.name == a.name && forall o | o in a.operations :: exists q | q in x.operations :: OperationSurvives(o, q)
  }

  lemma ApplicationExactly(a: Application, x: Application)
    requires Distinct(a.operations, (o: Operation) => o.id) && Distinct(x.operations, (o: Operation) => o.id)
    ensures ApplicationOk(Some(a), Some(x)) <==> ApplicationSurvives(a, x)
  {
    forall o, q ensures SamePolicy(o, q) <==> OperationSurvives(o, q) {
      PolicyExactly(o, q);
    }
    IndexedExactly(a.operations, x.operations, (o: Operation) => o.id, SamePolicy, OperationSurvives);
    assert AllKept(OperationsById(a), OperationsById(x), SamePolicy) <==> AllSurvive(a.operations, x.operations, OperationSurvives);
  }

  // ----- methods -----

  /** There is a binding of the same verb, path, body and response body, joined. */
  predicate BindingSurvives(b: HTTPBinding, n: seq<HTTPBinding>) {
    exists c | c in n ::
      Join('|', [Upper(c.verb), c.path, c.body, c.responseBody]) == Join('|', [Upper(b.verb), b.path, b.body, b.responseBody])
  }

  /**
   The types and the streaming stay, and so does a typed operation; an untyped policy may come and
   go, but not change its operation; and every binding has a successor.
   */
  predicate MethodSurvives(m: Method, x: Method) {
    && x.name == m.name && x.request == m.request && x.response == m.response
    && x.clientStreaming == m.clientStreaming && x.serverStreaming == m.serverStreaming
    && (m.operation.Some? ==> x.operation.Some? && OperationSurvives(m.operation.value, x.operation.value))
    && (m.operation.None? && x.operation.None? && m.authorization.Some? && x.authorization.Some?
        && m.authorization.value.operationId != x.authorization.value.operationId
        ==> LegacyKey(m.authorization) == LegacyKey(x.authorization))
    && (forall b | b in m.http :: BindingSurvives(b, x.http))
  }

  lemma MethodExactly(m: Method, x: Method)
    ensures MethodOk(m, x) && x.name == m.name <==> MethodSurvives(m, x)
  {
    if m.operation.Some? && x.operation.Some? {
      PolicyExactly(m.operation.value, x.operation.value);
    }
    forall b | b in m.http ensures BindingKept(x.http, b) <==> BindingSurvives(b, x.http) {
    }
  }

  // ----- services -----

  predicate ServiceSurvives(s: Service, x: Service) {
    && x.fullName == s.fullName && (s.domain != "" ==> x.domain == s.domain)
    && (s.application.Some? ==> x.application.Some? && ApplicationSurvives(s.application.value, x.application.value))
    && (forall m | m in s.methods :: exists y | y in x.methods :: MethodSurvives(m, y))
  }

  predicate ServiceApart(s: Service) {
    && Distinct(s.methods, (m: Method) => m.name)
    && (s.application.Some? ==> Distinct(s.application.value.operations, (o: Operation) => o.id))
  }

  lemma MethodsExactly(s: Service, x: Service)
    requires ServiceApart(s) && ServiceApart(x)
    ensures AllKept(MethodsByName(s), MethodsByName(x), MethodOk) <==> AllSurvive(s.methods, x.methods, MethodSurvives)
  {
    forall m, y ensures MethodOk(m, y) && y.name == m.name <==> MethodSurvives(m, y) {
      MethodExactly(m, y);
    }
    IndexedExactly(s.methods, x.methods, (m: Method) => m.name, MethodOk, MethodSurvives);
  }

  lemma ServiceExactly(s: Service, x: Service)
    requires ServiceApart(s) && ServiceApart(x)
    ensures ServiceOk(s, x) && x.fullName == s.fullName <==> ServiceSurvives(s, x)
  {
    MethodsExactly(s, x);
    if s.application.Some? && x.application.Some? {
      ApplicationExactly(s.application.value, x.application.value);
    }
  }

  // ----- contracts -----

  /** No two things of one kind have the same name in one place. */
  predicate Apart(m: Manifest) {
    && Distinct(m.files, (f: File) => f.name)
    && Distinct(m.messages, (x: Message) => x.fullName) && (forall x | x in m.messages :: Distinct(x.fields, (f: Field) => f.number))
    && Distinct(m.enums, (e: Enum) => e.fullName) && (forall e | e in m.enums :: Distinct(e.values, (v: EnumValue) => v.name))
    && Distinct(m.services, (s: Service) => s.fullName) && (forall s | s in m.services :: ServiceApart(s))
  }

  lemma MessagesExactly(o: Manifest, n: Manifest)
    requires Apart(o) && Apart(n)
    ensures MessagesOk(o, n) <==> forall m | m in o.messages :: exists x | x in n.messages :: MessageSurvives(m, x)
  {
    forall m, x | m in o.messages && x in n.messages ensures MessageOk(m, x) && x.fullName == m.fullName <==> MessageSurvives(m, x) {
      MessageExactly(m, x);
    }
    IndexedExactly(o.messages, n.messages, (x: Message) => x.fullName, MessageOk, MessageSurvives);
    assert AllKept(MessagesByName(o), MessagesByName(n), MessageOk) <==> AllSurvive(o.messages, n.messages, MessageSurvives);
  }

  lemma EnumsExactly(o: Manifest, n: Manifest)
    requires Apart(o) && Apart(n)
    ensures EnumsOk(o, n) <==> forall e | e in o.enums :: exists x | x in n.enums :: EnumSurvives(e, x)
  {
    forall e, x | e in o.enums && x in n.enums ensures EnumOk(e, x) && x.fullName == e.fullName <==> EnumSurvives(e, x) {
      EnumExactly(e, x);
    }
    IndexedExactly(o.enums, n.enums, (e: Enum) => e.fullName, EnumOk, EnumSurvives);
    assert AllKept(EnumsByName(o), EnumsByName(n), EnumOk) <==> AllSurvive(o.enums, n.enums, EnumSurvives);
  }

  lemma ServicesExactly(o: Manifest, n: Manifest)
    requires Apart(o) && Apart(n)
    ensures ServicesOk(o, n) <==> forall s | s in o.services :: exists x | x in n.services :: ServiceSurvives(s, x)
  {
    forall s, x | s in o.services && x in n.services ensures ServiceOk(s, x) && x.fullName == s.fullName <==> ServiceSurvives(s, x) {
      ServiceExactly(s, x);
    }
    IndexedExactly(o.services, n.services, (s: Service) => s.fullName, ServiceOk, ServiceSurvives);
    assert AllKept(ServicesByName(o), ServicesByName(n), ServiceOk) <==> AllSurvive(o.services, n.services, ServiceSurvives);
  }

  /**
   Between contracts that name nothing twice, there is no breaking change exactly when every
   domain, message, enum and service of the old one survives in the new one.
   */
  lemma CompatibleExactly(o: Manifest, n: Manifest)
    requires Apart(o) && Apart(n)
    ensures Compatible(o, n) <==>
              && (forall f | f in o.files && f.domain.Some? ::
                    exists g | g in n.files :: g.name == f.name && g.domain.Some? && g.domain.value.name == f.domain.value.name)
              && (forall m | m in o.messages :: exists x | x in n.messages :: MessageSurvives(m, x))
              && (forall e | e in o.enums :: exists x | x in n.enums :: EnumSurvives(e, x))
              && (forall s | s in o.services :: exists x | x in n.services :: ServiceSurvives(s, x))
  {
    FilesExactly(o, n);
    MessagesExactly(o, n);
    EnumsExactly(o, n);
    ServicesExactly(o, n);
  }

  // ----- what survives whatever else the new contract repeats -----

  /** Every old field is in the new message, unchanged in every respect. */
  lemma FieldSurvives(o: Manifest, n: Manifest, m: Message, f: Field)
    requires Compatible(o, n) && m in o.messages && f in m.fields && Distinct(o.messages, (x: Message) => x.fullName)
    ensures exists m' | m' in n.messages :: m'.fullName == m.fullName && f in m'.fields && (m.dto.Some? ==> m'.dto == m.dto)
  {
    IndexFinds(o.messages, (x: Message) => x.fullName, m);
    IndexHolds(n.messages, (x: Message) => x.fullName);
    var m' := MessagesByName(n)[m.fullName];
    IndexHolds(m'.fields, (x: Field) => x.number);
    assert FieldKept(m', f);
    var f' := FieldsByNumber(m')[f.number];
    assert f' == f && m' in n.messages;
  }

  lemma EnumValueSurvives(o: Manifest, n: Manifest, e: Enum, v: EnumValue)
    requires Compatible(o, n) && e in o.enums && v in e.values && Distinct(o.enums, (x: Enum) => x.fullName)
    ensures exists e' | e' in n.enums :: e'.fullName == e.fullName && v in e'.values
  {
    IndexFinds(o.enums, (x: Enum) => x.fullName, e);
    IndexHolds(n.enums, (x: Enum) => x.fullName);
    var e' := EnumsByName(n)[e.fullName];
    IndexHolds(e'.values, (x: EnumValue) => x.name);
    assert ValueKept(e', v);
    assert ValuesByName(e')[v.name] == v && e' in n.enums;
  }

  /** Every old method is in the new service, which keeps its domain; types, streaming, operation and bindings stay. */
  lemma EveryMethodSurvives(o: Manifest, n: Manifest, s: Service, m: Method)
    requires Compatible(o, n) && s in o.services && m in s.methods
    requires Distinct(o.services, (x: Service) => x.fullName) && Distinct(s.methods, (x: Method) => x.name)
    ensures exists s', m' | s' in n.services && m' in s'.methods ::
              s'.fullName == s.fullName && (s.domain != "" ==> s'.domain == s.domain) && MethodSurvives(m, m')
  {
    IndexFinds(o.services, (x: Service) => x.fullName, s);
    IndexHolds(n.services, (x: Service) => x.fullName);
    IndexFinds(s.methods, (x: Method) => x.name, m);
    var s' := ServicesByName(n)[s.fullName];
    IndexHolds(s'.methods, (x: Method) => x.name);
    var m' := MethodsByName(s')[m.name];
    MethodExactly(m, m');
    assert s' in n.services && m' in s'.methods;
  }
}
