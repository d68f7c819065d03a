/** What the index of a contract holds, said in the texts of its services. */
module CompositionLaws {
  import opened Text
  import opened Graphs
  import opened Permissions
  import opened Composition

  /** The service declares the application that is known by `key`. */
  predicate Named(s: Service, key: Name) {
    s.application.Some? && s.domain != "" && key == s.domain + "/" + s.application.value.name
  }

  /** The operation is one of a service that declares the application, and can be read. */
  predicate DeclaredBy(s: Service, key: Name, o: Operation) {
    Named(s, key) && s.bindings.Some? && o in s.bindings.value
  }

  // ----- applications -----

  /** An application is known by its domain and name, and found under them is a service that declares it. */
  lemma {:induction false} IndexedApplications(services: seq<Service>, key: Name)
    ensures key in IndexOfServices(services).applications <==> exists s | s in services :: Named(s, key)
    ensures key in IndexOfServices(services).applications ==>
              IndexOfServices(services).applications[key] in services && Named(IndexOfServices(services).applications[key], key)
  {
    if services != [] {
      var init, last := services[..|services| - 1], services[|services| - 1];
      assert services == init + [last] && last in services;
      IndexedApplications(init, key);
      assert Typed(last) ==> (ApplicationKey(last) == key <==> Named(last, key));
    }
  }

  /** All services that declare applications can be read, and no two declare the same. */
  ghost predicate Apart(services: seq<Service>) {
    && (forall s | s in services && s.application.Some? && s.domain != "" :: s.bindings.Some?)
    && (forall s, t, key | s in services && t in services && Named(s, key) && Named(t, key) :: s.fullName == t.fullName)
  }

  /** The index is built without a diagnostic exactly when nobody else declares the same, and all can be read. */
  lemma {:induction false} IndexableExactly(services: seq<Service>)
    ensures Indexable(services) <==> Apart(services)
  {
    if services != [] {
      var init, last := services[..|services| - 1], services[|services| - 1];
      assert services == init + [last];
      IndexableExactly(init);
      IndexableMore(init, last);
      if Apart(init) {
        ApartMore(init, last);
      }
      assert forall s | s in init :: s in services;
    }
  }

  lemma ApartMore(init: seq<Service>, last: Service)
    requires Apart(init)
    ensures Apart(init + [last]) <==> (Typed(last) ==> last.bindings.Some? && !Collides(IndexOfServices(init), last))
  {
    assert last in init + [last] && forall s | s in init :: s in init + [last];
    if Typed(last) {
      var key := ApplicationKey(last);
      IndexedApplications(init, key);
      assert Named(last, key);
      forall s, k | s in init && Named(s, k) && Named(last, k) ensures k == key {
      }
    }
  }

  lemma IndexableMore(init: seq<Service>, last: Service)
    ensures Indexable(init + [last]) <==>
              Indexable(init) && (Typed(last) ==> last.bindings.Some? && !Collides(IndexOfServices(init), last))
  {
    var services := init + [last];
    assert services[..|init|] == init;
    forall i | 0 <= i < |init| ensures services[i] == init[i] && services[..i] == init[..i] {
    }
    if Indexable(services) {
      assert Typed(services[|init|]) ==> services[|init|].bindings.Some? && !Collides(IndexOfServices(services[..|init|]), services[|init|]);
      forall i | 0 <= i < |init| && Typed(init[i])
        ensures init[i].bindings.Some? && !Collides(IndexOfServices(init[..i]), init[i])
      {
        assert Typed(services[i]);
      }
    }
  }

  /** Of the services that declare an application, the last one counts. */
  lemma {:induction false} LastApplication(services: seq<Service>, i: nat, key: Name)
    requires i < |services| && Named(services[i], key) && Apart(services)
    requires forall j | i < j < |services| :: !Named(services[j], key)
    ensures key in IndexOfServices(services).applications && IndexOfServices(services).applications[key] == services[i]
  {
    var init, last := services[..|services| - 1], services[|services| - 1];
    assert services == init + [last] && forall s | s in init :: s in services;
    assert Typed(last) ==> (ApplicationKey(last) == key <==> Named(last, key));
    ApartMore(init, last);
    if i < |init| {
      assert init[i] == services[i] && forall j | i < j < |init| :: init[j] == services[j];
      LastApplication(init, i, key);
    }
  }

  // ----- operations -----

  /** An operation is known exactly when a service declares it; it is listed under the application of one that does. */
  lemma IndexedOwner(services: seq<Service>, id: Name)
    ensures id in IndexOfServices(services).owners <==>
              id != "" && exists s, key, o | s in services && DeclaredBy(s, key, o) :: o.id == id
    ensures id in IndexOfServices(services).owners ==>
              var owner := IndexOfServices(services).owners[id];
              owner.operation.id == id && exists s | s in services :: DeclaredBy(s, owner.applicationKey, owner.operation)
  {
    var owners := IndexOfServices(services).owners;
    IndexedOperations(services, id);
    NamedOnly(services, id);
    if id in owners {
      var s :| s in services && Typed(s) && s.bindings.Some? && owners[id].operation in s.bindings.value
               && owners[id].operation.id == id && owners[id].applicationKey == ApplicationKey(s);
      assert DeclaredBy(s, owners[id].applicationKey, owners[id].operation);
    }
    if id != "" {
      forall s, key, o | s in services && DeclaredBy(s, key, o) && o.id == id ensures id in owners {
        assert Typed(s);
      }
    }
  }

  lemma {:induction false} NamedOnly(services: seq<Service>, id: Name)
    ensures id in IndexOfServices(services).owners ==> id != ""
  {
    if services != [] {
      var init, last := services[..|services| - 1], services[|services| - 1];
      NamedOnly(init, id);
      if Typed(last) && last.bindings.Some? {
        AddedOwners(IndexOfServices(init).owners, last.bindings.value, ApplicationKey(last), id);
      }
    }
  }

  lemma {:induction false} LastAdded(owners: map<Name, Owner>, operations: seq<Operation>, key: Name, j: nat)
    requires j < |operations| && operations[j].id != "" && forall k | j < k < |operations| :: operations[k].id != operations[j].id
    ensures operations[j].id in AddOperations(owners, operations, key)
    ensures AddOperations(owners, operations, key)[operations[j].id] == Owner(operations[j], key)
  {
    var init := operations[..|operations| - 1];
    if j < |init| {
      LastAdded(owners, init, key, j);
    }
  }

  lemma {:induction false} NoneAdded(owners: map<Name, Owner>, operations: seq<Operation>, key: Name, id: Name)
    requires id in owners && forall o | o in operations :: o.id != id
    ensures id in AddOperations(owners, operations, key) && AddOperations(owners, operations, key)[id] == owners[id]
  {
    if operations != [] {
      NoneAdded(owners, operations[..|operations| - 1], key, id);
    }
  }

  /** Of the declarations of an operation, the last one counts. */
  lemma {:induction false} LastOperation(services: seq<Service>, i: nat, j: nat, key: Name)
    requires i < |services| && Named(services[i], key) && services[i].bindings.Some? && j < |services[i].bindings.value|
    requires var o := services[i].bindings.value[j];
             && o.id != "" && (forall k | j < k < |services[i].bindings.value| :: services[i].bindings.value[k].id != o.id)
             && (forall k, other, q | i < k < |services| && DeclaredBy(services[k], other, q) :: q.id != o.id)
    ensures var o := services[i].bindings.value[j];
            o.id in IndexOfServices(services).owners && IndexOfServices(services).owners[o.id] == Owner(o, key)
  {
    var init, last := services[..|services| - 1], services[|services| - 1];
    var o := services[i].bindings.value[j];
    if i < |init| {
      assert init[i] == services[i] && forall k | i < k < |init| :: init[k] == services[k];
      LastOperation(init, i, j, key);
      if Typed(last) && last.bindings.Some? {
        forall q | q in last.bindings.value ensures q.id != o.id {
          assert DeclaredBy(last, ApplicationKey(last), q);
        }
        NoneAdded(IndexOfServices(init).owners, last.bindings.value, ApplicationKey(last), o.id);
      }
    } else {
      LastAdded(IndexOfServices(init).owners, last.bindings.value, key, j);
    }
  }

  // ----- dependencies -----

  /** A lower-case letter, then letters, digits and the four signs. */
  predicate PlainName(s: string) {
    s != "" && 'a' <= s[0] <= 'z'
    && forall i | 0 <= i < |s| :: 'a' <= s[i] <= 'z' || '0' <= s[i] <= '9' || s[i] == '.' || s[i] == '_' || s[i] == '-' || s[i] == ':'
  }

  lemma PlainNameIsKey(s: string)
    ensures PlainName(s) <==> PlainKey(s)
    ensures PlainName(s) ==> NoneOf(s, ['/']) && Trim(s) == s && ValidPolicyKey(s)
  {
    if s != "" {
      EveryKeyChar(s[1..]);
      assert forall i | 0 < i < |s| :: s[i] == s[1..][i - 1] && s[1..][i - 1] in s[1..];
      if PlainName(s) {
        forall c | c in s[1..] ensures KeyChar(c) {
          var i :| 0 <= i < |s| - 1 && s[1..][i] == c;
          assert s[i + 1] == c;
        }
      }
    }
  }

  lemma SlashSplits(d: string, n: string)
    requires NoneOf(d, ['/']) && NoneOf(n, ['/'])
    ensures Split('/', d + "/" + n) == [d, n]
  {
    SplitFirst('/', d, n);
    SplitPlain('/', n);
  }

  lemma PlainPairValid(d: string, n: string)
    requires PlainName(d) && PlainName(n)
    ensures ValidApplicationDependency(d + "/" + n)
  {
    PlainNameIsKey(d);
    PlainNameIsKey(n);
    SlashSplits(d, n);
    var s := d + "/" + n;
    assert s[0] == d[0] && s[|s| - 1] == n[|n| - 1];
  }

  lemma PlainInside(d: string)
    requires PlainName(Trim(d))
    ensures NoneOf(d, ['/']) && ValidPolicyKey(d)
  {
    PlainNameIsKey(Trim(d));
    TrimKeeps(d, '/');
    assert forall i | 0 <= i < |d| && d[i] == '/' :: '/' in d;
  }

  /** White space aside, the text is a plain name. */
  predicate Plain(s: string) {
    PlainName(Trim(s))
  }

  lemma PlainIsKey(s: string)
    ensures ValidPolicyKey(s) <==> Plain(s)
    ensures Plain(s) ==> NoneOf(s, ['/'])
  {
    PlainNameIsKey(Trim(s));
    if Plain(s) {
      PlainInside(s);
    }
  }

  lemma TwoParts(value: string)
    requires |Split('/', value)| == 2
    ensures value == Split('/', value)[0] + "/" + Split('/', value)[1]
  {
    JoinOfSplit('/', value);
    assert Split('/', value)[1..] == [Split('/', value)[1]];
  }

  /** A dependency is well-formed exactly when it reads, white space aside, as two plain names around one slash. */
  lemma WellformedExactly(value: string)
    ensures ValidApplicationDependency(value) <==> exists d, n :: Trim(value) == d + "/" + n && Plain(d) && Plain(n)
  {
    var parts := Split('/', Trim(value));
    if ValidApplicationDependency(value) {
      TwoParts(Trim(value));
      PlainIsKey(parts[0]);
      PlainIsKey(parts[1]);
    }
    if d, n :| Trim(value) == d + "/" + n && Plain(d) && Plain(n) {
      PlainIsKey(d);
      PlainIsKey(n);
      SlashSplits(d, n);
    }
  }

  /** A text with one slash names one pair. */
  lemma SlashOnce(d: string, n: string, e: string, m: string)
    requires NoneOf(d, ['/']) && NoneOf(n, ['/']) && e + "/" + m == d + "/" + n
    ensures e == d && m == n
  {
    SlashSplits(d, n);
    SplitApart('/', e, m);
    assert |Split('/', e)| == 1 && |Split('/', m)| == 1;
    assert (Split('/', e) + Split('/', m))[0] == d && (Split('/', e) + Split('/', m))[1] == n;
    JoinOfSplit('/', e);
    JoinOfSplit('/', m);
  }

  /**
   A well-formed dependency on another application passes exactly when some service declares
   an application of that domain and name.
   */
  lemma DependencyPasses(services: seq<Service>, key: Name, domain: string, name: string)
    requires PlainName(domain) && PlainName(name) && domain + "/" + name != key
    ensures AcceptedDependency(IndexOfServices(services), key, domain + "/" + name) <==>
              exists s | s in services && s.application.Some? :: s.domain == domain && s.application.value.name == name
  {
    var dependency := domain + "/" + name;
    PlainPairValid(domain, name);
    PlainNameIsKey(domain);
    PlainNameIsKey(name);
    IndexedApplications(services, dependency);
    forall s | s in services && Named(s, dependency) ensures s.domain == domain && s.application.value.name == name {
      SlashOnce(domain, name, s.domain, s.application.value.name);
    }
    forall s | s in services && s.application.Some? && s.domain == domain && s.application.value.name == name
      ensures Named(s, dependency)
    {
    }
  }

  /**
   In a contract that passes, what an operation requires is another operation of a service, whose
   application is the same or one that the requiring application declares.
   */
  lemma CleanRequirement(services: seq<Service>, i: nat, key: Name, o: Operation, needed: Name)
    requires Clean(services) && i < |services| && DeclaredBy(services[i], key, o) && needed in o.requiresOperations
    requires forall j | i < j < |services| :: !Named(services[j], key)
    ensures needed != o.id
    ensures exists s, k, q | s in services && DeclaredBy(s, k, q) ::
              q.id == needed && (k == key || k in services[i].application.value.needs)
  {
    var index := IndexOfServices(services);
    IndexableExactly(services);
    LastApplication(services, i, key);
    assert ProperOperation(index, key, Accepted(index, key, RequiresOf(services[i])), o);
    assert ProperRequirement(index, key, Accepted(index, key, RequiresOf(services[i])), o, needed);
    IndexedOwner(services, needed);
    var owner := index.owners[needed];
    var s :| s in services && DeclaredBy(s, owner.applicationKey, owner.operation);
    assert owner.operation.id == needed;
  }

  // ----- the graphs -----

  /** The application graph has the dependencies that pass for edges, and no other. */
  lemma ApplicationEdges(services: seq<Service>, a: Name, b: Name)
    ensures
      var index := IndexOfServices(services);
      Edge(ApplicationGraph(index), a, b) <==>
        && a in index.applications && index.applications[a].application.Some? && b in index.applications[a].application.value.needs
        && ValidApplicationDependency(b) && b != a && b in index.applications
  {
    IndexedApplications(services, a);
  }

  /** The graph of operations has their requirements for edges, and no other. */
  lemma OperationEdges(services: seq<Service>, a: Name, b: Name)
    ensures
      var owners := IndexOfServices(services).owners;
      Edge(CallGraph(OperationsOf(IndexOfServices(services))), a, b) <==>
        a in owners && b in owners[a].operation.requiresOperations
  {
  }
}
