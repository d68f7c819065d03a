/** A linted contract whose root demands any of two permissions, and a child that needs the other one. */
module ChildExample {
  import opened Options
  import opened Graphs
  import opened CycleSearch
  import opened Permissions
  import opened Composition
  import opened Authorization
  import opened ExecutionScope
  import opened ChildAuthority

  const OPEN := Operation("shop.open", ["shop.read", "shop.write"], "any", ["shop.store"], "")
  const STORE := Operation("shop.store", ["shop.write"], "all", [], "")
  const SHOP := Service("Shop", "shop", Some(Application("desk", [])), Some([OPEN, STORE]))
  const OPERATIONS: Operations := map["shop.open" := OPEN, "shop.store" := STORE]

  lemma ShopIndexed()
    ensures IndexOfServices([SHOP]).applications == map["shop/desk" := SHOP]
    ensures IndexOfServices([SHOP]).owners ==
              map["shop.open" := Owner(OPEN, "shop/desk"), "shop.store" := Owner(STORE, "shop/desk")]
    ensures Indexable([SHOP])
  {
    var key := "shop/desk";
    assert ApplicationKey(SHOP) == key;
    assert [SHOP][..0] == [] && IndexOfServices([]) == Index(map[], map[]);
    assert [OPEN, STORE][..1] == [OPEN] && [OPEN][..0] == [];
    assert AddOperations(map[], [OPEN], key) == map["shop.open" := Owner(OPEN, key)];
    assert AddOperations(map[], [OPEN, STORE], key) == map["shop.open" := Owner(OPEN, key)]["shop.store" := Owner(STORE, key)];
  }

  lemma ShopOperations()
    ensures OperationsOf(IndexOfServices([SHOP])) == OPERATIONS
  {
    ShopIndexed();
  }

  lemma ShopProper()
    ensures var index := IndexOfServices([SHOP]);
            forall key | key in index.applications :: ProperApplication(index, key, index.applications[key])
    ensures ApplicationGraph(IndexOfServices([SHOP])) == map[]
  {
    ShopIndexed();
    var index, key := IndexOfServices([SHOP]), "shop/desk";
    assert ProperOperation(index, key, [], OPEN) && ProperOperation(index, key, [], STORE);
    assert Accepted(index, key, RequiresOf(SHOP)) == [];
  }

  lemma ShopEdges()
    ensures forall a, b :: Edge(CallGraph(OPERATIONS), a, b) <==> a == "shop.open" && b == "shop.store"
  {
    assert CallGraph(OPERATIONS) == map["shop.open" := ["shop.store"], "shop.store" := []];
  }

  lemma ShopReaches(a: Name, b: Name)
    requires Reaches(CallGraph(OPERATIONS), a, b)
    ensures a == "shop.open" && b == "shop.store"
  {
    ShopEdges();
    ReachesFirst(CallGraph(OPERATIONS), a, b);
    var c :| Edge(CallGraph(OPERATIONS), a, c) && (c == b || Reaches(CallGraph(OPERATIONS), c, b));
    if c != b {
      ReachesFirst(CallGraph(OPERATIONS), c, b);
    }
  }

  lemma ShopAcyclic()
    ensures Acyclic(CallGraph(OPERATIONS)) && Acyclic(map[])
  {
    ShopEdges();
    FinishedAcyclic(CallGraph(OPERATIONS), ["shop.store"]);
    FinishedAcyclic(map[], []);
  }

  lemma ShopClean()
    ensures Clean([SHOP])
  {
    ShopIndexed();
    ShopOperations();
    ShopProper();
    ShopAcyclic();
    forall id, p | InClosure(OPERATIONS, id, p) ensures id == "shop.open" && p == "shop.write" {
      var b :| b in OPERATIONS && Reaches(CallGraph(OPERATIONS), id, b) && p in OPERATIONS[b].permissions;
      ShopReaches(id, b);
    }
  }

  lemma ShopChain(root: Root) returns (frames: seq<ExecutionScope.Frame>)
    ensures |frames| == 2 && Chain(OPERATIONS, frames) && frames[0].operation == "shop.open" && frames[1].operation == "shop.store"
  {
    var first := Frame(root, "shop.open", {"shop.store"}, 0);
    var second := Frame(root, "shop.store", {}, 1);
    frames := [first, second];
    assert NameSet(OPEN.requiresOperations) == {"shop.store"} && NameSet(STORE.requiresOperations) == {};
    assert JoinChild(Some(first), "shop.store", "", NameSet(OPERATIONS["shop.store"].requiresOperations)) == Joined(second);
    forall i ensures JoinAt(OPERATIONS, frames, i) {
    }
  }

  /** Allowed for reading, the root leads to an operation that writes, without a grant to write. */
  lemma AnyModeLeadsFurther(root: Root, security: Security)
    returns (frames: seq<ExecutionScope.Frame>, principal: Principal, answer: Option<Resolution>, v: Verdict)
    ensures Clean([SHOP]) && Chain(OperationsOf(IndexOfServices([SHOP])), frames)
    ensures LastOf(OperationsOf(IndexOfServices([SHOP])), frames) == "shop.store" && "shop.write" in STORE.permissions
    ensures frames[0].operation == "shop.open" && Decides(principal, PolicyFor(OPEN, security), answer, v)
    ensures v.decision.allowed && !Granted(v.decision.grants, "shop.write")
  {
    ShopClean();
    ShopOperations();
    frames := ShopChain(root);
    assert "shop.read" in OPEN.permissions && "shop.read" != "shop.write" && !OnlyPermission(OPEN, "shop.write");
    principal, answer, v := AnotherIsEnough(OPEN, security, "shop.write");
  }
}
