/** What an operation may end up doing on a caller's behalf: the permissions of all it can reach. */
module Permissions {
  import opened Graphs

  type Permission = string

  datatype Operation = Operation(
    id: Name,
    permissions: seq<Permission>,
    permissionMode: string,
    requiresOperations: seq<Name>,
    composition: string)

  type Operations = map<Name, Operation>

  function CallGraph(operations: Operations): Graph {
    map id | id in operations :: operations[id].requiresOperations
  }

  /** `p` belongs to a known operation that `id` reaches along one or more edges. */
  ghost predicate InClosure(operations: Operations, id: Name, p: Permission) {
    exists b | b in operations :: Reaches(CallGraph(operations), id, b) && p in operations[b].permissions
  }

  /** The permissions in the closure of `id` that it does not declare itself. */
  ghost predicate Missing(operations: Operations, id: Name, p: Permission) {
    id in operations && InClosure(operations, id, p) && p !in operations[id].permissions
  }

  // ----- walks that keep out of a set -----

  ghost predicate Clear(w: seq<Name>, active: set<Name>, i: int) {
    0 <= i < |w| - 1 ==> w[i] !in active
  }

  /** A walk that enters `active` at its last name only, if at all. */
  ghost predicate Avoids(g: Graph, active: set<Name>, w: seq<Name>, a: Name, b: Name) {
    Walks(g, w, a, b) && forall i :: Clear(w, active, i)
  }

  ghost predicate ReachesAvoiding(g: Graph, active: set<Name>, a: Name, b: Name) {
    exists w :: Avoids(g, active, w, a, b)
  }

  lemma AvoidNothing(g: Graph, a: Name, b: Name)
    ensures ReachesAvoiding(g, {}, a, b) <==> Reaches(g, a, b)
  {
    forall w | Walks(g, w, a, b) ensures Avoids(g, {}, w, a, b) {
    }
  }

  /** A walk can be cut so that it does not come back to its start before its end. */
  lemma {:induction false} WithoutReturn(g: Graph, active: set<Name>, w: seq<Name>, a: Name, b: Name) returns (v: seq<Name>)
    requires Avoids(g, active, w, a, b)
    ensures Avoids(g, active, v, a, b) && forall i | 0 < i < |v| - 1 :: v[i] != a
    decreases |w|
  {
    if i :| 0 < i < |w| - 1 && w[i] == a {
      WalkDrop(g, w, i);
      forall j ensures Clear(w[i..], active, j) {
        assert Clear(w, active, i + j);
      }
      v := WithoutReturn(g, active, w[i..], a, b);
    } else {
      v := w;
    }
  }

  lemma StepThenAvoid(g: Graph, active: set<Name>, a: Name, r: Name, b: Name)
    requires a !in active && Edge(g, a, r)
    ensures ReachesAvoiding(g, active, a, r)
    ensures ReachesAvoiding(g, active + {a}, r, b) ==> ReachesAvoiding(g, active, a, b)
  {
    assert Avoids(g, active, [a, r], a, r);
    forall w | Avoids(g, active + {a}, w, r, b) ensures Avoids(g, active, [a] + w, a, b) {
      WalkJoin(g, [a, r], w);
      assert [a, r] + w[1..] == [a] + w;
      forall i ensures Clear([a] + w, active, i) {
        assert Clear(w, active + {a}, i - 1);
      }
    }
  }

  /**
   Why undoing the active set loses nothing: what is reached while avoiding `active` is a
   successor, or is reached from a successor while avoiding the start as well.
   */
  lemma AvoidFirst(g: Graph, active: set<Name>, a: Name, b: Name)
    requires ReachesAvoiding(g, active, a, b)
    ensures a !in active && exists r :: Edge(g, a, r) && (r == b || ReachesAvoiding(g, active + {a}, r, b))
  {
    var w :| Avoids(g, active, w, a, b);
    assert Clear(w, active, 0);
    var v := WithoutReturn(g, active, w, a, b);
    WalkTail(g, v);
    if |v| > 2 {
      var t := v[1..];
      forall i ensures Clear(t, active + {a}, i) {
        assert Clear(v, active, i + 1);
      }
      assert Avoids(g, active + {a}, t, t[0], b);
    }
  }

  // ----- the collection -----

  /** What collecting below `id` adds while the operations in `active` are being collected. */
  ghost predicate Beyond(operations: Operations, active: set<Name>, id: Name, p: Permission) {
    exists b | b in operations :: ReachesAvoiding(CallGraph(operations), active, id, b) && p in operations[b].permissions
  }

  /** What one required operation adds. */
  ghost predicate Through(operations: Operations, active: set<Name>, r: Name, p: Permission) {
    r in operations && (p in operations[r].permissions || Beyond(operations, active, r, p))
  }

  ghost predicate ThroughAny(operations: Operations, active: set<Name>, required: seq<Name>, p: Permission) {
    exists r | r in required :: Through(operations, active, r, p)
  }

  lemma ThroughOneMore(operations: Operations, active: set<Name>, required: seq<Name>, r: Name, p: Permission)
    ensures ThroughAny(operations, active, required + [r], p)
            <==> ThroughAny(operations, active, required, p) || Through(operations, active, r, p)
  {
    assert r in required + [r];
  }

  lemma BeyondByRequirement(operations: Operations, active: set<Name>, id: Name, p: Permission)
    requires id in operations && id !in active
    ensures Beyond(operations, active, id, p)
            <==> ThroughAny(operations, active + {id}, operations[id].requiresOperations, p)
  {
    var g := CallGraph(operations);
    forall b | b in operations && ReachesAvoiding(g, active, id, b) && p in operations[b].permissions
      ensures ThroughAny(operations, active + {id}, operations[id].requiresOperations, p)
    {
      AvoidFirst(g, active, id, b);
      var r :| Edge(g, id, r) && (r == b || ReachesAvoiding(g, active + {id}, r, b));
      if r != b {
        AvoidFirst(g, active + {id}, r, b);
      }
      assert Through(operations, active + {id}, r, p);
    }
    forall r | r in operations[id].requiresOperations && Through(operations, active + {id}, r, p)
      ensures Beyond(operations, active, id, p)
    {
      assert Edge(g, id, r);
      StepThenAvoid(g, active, id, r, r);
      if p !in operations[r].permissions {
        var b :| b in operations && ReachesAvoiding(g, active + {id}, r, b) && p in operations[b].permissions;
        StepThenAvoid(g, active, id, r, b);
      }
    }
  }

  lemma AvoidStart(g: Graph, active: set<Name>, a: Name, b: Name)
    ensures ReachesAvoiding(g, active, a, b) ==> a in g && a !in active
  {
    if ReachesAvoiding(g, active, a, b) {
      AvoidFirst(g, active, a, b);
    }
  }

  lemma NothingBeyond(operations: Operations, active: set<Name>, id: Name, p: Permission)
    requires id !in operations || id in active
    ensures !Beyond(operations, active, id, p)
  {
    forall b ensures !ReachesAvoiding(CallGraph(operations), active, id, b) {
      AvoidStart(CallGraph(operations), active, id, b);
    }
  }

  /** The maps one collection fills; the same code serves the linter and the plan compiler. */
  class Collector {
    const operations: Operations
    var active: set<Name>
    var result: set<Permission>

    constructor (operations: Operations)
      ensures this.operations == operations && active == {} && result == {}
    {
      this.operations, active, result := operations, {}, {};
    }

    /** The permissions added for the first `n` requirements of `id`. */
    ghost predicate Gathered(was: set<Permission>, requirements: seq<Name>)
      reads this
    {
      forall p :: p in result <==> p in was || ThroughAny(operations, active, requirements, p)
    }

    method Collect(id: Name)
      modifies this
      ensures active == old(active)
      ensures forall p :: p in result <==> p in old(result) || Beyond(operations, active, id, p)
      decreases operations.Keys - active
    {
      forall p | id !in operations || id in active ensures !Beyond(operations, active, id, p) {
        NothingBeyond(operations, active, id, p);
      }
      if id in active {
        return;
      }
      active := active + {id};
      if id !in operations {
        active := active - {id};
        return;
      }
      var requirements := operations[id].requiresOperations;
      for i := 0 to |requirements|
        invariant active == old(active) + {id}
        invariant Gathered(old(result), requirements[..i])
      {
        var required := requirements[i];
        assert requirements[..i + 1] == requirements[..i] + [required];
        forall p {
          ThroughOneMore(operations, active, requirements[..i], required, p);
        }
        if required in operations {
          var target := operations[required];
          result := result + set p | p in target.permissions;
          Collect(required);
        }
      }
      assert requirements[..|requirements|] == requirements;
      forall p ensures Beyond(operations, old(active), id, p) <==> ThroughAny(operations, active, requirements, p) {
        BeyondByRequirement(operations, old(active), id, p);
      }
      active := active - {id};
    }
  }

  /** Collecting from scratch finds the closure exactly, on cyclic graphs too. */
  method CollectRequiredPermissions(operations: Operations, id: Name) returns (closure: set<Permission>)
    ensures forall p :: p in closure <==> InClosure(operations, id, p)
  {
    var collector := new Collector(operations);
    collector.Collect(id);
    closure := collector.result;
    forall b ensures ReachesAvoiding(CallGraph(operations), {}, id, b) <==> Reaches(CallGraph(operations), id, b) {
      AvoidNothing(CallGraph(operations), id, b);
    }
  }
}
