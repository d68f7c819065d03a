/** The bounded breadth-first search for what a node of the application graph depends on, and what depends on it. */
module Impact {
  import opened Sorting
  import opened Strings
  import opened Text
  import opened Graphs
  import opened Distance

  datatype Direction = Dependencies | Dependents

  datatype Item = Item(id: Name, kind: string, name: string)

  datatype Link = Link(from: Name, to: Name, kind: string)

  datatype ApplicationGraph = ApplicationGraph(nodes: seq<Item>, edges: seq<Link>)

  datatype Entry = Entry(node: Item, depth: nat, via: string, parent: Name)

  datatype State = State(id: Name, parent: Name, depth: nat, via: string)

  function Ids(graph: ApplicationGraph): set<Name> {
    set n | n in graph.nodes :: n.id
  }

  /** What the graph's own validation guarantees and the search relies on. */
  ghost predicate Valid(graph: ApplicationGraph) {
    && (forall i, j | 0 <= i < j < |graph.nodes| :: graph.nodes[i].id != graph.nodes[j].id)
    && "" !in Ids(graph)
    && forall e | e in graph.edges :: e.from in Ids(graph) && e.to in Ids(graph)
  }

  /** Where an edge leads from `id`, if anywhere. */
  predicate Leads(e: Link, direction: Direction, id: Name, next: Name) {
    if direction.Dependencies? then e.from == id && e.to == next else e.to == id && e.from == next
  }

  ghost predicate Linked(graph: ApplicationGraph, direction: Direction, id: Name, next: Name, kind: string) {
    exists e | e in graph.edges :: e.kind == kind && Leads(e, direction, id, next)
  }

  function NextOf(edges: seq<Link>, direction: Direction, id: Name): (r: seq<Name>)
    ensures forall b :: b in r <==> exists e | e in edges :: Leads(e, direction, id, b)
  {
    if edges == [] then []
    else
      var init, e := edges[..|edges| - 1], edges[|edges| - 1];
      assert edges == init + [e];
      assert Leads(e, direction, id, e.to) || Leads(e, direction, id, e.from) || forall b :: !Leads(e, direction, id, b);
      NextOf(init, direction, id) +
      if direction.Dependencies? && e.from == id then [e.to]
      else if direction.Dependents? && e.to == id then [e.from]
      else []
  }

  /** The graph the search walks on. */
  function LinkGraph(graph: ApplicationGraph, direction: Direction): Graph {
    map id | id in Ids(graph) :: NextOf(graph.edges, direction, id)
  }

  lemma LinkGraphEdges(graph: ApplicationGraph, direction: Direction)
    requires Valid(graph)
    ensures forall a, b :: Edge(LinkGraph(graph, direction), a, b) <==> exists kind :: Linked(graph, direction, a, b, kind)
  {
    forall a, b
      ensures Edge(LinkGraph(graph, direction), a, b) <==> exists kind :: Linked(graph, direction, a, b, kind)
    {
      forall e | e in graph.edges && Leads(e, direction, a, b)
        ensures Linked(graph, direction, a, b, e.kind) && a in Ids(graph)
      {
      }
    }
  }

  lemma DirectionsOppose(graph: ApplicationGraph)
    requires Valid(graph)
    ensures Opposite(LinkGraph(graph, Dependencies), LinkGraph(graph, Dependents))
  {
    LinkGraphEdges(graph, Dependencies);
    LinkGraphEdges(graph, Dependents);
    forall a, b, kind ensures Linked(graph, Dependencies, a, b, kind) <==> Linked(graph, Dependents, b, a, kind) {
      forall e ensures Leads(e, Dependencies, a, b) <==> Leads(e, Dependents, b, a) {
      }
    }
  }

  // ----- the search -----

  ghost predicate Expanded(g: Graph, visited: set<Name>, a: Name) {
    forall b | Edge(g, a, b) :: b in visited
  }

  ghost predicate Queued(queue: seq<State>, a: Name) {
    exists s | s in queue :: s.id == a
  }

  /** A visited name is within the bound, and is expanded, waiting to be, or at the bound. */
  ghost predicate Accounted(g: Graph, start: Name, maxDepth: nat, visited: set<Name>, queue: seq<State>, a: Name) {
    a in visited ==>
      exists d: nat | d <= maxDepth ::
        AtDistance(g, start, a, d) && (d == maxDepth || Expanded(g, visited, a) || Queued(queue, a))
  }

  ghost predicate Explored(g: Graph, start: Name, maxDepth: nat, visited: set<Name>, queue: seq<State>) {
    && start in visited
    && (forall a :: Accounted(g, start, maxDepth, visited, queue, a))
    && (forall s | s in queue :: AtDistance(g, start, s.id, s.depth) && s.depth <= maxDepth && s.id in visited)
  }

  /** When everything nearer than `k` has left the queue, everything up to `k` has been visited. */
  lemma {:induction false} NearVisited(g: Graph, start: Name, maxDepth: nat, visited: set<Name>, queue: seq<State>, k: nat, b: Name, d: nat)
    requires Explored(g, start, maxDepth, visited, queue)
    requires k <= maxDepth && forall s | s in queue :: s.depth >= k
    requires AtDistance(g, start, b, d) && d <= k
    ensures b in visited
    decreases d
  {
    NoSteps(g, start, b);
    if d > 0 {
      var c := Predecessor(g, start, b, d - 1);
      NearVisited(g, start, maxDepth, visited, queue, k, c, d - 1);
      assert Accounted(g, start, maxDepth, visited, queue, c);
      var e: nat :| e <= maxDepth && AtDistance(g, start, c, e) && (e == maxDepth || Expanded(g, visited, c) || Queued(queue, c));
      DistanceUnique(g, start, c, d - 1, e);
      forall s | s in queue ensures s.id != c {
        DistancesDiffer(g, start, s.id, s.depth, c, d - 1);
      }
    }
  }

  /** A name first met while expanding a name at distance `k` is at distance `k + 1`. */
  lemma FirstMet(g: Graph, start: Name, maxDepth: nat, visited: set<Name>, queue: seq<State>, current: State, next: Name)
    requires Explored(g, start, maxDepth, visited, queue) && current in queue && current.depth < maxDepth
    requires forall s | s in queue :: s.depth >= current.depth
    requires Edge(g, current.id, next) && next !in visited
    ensures AtDistance(g, start, next, current.depth + 1)
  {
    OneStepMore(g, start, current.id, next, current.depth);
    forall m: nat | m <= current.depth ensures !InSteps(g, start, next, m) {
      if InSteps(g, start, next, m) {
        var d := SomeDistance(g, start, next, m);
        NearVisited(g, start, maxDepth, visited, queue, current.depth, next, d);
      }
    }
  }

  predicate StateBefore(x: State, y: State) {
    Before(x.id, y.id)
  }

  function ForState(a: Name): State -> bool {
    (s: State) => s.id == a
  }

  function ForEntry(a: Name): Entry -> bool {
    (e: Entry) => e.node.id == a
  }

  function ForLink(direction: Direction, a: Name, b: Name): Link -> bool {
    (e: Link) => Leads(e, direction, a, b)
  }

  /** The unvisited names one edge from `current`, by name; once per edge. */
  method Candidates(graph: ApplicationGraph, direction: Direction, visited: set<Name>, current: State) returns (r: seq<State>)
    requires Valid(graph)
    ensures forall s | s in r ::
      s.id !in visited && s.parent == current.id && s.depth == current.depth + 1 && Linked(graph, direction, current.id, s.id, s.via)
    ensures forall b, kind | Linked(graph, direction, current.id, b, kind) :: b in visited || Queued(r, b)
    ensures forall b | b !in visited :: CountBy(r, ForState(b)) == CountBy(graph.edges, ForLink(direction, current.id, b))
  {
    var found: seq<State> := [];
    for i := 0 to |graph.edges|
      invariant forall s | s in found ::
        s.id !in visited && s.parent == current.id && s.depth == current.depth + 1 && Linked(graph, direction, current.id, s.id, s.via)
      invariant forall e, b | e in graph.edges[..i] && Leads(e, direction, current.id, b) :: b in visited || Queued(found, b)
      invariant forall b | b !in visited :: CountBy(found, ForState(b)) == CountBy(graph.edges[..i], ForLink(direction, current.id, b))
    {
      var edge := graph.edges[i];
      var next := if direction.Dependencies? && edge.from == current.id then edge.to
                  else if direction.Dependents? && edge.to == current.id then edge.from
                  else "";
      assert edge in graph.edges && graph.edges[..i + 1] == graph.edges[..i] + [edge];
      ghost var was := found;
      if next != "" && next !in visited {
        assert Leads(edge, direction, current.id, next);
        found := found + [State(next, current.id, current.depth + 1, edge.kind)];
        assert forall b | Queued(was, b) :: Queued(found, b);
        assert found[|found| - 1] in found;
      }
      CandidatesCounted(graph, direction, visited, current, was, found, i);
    }
    assert graph.edges[..|graph.edges|] == graph.edges;
    SortedSame(found);
    r := SortBy(StateBefore, found);
  }

  lemma SortedSame(found: seq<State>)
    ensures
      var r := SortBy(StateBefore, found);
      && (forall s :: s in r <==> s in found) && (forall b :: Queued(r, b) <==> Queued(found, b))
      && (forall b :: CountBy(r, ForState(b)) == CountBy(found, ForState(b)))
  {
    NamesCompare();
    SortBySorts(StateBefore, found);
    UniqueInMultiset(found, SortBy(StateBefore, found));
    forall b ensures CountBy(SortBy(StateBefore, found), ForState(b)) == CountBy(found, ForState(b)) {
      CountBySorted(StateBefore, found, ForState(b));
    }
  }

  /** One more edge, and one more state if it leads from `current` to an unvisited name. */
  lemma CandidatesCounted(graph: ApplicationGraph, direction: Direction, visited: set<Name>, current: State,
                          was: seq<State>, found: seq<State>, i: nat)
    requires Valid(graph) && i < |graph.edges|
    requires forall b | b !in visited :: CountBy(was, ForState(b)) == CountBy(graph.edges[..i], ForLink(direction, current.id, b))
    requires
      var next := if direction.Dependencies? then graph.edges[i].to else graph.edges[i].from;
      found == if Leads(graph.edges[i], direction, current.id, next) && next !in visited
               then was + [State(next, current.id, current.depth + 1, graph.edges[i].kind)] else was
    ensures forall b | b !in visited :: CountBy(found, ForState(b)) == CountBy(graph.edges[..i + 1], ForLink(direction, current.id, b))
  {
    var edge := graph.edges[i];
    assert graph.edges[..i + 1] == graph.edges[..i] + [edge];
    forall b | b !in visited
      ensures CountBy(found, ForState(b)) == CountBy(graph.edges[..i + 1], ForLink(direction, current.id, b))
    {
      CountByMore(graph.edges[..i], edge, ForLink(direction, current.id, b));
      if found != was {
        CountByMore(was, found[|was|], ForState(b));
      }
    }
  }

  /** Depths in the queue do not fall, and rise by one at most. */
  ghost predicate Staged(queue: seq<State>) {
    && (forall i, j | 0 <= i <= j < |queue| :: queue[i].depth <= queue[j].depth)
    && (forall s | s in queue :: s.depth <= queue[0].depth + 1)
  }

  /** An entry is a node at its shortest distance, with the edge and the name it was reached over. */
  ghost predicate Sound(graph: ApplicationGraph, direction: Direction, start: Name, maxDepth: nat, e: Entry) {
    && e.node in graph.nodes && 1 <= e.depth <= maxDepth
    && AtDistance(LinkGraph(graph, direction), start, e.node.id, e.depth)
    && AtDistance(LinkGraph(graph, direction), start, e.parent, e.depth - 1)
    && Linked(graph, direction, e.parent, e.node.id, e.via)
  }

  ghost predicate Listed(result: seq<Entry>, a: Name) {
    exists e | e in result :: e.node.id == a
  }

  ghost predicate Collected(graph: ApplicationGraph, direction: Direction, start: Name, maxDepth: nat, visited: set<Name>, result: seq<Entry>) {
    && visited <= Ids(graph) + {start}
    && (forall e | e in result :: Sound(graph, direction, start, maxDepth, e))
    && (forall a | a in visited && a != start :: Listed(result, a))
  }

  /** Each entry stands as often as edges lead to its node from where it was reached. */
  ghost predicate CountedAt(graph: ApplicationGraph, direction: Direction, visited: set<Name>, result: seq<Entry>, e: Entry) {
    && e.node.id in visited
    && CountBy(result, ForEntry(e.node.id)) == CountBy(graph.edges, ForLink(direction, e.parent, e.node.id))
  }

  ghost predicate Counted(graph: ApplicationGraph, direction: Direction, visited: set<Name>, result: seq<Entry>) {
    forall e | e in result :: CountedAt(graph, direction, visited, result, e)
  }

  /** One entry more for each candidate. */
  ghost predicate Appends(candidates: seq<State>, result: seq<Entry>, result': seq<Entry>) {
    && (forall a :: CountBy(result', ForEntry(a)) == CountBy(result, ForEntry(a)) + CountBy(candidates, ForState(a)))
    && (forall e | e in result' :: e in result || exists s | s in candidates :: s.id == e.node.id && s.parent == e.parent)
  }

  lemma AppendsMore(candidates: seq<State>, s: State, result: seq<Entry>, result': seq<Entry>, e: Entry)
    requires Appends(candidates, result, result') && e.node.id == s.id && e.parent == s.parent
    ensures Appends(candidates + [s], result, result' + [e])
  {
    forall a ensures CountBy(result' + [e], ForEntry(a)) == CountBy(result, ForEntry(a)) + CountBy(candidates + [s], ForState(a)) {
      CountByMore(result', e, ForEntry(a));
      CountByMore(candidates, s, ForState(a));
    }
    assert s in candidates + [s] && forall x | x in candidates :: x in candidates + [s];
  }

  lemma CountedMore(graph: ApplicationGraph, direction: Direction, visited: set<Name>, visited': set<Name>, current: State,
                    candidates: seq<State>, result: seq<Entry>, result': seq<Entry>)
    requires Counted(graph, direction, visited, result) && visited' == visited + IdsOf(candidates) && Appends(candidates, result, result')
    requires forall s | s in candidates :: s.id !in visited && s.parent == current.id
    requires forall b | b !in visited :: CountBy(candidates, ForState(b)) == CountBy(graph.edges, ForLink(direction, current.id, b))
    ensures Counted(graph, direction, visited', result')
  {
    forall e | e in result' ensures CountedAt(graph, direction, visited', result', e) {
      if e in result {
        assert CountedAt(graph, direction, visited, result, e);
        CountByNone(candidates, ForState(e.node.id));
      } else {
        var s :| s in candidates && s.id == e.node.id && s.parent == e.parent;
        forall x | x in result ensures x.node.id != s.id {
          assert CountedAt(graph, direction, visited, result, x);
        }
        CountByNone(result, ForEntry(s.id));
      }
    }
  }

  /** What the search reports: each node at a distance from 1 to the bound, and no other. */
  ghost predicate Reports(graph: ApplicationGraph, direction: Direction, start: Name, maxDepth: nat, result: seq<Entry>) {
    && (forall e | e in result :: Sound(graph, direction, start, maxDepth, e))
    && (forall a, d: nat | 1 <= d <= maxDepth && AtDistance(LinkGraph(graph, direction), start, a, d) :: Listed(result, a))
  }

  predicate EntryBefore(x: Entry, y: Entry) {
    if x.depth != y.depth then x.depth < y.depth else Before(x.node.id, y.node.id)
  }

  /** A state whose distance, origin and edge are all known. */
  ghost predicate Recordable(graph: ApplicationGraph, direction: Direction, start: Name, maxDepth: nat, s: State) {
    && s.id in Ids(graph) && 1 <= s.depth <= maxDepth && AtDistance(LinkGraph(graph, direction), start, s.id, s.depth)
    && AtDistance(LinkGraph(graph, direction), start, s.parent, s.depth - 1) && Linked(graph, direction, s.parent, s.id, s.via)
  }

  lemma StagedOn(queue: seq<State>, candidates: seq<State>)
    requires Staged(queue) && queue != [] && forall s | s in candidates :: s.depth == queue[0].depth + 1
    ensures Staged(queue[1..] + candidates)
    ensures forall s | s in queue :: s.depth >= queue[0].depth
  {
    assert queue == [queue[0]] + queue[1..];
    assert forall i | 0 <= i < |candidates| :: candidates[i] in candidates;
    assert forall i | 0 <= i < |queue| :: queue[i] in queue;
  }

  lemma CandidatesPlaced(graph: ApplicationGraph, direction: Direction, start: Name, maxDepth: nat, visited: set<Name>,
                         queue: seq<State>, current: State, candidates: seq<State>)
    requires Valid(graph) && current in queue && current.depth < maxDepth
    requires Explored(LinkGraph(graph, direction), start, maxDepth, visited, queue)
    requires forall s | s in queue :: s.depth >= current.depth
    requires forall s | s in candidates ::
      s.id !in visited && s.parent == current.id && s.depth == current.depth + 1 && Linked(graph, direction, current.id, s.id, s.via)
    ensures forall s | s in candidates :: Recordable(graph, direction, start, maxDepth, s)
  {
    LinkGraphEdges(graph, direction);
    forall s | s in candidates
      ensures Recordable(graph, direction, start, maxDepth, s)
    {
      FirstMet(LinkGraph(graph, direction), start, maxDepth, visited, queue, current, s.id);
    }
  }

  function IdsOf(states: seq<State>): set<Name> {
    set s | s in states :: s.id
  }

  /** Taking the head off the queue and its new neighbours on keeps the account. */
  lemma ExpandKeeps(g: Graph, start: Name, maxDepth: nat, visited: set<Name>, queue: seq<State>, candidates: seq<State>)
    requires queue != [] && queue[0].depth < maxDepth && Explored(g, start, maxDepth, visited, queue)
    requires forall s | s in candidates :: s.depth == queue[0].depth + 1 && AtDistance(g, start, s.id, s.depth)
    requires forall b | Edge(g, queue[0].id, b) :: b in visited || Queued(candidates, b)
    ensures Explored(g, start, maxDepth, visited + IdsOf(candidates), queue[1..] + candidates)
  {
    var more, rest := visited + IdsOf(candidates), queue[1..] + candidates;
    assert queue == [queue[0]] + queue[1..];
    forall a ensures Accounted(g, start, maxDepth, more, rest, a) {
      assert Accounted(g, start, maxDepth, visited, queue, a);
      assert Queued(queue, a) ==> a == queue[0].id || Queued(rest, a);
      assert Expanded(g, more, queue[0].id);
      assert Expanded(g, visited, a) ==> Expanded(g, more, a);
      assert forall s | s in candidates :: s in rest;
    }
  }

  /** A head at the bound is taken off and not expanded. */
  lemma SkipKeeps(g: Graph, start: Name, maxDepth: nat, visited: set<Name>, queue: seq<State>)
    requires queue != [] && queue[0].depth >= maxDepth && Explored(g, start, maxDepth, visited, queue)
    ensures Explored(g, start, maxDepth, visited, queue[1..])
  {
    assert queue == [queue[0]] + queue[1..] && queue[0] in queue;
    forall a ensures Accounted(g, start, maxDepth, visited, queue[1..], a) {
      assert Accounted(g, start, maxDepth, visited, queue, a);
      assert Queued(queue, a) ==> a == queue[0].id || Queued(queue[1..], a);
    }
  }

  lemma ListedMore(result: seq<Entry>, e: Entry)
    ensures forall a :: Listed(result + [e], a) <==> Listed(result, a) || a == e.node.id
  {
    assert e in result + [e];
  }

  lemma CollectedMore(graph: ApplicationGraph, direction: Direction, start: Name, maxDepth: nat, visited: set<Name>,
                      result: seq<Entry>, s: State, e: Entry)
    requires Collected(graph, direction, start, maxDepth, visited, result)
    requires Recordable(graph, direction, start, maxDepth, s) && e == Entry(e.node, s.depth, s.via, s.parent)
    requires e.node in graph.nodes && e.node.id == s.id
    ensures Collected(graph, direction, start, maxDepth, visited + {s.id}, result + [e])
  {
    ListedMore(result, e);
  }

  lemma IdsMore(candidates: seq<State>, i: nat)
    requires i < |candidates|
    ensures IdsOf(candidates[..i + 1]) == IdsOf(candidates[..i]) + {candidates[i].id}
    ensures candidates[..i + 1] == candidates[..i] + [candidates[i]]
  {
  }

  /** The loop over the candidates: marks and records each. */
  method Record(graph: ApplicationGraph, ghost direction: Direction, ghost start: Name, ghost maxDepth: nat, candidates: seq<State>,
                visited: set<Name>, queue: seq<State>, result: seq<Entry>)
    returns (visited': set<Name>, queue': seq<State>, result': seq<Entry>)
    requires Valid(graph) && Collected(graph, direction, start, maxDepth, visited, result)
    requires forall s | s in candidates :: Recordable(graph, direction, start, maxDepth, s)
    ensures visited' == visited + IdsOf(candidates) && queue' == queue + candidates
    ensures Collected(graph, direction, start, maxDepth, visited', result') && Appends(candidates, result, result')
  {
    visited', queue', result' := visited, queue, result;
    for i := 0 to |candidates|
      invariant visited' == visited + IdsOf(candidates[..i]) && queue' == queue + candidates[..i]
      invariant Collected(graph, direction, start, maxDepth, visited', result') && Appends(candidates[..i], result, result')
    {
      var candidate := candidates[i];
      assert candidate in candidates;
      IdsMore(candidates, i);
      var node := Find(graph, candidate.id);
      var entry := Entry(node, candidate.depth, candidate.via, candidate.parent);
      CollectedMore(graph, direction, start, maxDepth, visited', result', candidate, entry);
      AppendsMore(candidates[..i], candidate, result, result', entry);
      visited', result' := visited' + {candidate.id}, result' + [entry];
      queue' := queue' + [candidate];
    }
    assert candidates[..|candidates|] == candidates;
  }

  method Find(graph: ApplicationGraph, id: Name) returns (node: Item)
    requires id in Ids(graph)
    ensures node in graph.nodes && node.id == id
  {
    var i := 0;
    while graph.nodes[i].id != id
      invariant 0 <= i < |graph.nodes| && forall j | 0 <= j < i :: graph.nodes[j].id != id
      decreases |graph.nodes| - i
    {
      assert exists j | 0 <= j < |graph.nodes| :: graph.nodes[j].id == id;
      i := i + 1;
    }
    node := graph.nodes[i];
  }

  /** Expands the head of the queue, which is below the bound. */
  method Expand(graph: ApplicationGraph, direction: Direction, ghost start: Name, ghost maxDepth: nat,
                visited: set<Name>, queue: seq<State>, result: seq<Entry>)
    returns (visited': set<Name>, queue': seq<State>, result': seq<Entry>)
    requires Valid(graph) && queue != [] && queue[0].depth < maxDepth
    requires Explored(LinkGraph(graph, direction), start, maxDepth, visited, queue) && Staged(queue)
    requires Collected(graph, direction, start, maxDepth, visited, result) && Counted(graph, direction, visited, result)
    ensures Explored(LinkGraph(graph, direction), start, maxDepth, visited', queue') && Staged(queue')
    ensures Collected(graph, direction, start, maxDepth, visited', result') && Counted(graph, direction, visited', result')
    ensures visited <= visited' && (visited == visited' ==> queue' == queue[1..])
  {
    var current := queue[0];
    assert current in queue && queue == [current] + queue[1..];
    var candidates := Candidates(graph, direction, visited, current);
    LinkGraphEdges(graph, direction);
    StagedOn(queue, candidates);
    CandidatesPlaced(graph, direction, start, maxDepth, visited, queue, current, candidates);
    ExpandKeeps(LinkGraph(graph, direction), start, maxDepth, visited, queue, candidates);
    visited', queue', result' := Record(graph, direction, start, maxDepth, candidates, visited, queue[1..], result);
    CountedMore(graph, direction, visited, visited', current, candidates, result, result');
    if candidates != [] {
      assert candidates[0] in candidates && candidates[0].id in visited' && candidates[0].id !in visited;
    }
  }

  /** One turn of the search: the head of the queue is at the bound, or is expanded. */
  method Turn(graph: ApplicationGraph, direction: Direction, ghost start: Name, maxDepth: nat,
              visited: set<Name>, queue: seq<State>, result: seq<Entry>)
    returns (visited': set<Name>, queue': seq<State>, result': seq<Entry>)
    requires Valid(graph) && queue != []
    requires Explored(LinkGraph(graph, direction), start, maxDepth, visited, queue) && Staged(queue)
    requires Collected(graph, direction, start, maxDepth, visited, result) && Counted(graph, direction, visited, result)
    ensures Explored(LinkGraph(graph, direction), start, maxDepth, visited', queue') && Staged(queue')
    ensures Collected(graph, direction, start, maxDepth, visited', result') && Counted(graph, direction, visited', result')
    ensures visited <= visited' && (visited == visited' ==> queue' == queue[1..])
  {
    if queue[0].depth >= maxDepth {
      SkipKeeps(LinkGraph(graph, direction), start, maxDepth, visited, queue);
      StagedOn(queue, []);
      assert queue[1..] + [] == queue[1..];
      return visited, queue[1..], result;
    }
    visited', queue', result' := Expand(graph, direction, start, maxDepth, visited, queue, result);
  }

  /** When the queue is empty, everything within the bound is listed. */
  lemma Finished(graph: ApplicationGraph, direction: Direction, start: Name, maxDepth: nat, visited: set<Name>, result: seq<Entry>)
    requires Explored(LinkGraph(graph, direction), start, maxDepth, visited, [])
    requires Collected(graph, direction, start, maxDepth, visited, result)
    ensures Reports(graph, direction, start, maxDepth, result)
  {
    var g := LinkGraph(graph, direction);
    NoSteps(g, start, start);
    forall a, d: nat | 1 <= d <= maxDepth && AtDistance(g, start, a, d) ensures Listed(result, a) {
      NearVisited(g, start, maxDepth, visited, [], maxDepth, a, d);
      DistancesDiffer(g, start, a, d, start, 0);
    }
  }

  lemma BeginsExplored(g: Graph, start: Name, maxDepth: nat)
    ensures Explored(g, start, maxDepth, {start}, [State(start, "", 0, "")])
  {
    var queue := [State(start, "", 0, "")];
    NoSteps(g, start, start);
    assert queue[0] in queue && Queued(queue, start);
  }

  method Walk(graph: ApplicationGraph, start: Name, maxDepth: nat, direction: Direction) returns (result: seq<Entry>)
    requires Valid(graph)
    ensures Reports(graph, direction, start, maxDepth, result)
    ensures InOrder(EntryBefore, result) && PerEdge(graph, direction, result)
  {
    ghost var g := LinkGraph(graph, direction);
    var queue := [State(start, "", 0, "")];
    var visited := {start};
    result := [];
    BeginsExplored(g, start, maxDepth);
    while queue != []
      invariant Explored(g, start, maxDepth, visited, queue) && Staged(queue)
      invariant Collected(graph, direction, start, maxDepth, visited, result) && Counted(graph, direction, visited, result)
      decreases Ids(graph) + {start} - visited, |queue|
    {
      visited, queue, result := Turn(graph, direction, start, maxDepth, visited, queue, result);
    }
    Finished(graph, direction, start, maxDepth, visited, result);
    assert forall e | e in result :: CountedAt(graph, direction, visited, result, e);
    result := SortEntries(graph, direction, start, maxDepth, result);
  }

  /** A node stands once for each edge to it from the name it was reached from. */
  ghost predicate PerEdge(graph: ApplicationGraph, direction: Direction, result: seq<Entry>) {
    forall e | e in result :: CountBy(result, ForEntry(e.node.id)) == CountBy(graph.edges, ForLink(direction, e.parent, e.node.id))
  }

  method SortEntries(ghost graph: ApplicationGraph, ghost direction: Direction, ghost start: Name, ghost maxDepth: nat, entries: seq<Entry>)
    returns (result: seq<Entry>)
    requires Reports(graph, direction, start, maxDepth, entries) && PerEdge(graph, direction, entries)
    ensures Reports(graph, direction, start, maxDepth, result) && InOrder(EntryBefore, result) && PerEdge(graph, direction, result)
  {
    NamesCompare();
    SortBySorts(EntryBefore, entries);
    result := SortBy(EntryBefore, entries);
    forall e ensures e in result <==> e in entries {
      assert e in multiset(result) <==> e in multiset(entries);
    }
    assert forall a | Listed(entries, a) :: Listed(result, a);
    forall a ensures CountBy(result, ForEntry(a)) == CountBy(entries, ForEntry(a)) {
      CountBySorted(EntryBefore, entries, ForEntry(a));
    }
  }

  // ----- the report -----

  datatype Report = Report(target: Item, dependencies: seq<Entry>, dependents: seq<Entry>) | TargetNotFound

  function Bound(maxDepth: int): nat {
    if maxDepth <= 0 then 3 else maxDepth
  }

  /** The target is looked up by the trimmed id, and the search starts at the id as it was given. */
  ghost predicate Answers(graph: ApplicationGraph, id: Name, maxDepth: int, report: Report) {
    if Trim(id) in Ids(graph) then
      && report.Report? && report.target in graph.nodes && report.target.id == Trim(id)
      && Reports(graph, Dependencies, id, Bound(maxDepth), report.dependencies)
      && Reports(graph, Dependents, id, Bound(maxDepth), report.dependents)
      && PerEdge(graph, Dependencies, report.dependencies) && PerEdge(graph, Dependents, report.dependents)
      && InOrder(EntryBefore, report.dependencies) && InOrder(EntryBefore, report.dependents)
    else
      report.TargetNotFound?
  }

  method Impact(graph: ApplicationGraph, id: Name, maxDepth: int) returns (report: Report)
    requires Valid(graph)
    ensures Answers(graph, id, maxDepth, report)
  {
    if Trim(id) !in Ids(graph) {
      return TargetNotFound;
    }
    var target := Find(graph, Trim(id));
    var dependencies := Walk(graph, id, Bound(maxDepth), Dependencies);
    var dependents := Walk(graph, id, Bound(maxDepth), Dependents);
    report := Report(target, dependencies, dependents);
  }

  ghost predicate ListedAt(result: seq<Entry>, a: Name, d: nat) {
    exists e | e in result :: e.node.id == a && e.depth == d
  }

  /** The listed pairs are exactly the shortest distances within the bound. */
  lemma ListedExactly(graph: ApplicationGraph, direction: Direction, start: Name, maxDepth: nat, result: seq<Entry>, a: Name, d: nat)
    requires Reports(graph, direction, start, maxDepth, result)
    ensures ListedAt(result, a, d) <==> 1 <= d <= maxDepth && AtDistance(LinkGraph(graph, direction), start, a, d)
  {
    var g := LinkGraph(graph, direction);
    if 1 <= d <= maxDepth && AtDistance(g, start, a, d) {
      var e :| e in result && e.node.id == a;
      assert Sound(graph, direction, start, maxDepth, e);
      DistanceUnique(g, start, a, d, e.depth);
    }
  }

  /** A bound of zero or less lists exactly the distances from one to three; any other bound is used as it is. */
  lemma BoundExactly(graph: ApplicationGraph, id: Name, maxDepth: int, report: Report, a: Name, d: nat)
    requires Answers(graph, id, maxDepth, report) && report.Report?
    ensures maxDepth <= 0 ==>
              && (ListedAt(report.dependencies, a, d) <==> 1 <= d <= 3 && AtDistance(LinkGraph(graph, Dependencies), id, a, d))
              && (ListedAt(report.dependents, a, d) <==> 1 <= d <= 3 && AtDistance(LinkGraph(graph, Dependents), id, a, d))
    ensures maxDepth > 0 ==>
              && (ListedAt(report.dependencies, a, d) <==> 1 <= d <= maxDepth && AtDistance(LinkGraph(graph, Dependencies), id, a, d))
              && (ListedAt(report.dependents, a, d) <==> 1 <= d <= maxDepth && AtDistance(LinkGraph(graph, Dependents), id, a, d))
  {
    ListedExactly(graph, Dependencies, id, Bound(maxDepth), report.dependencies, a, d);
    ListedExactly(graph, Dependents, id, Bound(maxDepth), report.dependents, a, d);
  }

  lemma StepIsEdge(g: Graph, a: Name, b: Name)
    ensures AtDistance(g, a, b, 1) <==> b != a && Edge(g, a, b)
  {
    NoSteps(g, a, b);
    if b != a && Edge(g, a, b) {
      NeighbourAtOne(g, a, b);
    }
    if AtDistance(g, a, b, 1) {
      var c := LastStep(g, a, b, 0);
      NoSteps(g, a, c);
    }
  }

  /** At depth one stand the names at the other end of an edge from the target, and of one to it. */
  lemma NeighboursExactly(graph: ApplicationGraph, id: Name, maxDepth: int, report: Report, b: Name)
    requires Valid(graph) && Answers(graph, id, maxDepth, report) && report.Report?
    ensures ListedAt(report.dependencies, b, 1) <==> b != id && exists e | e in graph.edges :: e.from == id && e.to == b
    ensures ListedAt(report.dependents, b, 1) <==> b != id && exists e | e in graph.edges :: e.from == b && e.to == id
  {
    BoundExactly(graph, id, maxDepth, report, b, 1);
    StepIsEdge(LinkGraph(graph, Dependencies), id, b);
    StepIsEdge(LinkGraph(graph, Dependents), id, b);
    EdgesOnly(graph, Dependencies, id, b);
    EdgesOnly(graph, Dependents, id, b);
  }

  lemma EdgesOnly(graph: ApplicationGraph, direction: Direction, a: Name, b: Name)
    requires Valid(graph)
    ensures Edge(LinkGraph(graph, direction), a, b) <==> exists e | e in graph.edges :: Leads(e, direction, a, b)
  {
  }

  /** Nearer nodes come first, and nodes at one distance by id. */
  lemma ReportOrder(graph: ApplicationGraph, id: Name, maxDepth: int, report: Report, entries: seq<Entry>, i: nat, j: nat)
    requires report.Report? && Answers(graph, id, maxDepth, report) && (entries == report.dependencies || entries == report.dependents)
    requires i < j < |entries|
    ensures entries[i].depth <= entries[j].depth
    ensures entries[i].depth == entries[j].depth ==> !Before(entries[j].node.id, entries[i].node.id)
  {
    assert !EntryBefore(entries[j], entries[i]);
  }

  // ----- how often a node is listed -----

  ghost predicate Twice(result: seq<Entry>) {
    exists i, j | 0 <= i < j < |result| :: result[i].node.id == result[j].node.id
  }

  /** Two edges lead from one name to the same other one. */
  ghost predicate Parallel(graph: ApplicationGraph) {
    exists i, j | 0 <= i < j < |graph.edges| ::
      && graph.edges[i].from == graph.edges[j].from && graph.edges[i].to == graph.edges[j].to
      && graph.edges[i].from != graph.edges[i].to
  }

  /** A node is listed twice exactly when there is a choice of edges to it from where it was reached. */
  lemma TwiceExactly(graph: ApplicationGraph, direction: Direction, result: seq<Entry>)
    requires PerEdge(graph, direction, result)
    ensures Twice(result) <==> exists e | e in result :: CountBy(graph.edges, ForLink(direction, e.parent, e.node.id)) >= 2
  {
    if i, j :| 0 <= i < j < |result| && result[i].node.id == result[j].node.id {
      var kind := ForEntry(result[i].node.id);
      assert kind(result[i]) && kind(result[j]) && result[i] in result;
      CountByTwice(result, kind);
    }
    if e :| e in result && CountBy(graph.edges, ForLink(direction, e.parent, e.node.id)) >= 2 {
      var kind := ForEntry(e.node.id);
      CountByTwice(result, kind);
      var i, j :| 0 <= i < j < |result| && kind(result[i]) && kind(result[j]);
      assert result[i].node.id == result[j].node.id;
    }
  }

  lemma TwoWays(graph: ApplicationGraph, direction: Direction, a: Name, b: Name)
    requires CountBy(graph.edges, ForLink(direction, a, b)) >= 2 && a != b
    ensures Parallel(graph)
  {
    var kind := ForLink(direction, a, b);
    CountByTwice(graph.edges, kind);
    var k, l :| 0 <= k < l < |graph.edges| && kind(graph.edges[k]) && kind(graph.edges[l]);
    assert Leads(graph.edges[k], direction, a, b) && Leads(graph.edges[l], direction, a, b);
  }

  /** Where no two edges lead the same way between two names, no node is listed twice. */
  lemma OnceWithoutParallel(graph: ApplicationGraph, id: Name, maxDepth: int, report: Report)
    requires !Parallel(graph) && report.Report? && Answers(graph, id, maxDepth, report)
    ensures !Twice(report.dependencies) && !Twice(report.dependents)
  {
    OnceListed(graph, Dependencies, id, Bound(maxDepth), report.dependencies);
    OnceListed(graph, Dependents, id, Bound(maxDepth), report.dependents);
  }

  lemma OnceListed(graph: ApplicationGraph, direction: Direction, start: Name, maxDepth: nat, result: seq<Entry>)
    requires !Parallel(graph) && Reports(graph, direction, start, maxDepth, result) && PerEdge(graph, direction, result)
    ensures !Twice(result)
  {
    TwiceExactly(graph, direction, result);
    if e :| e in result && CountBy(graph.edges, ForLink(direction, e.parent, e.node.id)) >= 2 {
      ParentDiffers(graph, direction, start, maxDepth, e);
      TwoWays(graph, direction, e.parent, e.node.id);
    }
  }

  lemma ParentDiffers(graph: ApplicationGraph, direction: Direction, start: Name, maxDepth: nat, e: Entry)
    requires Sound(graph, direction, start, maxDepth, e)
    ensures e.parent != e.node.id
  {
    DistancesDiffer(LinkGraph(graph, direction), start, e.parent, e.depth - 1, e.node.id, e.depth);
  }

  /** Where two edges do, the report for the name they lead from lists the other one twice. */
  method TwiceWithParallel(graph: ApplicationGraph, i: nat, j: nat, maxDepth: int) returns (report: Report)
    requires Valid(graph) && i < j < |graph.edges| && graph.edges[i].from == graph.edges[j].from && graph.edges[i].to == graph.edges[j].to
    requires graph.edges[i].from != graph.edges[i].to && Trimmed(graph.edges[i].from)
    ensures Answers(graph, graph.edges[i].from, maxDepth, report) && report.Report? && Twice(report.dependencies)
  {
    report := Impact(graph, graph.edges[i].from, maxDepth);
    ParallelTwice(graph, i, j, maxDepth, report);
  }

  lemma ParallelTwice(graph: ApplicationGraph, i: nat, j: nat, maxDepth: int, report: Report)
    requires Valid(graph) && i < j < |graph.edges| && graph.edges[i].from == graph.edges[j].from && graph.edges[i].to == graph.edges[j].to
    requires graph.edges[i].from != graph.edges[i].to && report.Report? && Answers(graph, graph.edges[i].from, maxDepth, report)
    ensures Twice(report.dependencies)
  {
    var a, b := graph.edges[i].from, graph.edges[i].to;
    NeighboursExactly(graph, a, maxDepth, report, b);
    var e :| e in report.dependencies && e.node.id == b && e.depth == 1;
    assert Sound(graph, Dependencies, a, Bound(maxDepth), e);
    NoSteps(LinkGraph(graph, Dependencies), a, e.parent);
    var kind := ForLink(Dependencies, a, b);
    assert kind(graph.edges[i]) && kind(graph.edges[j]);
    CountByTwice(graph.edges, kind);
    CountByTwice(report.dependencies, ForEntry(b));
    var k, l :| 0 <= k < l < |report.dependencies| && ForEntry(b)(report.dependencies[k]) && ForEntry(b)(report.dependencies[l]);
    assert report.dependencies[k].node.id == report.dependencies[l].node.id;
  }

  /** `x` is a dependency of `y` at depth `d` exactly when `y` is a dependent of `x` at depth `d`. */
  lemma DependenciesMirrorDependents(graph: ApplicationGraph, x: Name, y: Name, maxDepth: int, ofX: Report, ofY: Report, d: nat)
    requires Valid(graph) && ofX.Report? && ofY.Report?
    requires Answers(graph, x, maxDepth, ofX) && Answers(graph, y, maxDepth, ofY)
    ensures ListedAt(ofY.dependencies, x, d) <==> ListedAt(ofX.dependents, y, d)
  {
    ListedExactly(graph, Dependencies, y, Bound(maxDepth), ofY.dependencies, x, d);
    ListedExactly(graph, Dependents, x, Bound(maxDepth), ofX.dependents, y, d);
    DirectionsOppose(graph);
    DistanceBack(LinkGraph(graph, Dependencies), LinkGraph(graph, Dependents), y, x, d);
  }

  // ----- ids with white space around them -----

  /** No edge leads to another name. */
  ghost predicate Alone(g: Graph, a: Name) {
    forall b | Edge(g, a, b) :: b == a
  }

  lemma {:induction false} AloneStays(g: Graph, a: Name, b: Name, n: nat)
    requires Alone(g, a) && InSteps(g, a, b, n)
    ensures b == a
    decreases n
  {
    if n == 0 {
      NoSteps(g, a, b);
    } else {
      var c := LastStep(g, a, b, n - 1);
      AloneStays(g, a, c, n - 1);
    }
  }

  lemma AloneReachesNothing(g: Graph, a: Name)
    requires Alone(g, a)
    ensures forall b, n: nat | n >= 1 :: !AtDistance(g, a, b, n)
  {
    forall b, n: nat | n >= 1 && InSteps(g, a, b, n) ensures InSteps(g, a, b, 0) {
      AloneStays(g, a, b, n);
      NoSteps(g, a, b);
    }
  }

  lemma NeighbourAtOne(g: Graph, a: Name, b: Name)
    requires Edge(g, a, b) && b != a
    ensures AtDistance(g, a, b, 1)
  {
    NoSteps(g, a, a);
    NoSteps(g, a, b);
    OneStepMore(g, a, a, b, 0);
  }

  /** Nothing is a right report exactly for a name without neighbours. */
  lemma NothingToReport(graph: ApplicationGraph, direction: Direction, start: Name, maxDepth: nat)
    requires maxDepth >= 1
    ensures Reports(graph, direction, start, maxDepth, []) <==> Alone(LinkGraph(graph, direction), start)
  {
    var g := LinkGraph(graph, direction);
    if Alone(g, start) {
      AloneReachesNothing(g, start);
    } else {
      var b :| Edge(g, start, b) && b != start;
      NeighbourAtOne(g, start, b);
      assert !Listed([], b);
    }
  }

  lemma AloneReport(graph: ApplicationGraph, direction: Direction, start: Name, maxDepth: nat, result: seq<Entry>)
    requires Alone(LinkGraph(graph, direction), start) && Reports(graph, direction, start, maxDepth, result)
    ensures result == []
  {
    assert result != [] ==> Sound(graph, direction, start, maxDepth, result[0]);
    AloneReachesNothing(LinkGraph(graph, direction), start);
  }

  /** The report says what its target depends on, and what depends on it. */
  ghost predicate AboutTarget(graph: ApplicationGraph, maxDepth: int, report: Report)
    requires report.Report?
  {
    && Reports(graph, Dependencies, report.target.id, Bound(maxDepth), report.dependencies)
    && Reports(graph, Dependents, report.target.id, Bound(maxDepth), report.dependents)
  }

  /**
   Where the ids of the nodes are trimmed, as the graph's builder makes them: a found target is
   reported rightly exactly when the id was given trimmed, or the target has no neighbours;
   otherwise nothing is reported at all.
   */
  lemma TrimmedExactly(graph: ApplicationGraph, id: Name, maxDepth: int, report: Report)
    requires forall n | n in Ids(graph) :: Trimmed(n)
    requires report.Report? && Answers(graph, id, maxDepth, report)
    ensures AboutTarget(graph, maxDepth, report) <==>
      || Trimmed(id)
      || (Alone(LinkGraph(graph, Dependencies), report.target.id) && Alone(LinkGraph(graph, Dependents), report.target.id))
    ensures !Trimmed(id) ==> report.dependencies == [] && report.dependents == []
  {
    if !Trimmed(id) {
      assert id !in Ids(graph);
      AloneReport(graph, Dependencies, id, Bound(maxDepth), report.dependencies);
      AloneReport(graph, Dependents, id, Bound(maxDepth), report.dependents);
      NothingToReport(graph, Dependencies, report.target.id, Bound(maxDepth));
      NothingToReport(graph, Dependents, report.target.id, Bound(maxDepth));
    }
  }

  const TWO_NODES := ApplicationGraph([Item("a", "module", "a"), Item("b", "module", "b")], [Link("a", "b", "needs")])

  lemma TwoNodes()
    ensures Valid(TWO_NODES) && Ids(TWO_NODES) == {"a", "b"} && Linked(TWO_NODES, Dependencies, "a", "b", "needs")
  {
    assert TWO_NODES.nodes[0] in TWO_NODES.nodes && TWO_NODES.nodes[1] in TWO_NODES.nodes && TWO_NODES.edges[0] in TWO_NODES.edges;
    assert Leads(TWO_NODES.edges[0], Dependencies, "a", "b");
  }

  lemma BlankTrimmed()
    ensures Trim(" a") == "a" && !Trimmed(" a") && Trimmed("a") && Trimmed("b")
  {
    assert " a"[1..] == "a" && Trim("a") == "a";
  }

  /** One blank is enough: the target is found, and the name it depends on is not listed. */
  method BlankHidesNeighbour(maxDepth: int) returns (report: Report)
    ensures Valid(TWO_NODES) && Linked(TWO_NODES, Dependencies, "a", "b", "needs")
    ensures Answers(TWO_NODES, " a", maxDepth, report) && report.Report? && report.target.id == "a" && report.dependencies == []
  {
    TwoNodes();
    BlankTrimmed();
    report := Impact(TWO_NODES, " a", maxDepth);
    TrimmedExactly(TWO_NODES, " a", maxDepth, report);
  }
}
