/** The traversal engine: breadth-first order of the steps reachable from the
    first Start node (`traverseWorkflow`, src/api/mockApi.ts:111-152). */
module Traversal {
  import opened WorkflowTypes

  /** The ids of the nodes, in list order. */
  function Ids(nodes: seq<Node>): (ids: seq<string>)
    ensures |ids| == |nodes|
    ensures forall i :: 0 <= i < |nodes| ==> ids[i] == nodes[i].id
  {
    seq(|nodes|, i requires 0 <= i < |nodes| => nodes[i].id)
  }

  /** `n` is the last node of the list with its id. */
  ghost predicate LastWithId(nodes: seq<Node>, n: Node) {
    exists i :: 0 <= i < |nodes| && nodes[i] == n && forall j :: i < j < |nodes| ==> nodes[j].id != n.id
  }

  /** `new Map(nodes.map(n => [n.id, n]))`: one entry per id, in which a later
      node with a repeated id replaces an earlier one. */
  function NodeIndex(nodes: seq<Node>): (index: map<string, Node>)
    ensures forall id :: id in index <==> id in Ids(nodes)
    ensures forall id :: id in index ==> index[id].id == id && index[id] in nodes
    decreases |nodes|
  {
    if |nodes| == 0 then map[]
    else
      var init := nodes[..|nodes| - 1];
      var last := nodes[|nodes| - 1];
      assert Ids(nodes) == Ids(init) + [last.id];
      assert forall n :: n in init ==> n in nodes;
      NodeIndex(init)[last.id := last]
  }

  /** When no later node shares its id, the index holds node `i` itself. */
  lemma {:induction false} NodeIndexLastWins(nodes: seq<Node>, i: nat)
    requires i < |nodes|
    requires forall j :: i < j < |nodes| ==> nodes[j].id != nodes[i].id
    ensures nodes[i].id in NodeIndex(nodes) && NodeIndex(nodes)[nodes[i].id] == nodes[i]
    decreases |nodes|
  {
    if i < |nodes| - 1 {
      var init := nodes[..|nodes| - 1];
      NodeIndexLastWins(init, i);
    }
  }

  /** The position of the last node with id `id`. */
  ghost function LastPositionOf(nodes: seq<Node>, id: string): (k: nat)
    requires exists i :: 0 <= i < |nodes| && nodes[i].id == id
    ensures k < |nodes| && nodes[k].id == id
    ensures forall j :: k < j < |nodes| ==> nodes[j].id != id
    decreases |nodes|
  {
    var init := nodes[..|nodes| - 1];
    if nodes[|nodes| - 1].id == id then |nodes| - 1
    else
      var i :| 0 <= i < |nodes| && nodes[i].id == id;
      assert init[i].id == id;
      LastPositionOf(init, id)
  }

  /** The entry under an id is the last node with that id. */
  lemma NodeIndexEntryIsLast(nodes: seq<Node>, id: string)
    requires id in Ids(nodes)
    ensures id in NodeIndex(nodes) && LastWithId(nodes, NodeIndex(nodes)[id])
  {
    var i :| 0 <= i < |nodes| && Ids(nodes)[i] == id;
    var k := LastPositionOf(nodes, id);
    NodeIndexLastWins(nodes, k);
  }

  /** Under each id the index holds exactly the last node with that id. */
  lemma NodeIndexHoldsLast(nodes: seq<Node>, n: Node)
    requires n.id in Ids(nodes)
    ensures n.id in NodeIndex(nodes)
    ensures NodeIndex(nodes)[n.id] == n <==> LastWithId(nodes, n)
  {
    NodeIndexEntryIsLast(nodes, n.id);
    if LastWithId(nodes, n) {
      var i :| 0 <= i < |nodes| && nodes[i] == n && forall j :: i < j < |nodes| ==> nodes[j].id != n.id;
      NodeIndexLastWins(nodes, i);
    }
  }

  /** Targets of the edges that leave `id`, in edge-list order. */
  function Targets(edges: seq<Edge>, id: string): seq<string>
    decreases |edges|
  {
    if |edges| == 0 then []
    else
      var e := edges[|edges| - 1];
      Targets(edges[..|edges| - 1], id) + (if e.source == id then [e.target] else [])
  }

  lemma {:induction false} TargetsAreEdges(edges: seq<Edge>, id: string, t: string)
    ensures t in Targets(edges, id) <==> Edge(id, t) in edges
    decreases |edges|
  {
    if |edges| > 0 {
      var init := edges[..|edges| - 1];
      TargetsAreEdges(init, id, t);
      assert edges == init + [edges[|edges| - 1]];
    }
  }

  /** `edgeMap.get(id) || []`. */
  function Successors(adj: map<string, seq<string>>, id: string): seq<string> {
    if id in adj then adj[id] else []
  }

  /** The adjacency list that the `edges.forEach` loop builds. */
  function Adjacency(edges: seq<Edge>): (adj: map<string, seq<string>>)
    ensures forall id :: Successors(adj, id) == Targets(edges, id)
    decreases |edges|
  {
    if |edges| == 0 then map[]
    else
      var e := edges[|edges| - 1];
      var adj := Adjacency(edges[..|edges| - 1]);
      adj[e.source := Successors(adj, e.source) + [e.target]]
  }

  /** Every id that some edge points at. */
  function EdgeTargets(edges: seq<Edge>): set<string> {
    set e | e in edges :: e.target
  }

  /** Every listed successor lies in `universe`. */
  ghost predicate Closed(adj: map<string, seq<string>>, universe: set<string>) {
    forall id, t :: t in Successors(adj, id) ==> t in universe
  }

  lemma AdjacencyClosed(edges: seq<Edge>, start: string)
    ensures Closed(Adjacency(edges), {start} + EdgeTargets(edges))
  {
    forall id, t | t in Successors(Adjacency(edges), id)
      ensures t in {start} + EdgeTargets(edges)
    {
      TargetsAreEdges(edges, id, t);
    }
  }

  /** `next` without the ids in `visited`, in order: what the inner `forEach` pushes. */
  function Unvisited(next: seq<string>, visited: set<string>): (r: seq<string>)
    ensures forall t :: t in r <==> t in next && t !in visited
    decreases |next|
  {
    if |next| == 0 then []
    else
      var init := next[..|next| - 1];
      var t := next[|next| - 1];
      assert next == init + [t];
      Unvisited(init, visited) + (if t in visited then [] else [t])
  }

  /** The `while (queue.length > 0)` loop as a recursion: pop the head, skip it
      if visited, else mark it visited, emit its node when the id is a node,
      and enqueue its unvisited successors. An id that is not a node is still
      marked visited and its edges are still followed. */
  function Explore(index: map<string, Node>, adj: map<string, seq<string>>,
                   queue: seq<string>, visited: set<string>, ghost universe: set<string>): seq<Node>
    requires Closed(adj, universe)
    requires forall q :: q in queue ==> q in universe
    decreases universe - visited, |queue|
  {
    if |queue| == 0 then []
    else
      var current := queue[0];
      if current in visited then
        Explore(index, adj, queue[1..], visited, universe)
      else
        var seen := visited + {current};
        var here := if current in index then [index[current]] else [];
        assert universe - seen < universe - visited;
        here + Explore(index, adj, queue[1..] + Unvisited(Successors(adj, current), seen), seen, universe)
  }

  /** The traversal: empty without a Start node, otherwise the exploration from
      the first Start node's id. */
  function Traverse(nodes: seq<Node>, edges: seq<Edge>): seq<Node> {
    match FirstOfKind(nodes, Start)
    case None => []
    case Some(start) =>
      AdjacencyClosed(edges, start.id);
      Explore(NodeIndex(nodes), Adjacency(edges), [start.id], {}, {start.id} + EdgeTargets(edges))
  }

  /** Popping an id that is already visited emits nothing. */
  lemma ExploreSkips(index: map<string, Node>, adj: map<string, seq<string>>,
                     queue: seq<string>, visited: set<string>, universe: set<string>)
    requires Closed(adj, universe)
    requires forall q :: q in queue ==> q in universe
    requires |queue| > 0 && queue[0] in visited
    ensures Explore(index, adj, queue, visited, universe) == Explore(index, adj, queue[1..], visited, universe)
  {
  }

  /** Popping an unvisited id emits its node, when it is one, ahead of what
      the rest of the queue and the id's unvisited successors give once it is visited. */
  lemma ExploreVisits(index: map<string, Node>, adj: map<string, seq<string>>,
                      queue: seq<string>, visited: set<string>, universe: set<string>)
    requires Closed(adj, universe)
    requires forall q :: q in queue ==> q in universe
    requires |queue| > 0 && queue[0] !in visited
    ensures forall q :: q in queue[1..] + Unvisited(Successors(adj, queue[0]), visited + {queue[0]}) ==> q in universe
    ensures Explore(index, adj, queue, visited, universe)
            == (if queue[0] in index then [index[queue[0]]] else [])
               + Explore(index, adj, queue[1..] + Unvisited(Successors(adj, queue[0]), visited + {queue[0]}),
                         visited + {queue[0]}, universe)
  {
  }

  /** `new Map(nodes.map(n => [n.id, n]))`, one node at a time. */
  method BuildNodeMap(nodes: seq<Node>) returns (nodeMap: map<string, Node>)
    ensures nodeMap == NodeIndex(nodes)
  {
    nodeMap := map[];
    var i := 0;
    while i < |nodes|
      invariant 0 <= i <= |nodes|
      invariant nodeMap == NodeIndex(nodes[..i])
    {
      assert nodes[..i + 1][..i] == nodes[..i];
      nodeMap := nodeMap[nodes[i].id := nodes[i]];
      i := i + 1;
    }
    assert nodes[..|nodes|] == nodes;
  }

  /** The `edges.forEach` loop: creates an empty list for a new source, then
      pushes the target onto the source's list. */
  method BuildEdgeMap(edges: seq<Edge>) returns (edgeMap: map<string, seq<string>>)
    ensures edgeMap == Adjacency(edges)
  {
    edgeMap := map[];
    var k := 0;
    while k < |edges|
      invariant 0 <= k <= |edges|
      invariant edgeMap == Adjacency(edges[..k])
    {
      assert edges[..k + 1][..k] == edges[..k];
      var e := edges[k];
      ghost var prev := edgeMap;
      if e.source !in edgeMap {
        edgeMap := edgeMap[e.source := []];
      }
      edgeMap := edgeMap[e.source := edgeMap[e.source] + [e.target]];
      assert edgeMap == prev[e.source := Successors(prev, e.source) + [e.target]];
      k := k + 1;
    }
    assert edges[..|edges|] == edges;
  }

  /** The inner `nextNodes.forEach`: pushes each successor not yet visited. */
  method EnqueueUnvisited(queue: seq<string>, nextNodes: seq<string>, visited: set<string>)
    returns (queue': seq<string>)
    ensures queue' == queue + Unvisited(nextNodes, visited)
  {
    queue' := queue;
    var j := 0;
    while j < |nextNodes|
      invariant 0 <= j <= |nextNodes|
      invariant queue' == queue + Unvisited(nextNodes[..j], visited)
    {
      assert nextNodes[..j + 1][..j] == nextNodes[..j];
      assert Unvisited(nextNodes[..j + 1], visited)
          == Unvisited(nextNodes[..j], visited) + (if nextNodes[j] in visited then [] else [nextNodes[j]]);
      if nextNodes[j] !in visited {
        queue' := queue' + [nextNodes[j]];
      }
      j := j + 1;
    }
    assert nextNodes[..|nextNodes|] == nextNodes;
  }

  /** Regrouping `emitted + found + rest` in the loop body of `TraverseWorkflow`. */
  lemma AppendAssociative<T>(a: seq<T>, b: seq<T>, c: seq<T>)
    ensures (a + b) + c == a + (b + c)
  {
  }

  /** `traverseWorkflow`: builds the node map and the adjacency list, then runs
      the breadth-first loop with a visited set and a FIFO queue. */
  method TraverseWorkflow(nodes: seq<Node>, edges: seq<Edge>) returns (result: seq<Node>)
    ensures result == Traverse(nodes, edges)
  {
    var nodeMap := BuildNodeMap(nodes);
    var edgeMap := BuildEdgeMap(edges);

    var startNode := FirstOfKind(nodes, Start);
    if startNode.None? {
      return [];
    }

    ghost var universe := {startNode.value.id} + EdgeTargets(edges);
    AdjacencyClosed(edges, startNode.value.id);
    var visited: set<string> := {};
    var queue := [startNode.value.id];
    result := [];
    assert Traverse(nodes, edges) == Explore(nodeMap, edgeMap, queue, visited, universe);
    while |queue| > 0
      invariant forall q :: q in queue ==> q in universe
      invariant result + Explore(nodeMap, edgeMap, queue, visited, universe) == Traverse(nodes, edges)
      decreases universe - visited, |queue|
    {
      var currentId := queue[0];
      ghost var popped := queue;
      queue := queue[1..];
      if currentId in visited {
        ExploreSkips(nodeMap, edgeMap, popped, visited, universe);
        continue;
      }
      ExploreVisits(nodeMap, edgeMap, popped, visited, universe);
      ghost var before := Explore(nodeMap, edgeMap, popped, visited, universe);
      visited := visited + {currentId};
      var found := if currentId in nodeMap then [nodeMap[currentId]] else [];
      ghost var emitted := result;
      result := result + found;
      var nextNodes := if currentId in edgeMap then edgeMap[currentId] else [];
      queue := EnqueueUnvisited(queue, nextNodes, visited);
      ghost var rest := Explore(nodeMap, edgeMap, queue, visited, universe);
      AppendAssociative(emitted, found, rest);
    }
  }

  // ---------------------------------------------------------------------------
  // What the traversal promises

  /** Index entries are keyed by their own ids. */
  ghost predicate WellKeyed(index: map<string, Node>) {
    forall id :: id in index ==> index[id].id == id
  }

  /** Each node of `r` is an index entry for an id outside `visited`, and no id occurs twice in `r`. */
  ghost predicate FreshEntries(index: map<string, Node>, r: seq<Node>, visited: set<string>) {
    && (forall k :: 0 <= k < |r| ==> r[k].id in index && index[r[k].id] == r[k] && r[k].id !in visited)
    && (forall k, l :: 0 <= k < l < |r| ==> r[k].id != r[l].id)
  }

  /** Each emitted node is an index entry for a not-yet-visited id, and no id is emitted twice. */
  lemma {:induction false} ExploreEmitsFreshEntries(index: map<string, Node>, adj: map<string, seq<string>>,
                                                    queue: seq<string>, visited: set<string>, universe: set<string>)
    requires Closed(adj, universe)
    requires forall q :: q in queue ==> q in universe
    requires WellKeyed(index)
    ensures FreshEntries(index, Explore(index, adj, queue, visited, universe), visited)
    decreases universe - visited, |queue|
  {
    if |queue| > 0 {
      var current := queue[0];
      if current in visited {
        ExploreEmitsFreshEntries(index, adj, queue[1..], visited, universe);
        assert Explore(index, adj, queue, visited, universe) == Explore(index, adj, queue[1..], visited, universe);
      } else {
        var seen := visited + {current};
        assert universe - seen < universe - visited;
        var next := queue[1..] + Unvisited(Successors(adj, current), seen);
        ExploreEmitsFreshEntries(index, adj, next, seen, universe);
        var rest := Explore(index, adj, next, seen, universe);
        var here := if current in index then [index[current]] else [];
        assert Explore(index, adj, queue, visited, universe) == here + rest;
        FreshEntriesPrepend(index, here, rest, visited, current);
      }
    }
  }

  /** Putting the entry of a newly visited id in front of fresh entries for
      the enlarged visited set gives fresh entries for the old one. */
  lemma FreshEntriesPrepend(index: map<string, Node>, here: seq<Node>, rest: seq<Node>,
                            visited: set<string>, current: string)
    requires WellKeyed(index) && current !in visited
    requires here == if current in index then [index[current]] else []
    requires FreshEntries(index, rest, visited + {current})
    ensures FreshEntries(index, here + rest, visited)
  {
    var r := here + rest;
    forall k | 0 <= k < |r|
      ensures r[k].id in index && index[r[k].id] == r[k] && r[k].id !in visited
    {
      if k >= |here| {
        assert r[k] == rest[k - |here|];
      }
    }
    forall k, l | 0 <= k < l < |r|
      ensures r[k].id != r[l].id
    {
      assert r[l] == rest[l - |here|];
      if k >= |here| {
        assert r[k] == rest[k - |here|];
      }
    }
  }

  /** A path of ids along edges of the list. */
  ghost predicate IsPath(edges: seq<Edge>, p: seq<string>) {
    |p| >= 1 && forall k :: 0 < k < |p| ==> Edge(p[k - 1], p[k]) in edges
  }

  ghost predicate Reachable(edges: seq<Edge>, from: string, to: string) {
    exists p :: IsPath(edges, p) && p[0] == from && p[|p| - 1] == to
  }

  lemma ReachableStep(edges: seq<Edge>, from: string, mid: string, to: string)
    requires Reachable(edges, from, mid) && Edge(mid, to) in edges
    ensures Reachable(edges, from, to)
  {
    var p :| IsPath(edges, p) && p[0] == from && p[|p| - 1] == mid;
    assert IsPath(edges, p + [to]);
  }

  /** Everything explored from reachable ids is reachable. */
  lemma {:induction false} ExploreReachable(edges: seq<Edge>, index: map<string, Node>, adj: map<string, seq<string>>,
                                            queue: seq<string>, visited: set<string>, universe: set<string>, from: string)
    requires Closed(adj, universe)
    requires forall q :: q in queue ==> q in universe
    requires WellKeyed(index)
    requires forall id :: Successors(adj, id) == Targets(edges, id)
    requires forall q :: q in queue ==> Reachable(edges, from, q)
    ensures forall n :: n in Explore(index, adj, queue, visited, universe) ==> Reachable(edges, from, n.id)
    decreases universe - visited, |queue|
  {
    if |queue| > 0 {
      var current := queue[0];
      if current in visited {
        ExploreSkips(index, adj, queue, visited, universe);
        ExploreReachable(edges, index, adj, queue[1..], visited, universe, from);
      } else {
        ExploreVisits(index, adj, queue, visited, universe);
        var seen := visited + {current};
        assert universe - seen < universe - visited;
        var next := queue[1..] + Unvisited(Successors(adj, current), seen);
        forall q | q in next ensures Reachable(edges, from, q) {
          if q !in queue[1..] {
            TargetsAreEdges(edges, current, q);
            ReachableStep(edges, from, current, q);
          }
        }
        ExploreReachable(edges, index, adj, next, seen, universe, from);
      }
    }
  }

  /** Every successor of a visited id is visited or still queued. */
  ghost predicate Frontier(adj: map<string, seq<string>>, queue: seq<string>, visited: set<string>) {
    forall v, t :: v in visited && t in Successors(adj, v) ==> t in visited || t in queue
  }

  /** Popping the head of the queue and, if it was unvisited, visiting it and
      enqueueing its unvisited successors keeps the frontier property. */
  lemma FrontierAfterPop(adj: map<string, seq<string>>, queue: seq<string>, visited: set<string>)
    requires |queue| > 0 && Frontier(adj, queue, visited)
    ensures queue[0] in visited ==> Frontier(adj, queue[1..], visited)
    ensures var seen := visited + {queue[0]};
            Frontier(adj, queue[1..] + Unvisited(Successors(adj, queue[0]), seen), seen)
  {
    assert queue == [queue[0]] + queue[1..];
  }

  /** A set closed under the edges contains everything reachable from its members. */
  lemma {:induction false} ClosedSetContainsPaths(edges: seq<Edge>, adj: map<string, seq<string>>, s: set<string>, p: seq<string>)
    requires forall id :: Successors(adj, id) == Targets(edges, id)
    requires forall v, t :: v in s && t in Successors(adj, v) ==> t in s
    requires IsPath(edges, p) && p[0] in s
    ensures p[|p| - 1] in s
    decreases |p|
  {
    if |p| > 1 {
      var init := p[..|p| - 1];
      assert IsPath(edges, init);
      ClosedSetContainsPaths(edges, adj, s, init);
      TargetsAreEdges(edges, p[|p| - 2], p[|p| - 1]);
    }
  }

  /** With nothing left in the queue, the visited set holds everything reachable from it. */
  lemma VisitedSetIsClosed(edges: seq<Edge>, adj: map<string, seq<string>>, visited: set<string>, x: string, t: string)
    requires forall id :: Successors(adj, id) == Targets(edges, id)
    requires Frontier(adj, [], visited)
    requires x in visited && Reachable(edges, x, t)
    ensures t in visited
  {
    var p :| IsPath(edges, p) && p[0] == x && p[|p| - 1] == t;
    ClosedSetContainsPaths(edges, adj, visited, p);
  }

  /** Every node reachable from a visited or queued id, and not yet visited, is emitted. */
  lemma {:induction false} ExploreComplete(edges: seq<Edge>, index: map<string, Node>, adj: map<string, seq<string>>,
                                           queue: seq<string>, visited: set<string>, universe: set<string>,
                                           x: string, t: string)
    requires Closed(adj, universe)
    requires forall q :: q in queue ==> q in universe
    requires forall id :: Successors(adj, id) == Targets(edges, id)
    requires Frontier(adj, queue, visited)
    requires x in visited || x in queue
    requires Reachable(edges, x, t) && t !in visited && t in index
    ensures index[t] in Explore(index, adj, queue, visited, universe)
    decreases universe - visited, |queue|
  {
    if |queue| == 0 {
      VisitedSetIsClosed(edges, adj, visited, x, t);
      assert false;
    } else {
      var current := queue[0];
      FrontierAfterPop(adj, queue, visited);
      if current in visited {
        ExploreSkips(index, adj, queue, visited, universe);
        ExploreComplete(edges, index, adj, queue[1..], visited, universe, x, t);
      } else {
        ExploreVisits(index, adj, queue, visited, universe);
        if current != t {
          var seen := visited + {current};
          assert universe - seen < universe - visited;
          var next := queue[1..] + Unvisited(Successors(adj, current), seen);
          assert x in seen || x in next;
          ExploreComplete(edges, index, adj, next, seen, universe, x, t);
        }
      }
    }
  }

  /** No Start node gives the empty traversal; otherwise the traversal begins
      with the node indexed under the first Start node's id, which is that
      Start node itself exactly when it is the last node with its id. */
  lemma TraverseBeginsAtStart(nodes: seq<Node>, edges: seq<Edge>)
    ensures FirstOfKind(nodes, Start).None? <==> Traverse(nodes, edges) == []
    ensures FirstOfKind(nodes, Start).Some? ==>
              Traverse(nodes, edges)[0] == NodeIndex(nodes)[FirstOfKind(nodes, Start).value.id]
    ensures FirstOfKind(nodes, Start).Some? ==>
              (Traverse(nodes, edges)[0] == FirstOfKind(nodes, Start).value
               <==> LastWithId(nodes, FirstOfKind(nodes, Start).value))
  {
    var s := FirstOfKind(nodes, Start);
    if s.Some? {
      var id := s.value.id;
      assert id in Ids(nodes);
      AdjacencyClosed(edges, id);
      var universe := {id} + EdgeTargets(edges);
      var index, adj, queue, none: set<string> := NodeIndex(nodes), Adjacency(edges), [id], {};
      var seen := none + {id};
      var next := queue[1..] + Unvisited(Successors(adj, id), seen);
      assert universe - seen < universe - none;
      assert Explore(index, adj, queue, none, universe) == [index[id]] + Explore(index, adj, next, seen, universe);
      NodeIndexHoldsLast(nodes, s.value);
    }
  }

  /** Every traversed step is a node of the list (so a dangling edge target
      never appears), and no node id appears twice. */
  lemma TraverseVisitsEachNodeOnce(nodes: seq<Node>, edges: seq<Edge>)
    ensures forall n :: n in Traverse(nodes, edges) ==> n in nodes
    ensures var r := Traverse(nodes, edges);
            forall k, l :: 0 <= k < l < |r| ==> r[k].id != r[l].id
  {
    var s := FirstOfKind(nodes, Start);
    if s.Some? {
      AdjacencyClosed(edges, s.value.id);
      ExploreEmitsFreshEntries(NodeIndex(nodes), Adjacency(edges), [s.value.id], {}, {s.value.id} + EdgeTargets(edges));
    }
  }

  /** A node id appears in the traversal exactly when it is a node's id and
      there is an edge path to it from the first Start node; the path may run
      through ids that are not nodes. */
  lemma TraverseIsReachableNodes(nodes: seq<Node>, edges: seq<Edge>, t: string)
    requires FirstOfKind(nodes, Start).Some?
    ensures (exists n :: n in Traverse(nodes, edges) && n.id == t)
            <==> t in Ids(nodes) && Reachable(edges, FirstOfKind(nodes, Start).value.id, t)
  {
    var start := FirstOfKind(nodes, Start).value.id;
    var index := NodeIndex(nodes);
    var adj := Adjacency(edges);
    var universe := {start} + EdgeTargets(edges);
    AdjacencyClosed(edges, start);
    var r := Explore(index, adj, [start], {}, universe);
    assert IsPath(edges, [start]);
    ExploreEmitsFreshEntries(index, adj, [start], {}, universe);
    ExploreReachable(edges, index, adj, [start], {}, universe, start);
    if t in Ids(nodes) && Reachable(edges, start, t) {
      ExploreComplete(edges, index, adj, [start], {}, universe, start, t);
      assert index[t] in r && index[t].id == t;
    }
  }

  /** A node with no edge path from the first Start node never appears. */
  lemma TraverseSkipsUnreachable(nodes: seq<Node>, edges: seq<Edge>, n: Node)
    requires FirstOfKind(nodes, Start).Some?
    requires !Reachable(edges, FirstOfKind(nodes, Start).value.id, n.id)
    ensures n !in Traverse(nodes, edges)
  {
    TraverseIsReachableNodes(nodes, edges, n.id);
  }
}
