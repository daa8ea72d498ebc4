/** PathfindingAlgorithm: Dijkstra's algorithm over the loaded adjacency matrix,
    with the route rebuilt by following predecessors back from the destination. */
module Pathfinding {
  import opened JavaText
  import opened StationGraph
  import opened MetroData
  import opened DijkstraState

  /** The station indices that a route's names stand for. */
  function IndexPath(index: map<string, int>, route: seq<string>): (p: seq<nat>)
    requires forall k :: 0 <= k < |route| ==> route[k] in index && index[route[k]] >= 0
    ensures |p| == |route|
    ensures forall k :: 0 <= k < |route| ==> p[k] == index[route[k]]
  {
    seq(|route|, k requires 0 <= k < |route| => index[route[k]] as nat)
  }

  /** `cost` is the shortest travel time between the two named stations. */
  ghost predicate ShortestBetween(h: MetroDataHandler, from: string, to: string, cost: int)
    reads h, h.adjacencyMatrix
    requires h.Valid() && from in h.stationIndexMap && to in h.stationIndexMap
  {
    IsShortestCost(h.Graph(), h.stationIndexMap[from] as nat, h.stationIndexMap[to] as nat, cost)
  }

  /** The route names registered stations and, read through the registry, is a
      walk from `from` to `to` over direct connections that takes `cost` minutes. */
  ghost predicate RouteOf(h: MetroDataHandler, from: string, to: string, route: seq<string>, cost: int)
    reads h, h.adjacencyMatrix
    requires h.Valid() && from in h.stationIndexMap && to in h.stationIndexMap
  {
    (forall k :: 0 <= k < |route| ==> route[k] in h.stationIndexMap) &&
    IsPathBetween(h.Graph(), IndexPath(h.stationIndexMap, route),
      h.stationIndexMap[from] as nat, h.stationIndexMap[to] as nat) &&
    PathWeight(h.Graph(), IndexPath(h.stationIndexMap, route)) == cost
  }

  /** `pq.poll()`: the position of a queued station with the least current
      distance, the first such position when several tie. */
  method Poll(pq: seq<nat>, distances: array<int>) returns (i: nat)
    requires pq != [] && forall k :: 0 <= k < |pq| ==> pq[k] < distances.Length
    ensures i < |pq|
    ensures forall k :: 0 <= k < |pq| ==> distances[pq[i]] <= distances[pq[k]]
    ensures i == FirstLeast(distances[..], pq)
  {
    i := 0;
    var k := 1;
    while k < |pq|
      invariant 0 <= i < k <= |pq|
      invariant i == FirstLeast(distances[..], pq[..k])
    {
      assert pq[..k + 1][..k] == pq[..k];
      if distances[pq[k]] < distances[pq[i]] {
        i := k;
      }
      k := k + 1;
    }
    assert pq[..k] == pq;
  }

  /** One connection of the neighbour loop: when it leads from `current` to an
      unvisited station whose distance it lowers, the distance is lowered,
      `current` becomes that station's predecessor and the station is queued. */
  method RelaxEdge(graph: array2<int>, ghost w: Matrix, current: nat, neighbor: nat, distances: array<int>,
                   visited: array<bool>, predecessors: array<int>, pq: seq<nat>) returns (queue: seq<nat>)
    requires w == Entries(graph)
    requires graph.Length0 == graph.Length1 == distances.Length == visited.Length == predecessors.Length
    requires current < graph.Length0 && neighbor < graph.Length0 && distances != predecessors
    modifies distances, predecessors
    ensures Improves(w, current, old(distances[..]), visited[..], neighbor) ==>
      distances[..] == old(distances[..])[neighbor := old(distances[current]) + w[current][neighbor]] &&
      predecessors[..] == old(predecessors[..])[neighbor := current] && queue == pq + [neighbor]
    ensures !Improves(w, current, old(distances[..]), visited[..], neighbor) ==>
      distances[..] == old(distances[..]) && predecessors[..] == old(predecessors[..]) && queue == pq
  {
    queue := pq;
    if graph[current, neighbor] != INF && !visited[neighbor] {
      var newDist := distances[current] + graph[current, neighbor];
      if newDist < distances[neighbor] {
        distances[neighbor] := newDist;
        predecessors[neighbor] := current;
        queue := queue + [neighbor];
      }
    }
  }

  /** The neighbour loop of one visit: every direct connection from `current` to an
      unvisited station whose distance it lowers lowers it, makes `current` that
      station's predecessor and queues the station again. */
  method RelaxNeighbors(graph: array2<int>, ghost w: Matrix, current: nat, distances: array<int>, visited: array<bool>,
                        predecessors: array<int>, pq: seq<nat>) returns (queue: seq<nat>)
    requires w == Entries(graph)
    requires graph.Length0 == graph.Length1 == distances.Length == visited.Length == predecessors.Length
    requires current < graph.Length0 && visited[current] && distances != predecessors
    modifies distances, predecessors
    ensures distances[..] == RelaxDist(w, current, old(distances[..]), visited[..])
    ensures predecessors[..] == RelaxPred(w, current, old(distances[..]), visited[..], old(predecessors[..]))
    ensures queue == pq + Added(w, current, old(distances[..]), visited[..], graph.Length0)
  {
    ghost var dist := distances[..];
    ghost var pred := predecessors[..];
    ghost var vis := visited[..];
    var n := graph.Length0;
    queue := pq;
    var neighbor: nat := 0;
    while neighbor < n
      invariant 0 <= neighbor <= n
      invariant distances[..] == RelaxDistUpTo(w, current, dist, vis, neighbor)
      invariant predecessors[..] == RelaxPredUpTo(w, current, dist, vis, pred, neighbor)
      invariant queue == pq + Added(w, current, dist, vis, neighbor)
    {
      RelaxStep(w, current, dist, vis, pred, neighbor);
      queue := RelaxEdge(graph, w, current, neighbor, distances, visited, predecessors, queue);
      neighbor := neighbor + 1;
    }
    RelaxEnds(w, current, dist, vis, pred);
  }

  /** The arrays and the queue hold the search state `st`. */
  ghost predicate Holds(st: State, distances: array<int>, visited: array<bool>, predecessors: array<int>, pq: seq<nat>)
    reads distances, visited, predecessors
  {
    distances[..] == st.dist && visited[..] == st.visited && predecessors[..] == st.pred && pq == st.queue
  }

  /** The visit of a polled station not yet visited: mark it visited, then relax
      its connections; the arrays and the queue then hold the state Visit gives. */
  method VisitPolled(graph: array2<int>, ghost w: Matrix, current: nat, distances: array<int>, visited: array<bool>,
                     predecessors: array<int>, pq: seq<nat>, ghost st: State, ghost i: nat) returns (queue: seq<nat>)
    requires w == Entries(graph) && Square(w) && Shaped(w, st) && i < |st.queue| && st.queue[i] < |w|
    requires current == st.queue[i] && pq == Remove(st.queue, i) && graph.Length0 == graph.Length1
    requires distances.Length == graph.Length0 && visited.Length == graph.Length0 && predecessors.Length == graph.Length0
    requires distances != predecessors
    requires Holds(st, distances, visited, predecessors, st.queue)
    modifies distances, visited, predecessors
    ensures Holds(Visit(w, st, i), distances, visited, predecessors, queue)
  {
    visited[current] := true;
    queue := RelaxNeighbors(graph, w, current, distances, visited, predecessors, pq);
  }

  /** One pass of the search loop: poll the queued station of least distance, then
      drop it when already visited, or visit it and relax its connections. */
  method PollOnce(graph: array2<int>, ghost w: Matrix, start: nat, distances: array<int>, visited: array<bool>,
                  predecessors: array<int>, pq: seq<nat>, ghost st: State) returns (queue: seq<nat>, ghost next: State)
    requires w == Entries(graph) && Inv(w, start, st) && pq != []
    requires distances.Length == graph.Length0 && visited.Length == graph.Length0 && predecessors.Length == graph.Length0
    requires distances != predecessors
    requires Holds(st, distances, visited, predecessors, pq)
    modifies distances, visited, predecessors
    ensures Inv(w, start, next) && Holds(next, distances, visited, predecessors, queue)
    ensures next == PollStep(w, st, FirstLeast(st.dist, st.queue))
    ensures forall v :: 0 <= v < |w| ==> next.dist[v] <= st.dist[v]
    ensures forall v :: 0 <= v < |w| && st.visited[v] ==> next.visited[v] && next.dist[v] == st.dist[v]
    ensures Unvisited(next.visited) < Unvisited(st.visited) ||
      (Unvisited(next.visited) == Unvisited(st.visited) && |next.queue| < |st.queue|)
  {
    var i := Poll(pq, distances);
    assert i == FirstLeast(st.dist, st.queue);
    var current := pq[i];
    PollStepKeeps(w, start, st, i);
    next := PollStep(w, st, i);
    queue := Remove(pq, i);
    if !visited[current] {
      queue := VisitPolled(graph, w, current, distances, visited, predecessors, queue, st, i);
    }
  }

  /** The search's arrays and queue before the first poll: every distance INF but
      the start's 0, nothing visited, no predecessors, and the start queued. */
  method Initial(ghost w: Matrix, n: nat, start: nat)
    returns (distances: array<int>, visited: array<bool>, predecessors: array<int>, pq: seq<nat>)
    requires Square(w) && |w| == n && start < n
    ensures fresh(distances) && fresh(visited) && fresh(predecessors)
    ensures distances.Length == n && visited.Length == n && predecessors.Length == n
    ensures Holds(Start(w, start), distances, visited, predecessors, pq)
  {
    distances := new int[n](_ => INF);
    visited := new bool[n](_ => false);
    predecessors := new int[n](_ => -1);
    distances[start] := 0;
    pq := [start];
  }

  /** The search loop: distances from `start` to every station (INF for the
      unreachable ones) and the predecessor of each reached station, exactly as
      `SearchFrom` computes them. By SearchFromEnds every finite distance is the
      time of the walk the predecessors trace back to the start, and without
      negative times every distance is the shortest one. */
  method Dijkstra(graph: array2<int>, start: nat) returns (distances: array<int>, predecessors: array<int>, ghost rank: seq<nat>)
    requires graph.Length0 == graph.Length1 && start < graph.Length0
    ensures distances.Length == graph.Length0 && predecessors.Length == graph.Length0
    ensures distances[..] == SearchFrom(Entries(graph), start).dist
    ensures predecessors[..] == SearchFrom(Entries(graph), start).pred
    ensures rank == SearchFrom(Entries(graph), start).rank
  {
    ghost var w := Entries(graph);
    var n := graph.Length0;
    var visited, pq;
    distances, visited, predecessors, pq := Initial(w, n, start);
    ghost var st := Start(w, start);
    while pq != []
      invariant distances.Length == n && visited.Length == n && predecessors.Length == n
      invariant Inv(w, start, st) && Holds(st, distances, visited, predecessors, pq)
      invariant Run(w, start, st) == Run(w, start, Start(w, start))
      decreases Unvisited(st.visited), |st.queue|
    {
      RunPoll(w, start, st);
      pq, st := PollOnce(graph, w, start, distances, visited, predecessors, pq, st);
    }
    SearchEnd(w, start, st);
    rank := st.rank;
  }

  /** The names at the given indices. */
  function Named(names: seq<string>, p: seq<nat>): (r: seq<string>)
    requires forall k :: 0 <= k < |p| ==> p[k] < |names|
    ensures |r| == |p|
    ensures forall k :: 0 <= k < |p| ==> r[k] == names[p[k]]
  {
    seq(|p|, k requires 0 <= k < |p| => names[p[k]])
  }

  class PathfindingAlgorithm {
    const dataHandler: MetroDataHandler

    constructor(dataHandler: MetroDataHandler)
      ensures this.dataHandler == dataHandler
    {
      this.dataHandler := dataHandler;
    }

    /** The search both public methods run, on the handler's matrix. */
    method Search(ghost w: Matrix, start: nat) returns (distances: array<int>, predecessors: array<int>, ghost rank: seq<nat>)
      requires dataHandler.Valid() && w == dataHandler.Graph() && start < |w|
      ensures distances.Length == |w| && predecessors.Length == |w|
      ensures PredecessorTree(w, start, distances[..], predecessors[..], rank)
      ensures distances[..] == SearchFrom(w, start).dist
    {
      var graph := dataHandler.GetAdjacencyMatrix();
      distances, predecessors, rank := Dijkstra(graph, start);
      SearchFromEnds(w, start);
    }

    /** The time the search from `from` ends with at `to`, and INF when either name
        is not registered. */
    ghost function SearchCost(from: string, to: string): int
      reads dataHandler, dataHandler.adjacencyMatrix
      requires dataHandler.Valid()
    {
      if from !in dataHandler.stationIndexMap || to !in dataHandler.stationIndexMap then INF
      else SearchFrom(dataHandler.Graph(), dataHandler.stationIndexMap[from] as nat).dist[dataHandler.stationIndexMap[to]]
    }

    /** The two public methods agree on the time: both return the cost of the one
        deterministic search, whatever the matrix. */
    method CostsAgree(startStation: string, endStation: string) returns (cost: int, route: seq<string>, detailed: int)
      requires dataHandler.Valid()
      ensures cost == detailed
    {
      cost := CalculateShortestPath(startStation, endStation);
      route, detailed := CalculateShortestPathWithDetails(startStation, endStation);
    }

    /** What the search from the start's index leaves at the end's index: the
        time SearchCost names, at most INF, 0 from a station to itself, and without
        negative times the shortest time between the two names. */
    lemma SearchAt(startStation: string, endStation: string, dist: seq<int>)
      requires dataHandler.Valid()
      requires startStation in dataHandler.stationIndexMap && endStation in dataHandler.stationIndexMap
      requires dist == SearchFrom(dataHandler.Graph(), dataHandler.stationIndexMap[startStation] as nat).dist
      ensures SearchCost(startStation, endStation) == dist[dataHandler.stationIndexMap[endStation]] <= INF
      ensures startStation == endStation ==> dist[dataHandler.stationIndexMap[endStation]] == 0
      ensures NonNegative(dataHandler.Graph()) ==>
        ShortestBetween(dataHandler, startStation, endStation, dist[dataHandler.stationIndexMap[endStation]])
    {
      SearchFromEnds(dataHandler.Graph(), dataHandler.stationIndexMap[startStation] as nat);
    }

    /** The names of a walk's stations. */
    ghost function NamesOf(p: seq<nat>): (route: seq<string>)
      reads dataHandler, dataHandler.adjacencyMatrix
      requires dataHandler.Valid() && forall k :: 0 <= k < |p| ==> p[k] < |dataHandler.stations|
      ensures |route| == |p|
      ensures forall k :: 0 <= k < |p| ==> route[k] in dataHandler.stationIndexMap
      ensures IndexPath(dataHandler.stationIndexMap, route) == p
    {
      Named(dataHandler.stations, p)
    }

    /** The route rebuild: follow the predecessors back from `end`, naming each
        station by its index, then turn the list round. */
    method RouteTo(ghost w: Matrix, ghost dist: seq<int>, ghost rank: seq<nat>, start: nat, end: nat,
                   predecessors: array<int>) returns (route: seq<string>)
      requires PredecessorTree(w, start, dist, predecessors[..], rank) && |w| == |dataHandler.stations|
      requires end < |w| && dist[end] < INF
      ensures route == Named(dataHandler.stations, TreeRoute(w, start, dist, predecessors[..], rank, end))
    {
      ghost var pred := predecessors[..];
      ghost var tree := TreeRoute(w, start, dist, pred, rank, end);
      ghost var names := dataHandler.stations;
      var path: seq<string> := [];
      var at: int := end;
      while at != -1
        invariant |path| <= |tree|
        invariant forall k :: 0 <= k < |path| ==> path[k] == names[tree[|tree| - 1 - k]]
        invariant at == -1 ==> |path| == |tree|
        invariant at != -1 ==>
          0 <= at < |w| && dist[at] < INF && TreeRoute(w, start, dist, pred, rank, at) == tree[..|tree| - |path|]
        decreases if at == -1 then 0 else rank[at] + 1
      {
        TreeRouteBack(w, start, dist, pred, rank, at, tree, |tree| - |path|);
        var name := dataHandler.GetStationNameByIndex(at);
        path := path + [name.value];
        at := predecessors[at];
      }
      route := Reversed(path);
    }

    /** The rebuilt route of a reached station names the predecessor walk from the
        start, which takes the station's distance; from a station to itself it is
        that station alone. */
    lemma FoundRoute(startStation: string, endStation: string, dist: seq<int>, pred: seq<int>, rank: seq<nat>,
                     route: seq<string>)
      requires dataHandler.Valid()
      requires startStation in dataHandler.stationIndexMap && endStation in dataHandler.stationIndexMap
      requires PredecessorTree(dataHandler.Graph(), dataHandler.stationIndexMap[startStation] as nat, dist, pred, rank)
      requires dist[dataHandler.stationIndexMap[endStation]] < INF
      requires route == NamesOf(TreeRoute(dataHandler.Graph(), dataHandler.stationIndexMap[startStation] as nat,
        dist, pred, rank, dataHandler.stationIndexMap[endStation] as nat))
      ensures RouteOf(dataHandler, startStation, endStation, route, dist[dataHandler.stationIndexMap[endStation]])
      ensures startStation == endStation ==> route == [startStation] && dist[dataHandler.stationIndexMap[endStation]] == 0
    {
      var s := dataHandler.stationIndexMap[startStation] as nat;
      var tree := TreeRoute(dataHandler.Graph(), s, dist, pred, rank, s);
      TreeRouteBack(dataHandler.Graph(), s, dist, pred, rank, s, tree, |tree|);
      TreeRouteWalk(dataHandler.Graph(), s, dist, pred, rank, dataHandler.stationIndexMap[endStation] as nat);
    }

    /** calculateShortestPathWithDetails: the stations of a shortest route, in order
        from start to end, and its time; an empty route and INF when a name is not
        registered or the end cannot be reached. */
    method CalculateShortestPathWithDetails(startStation: string, endStation: string)
      returns (route: seq<string>, cost: int)
      requires dataHandler.Valid()
      ensures startStation !in dataHandler.stationIndexMap || endStation !in dataHandler.stationIndexMap ==>
        route == [] && cost == INF
      ensures startStation in dataHandler.stationIndexMap && endStation in dataHandler.stationIndexMap ==>
        cost <= INF &&
        (cost == INF ==> route == []) &&
        (cost < INF ==> RouteOf(dataHandler, startStation, endStation, route, cost)) &&
        (NonNegative(dataHandler.Graph()) ==> ShortestBetween(dataHandler, startStation, endStation, cost))
      ensures startStation == endStation && startStation in dataHandler.stationIndexMap ==>
        route == [startStation] && cost == 0
      ensures cost == SearchCost(startStation, endStation)
    {
      var stationIndexMap := dataHandler.GetStationIndexMap();
      var start := if startStation in stationIndexMap then stationIndexMap[startStation] else -1;
      var end := if endStation in stationIndexMap then stationIndexMap[endStation] else -1;
      if start == -1 || end == -1 {
        return [], INF;
      }
      ghost var w := dataHandler.Graph();
      var distances, predecessors, rank := Search(w, start);
      if distances[end] == INF {
        SearchAt(startStation, endStation, distances[..]);
        return [], INF;
      }
      route := RouteTo(w, distances[..], rank, start, end, predecessors);
      cost := distances[end];
      SearchAt(startStation, endStation, distances[..]);
      FoundRoute(startStation, endStation, distances[..], predecessors[..], rank, route);
    }

    /** calculateShortestPath: the same search, returning only the time. */
    method CalculateShortestPath(startStation: string, endStation: string) returns (cost: int)
      requires dataHandler.Valid()
      ensures startStation !in dataHandler.stationIndexMap || endStation !in dataHandler.stationIndexMap ==>
        cost == INF
      ensures startStation in dataHandler.stationIndexMap && endStation in dataHandler.stationIndexMap ==>
        cost <= INF &&
        (cost < INF ==> exists route :: RouteOf(dataHandler, startStation, endStation, route, cost)) &&
        (NonNegative(dataHandler.Graph()) ==> ShortestBetween(dataHandler, startStation, endStation, cost))
      ensures startStation == endStation && startStation in dataHandler.stationIndexMap ==> cost == 0
      ensures cost == SearchCost(startStation, endStation)
    {
      var stationIndexMap := dataHandler.GetStationIndexMap();
      var start := if startStation in stationIndexMap then stationIndexMap[startStation] else -1;
      var end := if endStation in stationIndexMap then stationIndexMap[endStation] else -1;
      if start == -1 || end == -1 {
        return INF;
      }
      ghost var w := dataHandler.Graph();
      var distances, predecessors, rank := Search(w, start);
      cost := distances[end];
      if cost < INF {
        ghost var route := NamesOf(TreeRoute(w, start, distances[..], predecessors[..], rank, end));
        FoundRoute(startStation, endStation, distances[..], predecessors[..], rank, route);
      }
      SearchAt(startStation, endStation, distances[..]);
    }
  }
}
