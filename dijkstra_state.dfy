/** The state of PathfindingAlgorithm's search between two polls, as values: the
    distances, the visited flags, the predecessors and the queue of station
    indices (a lazily pruned priority queue: a station may sit in it more than
    once, and stale entries are skipped when polled), together with the ghost
    order in which stations were visited. The invariants it keeps, what one poll
    does to it, and what it says once the queue is empty. */
module DijkstraState {
  import opened JavaText
  import opened StationGraph

  datatype State = State(
    dist: seq<int>,
    visited: seq<bool>,
    pred: seq<int>,
    rank: seq<nat>,   // when each visited station was visited
    time: nat,        // how many stations have been visited
    queue: seq<nat>)

  predicate Shaped(w: Matrix, st: State) {
    Square(w) && |st.dist| == |w| && |st.visited| == |w| && |st.pred| == |w| && |st.rank| == |w|
  }

  /** The start keeps distance 0 and no predecessor, and is the first station polled. */
  predicate StartFixed(w: Matrix, s: nat, st: State)
    requires Shaped(w, st) && s < |w|
  {
    st.dist[s] == 0 && st.pred[s] == -1 && (!st.visited[s] ==> st.queue == [s])
  }

  /** No distance exceeds INF. */
  predicate Capped(w: Matrix, st: State)
    requires Shaped(w, st)
  {
    forall v :: 0 <= v < |w| ==> st.dist[v] <= INF
  }

  /** A visited station has a finite distance and was visited before now. */
  predicate Settled(w: Matrix, st: State)
    requires Shaped(w, st)
  {
    forall u :: 0 <= u < |w| && st.visited[u] ==> st.dist[u] < INF && st.rank[u] < st.time
  }

  /** A reached station other than the start was reached from a visited station over
      a direct connection, its distance is that station's plus the connection's
      time, and (once visited itself) it was visited after it. */
  predicate TreeEdge(w: Matrix, s: nat, st: State, v: nat)
    requires Shaped(w, st) && v < |w|
  {
    v != s && st.dist[v] < INF ==>
      0 <= st.pred[v] < |w| && st.visited[st.pred[v]] && w[st.pred[v]][v] != INF &&
      st.dist[v] == st.dist[st.pred[v]] + w[st.pred[v]][v] &&
      (st.visited[v] ==> st.rank[st.pred[v]] < st.rank[v])
  }

  predicate Tree(w: Matrix, s: nat, st: State)
    requires Shaped(w, st)
  {
    forall v: nat :: v < |w| ==> TreeEdge(w, s, st, v)
  }

  /** Queue entries are stations with a finite distance, and every reached station
      not yet visited is in the queue. */
  predicate Queued(w: Matrix, st: State)
    requires Shaped(w, st)
  {
    (forall k :: 0 <= k < |st.queue| ==> st.queue[k] < |w| && st.dist[st.queue[k]] < INF) &&
    (forall v: nat :: v < |w| && !st.visited[v] && st.dist[v] < INF ==> v in st.queue)
  }

  /** No visited station is farther than an unvisited one. */
  predicate Frontier(w: Matrix, st: State)
    requires Shaped(w, st)
  {
    forall u, v :: 0 <= u < |w| && 0 <= v < |w| && st.visited[u] && !st.visited[v] ==> st.dist[u] <= st.dist[v]
  }

  /** Every connection out of a visited station has been relaxed. */
  predicate RelaxedFrom(w: Matrix, st: State)
    requires Shaped(w, st)
  {
    forall u, v :: 0 <= u < |w| && 0 <= v < |w| && st.visited[u] && w[u][v] != INF ==>
      st.dist[v] <= st.dist[u] + w[u][v]
  }

  /** What the search loop keeps true. The last two hold only without negative times:
      with them the first station polled is settled for good. */
  predicate Inv(w: Matrix, s: nat, st: State) {
    Shaped(w, st) && s < |w| &&
    StartFixed(w, s, st) && Capped(w, st) && Settled(w, st) && Tree(w, s, st) && Queued(w, st) &&
    (NonNegative(w) ==> Frontier(w, st) && RelaxedFrom(w, st))
  }

  /** The search's state right after `pq.add(start)`. */
  function Start(w: Matrix, s: nat): (st: State)
    requires Square(w) && s < |w|
    ensures Inv(w, s, st)
  {
    State(seq(|w|, v => if v == s then 0 else INF), seq(|w|, v => false), seq(|w|, v => -1),
      seq(|w|, v => 0), 0, [s])
  }

  // ---------------------------------------------------------------- one poll

  /** Entry i has the least distance in the queue: what `pq.poll()` returns. */
  predicate IsLeast(st: State, i: nat)
    requires i < |st.queue| && forall k :: 0 <= k < |st.queue| ==> st.queue[k] < |st.dist|
  {
    forall k :: 0 <= k < |st.queue| ==> st.dist[st.queue[i]] <= st.dist[st.queue[k]]
  }

  /** The first queue position whose station has the least distance: the entry
      the poll takes. */
  function FirstLeast(dist: seq<int>, q: seq<nat>): (i: nat)
    requires q != [] && forall k :: 0 <= k < |q| ==> q[k] < |dist|
    ensures i < |q|
    ensures forall k :: 0 <= k < |q| ==> dist[q[i]] <= dist[q[k]]
    ensures forall k :: 0 <= k < i ==> dist[q[i]] < dist[q[k]]
  {
    if |q| == 1 then 0
    else
      var j := FirstLeast(dist, q[..|q| - 1]);
      if dist[q[|q| - 1]] < dist[q[j]] then |q| - 1 else j
  }

  function Remove(q: seq<nat>, i: nat): (r: seq<nat>)
    requires i < |q|
    ensures |r| == |q| - 1
    ensures forall x :: x in q && x != q[i] ==> x in r
    ensures forall x :: x in r ==> x in q
    ensures multiset(r) == multiset(q) - multiset{q[i]}
  {
    assert q == q[..i] + [q[i]] + q[i + 1..];
    q[..i] + q[i + 1..]
  }

  /** Whether visiting `cur` lowers the distance of `v`: a direct connection to an
      unvisited station whose distance through `cur` is smaller. */
  predicate Improves(w: Matrix, cur: nat, dist: seq<int>, visited: seq<bool>, v: nat)
    requires Square(w) && cur < |w| && v < |w| && |dist| == |w| && |visited| == |w|
  {
    w[cur][v] != INF && !visited[v] && dist[cur] + w[cur][v] < dist[v]
  }

  /** The stations below k whose distance visiting `cur` lowers, in index order: what
      the neighbour loop adds to the queue. */
  function Added(w: Matrix, cur: nat, dist: seq<int>, visited: seq<bool>, k: nat): seq<nat>
    requires Square(w) && cur < |w| && |dist| == |w| && |visited| == |w| && k <= |w|
  {
    if k == 0 then []
    else Added(w, cur, dist, visited, k - 1) + (if Improves(w, cur, dist, visited, k - 1) then [k - 1] else [])
  }

  /** The neighbour loop queues exactly the stations whose distance it lowers. */
  lemma {:induction false} AddedMembers(w: Matrix, cur: nat, dist: seq<int>, visited: seq<bool>, k: nat)
    requires Square(w) && cur < |w| && |dist| == |w| && |visited| == |w| && k <= |w|
    ensures forall j :: 0 <= j < |Added(w, cur, dist, visited, k)| ==>
      Added(w, cur, dist, visited, k)[j] < k && Improves(w, cur, dist, visited, Added(w, cur, dist, visited, k)[j])
    ensures forall v: nat :: v < k && Improves(w, cur, dist, visited, v) ==> v in Added(w, cur, dist, visited, k)
  {
    if k > 0 {
      AddedMembers(w, cur, dist, visited, k - 1);
    }
  }

  /** The distances after visiting `cur`: lowered wherever `cur` improves them. */
  function RelaxDist(w: Matrix, cur: nat, dist: seq<int>, visited: seq<bool>): (r: seq<int>)
    requires Square(w) && cur < |w| && |dist| == |w| && |visited| == |w|
    ensures |r| == |w|
  {
    seq(|w|, v requires 0 <= v < |w| =>
      if Improves(w, cur, dist, visited, v) then dist[cur] + w[cur][v] else dist[v])
  }

  /** The predecessors after visiting `cur`: `cur` wherever it improves the distance. */
  function RelaxPred(w: Matrix, cur: nat, dist: seq<int>, visited: seq<bool>, pred: seq<int>): (r: seq<int>)
    requires Square(w) && cur < |w| && |dist| == |w| && |visited| == |w| && |pred| == |w|
    ensures |r| == |w|
  {
    seq(|w|, v requires 0 <= v < |w| => if Improves(w, cur, dist, visited, v) then cur else pred[v])
  }

  /** The distances part way through the neighbour loop, once the stations below k
      have been looked at, one station at a time. */
  function RelaxDistUpTo(w: Matrix, cur: nat, dist: seq<int>, visited: seq<bool>, k: nat): (r: seq<int>)
    requires Square(w) && cur < |w| && |dist| == |w| && |visited| == |w| && k <= |w|
    ensures |r| == |w|
  {
    if k == 0 then dist
    else
      var r := RelaxDistUpTo(w, cur, dist, visited, k - 1);
      if Improves(w, cur, dist, visited, k - 1) then r[k - 1 := dist[cur] + w[cur][k - 1]] else r
  }

  /** The predecessors part way through the neighbour loop. */
  function RelaxPredUpTo(w: Matrix, cur: nat, dist: seq<int>, visited: seq<bool>, pred: seq<int>, k: nat): (r: seq<int>)
    requires Square(w) && cur < |w| && |dist| == |w| && |visited| == |w| && |pred| == |w| && k <= |w|
    ensures |r| == |w|
  {
    if k == 0 then pred
    else
      var r := RelaxPredUpTo(w, cur, dist, visited, pred, k - 1);
      if Improves(w, cur, dist, visited, k - 1) then r[k - 1 := cur] else r
  }

  /** Part way through, exactly the stations below k that `cur` improves have changed. */
  lemma {:induction false} RelaxUpToAt(w: Matrix, cur: nat, dist: seq<int>, visited: seq<bool>, pred: seq<int>, k: nat)
    requires Square(w) && cur < |w| && |dist| == |w| && |visited| == |w| && |pred| == |w| && k <= |w|
    ensures forall v :: 0 <= v < |w| ==>
      RelaxDistUpTo(w, cur, dist, visited, k)[v] ==
        (if v < k && Improves(w, cur, dist, visited, v) then dist[cur] + w[cur][v] else dist[v])
    ensures forall v :: 0 <= v < |w| ==>
      RelaxPredUpTo(w, cur, dist, visited, pred, k)[v] ==
        (if v < k && Improves(w, cur, dist, visited, v) then cur else pred[v])
  {
    if k > 0 {
      RelaxUpToAt(w, cur, dist, visited, pred, k - 1);
    }
  }

  /** Looking at station k in the neighbour loop of a visited `cur`: neither `cur`'s
      distance nor station k's has changed yet. */
  lemma RelaxStep(w: Matrix, cur: nat, dist: seq<int>, visited: seq<bool>, pred: seq<int>, k: nat)
    requires Square(w) && cur < |w| && |dist| == |w| && |visited| == |w| && |pred| == |w| && k < |w|
    requires visited[cur]
    ensures RelaxDistUpTo(w, cur, dist, visited, k)[cur] == dist[cur]
    ensures RelaxDistUpTo(w, cur, dist, visited, k)[k] == dist[k]
  {
    RelaxUpToAt(w, cur, dist, visited, pred, k);
  }

  /** After the whole loop the tables are the relaxed ones. */
  lemma RelaxEnds(w: Matrix, cur: nat, dist: seq<int>, visited: seq<bool>, pred: seq<int>)
    requires Square(w) && cur < |w| && |dist| == |w| && |visited| == |w| && |pred| == |w|
    ensures RelaxDistUpTo(w, cur, dist, visited, |w|) == RelaxDist(w, cur, dist, visited)
    ensures RelaxPredUpTo(w, cur, dist, visited, pred, |w|) == RelaxPred(w, cur, dist, visited, pred)
  {
    RelaxUpToAt(w, cur, dist, visited, pred, |w|);
  }

  /** Polling an entry that is already visited only drops it: the queue loses
      that one entry and nothing else changes. */
  function Skip(st: State, i: nat): (r: State)
    requires i < |st.queue|
    ensures r.dist == st.dist && r.visited == st.visited && r.pred == st.pred && r.rank == st.rank
    ensures |r.queue| == |st.queue| - 1 && multiset(r.queue) == multiset(st.queue) - multiset{st.queue[i]}
    ensures forall x :: x in st.queue && x != st.queue[i] ==> x in r.queue
  {
    st.(queue := Remove(st.queue, i))
  }

  /** Polling entry i, a station not yet visited: it becomes visited, and every
      connection from it to an unvisited station that lowers that station's
      distance does so, records it as predecessor and queues the station. */
  function Visit(w: Matrix, st: State, i: nat): (r: State)
    requires Shaped(w, st) && i < |st.queue| && st.queue[i] < |w|
    ensures Shaped(w, r) && r.visited == st.visited[st.queue[i] := true] && r.time == st.time + 1
    ensures forall v :: 0 <= v < |w| ==> r.dist[v] <= st.dist[v]
    ensures forall v :: 0 <= v < |w| && r.dist[v] != st.dist[v] ==>
      !st.visited[v] && v != st.queue[i] && r.pred[v] == st.queue[i] &&
      r.dist[v] == st.dist[st.queue[i]] + w[st.queue[i]][v] && v in r.queue
  {
    var cur := st.queue[i];
    var visited := st.visited[cur := true];
    AddedMembers(w, cur, st.dist, visited, |w|);
    State(
      RelaxDist(w, cur, st.dist, visited),
      visited,
      RelaxPred(w, cur, st.dist, visited, st.pred),
      st.rank[cur := st.time],
      st.time + 1,
      Remove(st.queue, i) + Added(w, cur, st.dist, visited, |w|))
  }

  // ---------------------------------------------------------------- 32-bit sums

  /** Java's `int` addition: the exact sum wrapped round into the 32-bit range. */
  function Add32(a: int, b: int): (r: int)
    ensures IntMin <= r <= IntMax
    ensures (a + b - r) % 0x1_0000_0000 == 0
    ensures IntMin <= a + b <= IntMax ==> r == a + b
  {
    var m := (a + b) % 0x1_0000_0000;
    if m > IntMax then m - 0x1_0000_0000 else m
  }

  /** The distances after visiting `cur` as lines 69-71 compute them, with
      `newDist` wrapped round to 32 bits. */
  function RelaxDistAsWritten(w: Matrix, cur: nat, dist: seq<int>, visited: seq<bool>): (r: seq<int>)
    requires Square(w) && cur < |w| && |dist| == |w| && |visited| == |w|
    ensures |r| == |w|
    ensures forall v :: 0 <= v < |w| && r[v] != dist[v] ==>
      w[cur][v] != INF && !visited[v] && r[v] < dist[v] && (dist[cur] + w[cur][v] - r[v]) % 0x1_0000_0000 == 0
  {
    seq(|w|, v requires 0 <= v < |w| =>
      var newDist := Add32(dist[cur], w[cur][v]);
      if w[cur][v] != INF && !visited[v] && newDist < dist[v] then newDist else dist[v])
  }

  /** Three stations in a row, 2147483646 and 5 minutes apart. */
  const Row3: Matrix := [[0, IntMax - 1, INF], [IntMax - 1, 0, 5], [INF, 5, 0]]

  /** On Row3, visiting the start reaches the middle station at 2147483646 minutes
      and queues it. */
  lemma FirstVisitOfRow3()
    ensures Visit(Row3, Start(Row3, 0), 0).dist == [0, IntMax - 1, INF]
    ensures Visit(Row3, Start(Row3, 0), 0).visited == [true, false, false]
    ensures Visit(Row3, Start(Row3, 0), 0).queue == [1]
  {
    var w := Row3;
    var st0 := Start(w, 0);
    assert st0.dist == [0, INF, INF] && st0.queue == [0];
    var v1 := st0.visited[0 := true];
    assert v1 == [true, false, false];
    assert !Improves(w, 0, st0.dist, v1, 0) && Improves(w, 0, st0.dist, v1, 1) && !Improves(w, 0, st0.dist, v1, 2);
    assert Added(w, 0, st0.dist, v1, 1) == [];
    assert Added(w, 0, st0.dist, v1, 1) == [];
    assert Added(w, 0, st0.dist, v1, 2) == [1];
    assert Added(w, 0, st0.dist, v1, 3) == [1];
    assert RelaxDist(w, 0, st0.dist, v1) == [0, IntMax - 1, INF];
  }

  /** Then visiting the middle station with 32-bit sums gives the far station a
      negative distance, although no time on Row3 is negative; the exact sums of
      the model leave it at INF, its shortest cost as far as `int` can tell. */
  lemma WrappedDistanceGoesNegative()
    ensures NonNegative(Row3)
    ensures var st := Visit(Row3, Start(Row3, 0), 0);
      st.queue == [1] && RelaxDistAsWritten(Row3, 1, st.dist, st.visited[1 := true])[2] < 0
    ensures var st := Visit(Row3, Start(Row3, 0), 0);
      Visit(Row3, st, 0).dist[2] == INF
  {
    FirstVisitOfRow3();
    assert Add32(IntMax - 1, 5) == IntMin + 3;
  }

  /** Four stations: A-B 1, A-C 8, A-D 9, B-C 6, B-D 1 and C-D 4 minutes. */
  const Diamond4: Matrix := [[0, 1, 8, 9], [1, 0, 6, 1], [8, 6, 0, 4], [9, 1, 4, 0]]

  /** On Diamond4 from A, visiting A queues B, C and D at 1, 8 and 9 minutes. (The
      matrix is a parameter so that the solver does not evaluate the search on the
      literal.) */
  lemma FirstVisitOfDiamond4(w: Matrix)
    requires w == Diamond4
    ensures Visit(w, Start(w, 0), 0).queue == [1, 2, 3]
    ensures Visit(w, Start(w, 0), 0).dist == [0, 1, 8, 9]
    ensures Visit(w, Start(w, 0), 0).visited == [true, false, false, false]
  {
    var st0 := Start(w, 0);
    assert st0.dist == [0, INF, INF, INF] && st0.queue == [0];
    var v1 := st0.visited[0 := true];
    assert v1 == [true, false, false, false];
    assert !Improves(w, 0, st0.dist, v1, 0);
    assert Improves(w, 0, st0.dist, v1, 1) && Improves(w, 0, st0.dist, v1, 2) && Improves(w, 0, st0.dist, v1, 3);
    assert Added(w, 0, st0.dist, v1, 1) == [];
    assert Added(w, 0, st0.dist, v1, 2) == [1];
    assert Added(w, 0, st0.dist, v1, 3) == [1, 2];
    assert Added(w, 0, st0.dist, v1, 4) == [1, 2, 3];
    assert RelaxDist(w, 0, st0.dist, v1) == [0, 1, 8, 9];
  }

  /** From B at 1 minute, with A and B visited, C improves to 7 and D to 2. */
  lemma RelaxFromBOfDiamond4(w: Matrix, dist: seq<int>, visited: seq<bool>)
    requires w == Diamond4 && dist == [0, 1, 8, 9] && visited == [true, true, false, false]
    ensures Added(w, 1, dist, visited, 4) == [2, 3]
    ensures RelaxDist(w, 1, dist, visited) == [0, 1, 7, 2]
  {
    assert !Improves(w, 1, dist, visited, 0) && !Improves(w, 1, dist, visited, 1);
    assert Improves(w, 1, dist, visited, 2) && Improves(w, 1, dist, visited, 3);
    assert Added(w, 1, dist, visited, 1) == [];
    assert Added(w, 1, dist, visited, 2) == [];
    assert Added(w, 1, dist, visited, 3) == [2];
  }

  /** Visiting B next lowers C to 7 and D to 2 and leaves the queue as C, D, C, D. */
  lemma SecondVisitOfDiamond4(w: Matrix, st1: State)
    requires w == Diamond4 && Shaped(w, st1)
    requires st1.queue == [1, 2, 3] && st1.dist == [0, 1, 8, 9] && st1.visited == [true, false, false, false]
    ensures Visit(w, st1, 0).queue == [2, 3, 2, 3]
    ensures Visit(w, st1, 0).dist == [0, 1, 7, 2]
    ensures Visit(w, st1, 0).visited == [true, true, false, false]
  {
    var v2 := st1.visited[1 := true];
    assert v2 == [true, true, false, false];
    assert Remove(st1.queue, 0) == [2, 3];
    RelaxFromBOfDiamond4(w, st1.dist, v2);
  }

  /** The walk A, B, D, C takes 6 minutes, so 7 is not the shortest time to C. */
  lemma Diamond4ShorterWalk(w: Matrix)
    requires w == Diamond4
    ensures NonNegative(w)
    ensures IsPathBetween(w, [0, 1, 3, 2], 0, 2) && PathWeight(w, [0, 1, 3, 2]) == 6
    ensures !IsShortestCost(w, 0, 2, 7)
  {
    var p: seq<nat> := [0, 1, 3, 2];
    assert IsPath(w, p[..3]) && IsPath(w, p[..2]) && IsPath(w, p[..1]);
    assert PathWeight(w, p[..2]) == 1;
    assert p[..3][..2] == p[..2] && p[..3][|p[..3]| - 2] == 1 && p[..3][|p[..3]| - 1] == 3;
    assert PathWeight(w, p[..3]) == 2;
    assert p[..3] == p[..|p| - 1];
    assert PathWeight(w, p) == 6;
  }

  /** In the queue C, D, C, D with C at 7 and D at 2 minutes, the first entry of
      least distance is entry 1, not the root. */
  lemma LeastBehindRoot(dist: seq<int>, q: seq<nat>)
    requires dist == [0, 1, 7, 2] && q == [2, 3, 2, 3]
    ensures FirstLeast(dist, q) == 1 && dist[q[1]] < dist[q[0]]
  {
    assert FirstLeast(dist, q[..1]) == 0;
    assert FirstLeast(dist, q[..2]) == 1;
    assert FirstLeast(dist, q[..3]) == 1;
  }

  /** The queue C, D, C, D that SecondVisitOfDiamond4 reaches is also the array of
      Java's binary heap at that moment: D was lowered in place and so never sifted
      up past C. Java's poll takes the root, entry 0, and settles C at 7 minutes,
      though D at 2 is less and the shortest time to C is 6. The model polls
      FirstLeast, entry 1. */
  lemma StaleRootSettledTooLong(w: Matrix, st: State)
    requires w == Diamond4 && Shaped(w, st)
    requires st.queue == [2, 3, 2, 3] && st.dist == [0, 1, 7, 2] && st.visited == [true, true, false, false]
    ensures FirstLeast(st.dist, st.queue) == 1 && st.dist[st.queue[1]] < st.dist[st.queue[0]]
    ensures Visit(w, st, 0).visited[2] && Visit(w, st, 0).dist[2] == 7
    ensures !IsShortestCost(w, 0, 2, Visit(w, st, 0).dist[2])
  {
    LeastBehindRoot(st.dist, st.queue);
    assert Visit(w, st, 0).dist[2] == 7;
    Diamond4ShorterWalk(w);
  }

  /** The search from A on Diamond4 reaches that state after two polls. */
  lemma StaleRootReached(w: Matrix)
    requires w == Diamond4
    ensures Visit(w, Start(w, 0), 0).queue == [1, 2, 3]
    ensures var st := Visit(w, Visit(w, Start(w, 0), 0), 0);
      st.queue == [2, 3, 2, 3] && st.dist == [0, 1, 7, 2] && st.visited == [true, true, false, false]
  {
    FirstVisitOfDiamond4(w);
    SecondVisitOfDiamond4(w, Visit(w, Start(w, 0), 0));
  }

  // ---------------------------------------------------------------- the invariant is kept

  lemma SkipKeeps(w: Matrix, s: nat, st: State, i: nat)
    requires Inv(w, s, st) && i < |st.queue| && st.visited[st.queue[i]]
    ensures Inv(w, s, Skip(st, i))
  {
    forall v: nat | v < |w| ensures TreeEdge(w, s, Skip(st, i), v) {
      assert TreeEdge(w, s, st, v);
    }
  }

  lemma VisitShape(w: Matrix, s: nat, st: State, i: nat)
    requires Inv(w, s, st) && i < |st.queue| && !st.visited[st.queue[i]]
    ensures Shaped(w, Visit(w, st, i))
    ensures StartFixed(w, s, Visit(w, st, i)) && Capped(w, Visit(w, st, i)) && Settled(w, Visit(w, st, i))
    ensures forall v :: 0 <= v < |w| ==> Visit(w, st, i).dist[v] <= st.dist[v]
    ensures forall v :: 0 <= v < |w| && Visit(w, st, i).visited[v] ==> Visit(w, st, i).dist[v] == st.dist[v]
  {
    var cur := st.queue[i];
    if !st.visited[s] {
      assert cur == s;
    }
  }

  lemma VisitTree(w: Matrix, s: nat, st: State, i: nat)
    requires Inv(w, s, st) && i < |st.queue| && !st.visited[st.queue[i]]
    ensures Shaped(w, Visit(w, st, i)) && Tree(w, s, Visit(w, st, i))
  {
    VisitShape(w, s, st, i);
    var cur := st.queue[i];
    var nx := Visit(w, st, i);
    forall v: nat | v < |w| ensures TreeEdge(w, s, nx, v) {
      assert TreeEdge(w, s, st, v);
      if v != s && nx.dist[v] < INF && !Improves(w, cur, st.dist, nx.visited, v) {
        var p := st.pred[v];
        assert nx.dist[p] == st.dist[p];
        if v == cur {
          assert st.rank[p] < st.time;
        }
      }
    }
  }

  /** After a visit every queued station is a station with a finite distance. */
  lemma VisitQueuedReached(w: Matrix, st: State, i: nat)
    requires Shaped(w, st) && Capped(w, st) && Queued(w, st) && i < |st.queue| && !st.visited[st.queue[i]]
    ensures Shaped(w, Visit(w, st, i))
    ensures forall k :: 0 <= k < |Visit(w, st, i).queue| ==>
      Visit(w, st, i).queue[k] < |w| && Visit(w, st, i).dist[Visit(w, st, i).queue[k]] < INF
  {
    var cur := st.queue[i];
    var nx := Visit(w, st, i);
    var rest := Remove(st.queue, i);
    var added := Added(w, cur, st.dist, nx.visited, |w|);
    AddedMembers(w, cur, st.dist, nx.visited, |w|);
    assert nx.queue == rest + added;
    forall k | 0 <= k < |nx.queue| ensures nx.queue[k] < |w| && nx.dist[nx.queue[k]] < INF {
      if k < |rest| {
        assert nx.queue[k] == rest[k] && rest[k] in st.queue;
        assert nx.dist[rest[k]] <= st.dist[rest[k]];
      } else {
        assert nx.queue[k] == added[k - |rest|];
      }
    }
  }

  /** After a visit every unvisited station with a finite distance is queued. */
  lemma VisitQueuedAll(w: Matrix, st: State, i: nat)
    requires Shaped(w, st) && Capped(w, st) && Queued(w, st) && i < |st.queue| && !st.visited[st.queue[i]]
    ensures Shaped(w, Visit(w, st, i))
    ensures forall v: nat :: v < |w| && !Visit(w, st, i).visited[v] && Visit(w, st, i).dist[v] < INF ==>
      v in Visit(w, st, i).queue
  {
    var cur := st.queue[i];
    var nx := Visit(w, st, i);
    var rest := Remove(st.queue, i);
    var added := Added(w, cur, st.dist, nx.visited, |w|);
    AddedMembers(w, cur, st.dist, nx.visited, |w|);
    assert nx.queue == rest + added;
    forall v: nat | v < |w| && !nx.visited[v] && nx.dist[v] < INF ensures v in nx.queue {
      if !Improves(w, cur, st.dist, nx.visited, v) {
        assert v in st.queue && v != cur;
        assert v in rest;
      } else {
        assert v in added;
      }
    }
  }

  lemma VisitQueued(w: Matrix, s: nat, st: State, i: nat)
    requires Inv(w, s, st) && i < |st.queue| && !st.visited[st.queue[i]]
    ensures Shaped(w, Visit(w, st, i)) && Queued(w, Visit(w, st, i))
  {
    VisitQueuedReached(w, st, i);
    VisitQueuedAll(w, st, i);
  }

  lemma VisitOptimal(w: Matrix, s: nat, st: State, i: nat)
    requires Inv(w, s, st) && i < |st.queue| && !st.visited[st.queue[i]]
    requires IsLeast(st, i) && NonNegative(w)
    ensures Shaped(w, Visit(w, st, i)) && Frontier(w, Visit(w, st, i)) && RelaxedFrom(w, Visit(w, st, i))
  {
    VisitShape(w, s, st, i);
    var cur := st.queue[i];
    var nx := Visit(w, st, i);
    // the polled station is no farther than any unvisited one
    forall v | 0 <= v < |w| && !st.visited[v] ensures st.dist[cur] <= st.dist[v] {
      if st.dist[v] < INF {
        var k :| 0 <= k < |st.queue| && st.queue[k] == v;
      }
    }
    forall u, v | 0 <= u < |w| && 0 <= v < |w| && nx.visited[u] && !nx.visited[v]
      ensures nx.dist[u] <= nx.dist[v]
    {
      assert nx.dist[u] <= st.dist[cur];
    }
    forall u, v | 0 <= u < |w| && 0 <= v < |w| && nx.visited[u] && w[u][v] != INF
      ensures nx.dist[v] <= nx.dist[u] + w[u][v]
    {
      if u == cur && nx.visited[v] && v != cur {
        assert st.dist[v] <= st.dist[cur];
      }
    }
  }

  /** Visiting the unvisited station of least distance keeps the invariant. */
  lemma VisitKeeps(w: Matrix, s: nat, st: State, i: nat)
    requires Inv(w, s, st) && i < |st.queue| && IsLeast(st, i) && !st.visited[st.queue[i]]
    ensures Inv(w, s, Visit(w, st, i))
  {
    VisitShape(w, s, st, i);
    VisitTree(w, s, st, i);
    VisitQueued(w, s, st, i);
    if NonNegative(w) {
      VisitOptimal(w, s, st, i);
    }
  }

  // ---------------------------------------------------------------- termination

  function Unvisited(visited: seq<bool>): nat {
    if visited == [] then 0
    else Unvisited(visited[..|visited| - 1]) + (if visited[|visited| - 1] then 0 else 1)
  }

  /** Visiting a station leaves one fewer to visit. */
  lemma {:induction false} UnvisitedMark(visited: seq<bool>, c: nat)
    requires c < |visited| && !visited[c]
    ensures Unvisited(visited[c := true]) == Unvisited(visited) - 1
  {
    var last := |visited| - 1;
    if c < last {
      UnvisitedMark(visited[..last], c);
      assert visited[c := true][..last] == visited[..last][c := true];
    } else {
      assert visited[c := true][..last] == visited[..last];
    }
  }

  /** One pass of the search loop on the polled entry i: `Skip` when its station
      is already visited, `Visit` otherwise. */
  function PollStep(w: Matrix, st: State, i: nat): State
    requires Shaped(w, st) && i < |st.queue| && st.queue[i] < |w|
  {
    if st.visited[st.queue[i]] then Skip(st, i) else Visit(w, st, i)
  }

  /** A pass on an entry of least distance keeps the invariant, only lowers
      distances, never touches a visited station's distance, and leaves fewer
      stations unvisited or else a shorter queue. */
  lemma PollStepKeeps(w: Matrix, s: nat, st: State, i: nat)
    requires Inv(w, s, st) && i < |st.queue| && IsLeast(st, i)
    ensures Inv(w, s, PollStep(w, st, i))
    ensures forall v :: 0 <= v < |w| ==> PollStep(w, st, i).dist[v] <= st.dist[v]
    ensures forall v :: 0 <= v < |w| && st.visited[v] ==>
      PollStep(w, st, i).visited[v] && PollStep(w, st, i).dist[v] == st.dist[v]
    ensures Unvisited(PollStep(w, st, i).visited) < Unvisited(st.visited) ||
      (Unvisited(PollStep(w, st, i).visited) == Unvisited(st.visited) && |PollStep(w, st, i).queue| < |st.queue|)
  {
    var cur := st.queue[i];
    if st.visited[cur] {
      SkipKeeps(w, s, st, i);
    } else {
      VisitKeeps(w, s, st, i);
      UnvisitedMark(st.visited, cur);
    }
  }

  /** The whole search from `st`: pass after pass on the first entry of least
      distance until the queue is empty. */
  function Run(w: Matrix, s: nat, st: State): State
    requires Inv(w, s, st)
    decreases Unvisited(st.visited), |st.queue|
  {
    if st.queue == [] then st
    else
      var i := FirstLeast(st.dist, st.queue);
      PollStepKeeps(w, s, st, i);
      Run(w, s, PollStep(w, st, i))
  }

  /** The search keeps its invariant to the end, where the queue is empty. */
  lemma {:induction false} RunEnds(w: Matrix, s: nat, st: State)
    requires Inv(w, s, st)
    ensures Inv(w, s, Run(w, s, st)) && Run(w, s, st).queue == []
    decreases Unvisited(st.visited), |st.queue|
  {
    if st.queue != [] {
      var i := FirstLeast(st.dist, st.queue);
      PollStepKeeps(w, s, st, i);
      RunEnds(w, s, PollStep(w, st, i));
    }
  }

  /** One pass of the whole search. */
  lemma RunPoll(w: Matrix, s: nat, st: State)
    requires Inv(w, s, st) && st.queue != []
    ensures Inv(w, s, PollStep(w, st, FirstLeast(st.dist, st.queue)))
    ensures Run(w, s, st) == Run(w, s, PollStep(w, st, FirstLeast(st.dist, st.queue)))
  {
    PollStepKeeps(w, s, st, FirstLeast(st.dist, st.queue));
  }

  /** The state the search from `s` ends in. */
  function SearchFrom(w: Matrix, s: nat): (r: State)
    requires Square(w) && s < |w|
    ensures Shaped(w, r)
  {
    RunEnds(w, s, Start(w, s));
    Run(w, s, Start(w, s))
  }

  /** Where the search ends, the predecessors form a tree over the matrix and,
      without negative times, every distance is the shortest one. */
  lemma SearchFromEnds(w: Matrix, s: nat)
    requires Square(w) && s < |w|
    ensures Shaped(w, SearchFrom(w, s))
    ensures PredecessorTree(w, s, SearchFrom(w, s).dist, SearchFrom(w, s).pred, SearchFrom(w, s).rank)
    ensures NonNegative(w) ==> forall t :: 0 <= t < |w| ==> IsShortestCost(w, s, t, SearchFrom(w, s).dist[t])
  {
    RunEnds(w, s, Start(w, s));
    SearchDone(w, s, SearchFrom(w, s));
  }

  /** With exact sums and no negative times, no distance the search ends with is
      negative. */
  lemma SearchNonNegative(w: Matrix, s: nat)
    requires Square(w) && s < |w| && NonNegative(w)
    ensures forall t :: 0 <= t < |w| ==> 0 <= SearchFrom(w, s).dist[t] <= INF
  {
    SearchFromEnds(w, s);
    ShortestCostsNonNegative(w, s, SearchFrom(w, s).dist);
  }

  /** A state with an empty queue that the search from the start runs into is
      where the search ends. */
  lemma SearchEnd(w: Matrix, s: nat, st: State)
    requires Inv(w, s, st) && st.queue == [] && Run(w, s, st) == Run(w, s, Start(w, s))
    ensures SearchFrom(w, s) == st
  {
  }

  // ---------------------------------------------------------------- the end state

  /** What the distances and predecessors say once the queue is empty: the start
      has distance 0 and no predecessor, and every other station with a finite
      distance has a predecessor with a finite distance, visited earlier, and a
      direct connection from it that accounts for the difference. */
  predicate PredecessorTree(w: Matrix, s: nat, dist: seq<int>, pred: seq<int>, rank: seq<nat>) {
    Square(w) && s < |w| && |dist| == |w| && |pred| == |w| && |rank| == |w| &&
    dist[s] == 0 && pred[s] == -1 &&
    (forall v :: 0 <= v < |w| ==> dist[v] <= INF) &&
    (forall v :: 0 <= v < |w| && v != s && dist[v] < INF ==>
      0 <= pred[v] < |w| && dist[pred[v]] < INF && w[pred[v]][v] != INF &&
      dist[v] == dist[pred[v]] + w[pred[v]][v] && rank[pred[v]] < rank[v])
  }

  /** The walk found by following predecessors back from `v` to the start. */
  ghost function TreeRoute(w: Matrix, s: nat, dist: seq<int>, pred: seq<int>, rank: seq<nat>, v: nat): (p: seq<nat>)
    requires PredecessorTree(w, s, dist, pred, rank) && v < |w| && dist[v] < INF
    ensures forall k :: 0 <= k < |p| ==> p[k] < |w|
    decreases rank[v]
  {
    if v == s then [s] else TreeRoute(w, s, dist, pred, rank, pred[v]) + [v]
  }

  /** The predecessor walk of a reached station runs from the start to it over
      direct connections and takes exactly its distance. */
  lemma {:induction false} TreeRouteWalk(w: Matrix, s: nat, dist: seq<int>, pred: seq<int>, rank: seq<nat>, v: nat)
    requires PredecessorTree(w, s, dist, pred, rank) && v < |w| && dist[v] < INF
    ensures IsPathBetween(w, TreeRoute(w, s, dist, pred, rank, v), s, v)
    ensures PathWeight(w, TreeRoute(w, s, dist, pred, rank, v)) == dist[v]
    decreases rank[v]
  {
    if v != s {
      var u := pred[v];
      TreeRouteWalk(w, s, dist, pred, rank, u);
      var p := TreeRoute(w, s, dist, pred, rank, v);
      assert p[..|p| - 1] == TreeRoute(w, s, dist, pred, rank, u);
    }
  }

  /** One step back along the predecessor walk: when the walk to `v` is the first m
      stations of `tree`, v is the m-th, and either v is the start (and m is 1) or
      the walk to v's predecessor is the first m - 1. */
  lemma TreeRouteBack(w: Matrix, s: nat, dist: seq<int>, pred: seq<int>, rank: seq<nat>, v: nat, tree: seq<nat>, m: nat)
    requires PredecessorTree(w, s, dist, pred, rank) && v < |w| && dist[v] < INF
    requires m <= |tree| && TreeRoute(w, s, dist, pred, rank, v) == tree[..m]
    ensures 1 <= m && tree[m - 1] == v
    ensures v == s ==> m == 1 && pred[v] == -1
    ensures v != s ==>
      0 <= pred[v] < |w| && dist[pred[v]] < INF && rank[pred[v]] < rank[v] &&
      TreeRoute(w, s, dist, pred, rank, pred[v]) == tree[..m - 1]
  {
    if v != s {
      assert tree[..m - 1] == tree[..m][..m - 1];
    }
  }

  /** With an empty queue, visited means reached, and the predecessors form a tree. */
  lemma Finished(w: Matrix, s: nat, st: State)
    requires Inv(w, s, st) && st.queue == []
    ensures forall v :: 0 <= v < |w| ==> (st.visited[v] <==> st.dist[v] < INF)
    ensures PredecessorTree(w, s, st.dist, st.pred, st.rank)
  {
    forall v | 0 <= v < |w| && v != s && st.dist[v] < INF
      ensures 0 <= st.pred[v] < |w| && st.dist[st.pred[v]] < INF && w[st.pred[v]][v] != INF &&
        st.dist[v] == st.dist[st.pred[v]] + w[st.pred[v]][v] && st.rank[st.pred[v]] < st.rank[v]
    {
      assert TreeEdge(w, s, st, v);
    }
  }

  /** Once every reached station is visited and every connection out of a visited
      station is relaxed, and no time is negative, no walk from the start is
      shorter than the distance of the station it ends at. */
  lemma {:induction false} LowerBound(w: Matrix, s: nat, st: State, p: seq<nat>)
    requires Shaped(w, st) && s < |w| && st.dist[s] == 0 && Capped(w, st) && NonNegative(w) && RelaxedFrom(w, st)
    requires forall v :: 0 <= v < |w| && !st.visited[v] ==> st.dist[v] == INF
    requires IsPath(w, p) && p[0] == s
    ensures st.dist[p[|p| - 1]] <= PathWeight(w, p)
  {
    if |p| > 1 {
      var q := p[..|p| - 1];
      assert IsPath(w, q);
      LowerBound(w, s, st, q);
      var u, t := p[|p| - 2], p[|p| - 1];
      assert q[|q| - 1] == u;
      if !st.visited[u] {
        assert w[u][t] >= 0;
      }
    }
  }

  /** Once the queue is empty every distance is a shortest cost: finite ones are
      the time of the predecessor walk, and without negative times no walk beats
      any of them. */
  lemma Shortest(w: Matrix, s: nat, st: State, t: nat)
    requires Inv(w, s, st) && st.queue == [] && t < |w|
    ensures st.dist[t] <= INF
    ensures st.dist[t] < INF ==> exists p :: IsPathBetween(w, p, s, t) && PathWeight(w, p) == st.dist[t]
    ensures NonNegative(w) ==> IsShortestCost(w, s, t, st.dist[t])
  {
    Finished(w, s, st);
    if st.dist[t] < INF {
      TreeRouteWalk(w, s, st.dist, st.pred, st.rank, t);
      var p := TreeRoute(w, s, st.dist, st.pred, st.rank, t);
      assert IsPathBetween(w, p, s, t) && PathWeight(w, p) == st.dist[t];
    }
    if NonNegative(w) {
      LowerBoundAll(w, s, st, t);
    }
  }

  /** LowerBound for every walk from the start to `t`. */
  lemma LowerBoundAll(w: Matrix, s: nat, st: State, t: nat)
    requires Shaped(w, st) && s < |w| && st.dist[s] == 0 && Capped(w, st) && NonNegative(w) && RelaxedFrom(w, st)
    requires forall v :: 0 <= v < |w| && !st.visited[v] ==> st.dist[v] == INF
    requires t < |w|
    ensures forall p :: IsPathBetween(w, p, s, t) ==> st.dist[t] <= PathWeight(w, p)
  {
    forall p | IsPathBetween(w, p, s, t) ensures st.dist[t] <= PathWeight(w, p) {
      LowerBound(w, s, st, p);
    }
  }

  /** Everything the search promises once its queue is empty. */
  lemma SearchDone(w: Matrix, s: nat, st: State)
    requires Inv(w, s, st) && st.queue == []
    ensures PredecessorTree(w, s, st.dist, st.pred, st.rank)
    ensures NonNegative(w) ==> forall t :: 0 <= t < |w| ==> IsShortestCost(w, s, t, st.dist[t])
  {
    Finished(w, s, st);
    forall t | 0 <= t < |w| ensures NonNegative(w) ==> IsShortestCost(w, s, t, st.dist[t]) {
      Shortest(w, s, st, t);
    }
  }
}
