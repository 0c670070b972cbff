/** The Edmonds-Karp maximum-flow engine: a breadth-first search for an
    augmenting path in the residual graph, and the loop that pushes the
    path's bottleneck along it until no augmenting path is left. The
    capacity matrix is a read-only input; the flow matrix, the parent
    table and the visited table are arrays updated in place. */
module EdmondsKarp {
  import opened Network
  import opened Cuts

  /** The rows of a two-dimensional array, as a matrix value. */
  ghost function Rows(a: array2<int>): (m: seq<seq<int>>)
    reads a
    ensures IsMatrix(m, a.Length0) || a.Length0 != a.Length1
    ensures |m| == a.Length0
    ensures forall i :: 0 <= i < a.Length0 ==> |m[i]| == a.Length1
    ensures forall i, j :: 0 <= i < a.Length0 && 0 <= j < a.Length1 ==> m[i][j] == a[i, j]
  {
    seq(a.Length0, i requires 0 <= i < a.Length0 reads a =>
      seq(a.Length1, j requires 0 <= j < a.Length1 reads a => a[i, j]))
  }

  /** The search tree recorded so far: every visited node other than the
      source has a visited parent one level shallower, across an edge of
      positive residual capacity; the source is visited at depth 0. */
  ghost predicate ParentTree(cap: seq<seq<int>>, F: seq<seq<int>>, source: nat,
                             parent: seq<int>, vis: seq<bool>, depth: seq<nat>)
  {
    SameShape(cap, F) && source < |cap| &&
    |parent| == |cap| && |vis| == |cap| && |depth| == |cap| &&
    vis[source] && depth[source] == 0 &&
    forall v :: 0 <= v < |cap| && vis[v] && v != source ==>
      0 <= parent[v] < |cap| && vis[parent[v]] && depth[v] == depth[parent[v]] + 1 &&
      Residual(cap, F, parent[v], v) > 0
  }

  /** The nodes met by following `parent` from v back to the source, in
      order from the source. */
  ghost function TreeChain(cap: seq<seq<int>>, F: seq<seq<int>>, source: nat,
                           parent: seq<int>, vis: seq<bool>, depth: seq<nat>, v: nat): seq<nat>
    requires ParentTree(cap, F, source, parent, vis, depth) && v < |cap| && vis[v]
    decreases depth[v]
  {
    if v == source then [v] else TreeChain(cap, F, source, parent, vis, depth, parent[v]) + [v]
  }

  /** Following `parent` back from a visited node v reaches the source after
      depth[v] steps, through distinct nodes joined by residual edges. */
  lemma {:induction false} TreeChainIsPath(cap: seq<seq<int>>, F: seq<seq<int>>, source: nat,
                                           parent: seq<int>, vis: seq<bool>, depth: seq<nat>, v: nat)
    requires ParentTree(cap, F, source, parent, vis, depth) && v < |cap| && vis[v]
    ensures var p := TreeChain(cap, F, source, parent, vis, depth, v);
      |p| == depth[v] + 1 && p[0] == source && Last(p) == v &&
      (forall k :: 0 <= k < |p| ==> p[k] < |cap| && depth[p[k]] == k) &&
      IsResidualPath(cap, F, p) && FollowsParents(parent, p)
    decreases depth[v]
  {
    if v != source {
      var u: nat := parent[v];
      TreeChainIsPath(cap, F, source, parent, vis, depth, u);
      var q := TreeChain(cap, F, source, parent, vis, depth, u);
      var p := q + [v];
      assert TreeChain(cap, F, source, parent, vis, depth, v) == p;
      forall k | 1 <= k < |p|
        ensures Residual(cap, F, p[k - 1], p[k]) > 0
      {
        if k < |q| {
          assert p[k - 1] == q[k - 1] && p[k] == q[k];
        }
      }
      forall k | 1 <= k < |p|
        ensures p[k] < |parent| && parent[p[k]] == p[k - 1]
      {
        if k < |q| {
          assert p[k - 1] == q[k - 1] && p[k] == q[k];
        }
      }
    }
  }

  /** Nodes are at different depths along a tree chain, so it is simple. */
  lemma ChainDistinct(p: seq<nat>, depth: seq<nat>)
    requires forall k :: 0 <= k < |p| ==> p[k] < |depth| && depth[p[k]] == k
    ensures Distinct(p)
  {
    forall i, j | 0 <= i < j < |p|
      ensures p[i] != p[j]
    {
      assert depth[p[i]] == i && depth[p[j]] == j;
    }
  }

  /** Every node outside `pending` that is visited has all its residual
      successors visited. */
  ghost predicate ClosedOutside(cap: seq<seq<int>>, F: seq<seq<int>>, vis: seq<bool>, pending: seq<nat>)
    requires SameShape(cap, F) && |vis| == |cap|
  {
    forall u :: 0 <= u < |cap| && vis[u] && u !in pending ==> Closed(cap, F, vis, u)
  }

  /** The number of unvisited nodes. */
  ghost function Unvisited(vis: seq<bool>): nat {
    if |vis| == 0 then 0 else Unvisited(vis[..|vis| - 1]) + (if vis[|vis| - 1] then 0 else 1)
  }

  /** Marking an unvisited node leaves one fewer unvisited. */
  lemma {:induction false} MarkVisited(vis: seq<bool>, k: nat)
    requires k < |vis| && !vis[k]
    ensures Unvisited(vis[k := true]) == Unvisited(vis) - 1
    decreases |vis|
  {
    var vis' := vis[k := true];
    if k == |vis| - 1 {
      assert vis'[..|vis| - 1] == vis[..|vis| - 1];
    } else {
      assert vis'[..|vis| - 1] == vis[..|vis| - 1][k := true];
      MarkVisited(vis[..|vis| - 1], k);
    }
  }

  /** The state of a breadth-first search that started with parent table
      `parent0`: a search tree over the visited nodes, a queue of visited
      nodes, and `parent` unchanged at the source and at unvisited nodes. */
  ghost predicate SearchState(cap: seq<seq<int>>, F: seq<seq<int>>, source: nat, parent0: seq<int>,
                              parent: seq<int>, vis: seq<bool>, queue: seq<nat>, depth: seq<nat>)
  {
    ParentTree(cap, F, source, parent, vis, depth) && |parent0| == |cap| &&
    (forall i :: 0 <= i < |queue| ==> queue[i] < |cap| && vis[queue[i]]) &&
    (forall v :: 0 <= v < |cap| && (v == source || !vis[v]) ==> parent[v] == parent0[v])
  }

  /** Visiting `nb` from `current` keeps the search state. */
  lemma VisitKeepsState(cap: seq<seq<int>>, F: seq<seq<int>>, source: nat, parent0: seq<int>,
                        parent: seq<int>, vis: seq<bool>, queue: seq<nat>, depth: seq<nat>,
                        current: nat, nb: nat)
    requires SearchState(cap, F, source, parent0, parent, vis, queue, depth)
    requires current < |cap| && nb < |cap| && vis[current] && !vis[nb]
    requires Residual(cap, F, current, nb) > 0
    ensures SearchState(cap, F, source, parent0, parent[nb := current], vis[nb := true],
                        queue + [nb], depth[nb := depth[current] + 1])
    ensures Unvisited(vis[nb := true]) == Unvisited(vis) - 1
  {
    MarkVisited(vis, nb);
  }

  /** A visited node other than the source ends a simple augmenting path
      retraced by `parent`, with at most as many nodes as the graph. */
  lemma TreeChainAugments(cap: seq<seq<int>>, F: seq<seq<int>>, source: nat,
                          parent: seq<int>, vis: seq<bool>, depth: seq<nat>, t: nat)
    requires ParentTree(cap, F, source, parent, vis, depth)
    requires t < |cap| && t != source && vis[t]
    ensures var p := TreeChain(cap, F, source, parent, vis, depth, t);
      IsAugmentingPath(cap, F, source, t, p) && FollowsParents(parent, p) && |p| <= |cap|
  {
    var p := TreeChain(cap, F, source, parent, vis, depth, t);
    TreeChainIsPath(cap, F, source, parent, vis, depth, t);
    ChainDistinct(p, depth);
    DistinctBound(p, |cap|);
  }

  /** Visiting `nb` from `current` and enqueueing it keeps every visited
      node that is neither `current` nor queued closed. */
  lemma VisitKeepsClosed(cap: seq<seq<int>>, F: seq<seq<int>>, vis: seq<bool>,
                         current: nat, queue: seq<nat>, nb: nat)
    requires SameShape(cap, F) && |vis| == |cap| && nb < |cap|
    requires ClosedOutside(cap, F, vis, [current] + queue)
    ensures ClosedOutside(cap, F, vis[nb := true], [current] + (queue + [nb]))
  {
    var vis' := vis[nb := true];
    forall u | 0 <= u < |cap| && vis'[u] && u !in [current] + (queue + [nb])
      ensures Closed(cap, F, vis', u)
    {
      assert u != nb && vis[u] && u !in [current] + queue;
      assert Closed(cap, F, vis, u);
    }
  }

  /** Visiting `nb` from `current` across a residual edge, after every
      candidate below `nb` has been scanned: the search state holds whether
      or not `nb` is enqueued, the nodes off the queue stay closed, every
      candidate up to `nb` is scanned, and one node fewer is unvisited. */
  lemma VisitStep(cap: seq<seq<int>>, F: seq<seq<int>>, source: nat, parent0: seq<int>,
                  parent: seq<int>, vis: seq<bool>, queue: seq<nat>, depth: seq<nat>,
                  current: nat, nb: nat)
    requires SearchState(cap, F, source, parent0, parent, vis, queue, depth)
    requires current < |cap| && nb < |cap| && vis[current] && !vis[nb]
    requires Residual(cap, F, current, nb) > 0
    requires ClosedOutside(cap, F, vis, [current] + queue) && ScannedBelow(cap, F, vis, current, nb)
    ensures var parent', vis', depth' := parent[nb := current], vis[nb := true], depth[nb := depth[current] + 1];
      SearchState(cap, F, source, parent0, parent', vis', queue, depth') &&
      SearchState(cap, F, source, parent0, parent', vis', queue + [nb], depth') &&
      ClosedOutside(cap, F, vis', [current] + (queue + [nb])) &&
      ScannedBelow(cap, F, vis', current, nb + 1) &&
      Unvisited(vis') == Unvisited(vis) - 1
  {
    VisitKeepsState(cap, F, source, parent0, parent, vis, queue, depth, current, nb);
    VisitKeepsClosed(cap, F, vis, current, queue, nb);
  }

  /** Passing over a candidate that is visited or has no residual capacity
      extends the scanned range by one. */
  lemma SkipStep(cap: seq<seq<int>>, F: seq<seq<int>>, vis: seq<bool>, u: nat, k: nat)
    requires SameShape(cap, F) && |vis| == |cap| && u < |cap| && k < |cap|
    requires ScannedBelow(cap, F, vis, u, k)
    requires vis[k] || Residual(cap, F, u, k) <= 0
    ensures ScannedBelow(cap, F, vis, u, k + 1)
  {
  }

  /** What one scan of `current`'s candidate successors did, comparing the
      tables before (`parent0`, `vis0`) and after (`parent`, `vis`): the
      queue only grew at its end; nothing was unmarked; every node newly
      marked got `current` as its parent and was enqueued, except the sink
      when the scan stopped there (`reached`); every other parent entry is
      unchanged. */
  ghost predicate ScanRecord(n: nat, current: nat, sink: nat, reached: bool, queue: seq<nat>,
                             parent0: seq<int>, vis0: seq<bool>, parent: seq<int>, vis: seq<bool>,
                             queue': seq<nat>)
  {
    |parent0| == n && |vis0| == n && |parent| == n && |vis| == n &&
    |queue'| >= |queue| && queue'[..|queue|] == queue &&
    (forall v :: 0 <= v < n && vis0[v] ==> vis[v]) &&
    (forall v :: 0 <= v < n && vis[v] && !vis0[v] ==>
       parent[v] == current && (v in queue'[|queue|..] || (reached && v == sink))) &&
    (forall v :: 0 <= v < n && !(vis[v] && !vis0[v]) ==> parent[v] == parent0[v])
  }

  /** Marking `nb` with parent `current` extends the record, both when `nb`
      is then enqueued and when the scan stops at `nb` as the sink. */
  lemma RecordVisit(n: nat, current: nat, sink: nat, queue: seq<nat>, parent0: seq<int>, vis0: seq<bool>,
                    parent: seq<int>, vis: seq<bool>, queue': seq<nat>, nb: nat)
    requires ScanRecord(n, current, sink, false, queue, parent0, vis0, parent, vis, queue')
    requires nb < n && !vis[nb]
    ensures ScanRecord(n, current, sink, false, queue, parent0, vis0,
                       parent[nb := current], vis[nb := true], queue' + [nb])
    ensures ScanRecord(n, current, nb, true, queue, parent0, vis0,
                       parent[nb := current], vis[nb := true], queue')
  {
    var q := queue' + [nb];
    assert q[..|queue|] == queue'[..|queue|];
    assert q[|queue|..] == queue'[|queue|..] + [nb];
  }

  /** One round of the breadth-first search: scan every node as a possible
      successor of `current`, visiting (recording `current` as its parent)
      and enqueueing each unvisited one across a residual edge, and stop as
      soon as the sink is visited. */
  method ScanNeighbours(cap: seq<seq<int>>, flow: array2<int>, source: nat, sink: nat,
                        parent: array<int>, visited: array<bool>, current: nat, queue: seq<nat>,
                        ghost F: seq<seq<int>>, ghost parent0: seq<int>, ghost depth: seq<nat>)
      returns (reached: bool, queue': seq<nat>, ghost depth': seq<nat>)
    requires IsMatrix(cap, |cap|) && flow.Length0 == |cap| && flow.Length1 == |cap| && F == Rows(flow)
    requires sink < |cap| && current < |cap| && visited.Length == |cap|
    requires SearchState(cap, F, source, parent0, parent[..], visited[..], queue, depth)
    requires visited[current] && (sink != source ==> !visited[sink])
    requires ClosedOutside(cap, F, visited[..], [current] + queue)
    modifies parent, visited
    ensures SearchState(cap, F, source, parent0, parent[..], visited[..], queue', depth')
    ensures reached ==> sink != source && visited[sink]
    ensures !reached ==> (sink != source ==> !visited[sink]) && ClosedOutside(cap, F, visited[..], queue')
    ensures Unvisited(visited[..]) <= old(Unvisited(visited[..]))
    ensures !reached ==> |queue'| == |queue| + (old(Unvisited(visited[..])) - Unvisited(visited[..]))
    ensures ScanRecord(|cap|, current, sink, reached, queue, old(parent[..]), old(visited[..]),
                       parent[..], visited[..], queue')
    ensures !reached ==> Closed(cap, F, visited[..], current)
  {
    var n: nat := |cap|;
    ghost var unvisited0 := Unvisited(visited[..]);
    queue', depth' := queue, depth;
    ghost var P, V := parent[..], visited[..];
    ghost var P0, V0 := P, V;
    for neighbor: nat := 0 to n
      invariant parent[..] == P && visited[..] == V
      invariant ScanRecord(n, current, sink, false, queue, P0, V0, P, V, queue')
      invariant SearchState(cap, F, source, parent0, P, V, queue', depth')
      invariant V[current]
      invariant sink != source ==> !V[sink]
      invariant ClosedOutside(cap, F, V, [current] + queue')
      invariant ScannedBelow(cap, F, V, current, neighbor)
      invariant Unvisited(V) <= unvisited0
      invariant |queue'| == |queue| + (unvisited0 - Unvisited(V))
    {
      if !visited[neighbor] && cap[current][neighbor] - flow[current, neighbor] > 0 {
        VisitStep(cap, F, source, parent0, P, V, queue', depth', current, neighbor);
        RecordVisit(n, current, sink, queue, P0, V0, P, V, queue', neighbor);
        parent[neighbor] := current;
        visited[neighbor] := true;
        P, V := P[neighbor := current], V[neighbor := true];
        assert parent[..] == P && visited[..] == V;
        depth' := depth'[neighbor := depth'[current] + 1];
        if neighbor == sink {
          reached := true;
          return;
        }
        queue' := queue' + [neighbor];
      } else {
        SkipStep(cap, F, V, current, neighbor);
      }
    }
    reached := false;
    assert Closed(cap, F, V, current);
  }

  /** The search starts with only the source visited and queued. */
  lemma SearchStarts(cap: seq<seq<int>>, F: seq<seq<int>>, source: nat, parent: seq<int>, vis: seq<bool>)
    requires SameShape(cap, F) && source < |cap| && |parent| == |cap|
    requires vis == seq(|cap|, v => v == source)
    ensures SearchState(cap, F, source, parent, parent, vis, [source], seq(|cap|, v => 0))
    ensures ClosedOutside(cap, F, vis, [source])
  {
  }

  /** Taking the head off the queue keeps the search state, and the head is
      the one node allowed to be unclosed besides the rest of the queue. */
  lemma Dequeue(cap: seq<seq<int>>, F: seq<seq<int>>, source: nat, parent0: seq<int>,
                parent: seq<int>, vis: seq<bool>, queue: seq<nat>, depth: seq<nat>)
    requires SearchState(cap, F, source, parent0, parent, vis, queue, depth) && queue != []
    requires ClosedOutside(cap, F, vis, queue)
    ensures queue[0] < |cap| && vis[queue[0]]
    ensures SearchState(cap, F, source, parent0, parent, vis, queue[1..], depth)
    ensures ClosedOutside(cap, F, vis, [queue[0]] + queue[1..])
  {
    assert [queue[0]] + queue[1..] == queue;
  }

  /** When the queue runs dry without reaching the sink, every visited node
      is closed under residual edges, so no residual walk from the source
      reaches the sink. */
  lemma SearchExhausted(cap: seq<seq<int>>, F: seq<seq<int>>, source: nat, sink: nat, vis: seq<bool>)
    requires SameShape(cap, F) && |vis| == |cap| && source < |cap| && sink < |cap|
    requires vis[source] && !vis[sink] && ClosedOutside(cap, F, vis, [])
    ensures NoResidualPath(cap, F, source, sink)
  {
    forall p | IsResidualPath(cap, F, p) && p[0] == source
      ensures Last(p) != sink
    {
      ClosedSetTraps(cap, F, vis, p);
    }
  }

  /** Breadth-first search from `source` over edges with positive residual
      capacity. It reports whether `sink` was reached; if so, following
      `parent` back from the sink retraces a simple augmenting path (the ghost
      `path`), even though entries left over from earlier searches are never
      cleared. If not, no residual walk from the source reaches the sink. The
      only state it changes is `parent`, and only for nodes it newly reaches. */
  method Bfs(cap: seq<seq<int>>, flow: array2<int>, source: nat, sink: nat, parent: array<int>,
             ghost F: seq<seq<int>>)
      returns (found: bool, ghost path: seq<nat>)
    requires IsMatrix(cap, |cap|) && flow.Length0 == |cap| && flow.Length1 == |cap| && F == Rows(flow)
    requires parent.Length == |cap| && source < |cap| && sink < |cap|
    modifies parent
    ensures found ==> IsAugmentingPath(cap, F, source, sink, path)
    ensures found ==> FollowsParents(parent[..], path) && |path| <= |cap|
    ensures !found ==> source == sink || NoResidualPath(cap, F, source, sink)
    ensures parent[source] == old(parent[source])
    ensures forall v :: 0 <= v < |cap| && parent[v] != old(parent[v]) ==>
              0 <= parent[v] < |cap| && Residual(cap, F, parent[v], v) > 0
  {
    var n: nat := |cap|;
    ghost var parent0 := parent[..];
    var visited := new bool[n](_ => false);
    var queue: seq<nat> := [source];
    visited[source] := true;
    assert visited[..] == seq(n, v => v == source);
    ghost var depth: seq<nat> := seq(n, v => 0);
    SearchStarts(cap, F, source, parent0, visited[..]);
    found := false;
    while !found && queue != []
      invariant SearchState(cap, F, source, parent0, parent[..], visited[..], queue, depth)
      invariant found ==> sink != source && visited[sink]
      invariant !found ==> (sink != source ==> !visited[sink]) && ClosedOutside(cap, F, visited[..], queue)
      decreases !found, Unvisited(visited[..]), |queue|
    {
      var current: nat := queue[0];
      Dequeue(cap, F, source, parent0, parent[..], visited[..], queue, depth);
      found, queue, depth := ScanNeighbours(cap, flow, source, sink, parent, visited, current, queue[1..], F, parent0, depth);
    }
    if found {
      TreeChainAugments(cap, F, source, parent[..], visited[..], depth, sink);
      path := TreeChain(cap, F, source, parent[..], visited[..], depth, sink);
    } else {
      path := [];
      if sink != source {
        SearchExhausted(cap, F, source, sink, visited[..]);
      }
    }
  }

  /** Walk the parent chain back from the sink, taking the smallest residual
      capacity met. The running minimum starts out unbounded, so the first
      edge (the one into the sink) sets it. The result is the bottleneck of
      the augmenting path: at most every residual on it, equal to one of
      them, and strictly positive. */
  method PathFlow(cap: seq<seq<int>>, flow: array2<int>, parent: array<int>,
                  source: nat, sink: nat, ghost path: seq<nat>)
      returns (pathFlow: int)
    requires IsMatrix(cap, |cap|) && flow.Length0 == |cap| && flow.Length1 == |cap|
    requires parent.Length == |cap|
    requires IsAugmentingPath(cap, Rows(flow), source, sink, path) && FollowsParents(parent[..], path)
    ensures pathFlow == Bottleneck(cap, Rows(flow), path)
    ensures pathFlow > 0
    ensures forall k :: 1 <= k < |path| ==> pathFlow <= Residual(cap, Rows(flow), path[k - 1], path[k])
    ensures exists k :: 1 <= k < |path| && pathFlow == Residual(cap, Rows(flow), path[k - 1], path[k])
  {
    ghost var F := Rows(flow);
    ghost var i := |path| - 1;
    var unbounded := true;
    pathFlow := 0;
    var current: nat := sink;
    while current != source
      invariant 0 <= i < |path| && current == path[i]
      invariant unbounded <==> i == |path| - 1
      invariant !unbounded ==> pathFlow == Bottleneck(cap, F, path[i..])
      decreases i
    {
      assert i != 0 && parent[path[i]] == path[i - 1];
      var previous: nat := parent[current];
      var residual := cap[previous][current] - flow[previous, current];
      assert path[i - 1..][1..] == path[i..];
      pathFlow := if unbounded then residual else Min(pathFlow, residual);
      unbounded := false;
      current := previous;
      i := i - 1;
    }
    assert path[i] == path[0];
    assert path[0..] == path;
    BottleneckIsMinimum(cap, F, path);
  }

  /** Walk the parent chain back from the sink again, adding `pathFlow` to
      the flow on every edge of the path and subtracting it on the reverse
      edge. Afterwards the flow matrix is the old one augmented along the
      path. */
  method PushFlow(cap: seq<seq<int>>, flow: array2<int>, parent: array<int>,
                  source: nat, sink: nat, ghost path: seq<nat>, pathFlow: int)
    requires IsMatrix(cap, |cap|) && flow.Length0 == |cap| && flow.Length1 == |cap|
    requires parent.Length == |cap|
    requires IsAugmentingPath(cap, Rows(flow), source, sink, path) && FollowsParents(parent[..], path)
    modifies flow
    ensures Rows(flow) == Augment(old(Rows(flow)), |cap|, path, pathFlow)
  {
    var n: nat := |cap|;
    ghost var F := Rows(flow);
    ghost var i := |path| - 1;
    var current: nat := sink;
    while current != source
      invariant 0 <= i < |path| && current == path[i]
      invariant forall u, v :: 0 <= u < n && 0 <= v < n ==>
                  flow[u, v] == F[u][v] + Net(path[i..], u, v, pathFlow)
      decreases i
    {
      assert i != 0 && parent[path[i]] == path[i - 1];
      var previous: nat := parent[current];
      assert previous != current;
      label Before:
      flow[previous, current] := flow[previous, current] + pathFlow;
      flow[current, previous] := flow[current, previous] - pathFlow;
      forall u, v | 0 <= u < n && 0 <= v < n
        ensures flow[u, v] == F[u][v] + Net(path[i - 1..], u, v, pathFlow)
      {
        NetPeel(path, i - 1, u, v, pathFlow);
        if (u, v) != (previous, current) && (u, v) != (current, previous) {
          assert flow[u, v] == old@Before(flow[u, v]);
        }
      }
      current := previous;
      i := i - 1;
    }
    assert path[i] == path[0];
    assert path[0..] == path;
    MatrixExt(Rows(flow), Augment(F, n, path, pathFlow), n);
  }

  /** F is a flow of value `value` from source to sink, and that value is
      at most the capacity out of the source. */
  ghost predicate FlowOfValue(cap: seq<seq<int>>, F: seq<seq<int>>, source: nat, sink: nat, value: int)
    requires source < |cap| && sink < |cap|
  {
    IsFlow(cap, F, source, sink) && value == RowSum(F[source]) &&
    (source != sink ==> RowSum(F[sink]) == -value) &&
    0 <= value <= RowSum(cap[source])
  }

  /** One augmentation: find the bottleneck of the path the search left in
      `parent` and push it along the path. The flow stays a flow, and its
      value grows by the (positive) bottleneck. */
  method AugmentAlongPath(cap: seq<seq<int>>, flow: array2<int>, parent: array<int>,
                          source: nat, sink: nat, ghost path: seq<nat>, ghost value: int)
      returns (pathFlow: int)
    requires IsMatrix(cap, |cap|) && flow.Length0 == |cap| && flow.Length1 == |cap|
    requires parent.Length == |cap| && source < |cap| && sink < |cap|
    requires FlowOfValue(cap, Rows(flow), source, sink, value)
    requires IsAugmentingPath(cap, Rows(flow), source, sink, path) && FollowsParents(parent[..], path)
    modifies flow
    ensures pathFlow > 0 && pathFlow == Bottleneck(cap, old(Rows(flow)), path)
    ensures Rows(flow) == Augment(old(Rows(flow)), |cap|, path, pathFlow)
    ensures FlowOfValue(cap, Rows(flow), source, sink, value + pathFlow)
  {
    ghost var F := Rows(flow);
    pathFlow := PathFlow(cap, flow, parent, source, sink, path);
    AugmentKeepsFlow(cap, F, source, sink, path, pathFlow);
    PushFlow(cap, flow, parent, source, sink, path, pathFlow);
    FlowValueBounded(cap, Rows(flow), source, sink);
  }

  /** Edmonds-Karp: starting from the zero flow, repeatedly find an
      augmenting path by breadth-first search and push its bottleneck along
      it. The result is a flow within the capacities, conserved at every
      node but the source and the sink, whose value (the net outflow of the
      source) is the returned total, and which leaves no augmenting path.
      When the source is the sink, or the capacities admit no path at all,
      nothing is pushed. No flow is worth more than the one returned, and
      (when the source is not the sink) some cut has exactly its value as
      capacity. */
  method EdmondsKarp(cap: seq<seq<int>>, source: nat, sink: nat)
      returns (maxFlow: int, flow: array2<int>)
    requires IsMatrix(cap, |cap|) && NonNegative(cap)
    requires source < |cap| && sink < |cap|
    ensures fresh(flow)
    ensures flow.Length0 == |cap| && flow.Length1 == |cap|
    ensures IsFlow(cap, Rows(flow), source, sink)
    ensures maxFlow == RowSum(Rows(flow)[source])
    ensures source != sink ==> RowSum(Rows(flow)[sink]) == -maxFlow
    ensures 0 <= maxFlow <= RowSum(cap[source])
    ensures source != sink ==> NoResidualPath(cap, Rows(flow), source, sink)
    ensures source == sink ==> maxFlow == 0 && IsZero(Rows(flow))
    ensures NoResidualPath(cap, ZeroMatrix(|cap|), source, sink) ==> maxFlow == 0 && IsZero(Rows(flow))
    ensures forall G :: IsFlow(cap, G, source, sink) ==> RowSum(G[source]) <= maxFlow
    ensures source != sink ==> exists side :: IsCut(side, |cap|, source, sink) && Crossing(cap, side) == maxFlow
  {
    var n: nat := |cap|;
    flow := new int[n, n]((i, j) => 0);
    var parent := new int[n](i => -1);
    maxFlow := 0;
    MatrixExt(Rows(flow), ZeroMatrix(n), n);
    ZeroIsFlow(cap, source, sink);
    FlowValueBounded(cap, ZeroMatrix(n), source, sink);
    var found;
    ghost var path;
    found, path := Bfs(cap, flow, source, sink, parent, Rows(flow));
    ghost var firstPath := path;
    while found
      invariant flow.Length0 == n && flow.Length1 == n && parent.Length == n
      invariant FlowOfValue(cap, Rows(flow), source, sink, maxFlow)
      invariant maxFlow == 0 ==> Rows(flow) == ZeroMatrix(n)
      invariant found || maxFlow > 0 ==> IsAugmentingPath(cap, ZeroMatrix(n), source, sink, firstPath)
      invariant found ==> IsAugmentingPath(cap, Rows(flow), source, sink, path)
      invariant found ==> FollowsParents(parent[..], path)
      invariant !found ==> source == sink || NoResidualPath(cap, Rows(flow), source, sink)
      decreases RowSum(cap[source]) - maxFlow
    {
      var pathFlow := AugmentAlongPath(cap, flow, parent, source, sink, path, maxFlow);
      maxFlow := maxFlow + pathFlow;
      found, path := Bfs(cap, flow, source, sink, parent, Rows(flow));
    }
    if maxFlow != 0 {
      assert IsResidualPath(cap, ZeroMatrix(n), firstPath) && firstPath[0] == source;
    }
    if source != sink {
      NoAugmentingPathIsMaximum(cap, Rows(flow), source, sink);
    } else {
      forall G | IsFlow(cap, G, source, sink)
        ensures RowSum(G[source]) <= maxFlow
      {
        SameEndsWorthNothing(cap, G, source);
      }
    }
  }
}
