/** Flow networks over dense integer matrices: residual paths, flows, and
    what pushing flow along a path does to a flow matrix. These are the
    specification functions the Edmonds-Karp methods are proved against. */
module Network {

  // ---------------------------------------------------------------------
  // Matrices and paths
  // ---------------------------------------------------------------------

  /** `m` is an n-by-n table, as the capacity and flow matrices are. */
  predicate IsMatrix(m: seq<seq<int>>, n: nat) {
    |m| == n && forall i :: 0 <= i < n ==> |m[i]| == n
  }

  /** A capacity matrix together with a flow matrix of the same size. */
  predicate SameShape(cap: seq<seq<int>>, F: seq<seq<int>>) {
    IsMatrix(cap, |cap|) && IsMatrix(F, |cap|)
  }

  predicate NonNegative(cap: seq<seq<int>>) {
    forall i, j :: 0 <= i < |cap| && 0 <= j < |cap[i]| ==> cap[i][j] >= 0
  }

  /** The residual capacity of edge (u, v): what may still be pushed from u to v. */
  function Residual(cap: seq<seq<int>>, F: seq<seq<int>>, u: nat, v: nat): int
    requires SameShape(cap, F) && u < |cap| && v < |cap|
  {
    cap[u][v] - F[u][v]
  }

  function Min(a: int, b: int): int {
    if a <= b then a else b
  }

  function Last(path: seq<nat>): nat
    requires |path| > 0
  {
    path[|path| - 1]
  }

  predicate InRange(path: seq<nat>, n: nat) {
    forall k :: 0 <= k < |path| ==> path[k] < n
  }

  predicate Distinct(path: seq<nat>) {
    forall i, j :: 0 <= i < j < |path| ==> path[i] != path[j]
  }

  /** A walk of at least one node through edges of positive residual capacity. */
  ghost predicate IsResidualPath(cap: seq<seq<int>>, F: seq<seq<int>>, path: seq<nat>) {
    SameShape(cap, F) && |path| >= 1 && InRange(path, |cap|) &&
    forall k :: 1 <= k < |path| ==> Residual(cap, F, path[k - 1], path[k]) > 0
  }

  /** A simple residual path of at least one edge from s to t. */
  ghost predicate IsAugmentingPath(cap: seq<seq<int>>, F: seq<seq<int>>, s: nat, t: nat, path: seq<nat>) {
    IsResidualPath(cap, F, path) && |path| >= 2 && path[0] == s && Last(path) == t && Distinct(path)
  }

  /** No residual walk that starts at s ends at t. */
  ghost predicate NoResidualPath(cap: seq<seq<int>>, F: seq<seq<int>>, s: nat, t: nat) {
    forall path :: IsResidualPath(cap, F, path) && path[0] == s ==> Last(path) != t
  }

  /** Every predecessor recorded in `parent` for a node of `path` is the node before it. */
  ghost predicate FollowsParents(parent: seq<int>, path: seq<nat>) {
    forall k :: 1 <= k < |path| ==> path[k] < |parent| && parent[path[k]] == path[k - 1]
  }

  /** (u, v) is a consecutive pair of `path`. */
  ghost predicate EdgeOf(path: seq<nat>, u: nat, v: nat)
    decreases |path|
  {
    |path| >= 2 && ((path[0] == u && path[1] == v) || EdgeOf(path[1..], u, v))
  }

  /** All residual edges from u to a node below k lead to nodes marked in `vis`. */
  ghost predicate ScannedBelow(cap: seq<seq<int>>, F: seq<seq<int>>, vis: seq<bool>, u: nat, k: nat)
    requires SameShape(cap, F) && |vis| == |cap| && u < |cap| && k <= |cap|
  {
    forall v :: 0 <= v < k && Residual(cap, F, u, v) > 0 ==> vis[v]
  }

  /** All residual edges out of u lead to nodes marked in `vis`. */
  ghost predicate Closed(cap: seq<seq<int>>, F: seq<seq<int>>, vis: seq<bool>, u: nat)
    requires SameShape(cap, F) && |vis| == |cap| && u < |cap|
  {
    ScannedBelow(cap, F, vis, u, |cap|)
  }

  // ---------------------------------------------------------------------
  // Flows
  // ---------------------------------------------------------------------

  /** Sum of the first k entries of a row. */
  function SumTo(row: seq<int>, k: nat): int
    requires k <= |row|
  {
    if k == 0 then 0 else SumTo(row, k - 1) + row[k - 1]
  }

  /** Net flow out of a node: the sum of its row in the flow matrix. */
  function RowSum(row: seq<int>): int {
    SumTo(row, |row|)
  }

  ghost predicate Antisymmetric(F: seq<seq<int>>, n: nat) {
    IsMatrix(F, n) && forall u, v :: 0 <= u < n && 0 <= v < n ==> F[u][v] == -F[v][u]
  }

  ghost predicate WithinCapacity(cap: seq<seq<int>>, F: seq<seq<int>>) {
    SameShape(cap, F) && forall u, v :: 0 <= u < |cap| && 0 <= v < |cap| ==> F[u][v] <= cap[u][v]
  }

  /** Every node other than s and t has zero net outflow. */
  ghost predicate Conserved(F: seq<seq<int>>, n: nat, s: nat, t: nat) {
    IsMatrix(F, n) && forall w :: 0 <= w < n && w != s && w != t ==> RowSum(F[w]) == 0
  }

  /** F is a (skew-symmetric) flow from s to t within the capacities. */
  ghost predicate IsFlow(cap: seq<seq<int>>, F: seq<seq<int>>, s: nat, t: nat) {
    SameShape(cap, F) && Antisymmetric(F, |cap|) && WithinCapacity(cap, F) && Conserved(F, |cap|, s, t)
  }

  ghost predicate IsZero(F: seq<seq<int>>) {
    forall u, v :: 0 <= u < |F| && 0 <= v < |F[u]| ==> F[u][v] == 0
  }

  function ZeroMatrix(n: nat): (z: seq<seq<int>>)
    ensures IsMatrix(z, n) && IsZero(z)
  {
    seq(n, i => seq(n, j => 0))
  }

  // ---------------------------------------------------------------------
  // Augmentation
  // ---------------------------------------------------------------------

  /** The smallest residual capacity over the edges of `path`. */
  ghost function Bottleneck(cap: seq<seq<int>>, F: seq<seq<int>>, path: seq<nat>): int
    requires SameShape(cap, F) && |path| >= 2 && InRange(path, |cap|)
    decreases |path|
  {
    if |path| == 2 then Residual(cap, F, path[0], path[1])
    else Min(Residual(cap, F, path[0], path[1]), Bottleneck(cap, F, path[1..]))
  }

  /** The net amount added to the flow on (u, v) by pushing f along every
      edge of `path`, counting f on the edge itself and -f on its mirror. */
  ghost function Net(path: seq<nat>, u: nat, v: nat, f: int): int
    decreases |path|
  {
    if |path| < 2 then 0
    else
      (if path[0] == u && path[1] == v then f else 0)
      - (if path[0] == v && path[1] == u then f else 0)
      + Net(path[1..], u, v, f)
  }

  /** Pushing f along path[j..] is pushing it over the edge
      (path[j], path[j + 1]) and then along path[j + 1..]. */
  lemma NetPeel(path: seq<nat>, j: nat, u: nat, v: nat, f: int)
    requires j + 1 < |path|
    ensures Net(path[j..], u, v, f)
      == (if path[j] == u && path[j + 1] == v then f else 0)
         - (if path[j] == v && path[j + 1] == u then f else 0)
         + Net(path[j + 1..], u, v, f)
  {
    assert path[j..][1..] == path[j + 1..];
  }

  /** The flow matrix after pushing f along `path`. */
  ghost function Augment(F: seq<seq<int>>, n: nat, path: seq<nat>, f: int): (G: seq<seq<int>>)
    requires IsMatrix(F, n)
    ensures IsMatrix(G, n)
    ensures forall u, v :: 0 <= u < n && 0 <= v < n ==> G[u][v] == F[u][v] + Net(path, u, v, f)
  {
    seq(n, u requires 0 <= u < n => seq(n, v requires 0 <= v < n => F[u][v] + Net(path, u, v, f)))
  }

  /** The net amount pushed out of w by pushing f along every edge of `path`. */
  ghost function Excess(path: seq<nat>, w: nat, f: int): int
    decreases |path|
  {
    if |path| < 2 then 0
    else (if path[0] == w then f else 0) - (if path[1] == w then f else 0) + Excess(path[1..], w, f)
  }

  /** Sum of Net(path, w, v, f) over the first k columns v. */
  ghost function NetSum(path: seq<nat>, w: nat, f: int, k: nat): int {
    if k == 0 then 0 else NetSum(path, w, f, k - 1) + Net(path, w, k - 1, f)
  }

  // ---------------------------------------------------------------------
  // Lemmas about paths
  // ---------------------------------------------------------------------

  /** Removing the node n - 1 from a simple path of nodes below n leaves a
      simple path of nodes below n - 1, one node shorter. */
  lemma RemoveLargest(path: seq<nat>, n: nat, k: nat)
    requires InRange(path, n) && Distinct(path) && k < |path| && path[k] == n - 1
    ensures var rest := path[..k] + path[k + 1..];
      |rest| == |path| - 1 && InRange(rest, n - 1) && Distinct(rest)
  {
    var rest := path[..k] + path[k + 1..];
    forall i | 0 <= i < |rest|
      ensures rest[i] == (if i < k then path[i] else path[i + 1])
    {
    }
    forall i | 0 <= i < |rest|
      ensures rest[i] < n - 1
    {
      assert rest[i] != path[k];
    }
    forall i, j | 0 <= i < j < |rest|
      ensures rest[i] != rest[j]
    {
      var i', j' := if i < k then i else i + 1, if j < k then j else j + 1;
      assert rest[i] == path[i'] && rest[j] == path[j'] && i' < j';
    }
  }

  /** Pigeonhole: a path of distinct nodes below n has at most n nodes,
      so it has at most n - 1 edges. */
  lemma {:induction false} DistinctBound(path: seq<nat>, n: nat)
    requires InRange(path, n) && Distinct(path)
    ensures |path| <= n
    decreases n
  {
    if |path| > 0 {
      assert path[0] < n;
      if k :| 0 <= k < |path| && path[k] == n - 1 {
        RemoveLargest(path, n, k);
        DistinctBound(path[..k] + path[k + 1..], n - 1);
      } else {
        forall i | 0 <= i < |path|
          ensures path[i] < n - 1
        {
        }
        DistinctBound(path, n - 1);
      }
    }
  }

  /** A set of nodes closed under residual edges traps every residual walk
      that starts inside it. */
  lemma {:induction false} ClosedSetTraps(cap: seq<seq<int>>, F: seq<seq<int>>, vis: seq<bool>, path: seq<nat>)
    requires SameShape(cap, F) && |vis| == |cap|
    requires forall u :: 0 <= u < |cap| && vis[u] ==> Closed(cap, F, vis, u)
    requires IsResidualPath(cap, F, path) && vis[path[0]]
    ensures vis[Last(path)]
    decreases |path|
  {
    if |path| > 1 {
      var prefix := path[..|path| - 1];
      assert IsResidualPath(cap, F, prefix) by {
        forall k | 1 <= k < |prefix|
          ensures Residual(cap, F, prefix[k - 1], prefix[k]) > 0
        {
          assert prefix[k - 1] == path[k - 1] && prefix[k] == path[k];
        }
      }
      ClosedSetTraps(cap, F, vis, prefix);
      assert Residual(cap, F, path[|path| - 2], path[|path| - 1]) > 0;
    }
  }

  /** No edge of the path has less residual capacity than the bottleneck. */
  lemma {:induction false} BottleneckAtMost(cap: seq<seq<int>>, F: seq<seq<int>>, path: seq<nat>, k: nat)
    requires SameShape(cap, F) && |path| >= 2 && InRange(path, |cap|) && 1 <= k < |path|
    ensures Bottleneck(cap, F, path) <= Residual(cap, F, path[k - 1], path[k])
    decreases |path|
  {
    if |path| > 2 && k > 1 {
      var rest := path[1..];
      BottleneckAtMost(cap, F, rest, k - 1);
      assert path[k - 1] == rest[k - 2] && path[k] == rest[k - 1];
    }
  }

  /** Some edge of the path has exactly the bottleneck as residual capacity. */
  lemma {:induction false} BottleneckAttained(cap: seq<seq<int>>, F: seq<seq<int>>, path: seq<nat>)
    requires SameShape(cap, F) && |path| >= 2 && InRange(path, |cap|)
    ensures exists k :: 1 <= k < |path| && Bottleneck(cap, F, path) == Residual(cap, F, path[k - 1], path[k])
    decreases |path|
  {
    if |path| > 2 {
      var rest := path[1..];
      if Residual(cap, F, path[0], path[1]) > Bottleneck(cap, F, rest) {
        BottleneckAttained(cap, F, rest);
        var j :| 1 <= j < |rest| && Bottleneck(cap, F, rest) == Residual(cap, F, rest[j - 1], rest[j]);
        assert rest[j - 1] == path[j] && rest[j] == path[j + 1];
        assert Bottleneck(cap, F, path) == Residual(cap, F, path[(j + 1) - 1], path[j + 1]);
      } else {
        assert Bottleneck(cap, F, path) == Residual(cap, F, path[1 - 1], path[1]);
      }
    } else {
      assert Bottleneck(cap, F, path) == Residual(cap, F, path[1 - 1], path[1]);
    }
  }

  /** The bottleneck is the minimum residual capacity over the path's edges,
      and on a residual path it is positive. */
  lemma BottleneckIsMinimum(cap: seq<seq<int>>, F: seq<seq<int>>, path: seq<nat>)
    requires SameShape(cap, F) && |path| >= 2 && InRange(path, |cap|)
    ensures forall k :: 1 <= k < |path| ==> Bottleneck(cap, F, path) <= Residual(cap, F, path[k - 1], path[k])
    ensures exists k :: 1 <= k < |path| && Bottleneck(cap, F, path) == Residual(cap, F, path[k - 1], path[k])
    ensures IsResidualPath(cap, F, path) ==> Bottleneck(cap, F, path) > 0
  {
    forall k | 1 <= k < |path|
      ensures Bottleneck(cap, F, path) <= Residual(cap, F, path[k - 1], path[k])
    {
      BottleneckAtMost(cap, F, path, k);
    }
    BottleneckAttained(cap, F, path);
  }

  /** An edge of the path has at least the bottleneck in residual capacity. */
  lemma {:induction false} EdgeOfBottleneck(cap: seq<seq<int>>, F: seq<seq<int>>, path: seq<nat>, u: nat, v: nat)
    requires SameShape(cap, F) && |path| >= 2 && InRange(path, |cap|) && EdgeOf(path, u, v)
    ensures u < |cap| && v < |cap| && Bottleneck(cap, F, path) <= Residual(cap, F, u, v)
    decreases |path|
  {
    if !(path[0] == u && path[1] == v) {
      EdgeOfBottleneck(cap, F, path[1..], u, v);
    }
  }

  /** A node that is not on the path starts none of its edges. */
  lemma {:induction false} EdgeOfStartsOnPath(path: seq<nat>, u: nat, v: nat)
    requires u !in path
    ensures !EdgeOf(path, u, v)
    decreases |path|
  {
    if |path| >= 2 {
      assert u !in path[1..];
      EdgeOfStartsOnPath(path[1..], u, v);
    }
  }

  // ---------------------------------------------------------------------
  // Lemmas about augmentation
  // ---------------------------------------------------------------------

  /** Pushing along a path changes (u, v) by the opposite of what it does to (v, u). */
  lemma {:induction false} NetAntisymmetric(path: seq<nat>, u: nat, v: nat, f: int)
    ensures Net(path, u, v, f) == -Net(path, v, u, f)
    decreases |path|
  {
    if |path| >= 2 {
      NetAntisymmetric(path[1..], u, v, f);
    }
  }

  /** On a simple path, pushing f >= 0 adds at most f to an edge of the
      path and nothing to any other pair of nodes. */
  lemma {:induction false} NetAtMostPushed(path: seq<nat>, u: nat, v: nat, f: int)
    requires Distinct(path) && f >= 0
    ensures Net(path, u, v, f) <= if EdgeOf(path, u, v) then f else 0
    decreases |path|
  {
    if |path| >= 2 {
      var rest := path[1..];
      assert Distinct(rest) by {
        forall i, j | 0 <= i < j < |rest|
          ensures rest[i] != rest[j]
        {
          assert rest[i] == path[i + 1] && rest[j] == path[j + 1];
        }
      }
      NetAtMostPushed(rest, u, v, f);
      if path[0] == u && path[1] == v {
        forall i | 0 <= i < |rest|
          ensures rest[i] != u
        {
          assert rest[i] == path[i + 1];
        }
        EdgeOfStartsOnPath(rest, u, v);
      }
    }
  }

  /** The net outflow pushed out of w along a walk telescopes: f out of the
      first node, f into the last, nothing for the nodes in between. */
  lemma {:induction false} ExcessTelescopes(path: seq<nat>, w: nat, f: int)
    requires |path| >= 1
    ensures Excess(path, w, f) == (if path[0] == w then f else 0) - (if Last(path) == w then f else 0)
    decreases |path|
  {
    if |path| >= 2 {
      ExcessTelescopes(path[1..], w, f);
    }
  }

  lemma {:induction false} NetSumOfShortPath(path: seq<nat>, w: nat, f: int, k: nat)
    requires |path| < 2
    ensures NetSum(path, w, f, k) == 0
  {
    if k > 0 {
      NetSumOfShortPath(path, w, f, k - 1);
    }
  }

  lemma {:induction false} NetSumPeel(path: seq<nat>, w: nat, f: int, k: nat)
    requires |path| >= 2
    ensures NetSum(path, w, f, k) == NetSum(path[1..], w, f, k)
                                     + (if path[0] == w && path[1] < k then f else 0)
                                     - (if path[1] == w && path[0] < k then f else 0)
  {
    if k > 0 {
      NetSumPeel(path, w, f, k - 1);
    }
  }

  /** Summed over a whole row, what a push adds to w's row is w's excess. */
  lemma {:induction false} NetSumIsExcess(path: seq<nat>, w: nat, f: int, n: nat)
    requires InRange(path, n)
    ensures NetSum(path, w, f, n) == Excess(path, w, f)
    decreases |path|
  {
    if |path| < 2 {
      NetSumOfShortPath(path, w, f, n);
    } else {
      NetSumPeel(path, w, f, n);
      NetSumIsExcess(path[1..], w, f, n);
    }
  }

  lemma {:induction false} AugmentRowSum(F: seq<seq<int>>, n: nat, path: seq<nat>, f: int, w: nat, k: nat)
    requires IsMatrix(F, n) && w < n && k <= n
    ensures SumTo(Augment(F, n, path, f)[w], k) == SumTo(F[w], k) + NetSum(path, w, f, k)
  {
    if k > 0 {
      AugmentRowSum(F, n, path, f, w, k - 1);
    }
  }

  lemma {:induction false} SumToMono(a: seq<int>, b: seq<int>, k: nat)
    requires k <= |a| && k <= |b|
    requires forall i :: 0 <= i < k ==> a[i] <= b[i]
    ensures SumTo(a, k) <= SumTo(b, k)
  {
    if k > 0 {
      SumToMono(a, b, k - 1);
    }
  }

  lemma {:induction false} SumToZero(row: seq<int>, k: nat)
    requires k <= |row|
    requires forall i :: 0 <= i < |row| ==> row[i] == 0
    ensures SumTo(row, k) == 0
  {
    if k > 0 {
      SumToZero(row, k - 1);
    }
  }

  /** The all-zero matrix is a flow of value 0 whenever capacities are non-negative. */
  lemma ZeroIsFlow(cap: seq<seq<int>>, s: nat, t: nat)
    requires IsMatrix(cap, |cap|) && NonNegative(cap)
    ensures IsFlow(cap, ZeroMatrix(|cap|), s, t)
    ensures forall w :: 0 <= w < |cap| ==> RowSum(ZeroMatrix(|cap|)[w]) == 0
  {
    var z := ZeroMatrix(|cap|);
    forall w | 0 <= w < |cap|
      ensures RowSum(z[w]) == 0
    {
      SumToZero(z[w], |cap|);
    }
  }

  /** The value of a flow, the net outflow of its source, is at most the
      total capacity out of the source. */
  lemma FlowValueBounded(cap: seq<seq<int>>, F: seq<seq<int>>, s: nat, t: nat)
    requires IsFlow(cap, F, s, t) && s < |cap|
    ensures RowSum(F[s]) <= RowSum(cap[s])
  {
    SumToMono(F[s], cap[s], |cap|);
  }

  /** Pushing at most the bottleneck along an augmenting path keeps F a flow
      (antisymmetric, within capacity, conserved), raises the source's net
      outflow by f and the sink's net inflow by f. */
  lemma AugmentKeepsFlow(cap: seq<seq<int>>, F: seq<seq<int>>, s: nat, t: nat, path: seq<nat>, f: int)
    requires IsFlow(cap, F, s, t) && IsAugmentingPath(cap, F, s, t, path)
    requires 0 <= f <= Bottleneck(cap, F, path)
    ensures IsFlow(cap, Augment(F, |cap|, path, f), s, t)
    ensures RowSum(Augment(F, |cap|, path, f)[s]) == RowSum(F[s]) + f
    ensures RowSum(Augment(F, |cap|, path, f)[t]) == RowSum(F[t]) - f
  {
    var n := |cap|;
    var G := Augment(F, n, path, f);
    forall u, v | 0 <= u < n && 0 <= v < n
      ensures G[u][v] == -G[v][u]
    {
      NetAntisymmetric(path, u, v, f);
    }
    forall u, v | 0 <= u < n && 0 <= v < n
      ensures G[u][v] <= cap[u][v]
    {
      NetAtMostPushed(path, u, v, f);
      if EdgeOf(path, u, v) {
        EdgeOfBottleneck(cap, F, path, u, v);
      }
    }
    assert s != t by {
      assert path[0] != path[|path| - 1];
    }
    forall w | 0 <= w < n
      ensures RowSum(G[w]) == RowSum(F[w]) + (if w == s then f else 0) - (if w == t then f else 0)
    {
      AugmentRowSum(F, n, path, f, w, n);
      NetSumIsExcess(path, w, f, n);
      ExcessTelescopes(path, w, f);
    }
  }

  /** Two n-by-n matrices that agree entry by entry are equal. */
  lemma MatrixExt(A: seq<seq<int>>, B: seq<seq<int>>, n: nat)
    requires IsMatrix(A, n) && IsMatrix(B, n)
    requires forall u, v :: 0 <= u < n && 0 <= v < n ==> A[u][v] == B[u][v]
    ensures A == B
  {
    forall u | 0 <= u < n
      ensures A[u] == B[u]
    {
    }
  }
}
