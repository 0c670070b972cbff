/** Cuts of a flow network and the max-flow/min-cut argument: the value of
    every flow equals what it carries across any cut separating the source
    from the sink, so no flow is worth more than the capacity of a cut; and
    a flow that leaves no residual path from the source to the sink
    saturates the cut formed by the nodes its residual graph still reaches
    from the source, so it is a maximum flow. */
module Cuts {
  import opened Network

  /** `side` splits the nodes below n into a source side (true) holding s
      and a sink side (false) holding t. */
  predicate IsCut(side: seq<bool>, n: nat, s: nat, t: nat) {
    |side| == n && s < n && t < n && side[s] && !side[t]
  }

  /** Sum of row[v] over the columns v below k with side[v] == on. */
  function Part(row: seq<int>, side: seq<bool>, k: nat, on: bool): int
    requires k <= |row| && k <= |side|
  {
    if k == 0 then 0 else Part(row, side, k - 1, on) + (if side[k - 1] == on then row[k - 1] else 0)
  }

  /** Sum of M[u][v] over the source-side rows u below j and the columns v
      below k with side[v] == on. */
  function Block(M: seq<seq<int>>, side: seq<bool>, j: nat, k: nat, on: bool): int
    requires IsMatrix(M, |side|) && j <= |side| && k <= |side|
  {
    if j == 0 then 0
    else Block(M, side, j - 1, k, on) + (if side[j - 1] then Part(M[j - 1], side, k, on) else 0)
  }

  /** Sum of M[u][k] over the source-side rows u below j. */
  function Column(M: seq<seq<int>>, side: seq<bool>, j: nat, k: nat): int
    requires IsMatrix(M, |side|) && j <= |side| && k < |side|
  {
    if j == 0 then 0 else Column(M, side, j - 1, k) + (if side[j - 1] then M[j - 1][k] else 0)
  }

  /** What M carries from the source side to the sink side; for the
      capacity matrix this is the capacity of the cut. */
  function Crossing(M: seq<seq<int>>, side: seq<bool>): int
    requires IsMatrix(M, |side|)
  {
    Block(M, side, |side|, |side|, false)
  }

  /** Sum of the net outflows of the source-side nodes below j. */
  function SideOutflow(M: seq<seq<int>>, side: seq<bool>, j: nat): int
    requires IsMatrix(M, |side|) && j <= |side|
  {
    if j == 0 then 0 else SideOutflow(M, side, j - 1) + (if side[j - 1] then RowSum(M[j - 1]) else 0)
  }

  // ---------------------------------------------------------------------
  // Rearranging sums
  // ---------------------------------------------------------------------

  /** A row's sum is its source-side part plus its sink-side part. */
  lemma {:induction false} PartSplit(row: seq<int>, side: seq<bool>, k: nat)
    requires k <= |row| && k <= |side|
    ensures SumTo(row, k) == Part(row, side, k, true) + Part(row, side, k, false)
  {
    if k > 0 {
      PartSplit(row, side, k - 1);
    }
  }

  /** The source side's total outflow is what stays inside it plus what
      crosses to the sink side. */
  lemma {:induction false} SideSplit(M: seq<seq<int>>, side: seq<bool>, j: nat)
    requires IsMatrix(M, |side|) && j <= |side|
    ensures SideOutflow(M, side, j) == Block(M, side, j, |side|, true) + Block(M, side, j, |side|, false)
  {
    if j > 0 {
      SideSplit(M, side, j - 1);
      PartSplit(M[j - 1], side, |side|);
    }
  }

  /** Widening the columns by k adds column k's source-side entries when k
      is on the source side. */
  lemma {:induction false} BlockWiden(M: seq<seq<int>>, side: seq<bool>, j: nat, k: nat)
    requires IsMatrix(M, |side|) && j <= |side| && k < |side|
    ensures Block(M, side, j, k + 1, true) == Block(M, side, j, k, true) + (if side[k] then Column(M, side, j, k) else 0)
  {
    if j > 0 {
      BlockWiden(M, side, j - 1, k);
    }
  }

  /** In an antisymmetric matrix, column k read over the source side is
      the negated source-side part of row k. */
  lemma {:induction false} ColumnMirror(M: seq<seq<int>>, side: seq<bool>, j: nat, k: nat)
    requires Antisymmetric(M, |side|) && j <= |side| && k < |side|
    ensures Column(M, side, j, k) == -Part(M[k], side, j, true)
  {
    if j > 0 {
      ColumnMirror(M, side, j - 1, k);
      assert M[j - 1][k] == -M[k][j - 1];
    }
  }

  /** What an antisymmetric matrix carries between nodes of the source
      side sums to zero. */
  lemma {:induction false} InsideVanishes(M: seq<seq<int>>, side: seq<bool>, k: nat)
    requires Antisymmetric(M, |side|) && k <= |side|
    ensures Block(M, side, k, k, true) == 0
  {
    if k > 0 {
      var i := k - 1;
      InsideVanishes(M, side, i);
      BlockWiden(M, side, i, i);
      ColumnMirror(M, side, i, i);
      assert M[i][i] == -M[i][i];
    }
  }

  /** If every source-side node other than s has zero net outflow, the
      source side's total outflow is that of s. */
  lemma {:induction false} SideOutflowOfSource(M: seq<seq<int>>, side: seq<bool>, s: nat, j: nat)
    requires IsMatrix(M, |side|) && s < |side| && side[s] && j <= |side|
    requires forall w :: 0 <= w < |side| && side[w] && w != s ==> RowSum(M[w]) == 0
    ensures SideOutflow(M, side, j) == if s < j then RowSum(M[s]) else 0
  {
    if j > 0 {
      SideOutflowOfSource(M, side, s, j - 1);
    }
  }

  /** Sums over the crossing entries are monotone in those entries. */
  lemma {:induction false} PartMono(a: seq<int>, b: seq<int>, side: seq<bool>, k: nat)
    requires k <= |a| && k <= |b| && k <= |side|
    requires forall v :: 0 <= v < k && !side[v] ==> a[v] <= b[v]
    ensures Part(a, side, k, false) <= Part(b, side, k, false)
  {
    if k > 0 {
      PartMono(a, b, side, k - 1);
    }
  }

  lemma {:induction false} BlockMono(A: seq<seq<int>>, B: seq<seq<int>>, side: seq<bool>, j: nat)
    requires IsMatrix(A, |side|) && IsMatrix(B, |side|) && j <= |side|
    requires forall u, v :: 0 <= u < |side| && 0 <= v < |side| && side[u] && !side[v] ==> A[u][v] <= B[u][v]
    ensures Block(A, side, j, |side|, false) <= Block(B, side, j, |side|, false)
  {
    if j > 0 {
      BlockMono(A, B, side, j - 1);
      if side[j - 1] {
        PartMono(A[j - 1], B[j - 1], side, |side|);
      }
    }
  }

  // ---------------------------------------------------------------------
  // Flows and cuts
  // ---------------------------------------------------------------------

  /** The value of a flow (the source's net outflow) is what it carries
      across any cut separating the source from the sink. */
  lemma FlowValueCrossesCut(cap: seq<seq<int>>, G: seq<seq<int>>, s: nat, t: nat, side: seq<bool>)
    requires IsFlow(cap, G, s, t) && IsCut(side, |cap|, s, t)
    ensures RowSum(G[s]) == Crossing(G, side)
  {
    SideOutflowOfSource(G, side, s, |side|);
    SideSplit(G, side, |side|);
    InsideVanishes(G, side, |side|);
  }

  /** Weak duality: no flow is worth more than the capacity of any cut. */
  lemma WeakDuality(cap: seq<seq<int>>, G: seq<seq<int>>, s: nat, t: nat, side: seq<bool>)
    requires IsFlow(cap, G, s, t) && IsCut(side, |cap|, s, t)
    ensures RowSum(G[s]) <= Crossing(cap, side)
  {
    FlowValueCrossesCut(cap, G, s, t, side);
    BlockMono(G, cap, side, |side|);
  }

  /** With every node on the source side nothing crosses to the sink side. */
  lemma {:induction false} NothingCrosses(M: seq<seq<int>>, side: seq<bool>, j: nat)
    requires IsMatrix(M, |side|) && j <= |side|
    requires forall v :: 0 <= v < |side| ==> side[v]
    ensures Block(M, side, j, |side|, false) == 0
  {
    if j > 0 {
      NothingCrosses(M, side, j - 1);
      NoSinkSide(M[j - 1], side, |side|);
    }
  }

  lemma {:induction false} NoSinkSide(row: seq<int>, side: seq<bool>, k: nat)
    requires k <= |row| && k <= |side|
    requires forall v :: 0 <= v < |side| ==> side[v]
    ensures Part(row, side, k, false) == 0
  {
    if k > 0 {
      NoSinkSide(row, side, k - 1);
    }
  }

  /** When the source is the sink, every flow is worth nothing: all that
      leaves the source comes back to it. */
  lemma SameEndsWorthNothing(cap: seq<seq<int>>, G: seq<seq<int>>, s: nat)
    requires IsFlow(cap, G, s, s) && s < |cap|
    ensures RowSum(G[s]) == 0
  {
    var all := seq(|cap|, v => true);
    SideOutflowOfSource(G, all, s, |all|);
    SideSplit(G, all, |all|);
    InsideVanishes(G, all, |all|);
    NothingCrosses(G, all, |all|);
  }

  // ---------------------------------------------------------------------
  // The cut left by a flow without augmenting paths
  // ---------------------------------------------------------------------

  /** Some residual walk leads from s to v. */
  ghost predicate Reachable(cap: seq<seq<int>>, F: seq<seq<int>>, s: nat, v: nat) {
    exists p :: IsResidualPath(cap, F, p) && p[0] == s && Last(p) == v
  }

  /** The nodes the residual graph reaches from s. */
  ghost function ReachableSide(cap: seq<seq<int>>, F: seq<seq<int>>, s: nat): (side: seq<bool>)
    ensures |side| == |cap|
    ensures forall v :: 0 <= v < |cap| ==> (side[v] <==> Reachable(cap, F, s, v))
  {
    seq(|cap|, v requires 0 <= v < |cap| => Reachable(cap, F, s, v))
  }

  /** A residual edge out of a reachable node leads to a reachable node. */
  lemma ReachExtends(cap: seq<seq<int>>, F: seq<seq<int>>, s: nat, u: nat, v: nat)
    requires SameShape(cap, F) && u < |cap| && v < |cap| && Reachable(cap, F, s, u)
    ensures Residual(cap, F, u, v) > 0 ==> Reachable(cap, F, s, v)
  {
    var p: seq<nat> :| IsResidualPath(cap, F, p) && p[0] == s && Last(p) == u;
    var q: seq<nat> := p + [v];
    if Residual(cap, F, u, v) > 0 {
      forall k | 1 <= k < |q|
        ensures Residual(cap, F, q[k - 1], q[k]) > 0
      {
        if k < |p| {
          assert q[k - 1] == p[k - 1] && q[k] == p[k];
        }
      }
      assert IsResidualPath(cap, F, q) && q[0] == s && Last(q) == v;
    }
  }

  /** With no residual walk from s to t, the nodes reachable from s form a
      cut, and every edge leaving it is saturated. */
  lemma ResidualCut(cap: seq<seq<int>>, F: seq<seq<int>>, s: nat, t: nat)
    requires IsFlow(cap, F, s, t) && s < |cap| && t < |cap| && NoResidualPath(cap, F, s, t)
    ensures var side := ReachableSide(cap, F, s);
      IsCut(side, |cap|, s, t) &&
      forall u, v :: 0 <= u < |cap| && 0 <= v < |cap| && side[u] && !side[v] ==> F[u][v] == cap[u][v]
  {
    var side := ReachableSide(cap, F, s);
    assert IsResidualPath(cap, F, [s]) && Last([s]) == s;
    forall u, v | 0 <= u < |cap| && 0 <= v < |cap| && side[u] && !side[v]
      ensures F[u][v] == cap[u][v]
    {
      ReachExtends(cap, F, s, u, v);
    }
  }

  /** The max-flow/min-cut theorem in the direction Edmonds-Karp needs: a
      flow with no residual path from the source to the sink is worth as
      much as some cut's capacity, and so at least as much as any flow. */
  lemma NoAugmentingPathIsMaximum(cap: seq<seq<int>>, F: seq<seq<int>>, s: nat, t: nat)
    requires IsFlow(cap, F, s, t) && s < |cap| && t < |cap| && NoResidualPath(cap, F, s, t)
    ensures exists side :: IsCut(side, |cap|, s, t) && Crossing(cap, side) == RowSum(F[s])
    ensures forall G :: IsFlow(cap, G, s, t) ==> RowSum(G[s]) <= RowSum(F[s])
  {
    var side := ReachableSide(cap, F, s);
    ResidualCut(cap, F, s, t);
    FlowValueCrossesCut(cap, F, s, t, side);
    BlockMono(cap, F, side, |side|);
    BlockMono(F, cap, side, |side|);
    forall G | IsFlow(cap, G, s, t)
      ensures RowSum(G[s]) <= RowSum(F[s])
    {
      WeakDuality(cap, G, s, t, side);
    }
  }
}
