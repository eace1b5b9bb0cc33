/** The Held–Karp recurrence that `tsp/ExactSolver.java` evaluates, stated as pure functions
    over bit masks, together with its meaning in terms of simple paths and Hamiltonian cycles.

    `Dp(dist, mask, v)` is the value the table `dp[mask][v]` holds once every transition has
    run, and `Prev(dist, mask, v)` the matching entry of `prev`. They keep the source's
    sentinel conventions: unreached states hold `INF`, a `prev` entry that was never written
    holds Java's default 0, and the start state holds -1. */
module HeldKarp {
  import opened Tours
  import opened Bits

  const LongMax: int := 0x7FFF_FFFF_FFFF_FFFF

  /** `Long.MAX_VALUE / 4`, the cost of a state no path reaches. */
  const INF: int := LongMax / 4

  /** The largest n the exact solver runs on. `1 << 31` is negative, and Java takes the
      shift distance modulo 32, so from 32 rows on the tables have `2^(n mod 32)` rows: too
      few, or a negative count. */
  const MaxVertices: int := 30

  /** What the exact solver needs of its input: a square Java-int matrix with 1..30 rows.
      With no rows `dp[1][0]` is out of bounds; with 31 rows `1 << n` is negative; from 32
      rows on, the table has too few rows, or a negative count, as `MaxVertices` explains. */
  predicate ValidInput(dist: Matrix) {
    IsSquare(dist) && 1 <= |dist| <= MaxVertices && HasIntEntries(dist)
  }

  /** `full = (1 << n) - 1`, the mask of all n vertices. */
  function Full(n: nat): nat {
    Pow2(n) - 1
  }

  /** The outcome of a minimum scan: the best cost and the vertex that attained it. */
  datatype Choice = Choice(cost: int, pred: int)

  /** `dp[mask][v]` after all transitions: 0 for the start state (mask {0}, vertex 0),
      `INF` when v is not in `mask`, otherwise the best relaxation over every predecessor. */
  function Dp(dist: Matrix, mask: nat, v: nat): int
    requires IsSquare(dist) && v < |dist|
    decreases mask, 1, 0
  {
    if mask == 1 && v == 0 then 0
    else if !Bit(mask, v) then INF
    else Relax(dist, mask, v, |dist|).cost
  }

  /** The relaxations of state (mask, v) by the predecessors u < k, in the order the
      source performs them: the only state that transitions into (mask, v) with `u` is
      (mask without v, u), it is skipped when u is not in that mask or its cost is `INF`,
      and it replaces the current best only when strictly cheaper. */
  function Relax(dist: Matrix, mask: nat, v: nat, k: nat): Choice
    requires IsSquare(dist) && v < |dist| && k <= |dist| && Bit(mask, v)
    decreases mask, 0, k
  {
    if k == 0 then Choice(INF, 0)
    else
      var best := Relax(dist, mask, v, k - 1);
      var u := k - 1;
      var from := Without(mask, v);
      if Bit(from, u) && Dp(dist, from, u) != INF && Dp(dist, from, u) + dist[u][v] < best.cost
      then Choice(Dp(dist, from, u) + dist[u][v], u)
      else best
  }

  /** `prev[mask][v]` after all transitions. */
  function Prev(dist: Matrix, mask: nat, v: nat): int
    requires IsSquare(dist) && v < |dist|
  {
    if mask == 1 && v == 0 then -1
    else if !Bit(mask, v) then 0
    else Relax(dist, mask, v, |dist|).pred
  }

  /** The scan keeps the minimum: it is below `INF` and below every candidate it considered. */
  lemma {:induction false} RelaxMin(dist: Matrix, mask: nat, v: nat, k: nat, u: nat)
    requires IsSquare(dist) && v < |dist| && k <= |dist| && Bit(mask, v)
    ensures Relax(dist, mask, v, k).cost <= INF
    ensures u < k && Bit(Without(mask, v), u) && Dp(dist, Without(mask, v), u) != INF ==>
      Relax(dist, mask, v, k).cost <= Dp(dist, Without(mask, v), u) + dist[u][v]
  {
    if k > 0 {
      RelaxMin(dist, mask, v, k - 1, u);
    }
  }

  /** Predecessor consistency and the tie-break: a finite scan result comes from a finite
      predecessor state whose cost plus the connecting edge is exactly the result, and every
      earlier considered predecessor was strictly more expensive, so among equal costs the
      smallest u wins. An infinite result leaves the predecessor at 0. */
  lemma {:induction false} RelaxChoice(dist: Matrix, mask: nat, v: nat, k: nat)
    requires IsSquare(dist) && v < |dist| && k <= |dist| && Bit(mask, v)
    ensures var r := Relax(dist, mask, v, k);
      var from := Without(mask, v);
      if r.cost == INF then r.pred == 0
      else
        && 0 <= r.pred < k && Bit(from, r.pred) && Dp(dist, from, r.pred) != INF
        && r.cost == Dp(dist, from, r.pred) + dist[r.pred][v]
        && (forall u :: 0 <= u < r.pred && Bit(from, u) && Dp(dist, from, u) != INF ==>
              Dp(dist, from, u) + dist[u][v] > r.cost)
  {
    if k > 0 {
      RelaxChoice(dist, mask, v, k - 1);
      var best := Relax(dist, mask, v, k - 1);
      var from := Without(mask, v);
      var u := k - 1;
      RelaxMin(dist, mask, v, k - 1, 0);
      if Bit(from, u) && Dp(dist, from, u) != INF && Dp(dist, from, u) + dist[u][v] < best.cost {
        forall w | 0 <= w < u && Bit(from, w) && Dp(dist, from, w) != INF
          ensures Dp(dist, from, w) + dist[w][v] > Dp(dist, from, u) + dist[u][v]
        {
          RelaxMin(dist, mask, v, k - 1, w);
        }
      }
    }
  }

  /** A finite state is (mask, v) with v in mask, and its predecessor state is finite too. */
  lemma FiniteState(dist: Matrix, mask: nat, v: nat)
    requires IsSquare(dist) && v < |dist| && Dp(dist, mask, v) != INF && !(mask == 1 && v == 0)
    ensures Bit(mask, v)
    ensures 0 <= Prev(dist, mask, v) < |dist|
    ensures Bit(Without(mask, v), Prev(dist, mask, v))
    ensures Dp(dist, Without(mask, v), Prev(dist, mask, v)) != INF
    ensures Dp(dist, mask, v) ==
      Dp(dist, Without(mask, v), Prev(dist, mask, v)) + dist[Prev(dist, mask, v)][v]
  {
    RelaxChoice(dist, mask, v, |dist|);
  }

  /** The path the `prev` table encodes for a finite state, read forwards: from vertex 0
      through the recorded predecessors to v. */
  function Walk(dist: Matrix, mask: nat, v: nat): (p: seq<int>)
    requires IsSquare(dist) && v < |dist| && Dp(dist, mask, v) != INF
    ensures |p| >= 1 && p[|p| - 1] == v
    decreases mask
  {
    if mask == 1 && v == 0 then [0]
    else
      FiniteState(dist, mask, v);
      Walk(dist, Without(mask, v), Prev(dist, mask, v)) + [v]
  }

  /** `p` is a simple path that starts at vertex 0, visits exactly the vertices of `mask`
      (a mask over n vertices) and ends at v. */
  predicate IsPath(p: seq<int>, n: nat, mask: nat, v: int) {
    && |p| >= 1 && p[0] == 0 && p[|p| - 1] == v
    && InRange(p, n) && Distinct(p)
    && mask < Pow2(n) && Elems(p) == BitSet(mask, n)
  }

  /** Mask 1 is the vertex set {0}. */
  lemma MaskOne(n: nat)
    requires n >= 1
    ensures BitSet(1, n) == {0}
  {
    forall i: nat ensures Bit(1, i) <==> i == 0 {
      OnlyBitZeroInOne(i);
    }
  }

  /** The only mask over n vertices whose vertex set is {0} is 1. */
  lemma MaskOfZeroOnly(mask: nat, n: nat)
    requires n >= 1 && mask < Pow2(n) && BitSet(mask, n) == {0}
    ensures mask == 1
  {
    MaskOne(n);
    PowMonotone(1, n);
    BitsDetermineMask(mask, 1, n);
  }

  /** Removing bit v from a mask removes v from its vertex set. */
  lemma WithoutBitSet(mask: nat, v: nat, n: nat)
    requires Bit(mask, v)
    ensures BitSet(Without(mask, v), n) == BitSet(mask, n) - {v}
  {
  }

  /** Attainment: every finite state is the cost of the simple path the `prev` table
      records for it. */
  lemma {:induction false} WalkAttains(dist: Matrix, mask: nat, v: nat)
    requires IsSquare(dist) && v < |dist| && mask < Pow2(|dist|) && Dp(dist, mask, v) != INF
    ensures IsPath(Walk(dist, mask, v), |dist|, mask, v)
    ensures TourCost(dist, Walk(dist, mask, v)) == Dp(dist, mask, v)
  {
    var n := |dist|;
    if mask == 1 && v == 0 {
      MaskOne(n);
    } else {
      FiniteState(dist, mask, v);
      var from := Without(mask, v);
      var p := Prev(dist, mask, v);
      WalkAttains(dist, from, p);
      var w := Walk(dist, from, p);
      assert Walk(dist, mask, v) == w + [v];
      PathStep(w, n, mask, v, p);
      TourCostAppend(dist, w, v);
    }
  }

  /** A path over `mask` without v, extended by v, is a path over `mask`. */
  lemma PathStep(w: seq<int>, n: nat, mask: nat, v: nat, p: int)
    requires Bit(mask, v) && v < n && mask < Pow2(n)
    requires IsPath(w, n, Without(mask, v), p)
    ensures IsPath(w + [v], n, mask, v)
  {
    WithoutBitSet(mask, v, n);
    assert v !in Elems(w);
    assert Elems(w + [v]) == Elems(w) + {v};
  }

  /** With Java-int weights and at most 30 vertices, a simple path costs far less than `INF`. */
  lemma PathCostBound(dist: Matrix, p: seq<int>)
    requires ValidInput(dist) && InRange(p, |dist|) && Distinct(p)
    ensures -MaxVertices * MaxAbsWeight <= TourCost(dist, p) <= MaxVertices * MaxAbsWeight
  {
    DistinctVertices(p, |dist|);
    TourCostBound(dist, p);
  }

  /** Lower bound: no simple path from 0 over exactly `mask` to v is cheaper than `Dp`. */
  lemma {:induction false} DpLowerBound(dist: Matrix, p: seq<int>, mask: nat, v: nat)
    requires ValidInput(dist) && v < |dist| && IsPath(p, |dist|, mask, v)
    ensures Dp(dist, mask, v) <= TourCost(dist, p)
    decreases |p|
  {
    var n := |dist|;
    if |p| == 1 {
      assert Elems(p) == {0};
      MaskOfZeroOnly(mask, n);
    } else {
      var q := p[..|p| - 1];
      var u := q[|q| - 1];
      var from := Without(mask, v);
      PathShrink(p, n, mask, v);
      DpLowerBound(dist, q, from, u);
      PathCostBound(dist, q);
      assert u in Elems(q);
      RelaxMin(dist, mask, v, n, u);
      TourCostAppend(dist, q, v);
    }
  }

  /** A path over `mask` to v != 0 without its last vertex is a path over `mask` without v. */
  lemma PathShrink(p: seq<int>, n: nat, mask: nat, v: nat)
    requires IsPath(p, n, mask, v) && |p| > 1
    ensures v != 0 && Bit(mask, v) && p == p[..|p| - 1] + [v]
    ensures IsPath(p[..|p| - 1], n, Without(mask, v), p[|p| - 2])
  {
    var q := p[..|p| - 1];
    assert p == q + [v];
    assert v in Elems(p);
    assert v != 0 by {
      assert p[0] == 0;
    }
    WithoutBitSet(mask, v, n);
    assert Elems(q) == Elems(p) - {v} by {
      assert Elems(p) == Elems(q) + {v};
      assert v !in Elems(q);
    }
  }

  /** Reachability: with Java-int weights every state (mask, v) with 0 and v in mask and
      v != 0 is finite. */
  lemma {:induction false} DpFinite(dist: Matrix, mask: nat, v: nat)
    requires ValidInput(dist) && 0 < v < |dist| && mask < Pow2(|dist|)
    requires Bit(mask, 0) && Bit(mask, v)
    ensures Dp(dist, mask, v) != INF
    decreases mask
  {
    var n := |dist|;
    var from := Without(mask, v);
    assert Bit(from, 0);
    if from == 1 {
      RelaxMin(dist, mask, v, n, 0);
    } else {
      assert exists u :: 1 <= u < n && Bit(from, u) by {
        if forall u :: 1 <= u < n ==> !Bit(from, u) {
          forall x ensures x in BitSet(from, n) <==> x == 0 {
            if 1 <= x < n {
              assert !Bit(from, x);
            }
          }
          assert BitSet(from, n) == {0};
          MaskOfZeroOnly(from, n);
        }
      }
      var u :| 1 <= u < n && Bit(from, u);
      DpFinite(dist, from, u);
      WalkAttains(dist, from, u);
      PathCostBound(dist, Walk(dist, from, u));
      RelaxMin(dist, mask, v, n, u);
    }
  }

  /** The closing scan: starting from `bestCost = INF, last = -1`, for u = 1..k-1 the cycle
      cost `dp[full][u] + dist[u][0]` replaces the best when strictly smaller. As in the
      source, the value is used whether or not `dp[full][u]` is finite. */
  function Close(dist: Matrix, k: nat): Choice
    requires IsSquare(dist) && k <= |dist|
  {
    if k <= 1 then Choice(INF, -1)
    else
      var best := Close(dist, k - 1);
      var u := k - 1;
      var c := Dp(dist, Full(|dist|), u) + dist[u][0];
      if c < best.cost then Choice(c, u) else best
  }

  /** The closing scan keeps the minimum over u = 1..k-1, capped at `INF`. */
  lemma {:induction false} CloseMin(dist: Matrix, k: nat, u: nat)
    requires IsSquare(dist) && k <= |dist|
    ensures Close(dist, k).cost <= INF
    ensures 1 <= u < k ==> Close(dist, k).cost <= Dp(dist, Full(|dist|), u) + dist[u][0]
  {
    if k > 1 {
      CloseMin(dist, k - 1, u);
    }
  }

  /** `last` is -1 exactly when nothing beat `INF`; otherwise it is the smallest u in 1..k-1
      whose cycle cost equals `bestCost`. */
  lemma {:induction false} CloseChoice(dist: Matrix, k: nat)
    requires IsSquare(dist) && k <= |dist|
    ensures var r := Close(dist, k);
      if r.cost == INF then r.pred == -1
      else
        && 1 <= r.pred < k
        && r.cost == Dp(dist, Full(|dist|), r.pred) + dist[r.pred][0]
        && (forall u :: 1 <= u < r.pred ==> Dp(dist, Full(|dist|), u) + dist[u][0] > r.cost)
  {
    if k > 1 {
      CloseChoice(dist, k - 1);
      CloseMin(dist, k - 1, 0);
      var best := Close(dist, k - 1);
      var u := k - 1;
      if Dp(dist, Full(|dist|), u) + dist[u][0] < best.cost {
        forall w | 1 <= w < u
          ensures Dp(dist, Full(|dist|), w) + dist[w][0] > Dp(dist, Full(|dist|), u) + dist[u][0]
        {
          CloseMin(dist, k - 1, w);
        }
      }
    }
  }

  /** The full mask is the set of all n vertices. */
  lemma FullBitSet(n: nat)
    ensures Full(n) < Pow2(n)
    ensures BitSet(Full(n), n) == Vertices(n)
  {
    forall i | 0 <= i < n ensures Bit(Full(n), i) {
      FullMask(n, i);
    }
  }

  /** The first n positions of a Hamiltonian cycle form a simple path from 0 over all vertices. */
  lemma CyclePath(c: seq<int>, n: nat)
    requires n >= 1 && IsHamiltonianCycle(c, n)
    ensures IsPath(c[..n], n, Full(n), c[n - 1])
  {
    DistinctVertices(c[..n], n);
    FullBitSet(n);
  }

  /** For n >= 2 the closing scan picks some u = 1..n-1 and a finite `bestCost`. */
  lemma CloseFinite(dist: Matrix)
    requires ValidInput(dist) && |dist| >= 2
    ensures var r := Close(dist, |dist|);
      r.cost < INF && 1 <= r.pred < |dist| && Dp(dist, Full(|dist|), r.pred) != INF
  {
    var n := |dist|;
    var full := Full(n);
    FullBitSet(n);
    assert Bit(full, 0) && Bit(full, 1);
    DpFinite(dist, full, 1);
    WalkAttains(dist, full, 1);
    PathCostBound(dist, Walk(dist, full, 1));
    CloseMin(dist, n, 1);
    CloseChoice(dist, n);
    var r := Close(dist, n);
    assert Bit(full, r.pred);
    DpFinite(dist, full, r.pred);
  }

  /** The path recorded for (full, last), closed back to 0, is a Hamiltonian cycle costing
      exactly `bestCost`. */
  lemma ClosedWalkAttains(dist: Matrix)
    requires ValidInput(dist) && |dist| >= 2
    ensures var r := Close(dist, |dist|);
      && 1 <= r.pred < |dist| && Dp(dist, Full(|dist|), r.pred) != INF
      && IsHamiltonianCycle(Walk(dist, Full(|dist|), r.pred) + [0], |dist|)
      && TourCost(dist, Walk(dist, Full(|dist|), r.pred) + [0]) == r.cost
  {
    var n := |dist|;
    CloseFinite(dist);
    CloseChoice(dist, n);
    var r := Close(dist, n);
    FullBitSet(n);
    WalkAttains(dist, Full(n), r.pred);
    var w := Walk(dist, Full(n), r.pred);
    DistinctVertices(w, n);
    assert (w + [0])[..n] == w;
    TourCostAppend(dist, w, 0);
  }

  /** No Hamiltonian cycle through 0 costs less than `bestCost`. */
  lemma CloseLowerBound(dist: Matrix, c: seq<int>)
    requires ValidInput(dist) && |dist| >= 2 && IsHamiltonianCycle(c, |dist|)
    ensures Close(dist, |dist|).cost <= TourCost(dist, c)
  {
    var n := |dist|;
    CyclePath(c, n);
    var p := c[..n];
    var u := c[n - 1];
    assert u != 0 by {
      assert p[0] == 0 && p[n - 1] == u;
    }
    DpLowerBound(dist, p, Full(n), u);
    CloseMin(dist, n, u);
    assert c == p + [0];
    TourCostAppend(dist, p, 0);
  }

  /** The exact-solution claim for n >= 2: the closing scan finds a finite `bestCost`, the
      recorded path closed back to 0 is a Hamiltonian cycle of exactly that cost, and no
      Hamiltonian cycle through 0 is cheaper. */
  lemma ExactOptimal(dist: Matrix)
    requires ValidInput(dist) && |dist| >= 2
    ensures var r := Close(dist, |dist|);
      && r.cost < INF
      && 1 <= r.pred < |dist|
      && Dp(dist, Full(|dist|), r.pred) != INF
      && IsHamiltonianCycle(Walk(dist, Full(|dist|), r.pred) + [0], |dist|)
      && TourCost(dist, Walk(dist, Full(|dist|), r.pred) + [0]) == r.cost
      && forall c :: IsHamiltonianCycle(c, |dist|) ==> r.cost <= TourCost(dist, c)
  {
    CloseFinite(dist);
    ClosedWalkAttains(dist);
    forall c | IsHamiltonianCycle(c, |dist|)
      ensures Close(dist, |dist|).cost <= TourCost(dist, c)
    {
      CloseLowerBound(dist, c);
    }
  }
}
