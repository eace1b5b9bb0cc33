/** Shared vocabulary of both TSP solvers: the distance matrix, tours, the cost of a tour,
    and the solution record that `TSPSolver.solve` returns. */
module Tours {

  /** A distance matrix as a list of rows: `dist[i][j]` is the weight of going from i to j. */
  type Matrix = seq<seq<int>>

  /** Bounds of a Java `int`, the element type of the matrices both solvers receive. */
  const IntMin: int := -0x8000_0000
  const IntMax: int := 0x7FFF_FFFF

  /** The largest absolute value a Java `int` can have. */
  const MaxAbsWeight: int := 0x8000_0000

  /** The solution record: the tour and its cost (Java `long`). */
  datatype Solution = Solution(tour: seq<int>, cost: int)

  predicate IsSquare(dist: Matrix) {
    forall i :: 0 <= i < |dist| ==> |dist[i]| == |dist|
  }

  /** Every entry of a square matrix fits a Java `int`. */
  predicate HasIntEntries(dist: Matrix)
    requires IsSquare(dist)
  {
    forall i, j :: 0 <= i < |dist| && 0 <= j < |dist| ==> IntMin <= dist[i][j] <= IntMax
  }

  /** Every element of `s` is a vertex index below `n`. */
  predicate InRange(s: seq<int>, n: int) {
    forall k :: 0 <= k < |s| ==> 0 <= s[k] < n
  }

  /** No element of `s` occurs twice. */
  predicate Distinct(s: seq<int>) {
    forall a, b :: 0 <= a < b < |s| ==> s[a] != s[b]
  }

  /** The set of elements of `s`. */
  function Elems(s: seq<int>): set<int> {
    set k | k in s
  }

  /** The vertex set {0, ..., n-1}. */
  function Vertices(n: nat): (r: set<int>)
    ensures forall v :: v in r <==> 0 <= v < n
  {
    if n == 0 then {} else Vertices(n - 1) + {n - 1}
  }

  /** `s` lists every vertex 0..n-1 exactly once. */
  predicate IsPermutation(s: seq<int>, n: nat) {
    |s| == n && InRange(s, n) && Distinct(s)
  }

  /** A closed tour through vertex 0: it starts and ends at 0, and its first n
      positions visit every vertex exactly once. */
  predicate IsHamiltonianCycle(c: seq<int>, n: nat) {
    |c| == n + 1 && InRange(c, n) && c[0] == 0 && c[n] == 0 && IsPermutation(c[..n], n)
  }

  /** Sum of `dist[tour[i]][tour[i+1]]` over all consecutive pairs of `tour`. */
  function TourCost(dist: Matrix, tour: seq<int>): int
    requires IsSquare(dist) && InRange(tour, |dist|)
  {
    if |tour| < 2 then 0 else dist[tour[0]][tour[1]] + TourCost(dist, tour[1..])
  }

  /** The sequence `s` read backwards, as `Collections.reverse` leaves a list. */
  function Reverse(s: seq<int>): (r: seq<int>)
    ensures |r| == |s|
    ensures forall i :: 0 <= i < |s| ==> r[i] == s[|s| - 1 - i]
  {
    if |s| == 0 then [] else [s[|s| - 1]] + Reverse(s[..|s| - 1])
  }

  /** Reversing a list after appending x puts x in front of the reversed list. */
  lemma ReverseAppend(s: seq<int>, x: int)
    ensures Reverse(s + [x]) == [x] + Reverse(s)
  {
  }

  /** Extending a tour by one vertex adds exactly the weight of the new last edge. */
  lemma {:induction false} TourCostAppend(dist: Matrix, s: seq<int>, x: int)
    requires IsSquare(dist) && InRange(s, |dist|) && 0 <= x < |dist| && |s| >= 1
    ensures InRange(s + [x], |dist|)
    ensures TourCost(dist, s + [x]) == TourCost(dist, s) + dist[s[|s| - 1]][x]
  {
    if |s| == 1 {
      assert (s + [x])[1..] == [x];
    } else {
      assert (s + [x])[1..] == s[1..] + [x];
      TourCostAppend(dist, s[1..], x);
    }
  }

  /** With Java-int weights, a tour of k vertices costs at most k * 2^31 in absolute value. */
  lemma {:induction false} TourCostBound(dist: Matrix, s: seq<int>)
    requires IsSquare(dist) && HasIntEntries(dist) && InRange(s, |dist|)
    ensures -|s| * MaxAbsWeight <= TourCost(dist, s) <= |s| * MaxAbsWeight
  {
    if |s| >= 2 {
      TourCostBound(dist, s[1..]);
    }
  }

  /** A sequence without repetitions has as many elements as it has positions. */
  lemma {:induction false} DistinctCard(s: seq<int>)
    requires Distinct(s)
    ensures |Elems(s)| == |s|
  {
    if |s| > 0 {
      var p := s[..|s| - 1];
      assert Elems(s) == Elems(p) + {s[|s| - 1]};
      assert s[|s| - 1] !in Elems(p);
      DistinctCard(p);
    }
  }

  lemma {:induction false} VerticesCard(n: nat)
    ensures |Vertices(n)| == n
  {
    if n > 0 {
      VerticesCard(n - 1);
    }
  }

  /** A set of vertices below n has at most n elements, and exactly n only when it is all of them. */
  lemma {:induction false} SubsetOfVertices(a: set<int>, n: nat)
    requires a <= Vertices(n)
    ensures |a| <= n
    ensures |a| == n ==> a == Vertices(n)
  {
    if n > 0 {
      var rest := a - {n - 1};
      assert rest <= Vertices(n - 1);
      SubsetOfVertices(rest, n - 1);
      if |a| == n {
        assert n - 1 in a;
        assert a == rest + {n - 1};
      }
    }
  }

  /** A repetition-free list of vertices below n has at most n entries, and exactly n
      entries iff it contains every vertex. */
  lemma DistinctVertices(s: seq<int>, n: nat)
    requires InRange(s, n) && Distinct(s)
    ensures |s| <= n
    ensures |s| == n <==> Elems(s) == Vertices(n)
  {
    DistinctCard(s);
    VerticesCard(n);
    assert Elems(s) <= Vertices(n);
    SubsetOfVertices(Elems(s), n);
  }
}
