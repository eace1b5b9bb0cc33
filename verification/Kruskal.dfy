/** `Kruskal.buildMST`: every pair i < j of the matrix becomes an edge, the edges are
    stable-sorted by weight, and an edge is accepted when union-find says its endpoints are
    in different components, until n-1 edges have been accepted. */
module Kruskal {
  import opened Tours
  import opened Graphs
  import opened DisjointSets

  /** e is the edge (i, j) with i < j of the n x n matrix, carrying weight `dist[i][j]`. */
  predicate EdgeOf(dist: Matrix, e: Edge)
    requires IsSquare(dist)
  {
    0 <= e.u < e.v < |dist| && e.w == dist[e.u][e.v]
  }

  /** The lexicographic order of the pair (u, v). */
  predicate LexBefore(e: Edge, f: Edge) {
    e.u < f.u || (e.u == f.u && e.v < f.v)
  }

  /** The pairs strictly increase in lexicographic order. */
  predicate LexSorted(s: seq<Edge>) {
    forall a, b :: 0 <= a < b < |s| ==> LexBefore(s[a], s[b])
  }

  /** The edges the inner loop adds for row i while j runs from i+1 up to k-1. */
  function RowEdges(dist: Matrix, i: nat, k: nat): (r: seq<Edge>)
    requires IsSquare(dist) && i < |dist| && k <= |dist|
    ensures forall e :: e in r <==> EdgeOf(dist, e) && e.u == i && e.v < k
    ensures LexSorted(r)
    ensures |r| == if k <= i + 1 then 0 else k - i - 1
  {
    if k <= i + 1 then []
    else
      var prefix := RowEdges(dist, i, k - 1);
      prefix + [Edge(i, k - 1, dist[i][k - 1])]
  }

  /** The edges the nested loops (`src/Kruskal.java` lines 42-46) add for rows 0..i-1. */
  function EdgesBefore(dist: Matrix, i: nat): (r: seq<Edge>)
    requires IsSquare(dist) && i <= |dist|
    ensures forall e :: e in r <==> EdgeOf(dist, e) && e.u < i
    ensures LexSorted(r)
    ensures 2 * |r| == i * (2 * |dist| - i - 1)
  {
    if i == 0 then []
    else
      var prefix := EdgesBefore(dist, i - 1);
      var row := RowEdges(dist, i - 1, |dist|);
      ConcatLexSorted(prefix, row, i - 1);
      assert (i - 1) * (2 * |dist| - (i - 1) - 1) + 2 * (|dist| - i) == i * (2 * |dist| - i - 1);
      prefix + row
  }

  /** Two lexicographically sorted lists, the first below row i and the second in row i,
      concatenate into a sorted list. */
  lemma ConcatLexSorted(s: seq<Edge>, t: seq<Edge>, i: int)
    requires LexSorted(s) && LexSorted(t)
    requires forall e :: e in s ==> e.u < i
    requires forall e :: e in t ==> e.u == i
    ensures LexSorted(s + t)
  {
    var c := s + t;
    forall a, b | 0 <= a < b < |c|
      ensures LexBefore(c[a], c[b])
    {
      if b < |s| {
        assert c[a] == s[a] && c[b] == s[b];
      } else if a >= |s| {
        assert c[a] == t[a - |s|] && c[b] == t[b - |s|];
      } else {
        assert c[a] == s[a] && c[b] == t[b - |s|];
        assert c[a] in s && c[b] in t;
      }
    }
  }

  /** All edges of the matrix in the order the nested loops produce them: exactly the pairs
      i < j with their weights, lexicographically increasing, n(n-1)/2 of them. */
  function PairEdges(dist: Matrix): (r: seq<Edge>)
    requires IsSquare(dist)
    ensures forall e :: e in r <==> EdgeOf(dist, e)
    ensures LexSorted(r)
    ensures 2 * |r| == |dist| * (|dist| - 1)
  {
    EdgesBefore(dist, |dist|)
  }

  /** Weights never decrease along the list. */
  predicate SortedByWeight(s: seq<Edge>) {
    forall a, b :: 0 <= a < b < |s| ==> s[a].w <= s[b].w
  }

  /** The edges of weight w, in their order in s. */
  function WithWeight(s: seq<Edge>, w: int): seq<Edge> {
    if |s| == 0 then []
    else WithWeight(s[..|s| - 1], w) + (if s[|s| - 1].w == w then [s[|s| - 1]] else [])
  }

  /** The edges of weight w are the edges of s that weigh w. */
  lemma {:induction false} WithWeightMembers(s: seq<Edge>, w: int)
    ensures forall e :: e in WithWeight(s, w) <==> e in s && e.w == w
  {
    if |s| > 0 {
      WithWeightMembers(s[..|s| - 1], w);
      assert s == s[..|s| - 1] + [s[|s| - 1]];
    }
  }

  /** WithWeight of an extended list. */
  lemma WithWeightAppend(s: seq<Edge>, x: Edge, w: int)
    ensures WithWeight(s + [x], w) == WithWeight(s, w) + (if x.w == w then [x] else [])
  {
    assert (s + [x])[..|s|] == s;
  }

  /** Inserts x into a weight-sorted list after every edge of weight at most x's. */
  function Insert(s: seq<Edge>, x: Edge): (r: seq<Edge>)
    requires SortedByWeight(s)
    ensures SortedByWeight(r)
    ensures multiset(r) == multiset(s) + multiset{x}
    ensures forall w :: WithWeight(r, w) == WithWeight(s, w) + (if x.w == w then [x] else [])
  {
    if |s| == 0 || s[|s| - 1].w <= x.w then
      InsertLast(s, x);
      s + [x]
    else
      var init := s[..|s| - 1];
      var y := s[|s| - 1];
      assert s == init + [y];
      var r := Insert(init, x) + [y];
      InsertBeforeLast(init, x, y, Insert(init, x));
      r
  }

  /** Appending x after edges no heavier than x keeps the list sorted and adds x to its
      weight. */
  lemma InsertLast(s: seq<Edge>, x: Edge)
    requires SortedByWeight(s) && (|s| == 0 || s[|s| - 1].w <= x.w)
    ensures SortedByWeight(s + [x])
    ensures forall w :: WithWeight(s + [x], w) == WithWeight(s, w) + (if x.w == w then [x] else [])
  {
    forall w ensures WithWeight(s + [x], w) == WithWeight(s, w) + (if x.w == w then [x] else []) {
      WithWeightAppend(s, x, w);
    }
  }

  /** Every edge before the last of a weight-sorted list weighs at most the last one. */
  lemma LastIsHeaviest(init: seq<Edge>, y: Edge)
    requires SortedByWeight(init + [y])
    ensures forall e :: e in multiset(init) ==> e.w <= y.w
  {
    var s := init + [y];
    forall e | e in multiset(init)
      ensures e.w <= y.w
    {
      var k :| 0 <= k < |init| && init[k] == e;
      assert s[k] == e && s[|init|] == y;
    }
  }

  /** Inserting x before a heavier last edge y: the result stays sorted, and since x and y
      differ in weight, each weight's sub-list gains x at its end. */
  lemma InsertBeforeLast(init: seq<Edge>, x: Edge, y: Edge, ins: seq<Edge>)
    requires SortedByWeight(init + [y]) && x.w < y.w
    requires SortedByWeight(ins) && multiset(ins) == multiset(init) + multiset{x}
    requires forall w :: WithWeight(ins, w) == WithWeight(init, w) + (if x.w == w then [x] else [])
    ensures SortedByWeight(ins + [y])
    ensures multiset(ins + [y]) == multiset(init + [y]) + multiset{x}
    ensures forall w :: WithWeight(ins + [y], w) == WithWeight(init + [y], w) + (if x.w == w then [x] else [])
  {
    InsertedSorted(init, x, y, ins);
    forall w ensures WithWeight(ins + [y], w) == WithWeight(init + [y], w) + (if x.w == w then [x] else []) {
      WithWeightBeforeLast(init, x, y, ins, w);
    }
  }

  /** One weight's sub-list in `InsertBeforeLast`. */
  lemma WithWeightBeforeLast(init: seq<Edge>, x: Edge, y: Edge, ins: seq<Edge>, w: int)
    requires x.w < y.w
    requires WithWeight(ins, w) == WithWeight(init, w) + (if x.w == w then [x] else [])
    ensures WithWeight(ins + [y], w) == WithWeight(init + [y], w) + (if x.w == w then [x] else [])
  {
    WithWeightAppend(ins, y, w);
    WithWeightAppend(init, y, w);
    if y.w == w {
      assert WithWeight(ins, w) == WithWeight(init, w) + [];
    } else {
      assert WithWeight(init + [y], w) == WithWeight(init, w) + [];
    }
  }

  lemma InsertedSorted(init: seq<Edge>, x: Edge, y: Edge, ins: seq<Edge>)
    requires SortedByWeight(init + [y]) && x.w < y.w
    requires SortedByWeight(ins) && multiset(ins) == multiset(init) + multiset{x}
    ensures SortedByWeight(ins + [y])
  {
    LastIsHeaviest(init, y);
    var t := ins + [y];
    forall a, b | 0 <= a < b < |t|
      ensures t[a].w <= t[b].w
    {
      if b == |ins| {
        assert t[a] == ins[a] && ins[a] in multiset(ins);
      } else {
        assert t[a] == ins[a] && t[b] == ins[b];
      }
    }
  }

  /** The stable sort by weight of `src/Kruskal.java` line 47, as insertion sort. */
  function SortByWeight(s: seq<Edge>): (r: seq<Edge>)
    ensures SortedByWeight(r)
    ensures multiset(r) == multiset(s)
    ensures forall w :: WithWeight(r, w) == WithWeight(s, w)
  {
    if |s| == 0 then []
    else
      var init := s[..|s| - 1];
      assert s == init + [s[|s| - 1]];
      var r := Insert(SortByWeight(init), s[|s| - 1]);
      forall w ensures WithWeight(r, w) == WithWeight(s, w) {
        WithWeightAppend(init, s[|s| - 1], w);
      }
      r
  }

  /** An edge of a list appears in the list of its weight. */
  lemma InOwnWeight(s: seq<Edge>, e: Edge)
    requires e in s
    ensures e in WithWeight(s, e.w)
  {
    WithWeightMembers(s, e.w);
  }

  /** Lists with the same edges of every weight are empty together. */
  lemma EmptyTogether(a: seq<Edge>, b: seq<Edge>)
    requires forall w :: WithWeight(a, w) == WithWeight(b, w)
    ensures |a| > 0 ==> |b| > 0
  {
    if |a| > 0 {
      var x := a[|a| - 1];
      InOwnWeight(a, x);
      WithWeightMembers(b, x.w);
      assert x in WithWeight(b, x.w);
    }
  }

  /** No edge of a weight-sorted list is heavier than its last edge. */
  lemma AtMostLast(s: seq<Edge>, e: Edge)
    requires SortedByWeight(s) && e in s
    ensures e.w <= s[|s| - 1].w
  {
    var k :| 0 <= k < |s| && s[k] == e;
  }

  /** An edge found in the list of weight w is an edge of s of that weight. */
  lemma FromOwnWeight(s: seq<Edge>, w: int, e: Edge)
    requires e in WithWeight(s, w)
    ensures e in s && e.w == w
  {
    WithWeightMembers(s, w);
  }

  /** The last edge of a list is the last of the list of its weight. */
  lemma LastOfOwnWeight(s: seq<Edge>)
    requires |s| > 0
    ensures var x := s[|s| - 1];
      |WithWeight(s, x.w)| > 0 && WithWeight(s, x.w)[|WithWeight(s, x.w)| - 1] == x
  {
    var x := s[|s| - 1];
    assert s == s[..|s| - 1] + [x];
    WithWeightAppend(s[..|s| - 1], x, x.w);
  }

  /** The last edges of two weight-sorted lists with the same edges of every weight agree. */
  lemma SameLast(a: seq<Edge>, b: seq<Edge>)
    requires SortedByWeight(a) && SortedByWeight(b) && |a| > 0 && |b| > 0
    requires forall w :: WithWeight(a, w) == WithWeight(b, w)
    ensures a[|a| - 1] == b[|b| - 1]
  {
    var x, y := a[|a| - 1], b[|b| - 1];
    InOwnWeight(a, x);
    assert WithWeight(a, x.w) == WithWeight(b, x.w);
    FromOwnWeight(b, x.w, x);
    AtMostLast(b, x);
    InOwnWeight(b, y);
    assert WithWeight(a, y.w) == WithWeight(b, y.w);
    FromOwnWeight(a, y.w, y);
    AtMostLast(a, y);
    LastOfOwnWeight(a);
    LastOfOwnWeight(b);
  }

  /** Dropping a common last edge keeps the same edges of every weight. */
  lemma DropLast(a': seq<Edge>, b': seq<Edge>, x: Edge)
    requires forall w :: WithWeight(a' + [x], w) == WithWeight(b' + [x], w)
    ensures forall w :: WithWeight(a', w) == WithWeight(b', w)
  {
    forall w ensures WithWeight(a', w) == WithWeight(b', w) {
      WithWeightAppend(a', x, w);
      WithWeightAppend(b', x, w);
      var A, B := WithWeight(a', w), WithWeight(b', w);
      var X := if x.w == w then [x] else [];
      assert A + X == B + X by {
        assert WithWeight(a' + [x], w) == WithWeight(b' + [x], w);
      }
      assert A == (A + X)[..|A|] && B == (B + X)[..|B|];
    }
  }

  /** Stability pins the result down: two weight-sorted lists with the same edges of every
      weight, in the same order, are equal. So any stable sort by weight, such as the
      library's, yields `SortByWeight`. */
  lemma {:induction false} StableSortUnique(a: seq<Edge>, b: seq<Edge>)
    requires SortedByWeight(a) && SortedByWeight(b)
    requires forall w :: WithWeight(a, w) == WithWeight(b, w)
    ensures a == b
    decreases |a| + |b|
  {
    EmptyTogether(a, b);
    EmptyTogether(b, a);
    if |a| > 0 {
      SameLast(a, b);
      var x := a[|a| - 1];
      var a', b' := a[..|a| - 1], b[..|b| - 1];
      assert a == a' + [x] && b == b' + [x];
      DropLast(a', b', x);
      StableSortUnique(a', b');
    }
  }

  /** Kruskal's rule stated on connectivity instead of union-find: walk the candidates in
      order, take an edge whose endpoints the taken edges do not yet connect, and stop as
      soon as `limit` edges are taken. */
  ghost function Greedy(candidates: seq<Edge>, taken: seq<Edge>, limit: int): seq<Edge>
    decreases |candidates|
  {
    if |candidates| == 0 then taken
    else
      var e := candidates[0];
      if Connected(taken, e.u, e.v) then Greedy(candidates[1..], taken, limit)
      else if |taken| + 1 == limit then taken + [e]
      else Greedy(candidates[1..], taken + [e], limit)
  }

  /** The union-find structure over n elements mirrors the accepted edges: two elements
      share a set exactly when the edges connect them. */
  ghost predicate Mirrors(ds: DisjointSet, mst: seq<Edge>, n: nat) {
    && Valid(ds) && |ds.parent| == n
    && forall x, y :: 0 <= x < n && 0 <= y < n ==> (SameSet(ds, x, y) <==> Connected(mst, x, y))
  }

  /** Each accepted edge joins two vertices the edges before it did not connect. */
  ghost predicate IsForest(mst: seq<Edge>) {
    forall k :: 0 <= k < |mst| ==> !Connected(mst[..k], mst[k].u, mst[k].v)
  }

  /** Initially every vertex is alone, and so it is with no edges. */
  lemma MirrorsInit(n: nat)
    ensures Mirrors(Init(n), [], n)
  {
    forall x, y | 0 <= x < n && 0 <= y < n
      ensures SameSet(Init(n), x, y) <==> Connected([], x, y)
    {
      ConnectedEmpty(x, y);
    }
  }

  /** `find` does not change which elements share a set. */
  lemma MirrorsFind(ds: DisjointSet, mst: seq<Edge>, n: nat, x: int)
    requires Mirrors(ds, mst, n) && 0 <= x < n
    ensures Mirrors(Find(ds, x).ds, mst, n)
    ensures Roots(Find(ds, x).ds) == Roots(ds)
  {
    var d := Find(ds, x).ds;
    FindRoots(ds, x);
    forall a, b | 0 <= a < n && 0 <= b < n
      ensures SameSet(d, a, b) <==> SameSet(ds, a, b)
    {
    }
  }

  /** Accepting e and uniting its endpoints keep the mirror. */
  lemma MirrorsUnion(ds: DisjointSet, mst: seq<Edge>, n: nat, e: Edge)
    requires Mirrors(ds, mst, n) && 0 <= e.u < n && 0 <= e.v < n
    ensures Mirrors(Union(ds, e.u, e.v), mst + [e], n)
  {
    var d := Union(ds, e.u, e.v);
    forall x, y | 0 <= x < n && 0 <= y < n
      ensures SameSet(d, x, y) <==> Connected(mst + [e], x, y)
    {
      UnionSameSet(ds, e.u, e.v, x, y);
      ConnectedAppend(mst, e, x, y);
      assert SameSet(ds, e.v, y) <==> Connected(mst, e.v, y);
      assert SameSet(ds, e.u, y) <==> Connected(mst, e.u, y);
      assert SameSet(ds, x, e.u) <==> Connected(mst, x, e.u);
      assert SameSet(ds, x, e.v) <==> Connected(mst, x, e.v);
    }
  }

  /** Accepting an edge whose endpoints were not connected keeps the forest. */
  lemma ForestAppend(mst: seq<Edge>, e: Edge)
    requires IsForest(mst) && !Connected(mst, e.u, e.v)
    ensures IsForest(mst + [e])
  {
    var m := mst + [e];
    forall k | 0 <= k < |m|
      ensures !Connected(m[..k], m[k].u, m[k].v)
    {
      if k < |mst| {
        assert m[..k] == mst[..k] && m[k] == mst[k];
      } else {
        assert m[..k] == mst;
      }
    }
  }

  /** Earlier connections survive an accepted edge. */
  lemma ProcessedAppend(sorted: seq<Edge>, k: nat, mst: seq<Edge>, e: Edge)
    requires k <= |sorted|
    requires forall i :: 0 <= i < k ==> Connected(mst, sorted[i].u, sorted[i].v)
    ensures forall i :: 0 <= i < k ==> Connected(mst + [e], sorted[i].u, sorted[i].v)
  {
    forall i | 0 <= i < k
      ensures Connected(mst + [e], sorted[i].u, sorted[i].v)
    {
      ConnectedMono(mst, e, sorted[i].u, sorted[i].v);
    }
  }

  /** With one root left, all elements share a set. */
  lemma OneRoot(ds: DisjointSet, x: int, y: int)
    requires Valid(ds) && |Roots(ds)| == 1 && 0 <= x < |ds.parent| && 0 <= y < |ds.parent|
    ensures SameSet(ds, x, y)
  {
    var rx, ry := Root(ds, x), Root(ds, y);
    assert rx in Roots(ds) && ry in Roots(ds);
    var rest := Roots(ds) - {rx};
    assert |rest| == 0;
    assert ry !in rest;
  }

  /** When every element shares a set with element 0, one root is left. */
  lemma AllSameOneRoot(ds: DisjointSet)
    requires Valid(ds) && |ds.parent| >= 1
    requires forall x :: 0 <= x < |ds.parent| ==> SameSet(ds, x, 0)
    ensures |Roots(ds)| == 1
  {
    var r := Root(ds, 0);
    forall x | x in Roots(ds)
      ensures x == r
    {
      assert SameSet(ds, x, 0);
    }
    assert Roots(ds) == {r};
  }

  /** Once every edge of the matrix has been processed, every vertex is connected to 0. */
  lemma AllProcessedConnected(dist: Matrix, sorted: seq<Edge>, mst: seq<Edge>)
    requires IsSquare(dist) && multiset(sorted) == multiset(PairEdges(dist))
    requires forall i :: 0 <= i < |sorted| ==> Connected(mst, sorted[i].u, sorted[i].v)
    ensures forall x :: 0 <= x < |dist| ==> Connected(mst, x, 0)
  {
    forall x | 0 <= x < |dist|
      ensures Connected(mst, x, 0)
    {
      if x == 0 {
        ConnectedRefl(mst, 0);
      } else {
        var e := Edge(0, x, dist[0][x]);
        assert e in PairEdges(dist);
        assert e in multiset(sorted);
        var i :| 0 <= i < |sorted| && sorted[i] == e;
        ConnectedSym(mst, 0, x);
      }
    }
  }

  /** What the acceptance loop has established after processing the first k sorted edges:
      the union-find structure mirrors the accepted edges, every accepted edge is an edge of
      the matrix closing no cycle, each set has lost its root to one accepted edge, every
      processed edge has its endpoints connected, and the accepted edges are the ones
      Kruskal's rule picks so far. */
  ghost predicate Progress(dist: Matrix, sorted: seq<Edge>, k: nat, ds: DisjointSet, mst: seq<Edge>) {
    && IsSquare(dist) && |dist| >= 1 && k <= |sorted|
    && (forall i :: 0 <= i < |sorted| ==> EdgeOf(dist, sorted[i]))
    && Mirrors(ds, mst, |dist|)
    && |Roots(ds)| + |mst| == |dist|
    && (forall i :: 0 <= i < k ==> Connected(mst, sorted[i].u, sorted[i].v))
    && (forall j :: 0 <= j < |mst| ==> EdgeOf(dist, mst[j]))
    && IsForest(mst)
    && if |mst| == |dist| - 1 then mst == Greedy(sorted, [], |dist| - 1)
       else Greedy(sorted[k..], mst, |dist| - 1) == Greedy(sorted, [], |dist| - 1)
  }

  /** Before the loop nothing is accepted and every vertex is its own set. */
  lemma ProgressInit(dist: Matrix, sorted: seq<Edge>)
    requires IsSquare(dist) && |dist| >= 1
    requires multiset(sorted) == multiset(PairEdges(dist))
    ensures Progress(dist, sorted, 0, Init(|dist|), [])
  {
    forall i | 0 <= i < |sorted| ensures EdgeOf(dist, sorted[i]) {
      assert sorted[i] in multiset(PairEdges(dist));
    }
    assert |dist| == 1 ==> |sorted| == 0 by {
      assert |sorted| == |multiset(sorted)| == |multiset(PairEdges(dist))|;
    }
    InitRoots(|dist|);
    MirrorsInit(|dist|);
  }

  /** The two `find` calls of the acceptance test: the sets stay as they were, and the roots
      differ exactly when the accepted edges do not connect the endpoints. */
  lemma ProgressFinds(dist: Matrix, sorted: seq<Edge>, k: nat, ds: DisjointSet, mst: seq<Edge>)
    requires Progress(dist, sorted, k, ds, mst) && k < |sorted|
    ensures var e := sorted[k];
      var fu := Find(ds, e.u);
      var fv := Find(fu.ds, e.v);
      && Progress(dist, sorted, k, fv.ds, mst)
      && (fu.root != fv.root <==> !Connected(mst, e.u, e.v))
  {
    var e := sorted[k];
    var n := |dist|;
    var fu := Find(ds, e.u);
    MirrorsFind(ds, mst, n, e.u);
    var fv := Find(fu.ds, e.v);
    MirrorsFind(fu.ds, mst, n, e.v);
    assert SameSet(ds, e.u, e.v) <==> Connected(mst, e.u, e.v);
  }

  /** An edge whose endpoints are already connected is skipped. */
  lemma ProgressReject(dist: Matrix, sorted: seq<Edge>, k: nat, ds: DisjointSet, mst: seq<Edge>)
    requires Progress(dist, sorted, k, ds, mst) && k < |sorted|
    requires Connected(mst, sorted[k].u, sorted[k].v)
    ensures Progress(dist, sorted, k + 1, ds, mst)
  {
    assert sorted[k..][0] == sorted[k] && sorted[k..][1..] == sorted[k + 1..];
  }

  /** An edge whose endpoints are not yet connected is accepted and its endpoints united;
      when it is the (n-1)-th, Kruskal's rule stops with it. */
  lemma ProgressAccept(dist: Matrix, sorted: seq<Edge>, k: nat, ds: DisjointSet, mst: seq<Edge>)
    requires Progress(dist, sorted, k, ds, mst) && k < |sorted| && |mst| < |dist| - 1
    requires !Connected(mst, sorted[k].u, sorted[k].v)
    ensures Progress(dist, sorted, k + 1, Union(ds, sorted[k].u, sorted[k].v), mst + [sorted[k]])
  {
    AcceptSets(dist, sorted, k, ds, mst);
    AcceptConnects(dist, sorted, k, ds, mst);
    AcceptGreedy(dist, sorted, k, ds, mst);
  }

  /** Accepting the edge keeps the structure mirroring the forest, one set fewer. */
  lemma AcceptSets(dist: Matrix, sorted: seq<Edge>, k: nat, ds: DisjointSet, mst: seq<Edge>)
    requires Progress(dist, sorted, k, ds, mst) && k < |sorted| && |mst| < |dist| - 1
    requires !Connected(mst, sorted[k].u, sorted[k].v)
    ensures var d', m' := Union(ds, sorted[k].u, sorted[k].v), mst + [sorted[k]];
      Mirrors(d', m', |dist|) && |Roots(d')| + |m'| == |dist| && IsForest(m')
  {
    var e := sorted[k];
    assert SameSet(ds, e.u, e.v) <==> Connected(mst, e.u, e.v);
    UnionRoots(ds, e.u, e.v);
    MirrorsUnion(ds, mst, |dist|, e);
    ForestAppend(mst, e);
  }

  /** After accepting the edge every processed edge has connected endpoints, and every
      accepted edge is an edge of the matrix. */
  lemma AcceptConnects(dist: Matrix, sorted: seq<Edge>, k: nat, ds: DisjointSet, mst: seq<Edge>)
    requires Progress(dist, sorted, k, ds, mst) && k < |sorted|
    ensures var m' := mst + [sorted[k]];
      && (forall i :: 0 <= i < k + 1 ==> Connected(m', sorted[i].u, sorted[i].v))
      && (forall j :: 0 <= j < |m'| ==> EdgeOf(dist, m'[j]))
  {
    var e := sorted[k];
    var m' := mst + [e];
    ProcessedAppend(sorted, k, mst, e);
    ConnectedRefl(mst, e.u);
    ConnectedAppend(mst, e, e.u, e.v);
    assert Connected(m', e.u, e.v);
    assert forall j :: 0 <= j < |m'| ==> EdgeOf(dist, m'[j]);
  }

  /** Kruskal's rule takes the edge too, and stops with it when it is the (n-1)-th. */
  lemma AcceptGreedy(dist: Matrix, sorted: seq<Edge>, k: nat, ds: DisjointSet, mst: seq<Edge>)
    requires Progress(dist, sorted, k, ds, mst) && k < |sorted| && |mst| < |dist| - 1
    requires !Connected(mst, sorted[k].u, sorted[k].v)
    ensures var n, m' := |dist|, mst + [sorted[k]];
      if |m'| == n - 1 then m' == Greedy(sorted, [], n - 1)
      else Greedy(sorted[k + 1..], m', n - 1) == Greedy(sorted, [], n - 1)
  {
    var e := sorted[k];
    var n := |dist|;
    var m' := mst + [e];
    assert sorted[k..][0] == e && sorted[k..][1..] == sorted[k + 1..];
    assert Greedy(sorted[k..], mst, n - 1) ==
      if |m'| == n - 1 then m' else Greedy(sorted[k + 1..], m', n - 1);
  }

  /** n-1 accepted edges leave one set, so they connect every pair of vertices. */
  lemma SpanningAtLimit(dist: Matrix, sorted: seq<Edge>, k: nat, ds: DisjointSet, mst: seq<Edge>)
    requires Progress(dist, sorted, k, ds, mst) && |mst| == |dist| - 1
    ensures forall x, y :: 0 <= x < |dist| && 0 <= y < |dist| ==> Connected(mst, x, y)
  {
    forall x, y | 0 <= x < |dist| && 0 <= y < |dist|
      ensures Connected(mst, x, y)
    {
      OneRoot(ds, x, y);
    }
  }

  /** Once every edge has been processed, all vertices are in one set, so n-1 edges were
      accepted. */
  lemma AllProcessed(dist: Matrix, sorted: seq<Edge>, ds: DisjointSet, mst: seq<Edge>)
    requires Progress(dist, sorted, |sorted|, ds, mst)
    requires multiset(sorted) == multiset(PairEdges(dist))
    ensures |mst| == |dist| - 1
  {
    AllProcessedConnected(dist, sorted, mst);
    forall x | 0 <= x < |dist|
      ensures SameSet(ds, x, 0)
    {
      assert Connected(mst, x, 0);
    }
    AllSameOneRoot(ds);
  }

  /** When the loop ends, by running out of edges or by reaching n-1, the accepted edges
      are what Kruskal's rule picks, n-1 of them, and they connect everything. */
  lemma ProgressDone(dist: Matrix, sorted: seq<Edge>, k: nat, ds: DisjointSet, mst: seq<Edge>)
    requires Progress(dist, sorted, k, ds, mst)
    requires k == |sorted| || |mst| == |dist| - 1
    requires multiset(sorted) == multiset(PairEdges(dist))
    ensures mst == Greedy(sorted, [], |dist| - 1)
    ensures |mst| == |dist| - 1
    ensures forall x, y :: 0 <= x < |dist| && 0 <= y < |dist| ==> Connected(mst, x, y)
  {
    if |mst| != |dist| - 1 {
      AllProcessed(dist, sorted, ds, mst);
    }
    SpanningAtLimit(dist, sorted, k, ds, mst);
  }

  /** One iteration of the acceptance loop (`src/Kruskal.java` lines 52-54): the edge is
      accepted when the two `find`s return different roots, and then its endpoints are
      united. */
  method Consider(dist: Matrix, sorted: seq<Edge>, k: nat, ds0: DisjointSet, mst0: seq<Edge>)
    returns (ds: DisjointSet, mst: seq<Edge>)
    requires Progress(dist, sorted, k, ds0, mst0) && k < |sorted| && |mst0| < |dist| - 1
    ensures Progress(dist, sorted, k + 1, ds, mst)
    ensures mst == if Connected(mst0, sorted[k].u, sorted[k].v) then mst0 else mst0 + [sorted[k]]
  {
    var e := sorted[k];
    ProgressFinds(dist, sorted, k, ds0, mst0);
    var fu := Find(ds0, e.u);
    var fv := Find(fu.ds, e.v);
    ds, mst := fv.ds, mst0;
    if fu.root != fv.root {
      ProgressAccept(dist, sorted, k, ds, mst);
      ds := Union(ds, e.u, e.v);
      mst := mst + [e];
    } else {
      ProgressReject(dist, sorted, k, ds, mst);
    }
  }

  /** The acceptance loop of `buildMST` (`src/Kruskal.java` lines 49-58) over the sorted
      edges, leaving it once n-1 edges are accepted. */
  method AcceptEdges(dist: Matrix, sorted: seq<Edge>) returns (mst: seq<Edge>)
    requires IsSquare(dist) && |dist| >= 1
    requires multiset(sorted) == multiset(PairEdges(dist))
    ensures mst == Greedy(sorted, [], |dist| - 1)
    ensures |mst| == |dist| - 1
    ensures forall k :: 0 <= k < |mst| ==> EdgeOf(dist, mst[k])
    ensures IsForest(mst)
    ensures forall x, y :: 0 <= x < |dist| && 0 <= y < |dist| ==> Connected(mst, x, y)
  {
    var n := |dist|;
    var ds := Init(n);
    mst := [];
    ProgressInit(dist, sorted);
    var k := 0;
    while k < |sorted|
      invariant Progress(dist, sorted, k, ds, mst)
      invariant |mst| < n - 1 || k == |sorted|
    {
      ds, mst := Consider(dist, sorted, k, ds, mst);
      k := k + 1;
      if |mst| == n - 1 {
        break;
      }
    }
    ProgressDone(dist, sorted, k, ds, mst);
  }

  /** Kruskal's rule only takes edges that are already taken or among the candidates. */
  lemma {:induction false} GreedyFrom(candidates: seq<Edge>, taken: seq<Edge>, limit: int, e: Edge)
    requires e in Greedy(candidates, taken, limit)
    ensures e in taken || e in candidates
    decreases |candidates|
  {
    if |candidates| > 0 {
      var c := candidates[0];
      if Connected(taken, c.u, c.v) {
        GreedyFrom(candidates[1..], taken, limit, e);
      } else if |taken| + 1 != limit {
        GreedyFrom(candidates[1..], taken + [c], limit, e);
      }
    }
  }

  /** The tree `buildMST` returns for an n x n matrix with n >= 1: Kruskal's rule over the
      stable-sorted pairs. Every edge in it is a pair of the matrix. */
  ghost function KruskalTree(dist: Matrix): (r: seq<Edge>)
    requires IsSquare(dist) && |dist| >= 1
    ensures forall k :: 0 <= k < |r| ==> EdgeOf(dist, r[k])
  {
    var sorted := SortByWeight(PairEdges(dist));
    var r := Greedy(sorted, [], |dist| - 1);
    forall k | 0 <= k < |r|
      ensures EdgeOf(dist, r[k])
    {
      GreedyFrom(sorted, [], |dist| - 1, r[k]);
      assert r[k] in multiset(sorted);
    }
    r
  }

  /** `buildMST` (`src/Kruskal.java` lines 39-59) for n >= 1: enumerate the pairs,
      stable-sort them by weight, and run the acceptance loop. The result is what Kruskal's
      rule on connectivity selects; it has exactly n-1 edges of the matrix, each closing no
      cycle, and it connects every pair of vertices. */
  method BuildMst(dist: Matrix) returns (mst: seq<Edge>)
    requires IsSquare(dist) && |dist| >= 1
    ensures mst == KruskalTree(dist)
    ensures |mst| == |dist| - 1
    ensures forall k :: 0 <= k < |mst| ==> EdgeOf(dist, mst[k])
    ensures IsForest(mst)
    ensures forall x, y :: 0 <= x < |dist| && 0 <= y < |dist| ==> Connected(mst, x, y)
  {
    var sorted := SortByWeight(PairEdges(dist));
    mst := AcceptEdges(dist, sorted);
  }
}
