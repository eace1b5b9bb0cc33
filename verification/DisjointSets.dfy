/** `Kruskal.DisjointSet`: union-find over the elements 0..n-1 with path compression in
    `find` and union by rank. The structure is a value here; each operation returns the
    updated structure. Its meaning is the forest of `parent` pointers: `Root` follows them
    without compressing, and two elements are in the same set when they share a root. */
module DisjointSets {
  import opened Tours

  /** The arrays `parent` and `rank`. */
  datatype DisjointSet = DisjointSet(parent: seq<int>, rank: seq<int>)

  /** The result of `find`: the structure after path compression and the root found. */
  datatype Found = Found(ds: DisjointSet, root: int)

  /** The largest entry of a list of ranks (0 for no entries). */
  function MaxRank(rank: seq<int>): (r: int)
    ensures forall i :: 0 <= i < |rank| ==> rank[i] <= r
  {
    if |rank| == 0 then 0
    else
      var m := MaxRank(rank[..|rank| - 1]);
      if rank[|rank| - 1] > m then rank[|rank| - 1] else m
  }

  /** The invariant union by rank keeps: every parent pointer stays inside 0..n-1, and a
      non-root's parent has strictly larger rank. The latter is why `find` terminates. */
  predicate Valid(ds: DisjointSet) {
    && |ds.rank| == |ds.parent|
    && (forall x :: 0 <= x < |ds.parent| ==> 0 <= ds.parent[x] < |ds.parent|)
    && (forall x :: 0 <= x < |ds.rank| ==> ds.rank[x] >= 0)
    && (forall x :: 0 <= x < |ds.parent| && ds.parent[x] != x ==> ds.rank[ds.parent[x]] > ds.rank[x])
  }

  /** The root of x's tree, reached by following `parent` without changing anything. */
  function Root(ds: DisjointSet, x: int): (r: int)
    requires Valid(ds) && 0 <= x < |ds.parent|
    ensures 0 <= r < |ds.parent| && ds.parent[r] == r
    ensures ds.rank[r] >= ds.rank[x]
    ensures ds.parent[x] != x ==> ds.rank[r] > ds.rank[x]
    decreases MaxRank(ds.rank) - ds.rank[x]
  {
    if ds.parent[x] == x then x else Root(ds, ds.parent[x])
  }

  /** x and y lie in the same set. */
  predicate SameSet(ds: DisjointSet, x: int, y: int)
    requires Valid(ds) && 0 <= x < |ds.parent| && 0 <= y < |ds.parent|
  {
    Root(ds, x) == Root(ds, y)
  }

  /** The roots, one per set. */
  function Roots(ds: DisjointSet): set<int> {
    set x | 0 <= x < |ds.parent| && ds.parent[x] == x
  }

  /** The constructor (`src/Kruskal.java` lines 20-23): every element its own parent, every
      rank 0. */
  function Init(n: nat): (ds: DisjointSet)
    ensures Valid(ds) && |ds.parent| == n
    ensures forall x :: 0 <= x < n ==> ds.parent[x] == x && ds.rank[x] == 0
    ensures forall x :: 0 <= x < n ==> Root(ds, x) == x
  {
    DisjointSet(seq(n, i => i), seq(n, _ => 0))
  }

  /** There are n singleton sets initially. */
  lemma InitRoots(n: nat)
    ensures |Roots(Init(n))| == n
  {
    assert Roots(Init(n)) == Vertices(n);
    VerticesCard(n);
  }

  /** Pointing x straight at its root, as path compression does. */
  function Redirect(ds: DisjointSet, x: int, r: int): DisjointSet
    requires 0 <= x < |ds.parent|
  {
    ds.(parent := ds.parent[x := r])
  }

  /** Redirecting x to its own root keeps the invariant and every element's root. */
  lemma RedirectValid(ds: DisjointSet, x: int, r: int)
    requires Valid(ds) && 0 <= x < |ds.parent| && r == Root(ds, x)
    ensures Valid(Redirect(ds, x, r))
    ensures forall y :: 0 <= y < |ds.parent| ==> Root(Redirect(ds, x, r), y) == Root(ds, y)
  {
    forall y | 0 <= y < |ds.parent|
      ensures Root(Redirect(ds, x, r), y) == Root(ds, y)
    {
      RedirectRoot(ds, x, r, y);
    }
  }

  lemma {:induction false} RedirectRoot(ds: DisjointSet, x: int, r: int, y: int)
    requires Valid(ds) && 0 <= x < |ds.parent| && r == Root(ds, x)
    requires 0 <= y < |ds.parent|
    ensures Valid(Redirect(ds, x, r))
    ensures Root(Redirect(ds, x, r), y) == Root(ds, y)
    decreases MaxRank(ds.rank) - ds.rank[y]
  {
    var ds' := Redirect(ds, x, r);
    if ds.parent[y] == y {
    } else if y == x {
      assert ds'.parent[r] == r;
    } else {
      RedirectRoot(ds, x, r, ds.parent[y]);
    }
  }

  /** `find` (`src/Kruskal.java` lines 25-28): the root of x, with x and every element on
      its path pointed straight at that root. The sets, the roots and the ranks stay as they
      were; a pointer only ever changes to the element's own root. */
  function Find(ds: DisjointSet, x: int): (res: Found)
    requires Valid(ds) && 0 <= x < |ds.parent|
    ensures Valid(res.ds) && |res.ds.parent| == |ds.parent| && res.ds.rank == ds.rank
    ensures res.root == Root(ds, x) && res.ds.parent[x] == res.root
    ensures forall y {:trigger Root(res.ds, y)} :: 0 <= y < |ds.parent| ==> Root(res.ds, y) == Root(ds, y)
    ensures forall y {:trigger res.ds.parent[y]} :: 0 <= y < |ds.parent| ==>
      res.ds.parent[y] == ds.parent[y] || res.ds.parent[y] == Root(ds, y)
    decreases MaxRank(ds.rank) - ds.rank[x]
  {
    if ds.parent[x] == x then Found(ds, x)
    else
      var inner := Find(ds, ds.parent[x]);
      RedirectValid(inner.ds, x, inner.root);
      Found(Redirect(inner.ds, x, inner.root), inner.root)
  }

  /** Compression leaves the set of roots alone. */
  lemma FindRoots(ds: DisjointSet, x: int)
    requires Valid(ds) && 0 <= x < |ds.parent|
    ensures Roots(Find(ds, x).ds) == Roots(ds)
  {
    var d := Find(ds, x).ds;
    forall y | 0 <= y < |ds.parent|
      ensures d.parent[y] == y <==> ds.parent[y] == y
    {
      var r := Root(ds, y);
      assert ds.parent[r] == r;
    }
  }

  /** Hanging root `child` under root `top`, and giving `top` the rank `topRank`. */
  function Link(ds: DisjointSet, child: int, top: int, topRank: int): DisjointSet
    requires 0 <= child < |ds.parent| && 0 <= top < |ds.rank|
  {
    DisjointSet(ds.parent[child := top], ds.rank[top := topRank])
  }

  /** Linking two distinct roots, with a rank for the new top that exceeds the child's and
      does not drop, keeps the invariant and moves exactly the child's set under `top`. */
  lemma {:induction false} LinkRoot(ds: DisjointSet, child: int, top: int, topRank: int, y: int)
    requires Valid(ds) && 0 <= child < |ds.parent| && 0 <= top < |ds.parent| && child != top
    requires ds.parent[child] == child && ds.parent[top] == top
    requires topRank >= ds.rank[top] && topRank > ds.rank[child]
    requires 0 <= y < |ds.parent|
    ensures Valid(Link(ds, child, top, topRank))
    ensures Root(Link(ds, child, top, topRank), y) == if Root(ds, y) == child then top else Root(ds, y)
    decreases MaxRank(ds.rank) - ds.rank[y]
  {
    var ds' := Link(ds, child, top, topRank);
    assert Valid(ds') by {
      forall x | 0 <= x < |ds'.parent| && ds'.parent[x] != x
        ensures ds'.rank[ds'.parent[x]] > ds'.rank[x]
      {
        if x != child {
          assert ds'.parent[x] == ds.parent[x] && x != top;
        }
      }
    }
    if y == child {
      assert ds'.parent[top] == top;
    } else if ds.parent[y] != y {
      LinkRoot(ds, child, top, topRank, ds.parent[y]);
    }
  }

  /** The roots after linking: the child's root is gone. */
  lemma LinkRoots(ds: DisjointSet, child: int, top: int, topRank: int)
    requires Valid(ds) && 0 <= child < |ds.parent| && 0 <= top < |ds.parent| && child != top
    requires ds.parent[child] == child && ds.parent[top] == top
    ensures Roots(Link(ds, child, top, topRank)) == Roots(ds) - {child}
  {
  }

  /** The linking step of `union` on the two roots it found: nothing when they coincide,
      otherwise the lower-rank root goes under the other; on equal ranks `rb` goes under
      `ra`, whose rank grows by one. */
  function LinkStep(d: DisjointSet, ra: int, rb: int): DisjointSet
    requires Valid(d) && 0 <= ra < |d.parent| && 0 <= rb < |d.parent|
  {
    if ra == rb then d
    else if d.rank[ra] < d.rank[rb] then Link(d, ra, rb, d.rank[rb])
    else if d.rank[ra] > d.rank[rb] then Link(d, rb, ra, d.rank[ra])
    else Link(d, rb, ra, d.rank[ra] + 1)
  }

  /** The ranks after linking roots ra and rb: only a tie between distinct roots raises
      the rank of `ra`, by one. */
  function RankAfterLink(rank: seq<int>, ra: int, rb: int): seq<int>
    requires 0 <= ra < |rank| && 0 <= rb < |rank|
  {
    if ra != rb && rank[ra] == rank[rb] then rank[ra := rank[ra] + 1] else rank
  }

  /** The linking step keeps the invariant, merges the sets of the two roots under the
      higher-rank one (`ra` on a tie) and touches no other set. */
  lemma LinkStepSpec(d: DisjointSet, ra: int, rb: int)
    requires Valid(d) && 0 <= ra < |d.parent| && 0 <= rb < |d.parent|
    requires d.parent[ra] == ra && d.parent[rb] == rb
    ensures Valid(LinkStep(d, ra, rb)) && |LinkStep(d, ra, rb).parent| == |d.parent|
    ensures var top := if ra != rb && d.rank[ra] < d.rank[rb] then rb else ra;
      forall y :: 0 <= y < |d.parent| ==>
        Root(LinkStep(d, ra, rb), y) == if Root(d, y) == ra || Root(d, y) == rb then top else Root(d, y)
    ensures LinkStep(d, ra, rb).rank ==
      RankAfterLink(d.rank, ra, rb)
  {
    if ra == rb {
    } else if d.rank[ra] < d.rank[rb] {
      LinkAll(d, ra, rb, d.rank[rb]);
    } else if d.rank[ra] > d.rank[rb] {
      LinkAll(d, rb, ra, d.rank[ra]);
    } else {
      LinkAll(d, rb, ra, d.rank[ra] + 1);
    }
  }

  /** `union` (`src/Kruskal.java` lines 30-36): finds the root of a and then of b
      (compressing both paths) and links the two roots. */
  function Union(ds: DisjointSet, a: int, b: int): (r: DisjointSet)
    requires Valid(ds) && 0 <= a < |ds.parent| && 0 <= b < |ds.parent|
    ensures Valid(r) && |r.parent| == |ds.parent|
    ensures var ra := Root(ds, a);
      var rb := Root(ds, b);
      var top := if ra != rb && ds.rank[ra] < ds.rank[rb] then rb else ra;
      forall y :: 0 <= y < |ds.parent| ==>
        Root(r, y) == if Root(ds, y) == ra || Root(ds, y) == rb then top else Root(ds, y)
    ensures var ra := Root(ds, a);
      var rb := Root(ds, b);
      r.rank == RankAfterLink(ds.rank, ra, rb)
  {
    var fa := Find(ds, a);
    var fb := Find(fa.ds, b);
    FindKeepsRoot(ds, a, fa.root);
    FindKeepsRoot(fa.ds, b, fa.root);
    SecondRoot(fa.ds, b, fb);
    LinkAfterFinds(ds, fb.ds, fa.root, fb.root);
    LinkStep(fb.ds, fa.root, fb.root)
  }

  /** The root `find` returns is a root of the compressed structure too. */
  lemma SecondRoot(ds: DisjointSet, x: int, f: Found)
    requires Valid(ds) && 0 <= x < |ds.parent| && f == Find(ds, x)
    ensures f.ds.parent[f.root] == f.root
  {
    assert Root(f.ds, x) == f.root;
  }

  /** `find` leaves a root's pointer alone. */
  lemma FindKeepsRoot(ds: DisjointSet, x: int, r: int)
    requires Valid(ds) && 0 <= x < |ds.parent| && 0 <= r < |ds.parent| && ds.parent[r] == r
    ensures Find(ds, x).ds.parent[r] == r
  {
    assert Root(ds, r) == r;
  }

  /** The linking step applied to a structure `d` with the same sets and ranks as `ds`,
      stated in terms of `ds`. */
  lemma LinkAfterFinds(ds: DisjointSet, d: DisjointSet, ra: int, rb: int)
    requires Valid(ds) && Valid(d) && |d.parent| == |ds.parent| && d.rank == ds.rank
    requires forall y :: 0 <= y < |ds.parent| ==> Root(d, y) == Root(ds, y)
    requires 0 <= ra < |ds.parent| && 0 <= rb < |ds.parent| && d.parent[ra] == ra && d.parent[rb] == rb
    ensures Valid(LinkStep(d, ra, rb)) && |LinkStep(d, ra, rb).parent| == |ds.parent|
    ensures var top := if ra != rb && ds.rank[ra] < ds.rank[rb] then rb else ra;
      forall y :: 0 <= y < |ds.parent| ==>
        Root(LinkStep(d, ra, rb), y) == if Root(ds, y) == ra || Root(ds, y) == rb then top else Root(ds, y)
    ensures LinkStep(d, ra, rb).rank ==
      RankAfterLink(ds.rank, ra, rb)
  {
    LinkStepSpec(d, ra, rb);
  }

  /** `LinkRoot` for every element at once. */
  lemma LinkAll(ds: DisjointSet, child: int, top: int, topRank: int)
    requires Valid(ds) && 0 <= child < |ds.parent| && 0 <= top < |ds.parent| && child != top
    requires ds.parent[child] == child && ds.parent[top] == top
    requires topRank >= ds.rank[top] && topRank > ds.rank[child]
    ensures Valid(Link(ds, child, top, topRank))
    ensures forall y :: 0 <= y < |ds.parent| ==>
      Root(Link(ds, child, top, topRank), y) == if Root(ds, y) == child then top else Root(ds, y)
  {
    LinkRoot(ds, child, top, topRank, child);
    forall y | 0 <= y < |ds.parent|
      ensures Root(Link(ds, child, top, topRank), y) == if Root(ds, y) == child then top else Root(ds, y)
    {
      LinkRoot(ds, child, top, topRank, y);
    }
  }

  /** After `union(a, b)` two elements share a set exactly when they did before, or one was
      with a and the other with b: those two sets merge and no others. */
  lemma UnionSameSet(ds: DisjointSet, a: int, b: int, x: int, y: int)
    requires Valid(ds) && 0 <= a < |ds.parent| && 0 <= b < |ds.parent|
    requires 0 <= x < |ds.parent| && 0 <= y < |ds.parent|
    ensures SameSet(Union(ds, a, b), x, y) <==>
      || SameSet(ds, x, y)
      || (SameSet(ds, x, a) && SameSet(ds, b, y))
      || (SameSet(ds, x, b) && SameSet(ds, a, y))
  {
  }

  /** Linking two distinct roots removes exactly one root. */
  lemma LinkStepRoots(d: DisjointSet, ra: int, rb: int)
    requires Valid(d) && 0 <= ra < |d.parent| && 0 <= rb < |d.parent|
    requires d.parent[ra] == ra && d.parent[rb] == rb
    ensures |Roots(LinkStep(d, ra, rb))| == if ra == rb then |Roots(d)| else |Roots(d)| - 1
  {
    if ra != rb {
      var child := if d.rank[ra] < d.rank[rb] then ra else rb;
      var top := if d.rank[ra] < d.rank[rb] then rb else ra;
      var topRank := if d.rank[ra] == d.rank[rb] then d.rank[ra] + 1 else d.rank[top];
      assert LinkStep(d, ra, rb) == Link(d, child, top, topRank);
      LinkRoots(d, child, top, topRank);
      assert child in Roots(d);
    }
  }

  /** `union` of two different sets removes exactly one root; of one set, none. */
  lemma UnionRoots(ds: DisjointSet, a: int, b: int)
    requires Valid(ds) && 0 <= a < |ds.parent| && 0 <= b < |ds.parent|
    ensures |Roots(Union(ds, a, b))| == if SameSet(ds, a, b) then |Roots(ds)| else |Roots(ds)| - 1
  {
    var fa := Find(ds, a);
    FindRoots(ds, a);
    var fb := Find(fa.ds, b);
    FindRoots(fa.ds, b);
    assert fb.root == Root(ds, b);
    LinkStepRoots(fb.ds, fa.root, fb.root);
  }
}
