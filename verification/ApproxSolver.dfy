/** `ApproxSolver.solve`, the MST-preorder approximation (`src/tsp/ApproxSolver.java`, and
    the same logic in `src/ApproxSolver.java`): build Kruskal's tree, turn it into adjacency
    lists in acceptance order, list the vertices in depth-first preorder from 0, close the
    cycle with 0 and sum the matrix weights along it. */
module ApproxSolver {
  import opened Tours
  import opened Graphs
  import opened Kruskal

  /** The adjacency list of x after the edges of `mst` were added in order: for an edge
      (u, v), v is appended to u's list and then u to v's list. */
  function Neighbours(mst: seq<Edge>, x: int): seq<int> {
    if |mst| == 0 then []
    else
      var e := mst[|mst| - 1];
      Neighbours(mst[..|mst| - 1], x) + (if e.u == x then [e.v] else []) + (if e.v == x then [e.u] else [])
  }

  /** The lists hold exactly the tree's adjacencies, in both directions. */
  lemma {:induction false} NeighboursAdjacent(mst: seq<Edge>, x: int, y: int)
    ensures y in Neighbours(mst, x) <==> Adjacent(mst, x, y)
  {
    if |mst| > 0 {
      var init := mst[..|mst| - 1];
      var e := mst[|mst| - 1];
      assert mst == init + [e];
      NeighboursAdjacent(init, x, y);
      if y in Neighbours(mst, x) {
        if y in Neighbours(init, x) {
          AdjacentMono(init, e, x, y);
        } else {
          assert Joins(mst[|init|], x, y);
        }
      }
      if Adjacent(mst, x, y) {
        AdjacentAppend(init, e, x, y);
      }
    }
  }

  /** Every endpoint of every edge lies below n. */
  predicate EndpointsBelow(mst: seq<Edge>, n: int) {
    forall k :: 0 <= k < |mst| ==> 0 <= mst[k].u < n && 0 <= mst[k].v < n
  }

  /** n adjacency lists whose entries are all vertices below n. */
  predicate AdjOk(adj: seq<seq<int>>, n: int) {
    |adj| == n && forall x, k :: 0 <= x < n && 0 <= k < |adj[x]| ==> 0 <= adj[x][k] < n
  }

  /** The adjacency lists of the tree over n vertices. */
  function AdjacencyOf(mst: seq<Edge>, n: nat): (adj: seq<seq<int>>)
    requires EndpointsBelow(mst, n)
    ensures AdjOk(adj, n)
    ensures forall x, y :: 0 <= x < n ==> (y in adj[x] <==> Adjacent(mst, x, y))
  {
    var adj := seq(n, x => Neighbours(mst, x));
    forall x, y | 0 <= x < n
      ensures y in adj[x] <==> Adjacent(mst, x, y)
    {
      NeighboursAdjacent(mst, x, y);
    }
    forall x, k | 0 <= x < n && 0 <= k < |adj[x]|
      ensures 0 <= adj[x][k] < n
    {
      var y := adj[x][k];
      NeighboursAdjacent(mst, x, y);
      var i :| 0 <= i < |mst| && Joins(mst[i], x, y);
    }
    adj
  }

  /** The adjacency loop (`src/tsp/ApproxSolver.java` lines 22-27): n empty lists, then
      each tree edge in acceptance order adds each endpoint to the other's list. */
  method BuildAdjacency(mst: seq<Edge>, n: nat) returns (adj: seq<seq<int>>)
    requires EndpointsBelow(mst, n)
    ensures adj == AdjacencyOf(mst, n)
    ensures forall x, y :: 0 <= x < n ==> (y in adj[x] <==> Adjacent(mst, x, y))
  {
    adj := seq(n, x => []);
    var i := 0;
    while i < |mst|
      invariant i <= |mst|
      invariant |adj| == n
      invariant forall x :: 0 <= x < n ==> adj[x] == Neighbours(mst[..i], x)
    {
      var e := mst[i];
      assert mst[..i + 1][..i] == mst[..i];
      adj := adj[e.u := adj[e.u] + [e.v]];
      adj := adj[e.v := adj[e.v] + [e.u]];
      i := i + 1;
    }
    assert mst[..|mst|] == mst;
  }

  /** The state `dfs` threads through its calls: the `vis` flags as a set, and the `out`
      list. */
  datatype Visit = Visit(visited: set<int>, out: seq<int>)

  /** A vertex is flagged exactly when it has been emitted, and nothing is emitted twice. */
  predicate Consistent(st: Visit) {
    st.visited == Elems(st.out) && Distinct(st.out)
  }

  /** Every neighbour of x is in `vis`. */
  predicate Explored(adj: seq<seq<int>>, x: int, vis: set<int>) {
    0 <= x < |adj| && forall k :: 0 <= k < |adj[x]| ==> adj[x][k] in vis
  }

  /** Flagging one more vertex leaves one fewer unflagged vertex. */
  lemma FewerUnvisited(n: nat, vis: set<int>, u: int)
    requires 0 <= u < n && u !in vis
    ensures |Vertices(n) - (vis + {u})| < |Vertices(n) - vis|
  {
    assert Vertices(n) - vis == (Vertices(n) - (vis + {u})) + {u};
  }

  /** Flagging more vertices never leaves more unflagged vertices. */
  lemma NoMoreUnvisited(n: nat, a: set<int>, b: set<int>)
    requires a <= b
    ensures |Vertices(n) - b| <= |Vertices(n) - a|
  {
    var d := Vertices(n) - a;
    assert d == (Vertices(n) - b) + (d * b);
  }

  /** Emitting a new vertex keeps the flags and the output list in step. */
  lemma EmitKeepsConsistent(st: Visit, u: int)
    requires Consistent(st) && u !in st.visited
    ensures Consistent(Visit(st.visited + {u}, st.out + [u]))
  {
    var out := st.out + [u];
    assert Elems(out) == Elems(st.out) + {u} by {
      forall x ensures x in Elems(out) <==> x in Elems(st.out) + {u} {
        if x in out {
          var k :| 0 <= k < |out| && out[k] == x;
          if k < |st.out| {
            assert st.out[k] == x;
          }
        }
        if x in st.out {
          var k :| 0 <= k < |st.out| && st.out[k] == x;
          assert out[k] == x;
        }
      }
    }
  }

  /** `dfs(u, …)` (`src/tsp/ApproxSolver.java` lines 46-52): flag u, emit it, and visit its
      neighbours in list order. Called on an unflagged vertex, it emits u first, keeps the
      earlier output, never emits a vertex twice, and leaves every vertex it flags with all
      its neighbours flagged. */
  function Dfs(adj: seq<seq<int>>, u: int, st: Visit): (r: Visit)
    requires AdjOk(adj, |adj|) && 0 <= u < |adj| && u !in st.visited
    requires Consistent(st) && InRange(st.out, |adj|)
    ensures Consistent(r) && InRange(r.out, |adj|)
    ensures |st.out| < |r.out| && r.out[..|st.out|] == st.out && r.out[|st.out|] == u
    ensures st.visited <= r.visited
    ensures forall x :: x in r.visited && x !in st.visited ==> Explored(adj, x, r.visited)
    decreases |Vertices(|adj|) - st.visited|, 0, 0
  {
    var st1 := Visit(st.visited + {u}, st.out + [u]);
    EmitKeepsConsistent(st, u);
    FewerUnvisited(|adj|, st.visited, u);
    var r := DfsList(adj, adj[u], st1);
    EmitThenList(adj, u, st, r);
    r
  }

  /** What `Dfs` promises follows from what the neighbour loop promises after u is emitted. */
  lemma EmitThenList(adj: seq<seq<int>>, u: int, st: Visit, r: Visit)
    requires 0 <= u < |adj| && u !in st.visited
    requires Consistent(r)
    requires |st.out| + 1 <= |r.out| && r.out[..|st.out| + 1] == st.out + [u]
    requires st.visited + {u} <= r.visited
    requires forall k :: 0 <= k < |adj[u]| ==> adj[u][k] in r.visited
    requires forall x :: x in r.visited && x !in st.visited + {u} ==> Explored(adj, x, r.visited)
    ensures |st.out| < |r.out| && r.out[..|st.out|] == st.out && r.out[|st.out|] == u
    ensures st.visited <= r.visited
    ensures forall x :: x in r.visited && x !in st.visited ==> Explored(adj, x, r.visited)
  {
    assert r.out[..|st.out|] == r.out[..|st.out| + 1][..|st.out|];
    assert r.out[|st.out|] == r.out[..|st.out| + 1][|st.out|];
    assert Explored(adj, u, r.visited);
  }

  /** The loop over `adj.get(u)` in `dfs`: each unflagged neighbour in turn is visited. */
  function DfsList(adj: seq<seq<int>>, vs: seq<int>, st: Visit): (r: Visit)
    requires AdjOk(adj, |adj|) && InRange(vs, |adj|)
    requires Consistent(st) && InRange(st.out, |adj|)
    ensures Consistent(r) && InRange(r.out, |adj|)
    ensures |st.out| <= |r.out| && r.out[..|st.out|] == st.out
    ensures st.visited <= r.visited
    ensures forall k :: 0 <= k < |vs| ==> vs[k] in r.visited
    ensures forall x :: x in r.visited && x !in st.visited ==> Explored(adj, x, r.visited)
    decreases |Vertices(|adj|) - st.visited|, 1, |vs|
  {
    if |vs| == 0 then st
    else
      var v := vs[0];
      var st1 := if v in st.visited then st else Dfs(adj, v, st);
      NoMoreUnvisited(|adj|, st.visited, st1.visited);
      var r := DfsList(adj, vs[1..], st1);
      HeadThenRest(adj, vs, st, st1, r);
      r
  }

  /** What `DfsList` promises follows from the visit of the first neighbour (if it was
      unflagged) and what the loop promises for the rest. */
  lemma HeadThenRest(adj: seq<seq<int>>, vs: seq<int>, st: Visit, st1: Visit, r: Visit)
    requires |vs| > 0
    requires |st.out| <= |st1.out| && st1.out[..|st.out|] == st.out
    requires st.visited <= st1.visited && vs[0] in st1.visited
    requires forall x :: x in st1.visited && x !in st.visited ==> Explored(adj, x, st1.visited)
    requires |st1.out| <= |r.out| && r.out[..|st1.out|] == st1.out
    requires st1.visited <= r.visited
    requires forall k :: 0 <= k < |vs[1..]| ==> vs[1..][k] in r.visited
    requires forall x :: x in r.visited && x !in st1.visited ==> Explored(adj, x, r.visited)
    ensures |st.out| <= |r.out| && r.out[..|st.out|] == st.out
    ensures st.visited <= r.visited
    ensures forall k :: 0 <= k < |vs| ==> vs[k] in r.visited
    ensures forall x :: x in r.visited && x !in st.visited ==> Explored(adj, x, r.visited)
  {
    assert r.out[..|st.out|] == r.out[..|st1.out|][..|st.out|];
    assert forall k :: 1 <= k < |vs| ==> vs[k] == vs[1..][k - 1];
  }

  /** The preorder `solve` collects: `dfs(0, …)` with nothing flagged yet. */
  function Preorder(adj: seq<seq<int>>): (out: seq<int>)
    requires AdjOk(adj, |adj|) && |adj| >= 1
    ensures InRange(out, |adj|) && Distinct(out)
    ensures |out| >= 1 && out[0] == 0
  {
    Dfs(adj, 0, Visit({}, [])).out
  }

  /** x is a vertex that still has a neighbour `seen` does not list. */
  predicate Open(adj: seq<seq<int>>, seen: seq<int>, x: int) {
    0 <= x < |adj| && exists k :: 0 <= k < |adj[x]| && adj[x][k] !in seen
  }

  /** y is the first entry of `vs` that `seen` does not list. */
  predicate FirstUnseen(vs: seq<int>, seen: seq<int>, y: int) {
    exists k :: 0 <= k < |vs| && vs[k] == y && y !in seen && forall m :: 0 <= m < k ==> vs[m] in seen
  }

  /** The depth-first rule for entry i: among the entries before i, take the latest one that
      still has a neighbour missing from `out[..i]`; entry i is the first such neighbour in
      that entry's list. */
  predicate DepthFirstAt(adj: seq<seq<int>>, out: seq<int>, i: int) {
    0 < i < |out| &&
    exists j :: 0 <= j < i && Open(adj, out[..i], out[j])
      && (forall m :: j < m < i ==> !Open(adj, out[..i], out[m]))
      && FirstUnseen(adj[out[j]], out[..i], out[i])
  }

  /** Every entry from index `lo` on follows the depth-first rule. */
  predicate DepthFirstFrom(adj: seq<seq<int>>, out: seq<int>, lo: int) {
    forall i :: lo <= i < |out| ==> DepthFirstAt(adj, out, i)
  }

  /** The depth-first order of the lists from 0: it starts at 0, every later entry follows
      the depth-first rule, and once it ends no entry has a neighbour left unlisted. */
  predicate DepthFirstOrder(adj: seq<seq<int>>, out: seq<int>) {
    |out| >= 1 && out[0] == 0
    && DepthFirstFrom(adj, out, 1)
    && (forall j :: 0 <= j < |out| ==> !Open(adj, out, out[j]))
  }

  /** The rule for entry i reads only the entries up to i, so it survives extending the
      list. */
  lemma DepthFirstAtExtends(adj: seq<seq<int>>, out: seq<int>, longer: seq<int>, i: int)
    requires DepthFirstAt(adj, out, i) && |out| <= |longer| && longer[..|out|] == out
    ensures DepthFirstAt(adj, longer, i)
  {
    assert longer[..i] == out[..i];
    var j :| 0 <= j < i && Open(adj, out[..i], out[j])
      && (forall m :: j < m < i ==> !Open(adj, out[..i], out[m]))
      && FirstUnseen(adj[out[j]], out[..i], out[i]);
    assert longer[j] == out[j] && longer[i] == out[i];
    forall m | j < m < i
      ensures !Open(adj, longer[..i], longer[m])
    {
      assert longer[m] == out[m];
    }
  }

  /** A vertex whose neighbours are all flagged has none left unlisted. */
  lemma ExploredClosed(adj: seq<seq<int>>, x: int, out: seq<int>)
    requires Explored(adj, x, Elems(out))
    ensures !Open(adj, out, x)
  {
    forall k | 0 <= k < |adj[x]|
      ensures adj[x][k] in out
    {
      assert adj[x][k] in Elems(out);
    }
  }

  /** The head of a visit started from the list of w, the entry at `jw`, follows the
      depth-first rule: w still has it unlisted, every entry after w is finished, and every
      earlier entry of w's list is already listed. */
  lemma HeadDepthFirst(adj: seq<seq<int>>, w: int, jw: int, done: int, seen: seq<int>, out: seq<int>)
    requires 0 <= jw < |seen| && seen[jw] == w && 0 <= w < |adj|
    requires 0 <= done < |adj[w]| && adj[w][done] !in seen
    requires forall m :: 0 <= m < done ==> adj[w][m] in seen
    requires forall m :: jw < m < |seen| ==> !Open(adj, seen, seen[m])
    requires |seen| < |out| && out[..|seen|] == seen && out[|seen|] == adj[w][done]
    ensures DepthFirstAt(adj, out, |seen|)
  {
    var i := |seen|;
    assert out[..i][jw] == w;
    assert Open(adj, out[..i], out[jw]);
    forall m | jw < m < i
      ensures !Open(adj, out[..i], out[m])
    {
      assert out[m] == seen[m];
    }
    assert FirstUnseen(adj[out[jw]], out[..i], out[i]);
  }

  /** After a visit, the entries after `jw` are still all finished: the old ones keep their
      neighbours flagged, and the visit finished every vertex it added. */
  lemma ClosedAfter(adj: seq<seq<int>>, jw: nat, st: Visit, st1: Visit)
    requires Consistent(st) && Consistent(st1)
    requires |st.out| <= |st1.out| && st1.out[..|st.out|] == st.out && st.visited <= st1.visited
    requires forall m :: jw < m < |st.out| ==> Explored(adj, st.out[m], st.visited)
    requires forall x :: x in st1.visited && x !in st.visited ==> Explored(adj, x, st1.visited)
    ensures forall m :: jw < m < |st1.out| ==> Explored(adj, st1.out[m], st1.visited)
  {
    forall m | jw < m < |st1.out|
      ensures Explored(adj, st1.out[m], st1.visited)
    {
      var x := st1.out[m];
      assert x in Elems(st1.out);
      if m < |st.out| {
        assert x == st.out[m];
      } else {
        forall a | 0 <= a < |st.out|
          ensures st.out[a] != x
        {
          assert st1.out[a] == st.out[a];
        }
        assert x !in st.visited;
      }
    }
  }

  /** The rule at `lo` and from `lo + 1` on is the rule from `lo` on. */
  lemma HeadThenDepthFirst(adj: seq<seq<int>>, lo: int, out: seq<int>)
    requires DepthFirstAt(adj, out, lo) && DepthFirstFrom(adj, out, lo + 1)
    ensures DepthFirstFrom(adj, out, lo)
  {
  }

  /** The rule from `lo` up to the end of a prefix, and from there on, is the rule from
      `lo` on. */
  lemma DepthFirstJoin(adj: seq<seq<int>>, lo: int, out1: seq<int>, out: seq<int>)
    requires 0 <= lo <= |out1| <= |out| && out[..|out1|] == out1
    requires DepthFirstFrom(adj, out1, lo) && DepthFirstFrom(adj, out, |out1|)
    ensures DepthFirstFrom(adj, out, lo)
  {
    forall i | lo <= i < |out1|
      ensures DepthFirstAt(adj, out, i)
    {
      DepthFirstAtExtends(adj, out1, out, i);
    }
  }

  /** `dfs(u)` lists every vertex after u by the depth-first rule. */
  lemma {:induction false} DfsDepthFirst(adj: seq<seq<int>>, u: int, st: Visit)
    requires AdjOk(adj, |adj|) && 0 <= u < |adj| && u !in st.visited
    requires Consistent(st) && InRange(st.out, |adj|)
    ensures DepthFirstFrom(adj, Dfs(adj, u, st).out, |st.out| + 1)
    decreases |Vertices(|adj|) - st.visited|, 0, 0
  {
    var st1 := Visit(st.visited + {u}, st.out + [u]);
    EmitKeepsConsistent(st, u);
    FewerUnvisited(|adj|, st.visited, u);
    assert adj[u][0..] == adj[u];
    assert st1.out[|st.out|] == u;
    DfsListDepthFirst(adj, u, |st.out|, 0, adj[u], st1);
  }

  /** The neighbour loop of w, the entry at `jw`, from its entry `done` on: when the
      earlier entries of w's list are flagged and every entry after w is finished, each
      vertex the loop lists follows the depth-first rule. */
  lemma {:induction false} DfsListDepthFirst(adj: seq<seq<int>>, w: int, jw: nat, done: nat, vs: seq<int>, st: Visit)
    requires AdjOk(adj, |adj|) && InRange(vs, |adj|)
    requires Consistent(st) && InRange(st.out, |adj|)
    requires 0 <= jw < |st.out| && st.out[jw] == w && 0 <= w < |adj|
    requires 0 <= done <= |adj[w]| && vs == adj[w][done..]
    requires forall m :: 0 <= m < done ==> adj[w][m] in st.visited
    requires forall m :: jw < m < |st.out| ==> Explored(adj, st.out[m], st.visited)
    ensures DepthFirstFrom(adj, DfsList(adj, vs, st).out, |st.out|)
    decreases |Vertices(|adj|) - st.visited|, 1, |vs|
  {
    if |vs| > 0 {
      var v := vs[0];
      var st1 := if v in st.visited then st else Dfs(adj, v, st);
      NoMoreUnvisited(|adj|, st.visited, st1.visited);
      if v !in st.visited {
        VisitDepthFirst(adj, w, jw, done, st);
      }
      ClosedAfter(adj, jw, st, st1);
      assert vs[1..] == adj[w][done + 1..];
      assert st1.out[jw] == w;
      DfsListDepthFirst(adj, w, jw, done + 1, vs[1..], st1);
      DepthFirstJoin(adj, |st.out|, st1.out, DfsList(adj, vs[1..], st1).out);
    }
  }

  /** A visit the neighbour loop of w starts at its entry `done` lists that entry and
      everything after it by the depth-first rule. */
  lemma {:induction false} VisitDepthFirst(adj: seq<seq<int>>, w: int, jw: nat, done: nat, st: Visit)
    requires AdjOk(adj, |adj|)
    requires Consistent(st) && InRange(st.out, |adj|)
    requires jw < |st.out| && st.out[jw] == w && 0 <= w < |adj|
    requires done < |adj[w]| && adj[w][done] !in st.visited
    requires forall m :: 0 <= m < done ==> adj[w][m] in st.visited
    requires forall m :: jw < m < |st.out| ==> Explored(adj, st.out[m], st.visited)
    ensures DepthFirstFrom(adj, Dfs(adj, adj[w][done], st).out, |st.out|)
    decreases |Vertices(|adj|) - st.visited|, 0, 1
  {
    var v := adj[w][done];
    var out1 := Dfs(adj, v, st).out;
    DfsDepthFirst(adj, v, st);
    forall m | jw < m < |st.out|
      ensures !Open(adj, st.out, st.out[m])
    {
      ExploredClosed(adj, st.out[m], st.out);
    }
    HeadDepthFirst(adj, w, jw, done, st.out, out1);
    HeadThenDepthFirst(adj, |st.out|, out1);
  }

  /** The preorder is the depth-first order of the lists: every vertex after 0 is the first
      unlisted neighbour of the latest vertex that still has one. */
  lemma PreorderIsDepthFirst(adj: seq<seq<int>>)
    requires AdjOk(adj, |adj|) && |adj| >= 1
    ensures DepthFirstOrder(adj, Preorder(adj))
  {
    var r := Dfs(adj, 0, Visit({}, []));
    DfsDepthFirst(adj, 0, Visit({}, []));
    forall j | 0 <= j < |r.out|
      ensures !Open(adj, r.out, r.out[j])
    {
      assert r.out[j] in r.visited;
      ExploredClosed(adj, r.out[j], r.out);
    }
  }

  /** The depth-first rule fixes entry i from the entries before it. */
  lemma DepthFirstAtUnique(adj: seq<seq<int>>, a: seq<int>, b: seq<int>, i: int)
    requires DepthFirstAt(adj, a, i) && DepthFirstAt(adj, b, i) && a[..i] == b[..i]
    ensures a[i] == b[i]
  {
    var ja :| 0 <= ja < i && Open(adj, a[..i], a[ja])
      && (forall m :: ja < m < i ==> !Open(adj, a[..i], a[m]))
      && FirstUnseen(adj[a[ja]], a[..i], a[i]);
    var jb :| 0 <= jb < i && Open(adj, b[..i], b[jb])
      && (forall m :: jb < m < i ==> !Open(adj, b[..i], b[m]))
      && FirstUnseen(adj[b[jb]], b[..i], b[i]);
    assert a[ja] == a[..i][ja] == b[ja] && a[jb] == a[..i][jb] == b[jb];
    assert ja == jb;
    var vs := adj[a[ja]];
    var ka :| 0 <= ka < |vs| && vs[ka] == a[i] && a[i] !in a[..i] && forall m :: 0 <= m < ka ==> vs[m] in a[..i];
    var kb :| 0 <= kb < |vs| && vs[kb] == b[i] && b[i] !in b[..i] && forall m :: 0 <= m < kb ==> vs[m] in b[..i];
    assert ka == kb;
  }

  /** Two depth-first orders agree on their first k entries. */
  lemma {:induction false} DepthFirstPrefix(adj: seq<seq<int>>, a: seq<int>, b: seq<int>, k: int)
    requires DepthFirstOrder(adj, a) && DepthFirstOrder(adj, b)
    requires 1 <= k <= |a| && k <= |b|
    ensures a[..k] == b[..k]
    decreases k
  {
    if k == 1 {
      assert a[..1] == [0] == b[..1];
    } else {
      DepthFirstPrefix(adj, a, b, k - 1);
      assert a[..k - 1] == b[..k - 1];
      DepthFirstAtUnique(adj, a, b, k - 1);
      assert a[..k] == a[..k - 1] + [a[k - 1]];
      assert b[..k] == b[..k - 1] + [b[k - 1]];
    }
  }

  /** A depth-first order cannot stop while a listed vertex still has an unlisted
      neighbour: every proper prefix of one leaves some vertex open. */
  lemma DepthFirstPrefixOpen(adj: seq<seq<int>>, a: seq<int>, b: seq<int>)
    requires DepthFirstOrder(adj, b)
    requires 1 <= |a| < |b| && b[..|a|] == a
    ensures exists j :: 0 <= j < |a| && Open(adj, a, a[j])
  {
    assert DepthFirstAt(adj, b, |a|);
    var j :| 0 <= j < |a| && Open(adj, b[..|a|], b[j]);
    assert a[j] == b[j];
  }

  /** The lists have exactly one depth-first order from 0. */
  lemma DepthFirstOrderUnique(adj: seq<seq<int>>, a: seq<int>, b: seq<int>)
    requires DepthFirstOrder(adj, a) && DepthFirstOrder(adj, b)
    ensures a == b
  {
    if |a| <= |b| {
      DepthFirstPrefix(adj, a, b, |a|);
      if |a| < |b| {
        DepthFirstPrefixOpen(adj, a, b);
        assert false;
      }
    } else {
      DepthFirstPrefix(adj, a, b, |b|);
      DepthFirstPrefixOpen(adj, b, a);
      assert false;
    }
  }

  /** Lists on which searching in depth and in breadth differ: 0 lists 1 then 2, and 1
      lists 3. */
  const Fork: seq<seq<int>> := [[1, 2], [0, 3], [0], [1]]

  /** On `Fork`, [0, 1, 3, 2] follows the depth-first rule at every entry. */
  lemma ForkDepthFirst()
    ensures DepthFirstOrder(Fork, [0, 1, 3, 2])
  {
    var d := [0, 1, 3, 2];
    forall i | 1 <= i < |d|
      ensures DepthFirstAt(Fork, d, i)
    {
      if i == 1 {
        ForkStep1();
      } else if i == 2 {
        ForkStep2();
      } else {
        ForkStep3();
      }
    }
    ForkFinished();
  }

  /** Once [0, 1, 3, 2] is listed, no vertex of `Fork` has an unlisted neighbour. */
  lemma ForkFinished()
    ensures forall j :: 0 <= j < 4 ==> !Open(Fork, [0, 1, 3, 2], [0, 1, 3, 2][j])
  {
    var d := [0, 1, 3, 2];
    assert Fork[0] == [1, 2] && Fork[1] == [0, 3] && Fork[2] == [0] && Fork[3] == [1];
    forall j | 0 <= j < 4
      ensures !Open(Fork, d, d[j])
    {
    }
  }

  /** Entry 1 of the preorder on `Fork`: 0 lists 1 first. */
  lemma ForkStep1()
    ensures DepthFirstAt(Fork, [0, 1, 3, 2], 1)
  {
    var d := [0, 1, 3, 2];
    assert d[..1] == [0] && Fork[0] == [1, 2];
    assert Open(Fork, d[..1], d[0]) by { assert Fork[0][0] !in d[..1]; }
    assert FirstUnseen(Fork[d[0]], d[..1], d[1]) by { assert Fork[0][0] == 1; }
  }

  /** Entry 2 of the preorder on `Fork`: 3 is the first vertex of 1's list not yet listed. */
  lemma ForkStep2()
    ensures DepthFirstAt(Fork, [0, 1, 3, 2], 2)
  {
    var d := [0, 1, 3, 2];
    assert d[..2] == [0, 1] && Fork[1] == [0, 3];
    assert Open(Fork, d[..2], d[1]) by { assert Fork[1][1] !in d[..2]; }
    assert FirstUnseen(Fork[d[1]], d[..2], d[2]) by { assert Fork[1][0] in d[..2]; }
  }

  /** Entry 3 of the preorder on `Fork`: after 3, whose only neighbour is listed, the search returns to 0, which still has 2. */
  lemma ForkStep3()
    ensures DepthFirstAt(Fork, [0, 1, 3, 2], 3)
  {
    var d := [0, 1, 3, 2];
    assert d[..3] == [0, 1, 3] && Fork[0] == [1, 2] && Fork[1] == [0, 3] && Fork[3] == [1];
    assert Open(Fork, d[..3], d[0]) by { assert Fork[0][1] !in d[..3]; }
    assert FirstUnseen(Fork[d[0]], d[..3], d[3]) by { assert Fork[0][0] in d[..3]; }
  }

  /** On `Fork` the breadth-first order [0, 1, 2, 3] breaks the depth-first rule at 2:
      1 still has 3 unlisted, and 2 is not in 1's list. */
  lemma ForkNotBreadthFirst()
    ensures !DepthFirstAt(Fork, [0, 1, 2, 3], 2)
  {
    var b := [0, 1, 2, 3];
    assert b[..2] == [0, 1] && Fork[1] == [0, 3];
    assert Open(Fork, b[..2], b[1]) by { assert Fork[1][1] !in b[..2]; }
    assert !FirstUnseen(Fork[b[1]], b[..2], b[2]);
  }

  /** On `Fork` the preorder goes down to 3 before it returns to 2: it is the depth-first
      order and not the breadth-first one. */
  lemma ForkPreorder()
    ensures AdjOk(Fork, 4) && Preorder(Fork) == [0, 1, 3, 2]
    ensures !DepthFirstOrder(Fork, [0, 1, 2, 3])
  {
    ForkDepthFirst();
    PreorderIsDepthFirst(Fork);
    DepthFirstOrderUnique(Fork, Preorder(Fork), [0, 1, 3, 2]);
    ForkNotBreadthFirst();
  }

  /** A walk that starts at a flagged vertex stays among flagged vertices when every flagged
      vertex has all its neighbours flagged. */
  lemma {:induction false} ClosedReaches(mst: seq<Edge>, adj: seq<seq<int>>, vis: set<int>, p: seq<int>)
    requires AdjOk(adj, |adj|)
    requires forall x, y :: 0 <= x < |adj| ==> (y in adj[x] <==> Adjacent(mst, x, y))
    requires forall x :: x in vis ==> Explored(adj, x, vis)
    requires IsWalk(mst, p) && p[0] in vis
    ensures p[|p| - 1] in vis
    decreases |p|
  {
    if |p| > 1 {
      var q := p[..|p| - 1];
      assert IsWalk(mst, q) by {
        forall i | 0 <= i < |q| - 1
          ensures Adjacent(mst, q[i], q[i + 1])
        {
          assert q[i] == p[i] && q[i + 1] == p[i + 1];
        }
      }
      ClosedReaches(mst, adj, vis, q);
      var x, y := p[|p| - 2], p[|p| - 1];
      assert Adjacent(mst, x, y);
      assert Explored(adj, x, vis);
      var k :| 0 <= k < |adj[x]| && adj[x][k] == y;
    }
  }

  /** When the tree connects 0 to every vertex, the preorder from 0 lists every vertex
      exactly once. */
  lemma SpanningPreorder(mst: seq<Edge>, n: nat)
    requires n >= 1 && EndpointsBelow(mst, n)
    requires forall y :: 0 <= y < n ==> Connected(mst, 0, y)
    ensures IsPermutation(Preorder(AdjacencyOf(mst, n)), n)
  {
    var adj := AdjacencyOf(mst, n);
    var r := Dfs(adj, 0, Visit({}, []));
    forall y | 0 <= y < n
      ensures y in r.visited
    {
      assert Connected(mst, 0, y);
      var p :| IsWalk(mst, p) && p[0] == 0 && p[|p| - 1] == y;
      assert r.out[0] == 0;
      ClosedReaches(mst, adj, r.visited, p);
    }
    assert Elems(r.out) == Vertices(n);
    DistinctVertices(r.out, n);
  }

  /** The cost loop (`src/tsp/ApproxSolver.java` lines 38-41): the sum of the matrix weights
      between consecutive entries of the tour, added front to back. */
  method SumCost(dist: Matrix, tour: seq<int>) returns (cost: int)
    requires IsSquare(dist) && InRange(tour, |dist|)
    ensures cost == TourCost(dist, tour)
  {
    cost := 0;
    var i := 0;
    while i < |tour| - 1
      invariant i <= |tour| && (|tour| >= 1 ==> i <= |tour| - 1)
      invariant cost + TourCost(dist, tour[i..]) == TourCost(dist, tour)
    {
      assert tour[i..][1..] == tour[i + 1..];
      cost := cost + dist[tour[i]][tour[i + 1]];
      i := i + 1;
    }
  }

  /** The tour `solve` returns: the preorder of Kruskal's tree, closed with 0. */
  ghost function ApproxTour(dist: Matrix): seq<int>
    requires IsSquare(dist) && |dist| >= 1
  {
    Preorder(AdjacencyOf(KruskalTree(dist), |dist|)) + [0]
  }

  /** Entry i of `out` hangs off entry j by a tree edge, and every entry listed between
      them already has all its tree neighbours listed before i. */
  ghost predicate TreeParent(mst: seq<Edge>, out: seq<int>, j: int, i: int) {
    0 <= j < i < |out| && Adjacent(mst, out[j], out[i])
    && forall m, y :: j < m < i && Adjacent(mst, out[m], y) ==> y in out[..i]
  }

  /** Entry i hangs off some earlier entry in the way `TreeParent` says. */
  ghost predicate HasTreeParent(mst: seq<Edge>, out: seq<int>, i: int) {
    exists j :: 0 <= j < i && TreeParent(mst, out, j, i)
  }

  /** On a tree's adjacency lists, the preorder backtracks as a depth-first search does:
      each vertex after 0 is joined by a tree edge to an earlier vertex j, and every vertex
      listed between j and it already has all its tree neighbours listed. */
  lemma PreorderDepthFirst(mst: seq<Edge>, n: nat)
    requires EndpointsBelow(mst, n) && n >= 1
    ensures var out := Preorder(AdjacencyOf(mst, n));
      forall i :: 1 <= i < |out| ==> HasTreeParent(mst, out, i)
  {
    var adj := AdjacencyOf(mst, n);
    var out := Preorder(adj);
    PreorderIsDepthFirst(adj);
    forall i | 1 <= i < |out|
      ensures HasTreeParent(mst, out, i)
    {
      assert DepthFirstAt(adj, out, i);
      var j :| 0 <= j < i && Open(adj, out[..i], out[j])
        && (forall m :: j < m < i ==> !Open(adj, out[..i], out[m]))
        && FirstUnseen(adj[out[j]], out[..i], out[i]);
      assert out[i] in adj[out[j]];
      forall m, y | j < m < i && Adjacent(mst, out[m], y)
        ensures y in out[..i]
      {
        assert !Open(adj, out[..i], out[m]);
        var k :| 0 <= k < |adj[out[m]]| && adj[out[m]][k] == y;
      }
      assert TreeParent(mst, out, j, i);
    }
  }

  /** The approximate tour, without its closing 0, is the depth-first order of the
      adjacency lists of Kruskal's tree, and so backtracks along the tree as a depth-first
      search does. */
  lemma ApproxTourDepthFirst(dist: Matrix)
    requires IsSquare(dist) && |dist| >= 1
    ensures var tour, mst := ApproxTour(dist), KruskalTree(dist);
      DepthFirstOrder(AdjacencyOf(mst, |dist|), tour[..|tour| - 1])
      && forall i :: 1 <= i < |tour| - 1 ==> HasTreeParent(mst, tour, i)
  {
    var mst := KruskalTree(dist);
    var adj := AdjacencyOf(mst, |dist|);
    var out := Preorder(adj);
    var tour := out + [0];
    PreorderIsDepthFirst(adj);
    PreorderDepthFirst(mst, |dist|);
    assert tour[..|tour| - 1] == out;
    forall i | 1 <= i < |tour| - 1
      ensures HasTreeParent(mst, tour, i)
    {
      TreeParentExtends(mst, out, tour, i);
    }
  }

  /** A tree parent found in a list is still one in every extension of the list. */
  lemma TreeParentExtends(mst: seq<Edge>, out: seq<int>, longer: seq<int>, i: int)
    requires HasTreeParent(mst, out, i) && |out| <= |longer| && longer[..|out|] == out
    ensures HasTreeParent(mst, longer, i)
  {
    var j :| 0 <= j < i && TreeParent(mst, out, j, i);
    assert longer[..i] == out[..i] && longer[j] == out[j] && longer[i] == out[i];
    forall m, y | j < m < i && Adjacent(mst, longer[m], y)
      ensures y in longer[..i]
    {
      assert longer[m] == out[m];
    }
    assert TreeParent(mst, longer, j, i);
  }

  /** `solve` (`src/tsp/ApproxSolver.java` lines 15-43) for n >= 1: the returned tour is the
      preorder of Kruskal's tree closed with 0; since that tree spans, the tour visits every
      vertex once and returns to 0, and the returned cost is that tour's cost. */
  method Solve(dist: Matrix) returns (sol: Solution)
    requires IsSquare(dist) && |dist| >= 1
    ensures sol.tour == ApproxTour(dist)
    ensures IsHamiltonianCycle(sol.tour, |dist|)
    ensures sol.cost == TourCost(dist, sol.tour)
  {
    var n := |dist|;
    var mst := BuildMst(dist);
    var adj := BuildAdjacency(mst, n);
    var out := Preorder(adj);
    SpanningPreorder(mst, n);
    var tour := out + [0];
    assert tour[..n] == out;
    var cost := SumCost(dist, tour);
    sol := Solution(tour, cost);
  }

  /** A single vertex has no pairs, so Kruskal's tree is empty. */
  lemma SingleVertexTree(dist: Matrix)
    requires IsSquare(dist) && |dist| == 1
    ensures KruskalTree(dist) == []
  {
    assert |PairEdges(dist)| == 0;
    assert multiset(SortByWeight(PairEdges(dist))) == multiset{};
  }

  /** With no tree edges the preorder from 0 of one vertex is just [0]. */
  lemma SingleVertexPreorder()
    ensures Preorder(AdjacencyOf([], 1)) == [0]
  {
    var adj := AdjacencyOf([], 1);
    assert adj[0] == [];
    assert Dfs(adj, 0, Visit({}, [])) == DfsList(adj, [], Visit({0}, [0]));
  }

  /** A single vertex: the tree is empty, the preorder is [0], and the tour [0, 0] costs
      the diagonal entry `dist[0][0]`. */
  lemma SingleVertex(dist: Matrix)
    requires IsSquare(dist) && |dist| == 1
    ensures ApproxTour(dist) == [0, 0]
    ensures TourCost(dist, ApproxTour(dist)) == dist[0][0]
  {
    SingleVertexTree(dist);
    SingleVertexPreorder();
    assert ApproxTour(dist) == Preorder(AdjacencyOf([], 1)) + [0];
    assert TourCost(dist, [0]) == 0;
  }
}
