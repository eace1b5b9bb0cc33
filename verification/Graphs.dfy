/** Undirected graphs given as lists of weighted edges, and their connectivity. Kruskal's
    forest and the approximate solver's adjacency lists are both stated against these
    definitions: two vertices are connected when a walk along the edges joins them. */
module Graphs {
  import opened Tours

  /** `Kruskal.Edge`: the pair (u, v) with weight w. */
  datatype Edge = Edge(u: int, v: int, w: int)

  /** Edge e joins a and b, in either direction. */
  predicate Joins(e: Edge, a: int, b: int) {
    (e.u == a && e.v == b) || (e.u == b && e.v == a)
  }

  /** Some edge of the list joins a and b. */
  predicate Adjacent(edges: seq<Edge>, a: int, b: int) {
    exists i :: 0 <= i < |edges| && Joins(edges[i], a, b)
  }

  /** `p` is a walk: each vertex is adjacent to the next. A single vertex is a walk. */
  predicate IsWalk(edges: seq<Edge>, p: seq<int>) {
    |p| >= 1 && forall i :: 0 <= i < |p| - 1 ==> Adjacent(edges, p[i], p[i + 1])
  }

  /** Some walk along the edges leads from x to y. */
  ghost predicate Connected(edges: seq<Edge>, x: int, y: int) {
    exists p :: IsWalk(edges, p) && p[0] == x && p[|p| - 1] == y
  }

  /** Every vertex reaches itself. */
  lemma ConnectedRefl(edges: seq<Edge>, x: int)
    ensures Connected(edges, x, x)
  {
    assert IsWalk(edges, [x]);
  }

  /** A walk to y extends along an edge from y to z. */
  lemma ConnectedStep(edges: seq<Edge>, x: int, y: int, z: int)
    requires Connected(edges, x, y) && Adjacent(edges, y, z)
    ensures Connected(edges, x, z)
  {
    var p :| IsWalk(edges, p) && p[0] == x && p[|p| - 1] == y;
    var q := p + [z];
    assert IsWalk(edges, q) by {
      forall i | 0 <= i < |q| - 1
        ensures Adjacent(edges, q[i], q[i + 1])
      {
        if i < |p| - 1 {
          assert q[i] == p[i] && q[i + 1] == p[i + 1];
        }
      }
    }
    assert q[0] == x && q[|q| - 1] == z;
  }

  /** Adjacency is symmetric. */
  lemma AdjacentSym(edges: seq<Edge>, a: int, b: int)
    requires Adjacent(edges, a, b)
    ensures Adjacent(edges, b, a)
  {
    var i :| 0 <= i < |edges| && Joins(edges[i], a, b);
    assert Joins(edges[i], b, a);
  }

  /** Connectivity is symmetric: a walk read backwards is a walk. */
  lemma ConnectedSym(edges: seq<Edge>, x: int, y: int)
    requires Connected(edges, x, y)
    ensures Connected(edges, y, x)
  {
    var p :| IsWalk(edges, p) && p[0] == x && p[|p| - 1] == y;
    var q := Reverse(p);
    assert IsWalk(edges, q) by {
      forall i | 0 <= i < |q| - 1
        ensures Adjacent(edges, q[i], q[i + 1])
      {
        var j := |p| - 2 - i;
        assert q[i] == p[j + 1] && q[i + 1] == p[j];
        AdjacentSym(edges, p[j], p[j + 1]);
      }
    }
    assert q[0] == y && q[|q| - 1] == x;
  }

  /** Connectivity is transitive: walks concatenate. */
  lemma ConnectedTrans(edges: seq<Edge>, x: int, y: int, z: int)
    requires Connected(edges, x, y) && Connected(edges, y, z)
    ensures Connected(edges, x, z)
  {
    var p :| IsWalk(edges, p) && p[0] == x && p[|p| - 1] == y;
    var q :| IsWalk(edges, q) && q[0] == y && q[|q| - 1] == z;
    var r := p + q[1..];
    assert IsWalk(edges, r) by {
      forall i | 0 <= i < |r| - 1
        ensures Adjacent(edges, r[i], r[i + 1])
      {
        if i < |p| - 1 {
          assert r[i] == p[i] && r[i + 1] == p[i + 1];
        } else {
          var j := i - |p| + 1;
          assert r[i] == q[j] && r[i + 1] == q[j + 1];
        }
      }
    }
    assert r[0] == x && r[|r| - 1] == z;
  }

  /** Adding an edge keeps every adjacency. */
  lemma AdjacentMono(edges: seq<Edge>, e: Edge, a: int, b: int)
    requires Adjacent(edges, a, b)
    ensures Adjacent(edges + [e], a, b)
  {
    var i :| 0 <= i < |edges| && Joins(edges[i], a, b);
    assert (edges + [e])[i] == edges[i];
  }

  /** Adding an edge keeps every connection. */
  lemma ConnectedMono(edges: seq<Edge>, e: Edge, x: int, y: int)
    requires Connected(edges, x, y)
    ensures Connected(edges + [e], x, y)
  {
    var p :| IsWalk(edges, p) && p[0] == x && p[|p| - 1] == y;
    forall i | 0 <= i < |p| - 1
      ensures Adjacent(edges + [e], p[i], p[i + 1])
    {
      AdjacentMono(edges, e, p[i], p[i + 1]);
    }
    assert IsWalk(edges + [e], p);
  }

  /** x and y are connected once the edge e joins the components of its endpoints. */
  ghost predicate ConnectedVia(edges: seq<Edge>, e: Edge, x: int, y: int) {
    || Connected(edges, x, y)
    || (Connected(edges, x, e.u) && Connected(edges, e.v, y))
    || (Connected(edges, x, e.v) && Connected(edges, e.u, y))
  }

  /** A step along one edge of `edges + [e]` is either a step along `edges` or e itself. */
  lemma AdjacentAppend(edges: seq<Edge>, e: Edge, a: int, b: int)
    requires Adjacent(edges + [e], a, b)
    ensures Adjacent(edges, a, b) || Joins(e, a, b)
  {
    var i :| 0 <= i < |edges| + 1 && Joins((edges + [e])[i], a, b);
    if i < |edges| {
      assert (edges + [e])[i] == edges[i];
    }
  }

  /** Every walk of `edges + [e]` from x ends in a vertex that `ConnectedVia` reaches. */
  lemma {:induction false} WalkAppend(edges: seq<Edge>, e: Edge, p: seq<int>)
    requires IsWalk(edges + [e], p)
    ensures ConnectedVia(edges, e, p[0], p[|p| - 1])
    decreases |p|
  {
    var x := p[0];
    if |p| == 1 {
      ConnectedRefl(edges, x);
    } else {
      var q := p[..|p| - 1];
      var z := q[|q| - 1];
      var y := p[|p| - 1];
      assert IsWalk(edges + [e], q) by {
        forall i | 0 <= i < |q| - 1
          ensures Adjacent(edges + [e], q[i], q[i + 1])
        {
          assert q[i] == p[i] && q[i + 1] == p[i + 1];
        }
      }
      WalkAppend(edges, e, q);
      assert Adjacent(edges + [e], z, y) by {
        assert p[|p| - 2] == z;
      }
      AdjacentAppend(edges, e, z, y);
      ConnectedRefl(edges, y);
      if Adjacent(edges, z, y) {
        if Connected(edges, x, z) {
          ConnectedStep(edges, x, z, y);
        } else if Connected(edges, x, e.u) && Connected(edges, e.v, z) {
          ConnectedStep(edges, e.v, z, y);
        } else {
          ConnectedStep(edges, e.u, z, y);
        }
      } else if e.u == z && e.v == y {
        if Connected(edges, x, e.v) && Connected(edges, e.u, z) {
          ConnectedTrans(edges, x, e.v, y);
        }
      } else {
        assert e.u == y && e.v == z;
        if Connected(edges, x, e.u) && Connected(edges, e.v, z) {
          ConnectedTrans(edges, x, e.u, y);
        }
      }
    }
  }

  /** Connectivity after adding edge e: exactly the old connections and those that cross e. */
  lemma ConnectedAppend(edges: seq<Edge>, e: Edge, x: int, y: int)
    ensures Connected(edges + [e], x, y) <==> ConnectedVia(edges, e, x, y)
  {
    var es := edges + [e];
    if Connected(es, x, y) {
      var p :| IsWalk(es, p) && p[0] == x && p[|p| - 1] == y;
      WalkAppend(edges, e, p);
    }
    if ConnectedVia(edges, e, x, y) {
      assert Joins(es[|edges|], e.u, e.v) && Joins(es[|edges|], e.v, e.u);
      assert Adjacent(es, e.u, e.v) && Adjacent(es, e.v, e.u);
      if Connected(edges, x, y) {
        ConnectedMono(edges, e, x, y);
      } else if Connected(edges, x, e.u) && Connected(edges, e.v, y) {
        ConnectedMono(edges, e, x, e.u);
        ConnectedMono(edges, e, e.v, y);
        ConnectedStep(es, x, e.u, e.v);
        ConnectedTrans(es, x, e.v, y);
      } else {
        ConnectedMono(edges, e, x, e.v);
        ConnectedMono(edges, e, e.u, y);
        ConnectedStep(es, x, e.v, e.u);
        ConnectedTrans(es, x, e.u, y);
      }
    }
  }

  /** Leaving a vertex takes an edge at that vertex. */
  lemma ConnectedLeaves(edges: seq<Edge>, x: int, y: int)
    requires Connected(edges, x, y)
    ensures x == y || exists i :: 0 <= i < |edges| && (edges[i].u == x || edges[i].v == x)
  {
    var p :| IsWalk(edges, p) && p[0] == x && p[|p| - 1] == y;
    if x != y {
      assert Adjacent(edges, p[0], p[1]);
    }
  }

  /** With no edges, a vertex reaches only itself. */
  lemma ConnectedEmpty(x: int, y: int)
    ensures Connected([], x, y) <==> x == y
  {
    if x == y {
      ConnectedRefl([], x);
    } else if Connected([], x, y) {
      ConnectedLeaves([], x, y);
    }
  }
}
