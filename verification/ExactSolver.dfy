/** `tsp/ExactSolver.solve`: the Held–Karp tables filled by three nested loops, the closing
    scan, and the reconstruction of the tour by walking `prev` backwards. The tables are
    lists of rows (`dp[mask][u]`, `prev[mask][u]`) and every loop is proved against the
    recurrence of module HeldKarp. */
module ExactSolver {
  import opened Tours
  import opened Bits
  import opened HeldKarp

  /** How many predecessors u of state (mask, v) the transition loops have relaxed when they
      stand at outer mask m, middle vertex u and inner vertex w. Only the iteration over the
      mask `Without(mask, v)` writes into (mask, v), one predecessor per middle step. */
  ghost function Relaxed(mask: nat, v: nat, m: nat, u: nat, w: nat, n: nat): nat
    requires Bit(mask, v)
  {
    var from := Without(mask, v);
    if from < m then n
    else if from == m then (if v < w then u + 1 else u)
    else 0
  }

  /** The entry `dp[mask][v]` at loop position (m, u, w). */
  ghost function PartialDp(dist: Matrix, mask: nat, v: nat, m: nat, u: nat, w: nat): int
    requires IsSquare(dist) && v < |dist| && u <= |dist| && (w > 0 ==> u < |dist|)
  {
    if mask == 1 && v == 0 then 0
    else if !Bit(mask, v) then INF
    else Relax(dist, mask, v, Relaxed(mask, v, m, u, w, |dist|)).cost
  }

  /** The entry `prev[mask][v]` at loop position (m, u, w). */
  ghost function PartialPrev(dist: Matrix, mask: nat, v: nat, m: nat, u: nat, w: nat): int
    requires IsSquare(dist) && v < |dist| && u <= |dist| && (w > 0 ==> u < |dist|)
  {
    if mask == 1 && v == 0 then -1
    else if !Bit(mask, v) then 0
    else Relax(dist, mask, v, Relaxed(mask, v, m, u, w, |dist|)).pred
  }

  /** Both tables have `1 << n` rows of n entries. */
  ghost predicate Shaped(n: nat, dp: seq<seq<int>>, prev: seq<seq<int>>) {
    && |dp| == Pow2(n) && |prev| == Pow2(n)
    && (forall t :: 0 <= t < Pow2(n) ==> |dp[t]| == n)
    && (forall t :: 0 <= t < Pow2(n) ==> |prev[t]| == n)
  }

  /** Entry (t, v) of both tables holds what the loops have produced by position (m, u, w). */
  ghost predicate EntryAt(dist: Matrix, dp: seq<seq<int>>, prev: seq<seq<int>>, t: nat, v: nat, m: nat, u: nat, w: nat)
    requires IsSquare(dist) && u <= |dist| && (w > 0 ==> u < |dist|)
    requires Shaped(|dist|, dp, prev) && t < Pow2(|dist|) && v < |dist|
  {
    dp[t][v] == PartialDp(dist, t, v, m, u, w) && prev[t][v] == PartialPrev(dist, t, v, m, u, w)
  }

  /** The tables hold exactly what the loops have produced by position (m, u, w). */
  ghost predicate TablesAt(dist: Matrix, dp: seq<seq<int>>, prev: seq<seq<int>>, m: nat, u: nat, w: nat)
    requires IsSquare(dist) && u <= |dist| && (w > 0 ==> u < |dist|)
  {
    && Shaped(|dist|, dp, prev)
    && forall t, v :: 0 <= t < Pow2(|dist|) && 0 <= v < |dist| ==> EntryAt(dist, dp, prev, t, v, m, u, w)
  }

  /** A relaxation from an empty predecessor mask finds nothing. */
  lemma {:induction false} RelaxFromEmpty(dist: Matrix, mask: nat, v: nat, k: nat)
    requires IsSquare(dist) && v < |dist| && k <= |dist| && Bit(mask, v) && Without(mask, v) == 0
    ensures Relax(dist, mask, v, k) == Choice(INF, 0)
  {
    if k > 0 {
      NoBitInZero(k - 1);
      RelaxFromEmpty(dist, mask, v, k - 1);
    }
  }

  /** Initially only `dp[1][0] = 0` and `prev[1][0] = -1` differ from `INF` and 0. */
  lemma InitialTables(dist: Matrix, dp: seq<seq<int>>, prev: seq<seq<int>>)
    requires IsSquare(dist) && |dist| >= 1
    requires Shaped(|dist|, dp, prev)
    requires forall t, v :: 0 <= t < Pow2(|dist|) && 0 <= v < |dist| ==>
      dp[t][v] == (if t == 1 && v == 0 then 0 else INF) &&
      prev[t][v] == (if t == 1 && v == 0 then -1 else 0)
    ensures TablesAt(dist, dp, prev, 1, 0, 0)
  {
    forall t, v | 0 <= t < Pow2(|dist|) && 0 <= v < |dist|
      ensures EntryAt(dist, dp, prev, t, v, 1, 0, 0)
    {
      if !(t == 1 && v == 0) && Bit(t, v) && Without(t, v) == 0 {
        RelaxFromEmpty(dist, t, v, |dist|);
      }
    }
  }

  /** A state whose own predecessors all lie below m already holds its final value. */
  lemma SettledEntry(dist: Matrix, dp: seq<seq<int>>, prev: seq<seq<int>>, m: nat, u: nat, w: nat, t: nat, v: nat)
    requires IsSquare(dist) && u <= |dist| && (w > 0 ==> u < |dist|)
    requires TablesAt(dist, dp, prev, m, u, w)
    requires t < Pow2(|dist|) && v < |dist| && t <= m
    ensures dp[t][v] == Dp(dist, t, v)
    ensures prev[t][v] == Prev(dist, t, v)
  {
    assert EntryAt(dist, dp, prev, t, v, m, u, w);
  }

  /** Entry (t, v) is expected to hold the same at loop positions (m, u, w) and (m', u', w'). */
  ghost predicate SameRelax(dist: Matrix, t: nat, v: nat, m: nat, u: nat, w: nat, m': nat, u': nat, w': nat)
    requires IsSquare(dist) && v < |dist| && u <= |dist| && (w > 0 ==> u < |dist|)
    requires u' <= |dist| && (w' > 0 ==> u' < |dist|)
  {
    Bit(t, v) ==>
      Relax(dist, t, v, Relaxed(t, v, m, u, w, |dist|)) == Relax(dist, t, v, Relaxed(t, v, m', u', w', |dist|))
  }

  /** Moving the loop position from (m, u, w) to (m', u', w') changes no entry when no
      target's expected value changes. */
  lemma SamePosition(dist: Matrix, dp: seq<seq<int>>, prev: seq<seq<int>>,
                     m: nat, u: nat, w: nat, m': nat, u': nat, w': nat)
    requires IsSquare(dist) && u <= |dist| && (w > 0 ==> u < |dist|)
    requires u' <= |dist| && (w' > 0 ==> u' < |dist|)
    requires TablesAt(dist, dp, prev, m, u, w)
    requires forall t, v :: 0 <= t < Pow2(|dist|) && 0 <= v < |dist| ==> SameRelax(dist, t, v, m, u, w, m', u', w')
    ensures TablesAt(dist, dp, prev, m', u', w')
  {
    forall t, v | 0 <= t < Pow2(|dist|) && 0 <= v < |dist|
      ensures EntryAt(dist, dp, prev, t, v, m', u', w')
    {
      assert EntryAt(dist, dp, prev, t, v, m, u, w);
      assert SameRelax(dist, t, v, m, u, w, m', u', w');
    }
  }

  /** Inner step over a vertex already in the mask: nothing is written and nothing changes. */
  lemma InnerSkip(dist: Matrix, dp: seq<seq<int>>, prev: seq<seq<int>>, m: nat, u: nat, w: nat)
    requires IsSquare(dist) && u < |dist| && w < |dist| && Bit(m, w)
    requires TablesAt(dist, dp, prev, m, u, w)
    ensures TablesAt(dist, dp, prev, m, u, w + 1)
  {
    var n := |dist|;
    var w' := w + 1;
    forall t, v | 0 <= t < Pow2(n) && 0 <= v < n
      ensures SameRelax(dist, t, v, m, u, w, m, u, w')
    {
    }
    SamePosition(dist, dp, prev, m, u, w, m, u, w');
  }

  /** The transition (m, u) -> (m + 2^w, w) for w outside m: the target lies in the tables,
      its predecessor mask is m, and the source entry holds its final value. */
  lemma TransitionTarget(dist: Matrix, dp: seq<seq<int>>, prev: seq<seq<int>>, m: nat, u: nat, w: nat)
    requires IsSquare(dist) && u < |dist| && w < |dist| && m < Pow2(|dist|)
    requires !Bit(m, w) && TablesAt(dist, dp, prev, m, u, w)
    ensures m + Pow2(w) < Pow2(|dist|)
    ensures Bit(m + Pow2(w), w) && Without(m + Pow2(w), w) == m
    ensures dp[m][u] == Dp(dist, m, u)
  {
    SetBitBelow(m, |dist|, w);
    SetBit(m, w, w);
    SettledEntry(dist, dp, prev, m, u, w, m, u);
  }

  /** Relaxing the target (m + 2^w, w) by predecessor u, whose state is finite. */
  lemma RelaxStep(dist: Matrix, m: nat, u: nat, w: nat, next: nat)
    requires IsSquare(dist) && u < |dist| && w < |dist| && Bit(m, u)
    requires Bit(next, w) && Without(next, w) == m && Dp(dist, m, u) != INF
    ensures var cand := Dp(dist, m, u) + dist[u][w];
      var r := Relax(dist, next, w, u);
      Relax(dist, next, w, u + 1) == if cand < r.cost then Choice(cand, u) else r
  {
  }

  /** Where the target of a transition stands before and after relaxing predecessor u. */
  lemma TransitionCounts(dist: Matrix, m: nat, u: nat, w: nat, next: nat)
    requires IsSquare(dist) && u < |dist| && w < |dist| && Bit(m, u)
    requires next == m + Pow2(w) && Bit(next, w) && Without(next, w) == m
    ensures next != 1
    ensures Relaxed(next, w, m, u, w + 1, |dist|) == u + 1
    ensures Relaxed(next, w, m, u, w, |dist|) == u
  {
    if m == 0 {
      NoBitInZero(u);
    }
  }

  /** The target of a transition after one more relaxation: the strict `<` comparison
      against its current entry decides between the candidate and the current value. */
  lemma TransitionEntry(dist: Matrix, m: nat, u: nat, w: nat, next: nat, costU: int, cur: int, curPrev: int)
    requires IsSquare(dist) && u < |dist| && w < |dist| && Bit(m, u)
    requires next == m + Pow2(w) && Bit(next, w) && Without(next, w) == m
    requires costU == Dp(dist, m, u) && costU != INF
    requires cur == PartialDp(dist, next, w, m, u, w) && curPrev == PartialPrev(dist, next, w, m, u, w)
    ensures PartialDp(dist, next, w, m, u, w + 1) == (if costU + dist[u][w] < cur then costU + dist[u][w] else cur)
    ensures PartialPrev(dist, next, w, m, u, w + 1) == (if costU + dist[u][w] < cur then u else curPrev)
  {
    TransitionCounts(dist, m, u, w, next);
    RelaxStep(dist, m, u, w, next);
    assert cur == Relax(dist, next, w, u).cost;
    assert curPrev == Relax(dist, next, w, u).pred;
  }

  /** The target's entry once predecessor u has been relaxed into it, in terms of the tables
      before the inner step. */
  lemma TargetAfter(dist: Matrix, dp: seq<seq<int>>, prev: seq<seq<int>>, m: nat, u: nat, w: nat, next: nat)
    requires IsSquare(dist) && u < |dist| && w < |dist| && Bit(m, u)
    requires Shaped(|dist|, dp, prev) && m < Pow2(|dist|) && next < Pow2(|dist|)
    requires next == m + Pow2(w) && Bit(next, w) && Without(next, w) == m
    requires dp[m][u] == Dp(dist, m, u) && dp[m][u] != INF
    requires EntryAt(dist, dp, prev, next, w, m, u, w)
    ensures PartialDp(dist, next, w, m, u, w + 1) ==
      (if dp[m][u] + dist[u][w] < dp[next][w] then dp[m][u] + dist[u][w] else dp[next][w])
    ensures PartialPrev(dist, next, w, m, u, w + 1) ==
      (if dp[m][u] + dist[u][w] < dp[next][w] then u else prev[next][w])
  {
    TransitionEntry(dist, m, u, w, next, dp[m][u], dp[next][w], prev[next][w]);
  }

  /** Every entry other than the target keeps its value when the inner position advances. */
  lemma TransitionOthers(dist: Matrix, m: nat, u: nat, w: nat, next: nat, t: nat, v: nat)
    requires IsSquare(dist) && u < |dist| && w < |dist| && next == m + Pow2(w)
    requires v < |dist| && Bit(t, v) && (t != next || v != w)
    ensures Relaxed(t, v, m, u, w + 1, |dist|) == Relaxed(t, v, m, u, w, |dist|)
  {
  }

  /** Inner step over a vertex outside the mask when the candidate is not strictly cheaper:
      nothing is written, and the target's scan over one more predecessor is unchanged. */
  lemma InnerKeep(dist: Matrix, dp: seq<seq<int>>, prev: seq<seq<int>>, m: nat, u: nat, w: nat, next: nat)
    requires IsSquare(dist) && u < |dist| && w < |dist| && m < Pow2(|dist|)
    requires !Bit(m, w) && Bit(m, u) && TablesAt(dist, dp, prev, m, u, w) && dp[m][u] != INF
    requires next == m + Pow2(w) && next < Pow2(|dist|)
    requires dp[m][u] + dist[u][w] >= dp[next][w]
    ensures TablesAt(dist, dp, prev, m, u, w + 1)
  {
    var n := |dist|;
    TransitionTarget(dist, dp, prev, m, u, w);
    assert EntryAt(dist, dp, prev, next, w, m, u, w);
    TargetAfter(dist, dp, prev, m, u, w, next);
    var w' := w + 1;
    forall t, v | 0 <= t < Pow2(n) && 0 <= v < n
      ensures EntryAt(dist, dp, prev, t, v, m, u, w')
    {
      assert EntryAt(dist, dp, prev, t, v, m, u, w);
      if Bit(t, v) && (t != next || v != w) {
        TransitionOthers(dist, m, u, w, next, t, v);
      }
    }
  }

  /** `after` is the table `before` with the one entry (t0, v0) set to x. */
  ghost predicate Written(before: seq<seq<int>>, after: seq<seq<int>>, t0: nat, v0: nat, x: int) {
    && |after| == |before| && t0 < |before|
    && (forall t :: 0 <= t < |before| ==> |after[t]| == |before[t]|)
    && v0 < |after[t0]| && after[t0][v0] == x
    && (forall t, v :: 0 <= t < |before| && 0 <= v < |before[t]| && (t != t0 || v != v0) ==>
          after[t][v] == before[t][v])
  }

  lemma WriteEntry(before: seq<seq<int>>, t0: nat, v0: nat, x: int)
    requires t0 < |before| && v0 < |before[t0]|
    ensures Written(before, before[t0 := before[t0][v0 := x]], t0, v0, x)
  {
  }

  /** An entry other than the target that the write left alone still holds its value once
      the inner position advances. */
  lemma OtherEntry(dist: Matrix, dp: seq<seq<int>>, prev: seq<seq<int>>, dp': seq<seq<int>>, prev': seq<seq<int>>,
                   m: nat, u: nat, w: nat, next: nat, t: nat, v: nat)
    requires IsSquare(dist) && u < |dist| && w < |dist| && next == m + Pow2(w)
    requires Shaped(|dist|, dp, prev) && Shaped(|dist|, dp', prev')
    requires t < Pow2(|dist|) && v < |dist| && (t != next || v != w)
    requires EntryAt(dist, dp, prev, t, v, m, u, w)
    requires dp'[t][v] == dp[t][v] && prev'[t][v] == prev[t][v]
    ensures EntryAt(dist, dp', prev', t, v, m, u, w + 1)
  {
    if Bit(t, v) {
      TransitionOthers(dist, m, u, w, next, t, v);
    }
  }

  /** Inner step over a vertex outside the mask when the candidate is strictly cheaper: the
      target takes the candidate cost and predecessor u, and no other entry changes. */
  lemma InnerWrite(dist: Matrix, dp: seq<seq<int>>, prev: seq<seq<int>>, m: nat, u: nat, w: nat,
                   next: nat, newCost: int, dp': seq<seq<int>>, prev': seq<seq<int>>)
    requires IsSquare(dist) && u < |dist| && w < |dist| && m < Pow2(|dist|)
    requires !Bit(m, w) && Bit(m, u) && TablesAt(dist, dp, prev, m, u, w) && dp[m][u] != INF
    requires next == m + Pow2(w) && next < Pow2(|dist|)
    requires newCost == dp[m][u] + dist[u][w] && newCost < dp[next][w]
    requires Written(dp, dp', next, w, newCost) && Written(prev, prev', next, w, u)
    requires PartialDp(dist, next, w, m, u, w + 1) == newCost && PartialPrev(dist, next, w, m, u, w + 1) == u
    ensures TablesAt(dist, dp', prev', m, u, w + 1)
  {
    var n := |dist|;
    assert Shaped(n, dp', prev');
    EntriesAfterWrite(dist, dp, prev, m, u, w, next, newCost, dp', prev');
  }

  /** Every entry after the write of `InnerWrite`. */
  lemma EntriesAfterWrite(dist: Matrix, dp: seq<seq<int>>, prev: seq<seq<int>>, m: nat, u: nat, w: nat,
                          next: nat, newCost: int, dp': seq<seq<int>>, prev': seq<seq<int>>)
    requires IsSquare(dist) && u < |dist| && w < |dist|
    requires TablesAt(dist, dp, prev, m, u, w) && Shaped(|dist|, dp', prev')
    requires next == m + Pow2(w) && next < Pow2(|dist|)
    requires Written(dp, dp', next, w, newCost) && Written(prev, prev', next, w, u)
    requires PartialDp(dist, next, w, m, u, w + 1) == newCost && PartialPrev(dist, next, w, m, u, w + 1) == u
    ensures TablesAt(dist, dp', prev', m, u, w + 1)
  {
    var w' := w + 1;
    forall t, v | 0 <= t < Pow2(|dist|) && 0 <= v < |dist|
      ensures EntryAt(dist, dp', prev', t, v, m, u, w')
    {
      EntryAfterWrite(dist, dp, prev, m, u, w, next, newCost, dp', prev', t, v);
    }
  }

  /** One entry after the write of `InnerWrite`: the target holds the relaxed value, and any
      other entry what it held before. */
  lemma EntryAfterWrite(dist: Matrix, dp: seq<seq<int>>, prev: seq<seq<int>>, m: nat, u: nat, w: nat,
                        next: nat, newCost: int, dp': seq<seq<int>>, prev': seq<seq<int>>, t: nat, v: nat)
    requires IsSquare(dist) && u < |dist| && w < |dist|
    requires TablesAt(dist, dp, prev, m, u, w) && Shaped(|dist|, dp', prev')
    requires next == m + Pow2(w) && next < Pow2(|dist|)
    requires Written(dp, dp', next, w, newCost) && Written(prev, prev', next, w, u)
    requires PartialDp(dist, next, w, m, u, w + 1) == newCost && PartialPrev(dist, next, w, m, u, w + 1) == u
    requires t < Pow2(|dist|) && v < |dist|
    ensures EntryAt(dist, dp', prev', t, v, m, u, w + 1)
  {
    if t != next || v != w {
      assert EntryAt(dist, dp, prev, t, v, m, u, w);
      OtherEntry(dist, dp, prev, dp', prev', m, u, w, next, t, v);
    }
  }

  /** Middle step over a vertex that is not in the mask or whose state is `INF`: the source
      `continue`s, and the relaxations it would have made are exactly the ones `Relax` skips. */
  lemma MiddleSkip(dist: Matrix, dp: seq<seq<int>>, prev: seq<seq<int>>, m: nat, u: nat)
    requires IsSquare(dist) && u < |dist| && m < Pow2(|dist|)
    requires TablesAt(dist, dp, prev, m, u, 0)
    requires !Bit(m, u) || dp[m][u] == INF
    ensures TablesAt(dist, dp, prev, m, u + 1, 0)
  {
    SettledEntry(dist, dp, prev, m, u, 0, m, u);
    var n := |dist|;
    var u' := u + 1;
    forall t, v | 0 <= t < Pow2(n) && 0 <= v < n
      ensures SameRelax(dist, t, v, m, u, 0, m, u', 0)
    {
    }
    SamePosition(dist, dp, prev, m, u, 0, m, u', 0);
  }

  /** After the inner loop, vertex u counts as relaxed for every target of mask m. */
  lemma MiddleNext(dist: Matrix, dp: seq<seq<int>>, prev: seq<seq<int>>, m: nat, u: nat)
    requires IsSquare(dist) && u < |dist|
    requires TablesAt(dist, dp, prev, m, u, |dist|)
    ensures TablesAt(dist, dp, prev, m, u + 1, 0)
  {
    var u' := u + 1;
    forall t, v | 0 <= t < Pow2(|dist|) && 0 <= v < |dist|
      ensures SameRelax(dist, t, v, m, u, |dist|, m, u', 0)
    {
    }
    SamePosition(dist, dp, prev, m, u, |dist|, m, u', 0);
  }

  /** After the middle loop, mask m is done. */
  lemma OuterNext(dist: Matrix, dp: seq<seq<int>>, prev: seq<seq<int>>, m: nat)
    requires IsSquare(dist)
    requires TablesAt(dist, dp, prev, m, |dist|, 0)
    ensures TablesAt(dist, dp, prev, m + 1, 0, 0)
  {
    var m' := m + 1;
    forall t, v | 0 <= t < Pow2(|dist|) && 0 <= v < |dist|
      ensures SameRelax(dist, t, v, m, |dist|, 0, m', 0, 0)
    {
    }
    SamePosition(dist, dp, prev, m, |dist|, 0, m', 0, 0);
  }

  /** Once every mask below `1 << n` is done, the tables hold the recurrence. */
  lemma FinalTables(dist: Matrix, dp: seq<seq<int>>, prev: seq<seq<int>>)
    requires IsSquare(dist)
    requires TablesAt(dist, dp, prev, Pow2(|dist|), 0, 0)
    ensures forall t, v :: 0 <= t < Pow2(|dist|) && 0 <= v < |dist| ==>
      dp[t][v] == Dp(dist, t, v) && prev[t][v] == Prev(dist, t, v)
  {
    forall t, v | 0 <= t < Pow2(|dist|) && 0 <= v < |dist|
      ensures dp[t][v] == Dp(dist, t, v) && prev[t][v] == Prev(dist, t, v)
    {
      SettledEntry(dist, dp, prev, Pow2(|dist|), 0, 0, t, v);
    }
  }

  /** The inner loop of the transitions (`src/tsp/ExactSolver.java` lines 34-42) for a
      finite state (mask, u): relaxes every (mask + 2^v, v) with v outside mask. */
  method RelaxSuccessors(dist: Matrix, dp0: seq<seq<int>>, prev0: seq<seq<int>>, mask: nat, u: nat)
    returns (dp: seq<seq<int>>, prev: seq<seq<int>>)
    requires IsSquare(dist) && u < |dist| && mask < Pow2(|dist|)
    requires TablesAt(dist, dp0, prev0, mask, u, 0) && Bit(mask, u) && dp0[mask][u] != INF
    ensures TablesAt(dist, dp, prev, mask, u + 1, 0)
  {
    var n := |dist|;
    dp, prev := dp0, prev0;
    var costU := dp[mask][u];
    var v := 0;
    while v < n
      invariant 0 <= v <= n
      invariant TablesAt(dist, dp, prev, mask, u, v)
      invariant dp[mask][u] == costU
    {
      if Bit(mask, v) {
        InnerSkip(dist, dp, prev, mask, u, v);
      } else {
        TransitionTarget(dist, dp, prev, mask, u, v);
        var nextMask := mask + Pow2(v);
        var newCost := costU + dist[u][v];
        if newCost < dp[nextMask][v] {
          assert EntryAt(dist, dp, prev, nextMask, v, mask, u, v);
          TargetAfter(dist, dp, prev, mask, u, v, nextMask);
          WriteEntry(dp, nextMask, v, newCost);
          WriteEntry(prev, nextMask, v, u);
          var dp' := dp[nextMask := dp[nextMask][v := newCost]];
          var prev' := prev[nextMask := prev[nextMask][v := u]];
          InnerWrite(dist, dp, prev, mask, u, v, nextMask, newCost, dp', prev');
          assert dp'[mask][u] == dp[mask][u];
          dp, prev := dp', prev';
        } else {
          InnerKeep(dist, dp, prev, mask, u, v, nextMask);
        }
      }
      v := v + 1;
    }
    MiddleNext(dist, dp, prev, mask, u);
  }

  /** One iteration of the outer loop (`src/tsp/ExactSolver.java` lines 30-43): every state
      of `mask`, in ascending u, relaxes its successors unless it is absent or `INF`. */
  method ProcessMask(dist: Matrix, dp0: seq<seq<int>>, prev0: seq<seq<int>>, mask: nat)
    returns (dp: seq<seq<int>>, prev: seq<seq<int>>)
    requires IsSquare(dist) && mask < Pow2(|dist|)
    requires TablesAt(dist, dp0, prev0, mask, 0, 0)
    ensures TablesAt(dist, dp, prev, mask + 1, 0, 0)
  {
    var n := |dist|;
    dp, prev := dp0, prev0;
    var u := 0;
    while u < n
      invariant 0 <= u <= n
      invariant TablesAt(dist, dp, prev, mask, u, 0)
    {
      if Bit(mask, u) && dp[mask][u] != INF {
        dp, prev := RelaxSuccessors(dist, dp, prev, mask, u);
      } else {
        MiddleSkip(dist, dp, prev, mask, u);
      }
      u := u + 1;
    }
    OuterNext(dist, dp, prev, mask);
  }

  /** Fills `dp` and `prev` as `src/tsp/ExactSolver.java` lines 19-44 do: every entry `INF`
      (and `prev` Java's default 0), the start state (mask 1, vertex 0) at cost 0 with
      predecessor -1, then the transitions for every mask in ascending order. */
  method FillTables(dist: Matrix) returns (dp: seq<seq<int>>, prev: seq<seq<int>>)
    requires ValidInput(dist)
    ensures Shaped(|dist|, dp, prev)
    ensures forall t, v :: 0 <= t < Pow2(|dist|) && 0 <= v < |dist| ==>
      dp[t][v] == Dp(dist, t, v) && prev[t][v] == Prev(dist, t, v)
  {
    var n := |dist|;
    var size := Pow2(n);
    PowMonotone(1, n);
    dp := seq(size, _ => seq(n, _ => INF));
    prev := seq(size, _ => seq(n, _ => 0));
    dp := dp[1 := dp[1][0 := 0]];
    prev := prev[1 := prev[1][0 := -1]];
    InitialTables(dist, dp, prev);
    var mask := 1;
    while mask < size
      invariant 1 <= mask <= size
      invariant TablesAt(dist, dp, prev, mask, 0, 0)
    {
      dp, prev := ProcessMask(dist, dp, prev, mask);
      mask := mask + 1;
    }
    FinalTables(dist, dp, prev);
  }

  /** The tour the source reconstructs: nothing when the closing scan found no finite cycle
      (always the case for n = 1), otherwise the recorded path `0, v1, ..., last` with a
      second 0 in front of it. The walk back along `prev` collects `last, ..., v1, 0`,
      the final `tour.add(0)` appends a 0 after the start vertex it already holds, and the
      reversal moves that duplicate to the front rather than to the end. */
  function Reconstructed(dist: Matrix): (r: seq<int>)
    requires ValidInput(dist)
    ensures r != [] <==> Close(dist, |dist|).cost < INF
    ensures |dist| == 1 ==> r == []
    ensures |dist| >= 2 ==>
      && |r| == |dist| + 1 && r[0] == 0 && r[1] == 0 && r[|dist|] == Close(dist, |dist|).pred
      && IsHamiltonianCycle(r[1..] + [0], |dist|)
      && TourCost(dist, r[1..] + [0]) == Close(dist, |dist|).cost
      && forall c :: IsHamiltonianCycle(c, |dist|) ==> Close(dist, |dist|).cost <= TourCost(dist, c)
  {
    if |dist| >= 2 then
      ExactOptimal(dist);
      [0] + Walk(dist, Full(|dist|), Close(dist, |dist|).pred)
    else []
  }

  /** The reconstruction loop (`src/tsp/ExactSolver.java` lines 58-68): from (full, last) it
      records the current vertex, steps to its `prev` entry and clears its bit, until it
      reads the start state's -1; then it appends 0 and reverses. */
  method Reconstruct(dist: Matrix, dp: seq<seq<int>>, prev: seq<seq<int>>, last: int)
    returns (tour: seq<int>)
    requires ValidInput(dist) && |dist| >= 2 && Shaped(|dist|, dp, prev)
    requires forall t, v :: 0 <= t < Pow2(|dist|) && 0 <= v < |dist| ==>
      dp[t][v] == Dp(dist, t, v) && prev[t][v] == Prev(dist, t, v)
    requires 0 <= last < |dist| && Dp(dist, Full(|dist|), last) != INF
    ensures tour == [0] + Walk(dist, Full(|dist|), last)
  {
    var n := |dist|;
    var walk := Walk(dist, Full(n), last);
    FullBitSet(n);
    var mask: nat := Full(n);
    var current := last;
    var back: seq<int> := [];
    while current != -1
      invariant mask < Pow2(n)
      invariant current == -1 ==> mask == 0 && Reverse(back) == walk
      invariant current != -1 ==>
        && 0 <= current < n && Dp(dist, mask, current) != INF
        && Walk(dist, mask, current) + Reverse(back) == walk
      decreases mask
    {
      ReverseAppend(back, current);
      var p := prev[mask][current];
      if mask == 1 && current == 0 {
        OnlyBitZeroInOne(0);
        back := back + [current];
        mask := Without(mask, current);
        current := p;
      } else {
        FiniteState(dist, mask, current);
        var from := Without(mask, current);
        assert Walk(dist, mask, current) == Walk(dist, from, p) + [current];
        back := back + [current];
        mask := from;
        current := p;
      }
    }
    ReverseAppend(back, 0);
    tour := Reverse(back + [0]);
  }

  /** `ExactSolver.solve`: fills the tables, closes the cycle by scanning u = 1..n-1 with a
      strict `<` against `INF` (`src/tsp/ExactSolver.java` lines 47-55), and reconstructs
      the tour when a finite cycle was found. The cost is the Held–Karp optimum for n >= 2
      and `INF` for n = 1; the tour is the as-written reconstruction, whose entries after
      the first are an optimal Hamiltonian cycle. */
  method Solve(dist: Matrix) returns (sol: Solution)
    requires ValidInput(dist)
    ensures sol.cost == Close(dist, |dist|).cost
    ensures sol.tour == Reconstructed(dist)
    ensures |dist| == 1 ==> sol == Solution([], INF)
    ensures |dist| >= 2 ==>
      && |sol.tour| == |dist| + 1 && sol.tour[0] == 0 && sol.tour[1] == 0
      && IsHamiltonianCycle(sol.tour[1..] + [0], |dist|)
      && sol.cost == TourCost(dist, sol.tour[1..] + [0])
      && forall c :: IsHamiltonianCycle(c, |dist|) ==> sol.cost <= TourCost(dist, c)
  {
    var n := |dist|;
    var dp, prev := FillTables(dist);
    var bestCost, last := CloseScan(dist, dp);
    var tour: seq<int> := [];
    if bestCost < INF {
      CloseChoice(dist, n);
      ExactOptimal(dist);
      tour := Reconstruct(dist, dp, prev, last);
    }
    sol := Solution(tour, bestCost);
    if n >= 2 {
      ExactOptimal(dist);
    }
  }

  /** The closing loop (`src/tsp/ExactSolver.java` lines 46-55): over u = 1..n-1, the first
      vertex with the strictly smallest `dp[full][u] + dist[u][0]`, or `INF` and -1 when
      there is none. */
  method CloseScan(dist: Matrix, dp: seq<seq<int>>) returns (bestCost: int, last: int)
    requires ValidInput(dist) && |dp| == Pow2(|dist|)
    requires |dp[Full(|dist|)]| == |dist|
    requires forall v :: 0 <= v < |dist| ==> dp[Full(|dist|)][v] == Dp(dist, Full(|dist|), v)
    ensures Choice(bestCost, last) == Close(dist, |dist|)
  {
    var n := |dist|;
    var full := Full(n);
    bestCost, last := INF, -1;
    var u := 1;
    while u < n
      invariant 1 <= u <= n
      invariant Choice(bestCost, last) == Close(dist, u)
    {
      var c := dp[full][u] + dist[u][0];
      if c < bestCost {
        bestCost := c;
        last := u;
      }
      u := u + 1;
    }
  }

  /** The two-vertex matrix with both off-diagonal distances 5. */
  const TwoCities: Matrix := [[0, 5], [5, 0]]

  /** The masks of the two-vertex instance: {0} is 1 and {0, 1} is 3. */
  lemma TwoCitiesBits()
    ensures Bit(1, 0) && !Bit(1, 1) && Bit(3, 0) && Bit(3, 1)
    ensures Without(3, 1) == 1
  {
    assert Bit(0, 0) == false;
  }

  /** On `TwoCities` state ({0, 1}, 1) is relaxed from ({0}, 0) at cost 5 and from nothing
      else. */
  lemma TwoCitiesRelax()
    ensures ValidInput(TwoCities) && Bit(3, 1)
    ensures Relax(TwoCities, 3, 1, 2) == Choice(5, 0)
  {
    var d := TwoCities;
    TwoCitiesBits();
    assert Dp(d, 1, 0) == 0;
    assert Relax(d, 3, 1, 1) == Choice(5, 0);
  }

  /** On `TwoCities` the only state reaching vertex 1 comes from 0 at cost 5. */
  lemma TwoCitiesTables()
    ensures ValidInput(TwoCities)
    ensures Dp(TwoCities, 3, 1) == 5 && Prev(TwoCities, 3, 1) == 0
  {
    TwoCitiesRelax();
  }

  /** On `TwoCities` the closing scan picks vertex 1 at cost 10, and the recorded path to it
      is 0, 1. */
  lemma TwoCitiesClose()
    ensures ValidInput(TwoCities)
    ensures Close(TwoCities, 2) == Choice(10, 1) && Walk(TwoCities, 3, 1) == [0, 1]
  {
    TwoCitiesTables();
    assert Close(TwoCities, 2) == Choice(10, 1);
    assert Walk(TwoCities, 1, 0) == [0];
  }

  /** On `TwoCities` the as-written tour is [0, 0, 1], whose consecutive distances sum to 5,
      while the reported cost is the cycle 0 -> 1 -> 0 of cost 10. */
  lemma ReconstructionCounterexample()
    ensures ValidInput(TwoCities)
    ensures Reconstructed(TwoCities) == [0, 0, 1]
    ensures Close(TwoCities, 2).cost == 10
    ensures TourCost(TwoCities, Reconstructed(TwoCities)) == 5
  {
    TwoCitiesClose();
    assert Full(2) == 3;
    assert TourCost(TwoCities, [0, 1]) == 5;
  }

  /** The tour the solver evidently intends: the recorded path closed back to 0, and for a
      single vertex the tour [0, 0] at cost `dist[0][0]`. It is an optimal Hamiltonian cycle
      whose reported cost is its own. */
  function CorrectedSolution(dist: Matrix): (r: Solution)
    requires ValidInput(dist)
    ensures IsHamiltonianCycle(r.tour, |dist|)
    ensures r.cost == TourCost(dist, r.tour)
    ensures forall c :: IsHamiltonianCycle(c, |dist|) ==> r.cost <= TourCost(dist, c)
    ensures |dist| >= 2 ==> r.cost == Close(dist, |dist|).cost && r.tour == Reconstructed(dist)[1..] + [0]
  {
    if |dist| == 1 then
      SingleVertexCycles(dist);
      Solution([0, 0], dist[0][0])
    else
      ExactOptimal(dist);
      var tour := Walk(dist, Full(|dist|), Close(dist, |dist|).pred) + [0];
      Solution(tour, Close(dist, |dist|).cost)
  }

  /** With one vertex the only Hamiltonian cycle is [0, 0]. */
  lemma SingleVertexCycles(dist: Matrix)
    requires ValidInput(dist) && |dist| == 1
    ensures IsHamiltonianCycle([0, 0], 1)
    ensures forall c :: IsHamiltonianCycle(c, 1) ==> c == [0, 0]
  {
    assert [0, 0][..1] == [0];
  }
}
