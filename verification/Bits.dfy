/** Vertex sets encoded as bit masks, the way the exact solver indexes its tables:
    bit i of `mask` is set when vertex i belongs to the set. Masks are natural numbers;
    `1 << k` is `Pow2(k)`, `mask & (1 << i)` is read with `Bit`, setting an absent bit
    (`mask | (1 << v)`) adds `Pow2(v)` and clearing a present bit (`mask ^ (1 << v)`)
    subtracts it. */
module Bits {

  function Pow2(k: nat): (r: nat)
    ensures r >= 1
  {
    if k == 0 then 1 else 2 * Pow2(k - 1)
  }

  /** Bit i of `mask`: `(mask & (1 << i)) != 0`. */
  predicate Bit(mask: nat, i: nat) {
    if i == 0 then mask % 2 == 1 else Bit(mask / 2, i - 1)
  }

  /** The vertices below n whose bits are set in `mask`. */
  function BitSet(mask: nat, n: nat): (r: set<int>)
    ensures forall v :: v in r <==> 0 <= v < n && Bit(mask, v)
  {
    if n == 0 then {} else BitSet(mask, n - 1) + (if Bit(mask, n - 1) then {n - 1} else {})
  }

  lemma {:induction false} PowMonotone(a: nat, b: nat)
    requires a <= b
    ensures Pow2(a) <= Pow2(b)
  {
    if a < b {
      PowMonotone(a, b - 1);
    }
  }

  /** The empty mask has no bit set. */
  lemma {:induction false} NoBitInZero(i: nat)
    ensures !Bit(0, i)
  {
    if i > 0 {
      NoBitInZero(i - 1);
    }
  }

  /** Mask 1 is the singleton {0}. */
  lemma OnlyBitZeroInOne(i: nat)
    ensures Bit(1, i) <==> i == 0
  {
    if i > 0 {
      NoBitInZero(i - 1);
    }
  }

  /** Adding `Pow2(v)` to a mask without bit v sets exactly bit v. */
  lemma {:induction false} SetBit(mask: nat, v: nat, i: nat)
    requires !Bit(mask, v)
    ensures Bit(mask + Pow2(v), i) <==> Bit(mask, i) || i == v
  {
    if v == 0 {
      if i > 0 {
        assert (mask + 1) / 2 == mask / 2;
      }
    } else {
      assert (mask + Pow2(v)) % 2 == mask % 2;
      assert (mask + Pow2(v)) / 2 == mask / 2 + Pow2(v - 1);
      if i > 0 {
        SetBit(mask / 2, v - 1, i - 1);
      }
    }
  }

  /** A mask with bit v set is at least `Pow2(v)`, and subtracting `Pow2(v)` clears bit v. */
  lemma {:induction false} ClearBitBounds(mask: nat, v: nat)
    requires Bit(mask, v)
    ensures mask >= Pow2(v)
    ensures !Bit(mask - Pow2(v), v)
  {
    if v > 0 {
      ClearBitBounds(mask / 2, v - 1);
      assert (mask - Pow2(v)) / 2 == mask / 2 - Pow2(v - 1);
    }
  }

  /** Subtracting `Pow2(v)` from a mask with bit v clears exactly bit v. */
  lemma ClearBit(mask: nat, v: nat, i: nat)
    requires Bit(mask, v)
    ensures mask >= Pow2(v)
    ensures Bit(mask - Pow2(v), i) <==> Bit(mask, i) && i != v
  {
    ClearBitBounds(mask, v);
    SetBit(mask - Pow2(v), v, i);
  }

  /** The mask of the states that precede (mask, v) in the recurrence: mask with bit v cleared. */
  function Without(mask: nat, v: nat): (r: nat)
    requires Bit(mask, v)
    ensures r + Pow2(v) == mask && r < mask
    ensures !Bit(r, v)
    ensures forall i: nat :: Bit(r, i) <==> Bit(mask, i) && i != v
  {
    ClearBitBounds(mask, v);
    forall i: nat ensures Bit(mask - Pow2(v), i) <==> Bit(mask, i) && i != v {
      ClearBit(mask, v, i);
    }
    mask - Pow2(v)
  }

  /** Setting an absent bit below n keeps a mask below `Pow2(n)`. */
  lemma {:induction false} SetBitBelow(mask: nat, n: nat, v: nat)
    requires mask < Pow2(n) && v < n && !Bit(mask, v)
    ensures mask + Pow2(v) < Pow2(n)
  {
    var half, p := mask / 2, Pow2(n - 1);
    assert Pow2(n) == 2 * p;
    assert mask == 2 * half + mask % 2;
    assert half < p;
    if v > 0 {
      SetBitBelow(half, n - 1, v - 1);
      assert Pow2(v) == 2 * Pow2(v - 1);
      assert half + Pow2(v - 1) <= p - 1;
    } else {
      assert mask % 2 == 0;
    }
  }

  /** Masks below `Pow2(n)` are determined by their bits below n. */
  lemma {:induction false} BitsDetermineMask(a: nat, b: nat, n: nat)
    requires a < Pow2(n) && b < Pow2(n)
    requires forall i :: 0 <= i < n ==> (Bit(a, i) <==> Bit(b, i))
    ensures a == b
  {
    if n > 0 {
      forall i | 0 <= i < n - 1
        ensures Bit(a / 2, i) <==> Bit(b / 2, i)
      {
        assert Bit(a, i + 1) <==> Bit(b, i + 1);
      }
      BitsDetermineMask(a / 2, b / 2, n - 1);
      assert Bit(a, 0) <==> Bit(b, 0);
    }
  }

  /** `(1 << n) - 1` has every bit below n set. */
  lemma {:induction false} FullMask(n: nat, i: nat)
    requires i < n
    ensures Bit(Pow2(n) - 1, i)
  {
    if i > 0 {
      assert (Pow2(n) - 1) / 2 == Pow2(n - 1) - 1;
      FullMask(n - 1, i - 1);
    }
  }
}
