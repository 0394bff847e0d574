/**
 * Tree sizing for the Merkle tree builder: the height chosen for a leaf
 * count and the index arithmetic of the implicit heap layout (root at 0,
 * children of slot j at 2j+1 and 2j+2).
 *
 * The Go code computes the height with floating-point logarithms and
 * powers; here the same quantities are integer functions.
 */
module Sizing {

  /** 2 to the power k. */
  function Pow2(k: nat): (r: nat)
    ensures r >= 1
  {
    if k == 0 then 1 else 2 * Pow2(k - 1)
  }

  /** Powers of two grow with the exponent. */
  lemma {:induction false} Pow2Monotone(a: nat, b: nat)
    requires a <= b
    ensures Pow2(a) <= Pow2(b)
    decreases b - a
  {
    if a < b {
      Pow2Monotone(a + 1, b);
    }
  }

  /**
   * The least k with n <= 2^k: for n >= 1 this is ceil(log2 n), the
   * quantity Go obtains as math.Ceil(math.Log2(n)).
   */
  function CeilLog2(n: nat): (k: nat)
    ensures n <= Pow2(k)
    ensures n >= 2 ==> k >= 1 && Pow2(k - 1) < n
    ensures n <= 1 ==> k == 0
    decreases n
  {
    if n <= 1 then 0 else 1 + CeilLog2((n + 1) / 2)
  }

  /**
   * The height chosen for n leaves: 1 when there are none, otherwise
   * ceil(log2 n) + 1. It is the least h >= 1 whose deepest level,
   * 2^(h-1) slots wide, holds all n leaves (see HeightIsLeast).
   */
  function Height(n: nat): (h: nat)
    ensures h >= 1
    ensures n <= Pow2(h - 1)
    ensures n <= 1 ==> h == 1
    ensures n >= 2 ==> h >= 2 && Pow2(h - 2) < n
  {
    if n < 1 then 1 else CeilLog2(n) + 1
  }

  /** No smaller height leaves room for n leaves on its deepest level. */
  lemma HeightIsLeast(n: nat, e: nat)
    requires e < Height(n) - 1
    ensures Pow2(e) < n
  {
    Pow2Monotone(e, Height(n) - 2);
  }

  /**
   * Any leaf count between n and the width of n's deepest level gets the
   * same height: adding leaves that land in padding slots keeps the shape.
   */
  lemma HeightStable(n: nat, m: nat)
    requires n <= m <= Pow2(Height(n) - 1)
    ensures Height(m) == Height(n)
  {
    if Height(m) < Height(n) {
      HeightIsLeast(n, Height(m) - 1);
    } else if Height(m) > Height(n) {
      HeightIsLeast(m, Height(n) - 1);
    }
  }

  /** Number of slots for a tree of height h: 2^h - 1. */
  function Size(h: nat): (r: nat)
    requires h >= 1
    ensures r >= 1
  {
    Pow2(h) - 1
  }

  /**
   * Index of the first slot of the deepest level, 2^(h-1) - 1. Every slot
   * before it is internal, and the deepest level runs from here to the end.
   */
  function FirstLeaf(h: nat): (r: nat)
    requires h >= 1
    ensures r + Pow2(h - 1) == Size(h)
    ensures 2 * r + 1 == Size(h)
  {
    Pow2(h - 1) - 1
  }

  /** The deepest level of a height chosen for n leaves holds all n of them. */
  lemma LeavesFit(n: nat)
    ensures FirstLeaf(Height(n)) + n <= Size(Height(n))
  {
  }

  /**
   * Both children of every internal slot lie inside the storage, and every
   * slot after the root has an internal parent that precedes it.
   */
  lemma ChildrenInBounds(h: nat, j: nat)
    requires h >= 1
    ensures j < FirstLeaf(h) ==> 2 * j + 2 < Size(h)
    ensures 0 < j < Size(h) ==> (j - 1) / 2 < FirstLeaf(h) && (j - 1) / 2 < j
  {
  }
}
