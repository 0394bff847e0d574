/**
 * A second, level-by-level description of the same digests: the deepest
 * level is the padded row of leaf digests, and each level above it pairs
 * up the slots of the level below, left then right. Reducing the deepest
 * level to a single slot gives the root, and RootByLevels proves that this
 * agrees with the heap-indexed definition in Layout.
 */
module Levels {
  import opened Sizing
  import opened Layout

  /** The deepest level, w slots wide: leaf digests, then absent padding. */
  function LeafRow(H: Hash, data: seq<Bytes>, w: nat): (row: seq<Option<Bytes>>)
    requires |data| <= w
    ensures |row| == w
  {
    seq(w, i requires 0 <= i < w => if i < |data| then Some(H(data[i])) else None)
  }

  /**
   * The level above a row of 2p slots: p slots, slot i digesting the bytes
   * of slots 2i and 2i+1, left first.
   */
  function Up(H: Hash, row: seq<Option<Bytes>>, p: nat): (up: seq<Option<Bytes>>)
    requires |row| == 2 * p
    ensures |up| == p
  {
    seq(p, i requires 0 <= i < p => Some(H(Absorbed(row[2 * i]) + Absorbed(row[2 * i + 1]))))
  }

  /**
   * Pairs up a row of 2^e slots e times, leaving its single top slot, which
   * is a digest as soon as one pairing has happened.
   */
  function Reduce(H: Hash, row: seq<Option<Bytes>>, e: nat): (r: Option<Bytes>)
    requires |row| == Pow2(e)
    ensures e >= 1 ==> r.Some?
    decreases e
  {
    if e == 0 then row[0] else Reduce(H, Up(H, row, Pow2(e - 1)), e - 1)
  }

  /**
   * `row` is the level p slots wide of the heap-indexed tree whose deepest
   * level is w slots wide: that level starts at slot p - 1.
   */
  ghost predicate IsLevel(H: Hash, data: seq<Bytes>, w: nat, p: nat, row: seq<Option<Bytes>>)
    requires 1 <= p <= w
  {
    |row| == p && forall i {:trigger row[i]} :: 0 <= i < p ==> row[i] == Slot(H, data, w, p - 1 + i)
  }

  /** The padded row of leaf digests is the deepest level. */
  lemma LeafRowIsDeepest(H: Hash, data: seq<Bytes>, w: nat)
    requires 1 <= w && |data| <= w
    ensures IsLevel(H, data, w, w, LeafRow(H, data, w))
  {
    var row := LeafRow(H, data, w);
    forall i | 0 <= i < w
      ensures row[i] == Slot(H, data, w, w - 1 + i)
    {
      if i < |data| {
        SlotLeaf(H, data, w, i);
      } else {
        SlotPadding(H, data, w, w - 1 + i);
      }
    }
  }

  /** One parent slot: the pair below it digests to the parent's slot. */
  lemma UpSlot(H: Hash, data: seq<Bytes>, w: nat, p: nat, left: Option<Bytes>, right: Option<Bytes>, i: nat)
    requires 1 <= p && 2 * p <= w && i < p
    requires left == Slot(H, data, w, 2 * p - 1 + 2 * i)
    requires right == Slot(H, data, w, 2 * p + 2 * i)
    ensures Some(H(Absorbed(left) + Absorbed(right))) == Slot(H, data, w, p - 1 + i)
  {
    var j := p - 1 + i;
    assert 2 * j + 1 == 2 * p - 1 + 2 * i && 2 * j + 2 == 2 * p + 2 * i;
    SlotFromChildren(H, data, w, j, left, right);
  }

  /** Pairing up the level 2p slots wide gives the level p slots wide. */
  lemma UpIsParentLevel(H: Hash, data: seq<Bytes>, w: nat, p: nat, row: seq<Option<Bytes>>)
    requires 1 <= p && 2 * p <= w
    requires IsLevel(H, data, w, 2 * p, row)
    ensures IsLevel(H, data, w, p, Up(H, row, p))
  {
    var up := Up(H, row, p);
    forall i | 0 <= i < p
      ensures up[i] == Slot(H, data, w, p - 1 + i)
    {
      UpSlot(H, data, w, p, row[2 * i], row[2 * i + 1], i);
    }
  }

  /** Reducing the level 2^d slots wide all the way up yields the root slot. */
  lemma {:induction false} ReduceLevel(H: Hash, data: seq<Bytes>, w: nat, d: nat, row: seq<Option<Bytes>>)
    requires Pow2(d) <= w
    requires IsLevel(H, data, w, Pow2(d), row)
    ensures Reduce(H, row, d) == Slot(H, data, w, 0)
    decreases d
  {
    if d == 0 {
      assert row[0] == Slot(H, data, w, 0);
    } else {
      var p := Pow2(d - 1);
      UpIsParentLevel(H, data, w, p, row);
      ReduceLevel(H, data, w, d - 1, Up(H, row, p));
    }
  }

  /**
   * With at least one leaf, the root of the summed tree is the pairwise,
   * level-by-level reduction of the leaf digests padded with absent slots
   * to the width 2^(h-1) of the deepest level.
   */
  lemma RootByLevels(H: Hash, data: seq<Bytes>)
    requires |data| >= 1
    ensures var e := Height(|data|) - 1;
      Root(H, data) == Reduce(H, LeafRow(H, data, Pow2(e)), e)
  {
    var e := Height(|data|) - 1;
    var w := Pow2(e);
    LeafRowIsDeepest(H, data, w);
    ReduceLevel(H, data, w, e, LeafRow(H, data, w));
    StorageIsSlots(H, data);
    assert Root(H, data) == Slot(H, data, w, 0);
  }
}
