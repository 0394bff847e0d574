/**
 * The Merkle tree object: its height, its storage laid out as an implicit
 * heap, the injected hash algorithm and the leaves it was built over.
 * New sizes and allocates the storage; SumTree fills it in place with the
 * leaf digests, the padding and the internal digests; GetRoot and
 * GetTreeData read it.
 */
module Tree {
  import opened Sizing
  import opened Layout

  class Merkletree {
    var height: nat
    var tree: array<Option<Bytes>>
    const hasher: Hash
    var data: seq<Bytes>

    /** The height fits the leaf count and the storage fits the height. */
    ghost predicate Valid()
      reads this
    {
      height == Height(|data|) && tree.Length == Size(height)
    }

    /** The storage holds the summed tree over the current leaves. */
    ghost predicate Summed()
      reads this, tree
    {
      var s := Storage(hasher, data);
      tree.Length == |s| && forall k :: 0 <= k < |s| ==> tree[k] == s[k]
    }

    /**
     * Sizes the tree for the leaves: height 1 and a single slot without
     * leaves, otherwise height ceil(log2 n) + 1 and 2^height - 1 slots, all
     * of them absent until the tree is summed.
     */
    constructor New(hasher: Hash, data: seq<Bytes>)
      ensures Valid() && fresh(tree)
      ensures this.hasher == hasher && this.data == data
      ensures |data| < 1 ==> height == 1 && tree.Length == 1
      ensures |data| >= 1 ==> height == CeilLog2(|data|) + 1 && tree.Length == Pow2(height) - 1
      ensures forall k :: 0 <= k < tree.Length ==> tree[k] == None
    {
      this.hasher := hasher;
      this.data := data;
      if |data| < 1 {
        tree := new Option<Bytes>[1](_ => None);
        height := 1;
      } else {
        var h := CeilLog2(|data|) + 1;
        height := h;
        tree := new Option<Bytes>[Pow2(h) - 1](_ => None);
      }
    }

    /** A snapshot of the storage. */
    method GetTreeData() returns (s: seq<Option<Bytes>>)
      requires Valid()
      ensures s == tree[..]
      ensures Summed() ==> s == Storage(hasher, data)
    {
      s := tree[..];
    }

    /** The root slot: once the tree is summed, the root digest. */
    method GetRoot() returns (r: Option<Bytes>)
      requires Valid()
      ensures r == tree[0]
      ensures Summed() ==> r == Root(hasher, data) && r.Some?
    {
      r := tree[0];
    }

    /**
     * Computes every digest in place. The final storage depends only on the
     * hash algorithm and the leaves, and every slot is overwritten, so
     * summing twice leaves the same storage.
     */
    method SumTree()
      requires Valid()
      modifies tree
      ensures Valid() && Summed()
      ensures height == old(height) && data == old(data) && tree == old(tree)
      ensures |data| < 1 ==> tree[0] == Some(hasher([]))
      ensures |data| == 1 ==> tree[0] == Some(hasher(data[0]))
    {
      var n := |data|;
      if n < 1 {
        tree[0] := Some(hasher([]));
        RootNoLeaves(hasher);
        return;
      }
      if n == 1 {
        tree[0] := Some(hasher(data[0]));
        assert data == [data[0]];
        RootOneLeaf(hasher, data[0]);
        return;
      }

      SumLevels(tree, hasher, data, height);
    }
  }

  /**
   * The general case of SumTree, for two leaves or more: the leaf loop, the
   * padding loop and the fold, after which the array holds the summed
   * storage.
   */
  method SumLevels(a: array<Option<Bytes>>, H: Hash, leaves: seq<Bytes>, height: nat)
    requires |leaves| >= 2 && height == Height(|leaves|) && a.Length == Size(height)
    modifies a
    ensures a.Length == |Storage(H, leaves)|
    ensures forall k :: 0 <= k < a.Length ==> a[k] == Storage(H, leaves)[k]
  {
    var n := |leaves|;
    var w := Pow2(height - 1);
    var tp := w - 1;
    var tu := tp - 1;
    FillLeaves(a, H, leaves, tp);
    tp := tp + n;
    ClearPadding(a, tp);
    DeepestLevel(a, H, leaves, w);
    FoldInternal(a, H, leaves, w, tu);
    SlotsAreStorage(a, H, leaves, w);
  }

  /** An array holding every slot Slot prescribes holds the summed storage. */
  lemma SlotsAreStorage(a: array<Option<Bytes>>, H: Hash, leaves: seq<Bytes>, w: nat)
    requires |leaves| >= 1 && w == Pow2(Height(|leaves|) - 1) && a.Length == 2 * w - 1
    requires forall k {:trigger a[k]} :: 0 <= k < a.Length ==> a[k] == Slot(H, leaves, w, k)
    ensures a.Length == |Storage(H, leaves)|
    ensures forall k :: 0 <= k < a.Length ==> a[k] == Storage(H, leaves)[k]
  {
    StorageIsSlots(H, leaves);
  }

  /**
   * Once the leaf and padding loops have run, the whole deepest level holds
   * what Slot prescribes.
   */
  lemma DeepestLevel(a: array<Option<Bytes>>, H: Hash, leaves: seq<Bytes>, w: nat)
    requires 1 <= w && |leaves| <= w && a.Length == 2 * w - 1
    requires forall i :: 0 <= i < |leaves| ==> a[w - 1 + i] == Some(H(leaves[i]))
    requires forall k :: w - 1 + |leaves| <= k < a.Length ==> a[k] == None
    ensures forall k {:trigger a[k]} :: w - 1 <= k < a.Length ==> a[k] == Slot(H, leaves, w, k)
  {
    forall k | w - 1 <= k < a.Length
      ensures a[k] == Slot(H, leaves, w, k)
    {
      if k < w - 1 + |leaves| {
        assert a[w - 1 + (k - (w - 1))] == Some(H(leaves[k - (w - 1)]));
      }
    }
  }

  /** The leaf loop: the digest of each leaf, in order, from slot `first` on. */
  method FillLeaves(a: array<Option<Bytes>>, H: Hash, leaves: seq<Bytes>, first: nat)
    requires first + |leaves| <= a.Length
    modifies a
    ensures forall i :: 0 <= i < |leaves| ==> a[first + i] == Some(H(leaves[i]))
    ensures forall k :: 0 <= k < a.Length && !(first <= k < first + |leaves|) ==> a[k] == old(a[k])
  {
    var tp := first;
    for i := 0 to |leaves|
      invariant tp == first + i
      invariant forall m :: 0 <= m < i ==> a[first + m] == Some(H(leaves[m]))
      invariant forall k :: 0 <= k < a.Length && !(first <= k < tp) ==> a[k] == old(a[k])
    {
      a[tp] := Some(H(leaves[i]));
      tp := tp + 1;
    }
  }

  /** The padding loop: every slot from `from` to the end becomes absent. */
  method ClearPadding(a: array<Option<Bytes>>, from: nat)
    modifies a
    ensures forall k :: from <= k < a.Length ==> a[k] == None
    ensures forall k :: 0 <= k < a.Length && k < from ==> a[k] == old(a[k])
  {
    var tp := from;
    while tp < a.Length
      invariant from <= tp
      invariant forall k :: from <= k < tp && k < a.Length ==> a[k] == None
      invariant forall k :: 0 <= k < a.Length && k < from ==> a[k] == old(a[k])
    {
      a[tp] := None;
      tp := tp + 1;
    }
  }

  /**
   * The fold loop: from slot `last` down to the root, each internal slot
   * becomes the digest of its children's bytes. The deepest level must
   * already hold the leaf digests and the padding.
   */
  method FoldInternal(a: array<Option<Bytes>>, H: Hash, leaves: seq<Bytes>, w: nat, last: int)
    requires w >= 1 && a.Length == 2 * w - 1 && last == w - 2
    requires forall k {:trigger a[k]} :: w - 1 <= k < a.Length ==> a[k] == Slot(H, leaves, w, k)
    modifies a
    ensures forall k {:trigger a[k]} :: 0 <= k < a.Length ==> a[k] == Slot(H, leaves, w, k)
  {
    var tu := last;
    while tu >= 0
      invariant -1 <= tu < w - 1
      invariant forall k {:trigger a[k]} :: tu < k < a.Length ==> a[k] == Slot(H, leaves, w, k)
    {
      var left, right := a[tu * 2 + 1], a[tu * 2 + 2];
      SlotFromChildren(H, leaves, w, tu, left, right);
      a[tu] := Some(H(Absorbed(left) + Absorbed(right)));
      tu := tu - 1;
    }
  }
}
