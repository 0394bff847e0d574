/**
 * The digests a Merkle tree holds once it is summed, as a reference
 * definition independent of the loops that compute them.
 *
 * The hash algorithm is a total function H from bytes to bytes: Go's
 * hash.Hash Reset, then a Write of each part, then Sum, yields H applied
 * to the concatenation of the parts written. A slot is either a digest or
 * absent (Go's nil slice), and writing an absent slot into the hasher
 * absorbs nothing.
 */
module Layout {
  import opened Sizing

  newtype byte = x: int | 0 <= x < 256

  type Bytes = seq<byte>

  /** The injected hash algorithm. */
  type Hash = Bytes -> Bytes

  datatype Option<T> = None | Some(value: T)

  /**
   * The bytes a slot contributes when written into the hasher: none for a
   * padding slot or an empty digest, the digest's bytes otherwise.
   */
  function Absorbed(slot: Option<Bytes>): Bytes
  {
    match slot
    case None => []
    case Some(d) => d
  }

  /** Only padding and an empty digest contribute no bytes to the hasher. */
  lemma AbsorbedNothing(slot: Option<Bytes>)
    ensures |Absorbed(slot)| == 0 <==> slot.None? || slot.value == []
  {
  }

  /**
   * The digest slot j holds in a tree whose deepest level is w slots wide
   * (so 2w - 1 slots in all, the deepest level starting at w - 1) over the
   * leaves `data`: on the deepest level the digest of the corresponding
   * leaf, or absent past the last leaf; above it, the digest of the left
   * child's bytes followed by the right child's bytes.
   */
  function Slot(H: Hash, data: seq<Bytes>, w: nat, j: nat): (r: Option<Bytes>)
    requires 1 <= w && j < 2 * w - 1
    ensures r.None? <==> w - 1 + |data| <= j
    decreases 2 * w - 1 - j
  {
    if j >= w - 1 then
      var i := j - (w - 1);
      if i < |data| then Some(H(data[i])) else None
    else
      Some(H(Absorbed(Slot(H, data, w, 2 * j + 1)) + Absorbed(Slot(H, data, w, 2 * j + 2))))
  }

  /** An internal slot is the digest of its children's bytes, left first. */
  lemma SlotInternal(H: Hash, data: seq<Bytes>, w: nat, j: nat)
    requires 1 <= w && j < w - 1
    ensures 2 * j + 2 < 2 * w - 1
    ensures Slot(H, data, w, j) ==
      Some(H(Absorbed(Slot(H, data, w, 2 * j + 1)) + Absorbed(Slot(H, data, w, 2 * j + 2))))
  {
  }

  /**
   * The digest of the bytes of an internal slot's two children, left first,
   * is that slot's digest.
   */
  lemma SlotFromChildren(H: Hash, data: seq<Bytes>, w: nat, j: nat, left: Option<Bytes>, right: Option<Bytes>)
    requires 1 <= w && j < w - 1
    requires left == Slot(H, data, w, 2 * j + 1) && right == Slot(H, data, w, 2 * j + 2)
    ensures Slot(H, data, w, j) == Some(H(Absorbed(left) + Absorbed(right)))
  {
    SlotInternal(H, data, w, j);
  }

  /** Leaf i's digest sits at offset i of the deepest level. */
  lemma SlotLeaf(H: Hash, data: seq<Bytes>, w: nat, i: nat)
    requires |data| <= w && i < |data|
    ensures Slot(H, data, w, w - 1 + i) == Some(H(data[i]))
  {
  }

  /** The deepest-level slots past the last leaf are absent. */
  lemma SlotPadding(H: Hash, data: seq<Bytes>, w: nat, k: nat)
    requires 1 <= w && w - 1 + |data| <= k < 2 * w - 1
    ensures Slot(H, data, w, k) == None
  {
  }

  /** Every slot of the tree whose deepest level is w slots wide, in order. */
  function Slots(H: Hash, data: seq<Bytes>, w: nat): (t: seq<Option<Bytes>>)
    requires 1 <= w
    ensures |t| == 2 * w - 1
  {
    seq(2 * w - 1, j requires 0 <= j < 2 * w - 1 => Slot(H, data, w, j))
  }

  /**
   * The deepest level of a tree of height h when every leaf fits it: leaf
   * digests from slot 2^(h-1) - 1 on, then absent padding to the end.
   */
  lemma SlotsShape(H: Hash, data: seq<Bytes>, h: nat, w: nat)
    requires h >= 1 && w == Pow2(h - 1) && |data| <= w
    ensures |Slots(H, data, w)| == Size(h)
    ensures forall i :: 0 <= i < |data| ==>
      FirstLeaf(h) + i < Size(h) && Slots(H, data, w)[FirstLeaf(h) + i] == Some(H(data[i]))
    ensures forall k :: FirstLeaf(h) + |data| <= k < Size(h) ==> Slots(H, data, w)[k] == None
  {
    var f := FirstLeaf(h);
    assert f == w - 1 && Size(h) == 2 * w - 1;
    var t := Slots(H, data, w);
    forall i | 0 <= i < |data|
      ensures t[f + i] == Some(H(data[i]))
    {
      SlotLeaf(H, data, w, i);
    }
  }

  /** Above the deepest level, each slot j digests its children l = 2j+1 and r = 2j+2. */
  lemma SlotsFold(H: Hash, data: seq<Bytes>, w: nat)
    requires 1 <= w
    ensures forall j, l, r {:trigger Slots(H, data, w)[j], Slots(H, data, w)[l], Slots(H, data, w)[r]} ::
      0 <= j < w - 1 && l == 2 * j + 1 && r == 2 * j + 2 ==>
      Slots(H, data, w)[j] == Some(H(Absorbed(Slots(H, data, w)[l]) + Absorbed(Slots(H, data, w)[r])))
  {
    var t := Slots(H, data, w);
    forall j, l, r | 0 <= j < w - 1 && l == 2 * j + 1 && r == 2 * j + 2
      ensures t[j] == Some(H(Absorbed(t[l]) + Absorbed(t[r])))
    {
      SlotInternal(H, data, w, j);
    }
  }

  /**
   * The whole storage once summed, for a tree of height h = Height(|data|):
   * with no leaves the single slot holds the digest of nothing; otherwise
   * leaf i's digest is at offset i of the deepest level (from slot
   * 2^(h-1) - 1 on), the rest of that level is absent, and every internal
   * slot j holds the digest of the bytes of its left child l = 2j+1
   * followed by those of its right child r = 2j+2, an absent child
   * contributing no bytes.
   */
  function Storage(H: Hash, data: seq<Bytes>): (s: seq<Option<Bytes>>)
    ensures |s| == Size(Height(|data|))
    ensures |data| == 0 ==> s[0] == Some(H([]))
    ensures forall i :: 0 <= i < |data| ==>
      FirstLeaf(Height(|data|)) + i < |s| && s[FirstLeaf(Height(|data|)) + i] == Some(H(data[i]))
    ensures |data| >= 1 ==> forall k :: FirstLeaf(Height(|data|)) + |data| <= k < |s| ==> s[k] == None
    ensures forall j :: 0 <= j < FirstLeaf(Height(|data|)) ==> 2 * j + 2 < |s|
    ensures forall j, l, r {:trigger s[j], s[l], s[r]} ::
      0 <= j < FirstLeaf(Height(|data|)) && l == 2 * j + 1 && r == 2 * j + 2 ==>
      s[j] == Some(H(Absorbed(s[l]) + Absorbed(s[r])))
  {
    var h := Height(|data|);
    if |data| == 0 then [Some(H([]))]
    else
      var w := Pow2(h - 1);
      SlotsShape(H, data, h, w);
      SlotsFold(H, data, w);
      var s := Slots(H, data, w);
      assert forall i :: 0 <= i < |data| ==> s[FirstLeaf(h) + i] == Some(H(data[i]));
      s
  }

  /** With at least one leaf, every summed slot is as Slot prescribes. */
  lemma StorageIsSlots(H: Hash, data: seq<Bytes>)
    requires |data| >= 1
    ensures forall j :: 0 <= j < |Storage(H, data)| ==>
      Storage(H, data)[j] == Slot(H, data, Pow2(Height(|data|) - 1), j)
  {
  }

  /** The root digest of the summed tree: always a digest, never absent. */
  function Root(H: Hash, data: seq<Bytes>): (r: Option<Bytes>)
    ensures r.Some?
  {
    Storage(H, data)[0]
  }

  /**
   * A slot is absent exactly when it is a padding slot: on the deepest level
   * past the last leaf. In particular every internal slot, even one whose
   * children are both padding, holds a real digest.
   */
  lemma AbsentIffPadding(H: Hash, data: seq<Bytes>, k: nat)
    requires k < |Storage(H, data)|
    ensures Storage(H, data)[k].None? <==> |data| >= 1 && k >= FirstLeaf(Height(|data|)) + |data|
  {
  }

  /** An internal slot whose two children are padding holds H of nothing. */
  lemma BothChildrenPadding(H: Hash, data: seq<Bytes>, j: nat)
    requires |data| >= 1
    requires j < FirstLeaf(Height(|data|))
    requires 2 * j + 1 >= FirstLeaf(Height(|data|)) + |data|
    ensures Storage(H, data)[j] == Some(H([]))
  {
    var s := Storage(H, data);
    assert s[j] == Some(H(Absorbed(s[2 * j + 1]) + Absorbed(s[2 * j + 2])));
    assert s[2 * j + 1] == None && s[2 * j + 2] == None;
    assert Absorbed(None) + Absorbed(None) == [];
  }

  /** With no leaves the single slot is the digest of the empty byte sequence. */
  lemma RootNoLeaves(H: Hash)
    ensures Storage(H, []) == [Some(H([]))]
    ensures Root(H, []) == Some(H([]))
  {
  }

  /** With one leaf the single slot is that leaf's digest, with nothing folded. */
  lemma RootOneLeaf(H: Hash, d: Bytes)
    ensures Storage(H, [d]) == [Some(H(d))]
    ensures Root(H, [d]) == Some(H(d))
  {
    var data := [d];
    assert Height(1) == 1 && FirstLeaf(1) == 0;
    assert Storage(H, data)[0 + 0] == Some(H(data[0]));
  }

  /** The seven slots of a tree over four leaves, from the Slot lemmas. */
  lemma FourSlots(H: Hash, a: Bytes, b: Bytes, c: Bytes, d: Bytes)
    ensures Slots(H, [a, b, c, d], 4) ==
      var la, lb, lc, ld := H(a), H(b), H(c), H(d);
      var n1, n2 := H(la + lb), H(lc + ld);
      [Some(H(n1 + n2)), Some(n1), Some(n2), Some(la), Some(lb), Some(lc), Some(ld)]
  {
    var data := [a, b, c, d];
    SlotLeaf(H, data, 4, 0);
    SlotLeaf(H, data, 4, 1);
    SlotLeaf(H, data, 4, 2);
    SlotLeaf(H, data, 4, 3);
    SlotInternal(H, data, 4, 2);
    SlotInternal(H, data, 4, 1);
    SlotInternal(H, data, 4, 0);
  }

  /** Four leaves fill a tree of height 3 exactly. */
  lemma FourLeaves(H: Hash, a: Bytes, b: Bytes, c: Bytes, d: Bytes)
    ensures Height(4) == 3
    ensures Storage(H, [a, b, c, d]) ==
      var la, lb, lc, ld := H(a), H(b), H(c), H(d);
      var n1, n2 := H(la + lb), H(lc + ld);
      [Some(H(n1 + n2)), Some(n1), Some(n2), Some(la), Some(lb), Some(lc), Some(ld)]
  {
    assert CeilLog2(4) == 2 by {
      assert CeilLog2(2) == 1;
    }
    assert Pow2(2) == 4;
    FourSlots(H, a, b, c, d);
  }

  /** The seven slots of a tree over three leaves, from the Slot lemmas. */
  lemma ThreeSlots(H: Hash, a: Bytes, b: Bytes, c: Bytes)
    ensures Slots(H, [a, b, c], 4) ==
      var la, lb, lc := H(a), H(b), H(c);
      var n1, n2 := H(la + lb), H(lc);
      [Some(H(n1 + n2)), Some(n1), Some(n2), Some(la), Some(lb), Some(lc), None]
  {
    var data := [a, b, c];
    SlotLeaf(H, data, 4, 0);
    SlotLeaf(H, data, 4, 1);
    SlotLeaf(H, data, 4, 2);
    SlotPadding(H, data, 4, 6);
    SlotInternal(H, data, 4, 2);
    assert H(c) + [] == H(c);
    SlotInternal(H, data, 4, 1);
    SlotInternal(H, data, 4, 0);
  }

  /**
   * Three leaves also get height 3; the fourth leaf slot is padding and the
   * fold of slot 2 reads it, contributing no bytes after the third leaf's
   * digest.
   */
  lemma ThreeLeaves(H: Hash, a: Bytes, b: Bytes, c: Bytes)
    ensures Height(3) == 3
    ensures Storage(H, [a, b, c]) ==
      var la, lb, lc := H(a), H(b), H(c);
      var n1, n2 := H(la + lb), H(lc);
      [Some(H(n1 + n2)), Some(n1), Some(n2), Some(la), Some(lb), Some(lc), None]
  {
    assert CeilLog2(3) == 2 by {
      assert CeilLog2(2) == 1;
    }
    assert Pow2(2) == 4;
    ThreeSlots(H, a, b, c);
  }

  /**
   * The root does not commit to the number of leaves: no leaves and one
   * empty leaf share a root.
   */
  lemma NoLeavesLikeEmptyLeaf(H: Hash)
    ensures Root(H, []) == Root(H, [[]])
  {
    RootNoLeaves(H);
    RootOneLeaf(H, []);
  }

  /**
   * Nor are leaf digests separated from internal digests: a single leaf
   * holding the two leaf digests of a pair has the pair's root.
   */
  lemma OneLeafLikePair(H: Hash, a: Bytes, b: Bytes)
    ensures Root(H, [H(a) + H(b)]) == Root(H, [a, b])
  {
    RootOneLeaf(H, H(a) + H(b));
    RootTwoLeaves(H, a, b);
  }

  /** Two leaves: the root is the digest of the two leaf digests in order. */
  lemma RootTwoLeaves(H: Hash, a: Bytes, b: Bytes)
    ensures Height(2) == 2
    ensures Root(H, [a, b]) == Some(H(H(a) + H(b)))
  {
    var data := [a, b];
    assert CeilLog2(2) == 1;
    assert FirstLeaf(2) == 1;
    var s := Storage(H, data);
    assert s[1 + 0] == Some(H(data[0])) && s[1 + 1] == Some(H(data[1]));
    assert s[0] == Some(H(Absorbed(s[1]) + Absorbed(s[2])));
  }
}
