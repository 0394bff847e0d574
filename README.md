# merkletree, modelled in Dafny

A model of a small Merkle-tree builder.

A `Merkletree` is created over a list of leaves with an injected hash
algorithm. `New` chooses a height `h` and allocates `2^h - 1` storage slots in
an implicit heap layout: the root is slot 0 and the children of slot `j` are
slots `2j+1` and `2j+2`. `SumTree` fills the storage in place:

- With no leaves, the root is the digest of nothing.
- With one leaf, the root is that leaf's digest.
- Otherwise three loops run in turn:
  - the first writes each leaf's digest into the deepest level, which starts at slot `2^(h-1) - 1`;
  - the second clears the rest of that level;
  - the third folds from slot `2^(h-1) - 2` down to the root, each slot getting the digest of its children's bytes.

`GetRoot` returns slot 0 and `GetTreeData` returns the storage.

The project has four modules, one per file:

- `Sizing` (`sizing.dfy`) holds the height and the index arithmetic as integer functions:
  - `Pow2`, `CeilLog2`, `Height`, `Size`, `FirstLeaf`;
  - lemmas saying the chosen height is the least one that fits, and that every index the loops use is in range.
- `Layout` (`layout.dfy`) holds the reference definition of the summed tree:
  - `Slot` says what each slot holds, recursively over the heap layout;
  - `Slots` lists every slot `Slot` prescribes, and `Storage` is the whole summed array: leaf digests on the deepest level, padding after them, each internal slot the digest of its children; `Root` is its slot 0;
  - lemmas cover leaf placement, padding, the fold rule, when a slot is absent, the edge cases, concrete small trees, and two ways the root fails to commit to the leaf count.
- `Levels` (`levels.dfy`) gives a second, independent definition of the root: start from the padded row of leaf digests and pair up each row's slots level by level. `RootByLevels` proves it agrees with `Layout`.
- `Tree` (`merkletree.dfy`) is the class `Merkletree`:
  - fields `height`, `tree` (an `array<Option<Bytes>>`), `hasher` and `data`;
  - the constructor `New`, `SumTree` with its three loops, `GetRoot` and `GetTreeData`;
  - `SumTree` is proved to leave exactly `Storage(hasher, data)` in the array.

How things are modelled:

- **The hash algorithm** is a total function `H` from bytes to bytes. A `Reset`, then `Write`s, then `Sum` is `H` applied to the concatenation of the bytes written.
- **A padding slot** is `None`. Go writes the nil slice into the hasher, which absorbs no bytes, so `None` contributes the empty sequence. An internal slot whose children are both padding therefore holds `H([])`, which is a real digest.
- **The fold does read padding slots.** With three leaves, for example, slot 2 reads slots 5 and 6, and 6 is padding (`ThreeLeaves`).

## Model

| member | source | states |
|---|---|---|
| Sizing.CeilLog2 | merkletree.go:33 | the result k is the least exponent with n <= 2^k: n <= 2^k, and for n >= 2, 2^(k-1) < n; 0 for n <= 1 |
| Sizing.Pow2 | merkletree.go:37 | the power 2^e that sizes the storage and the deepest level is at least 1 |
| Sizing.Height | merkletree.go:27-33 | height is 1 with no leaves and ceil(log2 n) + 1 otherwise; it is >= 1, the deepest level 2^(h-1) holds all n leaves, and for n >= 2, 2^(h-2) < n |
| Sizing.HeightIsLeast | merkletree.go:33 | no smaller height leaves room for n leaves: every e < h - 1 has 2^e < n |
| Sizing.HeightStable | merkletree.go:33 | every leaf count from n up to the width of n's deepest level gets the same height |
| Sizing.Pow2Monotone | merkletree.go:37 | powers of two grow with the exponent |
| Sizing.Size | merkletree.go:37 | the slot count 2^h - 1 is at least 1 |
| Sizing.FirstLeaf | merkletree.go:67 | the deepest level starts at 2^(h-1) - 1; it and the deepest-level width add up to the slot count, and twice it plus one is the slot count |
| Sizing.LeavesFit | merkletree.go:67-76 | the leaf loop's last slot, 2^(h-1) - 1 + n - 1, is inside the storage |
| Sizing.ChildrenInBounds | merkletree.go:82-88 | both children 2j+1 and 2j+2 of every slot j the fold visits are inside the storage, and every non-root slot's parent is internal and precedes it |
| Layout.AbsorbedNothing | merkletree.go:79-85 | a slot written into the hasher contributes no bytes exactly when it is padding (the nil slice) or an empty digest |
| Layout.Slot | merkletree.go:70-88 | a slot of the tree whose deepest level is w wide is absent if and only if it lies on the deepest level past the last leaf |
| Layout.SlotInternal | merkletree.go:82-88 | an internal slot is the digest of its left child's bytes followed by its right child's bytes |
| Layout.SlotFromChildren | merkletree.go:83-87 | hashing the bytes of an internal slot's two children, left first, yields that slot |
| Layout.SlotLeaf | merkletree.go:70-76 | leaf i's digest is at offset i of the deepest level |
| Layout.SlotPadding | merkletree.go:78-80 | deepest-level slots past the last leaf are absent |
| Layout.Slots | merkletree.go:37 | the slots of a tree whose deepest level is w wide number 2w - 1 |
| Layout.SlotsShape | merkletree.go:65-80 | for height h, with every leaf fitting the deepest level 2^(h-1) wide: the slots number 2^h - 1, leaf i is at slot 2^(h-1) - 1 + i, and every later slot is absent |
| Layout.SlotsFold | merkletree.go:82-88 | every internal slot j of the tree whose deepest level is w wide is H(bytes(slot 2j+1) ++ bytes(slot 2j+2)) |
| Layout.Storage | merkletree.go:50-91 | the summed storage has 2^h - 1 slots; with no leaves slot 0 is H([]); slot 2^(h-1) - 1 + i holds H(data[i]) for every leaf i; with at least one leaf every later slot is absent; every internal slot j has both children in range and holds H(bytes(slot 2j+1) ++ bytes(slot 2j+2)) |
| Layout.StorageIsSlots | merkletree.go:65-91 | with at least one leaf every summed slot is the one Slot prescribes for the deepest-level width 2^(h-1) |
| Layout.Root | merkletree.go:93-95 | the root of the summed tree is always a digest, never absent |
| Layout.AbsentIffPadding | merkletree.go:78-88 | a summed slot is absent if and only if there is at least one leaf and the slot lies past the last leaf on the deepest level |
| Layout.BothChildrenPadding | merkletree.go:84-87 | an internal slot whose two children are both padding holds H([]), a real digest |
| Layout.RootNoLeaves | merkletree.go:52-55 | with no leaves the storage is the single slot H([]) |
| Layout.RootOneLeaf | merkletree.go:58-62 | with one leaf the storage is the single slot H(leaf), with nothing folded |
| Layout.RootTwoLeaves | merkletree.go:65-88 | with two leaves the height is 2 and the root is H(H(a) ++ H(b)) |
| Layout.FourSlots | merkletree.go:70-88 | the seven slots over four leaves are the root, two internal digests over the leaf digests in order, then the four leaf digests |
| Layout.FourLeaves | merkletree.go:65-88 | four leaves give height 3 and the full seven-slot storage, internal digests over leaf digests in order |
| Layout.ThreeSlots | merkletree.go:70-88 | over three leaves slot 6 is absent and slot 2 is H(H(c)) |
| Layout.ThreeLeaves | merkletree.go:65-88 | three leaves give height 3; slot 6 is padding and slot 2 is H(H(c)), the absent sibling contributing no bytes |
| Layout.NoLeavesLikeEmptyLeaf | merkletree.go:52-62 | the root does not commit to the leaf count: no leaves and one empty leaf share a root |
| Layout.OneLeafLikePair | merkletree.go:58-88 | nor does it separate leaves from internal nodes: the single leaf H(a) ++ H(b) has the root of the pair [a, b] |
| Levels.LeafRow | merkletree.go:70-80 | the padded deepest row has width w; LeafRowIsDeepest proves it is the heap layout's deepest level |
| Levels.Up | merkletree.go:82-88 | pairing a row of 2p slots gives p slots; UpIsParentLevel proves that pairing the heap level 2p wide gives the level p wide |
| Levels.Reduce | merkletree.go:82-88 | reducing a row of 2^e slots pairwise e >= 1 times yields a digest, never an absent slot; RootByLevels proves the result is the root |
| Levels.LeafRowIsDeepest | merkletree.go:65-80 | the padded row of leaf digests is exactly the deepest level of the heap layout |
| Levels.UpSlot | merkletree.go:82-88 | the two slots of the level 2p wide below a parent digest to the parent's slot on the level p wide |
| Levels.UpIsParentLevel | merkletree.go:82-88 | pairing up the heap level 2p slots wide yields the heap level p slots wide |
| Levels.ReduceLevel | merkletree.go:82-88 | reducing heap level 2^d pairwise to one slot yields the root slot |
| Levels.RootByLevels | merkletree.go:50-91 | with at least one leaf the root is the level-by-level pairwise reduction of the leaf digests padded to width 2^(h-1) |
| Tree.Merkletree.New | merkletree.go:20-40 | height 1 and one slot with no leaves, otherwise height CeilLog2(n) + 1 and 2^h - 1 slots, all absent; keeps the hasher and the leaves |
| Tree.Merkletree.GetTreeData | merkletree.go:46-48 | returns the storage's contents, which are Storage(hasher, data) once the tree is summed |
| Tree.Merkletree.GetRoot | merkletree.go:93-95 | returns slot 0, which once the tree is summed is Root(hasher, data), hence a digest and never absent |
| Tree.Merkletree.SumTree | merkletree.go:50-91 | leaves the array holding exactly Storage(hasher, data), with height, leaves, hasher and array unchanged; root H([]) with no leaves and H(data[0]) with one; a second call yields the same storage, since that value depends only on fields SumTree keeps |
| Tree.SumLevels | merkletree.go:65-88 | for two or more leaves the three loops leave the array holding exactly the summed storage |
| Tree.FillLeaves | merkletree.go:70-76 | the leaf loop writes H(leaves[i]) at first + i for every i and changes no other slot |
| Tree.ClearPadding | merkletree.go:78-80 | the padding loop makes every slot from its start to the end absent and changes no earlier slot |
| Tree.DeepestLevel | merkletree.go:65-80 | after the leaf and padding loops the whole deepest level is as Slot prescribes |
| Tree.FoldInternal | merkletree.go:82-88 | the descending fold leaves every slot as Slot prescribes; its invariant is that every slot after the cursor is final, so both children are final when a parent is written |
| Tree.SlotsAreStorage | merkletree.go:65-91 | an array holding every slot Slot prescribes holds the summed storage |

## Left out

- SHA-256 and `NewSha256Tree` (merkletree.go:42-44) are not modelled. The hash is a parameter `H`, and no property of SHA-256, such as collision resistance, is assumed or proved.
- The streaming `hash.Hash` object is not modelled: `Reset`, `Write` and `Sum` become one application of `H` to the concatenated bytes. The hasher state `SumTree` leaves behind is not modelled either.
- The floating-point `math.Log2`, `math.Ceil` and `math.Pow` (merkletree.go:33, 37, 67) are replaced by the integer `CeilLog2` and `Pow2`. The model therefore does not capture any rounding error of the floating-point computation for very large leaf counts, nor overflow of Go's `int`.
- `MerkletreeItem.Bytes()` (merkletree.go:9-11) is an interface call. Leaves are modelled directly as byte sequences.
- Tree.Merkletree.New: keeps the leaf bytes fixed from construction on. Go keeps the caller's slice (merkletree.go:24) and calls `Bytes()` only when `SumTree` runs (merkletree.go:60, 72), so a caller that changes the slice or its items after `New` changes what is summed; the model does not capture that aliasing.
- Layout.Root: states the root is never absent. Go's `Sum(nil)` returns a nil slice for a hash whose digests are empty, which Go cannot tell from padding; the model keeps such a digest as `Some([])`, so the property holds in Go only for hashes with non-empty digests.
- Layout.AbsentIffPadding: holds in Go, as for Layout.Root, only for hashes with non-empty digests; an empty digest is nil in Go, indistinguishable from padding.
- Tree.Merkletree.GetRoot: a digest, never absent, with the same restriction to non-empty digests as Layout.Root.
- Tree.Merkletree.GetTreeData: returns a copy of the storage. The Go function returns the internal slice itself, so a caller could modify the tree through it; that aliasing is not modelled.
- Tree.Merkletree.SumTree: requires `Valid()`, meaning the object was built by `New` and the storage fits the leaf count. A zero-valued Go struct, whose nil storage makes `SumTree` panic, is not modelled.
- The fold's and the leaf loop's bodies are separate methods (`FillLeaves`, `ClearPadding`, `FoldInternal`, called from `SumLevels`) working on the storage array, rather than being inlined in `SumTree`. The steps and their order are the code's.
