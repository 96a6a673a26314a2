// imap_assign keeps the tree invariant and the map: the buffers HangLeaf
// and HangInner build are the rewirings the walk lemmas of TreeAssign
// describe, and the cells and the free list are untouched.

module AssignValid {
  import opened Bits
  import opened Layout
  import opened Tree
  import opened TreeAssign

  /** The heap with block `b` taken for a tree node. */
  function Claim(h: Heap, b: nat): (r: Heap)
    requires b < |h.kinds|
    ensures |r.kinds| == |h.kinds| && r.kinds[b] == Node && r.owner == h.owner && r.free == h.free
    ensures forall i :: 0 <= i < |h.kinds| && i != b ==> r.kinds[i] == h.kinds[i]
  {
    h.(kinds := h.kinds[b := Node])
  }

  // ----- arithmetic on the mark

  lemma {:induction false} BlockBelow(i: nat, m: nat)
    requires m % 64 == 0 && 64 * (i / 16) < m
    ensures i < m / 4
  {
    var q := m / 64;
    assert m == 64 * q;
    assert i / 16 < q;
  }

  lemma {:induction false} MarkBlocks(m: nat, len: nat, k: nat)
    requires m % 64 == 0 && m + 64 * k <= 4 * len
    ensures (m / 4) % 16 == 0 && (m / 4) / 16 == m / 64 && m / 4 + 16 * k <= len
    ensures (m / 4 + 16) % 16 == 0 && (m / 4 + 16) / 16 == m / 64 + 1
    ensures m / 64 + k <= len / 16
  {
    var q := m / 64;
    assert m == 64 * q;
  }

  // ----- the slot being rewired

  /** The rewired slot is the root slot or a slot of a tree node. */
  predicate SlotSpot(h: Heap, s: nat)
  {
    s == 0 || (16 <= s && s / 16 < |h.kinds| && h.kinds[s / 16] == Node)
  }

  /** A slot on the walk lies below the mark and is not a header word other than the root. */
  lemma {:induction false} SlotBelowMark(w: seq<u32>, h: Heap, x: u64, cs: nat, d: nibble, ps: nat)
    requires HeaderOK(w) && KindsOK(w, h) && At(w, h, x, cs, d, ps)
    ensures cs + d < w[MARK] / 4 && cs + d != MARK && SlotSpot(h, cs + d)
  {
    if cs != 0 {
      NodeWord(cs, d);
      assert h.kinds[cs / 16] != Unused;
      BlockBelow(cs + d, w[MARK]);
    }
  }

  /**
   * `w2` agrees with `w` below the mark except at `s` (whose prefix nibble
   * stays) and the mark, and `h2` keeps every block below the mark: the
   * buffer and heap are rewired at `s`.
   */
  lemma {:induction false} RewiredBuilt(w: seq<u32>, h: Heap, w2: seq<u32>, h2: Heap, s: nat)
    requires HeaderOK(w) && KindsOK(w, h)
    requires |w2| == |w| && s < w[MARK] / 4 && s != MARK && Low4(w2[s]) == Low4(w[s])
    requires forall i: nat {:trigger Kept(w, w2, i)} :: i < w[MARK] / 4 && i != s && i != MARK ==> Kept(w, w2, i)
    requires |h2.kinds| == |h.kinds|
    requires forall b :: 0 <= b < w[MARK] / 64 && b < |h.kinds| ==> h2.kinds[b] == h.kinds[b]
    ensures Rewired(w, h, w2, h2, s)
  {
    var m := w[MARK];
    forall b: nat | b < |h.kinds| && h.kinds[b] != Unused
      ensures KindKept(h, h2, b)
    {
      assert 64 * b < m;
      var q := m / 64;
      assert m == 64 * q;
    }
    forall i: nat | i < |w| && i / 16 < |h.kinds| && h.kinds[i / 16] != Unused && i != s && i != MARK
      ensures Kept(w, w2, i)
    {
      BlockBelow(i, m);
    }
  }

  // ----- the new nodes

  /** The 16 words at `c` are `blk`. */
  predicate BlockIs(w: seq<u32>, c: nat, blk: seq<u32>)
  {
    c + 16 <= |w| && |blk| == 16 && forall j :: 0 <= j < 16 ==> w[c + j] == blk[j]
  }

  /** A node built by Unpacklo4 from a zeroed block for the leaf prefix of `x` is a fresh leaf. */
  lemma {:induction false} FreshLeafBuilt(w2: seq<u32>, h2: Heap, x: u64, L: nat)
    requires InNode(h2, L) && BlockIs(w2, L, LeafBlock(x))
    ensures FreshLeaf(w2, h2, x, L)
  {
    var blk := LeafBlock(x);
    BlockSlice(w2, L, blk);
    PackUnpack(Zeros(), LeafPrefix(x));
    PosNibble(w2, L);
    LeafPrefixNibbles(x);
    forall i: nat | L <= i < L + 16
      ensures Vacant(w2, i)
    {
      assert w2[L + (i - L)] == blk[i - L];
    }
  }

  /** A block given word by word is the slice at `c`. */
  lemma {:induction false} BlockSlice(w: seq<u32>, c: nat, blk: seq<u32>)
    requires BlockIs(w, c, blk)
    ensures w[c..c + 16] == blk
  {
    forall j | 0 <= j < 16
      ensures w[c..c + 16][j] == blk[j]
    {
      assert w[c..c + 16][j] == w[c + j];
    }
  }

  /**
   * `w2` is `w` with one node hung at the mark `m`: the mark moved on by one
   * node, slot `s` pointing to the leaf for `x` at `m`, and nothing else
   * below the mark changed.
   */
  predicate LeafHung(w: seq<u32>, w2: seq<u32>, s: nat, x: u64)
    requires |w| >= 16 && Room(w, 1)
  {
    var m := w[MARK];
    |w2| == |w| && m / 4 + 16 <= |w| && s < m / 4 && s != MARK &&
    w2[MARK] == m + 64 && w2[SIZE] == w[SIZE] && w2[s] == PointTo(w[s], m) && BlockIs(w2, m / 4, LeafBlock(x)) &&
    forall i: nat {:trigger Kept(w, w2, i)} :: i < m / 4 && i != s && i != MARK ==> Kept(w, w2, i)
  }

  /** The words of HangLeaf: the mark, the slot, the new leaf, and nothing else below the mark. */
  lemma {:induction false} HangLeafWords(w: seq<u32>, s: nat, x: u64)
    requires |w| >= 16 && Room(w, 1) && s < w[MARK] / 4 && s != MARK && s != SIZE
    ensures LeafHung(w, HangLeaf(w, s, x), s, x)
  {
    var m := w[MARK];
    MarkBlocks(m, |w|, 1);
    var w1 := w[MARK := m + 64][s := PointTo(w[s], m)];
    PutBlockWords(w1, m / 4, LeafBlock(x));
    assert Kept(w, HangLeaf(w, s, x), SIZE);
  }

  /**
   * `w2` is `w` with two nodes hung at the mark `m`: the mark moved on by
   * two nodes, slot `s` pointing to the inner node at `m`, which splits at
   * nibble `diff` between the old child `n` and the leaf for `x` at `m + 64`,
   * and nothing else below the mark changed.
   */
  predicate InnerHung(w: seq<u32>, w2: seq<u32>, s: nat, n: nat, diff: nibble, x: u64)
    requires |w| >= 16 && Room(w, 2) && n + 16 <= |w|
  {
    var m := w[MARK];
    |w2| == |w| && m / 4 + 32 <= |w| && s < m / 4 && s != MARK &&
    w2[MARK] == m + 128 && w2[SIZE] == w[SIZE] && w2[s] == PointTo(w[s], m) &&
    BlockIs(w2, m / 4, InnerBlock(w[s], Prefix(w, n), x, diff, m + 64)) &&
    BlockIs(w2, m / 4 + 16, LeafBlock(x)) &&
    forall i: nat {:trigger Kept(w, w2, i)} :: i < m / 4 && i != s && i != MARK ==> Kept(w, w2, i)
  }

  /** The words of HangInner: the mark, the slot, the two new nodes, and nothing else below the mark. */
  lemma {:induction false} HangInnerWords(w: seq<u32>, s: nat, n: nat, diff: nibble, x: u64)
    requires |w| >= 16 && Room(w, 2) && s < w[MARK] / 4 && s != MARK && s != SIZE && n + 16 <= |w|
    ensures InnerHung(w, HangInner(w, s, n, diff, x), s, n, diff, x)
  {
    var m := w[MARK];
    MarkBlocks(m, |w|, 2);
    var w1 := w[MARK := m + 128][s := PointTo(w[s], m)];
    var blk := InnerBlock(w[s], Prefix(w, n), x, diff, m + 64);
    var w2 := PutBlock(w1, m / 4, blk);
    PutBlockWords(w1, m / 4, blk);
    PutBlockWords(w2, m / 4 + 16, LeafBlock(x));
    assert Kept(w, HangInner(w, s, n, diff, x), SIZE);
  }

  /** The leaf slot built as `imap__slot_node__ | offset` points to the node at that byte offset. */
  lemma {:induction false} LeafPointer(m: nat)
    requires m % 64 == 0 && m + 64 < 0x8000_0000
    ensures IsNode(16 + m + 64) && Child(16 + m + 64) == m / 4 + 16
  {
    PointToWord(0, m + 64);
  }

  /** The new inner node built by HangInner, given the slot value `sval` it displaces. */
  lemma {:induction false} FreshInnerBuilt(w: seq<u32>, w2: seq<u32>, h2: Heap, x: u64, n: nat, diff: nibble, N: nat, m: nat,
                                           sval: u32, L: nat)
    requires n + 16 <= |w| && m % 64 == 0 && m + 128 <= 0x8000_0000 && N == m / 4 && L == N + 16
    requires InNode(h2, N) && N + 16 <= |w2|
    requires Xdir(x, diff) != Xdir(Prefix(w, n), diff)
    requires IsNode(sval) && Child(sval) == n && BlockIs(w2, N, InnerBlock(sval, Prefix(w, n), x, diff, m + 64))
    ensures FreshInner(w, w2, h2, x, n, diff, N, L)
  {
    var pfx := Prefix(w, n);
    var blk := InnerBlock(sval, pfx, x, diff, m + 64);
    BlockSlice(w2, N, blk);
    InnerPrefixBuilt(w2, N, sval, pfx, x, diff, m + 64);
    InnerSlotsBuilt(w2, N, sval, pfx, x, diff, m, blk);
  }

  /** The prefix and position of the new inner node. */
  lemma {:induction false} InnerPrefixBuilt(w2: seq<u32>, N: nat, sval: u32, pfx: u64, x: u64, diff: nibble, leaf: nat)
    requires 16 + leaf < U32_LIMIT && N + 16 <= |w2| && w2[N..N + 16] == InnerBlock(sval, pfx, x, diff, leaf)
    ensures Prefix(w2, N) == SplitPrefix(pfx, diff) && Pos(w2, N) == diff
  {
    var base := Zeros()[Xdir(pfx, diff) := sval][Xdir(x, diff) := 16 + leaf];
    assert InnerBlock(sval, pfx, x, diff, leaf) == Unpacklo4(base, SplitPrefix(pfx, diff));
    PackUnpack(base, SplitPrefix(pfx, diff));
    PosNibble(w2, N);
    SplitPrefixNibbles(pfx, diff);
  }

  /** The slots of the new inner node: the old child at its nibble, the fresh leaf at x's, the rest empty. */
  lemma {:induction false} InnerSlotsBuilt(w2: seq<u32>, N: nat, sval: u32, pfx: u64, x: u64, diff: nibble, m: nat,
                                           blk: seq<u32>)
    requires m % 64 == 0 && m + 128 <= 0x8000_0000 && N + 16 <= |w2| && IsNode(sval)
    requires Xdir(x, diff) != Xdir(pfx, diff) && blk == InnerBlock(sval, pfx, x, diff, m + 64)
    requires forall j :: 0 <= j < 16 ==> w2[N + j] == blk[j]
    ensures IsNode(w2[N + Xdir(pfx, diff)]) && Child(w2[N + Xdir(pfx, diff)]) == Child(sval)
    ensures IsNode(w2[N + Xdir(x, diff)]) && Child(w2[N + Xdir(x, diff)]) == m / 4 + 16
    ensures forall i: nat {:trigger Vacant(w2, i)} ::
      N <= i < N + 16 && i != N + Xdir(pfx, diff) && i != N + Xdir(x, diff) ==> Vacant(w2, i)
  {
    var a, b := Xdir(pfx, diff), Xdir(x, diff);
    var base := Zeros()[a := sval][b := 16 + m + 64];
    assert blk == Unpacklo4(base, SplitPrefix(pfx, diff));
    LeafPointer(m);
    assert w2[N + a] == blk[a];
    SlotBits(sval, blk[a]);
    assert w2[N + b] == blk[b];
    SlotBits(16 + m + 64, blk[b]);
    forall i: nat | N <= i < N + 16 && i != N + a && i != N + b
      ensures Vacant(w2, i)
    {
      assert w2[N + (i - N)] == blk[i - N];
      assert base[i - N] == 0;
    }
  }

  /** Changing the prefix nibble of a slot word keeps its node flag and pointer. */
  lemma {:induction false} SlotBits(v: u32, r: u32)
    requires r / 16 == v / 16
    ensures IsNode(r) == IsNode(v) && Child(r) == Child(v)
  {
    assert r / 32 == r / 16 / 2;
    assert v / 32 == v / 16 / 2;
  }

  /** The heap after `k` nodes are allocated at the mark. */
  function Grow(w: seq<u32>, h: Heap, k: nat): (r: Heap)
    requires HeaderOK(w) && KindsOK(w, h) && Room(w, k) && 1 <= k <= 2
    ensures |r.kinds| == |h.kinds| && r.owner == h.owner && r.free == h.free
    ensures forall b :: 0 <= b < |h.kinds| ==>
      r.kinds[b] == if w[MARK] / 64 <= b < w[MARK] / 64 + k then Node else h.kinds[b]
  {
    MarkBlocks(w[MARK], |w|, k);
    var b := w[MARK] / 64;
    if k == 1 then Claim(h, b) else Claim(Claim(h, b), b + 1)
  }

  /** The blocks allocated at the mark, `N` and then `L`, are tree nodes of the grown heap `h2`. */
  lemma {:induction false} GrowNodes(w: seq<u32>, h: Heap, k: nat, h2: Heap, N: nat, L: nat)
    requires HeaderOK(w) && KindsOK(w, h) && Room(w, k) && 1 <= k <= 2
    requires h2 == Grow(w, h, k) && N == w[MARK] / 4 && L == N + 16
    ensures InNode(h2, N) && N + 16 * k <= |w|
    ensures k == 2 ==> InNode(h2, L)
  {
    var m := w[MARK];
    MarkBlocks(m, |w|, k);
    assert h2.kinds[m / 64] == Node;
    if k == 2 {
      assert h2.kinds[m / 64 + 1] == Node;
    }
  }

  /** The fresh leaf hung at the mark and the rewiring of its slot. */
  lemma {:induction false} HangLeafBuilt(w: seq<u32>, h: Heap, w2: seq<u32>, x: u64, cs: nat, d: nibble, ps: nat)
    requires HeaderOK(w) && KindsOK(w, h) && AttachSpot(w, h, x, cs, d, ps) && Room(w, 1)
    requires LeafHung(w, w2, cs + d, x)
    ensures Attached(w, h, w2, Grow(w, h, 1), x, cs, d, ps, w[MARK] / 4)
  {
    var m, s := w[MARK], cs + d;
    var h2, L := Grow(w, h, 1), m / 4;
    GrowNodes(w, h, 1, h2, L, L + 16);
    RewiredBuilt(w, h, w2, h2, s);
    FreshLeafBuilt(w2, h2, x, L);
    PointToWord(Low4(w[s]), m);
  }

  /** The new inner node and fresh leaf hung at the mark and the rewiring of its slot. */
  lemma {:induction false} HangInnerBuilt(w: seq<u32>, h: Heap, w2: seq<u32>, x: u64, cs: nat, d: nibble, ps: nat,
                                          n: nat, diff: nibble, h2: Heap, N: nat, L: nat)
    requires HeaderOK(w) && KindsOK(w, h) && SplitSpot(w, h, x, cs, d, ps, n, diff) && Room(w, 2)
    requires InnerHung(w, w2, cs + d, n, diff, x)
    requires h2 == Grow(w, h, 2) && N == w[MARK] / 4 && L == N + 16
    ensures Splitted(w, h, w2, h2, x, cs, d, ps, n, diff, N, L)
  {
    GrowNodes(w, h, 2, h2, N, L);
    HangInnerFresh(w, w2, x, cs + d, n, diff, h2, N, L);
    HangInnerWired(w, h, w2, x, cs, d, ps, n, diff, h2, N);
  }

  /** The two nodes HangInner puts at the mark, once their blocks are tree nodes of `h2`. */
  lemma {:induction false} HangInnerFresh(w: seq<u32>, w2: seq<u32>, x: u64, s: nat, n: nat, diff: nibble, h2: Heap, N: nat, L: nat)
    requires |w| >= 16 && Room(w, 2) && n + 16 <= |w| && s < |w|
    requires IsNode(w[s]) && Child(w[s]) == n && Xdir(x, diff) != Xdir(Prefix(w, n), diff)
    requires InnerHung(w, w2, s, n, diff, x)
    requires N == w[MARK] / 4 && L == N + 16 && InNode(h2, N) && InNode(h2, L)
    ensures FreshInner(w, w2, h2, x, n, diff, N, L) && FreshLeaf(w2, h2, x, L)
  {
    FreshInnerBuilt(w, w2, h2, x, n, diff, N, w[MARK], w[s], L);
    FreshLeafBuilt(w2, h2, x, L);
  }

  /** The slot HangInner rewires now points to the new inner node, and nothing else below the mark moved. */
  lemma {:induction false} HangInnerWired(w: seq<u32>, h: Heap, w2: seq<u32>, x: u64, cs: nat, d: nibble, ps: nat,
                                          n: nat, diff: nibble, h2: Heap, N: nat)
    requires HeaderOK(w) && KindsOK(w, h) && SplitSpot(w, h, x, cs, d, ps, n, diff) && Room(w, 2)
    requires InnerHung(w, w2, cs + d, n, diff, x)
    requires h2 == Grow(w, h, 2) && N == w[MARK] / 4
    ensures Rewired(w, h, w2, h2, cs + d) && IsNode(w2[cs + d]) && Child(w2[cs + d]) == N
  {
    RewiredBuilt(w, h, w2, h2, cs + d);
    PointToWord(Low4(w[cs + d]), w[MARK]);
  }

  // ----- the header, the cells and the free list after a rewiring

  /** The header and the block kinds after `k` nodes are allocated at the mark. */
  lemma {:induction false} HeaderBuilt(w: seq<u32>, h: Heap, w2: seq<u32>, k: nat)
    requires HeaderOK(w) && KindsOK(w, h) && Room(w, k) && 1 <= k <= 2
    requires |w2| == |w| && w2[MARK] == w[MARK] + 64 * k && w2[SIZE] == w[SIZE]
    ensures HeaderOK(w2) && KindsOK(w2, Grow(w, h, k))
  {
    var m := w[MARK];
    var h2 := Grow(w, h, k);
    MarkBlocks(m, |w|, k);
    forall b | 0 <= b < |h2.kinds| && 64 * b >= w2[MARK]
      ensures h2.kinds[b] == Unused
    {
      var q := m / 64;
      assert m == 64 * q;
    }
  }

  /** The words of a cell are outside every tree node, so a rewiring keeps them. */
  lemma {:induction false} CellKept(w: seq<u32>, h: Heap, w2: seq<u32>, h2: Heap, s: nat, k: nat)
    requires Rewired(w, h, w2, h2, s) && SlotSpot(h, s) && CellSpot(h, k) && 2 * k + 1 < |w|
    ensures w2[2 * k] == w[2 * k] && Cell(w2, k) == Cell(w, k)
  {
    assert (2 * k) / 16 == k / 8 && (2 * k + 1) / 16 == k / 8;
    assert Kept(w, w2, 2 * k);
    assert Kept(w, w2, 2 * k + 1);
  }

  /** A rewiring keeps the free list. */
  lemma {:induction false} FreeBuilt(w: seq<u32>, h: Heap, w2: seq<u32>, h2: Heap, s: nat)
    requires HeaderOK(w) && FreeOK(w, h) && HeaderOK(w2) && Rewired(w, h, w2, h2, s) && SlotSpot(h, s)
    requires h2.free == h.free && h2.owner == h.owner
    ensures FreeOK(w2, h2)
  {
    assert Kept(w, w2, FREE);
    forall i | 0 <= i < |h2.free|
      ensures FreeCell(w2, h2, i)
    {
      var f := h.free[i];
      assert FreeCell(w, h, i);
      assert KindKept(h, h2, f / 8);
      CellKept(w, h, w2, h2, s, f);
    }
  }

  /** A rewiring keeps the owners' cells. */
  lemma {:induction false} OwnersBuilt(w: seq<u32>, h: Heap, w2: seq<u32>, h2: Heap, s: nat)
    requires (forall k :: k in h.owner ==> CellSpot(h, k)) && Rewired(w, h, w2, h2, s) && h2.owner == h.owner
    ensures forall k :: k in h2.owner ==> CellSpot(h2, k)
  {
    forall k | k in h2.owner
      ensures CellSpot(h2, k)
    {
      assert KindKept(h, h2, k / 8);
    }
  }

  /** A slot found by a walk of `w` lies in a leaf, so it is not the rewired slot `s`, which sits above the leaves. */
  lemma {:induction false} OldSlot(w: seq<u32>, h: Heap, w2: seq<u32>, h2: Heap, x: u64, cs: nat, d: nibble, ps: nat, z: u64)
    requires Rewired(w, h, w2, h2, cs + d) && PathOK(w, h, z, 0, 0, 16) && Slot(w, z).Some?
    requires At(w, h, x, cs, d, ps) && 0 < ps
    ensures Slot(w, z).value < |w| && w2[Slot(w, z).value] == w[Slot(w, z).value]
  {
    var t := Slot(w, z).value;
    var leaf := SlotInLeaf(w, h, z, t);
    if t == cs + d {
      if cs != 0 {
        SameNode(leaf, z % 16, cs, d);
      }
      assert false;
    }
    assert Kept(w, w2, t);
  }

  /** The rewiring keeps the word, the cell and the value of every slot a walk of `w` finds. */
  lemma {:induction false} OldKey(w: seq<u32>, h: Heap, w2: seq<u32>, h2: Heap, x: u64, cs: nat, d: nibble, ps: nat, z: u64)
    requires Rewired(w, h, w2, h2, cs + d) && |w2| == |w| && SlotSpot(h, cs + d) && h2.owner == h.owner
    requires PathOK(w, h, z, 0, 0, 16) && (Slot(w, z).Some? ==> SlotCellOK(w, h, z, Slot(w, z).value))
    requires forall k :: k in h.owner ==> CellSpot(h, k)
    requires At(w, h, x, cs, d, ps) && 0 < ps
    requires Slot(w2, z) == Slot(w, z)
    ensures Slot(w2, z).Some? ==> SlotCellOK(w2, h2, z, Slot(w2, z).value)
    ensures Get(w2, z) == Get(w, z)
  {
    if Slot(w, z).Some? {
      var t := Slot(w, z).value;
      OldSlot(w, h, w2, h2, x, cs, d, ps, z);
      if OwnsCell(w[t]) && CellInRange(w, t) {
        CellKept(w, h, w2, h2, cs + d, Payload(w[t]));
      }
      ValueKept(w, w2, t);
    }
  }

  /** A slot word and its cell unchanged: the same value. */
  lemma {:induction false} ValueKept(w: seq<u32>, w2: seq<u32>, t: nat)
    requires |w| >= 16 && |w2| == |w| && t < |w| && w2[t] == w[t]
    requires OwnsCell(w[t]) && CellInRange(w, t) ==> Cell(w2, Payload(w[t])) == Cell(w, Payload(w[t]))
    ensures !IsNode(w[t]) ==> Hasval(w2, t) == Hasval(w, t) && CellInRange(w2, t) == CellInRange(w, t)
    ensures !IsNode(w[t]) && CellInRange(w, t) ==> Getval(w2, t) == Getval(w, t)
  {
  }

  /** A key whose walk now ends in the fresh leaf `L` had no slot and still has no value. */
  lemma {:induction false} NewKey(w: seq<u32>, w2: seq<u32>, h2: Heap, x: u64, L: nat, z: u64)
    requires |w| >= 16 && FreshLeaf(w2, h2, x, L) && Slot(w2, z) == NewSlot(x, L, z) && Slot(w, z) == None
    ensures Slot(w2, z).Some? ==> SlotCellOK(w2, h2, z, Slot(w2, z).value)
    ensures Get(w2, z) == Get(w, z) == None
  {
    if Slot(w2, z).Some? {
      assert Vacant(w2, L + z % 16);
    }
  }

  // ----- every key after a node is hung

  /** After a leaf is hung: key `z` keeps its path invariant, its cell's owner and its value. */
  lemma {:induction false} AttachKey(w: seq<u32>, h: Heap, w2: seq<u32>, h2: Heap, x: u64, cs: nat, d: nibble, ps: nat,
                                     L: nat, z: u64)
    requires Attached(w, h, w2, h2, x, cs, d, ps, L) && |w2| == |w| && SlotSpot(h, cs + d) && h2.owner == h.owner
    requires PathOK(w, h, z, 0, 0, 16) && (Slot(w, z).Some? ==> SlotCellOK(w, h, z, Slot(w, z).value))
    requires forall k :: k in h.owner ==> CellSpot(h, k)
    ensures PathOK(w2, h2, z, 0, 0, 16) && (Slot(w2, z).Some? ==> SlotCellOK(w2, h2, z, Slot(w2, z).value))
    ensures Get(w2, z) == Get(w, z)
  {
    AttachWalk(w, h, w2, h2, x, cs, d, ps, L, z);
    if Reaches(w, z, 0, 0, 16, cs + d) {
      NewKey(w, w2, h2, x, L, z);
    } else {
      OldKey(w, h, w2, h2, x, cs, d, ps, z);
    }
  }

  /** After an inner node is put above a child: key `z` keeps its path invariant, its cell's owner and its value. */
  lemma {:induction false} SplitKey(w: seq<u32>, h: Heap, w2: seq<u32>, h2: Heap, x: u64, cs: nat, d: nibble, ps: nat,
                                    n: nat, diff: nibble, N: nat, L: nat, z: u64)
    requires Splitted(w, h, w2, h2, x, cs, d, ps, n, diff, N, L) && |w2| == |w| && SlotSpot(h, cs + d) && h2.owner == h.owner
    requires PathOK(w, h, z, 0, 0, 16) && (Slot(w, z).Some? ==> SlotCellOK(w, h, z, Slot(w, z).value))
    requires forall k :: k in h.owner ==> CellSpot(h, k)
    ensures PathOK(w2, h2, z, 0, 0, 16) && (Slot(w2, z).Some? ==> SlotCellOK(w2, h2, z, Slot(w2, z).value))
    ensures Get(w2, z) == Get(w, z)
  {
    SplitWalk(w, h, w2, h2, x, cs, d, ps, n, diff, N, L, z);
    if Reaches(w, z, 0, 0, 16, cs + d) && Xdir(z, diff) == Xdir(x, diff) {
      NewKey(w, w2, h2, x, L, z);
    } else {
      OldKey(w, h, w2, h2, x, cs, d, ps, z);
    }
  }

  /** After a leaf is hung: the invariant holds, and every key keeps its path invariant, its cell's owner and its value. */
  lemma {:induction false} AttachKeys(w: seq<u32>, h: Heap, w2: seq<u32>, h2: Heap, x: u64, cs: nat, d: nibble, ps: nat, L: nat)
    requires Attached(w, h, w2, h2, x, cs, d, ps, L) && |w2| == |w| && SlotSpot(h, cs + d)
    requires h2.owner == h.owner && h2.free == h.free && ValidWith(w, h) && HeaderOK(w2) && KindsOK(w2, h2)
    ensures ValidWith(w2, h2)
    ensures forall z: u64 :: Get(w2, z) == Get(w, z)
  {
    forall z: u64
      ensures PathOK(w2, h2, z, 0, 0, 16) && (Slot(w2, z).Some? ==> SlotCellOK(w2, h2, z, Slot(w2, z).value))
      ensures Get(w2, z) == Get(w, z)
    {
      AttachKey(w, h, w2, h2, x, cs, d, ps, L, z);
    }
    ValidBuilt(w, h, w2, h2, cs + d);
  }

  /** After an inner node is put above a child: the invariant holds, and every key keeps its path invariant, its cell's owner and its value. */
  lemma {:induction false} SplitKeys(w: seq<u32>, h: Heap, w2: seq<u32>, h2: Heap, x: u64, cs: nat, d: nibble, ps: nat,
                                     n: nat, diff: nibble, N: nat, L: nat)
    requires Splitted(w, h, w2, h2, x, cs, d, ps, n, diff, N, L) && |w2| == |w| && SlotSpot(h, cs + d)
    requires h2.owner == h.owner && h2.free == h.free && ValidWith(w, h) && HeaderOK(w2) && KindsOK(w2, h2)
    ensures ValidWith(w2, h2)
    ensures forall z: u64 :: Get(w2, z) == Get(w, z)
  {
    forall z: u64
      ensures PathOK(w2, h2, z, 0, 0, 16) && (Slot(w2, z).Some? ==> SlotCellOK(w2, h2, z, Slot(w2, z).value))
      ensures Get(w2, z) == Get(w, z)
    {
      SplitKey(w, h, w2, h2, x, cs, d, ps, n, diff, N, L, z);
    }
    ValidBuilt(w, h, w2, h2, cs + d);
  }

  /** After a leaf is hung, the walk of `x` ends on the leaf's empty slot at x's low nibble. */
  lemma {:induction false} AttachNewSlot(w: seq<u32>, h: Heap, w2: seq<u32>, h2: Heap, x: u64, cs: nat, d: nibble, ps: nat, L: nat)
    requires Attached(w, h, w2, h2, x, cs, d, ps, L) && PathOK(w, h, x, 0, 0, 16) && OnWalk(w, x, cs + d)
    ensures Slot(w2, x) == Some(L + x % 16) && Vacant(w2, L + x % 16)
  {
    AttachWalk(w, h, w2, h2, x, cs, d, ps, L, x);
    assert Vacant(w2, L + x % 16);
  }

  /** After an inner node is put above a child, the walk of `x` ends on the fresh leaf's empty slot at x's low nibble. */
  lemma {:induction false} SplitNewSlot(w: seq<u32>, h: Heap, w2: seq<u32>, h2: Heap, x: u64, cs: nat, d: nibble, ps: nat,
                                        n: nat, diff: nibble, N: nat, L: nat)
    requires Splitted(w, h, w2, h2, x, cs, d, ps, n, diff, N, L) && PathOK(w, h, x, 0, 0, 16) && OnWalk(w, x, cs + d)
    ensures Slot(w2, x) == Some(L + x % 16) && Vacant(w2, L + x % 16)
  {
    SplitWalk(w, h, w2, h2, x, cs, d, ps, n, diff, N, L, x);
    assert Vacant(w2, L + x % 16);
  }

  /** The invariant holds again once the header, the block kinds, the free list and every key are in order. */
  lemma {:induction false} ValidBuilt(w: seq<u32>, h: Heap, w2: seq<u32>, h2: Heap, s: nat)
    requires HeaderOK(w) && KindsOK(w, h) && FreeOK(w, h) && (forall k :: k in h.owner ==> CellSpot(h, k))
    requires HeaderOK(w2) && KindsOK(w2, h2) && Rewired(w, h, w2, h2, s) && SlotSpot(h, s)
    requires h2.free == h.free && h2.owner == h.owner
    requires WalksOK(w2, h2) && SlotsOwned(w2, h2)
    ensures ValidWith(w2, h2)
  {
    FreeBuilt(w, h, w2, h2, s);
    OwnersBuilt(w, h, w2, h2, s);
  }

  /** The invariant, the map and x's new slot once a fresh leaf `L` hangs on slot `d` of node `cs`. */
  lemma {:induction false} AttachDone(w: seq<u32>, h: Heap, w2: seq<u32>, h2: Heap, x: u64, cs: nat, d: nibble, ps: nat, L: nat)
    requires ValidWith(w, h) && Attached(w, h, w2, h2, x, cs, d, ps, L) && OnWalk(w, x, cs + d)
    requires |w2| == |w| && SlotSpot(h, cs + d) && HeaderOK(w2) && KindsOK(w2, h2)
    requires h2.owner == h.owner && h2.free == h.free
    ensures ValidWith(w2, h2)
    ensures forall z: u64 :: Get(w2, z) == Get(w, z)
    ensures Slot(w2, x) == Some(L + x % 16) && Vacant(w2, L + x % 16)
  {
    AttachNewSlot(w, h, w2, h2, x, cs, d, ps, L);
    AttachKeys(w, h, w2, h2, x, cs, d, ps, L);
  }

  /**
   * Hanging a fresh leaf for `x` on the empty slot where x's walk stops
   * keeps the invariant and the map, and gives `x` the empty slot of the
   * leaf at its low nibble.
   */
  lemma {:induction false} AttachValid(w: seq<u32>, h: Heap, w2: seq<u32>, x: u64, cs: nat, d: nibble, ps: nat)
    requires ValidWith(w, h) && AttachSpot(w, h, x, cs, d, ps) && OnWalk(w, x, cs + d) && Room(w, 1)
    requires LeafHung(w, w2, cs + d, x)
    ensures ValidWith(w2, Grow(w, h, 1))
    ensures forall z: u64 :: Get(w2, z) == Get(w, z)
    ensures Slot(w2, x) == Some(w[MARK] / 4 + x % 16) && Vacant(w2, w[MARK] / 4 + x % 16)
  {
    SlotBelowMark(w, h, x, cs, d, ps);
    HeaderBuilt(w, h, w2, 1);
    HangLeafBuilt(w, h, w2, x, cs, d, ps);
    AttachDone(w, h, w2, Grow(w, h, 1), x, cs, d, ps, w[MARK] / 4);
  }

  /**
   * Putting a new inner node and a fresh leaf for `x` above the child where
   * x's walk stops keeps the invariant and the map, and gives `x` the empty
   * slot of the leaf at its low nibble.
   */
  lemma {:induction false} SplitValid(w: seq<u32>, h: Heap, w2: seq<u32>, x: u64, cs: nat, d: nibble, ps: nat,
                                      n: nat, diff: nibble, h2: Heap, N: nat, L: nat)
    requires ValidWith(w, h) && OnWalk(w, x, cs + d)
    requires Splitted(w, h, w2, h2, x, cs, d, ps, n, diff, N, L)
    requires |w2| == |w| && SlotSpot(h, cs + d) && HeaderOK(w2) && KindsOK(w2, h2)
    requires h2.owner == h.owner && h2.free == h.free
    ensures ValidWith(w2, h2)
    ensures forall z: u64 :: Get(w2, z) == Get(w, z)
    ensures Slot(w2, x) == Some(L + x % 16) && Vacant(w2, L + x % 16)
  {
    SplitNewSlot(w, h, w2, h2, x, cs, d, ps, n, diff, N, L);
    SplitKeys(w, h, w2, h2, x, cs, d, ps, n, diff, N, L);
  }

  /** The words and the ghost heap after the split, in the terms the walk and key lemmas take. */
  lemma {:induction false} SplitBuilt(w: seq<u32>, h: Heap, w2: seq<u32>, x: u64, cs: nat, d: nibble, ps: nat,
                                      n: nat, diff: nibble, h2: Heap, N: nat, L: nat)
    requires HeaderOK(w) && KindsOK(w, h) && SplitSpot(w, h, x, cs, d, ps, n, diff) && Room(w, 2)
    requires w2 == HangInner(w, cs + d, n, diff, x)
    requires h2 == Grow(w, h, 2) && N == w[MARK] / 4 && L == N + 16
    ensures Splitted(w, h, w2, h2, x, cs, d, ps, n, diff, N, L)
    ensures |w2| == |w| && SlotSpot(h, cs + d) && HeaderOK(w2) && KindsOK(w2, h2) && w2[MARK] == w[MARK] + 128
  {
    SlotBelowMark(w, h, x, cs, d, ps);
    HangInnerWords(w, cs + d, n, diff, x);
    HeaderBuilt(w, h, w2, 2);
    HangInnerBuilt(w, h, w2, x, cs, d, ps, n, diff, h2, N, L);
  }

  // ----- imap_assign keeps the invariant and the map

  /** The ghost heap after imap_assign: the nodes it allocates at the mark become tree nodes. */
  function AssignHeap(w: seq<u32>, h: Heap, x: u64): (r: Heap)
    requires HeaderOK(w) && KindsOK(w, h) && Fits(w, x)
    ensures r.owner == h.owner && r.free == h.free && |r.kinds| == |h.kinds|
  {
    var k := Need(Locate(w, x, 0, 0, 16));
    if k == 0 then h else Grow(w, h, k)
  }

  lemma {:induction false} AssignIsExisting(w: seq<u32>, h: Heap, x: u64, s: nat)
    requires HeaderOK(w) && KindsOK(w, h) && Fits(w, x) && Locate(w, x, 0, 0, 16) == Existing(s)
    ensures Assign(w, x) == (w, s) && AssignHeap(w, h, x) == h
  {
  }

  lemma {:induction false} AssignIsAttach(w: seq<u32>, x: u64, cs: nat, d: nibble, ps: nat)
    requires HeaderOK(w) && Fits(w, x) && Locate(w, x, 0, 0, 16) == Attach(cs, d, ps)
    ensures Assign(w, x).0 == HangLeaf(w, cs + d, x) && Assign(w, x).1 == w[MARK] / 4 + x % 16
  {
  }

  /** Hanging a fresh leaf keeps the invariant and the map, and leaves x's new slot empty. */
  lemma {:induction false} AttachKept(w: seq<u32>, h: Heap, x: u64, cs: nat, d: nibble, ps: nat, w2: seq<u32>, h2: Heap)
    requires ValidWith(w, h) && Locate(w, x, 0, 0, 16) == Attach(cs, d, ps) && Room(w, 1) && cs + 16 <= |w|
    requires w2 == HangLeaf(w, cs + d, x) && h2 == Grow(w, h, 1)
    ensures ValidWith(w2, h2)
    ensures forall z: u64 :: Get(w2, z) == Get(w, z)
    ensures Slot(w2, x) == Some(w[MARK] / 4 + x % 16) && Vacant(w2, w[MARK] / 4 + x % 16) && Slot(w, x) == None
    ensures w2[MARK] == w[MARK] + 64
  {
    AttachFound(w, h, x, cs, d, ps);
    SlotBelowMark(w, h, x, cs, d, ps);
    HangLeafWords(w, cs + d, x);
    AttachValid(w, h, w2, x, cs, d, ps);
  }

  /** The node an attach names lies inside the buffer. */
  lemma {:induction false} AttachInside(w: seq<u32>, h: Heap, x: u64, cs: nat, d: nibble, ps: nat)
    requires |w| >= 16 && PathOK(w, h, x, 0, 0, 16) && Locate(w, x, 0, 0, 16) == Attach(cs, d, ps)
    ensures cs + 16 <= |w|
  {
    RootLanded(w, h, x);
  }

  /** The split keeps the invariant and the map, and leaves x's new slot empty. */
  lemma {:induction false} SplitKept(w: seq<u32>, h: Heap, x: u64, cs: nat, d: nibble, ps: nat, n: nat, diff: nibble,
                                     w2: seq<u32>, h2: Heap, N: nat, L: nat, s: nat)
    requires ValidWith(w, h) && Locate(w, x, 0, 0, 16) == Split(cs, d, ps, n, diff)
    requires Room(w, 2) && cs + 16 <= |w| && n + 16 <= |w|
    requires w2 == HangInner(w, cs + d, n, diff, x)
    requires h2 == Grow(w, h, 2) && N == w[MARK] / 4 && L == N + 16 && s == L + x % 16
    ensures ValidWith(w2, h2)
    ensures forall z: u64 :: Get(w2, z) == Get(w, z)
    ensures Slot(w2, x) == Some(s) && Vacant(w2, s) && Slot(w, x) == None
    ensures w2[MARK] == w[MARK] + 128
  {
    SplitLanded(w, h, x, cs, d, ps, n, diff);
    SplitReached(w, h, x, cs, d, ps, n, diff);
    SplitBuilt(w, h, w2, x, cs, d, ps, n, diff, h2, N, L);
    SplitValid(w, h, w2, x, cs, d, ps, n, diff, h2, N, L);
  }

  /** What imap_assign promises, for a new buffer `w2`, slot `s` and heap `h2` that are its result. */
  lemma {:induction false} AssignFrom(w: seq<u32>, h: Heap, x: u64, w2: seq<u32>, s: nat, h2: Heap)
    requires ValidWith(w, h) && Fits(w, x) && Need(Locate(w, x, 0, 0, 16)) != 0
    requires Assign(w, x).0 == w2 && Assign(w, x).1 == s && AssignHeap(w, h, x) == h2
    requires ValidWith(w2, h2) && (forall z: u64 :: Get(w2, z) == Get(w, z))
    requires Slot(w2, x) == Some(s) && Vacant(w2, s) && Slot(w, x) == None
    requires w2[MARK] == w[MARK] + 64 * Need(Locate(w, x, 0, 0, 16))
    ensures ValidWith(Assign(w, x).0, AssignHeap(w, h, x))
    ensures Slot(Assign(w, x).0, x) == Some(Assign(w, x).1)
    ensures forall z: u64 :: Get(Assign(w, x).0, z) == Get(w, z)
    ensures Slot(w, x).Some? ==> Assign(w, x).0 == w && AssignHeap(w, h, x) == h
    ensures Slot(w, x).None? ==> Vacant(Assign(w, x).0, Assign(w, x).1)
    ensures Assign(w, x).0[MARK] == w[MARK] + 64 * Need(Locate(w, x, 0, 0, 16))
    ensures Need(Locate(w, x, 0, 0, 16)) == 0 <==> Slot(w, x).Some?
  {
  }

  /** The nodes a split names lie inside the buffer. */
  lemma {:induction false} SplitInside(w: seq<u32>, h: Heap, x: u64, cs: nat, d: nibble, ps: nat, n: nat, diff: nibble)
    requires |w| >= 16 && PathOK(w, h, x, 0, 0, 16) && Locate(w, x, 0, 0, 16) == Split(cs, d, ps, n, diff)
    ensures cs + 16 <= |w| && n + 16 <= |w|
  {
    SplitLanded(w, h, x, cs, d, ps, n, diff);
  }

  lemma {:induction false} HeapIsGrown(w: seq<u32>, h: Heap, x: u64)
    requires HeaderOK(w) && KindsOK(w, h) && Fits(w, x) && Need(Locate(w, x, 0, 0, 16)) != 0
    ensures Room(w, Need(Locate(w, x, 0, 0, 16))) && AssignHeap(w, h, x) == Grow(w, h, Need(Locate(w, x, 0, 0, 16)))
  {
  }

  lemma {:induction false} AssignIsSplit(w: seq<u32>, x: u64, cs: nat, d: nibble, ps: nat, n: nat, diff: nibble)
    requires HeaderOK(w) && Fits(w, x) && Locate(w, x, 0, 0, 16) == Split(cs, d, ps, n, diff)
    ensures Assign(w, x).0 == HangInner(w, cs + d, n, diff, x) && Assign(w, x).1 == w[MARK] / 4 + 16 + x % 16
  {
  }

  /** What the walk of `x` from the root finds where it stops. */
  lemma {:induction false} RootLanded(w: seq<u32>, h: Heap, x: u64)
    requires |w| >= 16 && PathOK(w, h, x, 0, 0, 16)
    ensures Landed(w, h, x, 0, 0, 16, Locate(w, x, 0, 0, 16))
  {
    LocateFacts(w, h, x, 0, 0, 16);
  }

  /** Where the walk of a new key stops, read off RootLanded one case at a time. */
  lemma {:induction false} AttachFound(w: seq<u32>, h: Heap, x: u64, cs: nat, d: nibble, ps: nat)
    requires |w| >= 16 && PathOK(w, h, x, 0, 0, 16) && Locate(w, x, 0, 0, 16) == Attach(cs, d, ps)
    ensures AttachSpot(w, h, x, cs, d, ps) && OnWalk(w, x, cs + d) && Slot(w, x) == None
  {
    RootLanded(w, h, x);
    var p := Locate(w, x, 0, 0, 16);
    assert p.node + p.dir == cs + d;
  }

  lemma {:induction false} SplitLanded(w: seq<u32>, h: Heap, x: u64, cs: nat, d: nibble, ps: nat, n: nat, diff: nibble)
    requires |w| >= 16 && PathOK(w, h, x, 0, 0, 16) && Locate(w, x, 0, 0, 16) == Split(cs, d, ps, n, diff)
    ensures SplitSpot(w, h, x, cs, d, ps, n, diff)
  {
    RootLanded(w, h, x);
  }

  lemma {:induction false} SplitReached(w: seq<u32>, h: Heap, x: u64, cs: nat, d: nibble, ps: nat, n: nat, diff: nibble)
    requires |w| >= 16 && PathOK(w, h, x, 0, 0, 16) && Locate(w, x, 0, 0, 16) == Split(cs, d, ps, n, diff)
    ensures OnWalk(w, x, cs + d) && Slot(w, x) == None
  {
    RootLanded(w, h, x);
    LandedReaches(w, h, x, Locate(w, x, 0, 0, 16), cs + d);
  }

  lemma {:induction false} LandedReaches(w: seq<u32>, h: Heap, x: u64, p: Place, s: nat)
    requires |w| >= 16 && Landed(w, h, x, 0, 0, 16, p) && p.Split? && s == p.node + p.dir
    ensures OnWalk(w, x, s) && Slot(w, x) == None
  {
  }

  lemma {:induction false} ExistingFound(w: seq<u32>, h: Heap, x: u64, t: nat)
    requires |w| >= 16 && PathOK(w, h, x, 0, 0, 16) && Locate(w, x, 0, 0, 16) == Existing(t)
    ensures Slot(w, x) == Some(t)
  {
    RootLanded(w, h, x);
  }

  /** imap_assign on a key that already has a slot: nothing changes. */
  lemma {:induction false} AssignExisting(w: seq<u32>, h: Heap, x: u64, t: nat)
    requires ValidWith(w, h) && Fits(w, x) && Locate(w, x, 0, 0, 16) == Existing(t)
    ensures Slot(w, x) == Some(t) && Assign(w, x) == (w, t) && AssignHeap(w, h, x) == h
  {
    ExistingFound(w, h, x, t);
    AssignIsExisting(w, h, x, t);
  }

  /** imap_assign on a new key whose walk stops on an empty slot above the leaves: it hangs a leaf there. */
  lemma {:induction false} AssignAttach(w: seq<u32>, h: Heap, x: u64, cs: nat, d: nibble, ps: nat)
    requires ValidWith(w, h) && Fits(w, x) && Locate(w, x, 0, 0, 16) == Attach(cs, d, ps)
    ensures ValidWith(Assign(w, x).0, AssignHeap(w, h, x))
    ensures Slot(Assign(w, x).0, x) == Some(Assign(w, x).1)
    ensures forall z: u64 :: Get(Assign(w, x).0, z) == Get(w, z)
    ensures Slot(w, x).Some? ==> Assign(w, x).0 == w && AssignHeap(w, h, x) == h
    ensures Slot(w, x).None? ==> Vacant(Assign(w, x).0, Assign(w, x).1)
    ensures Assign(w, x).0[MARK] == w[MARK] + 64 * Need(Locate(w, x, 0, 0, 16))
    ensures Need(Locate(w, x, 0, 0, 16)) == 0 <==> Slot(w, x).Some?
  {
    var w2, s, h2 := AttachOutcome(w, h, x, cs, d, ps);
    AssignFrom(w, h, x, w2, s, h2);
  }

  /** The buffer, slot and heap imap_assign gives when it hangs a leaf, with what AssignFrom needs of them. */
  lemma {:induction false} AttachOutcome(w: seq<u32>, h: Heap, x: u64, cs: nat, d: nibble, ps: nat)
      returns (w2: seq<u32>, s: nat, h2: Heap)
    requires ValidWith(w, h) && Fits(w, x) && Locate(w, x, 0, 0, 16) == Attach(cs, d, ps)
    ensures Assign(w, x).0 == w2 && Assign(w, x).1 == s && AssignHeap(w, h, x) == h2
    ensures ValidWith(w2, h2) && (forall z: u64 :: Get(w2, z) == Get(w, z))
    ensures Slot(w2, x) == Some(s) && Vacant(w2, s) && Slot(w, x) == None
    ensures w2[MARK] == w[MARK] + 64 && Need(Locate(w, x, 0, 0, 16)) == 1
  {
    AttachInside(w, h, x, cs, d, ps);
    AssignIsAttach(w, x, cs, d, ps);
    HeapIsGrown(w, h, x);
    w2, s, h2 := HangLeaf(w, cs + d, x), w[MARK] / 4 + x % 16, Grow(w, h, 1);
    AttachKept(w, h, x, cs, d, ps, w2, h2);
  }

  /** imap_assign on a new key whose walk stops above a child whose prefix differs from it: it splits there. */
  lemma {:induction false} AssignSplit(w: seq<u32>, h: Heap, x: u64, cs: nat, d: nibble, ps: nat, n: nat, diff: nibble)
    requires ValidWith(w, h) && Fits(w, x) && Locate(w, x, 0, 0, 16) == Split(cs, d, ps, n, diff)
    ensures ValidWith(Assign(w, x).0, AssignHeap(w, h, x))
    ensures Slot(Assign(w, x).0, x) == Some(Assign(w, x).1)
    ensures forall z: u64 :: Get(Assign(w, x).0, z) == Get(w, z)
    ensures Slot(w, x).Some? ==> Assign(w, x).0 == w && AssignHeap(w, h, x) == h
    ensures Slot(w, x).None? ==> Vacant(Assign(w, x).0, Assign(w, x).1)
    ensures Assign(w, x).0[MARK] == w[MARK] + 64 * Need(Locate(w, x, 0, 0, 16))
    ensures Need(Locate(w, x, 0, 0, 16)) == 0 <==> Slot(w, x).Some?
  {
    var w2, s, h2 := SplitOutcome(w, h, x, cs, d, ps, n, diff);
    AssignFrom(w, h, x, w2, s, h2);
  }

  /** The buffer, slot and heap imap_assign gives when it splits, with what AssignFrom needs of them. */
  lemma {:induction false} SplitOutcome(w: seq<u32>, h: Heap, x: u64, cs: nat, d: nibble, ps: nat, n: nat, diff: nibble)
      returns (w2: seq<u32>, s: nat, h2: Heap)
    requires ValidWith(w, h) && Fits(w, x) && Locate(w, x, 0, 0, 16) == Split(cs, d, ps, n, diff)
    ensures Assign(w, x).0 == w2 && Assign(w, x).1 == s && AssignHeap(w, h, x) == h2
    ensures ValidWith(w2, h2) && (forall z: u64 :: Get(w2, z) == Get(w, z))
    ensures Slot(w2, x) == Some(s) && Vacant(w2, s) && Slot(w, x) == None
    ensures w2[MARK] == w[MARK] + 128 && Need(Locate(w, x, 0, 0, 16)) == 2
  {
    SplitInside(w, h, x, cs, d, ps, n, diff);
    AssignIsSplit(w, x, cs, d, ps, n, diff);
    HeapIsGrown(w, h, x);
    var N := w[MARK] / 4;
    w2, s, h2 := HangInner(w, cs + d, n, diff, x), N + 16 + x % 16, Grow(w, h, 2);
    SplitKept(w, h, x, cs, d, ps, n, diff, w2, h2, N, N + 16, s);
  }

  /**
   * imap_assign keeps the invariant and the map, and returns x's slot: the
   * slot x already had, left as it was, or a new empty slot, for which one
   * or two nodes are taken at the mark.
   */
  lemma {:induction false} AssignCorrect(w: seq<u32>, h: Heap, x: u64)
    requires ValidWith(w, h) && NodeRoom(w, x)
    ensures Fits(w, x)
    ensures ValidWith(Assign(w, x).0, AssignHeap(w, h, x))
    ensures Slot(Assign(w, x).0, x) == Some(Assign(w, x).1)
    ensures forall z: u64 :: Get(Assign(w, x).0, z) == Get(w, z)
    ensures Slot(w, x).Some? ==> Assign(w, x).0 == w && AssignHeap(w, h, x) == h
    ensures Slot(w, x).None? ==> Vacant(Assign(w, x).0, Assign(w, x).1)
    ensures Assign(w, x).0[MARK] == w[MARK] + 64 * Need(Locate(w, x, 0, 0, 16))
    ensures Need(Locate(w, x, 0, 0, 16)) == 0 <==> Slot(w, x).Some?
  {
    ValidNotStuck(w, h, x);
    match Locate(w, x, 0, 0, 16)
    case Existing(t) => AssignExisting(w, h, x, t);
    case Attach(cs, d, ps) => AssignAttach(w, h, x, cs, d, ps);
    case Split(cs, d, ps, n, diff) => AssignSplit(w, h, x, cs, d, ps, n, diff);
  }
}
