// The radix tree read off an imap buffer: the walk of imap_lookup, the map
// it denotes, and the invariant every operation keeps.

module Tree {
  import opened Bits
  import opened Layout

  datatype Option<T> = None | Some(value: T)

  /** `imap__node_prefix__` of the node at word `c`. */
  function Prefix(w: seq<u32>, c: nat): u64
    requires c + 16 <= |w|
  {
    Packlo4(w[c..c + 16])
  }

  /** `imap__node_pos__`: the nibble position the node at word `c` branches on. */
  function Pos(w: seq<u32>, c: nat): nibble
    requires c + 16 <= |w|
  {
    w[c] % 16
  }

  /** The position is nibble 0 of the node's prefix. */
  lemma {:induction false} PosNibble(w: seq<u32>, c: nat)
    requires c + 16 <= |w|
    ensures Pos(w, c) == Xdir(Prefix(w, c), 0)
  {
    PackNibbles(w[c..c + 16]);
  }

  /**
   * The walk of imap_lookup for key `x`, standing on slot `dir` of the node
   * at word `c`, whose position is `pos` (16 for the root slot in the
   * header). It ends on the first slot that is not a node pointer, which is
   * x's slot when it lies in a leaf (position 0) whose prefix is `x & ~0xf`.
   */
  function SlotFrom(w: seq<u32>, x: u64, c: nat, dir: nibble, pos: nat): Option<nat>
    requires c + 16 <= |w|
    decreases pos
  {
    var v := w[c + dir];
    if !IsNode(v) then
      if pos == 0 && Prefix(w, c) == LeafPrefix(x) then Some(c + dir) else None
    else
      var n := Child(v);
      if n + 16 <= |w| && Pos(w, n) < pos then SlotFrom(w, x, n, Xdir(x, Pos(w, n)), Pos(w, n))
      else None
  }

  /** The slot of key `x`, whether or not it holds a value. */
  function Slot(w: seq<u32>, x: u64): Option<nat>
    requires |w| >= 16
  {
    SlotFrom(w, x, 0, 0, 16)
  }

  /** imap_lookup: x's slot when it holds a value. */
  function Lookup(w: seq<u32>, x: u64): Option<nat>
    requires |w| >= 16
  {
    match Slot(w, x)
    case Some(s) => if s < |w| && !IsNode(w[s]) && Hasval(w, s) then Some(s) else None
    case None => None
  }

  /** The map the buffer denotes: the value of key `x`, if any. */
  function Get(w: seq<u32>, x: u64): Option<u64>
    requires |w| >= 16
  {
    match Lookup(w, x)
    case Some(s) => if CellInRange(w, s) then Some(Getval(w, s)) else None
    case None => None
  }

  // ----- the invariant

  /** What each 16-word block of the buffer is used for. */
  datatype Kind = Unused | Header | Node | Values

  /**
   * Ghost bookkeeping: the use of every block, the key owning each value
   * cell that some slot points to, and the free cells in list order.
   */
  datatype Heap = Heap(kinds: seq<Kind>, owner: map<nat, u64>, free: seq<nat>)

  /** The header words: a size matching the buffer, at most 0x80000000, and a node-aligned mark between 64 and the size. */
  predicate HeaderOK(w: seq<u32>)
  {
    |w| >= 16 && |w| % 16 == 0 && w[SIZE] == 4 * |w| && w[SIZE] <= 0x8000_0000 &&
    w[MARK] % 64 == 0 && 64 <= w[MARK] <= w[SIZE]
  }

  /** Block 0 is the header; blocks at or above the mark are unused. */
  predicate KindsOK(w: seq<u32>, h: Heap)
    requires HeaderOK(w)
  {
    |h.kinds| == |w| / 16 && h.kinds[0] == Header &&
    (forall b :: 0 < b < |h.kinds| ==> h.kinds[b] != Header) &&
    (forall b :: 0 <= b < |h.kinds| && 64 * b >= w[MARK] ==> h.kinds[b] == Unused)
  }

  /** The word `c` starts a tree node. */
  predicate InNode(h: Heap, c: nat)
  {
    c % 16 == 0 && 1 <= c / 16 < |h.kinds| && h.kinds[c / 16] == Node
  }

  /** Cell `k` lies in the header's spare cells (2..7) or in a block of value cells. */
  predicate CellSpot(h: Heap, k: nat)
  {
    2 <= k && k / 8 < |h.kinds| && (h.kinds[k / 8] == Header || h.kinds[k / 8] == Values)
  }

  /** `a` and `b` have the same nibbles above position `p`. */
  predicate AgreeAbove(a: u64, b: u64, p: nat)
  {
    forall r :: p < r < 16 ==> Xdir(a, r) == Xdir(b, r)
  }

  /**
   * Along the walk of `x`, every node pointer leads to a tree node whose
   * position is below the current one, whose prefix agrees with the
   * current node's above the current position, and whose prefix nibble at
   * the current position is the direction taken.
   */
  predicate PathOK(w: seq<u32>, h: Heap, x: u64, c: nat, dir: nibble, pos: nat)
    requires c + 16 <= |w|
    decreases pos
  {
    var v := w[c + dir];
    IsNode(v) ==>
      var n := Child(v);
      InNode(h, n) && n + 16 <= |w| && Pos(w, n) < pos &&
      (pos < 16 ==> AgreeAbove(Prefix(w, n), Prefix(w, c), pos) && Xdir(Prefix(w, n), pos) == dir) &&
      PathOK(w, h, x, n, Xdir(x, Pos(w, n)), Pos(w, n))
  }

  /** Every walk keeps the path invariant. */
  predicate WalksOK(w: seq<u32>, h: Heap)
    requires |w| >= 16
  {
    forall x: u64 :: PathOK(w, h, x, 0, 0, 16)
  }

  /** Every slot that owns a cell owns it alone, and the cell is a real one. */
  predicate CellsOK(w: seq<u32>, h: Heap)
    requires |w| >= 16
  {
    (forall k :: k in h.owner ==> CellSpot(h, k)) && SlotsOwned(w, h)
  }

  /** The cell a key's slot owns is recorded as that key's. */
  predicate SlotsOwned(w: seq<u32>, h: Heap)
    requires |w| >= 16
  {
    forall x: u64 :: Slot(w, x).Some? ==> SlotCellOK(w, h, x, Slot(w, x).value)
  }

  /** Slot `s` of key `x` lies in the buffer, and a cell it owns is recorded as x's. */
  predicate SlotCellOK(w: seq<u32>, h: Heap, x: u64, s: nat)
  {
    s < |w| && (OwnsCell(w[s]) ==> Payload(w[s]) in h.owner && h.owner[Payload(w[s])] == x)
  }

  /** The encoded link to the i-th free cell: its index shifted left by 6, or 0 at the end. */
  function FreeLink(free: seq<nat>, i: nat): nat
  {
    if i < |free| then 64 * free[i] else 0
  }

  /**
   * The free list starts at the header's free word and is threaded through
   * the low words of its cells; its cells are distinct and owned by nobody.
   */
  predicate FreeOK(w: seq<u32>, h: Heap)
    requires HeaderOK(w)
  {
    w[FREE] == FreeLink(h.free, 0) &&
    (forall i {:trigger FreeCell(w, h, i)} :: 0 <= i < |h.free| ==> FreeCell(w, h, i)) &&
    (forall i, j :: 0 <= i < j < |h.free| ==> h.free[i] != h.free[j])
  }

  /** The i-th free cell is a real cell owned by nobody, and its low word links to the next. */
  predicate FreeCell(w: seq<u32>, h: Heap, i: nat)
    requires i < |h.free|
  {
    CellSpot(h, h.free[i]) && h.free[i] < SCALAR_LIMIT && h.free[i] !in h.owner &&
    2 * h.free[i] + 1 < |w| && w[2 * h.free[i]] == FreeLink(h.free, i + 1)
  }

  /** The tree invariant, with `h` as the ghost bookkeeping. */
  predicate ValidWith(w: seq<u32>, h: Heap)
  {
    HeaderOK(w) && KindsOK(w, h) &&
    WalksOK(w, h) && CellsOK(w, h) && FreeOK(w, h)
  }

  /**
   * The walk of `x` stands on slot `dir` of node `c`: the root slot, or a
   * slot of a tree node chosen by x's nibble at the node's position.
   */
  predicate At(w: seq<u32>, h: Heap, x: u64, c: nat, dir: nibble, pos: nat)
  {
    c + 16 <= |w| &&
    ((c == 0 && dir == 0 && pos == 16) || (InNode(h, c) && pos == Pos(w, c) && dir == Xdir(x, pos)))
  }

  // ----- facts about the walk

  /** The facts SlotFromLeaf states about the leaf `leaf` holding x's slot `t`. */
  predicate LeafOf(w: seq<u32>, h: Heap, x: u64, leaf: nat, t: nat)
  {
    InNode(h, leaf) && leaf + 16 <= |w| && t == leaf + x % 16 &&
    Pos(w, leaf) == 0 && Prefix(w, leaf) == LeafPrefix(x) && !IsNode(w[t])
  }

  /**
   * A slot found by the walk lies in a leaf (a tree node at position 0)
   * whose prefix is the key's leaf prefix, at the key's low nibble.
   */
  lemma {:induction false} SlotFromLeaf(w: seq<u32>, h: Heap, x: u64, c: nat, dir: nibble, pos: nat)
      returns (leaf: nat)
    requires At(w, h, x, c, dir, pos) && PathOK(w, h, x, c, dir, pos)
    requires SlotFrom(w, x, c, dir, pos).Some?
    ensures LeafOf(w, h, x, leaf, SlotFrom(w, x, c, dir, pos).value)
    decreases pos
  {
    var v := w[c + dir];
    if IsNode(v) {
      var n := Child(v);
      assert SlotFrom(w, x, c, dir, pos) == SlotFrom(w, x, n, Xdir(x, Pos(w, n)), Pos(w, n));
      leaf := SlotFromLeaf(w, h, x, n, Xdir(x, Pos(w, n)), Pos(w, n));
    } else {
      leaf := c;
      assert pos == 0 && c != 0 && dir == x % 16;
    }
  }

  /** The slot a walk finds is word `x % 16` of a leaf, and not a pointer. */
  lemma {:induction false} SlotInLeaf(w: seq<u32>, h: Heap, x: u64, t: nat) returns (leaf: nat)
    requires |w| >= 16 && PathOK(w, h, x, 0, 0, 16) && Slot(w, x) == Some(t)
    ensures InNode(h, leaf) && leaf + 16 <= |w| && t == leaf + x % 16 && !IsNode(w[t]) && Pos(w, leaf) == 0
    ensures t / 16 == leaf / 16 && t % 16 == x % 16
  {
    leaf := SlotFromLeaf(w, h, x, 0, 0, 16);
    NodeWord(leaf, x % 16);
  }

  /** A word index determines its node and its place in the node. */
  lemma {:induction false} SameNode(c1: nat, d1: nibble, c2: nat, d2: nibble)
    requires c1 % 16 == 0 && c2 % 16 == 0 && c1 + d1 == c2 + d2
    ensures c1 == c2 && d1 == d2
  {
    NodeWord(c1, d1);
    NodeWord(c2, d2);
  }

  /** Distinct keys have distinct slots. */
  lemma {:induction false} SlotInjective(w: seq<u32>, h: Heap, x: u64, z: u64)
    requires |w| >= 16 && PathOK(w, h, x, 0, 0, 16) && PathOK(w, h, z, 0, 0, 16)
    requires Slot(w, x).Some? && Slot(w, x) == Slot(w, z)
    ensures x == z
  {
    var lx := SlotFromLeaf(w, h, x, 0, 0, 16);
    var lz := SlotFromLeaf(w, h, z, 0, 0, 16);
    var t := Slot(w, x).value;
    SameNode(lx, x % 16, lz, z % 16);
    LeafPrefixInjective(x, z);
  }

  /**
   * A key whose walk below node `c` finds a slot agrees with c's prefix on
   * every nibble above c's position.
   */
  lemma {:induction false} WalkAgrees(w: seq<u32>, h: Heap, x: u64, c: nat, dir: nibble, pos: nat)
    requires At(w, h, x, c, dir, pos) && c != 0 && PathOK(w, h, x, c, dir, pos)
    requires SlotFrom(w, x, c, dir, pos).Some?
    ensures AgreeAbove(x, Prefix(w, c), pos)
    decreases pos
  {
    var v := w[c + dir];
    if IsNode(v) {
      var n := Child(v);
      WalkAgrees(w, h, x, n, Xdir(x, Pos(w, n)), Pos(w, n));
    } else {
      LeafPrefixMatch(Prefix(w, c), x);
    }
  }

  /** Two slot words agree in everything a walk reads from them. */
  predicate ShapeEq(a: u32, b: u32)
  {
    a % 16 == b % 16 && IsNode(a) == IsNode(b) && (IsNode(a) ==> a == b)
  }

  /**
   * `w2` keeps the root slot and, in every tree node of `h`, the prefix
   * nibbles and node pointers of `w`; `h2` keeps every tree node of `h`.
   */
  predicate SameShape(w: seq<u32>, h: Heap, w2: seq<u32>, h2: Heap)
  {
    16 <= |w| <= |w2| && w2[ROOT] == w[ROOT] &&
    |h.kinds| <= |h2.kinds| &&
    (forall b :: 0 <= b < |h.kinds| && h.kinds[b] == Node ==> h2.kinds[b] == Node) &&
    (forall i :: 16 <= i < |w| && i / 16 < |h.kinds| && h.kinds[i / 16] == Node ==> ShapeEq(w[i], w2[i]))
  }

  lemma {:induction false} PrefixSame(w: seq<u32>, h: Heap, w2: seq<u32>, h2: Heap, c: nat)
    requires SameShape(w, h, w2, h2) && InNode(h, c) && c + 16 <= |w|
    ensures Prefix(w2, c) == Prefix(w, c) && Pos(w2, c) == Pos(w, c)
  {
    var u, u2 := w[c..c + 16], w2[c..c + 16];
    forall j | 0 <= j < 16
      ensures u[j] % 16 == u2[j] % 16
    {
      NodeWord(c, j);
      assert u[j] == w[c + j] && u2[j] == w2[c + j];
    }
    PackLow(u, u2);
  }

  /** A walk reads only the root slot and tree nodes, so it is the same in a buffer of the same shape. */
  lemma {:induction false} WalkSameShape(w: seq<u32>, h: Heap, w2: seq<u32>, h2: Heap, x: u64, c: nat, dir: nibble, pos: nat)
    requires SameShape(w, h, w2, h2)
    requires At(w, h, x, c, dir, pos) && PathOK(w, h, x, c, dir, pos)
    ensures At(w2, h2, x, c, dir, pos)
    ensures SlotFrom(w2, x, c, dir, pos) == SlotFrom(w, x, c, dir, pos)
    ensures PathOK(w2, h2, x, c, dir, pos)
    decreases pos
  {
    var v := w[c + dir];
    if c != 0 {
      PrefixSame(w, h, w2, h2, c);
      NodeWord(c, dir);
      assert ShapeEq(v, w2[c + dir]);
    }
    if IsNode(v) {
      var n := Child(v);
      assert w2[c + dir] == v;
      PrefixSame(w, h, w2, h2, n);
      WalkSameShape(w, h, w2, h2, x, n, Xdir(x, Pos(w, n)), Pos(w, n));
    }
  }
}
