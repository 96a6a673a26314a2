// imap_ensure: making room for `n` more items, by creating the tree or by
// moving it to a larger buffer, and what that leaves of the map.

module TreeEnsure {
  import opened Bits
  import opened Layout
  import opened Tree
  import opened TreeAssign
  import opened AssignValid
  import opened TreeValues

  /** The range of a C `int` whose negation is still an `int`. */
  predicate IntArg(n: int)
  {
    -0x7fff_ffff <= n <= 0x7fff_ffff
  }

  /** `hasfree`, the old mark and the old size; a null tree counts as one with a free cell, mark 64 and size 0. */
  function HasFree(tree: Option<seq<u32>>): nat
    requires tree.Some? ==> |tree.value| >= 16
  {
    if tree.None? || tree.value[FREE] != 0 then 1 else 0
  }

  /** The mark the growth starts from: 64 for a new tree. */
  function OldMark(tree: Option<seq<u32>>): nat
    requires tree.Some? ==> |tree.value| >= 16
  {
    if tree.None? then 64 else tree.value[MARK]
  }

  /** The size the growth compares against: 0 for a new tree. */
  function OldSize(tree: Option<seq<u32>>): nat
    requires tree.Some? ==> |tree.value| >= 16
  {
    if tree.None? then 0 else tree.value[SIZE]
  }

  /**
   * The mark imap_ensure asks for: `-n` nodes for a negative `n`, else `n`
   * items of two nodes and one value cell each, less the free cell.
   */
  function Needed(tree: Option<seq<u32>>, n: int): (r: nat)
    requires tree.Some? ==> |tree.value| >= 16
    requires n != 0 && IntArg(n)
    ensures r < 0x1_0000_0000_0000
  {
    var m := OldMark(tree);
    if n < 0 then m + 128 * -n else m + 128 * n + 8 * (n - HasFree(tree))
  }

  /** A new tree: empty root, mark 64, and header cells 2..7 chained on the free list. */
  function NewTree(size: nat): (r: seq<u32>)
    requires 64 <= size <= 0x8000_0000 && size % 64 == 0
    ensures |r| == size / 4
  {
    seq(size / 4, i =>
      if i == FREE then 128 else if i == MARK then 64 else if i == SIZE then size
      else if 4 <= i < 14 && i % 2 == 0 then 64 * (i / 2 + 1) else 0)
  }

  /** The larger buffer: the words below the mark copied, the size word updated, the rest zero. */
  function Regrow(w: seq<u32>, size: nat): (r: seq<u32>)
    requires HeaderOK(w) && w[SIZE] < size <= 0x8000_0000 && size % 64 == 0
    ensures |r| == size / 4
  {
    MarkWords(w);
    var copied := w[..w[MARK] / 4];
    seq(size / 4, i => if i == SIZE then size else if 0 <= i < |copied| then copied[i] else 0)
  }

  lemma {:induction false} MarkWords(w: seq<u32>)
    requires HeaderOK(w)
    ensures 16 <= w[MARK] / 4 <= |w| && w[MARK] / 4 % 16 == 0
  {
  }

  /**
   * The growing half of imap_ensure, for the needed mark `need`: the same
   * tree if it fits, else a buffer of the next power of two, or null above
   * 0x80000000 bytes or when the allocation fails.
   */
  function GrowTo(tree: Option<seq<u32>>, need: nat, allocOK: bool): (r: Option<seq<u32>>)
    requires tree.Some? ==> HeaderOK(tree.value)
    requires need < 0x1_0000_0000_0000 && (tree.None? ==> need == 0 || 32 < need)
  {
    if need <= OldSize(tree) then tree
    else
      var size := Ceilpow2(need);
      if 0x8000_0000 < size || !allocOK then None
      else
        CeilpowFacts(need);
        Some(Grown(tree, size))
  }

  /** The buffer imap_ensure allocates: a new tree, or the old one moved. */
  function Grown(tree: Option<seq<u32>>, size: nat): (r: seq<u32>)
    requires tree.Some? ==> HeaderOK(tree.value) && tree.value[SIZE] < size
    requires 64 <= size <= 0x8000_0000 && size % 64 == 0
  {
    if tree.None? then NewTree(size) else Regrow(tree.value, size)
  }

  /**
   * `imap_ensure` with the needed mark added up without overflow: the
   * corrected form of imap.h, whose 32-bit `newmark` wraps (EnsureAsWritten).
   */
  function Ensure(tree: Option<seq<u32>>, n: int, allocOK: bool): (r: Option<seq<u32>>)
    requires tree.Some? ==> HeaderOK(tree.value)
    requires IntArg(n)
  {
    if n == 0 then tree else GrowTo(tree, Needed(tree, n), allocOK)
  }

  /**
   * `imap_ensure` as written: the needed mark is accumulated in the 32-bit
   * `newmark`. For a null tree whose wrapped mark falls between 1 and 32 the
   * source writes a 64-byte header into a smaller buffer, which the model
   * excludes; between 33 and 63 it rounds up to a 64-byte tree.
   */
  function EnsureAsWritten(tree: Option<seq<u32>>, n: int, allocOK: bool): (r: Option<seq<u32>>)
    requires tree.Some? ==> HeaderOK(tree.value)
    requires IntArg(n)
    requires tree.None? && n != 0 ==> Needed(tree, n) % U32_LIMIT == 0 || 32 < Needed(tree, n) % U32_LIMIT
  {
    if n == 0 then tree else GrowTo(tree, Needed(tree, n) % U32_LIMIT, allocOK)
  }

  // ----- sizes

  /** Below 2^6 a power of two is at most 32. */
  lemma {:induction false} Pow2Small(k: nat)
    requires k < 6
    ensures Pow2(k) <= 32
  {
    Pow2Mono(k, 5);
    assert Pow2(5) == 32;
  }

  /** From 2^6 on, a power of two is a multiple of 64. */
  lemma {:induction false} Pow2Split(k: nat)
    requires k >= 6
    ensures Pow2(k) == 64 * Pow2(k - 6)
    decreases k
  {
    if k > 6 {
      Pow2Split(k - 1);
    }
  }

  /** The new size is the least power of two that holds the needed mark. */
  lemma {:induction false} CeilpowFacts(need: nat)
    requires 2 <= need < 0x1_0000_0000_0000
    ensures need <= Ceilpow2(need) < 2 * need
    ensures 32 < need ==> 64 <= Ceilpow2(need) && Ceilpow2(need) % 64 == 0
  {
    Ceilpow2Least(need);
    var k :| Ceilpow2(need) == Pow2(k) && Pow2(k) / 2 < need <= Pow2(k);
    CeilpowBelow(need, k);
    if 32 < need {
      CeilpowAligned(need, k);
    }
  }

  /** A power of two whose half is below `need` is below twice `need`. */
  lemma {:induction false} CeilpowBelow(need: nat, k: nat)
    requires 2 <= need && Pow2(k) / 2 < need
    ensures Pow2(k) < 2 * need
  {
    if k > 0 {
      assert Pow2(k) == 2 * Pow2(k - 1);
    }
  }

  /** A power of two above 32 is a multiple of 64, and at least 64. */
  lemma {:induction false} CeilpowAligned(need: nat, k: nat)
    requires 32 < need <= Pow2(k)
    ensures 64 <= Pow2(k) && Pow2(k) % 64 == 0
  {
    if k < 6 {
      Pow2Small(k);
    } else {
      Pow2Split(k);
      var q := Pow2(k - 6);
      assert Pow2(k) == 64 * q;
    }
  }

  // ----- the new tree

  /** The blocks and cells of a new tree: the header, whose cells 2..7 are free, then unused blocks. */
  function EmptyHeap(size: nat): Heap
  {
    Heap(seq(size / 64, b => if b == 0 then Header else Unused), map[], [2, 3, 4, 5, 6, 7])
  }

  /** A new tree keeps the invariant and maps no key. */
  lemma {:induction false} NewTreeValid(size: nat)
    requires 64 <= size <= 0x8000_0000 && size % 64 == 0
    ensures ValidWith(NewTree(size), EmptyHeap(size))
    ensures forall x: u64 :: Slot(NewTree(size), x) == None && Get(NewTree(size), x) == None
  {
    var w, h := NewTree(size), EmptyHeap(size);
    assert w[ROOT] == 0 && w[FREE] == 128 && w[MARK] == 64 && w[SIZE] == size;
    forall x: u64
      ensures PathOK(w, h, x, 0, 0, 16) && Slot(w, x) == None && Get(w, x) == None
    {
    }
    forall i | 0 <= i < |h.free|
      ensures FreeCell(w, h, i)
    {
      assert h.free[i] == i + 2;
      assert w[2 * i + 4] == if i == 5 then 0 else 64 * (i + 3);
    }
  }

  // ----- the larger buffer

  /** The blocks of the larger buffer: the old ones, then unused blocks. */
  function GrowHeap(h: Heap, size: nat): Heap
  {
    Heap(seq(size / 64, b => if 0 <= b < |h.kinds| then h.kinds[b] else Unused), h.owner, h.free)
  }

  /** Regrow copies every word below the mark except the size word. */
  lemma {:induction false} RegrowWords(w: seq<u32>, size: nat)
    requires HeaderOK(w) && w[SIZE] < size <= 0x8000_0000 && size % 64 == 0
    ensures |w| < |Regrow(w, size)| && Regrow(w, size)[SIZE] == size
    ensures forall i :: 0 <= i < w[MARK] / 4 && i != SIZE ==> Kept(w, Regrow(w, size), i)
  {
    MarkWords(w);
  }

  /** A block in use lies below the mark. */
  lemma {:induction false} UsedBelowMark(w: seq<u32>, h: Heap, b: nat)
    requires HeaderOK(w) && KindsOK(w, h) && b < |h.kinds| && h.kinds[b] != Unused
    ensures 16 * b + 16 <= w[MARK] / 4
  {
  }

  /** A word of a used block lies below the mark. */
  lemma {:induction false} WordBelowMark(w: seq<u32>, h: Heap, i: nat)
    requires HeaderOK(w) && KindsOK(w, h) && i / 16 < |h.kinds| && h.kinds[i / 16] != Unused
    ensures i < w[MARK] / 4
  {
    UsedBelowMark(w, h, i / 16);
  }

  /** Regrow keeps the old walk: the root slot and every tree-node word lie below the mark. */
  lemma {:induction false} RegrowShape(w: seq<u32>, h: Heap, size: nat)
    requires HeaderOK(w) && KindsOK(w, h) && w[SIZE] < size <= 0x8000_0000 && size % 64 == 0
    ensures SameShape(w, h, Regrow(w, size), GrowHeap(h, size))
  {
    var w2, h2 := Regrow(w, size), GrowHeap(h, size);
    RegrowWords(w, size);
    MarkWords(w);
    assert Kept(w, w2, ROOT);
    forall i | 16 <= i < |w| && i / 16 < |h.kinds| && h.kinds[i / 16] == Node
      ensures ShapeEq(w[i], w2[i])
    {
      UsedBelowMark(w, h, i / 16);
      assert Kept(w, w2, i);
    }
  }

  /** Key `z` keeps its slot, its cell and its value in a larger buffer that copies the words below the mark. */
  lemma {:induction false} RegrowKey(w: seq<u32>, h: Heap, w2: seq<u32>, h2: Heap, z: u64)
    requires HeaderOK(w) && KindsOK(w, h) && OwnersOK(h) && SameShape(w, h, w2, h2) && h2.owner == h.owner
    requires PathOK(w, h, z, 0, 0, 16) && (Slot(w, z).Some? ==> SlotCellOK(w, h, z, Slot(w, z).value))
    requires forall i :: 0 <= i < w[MARK] / 4 && i != SIZE ==> Kept(w, w2, i)
    ensures PathOK(w2, h2, z, 0, 0, 16) && Slot(w2, z) == Slot(w, z)
    ensures Slot(w, z).Some? ==> SlotCellOK(w2, h2, z, Slot(w, z).value)
    ensures Get(w2, z) == Get(w, z)
  {
    WalkSameShape(w, h, w2, h2, z, 0, 0, 16);
    if Slot(w, z).Some? {
      RegrowSlot(w, h, w2, h2, z, Slot(w, z).value);
    }
  }

  /** The slot `t` of key `z` keeps its word, its cell and its value in the larger buffer. */
  lemma {:induction false} RegrowSlot(w: seq<u32>, h: Heap, w2: seq<u32>, h2: Heap, z: u64, t: nat)
    requires HeaderOK(w) && KindsOK(w, h) && OwnersOK(h) && |w| <= |w2| && h2.owner == h.owner
    requires PathOK(w, h, z, 0, 0, 16) && Slot(w, z) == Some(t) && Slot(w2, z) == Some(t) && SlotCellOK(w, h, z, t)
    requires forall i :: 0 <= i < w[MARK] / 4 && i != SIZE ==> Kept(w, w2, i)
    ensures SlotCellOK(w2, h2, z, t)
    ensures Get(w2, z) == Get(w, z)
  {
    var leaf := SlotInLeaf(w, h, z, t);
    WordBelowMark(w, h, t);
    assert Kept(w, w2, t);
    if OwnsCell(w[t]) {
      var k := Payload(w[t]);
      CellWords(h, k, |w|);
      WordBelowMark(w, h, 2 * k);
      WordBelowMark(w, h, 2 * k + 1);
      assert Kept(w, w2, 2 * k) && Kept(w, w2, 2 * k + 1);
    }
    GrowValue(w, w2, z, t);
  }

  /** A slot word and its cell copied into a larger buffer keep the slot's value. */
  lemma {:induction false} GrowValue(w: seq<u32>, w2: seq<u32>, z: u64, t: nat)
    requires 16 <= |w| <= |w2| && t < |w| && w2[t] == w[t] && !IsNode(w[t])
    requires Slot(w, z) == Some(t) && Slot(w2, z) == Some(t)
    requires OwnsCell(w[t]) ==> Kept(w, w2, 2 * Payload(w[t])) && Kept(w, w2, 2 * Payload(w[t]) + 1)
    ensures Get(w2, z) == Get(w, z)
  {
    assert Hasval(w2, t) == Hasval(w, t) && CellInRange(w2, t) == CellInRange(w, t);
    assert CellInRange(w, t) ==> Getval(w2, t) == Getval(w, t);
  }

  /**
   * Moving the tree to a larger buffer keeps the invariant and the map:
   * the words below the mark are copied, and of them only the size changes.
   */
  lemma {:induction false} RegrowValid(w: seq<u32>, h: Heap, size: nat)
    requires ValidWith(w, h) && w[SIZE] < size <= 0x8000_0000 && size % 64 == 0
    ensures ValidWith(Regrow(w, size), GrowHeap(h, size))
    ensures forall z: u64 :: Get(Regrow(w, size), z) == Get(w, z)
    ensures Regrow(w, size)[..w[MARK] / 4] == w[..w[MARK] / 4][SIZE := size]
  {
    var w2, h2 := Regrow(w, size), GrowHeap(h, size);
    RegrowWords(w, size);
    MarkWords(w);
    RegrowShape(w, h, size);
    forall z: u64
      ensures PathOK(w2, h2, z, 0, 0, 16) && Slot(w2, z) == Slot(w, z)
      ensures Slot(w2, z).Some? ==> SlotCellOK(w2, h2, z, Slot(w2, z).value)
      ensures Get(w2, z) == Get(w, z)
    {
      assert PathOK(w, h, z, 0, 0, 16);
      assert Slot(w, z).Some? ==> SlotCellOK(w, h, z, Slot(w, z).value);
      RegrowKey(w, h, w2, h2, z);
    }
    forall k | k in h2.owner
      ensures CellSpot(h2, k)
    {
      assert CellSpot(h, k);
    }
    RegrowFree(w, h, size);
    RegrowPrefix(w, size);
  }

  /** The free list survives the move: its cells lie below the mark. */
  lemma {:induction false} RegrowFree(w: seq<u32>, h: Heap, size: nat)
    requires ValidWith(w, h) && w[SIZE] < size <= 0x8000_0000 && size % 64 == 0
    ensures Regrow(w, size)[FREE] == w[FREE]
    ensures forall i :: 0 <= i < |h.free| ==> FreeCell(Regrow(w, size), GrowHeap(h, size), i)
  {
    var w2, h2 := Regrow(w, size), GrowHeap(h, size);
    RegrowWords(w, size);
    MarkWords(w);
    forall i | 0 <= i < |h2.free|
      ensures FreeCell(w2, h2, i)
    {
      var f := h.free[i];
      assert FreeCell(w, h, i);
      CellWords(h, f, |w|);
      UsedBelowMark(w, h, f / 8);
      assert Kept(w, w2, 2 * f);
    }
    assert Kept(w, w2, FREE);
  }

  /** Below the old mark the new buffer is a copy with the new size. */
  lemma {:induction false} RegrowPrefix(w: seq<u32>, size: nat)
    requires HeaderOK(w) && w[SIZE] < size <= 0x8000_0000 && size % 64 == 0
    ensures Regrow(w, size)[..w[MARK] / 4] == w[..w[MARK] / 4][SIZE := size]
  {
    var w2 := Regrow(w, size);
    RegrowWords(w, size);
    MarkWords(w);
    forall i | 0 <= i < w[MARK] / 4
      ensures w2[i] == w[..w[MARK] / 4][SIZE := size][i]
    {
      if i != SIZE {
        assert Kept(w, w2, i);
      }
    }
  }

  // ----- imap_ensure

  /** The blocks and cells of imap_ensure's result `r`. */
  function EnsureHeap(tree: Option<seq<u32>>, h: Heap, r: Option<seq<u32>>): Heap
  {
    if r == tree || r.None? then h
    else if tree.None? then EmptyHeap(4 * |r.value|)
    else GrowHeap(h, 4 * |r.value|)
  }

  /** When the needed mark does not fit, imap_ensure allocates the least power of two that holds it. */
  lemma {:induction false} EnsureGrows(tree: Option<seq<u32>>, n: int, allocOK: bool)
    requires tree.Some? ==> HeaderOK(tree.value)
    requires IntArg(n) && n != 0 && Needed(tree, n) > OldSize(tree)
    ensures Needed(tree, n) <= Ceilpow2(Needed(tree, n)) && Ceilpow2(Needed(tree, n)) % 64 == 0
    ensures exists k: nat :: Ceilpow2(Needed(tree, n)) == Pow2(k) && Pow2(k) / 2 < Needed(tree, n)
    ensures allocOK && Ceilpow2(Needed(tree, n)) <= 0x8000_0000 ==>
      Ensure(tree, n, allocOK) == Some(Grown(tree, Ceilpow2(Needed(tree, n))))
    ensures !allocOK || 0x8000_0000 < Ceilpow2(Needed(tree, n)) ==> Ensure(tree, n, allocOK).None?
  {
    CeilpowFacts(Needed(tree, n));
    Ceilpow2Least(Needed(tree, n));
  }

  /**
   * What imap_ensure returns: the same tree for `n == 0` or when the needed
   * mark fits; otherwise null exactly when the least power of two holding
   * the needed mark exceeds 0x80000000 bytes or the allocation fails, and
   * else a buffer of that size. Every tree it returns has room for the
   * needed mark.
   */
  lemma {:induction false} EnsureOutcome(tree: Option<seq<u32>>, n: int, allocOK: bool)
    requires tree.Some? ==> HeaderOK(tree.value)
    requires IntArg(n)
    ensures n == 0 ==> Ensure(tree, n, allocOK) == tree
    ensures n != 0 && tree.Some? ==> (Ensure(tree, n, allocOK) == tree <==> Needed(tree, n) <= OldSize(tree))
    ensures n != 0 && Needed(tree, n) > OldSize(tree) ==>
      (Ensure(tree, n, allocOK).None? <==> !allocOK || 0x8000_0000 < Ceilpow2(Needed(tree, n)))
    ensures n != 0 && Ensure(tree, n, allocOK).Some? ==>
      HeaderOK(Ensure(tree, n, allocOK).value) && Needed(tree, n) <= Ensure(tree, n, allocOK).value[SIZE]
    ensures n != 0 && Ensure(tree, n, allocOK).Some? && Ensure(tree, n, allocOK) != tree ==>
      exists k: nat :: Ensure(tree, n, allocOK).value[SIZE] == Pow2(k) && Pow2(k) / 2 < Needed(tree, n)
  {
    if n != 0 && Needed(tree, n) > OldSize(tree) {
      EnsureGrows(tree, n, allocOK);
      var size := Ceilpow2(Needed(tree, n));
      if allocOK && size <= 0x8000_0000 {
        GrownHeader(tree, size);
      }
    }
  }

  /** The header of the allocated buffer: a valid one of the new size. */
  lemma {:induction false} GrownHeader(tree: Option<seq<u32>>, size: nat)
    requires tree.Some? ==> HeaderOK(tree.value) && tree.value[SIZE] < size
    requires 64 <= size <= 0x8000_0000 && size % 64 == 0
    ensures HeaderOK(Grown(tree, size)) && Grown(tree, size)[SIZE] == size
    ensures tree.Some? ==> |Grown(tree, size)| != |tree.value|
  {
    if tree.Some? {
      RegrowWords(tree.value, size);
      MarkWords(tree.value);
      assert Kept(tree.value, Regrow(tree.value, size), MARK);
    }
  }

  /**
   * imap_ensure keeps the invariant and the map: a tree it returns holds
   * the old tree's values, and a new tree holds none.
   */
  lemma {:induction false} EnsureValid(tree: Option<seq<u32>>, h: Heap, n: int, allocOK: bool)
    requires tree.Some? ==> ValidWith(tree.value, h)
    requires IntArg(n)
    ensures Ensure(tree, n, allocOK).Some? ==>
      ValidWith(Ensure(tree, n, allocOK).value, EnsureHeap(tree, h, Ensure(tree, n, allocOK)))
    ensures Ensure(tree, n, allocOK).Some? && tree.Some? ==>
      forall z: u64 :: Get(Ensure(tree, n, allocOK).value, z) == Get(tree.value, z)
    ensures Ensure(tree, n, allocOK).Some? && tree.None? ==>
      forall z: u64 :: Get(Ensure(tree, n, allocOK).value, z) == None
  {
    if n != 0 && Needed(tree, n) > OldSize(tree) {
      EnsureGrows(tree, n, allocOK);
      var size := Ceilpow2(Needed(tree, n));
      if allocOK && size <= 0x8000_0000 {
        GrownHeader(tree, size);
        GrownValid(tree, h, size);
      }
    }
  }

  /** The allocated buffer keeps the invariant and the map. */
  lemma {:induction false} GrownValid(tree: Option<seq<u32>>, h: Heap, size: nat)
    requires tree.Some? ==> ValidWith(tree.value, h) && tree.value[SIZE] < size
    requires 64 <= size <= 0x8000_0000 && size % 64 == 0
    ensures ValidWith(Grown(tree, size), if tree.None? then EmptyHeap(size) else GrowHeap(h, size))
    ensures tree.Some? ==> forall z: u64 :: Get(Grown(tree, size), z) == Get(tree.value, z)
    ensures tree.None? ==> forall z: u64 :: Get(Grown(tree, size), z) == None
  {
    if tree.None? {
      NewTreeValid(size);
    } else {
      RegrowValid(tree.value, h, size);
    }
  }

  /**
   * As written, `newmark` wraps: asking a 256-byte tree for 2^25 nodes
   * (`n == -0x2000000`, 2^32 bytes) leaves the needed mark at 64, so the
   * tree comes back unchanged, where the 64-bit computation returns null.
   */
  lemma {:induction false} EnsureWraps()
    ensures var t := Some(NewTree(256));
      EnsureAsWritten(t, -0x200_0000, true) == t && Ensure(t, -0x200_0000, true).None? &&
      Needed(t, -0x200_0000) == 64 + 0x1_0000_0000 && t.value[SIZE] == 256
  {
    var t := Some(NewTree(256));
    CeilpowFacts(Needed(t, -0x200_0000));
  }

  /**
   * The same wrap on a null tree: `n == 0x2000_0000` items need a mark of
   * 2^36 + 2^32 + 56 bytes, which wraps to 56 and rounds up to a 64-byte
   * tree with no room, where the 64-bit computation returns null.
   */
  lemma {:induction false} EnsureWrapsNull()
    ensures Needed(None, 0x2000_0000) % U32_LIMIT == 56 && Ceilpow2(56) == 64
    ensures EnsureAsWritten(None, 0x2000_0000, true) == Some(NewTree(64))
    ensures Ensure(None, 0x2000_0000, true).None?
  {
    assert Needed(None, 0x2000_0000) == 0x10_0000_0000 + 0x1_0000_0000 + 56;
    assert Bsr(55) == 5 by {
      BsrBounds(55);
      assert Pow2(5) == 32 && Pow2(6) == 64;
      if Bsr(55) > 5 {
        Pow2Mono(6, Bsr(55));
      }
    }
    CeilpowFacts(Needed(None, 0x2000_0000));
  }

  /** While the needed mark fits in 32 bits, imap_ensure as written is the corrected one. */
  lemma {:induction false} EnsureAgrees(tree: Option<seq<u32>>, n: int, allocOK: bool)
    requires tree.Some? ==> HeaderOK(tree.value)
    requires IntArg(n) && (n != 0 ==> Needed(tree, n) < U32_LIMIT)
    requires tree.None? && n != 0 ==> Needed(tree, n) % U32_LIMIT == 0 || 32 < Needed(tree, n) % U32_LIMIT
    ensures EnsureAsWritten(tree, n, allocOK) == Ensure(tree, n, allocOK)
  {
  }
}
