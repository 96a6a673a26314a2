// imap_setval, imap_delval and imap__alloc_values__ on the word buffer,
// with the ghost heap each of them leaves, and the proof that they keep
// the invariant and change the map at one key only.

module TreeValues {
  import opened Bits
  import opened Layout
  import opened Tree
  import opened TreeAssign
  import opened AssignValid

  // ----- the operations

  /** Bitwise or of two nibbles. */
  function Or4(a: nibble, b: nibble): (r: nibble)
  {
    ((a as bv4) | (b as bv4)) as int
  }

  lemma {:induction false} Or4Facts(a: nibble)
    ensures Or4(a, 0) == a && Or4(a, a) == a
  {
  }

  /** `(*slot & imap__slot_pmask__) | sval`: the nibble `l` or-ed into the word `v`. */
  function OrLow(l: nibble, v: u32): (r: u32)
  {
    v - v % 16 + Or4(l, v % 16)
  }

  /**
   * The node imap__alloc_values__ writes at byte offset `m`, whose cells
   * start at index `m / 8` (`f` is `m << 3`, the encoded first cell): each
   * of the first seven cells links to the next, the last ends the list.
   */
  function CellChain(f: u32): (r: seq<u32>)
    ensures |r| == 16
  {
    seq(16, j => if j % 2 == 1 || j == 14 then 0 else (f + 64 * (j / 2 + 1)) % U32_LIMIT)
  }

  /**
   * `imap__alloc_values__`: the node at the mark becomes 8 value cells,
   * chained on the free list, whose head is `mark << 3` (in 32 bits).
   * Returns the new buffer and that head.
   */
  function AllocValues(w: seq<u32>): (r: (seq<u32>, u32))
    requires HeaderOK(w) && w[MARK] + 64 <= w[SIZE]
    ensures |r.0| == |w|
  {
    var m := w[MARK];
    var f := m * 8 % U32_LIMIT;
    var w1 := w[MARK := m + 64][FREE := f];
    (PutBlock(w1, m / 4, CellChain(f)), f)
  }

  /** The free-list head names a cell inside the buffer, as imap_setval needs when it pops it. */
  predicate TakeOK(w: seq<u32>)
    requires HeaderOK(w)
  {
    if w[FREE] == 0 then w[MARK] + 64 <= w[SIZE] else 2 * Payload(w[FREE]) + 1 < |w|
  }

  /**
   * imap_setval popping the free-list head for a slot: the head's link
   * (its low word) becomes the new head. Returns the new buffer and the
   * encoded cell.
   */
  function PopCell(w: seq<u32>): (r: (seq<u32>, u32))
    requires |w| >= 16 && 2 * Payload(w[FREE]) + 1 < |w|
    ensures |r.0| == |w| && r.1 == w[FREE]
  {
    (w[FREE := w[2 * Payload(w[FREE])]], w[FREE])
  }

  /**
   * The cell imap_setval takes for a large value when the slot owns none:
   * the free-list head, after imap__alloc_values__ when the list is empty.
   */
  function TakeCell(w: seq<u32>): (r: (seq<u32>, u32))
    requires HeaderOK(w) && TakeOK(w)
    ensures |r.0| == |w| && 2 * Payload(r.1) + 1 < |w|
  {
    if w[FREE] == 0 then
      var wa := AllocValues(w).0;
      AllocHead(w[MARK], |w|);
      PopCell(wa)
    else
      PopCell(w)
  }

  lemma {:induction false} AllocHead(m: nat, n: nat)
    requires m + 64 <= 4 * n
    ensures 2 * Payload(m * 8 % U32_LIMIT) + 1 < n && 16 <= n
  {
    assert m * 8 % U32_LIMIT <= m * 8;
  }

  /**
   * The first half of imap_setval for a small value and of imap_delval:
   * a slot that owns a cell gives it back, as the new free-list head.
   */
  function Release(w: seq<u32>, s: nat): (r: seq<u32>)
    requires HeaderOK(w) && s < |w| && CellInRange(w, s)
    ensures |r| == |w|
  {
    var v := w[s];
    if OwnsCell(v) then WriteCell(w, Payload(v), w[FREE])[FREE := ValueBits(v)] else w
  }

  /** `imap_delval`: the slot gives back its cell and keeps only its prefix nibble. */
  function Delval(w: seq<u32>, s: nat): (r: seq<u32>)
    requires HeaderOK(w) && s < |w| && !IsNode(w[s]) && CellInRange(w, s)
    ensures |r| == |w|
  {
    var w1 := Release(w, s);
    w1[s := Low4(w1[s])]
  }

  /**
   * `imap_setval`: a value below 2^26 goes inline with the scalar flag,
   * after the slot gives back its cell; a larger one goes into the slot's
   * own cell, or into a cell taken from the free list.
   */
  function Setval(w: seq<u32>, s: nat, y: u64): (r: seq<u32>)
    requires HeaderOK(w) && s < |w| && !IsNode(w[s]) && CellInRange(w, s)
    requires y >= SCALAR_LIMIT && !OwnsCell(w[s]) ==> TakeOK(w)
    ensures |r| == |w|
  {
    var v := w[s];
    if y < SCALAR_LIMIT then
      var w1 := Release(w, s);
      w1[s := Low4(w1[s]) + 32 + 64 * y]
    else
      var (w1, sval) := if OwnsCell(v) then (w, v) else TakeCell(w);
      WriteCell(w1[s := OrLow(Low4(w1[s]), sval)], Payload(sval), y)
  }

  // ----- the ghost heap after each operation

  /** The cell a releasing slot owned goes to the front of the free list and has no owner. */
  function ReleaseHeap(w: seq<u32>, h: Heap, s: nat): Heap
    requires s < |w|
  {
    if OwnsCell(w[s]) then Heap(h.kinds, h.owner - {Payload(w[s])}, [Payload(w[s])] + h.free) else h
  }

  /** imap__alloc_values__ turns the unused block at the mark into value cells, all of them free. */
  function AllocHeap(w: seq<u32>, h: Heap): Heap
    requires HeaderOK(w)
  {
    var b := w[MARK] / 64;
    Heap(if b < |h.kinds| then h.kinds[b := Values] else h.kinds, h.owner, seq(8, i => 8 * b + i))
  }

  /** The popped free-list head becomes key x's cell. */
  function PopHeap(w: seq<u32>, h: Heap, x: u64): Heap
    requires |w| >= 16
  {
    Heap(h.kinds, h.owner[Payload(w[FREE]) := x], if |h.free| > 0 then h.free[1..] else [])
  }

  /** The cell TakeCell hands to key `x`. */
  function TakeHeap(w: seq<u32>, h: Heap, x: u64): Heap
    requires HeaderOK(w) && TakeOK(w)
  {
    if w[FREE] == 0 then PopHeap(AllocValues(w).0, AllocHeap(w, h), x) else PopHeap(w, h, x)
  }

  /** The bookkeeping after imap_setval: a released cell, the same cells, or one taken for `x`. */
  function SetHeap(w: seq<u32>, h: Heap, s: nat, x: u64, y: u64): Heap
    requires HeaderOK(w) && s < |w|
    requires y >= SCALAR_LIMIT && !OwnsCell(w[s]) ==> TakeOK(w)
  {
    if y < SCALAR_LIMIT then ReleaseHeap(w, h, s)
    else if OwnsCell(w[s]) then h
    else TakeHeap(w, h, x)
  }

  // ----- where a key's slot lies

  /** A cell in a header or value block: both its words lie in that block. */
  lemma {:induction false} CellWords(h: Heap, k: nat, n: nat)
    requires CellSpot(h, k) && |h.kinds| == n / 16
    ensures 2 * k + 1 < n && (2 * k) / 16 == k / 8 && (2 * k + 1) / 16 == k / 8 && 4 <= 2 * k
  {
  }

  /**
   * What a walk's slot `s` for key `x` is: a value slot in a tree node
   * (so not a header word), and the cell it owns, if any, is x's and a
   * real cell.
   */
  predicate SlotFacts(w: seq<u32>, h: Heap, x: u64, s: nat)
  {
    16 <= s < |w| && s / 16 < |h.kinds| && h.kinds[s / 16] == Node && !IsNode(w[s]) &&
    (OwnsCell(w[s]) ==>
      Payload(w[s]) in h.owner && h.owner[Payload(w[s])] == x && CellSpot(h, Payload(w[s])) &&
      2 * Payload(w[s]) + 1 < |w|)
  }

  lemma {:induction false} LeafSlot(w: seq<u32>, h: Heap, x: u64, s: nat)
    requires ValidWith(w, h) && Slot(w, x) == Some(s)
    ensures SlotFacts(w, h, x, s) && CellInRange(w, s)
  {
    assert PathOK(w, h, x, 0, 0, 16);
    assert SlotCellOK(w, h, x, s);
    LeafSlotOf(w, h, x, s);
  }

  lemma {:induction false} LeafSlotOf(w: seq<u32>, h: Heap, x: u64, s: nat)
    requires HeaderOK(w) && KindsOK(w, h) && PathOK(w, h, x, 0, 0, 16) && Slot(w, x) == Some(s)
    requires SlotCellOK(w, h, x, s) && forall k :: k in h.owner ==> CellSpot(h, k)
    ensures SlotFacts(w, h, x, s) && CellInRange(w, s)
  {
    var leaf := SlotInLeaf(w, h, x, s);
    if OwnsCell(w[s]) {
      CellWords(h, Payload(w[s]), |w|);
    }
  }

  // ----- a step that only touches value storage

  /** Cell `k` keeps its owner and its two words. */
  predicate CellSame(w: seq<u32>, h: Heap, w2: seq<u32>, h2: Heap, k: nat)
  {
    k in h.owner && k in h2.owner && h2.owner[k] == h.owner[k] && Kept(w, w2, 2 * k) && Kept(w, w2, 2 * k + 1)
  }

  /**
   * `w2`, `h2` differ from `w`, `h` in value storage only: the root and
   * every tree-node word other than x's slot `s` are kept, `s` keeps its
   * prefix nibble and stays a value slot, every used block keeps its kind,
   * and the cells of other keys keep their owner and contents.
   */
  predicate ValueStep(w: seq<u32>, h: Heap, w2: seq<u32>, h2: Heap, x: u64, s: nat)
  {
    16 <= |w| && |w2| == |w| && s < |w| && w2[ROOT] == w[ROOT] && |h2.kinds| == |h.kinds| &&
    (forall b: nat {:trigger KindKept(h, h2, b)} :: b < |h.kinds| && h.kinds[b] != Unused ==> KindKept(h, h2, b)) &&
    Low4(w2[s]) == Low4(w[s]) && !IsNode(w2[s]) &&
    (forall i: nat {:trigger Kept(w, w2, i)} ::
      i < |w| && i / 16 < |h.kinds| && h.kinds[i / 16] == Node && i != s ==> Kept(w, w2, i)) &&
    (forall k: nat {:trigger CellSame(w, h, w2, h2, k)} ::
      k in h.owner && h.owner[k] != x ==> CellSame(w, h, w2, h2, k))
  }

  lemma {:induction false} StepShape(w: seq<u32>, h: Heap, w2: seq<u32>, h2: Heap, x: u64, s: nat)
    requires ValueStep(w, h, w2, h2, x, s) && !IsNode(w[s])
    ensures SameShape(w, h, w2, h2)
  {
    forall b | 0 <= b < |h.kinds| && h.kinds[b] == Node
      ensures h2.kinds[b] == Node
    {
      assert KindKept(h, h2, b);
    }
    forall i | 16 <= i < |w| && i / 16 < |h.kinds| && h.kinds[i / 16] == Node
      ensures ShapeEq(w[i], w2[i])
    {
      if i != s {
        assert Kept(w, w2, i);
      }
    }
  }

  /** Key `z`, other than `x`, keeps its cell's owner and its value. */
  lemma {:induction false} StepValue(w: seq<u32>, h: Heap, w2: seq<u32>, h2: Heap, x: u64, s: nat, z: u64)
    requires |w| >= 16 && ValueStep(w, h, w2, h2, x, s)
    requires PathOK(w, h, x, 0, 0, 16) && PathOK(w, h, z, 0, 0, 16) && Slot(w, x) == Some(s)
    requires z != x && Slot(w, z).Some? && SlotCellOK(w, h, z, Slot(w, z).value)
    requires Slot(w2, z) == Slot(w, z)
    ensures SlotCellOK(w2, h2, z, Slot(w, z).value)
    ensures Get(w2, z) == Get(w, z)
  {
    var t := Slot(w, z).value;
    if t == s {
      SlotInjective(w, h, x, z);
    }
    var leaf := SlotInLeaf(w, h, z, t);
    assert Kept(w, w2, t);
    if OwnsCell(w[t]) {
      assert CellSame(w, h, w2, h2, Payload(w[t]));
    }
    GetKept(w, w2, z, t);
  }

  /** A key whose slot word and cell are unchanged keeps its value. */
  lemma {:induction false} GetKept(w: seq<u32>, w2: seq<u32>, z: u64, t: nat)
    requires |w| >= 16 && |w2| == |w| && t < |w| && w2[t] == w[t] && !IsNode(w[t])
    requires Slot(w, z) == Some(t) && Slot(w2, z) == Some(t)
    requires OwnsCell(w[t]) && CellInRange(w, t) ==> Cell(w2, Payload(w[t])) == Cell(w, Payload(w[t]))
    ensures Get(w2, z) == Get(w, z)
  {
    ValueKept(w, w2, t);
  }

  /** Key `z` keeps its walk and its path invariant; if it is not `x`, its cell's owner and its value. */
  lemma {:induction false} StepKey(w: seq<u32>, h: Heap, w2: seq<u32>, h2: Heap, x: u64, s: nat, z: u64)
    requires |w| >= 16 && ValueStep(w, h, w2, h2, x, s) && SameShape(w, h, w2, h2)
    requires PathOK(w, h, x, 0, 0, 16) && PathOK(w, h, z, 0, 0, 16) && Slot(w, x) == Some(s)
    requires Slot(w, z).Some? ==> SlotCellOK(w, h, z, Slot(w, z).value)
    ensures PathOK(w2, h2, z, 0, 0, 16) && Slot(w2, z) == Slot(w, z)
    ensures z != x && Slot(w2, z).Some? ==> SlotCellOK(w2, h2, z, Slot(w2, z).value)
    ensures z != x ==> Get(w2, z) == Get(w, z)
  {
    WalkSameShape(w, h, w2, h2, z, 0, 0, 16);
    if z != x && Slot(w, z).Some? {
      StepValue(w, h, w2, h2, x, s, z);
    }
  }

  /** Every key other than `x` keeps its slot and value, and every walk its invariant. */
  lemma {:induction false} StepKeys(w: seq<u32>, h: Heap, w2: seq<u32>, h2: Heap, x: u64, s: nat)
    requires ValidWith(w, h) && Slot(w, x) == Some(s) && ValueStep(w, h, w2, h2, x, s)
    ensures WalksOK(w2, h2) && Slot(w2, x) == Some(s)
    ensures forall z: u64 :: z != x ==> Get(w2, z) == Get(w, z)
    ensures forall z: u64 :: z != x && Slot(w2, z).Some? ==> SlotCellOK(w2, h2, z, Slot(w2, z).value)
  {
    LeafSlot(w, h, x, s);
    StepShape(w, h, w2, h2, x, s);
    assert PathOK(w, h, x, 0, 0, 16);
    forall z: u64
      ensures PathOK(w2, h2, z, 0, 0, 16) && Slot(w2, z) == Slot(w, z)
      ensures z != x && Slot(w2, z).Some? ==> SlotCellOK(w2, h2, z, Slot(w2, z).value)
      ensures z != x ==> Get(w2, z) == Get(w, z)
    {
      assert PathOK(w, h, z, 0, 0, 16);
      assert Slot(w, z).Some? ==> SlotCellOK(w, h, z, Slot(w, z).value);
      StepKey(w, h, w2, h2, x, s, z);
    }
  }

  /** A value step that keeps the header, the block kinds, the free list and x's cell keeps the invariant. */
  lemma {:induction false} StepValid(w: seq<u32>, h: Heap, w2: seq<u32>, h2: Heap, x: u64, s: nat)
    requires ValidWith(w, h) && Slot(w, x) == Some(s) && ValueStep(w, h, w2, h2, x, s)
    requires Mid(w2, h2) && SlotCellOK(w2, h2, x, s)
    ensures ValidWith(w2, h2) && Slot(w2, x) == Some(s)
    ensures forall z: u64 :: z != x ==> Get(w2, z) == Get(w, z)
  {
    StepKeys(w, h, w2, h2, x, s);
  }

  // ----- the single steps

  /** A value slot that is not inline owns the cell its value bits encode. */
  lemma {:induction false} ValueBitsCell(v: u32)
    requires !IsScalar(v)
    ensures ValueBits(v) == 64 * Payload(v)
  {
    assert v / 32 == 2 * (v / 64);
  }

  /** The slot word for a cell `k` under prefix nibble `l`. */
  lemma {:induction false} CellWord(l: nibble, k: nat)
    requires 0 < k < SCALAR_LIMIT
    ensures OrLow(l, 64 * k) == l + 64 * k && l + 64 * k < U32_LIMIT
    ensures Low4(l + 64 * k) == l && !IsNode(l + 64 * k) && OwnsCell(l + 64 * k) && Payload(l + 64 * k) == k
  {
    Or4Facts(l);
    assert (l + 64 * k) / 16 == 4 * k;
    assert (l + 64 * k) / 32 == 2 * k;
    assert (l + 64 * k) / 64 == k;
  }

  /** The inline slot word for a small value `y` under prefix nibble `l`. */
  lemma {:induction false} ScalarWord(l: nibble, y: nat)
    requires y < SCALAR_LIMIT
    ensures l + 32 + 64 * y < U32_LIMIT
    ensures Low4(l + 32 + 64 * y) == l && !IsNode(l + 32 + 64 * y) && IsScalar(l + 32 + 64 * y)
    ensures Payload(l + 32 + 64 * y) == y
  {
    assert (l + 32 + 64 * y) / 16 == 2 + 4 * y;
    assert (l + 32 + 64 * y) / 32 == 1 + 2 * y;
    assert (l + 32 + 64 * y) / 64 == y;
  }

  /** The cells of the keys in `h` lie in header or value blocks. */
  predicate OwnersOK(h: Heap)
  {
    forall k :: k in h.owner ==> CellSpot(h, k)
  }

  /** The state between steps: header, kinds and free list are in order. */
  predicate Mid(w: seq<u32>, h: Heap)
  {
    HeaderOK(w) && KindsOK(w, h) && FreeOK(w, h) && OwnersOK(h)
  }

  /** Nothing changed yet. */
  lemma {:induction false} StepRefl(w: seq<u32>, h: Heap, x: u64, s: nat)
    requires 16 <= |w| && s < |w| && !IsNode(w[s]) && OwnersOK(h) && |h.kinds| == |w| / 16
    ensures ValueStep(w, h, w, h, x, s)
  {
    forall b: nat | b < |h.kinds| && h.kinds[b] != Unused
      ensures KindKept(h, h, b)
    {
    }
    forall i: nat | i < |w| && i / 16 < |h.kinds| && h.kinds[i / 16] == Node && i != s
      ensures Kept(w, w, i)
    {
    }
    forall k: nat | k in h.owner && h.owner[k] != x
      ensures CellSame(w, h, w, h, k)
    {
      CellWords(h, k, |w|);
    }
  }

  /** A word in a header or value block is not the word `s` of a tree node. */
  lemma {:induction false} NotNodeWord(h: Heap, k: nat, n: nat, s: nat)
    requires CellSpot(h, k) && |h.kinds| == n / 16 && s / 16 < |h.kinds| && h.kinds[s / 16] == Node
    ensures 2 * k + 1 < n && 2 * k != s && 2 * k + 1 != s && 4 <= 2 * k
  {
    CellWords(h, k, n);
  }

  /** The free list does not see a write to a tree-node word. */
  lemma {:induction false} FreeSlotWrite(w: seq<u32>, h: Heap, s: nat, v: u32)
    requires HeaderOK(w) && KindsOK(w, h) && FreeOK(w, h)
    requires 16 <= s < |w| && s / 16 < |h.kinds| && h.kinds[s / 16] == Node
    ensures FreeOK(w[s := v], h)
  {
    var w2 := w[s := v];
    forall i | 0 <= i < |h.free|
      ensures FreeCell(w2, h, i)
    {
      assert FreeCell(w, h, i);
      NotNodeWord(h, h.free[i], |w|, s);
    }
  }

  /** Writing a value word with x's prefix nibble into x's slot. */
  lemma {:induction false} SlotWrite(w: seq<u32>, h: Heap, w1: seq<u32>, h1: Heap, x: u64, s: nat, v: u32)
    requires ValueStep(w, h, w1, h1, x, s) && Mid(w1, h1) && OwnersOK(h) && |h.kinds| == |w| / 16
    requires 16 <= s && s / 16 < |h.kinds| && h.kinds[s / 16] == Node
    requires !IsNode(v) && Low4(v) == Low4(w[s])
    ensures ValueStep(w, h, w1[s := v], h1, x, s) && Mid(w1[s := v], h1)
  {
    var w2 := w1[s := v];
    forall i: nat | i < |w| && i / 16 < |h.kinds| && h.kinds[i / 16] == Node && i != s
      ensures Kept(w, w2, i)
    {
      assert Kept(w, w1, i);
    }
    forall k: nat | k in h.owner && h.owner[k] != x
      ensures CellSame(w, h, w2, h1, k)
    {
      assert CellSame(w, h, w1, h1, k);
      NotNodeWord(h, k, |w|, s);
    }
    assert KindKept(h, h1, s / 16);
    FreeSlotWrite(w1, h1, s, v);
  }

  /** The words Release writes: the free head and the released cell. */
  lemma {:induction false} ReleaseWords(w: seq<u32>, s: nat, k: nat)
    requires HeaderOK(w) && s < |w| && OwnsCell(w[s]) && k == Payload(w[s]) && 4 <= 2 * k && 2 * k + 1 < |w|
    ensures Release(w, s)[FREE] == 64 * k && Release(w, s)[2 * k] == w[FREE]
    ensures forall i :: 0 <= i < |w| && i != FREE && i != 2 * k && i != 2 * k + 1 ==> Release(w, s)[i] == w[i]
  {
    ValueBitsCell(w[s]);
  }

  /** A slot giving back its cell: the cell heads the free list and has no owner. */
  lemma {:induction false} ReleaseStep(w: seq<u32>, h: Heap, x: u64, s: nat)
    requires Mid(w, h) && SlotFacts(w, h, x, s) && OwnsCell(w[s])
    ensures ValueStep(w, h, Release(w, s), ReleaseHeap(w, h, s), x, s)
    ensures Mid(Release(w, s), ReleaseHeap(w, h, s)) && Release(w, s)[s] == w[s]
  {
    var k := Payload(w[s]);
    var w1, h1 := Release(w, s), ReleaseHeap(w, h, s);
    NotNodeWord(h, k, |w|, s);
    ReleaseWords(w, s, k);
    forall b: nat | b < |h.kinds| && h.kinds[b] != Unused
      ensures KindKept(h, h1, b)
    {
    }
    forall i: nat | i < |w| && i / 16 < |h.kinds| && h.kinds[i / 16] == Node && i != s
      ensures Kept(w, w1, i)
    {
      assert i != 2 * k && i != 2 * k + 1;
    }
    forall j: nat | j in h.owner && h.owner[j] != x
      ensures CellSame(w, h, w1, h1, j)
    {
      CellWords(h, j, |w|);
    }
    ReleaseFree(w, h, w1, h1, k);
  }

  /** Pushing the unowned cell `k` on the free list whose head `w1` now names. */
  lemma {:induction false} ReleaseFree(w: seq<u32>, h: Heap, w1: seq<u32>, h1: Heap, k: nat)
    requires HeaderOK(w) && KindsOK(w, h) && FreeOK(w, h) && CellSpot(h, k) && k !in h1.owner && k < SCALAR_LIMIT
    requires k in h.owner && 4 <= 2 * k && 2 * k + 1 < |w| && |w1| == |w|
    requires w1[FREE] == 64 * k && w1[2 * k] == w[FREE]
    requires forall i :: 0 <= i < |w| && i != FREE && i != 2 * k && i != 2 * k + 1 ==> w1[i] == w[i]
    requires h1.kinds == h.kinds && h1.owner == h.owner - {k} && h1.free == [k] + h.free
    ensures FreeOK(w1, h1)
  {
    forall i | 0 <= i < |h1.free|
      ensures FreeCell(w1, h1, i)
    {
      if i > 0 {
        var f := h.free[i - 1];
        assert FreeCell(w, h, i - 1);
        CellWords(h, f, |w|);
      }
    }
    forall i, j | 0 <= i < j < |h1.free|
      ensures h1.free[i] != h1.free[j]
    {
      if i == 0 {
        assert h1.free[j] == h.free[j - 1] && FreeCell(w, h, j - 1);
      }
    }
  }

  // ----- imap_delval

  /**
   * imap_delval on key x's slot keeps the invariant, with the cell the
   * slot owned at the head of the free list; x has no value any more,
   * every other key keeps its value, and the slot keeps its prefix nibble
   * and nothing else.
   */
  lemma {:induction false} DelvalCorrect(w: seq<u32>, h: Heap, x: u64, s: nat)
    requires ValidWith(w, h) && Slot(w, x) == Some(s)
    requires s < |w| && !IsNode(w[s]) && CellInRange(w, s)
    ensures ValidWith(Delval(w, s), ReleaseHeap(w, h, s))
    ensures Lookup(Delval(w, s), x) == None && Get(Delval(w, s), x) == None
    ensures forall z: u64 :: z != x ==> Get(Delval(w, s), z) == Get(w, z)
    ensures Delval(w, s)[s] == Low4(w[s])
    ensures OwnsCell(w[s]) ==> Delval(w, s)[FREE] == ValueBits(w[s])
  {
    LeafSlot(w, h, x, s);
    var w1, h1 := Release(w, s), ReleaseHeap(w, h, s);
    if OwnsCell(w[s]) {
      ReleaseStep(w, h, x, s);
    } else {
      StepRefl(w, h, x, s);
    }
    var w2 := w1[s := Low4(w[s])];
    SlotWrite(w, h, w1, h1, x, s, Low4(w[s]));
    assert w2 == Delval(w, s);
    StepValid(w, h, w2, h1, x, s);
  }

  // ----- imap_setval

  /** Writing x's own cell `k`. */
  lemma {:induction false} CellWriteStep(w: seq<u32>, h: Heap, w1: seq<u32>, h1: Heap, x: u64, s: nat, k: nat, y: u64)
    requires ValueStep(w, h, w1, h1, x, s) && Mid(w1, h1) && |h.kinds| == |w| / 16
    requires 16 <= s && s / 16 < |h.kinds| && h.kinds[s / 16] == Node
    requires k in h1.owner && h1.owner[k] == x && 2 * k + 1 < |w1|
    ensures ValueStep(w, h, WriteCell(w1, k, y), h1, x, s) && Mid(WriteCell(w1, k, y), h1)
  {
    var w2 := WriteCell(w1, k, y);
    CellWords(h1, k, |w1|);
    assert KindKept(h, h1, s / 16);
    forall i: nat | i < |w| && i / 16 < |h.kinds| && h.kinds[i / 16] == Node && i != s
      ensures Kept(w, w2, i)
    {
      assert Kept(w, w1, i) && KindKept(h, h1, i / 16);
    }
    forall j: nat | j in h.owner && h.owner[j] != x
      ensures CellSame(w, h, w2, h1, j)
    {
      assert CellSame(w, h, w1, h1, j);
    }
    forall i | 0 <= i < |h1.free|
      ensures FreeCell(w2, h1, i)
    {
      assert FreeCell(w1, h1, i);
    }
  }

  /** Popping the free-list head `k` for key `x`. */
  lemma {:induction false} PopStep(w: seq<u32>, h: Heap, w1: seq<u32>, h1: Heap, x: u64, s: nat)
    requires ValueStep(w, h, w1, h1, x, s) && Mid(w1, h1) && w1[FREE] != 0
    requires 16 <= s && s / 16 < |h.kinds| && h.kinds[s / 16] == Node
    ensures |h1.free| > 0 && w1[FREE] == 64 * h1.free[0] && Payload(w1[FREE]) == h1.free[0]
    ensures 0 < h1.free[0] < SCALAR_LIMIT && 2 * h1.free[0] + 1 < |w1|
    ensures ValueStep(w, h, PopCell(w1).0, PopHeap(w1, h1, x), x, s) && Mid(PopCell(w1).0, PopHeap(w1, h1, x))
  {
    var k := h1.free[0];
    assert FreeCell(w1, h1, 0);
    var w2, h2 := PopCell(w1).0, PopHeap(w1, h1, x);
    assert h2.free == h1.free[1..];
    CellWords(h1, k, |w1|);
    forall b: nat | b < |h.kinds| && h.kinds[b] != Unused
      ensures KindKept(h, h2, b)
    {
      assert KindKept(h, h1, b);
    }
    forall i: nat | i < |w| && i / 16 < |h.kinds| && h.kinds[i / 16] == Node && i != s
      ensures Kept(w, w2, i)
    {
      assert Kept(w, w1, i) && KindKept(h, h1, i / 16);
    }
    assert KindKept(h, h1, s / 16);
    forall j: nat | j in h.owner && h.owner[j] != x
      ensures CellSame(w, h, w2, h2, j)
    {
      assert CellSame(w, h, w1, h1, j);
    }
    forall i | 0 <= i < |h2.free|
      ensures FreeCell(w2, h2, i)
    {
      assert FreeCell(w1, h1, i + 1);
      CellWords(h1, h1.free[i + 1], |w1|);
    }
    forall i, j | 0 <= i < j < |h2.free|
      ensures h2.free[i] != h2.free[j]
    {
      assert h2.free[i] == h1.free[i + 1] && h2.free[j] == h1.free[j + 1];
    }
  }

  /** Word `16 b + 2 j` of the fresh value block links cell `8 b + j` to the next one, the last to none. */
  predicate AllocLink(w: seq<u32>, b: nat, j: nat)
  {
    16 * b + 2 * j < |w| && w[16 * b + 2 * j] == if j == 7 then 0 else 64 * (8 * b + j + 1)
  }

  /** The words imap__alloc_values__ writes, for a mark below 2^29 where `mark << 3` does not wrap. */
  lemma {:induction false} AllocWords(w: seq<u32>)
    requires HeaderOK(w) && w[MARK] + 64 <= w[SIZE] && w[MARK] + 64 <= 0x2000_0000
    ensures var wa, b := AllocValues(w).0, w[MARK] / 64;
      1 <= b < |w| / 16 && w[MARK] / 4 == 16 * b && 8 * b + 7 < SCALAR_LIMIT &&
      wa[ROOT] == w[ROOT] && wa[FREE] == 512 * b && wa[MARK] == w[MARK] + 64 && wa[SIZE] == w[SIZE] &&
      (forall i :: 4 <= i < |w| && i / 16 != b ==> Kept(w, wa, i)) &&
      (forall j :: 0 <= j < 8 ==> AllocLink(wa, b, j))
  {
    var m := w[MARK];
    var b := m / 64;
    MarkBlocks(m, |w|, 1);
    var f := m * 8 % U32_LIMIT;
    assert f == 512 * b;
    var w1 := w[MARK := m + 64][FREE := f];
    var wa := PutBlock(w1, 16 * b, CellChain(f));
    assert wa == AllocValues(w).0;
    forall i | 4 <= i < |w| && i / 16 != b
      ensures Kept(w, wa, i)
    {
      BlockWord(w1, 16 * b, CellChain(f), i);
    }
    forall j | 0 <= j < 8
      ensures AllocLink(wa, b, j)
    {
      ChainWord(f, b, j);
      BlockWord(w1, 16 * b, CellChain(f), 16 * b + 2 * j);
    }
  }

  /** One word of PutBlock: inside the block it comes from `blk`, outside it is kept. */
  lemma {:induction false} BlockWord(w: seq<u32>, c: nat, blk: seq<u32>, i: nat)
    requires c + 16 <= |w| && |blk| == 16 && i < |w|
    ensures PutBlock(w, c, blk)[i] == if c <= i < c + 16 then blk[i - c] else w[i]
  {
  }

  /** The low word of cell `j` of the chain starting at `f`. */
  lemma {:induction false} ChainWord(f: u32, b: nat, j: nat)
    requires f == 512 * b && 512 * b + 512 <= U32_LIMIT && j < 8
    ensures CellChain(f)[2 * j] == if j == 7 then 0 else 64 * (8 * b + j + 1)
  {
  }

  /** imap__alloc_values__ with an empty free list: the block at the mark becomes eight free cells. */
  lemma {:induction false} AllocStep(w: seq<u32>, h: Heap, x: u64, s: nat)
    requires Mid(w, h) && SlotFacts(w, h, x, s) && w[FREE] == 0
    requires w[MARK] + 64 <= w[SIZE] && w[MARK] + 64 <= 0x2000_0000
    ensures ValueStep(w, h, AllocValues(w).0, AllocHeap(w, h), x, s)
    ensures Mid(AllocValues(w).0, AllocHeap(w, h)) && AllocValues(w).0[FREE] != 0
  {
    var b := w[MARK] / 64;
    AllocWords(w);
    AllocKept(w, h, AllocValues(w).0, AllocHeap(w, h), x, s, b);
    AllocMid(w, h, AllocValues(w).0, AllocHeap(w, h), b);
  }

  /** Claiming the unused block `b` for value cells is a value step. */
  lemma {:induction false} AllocKept(w: seq<u32>, h: Heap, wa: seq<u32>, ha: Heap, x: u64, s: nat, b: nat)
    requires 16 <= |w| && |wa| == |w| && SlotFacts(w, h, x, s) && OwnersOK(h) && |h.kinds| == |w| / 16
    requires h.kinds[0] == Header
    requires b < |h.kinds| && h.kinds[b] == Unused && ha.kinds == h.kinds[b := Values] && ha.owner == h.owner
    requires wa[ROOT] == w[ROOT] && forall i :: 4 <= i < |w| && i / 16 != b ==> Kept(w, wa, i)
    ensures ValueStep(w, h, wa, ha, x, s)
  {
    forall b2: nat | b2 < |h.kinds| && h.kinds[b2] != Unused
      ensures KindKept(h, ha, b2)
    {
    }
    forall i: nat | i < |w| && i / 16 < |h.kinds| && h.kinds[i / 16] == Node && i != s
      ensures Kept(w, wa, i)
    {
    }
    assert Kept(w, wa, s);
    forall j: nat | j in h.owner && h.owner[j] != x
      ensures CellSame(w, h, wa, ha, j)
    {
      CellWords(h, j, |w|);
      assert Kept(w, wa, 2 * j) && Kept(w, wa, 2 * j + 1);
    }
  }

  /** The state after imap__alloc_values__: the mark moved past block `b`, whose cells form the free list. */
  lemma {:induction false} AllocMid(w: seq<u32>, h: Heap, wa: seq<u32>, ha: Heap, b: nat)
    requires HeaderOK(w) && KindsOK(w, h) && OwnersOK(h) && b == w[MARK] / 64 && 1 <= b < |w| / 16
    requires 8 * b + 7 < SCALAR_LIMIT && h.kinds[b] == Unused
    requires |wa| == |w| && wa[FREE] == 512 * b && wa[MARK] == w[MARK] + 64 <= w[SIZE] && wa[SIZE] == w[SIZE]
    requires ha == Heap(h.kinds[b := Values], h.owner, seq(8, i => 8 * b + i))
    requires forall j :: 0 <= j < 8 ==> AllocLink(wa, b, j)
    ensures Mid(wa, ha)
  {
    forall k | k in ha.owner
      ensures CellSpot(ha, k)
    {
      assert CellSpot(h, k);
    }
    forall i | 0 <= i < |ha.free|
      ensures FreeCell(wa, ha, i)
    {
      assert AllocLink(wa, b, i);
    }
  }

  /** The cell imap_setval takes for key `x`: the free-list head, after imap__alloc_values__ when there is none. */
  lemma {:induction false} TakeStep(w: seq<u32>, h: Heap, x: u64, s: nat)
    requires Mid(w, h) && SlotFacts(w, h, x, s) && TakeOK(w)
    requires w[FREE] == 0 ==> w[MARK] + 64 <= 0x2000_0000
    ensures ValueStep(w, h, TakeCell(w).0, TakeHeap(w, h, x), x, s) && Mid(TakeCell(w).0, TakeHeap(w, h, x))
    ensures 0 < Payload(TakeCell(w).1) < SCALAR_LIMIT && TakeCell(w).1 == 64 * Payload(TakeCell(w).1)
    ensures Payload(TakeCell(w).1) in TakeHeap(w, h, x).owner && TakeHeap(w, h, x).owner[Payload(TakeCell(w).1)] == x
  {
    if w[FREE] == 0 {
      AllocStep(w, h, x, s);
      PopStep(w, h, AllocValues(w).0, AllocHeap(w, h), x, s);
    } else {
      StepRefl(w, h, x, s);
      PopStep(w, h, w, h, x, s);
    }
  }

  /**
   * imap_setval on key x's slot keeps the invariant and gives x the value
   * `y`; every other key keeps its value and the slot its prefix nibble.
   * When the free list is empty the mark must stay below 2^29, where
   * `mark << 3` still names the new cells.
   */
  lemma {:induction false} SetvalCorrect(w: seq<u32>, h: Heap, x: u64, s: nat, y: u64)
    requires ValidWith(w, h) && Slot(w, x) == Some(s)
    requires s < |w| && !IsNode(w[s]) && CellInRange(w, s)
    requires y >= SCALAR_LIMIT && !OwnsCell(w[s]) ==> TakeOK(w)
    requires y >= SCALAR_LIMIT && !OwnsCell(w[s]) && w[FREE] == 0 ==> w[MARK] + 64 <= 0x2000_0000
    ensures ValidWith(Setval(w, s, y), SetHeap(w, h, s, x, y))
    ensures Lookup(Setval(w, s, y), x) == Some(s) && Get(Setval(w, s, y), x) == Some(y)
    ensures forall z: u64 :: z != x ==> Get(Setval(w, s, y), z) == Get(w, z)
    ensures Low4(Setval(w, s, y)[s]) == Low4(w[s])
  {
    if y < SCALAR_LIMIT {
      SetScalar(w, h, x, s, y);
    } else if OwnsCell(w[s]) {
      SetOwned(w, h, x, s, y);
    } else {
      SetTaken(w, h, x, s, y);
    }
  }

  /** A small value goes inline, after the slot gives back its cell. */
  lemma {:induction false} SetScalar(w: seq<u32>, h: Heap, x: u64, s: nat, y: u64)
    requires ValidWith(w, h) && Slot(w, x) == Some(s)
    requires s < |w| && !IsNode(w[s]) && CellInRange(w, s)
    requires y >= SCALAR_LIMIT && !OwnsCell(w[s]) ==> TakeOK(w)
    requires y >= SCALAR_LIMIT && !OwnsCell(w[s]) && w[FREE] == 0 ==> w[MARK] + 64 <= 0x2000_0000
    requires y < SCALAR_LIMIT
    ensures ValidWith(Setval(w, s, y), SetHeap(w, h, s, x, y))
    ensures Lookup(Setval(w, s, y), x) == Some(s) && Get(Setval(w, s, y), x) == Some(y)
    ensures forall z: u64 :: z != x ==> Get(Setval(w, s, y), z) == Get(w, z)
    ensures Low4(Setval(w, s, y)[s]) == Low4(w[s])
  {
    LeafSlot(w, h, x, s);
    var l := Low4(w[s]);
    var w1, h1 := Release(w, s), ReleaseHeap(w, h, s);
    if OwnsCell(w[s]) {
      ReleaseStep(w, h, x, s);
    } else {
      StepRefl(w, h, x, s);
    }
    ScalarWord(l, y);
    var w2 := w1[s := l + 32 + 64 * y];
    SetScalarIs(w, s, y);
    SlotWrite(w, h, w1, h1, x, s, l + 32 + 64 * y);
    StepValid(w, h, w2, h1, x, s);
    SlotValue(w2, x, s);
  }

  lemma {:induction false} SetScalarIs(w: seq<u32>, s: nat, y: u64)
    requires HeaderOK(w) && s < |w| && !IsNode(w[s]) && CellInRange(w, s) && y < SCALAR_LIMIT
    ensures var w1 := Release(w, s); Setval(w, s, y) == w1[s := Low4(w1[s]) + 32 + 64 * y]
  {
  }

  /** A slot with a value answers the lookup of its key with that value. */
  lemma {:induction false} SlotValue(w: seq<u32>, x: u64, s: nat)
    requires |w| >= 16 && Slot(w, x) == Some(s) && s < |w| && !IsNode(w[s]) && Hasval(w, s) && CellInRange(w, s)
    ensures Lookup(w, x) == Some(s) && Get(w, x) == Some(Getval(w, s))
  {
  }

  /** A large value goes into the cell the slot already owns. */
  lemma {:induction false} SetOwned(w: seq<u32>, h: Heap, x: u64, s: nat, y: u64)
    requires ValidWith(w, h) && Slot(w, x) == Some(s)
    requires s < |w| && !IsNode(w[s]) && CellInRange(w, s)
    requires y >= SCALAR_LIMIT && !OwnsCell(w[s]) ==> TakeOK(w)
    requires y >= SCALAR_LIMIT && !OwnsCell(w[s]) && w[FREE] == 0 ==> w[MARK] + 64 <= 0x2000_0000
    requires y >= SCALAR_LIMIT && OwnsCell(w[s])
    ensures ValidWith(Setval(w, s, y), SetHeap(w, h, s, x, y))
    ensures Lookup(Setval(w, s, y), x) == Some(s) && Get(Setval(w, s, y), x) == Some(y)
    ensures forall z: u64 :: z != x ==> Get(Setval(w, s, y), z) == Get(w, z)
    ensures Low4(Setval(w, s, y)[s]) == Low4(w[s])
  {
    LeafSlot(w, h, x, s);
    var l := Low4(w[s]);
    var k := Payload(w[s]);
    Or4Facts(l);
    assert w[s := OrLow(l, w[s])] == w;
    var w2 := WriteCell(w, k, y);
    assert Setval(w, s, y) == w2;
    StepRefl(w, h, x, s);
    CellWriteStep(w, h, w, h, x, s, k, y);
    StepValid(w, h, w2, h, x, s);
    SlotValue(w2, x, s);
  }

  /** A large value goes into a cell taken from the free list. */
  lemma {:induction false} SetTaken(w: seq<u32>, h: Heap, x: u64, s: nat, y: u64)
    requires ValidWith(w, h) && Slot(w, x) == Some(s)
    requires s < |w| && !IsNode(w[s]) && CellInRange(w, s)
    requires y >= SCALAR_LIMIT && !OwnsCell(w[s]) ==> TakeOK(w)
    requires y >= SCALAR_LIMIT && !OwnsCell(w[s]) && w[FREE] == 0 ==> w[MARK] + 64 <= 0x2000_0000
    requires y >= SCALAR_LIMIT && !OwnsCell(w[s])
    ensures ValidWith(Setval(w, s, y), SetHeap(w, h, s, x, y))
    ensures Lookup(Setval(w, s, y), x) == Some(s) && Get(Setval(w, s, y), x) == Some(y)
    ensures forall z: u64 :: z != x ==> Get(Setval(w, s, y), z) == Get(w, z)
    ensures Low4(Setval(w, s, y)[s]) == Low4(w[s])
  {
    LeafSlot(w, h, x, s);
    var l := Low4(w[s]);
    var w1, sval := TakeCell(w).0, TakeCell(w).1;
    var k := Payload(sval);
    TakeStep(w, h, x, s);
    SetTakenIs(w, s, y);
    CellWord(l, k);
    assert OrLow(Low4(w1[s]), sval) == l + 64 * k;
    SetInCell(w, h, w1, SetHeap(w, h, s, x, y), x, s, k, y, Setval(w, s, y));
  }

  /** Pointing x's slot at its cell `k` and writing `y` there finishes imap_setval. */
  lemma {:induction false} SetInCell(w: seq<u32>, h: Heap, w1: seq<u32>, h1: Heap, x: u64, s: nat, k: nat, y: u64, w3: seq<u32>)
    requires ValidWith(w, h) && Slot(w, x) == Some(s) && SlotFacts(w, h, x, s)
    requires ValueStep(w, h, w1, h1, x, s) && Mid(w1, h1)
    requires 0 < k < SCALAR_LIMIT && k in h1.owner && h1.owner[k] == x && 2 * k + 1 < |w1|
    requires w3 == WriteCell(w1[s := Low4(w[s]) + 64 * k], k, y)
    ensures ValidWith(w3, h1) && Lookup(w3, x) == Some(s) && Get(w3, x) == Some(y)
    ensures forall z: u64 :: z != x ==> Get(w3, z) == Get(w, z)
    ensures Low4(w3[s]) == Low4(w[s])
  {
    var l := Low4(w[s]);
    CellWord(l, k);
    SlotWrite(w, h, w1, h1, x, s, l + 64 * k);
    var w2 := w1[s := l + 64 * k];
    assert KindKept(h, h1, s / 16);
    NotNodeWord(h1, k, |w1|, s);
    assert w3[s] == l + 64 * k;
    CellWriteStep(w, h, w2, h1, x, s, k, y);
    StepValid(w, h, w3, h1, x, s);
    SlotValue(w3, x, s);
  }

  lemma {:induction false} SetTakenIs(w: seq<u32>, s: nat, y: u64)
    requires HeaderOK(w) && s < |w| && !IsNode(w[s]) && CellInRange(w, s) && TakeOK(w)
    requires y >= SCALAR_LIMIT && !OwnsCell(w[s])
    ensures var (w1, sval) := TakeCell(w);
      Setval(w, s, y) == WriteCell(w1[s := OrLow(Low4(w1[s]), sval)], Payload(sval), y)
  {
  }

  // ----- imap_assign followed by imap_setval

  /**
   * The way the library is used: imap_assign gives x a slot, which is empty
   * when x is new, and imap_setval on that slot makes x map to y and leaves
   * every other key's value alone. A new cell is needed only when y is not
   * an inline scalar and the slot owns none; then the header must leave room
   * for a new block of cells when the free list is empty.
   */
  lemma {:induction false} AssignSetval(w: seq<u32>, h: Heap, x: u64, y: u64, w1: seq<u32>, s: nat)
    requires ValidWith(w, h) && NodeRoom(w, x)
    requires (ValidNotStuck(w, h, x); Assign(w, x) == (w1, s))
    requires y >= SCALAR_LIMIT && w1[FREE] == 0 && !(s < |w1| && OwnsCell(w1[s])) ==>
      w1[MARK] + 64 <= w1[SIZE] && w1[MARK] + 64 <= 0x2000_0000
    ensures HeaderOK(w1) && Slot(w1, x) == Some(s)
    ensures s < |w1| && !IsNode(w1[s]) && CellInRange(w1, s)
    ensures Slot(w, x).None? ==> !Hasval(w1, s) && Getval(w1, s) == 0
    ensures y >= SCALAR_LIMIT && !OwnsCell(w1[s]) ==> TakeOK(w1)
    ensures ValidWith(Setval(w1, s, y), SetHeap(w1, AssignHeap(w, h, x), s, x, y))
    ensures Get(Setval(w1, s, y), x) == Some(y)
    ensures forall z: u64 :: z != x ==> Get(Setval(w1, s, y), z) == Get(w, z)
  {
    AssignCorrect(w, h, x);
    var h1 := AssignHeap(w, h, x);
    FreeHead(w1, h1, x, s);
    if Slot(w, x).None? {
      VacantEmpty(w1, s);
    }
    SetvalCorrect(w1, h1, x, s, y);
  }

  /** A slot holding only its flag bits has no value, and imap_getval reads 0 from it. */
  lemma {:induction false} VacantEmpty(w: seq<u32>, s: nat)
    requires Vacant(w, s)
    ensures !IsNode(w[s]) && CellInRange(w, s) && !Hasval(w, s) && Getval(w, s) == 0
  {
    assert w[s] / 16 == 0 && w[s] / 32 == 0 && w[s] / 64 == 0;
  }

  /** The slot of a key is a value slot, and a non-empty free list starts at a real cell. */
  lemma {:induction false} FreeHead(w: seq<u32>, h: Heap, x: u64, s: nat)
    requires ValidWith(w, h) && Slot(w, x) == Some(s)
    ensures s < |w| && !IsNode(w[s]) && CellInRange(w, s)
    ensures w[FREE] != 0 ==> 2 * Payload(w[FREE]) + 1 < |w|
  {
    LeafSlot(w, h, x, s);
    if w[FREE] != 0 {
      assert FreeCell(w, h, 0);
    }
  }
}
