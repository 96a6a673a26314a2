// The prefix of a new inner node as imap.h computes it: imap__xpfx__
// returns a 32-bit word, so the prefix loses every nibble above the 8th.

module Findings {
  import opened Bits
  import opened Layout
  import opened Tree
  import opened TreeAssign
  import opened AssignValid
  import opened TreeEnsure
  import opened TreeValues

  /** `imap__xpfx__(pfx, diff) | diff` as written: the prefix is cut to 32 bits before `diff` is or-ed in. */
  function SplitPrefixAsWritten(pfx: u64, diff: nibble): (r: u64)
    ensures r % 16 == diff && r < U32_LIMIT
  {
    XpfxLow(pfx, diff);
    CutLow(Xpfx(pfx, diff));
    Xpfx(pfx, diff) % U32_LIMIT + diff
  }

  /** Cutting a multiple of 16 to 32 bits leaves a multiple of 16 with room for a nibble. */
  lemma {:induction false} CutLow(a: nat)
    requires a % 16 == 0
    ensures (a % U32_LIMIT) % 16 == 0 && a % U32_LIMIT + 16 <= U32_LIMIT
  {
    var q, c := a / U32_LIMIT, a % U32_LIMIT;
    assert a == U32_LIMIT * q + c;
    assert U32_LIMIT * q == 16 * (0x1000_0000 * q);
  }

  lemma {:induction false} XpfxBelow(x: nat, pos: nibble)
    ensures Xpfx(x, pos) <= x
  {
    if pos != 0 {
      XpfxBelow(x / 16, pos - 1);
    }
  }

  /** For prefixes below 2^32, as in every test of the library, the truncation is harmless. */
  lemma {:induction false} SplitPrefixAgrees(pfx: u64, diff: nibble)
    requires pfx < U32_LIMIT
    ensures SplitPrefixAsWritten(pfx, diff) == SplitPrefix(pfx, diff)
  {
    XpfxBelow(pfx, diff);
  }

  // ----- imap_assign as written

  /** The new inner node as imap_assign builds it, with the 32-bit prefix. */
  function InnerBlockAsWritten(sval: u32, pfx: u64, x: u64, diff: nibble, leaf: nat): (r: seq<u32>)
    requires 16 + leaf < U32_LIMIT
    ensures |r| == 16
  {
    Unpacklo4(Zeros()[Xdir(pfx, diff) := sval][Xdir(x, diff) := 16 + leaf], SplitPrefixAsWritten(pfx, diff))
  }

  /** HangInner with the inner node as imap_assign builds it. */
  function HangInnerAsWritten(w: seq<u32>, s: nat, n: nat, diff: nibble, x: u64): (r: seq<u32>)
    requires |w| >= 16 && Room(w, 2) && s < |w| && n + 16 <= |w|
    ensures |r| == |w|
  {
    var m := w[MARK];
    var w1 := w[MARK := m + 128][s := PointTo(w[s], m)];
    var w2 := PutBlock(w1, m / 4, InnerBlockAsWritten(w[s], Prefix(w, n), x, diff, m + 64));
    PutBlock(w2, m / 4 + 16, LeafBlock(x))
  }

  /** imap_assign as written: Assign, except that a split gives the new inner node the 32-bit prefix. */
  function AssignAsWritten(w: seq<u32>, x: u64): (r: (seq<u32>, nat))
    requires HeaderOK(w) && Fits(w, x)
    ensures |r.0| == |w|
  {
    var p := Locate(w, x, 0, 0, 16);
    if p.Split? then (HangInnerAsWritten(w, p.node + p.dir, p.child, p.diff, x), w[MARK] / 4 + 16 + x % 16)
    else AssignAt(w, x, p)
  }

  /** As written and corrected, imap_assign build the same buffer when the child a split displaces has a 32-bit prefix. */
  lemma {:induction false} AssignAgrees(w: seq<u32>, x: u64)
    requires HeaderOK(w) && Fits(w, x)
    requires Locate(w, x, 0, 0, 16).Split? ==> Prefix(w, Locate(w, x, 0, 0, 16).child) < U32_LIMIT
    ensures AssignAsWritten(w, x).0 == Assign(w, x).0 && AssignAsWritten(w, x).1 == Assign(w, x).1
  {
    var p := Locate(w, x, 0, 0, 16);
    if p.Split? {
      assert Room(w, 2);
      var s := p.node + p.dir;
      HangInnerAgrees(w, s, p.child, p.diff, x);
      AssignIsSplit(w, x, p.node, p.dir, p.pos, p.child, p.diff);
      assert AssignAsWritten(w, x).0 == HangInnerAsWritten(w, s, p.child, p.diff, x);
    }
  }

  lemma {:induction false} HangInnerAgrees(w: seq<u32>, s: nat, n: nat, diff: nibble, x: u64)
    requires |w| >= 16 && Room(w, 2) && s < |w| && n + 16 <= |w| && Prefix(w, n) < U32_LIMIT
    ensures HangInnerAsWritten(w, s, n, diff, x) == HangInner(w, s, n, diff, x)
  {
    InnerBlockAgrees(w[s], Prefix(w, n), x, diff, w[MARK] + 64);
  }

  lemma {:induction false} InnerBlockAgrees(sval: u32, pfx: u64, x: u64, diff: nibble, leaf: nat)
    requires 16 + leaf < U32_LIMIT && pfx < U32_LIMIT
    ensures InnerBlockAsWritten(sval, pfx, x, diff, leaf) == InnerBlock(sval, pfx, x, diff, leaf)
  {
    SplitPrefixAgrees(pfx, diff);
  }

  /** Every tree node's prefix fits in 32 bits, as it does while every key does. */
  ghost predicate Narrow(w: seq<u32>, h: Heap)
  {
    forall c: nat :: InNode(h, c) && c + 16 <= |w| ==> Prefix(w, c) < U32_LIMIT
  }

  /** A new tree has no tree node, so its prefixes are narrow. */
  lemma {:induction false} NarrowNew(size: nat)
    requires 64 <= size <= 0x8000_0000 && size % 64 == 0
    ensures Narrow(NewTree(size), EmptyHeap(size))
  {
  }

  /** A node's cleared prefix with its position or-ed in stays below 16^k when the position is below k. */
  lemma {:induction false} XpfxRoom(x: nat, pos: nibble, k: nat)
    requires x < Pow16(k) && pos < k
    ensures Xpfx(x, pos) + 16 <= Pow16(k)
  {
    if pos != 0 {
      XpfxRoom(x / 16, pos - 1, k - 1);
    }
  }

  /** Two numbers below 2^32 differ at most at nibble 7, so a node splitting them has a 32-bit prefix. */
  lemma {:induction false} SplitNarrow(pfx: u64, x: u64, diff: nibble)
    requires pfx < U32_LIMIT && x < U32_LIMIT
    requires AgreeAbove(x, pfx, diff) && Xdir(x, diff) != Xdir(pfx, diff)
    ensures SplitPrefix(pfx, diff) < U32_LIMIT
  {
    assert Pow16(8) == U32_LIMIT;
    if diff >= 8 {
      XdirHigh(pfx, 8, diff);
      XdirHigh(x, 8, diff);
      assert false;
    }
    XpfxRoom(pfx, diff, 8);
  }

  /**
   * After `k` nodes are hung at the mark and the slot `s` is rewired, the
   * prefixes stay narrow when those of the new nodes are.
   */
  lemma {:induction false} NarrowGrown(w: seq<u32>, h: Heap, w2: seq<u32>, k: nat, s: nat)
    requires HeaderOK(w) && KindsOK(w, h) && Room(w, k) && 1 <= k <= 2 && |w2| == |w|
    requires Narrow(w, h) && Rewired(w, h, w2, Grow(w, h, k), s)
    requires w[MARK] / 4 + 16 * k <= |w|
    requires Prefix(w2, w[MARK] / 4) < U32_LIMIT
    requires k == 2 ==> Prefix(w2, w[MARK] / 4 + 16) < U32_LIMIT
    ensures Narrow(w2, Grow(w, h, k))
  {
    var h2 := Grow(w, h, k);
    MarkBlocks(w[MARK], |w|, k);
    forall c: nat | InNode(h2, c) && c + 16 <= |w2|
      ensures Prefix(w2, c) < U32_LIMIT
    {
      if c != w[MARK] / 4 && c != w[MARK] / 4 + 16 {
        assert InNode(h, c);
        PrefixRewired(w, h, w2, h2, s, c);
      }
    }
  }

  /** Hanging a leaf for a 32-bit key keeps every prefix narrow. */
  lemma {:induction false} NarrowAttach(w: seq<u32>, h: Heap, x: u64, cs: nat, d: nibble, ps: nat)
    requires HeaderOK(w) && KindsOK(w, h) && Narrow(w, h) && x < U32_LIMIT
    requires Fits(w, x) && Locate(w, x, 0, 0, 16) == Attach(cs, d, ps) && AttachSpot(w, h, x, cs, d, ps)
    ensures Narrow(Assign(w, x).0, AssignHeap(w, h, x))
  {
    HeapIsGrown(w, h, x);
    AssignIsAttach(w, x, cs, d, ps);
    LeafNarrow(w, h, x, cs, d, ps);
  }

  /** Hanging the leaf for a 32-bit key at an empty slot keeps every prefix narrow. */
  lemma {:induction false} LeafNarrow(w: seq<u32>, h: Heap, x: u64, cs: nat, d: nibble, ps: nat)
    requires HeaderOK(w) && KindsOK(w, h) && AttachSpot(w, h, x, cs, d, ps) && Room(w, 1) && x < U32_LIMIT
    requires Narrow(w, h)
    ensures Narrow(HangLeaf(w, cs + d, x), Grow(w, h, 1))
  {
    var w2 := HangLeaf(w, cs + d, x);
    LeafBuiltNarrow(w, h, w2, x, cs, d, ps);
    NarrowGrown(w, h, w2, 1, cs + d);
  }

  /** The leaf hung for a 32-bit key has a 32-bit prefix, and the rest of the buffer is rewired. */
  lemma {:induction false} LeafBuiltNarrow(w: seq<u32>, h: Heap, w2: seq<u32>, x: u64, cs: nat, d: nibble, ps: nat)
    requires HeaderOK(w) && KindsOK(w, h) && AttachSpot(w, h, x, cs, d, ps) && Room(w, 1) && x < U32_LIMIT
    requires w2 == HangLeaf(w, cs + d, x)
    ensures |w2| == |w| && w[MARK] / 4 + 16 <= |w| && Rewired(w, h, w2, Grow(w, h, 1), cs + d)
    ensures Prefix(w2, w[MARK] / 4) < U32_LIMIT
  {
    SlotBelowMark(w, h, x, cs, d, ps);
    HangLeafWords(w, cs + d, x);
    HangLeafBuilt(w, h, w2, x, cs, d, ps);
    XpfxBelow(x, 0);
  }

  /** Splitting above a node for a 32-bit key keeps every prefix narrow. */
  lemma {:induction false} NarrowSplit(w: seq<u32>, h: Heap, x: u64, cs: nat, d: nibble, ps: nat, n: nat, diff: nibble)
    requires ValidWith(w, h) && Narrow(w, h) && x < U32_LIMIT
    requires Fits(w, x) && Locate(w, x, 0, 0, 16) == Split(cs, d, ps, n, diff)
    ensures Narrow(Assign(w, x).0, AssignHeap(w, h, x))
  {
    SplitInside(w, h, x, cs, d, ps, n, diff);
    SplitLanded(w, h, x, cs, d, ps, n, diff);
    HeapIsGrown(w, h, x);
    AssignIsSplit(w, x, cs, d, ps, n, diff);
    NarrowInner(w, h, x, cs, d, ps, n, diff);
  }

  /** The two nodes of a split for a 32-bit key have narrow prefixes. */
  lemma {:induction false} NarrowInner(w: seq<u32>, h: Heap, x: u64, cs: nat, d: nibble, ps: nat, n: nat, diff: nibble)
    requires HeaderOK(w) && KindsOK(w, h) && SplitSpot(w, h, x, cs, d, ps, n, diff) && Room(w, 2)
    requires Narrow(w, h) && x < U32_LIMIT
    ensures Narrow(HangInner(w, cs + d, n, diff, x), Grow(w, h, 2))
  {
    assert Prefix(w, n) < U32_LIMIT;
    var w2 := HangInner(w, cs + d, n, diff, x);
    SplitNodesNarrow(w, h, w2, x, cs, d, ps, n, diff);
    NarrowGrown(w, h, w2, 2, cs + d);
  }

  /** The inner node and the leaf a split hangs have 32-bit prefixes, and the rest of the buffer is rewired. */
  lemma {:induction false} SplitNodesNarrow(w: seq<u32>, h: Heap, w2: seq<u32>, x: u64, cs: nat, d: nibble, ps: nat,
                                            n: nat, diff: nibble)
    requires HeaderOK(w) && KindsOK(w, h) && SplitSpot(w, h, x, cs, d, ps, n, diff) && Room(w, 2)
    requires Prefix(w, n) < U32_LIMIT && x < U32_LIMIT && w2 == HangInner(w, cs + d, n, diff, x)
    ensures |w2| == |w| && w[MARK] / 4 + 32 <= |w| && Rewired(w, h, w2, Grow(w, h, 2), cs + d)
    ensures Prefix(w2, w[MARK] / 4) < U32_LIMIT && Prefix(w2, w[MARK] / 4 + 16) < U32_LIMIT
  {
    var N := w[MARK] / 4;
    SplitBuilt(w, h, w2, x, cs, d, ps, n, diff, Grow(w, h, 2), N, N + 16);
    SplitNarrow(Prefix(w, n), x, diff);
    XpfxBelow(x, 0);
  }

  /**
   * On a tree whose prefixes fit in 32 bits, imap_assign as written does
   * what the corrected imap_assign does for a key below 2^32, and the
   * prefixes still fit.
   */
  lemma {:induction false} NarrowAssign(w: seq<u32>, h: Heap, x: u64)
    requires ValidWith(w, h) && Narrow(w, h) && NodeRoom(w, x) && x < U32_LIMIT
    ensures Fits(w, x)
    ensures AssignAsWritten(w, x).0 == Assign(w, x).0 && AssignAsWritten(w, x).1 == Assign(w, x).1
    ensures Narrow(Assign(w, x).0, AssignHeap(w, h, x))
  {
    ValidNotStuck(w, h, x);
    match Locate(w, x, 0, 0, 16)
    case Existing(t) =>
    case Attach(cs, d, ps) =>
      assert PathOK(w, h, x, 0, 0, 16);
      AttachFound(w, h, x, cs, d, ps);
      NarrowAttach(w, h, x, cs, d, ps);
    case Split(cs, d, ps, n, diff) =>
      SplitLanded(w, h, x, cs, d, ps, n, diff);
      NarrowSplit(w, h, x, cs, d, ps, n, diff);
    AssignAgrees(w, x);
  }

  /**
   * imap_assign as written, for a key below 2^32 on a tree whose prefixes
   * fit in 32 bits: the tree stays valid and narrow, keeps its map, and the
   * returned slot is the key's.
   */
  lemma {:induction false} AssignAsWrittenCorrect(w: seq<u32>, h: Heap, x: u64)
    requires ValidWith(w, h) && Narrow(w, h) && NodeRoom(w, x) && x < U32_LIMIT
    ensures Fits(w, x)
    ensures ValidWith(AssignAsWritten(w, x).0, AssignHeap(w, h, x))
    ensures Narrow(AssignAsWritten(w, x).0, AssignHeap(w, h, x))
    ensures Slot(AssignAsWritten(w, x).0, x) == Some(AssignAsWritten(w, x).1)
    ensures forall z: u64 :: Get(AssignAsWritten(w, x).0, z) == Get(w, z)
  {
    NarrowAssign(w, h, x);
    AssignCorrect(w, h, x);
  }

  /** The highest nibble at which `a` and `b` differ is `k`. */
  lemma {:induction false} XposIs(a: u64, b: u64, k: nibble)
    requires 0 < k && Xdir(a, k) != Xdir(b, k)
    requires forall q :: k < q < 16 ==> Xdir(a, q) == Xdir(b, q)
    ensures Xpos(Xor(a, b)) == k
  {
    XposXor(a, b);
  }

  /** Nibbles 9 and above of a number below 2^36 are zero. */
  lemma {:induction false} HighZero(x: nat)
    requires x < 0x10_0000_0000
    ensures forall q :: 9 <= q ==> Xdir(x, q) == 0
  {
    assert Pow16(9) == 0x10_0000_0000;
    forall q | 9 <= q
      ensures Xdir(x, q) == 0
    {
      XdirHigh(x, 9, q);
    }
  }

  /** Nibbles 2 to 8 of the three keys and of both prefixes. */
  lemma {:induction false} KeyNibbles()
    ensures forall q :: 2 <= q < 8 ==>
      Xdir(0x1_0000_0000, q) == 0 && Xdir(0x1_0000_0001, q) == 0 && Xdir(0x1_0000_0020, q) == 0
    ensures Xdir(0x1_0000_0000, 8) == 1 && Xdir(0x1_0000_0001, 8) == 1 && Xdir(0x1_0000_0020, 8) == 1
    ensures Xdir(1, 8) == 0 && Xdir(0x1_0000_0000, 1) == 0 && Xdir(0x1_0000_0010, 1) == 1
    ensures Xdir(0x1_0000_0001, 1) == 0 && Xdir(0x1_0000_0020, 1) == 2
  {
    KeyNibblesMiddle();
    KeyNibblesEight();
    XdirHigh(1, 1, 8);
  }

  /** Nibbles 2 to 7 of the three keys are zero. */
  lemma {:induction false} KeyNibblesMiddle()
    ensures forall q :: 2 <= q < 8 ==>
      Xdir(0x1_0000_0000, q) == 0 && Xdir(0x1_0000_0001, q) == 0 && Xdir(0x1_0000_0020, q) == 0
  {
    forall q | 2 <= q < 8
      ensures Xdir(0x1_0000_0000, q) == 0 && Xdir(0x1_0000_0001, q) == 0 && Xdir(0x1_0000_0020, q) == 0
    {
      assert Pow16(6) == 0x100_0000;
      assert Xdir(0x1_0000_0000, q) == Xdir(0x1000_0000, q - 1) == Xdir(0x100_0000, q - 2);
      assert Xdir(0x1_0000_0001, q) == Xdir(0x1000_0000, q - 1) == Xdir(0x100_0000, q - 2);
      assert Xdir(0x1_0000_0020, q) == Xdir(0x1000_0002, q - 1) == Xdir(0x100_0000, q - 2);
      PowNibble(6, q - 2);
    }
  }

  /** Nibble 8 of the three keys is one. */
  lemma {:induction false} KeyNibblesEight()
    ensures Xdir(0x1_0000_0000, 8) == 1 && Xdir(0x1_0000_0001, 8) == 1 && Xdir(0x1_0000_0020, 8) == 1
  {
    assert Xdir(0x1_0000_0000, 8) == Xdir(0x1000_0000, 7) == Xdir(0x100_0000, 6) == Xdir(0x10_0000, 5)
        == Xdir(0x1_0000, 4) == Xdir(0x1000, 3) == Xdir(0x100, 2) == Xdir(0x10, 1) == Xdir(1, 0) == 1;
    assert Xdir(0x1_0000_0001, 8) == Xdir(0x1000_0000, 7);
    assert Xdir(0x1_0000_0020, 8) == Xdir(0x1000_0002, 7) == Xdir(0x100_0000, 6);
  }

  /** Every nibble of 16^n below the n-th is zero. */
  lemma {:induction false} PowNibble(n: nat, r: nat)
    requires r < n
    ensures Xdir(Pow16(n), r) == 0
  {
    if r > 0 {
      PowNibble(n - 1, r - 1);
    }
  }

  /**
   * Keys 0x100000000, 0x100000010, 0x100000020 assigned in this order.
   * The second splits the first's leaf at nibble 1; as written the new inner
   * node's prefix is 1 instead of 0x100000001. The third then differs from
   * that prefix at nibble 8, so imap_assign splits again there and files the
   * old subtree under nibble 0, while the walk of the first key follows its
   * nibble 8, which is 1, into the third key's leaf: the first key is lost.
   * With the 64-bit prefix the third key differs at nibble 1 only and goes
   * into the existing inner node.
   */
  lemma {:induction false} SplitPrefixTruncates()
    ensures var a, b, c := 0x1_0000_0000, 0x1_0000_0010, 0x1_0000_0020;
      Xpos(Xor(a, b)) == 1 &&
      SplitPrefix(a, 1) == 0x1_0000_0001 && SplitPrefixAsWritten(a, 1) == 1 &&
      Xpos(Xor(SplitPrefix(a, 1), c)) == 1 &&
      Xpos(Xor(SplitPrefixAsWritten(a, 1), c)) == 8 &&
      Xdir(SplitPrefixAsWritten(a, 1), 8) == 0 && Xdir(a, 8) == 1 && Xdir(c, 8) == 1
  {
    SplitPrefixes();
    SplitKeys();
    SplitAgain();
    KeyNibbles();
  }

  /** The 64-bit and the 32-bit prefix of the node that splits 0x100000000 at nibble 1. */
  lemma {:induction false} SplitPrefixes()
    ensures SplitPrefix(0x1_0000_0000, 1) == 0x1_0000_0001
    ensures SplitPrefixAsWritten(0x1_0000_0000, 1) == 1
  {
    assert Xpfx(0x1_0000_0000, 1) == 16 * Xpfx(0x1000_0000, 0);
  }

  /** 0x100000000 and 0x100000010 first differ at nibble 1. */
  lemma {:induction false} SplitKeys()
    ensures Xpos(Xor(0x1_0000_0000, 0x1_0000_0010)) == 1
  {
    var a, b := 0x1_0000_0000, 0x1_0000_0010;
    KeyNibbles();
    HighZero(a);
    HighZero(b);
    forall q | 2 <= q < 16
      ensures Xdir(b, q) == Xdir(a, q)
    {
      assert Xdir(b, q) == Xdir(b / 256, q - 2);
      assert Xdir(a, q) == Xdir(a / 256, q - 2);
    }
    XposIs(a, b, 1);
  }

  /** 0x100000020 differs from the 64-bit prefix at nibble 1, from the 32-bit one at nibble 8. */
  lemma {:induction false} SplitAgain()
    ensures Xpos(Xor(0x1_0000_0001, 0x1_0000_0020)) == 1
    ensures Xpos(Xor(1, 0x1_0000_0020)) == 8
  {
    KeyNibbles();
    HighZero(0x1_0000_0001);
    HighZero(0x1_0000_0020);
    XposIs(0x1_0000_0001, 0x1_0000_0020, 1);
    HighZero(1);
    XposIs(1, 0x1_0000_0020, 8);
  }

  // ----- imap__alloc_values__ past 2^29

  /**
   * imap_setval of a large value on a slot without a cell, with an empty
   * free list and the mark at 2^29 + 64: `mark << 3` wraps to 512, so the
   * cell handed out is cell 8, words 16 and 17 in block 1, instead of the
   * first cell of the block just taken at the mark, and the value is
   * written over those two words.
   */
  lemma {:induction false} AllocWraps(w: seq<u32>, s: nat, y: u64)
    requires HeaderOK(w) && w[MARK] == 0x2000_0040 && w[FREE] == 0 && w[MARK] + 64 <= w[SIZE]
    requires s < |w| && !IsNode(w[s]) && CellInRange(w, s) && !OwnsCell(w[s]) && y >= SCALAR_LIMIT
    requires s != 16 && s != 17
    ensures AllocValues(w).1 == 512 && TakeCell(w).1 == 512 && Payload(512) == 8
    ensures 16 + 16 <= w[MARK] / 4
    ensures Setval(w, s, y)[16] == y % U32_LIMIT && Setval(w, s, y)[17] == y / U32_LIMIT
  {
    var (w1, sval) := TakeCell(w);
    assert sval == 512;
    assert Payload(512) == 8;
    var w2 := w1[s := OrLow(Low4(w1[s]), sval)];
    assert Setval(w, s, y) == WriteCell(w2, 8, y);
  }
}
