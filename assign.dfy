// imap_assign: find or create the slot of a key. The walk stops on a slot
// that is not a node pointer (a leaf slot, or an empty slot of an inner
// node, where a fresh leaf is hung) or on a child whose prefix differs from
// the key above the child's position (where a new inner node is put between
// the two). The new inner node's prefix is kept on all 64 bits (SplitPrefix);
// imap.h cuts it to 32 bits, which Findings models and bounds.

module TreeAssign {
  import opened Bits
  import opened Layout
  import opened Tree

  /** Where the walk of imap_assign for a key stops. */
  datatype Place =
    | Existing(slot: nat)
      // slot `dir` of node `node` (position `pos`) is empty: hang a leaf there
    | Attach(node: nat, dir: nibble, pos: nat)
      // slot `dir` of node `node` points to `child`, whose prefix differs
      // from the key at nibble `diff`: put a new node at position `diff` between
    | Split(node: nat, dir: nibble, pos: nat, child: nat, diff: nibble)
      // a pointer leaves the buffer or does not lower the position
    | Stuck

  /** The loop of imap_assign, from slot `dir` of node `c` at position `pos`. */
  function Locate(w: seq<u32>, x: u64, c: nat, dir: nibble, pos: nat): (r: Place)
    requires c + 16 <= |w|
    ensures r.Existing? ==> r.slot < |w|
    ensures r.Attach? ==> r.node + 16 <= |w|
    ensures r.Split? ==> r.node + 16 <= |w| && r.child + 16 <= |w|
    decreases pos
  {
    var sval := w[c + dir];
    if !IsNode(sval) then
      if pos == 0 then Existing(c + dir) else Attach(c, dir, pos)
    else
      var n := Child(sval);
      if n + 16 > |w| then Stuck
      else
        var q := Pos(w, n);
        var diff := Xpos(Xor(Prefix(w, n), x));
        if diff > q then Split(c, dir, pos, n, diff)
        else if q >= pos then Stuck
        else Locate(w, x, n, Xdir(x, q), q)
  }

  /** The number of 64-byte nodes imap_assign allocates at a place. */
  function Need(p: Place): nat
  {
    match p
    case Attach(_, _, _) => 1
    case Split(_, _, _, _, _) => 2
    case _ => 0
  }

  /** The nodes the walk of `x` needs fit below the buffer size (the assertion of imap__alloc_node__). */
  predicate NodeRoom(w: seq<u32>, x: u64)
    requires |w| >= 16
  {
    w[MARK] + 64 * Need(Locate(w, x, 0, 0, 16)) <= w[SIZE]
  }

  /** The walk ends, and the nodes it needs fit below the buffer size. */
  predicate Fits(w: seq<u32>, x: u64)
    requires |w| >= 16
  {
    var p := Locate(w, x, 0, 0, 16);
    !p.Stuck? && w[MARK] + 64 * Need(p) <= w[SIZE]
  }

  function Zeros(): (r: seq<u32>)
    ensures |r| == 16 && forall j :: 0 <= j < 16 ==> r[j] == 0
  {
    seq(16, _ => 0)
  }

  /** A fresh leaf for `x`: a zeroed node with prefix `x & ~0xf`. */
  function LeafBlock(x: u64): (r: seq<u32>)
    ensures |r| == 16
  {
    Unpacklo4(Zeros(), LeafPrefix(x))
  }

  /**
   * `imap__xpfx__(pfx, diff) | diff`, the prefix of a new inner node, kept
   * on all 64 bits: the corrected form of imap.h, whose imap__xpfx__
   * returns 32 bits (Findings.SplitPrefixAsWritten).
   */
  function SplitPrefix(pfx: u64, diff: nibble): u64
  {
    assert Xpfx(pfx, diff) <= 0x1_0000_0000_0000_0000 - 16 by {
      XpfxLow(pfx, diff);
    }
    Xpfx(pfx, diff) + diff
  }

  /** A cleared prefix has a zero low nibble, free for the position. */
  lemma {:induction false} XpfxLow(x: nat, pos: nibble)
    ensures Xpfx(x, pos) % 16 == 0
  {
  }

  /** The new inner node branches at `diff` and keeps the child's nibbles above it. */
  lemma {:induction false} SplitPrefixNibbles(pfx: u64, diff: nibble)
    ensures Xdir(SplitPrefix(pfx, diff), 0) == diff
    ensures forall q :: 0 < q <= diff ==> Xdir(SplitPrefix(pfx, diff), q) == 0
    ensures forall q :: diff < q ==> Xdir(SplitPrefix(pfx, diff), q) == Xdir(pfx, q)
  {
    var a := Xpfx(pfx, diff);
    var r := SplitPrefix(pfx, diff);
    assert r == a + diff;
    XpfxNibbles(pfx, diff);
    XpfxLow(pfx, diff);
    NodeWord(a, diff);
    forall q | 0 < q
      ensures Xdir(r, q) == Xdir(a, q)
    {
      assert Xdir(r, q) == Xdir(r / 16, q - 1);
      assert Xdir(a, q) == Xdir(a / 16, q - 1);
    }
  }

  /**
   * A new inner node: zeroed, the displaced slot value `sval` at the old
   * prefix's nibble `diff`, a pointer to the byte offset `leaf` at the key's
   * nibble `diff`, and prefix SplitPrefix(pfx, diff).
   */
  function InnerBlock(sval: u32, pfx: u64, x: u64, diff: nibble, leaf: nat): (r: seq<u32>)
    requires 16 + leaf < U32_LIMIT
    ensures |r| == 16
  {
    Unpacklo4(Zeros()[Xdir(pfx, diff) := sval][Xdir(x, diff) := 16 + leaf], SplitPrefix(pfx, diff))
  }

  /** `w` with the 16 words at `c` replaced by `blk`. */
  function PutBlock(w: seq<u32>, c: nat, blk: seq<u32>): (r: seq<u32>)
    requires c + 16 <= |w| && |blk| == 16
    ensures |r| == |w|
  {
    w[..c] + blk + w[c + 16..]
  }

  lemma {:induction false} PutBlockWords(w: seq<u32>, c: nat, blk: seq<u32>)
    requires c + 16 <= |w| && |blk| == 16
    ensures forall i :: 0 <= i < |w| && !(c <= i < c + 16) ==> PutBlock(w, c, blk)[i] == w[i]
    ensures forall j :: 0 <= j < 16 ==> PutBlock(w, c, blk)[c + j] == blk[j]
    ensures PutBlock(w, c, blk)[c..c + 16] == blk
  {
  }

  /** Room for `k` more 64-byte nodes at the mark (the assertion of imap__alloc_node__). */
  predicate Room(w: seq<u32>, k: nat)
    requires |w| >= 16
  {
    w[MARK] % 64 == 0 && 64 <= w[MARK] && w[MARK] + 64 * k <= w[SIZE] <= 4 * |w| && w[SIZE] <= 0x8000_0000
  }

  /**
   * The slot `s`, which keeps its prefix nibble, pointing to the node at
   * byte offset `m`: `(*slot & imap__slot_pmask__) | imap__slot_node__ | m`.
   */
  function PointTo(v: u32, m: nat): (r: u32)
    requires m % 64 == 0 && m < 0x8000_0000
    ensures Low4(r) == Low4(v) && IsNode(r) && Child(r) == m / 4
  {
    PointToWord(Low4(v), m);
    Low4(v) + 16 + m
  }

  lemma {:induction false} PointToWord(l: nibble, m: nat)
    requires m % 64 == 0 && m < 0x8000_0000
    ensures Low4(l + 16 + m) == l && IsNode(l + 16 + m) && Child(l + 16 + m) == m / 4
  {
    var q := m / 64;
    assert m == 64 * q;
    PointToBits(l, q);
  }

  lemma {:induction false} PointToBits(l: nibble, q: nat)
    ensures (l + 16 + 64 * q) % 16 == l
    ensures (l + 16 + 64 * q) / 16 % 2 == 1
    ensures (l + 16 + 64 * q) / 32 * 32 / 4 == 16 * q
    ensures 64 * q / 4 == 16 * q
  {
    assert (l + 16 + 64 * q) / 16 == 1 + 4 * q;
    assert (l + 16 + 64 * q) / 32 == 2 * q;
  }

  /**
   * imap_assign when the walk stops on the empty slot `s` above the leaves:
   * one node is allocated at the mark `m`, `s` points to it, and it becomes
   * a leaf for `x`.
   */
  function HangLeaf(w: seq<u32>, s: nat, x: u64): (r: seq<u32>)
    requires |w| >= 16 && Room(w, 1) && s < |w|
    ensures |r| == |w|
  {
    var m := w[MARK];
    var w1 := w[MARK := m + 64][s := PointTo(w[s], m)];
    PutBlock(w1, m / 4, LeafBlock(x))
  }

  /**
   * imap_assign when the walk stops on the slot `s` pointing to node `n`,
   * whose prefix differs from `x` at nibble `diff`: two nodes are
   * allocated at the mark `m`, `s` points to the first, which becomes the
   * new inner node, and the second becomes a leaf for `x`.
   */
  function HangInner(w: seq<u32>, s: nat, n: nat, diff: nibble, x: u64): (r: seq<u32>)
    requires |w| >= 16 && Room(w, 2) && s < |w| && n + 16 <= |w|
    ensures |r| == |w|
  {
    var m := w[MARK];
    var w1 := w[MARK := m + 128][s := PointTo(w[s], m)];
    var w2 := PutBlock(w1, m / 4, InnerBlock(w[s], Prefix(w, n), x, diff, m + 64));
    PutBlock(w2, m / 4 + 16, LeafBlock(x))
  }

  /** The nodes a place needs fit below the buffer size, and the nodes it names lie inside the buffer. */
  predicate PlaceFits(w: seq<u32>, p: Place)
    requires |w| >= 16
  {
    !p.Stuck? && w[MARK] + 64 * Need(p) <= w[SIZE] &&
    (p.Existing? ==> p.slot < |w|) &&
    (p.Attach? ==> p.node + 16 <= |w|) &&
    (p.Split? ==> p.node + 16 <= |w| && p.child + 16 <= |w|)
  }

  /** imap_assign once the walk has stopped at `p`: the new buffer and the word index of x's slot. */
  function AssignAt(w: seq<u32>, x: u64, p: Place): (r: (seq<u32>, nat))
    requires HeaderOK(w) && PlaceFits(w, p)
    ensures |r.0| == |w|
  {
    var m := w[MARK];
    match p
    case Existing(s) => (w, s)
    case Attach(c, d, _) => (HangLeaf(w, c + d, x), m / 4 + x % 16)
    case Split(c, d, _, n, diff) => (HangInner(w, c + d, n, diff, x), m / 4 + 16 + x % 16)
  }

  /** imap_assign on the buffer `w`: the new buffer and the word index of x's slot. */
  function Assign(w: seq<u32>, x: u64): (r: (seq<u32>, nat))
    requires HeaderOK(w) && Fits(w, x)
    ensures |r.0| == |w|
  {
    AssignAt(w, x, Locate(w, x, 0, 0, 16))
  }

  // ----- where the walk stops

  /** The walk of `z` from slot `dir` of node `c` passes through word `s`. */
  predicate Reaches(w: seq<u32>, z: u64, c: nat, dir: nibble, pos: nat, s: nat)
    requires c + 16 <= |w|
    decreases pos
  {
    c + dir == s ||
    (IsNode(w[c + dir]) &&
     var n := Child(w[c + dir]);
     n + 16 <= |w| && Pos(w, n) < pos && Reaches(w, z, n, Xdir(z, Pos(w, n)), Pos(w, n), s))
  }

  /** Slot `s` is on the walk of `z` from the root. */
  predicate OnWalk(w: seq<u32>, z: u64, s: nat)
    requires |w| >= 16
  {
    Reaches(w, z, 0, 0, 16, s)
  }

  /** One step of a walk through a node pointer. */
  lemma {:induction false} WalkStepEq(w: seq<u32>, z: u64, c: nat, dir: nibble, pos: nat, n: nat)
    requires c + 16 <= |w| && IsNode(w[c + dir]) && Child(w[c + dir]) == n && n + 16 <= |w| && Pos(w, n) < pos
    ensures SlotFrom(w, z, c, dir, pos) == SlotFrom(w, z, n, Xdir(z, Pos(w, n)), Pos(w, n))
    ensures forall s :: Reaches(w, z, c, dir, pos, s) <==> c + dir == s || Reaches(w, z, n, Xdir(z, Pos(w, n)), Pos(w, n), s)
  {
  }

  /** Slot `d` of node `cs` is on x's walk, empty, and not in a leaf. */
  predicate AttachSpot(w: seq<u32>, h: Heap, x: u64, cs: nat, d: nibble, ps: nat)
  {
    At(w, h, x, cs, d, ps) && 0 < ps && !IsNode(w[cs + d]) &&
    (cs != 0 ==> AgreeAbove(x, Prefix(w, cs), ps))
  }

  /**
   * Slot `d` of node `cs` is on x's walk and points to node `n`, whose
   * prefix agrees with `x` above `diff` and differs from it at `diff`, a
   * position strictly between n's and cs's.
   */
  predicate SplitSpot(w: seq<u32>, h: Heap, x: u64, cs: nat, d: nibble, ps: nat, n: nat, diff: nibble)
  {
    At(w, h, x, cs, d, ps) &&
    (cs != 0 ==> AgreeAbove(x, Prefix(w, cs), ps)) &&
    IsNode(w[cs + d]) && Child(w[cs + d]) == n && InNode(h, n) && n + 16 <= |w| &&
    Pos(w, n) < diff < ps &&
    AgreeAbove(x, Prefix(w, n), diff) && Xdir(x, diff) != Xdir(Prefix(w, n), diff)
  }

  /** What the walk of `x` from slot `dir` of node `c` finds at the place `p` where it stops. */
  predicate Landed(w: seq<u32>, h: Heap, x: u64, c: nat, dir: nibble, pos: nat, p: Place)
    requires c + 16 <= |w|
  {
    !p.Stuck? &&
    (p.Existing? ==> SlotFrom(w, x, c, dir, pos) == Some(p.slot)) &&
    (p.Attach? ==>
      AttachSpot(w, h, x, p.node, p.dir, p.pos) && SlotFrom(w, x, c, dir, pos) == None &&
      Reaches(w, x, c, dir, pos, p.node + p.dir)) &&
    (p.Split? ==>
      SplitSpot(w, h, x, p.node, p.dir, p.pos, p.child, p.diff) && SlotFrom(w, x, c, dir, pos) == None &&
      Reaches(w, x, c, dir, pos, p.node + p.dir))
  }

  /** The walk stops on a slot that is not a node pointer. */
  lemma {:induction false} LocateStop(w: seq<u32>, h: Heap, x: u64, c: nat, dir: nibble, pos: nat)
    requires At(w, h, x, c, dir, pos) && PathOK(w, h, x, c, dir, pos)
    requires c != 0 ==> AgreeAbove(x, Prefix(w, c), pos)
    requires !IsNode(w[c + dir])
    ensures Landed(w, h, x, c, dir, pos, Locate(w, x, c, dir, pos))
  {
    if pos == 0 {
      PosNibble(w, c);
      LeafPrefixMatch(Prefix(w, c), x);
      assert Locate(w, x, c, dir, pos) == Existing(c + dir);
    } else {
      assert Locate(w, x, c, dir, pos) == Attach(c, dir, pos);
    }
  }

  /**
   * A child that agrees with its parent above the parent's position `p` and
   * has the key's nibble at `p` differs from the key only below `p`.
   */
  lemma {:induction false} DiffBelow(x: u64, pc: u64, pn: u64, p: nat)
    requires p < 16 && AgreeAbove(x, pc, p) && AgreeAbove(pn, pc, p) && Xdir(x, p) == Xdir(pn, p)
    ensures Xpos(Xor(pn, x)) < p || Xpos(Xor(pn, x)) == 0
  {
    XposXor(pn, x);
  }

  /** A child whose prefix differs from the key above the child's position is a split spot. */
  lemma {:induction false} SplitSpotFound(w: seq<u32>, h: Heap, x: u64, c: nat, dir: nibble, pos: nat, n: nat)
    requires At(w, h, x, c, dir, pos) && PathOK(w, h, x, c, dir, pos)
    requires c != 0 ==> AgreeAbove(x, Prefix(w, c), pos)
    requires IsNode(w[c + dir]) && Child(w[c + dir]) == n && n + 16 <= |w|
    requires Xpos(Xor(Prefix(w, n), x)) > Pos(w, n)
    ensures SplitSpot(w, h, x, c, dir, pos, n, Xpos(Xor(Prefix(w, n), x)))
  {
    var pfx := Prefix(w, n);
    XposXor(pfx, x);
    if pos < 16 {
      DiffBelow(x, Prefix(w, c), pfx, pos);
    }
  }

  /** The walk stops at a child whose prefix differs from the key above the child's position. */
  lemma {:induction false} LocateSplit(w: seq<u32>, h: Heap, x: u64, c: nat, dir: nibble, pos: nat, n: nat)
    requires At(w, h, x, c, dir, pos) && PathOK(w, h, x, c, dir, pos)
    requires c != 0 ==> AgreeAbove(x, Prefix(w, c), pos)
    requires IsNode(w[c + dir]) && Child(w[c + dir]) == n && n + 16 <= |w|
    requires Xpos(Xor(Prefix(w, n), x)) > Pos(w, n)
    ensures Landed(w, h, x, c, dir, pos, Locate(w, x, c, dir, pos))
  {
    var pfx := Prefix(w, n);
    var q := Pos(w, n);
    var diff := Xpos(Xor(pfx, x));
    SplitSpotFound(w, h, x, c, dir, pos, n);
    WalkStepEq(w, x, c, dir, pos, n);
    if SlotFrom(w, x, n, Xdir(x, q), q).Some? {
      WalkAgrees(w, h, x, n, Xdir(x, q), q);
      assert false;
    }
    assert Locate(w, x, c, dir, pos) == Split(c, dir, pos, n, diff);
  }

  /** Where the walk stops is where it stops from the next node down. */
  lemma {:induction false} LandedStep(w: seq<u32>, h: Heap, x: u64, c: nat, dir: nibble, pos: nat, n: nat, p: Place)
    requires c + 16 <= |w| && IsNode(w[c + dir]) && Child(w[c + dir]) == n && n + 16 <= |w| && Pos(w, n) < pos
    requires Landed(w, h, x, n, Xdir(x, Pos(w, n)), Pos(w, n), p)
    ensures Landed(w, h, x, c, dir, pos, p)
  {
    WalkStepEq(w, x, c, dir, pos, n);
  }

  /** A walk that agrees with a child's prefix at its position goes on from the child. */
  lemma {:induction false} LocateStepEq(w: seq<u32>, x: u64, c: nat, dir: nibble, pos: nat, n: nat)
    requires c + 16 <= |w| && IsNode(w[c + dir]) && Child(w[c + dir]) == n && n + 16 <= |w| && Pos(w, n) < pos
    requires Xpos(Xor(Prefix(w, n), x)) <= Pos(w, n)
    ensures Locate(w, x, c, dir, pos) == Locate(w, x, n, Xdir(x, Pos(w, n)), Pos(w, n))
  {
  }

  /** Facts about where the walk of a valid buffer stops. */
  lemma {:induction false} LocateFacts(w: seq<u32>, h: Heap, x: u64, c: nat, dir: nibble, pos: nat)
    requires At(w, h, x, c, dir, pos) && PathOK(w, h, x, c, dir, pos)
    requires c != 0 ==> AgreeAbove(x, Prefix(w, c), pos)
    ensures Landed(w, h, x, c, dir, pos, Locate(w, x, c, dir, pos))
    decreases pos
  {
    var sval := w[c + dir];
    if !IsNode(sval) {
      LocateStop(w, h, x, c, dir, pos);
    } else {
      var n := Child(sval);
      var pfx := Prefix(w, n);
      var q := Pos(w, n);
      if Xpos(Xor(pfx, x)) > q {
        LocateSplit(w, h, x, c, dir, pos, n);
      } else {
        assert AgreeAbove(x, pfx, q) by {
          XposXor(pfx, x);
        }
        LocateFacts(w, h, x, n, Xdir(x, q), q);
        LocateStepEq(w, x, c, dir, pos, n);
        LandedStep(w, h, x, c, dir, pos, n, Locate(w, x, c, dir, pos));
      }
    }
  }

  /** Along a path that keeps the invariant the walk never gets stuck. */
  lemma {:induction false} PathNotStuck(w: seq<u32>, h: Heap, x: u64, c: nat, dir: nibble, pos: nat)
    requires c + 16 <= |w| && PathOK(w, h, x, c, dir, pos)
    ensures !Locate(w, x, c, dir, pos).Stuck?
    decreases pos
  {
    var sval := w[c + dir];
    if IsNode(sval) {
      var n := Child(sval);
      var q := Pos(w, n);
      if Xpos(Xor(Prefix(w, n), x)) <= q {
        PathNotStuck(w, h, x, n, Xdir(x, q), q);
      }
    }
  }

  /**
   * The walk of a valid tree stops at one of the three places imap_assign
   * handles, so room for the nodes it needs is all imap_assign asks.
   */
  lemma {:induction false} ValidNotStuck(w: seq<u32>, h: Heap, x: u64)
    requires ValidWith(w, h)
    ensures !Locate(w, x, 0, 0, 16).Stuck?
    ensures NodeRoom(w, x) ==> Fits(w, x)
  {
    assert PathOK(w, h, x, 0, 0, 16);
    PathNotStuck(w, h, x, 0, 0, 16);
  }

  // ----- the buffer after a node is hung on a slot

  /**
   * `w2` differs from `w` only in the mark, the slot `s` (whose prefix
   * nibble stays), and blocks that were unused; `h2` keeps every block in use.
   */
  predicate Rewired(w: seq<u32>, h: Heap, w2: seq<u32>, h2: Heap, s: nat)
  {
    16 <= |w| <= |w2| && s < |w| && s != MARK && |h.kinds| <= |h2.kinds| &&
    1 <= |h.kinds| && h.kinds[0] == Header &&
    (forall b: nat {:trigger KindKept(h, h2, b)} :: b < |h.kinds| && h.kinds[b] != Unused ==> KindKept(h, h2, b)) &&
    Low4(w2[s]) == Low4(w[s]) &&
    (forall i: nat {:trigger Kept(w, w2, i)} ::
      i < |w| && i / 16 < |h.kinds| && h.kinds[i / 16] != Unused && i != s && i != MARK ==> Kept(w, w2, i))
  }

  /** Word `i` is the same in both buffers. */
  predicate Kept(w: seq<u32>, w2: seq<u32>, i: nat)
  {
    i < |w| && i < |w2| && w2[i] == w[i]
  }

  /** Block `b` is of the same kind in both heaps. */
  predicate KindKept(h: Heap, h2: Heap, b: nat)
  {
    b < |h.kinds| && b < |h2.kinds| && h2.kinds[b] == h.kinds[b]
  }

  lemma {:induction false} PrefixRewired(w: seq<u32>, h: Heap, w2: seq<u32>, h2: Heap, s: nat, c: nat)
    requires Rewired(w, h, w2, h2, s) && InNode(h, c) && c + 16 <= |w|
    ensures Prefix(w2, c) == Prefix(w, c) && Pos(w2, c) == Pos(w, c)
    ensures InNode(h2, c)
  {
    assert KindKept(h, h2, c / 16);
    var u, u2 := w[c..c + 16], w2[c..c + 16];
    forall j | 0 <= j < 16
      ensures u[j] % 16 == u2[j] % 16
    {
      NodeWord(c, j);
      assert u[j] == w[c + j] && u2[j] == w2[c + j];
      if c + j != s {
        assert Kept(w, w2, c + j);
      }
    }
    PackLow(u, u2);
  }

  /** A word the walk reads from an old node, other than `s`, is unchanged. */
  lemma {:induction false} WordRewired(w: seq<u32>, h: Heap, w2: seq<u32>, h2: Heap, s: nat, z: u64, c: nat, dir: nibble, pos: nat)
    requires Rewired(w, h, w2, h2, s) && At(w, h, z, c, dir, pos) && c + dir != s
    ensures w2[c + dir] == w[c + dir]
  {
    if c != 0 {
      NodeWord(c, dir);
    }
    assert Kept(w, w2, c + dir);
  }

  /** A fresh leaf for `x` at word `L`: prefix `x & ~0xf`, all slots empty. */
  predicate FreshLeaf(w2: seq<u32>, h2: Heap, x: u64, L: nat)
  {
    InNode(h2, L) && L + 16 <= |w2| && Prefix(w2, L) == LeafPrefix(x) && Pos(w2, L) == 0 &&
    forall i: nat {:trigger Vacant(w2, i)} :: L <= i < L + 16 ==> Vacant(w2, i)
  }

  /** Word `i` is an empty slot: nothing but its prefix nibble. */
  predicate Vacant(w: seq<u32>, i: nat)
  {
    i < |w| && w[i] < 16
  }

  /** What a walk finds in a fresh leaf for `x`. */
  function NewSlot(x: u64, L: nat, z: u64): Option<nat>
  {
    if LeafPrefix(z) == LeafPrefix(x) then Some(L + z % 16) else None
  }

  lemma {:induction false} LeafAt(w2: seq<u32>, h2: Heap, x: u64, L: nat, z: u64)
    requires FreshLeaf(w2, h2, x, L)
    ensures At(w2, h2, z, L, Xdir(z, 0), 0)
    ensures SlotFrom(w2, z, L, Xdir(z, 0), 0) == NewSlot(x, L, z)
    ensures PathOK(w2, h2, z, L, Xdir(z, 0), 0)
  {
    assert Xdir(z, 0) == z % 16;
    assert Vacant(w2, L + z % 16);
  }

  /** The walk from slot `dir` of node `c` equals the walk from its child `n`. */
  lemma {:induction false} StepVia(w: seq<u32>, z: u64, c: nat, dir: nibble, pos: nat, n: nat)
    requires c + 16 <= |w| && IsNode(w[c + dir]) && Child(w[c + dir]) == n && n + 16 <= |w| && Pos(w, n) < pos
    ensures SlotFrom(w, z, c, dir, pos) == SlotFrom(w, z, n, Xdir(z, Pos(w, n)), Pos(w, n))
  {
  }

  /** A walk that stops on an empty slot above the leaves finds nothing. */
  lemma {:induction false} StopEmpty(w: seq<u32>, z: u64, c: nat, dir: nibble, pos: nat)
    requires c + 16 <= |w| && w[c + dir] < 16 && pos > 0
    ensures SlotFrom(w, z, c, dir, pos) == None
  {
  }

  /** A walk that does not pass through the rewired slot `s` is the same walk in `w2`. */
  lemma {:induction false} RewiredMiss(w: seq<u32>, h: Heap, w2: seq<u32>, h2: Heap, s: nat, z: u64, c: nat, dir: nibble, pos: nat)
    requires Rewired(w, h, w2, h2, s) && At(w, h, z, c, dir, pos) && PathOK(w, h, z, c, dir, pos)
    requires !Reaches(w, z, c, dir, pos, s)
    ensures At(w2, h2, z, c, dir, pos) && PathOK(w2, h2, z, c, dir, pos)
    ensures SlotFrom(w2, z, c, dir, pos) == SlotFrom(w, z, c, dir, pos)
    decreases pos
  {
    WordRewired(w, h, w2, h2, s, z, c, dir, pos);
    if c != 0 {
      PrefixRewired(w, h, w2, h2, s, c);
    }
    if IsNode(w[c + dir]) {
      var m := Child(w[c + dir]);
      PrefixRewired(w, h, w2, h2, s, m);
      WalkStepEq(w, z, c, dir, pos, m);
      RewiredMiss(w, h, w2, h2, s, z, m, Xdir(z, Pos(w, m)), Pos(w, m));
      StepVia(w2, z, c, dir, pos, m);
    }
  }

  /**
   * A walk that passes through the rewired slot `s` stands on it at slot
   * `d` of a node `cs`; above that point it is the same walk in `w2`.
   */
  lemma {:induction false} RewiredTo(w: seq<u32>, h: Heap, w2: seq<u32>, h2: Heap, s: nat, z: u64, c: nat, dir: nibble, pos: nat)
      returns (cs: nat, d: nibble, ps: nat)
    requires Rewired(w, h, w2, h2, s) && At(w, h, z, c, dir, pos) && PathOK(w, h, z, c, dir, pos)
    requires Reaches(w, z, c, dir, pos, s)
    ensures At(w, h, z, cs, d, ps) && PathOK(w, h, z, cs, d, ps) && cs + d == s
    ensures SlotFrom(w, z, c, dir, pos) == SlotFrom(w, z, cs, d, ps)
    ensures SlotFrom(w2, z, c, dir, pos) == SlotFrom(w2, z, cs, d, ps)
    ensures At(w2, h2, z, cs, d, ps) && PathOK(w2, h2, z, cs, d, ps) ==> At(w2, h2, z, c, dir, pos) && PathOK(w2, h2, z, c, dir, pos)
    decreases pos
  {
    if c + dir == s {
      cs, d, ps := c, dir, pos;
    } else {
      WordRewired(w, h, w2, h2, s, z, c, dir, pos);
      if c != 0 {
        PrefixRewired(w, h, w2, h2, s, c);
      }
      var m := Child(w[c + dir]);
      PrefixRewired(w, h, w2, h2, s, m);
      cs, d, ps := RewiredTo(w, h, w2, h2, s, z, m, Xdir(z, Pos(w, m)), Pos(w, m));
      StepVia(w, z, c, dir, pos, m);
      StepVia(w2, z, c, dir, pos, m);
    }
  }

  // ----- hanging a fresh leaf on an empty slot

  /** Slot `d` of node `cs` now points to a fresh leaf `L` for `x`. */
  predicate Attached(w: seq<u32>, h: Heap, w2: seq<u32>, h2: Heap, x: u64, cs: nat, d: nibble, ps: nat, L: nat)
  {
    Rewired(w, h, w2, h2, cs + d) && AttachSpot(w, h, x, cs, d, ps) &&
    IsNode(w2[cs + d]) && Child(w2[cs + d]) == L && FreshLeaf(w2, h2, x, L)
  }

  /** The edge from the parent slot to the fresh leaf keeps the path invariant. */
  lemma {:induction false} AttachEdge(w: seq<u32>, h: Heap, w2: seq<u32>, h2: Heap, x: u64, cs: nat, d: nibble, ps: nat, L: nat)
    requires Attached(w, h, w2, h2, x, cs, d, ps, L)
    ensures ps < 16 ==> cs != 0 && AgreeAbove(Prefix(w2, L), Prefix(w2, cs), ps) && Xdir(Prefix(w2, L), ps) == d
  {
    if ps < 16 {
      PrefixRewired(w, h, w2, h2, cs + d, cs);
      LeafPrefixNibbles(x);
    }
  }

  /** The walk through the slot that now points to the fresh leaf ends in the leaf. */
  lemma {:induction false} AttachSlotHere(w: seq<u32>, h: Heap, w2: seq<u32>, h2: Heap, x: u64, cs: nat, d: nibble, ps: nat, L: nat, z: u64)
    requires Attached(w, h, w2, h2, x, cs, d, ps, L)
    ensures SlotFrom(w2, z, cs, d, ps) == NewSlot(x, L, z)
    ensures SlotFrom(w, z, cs, d, ps) == None
  {
    LeafAt(w2, h2, x, L, z);
    StepVia(w2, z, cs, d, ps, L);
  }

  /** The walk through the slot that now points to the fresh leaf keeps the path invariant. */
  lemma {:induction false} AttachTopShape(w: seq<u32>, h: Heap, w2: seq<u32>, h2: Heap, x: u64, cs: nat, d: nibble, ps: nat, L: nat, z: u64)
    requires Attached(w, h, w2, h2, x, cs, d, ps, L) && At(w, h, z, cs, d, ps)
    ensures At(w2, h2, z, cs, d, ps) && PathOK(w2, h2, z, cs, d, ps)
  {
    if cs != 0 {
      PrefixRewired(w, h, w2, h2, cs + d, cs);
    }
    AttachEdge(w, h, w2, h2, x, cs, d, ps, L);
    LeafAt(w2, h2, x, L, z);
  }

  /**
   * After a fresh leaf for `x` is hung on slot `d` of node `cs`, every
   * walk keeps the path invariant and finds what it found before, except
   * that a walk through that slot (which found nothing) now ends in the leaf.
   */
  lemma {:induction false} AttachWalk(w: seq<u32>, h: Heap, w2: seq<u32>, h2: Heap, x: u64, cs: nat, d: nibble, ps: nat, L: nat, z: u64)
    requires Attached(w, h, w2, h2, x, cs, d, ps, L) && PathOK(w, h, z, 0, 0, 16)
    ensures At(w2, h2, z, 0, 0, 16) && PathOK(w2, h2, z, 0, 0, 16)
    ensures Slot(w2, z) == if Reaches(w, z, 0, 0, 16, cs + d) then NewSlot(x, L, z) else Slot(w, z)
    ensures Reaches(w, z, 0, 0, 16, cs + d) ==> Slot(w, z) == None
  {
    if Reaches(w, z, 0, 0, 16, cs + d) {
      var c, dd, p := RewiredTo(w, h, w2, h2, cs + d, z, 0, 0, 16);
      SameNode(c, dd, cs, d);
      AtSame(w, h, x, z, cs, d, ps, p);
      AttachSlotHere(w, h, w2, h2, x, cs, d, ps, L, z);
      AttachTopShape(w, h, w2, h2, x, cs, d, ps, L, z);
    } else {
      RewiredMiss(w, h, w2, h2, cs + d, z, 0, 0, 16);
    }
  }

  // ----- putting a new inner node above a child

  /**
   * A new inner node at word `N` for a split at `diff` of child `n`: its
   * prefix is SplitPrefix of n's prefix, it points to `n` at n's nibble
   * `diff` and to the fresh leaf `L` at x's nibble `diff`, and its other
   * slots are empty.
   */
  predicate FreshInner(w: seq<u32>, w2: seq<u32>, h2: Heap, x: u64, n: nat, diff: nibble, N: nat, L: nat)
    requires n + 16 <= |w|
  {
    var pfx := Prefix(w, n);
    InNode(h2, N) && N + 16 <= |w2| &&
    Prefix(w2, N) == SplitPrefix(pfx, diff) && Pos(w2, N) == diff &&
    IsNode(w2[N + Xdir(pfx, diff)]) && Child(w2[N + Xdir(pfx, diff)]) == n &&
    IsNode(w2[N + Xdir(x, diff)]) && Child(w2[N + Xdir(x, diff)]) == L &&
    forall i: nat {:trigger Vacant(w2, i)} ::
      N <= i < N + 16 && i != N + Xdir(pfx, diff) && i != N + Xdir(x, diff) ==> Vacant(w2, i)
  }

  /** Slot `d` of node `cs` now points to a new inner node `N` above `n` and a fresh leaf `L`. */
  predicate Splitted(w: seq<u32>, h: Heap, w2: seq<u32>, h2: Heap, x: u64, cs: nat, d: nibble, ps: nat,
                     n: nat, diff: nibble, N: nat, L: nat)
  {
    Rewired(w, h, w2, h2, cs + d) && SplitSpot(w, h, x, cs, d, ps, n, diff) &&
    IsNode(w2[cs + d]) && Child(w2[cs + d]) == N &&
    FreshInner(w, w2, h2, x, n, diff, N, L) && FreshLeaf(w2, h2, x, L)
  }

  /**
   * The edges a split puts in place, apart from the rest of the buffer:
   * slot `d` of `cs` pointed to `n` and now points to `N`, whose slots lead
   * to `n` (unchanged) and to the fresh leaf `L`.
   */
  predicate Wired(w: seq<u32>, w2: seq<u32>, h2: Heap, x: u64, cs: nat, d: nibble, ps: nat,
                  n: nat, diff: nibble, N: nat, L: nat)
  {
    cs + 16 <= |w| <= |w2| && n + 16 <= |w| &&
    IsNode(w[cs + d]) && Child(w[cs + d]) == n && Pos(w, n) < diff < ps &&
    AgreeAbove(x, Prefix(w, n), diff) && Xdir(x, diff) != Xdir(Prefix(w, n), diff) &&
    IsNode(w2[cs + d]) && Child(w2[cs + d]) == N &&
    InNode(h2, n) && Prefix(w2, n) == Prefix(w, n) && Pos(w2, n) == Pos(w, n) &&
    FreshInner(w, w2, h2, x, n, diff, N, L) && FreshLeaf(w2, h2, x, L)
  }

  lemma {:induction false} SplitWired(w: seq<u32>, h: Heap, w2: seq<u32>, h2: Heap, x: u64, cs: nat, d: nibble, ps: nat,
                                      n: nat, diff: nibble, N: nat, L: nat)
    requires Splitted(w, h, w2, h2, x, cs, d, ps, n, diff, N, L)
    ensures Wired(w, w2, h2, x, cs, d, ps, n, diff, N, L) && InNode(h, n)
  {
    PrefixRewired(w, h, w2, h2, cs + d, n);
  }

  /** A key that differs from node `n`'s prefix above n's position finds nothing below `n`. */
  lemma {:induction false} MissBelow(w: seq<u32>, h: Heap, n: nat, diff: nibble, z: u64)
    requires InNode(h, n) && n + 16 <= |w| && Pos(w, n) < diff
    requires Xdir(z, diff) != Xdir(Prefix(w, n), diff)
    requires PathOK(w, h, z, n, Xdir(z, Pos(w, n)), Pos(w, n))
    ensures SlotFrom(w, z, n, Xdir(z, Pos(w, n)), Pos(w, n)) == None
  {
    if SlotFrom(w, z, n, Xdir(z, Pos(w, n)), Pos(w, n)).Some? {
      WalkAgrees(w, h, z, n, Xdir(z, Pos(w, n)), Pos(w, n));
      assert false;
    }
  }

  /** The edge from the parent slot to the new inner node keeps the path invariant. */
  lemma {:induction false} SplitParentEdge(w: seq<u32>, h: Heap, w2: seq<u32>, h2: Heap, x: u64, cs: nat, d: nibble, ps: nat,
                        n: nat, diff: nibble, N: nat, L: nat)
    requires Splitted(w, h, w2, h2, x, cs, d, ps, n, diff, N, L)
    ensures ps < 16 ==> cs != 0 && AgreeAbove(Prefix(w2, N), Prefix(w2, cs), ps) && Xdir(Prefix(w2, N), ps) == d
  {
    if ps < 16 {
      PrefixRewired(w, h, w2, h2, cs + d, cs);
      SplitPrefixNibbles(Prefix(w, n), diff);
    }
  }

  /** The edge from the new inner node to the displaced child keeps the path invariant. */
  lemma {:induction false} SplitChildEdge(w: seq<u32>, w2: seq<u32>, h2: Heap, x: u64, cs: nat, d: nibble, ps: nat,
                       n: nat, diff: nibble, N: nat, L: nat)
    requires Wired(w, w2, h2, x, cs, d, ps, n, diff, N, L)
    ensures AgreeAbove(Prefix(w2, n), Prefix(w2, N), diff) && Xdir(Prefix(w2, n), diff) == Xdir(Prefix(w, n), diff)
  {
    SplitPrefixNibbles(Prefix(w, n), diff);
  }

  /** The edge from the new inner node to the fresh leaf keeps the path invariant. */
  lemma {:induction false} SplitLeafEdge(w: seq<u32>, w2: seq<u32>, h2: Heap, x: u64, cs: nat, d: nibble, ps: nat,
                      n: nat, diff: nibble, N: nat, L: nat)
    requires Wired(w, w2, h2, x, cs, d, ps, n, diff, N, L)
    ensures AgreeAbove(Prefix(w2, L), Prefix(w2, N), diff) && Xdir(Prefix(w2, L), diff) == Xdir(x, diff)
  {
    SplitPrefixNibbles(Prefix(w, n), diff);
    LeafPrefixNibbles(x);
  }

  /** A walk through the new inner node `N` towards the displaced child `n`. */
  lemma {:induction false} SplitSlotChild(w: seq<u32>, w2: seq<u32>, cs: nat, d: nibble, ps: nat, n: nat, diff: nibble, N: nat, z: u64)
    requires cs + 16 <= |w| <= |w2| && n + 16 <= |w| && N + 16 <= |w2|
    requires IsNode(w[cs + d]) && Child(w[cs + d]) == n && Pos(w, n) < diff < ps
    requires IsNode(w2[cs + d]) && Child(w2[cs + d]) == N && Pos(w2, N) == diff
    requires IsNode(w2[N + Xdir(z, diff)]) && Child(w2[N + Xdir(z, diff)]) == n && Pos(w2, n) == Pos(w, n)
    ensures SlotFrom(w2, z, cs, d, ps) == SlotFrom(w2, z, n, Xdir(z, Pos(w, n)), Pos(w, n))
    ensures SlotFrom(w, z, cs, d, ps) == SlotFrom(w, z, n, Xdir(z, Pos(w, n)), Pos(w, n))
  {
    StepVia(w, z, cs, d, ps, n);
    StepVia(w2, z, cs, d, ps, N);
    StepVia(w2, z, N, Xdir(z, diff), diff, n);
  }

  /** A walk through the new inner node towards the fresh leaf. */
  lemma {:induction false} SplitSlotLeaf(w: seq<u32>, w2: seq<u32>, h2: Heap, x: u64, cs: nat, d: nibble, ps: nat,
                      n: nat, diff: nibble, N: nat, L: nat, z: u64)
    requires Wired(w, w2, h2, x, cs, d, ps, n, diff, N, L)
    requires Xdir(z, diff) == Xdir(x, diff)
    ensures SlotFrom(w2, z, cs, d, ps) == NewSlot(x, L, z)
  {
    StepVia(w2, z, cs, d, ps, N);
    InnerToLeaf(w, w2, h2, x, n, diff, N, L, Xdir(z, diff));
    StepVia(w2, z, N, Xdir(z, diff), diff, L);
    LeafAt(w2, h2, x, L, z);
  }

  /** The slot of the new inner node on the displaced child's side. */
  lemma {:induction false} InnerToChild(w: seq<u32>, w2: seq<u32>, h2: Heap, x: u64, n: nat, diff: nibble, N: nat, L: nat, j: nibble)
    requires n + 16 <= |w| && FreshInner(w, w2, h2, x, n, diff, N, L)
    requires j == Xdir(Prefix(w, n), diff)
    ensures IsNode(w2[N + j]) && Child(w2[N + j]) == n
  {
  }

  /** The slot of the new inner node on the fresh leaf's side. */
  lemma {:induction false} InnerToLeaf(w: seq<u32>, w2: seq<u32>, h2: Heap, x: u64, n: nat, diff: nibble, N: nat, L: nat, j: nibble)
    requires n + 16 <= |w| && FreshInner(w, w2, h2, x, n, diff, N, L)
    requires j == Xdir(x, diff)
    ensures IsNode(w2[N + j]) && Child(w2[N + j]) == L
  {
  }

  /** An empty slot of the new inner node. */
  lemma {:induction false} InnerEmpty(w: seq<u32>, w2: seq<u32>, h2: Heap, x: u64, n: nat, diff: nibble, N: nat, L: nat, z: u64)
    requires n + 16 <= |w| && FreshInner(w, w2, h2, x, n, diff, N, L)
    requires Xdir(z, diff) != Xdir(x, diff) && Xdir(z, diff) != Xdir(Prefix(w, n), diff)
    ensures w2[N + Xdir(z, diff)] < 16
  {
    var j := Xdir(z, diff);
    assert j != Xdir(Prefix(w, n), diff);
    assert j != Xdir(x, diff);
    assert Vacant(w2, N + j);
  }

  /** A walk through the new inner node that stops on one of its empty slots. */
  lemma {:induction false} SplitSlotEmpty(w: seq<u32>, w2: seq<u32>, h2: Heap, x: u64, cs: nat, d: nibble, ps: nat,
                       n: nat, diff: nibble, N: nat, L: nat, z: u64)
    requires Wired(w, w2, h2, x, cs, d, ps, n, diff, N, L)
    requires Xdir(z, diff) != Xdir(x, diff) && Xdir(z, diff) != Xdir(Prefix(w, n), diff)
    ensures SlotFrom(w2, z, cs, d, ps) == None
  {
    InnerEmpty(w, w2, h2, x, n, diff, N, L, z);
    StepVia(w2, z, cs, d, ps, N);
    StopEmpty(w2, z, N, Xdir(z, diff), diff);
  }

  /** A walk through the slot that pointed to `n` and now points to the new inner node. */
  lemma {:induction false} SplitSlotHere(w: seq<u32>, h: Heap, w2: seq<u32>, h2: Heap, x: u64, cs: nat, d: nibble, ps: nat,
                      n: nat, diff: nibble, N: nat, L: nat, z: u64)
    requires Wired(w, w2, h2, x, cs, d, ps, n, diff, N, L) && InNode(h, n)
    requires PathOK(w, h, z, n, Xdir(z, Pos(w, n)), Pos(w, n))
    requires SlotFrom(w2, z, n, Xdir(z, Pos(w, n)), Pos(w, n)) == SlotFrom(w, z, n, Xdir(z, Pos(w, n)), Pos(w, n))
    ensures SlotFrom(w2, z, cs, d, ps) ==
      if Xdir(z, diff) == Xdir(x, diff) then NewSlot(x, L, z) else SlotFrom(w, z, cs, d, ps)
    ensures Xdir(z, diff) == Xdir(x, diff) ==> SlotFrom(w, z, cs, d, ps) == None
  {
    StepVia(w, z, cs, d, ps, n);
    if Xdir(z, diff) == Xdir(Prefix(w, n), diff) {
      InnerToChild(w, w2, h2, x, n, diff, N, L, Xdir(z, diff));
      SplitSlotChild(w, w2, cs, d, ps, n, diff, N, z);
    } else {
      MissBelow(w, h, n, diff, z);
      if Xdir(z, diff) == Xdir(x, diff) {
        SplitSlotLeaf(w, w2, h2, x, cs, d, ps, n, diff, N, L, z);
      } else {
        SplitSlotEmpty(w, w2, h2, x, cs, d, ps, n, diff, N, L, z);
      }
    }
  }

  /** A walk below node `c` never comes back to a slot of a node above `c` (or of the header). */
  lemma {:induction false} ReachNotAbove(w: seq<u32>, h: Heap, z: u64, c: nat, dir: nibble, pos: nat, cs: nat, d: nibble)
    requires At(w, h, z, c, dir, pos) && c != 0 && PathOK(w, h, z, c, dir, pos)
    requires cs % 16 == 0 && (cs == 0 || (cs + 16 <= |w| && pos < Pos(w, cs)))
    ensures !Reaches(w, z, c, dir, pos, cs + d)
    decreases pos
  {
    if c + dir == cs + d {
      SameNode(c, dir, cs, d);
      assert false;
    } else if IsNode(w[c + dir]) {
      var n := Child(w[c + dir]);
      ReachNotAbove(w, h, z, n, Xdir(z, Pos(w, n)), Pos(w, n), cs, d);
    }
  }

  /** The path invariant at a slot that points to a node, from the invariant below that node. */
  lemma {:induction false} PathStep(w: seq<u32>, h: Heap, z: u64, c: nat, dir: nibble, pos: nat, n: nat)
    requires c + 16 <= |w| && IsNode(w[c + dir]) && Child(w[c + dir]) == n
    requires InNode(h, n) && n + 16 <= |w| && Pos(w, n) < pos
    requires pos < 16 ==> AgreeAbove(Prefix(w, n), Prefix(w, c), pos) && Xdir(Prefix(w, n), pos) == dir
    requires PathOK(w, h, z, n, Xdir(z, Pos(w, n)), Pos(w, n))
    ensures PathOK(w, h, z, c, dir, pos)
  {
  }

  /** The path invariant at a slot that points to a node gives it below that node. */
  lemma {:induction false} PathDown(w: seq<u32>, h: Heap, z: u64, c: nat, dir: nibble, pos: nat, n: nat)
    requires c + 16 <= |w| && PathOK(w, h, z, c, dir, pos) && IsNode(w[c + dir]) && Child(w[c + dir]) == n
    ensures InNode(h, n) && n + 16 <= |w| && Pos(w, n) < pos
    ensures At(w, h, z, n, Xdir(z, Pos(w, n)), Pos(w, n)) && PathOK(w, h, z, n, Xdir(z, Pos(w, n)), Pos(w, n))
  {
  }

  /** The path invariant below the new inner node, for a walk through it. */
  lemma {:induction false} InnerShape(w: seq<u32>, w2: seq<u32>, h2: Heap, x: u64, cs: nat, d: nibble, ps: nat,
                   n: nat, diff: nibble, N: nat, L: nat, z: u64)
    requires Wired(w, w2, h2, x, cs, d, ps, n, diff, N, L)
    requires PathOK(w2, h2, z, n, Xdir(z, Pos(w, n)), Pos(w, n))
    ensures PathOK(w2, h2, z, N, Xdir(z, diff), diff)
  {
    var j := Xdir(z, diff);
    if j == Xdir(Prefix(w, n), diff) {
      InnerShapeChild(w, w2, h2, x, cs, d, ps, n, diff, N, L, z);
    } else if j == Xdir(x, diff) {
      InnerShapeLeaf(w, w2, h2, x, cs, d, ps, n, diff, N, L, z);
    } else {
      InnerEmpty(w, w2, h2, x, n, diff, N, L, z);
    }
  }

  /** InnerShape for a walk that goes on to the old child `n`. */
  lemma {:induction false} InnerShapeChild(w: seq<u32>, w2: seq<u32>, h2: Heap, x: u64, cs: nat, d: nibble, ps: nat,
                        n: nat, diff: nibble, N: nat, L: nat, z: u64)
    requires Wired(w, w2, h2, x, cs, d, ps, n, diff, N, L) && Xdir(z, diff) == Xdir(Prefix(w, n), diff)
    requires PathOK(w2, h2, z, n, Xdir(z, Pos(w, n)), Pos(w, n))
    ensures PathOK(w2, h2, z, N, Xdir(z, diff), diff)
  {
    var j := Xdir(z, diff);
    InnerToChild(w, w2, h2, x, n, diff, N, L, j);
    SplitChildEdge(w, w2, h2, x, cs, d, ps, n, diff, N, L);
    PathStep(w2, h2, z, N, j, diff, n);
  }

  /** InnerShape for a walk that goes on to the fresh leaf `L`. */
  lemma {:induction false} InnerShapeLeaf(w: seq<u32>, w2: seq<u32>, h2: Heap, x: u64, cs: nat, d: nibble, ps: nat,
                       n: nat, diff: nibble, N: nat, L: nat, z: u64)
    requires Wired(w, w2, h2, x, cs, d, ps, n, diff, N, L) && Xdir(z, diff) == Xdir(x, diff)
    ensures PathOK(w2, h2, z, N, Xdir(z, diff), diff)
  {
    var j := Xdir(z, diff);
    InnerToLeaf(w, w2, h2, x, n, diff, N, L, j);
    SplitLeafEdge(w, w2, h2, x, cs, d, ps, n, diff, N, L);
    LeafAt(w2, h2, x, L, z);
    PathStep(w2, h2, z, N, j, diff, L);
  }

  /** The walk through the slot that now points to the new inner node keeps the path invariant. */
  lemma {:induction false} SplitTopShape(w: seq<u32>, h: Heap, w2: seq<u32>, h2: Heap, x: u64, cs: nat, d: nibble, ps: nat,
                      n: nat, diff: nibble, N: nat, L: nat, z: u64)
    requires Splitted(w, h, w2, h2, x, cs, d, ps, n, diff, N, L) && At(w, h, z, cs, d, ps)
    requires PathOK(w2, h2, z, n, Xdir(z, Pos(w, n)), Pos(w, n))
    ensures At(w2, h2, z, cs, d, ps) && PathOK(w2, h2, z, cs, d, ps)
  {
    if cs != 0 {
      PrefixRewired(w, h, w2, h2, cs + d, cs);
    }
    SplitParentEdge(w, h, w2, h2, x, cs, d, ps, n, diff, N, L);
    SplitWired(w, h, w2, h2, x, cs, d, ps, n, diff, N, L);
    InnerShape(w, w2, h2, x, cs, d, ps, n, diff, N, L, z);
  }

  /** Two walks standing on the same slot stand at the same position. */
  lemma {:induction false} AtSame(w: seq<u32>, h: Heap, x: u64, z: u64, c: nat, d: nibble, p: nat, q: nat)
    requires At(w, h, x, c, d, p) && At(w, h, z, c, d, q)
    ensures p == q
  {
    if c != 0 {
      assert InNode(h, c);
    }
  }

  /** A walk through the slot that now points to the new inner node. */
  lemma {:induction false} SplitWalkHere(w: seq<u32>, h: Heap, w2: seq<u32>, h2: Heap, x: u64, cs: nat, d: nibble, ps: nat,
                                         n: nat, diff: nibble, N: nat, L: nat, z: u64)
    requires Splitted(w, h, w2, h2, x, cs, d, ps, n, diff, N, L)
    requires At(w, h, z, cs, d, ps) && PathOK(w, h, z, cs, d, ps)
    ensures At(w2, h2, z, cs, d, ps) && PathOK(w2, h2, z, cs, d, ps)
    ensures SlotFrom(w2, z, cs, d, ps) ==
      if Xdir(z, diff) == Xdir(x, diff) then NewSlot(x, L, z) else SlotFrom(w, z, cs, d, ps)
    ensures Xdir(z, diff) == Xdir(x, diff) ==> SlotFrom(w, z, cs, d, ps) == None
  {
    var q := Pos(w, n);
    PathDown(w, h, z, cs, d, ps, n);
    ReachNotAbove(w, h, z, n, Xdir(z, q), q, cs, d);
    RewiredMiss(w, h, w2, h2, cs + d, z, n, Xdir(z, q), q);
    SplitWired(w, h, w2, h2, x, cs, d, ps, n, diff, N, L);
    SplitSlotHere(w, h, w2, h2, x, cs, d, ps, n, diff, N, L, z);
    SplitTopShape(w, h, w2, h2, x, cs, d, ps, n, diff, N, L, z);
  }

  /**
   * After a new inner node is put above child `n` of slot `d` of node
   * `cs`, every walk keeps the path invariant and finds what it found
   * before, except that a walk through that slot taking x's direction at
   * `diff` (which found nothing) now ends in the fresh leaf.
   */
  lemma {:induction false} SplitWalk(w: seq<u32>, h: Heap, w2: seq<u32>, h2: Heap, x: u64, cs: nat, d: nibble, ps: nat,
                  n: nat, diff: nibble, N: nat, L: nat, z: u64)
    requires Splitted(w, h, w2, h2, x, cs, d, ps, n, diff, N, L) && PathOK(w, h, z, 0, 0, 16)
    ensures At(w2, h2, z, 0, 0, 16) && PathOK(w2, h2, z, 0, 0, 16)
    ensures Slot(w2, z) ==
      if Reaches(w, z, 0, 0, 16, cs + d) && Xdir(z, diff) == Xdir(x, diff) then NewSlot(x, L, z) else Slot(w, z)
    ensures Reaches(w, z, 0, 0, 16, cs + d) && Xdir(z, diff) == Xdir(x, diff) ==> Slot(w, z) == None
  {
    if Reaches(w, z, 0, 0, 16, cs + d) {
      var c, dd, p := RewiredTo(w, h, w2, h2, cs + d, z, 0, 0, 16);
      SameNode(c, dd, cs, d);
      AtSame(w, h, x, z, cs, d, ps, p);
      SplitWalkHere(w, h, w2, h2, x, cs, d, ps, n, diff, N, L, z);
    } else {
      RewiredMiss(w, h, w2, h2, cs + d, z, 0, 0, 16);
    }
  }
}
