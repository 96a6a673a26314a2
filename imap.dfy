// The tree as imap.h keeps it: one flat buffer of 32-bit words that the
// operations update in place. Each method follows its C function step by
// step and is proved to leave the buffer as the functional model of that
// operation says; the ghost heap follows along so that the invariant and
// the map can be stated about the object. Two steps take the corrected
// arithmetic of the functional model rather than the C types: a new inner
// node gets the 64-bit prefix (SplitPrefix, where imap__xpfx__ returns 32
// bits), and imap_ensure adds up the needed mark without 32-bit wrap-around.

module ImapObject {
  import opened Bits
  import opened Layout
  import opened Tree
  import opened TreeAssign
  import opened AssignValid
  import opened TreeValues
  import opened TreeEnsure

  /** A buffer equal to `w` outside the block at `c` and to `blk` inside it is PutBlock(w, c, blk). */
  lemma {:induction false} PutBlockIs(w: seq<u32>, c: nat, blk: seq<u32>, r: seq<u32>)
    requires c + 16 <= |w| && |blk| == 16 && |r| == |w|
    requires forall i :: 0 <= i < |w| ==> r[i] == if c <= i < c + 16 then blk[i - c] else w[i]
    ensures r == PutBlock(w, c, blk)
  {
    forall i | 0 <= i < |w|
      ensures r[i] == PutBlock(w, c, blk)[i]
    {
      BlockWord(w, c, blk, i);
    }
  }

  /** Writing a block twice leaves the second block. */
  lemma {:induction false} BlockTwice(w: seq<u32>, c: nat, b1: seq<u32>, b2: seq<u32>)
    requires c + 16 <= |w| && |b1| == 16 && |b2| == 16
    ensures PutBlock(w, c, b1)[c..c + 16] == b1
    ensures PutBlock(PutBlock(w, c, b1), c, b2) == PutBlock(w, c, b2)
  {
    PutBlockWords(w, c, b1);
    var r := PutBlock(PutBlock(w, c, b1), c, b2);
    forall i | 0 <= i < |w|
      ensures r[i] == if c <= i < c + 16 then b2[i - c] else w[i]
    {
      BlockWord(PutBlock(w, c, b1), c, b2, i);
      BlockWord(w, c, b1, i);
    }
    PutBlockIs(w, c, b2, r);
  }

  /** Writing word `a` of a block just written is writing the block with that word changed. */
  lemma {:induction false} BlockSet(w: seq<u32>, c: nat, b: seq<u32>, a: nibble, v: u32)
    requires c + 16 <= |w| && |b| == 16
    ensures PutBlock(w, c, b)[c + a := v] == PutBlock(w, c, b[a := v])
  {
    var r := PutBlock(w, c, b)[c + a := v];
    forall i | 0 <= i < |w|
      ensures r[i] == if c <= i < c + 16 then b[a := v][i - c] else w[i]
    {
      BlockWord(w, c, b, i);
    }
    PutBlockIs(w, c, b[a := v], r);
  }

  /** One step of the walk of imap_assign through the pointer in slot `dir` of node `c`. */
  lemma {:induction false} LocateStep(w: seq<u32>, x: u64, c: nat, dir: nibble, pos: nat)
    requires c + 16 <= |w| && IsNode(w[c + dir]) && !Locate(w, x, c, dir, pos).Stuck?
    ensures Child(w[c + dir]) + 16 <= |w|
    ensures var n := Child(w[c + dir]); var pfx := Prefix(w, n);
      var q, diff := pfx % 16, Xpos(Xor(pfx, x));
      (diff > q ==> Locate(w, x, c, dir, pos) == Split(c, dir, pos, n, diff)) &&
      (diff <= q ==> q < pos && Locate(w, x, c, dir, pos) == Locate(w, x, n, Xdir(x, q), q))
  {
    var n := Child(w[c + dir]);
    PosNibble(w, n);
  }

  // The walk loop of Imap.AssignWords states each step through the
  // following three lemmas, whose arguments are the loop's own variables.

  /** The walk ends at a slot that holds no pointer. */
  lemma {:induction false} LocateEnd(w: seq<u32>, x: u64, c: nat, dir: nibble, pos: nat, sval: u32)
    requires c + 16 <= |w| && sval == w[c + dir] && !IsNode(sval)
    ensures Locate(w, x, c, dir, pos) == if pos == 0 then Existing(c + dir) else Attach(c, dir, pos)
  {
  }

  /** A pointer met by a walk that does not get stuck leads to a node inside the buffer. */
  lemma {:induction false} LocateChild(w: seq<u32>, x: u64, c: nat, dir: nibble, pos: nat, sval: u32, n: nat)
    requires c + 16 <= |w| && sval == w[c + dir] && IsNode(sval) && n == Child(sval)
    requires !Locate(w, x, c, dir, pos).Stuck?
    ensures n + 16 <= |w|
  {
    LocateStep(w, x, c, dir, pos);
  }

  /**
   * The walk either stops at the pointer to `n`, whose prefix `pfx` differs
   * from `x` above its own position, or goes on from slot `d2` of `n`.
   */
  lemma {:induction false} LocateNext(w: seq<u32>, x: u64, c: nat, dir: nibble, pos: nat,
                                      n: nat, pfx: u64, q: nat, diff: nat, d2: nibble)
    requires c + 16 <= |w| && IsNode(w[c + dir]) && n == Child(w[c + dir]) && n + 16 <= |w|
    requires !Locate(w, x, c, dir, pos).Stuck?
    requires pfx == Prefix(w, n) && q == pfx % 16 && diff == Xpos(Xor(pfx, x)) && d2 == Xdir(x, q)
    ensures diff > q ==> Locate(w, x, c, dir, pos) == Split(c, dir, pos, n, diff)
    ensures diff <= q ==> q < pos && Locate(w, x, c, dir, pos) == Locate(w, x, n, d2, q)
  {
    LocateStep(w, x, c, dir, pos);
  }

  /**
   * The words imap_assign writes when it splits: the slot and the mark
   * `m`, then the inner node at `m`, then the leaf after it.
   */
  lemma {:induction false} HangInnerIs(w: seq<u32>, slot: nat, n: nat, diff: nibble, x: u64,
                                       m: u32, sval: u32, pfx: u64, mid: seq<u32>, r: seq<u32>)
    requires |w| >= 16 && Room(w, 2) && slot < |w| && n + 16 <= |w|
    requires m == w[MARK] && sval == w[slot] && pfx == Prefix(w, n)
    requires mid == PutBlock(w[MARK := m + 128][slot := PointTo(sval, m)], m / 4, InnerBlock(sval, pfx, x, diff, m + 64))
    requires m / 4 + 32 <= |mid| && r == PutBlock(mid, m / 4 + 16, LeafBlock(x))
    ensures r == HangInner(w, slot, n, diff, x)
  {
  }

  /** imap_assign's result, case by case on where its walk stopped. */
  lemma {:induction false} AssignIs(w: seq<u32>, x: u64, p: Place, r: seq<u32>, s: nat)
    requires HeaderOK(w) && Fits(w, x) && p == Locate(w, x, 0, 0, 16) && PlaceFits(w, p)
    requires p.Existing? ==> r == w && s == p.slot
    requires p.Attach? ==> Room(w, 1) && r == HangLeaf(w, p.node + p.dir, x) && s == w[MARK] / 4 + x % 16
    requires p.Split? ==> Room(w, 2) && r == HangInner(w, p.node + p.dir, p.child, p.diff, x) && s == w[MARK] / 4 + 16 + x % 16
    ensures r == TreeAssign.Assign(w, x).0 && s == TreeAssign.Assign(w, x).1
  {
    assert TreeAssign.Assign(w, x) == AssignAt(w, x, p);
  }

  /** Where imap_assign stops, the nodes it takes fit: the assertion of imap__alloc_node__. */
  lemma {:induction false} PlaceRoom(w: seq<u32>, x: u64)
    requires HeaderOK(w) && Fits(w, x)
    ensures Room(w, Need(Locate(w, x, 0, 0, 16))) && PlaceFits(w, Locate(w, x, 0, 0, 16))
  {
  }

  // ----- the map a buffer holds

  /** The keys that have a value in the buffer `w`, with their values. */
  ghost function Mapping(w: seq<u32>): (m: map<u64, u64>)
    requires |w| >= 16
    ensures forall z: u64 :: z in m <==> Get(w, z).Some?
    ensures forall z: u64 :: z in m ==> Get(w, z) == Some(m[z])
  {
    map z: u64 | Get(w, z).Some? :: Get(w, z).value
  }

  /** Buffers that give every key the same value hold the same map. */
  lemma {:induction false} MappingSame(w: seq<u32>, w2: seq<u32>)
    requires |w| >= 16 && |w2| >= 16
    requires forall z: u64 :: Get(w2, z) == Get(w, z)
    ensures Mapping(w2) == Mapping(w)
  {
    assert forall z: u64 :: z in Mapping(w2) <==> z in Mapping(w);
  }

  /** A buffer that differs from `w` only in giving x the value y holds w's map with x set to y. */
  lemma {:induction false} MappingSet(w: seq<u32>, w2: seq<u32>, x: u64, y: u64)
    requires |w| >= 16 && |w2| >= 16
    requires Get(w2, x) == Some(y) && forall z: u64 :: z != x ==> Get(w2, z) == Get(w, z)
    ensures Mapping(w2) == Mapping(w)[x := y]
  {
    assert forall z: u64 :: z in Mapping(w2) <==> z in Mapping(w)[x := y];
  }

  /** A buffer that differs from `w` only in giving x no value holds w's map without x. */
  lemma {:induction false} MappingDel(w: seq<u32>, w2: seq<u32>, x: u64)
    requires |w| >= 16 && |w2| >= 16
    requires Get(w2, x) == None && forall z: u64 :: z != x ==> Get(w2, z) == Get(w, z)
    ensures Mapping(w2) == Mapping(w) - {x}
  {
    assert forall z: u64 :: z in Mapping(w2) <==> z in Mapping(w) - {x};
  }

  /** A buffer that gives no key a value holds the empty map. */
  lemma {:induction false} MappingEmpty(w: seq<u32>)
    requires |w| >= 16 && forall z: u64 :: Get(w, z) == None
    ensures Mapping(w) == map[]
  {
    assert forall z: u64 :: z !in Mapping(w);
  }

  /** An imap tree: the node array `index` and, as ghost state, what each block and cell is used for. */
  class Imap {
    var index: array<u32>
    ghost var heap: Heap

    /** The buffer keeps the tree invariant. */
    ghost predicate Valid()
      reads this, index
    {
      ValidWith(index[..], heap)
    }

    /** The map the tree holds. */
    ghost function Contents(): map<u64, u64>
      reads this, index
      requires index.Length >= 16
    {
      Mapping(index[..])
    }

    /**
     * Wraps the buffer `a` and its ghost heap `h` as they are; the object is
     * Valid() only when `a` is a valid tree for `h`, as Create establishes.
     */
    constructor (a: array<u32>, ghost h: Heap)
      ensures index == a && heap == h
    {
      index := a;
      heap := h;
    }

    /**
     * `imap__unpacklo4_port__` on the node at word `c`: the low nibble of
     * each of its 16 words takes the matching nibble of `v`, the rest of
     * each word stays.
     */
    method Unpack(c: nat, v: u64)
      requires c + 16 <= index.Length
      modifies index
      ensures index[..] == PutBlock(old(index[..]), c, Unpacklo4(old(index[..])[c..c + 16], v))
    {
      ghost var w := index[..];
      ghost var blk := Unpacklo4(w[c..c + 16], v);
      for j := 0 to 16
        invariant forall i :: 0 <= i < index.Length ==>
          index[i] == if c <= i < c + j then blk[i - c] else w[i]
      {
        var u := index[c + j];
        index[c + j] := u - u % 16 + Xdir(v, LaneNibble(j));
        assert w[c..c + 16][j] == u;
      }
      PutBlockIs(w, c, blk, index[..]);
    }

    /** `*newnode = imap__node_zero__` for the node at word `c`. */
    method ZeroNode(c: nat)
      requires c + 16 <= index.Length
      modifies index
      ensures index[..] == PutBlock(old(index[..]), c, Zeros())
    {
      ghost var w := index[..];
      for j := 0 to 16
        invariant forall i :: 0 <= i < index.Length ==>
          index[i] == if c <= i < c + j then 0 else w[i]
      {
        index[c + j] := 0;
      }
      PutBlockIs(w, c, Zeros(), index[..]);
    }

    /**
     * `imap__alloc_node__`: `n` nodes are taken at the mark, which moves up
     * by 64 bytes for each; the old mark is returned. The C assertion that
     * they fit below the size is the precondition.
     */
    method AllocNode(n: nat) returns (m: u32)
      requires index.Length >= 16 && Room(index[..], n)
      modifies index
      ensures m == old(index[MARK]) && index[..] == old(index[..])[MARK := m + 64 * n]
    {
      m := index[MARK];
      index[MARK] := m + 64 * n;
    }

    /**
     * `imap_lookup`: walks down from the root slot, choosing at each node
     * the key's nibble at the node's position, and returns the slot it
     * stops on when that slot holds a value, lies in a leaf, and the leaf's
     * prefix is the key's.
     */
    method Lookup(x: u64) returns (r: Option<nat>)
      requires Valid()
      ensures r == Tree.Lookup(index[..], x)
    {
      ghost var w := index[..];
      assert PathOK(w, heap, x, 0, 0, 16);
      var node: nat, pos: nat, dir: nibble := 0, 16, 0;
      while true
        invariant node + 16 <= index.Length
        invariant PathOK(w, heap, x, node, dir, pos)
        invariant SlotFrom(w, x, node, dir, pos) == Slot(w, x)
        decreases pos
      {
        var sval := index[node + dir];
        if !IsNode(sval) {
          if ValueBits(sval) == 0 || pos != 0 || Prefix(index[..], node) != LeafPrefix(x) {
            return None;
          }
          return Some(node + dir);
        }
        node := Child(sval);
        pos := Pos(index[..], node);
        dir := Xdir(x, pos);
      }
    }

    /**
     * `newmark = imap__alloc_node__(tree, k)` followed by the store of a
     * pointer to the new node into `slot`, which held `sval`.
     */
    method Link(slot: nat, sval: u32, k: nat) returns (m: u32)
      requires index.Length >= 16 && 1 <= k && Room(index[..], k) && slot < index.Length
      modifies index
      ensures m == old(index[MARK]) && index[..] == old(index[..])[MARK := m + 64 * k][slot := PointTo(sval, m)]
    {
      m := AllocNode(k);
      index[slot] := PointTo(sval, m);
    }

    /**
     * The split branch of imap_assign: two nodes taken at the mark `m`,
     * `slot` pointed at the first, which becomes the inner node; the
     * second, at byte offset `m + 64`, is left for the new leaf.
     */
    method SplitAt(slot: nat, sval: u32, pfx: u64, x: u64, diff: nibble) returns (m: u32)
      requires index.Length >= 16 && Room(index[..], 2) && slot < index.Length
      modifies index
      ensures m == old(index[MARK]) && m / 4 + 32 <= index.Length && m + 128 < U32_LIMIT
      ensures index[..] == PutBlock(old(index[..])[MARK := m + 128][slot := PointTo(sval, m)], m / 4, InnerBlock(sval, pfx, x, diff, m + 64))
    {
      m := Link(slot, sval, 2);
      InitInner(m / 4, sval, pfx, x, diff, m + 64);
    }

    /** A new leaf for `x` at word `c`: the node zeroed, then its prefix set to `x & ~0xf`. */
    method InitLeaf(c: nat, x: u64)
      requires c + 16 <= index.Length
      modifies index
      ensures index[..] == PutBlock(old(index[..]), c, LeafBlock(x))
    {
      ghost var w := index[..];
      ZeroNode(c);
      ghost var w2 := index[..];
      Unpack(c, LeafPrefix(x));
      BlockTwice(w, c, Zeros(), Unpacklo4(w2[c..c + 16], LeafPrefix(x)));
    }

    /**
     * A new inner node at word `c` splitting at nibble `diff`: zeroed, the
     * displaced slot `sval` at the old prefix's nibble, a pointer to the
     * leaf at byte offset `leaf` at the key's nibble, then the prefix,
     * kept on all 64 bits (SplitPrefix).
     */
    method InitInner(c: nat, sval: u32, pfx: u64, x: u64, diff: nibble, leaf: nat)
      requires c + 16 <= index.Length && 16 + leaf < U32_LIMIT
      modifies index
      ensures index[..] == PutBlock(old(index[..]), c, InnerBlock(sval, pfx, x, diff, leaf))
    {
      ghost var w := index[..];
      ZeroNode(c);
      index[c + Xdir(pfx, diff)] := sval;
      BlockSet(w, c, Zeros(), Xdir(pfx, diff), sval);
      index[c + Xdir(x, diff)] := 16 + leaf;
      ghost var blk := Zeros()[Xdir(pfx, diff) := sval][Xdir(x, diff) := 16 + leaf];
      BlockSet(w, c, Zeros()[Xdir(pfx, diff) := sval], Xdir(x, diff), 16 + leaf);
      ghost var w2 := index[..];
      Unpack(c, SplitPrefix(pfx, diff));
      BlockTwice(w, c, blk, Unpacklo4(w2[c..c + 16], SplitPrefix(pfx, diff)));
    }

    /**
     * The loop of `imap_assign`: walks down as imap_lookup does and stops at
     * the key's slot in a leaf, at an empty slot above the leaves, or at a
     * pointer to a child whose prefix differs from the key above the
     * child's position. It is the walk `Locate` of the functional model.
     */
    method Walk(x: u64) returns (p: Place)
      requires HeaderOK(index[..]) && !Locate(index[..], x, 0, 0, 16).Stuck?
      ensures p == Locate(index[..], x, 0, 0, 16)
    {
      ghost var w := index[..];
      var node: nat, pos: nat, dir: nibble := 0, 16, 0;
      while true
        invariant node + 16 <= index.Length
        invariant Locate(w, x, node, dir, pos) == Locate(w, x, 0, 0, 16)
        decreases pos
      {
        var slot := node + dir;
        var sval := index[slot];
        if !IsNode(sval) {
          LocateEnd(w, x, node, dir, pos, sval);
          if pos == 0 {
            return Existing(slot);
          }
          return Attach(node, dir, pos);
        }
        var n := Child(sval);
        LocateChild(w, x, node, dir, pos, sval, n);
        var pfx := Prefix(index[..], n);
        var q := pfx % 16;
        var diff := Xpos(Xor(pfx, x));
        LocateNext(w, x, node, dir, pos, n, pfx, q, diff, Xdir(x, q));
        if diff > q {
          return Split(node, dir, pos, n, diff);
        }
        node, pos, dir := n, q, Xdir(x, q);
      }
    }

    /**
     * `imap_assign` when the walk stopped at the empty slot `slot` above
     * the leaves: one node is taken at the mark, `slot` points to it, and
     * it becomes a leaf for `x`.
     */
    method HangLeafAt(slot: nat, x: u64) returns (s: nat)
      requires index.Length >= 16 && Room(index[..], 1) && slot < index.Length
      modifies index
      ensures index[..] == HangLeaf(old(index[..]), slot, x) && s == old(index[MARK]) / 4 + x % 16
    {
      var sval := index[slot];
      var newmark := Link(slot, sval, 1);
      InitLeaf(newmark / 4, x);
      s := newmark / 4 + x % 16;
    }

    /**
     * `imap_assign` when the walk stopped at `slot`, which points to the
     * node `n` whose prefix differs from `x` at nibble `diff`: two nodes are
     * taken at the mark, the first becomes the new inner node between
     * `slot` and `n`, the second a leaf for `x`.
     */
    method HangInnerAt(slot: nat, n: nat, diff: nibble, x: u64) returns (s: nat)
      requires index.Length >= 16 && Room(index[..], 2) && slot < index.Length && n + 16 <= index.Length
      modifies index
      ensures index[..] == HangInner(old(index[..]), slot, n, diff, x) && s == old(index[MARK]) / 4 + 16 + x % 16
    {
      var sval := index[slot];
      var pfx := Prefix(index[..], n);
      ghost var w := index[..];
      var newmark := SplitAt(slot, sval, pfx, x, diff);
      ghost var mid := index[..];
      InitLeaf(newmark / 4 + 16, x);
      s := newmark / 4 + 16 + x % 16;
      HangInnerIs(w, slot, n, diff, x, newmark, sval, pfx, mid, index[..]);
    }

    /**
     * `imap_assign`: returns the key's slot when the walk reaches it, or
     * hangs a new leaf, or a new inner node and a new leaf, where it stopped.
     */
    method AssignWords(x: u64) returns (s: nat)
      requires HeaderOK(index[..]) && Fits(index[..], x)
      modifies index
      ensures index[..] == TreeAssign.Assign(old(index[..]), x).0 && s == TreeAssign.Assign(old(index[..]), x).1
    {
      ghost var w := index[..];
      PlaceRoom(w, x);
      var p := Walk(x);
      if p.Existing? {
        s := p.slot;
      } else if p.Attach? {
        s := HangLeafAt(p.node + p.dir, x);
      } else {
        s := HangInnerAt(p.node + p.dir, p.child, p.diff, x);
      }
      AssignIs(w, x, p, index[..], s);
    }

    /**
     * imap_assign on a valid tree keeps it valid and keeps the map; the
     * key's slot is the one returned.
     */
    method Assign(x: u64) returns (s: nat)
      requires Valid() && NodeRoom(index[..], x)
      modifies this, index
      ensures Fits(old(index[..]), x)
      ensures index[..] == TreeAssign.Assign(old(index[..]), x).0 && s == TreeAssign.Assign(old(index[..]), x).1
      ensures heap == AssignHeap(old(index[..]), old(heap), x) && Valid()
      ensures Slot(index[..], x) == Some(s)
      ensures Contents() == old(Contents())
    {
      ghost var w, h := index[..], heap;
      AssignCorrect(w, h, x);
      s := AssignWords(x);
      heap := AssignHeap(w, h, x);
      MappingSame(w, index[..]);
    }

    /**
     * `imap__alloc_values__`: the node at the mark becomes eight value
     * cells, chained from the new free-list head `mark << 3`, which is
     * returned.
     */
    method AllocValuesWords() returns (f: u32)
      requires HeaderOK(index[..]) && index[MARK] + 64 <= index[SIZE]
      modifies index
      ensures (index[..], f) == AllocValues(old(index[..]))
    {
      var m := AllocNode(1);
      f := (m * 8 % U32_LIMIT) as u32;
      index[FREE] := f;
      var c: nat := m / 4;
      ghost var w1 := index[..];
      ghost var blk := CellChain(f);
      for j := 0 to 8
        invariant forall i :: 0 <= i < index.Length ==>
          index[i] == if c <= i < c + 2 * j then blk[i - c] else w1[i]
      {
        index[c + 2 * j] := if j == 7 then 0 else ((f + 64 * (j + 1)) % U32_LIMIT) as u32;
        index[c + 2 * j + 1] := 0;
      }
      PutBlockIs(w1, c, blk, index[..]);
    }

    /**
     * The first half of imap_setval for a small value and of imap_delval:
     * a slot that owns a cell links it in front of the free list.
     */
    method ReleaseCell(s: nat)
      requires HeaderOK(index[..]) && s < index.Length && CellInRange(index[..], s)
      modifies index
      ensures index[..] == Release(old(index[..]), s)
    {
      var sval := index[s];
      if !IsScalar(sval) && Payload(sval) != 0 {
        var k := Payload(sval);
        index[2 * k] := index[FREE];
        index[2 * k + 1] := 0;
        index[FREE] := ValueBits(sval);
      }
    }

    /**
     * The cell imap_setval takes for a large value when the slot owns
     * none: the free-list head, after imap__alloc_values__ when the list is
     * empty; the head's link becomes the new head.
     */
    method TakeCellWords() returns (sval: u32)
      requires HeaderOK(index[..]) && TakeOK(index[..])
      modifies index
      ensures (index[..], sval) == TakeCell(old(index[..]))
    {
      sval := index[FREE];
      if sval == 0 {
        sval := AllocValuesWords();
        AllocHead(old(index[MARK]), index.Length);
      }
      index[FREE] := index[2 * Payload(sval)];
    }

    /** `imap_setval` on the slot `s`, in words. */
    method SetvalWords(s: nat, y: u64)
      requires HeaderOK(index[..]) && s < index.Length && !IsNode(index[s]) && CellInRange(index[..], s)
      requires y >= SCALAR_LIMIT && !OwnsCell(index[s]) ==> TakeOK(index[..])
      modifies index
      ensures index[..] == TreeValues.Setval(old(index[..]), s, y)
    {
      var sval := index[s];
      if y < SCALAR_LIMIT {
        ReleaseCell(s);
        index[s] := Low4(index[s]) + 32 + (y * 64) as u32;
      } else {
        if IsScalar(sval) || Payload(sval) == 0 {
          sval := TakeCellWords();
        }
        index[s] := OrLow(Low4(index[s]), sval);
        index[2 * Payload(sval)] := (y % U32_LIMIT) as u32;
        index[2 * Payload(sval) + 1] := (y / U32_LIMIT) as u32;
      }
    }

    /** `imap_delval` on the slot `s`, in words. */
    method DelvalWords(s: nat)
      requires HeaderOK(index[..]) && s < index.Length && !IsNode(index[s]) && CellInRange(index[..], s)
      modifies index
      ensures index[..] == TreeValues.Delval(old(index[..]), s)
    {
      ReleaseCell(s);
      index[s] := Low4(index[s]);
    }

    /**
     * `imap_setval` on key x's slot `s`, as imap_assign returns it: x now
     * maps to y and every other key keeps its value. When the free list is
     * empty and the slot owns no cell, the new value node must fit below
     * the size, as imap__alloc_node__ asserts, and below 2^29 bytes.
     */
    method Setval(ghost x: u64, s: nat, y: u64)
      requires Valid() && Slot(index[..], x) == Some(s)
      requires s < index.Length && !IsNode(index[s]) && CellInRange(index[..], s)
      requires y >= SCALAR_LIMIT && !OwnsCell(index[s]) ==> TakeOK(index[..])
      requires y >= SCALAR_LIMIT && !OwnsCell(index[s]) && index[FREE] == 0 ==> index[MARK] + 64 <= 0x2000_0000
      modifies this, index
      ensures index[..] == TreeValues.Setval(old(index[..]), s, y)
      ensures heap == SetHeap(old(index[..]), old(heap), s, x, y) && Valid()
      ensures Contents() == old(Contents())[x := y]
    {
      ghost var w, h := index[..], heap;
      SetvalCorrect(w, h, x, s, y);
      SetvalWords(s, y);
      heap := SetHeap(w, h, s, x, y);
      MappingSet(w, index[..], x, y);
    }

    /**
     * `imap_delval` on key x's slot `s`, as imap_lookup returns it: x has
     * no value any more and every other key keeps its value.
     */
    method Delval(ghost x: u64, s: nat)
      requires Valid() && Slot(index[..], x) == Some(s)
      requires s < index.Length && !IsNode(index[s]) && CellInRange(index[..], s)
      modifies this, index
      ensures index[..] == TreeValues.Delval(old(index[..]), s)
      ensures heap == ReleaseHeap(old(index[..]), old(heap), s) && Valid()
      ensures Contents() == old(Contents()) - {x}
    {
      ghost var w, h := index[..], heap;
      DelvalCorrect(w, h, x, s);
      DelvalWords(s);
      heap := ReleaseHeap(w, h, s);
      MappingDel(w, index[..], x);
    }

    /**
     * `imap_ensure` on this tree: makes room for `n` more items (or `-n`
     * more nodes for a negative `n`). When the needed mark does not fit, the
     * words below the mark move to a new buffer of the least power of two
     * that holds it, with the new size in its header; `ok` is false, and
     * the tree is left as it was, when that size exceeds 0x80000000 bytes
     * or the allocation fails (`allocOK` false). The needed mark is added
     * up without the 32-bit wrap-around of the C `newmark`
     * (TreeEnsure.EnsureAsWritten keeps that wrap).
     */
    method Ensure(n: int, allocOK: bool) returns (ok: bool)
      requires Valid() && IntArg(n)
      modifies this
      ensures ok == TreeEnsure.Ensure(Some(old(index[..])), n, allocOK).Some?
      ensures ok ==> index[..] == TreeEnsure.Ensure(Some(old(index[..])), n, allocOK).value
      ensures ok ==> Valid() && Contents() == old(Contents())
      ensures ok && n != 0 ==> Needed(Some(old(index[..])), n) <= index[SIZE]
      ensures !ok ==> index == old(index) && heap == old(heap)
      ensures index != old(index) ==> fresh(index)
    {
      ghost var w, h := index[..], heap;
      ghost var r := TreeEnsure.Ensure(Some(w), n, allocOK);
      EnsureOutcome(Some(w), n, allocOK);
      EnsureValid(Some(w), h, n, allocOK);
      if r.Some? {
        MappingSame(w, r.value);
      }
      if n == 0 {
        return true;
      }
      var hasfree := if index[FREE] != 0 then 1 else 0;
      var newmark: int := index[MARK];
      var oldsize := index[SIZE];
      newmark := if n < 0 then newmark + 128 * -n else newmark + 128 * n + 8 * (n - hasfree);
      if newmark <= oldsize {
        return true;
      }
      var newsize := Ceilpow2(newmark);
      if 0x8000_0000 < newsize || !allocOK {
        return false;
      }
      EnsureGrows(Some(w), n, allocOK);
      var a := Moved(newsize);
      index := a;
      heap := EnsureHeap(Some(w), h, r);
      ok := true;
    }

    /**
     * `imap_ensure` on a null tree: a new tree with room for `n` items (or
     * `-n` nodes), of the least power of two that holds them; null for
     * `n == 0`, above 0x80000000 bytes, or when the allocation fails. As in
     * Ensure, the needed mark does not wrap around.
     */
    static method Create(n: int, allocOK: bool) returns (t: Imap?)
      requires IntArg(n)
      ensures t == null <==> TreeEnsure.Ensure(None, n, allocOK).None?
      ensures t != null ==> fresh(t) && fresh(t.index) && t.index[..] == TreeEnsure.Ensure(None, n, allocOK).value
      ensures t != null ==> t.Valid() && t.Contents() == map[]
      ensures t != null ==> Needed(None, n) <= t.index[SIZE]
    {
      EnsureOutcome(None, n, allocOK);
      if n == 0 {
        return null;
      }
      var newmark := if n < 0 then 64 + 128 * -n else 64 + 128 * n + 8 * (n - 1);
      var newsize := Ceilpow2(newmark);
      if 0x8000_0000 < newsize || !allocOK {
        return null;
      }
      EnsureGrows(None, n, allocOK);
      var a := Fresh(newsize);
      NewTreeValid(newsize);
      t := new Imap(a, EmptyHeap(newsize));
      MappingEmpty(a[..]);
    }

    /**
     * The buffer imap_ensure allocates for a null tree: the header of an
     * empty tree, with header cells 2 to 7 chained on the free list.
     */
    static method Fresh(size: nat) returns (a: array<u32>)
      requires 64 <= size <= 0x8000_0000 && size % 64 == 0
      ensures fresh(a) && a[..] == NewTree(size)
    {
      ghost var nt := NewTree(size);
      a := new u32[size / 4](i => 0);
      a[ROOT] := 0;
      a[MARK] := 64;
      a[SIZE] := size as u32;
      a[FREE] := 128;
      for c := 2 to 8
        invariant forall i :: 0 <= i < a.Length ==> a[i] == if i < 4 || i < 2 * c then nt[i] else 0
      {
        a[2 * c] := if c == 7 then 0 else 64 * (c + 1);
        a[2 * c + 1] := 0;
      }
      assert a[..] == nt;
    }

    /**
     * The buffer imap_ensure moves a tree to: the words below the mark
     * copied, then the new size written into the header.
     */
    method Moved(size: nat) returns (a: array<u32>)
      requires HeaderOK(index[..]) && index[SIZE] < size <= 0x8000_0000 && size % 64 == 0
      ensures fresh(a) && a[..] == Regrow(index[..], size)
    {
      ghost var w := index[..];
      MarkWords(w);
      a := new u32[size / 4](i => 0);
      var mark := index[MARK];
      forall i | 0 <= i < mark / 4 {
        a[i] := index[i];
      }
      a[SIZE] := size as u32;
      assert a[..] == Regrow(w, size);
    }
  }
}
