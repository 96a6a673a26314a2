// The word layout of an imap buffer: header words, slot encoding and
// 64-bit value cells.
//
// The buffer is a sequence of 32-bit words grouped into 16-word (64-byte)
// nodes. Node 0 is the header. A slot word packs, from bit 0 upwards: a
// nibble of its node's prefix (bits 0..3), the node flag (bit 4), the
// scalar flag (bit 5) and a payload (bits 5..31 as a byte offset for a
// child node, bits 6..31 as an inline value or a value-cell index).

module Layout {
  import opened Bits

  /** Words of the header node (imap__tree_root__ .. imap__tree_size__). */
  const ROOT: nat := 0
  const FREE: nat := 1
  const MARK: nat := 2
  const SIZE: nat := 3

  const NODE_BYTES: nat := 64

  /** Values below 2^26 are stored inline in the slot. */
  const SCALAR_LIMIT: nat := 0x400_0000

  /** `v & imap__slot_pmask__`: the slot's share of its node's prefix. */
  function Low4(v: u32): nibble
  {
    v % 16
  }

  /** `v & imap__slot_node__`. */
  predicate IsNode(v: u32)
  {
    v / 16 % 2 == 1
  }

  /** `v & imap__slot_scalar__`. */
  predicate IsScalar(v: u32)
  {
    v / 32 % 2 == 1
  }

  /** `v & imap__slot_value__`. */
  function ValueBits(v: u32): u32
  {
    v / 32 * 32
  }

  /** `v >> 6`: an inline value or a value-cell index. */
  function Payload(v: u32): nat
  {
    v / 64
  }

  /** The word index of the node a node slot points to (its byte offset over 4). */
  function Child(v: u32): nat
  {
    ValueBits(v) / 4
  }

  /** A slot holding an out-of-line value owns the cell its payload names. */
  predicate OwnsCell(v: u32)
  {
    !IsScalar(v) && Payload(v) != 0
  }

  /**
   * The 64-bit value cell `k`: words 2k and 2k+1 read as one little-endian
   * 64-bit word.
   */
  function Cell(w: seq<u32>, k: nat): u64
    requires 2 * k + 1 < |w|
  {
    w[2 * k] + U32_LIMIT * w[2 * k + 1]
  }

  /** The cell of a slot that owns one lies inside the buffer. */
  predicate CellInRange(w: seq<u32>, s: nat)
    requires s < |w|
  {
    OwnsCell(w[s]) ==> 2 * Payload(w[s]) + 1 < |w|
  }

  /** `imap_hasval`: a slot has a value when it holds an inline scalar or owns a cell. */
  function Hasval(w: seq<u32>, s: nat): (r: bool)
    requires s < |w| && !IsNode(w[s])
    ensures r <==> IsScalar(w[s]) || OwnsCell(w[s])
  {
    ValueBits(w[s]) != 0
  }

  /** `imap_getval`: the inline scalar, the owned cell's contents, or 0. */
  function Getval(w: seq<u32>, s: nat): (r: u64)
    requires s < |w| && !IsNode(w[s]) && CellInRange(w, s)
    ensures !Hasval(w, s) ==> r == 0
    ensures IsScalar(w[s]) ==> r < SCALAR_LIMIT
  {
    if IsScalar(w[s]) then Payload(w[s])
    else if Payload(w[s]) != 0 then Cell(w, Payload(w[s]))
    else 0
  }

  /** Writing `y` into cell `k`: the low word then the high word. */
  function WriteCell(w: seq<u32>, k: nat, y: u64): (r: seq<u32>)
    requires 2 * k + 1 < |w|
    ensures |r| == |w| && Cell(r, k) == y && r[2 * k] == y % U32_LIMIT
    ensures forall i :: 0 <= i < |w| && i != 2 * k && i != 2 * k + 1 ==> r[i] == w[i]
  {
    w[2 * k := y % U32_LIMIT][2 * k + 1 := y / U32_LIMIT]
  }
}
