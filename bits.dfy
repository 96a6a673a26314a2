// Machine words, 64-bit keys and the nibble arithmetic of imap.h.
//
// Words, keys and values are unbounded integers restricted to their C
// widths. A 64-bit key is read as sixteen 4-bit nibbles, nibble 0 being
// the least significant; every bit operation the radix tree performs is
// stated through its effect on those nibbles.

module Bits {

  type u32 = x: int | 0 <= x < 0x1_0000_0000
  type u64 = x: int | 0 <= x < 0x1_0000_0000_0000_0000
  type nibble = x: int | 0 <= x < 16

  const U32_LIMIT: int := 0x1_0000_0000

  function Pow2(n: nat): (r: nat)
    ensures r >= 1
  {
    if n == 0 then 1 else 2 * Pow2(n - 1)
  }

  function Pow16(n: nat): (r: nat)
    ensures r >= 1
  {
    if n == 0 then 1 else 16 * Pow16(n - 1)
  }

  /** `imap__xdir__(x, q)`: nibble `q` of `x`, that is `(x >> 4q) & 0xf`. */
  function Xdir(x: nat, q: nat): nibble
  {
    if q == 0 then x % 16 else Xdir(x / 16, q - 1)
  }

  /** The number whose nibble `i` is `ns[i]`. */
  function FromNibbles(ns: seq<nibble>): nat
  {
    if |ns| == 0 then 0 else ns[0] + 16 * FromNibbles(ns[1..])
  }

  lemma {:induction false} FromNibblesBound(ns: seq<nibble>)
    ensures FromNibbles(ns) < Pow16(|ns|)
  {
    if |ns| > 0 {
      FromNibblesBound(ns[1..]);
    }
  }

  /** Nibble `q` of a number built from nibbles is the q-th of them. */
  lemma {:induction false} XdirFromNibbles(ns: seq<nibble>, q: nat)
    requires q < |ns|
    ensures Xdir(FromNibbles(ns), q) == ns[q]
  {
    var x := FromNibbles(ns);
    assert x / 16 == FromNibbles(ns[1..]) && x % 16 == ns[0];
    if q > 0 {
      XdirFromNibbles(ns[1..], q - 1);
    }
  }

  /** Two numbers below 16^n with the same n low nibbles are equal. */
  lemma {:induction false} XdirExt(x: nat, y: nat, n: nat)
    requires x < Pow16(n) && y < Pow16(n)
    requires forall q :: 0 <= q < n ==> Xdir(x, q) == Xdir(y, q)
    ensures x == y
  {
    if n > 0 {
      forall q | 0 <= q < n - 1
        ensures Xdir(x / 16, q) == Xdir(y / 16, q)
      {
        assert Xdir(x, q + 1) == Xdir(y, q + 1);
      }
      XdirExt(x / 16, y / 16, n - 1);
      assert Xdir(x, 0) == Xdir(y, 0);
    }
  }

  /** Nibbles at and above n of a number below 16^n are zero. */
  lemma {:induction false} XdirHigh(x: nat, n: nat, q: nat)
    requires x < Pow16(n) && n <= q
    ensures Xdir(x, q) == 0
  {
    if q > 0 {
      if n == 0 {
        XdirHigh(x / 16, 0, q - 1);
      } else {
        XdirHigh(x / 16, n - 1, q - 1);
      }
    }
  }

  /** A number in [16^t, 16^(t+1)) has a non-zero nibble t. */
  lemma {:induction false} XdirTop(x: nat, t: nat)
    requires Pow16(t) <= x < Pow16(t + 1)
    ensures Xdir(x, t) != 0
  {
    if t > 0 {
      XdirTop(x / 16, t - 1);
    }
  }

  lemma {:induction false} Pow16Is64()
    ensures Pow16(16) == 0x1_0000_0000_0000_0000
    ensures Pow16(8) == 0x1_0000_0000
  {
    assert Pow16(4) == 0x1_0000;
    assert Pow16(8) == 0x1_0000_0000;
    assert Pow16(12) == 0x1_0000_0000_0000;
  }

  lemma {:induction false} Pow16Pow2(n: nat)
    ensures Pow16(n) == Pow2(4 * n)
  {
    if n > 0 {
      Pow16Pow2(n - 1);
      assert Pow2(4 * n) == 2 * Pow2(4 * n - 1) == 4 * Pow2(4 * n - 2)
        == 8 * Pow2(4 * n - 3) == 16 * Pow2(4 * n - 4);
    }
  }

  lemma {:induction false} Pow2Mono(a: nat, b: nat)
    requires a <= b
    ensures Pow2(a) <= Pow2(b)
  {
    if a < b {
      Pow2Mono(a, b - 1);
    }
  }

  /** Word `d` of the node starting at word `c`. */
  lemma {:induction false} NodeWord(c: nat, d: nat)
    requires c % 16 == 0 && d < 16
    ensures (c + d) % 16 == d && (c + d) / 16 == c / 16
  {
  }

  // ----- nibble lanes of a node (imap__packlo4_port__ / imap__unpacklo4_port__)

  /**
   * The word of a node whose low nibble holds prefix nibble `q`. The
   * portable pack reads the node as eight little-endian 64-bit words and
   * keeps bits 0..3 and 32..35 of the j-th, so nibble j comes from word
   * 2j and nibble 8+j from word 2j+1.
   */
  function Lane(q: nibble): (j: nat)
    ensures j < 16
  {
    if q < 8 then 2 * q else 2 * (q - 8) + 1
  }

  /** The prefix nibble stored in word `j` of a node; the inverse of Lane. */
  function LaneNibble(j: nat): (q: nibble)
    requires j < 16
    ensures Lane(q) == j
  {
    if j % 2 == 0 then j / 2 else 8 + j / 2
  }

  /** `imap__packlo4_port__`: gathers the low nibbles of the 16 words. */
  function Packlo4(vec: seq<u32>): u64
    requires |vec| == 16
  {
    PackBound(vec, |vec|);
    Pow16Is64();
    PackTop(vec, |vec|)
  }

  /** The top `k` nibbles (16-k..15) of a packed prefix, shifted down to nibble 0. */
  function PackTop(vec: seq<u32>, k: nat): nat
    requires |vec| == 16 && k <= 16
  {
    if k == 0 then 0 else vec[Lane(16 - k)] % 16 + 16 * PackTop(vec, k - 1)
  }

  lemma {:induction false} PackBound(vec: seq<u32>, k: nat)
    requires |vec| == 16 && k <= 16
    ensures PackTop(vec, k) < Pow16(k)
  {
    if k > 0 {
      PackBound(vec, k - 1);
    }
  }

  lemma {:induction false} PackTopNibbles(vec: seq<u32>, k: nat, q: nat)
    requires |vec| == 16 && q < k <= 16
    ensures Xdir(PackTop(vec, k), q) == vec[Lane(16 - k + q)] % 16
    decreases q
  {
    var r := PackTop(vec, k);
    assert r % 16 == vec[Lane(16 - k)] % 16 && r / 16 == PackTop(vec, k - 1);
    if q > 0 {
      PackTopNibbles(vec, k - 1, q - 1);
    }
  }

  /** Nibble q of a packed node prefix is the low nibble of word Lane(q). */
  lemma {:induction false} PackNibbles(vec: seq<u32>)
    requires |vec| == 16
    ensures forall q: nibble :: Xdir(Packlo4(vec), q) == vec[Lane(q)] % 16
  {
    forall q: nibble
      ensures Xdir(PackTop(vec, |vec|), q) == vec[Lane(q)] % 16
    {
      PackTopNibbles(vec, |vec|, q);
    }
  }

  /**
   * `imap__unpacklo4_port__`: scatters the 16 nibbles of `v` over the low
   * nibbles of the 16 words, leaving the rest of every word alone.
   */
  function Unpacklo4(vec: seq<u32>, v: u64): (r: seq<u32>)
    requires |vec| == 16
    ensures |r| == 16
    ensures forall j :: 0 <= j < 16 ==> r[j] / 16 == vec[j] / 16
    ensures forall j :: 0 <= j < 16 ==> r[j] % 16 == Xdir(v, LaneNibble(j))
  {
    seq(16, j requires 0 <= j < 16 => (vec[j] - vec[j] % 16 + Xdir(v, LaneNibble(j))) as u32)
  }

  /** Unpacking a value and packing it again gives the value back. */
  lemma {:induction false} PackUnpack(vec: seq<u32>, v: u64)
    requires |vec| == 16
    ensures Packlo4(Unpacklo4(vec, v)) == v
  {
    var r := Packlo4(Unpacklo4(vec, v));
    Pow16Is64();
    PackNibbles(Unpacklo4(vec, v));
    forall q | 0 <= q < 16
      ensures Xdir(r, q) == Xdir(v, q)
    {
      assert LaneNibble(Lane(q)) == q;
    }
    XdirExt(r, v, 16);
  }

  /** Packing reads only the low nibble of each word. */
  lemma {:induction false} PackLow(u: seq<u32>, v: seq<u32>)
    requires |u| == 16 && |v| == 16
    requires forall j :: 0 <= j < 16 ==> u[j] % 16 == v[j] % 16
    ensures Packlo4(u) == Packlo4(v)
  {
    Pow16Is64();
    PackNibbles(u);
    PackNibbles(v);
    XdirExt(Packlo4(u), Packlo4(v), 16);
  }

  // ----- xor, bsr, xpos, xpfx, ceilpow2

  /** Exclusive or of two nibbles. */
  function NibXor(a: nibble, b: nibble): (r: nibble)
    ensures r == 0 <==> a == b
  {
    ((a as bv4) ^ (b as bv4)) as int
  }

  /** Nibble-by-nibble exclusive or, until both operands run out of nibbles. */
  function XorRest(a: nat, b: nat): (r: nat)
    decreases a + b
  {
    if a == 0 && b == 0 then 0 else NibXor(a % 16, b % 16) + 16 * XorRest(a / 16, b / 16)
  }

  lemma {:induction false} XorRestSpec(a: nat, b: nat, n: nat)
    requires a < Pow16(n) && b < Pow16(n)
    ensures XorRest(a, b) < Pow16(n)
    ensures forall q :: 0 <= q < n ==> Xdir(XorRest(a, b), q) == NibXor(Xdir(a, q), Xdir(b, q))
  {
    var r := XorRest(a, b);
    assert r % 16 == NibXor(a % 16, b % 16) && r / 16 == XorRest(a / 16, b / 16);
    if n > 0 {
      XorRestSpec(a / 16, b / 16, n - 1);
      forall q | 0 <= q < n
        ensures Xdir(r, q) == NibXor(Xdir(a, q), Xdir(b, q))
      {
        if q > 0 {
          assert Xdir(r, q) == Xdir(r / 16, q - 1);
        }
      }
    }
  }

  /** `a ^ b` on 64-bit operands, nibble by nibble. */
  function Xor(a: u64, b: u64): u64
  {
    Pow16Is64();
    XorRestSpec(a, b, 16);
    XorRest(a, b)
  }

  lemma {:induction false} XorNibbles(a: u64, b: u64)
    ensures forall q: nibble :: Xdir(Xor(a, b), q) == NibXor(Xdir(a, q), Xdir(b, q))
  {
    Pow16Is64();
    XorRestSpec(a, b, 16);
  }

  /** floor(log2(x)). */
  function Log2(x: nat): nat
    requires x >= 1
  {
    if x < 2 then 0 else 1 + Log2(x / 2)
  }

  lemma {:induction false} Log2Bounds(x: nat)
    requires x >= 1
    ensures Pow2(Log2(x)) <= x < Pow2(Log2(x) + 1)
  {
    if x >= 2 {
      Log2Bounds(x / 2);
    }
  }

  /** Any k with 2^k <= x < 2^(k+1) is floor(log2(x)). */
  lemma {:induction false} Log2Unique(x: nat, k: nat)
    requires Pow2(k) <= x < Pow2(k + 1)
    ensures Log2(x) == k
  {
    Log2Bounds(x);
    if Log2(x) < k {
      Pow2Mono(Log2(x) + 1, k);
    } else if Log2(x) > k {
      Pow2Mono(k + 1, Log2(x));
    }
  }

  /**
   * `imap__bsr__`: the index of the highest set bit of `x | 1`, which is
   * `63 - clz(x | 1)`.
   */
  function Bsr(x: u64): (r: nat)
    ensures r < 64
  {
    var y := x + (1 - x % 2);
    Log2Bounds(y);
    assert Log2(y) < 64 by {
      if Log2(y) >= 64 {
        Pow2Mono(64, Log2(y));
        Pow16Pow2(16);
        Pow16Is64();
      }
    }
    Log2(y)
  }

  /** The highest set bit of `x | 1` is bit Bsr(x). */
  lemma {:induction false} BsrBounds(x: u64)
    ensures Pow2(Bsr(x)) <= x + (1 - x % 2) < Pow2(Bsr(x) + 1)
  {
    Log2Bounds(x + (1 - x % 2));
  }

  /** `imap__xpos__`: the nibble index of the highest set bit of `x | 1`. */
  function Xpos(x: u64): nibble
  {
    Bsr(x) / 4
  }

  /** An even number at most `x | 1` is at most `x`. */
  lemma {:induction false} EvenBelow(k: nat, x: nat)
    requires 16 * k <= x + (1 - x % 2)
    ensures 16 * k <= x
  {
  }

  /** Xpos(x) is the highest non-zero nibble of x, or 0 when there is none above nibble 0. */
  lemma {:induction false} XposSpec(x: u64)
    ensures forall q :: Xpos(x) < q < 16 ==> Xdir(x, q) == 0
    ensures Xpos(x) > 0 ==> Xdir(x, Xpos(x)) != 0
  {
    var b := Bsr(x);
    var y := x + (1 - x % 2);
    BsrBounds(x);
    var t := b / 4;
    assert b < 4 * (t + 1);
    Pow16Pow2(t + 1);
    Pow2Mono(b + 1, 4 * (t + 1));
    assert x < Pow16(t + 1);
    forall q | t < q < 16
      ensures Xdir(x, q) == 0
    {
      XdirHigh(x, t + 1, q);
    }
    if t > 0 {
      assert 4 * t <= b;
      Pow16Pow2(t);
      Pow2Mono(4 * t, b);
      assert Pow16(t) == 16 * Pow16(t - 1);
      EvenBelow(Pow16(t - 1), x);
      XdirTop(x, t);
    }
  }

  /**
   * The position of the highest nibble in which `a` and `b` differ, 0 when
   * they agree on nibbles 1..15: `imap__xpos__(a ^ b)`.
   */
  lemma {:induction false} XposXor(a: u64, b: u64)
    ensures var d := Xpos(Xor(a, b));
      (forall q :: d < q < 16 ==> Xdir(a, q) == Xdir(b, q)) &&
      (d > 0 ==> Xdir(a, d) != Xdir(b, d))
  {
    var d := Xpos(Xor(a, b));
    XposSpec(Xor(a, b));
    XorNibbles(a, b);
    forall q | d < q < 16
      ensures Xdir(a, q) == Xdir(b, q)
    {
      assert Xdir(Xor(a, b), q) == 0;
    }
  }

  /**
   * `x & (~0xf << (pos << 2))` computed in 64 bits: `x` with nibbles
   * 0..pos cleared.
   */
  function Xpfx(x: nat, pos: nibble): (r: nat)
    ensures r <= x
  {
    if pos == 0 then x / 16 * 16 else 16 * Xpfx(x / 16, pos - 1)
  }

  /** xpfx clears nibbles 0..pos and keeps the rest. */
  lemma {:induction false} XpfxNibbles(x: nat, pos: nibble)
    ensures forall q :: 0 <= q <= pos ==> Xdir(Xpfx(x, pos), q) == 0
    ensures forall q :: pos < q ==> Xdir(Xpfx(x, pos), q) == Xdir(x, q)
  {
    var r := Xpfx(x, pos);
    if pos == 0 {
      assert r / 16 == x / 16 && r % 16 == 0;
      assert forall q :: 0 < q ==> Xdir(r, q) == Xdir(r / 16, q - 1);
      assert forall q :: 0 < q ==> Xdir(x, q) == Xdir(x / 16, q - 1);
    } else {
      var h := Xpfx(x / 16, pos - 1);
      XpfxNibbles(x / 16, pos - 1);
      assert r / 16 == h && r % 16 == 0;
      assert forall q :: 0 < q ==> Xdir(r, q) == Xdir(h, q - 1);
      assert forall q :: 0 < q ==> Xdir(x, q) == Xdir(x / 16, q - 1);
    }
  }

  /** `x & ~0xf`: the prefix shared by the 16 keys of one leaf. */
  function LeafPrefix(x: u64): u64
  {
    Xpfx(x, 0)
  }

  lemma {:induction false} LeafPrefixNibbles(x: u64)
    ensures Xdir(LeafPrefix(x), 0) == 0
    ensures forall q :: 0 < q ==> Xdir(LeafPrefix(x), q) == Xdir(x, q)
  {
    XpfxNibbles(x, 0);
  }

  /** Two keys with the same leaf prefix and the same low nibble are equal. */
  lemma {:induction false} LeafPrefixInjective(x: u64, z: u64)
    requires LeafPrefix(x) == LeafPrefix(z) && x % 16 == z % 16
    ensures x == z
  {
    Pow16Is64();
    LeafPrefixNibbles(x);
    LeafPrefixNibbles(z);
    forall q | 0 <= q < 16
      ensures Xdir(x, q) == Xdir(z, q)
    {
      if q > 0 {
        assert Xdir(LeafPrefix(x), q) == Xdir(LeafPrefix(z), q);
      }
    }
    XdirExt(x, z, 16);
  }

  /** A value equals LeafPrefix(x) exactly when it agrees with x on nibbles 1..15 and has nibble 0 clear. */
  lemma {:induction false} LeafPrefixMatch(p: u64, x: u64)
    ensures p == LeafPrefix(x) ==> Xdir(p, 0) == 0 && forall q :: 0 < q < 16 ==> Xdir(p, q) == Xdir(x, q)
    ensures (Xdir(p, 0) == 0 && forall q :: 0 < q < 16 ==> Xdir(p, q) == Xdir(x, q)) ==> p == LeafPrefix(x)
  {
    var l := LeafPrefix(x);
    LeafPrefixNibbles(x);
    if Xdir(p, 0) == 0 && forall q :: 0 < q < 16 ==> Xdir(p, q) == Xdir(x, q) {
      Pow16Is64();
      forall q | 0 <= q < 16
        ensures Xdir(p, q) == Xdir(l, q)
      {
      }
      XdirExt(p, l, 16);
    }
    if p == l {
      assert Xdir(p, 0) == 0;
      forall q | 0 < q < 16
        ensures Xdir(p, q) == Xdir(x, q)
      {
      }
    }
  }

  /** `imap__ceilpow2__`: `1 << (bsr(x - 1) + 1)`. */
  function Ceilpow2(x: u64): (r: nat)
    requires x >= 1
  {
    Pow2(Bsr(x - 1) + 1)
  }

  /** For x >= 2, Ceilpow2(x) is the smallest power of two that is at least x. */
  lemma {:induction false} Ceilpow2Least(x: u64)
    requires x >= 2
    ensures exists k: nat :: Ceilpow2(x) == Pow2(k) && Pow2(k) / 2 < x <= Pow2(k)
  {
    var b := Bsr(x - 1);
    BsrBounds(x - 1);
    var k := b + 1;
    assert Pow2(k) == 2 * Pow2(b);
    if (x - 1) % 2 == 0 {
      // x is odd and at least 3, so it lies strictly above the even 2^b
      assert Pow2(b) <= x < Pow2(k);
      assert b > 0;
      assert Pow2(b) == 2 * Pow2(b - 1);
    }
    assert Ceilpow2(x) == Pow2(k) && Pow2(k) / 2 < x <= Pow2(k);
  }
}
