/**
 Little-endian 64-bit words over byte memory, as the AArch64 target sees them,
 and the two bit tricks the library relies on.
 */
module Words {
  /** Byte `k` of a little-endian word. */
  function ByteOf(w: bv64, k: nat): bv8
    requires k < 8
  {
    match k
    case 0 => (w & 0xFF) as bv8
    case 1 => ((w >> 8) & 0xFF) as bv8
    case 2 => ((w >> 16) & 0xFF) as bv8
    case 3 => ((w >> 24) & 0xFF) as bv8
    case 4 => ((w >> 32) & 0xFF) as bv8
    case 5 => ((w >> 40) & 0xFF) as bv8
    case 6 => ((w >> 48) & 0xFF) as bv8
    case _ => ((w >> 56) & 0xFF) as bv8
  }

  /** The word whose bytes, lowest address first, are the arguments. */
  function Pack(b0: bv8, b1: bv8, b2: bv8, b3: bv8, b4: bv8, b5: bv8, b6: bv8, b7: bv8): bv64 {
    (b0 as bv64) | ((b1 as bv64) << 8) | ((b2 as bv64) << 16) | ((b3 as bv64) << 24)
    | ((b4 as bv64) << 32) | ((b5 as bv64) << 40) | ((b6 as bv64) << 48) | ((b7 as bv64) << 56)
  }

  lemma PackBytes(b0: bv8, b1: bv8, b2: bv8, b3: bv8, b4: bv8, b5: bv8, b6: bv8, b7: bv8)
    ensures var w := Pack(b0, b1, b2, b3, b4, b5, b6, b7);
            && ByteOf(w, 0) == b0 && ByteOf(w, 1) == b1 && ByteOf(w, 2) == b2 && ByteOf(w, 3) == b3
            && ByteOf(w, 4) == b4 && ByteOf(w, 5) == b5 && ByteOf(w, 6) == b6 && ByteOf(w, 7) == b7
  {
  }

  type byte = x: int | 0 <= x < 256

  /** A word as the eight bytes it occupies in memory, lowest address first. */
  datatype Word = Word(b0: byte, b1: byte, b2: byte, b3: byte, b4: byte, b5: byte, b6: byte, b7: byte)

  const ZERO_WORD := Word(0, 0, 0, 0, 0, 0, 0, 0)

  function InMemory(w: bv64): Word {
    Word(ByteOf(w, 0) as byte, ByteOf(w, 1) as byte, ByteOf(w, 2) as byte, ByteOf(w, 3) as byte,
         ByteOf(w, 4) as byte, ByteOf(w, 5) as byte, ByteOf(w, 6) as byte, ByteOf(w, 7) as byte)
  }

  // AARCH64_BREAK_MON | (KGDB_DYN_DBG_BRK_IMM << 5)
  const BRK_INSTRUCTION: bv64 := 0xD420_0000 | (0x400 << 5)

  /** The word with the BRK instruction in its low half and the high half kept. */
  function WithBreak(s: Word): Word {
    s.(b0 := 0x00, b1 := 0x80, b2 := 0x20, b3 := 0xD4)
  }

  /** The mask-and-or of set_software_breakpoint computes it. */
  lemma WithBreakIsMaskAndOr(w: bv64)
    ensures InMemory(BRK_INSTRUCTION | (0xFFFF_FFFF_0000_0000 & w)) == WithBreak(InMemory(w))
  {
  }

  const ONES: bv64 := 0x0101_0101_0101_0101
  const HIGHS: bv64 := 0x8080_8080_8080_8080

  /** The HASZERO macro. */
  function HasZero(x: bv64): bv64 {
    (x - ONES) & !x & HIGHS
  }

  /** The lowest zero byte, if any, is where the borrow of x - ONES starts. */
  lemma HasZeroBits(x: bv64)
    ensures HasZero(x) != 0 <==>
            || ByteOf(x, 0) == 0 || ByteOf(x, 1) == 0 || ByteOf(x, 2) == 0 || ByteOf(x, 3) == 0
            || ByteOf(x, 4) == 0 || ByteOf(x, 5) == 0 || ByteOf(x, 6) == 0 || ByteOf(x, 7) == 0
  {
  }

  /** HASZERO is nonzero exactly when one of the eight bytes is zero. */
  lemma HasZeroExact(x: bv64)
    ensures HasZero(x) != 0 <==> exists k: nat :: k < 8 && ByteOf(x, k) == 0
  {
    HasZeroBits(x);
    if k: nat :| k < 8 && ByteOf(x, k) == 0 {
      assert k == 0 || k == 1 || k == 2 || k == 3 || k == 4 || k == 5 || k == 6 || k == 7;
    }
  }

  /** HASZERO of an XOR finds the bytes in which two words agree. */
  lemma HasZeroXor(w: bv64, k: bv64)
    ensures HasZero(w ^ k) != 0 <==>
            || ByteOf(w, 0) == ByteOf(k, 0) || ByteOf(w, 1) == ByteOf(k, 1)
            || ByteOf(w, 2) == ByteOf(k, 2) || ByteOf(w, 3) == ByteOf(k, 3)
            || ByteOf(w, 4) == ByteOf(k, 4) || ByteOf(w, 5) == ByteOf(k, 5)
            || ByteOf(w, 6) == ByteOf(k, 6) || ByteOf(w, 7) == ByteOf(k, 7)
  {
  }

  /** Every byte of ONES * c is c. */
  lemma Splat(c: bv8)
    ensures IsSplat(ONES * (c as bv64), c)
  {
  }

  /** A word with `c` in every byte. */
  predicate IsSplat(k: bv64, c: bv8) {
    && ByteOf(k, 0) == c && ByteOf(k, 1) == c && ByteOf(k, 2) == c && ByteOf(k, 3) == c
    && ByteOf(k, 4) == c && ByteOf(k, 5) == c && ByteOf(k, 6) == c && ByteOf(k, 7) == c
  }

  /** The word test of memchr: HASZERO of the XOR with a splat of `c` is nonzero
      exactly when some byte is `c`. */
  lemma WordTest(w: bv64, k: bv64, c: bv8)
    requires IsSplat(k, c)
    ensures HasZero(w ^ k) != 0 <==>
            || ByteOf(w, 0) == c || ByteOf(w, 1) == c || ByteOf(w, 2) == c || ByteOf(w, 3) == c
            || ByteOf(w, 4) == c || ByteOf(w, 5) == c || ByteOf(w, 6) == c || ByteOf(w, 7) == c
  {
    HasZeroXor(w, k);
  }

  lemma Quotient(w: nat, q: nat, r: nat, d: nat)
    requires 0 < d && r < d && w == d * q + r
    ensures w / d == q && w % d == r
  {
    assert w == d * (w / d) + w % d;
    Gap(q, w / d, d);
    Gap(w / d, q, d);
  }

  lemma Gap(a: nat, b: nat, d: nat)
    ensures a < b ==> d * a + d <= d * b
  {
    if a < b {
      assert d * (a + 1) <= d * b;
    }
  }
}
