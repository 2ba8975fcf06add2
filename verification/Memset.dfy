/**
 memset of src/util.c: overlapping one-, four- and eight-byte stores. An address is
 an index into the memory.
 */
module Memset {
  import opened Words

  ghost predicate Filled(m: seq<byte>, lo: int, hi: int, c: byte) {
    forall k :: lo <= k < hi && 0 <= k < |m| ==> m[k] == c
  }

  /** Only bytes in lo..hi may differ. */
  ghost predicate Outside(m0: seq<byte>, m: seq<byte>, lo: int, hi: int) {
    |m| == |m0| && forall k :: 0 <= k < |m| && !(lo <= k < hi) ==> m[k] == m0[k]
  }

  /** Byte `k` of a little-endian 32-bit word. */
  function Byte32(w: nat, k: nat): byte
    requires k < 4
  {
    if k == 0 then w % 0x100
    else if k == 1 then w / 0x100 % 0x100
    else if k == 2 then w / 0x1_0000 % 0x100
    else w / 0x100_0000 % 0x100
  }

  /** ((u32)-1) / 255 * c is c in every byte. */
  lemma Splat32(c: byte, k: nat)
    requires k < 4
    ensures Byte32(0xFFFF_FFFF / 255 * c, k) == c
  {
    var w := 0x0101_0101 * c;
    Quotient(w, 0x1_0101 * c, c, 0x100);
    Quotient(w, 0x101 * c, 0x101 * c, 0x1_0000);
    Quotient(w, c, 0x1_0101 * c, 0x100_0000);
    Quotient(0x1_0101 * c, 0x101 * c, c, 0x100);
    Quotient(0x101 * c, c, c, 0x100);
  }

  /** A store adds its bytes to whatever is filled already. */
  twostate predicate Stores(mem: array<byte>, a: nat, size: nat, c: byte)
    reads mem
  {
    && (forall k :: a <= k < a + size && k < mem.Length ==> mem[k] == c)
    && (forall k :: 0 <= k < mem.Length && !(a <= k < a + size) ==> mem[k] == old(mem[k]))
  }

  method Store8(mem: array<byte>, a: nat, c: byte)
    requires a < mem.Length
    modifies mem
    ensures Stores(mem, a, 1, c)
  {
    mem[a] := c;
  }

  /** A store through a pointer to a 32-bit word, which must be aligned. */
  method Store32(mem: array<byte>, a: nat, w: nat, ghost c: byte)
    requires a % 4 == 0 && a + 4 <= mem.Length
    requires w == 0xFFFF_FFFF / 255 * c
    modifies mem
    ensures Stores(mem, a, 4, c)
  {
    Splat32(c, 0); Splat32(c, 1); Splat32(c, 2); Splat32(c, 3);
    mem[a] := Byte32(w, 0);
    mem[a + 1] := Byte32(w, 1);
    mem[a + 2] := Byte32(w, 2);
    mem[a + 3] := Byte32(w, 3);
  }

  /** A store of the 64-bit word made of two such halves. */
  method Store64(mem: array<byte>, a: nat, low: nat, high: nat, ghost c: byte)
    requires a % 8 == 0 && a + 8 <= mem.Length
    requires low == high == 0xFFFF_FFFF / 255 * c
    modifies mem
    ensures Stores(mem, a, 8, c)
  {
    Store32(mem, a, low, c);
    Store32(mem, a + 4, high, c);
  }

  /** The body of the main loop. */
  method Fill32(mem: array<byte>, s: nat, c32: nat, ghost c: byte)
    requires s % 8 == 0 && s + 32 <= mem.Length && c32 == 0xFFFF_FFFF / 255 * c
    modifies mem
    ensures Stores(mem, s, 32, c)
  {
    Store64(mem, s, c32, c32, c);
    Store64(mem, s + 8, c32, c32, c);
    Store64(mem, s + 16, c32, c32, c);
    Store64(mem, s + 24, c32, c32, c);
  }

  /** The byte stores at both ends; when it does not finish the job, four bytes at
      each end are filled. */
  method FillBytes(mem: array<byte>, s: nat, n: nat, c: byte) returns (done: bool)
    requires s + n <= mem.Length
    modifies mem
    ensures Outside(old(mem[..]), mem[..], s, s + n)
    ensures done == (n <= 8)
    ensures if done then Filled(mem[..], s, s + n, c)
            else Filled(mem[..], s, s + 4, c) && Filled(mem[..], s + n - 4, s + n, c)
  {
    if n == 0 { return true; }
    Store8(mem, s, c);
    Store8(mem, s + n - 1, c);
    if n <= 2 { return true; }
    Store8(mem, s + 1, c);
    Store8(mem, s + n - 2, c);
    Store8(mem, s + 2, c);
    Store8(mem, s + n - 3, c);
    if n <= 6 { return true; }
    Store8(mem, s + 3, c);
    Store8(mem, s + n - 4, c);
    return n <= 8;
  }

  method Store32Twice(mem: array<byte>, a: nat, w: nat, ghost c: byte)
    requires a % 4 == 0 && a + 8 <= mem.Length && w == 0xFFFF_FFFF / 255 * c
    modifies mem
    ensures Stores(mem, a, 8, c)
  {
    Store32(mem, a, w, c);
    Store32(mem, a + 4, w, c);
  }

  method Store32FourTimes(mem: array<byte>, a: nat, w: nat, ghost c: byte)
    requires a % 4 == 0 && a + 16 <= mem.Length && w == 0xFFFF_FFFF / 255 * c
    modifies mem
    ensures Stores(mem, a, 16, c)
  {
    Store32Twice(mem, a, w, c);
    Store32Twice(mem, a + 8, w, c);
  }

  /** The word stores at both ends of an aligned region of whole words. */
  method FillWords(mem: array<byte>, s: nat, n: nat, c32: nat, ghost c: byte) returns (done: bool)
    requires s % 4 == 0 && n % 4 == 0 && 4 <= n && s + n <= mem.Length
    requires c32 == 0xFFFF_FFFF / 255 * c
    modifies mem
    ensures Outside(old(mem[..]), mem[..], s, s + n)
    ensures done == (n <= 24)
    ensures if done then Filled(mem[..], s, s + n, c)
            else Filled(mem[..], s, s + 28, c) && Filled(mem[..], s + n - 28, s + n, c)
  {
    Store32(mem, s, c32, c);
    Store32(mem, s + n - 4, c32, c);
    if n <= 8 { return true; }
    Store32Twice(mem, s + 4, c32, c);
    Store32Twice(mem, s + n - 12, c32, c);
    if n <= 24 { return true; }
    Store32FourTimes(mem, s + 12, c32, c);
    Store32FourTimes(mem, s + n - 28, c32, c);
    return false;
  }

  lemma AlignedUp(s: nat)
    requires s % 4 == 0
    ensures (s % 8 == 0 || s % 8 == 4) && (s + 24 + s % 8) % 8 == 0
  {
    var p, q := s / 4, s / 8;
    assert s == 4 * p && s % 8 == 4 * (p - 2 * q);
    assert s + 24 + s % 8 == 8 * (q + 3 + (p - 2 * q));
  }

  /** Once 28 bytes at each end are filled: 32 bytes at a time between them. */
  method FillMiddle(mem: array<byte>, s0: nat, n0: nat, c32: nat, ghost c: byte)
    requires s0 % 4 == 0 && n0 % 4 == 0 && 28 <= n0 && s0 + n0 <= mem.Length
    requires c32 == 0xFFFF_FFFF / 255 * c
    requires Filled(mem[..], s0, s0 + 28, c) && Filled(mem[..], s0 + n0 - 28, s0 + n0, c)
    modifies mem
    ensures Filled(mem[..], s0, s0 + n0, c)
    ensures Outside(old(mem[..]), mem[..], s0, s0 + n0)
  {
    // Align to eight bytes.
    var k := 24 + s0 % 8;
    AlignedUp(s0);
    var s: nat := s0 + k;
    var n: nat := n0 - k;
    while n >= 32
      invariant s % 8 == 0 && s + n == s0 + n0 && s0 <= s
      invariant forall i :: s0 <= i < s ==> mem[i] == c
      invariant forall i :: s0 + n0 - 28 <= i < s0 + n0 ==> mem[i] == c
      invariant forall i :: 0 <= i < mem.Length && !(s0 <= i < s0 + n0) ==> mem[i] == old(mem[i])
    {
      Fill32(mem, s, c32, c);
      n := n - 32;
      s := s + 32;
    }
    FourDivides(s0, n0, s, n);
  }

  /** Less than 32 bytes in whole words are at most 28. */
  lemma FourDivides(s0: nat, n0: nat, s: nat, n: nat)
    requires s0 % 4 == 0 && n0 % 4 == 0 && s % 8 == 0 && s + n == s0 + n0 && n < 32
    ensures n <= 28
  {
    assert n == 4 * (s0 / 4 + n0 / 4 - 2 * (s / 8));
  }

  lemma FilledByParts(m0: seq<byte>, m: seq<byte>, lo: int, s: int, e: int, hi: int, c: byte)
    requires 0 <= lo <= s <= lo + 4 && hi - 4 <= e <= hi <= |m0| && s <= e
    requires Filled(m0, lo, lo + 4, c) && Filled(m0, hi - 4, hi, c)
    requires Outside(m0, m, s, e) && Filled(m, s, e, c)
    ensures Filled(m, lo, hi, c)
  {
  }

  /** Sets mem[dest..dest+n] to the low byte of c, and nothing else; all wide stores
      are aligned and inside. */
  method Memset(mem: array<byte>, dest: nat, ci: int, n0: nat)
    requires dest + n0 <= mem.Length
    modifies mem
    ensures Filled(mem[..], dest, dest + n0, ci % 256)
    ensures Outside(old(mem[..]), mem[..], dest, dest + n0)
  {
    var c: byte := ci % 256;
    var done := FillBytes(mem, dest, n0, c);
    if done { return; }
    ghost var m0 := mem[..];

    // Align to four bytes and drop the odd tail; both are filled already.
    var k := (4 - dest % 4) % 4;
    var s: nat := dest + k;
    var n: nat := n0 - k;
    n := n - n % 4;
    assert s % 4 == 0 && 4 <= n;
    var c32 := 0xFFFF_FFFF / 255 * c;
    done := FillWords(mem, s, n, c32, c);
    if !done {
      FillMiddle(mem, s, n, c32, c);
    }
    FilledByParts(m0, mem[..], dest, s, s + n, dest + n0, c);
  }
}
