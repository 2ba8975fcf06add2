/**
 The hexadecimal codecs of src/util.c, over bytes in arrays.
 */
module Hex {
  import opened Words
  import opened Chars

  predicate IsHex(c: byte) {
    HexcharToInt(c) != -1
  }

  function HexcharToInt(c: byte): (r: int)
    ensures -1 <= r < 16
  {
    if 48 <= c <= 57 then c - 48
    else if 97 <= c <= 102 then c - 97 + 10
    else if 65 <= c <= 70 then c - 65 + 10
    else -1
  }

  function IntToHexchar(i: int): byte {
    if i < 0 || i > 15 then 255
    else if i < 10 then 48 + i
    else 97 + (i - 10)
  }

  /** The two codecs are inverse on digits; upper-case digits are read as well. */
  lemma HexcharInverse(i: int, c: byte)
    ensures 0 <= i < 16 ==> HexcharToInt(IntToHexchar(i)) == i
    ensures IsHex(c) ==> HexcharToInt(IntToHexchar(HexcharToInt(c))) == HexcharToInt(c)
  {
  }

  /** The byte hex2mem makes of two characters, digits or not, in unsigned char arithmetic. */
  function PairByte(hi: byte, lo: byte): byte {
    (16 * HexcharToInt(hi) + HexcharToInt(lo)) % 256
  }

  function ByteText(b: byte): seq<byte> {
    [IntToHexchar(b / 16), IntToHexchar(b % 16)]
  }

  function HexText(mem: seq<byte>): (r: seq<byte>)
    ensures |r| == 2 * |mem|
  {
    seq(2 * |mem|, k requires 0 <= k < 2 * |mem| => ByteText(mem[k / 2])[k % 2])
  }

  /** What hex2mem reads from a text of an even number of characters. */
  function Unhex(text: seq<byte>): (r: seq<byte>)
    requires |text| % 2 == 0
    ensures |r| == |text| / 2
  {
    seq(|text| / 2, k requires 0 <= k < |text| / 2 => PairByte(text[2 * k], text[2 * k + 1]))
  }

  lemma ByteTextInverse(b: byte)
    ensures PairByte(ByteText(b)[0], ByteText(b)[1]) == b
    ensures IsHex(ByteText(b)[0]) && IsHex(ByteText(b)[1])
  {
  }

  /** hex2mem undoes mem2hex. */
  lemma UnhexOfHex(mem: seq<byte>)
    ensures Unhex(HexText(mem)) == mem
  {
    forall k | 0 <= k < |mem| ensures Unhex(HexText(mem))[k] == mem[k] {
      ByteTextInverse(mem[k]);
      assert HexText(mem)[2 * k] == ByteText(mem[k])[0];
      assert HexText(mem)[2 * k + 1] == ByteText(mem[k])[1];
    }
  }

  /** Writes the digits of mem[m..m+size] and a NUL at buf[b..]; returns where the NUL is. */
  method Mem2Hex(mem: array<byte>, m: nat, buf: array<byte>, b: nat, size: nat) returns (r: nat)
    requires mem != buf && m + size <= mem.Length && b + 2 * size < buf.Length
    modifies buf
    ensures r == b + 2 * size
    ensures buf[b..r] == HexText(mem[m..m + size]) && buf[r] == NUL
    ensures forall k :: 0 <= k < b || r < k < buf.Length ==> buf[k] == old(buf[k])
  {
    r := b;
    for i := 0 to size
      invariant r == b + 2 * i
      invariant forall k :: 0 <= k < 2 * i ==> buf[b + k] == ByteText(mem[m + k / 2])[k % 2]
      invariant forall k :: 0 <= k < b || r <= k < buf.Length ==> buf[k] == old(buf[k])
    {
      var c := mem[m + i];
      buf[r] := IntToHexchar(c / 16);
      buf[r + 1] := IntToHexchar(c % 16);
      r := r + 2;
    }
    buf[r] := NUL;
  }

  /** Reads 2 * size characters of buf into mem; returns the position after them. */
  method Hex2Mem(buf: array<byte>, b: nat, mem: array<byte>, m: nat, size: nat) returns (r: nat)
    requires mem != buf && m + size <= mem.Length && b + 2 * size <= buf.Length
    modifies mem
    ensures r == b + 2 * size
    ensures mem[m..m + size] == Unhex(buf[b..r])
    ensures forall k :: 0 <= k < m || m + size <= k < mem.Length ==> mem[k] == old(mem[k])
  {
    r := b;
    for i := 0 to size
      invariant r == b + 2 * i
      invariant forall k :: 0 <= k < i ==> mem[m + k] == PairByte(buf[b + 2 * k], buf[b + 2 * k + 1])
      invariant forall k :: 0 <= k < m || m + i <= k < mem.Length ==> mem[k] == old(mem[k])
    {
      mem[m + i] := PairByte(buf[r], buf[r + 1]);
      r := r + 2;
    }
  }

  // ---------------------------------------------------------------------------
  // hexstr_to_int

  /** Length of the run of hex digits at the start of a text. */
  function HexRun(text: seq<byte>): (n: nat)
    ensures n <= |text|
    ensures forall k :: 0 <= k < n ==> IsHex(text[k])
    ensures n < |text| ==> !IsHex(text[n])
  {
    if text == [] || !IsHex(text[0]) then 0 else 1 + HexRun(text[1..])
  }

  /** The number a text of hex digits stands for. */
  function Number(digits: seq<byte>): nat
    requires forall k :: 0 <= k < |digits| ==> IsHex(digits[k])
  {
    if digits == [] then 0 else
    assert IsHex(digits[|digits| - 1]);
    16 * Number(digits[..|digits| - 1]) + HexcharToInt(digits[|digits| - 1])
  }

  /** Shifting in a digit commutes with dropping the top. */
  lemma ShiftIn(a: nat, d: int)
    ensures (a % 0x1_0000_0000_0000_0000 * 16 + d) % 0x1_0000_0000_0000_0000 == (16 * a + d) % 0x1_0000_0000_0000_0000
  {
  }

  /** Reads at most `max` digits of a NUL-terminated text into a 64-bit value,
      dropping the digits shifted out at the top. */
  method HexstrToInt(text: seq<byte>, max: nat, val0: nat) returns (n: nat, val: nat)
    requires NUL in text && val0 < 0x1_0000_0000_0000_0000
    ensures n == (if HexRun(text) < max then HexRun(text) else max)
    ensures val0 == 0 ==> val == Number(text[..n]) % 0x1_0000_0000_0000_0000
  {
    n, val := 0, val0;
    while text[n] != NUL && n < max
      invariant n <= |text| && n <= max && (exists z :: n <= z < |text| && text[z] == NUL)
      invariant forall k :: 0 <= k < n ==> IsHex(text[k])
      invariant n <= HexRun(text)
      invariant val0 == 0 ==> val == Number(text[..n]) % 0x1_0000_0000_0000_0000
      invariant val < 0x1_0000_0000_0000_0000
      decreases max - n
    {
      var d := HexcharToInt(text[n]);
      if d == -1 {
        return;
      }
      assert text[..n + 1][..n] == text[..n];
      ShiftIn(Number(text[..n]), d);
      // The shifted value has its low four bits clear, so the OR is a sum.
      val := (val * 16 + d) % 0x1_0000_0000_0000_0000;
      n := n + 1;
    }
  }
}
