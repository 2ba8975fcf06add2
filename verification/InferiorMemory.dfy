/**
 Reading inferior memory for an m packet (src/arch/arm/64/gdb.c): a word at a time
 from the kernel, a digit pair at a time into the reply.
 */
module InferiorMemory {
  import opened Options
  import opened Words
  import opened Chars
  import opened Memory
  import opened Hex

  const WORD := 8

  function ByteAt(w: Word, k: nat): byte
    requires k < WORD
  {
    if k == 0 then w.b0 else if k == 1 then w.b1 else if k == 2 then w.b2 else if k == 3 then w.b3
    else if k == 4 then w.b4 else if k == 5 then w.b5 else if k == 6 then w.b6 else w.b7
  }

  /** Every word the loop asks for can be read. */
  predicate Readable(v: VSpace, a: nat, size: nat) {
    forall x :: a <= x < a + size && (x - a) % WORD == 0 ==> x in v.readable
  }

  /** The bytes of inferior memory from `a` on. */
  function Bytes(v: VSpace, a: nat, size: nat): (r: seq<byte>)
    requires forall x :: a <= x < a + size ==> x in v.bytes
    ensures |r| == size
  {
    seq(size, k requires 0 <= k < size => v.bytes[a + k])
  }

  /** A word is what memory holds at an address. */
  ghost predicate Holds(v: VSpace, at: int, w: Word) {
    forall k {:trigger ByteAt(w, k)} :: 0 <= k < WORD ==>
      at + k >= 0 && at + k in v.bytes && v.bytes[at + k] == ByteAt(w, k)
  }

  /** The word read last, and where the next one is. */
  ghost predicate Fetched(v: VSpace, a: nat, i: nat, mem: nat, curr: Word) {
    && (i % WORD == 0 ==> mem == a + i)
    && (i % WORD != 0 ==> mem == a + (i - i % WORD) + WORD && Holds(v, mem - WORD, curr))
  }

  lemma Fetch(v: VSpace, mem: nat)
    requires v.Valid() && mem in v.readable
    ensures Holds(v, mem, LoadWord(v.bytes, mem))
  {
  }

  lemma ReadableNext(v: VSpace, a: nat, i: nat)
    requires Readable(v, a, i) && (i % WORD == 0 ==> a + i in v.readable)
    ensures Readable(v, a, i + 1)
  {
  }

  /** Reads the next word where one is due. */
  method FetchDue(v: VSpace, a: nat, i: nat, mem0: nat, curr0: Word) returns (ok: bool, mem: nat, curr: Word)
    requires v.Valid() && Fetched(v, a, i, mem0, curr0) && Readable(v, a, i)
    ensures !ok ==> i % WORD == 0 && a + i !in v.readable
    ensures ok ==> a + i in v.bytes && v.bytes[a + i] == ByteAt(curr, i % WORD)
    ensures ok ==> Fetched(v, a, i + 1, mem, curr) && Readable(v, a, i + 1)
  {
    mem, curr := mem0, curr0;
    if i % WORD == 0 {
      var w := v.Read(mem);
      if w.None? {
        return false, mem, curr;
      }
      Fetch(v, mem);
      curr := w.value;
      mem := mem + WORD;
    }
    NextByte(v, a, i, mem, curr);
    ReadableNext(v, a, i);
    return true, mem, curr;
  }

  /** The byte of the word that byte `i` is. */
  lemma NextByte(v: VSpace, a: nat, i: nat, mem: nat, curr: Word)
    requires mem == a + (i - i % WORD) + WORD
    requires Holds(v, mem - WORD, curr)
    ensures a + i in v.bytes && v.bytes[a + i] == ByteAt(curr, i % WORD)
    ensures Fetched(v, a, i + 1, mem, curr)
  {
  }

  lemma Unreadable(v: VSpace, a: nat, i: nat, size: nat)
    requires i < size && i % WORD == 0 && a + i !in v.readable
    ensures !Readable(v, a, size)
  {
  }

  /** The digits of the first `i` bytes. */
  function Digits(v: VSpace, a: nat, i: nat): (r: seq<byte>)
    requires forall x :: a <= x < a + i ==> x in v.bytes
    ensures |r| == 2 * i
  {
    if i == 0 then [] else Digits(v, a, i - 1) + ByteText(v.bytes[a + i - 1])
  }

  lemma {:induction false} DigitsAreHex(v: VSpace, a: nat, i: nat)
    requires forall x :: a <= x < a + i ==> x in v.bytes
    ensures Digits(v, a, i) == HexText(Bytes(v, a, i))
  {
    if i > 0 {
      DigitsAreHex(v, a, i - 1);
      assert Bytes(v, a, i) == Bytes(v, a, i - 1) + [v.bytes[a + i - 1]];
      HexTextNext(Bytes(v, a, i - 1), v.bytes[a + i - 1]);
    }
  }

  lemma HexTextNext(mem: seq<byte>, b: byte)
    ensures HexText(mem + [b]) == HexText(mem) + ByteText(b)
  {
  }

  predicate SameFrom(s: seq<byte>, t: seq<byte>, n: nat) {
    |s| == |t| && forall k :: n <= k < |s| ==> t[k] == s[k]
  }

  /** The reply so far holds the digits of the first `i` bytes. */
  ghost predicate Written(v: VSpace, a: nat, i: nat, buf: array<byte>)
    reads buf
  {
    && 2 * i <= buf.Length && (forall x :: a <= x < a + i ==> x in v.bytes)
    && buf[..2 * i] == Digits(v, a, i)
  }

  /** Appends the two digits of byte `i`. */
  method PutByte(v: VSpace, a: nat, i: nat, buf: array<byte>, c: byte) returns (next: nat)
    requires 2 * i + 2 <= buf.Length && Written(v, a, i, buf)
    requires a + i in v.bytes && v.bytes[a + i] == c
    modifies buf
    ensures next == 2 * (i + 1) && Written(v, a, i + 1, buf)
    ensures SameFrom(old(buf[..]), buf[..], next)
  {
    ghost var text := buf[..2 * i];
    buf[2 * i] := IntToHexchar(c / 16);
    buf[2 * i + 1] := IntToHexchar(c % 16);
    next := 2 * i + 2;
    assert buf[..next] == text + ByteText(c);
  }

  /** One turn of the loop. */
  method ReadByte(v: VSpace, a: nat, i: nat, mem0: nat, curr0: Word, buf: array<byte>, ghost size: nat)
    returns (ok: bool, mem: nat, curr: Word, b: nat)
    requires v.Valid() && i < size && 2 * size < buf.Length
    requires Fetched(v, a, i, mem0, curr0) && Readable(v, a, i) && Written(v, a, i, buf)
    modifies buf
    ensures !ok ==> !Readable(v, a, size)
    ensures ok ==> Fetched(v, a, i + 1, mem, curr) && Readable(v, a, i + 1)
    ensures ok ==> b == 2 * (i + 1) && Written(v, a, i + 1, buf)
    ensures SameFrom(old(buf[..]), buf[..], 2 * i + 2)
  {
    ok, mem, curr := FetchDue(v, a, i, mem0, curr0);
    b := 2 * i;
    if ok {
      b := PutByte(v, a, i, buf, ByteAt(curr, i % WORD));
    } else {
      Unreadable(v, a, i, size);
    }
  }

  /** Succeeds exactly when every word it needs can be read; the reply then holds the
      hex digits of exactly the bytes asked for, whatever the alignment and the size, and
      reads back as these bytes. */
  method InfMem2Hex(v: VSpace, a: nat, buf: array<byte>, size: nat) returns (r: Option<nat>)
    requires v.Valid() && 2 * size < buf.Length
    modifies buf
    ensures r.Some? <==> Readable(v, a, size)
    ensures r.Some? ==>
              && (forall x :: a <= x < a + size ==> x in v.bytes)
              && r.value == 2 * size && buf[r.value] == NUL
              && buf[..r.value] == HexText(Bytes(v, a, size))
              && Unhex(buf[..r.value]) == Bytes(v, a, size)
    ensures SameFrom(old(buf[..]), buf[..], 2 * size + 1)
  {
    var mem, curr, b := a, ZERO_WORD, 0;
    var i: nat := 0;
    while i < size
      invariant i <= size && b == 2 * i && 0 <= mem && Fetched(v, a, i, mem, curr)
      invariant Readable(v, a, i) && Written(v, a, i, buf)
      invariant SameFrom(old(buf[..]), buf[..], b)
    {
      var ok;
      ok, mem, curr, b := ReadByte(v, a, i, mem, curr, buf, size);
      if !ok {
        return None;
      }
      i := i + 1;
    }
    EndText(v, a, size, buf);
    return Some(b);
  }

  method EndText(v: VSpace, a: nat, size: nat, buf: array<byte>)
    requires 2 * size < buf.Length && Written(v, a, size, buf)
    modifies buf
    ensures buf[2 * size] == NUL && buf[..2 * size] == HexText(Bytes(v, a, size))
    ensures Unhex(buf[..2 * size]) == Bytes(v, a, size)
    ensures SameFrom(old(buf[..]), buf[..], 2 * size + 1)
  {
    ghost var text := buf[..2 * size];
    buf[2 * size] := NUL;
    assert buf[..2 * size] == text;
    DigitsAreHex(v, a, size);
    UnhexOfHex(Bytes(v, a, size));
  }
}
