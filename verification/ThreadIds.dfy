/**
 Thread ids on the wire (src/gdb.c): write_thread_id, parse_thread_id and the
 qfThreadInfo reply.
 */
module ThreadIds {
  import opened Options
  import opened Words
  import opened Chars
  import opened Hex
  import opened Debugger

  const LETTER_P: byte := 112
  const LETTER_M: byte := 109
  const DIGIT_1: byte := 49
  const COMMA: byte := 44

  /** A process and thread id as the library parses them; -1 stands for all. */
  datatype WireId = WireId(proc: int, thread: int)

  // ---------------------------------------------------------------------------
  // Writing

  /** Both ids are cut down to one byte. */
  function IdText(proc: nat, thread: nat): (r: seq<byte>)
    ensures |r| == 6
  {
    [LETTER_P] + ByteText(proc % 256) + [DOT] + ByteText(thread % 256)
  }

  method WriteThreadId(buf: array<byte>, at: nat, proc: nat, thread: nat) returns (r: nat)
    requires at + 6 < buf.Length
    modifies buf
    ensures r == at + 6
    ensures buf[at..r] == IdText(proc, thread) && buf[r] == NUL
    ensures forall k :: 0 <= k < at || r < k < buf.Length ==> buf[k] == old(buf[k])
  {
    var procByte := new byte[1] [proc % 256];
    var threadByte := new byte[1] [thread % 256];
    r := at;
    buf[r] := LETTER_P;
    r := Mem2Hex(procByte, 0, buf, r + 1, 1);
    assert buf[at + 1..r] == ByteText(proc % 256);
    buf[r] := DOT;
    assert buf[at..r + 1] == [LETTER_P] + ByteText(proc % 256) + [DOT];
    ghost var before := buf[at..r + 1];
    r := Mem2Hex(threadByte, 0, buf, r + 1, 1);
    assert buf[at + 4..r] == ByteText(thread % 256);
    assert buf[at..at + 4] == before;
    assert buf[at..r] == buf[at..at + 4] + buf[at + 4..r];
  }

  // ---------------------------------------------------------------------------
  // Parsing

  function FirstDot(text: seq<byte>, k: nat): (n: nat)
    requires k <= |text|
    ensures k <= n <= |text|
    ensures n < |text| ==> text[n] == DOT
    ensures forall x :: k <= x < n ==> text[x] != DOT
    decreases |text| - k
  {
    if k == |text| || text[k] == DOT then k else FirstDot(text, k + 1)
  }

  function HexEnd(text: seq<byte>, k: nat): (n: nat)
    requires k <= |text|
    ensures k <= n <= |text|
    ensures n < |text| ==> !IsHex(text[n])
    ensures forall x :: k <= x < n ==> IsHex(text[x])
    decreases |text| - k
  {
    if k == |text| || !IsHex(text[k]) then k else HexEnd(text, k + 1)
  }

  /** What strncmp(ptr, "-1", 3) == 0 asks for: the packet ends after the -1. */
  predicate MinusOne(text: seq<byte>, k: nat) {
    k + 2 < |text| && text[k] == MINUS && text[k + 1] == DIGIT_1 && text[k + 2] == NUL
  }

  /** hex2mem into the low bytes of a little-endian int that holds `prior`: the bytes
      not written stay. */
  function Overlaid(text: seq<byte>, k: nat, pairs: nat, prior: int): int
    requires k + 2 * pairs <= |text|
    decreases pairs
  {
    if pairs == 0 then prior
    else PairByte(text[k], text[k + 1]) + 256 * Overlaid(text, k + 2, pairs - 1, prior / 256)
  }

  // Pairs of digits that fill an int, and the digits the parser makes of them at most.
  const INT_BYTES := 4
  const MAX_ID_DIGITS := 9

  /** The low 32 bits as a signed number. */
  function ToInt(v: int): int {
    (v + 0x8000_0000) % 0x1_0000_0000 - 0x8000_0000
  }

  /** The id read from text[k..end] into an int that holds `prior`: one digit, or pairs of
      digits with an odd last digit left out. */
  function IdValue(text: seq<byte>, k: nat, end: nat, prior: int): int
    requires k <= end < |text|
  {
    if end - k < 2 then HexcharToInt(text[k])
    else if end - k < 2 * INT_BYTES then Overlaid(text, k, (end - k) / 2, prior)
    else ToInt(Overlaid(text, k, (end - k) / 2, prior))
  }

  /** Where the parser reads inside the packet and writes inside its ints. */
  ghost predicate Parsable(text: seq<byte>, at: nat) {
    && at < |text|
    && (text[at] == LETTER_P && !MinusOne(text, at + 1) ==>
          && at + 1 <= |text|
          && var dot := FirstDot(text, at + 1);
          && dot + 1 < |text| && dot - (at + 1) <= MAX_ID_DIGITS
          && var end := HexEnd(text, dot + 1);
          && end < |text| && end - (dot + 1) <= MAX_ID_DIGITS)
  }

  /** The result of parse_thread_id on out-parameters that hold `prior`. */
  datatype Parsed = Parsed(next: Option<nat>, id: WireId)

  function Parse(text: seq<byte>, at: nat, prior: WireId): Parsed
    requires Parsable(text, at)
  {
    if text[at] != LETTER_P then Parsed(None, prior)
    else if MinusOne(text, at + 1) then Parsed(Some(at + 3), WireId(-1, prior.thread))
    else
      var dot := FirstDot(text, at + 1);
      var proc := IdValue(text, at + 1, dot, prior.proc);
      if MinusOne(text, dot + 1) then Parsed(Some(dot + 3), WireId(proc, -1))
      else
        var end := HexEnd(text, dot + 1);
        Parsed(Some(end), WireId(proc, IdValue(text, dot + 1, end, prior.thread)))
  }

  method ParseId(text: seq<byte>, k: nat, size: nat, prior: int) returns (id: int)
    requires k + size < |text|
    ensures id == IdValue(text, k, k + size, prior)
  {
    var pairs := size / 2;
    if pairs == 0 {
      return HexcharToInt(text[k]);
    }
    id := Unwritten(prior, pairs);
    var i := pairs;
    while i > 0
      invariant 0 <= i <= pairs
      invariant id == Overlaid(text, k + 2 * i, pairs - i, Unwritten(prior, i))
    {
      i := i - 1;
      UnwrittenNext(prior, i);
      id := PairByte(text[k + 2 * i], text[k + 2 * i + 1]) + 256 * id;
    }
    if pairs >= INT_BYTES {
      id := ToInt(id);
    }
  }

  method ParseThreadId(text: seq<byte>, at: nat, prior: WireId) returns (next: Option<nat>, id: WireId)
    requires Parsable(text, at)
    ensures Parsed(next, id) == Parse(text, at, prior)
  {
    next, id := None, prior;
    if text[at] != LETTER_P {
      return;
    }
    var ptr := at + 1;
    if MinusOne(text, ptr) {
      return Some(ptr + 2), WireId(-1, prior.thread);
    }
    var tmp := ptr;
    while text[tmp] != DOT
      invariant ptr <= tmp <= FirstDot(text, ptr)
      decreases |text| - tmp
    {
      tmp := tmp + 1;
    }
    var proc := ParseId(text, ptr, tmp - ptr, prior.proc);
    ptr := tmp + 1;
    if MinusOne(text, ptr) {
      return Some(ptr + 2), WireId(proc, -1);
    }
    tmp := ptr;
    while HexcharToInt(text[tmp]) != -1
      invariant ptr <= tmp <= HexEnd(text, ptr)
      decreases |text| - tmp
    {
      tmp := tmp + 1;
    }
    var thread := ParseId(text, ptr, tmp - ptr, prior.thread);
    return Some(tmp), WireId(proc, thread);
  }

  // ---------------------------------------------------------------------------
  // Out-parameters

  /** The bytes of an int above the lowest `bytes`; 0 when they are all zero. */
  function Unwritten(prior: int, bytes: nat): int
    decreases bytes
  {
    if bytes == 0 then prior else Unwritten(prior / 256, bytes - 1)
  }

  lemma {:induction false} UnwrittenNext(prior: int, bytes: nat)
    ensures Unwritten(prior, bytes + 1) == Unwritten(prior, bytes) / 256
    decreases bytes
  {
    if bytes > 0 {
      UnwrittenNext(prior / 256, bytes - 1);
    }
  }

  /** Two ints overlaid with the same digits agree exactly in the bytes not written. */
  lemma {:induction false} OverlaidAgree(text: seq<byte>, k: nat, pairs: nat, prior: int, prior': int)
    requires k + 2 * pairs <= |text|
    ensures Overlaid(text, k, pairs, prior) == Overlaid(text, k, pairs, prior') <==>
            Unwritten(prior, pairs) == Unwritten(prior', pairs)
    decreases pairs
  {
    if pairs > 0 {
      OverlaidAgree(text, k + 2, pairs - 1, prior / 256, prior' / 256);
    }
  }

  /** The int does not matter: it is overwritten whole, or its other bytes are zero. */
  predicate NothingLeft(size: nat, prior: int) {
    size < 2 || size >= 2 * INT_BYTES || Unwritten(prior, size / 2) == 0
  }

  /** An id is read as into a zeroed int exactly when it has one digit, fills the int, or
      the bytes it does not fill are zero. */
  lemma IdReadExactly(text: seq<byte>, k: nat, end: nat, prior: int)
    requires k <= end < |text| && end - k <= MAX_ID_DIGITS
    ensures IdValue(text, k, end, prior) == IdValue(text, k, end, 0) <==> NothingLeft(end - k, prior)
  {
    var pairs := (end - k) / 2;
    if pairs == INT_BYTES {
      FourBytes(text, k, prior);
    } else {
      OverlaidAgree(text, k, pairs, prior, 0);
      ZeroUnwritten(pairs);
    }
  }

  lemma {:induction false} ZeroUnwritten(bytes: nat)
    ensures Unwritten(0, bytes) == 0
  {
    if bytes > 0 {
      ZeroUnwritten(bytes - 1);
    }
  }

  /** 256 to the power of n. */
  function Radix(n: nat): nat {
    if n == 0 then 1 else 256 * Radix(n - 1)
  }

  /** What the digits write, and what is left above them. */
  lemma {:induction false} OverlaidParts(text: seq<byte>, k: nat, pairs: nat, prior: int)
    requires k + 2 * pairs <= |text|
    ensures Overlaid(text, k, pairs, prior) == Overlaid(text, k, pairs, 0) + Radix(pairs) * Unwritten(prior, pairs)
    decreases pairs
  {
    if pairs > 0 {
      OverlaidParts(text, k + 2, pairs - 1, prior / 256);
      Regroup(Radix(pairs - 1), Unwritten(prior / 256, pairs - 1));
    }
  }

  lemma Regroup(r: int, u: int)
    ensures 256 * (r * u) == (256 * r) * u
  {
  }

  lemma {:induction false} OverlaidBound(text: seq<byte>, k: nat, pairs: nat)
    requires k + 2 * pairs <= |text|
    ensures 0 <= Overlaid(text, k, pairs, 0) < Radix(pairs)
    decreases pairs
  {
    if pairs > 0 {
      OverlaidBound(text, k + 2, pairs - 1);
    }
  }

  /** Four pairs fill the int, whatever it held. */
  lemma FourBytes(text: seq<byte>, k: nat, prior: int)
    requires k + 8 <= |text|
    ensures ToInt(Overlaid(text, k, 4, prior)) == ToInt(Overlaid(text, k, 4, 0))
    ensures 0 <= Overlaid(text, k, 4, 0) < 0x1_0000_0000
  {
    OverlaidParts(text, k, 4, prior);
    OverlaidBound(text, k, 4);
    assert Radix(4) == 0x1_0000_0000 by {
      assert Radix(1) == 256 && Radix(2) == 0x1_0000 && Radix(3) == 0x100_0000;
    }
    WrapAround(Overlaid(text, k, 4, 0), Unwritten(prior, 4));
  }

  lemma WrapAround(v: int, u: int)
    ensures ToInt(v + 0x1_0000_0000 * u) == ToInt(v)
  {
  }

  /** Reading at `at` does not depend on what the out-parameters hold. */
  ghost predicate Clean(text: seq<byte>, at: nat, prior: WireId)
    requires Parsable(text, at)
  {
    text[at] == LETTER_P && !MinusOne(text, at + 1) ==>
      var dot := FirstDot(text, at + 1);
      && NothingLeft(dot - (at + 1), prior.proc)
      && (!MinusOne(text, dot + 1) ==> NothingLeft(HexEnd(text, dot + 1) - (dot + 1), prior.thread))
  }

  /** For an id that names its process: what is read is what zeroed out-parameters give if
      and only if nothing is left of what they held. */
  lemma ParseExactly(text: seq<byte>, at: nat, prior: WireId)
    requires Parsable(text, at) && text[at] == LETTER_P && !MinusOne(text, at + 1)
    ensures Parse(text, at, prior) == Parse(text, at, WireId(0, 0)) <==> Clean(text, at, prior)
  {
    var dot := FirstDot(text, at + 1);
    IdReadExactly(text, at + 1, dot, prior.proc);
    if !MinusOne(text, dot + 1) {
      IdReadExactly(text, dot + 1, HexEnd(text, dot + 1), prior.thread);
    }
  }

  // ---------------------------------------------------------------------------
  // Round trip

  /** The written text stands at `at` and a non-hex character follows it. */
  ghost predicate WrittenAt(text: seq<byte>, at: nat, proc: nat, thread: nat) {
    && at + 6 < |text|
    && text[at..at + 6] == IdText(proc, thread)
    && !IsHex(text[at + 6])
  }

  lemma WrittenChars(text: seq<byte>, at: nat, proc: nat, thread: nat)
    requires WrittenAt(text, at, proc, thread)
    ensures text[at] == LETTER_P && text[at + 3] == DOT
    ensures PairByte(text[at + 1], text[at + 2]) == proc % 256
    ensures PairByte(text[at + 4], text[at + 5]) == thread % 256
    ensures IsHex(text[at + 1]) && IsHex(text[at + 2]) && IsHex(text[at + 4]) && IsHex(text[at + 5])
  {
    var t := text[at..at + 6];
    ByteTextInverse(proc % 256);
    ByteTextInverse(thread % 256);
    assert t[0] == text[at] && t[1] == text[at + 1] && t[2] == text[at + 2] && t[3] == text[at + 3]
        && t[4] == text[at + 4] && t[5] == text[at + 5];
  }

  /** Parsing a written id replaces the low byte of both out-parameters and stops right
      after it; so the ids come back exactly when the other bytes are right already,
      and from zeroed out-parameters exactly when both ids fit a byte. */
  lemma ParseWritten(text: seq<byte>, at: nat, proc: nat, thread: nat, prior: WireId)
    requires WrittenAt(text, at, proc, thread)
    ensures Parsable(text, at)
    ensures Parse(text, at, prior).next == Some(at + 6)
    ensures Parse(text, at, prior).id == WireId(proc, thread) <==>
            prior.proc / 256 == proc / 256 && prior.thread / 256 == thread / 256
    ensures Parse(text, at, WireId(0, 0)).id == WireId(proc, thread) <==> proc < 256 && thread < 256
  {
    WrittenChars(text, at, proc, thread);
    DotFound(text, at + 1);
    HexFound(text, at + 4);
    WrittenIds(text, at, proc, thread, prior);
    WrittenIds(text, at, proc, thread, WireId(0, 0));
    LowByte(proc, prior.proc);
    LowByte(thread, prior.thread);
    LowByte(proc, 0);
    LowByte(thread, 0);
  }

  lemma WrittenIds(text: seq<byte>, at: nat, proc: nat, thread: nat, prior: WireId)
    requires WrittenAt(text, at, proc, thread)
    requires text[at] == LETTER_P && !MinusOne(text, at + 1) && !MinusOne(text, at + 4)
    requires FirstDot(text, at + 1) == at + 3 && HexEnd(text, at + 4) == at + 6
    ensures Parse(text, at, prior) ==
            Parsed(Some(at + 6), WireId(WithLowByte(proc, prior.proc), WithLowByte(thread, prior.thread)))
  {
    WrittenChars(text, at, proc, thread);
    OnePair(text, at + 1, prior.proc);
    OnePair(text, at + 4, prior.thread);
  }

  /** The low byte of `id` under the other bytes of `prior`. */
  function WithLowByte(id: int, prior: int): int {
    id % 256 + 256 * (prior / 256)
  }

  lemma LowByte(id: nat, prior: int)
    ensures WithLowByte(id, prior) == id <==> prior / 256 == id / 256
    ensures id / 256 == 0 <==> id < 256
  {
  }

  lemma DotFound(text: seq<byte>, k: nat)
    requires k + 2 < |text| && IsHex(text[k]) && IsHex(text[k + 1]) && text[k + 2] == DOT
    ensures FirstDot(text, k) == k + 2 && !MinusOne(text, k)
  {
  }

  lemma HexFound(text: seq<byte>, k: nat)
    requires k + 2 < |text| && IsHex(text[k]) && IsHex(text[k + 1]) && !IsHex(text[k + 2])
    ensures HexEnd(text, k) == k + 2 && !MinusOne(text, k)
  {
  }

  lemma OnePair(text: seq<byte>, k: nat, prior: int)
    requires k + 2 < |text|
    ensures IdValue(text, k, k + 2, prior) == PairByte(text[k], text[k + 1]) + 256 * (prior / 256)
  {
    assert Overlaid(text, k + 2, 0, prior / 256) == prior / 256;
  }

  // ---------------------------------------------------------------------------
  // qfThreadInfo

  /** The enabled threads of one inferior from thread `j` on, in table order. */
  function EnabledIn(inf: Inferior, i: nat, j: nat): (r: seq<Slot>)
    requires j <= |inf.threads|
    ensures forall k :: 0 <= k < |r| ==>
              r[k].i == i && j <= r[k].j < |inf.threads| && inf.threads[r[k].j].enabled
    decreases |inf.threads| - j
  {
    if j == |inf.threads| then []
    else if inf.threads[j].enabled then [Slot(i, j)] + EnabledIn(inf, i, j + 1)
    else EnabledIn(inf, i, j + 1)
  }

  function EnabledFrom(infs: seq<Inferior>, i: nat): (r: seq<Slot>)
    requires i <= |infs|
    ensures forall k :: 0 <= k < |r| ==> i <= r[k].i && Live(infs, r[k].i, r[k].j)
    decreases |infs| - i
  {
    if i == |infs| then []
    else if infs[i].enabled then EnabledIn(infs[i], i, 0) + EnabledFrom(infs, i + 1)
    else EnabledFrom(infs, i + 1)
  }

  /** Table order. */
  predicate Before(a: Slot, b: Slot) {
    a.i < b.i || (a.i == b.i && a.j < b.j)
  }

  ghost predicate Ordered(r: seq<Slot>) {
    forall k, l :: 0 <= k < l < |r| ==> Before(r[k], r[l])
  }

  lemma OrderedAppend(a: seq<Slot>, b: seq<Slot>)
    requires Ordered(a) && Ordered(b)
    requires forall k, l :: 0 <= k < |a| && 0 <= l < |b| ==> Before(a[k], b[l])
    ensures Ordered(a + b)
  {
  }

  lemma {:induction false} EnabledInOrdered(inf: Inferior, i: nat, from: nat)
    requires from <= |inf.threads|
    ensures Ordered(EnabledIn(inf, i, from))
    decreases |inf.threads| - from
  {
    if from < |inf.threads| {
      EnabledInOrdered(inf, i, from + 1);
      if inf.threads[from].enabled {
        OrderedAppend([Slot(i, from)], EnabledIn(inf, i, from + 1));
      }
    }
  }

  lemma {:induction false} EnabledInListed(inf: Inferior, i: nat, from: nat, j: nat)
    requires from <= j < |inf.threads| && inf.threads[j].enabled
    ensures Slot(i, j) in EnabledIn(inf, i, from)
    decreases j - from
  {
    if from == j {
      assert EnabledIn(inf, i, from)[0] == Slot(i, j);
    } else {
      EnabledInListed(inf, i, from + 1, j);
      InTail([Slot(i, from)], EnabledIn(inf, i, from + 1), Slot(i, j));
    }
  }

  lemma InTail(a: seq<Slot>, b: seq<Slot>, s: Slot)
    ensures s in b ==> s in a + b
    ensures s in a ==> s in a + b
  {
  }

  /** The reply lists the enabled threads in table order and so once each... */
  lemma {:induction false} EnabledOrdered(infs: seq<Inferior>, from: nat)
    requires from <= |infs|
    ensures Ordered(EnabledFrom(infs, from))
    decreases |infs| - from
  {
    if from < |infs| {
      EnabledOrdered(infs, from + 1);
      if infs[from].enabled {
        EnabledInOrdered(infs[from], from, 0);
        OrderedAppend(EnabledIn(infs[from], from, 0), EnabledFrom(infs, from + 1));
      }
    }
  }

  /** ...and all of them. */
  lemma {:induction false} EnabledListed(infs: seq<Inferior>, from: nat, i: nat, j: nat)
    requires from <= i && Live(infs, i, j)
    ensures Slot(i, j) in EnabledFrom(infs, from)
    decreases i - from
  {
    if infs[from].enabled {
      InTail(EnabledIn(infs[from], from, 0), EnabledFrom(infs, from + 1), Slot(i, j));
    }
    if from == i {
      EnabledInListed(infs[i], i, 0, j);
    } else {
      EnabledListed(infs, from + 1, i, j);
    }
  }

  function SlotText(infs: seq<Inferior>, s: Slot): (r: seq<byte>)
    requires Live(infs, s.i, s.j)
    ensures |r| == 6
  {
    IdText(infs[s.i].gdbId, infs[s.i].threads[s.j].gdbId)
  }

  ghost predicate AllLive(infs: seq<Inferior>, slots: seq<Slot>) {
    forall k :: 0 <= k < |slots| ==> Live(infs, slots[k].i, slots[k].j)
  }

  /** The reply without its NUL: `m` and the ids with commas between them. */
  function ReplyText(infs: seq<Inferior>, slots: seq<Slot>): (r: seq<byte>)
    requires AllLive(infs, slots)
    ensures |r| == if |slots| == 0 then 1 else 7 * |slots|
    ensures r[0] == LETTER_M
  {
    if slots == [] then [LETTER_M]
    else
      var n := |slots| - 1;
      ReplyText(infs, slots[..n]) + (if n > 0 then [COMMA] else []) + SlotText(infs, slots[n])
  }

  /** GDB's side of the reply, `text` being NUL-terminated: ids up to the first
      character that is not a comma. */
  ghost predicate ReadsAs(text: seq<byte>, at: nat, ids: seq<WireId>)
    decreases |ids|
  {
    if ids == [] then false
    else
      && Parsable(text, at)
      && var p := Parse(text, at, WireId(0, 0));
      && p.id == ids[0] && p.next.Some?
      && var next := p.next.value;
      && next < |text|
      && (if |ids| == 1 then text[next] == NUL else text[next] == COMMA && ReadsAs(text, next + 1, ids[1..]))
  }

  function WireIds(infs: seq<Inferior>, slots: seq<Slot>): (r: seq<WireId>)
    requires AllLive(infs, slots)
    ensures |r| == |slots|
  {
    seq(|slots|, k requires 0 <= k < |slots| =>
      WireId(infs[slots[k].i].gdbId, infs[slots[k].i].threads[slots[k].j].gdbId))
  }

  /** The id at position `k` of the reply starts after 7 * k + 1 characters. */
  lemma {:induction false} ReplyTextAt(infs: seq<Inferior>, slots: seq<Slot>, k: nat)
    requires AllLive(infs, slots) && k < |slots|
    ensures var t := ReplyText(infs, slots);
            && t[7 * k + 1..7 * k + 7] == SlotText(infs, slots[k])
            && (k + 1 < |slots| ==> t[7 * k + 7] == COMMA)
    decreases |slots|
  {
    var n := |slots| - 1;
    var t := ReplyText(infs, slots);
    var init := ReplyText(infs, slots[..n]);
    if k < n {
      ReplyTextAt(infs, slots[..n], k);
      assert t[7 * k + 1..7 * k + 7] == init[7 * k + 1..7 * k + 7];
      if k + 1 < n {
        assert t[7 * k + 7] == init[7 * k + 7];
      }
    } else {
      assert t[7 * k + 1..7 * k + 7] == SlotText(infs, slots[k]);
    }
  }

  /** Ids that fit the wire's single byte. */
  ghost predicate IdsFit(infs: seq<Inferior>, slots: seq<Slot>)
    requires AllLive(infs, slots)
  {
    forall k :: 0 <= k < |slots| ==>
      infs[slots[k].i].gdbId < 256 && infs[slots[k].i].threads[slots[k].j].gdbId < 256
  }

  /** The id number `k` of a reply with all of `ids`, and what follows it. */
  ghost predicate EntryAt(text: seq<byte>, ids: seq<WireId>, k: nat)
    requires k < |ids|
  {
    && 0 <= ids[k].proc < 256 && 0 <= ids[k].thread < 256
    && WrittenAt(text, 7 * k + 1, ids[k].proc, ids[k].thread)
    && text[7 * k + 7] == if k + 1 < |ids| then COMMA else NUL
  }

  lemma {:induction false} EntriesRead(text: seq<byte>, ids: seq<WireId>, k: nat)
    requires k < |ids| && forall m: nat :: k <= m < |ids| ==> EntryAt(text, ids, m)
    ensures ReadsAs(text, 7 * k + 1, ids[k..])
    decreases |ids| - k
  {
    assert EntryAt(text, ids, k);
    if k + 1 < |ids| {
      EntriesRead(text, ids, k + 1);
      assert ids[k..][1..] == ids[k + 1..];
    }
    EntryRead(text, 7 * k + 1, ids[k..]);
  }

  lemma EntryRead(text: seq<byte>, at: nat, ids: seq<WireId>)
    requires ids != [] && 0 <= ids[0].proc < 256 && 0 <= ids[0].thread < 256
    requires WrittenAt(text, at, ids[0].proc, ids[0].thread)
    requires if |ids| == 1 then text[at + 6] == NUL else text[at + 6] == COMMA && ReadsAs(text, at + 7, ids[1..])
    ensures ReadsAs(text, at, ids)
  {
    ParseWritten(text, at, ids[0].proc, ids[0].thread, WireId(0, 0));
  }

  lemma ReplyReadsAs(infs: seq<Inferior>, slots: seq<Slot>, text: seq<byte>)
    requires AllLive(infs, slots) && IdsFit(infs, slots) && slots != []
    requires 7 * |slots| < |text| && text[..7 * |slots|] == ReplyText(infs, slots) && text[7 * |slots|] == NUL
    ensures ReadsAs(text, 1, WireIds(infs, slots))
  {
    var ids := WireIds(infs, slots);
    forall m: nat | m < |ids| ensures EntryAt(text, ids, m) {
      ReplyCharsAt(infs, slots, text, m);
    }
    EntriesRead(text, ids, 0);
    assert ids[0..] == ids;
  }

  lemma ReplyCharsAt(infs: seq<Inferior>, slots: seq<Slot>, text: seq<byte>, k: nat)
    requires AllLive(infs, slots) && k < |slots|
    requires 7 * |slots| < |text| && text[..7 * |slots|] == ReplyText(infs, slots) && text[7 * |slots|] == NUL
    ensures WrittenAt(text, 7 * k + 1, infs[slots[k].i].gdbId, infs[slots[k].i].threads[slots[k].j].gdbId)
    ensures text[7 * k + 7] == if k + 1 < |slots| then COMMA else NUL
  {
    var t := ReplyText(infs, slots);
    ReplyTextAt(infs, slots, k);
    assert text[7 * k + 1..7 * k + 7] == t[7 * k + 1..7 * k + 7];
    assert k + 1 < |slots| ==> text[7 * k + 7] == t[7 * k + 7];
  }

  /** `text` starts with the reply for `done`, NUL-terminated once it lists a thread. */
  ghost predicate Shows(infs: seq<Inferior>, done: seq<Slot>, text: seq<byte>, len: nat) {
    && AllLive(infs, done)
    && len == |ReplyText(infs, done)| < |text|
    && text[..len] == ReplyText(infs, done)
    && (done != [] ==> text[len] == NUL)
  }

  /** One more id, after a comma unless it is the first. */
  method PutThread(infs: seq<Inferior>, output: array<byte>, len: nat, printed: nat,
                   ghost done: seq<Slot>, s: Slot) returns (end: nat)
    requires Live(infs, s.i, s.j)
    requires printed == |done| < 292 && output.Length == BUFSIZE
    requires Shows(infs, done, output[..], len)
    modifies output
    ensures Shows(infs, done + [s], output[..], end)
  {
    assert output[..][..len] == output[..len];
    var at := len;
    if printed > 0 {
      output[at] := COMMA;
      at := at + 1;
    }
    ghost var before := output[..at];
    assert before == ReplyText(infs, done) + (if |done| > 0 then [COMMA] else []);
    end := WriteThreadId(output, at, infs[s.i].gdbId, infs[s.i].threads[s.j].gdbId);
    assert output[..at] == before;
    assert output[..][..end] == output[..at] + output[at..end];
    assert (done + [s])[..|done|] == done;
  }

  lemma NextInferior(infs: seq<Inferior>, i: nat, done: seq<Slot>)
    requires i < |infs|
    ensures done + EnabledFrom(infs, i) ==
            (if infs[i].enabled then done + EnabledIn(infs[i], i, 0) else done) + EnabledFrom(infs, i + 1)
  {
  }

  lemma NextThread(inf: Inferior, i: nat, j: nat, done: seq<Slot>)
    requires j < |inf.threads|
    ensures done + EnabledIn(inf, i, j) ==
            (if inf.threads[j].enabled then done + [Slot(i, j)] else done) + EnabledIn(inf, i, j + 1)
  {
  }

  /** With ids that fit a byte the reply reads back as exactly the enabled threads, once each and in table order. */
  lemma ThreadInfoReadsBack(infs: seq<Inferior>, text: seq<byte>)
    requires var slots := EnabledFrom(infs, 0);
             && slots != [] && IdsFit(infs, slots)
             && Shows(infs, slots, text, |ReplyText(infs, slots)|)
    ensures var slots := EnabledFrom(infs, 0);
            && ReadsAs(text, 1, WireIds(infs, slots))
            && Ordered(slots)
            && forall i, j :: 0 <= i && 0 <= j ==> (Live(infs, i, j) <==> Slot(i, j) in slots)
  {
    ReplyReadsAs(infs, EnabledFrom(infs, 0), text);
    EnabledOrdered(infs, 0);
    forall i: nat, j: nat | Live(infs, i, j) ensures Slot(i, j) in EnabledFrom(infs, 0) {
      EnabledListed(infs, 0, i, j);
    }
  }

  /** Nothing in the code bounds the reply: it fits its buffer exactly when at most 292
      threads are enabled. */
  lemma ReplyFitsExactly(infs: seq<Inferior>)
    ensures |ReplyText(infs, EnabledFrom(infs, 0))| + 1 <= BUFSIZE <==> |EnabledFrom(infs, 0)| <= 292
  {
  }

  lemma {:induction false} AllListed(inf: Inferior, i: nat, from: nat)
    requires from <= |inf.threads| && forall j :: from <= j < |inf.threads| ==> inf.threads[j].enabled
    ensures |EnabledIn(inf, i, from)| == |inf.threads| - from
    decreases |inf.threads| - from
  {
    if from < |inf.threads| {
      AllListed(inf, i, from + 1);
    }
  }

  /** Two full inferiors are already too many. */
  lemma TwoFullInferiors(infs: seq<Inferior>)
    requires |infs| == MAX_PDS
    requires forall i :: 0 <= i < 2 ==> infs[i].enabled && |infs[i].threads| == MAX_THREADS
    requires forall i, j :: 0 <= i < 2 && 0 <= j < MAX_THREADS ==> infs[i].threads[j].enabled
    ensures |ReplyText(infs, EnabledFrom(infs, 0))| + 1 > BUFSIZE
  {
    AllListed(infs[0], 0, 0);
    AllListed(infs[1], 1, 0);
    assert EnabledFrom(infs, 1) == EnabledIn(infs[1], 1, 0) + EnabledFrom(infs, 2);
    ReplyFitsExactly(infs);
  }

  /** The qfThreadInfo branch of handle_query. */
  method ThreadInfo(infs: seq<Inferior>, output: array<byte>) returns (len: nat)
    requires output.Length == BUFSIZE
    requires |EnabledFrom(infs, 0)| <= 292
    modifies output
    ensures Shows(infs, EnabledFrom(infs, 0), output[..], len)
    // The reply is a string exactly if it lists a thread or the buffer happens to end it.
    ensures IsString(output[..], ReplyText(infs, EnabledFrom(infs, 0))) <==>
            EnabledFrom(infs, 0) != [] || old(output[1]) == NUL
  {
    ghost var all := EnabledFrom(infs, 0);
    ghost var done: seq<Slot> := [];
    output[0] := LETTER_M;
    ghost var begun := output[..];
    len := 1;
    var printed := 0;
    for i := 0 to |infs|
      invariant all == done + EnabledFrom(infs, i)
      invariant printed == |done| && Shows(infs, done, output[..], len)
      invariant done == [] ==> output[..] == begun
    {
      NextInferior(infs, i, done);
      if infs[i].enabled {
        assert |done + EnabledIn(infs[i], i, 0)| <= |all|;
        len, printed := PutInferior(infs, output, len, printed, i, done);
        done := done + EnabledIn(infs[i], i, 0);
      }
    }
    assert all == done + [] == done;
    ReplyIsString(infs, all, output[..], len);
  }

  /** The text has no NUL, so what follows it decides. */
  lemma ReplyIsString(infs: seq<Inferior>, slots: seq<Slot>, text: seq<byte>, len: nat)
    requires Shows(infs, slots, text, len)
    ensures IsString(text, ReplyText(infs, slots)) <==> text[len] == NUL
  {
    ReplyHasNoNul(infs, slots);
  }

  lemma {:induction false} ReplyHasNoNul(infs: seq<Inferior>, slots: seq<Slot>)
    requires AllLive(infs, slots)
    ensures NUL !in ReplyText(infs, slots)
  {
    if slots != [] {
      var n := |slots| - 1;
      ReplyHasNoNul(infs, slots[..n]);
      IdHasNoNul(infs[slots[n].i].gdbId, infs[slots[n].i].threads[slots[n].j].gdbId);
    }
  }

  lemma IdHasNoNul(proc: nat, thread: nat)
    ensures NUL !in IdText(proc, thread)
  {
    ByteTextInverse(proc % 256);
    ByteTextInverse(thread % 256);
  }

  method PutInferior(infs: seq<Inferior>, output: array<byte>, len0: nat, printed0: nat, i: nat,
                     ghost done0: seq<Slot>) returns (len: nat, printed: nat)
    requires i < |infs| && infs[i].enabled
    requires printed0 == |done0| && output.Length == BUFSIZE
    requires |done0 + EnabledIn(infs[i], i, 0)| <= 292
    requires Shows(infs, done0, output[..], len0)
    modifies output
    ensures printed == |done0 + EnabledIn(infs[i], i, 0)|
    ensures Shows(infs, done0 + EnabledIn(infs[i], i, 0), output[..], len)
    ensures EnabledIn(infs[i], i, 0) == [] ==> output[..] == old(output[..])
  {
    ghost var done := done0;
    len, printed := len0, printed0;
    for j := 0 to |infs[i].threads|
      invariant done0 + EnabledIn(infs[i], i, 0) == done + EnabledIn(infs[i], i, j)
      invariant printed == |done| && Shows(infs, done, output[..], len)
      invariant done == done0 ==> output[..] == old(output[..])
      invariant |done| >= |done0|
    {
      NextThread(infs[i], i, j, done);
      if infs[i].threads[j].enabled {
        len := PutThread(infs, output, len, printed, done, Slot(i, j));
        printed := printed + 1;
        done := done + [Slot(i, j)];
      }
    }
    assert done0 + EnabledIn(infs[i], i, 0) == done + [] == done;
  }
}
