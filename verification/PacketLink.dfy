/**
 The packet layer of the serial example (debugger.c): frames $payload#checksum of
 the GDB remote serial protocol, received byte by byte, acknowledged and resent.
 Received bytes come from a stream; where it ends, the component waits.
 */
module PacketLink {
  import opened Options
  import opened Words
  import opened Chars
  import opened Hex

  const CTRL_C: byte := 3

  function Sum(s: seq<byte>): byte {
    if s == [] then 0 else (Sum(s[..|s| - 1]) + s[|s| - 1]) % 256
  }

  function Frame(payload: seq<byte>): seq<byte> {
    [DOLLAR] + payload + [HASH, IntToHexchar(Sum(payload) / 16), IntToHexchar(Sum(payload) % 16)]
  }

  // ---------------------------------------------------------------------------
  // The receiver as a machine over bytes

  /** Between two bytes: outside a frame, in its payload, or in its checksum. */
  datatype Rx = Idle | Body(count: nat, sum: byte) | Sum1(sum: byte) | Sum2(sum: byte, high: byte)

  predicate ValidRx(r: Rx) {
    r.Body? ==> r.count < BUFSIZE - 1
  }

  /** What get_packet has come to: `start` is where the payload begins in the buffer. */
  datatype Outcome = Outcome(pos: nat, buf: seq<byte>, sent: seq<byte>, start: Option<nat>)

  /** The bytes sent and the payload's place once a checksum has matched: an old-style
      sequence number is echoed and skipped. */
  function Accepted(buf: seq<byte>): (seq<byte>, nat)
    requires |buf| == BUFSIZE
  {
    if buf[2] == COLON then ([PLUS, buf[0], buf[1]], 3) else ([PLUS], 0)
  }

  /** get_packet from a state between bytes to its return or to the stream's end. */
  function Receive(r: Rx, buf: seq<byte>, stream: seq<byte>, pos: nat, sent: seq<byte>): (o: Outcome)
    requires |buf| == BUFSIZE && pos <= |stream| && ValidRx(r)
    ensures |o.buf| == BUFSIZE
    decreases |stream| - pos
  {
    if pos == |stream| then Outcome(pos, buf, sent, None) else
    var c := stream[pos];
    match r
    case Idle =>
      if c == DOLLAR then Receive(Body(0, 0), buf, stream, pos + 1, sent)
      else if c == CTRL_C then Outcome(pos + 1, buf[0 := c][1 := NUL], sent, Some(0))
      else Receive(Idle, buf, stream, pos + 1, sent)
    case Body(count, sum) =>
      if c == DOLLAR then Receive(Body(0, 0), buf, stream, pos + 1, sent)
      else if c == HASH then Receive(Sum1(sum), buf[count := NUL], stream, pos + 1, sent)
      else if count + 1 == BUFSIZE - 1 then
        Receive(Idle, buf[count := c][BUFSIZE - 1 := NUL], stream, pos + 1, sent)
      else Receive(Body(count + 1, (sum + c) % 256), buf[count := c], stream, pos + 1, sent)
    case Sum1(sum) =>
      Receive(Sum2(sum, (16 * HexcharToInt(c)) % 256), buf, stream, pos + 1, sent)
    case Sum2(sum, high) =>
      if sum != (high + HexcharToInt(c)) % 256 then Receive(Idle, buf, stream, pos + 1, sent + [MINUS])
      else Outcome(pos + 1, buf, sent + Accepted(buf).0, Some(Accepted(buf).1))
  }

  /** get_packet itself: its loops are the machine above. */
  method GetPacket(stream: seq<byte>, pos0: nat, input: array<byte>)
    returns (pos: nat, ghost sent: seq<byte>, start: Option<nat>)
    requires pos0 <= |stream| && input.Length == BUFSIZE
    modifies input
    ensures Outcome(pos, input[..], sent, start) == Receive(Idle, old(input[..]), stream, pos0, [])
  {
    ghost var goal := Receive(Idle, input[..], stream, pos0, []);
    pos, sent, start := pos0, [], None;
    while true
      invariant pos <= |stream| && start == None
      invariant goal == Receive(Idle, input[..], stream, pos, sent)
      decreases |stream| - pos
    {
      ghost var top := pos;
      // Wait for the start character.
      while true
        invariant top <= pos <= |stream|
        invariant goal == Receive(Idle, input[..], stream, pos, sent)
        decreases |stream| - pos
      {
        if pos == |stream| { return; }
        var c := stream[pos];
        pos := pos + 1;
        if c == DOLLAR { break; }
        if c == CTRL_C {
          input[0] := c;
          input[1] := NUL;
          start := Some(0);
          return;
        }
      }
      var done;
      done, pos, sent, start := GetBody(stream, pos, input, sent, goal);
      if done { return; }
    }
  }

  /** One attempt at a frame, its start character read; a new start character
      starts it over. */
  method GetBody(stream: seq<byte>, pos0: nat, input: array<byte>, ghost sent0: seq<byte>, ghost goal: Outcome)
    returns (done: bool, pos: nat, ghost sent: seq<byte>, start: Option<nat>)
    requires pos0 <= |stream| && input.Length == BUFSIZE
    requires goal == Receive(Body(0, 0), input[..], stream, pos0, sent0)
    modifies input
    ensures pos0 <= pos <= |stream|
    ensures done ==> Outcome(pos, input[..], sent, start) == goal
    ensures !done ==> start == None && goal == Receive(Idle, input[..], stream, pos, sent)
  {
    var count, sum: byte := 0, 0;
    var hash := false;
    pos, sent, start := pos0, sent0, None;
    while count < BUFSIZE - 1 && !hash
      invariant pos0 <= pos <= |stream| && 0 <= count <= BUFSIZE - 1
      invariant sent == sent0
      invariant hash ==> count < BUFSIZE - 1 && goal == Receive(Sum1(sum), input[..][count := NUL], stream, pos, sent)
      invariant !hash && count < BUFSIZE - 1 ==> goal == Receive(Body(count, sum), input[..], stream, pos, sent)
      invariant !hash && count == BUFSIZE - 1 ==> goal == Receive(Idle, input[..][count := NUL], stream, pos, sent)
      decreases |stream| - pos, !hash
    {
      if pos == |stream| { return true, pos, sent, None; }
      var c := stream[pos];
      pos := pos + 1;
      if c == DOLLAR {
        count, sum := 0, 0;
      } else if c == HASH {
        hash := true;
      } else {
        ghost var before := input[..];
        sum := (sum + c) % 256;
        input[count] := c;
        assert input[..] == before[count := c];
        count := count + 1;
      }
    }
    ghost var before := input[..];
    input[count] := NUL;
    assert input[..] == before[count := NUL];
    if hash {
      if pos == |stream| { return true, pos, sent, None; }
      var c := stream[pos];
      pos := pos + 1;
      var xsum := (16 * HexcharToInt(c)) % 256;
      if pos == |stream| { return true, pos, sent, None; }
      c := stream[pos];
      pos := pos + 1;
      xsum := (xsum + HexcharToInt(c)) % 256;
      if sum != xsum {
        sent := sent + [MINUS];
      } else {
        if input[2] == COLON {
          sent := sent + [PLUS, input[0], input[1]];
          start := Some(3);
        } else {
          sent := sent + [PLUS];
          start := Some(0);
        }
        return true, pos, sent, start;
      }
    }
    return false, pos, sent, None;
  }

  // ---------------------------------------------------------------------------
  // The sender

  function FirstPlus(acks: seq<byte>): (n: nat)
    ensures n <= |acks| && (n < |acks| ==> acks[n] == PLUS)
    ensures forall k :: 0 <= k < n ==> acks[k] != PLUS
  {
    if acks == [] || acks[0] == PLUS then 0 else 1 + FirstPlus(acks[1..])
  }

  function Copies(s: seq<byte>, n: nat): seq<byte> {
    if n == 0 then [] else Copies(s, n - 1) + s
  }

  lemma StringChars(buf: seq<byte>, text: seq<byte>)
    requires IsString(buf, text)
    ensures forall k :: 0 <= k < |text| ==> buf[k] == text[k] != NUL
  {
  }

  /** The frames of texts, one after another. */
  function Frames(texts: seq<seq<byte>>): seq<byte> {
    if texts == [] then [] else Frame(texts[0]) + Frames(texts[1..])
  }

  lemma {:induction false} FramesNext(texts: seq<seq<byte>>, t: seq<byte>)
    ensures Frames(texts + [t]) == Frames(texts) + Frame(t)
  {
    if texts == [] {
      assert [] + [t] == [t] && Frames([]) == [];
      assert Frame(t) + [] == [] + Frame(t);
    } else {
      assert (texts + [t])[1..] == texts[1..] + [t];
      FramesNext(texts[1..], t);
      Associate(Frame(texts[0]), Frames(texts[1..]), Frame(t));
    }
  }

  /** put_packet: sends a frame for every answer up to the first plus. The buffer is shared
      with the fault handler, which may fill it anew while put_packet waits for an answer:
      `buffers` is what it holds at each attempt, `texts` the strings in it. */
  method PutPacket(buffers: seq<seq<byte>>, acks: seq<byte>, ghost texts: seq<seq<byte>>)
    returns (sent: seq<byte>, done: bool)
    requires FirstPlus(acks) < |buffers| == |texts|
    requires forall k :: 0 <= k < |texts| ==> IsString(buffers[k], texts[k])
    ensures done == (FirstPlus(acks) < |acks|)
    ensures sent == Frames(texts[..FirstPlus(acks) + 1])
  {
    sent := [];
    var pos: nat := 0;
    while true
      invariant pos <= FirstPlus(acks)
      invariant sent == Frames(texts[..pos])
      decreases |acks| - pos
    {
      sent := PutFrame(buffers[pos], sent, texts[pos]);
      FramesNext(texts[..pos], texts[pos]);
      assert texts[..pos] + [texts[pos]] == texts[..pos + 1];
      if pos == |acks| {
        return sent, false;
      }
      if acks[pos] == PLUS {
        return sent, true;
      }
      pos := pos + 1;
    }
  }

  /** One attempt, during which nothing else runs. */
  method PutFrame(buf: seq<byte>, sent0: seq<byte>, ghost text: seq<byte>) returns (sent: seq<byte>)
    requires IsString(buf, text)
    ensures sent == sent0 + Frame(text)
  {
    StringChars(buf, text);
    sent := sent0 + [DOLLAR];
    var buf2 := 0;
    var sum: byte := 0;
    while buf[buf2] != NUL
      invariant buf2 <= |text| && sum == Sum(text[..buf2])
      invariant sent == sent0 + [DOLLAR] + text[..buf2]
      decreases |text| - buf2
    {
      assert text[..buf2 + 1][..buf2] == text[..buf2];
      sum := (sum + buf[buf2]) % 256;
      sent := sent + [buf[buf2]];
      buf2 := buf2 + 1;
    }
    assert text[..buf2] == text;
    sent := sent + [HASH];
    sent := sent + [IntToHexchar(sum / 16)];
    sent := sent + [IntToHexchar(sum % 16)];
  }

  /** The frames are all the same exactly if the buffer never changed. */
  lemma SameFramesExactly(texts: seq<seq<byte>>)
    requires texts != []
    ensures (forall k :: 0 <= k < |texts| ==> Frame(texts[k]) == Frame(texts[0])) <==>
            (forall k :: 0 <= k < |texts| ==> texts[k] == texts[0])
  {
    forall k | 0 <= k < |texts| && Frame(texts[k]) == Frame(texts[0]) ensures texts[k] == texts[0] {
      FrameText(texts[k]);
      FrameText(texts[0]);
    }
  }

  lemma FrameText(t: seq<byte>)
    ensures |Frame(t)| == |t| + 4 && Frame(t)[1..|t| + 1] == t
  {
  }

  lemma PlusAt(acks: seq<byte>, n: nat)
    requires n <= |acks| && (n < |acks| ==> acks[n] == PLUS) && forall k :: 0 <= k < n ==> acks[k] != PLUS
    ensures FirstPlus(acks) == n
  {
  }

  // ---------------------------------------------------------------------------
  // Frames through the receiver

  /** What may stand between the start character and the checksum. */
  predicate IsPayload(p: seq<byte>) {
    |p| <= BUFSIZE - 2 && DOLLAR !in p && HASH !in p
  }

  /** A frame as it may arrive: any payload and two characters for a checksum. */
  datatype Arrival = Arrival(payload: seq<byte>, high: byte, low: byte)

  function Bytes(a: Arrival): seq<byte> {
    [DOLLAR] + a.payload + [HASH, a.high, a.low]
  }

  predicate Matching(a: Arrival) {
    Sum(a.payload) == PairByte(a.high, a.low)
  }

  function Stored(buf: seq<byte>, p: seq<byte>): (r: seq<byte>)
    requires |buf| == BUFSIZE && |p| < BUFSIZE
    ensures |r| == BUFSIZE
  {
    p + [NUL] + buf[|p| + 1..]
  }

  /** Reading payload characters one by one. */
  lemma {:induction false} ReceiveBody(buf: seq<byte>, a: Arrival, stream: seq<byte>, pos: nat, k: nat, sent: seq<byte>)
    requires |buf| == BUFSIZE && IsPayload(a.payload) && k <= |a.payload|
    requires pos + |a.payload| + 3 <= |stream| &&
             stream[pos..pos + |a.payload| + 3] == a.payload + [HASH, a.high, a.low]
    requires a.payload[..k] == buf[..k]
    ensures Receive(Body(k, Sum(a.payload[..k])), buf, stream, pos + k, sent) ==
            Receive(Sum1(Sum(a.payload)), Stored(buf, a.payload), stream, pos + |a.payload| + 1, sent)
    decreases |a.payload| - k
  {
    var p := a.payload;
    PayloadChar(a, stream, pos, k);
    if k < |p| {
      SumNext(p, k);
      BodyStep(buf, stream, pos + k, sent, k, Sum(p[..k]));
      StoredNext(buf, p, k);
      ReceiveBody(buf[k := p[k]], a, stream, pos, k + 1, sent);
    } else {
      assert p[..k] == p;
      assert buf[k := NUL] == Stored(buf, p);
    }
  }

  lemma PayloadChar(a: Arrival, stream: seq<byte>, pos: nat, k: nat)
    requires IsPayload(a.payload) && k <= |a.payload|
    requires pos + |a.payload| + 3 <= |stream| &&
             stream[pos..pos + |a.payload| + 3] == a.payload + [HASH, a.high, a.low]
    ensures if k < |a.payload| then stream[pos + k] == a.payload[k] != DOLLAR && a.payload[k] != HASH
            else stream[pos + k] == HASH
  {
  }

  lemma StoredNext(buf: seq<byte>, p: seq<byte>, k: nat)
    requires |buf| == BUFSIZE && |p| < BUFSIZE && k < |p| && p[..k] == buf[..k]
    ensures Stored(buf[k := p[k]], p) == Stored(buf, p)
    ensures p[..k + 1] == buf[k := p[k]][..k + 1]
  {
  }

  lemma SumNext(p: seq<byte>, k: nat)
    requires k < |p|
    ensures Sum(p[..k + 1]) == (Sum(p[..k]) + p[k]) % 256
  {
    assert p[..k + 1][..k] == p[..k];
  }

  lemma BodyStep(buf: seq<byte>, stream: seq<byte>, pos: nat, sent: seq<byte>, count: nat, sum: byte)
    requires |buf| == BUFSIZE && pos < |stream| && count + 1 < BUFSIZE - 1
    requires stream[pos] != DOLLAR && stream[pos] != HASH
    ensures Receive(Body(count, sum), buf, stream, pos, sent) ==
            Receive(Body(count + 1, (sum + stream[pos]) % 256), buf[count := stream[pos]], stream, pos + 1, sent)
  {
  }

  lemma ReceiveSums(sum: byte, buf: seq<byte>, stream: seq<byte>, pos: nat, sent: seq<byte>)
    requires |buf| == BUFSIZE && pos + 2 <= |stream|
    ensures Receive(Sum1(sum), buf, stream, pos, sent) ==
            if sum == PairByte(stream[pos], stream[pos + 1])
            then Outcome(pos + 2, buf, sent + Accepted(buf).0, Some(Accepted(buf).1))
            else Receive(Idle, buf, stream, pos + 2, sent + [MINUS])
  {
  }

  lemma FrameChars(a: Arrival, stream: seq<byte>, pos: nat)
    requires pos + |Bytes(a)| <= |stream| && stream[pos..pos + |Bytes(a)|] == Bytes(a)
    ensures var n := |a.payload|;
            && |Bytes(a)| == n + 4 && stream[pos] == DOLLAR
            && stream[pos + 1..pos + 1 + n + 3] == a.payload + [HASH, a.high, a.low]
            && stream[pos + n + 2] == a.high && stream[pos + n + 3] == a.low
  {
  }

  /** A whole frame arriving in any state outside a checksum: a mismatch is refused and
      the receiver waits on; a match ends the call with the payload in the buffer. */
  lemma ReceiveFrame(r: Rx, buf: seq<byte>, a: Arrival, stream: seq<byte>, pos: nat, sent: seq<byte>)
    requires |buf| == BUFSIZE && IsPayload(a.payload) && ValidRx(r) && (r.Idle? || r.Body?)
    requires pos + |Bytes(a)| <= |stream| && stream[pos..pos + |Bytes(a)|] == Bytes(a)
    ensures var buf' := Stored(buf, a.payload);
            var next := pos + |Bytes(a)|;
            Receive(r, buf, stream, pos, sent) ==
            if Matching(a) then Outcome(next, buf', sent + Accepted(buf').0, Some(Accepted(buf').1))
            else Receive(Idle, buf', stream, next, sent + [MINUS])
  {
    FrameChars(a, stream, pos);
    assert Receive(r, buf, stream, pos, sent) == Receive(Body(0, 0), buf, stream, pos + 1, sent);
    FrameBody(buf, a, stream, pos + 1, sent);
    ReceiveSums(Sum(a.payload), Stored(buf, a.payload), stream, pos + |a.payload| + 2, sent);
  }

  lemma FrameBody(buf: seq<byte>, a: Arrival, stream: seq<byte>, pos: nat, sent: seq<byte>)
    requires |buf| == BUFSIZE && IsPayload(a.payload)
    requires pos + |a.payload| + 3 <= |stream| &&
             stream[pos..pos + |a.payload| + 3] == a.payload + [HASH, a.high, a.low]
    ensures Receive(Body(0, 0), buf, stream, pos, sent) ==
            Receive(Sum1(Sum(a.payload)), Stored(buf, a.payload), stream, pos + |a.payload| + 1, sent)
  {
    assert a.payload[..0] == [] == buf[..0];
    ReceiveBody(buf, a, stream, pos, 0, sent);
  }

  // ---------------------------------------------------------------------------
  // Stop and wait

  /** The third byte left in the buffer by a payload. */
  function ThirdByte(buf: seq<byte>, p: seq<byte>): byte
    requires |buf| == BUFSIZE
  {
    if |p| > 2 then p[2] else if |p| == 2 then NUL else buf[2]
  }

  function AllBytes(arrivals: seq<Arrival>): seq<byte> {
    if arrivals == [] then [] else Bytes(arrivals[0]) + AllBytes(arrivals[1..])
  }

  function Sent(payload: seq<byte>): Arrival {
    Arrival(payload, IntToHexchar(Sum(payload) / 16), IntToHexchar(Sum(payload) % 16))
  }

  lemma SentMatches(payload: seq<byte>)
    ensures Matching(Sent(payload)) && Bytes(Sent(payload)) == Frame(payload)
  {
  }

  /** Corrupted in transit, but still a frame, with a checksum that does not match. */
  predicate Damaged(a: Arrival) {
    IsPayload(a.payload) && !Matching(a) && !(|a.payload| > 2 && a.payload[2] == COLON)
  }

  predicate AllDamaged(arrivals: seq<Arrival>) {
    forall k :: 0 <= k < |arrivals| ==> Damaged(arrivals[k])
  }

  predicate Good(p: seq<byte>) {
    IsPayload(p) && NUL !in p && !(|p| > 2 && p[2] == COLON)
  }

  function Minuses(n: nat): (r: seq<byte>)
    ensures |r| == n && forall k :: 0 <= k < n ==> r[k] == MINUS
  {
    if n == 0 then [] else Minuses(n - 1) + [MINUS]
  }

  /** Any number of damaged frames, then the frame itself: one minus for each, one
      plus, and exactly the payload. */
  lemma {:induction false} ReceiverEndures(r: Rx, buf: seq<byte>, damaged: seq<Arrival>, payload: seq<byte>,
                                           stream: seq<byte>, pos: nat, sent: seq<byte>)
    requires |buf| == BUFSIZE && ValidRx(r) && (r.Idle? || r.Body?) && buf[2] != COLON
    requires AllDamaged(damaged) && Good(payload)
    requires pos <= |stream| && stream[pos..] == AllBytes(damaged) + Frame(payload)
    ensures var o := Receive(r, buf, stream, pos, sent);
            && o.pos == |stream| && o.start == Some(0)
            && o.sent == sent + Minuses(|damaged|) + [PLUS]
            && IsString(o.buf, payload)
    decreases |damaged|
  {
    if damaged == [] {
      assert stream[pos..] == Frame(payload);
      ReceiverAccepts(r, buf, payload, stream, pos, sent);
      assert sent + Minuses(0) == sent;
    } else {
      NextArrival(stream, pos, damaged, Frame(payload));
      var a := damaged[0];
      var next := pos + |Bytes(a)|;
      assert Damaged(a);
      ReceiveFrame(r, buf, a, stream, pos, sent);
      var buf' := Stored(buf, a.payload);
      assert buf'[2] == ThirdByte(buf, a.payload);
      ReceiverEndures(Idle, buf', damaged[1..], payload, stream, next, sent + [MINUS]);
      MinusesShift(|damaged| - 1);
      assert sent + [MINUS] + Minuses(|damaged| - 1) == sent + ([MINUS] + Minuses(|damaged| - 1));
    }
  }

  lemma NextArrival(stream: seq<byte>, pos: nat, damaged: seq<Arrival>, last: seq<byte>)
    requires damaged != [] && pos <= |stream| && stream[pos..] == AllBytes(damaged) + last
    ensures var next := pos + |Bytes(damaged[0])|;
            next <= |stream| && stream[pos..next] == Bytes(damaged[0]) &&
                stream[next..] == AllBytes(damaged[1..]) + last
  {
    var a, after := Bytes(damaged[0]), AllBytes(damaged[1..]) + last;
    Associate(a, AllBytes(damaged[1..]), last);
    SplitRest(stream, pos, a, after);
  }

  lemma SplitRest(stream: seq<byte>, pos: nat, a: seq<byte>, rest: seq<byte>)
    requires pos <= |stream| && stream[pos..] == a + rest
    ensures pos + |a| <= |stream| && stream[pos..pos + |a|] == a && stream[pos + |a|..] == rest
  {
  }

  /** An intact frame at the end of the stream. */
  lemma ReceiverAccepts(r: Rx, buf: seq<byte>, payload: seq<byte>, stream: seq<byte>, pos: nat, sent: seq<byte>)
    requires |buf| == BUFSIZE && ValidRx(r) && (r.Idle? || r.Body?) && ThirdByte(buf, payload) != COLON
    requires Good(payload) && pos <= |stream| && stream[pos..] == Frame(payload)
    ensures var o := Receive(r, buf, stream, pos, sent);
            && o.pos == |stream| && o.start == Some(0)
            && o.sent == sent + [PLUS]
            && IsString(o.buf, payload)
  {
    SentMatches(payload);
    assert stream[pos..pos + |Frame(payload)|] == stream[pos..];
    ReceiveFrame(r, buf, Sent(payload), stream, pos, sent);
    assert Stored(buf, payload)[2] == ThirdByte(buf, payload);
  }

  lemma {:induction false} MinusesShift(n: nat)
    ensures [MINUS] + Minuses(n) == Minuses(n + 1)
  {
  }

  /** The C string at a place in the buffer. */
  function StringAt(buf: seq<byte>, k: nat): seq<byte>
    decreases |buf| - k
  {
    if k >= |buf| || buf[k] == NUL then [] else [buf[k]] + StringAt(buf, k + 1)
  }

  lemma {:induction false} StringAtStart(buf: seq<byte>, text: seq<byte>, k: nat)
    requires IsString(buf, text) && k <= |text|
    ensures StringAt(buf, k) == text[k..]
    decreases |text| - k
  {
    if k < |text| {
      assert buf[k] == text[k] && text[k] in text;
      StringAtStart(buf, text, k + 1);
    }
  }

  /** What both ends see of one packet sent over a link that damages the first
      frames: frames sent, answers, and the string the receiver returns. */
  datatype Session = Session(frames: seq<byte>, answers: seq<byte>, got: Option<seq<byte>>)

  /** The two programs in turn: a frame of what the sender's buffer now holds goes out,
      what the link makes of it comes in, and the first answer decides whether the buffer
      goes out again. The conversation is followed up to the first undamaged frame. */
  function Converse(texts: seq<seq<byte>>, damage: seq<Arrival>, buf: seq<byte>): Session
    requires |buf| == BUFSIZE && |texts| == |damage| + 1
    decreases |damage|
  {
    var arriving := if damage == [] then Frame(texts[0]) else Bytes(damage[0]);
    var o := Receive(Idle, buf, arriving, 0, []);
    var first := Session(Frame(texts[0]), o.sent, if o.start.Some? then Some(StringAt(o.buf, o.start.value)) else None);
    if damage == [] || (o.sent != [] && o.sent[0] == PLUS) then first
    else
      var later := Converse(texts[1..], damage[1..], o.buf);
      Session(Frame(texts[0]) + later.frames, o.sent + later.answers, later.got)
  }

  /** Stop-and-wait delivery: with the first k attempts damaged, the sender emits k + 1
      frames, the receiver answers k minuses and one plus, and it returns once, at the end,
      what the sender's buffer holds by then. */
  lemma {:induction false} StopAndWait(texts: seq<seq<byte>>, damage: seq<Arrival>, buf: seq<byte>)
    requires |buf| == BUFSIZE && buf[2] != COLON && |texts| == |damage| + 1
    requires Good(texts[|damage|]) && AllDamaged(damage)
    ensures Delivers(Converse(texts, damage, buf), texts, |damage|)
    decreases |damage|
  {
    if damage == [] {
      Delivered(texts, buf);
    } else {
      var later, next := Resent(texts, damage, buf);
      var rest, left := damage[1..], texts[1..];
      assert |rest| == |damage| - 1 && left[|rest|] == texts[|damage|];
      StopAndWait(left, rest, next);
      assert Delivers(later, left, |rest|);
      OneMore(texts, left, later, Converse(texts, damage, buf), |damage|);
    }
  }

  /** A frame for each of the n + 1 texts, n minuses and then one plus, and the last text. */
  ghost predicate Delivers(s: Session, texts: seq<seq<byte>>, n: nat) {
    && |texts| == n + 1
    && s.frames == Frames(texts)
    && s.answers == Minuses(n) + [PLUS]
    && FirstPlus(s.answers) == n
    && s.got == Some(texts[n])
  }

  /** So the packet that was to be sent arrives, in k + 1 identical frames, exactly if no
      fault has filled the buffer with something else by the last attempt, or by any. */
  lemma DeliversExactly(texts: seq<seq<byte>>, damage: seq<Arrival>, buf: seq<byte>)
    requires |buf| == BUFSIZE && buf[2] != COLON && |texts| == |damage| + 1
    requires Good(texts[|damage|]) && AllDamaged(damage)
    ensures var s := Converse(texts, damage, buf);
            && (s.got == Some(texts[0]) <==> texts[|damage|] == texts[0])
            && ((forall k :: 0 <= k < |texts| ==> texts[k] == texts[0]) ==>
                  s.frames == Copies(Frame(texts[0]), |damage| + 1))
  {
    StopAndWait(texts, damage, buf);
    if forall k :: 0 <= k < |texts| ==> texts[k] == texts[0] {
      FramesAreCopies(texts);
    }
  }

  lemma {:induction false} FramesAreCopies(texts: seq<seq<byte>>)
    requires texts != [] && forall k :: 0 <= k < |texts| ==> texts[k] == texts[0]
    ensures Frames(texts) == Copies(Frame(texts[0]), |texts|)
  {
    var n := |texts| - 1;
    var init := texts[..n];
    assert texts == init + [texts[0]];
    FramesNext(init, texts[0]);
    if n > 0 {
      FramesAreCopies(init);
    } else {
      assert Frames(init) == [] == Copies(Frame(texts[0]), 0);
    }
  }

  lemma AnswersEnd(n: nat)
    ensures FirstPlus(Minuses(n) + [PLUS]) == n
  {
    PlusAt(Minuses(n) + [PLUS], n);
  }

  lemma OneMore(texts: seq<seq<byte>>, left: seq<seq<byte>>, later: Session, s: Session, n: nat)
    requires n > 0 && |texts| == n + 1 && left == texts[1..]
    requires s == Session(Frame(texts[0]) + later.frames, [MINUS] + later.answers, later.got)
    requires Delivers(later, left, n - 1)
    ensures Delivers(s, texts, n)
  {
    AnswersEnd(n);
    MinusesShift(n - 1);
    Associate([MINUS], Minuses(n - 1), [PLUS]);
    assert left[n - 1] == texts[n];
  }

  /** A damaged frame first: it is refused, and the rest goes on as if begun anew. */
  lemma Resent(texts: seq<seq<byte>>, damage: seq<Arrival>, buf: seq<byte>) returns (later: Session, next: seq<byte>)
    requires |buf| == BUFSIZE && buf[2] != COLON && damage != [] && AllDamaged(damage) && |texts| == |damage| + 1
    ensures |next| == BUFSIZE && next[2] != COLON && AllDamaged(damage[1..])
    ensures later == Converse(texts[1..], damage[1..], next)
    ensures Converse(texts, damage, buf) ==
            Session(Frame(texts[0]) + later.frames, [MINUS] + later.answers, later.got)
  {
    RefusedOnce(damage[0], buf);
    next := Stored(buf, damage[0].payload);
    later := Converse(texts[1..], damage[1..], next);
  }

  /** An undamaged frame alone. */
  lemma Delivered(texts: seq<seq<byte>>, buf: seq<byte>)
    requires |buf| == BUFSIZE && buf[2] != COLON && |texts| == 1 && Good(texts[0])
    ensures Delivers(Converse(texts, [], buf), texts, 0)
  {
    var payload := texts[0];
    var stream := Frame(payload);
    assert stream[0..] == stream;
    ReceiverAccepts(Idle, buf, payload, stream, 0, []);
    var o := Receive(Idle, buf, stream, 0, []);
    StringAtStart(o.buf, payload, 0);
    assert payload[0..] == payload;
    assert texts[1..] == [] && Frames([]) == [] && stream + [] == stream;
    assert o.sent == [] + [PLUS] == Minuses(0) + [PLUS];
    AnswersEnd(0);
  }

  /** A damaged frame alone. */
  lemma RefusedOnce(a: Arrival, buf: seq<byte>)
    requires |buf| == BUFSIZE && buf[2] != COLON && Damaged(a)
    ensures var buf' := Stored(buf, a.payload);
            Receive(Idle, buf, Bytes(a), 0, []) == Outcome(|Bytes(a)|, buf', [MINUS], None) && buf'[2] != COLON
  {
    assert Bytes(a)[0..|Bytes(a)|] == Bytes(a);
    ReceiveFrame(Idle, buf, a, Bytes(a), 0, []);
    assert Stored(buf, a.payload)[2] == ThirdByte(buf, a.payload);
    assert [] + [MINUS] == [MINUS];
  }

  // ---------------------------------------------------------------------------
  // Resynchronisation

  /** Whatever comes without a # or a ctrl-C character: the receiver sends nothing,
      returns nothing, and is left outside any checksum. */
  lemma {:induction false} SkipNoise(r: Rx, buf: seq<byte>, stream: seq<byte>, pos: nat, end: nat, sent: seq<byte>)
      returns (r': Rx, buf': seq<byte>)
    requires |buf| == BUFSIZE && ValidRx(r) && (r.Idle? || r.Body?) && pos <= end <= |stream|
    requires forall k :: pos <= k < end ==> stream[k] != HASH && stream[k] != CTRL_C
    ensures |buf'| == BUFSIZE && ValidRx(r') && (r'.Idle? || r'.Body?)
    ensures Receive(r, buf, stream, pos, sent) == Receive(r', buf', stream, end, sent)
    ensures buf[2] != COLON && (forall k :: pos <= k < end ==> stream[k] != COLON) ==> buf'[2] != COLON
    decreases end - pos
  {
    if pos == end {
      return r, buf;
    }
    var c := stream[pos];
    var next, nextBuf;
    match r {
      case Idle => next, nextBuf := if c == DOLLAR then Body(0, 0) else Idle, buf;
      case Body(count, sum) =>
        if c == DOLLAR {
          next, nextBuf := Body(0, 0), buf;
        } else if count + 1 == BUFSIZE - 1 {
          next, nextBuf := Idle, buf[count := c][BUFSIZE - 1 := NUL];
        } else {
          next, nextBuf := Body(count + 1, (sum + c) % 256), buf[count := c];
        }
    }
    r', buf' := SkipNoise(next, nextBuf, stream, pos + 1, end, sent);
  }

  /** After any noise without # or ctrl-C (partial frames, repeated start characters and
      over-long ones included), the next valid frame is returned intact and nothing
      but its acknowledgement is sent. */
  lemma Resynchronises(buf: seq<byte>, noise: seq<byte>, payload: seq<byte>)
    requires |buf| == BUFSIZE && Good(payload)
    requires HASH !in noise && CTRL_C !in noise
    requires |payload| < 2 ==> buf[2] != COLON && COLON !in noise
    ensures var o := Receive(Idle, buf, noise + Frame(payload), 0, []);
            && o.pos == |noise + Frame(payload)| && o.start == Some(0) && o.sent == [PLUS]
            && IsString(o.buf, payload)
  {
    var stream := noise + Frame(payload);
    var r, buf' := SkipNoise(Idle, buf, stream, 0, |noise|, []);
    SentMatches(payload);
    assert stream[|noise|..|noise| + |Frame(payload)|] == Frame(payload);
    ReceiveFrame(r, buf', Sent(payload), stream, |noise|, []);
    assert Stored(buf', payload)[2] == ThirdByte(buf', payload);
  }
}
