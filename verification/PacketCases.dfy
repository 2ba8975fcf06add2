/**
 What get_packet makes of input other than one frame (the serial example's debugger.c):
 ctrl-C, packets with a sequence number, and frames that are too long.
 */
module PacketCases {
  import opened Options
  import opened Words
  import opened Chars
  import opened PacketLink

  /** Outside a frame, nothing but a start character or ctrl-C matters. */
  lemma {:induction false} IdleSkips(buf: seq<byte>, stream: seq<byte>, pos: nat, end: nat, sent: seq<byte>)
    requires |buf| == BUFSIZE && pos <= end <= |stream|
    requires forall k :: pos <= k < end ==> stream[k] != DOLLAR && stream[k] != CTRL_C
    ensures Receive(Idle, buf, stream, pos, sent) == Receive(Idle, buf, stream, end, sent)
    decreases end - pos
  {
    if pos < end {
      IdleSkips(buf, stream, pos + 1, end, sent);
    }
  }

  // ---------------------------------------------------------------------------
  // ctrl-C

  /** After any number of refused frames and anything else without a start character, a
      ctrl-C outside a frame is returned as a packet of its own at once: a minus for each
      refused frame, and nothing for the ctrl-C or from behind it. */
  lemma {:induction false} CtrlCReturned(buf: seq<byte>, refused: seq<Arrival>, quiet: seq<byte>, rest: seq<byte>,
                                         stream: seq<byte>, pos: nat, sent: seq<byte>)
    requires |buf| == BUFSIZE && pos <= |stream|
    requires forall k :: 0 <= k < |refused| ==> IsPayload(refused[k].payload) && !Matching(refused[k])
    requires DOLLAR !in quiet && CTRL_C !in quiet
    requires stream[pos..] == AllBytes(refused) + (quiet + [CTRL_C] + rest)
    ensures var o := Receive(Idle, buf, stream, pos, sent);
            && o.pos == |stream| - |rest| && o.start == Some(0) && o.sent == sent + Minuses(|refused|)
            && IsString(o.buf, [CTRL_C])
    decreases |refused|
  {
    if refused == [] {
      CtrlCAfterQuiet(buf, quiet, rest, stream, pos, sent);
    } else {
      NextArrival(stream, pos, refused, quiet + [CTRL_C] + rest);
      var next := pos + |Bytes(refused[0])|;
      ReceiveFrame(Idle, buf, refused[0], stream, pos, sent);
      CtrlCReturned(Stored(buf, refused[0].payload), refused[1..], quiet, rest, stream, next, sent + [MINUS]);
      MinusesShift(|refused| - 1);
      Associate(sent, [MINUS], Minuses(|refused| - 1));
    }
  }

  lemma CtrlCAfterQuiet(buf: seq<byte>, quiet: seq<byte>, rest: seq<byte>, stream: seq<byte>, pos: nat, sent: seq<byte>)
    requires |buf| == BUFSIZE && pos <= |stream| && DOLLAR !in quiet && CTRL_C !in quiet
    requires stream[pos..] == [] + (quiet + [CTRL_C] + rest)
    ensures var o := Receive(Idle, buf, stream, pos, sent);
            && o.pos == |stream| - |rest| && o.start == Some(0) && o.sent == sent + Minuses(0)
            && IsString(o.buf, [CTRL_C])
  {
    var end := pos + |quiet|;
    forall k | pos <= k < end ensures stream[k] != DOLLAR && stream[k] != CTRL_C {
      assert stream[k] == stream[pos..][k - pos] == quiet[k - pos];
      assert quiet[k - pos] in quiet;
    }
    assert stream[end] == stream[pos..][|quiet|] == CTRL_C;
    IdleSkips(buf, stream, pos, end, sent);
    CtrlCNow(buf, stream, end, sent);
    assert sent + Minuses(0) == sent;
  }

  lemma CtrlCNow(buf: seq<byte>, stream: seq<byte>, pos: nat, sent: seq<byte>)
    requires |buf| == BUFSIZE && pos < |stream| && stream[pos] == CTRL_C
    ensures var o := Receive(Idle, buf, stream, pos, sent);
            && o.pos == pos + 1 && o.start == Some(0) && o.sent == sent
            && IsString(o.buf, [CTRL_C])
  {
    assert CTRL_C != NUL;
  }

  /** Inside a frame it is payload like any other character. */
  lemma CtrlCInFrame(buf: seq<byte>, payload: seq<byte>)
    requires |buf| == BUFSIZE && Good(payload) && CTRL_C in payload && ThirdByte(buf, payload) != COLON
    ensures var o := Receive(Idle, buf, Frame(payload), 0, []);
            o.start == Some(0) && o.sent == [PLUS] && IsString(o.buf, payload)
  {
    assert Frame(payload)[0..] == Frame(payload);
    ReceiverAccepts(Idle, buf, payload, Frame(payload), 0, []);
    assert [] + [PLUS] == [PLUS];
  }

  // ---------------------------------------------------------------------------
  // Sequence numbers

  /** A packet whose third character is a colon is acknowledged with its first two, and
      returned without all three. */
  lemma SequenceEchoed(buf: seq<byte>, payload: seq<byte>)
    requires |buf| == BUFSIZE && IsPayload(payload) && NUL !in payload && |payload| > 2 && payload[2] == COLON
    ensures var o := Receive(Idle, buf, Frame(payload), 0, []);
            && o.pos == |Frame(payload)| && o.sent == [PLUS, payload[0], payload[1]]
            && o.start == Some(3) && StringAt(o.buf, 3) == payload[3..]
  {
    var stream := Frame(payload);
    SentMatches(payload);
    assert stream[0..0 + |stream|] == stream;
    ReceiveFrame(Idle, buf, Sent(payload), stream, 0, []);
    var stored := Stored(buf, payload);
    assert IsString(stored, payload) && stored[0] == payload[0] && stored[1] == payload[1] && stored[2] == COLON;
    StringAtStart(stored, payload, 3);
    assert [] + [PLUS, payload[0], payload[1]] == [PLUS, payload[0], payload[1]];
  }

  // ---------------------------------------------------------------------------
  // Frames that are too long

  lemma {:induction false} BodyOverruns(count: nat, sum: byte, buf: seq<byte>, stream: seq<byte>, pos: nat,
                                        sent: seq<byte>) returns (buf': seq<byte>)
    requires |buf| == BUFSIZE && count < BUFSIZE - 1 && pos + (BUFSIZE - 1 - count) <= |stream|
    requires forall k :: pos <= k < pos + (BUFSIZE - 1 - count) ==> stream[k] != DOLLAR && stream[k] != HASH
    ensures |buf'| == BUFSIZE
    ensures Receive(Body(count, sum), buf, stream, pos, sent) ==
            Receive(Idle, buf', stream, pos + (BUFSIZE - 1 - count), sent)
    decreases BUFSIZE - count
  {
    if count + 1 == BUFSIZE - 1 {
      buf' := buf[count := stream[pos]][BUFSIZE - 1 := NUL];
    } else {
      BodyStep(buf, stream, pos, sent, count, sum);
      buf' := BodyOverruns(count + 1, (sum + stream[pos]) % 256, buf[count := stream[pos]], stream, pos + 1, sent);
    }
  }

  /** A frame with 2047 characters or more is ignored whole, its checksum included: nothing
      is sent and nothing returned. 2046 are the most that StopAndWait delivers. */
  lemma TooLong(buf: seq<byte>, payload: seq<byte>)
    requires |buf| == BUFSIZE && |payload| >= 2047 && DOLLAR !in payload && HASH !in payload && CTRL_C !in payload
    ensures var o := Receive(Idle, buf, Frame(payload), 0, []);
            o.pos == |Frame(payload)| && o.start == None && o.sent == []
  {
    var stream := Frame(payload);
    forall k | 1 <= k < 1 + |payload|
      ensures stream[k] != DOLLAR && stream[k] != HASH && stream[k] != CTRL_C
    {
      assert stream[k] == payload[k - 1] && payload[k - 1] in payload;
    }
    var buf' := BodyOverruns(0, 0, buf, stream, 1, []);
    ChecksumChars(payload);
    IdleSkips(buf', stream, BUFSIZE, |stream|, []);
  }

  lemma ChecksumChars(payload: seq<byte>)
    ensures var stream := Frame(payload);
            forall k :: 1 + |payload| <= k < |stream| ==> stream[k] != DOLLAR && stream[k] != CTRL_C
  {
  }
}
