/**
 The port-to-gdb direction of the serial demultiplexer (tools/serial_demux/src/main.rs):
 packets and acknowledgements go to GDB, everything else to standard output.
 */
module Demux {
  import opened Words
  import opened Chars

  /** What has come out so far, and the loop's two variables. */
  datatype Out = Out(inPacket: bool, checksum: nat, gdb: seq<byte>, text: seq<byte>)

  const START := Out(false, 0, [], [])

  function Feed(o: Out, c: byte): Out {
    var inPacket := c == DOLLAR || (o.inPacket && c != HASH);
    var checksum := if c == HASH && o.inPacket then 3 else o.checksum;
    if inPacket || checksum > 0 || c == PLUS || c == MINUS then
      Out(inPacket, if checksum > 0 then checksum - 1 else 0, o.gdb + [c], o.text)
    else
      Out(inPacket, checksum, o.gdb, o.text + [c])
  }

  function FeedAll(o: Out, input: seq<byte>): Out {
    if input == [] then o else Feed(FeedAll(o, input[..|input| - 1]), input[|input| - 1])
  }

  method Demultiplex(input: seq<byte>) returns (gdb: seq<byte>, text: seq<byte>)
    ensures var o := FeedAll(START, input); gdb == o.gdb && text == o.text
  {
    var inPacket := false;
    var checksum := 0;
    gdb, text := [], [];
    for i := 0 to |input|
      invariant checksum >= 0
      invariant Out(inPacket, checksum, gdb, text) == FeedAll(START, input[..i])
    {
      assert input[..i + 1][..i] == input[..i];
      var c := input[i];
      if c == DOLLAR {
        inPacket := true;
      } else if c == HASH && inPacket {
        inPacket := false;
        checksum := 3;
      }
      if inPacket || checksum > 0 || c == PLUS || c == MINUS {
        gdb := gdb + [c];
        if checksum > 0 {
          checksum := checksum - 1;
        }
      } else {
        text := text + [c];
      }
    }
    assert input[..|input|] == input;
  }

  // ---------------------------------------------------------------------------
  // What the port sends

  datatype Piece =
    | Log(text: seq<byte>)
    | Ack(plus: bool)
    | Packet(payload: seq<byte>, high: byte, low: byte)

  function Bytes(p: Piece): seq<byte> {
    match p
    case Log(text) => text
    case Ack(plus) => [if plus then PLUS else MINUS]
    case Packet(payload, high, low) => [DOLLAR] + payload + [HASH, high, low]
  }

  /** Log text without the characters that mean something to GDB, and packets whose
      payload has no # and whose checksum no $. Hex digits are such checksums. */
  predicate Wellformed(p: Piece) {
    match p
    case Log(text) => DOLLAR !in text && PLUS !in text && MINUS !in text
    case Ack(_) => true
    case Packet(payload, high, low) => HASH !in payload && high != DOLLAR && low != DOLLAR
  }

  function AllBytes(pieces: seq<Piece>): seq<byte> {
    if pieces == [] then [] else AllBytes(pieces[..|pieces| - 1]) + Bytes(pieces[|pieces| - 1])
  }

  /** What a piece adds to either side. */
  function ToGdb(p: Piece): seq<byte> {
    if p.Log? then [] else Bytes(p)
  }

  function ToLog(p: Piece): seq<byte> {
    if p.Log? then p.text else []
  }

  function ForGdb(pieces: seq<Piece>): seq<byte> {
    if pieces == [] then [] else
    var last := pieces[|pieces| - 1];
    ForGdb(pieces[..|pieces| - 1]) + ToGdb(last)
  }

  function ForLog(pieces: seq<Piece>): seq<byte> {
    if pieces == [] then [] else
    var last := pieces[|pieces| - 1];
    ForLog(pieces[..|pieces| - 1]) + ToLog(last)
  }

  lemma {:induction false} FeedConcat(o: Out, a: seq<byte>, b: seq<byte>)
    ensures FeedAll(o, a + b) == FeedAll(FeedAll(o, a), b)
    decreases |b|
  {
    if b == [] {
      assert a + b == a;
    } else {
      var n := |b| - 1;
      assert (a + b)[..|a + b| - 1] == a + b[..n];
      FeedConcat(o, a, b[..n]);
    }
  }

  lemma {:induction false} FeedLog(o: Out, text: seq<byte>)
    requires !o.inPacket && o.checksum == 0 && Wellformed(Log(text))
    ensures FeedAll(o, text) == o.(text := o.text + text)
  {
    if text == [] {
      assert o.text + text == o.text;
    } else {
      var n := |text| - 1;
      assert text[n] in text && forall c :: c in text[..n] ==> c in text;
      FeedLog(o, text[..n]);
      assert o.text + text == o.text + text[..n] + [text[n]];
    }
  }

  lemma {:induction false} FeedPayload(o: Out, payload: seq<byte>)
    requires o.inPacket && o.checksum == 0 && HASH !in payload
    ensures FeedAll(o, payload) == o.(gdb := o.gdb + payload)
  {
    if payload == [] {
      assert o.gdb + payload == o.gdb;
    } else {
      var n := |payload| - 1;
      assert payload[n] in payload && forall c :: c in payload[..n] ==> c in payload;
      FeedPayload(o, payload[..n]);
      assert o.gdb + payload == o.gdb + payload[..n] + [payload[n]];
    }
  }

  lemma FeedThree(o: Out, a: byte, b: byte, c: byte)
    ensures FeedAll(o, [a, b, c]) == Feed(Feed(Feed(o, a), b), c)
  {
    assert [a, b, c][..2] == [a, b] && [a, b][..1] == [a] && [a][..0] == [];
    assert FeedAll(o, [a]) == Feed(o, a);
    assert FeedAll(o, [a, b]) == Feed(Feed(o, a), b);
  }

  lemma FeedOne(o: Out, a: byte)
    ensures FeedAll(o, [a]) == Feed(o, a)
  {
  }

  /** The end of a packet. */
  lemma FeedChecksum(o: Out, high: byte, low: byte)
    requires o.inPacket && o.checksum == 0 && high != DOLLAR && low != DOLLAR
    ensures FeedAll(o, [HASH, high, low]) == Out(false, 0, o.gdb + [HASH] + [high] + [low], o.text)
  {
    FeedThree(o, HASH, high, low);
  }

  lemma FeedPacket(o: Out, payload: seq<byte>, high: byte, low: byte)
    requires !o.inPacket && o.checksum == 0 && HASH !in payload && high != DOLLAR && low != DOLLAR
    ensures FeedAll(o, [DOLLAR] + payload + [HASH, high, low]) ==
            o.(gdb := o.gdb + ([DOLLAR] + payload + [HASH, high, low]))
  {
    FeedConcat(o, [DOLLAR] + payload, [HASH, high, low]);
    FeedConcat(o, [DOLLAR], payload);
    FeedOne(o, DOLLAR);
    var o1 := Feed(o, DOLLAR);
    FeedPayload(o1, payload);
    var o2 := o1.(gdb := o1.gdb + payload);
    FeedChecksum(o2, high, low);
    InPieces(o.gdb, DOLLAR, payload, HASH, high, low);
  }

  lemma InPieces(s: seq<byte>, a: byte, t: seq<byte>, b: byte, c: byte, d: byte)
    ensures s + ([a] + t + [b, c, d]) == s + [a] + t + [b] + [c] + [d]
  {
  }

  /** Between pieces the loop is outside any packet; each piece goes whole to one side. */
  lemma FeedPiece(o: Out, p: Piece)
    requires !o.inPacket && o.checksum == 0 && Wellformed(p)
    ensures FeedAll(o, Bytes(p)) == Out(false, 0, o.gdb + ToGdb(p), o.text + ToLog(p))
  {
    assert o.gdb + [] == o.gdb && o.text + [] == o.text;
    match p
    case Log(text) => FeedLog(o, text);
    case Ack(plus) => FeedOne(o, if plus then PLUS else MINUS);
    case Packet(payload, high, low) => FeedPacket(o, payload, high, low);
  }

  /** The demultiplexer undoes the interleaving: GDB gets exactly the packets and
      acknowledgements, standard output exactly the text, each in order. */
  lemma {:induction false} UndoesInterleaving(pieces: seq<Piece>)
    requires forall k :: 0 <= k < |pieces| ==> Wellformed(pieces[k])
    ensures FeedAll(START, AllBytes(pieces)) == Out(false, 0, ForGdb(pieces), ForLog(pieces))
  {
    if pieces != [] {
      var n := |pieces| - 1;
      var init, last := pieces[..n], pieces[n];
      UndoesInterleaving(init);
      FeedConcat(START, AllBytes(init), Bytes(last));
      FeedPiece(Out(false, 0, ForGdb(init), ForLog(init)), last);
    }
  }

  lemma {:induction false} GdbGrows(o: Out, input: seq<byte>)
    ensures |FeedAll(o, input).gdb| >= |o.gdb|
    decreases |input|
  {
    if input != [] {
      GdbGrows(o, input[..|input| - 1]);
    }
  }

  /** Log text comes out whole on standard output exactly when it has none of the
      characters that mean something to GDB. */
  lemma LogExactly(o: Out, text: seq<byte>)
    requires !o.inPacket && o.checksum == 0
    ensures FeedAll(o, text) == o.(text := o.text + text) <==> Wellformed(Log(text))
  {
    if Wellformed(Log(text)) {
      FeedLog(o, text);
    } else {
      var k := FirstMeaningful(text, 0);
      var head, c, tail := text[..k], text[k], text[k + 1..];
      assert text == head + [c] + tail;
      FeedConcat(o, head + [c], tail);
      FeedConcat(o, head, [c]);
      FeedLog(o, head);
      FeedOne(o.(text := o.text + head), c);
      GdbGrows(FeedAll(o, head + [c]), tail);
    }
  }

  lemma FirstMeaningful(text: seq<byte>, from: nat) returns (k: nat)
    requires from <= |text| && !Wellformed(Log(text)) && Wellformed(Log(text[..from]))
    ensures k < |text| && Wellformed(Log(text[..k]))
    ensures text[k] == DOLLAR || text[k] == PLUS || text[k] == MINUS
    decreases |text| - from
  {
    assert text[..|text|] == text;
    k := from;
    if !(text[k] == DOLLAR || text[k] == PLUS || text[k] == MINUS) {
      assert text[..k + 1] == text[..k] + [text[k]];
      k := FirstMeaningful(text, from + 1);
    }
  }
}
