/**
 The characters and texts of the protocol, written out: what the constants and the
 functions that build texts stand for.
 */
module Literals {
  import opened Words
  import opened Chars
  import opened Hex
  import opened ThreadIds
  import opened VcontPackets
  import PacketLink
  import PrintfNumbers
  import Printf

  const LOWER := "0123456789abcdef"
  const UPPER := "0123456789ABCDEF"

  lemma Characters()
    ensures [DOLLAR, HASH, PLUS, MINUS, COLON, DOT, COMMA, SEMICOLON] == Ascii("$#+-:.,;")
    ensures [LETTER_P, LETTER_M, LETTER_S, LETTER_C, DIGIT_1] == Ascii("pmsc1")
    ensures [Printf.PERCENT, Printf.STAR, PrintfNumbers.SPACE, PrintfNumbers.ZERO, Printf.NINE] == Ascii("%* 09")
    ensures VCONT == Ascii("vCont") && MINUS_ONE == Ascii("-1")
  {
  }

  /** The digits of numbers below sixteen, written in lower case and read in both. */
  lemma HexDigitsOf(i: nat)
    requires i < 16
    ensures IntToHexchar(i) == LOWER[i] as int == PrintfNumbers.Digit(i, false)
    ensures PrintfNumbers.Digit(i, true) == UPPER[i] as int
    ensures HexcharToInt(LOWER[i] as int) == HexcharToInt(UPPER[i] as int) == i
  {
  }

  /** Nothing else is a digit. */
  lemma OnlyHexDigits(c: byte)
    requires IsHex(c)
    ensures var i := HexcharToInt(c); 0 <= i < 16 && (c == LOWER[i] as int || c == UPPER[i] as int)
  {
  }

  /** A byte, high digit first. */
  lemma BytesInHex(hi: nat, lo: nat)
    requires hi < 16 && lo < 16
    ensures ByteText(16 * hi + lo) == [LOWER[hi] as int, LOWER[lo] as int]
    ensures PairByte(LOWER[hi] as int, LOWER[lo] as int) == 16 * hi + lo
  {
    HighLow(hi, lo);
    HexDigitsOf(hi);
    HexDigitsOf(lo);
    var b := 16 * hi + lo;
    assert ByteText(b) == [IntToHexchar(hi), IntToHexchar(lo)];
  }

  lemma HighLow(hi: nat, lo: nat)
    requires hi < 16 && lo < 16
    ensures var b := 16 * hi + lo; b < 256 && b / 16 == hi && b % 16 == lo && b % 256 == b
  {
  }

  /** The checksum is the sum of the characters modulo 256. */
  lemma {:induction false} SumAdds(a: seq<byte>, b: seq<byte>)
    ensures PacketLink.Sum(a + b) == (PacketLink.Sum(a) + PacketLink.Sum(b)) % 256
  {
    if b == [] {
      assert a + b == a;
    } else {
      assert (a + b)[..|a + b| - 1] == a + b[..|b| - 1];
      SumAdds(a, b[..|b| - 1]);
      SumsAgree(PacketLink.Sum(a), PacketLink.Sum(b[..|b| - 1]), b[|b| - 1]);
    }
  }

  lemma SumsAgree(x: nat, y: nat, z: nat)
    ensures ((x + y) % 256 + z) % 256 == (x + (y + z) % 256) % 256
  {
  }

  lemma OkFrame()
    ensures PacketLink.Frame(Ascii("OK")) == Ascii("$OK#9a")
  {
    assert Ascii("OK") == [79] + [75];
    SumAdds([79], [75]);
    assert [79][..0] == [75][..0] == [];
  }

  lemma FirstThread()
    ensures IdText(1, 2) == Ascii("p01.02")
  {
    assert ByteText(1) == [48, 49] && ByteText(2) == [48, 50];
  }

  lemma StepText()
    ensures ActionText(WireAction(true, [WireTarget(Ascii("1"), Ascii("2"))])) == Ascii(";s:p1.2")
  {
    var t := WireTarget(Ascii("1"), Ascii("2"));
    OneTarget(t);
    assert TargetText(t) == Ascii(":p1.2");
  }

  lemma ContinueText()
    ensures ActionText(WireAction(false, [WireTarget(Ascii("1"), MINUS_ONE)])) == Ascii(";c:p1.-1")
  {
    var t := WireTarget(Ascii("1"), MINUS_ONE);
    OneTarget(t);
    assert TargetText(t) == Ascii(":p1.-1");
  }

  lemma OneTarget(t: WireTarget)
    ensures TargetsText([t]) == TargetText(t)
  {
    assert [t][1..] == [];
  }
}
