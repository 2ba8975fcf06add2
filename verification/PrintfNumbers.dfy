/**
 The integer formatter of src/printf.c: digits into a small buffer, least significant
 first, then padding and sign, then out in reverse.
 */
module PrintfNumbers {
  import opened Words
  import opened Chars
  import opened Hex

  // PRINTF_NTOA_BUFFER_SIZE
  const ROOM := 32
  const SPACE: byte := 32
  const ZERO: byte := 48

  datatype Flags = Flags(
    zeropad: bool, left: bool, plus: bool, space: bool, hash: bool, upper: bool,
    charSize: bool, shortSize: bool, longSize: bool, precision: bool)

  const NO_FLAGS := Flags(false, false, false, false, false, false, false, false, false, false)

  function Max(a: int, b: int): int {
    if a < b then b else a
  }

  function Repeat(c: byte, n: int): (r: seq<byte>)
    ensures |r| == Max(n, 0)
  {
    seq(Max(n, 0), _ => c)
  }

  function Reverse(s: seq<byte>): (r: seq<byte>)
    ensures |r| == |s|
  {
    seq(|s|, k requires 0 <= k < |s| => s[|s| - 1 - k])
  }

  lemma ReverseConcat(a: seq<byte>, b: seq<byte>)
    ensures Reverse(a + b) == Reverse(b) + Reverse(a)
  {
  }

  // ---------------------------------------------------------------------------
  // What the code computes

  function Digit(d: nat, upper: bool): byte
    requires d < 16
  {
    if d < 10 then ZERO + d else (if upper then 65 else 97) + (d - 10)
  }

  /** The last digit of a value, and the value without it, by repeated subtraction. */
  function Low(v: nat, base: nat): (r: nat)
    requires 0 < base
    ensures r < base
  {
    if v < base then v else Low(v - base, base)
  }

  function High(v: nat, base: nat): nat
    requires 0 < base
  {
    if v < base then 0 else 1 + High(v - base, base)
  }

  lemma {:induction false} Euclid(v: nat, base: nat)
    requires 0 < base
    ensures v == base * High(v, base) + Low(v, base)
  {
    if v >= base {
      Euclid(v - base, base);
      assert base * (1 + High(v - base, base)) == base + base * High(v - base, base);
    } else {
      assert base * High(v, base) == 0;
    }
  }

  /** They are remainder and quotient. */
  lemma LowHigh(v: nat, base: nat)
    requires 0 < base
    ensures Low(v, base) == v % base && High(v, base) == v / base
  {
    Euclid(v, base);
    Quotient(v, High(v, base), Low(v, base), base);
  }

  /** The digits of a value, least significant first, as far as there is room. */
  function DigitsRev(v: nat, base: nat, upper: bool, room: nat): (r: seq<byte>)
    requires 2 <= base <= 16 && room > 0
    ensures 1 <= |r| <= room
    decreases room
  {
    [Digit(Low(v, base), upper)] +
    (if High(v, base) == 0 || room == 1 then [] else DigitsRev(High(v, base), base, upper, room - 1))
  }

  /** Zeros up to a length, as far as there is room. */
  function PadTo(rev: seq<byte>, n: nat): seq<byte> {
    rev + Repeat(ZERO, (if n < ROOM then n else ROOM) - |rev|)
  }

  function Push(rev: seq<byte>, c: byte): seq<byte> {
    if |rev| < ROOM then rev + [c] else rev
  }

  function HashRev(rev: seq<byte>, base: nat, prec: nat, width: nat, f: Flags): seq<byte> {
    var cut := if !f.precision && rev != [] && (|rev| == prec || |rev| == width)
               then (if |rev| > 1 && base == 16 then rev[..|rev| - 2] else rev[..|rev| - 1])
               else rev;
    var marked := if base == 16 then Push(cut, if f.upper then 88 else 120)
                  else if base == 2 then Push(cut, 98) else cut;
    Push(marked, ZERO)
  }

  /** _ntoa_format up to the call of _out_rev: the buffer and the width. */
  function FormatRev(rev: seq<byte>, negative: bool, base: nat, prec: nat, width: nat, f: Flags): (seq<byte>, nat) {
    var w := if !f.left && width > 0 && f.zeropad && (negative || f.plus || f.space) then width - 1 else width;
    var padded := if f.left then rev
                  else if f.zeropad then PadTo(PadTo(rev, prec), w) else PadTo(rev, prec);
    var hashed := if f.hash then HashRev(padded, base, prec, w, f) else padded;
    var signed := if negative then Push(hashed, MINUS)
                  else if f.plus then Push(hashed, PLUS)
                  else if f.space then Push(hashed, SPACE) else hashed;
    (signed, w)
  }

  /** What _out_rev emits. */
  function OutRevText(rev: seq<byte>, width: nat, f: Flags): seq<byte> {
    (if !f.left && !f.zeropad then Repeat(SPACE, width - |rev|) else [])
    + Reverse(rev)
    + (if f.left then Repeat(SPACE, width - |rev|) else [])
  }

  /** What _ntoa_long (or _ntoa_long_long) emits. */
  function NtoaText(value: nat, negative: bool, base: nat, prec: nat, width: nat, f0: Flags): seq<byte>
    requires 2 <= base <= 16
  {
    var f := if value == 0 then f0.(hash := false) else f0;
    var rev := if !f.precision || value != 0 then DigitsRev(value, base, f.upper, ROOM) else [];
    var (r, w) := FormatRev(rev, negative, base, prec, width, f);
    OutRevText(r, w, f)
  }

  // ---------------------------------------------------------------------------
  // What the field should be

  function Pow(base: nat, n: nat): nat {
    if n == 0 then 1 else base * Pow(base, n - 1)
  }

  function DigitValue(c: byte): nat {
    if c < 65 then (if c < ZERO then 0 else c - ZERO) else if c < 97 then c - 65 + 10 else c - 97 + 10
  }

  /** The number a text stands for, most significant digit first. */
  function ValueOf(text: seq<byte>, base: nat): nat {
    if text == [] then 0 else base * ValueOf(text[..|text| - 1], base) + DigitValue(text[|text| - 1])
  }

  function Digits(value: nat, base: nat, upper: bool): seq<byte>
    requires 2 <= base <= 16
  {
    Reverse(DigitsRev(value, base, upper, ROOM))
  }

  function Sign(negative: bool, f: Flags): seq<byte> {
    if negative then [MINUS] else if f.plus then [PLUS] else if f.space then [SPACE] else []
  }

  /** A conversion as the C standard describes it: sign, zeros, digits, padded with
      spaces to the width. A precision is a minimum number of digits whatever the flags. */
  function Field(value: nat, negative: bool, base: nat, prec: nat, width: nat, f: Flags): seq<byte>
    requires 2 <= base <= 16
  {
    FieldOf(FieldDigits(value, base, f), negative, prec, width, f)
  }

  function FieldOf(digits: seq<byte>, negative: bool, prec: nat, width: nat, f: Flags): (r: seq<byte>)
    ensures |r| == Max(width, |BodyOf(digits, negative, prec, width, f)|)
  {
    var body := BodyOf(digits, negative, prec, width, f);
    var spaces := Repeat(SPACE, width - |body|);
    if f.left then body + spaces else spaces + body
  }

  function Body(value: nat, negative: bool, base: nat, prec: nat, width: nat, f: Flags): seq<byte>
    requires 2 <= base <= 16
  {
    BodyOf(FieldDigits(value, base, f), negative, prec, width, f)
  }

  function BodyOf(digits: seq<byte>, negative: bool, prec: nat, width: nat, f: Flags): (r: seq<byte>)
    ensures |r| == |Sign(negative, f)| + Zeros(|digits|, negative, prec, width, f) + |digits|
  {
    Sign(negative, f) + (Repeat(ZERO, Zeros(|digits|, negative, prec, width, f)) + digits)
  }

  /** How many zeros go before `n` digits. */
  function Zeros(n: nat, negative: bool, prec: nat, width: nat, f: Flags): nat {
    Max(Max(prec - n, if f.zeropad && !f.left then width - |Sign(negative, f)| - n else 0), 0)
  }

  /** Zeros and digits. */
  function Padded(value: nat, negative: bool, base: nat, prec: nat, width: nat, f: Flags): seq<byte>
    requires 2 <= base <= 16
  {
    var digits := FieldDigits(value, base, f);
    Repeat(ZERO, Zeros(|digits|, negative, prec, width, f)) + digits
  }

  lemma DivideBound(v: nat, base: nat, p: nat)
    requires 0 < base && v < base * p
    ensures High(v, base) < p
  {
    Euclid(v, base);
    Monotone(base, p, High(v, base));
  }

  lemma Monotone(base: nat, p: nat, q: nat)
    ensures p <= q ==> base * p <= base * q
  {
  }

  /** One more digit at the end of a reversed text. */
  lemma ReverseStep(d: byte, tail: seq<byte>, base: nat)
    ensures ValueOf(Reverse([d] + tail), base) == base * ValueOf(Reverse(tail), base) + DigitValue(d)
  {
    var t := Reverse([d] + tail);
    ReverseConcat([d], tail);
    assert t == Reverse(tail) + [d];
    assert t[..|t| - 1] == Reverse(tail);
  }

  lemma DigitRoundTrip(d: nat, upper: bool)
    requires d < 16
    ensures DigitValue(Digit(d, upper)) == d
  {
  }

  /** Digits and value are inverse, where the digits fit. */
  lemma {:induction false} DigitsReadBack(v: nat, base: nat, upper: bool, room: nat)
    requires 2 <= base <= 16 && room > 0 && v < Pow(base, room)
    ensures ValueOf(Reverse(DigitsRev(v, base, upper, room)), base) == v
    decreases room
  {
    var q, d := High(v, base), Digit(Low(v, base), upper);
    DigitRoundTrip(Low(v, base), upper);
    Euclid(v, base);
    DivideBound(v, base, Pow(base, room - 1));
    if q == 0 || room == 1 {
      assert q == 0;
      ReverseStep(d, [], base);
      assert [d] + [] == [d] && Reverse([]) == [];
    } else {
      DigitsReadBack(q, base, upper, room - 1);
      ReverseStep(d, DigitsRev(q, base, upper, room - 1), base);
    }
  }

  /** Leading zeros change nothing. */
  lemma {:induction false} LeadingZeros(n: int, text: seq<byte>, base: nat)
    ensures ValueOf(Repeat(ZERO, n) + text, base) == ValueOf(text, base)
    decreases Max(n, 0), |text|
  {
    if text != [] {
      var all := Repeat(ZERO, n) + text;
      assert all[..|all| - 1] == Repeat(ZERO, n) + text[..|text| - 1];
      LeadingZeros(n, text[..|text| - 1], base);
    } else if n > 0 {
      var all := Repeat(ZERO, n) + text;
      assert all == Repeat(ZERO, n) && all[..n - 1] == Repeat(ZERO, n - 1) + [];
      LeadingZeros(n - 1, [], base);
    } else {
      assert Repeat(ZERO, n) + text == text;
    }
  }

  lemma FitsRoom(value: nat, base: nat)
    requires value < 0x1_0000_0000_0000_0000 && (base == 8 || base == 10 || base == 16)
    ensures value < Pow(base, 22) && (base == 16 ==> value < Pow(16, 16))
  {
    assert Pow(base, 4) == base * base * base * base by {
      assert Pow(base, 1) == base && Pow(base, 2) == base * base && Pow(base, 3) == base * (base * base);
    }
    PowAdd(base, 4, 4);
    PowAdd(base, 8, 8);
    PowAdd(base, 16, 4);
    PowAdd(base, 20, 2);
    assert Pow(base, 2) == base * base;
    if base == 8 {
      assert Pow(8, 4) == 4096 && Pow(8, 8) == 0x100_0000 && Pow(8, 16) == 0x1_0000_0000_0000;
    } else if base == 10 {
      assert Pow(10, 4) == 10000 && Pow(10, 8) == 1_0000_0000 && Pow(10, 16) == 1_0000_0000_0000_0000;
    } else {
      assert Pow(16, 4) == 0x1_0000 && Pow(16, 8) == 0x1_0000_0000 && Pow(16, 16) == 0x1_0000_0000_0000_0000;
    }
  }

  lemma {:induction false} PowAdd(base: nat, a: nat, b: nat)
    ensures Pow(base, a + b) == Pow(base, a) * Pow(base, b)
  {
    if a > 0 {
      PowAdd(base, a - 1, b);
      assert base * (Pow(base, a - 1) * Pow(base, b)) == (base * Pow(base, a - 1)) * Pow(base, b);
    }
  }

  /** No more digits than the value needs. */
  lemma {:induction false} DigitCount(v: nat, base: nat, upper: bool, room: nat, n: nat)
    requires 2 <= base <= 16 && room > 0 && 0 < n && v < Pow(base, n)
    ensures |DigitsRev(v, base, upper, room)| <= n
    ensures n <= room ==> DigitsRev(v, base, upper, room) == DigitsRev(v, base, upper, n)
    decreases room
  {
    DivideBound(v, base, Pow(base, n - 1));
    if n == 1 {
      assert Pow(base, 0) == 1;
    } else if room > 1 {
      DigitCount(High(v, base), base, upper, room - 1, n - 1);
    }
  }

  /** The digits of the field; none for a zero with a precision. */
  function FieldDigits(value: nat, base: nat, f: Flags): seq<byte>
    requires 2 <= base <= 16
  {
    if f.precision && value == 0 then [] else Digits(value, base, f.upper)
  }

  lemma DigitsOfWord(value: nat, base: nat, f: Flags)
    requires value < 0x1_0000_0000_0000_0000 && (base == 8 || base == 10 || base == 16)
    ensures |FieldDigits(value, base, f)| <= 22
    ensures ValueOf(FieldDigits(value, base, f), base) == value
  {
    FitsRoom(value, base);
    DigitCount(value, base, f.upper, ROOM, 22);
    DigitsReadBack(value, base, f.upper, 22);
  }

  /** For unsigned 64-bit values in the bases of the library, the zeros and digits of
      the field read back as the value. */
  lemma FieldReadsBack(value: nat, negative: bool, base: nat, prec: nat, width: nat, f: Flags)
    requires value < 0x1_0000_0000_0000_0000 && (base == 8 || base == 10 || base == 16)
    ensures ValueOf(Padded(value, negative, base, prec, width, f), base) == value
  {
    DigitsOfWord(value, base, f);
    LeadingZeros(Zeros(|FieldDigits(value, base, f)|, negative, prec, width, f), FieldDigits(value, base, f), base);
  }

  lemma ReversedField(value: nat, base: nat, f: Flags) returns (rev: seq<byte>)
    requires value < 0x1_0000_0000_0000_0000 && (base == 8 || base == 10 || base == 16)
    ensures rev == if !f.precision || value != 0 then DigitsRev(value, base, f.upper, ROOM) else []
    ensures Reverse(rev) == FieldDigits(value, base, f) && |rev| <= 22
  {
    rev := if !f.precision || value != 0 then DigitsRev(value, base, f.upper, ROOM) else [];
    DigitsOfWord(value, base, f);
  }

  /** The sizes and flags for which `n` digits come out as they should: with the - flag
      there must be no zeros to pad to the precision; without it the body must fit the
      small buffer, or be one too long by a space for a sign, which the padding to the
      width makes good. */
  predicate Fits(n: nat, negative: bool, prec: nat, width: nat, f: Flags) {
    if f.left then prec <= n
    else
      || |Sign(negative, f)| + Zeros(n, negative, prec, width, f) + n <= ROOM
      || (!f.zeropad && Sign(negative, f) == [SPACE] && prec == ROOM < width)
  }

  /** Without the # flag, the code emits the field exactly then. */
  lemma NtoaIsField(value: nat, negative: bool, base: nat, prec: nat, width: nat, f: Flags)
    requires value < 0x1_0000_0000_0000_0000 && (base == 8 || base == 10 || base == 16) && !f.hash
    ensures NtoaText(value, negative, base, prec, width, f) == Field(value, negative, base, prec, width, f) <==>
            Fits(|FieldDigits(value, base, f)|, negative, prec, width, f)
  {
    assert f.(hash := false) == f;
    var rev := ReversedField(value, base, f);
    NoSpaces(value, base, f.upper, ROOM);
    TextExactly(rev, negative, base, prec, width, f);
  }

  lemma {:induction false} NoSpaces(v: nat, base: nat, upper: bool, room: nat)
    requires 2 <= base <= 16 && room > 0
    ensures SPACE !in DigitsRev(v, base, upper, room)
    decreases room
  {
    if !(High(v, base) == 0 || room == 1) {
      NoSpaces(High(v, base), base, upper, room - 1);
    }
  }

  /** What _ntoa_format and _out_rev make of some digits. */
  function Formatted(rev: seq<byte>, negative: bool, base: nat, prec: nat, width: nat, f: Flags): seq<byte> {
    var (signed, w) := FormatRev(rev, negative, base, prec, width, f);
    OutRevText(signed, w, f)
  }

  lemma TextExactly(rev: seq<byte>, negative: bool, base: nat, prec: nat, width: nat, f: Flags)
    requires |rev| <= 22 && SPACE !in rev && !f.hash
    ensures Formatted(rev, negative, base, prec, width, f) == FieldOf(Reverse(rev), negative, prec, width, f) <==>
            Fits(|rev|, negative, prec, width, f)
  {
    if f.left {
      LeftExactly(rev, negative, base, prec, width, f);
    } else if |Sign(negative, f)| + Zeros(|rev|, negative, prec, width, f) + |rev| <= ROOM {
      RightFits(rev, negative, base, prec, width, f);
    } else {
      RightExactly(rev, negative, base, prec, width, f);
    }
  }

  // With the - flag

  lemma LeftExactly(rev: seq<byte>, negative: bool, base: nat, prec: nat, width: nat, f: Flags)
    requires |rev| <= 22 && SPACE !in rev && !f.hash && f.left
    ensures Formatted(rev, negative, base, prec, width, f) == FieldOf(Reverse(rev), negative, prec, width, f) <==>
            prec <= |rev|
  {
    var sign, digits := Sign(negative, f), Reverse(rev);
    var text := Formatted(rev, negative, base, prec, width, f);
    LeftText(rev, negative, base, prec, width, f);
    if prec <= |rev| {
      assert Repeat(ZERO, 0) + digits == digits;
    } else {
      LeftShort(sign, digits, prec - |rev|, width);
    }
  }

  lemma LeftText(rev: seq<byte>, negative: bool, base: nat, prec: nat, width: nat, f: Flags)
    requires |rev| <= 22 && !f.hash && f.left
    ensures var head := Sign(negative, f) + Reverse(rev);
            Formatted(rev, negative, base, prec, width, f) == head + Repeat(SPACE, width - |head|)
  {
    var sign := Sign(negative, f);
    var signed := FormatRev(rev, negative, base, prec, width, f).0;
    assert signed == rev + sign;
    ReverseConcat(rev, sign);
    assert Reverse(sign) == sign;
    assert [] + Reverse(signed) == Reverse(signed);
  }

  /** So the precision is lost: only sign and digits are printed. */
  lemma LeftNtoa(value: nat, negative: bool, base: nat, prec: nat, width: nat, f: Flags)
    requires value < 0x1_0000_0000_0000_0000 && (base == 8 || base == 10 || base == 16) && !f.hash && f.left
    ensures var head := Sign(negative, f) + FieldDigits(value, base, f);
            NtoaText(value, negative, base, prec, width, f) == head + Repeat(SPACE, width - |head|)
  {
    assert f.(hash := false) == f;
    var rev := ReversedField(value, base, f);
    LeftText(rev, negative, base, prec, width, f);
  }

  /** Seven, to a precision of five. */
  lemma LeftSeven(f: Flags)
    requires !f.hash && f.left && f.precision && !f.plus && !f.space
    ensures NtoaText(7, false, 10, 5, 0, f) == [55]
    ensures Field(7, false, 10, 5, 0, f) == [ZERO, ZERO, ZERO, ZERO, 55]
  {
    assert High(7, 10) == 0 && Low(7, 10) == 7;
    assert DigitsRev(7, 10, f.upper, ROOM) == [55];
    var digits := FieldDigits(7, 10, f);
    assert digits == [55];
    LeftNtoa(7, false, 10, 5, 0, f);
    assert Sign(false, f) + digits == [55] && [55] + Repeat(SPACE, -1) == [55];
    SevenField(f);
  }

  lemma SevenField(f: Flags)
    requires f.left && !f.plus && !f.space
    ensures FieldOf([55], false, 5, 0, f) == [ZERO, ZERO, ZERO, ZERO, 55]
  {
    assert Zeros(1, false, 5, 0, f) == 4;
    assert Repeat(ZERO, 4) + [55] == [ZERO, ZERO, ZERO, ZERO, 55];
  }

  /** Where digits or zeros should stand there are spaces, or nothing. */
  lemma LeftShort(sign: seq<byte>, digits: seq<byte>, zeros: nat, width: nat)
    requires |sign| <= 1 && SPACE !in digits && zeros > 0
    ensures var head, body := sign + digits, sign + (Repeat(ZERO, zeros) + digits);
            head + Repeat(SPACE, width - |head|) != body + Repeat(SPACE, width - |body|)
  {
    var head, body := sign + digits, sign + (Repeat(ZERO, zeros) + digits);
    if width >= |body| {
      var at := |head|;
      assert (head + Repeat(SPACE, width - |head|))[at] == SPACE;
      assert (body + Repeat(SPACE, width - |body|))[at] == body[at] != SPACE by {
        if at - |sign| >= zeros {
          assert body[at] == digits[at - |sign| - zeros];
          assert digits[at - |sign| - zeros] in digits;
        }
      }
    }
  }

  // Without it

  lemma RightFits(rev: seq<byte>, negative: bool, base: nat, prec: nat, width: nat, f: Flags)
    requires |rev| <= 22 && !f.hash && !f.left
    requires |Sign(negative, f)| + Zeros(|rev|, negative, prec, width, f) + |rev| <= ROOM
    ensures Formatted(rev, negative, base, prec, width, f) == FieldOf(Reverse(rev), negative, prec, width, f)
  {
    var zeros := Zeros(|rev|, negative, prec, width, f);
    var sign := Sign(negative, f);
    FormatShape(rev, negative, base, prec, width, f);
    ReverseConcat(rev + Repeat(ZERO, zeros), sign);
    ReverseConcat(rev, Repeat(ZERO, zeros));
    assert Reverse(sign) == sign && Reverse(Repeat(ZERO, zeros)) == Repeat(ZERO, zeros);
    var (signed, w) := FormatRev(rev, negative, base, prec, width, f);
    var body := BodyOf(Reverse(rev), negative, prec, width, f);
    assert Reverse(signed) == body;
    OutRight(signed, w, width, f, body);
  }

  lemma FormatShape(rev: seq<byte>, negative: bool, base: nat, prec: nat, width: nat, f: Flags)
    requires |rev| <= 22 && !f.hash && !f.left
    requires |Sign(negative, f)| + Zeros(|rev|, negative, prec, width, f) + |rev| <= ROOM
    ensures var (signed, w) := FormatRev(rev, negative, base, prec, width, f);
            && signed == rev + Repeat(ZERO, Zeros(|rev|, negative, prec, width, f)) + Sign(negative, f)
            && (!f.zeropad ==> w == width)
  {
  }

  lemma OutRight(signed: seq<byte>, w: nat, width: nat, f: Flags, body: seq<byte>)
    requires Reverse(signed) == body && !f.left
    requires if f.zeropad then |body| >= width else w == width
    ensures OutRevText(signed, w, f) == Repeat(SPACE, width - |body|) + body
  {
  }

  /** A longer body fills the buffer with zeros and leaves no room for the sign. */
  lemma RightExactly(rev: seq<byte>, negative: bool, base: nat, prec: nat, width: nat, f: Flags)
    requires |rev| <= 22 && !f.hash && !f.left
    requires |Sign(negative, f)| + Zeros(|rev|, negative, prec, width, f) + |rev| > ROOM
    ensures Formatted(rev, negative, base, prec, width, f) == FieldOf(Reverse(rev), negative, prec, width, f) <==>
            !f.zeropad && Sign(negative, f) == [SPACE] && prec == ROOM < width
  {
    FullBuffer(rev, negative, base, prec, width, f);
    var tail := Repeat(ZERO, ROOM - |rev|) + Reverse(rev);
    var text := Formatted(rev, negative, base, prec, width, f);
    var body := BodyOf(Reverse(rev), negative, prec, width, f);
    if !f.zeropad {
      RightLong(Sign(negative, f), Zeros(|rev|, negative, prec, width, f), Reverse(rev), width);
      assert text == Repeat(SPACE, width - ROOM) + tail;
    } else {
      assert |text| == ROOM < |body|;
    }
  }

  lemma FullBuffer(rev: seq<byte>, negative: bool, base: nat, prec: nat, width: nat, f: Flags)
    requires |rev| <= 22 && !f.hash && !f.left
    requires |Sign(negative, f)| + Zeros(|rev|, negative, prec, width, f) + |rev| > ROOM
    ensures var tail := Repeat(ZERO, ROOM - |rev|) + Reverse(rev);
            Formatted(rev, negative, base, prec, width, f) ==
            (if f.zeropad then [] else Repeat(SPACE, width - ROOM)) + tail
  {
    var (signed, w) := FormatRev(rev, negative, base, prec, width, f);
    assert signed == rev + Repeat(ZERO, ROOM - |rev|);
    ReverseConcat(rev, Repeat(ZERO, ROOM - |rev|));
    assert Reverse(Repeat(ZERO, ROOM - |rev|)) == Repeat(ZERO, ROOM - |rev|);
    assert Reverse(signed) + [] == Reverse(signed);
  }

  /** The 32 last characters, padded with spaces, against the whole body. */
  lemma RightLong(sign: seq<byte>, zeros: nat, digits: seq<byte>, width: nat)
    requires |sign| <= 1 && |digits| <= 22 && |sign| + zeros + |digits| > ROOM
    ensures var tail := Repeat(ZERO, ROOM - |digits|) + digits;
            var body := sign + (Repeat(ZERO, zeros) + digits);
            Repeat(SPACE, width - ROOM) + tail == Repeat(SPACE, width - |body|) + body <==>
            sign == [SPACE] && zeros + |digits| == ROOM < width
  {
    var tail := Repeat(ZERO, ROOM - |digits|) + digits;
    var body := sign + (Repeat(ZERO, zeros) + digits);
    var text, field := Repeat(SPACE, width - ROOM) + tail, Repeat(SPACE, width - |body|) + body;
    if width >= |body| {
      var at := width - ROOM - 1;
      assert text[at] == SPACE && field[at] == body[|body| - ROOM - 1];
      if zeros + |digits| == ROOM && sign == [SPACE] {
        assert body == [SPACE] + tail;
        assert text == field;
      }
    }
  }

  // ---------------------------------------------------------------------------
  // %lx and hexstr_to_int

  lemma {:induction false} HexDigits(v: nat, room: nat)
    requires room > 0
    ensures forall k :: 0 <= k < |DigitsRev(v, 16, false, room)| ==>
              IsHex(DigitsRev(v, 16, false, room)[k])
              && HexcharToInt(DigitsRev(v, 16, false, room)[k]) == DigitValue(DigitsRev(v, 16, false, room)[k])
    decreases room
  {
    if !(High(v, 16) == 0 || room == 1) {
      HexDigits(High(v, 16), room - 1);
    }
  }

  lemma {:induction false} NumberIsValue(text: seq<byte>)
    requires forall k :: 0 <= k < |text| ==> IsHex(text[k]) && HexcharToInt(text[k]) == DigitValue(text[k])
    ensures Number(text) == ValueOf(text, 16)
  {
    if text != [] {
      NumberIsValue(text[..|text| - 1]);
    }
  }

  lemma {:induction false} HexRunAll(text: seq<byte>, rest: seq<byte>)
    requires forall k :: 0 <= k < |text| ==> IsHex(text[k])
    requires rest != [] && !IsHex(rest[0])
    ensures HexRun(text + rest) == |text|
  {
    if text == [] {
      assert text + rest == rest;
    } else {
      assert (text + rest)[1..] == text[1..] + rest;
      HexRunAll(text[1..], rest);
    }
  }

  /** hexstr_to_int inverts a plain %lx: what it reads is the printed text, all of it,
      and what it computes is the value. */
  lemma HexstrInvertsLx(value: nat)
    requires value < 0x1_0000_0000_0000_0000
    ensures var text := NtoaText(value, false, 16, 0, 0, NO_FLAGS.(longSize := true));
            && 1 <= |text| <= 16
            && HexRun(text + [NUL]) == |text|
            && (text + [NUL])[..|text|] == text
            && (forall k :: 0 <= k < |text| ==> IsHex(text[k]))
            && Number(text) == value
  {
    LxText(value);
    HexTextReads(value);
  }

  lemma ReversedHexDigits(value: nat)
    ensures var text := Reverse(DigitsRev(value, 16, false, ROOM));
            forall k :: 0 <= k < |text| ==> IsHex(text[k]) && HexcharToInt(text[k]) == DigitValue(text[k])
  {
    HexDigits(value, ROOM);
  }

  lemma HexTextReads(value: nat)
    requires value < 0x1_0000_0000_0000_0000
    ensures var text := Reverse(DigitsRev(value, 16, false, ROOM));
            && 1 <= |text| <= 16
            && HexRun(text + [NUL]) == |text|
            && (text + [NUL])[..|text|] == text
            && (forall k :: 0 <= k < |text| ==> IsHex(text[k]))
            && Number(text) == value
  {
    var rev := DigitsRev(value, 16, false, ROOM);
    var text := Reverse(rev);
    FitsRoom(value, 16);
    DigitCount(value, 16, false, ROOM, 16);
    DigitsReadBack(value, 16, false, 16);
    ReversedHexDigits(value);
    NumberIsValue(text);
    assert !IsHex(NUL);
    HexRunAll(text, [NUL]);
  }

  /** Without flags, width or precision only the digits are printed. */
  lemma LxText(value: nat)
    requires value < 0x1_0000_0000_0000_0000
    ensures NtoaText(value, false, 16, 0, 0, NO_FLAGS.(longSize := true)) == Reverse(DigitsRev(value, 16, false, ROOM))
  {
    var f := NO_FLAGS.(longSize := true);
    NtoaIsField(value, false, 16, 0, 0, f);
    var digits := FieldDigits(value, 16, f);
    assert Body(value, false, 16, 0, 0, f) == digits;
    assert Field(value, false, 16, 0, 0, f) == digits;
  }
}
