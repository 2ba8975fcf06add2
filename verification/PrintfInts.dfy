/**
 Integer and pointer directives (src/printf.c), from the characters of the directive to
 the characters printed: what is printed reads back as the argument.
 */
module PrintfInts {
  import opened Words
  import opened Chars
  import opened Hex
  import opened PrintfNumbers
  import opened Printf
  import opened PrintfParse
  import opened PrintfFormats
  import opened PrintfItems

  // ---------------------------------------------------------------------------
  // The argument of a directive

  /** d, i, u, x, X and o. */
  predicate IsStandard(c: byte) {
    c == 'd' as int || c == 'i' as int || c == 'u' as int || c == 'x' as int || c == 'X' as int || c == 'o' as int
  }

  predicate IsDecimal(c: byte) {
    c == 'd' as int || c == 'i' as int || c == 'u' as int
  }

  function Base(c: byte): nat {
    if c == 'x' as int || c == 'X' as int then 16 else if c == 'o' as int then 8 else 10
  }

  /** How many values the type named by the length letters has. */
  function Size(l: Length): nat {
    match l
    case HH => 0x100
    case H => 0x1_0000
    case NoLength => 0x1_0000_0000
    case _ => 0x1_0000_0000_0000_0000
  }

  /** A plain char is unsigned on this target. */
  predicate IsSigned(c: byte, l: Length) {
    (c == 'd' as int || c == 'i' as int) && l != HH
  }

  /** The argument as a number of that type. */
  function ArgValue(c: byte, l: Length, v: nat): int {
    var cut := v % Size(l);
    if IsSigned(c, l) && 2 * cut >= Size(l) then cut - Size(l) else cut
  }

  function Abs(n: int): nat {
    if n < 0 then -n else n
  }

  predicate SizedAs(f: Flags, l: Length) {
    && f.charSize == l.HH? && f.shortSize == (l.H? || l.HH?)
    && f.longSize == (l.L? || l.LL? || l.J? || l.Z? || l.T?)
  }

  lemma ValueMeant(c: byte, f: Flags, l: Length, v: u64)
    requires SizedAs(f, l)
    ensures var n := ArgValue(c, l, v); Negative(c, f, v) == (n < 0) && Magnitude(c, f, v) == Abs(n)
  {
    CutMeant(f, l, v);
  }

  lemma CutMeant(f: Flags, l: Length, v: u64)
    requires SizedAs(f, l)
    ensures Cut(f, v) == v % Size(l) && 2 * Half(f) == Size(l)
  {
    match l
    case HH =>
    case H =>
    case NoLength =>
    case L =>
    case LL =>
    case J =>
    case Z =>
    case T =>
  }

  // ---------------------------------------------------------------------------
  // Texts read back

  lemma {:induction false} HexOnly(v: nat, base: nat, upper: bool, room: nat)
    requires 2 <= base <= 16 && room > 0
    ensures AllHex(DigitsRev(v, base, upper, room))
    decreases room
  {
    assert IsHex(Digit(Low(v, base), upper));
    if !(High(v, base) == 0 || room == 1) {
      HexOnly(High(v, base), base, upper, room - 1);
    }
  }

  lemma FieldHex(value: nat, base: nat, f: Flags, zeros: nat)
    requires 2 <= base <= 16
    ensures AllHex(Repeat(ZERO, zeros) + FieldDigits(value, base, f))
  {
    HexOfField(value, base, f);
    assert IsHex(ZERO);
  }

  lemma HexOfField(value: nat, base: nat, f: Flags)
    requires 2 <= base <= 16
    ensures AllHex(FieldDigits(value, base, f))
  {
    HexOnly(value, base, f.upper, ROOM);
  }

  /** The sign is printed if the field fits the small buffer, or if it is on the left. */
  predicate SignShown(n: nat, negative: bool, prec: nat, width: nat, f: Flags) {
    f.left || |Sign(negative, f)| + Zeros(n, negative, prec, width, f) + n <= ROOM
  }

  /** What the formatter prints without the # flag reads back as the number, or without
      its sign where that is not shown. */
  lemma NtoaReads(value: nat, negative: bool, base: nat, prec: nat, width: nat, f: Flags)
    requires value < 0x1_0000_0000_0000_0000 && (base == 8 || base == 10 || base == 16) && !f.hash
    ensures var shown := SignShown(|FieldDigits(value, base, f)|, negative, prec, width, f);
            ReadInt(NtoaText(value, negative, base, prec, width, f), base) ==
            if negative && shown then 0 - value else value
  {
    if f.left {
      LeftReads(value, negative, base, prec, width, f);
    } else if SignShown(|FieldDigits(value, base, f)|, negative, prec, width, f) {
      RightReads(value, negative, base, prec, width, f);
    } else {
      FullReads(value, negative, base, prec, width, f);
    }
  }

  lemma LeftReads(value: nat, negative: bool, base: nat, prec: nat, width: nat, f: Flags)
    requires value < 0x1_0000_0000_0000_0000 && (base == 8 || base == 10 || base == 16) && !f.hash && f.left
    ensures ReadInt(NtoaText(value, negative, base, prec, width, f), base) == if negative then 0 - value else value
  {
    var sign, digits := Sign(negative, f), FieldDigits(value, base, f);
    LeftNtoa(value, negative, base, prec, width, f);
    DigitsOfWord(value, base, f);
    HexOfField(value, base, f);
    LeftRead(sign, digits, width - |sign + digits|, base);
  }

  lemma LeftRead(sign: seq<byte>, digits: seq<byte>, n: int, base: nat)
    requires AllHex(digits) && (sign == [] || sign == [MINUS] || sign == [PLUS] || sign == [SPACE])
    ensures var v: int := ValueOf(digits, base);
            ReadInt((sign + digits) + Repeat(SPACE, n), base) == if sign == [MINUS] then -v else v
  {
    FieldRead(0, sign, digits, n, base);
    var text := sign + (digits + Repeat(SPACE, n));
    assert Repeat(SPACE, 0) + text == text;
    Associate(sign, digits, Repeat(SPACE, n));
  }

  lemma RightRead(n: int, sign: seq<byte>, digits: seq<byte>, base: nat)
    requires AllHex(digits) && (sign == [] || sign == [MINUS] || sign == [PLUS] || sign == [SPACE])
    ensures var v: int := ValueOf(digits, base);
            ReadInt(Repeat(SPACE, n) + (sign + digits), base) == if sign == [MINUS] then -v else v
  {
    FieldRead(n, sign, digits, 0, base);
    assert digits + Repeat(SPACE, 0) == digits;
  }

  lemma RightReads(value: nat, negative: bool, base: nat, prec: nat, width: nat, f: Flags)
    requires value < 0x1_0000_0000_0000_0000 && (base == 8 || base == 10 || base == 16) && !f.hash && !f.left
    requires SignShown(|FieldDigits(value, base, f)|, negative, prec, width, f)
    ensures ReadInt(NtoaText(value, negative, base, prec, width, f), base) == if negative then 0 - value else value
  {
    NtoaIsField(value, negative, base, prec, width, f);
    FieldReadsBack(value, negative, base, prec, width, f);
    var sign, padded := Sign(negative, f), Padded(value, negative, base, prec, width, f);
    FieldHex(value, base, f, Zeros(|FieldDigits(value, base, f)|, negative, prec, width, f));
    var spaces := RightField(value, negative, base, prec, width, f);
    RightRead(spaces, sign, padded, base);
  }

  lemma RightField(value: nat, negative: bool, base: nat, prec: nat, width: nat, f: Flags) returns (spaces: int)
    requires 2 <= base <= 16 && !f.left
    ensures Field(value, negative, base, prec, width, f) ==
            Repeat(SPACE, spaces) + (Sign(negative, f) + Padded(value, negative, base, prec, width, f))
  {
    spaces := width - |Body(value, negative, base, prec, width, f)|;
  }

  lemma FullReads(value: nat, negative: bool, base: nat, prec: nat, width: nat, f: Flags)
    requires value < 0x1_0000_0000_0000_0000 && (base == 8 || base == 10 || base == 16) && !f.hash
    requires !SignShown(|FieldDigits(value, base, f)|, negative, prec, width, f)
    ensures ReadInt(NtoaText(value, negative, base, prec, width, f), base) == value
  {
    var digits := FieldDigits(value, base, f);
    var spaces, zeros := FullText(value, negative, base, prec, width, f);
    DigitsOfWord(value, base, f);
    LeadingZeros(zeros, digits, base);
    FieldHex(value, base, f, zeros);
    RightRead(spaces, [], Repeat(ZERO, zeros) + digits, base);
    assert [] + (Repeat(ZERO, zeros) + digits) == Repeat(ZERO, zeros) + digits;
  }

  lemma FullText(value: nat, negative: bool, base: nat, prec: nat, width: nat, f: Flags)
    returns (spaces: int, zeros: nat)
    requires value < 0x1_0000_0000_0000_0000 && (base == 8 || base == 10 || base == 16) && !f.hash
    requires !SignShown(|FieldDigits(value, base, f)|, negative, prec, width, f)
    ensures NtoaText(value, negative, base, prec, width, f) ==
            Repeat(SPACE, spaces) + (Repeat(ZERO, zeros) + FieldDigits(value, base, f))
  {
    var rev := ReversedField(value, base, f);
    NtoaFormats(value, negative, base, prec, width, f, rev);
    spaces, zeros := FullFormatted(rev, negative, base, prec, width, f);
  }

  lemma FullFormatted(rev: seq<byte>, negative: bool, base: nat, prec: nat, width: nat, f: Flags)
    returns (spaces: int, zeros: nat)
    requires |rev| <= 22 && !f.hash && !SignShown(|rev|, negative, prec, width, f)
    ensures Formatted(rev, negative, base, prec, width, f) ==
            Repeat(SPACE, spaces) + (Repeat(ZERO, zeros) + Reverse(rev))
  {
    FullBuffer(rev, negative, base, prec, width, f);
    spaces, zeros := if f.zeropad then 0 else width - ROOM, ROOM - |rev|;
    assert Repeat(SPACE, 0) == [];
  }

  lemma NtoaFormats(value: nat, negative: bool, base: nat, prec: nat, width: nat, f: Flags, rev: seq<byte>)
    requires 2 <= base <= 16 && (f.hash ==> value != 0)
    requires rev == if !f.precision || value != 0 then DigitsRev(value, base, f.upper, ROOM) else []
    ensures NtoaText(value, negative, base, prec, width, f) == Formatted(rev, negative, base, prec, width, f)
  {
    assert value == 0 ==> f.(hash := false) == f;
  }

  // ---------------------------------------------------------------------------
  // Integer directives

  function Has(i: Item, c: char): bool
    requires i.Spec? && c < 128 as char
  {
    c as int in i.flags
  }

  /** The zero flag counts without a precision only. */
  predicate ZeroPadded(i: Item)
    requires i.Spec?
  {
    Has(i, '0') && i.prec.Absent?
  }

  function WithoutSizes(f: Flags): Flags {
    f.(charSize := false, shortSize := false, longSize := false)
  }

  /** The flags that count for an integer directive. */
  function FieldFlags(i: Item, args: seq<Arg>, k: nat): Flags
    requires i.Spec?
  {
    var signed := i.conv == 'd' as int || i.conv == 'i' as int;
    NO_FLAGS.(zeropad := ZeroPadded(i), left := OnLeft(i, args, k), plus := signed && Has(i, '+'),
              space := signed && Has(i, ' '), hash := Has(i, '#') && !IsDecimal(i.conv),
              upper := i.conv == 'X' as int, precision := !i.prec.Absent?)
  }

  lemma FlagsMeant(i: Item, args: seq<Arg>, k: nat)
    requires i.Spec? && IsStandard(i.conv)
    ensures var f := IntegerFlags(i.conv, Meant(i, 0, args, k).f);
            WithoutSizes(f) == FieldFlags(i, args, k) && SizedAs(f, i.length)
  {
    PartsMeant(i, args, k);
    OtherFlags(i, args, k);
    SizeFlags(i, args, k);
    FlagsCounted(i, args, k, Meant(i, 0, args, k).f);
  }

  lemma FlagsCounted(i: Item, args: seq<Arg>, k: nat, g: Flags)
    requires i.Spec? && IsStandard(i.conv) && SizedAs(g, i.length)
    requires g.left == OnLeft(i, args, k) && g.precision == !i.prec.Absent? && !g.upper
    requires g.zeropad == Has(i, '0') && g.plus == Has(i, '+') && g.space == Has(i, ' ') && g.hash == Has(i, '#')
    ensures var f := IntegerFlags(i.conv, g);
            WithoutSizes(f) == FieldFlags(i, args, k) && SizedAs(f, i.length)
  {
    var f := IntegerFlags(i.conv, g);
    if i.conv == 'd' as int || i.conv == 'i' as int {
      SignedKept(i.conv, g);
      SignedCounted(i, args, k, g, f);
    } else if i.conv == 'u' as int {
      UnsignedKept(g);
      UnsignedCounted(i, args, k, g, f);
    } else {
      OthersKept(i.conv, g);
      OthersCounted(i, args, k, g, f);
    }
  }

  lemma SignedCounted(i: Item, args: seq<Arg>, k: nat, g: Flags, f: Flags)
    requires i.Spec? && (i.conv == 'd' as int || i.conv == 'i' as int) && SizedAs(g, i.length)
    requires g.left == OnLeft(i, args, k) && g.precision == !i.prec.Absent? && !g.upper
    requires g.zeropad == Has(i, '0') && g.plus == Has(i, '+') && g.space == Has(i, ' ') && g.hash == Has(i, '#')
    requires f == WithoutZero(g).(hash := false)
    ensures WithoutSizes(f) == FieldFlags(i, args, k) && SizedAs(f, i.length)
  {
  }

  lemma UnsignedCounted(i: Item, args: seq<Arg>, k: nat, g: Flags, f: Flags)
    requires i.Spec? && i.conv == 'u' as int && SizedAs(g, i.length)
    requires g.left == OnLeft(i, args, k) && g.precision == !i.prec.Absent? && !g.upper
    requires g.zeropad == Has(i, '0') && g.plus == Has(i, '+') && g.space == Has(i, ' ') && g.hash == Has(i, '#')
    requires f == WithoutZero(g).(hash := false, plus := false, space := false)
    ensures WithoutSizes(f) == FieldFlags(i, args, k) && SizedAs(f, i.length)
  {
  }

  lemma OthersCounted(i: Item, args: seq<Arg>, k: nat, g: Flags, f: Flags)
    requires i.Spec? && (i.conv == 'x' as int || i.conv == 'X' as int || i.conv == 'o' as int) && SizedAs(g, i.length)
    requires g.left == OnLeft(i, args, k) && g.precision == !i.prec.Absent? && !g.upper
    requires g.zeropad == Has(i, '0') && g.plus == Has(i, '+') && g.space == Has(i, ' ') && g.hash == Has(i, '#')
    requires f == WithoutZero(g).(upper := i.conv == 'X' as int, plus := false, space := false)
    ensures WithoutSizes(f) == FieldFlags(i, args, k) && SizedAs(f, i.length)
  {
  }

  function WithoutZero(g: Flags): Flags {
    if g.precision then g.(zeropad := false) else g
  }

  lemma SignedKept(c: byte, g: Flags)
    requires c == 'd' as int || c == 'i' as int
    ensures IntegerFlags(c, g) == WithoutZero(g).(hash := false)
  {
  }

  lemma UnsignedKept(g: Flags)
    ensures IntegerFlags('u' as int, g) == WithoutZero(g).(hash := false, plus := false, space := false)
  {
  }

  lemma OthersKept(c: byte, g: Flags)
    requires (c == 'x' as int || c == 'X' as int || c == 'o' as int) && !g.upper
    ensures IntegerFlags(c, g) == WithoutZero(g).(upper := c == 'X' as int, plus := false, space := false)
  {
  }

  /** What an integer directive hands to the formatter. */
  lemma IntegerPrinted(i: Item, args: seq<Arg>, k: nat) returns (f: Flags)
    requires i.Spec? && IsStandard(i.conv)
    ensures WithoutSizes(f) == FieldFlags(i, args, k)
    ensures var n := ArgValue(i.conv, i.length, NumArg(args, Operand(i, k)));
            && Abs(n) < 0x1_0000_0000_0000_0000
            && Output(i, args, k) ==
               NtoaText(Abs(n), n < 0, Base(i.conv), PrecOf(i, args, k), WidthOf(i, args, k), f)
  {
    var d, v := Meant(i, 0, args, k), NumArg(args, Operand(i, k));
    f := IntegerFlags(i.conv, d.f);
    PartsMeant(i, args, k);
    FlagsMeant(i, args, k);
    ValueMeant(i.conv, f, i.length, v);
    IntegerConverted(i.conv, d, args, v);
    MagnitudeIsArgument(i.conv, f, v);
  }

  lemma IntegerConverted(c: byte, d: Directive, args: seq<Arg>, v: u64)
    requires IsStandard(c) && v == NumArg(args, d.k)
    ensures var f := IntegerFlags(c, d.f);
            Conversion(c, d, args) == NtoaText(Magnitude(c, f, v), Negative(c, f, v), Base(c), d.prec, d.width, f)
  {
    TextOfInteger(c, d, v);
  }

  /** The sign of a negative number is lost on the right if the precision, or the width
      to be filled with zeros, takes the whole small buffer. */
  predicate SignLost(i: Item, args: seq<Arg>, k: nat)
    requires i.Spec?
  {
    !OnLeft(i, args, k) && (PrecOf(i, args, k) > 31 || (ZeroPadded(i) && WidthOf(i, args, k) > 32))
  }

  /** An integer directive without # prints a text that reads back as its argument, in
      base 16 for x and X, 8 for o, 10 for d, i and u, cut down to the size the length
      letters name and signed for d and i: exactly when it keeps the sign. */
  lemma IntegerReadsExactly(i: Item, args: seq<Arg>, k: nat)
    requires i.Spec? && IsStandard(i.conv) && (Has(i, '#') ==> IsDecimal(i.conv))
    ensures var n := ArgValue(i.conv, i.length, NumArg(args, Operand(i, k)));
            ReadInt(Output(i, args, k), Base(i.conv)) == n <==> !(n < 0 && SignLost(i, args, k))
  {
    var n := ArgValue(i.conv, i.length, NumArg(args, Operand(i, k)));
    var prec, width := PrecOf(i, args, k), WidthOf(i, args, k);
    var f := IntegerPrinted(i, args, k);
    NtoaReads(Abs(n), n < 0, Base(i.conv), prec, width, f);
    DigitsOfWord(Abs(n), Base(i.conv), f);
    LostExactly(|FieldDigits(Abs(n), Base(i.conv), f)|, prec, width, f);
    assert f.left == OnLeft(i, args, k) && f.zeropad == ZeroPadded(i);
  }

  lemma LostExactly(n: nat, prec: nat, width: nat, f: Flags)
    requires n <= 22
    ensures SignShown(n, true, prec, width, f) <==> f.left || (prec <= 31 && (f.zeropad ==> width <= 32))
  {
  }

  /** It is the field of the C standard exactly when its digits fit. */
  lemma IntegerStandardExactly(i: Item, args: seq<Arg>, k: nat)
    requires i.Spec? && IsStandard(i.conv) && (Has(i, '#') ==> IsDecimal(i.conv))
    ensures var n := ArgValue(i.conv, i.length, NumArg(args, Operand(i, k)));
            var base, f := Base(i.conv), FieldFlags(i, args, k);
            var prec, width := PrecOf(i, args, k), WidthOf(i, args, k);
            Output(i, args, k) == Field(Abs(n), n < 0, base, prec, width, f) <==>
            Fits(|FieldDigits(Abs(n), base, f)|, n < 0, prec, width, f)
  {
    var n := ArgValue(i.conv, i.length, NumArg(args, Operand(i, k)));
    var f := IntegerPrinted(i, args, k);
    NtoaIsField(Abs(n), n < 0, Base(i.conv), PrecOf(i, args, k), WidthOf(i, args, k), f);
    SizesDoNotCount(Abs(n), n < 0, Base(i.conv), PrecOf(i, args, k), WidthOf(i, args, k), f, FieldFlags(i, args, k));
  }

  lemma SizesDoNotCount(value: nat, negative: bool, base: nat, prec: nat, width: nat, f: Flags, g: Flags)
    requires 2 <= base <= 16 && WithoutSizes(f) == g
    ensures Field(value, negative, base, prec, width, f) == Field(value, negative, base, prec, width, g)
    ensures var n := |FieldDigits(value, base, f)|;
            n == |FieldDigits(value, base, g)| && Fits(n, negative, prec, width, f) == Fits(n, negative, prec, width, g)
  {
    assert FieldDigits(value, base, f) == FieldDigits(value, base, g);
    SameField(FieldDigits(value, base, f), negative, prec, width, f, g);
  }

  lemma SameField(digits: seq<byte>, negative: bool, prec: nat, width: nat, f: Flags, g: Flags)
    requires WithoutSizes(f) == g
    ensures FieldOf(digits, negative, prec, width, f) == FieldOf(digits, negative, prec, width, g)
    ensures Fits(|digits|, negative, prec, width, f) == Fits(|digits|, negative, prec, width, g)
  {
    assert Sign(negative, f) == Sign(negative, g);
    assert Zeros(|digits|, negative, prec, width, f) == Zeros(|digits|, negative, prec, width, g);
  }
}
