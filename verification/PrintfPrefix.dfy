/**
 Pointers, binary numbers, the # flag and bytes (src/printf.c).
 */
module PrintfPrefix {
  import opened Words
  import opened Chars
  import opened Hex
  import opened PrintfNumbers
  import opened Printf
  import opened PrintfParse
  import opened PrintfFormats
  import opened PrintfItems
  import opened PrintfInts

  // ---------------------------------------------------------------------------
  // Pointers

  lemma PointerConverted(d: Directive, args: seq<Arg>)
    ensures Conversion('p' as int, d, args) ==
            NtoaText(NumArg(args, d.k), false, 16, d.prec, 16, d.f.(zeropad := true, upper := true))
  {
  }

  /** A pointer without # reads back in base 16, whatever else the directive says. */
  lemma PointerReads(i: Item, args: seq<Arg>, k: nat)
    requires i.Spec? && i.conv == 'p' as int && !Has(i, '#')
    ensures ReadInt(Output(i, args, k), 16) == NumArg(args, Operand(i, k))
  {
    var d := Meant(i, 0, args, k);
    PartsMeant(i, args, k);
    OtherFlags(i, args, k);
    PointerConverted(d, args);
    NtoaReads(NumArg(args, Operand(i, k)), false, 16, d.prec, 16, d.f.(zeropad := true, upper := true));
  }

  predicate UpperHex(c: byte) {
    '0' as int <= c <= '9' as int || 'A' as int <= c <= 'F' as int
  }

  lemma {:induction false} UpperOnly(v: nat, room: nat)
    requires room > 0
    ensures forall k :: 0 <= k < |DigitsRev(v, 16, true, room)| ==> UpperHex(DigitsRev(v, 16, true, room)[k])
    decreases room
  {
    assert UpperHex(Digit(Low(v, 16), true));
    if !(High(v, 16) == 0 || room == 1) {
      UpperOnly(High(v, 16), room - 1);
    }
  }

  /** A plain pointer is sixteen digits, in upper case. */
  lemma PlainPointer(i: Item, args: seq<Arg>, k: nat)
    requires i.Spec? && i.conv == 'p' as int && i.flags == [] && !i.width.FromArg? && i.prec.Absent?
    ensures var r := Output(i, args, k);
            && |r| == 16 && (forall j :: 0 <= j < 16 ==> UpperHex(r[j]))
            && ValueOf(r, 16) == NumArg(args, k)
  {
    var d, v := Meant(i, 0, args, k), NumArg(args, k);
    PartsMeant(i, args, k);
    OtherFlags(i, args, k);
    PointerConverted(d, args);
    SixteenDigits(v, d.f.(zeropad := true, upper := true));
  }

  lemma SixteenDigits(v: u64, f: Flags)
    requires f.zeropad && f.upper && !f.left && !f.plus && !f.space && !f.hash && !f.precision
    ensures var r := NtoaText(v, false, 16, 0, 16, f);
            |r| == 16 && (forall j :: 0 <= j < 16 ==> UpperHex(r[j])) && ValueOf(r, 16) == v
  {
    var digits := FieldDigits(v, 16, f);
    FitsRoom(v, 16);
    DigitCount(v, 16, true, ROOM, 16);
    UpperOnly(v, ROOM);
    NtoaIsField(v, false, 16, 0, 16, f);
    FieldReadsBack(v, false, 16, 0, 16, f);
    var padded := Padded(v, false, 16, 0, 16, f);
    var spaces := RightField(v, false, 16, 0, 16, f);
    assert padded == Repeat(ZERO, 16 - |digits|) + digits;
    assert [] + padded == padded;
    assert |Field(v, false, 16, 0, 16, f)| == 16;
    assert Repeat(SPACE, spaces) + padded == padded;
  }

  // ---------------------------------------------------------------------------
  // The # flag

  /** 0x, 0X and 0. */
  function Prefix(c: byte): seq<byte> {
    if c == 'x' as int then Ascii("0x") else if c == 'X' as int then Ascii("0X") else Ascii("0")
  }

  /** The digits with their prefix, least significant first. */
  lemma Prefixed(rev: seq<byte>, c: byte, width: nat, f: Flags)
    requires c == 'x' as int || c == 'X' as int || c == 'o' as int
    requires 1 <= |rev| <= 22 && f.upper == (c == 'X' as int) && !f.precision
    ensures var hashed := HashRev(rev, Base(c), 0, width, f);
            if |rev| == width then |hashed| < |Prefix(c)| + |rev| else Reverse(hashed) == Prefix(c) + Reverse(rev)
  {
    var hashed := HashRev(rev, Base(c), 0, width, f);
    if |rev| != width {
      assert hashed == rev + Reverse(Prefix(c));
      ReverseConcat(rev, Reverse(Prefix(c)));
      assert Reverse(Reverse(Prefix(c))) == Prefix(c);
    }
  }

  lemma HashText(rev: seq<byte>, c: byte, width: nat, f: Flags)
    requires c == 'x' as int || c == 'X' as int || c == 'o' as int
    requires f.hash && !f.precision && !f.plus && !f.space && (f.zeropad ==> f.left)
    ensures Formatted(rev, false, Base(c), 0, width, f) ==
            Aligned(f.left, width, Reverse(HashRev(rev, Base(c), 0, width, f)))
  {
    assert PadTo(rev, 0) == rev;
    var hashed := HashRev(rev, Base(c), 0, width, f);
    assert FormatRev(rev, false, Base(c), 0, width, f) == (hashed, width);
    AlignedOut(hashed, width, f);
  }

  lemma AlignedOut(rev: seq<byte>, width: nat, f: Flags)
    requires f.zeropad ==> f.left
    ensures OutRevText(rev, width, f) == Aligned(f.left, width, Reverse(rev))
  {
    assert [] + Reverse(rev) == Reverse(rev) && Reverse(rev) + [] == Reverse(rev);
  }

  /** What the formatter makes of a nonzero number under #: its digits, least significant
      first, and the flags that count. */
  lemma HashPrinted(i: Item, args: seq<Arg>, k: nat, n: nat) returns (f: Flags, rev: seq<byte>)
    requires i.Spec? && (i.conv == 'x' as int || i.conv == 'X' as int || i.conv == 'o' as int) && Has(i, '#')
    requires n == ArgValue(i.conv, i.length, NumArg(args, Operand(i, k))) != 0
    ensures f.hash && !f.plus && !f.space && f.upper == (i.conv == 'X' as int) && f.precision == !i.prec.Absent?
    ensures f.left == OnLeft(i, args, k) && f.zeropad == ZeroPadded(i)
    ensures 1 <= |rev| <= 22 && AllHex(rev) && rev == DigitsRev(n, Base(i.conv), f.upper, ROOM)
    ensures Reverse(rev) == Digits(n, Base(i.conv), i.conv == 'X' as int) && ValueOf(Reverse(rev), Base(i.conv)) == n
    ensures Output(i, args, k) == Formatted(rev, false, Base(i.conv), PrecOf(i, args, k), WidthOf(i, args, k), f)
  {
    f := IntegerPrinted(i, args, k);
    rev := DigitsRev(n, Base(i.conv), f.upper, ROOM);
    DigitsOfWord(n, Base(i.conv), f);
    HexOnly(n, Base(i.conv), f.upper, ROOM);
    NtoaFormats(n, false, Base(i.conv), PrecOf(i, args, k), WidthOf(i, args, k), f, rev);
  }

  /** With #, without precision and not filled with zeros, a nonzero number has its prefix
      exactly when it has not as many digits as the field is wide. */
  lemma PrefixExactly(i: Item, args: seq<Arg>, k: nat)
    requires i.Spec? && (i.conv == 'x' as int || i.conv == 'X' as int || i.conv == 'o' as int)
    requires Has(i, '#') && i.prec.Absent? && (Has(i, '0') ==> OnLeft(i, args, k))
    requires ArgValue(i.conv, i.length, NumArg(args, Operand(i, k))) != 0
    ensures var n := ArgValue(i.conv, i.length, NumArg(args, Operand(i, k)));
            var width, digits := WidthOf(i, args, k), Digits(n, Base(i.conv), i.conv == 'X' as int);
            && ValueOf(digits, Base(i.conv)) == n
            && (Output(i, args, k) == Aligned(OnLeft(i, args, k), width, Prefix(i.conv) + digits) <==>
                |digits| != width)
  {
    var n := ArgValue(i.conv, i.length, NumArg(args, Operand(i, k)));
    var width := WidthOf(i, args, k);
    var f, rev := HashPrinted(i, args, k, n);
    HashText(rev, i.conv, width, f);
    Prefixed(rev, i.conv, width, f);
    var hashed := HashRev(rev, Base(i.conv), 0, width, f);
    Shorter(f.left, width, Reverse(hashed), Prefix(i.conv) + Reverse(rev));
  }

  lemma Shorter(left: bool, width: nat, a: seq<byte>, b: seq<byte>)
    ensures |a| < |b| && width < |b| ==> Aligned(left, width, a) != Aligned(left, width, b)
  {
  }

  /** The prefix, zeros to fill the field, and the digits. */
  function FilledField(c: byte, width: nat, digits: seq<byte>): seq<byte> {
    Prefix(c) + (Repeat(ZERO, width - |Prefix(c)| - |digits|) + digits)
  }

  /** The prefix and the digits, with zeros up to the precision. */
  function PreciseField(c: byte, prec: nat, digits: seq<byte>): seq<byte> {
    Prefix(c) + (Repeat(ZERO, prec - |digits|) + digits)
  }

  lemma FilledText(rev: seq<byte>, c: byte, width: nat, f: Flags)
    requires c == 'x' as int || c == 'X' as int || c == 'o' as int
    requires f.hash && f.zeropad && !f.left && !f.precision && !f.plus && !f.space
    ensures Formatted(rev, false, Base(c), 0, width, f) ==
            Reverse(HashRev(PadTo(rev, width), Base(c), 0, width, f))
  {
    assert PadTo(rev, 0) == rev;
    var hashed := HashRev(PadTo(rev, width), Base(c), 0, width, f);
    assert FormatRev(rev, false, Base(c), 0, width, f) == (hashed, width);
    assert [] + Reverse(hashed) + [] == Reverse(hashed);
  }

  /** Filled with zeros from the left: the prefix, zeros and the digits. */
  lemma FilledExactly(rev: seq<byte>, digits: seq<byte>, c: byte, width: nat, f: Flags)
    requires (c == 'x' as int || c == 'X' as int || c == 'o' as int) && digits == Reverse(rev)
    requires 1 <= |rev| <= 22 && f.upper == (c == 'X' as int) && !f.precision
    ensures Reverse(HashRev(PadTo(rev, width), Base(c), 0, width, f)) == FilledField(c, width, digits) <==>
            (|digits| > width || |digits| + |Prefix(c)| <= width <= 32)
  {
    if |rev| > width || |rev| + |Prefix(c)| <= width <= 32 {
      var zeros := Repeat(ZERO, width - |Prefix(c)| - |rev|);
      FilledHash(rev, c, width, f);
      ReverseConcat(rev + zeros, Reverse(Prefix(c)));
      ReverseConcat(rev, zeros);
      assert Reverse(Reverse(Prefix(c))) == Prefix(c) && Reverse(zeros) == zeros;
    } else {
      FilledShort(rev, c, width, f);
    }
  }

  lemma FilledShort(rev: seq<byte>, c: byte, width: nat, f: Flags)
    requires c == 'x' as int || c == 'X' as int || c == 'o' as int
    requires 1 <= |rev| <= 22 && f.upper == (c == 'X' as int) && !f.precision
    requires |rev| <= width && (width < |rev| + |Prefix(c)| || 32 < width)
    ensures |HashRev(PadTo(rev, width), Base(c), 0, width, f)| < Max(width, |rev| + |Prefix(c)|)
  {
    var padded := PadTo(rev, width);
    assert |padded| == if width < 32 then width else 32;
  }

  lemma FilledHash(rev: seq<byte>, c: byte, width: nat, f: Flags)
    requires c == 'x' as int || c == 'X' as int || c == 'o' as int
    requires 1 <= |rev| <= 22 && f.upper == (c == 'X' as int) && !f.precision
    requires |rev| > width || |rev| + |Prefix(c)| <= width <= 32
    ensures HashRev(PadTo(rev, width), Base(c), 0, width, f) ==
            (rev + Repeat(ZERO, width - |Prefix(c)| - |rev|)) + Reverse(Prefix(c))
  {
    var padded := PadTo(rev, width);
    var zeros := Repeat(ZERO, width - |Prefix(c)| - |rev|);
    if |rev| > width {
      assert padded == rev && rev + zeros == rev;
    } else {
      assert |padded| == width && padded[..width - |Prefix(c)|] == rev + zeros;
    }
  }

  /** With # and the zero flag, a nonzero number has its prefix before the zeros exactly
      when it has more digits than the field is wide, or digits and prefix fit a field of
      at most 32. */
  lemma FilledPrefixExactly(i: Item, args: seq<Arg>, k: nat)
    requires i.Spec? && (i.conv == 'x' as int || i.conv == 'X' as int || i.conv == 'o' as int)
    requires Has(i, '#') && Has(i, '0') && i.prec.Absent? && !OnLeft(i, args, k)
    requires ArgValue(i.conv, i.length, NumArg(args, Operand(i, k))) != 0
    ensures var n := ArgValue(i.conv, i.length, NumArg(args, Operand(i, k)));
            var width, digits := WidthOf(i, args, k), Digits(n, Base(i.conv), i.conv == 'X' as int);
            && ValueOf(digits, Base(i.conv)) == n
            && (Output(i, args, k) == FilledField(i.conv, width, digits) <==>
                |digits| > width || |digits| + |Prefix(i.conv)| <= width <= 32)
  {
    var n := ArgValue(i.conv, i.length, NumArg(args, Operand(i, k)));
    var f, rev := HashPrinted(i, args, k, n);
    FilledText(rev, i.conv, WidthOf(i, args, k), f);
    FilledExactly(rev, Digits(n, Base(i.conv), i.conv == 'X' as int), i.conv, WidthOf(i, args, k), f);
  }

  /** With a precision: prefix, zeros up to the precision, digits. */
  lemma PreciseHash(rev: seq<byte>, c: byte, prec: nat, width: nat, f: Flags)
    requires c == 'x' as int || c == 'X' as int
    requires 1 <= |rev| <= 22 && f.upper == (c == 'X' as int) && f.precision && prec + 2 <= 32
    ensures Reverse(HashRev(PadTo(rev, prec), 16, prec, width, f)) ==
            Prefix(c) + (Repeat(ZERO, prec - |rev|) + Reverse(rev))
  {
    var zeros := Repeat(ZERO, prec - |rev|);
    assert HashRev(PadTo(rev, prec), 16, prec, width, f) == (rev + zeros) + Reverse(Prefix(c));
    ReverseConcat(rev + zeros, Reverse(Prefix(c)));
    ReverseConcat(rev, zeros);
    assert Reverse(Reverse(Prefix(c))) == Prefix(c) && Reverse(zeros) == zeros;
  }

  lemma PreciseText(rev: seq<byte>, prec: nat, width: nat, f: Flags)
    requires f.hash && f.precision && !f.zeropad && !f.plus && !f.space
    ensures var padded := if f.left then rev else PadTo(rev, prec);
            Formatted(rev, false, 16, prec, width, f) ==
            Aligned(f.left, width, Reverse(HashRev(padded, 16, prec, width, f)))
  {
    var padded := if f.left then rev else PadTo(rev, prec);
    AlignedOut(HashRev(padded, 16, prec, width, f), width, f);
  }

  lemma PreciseExactly(rev: seq<byte>, digits: seq<byte>, c: byte, prec: nat, width: nat, f: Flags)
    requires (c == 'x' as int || c == 'X' as int) && digits == Reverse(rev)
    requires 1 <= |rev| <= 22 && AllHex(rev) && f.upper == (c == 'X' as int) && f.precision
    ensures var padded := if f.left then rev else PadTo(rev, prec);
            Aligned(f.left, width, Reverse(HashRev(padded, 16, prec, width, f))) ==
              Aligned(f.left, width, PreciseField(c, prec, digits)) <==>
            if f.left then prec <= |digits| else prec <= 30
  {
    var padded := if f.left then rev else PadTo(rev, prec);
    var hashed := HashRev(padded, 16, prec, width, f);
    if prec <= 30 && (f.left ==> prec <= |rev|) {
      assert padded == PadTo(rev, prec);
      PreciseHash(rev, c, prec, width, f);
    } else {
      assert |hashed| <= 32 && (f.left ==> |hashed| == |rev| + 2);
      NoSpace(Prefix(c), Repeat(ZERO, prec - |rev|), Reverse(rev));
      Differ(f.left, width, Reverse(hashed), Prefix(c) + (Repeat(ZERO, prec - |rev|) + Reverse(rev)));
    }
  }

  predicate Spaceless(s: seq<byte>) {
    forall k :: 0 <= k < |s| ==> s[k] != SPACE
  }

  lemma NoSpace(a: seq<byte>, b: seq<byte>, c: seq<byte>)
    requires Spaceless(a) && Spaceless(b) && Spaceless(c)
    ensures Spaceless(a + (b + c))
  {
  }

  lemma Differ(left: bool, width: nat, a: seq<byte>, b: seq<byte>)
    requires |a| < |b| && Spaceless(b)
    ensures Aligned(left, width, a) != Aligned(left, width, b)
  {
    if width >= |b| {
      var at := if left then |a| else width - |b|;
      assert Aligned(left, width, a)[at] == SPACE;
      assert Aligned(left, width, b)[at] == b[if left then at else 0];
    }
  }

  /** With # and a precision, a nonzero number has its prefix and as many digits as the
      precision asks for exactly when, on the left, it has them anyway, or, on the right,
      the precision is at most 30. */
  lemma PrecisePrefixExactly(i: Item, args: seq<Arg>, k: nat)
    requires i.Spec? && (i.conv == 'x' as int || i.conv == 'X' as int) && Has(i, '#') && !i.prec.Absent?
    requires ArgValue(i.conv, i.length, NumArg(args, Operand(i, k))) != 0
    ensures var n := ArgValue(i.conv, i.length, NumArg(args, Operand(i, k)));
            var left, width, prec := OnLeft(i, args, k), WidthOf(i, args, k), PrecOf(i, args, k);
            var digits := Digits(n, 16, i.conv == 'X' as int);
            && ValueOf(digits, 16) == n
            && (Output(i, args, k) == Aligned(left, width, PreciseField(i.conv, prec, digits)) <==>
                if left then prec <= |digits| else prec <= 30)
  {
    var n := ArgValue(i.conv, i.length, NumArg(args, Operand(i, k)));
    var f, rev := HashPrinted(i, args, k, n);
    PreciseText(rev, PrecOf(i, args, k), WidthOf(i, args, k), f);
    PreciseExactly(rev, Digits(n, 16, i.conv == 'X' as int), i.conv, PrecOf(i, args, k), WidthOf(i, args, k), f);
  }

  /** Four digits in a field of four: %#4x of 0x1234 prints 0x34. */
  lemma DigitsCutOff(i: Item, args: seq<Arg>, k: nat)
    requires i.Spec? && i.conv == 'x' as int && i.flags == ['#' as int] && i.length.NoLength?
    requires i.width == Given(4) && i.prec.Absent? && NumArg(args, k) == 0x1234
    ensures Output(i, args, k) == Ascii("0x34")
  {
    var f := IntegerPrinted(i, args, k);
    OnlyHash(i, args, k, f);
    FourArgument(i, args, k);
    FourCut(f);
  }

  lemma OnlyHash(i: Item, args: seq<Arg>, k: nat, f: Flags)
    requires i.Spec? && i.conv == 'x' as int && i.flags == ['#' as int] && i.width.Given? && i.prec.Absent?
    requires WithoutSizes(f) == FieldFlags(i, args, k)
    ensures f.hash && !f.upper && !f.precision && !f.zeropad && !f.plus && !f.space && !f.left
  {
    assert forall c :: c in i.flags <==> c == 35;
  }

  lemma FourArgument(i: Item, args: seq<Arg>, k: nat)
    requires i.Spec? && i.conv == 'x' as int && i.length.NoLength? && i.width == Given(4) && i.prec.Absent?
    requires NumArg(args, k) == 0x1234
    ensures ArgValue(i.conv, i.length, NumArg(args, Operand(i, k))) == 0x1234
    ensures WidthOf(i, args, k) == 4 && PrecOf(i, args, k) == 0
  {
  }

  lemma FourCut(f: Flags)
    requires f.hash && !f.upper && !f.precision && !f.zeropad && !f.plus && !f.space && !f.left
    ensures NtoaText(0x1234, false, 16, 0, 4, f) == Ascii("0x34")
  {
    var rev := [52, 51, 50, 49];
    FourDigits();
    NtoaFormats(0x1234, false, 16, 0, 4, f, rev);
    HashText(rev, 'x' as int, 4, f);
    FourHashed(rev, f);
    assert Repeat(SPACE, 0) + Ascii("0x34") == Ascii("0x34");
  }

  lemma FourHashed(rev: seq<byte>, f: Flags)
    requires rev == [52, 51, 50, 49] && !f.upper && !f.precision
    ensures Reverse(HashRev(rev, 16, 0, 4, f)) == Ascii("0x34")
  {
    assert rev[..2] == [52, 51];
    assert HashRev(rev, 16, 0, 4, f) == [52, 51, 120, 48];
  }

  lemma FourDigits()
    ensures DigitsRev(0x1234, 16, false, ROOM) == [52, 51, 50, 49]
  {
    LowHigh(0x1234, 16);
    LowHigh(0x123, 16);
    LowHigh(0x12, 16);
    LowHigh(1, 16);
    assert DigitsRev(1, 16, false, ROOM - 3) == [49];
    assert DigitsRev(0x12, 16, false, ROOM - 2) == [50] + [49];
    assert DigitsRev(0x123, 16, false, ROOM - 1) == [51] + [50, 49];
    assert DigitsRev(0x1234, 16, false, ROOM) == [52] + [51, 50, 49];
  }

  // ---------------------------------------------------------------------------
  // Binary numbers

  lemma {:induction false} BinaryBound(v: nat, room: nat)
    requires room > 0
    ensures var rev := DigitsRev(v, 2, false, room); ValueOf(Reverse(rev), 2) < Pow(2, |rev|)
    decreases room
  {
    var d := Digit(Low(v, 2), false);
    if High(v, 2) == 0 || room == 1 {
      ReverseStep(d, [], 2);
      assert [d] + [] == [d] && Reverse([]) == [];
    } else {
      BinaryBound(High(v, 2), room - 1);
      ReverseStep(d, DigitsRev(High(v, 2), 2, false, room - 1), 2);
    }
  }

  lemma {:induction false} PowGrows(n: nat, m: nat)
    requires n <= m
    ensures Pow(2, n) <= Pow(2, m)
  {
    if n < m {
      PowGrows(n, m - 1);
    }
  }

  lemma TwoTo32()
    ensures Pow(2, 32) == 0x1_0000_0000
  {
    assert Pow(2, 4) == 16;
    PowAdd(2, 4, 4);
    PowAdd(2, 8, 8);
    PowAdd(2, 16, 16);
  }

  lemma BinaryDigits(v: nat)
    ensures ValueOf(Reverse(DigitsRev(v, 2, false, ROOM)), 2) == v <==> v < 0x1_0000_0000
  {
    TwoTo32();
    if v < 0x1_0000_0000 {
      DigitsReadBack(v, 2, false, ROOM);
    } else {
      BinaryBound(v, ROOM);
      PowGrows(|DigitsRev(v, 2, false, ROOM)|, ROOM);
    }
  }

  lemma PlainBinary(v: nat, f: Flags)
    requires !f.zeropad && !f.left && !f.plus && !f.space && !f.hash && !f.precision && !f.upper
    ensures NtoaText(v, false, 2, 0, 0, f) == Repeat(SPACE, 0) + ([] + Reverse(DigitsRev(v, 2, false, ROOM)))
  {
    var rev := DigitsRev(v, 2, false, ROOM);
    assert PadTo(rev, 0) == rev;
    assert f.(hash := false) == f;
    assert OutRevText(rev, 0, f) == Reverse(rev);
  }

  /** A plain %b, whatever its length letters, reads back in base 2 exactly when the
      number has at most 32 bits. */
  lemma BinaryReadsExactly(i: Item, args: seq<Arg>, k: nat)
    requires i.Spec? && i.conv == 'b' as int && i.flags == [] && i.width.Absent? && i.prec.Absent?
    ensures var n := NumArg(args, k) % Size(i.length);
            ReadInt(Output(i, args, k), 2) == n <==> n < 0x1_0000_0000
  {
    var d, v := Meant(i, 0, args, k), NumArg(args, k);
    PartsMeant(i, args, k);
    OtherFlags(i, args, k);
    SizeFlags(i, args, k);
    BinaryConverted(d, args, i.length);
    var n := v % Size(i.length);
    var f := d.f.(plus := false, space := false);
    PlainBinary(n, f);
    HexOnly(n, 2, false, ROOM);
    RightRead(0, [], Reverse(DigitsRev(n, 2, false, ROOM)), 2);
    BinaryDigits(n);
  }

  lemma BinaryConverted(d: Directive, args: seq<Arg>, l: Length)
    requires SizedAs(d.f, l) && !d.f.precision && !d.f.upper
    ensures Conversion('b' as int, d, args) ==
            NtoaText(NumArg(args, d.k) % Size(l), false, 2, d.prec, d.width, d.f.(plus := false, space := false))
  {
    var v := NumArg(args, d.k);
    var f := IntegerFlags(98, d.f);
    assert f == d.f.(plus := false, space := false);
    CutMeant(f, l, v);
  }

  // ---------------------------------------------------------------------------
  // Bytes in hexadecimal

  lemma ByteDigits(b: byte)
    ensures Digits(b, 16, false) == if b < 16 then [IntToHexchar(b)] else ByteText(b)
  {
    LowHigh(b, 16);
    if b < 16 {
      assert DigitsRev(b, 16, false, ROOM) == [Digit(b, false)] + [];
    } else {
      LowHigh(b / 16, 16);
      assert DigitsRev(b / 16, 16, false, ROOM - 1) == [Digit(b / 16, false)] + [];
      assert DigitsRev(b, 16, false, ROOM) == [Digit(b % 16, false)] + [Digit(b / 16, false)];
    }
  }

  lemma TwoPlaces(b: byte, f: Flags)
    requires f.zeropad && !f.left && !f.plus && !f.space && !f.precision && !f.upper
    ensures Field(b, false, 16, 0, 2, f) == ByteText(b) && Fits(|FieldDigits(b, 16, f)|, false, 0, 2, f)
  {
    ByteDigits(b);
    var digits := FieldDigits(b, 16, f);
    var zeros := Repeat(ZERO, 2 - |digits|);
    assert zeros + digits == ByteText(b);
    assert Repeat(SPACE, 0) + ([] + ByteText(b)) == ByteText(b);
  }

  /** The directive %02x. */
  predicate IsByteFormat(i: Item) {
    && i.Spec? && i.flags == ['0' as int] && i.width == Given(2) && i.prec.Absent? && i.length.NoLength?
    && i.conv == 'x' as int
  }

  lemma ByteFlags(i: Item, args: seq<Arg>)
    requires IsByteFormat(i)
    ensures var f := FieldFlags(i, args, 0);
            f.zeropad && !f.left && !f.plus && !f.space && !f.precision && !f.upper && !Has(i, '#')
  {
    assert forall c :: c in i.flags <==> c == 48;
  }

  lemma ByteArgument(i: Item, args: seq<Arg>, b: byte)
    requires IsByteFormat(i) && NumArg(args, 0) == b
    ensures ArgValue(i.conv, i.length, NumArg(args, Operand(i, 0))) == b && Base(i.conv) == 16
    ensures WidthOf(i, args, 0) == 2 && PrecOf(i, args, 0) == 0 && IsStandard(i.conv)
  {
  }

  lemma ByteOutput(i: Item, b: byte, args: seq<Arg>)
    requires IsByteFormat(i) && NumArg(args, 0) == b
    ensures Output(i, args, 0) == ByteText(b)
  {
    ByteFlags(i, args);
    ByteArgument(i, args, b);
    IntegerStandardExactly(i, args, 0);
    TwoPlaces(b, FieldFlags(i, args, 0));
  }

  lemma ByteFormatText(i: Item)
    requires IsByteFormat(i)
    ensures ItemFormat(i) == Ascii("%02x") && WellFormed(i)
  {
    assert NumberText(2) == [50];
    assert Ascii("diuxXobcsp%")[3] == i.conv;
  }

  lemma OneItem(i: Item, args: seq<Arg>)
    ensures FormatText([i]) == ItemFormat(i) && Outputs([i], args, 0) == Output(i, args, 0)
  {
    assert [i][1..] == [];
    assert FormatText([i]) == ItemFormat(i) + [];
    OutputsNext([i], args, 0);
    assert Outputs([i], args, 0) == Output(i, args, 0) + [];
  }

  /** The format %02x prints the two digits mem2hex writes for a byte. */
  lemma HexByte(b: byte, args: seq<Arg>)
    requires NumArg(args, 0) == b
    ensures var fmt := Ascii("%02x") + [NUL]; Terminated(fmt) && Render(fmt, args) == ByteText(b)
  {
    var i := Spec(['0' as int], Given(2), Absent, NoLength, 'x' as int);
    ByteFormatText(i);
    OneItem(i, args);
    FormatPrinted([i], args);
    ByteOutput(i, b, args);
  }
}
