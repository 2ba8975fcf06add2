/**
 What each directive prints (src/printf.c), with specifiers, bases and sizes written out:
 numbers read back as the argument, strings and characters stand where they should.
 */
module PrintfItems {
  import opened Words
  import opened Chars
  import opened Hex
  import opened PrintfNumbers
  import opened Printf
  import opened PrintfParse
  import opened PrintfFormats

  // ---------------------------------------------------------------------------
  // The parts of a directive

  /** The number behind a star, or the one written. */
  function WidthOf(i: Item, args: seq<Arg>, k: nat): nat
    requires i.Spec?
  {
    match i.width
    case Absent => 0
    case Bare => 0
    case Given(n) => n
    case FromArg => var w := Signed32(NumArg(args, k)); if w < 0 then -w else w
  }

  /** A negative width asks for the left as well. */
  predicate OnLeft(i: Item, args: seq<Arg>, k: nat)
    requires i.Spec?
  {
    '-' as int in i.flags || (i.width.FromArg? && Signed32(NumArg(args, k)) < 0)
  }

  function PrecOf(i: Item, args: seq<Arg>, k: nat): nat
    requires i.Spec?
  {
    match i.prec
    case Absent => 0
    case Bare => 0
    case Given(n) => n
    case FromArg => Max(Signed32(NumArg(args, if i.width.FromArg? then k + 1 else k)), 0)
  }

  /** The argument that is printed. */
  function Operand(i: Item, k: nat): nat
    requires i.Spec?
  {
    k + Stars(i)
  }

  lemma PartsMeant(i: Item, args: seq<Arg>, k: nat)
    requires i.Spec?
    ensures var d := Meant(i, 0, args, k);
            && d.width == WidthOf(i, args, k) && d.prec == PrecOf(i, args, k) && d.k == Operand(i, k)
            && d.f.left == OnLeft(i, args, k) && d.f.precision == !i.prec.Absent? && !d.f.upper
  {
    var f := WithFlags(NO_FLAGS, i.flags);
    assert f.left == ('-' as int in i.flags);
    var d := Directive(f, 0, 0, 0, k);
    WidthMeant(d, i.width, args);
    PrecisionMeant(AfterWidth(d, i.width, args), i.prec, args);
    LengthMeant(AfterPrecision(AfterWidth(d, i.width, args), i.prec, args), i.length);
  }

  lemma WidthMeant(d: Directive, a: Amount, args: seq<Arg>)
    requires d.width == 0
    ensures var r := AfterWidth(d, a, args);
            var w := Signed32(NumArg(args, d.k));
            && r.width == (if a.Given? then a.n else if a.FromArg? then (if w < 0 then -w else w) else 0)
            && r.k == (if a.FromArg? then d.k + 1 else d.k) && r.prec == d.prec
            && r.f == d.f.(left := d.f.left || (a.FromArg? && w < 0))
  {
    match a
    case Absent =>
    case Bare =>
    case Given(_) =>
    case FromArg =>
  }

  lemma PrecisionMeant(d: Directive, a: Amount, args: seq<Arg>)
    requires d.prec == 0
    ensures var r := AfterPrecision(d, a, args);
            && r.prec == (if a.Given? then a.n else if a.FromArg? then Max(Signed32(NumArg(args, d.k)), 0) else 0)
            && r.k == (if a.FromArg? then d.k + 1 else d.k) && r.width == d.width
            && r.f == d.f.(precision := d.f.precision || !a.Absent?)
  {
    match a
    case Absent =>
    case Bare =>
    case Given(_) =>
    case FromArg =>
  }

  lemma LengthMeant(d: Directive, l: Length)
    ensures var r := AfterLength(d, l);
            && r.prec == d.prec && r.k == d.k && r.width == d.width
            && r.f.left == d.f.left && r.f.precision == d.f.precision && r.f.upper == d.f.upper
  {
  }

  lemma OtherFlags(i: Item, args: seq<Arg>, k: nat)
    requires i.Spec?
    ensures var f := Meant(i, 0, args, k).f;
            && f.zeropad == ('0' as int in i.flags) && f.plus == ('+' as int in i.flags)
            && f.space == (' ' as int in i.flags) && f.hash == ('#' as int in i.flags)
  {
    var f := WithFlags(NO_FLAGS, i.flags);
    KeptFlags(i, Directive(f, 0, 0, 0, k), args);
  }

  lemma KeptFlags(i: Item, d: Directive, args: seq<Arg>)
    requires i.Spec? && d.width == 0 && d.prec == 0
    ensures var f := AfterFlags(i, d, args).f;
            f.zeropad == d.f.zeropad && f.plus == d.f.plus && f.space == d.f.space && f.hash == d.f.hash
  {
    var e := AfterWidth(d, i.width, args);
    WidthMeant(d, i.width, args);
    PrecisionMeant(e, i.prec, args);
    KeptByLength(AfterPrecision(e, i.prec, args), i.length);
  }

  lemma KeptByLength(d: Directive, l: Length)
    ensures var f := AfterLength(d, l).f;
            f == d.f.(charSize := f.charSize, shortSize := f.shortSize, longSize := f.longSize)
  {
  }

  lemma SizeFlags(i: Item, args: seq<Arg>, k: nat)
    requires i.Spec?
    ensures var f := Meant(i, 0, args, k).f;
            && f.charSize == i.length.HH? && f.shortSize == (i.length.H? || i.length.HH?)
            && f.longSize == (i.length.L? || i.length.LL? || i.length.J? || i.length.Z? || i.length.T?)
  {
    var d := Directive(WithFlags(NO_FLAGS, i.flags), 0, 0, 0, k);
    NoSize(i, d, args);
    Sizes(AfterPrecision(AfterWidth(d, i.width, args), i.prec, args), i.length);
  }

  lemma NoSize(i: Item, d: Directive, args: seq<Arg>)
    requires i.Spec? && d.width == 0 && d.prec == 0 && !d.f.charSize && !d.f.shortSize && !d.f.longSize
    ensures var f := AfterPrecision(AfterWidth(d, i.width, args), i.prec, args).f;
            !f.charSize && !f.shortSize && !f.longSize
  {
    WidthMeant(d, i.width, args);
    PrecisionMeant(AfterWidth(d, i.width, args), i.prec, args);
  }

  lemma Sizes(d: Directive, l: Length)
    requires !d.f.charSize && !d.f.shortSize && !d.f.longSize
    ensures var f := AfterLength(d, l).f;
            && f.charSize == l.HH? && f.shortSize == (l.H? || l.HH?)
            && f.longSize == (l.L? || l.LL? || l.J? || l.Z? || l.T?)
  {
  }

  // ---------------------------------------------------------------------------
  // Percent signs, characters and strings

  /** A text in a field of some width. */
  function Aligned(left: bool, width: nat, text: seq<byte>): (r: seq<byte>) {
    var spaces := Repeat(' ' as int, width - |text|);
    if left then text + spaces else spaces + text
  }

  lemma PercentPrinted(i: Item, args: seq<Arg>, k: nat)
    requires i.Spec? && i.conv == '%' as int
    ensures Output(i, args, k) == ['%' as int]
  {
    PercentConverted(Meant(i, 0, args, k), args);
  }

  lemma PercentConverted(d: Directive, args: seq<Arg>)
    ensures Conversion(37, d, args) == [37]
  {
  }

  lemma CharacterPrinted(i: Item, args: seq<Arg>, k: nat)
    requires i.Spec? && i.conv == 'c' as int
    ensures var v := NumArg(args, Operand(i, k));
            Output(i, args, k) == Aligned(OnLeft(i, args, k), WidthOf(i, args, k), [v % 256])
  {
    PartsMeant(i, args, k);
    CharAligned(Meant(i, 0, args, k), NumArg(args, Operand(i, k)));
  }

  lemma CharAligned(d: Directive, v: nat)
    ensures CharText(d, v) == Aligned(d.f.left, d.width, [v % 256])
  {
  }

  /** A string, or as much of it as its precision allows. */
  lemma StringPrinted(i: Item, args: seq<Arg>, k: nat)
    requires i.Spec? && i.conv == 's' as int
    ensures var chars, prec := StrArg(args, Operand(i, k)), PrecOf(i, args, k);
            var shown := if i.prec.Absent? || |chars| <= prec then chars else chars[..prec];
            Output(i, args, k) == Aligned(OnLeft(i, args, k), WidthOf(i, args, k), shown)
  {
    PartsMeant(i, args, k);
    StringAligned(Meant(i, 0, args, k), StrArg(args, Operand(i, k)));
  }

  lemma StringAligned(d: Directive, chars: seq<byte>)
    ensures var shown := if !d.f.precision || |chars| <= d.prec then chars else chars[..d.prec];
            StringText(d, chars) == Aligned(d.f.left, d.width, shown)
  {
  }

  // ---------------------------------------------------------------------------
  // Reading a number back, as strtol does

  function SkipSpaces(s: seq<byte>): seq<byte> {
    if s != [] && s[0] == ' ' as int then SkipSpaces(s[1..]) else s
  }

  function ReadDigits(s: seq<byte>, base: nat): int {
    ValueOf(s[..HexRun(s)], base)
  }

  function ReadSigned(s: seq<byte>, base: nat): int {
    if s != [] && s[0] == '-' as int then -ReadDigits(s[1..], base)
    else if s != [] && s[0] == '+' as int then ReadDigits(s[1..], base)
    else ReadDigits(s, base)
  }

  function ReadInt(s: seq<byte>, base: nat): int {
    ReadSigned(SkipSpaces(s), base)
  }

  predicate AllHex(s: seq<byte>) {
    forall k :: 0 <= k < |s| ==> IsHex(s[k])
  }

  lemma {:induction false} Skipped(n: int, s: seq<byte>)
    ensures SkipSpaces(Repeat(SPACE, n) + s) == SkipSpaces(s)
    decreases Max(n, 0)
  {
    var all := Repeat(SPACE, n) + s;
    if n > 0 {
      assert all[0] == SPACE && all[1..] == Repeat(SPACE, n - 1) + s;
      Skipped(n - 1, s);
    } else {
      assert all == s;
    }
  }

  lemma DigitsRead(digits: seq<byte>, n: int, base: nat)
    requires AllHex(digits)
    ensures ReadDigits(digits + Repeat(SPACE, n), base) == ValueOf(digits, base)
  {
    var s := digits + Repeat(SPACE, n);
    RunOf(s, |digits|);
    assert s[..|digits|] == digits;
  }

  lemma RunOf(s: seq<byte>, n: nat)
    requires n <= |s| && (forall k :: 0 <= k < n ==> IsHex(s[k])) && (n < |s| ==> !IsHex(s[n]))
    ensures HexRun(s) == n
  {
  }

  /** Spaces, a sign, digits and spaces. */
  lemma FieldRead(before: int, sign: seq<byte>, digits: seq<byte>, after: int, base: nat)
    requires AllHex(digits) && (sign == [] || sign == [MINUS] || sign == [PLUS] || sign == [SPACE])
    ensures var v: int := ValueOf(digits, base);
            ReadInt(Repeat(SPACE, before) + (sign + (digits + Repeat(SPACE, after))), base) ==
            if sign == [MINUS] then -v else v
  {
    var tail := digits + Repeat(SPACE, after);
    Skipped(before, sign + tail);
    DigitsRead(digits, after, base);
    if sign == [MINUS] || sign == [PLUS] {
      assert (sign + tail)[0] == sign[0] && (sign + tail)[1..] == tail;
    } else if sign == [SPACE] {
      assert (sign + tail)[0] == SPACE && (sign + tail)[1..] == tail;
      UnsignedRead(digits, after, base);
    } else {
      assert sign + tail == tail;
      UnsignedRead(digits, after, base);
    }
  }

  lemma UnsignedRead(digits: seq<byte>, n: int, base: nat)
    requires AllHex(digits)
    ensures ReadSigned(SkipSpaces(digits + Repeat(SPACE, n)), base) == ValueOf(digits, base)
  {
    var s := digits + Repeat(SPACE, n);
    if digits == [] {
      assert s == Repeat(SPACE, n) + [];
      Skipped(n, []);
      assert SkipSpaces([]) == [];
    } else {
      assert s[0] == digits[0] && IsHex(s[0]);
      DigitsRead(digits, n, base);
    }
  }
}
