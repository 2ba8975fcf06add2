/**
 Reading formats (src/printf.c): a format written out from its parts is read back as
 exactly these parts, whatever flags, widths, precisions and length letters they have.
 */
module PrintfParse {
  import opened Words
  import opened Chars
  import opened PrintfNumbers
  import opened Printf

  // ---------------------------------------------------------------------------
  // Formats by their parts

  /** h, hh, l, ll, j, z and t. */
  datatype Length = NoLength | H | HH | L | LL | J | Z | T

  /** A width or precision: none, a number, or the next argument. A precision may also be a
      dot alone, which stands for zero. */
  datatype Amount = Absent | Bare | Given(n: nat) | FromArg

  datatype Item =
    | Char(c: byte)
    | Spec(flags: seq<byte>, width: Amount, prec: Amount, length: Length, conv: byte)

  predicate IsFlag(c: byte) {
    c == '0' as int || c == '-' as int || c == '+' as int || c == ' ' as int || c == '#' as int
  }

  predicate IsConversion(c: byte) {
    c in Ascii("diuxXobcsp%")
  }

  /** A number in decimal. */
  function NumberText(n: nat): (r: seq<byte>)
    ensures r != []
  {
    if n < 10 then ['0' as int + n] else NumberText(n / 10) + ['0' as int + n % 10]
  }

  function AmountText(a: Amount): seq<byte> {
    match a
    case Absent => []
    case Bare => []
    case Given(n) => NumberText(n)
    case FromArg => ['*' as int]
  }

  function PrecisionText(a: Amount): seq<byte> {
    if a.Absent? then [] else ['.' as int] + AmountText(a)
  }

  function LengthText(l: Length): seq<byte> {
    match l
    case NoLength => []
    case H => ['h' as int]
    case HH => ['h' as int, 'h' as int]
    case L => ['l' as int]
    case LL => ['l' as int, 'l' as int]
    case J => ['j' as int]
    case Z => ['z' as int]
    case T => ['t' as int]
  }

  /** A directive behind its percent sign. */
  function SpecText(i: Item): seq<byte>
    requires i.Spec?
  {
    i.flags + (AmountText(i.width) + (PrecisionText(i.prec) + (LengthText(i.length) + [i.conv])))
  }

  function ItemFormat(i: Item): seq<byte> {
    if i.Char? then [i.c] else ['%' as int] + SpecText(i)
  }

  predicate WellFormed(i: Item) {
    match i
    case Char(c) => c != '%' as int && c != NUL
    case Spec(flags, width, prec, _, conv) =>
      (forall k :: 0 <= k < |flags| ==> IsFlag(flags[k])) && Sized(width, prec) && IsConversion(conv)
  }

  predicate Sized(width: Amount, prec: Amount) {
    && !width.Bare? && (width.Given? ==> 0 < width.n < 0x1_0000_0000)
    && (prec.Given? ==> prec.n < 0x1_0000_0000)
  }

  // ---------------------------------------------------------------------------
  // What the parts say

  function WithFlags(f: Flags, flags: seq<byte>): Flags {
    f.(zeropad := f.zeropad || '0' as int in flags,
       left := f.left || '-' as int in flags,
       plus := f.plus || '+' as int in flags,
       space := f.space || ' ' as int in flags,
       hash := f.hash || '#' as int in flags)
  }

  function AfterWidth(d: Directive, a: Amount, args: seq<Arg>): Directive {
    match a
    case Absent => d
    case Bare => d
    case Given(n) => d.(width := n)
    case FromArg =>
      var w := Signed32(NumArg(args, d.k));
      d.(f := d.f.(left := d.f.left || w < 0), width := if w < 0 then -w else w, k := d.k + 1)
  }

  function AfterPrecision(d: Directive, a: Amount, args: seq<Arg>): Directive {
    match a
    case Absent => d
    case Bare => d.(f := d.f.(precision := true))
    case Given(n) => d.(f := d.f.(precision := true), prec := n)
    case FromArg =>
      d.(f := d.f.(precision := true), prec := Max(Signed32(NumArg(args, d.k)), 0), k := d.k + 1)
  }

  function AfterLength(d: Directive, l: Length): Directive {
    d.(f := d.f.(longSize := d.f.longSize || l == L || l == LL || l == J || l == Z || l == T,
                 shortSize := d.f.shortSize || l == H || l == HH,
                 charSize := d.f.charSize || l == HH))
  }

  function AfterFlags(i: Item, d: Directive, args: seq<Arg>): Directive
    requires i.Spec?
  {
    AfterLength(AfterPrecision(AfterWidth(d, i.width, args), i.prec, args), i.length)
  }

  /** The directive of an item that stands `size` characters behind `pos`. */
  function Meant(i: Item, pos: nat, args: seq<Arg>, k: nat): Directive
    requires i.Spec?
  {
    AfterFlags(i, Directive(WithFlags(NO_FLAGS, i.flags), 0, 0, pos, k), args)
  }

  // ---------------------------------------------------------------------------
  // Reading the parts back

  /** The text behind a place in the format. */
  ghost predicate StandsAt(fmt: seq<byte>, pos: nat, text: seq<byte>) {
    pos < |fmt| && fmt[pos..] == text
  }

  lemma HeadAt(fmt: seq<byte>, pos: nat, text: seq<byte>)
    requires StandsAt(fmt, pos, text)
    ensures text != [] && fmt[pos] == text[0]
    ensures |text| > 1 ==> StandsAt(fmt, pos + 1, text[1..])
  {
    if |text| > 1 {
      assert fmt[pos + 1..] == fmt[pos..][1..];
    }
  }

  lemma {:induction false} FlagsRead(fmt: seq<byte>, pos: nat, f: Flags, flags: seq<byte>, rest: seq<byte>)
    requires Terminated(fmt) && StandsAt(fmt, pos, flags + rest) && rest != [] && !IsFlag(rest[0])
    requires forall k :: 0 <= k < |flags| ==> IsFlag(flags[k])
    ensures StandsAt(fmt, pos + |flags|, rest)
    ensures FlagsAt(fmt, pos, f) == (WithFlags(f, flags), pos + |flags|)
    decreases |flags|
  {
    HeadAt(fmt, pos, flags + rest);
    if flags == [] {
      assert flags + rest == rest;
      NoFlag(fmt, pos, f);
    } else {
      var c := flags[0];
      OnAfter(fmt, pos, flags, rest);
      OneFlag(fmt, pos, f, c);
      FlagsRead(fmt, pos + 1, WithFlags(f, [c]), flags[1..], rest);
      FlagsSplit(f, flags);
    }
  }

  lemma NoFlag(fmt: seq<byte>, pos: nat, f: Flags)
    requires Terminated(fmt) && pos < |fmt| && !IsFlag(fmt[pos])
    ensures FlagsAt(fmt, pos, f) == (f, pos) && WithFlags(f, []) == f
  {
  }

  /** One character on. */
  lemma OnAfter(fmt: seq<byte>, pos: nat, text: seq<byte>, rest: seq<byte>)
    requires StandsAt(fmt, pos, text + rest) && text != [] && rest != []
    ensures fmt[pos] == text[0] && StandsAt(fmt, pos + 1, text[1..] + rest)
  {
    HeadAt(fmt, pos, text + rest);
    assert (text + rest)[1..] == text[1..] + rest;
  }

  lemma OneFlag(fmt: seq<byte>, pos: nat, f: Flags, c: byte)
    requires Terminated(fmt) && pos + 1 < |fmt| && fmt[pos] == c && IsFlag(c)
    ensures FlagsAt(fmt, pos, f) == FlagsAt(fmt, pos + 1, WithFlags(f, [c]))
  {
    assert forall x :: x in [c] <==> x == c;
  }

  lemma FlagsSplit(f: Flags, flags: seq<byte>)
    requires flags != []
    ensures WithFlags(WithFlags(f, [flags[0]]), flags[1..]) == WithFlags(f, flags)
  {
    assert flags == [flags[0]] + flags[1..];
  }

  lemma {:induction false} NumberRead(fmt: seq<byte>, pos: nat, n: nat, digits: seq<byte>, rest: seq<byte>)
    requires Terminated(fmt) && StandsAt(fmt, pos, digits + rest) && rest != [] && !IsDigit(rest[0])
    requires forall k :: 0 <= k < |digits| ==> IsDigit(digits[k])
    requires Decimal(n, digits) < 0x1_0000_0000
    ensures StandsAt(fmt, pos + |digits|, rest)
    ensures NumberAt(fmt, pos, n) == (Decimal(n, digits), pos + |digits|)
    decreases |digits|
  {
    if digits == [] {
      assert digits + rest == rest;
      HeadAt(fmt, pos, rest);
    } else {
      OnAfter(fmt, pos, digits, rest);
      var next := 10 * n + (digits[0] - ZERO);
      DecimalGrows(next, digits[1..]);
      OneDigit(fmt, pos, n, next);
      NumberRead(fmt, pos + 1, next, digits[1..], rest);
    }
  }

  lemma OneDigit(fmt: seq<byte>, pos: nat, n: nat, next: nat)
    requires Terminated(fmt) && pos + 1 < |fmt| && IsDigit(fmt[pos])
    requires next == 10 * n + (fmt[pos] - ZERO) < 0x1_0000_0000
    ensures NumberAt(fmt, pos, n) == NumberAt(fmt, pos + 1, next)
  {
  }

  /** Reading on from a number. */
  function Decimal(n: nat, digits: seq<byte>): nat
    requires forall k :: 0 <= k < |digits| ==> IsDigit(digits[k])
    decreases |digits|
  {
    if digits == [] then n else
    assert IsDigit(digits[0]);
    Decimal(10 * n + (digits[0] - ZERO), digits[1..])
  }

  lemma {:induction false} DecimalGrows(n: nat, digits: seq<byte>)
    requires forall k :: 0 <= k < |digits| ==> IsDigit(digits[k])
    ensures n <= Decimal(n, digits)
    decreases |digits|
  {
    if digits != [] {
      assert IsDigit(digits[0]);
      DecimalGrows(10 * n + (digits[0] - ZERO), digits[1..]);
    }
  }

  lemma {:induction false} DecimalNext(n: nat, digits: seq<byte>, c: byte)
    requires (forall k :: 0 <= k < |digits| ==> IsDigit(digits[k])) && IsDigit(c)
    ensures Decimal(n, digits + [c]) == 10 * Decimal(n, digits) + (c - ZERO)
    decreases |digits|
  {
    if digits == [] {
      assert [] + [c] == [c] && [c][1..] == [];
    } else {
      assert (digits + [c])[1..] == digits[1..] + [c];
      DecimalNext(10 * n + (digits[0] - ZERO), digits[1..], c);
    }
  }

  /** Numbers as widths and precisions are written. */
  lemma {:induction false} NumberDigits(n: nat)
    ensures var digits := NumberText(n);
            && (forall k :: 0 <= k < |digits| ==> IsDigit(digits[k]))
            && Decimal(0, digits) == n && (n > 0 ==> digits[0] != ZERO)
  {
    if n >= 10 {
      NumberDigits(n / 10);
      DecimalNext(0, NumberText(n / 10), ZERO + n % 10);
    } else {
      assert [ZERO + n][1..] == [];
    }
  }

  // ---------------------------------------------------------------------------
  // Directives

  /** A number written out, where it stands. */
  lemma NumberStands(fmt: seq<byte>, pos: nat, n: nat, digits: seq<byte>, rest: seq<byte>)
    requires Terminated(fmt) && StandsAt(fmt, pos, digits + rest) && rest != [] && !IsDigit(rest[0])
    requires digits != [] && (forall k :: 0 <= k < |digits| ==> IsDigit(digits[k]))
    requires Decimal(0, digits) == n < 0x1_0000_0000
    ensures StandsAt(fmt, pos + |digits|, rest) && IsDigit(fmt[pos])
    ensures NumberAt(fmt, pos, 0) == (n, pos + |digits|)
  {
    HeadAt(fmt, pos, digits + rest);
    NumberRead(fmt, pos, 0, digits, rest);
  }

  lemma GivenStands(fmt: seq<byte>, pos: nat, n: nat, digits: seq<byte>, next: nat, rest: seq<byte>)
    requires Terminated(fmt) && StandsAt(fmt, pos, digits + rest) && rest != [] && !IsDigit(rest[0])
    requires digits == NumberText(n) && n < 0x1_0000_0000 && next == pos + |digits|
    ensures StandsAt(fmt, next, rest) && IsDigit(fmt[pos]) && NumberAt(fmt, pos, 0) == (n, next)
  {
    NumberDigits(n);
    NumberStands(fmt, pos, n, digits, rest);
  }

  lemma AmountStands(fmt: seq<byte>, pos: nat, a: Amount, next: nat, rest: seq<byte>)
    requires Terminated(fmt) && StandsAt(fmt, pos, AmountText(a) + rest) && rest != []
    requires next == pos + |AmountText(a)|
    requires !IsDigit(rest[0]) && (a.Given? ==> a.n < 0x1_0000_0000)
    ensures StandsAt(fmt, next, rest)
    ensures a.Absent? || a.Bare? ==> fmt[pos] == rest[0]
    ensures a.Given? ==> IsDigit(fmt[pos]) && NumberAt(fmt, pos, 0) == (a.n, next)
    ensures a.FromArg? ==> fmt[pos] == STAR
  {
    match a
    case Absent =>
      assert [] + rest == rest;
      HeadAt(fmt, pos, rest);
    case Bare =>
      assert [] + rest == rest;
      HeadAt(fmt, pos, rest);
    case Given(n) =>
      GivenStands(fmt, pos, n, AmountText(a), next, rest);
    case FromArg =>
      assert AmountText(a) == [STAR];
      CharStands(fmt, pos, STAR, rest);
  }

  lemma CharStands(fmt: seq<byte>, pos: nat, c: byte, rest: seq<byte>)
    requires StandsAt(fmt, pos, [c] + rest) && rest != []
    ensures fmt[pos] == c && StandsAt(fmt, pos + 1, rest)
  {
    OnAfter(fmt, pos, [c], rest);
    assert [c][1..] + rest == rest;
  }

  lemma WidthRead(fmt: seq<byte>, d: Directive, a: Amount, rest: seq<byte>, args: seq<Arg>)
    requires Terminated(fmt) && StandsAt(fmt, d.pos, AmountText(a) + rest)
    requires rest != [] && !IsDigit(rest[0]) && rest[0] != STAR
    requires a.Given? ==> a.n < 0x1_0000_0000
    ensures StandsAt(fmt, d.pos + |AmountText(a)|, rest)
    ensures WithWidth(d, fmt, args) == AfterWidth(d, a, args).(pos := d.pos + |AmountText(a)|)
  {
    AmountStands(fmt, d.pos, a, d.pos + |AmountText(a)|, rest);
  }

  lemma PrecisionRead(fmt: seq<byte>, d: Directive, a: Amount, rest: seq<byte>, args: seq<Arg>)
    requires Terminated(fmt) && StandsAt(fmt, d.pos, PrecisionText(a) + rest)
    requires rest != [] && !IsDigit(rest[0]) && rest[0] != STAR && rest[0] != DOT
    requires (a.Given? ==> a.n < 0x1_0000_0000) && d.prec == 0
    ensures StandsAt(fmt, d.pos + |PrecisionText(a)|, rest)
    ensures WithPrecision(d, fmt, args) == AfterPrecision(d, a, args).(pos := d.pos + |PrecisionText(a)|)
  {
    if a.Absent? {
      assert [] + rest == rest;
      HeadAt(fmt, d.pos, rest);
    } else {
      DotStands(fmt, d.pos, a, rest);
    }
  }

  lemma DotStands(fmt: seq<byte>, pos: nat, a: Amount, rest: seq<byte>)
    requires Terminated(fmt) && StandsAt(fmt, pos, PrecisionText(a) + rest) && rest != [] && !a.Absent?
    requires !IsDigit(rest[0]) && (a.Given? ==> a.n < 0x1_0000_0000)
    ensures pos + 1 < |fmt| && fmt[pos] == DOT && |PrecisionText(a)| == 1 + |AmountText(a)|
    ensures a.Bare? ==> fmt[pos + 1] == rest[0]
    ensures StandsAt(fmt, pos + |PrecisionText(a)|, rest)
    ensures a.Given? ==> IsDigit(fmt[pos + 1]) && NumberAt(fmt, pos + 1, 0) == (a.n, pos + |PrecisionText(a)|)
    ensures a.FromArg? ==> fmt[pos + 1] == STAR
  {
    Associate([DOT], AmountText(a), rest);
    CharStands(fmt, pos, DOT, AmountText(a) + rest);
    AmountStands(fmt, pos + 1, a, pos + |PrecisionText(a)|, rest);
  }

  predicate IsLength(c: byte) {
    c == 'h' as int || c == 'l' as int || c == 'j' as int || c == 'z' as int || c == 't' as int
  }

  lemma LengthRead(fmt: seq<byte>, d: Directive, l: Length, rest: seq<byte>)
    requires Terminated(fmt) && StandsAt(fmt, d.pos, LengthText(l) + rest) && rest != [] && !IsLength(rest[0])
    ensures StandsAt(fmt, d.pos + |LengthText(l)|, rest)
    ensures WithLength(d, fmt) == AfterLength(d, l).(pos := d.pos + |LengthText(l)|)
  {
    if l.NoLength? {
      assert [] + rest == rest;
      HeadAt(fmt, d.pos, rest);
    } else if l.HH? || l.LL? {
      TwoLetters(fmt, d, l, LengthText(l)[0], rest);
    } else {
      OneLetter(fmt, d, l, LengthText(l)[0], rest);
    }
  }

  lemma TwoLetters(fmt: seq<byte>, d: Directive, l: Length, c: byte, rest: seq<byte>)
    requires Terminated(fmt) && StandsAt(fmt, d.pos, LengthText(l) + rest) && rest != []
    requires (l.HH? && c == 'h' as int) || (l.LL? && c == 'l' as int)
    ensures StandsAt(fmt, d.pos + 2, rest) && WithLength(d, fmt) == AfterLength(d, l).(pos := d.pos + 2)
  {
    assert [c] + [c] == LengthText(l);
    TwoStand(fmt, d.pos, c, rest);
  }

  lemma OneLetter(fmt: seq<byte>, d: Directive, l: Length, c: byte, rest: seq<byte>)
    requires Terminated(fmt) && StandsAt(fmt, d.pos, LengthText(l) + rest) && rest != [] && !IsLength(rest[0])
    requires !l.NoLength? && !l.HH? && !l.LL? && c == LengthText(l)[0]
    ensures StandsAt(fmt, d.pos + 1, rest) && WithLength(d, fmt) == AfterLength(d, l).(pos := d.pos + 1)
  {
    assert [c] == LengthText(l);
    CharStands(fmt, d.pos, c, rest);
    HeadAt(fmt, d.pos + 1, rest);
  }

  lemma TwoStand(fmt: seq<byte>, pos: nat, c: byte, rest: seq<byte>)
    requires StandsAt(fmt, pos, ([c] + [c]) + rest) && rest != []
    ensures pos + 1 < |fmt| && fmt[pos] == fmt[pos + 1] == c && StandsAt(fmt, pos + 2, rest)
  {
    Associate([c], [c], rest);
    CharStands(fmt, pos, c, [c] + rest);
    CharStands(fmt, pos + 1, c, rest);
  }

  // ---------------------------------------------------------------------------
  // Whole directives

  /** Neither flag nor digit, star nor dot. */
  predicate Letter(c: byte) {
    c == 37 || c >= 88
  }

  lemma ConversionLetter(c: byte)
    requires IsConversion(c)
    ensures Letter(c) && !IsLength(c) && c != NUL
  {
    var a := Ascii("diuxXobcsp%");
    assert forall k :: 0 <= k < |a| ==> Letter(a[k]) && !IsLength(a[k]);
  }

  /** What stands behind a precision. */
  lemma LengthHead(l: Length, rest: seq<byte>)
    requires rest != [] && Letter(rest[0])
    ensures var t := LengthText(l) + rest; t != [] && Letter(t[0])
  {
  }

  /** What stands behind a width. */
  lemma PrecisionHead(a: Amount, rest: seq<byte>)
    requires rest != [] && Letter(rest[0])
    ensures var t := PrecisionText(a) + rest; t != [] && (Letter(t[0]) || t[0] == DOT)
  {
  }

  /** What stands behind the flags. */
  lemma WidthHead(a: Amount, rest: seq<byte>)
    requires rest != [] && (Letter(rest[0]) || rest[0] == DOT) && (a.Given? ==> 0 < a.n)
    ensures var t := AmountText(a) + rest; t != [] && !IsFlag(t[0])
  {
    if a.Given? {
      NumberDigits(a.n);
      assert AmountText(a) != [] && IsDigit(AmountText(a)[0]);
    }
  }

  /** The parts of a directive and what follows it. */
  lemma Parts(i: Item, rest: seq<byte>)
    requires i.Spec?
    ensures SpecText(i) + rest == i.flags + WidthTail(i, rest)
  {
    var l := LengthText(i.length);
    var p, w := PrecisionText(i.prec), AmountText(i.width);
    Associate(i.flags, w + (p + (l + [i.conv])), rest);
    Associate(w, p + (l + [i.conv]), rest);
    Associate(p, l + [i.conv], rest);
    Associate(l, [i.conv], rest);
  }

  /** A directive is read back as what it says, up to its specifier. */
  lemma SpecRead(fmt: seq<byte>, pos: nat, i: Item, rest: seq<byte>, args: seq<Arg>, k: nat)
    returns (d: Directive, next: nat)
    requires i.Spec? && WellFormed(i)
    requires Terminated(fmt) && StandsAt(fmt, pos, SpecText(i) + rest) && rest != []
    ensures d == DirectiveAt(fmt, pos, args, k) == Meant(i, d.pos, args, k)
    ensures fmt[d.pos] == i.conv && next == d.pos + 1 && StandsAt(fmt, next, rest)
  {
    Parts(i, rest);
    WidthTailHead(i, rest);
    FlagsRead(fmt, pos, NO_FLAGS, i.flags, WidthTail(i, rest));
    d, next := BehindFlags(fmt, pos, i, WithFlags(NO_FLAGS, i.flags), rest, args, k);
    PlaceParts(i, Directive(WithFlags(NO_FLAGS, i.flags), 0, 0, pos + |i.flags|, k), args, d.pos);
  }

  lemma BehindFlags(fmt: seq<byte>, pos: nat, i: Item, f: Flags, rest: seq<byte>, args: seq<Arg>, k: nat)
    returns (d: Directive, next: nat)
    requires i.Spec? && Sized(i.width, i.prec) && IsConversion(i.conv)
    requires Terminated(fmt) && pos < |fmt| && rest != []
    requires FlagsAt(fmt, pos, NO_FLAGS) == (f, pos + |i.flags|) && StandsAt(fmt, pos + |i.flags|, WidthTail(i, rest))
    ensures d == DirectiveAt(fmt, pos, args, k)
    ensures d == AfterFlags(i, Directive(f, 0, 0, pos + |i.flags|, k), args).(pos := d.pos)
    ensures fmt[d.pos] == i.conv && next == d.pos + 1 && StandsAt(fmt, next, rest)
  {
    LengthTailHead(i, rest);
    PrecisionTailHead(i, rest);
    d, next := PartsRead(fmt, Directive(f, 0, 0, pos + |i.flags|, k), i, rest, args);
  }

  function LengthTail(i: Item, rest: seq<byte>): seq<byte>
    requires i.Spec?
  {
    LengthText(i.length) + ([i.conv] + rest)
  }

  function PrecisionTail(i: Item, rest: seq<byte>): seq<byte>
    requires i.Spec?
  {
    PrecisionText(i.prec) + LengthTail(i, rest)
  }

  function WidthTail(i: Item, rest: seq<byte>): seq<byte>
    requires i.Spec?
  {
    AmountText(i.width) + PrecisionTail(i, rest)
  }

  lemma LengthTailHead(i: Item, rest: seq<byte>)
    requires i.Spec? && IsConversion(i.conv)
    ensures var t := LengthTail(i, rest); t != [] && Letter(t[0])
  {
    ConversionLetter(i.conv);
    LengthHead(i.length, [i.conv] + rest);
  }

  lemma PrecisionTailHead(i: Item, rest: seq<byte>)
    requires i.Spec? && IsConversion(i.conv)
    ensures var t := PrecisionTail(i, rest); t != [] && (Letter(t[0]) || t[0] == DOT)
  {
    LengthTailHead(i, rest);
    PrecisionHead(i.prec, LengthTail(i, rest));
  }

  lemma WidthTailHead(i: Item, rest: seq<byte>)
    requires i.Spec? && IsConversion(i.conv) && Sized(i.width, i.prec)
    ensures var t := WidthTail(i, rest); t != [] && !IsFlag(t[0])
  {
    PrecisionTailHead(i, rest);
    WidthHead(i.width, PrecisionTail(i, rest));
  }

  /** The parts behind the flags, and the place behind the specifier. */
  lemma PartsRead(fmt: seq<byte>, d: Directive, i: Item, rest: seq<byte>, args: seq<Arg>)
    returns (r: Directive, next: nat)
    requires i.Spec? && Sized(i.width, i.prec) && Terminated(fmt) && rest != [] && d.prec == 0
    requires IsConversion(i.conv) && StandsAt(fmt, d.pos, WidthTail(i, rest))
    requires LengthTail(i, rest) != [] && Letter(LengthTail(i, rest)[0])
    requires var t := PrecisionTail(i, rest); t != [] && (Letter(t[0]) || t[0] == DOT)
    ensures r == WithLength(WithPrecision(WithWidth(d, fmt, args), fmt, args), fmt)
    ensures r == AfterFlags(i, d, args).(pos := r.pos)
    ensures fmt[r.pos] == i.conv && next == r.pos + 1 && StandsAt(fmt, next, rest)
  {
    var e := AfterWidth(d, i.width, args);
    var d1 := WidthTailRead(fmt, d, i, rest, args, e);
    r, next := PrecisionTailRead(fmt, d1, i, rest, args);
    PlaceTail(i, e, args, d1.pos);
  }

  lemma WidthTailRead(fmt: seq<byte>, d: Directive, i: Item, rest: seq<byte>, args: seq<Arg>, e: Directive)
    returns (r: Directive)
    requires i.Spec? && Sized(i.width, i.prec) && Terminated(fmt) && d.prec == 0
    requires StandsAt(fmt, d.pos, WidthTail(i, rest)) && e == AfterWidth(d, i.width, args)
    requires var t := PrecisionTail(i, rest); t != [] && (Letter(t[0]) || t[0] == DOT)
    ensures r == WithWidth(d, fmt, args) == e.(pos := r.pos)
    ensures r.prec == 0 && StandsAt(fmt, r.pos, PrecisionTail(i, rest))
  {
    WidthRead(fmt, d, i.width, PrecisionTail(i, rest), args);
    r := WithWidth(d, fmt, args);
  }

  lemma PrecisionTailRead(fmt: seq<byte>, d: Directive, i: Item, rest: seq<byte>, args: seq<Arg>)
    returns (r: Directive, next: nat)
    requires i.Spec? && Sized(i.width, i.prec) && Terminated(fmt) && rest != [] && d.prec == 0
    requires IsConversion(i.conv) && StandsAt(fmt, d.pos, PrecisionTail(i, rest))
    requires LengthTail(i, rest) != [] && Letter(LengthTail(i, rest)[0])
    ensures r == WithLength(WithPrecision(d, fmt, args), fmt)
    ensures r == AfterLength(AfterPrecision(d, i.prec, args), i.length).(pos := r.pos)
    ensures fmt[r.pos] == i.conv && next == r.pos + 1 && StandsAt(fmt, next, rest)
  {
    PrecisionRead(fmt, d, i.prec, LengthTail(i, rest), args);
    var e := WithPrecision(d, fmt, args);
    r, next := LengthTailRead(fmt, e, i, rest);
    PlaceLength(AfterPrecision(d, i.prec, args), i.length, e.pos);
  }

  lemma LengthTailRead(fmt: seq<byte>, d: Directive, i: Item, rest: seq<byte>) returns (r: Directive, next: nat)
    requires i.Spec? && IsConversion(i.conv) && Terminated(fmt) && rest != []
    requires StandsAt(fmt, d.pos, LengthTail(i, rest))
    ensures r == WithLength(d, fmt) && r == AfterLength(d, i.length).(pos := r.pos)
    ensures fmt[r.pos] == i.conv && next == r.pos + 1 && StandsAt(fmt, next, rest)
  {
    ConversionLetter(i.conv);
    LengthRead(fmt, d, i.length, [i.conv] + rest);
    r := WithLength(d, fmt);
    CharStands(fmt, r.pos, i.conv, rest);
    next := r.pos + 1;
  }

  lemma PlacePrecision(d: Directive, a: Amount, args: seq<Arg>, pos: nat)
    ensures AfterPrecision(d.(pos := pos), a, args) == AfterPrecision(d, a, args).(pos := pos)
  {
  }

  lemma PlaceLength(d: Directive, l: Length, pos: nat)
    ensures AfterLength(d.(pos := pos), l) == AfterLength(d, l).(pos := pos)
  {
  }

  lemma PlaceParts(i: Item, d: Directive, args: seq<Arg>, pos: nat)
    requires i.Spec?
    ensures AfterFlags(i, d.(pos := pos), args) == AfterFlags(i, d, args).(pos := pos)
  {
    PlaceWidth(d, i.width, args, pos);
    PlaceTail(i, AfterWidth(d, i.width, args), args, pos);
  }

  lemma PlaceTail(i: Item, d: Directive, args: seq<Arg>, pos: nat)
    requires i.Spec?
    ensures AfterLength(AfterPrecision(d.(pos := pos), i.prec, args), i.length) ==
            AfterLength(AfterPrecision(d, i.prec, args), i.length).(pos := pos)
  {
    PlacePrecision(d, i.prec, args, pos);
    PlaceLength(AfterPrecision(d, i.prec, args), i.length, pos);
  }

  lemma PlaceWidth(d: Directive, a: Amount, args: seq<Arg>, pos: nat)
    ensures AfterWidth(d.(pos := pos), a, args) == AfterWidth(d, a, args).(pos := pos)
  {
  }
}
