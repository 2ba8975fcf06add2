/**
 _vsnprintf of src/printf.c with the integer, character, string and pointer
 conversions: every character goes through a sink that drops what does not fit.
 */
module Printf {
  import opened Words
  import opened Chars
  import opened PrintfNumbers

  const PERCENT: byte := 37
  const STAR: byte := 42
  const NINE: byte := 57

  /** An argument: the 64 bits of a number or pointer, or the characters of a string
      before its NUL. */
  datatype Arg = Num(bits: u64) | Str(chars: seq<byte>)

  type u64 = x: nat | x < 0x1_0000_0000_0000_0000

  function NumArg(args: seq<Arg>, k: nat): u64 {
    if k < |args| && args[k].Num? then args[k].bits else 0
  }

  function StrArg(args: seq<Arg>, k: nat): seq<byte> {
    if k < |args| && args[k].Str? then args[k].chars else []
  }

  predicate IsDigit(c: byte) {
    ZERO <= c <= NINE
  }

  /** A NUL-terminated format. */
  predicate Terminated(fmt: seq<byte>) {
    fmt != [] && fmt[|fmt| - 1] == NUL && forall k :: 0 <= k < |fmt| - 1 ==> fmt[k] != NUL
  }

  // ---------------------------------------------------------------------------
  // Directives

  function FlagsAt(fmt: seq<byte>, pos: nat, f: Flags): (r: (Flags, nat))
    requires Terminated(fmt) && pos < |fmt|
    ensures pos <= r.1 < |fmt|
    decreases |fmt| - pos
  {
    var c := fmt[pos];
    if c == ZERO then FlagsAt(fmt, pos + 1, f.(zeropad := true))
    else if c == MINUS then FlagsAt(fmt, pos + 1, f.(left := true))
    else if c == PLUS then FlagsAt(fmt, pos + 1, f.(plus := true))
    else if c == SPACE then FlagsAt(fmt, pos + 1, f.(space := true))
    else if c == HASH then FlagsAt(fmt, pos + 1, f.(hash := true))
    else (f, pos)
  }

  /** Decimal digits from `pos` on, in 32-bit arithmetic. */
  function NumberAt(fmt: seq<byte>, pos: nat, n: nat): (r: (nat, nat))
    requires Terminated(fmt) && pos < |fmt|
    ensures pos <= r.1 < |fmt|
    decreases |fmt| - pos
  {
    if IsDigit(fmt[pos]) then NumberAt(fmt, pos + 1, (n * 10 + (fmt[pos] - ZERO)) % 0x1_0000_0000) else (n, pos)
  }

  /** The low 32 bits as a signed number. */
  function Signed32(v: nat): (r: int)
    ensures -0x8000_0000 <= r < 0x8000_0000
  {
    var w := v % 0x1_0000_0000;
    if w >= 0x8000_0000 then w - 0x1_0000_0000 else w
  }

  lemma Signed32Congruent(v: nat)
    ensures (v - Signed32(v)) % 0x1_0000_0000 == 0
  {
  }

  datatype Directive = Directive(f: Flags, width: nat, prec: nat, pos: nat, k: nat)

  function WithWidth(d: Directive, fmt: seq<byte>, args: seq<Arg>): (r: Directive)
    requires Terminated(fmt) && d.pos < |fmt|
    ensures d.pos <= r.pos < |fmt|
    ensures r.f.precision == d.f.precision && r.prec == d.prec
  {
    if IsDigit(fmt[d.pos]) then
      var (n, p) := NumberAt(fmt, d.pos, 0);
      d.(width := n, pos := p)
    else if fmt[d.pos] == STAR then
      var w := Signed32(NumArg(args, d.k));
      if w < 0 then d.(f := d.f.(left := true), width := -w, pos := d.pos + 1, k := d.k + 1)
      else d.(width := w, pos := d.pos + 1, k := d.k + 1)
    else d
  }

  function WithPrecision(d: Directive, fmt: seq<byte>, args: seq<Arg>): (r: Directive)
    requires Terminated(fmt) && d.pos < |fmt|
    ensures d.pos <= r.pos < |fmt|
    ensures r.f.precision || r.prec == d.prec
  {
    if fmt[d.pos] != DOT then d else
    var e := d.(f := d.f.(precision := true), pos := d.pos + 1);
    if IsDigit(fmt[e.pos]) then
      var (n, p) := NumberAt(fmt, e.pos, 0);
      e.(prec := n, pos := p)
    else if fmt[e.pos] == STAR then
      var p := Signed32(NumArg(args, e.k));
      e.(prec := if p > 0 then p else 0, pos := e.pos + 1, k := e.k + 1)
    else e
  }

  /** l, ll, h, hh, t, j and z; a long has 64 bits. */
  function WithLength(d: Directive, fmt: seq<byte>): (r: Directive)
    requires Terminated(fmt) && d.pos < |fmt|
    ensures d.pos <= r.pos < |fmt|
    ensures r.f.precision == d.f.precision && r.prec == d.prec
  {
    var c := fmt[d.pos];
    if c == 108 then
      var e := d.(f := d.f.(longSize := true), pos := d.pos + 1);
      if fmt[e.pos] == 108 then e.(pos := e.pos + 1) else e
    else if c == 104 then
      var e := d.(f := d.f.(shortSize := true), pos := d.pos + 1);
      if fmt[e.pos] == 104 then e.(f := e.f.(charSize := true), pos := e.pos + 1) else e
    else if c == 116 || c == 106 || c == 122 then d.(f := d.f.(longSize := true), pos := d.pos + 1)
    else d
  }

  /** The directive after a percent sign at `pos` - 1, up to its specifier. */
  function DirectiveAt(fmt: seq<byte>, pos: nat, args: seq<Arg>, k: nat): (r: Directive)
    requires Terminated(fmt) && pos < |fmt|
    ensures pos <= r.pos < |fmt|
    ensures r.f.precision || r.prec == 0
  {
    var (f, p) := FlagsAt(fmt, pos, NO_FLAGS);
    WithLength(WithPrecision(WithWidth(Directive(f, 0, 0, p, k), fmt, args), fmt, args), fmt)
  }

  // ---------------------------------------------------------------------------
  // Conversions

  // d i u x X o b
  predicate IsInteger(c: byte) {
    c == 100 || c == 105 || c == 117 || c == 120 || c == 88 || c == 111 || c == 98
  }

  // f F e E g G
  predicate IsFloat(c: byte) {
    c == 102 || c == 70 || c == 101 || c == 69 || c == 103 || c == 71
  }

  function BaseOf(c: byte): (r: nat)
    ensures 2 <= r <= 16
  {
    if c == 120 || c == 88 then 16 else if c == 111 then 8 else if c == 98 then 2 else 10
  }

  function IntegerFlags(c: byte, f: Flags): Flags {
    var g := if BaseOf(c) == 10 then f.(hash := false) else f;
    var h := if c == 88 then g.(upper := true) else g;
    var i := if c != 105 && c != 100 then h.(plus := false, space := false) else h;
    if i.precision then i.(zeropad := false) else i
  }

  /** An argument cut down to its size. */
  function Cut(f: Flags, v: nat): nat {
    if f.longSize then v % 0x1_0000_0000_0000_0000
    else if f.charSize then v % 0x100
    else if f.shortSize then v % 0x1_0000
    else v % 0x1_0000_0000
  }

  /** Half the number of values of that size. */
  function Half(f: Flags): nat {
    if f.longSize then 0x8000_0000_0000_0000
    else if f.charSize then 0x80
    else if f.shortSize then 0x8000
    else 0x8000_0000
  }

  /** Sign and magnitude of an argument; a plain char is unsigned on this target. */
  function Negative(c: byte, f: Flags, v: nat): bool {
    (c == 105 || c == 100) && (f.longSize || !f.charSize) && Cut(f, v) >= Half(f)
  }

  function Magnitude(c: byte, f: Flags, v: nat): nat {
    if Negative(c, f, v) then 2 * Half(f) - Cut(f, v) else Cut(f, v)
  }

  function IntegerText(c: byte, d: Directive, v: nat): seq<byte> {
    var f := IntegerFlags(c, d.f);
    NtoaText(Magnitude(c, f, v), Negative(c, f, v), BaseOf(c), d.prec, d.width, f)
  }

  /** An integer conversion in octal, decimal or hexadecimal without # prints the field the
      C standard asks for exactly when its digits fit as PrintfNumbers.Fits says. */
  lemma IntegerIsField(c: byte, d: Directive, v: u64)
    requires IsInteger(c) && BaseOf(c) != 2 && !d.f.hash
    ensures var f := IntegerFlags(c, d.f);
            var negative, magnitude := Negative(c, f, v), Magnitude(c, f, v);
            IntegerText(c, d, v) == Field(magnitude, negative, BaseOf(c), d.prec, d.width, f) <==>
            Fits(|FieldDigits(magnitude, BaseOf(c), f)|, negative, d.prec, d.width, f)
  {
    var f := IntegerFlags(c, d.f);
    MagnitudeIsArgument(c, f, v);
    NtoaIsField(Magnitude(c, f, v), Negative(c, f, v), BaseOf(c), d.prec, d.width, f);
    TextOfInteger(c, d, v);
  }

  lemma TextOfInteger(c: byte, d: Directive, v: u64)
    ensures var f := IntegerFlags(c, d.f);
            IntegerText(c, d, v) == NtoaText(Magnitude(c, f, v), Negative(c, f, v), BaseOf(c), d.prec, d.width, f)
  {
  }

  /** The zeros and digits of that field read back as the magnitude, and with its sign that
      is the argument, cut down to the size the directive names. */
  lemma IntegerReadsBack(c: byte, d: Directive, v: u64)
    requires IsInteger(c) && BaseOf(c) != 2 && !d.f.hash
    ensures var f := IntegerFlags(c, d.f);
            var negative, magnitude := Negative(c, f, v), Magnitude(c, f, v);
            && ValueOf(Padded(magnitude, negative, BaseOf(c), d.prec, d.width, f), BaseOf(c)) == magnitude
            && (if negative then 2 * Half(f) - magnitude else magnitude) == Cut(f, v) < 2 * Half(f)
            && (c != 100 && c != 105 ==> !negative)
  {
    var f := IntegerFlags(c, d.f);
    MagnitudeIsArgument(c, f, v);
    FieldReadsBack(Magnitude(c, f, v), Negative(c, f, v), BaseOf(c), d.prec, d.width, f);
  }

  /** %-.5d of 7, of whatever size, prints no zeros. */
  lemma LeftPrecisionLost(d: Directive, f: Flags)
    requires d.f.left && d.f.precision && !d.f.plus && !d.f.space && !d.f.hash && d.width == 0 && d.prec == 5
    requires f == IntegerFlags(100, d.f)
    ensures IntegerText(100, d, 7) == [55] && Field(7, false, 10, 5, 0, f) == [ZERO, ZERO, ZERO, ZERO, 55]
  {
    TextOfInteger(100, d, 7);
    SevenIsSeven(f);
    LeftSeven(f);
  }

  lemma SevenIsSeven(f: Flags)
    ensures Magnitude(100, f, 7) == 7 && !Negative(100, f, 7) && BaseOf(100) == 10
  {
  }

  lemma MagnitudeIsArgument(c: byte, f: Flags, v: u64)
    ensures Magnitude(c, f, v) < 0x1_0000_0000_0000_0000
    ensures (if Negative(c, f, v) then 2 * Half(f) - Magnitude(c, f, v) else Magnitude(c, f, v)) ==
            Cut(f, v) < 2 * Half(f)
  {
  }

  function CharText(d: Directive, v: nat): seq<byte> {
    var pad := Repeat(SPACE, d.width - 1);
    (if d.f.left then [] else pad) + [v % 256] + (if d.f.left then pad else [])
  }

  function Shown(d: Directive, chars: seq<byte>): seq<byte> {
    if d.f.precision && d.prec < |chars| then chars[..d.prec] else chars
  }

  function StringText(d: Directive, chars: seq<byte>): seq<byte> {
    var shown := Shown(d, chars);
    var pad := Repeat(SPACE, d.width - |shown|);
    (if d.f.left then [] else pad) + shown + (if d.f.left then pad else [])
  }

  function PointerText(d: Directive, v: nat): seq<byte> {
    NtoaText(v, false, 16, d.prec, 16, d.f.(zeropad := true, upper := true))
  }

  // d i u x X o b c s p take an argument.
  predicate TakesArg(c: byte) {
    IsInteger(c) || c == 99 || c == 115 || c == 112
  }

  function Conversion(c: byte, d: Directive, args: seq<Arg>): seq<byte> {
    if IsInteger(c) then IntegerText(c, d, NumArg(args, d.k))
    else if c == 99 then CharText(d, NumArg(args, d.k))
    else if c == 115 then StringText(d, StrArg(args, d.k))
    else if c == 112 then PointerText(d, NumArg(args, d.k))
    else [c]
  }

  /** What a format is made of: characters, and directives with their specifier. */
  datatype Piece = Plain(c: byte) | Conv(c: byte, d: Directive)

  function Pieces(fmt: seq<byte>, pos: nat, args: seq<Arg>, k: nat): seq<Piece>
    requires Terminated(fmt) && pos < |fmt|
    decreases |fmt| - pos
  {
    if fmt[pos] == NUL then []
    else if fmt[pos] != PERCENT then [Plain(fmt[pos])] + Pieces(fmt, pos + 1, args, k)
    else
      var d := DirectiveAt(fmt, pos + 1, args, k);
      var c := fmt[d.pos];
      if c == NUL then []
      else [Conv(c, d)] + Pieces(fmt, d.pos + 1, args, if TakesArg(c) then d.k + 1 else d.k)
  }

  function PieceText(p: Piece, args: seq<Arg>): seq<byte> {
    if p.Plain? then [p.c] else Conversion(p.c, p.d, args)
  }

  function Text(pieces: seq<Piece>, args: seq<Arg>): seq<byte> {
    if pieces == [] then [] else PieceText(pieces[0], args) + Text(pieces[1..], args)
  }

  /** The whole output of a format, were there no limit. */
  function Render(fmt: seq<byte>, args: seq<Arg>): seq<byte>
    requires Terminated(fmt)
  {
    Text(Pieces(fmt, 0, args, 0), args)
  }

  /** No directive is cut off by the end of the format, and none is for a float. */
  predicate Complete(fmt: seq<byte>, pos: nat, args: seq<Arg>, k: nat)
    requires Terminated(fmt) && pos < |fmt|
    decreases |fmt| - pos
  {
    if fmt[pos] == NUL then true
    else if fmt[pos] != PERCENT then Complete(fmt, pos + 1, args, k)
    else
      var d := DirectiveAt(fmt, pos + 1, args, k);
      var c := fmt[d.pos];
      c != NUL && !IsFloat(c) && Complete(fmt, d.pos + 1, args, if TakesArg(c) then d.k + 1 else d.k)
  }

  // ---------------------------------------------------------------------------
  // The sink

  /** The buffer holds the first `idx` characters of the output `all`, as far as they
      are below maxlen; everything else is as it was in `m0`. */
  ghost predicate Shows(buffer: array<byte>, m0: seq<byte>, maxlen: nat, all: seq<byte>, idx: nat)
    reads buffer
  {
    && buffer.Length == |m0| && idx <= |all|
    && forall k :: 0 <= k < |m0| ==> buffer[k] == if k < idx && k < maxlen then all[k] else m0[k]
  }

  /** The text stands in the output at `idx`. */
  predicate Next(all: seq<byte>, idx: nat, text: seq<byte>) {
    idx + |text| <= |all| && forall i :: 0 <= i < |text| ==> all[idx + i] == text[i]
  }

  method Out(c: byte, buffer: array<byte>, idx: nat, maxlen: nat, ghost m0: seq<byte>, ghost all: seq<byte>)
      returns (next: nat)
    requires maxlen <= buffer.Length && Shows(buffer, m0, maxlen, all, idx)
    requires idx < |all| && all[idx] == c
    modifies buffer
    ensures next == idx + 1 && Shows(buffer, m0, maxlen, all, next)
  {
    if idx < maxlen {
      buffer[idx] := c;
    }
    next := idx + 1;
  }

  method OutSpaces(n: int, buffer: array<byte>, idx0: nat, maxlen: nat, ghost m0: seq<byte>, ghost all: seq<byte>)
    returns (idx: nat)
    requires maxlen <= buffer.Length && Shows(buffer, m0, maxlen, all, idx0)
    requires Next(all, idx0, Repeat(SPACE, n))
    modifies buffer
    ensures idx == idx0 + Max(n, 0) && Shows(buffer, m0, maxlen, all, idx)
  {
    idx := idx0;
    var i := 0;
    while i < n
      invariant 0 <= i <= Max(n, 0) && idx == idx0 + i && Shows(buffer, m0, maxlen, all, idx)
    {
      assert all[idx0 + i] == Repeat(SPACE, n)[i];
      idx := Out(SPACE, buffer, idx, maxlen, m0, all);
      i := i + 1;
    }
  }

  lemma NextSplit(all: seq<byte>, idx: nat, a: seq<byte>, b: seq<byte>)
    requires Next(all, idx, a + b)
    ensures Next(all, idx, a) && Next(all, idx + |a|, b)
  {
    forall i | 0 <= i < |a| ensures all[idx + i] == a[i] { assert (a + b)[i] == a[i]; }
    forall i | 0 <= i < |b| ensures all[idx + |a| + i] == b[i] { assert (a + b)[|a| + i] == b[i]; }
  }

  // ---------------------------------------------------------------------------
  // Numbers

  /** The characters of the small buffer, last first. */
  method OutDigits(buffer: array<byte>, idx0: nat, maxlen: nat, buf: array<byte>, len: nat,
                   ghost m0: seq<byte>, ghost all: seq<byte>) returns (idx: nat)
    requires buffer != buf && len <= buf.Length && maxlen <= buffer.Length && Shows(buffer, m0, maxlen, all, idx0)
    requires Next(all, idx0, Reverse(buf[..len]))
    modifies buffer
    ensures idx == idx0 + len && Shows(buffer, m0, maxlen, all, idx)
  {
    ghost var rev := buf[..len];
    idx := idx0;
    var left: nat := len;
    while left != 0
      invariant left <= len && idx == idx0 + (len - left)
      invariant Shows(buffer, m0, maxlen, all, idx)
    {
      left := left - 1;
      assert Reverse(rev)[len - 1 - left] == rev[left] == buf[left];
      idx := Out(buf[left], buffer, idx, maxlen, m0, all);
    }
  }

  method OutRev(buffer: array<byte>, idx0: nat, maxlen: nat, buf: array<byte>, len: nat, width: nat, f: Flags,
                ghost m0: seq<byte>, ghost all: seq<byte>) returns (idx: nat)
    requires buffer != buf && len <= buf.Length && maxlen <= buffer.Length && Shows(buffer, m0, maxlen, all, idx0)
    requires Next(all, idx0, OutRevText(buf[..len], width, f))
    modifies buffer
    ensures idx == idx0 + |OutRevText(buf[..len], width, f)| && Shows(buffer, m0, maxlen, all, idx)
  {
    ghost var rev := buf[..len];
    ghost var front := if !f.left && !f.zeropad then Repeat(SPACE, width - len) else [];
    ghost var back := if f.left then Repeat(SPACE, width - len) else [];
    NextSplit(all, idx0, front + Reverse(rev), back);
    NextSplit(all, idx0, front, Reverse(rev));
    idx := idx0;
    if !f.left && !f.zeropad {
      idx := OutSpaces(width - len, buffer, idx, maxlen, m0, all);
    }
    idx := OutDigits(buffer, idx, maxlen, buf, len, m0, all);
    if f.left {
      idx := OutSpaces(width - len, buffer, idx, maxlen, m0, all);
    }
  }

  /** Pads with zeros as far as there is room. */
  method PadZeros(buf: array<byte>, len0: nat, n: nat) returns (len: nat)
    requires buf.Length == ROOM && len0 <= ROOM
    modifies buf
    ensures len <= ROOM && buf[..len] == PadTo(old(buf[..len0]), n)
  {
    len := len0;
    while len < n && len < ROOM
      invariant len0 <= len <= ROOM && len <= Max(len0, n)
      invariant buf[..len] == old(buf[..len0]) + Repeat(ZERO, len - len0)
    {
      ghost var before := buf[..len];
      buf[len] := ZERO;
      assert buf[..len + 1] == before + [ZERO];
      len := len + 1;
    }
  }

  method PushChar(buf: array<byte>, len0: nat, c: byte) returns (len: nat)
    requires buf.Length == ROOM && len0 <= ROOM
    modifies buf
    ensures len <= ROOM && buf[..len] == Push(old(buf[..len0]), c)
  {
    len := len0;
    if len < ROOM {
      buf[len] := c;
      len := len + 1;
    }
  }

  method PutHash(buf: array<byte>, len0: nat, base: nat, prec: nat, width: nat, f: Flags) returns (len: nat)
    requires buf.Length == ROOM && len0 <= ROOM
    modifies buf
    ensures len <= ROOM && buf[..len] == HashRev(old(buf[..len0]), base, prec, width, f)
  {
    len := len0;
    ghost var rev := buf[..len0];
    if !f.precision && len != 0 && (len == prec || len == width) {
      len := len - 1;
      if len != 0 && base == 16 {
        len := len - 1;
      }
      assert buf[..len] == rev[..len];
    }
    if base == 16 && !f.upper {
      len := PushChar(buf, len, 120);
    } else if base == 16 && f.upper {
      len := PushChar(buf, len, 88);
    } else if base == 2 {
      len := PushChar(buf, len, 98);
    }
    len := PushChar(buf, len, ZERO);
  }

  method NtoaFormat(buffer: array<byte>, idx0: nat, maxlen: nat, buf: array<byte>, len0: nat, negative: bool, base: nat,
                    prec: nat, width0: nat, f: Flags, ghost m0: seq<byte>, ghost all: seq<byte>) returns (idx: nat)
    requires buffer != buf && buf.Length == ROOM && len0 <= ROOM
    requires maxlen <= buffer.Length && Shows(buffer, m0, maxlen, all, idx0)
    requires var (r, w) := FormatRev(buf[..len0], negative, base, prec, width0, f); Next(all, idx0, OutRevText(r, w, f))
    modifies buffer, buf
    ensures var (r, w) := FormatRev(old(buf[..len0]), negative, base, prec, width0, f);
            idx == idx0 + |OutRevText(r, w, f)| && Shows(buffer, m0, maxlen, all, idx)
  {
    ghost var (r, w) := FormatRev(buf[..len0], negative, base, prec, width0, f);
    var width, len := width0, len0;
    if !f.left {
      if width > 0 && f.zeropad && (negative || f.plus || f.space) {
        width := width - 1;
      }
      len := PadZeros(buf, len, prec);
      if f.zeropad {
        len := PadZeros(buf, len, width);
      }
    }
    if f.hash {
      len := PutHash(buf, len, base, prec, width, f);
    }
    if negative {
      len := PushChar(buf, len, MINUS);
    } else if f.plus {
      len := PushChar(buf, len, PLUS);
    } else if f.space {
      len := PushChar(buf, len, SPACE);
    }
    assert buf[..len] == r && width == w;
    idx := OutRev(buffer, idx0, maxlen, buf, len, width, f, m0, all);
  }

  method NtoaLong(buffer: array<byte>, idx0: nat, maxlen: nat, value0: nat, negative: bool, base: nat, prec: nat,
                  width: nat, f0: Flags, ghost m0: seq<byte>, ghost all: seq<byte>) returns (idx: nat)
    requires 2 <= base <= 16
    requires maxlen <= buffer.Length && Shows(buffer, m0, maxlen, all, idx0)
    requires Next(all, idx0, NtoaText(value0, negative, base, prec, width, f0))
    modifies buffer
    ensures idx == idx0 + |NtoaText(value0, negative, base, prec, width, f0)| && Shows(buffer, m0, maxlen, all, idx)
  {
    var buf := new byte[ROOM];
    var len := 0;
    var f := if value0 == 0 then f0.(hash := false) else f0;
    if !f.precision || value0 != 0 {
      len := PutDigits(buf, value0, base, f.upper);
    }
    idx := NtoaFormat(buffer, idx0, maxlen, buf, len, negative, base, prec, width, f, m0, all);
  }

  method PutDigits(buf: array<byte>, value0: nat, base: nat, upper: bool) returns (len: nat)
    requires buf.Length == ROOM && 2 <= base <= 16
    modifies buf
    ensures len <= ROOM && buf[..len] == DigitsRev(value0, base, upper, ROOM)
  {
    len := 0;
    ghost var rev := DigitsRev(value0, base, upper, ROOM);
    var value := value0;
    assert rev[0..] == rev;
    var more := true;
    while more
      invariant len <= ROOM && (if more then Left(rev, len, value, base, upper) else len == |rev|)
      invariant forall i :: 0 <= i < len ==> buf[i] == rev[i]
      decreases ROOM - len
    {
      var c, rest := TakeDigit(value, base, upper, rev, len);
      buf[len], value := c, rest;
      len := len + 1;
      more := value != 0 && len < ROOM;
    }
    assert buf[..len] == rev;
  }

  /** From `len` on, the digits of the value are still to come. */
  ghost predicate Left(rev: seq<byte>, len: nat, value: nat, base: nat, upper: bool)
    requires 2 <= base <= 16
  {
    len < |rev| && len < ROOM && rev[len..] == DigitsRev(value, base, upper, ROOM - len)
  }

  /** The last digit of a value and the value without it. */
  method TakeDigit(value: nat, base: nat, upper: bool, ghost rev: seq<byte>, ghost len: nat)
      returns (c: byte, rest: nat)
    requires 2 <= base <= 16 && Left(rev, len, value, base, upper)
    ensures rev[len] == c
    ensures if rest == 0 || len + 1 == ROOM then |rev| == len + 1 else Left(rev, len + 1, rest, base, upper)
  {
    LowHigh(value, base);
    NextDigit(rev, len, value, base, upper);
    c := Digit(value % base, upper);
    rest := value / base;
  }

  lemma NextDigit(rev: seq<byte>, len: nat, value: nat, base: nat, upper: bool)
    requires 2 <= base <= 16 && len < ROOM && len <= |rev| && rev[len..] == DigitsRev(value, base, upper, ROOM - len)
    ensures len < |rev| && rev[len] == Digit(Low(value, base), upper)
    ensures if High(value, base) == 0 || len + 1 == ROOM then |rev| == len + 1
            else len + 1 < |rev| && rev[len + 1..] == DigitsRev(High(value, base), base, upper, ROOM - (len + 1))
  {
  }

  // ---------------------------------------------------------------------------
  // The other conversions

  method PutChar(d: Directive, v: nat, buffer: array<byte>, idx0: nat, maxlen: nat, ghost m0: seq<byte>,
                 ghost all: seq<byte>)
    returns (idx: nat)
    requires maxlen <= buffer.Length && Shows(buffer, m0, maxlen, all, idx0)
    requires Next(all, idx0, CharText(d, v))
    modifies buffer
    ensures idx == idx0 + |CharText(d, v)| && Shows(buffer, m0, maxlen, all, idx)
  {
    ghost var pad := Repeat(SPACE, d.width - 1);
    ghost var front := if d.f.left then [] else pad;
    NextSplit(all, idx0, front + [v % 256], if d.f.left then pad else []);
    NextSplit(all, idx0, front, [v % 256]);
    idx := idx0;
    if !d.f.left {
      idx := OutSpaces(d.width - 1, buffer, idx, maxlen, m0, all);
    }
    assert [v % 256][0] == v % 256;
    idx := Out(v % 256, buffer, idx, maxlen, m0, all);
    if d.f.left {
      idx := OutSpaces(d.width - 1, buffer, idx, maxlen, m0, all);
    }
  }

  /** The characters of a string up to its end or the precision. */
  method PutShown(d: Directive, chars: seq<byte>, buffer: array<byte>, idx0: nat, maxlen: nat, ghost m0: seq<byte>,
                  ghost all: seq<byte>)
    returns (idx: nat)
    requires maxlen <= buffer.Length && Shows(buffer, m0, maxlen, all, idx0)
    requires Next(all, idx0, Shown(d, chars))
    modifies buffer
    ensures idx == idx0 + |Shown(d, chars)| && Shows(buffer, m0, maxlen, all, idx)
  {
    ghost var shown := Shown(d, chars);
    var p, precision := 0, d.prec;
    idx := idx0;
    while p < |chars| && (!d.f.precision || precision != 0)
      invariant 0 <= p <= |shown| && idx == idx0 + p && Shows(buffer, m0, maxlen, all, idx)
      invariant d.f.precision ==> precision == d.prec - p
    {
      assert shown[p] == chars[p];
      idx := Out(chars[p], buffer, idx, maxlen, m0, all);
      p, precision := p + 1, if d.f.precision then precision - 1 else precision;
    }
  }

  /** The spaces before or after a string, and the string, in their places. */
  lemma StringParts(all: seq<byte>, idx: nat, d: Directive, chars: seq<byte>)
    requires Next(all, idx, StringText(d, chars))
    ensures var n := |Shown(d, chars)|;
            var pad := Repeat(SPACE, d.width - n);
            && |StringText(d, chars)| == |pad| + n
            && Next(all, if d.f.left then idx + n else idx, pad)
            && Next(all, if d.f.left then idx else idx + |pad|, Shown(d, chars))
  {
    var shown := Shown(d, chars);
    var pad := Repeat(SPACE, d.width - |shown|);
    var front := if d.f.left then [] else pad;
    NextSplit(all, idx, front + shown, if d.f.left then pad else []);
    NextSplit(all, idx, front, shown);
  }

  method PutString(d: Directive, chars: seq<byte>, buffer: array<byte>, idx0: nat, maxlen: nat, ghost m0: seq<byte>,
                   ghost all: seq<byte>)
    returns (idx: nat)
    requires maxlen <= buffer.Length && Shows(buffer, m0, maxlen, all, idx0)
    requires Next(all, idx0, StringText(d, chars)) && (d.f.precision || d.prec == 0)
    modifies buffer
    ensures idx == idx0 + |StringText(d, chars)| && Shows(buffer, m0, maxlen, all, idx)
  {
    // _strnlen_s, bounded by a nonzero precision.
    var l: nat := if d.prec != 0 && d.prec < |chars| then d.prec else |chars|;
    if d.f.precision && d.prec < l {
      l := d.prec;
    }
    ghost var shown := Shown(d, chars);
    assert l == |shown|;
    StringParts(all, idx0, d, chars);
    idx := idx0;
    if !d.f.left {
      idx := OutSpaces(d.width - l, buffer, idx, maxlen, m0, all);
    }
    idx := PutShown(d, chars, buffer, idx, maxlen, m0, all);
    if d.f.left {
      idx := OutSpaces(d.width - l, buffer, idx, maxlen, m0, all);
    }
  }

  // ---------------------------------------------------------------------------
  // The loop over the format

  method ReadFlags(fmt: seq<byte>, pos0: nat) returns (f: Flags, pos: nat)
    requires Terminated(fmt) && pos0 < |fmt|
    ensures (f, pos) == FlagsAt(fmt, pos0, NO_FLAGS)
  {
    f, pos := NO_FLAGS, pos0;
    var more := true;
    while more
      invariant pos < |fmt| && FlagsAt(fmt, pos, f) == FlagsAt(fmt, pos0, NO_FLAGS)
      invariant !more ==> FlagsAt(fmt, pos, f) == (f, pos)
      decreases |fmt| - pos, more
    {
      var c := fmt[pos];
      if c == ZERO {
        f, pos := f.(zeropad := true), pos + 1;
      } else if c == MINUS {
        f, pos := f.(left := true), pos + 1;
      } else if c == PLUS {
        f, pos := f.(plus := true), pos + 1;
      } else if c == SPACE {
        f, pos := f.(space := true), pos + 1;
      } else if c == HASH {
        f, pos := f.(hash := true), pos + 1;
      } else {
        more := false;
      }
    }
  }

  method Atoi(fmt: seq<byte>, pos0: nat) returns (n: nat, pos: nat)
    requires Terminated(fmt) && pos0 < |fmt|
    ensures (n, pos) == NumberAt(fmt, pos0, 0)
  {
    n, pos := 0, pos0;
    while IsDigit(fmt[pos])
      invariant pos < |fmt| && NumberAt(fmt, pos, n) == NumberAt(fmt, pos0, 0)
      decreases |fmt| - pos
    {
      n := (n * 10 + (fmt[pos] - ZERO)) % 0x1_0000_0000;
      pos := pos + 1;
    }
  }

  method ReadWidth(d0: Directive, fmt: seq<byte>, args: seq<Arg>) returns (d: Directive)
    requires Terminated(fmt) && d0.pos < |fmt|
    ensures d == WithWidth(d0, fmt, args)
  {
    d := d0;
    if IsDigit(fmt[d.pos]) {
      var n, q := Atoi(fmt, d.pos);
      d := d.(width := n, pos := q);
    } else if fmt[d.pos] == STAR {
      var w := Signed32(NumArg(args, d.k));
      if w < 0 {
        d := d.(f := d.f.(left := true), width := -w);
      } else {
        d := d.(width := w);
      }
      d := d.(pos := d.pos + 1, k := d.k + 1);
    }
  }

  method ReadPrecision(d0: Directive, fmt: seq<byte>, args: seq<Arg>) returns (d: Directive)
    requires Terminated(fmt) && d0.pos < |fmt|
    ensures d == WithPrecision(d0, fmt, args)
  {
    d := d0;
    if fmt[d.pos] == DOT {
      d := d.(f := d.f.(precision := true), pos := d.pos + 1);
      if IsDigit(fmt[d.pos]) {
        var n, q := Atoi(fmt, d.pos);
        d := d.(prec := n, pos := q);
      } else if fmt[d.pos] == STAR {
        var n := Signed32(NumArg(args, d.k));
        d := d.(prec := if n > 0 then n else 0, pos := d.pos + 1, k := d.k + 1);
      }
    }
  }

  method ReadDirective(fmt: seq<byte>, pos: nat, args: seq<Arg>, k: nat) returns (d: Directive)
    requires Terminated(fmt) && pos < |fmt|
    ensures d == DirectiveAt(fmt, pos, args, k) && (d.f.precision || d.prec == 0)
  {
    var f, p := ReadFlags(fmt, pos);
    d := ReadWidth(Directive(f, 0, 0, p, k), fmt, args);
    d := ReadPrecision(d, fmt, args);
    d := WithLength(d, fmt);
  }

  method Convert(c: byte, d: Directive, args: seq<Arg>, buffer: array<byte>, idx0: nat, maxlen: nat,
                 ghost m0: seq<byte>, ghost all: seq<byte>) returns (idx: nat, k: nat)
    requires maxlen <= buffer.Length && Shows(buffer, m0, maxlen, all, idx0)
    requires d.f.precision || d.prec == 0
    requires Next(all, idx0, Conversion(c, d, args))
    modifies buffer
    ensures idx == idx0 + |Conversion(c, d, args)| && Shows(buffer, m0, maxlen, all, idx)
    ensures k == if TakesArg(c) then d.k + 1 else d.k
  {
    k := d.k;
    if IsInteger(c) {
      var f := IntegerFlags(c, d.f);
      var v := NumArg(args, k);
      k := k + 1;
      idx := NtoaLong(buffer, idx0, maxlen, Magnitude(c, f, v), Negative(c, f, v), BaseOf(c), d.prec, d.width, f, m0,
                      all);
    } else if c == 99 {
      k := k + 1;
      idx := PutChar(d, NumArg(args, d.k), buffer, idx0, maxlen, m0, all);
    } else if c == 115 {
      k := k + 1;
      idx := PutString(d, StrArg(args, d.k), buffer, idx0, maxlen, m0, all);
    } else if c == 112 {
      k := k + 1;
      idx := NtoaLong(buffer, idx0, maxlen, NumArg(args, d.k), false, 16, d.prec, 16,
                      d.f.(zeropad := true, upper := true), m0, all);
    } else {
      assert [c][0] == c;
      idx := Out(c, buffer, idx0, maxlen, m0, all);
    }
  }

  lemma NextIs(all: seq<byte>, idx: nat, text: seq<byte>, rest: seq<byte>)
    requires idx <= |all| && all[idx..] == text + rest
    ensures Next(all, idx, text) && all[idx + |text|..] == rest
  {
  }

  /** The output, cut off to what fits with its NUL. */
  function Truncated(all: seq<byte>, maxlen: nat): seq<byte>
    requires maxlen > 0
  {
    (if |all| < maxlen then all else all[..maxlen - 1]) + [NUL]
  }

  /** Truncation commutes with formatting: the count is that of the unlimited output
      whatever maxlen is, the buffer gets the longest prefix of it that fits and a NUL,
      and nothing is written beyond these, in particular not at or past maxlen. */
  method Vsnprintf(buffer: array<byte>, maxlen: nat, fmt: seq<byte>, args: seq<Arg>) returns (idx: nat)
    requires Terminated(fmt) && Complete(fmt, 0, args, 0) && maxlen <= buffer.Length
    modifies buffer
    ensures idx == |Render(fmt, args)|
    ensures maxlen > 0 ==>
              var t := Truncated(Render(fmt, args), maxlen);
              |t| <= maxlen && buffer[..|t|] == t && buffer[|t|..] == old(buffer[|t|..])
    ensures maxlen == 0 ==> buffer[..] == old(buffer[..])
  {
    ghost var m0 := buffer[..];
    ghost var all := Render(fmt, args);
    ghost var left := Pieces(fmt, 0, args, 0);
    idx := 0;
    var pos, k := 0, 0;
    assert all[0..] == all;
    while fmt[pos] != NUL
      invariant 0 <= pos < |fmt| && 0 <= k && Complete(fmt, pos, args, k) && left == Pieces(fmt, pos, args, k)
      invariant Shows(buffer, m0, maxlen, all, idx) && all[idx..] == Text(left, args)
      decreases |fmt| - pos
    {
      idx, pos, k, left := FormatOne(fmt, pos, args, k, buffer, idx, maxlen, m0, all, left);
    }
    Terminate(buffer, idx, maxlen, m0, all);
  }

  /** One character or one directive of the format. */
  method FormatOne(fmt: seq<byte>, pos0: nat, args: seq<Arg>, k0: nat, buffer: array<byte>, idx0: nat, maxlen: nat,
                   ghost m0: seq<byte>, ghost all: seq<byte>, ghost todo: seq<Piece>)
    returns (idx: nat, pos: nat, k: nat, ghost left: seq<Piece>)
    requires Terminated(fmt) && pos0 < |fmt| && Complete(fmt, pos0, args, k0) && fmt[pos0] != NUL
    requires maxlen <= buffer.Length && Shows(buffer, m0, maxlen, all, idx0)
    requires todo == Pieces(fmt, pos0, args, k0) && all[idx0..] == Text(todo, args)
    modifies buffer
    ensures pos0 < pos < |fmt| && Complete(fmt, pos, args, k) && left == Pieces(fmt, pos, args, k)
    ensures Shows(buffer, m0, maxlen, all, idx) && all[idx..] == Text(left, args)
  {
    if fmt[pos0] != PERCENT {
      left := Pieces(fmt, pos0 + 1, args, k0);
      idx := PutPlain(fmt[pos0], args, buffer, idx0, maxlen, m0, all, left);
      pos, k := pos0 + 1, k0;
    } else {
      idx, pos, k, left := FormatDirective(fmt, pos0, args, k0, buffer, idx0, maxlen, m0, all, todo);
    }
  }

  method FormatDirective(fmt: seq<byte>, pos0: nat, args: seq<Arg>, k0: nat, buffer: array<byte>, idx0: nat,
                         maxlen: nat, ghost m0: seq<byte>, ghost all: seq<byte>, ghost todo: seq<Piece>)
    returns (idx: nat, pos: nat, k: nat, ghost left: seq<Piece>)
    requires Terminated(fmt) && pos0 < |fmt| && Complete(fmt, pos0, args, k0) && fmt[pos0] == PERCENT
    requires maxlen <= buffer.Length && Shows(buffer, m0, maxlen, all, idx0)
    requires todo == Pieces(fmt, pos0, args, k0) && all[idx0..] == Text(todo, args)
    modifies buffer
    ensures pos0 < pos < |fmt| && Complete(fmt, pos, args, k) && left == Pieces(fmt, pos, args, k)
    ensures Shows(buffer, m0, maxlen, all, idx) && all[idx..] == Text(left, args)
  {
    var d := ReadDirective(fmt, pos0 + 1, args, k0);
    CompleteNext(fmt, pos0, args, k0, d);
    ghost var k' := if TakesArg(fmt[d.pos]) then d.k + 1 else d.k;
    left := Pieces(fmt, d.pos + 1, args, k');
    PiecesNext(fmt, pos0, args, k0, d, k', todo, left);
    idx, k := PutConversion(fmt[d.pos], d, args, buffer, idx0, maxlen, m0, all, left);
    pos := d.pos + 1;
  }

  lemma CompleteNext(fmt: seq<byte>, pos: nat, args: seq<Arg>, k: nat, d: Directive)
    requires Terminated(fmt) && pos < |fmt| && Complete(fmt, pos, args, k) && fmt[pos] == PERCENT
    requires d == DirectiveAt(fmt, pos + 1, args, k)
    ensures fmt[d.pos] != NUL && d.pos + 1 < |fmt|
    ensures Complete(fmt, d.pos + 1, args, if TakesArg(fmt[d.pos]) then d.k + 1 else d.k)
  {
  }

  lemma PiecesNext(fmt: seq<byte>, pos: nat, args: seq<Arg>, k: nat, d: Directive, k': nat, todo: seq<Piece>,
                   left: seq<Piece>)
    requires Terminated(fmt) && pos < |fmt| && fmt[pos] == PERCENT
    requires d == DirectiveAt(fmt, pos + 1, args, k) && fmt[d.pos] != NUL && d.pos + 1 < |fmt|
    requires k' == if TakesArg(fmt[d.pos]) then d.k + 1 else d.k
    requires todo == Pieces(fmt, pos, args, k) && left == Pieces(fmt, d.pos + 1, args, k')
    ensures todo == [Conv(fmt[d.pos], d)] + left
  {
  }

  method PutPlain(c: byte, args: seq<Arg>, buffer: array<byte>, idx0: nat, maxlen: nat,
                  ghost m0: seq<byte>, ghost all: seq<byte>, ghost left: seq<Piece>) returns (idx: nat)
    requires maxlen <= buffer.Length && Shows(buffer, m0, maxlen, all, idx0)
    requires all[idx0..] == Text([Plain(c)] + left, args)
    modifies buffer
    ensures Shows(buffer, m0, maxlen, all, idx) && all[idx..] == Text(left, args)
  {
    TextNext(Plain(c), left, args);
    NextIs(all, idx0, [c], Text(left, args));
    assert [c][0] == c;
    idx := Out(c, buffer, idx0, maxlen, m0, all);
  }

  method PutConversion(c: byte, d: Directive, args: seq<Arg>, buffer: array<byte>, idx0: nat, maxlen: nat,
                       ghost m0: seq<byte>, ghost all: seq<byte>, ghost left: seq<Piece>) returns (idx: nat, k: nat)
    requires maxlen <= buffer.Length && Shows(buffer, m0, maxlen, all, idx0)
    requires d.f.precision || d.prec == 0
    requires all[idx0..] == Text([Conv(c, d)] + left, args)
    modifies buffer
    ensures Shows(buffer, m0, maxlen, all, idx) && all[idx..] == Text(left, args)
    ensures k == if TakesArg(c) then d.k + 1 else d.k
  {
    TextNext(Conv(c, d), left, args);
    NextIs(all, idx0, Conversion(c, d, args), Text(left, args));
    idx, k := Convert(c, d, args, buffer, idx0, maxlen, m0, all);
  }

  lemma TextNext(p: Piece, left: seq<Piece>, args: seq<Arg>)
    ensures Text([p] + left, args) == PieceText(p, args) + Text(left, args)
  {
  }

  /** The final NUL; maxlen - 1 is the largest size when maxlen is 0. */
  method Terminate(buffer: array<byte>, idx: nat, maxlen: nat, ghost m0: seq<byte>, ghost all: seq<byte>)
    requires maxlen <= buffer.Length && idx == |all| && Shows(buffer, m0, maxlen, all, idx)
    modifies buffer
    ensures maxlen > 0 ==>
              var t := Truncated(all, maxlen);
              |t| <= maxlen && buffer[..|t|] == t && buffer[|t|..] == m0[|t|..]
    ensures maxlen == 0 ==> buffer[..] == m0
  {
    if idx < maxlen {
      buffer[idx] := NUL;
    } else if maxlen > 0 {
      buffer[maxlen - 1] := NUL;
    }
  }
}
