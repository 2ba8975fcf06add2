/**
 Whole formats (src/printf.c): what a format written from its parts prints, item by item,
 with the specifiers, bases and padding written out.
 */
module PrintfFormats {
  import opened Words
  import opened Chars
  import opened Hex
  import opened PrintfNumbers
  import opened Printf
  import opened PrintfParse

  function FormatText(items: seq<Item>): seq<byte> {
    if items == [] then [] else ItemFormat(items[0]) + FormatText(items[1..])
  }

  predicate AllWellFormed(items: seq<Item>) {
    forall j :: 0 <= j < |items| ==> WellFormed(items[j])
  }

  /** The argument behind those of an item: one for each star, and one unless it is %%. */
  function Behind(i: Item, k: nat): nat {
    if i.Char? then k else k + Stars(i) + (if i.conv == '%' as int then 0 else 1)
  }

  function Stars(i: Item): nat
    requires i.Spec?
  {
    (if i.width.FromArg? then 1 else 0) + (if i.prec.FromArg? then 1 else 0)
  }

  /** What one item prints, if the arguments for it start at `k`. */
  function Output(i: Item, args: seq<Arg>, k: nat): seq<byte> {
    if i.Char? then [i.c] else Conversion(i.conv, Meant(i, 0, args, k), args)
  }

  function Outputs(items: seq<Item>, args: seq<Arg>, k: nat): seq<byte> {
    if items == [] then [] else
    Output(items[0], args, k) + Outputs(items[1..], args, Behind(items[0], k))
  }

  // ---------------------------------------------------------------------------
  // A format prints its items one after the other

  /** The directive of an item that stands at `pos`. */
  ghost predicate Reads(i: Item, fmt: seq<byte>, pos: nat, args: seq<Arg>, k: nat, d: Directive)
    requires i.Spec? && Terminated(fmt)
  {
    && pos + 1 < |fmt| && fmt[pos] == PERCENT && d == DirectiveAt(fmt, pos + 1, args, k)
    && fmt[d.pos] == i.conv && d.pos + 1 < |fmt|
  }

  lemma PercentStands(i: Item, fmt: seq<byte>, pos: nat, rest: seq<byte>)
    requires i.Spec? && Terminated(fmt) && StandsAt(fmt, pos, ItemFormat(i) + rest) && rest != []
    ensures fmt[pos] == PERCENT && StandsAt(fmt, pos + 1, SpecText(i) + rest)
  {
    Associate([PERCENT], SpecText(i), rest);
    CharStands(fmt, pos, PERCENT, SpecText(i) + rest);
  }

  lemma SpecPrinted(i: Item, fmt: seq<byte>, pos: nat, rest: seq<byte>, args: seq<Arg>, k: nat)
    returns (d: Directive, next: nat, k2: nat)
    requires i.Spec? && WellFormed(i)
    requires Terminated(fmt) && StandsAt(fmt, pos, ItemFormat(i) + rest) && rest != []
    ensures Reads(i, fmt, pos, args, k, d) && next == d.pos + 1 && StandsAt(fmt, next, rest)
    ensures Conversion(i.conv, d, args) == Output(i, args, k)
    ensures k2 == Behind(i, k) == if i.conv == 37 then d.k else d.k + 1
  {
    PercentStands(i, fmt, pos, rest);
    d, next := SpecRead(fmt, pos + 1, i, rest, args, k);
    AnyPlace(i, d, args, k);
    k2 := Behind(i, k);
  }

  lemma ConversionCodes(c: byte)
    ensures IsConversion(c) ==> (TakesArg(c) <==> c != 37) && !IsFloat(c) && c != NUL
  {
    var a := Ascii("diuxXobcsp%");
    assert a[0] == 100 && a[1] == 105 && a[2] == 117 && a[3] == 120 && a[4] == 88 && a[5] == 111;
    assert a[6] == 98 && a[7] == 99 && a[8] == 115 && a[9] == 112 && a[10] == 37;
  }

  /** Where a directive stands says nothing about what it prints. */
  lemma AnyPlace(i: Item, d: Directive, args: seq<Arg>, k: nat)
    requires i.Spec? && d == Meant(i, d.pos, args, k)
    ensures Conversion(i.conv, d, args) == Output(i, args, k) && d.k == k + Stars(i)
  {
    var e := Directive(WithFlags(NO_FLAGS, i.flags), 0, 0, d.pos, k);
    PlaceParts(i, e, args, 0);
    SamePlace(i.conv, d, args);
    StarsTaken(i, e, args);
  }

  lemma StarsTaken(i: Item, d: Directive, args: seq<Arg>)
    requires i.Spec?
    ensures AfterFlags(i, d, args).k == d.k + Stars(i)
  {
  }

  lemma SamePlace(c: byte, d: Directive, args: seq<Arg>)
    ensures Conversion(c, d.(pos := 0), args) == Conversion(c, d, args)
  {
  }

  lemma CharPrinted(c: byte, fmt: seq<byte>, pos: nat, rest: seq<byte>)
    requires WellFormed(Char(c))
    requires Terminated(fmt) && StandsAt(fmt, pos, ItemFormat(Char(c)) + rest) && rest != []
    ensures fmt[pos] == c && c != PERCENT && c != NUL && pos + 1 < |fmt| && StandsAt(fmt, pos + 1, rest)
  {
    CharStands(fmt, pos, c, rest);
  }

  lemma {:induction false} PrintedFrom(items: seq<Item>, fmt: seq<byte>, pos: nat, args: seq<Arg>, k: nat)
    requires AllWellFormed(items) && Terminated(fmt) && StandsAt(fmt, pos, FormatText(items) + [NUL])
    ensures Complete(fmt, pos, args, k)
    ensures Text(Pieces(fmt, pos, args, k), args) == Outputs(items, args, k)
    decreases |items|
  {
    if items == [] {
      assert FormatText(items) + [NUL] == [NUL];
      EndPrinted(fmt, pos, args, k);
    } else {
      var rest := FormatText(items[1..]) + [NUL];
      Associate(ItemFormat(items[0]), FormatText(items[1..]), [NUL]);
      var next, k2 := ItemStep(items[0], fmt, pos, rest, args, k);
      PrintedFrom(items[1..], fmt, next, args, k2);
      OutputsNext(items, args, k);
    }
  }

  lemma OutputsNext(items: seq<Item>, args: seq<Arg>, k: nat)
    requires items != []
    ensures Outputs(items, args, k) == Output(items[0], args, k) + Outputs(items[1..], args, Behind(items[0], k))
  {
  }

  lemma EndPrinted(fmt: seq<byte>, pos: nat, args: seq<Arg>, k: nat)
    requires Terminated(fmt) && StandsAt(fmt, pos, [NUL])
    ensures Complete(fmt, pos, args, k) && Text(Pieces(fmt, pos, args, k), args) == []
  {
    HeadAt(fmt, pos, [NUL]);
  }

  /** One item, and the place behind it. */
  lemma ItemStep(i: Item, fmt: seq<byte>, pos: nat, rest: seq<byte>, args: seq<Arg>, k: nat)
      returns (next: nat, k2: nat)
    requires WellFormed(i) && Terminated(fmt) && StandsAt(fmt, pos, ItemFormat(i) + rest) && rest != []
    ensures StandsAt(fmt, next, rest) && k2 == Behind(i, k)
    ensures Complete(fmt, pos, args, k) == Complete(fmt, next, args, k2)
    ensures Text(Pieces(fmt, pos, args, k), args) == Output(i, args, k) + Text(Pieces(fmt, next, args, k2), args)
  {
    if i.Char? {
      CharPrinted(i.c, fmt, pos, rest);
      next, k2 := pos + 1, k;
      CharStep(i.c, fmt, pos, next, args, k);
    } else {
      next, k2 := SpecStep(i, fmt, pos, rest, args, k);
    }
  }

  lemma SpecStep(i: Item, fmt: seq<byte>, pos: nat, rest: seq<byte>, args: seq<Arg>, k: nat)
      returns (next: nat, k2: nat)
    requires i.Spec? && WellFormed(i) && Terminated(fmt) && StandsAt(fmt, pos, ItemFormat(i) + rest) && rest != []
    ensures StandsAt(fmt, next, rest) && k2 == Behind(i, k)
    ensures Complete(fmt, pos, args, k) == Complete(fmt, next, args, k2)
    ensures Text(Pieces(fmt, pos, args, k), args) == Output(i, args, k) + Text(Pieces(fmt, next, args, k2), args)
  {
    var d;
    d, next, k2 := SpecPrinted(i, fmt, pos, rest, args, k);
    ConversionStep(i, fmt, pos, d, next, args, k, k2);
  }

  lemma CharStep(c: byte, fmt: seq<byte>, pos: nat, next: nat, args: seq<Arg>, k: nat)
    requires Terminated(fmt) && next == pos + 1 < |fmt| && fmt[pos] == c && c != PERCENT && c != NUL
    ensures Complete(fmt, pos, args, k) == Complete(fmt, next, args, k)
    ensures Text(Pieces(fmt, pos, args, k), args) == [c] + Text(Pieces(fmt, next, args, k), args)
  {
    TextStep(Plain(c), Pieces(fmt, next, args, k), args);
  }

  lemma ConversionStep(i: Item, fmt: seq<byte>, pos: nat, d: Directive, next: nat, args: seq<Arg>, k: nat, k2: nat)
    requires i.Spec? && IsConversion(i.conv) && Terminated(fmt) && Reads(i, fmt, pos, args, k, d)
    requires next == d.pos + 1 && k2 == if i.conv == 37 then d.k else d.k + 1
    ensures Complete(fmt, pos, args, k) == Complete(fmt, next, args, k2)
    ensures Text(Pieces(fmt, pos, args, k), args) ==
            Conversion(i.conv, d, args) + Text(Pieces(fmt, next, args, k2), args)
  {
    ConversionCodes(i.conv);
    PiecesStep(fmt, pos, i.conv, d, next, args, k, k2);
    TextStep(Conv(i.conv, d), Pieces(fmt, next, args, k2), args);
  }

  lemma PiecesStep(fmt: seq<byte>, pos: nat, c: byte, d: Directive, next: nat, args: seq<Arg>, k: nat, k2: nat)
    requires Terminated(fmt) && pos + 1 < |fmt| && fmt[pos] == PERCENT && d == DirectiveAt(fmt, pos + 1, args, k)
    requires fmt[d.pos] == c && next == d.pos + 1 < |fmt| && c != NUL && !IsFloat(c)
    requires k2 == if TakesArg(c) then d.k + 1 else d.k
    ensures Complete(fmt, pos, args, k) == Complete(fmt, next, args, k2)
    ensures Pieces(fmt, pos, args, k) == [Conv(c, d)] + Pieces(fmt, next, args, k2)
  {
    var e := DirectiveAt(fmt, pos + 1, args, k);
    var at, kn := e.pos + 1, if TakesArg(c) then e.k + 1 else e.k;
    assert at == next && kn == k2;
  }

  lemma TextStep(p: Piece, rest: seq<Piece>, args: seq<Arg>)
    ensures Text([p] + rest, args) == PieceText(p, args) + Text(rest, args)
  {
    assert ([p] + rest)[1..] == rest;
  }

  lemma {:induction false} NoNul(items: seq<Item>)
    requires AllWellFormed(items)
    ensures NUL !in FormatText(items)
    decreases |items|
  {
    if items != [] {
      NoNul(items[1..]);
      if items[0].Spec? {
        SpecNoNul(items[0]);
      }
    }
  }

  lemma SpecNoNul(i: Item)
    requires i.Spec? && WellFormed(i)
    ensures NUL !in SpecText(i)
  {
    ConversionLetter(i.conv);
    AmountNoNul(i.width);
    AmountNoNul(i.prec);
    assert NUL !in i.flags;
    assert NUL !in LengthText(i.length);
  }

  lemma AmountNoNul(a: Amount)
    ensures NUL !in AmountText(a) && NUL !in PrecisionText(a)
  {
    if a.Given? {
      NumberDigits(a.n);
      assert NUL !in NumberText(a.n);
    }
  }

  /** A format prints its items one after the other, whatever the arguments. */
  lemma FormatPrinted(items: seq<Item>, args: seq<Arg>)
    requires AllWellFormed(items)
    ensures var fmt := FormatText(items) + [NUL];
            Terminated(fmt) && Complete(fmt, 0, args, 0) && Render(fmt, args) == Outputs(items, args, 0)
  {
    var fmt := FormatText(items) + [NUL];
    NoNul(items);
    assert fmt[0..] == fmt;
    PrintedFrom(items, fmt, 0, args, 0);
  }
}
