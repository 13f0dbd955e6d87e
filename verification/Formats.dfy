/**
 The console's format-string interpreter.

 A format string is parsed into items; the interpreter is proved to send the meaning of the items.
 Strings are C strings of signed characters: a NUL ends them.
 */
module Formats {
  import opened Arithmetic
  import opened Console
  import opened Numerals

  // ---------------------------------------------------------------- items

  datatype Kind = AsString | AsHex | AsDecimal | AsChar

  /** A directive may carry a zero flag followed by width characters.  A stray percent sign has no
      directive letter after it.  A lone backslash ends the string. */
  datatype Item =
    | Literal(c: char)
    | Escape(c: char)
    | Directive(zero: bool, width: string, kind: Kind)
    | Stray(zero: bool, width: string)
    | LoneBackslash

  datatype Arg = IntArg(d: int) | StringArg(s: string)

  function KindChar(k: Kind): char {
    match k case AsString => 's' case AsHex => 'x' case AsDecimal => 'd' case AsChar => 'c'
  }

  predicate IsKind(c: char) { c == 's' || c == 'x' || c == 'd' || c == 'c' }

  function Unparse(item: Item): string {
    match item
    case Literal(c) => [c]
    case Escape(c) => ['\\', c]
    case Directive(zero, width, kind) => "%" + (if zero then "0" else "") + width + [KindChar(kind)]
    case Stray(zero, width) => "%" + (if zero then "0" else "") + width
    case LoneBackslash => "\\"
  }

  function UnparseAll(items: seq<Item>): string {
    if |items| == 0 then "" else Unparse(items[0]) + UnparseAll(items[1..])
  }

  /** char is signed: bytes from 0x80 on compare below every ASCII character. */
  predicate NotAboveNine(c: char) { c <= '9' || 0x80 <= c as int < 0x100 }

  /** What the width loop accepts inside a string: any character that does not compare above '9'. */
  predicate IsWidth(c: char) { c != NUL && NotAboveNine(c) }

  /** The width the interpreter computes: the low four bits of every character, all but the last times ten. */
  function ParsedWidth(width: string): nat {
    if |width| == 0 then 0
    else (if |width| == 1 then 1 else 10) * (width[0] as int % 16) + ParsedWidth(width[1..])
  }

  predicate IsPercent(item: Item) { item.Directive? || item.Stray? }

  ghost predicate Shape(item: Item) {
    match item
    case Literal(c) => c != NUL && c != '\\' && c != '%'
    case Escape(c) => c != NUL
    case Directive(zero, width, _) => (forall c :: c in width ==> IsWidth(c)) && (!zero ==> width == "")
    case Stray(zero, width) => (forall c :: c in width ==> IsWidth(c)) && (!zero ==> width == "")
    case LoneBackslash => true
  }

  /** The character after a stray percent sign ends the width and is no directive letter. */
  predicate Stops(item: Item, next: char)
    requires item.Stray?
  {
    !IsKind(next) && if item.zero then !NotAboveNine(next) else next != '0'
  }

  /** The first character of a C string. */
  function First(s: string): char { if |s| > 0 then s[0] else NUL }

  /** What an item asks of the string after it. */
  ghost predicate Follows(item: Item, rest: seq<Item>) {
    (item.Stray? ==> Stops(item, First(UnparseAll(rest)))) && (item.LoneBackslash? ==> rest == [])
  }

  /** The items are the reading of some format string. */
  ghost predicate Shaped(items: seq<Item>) {
    |items| == 0 || (Shape(items[0]) && Follows(items[0], items[1..]) && Shaped(items[1..]))
  }

  /** In codes: signed, a width character is at most 0x39, and it is not 0. */
  lemma WidthCharacters(c: char)
    requires c as int < 256
    ensures IsWidth(c) <==> c as int != 0 && (if c as int < 128 then c as int else c as int - 256) <= 0x39
  {
  }

  // ---------------------------------------------------------------- reading a format string

  /** The characters at the front that the width loop accepts. */
  function WidthRun(s: string): (n: nat)
    ensures n <= |s| && (forall c :: c in s[..n] ==> IsWidth(c)) && (n < |s| ==> !IsWidth(s[n]))
  {
    if |s| == 0 || !IsWidth(s[0]) then 0
    else
      var n := WidthRun(s[1..]);
      assert s[..n + 1] == [s[0]] + s[1..][..n];
      n + 1
  }

  function KindOf(c: char): Kind
    requires IsKind(c)
  {
    if c == 's' then AsString else if c == 'x' then AsHex else if c == 'd' then AsDecimal else AsChar
  }

  /** Where a percent item at the front of s ends: the width, and the position of the character after it. */
  function PercentWidth(s: string): (string, nat)
    requires |s| > 0
  {
    if |s| > 1 && s[1] == '0' then (s[2..2 + WidthRun(s[2..])], 2 + WidthRun(s[2..])) else ("", 1)
  }

  /** The items of a string, unless a width runs past its end. */
  datatype Parsed = Reads(items: seq<Item>) | RunsPast

  function Prepend(item: Item, rest: Parsed): Parsed {
    if rest.Reads? then Reads([item] + rest.items) else RunsPast
  }

  function Parse(s: string): Parsed
    decreases |s|
  {
    if |s| == 0 then Reads([])
    else if s[0] == '\\' then
      if |s| == 1 then Reads([LoneBackslash]) else Prepend(Escape(s[1]), Parse(s[2..]))
    else if s[0] == '%' then
      var zero, (width, at) := |s| > 1 && s[1] == '0', PercentWidth(s);
      if zero && at == |s| then RunsPast
      else if at < |s| && IsKind(s[at]) then Prepend(Directive(zero, width, KindOf(s[at])), Parse(s[at + 1..]))
      else Prepend(Stray(zero, width), Parse(s[at..]))
    else Prepend(Literal(s[0]), Parse(s[1..]))
  }

  /** A percent sign with a zero flag at k, after which nothing compares above '9'. */
  predicate PastEndFrom(s: string, k: nat) {
    k + 2 <= |s| && s[k] == '%' && s[k + 1] == '0' && WidthRun(s[k + 2..]) == |s| - k - 2
  }

  ghost predicate PastEnd(s: string) {
    exists k: nat :: PastEndFrom(s, k)
  }

  lemma UnparseCons(item: Item, rest: seq<Item>)
    ensures UnparseAll([item] + rest) == Unparse(item) + UnparseAll(rest)
    ensures Shape(item) && Follows(item, rest) && Shaped(rest) ==> Shaped([item] + rest)
  {
    assert ([item] + rest)[1..] == rest;
  }

  lemma PastEndLater(s: string, k: nat)
    requires k <= |s| && PastEnd(s[k..])
    ensures PastEnd(s)
  {
    var j: nat :| PastEndFrom(s[k..], j);
    assert s[k..][j + 2..] == s[k + j + 2..];
    assert PastEndFrom(s, k + j);
  }

  lemma KindOfChar(k: Kind)
    ensures IsKind(KindChar(k)) && KindOf(KindChar(k)) == k && !NotAboveNine(KindChar(k))
  {
  }

  /** Putting an item in front of the reading of the rest. */
  lemma ReadsAs(s: string, item: Item, k: nat)
    requires k <= |s| && s[..k] == Unparse(item) && Shape(item)
    requires match Parse(s[k..])
             case Reads(rest) => UnparseAll(rest) == s[k..] && Shaped(rest) && Follows(item, rest)
             case RunsPast => PastEnd(s[k..])
    requires Parse(s) == Prepend(item, Parse(s[k..]))
    ensures match Parse(s)
            case Reads(items) => UnparseAll(items) == s && Shaped(items)
            case RunsPast => PastEnd(s)
  {
    hide Unparse, Shape;
    match Parse(s[k..])
    case Reads(rest) =>
      UnparseCons(item, rest);
      assert s == s[..k] + s[k..];
    case RunsPast => PastEndLater(s, k);
  }

  lemma PercentParts(s: string)
    requires |s| > 0 && s[0] == '%' && NUL !in s
    ensures var zero, (width, at) := |s| > 1 && s[1] == '0', PercentWidth(s);
      && at <= |s| && s[..at] == "%" + (if zero then "0" else "") + width && (!zero ==> width == "")
      && (forall c :: c in width ==> IsWidth(c))
      && (zero && at == |s| ==> PastEnd(s)) && (zero && at < |s| ==> !IsWidth(s[at]))
  {
    if |s| > 1 && s[1] == '0' {
      var n := WidthRun(s[2..]);
      assert s[2..2 + n] == s[2..][..n];
      assert s[..2 + n] == "%0" + s[2..2 + n];
      if 2 + n == |s| {
        assert PastEndFrom(s, 0);
      } else {
        assert s[2 + n] == s[2..][n];
      }
    }
  }

  /** A directive letter after it makes a directive. */
  lemma DirectiveParts(s: string)
    requires |s| > 0 && s[0] == '%' && NUL !in s
    requires var (width, at) := PercentWidth(s); at < |s| && IsKind(s[at])
    ensures var zero, (width, at) := |s| > 1 && s[1] == '0', PercentWidth(s);
      var item := Directive(zero, width, KindOf(s[at]));
      Shape(item) && s[..at + 1] == Unparse(item)
  {
    PercentParts(s);
    hide PercentWidth, PastEnd;
    var (width, at) := PercentWidth(s);
    assert s[..at + 1] == s[..at] + [s[at]];
  }

  /** Any other character leaves the percent sign stray. */
  lemma StrayParts(s: string)
    requires |s| > 0 && s[0] == '%' && NUL !in s
    requires var zero, (width, at) := |s| > 1 && s[1] == '0', PercentWidth(s);
      !(zero && at == |s|) && !(at < |s| && IsKind(s[at]))
    ensures var zero, (width, at) := |s| > 1 && s[1] == '0', PercentWidth(s);
      var item := Stray(zero, width);
      at <= |s| && Shape(item) && s[..at] == Unparse(item) && Stops(item, First(s[at..]))
  {
    PercentParts(s);
    var zero := |s| > 1 && s[1] == '0';
    var (width, at) := PercentWidth(s);
    if at < |s| {
      assert s[at..][0] == s[at];
      assert s[at] in s;
    }
    assert !zero ==> at == 1;
  }

  lemma EmptyReading()
    ensures UnparseAll([]) == "" && Shaped([]) && Parse("") == Reads([])
  {
  }

  lemma BackslashShape(s: string)
    requires s == "\\"
    ensures Shape(LoneBackslash) && s[..1] == Unparse(LoneBackslash) && Follows(LoneBackslash, [])
  {
  }

  lemma EscapeShape(s: string)
    requires |s| > 1 && NUL !in s && s[0] == '\\'
    ensures Shape(Escape(s[1])) && s[..2] == Unparse(Escape(s[1])) && NUL !in s[2..]
  {
  }

  lemma LiteralShape(s: string)
    requires |s| > 0 && NUL !in s && s[0] != '\\' && s[0] != '%'
    ensures Shape(Literal(s[0])) && s[..1] == Unparse(Literal(s[0])) && NUL !in s[1..]
  {
  }

  /** How long the run of width characters at the front is, told from its end. */
  lemma {:induction false} WidthRunIs(width: string, tail: string)
    requires (forall c :: c in width ==> IsWidth(c)) && (|tail| > 0 ==> !IsWidth(tail[0]))
    ensures WidthRun(width + tail) == |width|
    decreases |width|
  {
    if |width| > 0 {
      WidthRunIs(width[1..], tail);
      assert (width + tail)[1..] == width[1..] + tail;
    } else {
      assert width + tail == tail;
    }
  }

  /** What reading sees at a percent sign: the width, and the character that decides. */
  lemma PercentFront(zero: bool, width: string, tail: string, s: string)
    requires s == "%" + (if zero then "0" else "") + width + tail && (!zero ==> width == "")
    requires forall c :: c in width ==> IsWidth(c)
    requires |tail| > 0 ==> if zero then !IsWidth(tail[0]) else tail[0] != '0'
    ensures var at := (if zero then 2 else 1) + |width|;
      && |s| == at + |tail| && s[0] == '%' && (zero <==> |s| > 1 && s[1] == '0') && s[at..] == tail
      && (zero ==> s[2..at] == width && WidthRun(s[2..]) == |width|)
  {
    if zero {
      assert s == "%0" + (width + tail);
      assert s[2..] == width + tail;
      WidthRunIs(width, tail);
    } else {
      assert s == "%" + tail;
    }
  }

  lemma ParseDirective(zero: bool, width: string, kind: Kind, tail: string)
    requires Shape(Directive(zero, width, kind))
    ensures Parse(Unparse(Directive(zero, width, kind)) + tail)
         == Prepend(Directive(zero, width, kind), Parse(tail))
  {
    var s, after := Unparse(Directive(zero, width, kind)) + tail, [KindChar(kind)] + tail;
    KindOfChar(kind);
    assert s == "%" + (if zero then "0" else "") + width + after;
    PercentFront(zero, width, after, s);
    hide Unparse, KindChar, KindOf, IsKind, WidthRun;
    var at := (if zero then 2 else 1) + |width|;
    assert s[at] == s[at..][0] == KindChar(kind);
    assert s[at + 1..] == s[at..][1..] == tail;
  }

  lemma ParseStray(zero: bool, width: string, tail: string)
    requires Shape(Stray(zero, width)) && Stops(Stray(zero, width), First(tail))
    ensures Parse(Unparse(Stray(zero, width)) + tail) == Prepend(Stray(zero, width), Parse(tail))
  {
    var s := Unparse(Stray(zero, width)) + tail;
    PercentFront(zero, width, tail, s);
    hide Unparse, IsKind, WidthRun;
    var at := (if zero then 2 else 1) + |width|;
    if |tail| > 0 { assert s[at] == s[at..][0] == tail[0]; }
  }

  /** An item in front of what may follow it is read as that item. */
  lemma ParseFront(item: Item, tail: string)
    requires Shape(item) && (item.Stray? ==> Stops(item, First(tail))) && (item.LoneBackslash? ==> tail == "")
    ensures Parse(Unparse(item) + tail) == Prepend(item, Parse(tail))
  {
    match item
    case Literal(c) =>
      assert ([c] + tail)[1..] == tail;
    case Escape(c) =>
      assert (['\\', c] + tail)[2..] == tail;
    case LoneBackslash =>
      assert Unparse(item) + tail == "\\";
    case Directive(zero, width, kind) =>
      ParseDirective(zero, width, kind, tail);
    case Stray(zero, width) =>
      ParseStray(zero, width, tail);
  }

  /** Reading a string that starts with a percent sign. */
  lemma ParsePercent(s: string)
    requires |s| > 0 && s[0] == '%'
    ensures var zero, (width, at) := |s| > 1 && s[1] == '0', PercentWidth(s);
      Parse(s) == if zero && at == |s| then RunsPast
                  else if at < |s| && IsKind(s[at]) then
                    Prepend(Directive(zero, width, KindOf(s[at])), Parse(s[at + 1..]))
                  else Prepend(Stray(zero, width), Parse(s[at..]))
  {
    hide Prepend, KindOf, IsKind, WidthRun;
  }

  lemma ParsePlain(s: string)
    requires |s| > 0 && s[0] != '%'
    ensures Parse(s) == if s[0] != '\\' then Prepend(Literal(s[0]), Parse(s[1..]))
                        else if |s| == 1 then Reads([LoneBackslash]) else Prepend(Escape(s[1]), Parse(s[2..]))
  {
    hide Prepend;
  }

  /** Reading is total and undone by printing: every string without NUL is read as items that print as the
      string, unless some width runs past its end. */
  lemma {:induction false} ParseUnparse(s: string)
    requires NUL !in s
    ensures match Parse(s)
            case Reads(items) => UnparseAll(items) == s && Shaped(items)
            case RunsPast => PastEnd(s)
    decreases |s|
  {
    EmptyReading();
    hide PastEnd, Shaped, UnparseAll, Shape, Unparse, Parse, PercentWidth, KindOf, IsKind, Stops;
    if |s| == 0 {
    } else if s[0] == '\\' {
      ParsePlain(s);
      if |s| == 1 {
        assert s[1..] == "";
        BackslashShape(s);
        ReadsAs(s, LoneBackslash, 1);
      } else {
        EscapeShape(s);
        ParseUnparse(s[2..]);
        ReadsAs(s, Escape(s[1]), 2);
      }
    } else if s[0] == '%' {
      var zero := |s| > 1 && s[1] == '0';
      var (width, at) := PercentWidth(s);
      PercentParts(s);
      ParsePercent(s);
      if at < |s| && IsKind(s[at]) {
        DirectiveParts(s);
        ParseUnparse(s[at + 1..]);
        ReadsAs(s, Directive(zero, width, KindOf(s[at])), at + 1);
      } else if !(zero && at == |s|) {
        StrayParts(s);
        ParseUnparse(s[at..]);
        ReadsAs(s, Stray(zero, width), at);
      }
    } else {
      ParsePlain(s);
      LiteralShape(s);
      ParseUnparse(s[1..]);
      ReadsAs(s, Literal(s[0]), 1);
    }
  }

  /** Printing is undone by reading, so each string has one reading. */
  lemma {:induction false} UnparseParse(items: seq<Item>)
    requires Shaped(items)
    ensures Parse(UnparseAll(items)) == Reads(items)
    decreases items
  {
    if |items| > 0 {
      var item, rest := items[0], items[1..];
      UnparseParse(rest);
      assert items == [item] + rest;
      ParseFront(item, UnparseAll(rest));
    }
  }

  // ---------------------------------------------------------------- the meaning

  ghost predicate WellFormed(item: Item) {
    Shape(item) && (item.Directive? && item.kind in {AsHex, AsDecimal} ==> ParsedWidth(item.width) <= NIBBLES)
  }

  predicate IsInt(d: int) { -0x8000_0000 <= d < 0x8000_0000 }

  ghost predicate Suits(item: Item, arg: Arg) {
    item.Directive? && if item.kind == AsString then arg.StringArg? && NUL !in arg.s else arg.IntArg? && IsInt(arg.d)
  }

  /** Every item is well formed and every directive has its argument, in order. */
  ghost predicate Matches(items: seq<Item>, args: seq<Arg>) {
    if |items| == 0 then true
    else if items[0].Directive? then
      WellFormed(items[0]) && |args| > 0 && Suits(items[0], args[0]) && Matches(items[1..], args[1..])
    else WellFormed(items[0]) && Follows(items[0], items[1..]) && Matches(items[1..], args)
  }

  /** The 64-bit number an int stands for when printed in base 16. */
  function Unsigned(d: int): nat
    requires IsInt(d)
  {
    if d >= 0 then d else 0x1_0000_0000_0000_0000 + d
  }

  /** (char) of an int argument. */
  function LowByte(d: int): char { (d % 256) as char }

  ghost function Render(item: Item, arg: Arg): string
    requires WellFormed(item) && Suits(item, arg)
  {
    match item.kind
    case AsString => arg.s
    case AsHex => Padded(Numeral(arg.d, 16), ParsedWidth(item.width))
    case AsDecimal => Padded(Numeral(arg.d, 10), ParsedWidth(item.width))
    case AsChar => [LowByte(arg.d)]
  }

  /** What the other items send: themselves, or the last character of a stray percent sign. */
  function SentText(item: Item): string
    requires !item.Directive?
  {
    match item
    case Literal(c) => [c]
    case Escape(c) => [c]
    case Stray(zero, width) => [if |width| > 0 then width[|width| - 1] else if zero then '0' else '%']
    case LoneBackslash => ""
  }

  /** The meaning of a format: literals and escaped characters stand for themselves, directives for
      their arguments, consumed once and in order. */
  ghost function RenderAll(items: seq<Item>, args: seq<Arg>): string
    requires Matches(items, args)
  {
    if |items| == 0 then ""
    else if items[0].Directive? then Render(items[0], args[0]) + RenderAll(items[1..], args[1..])
    else SentText(items[0]) + RenderAll(items[1..], args)
  }

  /** What a directive adds to the returned count. */
  ghost function Counted(item: Item, arg: Arg): nat
    requires WellFormed(item) && Suits(item, arg)
  {
    match item.kind
    case AsString => |arg.s|
    case AsHex => 4 + ParsedWidth(item.width)
    case AsDecimal => 4 + ParsedWidth(item.width)
    case AsChar => 1
  }

  ghost function CountedAll(items: seq<Item>, args: seq<Arg>): nat
    requires Matches(items, args)
  {
    if |items| == 0 then 0
    else if items[0].Directive? then Counted(items[0], args[0]) + CountedAll(items[1..], args[1..])
    else (if items[0].Literal? || items[0].Stray? then 1 else 0) + CountedAll(items[1..], args)
  }

  /** The closing NUL counts as a character sent, unless a lone backslash escapes it. */
  function Closing(items: seq<Item>): nat {
    if |items| > 0 && items[|items| - 1].LoneBackslash? then 0 else 1
  }

  // ---------------------------------------------------------------- the returned count

  /** The number of characters a directive sends. */
  lemma SentLength(item: Item, arg: Arg)
    requires WellFormed(item) && Suits(item, arg)
    ensures var w := ParsedWidth(item.width);
      |Render(item, arg)| == match item.kind
                             case AsString => |arg.s|
                             case AsChar => 1
                             case AsHex => Max(w, MinDigits(16, Unsigned(arg.d)))
                             case AsDecimal => Max(w, MinDigits(10, ShownValue(arg.d)))
  {
    hide Numeral, MinDigits, Padded, ShownValue;
    if item.kind == AsHex { PaddedHexExact(arg.d, ParsedWidth(item.width)); }
    if item.kind == AsDecimal { PaddedDecExact(arg.d, ParsedWidth(item.width)); }
  }

  /** A string or a character is counted as it is sent.  A number is counted as four plus its width,
      which is right exactly when it has that many width. */
  lemma CountedIsSent(item: Item, arg: Arg)
    requires WellFormed(item) && Suits(item, arg)
    ensures item.kind in {AsString, AsChar} ==> Counted(item, arg) == |Render(item, arg)|
    ensures item.kind == AsHex ==>
      (Counted(item, arg) == |Render(item, arg)|
       <==> MinDigits(16, Unsigned(arg.d)) == 4 + ParsedWidth(item.width))
    ensures item.kind == AsDecimal ==>
      (Counted(item, arg) == |Render(item, arg)|
       <==> MinDigits(10, ShownValue(arg.d)) == 4 + ParsedWidth(item.width))
  {
    hide Numeral, MinDigits, Padded, ShownValue, Render;
    SentLength(item, arg);
  }

  /** How much more an item counts than it sends: escaped characters count nothing. */
  ghost function Surplus(items: seq<Item>, args: seq<Arg>): int
    requires Matches(items, args)
  {
    if |items| == 0 then 0
    else if items[0].Directive? then
      var w := ParsedWidth(items[0].width);
      Surplus(items[1..], args[1..]) + match items[0].kind
                                       case AsString => 0
                                       case AsChar => 0
                                       case AsHex => 4 + w - Max(w, MinDigits(16, Unsigned(args[0].d)))
                                       case AsDecimal => 4 + w - Max(w, MinDigits(10, ShownValue(args[0].d)))
    else Surplus(items[1..], args) - (if items[0].Escape? then 1 else 0)
  }

  /** The count returned is the number of characters sent exactly when the surpluses cancel. */
  lemma {:induction false} CountedAllIsSent(items: seq<Item>, args: seq<Arg>)
    requires Matches(items, args)
    ensures CountedAll(items, args) == |RenderAll(items, args)| + Surplus(items, args)
    decreases items
  {
    hide Numeral, MinDigits, Padded, ShownValue;
    if |items| > 0 {
      if items[0].Directive? {
        SentLength(items[0], args[0]);
        CountedAllIsSent(items[1..], args[1..]);
      } else {
        CountedAllIsSent(items[1..], args);
      }
    }
  }

  // ---------------------------------------------------------------- the letters

  /** Which characters mean what. */
  lemma Letters(c: char)
    ensures Parse("%s") == Reads([Directive(false, "", AsString)])
    ensures Parse("%x") == Reads([Directive(false, "", AsHex)])
    ensures Parse("%d") == Reads([Directive(false, "", AsDecimal)])
    ensures Parse("%c") == Reads([Directive(false, "", AsChar)])
    ensures c != 's' && c != 'x' && c != 'd' && c != 'c' && c != '0' && c != '\\' && c != '%' ==>
      Parse(['%', c]) == Reads([Stray(false, ""), Literal(c)])
    ensures Parse(['\\', c]) == Reads([Escape(c)])
    ensures c != '\\' && c != '%' ==> Parse([c]) == Reads([Literal(c)])
  {
    assert Parse("") == Reads([]);
    assert "%s"[2..] == "%x"[2..] == "%d"[2..] == "%c"[2..] == "";
    assert [c][1..] == "" && ['%', c][1..] == [c] && ['\\', c][2..] == "";
    assert PercentWidth("%s") == PercentWidth("%x") == PercentWidth("%d") == PercentWidth("%c") == ("", 1);
  }

  /** A zero flag, width characters and a letter. */
  lemma ZeroDirective(width: string, c: char)
    requires (forall w :: w in width ==> IsWidth(w)) && IsKind(c)
    ensures Parse("%0" + width + [c]) == Reads([Directive(true, width, KindOf(c))])
  {
    var item := Directive(true, width, KindOf(c));
    assert Unparse(item) + "" == "%0" + width + [c];
    ParseFront(item, "");
    assert Parse("") == Reads([]);
  }

  /** What each letter sends for its argument: the string; the hexadecimal or decimal numeral, as many digits
      as it has or the width asks for; the character with the code d modulo 256. */
  lemma LettersSend(item: Item, arg: Arg)
    requires WellFormed(item) && Suits(item, arg)
    ensures item.kind == AsString ==> Render(item, arg) == arg.s
    ensures item.kind == AsHex ==>
      var out := Render(item, arg);
      && (forall c :: c in out ==> IsHex(c)) && HexValue(out) == Unsigned(arg.d)
      && |out| == Max(ParsedWidth(item.width), MinDigits(16, Unsigned(arg.d)))
    ensures item.kind == AsDecimal ==>
      var out := Render(item, arg);
      && (forall c :: c in out ==> IsDec(c)) && DecValue(out) == ShownValue(arg.d)
      && |out| == Max(ParsedWidth(item.width), MinDigits(10, ShownValue(arg.d)))
    ensures item.kind == AsChar ==>
      |Render(item, arg)| == 1 && exists k: int :: arg.d == Render(item, arg)[0] as int + k * 256
  {
    hide Numeral, MinDigits, Padded, ShownValue;
    if item.kind == AsHex { PaddedHexExact(arg.d, ParsedWidth(item.width)); }
    if item.kind == AsDecimal { PaddedDecExact(arg.d, ParsedWidth(item.width)); }
    if item.kind == AsChar { assert arg.d == LowByte(arg.d) as int + (arg.d / 256) * 256; }
  }

  /** Any other item sends its last character, except a lone backslash. */
  lemma SentIsLast(item: Item)
    requires Shape(item) && !item.Directive?
    ensures SentText(item) == if item.LoneBackslash? then "" else Unparse(item)[|Unparse(item)| - 1..]
  {
  }

  /** The width in numbers: a character weighs the low four bits of its code, ten times that before another. */
  lemma {:induction false} WidthInNumbers(u: string, v: string, c: char)
    ensures ParsedWidth([c]) == c as int % 16 && ParsedWidth([c, '0']) == 10 * (c as int % 16)
    ensures |v| > 0 ==> ParsedWidth(u + v) == ParsedWidth(u + "0") + ParsedWidth(v)
  {
    assert [c][1..] == "" && [c, '0'][1..] == "0" && ParsedWidth("0") == 0;
    if |u| == 0 {
      assert u + v == v && u + "0" == "0";
    } else {
      WidthInNumbers(u[1..], v, c);
      assert (u + v)[1..] == u[1..] + v && (u + "0")[1..] == u[1..] + "0";
    }
  }

  // ---------------------------------------------------------------- the interpreter

  /** The character at p; a C string ends with NUL. */
  function At(format: string, p: nat): char
    requires p <= |format|
  {
    if p < |format| then format[p] else NUL
  }

  lemma WidthAt(format: string, start: nat, width: string, p: nat)
    requires (forall c :: c in width ==> IsWidth(c)) && start <= p < start + |width| <= |format|
    requires format[start..start + |width|] == width
    ensures format[p] == width[p - start] && NotAboveNine(format[p])
  {
    assert IsWidth(width[p - start]);
  }

  /** The width loop. */
  method ParseWidth(format: string, start: nat, ghost width: string) returns (p: nat, lc: nat)
    requires forall c :: c in width ==> IsWidth(c)
    requires start + |width| < |format| && format[start..start + |width|] == width
    requires !NotAboveNine(format[start + |width|])
    ensures p == start + |width| && lc == ParsedWidth(width)
  {
    p := start;
    lc := 0;
    while NotAboveNine(At(format, p))
      invariant start <= p <= start + |width|
      invariant lc + ParsedWidth(width[p - start..]) == ParsedWidth(width)
      decreases |format| - p
    {
      assert p < start + |width| && format[p] == width[p - start];
      if p + 1 < start + |width| { WidthAt(format, start, width, p + 1); }
      assert width[p - start..][1..] == width[p + 1 - start..];
      if NotAboveNine(At(format, p + 1)) {
        lc := lc + 10 * (format[p] as int % 16);
      } else {
        lc := lc + format[p] as int % 16;
      }
      p := p + 1;
    }
    if p < start + |width| { WidthAt(format, start, width, p); }
  }

  lemma SplitFormat(format: string, p: nat, u: string, tail: string)
    requires p <= |format| && format[p..] == u + tail
    ensures p + |u| <= |format| && format[p..p + |u|] == u && format[p + |u|..] == tail
    ensures forall i :: 0 <= i < |u| ==> format[p + i] == u[i]
  {
  }

  lemma PercentShape(item: Item)
    requires IsPercent(item) && (!item.zero ==> item.width == "")
    ensures var u, n := Unparse(item), |item.width|;
      && |u| == (if item.zero then 2 else 1) + n + (if item.Directive? then 1 else 0)
      && u[|u| - 1] == (if item.Directive? then KindChar(item.kind) else SentText(item)[0])
      && (1 < |u| ==> (item.zero <==> u[1] == '0')) && (item.zero ==> u[2..2 + n] == item.width)
  {
    var u, tail := Unparse(item), item.width + (if item.Directive? then [KindChar(item.kind)] else []);
    if item.zero {
      assert u == "%0" + tail;
      assert u[2..] == tail;
    } else {
      assert u == "%" + tail;
    }
  }

  lemma SliceOfSlice(format: string, at: nat, u: string, a: nat, b: nat)
    requires at + |u| <= |format| && format[at..at + |u|] == u && a <= b <= |u|
    ensures format[at + a..at + b] == u[a..b]
  {
    var t, part := format[at..at + |u|], format[at + a..at + b];
    forall i | 0 <= i < b - a ensures part[i] == u[a..b][i] {
      assert t[a + i] == format[at + (a + i)];
    }
  }

  lemma PercentInFormat(format: string, at: nat, item: Item)
    requires WellFormed(item) && IsPercent(item)
    requires at + |Unparse(item)| <= |format| && format[at..at + |Unparse(item)|] == Unparse(item)
    requires item.Stray? ==> Stops(item, At(format, at + |Unparse(item)|))
    ensures |Unparse(item)| == (if item.zero then 2 else 1) + |item.width| + (if item.Directive? then 1 else 0)
    ensures format[at + |Unparse(item)| - 1] == if item.Directive? then KindChar(item.kind) else SentText(item)[0]
    ensures item.zero <==> At(format, at + 1) == '0'
    ensures item.zero ==> format[at + 2..at + 2 + |item.width|] == item.width
  {
    PercentShape(item);
    hide Unparse;
    var u, n := Unparse(item), |item.width|;
    SplitFormat(format[..at + |u|], at, u, "");
    if item.zero { SliceOfSlice(format, at, u, 2, 2 + n); }
  }

  /** From the percent sign on: the position of the item's last character, the characters sent, the
      amount counted and the arguments left. */
  method FormatDirective(format: string, at: nat, ap: seq<Arg>, ghost item: Item)
    returns (p: nat, out: string, counted: nat, left: seq<Arg>)
    requires WellFormed(item) && IsPercent(item)
    requires at + |Unparse(item)| <= |format| && format[at..at + |Unparse(item)|] == Unparse(item)
    requires item.Directive? ==> |ap| > 0 && Suits(item, ap[0])
    requires item.Stray? ==> Stops(item, At(format, at + |Unparse(item)|))
    ensures p == at + |Unparse(item)| - 1
    ensures item.Directive? ==> out == Render(item, ap[0]) && counted == Counted(item, ap[0]) && left == ap[1..]
    ensures item.Stray? ==> out == SentText(item) && counted == 1 && left == ap
  {
    hide Padded, Numeral, Unparse;
    PercentInFormat(format, at, item);
    p := at + 1;
    var lc := 0;
    if At(format, p) == '0' {
      p := p + 1;
      p, lc := ParseWidth(format, p, item.width);
    }
    var c := At(format, p);
    if c == 's' {
      out, counted, left := ap[0].s, |ap[0].s|, ap[1..];
    } else if c == 'x' || c == 'd' {
      var printed := BPutInt(lc, ap[0].d, if c == 'x' then 16 else 10);
      out, counted, left := printed.text, 4 + lc, ap[1..];
    } else if c == 'c' {
      out, counted, left := [LowByte(ap[0].d)], 1, ap[1..];
    } else {
      p := p - 1;
      out, counted, left := [format[p]], 1, ap;
    }
  }

  /** The first character tells what kind of item it is. */
  lemma ItemStarts(item: Item)
    requires WellFormed(item)
    ensures |Unparse(item)| > 0 && var c := Unparse(item)[0];
      && c != NUL && (c == '\\' <==> item.Escape? || item.LoneBackslash?) && (c == '%' <==> IsPercent(item))
    ensures item.Literal? ==> Unparse(item) == [item.c]
    ensures item.Escape? ==> Unparse(item)[1..] == [item.c]
  {
  }

  lemma HeadOfSplit(format: string, p: nat, u: string, tail: string)
    requires p <= |format| && format[p..] == u + tail && |u| > 0
    ensures p < |format| && format[p] == u[0] && format[p + 1..] == u[1..] + tail
  {
    assert format[p] == format[p..][0];
    assert format[p + 1..] == format[p..][1..];
  }

  /** The item found at position p, and what follows it. */
  lemma FoundItem(format: string, p: nat, rest: seq<Item>, ap: seq<Arg>)
    requires p <= |format| && format[p..] == UnparseAll(rest) && Matches(rest, ap)
    ensures |rest| == 0 <==> p == |format|
    ensures |rest| > 0 ==>
      var u := Unparse(rest[0]);
      && WellFormed(rest[0]) && format[p..] == u + UnparseAll(rest[1..]) && |u| > 0 && format[p] == u[0]
      && format[p + 1..] == u[1..] + UnparseAll(rest[1..])
  {
    if |rest| > 0 {
      ItemStarts(rest[0]);
      hide Unparse;
      assert format[p..] == Unparse(rest[0]) + UnparseAll(rest[1..]);
      hide UnparseAll, Matches, WellFormed;
      HeadOfSplit(format, p, Unparse(rest[0]), UnparseAll(rest[1..]));
    }
  }

  lemma SentLiteral(out: string, format: string, p: nat, rest: seq<Item>, ap: seq<Arg>)
    requires p <= |format| && format[p..] == UnparseAll(rest) && Matches(rest, ap)
    requires At(format, p) != '\\' && At(format, p) != '%'
    ensures |rest| == 0 <==> At(format, p) == NUL
    ensures |rest| == 0 ==> p == |format| && RenderAll(rest, ap) == "" && CountedAll(rest, ap) == 0
    ensures |rest| > 0 ==>
      && rest[0] == Literal(format[p]) && Matches(rest[1..], ap)
      && format[p + 1..] == UnparseAll(rest[1..])
      && out + RenderAll(rest, ap) == (out + [format[p]]) + RenderAll(rest[1..], ap)
      && CountedAll(rest, ap) == 1 + CountedAll(rest[1..], ap)
  {
    FoundItem(format, p, rest, ap);
    if |rest| > 0 {
      ItemStarts(rest[0]);
      hide Unparse, UnparseAll;
      assert rest[0].Literal?;
    }
  }

  /** A backslash in front of the character it escapes, or at the end. */
  ghost predicate AfterBackslash(format: string, p: nat, rest: seq<Item>) {
    && p <= |format| && |rest| > 0
    && (rest[0].Escape? || (rest[0].LoneBackslash? && |rest| == 1))
    && format[p..] == (if rest[0].Escape? then [rest[0].c] else "") + UnparseAll(rest[1..])
  }

  lemma FoundEscape(format: string, p: nat, rest: seq<Item>, ap: seq<Arg>)
    requires p < |format| && format[p..] == UnparseAll(rest) && Matches(rest, ap) && format[p] == '\\'
    ensures AfterBackslash(format, p + 1, rest)
  {
    FoundItem(format, p, rest, ap);
    ItemStarts(rest[0]);
  }

  lemma EscapeMeaning(out: string, rest: seq<Item>, ap: seq<Arg>)
    requires |rest| > 0 && rest[0].Escape? && Matches(rest, ap)
    ensures rest[0].c != NUL && Matches(rest[1..], ap)
    ensures out + RenderAll(rest, ap) == (out + [rest[0].c]) + RenderAll(rest[1..], ap)
    ensures CountedAll(rest, ap) == CountedAll(rest[1..], ap)
  {
    hide UnparseAll;
  }

  lemma BackslashMeaning(rest: seq<Item>, ap: seq<Arg>)
    requires |rest| == 1 && rest[0].LoneBackslash? && Matches(rest, ap)
    ensures UnparseAll(rest[1..]) == "" && RenderAll(rest, ap) == "" && CountedAll(rest, ap) == 0
    ensures Closing(rest) == 0
  {
    assert rest[1..] == [];
  }

  /** The escaped character is sent and not counted; at the end of the string it is the NUL. */
  lemma SentEscaped(out: string, format: string, p: nat, rest: seq<Item>, ap: seq<Arg>)
    requires AfterBackslash(format, p, rest) && Matches(rest, ap)
    ensures |rest| > 0 && (rest[0].Escape? || rest[0].LoneBackslash?)
    ensures rest[0].Escape? ==>
      && p < |format| && format[p] == rest[0].c != NUL && Matches(rest[1..], ap)
      && format[p + 1..] == UnparseAll(rest[1..])
      && out + RenderAll(rest, ap) == (out + [format[p]]) + RenderAll(rest[1..], ap)
      && CountedAll(rest, ap) == CountedAll(rest[1..], ap)
    ensures rest[0].LoneBackslash? ==>
      p == |format| && RenderAll(rest, ap) == "" && CountedAll(rest, ap) == 0 && Closing(rest) == 0
  {
    hide RenderAll, CountedAll, Matches, UnparseAll, Closing;
    if rest[0].Escape? {
      HeadOfSplit(format, p, [rest[0].c], UnparseAll(rest[1..]));
      EscapeMeaning(out, rest, ap);
    } else {
      BackslashMeaning(rest, ap);
    }
  }

  lemma AroundSplit(format: string, p: nat, u: string, tail: string)
    requires p <= |format| && format[p..] == u + tail && |u| > 0
    ensures p + |u| <= |format| && format[p..p + |u|] == u && format[p + |u|..] == tail
    ensures format[p + |u| - 1] == u[|u| - 1] && At(format, p + |u|) == First(tail)
  {
    SplitFormat(format, p, u, tail);
    assert format[p + (|u| - 1)] == u[|u| - 1];
    if |tail| > 0 { assert format[p + |u|] == format[p + |u|..][0]; }
  }

  lemma LastNotNul(item: Item)
    requires WellFormed(item) && IsPercent(item)
    ensures |Unparse(item)| > 0 && Unparse(item)[|Unparse(item)| - 1] != NUL
  {
    PercentShape(item);
    if item.Stray? && |item.width| > 0 { assert IsWidth(item.width[|item.width| - 1]); }
  }

  lemma FoundPercent(format: string, p: nat, rest: seq<Item>, ap: seq<Arg>)
    requires p < |format| && format[p..] == UnparseAll(rest) && Matches(rest, ap) && format[p] == '%'
    ensures |rest| > 0 && WellFormed(rest[0]) && IsPercent(rest[0])
    ensures var u := Unparse(rest[0]);
      format[p..] == u + UnparseAll(rest[1..]) && |u| > 0 && u[|u| - 1] != NUL
  {
    FoundItem(format, p, rest, ap);
    ItemStarts(rest[0]);
    hide Unparse, UnparseAll;
    LastNotNul(rest[0]);
  }

  lemma DirectiveMeaning(out: string, rest: seq<Item>, ap: seq<Arg>)
    requires |rest| > 0 && rest[0].Directive? && Matches(rest, ap)
    ensures |ap| > 0 && WellFormed(rest[0]) && Suits(rest[0], ap[0]) && Matches(rest[1..], ap[1..])
    ensures out + RenderAll(rest, ap) == (out + Render(rest[0], ap[0])) + RenderAll(rest[1..], ap[1..])
    ensures CountedAll(rest, ap) == Counted(rest[0], ap[0]) + CountedAll(rest[1..], ap[1..])
  {
    hide Render, Counted, UnparseAll, Stops, WellFormed, Suits;
  }

  lemma StrayMeaning(out: string, rest: seq<Item>, ap: seq<Arg>)
    requires |rest| > 0 && rest[0].Stray? && Matches(rest, ap)
    ensures Stops(rest[0], First(UnparseAll(rest[1..]))) && Matches(rest[1..], ap)
    ensures out + RenderAll(rest, ap) == (out + SentText(rest[0])) + RenderAll(rest[1..], ap)
    ensures CountedAll(rest, ap) == 1 + CountedAll(rest[1..], ap)
  {
    hide UnparseAll, Stops, WellFormed, SentText;
  }

  /** vfblogf sends the meaning of the format and then one NUL. */
  method Vfblogf(enabled: bool, format: string, args: seq<Arg>, ghost items: seq<Item>)
    returns (out: string, written: nat)
    requires format == UnparseAll(items) && Matches(items, args)
    ensures enabled ==>
      && out == RenderAll(items, args) + [NUL]
      && written == CountedAll(items, args)
                    + (if |items| > 0 && items[|items| - 1].LoneBackslash? then 0 else 1)
    ensures !enabled ==> out == "" && written == 0
  {
    hide UnparseAll, Unparse, RenderAll, CountedAll, Render, Counted, WellFormed, Suits, Matches, AfterBackslash;
    out, written := "", 0;
    if !enabled {
      return;
    }
    var p, ap, escaped := 0, args, false;
    ghost var rest := items;
    while true
      invariant p <= |format| && Matches(rest, ap)
      invariant !escaped ==> format[p..] == UnparseAll(rest)
      invariant escaped ==> AfterBackslash(format, p, rest)
      invariant Closing(rest) == Closing(items)
      invariant out + RenderAll(rest, ap) == RenderAll(items, args)
      invariant written + CountedAll(rest, ap) == CountedAll(items, args)
      decreases |format| - p
    {
      if escaped {
        SentEscaped(out, format, p, rest, ap);
        out := out + [At(format, p)];
        escaped := false;
        if rest[0].Escape? { rest := rest[1..]; }
      } else if At(format, p) == '\\' {
        FoundEscape(format, p, rest, ap);
        escaped := true;
      } else if At(format, p) == '%' {
        FoundPercent(format, p, rest, ap);
        AroundSplit(format, p, Unparse(rest[0]), UnparseAll(rest[1..]));
        if rest[0].Directive? { DirectiveMeaning(out, rest, ap); } else { StrayMeaning(out, rest, ap); }
        var q, sent, counted, left := FormatDirective(format, p, ap, rest[0]);
        p, ap := q, left;
        out, written := out + sent, written + counted;
        rest := rest[1..];
      } else {
        SentLiteral(out, format, p, rest, ap);
        out, written := out + [At(format, p)], written + 1;
        if |rest| > 0 { rest := rest[1..]; }
      }
      if At(format, p) == NUL {
        break;
      }
      p := p + 1;
    }
  }

  // ---------------------------------------------------------------- digits

  function DecimalWidth(digits: string): nat
    requires forall c :: c in digits ==> IsDec(c)
  {
    if |digits| == 0 then 0 else DecCharValue(digits[0]) * Pow(10, |digits| - 1) + DecimalWidth(digits[1..])
  }

  lemma PowAtLeast100(n: nat)
    requires 2 <= n
    ensures 100 <= Pow(10, n)
  {
  }

  lemma TensCount(d: nat, rest: nat, value: nat, p: nat)
    requires 100 <= p && rest <= value
    ensures 10 * d + rest <= d * p + value
    ensures 10 * d + rest == d * p + value <==> d == 0 && rest == value
  {
    MulLe(100, p, d);
  }

  /** The digits means what its digits say exactly when all but the last two digits are zeros. */
  lemma {:induction false} WidthExact(digits: string)
    requires forall c :: c in digits ==> IsDec(c)
    ensures ParsedWidth(digits) <= DecimalWidth(digits)
    ensures ParsedWidth(digits) == DecimalWidth(digits) <==> forall i :: 0 <= i < |digits| - 2 ==> digits[i] == '0'
  {
    if 0 < |digits| {
      var d, rest := DecCharValue(digits[0]), digits[1..];
      WidthExact(rest);
      if 2 < |digits| {
        PowAtLeast100(|digits| - 1);
        TensCount(d, ParsedWidth(rest), DecimalWidth(rest), Pow(10, |digits| - 1));
        hide Pow;
        assert forall i :: 0 <= i < |rest| - 2 ==> rest[i] == digits[i + 1];
        assert forall i :: 0 < i < |digits| - 2 ==> digits[i] == rest[i - 1];
      } else if |digits| == 2 {
        assert Pow(10, 1) == 10 && rest[1..] == "";
      }
    }
  }
}
