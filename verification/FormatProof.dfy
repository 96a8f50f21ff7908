/** Reading back what was spelled, and the meaning of whole format strings. */
module FormatProof {
  import opened Bytes
  import opened OutputGadget
  import opened Digits
  import opened IntegerText
  import opened IntegerOutput
  import opened FormatParse
  import opened FormatMeaning

  /** A format of the grammar is a C string. */
  lemma {:induction false} SpelledIsCString(items: seq<Item>)
    requires AllItems(items)
    ensures NUL !in SpellAll(items)
  {
    if items != [] {
      SpelledIsCString(items[1..]);
      SpellNoNul(items[0]);
      hide Spell;
    }
  }

  lemma SpellNoNul(i: Item)
    requires IsItem(i)
    ensures NUL !in Spell(i)
  {
    if i.Conversion? {
      if i.width.Width? {
        DecimalNoNul(i.width.n);
      }
      if i.precision.Precision? {
        DecimalNoNul(i.precision.n);
      }
      hide Decimal;
      assert NUL !in i.flags && NUL !in SpellWidth(i.width) && NUL !in SpellPrecision(i.precision);
      assert NUL !in SpellLength(i.length) && NUL !in [i.letter];
      hide SpellWidth, SpellPrecision, SpellLength;
    }
  }

  lemma DecimalNoNul(n: nat)
    ensures NUL !in Decimal(n)
  {
    if n > 0 {
      NumeralDigits(n, 10, false);
      var r := RevDigits(n, 10, false);
      hide RevDigits, DigitChar;
      forall k | 0 <= k < |r|
        ensures Reverse(r)[k] != NUL
      {
        assert IsDigit(r[|r| - 1 - k], 10, false);
      }
    }
  }

  // ----- Numbers

  lemma Associate(a: string, b: string, c: string)
    ensures (a + b) + c == a + (b + c)
  {
  }

  /** The numeral of a number is that of its front digits and its last digit. */
  lemma NumeralStep(n: uint16, rest: string)
    requires n > 0
    ensures Reverse(RevDigits(n, 10, false)) + rest
         == Reverse(RevDigits(n / 10, 10, false)) + ([DigitChar(n % 10, false)] + rest)
  {
    var d := DigitChar(n % 10, false);
    ReverseConcat([d], RevDigits(n / 10, 10, false));
    assert Reverse([d]) == [d];
    hide RevDigits, Reverse, DigitChar;
    Associate(Reverse(RevDigits(n / 10, 10, false)), [d], rest);
  }

  lemma ScanStep(n: uint16, d: nat, rest: string)
    requires d < 10
    ensures ScanNumber([DigitChar(d, false)] + rest, n) == ScanNumber(rest, (n * 10 + d) % 0x1_0000)
  {
    assert ([DigitChar(d, false)] + rest)[1..] == rest;
  }

  /** `atou_` reads the decimal numeral of a 16-bit number back, whatever follows it. */
  lemma {:induction false} ScanReadsNumeral(n: uint16, rest: string)
    ensures ScanNumber(Reverse(RevDigits(n, 10, false)) + rest, 0) == ScanNumber(rest, n)
    decreases n
  {
    if n == 0 {
      assert Reverse(RevDigits(n, 10, false)) + rest == rest;
    } else {
      hide RevDigits, Reverse, DigitChar, ScanNumber;
      var q, d := n / 10, n % 10;
      assert q * 10 + d == n && q < n;
      NumeralStep(n, rest);
      ScanReadsNumeral(q, [DigitChar(d, false)] + rest);
      ScanStep(q, d, rest);
    }
  }

  lemma ScanReadsDecimal(n: uint16, rest: string)
    requires !IsDecimal(Head(rest))
    ensures ScanNumber(Decimal(n) + rest, 0) == (n, rest)
  {
    if n == 0 {
      assert ("0" + rest)[1..] == rest;
    } else {
      ScanReadsNumeral(n, rest);
    }
  }

  /** A numeral begins with a digit, and with `0` only if it is zero. */
  lemma DecimalBegins(n: uint16)
    ensures Decimal(n) != "" && IsDecimal(Decimal(n)[0]) && (n > 0 ==> Decimal(n)[0] != '0')
  {
    if n > 0 {
      NumeralDigits(n, 10, false);
      var r := RevDigits(n, 10, false);
      assert IsDigit(r[|r| - 1], 10, false);
    }
  }

  // ----- Flags

  function AddFlags(f: Flags, flags: string): Flags
    decreases |flags|
  {
    if flags == "" then f else AddFlags(AddFlag(f, flags[0]), flags[1..])
  }

  lemma {:induction false} FlagsScan(flags: string, rest: string, f: Flags)
    requires forall k :: 0 <= k < |flags| ==> IsFlag(flags[k])
    requires rest != "" && !IsFlag(rest[0])
    ensures ParseFlags(flags + rest, f) == (AddFlags(f, flags), rest)
  {
    if flags == "" {
      assert flags + rest == rest;
    } else {
      FlagsScan(flags[1..], rest, AddFlag(f, flags[0]));
      assert (flags + rest)[1..] == flags[1..] + rest;
    }
  }

  /** `f` and the flags that are set in the arguments. */
  function WithFlags(f: Flags, zero: bool, left: bool, plus: bool, space: bool, hash: bool): Flags {
    f.(zeropad := f.zeropad || zero, left := f.left || left, plus := f.plus || plus,
       space := f.space || space, hash := f.hash || hash)
  }

  lemma FlagFirst(f: Flags, c: char, zero: bool, left: bool, plus: bool, space: bool, hash: bool)
    requires IsFlag(c)
    ensures WithFlags(AddFlag(f, c), zero, left, plus, space, hash)
         == WithFlags(f, c == '0' || zero, c == '-' || left, c == '+' || plus, c == ' ' || space, c == '#' || hash)
  {
  }

  /** Order and repetition of flags do not matter. */
  lemma {:induction false} FlagsAreASet(flags: string, f: Flags)
    requires forall k :: 0 <= k < |flags| ==> IsFlag(flags[k])
    ensures AddFlags(f, flags)
         == WithFlags(f, Has(flags, '0'), Has(flags, '-'), Has(flags, '+'), Has(flags, ' '), Has(flags, '#'))
  {
    if flags == "" {
    } else {
      var c, more := flags[0], flags[1..];
      FlagsAreASet(more, AddFlag(f, c));
      HasStep(flags, '0');
      HasStep(flags, '-');
      HasStep(flags, '+');
      HasStep(flags, ' ');
      HasStep(flags, '#');
      FlagFirst(f, c, Has(more, '0'), Has(more, '-'), Has(more, '+'), Has(more, ' '), Has(more, '#'));
      hide WithFlags, Has, AddFlag, IsFlag;
      assert AddFlags(f, flags) == AddFlags(AddFlag(f, c), more);
      assert AddFlags(f, flags)
          == WithFlags(f, Has(flags, '0'), Has(flags, '-'), Has(flags, '+'), Has(flags, ' '), Has(flags, '#'));
    }
  }

  lemma HasStep(flags: string, c: char)
    requires flags != ""
    ensures Has(flags, c) <==> flags[0] == c || Has(flags[1..], c)
  {
  }

  // ----- One specification

  /** The flags the code has parsed when it comes to the last letter. */
  function ParsedFlags(i: Item, args: seq<Arg>): Flags
    requires i.Conversion? && ArgsMatch(i, args)
  {
    Flags(Has(i.flags, '0'), LeftJustified(i, args), Has(i.flags, '+'), Has(i.flags, ' '), Has(i.flags, '#'),
          false, !i.precision.NoPrecision?, i.length.ShortShort?, i.length.Short? || i.length.ShortShort?,
          i.length.Long32?)
  }

  /** What may follow a width or a precision. */
  predicate EndsNumber(c: char) { !IsDecimal(c) && c != '*' }

  lemma NumberWidthRead(f: Flags, n: uint16, rest: string, args: seq<Arg>)
    requires rest != "" && EndsNumber(rest[0])
    ensures ParseWidth(f, Decimal(n) + rest, args) == Spec(f, n, 0, rest, args)
  {
    DecimalBegins(n);
    ScanReadsDecimal(n, rest);
    hide ScanNumber, Decimal;
    assert Head(Decimal(n) + rest) == Decimal(n)[0];
  }

  lemma StarWidthRead(f: Flags, rest: string, args: seq<Arg>)
    requires rest != "" && args != [] && args[0].Word?
    ensures ParseWidth(f, "*" + rest, args)
         == var w := Int16(args[0].w);
            Spec(if w < 0 then f.(left := true) else f, if w < 0 then -w else w, 0, rest, args[1..])
  {
    assert ("*" + rest)[1..] == rest;
  }

  lemma NoWidthRead(f: Flags, rest: string, args: seq<Arg>)
    requires rest != "" && EndsNumber(rest[0])
    ensures ParseWidth(f, "" + rest, args) == Spec(f, 0, 0, rest, args)
  {
    assert "" + rest == rest;
  }

  lemma FixedWidthRead(w: Width, f: Flags, rest: string, args: seq<Arg>)
    requires !w.StarWidth? && rest != "" && EndsNumber(rest[0])
    ensures ParseWidth(f, SpellWidth(w) + rest, args) == Spec(f, if w.Width? then w.n else 0, 0, rest, args)
  {
    hide ParseWidth, EndsNumber, Decimal;
    if w.Width? {
      NumberWidthRead(f, w.n, rest, args);
    } else {
      NoWidthRead(f, rest, args);
    }
  }

  lemma WidthRead(i: Item, f: Flags, rest: string, args: seq<Arg>)
    requires i.Conversion? && ArgsMatch(i, args)
    requires rest != "" && EndsNumber(rest[0])
    ensures ParseWidth(f, SpellWidth(i.width) + rest, args)
         == Spec(f.(left := f.left || (i.width.StarWidth? && Int16(args[0].w) < 0)), FieldWidth(i, args), 0, rest,
                 args[StarWidths(i)..])
  {
    hide *;
    WidthArgument(i, args);
    if i.width.StarWidth? {
      StarWidthRead(f, rest, args);
    } else {
      FixedWidthRead(i.width, f, rest, args);
    }
  }

  /** The width and what the parser leaves of the arguments. */
  lemma WidthArgument(i: Item, args: seq<Arg>)
    requires i.Conversion? && ArgsMatch(i, args)
    ensures i.width.StarWidth? ==>
              && args != [] && args[0].Word? && StarWidths(i) == 1 && SpellWidth(i.width) == "*"
              && FieldWidth(i, args) == var w := Int16(args[0].w); if w < 0 then -w else w
    ensures !i.width.StarWidth? ==>
              && StarWidths(i) == 0 && args[0..] == args
              && FieldWidth(i, args) == if i.width.Width? then i.width.n else 0
  {
  }

  lemma PrecisionRead(i: Item, p: Spec, rest: string, args: seq<Arg>)
    requires i.Conversion? && ArgsMatch(i, args)
    requires rest != "" && EndsNumber(rest[0]) && rest[0] != '.'
    requires p.Spec? && p.precision == 0 && p.rest == SpellPrecision(i.precision) + rest
    requires p.args == args[StarWidths(i)..]
    ensures ParsePrecision(p)
         == Spec(p.f.(precision := p.f.precision || !i.precision.NoPrecision?), p.width, PrecisionOf(i, args), rest,
                 args[StarWidths(i) + StarPrecisions(i)..])
  {
    hide ScanNumber, Decimal;
    match i.precision
    case NoPrecision => assert SpellPrecision(i.precision) + rest == rest;
    case BarePoint => assert ("." + rest)[1..] == rest;
    case Precision(n) =>
      DecimalBegins(n);
      ScanReadsDecimal(n, rest);
      assert ("." + Decimal(n) + rest)[1..] == Decimal(n) + rest;
      assert (Decimal(n) + rest)[0] == Decimal(n)[0];
    case StarPrecision =>
      assert (".*" + rest)[1..] == "*" + rest;
      assert ("*" + rest)[1..] == rest;
      assert p.args[0] == args[StarWidths(i)] && p.args[1..] == args[StarWidths(i) + 1..];
  }

  lemma LengthRead(l: Length, p: Spec, letter: char, tail: string)
    requires IsLetter(letter) && p.Spec? && p.rest == SpellLength(l) + ([letter] + tail)
    requires !p.f.char8 && !p.f.short16 && !p.f.long32
    ensures ParseLength(p)
         == p.(f := p.f.(char8 := l.ShortShort?, short16 := l.Short? || l.ShortShort?, long32 := l.Long32?),
               rest := [letter] + tail)
  {
    var rest := [letter] + tail;
    match l
    case NoLength => assert p.rest == rest;
    case Long32 => assert p.rest[1..] == rest;
    case Short => assert p.rest[1..] == rest;
    case ShortShort => assert p.rest[1..] == "h" + rest && ("h" + rest)[1..] == rest;
  }

  lemma SpellParts(i: Item, tail: string)
    requires i.Conversion?
    ensures Spell(i) + tail == "%" + (i.flags + (SpellWidth(i.width) + (SpellPrecision(i.precision)
                                     + (SpellLength(i.length) + ([i.letter] + tail)))))
  {
    hide SpellWidth, SpellPrecision, SpellLength;
    var f, w, p, l, x := i.flags, SpellWidth(i.width), SpellPrecision(i.precision), SpellLength(i.length), [i.letter];
    Associate("%" + f + w + p + l, x, tail);
    Associate("%" + f + w + p, l, x + tail);
    Associate("%" + f + w, p, l + (x + tail));
    Associate("%" + f, w, p + (l + (x + tail)));
    Associate("%", f, w + (p + (l + (x + tail))));
  }

  /** What follows the precision begins with a length modifier or a letter. */
  lemma LengthBegins(i: Item, tail: string)
    requires IsItem(i) && i.Conversion?
    ensures var l := SpellLength(i.length) + ([i.letter] + tail);
            l != "" && EndsNumber(l[0]) && l[0] != '.' && !IsFlag(l[0])
  {
  }

  /** What follows the width begins with one of these or with a point, and what follows the flags
      with one of all these, a star or a digit that is not zero. */
  lemma PartsBegin(i: Item, rest: string)
    requires IsItem(i) && i.Conversion?
    requires rest != "" && EndsNumber(rest[0]) && !IsFlag(rest[0])
    ensures var p := SpellPrecision(i.precision) + rest;
            var w := SpellWidth(i.width) + p;
            && p != "" && EndsNumber(p[0]) && !IsFlag(p[0])
            && w != "" && !IsFlag(w[0])
  {
    if i.width.Width? {
      DecimalBegins(i.width.n);
    }
    hide Decimal;
  }

  /** Conversion specification round trip: from any spelling the code reads exactly the flags, width,
      precision and length that were spelled, takes exactly the `*` arguments, and stops at the
      letter. */
  lemma SpecRoundTrip(i: Item, tail: string, args: seq<Arg>)
    requires IsItem(i) && i.Conversion? && ArgsMatch(i, args)
    ensures (Spell(i) + tail)[0] == '%'
    ensures ParseSpec((Spell(i) + tail)[1..], args)
         == Spec(ParsedFlags(i, args), FieldWidth(i, args), PrecisionOf(i, args), [i.letter] + tail,
                 args[StarWidths(i) + StarPrecisions(i)..])
  {
    hide ParseFlags, ParseWidth, ParsePrecision, ParseLength, SpellWidth, SpellPrecision, SpellLength, Spell,
      AddFlags, AddFlag, IsFlag, IsLetter, ArgsMatch;
    var l := SpellLength(i.length) + ([i.letter] + tail);
    var p := SpellPrecision(i.precision) + l;
    var w := SpellWidth(i.width) + p;
    SpellParts(i, tail);
    LengthBegins(i, tail);
    PartsBegin(i, l);
    assert (Spell(i) + tail)[1..] == i.flags + w;
    FlagsScan(i.flags, w, NO_FLAGS);
    FlagsAreASet(i.flags, NO_FLAGS);
    var f := AddFlags(NO_FLAGS, i.flags);
    WidthRead(i, f, p, args);
    var s1 := ParseWidth(f, w, args);
    PrecisionRead(i, s1, l, args);
    LengthRead(i.length, ParsePrecision(s1), i.letter, tail);
  }

  // ----- One item

  /** What the code holds when it comes to the last letter of a conversion. */
  function ParsedItem(i: Item, tail: string, args: seq<Arg>): Spec
    requires i.Conversion? && ArgsMatch(i, args)
  {
    Spec(ParsedFlags(i, args), FieldWidth(i, args), PrecisionOf(i, args), [i.letter] + tail,
         args[StarWidths(i) + StarPrecisions(i)..])
  }

  /** What the code prints for an item. */
  function ItemText(i: Item, args: seq<Arg>): string
    requires IsItem(i) && ArgsMatch(i, args)
  {
    if i.Literal? then [i.c]
    else
      var p := ParsedItem(i, "", args);
      if IsIntegerLetter(i.letter) then IntegerPiece(i.letter, p)
      else if i.letter == 'c' then
        InField([(ValueArg(i, args).w % 0x100) as char], 1, FieldWidth(i, args), LeftJustified(i, args))
      else if i.letter == 's' then StringPiece(p)
      else "%"
  }

  lemma ItemConverts(i: Item, tail: string, args: seq<Arg>)
    requires IsItem(i) && i.Conversion? && ArgsMatch(i, args)
    ensures Convert(ParsedItem(i, tail, args)) == Piece(ItemText(i, args), args[ArgCount(i)..])
  {
    hide CodeInteger, InField, IntegerFlags, FieldWidth, PrecisionOf;
    var p, q := ParsedItem(i, tail, args), ParsedItem(i, "", args);
    assert p.args == q.args && p.rest[0] == i.letter;
    if i.letter != '%' {
      assert p.args[0] == ValueArg(i, args) && p.args[1..] == args[ArgCount(i)..];
    }
  }

  /** An item's text comes first and the rest of the format sees the remaining arguments. */
  lemma RenderItem(i: Item, tail: string, args: seq<Arg>)
    requires IsItem(i) && ArgsMatch(i, args)
    ensures Render(Spell(i) + tail, args) == Prepend(ItemText(i, args), Render(tail, args[ArgCount(i)..]))
  {
    var s := Spell(i) + tail;
    if i.Literal? {
      assert s[1..] == tail && args[0..] == args;
    } else {
      SpecRoundTrip(i, tail, args);
      ItemConverts(i, tail, args);
      assert ([i.letter] + tail)[1..] == tail;
      hide ParseSpec, Convert, ItemText, Spell, ArgCount, ArgsMatch, IsItem, FieldWidth, PrecisionOf, ParsedFlags;
      assert |s| > 1;
    }
  }

  function AllText(items: seq<Item>, args: seq<Arg>): string
    requires AllItems(items) && AllArgsMatch(items, args)
  {
    if items == [] then ""
    else ItemText(items[0], args) + AllText(items[1..], args[ArgCount(items[0])..])
  }

  function AllArgs(items: seq<Item>): nat {
    if items == [] then 0 else ArgCount(items[0]) + AllArgs(items[1..])
  }

  lemma {:induction false} EnoughArgs(items: seq<Item>, args: seq<Arg>)
    requires AllArgsMatch(items, args)
    ensures AllArgs(items) <= |args|
  {
    if items != [] {
      EnoughArgs(items[1..], args[ArgCount(items[0])..]);
    }
  }

  /** A format of the grammar followed by any other prints the texts of its items and then what the
      other prints on the arguments that remain. */
  lemma {:induction false} ItemsCompose(items: seq<Item>, tail: string, args: seq<Arg>)
    requires AllItems(items) && AllArgsMatch(items, args)
    ensures AllArgs(items) <= |args|
    ensures Render(SpellAll(items) + tail, args) == Prepend(AllText(items, args), Render(tail, args[AllArgs(items)..]))
  {
    EnoughArgs(items, args);
    if items == [] {
      assert SpellAll(items) + tail == tail && args[0..] == args;
      PrependNothing(Render(tail, args));
    } else {
      hide Render, Spell, ItemText, ArgCount, ArgsMatch, IsItem;
      var i, more, left := items[0], items[1..], args[ArgCount(items[0])..];
      ItemsCompose(more, tail, left);
      Associate(Spell(i), SpellAll(more), tail);
      RenderItem(i, SpellAll(more) + tail, args);
      assert left[AllArgs(more)..] == args[AllArgs(items)..];
      PrependTwice(ItemText(i, args), AllText(more, left), Render(tail, args[AllArgs(items)..]));
    }
  }

  // ----- Against the standard

  /** `s` and `c` print the field of the standard, except that a string printed without precision is
      padded as if it were no longer than INT_MAX. */
  lemma StringIff(s: string, p: Spec)
    requires p.Spec? && (!p.f.precision ==> p.precision == 0)
    ensures InField(Printed(s, p), CountedLength(s, p), p.width, p.f.left) == Field(Printed(s, p), p.width, p.f.left)
       <==> p.f.precision || |s| <= MAX_BUFFER || p.width <= MAX_BUFFER
  {
    var text, counted := Printed(s, p), CountedLength(s, p);
    if p.f.precision || |s| <= MAX_BUFFER {
      assert counted == |text|;
      FieldIsInField(text, p.width, p.f.left);
    } else {
      assert text == s && counted == MAX_BUFFER;
      if p.width <= MAX_BUFFER {
        FieldIsInField(text, p.width, p.f.left);
        assert Max(0, p.width - counted) == Max(0, p.width - |text|) == 0;
      } else {
        assert |InField(text, counted, p.width, p.f.left)| == |text| + (p.width - counted);
      }
    }
  }

  lemma FieldIsInField(text: string, width: uint16, left: bool)
    ensures InField(text, |text|, width, left) == Field(text, width, left)
  {
  }

  /** With a negative precision argument the code prints the blanks of the field and nothing else. */
  lemma BlankStringIff(s: string, p: Spec)
    requires p.Spec? && p.f.precision && p.precision == 0
    ensures InField(Printed(s, p), CountedLength(s, p), p.width, p.f.left) == Field(s, p.width, p.f.left)
       <==> AllBlank(s) && |s| <= p.width
  {
    var blanks := InField(Printed(s, p), CountedLength(s, p), p.width, p.f.left);
    var field := Field(s, p.width, p.f.left);
    assert Printed(s, p) == "" && CountedLength(s, p) == 0;
    assert blanks == Rep(' ', p.width);
    var start := if p.f.left then 0 else |field| - |s|;
    assert forall k :: 0 <= k < |s| ==> field[start + k] == s[k];
    if AllBlank(s) && |s| <= p.width {
      assert AllBlank(field);
    }
  }

  /** The flags the code hands on: those of the standard, or, with a negative precision argument, those
      of precision zero. */
  function PassedFlags(i: Item, args: seq<Arg>): Flags
    requires i.Conversion? && ArgsMatch(i, args)
  {
    var f := FlagsOf(i, args);
    if NegativePrecision(i, args) then f.(zeropad := false, precision := true) else f
  }

  lemma IntegerFlagsPassed(i: Item, args: seq<Arg>)
    requires i.Conversion? && IsIntegerLetter(i.letter) && Prescribed(i) && ArgsMatch(i, args)
    ensures IntegerFlags(i.letter, ParsedFlags(i, args)) == PassedFlags(i, args)
    ensures NegativePrecision(i, args) ==> PrecisionOf(i, args) == 0 && !FlagsOf(i, args).precision
  {
    hide LeftJustified, Has;
  }

  lemma IntegerValue(i: Item, args: seq<Arg>)
    requires i.Conversion? && IsIntegerLetter(i.letter) && Prescribed(i) && ArgsMatch(i, args)
    ensures var x := Converted(i, ValueArg(i, args));
            -0x8000_0000 <= x < 0x1_0000_0000
            && Prepared(x < 0, BaseOf(i.letter), PrecisionOf(i, args), FlagsOf(i, args))
  {
    hide LeftJustified, Has;
  }

  /** An integer conversion prints the value and sign of the standard, with the flags passed. */
  lemma IntegerArguments(i: Item, args: seq<Arg>)
    requires IsItem(i) && i.Conversion? && IsIntegerLetter(i.letter) && Prescribed(i) && ArgsMatch(i, args)
    ensures var x := Converted(i, ValueArg(i, args));
            -0x8000_0000 <= x < 0x1_0000_0000
            && ItemText(i, args) == CodeInteger(AbsoluteValue(x), x < 0, BaseOf(i.letter), PrecisionOf(i, args),
                                                FieldWidth(i, args), PassedFlags(i, args))
  {
    IntegerValue(i, args);
    IntegerFlagsPassed(i, args);
    hide CodeInteger, FieldWidth, PrecisionOf, StringPiece, PassedFlags, IntegerFlags, Prepared;
    var p := ParsedItem(i, "", args);
    assert p.args[0] == ValueArg(i, args);
  }

  /** One item prints what ISO C11 says exactly when it is within the limits. */
  lemma ItemIff(i: Item, args: seq<Arg>)
    requires IsItem(i) && Prescribed(i) && ArgsMatch(i, args)
    ensures ItemText(i, args) == Meaning(i, args) <==> WithinLimits(i, args)
  {
    if i.Literal? || i.letter == '%' {
    } else if IsIntegerLetter(i.letter) {
      IntegerItemIff(i, args);
    } else if i.letter == 'c' {
      FieldIsInField([(ValueArg(i, args).w % 0x100) as char], FieldWidth(i, args), LeftJustified(i, args));
    } else {
      var p := ParsedItem(i, "", args);
      assert p.args[0] == ValueArg(i, args);
      if NegativePrecision(i, args) {
        BlankStringIff(p.args[0].s, p);
      } else {
        StringIff(p.args[0].s, p);
      }
    }
  }

  lemma IntegerItemIff(i: Item, args: seq<Arg>)
    requires IsItem(i) && i.Conversion? && IsIntegerLetter(i.letter) && Prescribed(i) && ArgsMatch(i, args)
    ensures ItemText(i, args) == Meaning(i, args) <==> WithinLimits(i, args)
  {
    hide CodeInteger, C11Integer, FitsBuffer, PrecisionIsMoot, Prepared, ItemText, FlagsOf, FieldWidth, PrecisionOf;
    hide Converted;
    IntegerArguments(i, args);
    IntegerValue(i, args);
    IntegerFlagsPassed(i, args);
    var x, width, f := Converted(i, ValueArg(i, args)), FieldWidth(i, args), FlagsOf(i, args);
    if NegativePrecision(i, args) {
      PrecisionIsMootIff(AbsoluteValue(x), x < 0, BaseOf(i.letter), width, f);
    } else {
      IntegerIff(AbsoluteValue(x), x < 0, BaseOf(i.letter), PrecisionOf(i, args), width, f);
    }
  }

  /** A negative precision argument may print something else than the standard says: with -1 and 0 the
      conversion `%.*d` does not print "0". */
  lemma NegativePrecisionDiffers(i: Item, args: seq<Arg>)
    requires i == Conversion("", NoWidth, StarPrecision, NoLength, 'd') && args == [Word(0xffff), Word(0)]
    ensures IsItem(i) && Prescribed(i) && ArgsMatch(i, args) && ItemText(i, args) != Meaning(i, args)
  {
    hide ItemText, Meaning, FitsBuffer, NumberLength, Numeral;
    assert ValueArg(i, args) == Word(0);
    ItemIff(i, args);
  }

  /** The whole: a format string spelled by the grammar, with matching arguments within the limits,
      prints the concatenation of what ISO C11 says of its items. */
  lemma FormatIsC11(items: seq<Item>, args: seq<Arg>)
    requires AllItems(items) && AllPrescribed(items)
    requires AllArgsMatch(items, args) && AllWithinLimits(items, args)
    ensures Render(SpellAll(items), args) == Output(MeaningAll(items, args))
  {
    ItemsCompose(items, "", args);
    assert SpellAll(items) + "" == SpellAll(items);
    AllTextIsMeaning(items, args);
    assert MeaningAll(items, args) + "" == MeaningAll(items, args);
  }

  lemma {:induction false} AllTextIsMeaning(items: seq<Item>, args: seq<Arg>)
    requires AllItems(items) && AllPrescribed(items)
    requires AllArgsMatch(items, args) && AllWithinLimits(items, args)
    ensures AllText(items, args) == MeaningAll(items, args)
  {
    if items != [] {
      ItemIff(items[0], args);
      AllTextIsMeaning(items[1..], args[ArgCount(items[0])..]);
    }
  }
}
