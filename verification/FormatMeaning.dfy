/** Format strings as section 7.21.6.1 of ISO C11 describes them, spelled out and given their
    meaning, and the proof that reading the spelling back and converting gives just that. */
module FormatMeaning {
  import opened Bytes
  import opened OutputGadget
  import opened Digits
  import opened IntegerText
  import opened IntegerOutput
  import opened FormatParse

  datatype Width = NoWidth | Width(n: uint16) | StarWidth
  datatype Precision = NoPrecision | BarePoint | Precision(n: uint16) | StarPrecision
  datatype Length = NoLength | ShortShort | Short | Long32

  /** An ordinary character, or a conversion specification. */
  datatype Item =
    | Literal(c: char)
    | Conversion(flags: string, width: Width, precision: Precision, length: Length, letter: char)

  // ----- Spelling

  function Decimal(n: nat): string {
    if n == 0 then "0" else Reverse(RevDigits(n, 10, false))
  }

  function SpellWidth(w: Width): string {
    match w
    case NoWidth => ""
    case Width(n) => Decimal(n)
    case StarWidth => "*"
  }

  function SpellPrecision(p: Precision): string {
    match p
    case NoPrecision => ""
    case BarePoint => "."
    case Precision(n) => "." + Decimal(n)
    case StarPrecision => ".*"
  }

  function SpellLength(l: Length): string {
    match l
    case NoLength => ""
    case ShortShort => "hh"
    case Short => "h"
    case Long32 => "l"
  }

  function Spell(i: Item): string {
    match i
    case Literal(c) => [c]
    case Conversion(flags, width, precision, length, letter) =>
      "%" + flags + SpellWidth(width) + SpellPrecision(precision) + SpellLength(length) + [letter]
  }

  function SpellAll(items: seq<Item>): string {
    if items == [] then "" else Spell(items[0]) + SpellAll(items[1..])
  }

  predicate IsLetter(c: char) { IsIntegerLetter(c) || c == 'c' || c == 's' || c == '%' }

  /** A number spelled as a width has no leading zero, or it would be a flag; a NUL would end the
      format. */
  predicate IsItem(i: Item) {
    match i
    case Literal(c) => c != '%' && c != NUL
    case Conversion(flags, width, precision, length, letter) =>
      && (forall k :: 0 <= k < |flags| ==> IsFlag(flags[k]))
      && width != Width(0) && IsLetter(letter)
  }

  /** The combinations the standard gives a meaning to: `%%` stands alone; `c` and `s` take neither
      `0` nor `#` nor, here, a length modifier, and `c` no precision; decimal numbers take no `#`. */
  predicate Prescribed(i: Item) {
    i.Conversion? ==>
      if i.letter == '%' then i == Conversion("", NoWidth, NoPrecision, NoLength, '%')
      else if IsIntegerLetter(i.letter) then BaseOf(i.letter) == 10 ==> !Has(i.flags, '#')
      else
        && !Has(i.flags, '0') && !Has(i.flags, '#') && i.length.NoLength?
        && (i.letter == 'c' ==> i.precision.NoPrecision?)
  }

  // ----- Meaning

  function Has(flags: string, c: char): bool { c in flags }

  /** The arguments a conversion uses up, in order: width, precision, value. */
  function StarWidths(i: Item): nat { if i.Conversion? && i.width.StarWidth? then 1 else 0 }
  function StarPrecisions(i: Item): nat { if i.Conversion? && i.precision.StarPrecision? then 1 else 0 }
  function Values(i: Item): nat { if i.Conversion? && i.letter != '%' then 1 else 0 }
  function ArgCount(i: Item): nat { StarWidths(i) + StarPrecisions(i) + Values(i) }

  /** The arguments are there and of the kinds the conversion asks for. */
  predicate ArgsMatch(i: Item, args: seq<Arg>) {
    && ArgCount(i) <= |args|
    && (forall k :: 0 <= k < StarWidths(i) + StarPrecisions(i) ==> args[k].Word?)
    && (Values(i) == 1 ==>
          var a := args[StarWidths(i) + StarPrecisions(i)];
          if IsIntegerLetter(i.letter) then (if i.length.Long32? then a.Long? else a.Word?)
          else if i.letter == 'c' then a.Word?
          else a.Str?)
  }

  /** A negative width argument is a `-` flag and a positive width. */
  function FieldWidth(i: Item, args: seq<Arg>): uint16
    requires i.Conversion? && ArgsMatch(i, args)
  {
    match i.width
    case NoWidth => 0
    case Width(n) => n
    case StarWidth => var w := Int16(args[0].w); if w < 0 then -w else w
  }

  predicate LeftJustified(i: Item, args: seq<Arg>)
    requires i.Conversion? && ArgsMatch(i, args)
  {
    Has(i.flags, '-') || (i.width.StarWidth? && Int16(args[0].w) < 0)
  }

  /** The precision argument, if there is one. */
  function PrecisionArg(i: Item, args: seq<Arg>): int
    requires i.Conversion? && i.precision.StarPrecision? && ArgsMatch(i, args)
  {
    Int16(args[StarWidths(i)].w)
  }

  /** A negative precision argument counts as a missing precision. */
  predicate HasPrecision(i: Item, args: seq<Arg>)
    requires i.Conversion? && ArgsMatch(i, args)
  {
    match i.precision
    case NoPrecision => false
    case StarPrecision => PrecisionArg(i, args) >= 0
    case _ => true
  }

  function PrecisionOf(i: Item, args: seq<Arg>): uint16
    requires i.Conversion? && ArgsMatch(i, args)
  {
    match i.precision
    case NoPrecision => 0
    case BarePoint => 0
    case Precision(n) => n
    case StarPrecision => Max(0, PrecisionArg(i, args))
  }

  /** The flags of a conversion as the standard reads them: `0` gives way to `-` in the layout and
      to a precision here, and signs are for signed conversions. */
  function FlagsOf(i: Item, args: seq<Arg>): Flags
    requires i.Conversion? && ArgsMatch(i, args)
  {
    var signed := IsSignedLetter(i.letter);
    Flags(Has(i.flags, '0') && !HasPrecision(i, args), LeftJustified(i, args),
          Has(i.flags, '+') && signed, Has(i.flags, ' ') && signed,
          Has(i.flags, '#'),
          i.letter == 'X', HasPrecision(i, args),
          i.length.ShortShort?, i.length.Short? || i.length.ShortShort?, i.length.Long32?)
  }

  /** The value converted: as `signed char`, `short`, `int` or `long`, or their unsigned kinds. */
  function Converted(i: Item, a: Arg): int
    requires i.Conversion? && IsIntegerLetter(i.letter) && (if i.length.Long32? then a.Long? else a.Word?)
  {
    var signed := IsSignedLetter(i.letter);
    match i.length
    case Long32 => if signed then Int32(a.v) else a.v
    case ShortShort => if signed then Int8(a.w) else a.w % 0x100
    case _ => if signed then Int16(a.w) else a.w
  }

  function ValueArg(i: Item, args: seq<Arg>): Arg
    requires i.Conversion? && ArgsMatch(i, args) && i.letter != '%'
  {
    args[StarWidths(i) + StarPrecisions(i)]
  }

  /** Text in a field: never cut, filled with blanks on the right if left-justified, else on the left. */
  function Field(text: string, width: uint16, left: bool): (r: string)
    ensures |r| == Max(|text|, width)
  {
    var blanks := Rep(' ', Max(0, width - |text|));
    if left then text + blanks else blanks + text
  }

  function Meaning(i: Item, args: seq<Arg>): string
    requires IsItem(i) && Prescribed(i) && ArgsMatch(i, args)
  {
    if i.Literal? then [i.c]
    else if i.letter == '%' then "%"
    else if IsIntegerLetter(i.letter) then
      var x := Converted(i, ValueArg(i, args));
      C11Integer(AbsoluteValue(x), x < 0, BaseOf(i.letter), PrecisionOf(i, args), FieldWidth(i, args), FlagsOf(i, args))
    else if i.letter == 'c' then
      Field([(ValueArg(i, args).w % 0x100) as char], FieldWidth(i, args), LeftJustified(i, args))
    else
      var s := ValueArg(i, args).s;
      Field(if HasPrecision(i, args) then s[..Min(|s|, PrecisionOf(i, args))] else s,
            FieldWidth(i, args), LeftJustified(i, args))
  }

  function AbsoluteValue(x: int): nat { if x < 0 then -x else x }

  predicate AllItems(items: seq<Item>) { forall k :: 0 <= k < |items| ==> IsItem(items[k]) }

  predicate AllPrescribed(items: seq<Item>) { forall k :: 0 <= k < |items| ==> Prescribed(items[k]) }

  predicate AllArgsMatch(items: seq<Item>, args: seq<Arg>) {
    items != [] ==> ArgsMatch(items[0], args) && AllArgsMatch(items[1..], args[ArgCount(items[0])..])
  }

  function MeaningAll(items: seq<Item>, args: seq<Arg>): string
    requires AllItems(items) && AllPrescribed(items) && AllArgsMatch(items, args)
  {
    if items == [] then ""
    else Meaning(items[0], args) + MeaningAll(items[1..], args[ArgCount(items[0])..])
  }

  // ----- Where the code agrees with the standard

  /** A negative precision argument, which the code takes for zero. */
  predicate NegativePrecision(i: Item, args: seq<Arg>)
    requires ArgsMatch(i, args)
  {
    i.Conversion? && i.precision.StarPrecision? && PrecisionArg(i, args) < 0
  }

  predicate AllBlank(s: string) { forall k :: 0 <= k < |s| ==> s[k] == ' ' }

  /** A number fits the digit buffer, and if its precision argument is negative it would have shown the
      same digits with precision zero. A string printed without precision is not longer than INT_MAX
      unless the field is no wider than that; with a negative precision argument, which makes the code
      print blanks only, it must be blanks that fit the field. */
  predicate WithinLimits(i: Item, args: seq<Arg>)
    requires IsItem(i) && Prescribed(i) && ArgsMatch(i, args)
  {
    if i.Literal? || i.letter == '%' || i.letter == 'c' then true
    else if IsIntegerLetter(i.letter) then
      var x := Converted(i, ValueArg(i, args));
      var value, base, width, f := AbsoluteValue(x), BaseOf(i.letter), FieldWidth(i, args), FlagsOf(i, args);
      if NegativePrecision(i, args) then PrecisionIsMoot(value, x < 0, base, width, f)
      else FitsBuffer(value, x < 0, base, PrecisionOf(i, args), width, f)
    else
      var s, width := ValueArg(i, args).s, FieldWidth(i, args);
      if NegativePrecision(i, args) then AllBlank(s) && |s| <= width
      else HasPrecision(i, args) || |s| <= MAX_BUFFER || width <= MAX_BUFFER
  }

  predicate AllWithinLimits(items: seq<Item>, args: seq<Arg>)
    requires AllItems(items) && AllPrescribed(items) && AllArgsMatch(items, args)
  {
    items != [] ==>
      WithinLimits(items[0], args) && AllWithinLimits(items[1..], args[ArgCount(items[0])..])
  }
}
