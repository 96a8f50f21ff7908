/** What the items of a format mean, letter by letter and character by character. */
module FormatStandard {
  import opened Bytes
  import opened OutputGadget
  import opened Digits
  import opened IntegerText
  import opened IntegerOutput
  import opened FormatParse
  import opened FormatMeaning
  import opened FormatProof

  // ----- Which items there are

  /** Ordinary characters, and conversions with any of the five flags in any order and number, a width,
      a precision and a length modifier that may each be missing, and one of nine letters. */
  lemma ItemsAre(i: Item)
    ensures i.Literal? ==> (IsItem(i) <==> i.c != '%' && i.c != '\0')
    ensures i.Conversion? ==>
              (IsItem(i) <==> (forall k :: 0 <= k < |i.flags| ==> i.flags[k] in "0-+ #")
                              && i.width != Width(0) && i.letter in "diuxXocs%")
  {
  }

  /** How a conversion is written. */
  lemma SpellingIs(i: Item)
    ensures i.Literal? ==> Spell(i) == [i.c]
    ensures i.Conversion? ==>
              var w := match i.width case NoWidth => "" case Width(n) => Decimal(n) case StarWidth => "*";
              var p := match i.precision
                       case NoPrecision => "" case BarePoint => "."
                       case Precision(n) => "." + Decimal(n) case StarPrecision => ".*";
              var l := match i.length case NoLength => "" case ShortShort => "hh" case Short => "h" case Long32 => "l";
              Spell(i) == "%" + i.flags + w + p + l + [i.letter]
  {
    hide Decimal;
  }

  /** A number is written with decimal digits, the first not 0 unless it is the only one. */
  lemma DecimalIs(n: nat)
    ensures var s := Decimal(n);
            && s != "" && Value(Reverse(s), 10) == n
            && (forall k :: 0 <= k < |s| ==> s[k] in "0123456789")
            && (s[0] == '0' ==> s == "0")
  {
    var r := RevDigits(n, 10, false);
    NumeralValue(n, 10, false);
    NumeralDigits(n, 10, false);
    if n > 0 {
      assert Reverse(Decimal(n)) == r;
      hide RevDigits;
      forall k | 0 <= k < |r|
        ensures Decimal(n)[k] in "0123456789"
      {
        DecimalDigit(r[|r| - 1 - k]);
      }
    } else {
      assert Value(Reverse("0"), 10) == 0;
    }
  }

  lemma DecimalDigit(c: char)
    requires IsDigit(c, 10, false)
    ensures c in "0123456789"
  {
    DigitCharIs(DigitValue(c), false);
    assert "0123456789abcdef"[DigitValue(c)] == "0123456789"[DigitValue(c)];
  }

  /** The combinations compared with the standard. */
  lemma PrescribedAre(i: Item)
    requires IsItem(i) && i.Conversion?
    ensures i.letter in "xXo" ==> Prescribed(i)
    ensures i.letter in "diu" ==> (Prescribed(i) <==> '#' !in i.flags)
    ensures i.letter in "sc" ==>
              (Prescribed(i) <==> '0' !in i.flags && '#' !in i.flags && i.length == NoLength
                                  && (i.letter == 'c' ==> i.precision == NoPrecision))
    ensures i.letter == '%' ==>
              (Prescribed(i) <==> i.flags == "" && i.width == NoWidth && i.precision == NoPrecision
                                  && i.length == NoLength)
  {
  }

  // ----- The arguments

  /** How many stars come before the value. */
  function Stars(i: Item): (n: nat)
    requires i.Conversion?
    ensures n == (if i.width == StarWidth then 1 else 0) + (if i.precision == StarPrecision then 1 else 0)
  {
    StarWidths(i) + StarPrecisions(i)
  }

  /** An `int` for each star, the width first, and then one argument of the kind the letter and the length
      modifier ask for, but none for `%%`. */
  lemma ArgumentsAre(i: Item, args: seq<Arg>)
    requires IsItem(i) && i.Conversion?
    ensures ArgCount(i) == Stars(i) + (if i.letter == '%' then 0 else 1)
    ensures ArgsMatch(i, args) <==>
              && ArgCount(i) <= |args|
              && (forall k :: 0 <= k < Stars(i) ==> args[k].Word?)
              && (i.letter in "diuxXo" ==>
                    if i.length == Long32 then args[Stars(i)].Long? else args[Stars(i)].Word?)
              && (i.letter == 'c' ==> args[Stars(i)].Word?)
              && (i.letter == 's' ==> args[Stars(i)].Str?)
  {
  }

  /** The width and precision spelled or given by stars, read as `int`: a negative width is a `-` flag and
      a positive width, a negative precision none. */
  lemma FieldIs(i: Item, args: seq<Arg>)
    requires IsItem(i) && i.Conversion? && ArgsMatch(i, args)
    ensures i.width == NoWidth ==> FieldWidth(i, args) == 0
    ensures i.width.Width? ==> FieldWidth(i, args) == i.width.n
    ensures i.width == StarWidth ==>
              var w := args[0].w; FieldWidth(i, args) == if w < 32768 then w else 65536 - w
    ensures LeftJustified(i, args) <==> '-' in i.flags || (i.width == StarWidth && args[0].w >= 32768)
    ensures i.precision == NoPrecision ==> !HasPrecision(i, args)
    ensures i.precision == BarePoint ==> HasPrecision(i, args) && PrecisionOf(i, args) == 0
    ensures i.precision.Precision? ==> HasPrecision(i, args) && PrecisionOf(i, args) == i.precision.n
    ensures i.precision == StarPrecision ==>
              var p := args[if i.width == StarWidth then 1 else 0].w;
              && (HasPrecision(i, args) <==> p < 32768)
              && (HasPrecision(i, args) ==> PrecisionOf(i, args) == p)
  {
  }

  /** The number an integer conversion shows: the argument cut to 8, 16 or 32 bits, as two's complement for
      `d` and `i`. */
  lemma NumberIs(i: Item, args: seq<Arg>)
    requires IsItem(i) && i.Conversion? && i.letter in "diuxXo" && ArgsMatch(i, args)
    ensures var a, x := args[Stars(i)], Converted(i, args[Stars(i)]);
            && (i.length == Long32 ==> (x - a.v) % 4294967296 == 0)
            && (i.length == Long32 && i.letter in "di" ==> -2147483648 <= x < 2147483648)
            && (i.length == Long32 && i.letter !in "di" ==> 0 <= x < 4294967296)
    ensures var a, x := args[Stars(i)], Converted(i, args[Stars(i)]);
            && (i.length == ShortShort ==> (x - a.w) % 256 == 0)
            && (i.length == ShortShort && i.letter in "di" ==> -128 <= x < 128)
            && (i.length == ShortShort && i.letter !in "di" ==> 0 <= x < 256)
    ensures var a, x := args[Stars(i)], Converted(i, args[Stars(i)]);
            i.length == NoLength || i.length == Short ==>
              && (x - a.w) % 65536 == 0
              && (i.letter in "di" ==> -32768 <= x < 32768)
              && (i.letter !in "di" ==> 0 <= x < 65536)
  {
  }

  // ----- The text of an integer

  /** The number itself: sign, prefix, zeros and digits. */
  datatype Number = Number(sign: string, prefix: string, zeros: nat, digits: string) {
    function Body(): string { sign + prefix + Rep('0', zeros) + digits }
  }

  /** The number of an integer conversion without its padding. */
  function NumberOf(i: Item, args: seq<Arg>): Number
    requires IsItem(i) && i.Conversion? && i.letter in "diuxXo" && ArgsMatch(i, args)
  {
    var x, f, base := Converted(i, args[Stars(i)]), FlagsOf(i, args), BaseOf(i.letter);
    var digits := Numeral(AbsoluteValue(x), base, f);
    Number(SignText(x < 0, f), C11Prefix(AbsoluteValue(x), base, f),
           C11Zeros(|digits|, base, PrecisionOf(i, args), f), digits)
  }

  /** The digits of a numeral as characters. */
  lemma DigitsAre(v: nat, base: nat, f: Flags)
    requires IsBase(base)
    ensures var s := Numeral(v, base, f);
            && (s != "" ==> s[0] != '0')
            && forall k :: 0 <= k < |s| ==>
                 s[k] in (if f.upper then "0123456789ABCDEF" else "0123456789abcdef")[..base]
  {
    NumeralDigits(v, base, f.upper);
    var r := RevDigits(v, base, f.upper);
    hide RevDigits;
    forall k | 0 <= k < |r|
      ensures Reverse(r)[k] in (if f.upper then "0123456789ABCDEF" else "0123456789abcdef")[..base]
    {
      DigitIs(r[|r| - 1 - k], base, f.upper);
    }
  }

  lemma DigitIs(c: char, base: nat, upper: bool)
    requires IsBase(base) && IsDigit(c, base, upper)
    ensures c in (if upper then "0123456789ABCDEF" else "0123456789abcdef")[..base]
  {
    var all := if upper then "0123456789ABCDEF" else "0123456789abcdef";
    DigitCharIs(DigitValue(c), upper);
    assert c == all[..base][DigitValue(c)];
  }

  /** The digits of the letter's base, in the letter's case and without a leading zero, show the value. */
  lemma DigitsShowNumber(i: Item, args: seq<Arg>)
    requires IsItem(i) && i.Conversion? && i.letter in "diuxXo" && ArgsMatch(i, args)
    ensures var n, x := NumberOf(i, args), Converted(i, args[Stars(i)]);
            var base := if i.letter in "xX" then 16 else if i.letter == 'o' then 8 else 10;
            && (n.digits != "" ==> n.digits[0] != '0')
            && Value(Reverse(Rep('0', n.zeros) + n.digits), base) == (if x < 0 then -x else x)
            && forall k :: 0 <= k < |n.digits| ==>
                 n.digits[k] in (if i.letter == 'X' then "0123456789ABCDEF" else "0123456789abcdef")[..base]
  {
    var x, f := Converted(i, args[Stars(i)]), FlagsOf(i, args);
    hide RevDigits, Value, Reverse, Converted, Stars;
    DigitsAre(AbsoluteValue(x), BaseOf(i.letter), f);
    ZerosAndDigitsRead(AbsoluteValue(x), BaseOf(i.letter), NumberOf(i, args).zeros, f);
    hide Numeral, C11Zeros, C11Prefix, SignText;
  }

  /** What stands before the digits: `-` exactly for negative numbers, else what the flags of a signed
      conversion ask for; `0x` or `0X` before hexadecimals that are not zero, with `#`; and zeros to fill the
      precision, which is 1 if missing, at least one before an octal with `#`. */
  lemma BeforeDigits(i: Item, args: seq<Arg>)
    requires IsItem(i) && i.Conversion? && i.letter in "diuxXo" && ArgsMatch(i, args)
    ensures var n, x := NumberOf(i, args), Converted(i, args[Stars(i)]);
            n.sign == if x < 0 then "-"
                      else if i.letter in "di" && '+' in i.flags then "+"
                      else if i.letter in "di" && ' ' in i.flags then " " else ""
    ensures var n, x := NumberOf(i, args), Converted(i, args[Stars(i)]);
            n.prefix == if '#' in i.flags && x != 0 && i.letter == 'x' then "0x"
                        else if '#' in i.flags && x != 0 && i.letter == 'X' then "0X" else ""
    ensures var n := NumberOf(i, args);
            var least := if HasPrecision(i, args) then PrecisionOf(i, args) else 1;
            n.zeros == if |n.digits| < least then least - |n.digits|
                       else if i.letter == 'o' && '#' in i.flags then 1 else 0
  {
    hide Numeral, Converted, LeftJustified, PrecisionOf, HasPrecision;
  }

  /** A layout as text, with blanks on at most one side. */
  lemma TextIs(l: Layout, numeral: string, n: Number)
    requires n == Number(l.sign, l.prefix, l.zeros, numeral)
    ensures l.left == 0 ==> Text(l, numeral) == n.Body() + Rep(' ', l.right)
    ensures l.right == 0 ==> Text(l, numeral) == Rep(' ', l.left) + n.Body()
    ensures l.left == l.right == 0 ==> Text(l, numeral) == n.Body()
  {
    assert Text(l, numeral) == Rep(' ', l.left) + n.Body() + Rep(' ', l.right);
    assert Rep(' ', 0) == "";
  }

  /** A number in a field: filled with blanks on the right or on the left, or with zeros in front of its
      digits. */
  function Fielded(n: Number, width: nat, left: bool, zeros: bool): string {
    var gap := if |n.Body()| < width then width - |n.Body()| else 0;
    if left then n.Body() + Rep(' ', gap)
    else if zeros then n.(zeros := n.zeros + gap).Body()
    else Rep(' ', gap) + n.Body()
  }

  lemma FlagsAre(i: Item, args: seq<Arg>)
    requires i.Conversion? && ArgsMatch(i, args)
    ensures var f := FlagsOf(i, args);
            && f.left == LeftJustified(i, args)
            && f.zeropad == ('0' in i.flags && !HasPrecision(i, args))
            && f.precision == HasPrecision(i, args)
  {
  }

  lemma NumberLayout(n: Number, value: nat, negative: bool, base: nat, precision: uint16, width: uint16, f: Flags,
                     l: Layout)
    requires l == C11Layout(value, |n.digits|, negative, base, precision, width, f)
    requires n.sign == SignText(negative, f) && n.prefix == C11Prefix(value, base, f)
    requires n.zeros == C11Zeros(|n.digits|, base, precision, f) && (f.zeropad ==> !f.precision)
    ensures Text(l, n.digits) == Fielded(n, width, f.left, f.zeropad)
  {
    hide SignText, C11Prefix, C11Zeros, Text, Rep;
    assert |n.Body()| == |n.sign| + |n.prefix| + n.zeros + |n.digits|;
    TextIs(l, n.digits, n.(zeros := l.zeros));
  }

  lemma IntegerIsFielded(i: Item, args: seq<Arg>)
    requires IsItem(i) && i.Conversion? && i.letter in "diuxXo" && ArgsMatch(i, args) && Prescribed(i)
    ensures Meaning(i, args) == Fielded(NumberOf(i, args), FieldWidth(i, args), LeftJustified(i, args),
                                        '0' in i.flags && !HasPrecision(i, args))
  {
    var x, f, base, width := Converted(i, args[Stars(i)]), FlagsOf(i, args), BaseOf(i.letter), FieldWidth(i, args);
    var n, l := NumberOf(i, args), C11Layout(AbsoluteValue(x), |NumberOf(i, args).digits|, x < 0, base,
                                             PrecisionOf(i, args), width, f);
    assert args[Stars(i)] == ValueArg(i, args);
    FlagsAre(i, args);
    hide Converted, Numeral, FlagsOf, FieldWidth, LeftJustified, PrecisionOf, HasPrecision, Text, Has;
    NumberLayout(n, AbsoluteValue(x), x < 0, base, PrecisionOf(i, args), width, f, l);
  }

  lemma FieldedIs(n: Number, width: nat, left: bool, zeros: bool)
    ensures var gap := width - (|n.sign| + |n.prefix| + n.zeros + |n.digits|);
            var shown := n.sign + n.prefix + Rep('0', n.zeros) + n.digits;
            var text := Fielded(n, width, left, zeros);
            && (left ==> text == shown + Rep(' ', gap))
            && (!left && zeros ==> text == n.sign + n.prefix + Rep('0', n.zeros + Max(0, gap)) + n.digits)
            && (!left && !zeros ==> text == Rep(' ', gap) + shown)
  {
    NoGap(width - |n.Body()|);
    hide Rep;
  }

  lemma NoGap(gap: int)
    ensures Rep(' ', Max(0, gap)) == Rep(' ', gap)
  {
  }

  /** The whole text: the number in its field, filled on the right with `-`, with zeros if there is a `0`
      flag and no precision, and else on the left. `Rep` of a negative number is empty. */
  lemma IntegerMeans(i: Item, args: seq<Arg>)
    requires IsItem(i) && i.Conversion? && i.letter in "diuxXo" && ArgsMatch(i, args) && Prescribed(i)
    ensures var n := NumberOf(i, args);
            var gap := FieldWidth(i, args) - (|n.sign| + |n.prefix| + n.zeros + |n.digits|);
            && (LeftJustified(i, args) ==>
                  Meaning(i, args) == n.sign + n.prefix + Rep('0', n.zeros) + n.digits + Rep(' ', gap))
            && (!LeftJustified(i, args) && '0' in i.flags && !HasPrecision(i, args) ==>
                  Meaning(i, args) == n.sign + n.prefix + Rep('0', n.zeros + Max(0, gap)) + n.digits)
            && (!LeftJustified(i, args) && !('0' in i.flags && !HasPrecision(i, args)) ==>
                  Meaning(i, args) == Rep(' ', gap) + (n.sign + n.prefix + Rep('0', n.zeros) + n.digits))
  {
    hide *;
    IntegerIsFielded(i, args);
    FieldedIs(NumberOf(i, args), FieldWidth(i, args), LeftJustified(i, args), '0' in i.flags && !HasPrecision(i, args));
  }

  // ----- Characters and strings

  /** A character, a string or a `%`: the character or as much of the string as the precision allows, in a
      field of blanks. */
  lemma OthersMean(i: Item, args: seq<Arg>)
    requires IsItem(i) && ArgsMatch(i, args) && Prescribed(i)
    ensures i.Literal? ==> Meaning(i, args) == [i.c]
    ensures i.Conversion? && i.letter == '%' ==> Meaning(i, args) == "%"
    ensures i.Conversion? && i.letter in "cs" ==>
              var a := args[Stars(i)];
              var text := if i.letter == 'c' then [(a.w % 256) as char]
                          else if HasPrecision(i, args) && PrecisionOf(i, args) < |a.s| then a.s[..PrecisionOf(i, args)]
                          else a.s;
              var blanks := Rep(' ', FieldWidth(i, args) - |text|);
              (Meaning(i, args) == if LeftJustified(i, args) then text + blanks else blanks + text)
  {
    hide FieldWidth, LeftJustified, PrecisionOf, HasPrecision;
    if i.Conversion? && i.letter in "cs" {
      assert args[Stars(i)] == ValueArg(i, args);
    }
  }

  // ----- Where the code prints that

  lemma NotNegative(i: Item, args: seq<Arg>)
    requires IsItem(i) && i.Conversion? && ArgsMatch(i, args)
    requires i.precision == StarPrecision ==> args[if i.width == StarWidth then 1 else 0].w < 32768
    ensures !NegativePrecision(i, args)
  {
  }

  lemma StringWithin(i: Item, args: seq<Arg>)
    requires IsItem(i) && i.Conversion? && i.letter in "sc%" && ArgsMatch(i, args) && Prescribed(i)
    requires !NegativePrecision(i, args)
    ensures WithinLimits(i, args) <==>
              i.letter != 's' || HasPrecision(i, args) || |args[Stars(i)].s| <= 32767 || FieldWidth(i, args) <= 32767
  {
    hide FieldWidth, HasPrecision, NegativePrecision, FitsBuffer, PrecisionIsMoot, FlagsOf, Converted;
    if i.letter == 's' {
      assert args[Stars(i)] == ValueArg(i, args);
    }
  }

  /** The exact limits for strings: one prints as the standard says if it is cut by a precision, or if it
      or the field is no longer than 32767. */
  lemma StringLimits(i: Item, args: seq<Arg>)
    requires IsItem(i) && i.Conversion? && i.letter in "sc%" && ArgsMatch(i, args) && Prescribed(i)
    requires i.precision == StarPrecision ==> args[if i.width == StarWidth then 1 else 0].w < 32768
    ensures ItemText(i, args) == Meaning(i, args) <==>
              i.letter != 's' || HasPrecision(i, args) || |args[Stars(i)].s| <= 32767 || FieldWidth(i, args) <= 32767
  {
    hide *;
    NotNegative(i, args);
    ItemIff(i, args);
    StringWithin(i, args);
  }

  /** The exact limits for integers: one prints as the standard says if it has at most 32 characters
      besides blanks, or one more and the first of them is a blank sign in a field that blanks fill on the
      left anyway. */
  lemma IntegerLimits(i: Item, args: seq<Arg>)
    requires IsItem(i) && i.Conversion? && i.letter in "diuxXo" && ArgsMatch(i, args) && Prescribed(i)
    requires i.precision == StarPrecision ==> args[if i.width == StarWidth then 1 else 0].w < 32768
    ensures var n, width := NumberOf(i, args), FieldWidth(i, args);
            var zeros := '0' in i.flags && !HasPrecision(i, args) && !LeftJustified(i, args);
            var size := |n.sign| + |n.prefix| + n.zeros + |n.digits|;
            ItemText(i, args) == Meaning(i, args) <==>
              || (size <= 32 && (zeros ==> width <= 32))
              || (size == 33 <= width && n.sign == " " && !LeftJustified(i, args) && !zeros)
  {
    ItemIff(i, args);
    NotNegative(i, args);
    FlagsAre(i, args);
    assert args[Stars(i)] == ValueArg(i, args);
    var x, f, base := Converted(i, args[Stars(i)]), FlagsOf(i, args), BaseOf(i.letter);
    var width, precision := FieldWidth(i, args), PrecisionOf(i, args);
    hide ItemText, Meaning, Converted, FlagsOf, FieldWidth, LeftJustified, PrecisionOf, HasPrecision, Has;
    hide NegativePrecision, FitsBuffer;
    FitsIs(NumberOf(i, args), AbsoluteValue(x), x < 0, base, precision, width, f);
  }

  lemma FitsIs(n: Number, value: nat, negative: bool, base: nat, precision: uint16, width: uint16, f: Flags)
    requires IsBase(base) && (f.zeropad ==> !f.precision)
    requires n.sign == SignText(negative, f) && n.prefix == C11Prefix(value, base, f)
    requires n.digits == Numeral(value, base, f) && n.zeros == C11Zeros(|n.digits|, base, precision, f)
    ensures var zeros, size := f.zeropad && !f.left, |n.sign| + |n.prefix| + n.zeros + |n.digits|;
            FitsBuffer(value, negative, base, precision, width, f) <==>
              || (size <= 32 && (zeros ==> width <= 32))
              || (size == 33 <= width && n.sign == " " && !f.left && !zeros)
  {
    hide Numeral, SignText, C11Prefix, C11Zeros;
  }

  // ----- Whole formats

  /** Formats are dealt with item by item, and each item sees the arguments the ones before it left. */
  lemma FormatsAre(i: Item, more: seq<Item>, args: seq<Arg>)
    ensures AllItems([]) && AllPrescribed([]) && AllArgsMatch([], args) && AllWithinLimits([], args)
    ensures SpellAll([]) == "" && MeaningAll([], args) == ""
    ensures SpellAll([i] + more) == Spell(i) + SpellAll(more)
    ensures AllItems([i] + more) <==> IsItem(i) && AllItems(more)
    ensures AllPrescribed([i] + more) <==> Prescribed(i) && AllPrescribed(more)
    ensures AllArgsMatch([i] + more, args) <==> ArgsMatch(i, args) && AllArgsMatch(more, args[ArgCount(i)..])
    ensures AllItems([i] + more) && AllPrescribed([i] + more) && AllArgsMatch([i] + more, args) ==>
              && (AllWithinLimits([i] + more, args) <==>
                    WithinLimits(i, args) && AllWithinLimits(more, args[ArgCount(i)..]))
              && MeaningAll([i] + more, args) == Meaning(i, args) + MeaningAll(more, args[ArgCount(i)..])
  {
    assert ([i] + more)[1..] == more;
    forall k | 0 <= k < |more|
      ensures AllItems([i] + more) ==> IsItem(more[k])
      ensures AllPrescribed([i] + more) ==> Prescribed(more[k])
    {
      assert more[k] == ([i] + more)[k + 1];
    }
    hide IsItem, Prescribed, WithinLimits, Meaning, Spell, ArgsMatch, ArgCount;
  }

  // ----- Formats outside the grammar

  predicate AreDigits(s: string) { forall k :: 0 <= k < |s| ==> s[k] in "0123456789" }

  lemma PartsAreDigits(s: string)
    requires AreDigits(s) && s != ""
    ensures AreDigits(s[1..]) && AreDigits(s[..|s| - 1]) && IsDecimal(s[0])
    ensures s[|s| - 1] in "0123456789"
  {
  }

  lemma {:induction false} ScanThrough(s: string, t: string, n: uint16)
    requires AreDigits(s)
    ensures ScanNumber(s + t, n) == ScanNumber(t, ScanNumber(s, n).0)
  {
    if s == "" {
      assert s + t == t;
    } else {
      PartsAreDigits(s);
      hide AreDigits;
      ScanThrough(s[1..], t, (n * 10 + (s[0] as int - '0' as int)) % 0x1_0000);
      assert (s + t)[1..] == s[1..] + t;
    }
  }

  lemma WrapDigit(v: nat, d: nat)
    ensures (v % 65536 * 10 + d) % 65536 == (v * 10 + d) % 65536
  {
    assert v == 65536 * (v / 65536) + v % 65536;
    assert v * 10 + d == 65536 * (10 * (v / 65536)) + (v % 65536 * 10 + d);
  }

  lemma ScanStops(rest: string, n: uint16)
    requires rest != "" ==> rest[0] !in "0123456789"
    ensures ScanNumber(rest, n) == (n, rest)
  {
    assert IsDecimal('0') && forall c: char :: IsDecimal(c) ==> c in "0123456789" by { DecimalsAre(); }
  }

  lemma DecimalsAre()
    ensures forall c: char :: IsDecimal(c) <==> c in "0123456789"
  {
    forall c: char | IsDecimal(c)
      ensures c in "0123456789"
    {
      assert c == "0123456789"[c as int - '0' as int];
    }
  }

  lemma ScanOne(c: char, n: uint16)
    requires c in "0123456789"
    ensures ScanNumber([c], n).0 == (n * 10 + DigitValue(c)) % 65536 && 0 <= DigitValue(c) < 10
  {
    assert [c][1..] == "";
  }

  lemma ReverseSnoc(s: string, c: char)
    ensures Reverse(s + [c]) == [c] + Reverse(s) && Reverse(s + [c])[1..] == Reverse(s)
  {
  }

  /** The value of digits read from the last one on. */
  lemma ValueSnoc(s: string, c: char)
    ensures Value(Reverse(s + [c]), 10) == DigitValue(c) + 10 * Value(Reverse(s), 10)
  {
    ReverseSnoc(s, c);
    hide Reverse;
  }

  lemma ScanSnoc(s: string, c: char)
    requires AreDigits(s) && c in "0123456789"
    requires Value(Reverse(s), 10) >= 0 && ScanNumber(s, 0).0 == Value(Reverse(s), 10) % 65536
    ensures var v := Value(Reverse(s + [c]), 10); v >= 0 && ScanNumber(s + [c], 0).0 == v % 65536
  {
    hide *;
    ScanThrough(s, [c], 0);
    ScanOne(c, ScanNumber(s, 0).0);
    ValueSnoc(s, c);
    WrapDigit(Value(Reverse(s), 10), DigitValue(c));
  }

  lemma {:induction false} ScanValue(s: string)
    requires AreDigits(s)
    ensures Value(Reverse(s), 10) >= 0 && ScanNumber(s, 0).0 == Value(Reverse(s), 10) % 65536
  {
    if s == "" {
      assert Reverse(s) == "";
    } else {
      PartsAreDigits(s);
      hide *;
      ScanValue(s[..|s| - 1]);
      ScanSnoc(s[..|s| - 1], s[|s| - 1]);
      assert s[..|s| - 1] + [s[|s| - 1]] == s;
    }
  }

  /** Any digits, also with zeros in front or too many, are read as their value modulo 2^16. */
  lemma {:induction false} ScanReadsDigits(s: string, rest: string)
    requires forall k :: 0 <= k < |s| ==> s[k] in "0123456789"
    requires rest != "" ==> rest[0] !in "0123456789"
    ensures Value(Reverse(s), 10) >= 0 && ScanNumber(s + rest, 0) == (Value(Reverse(s), 10) % 65536, rest)
  {
    hide Value, Reverse;
    ScanThrough(s, rest, 0);
    ScanValue(s);
    ScanStops(rest, ScanNumber(s, 0).0);
    hide ScanNumber;
  }

  /** A letter with no meaning comes out itself, and so does a `%`. */
  lemma OtherLetters(c: char, tail: string, args: seq<Arg>)
    requires c !in "0123456789-+ #*.lhtjzdiuxXocsbpn" && c != '\0'
    ensures Render("%" + [c] + tail, args) == Prepend([c], Render(tail, args))
  {
    var s := [c] + tail;
    assert ("%" + [c] + tail)[1..] == s && s[1..] == tail;
    assert ParseFlags(s, NO_FLAGS) == (NO_FLAGS, s);
    assert ParseSpec(s, args) == Spec(NO_FLAGS, 0, 0, s, args);
    assert Convert(Spec(NO_FLAGS, 0, 0, s, args)) == Piece([c], args);
  }

  /** `#` is nothing to a decimal number, nor are `0` and `#` to a string or a length to a character. */
  lemma UselessFlags(letter: char, p: Spec)
    requires p.Spec? && p.rest != "" && letter == p.rest[0] && Convert(p).Piece?
    ensures letter in "diu" ==> Convert(p) == Convert(p.(f := p.f.(hash := false)))
    ensures letter == 's' && p.args[0].Str? ==> Convert(p) == Convert(p.(f := p.f.(zeropad := false, hash := false)))
    ensures letter == 'c' ==>
              Convert(p) == Convert(p.(f := p.f.(zeropad := false, hash := false, char8 := false, short16 := false,
                                                 long32 := false)))
  {
    hide CodeInteger, InField;
  }

  lemma NoBlanksAdded(s: string)
    ensures Rep(' ', 0) + s == s && s + Rep(' ', 0) == s
  {
  }

  lemma NullPrints(width: uint16, f: Flags)
    ensures var blanks := Rep(' ', width - 6);
            OutRevText(")llun(", width, f)
            == if f.left then "(null)" + blanks else if f.zeropad then "(null)" else blanks + "(null)"
  {
    assert Reverse(")llun(") == "(null)";
    NoGap(width - 6);
    NoBlanksAdded("(null)");
    NoBlanksAdded("(null)" + Rep(' ', width - 6));
    NoBlanksAdded(Rep(' ', width - 6) + "(null)");
    hide Reverse, Rep;
  }

  lemma StringFields(s: string, p: Spec)
    requires p.Spec?
    ensures var text := if p.f.precision && p.precision < |s| then s[..p.precision] else s;
            var most := if p.precision > 0 then p.precision else 32767;
            var counted := if p.f.precision && p.precision == 0 then 0 else if |s| < most then |s| else most;
            var blanks := Rep(' ', p.width - counted);
            (InField(Printed(s, p), CountedLength(s, p), p.width, p.f.left)
             == if p.f.left then text + blanks else blanks + text)
  {
    var text := Printed(s, p);
    assert s[..|s|] == s;
    NoGap(p.width - CountedLength(s, p));
    NoBlanksAdded(text);
    NoBlanksAdded(text + Rep(' ', p.width - CountedLength(s, p)));
    hide Rep;
  }

  /** What the code prints for a string: with a precision its front, and a field that is filled as if the
      string had no more than 32767 characters. A null pointer prints "(null)". */
  lemma StringsPrint(p: Spec)
    requires p.Spec? && p.args != [] && (p.args[0].Str? || p.args[0].Null?)
    ensures p.args[0].Str? ==>
              var s := p.args[0].s;
              var text := if p.f.precision && p.precision < |s| then s[..p.precision] else s;
              var most := if p.precision > 0 then p.precision else 32767;
              var counted := if p.f.precision && p.precision == 0 then 0 else if |s| < most then |s| else most;
              var blanks := Rep(' ', p.width - counted);
              (StringPiece(p) == if p.f.left then text + blanks else blanks + text)
    ensures p.args[0].Null? ==>
              var blanks := Rep(' ', p.width - 6);
              (StringPiece(p) == if p.f.left then "(null)" + blanks
                                 else if p.f.zeropad then "(null)" else blanks + "(null)")
  {
    if p.args[0].Null? {
      NullPrints(p.width, p.f);
    } else {
      StringFields(p.args[0].s, p);
    }
  }
}
