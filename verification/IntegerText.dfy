/** Integer conversions: what section 7.21.6.1 of ISO C11 asks for, and what the length arithmetic
    of src/printf/printf.c:431-553 does, as values. */
module IntegerText {
  import opened Bytes
  import opened OutputGadget
  import opened Digits

  /** PRINTF_INTEGER_BUFFER_SIZE */
  const INTEGER_BUFFER := 32

  /** The FLAGS_ bits that matter here (src/printf/printf.c:142-158). */
  datatype Flags = Flags(
    zeropad: bool, left: bool, plus: bool, space: bool, hash: bool,
    upper: bool, precision: bool, char8: bool, short16: bool, long32: bool)

  const NO_FLAGS := Flags(false, false, false, false, false, false, false, false, false, false)

  /** A formatted number in reading order: blanks, sign, prefix, zeros, the numeral, blanks. */
  datatype Layout = Layout(left: nat, sign: string, prefix: string, zeros: nat, right: nat)

  function Text(l: Layout, numeral: string): (r: string) {
    Rep(' ', l.left) + l.sign + l.prefix + Rep('0', l.zeros) + numeral + Rep(' ', l.right)
  }

  function Max(a: int, b: int): int { if a < b then b else a }

  /** What a caller of `print_integer` guarantees (src/printf/printf.c:1166-1219): signs only in
      decimal, `#` only outside it, `0` not together with a precision. */
  predicate Prepared(negative: bool, base: nat, precision: uint16, f: Flags) {
    && (base == 8 || base == 10 || base == 16)
    && (base != 10 ==> !negative && !f.plus && !f.space)
    && (base == 10 ==> !f.hash)
    && (f.zeropad ==> !f.precision)
    && (!f.precision ==> precision == 0)
  }

  function SignText(negative: bool, f: Flags): (s: string)
    ensures |s| <= 1
  {
    if negative then "-" else if f.plus then "+" else if f.space then " " else ""
  }

  // ----- Section 7.21.6.1 of ISO C11

  /** Zeros before a numeral of `digits` digits (none for zero): the precision is the least number
      of digits and is 1 when missing; in octal `#` raises it just enough for a zero in front. */
  function C11Zeros(digits: nat, base: nat, precision: uint16, f: Flags): nat {
    var least := if f.precision then precision else 1;
    var z := Max(0, least - digits);
    if base == 8 && f.hash && z == 0 then 1 else z
  }

  function C11Prefix(value: nat, base: nat, f: Flags): (s: string)
    ensures |s| <= 2
  {
    if base == 16 && f.hash && value != 0 then (if f.upper then "0X" else "0x") else ""
  }

  function C11Layout(value: nat, digits: nat, negative: bool, base: nat, precision: uint16, width: uint16, f: Flags)
    : (l: Layout)
  {
    var sign, prefix := SignText(negative, f), C11Prefix(value, base, f);
    var zeros := C11Zeros(digits, base, precision, f);
    var gap := Max(0, width - (|sign| + |prefix| + zeros + digits));
    if f.left then Layout(0, sign, prefix, zeros, gap)
    else if f.zeropad && !f.precision then Layout(0, sign, prefix, zeros + gap, 0)
    else Layout(gap, sign, prefix, zeros, 0)
  }

  function Numeral(value: nat, base: nat, f: Flags): string
    requires IsBase(base)
  {
    Reverse(RevDigits(value, base, f.upper))
  }

  /** The text ISO C11 prescribes for an integer of this sign and magnitude. */
  function C11Integer(value: nat, negative: bool, base: nat, precision: uint16, width: uint16, f: Flags): string
    requires IsBase(base)
  {
    var numeral := Numeral(value, base, f);
    Text(C11Layout(value, |numeral|, negative, base, precision, width, f), numeral)
  }

  /** The prescribed text fills the width, shows at least as many digits as the precision asks for,
      and its zeros and digits read as the value. */
  lemma C11ShowsValue(value: nat, negative: bool, base: nat, precision: uint16, width: uint16, f: Flags)
    requires IsBase(base)
    ensures var numeral := Numeral(value, base, f);
            var l := C11Layout(value, |numeral|, negative, base, precision, width, f);
            && C11Integer(value, negative, base, precision, width, f) == Text(l, numeral)
            && |Text(l, numeral)| >= width
            && (f.precision ==> l.zeros + |numeral| >= precision)
            && (!f.precision ==> l.zeros + |numeral| >= 1)
            && (base == 8 && f.hash ==> l.zeros > 0)
            && Value(Reverse(Rep('0', l.zeros) + numeral), base) == value
  {
    hide RevDigits, Value;
    var l := C11Layout(value, |Numeral(value, base, f)|, negative, base, precision, width, f);
    ZerosAndDigitsRead(value, base, l.zeros, f);
  }

  lemma ZerosAndDigitsRead(value: nat, base: nat, zeros: nat, f: Flags)
    requires IsBase(base)
    ensures Value(Reverse(Rep('0', zeros) + Numeral(value, base, f)), base) == value
  {
    var digits := RevDigits(value, base, f.upper);
    NumeralValue(value, base, f.upper);
    ValueWithZeros(digits, Rep('0', zeros), base);
    hide RevDigits, Value;
    assert Reverse(Rep('0', zeros) + Reverse(digits)) == digits + Rep('0', zeros);
  }

  // ----- The code's arithmetic

  /** The digit buffer before finalization, last digit first (src/printf/printf.c:530-550). */
  function FirstDigits(value: nat, base: nat, f: Flags): string
    requires IsBase(base)
  {
    if value != 0 then RevDigits(value, base, f.upper) else if f.precision then "" else "0"
  }

  /** The flags after that: `#` is dropped for most zeros. */
  function FlagsAfterDigits(value: nat, base: nat, f: Flags): Flags {
    if value == 0 && (!f.precision || base == 16) then f.(hash := false) else f
  }

  /** The width with room for the sign taken out (src/printf/printf.c:465-467). */
  function SignedWidth(negative: bool, width: uint16, f: Flags): uint16 {
    if !f.left && width > 0 && f.zeropad && (negative || f.plus || f.space) then width - 1 else width
  }

  /** The length after a loop that pads to `to` but never beyond the buffer. */
  function PaddedTo(len: nat, to: nat): nat {
    Max(len, Min(to, INTEGER_BUFFER))
  }

  /** src/printf/printf.c:463-475, with `width` already reduced. */
  function PaddedLength(len: nat, precision: uint16, width: uint16, f: Flags): nat {
    PaddedTo(if !f.left && f.zeropad then PaddedTo(len, width) else len, precision)
  }

  /** Digits taken back for the prefix (src/printf/printf.c:485-494); `unpadded` are never touched. */
  function TakenBack(unpadded: nat, len: nat, base: nat, precision: uint16, width: uint16, f: Flags): (r: nat)
    requires unpadded <= len
    ensures unpadded <= r <= len
  {
    if !f.precision && len > 0 && (len == precision || len == width) then
      var one := if unpadded < len then len - 1 else len;
      if one > 0 && (base == 16 || base == 2) && unpadded < one then one - 1 else one
    else len
  }

  /** The prefix in reading order, as far as the buffer has room (src/printf/printf.c:495-506). */
  function PrefixThatFits(len: nat, base: nat, f: Flags): (s: string)
    ensures |s| <= 2 && |s| <= Max(0, INTEGER_BUFFER - len)
  {
    var letter := if base == 16 && len < INTEGER_BUFFER then (if f.upper then "X" else "x")
                  else if base == 2 && len < INTEGER_BUFFER then "b" else "";
    if len + |letter| < INTEGER_BUFFER then "0" + letter else letter
  }

  /** What `print_integer_finalization` and `out_rev_` make of `digits` digits. */
  function CodeLayout(digits: nat, negative: bool, base: nat, precision: uint16, width: uint16, f: Flags): (l: Layout) {
    var w := SignedWidth(negative, width, f);
    var padded := PaddedLength(digits, precision, w, f);
    var hash := f.hash && !(base == 8 && padded > digits);
    var len := if hash then TakenBack(digits, padded, base, precision, w, f) else padded;
    var prefix := if hash then PrefixThatFits(len, base, f) else "";
    var sign := if len + |prefix| < INTEGER_BUFFER then SignText(negative, f) else "";
    var n := len + |prefix| + |sign|;
    Layout(if f.left || f.zeropad then 0 else Max(0, w - n), sign, prefix, len - digits,
           if f.left then Max(0, w - n) else 0)
  }

  function CodeInteger(value: nat, negative: bool, base: nat, precision: uint16, width: uint16, f: Flags): string
    requires IsBase(base)
  {
    var digits := FirstDigits(value, base, f);
    Text(CodeLayout(|digits|, negative, base, precision, width, FlagsAfterDigits(value, base, f)), Reverse(digits))
  }

  // ----- They agree exactly when the number fits the buffer

  /** Sign, prefix, zeros and digits of the prescribed text. */
  function NumberLength(value: nat, digits: nat, negative: bool, base: nat, precision: uint16, width: uint16, f: Flags)
    : nat
  {
    var l := C11Layout(value, digits, negative, base, precision, width, f);
    |l.sign| + |l.prefix| + l.zeros + digits
  }

  /** The number is one too long for the digit buffer by the blank that stands for a plus sign, and
      the field is padded on the left with blanks anyway. */
  predicate BlankOver(value: nat, digits: nat, negative: bool, base: nat, precision: uint16, width: uint16, f: Flags) {
    && NumberLength(value, digits, negative, base, precision, width, f) == INTEGER_BUFFER + 1 <= width
    && SignText(negative, f) == " " && !f.left && !f.zeropad
  }

  predicate FitsBuffer(value: nat, negative: bool, base: nat, precision: uint16, width: uint16, f: Flags)
    requires IsBase(base)
  {
    var digits := |Numeral(value, base, f)|;
    || NumberLength(value, digits, negative, base, precision, width, f) <= INTEGER_BUFFER
    || BlankOver(value, digits, negative, base, precision, width, f)
  }

  /** A single zero digit is no digit and one zero. */
  lemma ZeroDigit(l: Layout)
    ensures Text(l, "0") == Text(l.(zeros := l.zeros + 1), "")
  {
    assert Rep('0', l.zeros) + "0" == Rep('0', l.zeros + 1) + "";
  }

  /** The octal prefix is one more zero. */
  function PrefixAsZero(l: Layout): Layout {
    if l.prefix == "0" then l.(prefix := "", zeros := l.zeros + 1) else l
  }

  lemma PrefixIsZero(l: Layout, numeral: string)
    ensures Text(PrefixAsZero(l), numeral) == Text(l, numeral)
  {
    if l.prefix == "0" {
      assert "0" + Rep('0', l.zeros) == "" + Rep('0', l.zeros + 1);
      assert l.sign + "0" + Rep('0', l.zeros) == l.sign + "" + Rep('0', l.zeros + 1);
    }
  }

  /** The code's layout in terms of the numeral, counting as zeros the digit written for zero and
      the octal prefix. */
  function CodeZeros(value: nat, digits: nat, negative: bool, base: nat, precision: uint16, width: uint16, f: Flags)
    : Layout
  {
    var g := FlagsAfterDigits(value, base, f);
    if value == 0 && !f.precision then
      var l := CodeLayout(1, negative, base, precision, width, g);
      PrefixAsZero(l.(zeros := l.zeros + 1))
    else PrefixAsZero(CodeLayout(digits, negative, base, precision, width, g))
  }

  lemma CodeIntegerAsLayout(value: nat, negative: bool, base: nat, precision: uint16, width: uint16, f: Flags)
    requires IsBase(base)
    ensures CodeInteger(value, negative, base, precision, width, f)
         == Text(CodeZeros(value, |Numeral(value, base, f)|, negative, base, precision, width, f),
                 Numeral(value, base, f))
  {
    var digits := FirstDigits(value, base, f);
    var l := CodeLayout(|digits|, negative, base, precision, width, FlagsAfterDigits(value, base, f));
    if value == 0 && !f.precision {
      assert Reverse("0") == "0" && Numeral(value, base, f) == "";
      ZeroDigit(l);
      PrefixIsZero(l.(zeros := l.zeros + 1), "");
    } else {
      PrefixIsZero(l, Numeral(value, base, f));
    }
  }

  /** When everything fits the two layouts are the same. */
  lemma SameLayout(value: nat, digits: nat, negative: bool, base: nat, precision: uint16, width: uint16, f: Flags)
    requires Prepared(negative, base, precision, f) && (value == 0 <==> digits == 0)
    requires NumberLength(value, digits, negative, base, precision, width, f) <= INTEGER_BUFFER
    ensures CodeZeros(value, digits, negative, base, precision, width, f)
         == C11Layout(value, digits, negative, base, precision, width, f)
  {
    assert "0" + "x" == "0x" && "0" + "X" == "0X" && "0" + "" == "0";
    if base == 16 {
      SameInHex(value, digits, precision, width, f);
    } else if base == 8 {
      SameInOctal(value, digits, precision, width, f);
    } else {
      SameInDecimal(value, digits, negative, precision, width, f);
    }
  }

  lemma SameInHex(value: nat, digits: nat, precision: uint16, width: uint16, f: Flags)
    requires Prepared(false, 16, precision, f) && (value == 0 <==> digits == 0)
    requires NumberLength(value, digits, false, 16, precision, width, f) <= INTEGER_BUFFER
    ensures CodeZeros(value, digits, false, 16, precision, width, f)
         == C11Layout(value, digits, false, 16, precision, width, f)
  {
    if f.hash && value != 0 {
      SameWithPrefix(value, digits, precision, width, f);
    }
  }

  /** Zero padding made room for the prefix by taking digits back. */
  lemma SameWithPrefix(value: nat, digits: nat, precision: uint16, width: uint16, f: Flags)
    requires Prepared(false, 16, precision, f) && f.hash && value != 0 && digits > 0
    requires NumberLength(value, digits, false, 16, precision, width, f) <= INTEGER_BUFFER
    ensures CodeZeros(value, digits, false, 16, precision, width, f)
         == C11Layout(value, digits, false, 16, precision, width, f)
  {
    assert "0" + "x" == "0x" && "0" + "X" == "0X";
    if f.zeropad && !f.left {
      var padded := PaddedLength(digits, precision, width, f);
      var len := TakenBack(digits, padded, 16, precision, width, f);
      assert len == Max(digits, width - 2);
    }
  }

  lemma SameInOctal(value: nat, digits: nat, precision: uint16, width: uint16, f: Flags)
    requires Prepared(false, 8, precision, f) && (value == 0 <==> digits == 0)
    requires NumberLength(value, digits, false, 8, precision, width, f) <= INTEGER_BUFFER
    ensures CodeZeros(value, digits, false, 8, precision, width, f)
         == C11Layout(value, digits, false, 8, precision, width, f)
  {
    hide Text, Rep;
    assert "0" + "" == "0";
  }

  lemma SameInDecimal(value: nat, digits: nat, negative: bool, precision: uint16, width: uint16, f: Flags)
    requires Prepared(negative, 10, precision, f) && (value == 0 <==> digits == 0)
    requires NumberLength(value, digits, negative, 10, precision, width, f) <= INTEGER_BUFFER
    ensures CodeZeros(value, digits, negative, 10, precision, width, f)
         == C11Layout(value, digits, negative, 10, precision, width, f)
  {
    if f.zeropad && !f.left {
      SameZeroPadded(value, digits, negative, precision, width, f);
    } else {
      SameBlankPadded(value, digits, negative, precision, width, f);
    }
  }

  lemma SameBlankPadded(value: nat, digits: nat, negative: bool, precision: uint16, width: uint16, f: Flags)
    requires Prepared(negative, 10, precision, f) && (value == 0 <==> digits == 0) && (f.zeropad ==> f.left)
    requires NumberLength(value, digits, negative, 10, precision, width, f) <= INTEGER_BUFFER
    ensures CodeZeros(value, digits, negative, 10, precision, width, f)
         == C11Layout(value, digits, negative, 10, precision, width, f)
  {
    hide Text, Rep;
  }

  lemma SameZeroPadded(value: nat, digits: nat, negative: bool, precision: uint16, width: uint16, f: Flags)
    requires Prepared(negative, 10, precision, f) && (value == 0 <==> digits == 0) && f.zeropad && !f.left
    requires NumberLength(value, digits, negative, 10, precision, width, f) <= INTEGER_BUFFER
    ensures CodeZeros(value, digits, negative, 10, precision, width, f)
         == C11Layout(value, digits, negative, 10, precision, width, f)
  {
    var shown := Max(1, digits);
    assert PaddedLength(shown, precision, SignedWidth(negative, width, f), f)
        == Max(shown, SignedWidth(negative, width, f));
  }

  /** The blank sign dropped for want of room reappears as padding. */
  lemma BlankAbsorbed(value: nat, digits: nat, precision: uint16, width: uint16, f: Flags, numeral: string)
    requires Prepared(false, 10, precision, f) && (value == 0 <==> digits == 0)
    requires BlankOver(value, digits, false, 10, precision, width, f)
    ensures Text(CodeZeros(value, digits, false, 10, precision, width, f), numeral)
         == Text(C11Layout(value, digits, false, 10, precision, width, f), numeral)
  {
    var l := C11Layout(value, digits, false, 10, precision, width, f);
    assert CodeZeros(value, digits, false, 10, precision, width, f) == l.(left := l.left + 1, sign := "");
    assert Rep(' ', l.left) + " " == Rep(' ', l.left + 1) + "";
  }

  function LayoutLength(l: Layout): nat { |l.sign| + |l.prefix| + l.zeros }

  /** The number with its `digits` digits fills at most the buffer, and blanks pad it to the width it
      is given unless zeros do. */
  predicate PaddedNumber(l: Layout, digits: nat, width: uint16, f: Flags) {
    var n := LayoutLength(l) + digits;
    && n <= INTEGER_BUFFER
    && (f.left ==> l.left == 0 && l.right == Max(0, width - n))
    && (!f.left ==> l.right == 0 && l.left == if f.zeropad then 0 else Max(0, width - n))
  }

  lemma CodeLayoutFits(digits: nat, negative: bool, base: nat, precision: uint16, width: uint16, f: Flags)
    requires digits <= INTEGER_BUFFER
    ensures PaddedNumber(CodeLayout(digits, negative, base, precision, width, f), digits, width, f)
  {
    hide TakenBack, PrefixThatFits;
  }

  lemma CodeNumberFits(value: nat, digits: nat, negative: bool, base: nat, precision: uint16, width: uint16, f: Flags)
    requires digits <= INTEGER_BUFFER && (value == 0 <==> digits == 0)
    ensures PaddedNumber(CodeZeros(value, digits, negative, base, precision, width, f), digits, width, f)
  {
    var shown := if value == 0 && !f.precision then 1 else digits;
    CodeLayoutFits(shown, negative, base, precision, width, FlagsAfterDigits(value, base, f));
    hide CodeLayout;
  }

  ghost predicate NoBlank(s: string) { forall i :: 0 <= i < |s| ==> s[i] != ' ' }

  function Body(l: Layout, numeral: string): string { l.sign + l.prefix + Rep('0', l.zeros) + numeral }

  /** Where the blanks of a layout are. */
  lemma TextParts(l: Layout, numeral: string)
    requires NoBlank(l.prefix) && NoBlank(numeral)
    ensures var t, n := Text(l, numeral), |Body(l, numeral)|;
            && |t| == l.left + n + l.right
            && (forall i :: 0 <= i < l.left || l.left + n <= i < |t| ==> t[i] == ' ')
            && (forall i :: l.left + |l.sign| <= i < l.left + n ==> t[i] != ' ')
            && (|l.sign| == 1 ==> t[l.left] == l.sign[0])
  {
    assert Text(l, numeral) == Rep(' ', l.left) + Body(l, numeral) + Rep(' ', l.right);
  }

  lemma NumeralNoBlank(value: nat, base: nat, f: Flags)
    requires IsBase(base)
    ensures NoBlank(Numeral(value, base, f)) && (value == 0 <==> Numeral(value, base, f) == "")
  {
    NumeralDigits(value, base, f.upper);
    var r := RevDigits(value, base, f.upper);
    assert forall i :: 0 <= i < |r| ==> IsDigit(r[i], base, f.upper);
  }

  /** Two layouts of the same numeral, one of at most 32 characters and one of more, padded to the
      same width on the same side (or not at all, if the longer fills it): the texts differ in length
      or by a blank out of place. */
  lemma LayoutsDiffer(lc: Layout, ls: Layout, numeral: string, width: nat, left: bool)
    requires NoBlank(lc.prefix) && NoBlank(ls.prefix) && NoBlank(numeral) && |ls.sign| <= 1
    requires |Body(lc, numeral)| <= INTEGER_BUFFER < |Body(ls, numeral)|
    requires ls.sign == " " && !left && lc.left > 0 && |Body(ls, numeral)| <= width ==>
               |Body(ls, numeral)| > INTEGER_BUFFER + 1
    requires left ==> lc.left == 0 && lc.right == Max(0, width - |Body(lc, numeral)|)
    requires left ==> ls.left == 0 && ls.right == Max(0, width - |Body(ls, numeral)|)
    requires !left ==> lc.right == 0 && lc.left <= Max(0, width - |Body(lc, numeral)|)
    requires !left ==> ls.right == 0 && ls.left == Max(0, width - |Body(ls, numeral)|)
    ensures Text(lc, numeral) != Text(ls, numeral)
  {
    TextParts(lc, numeral);
    TextParts(ls, numeral);
    hide Text, Rep, Body;
    var c, t, n := Text(lc, numeral), Text(ls, numeral), |Body(ls, numeral)|;
    if |c| == |t| {
      if left {
        assert c[n - 1] == ' ' && t[n - 1] != ' ';
      } else {
        var i := if ls.sign == " " then width - n + 1 else width - n;
        assert c[i] == ' ' && t[i] != ' ';
      }
    }
  }

  /** A number that does not fit comes out differently. */
  lemma TooLongDiffers(value: nat, numeral: string, negative: bool, base: nat, precision: uint16, width: uint16,
                       f: Flags)
    requires Prepared(negative, base, precision, f)
    requires NoBlank(numeral) && |numeral| <= INTEGER_BUFFER && (value == 0 <==> numeral == "")
    requires NumberLength(value, |numeral|, negative, base, precision, width, f) > INTEGER_BUFFER
    requires !BlankOver(value, |numeral|, negative, base, precision, width, f)
    ensures Text(CodeZeros(value, |numeral|, negative, base, precision, width, f), numeral)
         != Text(C11Layout(value, |numeral|, negative, base, precision, width, f), numeral)
  {
    var lc := CodeZeros(value, |numeral|, negative, base, precision, width, f);
    var ls := C11Layout(value, |numeral|, negative, base, precision, width, f);
    CodeNumberFits(value, |numeral|, negative, base, precision, width, f);
    C11Blanks(value, |numeral|, negative, base, precision, width, f);
    CodePrefixNoBlank(value, |numeral|, negative, base, precision, width, f);
    hide CodeZeros, C11Layout, Text, Rep, SignText;
    LayoutsDiffer(lc, ls, numeral, width, f.left);
  }

  lemma C11Blanks(value: nat, digits: nat, negative: bool, base: nat, precision: uint16, width: uint16, f: Flags)
    requires Prepared(negative, base, precision, f)
    ensures var l := C11Layout(value, digits, negative, base, precision, width, f);
            var n := |l.sign| + |l.prefix| + l.zeros + digits;
            && NoBlank(l.prefix) && l.sign == SignText(negative, f) && (l.sign != "" ==> l.prefix == "")
            && (f.left ==> l.left == 0 && l.right == Max(0, width - n))
            && (!f.left ==> l.right == 0 && l.left == if f.zeropad then 0 else Max(0, width - n))
            && (f.zeropad && !f.left ==> n >= width)
  {
  }

  lemma CodePrefixNoBlank(value: nat, digits: nat, negative: bool, base: nat, precision: uint16, width: uint16,
                          f: Flags)
    requires Prepared(negative, base, precision, f)
    ensures NoBlank(CodeZeros(value, digits, negative, base, precision, width, f).prefix)
  {
  }

  /** The integer conversions do what ISO C11 says for exactly the arguments whose number fits the
      32-character buffer, or whose only excess is a blank sign that the padding makes up for. */
  lemma IntegerIff(value: uint32, negative: bool, base: nat, precision: uint16, width: uint16, f: Flags)
    requires Prepared(negative, base, precision, f)
    ensures CodeInteger(value, negative, base, precision, width, f)
         == C11Integer(value, negative, base, precision, width, f)
       <==> FitsBuffer(value, negative, base, precision, width, f)
  {
    hide *;
    PreparedBase(negative, base, precision, f);
    var numeral := Numeral(value, base, f);
    CodeIntegerAsLayout(value, negative, base, precision, width, f);
    C11IntegerAsLayout(value, negative, base, precision, width, f);
    NumeralNoBlank(value, base, f);
    if NumberLength(value, |numeral|, negative, base, precision, width, f) <= INTEGER_BUFFER {
      SameLayout(value, |numeral|, negative, base, precision, width, f);
    } else if BlankOver(value, |numeral|, negative, base, precision, width, f) {
      BlankOverIsDecimal(value, |numeral|, negative, base, precision, width, f);
      BlankAbsorbed(value, |numeral|, precision, width, f, numeral);
    } else {
      TooLongDiffers(value, numeral, negative, base, precision, width, f);
    }
  }

  lemma PreparedBase(negative: bool, base: nat, precision: uint16, f: Flags)
    requires Prepared(negative, base, precision, f)
    ensures IsBase(base)
  {
  }

  lemma C11IntegerAsLayout(value: uint32, negative: bool, base: nat, precision: uint16, width: uint16, f: Flags)
    requires IsBase(base)
    ensures var numeral := Numeral(value, base, f);
            && |numeral| <= INTEGER_BUFFER
            && C11Integer(value, negative, base, precision, width, f)
            == Text(C11Layout(value, |numeral|, negative, base, precision, width, f), numeral)
            && (FitsBuffer(value, negative, base, precision, width, f) <==>
                  || NumberLength(value, |numeral|, negative, base, precision, width, f) <= INTEGER_BUFFER
                  || BlankOver(value, |numeral|, negative, base, precision, width, f))
  {
    DigitsFit(value, base, f.upper);
  }

  lemma BlankOverIsDecimal(value: nat, digits: nat, negative: bool, base: nat, precision: uint16, width: uint16,
                           f: Flags)
    requires Prepared(negative, base, precision, f) && BlankOver(value, digits, negative, base, precision, width, f)
    ensures base == 10 && !negative
  {
  }

  // ----- What is printed of a number that does not fit

  /** The last 32 characters. */
  function Last32(s: string): (r: string)
    ensures |r| <= 32
  {
    if |s| <= 32 then s else s[|s| - 32..]
  }

  lemma ShortIsAll(s: string)
    ensures |s| <= 32 ==> Last32(s) == s
  {
  }

  function InBlanks(shown: string, width: nat, f: Flags): string {
    if f.left then shown + Rep(' ', width - |shown|)
    else if f.zeropad then shown
    else Rep(' ', width - |shown|) + shown
  }

  /** Zeros that pad to 33 columns leave no room for a `0x`, and the code has not made any. */
  predicate CoversX(value: nat, base: nat, width: uint16, f: Flags) {
    base == 16 && value != 0 && f.hash && f.zeropad && !f.left && width == 33
  }

  /** The last 32 characters; where zeros cover the `x` of the prefix one more zero in its place. */
  function Kept(s: string, covered: bool): (r: string)
    ensures |r| <= 32
  {
    if covered then Rep('0', 1) + Last32(s)[Min(1, |Last32(s)|)..] else Last32(s)
  }

  /** Where the code's layout of a number that is too long differs from the prescribed one: there is no
      room for the sign, nor for the prefix or its `0`, nor for all zeros, in this order. */
  predicate CutLayout(lc: Layout, ls: Layout, digits: nat, covered: bool) {
    && lc.sign == ""
    && if covered then
         |ls.prefix| == 2 && lc.prefix == "" && lc.zeros == ls.zeros + 1 && lc.zeros + digits == 32 && ls.sign == ""
       else
         || (lc.prefix == "" && lc.zeros + digits == 32 && ls.zeros >= lc.zeros)
         || (|ls.prefix| == 2 && lc.prefix == ls.prefix[1..] && lc.zeros + digits == 31 && ls.zeros == lc.zeros)
  }

  lemma TooLongIsCut(value: nat, digits: nat, negative: bool, base: nat, precision: uint16, width: uint16, f: Flags)
    requires Prepared(negative, base, precision, f) && (value == 0 <==> digits == 0) && digits <= 11
    requires NumberLength(value, digits, negative, base, precision, width, f) > 32
    ensures CutLayout(CodeZeros(value, digits, negative, base, precision, width, f),
                      C11Layout(value, digits, negative, base, precision, width, f),
                      digits, CoversX(value, base, width, f))
  {
    assert "0" + "x" == "0x" && "0" + "X" == "0X" && "0" + "" == "0";
    assert "0x"[1..] == "x" && "0X"[1..] == "X";
    if base == 16 {
      CutInHex(value, digits, precision, width, f);
    } else if base == 8 {
      CutInOctal(value, digits, precision, width, f);
    } else {
      CutInDecimal(value, digits, negative, precision, width, f);
    }
  }

  lemma CutInHex(value: nat, digits: nat, precision: uint16, width: uint16, f: Flags)
    requires Prepared(false, 16, precision, f) && (value == 0 <==> digits == 0) && digits <= 11
    requires NumberLength(value, digits, false, 16, precision, width, f) > 32
    ensures CutLayout(CodeZeros(value, digits, false, 16, precision, width, f),
                      C11Layout(value, digits, false, 16, precision, width, f), digits, CoversX(value, 16, width, f))
  {
    hide Text, Rep;
    assert "0" + "x" == "0x" && "0" + "X" == "0X" && "0" + "" == "0";
    assert "0x"[1..] == "x" && "0X"[1..] == "X";
  }

  lemma CutInOctal(value: nat, digits: nat, precision: uint16, width: uint16, f: Flags)
    requires Prepared(false, 8, precision, f) && (value == 0 <==> digits == 0) && digits <= 11
    requires NumberLength(value, digits, false, 8, precision, width, f) > 32
    ensures CutLayout(CodeZeros(value, digits, false, 8, precision, width, f),
                      C11Layout(value, digits, false, 8, precision, width, f), digits, false)
  {
    hide Text, Rep;
    assert "0" + "" == "0";
  }

  lemma CutInDecimal(value: nat, digits: nat, negative: bool, precision: uint16, width: uint16, f: Flags)
    requires Prepared(negative, 10, precision, f) && (value == 0 <==> digits == 0) && digits <= 11
    requires NumberLength(value, digits, negative, 10, precision, width, f) > 32
    ensures CutLayout(CodeZeros(value, digits, negative, 10, precision, width, f),
                      C11Layout(value, digits, negative, 10, precision, width, f), digits, false)
  {
    if f.zeropad && !f.left {
      CutZeroPadded(value, digits, negative, precision, width, f);
    } else {
      CutBlankPadded(value, digits, negative, precision, width, f);
    }
  }

  lemma CutZeroPadded(value: nat, digits: nat, negative: bool, precision: uint16, width: uint16, f: Flags)
    requires Prepared(negative, 10, precision, f) && (value == 0 <==> digits == 0) && digits <= 11
    requires f.zeropad && !f.left
    requires NumberLength(value, digits, negative, 10, precision, width, f) > 32
    ensures CutLayout(CodeZeros(value, digits, negative, 10, precision, width, f),
                      C11Layout(value, digits, negative, 10, precision, width, f), digits, false)
  {
    hide Text, Rep;
    var shown := Max(1, digits);
    assert PaddedLength(shown, precision, SignedWidth(negative, width, f), f) == 32;
  }

  lemma CutBlankPadded(value: nat, digits: nat, negative: bool, precision: uint16, width: uint16, f: Flags)
    requires Prepared(negative, 10, precision, f) && (value == 0 <==> digits == 0) && digits <= 11
    requires f.zeropad ==> f.left
    requires NumberLength(value, digits, negative, 10, precision, width, f) > 32
    ensures CutLayout(CodeZeros(value, digits, negative, 10, precision, width, f),
                      C11Layout(value, digits, negative, 10, precision, width, f), digits, false)
  {
    hide Text, Rep;
  }

  lemma CutBody(lc: Layout, ls: Layout, numeral: string, covered: bool)
    requires CutLayout(lc, ls, |numeral|, covered) && |Body(ls, numeral)| > 32
    ensures Body(lc, numeral) == Kept(Body(ls, numeral), covered)
  {
    if covered {
      CoveredBody(lc, ls, numeral);
    } else if lc.prefix == "" {
      var lost := ls.zeros - lc.zeros;
      SplitRep('0', lost, lc.zeros);
      LastOf(ls.sign + ls.prefix + Rep('0', lost), Rep('0', lc.zeros) + numeral, Body(ls, numeral));
    } else {
      assert ls.prefix == ls.prefix[..1] + ls.prefix[1..];
      LastOf(ls.sign + ls.prefix[..1], ls.prefix[1..] + Rep('0', ls.zeros) + numeral, Body(ls, numeral));
    }
  }

  lemma CoveredBody(lc: Layout, ls: Layout, numeral: string)
    requires CutLayout(lc, ls, |numeral|, true)
    ensures Body(lc, numeral) == Kept(Body(ls, numeral), true)
  {
    var tail := Rep('0', ls.zeros) + numeral;
    assert ls.prefix == ls.prefix[..1] + ls.prefix[1..];
    LastOf(ls.prefix[..1], ls.prefix[1..] + tail, Body(ls, numeral));
    assert (ls.prefix[1..] + tail)[1..] == tail;
    SplitRep('0', 1, ls.zeros);
  }

  lemma SplitRep(c: char, a: nat, b: nat)
    ensures Rep(c, a + b) == Rep(c, a) + Rep(c, b)
  {
  }

  lemma LastOf(a: string, b: string, s: string)
    requires s == a + b && |b| == 32
    ensures |s| > 32 ==> Last32(s) == b
  {
  }

  /** What the code prints for every 32-bit value, base, flag set, width and precision: of the sign,
      prefix, zeros and digits ISO C11 prescribes the last 32 characters, in a field of blanks, of which
      there are none on the left with an effective zero flag. A `0x` number padded with zeros to exactly
      33 columns shows a zero for its `x`. */
  lemma CodePrintsLast32(value: uint32, negative: bool, base: nat, precision: uint16, width: uint16, f: Flags)
    requires Prepared(negative, base, precision, f)
    ensures var numeral := Numeral(value, base, f);
            var l := C11Layout(value, |numeral|, negative, base, precision, width, f);
            CodeInteger(value, negative, base, precision, width, f)
            == InBlanks(Kept(l.sign + l.prefix + Rep('0', l.zeros) + numeral, CoversX(value, base, width, f)), width, f)
  {
    hide *;
    PreparedBase(negative, base, precision, f);
    var numeral := Numeral(value, base, f);
    CodeIntegerAsLayout(value, negative, base, precision, width, f);
    C11IntegerAsLayout(value, negative, base, precision, width, f);
    NumeralNoBlank(value, base, f);
    ShortNumeral(value, negative, base, precision, f);
    LastOfLayout(value, numeral, negative, base, precision, width, f);
  }

  lemma ShortNumeral(value: uint32, negative: bool, base: nat, precision: uint16, f: Flags)
    requires Prepared(negative, base, precision, f)
    ensures |Numeral(value, base, f)| <= 11
  {
    ElevenDigits(value, base, f.upper);
  }

  lemma CoveredIsLong(value: nat, digits: nat, negative: bool, base: nat, precision: uint16, width: uint16, f: Flags)
    requires Prepared(negative, base, precision, f)
    ensures CoversX(value, base, width, f) ==> NumberLength(value, digits, negative, base, precision, width, f) > 32
  {
  }

  lemma LastOfLayout(value: nat, numeral: string, negative: bool, base: nat, precision: uint16, width: uint16,
                     f: Flags)
    requires Prepared(negative, base, precision, f) && (value == 0 <==> numeral == "") && |numeral| <= 11
    ensures var l := C11Layout(value, |numeral|, negative, base, precision, width, f);
            Text(CodeZeros(value, |numeral|, negative, base, precision, width, f), numeral)
            == InBlanks(Kept(l.sign + l.prefix + Rep('0', l.zeros) + numeral, CoversX(value, base, width, f)), width, f)
  {
    var lc := CodeZeros(value, |numeral|, negative, base, precision, width, f);
    var ls := C11Layout(value, |numeral|, negative, base, precision, width, f);
    CodeNumberFits(value, |numeral|, negative, base, precision, width, f);
    hide Text, Rep, CodeZeros, InBlanks, Last32, C11Layout;
    CoveredIsLong(value, |numeral|, negative, base, precision, width, f);
    assert |Body(ls, numeral)| == NumberLength(value, |numeral|, negative, base, precision, width, f);
    hide NumberLength, Prepared, CoversX, PaddedNumber, CutLayout;
    if NumberLength(value, |numeral|, negative, base, precision, width, f) <= INTEGER_BUFFER {
      ShortIsAll(Body(ls, numeral));
      SameLayout(value, |numeral|, negative, base, precision, width, f);
    } else {
      TooLongIsCut(value, |numeral|, negative, base, precision, width, f);
      CutBody(lc, ls, numeral, CoversX(value, base, width, f));
    }
    PaddedText(lc, numeral, width, f);
  }

  lemma PaddedText(l: Layout, numeral: string, width: uint16, f: Flags)
    requires PaddedNumber(l, |numeral|, width, f)
    ensures Text(l, numeral) == InBlanks(Body(l, numeral), width, f)
  {
    assert Text(l, numeral) == Rep(' ', l.left) + Body(l, numeral) + Rep(' ', l.right);
  }

  // ----- Precision zero in place of none

  /** Giving up the precision of 1 and the zero flag is harmless: the value shows a digit anyway, and
      zeros would not have padded it. `f` has no precision. */
  predicate PrecisionIsMoot(value: nat, negative: bool, base: nat, width: uint16, f: Flags)
    requires IsBase(base)
  {
    && (value != 0 || (base == 8 && f.hash))
    && !(f.zeropad && !f.left
         && width > NumberLength(value, |Numeral(value, base, f)|, negative, base, 0, width, f.(zeropad := false)))
  }

  /** With precision zero where the standard sees no precision (src/printf/printf.c:1086-1090), the
      conversion prints what the standard says for exactly these arguments. */
  lemma PrecisionIsMootIff(value: uint32, negative: bool, base: nat, width: uint16, f: Flags)
    requires Prepared(negative, base, 0, f) && !f.precision
    ensures CodeInteger(value, negative, base, 0, width, f.(zeropad := false, precision := true))
         == C11Integer(value, negative, base, 0, width, f)
       <==> PrecisionIsMoot(value, negative, base, width, f)
  {
    var g := f.(zeropad := false, precision := true);
    hide CodeInteger, RevDigits, FitsBuffer, C11Layout, NumberLength, Text;
    PrecisionZeroFits(value, negative, base, width, g);
    IntegerIff(value, negative, base, 0, width, g);
    NumeralNoBlank(value, base, f);
    var numeral := Numeral(value, base, f);
    LayoutsAgreeIff(value, numeral, negative, base, width, f,
                    NumberLength(value, |numeral|, negative, base, 0, width, f.(zeropad := false)));
  }

  /** Without a precision to fill, no 32-bit number comes near the size of the digit buffer. */
  lemma PrecisionZeroFits(value: uint32, negative: bool, base: nat, width: uint16, g: Flags)
    requires Prepared(negative, base, 0, g) && !g.zeropad
    ensures FitsBuffer(value, negative, base, 0, width, g)
  {
    ElevenDigits(value, base, g.upper);
    hide RevDigits;
  }

  /** Where the layouts with precision zero and without precision differ. */
  lemma LayoutPair(value: nat, digits: nat, negative: bool, base: nat, width: uint16, f: Flags, lg: Layout, lf: Layout)
    requires Prepared(negative, base, 0, f) && !f.precision && (value == 0 <==> digits == 0)
    requires lg == C11Layout(value, digits, negative, base, 0, width, f.(zeropad := false, precision := true))
    requires lf == C11Layout(value, digits, negative, base, 0, width, f)
    ensures lg.sign == lf.sign == SignText(negative, f) && lg.prefix == lf.prefix == C11Prefix(value, base, f)
    ensures value == 0 && !(base == 8 && f.hash) ==> lg.zeros == 0 < lf.zeros
    ensures var n := NumberLength(value, digits, negative, base, 0, width, f.(zeropad := false));
            value != 0 || (base == 8 && f.hash) ==>
              if f.zeropad && !f.left && width > n then lg.left > 0 && lf.left == 0 && lf.zeros > 0 else lg == lf
  {
  }

  lemma LayoutsAgreeIff(value: nat, numeral: string, negative: bool, base: nat, width: uint16, f: Flags, n: nat)
    requires Prepared(negative, base, 0, f) && !f.precision
    requires value == 0 <==> numeral == ""
    requires n == NumberLength(value, |numeral|, negative, base, 0, width, f.(zeropad := false))
    ensures Text(C11Layout(value, |numeral|, negative, base, 0, width, f.(zeropad := false, precision := true)),
                 numeral)
         == Text(C11Layout(value, |numeral|, negative, base, 0, width, f), numeral)
       <==> (value != 0 || (base == 8 && f.hash)) && !(f.zeropad && !f.left && width > n)
  {
    var g := f.(zeropad := false, precision := true);
    var lg := C11Layout(value, |numeral|, negative, base, 0, width, g);
    var lf := C11Layout(value, |numeral|, negative, base, 0, width, f);
    hide C11Layout, NumberLength, Text;
    LayoutPair(value, |numeral|, negative, base, width, f, lg, lf);
    if value == 0 && !(base == 8 && f.hash) {
      OnlyOneShowsZero(lg, lf);
      assert numeral == "";
    } else if f.zeropad && !f.left && width > n {
      BlanksAreNotZeros(lg, lf, numeral);
    }
  }

  /** No digit on one side, a zero on the other. */
  lemma OnlyOneShowsZero(lg: Layout, lf: Layout)
    requires lg.prefix == lf.prefix == "" && lg.zeros == 0 < lf.zeros
    requires |lg.sign| <= 1 && (|lg.sign| == 1 ==> lg.sign[0] != '0')
    ensures Text(lg, "") != Text(lf, "")
  {
    var i := lf.left + |lf.sign|;
    assert Text(lf, "")[i] == '0';
    assert '0' !in Text(lg, "");
  }

  /** Blanks on one side where zeros are on the other. */
  lemma BlanksAreNotZeros(lg: Layout, lf: Layout, numeral: string)
    requires lg.left > 0 && lf.left == 0 && lf.zeros > 0
    requires lg.sign == lf.sign && |lg.sign| <= 1 && (|lg.sign| == 1 ==> lg.sign[0] != '0')
    requires lf.prefix != "" ==> lf.prefix[0] == '0'
    ensures Text(lg, numeral) != Text(lf, numeral)
  {
    var i := |lf.sign|;
    assert Text(lf, numeral)[i] == '0';
    assert Text(lg, numeral)[i] == if i == 0 || lg.left > 1 then ' ' else lg.sign[0];
  }
}
