/** Reading a format string the way src/printf/printf.c:1024-1347 does, on values: what is left of
    the string and of the arguments is passed on. */
module FormatParse {
  import opened Bytes
  import opened OutputGadget
  import opened Digits
  import opened IntegerText
  import opened IntegerOutput

  /** What `va_arg` finds: an `int` or `unsigned`, a `long`, or a string. */
  datatype Arg = Word(w: uint16) | Long(v: uint32) | Str(s: CString) | Null

  /** A conversion specification up to its last letter; or the string ended where the code notices
      (`Cut`); or the code is outside what is modelled (`Unmodelled`): no argument of the right kind,
      or a length modifier left out. */
  datatype Spec =
    | Cut
    | Unmodelled
    | Spec(f: Flags, width: uint16, precision: uint16, rest: string, args: seq<Arg>)

  predicate IsDecimal(c: char) { '0' <= c <= '9' }

  function Head(s: string): char { if s == "" then NUL else s[0] }

  /** The flag a character stands for, added to `f`. */
  function AddFlag(f: Flags, c: char): Flags {
    match c
    case '0' => f.(zeropad := true)
    case '-' => f.(left := true)
    case '+' => f.(plus := true)
    case ' ' => f.(space := true)
    case '#' => f.(hash := true)
    case _ => f
  }

  predicate IsFlag(c: char) { c == '0' || c == '-' || c == '+' || c == ' ' || c == '#' }

  /** `parse_flags` (src/printf/printf.c:1024-1037) */
  function ParseFlags(s: string, f: Flags): (r: (Flags, string))
    ensures |r.1| <= |s|
  {
    if s != "" && IsFlag(s[0]) then ParseFlags(s[1..], AddFlag(f, s[0])) else (f, s)
  }

  /** `atou_` (src/printf/printf.c:420-427) in 16-bit arithmetic, from `n` on. */
  function ScanNumber(s: string, n: uint16): (r: (uint16, string))
    ensures |r.1| <= |s|
  {
    if s != "" && IsDecimal(s[0]) then
      ScanNumber(s[1..], (n * 10 + (s[0] as int - '0' as int)) % 0x1_0000)
    else (n, s)
  }

  /** src/printf/printf.c:1061-1076 */
  function ParseWidth(f: Flags, s: string, args: seq<Arg>): (r: Spec)
    ensures r.Spec? ==> |r.rest| <= |s|
  {
    if IsDecimal(Head(s)) then
      var (n, rest) := ScanNumber(s, 0);
      Spec(f, n, 0, rest, args)
    else if Head(s) == '*' then
      if args == [] || !args[0].Word? then Unmodelled
      else if s[1..] == "" then Cut
      else
        var w := Int16(args[0].w);
        Spec(if w < 0 then f.(left := true) else f, if w < 0 then -w else w, 0, s[1..], args[1..])
    else Spec(f, 0, 0, s, args)
  }

  /** src/printf/printf.c:1079-1091 */
  function ParsePrecision(p: Spec): (r: Spec)
    requires p.Spec?
    ensures r.Spec? ==> |r.rest| <= |p.rest|
  {
    if Head(p.rest) != '.' then p
    else
      var s := p.rest[1..];
      var f := p.f.(precision := true);
      if s == "" then Cut
      else if IsDecimal(s[0]) then
        var (n, rest) := ScanNumber(s, 0);
        p.(f := f, precision := n, rest := rest)
      else if s[0] == '*' then
        if p.args == [] || !p.args[0].Word? then Unmodelled
        else if s[1..] == "" then Cut
        else p.(f := f, precision := Max(0, Int16(p.args[0].w)), rest := s[1..], args := p.args[1..])
      else p.(f := f, rest := s)
  }

  /** src/printf/printf.c:1094-1150 for `l`, `h` and `hh`. */
  function ParseLength(p: Spec): (r: Spec)
    requires p.Spec?
    ensures r.Spec? ==> |r.rest| <= |p.rest|
  {
    if p.rest == "" then p
    else
      var s := p.rest[1..];
      match p.rest[0]
      case 'l' =>
        if s == "" then Cut else if s[0] == 'l' then Unmodelled
        else p.(f := p.f.(long32 := true), rest := s)
      case 'h' =>
        if s == "" then Cut
        else if s[0] == 'h' then
          if s[1..] == "" then Cut else p.(f := p.f.(short16 := true, char8 := true), rest := s[1..])
        else p.(f := p.f.(short16 := true), rest := s)
      case 't' => Unmodelled
      case 'j' => Unmodelled
      case 'z' => Unmodelled
      case _ => p
  }

  /** Everything between `%` and the last letter of a conversion specification. */
  function ParseSpec(s: string, args: seq<Arg>): (r: Spec)
    ensures r.Spec? ==> |r.rest| <= |s|
  {
    var (f, s1) := ParseFlags(s, NO_FLAGS);
    var p := ParseWidth(f, s1, args);
    if !p.Spec? then p
    else
      var q := ParsePrecision(p);
      if !q.Spec? then q else ParseLength(q)
  }

  // ----- Conversions

  function Int8(x: uint16): int {
    var b := x % 0x100;
    if b < 0x80 then b else b - 0x100
  }

  function Int32(x: uint32): int {
    if x < 0x8000_0000 then x else x - 0x1_0000_0000
  }

  /** The argument of `d` and `i` (src/printf/printf.c:1200-1212). */
  function SignedArg(f: Flags, a: Arg): int
    requires if f.long32 then a.Long? else a.Word?
  {
    if f.long32 then Int32(a.v) else if f.char8 then Int8(a.w) else Int16(a.w)
  }

  /** The argument of `u`, `x`, `X` and `o` (src/printf/printf.c:1226-1233). */
  function UnsignedArg(f: Flags, a: Arg): uint32
    requires if f.long32 then a.Long? else a.Word?
  {
    if f.long32 then a.v else if f.char8 then a.w % 0x100 else a.w
  }

  predicate IsSignedLetter(c: char) { c == 'd' || c == 'i' }

  predicate IsIntegerLetter(c: char) {
    IsSignedLetter(c) || c == 'u' || c == 'x' || c == 'X' || c == 'o'
  }

  function BaseOf(c: char): nat { if c == 'x' || c == 'X' then 16 else if c == 'o' then 8 else 10 }

  /** The flags as `print_integer` gets them (src/printf/printf.c:1162-1189, 1219). */
  function IntegerFlags(c: char, f: Flags): Flags {
    f.(hash := f.hash && BaseOf(c) != 10,
       upper := f.upper || c == 'X',
       zeropad := f.zeropad && !f.precision,
       plus := f.plus && IsSignedLetter(c),
       space := f.space && IsSignedLetter(c))
  }

  function Magnitude(x: int): (m: uint32)
    requires -0x8000_0000 <= x < 0x8000_0000
  {
    if x > 0 then x else -x
  }

  /** src/printf/printf.c:1160-1238 */
  function IntegerPiece(c: char, p: Spec): string
    requires p.Spec? && p.args != [] && (if p.f.long32 then p.args[0].Long? else p.args[0].Word?)
  {
    var f := IntegerFlags(c, p.f);
    if IsSignedLetter(c) then
      var x := SignedArg(p.f, p.args[0]);
      CodeInteger(Magnitude(x), x < 0, BaseOf(c), p.precision, p.width, f)
    else CodeInteger(UnsignedArg(p.f, p.args[0]), false, BaseOf(c), p.precision, p.width, f)
  }

  /** A text in a field of blanks, counted as if it had `counted` characters. */
  function InField(text: string, counted: nat, width: uint16, left: bool): (r: string) {
    var gap := Max(0, width - counted);
    Rep(' ', if left then 0 else gap) + text + Rep(' ', if left then gap else 0)
  }

  /** `strnlen_s_` (src/printf/printf.c:403-408) */
  function StrNLen(s: string, max: nat): nat { Min(|s|, max) }

  /** The length the padding of `s` goes by (src/printf/printf.c:1284-1288). */
  function CountedLength(s: string, p: Spec): (n: uint16)
    requires p.Spec?
  {
    var l := StrNLen(s, if p.precision > 0 then p.precision else MAX_BUFFER);
    if p.f.precision then Min(l, p.precision) else l
  }

  /** What of a string is printed (src/printf/printf.c:1295-1298). */
  function Printed(s: string, p: Spec): string
    requires p.Spec?
  {
    if p.f.precision then s[..Min(|s|, p.precision)] else s
  }

  /** src/printf/printf.c:1278-1308 */
  function StringPiece(p: Spec): string
    requires p.Spec? && p.args != [] && (p.args[0].Str? || p.args[0].Null?)
  {
    match p.args[0]
    case Null => OutRevText(")llun(", p.width, p.f)
    case Str(s) => InField(Printed(s, p), CountedLength(s, p), p.width, p.f.left)
  }

  datatype Piece = Undefined | Piece(text: string, args: seq<Arg>)

  /** The last letter's effect (src/printf/printf.c:1153-1347). A missing letter (the code then runs
      past the end of the string), `b`, `p` and `n` are not modelled. */
  function Convert(p: Spec): Piece
    requires p.Spec?
  {
    if p.rest == "" then Undefined
    else
      var c := p.rest[0];
      if IsIntegerLetter(c) then
        if p.args == [] || (if p.f.long32 then !p.args[0].Long? else !p.args[0].Word?) then Undefined
        else Piece(IntegerPiece(c, p), p.args[1..])
      else if c == 'c' then
        if p.args == [] || !p.args[0].Word? then Undefined
        else Piece(InField([(p.args[0].w % 0x100) as char], 1, p.width, p.f.left), p.args[1..])
      else if c == 's' then
        if p.args == [] || !(p.args[0].Str? || p.args[0].Null?) then Undefined
        else Piece(StringPiece(p), p.args[1..])
      else if c == 'b' || c == 'p' || c == 'n' then Undefined
      else Piece([c], p.args)
  }

  /** Everything a format string puts; `Undefined` where the model has nothing to say. */
  datatype Outcome = NoMeaning | Output(text: string)

  function Prepend(t: string, o: Outcome): Outcome {
    match o
    case NoMeaning => NoMeaning
    case Output(u) => Output(t + u)
  }

  /** `format_string_loop` (src/printf/printf.c:1039-1349) */
  function Render(s: string, args: seq<Arg>): Outcome
    decreases |s|
  {
    if s == "" then Output("")
    else if s[0] != '%' then Prepend([s[0]], Render(s[1..], args))
    else if |s| == 1 then Output("")
    else
      match ParseSpec(s[1..], args)
      case Cut => Output("")
      case Unmodelled => NoMeaning
      case Spec(f, width, precision, rest, more) =>
        match Convert(Spec(f, width, precision, rest, more))
        case Undefined => NoMeaning
        case Piece(t, left) => Prepend(t, Render(rest[1..], left))
  }

  lemma PrependNothing(o: Outcome)
    ensures Prepend("", o) == o
  {
    if o.Output? {
      assert "" + o.text == o.text;
    }
  }

  lemma PrependTwice(a: string, b: string, o: Outcome)
    ensures Prepend(a, Prepend(b, o)) == Prepend(a + b, o)
  {
    if o.Output? {
      assert a + (b + o.text) == a + b + o.text;
    }
  }
}
