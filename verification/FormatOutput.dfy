/** The formatting loop of src/printf/printf.c over an output gadget. */
module FormatOutput {
  import opened Bytes
  import opened OutputGadget
  import opened Digits
  import opened IntegerText
  import opened IntegerOutput
  import opened FormatParse

  /** `*format` at a cursor: the terminating NUL at the end. */
  function At(s: string, i: nat): (c: char)
    requires i <= |s|
    ensures c == Head(s[i..])
  {
    if i < |s| then s[i] else NUL
  }

  lemma Rest<T>(s: seq<T>, i: nat)
    requires i < |s|
    ensures s[i..][0] == s[i] && s[i..][1..] == s[i + 1..]
  {
  }

  /** `parse_flags` (src/printf/printf.c:1024-1037) */
  method ReadFlags(format: string, start: nat) returns (f: Flags, i: nat)
    requires start <= |format|
    ensures start <= i <= |format| && ParseFlags(format[start..], NO_FLAGS) == (f, format[i..])
  {
    f, i := NO_FLAGS, start;
    while IsFlag(At(format, i))
      invariant start <= i <= |format|
      invariant ParseFlags(format[start..], NO_FLAGS) == ParseFlags(format[i..], f)
      decreases |format| - i
    {
      Rest(format, i);
      f := AddFlag(f, format[i]);
      i := i + 1;
    }
  }

  /** `atou_` (src/printf/printf.c:420-427) */
  method Atou(format: string, start: nat) returns (n: uint16, i: nat)
    requires start <= |format|
    ensures start <= i <= |format| && ScanNumber(format[start..], 0) == (n, format[i..])
  {
    n, i := 0, start;
    while IsDecimal(At(format, i))
      invariant start <= i <= |format|
      invariant ScanNumber(format[start..], 0) == ScanNumber(format[i..], n)
      decreases |format| - i
    {
      Rest(format, i);
      n := (n * 10 + (format[i] as int - '0' as int)) % 0x1_0000;
      i := i + 1;
    }
  }

  /** The width field (src/printf/printf.c:1061-1076). `a` counts the arguments used. */
  method ReadWidth(format: string, start: nat, flags: Flags, args: seq<Arg>, used: nat)
    returns (ok: bool, f: Flags, width: uint16, i: nat, a: nat)
    requires start <= |format| && used <= |args|
    requires !ParseWidth(flags, format[start..], args[used..]).Unmodelled?
    ensures start <= i <= |format| && used <= a <= |args|
    ensures var p := ParseWidth(flags, format[start..], args[used..]);
            if ok then p == Spec(f, width, 0, format[i..], args[a..]) else p == Cut
  {
    ok, f, width, i, a := true, flags, 0, start, used;
    if IsDecimal(At(format, i)) {
      width, i := Atou(format, i);
    } else if At(format, i) == '*' {
      Rest(args, a);
      Rest(format, i);
      var w := Int16(args[a].w);
      a := a + 1;
      if w < 0 {
        f := f.(left := true);
        width := -w;
      } else {
        width := w;
      }
      i := i + 1;
      ok := i < |format|;
    }
  }

  /** The precision field (src/printf/printf.c:1079-1091). */
  method ReadPrecision(format: string, start: nat, flags: Flags, width: uint16, args: seq<Arg>, used: nat)
    returns (ok: bool, f: Flags, precision: uint16, i: nat, a: nat)
    requires start <= |format| && used <= |args|
    requires !ParsePrecision(Spec(flags, width, 0, format[start..], args[used..])).Unmodelled?
    ensures start <= i <= |format| && used <= a <= |args|
    ensures var p := ParsePrecision(Spec(flags, width, 0, format[start..], args[used..]));
            if ok then p == Spec(f, width, precision, format[i..], args[a..]) else p == Cut
  {
    ok, f, precision, i, a := true, flags, 0, start, used;
    if At(format, i) == '.' {
      Rest(format, i);
      f := f.(precision := true);
      i := i + 1;
      if i == |format| {
        ok := false;
        return;
      }
      if IsDecimal(At(format, i)) {
        precision, i := Atou(format, i);
      } else if At(format, i) == '*' {
        Rest(args, a);
        Rest(format, i);
        var w := Int16(args[a].w);
        a := a + 1;
        precision := if w > 0 then w else 0;
        i := i + 1;
        ok := i < |format|;
      }
    }
  }

  /** The length field (src/printf/printf.c:1094-1150). */
  method ReadLength(format: string, start: nat, flags: Flags,
                    ghost width: uint16, ghost precision: uint16, ghost args: seq<Arg>)
    returns (ok: bool, f: Flags, i: nat)
    requires start <= |format|
    requires !ParseLength(Spec(flags, width, precision, format[start..], args)).Unmodelled?
    ensures start <= i <= |format|
    ensures var p := ParseLength(Spec(flags, width, precision, format[start..], args));
            if ok then p == Spec(f, width, precision, format[i..], args) else p == Cut
  {
    ok, f, i := true, flags, start;
    if At(format, i) == 'l' {
      Rest(format, i);
      f := f.(long32 := true);
      i := i + 1;
      ok := i < |format|;
    } else if At(format, i) == 'h' {
      Rest(format, i);
      f := f.(short16 := true);
      i := i + 1;
      if i == |format| {
        ok := false;
      } else if format[i] == 'h' {
        Rest(format, i);
        f := f.(char8 := true);
        i := i + 1;
        ok := i < |format|;
      }
    }
  }

  /** src/printf/printf.c:1059-1150 */
  method ReadSpec(format: string, start: nat, args: seq<Arg>, used: nat)
    returns (ok: bool, f: Flags, width: uint16, precision: uint16, i: nat, a: nat)
    requires start <= |format| && used <= |args|
    requires !ParseSpec(format[start..], args[used..]).Unmodelled?
    ensures start <= i <= |format| && used <= a <= |args|
    ensures var p := ParseSpec(format[start..], args[used..]);
            if ok then p == Spec(f, width, precision, format[i..], args[a..]) else p == Cut
  {
    hide ParseFlags, ParseWidth, ParsePrecision, ParseLength;
    width, precision, a := 0, 0, used;
    f, i := ReadFlags(format, start);
    ok, f, width, i, a := ReadWidth(format, i, f, args, a);
    if !ok {
      return;
    }
    ok, f, precision, i, a := ReadPrecision(format, i, f, width, args, a);
    if !ok {
      return;
    }
    ok, f, i := ReadLength(format, i, f, width, precision, args[a..]);
  }

  /** The blank loops of `c` and `s`, with their 16-bit counter: `while (l++ < width)`. */
  method PadBlanks(g: Gadget, counted: uint16, width: uint16) returns (l: uint16)
    requires g.Valid()
    modifies g.Footprint()
    ensures g.Valid() && g.out == old(g.out) + Rep(' ', Max(0, width - counted))
  {
    hide Written;
    l := counted;
    var more := l < width;
    l := (l + 1) % 0x1_0000;
    while more
      invariant g.Valid() && (more ==> 1 <= l <= width && counted < l)
      invariant g.out == old(g.out) + Rep(' ', if more then l - 1 - counted else Max(0, width - counted))
      decreases more, width - l
    {
      g.PutChar(' ');
      more := l < width;
      l := (l + 1) % 0x1_0000;
    }
  }

  /** src/printf/printf.c:1258-1276 */
  method PutCharacter(g: Gadget, c: char, width: uint16, left: bool)
    requires g.Valid()
    modifies g.Footprint()
    ensures g.Valid() && g.out == old(g.out) + InField([c], 1, width, left)
  {
    hide Written;
    if !left {
      var l := PadBlanks(g, 1, width);
    }
    g.PutChar(c);
    if left {
      var l := PadBlanks(g, 1, width);
    }
  }

  /** `strnlen_s_` (src/printf/printf.c:403-408) */
  method StringLength(s: CString, max: uint16) returns (n: uint16)
    ensures n == StrNLen(s, max)
  {
    n := 0;
    var left := max;
    while n < |s| && left > 0
      invariant 0 <= n <= |s| && n + left == max
    {
      left := left - 1;
      n := n + 1;
    }
  }

  /** src/printf/printf.c:1295-1298. Without a precision the counter just runs round. */
  method PutStringBody(g: Gadget, s: CString, limited: bool, limit: uint16)
    requires g.Valid()
    modifies g.Footprint()
    ensures g.Valid() && g.out == old(g.out) + (if limited then s[..Min(|s|, limit)] else s)
  {
    hide Written;
    var precision := limit;
    var i := 0;
    while i < |s| && (!limited || precision > 0)
      invariant 0 <= i <= |s| && g.Valid() && g.out == old(g.out) + s[..i]
      invariant limited ==> i + precision == limit
    {
      g.PutChar(s[i]);
      i := i + 1;
      precision := if precision == 0 then 0xffff else precision - 1;
    }
    assert s[..|s|] == s;
  }

  /** src/printf/printf.c:1284-1305 */
  method PutString(g: Gadget, s: CString, p: Spec)
    requires g.Valid() && p.Spec?
    modifies g.Footprint()
    ensures g.Valid()
    ensures g.out == old(g.out) + InField(Printed(s, p), CountedLength(s, p), p.width, p.f.left)
  {
    hide Written, Rep;
    var l := StringLength(s, if p.precision > 0 then p.precision else MAX_BUFFER);
    if p.f.precision {
      l := if l < p.precision then l else p.precision;
    }
    if !p.f.left {
      var m := PadBlanks(g, l, p.width);
    }
    PutStringBody(g, s, p.f.precision, p.precision);
    if p.f.left {
      var m := PadBlanks(g, l, p.width);
    }
  }

  /** The base and the flags of an integer conversion (src/printf/printf.c:1162-1189, 1219). */
  method PrepareInteger(c: char, flags: Flags) returns (base: nat, f: Flags)
    requires IsIntegerLetter(c)
    ensures base == BaseOf(c) && f == IntegerFlags(c, flags)
  {
    base := 10;
    var hash, upper, zeropad, plus, space := flags.hash, flags.upper, flags.zeropad, flags.plus, flags.space;
    if c == 'x' || c == 'X' {
      base := 16;
    } else if c == 'o' {
      base := 8;
    } else {
      hash := false;
    }
    if c == 'X' {
      upper := true;
    }
    if flags.precision {
      zeropad := false;
    }
    if !IsSignedLetter(c) {
      plus, space := false, false;
    }
    f := flags.(hash := hash, upper := upper, zeropad := zeropad, plus := plus, space := space);
  }

  /** src/printf/printf.c:1160-1238 */
  method PutInteger(g: Gadget, c: char, p: Spec)
    requires g.Valid() && IsIntegerLetter(c)
    requires p.Spec? && p.args != [] && (if p.f.long32 then p.args[0].Long? else p.args[0].Word?)
    modifies g.Footprint()
    ensures g.Valid() && g.out == old(g.out) + IntegerPiece(c, p)
  {
    hide Written, CodeInteger, IntegerFlags;
    var base, f := PrepareInteger(c, p.f);
    if IsSignedLetter(c) {
      var value := SignedArg(p.f, p.args[0]);
      PrintInteger(g, Magnitude(value), value < 0, base, p.precision, p.width, f);
    } else {
      PrintInteger(g, UnsignedArg(p.f, p.args[0]), false, base, p.precision, p.width, f);
    }
  }

  /** The switch at src/printf/printf.c:1153-1347. */
  method PutConversion(g: Gadget, p: Spec) returns (used: nat)
    requires g.Valid() && p.Spec? && Convert(p).Piece?
    modifies g.Footprint()
    ensures g.Valid() && g.out == old(g.out) + Convert(p).text
    ensures used <= |p.args| && Convert(p).args == p.args[used..]
  {
    hide Written, IntegerPiece, InField, CountedLength, Printed;
    var c := p.rest[0];
    used := 1;
    if IsIntegerLetter(c) {
      PutInteger(g, c, p);
    } else if c == 'c' {
      PutCharacter(g, (p.args[0].w % 0x100) as char, p.width, p.f.left);
    } else if c == 's' {
      match p.args[0]
      case Null => OutRev(g, ")llun(", p.width, p.f);
      case Str(s) => PutString(g, s, p);
    } else {
      g.PutChar(c);
      used := 0;
    }
  }

  /** `format_string_loop` (src/printf/printf.c:1039-1349). The cursor advances in every turn, so
      the loop ends. */
  method FormatStringLoop(g: Gadget, format: CString, args: seq<Arg>)
    requires g.Valid() && Render(format, args).Output?
    modifies g.Footprint()
    ensures g.Valid() && g.out == old(g.out) + Render(format, args).text
  {
    hide Written, ParseSpec, Convert;
    var i, a := 0, 0;
    ghost var done := "";
    assert format[0..] == format && args[0..] == args;
    while i < |format|
      invariant 0 <= i <= |format| && 0 <= a <= |args|
      invariant g.Valid() && g.out == old(g.out) + done
      invariant Render(format, args) == Prepend(done, Render(format[i..], args[a..]))
    {
      ghost var rest := Render(format[i..], args[a..]);
      Rest(format, i);
      if format[i] != '%' {
        PrependTwice(done, [format[i]], Render(format[i + 1..], args[a..]));
        g.PutChar(format[i]);
        done := done + [format[i]];
        i := i + 1;
        continue;
      }
      i := i + 1;
      if i == |format| {
        return;
      }
      var ok, f, width, precision, j, b := ReadSpec(format, i, args, a);
      if !ok {
        return;
      }
      ghost var p := Spec(f, width, precision, format[j..], args[b..]);
      ConvertedLetter(p);
      var used := PutConversion(g, Spec(f, width, precision, format[j..], args[b..]));
      Rest(format, j);
      assert args[b..][used..] == args[b + used..];
      PrependTwice(done, Convert(p).text, Render(format[j + 1..], args[b + used..]));
      done := done + Convert(p).text;
      i, a := j + 1, b + used;
    }
  }

  lemma ConvertedLetter(p: Spec)
    requires p.Spec? && Convert(p).Piece?
    ensures p.rest != ""
  {
  }

  /** `vsnprintf_impl` and `vsnprintf_` (src/printf/printf.c:1352-1377). The text is put in full as
      far as counting goes; below 2^16 characters the buffer ends up holding its front and a NUL
      (`ClosedIsTerminated`), and from there on only some texts come out right (`BufferIff`). */
  method Vsnprintf(s: array?<char>, n: uint16, format: CString, args: seq<Arg>) returns (r: int)
    requires s != null ==> Min(n, MAX_BUFFER) <= s.Length
    requires Render(format, args).Output?
    modifies if s == null then {} else {s}
    ensures r == Int16(|Render(format, args).text| % 0x1_0000)
    ensures s != null ==> s[..] == Closed(old(s[..]), Min(n, MAX_BUFFER), Render(format, args).text)
    ensures s != null ==> s[Min(n, MAX_BUFFER)..] == old(s[Min(n, MAX_BUFFER)..])
    ensures s != null && |Render(format, args).text| < 0x1_0000 ==>
              s[..] == Terminated(old(s[..]), Min(n, MAX_BUFFER), Render(format, args).text)
  {
    hide Render, Terminated, Closed;
    var g := new Gadget(s, n);
    FormatStringLoop(g, format, args);
    ghost var text := Render(format, args).text;
    assert g.out == text;
    g.Terminate();
    r := Int16(g.pos);
    if s != null {
      ClosedBeyond(g.before, g.maxChars, text);
      if |text| < 0x1_0000 {
        ClosedIsTerminated(g.before, g.maxChars, text);
      }
    }
  }

  /** The value returned is the length of the whole text exactly when that is below 2^15; it never
      depends on the size of the buffer. */
  lemma ReturnIff(text: string)
    ensures Int16(|text| % 0x1_0000) == |text| <==> |text| < 0x8000
  {
  }
}
