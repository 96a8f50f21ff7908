/** The integer printing functions of src/printf/printf.c, working backwards in a digit buffer. */
module IntegerOutput {
  import opened Bytes
  import opened OutputGadget
  import opened Digits
  import opened IntegerText

  /** What `out_rev_` puts for a reversed text: blanks on the side the flags choose, and none on the
      left when zeros are to be there. */
  function OutRevText(rev: string, width: uint16, f: Flags): string {
    var gap := Max(0, width - |rev|);
    Rep(' ', if f.left || f.zeropad then 0 else gap) + Reverse(rev) + Rep(' ', if f.left then gap else 0)
  }

  /** Without an effective zero flag exactly the larger of width and text length is put. */
  lemma OutRevWidth(rev: string, width: uint16, f: Flags)
    ensures f.left || !f.zeropad ==> |OutRevText(rev, width, f)| == Max(width, |rev|)
  {
  }

  lemma ReverseConcat(a: string, b: string)
    ensures Reverse(a + b) == Reverse(b) + Reverse(a)
  {
  }

  lemma ReverseTwice(a: string)
    ensures Reverse(Reverse(a)) == a
  {
  }

  /** A layout as it stands in the buffer, backwards. */
  function Backwards(l: Layout, digits: string): string {
    digits + Rep('0', l.zeros) + Reverse(l.prefix) + l.sign
  }

  lemma BackwardsReversed(l: Layout, digits: string)
    requires |l.sign| <= 1
    ensures Reverse(Backwards(l, digits)) == l.sign + l.prefix + Rep('0', l.zeros) + Reverse(digits)
  {
    var a, b, c := digits + Rep('0', l.zeros), Reverse(l.prefix), l.sign;
    ReverseConcat(a + b, c);
    ReverseConcat(a, b);
    ReverseConcat(digits, Rep('0', l.zeros));
    ReverseTwice(l.prefix);
    assert Reverse(c) == c;
    assert Reverse(Rep('0', l.zeros)) == Rep('0', l.zeros);
  }

  lemma LayoutReversed(l: Layout, digits: string, width: uint16, f: Flags)
    requires |l.sign| <= 1
    requires var gap := Max(0, width - |Backwards(l, digits)|);
             l.left == (if f.left || f.zeropad then 0 else gap) && l.right == (if f.left then gap else 0)
    ensures OutRevText(Backwards(l, digits), width, f) == Text(l, Reverse(digits))
  {
    BackwardsReversed(l, digits);
    var body := l.sign + l.prefix + Rep('0', l.zeros) + Reverse(digits);
    assert Text(l, Reverse(digits)) == Rep(' ', l.left) + body + Rep(' ', l.right);
  }

  /** `out_rev_` (src/printf/printf.c:431-453). The left-justifying loop measures by differences of
      the 16-bit position, which may wrap. */
  method OutRev(g: Gadget, buf: string, width: uint16, f: Flags)
    requires g.Valid() && |buf| < 0x1_0000
    modifies g.Footprint()
    ensures g.Valid() && g.out == old(g.out) + OutRevText(buf, width, f)
  {
    hide Written, Reverse, Rep;
    var startPos := g.pos;
    ghost var before := g.out;
    if !f.left && !f.zeropad {
      g.PutRepeated(' ', if |buf| < width then width - |buf| else 0);
    }
    PutReversed(g, buf);
    if f.left {
      PositionDifference(|before|, |buf|);
      PadRight(g, startPos, |buf|, width);
      assert before + Reverse(buf) + Rep(' ', Max(0, width - |buf|)) == g.out;
    }
  }

  /** src/printf/printf.c:443-445 */
  method PutReversed(g: Gadget, buf: string)
    requires g.Valid()
    modifies g.Footprint()
    ensures g.Valid() && g.out == old(g.out) + Reverse(buf)
  {
    hide Written;
    var len := |buf|;
    while len > 0
      invariant 0 <= len <= |buf| && g.Valid()
      invariant g.out == old(g.out) + Reverse(buf)[..|buf| - len]
    {
      len := len - 1;
      g.PutChar(buf[len]);
    }
    assert Reverse(buf)[..|buf| - len] == Reverse(buf);
  }

  lemma PositionDifference(count: nat, n: nat)
    requires n < 0x1_0000
    ensures ((count + n) % 0x1_0000 - count % 0x1_0000) % 0x1_0000 == n
  {
  }

  lemma PositionStep(count: nat, startPos: uint16, e: nat)
    requires (count % 0x1_0000 - startPos) % 0x1_0000 == e && e + 1 < 0x1_0000
    ensures ((count + 1) % 0x1_0000 - startPos) % 0x1_0000 == e + 1
  {
  }

  /** src/printf/printf.c:448-452 */
  method PadRight(g: Gadget, startPos: uint16, ghost len: nat, width: uint16)
    requires g.Valid() && len < 0x1_0000 && (g.pos - startPos) % 0x1_0000 == len
    modifies g.Footprint()
    ensures g.Valid() && g.out == old(g.out) + Rep(' ', Max(0, width - len))
  {
    hide Written;
    ghost var i := 0;
    while (g.pos - startPos) % 0x1_0000 < width
      invariant 0 <= i && len + i <= Max(len, width) && g.Valid()
      invariant g.out == old(g.out) + Rep(' ', i)
      invariant (g.pos - startPos) % 0x1_0000 == len + i
      decreases width - i
    {
      PositionStep(|g.out|, startPos, len + i);
      g.PutChar(' ');
      i := i + 1;
    }
  }

  /** A zero-padding loop of src/printf/printf.c:468-475. */
  method PadZeros(buf: array<char>, len: nat, to: nat) returns (r: nat)
    requires len <= buf.Length == INTEGER_BUFFER
    modifies buf
    ensures r == PaddedTo(len, to)
    ensures buf[..r] == old(buf[..len]) + Rep('0', r - len)
  {
    r := len;
    while r < to && r < INTEGER_BUFFER
      invariant len <= r <= Max(len, Min(to, INTEGER_BUFFER))
      invariant buf[..r] == old(buf[..len]) + Rep('0', r - len)
    {
      buf[r] := '0';
      r := r + 1;
    }
  }

  /** The prefix, written backwards (src/printf/printf.c:495-506). */
  method PutPrefix(buf: array<char>, len: nat, base: nat, f: Flags) returns (r: nat)
    requires len <= buf.Length == INTEGER_BUFFER
    modifies buf
    ensures r == len + |PrefixThatFits(len, base, f)| <= INTEGER_BUFFER
    ensures buf[..r] == old(buf[..len]) + Reverse(PrefixThatFits(len, base, f))
  {
    r := len;
    if base == 16 && !f.upper && r < INTEGER_BUFFER {
      buf[r] := 'x';
      r := r + 1;
    } else if base == 16 && f.upper && r < INTEGER_BUFFER {
      buf[r] := 'X';
      r := r + 1;
    } else if base == 2 && r < INTEGER_BUFFER {
      buf[r] := 'b';
      r := r + 1;
    }
    if r < INTEGER_BUFFER {
      buf[r] := '0';
      r := r + 1;
    }
  }

  /** src/printf/printf.c:509-519 */
  method PutSign(buf: array<char>, len: nat, negative: bool, f: Flags) returns (r: nat)
    requires len <= buf.Length == INTEGER_BUFFER
    modifies buf
    ensures var sign := if len < INTEGER_BUFFER then SignText(negative, f) else "";
            r == len + |sign| <= INTEGER_BUFFER && buf[..r] == old(buf[..len]) + sign
  {
    r := len;
    if r < INTEGER_BUFFER {
      if negative {
        buf[r] := '-';
        r := r + 1;
      } else if f.plus {
        buf[r] := '+';
        r := r + 1;
      } else if f.space {
        buf[r] := ' ';
        r := r + 1;
      }
    }
  }

  /** src/printf/printf.c:463-475: zeros up to the width and the precision. `w` is the width with
      the place of a sign taken out. */
  method PutZeros(buf: array<char>, length: nat, negative: bool, precision: uint16, width: uint16, f: Flags)
    returns (len: nat, w: uint16)
    requires length <= buf.Length == INTEGER_BUFFER
    modifies buf
    ensures w == SignedWidth(negative, width, f)
    ensures length <= len == PaddedLength(length, precision, w, f) <= INTEGER_BUFFER
    ensures buf[..len] == old(buf[..length]) + Rep('0', len - length)
  {
    len, w := length, width;
    if !f.left {
      if w > 0 && f.zeropad && (negative || f.plus || f.space) {
        w := w - 1;
      }
      if f.zeropad {
        len := PadZeros(buf, len, w);
      }
    }
    ghost var zeros := len - length;
    ghost var once := buf[..len];
    len := PadZeros(buf, len, precision);
    MoreZeros(old(buf[..length]), zeros, len - length - zeros);
  }

  lemma MoreZeros(digits: string, m: nat, n: nat)
    ensures digits + Rep('0', m) + Rep('0', n) == digits + Rep('0', m + n)
  {
  }

  /** src/printf/printf.c:484-507: take back padding digits and put the prefix in their place. */
  method PutHash(buf: array<char>, length: nat, padded: nat, base: nat,
                 precision: uint16, width: uint16, f: Flags)
    returns (len: nat)
    requires length <= padded <= buf.Length == INTEGER_BUFFER
    modifies buf
    ensures var room := TakenBack(length, padded, base, precision, width, f);
            var prefix := PrefixThatFits(room, base, f);
            len == room + |prefix| <= INTEGER_BUFFER && buf[..len] == old(buf[..room]) + Reverse(prefix)
  {
    len := padded;
    if !f.precision && len > 0 && (len == precision || len == width) {
      if length < len {
        len := len - 1;
      }
      if len > 0 && (base == 16 || base == 2) && length < len {
        len := len - 1;
      }
    }
    len := PutPrefix(buf, len, base, f);
  }

  /** src/printf/printf.c:463-507: digits, zeros and prefix, backwards. */
  method PutZerosAndHash(buf: array<char>, length: nat, negative: bool, base: nat,
                         precision: uint16, fieldWidth: uint16, flags: Flags)
    returns (len: nat, width: uint16)
    requires length <= buf.Length == INTEGER_BUFFER
    modifies buf
    ensures width == SignedWidth(negative, fieldWidth, flags) && len <= INTEGER_BUFFER
    ensures var l := CodeLayout(length, negative, base, precision, fieldWidth, flags);
            buf[..len] == old(buf[..length]) + Rep('0', l.zeros) + Reverse(l.prefix)
  {
    hide Rep, Reverse, TakenBack, PrefixThatFits, PaddedLength, SignedWidth, SignText;
    ghost var digits := buf[..length];
    len, width := PutZeros(buf, length, negative, precision, fieldWidth, flags);
    ghost var all := buf[..len];
    var hash := flags.hash;
    if base == 8 && len > length {
      hash := false;
    }
    if hash {
      ghost var room := TakenBack(length, len, base, precision, width, flags);
      FewerZeros(digits, len - length, room - length);
      assert buf[..room] == all[..room];
      len := PutHash(buf, length, len, base, precision, width, flags);
    } else {
      assert Reverse("") == "";
      assert all + "" == all;
    }
  }

  /** src/printf/printf.c:463-519: the whole number, backwards. */
  method Assemble(buf: array<char>, length: nat, negative: bool, base: nat,
                  precision: uint16, fieldWidth: uint16, flags: Flags)
    returns (len: nat, width: uint16)
    requires length <= buf.Length == INTEGER_BUFFER
    modifies buf
    ensures width == SignedWidth(negative, fieldWidth, flags) && len <= INTEGER_BUFFER
    ensures buf[..len]
         == Backwards(CodeLayout(length, negative, base, precision, fieldWidth, flags), old(buf[..length]))
  {
    hide Rep, Reverse, TakenBack, PrefixThatFits, PaddedLength, SignedWidth, SignText;
    len, width := PutZerosAndHash(buf, length, negative, base, precision, fieldWidth, flags);
    len := PutSign(buf, len, negative, flags);
  }

  lemma FewerZeros(digits: string, m: nat, n: nat)
    requires n <= m
    ensures (digits + Rep('0', m))[..|digits| + n] == digits + Rep('0', n)
  {
  }

  /** `print_integer_finalization` (src/printf/printf.c:458-522). */
  method PrintIntegerFinalization(g: Gadget, buf: array<char>, length: nat, negative: bool, base: nat,
                                  precision: uint16, fieldWidth: uint16, flags: Flags)
    requires g.Valid() && length <= buf.Length == INTEGER_BUFFER && buf !in g.Footprint()
    modifies g.Footprint(), buf
    ensures g.Valid()
    ensures g.out == old(g.out) + Text(CodeLayout(length, negative, base, precision, fieldWidth, flags),
                                       Reverse(old(buf[..length])))
  {
    hide Written;
    ghost var digits := buf[..length];
    ghost var l := CodeLayout(length, negative, base, precision, fieldWidth, flags);
    var len, width := Assemble(buf, length, negative, base, precision, fieldWidth, flags);
    OutRev(g, buf[..len], width, flags);
    LayoutReversed(l, digits, width, flags);
  }

  /** `print_integer` (src/printf/printf.c:525-553). */
  method PrintInteger(g: Gadget, value: uint32, negative: bool, base: nat,
                      precision: uint16, width: uint16, flags: Flags)
    requires g.Valid() && IsBase(base)
    modifies g.Footprint()
    ensures g.Valid()
    ensures g.out == old(g.out) + CodeInteger(value, negative, base, precision, width, flags)
  {
    hide Written;
    var buf := new char[INTEGER_BUFFER];
    var len := 0;
    var f := flags;
    if value == 0 {
      if !f.precision {
        buf[len] := '0';
        len := len + 1;
        f := f.(hash := false);
      } else if base == 16 {
        f := f.(hash := false);
      }
    } else {
      len := PutDigits(buf, value, base, f.upper);
    }
    assert buf[..len] == FirstDigits(value, base, flags);
    PrintIntegerFinalization(g, buf, len, negative, base, precision, width, f);
  }

  /** The digit loop (src/printf/printf.c:545-549): its guard never cuts a number short. */
  method PutDigits(buf: array<char>, number: uint32, base: nat, upper: bool) returns (len: nat)
    requires IsBase(base) && number != 0 && buf.Length == INTEGER_BUFFER
    modifies buf
    ensures len <= INTEGER_BUFFER && buf[..len] == RevDigits(number, base, upper)
  {
    DigitsFit(number, base, upper);
    var value := number;
    len := 0;
    while true
      invariant 0 <= len < INTEGER_BUFFER && 0 < value <= number
      invariant RevDigits(number, base, upper) == buf[..len] + RevDigits(value, base, upper)
      decreases value
    {
      DivMod(value, base);
      ghost var rest := RevDigits(value, base, upper);
      var digit := value % base;
      buf[len] := DigitChar(digit, upper);
      len := len + 1;
      value := value / base;
      assert rest == [buf[len - 1]] + RevDigits(value, base, upper);
      assert RevDigits(number, base, upper) == buf[..len] + RevDigits(value, base, upper);
      if value == 0 || len >= INTEGER_BUFFER {
        break;
      }
    }
  }
}
