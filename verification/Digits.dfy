/** Numerals as the digit loop of src/printf/printf.c makes them, least significant digit first. */
module Digits {
  import opened Bytes

  predicate IsBase(base: int) { base == 2 || base == 8 || base == 10 || base == 16 }

  function DigitChar(d: nat, upper: bool): (c: char)
    requires d < 16
    ensures c != ' ' && c != '-' && c != '+'
    ensures c == '0' <==> d == 0
  {
    if d < 10 then '0' + d as char else (if upper then 'A' else 'a') + (d - 10) as char
  }

  lemma DigitCharIs(d: nat, upper: bool)
    requires d < 16
    ensures DigitChar(d, upper) == (if upper then "0123456789ABCDEF" else "0123456789abcdef")[d]
  {
  }

  /** The digits of `v`, none for zero. */
  function RevDigits(v: nat, base: nat, upper: bool): (r: string)
    requires IsBase(base)
    decreases v
  {
    if v == 0 then "" else [DigitChar(v % base, upper)] + RevDigits(v / base, base, upper)
  }

  /** A digit's value, for either case of letter. */
  function DigitValue(c: char): int {
    if '0' <= c <= '9' then c as int - '0' as int
    else if 'A' <= c <= 'F' then c as int - 'A' as int + 10
    else if 'a' <= c <= 'f' then c as int - 'a' as int + 10
    else 16
  }

  predicate IsDigit(c: char, base: nat, upper: bool) {
    DigitValue(c) < base <= 16 && c == DigitChar(DigitValue(c), upper)
  }

  ghost predicate AllDigits(rev: string, base: nat, upper: bool) {
    forall i :: 0 <= i < |rev| ==> IsDigit(rev[i], base, upper)
  }

  /** The number a digit string stands for, least significant digit first. */
  function Value(rev: string, base: nat): int {
    if rev == "" then 0 else DigitValue(rev[0]) + base * Value(rev[1..], base)
  }

  lemma DigitRoundTrip(d: nat, upper: bool)
    requires d < 16
    ensures DigitValue(DigitChar(d, upper)) == d
  {
  }

  /** The numeral evaluates back to the number. */
  lemma {:induction false} NumeralValue(v: nat, base: nat, upper: bool)
    requires IsBase(base)
    ensures Value(RevDigits(v, base, upper), base) == v
    decreases v
  {
    if v > 0 {
      DivMod(v, base);
      var q, d := v / base, v % base;
      NumeralValue(q, base, upper);
      DigitRoundTrip(d, upper);
      assert RevDigits(v, base, upper)[1..] == RevDigits(q, base, upper);
    }
  }

  /** It uses only digits of its base and does not begin with a zero. */
  lemma {:induction false} NumeralDigits(v: nat, base: nat, upper: bool)
    requires IsBase(base)
    ensures var r := RevDigits(v, base, upper);
            AllDigits(r, base, upper) && (v > 0 ==> r != "" && r[|r| - 1] != '0')
    decreases v
  {
    if v > 0 {
      DivMod(v, base);
      var q, d := v / base, v % base;
      NumeralDigits(q, base, upper);
      DigitRoundTrip(d, upper);
      if q == 0 {
        assert d == v;
      }
    }
  }

  /** Zeros in front do not change the value. */
  lemma {:induction false} ValueWithZeros(rev: string, zeros: string, base: nat)
    requires forall i :: 0 <= i < |zeros| ==> zeros[i] == '0'
    ensures Value(rev + zeros, base) == Value(rev, base)
    decreases |rev| + |zeros|
  {
    if rev != "" {
      ValueWithZeros(rev[1..], zeros, base);
      assert (rev + zeros)[1..] == rev[1..] + zeros;
    } else if zeros != "" {
      ValueWithZeros("", zeros[1..], base);
      assert ("" + zeros)[1..] == "" + zeros[1..];
      assert Value(zeros, base) == base * Value(zeros[1..], base);
    }
  }

  lemma DivMod(v: nat, base: nat)
    requires IsBase(base)
    ensures v == base * (v / base) + v % base && v % base < base
    ensures v > 0 ==> v / base < v
  {
  }

  /** There is only one numeral: any digit string with the same value and no leading zero is it. */
  lemma {:induction false} NumeralIsUnique(rev: string, base: nat, upper: bool)
    requires IsBase(base) && AllDigits(rev, base, upper)
    requires rev != "" ==> rev[|rev| - 1] != '0'
    ensures Value(rev, base) >= 0 && rev == RevDigits(Value(rev, base), base, upper)
    ensures rev != "" ==> Value(rev, base) > 0
    decreases |rev|
  {
    if rev != "" {
      var d, rest := DigitValue(rev[0]), rev[1..];
      assert IsDigit(rev[0], base, upper);
      NumeralIsUnique(rest, base, upper);
      Recompose(d, Value(rest, base), base);
      assert rest == "" ==> rev[0] != '0';
    }
  }

  lemma Recompose(d: nat, q: nat, base: nat)
    requires IsBase(base) && d < base
    ensures (d + base * q) / base == q && (d + base * q) % base == d
  {
  }

  function Pow(base: nat, k: nat): nat {
    if k == 0 then 1 else base * Pow(base, k - 1)
  }

  /** A number below base^k has at most k digits. */
  lemma {:induction false} DigitCount(v: nat, base: nat, k: nat)
    requires IsBase(base) && v < Pow(base, k)
    ensures |RevDigits(v, base, false)| <= k && |RevDigits(v, base, true)| <= k
  {
    if v > 0 {
      DivMod(v, base);
      QuotientBound(v, base, Pow(base, k - 1));
      DigitCount(v / base, base, k - 1);
    }
  }

  lemma QuotientBound(v: nat, base: nat, p: nat)
    requires IsBase(base) && v < base * p
    ensures v / base < p
  {
  }

  lemma {:induction false} PowMonotone(low: nat, base: nat, k: nat)
    requires low <= base
    ensures Pow(low, k) <= Pow(base, k)
  {
    if k > 0 {
      PowMonotone(low, base, k - 1);
      hide Pow;
      ProductMonotone(low, base, Pow(low, k - 1), Pow(base, k - 1));
    }
  }

  lemma ProductMonotone(a: nat, b: nat, x: nat, y: nat)
    requires a <= b && x <= y
    ensures a * x <= b * y
  {
    assert a * x <= a * y;
    assert a * y <= b * y;
  }

  /** A 32-bit number never has more than 32 digits, in any base: the guard of the digit loop
      (src/printf/printf.c:549) does not cut a numeral. */
  lemma DigitsFit(v: uint32, base: nat, upper: bool)
    requires base == 2 || base == 8 || base == 10 || base == 16
    ensures |RevDigits(v, base, upper)| <= 32
  {
    PowMonotone(2, base, 32);
    TwoToThe32();
    hide Pow;
    DigitCount(v, base, 32);
  }

  /** And from base 8 on never more than 11. */
  lemma ElevenDigits(v: uint32, base: nat, upper: bool)
    requires IsBase(base) && base >= 8
    ensures |RevDigits(v, base, upper)| <= 11
  {
    PowMonotone(8, base, 11);
    assert Pow(8, 5) == 0x8000;
    PowAdd(8, 5, 6);
    assert Pow(8, 6) == 8 * Pow(8, 5);
    hide Pow;
    assert Pow(8, 11) == 0x2_0000_0000;
    DigitCount(v, base, 11);
  }

  lemma TwoToThe32()
    ensures Pow(2, 32) == 0x1_0000_0000
  {
    assert Pow(2, 8) == 0x100;
    hide Pow;
    PowAdd(2, 8, 8);
    PowAdd(2, 16, 16);
  }

  lemma {:induction false} PowAdd(base: nat, i: nat, j: nat)
    ensures Pow(base, i + j) == Pow(base, i) * Pow(base, j)
  {
    if i > 0 {
      PowAdd(base, i - 1, j);
      assert Pow(base, i) * Pow(base, j) == base * (Pow(base, i - 1) * Pow(base, j));
    }
  }
}
