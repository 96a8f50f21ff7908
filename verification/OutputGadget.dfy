/** The output gadget of src/printf/printf.c: a counting, truncating sink over a caller's buffer. */
module OutputGadget {
  import opened Bytes

  const NUL: char := '\0'

  /** The characters of a C string before its terminating NUL. */
  type CString = s: string | NUL !in s witness ""

  /** INT_MAX with 16-bit `int` (src/printf/printf.c:228). */
  const MAX_BUFFER := 0x7fff

  function Min(a: int, b: int): int { if a < b then a else b }

  /** `c` repeated; nothing for a negative count. */
  function Rep(c: char, n: int): (s: string)
    ensures |s| == if n < 0 then 0 else n
    ensures forall i :: 0 <= i < |s| ==> s[i] == c
  {
    seq(if n < 0 then 0 else n, _ => c)
  }

  function Reverse(s: string): (r: string)
    ensures |r| == |s|
    ensures forall i :: 0 <= i < |s| ==> r[i] == s[|s| - 1 - i]
  {
    seq(|s|, i requires 0 <= i < |s| => s[|s| - 1 - i])
  }

  /** What a buffer of `max` usable characters holds once `out` was put: its front. */
  function Held(before: string, max: nat, out: string): (r: string)
    requires max <= |before|
    ensures |r| == |before|
  {
    var k := Min(max, |out|);
    out[..k] + before[k..]
  }

  /** What it holds after termination: as much as fits before the last place, and a NUL. */
  function Terminated(before: string, max: nat, out: string): (r: string)
    requires max <= |before|
    ensures |r| == |before|
  {
    if max == 0 then before
    else
      var k := Min(max - 1, |out|);
      out[..k] + [NUL] + Held(before, max, out)[k + 1..]
  }

  /** The buffer character by character: the position is a 16-bit counter, so from 2^16 characters on
      the front is written over. */
  function Written(before: string, max: nat, out: string): (r: string)
    requires max <= |before|
    ensures |r| == |before|
  {
    if out == "" then before
    else
      var n := |out| - 1;
      var w := Written(before, max, out[..n]);
      if n % 0x1_0000 < max then w[n % 0x1_0000 := out[n]] else w
  }

  /** What the code leaves behind (src/printf/printf.c:342-352): the NUL goes to the wrapped position. */
  function Closed(before: string, max: nat, out: string): (r: string)
    requires max <= |before|
    ensures |r| == |before|
  {
    if max == 0 then before
    else Written(before, max, out)[Min(|out| % 0x1_0000, max - 1) := NUL]
  }

  lemma WrittenNext(before: string, max: nat, out: string, c: char)
    requires max <= |before|
    ensures var w, p := Written(before, max, out), |out| % 0x1_0000;
            Written(before, max, out + [c]) == if p < max then w[p := c] else w
  {
    assert (out + [c])[..|out|] == out;
  }

  lemma {:induction false} WrittenBeyond(before: string, max: nat, out: string)
    requires max <= |before|
    ensures Written(before, max, out)[max..] == before[max..]
  {
    if out != "" {
      WrittenBeyond(before, max, out[..|out| - 1]);
    }
  }

  lemma ClosedBeyond(before: string, max: nat, out: string)
    requires max <= |before|
    ensures Closed(before, max, out)[max..] == before[max..]
  {
    WrittenBeyond(before, max, out);
  }

  /** Up to 2^16 characters the buffer holds the front of the text. */
  lemma {:induction false} WrittenIsHeld(before: string, max: nat, out: string)
    requires max <= |before| && max <= MAX_BUFFER && |out| <= 0x1_0000
    ensures Written(before, max, out) == Held(before, max, out)
  {
    if out == "" {
      assert before[0..] == before;
    } else {
      var n := |out| - 1;
      hide Held;
      WrittenIsHeld(before, max, out[..n]);
      HeldNext(before, max, out[..n], out[n]);
      assert out[..n] + [out[n]] == out && n % 0x1_0000 == n;
    }
  }

  lemma ClosedIsTerminated(before: string, max: nat, out: string)
    requires max <= |before| && max <= MAX_BUFFER && |out| < 0x1_0000
    ensures Closed(before, max, out) == Terminated(before, max, out)
  {
    hide Written, Held;
    WrittenIsHeld(before, max, out);
    if max > 0 {
      var k := Min(max - 1, |out|);
      assert Min(|out| % 0x1_0000, max - 1) == k;
      HeldFront(before, max, out, k);
      UpdateParts(Held(before, max, out), k, NUL);
    }
  }

  lemma HeldFront(before: string, max: nat, out: string, k: nat)
    requires max <= |before| && k <= Min(max, |out|)
    ensures Held(before, max, out)[..k] == out[..k]
  {
  }

  lemma UpdateParts(s: string, k: nat, c: char)
    requires k < |s|
    ensures s[k := c] == s[..k] + [c] + s[k + 1..]
  {
  }

  lemma HeldNext(before: string, max: nat, out: string, c: char)
    requires max <= |before|
    ensures |out| >= max ==> Held(before, max, out + [c]) == Held(before, max, out)
    ensures |out| < max ==> Held(before, max, out + [c]) == Held(before, max, out)[|out| := c]
  {
  }

  /** The promise of section 7.21.6.5 of ISO C11: of the `n` characters allowed the last is a NUL,
      before it stands the front of the text, cut at `n - 1` characters, and nothing at or beyond
      `n` is touched. */
  lemma TerminatedIsTruncated(before: string, max: nat, out: string)
    requires max <= |before|
    ensures var r, k := Terminated(before, max, out), Min(max - 1, |out|);
            (max > 0 ==> r[..k] == out[..k] && r[k] == NUL) && r[max..] == before[max..]
  {
    if max > 0 {
      assert Held(before, max, out)[max..] == before[max..];
      var k := Min(max - 1, |out|);
      assert Terminated(before, max, out)[max..] == Held(before, max, out)[k + 1..][max - (k + 1)..];
    }
  }

  /** The front of the text and its NUL are in place. */
  predicate IsCutText(r: string, max: nat, out: string)
    requires 0 < max <= |r|
  {
    var k := Min(max - 1, |out|);
    r[..k] == out[..k] && r[k] == NUL
  }

  /** Texts of one length all come out right exactly when the length is below 2^16: from there on the
      NUL or what was written over the front is wrong for some text. */
  lemma BufferIff(before: string, max: nat, length: nat)
    requires 2 <= max <= MAX_BUFFER && max <= |before|
    ensures (forall out: CString :: |out| == length ==> IsCutText(Closed(before, max, out), max, out))
       <==> length < 0x1_0000
  {
    if length < 0x1_0000 {
      forall out: CString | |out| == length
        ensures IsCutText(Closed(before, max, out), max, out)
      {
        ClosedIsTerminated(before, max, out);
        TerminatedIsTruncated(before, max, out);
      }
    } else {
      var out: CString := Rep('b', 1) + Rep('a', length - 1);
      WrappedText(before, max, out);
      assert !IsCutText(Closed(before, max, out), max, out);
    }
  }

  lemma WrappedText(before: string, max: nat, out: CString)
    requires 2 <= max <= MAX_BUFFER && max <= |before| && |out| >= 0x1_0000
    requires out[0] == 'b' && forall i :: 1 <= i < |out| ==> out[i] == 'a'
    ensures !IsCutText(Closed(before, max, out), max, out)
  {
    var pos, r := |out| % 0x1_0000, Closed(before, max, out);
    if pos < max - 1 {
      assert r[pos] == NUL && r[..max - 1][pos] == r[pos] && out[..max - 1][pos] == out[pos];
    } else {
      assert |out| > 0x1_0000;
      FrontIsLost(before, max, out);
      hide Written;
      assert r[0] == 'a' && r[..max - 1][0] == r[0] && out[..max - 1][0] == out[0];
    }
  }

  lemma {:induction false} FrontIsLost(before: string, max: nat, out: string)
    requires 0 < max <= |before| && |out| > 0x1_0000
    requires forall i :: 1 <= i < |out| ==> out[i] == 'a'
    ensures Written(before, max, out)[0] == 'a'
  {
    var n := |out| - 1;
    if n % 0x1_0000 != 0 {
      FrontIsLost(before, max, out[..n]);
    }
  }

  class Gadget {
    const buffer: array?<char>
    const maxChars: uint16
    var pos: uint16

    /** Everything put so far, and the buffer as it was found. */
    ghost var out: string
    ghost const before: string

    ghost predicate Valid()
      reads this, buffer
    {
      && pos == |out| % 0x1_0000
      && (buffer == null ==> maxChars == 0)
      && (buffer != null ==>
            && maxChars <= buffer.Length == |before|
            && buffer[..] == Written(before, maxChars, out))
    }

    /** `buffer_gadget` (src/printf/printf.c:362-383). The buffer is at least as long as the caller
        says, and a size beyond INT_MAX is taken for INT_MAX. */
    constructor (buffer: array?<char>, size: uint16)
      requires buffer != null ==> Min(size, MAX_BUFFER) <= buffer.Length
      ensures Valid() && this.buffer == buffer && out == [] && pos == 0
      ensures maxChars == if buffer == null then 0 else if size < 32767 then size else 32767
      ensures buffer != null ==> before == buffer[..]
    {
      this.buffer := buffer;
      var usable := if size > MAX_BUFFER then MAX_BUFFER else size;
      maxChars := if buffer == null then 0 else usable;
      pos := 0;
      out := [];
      before := if buffer == null then [] else buffer[..];
    }

    ghost function Footprint(): set<object> {
      if buffer == null then {this} else {this, buffer}
    }

    /** `putchar_via_gadget` (src/printf/printf.c:322-339): `pos` counts also what is cut off. */
    method PutChar(c: char)
      requires Valid()
      modifies Footprint()
      ensures Valid() && out == old(out) + [c]
    {
      if buffer != null {
        WrittenNext(before, maxChars, out, c);
      }
      hide Written;
      var writePos := pos;
      pos := (pos + 1) % 0x1_0000;
      out := out + [c];
      if writePos >= maxChars {
        return;
      }
      buffer[writePos] := c;
    }

    /** The padding loops: `n` times the same character. */
    method PutRepeated(c: char, n: nat)
      requires Valid()
      modifies Footprint()
      ensures Valid() && out == old(out) + Rep(c, n)
    {
      var i := 0;
      while i < n
        invariant 0 <= i <= n && Valid() && out == old(out) + Rep(c, i)
      {
        PutChar(c);
        i := i + 1;
      }
    }

    /** `append_termination_with_gadget` (src/printf/printf.c:342-352). */
    method Terminate()
      requires Valid()
      modifies Footprint()
      ensures pos == old(pos) && out == old(out)
      ensures buffer != null ==> buffer[..] == Closed(before, maxChars, out)
    {
      if maxChars == 0 {
        if buffer != null {
          WrittenBeyond(before, 0, out);
        }
        return;
      }
      var nulPos := if pos < maxChars then pos else maxChars - 1;
      buffer[nulPos] := NUL;
    }
  }
}
