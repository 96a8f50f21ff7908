/** Machine integers and their little-endian wire form. */
module Bytes {

  type byte = x: int | 0 <= x < 0x100
  type uint16 = x: int | 0 <= x < 0x1_0000
  type uint32 = x: int | 0 <= x < 0x1_0000_0000

  /** Two's-complement reading of a 16-bit value: this target's `int`. */
  function Int16(x: uint16): int {
    if x < 0x8000 then x else x - 0x1_0000
  }

  function Le16(x: uint16): seq<byte> {
    [x % 0x100, x / 0x100]
  }

  function Le32(x: uint32): seq<byte> {
    Le16(x % 0x1_0000) + Le16(x / 0x1_0000)
  }

  function FromLe16(b: seq<byte>): uint16
    requires |b| == 2
  {
    b[0] as int + 0x100 * b[1] as int
  }

  function FromLe32(b: seq<byte>): uint32
    requires |b| == 4
  {
    FromLe16(b[..2]) + 0x1_0000 * FromLe16(b[2..])
  }

  lemma Le16RoundTrip(x: uint16)
    ensures |Le16(x)| == 2 && FromLe16(Le16(x)) == x
  {
  }

  lemma Le32RoundTrip(x: uint32)
    ensures |Le32(x)| == 4 && FromLe32(Le32(x)) == x
  {
    assert Le32(x)[..2] == Le16(x % 0x1_0000);
    assert Le32(x)[2..] == Le16(x / 0x1_0000);
  }

  /** On the wire the least significant byte comes first. */
  lemma LittleEndian(x: uint32)
    ensures Le32(x) == [x % 256, x / 256 % 256, x / 65536 % 256, x / 16777216]
    ensures x < 65536 ==> Le16(x) == [x % 256, x / 256]
  {
    var low, high := x % 65536, x / 65536;
    assert Le32(x) == [low % 256, low / 256, high % 256, high / 256];
    hide Le32;
    HighDigits(x);
    LowDigits(x);
  }

  lemma HighDigits(x: uint32)
    ensures x / 65536 / 256 == x / 16777216
  {
    var q, r := x / 16777216, x % 16777216;
    assert x == 65536 * (256 * q + r / 65536) + r % 65536;
  }

  lemma LowDigits(x: uint32)
    ensures x % 65536 % 256 == x % 256 && x % 65536 / 256 == x / 256 % 256
  {
    var h, l := x / 65536, x % 65536;
    var q, r := l / 256, l % 256;
    assert x == 256 * (256 * h + q) + r;
    assert x / 256 == 256 * h + q;
  }

  /** A two's-complement reading is the one number of its range that is congruent to the bits. */
  lemma Int16IsResidue(x: uint16)
    ensures -32768 <= Int16(x) < 32768 && (Int16(x) - x) % 65536 == 0
  {
  }

  /** The words of `ws`, each low byte first. */
  function PackWords(ws: seq<uint16>): (b: seq<byte>)
    ensures |b| == 2 * |ws|
  {
    if ws == [] then [] else PackWords(ws[..|ws| - 1]) + Le16(ws[|ws| - 1])
  }

  /** Word i of a packed list is found at byte 2 * i. */
  lemma {:induction false} PackWordsAt(ws: seq<uint16>, i: nat)
    requires i < |ws|
    ensures PackWords(ws)[2 * i..2 * i + 2] == Le16(ws[i])
  {
    var front := ws[..|ws| - 1];
    if i < |front| {
      PackWordsAt(front, i);
      assert PackWords(ws)[2 * i..2 * i + 2] == PackWords(front)[2 * i..2 * i + 2];
    }
  }

  /** Byte by byte: the low byte of word i at 2 * i, its high byte next to it. */
  lemma PackWordsBytes(ws: seq<uint16>, i: nat)
    requires i < |ws|
    ensures PackWords(ws)[2 * i] == ws[i] % 256 && PackWords(ws)[2 * i + 1] == ws[i] / 256
  {
    PackWordsAt(ws, i);
    var pair := PackWords(ws)[2 * i..2 * i + 2];
    assert pair[0] == ws[i] % 256 && pair[1] == ws[i] / 256;
  }

  /** `b` repeated `n` times. */
  function Repeat(b: seq<byte>, n: nat): (r: seq<byte>)
    ensures |r| == |b| * n
  {
    if n == 0 then [] else Repeat(b, n - 1) + b
  }

  lemma {:induction false} RepeatAt(b: seq<byte>, n: nat, k: nat)
    requires k < |b| * n
    ensures |b| > 0 && Repeat(b, n)[k] == b[k % |b|]
  {
    if k < |b| * (n - 1) {
      RepeatAt(b, n - 1, k);
    } else {
      var r := k - |b| * (n - 1);
      assert k == |b| * (n - 1) + r && 0 <= r < |b|;
      ModOfMultiple(|b|, n - 1, r);
    }
  }

  lemma ModOfMultiple(b: nat, q: nat, r: nat)
    requires r < b
    ensures (b * q + r) % b == r
    decreases q
  {
    if q > 0 {
      ModOfMultiple(b, q - 1, r);
      assert b * q + r == (b * (q - 1) + r) + b;
      ModStep(b * (q - 1) + r, b);
    }
  }

  lemma ModStep(n: nat, b: nat)
    requires b > 0
    ensures (n + b) % b == n % b
  {
    assert n == b * (n / b) + n % b;
    var d := (n + b) / b - n / b - 1;
    assert b * d == n % b - (n + b) % b;
  }

  /** `s` with `data` laid over it from index `at`. */
  function Overlay(s: seq<byte>, at: nat, data: seq<byte>): (r: seq<byte>)
    requires at + |data| <= |s|
    ensures |r| == |s|
  {
    s[..at] + data + s[at + |data|..]
  }

  lemma OverlayNothing(s: seq<byte>, at: nat, data: seq<byte>)
    requires at <= |s| && data == []
    ensures Overlay(s, at, data) == s
  {
  }

  lemma OverlayNext(s: seq<byte>, at: nat, data: seq<byte>, b: byte)
    requires at + |data| < |s|
    ensures Overlay(s, at, data)[at + |data| := b] == Overlay(s, at, data + [b])
  {
  }

  lemma OverlayRead(s: seq<byte>, at: nat, data: seq<byte>)
    requires at + |data| <= |s|
    ensures Overlay(s, at, data)[..at] == s[..at]
    ensures Overlay(s, at, data)[at..at + |data|] == data
    ensures Overlay(s, at, data)[..at + |data|] == s[..at] + data
  {
  }

  lemma SliceNext(s: seq<byte>, i: nat, j: nat)
    requires i <= j < |s|
    ensures s[i..j + 1] == s[i..j] + [s[j]]
  {
  }

  /** A slice of a part is a slice of the whole. */
  lemma SliceOfPart(whole: seq<byte>, before: seq<byte>, part: seq<byte>, i: nat, j: nat)
    requires before + part <= whole && i <= j <= |part|
    ensures whole[|before| + i..|before| + j] == part[i..j]
  {
    assert whole[..|before| + |part|] == before + part;
    assert (before + part)[|before| + i..|before| + j] == part[i..j];
  }
}
