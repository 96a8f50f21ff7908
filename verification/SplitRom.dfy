/** bin/split_rom.py: taking every step-th byte of an image, padding it to a power of two and
    repeating it up to the size of the ROM. */
module SplitRom {
  import opened Bytes

  const PAD: byte := 0xff

  /** The script ends with an image or gives up. */
  datatype Rom = TooLarge | Image(bytes: seq<byte>)

  function Pow2(k: nat): (p: nat)
    ensures p >= 1
  {
    if k == 0 then 1 else 2 * Pow2(k - 1)
  }

  ghost predicate IsPow2(n: nat) { exists k: nat :: Pow2(k) == n }

  /** `next_power_of_2` (bin/split_rom.py:6-7), its logarithm taken without rounding. */
  function NextPowerOf2(x: nat): (p: nat)
    ensures p >= 1
  {
    if x <= 1 then 1 else 2 * NextPowerOf2((x + 1) / 2)
  }

  /** `data[start::step]` */
  function Slice(data: seq<byte>, start: nat, step: nat): (r: seq<byte>)
    requires step > 0
    decreases |data| - start
  {
    if start >= |data| then [] else [data[start]] + Slice(data, start + step, step)
  }

  /** What is kept of the slice (bin/split_rom.py:17-19). */
  function Kept(data: seq<byte>, step: nat, start: nat, size: nat): (r: seq<byte>)
    requires step > 0
  {
    var cut := Slice(data, start, step);
    if |cut| > NextPowerOf2(size) then cut[..NextPowerOf2(size)] else cut
  }

  /** What that is padded to (bin/split_rom.py:28-31). */
  function Padded(kept: seq<byte>): (r: seq<byte>) {
    var period := NextPowerOf2(|kept|);
    if |kept| < period then kept + Repeat([PAD], period - |kept|) else kept
  }

  /** bin/split_rom.py:13-35 */
  function Split(data: seq<byte>, step: nat, start: nat, size: nat): Rom
    requires step > 0
  {
    var length, kept := NextPowerOf2(size), Kept(data, step, start, size);
    var pow2Len := NextPowerOf2(|kept|);
    if pow2Len > length then TooLarge
    else Image(if pow2Len < length then Repeat(Padded(kept), length / pow2Len) else Padded(kept))
  }

  // ----- Powers of two

  lemma {:induction false} Pow2Monotone(i: nat, j: nat)
    requires i <= j
    ensures Pow2(i) <= Pow2(j) && Pow2(j) == Pow2(i) * Pow2(j - i)
    decreases j
  {
    if i < j {
      Pow2Monotone(i, j - 1);
      assert Pow2(i) * Pow2(j - i) == 2 * (Pow2(i) * Pow2(j - i - 1));
    }
  }

  /** It is the least power of two that is not below `x`. */
  lemma {:induction false} NextPowerOf2IsLeast(x: nat, k: nat)
    ensures IsPow2(NextPowerOf2(x)) && NextPowerOf2(x) >= x
    ensures Pow2(k) >= x ==> Pow2(k) >= NextPowerOf2(x)
    decreases x
  {
    if x <= 1 {
      assert Pow2(0) == 1;
    } else {
      var half := (x + 1) / 2;
      NextPowerOf2IsLeast(half, if k > 0 then k - 1 else 0);
      var j: nat :| Pow2(j) == NextPowerOf2(half);
      assert Pow2(j + 1) == NextPowerOf2(x);
    }
  }

  /** A smaller power of two divides a larger one. */
  lemma Pow2Divides(p: nat, q: nat)
    requires IsPow2(p) && IsPow2(q) && p <= q
    ensures p > 0 && q % p == 0 && q == p * (q / p)
  {
    var i: nat, j: nat :| Pow2(i) == p && Pow2(j) == q;
    if i <= j {
      Pow2Monotone(i, j);
      QuotientExact(p, Pow2(j - i));
    } else {
      Pow2Monotone(j, i);
      QuotientExact(p, 1);
    }
  }

  lemma QuotientExact(p: nat, n: nat)
    requires p > 0
    ensures (p * n) / p == n && (p * n) % p == 0
  {
    ModOfMultiple(p, n, 0);
    var d := (p * n) / p - n;
    assert p * d == 0;
  }

  // ----- The image

  lemma {:induction false} SliceAt(data: seq<byte>, start: nat, step: nat, k: nat)
    requires step > 0
    ensures start + k * step < |data| <==> k < |Slice(data, start, step)|
    ensures k < |Slice(data, start, step)| ==> Slice(data, start, step)[k] == data[start + k * step]
    decreases |data| - start
  {
    if start < |data| && k > 0 {
      SliceAt(data, start + step, step, k - 1);
      assert start + step + (k - 1) * step == start + k * step;
    } else {
      assert k * step >= 0;
    }
  }

  /** How many positions start, start + step, ... lie inside the image. */
  ghost predicate Positions(data: seq<byte>, step: nat, start: nat, n: nat) {
    forall k: nat :: k < n <==> start + k * step < |data|
  }

  lemma SlicePositions(data: seq<byte>, step: nat, start: nat)
    requires step > 0
    ensures Positions(data, step, start, |Slice(data, start, step)|)
  {
    forall k: nat
      ensures k < |Slice(data, start, step)| <==> start + k * step < |data|
    {
      SliceAt(data, start, step, k);
    }
  }

  lemma PositionsAreUnique(data: seq<byte>, step: nat, start: nat, m: nat, n: nat)
    requires Positions(data, step, start, m) && Positions(data, step, start, n)
    ensures m == n
  {
    assert m < n <==> start + m * step < |data|;
    assert n < m <==> start + n * step < |data|;
  }

  /** What is kept are the bytes at the `n` positions of the image, as far as the ROM has room for
      them. */
  lemma KeptIs(data: seq<byte>, step: nat, start: nat, size: nat, n: nat)
    requires step > 0 && Positions(data, step, start, n)
    ensures var kept, length := Kept(data, step, start, size), NextPowerOf2(size);
            && |kept| == (if n < length then n else length)
            && forall k :: 0 <= k < |kept| ==> start + k * step < |data| && kept[k] == data[start + k * step]
  {
    SlicePositions(data, step, start);
    PositionsAreUnique(data, step, start, n, |Slice(data, start, step)|);
    var kept := Kept(data, step, start, size);
    forall k | 0 <= k < |kept|
      ensures start + k * step < |data| && kept[k] == data[start + k * step]
    {
      SliceAt(data, start, step, k);
    }
  }

  lemma PaddedAt(kept: seq<byte>, i: nat)
    requires i < NextPowerOf2(|kept|)
    ensures |Padded(kept)| == NextPowerOf2(|kept|) && Padded(kept)[i] == (if i < |kept| then kept[i] else PAD)
  {
    NextPowerOf2IsLeast(|kept|, 0);
    if |kept| <= i {
      RepeatAt([PAD], NextPowerOf2(|kept|) - |kept|, i - |kept|);
    }
  }

  /** The padded size is a power of two that divides the size of the ROM: the "too large" exit is
      never taken and the repeat count has no remainder. */
  lemma PeriodDivides(data: seq<byte>, step: nat, start: nat, size: nat)
    requires step > 0
    ensures var length, period := NextPowerOf2(size), NextPowerOf2(|Kept(data, step, start, size)|);
            period <= length && length % period == 0 && length == period * (length / period)
  {
    var length, n := NextPowerOf2(size), |Kept(data, step, start, size)|;
    NextPowerOf2IsLeast(size, 0);
    var j: nat :| Pow2(j) == length;
    NextPowerOf2IsLeast(n, j);
    Pow2Divides(NextPowerOf2(n), length);
  }

  /** The ROM has exactly the least power of two of bytes that holds the requested size. */
  lemma RomLength(data: seq<byte>, step: nat, start: nat, size: nat)
    requires step > 0
    ensures var r := Split(data, step, start, size); r.Image? && |r.bytes| == NextPowerOf2(size)
  {
    var kept := Kept(data, step, start, size);
    PeriodDivides(data, step, start, size);
    PaddedAt(kept, 0);
    hide Kept, Slice, NextPowerOf2, Repeat;
    assert Split(data, step, start, size).Image?;
  }

  /** Byte `i` of the ROM is byte `i` modulo the padded size of what was kept, or a pad byte. */
  lemma RomByteOfKept(data: seq<byte>, step: nat, start: nat, size: nat, i: nat)
    requires step > 0 && i < NextPowerOf2(size)
    ensures var r, kept := Split(data, step, start, size), Kept(data, step, start, size);
            var k := i % NextPowerOf2(|kept|);
            r.Image? && i < |r.bytes| && r.bytes[i] == (if k < |kept| then kept[k] else 0xff)
  {
    var kept, length := Kept(data, step, start, size), NextPowerOf2(size);
    var period := NextPowerOf2(|kept|);
    RomLength(data, step, start, size);
    PeriodDivides(data, step, start, size);
    PaddedAt(kept, i % period);
    if period < length {
      RepeatAt(Padded(kept), length / period, i);
    } else {
      ModOfMultiple(period, 0, i);
    }
  }

  /** Of the `n` positions of the image that a slice starts from, as many are real data as fit the ROM.
      The ROM repeats them with the least power of two as its period; what they leave of a period is
      0xff. */
  lemma RomByte(data: seq<byte>, step: nat, start: nat, size: nat, n: nat, i: nat)
    requires step > 0 && i < NextPowerOf2(size) && Positions(data, step, start, n)
    ensures var r, length := Split(data, step, start, size), NextPowerOf2(size);
            var m := if n < length then n else length;
            var k := i % NextPowerOf2(m);
            && r.Image? && i < |r.bytes|
            && (k < m ==> start + k * step < |data| && r.bytes[i] == data[start + k * step])
            && (k >= m ==> r.bytes[i] == 0xff)
  {
    KeptIs(data, step, start, size, n);
    RomByteOfKept(data, step, start, size, i);
  }

  /** Splitting a 16-bit image into its even and odd halves (Makefile:70-74) loses nothing that fits:
      address `a` is byte `a / 2` of the half of its parity. */
  lemma Interleave(data: seq<byte>, size: nat, a: nat)
    requires a < |data| && a < 2 * NextPowerOf2(size)
    ensures var r := Split(data, 2, a % 2, size);
            r.Image? && a / 2 < |r.bytes| && r.bytes[a / 2] == data[a]
  {
    KeptHalf(data, size, a);
    hide Kept, Split;
    RomByteOfKept(data, 2, a % 2, size, a / 2);
    var kept := Kept(data, 2, a % 2, size);
    NextPowerOf2IsLeast(|kept|, 0);
    ModOfMultiple(NextPowerOf2(|kept|), 0, a / 2);
  }

  lemma KeptHalf(data: seq<byte>, size: nat, a: nat)
    requires a < |data| && a < 2 * NextPowerOf2(size)
    ensures var kept := Kept(data, 2, a % 2, size); a / 2 < |kept| && kept[a / 2] == data[a]
  {
    SliceAt(data, a % 2, 2, a / 2);
    hide Slice;
    assert a % 2 + a / 2 * 2 == a;
  }
}
