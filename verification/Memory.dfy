/** The target's far memory and the copy loops of src/util.h that work on it. */
module Memory {
  import opened Bytes

  const SEGMENT := 0x1_0000
  const SPACE := 0x10_0000

  /** A far pointer as the compiler packs it: segment in the high half, offset in the low half. */
  type FarPtr = uint32

  /** All of the 20-bit physical memory. */
  type Image = m: seq<byte> | |m| == SPACE witness seq(SPACE, _ => 0)

  /** Physical address of element `i` of a byte array at `p`: stepping a far pointer changes
      only its 16-bit offset, and the bus keeps 20 address bits. */
  function Phys(p: FarPtr, i: nat): (a: nat)
    ensures a < SPACE
  {
    (p / SEGMENT * 16 + (p % SEGMENT + i) % SEGMENT) % SPACE
  }

  /** A far pointer moved by integer arithmetic on all 32 bits, before the cast back to a pointer. */
  function Advance(p: FarPtr, n: nat): FarPtr {
    (p + n) % 0x1_0000_0000
  }

  /** A far pointer stepped as a pointer: only the 16-bit offset moves. */
  function Step(p: FarPtr, n: nat): FarPtr {
    p / SEGMENT * SEGMENT + (p % SEGMENT + n) % SEGMENT
  }

  lemma StepPhys(p: FarPtr, n: nat, k: nat)
    ensures Phys(Step(p, n), k) == Phys(p, n + k)
  {
    var a := p % SEGMENT + n;
    assert Step(p, n) / SEGMENT == p / SEGMENT && Step(p, n) % SEGMENT == a % SEGMENT;
    assert (a % SEGMENT + k) % SEGMENT == (a + k) % SEGMENT;
  }

  /** What a far pointer addresses: sixteen times the segment plus the offset, on 20 bits. A step past
      the last offset goes on at the first one of the same segment. */
  lemma PhysIsLinear(p: FarPtr, i: nat)
    requires i < 0x1_0000
    ensures var seg, ofs := p / 0x1_0000, p % 0x1_0000;
            && (ofs + i < 0x1_0000 ==> Phys(p, i) == (16 * seg + ofs + i) % 0x10_0000)
            && (ofs + i >= 0x1_0000 ==> Phys(p, i) == (16 * seg + (ofs + i - 0x1_0000)) % 0x10_0000)
  {
  }

  /** The memory after the bytes of `data` were written upwards from `p`. */
  function Store(m: Image, p: FarPtr, data: seq<byte>): (r: Image) {
    if data == [] then m
    else
      var n := |data| - 1;
      Store(m, p, data[..n])[Phys(p, n) := data[n]]
  }

  /** The `n` bytes read upwards from `p`. */
  function Load(m: Image, p: FarPtr, n: nat): (r: seq<byte>)
    ensures |r| == n
  {
    seq(n, i requires i >= 0 => m[Phys(p, i)])
  }

  lemma LoadSplit(m: Image, p: FarPtr, a: nat, b: nat)
    ensures Load(m, p, a + b) == Load(m, p, a) + Load(m, Step(p, a), b)
  {
    forall k | 0 <= k < b
      ensures m[Phys(Step(p, a), k)] == m[Phys(p, a + k)]
    {
      StepPhys(p, a, k);
    }
  }

  /** Far pointers to the same linear address read the same byte. */
  lemma SameLinearReads(m: Image, p: FarPtr, q: FarPtr)
    requires (16 * (p / 0x1_0000) + p % 0x1_0000) % 0x10_0000 == (16 * (q / 0x1_0000) + q % 0x1_0000) % 0x10_0000
    ensures Load(m, p, 1) == Load(m, q, 1)
    ensures Load(m, p, 1) == [m[(16 * (p / 0x1_0000) + p % 0x1_0000) % 0x10_0000]]
  {
    PhysIsLinear(p, 0);
    PhysIsLinear(q, 0);
    hide Phys;
  }

  // ----- What a write leaves behind

  lemma PhysInjective(p: FarPtr, i: nat, j: nat)
    requires i < SEGMENT && j < SEGMENT
    ensures Phys(p, i) == Phys(p, j) ==> i == j
  {
    var base := p / SEGMENT * 16;
    var a, b := (p % SEGMENT + i) % SEGMENT, (p % SEGMENT + j) % SEGMENT;
    assert (base + a) % SPACE == (base + b) % SPACE ==> a == b;
  }

  /** Up to a whole segment may be written: each byte is found where it was put. */
  lemma {:induction false} StoreHit(m: Image, p: FarPtr, data: seq<byte>, k: nat)
    requires k < |data| <= SEGMENT
    ensures Store(m, p, data)[Phys(p, k)] == data[k]
  {
    var n := |data| - 1;
    if k < n {
      StoreHit(m, p, data[..n], k);
      PhysInjective(p, k, n);
    }
  }

  /** Nothing but the addressed bytes changes. */
  lemma {:induction false} StoreMiss(m: Image, p: FarPtr, data: seq<byte>, a: nat)
    requires a < SPACE
    requires forall k :: 0 <= k < |data| ==> Phys(p, k) != a
    ensures Store(m, p, data)[a] == m[a]
  {
    if data != [] {
      StoreMiss(m, p, data[..|data| - 1], a);
    }
  }

  /** Reading back a write of at most one segment gives the data. */
  lemma LoadStore(m: Image, p: FarPtr, data: seq<byte>)
    requires |data| <= SEGMENT
    ensures Load(Store(m, p, data), p, |data|) == data
  {
    forall k | 0 <= k < |data|
      ensures Load(Store(m, p, data), p, |data|)[k] == data[k]
    {
      StoreHit(m, p, data, k);
    }
  }

  // ----- Writing a payload in pieces

  lemma AdvanceInSegment(p: FarPtr, n: nat, k: nat)
    requires p % SEGMENT + n < SEGMENT
    ensures Phys(Advance(p, n), k) == Phys(p, n + k)
  {
    var q := p + n;
    assert q / SEGMENT == p / SEGMENT && q % SEGMENT == p % SEGMENT + n;
    assert q < 0x1_0000_0000;
  }

  /** Writing `a` and then, from the pointer recomputed on 32 bits, `b` is writing `a + b`, as long as
      `b` starts in the same segment. */
  lemma {:induction false} StoreChunk(m: Image, p: FarPtr, a: seq<byte>, b: seq<byte>)
    requires b != [] ==> p % SEGMENT + |a| < SEGMENT
    ensures Store(Store(m, p, a), Advance(p, |a|), b) == Store(m, p, a + b)
  {
    if b == [] {
      assert a + b == a;
    } else {
      var n := |b| - 1;
      StoreChunk(m, p, a, b[..n]);
      AdvanceInSegment(p, |a|, n);
      assert (a + b)[..|a| + n] == a + b[..n];
    }
  }

  /** Any `n` bytes can be written in two pieces, wherever they are cut between units. */
  ghost predicate PiecewiseSafe(p: FarPtr, n: nat, unit: nat)
    requires unit > 0
  {
    forall m: Image, a: seq<byte>, b: seq<byte> :: |a| + |b| == n && |a| % unit == 0 ==>
      Store(Store(m, p, a), Advance(p, |a|), b) == Store(m, p, a + b)
  }

  /** Recomputing a chunk's start on 32 bits while stepping on 16 is harmless exactly when no unit
      starts beyond the segment: the bytes of one that does land 16 bytes higher if a new chunk
      begins with it. A last word at offset 0xffff is still safe. */
  lemma PiecewiseSafeIff(p: FarPtr, n: nat, unit: nat)
    requires 1 <= unit <= 2 && n < SEGMENT && n % unit == 0
    ensures PiecewiseSafe(p, n, unit) <==> p % SEGMENT + n < SEGMENT + unit
  {
    if p % SEGMENT + n < SEGMENT + unit {
      forall m: Image, a: seq<byte>, b: seq<byte> | |a| + |b| == n && |a| % unit == 0
        ensures Store(Store(m, p, a), Advance(p, |a|), b) == Store(m, p, a + b)
      {
        assert b != [] ==> |b| >= unit;
        StoreChunk(m, p, a, b);
      }
    } else {
      var k := SEGMENT - p % SEGMENT;
      var cut := if unit == 2 && k % 2 == 1 then k + 1 else k;
      assert cut % unit == 0;
      NotPiecewiseSafe(p, n, unit, cut);
    }
  }

  lemma NotPiecewiseSafe(p: FarPtr, n: nat, unit: nat, cut: nat)
    requires 0 < unit && n < SEGMENT && cut % unit == 0
    requires SEGMENT <= p % SEGMENT + cut <= SEGMENT + 1 && cut < n
    ensures !PiecewiseSafe(p, n, unit)
  {
    var m: Image := seq(SPACE, _ => 0);
    var a: seq<byte>, b: seq<byte> := seq(cut, _ => 1), seq(n - cut, _ => 1);
    assert m[Phys(p, |a|)] != b[0];
    CrossingByte(m, p, a, b);
    hide Store, Phys, Advance;
    assert Store(Store(m, p, a), Advance(p, |a|), b) != Store(m, p, a + b);
  }

  /** Where the first byte of a chunk lands that begins `d` bytes beyond its segment: 16 bytes above the
      offset that a stepped pointer would have come to. */
  lemma CrossingLands(m: Image, p: FarPtr, n: nat, d: nat, b: byte)
    requires p % 0x1_0000 + n == 0x1_0000 + d && d < 0x1_0000
    ensures Store(m, Advance(p, n), [b])[(16 * (p / 0x1_0000) + 16 + d) % 0x10_0000] == b
  {
    AdvanceAcross(p, n, d);
    var q := Advance(p, n);
    PhysIsLinear(q, 0);
    StoreHit(m, q, [b], 0);
    hide Store, Phys, Advance;
    var seg := p / 0x1_0000;
    assert q / 0x1_0000 == if seg < 0xffff then seg + 1 else 0;
  }

  lemma CrossingByte(m: Image, p: FarPtr, a: seq<byte>, b: seq<byte>)
    requires SEGMENT <= p % SEGMENT + |a| <= SEGMENT + 1 && b != [] && |a| + |b| < SEGMENT
    requires m[Phys(p, |a|)] != b[0]
    ensures Store(Store(m, p, a), Advance(p, |a|), b)[Phys(p, |a|)] != Store(m, p, a + b)[Phys(p, |a|)]
  {
    var q, at := Advance(p, |a|), Phys(p, |a|);
    StoreHit(m, p, a + b, |a|);
    forall k | 0 <= k < |a|
      ensures Phys(p, k) != at
    {
      PhysInjective(p, k, |a|);
    }
    StoreMiss(m, p, a, at);
    forall k | 0 <= k < |b|
      ensures Phys(q, k) != at
    {
      NextSegmentMisses(p, |a|, k);
    }
    StoreMiss(Store(m, p, a), q, b, at);
  }

  lemma NextSegmentMisses(p: FarPtr, n: nat, k: nat)
    requires SEGMENT <= p % SEGMENT + n <= SEGMENT + 1 && k < SEGMENT - 1
    ensures Phys(Advance(p, n), k) != Phys(p, n)
  {
    var q, d := Advance(p, n), p % SEGMENT + n - SEGMENT;
    var s := p / SEGMENT;
    AdvanceAcross(p, n, d);
    assert Phys(p, n) == (s * 16 + d) % SPACE;
    assert Phys(q, k) == ((s + 1) % SEGMENT * 16 + d + k) % SPACE;
    assert (s + 1) % SEGMENT == if s + 1 < SEGMENT then s + 1 else 0;
  }

  lemma AdvanceAcross(p: FarPtr, n: nat, d: nat)
    requires p % SEGMENT + n == SEGMENT + d && d < SEGMENT
    ensures Advance(p, n) % SEGMENT == d && Advance(p, n) / SEGMENT == (p / SEGMENT + 1) % SEGMENT
  {
    assert p + n == (p / SEGMENT + 1) * SEGMENT + d;
  }

  // ----- Periodic data that may go round a segment

  /** Element `i` of `b` repeated. */
  function Beat(b: seq<byte>, i: nat): byte
    requires b != []
  {
    b[i % |b|]
  }

  predicate Periodic(data: seq<byte>, b: seq<byte>)
    requires b != []
  {
    forall i :: 0 <= i < |data| ==> data[i] == Beat(b, i)
  }

  /** Bytes or words stored over and over: each offset holds its byte of the pattern, however often
      the store went round the segment. */
  lemma {:induction false} PeriodicAt(m: Image, p: FarPtr, data: seq<byte>, b: seq<byte>, k: nat)
    requires 1 <= |b| <= 2 && Periodic(data, b) && k < SEGMENT
    ensures Store(m, p, data)[Phys(p, k)] == if k < |data| then Beat(b, k) else m[Phys(p, k)]
  {
    hide Phys, Beat;
    if data != [] {
      var n := |data| - 1;
      PeriodicAt(m, p, data[..n], b, k);
      PhysRound(p, n);
      PhysInjective(p, n % SEGMENT, k);
      BeatRound(b, n);
      assert data[n] == Beat(b, n);
      assert Store(m, p, data) == Store(m, p, data[..n])[Phys(p, n) := data[n]];
      hide Store, Periodic;
    }
  }

  lemma BeatRound(b: seq<byte>, n: nat)
    requires 1 <= |b| <= 2
    ensures Beat(b, n % SEGMENT) == Beat(b, n)
  {
    if |b| == 2 {
      assert n % SEGMENT % 2 == n % 2;
    }
  }

  lemma PhysRound(p: FarPtr, n: nat)
    ensures Phys(p, n) == Phys(p, n % SEGMENT)
  {
    assert (p % SEGMENT + n) % SEGMENT == (p % SEGMENT + n % SEGMENT) % SEGMENT;
  }

  /** Two lengths of the same pattern leave the same memory exactly when they are equal or both fill
      the whole segment. */
  lemma PeriodicIff(p: FarPtr, x: seq<byte>, y: seq<byte>, b: seq<byte>)
    requires 1 <= |b| <= 2 && Periodic(x, b) && Periodic(y, b) && |x| <= |y|
    ensures (forall m: Image :: Store(m, p, x) == Store(m, p, y)) <==> |x| == |y| || SEGMENT <= |x|
  {
    if |x| == |y| {
      assert x == y;
    } else if SEGMENT <= |x| {
      forall m: Image
        ensures Store(m, p, x) == Store(m, p, y)
      {
        SamePattern(m, p, x, y, b);
      }
    } else {
      var k := |x|;
      var other: byte := if Beat(b, k) == 0 then 1 else 0;
      var m: Image := seq(SPACE, _ => other);
      PeriodicAt(m, p, x, b, k);
      PeriodicAt(m, p, y, b, k);
      assert Store(m, p, x)[Phys(p, k)] != Store(m, p, y)[Phys(p, k)];
    }
  }

  lemma SamePattern(m: Image, p: FarPtr, x: seq<byte>, y: seq<byte>, b: seq<byte>)
    requires 1 <= |b| <= 2 && Periodic(x, b) && Periodic(y, b) && SEGMENT <= |x| && SEGMENT <= |y|
    ensures Store(m, p, x) == Store(m, p, y)
  {
    forall a | 0 <= a < SPACE
      ensures Store(m, p, x)[a] == Store(m, p, y)[a]
    {
      if k :| 0 <= k < SEGMENT && Phys(p, k) == a {
        PeriodicAt(m, p, x, b, k);
        PeriodicAt(m, p, y, b, k);
      } else {
        forall k | 0 <= k
          ensures Phys(p, k) != a
        {
          PhysRound(p, k);
        }
        StoreMiss(m, p, x, a);
        StoreMiss(m, p, y, a);
      }
    }
  }

  // ----- The copy loops

  /** One byte at a time, upwards, inside one array: the source may be overwritten on the way. */
  function CopyAscending(s: seq<byte>, dst: nat, src: nat, len: nat): (r: seq<byte>)
    requires dst + len <= |s| && src + len <= |s|
    ensures |r| == |s|
  {
    if len == 0 then s
    else
      var t := CopyAscending(s, dst, src, len - 1);
      t[dst + len - 1 := t[src + len - 1]]
  }

  /** What a move promises: the destination holds the old source and the rest is unchanged. */
  ghost predicate IsMove(s: seq<byte>, r: seq<byte>, dst: nat, src: nat, len: nat)
    requires dst + len <= |s| && src + len <= |s|
  {
    r == s[..dst] + s[src..src + len] + s[dst + len..]
  }

  lemma {:induction false} AscendingIsMove(s: seq<byte>, dst: nat, src: nat, len: nat)
    requires dst + len <= |s| && src + len <= |s|
    requires dst <= src || src + len <= dst
    ensures IsMove(s, CopyAscending(s, dst, src, len), dst, src, len)
  {
    if len > 0 {
      AscendingIsMove(s, dst, src, len - 1);
      var t, n := CopyAscending(s, dst, src, len - 1), len - 1;
      hide CopyAscending;
      assert t[src + n] == s[src + n];
      MoveOneMore(s, t, dst, src, n);
    }
  }

  lemma MoveOneMore(s: seq<byte>, t: seq<byte>, dst: nat, src: nat, n: nat)
    requires dst + n < |s| && src + n < |s| && |t| == |s| && IsMove(s, t, dst, src, n)
    ensures IsMove(s, t[dst + n := s[src + n]], dst, src, n + 1)
  {
    assert s[src..src + n + 1] == s[src..src + n] + [s[src + n]];
    assert s[dst + n..] == [s[dst + n]] + s[dst + n + 1..];
  }

  /** The ascending copy is a move for all contents exactly when the destination does not start
      inside the source. The downward shift of the command buffer is the `dst <= src` case. */
  lemma AscendingIsMoveIff(n: nat, dst: nat, src: nat, len: nat)
    requires dst + len <= n && src + len <= n
    ensures (forall s: seq<byte> :: |s| == n ==> IsMove(s, CopyAscending(s, dst, src, len), dst, src, len))
       <==> !(src < dst < src + len)
  {
    if src < dst < src + len {
      var s := MarkedAt(n, src);
      AscendingSmears(s, dst, src, len);
    } else {
      forall s: seq<byte> | |s| == n
        ensures IsMove(s, CopyAscending(s, dst, src, len), dst, src, len)
      {
        if len > 0 {
          AscendingIsMove(s, dst, src, len);
        }
      }
    }
  }

  function MarkedAt(n: nat, i: nat): (s: seq<byte>)
    requires i < n
    ensures |s| == n && forall j :: 0 <= j < n ==> s[j] == if j == i then 1 else 0
  {
    seq(n, j => if j == i then 1 else 0)
  }

  lemma AscendingSmears(s: seq<byte>, dst: nat, src: nat, len: nat)
    requires dst + len <= |s| && src + len <= |s|
    requires src < dst < src + len && s[src] != s[dst]
    ensures !IsMove(s, CopyAscending(s, dst, src, len), dst, src, len)
  {
    var k := dst - src;
    SmearedByte(s, dst, src, len, k);
    assert (s[..dst] + s[src..src + len] + s[dst + len..])[dst + k] == s[src + k];
  }

  /** With the destination inside the source, the first source byte comes round again. */
  lemma {:induction false} SmearedByte(s: seq<byte>, dst: nat, src: nat, len: nat, k: nat)
    requires dst + len <= |s| && src + len <= |s|
    requires src < dst && k < len
    requires k == 0 || k == dst - src
    ensures CopyAscending(s, dst, src, len)[dst + k] == s[src]
  {
    if k < len - 1 {
      SmearedByte(s, dst, src, len - 1, k);
    } else if k == dst - src {
      SmearedByte(s, dst, src, len - 1, 0);
    } else {
      assert len == 1;
    }
  }

  /** `memcpyb` inside one near array (src/util.h:38-50 through 66-69). */
  method MemCopyNear(a: array<byte>, dst: nat, src: nat, len: nat)
    requires dst + len <= a.Length && src + len <= a.Length
    modifies a
    ensures a[..] == CopyAscending(old(a[..]), dst, src, len)
  {
    var i := 0;
    while i < len
      invariant i <= len
      invariant a[..] == CopyAscending(old(a[..]), dst, src, i)
    {
      a[dst + i] := a[src + i];
      i := i + 1;
    }
  }

  /** `memcpyb` from a near buffer to far memory (src/util.h:38-50). */
  method MemCopyBytes(mem: array<byte>, p: FarPtr, src: array<byte>, len: nat)
    requires mem.Length == SPACE && len <= src.Length && mem != src
    modifies mem
    ensures mem[..] == Store(old(mem[..]), p, src[..len])
  {
    var i := 0;
    while i < len
      invariant i <= len
      invariant mem[..] == Store(old(mem[..]), p, src[..i])
    {
      mem[Phys(p, i)] := src[i];
      i := i + 1;
      assert src[..i][..i - 1] == src[..i - 1];
    }
  }

  /** `memcpyw` from a near buffer to far memory: `len` two-byte moves (src/util.h:52-64). */
  method MemCopyWords(mem: array<byte>, p: FarPtr, src: array<byte>, len: nat)
    requires mem.Length == SPACE && 2 * len <= src.Length && mem != src
    modifies mem
    ensures mem[..] == Store(old(mem[..]), p, src[..2 * len])
  {
    var i := 0;
    while i < len
      invariant i <= len
      invariant mem[..] == Store(old(mem[..]), p, src[..2 * i])
    {
      mem[Phys(p, 2 * i)] := src[2 * i];
      mem[Phys(p, 2 * i + 1)] := src[2 * i + 1];
      i := i + 1;
      assert src[..2 * i][..2 * i - 1] == src[..2 * i - 1];
      assert src[..2 * i - 1][..2 * i - 2] == src[..2 * i - 2];
    }
  }

  /** `memsetb` (src/util.h:11-20). */
  method MemSetBytes(mem: array<byte>, p: FarPtr, c: byte, len: uint16)
    requires mem.Length == SPACE
    modifies mem
    ensures mem[..] == Store(old(mem[..]), p, Repeat([c], len))
  {
    var i := 0;
    while i < len
      invariant i <= len
      invariant mem[..] == Store(old(mem[..]), p, Repeat([c], i))
    {
      mem[Phys(p, i)] := c;
      i := i + 1;
      assert Repeat([c], i)[..i - 1] == Repeat([c], i - 1);
    }
  }

  /** `memsetw` (src/util.h:22-31). */
  method MemSetWords(mem: array<byte>, p: FarPtr, c: uint16, len: uint16)
    requires mem.Length == SPACE
    modifies mem
    ensures mem[..] == Store(old(mem[..]), p, Repeat(Le16(c), len))
  {
    var i := 0;
    while i < len
      invariant i <= len
      invariant mem[..] == Store(old(mem[..]), p, Repeat(Le16(c), i))
    {
      mem[Phys(p, 2 * i)] := c % 0x100;
      mem[Phys(p, 2 * i + 1)] := c / 0x100;
      i := i + 1;
      StoreWord(old(mem[..]), p, Repeat(Le16(c), i - 1), c);
    }
  }

  /** A word written after `data` extends it by two bytes. */
  lemma StoreWord(m: Image, p: FarPtr, data: seq<byte>, c: uint16)
    ensures Store(m, p, data + Le16(c))
         == Store(m, p, data)[Phys(p, |data|) := c % 0x100][Phys(p, |data| + 1) := c / 0x100]
  {
    var all := data + Le16(c);
    assert all[..|all| - 1] == data + [c % 0x100];
    assert (data + [c % 0x100])[..|data|] == data;
  }
}
