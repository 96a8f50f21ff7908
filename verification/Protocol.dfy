/** The command protocol between bin/comms.py and src/main.c: how commands are framed, and the
    atomic machine that says what a run of them means. */
module Protocol {
  import opened Bytes
  import opened Memory

  const CMD_IDLE: byte := 0
  const CMD_WRITE_BYTES: byte := 1
  const CMD_WRITE_WORDS: byte := 2
  const CMD_READ_BYTES: byte := 3
  const CMD_READ_WORDS: byte := 4
  const CMD_FILL_BYTES: byte := 5
  const CMD_FILL_WORDS: byte := 6

  const HEADER_SIZE := 11

  /** A command as the host sends it. The payload length travels in 16 bits. */
  datatype Message = Message(op: byte, arg0: uint32, arg1: uint32, payload: seq<byte>)
  type Command = c: Message | |c.payload| < 0x1_0000 witness Message(0, 0, 0, [])

  // ----- Framing

  /** The ten bytes after the opcode. */
  function Arguments(c: Command): (h: seq<byte>)
    ensures |h| == HEADER_SIZE - 1
  {
    Le32(c.arg0) + Le32(c.arg1) + Le16(|c.payload|)
  }

  /** What travels for a command; an IDLE opcode travels alone. */
  function Encode(c: Command): (s: seq<byte>)
    ensures s != []
  {
    if c.op == CMD_IDLE then [CMD_IDLE] else [c.op] + Arguments(c) + c.payload
  }

  function EncodeAll(cs: seq<Command>): (s: seq<byte>) {
    if cs == [] then [] else EncodeAll(cs[..|cs| - 1]) + Encode(cs[|cs| - 1])
  }

  /** Reads one command off the front of a stream, as the target does; IDLE bytes carry nothing else. */
  function Decode(s: seq<byte>): (r: (Command, seq<byte>))
    requires s != []
    requires s[0] == CMD_IDLE || (|s| >= HEADER_SIZE && |s| >= HEADER_SIZE + FromLe16(s[9..11]))
    ensures |r.1| < |s|
  {
    if s[0] == CMD_IDLE then (Message(CMD_IDLE, 0, 0, []), s[1..])
    else
      var total := FromLe16(s[9..11]);
      (Message(s[0], FromLe32(s[1..5]), FromLe32(s[5..9]), s[11..11 + total]), s[11 + total..])
  }

  lemma ArgumentsRoundTrip(c: Command, h: seq<byte>)
    requires h == Arguments(c)
    ensures FromLe32(h[0..4]) == c.arg0 && FromLe32(h[4..8]) == c.arg1 && FromLe16(h[8..10]) == |c.payload|
  {
    Le32RoundTrip(c.arg0);
    Le32RoundTrip(c.arg1);
    Le16RoundTrip(|c.payload|);
    var a, b, n := Le32(c.arg0), Le32(c.arg1), Le16(|c.payload|);
    assert h == a + b + n;
    assert h[0..4] == a && h[4..8] == b;
    assert h[8] == n[0] && h[9] == n[1];
    assert h[8..10] == [n[0], n[1]];
  }

  /** Framing is unambiguous: a command is recovered whatever follows it, and not a byte more is
      taken. */
  lemma DecodeEncode(c: Command, rest: seq<byte>)
    requires c.op == CMD_IDLE ==> c == Message(CMD_IDLE, 0, 0, [])
    ensures var s := Encode(c) + rest;
            (s[0] == CMD_IDLE || (|s| >= HEADER_SIZE && |s| >= HEADER_SIZE + FromLe16(s[9..11])))
            && Decode(s) == (c, rest)
  {
    var s := Encode(c) + rest;
    if c.op != CMD_IDLE {
      var h := Arguments(c);
      ArgumentsRoundTrip(c, h);
      assert s == [c.op] + h + c.payload + rest;
      assert s[1..5] == h[0..4] && s[5..9] == h[4..8] && s[9..11] == h[8..10];
      assert s[11..11 + |c.payload|] == c.payload;
      assert s[11 + |c.payload|..] == rest;
    } else {
      assert s[1..] == rest;
    }
  }

  /** What is on the wire, byte by byte: the opcode, two arguments and the payload size, least
      significant bytes first, and the payload. An IDLE byte travels alone. */
  lemma WireFormat(c: Command)
    ensures c.op == 0 ==> Encode(c) == [0]
    ensures c.op != 0 ==>
              var n := |c.payload|;
              && |Encode(c)| == 11 + n && Encode(c)[11..] == c.payload
              && Encode(c)[..11] == [
                   c.op,
                   c.arg0 % 256, c.arg0 / 256 % 256, c.arg0 / 65536 % 256, c.arg0 / 16777216,
                   c.arg1 % 256, c.arg1 / 256 % 256, c.arg1 / 65536 % 256, c.arg1 / 16777216,
                   n % 256, n / 256]
  {
    LittleEndian(c.arg0);
    LittleEndian(c.arg1);
    LittleEndian(|c.payload|);
    hide Le32, Le16;
  }

  /** The stream of the first k commands is where the next one starts. */
  lemma {:induction false} EncodeAllPrefix(cs: seq<Command>, k: nat)
    requires k <= |cs|
    ensures EncodeAll(cs[..k]) <= EncodeAll(cs)
  {
    if k < |cs| {
      EncodeAllPrefix(cs[..|cs| - 1], k);
      assert cs[..|cs| - 1][..k] == cs[..k];
    } else {
      assert cs[..k] == cs;
    }
  }

  lemma EncodeAllNext(cs: seq<Command>, k: nat)
    requires k < |cs|
    ensures EncodeAll(cs[..k + 1]) == EncodeAll(cs[..k]) + Encode(cs[k])
    ensures EncodeAll(cs[..k]) + Encode(cs[k]) <= EncodeAll(cs)
  {
    assert cs[..k + 1][..k] == cs[..k];
    EncodeAllPrefix(cs, k + 1);
  }

  lemma EncodeAllSnoc(cs: seq<Command>, c: Command)
    ensures EncodeAll(cs + [c]) == EncodeAll(cs) + Encode(c)
  {
    assert (cs + [c])[..|cs|] == cs;
  }

  // ----- The atomic machine

  /** What the host may ask for: the payload shapes bin/comms.py sends, writes none of whose units
      starts beyond its segment (`PiecewiseSafeIff`), and word reads whose index can be shifted in a
      16-bit `int`. Unknown opcodes may carry anything. */
  predicate WellFormed(c: Command) {
    if c.op == CMD_IDLE then c == Message(CMD_IDLE, 0, 0, [])
    else if IsWrite(c.op) then
      && c.arg0 % SEGMENT + |c.payload| < SEGMENT + Unit(c.op)
      && |c.payload| % Unit(c.op) == 0
    else if IsRead(c.op) then
      && c.payload == []
      && (c.op == CMD_READ_WORDS ==> c.arg1 <= 0x4000)
    else if IsFill(c.op) then
      c.payload == [] || |c.payload| == Unit(c.op)
    else true
  }

  /** Well-formed by opcode: nothing is asked of unknown ones; writes are whole units that any cut
      leaves in place, reads carry no payload, and fills at most their value. */
  lemma WellFormedIff(c: Command)
    ensures c.op == 0 ==> (WellFormed(c) <==> c.arg0 == 0 && c.arg1 == 0 && c.payload == [])
    ensures c.op == 1 ==> (WellFormed(c) <==> PiecewiseSafe(c.arg0, |c.payload|, 1))
    ensures c.op == 2 ==> (WellFormed(c) <==> |c.payload| % 2 == 0 && PiecewiseSafe(c.arg0, |c.payload|, 2))
    ensures c.op == 3 ==> (WellFormed(c) <==> c.payload == [])
    ensures c.op == 4 ==> (WellFormed(c) <==> c.payload == [] && c.arg1 <= 16384)
    ensures c.op == 5 ==> (WellFormed(c) <==> |c.payload| <= 1)
    ensures c.op == 6 ==> (WellFormed(c) <==> |c.payload| in {0, 2})
    ensures c.op > 6 ==> WellFormed(c)
  {
    if c.op == 1 {
      PiecewiseSafeIff(c.arg0, |c.payload|, 1);
    } else if c.op == 2 && |c.payload| % 2 == 0 {
      PiecewiseSafeIff(c.arg0, |c.payload|, 2);
    }
    hide PiecewiseSafe;
  }

  /** The number of bytes a write or fill handles as one. */
  function Unit(op: byte): (n: nat)
    ensures 1 <= n <= 2
  {
    if op == CMD_WRITE_WORDS || op == CMD_FILL_WORDS then 2 else 1
  }

  predicate IsWrite(op: byte) { op == CMD_WRITE_BYTES || op == CMD_WRITE_WORDS }

  predicate IsRead(op: byte) { op == CMD_READ_BYTES || op == CMD_READ_WORDS }

  predicate IsFill(op: byte) { op == CMD_FILL_BYTES || op == CMD_FILL_WORDS }

  /** A 32-bit count as it reaches a 16-bit `size_t`. */
  function Size16(n: uint32): uint16 { n % 0x1_0000 }

  /** A 32-bit count as it reaches a 16-bit `int`; a negative one counts nothing. */
  function Count16(n: uint32): nat {
    var i := Int16(Size16(n));
    if i < 0 then 0 else i
  }

  /** Memory after the command, as one update. The count of a fill is a `size_t`. */
  function Apply(m: Image, c: Command): (r: Image)
    requires WellFormed(c)
  {
    if IsWrite(c.op) then Store(m, c.arg0, c.payload)
    else if IsFill(c.op) then Store(m, c.arg0, Repeat(c.payload, Size16(c.arg1)))
    else m
  }

  /** How many bytes a command changes from its address on. */
  function Extent(c: Command): nat {
    if IsWrite(c.op) then |c.payload|
    else if IsFill(c.op) then |c.payload| * Size16(c.arg1)
    else 0
  }

  /** What a command puts into memory: a write its payload, a fill its payload over and over, also
      when it goes round the segment. */
  lemma ApplyHit(m: Image, c: Command, k: nat)
    requires WellFormed(c) && k < Extent(c) && k < SEGMENT
    ensures IsWrite(c.op) ==> Apply(m, c)[Phys(c.arg0, k)] == c.payload[k]
    ensures IsFill(c.op) ==> Apply(m, c)[Phys(c.arg0, k)] == c.payload[k % |c.payload|]
  {
    if IsWrite(c.op) {
      StoreHit(m, c.arg0, c.payload, k);
    } else {
      RepeatIsPeriodic(c.payload, Size16(c.arg1));
      PeriodicAt(m, c.arg0, Repeat(c.payload, Size16(c.arg1)), c.payload, k);
    }
  }

  lemma RepeatIsPeriodic(b: seq<byte>, n: nat)
    requires b != []
    ensures Periodic(Repeat(b, n), b)
  {
    forall k | 0 <= k < |b| * n
      ensures Repeat(b, n)[k] == Beat(b, k)
    {
      RepeatAt(b, n, k);
    }
  }

  /** A fill is the fill that was asked for, whatever memory holds, exactly when its count fits 16
      bits, or what is left of it still goes round the whole segment. */
  lemma FillIff(c: Command)
    requires WellFormed(c) && IsFill(c.op) && c.payload != []
    ensures (forall m: Image :: Apply(m, c) == Store(m, c.arg0, Repeat(c.payload, c.arg1)))
       <==> c.arg1 < 0x1_0000 || (c.op == CMD_FILL_WORDS && Size16(c.arg1) >= 0x8000)
  {
    var x, y := Repeat(c.payload, Size16(c.arg1)), Repeat(c.payload, c.arg1);
    RepeatIsPeriodic(c.payload, Size16(c.arg1));
    RepeatIsPeriodic(c.payload, c.arg1);
    FillSizes(c, Size16(c.arg1));
    FillSizes(c, c.arg1);
    FillLengths(c, |x|, |y|);
    PeriodicIff(c.arg0, x, y, c.payload);
    hide Repeat, Store, Periodic;
    assert forall m: Image :: Apply(m, c) == Store(m, c.arg0, x);
  }

  lemma FillSizes(c: Command, n: nat)
    requires WellFormed(c) && IsFill(c.op) && c.payload != []
    ensures |Repeat(c.payload, n)| == if c.op == CMD_FILL_WORDS then 2 * n else n
  {
  }

  lemma FillLengths(c: Command, x: nat, y: nat)
    requires x == (if c.op == CMD_FILL_WORDS then 2 * Size16(c.arg1) else Size16(c.arg1))
    requires y == (if c.op == CMD_FILL_WORDS then 2 * c.arg1 else c.arg1)
    ensures x <= y
    ensures (x == y || SEGMENT <= x)
       <==> c.arg1 < 0x1_0000 || (c.op == CMD_FILL_WORDS && Size16(c.arg1) >= 0x8000)
  {
  }

  /** The same in opcodes and linear addresses: a write (1, 2) puts its payload at sixteen times the
      segment plus the offset, a fill (5, 6) its byte or word over and over as often as the low 16 bits
      of the count say, and a byte that would leave the segment lands at its other end. */
  lemma ApplyLinear(m: Image, c: Command, k: nat)
    requires WellFormed(c) && k < 0x1_0000
    requires c.op == 1 || c.op == 2 ==> k < |c.payload|
    requires c.op == 5 || c.op == 6 ==> k < |c.payload| * (c.arg1 % 0x1_0000)
    ensures var base, ofs := 16 * (c.arg0 / 0x1_0000), c.arg0 % 0x1_0000 + k;
            var at := (base + (if ofs < 0x1_0000 then ofs else ofs - 0x1_0000)) % 0x10_0000;
            && (c.op == 1 || c.op == 2 ==> Apply(m, c)[at] == c.payload[k])
            && (c.op == 5 || c.op == 6 ==> Apply(m, c)[at] == c.payload[k % |c.payload|])
            && (c.op !in {1, 2, 5, 6} ==> Apply(m, c) == m)
  {
    PhysIsLinear(c.arg0, k);
    if c.op in {1, 2, 5, 6} {
      ApplyHit(m, c, k);
      hide Apply, Phys, WellFormed;
    }
  }

  /** Every address a command does not name keeps its byte. */
  lemma ApplyMiss(m: Image, c: Command, a: nat)
    requires WellFormed(c) && a < SPACE
    requires forall k :: 0 <= k < Extent(c) ==> Phys(c.arg0, k) != a
    ensures Apply(m, c)[a] == m[a]
  {
    if IsWrite(c.op) {
      StoreMiss(m, c.arg0, c.payload, a);
    } else if IsFill(c.op) {
      StoreMiss(m, c.arg0, Repeat(c.payload, Size16(c.arg1)), a);
    }
  }

  /** The data a command answers with. The count of a byte read goes through an `int`. */
  function Reply(m: Image, c: Command): (r: seq<byte>) {
    if c.op == CMD_READ_BYTES then Load(m, c.arg0, Count16(c.arg1))
    else if c.op == CMD_READ_WORDS then Load(m, c.arg0, 2 * c.arg1)
    else []
  }

  /** A byte read answers what was asked for exactly when the count survives the cast. */
  lemma ReadIff(m: Image, c: Command)
    requires c.op == CMD_READ_BYTES
    ensures Reply(m, c) == Load(m, c.arg0, c.arg1) <==> c.arg1 < 0x8000
  {
    assert |Reply(m, c)| == |Load(m, c.arg0, c.arg1)| <==> c.arg1 < 0x8000;
  }

  /** The same in opcodes and linear addresses: a byte read (3) answers as many bytes as the low 16 bits
      of the count say, taken as an `int`, a word read (4) two for each, nothing else any. */
  lemma ReplyLinear(m: Image, c: Command, k: nat)
    requires WellFormed(c) && k < 0x1_0000
    ensures var count := c.arg1 % 0x1_0000;
            && (c.op == 3 ==> |Reply(m, c)| == if count < 0x8000 then count else 0)
            && (c.op == 4 ==> |Reply(m, c)| == 2 * c.arg1)
            && (c.op != 3 && c.op != 4 ==> Reply(m, c) == [])
    ensures var base, ofs := 16 * (c.arg0 / 0x1_0000), c.arg0 % 0x1_0000 + k;
            var at := (base + (if ofs < 0x1_0000 then ofs else ofs - 0x1_0000)) % 0x10_0000;
            k < |Reply(m, c)| ==> Reply(m, c)[k] == m[at]
  {
    PhysIsLinear(c.arg0, k);
  }

  /** The data and then the opcode as a tail; an IDLE byte is not answered. */
  function Response(m: Image, c: Command): (r: seq<byte>) {
    if c.op == CMD_IDLE then [] else Reply(m, c) + [c.op]
  }

  ghost predicate AllWellFormed(cs: seq<Command>) {
    forall i :: 0 <= i < |cs| ==> WellFormed(cs[i])
  }

  lemma AllWellFormedSnoc(cs: seq<Command>, c: Command)
    requires AllWellFormed(cs) && WellFormed(c)
    ensures AllWellFormed(cs + [c])
  {
    hide WellFormed;
  }

  /** Memory after a run of commands. */
  function MemAfter(m: Image, cs: seq<Command>): (r: Image)
    requires AllWellFormed(cs)
  {
    if cs == [] then m else Apply(MemAfter(m, cs[..|cs| - 1]), cs[|cs| - 1])
  }

  /** Everything answered during a run of commands. */
  function OutAfter(m: Image, cs: seq<Command>): (r: seq<byte>)
    requires AllWellFormed(cs)
  {
    if cs == [] then []
    else
      var before := cs[..|cs| - 1];
      OutAfter(m, before) + Response(MemAfter(m, before), cs[|cs| - 1])
  }

  lemma RunNext(m: Image, cs: seq<Command>, k: nat)
    requires AllWellFormed(cs) && k < |cs|
    ensures MemAfter(m, cs[..k + 1]) == Apply(MemAfter(m, cs[..k]), cs[k])
    ensures OutAfter(m, cs[..k + 1]) == OutAfter(m, cs[..k]) + Response(MemAfter(m, cs[..k]), cs[k])
  {
    assert cs[..k + 1][..k] == cs[..k];
  }

  /** What was answered for the first k commands is the front of what is answered for all. */
  lemma {:induction false} OutAfterPrefix(m: Image, cs: seq<Command>, k: nat)
    requires AllWellFormed(cs) && k <= |cs|
    ensures OutAfter(m, cs[..k]) <= OutAfter(m, cs)
  {
    if k < |cs| {
      OutAfterPrefix(m, cs[..|cs| - 1], k);
      assert cs[..|cs| - 1][..k] == cs[..k];
    } else {
      assert cs[..k] == cs;
    }
  }

  // ----- A command half done

  /** Memory when the first `n` payload bytes of a command have been dealt with. */
  function Partial(m: Image, c: Command, n: nat): (r: Image)
    requires WellFormed(c) && n <= |c.payload|
  {
    if IsWrite(c.op) then Store(m, c.arg0, c.payload[..n])
    else if n == |c.payload| then Apply(m, c)
    else m
  }

  lemma PartialEnds(m: Image, c: Command)
    requires WellFormed(c)
    ensures Partial(m, c, |c.payload|) == Apply(m, c)
    ensures Partial(m, c, 0) == m
  {
    assert c.payload[..|c.payload|] == c.payload;
    assert c.payload[..0] == [];
  }
}
