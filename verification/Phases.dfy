/** The states the command machine of src/main.c can be in between its steps, as values. */
module Phases {
  import opened Bytes
  import opened Memory
  import opened Protocol

  const BUFFER_SIZE := 32

  /** The fields of `struct Cmd` (src/main.c:24-40). */
  datatype CmdState = CmdState(
    cmd: byte, arg0: uint32, arg1: uint32,
    totalBytes: uint16, totalRead: uint16, totalConsumed: uint16,
    bytesAvail: uint16, bytesConsumed: uint16,
    buffer: seq<byte>)

  /** Conservation: of the payload of `c`, the bytes read are those consumed and those available,
      and the available ones stand at the front of the buffer. */
  predicate Framed(s: CmdState, c: Command) {
    && s.cmd == c.op != CMD_IDLE
    && s.arg0 == c.arg0 && s.arg1 == c.arg1 && s.totalBytes == |c.payload|
    && |s.buffer| == BUFFER_SIZE
    && s.bytesConsumed <= s.bytesAvail <= BUFFER_SIZE
    && s.totalRead == s.totalConsumed + s.bytesAvail
    && s.totalRead <= s.totalBytes
    && s.buffer[..s.bytesAvail] == c.payload[s.totalConsumed..s.totalRead]
    && (c.op == CMD_WRITE_WORDS || c.op == CMD_FILL_WORDS ==> s.totalConsumed % 2 == 0)
  }

  /** How many of `avail` buffered bytes one processing step deals with. */
  function Takes(op: byte, avail: nat): (n: nat)
    ensures n <= avail
  {
    if op == CMD_WRITE_WORDS then avail - avail % 2
    else if op == CMD_FILL_WORDS then (if avail > 1 then avail else 0)
    else if IsRead(op) then 0
    else avail
  }

  /** Where a run stands: the first `k` of the commands `cs` are done, starting from memory `m`. */
  datatype Run = Run(m: Image, cs: seq<Command>, k: nat) {
    ghost predicate Valid() { AllWellFormed(cs) && k <= |cs| }
    ghost function Start(): nat
      requires Valid()
    { |EncodeAll(cs[..k])| }
    ghost function Mem(): Image
      requires Valid()
    { MemAfter(m, cs[..k]) }
    ghost function Out(): seq<byte>
      requires Valid()
    { OutAfter(m, cs[..k]) }
    ghost predicate More() { k < |cs| }
    ghost function Now(): Command
      requires More()
    { cs[k] }
    function Next(): Run { Run(m, cs, k + 1) }
  }

  /** One command further. */
  lemma RunStep(r: Run)
    requires r.Valid() && r.More()
    ensures r.Next().Valid() && WellFormed(r.Now())
    ensures r.Next().Mem() == Apply(r.Mem(), r.Now())
    ensures r.Next().Out() == r.Out() + Response(r.Mem(), r.Now())
    ensures r.Next().Start() == r.Start() + |Encode(r.Now())|
    ensures EncodeAll(r.cs[..r.k]) + Encode(r.Now()) <= EncodeAll(r.cs)
  {
    hide MemAfter, OutAfter, EncodeAll, Encode, Apply, Response;
    RunNext(r.m, r.cs, r.k);
    EncodeAllNext(r.cs, r.k);
  }

  lemma EncodedLength(c: Command)
    requires c.op != CMD_IDLE
    ensures |Encode(c)| == HEADER_SIZE + |c.payload|
    ensures Encode(c) == [c.op] + Arguments(c) + c.payload
  {
  }

  /** Between commands. `taken` and `seen` are the bytes that came in and went out. */
  ghost predicate AtRest(s: CmdState, mem: Image, taken: nat, seen: seq<byte>, r: Run)
    requires r.Valid()
  {
    && s.cmd == CMD_IDLE && s.bytesConsumed == 0
    && taken == r.Start() && mem == r.Mem() && seen == r.Out()
  }

  /** A command has been started and its buffered bytes are still to be processed. */
  ghost predicate IsLoaded(s: CmdState, mem: Image, taken: nat, seen: seq<byte>, r: Run)
    requires r.Valid()
  {
    && r.More() && Framed(s, r.Now()) && s.bytesConsumed == 0
    && taken == r.Start() + HEADER_SIZE + s.totalRead
    && mem == Partial(r.Mem(), r.Now(), s.totalConsumed)
    && seen == r.Out()
  }

  /** A command has been started and everything that has arrived is processed: reads are answered,
      fills done or waiting for their value, and of a write exactly the consumed bytes stored. */
  ghost predicate IsSettled(s: CmdState, mem: Image, taken: nat, seen: seq<byte>, r: Run)
    requires r.Valid()
  {
    && r.More() && Framed(s, r.Now())
    && s.bytesConsumed == Takes(s.cmd, s.bytesAvail)
    && taken == r.Start() + HEADER_SIZE + s.totalRead
    && mem == Partial(r.Mem(), r.Now(), s.totalConsumed + s.bytesConsumed)
    && seen == r.Out() + Reply(r.Mem(), r.Now())
  }

  /** The shift at src/main.c:46-52. */
  function Shifted(s: CmdState, buffer: seq<byte>): CmdState
    requires s.bytesConsumed <= s.bytesAvail && s.totalConsumed + s.bytesConsumed < 0x1_0000
  {
    s.(bytesAvail := s.bytesAvail - s.bytesConsumed,
       totalConsumed := s.totalConsumed + s.bytesConsumed,
       bytesConsumed := 0, buffer := buffer)
  }

  /** Word commands take whole words. */
  lemma TakesWords(s: CmdState, c: Command)
    requires Framed(s, c) && WellFormed(c)
    ensures c.op == CMD_WRITE_WORDS || c.op == CMD_FILL_WORDS ==> Takes(s.cmd, s.bytesAvail) % 2 == 0
  {
  }

  /** The front of the buffer after a move down, as a slice of what the buffer held. */
  lemma MovedSlice(was: seq<byte>, now: seq<byte>, payload: seq<byte>, base: nat, k: nat, n: nat)
    requires k <= n <= |was| && base + n <= |payload|
    requires was[..n] == payload[base..base + n] && IsMove(was, now, 0, k, n - k)
    ensures |now| == |was| && now[..n - k] == payload[base + k..base + n]
  {
    assert now[..n - k] == was[..n][k..];
  }

  /** The shift keeps the payload slice in place: no byte is lost, repeated or moved. */
  lemma ShiftKeepsFramed(s: CmdState, c: Command, buffer: seq<byte>)
    requires Framed(s, c) && WellFormed(c)
    requires s.bytesConsumed == Takes(s.cmd, s.bytesAvail)
    requires buffer == CopyAscending(s.buffer, 0, s.bytesConsumed, s.bytesAvail - s.bytesConsumed)
    ensures Framed(Shifted(s, buffer), c)
  {
    hide CopyAscending, WellFormed, Takes, IsMove;
    TakesWords(s, c);
    AscendingIsMove(s.buffer, 0, s.bytesConsumed, s.bytesAvail - s.bytesConsumed);
    MovedSlice(s.buffer, buffer, c.payload, s.totalConsumed, s.bytesConsumed, s.bytesAvail);
    var t := Shifted(s, buffer);
    assert t.buffer[..t.bytesAvail] == c.payload[t.totalConsumed..t.totalRead];
  }

  /** A settled command that is not complete is waiting for bytes that are still to come, and has
      room for them: it cannot be stuck. */
  lemma SettledNotStuck(s: CmdState, c: Command)
    requires Framed(s, c) && WellFormed(c)
    requires s.bytesConsumed == Takes(s.cmd, s.bytesAvail)
    requires s.totalConsumed + s.bytesConsumed < s.totalBytes
    ensures s.totalRead < s.totalBytes && s.bytesAvail - s.bytesConsumed <= 1
  {
  }

  /** A command whose payload is used up: it has had its whole effect and only its tail is missing. */
  ghost predicate IsComplete(s: CmdState, mem: Image, taken: nat, seen: seq<byte>, r: Run)
    requires r.Valid()
  {
    && s.cmd != CMD_IDLE && s.bytesConsumed == 0 && r.Next().Valid()
    && taken == r.Next().Start() && mem == r.Next().Mem() && seen + [s.cmd] == r.Next().Out()
  }

  lemma SettledComplete(s: CmdState, mem: Image, taken: nat, seen: seq<byte>, r: Run)
    requires r.Valid() && IsSettled(s, mem, taken, seen, r)
    requires s.totalConsumed + s.bytesConsumed == s.totalBytes
    ensures IsComplete(s.(bytesConsumed := 0), mem, taken, seen, r)
  {
    hide MemAfter, OutAfter, EncodeAll, Encode, Partial, Apply, Reply, AllWellFormed;
    var c := r.Now();
    RunStep(r);
    EncodedLength(c);
    PartialEnds(r.Mem(), c);
    assert r.Out() + Reply(r.Mem(), c) + [c.op] == r.Out() + (Reply(r.Mem(), c) + [c.op]);
  }

  /** After the shift a settled command is either complete, or loaded with room for the bytes that
      are still to come. */
  lemma ShiftedIs(s: CmdState, mem: Image, taken: nat, seen: seq<byte>, r: Run, buffer: seq<byte>)
    requires r.Valid() && IsSettled(s, mem, taken, seen, r)
    requires buffer == CopyAscending(s.buffer, 0, s.bytesConsumed, s.bytesAvail - s.bytesConsumed)
    ensures s.totalConsumed + s.bytesConsumed < 0x1_0000
    ensures var t := Shifted(s, buffer);
            if t.totalConsumed == t.totalBytes then IsComplete(t, mem, taken, seen, r)
            else (IsLoaded(t, mem, taken, seen, r)
                  && t.totalRead < t.totalBytes && t.bytesAvail < BUFFER_SIZE && !IsRead(t.cmd))
  {
    if s.totalConsumed + s.bytesConsumed == s.totalBytes {
      SettledComplete(s, mem, taken, seen, r);
      hide MemAfter, OutAfter, EncodeAll, AllWellFormed, CopyAscending;
    } else {
      ShiftedLoaded(s, mem, taken, seen, r, buffer);
      hide IsLoaded, IsComplete, CopyAscending;
    }
  }

  lemma ShiftedLoaded(s: CmdState, mem: Image, taken: nat, seen: seq<byte>, r: Run, buffer: seq<byte>)
    requires r.Valid() && IsSettled(s, mem, taken, seen, r)
    requires buffer == CopyAscending(s.buffer, 0, s.bytesConsumed, s.bytesAvail - s.bytesConsumed)
    requires s.totalConsumed + s.bytesConsumed != s.totalBytes
    ensures s.totalConsumed + s.bytesConsumed < 0x1_0000
    ensures var t := Shifted(s, buffer);
            IsLoaded(t, mem, taken, seen, r)
            && t.totalRead < t.totalBytes && t.bytesAvail < BUFFER_SIZE && !IsRead(t.cmd)
  {
    hide Partial, EncodeAll, CopyAscending, Run.Start, Run.Mem, Run.Out, Load;
    RunStep(r);
    ShiftKeepsFramed(s, r.Now(), buffer);
    SettledNotStuck(s, r.Now());
  }

  /** Memory after one processing step (src/main.c:108-174) on what is buffered. */
  function Processed(s: CmdState, m: Image): (r: Image)
    requires s.bytesAvail <= |s.buffer|
  {
    var n := Takes(s.cmd, s.bytesAvail);
    if IsWrite(s.cmd) then Store(m, Advance(s.arg0, s.totalConsumed), s.buffer[..n])
    else if s.cmd == CMD_FILL_BYTES && n > 0 then Store(m, s.arg0, Repeat(s.buffer[..1], Size16(s.arg1)))
    else if s.cmd == CMD_FILL_WORDS && n > 1 then Store(m, s.arg0, Repeat(s.buffer[..2], Size16(s.arg1)))
    else m
  }

  /** Which commands touch memory, use up bytes or answer, by opcode. */
  lemma ProcessedByKind(s: CmdState, m: Image, c: Command)
    requires s.bytesAvail <= |s.buffer| && s.cmd == c.op
    ensures !IsWrite(s.cmd) && !IsFill(s.cmd) ==> Processed(s, m) == m
    ensures IsRead(s.cmd) ==> Takes(s.cmd, s.bytesAvail) == 0
    ensures !IsRead(s.cmd) ==> Reply(m, c) == []
    ensures !IsRead(s.cmd) && !IsWrite(s.cmd) && !IsFill(s.cmd) ==> Takes(s.cmd, s.bytesAvail) == s.bytesAvail
  {
  }

  /** A read at hand is told by its header alone. */
  lemma ReadAtHand(s: CmdState, mem: Image, taken: nat, seen: seq<byte>, r: Run)
    requires r.Valid() && IsLoaded(s, mem, taken, seen, r)
    ensures IsRead(s.cmd) ==> r.Now() == Message(s.cmd, s.arg0, s.arg1, [])
    ensures s.cmd == CMD_READ_WORDS ==> s.arg1 <= 0x4000
  {
  }

  lemma TakesUnits(s: CmdState, c: Command)
    requires Framed(s, c) && IsWrite(c.op)
    ensures Takes(s.cmd, s.bytesAvail) % Unit(c.op) == 0 && s.totalConsumed % Unit(c.op) == 0
  {
  }

  /** One processing step does to memory exactly what the bytes it takes ask for. */
  lemma ProcessedIs(s: CmdState, m: Image, c: Command)
    requires WellFormed(c) && Framed(s, c)
    ensures Processed(s, Partial(m, c, s.totalConsumed))
         == Partial(m, c, s.totalConsumed + Takes(s.cmd, s.bytesAvail))
  {
    if IsWrite(c.op) {
      hide Store, WellFormed, Takes;
      TakesUnits(s, c);
      var n := Takes(s.cmd, s.bytesAvail);
      assert s.buffer[..n] == s.buffer[..s.bytesAvail][..n];
      assert s.buffer[..n] == c.payload[s.totalConsumed..s.totalConsumed + n];
      PartialWrite(m, c, s.totalConsumed, s.buffer[..n]);
    } else if IsFill(c.op) {
      FillSettles(s, m, c);
    }
  }

  /** A read answers from the memory it found. */
  lemma ReplyIsOfStart(m: Image, c: Command, n: nat)
    requires WellFormed(c) && n <= |c.payload|
    ensures Reply(Partial(m, c, n), c) == Reply(m, c)
  {
    if IsRead(c.op) {
      PartialEnds(m, c);
    }
  }

  lemma ConsumedKeepsFramed(s: CmdState, c: Command, n: nat)
    requires Framed(s, c) && n <= s.bytesAvail
    ensures Framed(s.(bytesConsumed := n), c)
    ensures s.bytesAvail <= |s.buffer| && s.cmd == c.op
  {
  }

  /** One processing step takes a loaded command to a settled one: memory follows the bytes taken, and
      a read is answered once. */
  lemma LoadedSettles(s: CmdState, mem: Image, taken: nat, seen: seq<byte>, r: Run)
    requires r.Valid() && IsLoaded(s, mem, taken, seen, r)
    ensures s.bytesAvail <= |s.buffer|
    ensures IsSettled(s.(bytesConsumed := Takes(s.cmd, s.bytesAvail)), Processed(s, mem), taken,
                      seen + Reply(mem, r.Now()), r)
  {
    var c := r.Now();
    hide Run.Start, Run.Mem, Run.Out, EncodeAll, Processed, Partial, Reply, Takes, WellFormed;
    ProcessedIs(s, r.Mem(), c);
    ReplyIsOfStart(r.Mem(), c, s.totalConsumed);
    ConsumedKeepsFramed(s, c, Takes(s.cmd, s.bytesAvail));
    hide Framed, AllWellFormed;
  }

  lemma FillSettles(s: CmdState, m: Image, c: Command)
    requires WellFormed(c) && IsFill(c.op) && Framed(s, c)
    ensures var n := Takes(s.cmd, s.bytesAvail);
            Processed(s, Partial(m, c, s.totalConsumed)) == Partial(m, c, s.totalConsumed + n)
  {
    var n := Takes(s.cmd, s.bytesAvail);
    if n > 0 {
      assert s.totalConsumed == 0 && n == |c.payload| == s.bytesAvail;
      assert s.buffer[..n] == c.payload;
    }
  }

  /** Storing the next buffered bytes advances a half-done write by just those bytes. */
  lemma PartialWrite(m: Image, c: Command, done: nat, data: seq<byte>)
    requires WellFormed(c) && IsWrite(c.op)
    requires done + |data| <= |c.payload| && data == c.payload[done..done + |data|]
    requires done % Unit(c.op) == 0 && |data| % Unit(c.op) == 0
    ensures Store(Partial(m, c, done), Advance(c.arg0, done), data) == Partial(m, c, done + |data|)
  {
    hide Store;
    assert data != [] ==> |data| >= Unit(c.op);
    StoreChunk(m, c.arg0, c.payload[..done], data);
    hide WellFormed, Unit;
    assert c.payload[..done] + data == c.payload[..done + |data|];
  }

  /** The bytes of the next command's header in the whole stream. */
  lemma HeaderInStream(r: Run)
    requires r.Valid() && r.More()
    ensures r.Start() < |EncodeAll(r.cs)| && EncodeAll(r.cs)[r.Start()] == r.Now().op
    ensures r.Now().op == CMD_IDLE ==> r.Next().Valid() && r.Next().Start() == r.Start() + 1
    ensures r.Now().op != CMD_IDLE ==>
      && r.Start() + HEADER_SIZE + |r.Now().payload| <= |EncodeAll(r.cs)|
      && EncodeAll(r.cs)[r.Start() + 1..r.Start() + HEADER_SIZE] == Arguments(r.Now())
  {
    RunStep(r);
    var before, e := EncodeAll(r.cs[..r.k]), Encode(r.Now());
    SliceOfPart(EncodeAll(r.cs), before, e, 0, 1);
    hide EncodeAll, MemAfter, OutAfter, AllWellFormed;
    assert EncodeAll(r.cs)[r.Start()] == e[0];
    if r.Now().op != CMD_IDLE {
      EncodedLength(r.Now());
      HeaderSlice(r.Now());
      SliceOfPart(EncodeAll(r.cs), before, e, 1, HEADER_SIZE);
    }
  }

  /** At rest the next byte of the stream is the opcode of the next command; an IDLE one is all there
      is to it. */
  lemma FirstByte(s: CmdState, mem: Image, taken: nat, seen: seq<byte>, r: Run)
    requires r.Valid() && AtRest(s, mem, taken, seen, r)
    ensures s.cmd == CMD_IDLE && taken == r.Start() && mem == r.Mem() && seen == r.Out()
    ensures r.More() <==> taken < |EncodeAll(r.cs)|
    ensures r.More() ==> EncodeAll(r.cs)[taken] == r.Now().op
    ensures r.More() && r.Now().op == CMD_IDLE ==>
              r.Next().Valid() && AtRest(s, mem, taken + 1, seen, r.Next())
  {
    hide EncodeAll, MemAfter, OutAfter, AllWellFormed;
    StreamUsedUp(r);
    if r.More() {
      HeaderInStream(r);
      RunStep(r);
    }
  }

  lemma NextStart(r: Run)
    requires r.Valid() && r.More() && r.Now().op != CMD_IDLE
    ensures r.Next().Valid() && r.Next().Start() == r.Start() + HEADER_SIZE + |r.Now().payload|
  {
    hide EncodeAll, MemAfter, OutAfter, AllWellFormed;
    RunStep(r);
    EncodedLength(r.Now());
  }

  lemma HeaderSlice(c: Command)
    requires c.op != CMD_IDLE
    ensures Encode(c)[1..HEADER_SIZE] == Arguments(c)
  {
    SliceOfPart(Encode(c), [c.op], Arguments(c), 0, HEADER_SIZE - 1);
  }

  /** Payload bytes are found in the stream after the header. */
  lemma PayloadInStream(r: Run, i: nat, j: nat)
    requires r.Valid() && r.More() && r.Now().op != CMD_IDLE
    requires i <= j <= |r.Now().payload|
    ensures r.Start() + HEADER_SIZE + j <= |EncodeAll(r.cs)|
    ensures EncodeAll(r.cs)[r.Start() + HEADER_SIZE + i..r.Start() + HEADER_SIZE + j] == r.Now().payload[i..j]
  {
    hide EncodeAll, Encode, Arguments, MemAfter, OutAfter, AllWellFormed;
    RunStep(r);
    EncodedLength(r.Now());
    var before, e := EncodeAll(r.cs[..r.k]), Encode(r.Now());
    SliceOfPart(e, [r.Now().op] + Arguments(r.Now()), r.Now().payload, i, j);
    SliceOfPart(EncodeAll(r.cs), before, e, HEADER_SIZE + i, HEADER_SIZE + j);
  }

  /** A command whose header has just been read is loaded, with nothing of its payload read. */
  lemma HeaderIsLoaded(s: CmdState, mem: Image, taken: nat, seen: seq<byte>, r: Run)
    requires r.Valid() && r.More() && r.Now().op != CMD_IDLE
    requires s.cmd == r.Now().op && s.arg0 == r.Now().arg0 && s.arg1 == r.Now().arg1
    requires s.totalBytes == |r.Now().payload| && |s.buffer| == BUFFER_SIZE
    requires s.totalRead == s.totalConsumed == s.bytesAvail == s.bytesConsumed == 0
    requires mem == r.Mem() && seen == r.Out() && taken == r.Start() + HEADER_SIZE
    ensures IsLoaded(s, mem, taken, seen, r)
  {
    PartialEnds(mem, r.Now());
  }

  /** `n` more payload bytes in the buffer (src/main.c:100-102). */
  function Filled(s: CmdState, data: seq<byte>): (t: CmdState)
    requires s.bytesAvail + |data| <= |s.buffer| && s.totalRead + |data| <= s.totalBytes
    requires s.bytesAvail + |data| < 0x1_0000
  {
    s.(totalRead := s.totalRead + |data|, bytesAvail := s.bytesAvail + |data|,
       buffer := Overlay(s.buffer, s.bytesAvail, data))
  }

  lemma LoadedBounds(s: CmdState, mem: Image, taken: nat, seen: seq<byte>, r: Run)
    requires r.Valid() && IsLoaded(s, mem, taken, seen, r)
    ensures |s.buffer| == BUFFER_SIZE && s.bytesAvail <= BUFFER_SIZE && s.totalRead <= s.totalBytes
    ensures taken + (s.totalBytes - s.totalRead) <= |EncodeAll(r.cs)|
  {
    PayloadInStream(r, 0, |r.Now().payload|);
  }

  lemma FillKeepsFramed(s: CmdState, c: Command, n: nat)
    requires Framed(s, c) && s.totalRead + n <= s.totalBytes && s.bytesAvail + n <= BUFFER_SIZE
    ensures Framed(Filled(s, c.payload[s.totalRead..s.totalRead + n]), c)
  {
    var data := c.payload[s.totalRead..s.totalRead + n];
    OverlayRead(s.buffer, s.bytesAvail, data);
    assert c.payload[s.totalConsumed..s.totalRead] + data == c.payload[s.totalConsumed..s.totalRead + n];
  }

  /** The next bytes of the stream belong to the payload of the command at hand. */
  lemma NextIsPayload(s: CmdState, mem: Image, taken: nat, seen: seq<byte>, r: Run, n: nat)
    requires r.Valid() && IsLoaded(s, mem, taken, seen, r) && s.totalRead + n <= s.totalBytes
    ensures r.More() && s.totalRead + n <= |r.Now().payload| && taken + n <= |EncodeAll(r.cs)|
    ensures EncodeAll(r.cs)[taken..taken + n] == r.Now().payload[s.totalRead..s.totalRead + n]
  {
    hide Partial, EncodeAll, Run.Start, Run.Mem, Run.Out, Reply;
    PayloadInStream(r, s.totalRead, s.totalRead + n);
    assert taken == r.Start() + HEADER_SIZE + s.totalRead;
  }

  lemma FillKeepsLoaded(s: CmdState, mem: Image, taken: nat, seen: seq<byte>, r: Run, data: seq<byte>)
    requires r.Valid() && IsLoaded(s, mem, taken, seen, r)
    requires s.totalRead + |data| <= s.totalBytes && s.bytesAvail + |data| <= BUFFER_SIZE
    requires data == r.Now().payload[s.totalRead..s.totalRead + |data|]
    ensures IsLoaded(Filled(s, data), mem, taken + |data|, seen, r)
  {
    hide Partial, MemAfter, OutAfter, EncodeAll, AllWellFormed;
    FillKeepsFramed(s, r.Now(), |data|);
  }

  /** Commands are written whole: once a byte of the one at hand was taken, all of it is written. */
  lemma WrittenWhole(r: Run, j: nat, taken: nat)
    requires r.Valid() && r.More() && j <= |r.cs|
    requires r.Start() < taken <= |EncodeAll(r.cs[..j])|
    ensures r.k < j && r.Next().Valid() && r.Next().Start() <= |EncodeAll(r.cs[..j])|
  {
    if j <= r.k {
      assert r.cs[..r.k][..j] == r.cs[..j];
      EncodeAllPrefix(r.cs[..r.k], j);
    } else {
      assert r.cs[..j][..r.k + 1] == r.cs[..r.k + 1];
      EncodeAllPrefix(r.cs[..j], r.k + 1);
    }
  }

  /** When every command is done the stream is used up; before that it is not. */
  lemma StreamUsedUp(r: Run)
    requires r.Valid()
    ensures r.Start() <= |EncodeAll(r.cs)|
    ensures r.Start() == |EncodeAll(r.cs)| <==> !r.More()
  {
    EncodeAllPrefix(r.cs, r.k);
    if r.More() {
      EncodeAllNext(r.cs, r.k);
    } else {
      assert r.cs[..r.k] == r.cs;
    }
  }

  /** While commands are left, what the one at hand answers is still ahead. */
  lemma OutAhead(r: Run)
    requires r.Valid() && r.More() && r.Now().op != CMD_IDLE
    ensures r.Out() + Reply(r.Mem(), r.Now()) < OutAfter(r.m, r.cs)
  {
    RunNext(r.m, r.cs, r.k);
    OutAfterPrefix(r.m, r.cs, r.k + 1);
    var out := r.Out() + Reply(r.Mem(), r.Now());
    assert out + [r.Now().op] == r.Out() + (Reply(r.Mem(), r.Now()) + [r.Now().op]);
    assert out < out + [r.Now().op];
  }

  /** Between polls the machine is at rest or has a settled command. Whatever has been answered by
      then is the front of what the atomic machine answers, and more is to come while a real command
      is left to do. */
  lemma RunOnCourse(s: CmdState, mem: Image, taken: nat, seen: seq<byte>, r: Run)
    requires r.Valid() && (AtRest(s, mem, taken, seen, r) || IsSettled(s, mem, taken, seen, r))
    ensures seen <= OutAfter(r.m, r.cs)
    ensures r.More() && r.Now().op != CMD_IDLE ==> seen < OutAfter(r.m, r.cs)
  {
    OutAfterPrefix(r.m, r.cs, r.k);
    hide OutAfter, MemAfter;
    if r.More() && r.Now().op != CMD_IDLE {
      OutAhead(r);
      assert r.Out() <= r.Out() + Reply(r.Mem(), r.Now());
    }
  }

  /** Framing stays in step: between polls the target has taken all bytes of the commands done and
      none of a command after the one at hand, and has answered the commands done in full and the
      one at hand at most in full. */
  lemma FramingInStep(s: CmdState, mem: Image, taken: nat, seen: seq<byte>, r: Run)
    requires r.Valid() && (AtRest(s, mem, taken, seen, r) || IsSettled(s, mem, taken, seen, r))
    ensures r.Start() <= taken && r.Out() <= seen
    ensures r.More() ==> r.Next().Valid() && taken <= r.Next().Start() && seen <= r.Next().Out()
    ensures s.cmd == CMD_IDLE ==> taken == r.Start() && seen == r.Out()
  {
    hide Partial, Run.Mem, Run.Start, Run.Out, Reply;
    if r.More() {
      RunStep(r);
      if s.cmd != CMD_IDLE {
        assert s.totalRead <= |r.Now().payload| && s.cmd == r.Now().op;
        EncodedLength(r.Now());
        var answer := Reply(r.Mem(), r.Now());
        assert r.Out() + answer + [s.cmd] == r.Out() + (answer + [s.cmd]);
      }
    }
  }

  /** When no command is left, memory and answers are those of the atomic machine, and every byte
      of the stream was taken. */
  lemma RunIsAtomic(s: CmdState, mem: Image, taken: nat, seen: seq<byte>, r: Run)
    requires r.Valid() && (AtRest(s, mem, taken, seen, r) || IsSettled(s, mem, taken, seen, r))
    requires !r.More()
    ensures mem == MemAfter(r.m, r.cs) && seen == OutAfter(r.m, r.cs) && taken == |EncodeAll(r.cs)|
  {
    assert r.cs[..r.k] == r.cs;
  }

  lemma OutBehindLast(r: Run)
    requires r.Valid() && r.More() && r.Now().op == CMD_IDLE && r.cs[|r.cs| - 1].op != CMD_IDLE
    ensures |r.Out()| < |OutAfter(r.m, r.cs)|
  {
    var before := r.cs[..|r.cs| - 1];
    assert before[..r.k] == r.cs[..r.k];
    OutAfterPrefix(r.m, before, r.k);
    assert Response(MemAfter(r.m, before), r.cs[|r.cs| - 1]) != [];
  }

  /** Once everything the queued commands answer has been seen, and the last of them is one that
      answers, all of them are done. */
  lemma AllAnswered(s: CmdState, mem: Image, taken: nat, seen: seq<byte>, r: Run)
    requires r.Valid() && (AtRest(s, mem, taken, seen, r) || IsSettled(s, mem, taken, seen, r))
    requires r.cs != [] && r.cs[|r.cs| - 1].op != CMD_IDLE
    requires |seen| >= |OutAfter(r.m, r.cs)|
    ensures !r.More()
  {
    RunOnCourse(s, mem, taken, seen, r);
    if r.More() && r.Now().op == CMD_IDLE {
      OutBehindLast(r);
    }
  }

  /** Where a run stands does not depend on the commands behind the one at hand. */
  lemma SamePlace(s: CmdState, mem: Image, taken: nat, seen: seq<byte>, q: Run, r: Run)
    requires q.Valid() && r.Valid() && q.m == r.m && q.k == r.k && q.cs <= r.cs
    ensures q.Start() == r.Start() && q.Mem() == r.Mem() && q.Out() == r.Out()
    ensures AtRest(s, mem, taken, seen, q) <==> AtRest(s, mem, taken, seen, r)
    ensures q.More() ==> (IsSettled(s, mem, taken, seen, q) <==> IsSettled(s, mem, taken, seen, r))
  {
    assert q.cs[..q.k] == r.cs[..r.k];
    hide EncodeAll, MemAfter, OutAfter, Framed, Partial, Reply;
  }

  /** A command the host adds behind the others changes nothing for those before it. */
  lemma PlanKeepsRun(s: CmdState, mem: Image, taken: nat, seen: seq<byte>, r: Run, c: Command)
    requires r.Valid() && WellFormed(c)
    ensures Run(r.m, r.cs + [c], r.k).Valid()
    ensures AtRest(s, mem, taken, seen, r) ==> AtRest(s, mem, taken, seen, Run(r.m, r.cs + [c], r.k))
    ensures IsSettled(s, mem, taken, seen, r) ==> IsSettled(s, mem, taken, seen, Run(r.m, r.cs + [c], r.k))
  {
    AllWellFormedSnoc(r.cs, c);
    hide EncodeAll, MemAfter, OutAfter, Framed, Partial, Reply, AllWellFormed;
    SamePlace(s, mem, taken, seen, r, Run(r.m, r.cs + [c], r.k));
  }

  /** The target is never ahead of the host: where a run stands is told by the `j` commands whose
      bytes are written. */
  lemma NeverAhead(s: CmdState, mem: Image, taken: nat, seen: seq<byte>, r: Run, j: nat)
    requires r.Valid() && (AtRest(s, mem, taken, seen, r) || IsSettled(s, mem, taken, seen, r))
    requires j <= |r.cs| && taken <= |EncodeAll(r.cs[..j])|
    ensures var q := Run(r.m, r.cs[..j], r.k);
            q.Valid() && (AtRest(s, mem, taken, seen, q) || IsSettled(s, mem, taken, seen, q))
  {
    hide MemAfter, OutAfter, Framed, Partial, Reply, Run.Start, EncodeAll;
    if AtRest(s, mem, taken, seen, r) {
      if j < r.k {
        StartAhead(r, j);
      }
    } else {
      assert taken > r.Start();
      WrittenWhole(r, j, taken);
    }
    SamePlace(s, mem, taken, seen, Run(r.m, r.cs[..j], r.k), r);
  }

  lemma StartAhead(r: Run, j: nat)
    requires r.Valid() && j < r.k
    ensures |EncodeAll(r.cs[..j])| < r.Start()
  {
    EncodeAllNext(r.cs[..r.k], j);
    assert r.cs[..r.k][..j] == r.cs[..j];
  }

  /** Nothing is left to do exactly when all commands are written, none is at hand, and every byte was
      taken. */
  lemma DoneIff(s: CmdState, mem: Image, taken: nat, seen: seq<byte>, r: Run, j: nat)
    requires r.Valid() && (AtRest(s, mem, taken, seen, r) || IsSettled(s, mem, taken, seen, r))
    requires j <= |r.cs| && taken <= |EncodeAll(r.cs[..j])|
    ensures !r.More() <==> j == |r.cs| && s.cmd == CMD_IDLE && taken == |EncodeAll(r.cs[..j])|
  {
    hide EncodeAll, MemAfter, OutAfter, Partial, Reply, AllWellFormed;
    StreamUsedUp(r);
    NeverAhead(s, mem, taken, seen, r, j);
    assert j == |r.cs| ==> r.cs[..j] == r.cs;
  }
}
