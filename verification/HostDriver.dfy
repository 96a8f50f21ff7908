/** The host driver, bin/comms.py, against the running target. */
module HostDriver {
  import opened Bytes
  import opened Memory
  import opened PeerContract
  import opened CommsLink
  import opened Protocol
  import opened Phases
  import opened CommandTarget

  datatype Error = StructError | ValueError | Timeout | BadTail(expected: byte, got: byte)
  datatype Result<+T> = Ok(value: T) | Err(error: Error)

  /** Whether `struct.pack("<BIIH", ...)` accepts the values (bin/comms.py:28). */
  predicate Packs(cmd: int, arg0: int, arg1: int, data: seq<byte>) {
    && 0 <= cmd < 0x100 && 0 <= arg0 < 0x1_0000_0000 && 0 <= arg1 < 0x1_0000_0000
    && |data| < 0x1_0000
  }

  /** The header can be packed exactly when there is a command with these very fields on the wire. */
  lemma PacksIff(cmd: int, arg0: int, arg1: int, data: seq<byte>)
    ensures Packs(cmd, arg0, arg1, data) <==>
              exists c: Command :: c.op == cmd && c.arg0 == arg0 && c.arg1 == arg1 && c.payload == data
    ensures Packs(cmd, arg0, arg1, data) <==>
              0 <= cmd < 256 && 0 <= arg0 < 4294967296 && 0 <= arg1 < 4294967296 && |data| < 65536
  {
    if Packs(cmd, arg0, arg1, data) {
      var c: Command := Message(cmd, arg0, arg1, data);
      assert c.op == cmd && c.arg0 == arg0 && c.arg1 == arg1 && c.payload == data;
    }
  }

  predicate AreWords(data: seq<int>) {
    forall i :: 0 <= i < |data| ==> 0 <= data[i] < 0x1_0000
  }

  /** The words of a byte list, as `read_words` pairs them: an odd last byte is dropped. */
  function UnpackWords(data: seq<byte>): (ws: seq<uint16>)
    ensures |ws| == |data| / 2
    ensures forall i :: 0 <= i < |ws| ==> ws[i] == data[2 * i] as int + 256 * data[2 * i + 1] as int
  {
    seq(|data| / 2, i requires 0 <= i < |data| / 2 => FromLe16(data[2 * i..2 * i + 2]))
  }

  /** Packing words and pairing the bytes up again gives the words back. */
  lemma UnpackPack(ws: seq<uint16>)
    ensures UnpackWords(PackWords(ws)) == ws
  {
    forall i | 0 <= i < |ws|
      ensures FromLe16(PackWords(ws)[2 * i..2 * i + 2]) == ws[i]
    {
      PackWordsAt(ws, i);
      Le16RoundTrip(ws[i]);
    }
  }

  /** Words written by one command are the words the next one reads, wherever in a segment they go. */
  lemma WordRoundTrip(m: Image, addr: uint32, ws: seq<uint16>)
    requires |ws| <= 0x4000 && addr % SEGMENT + 2 * |ws| <= SEGMENT + 1
    ensures var w := Message(CMD_WRITE_WORDS, addr, 0, PackWords(ws));
            var r := Message(CMD_READ_WORDS, addr, |ws|, []);
            WellFormed(w) && WellFormed(r) && UnpackWords(Reply(Apply(m, w), r)) == ws
  {
    LoadStore(m, addr, PackWords(ws));
    UnpackPack(ws);
  }

  class Pico {
    const target: Target

    /** How many bytes of the target's output the host has read. */
    var got: nat

    constructor (target: Target)
      requires target.InRun() && !target.run.More() && target.comms.bus.peer.seen == []
      ensures this.target == target && Ready()
    {
      this.target := target;
      got := 0;
      new;
      RunIsAtomic(target.State(), target.mem[..], target.comms.taken, target.comms.bus.peer.seen, target.run);
    }

    /** No command is under way. */
    ghost predicate Idle()
      reads this, target, target.comms, target.comms.bus, target.buffer, target.mem
    {
      target.InRun() && !target.run.More() && got <= |target.comms.bus.peer.seen|
    }

    /** No command is under way and every answer was read. */
    ghost predicate Ready()
      reads this, target, target.comms, target.comms.bus, target.buffer, target.mem
    {
      Idle() && got == |target.comms.bus.peer.seen|
    }

    ghost function Memory(): Image
      requires target.mem.Length == SPACE
      reads target.mem
    {
      target.mem[..]
    }

    /** Lets the target run until `n` bytes of output are unread (`read_exact`, bin/comms.py:31). The
        wait always ends: with the bytes, or when everything is done and they will never come, which
        the driver meets as a timeout. */
    method Await(n: nat) returns (enough: bool)
      requires target.InRun()
      modifies target, target.buffer, target.mem, target.comms, target.comms.bus
      ensures target.InRun() && target.run.m == old(target.run.m) && target.run.cs == old(target.run.cs)
      ensures enough == (got + n <= |target.comms.bus.peer.seen|)
      ensures !enough ==> !target.run.More()
    {
      hide Target.InRun, EncodeAll, MemAfter, OutAfter, Peer.Work;
      var t := target;
      var done := t.IsDone();
      while |t.comms.bus.peer.seen| < got + n && !done
        invariant t.InRun() && t.run.m == old(t.run.m) && t.run.cs == old(t.run.cs)
        invariant done == !t.run.More()
        decreases |EncodeAll(t.run.cs)| + |t.run.cs| - t.comms.taken - t.run.k,
                  t.comms.bus.peer.Work(), t.comms.bus.peer.delay
      {
        InRunBounds(t);
        t.Poll();
        InRunBounds(t);
        done := t.IsDone();
      }
      enough := |t.comms.bus.peer.seen| >= got + n;
    }

    /** Send a command and wait for `n` bytes of answer (bin/comms.py:29-31). They are the first of what
        the atomic machine answers; once there are no more the command is done. */
    method Exchange(c: Command, n: nat) returns (enough: bool)
      requires Ready() && WellFormed(c) && c.op != CMD_IDLE
      modifies target, target.buffer, target.mem, target.comms, target.comms.bus
      ensures target.InRun() && enough == (n <= |Response(old(Memory()), c)|)
      ensures target.run.cs == old(target.run.cs) + [c]
      ensures enough ==> got + n <= |target.comms.bus.peer.seen|
                         && target.comms.bus.peer.seen[got..got + n] == Response(old(Memory()), c)[..n]
      ensures n >= |Response(old(Memory()), c)| ==>
                && Idle() && Memory() == Apply(old(Memory()), c)
                && |target.comms.bus.peer.seen| == got + |Response(old(Memory()), c)|
    {
      hide Target.InRun, MemAfter, OutAfter, Apply, Reply, Response, WellFormed;
      ghost var m0, cs := target.run.m, target.run.cs;
      AllDone(target);
      NextResponse(m0, cs, c);
      ghost var answer := Response(Memory(), c);
      target.Plan(c);
      enough := Await(n);
      InRunBounds(target);
      ghost var seen := target.comms.bus.peer.seen;
      assert |OutAfter(m0, cs)| == got;
      if enough {
        FrontOfAnswer(OutAfter(m0, cs), answer, seen, n);
        if n == |answer| {
          AnswerComplete(target);
        }
      } else {
        AllDone(target);
      }
    }

    /** The host takes the next `n` bytes of output. */
    method Take(n: nat) returns (resp: seq<byte>)
      requires got + n <= |target.comms.bus.peer.seen|
      modifies this
      ensures got == old(got) + n && resp == target.comms.bus.peer.seen[old(got)..got]
    {
      resp := target.comms.bus.peer.seen[got..got + n];
      got := got + n;
    }

    /** bin/comms.py:25-36. The exchange is atomic: the command takes effect once, the answer is the
        atomic machine's, and the tail check never fails. If the answer is shorter than the caller
        expects, the driver times out instead; if it is longer, one of its bytes is taken for the tail
        and the target is left in the middle of the command. */
    method DoCmd(cmd: int, arg0: int, arg1: int, data: seq<byte>, responseSize: nat)
      returns (r: Result<seq<byte>>)
      requires Ready()
      requires Packs(cmd, arg0, arg1, data) ==> cmd != CMD_IDLE as int && WellFormed(Message(cmd, arg0, arg1, data))
      modifies this, target, target.buffer, target.mem, target.comms, target.comms.bus
      ensures target.InRun()
      ensures !Packs(cmd, arg0, arg1, data) ==>
                r == Err(StructError) && Ready() && Memory() == old(Memory()) && target.run.cs == old(target.run.cs)
      ensures Packs(cmd, arg0, arg1, data) ==>
                target.run.cs == old(target.run.cs) + [Message(cmd, arg0, arg1, data)]
      ensures Packs(cmd, arg0, arg1, data) ==>
                var c := Message(cmd, arg0, arg1, data);
                var answer := Reply(old(Memory()), c);
                if responseSize == |answer| then r == Ok(answer) && Ready() && Memory() == Apply(old(Memory()), c)
                else if responseSize > |answer| then
                  r == Err(Timeout) && Idle() && Memory() == Apply(old(Memory()), c)
                else
                  r == if answer[responseSize] == c.op then Ok(answer[..responseSize])
                       else Err(BadTail(c.op, answer[responseSize]))
    {
      if !Packs(cmd, arg0, arg1, data) {
        return Err(StructError);
      }
      var c := Message(cmd, arg0, arg1, data);
      hide Target.InRun, WellFormed, Reply, Apply, Response;
      ghost var answer := Reply(Memory(), c);
      ResponseIs(Memory(), c);
      var enough := Exchange(c, responseSize + 1);
      if !enough {
        return Err(Timeout);
      }
      var resp := Take(responseSize + 1);
      FrontAndTail(answer, c.op, resp, responseSize);
      var respData := resp[0..responseSize];
      var tail := resp[responseSize];
      if tail != c.op {
        return Err(BadTail(c.op, tail));
      }
      r := Ok(respData);
    }

    /** The commands sent since `before`. */
    ghost predicate Sent(before: seq<Command>, sent: seq<Command>)
      reads target
    {
      target.run.cs == before + sent
    }

    /** bin/comms.py:38-39. A count that is no 16-bit `int` of the target is answered by fewer bytes. */
    method ReadBytes(addr: int, count: int) returns (r: Result<seq<byte>>)
      requires Ready()
      modifies this, target, target.buffer, target.mem, target.comms, target.comms.bus
      ensures Idle() && (r != Err(Timeout) ==> Ready()) && Memory() == old(Memory())
      ensures if 0 <= addr < 0x1_0000_0000 && 0 <= count < 0x1_0000_0000
              then
                && Sent(old(target.run.cs), [Message(3, addr, count, [])])
                && r == if count < 0x8000 then Ok(Load(Memory(), addr, count)) else Err(Timeout)
              else Sent(old(target.run.cs), []) && r == Err(StructError)
    {
      if Packs(CMD_READ_BYTES, addr, count, []) {
        ReadBytesReply(Memory(), addr, count);
      }
      hide Target.InRun, Apply, Reply, WellFormed, Load, Idle, Ready;
      r := DoCmd(CMD_READ_BYTES, addr, count, [], if count < 0 then 0 else count);
    }

    /** bin/comms.py:41-46 */
    method ReadWords(addr: int, count: int) returns (r: Result<seq<uint16>>)
      requires Ready() && count <= 0x4000
      modifies this, target, target.buffer, target.mem, target.comms, target.comms.bus
      ensures Ready() && Memory() == old(Memory())
      ensures if 0 <= addr < 0x1_0000_0000 && 0 <= count
              then
                && Sent(old(target.run.cs), [Message(4, addr, count, [])])
                && r == Ok(UnpackWords(Load(Memory(), addr, 2 * count)))
              else Sent(old(target.run.cs), []) && r == Err(StructError)
    {
      var resp := DoCmd(CMD_READ_WORDS, addr, count, [], if count < 0 then 0 else count * 2);
      if resp.Err? {
        return Err(resp.error);
      }
      var ints := PairUp(resp.value);
      r := Ok(ints);
    }

    /** bin/comms.py:48-49 */
    method WriteBytes(addr: int, data: seq<byte>) returns (r: Result<()>)
      requires Ready()
      requires 0 <= addr && |data| < 0x1_0000 ==> addr % 0x1_0000 + |data| <= 0x1_0000
      modifies this, target, target.buffer, target.mem, target.comms, target.comms.bus
      ensures Ready()
      ensures if 0 <= addr < 0x1_0000_0000 && |data| < 0x1_0000
              then
                && Sent(old(target.run.cs), [Message(1, addr, 0, data)])
                && r == Ok(()) && Memory() == Store(old(Memory()), addr, data)
              else Sent(old(target.run.cs), []) && r == Err(StructError) && Memory() == old(Memory())
    {
      var resp := DoCmd(CMD_WRITE_BYTES, addr, 0, data, 0);
      r := Done(resp);
    }

    /** bin/comms.py:51-55 */
    method WriteWords(addr: int, data: seq<int>) returns (r: Result<()>)
      requires Ready()
      requires 0 <= addr && |data| < 0x8000 ==> addr % 0x1_0000 + 2 * |data| <= 0x1_0001
      modifies this, target, target.buffer, target.mem, target.comms, target.comms.bus
      ensures Ready()
      ensures if 0 <= addr < 0x1_0000_0000 && |data| < 0x8000
                 && (forall i :: 0 <= i < |data| ==> 0 <= data[i] < 0x1_0000)
              then
                && Sent(old(target.run.cs), [Message(2, addr, 0, PackWords(data))])
                && r == Ok(()) && Memory() == Store(old(Memory()), addr, PackWords(data))
              else Sent(old(target.run.cs), []) && r == Err(StructError) && Memory() == old(Memory())
    {
      hide PackWords, Store;
      hide Target.InRun;
      var words := PackAll(data);
      if words.Err? {
        return Err(words.error);
      }
      var resp := DoCmd(CMD_WRITE_WORDS, addr, 0, words.value, 0);
      r := Done(resp);
    }

    /** bin/comms.py:57-59. The target takes the count modulo 2^16 (`FillIff`). */
    method FillBytes(addr: int, count: int, value: int) returns (r: Result<()>)
      requires Ready()
      modifies this, target, target.buffer, target.mem, target.comms, target.comms.bus
      ensures Ready()
      ensures if 0 <= addr < 0x1_0000_0000 && 0 <= count < 0x1_0000_0000 && 0 <= value < 0x100
              then
                && Sent(old(target.run.cs), [Message(5, addr, count, [value])])
                && r == Ok(()) && Memory() == Store(old(Memory()), addr, Repeat([value], count % 0x1_0000))
              else
                && Sent(old(target.run.cs), []) && Memory() == old(Memory())
                && r == Err(if 0 <= value < 0x100 then StructError else ValueError)
    {
      if !(0 <= value < 0x100) {
        return Err(ValueError);
      }
      var resp := DoCmd(CMD_FILL_BYTES, addr, count, [value], 0);
      r := Done(resp);
    }

    /** bin/comms.py:61-63. The same in words. */
    method FillWords(addr: int, count: int, value: int) returns (r: Result<()>)
      requires Ready()
      modifies this, target, target.buffer, target.mem, target.comms, target.comms.bus
      ensures Ready()
      ensures if 0 <= addr < 0x1_0000_0000 && 0 <= count < 0x1_0000_0000 && 0 <= value < 0x1_0000
              then
                && Sent(old(target.run.cs), [Message(6, addr, count, [value % 256, value / 256])])
                && r == Ok(())
                && Memory() == Store(old(Memory()), addr, Repeat([value % 256, value / 256], count % 0x1_0000))
              else Sent(old(target.run.cs), []) && r == Err(StructError) && Memory() == old(Memory())
    {
      if !(0 <= value < 0x1_0000) {
        return Err(StructError);
      }
      LittleEndian(value);
      var resp := DoCmd(CMD_FILL_WORDS, addr, count, Le16(value), 0);
      r := Done(resp);
    }
  }

  /** A call whose data nobody looks at. */
  function Done<T>(r: Result<T>): Result<()> {
    match r
    case Ok(_) => Ok(())
    case Err(e) => Err(e)
  }

  /** The loop at bin/comms.py:44-45: pairs of bytes, the first one low. */
  method PairUp(data: seq<byte>) returns (ints: seq<uint16>)
    ensures ints == UnpackWords(data)
  {
    ints := [];
    var i := 0;
    while 2 * i + 1 < |data|
      invariant 0 <= i <= |data| / 2 && ints == UnpackWords(data)[..i]
    {
      var high, low := data[2 * i], data[2 * i + 1];
      ints := ints + [low as int * 0x100 + high as int];
      i := i + 1;
    }
  }

  /** The loop at bin/comms.py:52-54: `pack` raises on the first value that is not a 16-bit word. */
  method PackAll(data: seq<int>) returns (r: Result<seq<byte>>)
    ensures if AreWords(data) then r == Ok(PackWords(data)) else r == Err(StructError)
  {
    var words: seq<byte> := [];
    var i := 0;
    while i < |data|
      invariant 0 <= i <= |data|
      invariant AreWords(data[..i])
      invariant words == PackWords(data[..i])
    {
      if !(0 <= data[i] < 0x1_0000) {
        return Err(StructError);
      }
      words := words + Le16(data[i]);
      i := i + 1;
      assert data[..i][..i - 1] == data[..i - 1];
    }
    assert data[..i] == data;
    r := Ok(words);
  }

  lemma InRunBounds(t: Target)
    requires t.InRun()
    ensures t.comms.taken <= |EncodeAll(t.run.cs)| && t.run.k <= |t.run.cs|
    ensures t.comms.bus.peer.seen <= OutAfter(t.run.m, t.run.cs)
    ensures |t.comms.bus.peer.seen| < |OutAfter(t.run.m, t.run.cs)| ==> t.run.More()
  {
    RunOnCourse(t.State(), t.mem[..], t.comms.taken, t.comms.bus.peer.seen, t.run);
    if !t.run.More() {
      RunIsAtomic(t.State(), t.mem[..], t.comms.taken, t.comms.bus.peer.seen, t.run);
    }
  }

  lemma AllDone(t: Target)
    requires t.InRun() && !t.run.More()
    ensures AllWellFormed(t.run.cs) && t.mem[..] == MemAfter(t.run.m, t.run.cs)
    ensures t.comms.bus.peer.seen == OutAfter(t.run.m, t.run.cs)
  {
    RunIsAtomic(t.State(), t.mem[..], t.comms.taken, t.comms.bus.peer.seen, t.run);
  }

  lemma ReadBytesReply(m: Image, addr: uint32, count: uint32)
    ensures var c := Message(CMD_READ_BYTES, addr, count, []);
            && WellFormed(c) && Apply(m, c) == m && |Reply(m, c)| <= count
            && (|Reply(m, c)| == count <==> count < 0x8000)
            && (count < 0x8000 ==> Reply(m, c) == Load(m, addr, count))
  {
    ReadIff(m, Message(CMD_READ_BYTES, addr, count, []));
  }

  lemma ResponseIs(m: Image, c: Command)
    requires c.op != CMD_IDLE
    ensures Response(m, c) == Reply(m, c) + [c.op]
  {
  }

  lemma FrontAndTail(answer: seq<byte>, op: byte, resp: seq<byte>, n: nat)
    requires n <= |answer| && resp == (answer + [op])[..n + 1]
    ensures resp[0..n] == answer[..n] && resp[n] == if n < |answer| then answer[n] else op
    ensures n == |answer| ==> resp[0..n] == answer
  {
  }

  lemma FrontOfAnswer(before: seq<byte>, answer: seq<byte>, seen: seq<byte>, n: nat)
    requires seen <= before + answer && |before| + n <= |seen|
    ensures n <= |answer| && seen[|before|..|before| + n] == answer[..n]
  {
  }

  lemma NextResponse(m: Image, cs: seq<Command>, c: Command)
    requires AllWellFormed(cs) && WellFormed(c)
    ensures AllWellFormed(cs + [c])
    ensures MemAfter(m, cs + [c]) == Apply(MemAfter(m, cs), c)
    ensures OutAfter(m, cs + [c]) == OutAfter(m, cs) + Response(MemAfter(m, cs), c)
  {
    assert (cs + [c])[..|cs|] == cs;
  }

  /** Once everything the queued commands answer has been seen, the last of them is done. */
  lemma AnswerComplete(t: Target)
    requires t.InRun() && t.run.cs != [] && t.run.cs[|t.run.cs| - 1].op != CMD_IDLE
    requires |t.comms.bus.peer.seen| >= |OutAfter(t.run.m, t.run.cs)|
    ensures !t.run.More()
    ensures t.mem[..] == MemAfter(t.run.m, t.run.cs)
    ensures t.comms.bus.peer.seen == OutAfter(t.run.m, t.run.cs)
  {
    AllAnswered(t.State(), t.mem[..], t.comms.taken, t.comms.bus.peer.seen, t.run);
    RunIsAtomic(t.State(), t.mem[..], t.comms.taken, t.comms.bus.peer.seen, t.run);
  }
}
