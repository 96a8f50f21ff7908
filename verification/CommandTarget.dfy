/** The command machine of src/main.c. */
module CommandTarget {
  import opened Bytes
  import opened Memory
  import opened PeerContract
  import opened CommsLink
  import opened Protocol
  import opened Phases

  class Target {
    const comms: Comms
    const mem: array<byte>

    // struct Cmd
    var cmd: byte
    var arg0: uint32
    var arg1: uint32
    var totalBytes: uint16
    var totalRead: uint16
    var totalConsumed: uint16
    var bytesAvail: uint16
    var bytesConsumed: uint16
    var isNew: bool
    const buffer: array<byte>

    /** The commands the host has written or is going to write, the memory before the first of them,
        and how many are done. */
    ghost var run: Run

    /** `memset(&active_cmd, 0, sizeof(active_cmd))` (src/main.c:304). */
    constructor (comms: Comms, mem: array<byte>)
      requires comms.Valid() && comms.taken == 0 && comms.bus.peer.Commands() == [] && comms.bus.peer.seen == []
      requires comms.bus.magic == MAGIC && mem.Length == SPACE
      ensures this.comms == comms && this.mem == mem && fresh(buffer) && buffer.Length == 32
      ensures Wired() && Resting() && run == Run(mem[..], [], 0)
    {
      this.comms, this.mem := comms, mem;
      cmd, arg0, arg1, isNew := 0, 0, 0, false;
      totalBytes, totalRead, totalConsumed, bytesAvail, bytesConsumed := 0, 0, 0, 0, 0;
      buffer := new byte[BUFFER_SIZE](_ => 0);
      run := Run(mem[..], [], 0);
    }

    ghost function State(): CmdState
      reads this, buffer
    {
      CmdState(cmd, arg0, arg1, totalBytes, totalRead, totalConsumed, bytesAvail, bytesConsumed, buffer[..])
    }

    /** The run is that of the host's commands. */
    ghost predicate Wired()
      reads this, comms, comms.bus
    {
      && buffer.Length == BUFFER_SIZE && mem.Length == SPACE && buffer != mem
      && comms.Valid() && comms.bus.magic == MAGIC
      && run.Valid() && run.cs == comms.bus.peer.Commands()
    }

    ghost predicate Resting()
      requires run.Valid() && mem.Length == SPACE
      reads this, comms, comms.bus, buffer, mem
    {
      AtRest(State(), mem[..], comms.taken, comms.bus.peer.seen, run)
    }

    ghost predicate Loaded()
      requires run.Valid() && mem.Length == SPACE
      reads this, comms, comms.bus, buffer, mem
    {
      IsLoaded(State(), mem[..], comms.taken, comms.bus.peer.seen, run)
    }

    ghost predicate Settled()
      requires run.Valid() && mem.Length == SPACE
      reads this, comms, comms.bus, buffer, mem
    {
      IsSettled(State(), mem[..], comms.taken, comms.bus.peer.seen, run)
    }

    ghost predicate Complete()
      requires run.Valid() && mem.Length == SPACE
      reads this, comms, comms.bus, buffer, mem
    {
      IsComplete(State(), mem[..], comms.taken, comms.bus.peer.seen, run)
    }

    /** What holds between polls. */
    ghost predicate InRun()
      reads this, comms, comms.bus, buffer, mem
    {
      Wired() && (Resting() || Settled())
    }

    /** src/main.c:46-52 */
    method Shift()
      requires InRun()
      modifies this, buffer
      ensures Wired() && run == old(run) && cmd == old(cmd)
      ensures old(Settled()) ==>
                var s := old(State());
                && s.bytesConsumed <= s.bytesAvail <= |s.buffer| && s.totalConsumed + s.bytesConsumed < 0x1_0000
                && State() == Shifted(s, CopyAscending(s.buffer, 0, s.bytesConsumed, s.bytesAvail - s.bytesConsumed))
      ensures cmd == CMD_IDLE ==> Resting()
      ensures cmd != CMD_IDLE && totalConsumed == totalBytes ==> Complete()
      ensures cmd != CMD_IDLE && totalConsumed != totalBytes ==>
                Loaded() && totalRead < totalBytes && bytesAvail < BUFFER_SIZE && !IsRead(cmd)
    {
      hide Comms.Valid, EncodeAll, Run.Start, Run.Mem, Run.Out, Partial, Reply;
      ghost var s := State();
      if bytesConsumed > 0 {
        MemCopyNear(buffer, 0, bytesConsumed, bytesAvail - bytesConsumed);
        bytesAvail := bytesAvail - bytesConsumed;
        totalConsumed := totalConsumed + bytesConsumed;
        bytesConsumed := 0;
      }
      if cmd != CMD_IDLE {
        ShiftedIs(s, mem[..], comms.taken, comms.bus.peer.seen, run, buffer[..]);
        hide IsLoaded, IsComplete;
        assert State() == Shifted(s, buffer[..]);
      }
    }

    /** src/main.c:56-57 */
    method Finish()
      requires Wired() && comms.active && Complete()
      modifies this, comms, comms.bus
      ensures Onward(old(comms.bus.peer), comms.bus.peer)
      ensures Wired() && comms.active && Resting() && cmd == CMD_IDLE
      ensures run == old(run).Next() && comms.taken == old(comms.taken)
    {
      var n := comms.WriteOne(cmd);
      cmd := CMD_IDLE;
      run := run.Next();
    }

    /** Once a byte of the command at hand was taken, all of them are written. */
    lemma WholeIsWritten()
      requires Wired() && run.More() && comms.taken > run.Start()
      ensures run.Next().Valid() && run.Next().Start() <= comms.bus.peer.written
    {
      var p := comms.bus.peer;
      comms.StreamBound();
      assert run.cs[..|p.queued|] == p.queued;
      WrittenWhole(run, |p.queued|, comms.taken);
    }

    /** While commands are left to do and none is at hand, bytes are to come. */
    lemma MoreIsExpected()
      requires Wired() && comms.taken == run.Start() && run.More()
      ensures comms.Expects()
    {
      var p := comms.bus.peer;
      comms.StreamBound();
      StreamUsedUp(run);
      assert p.plans == [] ==> run.cs == p.queued;
    }

    /** The loop at src/main.c:73-77: fill `buf`, in whatever pieces the bytes come. */
    method ReadAll(buf: array<byte>)
      requires comms.Valid() && comms.active && comms.bus.magic == MAGIC
      requires comms.taken + buf.Length <= comms.bus.peer.written
      modifies buf, comms, comms.bus
      ensures comms.Valid() && comms.active && comms.taken == old(comms.taken) + buf.Length
      ensures Onward(old(comms.bus.peer), comms.bus.peer) && comms.bus.peer.seen == old(comms.bus.peer.seen)
      ensures comms.taken <= |comms.bus.peer.Stream()|
      ensures buf[..] == comms.bus.peer.Stream()[old(comms.taken)..comms.taken]
    {
      hide Comms.Valid, Peer.Work, EncodeAll;
      var pos := 0;
      comms.StreamBound();
      ghost var start, stream := comms.taken, comms.bus.peer.Stream();
      while pos < buf.Length
        invariant 0 <= pos <= buf.Length && comms.taken == start + pos
        invariant comms.Valid() && comms.active
        invariant Onward(old(comms.bus.peer), comms.bus.peer) && start + pos <= |stream|
        invariant comms.bus.peer.seen == old(comms.bus.peer.seen)
        invariant buf[..pos] == stream[start..start + pos]
        decreases buf.Length - pos, comms.bus.peer.Work(), comms.bus.peer.delay
      {
        ghost var was := buf[..];
        var n, look := comms.Read(buf, pos, buf.Length - pos);
        OverlayRead(was, pos, stream[start + pos..start + pos + n]);
        pos := pos + n;
      }
    }

    /** src/main.c:73-81 */
    method ReadArguments()
      requires Wired() && comms.active && run.More() && run.Now().op != CMD_IDLE
      requires comms.taken == run.Start() + 1
      modifies this`arg0, this`arg1, this`totalBytes, comms, comms.bus
      ensures Onward(old(comms.bus.peer), comms.bus.peer)
      ensures Wired() && comms.active && comms.bus.peer.seen == old(comms.bus.peer.seen)
      ensures comms.taken == run.Start() + HEADER_SIZE
      ensures arg0 == run.Now().arg0 && arg1 == run.Now().arg1 && totalBytes == |run.Now().payload|
    {
      hide Comms.Valid, EncodeAll, Encode, Arguments, AllWellFormed, Run.Start, MemAfter, OutAfter;
      HeaderInStream(run);
      WholeIsWritten();
      NextStart(run);
      var buf := new byte[10];
      ReadAll(buf);
      ArgumentsRoundTrip(run.Now(), buf[..]);
      arg0 := FromLe32(buf[0..4]);
      arg1 := FromLe32(buf[4..8]);
      totalBytes := FromLe16(buf[8..10]);
    }

    /** src/main.c:61-88. Nothing may have arrived; an IDLE byte is dropped. */
    method Start() returns (started: bool, ghost look: Peer)
      requires Wired() && comms.active && Resting()
      modifies this, comms, comms.bus
      ensures Onward(old(comms.bus.peer), comms.bus.peer)
      ensures Wired() && comms.active
      ensures started ==> Loaded() && totalRead == 0 && run == old(run)
      ensures !started ==> Resting() && cmd == CMD_IDLE
      ensures started ==> comms.taken > old(comms.taken)
      ensures run == old(run) || (!started && old(run).More() && old(run).Now().op == 0 && run == old(run).Next())
      ensures !started && run == old(run) ==> Quiet(look, comms.bus.peer, comms.taken)
      ensures started ==> isNew
      ensures run != old(run) ==> comms.taken > old(comms.taken)
      ensures old(run).More() ==> comms.taken > old(comms.taken) || Sooner(comms.bus.peer, old(comms.bus.peer))
      ensures old(comms.taken) <= comms.taken <= old(comms.taken) + 11
      ensures comms.taken == old(comms.taken) ==> NotSlower(comms.bus.peer, old(comms.bus.peer))
    {
      hide Comms.Valid, Peer.Work, EncodeAll, AllWellFormed, IsLoaded, AtRest, Run.Start, Run.Mem, Run.Out;
      hide Quiet, Sooner;
      ghost var s, m, taken, seen := State(), mem[..], comms.taken, comms.bus.peer.seen;
      comms.StreamBound();
      FirstByte(s, m, taken, seen, run);
      if run.More() {
        MoreIsExpected();
      }
      var op := new byte[1];
      var n;
      n, look := comms.Read(op, 0, 1);
      if n == 0 {
        return false, look;
      }
      assert op[0] == comms.bus.peer.Stream()[taken];
      cmd := op[0];
      if cmd == CMD_IDLE {
        run := run.Next();
        return false, look;
      }
      ReadArguments();
      bytesAvail, bytesConsumed, totalRead, totalConsumed := 0, 0, 0, 0;
      isNew := true;
      HeaderIsLoaded(State(), mem[..], comms.taken, comms.bus.peer.seen, run);
      return true, look;
    }

    /** While payload bytes are missing, bytes are to come. */
    lemma PayloadIsExpected()
      requires Wired() && Loaded()
      ensures totalRead < totalBytes ==> comms.Expects()
    {
      WholeIsWritten();
      RunStep(run);
      EncodedLength(run.Now());
      hide EncodeAll, MemAfter, OutAfter, AllWellFormed, Partial;
    }

    /** src/main.c:94-103 */
    method Fill() returns (ghost look: Peer)
      requires Wired() && comms.active && Loaded()
      modifies this, buffer, comms, comms.bus
      ensures Onward(old(comms.bus.peer), comms.bus.peer)
      ensures Wired() && comms.active && Loaded() && run == old(run) && cmd == old(cmd)
      ensures comms.taken <= old(comms.taken) + 32
      ensures old(comms.taken) <= comms.taken <= |comms.bus.peer.Stream()|
      ensures var s, data := old(State()), comms.bus.peer.Stream()[old(comms.taken)..comms.taken];
              && s.bytesAvail + |data| <= |s.buffer| <= BUFFER_SIZE && s.totalRead + |data| <= s.totalBytes
              && State() == Filled(s, data)
      ensures totalRead < totalBytes && bytesAvail < 32 ==> Quiet(look, comms.bus.peer, comms.taken)
      ensures isNew == old(isNew)
      ensures old(totalRead < totalBytes && bytesAvail < BUFFER_SIZE) ==>
                comms.taken > old(comms.taken) || Sooner(comms.bus.peer, old(comms.bus.peer))
    {
      hide Comms.Valid, Peer.Work, EncodeAll, IsLoaded, AllWellFormed, Overlay, Quiet, Sooner;
      ghost var s, taken := State(), comms.taken;
      look := comms.bus.peer;
      LoadedBounds(s, mem[..], taken, comms.bus.peer.seen, run);
      PayloadIsExpected();
      comms.StreamBound();
      OverlayNothing(buffer[..], bytesAvail, comms.bus.peer.Stream()[taken..taken]);
      if totalRead < totalBytes && bytesAvail < BUFFER_SIZE {
        var remaining := totalBytes - totalRead;
        var space := BUFFER_SIZE - bytesAvail;
        var maxRead := if space < remaining then space else remaining;
        var bytesRead;
        bytesRead, look := comms.Read(buffer, bytesAvail, maxRead);
        NextIsPayload(s, mem[..], taken, comms.bus.peer.seen, run, bytesRead);
        ghost var data := run.Now().payload[totalRead..totalRead + bytesRead];
        FillKeepsLoaded(s, mem[..], taken, comms.bus.peer.seen, run, data);
        totalRead := totalRead + bytesRead;
        bytesAvail := bytesAvail + bytesRead;
        assert State() == Filled(s, data);
      }
    }

    /** The loop at src/main.c:140-143: two bytes at a time. */
    method SendWords()
      requires Wired() && comms.active && arg1 <= 0x4000
      modifies comms, comms.bus
      ensures Onward(old(comms.bus.peer), comms.bus.peer)
      ensures Wired() && comms.active && comms.taken == old(comms.taken)
      ensures comms.bus.peer.seen == old(comms.bus.peer.seen) + Load(mem[..], arg0, 2 * arg1)
    {
      hide Comms.Valid, Peer.Work, EncodeAll, AllWellFormed, Phys;
      var ofs := 0;
      while ofs < arg1
        invariant 0 <= ofs <= arg1
        invariant Wired() && comms.active && comms.taken == old(comms.taken)
        invariant Onward(old(comms.bus.peer), comms.bus.peer)
        invariant comms.bus.peer.seen == old(comms.bus.peer.seen) + Load(mem[..], arg0, 2 * ofs)
      {
        var n := comms.Write(mem, Step(arg0, 2 * ofs), 2);
        LoadSplit(mem[..], arg0, 2 * ofs, 2);
        ofs := ofs + 1;
      }
    }

    /** src/main.c:110-128 */
    method ProcessWrite()
      requires mem.Length == SPACE && buffer.Length == BUFFER_SIZE && buffer != mem
      requires IsWrite(cmd) && bytesAvail <= BUFFER_SIZE && bytesConsumed == 0
      modifies this`bytesConsumed, mem
      ensures mem[..] == Processed(old(State()), old(mem[..]))
      ensures State() == old(State()).(bytesConsumed := Takes(cmd, bytesAvail))
    {
      var addr := Advance(arg0, totalConsumed);
      if cmd == CMD_WRITE_BYTES {
        if bytesAvail > 0 {
          MemCopyBytes(mem, addr, buffer, bytesAvail);
          bytesConsumed := bytesAvail;
        }
      } else {
        MemCopyWords(mem, addr, buffer, bytesAvail / 2);
        bytesConsumed := bytesAvail - bytesAvail % 2;
      }
    }

    /** src/main.c:129-145. A word count beyond 2^14 would overflow the shifted index. */
    method ProcessRead()
      requires Wired() && comms.active && IsRead(cmd) && (cmd == CMD_READ_WORDS ==> arg1 <= 0x4000)
      modifies comms, comms.bus
      ensures Onward(old(comms.bus.peer), comms.bus.peer)
      ensures Wired() && comms.active && comms.taken == old(comms.taken)
      ensures comms.bus.peer.seen == old(comms.bus.peer.seen) + Reply(mem[..], Message(cmd, arg0, arg1, []))
    {
      hide Comms.Valid, Peer.Work, EncodeAll, AllWellFormed, Load;
      if cmd == CMD_READ_BYTES {
        var n := comms.Write(mem, arg0, Int16(Size16(arg1)));
      } else {
        SendWords();
      }
    }

    /** src/main.c:146-167 */
    method ProcessFill()
      requires mem.Length == SPACE && buffer.Length == BUFFER_SIZE && buffer != mem
      requires IsFill(cmd) && bytesAvail <= BUFFER_SIZE && bytesConsumed == 0
      modifies this`bytesConsumed, mem
      ensures mem[..] == Processed(old(State()), old(mem[..]))
      ensures State() == old(State()).(bytesConsumed := Takes(cmd, bytesAvail))
    {
      hide Store, Repeat;
      if cmd == CMD_FILL_BYTES {
        if bytesAvail > 0 {
          var v := buffer[0];
          bytesConsumed := bytesAvail;
          assert buffer[..][..1] == [v];
          MemSetBytes(mem, arg0, v, Size16(arg1));
        }
      } else {
        if bytesAvail > 1 {
          var v := FromLe16(buffer[..2]);
          bytesConsumed := bytesAvail;
          assert buffer[..][..2] == Le16(v);
          MemSetWords(mem, arg0, v, Size16(arg1));
        }
      }
    }

    /** src/main.c:106-175 on a command that has been started: it is processed once. */
    method ProcessBusy()
      requires Wired() && comms.active && Loaded()
      modifies this`bytesConsumed, mem, comms, comms.bus
      ensures Onward(old(comms.bus.peer), comms.bus.peer)
      ensures Wired() && comms.active && comms.taken == old(comms.taken) && Settled()
      ensures !IsRead(cmd) ==> comms.bus.peer == old(comms.bus.peer)
    {
      hide Comms.Valid, EncodeAll, AllWellFormed, IsSettled, Processed, Takes, Partial, Reply;
      hide Run.Mem, Run.Out, Run.Start;
      ghost var s, m, was, c := State(), mem[..], comms.bus.peer.seen, run.Now();
      LoadedSettles(s, m, comms.taken, was, run);
      LoadedBounds(s, m, comms.taken, was, run);
      ProcessedByKind(s, m, c);
      ReadAtHand(s, m, comms.taken, was, run);
      hide *;
      if IsWrite(cmd) {
        ProcessWrite();
      } else if IsRead(cmd) {
        ProcessRead();
      } else if IsFill(cmd) {
        ProcessFill();
      } else {
        bytesConsumed := bytesAvail;
      }
      assert State() == s.(bytesConsumed := Takes(s.cmd, s.bytesAvail));
      assert mem[..] == Processed(s, m);
      assert comms.bus.peer.seen == was + Reply(m, c);
    }

    /** src/main.c:106-175 */
    method ProcessCmd()
      requires Wired() && comms.active && (Resting() || Loaded())
      modifies this`bytesConsumed, mem, comms, comms.bus
      ensures Onward(old(comms.bus.peer), comms.bus.peer)
      ensures Wired() && comms.active && comms.taken == old(comms.taken)
      ensures Resting() || Settled()
      ensures !IsRead(cmd) ==> comms.bus.peer == old(comms.bus.peer)
    {
      if cmd == CMD_IDLE {
        return;
      }
      ProcessBusy();
    }

    /** src/main.c:42-104 */
    method UpdateCmd() returns (ghost look: Peer)
      requires InRun() && comms.active
      modifies this, buffer, comms, comms.bus
      ensures Onward(old(comms.bus.peer), comms.bus.peer)
      ensures Wired() && comms.active && (Resting() || Loaded())
      ensures run.m == old(run.m) && run.cs == old(run.cs) && run.k >= old(run.k)
      ensures old(comms.taken) <= comms.taken <= old(comms.taken) + 43 && run.k <= old(run.k) + 2
      ensures old(run.More()) ==>
                comms.taken + run.k > old(comms.taken + run.k) || Sooner(comms.bus.peer, old(comms.bus.peer))
      ensures IsRead(cmd) ==> comms.taken > old(comms.taken)
      ensures cmd == CMD_IDLE ==> Quiet(look, comms.bus.peer, comms.taken) || comms.taken > old(comms.taken)
      ensures cmd != CMD_IDLE && totalRead < totalBytes && bytesAvail < 32 ==>
                Quiet(look, comms.bus.peer, comms.taken)
      ensures cmd != CMD_IDLE ==> (isNew <==> old(cmd) == CMD_IDLE || run.k > old(run.k))
    {
      hide Comms.Valid, EncodeAll, AllWellFormed, AtRest, IsSettled, IsLoaded, IsComplete, Sooner;
      Shift();
      if totalConsumed == totalBytes && cmd != CMD_IDLE {
        Finish();
      }
      if cmd == CMD_IDLE {
        var started;
        started, look := Start();
        if !started {
          return;
        }
      } else {
        isNew := false;
      }
      look := Fill();
    }

    /** The poll step of the main loop (src/main.c:346-350). However the peer behaves in between,
        the run stays on the atomic machine's course and gets closer to its end. */
    method Poll()
      requires InRun()
      modifies this, buffer, mem, comms, comms.bus
      ensures InRun() && Onward(old(comms.bus.peer), comms.bus.peer)
      ensures run.m == old(run.m) && run.cs == old(run.cs) && run.k >= old(run.k)
      ensures old(comms.taken) <= comms.taken <= old(comms.taken) + 43 && run.k <= old(run.k) + 2
      ensures old(run.More()) ==>
                comms.taken + run.k > old(comms.taken + run.k) || Sooner(comms.bus.peer, old(comms.bus.peer))
      ensures !comms.active ==> run == old(run) && comms.taken == old(comms.taken) && mem[..] == old(mem[..])
    {
      hide AtRest, IsSettled, EncodeAll, MemAfter, OutAfter, Peer.Work, Comms.InStep;
      var up := comms.Update();
      if up {
        var look := UpdateCmd();
        ProcessCmd();
      }
    }

    /** The host is going to write another command. Its bytes go out at some later moment, between any
        two register accesses. */
    method Plan(c: Command)
      requires InRun() && WellFormed(c)
      modifies this`run, comms.bus
      ensures InRun() && run == old(run).(cs := old(run).cs + [c])
      ensures comms.bus.peer == old(comms.bus.peer).(plans := old(comms.bus.peer).plans + [c])
      ensures comms.taken == old(comms.taken)
    {
      hide EncodeAll, AllWellFormed, WellFormed, AtRest, IsSettled, Abreast, Run.Valid, Peer.Valid;
      PlanKeepsRun(State(), mem[..], comms.taken, comms.bus.peer.seen, run, c);
      AbreastIsValid(comms.bus.peer, comms.taken);
      var before := comms.bus.peer;
      comms.bus.Plan(c);
      PlanKeepsAbreast(before, c, comms.taken);
      assert before.Commands() + [c] == comms.bus.peer.Commands();
      run := Run(run.m, run.cs + [c], run.k);
    }

    /** All is done when nothing is planned, the machine is idle and the last byte was fetched. */
    method IsDone() returns (done: bool)
      requires InRun()
      ensures done == !run.More()
      ensures done ==> comms.bus.peer.queued == run.cs
    {
      var p := comms.bus.peer;
      done := p.plans == [] && cmd == CMD_IDLE && p.stored == p.written && p.fetched;
      comms.StreamBound();
      assert run.cs[..|p.queued|] == p.queued;
      DoneIff(State(), mem[..], comms.taken, p.seen, run, |p.queued|);
      hide AtRest, IsSettled, EncodeAll, AllWellFormed;
    }
  }
}
