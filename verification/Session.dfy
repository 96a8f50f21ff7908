/** Whole runs: host, link and target together. */
module Session {
  import opened Bytes
  import opened Memory
  import opened PeerContract
  import opened CommsLink
  import opened Protocol
  import opened Phases
  import opened CommandTarget
  import opened HostDriver

  /** A freshly booted target and a peer that nothing was sent to yet. */
  method Boot(mem: array<byte>) returns (t: Target)
    requires mem.Length == SPACE
    ensures t.InRun() && t.mem == mem && t.run == Run(mem[..], [], 0) && t.comms.bus.peer.seen == []
    ensures fresh(t) && fresh(t.comms) && fresh(t.comms.bus) && fresh(t.buffer)
  {
    var delay: nat := *;
    var inSeq: byte, outSeq: byte := *, *;
    var bus := new Bus(MAGIC, delay);
    var comms := new Comms(bus, inSeq, outSeq);
    t := new Target(comms, mem);
  }

  /** The target is never ahead of the host: it has answered nothing but what the atomic machine
      answers to the commands already written, and when it has done all of these, memory and answers
      are the atomic machine's. */
  lemma OnCourse(t: Target)
    requires t.InRun()
    ensures var p := t.comms.bus.peer;
            && AllWellFormed(p.queued) && t.run.k <= |p.queued| && t.comms.taken <= |EncodeAll(p.queued)|
            && p.seen <= OutAfter(t.run.m, p.queued)
            && (t.run.k == |p.queued| ==>
                  && t.mem[..] == MemAfter(t.run.m, p.queued)
                  && p.seen == OutAfter(t.run.m, p.queued)
                  && t.comms.taken == |EncodeAll(p.queued)|)
  {
    var p, r := t.comms.bus.peer, t.run;
    var q := Run(r.m, p.queued, r.k);
    t.comms.StreamBound();
    assert r.cs[..|p.queued|] == p.queued;
    NeverAhead(t.State(), t.mem[..], t.comms.taken, p.seen, r, |p.queued|);
    hide Target.InRun, AtRest, IsSettled, EncodeAll, MemAfter, OutAfter, AllWellFormed;
    RunOnCourse(t.State(), t.mem[..], t.comms.taken, p.seen, q);
    if q.k == |q.cs| {
      RunIsAtomic(t.State(), t.mem[..], t.comms.taken, p.seen, q);
    }
  }

  /** Any run: the host plans whatever well-formed commands it likes whenever it likes, without
      waiting for answers, and writes them at any moments, also in the middle of a poll; the target
      polls; and inside each poll the peer moves as it likes. At every point what was written stays
      written, the output so far is the front of what the atomic machine answers to the commands
      written, and when these are done memory and output are the atomic machine's. */
  method AnyRun(t: Target, turns: nat)
    requires t.InRun()
    modifies t, t.buffer, t.mem, t.comms, t.comms.bus
    ensures t.InRun() && t.run.m == old(t.run.m) && old(t.run.k) <= t.run.k
    ensures old(t.comms.bus.peer.queued) <= t.comms.bus.peer.queued
    ensures var p := t.comms.bus.peer;
            && AllWellFormed(p.queued) && t.run.k <= |p.queued| && t.comms.taken <= |EncodeAll(p.queued)|
            && p.seen <= OutAfter(t.run.m, p.queued)
            && (t.run.k == |p.queued| ==>
                  && t.mem[..] == MemAfter(t.run.m, p.queued)
                  && p.seen == OutAfter(t.run.m, p.queued)
                  && t.comms.taken == |EncodeAll(p.queued)|)
  {
    var i := 0;
    while i < turns
      invariant t.InRun() && t.run.m == old(t.run.m) && old(t.run.k) <= t.run.k
      invariant old(t.comms.bus.peer.queued) <= t.comms.bus.peer.queued
    {
      hide Target.InRun, WellFormed;
      var c: Command := *;
      var plan: bool := *;
      if plan && WellFormed(c) {
        t.Plan(c);
      } else {
        ghost var p := t.comms.bus.peer;
        t.Poll();
        OnwardExtends(p, t.comms.bus.peer);
      }
      i := i + 1;
    }
    OnCourse(t);
  }

  /** Progress: whatever the host has written or is going to write is carried out after finitely many
      polls, if it writes it some time and the peer delivers and acknowledges every byte some time. */
  method RunToEnd(t: Target)
    requires t.InRun()
    modifies t, t.buffer, t.mem, t.comms, t.comms.bus
    ensures t.InRun() && t.run.m == old(t.run.m) && t.run.cs == old(t.run.cs) && !t.run.More()
    ensures t.comms.bus.peer.queued == t.run.cs
    ensures t.mem[..] == MemAfter(t.run.m, t.run.cs) && t.comms.bus.peer.seen == OutAfter(t.run.m, t.run.cs)
  {
    hide Target.InRun, EncodeAll, MemAfter, OutAfter, Peer.Work;
    var done := t.IsDone();
    while !done
      invariant t.InRun() && t.run.m == old(t.run.m) && t.run.cs == old(t.run.cs)
      invariant done == !t.run.More() && (done ==> t.comms.bus.peer.queued == t.run.cs)
      decreases |EncodeAll(t.run.cs)| + |t.run.cs| - t.comms.taken - t.run.k,
                t.comms.bus.peer.Work(), t.comms.bus.peer.delay
    {
      InRunBounds(t);
      t.Poll();
      InRunBounds(t);
      done := t.IsDone();
    }
    AllDone(t);
  }

  /** Any run from the start: until the first command is written nothing is answered. */
  method FreshRun(mem: array<byte>, turns: nat) returns (t: Target)
    requires mem.Length == SPACE
    modifies mem
    ensures t.InRun() && t.mem == mem
    ensures var p := t.comms.bus.peer;
            && AllWellFormed(p.queued) && p.seen <= OutAfter(old(mem[..]), p.queued)
            && (t.run.k == |p.queued| ==>
                  mem[..] == MemAfter(old(mem[..]), p.queued) && p.seen == OutAfter(old(mem[..]), p.queued))
  {
    t := Boot(mem);
    AnyRun(t, turns);
  }

  /** Word transfer, end to end: through both drivers, the link and the target, the words that were
      written are the words that are read. */
  method WriteThenReadWords(pico: Pico, addr: int, words: seq<uint16>) returns (r: Result<seq<uint16>>)
    requires pico.Ready() && 0 <= addr < 0x1_0000_0000
    requires |words| <= 0x4000 && addr % SEGMENT + 2 * |words| <= SEGMENT + 1
    modifies pico, pico.target, pico.target.buffer, pico.target.mem, pico.target.comms, pico.target.comms.bus
    ensures pico.Ready() && r == Ok(words) && pico.Memory() == Store(old(pico.Memory()), addr, PackWords(words))
  {
    WordRoundTrip(pico.Memory(), addr, words);
    var w := pico.WriteWords(addr, words);
    r := pico.ReadWords(addr, |words|);
  }

  /** The same from the start: boot, write, read. */
  method FirstTransfer(mem: array<byte>, addr: int, words: seq<uint16>) returns (r: Result<seq<uint16>>)
    requires mem.Length == SPACE && 0 <= addr < 0x1_0000_0000
    requires |words| <= 0x4000 && addr % SEGMENT + 2 * |words| <= SEGMENT + 1
    modifies mem
    ensures r == Ok(words) && mem[..] == Store(old(mem[..]), addr, PackWords(words))
  {
    var t := Boot(mem);
    var pico := new Pico(t);
    r := WriteThenReadWords(pico, addr, words);
  }
}
