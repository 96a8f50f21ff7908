/** The target's side of the byte link, src/comms.c. */
module CommsLink {
  import opened Bytes
  import opened Memory
  import opened Protocol
  import opened PeerContract

  const MAGIC: seq<byte> := [0x50, 0x49, 0x43, 0x4f] // "PICO"

  /** One announced byte is waiting and the target takes it. Before the target has counted it the
      peer may already have put and announced the next: the counters are then two apart, never
      more, and the byte taken is the right one. */
  lemma ByteInStep(taken: nat, p: Peer, mid: Peer, q: Peer)
    requires p.Valid() && taken < p.announced && p.stored <= taken + 1 && !p.fetched
    requires Later(p, mid) && Later(mid.(fetched := true), q)
    ensures mid.inByte == p.Stream()[taken] && q.Stream() == p.Stream()
    ensures taken + 1 <= q.announced <= q.stored <= taken + 2
    ensures q.fetched <==> q.stored == taken + 1
  {
    hide Peer.Work, Peer.Honest, EncodeAll;
  }

  /** At most one byte is waiting to be taken, and no sent byte is unacknowledged. */
  ghost predicate Abreast(p: Peer, taken: nat) {
    && p.Valid()
    && taken <= p.announced <= p.stored <= taken + 1
    && (p.fetched <==> taken == p.stored)
    && p.acked == |p.seen|
  }

  lemma PlanKeepsAbreast(p: Peer, c: Command, taken: nat)
    requires Abreast(p, taken) && p.(plans := p.plans + [c]).Valid()
    ensures Abreast(p.(plans := p.plans + [c]), taken)
  {
    hide Peer.Honest, EncodeAll;
  }

  lemma StaysAbreast(p: Peer, q: Peer, taken: nat)
    requires Later(p, q) && Abreast(p, taken)
    ensures Abreast(q, taken) && taken <= q.announced
    ensures taken < p.written + |p.plans| ==> taken < q.written + |q.plans|
  {
    hide Peer.Work, Peer.Honest, EncodeAll;
  }

  lemma AbreastIsValid(p: Peer, taken: nat)
    requires Abreast(p, taken)
    ensures p.Valid()
  {
    hide Peer.Valid;
  }

  lemma DownIsBlank(p: Peer, taken: nat)
    requires Abreast(p, taken)
    ensures !p.active ==> taken == 0 && p.seen == []
  {
    hide Peer.Work, Peer.Honest, EncodeAll;
  }

  lemma SameSeen(p: Peer, q: Peer)
    requires Later(p, q)
    ensures q.seen == p.seen && (p.active ==> q.active)
  {
    hide Peer.Work, Peer.Honest, EncodeAll;
  }

  /** The 8-bit counters differ exactly when a byte is waiting. */
  lemma CountersDiffer(p: Peer, taken: nat)
    requires Abreast(p, taken)
    ensures p.InSeq() != taken % 0x100 <==> taken < p.announced
  {
    hide Peer.Honest, EncodeAll;
  }

  /** While nothing is waiting but something is to come, or `pending` says so, a step is due, and time
      brings it closer. */
  lemma StepIsDue(p: Peer, q: Peer, taken: nat)
    requires Abreast(p, taken) && Elapsed(p, q) && q.announced == taken
    requires p.pending || taken < p.written + |p.plans|
    ensures Sooner(q, p)
  {
    hide Peer.Work, Peer.Honest, EncodeAll;
  }

  /** Nothing was sent from `p` to `q`, the host went on, and no more is left to do. */
  ghost predicate Listened(p: Peer, q: Peer) {
    Onward(p, q) && q.seen == p.seen && NotSlower(q, p)
  }

  lemma LaterListened(p: Peer, q: Peer, taken: nat)
    requires Later(p, q)
    ensures Listened(p, q) && q.Stream() == p.Stream() && (p.active ==> q.active)
    ensures taken < p.written + |p.plans| ==> taken < q.written + |q.plans|
  {
    hide Peer.Work, Peer.Honest, EncodeAll;
  }

  lemma ListenedThen(p: Peer, q: Peer, r: Peer)
    requires Listened(p, q) && Listened(q, r)
    ensures Listened(p, r) && r.Stream() == p.Stream()
    ensures Sooner(q, p) || Sooner(r, q) ==> Sooner(r, p)
  {
    hide Peer.Work, EncodeAll;
  }

  lemma SoonerThen(p: Peer, q: Peer, r: Peer)
    requires Later(p, q) && Later(q, r)
    ensures Later(p, r)
    ensures Sooner(q, p) || Sooner(r, q) ==> Sooner(r, p)
    ensures (p.active ==> r.active) && r.Valid() && Listened(p, r) && r.seen == p.seen
    ensures q.announced <= r.announced
  {
    hide Peer.Work;
    LaterTransitive(p, q, r);
  }

  /** At `look` no byte beyond the `taken` ones was announced, and at a later look `pending` was down. */
  ghost predicate Quiet(look: Peer, now: Peer, taken: nat) {
    Later(look, now) && look.announced <= taken && !now.pending
  }

  /** Another register was read: `q` and `r` are the peers at the reads before and now. */
  lemma Turned(p: Peer, q: Peer, r: Peer, taken: nat)
    requires Abreast(p, taken) && Later(p, q) && Elapsed(q, r)
    ensures Abreast(r, taken) && Later(p, r) && (p.active ==> r.active) && r.Valid() && r.seen == p.seen
    ensures Listened(p, r) && Later(q, r)
    ensures taken < p.written + |p.plans| ==> taken < r.written + |r.plans|
    ensures r.InSeq() != taken % 0x100 <==> taken < r.announced
    ensures taken <= r.announced && q.announced <= r.announced
    ensures Sooner(q, p) ==> Sooner(r, p)
    ensures r.announced == taken && (q.pending || taken < p.written + |p.plans|) ==> Sooner(r, p)
  {
    hide Peer.Owes, Sooner, Abreast, Later, Peer.InSeq;
    StaysAbreast(p, q, taken);
    StaysAbreast(q, r, taken);
    CountersDiffer(r, taken);
    SoonerThen(p, q, r);
    if r.announced == taken && (q.pending || taken < p.written + |p.plans|) {
      StepIsDue(q, r, taken);
    }
  }

  /** One unacknowledged byte is enough for the 8-bit counters to tell "not yet" from "done". */
  lemma AckPending(sent: Peer, p: Peer, outSeq: byte)
    requires Later(sent, p) && |sent.seen| == sent.acked + 1 && outSeq == |sent.seen| % 0x100
    ensures p.OutSeq() == outSeq <==> p.acked == |p.seen|
    ensures p.OutSeq() != outSeq ==> p.Owes()
  {
    hide Peer.Work, Peer.Honest, EncodeAll;
  }

  class Comms {
    const bus: Bus
    var magicValid: bool
    var active: bool
    var inSeq: byte
    var outSeq: byte

    /** How many bytes `Read` has returned in this session. */
    ghost var taken: nat

    constructor (bus: Bus, inSeq: byte, outSeq: byte)
      requires bus.peer.Valid() && !bus.peer.active && bus.peer.acked == 0
      ensures this.bus == bus && Valid() && taken == 0
    {
      this.bus := bus;
      magicValid, active := false, false;
      this.inSeq, this.outSeq := inSeq, outSeq;
      taken := 0;
    }

    /** Between calls: nothing sent is unacknowledged, at most one byte is waiting to be read, and
        once the session is up both 8-bit counters are the true counts modulo 256. */
    ghost predicate InStep()
      reads this, bus
    {
      var p := bus.peer;
      && Abreast(p, taken)
      && (active ==> magicValid && inSeq == taken % 0x100 && outSeq == |p.seen| % 0x100)
      && (!active ==> taken == 0 && p.seen == [])
      && (magicValid ==> bus.magic == MAGIC)
    }

    /** A session that was seen to be up is up. */
    ghost predicate Valid()
      reads this, bus
    {
      InStep() && (active ==> bus.peer.active)
    }

    lemma StreamBound()
      requires Valid()
      ensures bus.peer.Valid() && taken <= bus.peer.written <= |bus.peer.Stream()|
    {
      hide EncodeAll, AllWellFormed;
    }

    /** Bytes are to come that the target has not taken. */
    ghost predicate Expects()
      reads this, bus
    {
      taken < bus.peer.written + |bus.peer.plans|
    }

    /** src/comms.c:46-57 */
    method CheckMagic() returns (r: bool)
      modifies this`magicValid
      ensures r == magicValid == (old(magicValid) || bus.magic == [0x50, 0x49, 0x43, 0x4f])
    {
      if !magicValid {
        if |bus.magic| == 4 && bus.magic[0] == MAGIC[0] && bus.magic[1] == MAGIC[1]
           && bus.magic[2] == MAGIC[2] && bus.magic[3] == MAGIC[3] {
          assert bus.magic == MAGIC;
          magicValid := true;
        }
      }
      r := magicValid;
    }

    /** src/comms.c:59-63 */
    method CheckActive() returns (r: bool)
      requires InStep()
      modifies this`magicValid, bus
      ensures InStep() && Elapsed(old(bus.peer), bus.peer)
      ensures r == (bus.peer.active && bus.magic == [0x50, 0x49, 0x43, 0x4f])
      ensures r ==> magicValid
    {
      hide Abreast, Later, Peer.Valid, Peer.Owes, Sooner;
      ghost var p := bus.peer;
      AbreastIsValid(p, taken);
      var up := bus.Active();
      StaysAbreast(p, bus.peer, taken);
      SameSeen(p, bus.peer);
      if up {
        r := CheckMagic();
      } else {
        r := false;
      }
    }

    /** src/comms.c:66-82. A session starts when `active` is first seen; the counters then agree
        with the peer's, which start from zero. */
    method Update() returns (r: bool)
      requires InStep()
      modifies this, bus
      ensures Valid() && Elapsed(old(bus.peer), bus.peer)
      ensures taken == old(taken)
      ensures r == active && (old(Valid()) && old(active) ==> r)
      ensures !r ==> !bus.peer.active || bus.magic != MAGIC
    {
      hide Abreast, Later, Peer.Valid, Peer.Owes, Sooner;
      ghost var p := bus.peer;
      r := CheckActive();
      SameSeen(p, bus.peer);
      DownIsBlank(bus.peer, taken);
      if !active && r {
        active := true;
        inSeq := 0;
        outSeq := 0;
      } else if active && !r {
        active := false;
      }
    }

    /** The two statements at src/comms.c:101-102: take the waiting byte and count it. */
    method TakeByte() returns (b: byte)
      requires Valid() && active && taken < bus.peer.announced
      modifies this`inSeq, this`taken, bus
      ensures Valid() && taken == old(taken) + 1 && b == bus.peer.Stream()[old(taken)]
      ensures Listened(old(bus.peer), bus.peer)
    {
      hide EncodeAll, AllWellFormed, Peer.Work;
      ghost var p := bus.peer;
      ghost var mid;
      b, mid := bus.InByte();
      ByteInStep(taken, p, mid, bus.peer);
      inSeq := (inSeq + 1) % 0x100;
      taken := taken + 1;
    }

    /** The registers one turn of the loop at src/comms.c:97-99 looks at: `go` is the loop condition
        and `ready` the inner one. `atSeq` and `atPending` are the peer when `in_seq` and `pending` were
        read for the loop condition; the latter is not read if a byte is waiting already. */
    method Sample() returns (go: bool, ready: bool, ghost atSeq: Peer, ghost atPending: Peer)
      requires Valid() && active
      modifies bus
      ensures Valid() && Listened(old(bus.peer), bus.peer) && (old(Expects()) ==> Expects())
      ensures Later(old(bus.peer), atSeq) && Later(atSeq, atPending) && Later(atPending, bus.peer)
      ensures go <==> taken < atSeq.announced || atPending.pending
      ensures !go ==> atPending == bus.peer
      ensures go ==> (ready <==> taken < bus.peer.announced)
      ensures go && !ready ==> Sooner(bus.peer, old(bus.peer))
      ensures !go && old(Expects()) ==> Sooner(bus.peer, old(bus.peer))
    {
      hide Peer.InSeq, Peer.Owes, Peer.Valid, Peer.Work, Peer.Stream, EncodeAll;
      hide Elapsed, Sooner, Abreast, Later, Listened;
      go, ready := false, false;
      ghost var p := bus.peer;
      StreamBound();
      LaterSelf(p);
      atSeq, atPending := p, p;
      var up := bus.Active();
      ghost var q := bus.peer;
      Turned(p, p, q, taken);
      if !up {
        return;
      }
      var seq0 := bus.InSeq();
      Turned(p, q, bus.peer, taken);
      atSeq, atPending := bus.peer, bus.peer;
      LaterSelf(atSeq);
      if inSeq == seq0 {
        var more := bus.Pending();
        Turned(p, atSeq, bus.peer, taken);
        atPending := bus.peer;
        LaterSelf(atPending);
        if !more {
          return;
        }
      }
      go := true;
      q := bus.peer;
      var seq1 := bus.InSeq();
      Turned(p, q, bus.peer, taken);
      ready := inSeq != seq1;
    }

    /** src/comms.c:89-109. The bytes returned are exactly the next `len` bytes of the host's
        stream, whatever the peer does between the register accesses, and there are fewer than asked
        for only if no byte was waiting at the last look and then `pending` was down. */
    method Read(buffer: array<byte>, at: nat, maxlen: nat) returns (len: nat, ghost look: Peer)
      requires Valid() && 0 < maxlen && at + maxlen <= buffer.Length
      modifies this, bus, buffer
      ensures Valid() && (old(active) ==> active)
      ensures len <= maxlen && taken == old(taken) + len
      ensures !active ==> len == 0 && (!bus.peer.active || bus.magic != MAGIC)
      ensures active && len < maxlen ==> Quiet(look, bus.peer, taken)
      ensures Listened(old(bus.peer), bus.peer)
      ensures taken <= bus.peer.written <= |bus.peer.Stream()|
      ensures buffer[..] == Overlay(old(buffer[..]), at, bus.peer.Stream()[old(taken)..taken])
      ensures len == 0 && old(Expects()) && bus.magic == MAGIC ==> Sooner(bus.peer, old(bus.peer))
    {
      hide Peer.Work, Peer.Valid, Peer.Stream, InStep, Overlay, Listened, Later;
      len := 0;
      ghost var was, start, stream, p := buffer[..], taken, bus.peer.Stream(), bus.peer;
      StreamBound();
      OverlayNothing(was, at, stream[start..start]);
      look := p;
      var up := Update();
      StreamBound();
      LaterListened(p, bus.peer, taken);
      if !up {
        return;
      }
      while true
        invariant Valid() && active && bus.peer.Stream() == stream && Listened(p, bus.peer)
        invariant 0 <= len < maxlen && taken == start + len <= |stream|
        invariant buffer[..] == Overlay(was, at, stream[start..taken])
        invariant len == 0 && old(Expects()) ==> Expects()
        decreases maxlen - len, bus.peer.Work(), bus.peer.delay
      {
        ghost var q := bus.peer;
        var go, ready, atSeq, atPending := Sample();
        ListenedThen(p, q, bus.peer);
        StreamBound();
        if !go {
          look := atSeq;
          return;
        }
        if ready {
          q := bus.peer;
          var b := TakeByte();
          ListenedThen(p, q, bus.peer);
          buffer[at + len] := b;
          StreamBound();
          SliceNext(stream, start, taken - 1);
          OverlayNext(was, at, stream[start..taken - 1], b);
          len := len + 1;
          if len == maxlen {
            return;
          }
        }
      }
    }

    /** The wait at src/comms.c:124-130: it ends, and then the byte just sent is acknowledged. */
    method AwaitAck()
      requires bus.peer.Valid() && bus.peer.active
      requires |bus.peer.seen| == bus.peer.acked + 1 && outSeq == |bus.peer.seen| % 0x100
      modifies bus
      ensures Later(old(bus.peer), bus.peer) && bus.peer.acked == |bus.peer.seen|
    {
      hide Peer.Work, Peer.OutSeq, Peer.Owes, EncodeAll, AllWellFormed;
      ghost var sent := bus.peer;
      var ack := bus.OutSeq();
      AckPending(sent, bus.peer, outSeq);
      while ack != outSeq
        invariant Later(sent, bus.peer) && ack == bus.peer.OutSeq()
        decreases bus.peer.Work(), bus.peer.delay
      {
        ghost var p := bus.peer;
        AckPending(sent, p, outSeq);
        var up := bus.Active();
        if !up {
          break;
        }
        ghost var q := bus.peer;
        ack := bus.OutSeq();
        LaterTransitive(sent, p, q);
        LaterTransitive(sent, q, bus.peer);
      }
      AckPending(sent, bus.peer, outSeq);
    }

    /** The body of the loop at src/comms.c:119-132: send `b` and wait for its acknowledgement. */
    method PutByte(b: byte)
      requires Valid() && active
      modifies this`outSeq, bus
      ensures Valid()
      ensures Onward(old(bus.peer), bus.peer) && bus.peer.seen == old(bus.peer.seen) + [b]
    {
      hide EncodeAll, AllWellFormed, Peer.Work;
      ghost var mid := bus.OutArea(b);
      outSeq := (outSeq + 1) % 0x100;
      AwaitAck();
    }

    /** src/comms.c:111-135 on far memory. A negative `len` sends nothing. */
    method Write(mem: array<byte>, p: FarPtr, len: int) returns (sent: nat)
      requires Valid() && active && mem.Length == SPACE
      modifies this, bus
      ensures Valid() && active && taken == old(taken)
      ensures sent == if len < 0 then 0 else len
      ensures Onward(old(bus.peer), bus.peer)
      ensures bus.peer.seen == old(bus.peer.seen) + Load(mem[..], p, sent)
    {
      hide EncodeAll, AllWellFormed, Peer.Work;
      sent := 0;
      var up := Update();
      if !up {
        return;
      }
      while sent < len
        invariant Valid() && active && taken == old(taken)
        invariant 0 <= sent && (len < 0 ==> sent == 0) && (len >= 0 ==> sent <= len)
        invariant Onward(old(bus.peer), bus.peer)
        invariant bus.peer.seen == old(bus.peer.seen) + Load(mem[..], p, sent)
      {
        PutByte(mem[Phys(p, sent)]);
        assert Load(mem[..], p, sent + 1) == Load(mem[..], p, sent) + [mem[Phys(p, sent)]];
        sent := sent + 1;
      }
    }

    /** `comms_write` of a single near byte, as for the tail (src/main.c:56). */
    method WriteOne(b: byte) returns (sent: nat)
      requires Valid() && active
      modifies this, bus
      ensures Valid() && active && taken == old(taken) && sent == 1
      ensures Onward(old(bus.peer), bus.peer) && bus.peer.seen == old(bus.peer.seen) + [b]
    {
      hide EncodeAll, AllWellFormed, Peer.Work;
      sent := 0;
      var up := Update();
      if !up {
        return;
      }
      PutByte(b);
      sent := sent + 1;
    }
  }
}
