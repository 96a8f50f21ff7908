/** The other end of the register window: the host software and the PicoROM firmware. The firmware is
    not in this repository, so it is an environment: it may do any of the actions below at any moment,
    in any order, and is bound only by the contract that the actions spell out. The host writes whole
    commands, at any moment as well. */
module PeerContract {
  import opened Bytes
  import opened Protocol

  datatype Peer = Peer(
    queued: seq<Command>, // the commands the host has written so far, in order
    plans: seq<Command>,  // those it is going to write, each at a moment of its choosing
    written: nat,         // how many bytes it has written
    active: bool,         // register `active`
    pending: bool,        // register `pending`
    inByte: byte,         // register `in_byte`
    stored: nat,          // how many bytes have been put in `in_byte`
    announced: nat,       // how often `in_seq` was bumped
    fetched: bool,        // the byte now in `in_byte` has been read
    seen: seq<byte>,      // the `out_area` addresses that were read, in order
    acked: nat,           // how often `out_seq` was bumped
    delay: nat)           // how much longer duties may be left undone
  {
    /** Register `in_seq`: an 8-bit counter. */
    function InSeq(): byte { announced % 0x100 }

    /** Register `out_seq`: an 8-bit counter. */
    function OutSeq(): byte { acked % 0x100 }

    /** Every command the host has written or is going to write. */
    function Commands(): seq<Command> { queued + plans }

    /** The bytes of all these. */
    function Stream(): seq<byte> { EncodeAll(Commands()) }

    /** The host writes well-formed commands and nothing else. */
    ghost predicate Honest() {
      AllWellFormed(Commands()) && written == |EncodeAll(queued)|
    }

    ghost predicate Valid() {
      && Honest()
      && announced <= stored <= announced + 1
      && stored <= written <= |Stream()|
      && (stored > 0 ==> inByte == Stream()[stored - 1])
      && (stored == 0 ==> fetched)
      && acked <= |seen|
      && (!active ==> stored == 0 && seen == [])
    }

    /** The next byte may be put in place only when the last one was announced and read. */
    predicate CanPut() {
      active && stored == announced && fetched && stored < written
    }

    /** `pending` is still up though everything was announced. */
    predicate Stale() {
      pending && announced == written
    }

    /** There is something that must not be put off for ever. */
    predicate Owes() {
      !active || CanPut() || announced < stored || acked < |seen| || Stale() || plans != []
    }

    /** What is left to do: raising `active`, writing each command, three units for each byte in (one
        of them lets `pending` outlive the last announcement), one for each byte out. */
    ghost function Work(): nat {
      if !Valid() then 0
      else
        (if active then 0 else 1) + |plans| + (|Stream()| - stored) + 2 * (|Stream()| - announced)
        + (if Stale() then 1 else 0) + (|seen| - acked)
    }
  }

  datatype Act = Idle | Raise | Put | Announce | Ack | Pend(on: bool) | Write

  /** One action; one that is not enabled changes nothing. `delay` is the new patience. `pending` may
      go up only while bytes are on their way, and down at any time. */
  function Do(p: Peer, act: Act, delay: nat): (q: Peer)
    requires p.Valid()
  {
    match act
    case Idle => p
    case Raise => if p.active then p else p.(active := true, delay := delay)
    case Put =>
      if p.CanPut() then
        p.(inByte := p.Stream()[p.stored], stored := p.stored + 1, fetched := false, delay := delay)
      else p
    case Announce =>
      if p.announced < p.stored then p.(announced := p.announced + 1, delay := delay) else p
    case Ack => if p.acked < |p.seen| then p.(acked := p.acked + 1, delay := delay) else p
    case Pend(on) =>
      if !on then p.(pending := false, delay := if p.Stale() then delay else p.delay)
      else if p.announced < p.written then p.(pending := true)
      else p
    case Write => if p.plans != [] then Wrote(p, delay) else p
  }

  /** The host writes the next command: all its bytes are on their way. */
  function Wrote(p: Peer, delay: nat): Peer
    requires p.plans != []
  {
    p.(queued := p.queued + [p.plans[0]], plans := p.plans[1..],
       written := p.written + |Encode(p.plans[0])|, delay := delay)
  }

  /** The environment is no tamer than this: the window may open, a written byte may take the place of
      one that was announced and read, a byte in place may be announced, a byte sent acknowledged,
      `pending` may go up while bytes are unannounced and down at any time, and the host may write what
      it plans, all whenever they can happen. */
  lemma MayHappen(p: Peer, delay: nat)
    requires p.Valid()
    ensures !p.active ==> exists act :: Do(p, act, delay) == p.(active := true, delay := delay)
    ensures p.active && p.fetched && p.announced == p.stored < p.written ==>
              exists act :: Do(p, act, delay) == p.(inByte := EncodeAll(p.queued + p.plans)[p.stored],
                                                    stored := p.stored + 1, fetched := false, delay := delay)
    ensures p.announced < p.stored ==>
              exists act :: Do(p, act, delay) == p.(announced := p.announced + 1, delay := delay)
    ensures p.acked < |p.seen| ==> exists act :: Do(p, act, delay) == p.(acked := p.acked + 1, delay := delay)
    ensures p.announced < p.written ==> exists act :: Do(p, act, delay) == p.(pending := true)
    ensures exists act :: Do(p, act, delay).(delay := p.delay) == p.(pending := false)
    ensures p.plans != [] ==>
              exists act :: var q := Do(p, act, delay);
                q.queued == p.queued + [p.plans[0]] && q.plans == p.plans[1..] && q.seen == p.seen
                && q.stored == p.stored && q.announced == p.announced && q.acked == p.acked
  {
    hide EncodeAll, Encode, Peer.Honest, Peer.Work;
    assert !p.active ==> Do(p, Raise, delay) == p.(active := true, delay := delay);
    assert p.CanPut() ==> Do(p, Put, delay).stored == p.stored + 1;
    assert p.announced < p.stored ==> Do(p, Announce, delay).announced == p.announced + 1;
    assert p.acked < |p.seen| ==> Do(p, Ack, delay).acked == p.acked + 1;
    assert p.announced < p.written ==> Do(p, Pend(true), delay).pending;
    assert !Do(p, Pend(false), delay).pending;
    assert p.plans != [] ==> Do(p, Write, delay).plans == p.plans[1..];
  }

  /** `q` has strictly less left to do than `p`, or is closer to doing it. */
  ghost predicate Sooner(q: Peer, p: Peer) {
    q.Work() < p.Work() || (q.Work() == p.Work() && q.delay < p.delay)
  }

  ghost predicate NotSlower(q: Peer, p: Peer) {
    q.Work() < p.Work() || (q.Work() == p.Work() && q.delay <= p.delay)
  }

  /** The host went on with its plans. */
  ghost predicate Onward(p: Peer, q: Peer) {
    q.Commands() == p.Commands() && |q.plans| <= |p.plans| && p.written <= q.written
  }

  /** What the target may rely on however many actions were taken from `p` to `q`: nothing is taken
      back, an unread byte is never overwritten, at most one new byte was put in place, and the host
      went on with its plans. */
  ghost predicate Later(p: Peer, q: Peer) {
    && p.Valid() && q.Valid()
    && Onward(p, q) && q.seen == p.seen
    && p.written + |p.plans| <= q.written + |q.plans|
    && (p.active ==> q.active)
    && p.stored <= q.stored <= p.stored + 1
    && p.announced <= q.announced && p.acked <= q.acked
    && (q.stored == p.stored ==> q.fetched == p.fetched && q.inByte == p.inByte)
    && (q.stored > p.stored ==> p.fetched && !q.fetched)
    && (q.announced == p.announced && q.Stale() ==> p.Stale())
    && NotSlower(q, p)
  }

  /** Time passed: arbitrary actions were taken, and duties were not neglected for ever. */
  ghost predicate Elapsed(p: Peer, q: Peer) {
    Later(p, q) && (p.Owes() ==> Sooner(q, p))
  }

  lemma DoIsLater(p: Peer, act: Act, delay: nat)
    requires p.Valid()
    ensures Later(p, Do(p, act, delay))
  {
    hide EncodeAll, Encode, AllWellFormed;
    if act.Write? && p.plans != [] {
      WroteIsLater(p, delay);
    }
  }

  lemma WroteIsLater(p: Peer, delay: nat)
    requires p.Valid() && p.plans != []
    ensures Later(p, Wrote(p, delay)) && Sooner(Wrote(p, delay), p)
  {
    var q := Wrote(p, delay);
    WroteIsHonest(p, delay);
    hide EncodeAll, Encode, Peer.Honest;
  }

  lemma WroteIsHonest(p: Peer, delay: nat)
    requires p.Honest() && p.plans != []
    ensures var q := Wrote(p, delay);
            q.Honest() && q.Commands() == p.Commands() && q.written <= |q.Stream()|
  {
    var q := Wrote(p, delay);
    assert q.Commands() == p.Commands();
    EncodeAllSnoc(p.queued, p.plans[0]);
    EncodeAllPrefix(q.Commands(), |q.queued|);
    assert q.Commands()[..|q.queued|] == q.queued;
  }

  lemma LaterSelf(p: Peer)
    requires p.Valid()
    ensures Later(p, p)
  {
  }

  lemma LaterTransitive(p: Peer, q: Peer, r: Peer)
    requires Later(p, q) && Later(q, r)
    ensures Later(p, r) && r.Valid()
    ensures Sooner(q, p) || Sooner(r, q) ==> Sooner(r, p)
  {
  }

  /** What the host had written stays written: its commands and its bytes only grow at the end. */
  lemma OnwardExtends(p: Peer, q: Peer)
    requires Onward(p, q)
    ensures p.queued <= q.queued && EncodeAll(p.queued) <= EncodeAll(q.queued)
  {
    assert p.queued == p.Commands()[..|p.queued|];
    assert q.queued == q.Commands()[..|q.queued|];
    assert q.queued[..|p.queued|] == p.queued;
    EncodeAllPrefix(q.queued, |p.queued|);
  }

  /** The action that discharges some duty. */
  function Due(p: Peer): (act: Act)
    requires p.Valid() && p.Owes()
  {
    if !p.active then Raise
    else if p.announced < p.stored then Announce
    else if p.CanPut() then Put
    else if p.acked < |p.seen| then Ack
    else if p.plans != [] then Write
    else Pend(false)
  }

  lemma DueIsSooner(p: Peer, delay: nat)
    requires p.Valid() && p.Owes()
    ensures Later(p, Do(p, Due(p), delay)) && Sooner(Do(p, Due(p), delay), p)
  {
    DoIsLater(p, Due(p), delay);
    if Due(p) == Write {
      WroteIsLater(p, delay);
    }
  }

  /** No duty was discharged between `p` and `q`. */
  predicate Idled(p: Peer, q: Peer) {
    && q.active == p.active && |q.plans| == |p.plans| && q.stored == p.stored
    && q.announced == p.announced && q.acked == p.acked && q.Stale() == p.Stale()
  }

  /** Either a duty was discharged, or it is still there and can be waited for or discharged. */
  lemma Neglected(p: Peer, q: Peer)
    requires Later(p, q)
    ensures !Idled(p, q) ==> Sooner(q, p)
    ensures Idled(p, q) && p.Owes() ==> q.Owes()
    ensures q.delay > 0 ==> Later(p, q.(delay := q.delay - 1)) && Sooner(q.(delay := q.delay - 1), p)
  {
    hide EncodeAll, AllWellFormed;
  }

  lemma PlanKeepsValid(p: Peer, c: Command)
    requires p.Valid() && WellFormed(c)
    ensures p.(plans := p.plans + [c]).Valid()
  {
    hide EncodeAll, Encode, AllWellFormed, WellFormed;
    var q := p.(plans := p.plans + [c]);
    assert q.Commands() == p.Commands() + [c];
    EncodeAllSnoc(p.Commands(), c);
    AllWellFormedSnoc(p.Commands(), c);
    assert q.Stream() == p.Stream() + Encode(c);
  }

  /** The register window. Between any two accesses of the target the peer moves. */
  class Bus {
    const magic: seq<byte>
    var peer: Peer

    constructor (magic: seq<byte>, delay: nat)
      ensures this.magic == magic
      ensures peer == Peer([], [], 0, false, false, 0, 0, 0, true, [], 0, delay) && peer.Valid()
    {
      this.magic := magic;
      peer := Peer([], [], 0, false, false, 0, 0, 0, true, [], 0, delay);
    }

    /** Any number of arbitrary actions; a duty left alone uses up patience. */
    method Elapse()
      requires peer.Valid()
      modifies this
      ensures Elapsed(old(peer), peer)
    {
      hide Peer.Valid, Peer.Owes, Peer.Work, Later, Sooner, Do, Due, Idled, EncodeAll;
      var before := peer;
      LaterSelf(before);
      var n: nat := *;
      while n > 0
        invariant peer.Valid() && Later(before, peer)
      {
        var act: Act := *;
        var delay: nat := *;
        DoIsLater(peer, act, delay);
        LaterTransitive(before, peer, Do(peer, act, delay));
        peer := Do(peer, act, delay);
        n := n - 1;
      }
      Neglected(before, peer);
      if before.Owes() && Idled(before, peer) {
        if peer.delay > 0 {
          peer := peer.(delay := peer.delay - 1);
        } else {
          var delay: nat := *;
          DueIsSooner(peer, delay);
          LaterTransitive(before, peer, Do(peer, Due(peer), delay));
          peer := Do(peer, Due(peer), delay);
        }
      }
    }

    /** The host software decides what to write next (`pico.write`, bin/comms.py:29). The bytes go out
        at some later moment, between any two accesses of the target. */
    method Plan(c: Command)
      requires peer.Valid() && WellFormed(c)
      modifies this
      ensures peer == old(peer).(plans := old(peer).plans + [c]) && peer.Valid()
    {
      var before := peer;
      peer := peer.(plans := peer.plans + [c]);
      PlanKeepsValid(before, c);
    }

    method Active() returns (v: bool)
      requires peer.Valid()
      modifies this
      ensures Elapsed(old(peer), peer) && v == peer.active
    {
      Elapse();
      v := peer.active;
    }

    method Pending() returns (v: bool)
      requires peer.Valid()
      modifies this
      ensures Elapsed(old(peer), peer) && v == peer.pending
    {
      Elapse();
      v := peer.pending;
    }

    method InSeq() returns (v: byte)
      requires peer.Valid()
      modifies this
      ensures Elapsed(old(peer), peer) && v == peer.InSeq() == peer.announced % 256
    {
      Elapse();
      v := peer.InSeq();
    }

    method OutSeq() returns (v: byte)
      requires peer.Valid()
      modifies this
      ensures Elapsed(old(peer), peer) && v == peer.OutSeq() == peer.acked % 256
    {
      Elapse();
      v := peer.OutSeq();
    }

    /** Reading `in_byte` frees it for the next byte, which the peer may put and announce at once. */
    method InByte() returns (b: byte, ghost mid: Peer)
      requires peer.Valid()
      modifies this
      ensures Elapsed(old(peer), mid) && b == mid.inByte
      ensures Elapsed(mid.(fetched := true), peer) && NotSlower(peer, old(peer))
    {
      hide EncodeAll, AllWellFormed;
      Elapse();
      mid := peer;
      b := peer.inByte;
      peer := peer.(fetched := true);
      assert peer.Work() == mid.Work();
      hide Peer.Work;
      Elapse();
    }

    /** Reading `out_area[b]` tells the peer `b`, once it listens. */
    method OutArea(b: byte) returns (ghost mid: Peer)
      requires peer.Valid()
      modifies this
      ensures Elapsed(old(peer), mid)
      ensures mid.active ==> peer == mid.(seen := mid.seen + [b])
      ensures !mid.active ==> peer == mid
    {
      hide EncodeAll, AllWellFormed;
      Elapse();
      mid := peer;
      if peer.active {
        peer := peer.(seen := peer.seen + [b]);
      }
    }
  }
}
