/** Which payload sizes let a command of src/main.c come to its end. */
module Shapes {
  import opened Bytes
  import opened Memory
  import opened Protocol
  import opened Phases

  // ----- The machine on any payload

  /** What holds of the counters after a processing step, whatever the command. */
  predicate Sane(s: CmdState) {
    && s.cmd != CMD_IDLE && |s.buffer| == BUFFER_SIZE
    && s.bytesAvail <= BUFFER_SIZE && s.bytesConsumed == Takes(s.cmd, s.bytesAvail)
    && s.totalRead == s.totalConsumed + s.bytesAvail && s.totalRead <= s.totalBytes
  }

  /** How many buffered bytes the processing step left alone. */
  function Unused(s: CmdState): nat
    requires Sane(s)
  {
    s.bytesAvail - s.bytesConsumed
  }

  /** The next poll does not end the command and may find these bytes (src/main.c:54, 94-99). */
  predicate MayPoll(s: CmdState, data: seq<byte>) {
    && Sane(s) && s.totalConsumed + s.bytesConsumed != s.totalBytes
    && s.totalRead + |data| <= s.totalBytes && Unused(s) + |data| <= BUFFER_SIZE
  }

  /** One poll of a command at hand: shift, fill with what arrived, process, by the functions that
      `Target.Shift`, `Target.Fill` and the processing methods are proved to follow. */
  function Poll(s: CmdState, data: seq<byte>): (t: CmdState)
    requires MayPoll(s, data)
    ensures Sane(t)
  {
    var shifted := Shifted(s, CopyAscending(s.buffer, 0, s.bytesConsumed, s.bytesAvail - s.bytesConsumed));
    var filled := Filled(shifted, data);
    filled.(bytesConsumed := Takes(filled.cmd, filled.bytesAvail))
  }

  /** The polls of a command can find these bytes, and none of them ends it. */
  predicate MayRun(s: CmdState, chunks: seq<seq<byte>>)
    decreases |chunks|, 0
  {
    if chunks == [] then Sane(s)
    else
      var before := chunks[..|chunks| - 1];
      MayRun(s, before) && MayPoll(After(s, before), chunks[|chunks| - 1])
  }

  /** The machine after these polls. */
  function After(s: CmdState, chunks: seq<seq<byte>>): (t: CmdState)
    requires MayRun(s, chunks)
    ensures Sane(t)
    decreases |chunks|, 1
  {
    if chunks == [] then s else Poll(After(s, chunks[..|chunks| - 1]), chunks[|chunks| - 1])
  }

  /** A command just started (src/main.c:79-87). */
  function Started(op: byte, arg0: uint32, arg1: uint32, total: uint16, buffer: seq<byte>): (s: CmdState) {
    CmdState(op, arg0, arg1, total, 0, 0, 0, 0, buffer)
  }

  /** Bytes are left over, and either no more will come or there is no room for more. */
  predicate Hung(s: CmdState) {
    Sane(s) && Unused(s) > 0 && (s.totalRead == s.totalBytes || Unused(s) == BUFFER_SIZE)
  }

  /** A command that hangs hangs for ever: later polls find nothing, use up nothing, and never reach the
      end (src/main.c:54), and there is always another. */
  lemma {:induction false} HungForEver(s: CmdState, chunks: seq<seq<byte>>)
    requires Hung(s) && MayRun(s, chunks)
    ensures var t := After(s, chunks);
            && Hung(t) && t.cmd == s.cmd && t.totalBytes == s.totalBytes && t.totalRead == s.totalRead
            && t.totalConsumed + t.bytesConsumed == s.totalConsumed + s.bytesConsumed < s.totalBytes
            && MayPoll(t, []) && forall data :: MayPoll(t, data) ==> data == []
    ensures forall i :: 0 <= i < |chunks| ==> chunks[i] == []
  {
    if chunks != [] {
      hide CopyAscending, Overlay;
      HungForEver(s, chunks[..|chunks| - 1]);
      forall i | 0 <= i < |chunks|
        ensures chunks[i] == []
      {
        assert i < |chunks| - 1 ==> chunks[..|chunks| - 1][i] == chunks[i];
      }
    }
  }

  /** The payload sizes with which a command always ends. */
  predicate GoodSize(op: byte, total: uint16) {
    if IsRead(op) then total == 0
    else if op == CMD_WRITE_WORDS then total % 2 == 0
    else if op == CMD_FILL_WORDS then total == 0 || total == 2
    else true
  }

  ghost predicate CanHang(s: CmdState) {
    exists chunks :: MayRun(s, chunks) && Hung(After(s, chunks))
  }

  /** Some way of cutting the payload leaves the command hanging exactly when its size is not good:
      reads with a payload, odd word writes, and word fills of anything but one word. */
  lemma HangsIff(op: byte, arg0: uint32, arg1: uint32, total: uint16, buffer: seq<byte>)
    requires op != CMD_IDLE && |buffer| == BUFFER_SIZE
    ensures CanHang(Started(op, arg0, arg1, total, buffer)) <==> !GoodSize(op, total)
  {
    var s := Started(op, arg0, arg1, total, buffer);
    if GoodSize(op, total) {
      forall chunks | MayRun(s, chunks)
        ensures !Hung(After(s, chunks))
      {
        CountersAre(s, chunks);
        GoodSizeFlows(op, total, Sizes(chunks));
      }
    } else {
      BadSizeSticks(s);
    }
  }

  // ----- Only the sizes of the chunks matter

  function Sizes(chunks: seq<seq<byte>>): (ns: seq<nat>)
    ensures |ns| == |chunks|
  {
    if chunks == [] then [] else Sizes(chunks[..|chunks| - 1]) + [|chunks[|chunks| - 1]|]
  }

  /** Bytes left in the buffer after payload chunks of these sizes, each followed by a processing
      step: what `Takes` does not take stays. */
  function Left(op: byte, sizes: seq<nat>): (n: nat) {
    if sizes == [] then 0
    else
      var avail := Left(op, sizes[..|sizes| - 1]) + sizes[|sizes| - 1];
      avail - Takes(op, avail)
  }

  function Sum(sizes: seq<nat>): nat {
    if sizes == [] then 0 else Sum(sizes[..|sizes| - 1]) + sizes[|sizes| - 1]
  }

  /** Sizes that the polls of an unfinished command can find: no more than is missing or fits. */
  predicate Possible(op: byte, total: uint16, sizes: seq<nat>) {
    sizes != [] ==>
      var before, n := sizes[..|sizes| - 1], sizes[|sizes| - 1];
      && Possible(op, total, before)
      && (Sum(before) != total || Left(op, before) > 0)
      && Sum(before) + n <= total && Left(op, before) + n <= BUFFER_SIZE
  }

  lemma PollCounts(s: CmdState, data: seq<byte>)
    requires Sane(s)
    ensures MayPoll(s, data) <==>
              && (s.totalRead != s.totalBytes || Unused(s) > 0)
              && s.totalRead + |data| <= s.totalBytes && Unused(s) + |data| <= BUFFER_SIZE
    ensures MayPoll(s, data) ==>
              var t, avail := Poll(s, data), Unused(s) + |data|;
              && t.cmd == s.cmd && t.totalBytes == s.totalBytes && t.totalRead == s.totalRead + |data|
              && Unused(t) == avail - Takes(s.cmd, avail)
  {
    hide CopyAscending, Overlay, Takes;
  }

  /** The counters of the machine are functions of the sizes, and so is what polls are possible. */
  lemma {:induction false} CountersAre(s: CmdState, chunks: seq<seq<byte>>)
    requires s == Started(s.cmd, s.arg0, s.arg1, s.totalBytes, s.buffer) && Sane(s)
    ensures MayRun(s, chunks) <==> Possible(s.cmd, s.totalBytes, Sizes(chunks))
    ensures MayRun(s, chunks) ==>
              var t := After(s, chunks);
              && t.cmd == s.cmd && t.totalBytes == s.totalBytes
              && Unused(t) == Left(s.cmd, Sizes(chunks)) && t.totalRead == Sum(Sizes(chunks))
  {
    if chunks != [] {
      hide Sane, MayPoll, Poll, Takes, Unused, Possible, MayRun, After, Left, Sum, Sizes;
      var before, data := chunks[..|chunks| - 1], chunks[|chunks| - 1];
      assert chunks == before + [data];
      CountersAre(s, before);
      RunNextPoll(s, before, data);
      SizesNext(s.cmd, s.totalBytes, before, data);
      if MayRun(s, before) {
        PollCounts(After(s, before), data);
      }
    } else {
      hide Takes;
    }
  }

  lemma RunNextPoll(s: CmdState, before: seq<seq<byte>>, data: seq<byte>)
    ensures MayRun(s, before + [data]) <==> MayRun(s, before) && MayPoll(After(s, before), data)
    ensures MayRun(s, before + [data]) ==> After(s, before + [data]) == Poll(After(s, before), data)
  {
    hide MayPoll, Poll, Sane;
    assert (before + [data])[..|before|] == before;
  }

  lemma SizesNext(op: byte, total: uint16, before: seq<seq<byte>>, data: seq<byte>)
    ensures var ns, avail := Sizes(before), Left(op, Sizes(before)) + |data|;
            && (Possible(op, total, Sizes(before + [data])) <==>
                  && Possible(op, total, ns) && (Sum(ns) != total || Left(op, ns) > 0)
                  && Sum(ns) + |data| <= total && Left(op, ns) + |data| <= BUFFER_SIZE)
            && Sum(Sizes(before + [data])) == Sum(ns) + |data|
            && Left(op, Sizes(before + [data])) == avail - Takes(op, avail)
  {
    hide Takes;
    assert (before + [data])[..|before|] == before;
    assert Sizes(before + [data]) == Sizes(before) + [|data|];
    assert (Sizes(before) + [|data|])[..|before|] == Sizes(before);
  }

  lemma {:induction false} GoodSizeFlows(op: byte, total: uint16, sizes: seq<nat>)
    requires GoodSize(op, total) && Possible(op, total, sizes)
    ensures Sum(sizes) <= total
    ensures Left(op, sizes) == if op == CMD_WRITE_WORDS || op == CMD_FILL_WORDS then Sum(sizes) % 2 else 0
  {
    if sizes != [] {
      GoodSizeFlows(op, total, sizes[..|sizes| - 1]);
    }
  }

  /** These sizes are possible, come to `sum` bytes and leave `left` of them. */
  predicate Fed(op: byte, total: uint16, sizes: seq<nat>, sum: nat, left: nat) {
    Possible(op, total, sizes) && Sum(sizes) == sum && Left(op, sizes) == left
  }

  lemma NextChunk(op: byte, total: uint16, sizes: seq<nat>, sum: nat, left: nat, n: nat)
    requires Fed(op, total, sizes, sum, left) && 0 < n && left + n <= BUFFER_SIZE && sum + n <= total
    ensures Fed(op, total, sizes + [n], sum + n, left + n - Takes(op, left + n))
  {
    assert (sizes + [n])[..|sizes|] == sizes;
  }

  /** `n` single bytes after `first`. */
  function WithOnes(first: seq<nat>, n: nat): seq<nat> {
    if n == 0 then first else WithOnes(first, n - 1) + [1]
  }

  lemma OneMore(op: byte, n: nat)
    requires op == CMD_WRITE_WORDS || op == CMD_FILL_WORDS
    ensures n % 2 + 1 - Takes(op, n % 2 + 1) == (n + 1) % 2
  {
  }

  /** Fed one byte at a time a word command takes every second one. */
  lemma {:induction false} OnesLeft(op: byte, total: uint16, first: seq<nat>, sum: nat, n: nat)
    requires op == CMD_WRITE_WORDS || op == CMD_FILL_WORDS
    requires Fed(op, total, first, sum, 0) && sum + n <= total
    ensures Fed(op, total, WithOnes(first, n), sum + n, n % 2)
  {
    hide Fed, Takes;
    if n > 0 {
      OneMore(op, n - 1);
      OnesLeft(op, total, first, sum, n - 1);
      NextChunk(op, total, WithOnes(first, n - 1), sum + (n - 1), (n - 1) % 2, 1);
    }
  }

  lemma BadSizeSticks(s: CmdState)
    requires s == Started(s.cmd, s.arg0, s.arg1, s.totalBytes, s.buffer) && Sane(s)
    requires !GoodSize(s.cmd, s.totalBytes)
    ensures CanHang(s)
  {
    var op, total := s.cmd, s.totalBytes;
    if IsRead(op) {
      var n := if total < BUFFER_SIZE then total else BUFFER_SIZE;
      NextChunk(op, total, [], 0, 0, n);
      FedHangs(s, [] + [n], n, n);
    } else if total % 2 == 1 {
      OnesLeft(op, total, [], 0, total);
      FedHangs(s, WithOnes([], total), total, 1);
    } else {
      NextChunk(op, total, [], 0, 0, 3);
      OnesLeft(op, total, [] + [3], 3, total - 3);
      FedHangs(s, WithOnes([] + [3], total - 3), total, 1);
    }
  }

  /** Chunks of zeros of these sizes. */
  function Zeros(sizes: seq<nat>): (chunks: seq<seq<byte>>)
    ensures |chunks| == |sizes|
  {
    if sizes == [] then [] else Zeros(sizes[..|sizes| - 1]) + [seq(sizes[|sizes| - 1], _ => 0)]
  }

  lemma {:induction false} SizesOfZeros(sizes: seq<nat>)
    ensures Sizes(Zeros(sizes)) == sizes
  {
    if sizes != [] {
      var before := sizes[..|sizes| - 1];
      SizesOfZeros(before);
      assert Zeros(sizes)[..|sizes| - 1] == Zeros(before);
    }
  }

  lemma FedHangs(s: CmdState, sizes: seq<nat>, sum: nat, left: nat)
    requires s == Started(s.cmd, s.arg0, s.arg1, s.totalBytes, s.buffer) && Sane(s)
    requires Fed(s.cmd, s.totalBytes, sizes, sum, left)
    requires 0 < left && (sum == s.totalBytes || left == BUFFER_SIZE)
    ensures CanHang(s)
  {
    SizesOfZeros(sizes);
    CountersAre(s, Zeros(sizes));
    assert Hung(After(s, Zeros(sizes)));
  }
}
