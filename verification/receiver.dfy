/** The receiving side of a transfer, entered on a write request: each DATA
    block that carries the next block number is written to SRAM and
    acknowledged, until a block shorter than the block size ends the
    transfer. Only a block numbered above the expected one is acknowledged
    again (the Sorcerer's Apprentice problem, section 4.2.3.1 of RFC 1123). */
module Receiver {
  import opened Base
  import Options
  import Packets
  import Sram
  import Retry

  /** A receiver waiting for the next block: where replies go (the sender of
      the latest datagram), the block size, the number of the last block
      written, the bytes written so far, the stream and the timeout count. */
  datatype State = State(
    peer: Endpoint,
    blockSize: nat,
    last: u16,
    received: nat,
    file: Sram.SramFile,
    timeouts: nat)

  /** The stream is open for writing and its cursor sits right after the
      bytes received so far. */
  predicate Inv(s: State)
  {
    && Sram.Valid(s.file)
    && s.file.state == Sram.Writing
    && s.file.cursor == s.received
    && s.timeouts <= Retry.MaxTimeouts
  }

  /** An ACK of the last block written, to the current peer. */
  function AckLast(s: State): Datagram
  {
    Datagram(s.peer, Packets.EncodeAck(s.last))
  }

  /** `ReceiveFile` up to its first wait: opens SRAM for writing, answers
      with ACK(0) or with an option acknowledgement, then sends ACK(0). A
      negotiated block size below -1 leads to an array of negative size or
      a receive buffer too small for a header, so the model stops there. */
  function Start(peer: Endpoint, blockSize: int, sram: seq<byte>): (r: Step<State>)
    requires |sram| == Sram.SramSize
    ensures r.Running? <==> blockSize >= Options.Unset
    ensures r.Running? ==>
      && Inv(r.state) && r.state.peer == peer && r.state.last == 0 && r.state.received == 0
      && r.state.timeouts == 0 && r.state.file.mem == sram
      && r.state.blockSize == (if blockSize == Options.Unset then Packets.DefaultBlockSize else blockSize)
      && |r.out| == 2
      && (forall i :: 0 <= i < 2 ==> r.out[i].peer == peer)
      && Packets.Decode(r.out[1].bytes) == Packets.Ack(0)
      && (blockSize == Options.Unset ==> Packets.Decode(r.out[0].bytes) == Packets.Ack(0))
      && (blockSize != Options.Unset ==> r.out[0].bytes == Packets.EncodeOAck(blockSize))
    ensures r.Undefined? ==> 1 <= |r.out| && r.out[0].bytes == Packets.EncodeOAck(blockSize)
  {
    var file := Sram.Open(sram, true);
    var ack := Datagram(peer, Packets.EncodeAck(0));
    if blockSize == Options.Unset then
      Running(State(peer, Packets.DefaultBlockSize, 0, 0, file, 0), [ack, ack])
    else
      var oack := Datagram(peer, Packets.EncodeOAck(blockSize));
      if blockSize >= 0 then Running(State(peer, blockSize, 0, 0, file, 0), [oack, ack])
      else if Packets.HeaderSize + blockSize >= 0 then Undefined([oack, ack])
      else Undefined([oack])
  }

  /** One wait and what the receiver does with its outcome. */
  function Step(s: State, e: Event): (r: Step<State>)
    requires Inv(s)
    ensures !r.Undefined?
    ensures r.Running? ==> Inv(r.state)
    ensures r.Aborted? ==> r.out == []
    ensures r.Running? || r.Finished? ==>
      forall i :: 0 <= i < |r.out| ==> r.out[i] == AckLast(r.state)
    ensures r.state.last == s.last || r.state.last == NextNumber(s.last)
    ensures Sram.Valid(r.state.file) && s.received <= r.state.received
    ensures r.state.file.cursor == r.state.received
    ensures forall i :: 0 <= i < Sram.SramSize && !(s.received <= i < r.state.received) ==>
      r.state.file.mem[i] == s.file.mem[i]
    ensures e.TimedOut? ==>
      if s.timeouts < Retry.MaxTimeouts
      then r == Running(s.(timeouts := s.timeouts + 1), [AckLast(s)])
      else r.Aborted? && r.failure == TransferTimedOut
    ensures e.Arrived? ==> r.state.timeouts == 0 && r.state.peer == e.datagram.peer
  {
    match Retry.ReceiveMsg(s.timeouts, e, Packets.HeaderSize + s.blockSize)
    case GaveUp(t) => Aborted(s.(timeouts := t), [], TransferTimedOut)
    case Retry(t) => Running(s.(timeouts := t), [AckLast(s)])
    case Got(d, t) =>
      var s := s.(peer := d.peer, timeouts := t);
      match Packets.Decode(d.bytes)
      case Data(block, payload) => OnData(s, block, payload)
      case Error(_, message) => Aborted(s, [], PeerError(message))
      case _ => Aborted(s, [], UnexpectedOperation)
  }

  /** A DATA packet: the expected block is written and acknowledged; one
      numbered higher re-sends the last ACK; any other is dropped. The block
      number advances before the write, so it has advanced even when the
      write is refused. */
  function OnData(s: State, block: u16, payload: seq<byte>): (r: Step<State>)
    requires Inv(s)
    ensures !r.Undefined?
    ensures r.Running? ==> Inv(r.state)
    ensures r.Aborted? ==> r.out == [] && r.state.file == s.file
    ensures block != NextNumber(s.last) ==> r.Running? && r.state == s
    ensures r.state.peer == s.peer && r.state.timeouts == s.timeouts && r.state.blockSize == s.blockSize
    ensures block == NextNumber(s.last) ==> r.state.last == block
    ensures r.state.last == s.last || r.state.last == NextNumber(s.last)
    ensures Sram.Valid(r.state.file) && r.state.file.cursor == r.state.received
    ensures !r.Aborted? && block == NextNumber(s.last) ==>
      && r.state.received == s.received + |payload|
      && r.state.file.mem[s.received..r.state.received] == payload
    ensures r.state.received == s.received || r.state.received == s.received + |payload|
    ensures forall i :: 0 <= i < Sram.SramSize && !(s.received <= i < r.state.received) ==>
      r.state.file.mem[i] == s.file.mem[i]
  {
    var next := NextNumber(s.last);
    if block != next then
      Running(s, if block > next then [AckLast(s)] else [])
    else
      var s := s.(last := next);
      if |payload| > 0 then
        match Sram.Write(s.file, payload)
        case Err(f) => Aborted(s, [], f)
        case Ok(file) => Acknowledge(s.(file := file, received := s.received + |payload|), |payload|)
      else
        Acknowledge(s, 0)
  }

  /** ACK of the block just written; a block shorter than the block size was
      the last one, and the stream is closed. */
  function Acknowledge(s: State, length: nat): (r: Step<State>)
    requires Inv(s)
    ensures r.out == [AckLast(s)]
    ensures r.Running? <==> length == s.blockSize
    ensures r.Running? ==> r.state == s
    ensures r.Finished? ==> r.state == s.(file := Sram.Close(s.file))
  {
    var out := [AckLast(s)];
    if length == s.blockSize then Running(s, out)
    else Finished(s.(file := Sram.Close(s.file)), out)
  }

  /** The receiver fed one event after another until it ends or the events
      run out; `out` collects everything it sent. */
  function Run(r: Step<State>, events: seq<Event>): (q: Session<State>)
    requires r.Running? ==> Inv(r.state)
    ensures r.out <= q.last.out
    ensures q.last.Running? ==> q.rest == []
    ensures q.last.Running? ==> Inv(q.last.state)
    ensures !r.Undefined? && Sram.Valid(r.state.file) ==>
      !q.last.Undefined? && Sram.Valid(q.last.state.file)
    decreases |events|
  {
    if events == [] || !r.Running? then Session(r, events)
    else Run(Then(r, Step(r.state, events[0])), events[1..])
  }

  /** A run consumes a prefix of the events and hands back the rest. */
  lemma {:induction false} RunConsumesPrefix(r: Step<State>, events: seq<Event>)
    requires r.Running? ==> Inv(r.state)
    ensures SuffixOf(Run(r, events).rest, events)
    decreases |events|
  {
    if events != [] && r.Running? {
      var next := Then(r, Step(r.state, events[0]));
      RunConsumesPrefix(next, events[1..]);
      var rest := Run(next, events[1..]).rest;
      assert events[1..][|events| - 1 - |rest|..] == events[|events| - |rest|..];
    }
  }

  /** A datagram that fits the receive buffer reaches the decoder whole. */
  predicate Fits(s: State, d: Datagram)
  {
    |d.bytes| <= Packets.HeaderSize + s.blockSize
  }

  /** The expected block is written under the cursor, acknowledged to its
      sender, and ends the transfer exactly when it is short. */
  lemma AcceptsExpectedBlock(s: State, d: Datagram, payload: seq<byte>)
    requires Inv(s) && Fits(s, d)
    requires Packets.Decode(d.bytes) == Packets.Data(NextNumber(s.last), payload)
    requires s.received + |payload| <= Sram.SramSize
    ensures var r := Step(s, Arrived(d));
      && (r.Running? || r.Finished?)
      && r.state.last == NextNumber(s.last)
      && r.state.received == s.received + |payload|
      && r.state.file.mem[s.received..r.state.received] == payload
      && r.out == [Datagram(d.peer, Packets.EncodeAck(NextNumber(s.last)))]
      && (r.Running? <==> |payload| == s.blockSize)
  {
    assert Retry.Truncate(d.bytes, Packets.HeaderSize + s.blockSize) == d.bytes;
  }

  /** A block other than the expected one changes neither the block number
      nor SRAM; it is acknowledged again only when numbered above the
      expected one. */
  lemma UnexpectedBlock(s: State, d: Datagram, block: u16, payload: seq<byte>)
    requires Inv(s) && Fits(s, d)
    requires Packets.Decode(d.bytes) == Packets.Data(block, payload)
    requires block != NextNumber(s.last)
    ensures var r := Step(s, Arrived(d));
      && r.Running?
      && r.state.last == s.last && r.state.file == s.file && r.state.received == s.received
      && (block > NextNumber(s.last) ==> r.out == [Datagram(d.peer, Packets.EncodeAck(s.last))])
      && (block < NextNumber(s.last) ==> r.out == [])
  {
    assert Retry.Truncate(d.bytes, Packets.HeaderSize + s.blockSize) == d.bytes;
  }

  /** A repeated copy of the last block, the sender's retransmission after a
      lost ACK, is not acknowledged a second time ... */
  lemma DuplicateNotAcked(s: State, d: Datagram, payload: seq<byte>)
    requires Inv(s) && Fits(s, d) && s.last != 0xFFFF
    requires Packets.Decode(d.bytes) == Packets.Data(s.last, payload)
    ensures Step(s, Arrived(d)).out == []
    ensures Step(s, Arrived(d)).state.file == s.file
  {
    UnexpectedBlock(s, d, s.last, payload);
  }

  /** ... except after block 65535: the expected number has wrapped to 0, so
      the plain comparison finds 65535 above it and the ACK goes out again. */
  lemma WrapDuplicateAcked(s: State, d: Datagram, payload: seq<byte>)
    requires Inv(s) && Fits(s, d) && s.last == 0xFFFF
    requires Packets.Decode(d.bytes) == Packets.Data(0xFFFF, payload)
    ensures Step(s, Arrived(d)).out == [Datagram(d.peer, Packets.EncodeAck(0xFFFF))]
  {
    UnexpectedBlock(s, d, 0xFFFF, payload);
  }

  /** An ERROR from the peer ends the transfer with its message. */
  lemma PeerErrorAborts(s: State, d: Datagram, code: u16, message: seq<byte>)
    requires Inv(s) && Fits(s, d)
    requires Packets.Decode(d.bytes) == Packets.Error(code, message)
    ensures Step(s, Arrived(d)) == Aborted(s.(peer := d.peer, timeouts := 0), [], PeerError(message))
  {
    assert Retry.Truncate(d.bytes, Packets.HeaderSize + s.blockSize) == d.bytes;
  }

  /** Any packet other than DATA or ERROR ends the transfer. */
  lemma OtherPacketAborts(s: State, d: Datagram)
    requires Inv(s) && Fits(s, d)
    requires !Packets.Decode(d.bytes).Data? && !Packets.Decode(d.bytes).Error?
    ensures Step(s, Arrived(d)) == Aborted(s.(peer := d.peer, timeouts := 0), [], UnexpectedOperation)
  {
    assert Retry.Truncate(d.bytes, Packets.HeaderSize + s.blockSize) == d.bytes;
  }

  /** The expected block that does not fit in what is left of SRAM ends the
      transfer before a byte of it is written. */
  lemma WriteBeyondSramAborts(s: State, d: Datagram, payload: seq<byte>)
    requires Inv(s) && Fits(s, d)
    requires Packets.Decode(d.bytes) == Packets.Data(NextNumber(s.last), payload)
    requires s.received + |payload| > Sram.SramSize
    ensures var r := Step(s, Arrived(d));
      r.Aborted? && r.failure == WriteOutsideSram && r.state.file == s.file && r.out == []
  {
    assert Retry.Truncate(d.bytes, Packets.HeaderSize + s.blockSize) == d.bytes;
  }

  /** Up to ten timeouts in a row each re-send the last ACK, and the
      transfer goes on. */
  lemma {:induction false} TimeoutsTolerated(s: State, out: seq<Datagram>, k: nat)
    requires Inv(s) && s.timeouts + k <= Retry.MaxTimeouts
    ensures Run(Running(s, out), Repeat(TimedOut, k)).last
         == Running(s.(timeouts := s.timeouts + k), out + Repeat(AckLast(s), k))
    decreases k
  {
    if k == 0 {
      assert out + Repeat(AckLast(s), 0) == out;
    } else {
      var events := Repeat(TimedOut, k);
      assert events[1..] == Repeat(TimedOut, k - 1);
      var t := s.(timeouts := s.timeouts + 1);
      assert Then(Running(s, out), Step(s, TimedOut)) == Running(t, out + [AckLast(s)]);
      TimeoutsTolerated(t, out + [AckLast(s)], k - 1);
      assert AckLast(t) == AckLast(s);
      assert [AckLast(s)] + Repeat(AckLast(s), k - 1) == Repeat(AckLast(s), k);
    }
  }

  /** The eleventh timeout in a row ends the transfer, after ten re-sent ACKs. */
  lemma EleventhTimeoutAborts(s: State, out: seq<Datagram>)
    requires Inv(s) && s.timeouts == 0
    ensures var q := Run(Running(s, out), Repeat(TimedOut, Retry.MaxTimeouts + 1)).last;
      && q.Aborted? && q.failure == TransferTimedOut && q.state.peer == s.peer
      && q.out == out + Repeat(AckLast(s), Retry.MaxTimeouts)
  {
    TimeoutsExhaust(s, out, Retry.MaxTimeouts);
  }

  /** Once `k` more timeouts bring the count to the limit, one further
      timeout ends the transfer. */
  lemma TimeoutsExhaust(s: State, out: seq<Datagram>, k: nat)
    requires Inv(s) && s.timeouts + k == Retry.MaxTimeouts
    ensures var q := Run(Running(s, out), Repeat(TimedOut, k + 1)).last;
      && q.Aborted? && q.failure == TransferTimedOut && q.state.peer == s.peer
      && q.out == out + Repeat(AckLast(s), k)
  {
    var t := s.(timeouts := Retry.MaxTimeouts);
    var acks := out + Repeat(AckLast(s), k);
    TimeoutsThenOneMore(s, out, k);
    TimeoutAtLimit(t, acks);
  }

  /** `k` tolerated timeouts and one more: the run reaches the last one with
      the counter at the limit and the ACK re-sent `k` times. */
  lemma TimeoutsThenOneMore(s: State, out: seq<Datagram>, k: nat)
    requires Inv(s) && s.timeouts + k == Retry.MaxTimeouts
    ensures Run(Running(s, out), Repeat(TimedOut, k + 1))
         == Run(Running(s.(timeouts := Retry.MaxTimeouts), out + Repeat(AckLast(s), k)), [TimedOut])
  {
    var ten := Repeat(TimedOut, k);
    TimeoutsTolerated(s, out, k);
    assert Repeat(TimedOut, k + 1) == ten + [TimedOut];
    RunAppend(Running(s, out), ten, [TimedOut]);
  }

  /** At the limit, a timeout ends the transfer without sending anything. */
  lemma TimeoutAtLimit(t: State, out: seq<Datagram>)
    requires Inv(t) && t.timeouts == Retry.MaxTimeouts
    ensures Run(Running(t, out), [TimedOut]).last
         == Aborted(t.(timeouts := Retry.MaxTimeouts + 1), out, TransferTimedOut)
  {
    assert Step(t, TimedOut) == Aborted(t.(timeouts := Retry.MaxTimeouts + 1), [], TransferTimedOut);
    assert Run(Running(t, out), [TimedOut]).last == Then(Running(t, out), Step(t, TimedOut));
  }

  /** A run over `a + b` that is still going after `a` continues over `b`. */
  lemma {:induction false} RunAppend(r: Step<State>, a: seq<Event>, b: seq<Event>)
    requires r.Running? ==> Inv(r.state)
    requires Run(r, a).last.Running?
    ensures Run(r, a + b) == Run(Run(r, a).last, b)
    decreases |a|
  {
    if a != [] {
      assert r.Running?;
      assert (a + b)[1..] == a[1..] + b;
      RunAppend(Then(r, Step(r.state, a[0])), a[1..], b);
    } else {
      assert a + b == b;
    }
  }

  /** The DATA packets a sender sends for `blocks`, numbered from `block`. */
  function DataEvents(peer: Endpoint, block: u16, blocks: seq<seq<byte>>): seq<Event>
    decreases |blocks|
  {
    if blocks == [] then []
    else
      var first := Arrived(Datagram(peer, Packets.EncodeData(block, blocks[0])));
      [first] + DataEvents(peer, NextNumber(block), blocks[1..])
  }

  /** ACKs of `count` blocks, numbered from `block`. */
  function Acks(peer: Endpoint, block: u16, count: nat): seq<Datagram>
    decreases count
  {
    if count == 0 then []
    else [Datagram(peer, Packets.EncodeAck(block))] + Acks(peer, NextNumber(block), count - 1)
  }

  /** Where a receiver that started in `s` stands once it has received all
      of `blocks`: finished, the blocks in SRAM right after what was there
      before them, nothing else in SRAM changed, one ACK sent per block. */
  predicate Delivered(s: State, out: seq<Datagram>, blocks: seq<seq<byte>>, q: Step<State>)
  {
    && q.Finished?
    && Sram.Valid(s.file) && Sram.Valid(q.state.file)
    && q.state.file.cursor == q.state.received == s.received + |Concat(blocks)|
    && q.state.file.mem[s.received..q.state.received] == Concat(blocks)
    && (forall i :: 0 <= i < Sram.SramSize && !(s.received <= i < q.state.received) ==>
          q.state.file.mem[i] == s.file.mem[i])
    && q.out == out + Acks(s.peer, NextNumber(s.last), |blocks|)
  }

  /** A file sent in order, block by block, ends up in SRAM right after what
      was received before it; every block is acknowledged once; the transfer
      finishes with the short block; nothing else in SRAM changes. */
  lemma {:induction false} ReceivesAll(s: State, out: seq<Datagram>, blocks: seq<seq<byte>>)
    requires Inv(s) && Cut(blocks, s.blockSize)
    requires s.received + |Concat(blocks)| <= Sram.SramSize
    ensures Delivered(s, out, blocks, Run(Running(s, out), DataEvents(s.peer, NextNumber(s.last), blocks)).last)
    ensures Run(Running(s, out), DataEvents(s.peer, NextNumber(s.last), blocks)).rest == []
    decreases |blocks|
  {
    var events := DataEvents(s.peer, NextNumber(s.last), blocks);
    var d := Datagram(s.peer, Packets.EncodeData(NextNumber(s.last), blocks[0]));
    assert events == [Arrived(d)] + events[1..];
    assert Concat(blocks) == blocks[0] + Concat(blocks[1..]);
    FirstBlock(s, blocks);
    RunFirst(Running(s, out), Arrived(d), events[1..]);
    if |blocks| == 1 {
      LastBlock(s, out, blocks);
    } else {
      var s1 := Step(s, Arrived(d)).state;
      var ack := Datagram(s.peer, Packets.EncodeAck(NextNumber(s.last)));
      CutRest(blocks, s.blockSize);
      assert events[1..] == DataEvents(s1.peer, NextNumber(s1.last), blocks[1..]);
      ReceivesAll(s1, out + [ack], blocks[1..]);
      MoreBlocks(s, s1, out, blocks, Run(Running(s1, out + [ack]), events[1..]).last);
    }
  }

  /** A cut file of one block is delivered by that block alone. */
  lemma LastBlock(s: State, out: seq<Datagram>, blocks: seq<seq<byte>>)
    requires Inv(s) && Cut(blocks, s.blockSize) && |blocks| == 1
    requires s.received + |blocks[0]| <= Sram.SramSize
    ensures Delivered(s, out, blocks,
      Then(Running(s, out), Step(s, Arrived(Datagram(s.peer, Packets.EncodeData(NextNumber(s.last), blocks[0]))))))
  {
    FirstBlock(s, blocks);
    assert Concat(blocks) == blocks[0] + Concat([]);
    assert Acks(s.peer, NextNumber(s.last), 1) == [Datagram(s.peer, Packets.EncodeAck(NextNumber(s.last)))] + [];
  }

  /** Delivering the first block and then the rest delivers the whole file. */
  lemma MoreBlocks(s: State, s1: State, out: seq<Datagram>, blocks: seq<seq<byte>>, q: Step<State>)
    requires Inv(s) && |blocks| > 1
    requires Sram.Valid(s1.file) && s1.file.cursor == s1.received
    requires s1.peer == s.peer && s1.last == NextNumber(s.last)
    requires s1.received == s.received + |blocks[0]|
    requires s1.file.mem[s.received..s1.received] == blocks[0]
    requires forall i :: 0 <= i < Sram.SramSize && !(s.received <= i < s1.received) ==>
      s1.file.mem[i] == s.file.mem[i]
    requires Concat(blocks) == blocks[0] + Concat(blocks[1..])
    requires Delivered(s1, out + [Datagram(s.peer, Packets.EncodeAck(NextNumber(s.last)))], blocks[1..], q)
    ensures Delivered(s, out, blocks, q)
  {
    Splice(s.file.mem, s1.file.mem, q.state.file.mem, s.received, s1.received, q.state.received);
    var ack := Datagram(s.peer, Packets.EncodeAck(NextNumber(s.last)));
    assert Acks(s.peer, NextNumber(s.last), |blocks|) == [ack] + Acks(s1.peer, NextNumber(s1.last), |blocks| - 1);
  }

  /** The first block of a cut file is accepted, and the receiver goes on
      exactly when more blocks follow. */
  lemma FirstBlock(s: State, blocks: seq<seq<byte>>)
    requires Inv(s) && Cut(blocks, s.blockSize)
    requires s.received + |blocks[0]| <= Sram.SramSize
    ensures var r := Step(s, Arrived(Datagram(s.peer, Packets.EncodeData(NextNumber(s.last), blocks[0]))));
      && (r.Running? <==> |blocks| > 1) && r.Finished? == (|blocks| == 1)
      && r.state.peer == s.peer && r.state.last == NextNumber(s.last)
      && r.state.received == s.received + |blocks[0]|
      && r.state.file.mem[s.received..r.state.received] == blocks[0]
      && r.out == [Datagram(s.peer, Packets.EncodeAck(NextNumber(s.last)))]
  {
    var d := Datagram(s.peer, Packets.EncodeData(NextNumber(s.last), blocks[0]));
    AcceptsExpectedBlock(s, d, blocks[0]);
  }

  /** The blocks after the first of a cut file are a cut file too. */
  lemma CutRest(blocks: seq<seq<byte>>, blockSize: nat)
    requires Cut(blocks, blockSize) && |blocks| > 1
    ensures Cut(blocks[1..], blockSize) && |blocks[0]| == blockSize
  {
    var rest := blocks[1..];
    forall i | 0 <= i < |rest| - 1
      ensures |rest[i]| == blockSize
    {
      assert rest[i] == blocks[i + 1];
    }
    assert rest[|rest| - 1] == blocks[|blocks| - 1];
  }

  /** A running receiver's run starts with its first event. */
  lemma RunFirst(r: Step<State>, e: Event, rest: seq<Event>)
    requires r.Running? && Inv(r.state)
    ensures Run(r, [e] + rest) == Run(Then(r, Step(r.state, e)), rest)
  {
    assert ([e] + rest)[1..] == rest;
  }

  /** Two writes side by side: SRAM holds both blocks, one after the other,
      and nothing else differs. */
  lemma Splice(m0: seq<byte>, m1: seq<byte>, m2: seq<byte>, a: nat, b: nat, c: nat)
    requires a <= b <= c <= |m0| == |m1| == |m2|
    requires forall i :: 0 <= i < |m0| && !(a <= i < b) ==> m1[i] == m0[i]
    requires forall i :: 0 <= i < |m0| && !(b <= i < c) ==> m2[i] == m1[i]
    ensures m2[a..c] == m1[a..b] + m2[b..c]
    ensures forall i :: 0 <= i < |m0| && !(a <= i < c) ==> m2[i] == m0[i]
  {
    assert m2[a..b] == m1[a..b];
    assert m2[a..c] == m2[a..b] + m2[b..c];
  }
}
