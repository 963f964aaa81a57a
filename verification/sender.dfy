/** The sending side of a transfer, entered on a read request: SRAM is read
    block by block from its start, each block is sent as DATA and sent again
    until an ACK with its number comes back, and the transfer ends once a
    block shorter than the block size has been acknowledged. */
module Sender {
  import opened Base
  import Options
  import Packets
  import Sram
  import Retry

  /** A sender waiting for the ACK of block `last`: where it sends (the
      sender of the latest datagram), the block size, the length of the
      block in flight, the DATA packet it retransmits, how many blocks were
      acknowledged, the stream and the timeout count. */
  datatype State = State(
    peer: Endpoint,
    blockSize: nat,
    last: u16,
    length: nat,
    buffer: seq<byte>,
    acked: nat,
    file: Sram.SramFile,
    timeouts: nat)

  /** Where the `k`-th block of the file starts: `k` blocks in, or the end of
      SRAM. */
  function Offset(k: nat, blockSize: nat): (n: nat)
    ensures n <= Sram.SramSize
  {
    Min(k * blockSize, Sram.SramSize)
  }

  /** The bytes of the block in flight. */
  function Block(s: State): seq<byte>
    requires Sram.Valid(s.file) && Offset(s.acked, s.blockSize) <= s.file.cursor
  {
    s.file.mem[Offset(s.acked, s.blockSize)..s.file.cursor]
  }

  /** The block in flight is the one after the acknowledged ones: it ends
      where the stream's cursor stands, and its number is the count of blocks
      sent, modulo 2^16. */
  predicate InFlight(s: State)
  {
    && Sram.Valid(s.file)
    && s.file.state == Sram.Reading
    && s.timeouts <= Retry.MaxTimeouts
    && s.file.cursor == Offset(s.acked + 1, s.blockSize)
    && Offset(s.acked, s.blockSize) <= s.file.cursor
    && s.length == s.file.cursor - Offset(s.acked, s.blockSize)
    && s.last == (s.acked + 1) % 0x1_0000
  }

  /** What holds between waits as SendFile is written: the block in flight is
      in place, and the buffer is as long as its DATA packet, whatever the
      datagrams received since have left in it. */
  predicate Sending(s: State)
  {
    InFlight(s) && |s.buffer| == Packets.HeaderSize + s.length
  }

  /** The block in flight is in place and the buffer holds it as a DATA
      packet, as it does right after the block was read. */
  predicate Inv(s: State)
  {
    InFlight(s) && s.buffer == Packets.EncodeData(s.last, Block(s))
  }

  /** The packet a retransmission sends. */
  function Resend(s: State): Datagram
  {
    Datagram(s.peer, s.buffer)
  }

  /** The next turn of the outer loop: the next block number, the next
      block read into the buffer behind the DATA header, and its first
      transmission. */
  function NextBlock(s: State): (r: Step<State>)
    requires Sram.Valid(s.file)
    ensures !r.Undefined?
    ensures r.Running? <==> s.file.state == Sram.Reading
    ensures r.Aborted? ==> r.failure == IllegalState && r.out == []
    ensures r.state.peer == s.peer && r.state.blockSize == s.blockSize
    ensures r.state.acked == s.acked && r.state.timeouts == s.timeouts
    ensures r.Running? ==>
      && r.state.last == NextNumber(s.last)
      && r.state.file.mem == s.file.mem
      && r.state.length == r.state.file.cursor - s.file.cursor
      && r.state.length == Min(s.blockSize, Sram.SramSize - s.file.cursor)
      && r.out == [Resend(r.state)]
      && Packets.Decode(r.state.buffer)
         == Packets.Data(r.state.last, s.file.mem[s.file.cursor..r.state.file.cursor])
  {
    var last := NextNumber(s.last);
    match Sram.Read(s.file, s.blockSize)
    case Err(f) => Aborted(s.(last := last), [], f)
    case Ok((file, data)) =>
      var buffer := Packets.EncodeData(last, data);
      var s := s.(last := last, length := |data|, buffer := buffer, file := file);
      Running(s, [Resend(s)])
  }

  /** `SendFile` up to its first wait: the option acknowledgement when a
      block size was negotiated, SRAM opened for reading, and DATA 1 sent
      straight away. A negotiated block size below -1 makes the buffer too
      small for its own header, so the model stops there. */
  function Start(peer: Endpoint, blockSize: int, sram: seq<byte>): (r: Step<State>)
    requires |sram| == Sram.SramSize
    ensures r.Running? <==> blockSize >= Options.Unset
    ensures r.Running? ==>
      && Inv(r.state) && r.state.peer == peer && r.state.acked == 0 && r.state.last == 1
      && r.state.timeouts == 0 && r.state.file.mem == sram
      && r.state.blockSize == (if blockSize == Options.Unset then Packets.DefaultBlockSize else blockSize)
      && r.out == (if blockSize == Options.Unset then [] else [Datagram(peer, Packets.EncodeOAck(blockSize))])
                  + [Resend(r.state)]
      && Packets.Decode(r.state.buffer)
         == Packets.Data(1, sram[..Min(r.state.blockSize, Sram.SramSize)])
    ensures r.Undefined? ==> r.out == [Datagram(peer, Packets.EncodeOAck(blockSize))]
  {
    var oack := if blockSize == Options.Unset then [] else [Datagram(peer, Packets.EncodeOAck(blockSize))];
    var size := if blockSize == Options.Unset then Packets.DefaultBlockSize else blockSize;
    if size < 0 then Undefined(oack)
    else
      FirstBlockSent(peer, size, sram, oack);
      Then(Running(Opened(peer, size, sram), oack), NextBlock(Opened(peer, size, sram)))
  }

  /** A sender that has opened SRAM for reading and sent nothing yet. */
  function Opened(peer: Endpoint, blockSize: nat, sram: seq<byte>): State
    requires |sram| == Sram.SramSize
  {
    State(peer, blockSize, 0, blockSize, [], 0, Sram.Open(sram, false), 0)
  }

  /** Opening SRAM and reading the first block sends DATA 1 with the first
      `blockSize` bytes of SRAM, or all of it when it is smaller. */
  lemma FirstBlockSent(peer: Endpoint, blockSize: nat, sram: seq<byte>, sent: seq<Datagram>)
    requires |sram| == Sram.SramSize
    ensures var r := Then(Running(Opened(peer, blockSize, sram), sent), NextBlock(Opened(peer, blockSize, sram)));
      && r.Running? && Inv(r.state) && r.state.peer == peer && r.state.acked == 0 && r.state.last == 1
      && r.state.timeouts == 0 && r.state.file.mem == sram && r.state.blockSize == blockSize
      && r.out == sent + [Resend(r.state)]
      && Packets.Decode(r.state.buffer) == Packets.Data(1, sram[..Min(blockSize, Sram.SramSize)])
  {
    var s := Opened(peer, blockSize, sram);
    OffsetNext(0, blockSize);
    var r := NextBlock(s);
    assert r.state.file.cursor == Min(blockSize, Sram.SramSize);
    assert Block(r.state) == sram[..Min(blockSize, Sram.SramSize)];
  }

  /** What SendFile's receive does to the buffer that holds the DATA packet
      it retransmits: the datagram's bytes replace the front of it. Only the
      first `|buffer|` bytes are ever sent again. */
  function Overlay(buffer: seq<byte>, received: seq<byte>): (r: seq<byte>)
    ensures |r| == |buffer|
    ensures |received| <= |buffer| ==> r[..|received|] == received && r[|received|..] == buffer[|received|..]
    ensures |received| >= |buffer| ==> r == received[..|buffer|]
  {
    if |received| >= |buffer| then received[..|buffer|]
    else received + buffer[|received|..]
  }

  /** The bytes SendFile reads a packet from after a receive: the datagram,
      then whatever of the previous packet it did not overwrite. A datagram
      too short for a header has the rest of its header read from there. */
  function Seen(buffer: seq<byte>, received: seq<byte>): (r: seq<byte>)
    ensures received <= r
    ensures |received| < |buffer| ==> r == received + buffer[|received|..]
    ensures |received| >= |buffer| ==> r == received
  {
    if |received| < |buffer| then received + buffer[|received|..] else received
  }

  /** One wait of SendFile and what it does with the outcome, as written:
      the datagram received lands in the buffer that holds the DATA
      packet, the packet is read from that buffer, and a retransmission sends
      whatever the buffer then holds. */
  function StepAsWritten(s: State, e: Event): (r: Step<State>)
    requires Sram.Valid(s.file)
    ensures !r.Undefined?
    ensures Sram.Valid(r.state.file) && r.state.file.mem == s.file.mem
    ensures r.state.blockSize == s.blockSize
    ensures r.state.acked == s.acked || r.state.acked == s.acked + 1
    ensures r.Running? ==> r.out == [Resend(r.state)]
    ensures r.Aborted? || r.Finished? ==> r.out == []
    ensures e.TimedOut? ==>
      if s.timeouts < Retry.MaxTimeouts
      then r == Running(s.(timeouts := s.timeouts + 1), [Resend(s)])
      else r.Aborted? && r.failure == TransferTimedOut
    ensures e.Arrived? ==> r.state.timeouts == 0 && r.state.peer == e.datagram.peer
  {
    match Retry.ReceiveMsg(s.timeouts, e, Packets.HeaderSize + s.blockSize)
    case GaveUp(t) => Aborted(s.(timeouts := t), [], TransferTimedOut)
    case Retry(t) => Running(s.(timeouts := t), [Resend(s)])
    case Got(d, t) =>
      var u := s.(peer := d.peer, timeouts := t, buffer := Overlay(s.buffer, d.bytes));
      OnPacket(u, Packets.Decode(Seen(s.buffer, d.bytes)))
  }

  /** A datagram read while waiting for an ACK: the awaited ACK moves on,
      another ACK retransmits, an ERROR or anything else ends the transfer. */
  function OnPacket(s: State, p: Packets.Packet): (r: Step<State>)
    requires Sram.Valid(s.file)
    ensures !r.Undefined?
    ensures r.state.file.mem == s.file.mem
    ensures r.state.peer == s.peer && r.state.blockSize == s.blockSize && r.state.timeouts == s.timeouts
    ensures r.state.acked == s.acked || r.state.acked == s.acked + 1
    ensures r.state.acked == s.acked + 1 <==> p == Packets.Ack(s.last)
    ensures p.Ack? && p.block != s.last ==> r == Running(s, [Resend(s)])
    ensures p.Error? ==> r == Aborted(s, [], PeerError(p.message))
    ensures !p.Ack? && !p.Error? ==> r == Aborted(s, [], UnexpectedOperation)
  {
    match p
    case Ack(block) =>
      if block != s.last then Running(s, [Resend(s)])
      else Acked(s.(acked := s.acked + 1))
    case Error(_, message) => Aborted(s, [], PeerError(message))
    case _ => Aborted(s, [], UnexpectedOperation)
  }

  /** The ACK of the block in flight: the next block goes out, or, after a
      short block, the stream is closed and the transfer is over. */
  function Acked(s: State): (r: Step<State>)
    requires Sram.Valid(s.file)
    ensures !r.Undefined?
    ensures r.state.file.mem == s.file.mem
    ensures r.state.peer == s.peer && r.state.blockSize == s.blockSize
    ensures r.state.acked == s.acked && r.state.timeouts == s.timeouts
    ensures r.Finished? <==> s.length != s.blockSize
    ensures r.Finished? ==> r.out == [] && r.state.file.state == Sram.Closed
  {
    if s.length == s.blockSize then NextBlock(s)
    else Finished(s.(file := Sram.Close(s.file)), [])
  }

  /** After the awaited ACK the sender moves on to the next stretch of SRAM,
      or finishes because a short block can only be the end of SRAM. */
  lemma AckedMoves(s: State)
    requires InFlight(s)
    ensures Moves(s, Acked(s.(acked := s.acked + 1)))
  {
    var t := s.(acked := s.acked + 1);
    if s.length == s.blockSize {
      NextBlockMoves(s);
    } else {
      OffsetNext(s.acked, s.blockSize);
      assert Offset(t.acked, s.blockSize) == Sram.SramSize;
    }
  }

  /** A full block acknowledged: the next block is the next stretch of SRAM. */
  lemma NextBlockMoves(s: State)
    requires InFlight(s) && s.length == s.blockSize
    ensures var r := NextBlock(s.(acked := s.acked + 1));
      r.Running? && Inv(r.state) && r.out == [Resend(r.state)] && r.state.acked == s.acked + 1
  {
    var t := s.(acked := s.acked + 1);
    OffsetNext(t.acked, s.blockSize);
    var r := NextBlock(t);
    NumberCount(t.acked);
    assert r.state.file.cursor == Offset(t.acked + 1, s.blockSize);
    assert Block(r.state) == s.file.mem[s.file.cursor..r.state.file.cursor];
  }

  /** How one event moves a sender from `s` to `r`, as SendFile is written: a
      running sender is still on the next stretch of SRAM and has just sent
      what its buffer holds; it ends with nothing more to send; it finishes
      only once all of SRAM has been acknowledged. */
  predicate Advances(s: State, r: Step<State>)
  {
    && !r.Undefined?
    && (r.Running? ==> Sending(r.state) && r.out == [Resend(r.state)])
    && (r.Aborted? || r.Finished? ==> r.out == [])
    && (r.state.acked == s.acked || r.state.acked == s.acked + 1)
    && (r.Finished? ==> r.state.acked == s.acked + 1 && Offset(r.state.acked, s.blockSize) == Sram.SramSize)
  }

  /** `Advances`, and what a running sender sent is the DATA packet of the
      block in flight. */
  predicate Moves(s: State, r: Step<State>)
  {
    Advances(s, r) && (r.Running? ==> Inv(r.state))
  }

  /** As SendFile is written, the sender keeps to SRAM block by block whatever
      arrives: only the packet it retransmits can be spoiled. */
  lemma WrittenAdvances(s: State, e: Event)
    requires Sending(s)
    ensures Advances(s, StepAsWritten(s, e))
  {
    if e.Arrived? {
      var w := Retry.Truncate(e.datagram.bytes, Packets.HeaderSize + s.blockSize);
      var u := s.(peer := e.datagram.peer, timeouts := 0, buffer := Overlay(s.buffer, w));
      OnPacketAdvances(u, Packets.Decode(Seen(s.buffer, w)));
      Arrival(s, e.datagram);
    }
  }

  /** A datagram that arrives is read from the buffer it overwrote, and
      replies go to its sender from then on. */
  lemma Arrival(s: State, d: Datagram)
    requires Sram.Valid(s.file)
    ensures var w := Retry.Truncate(d.bytes, Packets.HeaderSize + s.blockSize);
      StepAsWritten(s, Arrived(d))
      == OnPacket(s.(peer := d.peer, timeouts := 0, buffer := Overlay(s.buffer, w)), Packets.Decode(Seen(s.buffer, w)))
  {
  }

  /** Whatever packet the sender reads, it keeps to SRAM block by block. */
  lemma OnPacketAdvances(s: State, p: Packets.Packet)
    requires Sending(s)
    ensures Advances(s, OnPacket(s, p))
  {
    if p == Packets.Ack(s.last) {
      AckedMoves(s);
    }
  }

  /** With the DATA packet intact in the buffer, whatever packet the sender
      reads, what it sends next is a DATA packet of the block in flight. */
  lemma OnPacketMoves(s: State, p: Packets.Packet)
    requires Inv(s)
    ensures Moves(s, OnPacket(s, p))
  {
    if p == Packets.Ack(s.last) {
      AckedMoves(s);
    }
  }

  /** The sender as evidently intended: datagrams are received into a
      buffer of their own, so every packet it sends is the DATA packet of the
      block in flight, and the block in flight is always the next stretch of
      SRAM. */
  function Step(s: State, e: Event): (r: Step<State>)
    requires Inv(s)
    ensures Moves(s, r)
    ensures r.Running? ==> Packets.Decode(r.out[0].bytes) == Packets.Data(r.state.last, Block(r.state))
    ensures r.state.file.mem == s.file.mem
    ensures e.TimedOut? ==>
      if s.timeouts < Retry.MaxTimeouts
      then r == Running(s.(timeouts := s.timeouts + 1), [Resend(s)])
      else r.Aborted? && r.failure == TransferTimedOut
    ensures e.Arrived? ==> r.state.timeouts == 0 && r.state.peer == e.datagram.peer
  {
    match Retry.ReceiveMsg(s.timeouts, e, Packets.HeaderSize + s.blockSize)
    case GaveUp(t) => Aborted(s.(timeouts := t), [], TransferTimedOut)
    case Retry(t) => Running(s.(timeouts := t), [Resend(s)])
    case Got(d, t) =>
      var u := s.(peer := d.peer, timeouts := t);
      OnPacketMoves(u, Packets.Decode(d.bytes));
      OnPacket(u, Packets.Decode(d.bytes))
  }

  /** The start of block `k + 1` is the start of block `k` moved on by a
      block, or by what is left of SRAM. */
  lemma OffsetNext(k: nat, blockSize: nat)
    ensures Offset(k + 1, blockSize)
         == Offset(k, blockSize) + Min(blockSize, Sram.SramSize - Offset(k, blockSize))
  {
    assert (k + 1) * blockSize == k * blockSize + blockSize;
  }

  /** Counting blocks and numbering them modulo 2^16 agree. */
  lemma NumberCount(n: nat)
    ensures NextNumber((n % 0x1_0000) as u16) == (n + 1) % 0x1_0000
  {
    var q := n / 0x1_0000;
    assert n == q * 0x1_0000 + n % 0x1_0000;
    if n % 0x1_0000 == 0xFFFF {
      assert n + 1 == (q + 1) * 0x1_0000;
    } else {
      assert n + 1 == q * 0x1_0000 + (n % 0x1_0000 + 1);
    }
  }

  /** The sender fed one event after another until it ends or the events
      run out; `out` collects everything it sent. */
  function Run(r: Step<State>, events: seq<Event>): (q: Session<State>)
    requires r.Running? ==> Sram.Valid(r.state.file)
    ensures r.out <= q.last.out
    ensures q.last.Running? ==> q.rest == [] && Sram.Valid(q.last.state.file)
    ensures !r.Undefined? && Sram.Valid(r.state.file) ==>
      !q.last.Undefined? && Sram.Valid(q.last.state.file) && q.last.state.file.mem == r.state.file.mem
    decreases |events|
  {
    if events == [] || !r.Running? then Session(r, events)
    else Run(Then(r, StepAsWritten(r.state, events[0])), events[1..])
  }

  /** A run consumes a prefix of the events and hands back the rest. */
  lemma {:induction false} RunConsumesPrefix(r: Step<State>, events: seq<Event>)
    requires r.Running? ==> Sram.Valid(r.state.file)
    ensures SuffixOf(Run(r, events).rest, events)
    decreases |events|
  {
    if events != [] && r.Running? {
      var next := Then(r, StepAsWritten(r.state, events[0]));
      RunConsumesPrefix(next, events[1..]);
      var rest := Run(next, events[1..]).rest;
      assert events[1..][|events| - 1 - |rest|..] == events[|events| - |rest|..];
    }
  }

  /** An ACK is read as that ACK whatever the buffer held before it and
      however the receive buffer cuts it. */
  lemma AckReadWhole(s: State, d: Datagram)
    requires Packets.Decode(d.bytes).Ack?
    ensures var w := Retry.Truncate(d.bytes, Packets.HeaderSize + s.blockSize);
      Packets.Decode(w) == Packets.Decode(d.bytes)
      && Packets.Decode(Seen(s.buffer, w)) == Packets.Decode(d.bytes)
  {
    var w := Retry.Truncate(d.bytes, Packets.HeaderSize + s.blockSize);
    assert w[..Packets.HeaderSize] == d.bytes[..Packets.HeaderSize];
    Packets.AckHeaderOnly(d.bytes, w);
    var seen := Seen(s.buffer, w);
    assert seen[..Packets.HeaderSize] == w[..Packets.HeaderSize];
    Packets.AckHeaderOnly(d.bytes, seen);
  }

  /** The ACK of a full block sends the next block, numbered one higher,
      holding the bytes that follow in SRAM. */
  lemma AckAdvances(s: State, d: Datagram)
    requires Inv(s) && s.length == s.blockSize
    requires Packets.Decode(d.bytes) == Packets.Ack(s.last)
    ensures var r := StepAsWritten(s, Arrived(d));
      && r.Running? && Inv(r.state)
      && r.state.peer == d.peer && r.state.blockSize == s.blockSize && r.state.file.mem == s.file.mem
      && r.state.acked == s.acked + 1 && r.state.last == NextNumber(s.last)
      && r.out == [Datagram(d.peer, r.state.buffer)]
      && Packets.Decode(r.state.buffer)
         == Packets.Data(NextNumber(s.last), s.file.mem[s.file.cursor..r.state.file.cursor])
  {
    var w := Retry.Truncate(d.bytes, Packets.HeaderSize + s.blockSize);
    var u := s.(peer := d.peer, timeouts := 0, buffer := Overlay(s.buffer, w));
    NextBlockMoves(u);
    AckedStep(s, d);
  }

  /** The awaited ACK of a full block, however it arrives, reads the next
      block into the buffer. */
  lemma AckedStep(s: State, d: Datagram)
    requires Sram.Valid(s.file) && s.length == s.blockSize
    requires Packets.Decode(d.bytes) == Packets.Ack(s.last)
    ensures var w := Retry.Truncate(d.bytes, Packets.HeaderSize + s.blockSize);
      StepAsWritten(s, Arrived(d))
      == NextBlock(s.(peer := d.peer, timeouts := 0, buffer := Overlay(s.buffer, w), acked := s.acked + 1))
  {
    AckReadWhole(s, d);
  }

  /** The ACK of a short block ends the transfer, with nothing more sent and
      the stream closed. */
  lemma ShortBlockAckFinishes(s: State, d: Datagram)
    requires Inv(s) && s.length < s.blockSize
    requires Packets.Decode(d.bytes) == Packets.Ack(s.last)
    ensures var r := StepAsWritten(s, Arrived(d));
      r.Finished? && r.out == [] && r.state.file.state == Sram.Closed
  {
    AckReadWhole(s, d);
  }

  /** With a buffer of its own, the sender answers an ACK of any other block
      by sending the block in flight again, as the same DATA packet, and
      changes nothing but where replies go. */
  lemma OtherAckResends(s: State, d: Datagram, block: u16)
    requires Inv(s) && block != s.last
    requires Packets.Decode(d.bytes) == Packets.Ack(block)
    ensures var r := Step(s, Arrived(d));
      && r == Running(s.(peer := d.peer, timeouts := 0), [Datagram(d.peer, s.buffer)])
      && Packets.Decode(r.out[0].bytes) == Packets.Data(s.last, Block(s))
  {
    AckReadWhole(s, d);
  }

  /** As SendFile is written, the same stray ACK is received into the buffer
      that holds the DATA packet, so the retransmission that follows is that
      ACK again, with the block's bytes trailing behind it: the peer never
      gets the block it is waiting for in that packet. */
  lemma StrayAckCorruptsRetransmission(s: State, d: Datagram, block: u16)
    requires Inv(s) && block != s.last
    requires Packets.Decode(d.bytes) == Packets.Ack(block)
    ensures var r := StepAsWritten(s, Arrived(d));
      && r.Running? && |r.out| == 1 && r.out[0].peer == d.peer
      && Packets.Decode(r.out[0].bytes) == Packets.Ack(block)
  {
    var w := Retry.Truncate(d.bytes, Packets.HeaderSize + s.blockSize);
    var sent := Overlay(s.buffer, w);
    var u := s.(peer := d.peer, timeouts := 0, buffer := sent);
    assert StepAsWritten(s, Arrived(d)) == Running(u, [Datagram(d.peer, sent)]) by {
      Arrival(s, d);
      AckReadWhole(s, d);
    }
    assert Packets.Decode(sent) == Packets.Ack(block) by {
      assert sent[..Packets.HeaderSize] == d.bytes[..Packets.HeaderSize];
      Packets.AckHeaderOnly(d.bytes, sent);
    }
  }

  /** As SendFile is written, a datagram holding only the ACK opcode has its
      block number read from the DATA header still in the buffer, so it is
      taken for the awaited ACK; with a buffer of its own the sender finds it
      too short for an ACK and ends the transfer. */
  lemma BareAckOpcodeAccepted(s: State, peer: Endpoint)
    requires Inv(s)
    ensures var e := Arrived(Datagram(peer, BigEndian(Packets.AckOp)));
      && StepAsWritten(s, e).state.acked == s.acked + 1
      && Step(s, e).Aborted? && Step(s, e).failure == UnexpectedOperation
  {
    var b := BigEndian(Packets.AckOp);
    assert Retry.Truncate(b, Packets.HeaderSize + s.blockSize) == b;
    var seen := Seen(s.buffer, b);
    assert Packets.Decode(s.buffer) == Packets.Data(s.last, Block(s));
    assert ReadU16(seen, 0) == Packets.AckOp by {
      assert seen[..2] == b;
    }
    assert ReadU16(seen, 2) == s.last by {
      assert seen[2] == s.buffer[2] && seen[3] == s.buffer[3];
    }
    assert Packets.Decode(seen) == Packets.Ack(s.last);
  }

  /** Up to ten timeouts in a row each send the block in flight again, and
      the transfer goes on. */
  lemma {:induction false} TimeoutsTolerated(s: State, out: seq<Datagram>, k: nat)
    requires Sram.Valid(s.file) && s.timeouts + k <= Retry.MaxTimeouts
    ensures Run(Running(s, out), Repeat(TimedOut, k)).last
         == Running(s.(timeouts := s.timeouts + k), out + Repeat(Resend(s), k))
    decreases k
  {
    if k == 0 {
      assert out + Repeat(Resend(s), 0) == out;
    } else {
      var events := Repeat(TimedOut, k);
      assert events[1..] == Repeat(TimedOut, k - 1);
      var t := s.(timeouts := s.timeouts + 1);
      assert Then(Running(s, out), StepAsWritten(s, TimedOut)) == Running(t, out + [Resend(s)]);
      TimeoutsTolerated(t, out + [Resend(s)], k - 1);
      assert Resend(t) == Resend(s);
      assert [Resend(s)] + Repeat(Resend(s), k - 1) == Repeat(Resend(s), k);
    }
  }

  /** The eleventh timeout in a row ends the transfer, after ten
      retransmissions. */
  lemma EleventhTimeoutAborts(s: State, out: seq<Datagram>)
    requires Sram.Valid(s.file) && s.timeouts == 0
    ensures var q := Run(Running(s, out), Repeat(TimedOut, Retry.MaxTimeouts + 1)).last;
      && q.Aborted? && q.failure == TransferTimedOut && q.state.peer == s.peer
      && q.out == out + Repeat(Resend(s), Retry.MaxTimeouts)
  {
    TimeoutsExhaust(s, out, Retry.MaxTimeouts);
  }

  /** Once `k` more timeouts bring the count to the limit, one further
      timeout ends the transfer. */
  lemma TimeoutsExhaust(s: State, out: seq<Datagram>, k: nat)
    requires Sram.Valid(s.file) && s.timeouts + k == Retry.MaxTimeouts
    ensures var q := Run(Running(s, out), Repeat(TimedOut, k + 1)).last;
      && q.Aborted? && q.failure == TransferTimedOut && q.state.peer == s.peer
      && q.out == out + Repeat(Resend(s), k)
  {
    var t := s.(timeouts := Retry.MaxTimeouts);
    var resent := out + Repeat(Resend(s), k);
    TimeoutsThenOneMore(s, out, k);
    TimeoutAtLimit(t, resent);
  }

  /** `k` tolerated timeouts and one more: the run reaches the last one with
      the counter at the limit and the block re-sent `k` times. */
  lemma TimeoutsThenOneMore(s: State, out: seq<Datagram>, k: nat)
    requires Sram.Valid(s.file) && s.timeouts + k == Retry.MaxTimeouts
    ensures Run(Running(s, out), Repeat(TimedOut, k + 1))
         == Run(Running(s.(timeouts := Retry.MaxTimeouts), out + Repeat(Resend(s), k)), [TimedOut])
  {
    var ten := Repeat(TimedOut, k);
    TimeoutsTolerated(s, out, k);
    assert Repeat(TimedOut, k + 1) == ten + [TimedOut];
    RunAppend(Running(s, out), ten, [TimedOut]);
  }

  /** At the limit, a timeout ends the transfer without sending anything. */
  lemma TimeoutAtLimit(t: State, out: seq<Datagram>)
    requires Sram.Valid(t.file) && t.timeouts == Retry.MaxTimeouts
    ensures Run(Running(t, out), [TimedOut]).last
         == Aborted(t.(timeouts := Retry.MaxTimeouts + 1), out, TransferTimedOut)
  {
    assert StepAsWritten(t, TimedOut) == Aborted(t.(timeouts := Retry.MaxTimeouts + 1), [], TransferTimedOut);
    assert Run(Running(t, out), [TimedOut]).last == Then(Running(t, out), StepAsWritten(t, TimedOut));
  }

  /** A run over `a + b` that is still going after `a` continues over `b`. */
  lemma {:induction false} RunAppend(r: Step<State>, a: seq<Event>, b: seq<Event>)
    requires r.Running? ==> Sram.Valid(r.state.file)
    requires Run(r, a).last.Running?
    ensures Run(r, a + b) == Run(Run(r, a).last, b)
    decreases |a|
  {
    if a != [] {
      assert r.Running?;
      assert (a + b)[1..] == a[1..] + b;
      RunAppend(Then(r, StepAsWritten(r.state, a[0])), a[1..], b);
    } else {
      assert a + b == b;
    }
  }

  /** How a sender cuts SRAM from offset `from` on: full blocks, then one
      shorter block, which is empty when the full blocks reach the end. */
  function CutFrom(mem: seq<byte>, from: nat, blockSize: nat): (r: seq<seq<byte>>)
    requires 0 < blockSize && from <= |mem|
    ensures r != []
    decreases |mem| - from
  {
    if |mem| - from < blockSize then [mem[from..]]
    else [mem[from..from + blockSize]] + CutFrom(mem, from + blockSize, blockSize)
  }

  /** The blocks a sender cuts are a cut file, and together they are the
      rest of SRAM. */
  lemma {:induction false} CutFromCovers(mem: seq<byte>, from: nat, blockSize: nat)
    requires 0 < blockSize && from <= |mem|
    ensures Cut(CutFrom(mem, from, blockSize), blockSize)
    ensures Concat(CutFrom(mem, from, blockSize)) == mem[from..]
    decreases |mem| - from
  {
    var r := CutFrom(mem, from, blockSize);
    if |mem| - from < blockSize {
      assert Concat(r) == mem[from..] + Concat([]);
    } else {
      var tail := CutFrom(mem, from + blockSize, blockSize);
      CutFromCovers(mem, from + blockSize, blockSize);
      assert r[1..] == tail;
      assert Concat(r) == mem[from..from + blockSize] + Concat(tail);
      assert mem[from..] == mem[from..from + blockSize] + mem[from + blockSize..];
      forall i | 0 <= i < |r| - 1
        ensures |r[i]| == blockSize
      {
        if i > 0 {
          assert r[i] == tail[i - 1];
        }
      }
      assert r[|r| - 1] == tail[|tail| - 1];
    }
  }

  /** The DATA packets for `blocks`, numbered from `block`. */
  function DataPackets(peer: Endpoint, block: u16, blocks: seq<seq<byte>>): seq<Datagram>
    decreases |blocks|
  {
    if blocks == [] then []
    else [Datagram(peer, Packets.EncodeData(block, blocks[0]))] + DataPackets(peer, NextNumber(block), blocks[1..])
  }

  /** A client's ACKs of `count` blocks, numbered from `block`. */
  function AckEvents(peer: Endpoint, block: u16, count: nat): seq<Event>
    decreases count
  {
    if count == 0 then []
    else [Arrived(Datagram(peer, Packets.EncodeAck(block)))] + AckEvents(peer, NextNumber(block), count - 1)
  }

  /** The blocks still to be sent after the block in flight: none after a
      short block, otherwise the rest of SRAM cut into blocks. */
  function Following(s: State): seq<seq<byte>>
    requires Sram.Valid(s.file) && 0 < s.blockSize
  {
    if s.length == s.blockSize then CutFrom(s.file.mem, s.file.cursor, s.blockSize) else []
  }

  /** Where a sender in `s` that has sent `out` stands once the client has
      acknowledged every block: finished, with no ACK left over, having sent
      the blocks that follow the one in flight, numbered in order. */
  predicate Delivered(s: State, out: seq<Datagram>)
    requires Sram.Valid(s.file) && 0 < s.blockSize
  {
    Completes(AckedRun(s, out), out, StillToSend(s))
  }

  /** A session that used up its events and finished, having sent `out`
      and then `more`. */
  predicate Completes(q: Session<State>, out: seq<Datagram>, more: seq<Datagram>)
  {
    q.rest == [] && q.last.Finished? && q.last.out == out + more
  }

  /** Sending `sent` and then `more` is sending `[sent] + more`. */
  lemma CompletesShift(q: Session<State>, out: seq<Datagram>, sent: Datagram, more: seq<Datagram>)
    requires Completes(q, out + [sent], more)
    ensures Completes(q, out, [sent] + more)
  {
    assert (out + [sent]) + more == out + ([sent] + more);
  }

  /** The run of a sender in `s` that has sent `out`, fed the client's ACKs
      of the block in flight and of every block after it. */
  function AckedRun(s: State, out: seq<Datagram>): Session<State>
    requires Sram.Valid(s.file) && 0 < s.blockSize
  {
    Run(Running(s, out), AckEvents(s.peer, s.last, 1 + |Following(s)|))
  }

  /** The DATA packets of the blocks after the one in flight. */
  function StillToSend(s: State): seq<Datagram>
    requires Sram.Valid(s.file) && 0 < s.blockSize
  {
    DataPackets(s.peer, NextNumber(s.last), Following(s))
  }

  /** A client that acknowledges every block it gets receives the rest of
      SRAM, block by block and numbered in order, and the transfer finishes
      with the ACK of the short block. */
  lemma {:induction false} SendsAll(s: State, out: seq<Datagram>)
    requires Inv(s) && 0 < s.blockSize
    ensures Delivered(s, out)
    decreases Sram.SramSize - s.file.cursor, if s.length == s.blockSize then 1 else 0
  {
    OffsetNext(s.acked, s.blockSize);
    if s.length < s.blockSize {
      ShortBlockRun(s, out);
    } else {
      var t := AfterAck(s);
      assert Inv(t) && 0 < t.blockSize && s.file.cursor <= t.file.cursor
          && (t.file.cursor == s.file.cursor ==> t.length < t.blockSize) by {
        FullBlockMoves(s);
      }
      SendsAll(t, out + [Resend(t)]);
      FullBlockRun(s, out);
    }
  }

  /** A read asking for a positive block size, or for none: a client that
      acknowledges every block it gets receives all of SRAM, cut into blocks
      of that size and numbered from 1, after the option acknowledgement if
      it asked for one, and the transfer finishes on its last ACK. */
  lemma ReadDeliversSram(peer: Endpoint, blockSize: int, sram: seq<byte>)
    requires |sram| == Sram.SramSize && (blockSize == Options.Unset || 0 < blockSize)
    ensures Start(peer, blockSize, sram).Running? && Sram.Valid(Start(peer, blockSize, sram).state.file)
    ensures var size := if blockSize == Options.Unset then Packets.DefaultBlockSize else blockSize;
      var blocks := CutFrom(sram, 0, size);
      var q := Run(Start(peer, blockSize, sram), AckEvents(peer, 1, |blocks|));
      && Cut(blocks, size) && Concat(blocks) == sram
      && q.rest == [] && q.last.Finished?
      && q.last.out
         == (if blockSize == Options.Unset then [] else [Datagram(peer, Packets.EncodeOAck(blockSize))])
            + DataPackets(peer, 1, blocks)
  {
    var size := if blockSize == Options.Unset then Packets.DefaultBlockSize else blockSize;
    var oack := if blockSize == Options.Unset then [] else [Datagram(peer, Packets.EncodeOAck(blockSize))];
    var blocks := CutFrom(sram, 0, size);
    var r := Start(peer, blockSize, sram);
    var s := r.state;
    assert Cut(blocks, size) && Concat(blocks) == sram by {
      CutFromCovers(sram, 0, size);
      assert sram[0..] == sram;
    }
    assert blocks == [Block(s)] + Following(s) by {
      OffsetNext(0, size);
    }
    assert DataPackets(peer, 1, blocks) == [Resend(s)] + StillToSend(s) by {
      assert blocks[1..] == Following(s);
    }
    assert r == Running(s, oack + [Resend(s)]);
    assert Run(r, AckEvents(peer, 1, |blocks|)) == AckedRun(s, oack + [Resend(s)]);
    assert Completes(AckedRun(s, oack + [Resend(s)]), oack + [Resend(s)], StillToSend(s)) by {
      SendsAll(s, oack + [Resend(s)]);
    }
    CompletesShift(AckedRun(s, oack + [Resend(s)]), oack, Resend(s), StillToSend(s));
  }

  /** The ACK of the block in flight, from the peer. */
  function AckOf(s: State): Event
  {
    Arrived(Datagram(s.peer, Packets.EncodeAck(s.last)))
  }

  /** Where the sender stands after the ACK of a full block in flight: the
      next block read and sent, and the timeout count reset. */
  function AfterAck(s: State): State
    requires Sram.Valid(s.file)
  {
    NextBlock(s.(acked := s.acked + 1, timeouts := 0)).state
  }

  /** The ACK of a short block is the last event the client sends. */
  lemma ShortBlockRun(s: State, out: seq<Datagram>)
    requires Inv(s) && 0 < s.blockSize && s.length < s.blockSize
    ensures Delivered(s, out)
  {
    var d := Datagram(s.peer, Packets.EncodeAck(s.last));
    assert AckEvents(s.peer, s.last, 1) == [Arrived(d)] + [];
    RunFirst(Running(s, out), Arrived(d), []);
    ShortBlockAckFinishes(s, d);
  }

  /** After the ACK of a full block the sender is still sending, with the
      same peer and block size, and the cursor has moved on unless the block
      it now sends is the short one. */
  lemma FullBlockMoves(s: State)
    requires Inv(s) && 0 < s.blockSize && s.length == s.blockSize
    ensures var t := AfterAck(s);
      && Inv(t) && t.peer == s.peer && t.blockSize == s.blockSize && t.last == NextNumber(s.last)
      && t.acked == s.acked + 1 && t.file.mem == s.file.mem
      && s.file.cursor <= t.file.cursor
      && (t.file.cursor == s.file.cursor ==> t.length < t.blockSize)
      && StepAsWritten(s, AckOf(s)) == Running(t, [Resend(t)])
  {
    AckAdvances(s, Datagram(s.peer, Packets.EncodeAck(s.last)));
  }

  /** The ACK of a full block sends the first of the following blocks; if the
      client's ACKs of the rest deliver them, all of them are delivered. */
  lemma FullBlockRun(s: State, out: seq<Datagram>)
    requires Inv(s) && 0 < s.blockSize && s.length == s.blockSize
    requires Inv(AfterAck(s)) && 0 < AfterAck(s).blockSize
    requires Delivered(AfterAck(s), out + [Resend(AfterAck(s))])
    ensures Delivered(s, out)
  {
    RunAfterAck(s, out);
    PacketsAfterAck(s);
    DeliveredShift(s, AfterAck(s), out, Resend(AfterAck(s)));
  }

  /** A sender whose acknowledged run is that of `t` after sending `sent`,
      and whose blocks still to send are `sent` and those of `t`, delivers
      everything once `t` does. */
  lemma DeliveredShift(s: State, t: State, out: seq<Datagram>, sent: Datagram)
    requires Sram.Valid(s.file) && 0 < s.blockSize && Sram.Valid(t.file) && 0 < t.blockSize
    requires AckedRun(s, out) == AckedRun(t, out + [sent])
    requires StillToSend(s) == [sent] + StillToSend(t)
    requires Delivered(t, out + [sent])
    ensures Delivered(s, out)
  {
    CompletesShift(AckedRun(t, out + [sent]), out, sent, StillToSend(t));
  }

  /** The client's first ACK moves the run on to the state after it, with
      the next block sent. */
  lemma RunAfterAck(s: State, out: seq<Datagram>)
    requires Inv(s) && 0 < s.blockSize && s.length == s.blockSize
    ensures Inv(AfterAck(s)) && 0 < AfterAck(s).blockSize
    ensures AckedRun(s, out) == AckedRun(AfterAck(s), out + [Resend(AfterAck(s))])
  {
    var d := Datagram(s.peer, Packets.EncodeAck(s.last));
    var rest := Following(s);
    var tail := AckEvents(s.peer, NextNumber(s.last), |rest|);
    var t := AfterAck(s);
    FullBlockMoves(s);
    assert |rest| == 1 + |Following(t)| by {
      NextBlockFollows(s, t);
    }
    assert AckEvents(s.peer, s.last, 1 + |rest|) == [Arrived(d)] + tail;
    RunFirst(Running(s, out), Arrived(d), tail);
    assert Then(Running(s, out), StepAsWritten(s, Arrived(d))) == Running(t, out + [Resend(t)]) by {
      FullBlockMoves(s);
    }
  }

  /** The blocks that follow the one in flight start with the block the
      next ACK sends. */
  lemma PacketsAfterAck(s: State)
    requires Inv(s) && 0 < s.blockSize && s.length == s.blockSize
    ensures Inv(AfterAck(s)) && 0 < AfterAck(s).blockSize
    ensures StillToSend(s) == [Resend(AfterAck(s))] + StillToSend(AfterAck(s))
  {
    var rest := Following(s);
    var t := AfterAck(s);
    FullBlockMoves(s);
    assert rest[0] == Block(t) && rest[1..] == Following(t) by {
      NextBlockFollows(s, t);
    }
    assert Resend(t) == Datagram(s.peer, Packets.EncodeData(NextNumber(s.last), rest[0]));
  }

  /** The block sent after the ACK of a full block is the first of the
      blocks that follow it, and the ones after it follow that block. */
  lemma NextBlockFollows(s: State, t: State)
    requires Inv(s) && Inv(t) && 0 < s.blockSize && s.length == s.blockSize
    requires t.acked == s.acked + 1 && t.blockSize == s.blockSize && t.file.mem == s.file.mem
    ensures var rest := Following(s);
      rest[0] == Block(t) && rest[1..] == Following(t)
  {
    OffsetNext(t.acked, s.blockSize);
  }

  /** A running sender's run starts with its first event. */
  lemma RunFirst(r: Step<State>, e: Event, rest: seq<Event>)
    requires r.Running? && Sram.Valid(r.state.file)
    ensures Run(r, [e] + rest) == Run(Then(r, StepAsWritten(r.state, e)), rest)
  {
    assert ([e] + rest)[1..] == rest;
  }

  /** A client that asks for a block size acknowledges the option
      acknowledgement with ACK(0), as RFC 2347 asks of it. The
      sender has already sent DATA 1 and takes ACK(0) for a stray ACK: as
      written, the retransmission it answers with is ACK(0) again;
      with the buffer kept intact it is DATA 1 again. */
  lemma NegotiatedReadAnsweredWithAck(peer: Endpoint, blockSize: nat, sram: seq<byte>)
    requires |sram| == Sram.SramSize
    ensures var r := Start(peer, blockSize, sram);
      var ack := Arrived(Datagram(peer, Packets.EncodeAck(0)));
      && r.Running?
      && Packets.Decode(StepAsWritten(r.state, ack).out[0].bytes) == Packets.Ack(0)
      && Packets.Decode(Step(r.state, ack).out[0].bytes)
         == Packets.Data(1, sram[..Min(blockSize, Sram.SramSize)])
  {
    var r := Start(peer, blockSize, sram);
    var d := Datagram(peer, Packets.EncodeAck(0));
    StrayAckCorruptsRetransmission(r.state, d, 0);
    OtherAckResends(r.state, d, 0);
  }
}
