/** The server's poll: one datagram read from port 69 with room for 2048
    bytes, then the whole transfer it asks for, and an ERROR to the peer if
    the transfer fails. */
module Server {
  import opened Base
  import Options
  import Packets
  import Sram
  import Numerals
  import Retry
  import Receiver
  import Sender

  /** The size of the buffer a request is read into. */
  const RequestCapacity: nat := 2048

  /** How a poll ended. `Undefined` is a transfer that reached a point where
      the source's behaviour is not defined; nothing else about the poll's
      result is then meaningful. */
  datatype Outcome = Idle | Completed | Failed(failure: Failure) | Unfinished | Undefined

  /** Whether a datagram was handled (the value `Poll` returns), every
      datagram sent, how the transfer ended, what SRAM holds afterwards, and
      the events the transfer did not consume. */
  datatype PollResult = PollResult(
    handled: bool,
    out: seq<Datagram>,
    outcome: Outcome,
    sram: seq<byte>,
    rest: seq<Event>)

  /** What `SendError` sends for a failure: code 2 and the failure's text. */
  function ErrorTo(peer: Endpoint, f: Failure): (d: Datagram)
    ensures d.peer == peer
    ensures Packets.Decode(d.bytes) == Packets.Error(Packets.AccessViolation, CString(Message(f)))
  {
    Datagram(peer, Packets.EncodeError(Message(f)))
  }

  /** The end of a poll: a thrown failure is caught and reported to the peer
      the last datagram came from. */
  function Conclude<S>(last: Step<S>, peer: Endpoint, sram: seq<byte>, rest: seq<Event>): (r: PollResult)
    ensures r.handled && r.sram == sram && r.rest == rest
    ensures last.Aborted? <==> r.outcome.Failed?
    ensures last.Aborted? ==> r.outcome.failure == last.failure && r.out == last.out + [ErrorTo(peer, last.failure)]
    ensures !last.Aborted? ==> r.out == last.out
    ensures last.Finished? <==> r.outcome.Completed?
  {
    match last
    case Running(_, out) => PollResult(true, out, Unfinished, sram, rest)
    case Finished(_, out) => PollResult(true, out, Completed, sram, rest)
    case Aborted(_, out, f) => PollResult(true, out + [ErrorTo(peer, f)], Failed(f), sram, rest)
    case Undefined(out) => PollResult(true, out, Outcome.Undefined, sram, rest)
  }

  /** `Poll`: nothing to do without a datagram. A read request runs the
      sender, a write request the receiver, with the block size the request
      asks for; any other datagram is answered with an ERROR. `events` are
      the socket's events while the transfer runs. */
  function Poll(sram: seq<byte>, incoming: Option<Datagram>, events: seq<Event>): (r: PollResult)
    requires |sram| == Sram.SramSize
    ensures r.handled <==> incoming.Some?
    ensures incoming.None? ==> r == PollResult(false, [], Idle, sram, events)
    ensures Reported(sram, events, r)
  {
    match incoming
    case None => PollResult(false, [], Idle, sram, events)
    case Some(d) =>
      var bytes := if |d.bytes| <= RequestCapacity then d.bytes else d.bytes[..RequestCapacity];
      match Packets.Decode(bytes)
      case ReadRequest(area) => Send(sram, d.peer, Options.DecodeRequest(area), events)
      case WriteRequest(area) => Receive(sram, d.peer, Options.DecodeRequest(area), events)
      case _ => Conclude(Aborted((), [], UnexpectedOperation), d.peer, sram, events)
  }

  /** What holds of every poll: the transfer consumed a prefix of the events,
      SRAM is still SRAM, and a failed transfer ended with an ERROR packet
      that carries the failure's text. */
  predicate Reported(sram: seq<byte>, events: seq<Event>, r: PollResult)
  {
    && SuffixOf(r.rest, events)
    && |r.sram| == Sram.SramSize
    && (r.outcome.Failed? ==>
          && r.out != []
          && Packets.Decode(r.out[|r.out| - 1].bytes)
             == Packets.Error(Packets.AccessViolation, CString(Message(r.outcome.failure))))
  }

  /** `SendFile` for a read request. Reading leaves SRAM as it was. */
  function Send(sram: seq<byte>, peer: Endpoint, request: Options.Request, events: seq<Event>): (r: PollResult)
    requires |sram| == Sram.SramSize
    ensures r.handled && r.sram == sram
    ensures Reported(sram, events, r)
  {
    var start := Sender.Start(peer, request.blockSize, sram);
    Sender.RunConsumesPrefix(start, events);
    var q := Sender.Run(start, events);
    if q.last.Undefined? then Conclude(q.last, peer, sram, q.rest)
    else Conclude(q.last, q.last.state.peer, sram, q.rest)
  }

  /** `ReceiveFile` for a write request. SRAM afterwards is what the stream
      wrote, including the blocks written before a failure. */
  function Receive(sram: seq<byte>, peer: Endpoint, request: Options.Request, events: seq<Event>): (r: PollResult)
    requires |sram| == Sram.SramSize
    ensures r.handled
    ensures Reported(sram, events, r)
  {
    var start := Receiver.Start(peer, request.blockSize, sram);
    Receiver.RunConsumesPrefix(start, events);
    var q := Receiver.Run(start, events);
    if q.last.Undefined? then Conclude(q.last, peer, sram, q.rest)
    else Conclude(q.last, q.last.state.peer, q.last.state.file.mem, q.rest)
  }

  /** A request that fits the request buffer goes to the sender or the
      receiver, with the request its bytes decode to. */
  lemma PollDispatches(sram: seq<byte>, d: Datagram, events: seq<Event>)
    requires |sram| == Sram.SramSize && |d.bytes| <= RequestCapacity
    ensures Packets.Decode(d.bytes).ReadRequest? ==>
      Poll(sram, Some(d), events) == Send(sram, d.peer, Options.DecodeRequest(Packets.Decode(d.bytes).area), events)
    ensures Packets.Decode(d.bytes).WriteRequest? ==>
      Poll(sram, Some(d), events) == Receive(sram, d.peer, Options.DecodeRequest(Packets.Decode(d.bytes).area), events)
  {
  }

  /** A request as a client lays it out: opcode, file name, mode, options. */
  function RequestBytes(op: u16, filename: seq<byte>, mode: seq<byte>, options: seq<Options.Pair>): seq<byte>
  {
    BigEndian(op) + (filename + [0] + mode + [0] + Options.EncodeOptions(options))
  }

  /** A request that fits the request buffer is read as that request. */
  lemma RequestDecodes(op: u16, filename: seq<byte>, mode: seq<byte>, options: seq<Options.Pair>)
    requires op == Packets.ReadOp || op == Packets.WriteOp
    requires 0 !in filename && 0 !in mode && Options.WellFormed(options)
    ensures var area := filename + [0] + mode + [0] + Options.EncodeOptions(options);
      && Packets.Decode(RequestBytes(op, filename, mode, options))
         == (if op == Packets.ReadOp then Packets.ReadRequest(area) else Packets.WriteRequest(area))
      && Options.DecodeRequest(area) == Options.Request(filename, mode, Options.Fold(Options.Unset, options))
  {
    var area := filename + [0] + mode + [0] + Options.EncodeOptions(options);
    assert RequestBytes(op, filename, mode, options)[2..] == area;
    Options.RequestRoundTrip(filename, mode, options);
  }

  /** Any datagram other than a request is answered with exactly one ERROR,
      "Unexpected operation", and the poll still reports it handled. */
  lemma OtherDatagramRefused(sram: seq<byte>, d: Datagram, events: seq<Event>)
    requires |sram| == Sram.SramSize
    requires var p := Packets.Decode(if |d.bytes| <= RequestCapacity then d.bytes else d.bytes[..RequestCapacity]);
      !p.ReadRequest? && !p.WriteRequest?
    ensures Poll(sram, Some(d), events)
         == PollResult(true, [ErrorTo(d.peer, UnexpectedOperation)], Failed(UnexpectedOperation), sram, events)
  {
  }

  /** A read request never changes SRAM, whatever happens to the transfer. */
  lemma ReadLeavesSram(sram: seq<byte>, d: Datagram, events: seq<Event>)
    requires |sram| == Sram.SramSize
    requires Packets.Decode(if |d.bytes| <= RequestCapacity then d.bytes else d.bytes[..RequestCapacity]).ReadRequest?
    ensures Poll(sram, Some(d), events).sram == sram
  {
  }

  /** A read request with a `blksize` option is answered with the option
      acknowledgement and, without waiting, DATA 1 holding the first block
      of SRAM. */
  lemma NegotiatedReadStarts(sram: seq<byte>, peer: Endpoint, filename: seq<byte>, mode: seq<byte>, size: nat)
    requires |sram| == Sram.SramSize && 0 !in filename && 0 !in mode
    requires |RequestBytes(Packets.ReadOp, filename, mode, [(Options.BlksizeName, Numerals.FormatInt(size))])| <= RequestCapacity
    ensures var r := Poll(sram, Some(Datagram(peer, RequestBytes(Packets.ReadOp, filename, mode,
                                                 [(Options.BlksizeName, Numerals.FormatInt(size))]))), []);
      && r.outcome.Unfinished? && |r.out| == 2
      && r.out[0] == Datagram(peer, Packets.EncodeOAck(size))
      && Packets.Decode(r.out[1].bytes) == Packets.Data(1, sram[..Min(size, Sram.SramSize)])
  {
    var options := [(Options.BlksizeName, Numerals.FormatInt(size))];
    var d := Datagram(peer, RequestBytes(Packets.ReadOp, filename, mode, options));
    assert Poll(sram, Some(d), []) == Send(sram, peer, Options.Request(filename, mode, size), []) by {
      BlksizeOption(size);
      ReadDispatched(sram, peer, filename, mode, options, []);
    }
    var start := Sender.Start(peer, size, sram);
    assert Sender.Run(start, []) == Session(start, []);
  }

  /** A read request that fits the request buffer runs the sender with the
      block size its options select. */
  lemma ReadDispatched(sram: seq<byte>, peer: Endpoint, filename: seq<byte>, mode: seq<byte>,
                       options: seq<Options.Pair>, events: seq<Event>)
    requires |sram| == Sram.SramSize && 0 !in filename && 0 !in mode && Options.WellFormed(options)
    requires |RequestBytes(Packets.ReadOp, filename, mode, options)| <= RequestCapacity
    ensures Poll(sram, Some(Datagram(peer, RequestBytes(Packets.ReadOp, filename, mode, options))), events)
         == Send(sram, peer, Options.Request(filename, mode, Options.Fold(Options.Unset, options)), events)
  {
    var area := filename + [0] + mode + [0] + Options.EncodeOptions(options);
    var d := Datagram(peer, RequestBytes(Packets.ReadOp, filename, mode, options));
    assert Packets.Decode(d.bytes) == Packets.ReadRequest(area)
        && Options.DecodeRequest(area) == Options.Request(filename, mode, Options.Fold(Options.Unset, options)) by {
      RequestDecodes(Packets.ReadOp, filename, mode, options);
    }
    PollDispatches(sram, d, events);
  }

  /** A single `blksize` option selects the block size it carries. */
  lemma BlksizeOption(size: int)
    ensures Options.WellFormed([(Options.BlksizeName, Numerals.FormatInt(size))])
    ensures Options.Fold(Options.Unset, [(Options.BlksizeName, Numerals.FormatInt(size))]) == size
  {
    var option: Options.Pair := (Options.BlksizeName, Numerals.FormatInt(size));
    Options.BlksizeNameHasNoNul();
    assert Options.Apply(Options.Unset, option) == size by {
      Numerals.ScanFormatRoundTrip(size);
    }
    assert |[option][1..]| == 0;
    assert Options.Fold(Options.Unset, [option]) == Options.Fold(size, []);
  }

  /** A read request without options, answered by an ACK for every block:
      all of SRAM goes out in 512-byte blocks and the transfer completes. */
  lemma ReadSendsSram(sram: seq<byte>, peer: Endpoint, filename: seq<byte>, mode: seq<byte>)
    requires |sram| == Sram.SramSize && 0 !in filename && 0 !in mode
    requires |RequestBytes(Packets.ReadOp, filename, mode, [])| <= RequestCapacity
    ensures var blocks := Sender.CutFrom(sram, 0, Packets.DefaultBlockSize);
      var r := Poll(sram, Some(Datagram(peer, RequestBytes(Packets.ReadOp, filename, mode, []))),
                    Sender.AckEvents(peer, 1, |blocks|));
      && Cut(blocks, Packets.DefaultBlockSize) && Concat(blocks) == sram
      && r == PollResult(true, Sender.DataPackets(peer, 1, blocks), Completed, sram, [])
  {
    var blocks := Sender.CutFrom(sram, 0, Packets.DefaultBlockSize);
    var events := Sender.AckEvents(peer, 1, |blocks|);
    var d := Datagram(peer, RequestBytes(Packets.ReadOp, filename, mode, []));
    var request := Options.Request(filename, mode, Options.Unset);
    assert Poll(sram, Some(d), events) == Send(sram, peer, request, events) by {
      assert Options.Fold(Options.Unset, []) == Options.Unset;
      ReadDispatched(sram, peer, filename, mode, [], events);
    }
    assert Cut(blocks, Packets.DefaultBlockSize) && Concat(blocks) == sram by {
      Sender.ReadDeliversSram(peer, Options.Unset, sram);
    }
    assert Send(sram, peer, request, events)
        == PollResult(true, [] + Sender.DataPackets(peer, 1, blocks), Completed, sram, []) by {
      SendDeliversSram(sram, peer, request);
    }
    assert [] + Sender.DataPackets(peer, 1, blocks) == Sender.DataPackets(peer, 1, blocks);
  }

  /** The sender's side of `ReadSendsSram`, for any block size `Start`
      accepts: after the option acknowledgement, if any, every block of SRAM
      goes out once and the transfer completes. */
  lemma SendDeliversSram(sram: seq<byte>, peer: Endpoint, request: Options.Request)
    requires |sram| == Sram.SramSize && (request.blockSize == Options.Unset || 0 < request.blockSize)
    ensures var size := if request.blockSize == Options.Unset then Packets.DefaultBlockSize else request.blockSize;
      var blocks := Sender.CutFrom(sram, 0, size);
      var oack := if request.blockSize == Options.Unset then []
                  else [Datagram(peer, Packets.EncodeOAck(request.blockSize))];
      Send(sram, peer, request, Sender.AckEvents(peer, 1, |blocks|))
        == PollResult(true, oack + Sender.DataPackets(peer, 1, blocks), Completed, sram, [])
  {
    Sender.ReadDeliversSram(peer, request.blockSize, sram);
  }

  /** A write request that fits the request buffer runs the receiver with
      the block size its options select. */
  lemma WriteDispatched(sram: seq<byte>, peer: Endpoint, filename: seq<byte>, mode: seq<byte>,
                        options: seq<Options.Pair>, events: seq<Event>)
    requires |sram| == Sram.SramSize && 0 !in filename && 0 !in mode && Options.WellFormed(options)
    requires |RequestBytes(Packets.WriteOp, filename, mode, options)| <= RequestCapacity
    ensures Poll(sram, Some(Datagram(peer, RequestBytes(Packets.WriteOp, filename, mode, options))), events)
         == Receive(sram, peer, Options.Request(filename, mode, Options.Fold(Options.Unset, options)), events)
  {
    var area := filename + [0] + mode + [0] + Options.EncodeOptions(options);
    var d := Datagram(peer, RequestBytes(Packets.WriteOp, filename, mode, options));
    assert Packets.Decode(d.bytes) == Packets.WriteRequest(area)
        && Options.DecodeRequest(area) == Options.Request(filename, mode, Options.Fold(Options.Unset, options)) by {
      RequestDecodes(Packets.WriteOp, filename, mode, options);
    }
    PollDispatches(sram, d, events);
  }

  /** A write request without options, followed by a file sent block by
      block: the file lands at the start of SRAM and the rest of SRAM is
      kept; ACK(0) goes out twice, then one ACK per block. */
  lemma WriteStoresFile(sram: seq<byte>, peer: Endpoint, filename: seq<byte>, mode: seq<byte>,
                        blocks: seq<seq<byte>>)
    requires |sram| == Sram.SramSize && 0 !in filename && 0 !in mode
    requires |RequestBytes(Packets.WriteOp, filename, mode, [])| <= RequestCapacity
    requires Cut(blocks, Packets.DefaultBlockSize)
    requires |Concat(blocks)| <= Sram.SramSize
    ensures var file := Concat(blocks);
      var r := Poll(sram, Some(Datagram(peer, RequestBytes(Packets.WriteOp, filename, mode, []))),
                    Receiver.DataEvents(peer, 1, blocks));
      && r.outcome.Completed? && r.rest == []
      && r.sram[..|file|] == file && r.sram[|file|..] == sram[|file|..]
      && r.out == [Datagram(peer, Packets.EncodeAck(0)), Datagram(peer, Packets.EncodeAck(0))]
                  + Receiver.Acks(peer, 1, |blocks|)
  {
    var events := Receiver.DataEvents(peer, 1, blocks);
    WriteDispatched(sram, peer, filename, mode, [], events);
    ReceiveStoresFile(sram, peer, Options.Request(filename, mode, Options.Unset), blocks);
  }

  /** The receiver's side of `WriteStoresFile`. */
  lemma ReceiveStoresFile(sram: seq<byte>, peer: Endpoint, request: Options.Request, blocks: seq<seq<byte>>)
    requires |sram| == Sram.SramSize && request.blockSize == Options.Unset
    requires Cut(blocks, Packets.DefaultBlockSize)
    requires |Concat(blocks)| <= Sram.SramSize
    ensures var file := Concat(blocks);
      var r := Receive(sram, peer, request, Receiver.DataEvents(peer, 1, blocks));
      && r.outcome.Completed? && r.rest == []
      && r.sram[..|file|] == file && r.sram[|file|..] == sram[|file|..]
      && r.out == [Datagram(peer, Packets.EncodeAck(0)), Datagram(peer, Packets.EncodeAck(0))]
                  + Receiver.Acks(peer, 1, |blocks|)
  {
    var events := Receiver.DataEvents(peer, 1, blocks);
    var q := Receiver.Run(Receiver.Start(peer, Options.Unset, sram), events);
    FromLegacyStart(sram, peer, blocks);
    ReceiveReports(sram, peer, request, events);
  }

  /** How `Receive` reports a receiver that finished. */
  lemma ReceiveReports(sram: seq<byte>, peer: Endpoint, request: Options.Request, events: seq<Event>)
    requires |sram| == Sram.SramSize
    requires Receiver.Run(Receiver.Start(peer, request.blockSize, sram), events).last.Finished?
    ensures var q := Receiver.Run(Receiver.Start(peer, request.blockSize, sram), events);
      Receive(sram, peer, request, events) == PollResult(true, q.last.out, Completed, q.last.state.file.mem, q.rest)
  {
  }

  /** The receiver, started by a write request without options, takes a file
      sent block by block into the start of SRAM. */
  lemma FromLegacyStart(sram: seq<byte>, peer: Endpoint, blocks: seq<seq<byte>>)
    requires |sram| == Sram.SramSize
    requires Cut(blocks, Packets.DefaultBlockSize)
    requires |Concat(blocks)| <= Sram.SramSize
    ensures var file := Concat(blocks);
      var q := Receiver.Run(Receiver.Start(peer, Options.Unset, sram), Receiver.DataEvents(peer, 1, blocks));
      && q.last.Finished? && q.rest == [] && Sram.Valid(q.last.state.file)
      && q.last.state.file.mem[..|file|] == file && q.last.state.file.mem[|file|..] == sram[|file|..]
      && q.last.out == [Datagram(peer, Packets.EncodeAck(0)), Datagram(peer, Packets.EncodeAck(0))]
                       + Receiver.Acks(peer, 1, |blocks|)
  {
    var ack := Datagram(peer, Packets.EncodeAck(0));
    var s := Receiver.State(peer, Packets.DefaultBlockSize, 0, 0, Sram.Open(sram, true), 0);
    assert Receiver.Start(peer, Options.Unset, sram) == Running(s, [ack, ack]);
    assert NextNumber(0) == 1;
    Receiver.ReceivesAll(s, [ack, ack], blocks);
    var q := Receiver.Run(Running(s, [ack, ack]), Receiver.DataEvents(peer, 1, blocks));
    var file := Concat(blocks);
    SameFrom(q.last.state.file.mem, sram, |file|);
  }

  /** Sequences that agree from `k` on have the same suffix from `k`. */
  lemma SameFrom(m: seq<byte>, n: seq<byte>, k: nat)
    requires |m| == |n| && k <= |m|
    requires forall i :: 0 <= i < |m| && !(0 <= i < k) ==> m[i] == n[i]
    ensures m[k..] == n[k..]
  {
  }

  /** A write request followed by eleven timeouts in a row: ACK(0) goes out
      twice, is sent again on each of the first ten timeouts, and the
      eleventh ends the transfer with an ERROR "Transfer timed out". */
  lemma WriteTimesOut(sram: seq<byte>, peer: Endpoint, filename: seq<byte>, mode: seq<byte>)
    requires |sram| == Sram.SramSize && 0 !in filename && 0 !in mode
    requires |RequestBytes(Packets.WriteOp, filename, mode, [])| <= RequestCapacity
    ensures var ack := Datagram(peer, Packets.EncodeAck(0));
      var r := Poll(sram, Some(Datagram(peer, RequestBytes(Packets.WriteOp, filename, mode, []))),
                    Repeat(TimedOut, Retry.MaxTimeouts + 1));
      && r.outcome == Failed(TransferTimedOut)
      && r.out == [ack, ack] + Repeat(ack, Retry.MaxTimeouts) + [ErrorTo(peer, TransferTimedOut)]
  {
    var events := Repeat(TimedOut, Retry.MaxTimeouts + 1);
    WriteDispatched(sram, peer, filename, mode, [], events);
    var request := Options.Request(filename, mode, Options.Unset);
    var ack := Datagram(peer, Packets.EncodeAck(0));
    var s := Receiver.State(peer, Packets.DefaultBlockSize, 0, 0, Sram.Open(sram, true), 0);
    assert Receiver.Start(peer, Options.Unset, sram) == Running(s, [ack, ack]);
    Receiver.EleventhTimeoutAborts(s, [ack, ack]);
    assert Receiver.AckLast(s) == ack;
    ReceiveReportsFailure(sram, peer, request, events);
  }

  /** How `Receive` reports a receiver that failed: an ERROR to the peer the
      receiver last heard from follows what it sent. */
  lemma ReceiveReportsFailure(sram: seq<byte>, peer: Endpoint, request: Options.Request, events: seq<Event>)
    requires |sram| == Sram.SramSize
    requires Receiver.Run(Receiver.Start(peer, request.blockSize, sram), events).last.Aborted?
    ensures var q := Receiver.Run(Receiver.Start(peer, request.blockSize, sram), events).last;
      Receive(sram, peer, request, events).out == q.out + [ErrorTo(q.state.peer, q.failure)]
      && Receive(sram, peer, request, events).outcome == Failed(q.failure)
  {
  }
}
