/** The TFTP packets of section 5 of RFC 1350, with the option
    acknowledgement of RFC 2347: how the server reads a datagram, and the
    packets it builds. */
module Packets {
  import opened Base
  import Options
  import Numerals

  const ReadOp: u16 := 1
  const WriteOp: u16 := 2
  const DataOp: u16 := 3
  const AckOp: u16 := 4
  const ErrorOp: u16 := 5
  const OptionAckOp: u16 := 6

  /** The opcode, block number or error code that precedes the body of a
      DATA, ACK or ERROR packet. */
  const HeaderSize: nat := 4

  /** The block size of section 5 of RFC 1350, used when no `blksize`
      option was given. */
  const DefaultBlockSize: nat := 512

  /** "Access violation", the code of every ERROR the server sends. */
  const AccessViolation: u16 := 2

  /** A datagram as the server reads it. Requests and option
      acknowledgements keep the bytes after their opcode for the option
      parser. `Truncated` is a DATA, ACK or ERROR too short for its header,
      or a datagram too short for an opcode. */
  datatype Packet =
    | ReadRequest(area: seq<byte>)
    | WriteRequest(area: seq<byte>)
    | Data(block: u16, payload: seq<byte>)
    | Ack(block: u16)
    | Error(code: u16, message: seq<byte>)
    | OptionAck(area: seq<byte>)
    | Unknown(opcode: u16)
    | Truncated

  /** Reads the opcode and then the fields that opcode announces. The text of
      an ERROR ends at its NUL or at the end of the datagram. */
  function Decode(b: seq<byte>): (p: Packet)
    ensures p.Truncated? <==> |b| < 2 || (ReadU16(b, 0) in {DataOp, AckOp, ErrorOp} && |b| < HeaderSize)
    ensures p.Unknown? ==> p.opcode !in {ReadOp, WriteOp, DataOp, AckOp, ErrorOp, OptionAckOp}
  {
    if |b| < 2 then Truncated
    else
      var op := ReadU16(b, 0);
      if op == ReadOp then ReadRequest(b[2..])
      else if op == WriteOp then WriteRequest(b[2..])
      else if op == OptionAckOp then OptionAck(b[2..])
      else if op !in {DataOp, AckOp, ErrorOp} then Unknown(op)
      else if |b| < HeaderSize then Truncated
      else if op == DataOp then Data(ReadU16(b, 2), b[HeaderSize..])
      else if op == AckOp then Ack(ReadU16(b, 2))
      else Error(ReadU16(b, 2), CString(b[HeaderSize..]))
  }

  /** An ACK is read from its first four bytes alone: what follows them in
      the buffer does not change it. */
  lemma AckHeaderOnly(b: seq<byte>, c: seq<byte>)
    requires Decode(b).Ack? && HeaderSize <= |c| && c[..HeaderSize] == b[..HeaderSize]
    ensures Decode(c) == Decode(b)
  {
    assert c[0] == b[0] && c[1] == b[1] && c[2] == b[2] && c[3] == b[3];
  }

  /** `SendAck`: the four bytes of an ACK. */
  function EncodeAck(block: u16): (r: seq<byte>)
    ensures |r| == HeaderSize
    ensures Decode(r) == Ack(block)
  {
    BigEndian(AckOp) + BigEndian(block)
  }

  /** The DATA packet the sender builds in its buffer: header, then the bytes
      read from the file. */
  function EncodeData(block: u16, payload: seq<byte>): (r: seq<byte>)
    ensures |r| == HeaderSize + |payload|
    ensures Decode(r) == Data(block, payload)
  {
    var r := BigEndian(DataOp) + BigEndian(block) + payload;
    assert r[HeaderSize..] == payload;
    r
  }

  /** `SendError`: code 2 and the message, copied up to its NUL and
      terminated. */
  function EncodeError(message: seq<byte>): (r: seq<byte>)
    ensures |r| == HeaderSize + |CString(message)| + 1
    ensures r[|r| - 1] == 0
    ensures Decode(r) == Error(AccessViolation, CString(message))
  {
    var text := CString(message);
    var r := BigEndian(ErrorOp) + BigEndian(AccessViolation) + text + [0];
    assert r[HeaderSize..] == text + [0] + [];
    CStringOfTerminated(text, []);
    r
  }

  /** `SendOAck`: the `blksize` option, its value written with `%i`. */
  function EncodeOAck(blockSize: int): (r: seq<byte>)
    ensures |r| == 2 + |Options.BlksizeName| + 1 + |Numerals.FormatInt(blockSize)| + 1
    ensures Decode(r) == OptionAck(r[2..])
  {
    var options := [(Options.BlksizeName, Numerals.FormatInt(blockSize))];
    assert options[1..] == [];
    assert Options.EncodeOptions(options) == options[0].0 + [0] + options[0].1 + [0] + Options.EncodeOptions([]);
    BigEndian(OptionAckOp) + Options.EncodeOptions(options)
  }

  /** An option acknowledgement announces exactly one option, `blksize`, and
      a client reading it with the server's own parser finds the block size
      the server chose. */
  lemma OAckAdvertises(blockSize: int)
    ensures Options.Pairs(EncodeOAck(blockSize)[2..])
         == [(Options.BlksizeName, Numerals.FormatInt(blockSize))]
    ensures Options.Fold(Options.Unset, Options.Pairs(EncodeOAck(blockSize)[2..])) == blockSize
  {
    var options := [(Options.BlksizeName, Numerals.FormatInt(blockSize))];
    var r := EncodeOAck(blockSize);
    assert r[2..] == Options.EncodeOptions(options);
    assert 0 !in Options.BlksizeName by {
      assert Options.BlksizeName == [98, 108, 107, 115, 105, 122, 101];
    }
    assert Options.WellFormed(options);
    Options.PairsRoundTrip(options);
    Numerals.ScanFormatRoundTrip(blockSize);
    assert options[1..] == [];
  }
}
