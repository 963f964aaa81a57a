/** Vocabulary shared by every part of the TFTP model: octets, 16-bit
    network-order fields, NUL-terminated strings, the datagrams the server
    exchanges, the failures that end a transfer early, and the result of
    feeding one event to a transfer session. */
module Base {

  /** An octet as it travels on the wire. */
  type byte = x: int | 0 <= x < 0x100

  /** An unsigned 16-bit quantity: opcodes, block numbers and error codes. */
  type u16 = x: int | 0 <= x < 0x1_0000

  datatype Option<+T> = None | Some(value: T)

  datatype Result<+T> = Ok(value: T) | Err(failure: Failure)

  /** Why a transfer stops early. Each case is one of the texts the server
      throws; `PeerError` carries the message of an ERROR packet it received. */
  datatype Failure =
    | IllegalState
    | WriteOutsideSram
    | UnexpectedOperation
    | TransferTimedOut
    | PeerError(message: seq<byte>)

  /** An IPv4 address and UDP port. */
  datatype Endpoint = Endpoint(address: nat, port: u16)

  /** One datagram, tagged with the peer it came from or is sent to. */
  datatype Datagram = Datagram(peer: Endpoint, bytes: seq<byte>)

  /** What one wait on the socket produces: a datagram, or the retry timer
      running out before anything arrived. */
  datatype Event = Arrived(datagram: Datagram) | TimedOut

  /** A transfer session after it has consumed zero or more events: still
      waiting, completed, aborted by a thrown failure, or past a point where
      the server's behaviour is undefined. `out` holds the datagrams it sent. */
  datatype Step<S> =
    | Running(state: S, out: seq<Datagram>)
    | Finished(state: S, out: seq<Datagram>)
    | Aborted(state: S, out: seq<Datagram>, failure: Failure)
    | Undefined(out: seq<Datagram>)

  /** `next`, with the datagrams already sent by `done` before its own. */
  function Then<S>(done: Step<S>, next: Step<S>): (r: Step<S>)
    ensures r.out == done.out + next.out
  {
    next.(out := done.out + next.out)
  }

  /** Where a session stands after a run of events, and the events it did
      not get to consume because it had already ended. */
  datatype Session<S> = Session(last: Step<S>, rest: seq<Event>)

  /** `rest` is what is left of `s` after some prefix was consumed. */
  predicate SuffixOf<T(==)>(rest: seq<T>, s: seq<T>)
  {
    |rest| <= |s| && forall i :: 0 <= i < |rest| ==> rest[i] == s[|s| - |rest| + i]
  }

  /** The block number that follows `last`, with 16-bit wrap-around. */
  function NextNumber(last: u16): u16
  {
    (last + 1) % 0x1_0000
  }

  /** The blocks of a file one after another. */
  function Concat(blocks: seq<seq<byte>>): seq<byte>
  {
    if blocks == [] then [] else blocks[0] + Concat(blocks[1..])
  }

  /** A file cut into blocks the way a sender cuts it: every block full but
      the last, which is shorter. */
  predicate Cut(blocks: seq<seq<byte>>, blockSize: nat)
  {
    && blocks != []
    && (forall i :: 0 <= i < |blocks| - 1 ==> |blocks[i]| == blockSize)
    && |blocks[|blocks| - 1]| < blockSize
  }

  function Min(a: int, b: int): int
  {
    if a <= b then a else b
  }

  /** `k` copies of `x`. */
  function Repeat<T>(x: T, k: nat): (r: seq<T>)
    ensures |r| == k
    ensures forall i :: 0 <= i < k ==> r[i] == x
  {
    if k == 0 then [] else [x] + Repeat(x, k - 1)
  }

  predicate IsAscii(s: string)
  {
    forall i :: 0 <= i < |s| ==> s[i] as int < 0x80
  }

  /** The bytes of a C string literal. */
  function Ascii(s: string): (r: seq<byte>)
    requires IsAscii(s)
    ensures |r| == |s|
  {
    seq(|s|, i requires 0 <= i < |s| => s[i] as int)
  }

  /** The text a failure is thrown with; the server copies it into the ERROR
      packet it sends. */
  function Message(f: Failure): seq<byte>
  {
    match f
    case IllegalState => Ascii("Illegal state")
    case WriteOutsideSram => Ascii("Write outside sram")
    case UnexpectedOperation => Ascii("Unexpected operation")
    case TransferTimedOut => Ascii("Transfer timed out")
    case PeerError(message) => message
  }

  /** `htons`: the two bytes of `n`, most significant first. */
  function BigEndian(n: u16): (r: seq<byte>)
    ensures |r| == 2
    ensures ReadU16(r, 0) == n
  {
    [n / 0x100, n % 0x100]
  }

  /** `ntohs` of the 16-bit field at offset `at`. */
  function ReadU16(b: seq<byte>, at: nat): u16
    requires at + 2 <= |b|
  {
    (b[at] as int) * 0x100 + b[at + 1] as int
  }

  /** `strlen`, bounded by the end of the datagram: the offset of the first
      NUL at or after `from`, or `|s|` when there is none. */
  function NulFrom(s: seq<byte>, from: nat): (n: nat)
    requires from <= |s|
    ensures from <= n <= |s|
    ensures forall i :: from <= i < n ==> s[i] != 0
    ensures n < |s| ==> s[n] == 0
    decreases |s| - from
  {
    if from == |s| || s[from] == 0 then from else NulFrom(s, from + 1)
  }

  /** What `strcpy` copies from the start of `s`: the bytes before the first
      NUL, or all of `s` when the datagram ends first. */
  function CString(s: seq<byte>): (r: seq<byte>)
    ensures r <= s
    ensures 0 !in r
    ensures |r| < |s| ==> s[|r|] == 0
  {
    s[..NulFrom(s, 0)]
  }

  /** The C string starting at offset `at`; empty once `at` is past the end. */
  function StringAt(s: seq<byte>, at: nat): seq<byte>
  {
    if at < |s| then CString(s[at..]) else []
  }

  /** A NUL-terminated text reads back as exactly that text. */
  lemma {:induction false} CStringOfTerminated(text: seq<byte>, rest: seq<byte>)
    requires 0 !in text
    ensures CString(text + [0] + rest) == text
  {
    var s := text + [0] + rest;
    if text != [] {
      assert text[0] in text;
      assert s[1..] == text[1..] + [0] + rest;
      CStringOfTerminated(text[1..], rest);
    }
  }

  /** Strings read from a datagram shifted by a prefix are the same strings. */
  lemma StringAtShift(prefix: seq<byte>, rest: seq<byte>, at: nat)
    ensures StringAt(prefix + rest, |prefix| + at) == StringAt(rest, at)
  {
    if at < |rest| {
      assert (prefix + rest)[|prefix| + at..] == rest[at..];
    }
  }
}
