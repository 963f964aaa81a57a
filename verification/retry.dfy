/** One wait on the socket during a transfer: a datagram cut to the size of
    the receive buffer, or a timeout that the consecutive-timeout counter
    either tolerates or turns into the end of the transfer. */
module Retry {
  import opened Base

  /** How many consecutive timeouts a transfer survives. */
  const MaxTimeouts: nat := 10

  /** How a wait ended, with the timeout count it leaves behind. */
  datatype Wait =
    | Got(datagram: Datagram, timeouts: nat)
    | Retry(timeouts: nat)
    | GaveUp(timeouts: nat)

  /** What `recvfrom` stores of a datagram into a buffer of `capacity` bytes. */
  function Truncate(bytes: seq<byte>, capacity: nat): (r: seq<byte>)
    ensures r <= bytes
    ensures |r| == Min(|bytes|, capacity)
  {
    if |bytes| <= capacity then bytes else bytes[..capacity]
  }

  /** `ReceiveMsg`, with the wait for the timer replaced by the event that
      ended it. A datagram resets the counter; a timeout counts, and the
      eleventh in a row ends the transfer. */
  function ReceiveMsg(timeouts: nat, e: Event, capacity: nat): (w: Wait)
    ensures w.Got? <==> e.Arrived?
    ensures w.Got? ==>
      w.datagram.peer == e.datagram.peer && w.datagram.bytes == Truncate(e.datagram.bytes, capacity)
    ensures w.Got? ==> w.timeouts == 0
    ensures w.Retry? ==> w.timeouts == timeouts + 1 <= MaxTimeouts
    ensures w.GaveUp? <==> e.TimedOut? && timeouts >= MaxTimeouts
  {
    match e
    case Arrived(d) => Got(Datagram(d.peer, Truncate(d.bytes, capacity)), 0)
    case TimedOut =>
      if timeouts + 1 > MaxTimeouts then GaveUp(timeouts + 1) else Retry(timeouts + 1)
  }
}
