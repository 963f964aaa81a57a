# tftpds: the TFTP server and the SRAM stream, in Dafny

tftpds is a TFTP server for the Nintendo DS. It serves one file, the
256 KiB SRAM of the cartridge slot. A read request streams SRAM out, and a
write request stores the incoming file at the start of SRAM. This project
models the server's protocol engine and the SRAM byte stream as pure
functions and proves what they do:

- `Base`: bytes, 16-bit big-endian fields, NUL-terminated strings bounded
  by the datagram, datagrams, the failures a transfer throws, and the shape
  of a transfer session (`Running`, `Finished`, `Aborted`, `Undefined`).
- `Numerals`: `sprintf("%i")` and `sscanf("%i")`, used for the value of
  the `blksize` option.
- `Options`: `ParseOptions`, both as the pointer walk the server does and as
  a declarative decoding of the request. Its inverse is the layout a client
  sends.
- `Packets`: the packets of section 5 of RFC 1350 and the option
  acknowledgement of RFC 2347. It has the decoder and the ACK, DATA, ERROR
  and OACK encoders, and each encoder is proved to decode back.
- `Sram`: `SramFile`, which holds a cursor into the 256 KiB region. It can
  be open for reading, open for writing, or closed.
- `Retry`: `ReceiveMsg`, which truncates a datagram to the receive buffer
  and counts consecutive timeouts. The eleventh timeout in a row ends the
  transfer.
- `Receiver`: `ReceiveFile` as a step function over events. This covers
  block-number checking, the Sorcerer's Apprentice rule, writes and ACKs.
- `Sender`: `SendFile` as a step function over events, as the code has
  it. This covers stop-and-wait retransmission of the block in flight. The
  reply to a DATA packet is received into the buffer that holds that packet,
  so a retransmission sends whatever the buffer then holds. A corrected
  step, with a buffer of its own for replies, is defined beside it and
  proved to send only DATA packets (see "## Findings"). Runs and polls use
  the step as written.
- `Server`: `Poll`. It dispatches on the opcode, runs a whole transfer over
  a sequence of socket events, and turns a thrown failure into an ERROR
  packet.

Sockets and the timer become inputs. A poll receives the datagram that
`recvfrom` returned, or `None` for `EAGAIN`. It also receives the sequence
of events that the transfer's waits would see, where each event is a
datagram or a timeout. Every packet the server sends is collected in order.
Each `sendto` goes to the sender of the most recent datagram. This follows
the source: `remote` is overwritten by every receive, so the model does
not lock onto one peer.

A transfer calls `Close` on its stream only when it completes (lines 255
and 323 of `tftpserver.cpp`). A transfer that throws leaves its stream
neither closed nor deleted, so an aborted transfer in the model keeps its
stream open.

## Model

| member | source | states |
|---|---|---|
| Base.BigEndian | trunk/tftpds/arm9/source/tftpserver.cpp:373-374 | the two bytes of a 16-bit field, most significant first, read back as that field |
| Base.CString | trunk/tftpds/arm9/source/tftpserver.cpp:399-402 | a string read from a datagram is a prefix of it without NUL, stopped by the first NUL or by the end of the datagram |
| Base.CStringOfTerminated | trunk/tftpds/arm9/source/tftpserver.cpp:399-402 | a NUL-terminated text is read back as exactly that text, whatever follows it |
| Numerals.ScanInt | trunk/tftpds/arm9/source/tftpserver.cpp:413 | the conversion fails, leaving the block size alone, exactly when no digit follows the white space and optional sign |
| Numerals.FormatInt | trunk/tftpds/arm9/source/tftpserver.cpp:425 | the number written for an OACK holds no NUL, so it survives the `strcpy` into the packet |
| Numerals.Decimal | trunk/tftpds/arm9/source/tftpserver.cpp:425 | decimal text is all digits, is non-empty, and has no leading zero except for zero itself |
| Numerals.DecimalValue | trunk/tftpds/arm9/source/tftpserver.cpp:425 | the decimal text of n denotes n |
| Numerals.ScanFormatRoundTrip | trunk/tftpds/arm9/source/tftpserver.cpp:413-425 | every integer the server writes with `%i` reads back with `%i` as the same integer |
| Options.ParseOptions | trunk/tftpds/arm9/source/tftpserver.cpp:395-416 | the parser returns the file name, the mode and the block size of the declarative decoding of the request, on every input including truncated ones |
| Options.WalkOptions | trunk/tftpds/arm9/source/tftpserver.cpp:403-415 | the pointer walk starting from -1 yields the block size that applying the option pairs in order gives |
| Options.WalkStep | trunk/tftpds/arm9/source/tftpserver.cpp:406-414 | one turn of the walk applies the first remaining name/value pair and moves exactly past both strings |
| Options.PairsRoundTrip | trunk/tftpds/arm9/source/tftpserver.cpp:404-409 | options a client lays out as NUL-terminated name/value pairs are read back as exactly those pairs |
| Options.RequestRoundTrip | trunk/tftpds/arm9/source/tftpserver.cpp:395-416 | a request laid out as file name, mode and options decodes to that file name and mode, with the block size its options select |
| Options.Apply | trunk/tftpds/arm9/source/tftpserver.cpp:411-414 | a `blksize` option whose text scans with `%i` sets the block size to the scanned value; an option with any other name, compared exactly, or text that does not scan leaves the block size alone |
| Options.ApplyFormatted | trunk/tftpds/arm9/source/tftpserver.cpp:411-414 | a `blksize` option carrying a number written with `%i` selects that number, whatever was selected before |
| Options.ForeignOptionsIgnored | trunk/tftpds/arm9/source/tftpserver.cpp:411-414 | options not named `blksize` never change the block size, so without a `blksize` option it stays -1 |
| Options.LastOptionApplied | trunk/tftpds/arm9/source/tftpserver.cpp:404-415 | options take effect in order, so the last readable `blksize` wins |
| Packets.Decode | trunk/tftpds/arm9/source/tftpserver.cpp:28-75 | a datagram is too short for its fields exactly when it lacks an opcode, or is a DATA, ACK or ERROR without a full header; an unknown opcode is none of the six |
| Packets.AckHeaderOnly | trunk/tftpds/arm9/source/tftpserver.cpp:296-302 | an ACK is read from its four header bytes alone, so any bytes that start with the same four decode as the same ACK |
| Packets.EncodeAck | trunk/tftpds/arm9/source/tftpserver.cpp:370-378 | an ACK is four bytes and decodes as an ACK of the same block |
| Packets.EncodeData | trunk/tftpds/arm9/source/tftpserver.cpp:281-289 | a DATA packet is the header and the payload, and decodes back to the same block and payload |
| Packets.EncodeError | trunk/tftpds/arm9/source/tftpserver.cpp:380-393 | an ERROR carries code 2 and the message up to its NUL, ends with a NUL, and decodes back to that code and message |
| Packets.EncodeOAck | trunk/tftpds/arm9/source/tftpserver.cpp:418-435 | the OACK's length is the sum the source passes to `sendto`, and it decodes as an option acknowledgement |
| Packets.OAckAdvertises | trunk/tftpds/arm9/source/tftpserver.cpp:418-435 | an OACK announces the single option `blksize`, and the server's own parser reads back from it the block size being acknowledged |
| Sram.Open | tftpds/arm9/source/sramfile.cpp:11-15 | a new stream has its cursor at the start of SRAM and is in write mode exactly when asked for writing, otherwise in read mode |
| Sram.Clamped | tftpds/arm9/source/sramfile.cpp:38-39 | a read copies the length asked for, or stops at the end of SRAM, and never passes it |
| Sram.Read | tftpds/arm9/source/sramfile.cpp:31-47 | outside read mode it fails with "Illegal state"; otherwise it returns the bytes under the cursor, as many as asked for or up to the end of SRAM, and moves the cursor past them |
| Sram.Write | tftpds/arm9/source/sramfile.cpp:49-65 | outside write mode it fails with "Illegal state"; a write past the end of SRAM fails with "Write outside sram" and stores nothing; otherwise it stores the bytes under the cursor, moves the cursor past them and changes no other byte |
| Sram.Close | tftpds/arm9/source/sramfile.cpp:67-70 | closing keeps the contents and the cursor and leaves the stream closed |
| Sram.Release | tftpds/arm9/source/sramfile.cpp:17-29 | destruction leaves the stream closed, with contents and cursor kept |
| Sram.ClosedRefusesIO | tftpds/arm9/source/sramfile.cpp:31-70 | after `Close`, both a read and a write fail with "Illegal state" |
| Sram.ReleaseAfterClose | tftpds/arm9/source/sramfile.cpp:17-29 | destroying a closed stream changes nothing, and destroying twice is destroying once |
| Sram.ReadsConcatenate | tftpds/arm9/source/sramfile.cpp:38-46 | two reads in a row return what one read of both lengths returns |
| Sram.WritesConcatenate | tftpds/arm9/source/sramfile.cpp:56-64 | two writes in a row that fit store what one write of both blocks stores |
| Sram.WriteThenRead | tftpds/arm9/source/sramfile.cpp:31-64 | what a write from the start of SRAM stores, a stream opened later for reading returns |
| Retry.Truncate | trunk/tftpds/arm9/source/tftpserver.cpp:335-340 | a receive keeps the first bytes of the datagram, as many as the buffer holds |
| Retry.ReceiveMsg | trunk/tftpds/arm9/source/tftpserver.cpp:328-356 | a datagram is handed on, truncated to the buffer, with the sender's address; a timeout increments the count and is tolerated while the count stays at or below 10; the eleventh timeout in a row ends the transfer |
| Receiver.Start | trunk/tftpds/arm9/source/tftpserver.cpp:181-200 | a write opens SRAM for writing at its start; without a negotiated size the block size becomes 512 and ACK(0) goes out twice, otherwise an OACK is followed by ACK(0); the timeout count starts at 0 |
| Receiver.Step | trunk/tftpds/arm9/source/tftpserver.cpp:202-253 | a running receiver keeps its stream open for writing with the cursor after the bytes received; it only ever sends ACKs of its last block; the block number stays or advances by one modulo 2^16; SRAM changes only in the bytes newly received; timeouts re-send the last ACK until the eleventh |
| Receiver.OnData | trunk/tftpds/arm9/source/tftpserver.cpp:214-240 | the expected block advances the block number and is written right after the bytes received; any other block leaves the state as it was |
| Receiver.Acknowledge | trunk/tftpds/arm9/source/tftpserver.cpp:202-255 | the block just written is acknowledged; the receiver goes on exactly when the block was full, and otherwise closes the stream |
| Receiver.Run | trunk/tftpds/arm9/source/tftpserver.cpp:202-253 | a session that is still running has consumed every event; it keeps its invariant and never sends less than before |
| Receiver.RunConsumesPrefix | trunk/tftpds/arm9/source/tftpserver.cpp:202-253 | the events a session leaves are a suffix of those it was given |
| Receiver.AcceptsExpectedBlock | trunk/tftpds/arm9/source/tftpserver.cpp:217-252 | DATA with the expected number is written right after the bytes received and acknowledged to its sender with its number; the transfer goes on exactly when the block is full |
| Receiver.UnexpectedBlock | trunk/tftpds/arm9/source/tftpserver.cpp:217-228 | DATA with another number changes neither the block number nor SRAM; ACK(last) goes out again when its number is above the expected one, and nothing when below |
| Receiver.DuplicateNotAcked | trunk/tftpds/arm9/source/tftpserver.cpp:221-228 | a second copy of the last block is not acknowledged again, which avoids the Sorcerer's Apprentice problem |
| Receiver.WrapDuplicateAcked | trunk/tftpds/arm9/source/tftpserver.cpp:223-226 | after block 65535 the expected number wraps to 0, so the plain comparison finds a repeated block 65535 too high and re-sends its ACK |
| Receiver.PeerErrorAborts | trunk/tftpds/arm9/source/tftpserver.cpp:242-246 | an ERROR from the peer ends the transfer with the peer's message |
| Receiver.OtherPacketAborts | trunk/tftpds/arm9/source/tftpserver.cpp:248-249 | any packet other than DATA or ERROR ends the transfer with "Unexpected operation" |
| Receiver.WriteBeyondSramAborts | trunk/tftpds/arm9/source/tftpserver.cpp:230-235 | the expected block that does not fit in SRAM ends the transfer with "Write outside sram" before any byte is written |
| Receiver.TimeoutsTolerated | trunk/tftpds/arm9/source/tftpserver.cpp:204-209 | up to ten consecutive timeouts each re-send the last ACK and change nothing else |
| Receiver.EleventhTimeoutAborts | trunk/tftpds/arm9/source/tftpserver.cpp:350-354 | eleven consecutive timeouts send ten re-sent ACKs, then end the transfer with "Transfer timed out" |
| Receiver.TimeoutsExhaust | trunk/tftpds/arm9/source/tftpserver.cpp:350-354 | from any count, the timeout that takes the count past 10 ends the transfer, after one ACK per earlier timeout |
| Receiver.ReceivesAll | trunk/tftpds/arm9/source/tftpserver.cpp:202-255 | a file sent in order as full blocks and one short block ends up right after what was received before, with one ACK per block and no other byte of SRAM changed; the transfer finishes after the short block |
| Sender.Start | trunk/tftpds/arm9/source/tftpserver.cpp:260-289 | a read sends an OACK when a size was negotiated, opens SRAM for reading and sends DATA 1 with the first block of SRAM right away, without waiting for an ACK; the block size defaults to 512 |
| Sender.NextBlock | trunk/tftpds/arm9/source/tftpserver.cpp:281-289 | the next block carries the next number modulo 2^16 and the bytes that follow the cursor, a full block or what is left of SRAM, and is sent once |
| Sender.Overlay | trunk/tftpds/arm9/source/tftpserver.cpp:291 | a receive into the DATA buffer replaces its front with the datagram and keeps its length |
| Sender.Seen | trunk/tftpds/arm9/source/tftpserver.cpp:291-296 | the bytes a packet is read from start with the datagram received and, when it is shorter than the buffer, go on with the rest of the packet the buffer held |
| Sender.OnPacket | trunk/tftpds/arm9/source/tftpserver.cpp:296-319 | the acknowledged count moves on by one exactly when the packet is the ACK of the block in flight; an ACK of another block re-sends the buffer; an ERROR ends the transfer with its message; any other packet ends it with "Unexpected operation"; the reply address, block size and timeout count are kept |
| Sender.Acked | trunk/tftpds/arm9/source/tftpserver.cpp:279-323 | after the awaited ACK the sender goes on exactly when the block in flight was full; otherwise it finishes, sends nothing more and closes the stream |
| Sender.AckedMoves | trunk/tftpds/arm9/source/tftpserver.cpp:279-309 | after the awaited ACK the sender sends the next stretch of SRAM, or finishes because a short block only happens at the end of SRAM |
| Sender.StepAsWritten | trunk/tftpds/arm9/source/tftpserver.cpp:287-320 | one wait of the sender as written: SRAM is never changed; a datagram resets the timeout count and redirects replies to its sender; a timeout re-sends the buffer while the count stays at or below 10, and the eleventh ends the transfer with "Transfer timed out"; the acknowledged count moves on by at most one; a sender that goes on sends its buffer as it then stands, one that ends sends nothing; no input leads to undefined behaviour |
| Sender.WrittenAdvances | trunk/tftpds/arm9/source/tftpserver.cpp:279-320 | as written, whatever arrives, a running sender is still on the next stretch of SRAM with a buffer as long as that block's DATA packet, and it finishes only after the short block at the end of SRAM is acknowledged |
| Sender.Step | trunk/tftpds/arm9/source/tftpserver.cpp:287-320 | the corrected step of the finding below, not the code's own behaviour: with replies received into a buffer of their own, every packet sent is DATA of the block in flight; that block is always the next stretch of SRAM and its number is the count of blocks sent modulo 2^16; the transfer finishes only once all of SRAM is acknowledged; SRAM is never changed; a datagram resets the timeout count; timeouts re-send until the eleventh |
| Sender.OffsetNext | tftpds/arm9/source/sramfile.cpp:38-46 | successive clamped reads of full blocks cover SRAM block after block, stopping at its end |
| Sender.NumberCount | trunk/tftpds/arm9/source/tftpserver.cpp:281 | incrementing a block number modulo 2^16 agrees with counting blocks |
| Sender.Run | trunk/tftpds/arm9/source/tftpserver.cpp:279-321 | a session of the sender as written that is still running has consumed every event; it never sends less than before, never reaches undefined behaviour, and SRAM stays as it was |
| Sender.RunConsumesPrefix | trunk/tftpds/arm9/source/tftpserver.cpp:279-321 | the events a session leaves are a suffix of those it was given |
| Sender.AckReadWhole | trunk/tftpds/arm9/source/tftpserver.cpp:291-302 | an ACK that arrives whole is read as that ACK, however the receive buffer cuts it and whatever the buffer held before |
| Sender.AckAdvances | trunk/tftpds/arm9/source/tftpserver.cpp:279-309 | as written, the ACK of a full block sends the next block, numbered one higher modulo 2^16, with the bytes that follow in SRAM, as an intact DATA packet |
| Sender.ShortBlockAckFinishes | trunk/tftpds/arm9/source/tftpserver.cpp:279-325 | the ACK of a short block ends the transfer, closes the stream and sends nothing more |
| Sender.OtherAckResends | trunk/tftpds/arm9/source/tftpserver.cpp:299-309 | in the corrected step of the finding below, not in the code: an ACK of another block changes nothing but the reply address and the timeout count, and DATA of the block in flight goes out again |
| Sender.StrayAckCorruptsRetransmission | trunk/tftpds/arm9/source/tftpserver.cpp:287-296 | as written, a stray ACK is received into the DATA buffer, so the retransmission that follows decodes as that ACK and not as DATA |
| Sender.BareAckOpcodeAccepted | trunk/tftpds/arm9/source/tftpserver.cpp:291-304 | as written, a two-byte datagram holding only the ACK opcode has its block number read from the DATA header left in the buffer and is taken for the awaited ACK; the corrected step ends the transfer with "Unexpected operation" instead |
| Sender.TimeoutsTolerated | trunk/tftpds/arm9/source/tftpserver.cpp:289-294 | up to ten consecutive timeouts each re-send the block in flight and change nothing else |
| Sender.EleventhTimeoutAborts | trunk/tftpds/arm9/source/tftpserver.cpp:350-354 | eleven consecutive timeouts send ten retransmissions, then end the transfer with "Transfer timed out" |
| Sender.TimeoutsExhaust | trunk/tftpds/arm9/source/tftpserver.cpp:350-354 | from any count, the timeout that takes the count past 10 ends the transfer, after one retransmission per earlier timeout |
| Sender.NegotiatedReadAnsweredWithAck | trunk/tftpds/arm9/source/tftpserver.cpp:262-302 | a client that acknowledges the OACK with ACK(0) gets ACK(0) back as the retransmission as written, and DATA 1 with the buffer kept intact |
| Sender.CutFromCovers | tftpds/arm9/source/sramfile.cpp:38-46 | the blocks a sender cuts SRAM into from an offset are all full except the last, and together they are the rest of SRAM |
| Sender.SendsAll | trunk/tftpds/arm9/source/tftpserver.cpp:279-326 | as written, a sender in flight whose client acknowledges every block it gets finishes with no ACK left over, having sent exactly the DATA packets of the rest of SRAM, numbered on from the block in flight |
| Sender.ReadDeliversSram | trunk/tftpds/arm9/source/tftpserver.cpp:260-326 | from the start of a read with no block size or a positive one, a client that acknowledges every block gets all of SRAM cut into blocks of that size and numbered from 1, after the OACK if a size was negotiated, and the transfer finishes on its last ACK |
| Server.ErrorTo | trunk/tftpds/arm9/source/tftpserver.cpp:380-393 | the ERROR for a failure goes to the given peer with code 2 and the failure's text |
| Server.Conclude | trunk/tftpds/arm9/source/tftpserver.cpp:172-178 | a poll that handled a datagram reports true; a thrown failure is reported with exactly one ERROR after what the transfer sent; a completed transfer sends nothing more |
| Server.Poll | trunk/tftpds/arm9/source/tftpserver.cpp:116-179 | without a datagram nothing happens and Poll returns false; with one it returns true, consumes a prefix of the events, leaves SRAM its size, and ends every failure with an ERROR carrying the failure's text |
| Server.Send | trunk/tftpds/arm9/source/tftpserver.cpp:152-158 | a read request runs the sender as written; it never changes SRAM, and a failed read ends with an ERROR |
| Server.Receive | trunk/tftpds/arm9/source/tftpserver.cpp:160-166 | a write request leaves SRAM as the stream wrote it, and a failed write ends with an ERROR |
| Server.PollDispatches | trunk/tftpds/arm9/source/tftpserver.cpp:150-166 | opcode 1 runs the sender and opcode 2 runs the receiver, each with the request its bytes decode to |
| Server.RequestDecodes | trunk/tftpds/arm9/source/tftpserver.cpp:150-163 | a request as a client lays it out decodes as a request of its opcode with its file name, mode and selected block size |
| Server.OtherDatagramRefused | trunk/tftpds/arm9/source/tftpserver.cpp:168-178 | any datagram that is not a request is answered with exactly one ERROR "Unexpected operation", SRAM unchanged, and Poll still returns true |
| Server.ReadLeavesSram | trunk/tftpds/arm9/source/tftpserver.cpp:152-158 | whatever happens during a read transfer, SRAM is as it was |
| Server.ReadSendsSram | trunk/tftpds/arm9/source/tftpserver.cpp:152-158 | a read request without options, answered by an ACK for every block, completes having sent all of SRAM in 512-byte DATA packets numbered from 1, SRAM unchanged and no event left over |
| Server.SendDeliversSram | trunk/tftpds/arm9/source/tftpserver.cpp:260-326 | the sender started by a read with no block size or a positive one, given an ACK for every block, completes having sent the OACK if any and then all of SRAM block by block |
| Server.ReadDispatched | trunk/tftpds/arm9/source/tftpserver.cpp:152-158 | a read request runs the sender with the block size its options select |
| Server.WriteDispatched | trunk/tftpds/arm9/source/tftpserver.cpp:160-166 | a write request runs the receiver with the block size its options select |
| Server.BlksizeOption | trunk/tftpds/arm9/source/tftpserver.cpp:411-414 | a single `blksize` option written with `%i` selects exactly the size it carries |
| Server.NegotiatedReadStarts | trunk/tftpds/arm9/source/tftpserver.cpp:262-289 | a read request with a `blksize` option is answered with the OACK and then, without waiting, DATA 1 holding the first block of SRAM |
| Server.WriteStoresFile | trunk/tftpds/arm9/source/tftpserver.cpp:181-258 | a write request without options, followed by a file in 512-byte blocks, completes with the file at the start of SRAM and the rest of SRAM kept; ACK(0) goes out twice, then one ACK per block |
| Server.ReceiveStoresFile | trunk/tftpds/arm9/source/tftpserver.cpp:181-258 | the receiver takes a file sent block by block into the start of SRAM, and the poll reports it completed |
| Server.FromLegacyStart | trunk/tftpds/arm9/source/tftpserver.cpp:189-200 | starting without a negotiated size, a file sent block by block ends up at the start of SRAM after the two ACK(0) |
| Server.ReceiveReports | trunk/tftpds/arm9/source/tftpserver.cpp:255-258 | a finished receiver is reported completed, with SRAM as the stream left it |
| Server.ReceiveReportsFailure | trunk/tftpds/arm9/source/tftpserver.cpp:172-176 | a failed receiver is reported failed, with one ERROR to the peer it last heard from after what it sent |
| Server.WriteTimesOut | trunk/tftpds/arm9/source/tftpserver.cpp:345-354 | a write request followed by eleven timeouts sends ACK(0) twice, re-sends it ten times, then sends an ERROR "Transfer timed out" |

## Left out

- Sockets: `socket`, `bind`, `recvfrom` and `sendto` become inputs and outputs. In `Poll`, a failing `recvfrom` other than `EAGAIN` throws before any transfer starts; that case is not modelled. In `ReceiveMsg`, a failing `recvfrom` is retried until the timer expires, which the model folds into the `TimedOut` event. A failing `sendto` throws a text that is not a failure of the protocol, and it is not modelled.
- The hardware timer: a wait either delivers a datagram or ends in a `TimedOut` event. The two-second length of a wait is not modelled.
- `printf` progress output, the counters that exist only to print it (`blocksAcked`, `bytesReceived` beyond its role as the write offset), and the address printout in `Poll`.
- `FileFactory` is not part of this model. Every transfer uses the SRAM stream and ignores the file name and mode, which is what `SramFile`'s constructor does with its name.
- `delete file` on completion, and the memory leaked when a transfer throws, because allocation is not modelled.
- Receiver.Start: a negotiated block size below -1 ends the model in `Undefined` once the ACK or OACK has gone out. For -4 to -2 the source allocates a receive buffer of 0 to 2 bytes. It reads header fields past that buffer's end only when a datagram arrives, and for -2 only when that datagram is a DATA or ERROR packet. The model does not follow those transfers up to that point. Below -4 the array size itself is negative. Large sizes are not modelled either. A size the DS cannot allocate, such as 100000000, makes `new` at line 199 throw `std::bad_alloc`. The `catch (const char*)` at line 172 does not catch it, so the program terminates, whereas the model runs the transfer as if the allocation succeeded. A size within 4 of `INT_MAX` overflows the `int` sum `TFTP_HEADERSIZE + blocksize`, which is undefined behaviour; the model's sum does not wrap.
- Sender.Start: a negotiated block size below -1 ends the model in `Undefined`. For -4 to -2 the source sends the OACK, then writes the DATA header's block number past the end of a buffer of 0 to 2 bytes, before any DATA goes out. Below -4 the array size itself is negative. Large sizes are not modelled either. A size the DS cannot allocate makes `new` at line 278 throw `std::bad_alloc`, which the `catch (const char*)` at line 172 does not catch, so the program terminates; the model runs the transfer as if the allocation succeeded. A size within 4 of `INT_MAX` overflows the `int` sum `TFTP_HEADERSIZE + blocksize`, which is undefined behaviour; the model's sum does not wrap.
- Sram.Read: the length is a natural number, because every caller passes the block size, which is never negative on a defined path.
- Numerals.ScanInt: reads into an unbounded integer. `sscanf`'s behaviour on values beyond 32 bits is undefined, so it is not modelled.
- Packets.Decode: a datagram shorter than its fixed fields decodes as `Truncated`. The source reads the missing bytes from whatever its buffer held before.
- Receiver.Step: a datagram shorter than a DATA header ends the model's transfer with "Unexpected operation". The source instead reads the missing bytes from whatever its buffer last held. That is the most recent datagram received, which may be an out-of-order DATA packet it ignored or an earlier short datagram. Before the first datagram the buffer holds uninitialised memory. Depending on those bytes, the source ignores the datagram, re-sends the last ACK, throws "Unexpected operation", or throws an ERROR text read from stale data. When the patched block number is the expected one, the source takes the datagram as a final block of negative length. It writes nothing, acknowledges that block and completes the transfer.
- Server.Poll: a request shorter than two bytes is answered with "Unexpected operation". The source reads its opcode from the uninitialised request buffer.
- Server.ReceiveReportsFailure: a transfer ended by an ERROR from the peer is reported with the peer's message, because the model's `PeerError` holds its own copy of the text. In the source, the text thrown at lines 245 and 314 of `tftpserver.cpp` points into the transfer's `auto_ptr` buffer (lines 199 and 278). Stack unwinding frees that buffer before `SendError` reads the text at line 175, so the source's ERROR reply reads freed memory. `Server.Conclude` and `Server.Poll` make the same assumption.
- Base.CString: a string stops at the end of the datagram when it has no NUL. The source's `strlen` would read past the received bytes, into the rest of its buffer and beyond.

## Findings

| source | as written | input that shows it | evidently intended | confidence | as-written member | corrected member |
|---|---|---|---|---|---|---|
| trunk/tftpds/arm9/source/tftpserver.cpp:287-296 | `SendFile` receives the reply into the same buffer that holds the DATA packet it retransmits, so any datagram other than the awaited ACK overwrites the packet's header | a negotiated read whose client acknowledges the OACK with ACK(0), as the "Negotiation Protocol" section of RFC 2347 asks; the server has already sent DATA 1, and its retransmission is the bytes of ACK(0) followed by the rest of DATA 1 | every retransmission is the DATA packet of the block in flight | not executed | Sender.StepAsWritten | Sender.Step |
