# ip65: a verified model of its protocol engines, terminal and tools

ip65 is a TCP/IP stack with network applications for 6502 machines. Its state lives in bytes, ring pointers
and byte-at-a-time automata. This project states in Dafny what that code computes and proves it: imperative
code is modelled as methods over arrays, fields and loops, specified by functions on values, and the
protocol-level promises are lemmas about these functions over whole runs.

| module | what it models |
|---|---|
| `Bytes`, `Arithmetic`, `Decimal` | machine integers; multi-byte accumulators; decimal output and input |
| `Checksum`, `IpHeader` | the Internet checksum (RFC 1071); IP header creation, sending and checking (RFC 791) |
| `W5100`, `W5100Http`, `Wget65`, `Download` | a hardware socket ring shared with the chip; the HTTP opener; the file and disk writers; the download as a whole |
| `Tcp`, `TcpLaws`, `TcpStack` | the TCP engine: inbound segments, laws of what they are answered with, connect, send, close (RFC 793) |
| `Tftp`, `TftpClient` | TFTP downloads with a callback (RFC 1350) |
| `Arp`, `Dns` | the address cache and gateway test; packing, sending and skipping names (RFC 1035) |
| `Telnet`, `HttpQuery` | the telnet receive automaton (RFC 854, RFC 855); query strings (RFC 3986) |
| `LineDisplay`, `LineEditor` | the line editor: its one-row display, editing, history and completion |
| `VtScreen`, `VtSpec`, `VtTerminal`, `VtLaws`, `VtLines` | the VT100 engine: two-bank screen memory, a plain terminal, the automaton that refines it, and laws of whole streams and of the cells they leave |

Concurrency is modelled by steps: between any two accesses of the host the chip of `W5100` performs whatever a
script says, any number of arrivals, completions, acknowledgements and disconnections; the networks of `Tcp`
and `Tftp` are sequences of allowed steps. User aborts and timers are inputs (a bounded number of polls, or a
sequence of polls, in the last of which the abort key is pressed). Files, disks and screens are byte sequences or arrays of cells.

## What the proofs found

Where the code differs from its documentation or from the protocol, the model follows the code. The members
named state the exact condition under which the promise holds, or give an input for which it does not:

- The ring address `(pointer & mask) | basis` is right for all pointers if and only if the ring is aligned to
  its size (`PhysicalIsCell`); the memory size register gives such a ring exactly if socket 1's ring is not
  larger than socket 0's and both fit (`ConfigOk`).
- `write_file` and `write_device` end when the connection is seen closed after a request that granted nothing.
  What they wrote is then complete if and only if the received size register reads zero once the last command has
  ended. It is complete if the connection was closed before that request and the request found no command
  pending (`WriteFile`, `WriteDevice`). Otherwise bytes are lost: those behind a RECV that is still pending, and
  those that arrive between the request and the check of the status (`LostBehindCommit`, `LostBehindRequest`).
- A short last track in DOS order is fully written exactly if it has at most 256 or more than 3584 bytes
  (`ShortTrackLands`).
- The HTTP opener compares the received length with the size of a pointer instead of the buffer, so a response is
  refused once a turn has left exactly two bytes in the buffer (`ReceiveHeader`, `CutBehindTwo`).
- TCP: the FIN/ACK answer to a FIN is dead code, because the flag that selects it is set just before it is tested
  (`FinAnswered`, `RunSendsNoFin`). The answer to the SYN/ACK carries the previous connection's expected
  acknowledgement as its sequence number; it is right if and only if that is the new number plus one, and never on
  the first connection (`Connect`, `FirstConnect`). Before the SYN/ACK, data at a number left over from an
  earlier connection is delivered (`StaleNumberMatched`). A FIN that comes with the last data is accepted only
  when it is repeated (`FinIsLast`). A FIN accepted while data is being sent shifts the sequence number of all
  later transmissions of the call, and of no earlier ones, by one (`ShiftedBehindFin`, `FinWhileSending`). A send
  ends at the first poll behind which the last acknowledgement recorded *equals* the expected one, so a record left
  over from before the call makes it succeed at once; the abort key of the same poll makes it fail (`Send`,
  `StaleRecord`, `AbortWins`). The reset of the resend budget is
  unreachable, so that all sends of a connection share it (`Send`, `SendAll`). A SYN of another host to a port that is
  not listened on leaves its number in the acknowledgement field of the next data packet (`AckFieldFollows`).
- TFTP: of packets that are not ahead, the comparison of low block bytes takes exactly the next one and those
  late by a multiple of 256 blocks for the next (`ExpectedIsNext`, `StaleTakenForNext`). A rejection is forgotten if a
  block comes in before the timer moves (`Refused`, `Account`).
- The gateway test counts the zero octets of the netmask instead of the others; for contiguous masks it is
  right for all addresses exactly if the last two octets are zero (`ContiguousGatewayRight`, `GatewayMissed`). With
  one zero octet, the remote hosts missed are exactly those that share the gateway's first octet (`RemoteMissed`,
  `ContiguousDecides`).
- DNS: names of up to 126 characters are packed, but names of non-empty labels are asked for if and only if they
  have at most 125 characters, or 126 with a dot at the end (`AskFor`). Labels of more than 63 characters are
  packed, but cannot be read by a receiver (`UnpackPacked`, `LongLabel`).
- Telnet: a refusal is answered by the opposite refusal, so that between two such clients no negotiation ever
  ends (`NegotiationNeverEnds`). A doubled IAC is dropped, and a suboption ends at its first SE: a stream written
  by RFC 854 and RFC 855 shows exactly the user data if and only if its data holds no byte 255 and no suboption
  has anything but bytes 255 behind its first SE; its requests are answered in any case (`ScreenIsUserData`,
  `FeedRfc`).
- Query values lose the top bit of their bytes; the value looked up is the original one if and only if all its bytes
  are below 128, and the byte 128 in an earlier value makes variables appear that are not in the request
  (`LookupDecodes`, `HiddenVariable`). A name without a value takes in the next variable (`NameAlone`).
- `printint` with a field width prints what the C library would if and only if the number is not zero and fits into
  the width, and, from width 134 on, the memory behind the digits, which is then printed as well, happens to look
  like the fill characters (`FieldExact`).
- `arp_process` returns the carry set, which its header calls an error, for an awaited reply as well (`Process`).
- The line editor accepts lines of 255 characters, but browsing the history keeps only 254
  (`BrowseKeepsView`); a completion of more than 254 characters breaks the recorded length
  (`AcceptCompletion`); an empty line behind an empty prompt is not erased (`RefreshLine`).
- VT100: cursor movements agree with the plain terminal exactly within the bounds of `UpRowExact`, `DownRowExact`,
  `RightColExact` and `LeftColExact`, for whole received sequences `MovementTame`; the sequence for 200 rows up
  leaves the screen from home (`OffScreen`). Showing a cursor that is visible already inverts the character under
  it for good (`Reveal`). A position or region sequence with one parameter is ignored (`OneNumberRefused`). A control sequence of more than 256 bytes goes on in an empty buffer (`Collect`).

## Model

| member | source | states |
|---|---|---|
| `W5100.PhysicalIsCell` | apps/w5100.c:305-309 | the masked and or:d pointer walks the ring for all 65536 pointer values if and only if the ring's base is aligned to its size |
| `W5100.ConfigOk` | apps/w5100.c:147-177 | which memory size settings give socket 1 an aligned ring inside its bank, both directions; the 4K/4K split is one |
| `W5100.CellOfPointer` | apps/w5100.c:305-309 | with an aligned ring, the address computed from a 16-bit pointer register is the cell of the unbounded stream position it stands for |
| `W5100.CellsDistinct` | apps/w5100.c:270-346 | two stream positions less than a ring apart never share a memory cell, so nothing unread or unsent is overwritten |
| `W5100.CellsContiguous` | apps/w5100.c:319-323 | up to the end of the ring, auto-increment accesses hit the cells of successive stream positions |
| `W5100.RepeatedReading` | apps/w5100.c:287-297 | a two-byte register read torn by the chip yields a value it really had once it reads the same twice, and a differing pair shows progress |
| `W5100.Socket.Arrive` | apps/w5100.c:270-346 | a chip step: an arriving byte extends the received stream by exactly that byte and keeps the ring invariant |
| `W5100.Socket.Complete` | apps/w5100.c:329-346 | a chip step: finishing RECV or SEND releases or transmits exactly what was committed, so that the received size register counts exactly what the host has not committed |
| `W5100.Socket.Environment` | apps/w5100.c:270-346 | one moment of the script, any number of chip steps of any kind: the invariant is kept, received and transmitted bytes are never taken back, on an open connection with room exactly the arriving bytes are added, the command ends exactly if the moment ends it, and the connection is there as long as the peer has not closed |
| `W5100.Socket.constructor` | apps/w5100.c:147-177 | the socket behind configuration and connect satisfies the invariant, for every register setting with aligned rings and every script |
| `W5100.Socket.SettledSize` | apps/w5100.c:279-297 | the reread loop terminates and settles on a size the register has reached, however it moves meanwhile; only the first reading can settle on zero, and on a closed connection the size is exact |
| `W5100.Socket.SetAddress` | apps/w5100.c:305-323 | the address set is the cell of the next position, and the room left runs to the end of the ring |
| `W5100.Socket.DataRequest` | apps/w5100.c:270-327 | a non-zero grant means that no command is pending and that the next n port accesses hit the cells of the next n stream positions, which hold received bytes or are free; a pending command grants nothing, on a closed connection a request that found none pending grants nothing only if everything received was committed, and a register that keeps still is granted exactly, up to the end of the ring |
| `W5100.Socket.ReadData` | apps/w5100.c:270-346 | each byte read after a receive request is the next unconsumed byte of the stream |
| `W5100.Socket.WriteData` | apps/w5100.c:270-346 | each byte written after a send request lands behind the staged bytes; no staged or received byte is overwritten |
| `W5100.Socket.DataCommit` | apps/w5100.c:329-346 | a commit advances the stream position by n and starts the command, leaving the other direction alone |
| `W5100Http.SendRequest` | apps/w5100_http.c:46-90 | for every chunking of free space, what was staged is a prefix of the selector, in order and once; all of it on success, and there is no failure but a closed connection or the abort key |
| `W5100Http.SendTurn` | apps/w5100_http.c:61-89 | one turn stages exactly the next piece of the selector |
| `W5100Http.ScanPiece` | apps/w5100_http.c:118-138 | within one granted piece the scan stops exactly behind the byte that completes the first empty line |
| `W5100Http.ReceiveTurn` | apps/w5100_http.c:107-147 | one turn appends exactly the committed bytes to the buffer and ends the header exactly at its boundary |
| `W5100Http.ReceiveHeader` | apps/w5100_http.c:92-148 | for every chunking of the response, on success the committed bytes end exactly at the first CR LF CR LF; a response is refused once a turn has left exactly two bytes in the buffer; there is no other failure but a closed connection or the abort key, and a header that comes in as a whole is received |
| `W5100Http.CutBehindTwo` | apps/w5100_http.c:141-147 | whatever its bytes, a response of which two have come in before the first turn is refused |
| `W5100Http.HttpOpen` | apps/w5100_http.c:42-170 | success if and only if the header was received and its first twelve bytes, the version digit aside, are the status line asked for; then the whole selector was transmitted in order and exactly the header was consumed. The header is received if it comes in as a whole, and not received only if the connection was closed, the abort key was pressed or two bytes were left in the buffer |
| `W5100Http.StatusCompared` | apps/w5100_http.c:150-160 | overwriting the version digit and comparing twelve bytes of the buffer is the comparison of the header with any digit, however short the header is |
| `W5100Http.HeaderUnique` | apps/w5100_http.c:118-138 | a stream that begins with a header has no other one, and its shorter prefixes have none |
| `Wget65.ReceiveBytes` | apps/wget65.c:280-285 | the copy loop puts exactly the next n stream bytes into the buffer while the chip goes on working |
| `Wget65.Fetch` | apps/wget65.c:265-288 | one receive turn of either writer takes the next bytes of the stream, at most as many as there is room for; it goes on if and only if bytes were taken or the connection is there; it ends the loop with nothing left if the connection was closed before a request that found no command pending, and with bytes unread under the conditions of EndsUnread |
| `Wget65.WriteFile` | apps/wget65.c:261-306 | the file is always a prefix of the received stream, each byte once; after a regular end it is all of it if and only if the size register reads zero once the last command has ended, which is so if the connection was closed before the last request and this found no command pending; it ends otherwise only with the abort key, and a stream whose rest is there when the peer closes is written |
| `Wget65.LostBehindCommit` | apps/wget65.c:261-306 | a run that ends regularly with an empty file although a byte was in the ring: behind a commit the command is still pending at the next request, and the peer closes before the status check |
| `Wget65.LostBehindRequest` | apps/wget65.c:261-306 | a run that loses a byte that arrives between an empty request and the status check |
| `Wget65.SkewInvolution` | apps/wget65.c:371-374 | the skewing table is its own inverse |
| `Wget65.SkewDescends` | apps/wget65.c:371-374 | the table has these entries: the first and the last page stay, and the pages between them come in descending order |
| `Wget65.PlaceInvolution` | apps/wget65.c:377-395 | the place of a byte inside its track is an involution |
| `Wget65.ImageAt` | apps/wget65.c:356-423 | byte i of track t of the stream is found at its skewed place of track t of the image |
| `Wget65.ImageInvolution` | apps/wget65.c:356-423 | the image of the image is the stream; ProDOS order is the identity |
| `Wget65.ShortTrackLands` | apps/wget65.c:411-419 | every byte of a short last track in DOS order is written if and only if the track has at most 256 or more than 3584 bytes |
| `Wget65.FilledMore` | apps/wget65.c:377-404 | a piece that stays within a page overwrites nothing already placed in the track buffer |
| `Wget65.Flush` | apps/wget65.c:411-428 | the blocks written for a full track extend the image by it, those of a short last track complete the disk, and it fails exactly if the stream so far, rounded up to blocks, is larger than the disk |
| `Wget65.WriteBlocks` | apps/wget65.c:411-419 | the block loop writes the rounded-up buffer at the next block numbers, or fills the disk and fails exactly if it is too small |
| `Wget65.WriteDevice` | apps/wget65.c:356-423 | for every chunking, the disk holds the image of the whole tracks received, then the blocks of a short last one; what was received is complete under the same condition as for a file; it ends otherwise only with the abort key, or with a full disk that is smaller than the stream |
| `Wget65.WholeStreamOnDisk` | apps/wget65.c:356-423 | a stream whose length is a multiple of 4096 is on the disk as exactly its image |
| `Download.ToFile` | apps/wget65.c:660-683 | the file holds exactly what followed a header with the status asked for; it is all of it if and only if the size register reads zero once the last command has ended, as when the connection was closed before the last request and this found no command pending; behind such a header only the abort key prevents it, and a response that is delivered is in the file |
| `Download.ToDisk` | apps/wget65.c:660-683 | the disk holds the image of exactly what followed the header, complete under the same condition; behind a header with the status asked for only the abort key and a disk that is too small prevent it |
| `Download.Downloaded` | apps/wget65.c:660-683 | for every request, header and body that fit into the rings, a run on a fresh socket in which the request is sent and the file holds exactly the body |
| `Download.CourseDelivers` | apps/w5100_http.c:42-170 | the script of that run lets the request be staged and sent, and brings header and body |
| `Tcp.RunSafe` | docs/ip65_tcp_s.html:746-979 | over every run of an actively opened connection: a gap-free, duplicate-free prefix of the peer's stream is delivered, the ack counter is ISN+1+delivered mod 2^32 until a FIN is accepted, at most one end of stream with no data after it; segments at the very number left over from an earlier connection are excluded before the SYN/ACK |
| `Tcp.StepSafe` | docs/ip65_tcp_s.html:746-979 | every single segment, own or foreign, and every local step keeps these properties |
| `Tcp.DataIsNext` | docs/ip65_tcp_s.html:832-905 | a peer's segment is delivered exactly if it starts at the delivered offset, and then advances the counter by its length |
| `Tcp.FinIsLast` | docs/ip65_tcp_s.html:908-979 | an end of stream is accepted exactly if a FIN without new data stands at the end of the peer's stream |
| `Tcp.NextSegmentDelivered` | docs/ip65_tcp_s.html:832-905 | progress: the segment at the delivered offset is handed over whole and acknowledged with the new counter |
| `Tcp.SameOffset` | docs/ip65_tcp_s.html:846-854 | comparing 32-bit sequence numbers identifies stream offsets less than 2^32 apart |
| `Tcp.ConnectingSafe` | docs/ip65_tcp_s.html:249-264 | the state after the SYN was sent satisfies the invariant |
| `Tcp.StaleNumberMatched` | docs/ip65_tcp_s.html:832-905 | that exclusion is needed: such a segment is delivered before the SYN/ACK and breaks the invariant |
| `Tcp.NoFinInReply` | docs/ip65_tcp_s.html:746-1100 | no segment whatsoever is answered with a FIN |
| `Tcp.FinAnswered` | docs/ip65_tcp_s.html:941-979 | the exit that answers a FIN with FIN and ACK is dead: every accepted FIN is answered with an ACK of the number behind it |
| `Tcp.RunSendsNoFin` | docs/ip65_tcp_s.html:746-1100 | so over every run no FIN is sent in answer to anything, whatever the flag was at its start |
| `Tcp.SendSideKept` | docs/ip65_tcp_s.html:746-1100 | inbound segments leave the sending side alone, except for the one added to the sequence number by an accepted FIN |
| `Tcp.LastAckFrom` | docs/ip65_tcp_s.html:832-842 | the recorded acknowledgement is that of an ACK segment of the current connection |
| `Tcp.HandshakeAck` | docs/ip65_tcp_s.html:789-816 | over every run of arrivals from the SYN sent state: all answers carry the acknowledgement expected before the call as their sequence number, and an established connection has answered |
| `TcpLaws.DataAnswered` | docs/ip65_tcp_s.html:846-905 | every segment of the peer on an established connection, new, repeated or early, is answered by exactly one packet that acknowledges all that was received; only one at the counter with neither data nor FIN is not answered |
| `TcpLaws.RunAnswers` | docs/ip65_tcp_s.html:746-1100 | the same at any point of any allowed run, and no answer is ever taken back |
| `TcpLaws.InOrderDelivered` | docs/ip65_tcp_s.html:846-905 | the stream cut into segments in any way, in order, is delivered |
| `TcpLaws.WholeStream` | docs/ip65_tcp_s.html:846-979 | the whole stream in order and a FIN behind it: the callback gets all of it and one end of stream, and the connection is closed |
| `TcpLaws.SynAckOpens` | docs/ip65_tcp_s.html:778-816 | the SYN/ACK of the peer opens the connection and is acknowledged; a repeated one is acknowledged and changes nothing else |
| `TcpLaws.ResetEnds` | docs/ip65_tcp_s.html:748-777 | a reset of the peer ends the connection for good with one end of stream, unless it echoes the identification of this host, which is acknowledged instead |
| `TcpLaws.ForeignRefused` | docs/ip65_tcp_s.html:981-1100 | segments of no connection are refused with a reset, except resets and a SYN to the port listened on, and change nothing of the connection but the acknowledgement field |
| `TcpLaws.SynAccepted` | docs/ip65_tcp_s.html:988-1056 | a SYN to the port listened on opens a connection that is safe for its sender and whatever this sends, and is answered with the number behind it; other hosts' are dropped while there is a connection |
| `TcpLaws.AckRecorded` | docs/ip65_tcp_s.html:832-842 | exactly the acknowledgements of segments of this connection are put on record |
| `TcpLaws.AckFieldFollows` | docs/ip65_tcp_s.html:988-1056 | the acknowledgement field of the next data packet is the counter, unless a SYN of another host to a port that is not listened on has overwritten it |
| `TcpStack.Connection.ProcessReset` | docs/ip65_tcp_s.html:748-777 | resets act on the connection variables as specified, echoed identifications being answered instead |
| `TcpStack.Connection.ProcessSynAck` | docs/ip65_tcp_s.html:778-816 | SYN/ACK segments act on the connection variables as specified |
| `TcpStack.Connection.ProcessData` | docs/ip65_tcp_s.html:832-905 | acknowledgement and data act on the connection variables as specified |
| `TcpStack.Connection.ProcessFin` | docs/ip65_tcp_s.html:911-979 | a FIN acts on the connection variables as specified |
| `TcpStack.Connection.ProcessSyn` | docs/ip65_tcp_s.html:988-1056 | a SYN acts on the connection variables as specified |
| `TcpStack.Connection.Process` | docs/ip65_tcp_s.html:746-1100 | the branches together are the step function over which the runs are proved |
| `TcpStack.Connection.Wait` | docs/ip65_tcp_s.html:291-309 | a polling loop processes exactly the segments that arrive and ends at the first poll that reaches the awaited condition, at the last timer round, or with the abort key, which is obeyed even if its poll reaches the condition; a changed record of the last acknowledgement comes from a segment of this connection |
| `TcpStack.Connection.SendOnce` | docs/ip65_tcp_s.html:491-553 | one transmission and its wait: the packet has the call's sequence number and the acknowledgement field, a new record comes from an acknowledgement of this connection, and the wait is at least as many moves of the timer as transmissions before it and one |
| `TcpStack.Connection.SendAndWait` | docs/ip65_tcp_s.html:491-562 | every transmission of a call repeats its data at its sequence number, shifted by one exactly from the accepted FIN on, until the first poll behind which the exact acknowledgement is on record |
| `TcpStack.Connection.Send` | docs/ip65_tcp_s.html:469-572 | the call ends at the first poll behind which the acknowledgement of its whole data is on record, and succeeds exactly then unless the abort key comes with that poll; the record is new only by an acknowledging segment of this connection; each transmission has the call's data and number, shifted exactly if the peer's FIN was accepted by then; the resend budget is used up exactly by the repetitions; the sequence number then stands at the next call's data; between two transmissions the timer has moved at least once more than between the two before, the last wait of a failed call included |
| `TcpStack.ShiftedBehindFin` | docs/ip65_tcp_s.html:491-562 | the transmissions of a call fall into two parts: up to the accepted FIN all have the call's sequence number, from then on all are shifted by one |
| `TcpStack.FinWhileSending` | docs/ip65_tcp_s.html:491-562 | polls for which six shifted retransmissions go out |
| `TcpStack.StaleRecord` | docs/ip65_tcp_s.html:537-546 | a record left over that equals the expected acknowledgement makes a call succeed with nothing heard |
| `TcpStack.AbortWins` | docs/ip65_tcp_s.html:524-546 | with the abort key in the very poll that brings the acknowledgement, the call fails although the record equals the expected one |
| `TcpStack.SendAll` | docs/ip65_tcp_s.html:469-572 | each successful call was acknowledged by a segment of this connection that came in during it, unless it was empty or the first one found its acknowledgement on record; every packet carries the stream's bytes from a known offset at its sequence number, the ranges tile the stream mod 2^32, and all calls share one budget of resends |
| `TcpStack.ChunkOnStream` | docs/ip65_tcp_s.html:564-572 | a packet of the n-th call holds exactly the stream's bytes from the end of the calls before on, at its sequence number |
| `TcpStack.AssembledPrefix` | docs/ip65_tcp_s.html:469-572 | an in-order receiver of packets that were sent, lost, repeated or reordered in any way, has a prefix of the stream |
| `TcpStack.AckMeansReceived` | docs/ip65_tcp_s.html:537-546 | if the peer acknowledges what it has received, an acknowledgement of the stream up to the end of a call means that the peer has received all of that |
| `TcpStack.SendToPeer` | docs/ip65_tcp_s.html:469-572 | over any sequence of sends to such a peer, which gets any of the packets that were sent, every successful call with data means that it has received everything up to the end of this call |
| `TcpStack.Connection.SynAndWait` | docs/ip65_tcp_s.html:266-318 | every SYN carries the same sequence number, their number is bounded, and it gives up only after the least number of moves of the timer with nothing heard |
| `TcpStack.Connection.Connect` | docs/ip65_tcp_s.html:249-351 | it succeeds if and only if the first poll that changes the state leaves the connection established and does not come with the abort key, and fails otherwise only if that poll resets it or the least number of moves of the timer has passed; an opened connection sends from the number behind its SYN; the answer to the peer's SYN has that number as its own if and only if it was the expected acknowledgement before the call |
| `TcpStack.OpenedBySynAck` | docs/ip65_tcp_s.html:249-351 | a SYN/ACK of the host that was asked, among the polls before the least number of moves of the timer, opens the connection, whatever other hosts send before it |
| `TcpStack.FirstConnect` | docs/ip65_tcp_s.html:249-351 | on the first connection that number is wrong for every random start |
| `TcpStack.Connection.Close` | docs/ip65_tcp_s.html:353-431 | every FIN carries the same sequence number, and the connection ends closed; the variables are those of a run over exactly the segments that came in, and the call succeeds if and only if this run had left the established state before it was given up; it fails only with all FINs of the budget sent and waited for |
| `Tftp.RunLockStep` | docs/ip65_tftp_s.html:224-291 | over every run with loss, repetition, any number of server transfers and any delays but those of a multiple of 256 blocks, the callback gets the first blocks of the file in order, each once |
| `Tftp.CompleteIsWholeFile` | docs/ip65_tftp_s.html:524-539 | a run that ends complete delivered exactly the file, and the size counter is its length mod 65536 |
| `Tftp.ExpectedIsNext` | docs/ip65_tftp_s.html:436-440 | of the packets that are not ahead, comparing low bytes accepts exactly the next block and those late by a multiple of 256 blocks |
| `Tftp.StaleTakenForNext` | docs/ip65_tftp_s.html:436-440 | a packet that late puts an old block behind the newest one |
| `Tftp.HandleInStep` | docs/ip65_tftp_s.html:400-539 | one data packet is ignored, or is the next block and moves the counters and the state along |
| `Tftp.StepLockStep` | docs/ip65_tftp_s.html:224-291 | every allowed step of client, servers or network keeps lock step |
| `Tftp.SizeStep` | docs/ip65_tftp_s.html:522-539 | the file size bytes count every full block and the short last one modulo 65536 |
| `Tftp.FirstBlocksJoined` | docs/ip65_tftp_s.html:478-486 | the first blocks, joined, are the start of the file, and all of them are the file |
| `Tftp.DownloadedIsFile` | docs/ip65_tftp_s.html:197-291 | a transfer whose history is the client's part of a protocol run and that ends complete delivered exactly the file |
| `Tftp.ClientOfRun` | docs/ip65_tftp_s.html:224-291 | the client of a run is its own event history applied to the fresh client |
| `Tftp.Account` | docs/ip65_tftp_s.html:379-440 | after any history, the blocks delivered are those that had the next number modulo 256 when they came in, the block number counts them modulo 65536, and the resend budget is ten less the moves of the timer since the last of them |
| `Tftp.SentNext` | docs/ip65_tftp_s.html:293-377 | what each event sends: a block taken is acknowledged with its number, and later acknowledgements repeat the number of the last block taken |
| `TftpClient.Transfer.In` | docs/ip65_tftp_s.html:400-539 | the packet handler performs exactly the inbound event of the specification, and ends the round exactly if the block was the next one |
| `TftpClient.Transfer.GotExpectedBlock` | docs/ip65_tftp_s.html:379-398 | the two-byte block number is incremented with its carry, the resend budget restored |
| `TftpClient.Transfer.CountBlock` | docs/ip65_tftp_s.html:490-539 | the size counter and the end of the transfer for a short block |
| `TftpClient.Transfer.InnerLoop` | docs/ip65_tftp_s.html:271-291 | the inner loop ends with the first poll in which a block was taken or the timer moved, and then the transfer goes on unless that was the tenth move since a block was taken; with no such poll it ends with the abort key |
| `TftpClient.Transfer.BeginRound` | docs/ip65_tftp_s.html:224-269 | a round begins with a request as long as nothing was taken and with an acknowledgement from then on, ends the transfer behind a rejection, and behind the short block exactly if the acknowledgement was sent |
| `TftpClient.Transfer.Download` | docs/ip65_tftp_s.html:197-291 | success if and only if a round begins with the acknowledgement of the short block being sent; failure only behind a rejection, behind the tenth move of the timer since a block was taken, or with the abort key, each earlier move being followed by another request or acknowledgement; if a network serves the file, whatever it loses, repeats or delays, the transfer ends with its last block and has delivered exactly the file, unless the final acknowledgement could not be sent |
| `TftpClient.NotYetServed` | docs/ip65_tftp_s.html:224-291 | while a network that serves the file has not brought the short block, there is no reason to fail and none to succeed |
| `TftpClient.FirstLost` | docs/ip65_tftp_s.html:271-291 | such a network is one that loses the first request |
| `Checksum.IpCalcCksum` | docs/ip65_ip_s.html:419-511 | for every buffer and length, the result is the complement of the RFC 1071 sum in network order |
| `Checksum.PageLoop` | docs/ip65_ip_s.html:433-447 | the page loop with its running carry computes the sum of the pages' words up to end-around carries |
| `Checksum.FoldCarry` | docs/ip65_ip_s.html:447-455 | the folding loop ends and loses no carry |
| `Checksum.OddByte` | docs/ip65_ip_s.html:456-473 | the odd byte is added with its own end-around increment |
| `Checksum.BackwardLoop` | docs/ip65_ip_s.html:473-493 | the backward loop with the carry saved across rounds adds all words of the tail |
| `Checksum.TailSum` | docs/ip65_ip_s.html:456-505 | odd byte, backward loop and folding together add the tail |
| `Checksum.SwappedFold` | docs/ip65_ip_s.html:419-511 | byte order independence: the folded little-endian sum, swapped, is the network-order sum |
| `Checksum.FoldUnique` | docs/ip65_ip_s.html:419-511 | end-around carry determines one 16-bit result, zero and all ones kept apart |
| `Checksum.NetSumFolds` | docs/ip65_ip_s.html:419-511 | the RFC 1071 sum stands for the plain sum of the words |
| `IpHeader.CreatePacket` | docs/ip65_ip_s.html:303-333 | exactly the constant header fields and the source address are filled |
| `IpHeader.FillChecksum` | docs/ip65_ip_s.html:351-366 | after the checksum is filled in, the header passes the receiver's check for every length the link can report |
| `IpHeader.PadFrame` | docs/ip65_ip_s.html:377-402 | the frame length is rounded up to even with a zero byte, the packet unchanged |
| `IpHeader.VerifyHeader` | docs/ip65_ip_s.html:205-248 | a header is accepted if and only if version, lengths, fragment fields and checksum are acceptable |
| `IpHeader.ComplementVerifies` | docs/ip65_ip_s.html:351-366 | storing the complement in the zero checksum field makes the sum all ones |
| `IpHeader.WordsFilled` | docs/ip65_ip_s.html:351-366 | filling the checksum field adds exactly its value to the sum |
| `VtScreen.SlvLayout` | drivers/a2vt100.s:1543-1556 | the line tables hold the interleaved layout of the text page |
| `VtScreen.SlvDistinct` | drivers/a2vt100.s:1543-1556 | the 24 rows lie in the page and do not overlap |
| `VtScreen.GridCopied` | drivers/a2vt100.s:1305-1334 | copying both halves of a row copies exactly that row of the grid |
| `VtScreen.GridFilled` | drivers/a2vt100.s:1451-1535 | blanking stretches of both halves blanks exactly the columns in them |
| `VtScreen.GridPut` | drivers/a2vt100.s:1173-1182 | a byte stored in the bank of its column's parity changes exactly that cell of the grid |
| `VtScreen.Video.Store` | drivers/a2vt100.s:1173-1182 | storing a character changes exactly one cell |
| `VtScreen.Video.CopyRow` | drivers/a2vt100.s:1308-1333 | the two copying loops make one grid row equal to another |
| `VtScreen.Video.UScrl` | drivers/a2vt100.s:1305-1337 | scrolling up shifts exactly the region and blanks its last row |
| `VtScreen.Video.DScrl` | drivers/a2vt100.s:1359-1390 | scrolling down shifts exactly the region and blanks its first row |
| `VtScreen.Video.ErLn` | drivers/a2vt100.s:1451-1469 | a row is blanked, and no other cell changes |
| `VtScreen.Video.ErEn` | drivers/a2vt100.s:1478-1502 | exactly the columns from the cursor on are blanked, for odd and even columns |
| `VtScreen.Video.ErBe` | drivers/a2vt100.s:1511-1535 | exactly the columns up to the cursor are blanked, for odd and even columns |
| `VtSpec.InvertTwice` | drivers/a2vt100.s:1066-1075 | drawing the cursor twice restores the character, and drawing it once always changes it |
| `VtSpec.ReverseIsInverted` | drivers/a2vt100.s:1161-1166 | a character printed in reverse has the code the cursor makes of its normal code |
| `VtSpec.Wrapped` | drivers/a2vt100.s:1208-1224 | a pending wrap scrolls, moves on or stays, and keeps the terminal's invariant |
| `VtSpec.Stored` | drivers/a2vt100.s:1168-1196 | a stored code moves the cursor on or leaves a wrap pending in the last column only |
| `VtSpec.Print` | drivers/a2vt100.s:1140-1200 | printing keeps the invariant |
| `VtSpec.LineFeed` | drivers/a2vt100.s:227-239 | line feed keeps the invariant |
| `VtSpec.ReverseIndex` | drivers/a2vt100.s:331-345 | reverse index keeps the invariant |
| `VtSpec.Control` | drivers/a2vt100.s:194-271 | every control character keeps the invariant |
| `VtSpec.Escaped` | drivers/a2vt100.s:302-392 | every short escape sequence keeps the invariant |
| `VtSpec.SelectCharset` | drivers/a2vt100.s:725-754 | selecting a set keeps the line drawing bit that of the invoked set |
| `VtSpec.AddDigitExact` | drivers/a2vt100.s:847-869 | the shift-and-add result is the decimal continuation if and only if that fits into a byte |
| `VtSpec.NumberIsDecimal` | drivers/a2vt100.s:768-781 | a parameter below 256 is read as the decimal number it is |
| `VtSpec.UpRowExact` | drivers/a2vt100.s:430-436 | cursor up agrees with the clamped subtraction if and only if the difference is at least -128 or at most -256 |
| `VtSpec.DownRowExact` | drivers/a2vt100.s:449-458 | cursor down agrees with the clamped addition if and only if the sum stays below 256 or wraps past the bottom margin |
| `VtSpec.RightColExact` | drivers/a2vt100.s:469-479 | cursor right agrees with the clamped addition if and only if the sum stays below 256 |
| `VtSpec.LeftColExact` | drivers/a2vt100.s:489-497 | cursor left agrees with the clamped subtraction if and only if the difference is at least -128 |
| `VtSpec.SmallCountsTame` | drivers/a2vt100.s:420-498 | counts of at most 100 are always in range |
| `VtSpec.Target` | drivers/a2vt100.s:569-601 | a cursor position is home, two numbers inside the screen, or refused |
| `VtSpec.Margins` | drivers/a2vt100.s:650-680 | a scroll region has at least two lines of the screen, in order, or is refused |
| `VtSpec.Command` | drivers/a2vt100.s:420-717 | every control sequence keeps the invariant of the plain terminal, whose movements clamp ideally |
| `VtSpec.Collect` | drivers/a2vt100.s:400-417 | collecting a sequence of any length keeps the invariant of the plain terminal; the 256-byte buffer starts over |
| `VtSpec.Step` | drivers/a2vt100.s:178-754 | every received byte keeps cursor, region, pending wrap, sets, saved cursor and escape buffer of the plain terminal in range, which the code refines for tame bytes |
| `VtSpec.Run` | drivers/a2vt100.s:178-754 | so does every stream of bytes, of the plain terminal |
| `VtTerminal.Terminal.constructor` | drivers/a2vt100.s:1569-1627 | after initialisation the terminal is blank, the cursor home and not yet drawn |
| `VtTerminal.Terminal.COff` | drivers/a2vt100.s:1027-1047 | with the cursor switched off, the screen is the terminal's grid |
| `VtTerminal.Terminal.COn` | drivers/a2vt100.s:1055-1081 | switching the cursor on leaves the grid as the screen was, and draws a visible cursor |
| `VtTerminal.Terminal.CPlot` | drivers/a2vt100.s:1094-1115 | moving the cursor changes nothing but its position |
| `VtTerminal.Terminal.PrnChr` | drivers/a2vt100.s:1140-1200 | printing refines the plain terminal's printing |
| `VtTerminal.Terminal.NewLn` | drivers/a2vt100.s:1208-1224 | the wrap refines the plain one |
| `VtTerminal.Terminal.LF` | drivers/a2vt100.s:227-239 | line feed refines the plain one |
| `VtTerminal.Terminal.RI` | drivers/a2vt100.s:331-345 | reverse index refines the plain one |
| `VtTerminal.Terminal.TAB` | drivers/a2vt100.s:241-255 | tab moves to the next multiple of eight or the last column |
| `VtTerminal.Terminal.Special` | drivers/a2vt100.s:194-271 | control characters refine the plain terminal |
| `VtTerminal.Terminal.SaveCursor` | drivers/a2vt100.s:353-365 | position, attributes and sets are saved |
| `VtTerminal.Terminal.RestoreCursor` | drivers/a2vt100.s:367-380 | what was saved is restored |
| `VtTerminal.Terminal.GetNum` | drivers/a2vt100.s:768-781 | parameter scanning terminates at the first character that is not a digit, with the number read |
| `VtTerminal.Terminal.CrsrUp` | drivers/a2vt100.s:420-439 | cursor up stops at the top margin, for counts in range |
| `VtTerminal.Terminal.CrsrDown` | drivers/a2vt100.s:442-459 | cursor down, with the carry of the addition lost |
| `VtTerminal.Terminal.CrsrRight` | drivers/a2vt100.s:462-479 | cursor right, with the carry of the addition lost |
| `VtTerminal.Terminal.CrsrLeft` | drivers/a2vt100.s:482-498 | cursor left stops at the margin, for counts in range |
| `VtTerminal.Terminal.SetFont` | drivers/a2vt100.s:500-537 | all parameters of an attribute sequence are applied in order |
| `VtTerminal.Terminal.LineErase` | drivers/a2vt100.s:540-561 | the three forms of erasing in a line |
| `VtTerminal.Terminal.ScreenErase` | drivers/a2vt100.s:604-647 | the three forms of erasing the screen, around a drawn cursor |
| `VtTerminal.Terminal.Locate` | drivers/a2vt100.s:564-601 | cursor position refines the plain one |
| `VtTerminal.Terminal.SetRegion` | drivers/a2vt100.s:650-680 | setting the scroll region refines the plain one |
| `VtTerminal.Terminal.HideCursor` | drivers/a2vt100.s:682-694 | hiding the cursor keeps the grid |
| `VtTerminal.Terminal.Reveal` | drivers/a2vt100.s:697-709 | showing a hidden cursor keeps the grid; showing a visible one inverts the cell under it |
| `VtTerminal.Terminal.Process` | drivers/a2vt100.s:420-717 | a complete control sequence refines the plain command |
| `VtTerminal.Terminal.FinalByte` | drivers/a2vt100.s:400-417 | the letter that ends a sequence executes it and resets mode and buffer |
| `VtTerminal.Terminal.ParameterByte` | drivers/a2vt100.s:400-417 | any other byte is collected |
| `VtTerminal.Terminal.SEsc` | drivers/a2vt100.s:302-392 | short escape mode refines the plain terminal |
| `VtTerminal.Terminal.Scs` | drivers/a2vt100.s:725-754 | character set selection refines the plain one |
| `VtTerminal.Terminal.ProcIn` | drivers/a2vt100.s:178-188 | every tame byte refines the step of the plain terminal: mode, cursor, region, sets and the grid under the cursor |
| `VtTerminal.Terminal.ProcAll` | drivers/a2vt100.s:178-188 | every tame stream refines the plain terminal's run |
| `VtLaws.TextShown` | drivers/a2vt100.s:1140-1224 | text of any length fills the screen row by row, character i in row i / 80 and column i % 80, nothing else changing, the wrap pending in the last column only |
| `VtLaws.CursorAddressed` | drivers/a2vt100.s:564-601 | the cursor position sequence with the decimal digits of any row and column puts the cursor exactly there |
| `VtLaws.MovementTame` | drivers/a2vt100.s:420-498 | for every count below 256, the received movement sequence moves the plain terminal's cursor to the clamped place, and is tame if and only if the code's bytes put it there as well |
| `VtLaws.OffScreen` | drivers/a2vt100.s:430-440 | received sequences with which the code moves the cursor from home to row 56 or column 106 |
| `VtLaws.RestoreBrings` | drivers/a2vt100.s:353-380 | whatever happens between a save and a restore, position, attributes and sets come back, and the screen stays as it is |
| `VtLaws.SavedKept` | drivers/a2vt100.s:353-365 | only the save sequence changes what is saved |
| `VtLaws.RunConcat` | drivers/a2vt100.s:178-188 | a stream may be handled in parts |
| `VtLines.LineFeeds` | drivers/a2vt100.s:227-239 | on cells: at the bottom margin row r of the region holds what row r + 1 held, the last one is blank, the rest of the screen and the column stay; elsewhere the cursor moves down, but not off the screen |
| `VtLines.ReverseIndexes` | drivers/a2vt100.s:331-345 | ESC M is the mirror image at the top margin |
| `VtLines.IndexAndNextLine` | drivers/a2vt100.s:302-345 | ESC D is a line feed, ESC E one behind a carriage return |
| `VtLines.FeedAndIndex` | drivers/a2vt100.s:227-345 | away from the margins, ESC M undoes a line feed |
| `VtLines.LinesShown` | drivers/a2vt100.s:194-239 | any number of text lines ended by CR LF, from any row of the region on: the region shows the last of them in order, over what was there, on a paper without a bottom; rows that come in are blank, and nothing else changes |
| `VtLines.CharacterShown` | drivers/a2vt100.s:1140-1200 | a character changes exactly the cursor's cell |
| `VtLines.WrapIsNewLine` | drivers/a2vt100.s:1208-1224 | a pending wrap is CR LF in front of the next character if and only if the cursor is not in the last row of the screen below the region |
| `VtLines.ColumnsMoved` | drivers/a2vt100.s:194-271 | where backspace, carriage return and tab leave the cursor, and which bytes change nothing |
| `VtLines.SetInvoked` | drivers/a2vt100.s:257-271 | shift out and shift in invoke the second and the first set |
| `VtLines.SetChosen` | drivers/a2vt100.s:725-754 | each set is line drawing exactly if it was chosen so |
| `VtLines.LineSizeIgnored` | drivers/a2vt100.s:302-392 | line size sequences change nothing |
| `VtLines.UnknownEscape` | drivers/a2vt100.s:302-392 | neither do unknown short sequences |
| `VtLines.CodesDiffer` | drivers/a2vt100.s:1140-1166 | different characters of the normal set have different screen codes, in either attribute |
| `VtLines.LineErased` | drivers/a2vt100.s:540-561 | which columns each form of erasing in a line blanks |
| `VtLines.ScreenErased` | drivers/a2vt100.s:604-647 | which cells each form of erasing the screen blanks |
| `VtLines.AttributeSet` | drivers/a2vt100.s:500-537 | what each attribute parameter switches, and which ones nothing |
| `VtLines.AttributesInTurn` | drivers/a2vt100.s:500-537 | a sequence of several parameters is the sequences of one parameter each, in order |
| `VtLines.RegionSet` | drivers/a2vt100.s:650-680 | the region sequence sets exactly the rows given, if they are two lines of the screen in order, and puts the cursor home |
| `VtLines.CursorPositioned` | drivers/a2vt100.s:563-601 | the position sequence of any two numbers below 256, or none: where the cursor goes, zero counting as one, and when it is refused |
| `VtLines.OneNumberRefused` | drivers/a2vt100.s:563-680 | with one parameter the position and region sequences change nothing, but for a pending wrap |
| `VtLines.UnknownSequence` | drivers/a2vt100.s:420-717 | sequences of any other letter change nothing, whatever their parameters |
| `VtLines.CursorShownOrHidden` | drivers/a2vt100.s:682-709 | the cursor mode sequences hide and show the cursor; showing is as it should be exactly if it was hidden |
| `LineDisplay.CursorInWindow` | apps/linenoise.c:224-231 | the window contains the cursor, on the character at the edit position, and shows each character where it stands relative to it |
| `LineDisplay.Window` | apps/linenoise.c:224-231 | the two window loops compute the closed form of the window |
| `LineDisplay.RowWritten` | apps/linenoise.c:233-246 | prompt, window and blanks together overwrite the whole row |
| `LineDisplay.RefreshLine` | apps/linenoise.c:217-249 | row and cursor become the pure rendering, buffer unchanged, if and only if something is written or the row was blank |
| `LineDisplay.FastPath` | apps/linenoise.c:259-263 | one character at the cursor gives the same row and cursor as a full refresh |
| `LineDisplay.Console.PutS` | apps/linenoise.c:235-240 | a string is written over the row from the cursor on, the cursor wrapping behind the last column |
| `LineDisplay.Console.Clear` | apps/linenoise.c:243-245 | the rest of the row is blanked |
| `LineEditor.LineState.constructor` | apps/linenoise.c:362-387 | an empty line behind the prompt, displayed, and an empty entry in the history |
| `LineEditor.LineState.EditInsert` | apps/linenoise.c:252-275 | insertion refines the two-string editor and leaves the exact rendering |
| `LineEditor.LineState.EditMoveLeft` | apps/linenoise.c:278-283 | likewise for left |
| `LineEditor.LineState.EditMoveRight` | apps/linenoise.c:286-291 | likewise for right |
| `LineEditor.LineState.EditMoveHome` | apps/linenoise.c:294-299 | likewise for home |
| `LineEditor.LineState.EditMoveEnd` | apps/linenoise.c:302-307 | likewise for end |
| `LineEditor.LineState.EditDelete` | apps/linenoise.c:337-344 | likewise for delete |
| `LineEditor.LineState.EditBackspace` | apps/linenoise.c:347-355 | likewise for backspace |
| `LineEditor.LineState.EditHistoryNext` | apps/linenoise.c:313-333 | likewise for browsing, which stores the edited line first |
| `LineEditor.LineState.CompleteLine` | apps/linenoise.c:132-184 | tabs walk through the completions and the original line in turn; the key that ends the choice decides, and is handed back |
| `LineEditor.LineState.AcceptCompletion` | apps/linenoise.c:169-175 | the buffer holds a string of the recorded length if and only if the completion has at most 254 characters |
| `LineEditor.LineState.Edit` | apps/linenoise.c:388-446 | every sequence of keys refines the plain editor's run, and while a key is awaited the display is the rendering of the line |
| `LineEditor.BrowseKeepsView` | apps/linenoise.c:313-333 | browsing keeps the history with the edited line in its place if and only if the entry moved to has at most 254 characters |
| `LineEditor.BrowsingConserves` | apps/linenoise.c:313-333 | no sequence of up and down changes the history with the edited line in its place |
| `LineEditor.StepChangesSlotOnly` | apps/linenoise.c:252-355 | every other command changes the edited entry only |
| `LineEditor.StepsUndone` | apps/linenoise.c:252-355 | insert is undone by backspace and by left and delete; left and right undo each other |
| `LineEditor.StepIndexed` | apps/linenoise.c:252-355 | every command in terms of the text and the cursor's position in it: where the cursor ends up, and where a character is put in or taken out |
| `LineEditor.HomeAndEnd` | apps/linenoise.c:294-307 | a character typed behind Home comes first, one typed behind End last |
| `LineEditor.UpShows` | apps/linenoise.c:313-333 | from the newest entry, Up k times shows entry k with the cursor at its end |
| `LineEditor.UpAndDown` | apps/linenoise.c:313-333 | Down undoes Up |
| `LineEditor.EndOfHistory` | apps/linenoise.c:313-333 | at either end of the history browsing changes only the entry that is stored |
| `LineEditor.TabChoice` | apps/linenoise.c:132-184 | tabs go through the completions and the original line in turn, again and again; Escape leaves the line as it was |
| `LineEditor.TypedIsEntered` | apps/linenoise.c:388-446 | what is typed on an empty line, up to 255 characters, is what is entered |
| `LineEditor.MovesKeepText` | apps/linenoise.c:278-307 | movements keep the text |
| `LineEditor.AddedKeeps` | apps/linenoise.c:485-510 | adding to the history loses only the oldest entry of a full history and never repeats a line |
| `LineEditor.HistoryAdd` | apps/linenoise.c:485-510 | the shifted array holds exactly the specified history |
| `LineEditor.Memmove` | apps/linenoise.c:266-269 | overlapping moves inside the buffer |
| `Telnet.FeedItems` | apps/telnet65.s:326-492 | for items as the client delimits them: exactly the bytes outside IAC sequences reach the terminal, in order, and one answer is queued per request, in order |
| `Telnet.EveryStream` | apps/telnet65.s:326-492 | every byte stream is a sequence of such items and a cut-off end |
| `Telnet.FeedPartial` | apps/telnet65.s:326-492 | a cut-off item shows and queues nothing |
| `Telnet.FeedConcat` | apps/telnet65.s:326-492 | cutting the stream into packets makes no difference |
| `Telnet.RepliesReread` | apps/telnet65.s:406-470 | the queued replies, read by the same automaton, end in normal state with no user data |
| `Telnet.AnswerNamesOption` | apps/telnet65.s:406-470 | each request is answered by one verb naming the same option, positively exactly for terminal type, window size, echo and go-ahead suppression |
| `Telnet.RenderAnswer` | apps/telnet65.s:537-558 | the reply bytes are well-formed items |
| `Telnet.RepliesAreRfc` | apps/telnet65.s:537-560 | the two long replies are those of the standards: a window of 80 columns and 24 rows, a terminal named vt100 |
| `Telnet.SuboptionAnswered` | apps/telnet65.s:349-374 | a suboption is answered if and only if it is one of the terminal type, and then with the name |
| `Telnet.RefusalsAnswered` | apps/telnet65.s:425-449 | read by the same automaton, a refusal is answered by the opposite refusal of the same option, and so on for any number of answers |
| `Telnet.NegotiationNeverEnds` | apps/telnet65.s:406-470 | between two such clients, every request for every option leads from the second answer on to refusals in turn, for ever |
| `Telnet.FeedRfc` | apps/telnet65.s:326-492 | of a stream written by RFC 854 and RFC 855 all requests are answered, in order; the screen gets the data other than 255, and what stands behind the first SE of a suboption |
| `Telnet.ScreenIsUserData` | apps/telnet65.s:326-492 | the screen gets exactly the user data of such a stream if and only if it holds no byte 255 and no suboption has anything but bytes 255 behind its first SE |
| `Telnet.DoubledIac` | apps/telnet65.s:376-392 | a doubled IAC is dropped |
| `Telnet.Session.NextByte` | apps/telnet65.s:326-475 | one byte performs exactly the automaton's step on mode, buffers and terminal |
| `Telnet.Session.WaitingForOption` | apps/telnet65.s:406-470 | the option branch queues exactly the specified reply |
| `Telnet.Session.WaitingForSuboptionEnd` | apps/telnet65.s:349-374 | a suboption is collected up to its first SE and answered |
| `Telnet.Countdown` | apps/telnet65.s:481-491 | the two-byte countdown counts one byte at a time |
| `Telnet.Session.Consume` | apps/telnet65.s:326-491 | exactly the packet's length is consumed |
| `Telnet.Session.Callback` | apps/telnet65.s:313-491 | a packet feeds the automaton exactly once; a length from 0xff00 on means that the peer closed |
| `Telnet.Session.TakeReplies` | apps/telnet65.s:212-217 | sending empties the queue and nothing else |
| `HttpQuery.LookupDecodes` | apps/ifttt.c:25-54 | looking up a letter in an encoded request gives the first value whose name starts with it, as a C string unchanged if and only if all its bytes are below 128, or none; the values before it must not hold the byte 128 |
| `HttpQuery.HiddenVariable` | apps/ifttt.c:25-54 | a value with the byte 128 is stored as two entries, so that a variable is found that is not in the request |
| `HttpQuery.RequestDecoded` | docs/ip65_http_s.html:76-257 | the table of an encoded request holds method, path and the decoded pairs, in order, each behind either sign, if there are any |
| `HttpQuery.BareDecoded` | docs/ip65_http_s.html:76-131 | a request that begins with a slash, or is empty, has an empty method, and its path begins with a slash |
| `HttpQuery.MethodAlone` | docs/ip65_http_s.html:88-131 | a request that ends behind its method has no path |
| `HttpQuery.NameAlone` | docs/ip65_http_s.html:132-151 | a name without a value is not ended, so that the next variable becomes part of its value |
| `HttpQuery.VariablesOfQuery` | docs/ip65_http_s.html:132-182 | the query part decodes to one entry per pair, whatever the values contain |
| `HttpQuery.ValueOfEncoded` | docs/ip65_http_s.html:152-206 | decoding an encoded value gives it back modulo 128 |
| `HttpQuery.AsciiIsValue` | apps/ifttt.c:52-52 | that is the value itself if and only if all its bytes are below 128 |
| `HttpQuery.HexRoundTrip` | docs/ip65_string_utils_s.html:64-94 | two hexadecimal digits, of either case, give back the byte they were printed from |
| `HttpQuery.EncodeClean` | apps/ifttt.c:25-54 | the encoding has no NUL, only bytes below 128, and at most three per byte |
| `HttpQuery.QueryStrCat` | apps/ifttt.c:25-54 | the encoded value is appended to the C string in the buffer |
| `HttpQuery.Parser.Parse` | docs/ip65_http_s.html:76-257 | for every request the table written is the specified one |
| `HttpQuery.Parser.ExtractVariables` | docs/ip65_http_s.html:132-182 | the variable loops write the specified entries |
| `HttpQuery.Parser.ExtractPath` | docs/ip65_http_s.html:117-131 | the path is copied up to the query |
| `HttpQuery.Parser.ValueByte` | docs/ip65_http_s.html:152-206 | one character of a value is decoded |
| `HttpQuery.GetValue` | docs/ip65_http_s.html:222-248 | the lookup loop finds the first value stored under a letter, or none |
| `Arp.LookupIsLatest` | docs/ip65_arp_s.html:249-280 | after any sequence of additions and received packets, a lookup that hits returns the MAC most recently given for that address, never an older one or another host's |
| `Arp.BoundIsFound` | docs/ip65_arp_s.html:373-420 | right after it was given, an address outside network zero is found, with the new MAC |
| `Arp.FoundIsLatest` | docs/ip65_arp_s.html:249-280 | whatever is found is the latest binding |
| `Arp.FindSpec` | docs/ip65_arp_s.html:249-280 | the search finds the first entry with the address that no zero entry hides |
| `Arp.PacketRetained` | docs/ip65_arp_s.html:305-364 | the sender of a packet stays visible through seven further operations on addresses outside network zero |
| `Arp.Cache.FindIp` | docs/ip65_arp_s.html:249-280 | the search loop over the byte cache finds exactly that entry |
| `Arp.Cache.AddSource` | docs/ip65_arp_s.html:390-420 | the column-wise shift moves every entry down by one and puts the source first |
| `Arp.Cache.AddEntry` | docs/ip65_arp_s.html:373-420 | an address already cached is updated in place, a new one is put first |
| `Arp.Cache.Process` | docs/ip65_arp_s.html:291-371 | requests for this host and awaited replies enter their sender; nothing else changes the cache; the carry is set for everything but requests, which contradicts its promise exactly for awaited replies |
| `Arp.Cache.Lookup` | docs/ip65_arp_s.html:143-186 | broadcast, gateway or host is looked up, and a hit is the entry found |
| `Arp.CalculateGatewayMask` | docs/ip65_arp_s.html:112-133 | the tables hold the inverted netmask, the merged gateway and the count of zero octets |
| `Arp.SubnetTest` | docs/ip65_arp_s.html:159-176 | the comparison loop decides as specified |
| `Arp.GatewayRight` | docs/ip65_arp_s.html:112-133 | the gateway is used exactly for remote hosts if and only if the zero octets are counted right for the mask |
| `Arp.ContiguousGatewayRight` | docs/ip65_arp_s.html:112-133 | for contiguous netmasks: if and only if the last two octets are zero |
| `Arp.ContiguousDecides` | docs/ip65_arp_s.html:159-176 | what is decided for each address on a contiguous netmask, in octets: with no zero octet none of the address decides, with one (as on a /24) exactly its first octet does, with more the netmask does |
| `Arp.LocalKept` | docs/ip65_arp_s.html:159-176 | the gateway is never taken for a local host, unless gw_last is 0xff |
| `Arp.RemoteMissed` | docs/ip65_arp_s.html:159-176 | a remote host is missed if and only if it agrees with the gateway in the first z octets, z being the number of zero octets of the netmask |
| `Arp.GatewayMissed` | docs/ip65_arp_s.html:112-133 | on a /24 network a host of another subnet is taken for a local one |
| `Dns.UnpackPacked` | docs/ip65_dns_s.html:129-188 | a receiver gets the labels up to the first empty one, or nothing if one of them has more than 63 characters; it gets the labels of the name if and only if all have 1 to 63 characters; the packed length is exact |
| `Dns.LongLabel` | docs/ip65_dns_s.html:129-188 | a single label of more than 63 characters is packed, but cannot be read |
| `Dns.PackedIsEncoded` | docs/ip65_dns_s.html:129-188 | the packed form of non-empty labels, with or without a trailing dot, is their encoding |
| `Dns.SplitJoin` | docs/ip65_dns_s.html:140-176 | splitting at dots loses nothing |
| `Dns.SetHostname` | docs/ip65_dns_s.html:129-192 | names up to a terminator are packed with back-patched lengths if and only if they have at most 126 characters |
| `Dns.CopyName` | docs/ip65_dns_s.html:302-323 | the query holds the packed name, type and class if and only if the name has at most 127 bytes |
| `Dns.AskFor` | docs/ip65_dns_s.html:302-323 | a hostname is set and asked for: the question holds its labels; names of non-empty labels are asked for if and only if they have at most 125 characters, or 126 with a dot at the end |
| `Dns.SkipQuestion` | docs/ip65_dns_s.html:373-388 | the question walk of the response lands exactly behind the name |
| `Decimal.Div10` | docs/ip65_printf_s.html:380-405 | sixteen shift-subtract rounds give quotient and remainder by ten |
| `Decimal.PrintInt` | docs/ip65_printf_s.html:316-378 | for every width: the canonical decimal string, or the last digits of the field width with leading zeros replaced, or, from width 134 on, memory behind the digits and then the digits |
| `Decimal.FieldExact` | docs/ip65_printf_s.html:316-378 | a field width works as in C if and only if there is none, or the number is not zero and has at most that many digits, and for widths from 134 on the memory behind the digits does not show |
| `Decimal.DigitsCanonical` | docs/ip65_printf_s.html:316-378 | it denotes the number and has no leading zero |
| `Decimal.PaddedSkip` | docs/ip65_printf_s.html:338-371 | skipping zeros from the left leaves the canonical string |
| `Decimal.ParseInteger` | docs/ip65_string_utils_s.html:27-61 | the leading digits, at most 256 of them, are read modulo 65536 |
| `Decimal.PrintThenParse` | docs/ip65_string_utils_s.html:27-61 | parsing a printed number gives it back |
| `Arithmetic.Add` | docs/ip65_arithmetic_s.html:86-127 | the in-place carry chain adds modulo the accumulator's size |
| `Arithmetic.Add16To32` | docs/ip65_arithmetic_s.html:110-127 | a 16-bit addend is added modulo 2^32 |
| `Arithmetic.SumModulo` | docs/ip65_arithmetic_s.html:86-127 | the carry chain computes the sum of the values |
| `Arithmetic.Equal` | docs/ip65_arithmetic_s.html:42-71 | byte-wise comparison compares the numbers |
| `Arithmetic.Sub16From16` | docs/ip65_arithmetic_s.html:73-84 | subtraction with borrow, modulo 65536 |
| `Arithmetic.Mul8By16` | docs/ip65_arithmetic_s.html:131-157 | repeated addition multiplies modulo 65536 |

## Left out

- The single-socket build of w5100.c, register addresses, bank switches, keyboard and beep calls, fonts: hardware glue.
- drivers/atrvt100.s: the 40-column, single-bank twin of the VT100 engine; the same automaton over a linear screen.
- VT100 output keys and the DEL routine, which nothing calls on received data.
- The TCP call that waits for a connection, callbacks that re-enter the stack, and the layout of the packets on the wire.
- TFTP uploads, the load-address mode that skips two bytes, and an ACK opcode that arrives during a download.
- The listener table of udp.s, XMODEM, DHCP, SNTP, CIFS, httpd templates and the remaining applications.
- Opening and closing files and drives, error messages, and failures of malloc: only the data written is modelled.
- The parts of printf other than plain decimal output; dotted quads and the answer section of DNS responses.
- The C library's isalnum, isprint, memmove, strncpy, strlen and snprintf are modelled by what the C standard says of them, characters of the editor being Dafny characters.
- Decimal.PrintInt: the 251 bytes of memory behind the digits are taken not to change while they are printed.
- VtSpec.Step: the invariant of the plain terminal, not that of the code, whose cursor can leave the screen for untame bytes.
- VtSpec.Run: the same.
- VtSpec.Command: the same.
- VtSpec.Collect: the same.
- VtTerminal.Terminal.ProcIn: promised for tame bytes only; for others the cursor may leave the screen, as MovementTame says, and what the code then writes outside the screen is not modelled.
- VtTerminal.Terminal.ProcAll: promised for tame streams only, for the same reason.
- VtTerminal.Terminal.Process: likewise for tame commands.
- VtTerminal.Terminal.FinalByte: likewise for tame commands.
- VtTerminal.Terminal.CrsrUp: likewise for counts in the range of UpRowExact.
- VtTerminal.Terminal.CrsrLeft: likewise for counts in the range of LeftColExact.
- VtTerminal.Terminal.constructor: the byte found in the variable for the character under the cursor is taken to be zero, as the bss segment starts out, and the mode flag to be normal, as the firmware's 80-column start leaves it.
- LineEditor.LineState.Edit: completions of at most 254 characters, as longer ones break the state; prompts of 1 to cols-1 characters.
- LineEditor.LineState.constructor: prompts of 1 to cols-1 characters, as an empty line behind an empty prompt is not erased and a longer prompt leaves no room for the line.
- Telnet.Session.Callback: the replies and each suboption must fit into their 64-byte buffers, as the source does not check them.
- Telnet.Session.Consume: the same.
- Telnet.Session.NextByte: the same.
- Telnet.Session.WaitingForOption: the same.
- Telnet.Session.WaitingForSuboptionEnd: the same.
- HttpQuery.Parser.Parse: the memory behind the request is taken to hold three NUL bytes, because a cut-off escape makes the parser read past the end.
- HttpQuery.Parser.ExtractVariables: the same.
- HttpQuery.Parser.ExtractPath: the same.
- HttpQuery.Parser.ValueByte: the same.
- HttpQuery.LookupDecodes: values before the one looked up must not hold the byte 128, as HiddenVariable shows to be necessary; the whole-URL pass that clears top bits is not modelled, as encoded values have none.
- TcpStack.Connection.Close: it has no abort key in the source, so when the given polls are used up only the timer goes on.
- W5100.Socket.constructor: memory size settings whose socket 1 ring is not aligned or leaves its bank, with which the computed addresses are wrong, as PhysicalIsCell says.
- W5100Http.ScanPiece: the comparison with the empty line's four bytes reads in front of the buffer for the first three bytes; what lies there is not taken as part of an empty line.
- W5100Http.HttpOpen: it begins behind the connect, and a response of which the header does not come in as a whole is promised to be received only as far as no turn leaves two bytes in the buffer.
- Tcp.StepSafe: the exclusions of Tcp.RunSafe.
- Tcp.RunSafe: segments are not kept back by the network while the stream moves on by 2^32 bytes, the assumption of RFC 793; before the SYN/ACK is processed, segments at exactly the acknowledgement number left over from an earlier connection are excluded, as StaleNumberMatched shows to be necessary.
- TftpClient.Transfer.Download: a failed final acknowledgement destroys the accumulator that holds the state, so that a request may be sent instead of a second try; the model allows both continuations and does not say which one is taken.
- Wget65.WriteFile: for an end where the connection closed only after the last request was made, only the register test says whether the file is complete.
- Arp.BoundIsFound: addresses whose first octet is zero mark the end of the cache and are excluded, as in the source.
