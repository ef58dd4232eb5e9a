/** What tcp_process of tcp.s does to the connection variables, as a function on values, and what that
    means for the byte stream given to the callback over whole runs. */
module Tcp {
  import opened Bytes

  const FIN: byte := 1
  const SYN: byte := 2
  const RST: byte := 4
  const PSH: byte := 8
  const ACK: byte := 16

  predicate Has(flags: byte, flag: byte)
    requires flag > 0
  {
    flags / flag % 2 == 1
  }

  function Add32(q: quad, n: nat): quad {
    (q + n) % 0x1_0000_0000
  }

  /** An inbound segment, its payload cut out by the two length fields. `ipId` is the identification
      field in the byte order the code stores it. */
  datatype Segment = Segment(srcIp: quad, srcPort: word, destPort: word, flags: byte,
                             seqNo: quad, ackNo: quad, ipId: word, data: seq<byte>)
  {
    function Pair(): SocketPair {
      SocketPair(srcIp, srcPort, destPort)
    }
  }

  /** The identity of a connection: the other host, its port, and the port here. */
  datatype SocketPair = SocketPair(ip: quad, remotePort: word, localPort: word)

  datatype Packet =
    | Packet(flags: byte, seqNo: quad, ackNo: quad, data: seq<byte>)
    | Reset(ip: quad, port: word)

  datatype State = Closed | Listening | SynSent | Established

  const ECHOED_ID: word := 0x1234

  /** The connection variables, and the world: bytes and end-of-stream marks given to the callback,
      whether the peer's FIN was accepted, and the packets sent in reply to segments. */
  datatype Conn = Conn(
    state: State, connectIp: quad, remotePort: word, localPort: word, listenPort: word,
    sequenceNumber: quad, expectedAck: quad, ackNumber: quad, ackField: quad,
    lastAck: quad, lastReceivedSeq: quad, finSent: bool,
    delivered: seq<byte>, ends: nat, finished: bool, replies: seq<Packet>)
  {
    function Pair(): SocketPair {
      SocketPair(connectIp, remotePort, localPort)
    }

    /** check_current_connection. */
    predicate Current(seg: Segment) {
      state != Closed && seg.Pair() == Pair()
    }

    /** send_packet without data: the sequence field is the expected acknowledgement. */
    function Reply(flags: byte): Conn {
      this.(ackField := ackNumber, replies := replies + [Packet(flags, expectedAck, ackNumber, [])])
    }

    function Refuse(seg: Segment): Conn {
      this.(replies := replies + [Reset(seg.srcIp, seg.srcPort)])
    }

    function ReceiveReset(seg: Segment): Conn {
      if !Current(seg) then this
      else if seg.ipId == ECHOED_ID then Reply(ACK)
      else this.(state := Closed, ends := ends + 1)
    }

    function ReceiveSynAck(seg: Segment): Conn {
      if !Current(seg) then Refuse(seg)
      else if state == SynSent then
        this.(ackNumber := Add32(seg.seqNo, 1), state := Established).Reply(ACK)
      else Reply(ACK)
    }

    /** The acknowledgement and data part, for a segment of the current connection. */
    function ReceiveData(seg: Segment): Conn {
      var c := this.(lastAck := seg.ackNo, lastReceivedSeq := seg.seqNo);
      if seg.seqNo != ackNumber then c.Reply(ACK)
      else if seg.data == [] then c
      else c.(delivered := delivered + seg.data, ackNumber := Add32(ackNumber, |seg.data|)).Reply(ACK)
    }

    /** The peer's FIN is the next in sequence. The flag that the answer is chosen by is set on the way. */
    function AcceptFin(): Conn {
      this.(ends := ends + 1, finished := true, state := Closed, ackNumber := Add32(ackNumber, 1), finSent := true)
    }

    /** The answer to an accepted FIN: a FIN of this side, unless one has been sent. */
    function AnswerFin(): Conn {
      if finSent then this.(sequenceNumber := Add32(sequenceNumber, 1)).Reply(ACK) else Reply(FIN + ACK)
    }

    /** The end-of-stream part. */
    function ReceiveFin(seg: Segment): Conn {
      if !Current(seg) then Refuse(seg)
      else
        var c := this.(lastReceivedSeq := seg.seqNo);
        if seg.seqNo != ackNumber then c else c.AcceptFin().AnswerFin()
    }

    function ReceiveSyn(seg: Segment): Conn {
      if seg.destPort != listenPort then this.(ackField := Add32(seg.seqNo, 1)).Refuse(seg)
      else if state != Listening && !Current(seg) then this
      else this.(ackNumber := Add32(seg.seqNo, 1), connectIp := seg.srcIp, localPort := listenPort,
                 remotePort := seg.srcPort, state := Established).Reply(SYN + ACK)
    }

    function ReceiveRest(seg: Segment): Conn {
      if Has(seg.flags, FIN) then ReceiveFin(seg)
      else if seg.flags == SYN then ReceiveSyn(seg)
      else this
    }

    /** tcp_process. */
    function Receive(seg: Segment): Conn {
      if Has(seg.flags, RST) then ReceiveReset(seg)
      else if seg.flags == SYN + ACK then ReceiveSynAck(seg)
      else if !Has(seg.flags, ACK) then ReceiveRest(seg)
      else if !Current(seg) then Refuse(seg)
      else ReceiveData(seg).ReceiveRest(seg)
    }
  }

  // ----- Runs -----

  /** The peer of an actively opened connection (section 3.3 of RFC 793). */
  datatype Peer = Peer(ip: quad, port: word, isn: quad, stream: seq<byte>)

  /** Segments of any other host or port pair, whatever they hold. */
  predicate Foreign(c: Conn, seg: Segment) {
    seg.Pair() != c.Pair()
  }

  /** A data or FIN segment carries stream bytes from some offset on, its sequence number being that
      offset modulo 2^32. The network may lose, repeat, cut and reorder such segments, but does not
      keep one back until the stream has moved on by 2^32 bytes. */
  ghost predicate Carries(p: Peer, seg: Segment, off: nat, delivered: nat) {
    && off + |seg.data| <= |p.stream| && seg.data == p.stream[off..off + |seg.data|] && |seg.data| < 0x1_0000
    && seg.seqNo == Add32(p.isn, 1 + off)
    && Has(seg.flags, ACK) && (Has(seg.flags, FIN) ==> off + |seg.data| == |p.stream|)
    && -0x1_0000_0000 < off - delivered < 0x1_0000_0000
  }

  /** A segment of the peer. While the peer's SYN has not been processed, the acknowledgement counter is
      still that of an earlier connection; a segment with this very number would be taken for the next one
      (StaleNumberMatched) and is excluded. */
  ghost predicate FromPeer(p: Peer, c: Conn, seg: Segment) {
    && seg.srcIp == p.ip && seg.srcPort == p.port
    && (|| Has(seg.flags, RST)
        || (seg.flags == SYN + ACK && seg.seqNo == p.isn && seg.data == [])
        || (!Has(seg.flags, SYN) && (c.state == SynSent ==> seg.seqNo != c.ackNumber) && exists off :: Carries(p, seg, off, |c.delivered|)))
  }

  /** One step: a segment is processed, or a sending call changes its own variables or gives up. */
  datatype Step =
    | Arrive(seg: Segment)
    | Local(sequenceNumber: quad, expectedAck: quad, ackField: quad, finSent: bool, abort: bool)

  ghost predicate Allowed(p: Peer, c: Conn, step: Step) {
    step.Arrive? ==> Foreign(c, step.seg) || FromPeer(p, c, step.seg)
  }

  function Next(c: Conn, step: Step): Conn {
    match step
    case Arrive(seg) => c.Receive(seg)
    case Local(s, e, ackField, finSent, abort) =>
      c.(sequenceNumber := s, expectedAck := e, ackField := ackField, finSent := finSent,
         state := if abort then Closed else c.state)
  }

  function Run(c: Conn, steps: seq<Step>): Conn
    decreases |steps|
  {
    if steps == [] then c else Run(Next(c, steps[0]), steps[1..])
  }

  ghost predicate AllowedRun(p: Peer, c: Conn, steps: seq<Step>)
    decreases |steps|
  {
    steps == [] || (Allowed(p, c, steps[0]) && AllowedRun(p, Next(c, steps[0]), steps[1..]))
  }

  /** State after tcp_connect has sent its SYN. */
  predicate Connecting(p: Peer, c: Conn) {
    c.state == SynSent && c.connectIp == p.ip && c.remotePort == p.port && c.delivered == [] && c.ends == 0 && !c.finished
  }

  ghost predicate Safe(p: Peer, c: Conn) {
    && c.connectIp == p.ip && c.remotePort == p.port && c.state != Listening
    && c.delivered <= p.stream && c.ends <= 1
    && (c.state == SynSent ==> c.delivered == [])
    && (c.state == Established ==> c.ackNumber == Add32(p.isn, 1 + |c.delivered|))
    && (c.state != Closed ==> c.ends == 0 && !c.finished)
    && (c.finished ==> c.delivered == p.stream && c.ackNumber == Add32(p.isn, 1 + |p.stream| + 1))
  }

  lemma AddAdd(q: quad, m: nat, n: nat)
    ensures Add32(Add32(q, m), n) == Add32(q, m + n)
  {
  }

  /** Within 2^32 of each other, two counts with one 32-bit sum are the same. */
  lemma SameCount(base: quad, a: nat, b: nat)
    requires Add32(base, a) == Add32(base, b)
    requires -0x1_0000_0000 < a - b < 0x1_0000_0000
    ensures a == b
  {
  }

  /** Within 2^32 of each other, two offsets with one sequence number are the same. */
  lemma SameOffset(isn: quad, a: nat, b: nat)
    requires Add32(isn, 1 + a) == Add32(isn, 1 + b)
    requires -0x1_0000_0000 < a - b < 0x1_0000_0000
    ensures a == b
  {
  }

  /** The segment at the expected sequence number holds exactly the next bytes of the stream. */
  lemma DataIsNext(p: Peer, c: Conn, seg: Segment, off: nat)
    requires Safe(p, c) && c.state == Established && Carries(p, seg, off, |c.delivered|)
    ensures Safe(p, c.ReceiveData(seg)) && c.ReceiveData(seg).state == Established
    ensures seg.seqNo == c.ackNumber <==> off == |c.delivered|
    ensures c.ReceiveData(seg).delivered == if off == |c.delivered| then c.delivered + seg.data else c.delivered
    ensures c.ReceiveData(seg).ackNumber == if off == |c.delivered| then Add32(c.ackNumber, |seg.data|) else c.ackNumber
  {
    if seg.seqNo == c.ackNumber {
      SameOffset(p.isn, off, |c.delivered|);
      AddAdd(p.isn, 1 + |c.delivered|, |seg.data|);
    }
  }

  /** An end of stream is accepted only after every byte of the stream. */
  lemma FinIsLast(p: Peer, c: Conn, seg: Segment, off: nat)
    requires Safe(p, c) && c.state == Established && c.Current(seg)
    requires Carries(p, seg, off, |c.delivered|) && Has(seg.flags, FIN)
    ensures Safe(p, c.ReceiveData(seg).ReceiveFin(seg))
    ensures c.delivered <= c.ReceiveData(seg).ReceiveFin(seg).delivered
    ensures c.ReceiveData(seg).ReceiveFin(seg).finished <==> off == |c.delivered| == |p.stream|
  {
    DataIsNext(p, c, seg, off);
    AddAdd(p.isn, 1 + |c.delivered|, 1);
    if off == |c.delivered| && seg.data != [] {
      SmallShift(c.ackNumber, |seg.data|);
    }
  }

  lemma SmallShift(q: quad, n: nat)
    requires 0 < n < 0x1_0000
    ensures Add32(q, n) != q
  {
  }

  // ----- Safety of every run -----

  lemma ForeignKeepsStream(c: Conn, seg: Segment)
    requires Foreign(c, seg) && c.state != Listening
    ensures c.Receive(seg) == c.(ackField := c.Receive(seg).ackField, replies := c.Receive(seg).replies)
  {
  }

  lemma ClosedKeepsStream(c: Conn, seg: Segment)
    requires c.state == Closed
    ensures c.Receive(seg) == c.(ackField := c.Receive(seg).ackField, replies := c.Receive(seg).replies)
  {
  }

  lemma PeerDataStep(p: Peer, c: Conn, seg: Segment, off: nat)
    requires Safe(p, c) && c.state == Established && c.Current(seg)
    requires !Has(seg.flags, RST) && !Has(seg.flags, SYN) && Carries(p, seg, off, |c.delivered|)
    ensures Safe(p, c.Receive(seg)) && c.delivered <= c.Receive(seg).delivered
  {
    hide Has, Safe;
    DataIsNext(p, c, seg, off);
    if Has(seg.flags, FIN) {
      FinIsLast(p, c, seg, off);
    }
    SynFlags();
  }

  /** A segment of the peer before the answer to the SYN, whose number is not the stale counter. */
  lemma EarlyKeepsStream(c: Conn, seg: Segment)
    requires c.state == SynSent && c.Current(seg) && seg.seqNo != c.ackNumber
    requires Has(seg.flags, ACK) && !Has(seg.flags, RST) && !Has(seg.flags, SYN)
    ensures var d := c.Receive(seg);
            d == c.(lastAck := d.lastAck, lastReceivedSeq := d.lastReceivedSeq, ackField := d.ackField, replies := d.replies)
  {
    SynFlags();
  }

  lemma SynFlags()
    ensures Has(SYN, SYN) && Has(SYN + ACK, SYN)
  {
  }

  lemma StepSafe(p: Peer, c: Conn, step: Step)
    requires Safe(p, c) && Allowed(p, c, step)
    ensures Safe(p, Next(c, step)) && c.delivered <= Next(c, step).delivered
    ensures c.ends == 1 ==> Next(c, step).delivered == c.delivered && Next(c, step).ends == 1
  {
    if step.Arrive? {
      var seg := step.seg;
      if c.state == Closed {
        ClosedKeepsStream(c, seg);
      } else if Foreign(c, seg) {
        ForeignKeepsStream(c, seg);
      } else if !Has(seg.flags, RST) && !Has(seg.flags, SYN) {
        SynFlags();
        var off :| Carries(p, seg, off, |c.delivered|);
        if c.state == Established {
          PeerDataStep(p, c, seg, off);
        } else {
          EarlyKeepsStream(c, seg);
        }
      }
    }
  }

  /** On an actively opened connection, whatever other hosts send and however the network treats the
      peer's segments: the callback has got a prefix of the peer's stream and at most one end of
      stream, after which nothing more; while the connection is established, the acknowledgement
      counter is the peer's initial number + 1 + the bytes delivered; and a FIN was accepted only
      after the last byte. */
  lemma {:induction false} RunSafe(p: Peer, c: Conn, steps: seq<Step>)
    requires Safe(p, c) && AllowedRun(p, c, steps)
    ensures Safe(p, Run(c, steps)) && c.delivered <= Run(c, steps).delivered
    ensures c.ends == 1 ==> Run(c, steps).delivered == c.delivered && Run(c, steps).ends == 1
    decreases |steps|
  {
    if steps != [] {
      StepSafe(p, c, steps[0]);
      RunSafe(p, Next(c, steps[0]), steps[1..]);
    }
  }

  lemma ConnectingSafe(p: Peer, c: Conn)
    requires Connecting(p, c)
    ensures Safe(p, c)
  {
  }

  /** The stream does get through: a segment at the delivered offset is handed over whole. */
  lemma NextSegmentDelivered(p: Peer, c: Conn, seg: Segment)
    requires Safe(p, c) && c.state == Established && c.Current(seg)
    requires seg.flags in {ACK, ACK + PSH} && Carries(p, seg, |c.delivered|, |c.delivered|)
    ensures c.Receive(seg).delivered == c.delivered + seg.data
    ensures seg.data != [] ==> c.Receive(seg).replies == c.replies + [Packet(ACK, c.expectedAck, Add32(p.isn, 1 + |c.delivered + seg.data|), [])]
  {
    AddAdd(p.isn, 1 + |c.delivered|, |seg.data|);
  }

  /** The exclusion in FromPeer is needed: before the peer's SYN is processed, data at the number left over
      from an earlier connection is given to the callback. */
  lemma StaleNumberMatched(p: Peer, c: Conn, seg: Segment)
    requires Safe(p, c) && c.state == SynSent && c.Current(seg)
    requires seg.flags == ACK && seg.seqNo == c.ackNumber && seg.data != []
    ensures c.Receive(seg).delivered == seg.data && !Safe(p, c.Receive(seg))
  {
  }

  // ----- Answers -----

  /** From one state to a later one, no reply with a FIN was added. */
  ghost predicate NoFinAdded(c: Conn, d: Conn) {
    && c.replies <= d.replies
    && forall k | |c.replies| <= k < |d.replies| :: d.replies[k].Packet? ==> d.replies[k].flags in {ACK, SYN + ACK}
  }

  /** An accepted FIN is never answered with a FIN: the flag that selects the answer is always set. */
  lemma FinAnswered(c: Conn, seg: Segment)
    ensures NoFinAdded(c, c.ReceiveFin(seg))
    ensures c.Current(seg) && seg.seqNo == c.ackNumber ==>
              c.ReceiveFin(seg).replies == c.replies + [Packet(ACK, c.expectedAck, Add32(c.ackNumber, 1), [])]
  {
  }

  /** Nor is any other segment. */
  lemma NoFinInReply(c: Conn, seg: Segment)
    ensures NoFinAdded(c, c.Receive(seg))
  {
    hide NoFinAdded, Conn.ReceiveData, Conn.ReceiveRest, Conn.ReceiveReset, Conn.ReceiveSynAck;
    OtherReplies(c, seg);
    DataReplies(c, seg);
    RestReplies(c, seg);
    RestReplies(c.ReceiveData(seg), seg);
    NoFinAddedTwice(c, c.ReceiveData(seg), c.ReceiveData(seg).ReceiveRest(seg));
  }

  lemma OtherReplies(c: Conn, seg: Segment)
    ensures NoFinAdded(c, c.ReceiveReset(seg)) && NoFinAdded(c, c.ReceiveSynAck(seg)) && NoFinAdded(c, c.Refuse(seg))
  {
  }

  lemma DataReplies(c: Conn, seg: Segment)
    ensures NoFinAdded(c, c.ReceiveData(seg))
  {
  }

  lemma RestReplies(c: Conn, seg: Segment)
    ensures NoFinAdded(c, c.ReceiveRest(seg))
  {
    hide Conn.ReceiveFin;
    FinAnswered(c, seg);
  }

  lemma NoFinAddedTwice(c: Conn, d: Conn, e: Conn)
    requires NoFinAdded(c, d) && NoFinAdded(d, e)
    ensures NoFinAdded(c, e)
  {
  }

  /** Over any run, of whatever segments and calls, tcp_process never sends a FIN; so a connection that the
      peer closes first is never closed from this side. */
  lemma {:induction false} RunSendsNoFin(c: Conn, steps: seq<Step>)
    ensures NoFinAdded(c, Run(c, steps))
    decreases |steps|
  {
    if steps != [] {
      hide Conn.Receive, NoFinAdded;
      var d := Next(c, steps[0]);
      if steps[0].Arrive? {
        NoFinInReply(c, steps[0].seg);
      } else {
        NothingAdded(c, d);
      }
      RunSendsNoFin(d, steps[1..]);
      NoFinAddedTwice(c, d, Run(d, steps[1..]));
    }
  }

  lemma NothingAdded(c: Conn, d: Conn)
    requires d.replies == c.replies
    ensures NoFinAdded(c, d)
  {
  }

  /** From `c` to a later state: every packet sent in reply has the expected acknowledgement of `c` as its
      sequence number, and if the connection has become established, one was sent. */
  ghost predicate Answering(c: Conn, d: Conn) {
    && c.replies <= d.replies && d.expectedAck == c.expectedAck && (c.state != Listening ==> d.state != Listening)
    && (forall k | |c.replies| <= k < |d.replies| :: d.replies[k].Packet? ==> d.replies[k].seqNo == c.expectedAck)
    && (d.state == Established && c.state != Established ==> exists k | |c.replies| <= k < |d.replies| :: d.replies[k].Packet?)
  }

  lemma AnsweringTwice(c: Conn, d: Conn, e: Conn)
    requires Answering(c, d) && Answering(d, e)
    ensures Answering(c, e)
  {
    if e.state == Established && c.state != Established {
      if d.state == Established {
        var k :| |c.replies| <= k < |d.replies| && d.replies[k].Packet?;
        assert e.replies[k].Packet?;
      }
    }
  }

  lemma AnsweringSelf(c: Conn)
    ensures Answering(c, c)
  {
  }

  lemma OtherAnswers(c: Conn, seg: Segment)
    ensures Answering(c, c.ReceiveReset(seg)) && Answering(c, c.Refuse(seg)) && Answering(c, c.ReceiveData(seg))
  {
  }

  lemma SynAckAnswers(c: Conn, seg: Segment)
    ensures Answering(c, c.ReceiveSynAck(seg))
  {
    var d := c.ReceiveSynAck(seg);
    if c.Current(seg) {
      assert d.replies[|c.replies|].Packet?;
    }
  }

  lemma RestAnswers(c: Conn, seg: Segment)
    ensures Answering(c, c.ReceiveRest(seg))
  {
    var d := c.ReceiveRest(seg);
    if d.state == Established && c.state != Established {
      assert d.replies[|c.replies|].Packet?;
    }
  }

  lemma AnsweringStep(c: Conn, seg: Segment)
    ensures Answering(c, c.Receive(seg))
  {
    hide Answering, Conn.ReceiveData, Conn.ReceiveRest, Conn.ReceiveReset, Conn.ReceiveSynAck, Conn.Refuse, Has;
    OtherAnswers(c, seg);
    SynAckAnswers(c, seg);
    RestAnswers(c, seg);
    RestAnswers(c.ReceiveData(seg), seg);
    AnsweringTwice(c, c.ReceiveData(seg), c.ReceiveData(seg).ReceiveRest(seg));
  }

  /** The handshake's ACK carries whatever acknowledgement was expected before, not the number behind the
      SYN that was sent. */
  lemma {:induction false} HandshakeAck(c: Conn, steps: seq<Step>)
    requires forall k | 0 <= k < |steps| :: steps[k].Arrive?
    ensures Answering(c, Run(c, steps))
    decreases |steps|
  {
    if steps == [] {
      AnsweringSelf(c);
    } else {
      hide Answering, Conn.Receive;
      var d := Next(c, steps[0]);
      AnsweringStep(c, steps[0].seg);
      HandshakeAck(d, steps[1..]);
      AnsweringTwice(c, d, Run(d, steps[1..]));
    }
  }

  // ----- What a segment does to the sending side -----

  /** From `c` to `d` the sending side has not moved, or moved by one for an accepted FIN, which closes. */
  predicate SendSide(c: Conn, d: Conn) {
    && Live(d) && d.expectedAck == c.expectedAck && d.Pair() == c.Pair() && (c.finished ==> d.finished)
    && (c.state == Closed ==> d.state == Closed && d.finished == c.finished)
    && d.sequenceNumber == if d.finished && !c.finished then Add32(c.sequenceNumber, 1) else c.sequenceNumber
  }

  predicate Live(c: Conn) {
    c.state != Listening && (c.finished ==> c.state == Closed)
  }

  lemma SendSideKept(c: Conn, seg: Segment)
    requires Live(c)
    ensures SendSide(c, c.Receive(seg))
  {
    hide SendSide, Conn.ReceiveData, Conn.ReceiveRest, Conn.ReceiveReset, Conn.ReceiveSynAck, Conn.Refuse, Has;
    SendSideOthers(c, seg);
    SendSideRest(c, seg);
    if c.Current(seg) {
      SendSideFacts(c, c.ReceiveData(seg));
      SendSideRest(c.ReceiveData(seg), seg);
      SendSideTwice(c, c.ReceiveData(seg), c.ReceiveData(seg).ReceiveRest(seg));
    }
  }

  lemma SendSideOthers(c: Conn, seg: Segment)
    requires Live(c)
    ensures SendSide(c, c.ReceiveReset(seg)) && SendSide(c, c.ReceiveSynAck(seg)) && SendSide(c, c.Refuse(seg))
    ensures c.Current(seg) ==> SendSide(c, c.ReceiveData(seg))
  {
  }

  lemma SendSideRest(c: Conn, seg: Segment)
    requires Live(c)
    ensures SendSide(c, c.ReceiveRest(seg))
  {
  }

  lemma SendSideSelf(c: Conn)
    requires Live(c)
    ensures SendSide(c, c)
  {
  }

  lemma SendSideFacts(c: Conn, d: Conn)
    requires SendSide(c, d)
    ensures Live(d) && d.expectedAck == c.expectedAck && d.Pair() == c.Pair() && (c.finished ==> d.finished)
    ensures d.sequenceNumber == if d.finished && !c.finished then Add32(c.sequenceNumber, 1) else c.sequenceNumber
  {
  }

  lemma SendSideAck(c: Conn, d: Conn, ackField: quad)
    requires SendSide(c, d)
    ensures SendSide(c, d.(ackField := ackField))
  {
  }

  lemma SendSideTwice(c: Conn, d: Conn, e: Conn)
    requires SendSide(c, d) && SendSide(d, e)
    ensures SendSide(c, e)
  {
  }

  /** A recorded acknowledgement is that of an ACK segment of this connection. */
  lemma LastAckFrom(c: Conn, seg: Segment)
    ensures c.Receive(seg).lastAck == c.lastAck
            || (c.Receive(seg).lastAck == seg.ackNo && Has(seg.flags, ACK) && c.Current(seg))
  {
  }
}
