/** What hosts get back for their segments, and that the stream and its end do get through: laws of tcp_process
    over single segments and over runs. */
module TcpLaws {
  import opened Bytes
  import opened Tcp

  // ----- Segments of the peer are acknowledged -----

  /** The packet that acknowledges all that was received: the stream so far, and the FIN once it was accepted. */
  function Acknowledgement(p: Peer, c: Conn): Packet {
    Packet(ACK, c.expectedAck, Add32(p.isn, 1 + |c.delivered| + if c.finished then 1 else 0), [])
  }

  /** A bare acknowledgement: no data, no FIN, and the number that is expected. */
  predicate Bare(c: Conn, seg: Segment) {
    seg.data == [] && seg.seqNo == c.ackNumber && !Has(seg.flags, FIN)
  }

  lemma PeerSegment(c: Conn, seg: Segment)
    requires c.Current(seg) && !Has(seg.flags, RST) && !Has(seg.flags, SYN) && Has(seg.flags, ACK)
    ensures c.Receive(seg) == if Has(seg.flags, FIN) then c.ReceiveData(seg).ReceiveFin(seg) else c.ReceiveData(seg)
  {
    hide Has, Conn.ReceiveData, Conn.ReceiveFin;
    SynFlags();
  }

  /** Every segment of the peer, wherever its bytes stand in the stream, new or repeated or early, is answered by exactly
      one packet, which acknowledges all that was received; only a bare acknowledgement is not answered. */
  lemma DataAnswered(p: Peer, c: Conn, seg: Segment, off: nat)
    requires Safe(p, c) && c.state == Established && c.Current(seg)
    requires !Has(seg.flags, RST) && !Has(seg.flags, SYN) && Carries(p, seg, off, |c.delivered|)
    ensures c.Receive(seg).replies == c.replies + if Bare(c, seg) then [] else [Acknowledgement(p, c.Receive(seg))]
    ensures seg.seqNo == c.ackNumber <==> off == |c.delivered|
  {
    hide Has;
    PeerSegment(c, seg);
    DataIsNext(p, c, seg, off);
    AddAdd(p.isn, 1 + |c.delivered|, |seg.data|);
    AddAdd(p.isn, 1 + |c.delivered|, 1);
    if off == |c.delivered| && seg.data != [] {
      SmallShift(c.ackNumber, |seg.data|);
    }
  }

  lemma {:induction false} RunSplit(c: Conn, steps: seq<Step>, k: nat)
    requires k <= |steps|
    ensures Run(c, steps) == Run(Run(c, steps[..k]), steps[k..])
    ensures k < |steps| ==> Run(c, steps[..k + 1]) == Next(Run(c, steps[..k]), steps[k])
    decreases |steps|
  {
    hide Next;
    if k == 0 {
      assert steps[..0] == [] && steps[0..] == steps;
      if steps != [] {
        assert steps[..1][1..] == [] && steps[..1][0] == steps[0];
      }
    } else {
      RunSplit(Next(c, steps[0]), steps[1..], k - 1);
      assert steps[..k][1..] == steps[1..][..k - 1] && steps[1..][k - 1..] == steps[k..];
      if k < |steps| {
        assert steps[..k + 1][1..] == steps[1..][..k];
      }
    }
  }

  lemma {:induction false} AllowedThere(p: Peer, c: Conn, steps: seq<Step>, k: nat)
    requires AllowedRun(p, c, steps) && k < |steps|
    ensures AllowedRun(p, c, steps[..k]) && Allowed(p, Run(c, steps[..k]), steps[k])
    decreases |steps|
  {
    hide Next, Allowed;
    if k == 0 {
      assert steps[..0] == [];
    } else {
      AllowedThere(p, Next(c, steps[0]), steps[1..], k - 1);
      assert steps[..k][1..] == steps[1..][..k - 1];
    }
  }

  /** The same at any point of any run; and no reply is ever taken back. */
  lemma RunAnswers(p: Peer, c: Conn, steps: seq<Step>, k: nat)
    requires Safe(p, c) && AllowedRun(p, c, steps) && k < |steps| && steps[k].Arrive?
    requires var b := Run(c, steps[..k]);
             b.state == Established && b.Current(steps[k].seg) && !Has(steps[k].seg.flags, RST) && !Has(steps[k].seg.flags, SYN)
    ensures var b, d := Run(c, steps[..k]), Run(c, steps[..k + 1]);
            && d.replies == b.replies + (if Bare(b, steps[k].seg) then [] else [Acknowledgement(p, d)])
            && d.replies <= Run(c, steps).replies
  {
    hide Run, AllowedRun, Safe, Carries, Conn.Receive, Has, NoFinAdded;
    var b, seg := Run(c, steps[..k]), steps[k].seg;
    AllowedThere(p, c, steps, k);
    RunSafe(p, c, steps[..k]);
    RunSplit(c, steps, k);
    RunSplit(c, steps, k + 1);
    SynFlags();
    var off :| Carries(p, seg, off, |b.delivered|);
    DataAnswered(p, b, seg, off);
    RunSendsNoFin(Run(c, steps[..k + 1]), steps[k + 1..]);
    RepliesGrow(Run(c, steps[..k + 1]), Run(c, steps));
  }

  lemma RepliesGrow(c: Conn, d: Conn)
    requires NoFinAdded(c, d)
    ensures c.replies <= d.replies
  {
  }

  // ----- The stream gets through -----

  function Total(segs: seq<Segment>): nat {
    if segs == [] then 0 else |segs[0].data| + Total(segs[1..])
  }

  function Arriving(segs: seq<Segment>): seq<Step> {
    if segs == [] then [] else [Arrive(segs[0])] + Arriving(segs[1..])
  }

  /** The stream from `off` on, cut into segments in any way, all of them in order. */
  ghost predicate InOrder(p: Peer, pair: SocketPair, segs: seq<Segment>, off: nat) {
    segs == []
    || (&& segs[0].Pair() == pair && segs[0].flags in {ACK, ACK + PSH} && Carries(p, segs[0], off, off)
        && InOrder(p, pair, segs[1..], off + |segs[0].data|))
  }

  /** Segments that come in order are delivered one by one. */
  lemma {:induction false} InOrderDelivered(p: Peer, c: Conn, segs: seq<Segment>)
    requires Safe(p, c) && c.state == Established && InOrder(p, c.Pair(), segs, |c.delivered|)
    ensures var d := Run(c, Arriving(segs));
            && Safe(p, d) && d.state == Established && d.Pair() == c.Pair()
            && |c.delivered| + Total(segs) <= |p.stream| && d.delivered == p.stream[..|c.delivered| + Total(segs)]
    decreases |segs|
  {
    if segs != [] {
      hide Safe, Carries;
      var seg, d := segs[0], c.Receive(segs[0]);
      NextDelivered(p, c, seg);
      assert Arriving(segs)[1..] == Arriving(segs[1..]);
      InOrderDelivered(p, d, segs[1..]);
    } else {
      PrefixOf(p, c);
    }
  }

  lemma PrefixOf(p: Peer, c: Conn)
    requires Safe(p, c)
    ensures |c.delivered| <= |p.stream| && c.delivered == p.stream[..|c.delivered|]
  {
  }

  lemma NextDelivered(p: Peer, c: Conn, seg: Segment)
    requires Safe(p, c) && c.state == Established && c.Current(seg)
    requires seg.flags in {ACK, ACK + PSH} && Carries(p, seg, |c.delivered|, |c.delivered|)
    ensures var d := c.Receive(seg);
            Safe(p, d) && d.state == Established && d.Pair() == c.Pair() && |d.delivered| == |c.delivered| + |seg.data|
  {
    PlainFlags();
    hide Has;
    PeerSegment(c, seg);
    DataIsNext(p, c, seg, |c.delivered|);
  }

  lemma PlainFlags()
    ensures forall flags: byte | flags in {ACK, ACK + PSH} ::
              Has(flags, ACK) && !Has(flags, FIN) && !Has(flags, SYN) && !Has(flags, RST)
  {
  }

  /** All of the stream in order, and a FIN behind it: the callback gets the stream and one end of stream, and the
      connection is closed. */
  lemma WholeStream(p: Peer, c: Conn, segs: seq<Segment>, fin: Segment)
    requires Safe(p, c) && c.state == Established && InOrder(p, c.Pair(), segs, |c.delivered|)
    requires |c.delivered| + Total(segs) == |p.stream|
    requires fin.Pair() == c.Pair() && fin.flags == FIN + ACK && Carries(p, fin, |p.stream|, |p.stream|)
    ensures var d := Run(c, Arriving(segs) + [Arrive(fin)]);
            d.delivered == p.stream && d.finished && d.ends == 1 && d.state == Closed
  {
    hide Carries;
    InOrderDelivered(p, c, segs);
    var steps := Arriving(segs) + [Arrive(fin)];
    RunSplit(c, steps, |Arriving(segs)|);
    assert steps[..|Arriving(segs)|] == Arriving(segs) && steps[..|Arriving(segs)| + 1] == steps;
    FinEnds(p, Run(c, Arriving(segs)), fin);
  }

  lemma FinEnds(p: Peer, c: Conn, fin: Segment)
    requires Safe(p, c) && c.state == Established && c.Current(fin) && c.delivered == p.stream
    requires fin.flags == FIN + ACK && Carries(p, fin, |p.stream|, |p.stream|)
    ensures var d := c.Receive(fin);
            d.delivered == p.stream && d.finished && d.ends == 1 && d.state == Closed
  {
    PeerSegment(c, fin);
  }

  // ----- Opening, resetting, and other hosts -----

  /** The peer's SYN/ACK opens the connection, with the counter behind its SYN, and is acknowledged; a repeated one is
      acknowledged again and changes nothing else. */
  lemma SynAckOpens(p: Peer, c: Conn, seg: Segment)
    requires Safe(p, c) && c.state != Closed && c.Current(seg) && seg.flags == SYN + ACK && seg.seqNo == p.isn
    ensures var d := c.Receive(seg);
            && d.state == Established && d.delivered == c.delivered && d.ends == c.ends
            && d.replies == c.replies + [Acknowledgement(p, d)]
            && (c.state == Established ==> d == c.(ackField := d.ackField, replies := d.replies))
  {
    assert !Has(SYN + ACK, RST);
  }

  /** A reset of the peer ends the connection for good, and the callback is told once; if it echoes the identification
      of this host's packets, it is acknowledged instead. */
  lemma ResetEnds(p: Peer, c: Conn, seg: Segment, steps: seq<Step>)
    requires Safe(p, c) && c.Current(seg) && Has(seg.flags, RST)
    ensures seg.ipId == ECHOED_ID ==>
              c.Receive(seg) == c.(ackField := c.ackNumber, replies := c.replies + [Packet(ACK, c.expectedAck, c.ackNumber, [])])
    ensures seg.ipId != ECHOED_ID && AllowedRun(p, c.Receive(seg), steps) ==>
              var d := Run(c.Receive(seg), steps);
              d.state == Closed && d.delivered == c.delivered && d.ends == 1 && d.finished == c.finished
  {
    if seg.ipId != ECHOED_ID && AllowedRun(p, c.Receive(seg), steps) {
      ClosedStays(p, c.Receive(seg), steps);
    }
  }

  lemma {:induction false} ClosedStays(p: Peer, c: Conn, steps: seq<Step>)
    requires c.state == Closed
    ensures var d := Run(c, steps);
            d.state == Closed && d.delivered == c.delivered && d.ends == c.ends && d.finished == c.finished
    decreases |steps|
  {
    if steps != [] {
      hide Conn.Receive;
      if steps[0].Arrive? {
        ClosedKeepsStream(c, steps[0].seg);
      }
      ClosedStays(p, Next(c, steps[0]), steps[1..]);
    }
  }

  /** Other hosts get a reset for whatever they send, except for resets and for a SYN to the port listened on; nothing
      of the connection changes. */
  lemma ForeignRefused(c: Conn, seg: Segment)
    requires Foreign(c, seg) && c.state != Listening
    ensures var d := c.Receive(seg);
            && d == c.(ackField := d.ackField, replies := d.replies)
            && d.replies == c.replies + if RefusedFlags(c, seg) then [Reset(seg.srcIp, seg.srcPort)] else []
  {
  }

  predicate RefusedFlags(c: Conn, seg: Segment) {
    !Has(seg.flags, RST) && (Has(seg.flags, ACK) || Has(seg.flags, FIN) || (seg.flags == SYN && seg.destPort != c.listenPort))
  }

  /** A SYN to the port listened on opens a connection with its sender, safe for whatever stream this sends, and is answered
      with a SYN/ACK of the number behind it; while there is a connection, those of other hosts are dropped. */
  lemma SynAccepted(c: Conn, seg: Segment, stream: seq<byte>)
    requires seg.flags == SYN && seg.destPort == c.listenPort
    ensures c.state == Listening && c.delivered == [] && c.ends == 0 && !c.finished ==>
              var p, d := Peer(seg.srcIp, seg.srcPort, seg.seqNo, stream), c.Receive(seg);
              && Safe(p, d) && d.state == Established && d.Pair() == seg.Pair() && d.delivered == []
              && d.replies == c.replies + [Packet(SYN + ACK, c.expectedAck, Add32(p.isn, 1), [])]
    ensures c.state != Listening && seg.Pair() != c.Pair() ==> c.Receive(seg) == c
  {
    SynOnly();
  }

  /** The acknowledgement of a segment of this connection is put on record, and no other. */
  lemma AckRecorded(c: Conn, seg: Segment)
    ensures c.Receive(seg).lastAck
         == if c.Current(seg) && Has(seg.flags, ACK) && !Has(seg.flags, RST) && seg.flags != SYN + ACK then seg.ackNo else c.lastAck
  {
  }

  /** The acknowledgement field, which the next data packet will carry, follows the counter, unless a SYN to a port that
      is not listened on has overwritten it. */
  lemma AckFieldFollows(p: Peer, c: Conn, seg: Segment, off: nat)
    requires Safe(p, c) && c.state == Established && c.ackField == c.ackNumber
    requires Foreign(c, seg) || (c.Current(seg) && !Has(seg.flags, RST) && !Has(seg.flags, SYN) && Carries(p, seg, off, |c.delivered|))
    ensures var d := c.Receive(seg);
            d.ackField == d.ackNumber <==> !(seg.flags == SYN && seg.destPort != c.listenPort && Add32(seg.seqNo, 1) != c.ackNumber)
  {
    if Foreign(c, seg) {
      ForeignField(c, seg);
    } else {
      SynFlags();
      PeerSegment(c, seg);
    }
  }

  lemma ForeignField(c: Conn, seg: Segment)
    requires Foreign(c, seg) && c.state != Listening
    ensures c.Receive(seg).ackNumber == c.ackNumber
    ensures c.Receive(seg).ackField == if seg.flags == SYN && seg.destPort != c.listenPort then Add32(seg.seqNo, 1) else c.ackField
  {
    SynOnly();
  }

  lemma SynOnly()
    ensures !Has(SYN, RST) && !Has(SYN, ACK) && !Has(SYN, FIN)
  {
  }
}
