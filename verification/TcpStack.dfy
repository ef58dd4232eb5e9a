/** tcp.s itself: the connection variables as fields, tcp_process, and the three calls that send and
    then poll the network until they are answered, time out or are aborted. */
module TcpStack {
  import opened Bytes
  import opened Tcp

  const MAX_PACKETS_SENT: byte := 8

  /** One turn of a polling loop: a segment may have come in, and the timer's high byte may have changed. In the
      last of the polls given to a call the abort key is pressed, which is tested behind the segment. */
  datatype Poll = Quiet(tick: bool) | Inbound(seg: Segment, tick: bool)

  /** The steps a stretch of polling makes. */
  function Arrivals(polls: seq<Poll>): seq<Step> {
    if polls == [] then []
    else
      var last := polls[|polls| - 1];
      Arrivals(polls[..|polls| - 1]) + if last.Inbound? then [Arrive(last.seg)] else []
  }

  lemma ArrivalsNext(polls: seq<Poll>, a: nat, i: nat)
    requires a <= i < |polls|
    ensures polls[i].Inbound? ==> Arrivals(polls[a..i + 1]) == Arrivals(polls[a..i]) + [Arrive(polls[i].seg)]
    ensures polls[i].Quiet? ==> Arrivals(polls[a..i + 1]) == Arrivals(polls[a..i])
  {
    assert polls[a..i + 1][..i - a] == polls[a..i];
  }

  lemma {:induction false} RunAppend(c: Conn, steps: seq<Step>, step: Step)
    ensures Run(c, steps + [step]) == Next(Run(c, steps), step)
    decreases |steps|
  {
    if steps == [] {
      assert [step][1..] == [];
    } else {
      assert (steps + [step])[1..] == steps[1..] + [step];
      RunAppend(Next(c, steps[0]), steps[1..], step);
    }
  }

  lemma RunOne(c: Conn, step: Step)
    ensures Run(c, [step]) == Next(c, step)
  {
  }

  lemma {:induction false} RunConcat(c: Conn, a: seq<Step>, b: seq<Step>)
    ensures Run(c, a + b) == Run(Run(c, a), b)
    decreases |a|
  {
    if a == [] {
      assert a + b == b;
    } else {
      assert (a + b)[1..] == a[1..] + b;
      RunConcat(Next(c, a[0]), a[1..], b);
    }
  }

  lemma {:induction false} ArrivalsConcat(p: seq<Poll>, q: seq<Poll>)
    ensures Arrivals(p + q) == Arrivals(p) + Arrivals(q)
  {
    if q == [] {
      assert p + q == p;
    } else {
      var n := |q| - 1;
      assert (p + q)[..|p + q| - 1] == p + q[..n];
      ArrivalsConcat(p, q[..n]);
    }
  }

  /** A stretch of polling continues a run. */
  lemma RunFurther(c0: Conn, before: seq<Step>, c: Conn, polls: seq<Poll>, a: nat, b: nat, d: Conn)
    requires a <= b <= |polls|
    requires c == Run(c0, before + Arrivals(polls[..a]))
    requires d == Run(c, Arrivals(polls[a..b]))
    ensures d == Run(c0, before + Arrivals(polls[..b]))
  {
    hide Run, Arrivals;
    ArrivalsConcat(polls[..a], polls[a..b]);
    assert polls[..a] + polls[a..b] == polls[..b];
    RunConcat(c0, before + Arrivals(polls[..a]), Arrivals(polls[a..b]));
    assert before + Arrivals(polls[..b]) == before + Arrivals(polls[..a]) + Arrivals(polls[a..b]);
  }

  // ----- Timer ticks -----

  function Ticks(polls: seq<Poll>): nat {
    if polls == [] then 0 else Ticks(polls[..|polls| - 1]) + if polls[|polls| - 1].tick then 1 else 0
  }

  lemma TicksNext(polls: seq<Poll>, a: nat, i: nat)
    requires a <= i < |polls|
    ensures Ticks(polls[a..i + 1]) == Ticks(polls[a..i]) + if polls[i].tick then 1 else 0
  {
    assert polls[a..i + 1][..i - a] == polls[a..i];
  }

  lemma {:induction false} TicksConcat(p: seq<Poll>, q: seq<Poll>)
    ensures Ticks(p + q) == Ticks(p) + Ticks(q)
  {
    if q == [] {
      assert p + q == p;
    } else {
      var n := |q| - 1;
      assert (p + q)[..|p + q| - 1] == p + q[..n];
      TicksConcat(p, q[..n]);
    }
  }

  lemma TicksFurther(polls: seq<Poll>, i: nat, j: nat)
    requires i <= j <= |polls|
    ensures Ticks(polls[..j]) == Ticks(polls[..i]) + Ticks(polls[i..j])
  {
    TicksConcat(polls[..i], polls[i..j]);
    assert polls[..i] + polls[i..j] == polls[..j];
  }

  /** The most ticks that a sending call waits, after `count` packets of the connection's budget. */
  function Patience(count: nat): nat
    decreases MAX_PACKETS_SENT - count
  {
    if count >= MAX_PACKETS_SENT - 1 then 0 else count + 2 + Patience(count + 1)
  }

  /** The fewest ticks after which it gives up. */
  function LeastPatience(count: nat): nat
    decreases MAX_PACKETS_SENT - count
  {
    if count >= MAX_PACKETS_SENT - 1 then 0 else count + 1 + LeastPatience(count + 1)
  }

  function Until(times: seq<nat>, j: nat, now: nat): nat
    requires j < |times|
  {
    if j + 1 < |times| then times[j + 1] else now
  }

  /** Behind each of the transmissions made at these times, up to now, the wait was long enough: the longer, the
      more packets the connection has used of its budget. */
  ghost predicate Spaced(polls: seq<Poll>, times: seq<nat>, now: nat, count: nat) {
    forall j | 0 <= j < |times| ::
      times[j] <= Until(times, j, now) <= |polls| && Ticks(polls[times[j]..Until(times, j, now)]) >= count + j + 1
  }

  lemma SpacedNone(polls: seq<Poll>, now: nat, count: nat)
    ensures Spaced(polls, [], now, count)
  {
  }

  lemma SpacedMore(polls: seq<Poll>, times: seq<nat>, from: nat, now: nat, count: nat)
    requires Spaced(polls, times, from, count) && from <= now <= |polls|
    requires Ticks(polls[from..now]) >= count + |times| + 1
    ensures Spaced(polls, times + [from], now, count)
  {
    hide Ticks;
    var more := times + [from];
    forall j | 0 <= j < |more|
      ensures more[j] <= Until(more, j, now) <= |polls| && Ticks(polls[more[j]..Until(more, j, now)]) >= count + j + 1
    {
      if j < |times| {
        assert Until(more, j, now) == Until(times, j, from) && more[j] == times[j];
      }
    }
  }

  // ----- The packets of tcp_send -----

  predicate DataPacket(p: Packet, data: seq<byte>, seqNo: quad) {
    p.Packet? && p.flags == ACK + PSH && p.data == data && p.seqNo == seqNo
  }

  /** The peer's FIN has been accepted during these polls. */
  ghost predicate FinAccepted(c: Conn, polls: seq<Poll>) {
    Run(c, Arrivals(polls)).finished
  }

  /** The sequence number of a packet sent after these polls of a call that began in state `c`. */
  ghost function SendNumber(c: Conn, polls: seq<Poll>): quad {
    if FinAccepted(c, polls) then Add32(c.sequenceNumber, 1) else c.sequenceNumber
  }

  /** A packet that a call that began in state `c` sends after these polls: its acknowledgement field is the one that the
      last answer to a segment has left. */
  ghost predicate SentBehind(p: Packet, data: seq<byte>, c: Conn, polls: seq<Poll>) {
    DataPacket(p, data, SendNumber(c, polls)) && p.ackNo == Run(c, Arrivals(polls)).ackField
  }

  /** The packets from `from` on are the transmissions of one call that began in state `c`, the j-th of them
      sent after the first times[j] polls: the first one at once, and each with the sequence number that the
      call began with, shifted by one exactly if the peer's FIN had been accepted by then. */
  ghost predicate SentAt(ps: seq<Packet>, from: nat, data: seq<byte>, c: Conn, polls: seq<Poll>, times: seq<nat>) {
    && |ps| == from + |times|
    && (forall j | 0 <= j < |times| ::
          times[j] <= |polls| && SentBehind(ps[from + j], data, c, polls[..times[j]]))
    && (forall j | 0 < j < |times| :: times[j - 1] < times[j])
    && (times != [] ==> times[0] == 0)
  }

  lemma NoPackets(ps: seq<Packet>, data: seq<byte>, c: Conn, polls: seq<Poll>)
    ensures SentAt(ps, |ps|, data, c, polls, [])
  {
  }

  lemma OneMorePacket(ps: seq<Packet>, from: nat, data: seq<byte>, c: Conn, polls: seq<Poll>, times: seq<nat>,
                      p: Packet, now: nat)
    requires SentAt(ps, from, data, c, polls, times)
    requires now <= |polls| && SentBehind(p, data, c, polls[..now])
    requires if times == [] then now == 0 else times[|times| - 1] < now
    ensures SentAt(ps + [p], from, data, c, polls, times + [now])
  {
    hide SentBehind;
    var more := times + [now];
    forall j | 0 <= j < |more|
      ensures more[j] <= |polls| && SentBehind((ps + [p])[from + j], data, c, polls[..more[j]])
    {
      if j < |times| {
        assert more[j] == times[j];
      }
    }
    forall j | 0 < j < |more| ensures more[j - 1] < more[j] {
      if j < |times| {
        assert times[j - 1] < times[j];
      }
    }
  }

  lemma {:induction false} SendSideRun(c: Conn, polls: seq<Poll>)
    requires Live(c)
    ensures SendSide(c, Run(c, Arrivals(polls)))
  {
    hide SendSide, Conn.Receive;
    SendSideSelf(c);
    if polls != [] {
      var n := |polls| - 1;
      SendSideRun(c, polls[..n]);
      var d := Run(c, Arrivals(polls[..n]));
      SendSideFacts(c, d);
      if polls[n].Inbound? {
        RunAppend(c, Arrivals(polls[..n]), Arrive(polls[n].seg));
        SendSideKept(d, polls[n].seg);
        SendSideTwice(c, d, d.Receive(polls[n].seg));
      } else {
        assert Arrivals(polls) == Arrivals(polls[..n]) + [] == Arrivals(polls[..n]);
      }
    }
  }

  /** An accepted FIN stays accepted. */
  lemma FinStays(c: Conn, polls: seq<Poll>, i: nat, j: nat)
    requires Live(c) && i <= j <= |polls| && FinAccepted(c, polls[..i])
    ensures FinAccepted(c, polls[..j])
  {
    hide Run, Arrivals, SendSide;
    var d := Run(c, Arrivals(polls[..i]));
    SendSideRun(c, polls[..i]);
    SendSideFacts(c, d);
    SendSideRun(d, polls[i..j]);
    SendSideFacts(d, Run(d, Arrivals(polls[i..j])));
    ArrivalsConcat(polls[..i], polls[i..j]);
    assert polls[..i] + polls[i..j] == polls[..j];
    RunConcat(c, Arrivals(polls[..i]), Arrivals(polls[i..j]));
  }

  /** So the transmissions of a call fall into two parts: up to the accepted FIN they all have the call's
      sequence number, from then on they are all shifted by one. */
  lemma {:induction false} ShiftedBehindFin(ps: seq<Packet>, from: nat, data: seq<byte>, c: Conn, polls: seq<Poll>, times: seq<nat>)
      returns (cut: nat)
    requires Live(c) && SentAt(ps, from, data, c, polls, times)
    ensures cut <= |times|
    ensures forall j | 0 <= j < cut :: !FinAccepted(c, polls[..times[j]]) && ps[from + j].seqNo == c.sequenceNumber
    ensures forall j | cut <= j < |times| ::
              FinAccepted(c, polls[..times[j]]) && ps[from + j].seqNo == Add32(c.sequenceNumber, 1)
  {
    hide FinAccepted, Add32;
    cut := 0;
    while cut < |times| && !FinAccepted(c, polls[..times[cut]])
      invariant 0 <= cut <= |times|
      invariant forall j | 0 <= j < cut :: !FinAccepted(c, polls[..times[j]])
    {
      cut := cut + 1;
    }
    forall j | 0 <= j < cut
      ensures !FinAccepted(c, polls[..times[j]]) && ps[from + j].seqNo == c.sequenceNumber
    {
      assert SentBehind(ps[from + j], data, c, polls[..times[j]]);
    }
    forall j | cut <= j < |times|
      ensures FinAccepted(c, polls[..times[j]]) && ps[from + j].seqNo == Add32(c.sequenceNumber, 1)
    {
      Ascending(times, cut, j);
      FinStays(c, polls, times[cut], times[j]);
      assert SentBehind(ps[from + j], data, c, polls[..times[j]]);
    }
  }

  lemma {:induction false} Ascending(times: seq<nat>, i: nat, j: nat)
    requires i <= j < |times| && forall k | 0 < k < |times| :: times[k - 1] < times[k]
    ensures times[i] <= times[j]
    decreases j - i
  {
    if i < j {
      assert times[i] < times[i + 1] by { assert times[(i + 1) - 1] < times[i + 1]; }
      Ascending(times, i + 1, j);
    }
  }

  ghost predicate FinPackets(ps: seq<Packet>, from: nat, seqNo: quad) {
    forall k | from <= k < |ps| :: ps[k].Packet? && ps[k].flags == FIN + ACK && ps[k].seqNo == seqNo && ps[k].data == []
  }

  lemma NoFins(ps: seq<Packet>, seqNo: quad)
    ensures FinPackets(ps, |ps|, seqNo)
  {
  }

  lemma OneMoreFin(ps: seq<Packet>, from: nat, seqNo: quad, ackNo: quad)
    requires FinPackets(ps, from, seqNo)
    ensures FinPackets(ps + [Packet(FIN + ACK, seqNo, ackNo, [])], from, seqNo)
  {
  }

  // ----- Acknowledgements -----

  /** A segment of this connection with this acknowledgement came in. */
  predicate Acknowledges(pair: SocketPair, poll: Poll, ackNo: quad) {
    poll.Inbound? && poll.seg.Pair() == pair && Has(poll.seg.flags, ACK) && poll.seg.ackNo == ackNo
  }

  ghost predicate AckSeen(pair: SocketPair, polls: seq<Poll>, ackNo: quad) {
    exists k | 0 <= k < |polls| :: Acknowledges(pair, polls[k], ackNo)
  }

  lemma AckSeenLater(pair: SocketPair, polls: seq<Poll>, i: nat, j: nat, ackNo: quad)
    requires i <= j <= |polls|
    requires AckSeen(pair, polls[..i], ackNo) || (i < j && Acknowledges(pair, polls[i], ackNo))
    ensures AckSeen(pair, polls[..j], ackNo)
  {
    if AckSeen(pair, polls[..i], ackNo) {
      var k :| 0 <= k < i && Acknowledges(pair, polls[..i][k], ackNo);
      assert Acknowledges(pair, polls[..j][k], ackNo);
    } else {
      assert Acknowledges(pair, polls[..j][i], ackNo);
    }
  }

  datatype Goal = Answered | Acked | Left

  datatype Outcome = Reached | TimedOut | Aborted

  predicate Reaches(goal: Goal, c: Conn) {
    match goal
    case Answered => c.state != SynSent
    case Acked => c.lastAck == c.expectedAck
    case Left => c.state != Established
  }

  class Connection {
    var state: State
    var connectIp: quad
    var remotePort: word
    var localPort: word
    var listenPort: word
    var sequenceNumber: quad
    var expectedAck: quad
    var ackNumber: quad
    var ackField: quad
    var lastAck: quad
    var lastReceivedSeq: quad
    var finSent: bool
    var packetSentCount: byte

    // what the callback saw, the answers to segments, and the packets of the sending calls
    var delivered: seq<byte>
    var ends: nat
    var finished: bool
    var replies: seq<Packet>
    var sent: seq<Packet>

    ghost function Vars(): Conn
      reads this`state, this`connectIp, this`remotePort, this`localPort, this`listenPort, this`sequenceNumber,
            this`expectedAck, this`ackNumber, this`ackField, this`lastAck, this`lastReceivedSeq, this`finSent,
            this`delivered, this`ends, this`finished, this`replies
    {
      Conn(state, connectIp, remotePort, localPort, listenPort, sequenceNumber, expectedAck, ackNumber, ackField,
           lastAck, lastReceivedSeq, finSent, delivered, ends, finished, replies)
    }

    // ----- tcp_process -----

    method CheckCurrent(seg: Segment) returns (current: bool)
      ensures current == Vars().Current(seg)
    {
      if state == Closed { return false; }
      if seg.srcIp != connectIp { return false; }
      if seg.srcPort != remotePort { return false; }
      current := seg.destPort == localPort;
    }

    method SendReply(flags: byte)
      modifies this`ackField, this`replies
      ensures Vars() == old(Vars()).Reply(flags)
    {
      ackField := ackNumber;
      replies := replies + [Packet(flags, expectedAck, ackField, [])];
    }

    method SendRst(seg: Segment)
      modifies this`replies
      ensures Vars() == old(Vars()).Refuse(seg)
    {
      replies := replies + [Reset(seg.srcIp, seg.srcPort)];
    }

    method ProcessReset(seg: Segment)
      modifies this
      ensures Vars() == old(Vars()).ReceiveReset(seg)
      ensures sent == old(sent) && packetSentCount == old(packetSentCount)
    {
      var current := CheckCurrent(seg);
      if !current { return; }
      if seg.ipId == ECHOED_ID {
        SendReply(ACK);
        return;
      }
      state := Closed;
      ends := ends + 1;
    }

    method ProcessSynAck(seg: Segment)
      modifies this
      ensures Vars() == old(Vars()).ReceiveSynAck(seg)
      ensures sent == old(sent) && packetSentCount == old(packetSentCount)
    {
      var current := CheckCurrent(seg);
      if !current {
        SendRst(seg);
        return;
      }
      if state == SynSent {
        ackNumber := Add32(seg.seqNo, 1);
        state := Established;
      }
      SendReply(ACK);
    }

    method Deliver(data: seq<byte>)
      modifies this`delivered, this`ackNumber
      ensures Vars() == old(Vars().(delivered := delivered + data, ackNumber := Add32(ackNumber, |data|)))
    {
      hide Add32;
      delivered := delivered + data;
      ackNumber := Add32(ackNumber, |data|);
    }

    method ProcessData(seg: Segment)
      modifies this
      ensures Vars() == old(Vars()).ReceiveData(seg)
      ensures sent == old(sent) && packetSentCount == old(packetSentCount)
    {
      hide Conn.Reply, Add32;
      lastAck, lastReceivedSeq := seg.ackNo, seg.seqNo;
      if ackNumber == lastReceivedSeq {
        if seg.data == [] { return; }
        Deliver(seg.data);
      }
      SendReply(ACK);
    }

    /** The peer's FIN is the next in sequence; the flag is set together with the counter's increment. */
    method AcceptFin()
      modifies this
      ensures Vars() == old(Vars()).AcceptFin()
      ensures sent == old(sent) && packetSentCount == old(packetSentCount)
    {
      hide Add32;
      ends, finished, state := ends + 1, true, Closed;
      finSent := true;
      ackNumber := Add32(ackNumber, 1);
    }

    method ProcessFin(seg: Segment)
      modifies this
      ensures Vars() == old(Vars()).ReceiveFin(seg)
      ensures sent == old(sent) && packetSentCount == old(packetSentCount)
    {
      hide Conn.Reply, Conn.AcceptFin, Add32;
      var current := CheckCurrent(seg);
      if !current {
        SendRst(seg);
        return;
      }
      lastReceivedSeq := seg.seqNo;
      if ackNumber != lastReceivedSeq { return; }
      AcceptFin();
      if !finSent {
        SendReply(FIN + ACK);
        return;
      }
      sequenceNumber := Add32(sequenceNumber, 1);
      SendReply(ACK);
    }

    /** A connection request is taken. */
    method AcceptSyn(seg: Segment)
      modifies this
      ensures Vars() == old(Vars().(ackNumber := Add32(seg.seqNo, 1), connectIp := seg.srcIp, localPort := listenPort,
                                    remotePort := seg.srcPort, state := Established))
      ensures sent == old(sent) && packetSentCount == old(packetSentCount)
    {
      hide Add32;
      ackNumber, connectIp := seg.seqNo, seg.srcIp;
      localPort, remotePort, state := listenPort, seg.srcPort, Established;
      ackNumber := Add32(ackNumber, 1);
    }

    method ProcessSyn(seg: Segment)
      modifies this
      ensures Vars() == old(Vars()).ReceiveSyn(seg)
      ensures sent == old(sent) && packetSentCount == old(packetSentCount)
    {
      hide Conn.Reply, Add32;
      if seg.destPort != listenPort {
        ackField := Add32(seg.seqNo, 1);
        SendRst(seg);
        return;
      }
      if state != Listening {
        var current := CheckCurrent(seg);
        if !current { return; }
      }
      AcceptSyn(seg);
      SendReply(SYN + ACK);
    }

    method Process(seg: Segment)
      modifies this
      ensures Vars() == old(Vars()).Receive(seg)
      ensures sent == old(sent) && packetSentCount == old(packetSentCount)
    {
      hide Conn.ReceiveReset, Conn.ReceiveSynAck, Conn.ReceiveData, Conn.ReceiveFin, Conn.ReceiveSyn, Conn.Refuse;
      if Has(seg.flags, RST) {
        ProcessReset(seg);
        return;
      }
      if seg.flags == SYN + ACK {
        ProcessSynAck(seg);
        return;
      }
      if Has(seg.flags, ACK) {
        var current := CheckCurrent(seg);
        if !current {
          SendRst(seg);
          return;
        }
        ProcessData(seg);
      }
      if Has(seg.flags, FIN) {
        ProcessFin(seg);
        return;
      }
      if seg.flags == SYN {
        ProcessSyn(seg);
      }
    }

    // ----- Polling -----

    predicate At(goal: Goal)
      reads this
      ensures At(goal) <==> Reaches(goal, Vars())
    {
      match goal
      case Answered => state != SynSent
      case Acked => lastAck == expectedAck
      case Left => state != Established
    }

    /** One turn: the segment, if there is one, is processed. */
    method Turn(poll: Poll)
      requires Live(Vars())
      modifies this
      ensures Vars() == if poll.Inbound? then old(Vars()).Receive(poll.seg) else old(Vars())
      ensures sent == old(sent) && packetSentCount == old(packetSentCount)
      ensures SendSide(old(Vars()), Vars())
      ensures lastAck == old(lastAck) || Acknowledges(old(Vars()).Pair(), poll, lastAck)
    {
      hide Conn.Receive;
      if poll.Inbound? {
        SendSideKept(Vars(), poll.seg);
        LastAckFrom(Vars(), poll.seg);
        Process(poll.seg);
      }
    }

    /** A turn of a delay loop that began in state `c0`. */
    method WaitTurn(polls: seq<Poll>, start: nat, i: nat, ghost c0: Conn)
      requires start <= i < |polls| && Live(c0) && SendSide(c0, Vars()) && Vars() == Run(c0, Arrivals(polls[start..i]))
      requires lastAck == c0.lastAck || AckSeen(c0.Pair(), polls[..i], lastAck)
      modifies this
      ensures SendSide(c0, Vars()) && Vars() == Run(c0, Arrivals(polls[start..i + 1]))
      ensures sent == old(sent) && packetSentCount == old(packetSentCount)
      ensures lastAck == c0.lastAck || AckSeen(c0.Pair(), polls[..i + 1], lastAck)
    {
      hide Run, Arrivals, Acknowledges, AckSeen, Add32, SendSide;
      ghost var c := Vars();
      SendSideFacts(c0, c);
      Turn(polls[i]);
      if AckSeen(c0.Pair(), polls[..i], lastAck) || Acknowledges(c0.Pair(), polls[i], lastAck) {
        AckSeenLater(c0.Pair(), polls, i, i + 1, lastAck);
      }
      SendSideTwice(c0, c, Vars());
      ArrivalsNext(polls, start, i);
      if polls[i].Inbound? {
        RunAppend(c0, Arrivals(polls[start..i]), Arrive(polls[i].seg));
      }
    }

    /** The delay loops of the three sending calls: up to `loopCount` timer ticks, until the goal is
        reached. The abort key of the last poll is obeyed even if its segment reaches the goal; the loop of
        tcp_close does not look at it. */
    method Wait(goal: Goal, polls: seq<Poll>, start: nat, loopCount: nat) returns (i: nat, outcome: Outcome)
      requires start <= |polls| && loopCount > 0 && Live(Vars())
      modifies this
      ensures start <= i <= |polls| && Vars() == Run(old(Vars()), Arrivals(polls[start..i]))
      ensures sent == old(sent) && packetSentCount == old(packetSentCount)
      ensures outcome == Reached ==> At(goal)
      ensures outcome != Reached && start < i && (goal == Left || i < |polls|) ==> !At(goal)
      ensures start + 1 < i ==> !Reaches(goal, Run(old(Vars()), Arrivals(polls[start..i - 1])))
      ensures outcome != Aborted ==> start < i
      ensures outcome == Aborted ==> i == |polls|
      ensures goal != Left && i == |polls| ==> outcome == Aborted
      ensures Ticks(polls[start..i]) <= loopCount && (outcome == TimedOut ==> Ticks(polls[start..i]) == loopCount)
      ensures SendSide(old(Vars()), Vars())
      ensures lastAck == old(lastAck) || AckSeen(old(Vars()).Pair(), polls[..i], lastAck)
    {
      hide At, Reaches, Run, Arrivals, Acknowledges, AckSeen, Add32, SendSide, Ticks;
      i := start;
      var ticks := loopCount;
      ghost var c0 := Vars();
      SendSideSelf(c0);
      NothingPolled(c0, polls, start);
      while ticks > 0
        invariant start <= i <= |polls| && Vars() == Run(c0, Arrivals(polls[start..i]))
        invariant sent == old(sent) && packetSentCount == old(packetSentCount)
        invariant SendSide(c0, Vars()) && (start < i ==> !At(goal)) && (ticks < loopCount ==> start < i)
        invariant start + 1 < i ==> !Reaches(goal, Run(c0, Arrivals(polls[start..i - 1])))
        invariant goal != Left && start < i ==> i < |polls|
        invariant 0 <= ticks && Ticks(polls[start..i]) + ticks == loopCount
        invariant lastAck == old(lastAck) || AckSeen(c0.Pair(), polls[..i], lastAck)
        decreases |polls| - i
      {
        if i == |polls| { return i, Aborted; }
        WaitTurn(polls, start, i, c0);
        TicksNext(polls, start, i);
        i := i + 1;
        if i == |polls| && goal != Left { return i, Aborted; }
        if At(goal) { return i, Reached; }
        if polls[i - 1].tick { ticks := ticks - 1; }
      }
      outcome := TimedOut;
    }

    /** tcp_send_packet. Whether the frame got out at all (an address may have to be looked up first)
        shows in the carry, which only lengthens the next wait. */
    method Transmit(p: Packet) returns (carry: nat)
      modifies this`sent
      ensures sent == old(sent) + [p] && carry <= 1
    {
      sent := sent + [p];
      carry :| carry <= 1;
    }

    // ----- tcp_send -----

    ghost predicate Sendable()
      reads this
    {
      && Live(Vars()) && packetSentCount < MAX_PACKETS_SENT
      && (state == Established ==> expectedAck == sequenceNumber && packetSentCount < MAX_PACKETS_SENT - 1)
    }

    /** The loop of tcp_send, after the expected acknowledgement was set. */
    method SendAndWait(data: seq<byte>, polls: seq<Poll>) returns (outcome: Outcome, used: nat, ghost times: seq<nat>)
      requires Live(Vars()) && state == Established && packetSentCount < MAX_PACKETS_SENT - 1
      modifies this
      ensures used <= |polls| && Vars() == Run(old(Vars()), Arrivals(polls[..used])) && SendSide(old(Vars()), Vars())
      ensures times != [] && times[|times| - 1] <= used && old(sent) <= sent
      ensures SentAt(sent, |old(sent)|, data, old(Vars()), polls, times)
      ensures packetSentCount as int == old(packetSentCount) + |times| - if outcome == TimedOut then 0 else 1
      ensures packetSentCount <= MAX_PACKETS_SENT - 1 && (outcome == TimedOut <==> packetSentCount == MAX_PACKETS_SENT - 1)
      ensures Ticks(polls[..used]) <= Patience(old(packetSentCount))
      ensures Spaced(polls, times[..|times| - 1], times[|times| - 1], old(packetSentCount))
      ensures outcome == TimedOut ==> Spaced(polls, times, used, old(packetSentCount))
      ensures (outcome == Aborted <==> used == |polls|) && (polls != [] ==> used > 0)
      ensures outcome == Reached ==> lastAck == expectedAck
      ensures outcome == TimedOut ==> !Reaches(Acked, Vars())
      ensures used > 1 ==> !Reaches(Acked, Run(old(Vars()), Arrivals(polls[..used - 1])))
      ensures lastAck == old(lastAck) || AckSeen(old(Vars()).Pair(), polls[..used], lastAck)
    {
      hide Run, Arrivals, AckSeen, SentAt, Add32, SendSide, Patience, Ticks, Reaches, Spaced;
      used, outcome, times := 0, TimedOut, [];
      ghost var c := Vars();
      EmptyRun(c, polls);
      assert polls[..0] == [] && [] + Arrivals(polls[..0]) == Arrivals(polls[..0]);
      NoTicks();
      NoPackets(sent, data, c, polls);
      SpacedNone(polls, 0, packetSentCount);
      SendSideSelf(c);
      while true
        invariant used <= |polls| && Vars() == Run(c, Arrivals(polls[..used])) && SendSide(c, Vars())
        invariant packetSentCount as int == old(packetSentCount) + |times| && packetSentCount < MAX_PACKETS_SENT - 1
        invariant old(sent) <= sent && SentAt(sent, |old(sent)|, data, c, polls, times)
        invariant Spaced(polls, times, used, old(packetSentCount))
        invariant if times == [] then used == 0 else times[|times| - 1] < used
        invariant Ticks(polls[..used]) + Patience(packetSentCount) <= Patience(old(packetSentCount))
        invariant used > 0 ==> !Reaches(Acked, Vars()) && used < |polls|
        invariant lastAck == c.lastAck || AckSeen(c.Pair(), polls[..used], lastAck)
        decreases MAX_PACKETS_SENT - packetSentCount
      {
        ghost var early := times;
        outcome, used, times := SendRound(data, polls, used, c, times, |old(sent)|, old(packetSentCount));
        assert times[..|times| - 1] == early;
        PatienceStep(packetSentCount);
        if outcome != TimedOut { return; }
        packetSentCount := packetSentCount + 1;
        if packetSentCount >= MAX_PACKETS_SENT - 1 { return; }
      }
    }

    /** A round of the loop, which began in state `c` with `first` packets sent and `count0` of the budget used. */
    method SendRound(data: seq<byte>, polls: seq<Poll>, from: nat, ghost c: Conn, ghost times: seq<nat>, ghost first: nat, ghost count0: nat)
      returns (outcome: Outcome, used: nat, ghost more: seq<nat>)
      requires from <= |polls| && Live(c) && c.state == Established
      requires Vars() == Run(c, Arrivals(polls[..from])) && SendSide(c, Vars())
      requires packetSentCount as int == count0 + |times| && packetSentCount < MAX_PACKETS_SENT - 1
      requires SentAt(sent, first, data, c, polls, times) && Spaced(polls, times, from, count0)
      requires if times == [] then from == 0 else times[|times| - 1] < from
      requires from > 0 ==> !Reaches(Acked, Vars())
      requires lastAck == c.lastAck || AckSeen(c.Pair(), polls[..from], lastAck)
      modifies this
      ensures from <= used <= |polls| && Vars() == Run(c, Arrivals(polls[..used])) && SendSide(c, Vars())
      ensures packetSentCount == old(packetSentCount) && old(sent) <= sent
      ensures more == times + [from] && SentAt(sent, first, data, c, polls, more)
      ensures Ticks(polls[..used]) <= Ticks(polls[..from]) + packetSentCount as int + 2
      ensures outcome == TimedOut ==> Spaced(polls, more, used, count0) && !Reaches(Acked, Vars())
      ensures (outcome != Aborted ==> from < used) && (outcome == Aborted <==> used == |polls|)
      ensures outcome == Reached ==> lastAck == expectedAck
      ensures used > 1 && from < used ==> !Reaches(Acked, Run(c, Arrivals(polls[..used - 1])))
      ensures lastAck == c.lastAck || AckSeen(c.Pair(), polls[..used], lastAck)
    {
      hide Run, Arrivals, AckSeen, SentAt, Add32, SendSide, Patience, Ticks, Reaches, Spaced, SendNumber;
      ghost var d, before := Vars(), sent;
      SendSideFacts(c, d);
      outcome, used := SendOnce(data, polls, from);
      assert [] + Arrivals(polls[..from]) == Arrivals(polls[..from]);
      assert [] + Arrivals(polls[..used]) == Arrivals(polls[..used]);
      Numbered(c, d, polls[..from]);
      OneMorePacket(before, first, data, c, polls, times, Packet(ACK + PSH, d.sequenceNumber, d.ackField, data), from);
      more := times + [from];
      RunFurther(c, [], d, polls, from, used, Vars());
      NotBefore(Acked, c, d, polls, from, used);
      SendSideTwice(c, d, Vars());
      TicksFurther(polls, from, used);
      if outcome == TimedOut { SpacedMore(polls, times, from, used, count0); }
      if AckSeen(c.Pair(), polls[..from], lastAck) {
        AckSeenLater(c.Pair(), polls, from, used, lastAck);
      }
    }

    /** One transmission and the wait after it. */
    method SendOnce(data: seq<byte>, polls: seq<Poll>, from: nat) returns (outcome: Outcome, used: nat)
      requires from <= |polls| && Live(Vars())
      modifies this
      ensures from <= used <= |polls| && Vars() == Run(old(Vars()), Arrivals(polls[from..used]))
      ensures SendSide(old(Vars()), Vars()) && packetSentCount == old(packetSentCount)
      ensures sent == old(sent) + [Packet(ACK + PSH, old(sequenceNumber), old(ackField), data)]
      ensures outcome == Reached ==> lastAck == expectedAck
      ensures outcome == TimedOut ==> !Reaches(Acked, Vars())
      ensures (outcome != Aborted ==> from < used) && (outcome == Aborted <==> used == |polls|)
      ensures from + 1 < used ==> !Reaches(Acked, Run(old(Vars()), Arrivals(polls[from..used - 1])))
      ensures Ticks(polls[from..used]) <= packetSentCount as int + 2
      ensures outcome == TimedOut ==> Ticks(polls[from..used]) >= packetSentCount as int + 1
      ensures lastAck == old(lastAck) || AckSeen(old(Vars()).Pair(), polls[..used], lastAck)
    {
      hide Run, Arrivals, AckSeen, Add32, SendSide, Ticks;
      var carry := Transmit(Packet(ACK + PSH, sequenceNumber, ackField, data));
      used, outcome := Wait(Acked, polls, from, packetSentCount as int + 1 + carry);
    }

    /** tcp_send. It ends at the first poll behind which the acknowledgement of the whole call is on record, and
        succeeds then unless this is the last poll, with the abort key. The acknowledgement is a new one of this
        connection unless it was on record before. The packets of the call are those
        described by SentAt; the budget of resends is the connection's, and what a call uses of it is gone;
        a success leaves the sequence number where the next call's data begins. */
    method Send(data: seq<byte>, polls: seq<Poll>) returns (ok: bool, used: nat, ghost times: seq<nat>)
      requires |data| < 0x1_0000 && Sendable()
      modifies this
      ensures Sendable() && used <= |polls| && old(sent) <= sent && Vars().Pair() == old(Vars()).Pair()
      ensures old(state) != Established ==> !ok && Vars() == old(Vars()) && sent == old(sent)
      ensures old(state) == Established ==>
                Vars() == Run(old(Vars()), [Local(old(sequenceNumber), Add32(old(expectedAck), |data|), old(ackField), old(finSent), false)]
                                           + Arrivals(polls[..used])
                                           + [Local(sequenceNumber, expectedAck, ackField, finSent, !ok)])
      ensures old(state) == Established ==>
                && times != [] && times[|times| - 1] <= used
                && SentAt(sent, |old(sent)|, data, old(Vars()).(expectedAck := Add32(old(expectedAck), |data|)), polls, times)
                && (finished <==> FinAccepted(old(Vars()).(expectedAck := Add32(old(expectedAck), |data|)), polls[..used]))
      ensures old(state) == Established ==> (ok <==> used < |polls| && lastAck == Add32(old(sequenceNumber), |data|))
      ensures old(state) == Established && polls != [] ==> used > 0
      ensures old(state) == Established && used > 1 ==>
                !Reaches(Acked, Run(old(Vars()).(expectedAck := Add32(old(expectedAck), |data|)), Arrivals(polls[..used - 1])))
      ensures ok ==> lastAck == Add32(old(sequenceNumber), |data|) && (!finished ==> sequenceNumber == lastAck)
      ensures ok && old(lastAck) != lastAck ==> AckSeen(old(Vars()).Pair(), polls[..used], lastAck)
      ensures ok ==> packetSentCount as int == old(packetSentCount) + |times| - 1
      ensures !ok && old(state) == Established ==>
                state == Closed && (used == |polls| || old(packetSentCount) as int + |times| == MAX_PACKETS_SENT - 1)
      ensures |sent| - |old(sent)| <= MAX_PACKETS_SENT - 1 - old(packetSentCount)
              && Ticks(polls[..used]) <= Patience(old(packetSentCount))
      ensures old(state) == Established ==>
                && Spaced(polls, times[..|times| - 1], times[|times| - 1], old(packetSentCount))
                && (!ok && used < |polls| ==> Spaced(polls, times, used, old(packetSentCount)))
    {
      hide Run, Arrivals, AckSeen, SentAt, Add32, SendSide, Ticks, Patience, Conn.Receive, Conn.Current, FinAccepted, Spaced;
      used, times := 0, [];
      NoTicks();
      assert polls[..0] == [];
      if state != Established { return false, used, times; }
      ghost var c := Vars();
      Expect(|data|);
      ghost var d := Vars();
      ghost var start := Local(c.sequenceNumber, expectedAck, ackField, finSent, false);
      RunOne(c, start);
      var outcome;
      outcome, used, times := SendAndWait(data, polls);
      RunConcat(c, [start], Arrivals(polls[..used]));
      SendSideFacts(d, Vars());
      Accepted(d, Vars(), polls[..used]);
      SentLength(sent, |old(sent)|, data, d, polls, times);
      ok := outcome == Reached;
      Conclude(ok, |data|);
      RunAppend(c, [start] + Arrivals(polls[..used]), Local(sequenceNumber, expectedAck, ackField, finSent, !ok));
    }

    /** The expected acknowledgement moves on. */
    method Expect(n: nat)
      modifies this`expectedAck
      ensures expectedAck == Add32(old(expectedAck), n) && Vars() == old(Vars()).(expectedAck := expectedAck)
      ensures Vars() == Next(old(Vars()), Local(sequenceNumber, expectedAck, ackField, finSent, false))
    {
      hide Add32;
      expectedAck := Add32(expectedAck, n);
    }

    /** The end of tcp_send. */
    method Conclude(ok: bool, n: nat)
      modifies this`sequenceNumber, this`state
      ensures Vars() == Next(old(Vars()), Local(sequenceNumber, expectedAck, ackField, finSent, !ok))
      ensures ok ==> sequenceNumber == Add32(old(sequenceNumber), n) && state == old(state)
      ensures !ok ==> sequenceNumber == old(sequenceNumber) && state == Closed
    {
      hide Add32;
      if ok {
        sequenceNumber := Add32(sequenceNumber, n);
      } else {
        state := Closed;
      }
    }

    // ----- tcp_connect and tcp_close -----

    /** The loop of tcp_connect: every SYN carries the same sequence number. */
    method SynAndWait(polls: seq<Poll>) returns (outcome: Outcome, used: nat)
      requires Live(Vars()) && state == SynSent && packetSentCount == 0
      modifies this
      ensures used <= |polls| && Vars() == Run(old(Vars()), Arrivals(polls[..used]))
      ensures SendSide(old(Vars()), Vars())
      ensures old(sent) < sent && |sent| - |old(sent)| <= MAX_PACKETS_SENT - 1
      ensures forall k | |old(sent)| <= k < |sent| :: sent[k] == Packet(SYN, old(sequenceNumber), 0, [])
      ensures outcome == Reached ==> state != SynSent && packetSentCount < MAX_PACKETS_SENT - 1
      ensures outcome == Aborted <==> used == |polls|
      ensures outcome == TimedOut ==> state == SynSent && Ticks(polls[..used]) >= LeastPatience(0)
      ensures used > 1 ==> !Reaches(Answered, Run(old(Vars()), Arrivals(polls[..used - 1])))
    {
      hide Run, Arrivals, Acknowledges, Add32, Ticks, LeastPatience;
      used, outcome := 0, TimedOut;
      ghost var c := Vars();
      EmptyRun(c, polls);
      NoTicks();
      assert polls[..0] == [] && [] + Arrivals(polls[..0]) == Arrivals(polls[..0]);
      while true
        invariant used <= |polls| && Vars() == Run(c, Arrivals(polls[..used])) && SendSide(c, Vars())
        invariant old(sent) <= sent && |sent| - |old(sent)| == packetSentCount
        invariant packetSentCount < MAX_PACKETS_SENT - 1
        invariant state == SynSent && (used > 0 ==> used < |polls|)
        invariant Ticks(polls[..used]) + LeastPatience(packetSentCount) >= LeastPatience(0)
        invariant forall k | |old(sent)| <= k < |sent| :: sent[k] == Packet(SYN, c.sequenceNumber, 0, [])
        decreases MAX_PACKETS_SENT - packetSentCount
      {
        outcome, used := SynOnce(polls, used, c);
        LeastStep(packetSentCount);
        if outcome != TimedOut { return; }
        packetSentCount := packetSentCount + 1;
        if packetSentCount >= MAX_PACKETS_SENT - 1 { return; }
      }
    }

    /** One SYN and the wait after it, of a call that began in state `c`. */
    method SynOnce(polls: seq<Poll>, from: nat, ghost c: Conn) returns (outcome: Outcome, used: nat)
      requires from <= |polls| && Live(Vars()) && Vars() == Run(c, Arrivals(polls[..from])) && SendSide(c, Vars())
      requires state == SynSent
      modifies this
      ensures from <= used <= |polls| && Vars() == Run(c, Arrivals(polls[..used])) && SendSide(c, Vars())
      ensures sent == old(sent) + [Packet(SYN, old(sequenceNumber), 0, [])] && packetSentCount == old(packetSentCount)
      ensures outcome == Reached ==> state != SynSent
      ensures outcome == TimedOut ==> state == SynSent && Ticks(polls[..used]) >= Ticks(polls[..from]) + packetSentCount as int + 1
      ensures (outcome != Aborted ==> from < used) && (outcome == Aborted <==> used == |polls|)
      ensures used > 1 && from < used ==> !Reaches(Answered, Run(c, Arrivals(polls[..used - 1])))
    {
      hide Run, Arrivals, Acknowledges, Add32, Ticks, SendSide, AckSeen;
      var carry := Transmit(Packet(SYN, sequenceNumber, 0, []));
      ghost var d := Vars();
      assert [] + Arrivals(polls[..from]) == Arrivals(polls[..from]);
      used, outcome := Wait(Answered, polls, from, packetSentCount as int + 1 + carry);
      RunFurther(c, [], d, polls, from, used, Vars());
      assert [] + Arrivals(polls[..used]) == Arrivals(polls[..used]);
      NotBefore(Answered, c, d, polls, from, used);
      SendSideTwice(c, d, Vars());
      TicksFurther(polls, from, used);
    }

    /** The variables of a new connection; its callback has seen nothing yet. */
    method Open(port: word, randomPort: word, randomHigh: word)
      modifies this
      ensures state == SynSent && connectIp == old(connectIp) && remotePort == port && localPort == randomPort
      ensures delivered == [] && ends == 0 && !finished && !finSent && packetSentCount == 0 && sent == old(sent)
      ensures sequenceNumber == 0x1_0000 * randomHigh as int && expectedAck == old(expectedAck) && replies == old(replies)
    {
      remotePort, localPort, state := port, randomPort, SynSent;
      packetSentCount, finSent, sequenceNumber := 0, false, 0x1_0000 * randomHigh as int;
      delivered, ends, finished := [], 0, false;
    }

    /** tcp_connect to the address in tcp_connect_ip; `c0` is the state in which the first SYN goes out. It ends at the
        first poll behind which that is no longer the state, and succeeds if the connection is established then; it
        fails if the connection was reset, with the abort key, or after the least number of ticks. The
        peer's SYN is answered, but with the previously expected acknowledgement as the sequence number: the
        handshake has the number behind the SYN if and only if that was expected before the call. */
    method Connect(port: word, randomPort: word, randomHigh: word, polls: seq<Poll>)
      returns (ok: bool, ghost c0: Conn, used: nat)
      modifies this
      ensures used <= |polls| && c0.state == SynSent && c0.connectIp == old(connectIp) && c0.remotePort == port
      ensures c0.localPort == randomPort && c0.delivered == [] && c0.ends == 0 && !c0.finished && !c0.finSent
      ensures ok <==> used < |polls| && Run(c0, Arrivals(polls[..used])).state == Established
      ensures used > 1 ==> Run(c0, Arrivals(polls[..used - 1])).state == SynSent
      ensures !ok && used < |polls| ==>
                || Run(c0, Arrivals(polls[..used])).state == Closed
                || (Run(c0, Arrivals(polls[..used])).state == SynSent && Ticks(polls[..used]) >= LeastPatience(0))
      ensures c0.sequenceNumber == 0x1_0000 * randomHigh as int && c0.expectedAck == old(expectedAck)
      ensures ok ==> Vars() == Run(c0, Arrivals(polls[..used]) + [Local(sequenceNumber, expectedAck, ackField, finSent, false)])
      ensures ok ==> Sendable() && state == Established && sequenceNumber == Add32(c0.sequenceNumber, 1)
      ensures old(sent) < sent && |sent| - |old(sent)| <= MAX_PACKETS_SENT - 1
      ensures forall k | |old(sent)| <= k < |sent| :: sent[k] == Packet(SYN, c0.sequenceNumber, 0, [])
      ensures ok ==> old(replies) <= replies && exists k | |old(replies)| <= k < |replies| :: replies[k].Packet?
      ensures ok ==> forall k | |old(replies)| <= k < |replies| && replies[k].Packet? ::
                       replies[k].seqNo == sequenceNumber <==> old(expectedAck) as int == 0x1_0000 * randomHigh as int + 1
    {
      hide Run, Arrivals, Ticks, LeastPatience;
      ok := false;
      Open(port, randomPort, randomHigh);
      c0 := Vars();
      var outcome;
      outcome, used := SynAndWait(polls);
      ArrivalsArrive(polls[..used]);
      HandshakeAck(c0, Arrivals(polls[..used]));
      if outcome == TimedOut { state := Closed; }
      if outcome != Reached || state == Closed { return; }
      sequenceNumber := Add32(sequenceNumber, 1);
      expectedAck := sequenceNumber;
      RunAppend(c0, Arrivals(polls[..used]), Local(sequenceNumber, expectedAck, ackField, finSent, false));
      ok := true;
    }

    /** One FIN and the wait after it. */
    method FinOnce(polls: seq<Poll>, from: nat) returns (outcome: Outcome, used: nat)
      requires from <= |polls| && Live(Vars())
      modifies this
      ensures from <= used <= |polls| && SendSide(old(Vars()), Vars())
      ensures Vars() == Run(old(Vars()), [Local(old(sequenceNumber), old(expectedAck), old(ackNumber), old(finSent), false)]
                                         + Arrivals(polls[from..used]))
      ensures sent == old(sent) + [Packet(FIN + ACK, old(sequenceNumber), old(ackNumber), [])]
      ensures packetSentCount == old(packetSentCount)
      ensures used < |polls| && state == Established ==> Ticks(polls[from..used]) >= packetSentCount as int + 1
    {
      hide Run, Arrivals, AckSeen, Add32, SendSide, Ticks;
      ghost var c := Vars();
      SendSideSelf(c);
      SendSideAck(c, c, ackNumber);
      ackField := ackNumber;
      var start := Local(sequenceNumber, expectedAck, ackField, finSent, false);
      RunOne(c, start);
      var carry := Transmit(Packet(FIN + ACK, sequenceNumber, ackField, []));
      ghost var d := Vars();
      used, outcome := Wait(Left, polls, from, packetSentCount as int + 1 + carry);
      SendSideTwice(c, d, Vars());
      RunConcat(c, [start], Arrivals(polls[from..used]));
    }

    /** A round of tcp_close, which began in state `c` with `first` packets sent. */
    method CloseRound(polls: seq<Poll>, from: nat, ghost c: Conn, ghost steps: seq<Step>, ghost first: nat)
      returns (used: nat, ghost more: seq<Step>)
      requires from <= |polls| && state == Established && Live(Vars()) && sequenceNumber == c.sequenceNumber
      requires Vars() == Run(c, steps) && OnlyArrivals(steps) == Arrivals(polls[..from])
      requires FinPackets(sent, first, c.sequenceNumber)
      modifies this
      ensures used <= |polls| && Live(Vars()) && (state == Established ==> sequenceNumber == c.sequenceNumber)
      ensures Vars() == Run(c, more) && OnlyArrivals(more) == Arrivals(polls[..used])
      ensures old(sent) <= sent && |sent| == |old(sent)| + 1 && packetSentCount == old(packetSentCount)
      ensures FinPackets(sent, first, c.sequenceNumber) && steps <= more
      ensures used < |polls| && state == Established ==>
                from <= used && Ticks(polls[..used]) >= Ticks(polls[..from]) + packetSentCount as int + 1
    {
      hide Add32, FinPackets, SendSide, Run, Arrivals, OnlyArrivals, Conn.Receive, Conn.Current, Ticks;
      ghost var d := Vars();
      var outcome;
      outcome, used := FinOnce(polls, from);
      TicksFurther(polls, from, used);
      OneMoreFin(old(sent), first, c.sequenceNumber, d.ackNumber);
      SendSideFacts(d, Vars());
      more := OneMoreRound(c, steps, Local(d.sequenceNumber, d.expectedAck, d.ackNumber, d.finSent, false), polls, from, used);
    }

    /** The state is set to closed, which is the last step of a run. */
    method Abandon(ghost c: Conn, ghost steps: seq<Step>, ghost polls: seq<Poll>, ghost used: nat) returns (ghost more: seq<Step>)
      requires used <= |polls| && Vars() == Run(c, steps) && OnlyArrivals(steps) == Arrivals(polls[..used])
      modifies this`state
      ensures state == Closed && more != [] && more[..|more| - 1] == steps
      ensures Vars() == Run(c, more) && OnlyArrivals(more) == Arrivals(polls[..used])
    {
      hide Run, Arrivals, OnlyArrivals;
      more := GiveUp(c, steps, polls, used);
      state := Closed;
    }

    /** tcp_close. Every FIN has the same sequence number, and the connection ends up closed whatever the
        peer does. The variables are those of a run over exactly the segments that came in, whose last step
        gives the connection up; the call succeeds if and only if it had left the established state before, and
        fails only with all FINs of the budget sent and waited for. */
    method Close(polls: seq<Poll>) returns (ok: bool, used: nat, ghost steps: seq<Step>)
      requires Sendable()
      modifies this
      ensures state == Closed && used <= |polls|
      ensures steps != [] && Vars() == Run(old(Vars()), steps) && OnlyArrivals(steps) == Arrivals(polls[..used])
      ensures ok <==> Run(old(Vars()), steps[..|steps| - 1]).state != Established
      ensures old(state) == Established ==>
                steps[0] == Local(old(sequenceNumber), Add32(old(expectedAck), 1), old(ackField), true, false)
      ensures old(state) != Established ==> ok && sent == old(sent)
      ensures old(sent) <= sent && |sent| - |old(sent)| <= MAX_PACKETS_SENT - 1 - old(packetSentCount)
      ensures FinPackets(sent, |old(sent)|, old(sequenceNumber))
      ensures !ok ==> && |sent| - |old(sent)| == MAX_PACKETS_SENT - 1 - old(packetSentCount)
                      && (used < |polls| ==> Ticks(polls[..used]) >= LeastPatience(old(packetSentCount)))
    {
      hide Add32, FinPackets, SendSide, Run, Arrivals, OnlyArrivals, Conn.Receive, Conn.Current;
      used := 0;
      NoFins(sent, sequenceNumber);
      ghost var c := Vars();
      if state != Established {
        NothingYet(c, polls);
        steps := Abandon(c, [], polls, 0);
        return true, used, steps;
      }
      Expect(1);
      finSent := true;
      steps := [Local(sequenceNumber, expectedAck, ackField, finSent, false)];
      RunOne(c, steps[0]);
      LocalOnly(steps[0], polls);
      ok, used, steps := FinLoop(polls, c, steps);
    }

    /** The loop of tcp_close. There is no abort key here: when the polls end, only the timer goes on. */
    method FinLoop(polls: seq<Poll>, ghost c: Conn, ghost first: seq<Step>)
      returns (ok: bool, used: nat, ghost steps: seq<Step>)
      requires state == Established && Live(Vars()) && sequenceNumber == c.sequenceNumber
      requires packetSentCount < MAX_PACKETS_SENT - 1
      requires first != [] && Vars() == Run(c, first) && OnlyArrivals(first) == Arrivals(polls[..0])
      modifies this
      ensures state == Closed && used <= |polls|
      ensures first <= steps && Vars() == Run(c, steps) && OnlyArrivals(steps) == Arrivals(polls[..used])
      ensures ok <==> Run(c, steps[..|steps| - 1]).state != Established
      ensures old(sent) <= sent && |sent| - |old(sent)| <= MAX_PACKETS_SENT - 1 - old(packetSentCount)
      ensures FinPackets(sent, |old(sent)|, c.sequenceNumber)
      ensures !ok ==> && |sent| - |old(sent)| == MAX_PACKETS_SENT - 1 - old(packetSentCount)
                      && (used < |polls| ==> Ticks(polls[..used]) >= LeastPatience(old(packetSentCount)))
    {
      hide FinPackets, SendSide, Run, Arrivals, OnlyArrivals, Ticks, LeastPatience;
      used, steps := 0, first;
      NoFins(sent, sequenceNumber);
      while true
        invariant used <= |polls| && state == Established && Live(Vars()) && sequenceNumber == c.sequenceNumber
        invariant Vars() == Run(c, steps) && OnlyArrivals(steps) == Arrivals(polls[..used]) && first <= steps
        invariant old(sent) <= sent && |sent| - |old(sent)| == packetSentCount as int - old(packetSentCount)
        invariant packetSentCount < MAX_PACKETS_SENT - 1
        invariant FinPackets(sent, |old(sent)|, c.sequenceNumber)
        invariant used < |polls| ==> Ticks(polls[..used]) + LeastPatience(packetSentCount) >= LeastPatience(old(packetSentCount))
        decreases MAX_PACKETS_SENT - packetSentCount
      {
        LeastStep(packetSentCount);
        used, steps := CloseRound(polls, used, c, steps, |old(sent)|);
        if state != Established {
          steps := Abandon(c, steps, polls, used);
          return true, used, steps;
        }
        packetSentCount := packetSentCount + 1;
        if packetSentCount >= MAX_PACKETS_SENT - 1 {
          steps := Abandon(c, steps, polls, used);
          return false, used, steps;
        }
      }
    }
  }

  /** Before the last of the polls so far, the goal was not reached. */
  lemma NotBefore(goal: Goal, c: Conn, d: Conn, polls: seq<Poll>, from: nat, used: nat)
    requires from <= used <= |polls| && d == Run(c, [] + Arrivals(polls[..from]))
    requires from > 0 ==> !Reaches(goal, d)
    requires from + 1 < used ==> !Reaches(goal, Run(d, Arrivals(polls[from..used - 1])))
    ensures used > 1 && from < used ==> !Reaches(goal, Run(c, Arrivals(polls[..used - 1])))
  {
    hide Run, Arrivals, Reaches;
    if from + 1 < used {
      RunFurther(c, [], d, polls, from, used - 1, Run(d, Arrivals(polls[from..used - 1])));
      assert [] + Arrivals(polls[..used - 1]) == Arrivals(polls[..used - 1]);
    } else {
      assert [] + Arrivals(polls[..from]) == Arrivals(polls[..from]);
    }
  }

  lemma NothingPolled(c: Conn, polls: seq<Poll>, i: nat)
    requires i <= |polls|
    ensures Run(c, Arrivals(polls[i..i])) == c && Ticks(polls[i..i]) == 0
  {
  }

  lemma EmptyRun(c: Conn, polls: seq<Poll>)
    ensures c == Run(c, [] + Arrivals(polls[..0]))
  {
  }

  lemma Accepted(c: Conn, d: Conn, polls: seq<Poll>)
    requires d == Run(c, Arrivals(polls))
    ensures FinAccepted(c, polls) <==> d.finished
  {
  }

  lemma NothingYet(c: Conn, polls: seq<Poll>)
    ensures Run(c, []) == c && OnlyArrivals([]) == Arrivals(polls[..0])
  {
  }

  lemma NoTicks()
    ensures Ticks([]) == 0
  {
  }

  lemma LeastStep(count: nat)
    requires count < MAX_PACKETS_SENT - 1
    ensures LeastPatience(count) == count + 1 + LeastPatience(count + 1)
    ensures LeastPatience(MAX_PACKETS_SENT - 1) == 0
  {
  }

  lemma PatienceStep(count: nat)
    requires count < MAX_PACKETS_SENT - 1
    ensures Patience(count) == count + 2 + Patience(count + 1)
  {
  }

  lemma Numbered(c: Conn, d: Conn, polls: seq<Poll>)
    requires Live(c) && c.state == Established && d == Run(c, Arrivals(polls)) && SendSide(c, d)
    ensures d.sequenceNumber == SendNumber(c, polls)
  {
    hide Run;
  }

  lemma SentLength(ps: seq<Packet>, from: nat, data: seq<byte>, c: Conn, polls: seq<Poll>, times: seq<nat>)
    requires SentAt(ps, from, data, c, polls, times)
    ensures |ps| == from + |times|
  {
  }

  lemma {:induction false} ArrivalsArrive(polls: seq<Poll>)
    ensures forall k | 0 <= k < |Arrivals(polls)| :: Arrivals(polls)[k].Arrive?
  {
    if polls != [] {
      ArrivalsArrive(polls[..|polls| - 1]);
    }
  }

  /** The arrivals of a run that also has local steps. */
  function OnlyArrivals(steps: seq<Step>): seq<Step> {
    if steps == [] then []
    else
      var last := steps[|steps| - 1];
      OnlyArrivals(steps[..|steps| - 1]) + if last.Arrive? then [last] else []
  }

  lemma {:induction false} OnlyArrivalsConcat(p: seq<Step>, q: seq<Step>)
    ensures OnlyArrivals(p + q) == OnlyArrivals(p) + OnlyArrivals(q)
  {
    if q == [] {
      assert p + q == p;
    } else {
      var n := |q| - 1;
      assert (p + q)[..|p + q| - 1] == p + q[..n];
      OnlyArrivalsConcat(p, q[..n]);
    }
  }

  lemma {:induction false} AllArrivals(steps: seq<Step>)
    requires forall k | 0 <= k < |steps| :: steps[k].Arrive?
    ensures OnlyArrivals(steps) == steps
  {
    if steps != [] {
      AllArrivals(steps[..|steps| - 1]);
    }
  }

  lemma LocalOnly(step: Step, polls: seq<Poll>)
    requires step.Local?
    ensures OnlyArrivals([step]) == [] && Arrivals(polls[..0]) == []
  {
    assert [step][..0] == [];
  }

  /** A round of tcp_close continues the run. */
  lemma OneMoreRound(c: Conn, steps: seq<Step>, local: Step, polls: seq<Poll>, from: nat, used: nat) returns (more: seq<Step>)
    requires from <= used <= |polls| && local.Local? && OnlyArrivals(steps) == Arrivals(polls[..from])
    ensures more == steps + ([local] + Arrivals(polls[from..used]))
    ensures Run(c, more) == Run(Run(c, steps), [local] + Arrivals(polls[from..used]))
    ensures OnlyArrivals(more) == Arrivals(polls[..used])
  {
    hide Run, Arrivals, OnlyArrivals;
    var arrivals := Arrivals(polls[from..used]);
    more := steps + ([local] + arrivals);
    RunConcat(c, steps, [local] + arrivals);
    OnlyArrivalsConcat(steps, [local] + arrivals);
    OnlyArrivalsConcat([local], arrivals);
    LocalOnly(local, polls);
    ArrivalsArrive(polls[from..used]);
    AllArrivals(arrivals);
    ArrivalsConcat(polls[..from], polls[from..used]);
    assert polls[..from] + polls[from..used] == polls[..used];
  }

  /** Marking the connection closed is the last step of a run. */
  lemma GiveUp(c: Conn, steps: seq<Step>, polls: seq<Poll>, used: nat) returns (more: seq<Step>)
    requires used <= |polls| && OnlyArrivals(steps) == Arrivals(polls[..used])
    ensures var d := Run(c, steps);
            more == steps + [Local(d.sequenceNumber, d.expectedAck, d.ackField, d.finSent, true)]
            && Run(c, more) == d.(state := Closed) && more[..|more| - 1] == steps
    ensures OnlyArrivals(more) == Arrivals(polls[..used])
  {
    var d := Run(c, steps);
    var last := Local(d.sequenceNumber, d.expectedAck, d.ackField, d.finSent, true);
    more := steps + [last];
    RunAppend(c, steps, last);
    LocalOnly(last, polls);
    OnlyArrivalsConcat(steps, [last]);
  }

  /** On the first connection, when no acknowledgement has been expected before, the handshake is wrong for
      every initial sequence number: no packet of it carries the number behind the SYN. */
  method FirstConnect(t: Connection, port: word, randomPort: word, randomHigh: word, polls: seq<Poll>) returns (ok: bool)
    requires t.expectedAck == 0
    modifies t
    ensures ok ==> old(t.replies) <= t.replies && exists k | |old(t.replies)| <= k < |t.replies| :: t.replies[k].Packet?
    ensures ok ==> forall k | |old(t.replies)| <= k < |t.replies| && t.replies[k].Packet? :: t.replies[k].seqNo != t.sequenceNumber
  {
    var used;
    ghost var c0;
    ok, c0, used := t.Connect(port, randomPort, randomHigh, polls);
  }

  // ----- Runs of tcp_send that go astray -----

  /** Nothing that concerns this pair comes in. */
  predicate Unconcerned(pair: SocketPair, polls: seq<Poll>) {
    forall k | 0 <= k < |polls| && polls[k].Inbound? :: polls[k].seg.Pair() != pair
  }

  /** The peer's SYN/ACK opens the connection, whatever other hosts send before it, if it comes before the least number
      of ticks and not with the abort key. */
  method OpenedBySynAck(t: Connection, port: word, randomPort: word, randomHigh: word, polls: seq<Poll>, k: nat, synAck: Segment)
    returns (ok: bool)
    requires k + 1 < |polls| && polls[k].Inbound? && polls[k].seg == synAck && synAck.flags == SYN + ACK
    requires synAck.Pair() == SocketPair(t.connectIp, port, randomPort)
    requires Unconcerned(synAck.Pair(), polls[..k]) && Ticks(polls[..k]) < LeastPatience(0)
    modifies t
    ensures ok && t.state == Established
  {
    hide Run, Ticks, LeastPatience, Arrivals, Unconcerned;
    ghost var c0;
    ghost var used;
    ok, c0, used := t.Connect(port, randomPort, randomHigh, polls);
    StillOpening(c0, polls, k, used);
    OpenBehind(c0, polls, k, used);
  }

  lemma {:induction false} StillWaiting(c: Conn, polls: seq<Poll>)
    requires c.state == SynSent && Unconcerned(c.Pair(), polls)
    ensures Run(c, Arrivals(polls)).state == SynSent && Run(c, Arrivals(polls)).Pair() == c.Pair()
  {
    if polls != [] {
      hide Conn.Receive;
      var n := |polls| - 1;
      StillWaiting(c, polls[..n]);
      if polls[n].Inbound? {
        RunAppend(c, Arrivals(polls[..n]), Arrive(polls[n].seg));
        ForeignKeepsStream(Run(c, Arrivals(polls[..n])), polls[n].seg);
      } else {
        assert Arrivals(polls) == Arrivals(polls[..n]);
      }
    }
  }

  /** The call does not end before the SYN/ACK. */
  lemma StillOpening(c: Conn, polls: seq<Poll>, k: nat, used: nat)
    requires c.state == SynSent && k <= |polls| && used <= |polls| && Unconcerned(c.Pair(), polls[..k])
    ensures used <= k ==> Run(c, Arrivals(polls[..used])).state == SynSent && Ticks(polls[..used]) <= Ticks(polls[..k])
    ensures Run(c, Arrivals(polls[..k])).state == SynSent && Run(c, Arrivals(polls[..k])).Pair() == c.Pair()
  {
    hide Run, Arrivals, Ticks;
    StillWaiting(c, polls[..k]);
    if used <= k {
      assert forall i | 0 <= i < used :: polls[..used][i] == polls[..k][i];
      StillWaiting(c, polls[..used]);
      TicksFurther(polls, used, k);
    }
  }

  /** Behind it, the connection is established at once, and never opening again. */
  lemma OpenBehind(c: Conn, polls: seq<Poll>, k: nat, used: nat)
    requires k < |polls| && used <= |polls| && polls[k].Inbound? && polls[k].seg.flags == SYN + ACK
    requires Run(c, Arrivals(polls[..k])).state == SynSent && polls[k].seg.Pair() == Run(c, Arrivals(polls[..k])).Pair()
    ensures Run(c, Arrivals(polls[..k + 1])).state == Established
    ensures used > k + 1 ==> Run(c, Arrivals(polls[..used - 1])).state != SynSent
  {
    hide Run;
    var seg := polls[k].seg;
    assert polls[..k + 1][..k] == polls[..k];
    RunAppend(c, Arrivals(polls[..k]), Arrive(seg));
    SynAckOpened(Run(c, Arrivals(polls[..k])), seg);
    if used > k + 1 {
      NeverOpening(Run(c, Arrivals(polls[..k + 1])), polls[k + 1..used - 1]);
      ArrivalsConcat(polls[..k + 1], polls[k + 1..used - 1]);
      assert polls[..k + 1] + polls[k + 1..used - 1] == polls[..used - 1];
      RunConcat(c, Arrivals(polls[..k + 1]), Arrivals(polls[k + 1..used - 1]));
    }
  }

  lemma SynAckOpened(c: Conn, seg: Segment)
    requires c.state == SynSent && seg.Pair() == c.Pair() && seg.flags == SYN + ACK
    ensures c.Receive(seg).state == Established
  {
  }

  lemma {:induction false} NeverOpening(c: Conn, polls: seq<Poll>)
    requires c.state != SynSent
    ensures Run(c, Arrivals(polls)).state != SynSent
  {
    if polls != [] {
      hide Conn.Receive;
      var n := |polls| - 1;
      NeverOpening(c, polls[..n]);
      if polls[n].Inbound? {
        RunAppend(c, Arrivals(polls[..n]), Arrive(polls[n].seg));
        NotOpening(Run(c, Arrivals(polls[..n])), polls[n].seg);
      } else {
        assert Arrivals(polls) == Arrivals(polls[..n]);
      }
    }
  }

  lemma NotOpening(c: Conn, seg: Segment)
    requires c.state != SynSent
    ensures c.Receive(seg).state != SynSent
  {
  }

  function Ticking(n: nat): (polls: seq<Poll>)
    ensures |polls| == n && forall k | 0 <= k < n :: polls[k] == Quiet(true)
  {
    seq(n, _ => Quiet(true))
  }

  lemma {:induction false} TicksOfTicking(polls: seq<Poll>)
    requires forall k | 0 <= k < |polls| :: polls[k] == Quiet(true)
    ensures Ticks(polls) == |polls|
  {
    if polls != [] {
      TicksOfTicking(polls[..|polls| - 1]);
    }
  }

  lemma PatienceBound(count: nat)
    ensures Patience(count) <= 35
  {
    assert Patience(7) == 0 && Patience(6) == 8 && Patience(5) == 15 && Patience(4) == 21;
    assert Patience(3) == 26 && Patience(2) == 30 && Patience(1) == 33 && Patience(0) == 35;
  }

  /** The peer's FIN comes in while a call waits, and then nothing more: all retransmissions but the first
      packet go out with a shifted sequence number, six of them on a fresh budget. */
  method FinWhileSending(t: Connection, data: seq<byte>, fin: Segment) returns (ok: bool)
    requires t.Sendable() && t.state == Established && t.packetSentCount == 0 && 0 < |data| < 0x1_0000
    requires t.Vars().Current(fin) && fin.flags == FIN + ACK && fin.seqNo == t.ackNumber && fin.data == []
    requires Add32(t.sequenceNumber, |data|) !in {t.lastAck, fin.ackNo}
    modifies t
    ensures !ok && |t.sent| == |old(t.sent)| + 7
    ensures t.sent[|old(t.sent)|].Packet? && t.sent[|old(t.sent)|].seqNo == old(t.sequenceNumber)
    ensures forall k | |old(t.sent)| < k < |t.sent| ::
              DataPacket(t.sent[k], data, Add32(old(t.sequenceNumber), 1))
  {
    hide AckSeen, Ticks, Patience, Add32, SendNumber, Run;
    ghost var c := t.Vars();
    ghost var d := c.(expectedAck := Add32(t.expectedAck, |data|));
    var polls := [Inbound(fin, false)] + Ticking(36);
    var used;
    ghost var times;
    ok, used, times := t.Send(data, polls);
    NoAckIn(c.Pair(), polls[..used], fin, Add32(c.sequenceNumber, |data|));
    PatienceBound(0);
    TicksAfterFirst(polls, used);
    assert |times| == 7;
    FirstNumber(d, polls);
    SentLength(t.sent, |old(t.sent)|, data, d, polls, times);
    forall k | |old(t.sent)| < k < |t.sent| ensures DataPacket(t.sent[k], data, Add32(old(t.sequenceNumber), 1)) {
      ghost var j := k - |old(t.sent)|;
      Rising(t.sent, |old(t.sent)|, data, d, polls, times, j);
      LaterNumber(d, polls, fin, times[j]);
    }
  }

  lemma NoAckIn(pair: SocketPair, polls: seq<Poll>, fin: Segment, ackNo: quad)
    requires fin.ackNo != ackNo && forall k | 0 <= k < |polls| :: polls[k] in {Inbound(fin, false), Quiet(true)}
    ensures !AckSeen(pair, polls, ackNo)
  {
  }

  lemma TicksAfterFirst(polls: seq<Poll>, used: nat)
    requires polls[0..] == polls && |polls| == 37 && used <= 37 && !polls[0].tick && polls[1..] == Ticking(36)
    ensures Ticks(polls[..used]) <= 35 ==> used < 37
  {
    if used == 37 {
      assert polls[..37] == polls[..1] + polls[1..];
      TicksConcat(polls[..1], polls[1..]);
      TicksOfTicking(polls[1..]);
    }
  }

  lemma FirstNumber(d: Conn, polls: seq<Poll>)
    requires !d.finished
    ensures SendNumber(d, polls[..0]) == d.sequenceNumber
  {
    assert Arrivals(polls[..0]) == [];
  }

  lemma Rising(ps: seq<Packet>, from: nat, data: seq<byte>, c: Conn, polls: seq<Poll>, times: seq<nat>, j: nat)
    requires SentAt(ps, from, data, c, polls, times) && 0 < j < |times|
    ensures 1 <= times[j] <= |polls| && DataPacket(ps[from + j], data, SendNumber(c, polls[..times[j]]))
  {
    assert SentBehind(ps[from + j], data, c, polls[..times[j]]);
    assert times[j - 1] < times[j];
  }

  lemma LaterNumber(d: Conn, polls: seq<Poll>, fin: Segment, i: nat)
    requires Live(d) && d.state == Established && d.Current(fin)
    requires fin.flags == FIN + ACK && fin.seqNo == d.ackNumber && fin.data == []
    requires 1 <= i <= |polls| && polls[0] == Inbound(fin, false)
    ensures SendNumber(d, polls[..i]) == Add32(d.sequenceNumber, 1)
  {
    var first := polls[..1];
    assert first[..0] == [] && first[0] == polls[0];
    assert Arrivals(first[..0]) == [];
    assert Arrivals(first) == [Arrive(fin)];
    RunOne(d, Arrive(fin));
    assert FinAccepted(d, polls[..1]);
    FinStays(d, polls, 1, i);
  }

  /** A record that happens to be the acknowledgement of the call, left over from an earlier connection, makes
      it succeed at the first poll, with nothing heard from the peer. */
  method StaleRecord(t: Connection, data: seq<byte>) returns (ok: bool)
    requires t.Sendable() && t.state == Established && 0 < |data| < 0x1_0000
    requires t.lastAck == Add32(t.sequenceNumber, |data|)
    modifies t
    ensures ok && t.lastAck == old(t.lastAck)
  {
    hide Add32, SentAt, Ticks, Patience, Run;
    ghost var c := t.Vars();
    var used;
    ghost var times;
    var polls := [Quiet(false), Quiet(false)];
    ok, used, times := t.Send(data, polls);
    NothingHeard(polls, used);
    NothingHeard(polls, 1);
    NoSteps(c.(expectedAck := Add32(c.expectedAck, |data|)));
    LocalsKeepRecord(c, Local(c.sequenceNumber, Add32(c.expectedAck, |data|), c.ackField, c.finSent, false), [],
                     Local(t.sequenceNumber, t.expectedAck, t.ackField, t.finSent, !ok));
  }

  lemma NothingHeard(polls: seq<Poll>, used: nat)
    requires polls == [Quiet(false), Quiet(false)] && used <= 2
    ensures Arrivals(polls[..used]) == []
  {
    var both := polls[..2];
    assert both[..1] == polls[..1] && both[..1][..0] == [];
    assert Arrivals(polls[..0]) == [];
    assert Arrivals(polls[..1]) == [];
  }

  lemma LocalsKeepRecord(c: Conn, first: Step, steps: seq<Step>, last: Step)
    requires first.Local? && last.Local?
    ensures Run(c, [first] + steps + [last]).lastAck == Run(Next(c, first), steps).lastAck
    ensures steps == [] ==> Run(c, [first] + steps + [last]).lastAck == c.lastAck
  {
    hide Run;
    RunOne(c, first);
    RunConcat(c, [first], steps);
    RunAppend(c, [first] + steps, last);
    NoSteps(Next(c, first));
  }

  lemma NoSteps(c: Conn)
    ensures Run(c, []) == c
  {
  }

  /** The abort key is obeyed although the same poll brings the acknowledgement of the whole call. */
  method AbortWins(t: Connection, data: seq<byte>, ack: Segment) returns (ok: bool)
    requires t.Sendable() && t.state == Established && 0 < |data| < 0x1_0000
    requires t.Vars().Current(ack) && ack.flags == ACK && ack.ackNo == Add32(t.sequenceNumber, |data|)
    modifies t
    ensures !ok && t.lastAck == Add32(old(t.sequenceNumber), |data|)
  {
    hide Add32, SentAt, Ticks, Patience, Run, Conn.Receive, Conn.Current;
    ghost var c := t.Vars();
    ghost var first := Local(c.sequenceNumber, Add32(c.expectedAck, |data|), c.ackField, c.finSent, false);
    var used;
    ghost var times;
    ok, used, times := t.Send(data, [Inbound(ack, false)]);
    OneHeard(ack);
    assert [Inbound(ack, false)][..used] == [Inbound(ack, false)];
    LocalsKeepRecord(c, first, [Arrive(ack)], Local(t.sequenceNumber, t.expectedAck, t.ackField, t.finSent, !ok));
    RunOne(Next(c, first), Arrive(ack));
    SameCurrent(c, first, ack);
    RecordsAck(Next(c, first), ack);
  }

  lemma OneHeard(ack: Segment)
    ensures Arrivals([Inbound(ack, false)]) == [Arrive(ack)]
  {
    assert [Inbound(ack, false)][..0] == [];
  }

  lemma SameCurrent(c: Conn, first: Step, seg: Segment)
    requires first.Local? && !first.abort
    ensures Next(c, first).Current(seg) <==> c.Current(seg)
  {
  }

  lemma RecordsAck(c: Conn, ack: Segment)
    requires c.Current(ack) && ack.flags == ACK
    ensures c.Receive(ack).lastAck == ack.ackNo
  {
  }

  // ----- Successive sends -----

  function Concat(chunks: seq<seq<byte>>): seq<byte> {
    if chunks == [] then [] else Concat(chunks[..|chunks| - 1]) + chunks[|chunks| - 1]
  }

  lemma ConcatNext(chunks: seq<seq<byte>>, n: nat)
    requires n < |chunks|
    ensures Concat(chunks[..n + 1]) == Concat(chunks[..n]) + chunks[n]
  {
    assert chunks[..n + 1][..n] == chunks[..n];
  }

  lemma {:induction false} ConcatPrefix(chunks: seq<seq<byte>>, n: nat)
    requires n <= |chunks|
    ensures Concat(chunks[..n]) <= Concat(chunks)
    decreases |chunks| - n
  {
    if n < |chunks| {
      ConcatNext(chunks, n);
      ConcatPrefix(chunks, n + 1);
    } else {
      assert chunks[..n] == chunks;
    }
  }

  /** The packet holds, at its sequence number, exactly the bytes of the stream from `off` on. */
  ghost predicate SegmentAt(p: Packet, stream: seq<byte>, base: quad, off: nat) {
    && p.Packet? && off + |p.data| <= |stream| && p.data == stream[off..off + |p.data|] && p.seqNo == Add32(base, off)
  }

  /** So do all these packets, from these offsets on. */
  ghost predicate Placed(ps: seq<Packet>, offs: seq<nat>, stream: seq<byte>, base: quad) {
    |ps| == |offs| && forall k | 0 <= k < |offs| :: SegmentAt(ps[k], stream, base, offs[k])
  }

  lemma PlacedMore(sent: seq<Packet>, before: seq<Packet>, after: seq<Packet>, offs: seq<nat>, off: nat,
                   stream: seq<byte>, base: quad) returns (more: seq<nat>)
    requires sent <= before <= after && Placed(before[|sent|..], offs, stream, base)
    requires forall k | |before| <= k < |after| :: SegmentAt(after[k], stream, base, off)
    ensures offs <= more && Placed(after[|sent|..], more, stream, base)
    ensures forall k | |offs| <= k < |more| :: more[k] == off
  {
    hide SegmentAt;
    more := offs + seq(|after| - |before|, _ => off);
    forall k | 0 <= k < |more| ensures SegmentAt(after[|sent|..][k], stream, base, more[k]) {
      if k < |offs| {
        assert after[|sent|..][k] == before[|sent|..][k];
        assert SegmentAt(before[|sent|..][k], stream, base, offs[k]);
      } else {
        assert after[|sent|..][k] == after[|sent| + k];
      }
    }
  }

  lemma ChunkOnStream(chunks: seq<seq<byte>>, n: nat, base: quad, p: Packet)
    requires n < |chunks|
    requires DataPacket(p, chunks[n], Add32(base, |Concat(chunks[..n])|))
    ensures SegmentAt(p, Concat(chunks), base, |Concat(chunks[..n])|)
  {
    ConcatNext(chunks, n);
    ConcatPrefix(chunks, n + 1);
  }

  /** The n-th call was acknowledged by a segment of this connection that came in during it; or it was empty; or
      it was the first one, and its acknowledgement was on record before. */
  ghost predicate Confirmed(pair: SocketPair, chunks: seq<seq<byte>>, polls: seq<seq<Poll>>, base: quad, record: quad, n: nat)
    requires n < |chunks| == |polls|
  {
    var ackNo := Add32(base, |Concat(chunks[..n + 1])|);
    AckSeen(pair, polls[n], ackNo) || chunks[n] == [] || (n == 0 && record == ackNo)
  }

  lemma ConfirmedBy(pair: SocketPair, chunks: seq<seq<byte>>, polls: seq<seq<Poll>>, base: quad, record: quad, n: nat,
                    used: nat, before: quad, after: quad)
    requires n < |chunks| == |polls| && used <= |polls[n]| && |chunks[n]| < 0x1_0000
    requires after == Add32(Add32(base, |Concat(chunks[..n])|), |chunks[n]|)
    requires before != after ==> AckSeen(pair, polls[n][..used], after)
    requires if n == 0 then before == record else before == Add32(base, |Concat(chunks[..n])|)
    ensures Confirmed(pair, chunks, polls, base, record, n)
  {
    hide AckSeen;
    ConcatNext(chunks, n);
    AddAdd(base, |Concat(chunks[..n])|, |chunks[n]|);
    if before != after {
      AckSeenLater(pair, polls[n], used, |polls[n]|, after);
      assert polls[n][..|polls[n]|] == polls[n];
    } else if n > 0 && chunks[n] != [] {
      SmallShift(before, |chunks[n]|);
    }
  }

  /** Any sequence of tcp_send calls, up to the first failure. Each successful call was acknowledged by the
      peer. While the peer does not close, the sends tile the stream: every packet, first or repeated,
      carries the stream's bytes at its sequence number, `offs` being their offsets, and after n successes the
      sequence number has moved by exactly the bytes of these n calls. All calls share one budget of resends. */
  method SendAll(t: Connection, chunks: seq<seq<byte>>, polls: seq<seq<Poll>>) returns (n: nat, ghost offs: seq<nat>)
    requires t.Sendable() && t.state == Established && |polls| == |chunks|
    requires forall k | 0 <= k < |chunks| :: |chunks[k]| < 0x1_0000
    modifies t
    ensures n <= |chunks| && old(t.sent) <= t.sent && (n < |chunks| ==> t.state != Established)
    ensures forall k | 0 <= k < n :: Confirmed(old(t.Vars()).Pair(), chunks, polls, old(t.sequenceNumber), old(t.lastAck), k)
    ensures !t.finished ==> Placed(t.sent[|old(t.sent)|..], offs, Concat(chunks), old(t.sequenceNumber))
    ensures !t.finished && n == |chunks| ==> t.sequenceNumber == Add32(old(t.sequenceNumber), |Concat(chunks)|)
    ensures |t.sent| - |old(t.sent)| <= n + MAX_PACKETS_SENT - 1 - old(t.packetSentCount)
  {
    hide Run, Arrivals, AckSeen, Placed, SentAt, Add32, Confirmed, FinAccepted, Concat, Ticks, Patience, SendSide, Reaches;
    n, offs := 0, [];
    ghost var base, pair := t.sequenceNumber, t.Vars().Pair();
    ConcatNothing(chunks, base);
    NothingPlaced(t.sent, Concat(chunks), base);
    while n < |chunks|
      invariant n <= |chunks| && t.Sendable() && old(t.sent) <= t.sent && t.Vars().Pair() == pair
      invariant t.state == Established ==> !t.finished
      invariant !t.finished ==> t.sequenceNumber == Add32(base, |Concat(chunks[..n])|)
      invariant !t.finished ==> t.lastAck == if n == 0 then old(t.lastAck) else t.sequenceNumber
      invariant forall k | 0 <= k < n :: Confirmed(pair, chunks, polls, base, old(t.lastAck), k)
      invariant !t.finished ==> Placed(t.sent[|old(t.sent)|..], offs, Concat(chunks), base)
      invariant |t.sent| - |old(t.sent)| <= n + t.packetSentCount as int - old(t.packetSentCount)
    {
      ghost var before, c := t.sent, t.Vars();
      var ok, used;
      ghost var times;
      var live := t.state == Established;
      ok, used, times := t.Send(chunks[n], polls[n]);
      if !live { return; }
      ConcatNext(chunks, n);
      AddAdd(base, |Concat(chunks[..n])|, |chunks[n]|);
      ghost var d := c.(expectedAck := Add32(c.expectedAck, |chunks[n]|));
      SentLength(t.sent, |before|, chunks[n], d, polls[n], times);
      if !t.finished {
        PacketsOnStream(t.sent, |before|, d, polls[n], used, times, chunks, n, base);
        offs := PlacedMore(old(t.sent), before, t.sent, offs, |Concat(chunks[..n])|, Concat(chunks), base);
      }
      if !ok { return; }
      ConfirmedBy(pair, chunks, polls, base, old(t.lastAck), n, used, c.lastAck, t.lastAck);
      n := n + 1;
    }
    assert chunks[..n] == chunks;
  }

  lemma ConcatNothing(chunks: seq<seq<byte>>, base: quad)
    ensures Concat(chunks[..0]) == [] && Add32(base, 0) == base
  {
  }

  lemma NothingPlaced(sent: seq<Packet>, stream: seq<byte>, base: quad)
    ensures Placed(sent[|sent|..], [], stream, base)
  {
  }

  /** Without an accepted FIN, all packets of the n-th call carry its bytes at its place of the stream. */
  lemma PacketsOnStream(ps: seq<Packet>, from: nat, c: Conn, polls: seq<Poll>, used: nat, times: seq<nat>,
                        chunks: seq<seq<byte>>, n: nat, base: quad)
    requires n < |chunks| && Live(c) && SentAt(ps, from, chunks[n], c, polls, times)
    requires c.sequenceNumber == Add32(base, |Concat(chunks[..n])|)
    requires used <= |polls| && (times != [] ==> times[|times| - 1] <= used) && !FinAccepted(c, polls[..used])
    ensures forall k | from <= k < |ps| :: SegmentAt(ps[k], Concat(chunks), base, |Concat(chunks[..n])|)
  {
    hide FinAccepted, SegmentAt, Concat, Add32;
    forall k | from <= k < |ps| ensures SegmentAt(ps[k], Concat(chunks), base, |Concat(chunks[..n])|) {
      var j := k - from;
      Ascending(times, j, |times| - 1);
      if FinAccepted(c, polls[..times[j]]) {
        FinStays(c, polls, times[j], used);
      }
      assert SentBehind(ps[from + j], chunks[n], c, polls[..times[j]]);
      ChunkOnStream(chunks, n, base, ps[k]);
    }
  }

  // ----- The receiving peer -----

  /** The bytes that an in-order receiver has put together when the packets ps[j] for these j have reached it, in
      this order (section 3.3 of RFC 793). */
  function Assembled(base: quad, ps: seq<Packet>, js: seq<nat>): seq<byte> {
    if js == [] then []
    else
      var got, j := Assembled(base, ps, js[..|js| - 1]), js[|js| - 1];
      if j < |ps| && ps[j].Packet? && ps[j].seqNo == Add32(base, |got|) then got + ps[j].data else got
  }

  /** These are packets that were sent, none of them kept back while the stream moves on by 2^32 bytes. */
  ghost predicate InTime(base: quad, ps: seq<Packet>, offs: seq<nat>, js: seq<nat>) {
    js == []
    || (var early, j := js[..|js| - 1], js[|js| - 1];
        && InTime(base, ps, offs, early) && j < |ps| && j < |offs|
        && -0x1_0000_0000 < offs[j] - |Assembled(base, ps, early)| < 0x1_0000_0000)
  }

  /** Whatever is lost, repeated or reordered, the receiver has a prefix of the stream. */
  lemma {:induction false} AssembledPrefix(base: quad, ps: seq<Packet>, offs: seq<nat>, js: seq<nat>, stream: seq<byte>)
    requires Placed(ps, offs, stream, base) && InTime(base, ps, offs, js)
    ensures Assembled(base, ps, js) <= stream
  {
    if js != [] {
      var early, j := js[..|js| - 1], js[|js| - 1];
      AssembledPrefix(base, ps, offs, early, stream);
      PrefixGrows(Assembled(base, ps, early), ps[j], stream, base, offs[j]);
    }
  }

  lemma PrefixGrows(got: seq<byte>, p: Packet, stream: seq<byte>, base: quad, off: nat)
    requires got <= stream && SegmentAt(p, stream, base, off) && -0x1_0000_0000 < off - |got| < 0x1_0000_0000
    ensures p.seqNo == Add32(base, |got|) ==> got + p.data <= stream
  {
    hide Add32;
    if p.seqNo == Add32(base, |got|) {
      SameCount(base, off, |got|);
      assert got + p.data == stream[..off + |p.data|];
    }
  }

  /** A peer that acknowledges exactly what it has received: when it sent the segment that arrives in this poll, the
      packets with the numbers `js` had reached it. The acknowledgement is not kept back for 2^32 bytes, where
      `sofar` is the end of the data of the call that is polling. */
  ghost predicate Honest(pair: SocketPair, poll: Poll, base: quad, ps: seq<Packet>, offs: seq<nat>, js: seq<nat>, sofar: nat) {
    poll.Inbound? && poll.seg.Pair() == pair && Has(poll.seg.flags, ACK) ==>
      && InTime(base, ps, offs, js)
      && poll.seg.ackNo == Add32(base, |Assembled(base, ps, js)|)
      && -0x1_0000_0000 < |Assembled(base, ps, js)| - sofar < 0x1_0000_0000
  }

  ghost predicate HonestCall(pair: SocketPair, polls: seq<Poll>, base: quad, ps: seq<Packet>, offs: seq<nat>,
                             arrived: seq<seq<nat>>, sofar: nat) {
    && |arrived| == |polls|
    && forall k | 0 <= k < |polls| :: Honest(pair, polls[k], base, ps, offs, arrived[k], sofar)
  }

  ghost predicate HonestPeer(pair: SocketPair, polls: seq<seq<Poll>>, chunks: seq<seq<byte>>, base: quad, ps: seq<Packet>,
                             offs: seq<nat>, arrived: seq<seq<seq<nat>>>) {
    && |arrived| == |polls| == |chunks|
    && forall m | 0 <= m < |polls| ::
         HonestCall(pair, polls[m], base, ps, offs, arrived[m], |Concat(chunks[..m + 1])|)
  }

  /** At some poll of a call, the peer had these bytes. */
  ghost predicate PeerHas(base: quad, ps: seq<Packet>, arrived: seq<seq<nat>>, bytes: seq<byte>) {
    exists k | 0 <= k < |arrived| :: Assembled(base, ps, arrived[k]) == bytes
  }

  /** An acknowledgement of the stream up to the end of a call means that the peer has received all of that. */
  lemma AckMeansReceived(pair: SocketPair, polls: seq<Poll>, base: quad, ps: seq<Packet>, offs: seq<nat>,
                         arrived: seq<seq<nat>>, stream: seq<byte>, sofar: nat)
    requires Placed(ps, offs, stream, base) && sofar <= |stream|
    requires HonestCall(pair, polls, base, ps, offs, arrived, sofar) && AckSeen(pair, polls, Add32(base, sofar))
    ensures PeerHas(base, ps, arrived, stream[..sofar])
  {
    hide Add32, Assembled, InTime, Placed;
    var k :| 0 <= k < |polls| && Acknowledges(pair, polls[k], Add32(base, sofar));
    assert Honest(pair, polls[k], base, ps, offs, arrived[k], sofar);
    AssembledPrefix(base, ps, offs, arrived[k], stream);
    var got := Assembled(base, ps, arrived[k]);
    SameCount(base, |got|, sofar);
    assert got == stream[..sofar];
  }

  /** Any sequence of sends to such a peer, `arrived` being what had reached it, out of the packets sent, at each
      poll of each call. As long as it has not closed, every successful call with data means that the peer has
      received all data up to the end of this call; of the first call, if its acknowledgement was not on record
      before. (Of streams shorter than 2^32 bytes, nothing can be kept back for too long.) */
  method SendToPeer(t: Connection, chunks: seq<seq<byte>>, polls: seq<seq<Poll>>, ghost arrived: seq<seq<seq<nat>>>)
    returns (n: nat, ghost offs: seq<nat>)
    requires t.Sendable() && t.state == Established && |polls| == |chunks|
    requires forall k | 0 <= k < |chunks| :: |chunks[k]| < 0x1_0000
    modifies t
    ensures n <= |chunks| && old(t.sent) <= t.sent
    ensures !t.finished ==> Placed(t.sent[|old(t.sent)|..], offs, Concat(chunks), old(t.sequenceNumber))
    ensures !t.finished
            && HonestPeer(old(t.Vars()).Pair(), polls, chunks, old(t.sequenceNumber), t.sent[|old(t.sent)|..], offs, arrived) ==>
              forall m | 0 <= m < n && chunks[m] != [] && (m > 0 || old(t.lastAck) != Add32(old(t.sequenceNumber), |chunks[0]|)) ::
                PeerHas(old(t.sequenceNumber), t.sent[|old(t.sent)|..], arrived[m], Concat(chunks[..m + 1]))
  {
    hide Add32, Assembled, AckSeen, HonestCall, Placed, Confirmed, PeerHas;
    ghost var pair, base, record := t.Vars().Pair(), t.sequenceNumber, t.lastAck;
    n, offs := SendAll(t, chunks, polls);
    ghost var ps := t.sent[|old(t.sent)|..];
    if !t.finished && HonestPeer(pair, polls, chunks, base, ps, offs, arrived) {
      forall m | 0 <= m < n && chunks[m] != [] && (m > 0 || record != Add32(base, |chunks[0]|))
        ensures PeerHas(base, ps, arrived[m], Concat(chunks[..m + 1]))
      {
        CallReceived(pair, chunks, polls, base, record, m, ps, offs, arrived);
      }
    }
  }

  lemma CallReceived(pair: SocketPair, chunks: seq<seq<byte>>, polls: seq<seq<Poll>>, base: quad, record: quad, m: nat,
                     ps: seq<Packet>, offs: seq<nat>, arrived: seq<seq<seq<nat>>>)
    requires m < |chunks| == |polls| && Confirmed(pair, chunks, polls, base, record, m)
    requires chunks[m] != [] && (m > 0 || record != Add32(base, |chunks[0]|))
    requires Placed(ps, offs, Concat(chunks), base) && HonestPeer(pair, polls, chunks, base, ps, offs, arrived)
    ensures PeerHas(base, ps, arrived[m], Concat(chunks[..m + 1]))
  {
    hide Add32, AckSeen, HonestCall, Placed, PeerHas;
    if m == 0 {
      ConcatNext(chunks, 0);
      ConcatNothing(chunks, base);
    }
    var sofar := |Concat(chunks[..m + 1])|;
    ConcatPrefix(chunks, m + 1);
    AckMeansReceived(pair, polls[m], base, ps, offs, arrived[m], Concat(chunks), sofar);
    assert Concat(chunks)[..sofar] == Concat(chunks[..m + 1]);
  }
}
