/** tftp_download of tftp.s: the variables as fields, the packet handler and the polling loop. */
module TftpClient {
  import opened Bytes
  import opened Tftp

  /** One turn of the inner loop: a packet for the client's port may have come in, and the masked timer
      may have changed. */
  datatype Poll = Quiet(tick: bool) | Heard(m: Message, tick: bool)

  /** What the polls make known to the client. The timer is not looked at when a block was taken. */
  function SignsOf(polls: seq<Poll>): seq<Sign> {
    if polls == [] then []
    else
      var earlier, last := SignsOf(polls[..|polls| - 1]), polls[|polls| - 1];
      match last
      case Quiet(tick) => if tick then earlier + [Timeout] else earlier
      case Heard(m, tick) =>
        if tick && !IsNext(|Taken(earlier)|, m) then earlier + [Got(m)] + [Timeout] else earlier + [Got(m)]
  }

  lemma SignsNext(polls: seq<Poll>, i: nat)
    requires i < |polls|
    ensures var earlier := SignsOf(polls[..i]);
            SignsOf(polls[..i + 1])
            == match polls[i]
               case Quiet(tick) => if tick then earlier + [Timeout] else earlier
               case Heard(m, tick) =>
                 if tick && !IsNext(|Taken(earlier)|, m) then earlier + [Got(m)] + [Timeout] else earlier + [Got(m)]
  {
    assert polls[..i + 1][..i] == polls[..i];
  }

  /** A block is taken from poll number i. */
  predicate TakenFrom(polls: seq<Poll>, i: nat)
    requires i < |polls|
  {
    polls[i].Heard? && IsNext(|Taken(SignsOf(polls[..i]))|, polls[i].m)
  }

  /** The inner loop ends with poll number i. */
  predicate RoundOver(polls: seq<Poll>, i: nat)
    requires i < |polls|
  {
    polls[i].tick || TakenFrom(polls, i)
  }

  /** The block taken from the last of the first k polls is the short one. */
  predicate FileOver(polls: seq<Poll>, k: nat)
    requires 0 < k <= |polls|
  {
    TakenFrom(polls, k - 1) && |polls[k - 1].m.data| != BLOCK
  }

  /** The final acknowledgement could not be sent once. */
  ghost predicate AckLost(es: seq<Event>) {
    exists k | 0 <= k < |es| :: es[k] == SendAck(false) && EndsShort(Taken(Signs(es[..k])))
  }

  /** What the polling loop does: it starts a round behind each move of the timer, and each round begins with a
      request as long as nothing is taken, and with an acknowledgement from then on. */
  ghost predicate Due(es: seq<Event>, e: Event) {
    && !Done(es)
    && (es == [] || es[|es| - 1] == Tick ==> e == NewRound)
    && (es != [] && es[|es| - 1] == NewRound ==>
          && !Refused(Signs(es)) && (e.SendRequest? || e.SendAck?)
          && (Taken(Signs(es)) == [] ==> e.SendRequest?)
          && (Taken(Signs(es)) != [] && !AckLost(es) ==> e.SendAck?))
  }

  /** A round has begun with an acknowledgement that was sent, of the short block. */
  ghost predicate Done(es: seq<Event>) {
    && |es| >= 2 && es[|es| - 2] == NewRound && es[|es| - 1] == SendAck(true)
    && EndsShort(Taken(Signs(es))) && !Refused(Signs(es))
  }

  ghost predicate Prompt(es: seq<Event>) {
    forall k | 0 <= k < |es| :: Due(es[..k], es[k])
  }

  lemma PromptNext(es: seq<Event>, e: Event)
    requires Prompt(es) && Due(es, e)
    ensures Prompt(es + [e])
  {
    hide Due;
    forall k | 0 <= k < |es + [e]| ensures Due((es + [e])[..k], (es + [e])[k]) {
      if k < |es| {
        assert (es + [e])[..k] == es[..k];
      } else {
        assert (es + [e])[..k] == es;
      }
    }
  }

  lemma StillLost(es: seq<Event>, e: Event)
    ensures AckLost(es) || (e == SendAck(false) && EndsShort(Taken(Signs(es)))) ==> AckLost(es + [e])
  {
    hide Signs, Taken, EndsShort;
    var more := es + [e];
    if AckLost(es) {
      var k :| 0 <= k < |es| && es[k] == SendAck(false) && EndsShort(Taken(Signs(es[..k])));
      assert more[k] == SendAck(false) && more[..k] == es[..k];
    } else if e == SendAck(false) {
      assert more[|es|] == e && more[..|es|] == es;
    }
  }

  lemma NotDone(es: seq<Event>)
    requires es == [] || es[|es| - 1] != SendAck(true)
    ensures !Done(es)
  {
  }

  lemma EndOfFile(polls: seq<Poll>, k: nat)
    requires k <= |polls|
    ensures 0 < k && FileOver(polls, k) ==>
              var signs := SignsOf(polls[..k]);
              EndsShort(Taken(signs)) && !Refused(signs) && Waits(signs) == 0 && RoundOver(polls, k - 1)
  {
    hide Taken, Waits, Refused, SignsOf, IsNext;
    if 0 < k && FileOver(polls, k) {
      SignsNext(polls, k - 1);
      AfterSign(SignsOf(polls[..k - 1]), Got(polls[k - 1].m));
      NextIsData(|Taken(SignsOf(polls[..k - 1]))|, polls[k - 1].m);
    }
  }

  lemma NextIsData(n: nat, m: Message)
    ensures IsNext(n, m) ==> m.Data?
  {
  }

  /** Nothing is counted in a round before its last poll. */
  lemma {:induction false} RoundBounds(polls: seq<Poll>, start: nat, i: nat)
    requires start <= i <= |polls| && forall j | start <= j < i - 1 :: !RoundOver(polls, j)
    ensures forall k | start <= k < i :: Waits(SignsOf(polls[..k])) == Waits(SignsOf(polls[..start]))
    ensures forall k | start < k < i :: !FileOver(polls, k)
    decreases i
  {
    hide Taken, Waits, SignsOf, IsNext;
    if start + 1 < i {
      RoundBounds(polls, start, i - 1);
      SignsNext(polls, i - 2);
      assert !RoundOver(polls, i - 2);
      if polls[i - 2].Heard? {
        AfterSign(SignsOf(polls[..i - 2]), Got(polls[i - 2].m));
      }
    }
  }

  // ----- A network that serves the file -----

  /** The blocks of the file come in, the short one in the last of the first k polls: whatever is lost, repeated or late, no
      rejection comes in and the timer moves less than ten times between two blocks. */
  ghost predicate Served(file: seq<byte>, polls: seq<Poll>, k: nat) {
    && 0 < k <= |polls| && FileOver(polls, k) && FirstBlocks(file, Taken(SignsOf(polls[..k])))
    && (forall j | 0 <= j < k && polls[j].Heard? :: !polls[j].m.Rejection?)
    && (forall j | 0 <= j < k :: Waits(SignsOf(polls[..j])) < MAX_RESENDS)
  }

  lemma {:induction false} TakenGrows(polls: seq<Poll>, j: nat, k: nat)
    requires j <= k <= |polls|
    ensures Taken(SignsOf(polls[..j])) <= Taken(SignsOf(polls[..k]))
  {
    hide Taken, SignsOf, IsNext, Waits, Refused;
    if j < k {
      TakenGrows(polls, j, k - 1);
      SignsStep(polls, k - 1);
    }
  }

  lemma SignsStep(polls: seq<Poll>, i: nat)
    requires i < |polls|
    ensures var before, after := SignsOf(polls[..i]), SignsOf(polls[..i + 1]);
            && Taken(after) == (if TakenFrom(polls, i) then Taken(before) + [polls[i].m.data] else Taken(before))
            && (!(polls[i].Heard? && polls[i].m.Rejection?) && !Refused(before) ==> !Refused(after))
  {
    hide Taken, SignsOf, IsNext, Waits, Refused;
    var before := SignsOf(polls[..i]);
    SignsNext(polls, i);
    AfterSign(before, Timeout);
    if polls[i].Heard? {
      AfterSign(before, Got(polls[i].m));
      AfterSign(before + [Got(polls[i].m)], Timeout);
      NextIsData(|Taken(before)|, polls[i].m);
    }
  }

  lemma {:induction false} NotRefused(polls: seq<Poll>, k: nat)
    requires k <= |polls| && forall j | 0 <= j < k && polls[j].Heard? :: !polls[j].m.Rejection?
    ensures !Refused(SignsOf(polls[..k]))
  {
    if k > 0 {
      NotRefused(polls, k - 1);
      SignsStep(polls, k - 1);
    }
  }

  /** Before the short block has come in, there is neither a reason to fail nor to succeed. */
  lemma NotYetServed(file: seq<byte>, polls: seq<Poll>, k: nat, used: nat)
    requires Served(file, polls, k) && used < k
    ensures var signs := SignsOf(polls[..used]);
            !EndsShort(Taken(signs)) && !Refused(signs) && Waits(signs) < MAX_RESENDS && used < |polls|
  {
    hide Taken, SignsOf, IsNext, Waits, Refused, Block;
    NotRefused(polls, used);
    TakenGrows(polls, used, k - 1);
    SignsStep(polls, k - 1);
    var some, all := Taken(SignsOf(polls[..used])), Taken(SignsOf(polls[..k]));
    if some != [] {
      var n := |some|;
      assert some[n - 1] == all[n - 1] == Block(file, n) && n < |all| <= LastBlock(file);
    }
  }

  lemma ServedWhole(file: seq<byte>, polls: seq<Poll>, k: nat)
    requires Served(file, polls, k)
    ensures Joined(Taken(SignsOf(polls[..k]))) == file
  {
    hide Taken, SignsOf, IsNext, Waits, Refused, Block;
    var all := Taken(SignsOf(polls[..k]));
    SignsStep(polls, k - 1);
    NextIsData(|Taken(SignsOf(polls[..k - 1]))|, polls[k - 1].m);
    assert all[|all| - 1] == Block(file, |all|) == polls[k - 1].m.data;
    FirstBlocksJoined(file, all);
  }

  /** An example: the first request, or its answer, is lost. */
  lemma FirstLost(x: byte)
    ensures Served([x], [Quiet(true), Heard(Data(1, [x]), false), Quiet(false)], 2)
  {
    var polls := [Quiet(true), Heard(Data(1, [x]), false), Quiet(false)];
    assert polls[..1][..0] == polls[..0] == [] && polls[..1] == [Quiet(true)];
    assert polls[..2][..1] == polls[..1] && polls[..2] == [Quiet(true), Heard(Data(1, [x]), false)];
    assert SignsOf(polls[..0]) == [] && SignsOf(polls[..1]) == [Timeout];
    AfterSign([], Timeout);
    AfterSign([Timeout], Got(Data(1, [x])));
    assert Taken(SignsOf(polls[..2])) == [[x]];
  }

  class Transfer {
    var state: State
    var block: word
    var resends: byte
    var breakLoop: bool
    var fileSize: word
    var delivered: seq<seq<byte>>
    var sent: seq<Out>

    // what has happened to this transfer
    ghost var history: seq<Event>

    ghost function Vars(): Client
      reads this`state, this`block, this`resends, this`breakLoop, this`fileSize, this`delivered, this`sent
    {
      Client(state, block, resends, breakLoop, fileSize, delivered, sent)
    }

    /** The variables are what the history makes of a fresh transfer. */
    ghost predicate Recorded()
      reads this
    {
      Vars() == ApplyAll(START, history) && Prompt(history)
    }

    /** What the state says about what was heard. */
    ghost predicate Phase()
      reads this
    {
      var signs := Signs(history);
      match state
      case Error => Refused(signs)
      case Complete => !Refused(signs) && EndsShort(Taken(signs))
      case InProgress => !Refused(signs) && Taken(signs) != [] && !EndsShort(Taken(signs))
      case _ => !Refused(signs) && (Taken(signs) == [] || AckLost(history))
    }

    ghost predicate Valid()
      reads this
    {
      Recorded() && Phase()
    }

    /** In a round: behind its first packet. */
    ghost predicate InRound()
      reads this`history
    {
      history != [] && history[|history| - 1] !in {Tick, NewRound} && !Done(history)
    }

    ghost method Record(e: Event, before: Client)
      requires before == ApplyAll(START, history) && Vars() == Apply(before, e) && Prompt(history) && Due(history, e)
      modifies this`history
      ensures Recorded() && history == old(history) + [e]
      ensures Signs(history)
           == if e.Inbound? then old(Signs(history)) + [Got(e.m)] else if e.Tick? then old(Signs(history)) + [Timeout]
              else old(Signs(history))
      ensures old(AckLost(history)) || (e == SendAck(false) && old(EndsShort(Taken(Signs(history))))) ==> AckLost(history)
    {
      hide Due, ApplyAll, Signs, Taken;
      NextSign(history, e);
      PromptNext(history, e);
      StillLost(history, e);
      history := history + [e];
    }

    // ----- Sending -----

    /** send_request_packet: the state is the initial one unless the request goes out. */
    method SendRequestPacket()
      requires Recorded() && !Refused(Signs(history)) && (Taken(Signs(history)) == [] || AckLost(history))
      requires history != [] && history[|history| - 1] !in {Tick} && !Done(history)
      modifies this
      ensures Valid() && InRound() && Signs(history) == old(Signs(history)) && old(history) <= history
      ensures breakLoop == old(breakLoop) && (old(AckLost(history)) ==> AckLost(history))
    {
      hide Signs, Taken, Refused, ApplyAll, Prompt, AckLost;
      ghost var before := Vars();
      state := Initializing;
      var ok: bool := *;
      if ok {
        sent := sent + [Request];
        state := RequestSent;
      }
      Record(SendRequest(ok), before);
    }

    /** send_ack and send_tftp_packet: while downloading, the packet is always an acknowledgement. */
    method SendAckPacket() returns (ok: bool)
      requires Valid() && state in {InProgress, Complete}
      requires history != [] && history[|history| - 1] !in {Tick} && !Done(history)
      modifies this
      ensures Valid() && Signs(history) == old(Signs(history)) && history == old(history) + [SendAck(ok)]
      ensures state == old(state) && block == old(block) && breakLoop == old(breakLoop)
      ensures sent == if ok then old(sent) + [Ack(block)] else old(sent)
      ensures old(AckLost(history)) || (!ok && old(EndsShort(Taken(Signs(history))))) ==> AckLost(history)
    {
      hide Signs, Taken, Refused, ApplyAll, Prompt, AckLost;
      ghost var before := Vars();
      ok := *;
      if ok {
        sent := sent + [Ack(block)];
      }
      Record(SendAck(ok), before);
    }

    // ----- tftp_in -----

    method GotExpectedBlock()
      modifies this`block, this`state, this`resends, this`breakLoop
      ensures block == (old(block) + 1) % 0x1_0000 && state == InProgress && resends == MAX_RESENDS && breakLoop
    {
      var low, high := (Lo(block) as int + 1) % 0x100, Hi(block) as int;
      if low == 0 {
        high := (high + 1) % 0x100;
      }
      IncrementBytes(block);
      block := Word(low, high);
      state := InProgress;
      resends := MAX_RESENDS;
      breakLoop := true;
    }

    /** The tail of tftp_in: the size counter, and the end of the transfer for a short block. */
    method CountBlock(data: seq<byte>)
      modifies this`fileSize, this`state
      ensures fileSize == SizeAfter(old(fileSize), data)
      ensures state == if |data| == BLOCK then old(state) else Complete
    {
      if |data| == BLOCK {
        fileSize := Word(Lo(fileSize), (Hi(fileSize) + 2) % 0x100);
        AddTwoPages(old(fileSize));
      } else {
        var high := if |data| / 0x100 % 0x100 == 0 then Hi(fileSize) else (Hi(fileSize) + 1) % 0x100;
        fileSize := Word(|data| % 0x100, high);
        state := Complete;
      }
    }

    /** The part of tftp_in behind the expected block. */
    method TakeBlock(number: word, data: seq<byte>) returns (ok: bool)
      requires Expected(Vars(), number)
      modifies this`block, this`state, this`resends, this`breakLoop, this`delivered, this`sent, this`fileSize
      ensures Vars() == Handle(old(Vars()), Data(number, data), ok)
      ensures breakLoop && state == if |data| == BLOCK then InProgress else Complete
    {
      hide Expected, SizeAfter;
      GotExpectedBlock();
      delivered := delivered + [data];
      ok := *;
      if ok {
        sent := sent + [Ack(block)];
      }
      CountBlock(data);
    }

    /** tftp_in, with a callback set. */
    method In(m: Message)
      requires Valid() && InRound()
      modifies this
      ensures Valid() && InRound() && Signs(history) == old(Signs(history)) + [Got(m)] && old(history) <= history
      ensures breakLoop <==> old(breakLoop) || IsNext(|Taken(old(Signs(history)))|, m)
      ensures old(AckLost(history)) ==> AckLost(history)
    {
      hide Signs, Taken, Refused, IsNext, ApplyAll, Prompt, AckLost, SizeAfter, Done;
      ghost var before, signs := Vars(), Signs(history);
      Account(history);
      NextIsData(|Taken(signs)|, m);
      var ok := false;
      match m {
        case Rejection =>
          state := Error;
        case OtherOpcode =>
        case Data(number, data) =>
          ExpectedAfter(before, |Taken(signs)|, m);
          var x := (Lo(number) - 1) % 0x100;
          if x == Lo(block) {
            ok := TakeBlock(number, data);
          }
      }
      AfterSign(signs, Got(m));
      Record(Inbound(m, ok), before);
      NotDone(history);
    }

    // ----- tftp_download -----

    method Begin()
      modifies this
      ensures Valid() && history == [] && state == Initializing
    {
      state, block, resends, breakLoop, fileSize := Initializing, 0, MAX_RESENDS, false, 0;
      delivered, sent, history := [], [], [];
    }

    /** The timer has moved. */
    method CountTick() returns (goOn: bool)
      requires Valid() && InRound() && Waits(Signs(history)) < MAX_RESENDS
      modifies this
      ensures Valid() && history == old(history) + [Tick] && Signs(history) == old(Signs(history)) + [Timeout]
      ensures goOn <==> Waits(Signs(history)) < MAX_RESENDS
      ensures Waits(Signs(history)) <= MAX_RESENDS && (old(AckLost(history)) ==> AckLost(history))
    {
      hide Signs, Taken, Refused, Waits, ApplyAll, Prompt, AckLost;
      ghost var before := Vars();
      Account(history);
      AfterSign(Signs(history), Timeout);
      resends := (resends - 1) % 0x100;
      Record(Tick, before);
      goOn := resends != 0;
    }

    /** The inner loop: it ends with the first poll in which a block was taken or the timer moved. `goOn` is false
        behind the tenth move of the timer since a block was taken, and otherwise if the polls are over, which is the
        abort key. */
    method InnerLoop(polls: seq<Poll>, start: nat) returns (goOn: bool, i: nat)
      requires Valid() && InRound() && !breakLoop && start <= |polls|
      requires Signs(history) == SignsOf(polls[..start]) && Waits(Signs(history)) < MAX_RESENDS
      modifies this
      ensures Valid() && start <= i <= |polls| && Signs(history) == SignsOf(polls[..i]) && old(history) <= history
      ensures forall j | start <= j < i - 1 :: !RoundOver(polls, j)
      ensures if start < i && RoundOver(polls, i - 1) then goOn <==> Waits(Signs(history)) < MAX_RESENDS
              else !goOn && i == |polls| && InRound()
      ensures Waits(Signs(history)) <= MAX_RESENDS && (Waits(Signs(history)) == MAX_RESENDS ==> history[|history| - 1] == Tick)
      ensures !Done(history) && (history[|history| - 1] in {Tick, NewRound} ==> history[|history| - 1] == Tick)
      ensures old(AckLost(history)) ==> AckLost(history)
    {
      hide Signs, Taken, Refused, Waits, IsNext, ApplyAll, Prompt, AckLost, SignsOf, Phase;
      i := start;
      while i < |polls|
        invariant Valid() && InRound() && !breakLoop && start <= i <= |polls| && old(history) <= history
        invariant Signs(history) == SignsOf(polls[..i]) && Waits(Signs(history)) < MAX_RESENDS
        invariant forall j | start <= j < i :: !RoundOver(polls, j)
        invariant old(AckLost(history)) ==> AckLost(history)
      {
        var poll := polls[i];
        SignsNext(polls, i);
        if poll.Heard? {
          AfterSign(Signs(history), Got(poll.m));
          In(poll.m);
        }
        i := i + 1;
        if breakLoop { return true, i; }
        if poll.tick {
          goOn := CountTick();
          return;
        }
      }
      goOn := false;
    }

    /** The start of a round, up to the inner loop: `done` if the transfer ends here, with the final acknowledgement
        sent or behind a rejection. */
    method BeginRound() returns (done: bool, ok: bool)
      requires Valid() && !Done(history) && (history != [] ==> history[|history| - 1] != NewRound)
      requires history == [] ==> state == Initializing
      modifies this
      ensures Valid() && Signs(history) == old(Signs(history)) && !breakLoop && old(history) + [NewRound] <= history
      ensures ok ==> done && state == Complete && sent != [] && sent[|sent| - 1] == Ack(block)
      ensures done && !ok ==> history[|history| - 1] == NewRound && Refused(Signs(history))
      ensures done && ok <==> Done(history)
      ensures !done ==> InRound()
      ensures old(AckLost(history)) || (!done && EndsShort(Taken(Signs(history)))) ==> AckLost(history)
    {
      hide Signs, Taken, Refused, Waits, ApplyAll, Prompt, AckLost;
      ghost var before := Vars();
      done, ok, breakLoop := false, false, false;
      Record(NewRound, before);
      NotDone(history);
      if state == Initializing {
        SendRequestPacket();
        return;
      }
      if state == Error { return true, false; }
      var accumulator3 := state == InProgress;
      if state == Complete {
        ok := SendAckPacket();
        if ok { return true, true; }
        // the accumulator, which held the state, is lost in the failed send
        accumulator3 := *;
      }
      if accumulator3 {
        var acked := SendAckPacket();
      } else {
        SendRequestPacket();
      }
    }

    /** The rounds of tftp_download, one of them for each turn of the outer loop. */
    method Rounds(polls: seq<Poll>) returns (ok: bool, used: nat)
      requires Valid() && history == [] && state == Initializing
      modifies this
      ensures Valid() && used <= |polls| && Signs(history) == SignsOf(polls[..used])
      ensures ok <==> Done(history)
      ensures ok ==> state == Complete && sent != [] && sent[|sent| - 1] == Ack(block)
      ensures !ok ==> || used == |polls|
                      || (Waits(Signs(history)) == MAX_RESENDS && history[|history| - 1] == Tick)
                      || (Refused(Signs(history)) && history[|history| - 1] == NewRound)
      ensures forall k | 0 <= k < used :: Waits(SignsOf(polls[..k])) < MAX_RESENDS
      ensures forall k | 0 < k <= used && FileOver(polls, k) :: AckLost(history) || (k == used && ok)
    {
      hide Signs, Taken, Refused, Waits, IsNext, ApplyAll, Prompt, AckLost, SignsOf, Phase, Done, FileOver, RoundOver;
      used := 0;
      NothingHeard(polls);
      NotDone(history);
      while true
        invariant Valid() && used <= |polls| && Signs(history) == SignsOf(polls[..used]) && !Done(history)
        invariant history != [] ==> history[|history| - 1] != NewRound
        invariant history == [] ==> state == Initializing
        invariant forall k | 0 <= k <= used :: Waits(SignsOf(polls[..k])) < MAX_RESENDS
        invariant forall k | 0 < k <= used && FileOver(polls, k) :: AckLost(history) || k == used
        decreases |polls| - used
      {
        var done;
        done, ok := BeginRound();
        EndOfFile(polls, used);
        if done { return; }
        var goOn;
        ghost var start := used;
        goOn, used := InnerLoop(polls, used);
        RoundBounds(polls, start, used);
        EndOfFile(polls, used);
        if !goOn { return false, used; }
      }
    }

    /** tftp_download. It succeeds if and only if a round begins with the acknowledgement of the short block being sent;
        it fails only behind a rejection, behind the tenth move of the timer since a block was taken, or with
        the abort key. If the network serves a file, then the transfer is over with its last block, unless the final
        acknowledgement could not be sent, and the callback has got exactly the file. */
    method Download(polls: seq<Poll>, ghost file: seq<byte>, ghost k: nat) returns (ok: bool, used: nat)
      modifies this
      ensures Valid() && used <= |polls| && Signs(history) == SignsOf(polls[..used])
      ensures ok <==> Done(history)
      ensures ok ==> state == Complete && sent != [] && sent[|sent| - 1] == Ack(block)
      ensures !ok ==> || used == |polls|
                      || (Waits(Signs(history)) == MAX_RESENDS && history[|history| - 1] == Tick)
                      || (Refused(Signs(history)) && history[|history| - 1] == NewRound)
      ensures forall j | 0 <= j < used :: Waits(SignsOf(polls[..j])) < MAX_RESENDS
      ensures Served(file, polls, k) && !AckLost(history) ==> ok && used == k && Joined(delivered) == file
    {
      hide Signs, Taken, Refused, Waits, IsNext, ApplyAll, Prompt, AckLost, SignsOf, Phase, FileOver, EndsShort;
      Begin();
      ok, used := Rounds(polls);
      if Served(file, polls, k) && !AckLost(history) {
        Account(history);
        ServedWhole(file, polls, k);
        if used < k { NotYetServed(file, polls, k, used); }
      }
    }
  }

  lemma IncrementBytes(n: word)
    ensures var low := (Lo(n) as int + 1) % 0x100;
            Word(low, if low == 0 then (Hi(n) as int + 1) % 0x100 else Hi(n)) == (n + 1) % 0x1_0000
  {
  }

  lemma AddTwoPages(size: word)
    ensures Word(Lo(size), (Hi(size) + 2) % 0x100) == (size + BLOCK) % 0x1_0000
  {
  }

  lemma NothingHeard(polls: seq<Poll>)
    ensures Signs([]) == SignsOf(polls[..0]) == [] && Waits([]) == 0
  {
  }
}
