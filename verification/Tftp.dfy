/** tftp.s, downloading with a callback: the packet handler, the polling loop, and the lock-step
    protocol with any number of server transfers over a network that loses, repeats and delays. */
module Tftp {
  import opened Bytes

  const BLOCK: nat := 0x200
  const MAX_RESENDS: byte := 10

  datatype State = Initializing | RequestSent | InProgress | Complete | Error

  datatype Message = Data(block: word, data: seq<byte>) | Rejection | OtherOpcode

  datatype Out = Request | Ack(block: word)

  /** tftp_state and its neighbours, the blocks given to the callback, and the packets sent. */
  datatype Client = Client(state: State, block: word, resends: byte, breakLoop: bool, fileSize: word,
                           delivered: seq<seq<byte>>, sent: seq<Out>)

  const START := Client(Initializing, 0, MAX_RESENDS, false, 0, [], [])

  /** What happens to a client: a packet comes in, or the polling loop sends, counts or starts a round.
      A send may fail, for example while an address is looked up. */
  datatype Event = Inbound(m: Message, sent: bool) | SendRequest(ok: bool) | SendAck(ok: bool) | Tick | NewRound

  /** Only the low byte of the block number is compared. */
  predicate Expected(c: Client, block: word) {
    (Lo(block) - 1) % 0x100 == Lo(c.block)
  }

  function SizeAfter(size: word, data: seq<byte>): word {
    if |data| == BLOCK then (size + BLOCK) % 0x1_0000
    else Word(|data| % 0x100, (Hi(size) + if |data| / 0x100 % 0x100 == 0 then 0 else 1) % 0x100)
  }

  function Handle(c: Client, m: Message, sent: bool): Client {
    match m
    case Rejection => c.(state := Error)
    case OtherOpcode => c
    case Data(block, data) =>
      if !Expected(c, block) then c
      else
        var next := (c.block + 1) % 0x1_0000;
        c.(block := next, resends := MAX_RESENDS, breakLoop := true, delivered := c.delivered + [data],
           sent := if sent then c.sent + [Ack(next)] else c.sent,
           fileSize := SizeAfter(c.fileSize, data),
           state := if |data| == BLOCK then InProgress else Complete)
  }

  function Apply(c: Client, e: Event): Client {
    match e
    case Inbound(m, sent) => Handle(c, m, sent)
    case SendRequest(ok) =>
      if ok then c.(state := RequestSent, sent := c.sent + [Request]) else c.(state := Initializing)
    case SendAck(ok) => if ok then c.(sent := c.sent + [Ack(c.block)]) else c
    case Tick => c.(resends := (c.resends - 1) % 0x100)
    case NewRound => c.(breakLoop := false)
  }

  function ApplyAll(c: Client, es: seq<Event>): Client {
    if es == [] then c else Apply(ApplyAll(c, es[..|es| - 1]), es[|es| - 1])
  }

  // ----- The file in blocks (section 2 of RFC 1350) -----

  function LastBlock(file: seq<byte>): nat {
    |file| / BLOCK + 1
  }

  function Block(file: seq<byte>, k: nat): (b: seq<byte>)
    requires 1 <= k <= LastBlock(file)
    ensures |b| <= BLOCK && (|b| < BLOCK <==> k == LastBlock(file))
  {
    if k < LastBlock(file) then file[BLOCK * (k - 1)..BLOCK * k] else file[BLOCK * (k - 1)..]
  }

  function Joined(blocks: seq<seq<byte>>): seq<byte> {
    if blocks == [] then [] else Joined(blocks[..|blocks| - 1]) + blocks[|blocks| - 1]
  }

  /** The first n blocks of the file, in order. */
  ghost predicate FirstBlocks(file: seq<byte>, blocks: seq<seq<byte>>) {
    && |blocks| <= LastBlock(file)
    && forall i | 0 <= i < |blocks| :: blocks[i] == Block(file, i + 1)
  }

  lemma {:induction false} FirstBlocksJoined(file: seq<byte>, blocks: seq<seq<byte>>)
    requires FirstBlocks(file, blocks)
    ensures Joined(blocks) == if |blocks| == LastBlock(file) then file else file[..BLOCK * |blocks|]
  {
    if blocks != [] {
      var n := |blocks| - 1;
      FirstBlocksJoined(file, blocks[..n]);
      assert Joined(blocks) == file[..BLOCK * n] + Block(file, n + 1);
    } else {
      assert LastBlock(file) >= 1;
    }
  }

  // ----- The world: one client, server transfers, and every data packet ever put on the network -----

  datatype World = World(client: Client, servers: seq<nat>, posted: set<nat>)

  /** A transfer starts (every copy of the request may start one); transfer i sends its current block, or
      sees acknowledgement number m; or something happens to the client, where k is the block that arrives. */
  datatype Step =
    | Start
    | Post(i: nat)
    | SeeAck(i: nat, m: nat)
    | Arrive(k: nat, sent: bool)
    | Reject
    | Loop(e: Event)

  ghost predicate Allowed(file: seq<byte>, w: World, step: Step) {
    var n := |w.client.delivered|;
    match step
    case Start => true
    case Post(i) => i < |w.servers|
    // an acknowledgement the client has sent, not kept back for 65536 blocks
    case SeeAck(i, m) => i < |w.servers| && m <= n && Ack(m % 0x1_0000) in w.client.sent && -0x1_0000 < w.servers[i] - m < 0x1_0000
    // a packet on the network: the next one, or one that is not a multiple of 256 blocks late
    case Arrive(k, sent) => k in w.posted && (k == n + 1 || (n + 1 - k) % 0x100 != 0)
    case Reject => true
    case Loop(e) => !e.Inbound?
  }

  function Packet(file: seq<byte>, k: nat): Message
    requires 1 <= k <= LastBlock(file)
  {
    Data(k % 0x1_0000, Block(file, k))
  }

  function Next(file: seq<byte>, w: World, step: Step): World {
    match step
    case Start => w.(servers := w.servers + [1])
    case Post(i) => if i < |w.servers| then w.(posted := w.posted + {w.servers[i]}) else w
    case SeeAck(i, m) =>
      if i < |w.servers| && w.servers[i] % 0x1_0000 == m % 0x1_0000 && w.servers[i] < LastBlock(file)
      then w.(servers := w.servers[i := w.servers[i] + 1]) else w
    case Arrive(k, sent) =>
      if 1 <= k <= LastBlock(file) then w.(client := Handle(w.client, Packet(file, k), sent)) else w
    case Reject => w.(client := Handle(w.client, Rejection, true))
    case Loop(e) => w.(client := Apply(w.client, e))
  }

  function Run(file: seq<byte>, w: World, steps: seq<Step>): World
    decreases |steps|
  {
    if steps == [] then w else Run(file, Next(file, w, steps[0]), steps[1..])
  }

  ghost predicate AllowedRun(file: seq<byte>, w: World, steps: seq<Step>)
    decreases |steps|
  {
    steps == [] || (Allowed(file, w, steps[0]) && AllowedRun(file, Next(file, w, steps[0]), steps[1..]))
  }

  /** The client has the first n blocks, and its counters say so. */
  ghost predicate InStep(file: seq<byte>, c: Client) {
    && FirstBlocks(file, c.delivered)
    && c.block == |c.delivered| % 0x1_0000
    && c.fileSize == |Joined(c.delivered)| % 0x1_0000
    && (c.state == Complete ==> |c.delivered| == LastBlock(file))
  }

  /** No transfer, and so no packet, is ahead of block n + 1. */
  ghost predicate NotAhead(file: seq<byte>, n: nat, servers: seq<nat>, posted: set<nat>) {
    && (forall i | 0 <= i < |servers| :: 1 <= servers[i] <= n + 1 && servers[i] <= LastBlock(file))
    && (forall k | k in posted :: 1 <= k <= n + 1 && k <= LastBlock(file))
  }

  ghost predicate LockStep(file: seq<byte>, w: World) {
    InStep(file, w.client) && NotAhead(file, |w.client.delivered|, w.servers, w.posted)
  }

  lemma LowByte(n: nat)
    ensures Lo(n % 0x1_0000) == n % 0x100
  {
    var q := n / 0x1_0000;
    assert n == 0x1_0000 * q + n % 0x1_0000;
    ModUnique(n, 0x100, 0x100 * q + n % 0x1_0000 / 0x100, n % 0x1_0000 % 0x100);
  }

  lemma Predecessor(k: nat)
    requires k >= 1
    ensures (k % 0x100 - 1) % 0x100 == (k - 1) % 0x100
  {
  }

  lemma SameLow(a: nat, b: nat)
    ensures a % 0x100 == b % 0x100 <==> (a - b) % 0x100 == 0
  {
  }

  /** Of the packets that are not ahead, the low byte takes exactly those for the next one that are, or that are
      late by a multiple of 256 blocks. */
  lemma ExpectedIsNext(c: Client, n: nat, k: nat)
    requires c.block == n % 0x1_0000 && 1 <= k
    ensures Expected(c, k % 0x1_0000) <==> (n + 1 - k) % 0x100 == 0
  {
    hide Lo;
    LowByte(n);
    LowByte(k);
    Predecessor(k);
    SameLow(n, k - 1);
  }

  /** A packet that late puts an old block behind the newest one. */
  lemma StaleTakenForNext(file: seq<byte>, c: Client, k: nat, sent: bool)
    requires InStep(file, c) && 1 <= k <= |c.delivered| < LastBlock(file) && (|c.delivered| + 1 - k) % 0x100 == 0
    ensures Handle(c, Packet(file, k), sent).delivered == c.delivered + [Block(file, k)]
  {
    hide Expected;
    ExpectedIsNext(c, |c.delivered|, k);
  }

  lemma SizeStep(n: nat, size: word, data: seq<byte>)
    requires size == BLOCK * n % 0x1_0000 && |data| <= BLOCK
    ensures SizeAfter(size, data) == (BLOCK * n + |data|) % 0x1_0000
  {
    hide SizeAfter;
    if |data| < BLOCK {
      var q, m := Sectors(n);
      ModUnique(BLOCK * n, 0x1_0000, q, BLOCK * m);
      SizeOfPart(m, data);
      ModUnique(BLOCK * n + |data|, 0x1_0000, q, BLOCK * m + |data|);
    } else {
      SizeOfBlock(size, data);
      AddModulo(BLOCK * n, BLOCK);
    }
  }

  lemma Sectors(n: nat) returns (q: nat, m: nat)
    ensures m < 0x80 && BLOCK * n == 0x1_0000 * q + BLOCK * m
  {
    q, m := n / 0x80, n % 0x80;
  }

  lemma AddModulo(a: nat, b: nat)
    ensures (a % 0x1_0000 + b) % 0x1_0000 == (a + b) % 0x1_0000
  {
  }

  lemma SizeOfPart(m: nat, data: seq<byte>)
    requires m < 0x80 && |data| < BLOCK
    ensures SizeAfter(BLOCK * m, data) == BLOCK * m + |data|
  {
    EvenHigh(m);
    var d := |data|;
    if d < 0x100 {
      assert d % 0x100 == d && d / 0x100 == 0;
    } else {
      assert d % 0x100 == d - 0x100 && d / 0x100 == 1;
    }
  }

  lemma EvenHigh(m: nat)
    requires m < 0x80
    ensures Hi(BLOCK * m) == 2 * m
  {
  }

  lemma SizeOfBlock(size: word, data: seq<byte>)
    requires |data| == BLOCK
    ensures SizeAfter(size, data) == (size + BLOCK) % 0x1_0000
  {
  }

  lemma NextWord(n: nat)
    ensures (n % 0x1_0000 + 1) % 0x1_0000 == (n + 1) % 0x1_0000
  {
  }

  lemma OneMoreBlock(file: seq<byte>, blocks: seq<seq<byte>>)
    requires FirstBlocks(file, blocks) && |blocks| < LastBlock(file)
    ensures var more := blocks + [Block(file, |blocks| + 1)];
            FirstBlocks(file, more) && Joined(more) == Joined(blocks) + Block(file, |blocks| + 1)
    ensures |Joined(blocks)| == BLOCK * |blocks|
  {
    hide Block;
    var b := Block(file, |blocks| + 1);
    var more := blocks + [b];
    assert more[..|blocks|] == blocks && more[|blocks|] == b;
    JoinedLength(file, blocks);
  }

  lemma JoinedLength(file: seq<byte>, blocks: seq<seq<byte>>)
    requires FirstBlocks(file, blocks) && |blocks| < LastBlock(file)
    ensures |Joined(blocks)| == BLOCK * |blocks|
  {
    hide Joined;
    FirstBlocksJoined(file, blocks);
  }

  /** A packet that is not a multiple of 256 blocks late is ignored, or it is the next block of the file and the
      counters and the state follow. */
  lemma HandleInStep(file: seq<byte>, c: Client, k: nat, sent: bool)
    requires InStep(file, c) && 1 <= k <= |c.delivered| + 1 && k <= LastBlock(file)
    requires k == |c.delivered| + 1 || (|c.delivered| + 1 - k) % 0x100 != 0
    ensures var d := Handle(c, Packet(file, k), sent);
            && InStep(file, d)
            && (k <= |c.delivered| ==> d == c)
            && (k == |c.delivered| + 1 ==> d.delivered == c.delivered + [Block(file, k)]
                                           && (d.state == Complete <==> k == LastBlock(file)))
  {
    var n := |c.delivered|;
    hide SizeAfter, FirstBlocks, Expected, Block, Joined;
    ExpectedIsNext(c, n, k);
    if k == n + 1 {
      NextWord(n);
      OneMoreBlock(file, c.delivered);
      SizeStep(n, c.fileSize, Block(file, k));
    }
  }

  lemma StepLockStep(file: seq<byte>, w: World, step: Step)
    requires LockStep(file, w) && Allowed(file, w, step)
    ensures LockStep(file, Next(file, w, step))
    ensures w.client.delivered <= Next(file, w, step).client.delivered
  {
    hide Handle, FirstBlocks, Joined;
    var n := |w.client.delivered|;
    match step
    case SeeAck(i, m) =>
      SameWord(w.servers[i], m);
    case Arrive(k, sent) =>
      HandleInStep(file, w.client, k, sent);
    case Reject =>
      assert Handle(w.client, Rejection, true) == w.client.(state := Error) by { Rejected(w.client); }
    case _ =>
  }

  lemma Rejected(c: Client)
    ensures Handle(c, Rejection, true) == c.(state := Error)
  {
  }

  lemma SameWord(a: nat, b: nat)
    requires -0x1_0000 < a - b < 0x1_0000
    ensures a % 0x1_0000 == b % 0x1_0000 <==> a == b
  {
  }

  /** Over every run: the callback has got the first blocks of the file, in order and each once, the
      block number and the size counter are those of what was delivered, and no transfer is ahead. */
  lemma {:induction false} RunLockStep(file: seq<byte>, w: World, steps: seq<Step>)
    requires LockStep(file, w) && AllowedRun(file, w, steps)
    ensures LockStep(file, Run(file, w, steps))
    ensures w.client.delivered <= Run(file, w, steps).client.delivered
    decreases |steps|
  {
    if steps != [] {
      StepLockStep(file, w, steps[0]);
      RunLockStep(file, Next(file, w, steps[0]), steps[1..]);
    }
  }

  /** When a run ends in the complete state, the callback has got exactly the file, and the file size
      counter is its length modulo 65536. */
  lemma CompleteIsWholeFile(file: seq<byte>, steps: seq<Step>)
    requires AllowedRun(file, World(START, [], {}), steps)
    requires Run(file, World(START, [], {}), steps).client.state == Complete
    ensures var c := Run(file, World(START, [], {}), steps).client;
            Joined(c.delivered) == file && c.fileSize == |file| % 0x1_0000
  {
    var w := World(START, [], {});
    assert LockStep(file, w);
    RunLockStep(file, w, steps);
    FirstBlocksJoined(file, Run(file, w, steps).client.delivered);
  }

  // ----- The client's own part of a run -----

  function EventOf(file: seq<byte>, step: Step): seq<Event> {
    match step
    case Arrive(k, sent) => if 1 <= k <= LastBlock(file) then [Inbound(Packet(file, k), sent)] else []
    case Reject => [Inbound(Rejection, true)]
    case Loop(e) => [e]
    case _ => []
  }

  function ClientEvents(file: seq<byte>, steps: seq<Step>): seq<Event> {
    if steps == [] then [] else EventOf(file, steps[0]) + ClientEvents(file, steps[1..])
  }

  lemma {:induction false} ApplyFirst(c: Client, e: Event, es: seq<Event>)
    ensures ApplyAll(c, [e] + es) == ApplyAll(Apply(c, e), es)
  {
    var all := [e] + es;
    if es == [] {
      assert all[..0] == [];
    } else {
      var n := |es| - 1;
      assert all[..|all| - 1] == [e] + es[..n];
      ApplyFirst(c, e, es[..n]);
    }
  }

  lemma {:induction false} ClientOfRun(file: seq<byte>, w: World, steps: seq<Step>)
    ensures Run(file, w, steps).client == ApplyAll(w.client, ClientEvents(file, steps))
    decreases |steps|
  {
    if steps != [] {
      ClientOfRun(file, Next(file, w, steps[0]), steps[1..]);
      var es := EventOf(file, steps[0]);
      if es == [] {
        assert es + ClientEvents(file, steps[1..]) == ClientEvents(file, steps[1..]);
      } else {
        ApplyFirst(w.client, es[0], ClientEvents(file, steps[1..]));
      }
    }
  }

  /** Whatever a transfer's history is, if it is the client's part of a run of the protocol, then a
      transfer that ends complete has delivered exactly the file. */
  lemma DownloadedIsFile(file: seq<byte>, steps: seq<Step>, history: seq<Event>)
    requires AllowedRun(file, World(START, [], {}), steps) && history == ClientEvents(file, steps)
    requires ApplyAll(START, history).state == Complete
    ensures Joined(ApplyAll(START, history).delivered) == file
    ensures ApplyAll(START, history).fileSize == |file| % 0x1_0000
  {
    ClientOfRun(file, World(START, [], {}), steps);
    CompleteIsWholeFile(file, steps);
  }

  // ----- What a client has heard, and what follows from it -----

  /** A packet that came in, or the timer moved with nothing accepted. */
  datatype Sign = Got(m: Message) | Timeout

  function Signs(es: seq<Event>): seq<Sign> {
    if es == [] then []
    else
      var earlier, last := Signs(es[..|es| - 1]), es[|es| - 1];
      if last.Inbound? then earlier + [Got(last.m)] else if last.Tick? then earlier + [Timeout] else earlier
  }

  /** After n blocks, this is a block of a number that is congruent to n + 1 modulo 256. */
  predicate IsNext(n: nat, m: Message) {
    m.Data? && (n + 1 - m.block) % 0x100 == 0
  }

  /** The blocks taken, each being the next one when it came in. */
  function Taken(signs: seq<Sign>): seq<seq<byte>> {
    if signs == [] then []
    else
      var blocks, last := Taken(signs[..|signs| - 1]), signs[|signs| - 1];
      if last.Got? && IsNext(|blocks|, last.m) then blocks + [last.m.data] else blocks
  }

  /** How often the timer moved since the last block was taken, or since the start. */
  function Waits(signs: seq<Sign>): nat {
    if signs == [] then 0
    else
      var before, last := signs[..|signs| - 1], signs[|signs| - 1];
      if last.Timeout? then Waits(before) + 1
      else if IsNext(|Taken(before)|, last.m) then 0
      else Waits(before)
  }

  /** A rejection has come in since the last block was taken. */
  predicate Refused(signs: seq<Sign>) {
    signs != []
    && var before, last := signs[..|signs| - 1], signs[|signs| - 1];
       if last.Timeout? then Refused(before)
       else last.m.Rejection? || (!IsNext(|Taken(before)|, last.m) && Refused(before))
  }

  predicate EndsShort(blocks: seq<seq<byte>>) {
    blocks != [] && |blocks[|blocks| - 1]| != BLOCK
  }

  lemma NextSign(es: seq<Event>, e: Event)
    ensures Signs(es + [e])
         == if e.Inbound? then Signs(es) + [Got(e.m)] else if e.Tick? then Signs(es) + [Timeout] else Signs(es)
    ensures ApplyAll(START, es + [e]) == Apply(ApplyAll(START, es), e)
  {
    assert (es + [e])[..|es|] == es;
  }

  lemma AfterSign(signs: seq<Sign>, last: Sign)
    ensures Taken(signs + [last]) == if last.Got? && IsNext(|Taken(signs)|, last.m) then Taken(signs) + [last.m.data] else Taken(signs)
    ensures Waits(signs + [last])
         == if last.Timeout? then Waits(signs) + 1 else if IsNext(|Taken(signs)|, last.m) then 0 else Waits(signs)
    ensures Refused(signs + [last])
            <==> if last.Timeout? then Refused(signs)
                 else last.m.Rejection? || (!IsNext(|Taken(signs)|, last.m) && Refused(signs))
  {
    assert (signs + [last])[..|signs|] == signs;
  }

  lemma ExpectedAfter(c: Client, n: nat, m: Message)
    requires c.block == n % 0x1_0000 && m.Data?
    ensures Expected(c, m.block) <==> IsNext(n, m)
  {
    hide Expected;
    var k := m.block + 0x1_0000;
    assert k % 0x1_0000 == m.block && (n + 1 - k) % 0x100 == (n + 1 - m.block) % 0x100;
    ExpectedIsNext(c, n, k);
  }

  ghost predicate Accounted(c: Client, signs: seq<Sign>) {
    && c.delivered == Taken(signs)
    && c.block == |Taken(signs)| % 0x1_0000
    && c.resends as int == (MAX_RESENDS as int - Waits(signs)) % 0x100
  }

  lemma CountDown(waits: nat)
    ensures ((MAX_RESENDS as int - waits) % 0x100 - 1) % 0x100 == (MAX_RESENDS as int - waits - 1) % 0x100
  {
  }

  /** The variables of a client are those of what it has heard: the blocks it has taken, their number modulo 65536, and
      ten less one for each move of the timer since the last of them. */
  lemma {:induction false} Account(es: seq<Event>)
    ensures Accounted(ApplyAll(START, es), Signs(es))
  {
    if es != [] {
      var before, e := es[..|es| - 1], es[|es| - 1];
      assert es == before + [e];
      Account(before);
      AccountNext(before, e);
    }
  }

  lemma AccountNext(es: seq<Event>, e: Event)
    requires Accounted(ApplyAll(START, es), Signs(es))
    ensures Accounted(ApplyAll(START, es + [e]), Signs(es + [e]))
  {
    hide Signs, Taken, Waits, Refused, ApplyAll, Handle;
    var c, signs := ApplyAll(START, es), Signs(es);
    NextSign(es, e);
    if e.Inbound? {
      AfterSign(signs, Got(e.m));
      HandleAccount(c, |Taken(signs)|, e.m, e.sent);
    } else if e.Tick? {
      AfterSign(signs, Timeout);
      CountDown(Waits(signs));
    }
  }

  lemma HandleAccount(c: Client, n: nat, m: Message, sent: bool)
    requires c.block == n % 0x1_0000
    ensures var d := Handle(c, m, sent);
            if IsNext(n, m) then d.delivered == c.delivered + [m.data] && d.block == (n + 1) % 0x1_0000 && d.resends == MAX_RESENDS
            else d.delivered == c.delivered && d.block == c.block && d.resends == c.resends
    ensures Handle(c, m, sent).sent == if sent && IsNext(n, m) then c.sent + [Ack((n + 1) % 0x1_0000)] else c.sent
  {
    hide Expected, SizeAfter;
    if m.Data? {
      ExpectedAfter(c, n, m);
      NextWord(n);
    }
  }

  /** What is sent by each event: the number acknowledged is always that of the last block taken. */
  lemma SentNext(es: seq<Event>, e: Event)
    ensures var taken := |Taken(Signs(es))|;
            var before := ApplyAll(START, es).sent;
            ApplyAll(START, es + [e]).sent
            == match e
               case Inbound(m, sent) => if sent && IsNext(taken, m) then before + [Ack((taken + 1) % 0x1_0000)] else before
               case SendRequest(ok) => if ok then before + [Request] else before
               case SendAck(ok) => if ok then before + [Ack(taken % 0x1_0000)] else before
               case _ => before
  {
    hide Taken, Signs, Waits, Refused, ApplyAll, Handle;
    var n := |Taken(Signs(es))|;
    Account(es);
    NextSign(es, e);
    if e.Inbound? {
      HandleAccount(ApplyAll(START, es), n, e.m, e.sent);
    }
  }
}
