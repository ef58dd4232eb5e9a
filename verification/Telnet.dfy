/** The telnet client's receive callback (telnet65.s): an automaton that separates the user's data from
    the option negotiation of RFC 854 and RFC 855 and queues the replies. */
module Telnet {
  import opened Bytes

  const IAC: byte := 0xff
  const SE: byte := 0xf0
  const SB: byte := 0xfa
  const WILL: byte := 0xfb
  const WONT: byte := 0xfc
  const DO: byte := 0xfd
  const DONT: byte := 0xfe
  const ECHO: byte := 0x01
  const SUPPRESS_GA: byte := 0x03
  const TERMINAL_TYPE: byte := 0x18
  const NAWS: byte := 0x1f
  const COLS: byte := 80
  const ROWS: byte := 24
  const ROOM: nat := 64  // bytes in the reply buffer and in the suboption buffer

  predicate Verb(b: byte) {
    WILL <= b <= DONT
  }

  // ----- A stream as a sequence of items -----

  /** What a telnet stream consists of. A suboption's body ends before its first SE, as the client reads it. */
  datatype Item =
    | Data(b: byte)
    | Command(c: byte)
    | Option(verb: byte, option: byte)
    | Suboption(body: seq<byte>)
  {
    predicate Ok() {
      match this
      case Data(b) => b != IAC
      case Command(c) => c != SB && !Verb(c)
      case Option(verb, _) => Verb(verb)
      case Suboption(body) => SE !in body
    }

    function Bytes(): seq<byte> {
      match this
      case Data(b) => [b]
      case Command(c) => [IAC, c]
      case Option(verb, option) => [IAC, verb, option]
      case Suboption(body) => [IAC, SB] + body + [SE]
    }
  }

  function Render(items: seq<Item>): seq<byte> {
    if items == [] then [] else items[0].Bytes() + Render(items[1..])
  }

  function UserData(items: seq<Item>): seq<byte> {
    if items == [] then []
    else (if items[0].Data? then [items[0].b] else []) + UserData(items[1..])
  }

  predicate AllOk(items: seq<Item>) {
    forall i | 0 <= i < |items| :: items[i].Ok()
  }

  /** A stream cut off inside an item. */
  predicate Partial(tail: seq<byte>) {
    || tail == []
    || tail == [IAC]
    || (|tail| == 2 && tail[0] == IAC && Verb(tail[1]))
    || (|tail| >= 2 && tail[..2] == [IAC, SB] && SE !in tail[2..])
  }

  // ----- The replies -----

  const NAWS_REPLY: seq<byte> := [IAC, WILL, NAWS, IAC, SB, NAWS, 0, COLS, 0, ROWS, IAC, SE]
  const TERMINAL_TYPE_REPLY: seq<byte> := [IAC, SB, TERMINAL_TYPE, 0, 0x76, 0x74, 0x31, 0x30, 0x30, IAC, SE]

  /** The verb that answers a request for an option: only terminal type and window size are offered, only
      echo and go-ahead suppression are accepted. */
  function AnswerVerb(verb: byte, option: byte): byte {
    if verb == WILL && (option == ECHO || option == SUPPRESS_GA) then DO
    else if verb == WILL || verb == WONT then DONT
    else if verb == DO && (option == TERMINAL_TYPE || option == NAWS) then WILL
    else WONT
  }

  function Answer(item: Item): seq<Item> {
    match item
    case Option(verb, option) =>
      [Option(AnswerVerb(verb, option), option)]
      + if verb == DO && option == NAWS then [Suboption([NAWS, 0, COLS, 0, ROWS, IAC])] else []
    case Suboption(body) =>
      if body != [] && body[0] == TERMINAL_TYPE
      then [Suboption([TERMINAL_TYPE, 0, 0x76, 0x74, 0x31, 0x30, 0x30, IAC])] else []
    case _ => []
  }

  function Answers(items: seq<Item>): seq<Item> {
    if items == [] then [] else Answer(items[0]) + Answers(items[1..])
  }

  // ----- The automaton -----

  datatype Mode = Normal | GotIac | GotCommand | GotSuboption

  /** The automaton's state, the bytes handed to the terminal and the queued replies. */
  datatype Scanner = Scanner(mode: Mode, command: byte, sub: seq<byte>, screen: seq<byte>, replies: seq<byte>)

  const START := Scanner(Normal, 0, [], [], [])

  function OptionReply(command: byte, option: byte): seq<byte> {
    if command == WILL then
      if option == ECHO || option == SUPPRESS_GA then [IAC, DO, option] else [IAC, DONT, option]
    else if command == WONT then [IAC, DONT, option]
    else if command == DONT then [IAC, WONT, option]
    else if option == TERMINAL_TYPE then [IAC, WILL, option]
    else if option == NAWS then NAWS_REPLY
    else [IAC, WONT, option]
  }

  function Step(s: Scanner, b: byte): Scanner {
    match s.mode
    case Normal => if b == IAC then s.(mode := GotIac) else s.(screen := s.screen + [b])
    case GotIac =>
      var t := s.(command := b);
      if b == SB then t.(mode := GotSuboption, sub := [])
      else if Verb(b) then t.(mode := GotCommand)
      else t.(mode := Normal)
    case GotCommand => s.(mode := Normal, replies := s.replies + OptionReply(s.command, b))
    case GotSuboption =>
      var t := s.(sub := s.sub + [b]);
      if b != SE then t
      else
        t.(mode := Normal,
           replies := s.replies + if t.sub[0] == TERMINAL_TYPE then TERMINAL_TYPE_REPLY else [])
  }

  function Feed(s: Scanner, bytes: seq<byte>): Scanner
    decreases |bytes|
  {
    if bytes == [] then s else Feed(Step(s, bytes[0]), bytes[1..])
  }

  /** However a stream is cut into packets, the automaton ends in the same state. */
  lemma {:induction false} FeedConcat(s: Scanner, a: seq<byte>, b: seq<byte>)
    ensures Feed(s, a + b) == Feed(Feed(s, a), b)
    decreases |a|
  {
    if a == [] {
      assert a + b == b;
    } else {
      FeedConcat(Step(s, a[0]), a[1..], b);
      assert (a + b)[1..] == a[1..] + b;
    }
  }

  // ----- What the automaton does with each item -----

  lemma Feed1(s: Scanner, x: byte)
    ensures Feed(s, [x]) == Step(s, x)
  {
  }

  lemma Feed2(s: Scanner, x: byte, y: byte)
    ensures Feed(s, [x, y]) == Step(Step(s, x), y)
  {
    assert [x, y] == [x] + [y];
    FeedConcat(s, [x], [y]);
  }

  lemma {:induction false} FeedBody(s: Scanner, body: seq<byte>)
    requires s.mode == GotSuboption && SE !in body
    ensures Feed(s, body) == s.(sub := s.sub + body)
    decreases |body|
  {
    if body == [] {
      assert s.sub + body == s.sub;
    } else {
      FeedBody(Step(s, body[0]), body[1..]);
      assert s.sub + [body[0]] + body[1..] == s.sub + body;
    }
  }

  lemma FeedSuboption(s: Scanner, body: seq<byte>)
    requires s.mode == Normal && SE !in body
    ensures Feed(s, Suboption(body).Bytes())
         == Scanner(Normal, SB, body + [SE], s.screen, s.replies + Render(Answer(Suboption(body))))
  {
    var begun := Scanner(GotSuboption, SB, [], s.screen, s.replies);
    Feed2(s, IAC, SB);
    FeedConcat(s, [IAC, SB], body + [SE]);
    FeedConcat(begun, body, [SE]);
    FeedBody(begun, body);
    assert [] + body == body;
    Feed1(begun.(sub := body), SE);
    assert Suboption(body).Bytes() == [IAC, SB] + (body + [SE]);
    RenderAnswer(Suboption(body));
  }

  /** The reply bytes are those of the answering items. */
  lemma RenderAnswer(item: Item)
    requires item.Ok()
    ensures match item
            case Option(verb, option) => Render(Answer(item)) == OptionReply(verb, option)
            case Suboption(body) =>
              Render(Answer(item)) == if (body + [SE])[0] == TERMINAL_TYPE then TERMINAL_TYPE_REPLY else []
            case _ => Render(Answer(item)) == []
    ensures AllOk(Answer(item)) && UserData(Answer(item)) == []
  {
    match item {
      case Option(verb, option) => RenderOptionAnswer(verb, option);
      case Suboption(body) =>
        hide AnswerVerb, Verb;
        var name := Suboption([TERMINAL_TYPE, 0, 0x76, 0x74, 0x31, 0x30, 0x30, IAC]);
        RenderOne(name);
        assert name.Bytes() == TERMINAL_TYPE_REPLY;
      case _ =>
    }
  }

  lemma OptionBytes(verb: byte, option: byte)
    ensures Option(verb, option).Bytes() == [IAC, verb, option]
  {
  }

  lemma NawsBytes()
    ensures Option(WILL, NAWS).Bytes() + Suboption([NAWS, 0, COLS, 0, ROWS, IAC]).Bytes() == NAWS_REPLY
  {
  }

  lemma RenderOptionAnswer(verb: byte, option: byte)
    requires Verb(verb)
    ensures var answer := Answer(Option(verb, option));
            && Render(answer) == OptionReply(verb, option)
            && AllOk(answer) && UserData(answer) == []
  {
    hide Item.Bytes, Render, UserData;
    var reply := Option(AnswerVerb(verb, option), option);
    RenderOne(reply);
    if verb == DO && option == NAWS {
      var size := Suboption([NAWS, 0, COLS, 0, ROWS, IAC]);
      RenderOne(size);
      RenderConcat([reply], [size]);
      UserDataConcat([reply], [size]);
      NawsBytes();
    } else {
      OptionBytes(AnswerVerb(verb, option), option);
      assert Answer(Option(verb, option)) == [reply];
    }
  }

  lemma RenderOne(item: Item)
    ensures Render([item]) == item.Bytes()
    ensures UserData([item]) == if item.Data? then [item.b] else []
  {
    assert [item][1..] == [];
  }

  /** From the normal state, an item of the stream puts its data on the screen and queues its answer. */
  lemma FeedItem(s: Scanner, item: Item)
    requires s.mode == Normal && item.Ok()
    ensures var t := Feed(s, item.Bytes());
            && t.mode == Normal
            && t.screen == s.screen + UserData([item])
            && t.replies == s.replies + Render(Answer(item))
  {
    RenderAnswer(item);
    assert [item][1..] == [];
    match item {
      case Data(b) => Feed1(s, b);
      case Command(c) => Feed2(s, IAC, c);
      case Option(verb, option) =>
        FeedConcat(s, [IAC, verb], [option]);
        Feed2(s, IAC, verb);
        Feed1(Feed(s, [IAC, verb]), option);
        assert item.Bytes() == [IAC, verb] + [option];
      case Suboption(body) => FeedSuboption(s, body);
    }
  }

  /** The meaning of a whole stream: exactly the bytes outside the IAC sequences reach the terminal, in
      order, and the queued replies are the answers to the requests, in order. */
  lemma {:induction false} FeedItems(s: Scanner, items: seq<Item>)
    requires s.mode == Normal && AllOk(items)
    ensures var t := Feed(s, Render(items));
            && t.mode == Normal
            && t.screen == s.screen + UserData(items)
            && t.replies == s.replies + Render(Answers(items))
    decreases |items|
  {
    if items == [] {
      assert s.screen + [] == s.screen && s.replies + [] == s.replies;
    } else {
      hide Answer, Item.Bytes, Item.Ok;
      FeedItem(s, items[0]);
      hide Feed;
      RenderOne(items[0]);
      var t := Feed(s, items[0].Bytes());
      FeedConcat(s, items[0].Bytes(), Render(items[1..]));
      FeedItems(t, items[1..]);
      RenderConcat(Answer(items[0]), Answers(items[1..]));
      Assoc(s.screen, UserData([items[0]]), UserData(items[1..]));
      Assoc(s.replies, Render(Answer(items[0])), Render(Answers(items[1..])));
    }
  }

  lemma Assoc(a: seq<byte>, b: seq<byte>, c: seq<byte>)
    ensures a + b + c == a + (b + c)
  {
  }

  lemma {:induction false} RenderConcat(a: seq<Item>, b: seq<Item>)
    ensures Render(a + b) == Render(a) + Render(b)
  {
    hide Item.Bytes;
    if a == [] {
      assert a + b == b;
    } else {
      RenderConcat(a[1..], b);
      assert (a + b)[1..] == a[1..] + b;
      Assoc(a[0].Bytes(), Render(a[1..]), Render(b));
    }
  }

  // ----- Every stream is a sequence of items with a cut-off end -----

  lemma {:induction false} SplitAtSe(bytes: seq<byte>) returns (n: nat)
    ensures n <= |bytes| && SE !in bytes[..n]
    ensures n < |bytes| ==> bytes[n] == SE
  {
    if bytes == [] || bytes[0] == SE {
      n := 0;
    } else {
      var m := SplitAtSe(bytes[1..]);
      n := m + 1;
      assert bytes[..n] == [bytes[0]] + bytes[1..][..m];
    }
  }

  /** The first item of a stream, or the whole stream if it is cut off inside it. */
  lemma FirstItem(stream: seq<byte>) returns (items: seq<Item>, n: nat)
    requires stream != []
    ensures n <= |stream| && AllOk(items)
    ensures (items == [] && n == 0 && Partial(stream)) || (|items| == 1 && n > 0 && Render(items) == stream[..n])
  {
    items, n := [], 0;
    if stream[0] != IAC {
      items, n := [Data(stream[0])], 1;
    } else if |stream| == 1 {
    } else if stream[1] == SB {
      var k := SplitAtSe(stream[2..]);
      if k < |stream| - 2 {
        items, n := [Suboption(stream[2..][..k])], k + 3;
        assert stream[..n] == [IAC, SB] + stream[2..][..k] + [stream[2..][k]];
      } else {
        assert stream[2..][..k] == stream[2..];
      }
    } else if !Verb(stream[1]) {
      items, n := [Command(stream[1])], 2;
    } else if |stream| > 2 {
      items, n := [Option(stream[1], stream[2])], 3;
    }
    if items != [] {
      assert items[1..] == [];
      assert Render(items) == items[0].Bytes();
    }
  }

  /** Every byte stream is the rendering of some items followed by a cut-off item, so FeedItems and
      FeedPartial together say what the client does with every stream. */
  lemma {:induction false} EveryStream(stream: seq<byte>) returns (items: seq<Item>, tail: seq<byte>)
    ensures AllOk(items) && Partial(tail) && Render(items) + tail == stream
    decreases |stream|
  {
    if stream == [] {
      return [], [];
    }
    hide Render, Partial, AllOk;
    var first, n := FirstItem(stream);
    if first == [] {
      items, tail := [], stream;
      NoItems(stream);
    } else {
      var rest, end := EveryStream(stream[n..]);
      items, tail := first + rest, end;
      JoinStreams(first, rest, end, stream, n);
    }
  }

  lemma NoItems(stream: seq<byte>)
    ensures AllOk([]) && Render([]) + stream == stream
  {
  }

  lemma JoinStreams(first: seq<Item>, rest: seq<Item>, end: seq<byte>, stream: seq<byte>, n: nat)
    requires AllOk(first) && AllOk(rest)
    requires n <= |stream| && Render(first) == stream[..n] && Render(rest) + end == stream[n..]
    ensures AllOk(first + rest) && Render(first + rest) + end == stream
  {
    hide Item.Ok, Render;
    RenderConcat(first, rest);
    Assoc(Render(first), Render(rest), end);
    assert stream[..n] + stream[n..] == stream;
  }

  /** A cut-off item shows and queues nothing, and leaves the normal state unless it is empty. */
  lemma FeedPartial(s: Scanner, tail: seq<byte>)
    requires s.mode == Normal && Partial(tail)
    ensures var t := Feed(s, tail);
            t.screen == s.screen && t.replies == s.replies && (t.mode == Normal <==> tail == [])
  {
    if |tail| == 1 {
      Feed1(s, IAC);
    } else if |tail| >= 2 {
      FeedConcat(s, tail[..2], tail[2..]);
      assert tail[..2] + tail[2..] == tail;
      assert tail[..2] == [tail[0], tail[1]];
      Feed2(s, tail[0], tail[1]);
      if tail[1] == SB {
        FeedBody(Feed(s, tail[..2]), tail[2..]);
      } else {
        assert tail[2..] == [];
      }
    }
  }

  /** The queued replies, read by the same automaton, are complete items and hold no user data. */
  lemma {:induction false} AnswersOk(items: seq<Item>)
    requires AllOk(items)
    ensures AllOk(Answers(items)) && UserData(Answers(items)) == []
  {
    if items != [] {
      hide Item.Ok, Answer;
      RenderAnswer(items[0]);
      AnswersOk(items[1..]);
      UserDataConcat(Answer(items[0]), Answers(items[1..]));
    }
  }

  lemma {:induction false} UserDataConcat(a: seq<Item>, b: seq<Item>)
    ensures UserData(a + b) == UserData(a) + UserData(b)
  {
    if a == [] {
      assert a + b == b;
    } else {
      UserDataConcat(a[1..], b);
      assert (a + b)[1..] == a[1..] + b;
      Assoc(if a[0].Data? then [a[0].b] else [], UserData(a[1..]), UserData(b));
    }
  }

  lemma RepliesReread(items: seq<Item>)
    requires AllOk(items)
    ensures var replies := Feed(START, Render(items)).replies;
            && Feed(START, replies).mode == Normal
            && Feed(START, replies).screen == []
  {
    FeedItems(START, items);
    AnswersOk(items);
    FeedItems(START, Answers(items));
    assert [] + Render(Answers(items)) == Render(Answers(items));
  }

  /** A request for an option is answered by one verb naming the same option, a positive one exactly for
      the four options the client supports. */
  lemma AnswerNamesOption(verb: byte, option: byte)
    requires 251 <= verb <= 254
    ensures var a := Answer(Option(verb, option));
            && a != [] && a[0].Option? && a[0].option == option
            && (forall i | 1 <= i < |a| :: !a[i].Option?)
            && a[0].verb in (if verb in {253, 254} then {251, 252} else {253, 254})
            && (a[0].verb in {251, 253} <==> (verb, option) in {(253, 24), (253, 31), (251, 1), (251, 3)})
  {
  }

  // ----- Two such clients -----

  /** What the client sends back for a message. */
  function Reply(message: seq<byte>): seq<byte> {
    Feed(START, message).replies
  }

  /** The n-th message when two such clients answer each other. */
  function Volley(message: seq<byte>, n: nat): seq<byte> {
    if n == 0 then message else Reply(Volley(message, n - 1))
  }

  function Refusal(wont: bool, option: byte): seq<byte> {
    [IAC, if wont then WONT else DONT, option]
  }

  lemma ReplyToItems(items: seq<Item>)
    requires AllOk(items)
    ensures Reply(Render(items)) == Render(Answers(items))
  {
    FeedItems(START, items);
    assert [] + Render(Answers(items)) == Render(Answers(items));
  }

  lemma ReplyToOption(verb: byte, option: byte)
    requires Verb(verb)
    ensures Reply([IAC, verb, option]) == OptionReply(verb, option)
  {
    hide Feed;
    var item := Option(verb, option);
    RenderOne(item);
    ReplyToItems([item]);
    RenderAnswer(item);
    assert Answers([item]) == Answer(item) + [] == Answer(item);
  }

  lemma ReplyToNaws()
    ensures Reply(NAWS_REPLY) == Refusal(false, NAWS)
  {
    hide Feed;
    var verb, size := Option(WILL, NAWS), Suboption([NAWS, 0, COLS, 0, ROWS, IAC]);
    RenderOne(verb);
    RenderOne(size);
    RenderConcat([verb], [size]);
    NawsBytes();
    ReplyToItems([verb, size]);
    assert [verb, size] == [verb] + [size] && [verb, size][1..] == [size] && [size][1..] == [];
    RenderAnswer(verb);
    assert Answers([size]) == Answer(size) + Answers([]) == [];
    assert Answers([verb, size]) == Answer(verb) + Answers([size]) == Answer(verb);
  }

  /** A refusal is answered by a refusal, the other way round, and so on for ever. */
  lemma {:induction false} RefusalsAnswered(wont: bool, option: byte, n: nat)
    ensures Volley(Refusal(wont, option), n) == Refusal(wont == (n % 2 == 0), option)
  {
    hide Reply;
    if n > 0 {
      RefusalsAnswered(wont, option, n - 1);
      ReplyToOption(if wont == ((n - 1) % 2 == 0) then WONT else DONT, option);
    }
  }

  lemma {:induction false} VolleyFrom(message: seq<byte>, m: nat, n: nat)
    ensures Volley(message, m + n) == Volley(Volley(message, m), n)
  {
    hide Reply;
    if n > 0 {
      VolleyFrom(message, m, n - 1);
    }
  }

  /** So between two such clients no negotiation ends: from the second answer on, whatever the option and
      the first request, they refuse the option in turn. */
  lemma NegotiationNeverEnds(verb: byte, option: byte, n: nat)
    requires Verb(verb) && n >= 2
    ensures Volley([IAC, verb, option], n) == Refusal((verb in {WILL, WONT}) == (n % 2 == 0), option)
  {
    hide Reply;
    var message := [IAC, verb, option];
    ReplyToOption(verb, option);
    ReplyToNaws();
    assert Volley(message, 1) == Reply(Volley(message, 0)) == OptionReply(verb, option);
    assert Volley(message, 2) == Reply(Volley(message, 1));
    if OptionReply(verb, option) != NAWS_REPLY {
      ReplyToOption(OptionReply(verb, option)[1], option);
    }
    VolleyFrom(message, 2, n - 2);
    RefusalsAnswered(verb in {WILL, WONT}, option, n - 2);
  }

  /** A doubled IAC is dropped, where RFC 854 reads it as the data byte 255. */
  lemma DoubledIac(s: Scanner)
    requires s.mode == Normal
    ensures Feed(s, [IAC, IAC]) == s.(command := IAC)
  {
    Feed2(s, IAC, IAC);
  }

  // ----- The reading of RFC 854 and RFC 855 -----

  /** Items as these standards write them: a data byte 255 is doubled, and a suboption, whose bytes 255 are
      doubled as well, ends with IAC SE. */
  predicate RfcOk(item: Item) {
    match item
    case Command(c) => !(250 <= c <= 255)
    case Option(verb, _) => 251 <= verb <= 254
    case _ => true
  }

  function Doubled(bytes: seq<byte>): seq<byte> {
    if bytes == [] then []
    else (if bytes[0] == 255 then [255, 255] else [bytes[0]]) + Doubled(bytes[1..])
  }

  function RfcBytes(item: Item): seq<byte> {
    match item
    case Data(b) => Doubled([b])
    case Command(c) => [255, c]
    case Option(verb, option) => [255, verb, option]
    case Suboption(body) => [255, 250] + (Doubled(body) + [255, 240])
  }

  function RfcRender(items: seq<Item>): seq<byte> {
    if items == [] then [] else RfcBytes(items[0]) + RfcRender(items[1..])
  }

  /** The two long replies are what the standards ask for: that the window size option (31) is used and the window has 80
      columns and 24 rows, and that the terminal type (24) is (0) the name. */
  lemma RepliesAreRfc(name: seq<byte>)
    requires |name| == 5 && forall i | 0 <= i < 5 :: name[i] == "vt100"[i] as int
    ensures NAWS_REPLY == RfcRender([Option(251, 31), Suboption([31, 0, 80, 0, 24])])
    ensures TERMINAL_TYPE_REPLY == RfcRender([Suboption([24, 0] + name)])
  {
    SizeReply();
    NameReply(name);
  }

  lemma SizeReply()
    ensures NAWS_REPLY == RfcRender([Option(251, 31), Suboption([31, 0, 80, 0, 24])])
  {
    hide RfcRender, Doubled;
    var size := [31, 0, 80, 0, 24];
    NothingDoubled(size);
    RfcOne(Option(WILL, 31), [Suboption(size)]);
    RfcOne(Suboption(size), []);
    assert [Option(WILL, 31)] + [Suboption(size)] == [Option(WILL, 31), Suboption(size)];
  }

  lemma NameReply(name: seq<byte>)
    requires |name| == 5 && forall i | 0 <= i < 5 :: name[i] == "vt100"[i] as int
    ensures TERMINAL_TYPE_REPLY == RfcRender([Suboption([24, 0] + name)])
  {
    hide RfcRender, Doubled;
    assert name == [0x76, 0x74, 0x31, 0x30, 0x30];
    NothingDoubled([24, 0] + name);
    RfcOne(Suboption([24, 0] + name), []);
  }

  lemma RfcOne(item: Item, items: seq<Item>)
    ensures RfcRender([item] + items) == RfcBytes(item) + RfcRender(items)
    ensures [item] + [] == [item] && RfcRender([]) == []
  {
    assert ([item] + items)[1..] == items;
  }

  lemma {:induction false} NothingDoubled(bytes: seq<byte>)
    requires IAC !in bytes
    ensures Doubled(bytes) == bytes
  {
    if bytes != [] {
      NothingDoubled(bytes[1..]);
    }
  }

  /** A suboption is answered if and only if it is one of the terminal type, whatever it asks for, and then with the name. */
  lemma SuboptionAnswered(body: seq<byte>)
    requires SE !in body
    ensures Render(Answer(Suboption(body))) == if body != [] && body[0] == 24 then TERMINAL_TYPE_REPLY else []
  {
    RenderAnswer(Suboption(body));
    assert body != [] ==> (body + [SE])[0] == body[0];
  }

  /** What such bytes show in the normal state. */
  function WithoutIac(bytes: seq<byte>): seq<byte> {
    if bytes == [] then []
    else (if bytes[0] == IAC then [] else [bytes[0]]) + WithoutIac(bytes[1..])
  }

  /** What of a suboption's body is shown: the rest behind its first SE. */
  function Leak(body: seq<byte>): seq<byte> {
    if body == [] then [] else if body[0] == SE then WithoutIac(body[1..]) else Leak(body[1..])
  }

  function Shown(item: Item): seq<byte> {
    match item
    case Data(b) => WithoutIac([b])
    case Suboption(body) => Leak(body)
    case _ => []
  }

  function AllShown(items: seq<Item>): seq<byte> {
    if items == [] then [] else Shown(items[0]) + AllShown(items[1..])
  }

  lemma {:induction false} FeedDoubled(s: Scanner, bytes: seq<byte>)
    requires s.mode == Normal
    ensures var t := Feed(s, Doubled(bytes));
            t.mode == Normal && t.screen == s.screen + WithoutIac(bytes) && t.replies == s.replies
    decreases |bytes|
  {
    if bytes == [] {
      assert s.screen + [] == s.screen;
    } else {
      hide Feed;
      var first := if bytes[0] == IAC then [IAC, IAC] else [bytes[0]];
      FeedConcat(s, first, Doubled(bytes[1..]));
      Feed1(s, bytes[0]);
      Feed2(s, IAC, IAC);
      var t := Feed(s, first);
      FeedDoubled(t, bytes[1..]);
      assert t.screen == s.screen + if bytes[0] == IAC then [] else [bytes[0]];
      Assoc(s.screen, if bytes[0] == IAC then [] else [bytes[0]], WithoutIac(bytes[1..]));
    }
  }

  /** From inside a suboption, the rest of it is read up to its first SE and answered by its first byte. */
  lemma {:induction false} FeedRest(s: Scanner, body: seq<byte>)
    requires s.mode == GotSuboption
    ensures var t := Feed(s, Doubled(body) + [IAC, SE]);
            && t.mode == Normal && t.screen == s.screen + Leak(body)
            && t.replies == s.replies + if (s.sub + body + [IAC])[0] == TERMINAL_TYPE then TERMINAL_TYPE_REPLY else []
    decreases |body|
  {
    hide Feed;
    if body == [] {
      assert Doubled(body) + [IAC, SE] == [IAC, SE];
      Feed2(s, IAC, SE);
    } else {
      var first := if body[0] == IAC then [IAC, IAC] else [body[0]];
      var rest := Doubled(body[1..]) + [IAC, SE];
      assert Doubled(body) + [IAC, SE] == first + rest;
      FeedConcat(s, first, rest);
      Feed1(s, body[0]);
      Feed2(s, IAC, IAC);
      var t := Feed(s, first);
      if body[0] == SE {
        FeedConcat(t, Doubled(body[1..]), [IAC, SE]);
        FeedDoubled(t, body[1..]);
        Feed2(Feed(t, Doubled(body[1..])), IAC, SE);
      } else {
        FeedRest(t, body[1..]);
      }
    }
  }

  lemma FeedRfcItem(s: Scanner, item: Item)
    requires s.mode == Normal && RfcOk(item)
    ensures var t := Feed(s, RfcBytes(item));
            t.mode == Normal && t.screen == s.screen + Shown(item) && t.replies == s.replies + Render(Answer(item))
  {
    hide Feed;
    match item {
      case Data(b) =>
        FeedDoubled(s, [b]);
        assert s.replies + [] == s.replies;
      case Suboption(body) =>
        FeedConcat(s, [IAC, SB], Doubled(body) + [IAC, SE]);
        Feed2(s, IAC, SB);
        FeedRest(Feed(s, [IAC, SB]), body);
        assert [] + body == body;
        RenderName();
      case _ =>
        FeedItem(s, item);
        RenderOne(item);
    }
  }

  lemma RenderName()
    ensures Render([Suboption([TERMINAL_TYPE, 0, 0x76, 0x74, 0x31, 0x30, 0x30, IAC])]) == TERMINAL_TYPE_REPLY
    ensures Render([]) == []
  {
    RenderOne(Suboption([TERMINAL_TYPE, 0, 0x76, 0x74, 0x31, 0x30, 0x30, IAC]));
  }

  /** A stream written by these standards: all requests are answered, in order, whatever the data and the
      suboptions hold. The screen gets the data other than 255, and the rests of the suboptions. */
  lemma {:induction false} FeedRfc(s: Scanner, items: seq<Item>)
    requires s.mode == Normal && forall i | 0 <= i < |items| :: RfcOk(items[i])
    ensures var t := Feed(s, RfcRender(items));
            && t.mode == Normal
            && t.screen == s.screen + AllShown(items)
            && t.replies == s.replies + Render(Answers(items))
    decreases |items|
  {
    if items == [] {
      assert s.screen + [] == s.screen && s.replies + [] == s.replies;
    } else {
      hide Answer, RfcBytes, RfcOk, Shown;
      FeedRfcItem(s, items[0]);
      hide Feed;
      var t := Feed(s, RfcBytes(items[0]));
      FeedConcat(s, RfcBytes(items[0]), RfcRender(items[1..]));
      FeedRfc(t, items[1..]);
      RenderConcat(Answer(items[0]), Answers(items[1..]));
      Assoc(s.screen, Shown(items[0]), AllShown(items[1..]));
      Assoc(s.replies, Render(Answer(items[0])), Render(Answers(items[1..])));
    }
  }

  /** The client shows this item as the standards mean it: data other than 255; a suboption without SE, or with
      nothing but bytes 255 behind its first SE. */
  ghost predicate Agrees(item: Item) {
    match item
    case Data(b) => b != IAC
    case Suboption(body) => forall i, j | 0 <= i < j < |body| && body[i] == SE :: body[j] == IAC
    case _ => true
  }

  ghost predicate AllAgree(items: seq<Item>) {
    forall i | 0 <= i < |items| :: Agrees(items[i])
  }

  lemma {:induction false} NothingShown(bytes: seq<byte>)
    ensures WithoutIac(bytes) == [] <==> forall i | 0 <= i < |bytes| :: bytes[i] == IAC
    ensures IAC !in WithoutIac(bytes)
  {
    if bytes != [] {
      NothingShown(bytes[1..]);
      assert forall i | 0 < i < |bytes| :: bytes[i] == bytes[1..][i - 1];
    }
  }

  lemma {:induction false} NothingLeaks(body: seq<byte>)
    ensures Leak(body) == [] <==> Agrees(Suboption(body))
    ensures IAC !in Leak(body)
  {
    if body != [] {
      var rest := body[1..];
      NothingLeaks(rest);
      NothingShown(rest);
      assert forall i | 0 < i < |body| :: body[i] == rest[i - 1];
      if Agrees(Suboption(body)) {
        forall j | 0 <= j < |rest| && body[0] == SE ensures rest[j] == IAC {
          assert body[j + 1] == IAC;
        }
        forall i, j | 0 <= i < j < |rest| && rest[i] == SE ensures rest[j] == IAC {
          assert body[i + 1] == SE && body[j + 1] == IAC;
        }
      }
    }
  }

  lemma ShownItem(item: Item)
    ensures Agrees(item) ==> Shown(item) == UserData([item])
    ensures IAC !in Shown(item)
    ensures IAC !in UserData([item]) ==> |Shown(item)| >= |UserData([item])|
    ensures IAC !in UserData([item]) && |Shown(item)| == |UserData([item])| ==> Agrees(item)
  {
    RenderOne(item);
    match item {
      case Data(b) => NothingShown([b]);
      case Suboption(body) => NothingLeaks(body);
      case _ =>
    }
  }

  /** A byte 255 of the data is missing on the screen, and what leaks makes it longer. */
  lemma {:induction false} ShownItems(items: seq<Item>)
    ensures AllAgree(items) ==> AllShown(items) == UserData(items)
    ensures IAC !in AllShown(items)
    ensures IAC !in UserData(items) ==> |AllShown(items)| >= |UserData(items)|
    ensures IAC !in UserData(items) && |AllShown(items)| == |UserData(items)| ==> AllAgree(items)
  {
    if items != [] {
      hide Shown, Agrees;
      var rest := items[1..];
      ShownItems(rest);
      ShownItem(items[0]);
      RenderOne(items[0]);
      assert UserData(items) == UserData([items[0]]) + UserData(rest);
      assert forall i | 0 < i < |items| :: items[i] == rest[i - 1];
      assert AllAgree(items) <==> Agrees(items[0]) && AllAgree(rest) by {
        assert forall i | 0 <= i < |rest| :: rest[i] == items[i + 1];
      }
    }
  }

  /** The screen gets exactly the user data of such a stream if and only if the client agrees on every item. */
  lemma ScreenIsUserData(items: seq<Item>)
    requires forall i | 0 <= i < |items| :: RfcOk(items[i])
    ensures Feed(START, RfcRender(items)).screen == UserData(items) <==> AllAgree(items)
  {
    hide Feed, AllAgree, RfcOk;
    FeedRfc(START, items);
    assert [] + AllShown(items) == AllShown(items);
    ShownItems(items);
  }

  // ----- telnet_callback -----

  /** Neither buffer overruns while the bytes are read. */
  ghost predicate Fits(s: Scanner, bytes: seq<byte>)
    decreases |bytes|
  {
    |s.sub| <= ROOM && |s.replies| <= ROOM && (bytes == [] || Fits(Step(s, bytes[0]), bytes[1..]))
  }

  /** The number of bytes the countdown of a 16-bit length allows; the callback is not made for no data. */
  function Count(length: word): nat {
    if length == 0 then 0x100 else length
  }

  /** The two-byte countdown at the end of the byte loop. */
  method Countdown(lo: byte, hi: byte) returns (lo': byte, hi': byte, more: bool)
    ensures more <==> Count(Word(lo, hi)) != 1
    ensures more ==> Count(Word(lo', hi')) == Count(Word(lo, hi)) - 1
  {
    lo', hi' := (lo as int + 0xff) % 0x100, hi;
    more := true;
    if hi != 0 {
      if lo == 0 { hi' := hi - 1; }
    } else {
      more := lo' != 0;
    }
  }

  class Session {
    var mode: Mode
    var command: byte
    const response: array<byte>
    var responseLength: byte
    const suboption: array<byte>
    var suboptionLength: byte
    var connectionClosed: bool
    var dataReceived: bool
    ghost var screen: seq<byte>

    ghost predicate Valid()
      reads this`responseLength, this`suboptionLength
    {
      && response.Length == ROOM && suboption.Length == ROOM && response != suboption
      && responseLength <= ROOM && suboptionLength <= ROOM
    }

    ghost function State(): Scanner
      reads this`mode, this`command, this`responseLength, this`suboptionLength, this`screen, response, suboption
      requires Valid()
    {
      Scanner(mode, command, suboption[..suboptionLength], screen, response[..responseLength])
    }

    constructor ()
      ensures Valid() && fresh(response) && fresh(suboption) && State() == START
    {
      mode, command, responseLength, suboptionLength := Normal, 0, 0, 0;
      connectionClosed, dataReceived := false, false;
      response := new byte[ROOM];
      suboption := new byte[ROOM];
      screen := [];
    }

    /** The two table loops: append a prepared reply. */
    method AppendTable(table: seq<byte>)
      requires Valid() && 0 < |table| && responseLength + |table| <= ROOM
      modifies this`responseLength, response
      ensures Valid() && State() == old(State()).(replies := old(State()).replies + table)
    {
      ghost var before := response[..responseLength];
      var x := 0;
      while x < |table|
        invariant 0 <= x <= |table| && responseLength as int == |before| + x
        invariant Valid() && response[..responseLength] == before + table[..x]
      {
        response[responseLength] := table[x];
        responseLength := responseLength + 1;
        x := x + 1;
        assert response[..responseLength] == response[..responseLength - 1] + [table[x - 1]];
      }
      assert table[..x] == table;
    }

    /** add_iac_response. */
    method AddResponse(verb: byte, option: byte)
      requires Valid() && responseLength + 3 <= ROOM
      modifies this`responseLength, response
      ensures Valid() && State() == old(State()).(replies := old(State()).replies + [IAC, verb, option])
    {
      var x := responseLength;
      response[x + 1] := verb;
      response[x] := IAC;
      response[x + 2] := option;
      responseLength := responseLength + 3;
      assert response[..responseLength] == response[..x] + [IAC, verb, option];
      assert response[..x] == old(response[..responseLength]);
    }

    method WaitingForOption(option: byte)
      requires Valid() && mode == GotCommand && Fits(Step(State(), option), [])
      modifies this, response
      ensures Valid() && State() == Step(old(State()), option)
      ensures connectionClosed == old(connectionClosed) && dataReceived == old(dataReceived)
    {
      if command == WILL {
        if option == ECHO || option == SUPPRESS_GA {
          AddResponse(DO, option);
        } else {
          AddResponse(DONT, option);
        }
      } else if command == WONT {
        AddResponse(DONT, option);
      } else if command == DONT {
        AddResponse(WONT, option);
      } else if option == TERMINAL_TYPE {
        AddResponse(WILL, option);
      } else if option == NAWS {
        AppendTable(NAWS_REPLY);
      } else {
        AddResponse(WONT, option);
      }
      mode := Normal;
    }

    method WaitingForSuboptionEnd(b: byte)
      requires Valid() && mode == GotSuboption && Fits(Step(State(), b), [])
      modifies this, response, suboption
      ensures Valid() && State() == Step(old(State()), b)
      ensures connectionClosed == old(connectionClosed) && dataReceived == old(dataReceived)
    {
      suboption[suboptionLength] := b;
      suboptionLength := suboptionLength + 1;
      assert suboption[..suboptionLength] == old(suboption[..suboptionLength]) + [b];
      if b == SE {
        mode := Normal;
        if suboption[0] == TERMINAL_TYPE {
          AppendTable(TERMINAL_TYPE_REPLY);
        }
      }
    }

    method WaitingForCommand(b: byte)
      requires Valid() && mode == GotIac
      modifies this
      ensures Valid() && State() == Step(old(State()), b)
      ensures connectionClosed == old(connectionClosed) && dataReceived == old(dataReceived)
    {
      command := b;
      if b == SB {
        mode := GotSuboption;
        suboptionLength := 0;
      } else if b == WILL || b == WONT || b == DO || b == DONT {
        mode := GotCommand;
      } else {
        mode := Normal;
      }
    }

    /** One turn of the byte loop. */
    method NextByte(b: byte)
      requires Valid() && Fits(Step(State(), b), [])
      modifies this, response, suboption
      ensures Valid() && State() == Step(old(State()), b)
      ensures connectionClosed == old(connectionClosed) && dataReceived == old(dataReceived)
    {
      if mode == GotCommand {
        WaitingForOption(b);
      } else if mode == GotIac {
        WaitingForCommand(b);
      } else if mode == GotSuboption {
        WaitingForSuboptionEnd(b);
      } else if b == IAC {
        mode := GotIac;
      } else {
        screen := screen + [b];
      }
    }

    /** The byte loop with its 16-bit countdown, as long as both buffers suffice. */
    method Consume(memory: seq<byte>, length: word) returns (ptr: nat)
      requires Valid() && Count(length) <= |memory| && Fits(State(), memory[..Count(length)])
      modifies this, response, suboption
      ensures Valid() && ptr == Count(length) && State() == Feed(old(State()), memory[..ptr])
      ensures connectionClosed == old(connectionClosed) && dataReceived == old(dataReceived)
    {
      hide Valid, Step, Fits, Feed, Count, Word;
      var lo, hi: byte := Lo(length), Hi(length);
      ghost var n := Count(length);
      CountOfBytes(length);
      ptr := 0;
      var more := true;
      while more
        invariant 0 <= ptr <= n && Valid()
        invariant if more then ptr + Count(Word(lo, hi)) == n else ptr == n
        invariant Fits(State(), memory[ptr..n])
        invariant Feed(old(State()), memory[..n]) == Feed(State(), memory[ptr..n])
        invariant connectionClosed == old(connectionClosed) && dataReceived == old(dataReceived)
        decreases n - ptr, more
      {
        CountPositive(lo, hi);
        ghost var s := State();
        FitsStep(s, memory[ptr..n]);
        assert memory[ptr..n][1..] == memory[ptr + 1..n];
        NextByte(memory[ptr]);
        ptr := ptr + 1;
        lo, hi, more := Countdown(lo, hi);
      }
      assert memory[ptr..n] == [];
      FeedNothing(State());
    }

    /** The callback: a length of 0xff00 or more means that the peer closed; otherwise the automaton is fed
        exactly the packet. */
    method Callback(memory: seq<byte>, length: word)
      requires Valid() && Count(length) <= |memory| && Fits(State(), memory[..Count(length)])
      modifies this, response, suboption
      ensures Valid()
      ensures length >= 0xff00 ==> State() == old(State()) && connectionClosed && dataReceived == old(dataReceived)
      ensures length < 0xff00 ==>
                && State() == Feed(old(State()), memory[..Count(length)])
                && dataReceived && connectionClosed == old(connectionClosed)
    {
      if Hi(length) == 0xff {
        connectionClosed := true;
        return;
      }
      dataReceived := true;
      var _ := Consume(memory, length);
    }

    /** The main loop's sending of the queued replies. */
    method TakeReplies() returns (sent: seq<byte>)
      requires Valid()
      modifies this`responseLength
      ensures Valid() && sent == old(State()).replies && State() == old(State()).(replies := [])
    {
      sent := response[..responseLength];
      responseLength := 0;
    }
  }

  lemma CountPositive(lo: byte, hi: byte)
    ensures Count(Word(lo, hi)) >= 1
  {
  }

  lemma CountOfBytes(length: word)
    ensures Count(Word(Lo(length), Hi(length))) == Count(length) >= 1
  {
  }

  lemma FeedNothing(s: Scanner)
    ensures Feed(s, []) == s
  {
  }

  lemma FitsStep(s: Scanner, bytes: seq<byte>)
    requires bytes != [] && Fits(s, bytes)
    ensures Fits(Step(s, bytes[0]), bytes[1..]) && Fits(Step(s, bytes[0]), [])
    ensures Feed(s, bytes) == Feed(Step(s, bytes[0]), bytes[1..])
  {
  }
}
