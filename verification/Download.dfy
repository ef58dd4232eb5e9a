/** The end of wget65's main program: the request is sent and the header skipped, then the rest of the
    response goes to a file or to a disk. */
module Download {
  import opened Bytes
  import opened W5100
  import W5100Http
  import Wget65

  lemma HeaderStays(earlier: seq<byte>, later: seq<byte>, start: nat, end: nat)
    requires earlier <= later && start <= end <= |earlier| && W5100Http.Header(earlier[start..end])
    ensures W5100Http.Header(later[start..end])
    ensures W5100Http.StatusOk(later[start..end]) <==> W5100Http.StatusOk(earlier[start..end])
  {
    assert later[start..end] == earlier[start..end];
  }

  /** A run in which the request is answered: header and body come in as a whole, the last RECV ends, and the peer
      closes once the body is read. */
  ghost predicate Delivers(s: Socket, selector: seq<byte>, h: seq<byte>, body: seq<byte>)
    reads s
  {
    W5100Http.Answers(s, selector, h, body) && Follows(s, s.clock + 5 + |selector| + 5 + |h|, body)
  }

  ghost predicate Follows(s: Socket, m: nat, body: seq<byte>) {
    && 0 < |body| < Wget65.BUFFER && Completion in s.At(m) && s.Response(m) == []
    && s.Quietly(m + 1, 4 + |body|) && Wget65.Closes(s, m + 5 + |body|)
  }

  lemma ToBeDelivered(s: Socket, selector: seq<byte>, h: seq<byte>, body: seq<byte>)
    requires s.Valid() && Delivers(s, selector, h, body)
    ensures s.consumed == |s.received| && W5100Http.Fits(s.rxWindow, s.consumed, h + body)
    ensures Follows(s, s.clock + 5 + |selector| + 5 + |h|, body)
  {
    hide W5100Http.Replies, W5100Http.Fits;
    W5100Http.ToBeAnswered(s, selector, h, body);
  }

  /** Behind the header only the body is left. */
  lemma BodyLeft(s: Socket, start: nat, h: seq<byte>, body: seq<byte>)
    requires s.Valid() && s.command == Recv && s.consumed == start + |h| && s.consumed + |body| == |s.received|
    requires W5100Http.Fits(s.rxWindow, start, h + body) && Follows(s, s.clock, body)
    ensures Wget65.Ends(s) && s.Unread() == |body|
  {
    hide Wget65.Closes;
    s.DrainedIsEmpty();
    CellsContiguous(s.rxWindow, start, |h|);
  }

  /** After a regular end the file holds exactly what followed the header: the body of the response, all of
      it if and only if the size register reads zero once the last command has ended. That is so if the connection
      was closed before the last request, and this request found no command pending. Behind a header with the
      status asked for it ends otherwise only with the abort key; and a response that is delivered is in the
      file. */
  method ToFile(s: Socket, selector: seq<byte>, buffer: array<byte>, sendPolls: nat, headerPolls: nat, bodyPolls: nat,
                ghost h: seq<byte>, ghost rest: seq<byte>)
    returns (done: bool, file: seq<byte>, ghost headed: bool, ghost body: nat, ghost last: nat, ghost pending: bool)
    requires s.Valid() && buffer.Length == Wget65.BUFFER
    modifies s, buffer
    ensures s.Valid() && old(s.received) <= s.received && old(s.consumed) <= body <= s.consumed <= |s.received|
    ensures headed ==> W5100Http.Header(s.received[old(s.consumed)..body])
    ensures done ==> headed && W5100Http.StatusOk(s.received[old(s.consumed)..body]) && file == s.received[body..s.consumed]
    ensures done ==> (file == s.received[body..] <==> s.Unread() == 0)
    ensures done ==> old(s.clock) <= last && s.clock == last + if pending then 2 else 4
    ensures done && pending ==> Completion !in s.At(last)
    ensures done && !pending && !(old(s.connected) && s.Open(old(s.clock), last)) ==> file == s.received[body..]
    ensures !headed ==> || !s.connected || body == old(s.consumed) + W5100Http.POINTER_SIZE
                        || s.clock >= old(s.clock) + 2 * sendPolls || s.clock >= old(s.clock) + 2 * headerPolls
    ensures headed && W5100Http.StatusOk(s.received[old(s.consumed)..body]) && !done ==>
              s.clock >= old(s.clock) + 2 * bodyPolls
    ensures old(Delivers(s, selector, h, rest)) && W5100Http.StatusOk(h) && |h| <= buffer.Length
            && sendPolls > 0 && headerPolls > 0 && bodyPolls > 1 ==>
              done && file == rest && s.received == old(s.received) + (h + rest)
  {
    hide Socket.ValidRx, Socket.ValidTx, W5100Http.Header, W5100Http.StatusOk, W5100Http.Answers, W5100Http.Fits;
    hide Delivers, Follows, Wget65.Ends, Wget65.EndsUnread, Wget65.LateBytes, Socket.Unread;
    file, last, pending := [], 0, false;
    ghost var start, delivers := s.consumed, Delivers(s, selector, h, rest) && |h| <= buffer.Length && sendPolls > 0 && headerPolls > 0;
    if delivers { ToBeDelivered(s, selector, h, rest); DeliversAnswers(s, selector, h, rest); }
    done, headed := W5100Http.HttpOpen(s, selector, buffer, sendPolls, headerPolls, h, rest);
    body := s.consumed;
    ghost var earlier := s.received;
    if delivers {
      Cut(old(s.received), h, rest);
      BodyLeft(s, start, h, rest);
    }
    if !done { return; }
    done, file, last, pending := Wget65.WriteFile(s, buffer, bodyPolls);
    HeaderStays(earlier, s.received, start, body);
  }

  lemma DeliversAnswers(s: Socket, selector: seq<byte>, h: seq<byte>, body: seq<byte>)
    requires Delivers(s, selector, h, body)
    ensures W5100Http.Answers(s, selector, h, body)
  {
  }

  lemma Cut(earlier: seq<byte>, h: seq<byte>, body: seq<byte>)
    ensures (earlier + (h + body))[|earlier|..|earlier| + |h|] == h
    ensures (earlier + (h + body))[|earlier| + |h|..] == body
  {
  }

  /** The same for a disk: its contents are the image of the body, complete under the same condition. The disk being too
      small for the body is one more way to end. */
  method ToDisk(s: Socket, selector: seq<byte>, buffer: array<byte>, prodos: bool, sectors: word,
                sendPolls: nat, headerPolls: nat, bodyPolls: nat, ghost h: seq<byte>, ghost rest: seq<byte>)
    returns (done: bool, disk: seq<byte>, ghost headed: bool, ghost body: nat, ghost last: nat, ghost pending: bool)
    requires s.Valid() && buffer.Length == Wget65.BUFFER
    modifies s, buffer
    ensures s.Valid() && old(s.received) <= s.received && old(s.consumed) <= body <= s.consumed <= |s.received|
    ensures headed ==> W5100Http.Header(s.received[old(s.consumed)..body])
    ensures done ==> headed && W5100Http.StatusOk(s.received[old(s.consumed)..body])
                     && Wget65.OnDisk(prodos, disk, s.received[body..s.consumed])
    ensures done ==> old(s.clock) <= last && s.clock == last + if pending then 2 else 4
    ensures done && pending ==> Completion !in s.At(last)
    ensures done && !pending && !(old(s.connected) && s.Open(old(s.clock), last)) ==> s.consumed == |s.received|
    ensures done && (s.consumed - body) % Wget65.BUFFER == 0 ==> disk == Wget65.Image(prodos, s.received[body..s.consumed])
    ensures !headed ==> || !s.connected || body == old(s.consumed) + W5100Http.POINTER_SIZE
                        || s.clock >= old(s.clock) + 2 * sendPolls || s.clock >= old(s.clock) + 2 * headerPolls
    ensures headed && W5100Http.StatusOk(s.received[old(s.consumed)..body]) && !done ==>
              || s.clock >= old(s.clock) + 2 * bodyPolls
              || |disk| == Wget65.BLOCK * sectors < Wget65.RoundUp(s.consumed - body)
    ensures old(Delivers(s, selector, h, rest)) && W5100Http.StatusOk(h) && |h| <= buffer.Length && |rest| <= Wget65.Room(prodos, 0)
            && sendPolls > 0 && headerPolls > 0 && bodyPolls > 1 ==>
              && (done <==> Wget65.RoundUp(|rest|) <= Wget65.BLOCK * sectors)
              && s.received[body..s.consumed] == rest && s.received == old(s.received) + (h + rest)
  {
    hide Socket.ValidRx, Socket.ValidTx, W5100Http.Header, W5100Http.StatusOk, W5100Http.Answers, W5100Http.Fits;
    hide Delivers, Follows, Wget65.Ends, Wget65.EndsUnread, Wget65.LateBytes, Socket.Unread;
    hide Wget65.OnDisk, Wget65.TracksOnDisk, Wget65.RoundUp, Wget65.Room, Wget65.Image, Socket.Pending, Wget65.Place;
    disk, last, pending := [], 0, false;
    ghost var start, delivers := s.consumed, Delivers(s, selector, h, rest) && |h| <= buffer.Length && sendPolls > 0 && headerPolls > 0;
    if delivers { ToBeDelivered(s, selector, h, rest); DeliversAnswers(s, selector, h, rest); }
    done, headed := W5100Http.HttpOpen(s, selector, buffer, sendPolls, headerPolls, h, rest);
    body := s.consumed;
    ghost var earlier := s.received;
    if delivers {
      Cut(old(s.received), h, rest);
      BodyLeft(s, start, h, rest);
    }
    if !done { return; }
    var outcome;
    outcome, disk, last, pending := Wget65.WriteDevice(s, buffer, prodos, sectors, bodyPolls);
    done := outcome == Wget65.Complete;
    HeaderStays(earlier, s.received, start, body);
    assert s.received[body..|s.received|] == s.received[body..];
    WholeBody(prodos, disk, s.received[body..s.consumed]);
  }

  lemma WholeBody(prodos: bool, disk: seq<byte>, body: seq<byte>)
    ensures Wget65.OnDisk(prodos, disk, body) && |body| % Wget65.BUFFER == 0 ==> disk == Wget65.Image(prodos, body)
  {
    hide Wget65.OnDisk, Wget65.Image;
    if Wget65.OnDisk(prodos, disk, body) && |body| % Wget65.BUFFER == 0 {
      Wget65.WholeStreamOnDisk(prodos, disk, body);
    }
  }

  // ----- A run that succeeds -----

  /** What the chip does at moment k: nothing while the request is staged, then the response as a whole, the end of the
      RECV behind the header, and the end of the RECV behind the body with the peer's close. */
  function StepsAt(selector: nat, h: seq<byte>, body: seq<byte>, k: nat): seq<ChipStep> {
    var sent := 5 + selector;
    var headed := sent + 5 + |h|;
    if k == sent then [Completion] + Arrivals(h + body)
    else if k == headed then [Completion]
    else if k == headed + 5 + |body| then [Completion, Disconnection]
    else []
  }

  function Course(selector: nat, h: seq<byte>, body: seq<byte>): (script: seq<seq<ChipStep>>) {
    seq(16 + selector + |h| + |body|, k requires 0 <= k => StepsAt(selector, h, body, k))
  }

  lemma CourseAt(s: Socket, selector: nat, h: seq<byte>, body: seq<byte>, k: nat)
    requires s.script == Course(selector, h, body)
    ensures s.At(k) == StepsAt(selector, h, body, k)
  {
  }

  lemma CourseSteps(s: Socket, selector: nat, h: seq<byte>, body: seq<byte>)
    requires s.script == Course(selector, h, body)
    ensures var sent := 5 + selector;
            var headed := sent + 5 + |h|;
            var read := headed + 5 + |body|;
            && s.Quietly(0, sent) && s.At(sent) == [Completion] + Arrivals(h + body)
            && s.Quietly(sent + 1, 4 + |h|) && s.At(headed) == [Completion]
            && s.Quietly(headed + 1, 4 + |body|) && s.At(read) == [Completion, Disconnection] && s.Quietly(read + 1, 4)
  {
    hide Course, Socket.At, Arrivals;
    forall k: nat ensures s.At(k) == StepsAt(selector, h, body, k) {
      CourseAt(s, selector, h, body, k);
    }
  }

  lemma ResponseComes(s: Socket, m: nat, data: seq<byte>)
    requires s.At(m) == [Completion] + Arrivals(data)
    ensures Completion in s.At(m) && Disconnection !in s.At(m) && s.Response(m) == data
  {
    ArrivalsCome(data);
    assert s.At(m)[0] == Completion;
  }

  lemma NothingComes(s: Socket, m: nat)
    requires s.At(m) == [Completion] || s.At(m) == [Completion, Disconnection]
    ensures Completion in s.At(m) && s.Response(m) == []
  {
    assert [Completion][1..] == [] && [Completion, Disconnection][1..] == [Disconnection];
  }

  lemma CourseDelivers(s: Socket, selector: seq<byte>, h: seq<byte>, body: seq<byte>)
    requires s.Valid() && s.connected && s.command == Idle && s.clock == 0 && s.received == s.staged == [] && s.consumed == 0
    requires s.rxWindow == Window(0x7000, 0x1000) && s.txWindow == Window(0x5000, 0x1000)
    requires s.script == Course(|selector|, h, body)
    requires 0 < |selector| <= 0x1000 && W5100Http.Header(h) && 0 < |body| && |h| + |body| <= 0x1000
    ensures Delivers(s, selector, h, body)
  {
    hide W5100Http.Header, Course, Socket.At, Socket.Quietly, Coming, Arrivals;
    s.DrainedIsEmpty();
    W5100Http.HeaderLength(h);
    var sent := 5 + |selector|;
    var headed := sent + 5 + |h|;
    CourseSteps(s, |selector|, h, body);
    ResponseComes(s, sent, h + body);
    NothingComes(s, headed);
    NothingComes(s, headed + 5 + |body|);
  }

  /** A download that succeeds, for every request, header and body that fit into the rings: the request is sent, and the
      file holds the body. */
  method Downloaded(selector: seq<byte>, h: seq<byte>, body: seq<byte>, buffer: array<byte>, polls: nat)
    returns (s: Socket, done: bool, file: seq<byte>)
    requires 0 < |selector| <= 0x1000 && W5100Http.Header(h) && W5100Http.StatusOk(h) && 0 < |body| && |h| + |body| <= 0x1000
    requires polls > 1 && buffer.Length == Wget65.BUFFER
    modifies buffer
    ensures fresh(s) && s.received == h + body && done && file == body
  {
    hide Socket.ValidRx, Socket.ValidTx, Config, Course, Delivers, W5100Http.Header, W5100Http.StatusOk;
    ConfigOk(0x0a);
    s := new Socket(0x0a, 0x0a, Course(|selector|, h, body));
    CourseDelivers(s, selector, h, body);
    ghost var headed, start, last, pending;
    done, file, headed, start, last, pending := ToFile(s, selector, buffer, polls, polls, polls, h, body);
    assert [] + (h + body) == h + body;
  }
}
