/** w5100_http_open: the request goes out in whatever pieces the free space allows, and the response
    is consumed up to the first empty line, however it arrives. */
module W5100Http {
  import opened Bytes
  import opened W5100

  const CR: byte := 0x0d
  const LF: byte := 0x0a
  const OK_STATUS: seq<byte> := [0x48, 0x54, 0x54, 0x50, 0x2f, 0x31, 0x2e, 0x30, 0x20, 0x32, 0x30, 0x30]  // HTTP/1.0 200

  // sizeof of a pointer, which the source compares the length with instead of the buffer's size
  const POINTER_SIZE: nat := 2

  ghost predicate Boundary(h: seq<byte>) {
    |h| >= 4 && h[|h| - 4..] == [CR, LF, CR, LF]
  }

  /** `h` ends with an empty line, and no shorter prefix of it does. */
  ghost predicate Header(h: seq<byte>) {
    Boundary(h) && NoBoundary(h, |h|)
  }

  ghost predicate NoBoundary(h: seq<byte>, n: nat) {
    forall j | 0 <= j < n && j <= |h| :: !Boundary(h[..j])
  }

  // ----- Sending -----

  method SendBytes(s: Socket, data: seq<byte>)
    requires s.Valid() && s.Accessing(true, 0, |data|)
    modifies s
    ensures s.Valid() && s.Quiet() && s.Accessing(true, |data|, |data|) && s.clock == old(s.clock) + |data|
    ensures s.txWindow.Ok(TX_BANK) && CellsOf(s.mem, s.txWindow, |s.staged|, |data|) == data
    ensures old(s.Silent(|data|)) ==> s.received == old(s.received)
  {
    hide Socket.ValidRx, Socket.ValidTx, Socket.Accessing, CellsOf;
    s.FreeSpace(0, |data|);
    var i := 0;
    assert CellsOf(s.mem, s.txWindow, |s.staged|, 0) == [];
    while i < |data|
      invariant 0 <= i <= |data|
      invariant s.Valid() && s.Quiet() && s.Accessing(true, i, |data|) && s.clock == old(s.clock) + i
      invariant old(s.Silent(|data|)) ==> s.received == old(s.received)
      invariant s.txWindow.Ok(TX_BANK) && CellsOf(s.mem, s.txWindow, |s.staged|, i) == data[..i]
    {
      SendByte(s, data[i], i, |data|);
      i := i + 1;
    }
  }

  method SendByte(s: Socket, b: byte, ghost i: nat, ghost n: nat)
    requires s.Valid() && s.Accessing(true, i, n) && i < n
    modifies s
    ensures s.Valid() && s.Quiet() && s.Accessing(true, i + 1, n) && |s.mem| == MEMORY && s.txWindow.Ok(TX_BANK)
    ensures CellsOf(s.mem, s.txWindow, |s.staged|, i + 1) == old(CellsOf(s.mem, s.txWindow, |s.staged|, i)) + [b]
    ensures s.clock == old(s.clock) + 1 && (s.At(old(s.clock)) == [] ==> s.received == old(s.received))
  {
    hide CellsOf;
    ghost var mem := s.mem;
    s.Environment();
    CellsOfBank(mem, s.mem, s.txWindow, |s.staged|, i);
    s.WriteData(b, i, n);
  }

  /** There is room for these bytes, and nothing happens while they are staged. */
  ghost predicate Undisturbed(s: Socket, bytes: seq<byte>)
    reads s
  {
    s.Valid() && s.command == Idle && 0 < |bytes| <= s.Granted(true) && s.Silent(5 + |bytes|)
  }

  /** One turn of the request loop: the next `snd` bytes of `rest` are staged. `more` is false once
      the connection was seen closed with no space granted. */
  method SendTurn(s: Socket, rest: seq<byte>) returns (more: bool, snd: nat)
    requires s.Valid()
    modifies s
    ensures s.Valid() && s.Linked() && old(s.received) <= s.received && s.consumed == old(s.consumed)
    ensures snd <= |rest| && s.staged == old(s.staged) + rest[..snd]
    ensures s.rxWindow == old(s.rxWindow) && s.clock >= old(s.clock) + 2 && (rest != [] ==> (more <==> snd > 0 || s.connected))
    ensures old(Undisturbed(s, rest)) ==>
              && more && snd == |rest| && s.clock == old(s.clock) + 5 + |rest|
              && s.command == Send && s.received == old(s.received)
  {
    hide Socket.ValidRx, Socket.ValidTx, Socket.Accessing, CellsOf;
    more := true;
    snd := s.DataRequest(true);
    if snd == 0 {
      s.Environment();
      more := s.connected;
      return;
    }
    if |rest| < snd {
      s.Fewer(true, snd, |rest|);
      snd := |rest|;
    }
    SendBytes(s, rest[..snd]);
    s.FreeSpace(snd, snd);
    s.DataCommit(true, snd);
  }

  /** The request loop. Every byte of the selector is staged once and in order. */
  method SendRequest(s: Socket, selector: seq<byte>, polls: nat) returns (ok: bool)
    requires s.Valid()
    modifies s
    ensures s.Valid() && s.Linked() && old(s.received) <= s.received && s.consumed == old(s.consumed)
    ensures ok ==> s.staged == old(s.staged) + selector
    ensures exists pos | 0 <= pos <= |selector| :: s.staged == old(s.staged) + selector[..pos]
    ensures s.rxWindow == old(s.rxWindow) && (!ok ==> !s.connected || s.clock >= old(s.clock) + 2 * polls)
    ensures old(Undisturbed(s, selector)) && polls > 0 ==>
              ok && s.clock == old(s.clock) + 5 + |selector| && s.command == Send && s.received == old(s.received)
  {
    hide Socket.ValidRx, Socket.ValidTx, Undisturbed;
    var pos, poll := 0, 0;
    ghost var start, calm := s.staged, Undisturbed(s, selector);
    while pos < |selector|
      invariant 0 <= pos <= |selector| && poll <= polls && s.clock >= old(s.clock) + 2 * poll && s.rxWindow == old(s.rxWindow)
      invariant calm && polls > 0 ==>
                  if poll == 0 then pos == 0 && Undisturbed(s, selector) && s.clock == old(s.clock) && s.received == old(s.received)
                  else pos == |selector| && s.clock == old(s.clock) + 5 + |selector| && s.command == Send && s.received == old(s.received)
      invariant s.Valid() && s.Linked() && old(s.received) <= s.received && s.consumed == old(s.consumed)
      invariant s.staged == start + selector[..pos]
      decreases polls - poll
    {
      if poll == polls { return false; }
      poll := poll + 1;
      assert pos == 0 ==> selector[pos..] == selector;
      var more, snd := SendTurn(s, selector[pos..]);
      Staged(start, selector, pos, snd);
      pos := pos + snd;
      if !more { return false; }
    }
    assert selector[..pos] == selector;
    NothingToSend(s, selector);
    ok := true;
  }

  lemma NothingToSend(s: Socket, selector: seq<byte>)
    ensures Undisturbed(s, selector) ==> selector != []
  {
  }

  lemma Staged(start: seq<byte>, selector: seq<byte>, pos: nat, snd: nat)
    requires pos + snd <= |selector|
    ensures (start + selector[..pos]) + selector[pos..][..snd] == start + selector[..pos + snd]
  {
  }

  // ----- Receiving -----

  /** What comes in at moment m is a header with something behind it, and then nothing comes while the header is read. */
  ghost predicate Begins(s: Socket, m: nat, h: seq<byte>, rest: seq<byte>) {
    s.Response(m) == h + rest && Header(h) && s.Quietly(m + 5, |h|)
  }

  lemma LongEnough(s: Socket, m: nat, h: seq<byte>, rest: seq<byte>)
    ensures Begins(s, m, h, rest) ==> |h| >= 4
  {
  }

  /** One byte from the data port to the buffer. */
  method ReadInto(s: Socket, buffer: array<byte>, at: nat, ghost i: nat, ghost n: nat)
    requires s.Valid() && s.Accessing(false, i, n) && i < n && at < buffer.Length
    modifies s, buffer
    ensures s.Valid() && s.Quiet() && s.Accessing(false, i + 1, n) && s.consumed + i < |s.received|
    ensures buffer[..at + 1] == old(buffer[..at]) + [s.received[s.consumed + i]]
    ensures s.clock == old(s.clock) + 1 && (s.At(old(s.clock)) == [] ==> s.received == old(s.received))
  {
    hide Socket.ValidRx, Socket.ValidTx, Socket.Accessing;
    var b := s.NextByte(i, n);
    buffer[at] := b;
  }

  /** The scan loop over one granted piece. It stops behind the byte that completes an empty line;
      bytes before the buffer are not taken as part of one. */
  method ScanPiece(s: Socket, buffer: array<byte>, len: nat, n: nat) returns (rcv: nat, body: bool)
    requires s.Valid() && 0 < n && s.Accessing(false, 0, n) && len + n <= buffer.Length
    requires NoBoundary(buffer[..len], len + 1)
    modifies s, buffer
    ensures s.Valid() && s.Quiet() && rcv <= n && s.consumed + rcv <= |s.received| && s.command != Send
    ensures buffer[..len + rcv] == old(buffer[..len]) + s.received[s.consumed..s.consumed + rcv]
    ensures if body then Header(buffer[..len + rcv]) else rcv == n && NoBoundary(buffer[..len + n], len + n + 1)
    ensures s.clock == old(s.clock) + rcv && (old(s.Silent(rcv)) ==> s.received == old(s.received))
  {
    hide Socket.ValidRx, Socket.ValidTx, Socket.Accessing, Boundary, NoBoundary;
    rcv, body := n, false;
    var i := 0;
    ghost var held, got := buffer[..len], [];
    assert held + got == held && s.received[s.consumed..s.consumed] == [];
    while i < rcv
      invariant 0 <= i <= rcv <= n && s.consumed + i <= |s.received|
      invariant s.Valid() && s.Quiet() && s.Accessing(false, i, n) && s.clock == old(s.clock) + i
      invariant old(s.Silent(i)) ==> s.received == old(s.received)
      invariant got == s.received[s.consumed..s.consumed + i] && buffer[..len + i] == held + got
      invariant body ==> i == rcv && Boundary(held + got) && NoBoundary(held + got, len + i)
      invariant !body ==> rcv == n && NoBoundary(held + got, len + i + 1)
    {
      body, got := ScanByte(s, buffer, len, i, n, held, got);
      i := i + 1;
      rcv := if body then i else n;
    }
    s.IdleNow(false, i, n);
  }

  /** One byte of the scan: is an empty line complete behind it? */
  method ScanByte(s: Socket, buffer: array<byte>, len: nat, i: nat, ghost n: nat, ghost held: seq<byte>, ghost got: seq<byte>)
    returns (body: bool, ghost more: seq<byte>)
    requires s.Valid() && s.Accessing(false, i, n) && i < n && len + i < buffer.Length && |held| == len
    requires s.consumed + i <= |s.received| && got == s.received[s.consumed..s.consumed + i]
    requires buffer[..len + i] == held + got && NoBoundary(held + got, len + i + 1)
    modifies s, buffer
    ensures s.Valid() && s.Quiet() && s.Accessing(false, i + 1, n) && s.clock == old(s.clock) + 1
    ensures s.At(old(s.clock)) == [] ==> s.received == old(s.received)
    ensures s.consumed + i + 1 <= |s.received| && more == s.received[s.consumed..s.consumed + i + 1]
    ensures buffer[..len + i + 1] == held + more
    ensures (body <==> Boundary(held + more)) && NoBoundary(held + more, len + i + 1)
    ensures !body ==> NoBoundary(held + more, len + i + 2)
  {
    hide Socket.ValidRx, Socket.ValidTx, Socket.Accessing, Boundary, NoBoundary, AtBoundary;
    ghost var earlier := s.received;
    ReadInto(s, buffer, len + i, i, n);
    ghost var b := s.received[s.consumed + i];
    Grown(earlier, s.received, s.consumed, i);
    LongerScan(held + got, b);
    Longer(held, got, b);
    more := got + [b];
    body := AtBoundary(buffer, len + i + 1);
  }

  lemma Longer(held: seq<byte>, got: seq<byte>, b: byte)
    ensures (held + got) + [b] == held + (got + [b])
  {
  }

  /** The memcmp against the empty line's four bytes. */
  predicate AtBoundary(buffer: array<byte>, end: nat)
    requires end <= buffer.Length
    reads buffer
    ensures AtBoundary(buffer, end) <==> Boundary(buffer[..end])
  {
    && end >= 4 && buffer[end - 4] == CR && buffer[end - 3] == LF
    && buffer[end - 2] == CR && buffer[end - 1] == LF
  }

  lemma LongerScan(h: seq<byte>, b: byte)
    requires NoBoundary(h, |h| + 1)
    ensures NoBoundary(h + [b], |h| + 1)
    ensures !Boundary(h + [b]) ==> NoBoundary(h + [b], |h| + 2)
  {
    var g := h + [b];
    forall j | 0 <= j < |h| + 1 ensures !Boundary(g[..j]) {
      assert g[..j] == h[..j];
    }
    assert g[..|g|] == g;
  }

  /** The next receive request will grant exactly two bytes: they have arrived, or the ring ends behind them. */
  ghost predicate TwoBytesIn(s: Socket)
    reads s
  {
    s.Valid() && s.command == Idle && s.Silent(5) && s.Granted(false) == 2
  }

  /** At the next moment a pending command ends and a response comes in, as a whole and in one stretch of the ring, and
      then nothing happens while the size register is read. */
  ghost predicate Responds(s: Socket)
    reads s
  {
    && s.Valid() && s.connected && !s.Pending() && Disconnection !in s.At(s.clock)
    && s.Unread() == 0 && s.Response(s.clock) != []
    && s.rxSize as int + |s.Response(s.clock)| <= s.rxWindow.size
    && s.rxWindow.Cell(s.consumed) + |s.Response(s.clock)| <= s.rxWindow.basis + s.rxWindow.size
    && s.Quietly(s.clock + 1, 4)
  }

  /** The receive request: it grants a response that has just come in as a whole. */
  method Request(s: Socket) returns (n: word)
    requires s.Valid()
    modifies s
    ensures s.Valid() && s.Evolved() && (n > 0 ==> s.Accessing(false, 0, n) && s.clock >= old(s.clock) + 2)
    ensures s.clock > old(s.clock)
    ensures old(TwoBytesIn(s)) ==> n == 2
    ensures old(Responds(s)) ==>
              && s.received == old(s.received) + s.Response(old(s.clock))
              && n > 0 && n as int == |s.Response(old(s.clock))| && s.clock == old(s.clock) + 5
  {
    hide Socket.ValidRx, Socket.ValidTx, Socket.Accessing;
    s.DrainedIsEmpty();
    n := s.DataRequest(false);
    s.DrainedIsEmpty();
  }

  lemma HeaderUnique(h: seq<byte>, data: seq<byte>, m: nat)
    requires Header(h) && h <= data && m <= |data|
    ensures Header(data[..m]) ==> m == |h|
    ensures NoBoundary(data[..m], m + 1) ==> m < |h|
  {
    hide Boundary;
    var d := data[..m];
    assert h == data[..|h|];
    if |h| <= m {
      assert d[..|h|] == h;
    } else {
      assert h[..m] == d;
    }
  }

  lemma HeaderLength(h: seq<byte>)
    ensures Header(h) ==> |h| >= 4
  {
  }

  /** The part of a turn behind a grant of `n` bytes. */
  method TakePiece(s: Socket, buffer: array<byte>, len: nat, n: word) returns (rcv: nat, body: bool)
    requires s.Valid() && 0 < n && s.Accessing(false, 0, n)
    requires len <= buffer.Length && NoBoundary(buffer[..len], len + 1)
    modifies s, buffer
    ensures s.Valid() && s.Linked() && s.staged == old(s.staged) && old(s.received) <= s.received
    ensures s.consumed == old(s.consumed) + rcv <= |s.received| && len + rcv <= buffer.Length
    ensures buffer[..len + rcv] == old(buffer[..len]) + s.received[old(s.consumed)..s.consumed]
    ensures if body then Header(buffer[..len + rcv]) else NoBoundary(buffer[..len + rcv], len + rcv + 1)
    ensures s.command == Recv && s.commits == old(s.commits) + [s.consumed]
    ensures s.rxWindow == old(s.rxWindow) && rcv <= n && (!body ==> rcv == if n < buffer.Length - len then n else buffer.Length - len)
    ensures s.clock == old(s.clock) + rcv && (old(s.Silent(rcv)) ==> s.received == old(s.received))
  {
    hide Socket.ValidRx, Socket.ValidTx, Socket.Accessing, Boundary, NoBoundary, Header;
    rcv, body := n, false;
    if rcv > buffer.Length - len {
      s.Fewer(false, rcv, buffer.Length - len);
      rcv := buffer.Length - len;
    }
    if rcv > 0 {
      rcv, body := ScanPiece(s, buffer, len, rcv);
    } else {
      assert buffer[..len + rcv] == buffer[..len] + s.received[s.consumed..s.consumed];
    }
    s.DataCommit(false, rcv);
  }

  /** One turn of the response loop. `more` is false once the connection was seen closed with
      nothing granted. */
  method ReceiveTurn(s: Socket, buffer: array<byte>, len: nat) returns (more: bool, rcv: nat, body: bool)
    requires s.Valid() && len <= buffer.Length && NoBoundary(buffer[..len], len + 1)
    modifies s, buffer
    ensures s.Valid() && s.Linked() && s.staged == old(s.staged) && old(s.received) <= s.received
    ensures s.consumed == old(s.consumed) + rcv <= |s.received| && len + rcv <= buffer.Length
    ensures buffer[..len + rcv] == old(buffer[..len]) + s.received[old(s.consumed)..s.consumed]
    ensures if body then Header(buffer[..len + rcv]) && s.command == Recv else NoBoundary(buffer[..len + rcv], len + rcv + 1)
    ensures s.commits == old(s.commits) + [s.consumed] || (s.commits == old(s.commits) && rcv == 0)
    ensures !more ==> rcv == 0 && !body && s.commits == old(s.commits) && !s.connected
    ensures s.rxWindow == old(s.rxWindow) && s.clock >= old(s.clock) + 2
    ensures old(Responds(s)) ==>
              && more && old(s.received) + s.Response(old(s.clock)) <= s.received && s.clock == old(s.clock) + 5 + rcv
              && (s.Quietly(old(s.clock) + 5, rcv) ==> s.received == old(s.received) + s.Response(old(s.clock)))
              && (body || rcv == if |s.Response(old(s.clock))| < buffer.Length - len then |s.Response(old(s.clock))| else buffer.Length - len)
    ensures old(TwoBytesIn(s)) && len + 2 <= buffer.Length && len < 2 ==> more && rcv == 2
  {
    hide Socket.ValidRx, Socket.ValidTx, Socket.Accessing, Boundary, NoBoundary, Header, Responds, TwoBytesIn;
    more, body := true, false;
    rcv := Request(s);
    if rcv == 0 {
      s.Environment();
      more := s.connected;
      return;
    }
    rcv, body := TakePiece(s, buffer, len, rcv);
    HeaderLength(buffer[..len + rcv]);
  }

  /** The response loop: on success the committed bytes are exactly the header, held at the start of
      the buffer, so that the next byte of the stream is the first byte of the body. A response of which a turn
      has left exactly two bytes in the buffer is refused; the first turn does so if two bytes have arrived. There
      is no other failure but a closed connection and the abort key; a response that begins with the header `h` and
      comes in as a whole is received. */
  method ReceiveHeader(s: Socket, buffer: array<byte>, polls: nat, ghost h: seq<byte>, ghost rest: seq<byte>)
    returns (ok: bool, len: nat)
    requires s.Valid()
    modifies s, buffer
    ensures s.Valid() && s.Linked() && s.staged == old(s.staged) && old(s.received) <= s.received
    ensures old(s.consumed) <= s.consumed <= |s.received| && len <= buffer.Length && old(s.commits) <= s.commits
    ensures buffer[..len] == s.received[old(s.consumed)..s.consumed]
    ensures ok ==> Header(buffer[..len]) && s.command == Recv
    ensures old(s.consumed) + POINTER_SIZE in s.commits[|old(s.commits)|..] ==> !ok && len == POINTER_SIZE
    ensures polls > 0 && buffer.Length >= POINTER_SIZE && old(TwoBytesIn(s)) ==> !ok && len == POINTER_SIZE
    ensures s.rxWindow == old(s.rxWindow)
    ensures !ok ==> !s.connected || s.clock >= old(s.clock) + 2 * polls || len == POINTER_SIZE
    ensures polls > 0 && old(Responds(s)) && Begins(s, old(s.clock), h, rest) && |h| <= buffer.Length ==>
              && ok && len == |h| && s.received == old(s.received) + (h + rest) && s.clock == old(s.clock) + 5 + |h|
  {
    hide Socket.ValidRx, Socket.ValidTx, Boundary, NoBoundary, Header, TwoBytesIn, Responds, Begins;
    var poll := 0;
    ok, len := false, 0;
    EmptyScan();
    ghost var start, refused := s.consumed, TwoBytesIn(s);
    ghost var answered := Responds(s) && Begins(s, s.clock, h, rest) && |h| <= buffer.Length;
    LongEnough(s, s.clock, h, rest);
    while !ok
      invariant s.Valid() && s.Linked() && s.staged == old(s.staged) && old(s.received) <= s.received && start + len == s.consumed
      invariant old(s.commits) <= s.commits && start + POINTER_SIZE !in s.commits[|old(s.commits)|..]
      invariant len != POINTER_SIZE && s.rxWindow == old(s.rxWindow) && s.clock >= old(s.clock) + 2 * poll
      invariant poll == 0 ==> s.received == old(s.received) && s.clock == old(s.clock) && s.consumed == start
      invariant answered ==>
                  if poll == 0 then Responds(s)
                  else ok && len == |h| && s.received == old(s.received) + (h + rest) && s.clock == old(s.clock) + 5 + |h|
      invariant if poll == 0 then !ok && len == 0 && TwoBytesIn(s) == refused else buffer.Length < POINTER_SIZE || !refused
      invariant start <= s.consumed <= |s.received| && len <= buffer.Length && poll <= polls
      invariant buffer[..len] == s.received[start..s.consumed]
      invariant if ok then Header(buffer[..len]) && s.command == Recv else NoBoundary(buffer[..len], len + 1)
      decreases polls - poll, !ok
    {
      if poll == polls { return; }
      poll := poll + 1;
      var before := len;
      var more;
      more, len, ok := HeaderTurn(s, buffer, len, start, h, rest);
      if !more { return; }
      if len > before && len == POINTER_SIZE { return false, len; }
    }
  }

  /** A turn of the loop, which began at stream position `start`. */
  method HeaderTurn(s: Socket, buffer: array<byte>, len: nat, ghost start: nat, ghost h: seq<byte>, ghost rest: seq<byte>)
    returns (more: bool, end: nat, ok: bool)
    requires s.Valid() && start + len == s.consumed <= |s.received| && len <= buffer.Length
    requires buffer[..len] == s.received[start..s.consumed] && NoBoundary(buffer[..len], len + 1)
    modifies s, buffer
    ensures s.Valid() && s.Linked() && s.staged == old(s.staged) && old(s.received) <= s.received && s.rxWindow == old(s.rxWindow)
    ensures len <= end <= buffer.Length && start + end == s.consumed <= |s.received|
    ensures buffer[..end] == s.received[start..s.consumed] && s.clock >= old(s.clock) + 2
    ensures if ok then Header(buffer[..end]) && s.command == Recv else NoBoundary(buffer[..end], end + 1)
    ensures s.commits == old(s.commits) + [s.consumed] || (s.commits == old(s.commits) && end == len)
    ensures !more ==> end == len && s.commits == old(s.commits) && !s.connected && !ok
    ensures old(TwoBytesIn(s)) && len == 0 && buffer.Length >= POINTER_SIZE ==> more && end == POINTER_SIZE
    ensures old(Responds(s)) && len == 0 && Begins(s, old(s.clock), h, rest) && |h| <= buffer.Length ==>
              && more && ok && end == |h| && s.received == old(s.received) + (h + rest) && s.clock == old(s.clock) + 5 + |h|
  {
    hide Socket.ValidRx, Socket.ValidTx, Boundary, NoBoundary, Header, TwoBytesIn, Responds;
    ghost var earlier, c := s.received, s.consumed;
    ghost var answered := Responds(s) && len == 0 && Begins(s, s.clock, h, rest) && |h| <= buffer.Length;
    AllRead(s);
    var rcv;
    more, rcv, ok := ReceiveTurn(s, buffer, len);
    Joined(earlier, s.received, start, c, rcv);
    if answered {
      ghost var data := s.received[start..];
      Cut(s.received, start, rcv);
      assert h <= data by { Cut(s.received, start, |h|); BeginsWith(earlier, h, rest, s.received); }
      HeaderUnique(h, data, rcv);
    }
    HeaderLength(buffer[..len + rcv]);
    end := len + rcv;
  }

  lemma AllRead(s: Socket)
    ensures Responds(s) ==> s.consumed == |s.received|
  {
    if Responds(s) {
      s.DrainedIsEmpty();
    }
  }

  lemma Cut(received: seq<byte>, start: nat, m: nat)
    requires start + m <= |received|
    ensures received[start..start + m] == received[start..][..m]
  {
  }

  lemma BeginsWith(earlier: seq<byte>, h: seq<byte>, rest: seq<byte>, later: seq<byte>)
    requires earlier + (h + rest) <= later
    ensures h <= later[|earlier|..]
  {
  }

  /** The start of any response, cut behind its first two bytes. */
  method CutBehindTwo(x: byte, y: byte, buffer: array<byte>, polls: nat) returns (s: Socket, ok: bool)
    requires polls > 0 && buffer.Length >= POINTER_SIZE
    modifies buffer
    ensures fresh(s) && [x, y] <= s.received && !ok
  {
    hide Socket.ValidRx, Socket.ValidTx, Socket.Granted;
    s := TwoArrived(x, y, []);
    var len;
    ok, len := ReceiveHeader(s, buffer, polls, [], []);
  }

  lemma EmptyScan()
    ensures NoBoundary([], 1)
  {
  }

  lemma Joined(earlier: seq<byte>, later: seq<byte>, start: nat, c: nat, n: nat)
    requires earlier <= later && start <= c <= |earlier| && c + n <= |later|
    ensures earlier[start..c] + later[c..c + n] == later[start..c + n]
  {
  }

  /** The status line that is asked for; its HTTP version digit does not matter. */
  predicate StatusOk(h: seq<byte>) {
    |h| >= |OK_STATUS| && forall i | 0 <= i < |OK_STATUS| && i != 7 :: h[i] == OK_STATUS[i]
  }

  /** The comparison in the buffer, with the digit overwritten, is one of the header, however short this is. */
  lemma StatusCompared(b: seq<byte>, h: seq<byte>)
    requires |b| >= |OK_STATUS| && Boundary(h) && |h| <= |b| && b[7] == 0x30
    requires forall i | 0 <= i < |h| && i != 7 :: b[i] == h[i]
    ensures b[..|OK_STATUS|] == OK_STATUS <==> StatusOk(h)
  {
    StatusAt(b);
    if |h| < |OK_STATUS| {
      var end := h[|h| - 4..];
      assert h[|h| - 4] == end[0] == CR && h[|h| - 3] == end[1] == LF;
    }
  }

  lemma StatusAt(b: seq<byte>)
    requires |b| >= |OK_STATUS|
    ensures b[..|OK_STATUS|] == OK_STATUS <==> forall i | 0 <= i < |OK_STATUS| :: b[i] == OK_STATUS[i]
  {
    var c := b[..|OK_STATUS|];
    assert forall i | 0 <= i < |OK_STATUS| :: c[i] == b[i];
  }

  /** At moment m the pending command ends, a header and what follows it come in, and then nothing happens while the
      header is read. */
  ghost predicate Replies(s: Socket, m: nat, h: seq<byte>, rest: seq<byte>) {
    && Completion in s.At(m) && Disconnection !in s.At(m) && s.Response(m) == h + rest
    && Header(h) && s.Quietly(m + 1, 4 + |h|)
  }

  /** There is room for them in one stretch of the ring, from this stream position on. */
  predicate Fits(w: Window, position: nat, data: seq<byte>) {
    w.size > 0 && data != [] && |data| <= w.size && w.Cell(position) + |data| <= w.basis + w.size
  }

  /** The chip lets the request be staged, sends it, and then the response, header and rest, comes in as a whole. */
  ghost predicate Answers(s: Socket, selector: seq<byte>, h: seq<byte>, rest: seq<byte>)
    reads s
  {
    && Undisturbed(s, selector) && s.connected && s.Unread() == 0
    && Replies(s, s.clock + 5 + |selector|, h, rest) && Fits(s.rxWindow, s.consumed, h + rest)
  }

  lemma ToBeAnswered(s: Socket, selector: seq<byte>, h: seq<byte>, rest: seq<byte>)
    requires s.Valid() && Answers(s, selector, h, rest)
    ensures Undisturbed(s, selector) && s.connected && s.consumed == |s.received|
    ensures Replies(s, s.clock + 5 + |selector|, h, rest) && Fits(s.rxWindow, s.consumed, h + rest)
    ensures s.Open(s.clock, s.clock + 5 + |selector|)
  {
    s.DrainedIsEmpty();
  }

  lemma Answered(s: Socket, h: seq<byte>, rest: seq<byte>)
    requires s.Valid() && s.connected && s.command == Send && s.consumed == |s.received|
    requires Replies(s, s.clock, h, rest) && Fits(s.rxWindow, s.consumed, h + rest)
    ensures Responds(s) && Begins(s, s.clock, h, rest)
  {
    s.DrainedIsEmpty();
  }

  /** The request and the header. */
  method Exchange(s: Socket, selector: seq<byte>, buffer: array<byte>, sendPolls: nat, receivePolls: nat,
                  ghost h: seq<byte>, ghost rest: seq<byte>) returns (headed: bool, len: nat)
    requires s.Valid()
    modifies s, buffer
    ensures s.Valid() && s.Linked() && old(s.received) <= s.received && s.rxWindow == old(s.rxWindow)
    ensures old(s.consumed) + len == s.consumed <= |s.received| && len <= buffer.Length
    ensures buffer[..len] == s.received[old(s.consumed)..s.consumed]
    ensures headed ==> s.transmitted == old(s.staged) + selector && s.command == Recv && Header(buffer[..len])
    ensures !headed ==> || !s.connected || len == POINTER_SIZE
                        || s.clock >= old(s.clock) + 2 * sendPolls || s.clock >= old(s.clock) + 2 * receivePolls
    ensures old(Answers(s, selector, h, rest)) && |h| <= buffer.Length && sendPolls > 0 && receivePolls > 0 ==>
              && headed && len == |h| && s.received == old(s.received) + (h + rest)
              && s.clock == old(s.clock) + 5 + |selector| + 5 + |h|
  {
    hide Socket.ValidRx, Socket.ValidTx, Boundary, NoBoundary, Header, Undisturbed, Responds, Answers, Replies, Fits, Begins;
    hide Socket.Unread, Socket.Response, Socket.Pending, TwoBytesIn;
    len := 0;
    ghost var answers := Answers(s, selector, h, rest);
    if answers { ToBeAnswered(s, selector, h, rest); }
    assert s.received[s.consumed..s.consumed] == buffer[..0];
    headed := SendRequest(s, selector, sendPolls);
    if !headed { return; }
    if answers && sendPolls > 0 { Answered(s, h, rest); }
    headed, len := ReceiveHeader(s, buffer, receivePolls, h, rest);
    if headed { s.NothingPending(); }
  }

  /** w5100_http_open after the connection is made. On success the selector was transmitted completely
      and in order, and the committed bytes end with the first empty line of the response. It succeeds if and only
      if the header was received and carries the status line asked for; the header is not received only if the
      connection was closed, the abort key was pressed, or two bytes were left in the buffer; and it is received
      if it comes in as a whole. */
  method HttpOpen(s: Socket, selector: seq<byte>, buffer: array<byte>, sendPolls: nat, receivePolls: nat,
                  ghost h: seq<byte>, ghost rest: seq<byte>) returns (ok: bool, ghost headed: bool)
    requires s.Valid() && buffer.Length >= |OK_STATUS|
    modifies s, buffer
    ensures s.Valid() && s.Linked() && old(s.received) <= s.received && old(s.consumed) <= s.consumed <= |s.received|
    ensures s.rxWindow == old(s.rxWindow)
    ensures headed ==> s.transmitted == old(s.staged) + selector && s.command == Recv
    ensures headed ==> Header(s.received[old(s.consumed)..s.consumed])
    ensures ok <==> headed && StatusOk(s.received[old(s.consumed)..s.consumed])
    ensures !headed ==> || !s.connected || s.consumed == old(s.consumed) + POINTER_SIZE
                        || s.clock >= old(s.clock) + 2 * sendPolls || s.clock >= old(s.clock) + 2 * receivePolls
    ensures old(Answers(s, selector, h, rest)) && |h| <= buffer.Length && sendPolls > 0 && receivePolls > 0 ==>
              && headed && s.received == old(s.received) + (h + rest) && s.consumed == old(s.consumed) + |h|
              && s.clock == old(s.clock) + 5 + |selector| + 5 + |h|
    ensures ok ==> buffer[..|OK_STATUS|] == OK_STATUS
    ensures ok ==> forall i | 0 <= i < s.consumed - old(s.consumed) && i < buffer.Length && i != 7 ::
                     buffer[i] == s.received[old(s.consumed) + i]
  {
    hide Socket.ValidRx, Socket.ValidTx, Boundary, NoBoundary, Header, StatusOk, Answers, Socket.Unread;
    var len;
    ok, len := Exchange(s, selector, buffer, sendPolls, receivePolls, h, rest);
    headed := ok;
    if !ok { return; }
    ok := CheckStatus(buffer, len);
    assert forall i | 0 <= i < len :: s.received[old(s.consumed)..s.consumed][i] == s.received[old(s.consumed) + i];
  }

  /** The version digit is overwritten, and the status compared. */
  method CheckStatus(buffer: array<byte>, ghost len: nat) returns (ok: bool)
    requires len <= buffer.Length && buffer.Length >= |OK_STATUS| && Header(buffer[..len])
    modifies buffer
    ensures ok <==> old(StatusOk(buffer[..len]))
    ensures ok ==> buffer[..|OK_STATUS|] == OK_STATUS
    ensures forall i | 0 <= i < len && i != 7 :: buffer[i] == old(buffer[..len])[i]
  {
    hide Boundary, StatusOk, NoBoundary;
    ghost var h := buffer[..len];
    buffer[7] := 0x30;
    ok := buffer[..|OK_STATUS|] == OK_STATUS;
    StatusCompared(buffer[..], h);
    assert buffer[..][..|OK_STATUS|] == buffer[..|OK_STATUS|];
  }
}
