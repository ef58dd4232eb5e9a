/** The two writers of wget65.c: the received stream goes to a file, or track by track to a disk. */
module Wget65 {
  import opened Bytes
  import opened W5100

  const BUFFER: nat := 0x1000
  const PAGE: nat := 0x100
  const BLOCK: nat := 0x200

  /** A buffer with `bytes` written over it from `at` on. */
  function Patch(b: seq<byte>, at: nat, bytes: seq<byte>): (r: seq<byte>)
    requires at + |bytes| <= |b|
    ensures |r| == |b|
  {
    b[..at] + bytes + b[at + |bytes|..]
  }

  lemma PatchNext(b: seq<byte>, at: nat, bytes: seq<byte>, x: byte)
    requires at + |bytes| < |b|
    ensures Patch(b, at, bytes)[at + |bytes| := x] == Patch(b, at, bytes + [x])
  {
  }

  lemma PatchNothing(b: seq<byte>, at: nat)
    requires at <= |b|
    ensures Patch(b, at, []) == b
  {
  }

  /** The copy loop of both writers. The chip goes on working between two reads. */
  method ReceiveBytes(s: Socket, buffer: array<byte>, at: nat, n: nat)
    requires s.Valid() && (n > 0 ==> s.Accessing(false, 0, n))
    requires at + n <= buffer.Length
    modifies s, buffer
    ensures s.Valid() && s.Evolved() && s.consumed + n <= |s.received| && s.clock == old(s.clock) + n
    ensures old(s.Silent(n)) ==> s.received == old(s.received)
    ensures buffer[..] == Patch(old(buffer[..]), at, s.received[s.consumed..s.consumed + n])
  {
    hide Socket.ValidRx, Socket.ValidTx, Patch;
    var i := 0;
    ghost var before, got := buffer[..], [];
    PatchNothing(before, at);
    while i < n
      invariant 0 <= i <= n && |got| == i
      invariant old(s.Silent(n)) ==> s.received == old(s.received)
      invariant s.Valid() && s.Evolved() && s.clock == old(s.clock) + i && (n > 0 ==> s.Accessing(false, i, n))
      invariant s.consumed + i <= |s.received| && got == s.received[s.consumed..s.consumed + i]
      invariant buffer[..] == Patch(before, at, got)
    {
      got := ReceiveByte(s, buffer, at, i, n, before, got);
      i := i + 1;
    }
  }

  /** One byte of the copy loop. */
  method ReceiveByte(s: Socket, buffer: array<byte>, at: nat, i: nat, ghost n: nat, ghost before: seq<byte>,
                     ghost got: seq<byte>) returns (ghost more: seq<byte>)
    requires s.Valid() && s.Accessing(false, i, n) && i < n && at + i < buffer.Length
    requires s.consumed + i <= |s.received| && got == s.received[s.consumed..s.consumed + i]
    requires at + i <= |before| && buffer[..] == Patch(before, at, got)
    modifies s, buffer
    ensures s.Valid() && s.Evolved() && s.clock == old(s.clock) + 1 && s.Accessing(false, i + 1, n)
    ensures s.At(old(s.clock)) == [] ==> s.received == old(s.received)
    ensures s.consumed + i + 1 <= |s.received| && more == s.received[s.consumed..s.consumed + i + 1]
    ensures buffer[..] == Patch(before, at, more)
  {
    hide Socket.ValidRx, Socket.ValidTx, Socket.Accessing, Patch;
    ghost var earlier := s.received;
    var b := s.NextByte(i, n);
    Grown(earlier, s.received, s.consumed, i);
    PatchNext(before, at, got, b);
    buffer[at + i] := b;
    more := got + [b];
  }

  /** The next receive turn will see the connection closed with nothing granted: its request finds a command
      pending, or the size still zero, and the peer closes before the status is read. */
  ghost predicate EndsUnread(s: Socket)
    reads s
  {
    || (s.Pending() && !(s.connected && s.Open(s.clock, s.clock + 2)))
    || (s.command == Idle && s.rxSize == 0 && s.Silent(3) && !(s.connected && s.Open(s.clock, s.clock + 4)))
  }

  /** The bytes that arrive behind an empty request and before the status is read. */
  ghost function LateBytes(s: Socket): seq<byte>
    reads s
  {
    if s.connected && s.command == Idle && s.rxSize == 0 && s.Silent(3) && |s.Response(s.clock + 3)| <= s.rxWindow.size
    then s.Response(s.clock + 3) else []
  }

  /** At the next moment a pending command ends, and no byte comes in; then nothing happens while the bytes that are left,
      in one stretch of the ring, are read. */
  ghost predicate Calm(s: Socket)
    reads s
  {
    && s.Valid() && !s.Pending() && s.Response(s.clock) == [] && s.rxSize <= s.rxWindow.size
    && s.rxWindow.Cell(s.consumed) + s.Unread() <= s.rxWindow.basis + s.rxWindow.size
    && s.Unread() >= 0 && s.Quietly(s.clock + 1, 4 + s.Unread())
  }

  /** The request and the status check of a turn. */
  method Ask(s: Socket) returns (cont: bool, n: word)
    requires s.Valid() && s.command != Send
    modifies s
    ensures s.Valid() && s.Evolved() && s.command != Send
    ensures n > 0 ==> cont && s.Accessing(false, 0, n)
    ensures !cont ==> !s.connected && s.clock == old(s.clock) + if old(s.Pending()) then 2 else 4
    ensures !cont && old(!s.connected && !s.Pending()) ==> s.Drained()
    ensures old(EndsUnread(s)) ==> !cont && old(s.received) + old(LateBytes(s)) <= s.received
    ensures s.clock >= old(s.clock) + 2 && (n == 0 ==> (cont <==> s.connected))
    ensures old(Calm(s)) ==> n as int == old(s.Unread())
    ensures old(Calm(s)) && n > 0 ==> s.received == old(s.received) && s.clock == old(s.clock) + 5 && s.Silent(n)
    ensures old(Calm(s)) && n == 0 && Disconnection in s.At(old(s.clock)) ==> !cont && s.received == old(s.received)
  {
    hide Socket.ValidTx, Socket.Accessing;
    s.DrainedIsEmpty();
    cont := true;
    n := s.DataRequest(false);
    s.DrainedIsEmpty();
    if n == 0 {
      s.Environment();
      cont := s.connected;
    }
  }

  /** One turn of either writer's receive loop: `room` bytes may be taken into the buffer from `at`
      on. `cont` is false once the connection was seen closed with nothing granted. If it was closed before
      the request, and the request found no command pending, then nothing is left. */
  method Fetch(s: Socket, buffer: array<byte>, at: nat, room: nat) returns (cont: bool, rcv: nat)
    requires s.Valid() && s.command != Send && at + room <= buffer.Length
    modifies s, buffer
    ensures s.Valid() && s.command != Send && old(s.received) <= s.received && s.Linked()
    ensures rcv <= room && s.consumed == old(s.consumed) + rcv <= |s.received|
    ensures buffer[..] == Patch(old(buffer[..]), at, s.received[old(s.consumed)..s.consumed])
    ensures !cont ==> rcv == 0 && !s.connected && s.clock == old(s.clock) + if old(s.Pending()) then 2 else 4
    ensures !cont && old(!s.connected && !s.Pending()) ==> s.Drained()
    ensures old(EndsUnread(s)) ==> !cont && old(s.received) + old(LateBytes(s)) <= s.received
    ensures s.clock >= old(s.clock) + 2 && (room > 0 ==> (cont <==> rcv > 0 || s.connected))
    ensures old(Calm(s)) && 0 < old(s.Unread()) <= room ==>
              rcv == old(s.Unread()) && s.received == old(s.received) && s.clock == old(s.clock) + 5 + rcv && s.command == Recv
    ensures old(Calm(s)) && old(s.Unread()) == 0 && Disconnection in s.At(old(s.clock)) ==> !cont && s.received == old(s.received)
    ensures s.rxWindow == old(s.rxWindow)
    ensures old(!s.connected) ==> s.received == old(s.received)
  {
    hide Socket.ValidRx, Socket.ValidTx, Socket.Accessing, Patch, EndsUnread, LateBytes, Socket.Pending, Calm, Socket.Unread;
    cont, rcv := Ask(s);
    if rcv > room {
      s.Fewer(false, rcv, room);
      rcv := room;
    }
    PatchNothing(buffer[..], at);
    assert s.received[s.consumed..s.consumed] == [];
    if cont && rcv == 0 { return; }
    ReceiveBytes(s, buffer, at, rcv);
    s.DataCommit(false, rcv);
  }

  lemma Appended(file: seq<byte>, before: seq<byte>, len: nat, after: seq<byte>, n: nat,
                 earlier: seq<byte>, stream: seq<byte>, start: nat, c: nat)
    requires start <= c <= c + n <= |stream| && len + n <= |before| && c <= |earlier| && earlier <= stream
    requires file + before[..len] == earlier[start..c]
    requires after == Patch(before, len, stream[c..c + n])
    ensures file + after[..len + n] == stream[start..c + n]
  {
    assert after[..len + n] == before[..len] + stream[c..c + n];
    assert stream[start..c] == earlier[start..c];
    assert file + after[..len + n] == (file + before[..len]) + stream[c..c + n];
  }

  /** The bytes that are left are read, fewer than the buffer has room for, and the peer closes while they are. */
  ghost predicate Ends(s: Socket)
    reads s
  {
    && Calm(s) && 0 < s.Unread() < BUFFER && Closes(s, s.clock + 5 + s.Unread())
  }

  /** At moment m a pending command ends, and the peer closes without another byte. */
  ghost predicate Closes(s: Socket, m: int) {
    m >= 0 && Completion in s.At(m) && Disconnection in s.At(m) && s.Response(m) == [] && s.Quietly(m + 1, 4)
  }

  lemma CalmClosing(s: Socket)
    requires s.Valid() && s.command == Recv && s.consumed == |s.received| && Closes(s, s.clock)
    ensures Calm(s) && s.Unread() == 0 && Disconnection in s.At(s.clock)
  {
    s.DrainedIsEmpty();
  }

  lemma CalmFacts(s: Socket)
    requires Ends(s)
    ensures Calm(s) && 0 < s.Unread() < BUFFER && Closes(s, s.clock + 5 + s.Unread()) && s.consumed + s.Unread() == |s.received|
  {
    s.DrainedIsEmpty();
  }

  /** write_file, with the abort key pressed at poll number `polls`. What reaches the file is a prefix
      of the received stream, in order, each byte once; at a regular end it is everything committed,
      which is the whole stream if and only if the size register reads zero once the last command has ended.
      That is so if the connection was closed before the last request, made at moment `last`, and this request
      found no command pending; and it is so in a run in which the rest of the stream is there. It ends otherwise only
      with the abort key. */
  method WriteFile(s: Socket, buffer: array<byte>, polls: nat)
    returns (done: bool, file: seq<byte>, ghost last: nat, ghost pending: bool)
    requires s.Valid() && s.command != Send && buffer.Length == BUFFER
    modifies s, buffer
    ensures s.Valid() && s.Linked() && old(s.received) <= s.received && old(s.consumed) <= s.consumed <= |s.received|
    ensures file <= s.received[old(s.consumed)..s.consumed]
    ensures s.consumed - old(s.consumed) < |file| + BUFFER
    ensures done ==> file == s.received[old(s.consumed)..s.consumed]
    ensures done ==> (file == s.received[old(s.consumed)..] <==> s.Unread() == 0)
    ensures done ==> old(s.clock) <= last && s.clock == last + if pending then 2 else 4
    ensures done && pending ==> Completion !in s.At(last)
    ensures done && !pending && !(old(s.connected) && s.Open(old(s.clock), last)) ==> file == s.received[old(s.consumed)..]
    ensures polls > 0 && old(EndsUnread(s)) ==> done && file == [] && old(s.received) + old(LateBytes(s)) <= s.received
    ensures if done then !s.connected else s.clock >= old(s.clock) + 2 * polls
    ensures polls > 1 && old(Ends(s)) ==> done && s.received == old(s.received) && file == s.received[old(s.consumed)..]
  {
    hide Socket.ValidRx, Socket.ValidTx, Patch, EndsUnread, LateBytes, Calm, Ends, Closes, Socket.Unread;
    var cont, len, poll := true, 0, 0;
    ghost var start := s.consumed;
    ghost var late, unread := LateBytes(s), EndsUnread(s);
    ghost var ends, u := Ends(s) && polls > 1, s.Unread();
    if ends { CalmFacts(s); }
    file, done, last, pending := [], false, s.clock, false;
    while cont
      invariant s.Valid() && s.command != Send && s.Linked() && old(s.received) <= s.received
      invariant start <= s.consumed <= |s.received| && 0 <= len < BUFFER && 0 <= poll <= polls
      invariant file + buffer[..len] == s.received[start..s.consumed]
      invariant !cont ==> len == 0 && old(s.clock) <= last && s.clock == last + if pending then 2 else 4
      invariant !cont && pending ==> Completion !in s.At(last)
      invariant !cont && !pending && !(old(s.connected) && s.Open(old(s.clock), last)) ==> s.Drained()
      invariant poll == 0 ==> s.received == old(s.received)
      invariant if poll == 0 then cont && file == [] && len == 0 && LateBytes(s) == late && EndsUnread(s) == unread
                else unread ==> !cont && file == [] && old(s.received) + late <= s.received
      invariant s.clock >= old(s.clock) + 2 * poll && (!cont ==> !s.connected)
      invariant poll == 0 ==> s.clock == old(s.clock) && s.consumed == start
      invariant ends ==>
                  && s.received == old(s.received)
                  && (if poll == 0 then Calm(s) && s.Unread() == u
                      else if poll == 1 then cont && Calm(s) && s.Unread() == 0 && Disconnection in s.At(s.clock) && s.consumed == |s.received|
                      else !cont && s.consumed == |s.received|)
      decreases polls - poll, cont
    {
      if poll == polls { return; }
      poll := poll + 1;
      ghost var before, earlier, c := buffer[..], s.received, s.consumed;
      last, pending := s.clock, s.Pending();
      var rcv;
      cont, rcv := Fetch(s, buffer, len, BUFFER - len);
      Appended(file, before, len, buffer[..], rcv, earlier, s.received, start, c);
      if ends && poll == 1 { CalmClosing(s); }
      len := len + rcv;
      if cont && len < BUFFER { continue; }
      file := file + buffer[..len];
      len := 0;
    }
    done := true;
    s.DrainedIsEmpty();
  }

  /** A byte that has arrived is lost: behind the commit of the first byte, a command is still pending at the
      next request, and the peer closes before the status is read. */
  method LostBehindCommit(h: byte, x: byte, buffer: array<byte>, polls: nat) returns (s: Socket, done: bool, file: seq<byte>)
    requires polls > 0 && buffer.Length == BUFFER
    modifies buffer
    ensures fresh(s) && done && file == [] && [h, x] <= s.received
  {
    hide Socket.ValidRx, Socket.ValidTx;
    s := TwoArrived(h, x, [[], [Disconnection]]);
    s.DataCommit(false, 1);
    assert s.At(1) == [] && s.At(2) == [Disconnection];
    ghost var last, pending;
    done, file, last, pending := WriteFile(s, buffer, polls);
  }

  /** A byte that arrives behind an empty request is lost if the peer closes before the status is read. */
  method LostBehindRequest(x: byte, buffer: array<byte>, polls: nat) returns (s: Socket, done: bool, file: seq<byte>)
    requires polls > 0 && buffer.Length == BUFFER
    modifies buffer
    ensures fresh(s) && done && file == [] && [x] <= s.received
  {
    hide Socket.ValidRx, Socket.ValidTx, Config, EndsUnread, LateBytes;
    ConfigOk(0x0a);
    s := new Socket(0x0a, 0x0a, [[], [], [], [Arrival(x), Disconnection]]);
    LateArrival(s, x);
    ghost var last, pending;
    done, file, last, pending := WriteFile(s, buffer, polls);
  }

  lemma LateArrival(s: Socket, x: byte)
    requires s.Valid() && s.connected && s.command == Idle && s.clock == 0 && s.received == [] && s.consumed == 0
    requires s.script == [[], [], [], [Arrival(x), Disconnection]]
    ensures EndsUnread(s) && LateBytes(s) == [x]
  {
    s.DrainedIsEmpty();
    var late := [Arrival(x), Disconnection];
    assert s.At(3) == late && late[1..] == [Disconnection] && Coming(late) == [x] + Coming(late[1..]);
  }

  // ----- Disk images: where a stream byte lands inside a track -----

  /** The skewing table. */
  function Skew(page: nat): (r: nat)
    requires page < 0x10
    ensures r < 0x10
  {
    if page == 0 || page == 0xf then page else 0xf - page
  }

  /** Offset in the track buffer of the `i`-th byte received for this track. */
  function Place(prodos: bool, i: nat): (r: nat)
    requires i < BUFFER
    ensures r < BUFFER
  {
    if prodos then i else PAGE * Skew(i / PAGE) + i % PAGE
  }

  // the entries of the table, page by page
  const SKEW: seq<nat> := [0x0, 0xe, 0xd, 0xc, 0xb, 0xa, 0x9, 0x8, 0x7, 0x6, 0x5, 0x4, 0x3, 0x2, 0x1, 0xf]

  /** The first and the last page keep their place, and the pages between them come in descending order. */
  lemma SkewDescends(p: nat, q: nat)
    requires p < q < 0x10
    ensures Skew(p) == SKEW[p] && Skew(q) == SKEW[q]
    ensures Skew(0) == 0 && Skew(0xf) == 0xf
    ensures 0 < p && q < 0xf ==> 0 < Skew(q) < Skew(p) < 0xf
  {
  }

  lemma SkewInvolution(page: nat)
    requires page < 0x10
    ensures Skew(Skew(page)) == page
  {
  }

  lemma PlaceInvolution(prodos: bool, i: nat)
    requires i < BUFFER
    ensures Place(prodos, Place(prodos, i)) == i
  {
    if !prodos {
      SkewInvolution(i / PAGE);
      var j := Place(prodos, i);
      assert j / PAGE == Skew(i / PAGE) && j % PAGE == i % PAGE;
    }
  }

  /** What a whole track holds on the disk: stream byte i is at Place(i). */
  function TrackImage(prodos: bool, track: seq<byte>): (r: seq<byte>)
    requires |track| == BUFFER
    ensures |r| == BUFFER
  {
    seq(BUFFER, j requires 0 <= j < BUFFER => track[Place(prodos, j)])
  }

  /** The disk image of the whole tracks of a stream. */
  function Image(prodos: bool, stream: seq<byte>): (r: seq<byte>)
    requires |stream| % BUFFER == 0
    ensures |r| == |stream|
  {
    if stream == [] then [] else TrackImage(prodos, stream[..BUFFER]) + Image(prodos, stream[BUFFER..])
  }

  lemma {:induction false} ImageAppend(prodos: bool, stream: seq<byte>, track: seq<byte>)
    requires |stream| % BUFFER == 0 && |track| == BUFFER
    ensures Image(prodos, stream + track) == Image(prodos, stream) + TrackImage(prodos, track)
  {
    if stream == [] {
      assert stream + track == track && track[..BUFFER] == track && track[BUFFER..] == [];
    } else {
      assert (stream + track)[..BUFFER] == stream[..BUFFER];
      assert (stream + track)[BUFFER..] == stream[BUFFER..] + track;
      ImageAppend(prodos, stream[BUFFER..], track);
    }
  }

  /** Byte i of track t of the stream is at Place(i) of track t of the image. */
  lemma {:induction false} ImageAt(prodos: bool, stream: seq<byte>, t: nat, i: nat)
    requires |stream| % BUFFER == 0 && BUFFER * t + BUFFER <= |stream| && i < BUFFER
    ensures Image(prodos, stream)[BUFFER * t + Place(prodos, i)] == stream[BUFFER * t + i]
  {
    hide Place;
    if t == 0 {
      PlaceInvolution(prodos, i);
    } else {
      ImageAt(prodos, stream[BUFFER..], t - 1, i);
    }
  }

  /** Skewing is its own inverse: writing an image of an image restores the stream, and the ProDOS
      order is the stream itself. */
  lemma {:induction false} ImageInvolution(prodos: bool, stream: seq<byte>)
    requires |stream| % BUFFER == 0
    ensures Image(prodos, Image(prodos, stream)) == stream
    ensures prodos ==> Image(prodos, stream) == stream
  {
    if stream != [] {
      var track := stream[..BUFFER];
      var image := TrackImage(prodos, track);
      forall j | 0 <= j < BUFFER ensures TrackImage(prodos, image)[j] == track[j] {
        PlaceInvolution(prodos, j);
      }
      assert TrackImage(prodos, image) == track;
      ImageInvolution(prodos, stream[BUFFER..]);
      assert Image(prodos, stream)[..BUFFER] == image;
      assert Image(prodos, stream)[BUFFER..] == Image(prodos, stream[BUFFER..]);
    }
  }

  // ----- write_device -----

  function RoundUp(len: nat): nat {
    (len + BLOCK - 1) / BLOCK * BLOCK
  }

  lemma RoundedUp(tracks: nat, len: nat)
    ensures RoundUp(BUFFER * tracks + len) == BUFFER * tracks + RoundUp(len)
  {
  }

  /** The blocks written for a last, short track of `len` bytes hold every one of them exactly when
      it fits into its first page or reaches into its last block. */
  lemma ShortTrackLands(len: nat)
    requires 0 < len < BUFFER
    ensures (forall i | 0 <= i < len :: Place(false, i) < RoundUp(len)) <==> len <= PAGE || len > BUFFER - BLOCK
  {
    if PAGE < len <= BUFFER - BLOCK {
      assert Place(false, PAGE) == 0xe00;
    }
  }

  /** The track buffer holds the first `len` bytes of a track, each at its place. */
  ghost predicate Filled(prodos: bool, buffer: seq<byte>, track: seq<byte>) {
    && |buffer| == BUFFER && |track| <= BUFFER
    && forall i | 0 <= i < |track| :: buffer[Place(prodos, i)] == track[i]
  }

  lemma FilledTrack(prodos: bool, buffer: seq<byte>, track: seq<byte>)
    requires Filled(prodos, buffer, track) && |track| == BUFFER
    ensures buffer == TrackImage(prodos, track)
  {
    forall j | 0 <= j < BUFFER ensures buffer[j] == track[Place(prodos, j)] {
      PlaceInvolution(prodos, j);
    }
  }

  lemma NothingFilled(prodos: bool, buffer: seq<byte>)
    requires |buffer| == BUFFER
    ensures Filled(prodos, buffer, [])
  {
  }

  /** Bytes that stay within a page (or any bytes, in ProDOS order) go to consecutive places, and
      nothing already placed is overwritten. */
  lemma FilledMore(prodos: bool, before: seq<byte>, track: seq<byte>, more: seq<byte>, after: seq<byte>)
    requires Filled(prodos, before, track) && |track| < BUFFER
    requires |more| <= Room(prodos, |track|)
    requires after == Patch(before, Place(prodos, |track|), more)
    ensures Filled(prodos, after, track + more)
  {
    hide Place, Room;
    var at, len := Place(prodos, |track|), |track|;
    forall i | 0 <= i < |track + more| ensures after[Place(prodos, i)] == (track + more)[i] {
      var to := Place(prodos, i);
      if i >= len {
        PlaceRun(prodos, len, i - len);
      } else if at <= to < at + |more| {
        PlaceRun(prodos, len, to - at);
        PlaceInjective(prodos, i, len + (to - at));
      }
    }
  }

  lemma PlaceInjective(prodos: bool, i: nat, j: nat)
    requires i < BUFFER && j < BUFFER && Place(prodos, i) == Place(prodos, j)
    ensures i == j
  {
    PlaceInvolution(prodos, i);
    PlaceInvolution(prodos, j);
  }

  function Room(prodos: bool, len: nat): (r: nat)
    requires len < BUFFER
    ensures Place(prodos, len) + r <= BUFFER && len + r <= BUFFER
  {
    if prodos then BUFFER - len else PAGE - len % PAGE
  }

  lemma PlaceRun(prodos: bool, len: nat, k: nat)
    requires len < BUFFER && k < Room(prodos, len)
    ensures Place(prodos, len + k) == Place(prodos, len) + k
  {
    if !prodos {
      assert (len + k) / PAGE == len / PAGE && (len + k) % PAGE == len % PAGE + k;
    }
  }

  lemma NextBlock(len: nat, blocks: nat)
    requires len <= BUFFER
    ensures RoundUp(len) <= BUFFER
    ensures if BLOCK * blocks < len then BLOCK * blocks + BLOCK <= RoundUp(len) else RoundUp(len) <= BLOCK * blocks
  {
  }

  datatype Outcome = Complete | Aborted | DiskFull

  /** The block loop: consecutive blocks from number `num` on, up to the disk's size. */
  method WriteBlocks(buffer: array<byte>, len: nat, disk0: seq<byte>, num0: nat, sectors: word)
    returns (ok: bool, disk: seq<byte>, num: nat)
    requires buffer.Length == BUFFER && len <= BUFFER && |disk0| == BLOCK * num0 && num0 <= sectors
    ensures ok ==> disk == disk0 + buffer[..RoundUp(len)] && |disk| == BLOCK * num
    ensures ok <==> |disk0| + RoundUp(len) <= BLOCK * sectors
    ensures |disk| <= BLOCK * sectors && disk0 <= disk
    ensures !ok ==> |disk| == BLOCK * sectors && |disk| - |disk0| <= BUFFER && disk == disk0 + buffer[..|disk| - |disk0|]
  {
    hide RoundUp;
    disk, num := disk0, num0;
    ghost var blocks := 0;
    NextBlock(len, 0);
    var i := 0;
    while i < len
      invariant i == BLOCK * blocks && i <= RoundUp(len) <= BUFFER
      invariant num == num0 + blocks <= sectors
      invariant disk == disk0 + buffer[..i]
      decreases BUFFER - i
    {
      NextBlock(len, blocks);
      if num >= sectors {
        return false, disk, num;
      }
      disk := disk + buffer[i..i + BLOCK];
      assert buffer[..i] + buffer[i..i + BLOCK] == buffer[..i + BLOCK];
      i, num, blocks := i + BLOCK, num + 1, blocks + 1;
    }
    NextBlock(len, blocks);
    ok := true;
  }

  /** The whole tracks of the stream, as an image. */
  ghost predicate TracksOnDisk(prodos: bool, disk: seq<byte>, stream: seq<byte>) {
    && |disk| == |stream| - |stream| % BUFFER
    && disk == Image(prodos, stream[..|disk|])
  }

  /** The disk after a regular end: the image of the whole tracks, then the blocks of a short last
      track, in which every byte whose place lies inside these blocks is found. */
  ghost predicate OnDisk(prodos: bool, disk: seq<byte>, stream: seq<byte>) {
    var tail := |stream| % BUFFER;
    var whole := |stream| - tail;
    && |disk| == whole + RoundUp(tail)
    && TracksOnDisk(prodos, disk[..whole], stream)
    && forall i | 0 <= i < tail && Place(prodos, i) < RoundUp(tail) :: disk[whole + Place(prodos, i)] == stream[whole + i]
  }

  /** A stream of whole tracks: nothing but its image is on the disk. */
  lemma WholeStreamOnDisk(prodos: bool, disk: seq<byte>, stream: seq<byte>)
    requires OnDisk(prodos, disk, stream) && |stream| % BUFFER == 0
    ensures disk == Image(prodos, stream)
  {
    assert stream[..|stream|] == stream && disk[..|disk|] == disk;
  }

  lemma WholeTracks(prodos: bool, stream: seq<byte>, tracks: nat)
    requires BUFFER * tracks <= |stream| < BUFFER * tracks + BUFFER
    ensures |stream| % BUFFER == |stream| - BUFFER * tracks && BUFFER * tracks % BUFFER == 0
    ensures RoundUp(|stream| - BUFFER * tracks) <= BUFFER
    ensures TracksOnDisk(prodos, Image(prodos, stream[..BUFFER * tracks]), stream)
  {
  }

  lemma LastTrack(prodos: bool, stream: seq<byte>, tracks: nat, buffer: seq<byte>)
    requires BUFFER * tracks <= |stream| < BUFFER * tracks + BUFFER
    requires Filled(prodos, buffer, stream[BUFFER * tracks..])
    ensures BUFFER * tracks % BUFFER == 0 && RoundUp(|stream| - BUFFER * tracks) <= BUFFER
    ensures OnDisk(prodos, Image(prodos, stream[..BUFFER * tracks]) + buffer[..RoundUp(|stream| - BUFFER * tracks)], stream)
  {
    hide Place, RoundUp, TracksOnDisk;
    WholeTracks(prodos, stream, tracks);
    var image := Image(prodos, stream[..BUFFER * tracks]);
    var end := buffer[..RoundUp(|stream| - BUFFER * tracks)];
    assert (image + end)[..BUFFER * tracks] == image;
  }

  lemma FullTrack(prodos: bool, stream: seq<byte>, tracks: nat, buffer: seq<byte>)
    requires |stream| == BUFFER * tracks + BUFFER
    requires Filled(prodos, buffer, stream[BUFFER * tracks..])
    ensures BUFFER * tracks % BUFFER == 0 && |stream| % BUFFER == 0
    ensures Image(prodos, stream[..BUFFER * tracks]) + buffer[..RoundUp(BUFFER)] == Image(prodos, stream)
  {
    hide Place, TrackImage, Filled;
    FilledTrack(prodos, buffer, stream[BUFFER * tracks..]);
    assert buffer[..RoundUp(BUFFER)] == buffer;
    ImageAppend(prodos, stream[..BUFFER * tracks], stream[BUFFER * tracks..]);
    assert stream[..BUFFER * tracks] + stream[BUFFER * tracks..] == stream;
  }

  /** The write of a whole track, or of the last and short one. */
  method Flush(buffer: array<byte>, len: nat, disk0: seq<byte>, num0: nat, sectors: word, whole: bool, prodos: bool,
               ghost stream: seq<byte>, ghost tracks: nat) returns (ok: bool, disk: seq<byte>, num: nat)
    requires buffer.Length == BUFFER && if whole then len == BUFFER else len < BUFFER
    requires |stream| == BUFFER * tracks + len && BUFFER * tracks % BUFFER == 0 && num0 <= sectors
    requires |disk0| == BLOCK * num0 == BUFFER * tracks && disk0 == Image(prodos, stream[..BUFFER * tracks])
    requires Filled(prodos, buffer[..], stream[BUFFER * tracks..])
    ensures |disk| <= BLOCK * sectors && (ok ==> num <= sectors)
    ensures ok <==> RoundUp(|stream|) <= BLOCK * sectors
    ensures !ok ==> |disk| == BLOCK * sectors && disk0 <= disk
    ensures ok && !whole ==> OnDisk(prodos, disk, stream)
    ensures ok && whole ==> |disk| == BLOCK * num == |stream| && |stream| % BUFFER == 0 && disk == Image(prodos, stream)
  {
    hide Filled, OnDisk, TracksOnDisk, Place, Image, RoundUp;
    ok, disk, num := WriteBlocks(buffer, len, disk0, num0, sectors);
    RoundedUp(tracks, len);
    if ok && whole {
      FullTrack(prodos, stream, tracks, buffer[..]);
    } else if ok {
      LastTrack(prodos, stream, tracks, buffer[..]);
    }
  }

  /** Of the stream, the whole tracks are on the disk as an image, and the rest is in the track buffer. */
  ghost predicate Written(prodos: bool, sectors: word, stream: seq<byte>, disk: seq<byte>, num: nat, buffer: seq<byte>, len: nat) {
    var whole := BLOCK * num;
    && len <= BUFFER && |stream| == whole + len && whole % BUFFER == 0 && num <= sectors
    && disk == Image(prodos, stream[..whole]) && Filled(prodos, buffer, stream[whole..])
  }

  /** One turn of write_device's receive loop: the bytes taken go to their places in the track. */
  method TakeBytes(s: Socket, buffer: array<byte>, prodos: bool, len: nat, ghost start: nat, ghost stream: seq<byte>,
                   ghost sectors: word, ghost disk: seq<byte>, ghost num: nat)
    returns (cont: bool, end: nat, ghost longer: seq<byte>)
    requires s.Valid() && s.command != Send && buffer.Length == BUFFER && len < BUFFER
    requires start <= s.consumed <= |s.received| && stream == s.received[start..s.consumed]
    requires Written(prodos, sectors, stream, disk, num, buffer[..], len)
    modifies s, buffer
    ensures s.Valid() && s.command != Send && s.Linked() && old(s.received) <= s.received
    ensures s.consumed == old(s.consumed) + (end - len) <= |s.received| && longer == s.received[start..s.consumed]
    ensures len <= end <= BUFFER && Written(prodos, sectors, longer, disk, num, buffer[..], end)
    ensures !cont ==> end == len && !s.connected && s.clock == old(s.clock) + if old(s.Pending()) then 2 else 4
    ensures !cont && old(!s.connected && !s.Pending()) ==> s.Drained()
    ensures s.clock >= old(s.clock) + 2 && (cont <==> end > len || s.connected)
    ensures old(Calm(s)) && 0 < old(s.Unread()) <= Room(prodos, len) ==>
              end == len + old(s.Unread()) && s.received == old(s.received) && s.clock == old(s.clock) + 5 + old(s.Unread()) && s.command == Recv
    ensures old(Calm(s)) && old(s.Unread()) == 0 && Disconnection in s.At(old(s.clock)) ==> !cont && s.received == old(s.received)
  {
    hide Socket.ValidRx, Socket.ValidTx, Patch, Filled, Place, Room, Calm, EndsUnread, LateBytes, Socket.Unread;
    SomeRoom(prodos, len);
    ghost var before, earlier, whole := buffer[..], s.received, BLOCK * num;
    var rcv;
    cont, rcv := Fetch(s, buffer, Place(prodos, len), Room(prodos, len));
    ghost var more := s.received[start + |stream|..s.consumed];
    FilledMore(prodos, before, stream[whole..], more, buffer[..]);
    longer := Extended(earlier, s.received, start, stream, more, whole);
    end := len + rcv;
  }

  lemma SomeRoom(prodos: bool, len: nat)
    requires len < BUFFER
    ensures 0 < Room(prodos, len)
  {
  }

  /** The write behind a turn, and what holds in the next turn. */
  method FlushTrack(buffer: array<byte>, len: nat, disk0: seq<byte>, num0: nat, sectors: word, whole: bool, prodos: bool,
                    ghost stream: seq<byte>) returns (ok: bool, disk: seq<byte>, num: nat)
    requires buffer.Length == BUFFER && (whole <==> len == BUFFER)
    requires Written(prodos, sectors, stream, disk0, num0, buffer[..], len)
    ensures ok <==> RoundUp(|stream|) <= BLOCK * sectors
    ensures |disk| <= BLOCK * sectors && (!ok ==> |disk| == BLOCK * sectors && disk0 <= disk)
    ensures ok && !whole ==> OnDisk(prodos, disk, stream)
    ensures ok && whole ==> Written(prodos, sectors, stream, disk, num, buffer[..], 0)
  {
    hide Filled, OnDisk, TracksOnDisk, Place, Image, RoundUp;
    ghost var tracks := BLOCK * num0 / BUFFER;
    ok, disk, num := Flush(buffer, len, disk0, num0, sectors, whole, prodos, stream, tracks);
    NothingFilled(prodos, buffer[..]);
    assert stream[..|stream|] == stream && stream[|stream|..] == [];
  }

  lemma NothingWritten(prodos: bool, sectors: word, buffer: seq<byte>)
    requires |buffer| == BUFFER
    ensures Written(prodos, sectors, [], [], 0, buffer, 0)
  {
    hide Place;
  }

  lemma WholeTracksWritten(prodos: bool, sectors: word, stream: seq<byte>, disk: seq<byte>, num: nat, buffer: seq<byte>, len: nat)
    requires Written(prodos, sectors, stream, disk, num, buffer, len) && len < BUFFER
    ensures |disk| <= BLOCK * sectors && TracksOnDisk(prodos, disk, stream)
  {
    hide Place, Filled;
    WholeTracks(prodos, stream, BLOCK * num / BUFFER);
  }

  lemma StillPending(s: Socket)
    ensures s.Pending() ==> Completion !in s.At(s.clock)
  {
  }

  /** write_device, with the abort key pressed at poll number `polls`. What was received is complete under the
      same condition as for a file. It ends otherwise only with the abort key, or because the disk is too small for
      what was received; then the disk is full. */
  method WriteDevice(s: Socket, buffer: array<byte>, prodos: bool, sectors: word, polls: nat)
    returns (outcome: Outcome, disk: seq<byte>, ghost last: nat, ghost pending: bool)
    requires s.Valid() && s.command != Send && buffer.Length == BUFFER
    modifies s, buffer
    ensures s.Valid() && s.Linked() && old(s.received) <= s.received && old(s.consumed) <= s.consumed <= |s.received|
    ensures |disk| <= BLOCK * sectors
    ensures outcome == Complete ==> old(s.clock) <= last && s.clock == last + if pending then 2 else 4
    ensures outcome == Complete && pending ==> Completion !in s.At(last)
    ensures outcome == Complete && !pending && !(old(s.connected) && s.Open(old(s.clock), last)) ==> s.Drained()
    ensures outcome == Complete ==> !s.connected && OnDisk(prodos, disk, s.received[old(s.consumed)..s.consumed])
    ensures outcome == Aborted ==> s.clock >= old(s.clock) + 2 * polls
    ensures outcome == Aborted ==> TracksOnDisk(prodos, disk, s.received[old(s.consumed)..s.consumed])
    ensures outcome == DiskFull ==> |disk| == BLOCK * sectors < RoundUp(s.consumed - old(s.consumed))
    ensures polls > 1 && old(Ends(s)) && old(s.Unread()) <= Room(prodos, 0) ==>
              && s.received == old(s.received)
              && s.consumed == |s.received|
              && outcome == (if RoundUp(s.consumed - old(s.consumed)) <= BLOCK * sectors then Complete else DiskFull)
  {
    hide Socket.ValidRx, Socket.ValidTx, Patch, Filled, OnDisk, TracksOnDisk, Place, Room, Image, RoundUp;
    hide EndsUnread, LateBytes, Calm, Ends, Closes, Socket.Unread, Socket.Pending, Written;
    var cont, len, num, poll := true, 0, 0, 0;
    ghost var start, stream := s.consumed, [];
    ghost var ends, u := Ends(s) && polls > 1 && s.Unread() <= Room(prodos, 0), s.Unread();
    if ends { CalmFacts(s); }
    disk, last, pending := [], s.clock, false;
    NothingWritten(prodos, sectors, buffer[..]);
    while cont
      invariant cont && s.Valid() && s.command != Send && s.Linked() && old(s.received) <= s.received
      invariant start <= s.consumed <= |s.received| && stream == s.received[start..s.consumed] && 0 <= poll <= polls
      invariant Written(prodos, sectors, stream, disk, num, buffer[..], len) && len < BUFFER
      invariant s.clock >= old(s.clock) + 2 * poll
      invariant ends ==>
                  && s.received == old(s.received)
                  && (if poll == 0 then Calm(s) && s.Unread() == u && len == 0 && s.clock == old(s.clock)
                      else poll == 1 && Calm(s) && s.Unread() == 0 && Disconnection in s.At(s.clock) && s.consumed == |s.received|)
      decreases polls - poll
    {
      WholeTracksWritten(prodos, sectors, stream, disk, num, buffer[..], len);
      if poll == polls { return Aborted, disk, last, pending; }
      poll := poll + 1;
      last, pending := s.clock, s.Pending();
      StillPending(s);
      cont, len, stream := TakeBytes(s, buffer, prodos, len, start, stream, sectors, disk, num);
      if ends && poll == 1 { CalmClosing(s); }
      if cont && len < BUFFER { continue; }
      var ok;
      ok, disk, num := FlushTrack(buffer, len, disk, num, sectors, cont, prodos, stream);
      if !ok { return DiskFull, disk, last, pending; }
      if !cont { return Complete, disk, last, pending; }
      len := 0;
    }
    assert false;
  }

  lemma Extended(earlier: seq<byte>, received: seq<byte>, start: nat, stream: seq<byte>, more: seq<byte>, whole: nat)
    returns (longer: seq<byte>)
    requires earlier <= received && start + |stream| <= |earlier| && start + |stream| + |more| <= |received|
    requires stream == earlier[start..start + |stream|] && more == received[start + |stream|..start + |stream| + |more|]
    requires whole <= |stream|
    ensures longer == stream + more == received[start..start + |stream| + |more|]
    ensures longer[..whole] == stream[..whole] && longer[whole..] == stream[whole..] + more
  {
    longer := stream + more;
  }
}
