/** IP headers of ip.s: packet creation, the header part of sending, and the receiver's check. */
module IpHeader {
  import opened Bytes
  import opened Checksum

  const ETH_DATA: nat := 14
  const HEADER: nat := 20
  const FRAME_SIZE: nat := 1518

  /** The IP header inside an Ethernet frame. */
  function HeaderOf(frame: seq<byte>): seq<byte>
    requires |frame| >= ETH_DATA + HEADER
  {
    frame[ETH_DATA..ETH_DATA + HEADER]
  }

  function TotalLength(frame: seq<byte>): word
    requires |frame| >= ETH_DATA + HEADER
  {
    Word(frame[ETH_DATA + 3], frame[ETH_DATA + 2])
  }

  /** What a receiver demands of a header (section 3.1 of RFC 791), for a frame of `length` bytes. */
  predicate Acceptable(header: seq<byte>, length: word)
    requires |header| == HEADER
  {
    && header[0] == 0x45
    && (length - (Word(header[3], header[2]) + ETH_DATA)) % 0x1_0000 < 0x8000
    && (header[6] == 0 || header[6] == 0x40) && header[7] == 0
    && NetSum(header) == 0xffff
  }

  /** The header passes the check for every length the link can report, padded or not. */
  ghost predicate AlwaysAcceptable(frame: seq<byte>)
    requires |frame| >= ETH_DATA + HEADER
  {
    forall length: word | ETH_DATA + TotalLength(frame) <= length < 0x8000 :: Acceptable(HeaderOf(frame), length)
  }

  // ----- A checksum field filled in makes the sum come out as all ones -----

  lemma {:induction false} WordsFilled(h: seq<byte>, at: nat, a: byte, x: byte)
    requires at % 2 == 0 && at + 2 <= |h| && h[at] == 0 && h[at + 1] == 0
    ensures Words(h[at := a][at + 1 := x]) == Words(h) + Word(a, x)
  {
    var g := h[at := a][at + 1 := x];
    WordsSplit(g, at + 2);
    WordsSplit(h, at + 2);
    WordsNextPair(g, at);
    WordsNextPair(h, at);
    assert g[..at] == h[..at] && g[at + 2..] == h[at + 2..];
  }

  /** For a buffer that is not all zero, storing the complement of the sum in a zero field makes
      the receiver's one's complement sum 0xffff. */
  lemma {:induction false} ComplementVerifies(h: seq<byte>, at: nat, a: byte, x: byte)
    requires at % 2 == 0 && at + 2 <= |h| && h[at] == 0 && h[at + 1] == 0
    requires Words(h) != 0
    requires Word(x, a) == 0xffff - NetSum(h)
    ensures NetSum(h[at := a][at + 1 := x]) == 0xffff
  {
    var g := h[at := a][at + 1 := x];
    WordsFilled(h, at, a, x);
    NetSumFolds(h);
    NetSumFolds(g);
    FoldsMore(NetSum(h), 0x100 * Words(h), x);
    FoldsStep(NetSum(h), 0x100 * Words(h) + 0xffff * x, Word(x, a), 0xffff, 0);
    FoldUnique(NetSum(g), 0xffff, 0x100 * Words(g));
  }

  lemma {:induction false} NonZeroWords(h: seq<byte>)
    requires |h| >= 2 && h[0] != 0
    ensures Words(h) != 0
  {
  }

  lemma LongEnough(h: seq<byte>, length: word)
    requires |h| == HEADER
    requires h[0] == 0x45 && (h[6] == 0 || h[6] == 0x40) && h[7] == 0 && NetSum(h) == 0xffff
    requires Word(h[3], h[2]) + ETH_DATA <= length < 0x8000
    ensures Acceptable(h, length)
  {
  }

  /** A header whose zero checksum field is filled with the complement of its sum is acceptable. */
  lemma FilledAcceptable(h: seq<byte>, a: byte, x: byte, length: word)
    requires |h| == HEADER && h[0] == 0x45 && (h[6] == 0 || h[6] == 0x40) && h[7] == 0 && h[10] == 0 && h[11] == 0
    requires Word(x, a) == 0xffff - NetSum(h) && ETH_DATA + Word(h[3], h[2]) <= length < 0x8000
    ensures Acceptable(h[10 := a][11 := x], length)
  {
    hide NetSum, Words;
    NonZeroWords(h);
    ComplementVerifies(h, 10, a, x);
    LongEnough(h[10 := a][11 := x], length);
  }

  lemma FilledFrame(frame: seq<byte>, filled: seq<byte>, a: byte, x: byte)
    requires |frame| == |filled| == FRAME_SIZE
    requires filled[ETH_DATA + 10] == a && filled[ETH_DATA + 11] == x
    requires forall i | 0 <= i < FRAME_SIZE && i - ETH_DATA !in {10, 11} :: filled[i] == frame[i]
    requires var h := HeaderOf(frame);
             && h[0] == 0x45 && (h[6] == 0 || h[6] == 0x40) && h[7] == 0 && h[10] == 0 && h[11] == 0
             && Word(x, a) == 0xffff - NetSum(h)
    ensures AlwaysAcceptable(filled)
  {
    hide Acceptable, NetSum;
    var h: seq<byte> := HeaderOf(frame);
    assert HeaderOf(filled) == h[10 := a][11 := x];
    forall length: word | ETH_DATA + TotalLength(filled) <= length < 0x8000 ensures Acceptable(HeaderOf(filled), length) {
      FilledAcceptable(h, a, x, length);
    }
  }

  // ----- The code -----

  /** ip_create_packet: fields left to the caller are not touched. */
  method CreatePacket(outp: array<byte>, cfgIp: seq<byte>)
    requires outp.Length == FRAME_SIZE && |cfgIp| == 4
    modifies outp
    ensures var h := HeaderOf(outp[..]);
            && h[0] == 0x45 && h[1] == 0 && h[6] == 0x40 && h[7] == 0 && h[8] == 0x40
            && h[10] == 0 && h[11] == 0 && h[12..16] == cfgIp
    ensures forall i | 0 <= i < outp.Length :: i - ETH_DATA !in {0, 1, 6, 7, 8, 10, 11, 12, 13, 14, 15} ==> outp[i] == old(outp[i])
  {
    outp[ETH_DATA], outp[ETH_DATA + 1] := 0x45, 0;
    outp[ETH_DATA + 6], outp[ETH_DATA + 7], outp[ETH_DATA + 8] := 0x40, 0, 0x40;
    outp[ETH_DATA + 10], outp[ETH_DATA + 11] := 0, 0;
    var i := 3;
    while i >= 0
      invariant -1 <= i <= 3
      invariant forall j | i < j <= 3 :: outp[ETH_DATA + 12 + j] == cfgIp[j]
      invariant outp[ETH_DATA] == 0x45 && outp[ETH_DATA + 1] == 0
      invariant outp[ETH_DATA + 6] == 0x40 && outp[ETH_DATA + 7] == 0 && outp[ETH_DATA + 8] == 0x40
      invariant outp[ETH_DATA + 10] == 0 && outp[ETH_DATA + 11] == 0
      invariant forall j | 0 <= j < outp.Length :: j - ETH_DATA !in {0, 1, 6, 7, 8, 10, 11, 12, 13, 14, 15} ==> outp[j] == old(outp[j])
    {
      outp[ETH_DATA + 12 + i] := cfgIp[i];
      i := i - 1;
    }
    var h := HeaderOf(outp[..]);
    assert forall j | 0 <= j < 4 :: h[12..16][j] == outp[ETH_DATA + 12 + j];
  }

  /** ip_send, first part, once the next hop's address is known: the header now passes the receiver's
      check for every frame length the link can report, padded or not. */
  method FillChecksum(outp: array<byte>)
    requires outp.Length == FRAME_SIZE
    requires var h := HeaderOf(outp[..]);
             h[0] == 0x45 && (h[6] == 0 || h[6] == 0x40) && h[7] == 0 && h[10] == 0 && h[11] == 0
    requires TotalLength(outp[..]) <= FRAME_SIZE - ETH_DATA
    modifies outp
    ensures forall i | 0 <= i < outp.Length :: i - ETH_DATA !in {10, 11} ==> outp[i] == old(outp[i])
    ensures AlwaysAcceptable(outp[..])
  {
    hide AlwaysAcceptable, NetSum;
    ghost var before := outp[..];
    var a, x := IpCalcCksum(outp[ETH_DATA..ETH_DATA + HEADER]);
    outp[ETH_DATA + 10], outp[ETH_DATA + 11] := a, x;
    FilledFrame(before, outp[..], a, x);
  }

  /** ip_send, second part: the frame length, rounded up to even with a zero byte written behind the
      packet. Nothing of the packet itself changes. */
  method PadFrame(outp: array<byte>) returns (ethLength: nat)
    requires outp.Length == FRAME_SIZE
    requires HEADER <= TotalLength(outp[..]) < FRAME_SIZE - ETH_DATA
    modifies outp
    ensures ethLength % 2 == 0
    ensures old(TotalLength(outp[..])) + ETH_DATA <= ethLength <= old(TotalLength(outp[..])) + ETH_DATA + 1
    ensures outp[..old(TotalLength(outp[..])) + ETH_DATA] == old(outp[..TotalLength(outp[..]) + ETH_DATA])
    ensures forall i | old(TotalLength(outp[..])) + ETH_DATA <= i < ethLength :: outp[i] == 0
  {
    ethLength := TotalLength(outp[..]) + ETH_DATA;
    if ethLength % 2 == 1 {
      outp[ethLength] := 0;
      ethLength := ethLength + 1;
    }
  }

  /** verifyheader: accepts exactly the acceptable headers. */
  method VerifyHeader(inp: seq<byte>, ethLength: word) returns (ok: bool)
    requires |inp| >= ETH_DATA + HEADER
    ensures ok <==> Acceptable(HeaderOf(inp), ethLength)
  {
    var h := HeaderOf(inp);
    if h[0] != 0x45 { return false; }
    var low := Adc(h[3], ETH_DATA, 0);
    var high := Adc(h[2], 0, low.1);
    var len := Word(low.0, high.0);
    if (ethLength - len) % 0x1_0000 >= 0x8000 { return false; }
    if h[6] != 0 && h[6] != 0x40 { return false; }
    if h[7] != 0 { return false; }
    var a, x := IpCalcCksum(h);
    ok := a == 0 && x == 0;
  }
}
