/** Names in dns.s: packing a hostname into length-prefixed labels, copying it into the query, and
    stepping over the question of a response. */
module Dns {
  import opened Bytes

  const DOT: byte := 0x2e
  const QNAME: nat := 12      // offset of the question in a message
  const BUFFER: nat := 0x80

  predicate Terminator(b: byte) {
    b == 0 || b == 0x2f || b == 0x3a  // NUL, '/' and ':'
  }

  // ----- Labels -----

  /** The labels of a name, split at its dots. */
  function Split(s: seq<byte>): (labels: seq<seq<byte>>)
    ensures |labels| > 0
  {
    if s == [] then [[]]
    else
      var labels, last := Split(s[..|s| - 1]), s[|s| - 1];
      if last == DOT then labels + [[]]
      else labels[..|labels| - 1] + [labels[|labels| - 1] + [last]]
  }

  function Join(labels: seq<seq<byte>>): seq<byte>
    requires |labels| > 0
  {
    if |labels| == 1 then labels[0] else Join(labels[..|labels| - 1]) + [DOT] + labels[|labels| - 1]
  }

  lemma JoinDot(labels: seq<seq<byte>>)
    requires |labels| > 0
    ensures Join(labels + [[]]) == Join(labels) + [DOT]
  {
    var more := labels + [[]];
    assert more[..|more| - 1] == labels;
  }

  lemma JoinLonger(labels: seq<seq<byte>>, c: byte)
    requires |labels| > 0
    ensures Join(labels[..|labels| - 1] + [labels[|labels| - 1] + [c]]) == Join(labels) + [c]
  {
    var longer := labels[..|labels| - 1] + [labels[|labels| - 1] + [c]];
    assert longer[..|longer| - 1] == labels[..|labels| - 1];
  }

  /** Splitting loses nothing, and no label holds a dot. */
  lemma {:induction false} SplitJoin(s: seq<byte>)
    ensures Join(Split(s)) == s
    ensures forall i | 0 <= i < |Split(s)| :: DOT !in Split(s)[i]
  {
    if s != [] {
      hide Join;
      SplitJoin(s[..|s| - 1]);
      assert s == s[..|s| - 1] + [s[|s| - 1]];
      var labels := Split(s[..|s| - 1]);
      JoinDot(labels);
      JoinLonger(labels, s[|s| - 1]);
    }
  }

  /** Labels with their length bytes, without the root label at the end. */
  function Raw(labels: seq<seq<byte>>): seq<int> {
    if labels == [] then []
    else
      var last := labels[|labels| - 1];
      Raw(labels[..|labels| - 1]) + [|last|] + last
  }

  lemma {:induction false} RawFirst(labels: seq<seq<byte>>)
    requires labels != []
    ensures Raw(labels) == [|labels[0]|] + labels[0] + Raw(labels[1..])
  {
    if |labels| > 1 {
      var n := |labels| - 1;
      RawFirst(labels[..n]);
      assert labels[..n][1..] == labels[1..][..n - 1];
    } else {
      assert labels[..0] == [] && labels[1..] == [];
    }
  }

  lemma {:induction false} RawLength(s: seq<byte>)
    ensures |Raw(Split(s))| == |s| + 1
  {
    if s != [] {
      RawLength(s[..|s| - 1]);
      var labels, last := Split(s[..|s| - 1]), s[|s| - 1];
      if last == DOT {
        assert (labels + [[]])[..|labels|] == labels;
      } else {
        var longer := labels[..|labels| - 1] + [labels[|labels| - 1] + [last]];
        assert longer[..|longer| - 1] == labels[..|labels| - 1];
      }
    } else {
      var root := Split(s);
      assert root[..0] == [];
    }
  }

  /** A name as it is packed: a root label is added unless the name ends with an empty label. */
  function Packed(s: seq<byte>): seq<int> {
    var labels := Split(s);
    Raw(labels) + if labels[|labels| - 1] == [] then [] else [0]
  }

  // ----- The receiver's reading (sections 3.1 and 4.1.2 of RFC 1035) -----

  const MAX_LABEL: nat := 63

  datatype Option<T> = None | Some(value: T)

  /** The labels of an encoded name up to the root label; larger length bytes do not introduce a label. */
  function Unpack(p: seq<int>): Option<seq<seq<int>>>
    decreases |p|
  {
    if p == [] then None
    else if p[0] == 0 then Some([])
    else if !(0 < p[0] <= MAX_LABEL && p[0] < |p|) then None
    else
      match Unpack(p[1 + p[0]..])
      case None => None
      case Some(labels) => Some([p[1..1 + p[0]]] + labels)
  }

  function NonEmptyPrefix(labels: seq<seq<byte>>): seq<seq<byte>> {
    if labels == [] || labels[0] == [] then [] else [labels[0]] + NonEmptyPrefix(labels[1..])
  }

  predicate Short(labels: seq<seq<byte>>) {
    forall i | 0 <= i < |labels| :: |labels[i]| <= MAX_LABEL
  }

  predicate NonEmpty(labels: seq<seq<byte>>) {
    forall i | 0 <= i < |labels| :: labels[i] != []
  }

  /** The labels that a name is meant to have: a dot at its end is none. */
  function Names(s: seq<byte>): seq<seq<byte>> {
    var labels := Split(s);
    if labels[|labels| - 1] == [] then labels[..|labels| - 1] else labels
  }

  lemma UnpackLabel(first: seq<byte>, rest: seq<int>)
    requires first != []
    ensures var p := [|first|] + first + rest;
            if |first| > MAX_LABEL || Unpack(rest) == None then Unpack(p) == None
            else Unpack(p) == Some([first] + Unpack(rest).value)
  {
    var p := [|first|] + first + rest;
    assert p[0] == |first|;
    assert p[1 + p[0]..] == rest;
    if p[0] < |p| {
      assert p[1..1 + p[0]] == first;
    }
  }

  lemma {:induction false} UnpackRaw(labels: seq<seq<byte>>, tail: seq<int>)
    requires tail == [0] || (labels != [] && labels[|labels| - 1] == [] && tail == [])
    ensures var head := NonEmptyPrefix(labels);
            Unpack(Raw(labels) + tail) == if Short(head) then Some(head) else None
    ensures Encoded(NonEmptyPrefix(labels)) <= Raw(labels) + tail
    decreases |labels|
  {
    if labels == [] {
      assert Raw(labels) + tail == tail;
    } else {
      hide Raw, Unpack, Short;
      RawFirst(labels);
      if labels[0] == [] {
        UnpackRoot(Raw(labels) + tail);
      } else {
        var rest := Raw(labels[1..]) + tail;
        assert Raw(labels) + tail == [|labels[0]|] + labels[0] + rest;
        UnpackRaw(labels[1..], tail);
        UnpackLabel(labels[0], rest);
        ShortFirst(labels[0], NonEmptyPrefix(labels[1..]));
        assert NonEmptyPrefix(labels)[1..] == NonEmptyPrefix(labels[1..]);
      }
    }
  }

  lemma UnpackRoot(p: seq<int>)
    requires p != [] && p[0] == 0
    ensures Unpack(p) == Some([]) && Short([])
  {
  }

  lemma ShortFirst(first: seq<byte>, rest: seq<seq<byte>>)
    ensures Short([first] + rest) <==> |first| <= MAX_LABEL && Short(rest)
    ensures NonEmpty([first] + rest) <==> first != [] && NonEmpty(rest)
  {
    var labels := [first] + rest;
    assert labels[0] == first && forall i | 0 <= i < |rest| :: labels[i + 1] == rest[i];
    assert forall i | 0 < i < |labels| :: labels[i] == rest[i - 1];
  }

  lemma {:induction false} NonEmptyAll(labels: seq<seq<byte>>)
    ensures NonEmptyPrefix(labels) == labels <==> NonEmpty(labels)
    ensures NonEmptyPrefix(labels + [[]]) == labels <==> NonEmpty(labels)
    ensures NonEmpty(NonEmptyPrefix(labels))
  {
    if labels == [] {
      assert labels + [[]] == [[]];
    } else {
      NonEmptyAll(labels[1..]);
      assert (labels + [[]])[1..] == labels[1..] + [[]];
      assert labels == [labels[0]] + labels[1..];
      ShortFirst(labels[0], labels[1..]);
      ShortFirst(labels[0], NonEmptyPrefix(labels[1..]));
    }
  }

  /** A receiver of the packed form gets the labels up to the first empty one, or nothing if one of these is too
      long. It gets the labels of the name if and only if all of them have 1 to 63 characters; a dot may
      follow the last one. */
  lemma UnpackPacked(s: seq<byte>)
    ensures var head := NonEmptyPrefix(Split(s));
            && Unpack(Packed(s)) == (if Short(head) then Some(head) else None)
            && Encoded(head) <= Packed(s)
    ensures Unpack(Packed(s)) == Some(Names(s)) <==> NonEmpty(Names(s)) && Short(Names(s))
    ensures NonEmptyPrefix(Split(s)) == Names(s) <==> NonEmpty(Names(s))
    ensures |Packed(s)| == if s == [] || s[|s| - 1] == DOT then |s| + 1 else |s| + 2
  {
    var labels := Split(s);
    UnpackRaw(labels, if labels[|labels| - 1] == [] then [] else [0]);
    RawLength(s);
    NonEmptyAll(Names(s));
    if labels[|labels| - 1] == [] {
      assert Raw(labels) + [] == Raw(labels);
      assert labels == Names(s) + [[]];
    }
  }

  /** A single label of 64 or more characters is packed, but cannot be read. */
  lemma LongLabel(s: seq<byte>)
    requires DOT !in s && |s| > MAX_LABEL
    ensures Unpack(Packed(s)) == None
  {
    OneLabel(s);
    UnpackPacked(s);
    assert NonEmptyPrefix([s]) == [s] by { NonEmptyAll([s]); }
  }

  lemma {:induction false} OneLabel(s: seq<byte>)
    requires DOT !in s
    ensures Split(s) == [s]
  {
    if s != [] {
      OneLabel(s[..|s| - 1]);
      assert s == s[..|s| - 1] + [s[|s| - 1]];
    }
  }

  // ----- dns_set_hostname -----

  /** The name ends at the first terminator. */
  ghost predicate EndsAt(s: seq<byte>, n: nat) {
    n < |s| && Terminator(s[n]) && forall i | 0 <= i < n :: !Terminator(s[i])
  }

  /** The state of the packing loop after a part of the name: all labels but the last are complete, the
      last one is written behind a byte kept free for its length. */
  ghost predicate Packing(buffer: seq<byte>, x: nat, offset: nat, length: nat, part: seq<byte>) {
    var labels := Split(part);
    var last := labels[|labels| - 1];
    && x == |part| + 1 <= |buffer| && offset + 1 + length == x && length == |last|
    && buffer[..offset] == Raw(labels[..|labels| - 1]) && buffer[offset + 1..x] == last
  }

  lemma PackingStart(buffer: seq<byte>)
    requires |buffer| >= 1
    ensures Packing(buffer, 1, 0, 0, [])
  {
    var labels := Split([]);
    assert labels[..0] == [];
  }

  /** Back-patching the length byte completes the last label. */
  lemma PatchedLength(buffer: seq<byte>, x: nat, offset: nat, length: byte, part: seq<byte>)
    requires Packing(buffer, x, offset, length, part)
    ensures buffer[offset := length][..x] == Raw(Split(part))
  {
    assert buffer[offset := length][..x] == buffer[..offset] + [length] + buffer[offset + 1..x];
  }

  lemma DotStep(buffer: seq<byte>, x: nat, offset: nat, length: byte, part: seq<byte>)
    requires Packing(buffer, x, offset, length, part) && x < |buffer|
    ensures Packing(buffer[offset := length], x + 1, x, 0, part + [DOT])
  {
    PatchedLength(buffer, x, offset, length, part);
    var labels := Split(part);
    assert (part + [DOT])[..|part|] == part;
    assert (labels + [[]])[..|labels|] == labels;
  }

  lemma CharStep(buffer: seq<byte>, x: nat, offset: nat, length: nat, part: seq<byte>, c: byte)
    requires Packing(buffer, x, offset, length, part) && x < |buffer| && c != DOT
    ensures Packing(buffer[x := c], x + 1, offset, length + 1, part + [c])
  {
    var labels := Split(part);
    var after := buffer[x := c];
    assert (part + [c])[..|part|] == part;
    var longer := labels[..|labels| - 1] + [labels[|labels| - 1] + [c]];
    assert longer[..|longer| - 1] == labels[..|labels| - 1];
    assert after[offset + 1..x + 1] == buffer[offset + 1..x] + [c];
    assert after[..offset] == buffer[..offset];
  }

  /** The byte before the end is zero exactly if the last label is empty. */
  lemma LastByte(buffer: seq<byte>, x: nat, offset: nat, length: byte, part: seq<byte>)
    requires Packing(buffer, x, offset, length, part)
    requires forall i | 0 <= i < |part| :: !Terminator(part[i])
    ensures var labels := Split(part);
            buffer[offset := length][x - 1] == 0 <==> labels[|labels| - 1] == []
  {
    var labels := Split(part);
    if length > 0 {
      assert part != [];
      assert buffer[offset + 1..x][length - 1] == buffer[x - 1];
    }
  }

  /** Behind the last label a zero is written unless one is there already. */
  lemma PackingEnds(buffer: seq<byte>, x: nat, offset: nat, length: byte, part: seq<byte>)
    requires Packing(buffer, x, offset, length, part)
    requires forall i | 0 <= i < |part| :: !Terminator(part[i])
    ensures var patched := buffer[offset := length];
            Packed(part) == if patched[x - 1] != 0 then patched[..x] + [0] else patched[..x]
  {
    PatchedLength(buffer, x, offset, length, part);
    LastByte(buffer, x, offset, length, part);
  }

  lemma PackingBounds(buffer: seq<byte>, x: nat, offset: nat, length: nat, part: seq<byte>)
    requires Packing(buffer, x, offset, length, part)
    ensures offset + 1 + length == x == |part| + 1 <= |buffer|
  {
  }

  /** dns_set_hostname for a name that is not a dotted quad: names of up to 126 characters are packed. */
  method SetHostname(s: seq<byte>, buffer: array<byte>, ghost n: nat) returns (ok: bool, x: nat)
    requires EndsAt(s, n) && buffer.Length == BUFFER
    modifies buffer
    ensures ok <==> n <= 126
    ensures ok ==> x <= BUFFER && buffer[..x] == Packed(s[..n])
  {
    hide Packing, Split, Raw, Packed;
    var y, offset, length: byte := 0, 0, 0;
    x := 1;
    assert s[..0] == [];
    PackingStart(buffer[..]);
    while !Terminator(s[y])
      invariant 0 <= y <= n && x == y + 1 < BUFFER && offset < BUFFER && length < BUFFER
      invariant Packing(buffer[..], x, offset, length, s[..y])
      decreases n - y
    {
      PackingBounds(buffer[..], x, offset, length, s[..y]);
      assert s[..y + 1] == s[..y] + [s[y]];
      if s[y] == DOT {
        DotStep(buffer[..], x, offset, length, s[..y]);
        buffer[offset] := length;
        length, offset := 0, x;
      } else {
        CharStep(buffer[..], x, offset, length, s[..y], s[y]);
        buffer[x] := s[y];
        length := length + 1;
      }
      y, x := y + 1, x + 1;
      if x >= 0x80 { return false, x; }
    }
    PackingBounds(buffer[..], x, offset, length, s[..y]);
    PackingEnds(buffer[..], x, offset, length, s[..y]);
    buffer[offset] := length;
    if buffer[x - 1] != 0 {
      buffer[x] := 0;
      x := x + 1;
      assert buffer[..x] == buffer[..x - 1] + [0];
    }
    ok := true;
  }

  // ----- send_dns_query and dns_in -----

  /** The copy loop of send_dns_query: the bytes up to and including the first zero, if there are at most 127. */
  method CopyName(name: seq<byte>, output: array<byte>, ghost zero: nat) returns (ok: bool, x: nat)
    requires zero < |name| && name[zero] == 0 && forall i | 0 <= i < zero :: name[i] != 0
    requires output.Length >= QNAME + BUFFER + 4
    modifies output
    ensures ok <==> zero + 1 <= 127
    ensures ok ==> x == zero + 1 && output[QNAME..QNAME + x] == name[..x]
                   && output[QNAME + x..QNAME + x + 4] == [0, 1, 0, 1]
    ensures forall i | 0 <= i < QNAME :: output[i] == old(output[i])
  {
    x := 0;
    var a := 1;
    while a != 0
      invariant 0 <= x <= zero + 1 && x < BUFFER && (a == 0 <==> x == zero + 1)
      invariant output[QNAME..QNAME + x] == name[..x]
      invariant forall i | 0 <= i < QNAME :: output[i] == old(output[i])
      decreases zero + 1 - x
    {
      a := name[x];
      output[QNAME + x] := name[x];
      x := x + 1;
      assert output[QNAME..QNAME + x] == name[..x - 1] + [name[x - 1]];
      if x >= 0x80 { return false, x; }
    }
    output[QNAME + x], output[QNAME + x + 2] := 0, 0;
    output[QNAME + x + 1], output[QNAME + x + 3] := 1, 1;
    ok := true;
  }

  /** Labels with their length bytes and the root label. */
  function Encoded(labels: seq<seq<byte>>): seq<int> {
    if labels == [] then [0] else [|labels[0]|] + labels[0] + Encoded(labels[1..])
  }

  lemma EncodedNotEmpty(labels: seq<seq<byte>>)
    ensures |Encoded(labels)| > 0
  {
  }

  lemma EncodedStep(message: seq<byte>, x: nat, end: nat, rest: seq<seq<byte>>)
    requires x < end <= |message| && message[x..end] == Encoded(rest)
    requires forall i | 0 <= i < |rest| :: rest[i] != []
    ensures message[x] == 0 <==> rest == []
    ensures rest == [] ==> x + 1 == end
    ensures rest != [] ==> x + 1 + message[x] < end && message[x + 1 + message[x]..end] == Encoded(rest[1..])
  {
    assert message[x..end][0] == message[x];
    if rest != [] {
      assert message[x] as int == |rest[0]|;
      assert message[x..end][1 + |rest[0]|..] == Encoded(rest[1..]);
    }
  }

  /** The two additions of the loop, carry included, advance by one more than the length byte. */
  lemma Advance(x: nat, length: byte)
    requires x + 1 + length < 0x100
    ensures (x + length) % 0x100 + 1 + (x + length) / 0x100 == x + 1 + length
  {
  }

  /** The loop of dns_in over the question's name, from the start of the question section. For an encoded
      name of non-empty labels that ends inside the first 256 bytes, it stops exactly behind the name. */
  method SkipQuestion(message: seq<byte>, ghost labels: seq<seq<byte>>) returns (ok: bool, x: nat)
    requires |message| >= 0x100
    requires forall i | 0 <= i < |labels| :: labels[i] != []
    requires QNAME + |Encoded(labels)| <= 0x100
    requires message[QNAME..QNAME + |Encoded(labels)|] == Encoded(labels)
    ensures ok && x == QNAME + |Encoded(labels)|
  {
    hide Encoded;
    x := QNAME;
    EncodedNotEmpty(labels);
    ghost var rest := labels;
    ghost var end := QNAME + |Encoded(labels)|;
    while message[x] != 0
      invariant x + |Encoded(rest)| == end <= 0x100 && message[x..end] == Encoded(rest)
      invariant forall i | 0 <= i < |rest| :: rest[i] != []
      invariant x < end
      decreases end - x
    {
      EncodedStep(message, x, end, rest);
      Advance(x, message[x]);
      var sum := (x + message[x]) % 0x100 + 1 + (x + message[x]) / 0x100;
      x := sum % 0x100;
      if sum >= 0x100 { return false, x; }
      EncodedNotEmpty(rest[1..]);
      rest := rest[1..];
    }
    EncodedStep(message, x, end, rest);
    x := x + 1;
    ok := true;
  }

  lemma {:induction false} EncodedIsRaw(labels: seq<seq<byte>>)
    ensures Encoded(labels) == Raw(labels) + [0]
  {
    if labels != [] {
      RawFirst(labels);
      EncodedIsRaw(labels[1..]);
    }
  }

  // ----- dns_set_hostname, then send_dns_query -----

  lemma {:induction false} SplitBytes(s: seq<byte>)
    requires forall i | 0 <= i < |s| :: s[i] != 0
    ensures NoNul(Split(s))
  {
    if s != [] {
      SplitBytes(s[..|s| - 1]);
    }
  }

  ghost predicate NoNul(labels: seq<seq<byte>>) {
    forall i | 0 <= i < |labels| :: 0 !in labels[i]
  }

  lemma {:induction false} PrefixNoNul(labels: seq<seq<byte>>)
    requires NoNul(labels)
    ensures NoNul(NonEmptyPrefix(labels))
  {
    if labels != [] {
      PrefixNoNul(labels[1..]);
    }
  }

  /** The root label is the first zero of an encoded name. */
  lemma {:induction false} OnlyRootIsZero(labels: seq<seq<byte>>)
    requires NoNul(labels) && NonEmpty(labels)
    ensures var p := Encoded(labels);
            p != [] && p[|p| - 1] == 0 && forall i | 0 <= i < |p| - 1 :: p[i] != 0
  {
    if labels != [] {
      OnlyRootIsZero(labels[1..]);
      var rest := Encoded(labels[1..]);
      var p := Encoded(labels);
      forall i | 0 <= i < |p| - 1 ensures p[i] != 0 {
        if 1 <= i <= |labels[0]| {
          assert p[i] == labels[0][i - 1];
        } else if i > 0 {
          assert p[i] == rest[i - 1 - |labels[0]|];
        }
      }
    }
  }

  /** What the first zero of a packed name ends. */
  lemma PackedName(s: seq<byte>)
    requires forall i | 0 <= i < |s| :: !Terminator(s[i])
    ensures var head := Encoded(NonEmptyPrefix(Split(s)));
            head != [] && head <= Packed(s) && head[|head| - 1] == 0 && forall i | 0 <= i < |head| - 1 :: head[i] != 0
    ensures NonEmpty(Names(s)) ==> Packed(s) == Encoded(Names(s))
  {
    var labels := Split(s);
    UnpackPacked(s);
    SplitBytes(s);
    PrefixNoNul(labels);
    NonEmptyAll(labels);
    OnlyRootIsZero(NonEmptyPrefix(labels));
    PackedIsEncoded(s);
  }

  /** A hostname is set and asked for. The question holds the labels up to the first empty one. Names of
      non-empty labels are asked for if and only if they have at most 125 characters, or 126 with a dot at the end;
      one character more is packed for others, but not asked for. */
  method AskFor(s: seq<byte>, buffer: array<byte>, output: array<byte>, ghost n: nat) returns (ok: bool, x: nat)
    requires EndsAt(s, n) && buffer.Length == BUFFER && output.Length >= QNAME + BUFFER + 4 && buffer != output
    modifies buffer, output
    ensures var head := Encoded(NonEmptyPrefix(Split(s[..n])));
            && (ok <==> n <= 126 && |head| <= 127)
            && (ok ==> x == |head| && output[QNAME..QNAME + x] == head && output[QNAME + x..QNAME + x + 4] == [0, 1, 0, 1])
    ensures NonEmpty(Names(s[..n])) ==> (ok <==> n <= 125 || (n == 126 && s[n - 1] == DOT))
  {
    hide Split, Raw, Packed, Encoded, NonEmptyPrefix, Names, NonEmpty;
    PackedName(s[..n]);
    UnpackPacked(s[..n]);
    ok, x := SetHostname(s, buffer, n);
    if ok {
      ghost var head := Encoded(NonEmptyPrefix(Split(s[..n])));
      assert head == buffer[..x][..|head|] == buffer[..|head|];
      ok, x := CopyName(buffer[..], output, |head| - 1);
    }
  }

  /** What dns_set_hostname packs for labels that are all non-empty is what the response's question walk
      steps over; a trailing dot adds nothing. */
  lemma PackedIsEncoded(s: seq<byte>)
    ensures var labels := Split(s);
            (forall i | 0 <= i < |labels| :: labels[i] != []) ==> Packed(s) == Encoded(labels)
    ensures var labels := Split(s);
            |labels| > 1 && labels[|labels| - 1] == [] ==> Packed(s) == Encoded(labels[..|labels| - 1])
  {
    var labels := Split(s);
    EncodedIsRaw(labels);
    EncodedIsRaw(labels[..|labels| - 1]);
    if labels[|labels| - 1] == [] {
      assert Raw(labels) == Raw(labels[..|labels| - 1]) + [0] + [];
    }
  }
}
