/** arp.s: the address cache, shifted and overwritten in place, and the choice of the gateway. */
module Arp {
  type octet = bv8
  type Mac = s: seq<octet> | |s| == 6 witness [0, 0, 0, 0, 0, 0]
  type Ip = s: seq<octet> | |s| == 4 witness [0, 0, 0, 0]

  const CACHE_ENTRIES: nat := 8  // ac_size
  const ENTRY: nat := 10         // six bytes MAC, four bytes IP

  datatype Option<T> = None | Some(value: T)

  /** A MAC/IP pair, as it lies in the cache, in arp_mac/arp_ip and in an ARP packet. */
  datatype Entry = Entry(mac: Mac, ip: Ip)

  // ----- The cache as a list -----

  /** findip: the first entry with this address, unless an entry up to it begins with a zero octet. */
  function Find(cache: seq<Entry>, ip: Ip): (r: Option<nat>)
    ensures r.Some? ==> r.value < |cache| && cache[r.value].ip == ip
  {
    if cache == [] || cache[0].ip[0] == 0 then None
    else if cache[0].ip == ip then Some(0)
    else
      var rest := Find(cache[1..], ip);
      if rest.None? then None else Some(rest.value + 1)
  }

  /** Nothing before the entry found has its address or begins with a zero octet; and a miss means that
      every entry with the address is hidden by one that does. */
  lemma {:induction false} FindSpec(cache: seq<Entry>, ip: Ip)
    ensures var r := Find(cache, ip);
            if r.Some? then Frontmost(cache, r.value) && forall k | 0 <= k <= r.value :: cache[k].ip[0] != 0
            else forall k | 0 <= k < |cache| && cache[k].ip == ip :: exists j | 0 <= j <= k :: cache[j].ip[0] == 0
  {
    if cache != [] && cache[0].ip[0] != 0 && cache[0].ip != ip {
      FindSpec(cache[1..], ip);
      var r := Find(cache[1..], ip);
      if r.None? {
        forall k | 0 <= k < |cache| && cache[k].ip == ip ensures exists j | 0 <= j <= k :: cache[j].ip[0] == 0 {
          var j :| 0 <= j <= k - 1 && cache[1..][j].ip[0] == 0;
          assert cache[j + 1].ip[0] == 0;
        }
      } else {
        forall k | 0 <= k <= r.value + 1 ensures cache[k].ip[0] != 0 && (k <= r.value ==> cache[k].ip != ip) {
          assert k > 0 ==> cache[k] == cache[1..][k - 1];
        }
      }
    }
  }

  datatype Op = Add(e: Entry) | FromPacket(e: Entry)

  function Shift(cache: seq<Entry>, e: Entry): seq<Entry>
    requires |cache| == CACHE_ENTRIES
  {
    [e] + cache[..CACHE_ENTRIES - 1]
  }

  /** arp_add overwrites an entry it finds; a packet's sender is put in front without looking. */
  function After(cache: seq<Entry>, op: Op): (r: seq<Entry>)
    requires |cache| == CACHE_ENTRIES
    ensures |r| == CACHE_ENTRIES
  {
    var at := if op.Add? then Find(cache, op.e.ip) else None;
    if at.Some? then cache[at.value := op.e] else Shift(cache, op.e)
  }

  const EMPTY: Entry := Entry([0, 0, 0, 0, 0, 0], [0, 0, 0, 0])

  function Run(ops: seq<Op>): (r: seq<Entry>)
    ensures |r| == CACHE_ENTRIES
  {
    if ops == [] then seq(CACHE_ENTRIES, _ => EMPTY) else After(Run(ops[..|ops| - 1]), ops[|ops| - 1])
  }

  /** The MAC most recently given for an address. */
  function Latest(ops: seq<Op>, ip: Ip): Option<Mac> {
    if ops == [] then None
    else if ops[|ops| - 1].e.ip == ip then Some(ops[|ops| - 1].e.mac)
    else Latest(ops[..|ops| - 1], ip)
  }

  ghost predicate Frontmost(cache: seq<Entry>, k: nat)
    requires k < |cache|
  {
    cache[k].ip[0] != 0 && forall j | 0 <= j < k :: cache[j].ip != cache[k].ip
  }

  /** The frontmost entry of every address holds its latest MAC. */
  ghost predicate FrontIsLatest(cache: seq<Entry>, ops: seq<Op>) {
    forall k | 0 <= k < |cache| && Frontmost(cache, k) :: Latest(ops, cache[k].ip) == Some(cache[k].mac)
  }

  lemma AfterFrontIsLatest(cache: seq<Entry>, ops: seq<Op>, op: Op)
    requires |cache| == CACHE_ENTRIES && FrontIsLatest(cache, ops)
    ensures FrontIsLatest(After(cache, op), ops + [op])
  {
    var after := After(cache, op);
    FindSpec(cache, op.e.ip);
    assert (ops + [op])[..|ops|] == ops;
    forall k | 0 <= k < |after| && Frontmost(after, k) ensures Latest(ops + [op], after[k].ip) == Some(after[k].mac) {
      if after[k].ip != op.e.ip {
        var found := if op.Add? then Find(cache, op.e.ip) else None;
        var before := if found.Some? then k else k - 1;
        assert cache[before] == after[k];
        forall j | 0 <= j < before ensures cache[j].ip != cache[before].ip {
          assert after[if found.Some? then j else j + 1].ip == cache[j].ip;
        }
        assert Frontmost(cache, before);
      } else {
        FrontOfBound(cache, op, k);
      }
    }
  }

  /** The address just bound is found in front of all its older entries. */
  lemma FrontOfBound(cache: seq<Entry>, op: Op, k: nat)
    requires |cache| == CACHE_ENTRIES && k < CACHE_ENTRIES
    requires Frontmost(After(cache, op), k) && After(cache, op)[k].ip == op.e.ip
    ensures After(cache, op)[k] == op.e
  {
    var after := After(cache, op);
    var found := if op.Add? then Find(cache, op.e.ip) else None;
    FindSpec(cache, op.e.ip);
    assert after[if found.Some? then found.value else 0] == op.e;
  }

  /** After any sequence of additions and received packets, a lookup that hits returns the MAC most
      recently given for that address: no older one, and none of another address. */
  lemma {:induction false} LookupIsLatest(ops: seq<Op>, ip: Ip)
    ensures FrontIsLatest(Run(ops), ops)
    ensures var at := Find(Run(ops), ip);
            at.Some? ==> Latest(ops, ip) == Some(Run(ops)[at.value].mac)
  {
    hide After, FrontIsLatest, Latest;
    if ops == [] {
      EmptyFrontIsLatest(Run([]));
    } else {
      var n := |ops| - 1;
      LookupIsLatest(ops[..n], ip);
      AfterFrontIsLatest(Run(ops[..n]), ops[..n], ops[n]);
      assert ops[..n] + [ops[n]] == ops;
    }
    FoundIsLatest(Run(ops), ops, ip);
  }

  lemma EmptyFrontIsLatest(cache: seq<Entry>)
    requires forall k | 0 <= k < |cache| :: cache[k] == EMPTY
    ensures FrontIsLatest(cache, [])
  {
  }

  lemma FoundIsLatest(cache: seq<Entry>, ops: seq<Op>, ip: Ip)
    requires FrontIsLatest(cache, ops)
    ensures var at := Find(cache, ip);
            at.Some? ==> Latest(ops, ip) == Some(cache[at.value].mac)
  {
    FindSpec(cache, ip);
  }

  /** There is an entry for the address at position p, and nothing up to it hides it. */
  ghost predicate Visible(cache: seq<Entry>, ip: Ip, p: nat) {
    p < |cache| && cache[p].ip == ip && forall j | 0 <= j <= p :: cache[j].ip[0] != 0
  }

  lemma VisibleIsFound(cache: seq<Entry>, ip: Ip, p: nat)
    requires Visible(cache, ip, p)
    ensures Find(cache, ip).Some?
  {
    FindSpec(cache, ip);
  }

  /** Right after it was given, an address outside network zero is found, with the new MAC. */
  lemma BoundIsFound(cache: seq<Entry>, op: Op)
    requires |cache| == CACHE_ENTRIES && op.e.ip[0] != 0
    ensures var at := Find(After(cache, op), op.e.ip);
            at.Some? && After(cache, op)[at.value] == op.e
  {
    var found := if op.Add? then Find(cache, op.e.ip) else None;
    var p := if found.Some? then found.value else 0;
    FindSpec(cache, op.e.ip);
    FindSpec(After(cache, op), op.e.ip);
    assert Visible(After(cache, op), op.e.ip, p);
    VisibleIsFound(After(cache, op), op.e.ip, p);
    var at := Find(After(cache, op), op.e.ip);
    assert Frontmost(After(cache, op), at.value);
    FrontOfBound(cache, op, at.value);
  }

  /** A sender put in front survives seven further operations on addresses outside network zero. */
  lemma {:induction false} PacketRetained(ops: seq<Op>, i: nat)
    requires i < |ops| <= i + CACHE_ENTRIES && ops[i].FromPacket?
    requires forall j | i <= j < |ops| :: ops[j].e.ip[0] != 0
    ensures exists p | 0 <= p < |ops| - i :: Visible(Run(ops), ops[i].e.ip, p)
  {
    hide Visible, After;
    var n, ip := |ops| - 1, ops[i].e.ip;
    var cache := Run(ops[..n]);
    if n == i {
      PutInFront(cache, ops[i]);
      assert Visible(Run(ops), ip, 0);
    } else {
      PacketRetained(ops[..n], i);
      var p :| 0 <= p < n - i && Visible(cache, ip, p);
      StaysVisible(cache, ip, p, ops[n]);
      assert Visible(Run(ops), ip, p) || Visible(Run(ops), ip, p + 1);
    }
  }

  lemma PutInFront(cache: seq<Entry>, op: Op)
    requires |cache| == CACHE_ENTRIES && op.FromPacket? && op.e.ip[0] != 0
    ensures Visible(After(cache, op), op.e.ip, 0)
  {
  }

  lemma StaysVisible(cache: seq<Entry>, ip: Ip, p: nat, op: Op)
    requires |cache| == CACHE_ENTRIES && p < CACHE_ENTRIES - 1
    requires Visible(cache, ip, p) && op.e.ip[0] != 0
    ensures Visible(After(cache, op), ip, p) || Visible(After(cache, op), ip, p + 1)
  {
    var found := if op.Add? then Find(cache, op.e.ip) else None;
    assert Visible(After(cache, op), ip, if found.Some? then p else p + 1);
  }

  // ----- The code on bytes -----

  function EntryAt(bytes: seq<octet>, k: nat): Entry
    requires ENTRY * (k + 1) <= |bytes|
  {
    Entry(bytes[ENTRY * k..ENTRY * k + 6], bytes[ENTRY * k + 6..ENTRY * k + ENTRY])
  }

  function Entries(bytes: seq<octet>): (r: seq<Entry>)
    requires |bytes| == ENTRY * CACHE_ENTRIES
    ensures |r| == CACHE_ENTRIES
  {
    seq(CACHE_ENTRIES, k requires 0 <= k < CACHE_ENTRIES => EntryAt(bytes, k))
  }

  function BytesOf(e: Entry): (r: seq<octet>)
    ensures |r| == ENTRY
  {
    e.mac + e.ip
  }

  lemma {:induction false} FindFrom(cache: seq<Entry>, ip: Ip, k: nat)
    requires k <= |cache|
    requires forall j | 0 <= j < k :: cache[j].ip != ip && cache[j].ip[0] != 0
    ensures var rest := Find(cache[k..], ip);
            Find(cache, ip) == if rest.None? then None else Some(rest.value + k)
  {
    if k > 0 {
      FindFrom(cache[1..], ip, k - 1);
      assert cache[1..][k - 1..] == cache[k..];
    } else {
      assert cache[0..] == cache;
    }
  }

  lemma ClearedEntry(bytes: seq<octet>, k: nat)
    requires ENTRY * (k + 1) <= |bytes| && forall i | 0 <= i < |bytes| :: bytes[i] == 0
    ensures EntryAt(bytes, k) == EMPTY
  {
  }

  /** The packets that arp_process takes for good ones. */
  predicate Accepted(opHigh: octet, opLow: octet, waiting: bool) {
    opHigh == 0 && (opLow == 1 || (opLow == 2 && waiting))
  }

  class Cache {
    var bytes: array<octet>

    ghost predicate Valid()
      reads this
    {
      bytes.Length == ENTRY * CACHE_ENTRIES
    }

    /** arp_init, the part that clears the cache. */
    constructor ()
      ensures Valid() && fresh(bytes) && Entries(bytes[..]) == Run([])
    {
      bytes := new octet[ENTRY * CACHE_ENTRIES](_ => 0);
      new;
      forall k: nat | k < CACHE_ENTRIES ensures EntryAt(bytes[..], k) == EMPTY {
        ClearedEntry(bytes[..], k);
      }
    }

    /** findip: `at` is the offset of the entry in the cache. */
    method FindIp(ip: Ip) returns (found: bool, at: nat)
      requires Valid()
      ensures var r := Find(Entries(bytes[..]), ip);
              found == r.Some? && (found ==> at == ENTRY * r.value && at + ENTRY <= bytes.Length)
    {
      hide Find;
      at := 0;
      ghost var cache := Entries(bytes[..]);
      ghost var k := 0;
      while at < ENTRY * CACHE_ENTRIES
        invariant at == ENTRY * k <= ENTRY * CACHE_ENTRIES
        invariant forall j | 0 <= j < k :: cache[j].ip != ip && cache[j].ip[0] != 0
      {
        FindAt(cache, ip, k);
        assert cache[k] == EntryAt(bytes[..], k);
        assert cache[k].ip == bytes[at + 6..at + ENTRY];
        if bytes[at + 6] == 0 { return false, at; }
        if bytes[at + 6..at + ENTRY] == ip { return true, at; }
        at, k := at + ENTRY, k + 1;
      }
      FindNowhere(cache, ip);
      found := false;
    }

    /** The seven moves for one column of the cache, last entry first. */
    method MoveColumn(x: nat)
      requires Valid() && x < ENTRY
      modifies bytes
      ensures bytes[..] == Column(old(bytes[..]), x)
    {
      bytes[x + 70] := bytes[x + 60];
      bytes[x + 60] := bytes[x + 50];
      bytes[x + 50] := bytes[x + 40];
      bytes[x + 40] := bytes[x + 30];
      bytes[x + 30] := bytes[x + 20];
      bytes[x + 20] := bytes[x + 10];
      bytes[x + 10] := bytes[x];
    }

    /** ac_add_source: every entry moves down by one and the last one is dropped; the source comes first. */
    method AddSource(source: seq<octet>)
      requires Valid() && |source| == ENTRY
      modifies bytes
      ensures bytes[..] == source + old(bytes[..])[..ENTRY * (CACHE_ENTRIES - 1)]
    {
      hide Column;
      ghost var before := bytes[..];
      var x := 10;
      ShiftedNone(before);
      while x > 0
        invariant 0 <= x <= 10 && bytes[..] == Shifted(before, x)
      {
        x := x - 1;
        ShiftedColumn(before, x);
        MoveColumn(x);
      }
      var y := 10;
      while y > 0
        invariant 0 <= y <= 10
        invariant forall j | ENTRY <= j < bytes.Length :: bytes[j] == before[j - ENTRY]
        invariant forall j | y <= j < ENTRY :: bytes[j] == source[j]
      {
        y := y - 1;
        bytes[y] := source[y];
      }
    }

    /** arp_add. */
    method AddEntry(e: Entry)
      requires Valid()
      modifies bytes
      ensures Entries(bytes[..]) == After(old(Entries(bytes[..])), Add(e))
    {
      hide Find, Entries;
      ghost var before := bytes[..];
      var found, at := FindIp(e.ip);
      if found {
        var source := BytesOf(e);
        var y := 10;
        while y > 0
          invariant 0 <= y <= 10
          invariant forall j | 0 <= j < bytes.Length ::
                      bytes[j] == if at + y <= j < at + ENTRY then source[j - at] else before[j]
        {
          y := y - 1;
          bytes[at + y] := source[y];
        }
        Overwritten(before, bytes[..], at / ENTRY, e);
      } else {
        AddSource(BytesOf(e));
        ShiftedEntries(before, e);
      }
    }

    /** The cache update for the sender of a received packet. */
    method AddSender(e: Entry)
      requires Valid()
      modifies bytes
      ensures Entries(bytes[..]) == After(old(Entries(bytes[..])), FromPacket(e))
    {
      ghost var before := bytes[..];
      AddSource(BytesOf(e));
      ShiftedEntries(before, e);
    }

    /** The part of arp_process that touches the cache: a request counts if it asks for this host, a reply
        only while one is waited for. The carry is promised to be set in the case of an error; it is left so
        by the comparison of the state for an awaited reply as well, and only there the promise fails. */
    method Process(opHigh: octet, opLow: octet, target: Ip, cfgIp: Ip, sender: Entry, waiting: bool)
      returns (carry: bool, stillWaiting: bool)
      requires Valid()
      modifies bytes
      ensures carry <==> !(opHigh == 0 && opLow == 1)
      ensures (carry <==> !Accepted(opHigh, opLow, waiting)) <==> !(opHigh == 0 && opLow == 2 && waiting)
      ensures stillWaiting <==> waiting && !(opHigh == 0 && opLow == 2)
      ensures Entries(bytes[..])
           == if Accepted(opHigh, opLow, waiting) && (opLow == 1 ==> target == cfgIp)
              then After(old(Entries(bytes[..])), FromPacket(sender)) else old(Entries(bytes[..]))
    {
      hide Entries, After;
      carry, stillWaiting := true, waiting;
      if opHigh != 0 { return; }
      if opLow == 1 {
        if target == cfgIp {
          AddSender(sender);
        }
        carry := false;
      } else if opLow == 2 {
        if !waiting { return; }
        // equal states leave the carry set, and nothing behind the comparison clears it
        AddSender(sender);
        stillWaiting := false;
      }
    }

    /** arp_lookup, up to a miss: `asked` is the address the cache (and then the request) is asked for. */
    method Lookup(ip: Ip, gateway: Ip, mask: seq<octet>, test: seq<octet>, last: nat, stray: bool, ghost netmask: Ip)
      returns (hit: bool, mac: Mac, asked: Ip)
      requires Valid() && GatewayTables(mask, test, last, netmask, gateway)
      ensures ip == BROADCAST_IP ==> hit && mac == BROADCAST_MAC
      ensures ip != BROADCAST_IP ==>
                && asked == (if TakesGateway(ip, gateway, netmask, stray) then gateway else ip)
                && var r := Find(Entries(bytes[..]), asked);
                   hit == r.Some? && (hit ==> mac == Entries(bytes[..])[r.value].mac)
    {
      hide Find;
      asked, mac := ip, BROADCAST_MAC;
      AllOnes(ip);
      if ip[0] & ip[1] & ip[2] & ip[3] == 0xff { return true, mac, asked; }
      var remote := SubnetTest(ip, mask, test, last, stray, netmask, gateway);
      if remote {
        asked := gateway;
      }
      var at;
      hit, at := FindIp(asked);
      if hit {
        mac := bytes[at..at + 6];
      }
    }
  }

  const BROADCAST_IP: Ip := [0xff, 0xff, 0xff, 0xff]
  const BROADCAST_MAC: Mac := [0xff, 0xff, 0xff, 0xff, 0xff, 0xff]

  lemma AllOnes(ip: Ip)
    ensures ip[0] & ip[1] & ip[2] & ip[3] == 0xff <==> ip == BROADCAST_IP
  {
    AndOnes(ip[0], ip[1], ip[2], ip[3]);
    assert ip == [ip[0], ip[1], ip[2], ip[3]];
  }

  lemma AndOnes(a: octet, b: octet, c: octet, d: octet)
    ensures a & b & c & d == 0xff <==> a == 0xff && b == 0xff && c == 0xff && d == 0xff
  {
  }

  lemma ShiftedEntries(s: seq<octet>, e: Entry)
    requires |s| == ENTRY * CACHE_ENTRIES
    ensures Entries(BytesOf(e) + s[..ENTRY * (CACHE_ENTRIES - 1)]) == Shift(Entries(s), e)
  {
    var t := BytesOf(e) + s[..ENTRY * (CACHE_ENTRIES - 1)];
    forall k | 0 <= k < CACHE_ENTRIES ensures Entries(t)[k] == Shift(Entries(s), e)[k] {
      if k == 0 {
        assert EntryAt(t, 0) == e;
      } else {
        assert EntryAt(t, k) == EntryAt(s, k - 1);
      }
    }
  }

  lemma Overwritten(s: seq<octet>, t: seq<octet>, k: nat, e: Entry)
    requires |s| == |t| == ENTRY * CACHE_ENTRIES && k < CACHE_ENTRIES
    requires forall j | 0 <= j < |s| :: t[j] == if ENTRY * k <= j < ENTRY * k + ENTRY then BytesOf(e)[j - ENTRY * k] else s[j]
    ensures Entries(t) == Entries(s)[k := e]
  {
    forall i | 0 <= i < CACHE_ENTRIES ensures Entries(t)[i] == Entries(s)[k := e][i] {
      if i == k {
        assert t[ENTRY * k..ENTRY * k + 6] == e.mac && t[ENTRY * k + 6..ENTRY * k + ENTRY] == e.ip;
      } else {
        assert t[ENTRY * i..ENTRY * i + 6] == s[ENTRY * i..ENTRY * i + 6];
        assert t[ENTRY * i + 6..ENTRY * i + ENTRY] == s[ENTRY * i + 6..ENTRY * i + ENTRY];
      }
    }
  }

  function Column(s: seq<octet>, x: nat): (r: seq<octet>)
    requires |s| == ENTRY * CACHE_ENTRIES && x < ENTRY
    ensures |r| == |s|
  {
    s[x + 70 := s[x + 60]][x + 60 := s[x + 50]][x + 50 := s[x + 40]][x + 40 := s[x + 30]][x + 30 := s[x + 20]][x + 20 := s[x + 10]][x + 10 := s[x]]
  }

  /** The columns from x on have been moved down by one entry. */
  function Shifted(s: seq<octet>, x: nat): (r: seq<octet>)
    requires |s| == ENTRY * CACHE_ENTRIES
    ensures |r| == |s|
  {
    seq(|s|, j requires 0 <= j < |s| => if j >= ENTRY && j % ENTRY >= x then s[j - ENTRY] else s[j])
  }

  lemma ShiftedNone(s: seq<octet>)
    requires |s| == ENTRY * CACHE_ENTRIES
    ensures Shifted(s, ENTRY) == s
  {
  }

  lemma ColumnAt(s: seq<octet>, x: nat, j: nat)
    requires |s| == ENTRY * CACHE_ENTRIES && x < ENTRY && j < |s|
    ensures Column(s, x)[j] == if j >= ENTRY && j % ENTRY == x then s[j - ENTRY] else s[j]
  {
    var row := j / ENTRY;
    assert j == ENTRY * row + j % ENTRY;
    if j % ENTRY != x {
      assert j !in {x + 10, x + 20, x + 30, x + 40, x + 50, x + 60, x + 70};
    } else {
      assert row in {0, 1, 2, 3, 4, 5, 6, 7};
    }
  }

  lemma ShiftedColumn(s: seq<octet>, x: nat)
    requires |s| == ENTRY * CACHE_ENTRIES && x < ENTRY
    ensures Shifted(s, x) == Column(Shifted(s, x + 1), x)
  {
    hide Column;
    var t := Shifted(s, x + 1);
    forall j | 0 <= j < |s| ensures Shifted(s, x)[j] == Column(t, x)[j] {
      ColumnAt(t, x, j);
      if j >= ENTRY {
        RowAbove(j);
      }
    }
  }

  lemma RowAbove(j: nat)
    requires j >= ENTRY
    ensures (j - ENTRY) % ENTRY == j % ENTRY
  {
  }

  lemma FindAt(cache: seq<Entry>, ip: Ip, k: nat)
    requires k < |cache|
    requires forall j | 0 <= j < k :: cache[j].ip != ip && cache[j].ip[0] != 0
    ensures cache[k].ip[0] == 0 ==> Find(cache, ip).None?
    ensures cache[k].ip[0] != 0 && cache[k].ip == ip ==> Find(cache, ip) == Some(k)
  {
    FindFrom(cache, ip, k);
  }

  lemma FindNowhere(cache: seq<Entry>, ip: Ip)
    requires forall j | 0 <= j < |cache| :: cache[j].ip != ip
    ensures Find(cache, ip).None?
  {
  }

  // ----- The gateway -----

  function Masked(a: octet, m: octet): octet { a & m }

  function Inverted(m: octet): octet { m ^ 0xff }

  function Merged(a: octet, b: octet): octet { a | b }

  lemma InvertedZero(m: octet)
    ensures Inverted(m) == 0xff <==> m == 0
  {
  }

  lemma MergedTest(a: octet, g: octet, m: octet)
    ensures Merged(a, Inverted(m)) == Merged(Inverted(m), g) <==> Masked(a, m) == Masked(g, m)
  {
  }

  lemma FlippedDiffers(g: octet, m: octet)
    ensures Masked(Inverted(g), m) != Masked(g, m) <==> m != 0
  {
  }

  /** A host is remote if it differs from the gateway under the netmask. */
  predicate Remote(ip: Ip, gateway: Ip, netmask: Ip) {
    !Agree(ip, gateway, netmask, 0, 4)
  }

  /** Octets a up to b are the same under the netmask. */
  predicate Agree(ip: Ip, gateway: Ip, netmask: Ip, a: nat, b: nat)
    requires b <= 4
  {
    forall x | a <= x < b :: Masked(ip[x], netmask[x]) == Masked(gateway[x], netmask[x])
  }

  /** How many of the octets from x on are zero. */
  function ZeroOctets(netmask: Ip, x: nat): (r: nat)
    requires x <= 4
    ensures r <= 4 - x
    decreases 4 - x
  {
    if x == 4 then 0 else (if netmask[x] == 0 then 1 else 0) + ZeroOctets(netmask, x + 1)
  }

  /** gw_last after this many zero octets: it starts at 0xff and wraps around. */
  function Last(zeros: nat): nat {
    if zeros == 0 then 0xff else zeros - 1
  }

  lemma LastStep(netmask: Ip, x: nat)
    requires x < 4
    ensures ZeroOctets(netmask, x) == ZeroOctets(netmask, x + 1) + if netmask[x] == 0 then 1 else 0
    ensures Last(ZeroOctets(netmask, x + 1) + 1) == (Last(ZeroOctets(netmask, x + 1)) + 1) % 0x100
  {
  }

  lemma NoneSoFar(netmask: Ip)
    ensures Last(ZeroOctets(netmask, 4)) == 0xff
  {
  }

  /** gw_mask, gw_test and gw_last belong to this netmask and gateway. `last` is meant to be the netmask's
      length less one, but every zero octet of the netmask is counted. With none, it stays at 0xff. */
  ghost predicate GatewayTables(mask: seq<octet>, test: seq<octet>, last: nat, netmask: Ip, gateway: Ip) {
    && |mask| == |test| == 4
    && (forall x | 0 <= x < 4 :: mask[x] == Inverted(netmask[x]) && test[x] == Merged(mask[x], gateway[x]))
    && last == Last(ZeroOctets(netmask, 0))
  }

  /** arp_calculate_gateway_mask. */
  method CalculateGatewayMask(netmask: Ip, gateway: Ip) returns (mask: array<octet>, test: array<octet>, last: nat)
    ensures fresh(mask) && fresh(test) && GatewayTables(mask[..], test[..], last, netmask, gateway)
  {
    hide Inverted, Merged, ZeroOctets, Last;
    NoneSoFar(netmask);
    mask, test := new octet[4], new octet[4];
    last := 0xff;
    var x := 4;
    while x > 0
      invariant 0 <= x <= 4
      invariant forall j | x <= j < 4 :: mask[j] == Inverted(netmask[j]) && test[j] == Merged(mask[j], gateway[j])
      invariant last == Last(ZeroOctets(netmask, x))
    {
      x := x - 1;
      LastStep(netmask, x);
      var a := Inverted(netmask[x]);
      InvertedZero(netmask[x]);
      if a == 0xff {
        last := (last + 1) % 0x100;
      }
      mask[x] := a;
      test[x] := Merged(a, gateway[x]);
    }
  }

  /** What the subnet test of arp_lookup decides: octets 0 up to `last` are compared. With `last` at 0xff
      the one comparison made is of bytes behind the three variables; `stray` is its outcome. */
  predicate TakesGateway(ip: Ip, gateway: Ip, netmask: Ip, stray: bool) {
    var zeros := ZeroOctets(netmask, 0);
    if zeros == 0 then stray else !Agree(ip, gateway, netmask, 0, zeros)
  }

  method SubnetTest(ip: Ip, mask: seq<octet>, test: seq<octet>, last: nat, stray: bool,
                    ghost netmask: Ip, ghost gateway: Ip) returns (remote: bool)
    requires GatewayTables(mask, test, last, netmask, gateway)
    ensures remote == TakesGateway(ip, gateway, netmask, stray)
  {
    hide Inverted, Merged, Masked;
    if last == 0xff { return stray; }
    var x := last + 1;
    while x > 0
      invariant 0 <= x <= last + 1 <= 4 && Agree(ip, gateway, netmask, x, last + 1)
    {
      x := x - 1;
      MergedTest(ip[x], gateway[x], netmask[x]);
      if Merged(ip[x], mask[x]) != test[x] { return true; }
    }
    remote := false;
  }

  /** The test is right for every address if and only if some octet of the netmask is zero and every octet
      that is not is among the first z, z being the number of octets that are zero. */
  lemma GatewayRight(gateway: Ip, netmask: Ip, stray: bool)
    ensures (forall ip: Ip :: TakesGateway(ip, gateway, netmask, stray) == Remote(ip, gateway, netmask))
            <==> ZeroOctets(netmask, 0) > 0 && forall x | ZeroOctets(netmask, 0) <= x < 4 :: netmask[x] == 0
  {
    hide Inverted, Masked, ZeroOctets;
    var zeros := ZeroOctets(netmask, 0);
    if zeros == 0 {
      NoZeroOctets(netmask);
      var far: Ip := gateway[0 := Inverted(gateway[0])];
      FlippedDiffers(gateway[0], netmask[0]);
      assert !Agree(far, gateway, netmask, 0, 4);
      assert Remote(far, gateway, netmask) && !Remote(gateway, gateway, netmask);
    } else if x :| zeros <= x < 4 && netmask[x] != 0 {
      var far: Ip := gateway[x := Inverted(gateway[x])];
      FlippedDiffers(gateway[x], netmask[x]);
      assert !Agree(far, gateway, netmask, 0, 4);
      assert Remote(far, gateway, netmask) && !TakesGateway(far, gateway, netmask, stray);
    } else {
      forall ip: Ip ensures TakesGateway(ip, gateway, netmask, stray) == Remote(ip, gateway, netmask) {
        MaskedOut(ip, gateway, netmask, zeros);
      }
    }
  }

  lemma NoZeroOctets(netmask: Ip)
    requires ZeroOctets(netmask, 0) == 0
    ensures netmask[0] != 0
  {
  }

  lemma MaskedOut(ip: Ip, gateway: Ip, netmask: Ip, zeros: nat)
    requires zeros <= 4 && forall x | zeros <= x < 4 :: netmask[x] == 0
    ensures Agree(ip, gateway, netmask, zeros, 4)
  {
  }

  /** A contiguous netmask, all of whose bits that are zero come last. */
  predicate Contiguous(netmask: Ip) {
    forall x | 0 <= x < 3 && netmask[x] != 0xff :: netmask[x + 1] == 0
  }

  /** For contiguous netmasks: at least two octets must be zero, as on a /16 or larger network. */
  lemma ContiguousGatewayRight(gateway: Ip, netmask: Ip, stray: bool)
    requires Contiguous(netmask)
    ensures (forall ip: Ip :: TakesGateway(ip, gateway, netmask, stray) == Remote(ip, gateway, netmask))
            <==> netmask[2] == 0 && netmask[3] == 0
  {
    hide TakesGateway, Remote;
    GatewayRight(gateway, netmask, stray);
  }

  /** What is decided for each address on a contiguous netmask, in plain octets. On a /24 or down to a /17 network the first
      octet alone decides; on a smaller one no octet of the address does. */
  lemma ContiguousDecides(ip: Ip, gateway: Ip, netmask: Ip, stray: bool)
    requires Contiguous(netmask)
    ensures TakesGateway(ip, gateway, netmask, stray)
            <==> if netmask[3] != 0 then stray else if netmask[2] != 0 then ip[0] != gateway[0] else Remote(ip, gateway, netmask)
  {
    hide Masked;
    if netmask[3] == 0 {
      if netmask[2] != 0 {
        assert netmask[0] == netmask[1] == 0xff && ZeroOctets(netmask, 0) == 1;
        WholeOctet(ip[0], gateway[0]);
      } else {
        MaskedOut(ip, gateway, netmask, ZeroOctets(netmask, 0));
      }
    }
  }

  lemma WholeOctet(a: octet, g: octet)
    ensures Masked(a, 0xff) == Masked(g, 0xff) <==> a == g
  {
  }

  /** The gateway is never taken for a local host unless gw_last is 0xff, whatever the netmask. */
  lemma LocalKept(ip: Ip, gateway: Ip, netmask: Ip, stray: bool)
    requires Last(ZeroOctets(netmask, 0)) != 0xff && TakesGateway(ip, gateway, netmask, stray)
    ensures Remote(ip, gateway, netmask)
  {
    hide Masked;
  }

  /** A remote host is missed if and only if it agrees with the gateway in the first z octets, z being the number of octets
      of the netmask that are zero. */
  lemma RemoteMissed(ip: Ip, gateway: Ip, netmask: Ip, stray: bool)
    requires Contiguous(netmask) && netmask[3] == 0 && Remote(ip, gateway, netmask)
    ensures !TakesGateway(ip, gateway, netmask, stray) <==> ip[..ZeroOctets(netmask, 0)] == gateway[..ZeroOctets(netmask, 0)]
  {
    hide TakesGateway, Remote, Masked;
    var z := ZeroOctets(netmask, 0);
    ContiguousDecides(ip, gateway, netmask, stray);
    if netmask[2] != 0 {
      assert netmask[0] == netmask[1] == 0xff && z == 1;
      assert ip[..1] == [ip[0]] && gateway[..1] == [gateway[0]];
    } else if ip[..z] == gateway[..z] {
      AgreeThen(ip, gateway, netmask, z);
    }
  }

  lemma AgreeThen(ip: Ip, gateway: Ip, netmask: Ip, z: nat)
    requires z <= 4 && ip[..z] == gateway[..z] && forall x | z <= x < 4 :: netmask[x] == 0
    ensures !Remote(ip, gateway, netmask)
  {
    MaskedOut(ip, gateway, netmask, z);
    forall x | 0 <= x < z ensures ip[x] == gateway[x] {
      assert ip[..z][x] == gateway[..z][x];
    }
  }

  /** An example: on a /24 network, a host of another subnet is taken for a local one. */
  lemma GatewayMissed()
    ensures Remote([192, 168, 5, 7], [192, 168, 0, 1], [255, 255, 255, 0])
    ensures !TakesGateway([192, 168, 5, 7], [192, 168, 0, 1], [255, 255, 255, 0], false)
  {
    var ip: Ip := [192, 168, 5, 7];
    assert Masked(ip[2], 255) != Masked(0, 255);
    assert !Agree(ip, [192, 168, 0, 1], [255, 255, 255, 0], 0, 4);
  }
}
