/** The W5100 socket of w5100.c: chip memory seen through an auto-incrementing data port, ring
    buffers behind free-running 16-bit pointers, and the request/commit pair of the host. The chip
    acts between any two host accesses. */
module W5100 {
  import opened Bytes

  // ----- Ring windows -----

  function And(a: nat, b: nat): nat {
    if a == 0 || b == 0 then 0 else 2 * And(a / 2, b / 2) + if a % 2 == 1 && b % 2 == 1 then 1 else 0
  }

  function Or(a: nat, b: nat): nat {
    if a == 0 then b else if b == 0 then a
    else 2 * Or(a / 2, b / 2) + if a % 2 == 1 || b % 2 == 1 then 1 else 0
  }

  function Pow2(k: nat): (r: nat)
    ensures r >= 1
  {
    if k == 0 then 1 else 2 * Pow2(k - 1)
  }

  /** The bank of a socket's ring: `limit` and `mask` of the source are basis + size and size - 1. */
  datatype Window = Window(basis: nat, size: nat) {
    ghost predicate Ok(bank: nat) {
      && size in {0x400, 0x800, 0x1000, 0x2000}
      && bank <= basis && basis + size <= bank + 0x2000
      && basis % size == 0
    }

    /** Where the byte at free-running position `k` lives. */
    function Cell(k: nat): nat
      requires size > 0
    {
      basis + k % size
    }

    /** The address the host computes from a pointer register. */
    function Physical(pointer: word): nat
      requires size > 0
    {
      Or(And(pointer, size - 1), basis)
    }
  }

  const RX_BANK: nat := 0x6000
  const TX_BANK: nat := 0x4000
  const MEMORY: nat := 0x8000

  function MemorySize(code: nat): nat
    requires code < 4
  {
    Pow2(10 + code)
  }

  /** w5100_config: socket 1 follows socket 0 in its bank; `sizes` is the memory size register. */
  function Config(bank: nat, sizes: byte): Window {
    var socket0, socket1 := MemorySize(sizes % 4), MemorySize(sizes / 4 % 4);
    Window(bank + socket0, socket1)
  }

  lemma {:induction false} AndMask(p: nat, k: nat)
    ensures And(p, Pow2(k) - 1) == p % Pow2(k)
  {
    if k > 0 {
      var m := Pow2(k - 1);
      AndMask(p / 2, k - 1);
      HalfMod(p, m);
      AndOdd(p, m - 1);
    }
  }

  lemma AndOdd(p: nat, half: nat)
    ensures And(p, 2 * half + 1) == 2 * And(p / 2, half) + p % 2
  {
  }

  lemma HalfMod(p: nat, m: nat)
    requires m > 0
    ensures p % (2 * m) == 2 * (p / 2 % m) + p % 2
  {
    var q, r := p / 2 / m, p / 2 % m;
    assert p == (2 * m) * q + (2 * r + p % 2);
    ModUnique(p, 2 * m, q, 2 * r + p % 2);
  }

  lemma {:induction false} OrDisjoint(a: nat, b: nat, k: nat)
    requires a < Pow2(k) && b % Pow2(k) == 0
    ensures Or(a, b) == a + b
  {
    if a > 0 && b > 0 {
      HalfMod(b, Pow2(k - 1));
      OrDisjoint(a / 2, b / 2, k - 1);
    }
  }

  lemma {:induction false} OrAbsorbs(b: nat, k: nat)
    ensures Or(b % Pow2(k), b) == b
  {
    var low := b % Pow2(k);
    if k > 0 && low != 0 {
      HalfMod(b, Pow2(k - 1));
      assert low / 2 == b / 2 % Pow2(k - 1) && low % 2 == b % 2;
      OrAbsorbs(b / 2, k - 1);
    }
  }

  /** `(pointer & mask) | basis` walks the ring for every pointer value if and only if the ring's
      base is aligned to its size. */
  lemma PhysicalIsCell(w: Window, k: nat)
    requires w.size == Pow2(k) && k <= 16
    ensures w.basis % w.size == 0 <==> forall p: word :: w.Physical(p) == w.Cell(p)
  {
    if w.basis % w.size == 0 {
      forall p: word ensures w.Physical(p) == w.Cell(p) {
        AndMask(p, k);
        OrDisjoint(p % w.size, w.basis, k);
      }
    } else {
      var p := w.basis % w.size;
      Pow2Bound(k);
      ModUnique(p, w.size, 0, p);
      AndMask(p, k);
      OrAbsorbs(w.basis, k);
      assert w.Physical(p) != w.Cell(p);
    }
  }

  lemma {:induction false} Pow2Bound(k: nat)
    requires k <= 16
    ensures Pow2(k) <= 0x1_0000
  {
    assert Pow2(8) == 0x100;
    assert Pow2(12) == 0x1000;
    assert Pow2(16) == 0x1_0000;
    Pow2Monotone(k, 16);
  }

  lemma {:induction false} Pow2Monotone(j: nat, k: nat)
    requires j <= k
    ensures Pow2(j) <= Pow2(k)
  {
    if j < k { Pow2Monotone(j, k - 1); }
  }

  /** Socket 1's ring lies in its bank and is aligned exactly when it is not larger than socket 0's
      and the two fit; the 4K/4K split of the driver is such a setting. */
  lemma ConfigOk(sizes: byte)
    ensures Config(RX_BANK, sizes).Ok(RX_BANK) <==> sizes / 4 % 4 <= sizes % 4 < 3
    ensures Config(TX_BANK, sizes).Ok(TX_BANK) <==> sizes / 4 % 4 <= sizes % 4 < 3
    ensures Config(RX_BANK, 0x0a) == Window(0x7000, 0x1000) && Config(TX_BANK, 0x0a) == Window(0x5000, 0x1000)
  {
    MemorySizes();
    SplitOk(RX_BANK, sizes % 4, sizes / 4 % 4);
    SplitOk(TX_BANK, sizes % 4, sizes / 4 % 4);
  }

  lemma SplitOk(bank: nat, s0: nat, s1: nat)
    requires s0 < 4 && s1 < 4 && bank in {RX_BANK, TX_BANK}
    ensures Window(bank + MemorySize(s0), MemorySize(s1)).Ok(bank) <==> s1 <= s0 < 3
  {
    MemorySizes();
  }

  lemma MemorySizes()
    ensures MemorySize(0) == 0x400 && MemorySize(1) == 0x800 && MemorySize(2) == 0x1000 && MemorySize(3) == 0x2000
  {
    assert Pow2(8) == 0x100;
    assert Pow2(10) == 0x400;
    assert Pow2(12) == 0x1000;
  }

  lemma CellOfPointer(w: Window, bank: nat, k: nat)
    requires w.Ok(bank)
    ensures w.Physical(k % 0x1_0000) == w.Cell(k)
  {
    SizeIsPow2(w.size);
    PointerMod(k, w.size, if w.size == 0x400 then 0x40 else if w.size == 0x800 then 0x20 else if w.size == 0x1000 then 0x10 else 8);
    var e :| 10 <= e < 14 && w.size == Pow2(e);
    PhysicalIsCell(w, e);
    var p: word := k % 0x1_0000;
    assert w.Physical(p) == w.Cell(p);
  }

  lemma SizeIsPow2(size: nat)
    requires size in {0x400, 0x800, 0x1000, 0x2000}
    ensures exists e: nat :: 10 <= e < 14 && size == Pow2(e)
  {
    MemorySizes();
    assert forall code: nat | code < 4 :: MemorySize(code) == Pow2(10 + code);
  }

  lemma PointerMod(k: nat, size: nat, rings: nat)
    requires size > 0 && size * rings == 0x1_0000
    ensures k % 0x1_0000 % size == k % size
  {
    var high, low := DivMod(k, 0x1_0000);
    var q, r := DivMod(low, size);
    assert (size * rings) * high == size * (rings * high);
    assert k == size * (rings * high + q) + r;
    ModUnique(k, size, rings * high + q, r);
  }

  /** Two positions less than a ring apart never share a cell. */
  lemma CellsDistinct(w: Window, j: nat, k: nat)
    requires w.size > 0 && j < k < j + w.size
    ensures w.Cell(j) != w.Cell(k)
  {
    var q, r := DivMod(j, w.size);
    var i := r + (k - j);
    if i < w.size {
      ModUnique(k, w.size, q, i);
    } else {
      assert w.size * (q + 1) == w.size * q + w.size;
      ModUnique(k, w.size, q + 1, i - w.size);
    }
  }

  lemma CellsContiguous(w: Window, k: nat, i: nat)
    requires w.size > 0 && w.Cell(k) + i < w.basis + w.size
    ensures w.Cell(k + i) == w.Cell(k) + i
  {
    var q, r := DivMod(k, w.size);
    ModUnique(k + i, w.size, q, r + i);
  }

  // ----- The size registers are two bytes wide and change between the two reads -----

  /** High byte of one value, low byte of a later one. */
  function Torn(a: word, b: word): word {
    Word(Lo(b), Hi(a))
  }

  /** A torn reading that repeats is a value the register really had in between; one that does not
      repeat shows that the register has moved. */
  lemma RepeatedReading(a: word, b: word, c: word, d: word)
    requires a <= b <= c <= d
    ensures Torn(a, b) == Torn(c, d) ==> Torn(c, d) == b
    ensures Torn(a, b) != Torn(c, d) ==> a + b < c as int + d
  {
  }

  // ----- Chip and socket -----

  /** The `n` bytes of a TX ring from position `from` on. */
  function CellsOf(mem: seq<byte>, w: Window, from: nat, n: nat): (s: seq<byte>)
    requires |mem| == MEMORY && w.Ok(TX_BANK)
    ensures |s| == n && forall i | 0 <= i < n :: s[i] == mem[w.Cell(from + i)]
  {
    seq(n, i requires 0 <= i < n => mem[w.Cell(from + i)])
  }

  lemma CellsOfBank(mem: seq<byte>, mem': seq<byte>, w: Window, from: nat, n: nat)
    requires |mem| == |mem'| == MEMORY && w.Ok(TX_BANK)
    requires mem[TX_BANK..RX_BANK] == mem'[TX_BANK..RX_BANK]
    ensures CellsOf(mem, w, from, n) == CellsOf(mem', w, from, n)
  {
    forall i | 0 <= i < n ensures CellsOf(mem, w, from, n)[i] == CellsOf(mem', w, from, n)[i] {
      var at := w.Cell(from + i);
      assert mem[TX_BANK..RX_BANK][at - TX_BANK] == mem[at];
      assert mem'[TX_BANK..RX_BANK][at - TX_BANK] == mem'[at];
    }
  }

  lemma StagedCells(mem: seq<byte>, w: Window, staged: seq<byte>, from: nat, n: nat)
    requires |mem| == MEMORY && w.Ok(TX_BANK) && from <= |staged|
    requires forall k | from <= k < |staged| :: mem[w.Cell(k)] == staged[k]
    ensures forall k | from <= k < |staged| + n :: mem[w.Cell(k)] == (staged + CellsOf(mem, w, |staged|, n))[k]
  {
    var bytes := CellsOf(mem, w, |staged|, n);
    forall k | from <= k < |staged| + n ensures mem[w.Cell(k)] == (staged + bytes)[k] {
      if k >= |staged| {
        assert bytes[k - |staged|] == mem[w.Cell(|staged| + (k - |staged|))];
      }
    }
  }

  lemma PointerAdd(k: nat, n: nat)
    ensures (k % 0x1_0000 + n) % 0x1_0000 == (k + n) % 0x1_0000
  {
  }

  datatype Command = Idle | Recv | Send

  /** What the chip does: a byte arrives, the pending command ends, the peer acknowledges bytes, or it closes. */
  datatype ChipStep = Arrival(b: byte) | Completion | Acknowledgement(n: nat) | Disconnection

  /** The bytes that come in by these steps on a connection that is there. */
  function Coming(steps: seq<ChipStep>): seq<byte> {
    if steps == [] || steps[0].Disconnection? then []
    else (if steps[0].Arrival? then [steps[0].b] else []) + Coming(steps[1..])
  }

  lemma {:induction false} ComingNext(steps: seq<ChipStep>, i: nat)
    requires i < |steps|
    ensures Coming(steps[..i + 1])
         == Coming(steps[..i]) + if Disconnection !in steps[..i] && steps[i].Arrival? then [steps[i].b] else []
  {
    var more := steps[..i + 1];
    if i == 0 {
      assert more == [steps[0]] && more[1..] == [] && steps[..0] == [];
    } else {
      ComingNext(steps[1..], i - 1);
      assert more[1..] == steps[1..][..i] && steps[..i][1..] == steps[1..][..i - 1];
      assert steps[..i] == [steps[0]] + steps[1..][..i - 1];
    }
  }

  lemma NothingComing(steps: seq<ChipStep>)
    ensures Coming(steps[..0]) == []
  {
  }

  lemma {:induction false} ComingPrefix(steps: seq<ChipStep>, i: nat)
    requires i <= |steps|
    ensures |Coming(steps[..i])| <= |Coming(steps)|
    decreases |steps| - i
  {
    if i < |steps| {
      ComingNext(steps, i);
      ComingPrefix(steps, i + 1);
    } else {
      assert steps[..i] == steps;
    }
  }

  /** The arrival of these bytes, one after the other. */
  function Arrivals(data: seq<byte>): (steps: seq<ChipStep>)
    ensures |steps| == |data| && forall i | 0 <= i < |data| :: steps[i] == Arrival(data[i])
  {
    seq(|data|, i requires 0 <= i < |data| => Arrival(data[i]))
  }

  lemma {:induction false} ArrivalsCome(data: seq<byte>)
    ensures Coming(Arrivals(data)) == data && Coming([Completion] + Arrivals(data)) == data
  {
    var steps := Arrivals(data);
    if data != [] {
      ArrivalsCome(data[1..]);
      assert steps[1..] == Arrivals(data[1..]);
    }
    assert ([Completion] + steps)[1..] == steps;
  }

  class Socket {
    // what the chip does between any two host accesses, and the number of these moments so far; behind the
    // end of the script it is silent
    const script: seq<seq<ChipStep>>
    var clock: nat

    // chip memory, address register of the data port, socket registers
    var mem: seq<byte>
    var address: nat
    var command: Command
    var connected: bool
    var rxSize: word   // received size
    var rxRead: word   // read pointer
    var txFree: word   // free size
    var txWrite: word  // write pointer

    // addr_basis, addr_limit, addr_mask
    var rxWindow: Window
    var txWindow: Window

    // the world outside the registers: everything the peer ever sent to this socket, how much of it the host has
    // committed and the chip has released; everything the host ever committed for sending, how
    // much of it the chip has sent and the peer has acknowledged
    var received: seq<byte>
    var consumed: nat
    var commits: seq<nat>  // the stream positions that the host has committed up to, one for each RECV
    var taken: nat
    var staged: seq<byte>
    var transmitted: seq<byte>
    var acked: nat

    /** The socket behind w5100_config and a connect: `rxSizes` and `txSizes` are the memory size registers. */
    constructor (rxSizes: byte, txSizes: byte, script: seq<seq<ChipStep>>)
      requires Config(RX_BANK, rxSizes).Ok(RX_BANK) && Config(TX_BANK, txSizes).Ok(TX_BANK)
      ensures Valid() && connected && command == Idle && clock == 0 && this.script == script
      ensures received == transmitted == staged == [] && consumed == 0 && commits == []
      ensures rxWindow == Config(RX_BANK, rxSizes) && txWindow == Config(TX_BANK, txSizes)
    {
      this.script, clock := script, 0;
      mem, address, command, connected := seq(MEMORY, _ => 0), 0, Idle, true;
      rxWindow, txWindow := Config(RX_BANK, rxSizes), Config(TX_BANK, txSizes);
      rxSize, rxRead, txFree, txWrite := 0, 0, Config(TX_BANK, txSizes).size, 0;
      received, consumed, commits, taken, staged, transmitted, acked := [], 0, [], 0, [], [], 0;
    }

    ghost predicate Valid()
      reads this
    {
      ValidRx() && ValidTx() && |mem| == MEMORY && taken <= consumed <= |received|
    }

    ghost predicate ValidRx()
      reads this
    {
      && |mem| == MEMORY && rxWindow.Ok(RX_BANK)
      && taken <= consumed <= |received|
      && rxRead == consumed % 0x1_0000
      && rxSize == |received| - taken <= rxWindow.size
      && (command != Recv ==> taken == consumed)
      && forall k | taken <= k < |received| :: mem[rxWindow.Cell(k)] == received[k]
    }

    ghost predicate ValidTx()
      reads this
    {
      && |mem| == MEMORY && txWindow.Ok(TX_BANK)
      && acked <= |transmitted| <= |staged| <= acked + txWindow.size
      && txWrite == |staged| % 0x1_0000
      && txFree == txWindow.size - (|transmitted| - acked)
      && transmitted == staged[..|transmitted|]
      && (command != Send ==> transmitted == staged)
      && forall k | |transmitted| <= k < |staged| :: mem[txWindow.Cell(k)] == staged[k]
    }

    // ----- The script -----

    function At(k: nat): seq<ChipStep> {
      if k < |script| then script[k] else []
    }

    /** The peer does not close at the moments from `from` up to `to`. */
    ghost predicate Open(from: nat, to: nat) {
      forall k | from <= k < to :: Disconnection !in At(k)
    }

    /** Nothing happens at the n moments from `from` on. */
    ghost predicate Quietly(from: nat, n: nat) {
      forall k | from <= k < from + n :: At(k) == []
    }

    /** Nothing happens at the next n moments. */
    ghost predicate Silent(n: nat)
      reads this`clock
    {
      Quietly(clock, n)
    }

    /** The next request of the host will find a command pending. */
    ghost predicate Pending()
      reads this`clock, this`command
    {
      command != Idle && Completion !in At(clock)
    }

    /** The bytes that come in at moment k. */
    function Response(k: nat): seq<byte> {
      Coming(At(k))
    }

    // ----- Registers -----

    /** Every received byte has been committed by the host. */
    ghost predicate Drained()
      reads this
    {
      consumed == |received|
    }

    /** What the received size register reads once a pending RECV has released its bytes. */
    ghost function Unread(): int
      reads this
    {
      rxSize as int - (consumed - taken)
    }

    lemma DrainedIsEmpty()
      requires Valid()
      ensures Drained() <==> Unread() == 0
      ensures command != Recv ==> Unread() == rxSize
      ensures Unread() == |received| - consumed && rxWindow.Ok(RX_BANK)
    {
    }

    function Available(doSend: bool): word
      reads this
    {
      if doSend then txFree else rxSize
    }

    ghost function Position(doSend: bool): nat
      reads this
    {
      if doSend then |staged| else consumed
    }

    function Ring(doSend: bool): Window
      reads this
    {
      if doSend then txWindow else rxWindow
    }

    /** What a request grants whose readings of the registers are all the same. */
    ghost function Granted(doSend: bool): nat
      requires Valid()
      reads this
    {
      var ring := Ring(doSend);
      var room := ring.basis + ring.size - ring.Cell(Position(doSend));
      if Available(doSend) < room then Available(doSend) else room
    }

    /** Of `n` bytes the host may access through the data port, `i` have been accessed. */
    ghost predicate Accessing(doSend: bool, i: nat, n: nat)
      reads this
    {
      && command == Idle && i <= n <= Available(doSend)
      && Ring(doSend).size > 0
      && address == Ring(doSend).Cell(Position(doSend)) + i
      && Ring(doSend).Cell(Position(doSend)) + n <= Ring(doSend).basis + Ring(doSend).size
    }

    lemma FreeSpace(i: nat, n: nat)
      requires Valid() && Accessing(true, i, n)
      ensures command == Idle && |staged| + n <= acked + txWindow.size && txWindow.Ok(TX_BANK)
    {
    }

    lemma IdleNow(doSend: bool, i: nat, n: nat)
      requires Accessing(doSend, i, n)
      ensures command == Idle
    {
    }

    lemma NothingPending()
      requires Valid() && command != Send
      ensures transmitted == staged
    {
    }

    lemma Fewer(doSend: bool, n: nat, m: nat)
      requires Accessing(doSend, 0, n) && m <= n
      ensures Accessing(doSend, 0, m)
    {
    }

    /** The clock goes on, and the connection is there as long as the peer has not closed. */
    twostate predicate Linked()
      reads this`clock, this`connected
    {
      old(clock) <= clock && (connected <==> old(connected) && Open(old(clock), clock))
    }

    /** What any number of moments leaves alone, and the direction in which the rest moves. */
    twostate predicate Evolved()
      reads this
    {
      Acted() && Linked()
    }

    twostate predicate Acted()
      reads this
    {
      && Moved()
      && |mem| == |old(mem)| == MEMORY && mem[TX_BANK..RX_BANK] == old(mem)[TX_BANK..RX_BANK]
    }

    /** The part of it that a copy loop of the host relies on. */
    twostate predicate Quiet()
      reads this
    {
      && consumed == old(consumed) && staged == old(staged) && old(received) <= received
      && txWindow == old(txWindow) && rxWindow == old(rxWindow) && commits == old(commits) && Linked()
    }

    /** Nothing that the host can read has changed. */
    twostate predicate Still()
      reads this
    {
      && received == old(received) && connected == old(connected) && command == old(command)
      && rxSize == old(rxSize) && txFree == old(txFree)
    }

    /** The same, with the free part of the TX ring left open. */
    twostate predicate Moved()
      reads this
    {
      && rxWindow == old(rxWindow) && txWindow == old(txWindow)
      && rxRead == old(rxRead) && txWrite == old(txWrite)
      && consumed == old(consumed) && staged == old(staged) && commits == old(commits)
      && old(received) <= received && old(transmitted) <= transmitted
      && command in {old(command), Idle}
      && (connected ==> old(connected))
      && (!old(connected) ==> received == old(received))
      && (old(command) == Idle ==> old(rxSize) <= rxSize && old(txFree) <= txFree)
    }

    // ----- Chip steps -----

    /** A byte arrives from the peer; the chip accepts it only if the ring has room. */
    method Arrive(b: byte)
      requires Valid() && connected && rxSize < rxWindow.size
      modifies this`mem, this`rxSize, this`received
      ensures Valid() && Acted() && received == old(received) + [b]
    {
      var at := rxWindow.Cell(|received|);
      forall k | taken <= k < |received| ensures rxWindow.Cell(k) != at {
        CellsDistinct(rxWindow, k, |received|);
      }
      mem := mem[at := b];
      received := received + [b];
      rxSize := rxSize + 1;
    }

    /** A pending RECV releases what was committed, so that the received size register counts what the host has
        not committed. A pending SEND transmits what was staged. */
    method Complete()
      requires Valid()
      modifies this`command, this`rxSize, this`txFree, this`taken, this`transmitted
      ensures Valid() && Acted() && command == Idle
      ensures rxSize == old(Unread()) && (old(command) == Send ==> transmitted == staged)
    {
      if command == Recv {
        taken := consumed;
        rxSize := |received| - taken;
      } else if command == Send {
        transmitted := transmitted + CellsOf(mem, txWindow, |transmitted|, |staged| - |transmitted|);
        assert transmitted == staged;
        txFree := txWindow.size - (|transmitted| - acked);
      }
      command := Idle;
    }

    /** The peer acknowledges part of what was transmitted, which frees ring space. */
    method Acknowledge(n: nat)
      requires Valid() && acked + n <= |transmitted|
      modifies this`acked, this`txFree
      ensures Valid() && Acted()
    {
      acked := acked + n;
      txFree := txFree + n;
    }

    /** One step. Bytes that find no room or no connection are not accepted, and only transmitted bytes can be
        acknowledged. */
    method Act(step: ChipStep)
      requires Valid()
      modifies this`mem, this`command, this`connected, this`rxSize, this`txFree,
               this`received, this`taken, this`transmitted, this`acked
      ensures Valid() && Acted()
      ensures connected <==> old(connected) && step != Disconnection
      ensures command == if step == Completion then Idle else old(command)
      ensures received == old(received) + if step.Arrival? && old(connected && rxSize < rxWindow.size) then [step.b] else []
      ensures rxSize <= old(rxSize) as int + if step.Arrival? then 1 else 0
    {
      match step
      case Arrival(b) =>
        if connected && rxSize < rxWindow.size { Arrive(b); }
      case Completion => Complete();
      case Acknowledgement(n) =>
        if acked + n <= |transmitted| { Acknowledge(n); }
      case Disconnection => connected := false;
    }

    method ActAll(steps: seq<ChipStep>)
      requires Valid()
      modifies this`mem, this`command, this`connected, this`rxSize, this`txFree,
               this`received, this`taken, this`transmitted, this`acked
      ensures Valid() && Acted()
      ensures connected <==> old(connected) && Disconnection !in steps
      ensures command == if Completion in steps then Idle else old(command)
      ensures steps == [] ==> Still()
      ensures old(connected) && old(rxSize) as int + |Coming(steps)| <= rxWindow.size ==> received == old(received) + Coming(steps)
    {
      hide ValidRx, ValidTx, Coming;
      var i := 0;
      NothingComing(steps);
      while i < |steps|
        invariant 0 <= i <= |steps| && Valid() && Acted()
        invariant connected <==> old(connected) && Disconnection !in steps[..i]
        invariant command == if Completion in steps[..i] then Idle else old(command)
        invariant i == 0 ==> Still()
        invariant old(connected) && old(rxSize) as int + |Coming(steps)| <= rxWindow.size ==>
                    && received == old(received) + Coming(steps[..i])
                    && (connected ==> rxSize <= old(rxSize) as int + |Coming(steps[..i])|)
      {
        ComingNext(steps, i);
        ComingPrefix(steps, i + 1);
        Act(steps[i]);
        assert steps[..i + 1] == steps[..i] + [steps[i]];
        i := i + 1;
      }
      assert steps[..i] == steps;
    }

    /** One moment between two host accesses: any number of chip steps of any kind, in any order. */
    method Environment()
      requires Valid()
      modifies this`mem, this`command, this`connected, this`rxSize, this`txFree,
               this`received, this`taken, this`transmitted, this`acked, this`clock
      ensures Valid() && Evolved() && clock == old(clock) + 1
      ensures command == if Completion in old(At(clock)) then Idle else old(command)
      ensures old(At(clock)) == [] ==> Still()
      ensures old(connected && rxSize as int + |Coming(At(clock))| <= rxWindow.size) ==>
                received == old(received) + old(Coming(At(clock)))
    {
      ActAll(At(clock));
      assert Open(clock, clock + 1) <==> Disconnection !in At(clock);
      clock := clock + 1;
    }

    // ----- Host accesses -----

    /** get_word on a size register: the chip may act before either byte is read. */
    method ReadSize(doSend: bool) returns (size: word, ghost a: word, ghost b: word)
      requires Valid() && command == Idle
      modifies this`mem, this`command, this`connected, this`rxSize, this`txFree,
               this`received, this`taken, this`transmitted, this`acked, this`clock
      ensures Valid() && Evolved() && command == Idle && clock == old(clock) + 2
      ensures old(Available(doSend)) <= a <= b <= Available(doSend)
      ensures size == Torn(a, b)
      ensures old(Silent(2)) ==> Still()
      ensures old(!connected) ==> rxSize == old(rxSize)
    {
      Environment();
      var hi := Hi(Available(doSend));
      a := Available(doSend);
      Environment();
      var lo := Lo(Available(doSend));
      b := Available(doSend);
      size := Word(lo, hi);
    }

    /** The reread loop of w5100_data_request: however the register moves meanwhile, the size it
        settles on is one the register has reached. Only the first reading can settle on zero. */
    method SettledSize(doSend: bool) returns (size: word)
      requires Valid() && command == Idle
      modifies this`mem, this`command, this`connected, this`rxSize, this`txFree,
               this`received, this`taken, this`transmitted, this`acked, this`clock
      ensures Valid() && Evolved() && command == Idle
      ensures size <= Available(doSend) && clock >= old(clock) + 2 && (size == 0 ==> clock == old(clock) + 2)
      ensures old(!connected) && !doSend ==> size == rxSize == old(rxSize)
      ensures old(Silent(if Available(doSend) == 0 then 2 else 4)) ==>
                Still() && size == old(Available(doSend)) && clock == old(clock) + if size == 0 then 2 else 4
    {
      hide Torn, ValidRx, ValidTx;
      RepeatedReading(0, 0, 0, 0);
      size := 0;
      var settled := false;
      ghost var a: word, b: word := 0, 0;
      ghost var calm, steady := Silent(if Available(doSend) == 0 then 2 else 4), !connected && !doSend;
      while !settled
        invariant Valid() && Evolved() && command == Idle
        invariant a <= b <= Available(doSend) && size == Torn(a, b)
        invariant settled ==> size <= Available(doSend)
        invariant if clock == old(clock) then !settled && size == 0 else clock >= old(clock) + 2
        invariant clock == old(clock) || (if settled then size == 0 ==> clock == old(clock) + 2 else b > 0)
        invariant steady ==> rxSize == old(rxSize) && (clock > old(clock) ==> size == rxSize)
        invariant calm ==> Still() && (clock > old(clock) ==> size == old(Available(doSend)))
        invariant calm && settled ==> clock == old(clock) + if old(Available(doSend)) == 0 then 2 else 4
        invariant calm && !settled ==> clock == old(clock) || (old(Available(doSend)) != 0 && clock == old(clock) + 2)
        decreases 0x2_0000 - a as int - b, !settled
      {
        var previous := size;
        ghost var a0: word, b0: word := a, b;
        size, a, b := ReadSize(doSend);
        settled := size == previous;
        RepeatedReading(a0, b0, a, b);
        RepeatedReading(a, a, a, a);
      }
    }

    /** The physical address for the pointer register, and the bytes left up to the end of the ring. */
    method SetAddress(doSend: bool) returns (room: word)
      requires Valid()
      modifies this`address
      ensures address == Ring(doSend).Cell(Position(doSend))
      ensures address + room == Ring(doSend).basis + Ring(doSend).size
    {
      var ring := Ring(doSend);
      var pointer := if doSend then txWrite else rxRead;
      CellOfPointer(ring, if doSend then TX_BANK else RX_BANK, Position(doSend));
      address := ring.Physical(pointer);
      room := ring.basis + ring.size - address;
    }

    /** The part of w5100_data_request behind the test for a pending command. */
    method SizeRequest(doSend: bool) returns (n: word)
      requires Valid() && command == Idle
      modifies this`mem, this`command, this`connected, this`rxSize, this`txFree,
               this`received, this`taken, this`transmitted, this`acked, this`clock, this`address
      ensures Valid() && Evolved() && command == Idle
      ensures n > 0 ==> Accessing(doSend, 0, n)
      ensures clock >= old(clock) + 2 && (n == 0 ==> clock == old(clock) + 2)
      ensures old(!connected) && !doSend && n == 0 ==> Drained()
      ensures old(Silent(if Available(doSend) == 0 then 2 else 4)) ==>
                Still() && n == old(Granted(doSend)) == Granted(doSend) && clock == old(clock) + if n == 0 then 2 else 4
    {
      var size := SettledSize(doSend);
      if size == 0 {
        DrainedIsEmpty();
        return 0;
      }
      var room := SetAddress(doSend);
      n := if size < room then size else room;
    }

    /** w5100_data_request. A result of n > 0 means that no command is pending, the next n accesses
        of the data port hit the ring cells of the next n stream positions, and these positions hold
        received bytes or are free. On a closed connection a receive request that found no command pending
        grants nothing only if nothing is left. */
    method DataRequest(doSend: bool) returns (n: word)
      requires Valid()
      modifies this`mem, this`command, this`connected, this`rxSize, this`txFree,
               this`received, this`taken, this`transmitted, this`acked, this`clock, this`address
      ensures Valid() && Evolved()
      ensures n > 0 ==> Accessing(doSend, 0, n)
      ensures old(Pending()) ==> n == 0 && clock == old(clock) + 1
      ensures old(!Pending()) ==> command == Idle && clock >= old(clock) + 3 && (n == 0 ==> clock == old(clock) + 3)
      ensures old(!Pending() && !connected) && !doSend && n == 0 ==> Drained()
      ensures old(command == Idle && Silent(if Available(doSend) == 0 then 3 else 5)) ==>
                Still() && n == old(Granted(doSend)) && clock == old(clock) + if n == 0 then 3 else 5
      ensures old(!Pending() && Quietly(clock + 1, 4)) ==>
                && n == Granted(doSend) && clock == old(clock) + (if n == 0 then 3 else 5)
                && (old(connected && rxSize as int + |Coming(At(clock))| <= rxWindow.size) ==>
                     received == old(received) + old(Coming(At(clock))))
      ensures clock > old(clock)
    {
      hide ValidRx, ValidTx, Accessing;
      Environment();
      if command != Idle {
        return 0;
      }
      n := SizeRequest(doSend);
    }

    /** One read of the data port after a receive request: it yields the next byte of the stream. */
    method ReadData(ghost i: nat, ghost n: nat) returns (b: byte)
      requires Valid() && Accessing(false, i, n) && i < n
      modifies this`address
      ensures Valid() && Accessing(false, i + 1, n)
      ensures consumed + i < |received| && b == received[consumed + i]
    {
      CellsContiguous(rxWindow, consumed, i);
      assert mem[rxWindow.Cell(consumed + i)] == received[consumed + i];
      b := mem[address];
      address := address + 1;
    }

    /** The same with a moment before it, in which the chip may act. */
    method NextByte(ghost i: nat, ghost n: nat) returns (b: byte)
      requires Valid() && Accessing(false, i, n) && i < n
      modifies this`mem, this`command, this`connected, this`rxSize, this`txFree,
               this`received, this`taken, this`transmitted, this`acked, this`clock, this`address
      ensures Valid() && Evolved() && Accessing(false, i + 1, n) && clock == old(clock) + 1
      ensures At(old(clock)) == [] ==> received == old(received)
      ensures consumed + i < |received| && b == received[consumed + i]
    {
      hide ValidRx, ValidTx;
      Environment();
      b := ReadData(i, n);
    }

    /** One write to the data port after a send request: it fills the cell of the next position, and
        no staged or received byte is overwritten. */
    method WriteData(b: byte, ghost i: nat, ghost n: nat)
      requires Valid() && Accessing(true, i, n) && i < n
      modifies this`address, this`mem
      ensures Valid() && Accessing(true, i + 1, n)
      ensures CellsOf(mem, txWindow, |staged|, i + 1) == old(CellsOf(mem, txWindow, |staged|, i)) + [b]
    {
      CellsContiguous(txWindow, |staged|, i);
      var at := address;
      forall k | |transmitted| <= k < |staged| + i ensures txWindow.Cell(k) != at {
        CellsDistinct(txWindow, k, |staged| + i);
      }
      mem := mem[at := b];
      address := address + 1;
    }

    /** w5100_data_commit: the pointer register moves and the command starts. It is not waited for. */
    method DataCommit(doSend: bool, n: word)
      requires Valid()
      requires doSend ==> command != Recv && |staged| + n <= acked + txWindow.size
      requires !doSend ==> command != Send && consumed + n <= |received|
      modifies this`command, this`rxRead, this`txWrite, this`consumed, this`staged, this`commits
      ensures Valid()
      ensures !doSend ==> && command == Recv && consumed == old(consumed) + n && staged == old(staged)
                          && commits == old(commits) + [consumed]
      ensures doSend ==> && command == Send && consumed == old(consumed) && commits == old(commits)
                         && staged == old(staged) + CellsOf(mem, txWindow, old(|staged|), n)
    {
      if doSend {
        CommitSend(n);
      } else {
        CommitReceive(n);
      }
    }

    method CommitSend(n: word)
      requires Valid() && command != Recv && |staged| + n <= acked + txWindow.size
      modifies this`command, this`txWrite, this`staged
      ensures Valid() && command == Send && staged == old(staged) + CellsOf(mem, txWindow, old(|staged|), n)
    {
      hide CellsOf;
      PointerAdd(|staged|, n);
      txWrite := (txWrite + n) % 0x1_0000;
      var at := |staged|;
      var bytes := CellsOf(mem, txWindow, at, n);
      StagedCells(mem, txWindow, staged, |transmitted|, n);
      staged := staged + bytes;
      command := Send;
    }

    method CommitReceive(n: word)
      requires Valid() && command != Send && consumed + n <= |received|
      modifies this`command, this`rxRead, this`consumed, this`commits
      ensures Valid() && command == Recv && consumed == old(consumed) + n && commits == old(commits) + [consumed]
    {
      PointerAdd(consumed, n);
      rxRead := (rxRead + n) % 0x1_0000;
      consumed := consumed + n;
      commits := commits + [consumed];
      command := Recv;
    }
  }

  /** A connected socket to which two bytes have come in; `coming` is what happens from then on. */
  method TwoArrived(x: byte, y: byte, coming: seq<seq<ChipStep>>) returns (s: Socket)
    ensures fresh(s) && s.Valid() && s.command == Idle && s.connected && s.received == [x, y]
    ensures s.consumed == 0 && s.Granted(false) == 2
    ensures s.clock == 1 && s.script == [[Arrival(x), Arrival(y)]] + coming
  {
    hide Socket.ValidRx, Socket.ValidTx, Config;
    ConfigOk(0x0a);
    s := new Socket(0x0a, 0x0a, [[Arrival(x), Arrival(y)]] + coming);
    s.DrainedIsEmpty();
    assert Coming([Arrival(x), Arrival(y)]) == [x] + Coming([Arrival(y)]) == [x, y];
    assert s.At(0) == [Arrival(x), Arrival(y)];
    s.Environment();
    s.DrainedIsEmpty();
  }
}
