/** The screen memory of a2vt100.s: rows in the interleaved order of the Apple II text page, even columns in
    one bank and odd columns in the other. Every screen operation is that of a plain grid of 24 by 80 cells. */
module VtScreen {
  import opened Bytes

  const COLS: nat := 80
  const ROWS: nat := 24
  const HALF: nat := 40
  const PAGE: nat := 0x400
  const BLANK: byte := 0xa0

  const LINE_VEC_LO: seq<byte> := [
    0x00, 0x80, 0x00, 0x80, 0x00, 0x80, 0x00, 0x80,
    0x28, 0xa8, 0x28, 0xa8, 0x28, 0xa8, 0x28, 0xa8,
    0x50, 0xd0, 0x50, 0xd0, 0x50, 0xd0, 0x50, 0xd0]
  const LINE_VEC_HI: seq<byte> := [
    0x04, 0x04, 0x05, 0x05, 0x06, 0x06, 0x07, 0x07,
    0x04, 0x04, 0x05, 0x05, 0x06, 0x06, 0x07, 0x07,
    0x04, 0x04, 0x05, 0x05, 0x06, 0x06, 0x07, 0x07]

  /** SLV: the offset of a row in the text page, which starts at 0x400. */
  function Slv(row: nat): int
    requires row < ROWS
  {
    LINE_VEC_LO[row] + 0x100 * LINE_VEC_HI[row] - PAGE
  }

  /** The line table holds the interleaved layout: every eighth row follows 40 bytes behind. */
  lemma SlvLayout(row: nat)
    requires row < ROWS
    ensures Slv(row) == 0x80 * (row % 8) + 0x28 * (row / 8)
  {
    if row < 8 {
      assert row / 8 == 0;
    } else if row < 16 {
      assert row / 8 == 1;
    } else {
      assert row / 8 == 2;
    }
  }

  /** The rows do not overlap. */
  lemma SlvDistinct(row: nat, row': nat)
    requires row < ROWS && row' < ROWS
    ensures 0 <= Slv(row) <= PAGE - HALF
    ensures row != row' ==> Slv(row) + HALF <= Slv(row') || Slv(row') + HALF <= Slv(row)
  {
    hide Slv;
    SlvLayout(row);
    SlvLayout(row');
  }

  // ----- The grid -----

  type grid = seq<seq<byte>>

  predicate IsGrid(g: grid) {
    |g| == ROWS && forall r | 0 <= r < ROWS :: |g[r]| == COLS
  }

  function Blanks(n: nat): (s: seq<byte>)
    ensures |s| == n
  {
    seq(n, _ => BLANK)
  }

  function Put(g: grid, row: nat, col: nat, b: byte): (g': grid)
    requires IsGrid(g) && row < ROWS && col < COLS
    ensures IsGrid(g')
  {
    var line: seq<byte> := g[row][col := b];
    g[row := line]
  }

  function EraseRow(g: grid, row: nat): (g': grid)
    requires IsGrid(g) && row < ROWS
    ensures IsGrid(g')
  {
    g[row := Blanks(COLS)]
  }

  function EraseFrom(g: grid, row: nat, col: nat): (g': grid)
    requires IsGrid(g) && row < ROWS && col < COLS
    ensures IsGrid(g')
  {
    var line: seq<byte> := g[row][..col] + Blanks(COLS - col);
    g[row := line]
  }

  function EraseTo(g: grid, row: nat, col: nat): (g': grid)
    requires IsGrid(g) && row < ROWS && col < COLS
    ensures IsGrid(g')
  {
    var line: seq<byte> := Blanks(col + 1) + g[row][col + 1..];
    g[row := line]
  }

  function ScrollUp(g: grid, top: nat, bottom: nat): (g': grid)
    requires IsGrid(g) && top <= bottom < ROWS
    ensures IsGrid(g')
  {
    g[..top] + g[top + 1..bottom + 1] + [Blanks(COLS)] + g[bottom + 1..]
  }

  function ScrollDown(g: grid, top: nat, bottom: nat): (g': grid)
    requires IsGrid(g) && top <= bottom < ROWS
    ensures IsGrid(g')
  {
    g[..top] + [Blanks(COLS)] + g[top..bottom] + g[bottom + 1..]
  }

  // ----- The two banks -----

  predicate IsBank(bank: seq<byte>) {
    |bank| == PAGE
  }

  function Cell(aux: seq<byte>, main: seq<byte>, row: nat, col: nat): byte
    requires IsBank(aux) && IsBank(main) && row < ROWS && col < COLS
  {
    SlvDistinct(row, row);
    if col % 2 == 0 then aux[Slv(row) + col / 2] else main[Slv(row) + col / 2]
  }

  function RowOf(aux: seq<byte>, main: seq<byte>, row: nat): (r: seq<byte>)
    requires IsBank(aux) && IsBank(main) && row < ROWS
    ensures |r| == COLS
  {
    seq(COLS, col requires 0 <= col < COLS => Cell(aux, main, row, col))
  }

  function GridOf(aux: seq<byte>, main: seq<byte>): (g: grid)
    requires IsBank(aux) && IsBank(main)
    ensures IsGrid(g)
  {
    seq(ROWS, row requires 0 <= row < ROWS => RowOf(aux, main, row))
  }

  /** A bank with a stretch of 40 bytes copied over another. */
  function Copied(bank: seq<byte>, dst: nat, src: nat): (b: seq<byte>)
    requires IsBank(bank) && dst + HALF <= PAGE && src + HALF <= PAGE
    ensures IsBank(b)
  {
    bank[..dst] + bank[src..src + HALF] + bank[dst + HALF..]
  }

  /** A bank with a stretch blanked. */
  function Filled(bank: seq<byte>, from: nat, to: nat): (b: seq<byte>)
    requires IsBank(bank) && from <= to <= PAGE
    ensures IsBank(b)
  {
    bank[..from] + Blanks(to - from) + bank[to..]
  }

  /** A change inside the bytes of one row leaves all other rows alone. */
  lemma OtherRow(aux: seq<byte>, main: seq<byte>, aux': seq<byte>, main': seq<byte>, row: nat, other: nat)
    requires IsBank(aux) && IsBank(main) && IsBank(aux') && IsBank(main')
    requires row < ROWS && other < ROWS && row != other
    requires forall i | 0 <= i < PAGE && !(Slv(row) <= i < Slv(row) + HALF) :: aux'[i] == aux[i] && main'[i] == main[i]
    ensures RowOf(aux', main', other) == RowOf(aux, main, other)
  {
    hide Slv;
    SlvDistinct(row, other);
    SlvDistinct(other, row);
  }

  lemma OneRowChanged(aux: seq<byte>, main: seq<byte>, aux': seq<byte>, main': seq<byte>, row: nat)
    requires IsBank(aux) && IsBank(main) && IsBank(aux') && IsBank(main') && row < ROWS
    requires forall i | 0 <= i < PAGE && !(Slv(row) <= i < Slv(row) + HALF) :: aux'[i] == aux[i] && main'[i] == main[i]
    ensures GridOf(aux', main') == GridOf(aux, main)[row := RowOf(aux', main', row)]
  {
    hide RowOf, Slv;
    forall other | 0 <= other < ROWS
      ensures GridOf(aux', main')[other] == GridOf(aux, main)[row := RowOf(aux', main', row)][other]
    {
      if other != row {
        OtherRow(aux, main, aux', main', row, other);
      }
    }
  }

  lemma GridCopied(aux: seq<byte>, main: seq<byte>, dst: nat, src: nat)
    requires IsBank(aux) && IsBank(main) && dst < ROWS && src < ROWS
    ensures 0 <= Slv(dst) <= PAGE - HALF && 0 <= Slv(src) <= PAGE - HALF
    ensures GridOf(Copied(aux, Slv(dst), Slv(src)), Copied(main, Slv(dst), Slv(src)))
         == GridOf(aux, main)[dst := GridOf(aux, main)[src]]
  {
    hide Slv, GridOf;
    SlvDistinct(dst, src);
    SlvDistinct(src, dst);
    var aux', main' := Copied(aux, Slv(dst), Slv(src)), Copied(main, Slv(dst), Slv(src));
    OneRowChanged(aux, main, aux', main', dst);
    assert RowOf(aux', main', dst) == RowOf(aux, main, src);
    GridRow(aux, main, src);
  }

  lemma GridRow(aux: seq<byte>, main: seq<byte>, row: nat)
    requires IsBank(aux) && IsBank(main) && row < ROWS
    ensures GridOf(aux, main)[row] == RowOf(aux, main, row)
  {
  }

  /** Blanking parts of the two halves of a row blanks the columns in them. */
  lemma GridFilled(aux: seq<byte>, main: seq<byte>, row: nat, even: nat, evenEnd: nat, odd: nat, oddEnd: nat)
    requires IsBank(aux) && IsBank(main) && row < ROWS && even <= evenEnd <= HALF && odd <= oddEnd <= HALF
    ensures 0 <= Slv(row) <= PAGE - HALF
    ensures var base := Slv(row);
            var aux', main' := Filled(aux, base + even, base + evenEnd), Filled(main, base + odd, base + oddEnd);
            && GridOf(aux', main') == GridOf(aux, main)[row := RowOf(aux', main', row)]
            && forall c | 0 <= c < COLS :: RowOf(aux', main', row)[c] ==
                 if (if c % 2 == 0 then even <= c / 2 < evenEnd else odd <= c / 2 < oddEnd) then BLANK
                 else GridOf(aux, main)[row][c]
  {
    hide Slv, GridOf;
    SlvDistinct(row, row);
    GridRow(aux, main, row);
    var base := Slv(row);
    var aux', main' := Filled(aux, base + even, base + evenEnd), Filled(main, base + odd, base + oddEnd);
    OneRowChanged(aux, main, aux', main', row);
  }

  lemma GridPut(aux: seq<byte>, main: seq<byte>, row: nat, col: nat, b: byte)
    requires IsBank(aux) && IsBank(main) && row < ROWS && col < COLS
    ensures 0 <= Slv(row) <= PAGE - HALF
    ensures GridOf(aux, main)[row][col] == Cell(aux, main, row, col)
    ensures var at := Slv(row) + col / 2;
            (if col % 2 == 0 then GridOf(aux[at := b], main) else GridOf(aux, main[at := b]))
            == Put(GridOf(aux, main), row, col, b)
  {
    hide Slv, GridOf;
    SlvDistinct(row, row);
    GridRow(aux, main, row);
    var at := Slv(row) + col / 2;
    var aux', main' := if col % 2 == 0 then aux[at := b] else aux, if col % 2 == 0 then main else main[at := b];
    OneRowChanged(aux, main, aux', main', row);
    assert RowOf(aux', main', row) == RowOf(aux, main, row)[col := b];
  }

  /** The copying loop of a half row has reached position y, from the right. */
  ghost predicate HalfCopied(was: seq<byte>, now: seq<byte>, z: nat, x: nat, y: int)
    requires IsBank(was) && z + HALF <= PAGE && x + HALF <= PAGE && -1 <= y < HALF
  {
    now == was[..z + y + 1] + was[x + y + 1..x + HALF] + was[z + HALF..]
  }

  lemma HalfStep(was: seq<byte>, now: seq<byte>, z: nat, x: nat, y: nat)
    requires IsBank(was) && z + HALF <= PAGE && x + HALF <= PAGE && y < HALF
    requires z + HALF <= x || x + HALF <= z
    requires HalfCopied(was, now, z, x, y)
    ensures |now| == PAGE && HalfCopied(was, now[z + y := now[x + y]], z, x, y - 1)
  {
    assert now[x + y] == was[x + y];
    assert was[x + y..x + HALF] == [was[x + y]] + was[x + y + 1..x + HALF];
  }

  lemma HalfEnds(was: seq<byte>, z: nat, x: nat)
    requires IsBank(was) && z + HALF <= PAGE && x + HALF <= PAGE
    ensures HalfCopied(was, was, z, x, HALF - 1)
    ensures HalfCopied(was, Copied(was, z, x), z, x, -1)
    ensures forall now | HalfCopied(was, now, z, x, -1) :: now == Copied(was, z, x)
  {
  }

  /** Scrolling up has moved the rows before row x; scrolling down those behind it. */
  ghost predicate MovedUp(was: grid, now: grid, top: nat, x: nat) {
    top <= x < |was| && now == was[..top] + was[top + 1..x + 1] + was[x..]
  }

  ghost predicate MovedDown(was: grid, now: grid, bottom: nat, x: nat) {
    x <= bottom < |was| && now == was[..x + 1] + was[x..bottom] + was[bottom + 1..]
  }

  lemma UpStep(was: grid, now: grid, top: nat, x: nat)
    requires MovedUp(was, now, top, x) && x + 1 < |was|
    ensures x + 1 < |now| && MovedUp(was, now[x := now[x + 1]], top, x + 1)
  {
  }

  lemma DownStep(was: grid, now: grid, bottom: nat, x: nat)
    requires MovedDown(was, now, bottom, x) && x > 0
    ensures x < |now| && MovedDown(was, now[x := now[x - 1]], bottom, x - 1)
  {
  }

  lemma MoveStarts(was: grid, x: nat)
    requires x < |was|
    ensures MovedUp(was, was, x, x) && MovedDown(was, was, x, x)
  {
  }

  /** Erasing the last row moved from completes the scroll. */
  lemma MoveEnds(was: grid, now: grid, top: nat, bottom: nat)
    requires IsGrid(was) && IsGrid(now) && top < bottom < ROWS
    ensures MovedUp(was, now, top, bottom) ==> EraseRow(now, bottom) == ScrollUp(was, top, bottom)
    ensures MovedDown(was, now, bottom, top) ==> EraseRow(now, top) == ScrollDown(was, top, bottom)
  {
  }

  // ----- The screen operations -----

  class Video {
    const aux: array<byte>   // the even columns
    const main: array<byte>  // the odd columns

    ghost predicate Valid() {
      aux.Length == PAGE && main.Length == PAGE && aux != main
    }

    ghost function Screen(): (g: grid)
      requires Valid()
      reads aux, main
      ensures IsGrid(g)
    {
      GridOf(aux[..], main[..])
    }

    constructor ()
      ensures Valid() && fresh(aux) && fresh(main)
    {
      aux := new byte[PAGE];
      main := new byte[PAGE];
    }

    /** The byte of a cell, as the cursor code reads it. */
    method Load(base: nat, row: nat, col: nat) returns (b: byte)
      requires Valid() && row < ROWS && col < COLS && base == Slv(row)
      ensures b == Screen()[row][col]
    {
      GridPut(aux[..], main[..], row, col, 0);
      if col % 2 == 0 {
        b := aux[base + col / 2];
      } else {
        b := main[base + col / 2];
      }
    }

    method Store(base: nat, row: nat, col: nat, b: byte)
      requires Valid() && row < ROWS && col < COLS && base == Slv(row)
      modifies aux, main
      ensures Screen() == Put(old(Screen()), row, col, b)
    {
      hide Slv, Put, GridOf;
      GridPut(aux[..], main[..], row, col, b);
      if col % 2 == 0 {
        aux[base + col / 2] := b;
        assert aux[..] == old(aux[..])[base + col / 2 := b];
      } else {
        main[base + col / 2] := b;
        assert main[..] == old(main[..])[base + col / 2 := b];
      }
    }

    /** One of the copying loops of the scroll routines. */
    method CopyHalf(bank: array<byte>, z: nat, x: nat)
      requires bank.Length == PAGE && z + HALF <= PAGE && x + HALF <= PAGE
      requires z + HALF <= x || x + HALF <= z
      modifies bank
      ensures bank[..] == Copied(old(bank[..]), z, x)
    {
      hide HalfCopied, Copied;
      var y: int := HALF - 1;
      ghost var was := bank[..];
      HalfEnds(was, z, x);
      while y >= 0
        invariant -1 <= y < HALF
        invariant HalfCopied(was, bank[..], z, x, y)
      {
        HalfStep(was, bank[..], z, x, y);
        ghost var now := bank[..];
        bank[z + y] := bank[x + y];
        assert bank[..] == now[z + y := now[x + y]];
        y := y - 1;
      }
    }

    /** The blanking loops run up or down over a stretch of a half row. */
    method EraseUp(bank: array<byte>, base: nat, start: nat)
      requires bank.Length == PAGE && base + HALF <= PAGE && start <= HALF
      modifies bank
      ensures bank[..] == Filled(old(bank[..]), base + start, base + HALF)
    {
      var y := start;
      ghost var was := bank[..];
      while y != HALF
        invariant start <= y <= HALF
        invariant forall i | 0 <= i < PAGE :: bank[i] == if base + start <= i < base + y then BLANK else was[i]
        decreases HALF - y
      {
        bank[base + y] := BLANK;
        y := y + 1;
      }
    }

    method EraseDown(bank: array<byte>, base: nat, start: int)
      requires bank.Length == PAGE && base + HALF <= PAGE && -1 <= start < HALF
      modifies bank
      ensures bank[..] == Filled(old(bank[..]), base, base + (start + 1))
    {
      var y := start;
      ghost var was := bank[..];
      while y >= 0
        invariant -1 <= y <= start
        invariant forall i | 0 <= i < PAGE :: bank[i] == if base + y < i <= base + start then BLANK else was[i]
      {
        bank[base + y] := BLANK;
        y := y - 1;
      }
    }

    method CopyRow(z: nat, x: nat)
      requires Valid() && z < ROWS && x < ROWS && z != x
      modifies aux, main
      ensures Screen() == old(Screen())[z := old(Screen())[x]]
    {
      hide Slv, GridOf, Copied;
      SlvDistinct(z, x);
      SlvDistinct(x, z);
      GridCopied(aux[..], main[..], z, x);
      CopyHalf(aux, Slv(z), Slv(x));
      CopyHalf(main, Slv(z), Slv(x));
    }

    /** ErLn. */
    method ErLn(row: nat)
      requires Valid() && row < ROWS
      modifies aux, main
      ensures Screen() == EraseRow(old(Screen()), row)
    {
      hide Slv, GridOf, Filled;
      GridFilled(aux[..], main[..], row, 0, HALF, 0, HALF);
      EraseDown(aux, Slv(row), HALF - 1);
      EraseDown(main, Slv(row), HALF - 1);
      assert Screen()[row] == Blanks(COLS);
    }

    /** The erasing part of ErEnLn: an odd cursor column skips the even cell beside it. */
    method ErEn(base: nat, row: nat, col: nat)
      requires Valid() && row < ROWS && col < COLS && base == Slv(row)
      modifies aux, main
      ensures Screen() == EraseFrom(old(Screen()), row, col)
    {
      hide Slv, GridOf, Filled;
      var start := col / 2;
      GridFilled(aux[..], main[..], row, start + col % 2, HALF, start, HALF);
      ghost var was := Screen()[row];
      EraseUp(aux, base, if col % 2 == 1 then start + 1 else start);
      EraseUp(main, base, start);
      assert Screen()[row] == was[..col] + Blanks(COLS - col);
    }

    /** The erasing part of ErBeLn: an even cursor column skips the odd cell beside it. */
    method ErBe(base: nat, row: nat, col: nat)
      requires Valid() && row < ROWS && col < COLS && base == Slv(row)
      modifies aux, main
      ensures Screen() == EraseTo(old(Screen()), row, col)
    {
      hide Slv, GridOf, Filled;
      var start: int := col / 2;
      GridFilled(aux[..], main[..], row, 0, start + 1, 0, start + col % 2);
      ghost var was := Screen()[row];
      EraseDown(aux, base, start);
      EraseDown(main, base, if col % 2 == 0 then start - 1 else start);
      assert Screen()[row] == Blanks(col + 1) + was[col + 1..];
    }

    /** UScrl: each row of the region takes the next one, then the last row is erased. */
    method UScrl(srs: nat, sre: nat)
      requires Valid() && srs < sre < ROWS
      modifies aux, main
      ensures Screen() == ScrollUp(old(Screen()), srs, sre)
    {
      hide GridOf, MovedUp, MovedDown, ScrollUp, EraseRow;
      var x := srs;
      ghost var was := Screen();
      MoveStarts(was, srs);
      while true
        invariant srs <= x < sre && MovedUp(was, Screen(), srs, x)
        decreases sre - x
      {
        UpStep(was, Screen(), srs, x);
        CopyRow(x, x + 1);
        x := x + 1;
        if x == sre { break; }
      }
      MoveEnds(was, Screen(), srs, sre);
      ErLn(x);
    }

    /** DScrl: each row of the region takes the one before it, then the first row is erased. */
    method DScrl(srs: nat, sre: nat)
      requires Valid() && srs < sre < ROWS
      modifies aux, main
      ensures Screen() == ScrollDown(old(Screen()), srs, sre)
    {
      hide GridOf, MovedUp, MovedDown, ScrollDown, EraseRow;
      var x := sre;
      ghost var was := Screen();
      MoveStarts(was, sre);
      while true
        invariant srs < x <= sre && MovedDown(was, Screen(), sre, x)
        decreases x
      {
        DownStep(was, Screen(), sre, x);
        CopyRow(x, x - 1);
        x := x - 1;
        if x == srs { break; }
      }
      MoveEnds(was, Screen(), srs, sre);
      ErLn(x);
    }
  }
}
