/** The terminal engine of a2vt100.s: an escape sequence automaton that updates the screen in place, with a
    cursor drawn into it. Every received byte refines the plain terminal of VtSpec. */
module VtTerminal {
  import opened Bytes
  import opened VtScreen
  import opened VtSpec
  import D = Decimal

  const NORMAL_MODE: byte := 0x00
  const ESC_MODE: byte := 0x0f
  const G0_MODE: byte := 0xfd
  const G1_MODE: byte := 0xfe
  const CSI_MODE: byte := 0xff
  const IGNORE_MODE: byte := 0xf0

  const PLAIN_FONT := Font(false, false, false)
  const NO_LINES := Draw(false, false, false, false)
  ghost const INITIAL: Term :=
    Term(Put(EmptyGrid(), 0, 0, 0), 0, 0, false, 0, ROWS - 1, false, PLAIN_FONT, NORMAL, NO_LINES,
         Saved(PLAIN_FONT, 0, NO_LINES, 0, 0), Plain)

  // ----- The grid and the cursor cell -----

  lemma PutBack(g: grid, row: nat, col: nat, b: byte)
    requires IsGrid(g) && row < ROWS && col < COLS
    ensures Put(Put(g, row, col, b), row, col, g[row][col]) == g
    ensures Put(g, row, col, b)[row][col] == b
    ensures g[row][col] == b ==> Put(g, row, col, b) == g
  {
    assert g[row][col := b][col := g[row][col]] == g[row];
    if g[row][col] == b {
      assert g[row][col := b] == g[row];
    }
  }

  lemma PutElsewhere(g: grid, row: nat, col: nat, b: byte, other: nat)
    requires IsGrid(g) && row < ROWS && col < COLS && other < ROWS && other != row
    ensures EraseRow(Put(g, row, col, b), other) == Put(EraseRow(g, other), row, col, b)
    ensures EraseRow(g, other)[row] == g[row]
  {
  }

  lemma EraseRowsNone(g: grid, at: nat)
    requires IsGrid(g) && at <= ROWS
    ensures EraseRows(g, at, at) == g
  {
  }

  lemma EraseRowsStep(g: grid, from: nat, to: nat)
    requires IsGrid(g) && from <= to <= ROWS
    ensures to < ROWS ==> EraseRow(EraseRows(g, from, to), to) == EraseRows(g, from, to + 1)
    ensures from > 0 ==> EraseRow(EraseRows(g, from, to), from - 1) == EraseRows(g, from - 1, to)
  {
    hide EraseRows;
    EraseRowsAt(g, from, to);
    if to < ROWS {
      EraseRowsAt(g, from, to + 1);
      assert EraseRow(EraseRows(g, from, to), to) == EraseRows(g, from, to + 1);
    }
    if from > 0 {
      EraseRowsAt(g, from - 1, to);
      assert EraseRow(EraseRows(g, from, to), from - 1) == EraseRows(g, from - 1, to);
    }
  }

  lemma EraseRowsAt(g: grid, from: nat, to: nat)
    requires IsGrid(g) && from <= to <= ROWS
    ensures forall r | 0 <= r < ROWS :: EraseRows(g, from, to)[r] == if from <= r < to then Blanks(COLS) else g[r]
  {
  }

  // ----- The 8-bit arithmetic of the cursor movements -----

  method SubtractRow(row: nat, n: byte, top: nat) returns (r: int)
    requires row < ROWS && top < ROWS
    ensures r == UpRow(row, n, top)
  {
    r := (row - n as int) % 0x100;
    if (r - top) % 0x100 >= 0x80 {
      r := top;
    }
  }

  method AddRow(row: nat, n: byte, bottom: nat) returns (r: nat)
    requires bottom < ROWS
    ensures r == DownRow(row, n, bottom) <= bottom
  {
    r := (row + n as int) % 0x100;
    if r >= bottom {
      r := bottom;
    }
  }

  method AddCol(col: nat, n: byte) returns (r: nat)
    ensures r == RightCol(col, n) < COLS
  {
    r := (col + n as int) % 0x100;
    if r >= COLS - 1 {
      r := COLS - 1;
    }
  }

  method SubtractCol(col: nat, n: byte) returns (r: nat)
    ensures r == LeftCol(col, n)
  {
    r := (col - n as int) % 0x100;
    if r >= 0x80 {
      r := 0;
    }
  }

  /** `dey` on a parameter. */
  method Decrement(n: byte) returns (r: byte)
    ensures r == if n == 0 then 0xff else n - 1
  {
    r := (n as int + 0xff) % 0x100;
  }

  class Terminal {
    const video: Video
    var cv: nat            // cursor row
    var ch: nat            // cursor column
    var basl: nat          // offset of the cursor row in the screen memory
    var civis: byte        // not zero if the cursor is invisible
    var sCrsrChar: byte    // the character under the cursor
    var srs: nat           // scroll region, first and last row
    var sre: nat
    var lbPending: byte    // 0 or 0xff
    var font: Font
    var draw: Draw
    var invflg: byte
    var saveF: Font
    var saveR: byte
    var saveD: Draw
    var saveRow: nat
    var saveCol: nat
    var eMode: byte
    const eBuf: array<byte>
    var eBufL: byte
    var ePar: byte

    /** The terminal without its escape mode, over a given grid. */
    ghost function Over(g: grid): Term
      reads this`cv, this`ch, this`civis, this`srs, this`sre, this`lbPending, this`font, this`draw, this`invflg
      reads this`saveF, this`saveR, this`saveD, this`saveRow, this`saveCol
    {
      Term(g, cv, ch, lbPending != 0, srs, sre, civis != 0, font, invflg, draw,
           Saved(saveF, saveR, saveD, saveRow, saveCol), Plain)
    }

    ghost predicate Arrays() {
      && video.Valid() && eBuf.Length == 0x100 && eBuf != video.aux && eBuf != video.main
    }

    /** The variables are in range; nothing is said about the escape mode. */
    ghost predicate InShape()
      reads this`cv, this`ch, this`basl, this`civis, this`srs, this`sre, this`lbPending, this`font, this`draw
      reads this`invflg, this`saveF, this`saveR, this`saveD, this`saveRow, this`saveCol
    {
      && Arrays() && cv < ROWS && ch < COLS && basl == Slv(cv) && (lbPending == 0 || lbPending == 0xff)
      && Ok(Over(EmptyGrid()))
    }

    /** What is on the screen, cursor included. */
    ghost function Bare(): Term
      requires Arrays()
      reads this`cv, this`ch, this`civis, this`srs, this`sre, this`lbPending, this`font, this`draw, this`invflg
      reads this`saveF, this`saveR, this`saveD, this`saveRow, this`saveCol, video.aux, video.main
    {
      Over(video.Screen())
    }

    /** The terminal's grid: the screen with the character under a visible cursor put back. */
    ghost function Grid(): (g: grid)
      requires Arrays() && cv < ROWS && ch < COLS
      reads this`cv, this`ch, this`civis, this`sCrsrChar, video.aux, video.main
      ensures IsGrid(g)
    {
      if civis != 0 then video.Screen() else Put(video.Screen(), cv, ch, sCrsrChar)
    }

    ghost function Body(): (t: Term)
      requires InShape()
      reads this`cv, this`ch, this`basl, this`civis, this`srs, this`sre, this`lbPending, this`font, this`draw
      reads this`invflg, this`saveF, this`saveR, this`saveD, this`saveRow, this`saveCol, this`sCrsrChar
      reads video.aux, video.main
      ensures Ok(t) && t.mode == Plain
    {
      Over(Grid())
    }

    /** A visible cursor is drawn. */
    ghost predicate Drawn()
      requires Arrays() && cv < ROWS && ch < COLS
      reads this`cv, this`ch, this`civis, this`sCrsrChar, video.aux, video.main
    {
      civis == 0 ==> video.Screen()[cv][ch] == Invert(sCrsrChar)
    }

    ghost predicate ModeOk()
      requires Arrays()
      reads this`eMode, this`eBufL, eBuf
    {
      && eMode in {NORMAL_MODE, ESC_MODE, G0_MODE, G1_MODE, CSI_MODE, IGNORE_MODE}
      && (eMode == CSI_MODE ==> NoLetter(eBuf[..eBufL]))
      && (eMode != CSI_MODE ==> eBufL == 0)
    }

    ghost function TheMode(): Mode
      requires Arrays()
      reads this`eMode, this`eBufL, eBuf
    {
      if eMode == NORMAL_MODE then Plain
      else if eMode == ESC_MODE then Escape
      else if eMode == G0_MODE then Charset(false)
      else if eMode == G1_MODE then Charset(true)
      else if eMode == IGNORE_MODE then Ignore
      else Csi(eBuf[..eBufL])
    }

    ghost predicate Valid()
      reads this, video.aux, video.main, eBuf
    {
      InShape() && ModeOk()
    }

    ghost function State(): (t: Term)
      requires Valid()
      reads this, video.aux, video.main, eBuf
      ensures Ok(t)
    {
      Body().(mode := TheMode())
    }

    /** InitTerminal: a blank screen. The cursor is not drawn yet, and the character under it is the byte
        found in its variable. */
    constructor ()
      ensures Valid() && fresh(video) && fresh(video.aux) && fresh(video.main) && fresh(eBuf)
      ensures State() == INITIAL
    {
      video := new Video();
      eBuf := new byte[0x100];
      eMode, eBufL, ePar, srs, sre, civis, lbPending := NORMAL_MODE, 0, 0, 0, ROWS - 1, 0, 0;
      font, draw, invflg := PLAIN_FONT, NO_LINES, NORMAL;
      saveF, saveR, saveD, saveRow, saveCol := PLAIN_FONT, 0, NO_LINES, 0, 0;
      cv, ch, basl, sCrsrChar := 0, 0, Slv(0), 0;
      new;
      hide Slv, Put;
      InitScr();
    }

    /** InitScr: the screen is erased from the bottom, then the cursor is placed without being drawn. */
    method InitScr()
      requires InShape() && lbPending == 0
      modifies this`cv, this`ch, this`basl, video.aux, video.main
      ensures InShape() && Bare() == At(old(Bare()), 0, 0).(grid := EmptyGrid())
    {
      hide Slv, Put, Ok, IsGrid;
      EraseFromBottom();
      Plot(0, 0);
    }

    /** The loop over all rows that erases the screen. */
    method EraseFromBottom()
      requires Arrays()
      modifies video.aux, video.main
      ensures video.Screen() == EraseRows(old(video.Screen()), 0, ROWS) == EmptyGrid()
    {
      ghost var g := video.Screen();
      EraseRowsNone(g, ROWS);
      var x: int := ROWS - 1;
      while x >= 0
        invariant -1 <= x < ROWS && video.Screen() == EraseRows(g, x + 1, ROWS)
      {
        EraseRowsStep(g, x + 1, ROWS);
        video.ErLn(x);
        x := x - 1;
      }
      assert EraseRows(g, 0, ROWS) == EmptyGrid();
    }

    lemma Ranges()
      requires InShape()
      ensures srs < sre < ROWS && cv < ROWS && ch < COLS && basl == Slv(cv)
      ensures lbPending == 0 || lbPending == 0xff
      ensures lbPending != 0 ==> ch == COLS - 1
    {
    }

    lemma BareOk()
      requires InShape()
      ensures Ok(Bare())
    {
    }

    /** The variables are in range if the terminal they stand for is. */
    lemma InRange()
      requires Arrays() && cv < ROWS && ch < COLS && basl == Slv(cv) && (lbPending == 0 || lbPending == 0xff)
      requires Ok(Bare())
      ensures InShape()
    {
    }

    // ----- Cursor -----

    method COff()
      requires InShape()
      modifies video.aux, video.main
      ensures Bare() == old(Body())
    {
      hide Slv, Put, Invert, Ok;
      if civis == 0 {
        video.Store(basl, cv, ch, sCrsrChar);
      }
    }

    method COn()
      requires InShape()
      modifies this`sCrsrChar, video.aux, video.main
      ensures Body() == old(Bare()) && Drawn()
    {
      hide Slv, Put, Invert, Ok;
      if civis == 0 {
        ghost var g := video.Screen();
        sCrsrChar := video.Load(basl, cv, ch);
        PutBack(g, cv, ch, Invert(sCrsrChar));
        video.Store(basl, cv, ch, Invert(sCrsrChar));
      }
    }

    method Plot(row: nat, col: nat)
      requires InShape() && row < ROWS && col < COLS && (lbPending == 0 || col == COLS - 1)
      modifies this`cv, this`ch, this`basl
      ensures InShape() && Bare() == At(old(Bare()), row, col)
    {
      SlvDistinct(row, row);
      cv, ch := row, col;
      basl := Slv(row);
    }

    method CPlot(row: nat, col: nat)
      requires InShape() && row < ROWS && col < COLS && (lbPending == 0 || col == COLS - 1)
      modifies this`cv, this`ch, this`basl, this`sCrsrChar, video.aux, video.main
      ensures InShape() && Body() == At(old(Body()), row, col) && Drawn()
    {
      hide Ok, Slv;
      COff();
      Plot(row, col);
      COn();
    }

    method ClPending()
      requires InShape()
      modifies this`lbPending
      ensures InShape() && Body() == Settled(old(Body())) && Bare() == Settled(old(Bare()))
      ensures old(Drawn()) ==> Drawn()
    {
      lbPending := 0;
    }

    // ----- Printing -----

    /** NewLn, with the cursor off and no wrap pending. */
    method NewLn()
      requires InShape() && lbPending == 0
      modifies this`cv, this`ch, this`basl, video.aux, video.main
      ensures InShape() && Bare() == Wrapped(old(Bare())) && lbPending == 0
    {
      hide Slv, Ok, Put, IsGrid;
      Ranges();
      BareOk();
      if cv == sre {
        video.UScrl(srs, sre);
        ch := 0;
        InRange();
      } else if cv != ROWS - 1 {
        Plot(cv + 1, 0);
      }
    }

    /** PCput: a screen code is stored at the cursor, which moves on or leaves a wrap pending. */
    method PutCode(code: byte)
      requires InShape() && lbPending == 0
      modifies this`ch, this`lbPending, video.aux, video.main
      ensures InShape() && Bare() == Stored(old(Bare()), code)
    {
      hide Slv, Put, IsGrid, Inverse, Draw.Ok;
      video.Store(basl, cv, ch, code);
      if ch == COLS - 1 {
        lbPending := 0xff;
      } else {
        ch := ch + 1;
      }
    }

    /** PrnChr, with the cursor off. */
    method PrnChr(c: byte)
      requires InShape()
      modifies this`cv, this`ch, this`basl, this`lbPending, video.aux, video.main
      ensures InShape() && Bare() == Print(old(Bare()), c)
    {
      hide Slv, ScreenCode, Wrapped, Ok, Stored;
      BareOk();
      Ranges();
      if c >= 0x80 { return; }
      var code := ScreenCode(c, draw.on, invflg);
      if lbPending != 0 {
        ClPending();
        NewLn();
      }
      PutCode(code);
    }

    method CPrnChr(c: byte)
      requires InShape()
      modifies this`cv, this`ch, this`basl, this`lbPending, this`sCrsrChar, video.aux, video.main
      ensures InShape() && Body() == Print(old(Body()), c) && Drawn()
    {
      hide Ok, Slv, Print;
      COff();
      PrnChr(c);
      COn();
    }

    method CUScrl()
      requires InShape()
      modifies this`sCrsrChar, video.aux, video.main
      ensures var t := old(Body()); Body() == t.(grid := ScrollUp(t.grid, t.top, t.bottom)) && Drawn()
    {
      hide Slv, Ok;
      Ranges();
      COff();
      video.UScrl(srs, sre);
      COn();
    }

    method CDScrl()
      requires InShape()
      modifies this`sCrsrChar, video.aux, video.main
      ensures var t := old(Body()); Body() == t.(grid := ScrollDown(t.grid, t.top, t.bottom)) && Drawn()
    {
      hide Slv, Ok;
      Ranges();
      COff();
      video.DScrl(srs, sre);
      COn();
    }

    // ----- Control characters -----

    method CR()
      requires InShape()
      modifies this`cv, this`ch, this`basl, this`lbPending, this`sCrsrChar, video.aux, video.main
      ensures InShape() && Body() == Return(old(Body())) && Drawn()
    {
      hide Ok, Slv;
      ClPending();
      CPlot(cv, 0);
    }

    method LF()
      requires InShape()
      modifies this`cv, this`ch, this`basl, this`lbPending, this`sCrsrChar, video.aux, video.main
      ensures InShape() && Body() == LineFeed(old(Body()))
      ensures old(Drawn()) ==> Drawn()
    {
      hide Slv, Ok, Drawn;
      ClPending();
      Ranges();
      if cv == sre {
        CUScrl();
      } else if cv != ROWS - 1 {
        CPlot(cv + 1, ch);
      }
    }

    method RI()
      requires InShape()
      modifies this`cv, this`ch, this`basl, this`lbPending, this`sCrsrChar, video.aux, video.main
      ensures InShape() && Body() == ReverseIndex(old(Body()))
      ensures old(Drawn()) ==> Drawn()
    {
      hide Slv, Ok, Drawn;
      ClPending();
      Ranges();
      if cv == srs {
        CDScrl();
      } else if cv != 0 {
        CPlot(cv - 1, ch);
      }
    }

    /** SLD. */
    method Sld()
      modifies this`draw
      ensures draw == old(draw).Selected()
    {
      if draw.shifted {
        draw := draw.(on := draw.g1);
      } else {
        draw := draw.(on := draw.g0);
      }
    }

    /** Shift out and shift in: G1 or G0 is invoked. */
    method Shift(g1: bool)
      requires InShape()
      modifies this`draw
      ensures InShape() && Body() == old(Body()).(draw := old(Body()).draw.(shifted := g1).Selected())
      ensures old(Drawn()) ==> Drawn()
    {
      hide Slv, IsGrid, Ok, Put, Drawn;
      BareOk();
      LinesOk(Bare(), draw.(shifted := g1));
      draw := draw.(shifted := g1);
      Sld();
      InRange();
    }

    method BS()
      requires InShape()
      modifies this`cv, this`ch, this`basl, this`lbPending, this`sCrsrChar, video.aux, video.main
      ensures InShape() && Body() == Control(old(Body()), 0x08)
      ensures old(Drawn()) ==> Drawn()
    {
      hide Slv, Ok, Drawn;
      ClPending();
      Ranges();
      if ch != 0 {
        CPlot(cv, ch - 1);
      }
    }

    method TAB()
      requires InShape()
      modifies this`cv, this`ch, this`basl, this`sCrsrChar, video.aux, video.main
      ensures InShape() && Body() == Control(old(Body()), 0x09) && Drawn()
    {
      hide Slv, Ok, Drawn;
      Ranges();
      var a := ch / 8 * 8 + 8;
      if a == COLS {
        a := COLS - 1;
      }
      CPlot(cv, a);
    }

    /** Special. ESC is left to the caller, as it sets the escape mode; BEL only sounds. */
    method Special(c: byte)
      requires InShape() && c != 0x1b
      modifies this`cv, this`ch, this`basl, this`lbPending, this`sCrsrChar, this`draw, video.aux, video.main
      ensures InShape() && Body() == Control(old(Body()), c)
      ensures old(Drawn()) ==> Drawn()
    {
      hide Slv, Ok, Drawn, LineFeed, Return;
      if c == 0x0d {
        CR();
      } else if c == 0x08 {
        BS();
      } else if c == 0x0a {
        LF();
      } else if c == 0x09 {
        TAB();
      } else if c == 0x0e {
        Shift(true);
      } else if c == 0x0f {
        Shift(false);
      }
    }

    // ----- Escape sequences of one letter -----

    method SaveCursor()
      requires InShape()
      modifies this`saveF, this`saveR, this`saveD, this`saveRow, this`saveCol
      ensures var t := old(Body()); InShape() && Body() == t.(saved := Saved(t.font, t.inv, t.draw, t.row, t.col))
      ensures old(Drawn()) ==> Drawn()
    {
      hide Slv, IsGrid, Ok, Put, Drawn;
      BareOk();
      SavedOk(Bare());
      saveF, saveR, saveD := font, invflg, draw;
      saveRow, saveCol := cv, ch;
      InRange();
    }

    method RestoreCursor()
      requires InShape()
      modifies this`cv, this`ch, this`basl, this`lbPending, this`sCrsrChar, video.aux, video.main
      modifies this`draw, this`invflg, this`font
      ensures var t := old(Body());
              InShape() && Body() == At(Settled(t), t.saved.row, t.saved.col).(
                                     draw := t.saved.draw, inv := t.saved.inv, font := t.saved.font)
      ensures old(Drawn()) ==> Drawn()
    {
      hide Slv, IsGrid, Ok, Put, Drawn;
      RestoredOk(Body());
      ClPending();
      CPlot(saveRow, saveCol);
      BareOk();
      RestoredOk(Bare());
      draw, invflg, font := saveD, saveR, saveF;
      InRange();
    }

    /** SEsc, for the letters that do not set another escape mode. */
    method ShortEsc(c: byte)
      requires InShape() && c !in {0x5b, 0x28, 0x29, 0x23}
      modifies this`cv, this`ch, this`basl, this`lbPending, this`sCrsrChar, video.aux, video.main
      modifies this`draw, this`invflg, this`font
      modifies this`saveF, this`saveR, this`saveD, this`saveRow, this`saveCol
      ensures InShape() && Body() == Escaped(old(Body()), c)
      ensures old(Drawn()) ==> Drawn()
    {
      hide Slv, Ok, Drawn, LineFeed, Return, ReverseIndex;
      if c == 0x44 {
        LF();
      } else if c == 0x4d {
        RI();
      } else if c == 0x45 {
        CR();
        LF();
      } else if c == 0x37 {
        SaveCursor();
      } else if c == 0x38 {
        RestoreCursor();
      }
    }

    /** SCS: the low bits of the escape mode select the set. */
    method Scs(c: byte)
      requires InShape() && (eMode == G0_MODE || eMode == G1_MODE)
      modifies this`draw
      ensures InShape() && Body() == SelectCharset(old(Body()), eMode == G1_MODE, c)
      ensures old(Drawn()) ==> Drawn()
    {
      hide Slv, IsGrid, Ok, Put, Drawn;
      BareOk();
      if eMode == G0_MODE {
        LinesOk(Bare(), draw.(g0 := c == 0x30));
        draw := draw.(g0 := c == 0x30);
      } else {
        LinesOk(Bare(), draw.(g1 := c == 0x30));
        draw := draw.(g1 := c == 0x30);
      }
      Sld();
      InRange();
    }

    // ----- Parameters -----

    /** GetNum, on a sequence in the buffer. */
    method GetNum(x: byte, ghost s: seq<byte>) returns (a: byte, next: byte)
      requires eBuf.Length == 0x100 && |s| <= 0x100 && Sequence(s) && eBuf[..|s|] == s && x < |s|
      modifies this`ePar
      ensures ePar == Number(s, x, 0) && a == s[NumberEnd(s, x)]
      ensures next == (NumberEnd(s, x) + 1) % 0x100
    {
      hide Sequence, AddDigit;
      ePar := 0;
      var i: int := x;
      while true
        invariant x <= i < |s| && NumberEnd(s, x) == NumberEnd(s, i) && Number(s, i, ePar) == Number(s, x, 0)
        decreases |s| - i
      {
        a := eBuf[i];
        assert a == s[i];
        if !D.IsDigit(a) { break; }
        ePar := AddDigit(ePar, a);
        i := i + 1;
      }
      next := (i + 1) % 0x100;
    }

    // ----- Commands of control sequences -----

    /** A sequence lies in the buffer. */
    ghost predicate Holding(s: seq<byte>)
      reads eBuf
    {
      eBuf.Length == 0x100 && |s| <= 0x100 && Sequence(s) && eBuf[..|s|] == s
    }

    /** The count of a cursor movement: zero means one. */
    method GetCount(ghost s: seq<byte>)
      requires Holding(s)
      modifies this`ePar
      ensures ePar == Count(s)
    {
      var _, _ := GetNum(0, s);
      if ePar == 0 {
        ePar := 1;
      }
    }

    method CrsrUp(ghost s: seq<byte>)
      requires InShape() && Holding(s)
      requires cv - Count(s) as int - srs >= -0x80 || cv - Count(s) as int - srs <= -0x100
      modifies this`cv, this`ch, this`basl, this`lbPending, this`sCrsrChar, this`ePar, video.aux, video.main
      ensures var t := old(Body());
              InShape() && Body() == At(Settled(t), Max(t.row - Count(s) as int, t.top), t.col) && Drawn()
    {
      hide Slv, Ok, Drawn, Count, Holding, UpRow;
      ClPending();
      Ranges();
      GetCount(s);
      UpRowExact(cv, ePar, srs);
      var row := SubtractRow(cv, ePar, srs);
      CPlot(row, ch);
    }

    method CrsrDown(ghost s: seq<byte>)
      requires InShape() && Holding(s)
      modifies this`cv, this`ch, this`basl, this`lbPending, this`sCrsrChar, this`ePar, video.aux, video.main
      ensures var t := old(Body());
              InShape() && Body() == At(Settled(t), DownRow(t.row, Count(s), t.bottom), t.col) && Drawn()
    {
      hide Slv, Ok, Drawn, Count, Holding, DownRow;
      ClPending();
      Ranges();
      GetCount(s);
      var row := AddRow(cv, ePar, sre);
      CPlot(row, ch);
    }

    method CrsrRight(ghost s: seq<byte>)
      requires InShape() && Holding(s)
      modifies this`cv, this`ch, this`basl, this`lbPending, this`sCrsrChar, this`ePar, video.aux, video.main
      ensures var t := old(Body());
              InShape() && Body() == At(Settled(t), t.row, RightCol(t.col, Count(s))) && Drawn()
    {
      hide Slv, Ok, Drawn, Count, Holding, RightCol;
      ClPending();
      Ranges();
      GetCount(s);
      var col := AddCol(ch, ePar);
      CPlot(cv, col);
    }

    method CrsrLeft(ghost s: seq<byte>)
      requires InShape() && Holding(s) && ch - Count(s) as int >= -0x80
      modifies this`cv, this`ch, this`basl, this`lbPending, this`sCrsrChar, this`ePar, video.aux, video.main
      ensures var t := old(Body());
              InShape() && Body() == At(Settled(t), t.row, Max(t.col - Count(s) as int, 0)) && Drawn()
    {
      hide Slv, Ok, Drawn, Count, Holding, LeftCol;
      ClPending();
      Ranges();
      GetCount(s);
      LeftColExact(ch, ePar);
      var col := SubtractCol(ch, ePar);
      CPlot(cv, col);
    }

    /** The m command. */
    method SetFont(ghost s: seq<byte>)
      requires InShape() && Holding(s)
      modifies this`font, this`invflg, this`ePar
      ensures var f, t := Attributes(s, 0, old(font)), old(Body());
              InShape() && Body() == t.(font := f, inv := if f.reverse then REVERSE else NORMAL)
      ensures old(Drawn()) ==> Drawn()
    {
      hide Slv, Ok, Drawn, IsGrid, Put;
      BareOk();
      ghost var t := Bare();
      FontLoop(s);
      invflg := if font.reverse then REVERSE else NORMAL;
      AttributesOk(t, font, invflg);
      InRange();
    }

    method FontLoop(ghost s: seq<byte>)
      requires Holding(s)
      modifies this`font, this`ePar
      ensures font == Attributes(s, 0, old(font))
    {
      hide Sequence, Number;
      SequenceLength(s);
      var x: byte := 0;
      while true
        invariant x < |s| && Attributes(s, x, font) == Attributes(s, 0, old(font))
        decreases |s| - x
      {
        var a, next := GetNum(x, s);
        FinalNotSemicolon(s, NumberEnd(s, x));
        if ePar == 0 {
          font := Font(false, false, false);
        } else if ePar == 1 {
          font := font.(bold := true);
        } else if ePar == 4 {
          font := font.(underline := true);
        } else if ePar == 7 {
          font := font.(reverse := true);
        }
        if a != 0x3b { break; }
        x := next;
      }
    }

    method ErEnLn()
      requires InShape()
      modifies this`sCrsrChar, video.aux, video.main
      ensures var t := old(Body()); Body() == t.(grid := EraseFrom(t.grid, t.row, t.col)) && Drawn()
    {
      hide Slv, Ok;
      COff();
      video.ErEn(basl, cv, ch);
      COn();
    }

    method ErBeLn()
      requires InShape()
      modifies this`sCrsrChar, video.aux, video.main
      ensures var t := old(Body()); Body() == t.(grid := EraseTo(t.grid, t.row, t.col)) && Drawn()
    {
      hide Slv, Ok;
      COff();
      video.ErBe(basl, cv, ch);
      COn();
    }

    /** The K command. */
    method LineErase(ghost s: seq<byte>)
      requires InShape() && Holding(s)
      modifies this`sCrsrChar, this`ePar, video.aux, video.main
      ensures Body() == EraseLine(old(Body()), Number(s, 0, 0))
      ensures old(Drawn()) ==> Drawn()
    {
      hide Slv, Ok, Drawn, Number, Sequence;
      SequenceLength(s);
      var _, _ := GetNum(0, s);
      if ePar == 0 {
        ErEnLn();
      } else if ePar == 1 {
        ErBeLn();
      } else if ePar == 2 {
        COff();
        video.ErLn(cv);
        COn();
      }
    }

    /** A row that does not hold the cursor is erased. */
    method ErOther(row: nat)
      requires InShape() && row < ROWS && row != cv
      modifies video.aux, video.main
      ensures Body() == old(Body()).(grid := EraseRow(old(Grid()), row))
      ensures old(Drawn()) ==> Drawn()
    {
      hide Slv, Ok, Put, EraseRow;
      PutElsewhere(video.Screen(), cv, ch, sCrsrChar, row);
      video.ErLn(row);
    }

    method EraseBelow()
      requires InShape()
      modifies video.aux, video.main
      ensures Body() == old(Body()).(grid := EraseRows(old(Grid()), cv + 1, ROWS))
      ensures old(Drawn()) ==> Drawn()
    {
      hide Slv, Ok, Put, EraseRow, EraseRows, Drawn;
      ghost var g := Grid();
      EraseRowsNone(g, cv + 1);
      var x := cv + 1;
      while x < ROWS
        invariant cv + 1 <= x <= ROWS && Body() == old(Body()).(grid := EraseRows(g, cv + 1, x))
        invariant old(Drawn()) ==> Drawn()
      {
        EraseRowsStep(g, cv + 1, x);
        ErOther(x);
        x := x + 1;
      }
    }

    method EraseAbove()
      requires InShape()
      modifies video.aux, video.main
      ensures Body() == old(Body()).(grid := EraseRows(old(Grid()), 0, cv))
      ensures old(Drawn()) ==> Drawn()
    {
      hide Slv, Ok, Put, EraseRow, EraseRows, Drawn;
      ghost var g := Grid();
      EraseRowsNone(g, cv);
      var x: int := cv - 1;
      while x >= 0
        invariant -1 <= x < cv && Body() == old(Body()).(grid := EraseRows(g, x + 1, cv))
        invariant old(Drawn()) ==> Drawn()
      {
        EraseRowsStep(g, x + 1, cv);
        ErOther(x);
        x := x - 1;
      }
    }

    /** The J command. */
    method ScreenErase(ghost s: seq<byte>)
      requires InShape() && Holding(s)
      modifies this`sCrsrChar, this`ePar, video.aux, video.main
      ensures Body() == EraseScreen(old(Body()), Number(s, 0, 0))
      ensures old(Drawn()) ==> Drawn()
    {
      hide Slv, Ok, Drawn, Number, Sequence, EraseRows, EraseFrom, EraseTo, IsGrid;
      SequenceLength(s);
      var _, _ := GetNum(0, s);
      if ePar == 0 {
        ErEnLn();
        EraseBelow();
      } else if ePar == 1 {
        ErBeLn();
        EraseAbove();
      } else if ePar == 2 {
        COff();
        EraseFromBottom();
        COn();
      }
    }

    /** The parameters of a cursor position, of which zero means one. */
    method GetTarget(ghost s: seq<byte>) returns (ok: bool, row: nat, col: nat)
      requires Holding(s) && |s| != 1
      modifies this`ePar
      ensures Target(s) == if ok then Lines(row, col) else NoLines
    {
      hide Number, Sequence;
      SequenceLength(s);
      ok, row, col := false, 0, 0;
      var a, x := GetNum(0, s);
      FinalNotSemicolon(s, NumberEnd(s, 0));
      if a != 0x3b { return; }
      row := if ePar == 0 then 0 else ePar - 1;
      if row >= ROWS { return; }
      a, x := GetNum(x, s);
      col := if ePar == 0 then 0 else ePar - 1;
      ok := col < COLS;
    }

    /** The H and f commands. */
    method Locate(y: byte, ghost s: seq<byte>)
      requires InShape() && Holding(s) && y == |s| % 0x100
      modifies this`cv, this`ch, this`basl, this`lbPending, this`sCrsrChar, this`ePar, video.aux, video.main
      ensures InShape() && Body() == Position(old(Body()), s)
      ensures old(Drawn()) ==> Drawn()
    {
      hide Slv, Ok, Drawn, Number, Sequence, NumberEnd;
      SequenceLength(s);
      ClPending();
      if y == 1 {
        CPlot(0, 0);
      } else {
        var ok, row, col := GetTarget(s);
        if ok {
          CPlot(row, col);
        }
      }
    }

    /** The margins of the r command. A parameter 0 becomes 255 and is refused. */
    method GetMargins(ghost s: seq<byte>) returns (ok: bool, top: nat, bottom: nat)
      requires Holding(s)
      modifies this`ePar
      ensures Margins(s) == if ok then Lines(top, bottom) else NoLines
    {
      hide Number, Sequence;
      SequenceLength(s);
      ok, top, bottom := false, 0, 0;
      var a, x := GetNum(0, s);
      FinalNotSemicolon(s, NumberEnd(s, 0));
      if a != 0x3b { return; }
      top := Decrement(ePar);
      if top >= ROWS { return; }
      a, x := GetNum(x, s);
      bottom := Decrement(ePar);
      ok := bottom < ROWS && top < bottom;
    }

    /** The r command. */
    method SetRegion(ghost s: seq<byte>)
      requires InShape() && Holding(s)
      modifies this`cv, this`ch, this`basl, this`lbPending, this`sCrsrChar, this`ePar, this`srs, this`sre
      modifies video.aux, video.main
      ensures InShape() && Body() == Region(old(Body()), s)
      ensures old(Drawn()) ==> Drawn()
    {
      hide Slv, Ok, Drawn, Number, Sequence, IsGrid, Put, NumberEnd, Margins;
      var ok, top, bottom := GetMargins(s);
      if ok {
        BareOk();
        RegionOk(Bare(), top, bottom);
        srs, sre := top, bottom;
        InRange();
        ClPending();
        CPlot(0, 0);
      }
    }

    /** The test for the private parameter 25. */
    method IsCursorMode(ghost s: seq<byte>) returns (private25: bool)
      requires Holding(s)
      modifies this`ePar
      ensures private25 == CursorMode(s) && (private25 ==> ePar == 25)
    {
      hide Number;
      assert eBuf[0] == s[0];
      if eBuf[0] != 0x3f { return false; }
      var _, _ := GetNum(1, s);
      private25 := ePar == 25;
    }

    /** The l command. */
    method HideCursor(ghost s: seq<byte>)
      requires InShape() && Holding(s)
      modifies this`civis, this`ePar, video.aux, video.main
      ensures InShape() && Body() == if CursorMode(s) then old(Body()).(hidden := true) else old(Body())
      ensures old(Drawn()) ==> Drawn()
    {
      hide Slv, Ok, Put, IsGrid;
      var private25 := IsCursorMode(s);
      if private25 {
        COff();
        BareOk();
        HiddenOk(Bare(), true);
        civis := ePar;
        InRange();
      }
    }

    /** The cursor is marked visible and drawn: correct for a hidden cursor. A visible cursor is drawn a
        second time, which leaves the character under it inverted for good. */
    method Reveal()
      requires InShape() && Drawn()
      modifies this`civis, this`sCrsrChar, video.aux, video.main
      ensures InShape() && Drawn()
      ensures var t := old(Body());
              Body() == if t.hidden then t.(hidden := false)
                        else t.(grid := Put(t.grid, t.row, t.col, Invert(t.grid[t.row][t.col])))
    {
      hide Slv, Ok, IsGrid, Invert, Put;
      BareOk();
      HiddenOk(Bare(), false);
      if civis == 0 {
        PutBack(video.Screen(), cv, ch, sCrsrChar);
      }
      civis := 0;
      InRange();
      COn();
    }

    /** The h command. */
    method ShowCursor(ghost s: seq<byte>)
      requires InShape() && Holding(s) && (CursorMode(s) ==> Drawn())
      modifies this`civis, this`sCrsrChar, this`ePar, video.aux, video.main
      ensures InShape() && (old(Drawn()) ==> Drawn())
      ensures var t := old(Body());
              Body() == if !CursorMode(s) then t
                        else if t.hidden then t.(hidden := false)
                        else t.(grid := Put(t.grid, t.row, t.col, Invert(t.grid[t.row][t.col])))
    {
      hide Slv, Ok, IsGrid, Invert, Put, CursorMode, Drawn;
      var private25 := IsCursorMode(s);
      if private25 {
        Reveal();
      }
    }

    /** The movement commands, which refine the plain ones for tame counts. */
    method Movement(c: byte, ghost s: seq<byte>)
      requires InShape() && Holding(s) && c == s[|s| - 1] && 0x41 <= c <= 0x44 && TameCommand(Body(), s)
      modifies this`cv, this`ch, this`basl, this`lbPending, this`sCrsrChar, this`ePar, video.aux, video.main
      ensures InShape() && Body() == Command(old(Body()), s) && Drawn()
    {
      hide Slv, Ok, Drawn, Count, IsGrid, Put;
      Ranges();
      ghost var n := Count(s);
      if c == 0x41 {
        CrsrUp(s);
      } else if c == 0x42 {
        DownRowExact(cv, n, sre);
        CrsrDown(s);
      } else if c == 0x43 {
        RightColExact(ch, n);
        CrsrRight(s);
      } else {
        CrsrLeft(s);
      }
    }

    /** The command of a complete sequence, chosen by its letter. */
    method Process(c: byte, y: byte, ghost s: seq<byte>)
      requires InShape() && Holding(s) && c == s[|s| - 1] && y == |s| % 0x100 && TameCommand(Body(), s)
      modifies this`cv, this`ch, this`basl, this`lbPending, this`sCrsrChar, this`ePar, video.aux, video.main
      modifies this`font, this`invflg, this`srs, this`sre, this`civis
      ensures InShape() && Body() == Command(old(Body()), s)
      ensures old(Drawn()) ==> Drawn()
    {
      hide Slv, Ok, IsGrid, Put, Count, Number, NumberEnd, Attributes, Position, Region, EraseScreen, EraseLine;
      hide Invert;
      if 0x41 <= c <= 0x44 {
        Movement(c, s);
      } else if c == 0x6d {
        SetFont(s);
      } else if c == 0x4b {
        LineErase(s);
      } else if c == 0x66 || c == 0x48 {
        Locate(y, s);
      } else if c == 0x4a {
        ScreenErase(s);
      } else if c == 0x72 {
        SetRegion(s);
      } else if c == 0x6c {
        HideCursor(s);
      } else if c == 0x68 {
        ShowCursor(s);
      }
    }

    // ----- The automaton -----

    /** Eend and LEend: back to normal mode with an empty buffer. */
    method End()
      requires InShape()
      modifies this`eMode, this`eBufL
      ensures Valid() && State() == old(Body())
      ensures old(Drawn()) ==> Drawn()
    {
      hide Slv, Ok, IsGrid, Put, Drawn;
      eBufL, eMode := 0, NORMAL_MODE;
    }

    /** A byte of a control sequence goes into the buffer. */
    method Append(c: byte, ghost s: seq<byte>)
      requires Arrays() && s == eBuf[..eBufL] + [c]
      modifies this`eBufL, eBuf
      ensures |s| <= 0x100 && eBuf[..|s|] == s && eBufL == |s| % 0x100
    {
      eBuf[eBufL] := c;
      assert eBuf[..|s|] == s;
      eBufL := (eBufL as int + 1) % 0x100;
    }

    /** LEsc, for the letter that completes a control sequence. */
    method FinalByte(c: byte)
      requires Valid() && eMode == CSI_MODE && Letter(c) && Tame(State(), c)
      modifies this, video.aux, video.main, eBuf
      ensures Valid() && State() == Collect(old(State()), c)
      ensures old(Drawn()) ==> Drawn()
    {
      hide Slv, Ok, IsGrid, Put, Drawn, Command, TameCommand, NoLetter, Sequence, Letter;
      ghost var buf := eBuf[..eBufL];
      ghost var s := buf + [c];
      ghost var t, u := State(), Body();
      SequenceOf(buf, c);
      CommandAnyMode(t, u, s);
      Append(c, s);
      assert Body() == u;
      Process(c, eBufL, s);
      End();
    }

    /** LEsc, for a parameter byte. */
    method ParameterByte(c: byte)
      requires Valid() && eMode == CSI_MODE && !Letter(c)
      modifies this`eBufL, eBuf
      ensures Valid() && State() == Collect(old(State()), c)
      ensures old(Drawn()) ==> Drawn()
    {
      hide Slv, Ok, IsGrid, Put, Drawn, NoLetter, Letter;
      ghost var buf := eBuf[..eBufL];
      NoLetterLonger(buf, c);
      NoneEmpty();
      Append(c, buf + [c]);
      assert eBufL == 0 ==> eBuf[..eBufL] == [];
    }

    /** SEsc, for the characters that set another escape mode. */
    method EnterMode(c: byte)
      requires Valid() && eMode == ESC_MODE && c in {0x5b, 0x28, 0x29, 0x23}
      modifies this`eMode
      ensures Valid() && State() == Escaped(old(State()), c)
      ensures old(Drawn()) ==> Drawn()
    {
      hide Slv, Ok, IsGrid, Put, Drawn, LineFeed, Return, ReverseIndex, NoLetter;
      NoneEmpty();
      assert eBuf[..0] == [];
      if c == 0x5b {
        eMode := CSI_MODE;
      } else if c == 0x28 {
        eMode := G0_MODE;
      } else if c == 0x29 {
        eMode := G1_MODE;
      } else {
        eMode := IGNORE_MODE;
      }
    }

    method SEsc(c: byte)
      requires Valid() && eMode == ESC_MODE
      modifies this, video.aux, video.main
      ensures Valid() && State() == Escaped(old(State()), c)
      ensures old(Drawn()) ==> Drawn()
    {
      hide Slv, Ok, IsGrid, Put, Drawn, Escaped;
      if c == 0x5b || c == 0x28 || c == 0x29 || c == 0x23 {
        EnterMode(c);
      } else {
        EscapedAnyMode(State(), Body(), c);
        ShortEsc(c);
        End();
      }
    }

    /** A byte in normal mode. */
    method Direct(c: byte)
      requires Valid() && eMode == NORMAL_MODE
      modifies this, video.aux, video.main
      ensures Valid() && State() == Step(old(State()), c)
      ensures old(Drawn()) ==> Drawn()
    {
      hide Slv, Ok, IsGrid, Put, Drawn, LineFeed, Return, Print;
      if c >= 0x20 {
        CPrnChr(c);
      } else if c == 0x1b {
        eMode := ESC_MODE;
      } else {
        Special(c);
      }
    }

    /** ProcIn: every received byte that is tame refines the step of the plain terminal. */
    method ProcIn(c: byte)
      requires Valid() && Tame(State(), c)
      modifies this, video.aux, video.main, eBuf
      ensures Valid() && State() == Step(old(State()), c)
      ensures old(Drawn()) ==> Drawn()
    {
      hide Slv, Ok, IsGrid, Put, Drawn, Print, Control, Escaped, Collect, Letter, NoLetter, Draw.Selected;
      if eMode == NORMAL_MODE {
        Direct(c);
      } else if eMode % 0x10 == 0 {
        End();
      } else if eMode / 0x10 == 0 {
        SEsc(c);
      } else if eMode == CSI_MODE {
        if Letter(c) {
          FinalByte(c);
        } else {
          ParameterByte(c);
        }
      } else {
        Scs(c);
        End();
      }
    }

    /** A stream of bytes, as the telnet client passes it on. */
    method ProcAll(bytes: seq<byte>)
      requires Valid() && TameRun(State(), bytes)
      modifies this, video.aux, video.main, eBuf
      ensures Valid() && State() == Run(old(State()), bytes)
      ensures old(Drawn()) ==> Drawn()
    {
      hide Slv, Ok, IsGrid, Put, Drawn, Step, Tame;
      var k := 0;
      assert bytes[0..] == bytes;
      while k < |bytes|
        invariant 0 <= k <= |bytes| && Valid() && TameRun(State(), bytes[k..])
        invariant Run(State(), bytes[k..]) == Run(old(State()), bytes)
        invariant old(Drawn()) ==> Drawn()
        decreases |bytes| - k
      {
        assert bytes[k..][1..] == bytes[k + 1..];
        ProcIn(bytes[k]);
        k := k + 1;
      }
    }
  }

  lemma NoneEmpty()
    ensures NoLetter([])
  {
  }

  lemma NoLetterLonger(buf: seq<byte>, c: byte)
    requires NoLetter(buf) && !Letter(c)
    ensures NoLetter(buf + [c])
  {
  }

  lemma SequenceLength(s: seq<byte>)
    requires Sequence(s)
    ensures 0 < |s| <= 0x100
  {
  }

  /** A semicolon is not the end of a sequence. */
  lemma FinalNotSemicolon(s: seq<byte>, i: nat)
    requires Sequence(s) && i < |s|
    ensures s[i] == 0x3b ==> i + 1 < |s|
  {
  }

  function EmptyGrid(): (g: grid)
    ensures IsGrid(g)
  {
    seq(ROWS, _ => Blanks(COLS))
  }
}
