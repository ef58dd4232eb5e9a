/** What received streams do to the cells of the screen: line feeds and scrolling, lines of text, erasing, and
    the state that control characters and sequences set. */
module VtLines {
  import opened Bytes
  import opened VtScreen
  import opened VtSpec
  import opened VtLaws
  import D = Decimal

  const CR: byte := 0x0d
  const LF: byte := 0x0a
  const ESC: byte := 0x1b

  // ----- Line feed and reverse index -----

  /** A cell after the rows from top to bottom have moved up by n rows, blank rows coming in. */
  function MovedCell(g: grid, top: nat, bottom: nat, n: nat, r: nat, c: nat): byte
    requires IsGrid(g) && top <= bottom < ROWS && r < ROWS && c < COLS
  {
    if !(top <= r <= bottom) then g[r][c] else if r + n <= bottom then g[r + n][c] else BLANK
  }

  /** At the bottom margin, a line feed moves the rows of the region up by one and leaves a blank one; it moves the
      cursor down elsewhere, but not off the screen. It never changes the column. */
  lemma LineFeeds(t: Term)
    requires Ok(t) && t.mode == Plain
    ensures var u := Run(t, [LF]);
            if t.row == t.bottom then
              && u == t.(grid := u.grid, pending := false)
              && forall r, c | 0 <= r < ROWS && 0 <= c < COLS :: u.grid[r][c] == MovedCell(t.grid, t.top, t.bottom, 1, r, c)
            else
              u == t.(row := if t.row == ROWS - 1 then t.row else t.row + 1, pending := false)
  {
    hide Ok, ScrollUp;
    RunOne(t, LF);
    OkFacts(t);
    if t.row == t.bottom {
      forall r, c | 0 <= r < ROWS && 0 <= c < COLS
        ensures ScrollUp(t.grid, t.top, t.bottom)[r][c] == MovedCell(t.grid, t.top, t.bottom, 1, r, c)
      {
        UpAt(t.grid, t.top, t.bottom, r, c);
      }
    }
  }

  lemma UpAt(g: grid, top: nat, bottom: nat, r: nat, c: nat)
    requires IsGrid(g) && top <= bottom < ROWS && r < ROWS && c < COLS
    ensures ScrollUp(g, top, bottom)[r][c] == MovedCell(g, top, bottom, 1, r, c)
  {
  }

  lemma DownAt(g: grid, top: nat, bottom: nat, r: nat, c: nat)
    requires IsGrid(g) && top <= bottom < ROWS && r < ROWS && c < COLS
    ensures ScrollDown(g, top, bottom)[r][c]
         == if !(top <= r <= bottom) then g[r][c] else if r > top then g[r - 1][c] else BLANK
  {
  }

  lemma OkFacts(t: Term)
    requires Ok(t)
    ensures IsGrid(t.grid) && t.row < ROWS && t.col < COLS && t.top < t.bottom < ROWS
    ensures t.pending ==> t.col == COLS - 1
  {
  }

  /** ESC M is its mirror image. */
  lemma ReverseIndexes(t: Term)
    requires Ok(t) && t.mode == Plain
    ensures var u := Run(t, [ESC, 0x4d]);
            if t.row == t.top then
              && u == t.(grid := u.grid, pending := false)
              && forall r, c | 0 <= r < ROWS && 0 <= c < COLS ::
                   u.grid[r][c] == if !(t.top <= r <= t.bottom) then t.grid[r][c] else if r > t.top then t.grid[r - 1][c] else BLANK
            else
              u == t.(row := if t.row == 0 then 0 else t.row - 1, pending := false)
  {
    hide Ok, ScrollDown;
    RunTwo(t, ESC, 0x4d);
    OkFacts(t);
    PlainEscape(t);
    if t.row == t.top {
      forall r, c | 0 <= r < ROWS && 0 <= c < COLS
        ensures ScrollDown(t.grid, t.top, t.bottom)[r][c]
             == if !(t.top <= r <= t.bottom) then t.grid[r][c] else if r > t.top then t.grid[r - 1][c] else BLANK
      {
        DownAt(t.grid, t.top, t.bottom, r, c);
      }
    }
  }

  /** ESC D is a line feed, and ESC E one behind a carriage return. */
  lemma IndexAndNextLine(t: Term)
    requires Ok(t) && t.mode == Plain
    ensures Run(t, [ESC, 0x44]) == Run(t, [LF])
    ensures Run(t, [ESC, 0x45]) == Run(t, [CR, LF])
  {
    hide Ok, Run, Step;
    RunTwo(t, ESC, 0x44);
    RunTwo(t, ESC, 0x45);
    RunTwo(t, CR, LF);
    RunOne(t, LF);
    PlainEscape(t);
    ShortEscapes(t);
  }

  lemma ShortEscapes(t: Term)
    requires Ok(t) && t.mode == Plain
    ensures Step(t.(mode := Escape), 0x44) == Step(t, LF)
    ensures Step(t.(mode := Escape), 0x45) == Step(Step(t, CR), LF)
  {
    hide Ok, ScrollUp, Print, Command, Collect, SelectCharset;
  }

  lemma PlainEscape(t: Term)
    requires Ok(t) && t.mode == Plain
    ensures Step(t, ESC) == t.(mode := Escape) && t.(mode := Escape).(mode := Plain) == t
  {
  }

  /** A line feed moves down what a reverse index moves up. */
  lemma FeedAndIndex(t: Term)
    requires Ok(t) && t.mode == Plain && t.row != t.bottom && t.row + 1 != t.top && t.row + 1 < ROWS
    ensures Run(t, [LF, ESC, 0x4d]) == Settled(t)
  {
    hide Ok, Run;
    LineFeeds(t);
    assert [LF, ESC, 0x4d] == [LF] + [ESC, 0x4d];
    RunConcat(t, [LF], [ESC, 0x4d]);
    ReverseIndexes(Run(t, [LF]));
  }

  // ----- Lines of text -----

  predicate ShortLines(lines: seq<seq<byte>>) {
    forall i | 0 <= i < |lines| :: Plaintext(lines[i]) && |lines[i]| <= COLS
  }

  /** The lines, each ended by CR LF. */
  function Stream(lines: seq<seq<byte>>): seq<byte> {
    if lines == [] then []
    else Stream(lines[..|lines| - 1]) + (lines[|lines| - 1] + [CR, LF])
  }

  /** How often n lines from the cursor's row on scroll the region. */
  function Scrolls(t: Term, n: nat): nat {
    if t.row + n <= t.bottom then 0 else t.row + n - t.bottom
  }

  /** The region shows the end of what would be on a sheet of paper without a bottom: the lines over what was there. */
  function CellBehind(t: Term, lines: seq<seq<byte>>, r: nat, c: nat): byte
    requires Ok(t) && r < ROWS && c < COLS
  {
    var row := r + Scrolls(t, |lines|);
    var i := row - t.row;
    if !(t.top <= r <= t.bottom) then t.grid[r][c]
    else if 0 <= i < |lines| && c < |lines[i]| then ScreenCode(lines[i][c], t.draw.on, t.inv)
    else if row <= t.bottom then t.grid[row][c] else BLANK
  }

  /** The terminal behind n lines. */
  predicate ShowsLines(t: Term, lines: seq<seq<byte>>, u: Term)
    requires Ok(t) && Ok(u)
  {
    && u == t.(grid := u.grid, row := t.row + |lines| - Scrolls(t, |lines|))
    && forall r, c | 0 <= r < ROWS && 0 <= c < COLS :: u.grid[r][c] == CellBehind(t, lines, r, c)
  }

  lemma NoLines(t: Term)
    requires Ok(t) && t.top <= t.row <= t.bottom
    ensures ShowsLines(t, [], t)
  {
  }

  /** One line: its characters, and the line feed. */
  lemma OneLine(v: Term, line: seq<byte>)
    requires Ok(v) && v.mode == Plain && v.col == 0 && !v.pending && v.top <= v.row <= v.bottom
    requires Plaintext(line) && |line| <= COLS
    ensures var x := Run(v, line + [CR, LF]);
            && TameRun(v, line + [CR, LF]) && ShowsLines(v, [line], x)
  {
    hide Ok, Run, TameRun, Shows, ShowsLines, Fed, FitsBelow;
    OneRow(v, line);
    TextShown(v, line);
    var w := Run(v, line);
    RunConcat(v, line, [CR, LF]);
    PlainStays(v, line, w);
    ReturnAndFeed(w);
    FedLine(v, line, w, Run(w, [CR, LF]));
  }

  lemma OneRow(v: Term, line: seq<byte>)
    requires Ok(v) && v.top <= v.row <= v.bottom && |line| <= COLS
    ensures FitsBelow(v, |line|)
  {
  }

  lemma PlainStays(v: Term, line: seq<byte>, w: Term)
    requires Ok(v) && Ok(w) && FitsBelow(v, |line|) && Shows(v, line, w)
    ensures w.mode == v.mode
  {
  }

  lemma FedLine(v: Term, line: seq<byte>, w: Term, x: Term)
    requires Ok(v) && Ok(w) && Ok(x) && v.top <= v.row <= v.bottom && v.col == 0 && !v.pending
    requires |line| <= COLS && FitsBelow(v, |line|) && Shows(v, line, w) && Fed(w, x)
    ensures ShowsLines(v, [line], x)
  {
    hide Ok, Shows, CellBehind, MovedCell, FitsBelow;
    OkFacts(v);
    OkFacts(w);
    OkFacts(x);
    Returned(v, line, w);
    forall r, c | 0 <= r < ROWS && 0 <= c < COLS ensures x.grid[r][c] == CellBehind(v, [line], r, c) {
      LineCell(v, line, w, r, c);
    }
  }

  lemma LineCell(v: Term, line: seq<byte>, w: Term, r: nat, c: nat)
    requires Ok(v) && Ok(w) && v.top <= v.row <= v.bottom
    requires |line| <= COLS && FitsBelow(v, |line|) && Shows(v, line, w) && r < ROWS && c < COLS
    ensures MovedCell(w.grid, v.top, v.bottom, if v.row == v.bottom then 1 else 0, r, c) == CellBehind(v, [line], r, c)
  {
    hide ScreenCode, Shows, Ok;
    OkFacts(v);
    var s := if v.row == v.bottom then 1 else 0;
    CellOfLine(v, line, w, r, c);
    if r + s < ROWS {
      CellOfLine(v, line, w, r + s, c);
    }
  }

  lemma Returned(v: Term, line: seq<byte>, w: Term)
    requires Ok(v) && Ok(w) && |line| <= COLS && FitsBelow(v, |line|) && Shows(v, line, w)
    ensures w == v.(grid := w.grid, pending := w.pending, col := w.col)
  {
  }

  lemma CellOfLine(v: Term, line: seq<byte>, w: Term, r: nat, c: nat)
    requires Ok(v) && Ok(w) && |line| <= COLS && FitsBelow(v, |line|) && Shows(v, line, w)
    requires r < ROWS && c < COLS
    ensures w.grid[r][c] == if r == v.row && c < |line| then ScreenCode(line[c], v.draw.on, v.inv) else v.grid[r][c]
  {
    hide ScreenCode;
    assert w.grid[r][c] == CellAfter(v, line, r, c);
  }

  /** The cursor is at the start of the next row, for which the region may have scrolled. */
  predicate Fed(w: Term, x: Term)
    requires Ok(w) && Ok(x)
  {
    && x == w.(grid := x.grid, col := 0, pending := false,
               row := if w.row == w.bottom || w.row == ROWS - 1 then w.row else w.row + 1)
    && forall r, c | 0 <= r < ROWS && 0 <= c < COLS ::
         x.grid[r][c] == MovedCell(w.grid, w.top, w.bottom, if w.row == w.bottom then 1 else 0, r, c)
  }

  lemma ReturnAndFeed(w: Term)
    requires Ok(w) && w.mode == Plain
    ensures TameRun(w, [CR, LF]) && Fed(w, Run(w, [CR, LF]))
  {
    hide Ok;
    RunTwo(w, CR, LF);
    var v := Return(w);
    RunOne(v, LF);
    LineFeeds(v);
    OkFacts(w);
  }

  /** Any number of lines of text, from the start of a row of the scroll region on: the region ends up with the last
      of them in order, above the cursor; each is whole, what was under it shows behind its end, and rows that have
      come in are blank. Nothing else changes. */
  lemma {:induction false} LinesShown(t: Term, lines: seq<seq<byte>>)
    requires Ok(t) && t.mode == Plain && t.col == 0 && !t.pending && t.top <= t.row <= t.bottom && ShortLines(lines)
    ensures TameRun(t, Stream(lines)) && ShowsLines(t, lines, Run(t, Stream(lines)))
    decreases |lines|
  {
    hide Ok;
    if lines == [] {
      NoLines(t);
    } else {
      hide Run, TameRun, CellBehind;
      var early, line := lines[..|lines| - 1], lines[|lines| - 1];
      LinesShown(t, early);
      var v := Run(t, Stream(early));
      OneLine(v, line);
      RunConcat(t, Stream(early), line + [CR, LF]);
      MoreLines(t, early, v, line, Run(v, line + [CR, LF]));
      assert early + [line] == lines;
    }
  }

  lemma MoreLines(t: Term, early: seq<seq<byte>>, v: Term, line: seq<byte>, x: Term)
    requires Ok(t) && Ok(v) && Ok(x) && t.top <= t.row <= t.bottom
    requires ShowsLines(t, early, v) && ShowsLines(v, [line], x)
    ensures ShowsLines(t, early + [line], x)
  {
    hide Ok, ScreenCode, CellBehind;
    OkFacts(t);
    OkFacts(x);
    var lines := early + [line];
    forall r, c | 0 <= r < ROWS && 0 <= c < COLS ensures x.grid[r][c] == CellBehind(t, lines, r, c) {
      MoreCellsBehind(t, early, v, line, r, c);
    }
  }

  lemma MoreCellsBehind(t: Term, early: seq<seq<byte>>, v: Term, line: seq<byte>, r: nat, c: nat)
    requires Ok(t) && Ok(v) && t.top <= t.row <= t.bottom && ShowsLines(t, early, v)
    requires r < ROWS && c < COLS
    ensures CellBehind(v, [line], r, c) == CellBehind(t, early + [line], r, c)
  {
    hide ScreenCode;
    var s := Scrolls(v, 1);
    assert v.grid[r][c] == CellBehind(t, early, r, c);
    if r + s <= t.bottom {
      assert v.grid[r + s][c] == CellBehind(t, early, r + s, c);
    }
  }

  // ----- Single characters -----

  /** A character is stored in the cursor's cell, and nowhere else; behind the last column the wrap is pending. */
  lemma CharacterShown(t: Term, ch: byte)
    requires Ok(t) && t.mode == Plain && !t.pending && 0x20 <= ch < 0x80
    ensures var u := Run(t, [ch]);
            && u == t.(grid := u.grid, col := if t.col == COLS - 1 then t.col else t.col + 1, pending := t.col == COLS - 1)
            && forall r, c | 0 <= r < ROWS && 0 <= c < COLS ::
                 u.grid[r][c] == if r == t.row && c == t.col then ScreenCode(ch, t.draw.on, t.inv) else t.grid[r][c]
  {
    hide ScreenCode, Put;
    RunOne(t, ch);
    forall r, c | 0 <= r < ROWS && 0 <= c < COLS
      ensures Put(t.grid, t.row, t.col, ScreenCode(ch, t.draw.on, t.inv))[r][c]
           == if r == t.row && c == t.col then ScreenCode(ch, t.draw.on, t.inv) else t.grid[r][c]
    {
      PutAt(t.grid, t.row, t.col, ScreenCode(ch, t.draw.on, t.inv), r, c);
    }
  }

  /** A pending wrap is a carriage return and a line feed in front of the next character, except in the last row of
      the screen below the region, where it stays pending. */
  lemma WrapIsNewLine(t: Term, ch: byte)
    requires Ok(t) && t.mode == Plain && t.pending && 0x20 <= ch < 0x80
    ensures Run(t, [ch]) == Run(t, [CR, LF, ch]) <==> !(t.row == ROWS - 1 && t.row != t.bottom)
    ensures t.row == ROWS - 1 && t.row != t.bottom ==> Run(t, [ch]) == Run(Settled(t), [ch])
  {
    hide Ok, ScreenCode, Put, ScrollUp, IsGrid, Stored;
    OkFacts(t);
    SettledOk(t);
    RunOne(t, ch);
    RunOne(Settled(t), ch);
    assert [CR, LF, ch] == [CR, LF] + [ch];
    RunConcat(t, [CR, LF], [ch]);
    RunTwo(t, CR, LF);
    var v := LineFeed(Return(t));
    RunOne(v, ch);
    var code := ScreenCode(ch, t.draw.on, t.inv);
    if t.row == ROWS - 1 && t.row != t.bottom {
      StoredCol(Settled(t), code);
      StoredCol(v, code);
    } else {
      assert v == Wrapped(Settled(t));
    }
  }

  lemma StoredCol(t: Term, code: byte)
    requires Ok(t) && !t.pending
    ensures Stored(t, code).col == if t.col == COLS - 1 then t.col else t.col + 1
  {
  }

  lemma SettledOk(t: Term)
    requires Ok(t)
    ensures Ok(Settled(t))
  {
  }

  /** Backspace moves left, but not past the margin. Tab moves to the next multiple of eight or to the last column, and
      leaves a pending wrap alone. Bytes from 0x80 on, and control characters without a meaning, do nothing. */
  lemma ColumnsMoved(t: Term)
    requires Ok(t) && t.mode == Plain
    ensures Run(t, [0x08]) == t.(col := if t.col == 0 then 0 else t.col - 1, pending := false)
    ensures Run(t, [CR]) == t.(col := 0, pending := false)
    ensures var u := Run(t, [0x09]);
            && u == t.(col := u.col) && t.col <= u.col <= COLS - 1 && (u.col == t.col ==> t.col == COLS - 1)
            && (u.col % 8 == 0 || u.col == COLS - 1) && forall x | t.col < x < u.col :: x % 8 != 0
    ensures forall c: byte | c >= 0x80 || (c < 0x20 && c !in {0x08, 0x09, LF, CR, 0x0e, 0x0f, ESC}) :: Run(t, [c]) == t
  {
    hide Ok;
    OkFacts(t);
    RunOne(t, 0x08);
    RunOne(t, CR);
    RunOne(t, 0x09);
    NextTab(t.col);
    forall c: byte | c >= 0x80 || (c < 0x20 && c !in {0x08, 0x09, LF, CR, 0x0e, 0x0f, ESC}) ensures Run(t, [c]) == t {
      RunOne(t, c);
    }
  }

  lemma NextTab(col: nat)
    requires col < COLS
    ensures var x := Tabbed(col);
            && col <= x <= COLS - 1 && (x == col ==> col == COLS - 1)
            && (x % 8 == 0 || x == COLS - 1) && forall y | col < y < x :: y % 8 != 0
  {
  }

  // ----- Character sets and screen codes -----

  /** The line drawing characters are on exactly while the set that is invoked, G0 or, behind SO and up to SI, G1, was
      chosen to be that of line drawing. */
  lemma SetInvoked(t: Term)
    requires Ok(t) && t.mode == Plain
    ensures Run(t, [0x0e]) == t.(draw := Draw(t.draw.g0, t.draw.g1, t.draw.g1, true))
    ensures Run(t, [0x0f]) == t.(draw := Draw(t.draw.g0, t.draw.g1, t.draw.g0, false))
  {
    hide Ok, Run;
    RunOne(t, 0x0e);
    RunOne(t, 0x0f);
  }

  /** ESC ( and ESC ) choose G0 and G1. */
  lemma SetChosen(t: Term, g1: bool, c: byte)
    requires Ok(t) && t.mode == Plain
    ensures Run(t, [ESC, if g1 then 0x29 else 0x28, c])
         == t.(draw := Draw(if g1 then t.draw.g0 else c == 0x30, if g1 then c == 0x30 else t.draw.g1,
                            if t.draw.shifted == g1 then c == 0x30 else t.draw.on, t.draw.shifted))
  {
    hide Ok, Run;
    DrawOk(t);
    RunThree(t, ESC, if g1 then 0x29 else 0x28, c);
  }

  /** The character behind ESC # is ignored. */
  lemma LineSizeIgnored(t: Term, c: byte)
    requires Ok(t) && t.mode == Plain
    ensures Run(t, [ESC, 0x23, c]) == t
  {
    hide Ok, Run;
    RunThree(t, ESC, 0x23, c);
  }

  lemma DrawOk(t: Term)
    requires Ok(t)
    ensures t.draw.on == if t.draw.shifted then t.draw.g1 else t.draw.g0
  {
  }

  lemma RunThree(t: Term, b: byte, d: byte, c: byte)
    requires Ok(t)
    ensures Run(t, [b, d, c]) == Step(Step(Step(t, b), d), c)
  {
    hide Ok, Step, Run;
    assert [b, d, c] == [b, d] + [c];
    RunConcat(t, [b, d], [c]);
    RunTwo(t, b, d);
    RunOne(Run(t, [b, d]), c);
  }

  /** Escape sequences without a meaning do nothing. */
  lemma UnknownEscape(t: Term, c: byte)
    requires Ok(t) && t.mode == Plain && c !in {0x5b, 0x28, 0x29, 0x23, 0x44, 0x4d, 0x45, 0x37, 0x38}
    ensures Run(t, [ESC, c]) == t
  {
    hide Ok;
    RunTwo(t, ESC, c);
  }

  /** Different characters look different, in normal and in reverse, and in both a space is a blank of its kind. */
  lemma CodesDiffer(c: byte, d: byte)
    requires 0x20 <= c < d < 0x80
    ensures ScreenCode(c, false, NORMAL) != ScreenCode(d, false, NORMAL)
    ensures ScreenCode(c, false, REVERSE) != ScreenCode(d, false, REVERSE)
    ensures ScreenCode(0x20, false, NORMAL) == BLANK && ScreenCode(0x20, false, REVERSE) == Invert(BLANK)
    ensures c < 0x60 ==> ScreenCode(c, true, NORMAL) == ScreenCode(c, false, NORMAL)
  {
  }

  // ----- Control sequences -----

  /** A control sequence with these parameter bytes and this letter. */
  function Csi(p: seq<byte>, letter: byte): seq<byte> {
    [ESC, 0x5b] + p + [letter]
  }

  lemma CsiRun(t: Term, p: seq<byte>, letter: byte)
    requires Ok(t) && t.mode == Plain && NoLetter(p) && |p| < 0x100 && Letter(letter)
    ensures Sequence(p + [letter]) && Run(t, Csi(p, letter)) == Command(t, p + [letter])
    ensures TameRun(t, Csi(p, letter)) <==> TameCommand(t, p + [letter])
  {
    hide Ok, Run, TameRun, NoLetter, Sequence, Command, TameCommand, Letter;
    SequenceOf(p, letter);
    var u := Introduced(t);
    Collected(u, p);
    assert [] + p == p;
    var v := Run(u, p);
    RunOne(v, letter);
    FinalStep(v, p, letter);
    CommandAnyMode(t, v, p + [letter]);
    RunConcat(t, [ESC, 0x5b], p);
    RunConcat(t, [ESC, 0x5b] + p, [letter]);
  }

  lemma FinalStep(v: Term, p: seq<byte>, letter: byte)
    requires Ok(v) && v.mode == Mode.Csi(p) && Letter(letter) && Sequence(p + [letter])
    ensures Step(v, letter) == Command(v, p + [letter]) && (Tame(v, letter) <==> TameCommand(v, p + [letter]))
  {
    hide Ok, Sequence, Command, TameCommand;
  }

  /** One parameter, or none, which counts as zero. */
  lemma OneParameter(n: nat, letter: byte)
    requires n < 0x100 && Letter(letter)
    ensures var d := D.Digits(n);
            NoLetter(d) && |d| <= 3 && Sequence(d + [letter]) && Number(d + [letter], 0, 0) as int == n
    ensures NoLetter([]) && Sequence([letter]) && Number([letter], 0, 0) == 0
  {
    hide D.Digits, Number, NumberEnd;
    var d, s := D.Digits(n), D.Digits(n) + [letter];
    D.DigitsCanonical(n);
    assert D.Power10(3) == 1000;
    D.DigitsLength(n, 3);
    assert s[..|d|] == d && s[0..0 + |d|] == d;
    PrintedNumber(s, 0, n);
    NoNumber(letter);
  }

  lemma NoNumber(letter: byte)
    requires Letter(letter)
    ensures NoLetter([]) && Sequence([letter]) && Number([letter], 0, 0) == 0
  {
    assert [letter][..0] == [];
  }

  predicate ErasedInRow(n: nat, col: nat, c: nat) {
    (n == 0 && c >= col) || (n == 1 && c <= col) || n == 2
  }

  predicate ErasedInLine(n: nat, row: nat, col: nat, r: nat, c: nat) {
    r == row && ErasedInRow(n, col, c)
  }

  /** ESC [ n K blanks the cursor's row from the cursor on, up to the cursor, or as a whole, the cursor included. */
  lemma LineErased(t: Term, n: nat)
    requires Ok(t) && t.mode == Plain && n < 0x100
    ensures var u := Run(t, Csi(D.Digits(n), 0x4b));
            && u == t.(grid := u.grid)
            && forall r, c | 0 <= r < ROWS && 0 <= c < COLS ::
                 u.grid[r][c] == if ErasedInLine(n, t.row, t.col, r, c) then BLANK else t.grid[r][c]
    ensures Run(t, Csi([], 0x4b)) == Run(t, Csi(D.Digits(0), 0x4b))
  {
    hide Ok, Sequence, Number, D.Digits, EraseLine, Run, ErasedInLine;
    ParameterRun(t, n, 0x4b);
    ParameterRun(t, 0, 0x4b);
    ErasedLine(t, n);
    assert t.(mode := Plain) == t;
  }

  /** The command that is run for one parameter, and for none. */
  lemma ParameterRun(t: Term, n: nat, letter: byte)
    requires Ok(t) && t.mode == Plain && n < 0x100 && Letter(letter)
    ensures Sequence(D.Digits(n) + [letter]) && Number(D.Digits(n) + [letter], 0, 0) as int == n
    ensures Run(t, Csi(D.Digits(n), letter)) == Command(t, D.Digits(n) + [letter])
    ensures Sequence([letter]) && Number([letter], 0, 0) == 0 && Run(t, Csi([], letter)) == Command(t, [letter])
  {
    hide Ok, Sequence, NoLetter, Number, D.Digits, Command, Run, Letter;
    OneParameter(n, letter);
    CsiRun(t, D.Digits(n), letter);
    CsiRun(t, [], letter);
    assert [] + [letter] == [letter];
  }

  lemma ErasedLine(t: Term, n: byte)
    requires Ok(t)
    ensures EraseLine(t, n) == t.(grid := EraseLine(t, n).grid)
    ensures forall r, c | 0 <= r < ROWS && 0 <= c < COLS ::
              EraseLine(t, n).grid[r][c] == if ErasedInLine(n, t.row, t.col, r, c) then BLANK else t.grid[r][c]
  {
    hide EraseFrom, EraseTo, EraseRow;
    forall r, c | 0 <= r < ROWS && 0 <= c < COLS
      ensures EraseLine(t, n).grid[r][c] == if ErasedInLine(n, t.row, t.col, r, c) then BLANK else t.grid[r][c]
    {
      ErasedAt(t.grid, t.row, t.col, r, c);
    }
  }

  lemma ErasedAt(g: grid, row: nat, col: nat, r: nat, c: nat)
    requires IsGrid(g) && row < ROWS && col < COLS && r < ROWS && c < COLS
    ensures EraseFrom(g, row, col)[r][c] == if r == row && c >= col then BLANK else g[r][c]
    ensures EraseTo(g, row, col)[r][c] == if r == row && c <= col then BLANK else g[r][c]
    ensures EraseRow(g, row)[r][c] == if r == row then BLANK else g[r][c]
  {
  }

  lemma RowsErasedAt(g: grid, from: nat, to: nat, r: nat, c: nat)
    requires IsGrid(g) && from <= to <= ROWS && r < ROWS && c < COLS
    ensures EraseRows(g, from, to)[r][c] == if from <= r < to then BLANK else g[r][c]
  {
  }

  predicate ErasedInScreen(n: nat, row: nat, col: nat, r: nat, c: nat) {
    (r == row && ErasedInRow(n, col, c)) || (r > row && n in {0, 2}) || (r < row && n in {1, 2})
  }

  /** ESC [ n J does so with all the rows below, above, or both. */
  lemma ScreenErased(t: Term, n: nat)
    requires Ok(t) && t.mode == Plain && n < 0x100
    ensures var u := Run(t, Csi(D.Digits(n), 0x4a));
            && u == t.(grid := u.grid)
            && forall r, c | 0 <= r < ROWS && 0 <= c < COLS ::
                 u.grid[r][c] == if ErasedInScreen(n, t.row, t.col, r, c) then BLANK else t.grid[r][c]
    ensures Run(t, Csi([], 0x4a)) == Run(t, Csi(D.Digits(0), 0x4a))
  {
    hide Ok, Sequence, Number, D.Digits, EraseScreen, Run, ErasedInScreen;
    ParameterRun(t, n, 0x4a);
    ParameterRun(t, 0, 0x4a);
    ErasedScreen(t, n);
    assert t.(mode := Plain) == t;
  }

  lemma ErasedScreen(t: Term, n: byte)
    requires Ok(t)
    ensures EraseScreen(t, n) == t.(grid := EraseScreen(t, n).grid)
    ensures forall r, c | 0 <= r < ROWS && 0 <= c < COLS ::
              EraseScreen(t, n).grid[r][c] == if ErasedInScreen(n, t.row, t.col, r, c) then BLANK else t.grid[r][c]
  {
    hide EraseFrom, EraseTo, EraseRows;
    forall r, c | 0 <= r < ROWS && 0 <= c < COLS
      ensures EraseScreen(t, n).grid[r][c] == if ErasedInScreen(n, t.row, t.col, r, c) then BLANK else t.grid[r][c]
    {
      ErasedAt(t.grid, t.row, t.col, r, c);
      RowsErasedAt(EraseFrom(t.grid, t.row, t.col), t.row + 1, ROWS, r, c);
      RowsErasedAt(EraseTo(t.grid, t.row, t.col), 0, t.row, r, c);
      RowsErasedAt(t.grid, 0, ROWS, r, c);
    }
  }

  /** ESC [ n m. */
  lemma AttributeSet(t: Term, n: nat)
    requires Ok(t) && t.mode == Plain && n < 0x100
    ensures var u := Run(t, Csi(D.Digits(n), 0x6d));
            && u == t.(font := u.font, inv := if u.font.reverse then REVERSE else NORMAL)
            && u.font == match n
                         case 0 => Font(false, false, false)
                         case 1 => t.font.(bold := true)
                         case 4 => t.font.(underline := true)
                         case 7 => t.font.(reverse := true)
                         case _ => t.font
    ensures Run(t, Csi([], 0x6d)) == Run(t, Csi(D.Digits(0), 0x6d))
  {
    hide Ok, Sequence, NoLetter, Number, D.Digits, Run, NumberEnd;
    ParameterRun(t, n, 0x6d);
    ParameterRun(t, 0, 0x6d);
    LastParameter(D.Digits(n), n);
    LastParameter(D.Digits(0), 0);
    NoNumber(0x6d);
  }

  lemma LastParameter(d: seq<byte>, n: nat)
    requires n < 0x100 && d == D.Digits(n) && Sequence(d + [0x6d])
    ensures NumberEnd(d + [0x6d], 0) == |d| && (d + [0x6d])[|d|] == 0x6d
  {
    hide D.Digits, Sequence, Number;
    var s := d + [0x6d];
    assert s[0..0 + |d|] == d;
    PrintedNumber(s, 0, n);
  }

  /** Several parameters have the effect of as many sequences. */
  lemma AttributesInTurn(t: Term, n: nat, rest: seq<byte>)
    requires Ok(t) && t.mode == Plain && n < 0x100 && NoLetter(rest) && |rest| < 0x100 - 4
    ensures Run(t, Csi(D.Digits(n) + [0x3b] + rest, 0x6d)) == Run(Run(t, Csi(D.Digits(n), 0x6d)), Csi(rest, 0x6d))
  {
    hide Ok, NoLetter, Run, D.Digits, Sequence, Number, NumberEnd, Attributes;
    var d := D.Digits(n);
    OneParameter(n, 0x6d);
    Separated(d, rest);
    var p := d + [0x3b] + rest;
    CsiRun(t, p, 0x6d);
    CsiRun(t, d, 0x6d);
    var u := Run(t, Csi(d, 0x6d));
    CsiRun(u, rest, 0x6d);
    FirstAttribute(t.font, n, rest);
  }

  lemma Separated(d: seq<byte>, rest: seq<byte>)
    requires NoLetter(d) && NoLetter(rest) && |d| <= 3 && |rest| < 0x100 - 4
    ensures NoLetter(d + [0x3b] + rest) && Sequence(d + [0x3b] + rest + [0x6d]) && Sequence(rest + [0x6d])
  {
    var p := d + [0x3b] + rest;
    forall i | 0 <= i < |p| ensures !Letter(p[i]) {
      if i > |d| { assert p[i] == rest[i - |d| - 1]; }
    }
    assert (p + [0x6d])[..|p|] == p && (rest + [0x6d])[..|rest|] == rest;
  }

  lemma FirstAttribute(font: Font, n: nat, rest: seq<byte>)
    requires n < 0x100 && Sequence(D.Digits(n) + [0x6d])
    requires Sequence(D.Digits(n) + [0x3b] + rest + [0x6d]) && Sequence(rest + [0x6d])
    ensures Attributes(D.Digits(n) + [0x3b] + rest + [0x6d], 0, font)
         == Attributes(rest + [0x6d], 0, Attributes(D.Digits(n) + [0x6d], 0, font))
  {
    hide D.Digits, Sequence, Number, NumberEnd;
    var d, tail := D.Digits(n), rest + [0x6d];
    var s := d + [0x3b] + rest + [0x6d];
    assert s == d + [0x3b] + tail;
    assert s[0..0 + |d|] == d && s[|d|] == 0x3b && s[|d| + 1..] == tail;
    PrintedNumber(s, 0, n);
    LastParameter(d, n);
    assert (d + [0x6d])[0..0 + |d|] == d;
    PrintedNumber(d + [0x6d], 0, n);
    AttributesFrom(s, |d| + 1, 0, Attributes(d + [0x6d], 0, font));
  }

  /** Attributes do not depend on what is in front of them. */
  lemma {:induction false} AttributesFrom(s: seq<byte>, k: nat, x: nat, font: Font)
    requires Sequence(s) && k < |s| && Sequence(s[k..]) && x < |s| - k
    ensures Attributes(s, k + x, font) == Attributes(s[k..], x, font)
    decreases |s| - k - x
  {
    hide Sequence, Number, NumberEnd;
    NumberFromThere(s, k, x, 0);
    var end := NumberEnd(s[k..], x);
    if s[k..][end] == 0x3b && end + 1 < |s| - k {
      var n := Number(s, k + x, 0);
      var f :=
        if n == 0 then Font(false, false, false)
        else if n == 1 then font.(bold := true)
        else if n == 4 then font.(underline := true)
        else if n == 7 then font.(reverse := true)
        else font;
      AttributesFrom(s, k, end + 1, f);
    }
  }

  lemma {:induction false} NumberFromThere(s: seq<byte>, k: nat, x: nat, acc: byte)
    requires Sequence(s) && k < |s| && Sequence(s[k..]) && x < |s| - k
    ensures Number(s, k + x, acc) == Number(s[k..], x, acc) && NumberEnd(s, k + x) == k + NumberEnd(s[k..], x)
    decreases |s| - k - x
  {
    hide AddDigit;
    if D.IsDigit(s[k + x]) {
      NumberFromThere(s, k, x + 1, AddDigit(acc, s[k + x]));
    }
  }

  /** ESC [ top ; bottom r sets the region and puts the cursor home, if the rows are on the screen and in order. */
  lemma RegionSet(t: Term, top: nat, bottom: nat)
    requires Ok(t) && t.mode == Plain && top < 0x100 && bottom < 0x100
    ensures Run(t, Csi(Address(top, bottom), 0x72))
         == if 1 <= top < bottom <= ROWS then t.(top := top - 1, bottom := bottom - 1, row := 0, col := 0, pending := false) else t
  {
    hide Ok, NoLetter, Run, D.Digits, Sequence, Number, NumberEnd, Address, Letter;
    AddressParts(top, bottom);
    LetterH();
    AddressSequence(top, bottom, 0x72);
    CsiRun(t, Address(top, bottom), 0x72);
    AddressNumbers(top, bottom, 0x72);
  }

  lemma AddressSequence(row: nat, col: nat, letter: byte)
    requires NoLetter(Address(row, col)) && |Address(row, col)| <= 7 && Letter(letter)
    ensures Sequence(Address(row, col) + [letter])
  {
    var a := Address(row, col);
    assert (a + [letter])[..|a|] == a;
  }

  lemma AddressNumbers(row: nat, col: nat, letter: byte)
    requires row < 0x100 && col < 0x100 && Sequence(Address(row, col) + [letter]) && Letter(letter)
    ensures var s, end := Address(row, col) + [letter], |D.Digits(row)|;
            && NumberEnd(s, 0) == end && end + 1 < |s| && s[end] == 0x3b
            && Number(s, 0, 0) as int == row && Number(s, end + 1, 0) as int == col
  {
    hide Sequence, Number, NumberEnd, D.Digits;
    var s, r, c := Address(row, col) + [letter], D.Digits(row), D.Digits(col);
    assert s == r + [0x3b] + c + [letter];
    assert s[0..0 + |r|] == r && s[|r|] == 0x3b && s[|r| + 1..|r| + 1 + |c|] == c && s[|r| + 1 + |c|] == letter;
    PrintedNumber(s, 0, row);
    PrintedNumber(s, |r| + 1, col);
  }

  /** ESC [ row ; col H moves the cursor there, zero counting as one, or leaves it if that is not on the screen; without
      parameters it goes home. The letter f means the same. */
  lemma CursorPositioned(t: Term, row: nat, col: nat)
    requires Ok(t) && t.mode == Plain && row < 0x100 && col < 0x100
    ensures var x, y := Max(row, 1) - 1, Max(col, 1) - 1;
            Run(t, Csi(Address(row, col), 0x48)) == if x < ROWS && y < COLS then At(Settled(t), x, y) else Settled(t)
    ensures Run(t, Csi([], 0x48)) == At(Settled(t), 0, 0)
    ensures Run(t, Csi(Address(row, col), 0x66)) == Run(t, Csi(Address(row, col), 0x48))
  {
    hide Ok, NoLetter, Run, D.Digits, Sequence, Number, NumberEnd, Address, Letter;
    AddressParts(row, col);
    LetterH();
    ParameterRun(t, 0, 0x48);
    forall letter: byte | letter in {0x48, 0x66}
      ensures Sequence(Address(row, col) + [letter])
      ensures Run(t, Csi(Address(row, col), letter)) == Command(t, Address(row, col) + [letter])
    {
      AddressSequence(row, col, letter);
      CsiRun(t, Address(row, col), letter);
    }
    AddressNumbers(row, col, 0x48);
    AddressNumbers(row, col, 0x66);
  }

  /** With one parameter, where other terminals take the column, or the last row, to be meant, neither sequence has an effect
      but that a pending wrap is forgotten by H and f. */
  lemma OneNumberRefused(t: Term, n: nat)
    requires Ok(t) && t.mode == Plain && n < 0x100
    ensures Run(t, Csi(D.Digits(n), 0x48)) == Run(t, Csi(D.Digits(n), 0x66)) == Settled(t)
    ensures Run(t, Csi(D.Digits(n), 0x72)) == t
  {
    hide Ok, Run, D.Digits, Sequence, Number, NumberEnd, Letter;
    LetterH();
    D.DigitsCanonical(n);
    forall letter: byte | letter in {0x48, 0x66, 0x72}
      ensures Sequence(D.Digits(n) + [letter]) && NumberEnd(D.Digits(n) + [letter], 0) == |D.Digits(n)|
      ensures Run(t, Csi(D.Digits(n), letter)) == Command(t, D.Digits(n) + [letter])
    {
      var s := D.Digits(n) + [letter];
      ParameterRun(t, n, letter);
      assert s[0..0 + |D.Digits(n)|] == D.Digits(n);
      PrintedNumber(s, 0, n);
    }
  }

  /** Sequences with any other letter have no effect, whatever their parameters. */
  lemma UnknownSequence(t: Term, p: seq<byte>, letter: byte)
    requires Ok(t) && t.mode == Plain && NoLetter(p) && |p| < 0x100
    requires (0x41 <= letter <= 0x5a || 0x61 <= letter <= 0x7a)
    requires letter !in {0x41, 0x42, 0x43, 0x44, 0x48, 0x4a, 0x4b, 0x66, 0x68, 0x6c, 0x6d, 0x72}
    ensures Run(t, Csi(p, letter)) == t
  {
    hide Ok, Run, NoLetter, Sequence;
    CsiRun(t, p, letter);
  }

  lemma LetterH()
    ensures Letter(0x48) && Letter(0x66) && Letter(0x72)
  {
  }

  const CURSOR_MODE: seq<byte> := [0x3f, 0x32, 0x35]  // ?25

  /** ESC [ ? 25 l hides the cursor, ESC [ ? 25 h shows it, which is tame for a hidden one only. */
  lemma CursorShownOrHidden(t: Term)
    requires Ok(t) && t.mode == Plain
    ensures Run(t, Csi(CURSOR_MODE, 0x6c)) == t.(hidden := true) && TameRun(t, Csi(CURSOR_MODE, 0x6c))
    ensures Run(t, Csi(CURSOR_MODE, 0x68)) == t.(hidden := false) && (TameRun(t, Csi(CURSOR_MODE, 0x68)) <==> t.hidden)
  {
    hide Ok, Run, TameRun;
    CsiRun(t, CURSOR_MODE, 0x6c);
    CsiRun(t, CURSOR_MODE, 0x68);
    CursorModes();
  }

  lemma CursorModes()
    ensures forall letter | letter in {0x6c, 0x68} ::
              Sequence(CURSOR_MODE + [letter]) && CursorMode(CURSOR_MODE + [letter])
  {
    forall letter | letter in {0x6c, 0x68}
      ensures Sequence(CURSOR_MODE + [letter]) && CursorMode(CURSOR_MODE + [letter])
    {
      var s := CURSOR_MODE + [letter];
      assert s[..3] == CURSOR_MODE;
      assert Number(s, 3, 25) == 25 && Number(s, 2, 2) == 25 && Number(s, 1, 0) == 25;
    }
  }
}
