/** A plain VT100 terminal over a grid of screen codes: what a2vt100.s does with each received byte, on
    values. The places where its 8-bit arithmetic goes astray are exactly those excluded by Tame. */
module VtSpec {
  import opened Bytes
  import opened VtScreen
  import D = Decimal

  // ----- Character sets and screen codes -----

  datatype Font = Font(reverse: bool, bold: bool, underline: bool)

  /** The line drawing bits: whether G0 and G1 are line drawing sets, whether line drawing is on, and
      whether G1 is invoked. */
  datatype Draw = Draw(g0: bool, g1: bool, on: bool, shifted: bool) {
    predicate Ok() {
      on == if shifted then g1 else g0
    }

    /** SLD. */
    function Selected(): (d: Draw)
      ensures d.Ok()
    {
      this.(on := if shifted then g1 else g0)
    }
  }

  const NORMAL: byte := 0xff
  const REVERSE: byte := 0x3f

  const LINES_REVERSE: seq<byte> := [
    0x20, 0x57, 0x20, 0x20, 0x20, 0x20, 0x20, 0x20, 0x20, 0x20, 0x7c, 0x20, 0x20, 0x7c, 0x7c, 0x1f,
    0x1f, 0x1f, 0x1f, 0x1f, 0x7c, 0x7c, 0x1f, 0x1f, 0x7c, 0x20, 0x20, 0x20, 0x20, 0x20, 0x20, 0x20]
  const LINES_NORMAL: seq<byte> := [
    0x5b, 0x56, 0xa0, 0xa0, 0xa0, 0xa0, 0xa0, 0xa0, 0xa0, 0xa0, 0x5f, 0xa0, 0x9f, 0x54, 0x54, 0x4c,
    0x53, 0x9f, 0x9f, 0x9f, 0x54, 0x5f, 0x54, 0x9f, 0x5f, 0xa0, 0xa0, 0xa0, 0xa0, 0xa0, 0xa0, 0xa0]

  /** The table ltsc; its unused parts are zero. */
  function Ltsc(i: byte): byte {
    if 0x20 <= i < 0x40 then LINES_REVERSE[i - 0x20]
    else if 0x60 <= i < 0x80 then LINES_NORMAL[i - 0x60]
    else 0
  }

  /** The table rtsc. */
  function Rtsc(c: byte): byte {
    if c < 0x20 then 0 else if 0x40 <= c < 0x60 then c - 0x40 else c
  }

  /** The screen code of a character below 0x80; the mode flag is 0xff for normal, 0x3f for reverse, and 0
      after restoring a cursor that was never saved. */
  function ScreenCode(c: byte, lineDrawing: bool, inv: byte): byte {
    if lineDrawing && c >= 0x60 then Ltsc(if inv == NORMAL then c else if inv == REVERSE then c % 0x40 else 0)
    else if inv >= 0x80 then (if c < 0x80 then c + 0x80 else c)
    else Rtsc(c)
  }

  /** What the cursor makes of the character under it. */
  function Invert(c: byte): byte {
    var n: int := c;
    if n / 0x20 % 2 == 1 then (if n < 0x80 then n + 0x80 else n - 0x80)       // bit 5 set: eor #$80
    else if n < 0x40 then n + 0xc0 else if n < 0x80 then n + 0x40             // clear: eor #$c0
    else if n < 0xc0 then n - 0x40 else n - 0xc0
  }

  /** Drawing the cursor twice undoes it, and it always shows. */
  lemma InvertTwice(c: byte)
    ensures Invert(Invert(c)) == c && Invert(c) != c
  {
  }

  /** A character printed in reverse looks as the cursor on its normal form. */
  lemma ReverseIsInverted(c: byte)
    requires 0x20 <= c < 0x80
    ensures ScreenCode(c, false, REVERSE) == Invert(ScreenCode(c, false, NORMAL))
  {
  }

  // ----- The terminal -----

  datatype Saved = Saved(font: Font, inv: byte, draw: Draw, row: nat, col: nat)

  /** Csi holds the parameter bytes received so far. */
  datatype Mode = Plain | Escape | Charset(g1: bool) | Ignore | Csi(buf: seq<byte>)

  datatype Term = Term(grid: grid, row: nat, col: nat, pending: bool, top: nat, bottom: nat, hidden: bool,
                       font: Font, inv: byte, draw: Draw, saved: Saved, mode: Mode)

  predicate Inverse(inv: byte) {
    inv == NORMAL || inv == REVERSE || inv == 0
  }

  predicate NoLetter(s: seq<byte>) {
    forall i | 0 <= i < |s| :: !Letter(s[i])
  }

  /** The invariant of the terminal: the cursor on the screen, a scroll region of at least two lines, a
      pending wrap only in the last column, line drawing as the invoked set says. */
  predicate Ok(t: Term) {
    && IsGrid(t.grid) && t.row < ROWS && t.col < COLS && t.top < t.bottom < ROWS
    && (t.pending ==> t.col == COLS - 1)
    && t.draw.Ok() && Inverse(t.inv)
    && t.saved.draw.Ok() && Inverse(t.saved.inv) && t.saved.row < ROWS && t.saved.col < COLS
    && (t.mode.Csi? ==> |t.mode.buf| < 0x100 && NoLetter(t.mode.buf))
  }

  // ----- Printing and control characters -----

  function At(t: Term, row: nat, col: nat): Term {
    t.(row := row, col := col)
  }

  function Settled(t: Term): Term {
    t.(pending := false)
  }

  // The functions below promise the invariant: so every received byte keeps it.

  /** The pending wrap is carried out. At the end of the screen below the scroll region the cursor stays. */
  function Wrapped(t: Term): (u: Term)
    requires Ok(t) && !t.pending
    ensures Ok(u) && !u.pending
  {
    if t.row == t.bottom then t.(grid := ScrollUp(t.grid, t.top, t.bottom), col := 0)
    else if t.row == ROWS - 1 then t
    else At(t, t.row + 1, 0)
  }

  /** A screen code is stored at the cursor. */
  function Stored(t: Term, code: byte): (u: Term)
    requires Ok(t) && !t.pending
    ensures Ok(u)
  {
    var u := t.(grid := Put(t.grid, t.row, t.col, code));
    if u.col == COLS - 1 then u.(pending := true) else u.(col := u.col + 1)
  }

  function Print(t: Term, c: byte): (u: Term)
    requires Ok(t)
    ensures Ok(u)
  {
    if c >= 0x80 then t
    else Stored(if t.pending then Wrapped(Settled(t)) else t, ScreenCode(c, t.draw.on, t.inv))
  }

  function LineFeed(t: Term): (u: Term)
    requires Ok(t)
    ensures Ok(u)
  {
    var u := Settled(t);
    if u.row == u.bottom then u.(grid := ScrollUp(u.grid, u.top, u.bottom))
    else if u.row == ROWS - 1 then u
    else At(u, u.row + 1, u.col)
  }

  function ReverseIndex(t: Term): (u: Term)
    requires Ok(t)
    ensures Ok(u)
  {
    var u := Settled(t);
    if u.row == u.top then u.(grid := ScrollDown(u.grid, u.top, u.bottom))
    else if u.row == 0 then u
    else At(u, u.row - 1, u.col)
  }

  function Return(t: Term): (u: Term)
    requires Ok(t)
    ensures Ok(u)
  {
    At(Settled(t), t.row, 0)
  }

  function Tabbed(col: nat): nat {
    if col / 8 * 8 + 8 >= COLS then COLS - 1 else col / 8 * 8 + 8
  }

  function Control(t: Term, c: byte): (u: Term)
    requires Ok(t)
    ensures Ok(u)
  {
    match c
    case 0x0d => Return(t)
    case 0x08 => if t.col == 0 then Settled(t) else At(Settled(t), t.row, t.col - 1)
    case 0x1b => t.(mode := Escape)
    case 0x0a => LineFeed(t)
    case 0x09 => At(t, t.row, Tabbed(t.col))
    case 0x0e => t.(draw := t.draw.(shifted := true).Selected())
    case 0x0f => t.(draw := t.draw.(shifted := false).Selected())
    case _ => t
  }

  // ----- Escape sequences -----

  function Escaped(t: Term, c: byte): (u: Term)
    requires Ok(t)
    ensures Ok(u)
  {
    var u := t.(mode := Plain);
    match c
    case 0x5b => t.(mode := Csi([]))
    case 0x28 => t.(mode := Charset(false))
    case 0x29 => t.(mode := Charset(true))
    case 0x23 => t.(mode := Ignore)
    case 0x44 => LineFeed(u)
    case 0x4d => ReverseIndex(u)
    case 0x45 => LineFeed(Return(u))
    case 0x37 => u.(saved := Saved(u.font, u.inv, u.draw, u.row, u.col))
    case 0x38 =>
      At(Settled(u), u.saved.row, u.saved.col).(draw := u.saved.draw, inv := u.saved.inv, font := u.saved.font)
    case _ => u
  }

  function SelectCharset(t: Term, g1: bool, c: byte): (u: Term)
    requires Ok(t)
    ensures Ok(u)
  {
    var lines := c == 0x30;
    t.(mode := Plain, draw := (if g1 then t.draw.(g1 := lines) else t.draw.(g0 := lines)).Selected())
  }

  lemma LinesOk(t: Term, d: Draw)
    requires Ok(t)
    ensures Ok(t.(draw := d.Selected()))
  {
  }

  lemma SavedOk(t: Term)
    requires Ok(t)
    ensures Ok(t.(saved := Saved(t.font, t.inv, t.draw, t.row, t.col)))
  {
  }

  lemma RestoredOk(t: Term)
    requires Ok(t)
    ensures t.saved.row < ROWS && t.saved.col < COLS
    ensures Ok(t.(draw := t.saved.draw, inv := t.saved.inv, font := t.saved.font))
  {
  }

  // ----- Parameters -----

  predicate Letter(c: byte) {
    0x41 <= c < 0x5b || 0x61 <= c < 0x7b
  }

  /** A control sequence: parameter bytes and one final letter. */
  predicate Sequence(s: seq<byte>) {
    0 < |s| <= 0x100 && Letter(s[|s| - 1]) && NoLetter(s[..|s| - 1])
  }

  /** addDecDig: the shifts and additions stop at the first overflow, with what has been computed so far. */
  function AddDigit(a: byte, digit: byte): byte {
    var n: int := a;
    if 2 * n >= 0x100 then 2 * n % 0x100
    else if 4 * n >= 0x100 then 4 * n % 0x100
    else if 5 * n >= 0x100 then 5 * n % 0x100
    else if 10 * n >= 0x100 then 10 * n % 0x100
    else (10 * n + digit % 0x10) % 0x100
  }

  /** The result is the decimal continuation exactly as long as that fits into a byte. */
  lemma AddDigitExact(a: byte, digit: byte)
    requires D.IsDigit(digit)
    ensures AddDigit(a, digit) as int == 10 * a as int + (digit - 0x30) as int
            <==> 10 * a as int + (digit - 0x30) as int < 0x100
  {
  }

  /** Where a parameter that starts at x ends. */
  function NumberEnd(s: seq<byte>, x: nat): (end: nat)
    requires Sequence(s) && x < |s|
    ensures x <= end < |s| && !D.IsDigit(s[end])
    ensures forall i | x <= i < end :: D.IsDigit(s[i])
    decreases |s| - x
  {
    if D.IsDigit(s[x]) then NumberEnd(s, x + 1) else x
  }

  function Number(s: seq<byte>, x: nat, acc: byte): byte
    requires Sequence(s) && x < |s|
    decreases |s| - x
  {
    if D.IsDigit(s[x]) then Number(s, x + 1, AddDigit(acc, s[x])) else acc
  }

  /** A parameter below 256 is read as the decimal number it is. */
  lemma NumberIsDecimal(s: seq<byte>, x: nat)
    requires Sequence(s) && x < |s|
    ensures D.AllDigits(s[x..NumberEnd(s, x)])
    ensures D.Number(s[x..NumberEnd(s, x)]) < 0x100 ==> Number(s, x, 0) as int == D.Number(s[x..NumberEnd(s, x)])
  {
    var end := NumberEnd(s, x);
    assert s[x..x] == [];
    if D.Number(s[x..end]) < 0x100 {
      NumberFrom(s, x, x, 0);
    }
  }

  lemma {:induction false} NumberFrom(s: seq<byte>, x: nat, at: nat, acc: byte)
    requires Sequence(s) && x < |s| && x <= at <= NumberEnd(s, x)
    requires D.AllDigits(s[x..at]) && acc as int == D.Number(s[x..at])
    requires D.AllDigits(s[x..NumberEnd(s, x)]) && D.Number(s[x..NumberEnd(s, x)]) < 0x100
    ensures Number(s, at, acc) as int == D.Number(s[x..NumberEnd(s, x)])
    decreases |s| - at
  {
    hide Sequence, AddDigit;
    var end := NumberEnd(s, x);
    NumberEndFrom(s, x, at);
    if at < end {
      assert s[x..end][..at + 1 - x] == s[x..at + 1];
      assert s[x..at + 1][..at - x] == s[x..at];
      DecimalGrows(s[x..end], at + 1 - x);
      AddDigitExact(acc, s[at]);
      NumberFrom(s, x, at + 1, AddDigit(acc, s[at]));
    }
  }

  lemma {:induction false} NumberEndFrom(s: seq<byte>, x: nat, at: nat)
    requires Sequence(s) && x < |s| && x <= at <= NumberEnd(s, x)
    ensures NumberEnd(s, at) == NumberEnd(s, x)
    decreases at - x
  {
    if x < at {
      NumberEndFrom(s, x + 1, at);
    }
  }

  lemma {:induction false} DecimalGrows(s: seq<byte>, n: nat)
    requires n <= |s| && D.AllDigits(s)
    ensures D.AllDigits(s[..n]) && D.Number(s[..n]) <= D.Number(s)
  {
    if n < |s| {
      assert D.IsDigit(s[|s| - 1]);
      DecimalGrows(s[..|s| - 1], n);
      assert s[..|s| - 1][..n] == s[..n];
    } else {
      assert s[..n] == s;
    }
  }

  /** A count, of which zero means one. */
  function Count(s: seq<byte>): byte
    requires Sequence(s)
  {
    if Number(s, 0, 0) == 0 then 1 else Number(s, 0, 0)
  }

  // ----- Commands of control sequences -----

  function Min(a: int, b: int): int {
    if a <= b then a else b
  }

  function Max(a: int, b: int): int {
    if a >= b then a else b
  }

  /** Font attributes, one parameter after the other. */
  function Attributes(s: seq<byte>, x: nat, font: Font): Font
    requires Sequence(s) && x < |s|
    decreases |s| - x
  {
    var n, end := Number(s, x, 0), NumberEnd(s, x);
    var f :=
      if n == 0 then Font(false, false, false)
      else if n == 1 then font.(bold := true)
      else if n == 4 then font.(underline := true)
      else if n == 7 then font.(reverse := true)
      else font;
    if s[end] == 0x3b && end + 1 < |s| then Attributes(s, end + 1, f) else f
  }

  /** The two parameters of a sequence, taken as line or column numbers from one on. */
  datatype Lines = NoLines | Lines(first: nat, second: nat)

  /** The target of a cursor position: home without parameters; two of them, each at least one, otherwise. */
  function Target(s: seq<byte>): (r: Lines)
    requires Sequence(s)
    ensures r.Lines? ==> r.first < ROWS && r.second < COLS
  {
    var end := NumberEnd(s, 0);
    if |s| == 1 then Lines(0, 0)
    else if s[end] != 0x3b || end + 1 == |s| then NoLines
    else
      var row, col := Max(Number(s, 0, 0) as int, 1) - 1, Max(Number(s, end + 1, 0) as int, 1) - 1;
      if row >= ROWS || col >= COLS then NoLines else Lines(row, col)
  }

  function Position(t: Term, s: seq<byte>): (u: Term)
    requires Ok(t) && Sequence(s)
    ensures Ok(u)
  {
    match Target(s)
    case NoLines => Settled(t)
    case Lines(row, col) => At(Settled(t), row, col)
  }

  /** The margins of a scroll region: two rows of the screen, in order. */
  function Margins(s: seq<byte>): (r: Lines)
    requires Sequence(s)
    ensures r.Lines? ==> r.first < r.second < ROWS
  {
    var end := NumberEnd(s, 0);
    if s[end] != 0x3b || end + 1 == |s| then NoLines
    else
      var top: int, bottom: int := Number(s, 0, 0), Number(s, end + 1, 0);
      if 1 <= top < bottom <= ROWS then Lines(top - 1, bottom - 1) else NoLines
  }

  function Region(t: Term, s: seq<byte>): (u: Term)
    requires Ok(t) && Sequence(s)
    ensures Ok(u)
  {
    match Margins(s)
    case NoLines => t
    case Lines(top, bottom) => At(Settled(t), 0, 0).(top := top, bottom := bottom)
  }

  lemma RegionOk(t: Term, top: nat, bottom: nat)
    requires Ok(t) && top < bottom < ROWS
    ensures Ok(t.(top := top, bottom := bottom))
  {
  }

  lemma AttributesOk(t: Term, font: Font, inv: byte)
    requires Ok(t) && Inverse(inv)
    ensures Ok(t.(font := font, inv := inv))
  {
  }

  lemma HiddenOk(t: Term, hidden: bool)
    requires Ok(t)
    ensures Ok(t.(hidden := hidden))
  {
  }

  /** The screen with the rows of a stretch erased. */
  function EraseRows(g: grid, from: nat, to: nat): (g': grid)
    requires IsGrid(g) && from <= to <= ROWS
    ensures IsGrid(g')
  {
    g[..from] + seq(to - from, _ => Blanks(COLS)) + g[to..]
  }

  function EraseScreen(t: Term, n: byte): (u: Term)
    requires Ok(t)
    ensures Ok(u)
  {
    if n == 0 then t.(grid := EraseRows(EraseFrom(t.grid, t.row, t.col), t.row + 1, ROWS))
    else if n == 1 then t.(grid := EraseRows(EraseTo(t.grid, t.row, t.col), 0, t.row))
    else if n == 2 then t.(grid := EraseRows(t.grid, 0, ROWS))
    else t
  }

  function EraseLine(t: Term, n: byte): (u: Term)
    requires Ok(t)
    ensures Ok(u)
  {
    if n == 0 then t.(grid := EraseFrom(t.grid, t.row, t.col))
    else if n == 1 then t.(grid := EraseTo(t.grid, t.row, t.col))
    else if n == 2 then t.(grid := EraseRow(t.grid, t.row))
    else t
  }

  /** Whether a sequence is the private one for the cursor's visibility. */
  predicate CursorMode(s: seq<byte>)
    requires Sequence(s)
  {
    s[0] == 0x3f && |s| > 1 && Number(s, 1, 0) == 25
  }

  function Command(t: Term, s: seq<byte>): (u: Term)
    requires Ok(t) && Sequence(s)
    ensures Ok(u)
  {
    var u := t.(mode := Plain);
    match s[|s| - 1]
    case 0x41 => At(Settled(u), Max(u.row - Count(s) as int, u.top), u.col)
    case 0x42 => At(Settled(u), Min(u.row + Count(s) as int, u.bottom), u.col)
    case 0x43 => At(Settled(u), u.row, Min(u.col + Count(s) as int, COLS - 1))
    case 0x44 => At(Settled(u), u.row, Max(u.col - Count(s) as int, 0))
    case 0x6d =>
      var font := Attributes(s, 0, u.font);
      u.(font := font, inv := if font.reverse then REVERSE else NORMAL)
    case 0x4b => EraseLine(u, Number(s, 0, 0))
    case 0x66 => Position(u, s)
    case 0x48 => Position(u, s)
    case 0x4a => EraseScreen(u, Number(s, 0, 0))
    case 0x72 => Region(u, s)
    case 0x6c => if CursorMode(s) then u.(hidden := true) else u
    case 0x68 => if CursorMode(s) then u.(hidden := false) else u
    case _ => u
  }

  /** A byte of a control sequence. The buffer has 256 bytes; a sequence that fills it goes on in an empty
      buffer. */
  function Collect(t: Term, c: byte): (u: Term)
    requires Ok(t) && t.mode.Csi?
    ensures Ok(u)
  {
    var s := t.mode.buf + [c];
    if Letter(c) then
      SequenceOf(t.mode.buf, c);
      Command(t, s)
    else t.(mode := Csi(if |s| == 0x100 then [] else s))
  }

  lemma SequenceOf(buf: seq<byte>, c: byte)
    requires |buf| < 0x100 && NoLetter(buf) && Letter(c)
    ensures Sequence(buf + [c])
  {
    assert (buf + [c])[..|buf|] == buf;
  }

  /** One received byte. */
  function Step(t: Term, c: byte): (u: Term)
    requires Ok(t)
    ensures Ok(u)
  {
    match t.mode
    case Plain => if c < 0x20 then Control(t, c) else Print(t, c)
    case Escape => Escaped(t, c)
    case Charset(g1) => SelectCharset(t, g1, c)
    case Ignore => t.(mode := Plain)
    case Csi(_) => Collect(t, c)
  }

  // ----- Where the 8-bit arithmetic agrees -----

  /** The row after cursor up, as computed: the comparison with the top margin is a signed one. */
  function UpRow(row: nat, n: byte, top: nat): int
    requires row < ROWS && top < ROWS
  {
    var a := (row - n as int) % 0x100;
    if (a - top) % 0x100 < 0x80 then a else top
  }

  lemma UpRowExact(row: nat, n: byte, top: nat)
    requires row < ROWS && top < ROWS
    ensures UpRow(row, n, top) == Max(row - n as int, top)
            <==> row - n as int - top >= -0x80 || row - n as int - top <= -0x100
  {
  }

  /** The row after cursor down: the carry of the addition is lost. */
  function DownRow(row: nat, n: byte, bottom: nat): int {
    Min((row + n as int) % 0x100, bottom)
  }

  lemma DownRowExact(row: nat, n: byte, bottom: nat)
    requires row < ROWS && bottom < ROWS
    ensures DownRow(row, n, bottom) == Min(row + n as int, bottom)
            <==> row + n as int < 0x100 || row + n as int - 0x100 >= bottom
  {
  }

  function RightCol(col: nat, n: byte): int {
    Min((col + n as int) % 0x100, COLS - 1)
  }

  lemma RightColExact(col: nat, n: byte)
    requires col < COLS
    ensures RightCol(col, n) == Min(col + n as int, COLS - 1) <==> col + n as int < 0x100
  {
  }

  /** The column after cursor left: the test for the margin is a signed one. */
  function LeftCol(col: nat, n: byte): int {
    var a := (col - n as int) % 0x100;
    if a < 0x80 then a else 0
  }

  lemma LeftColExact(col: nat, n: byte)
    requires col < COLS
    ensures LeftCol(col, n) == Max(col - n as int, 0) <==> col - n as int >= -0x80
  {
  }

  /** The command does what it should: its count keeps the arithmetic in range, and the cursor is not shown
      when it is visible already. */
  predicate TameCommand(t: Term, s: seq<byte>)
    requires Ok(t) && Sequence(s)
  {
    var n: int := Count(s);
    match s[|s| - 1]
    case 0x41 => t.row - n - t.top >= -0x80 || t.row - n - t.top <= -0x100
    case 0x42 => t.row + n < 0x100 || t.row + n - 0x100 >= t.bottom
    case 0x43 => t.col + n < 0x100
    case 0x44 => t.col - n >= -0x80
    case 0x68 => CursorMode(s) ==> t.hidden
    case _ => true
  }

  predicate Tame(t: Term, c: byte)
    requires Ok(t)
  {
    if t.mode.Csi? && Letter(c) then
      SequenceOf(t.mode.buf, c);
      TameCommand(t, t.mode.buf + [c])
    else true
  }

  /** Counts of at most 100 are tame. */
  lemma SmallCountsTame(t: Term, s: seq<byte>)
    requires Ok(t) && Sequence(s) && Number(s, 0, 0) <= 100
    requires s[|s| - 1] != 0x68
    ensures TameCommand(t, s)
  {
  }

  /** A command depends on its sequence, not on the mode in which it was collected. */
  lemma CommandAnyMode(t: Term, u: Term, s: seq<byte>)
    requires Ok(t) && Ok(u) && Sequence(s) && u.(mode := Plain) == t.(mode := Plain)
    ensures Command(t, s) == Command(u, s) && (TameCommand(t, s) <==> TameCommand(u, s))
  {
    hide Count, Number, NumberEnd, Sequence, Ok;
  }

  lemma EscapedAnyMode(t: Term, u: Term, c: byte)
    requires Ok(t) && Ok(u) && u == t.(mode := Plain) && c !in {0x5b, 0x28, 0x29, 0x23}
    ensures Escaped(t, c) == Escaped(u, c)
  {
    hide LineFeed, Return, ReverseIndex, Ok;
  }

  // ----- Streams -----

  function Run(t: Term, bytes: seq<byte>): (u: Term)
    requires Ok(t)
    ensures Ok(u)
    decreases |bytes|
  {
    if bytes == [] then t else Run(Step(t, bytes[0]), bytes[1..])
  }

  predicate TameRun(t: Term, bytes: seq<byte>)
    requires Ok(t)
    decreases |bytes|
  {
    bytes == [] || (Tame(t, bytes[0]) && TameRun(Step(t, bytes[0]), bytes[1..]))
  }
}
