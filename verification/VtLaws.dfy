/** What the plain terminal does with text, with an addressed cursor, and between saving and restoring the
    cursor: laws over whole streams, which the engine has by refinement. */
module VtLaws {
  import opened Bytes
  import opened VtScreen
  import opened VtSpec
  import D = Decimal

  // ----- Streams in parts -----

  lemma {:induction false} RunConcat(t: Term, a: seq<byte>, b: seq<byte>)
    requires Ok(t)
    ensures Run(t, a + b) == Run(Run(t, a), b)
    ensures TameRun(t, a + b) <==> TameRun(t, a) && TameRun(Run(t, a), b)
    decreases |a|
  {
    hide Ok, Step, Tame;
    if a == [] {
      assert a + b == b;
    } else {
      assert (a + b)[1..] == a[1..] + b;
      RunConcat(Step(t, a[0]), a[1..], b);
    }
  }

  lemma RunOne(t: Term, c: byte)
    requires Ok(t)
    ensures Run(t, [c]) == Step(t, c) && (TameRun(t, [c]) <==> Tame(t, c))
  {
    hide Ok, Step, Tame;
    assert [c][1..] == [];
  }

  lemma RunTwo(t: Term, c: byte, d: byte)
    requires Ok(t)
    ensures Run(t, [c, d]) == Step(Step(t, c), d)
    ensures TameRun(t, [c, d]) <==> Tame(t, c) && Tame(Step(t, c), d)
  {
    hide Ok, Step, Tame;
    assert [c, d][1..] == [d];
    RunOne(Step(t, c), d);
  }

  // ----- Text -----

  predicate Plaintext(text: seq<byte>) {
    forall i | 0 <= i < |text| :: 0x20 <= text[i] < 0x80
  }

  /** The text lies in rows from the cursor's on that are on the screen and do not cross the bottom margin. */
  predicate FitsBelow(t: Term, n: nat) {
    n > 0 ==>
      var last := t.row + (n - 1) / COLS;
      last < ROWS && (last <= t.bottom || t.row > t.bottom)
  }

  /** A terminal that has shown n characters from the start of a row on: the last column is left only when
      the next character comes. */
  predicate Shows(t: Term, text: seq<byte>, u: Term)
    requires Ok(t) && Ok(u) && FitsBelow(t, |text|)
  {
    var n := |text|;
    var full := n > 0 && n % COLS == 0;
    && u == t.(grid := u.grid, pending := full, row := if full then t.row + n / COLS - 1 else t.row + n / COLS,
               col := if full then COLS - 1 else n % COLS)
    && forall r, c | 0 <= r < ROWS && 0 <= c < COLS :: u.grid[r][c] == CellAfter(t, text, r, c)
  }

  /** Character 80 * (r - row) + c of the text, if there is one, or what was there. */
  function CellAfter(t: Term, text: seq<byte>, r: nat, c: nat): byte
    requires Ok(t) && r < ROWS && c < COLS
  {
    var i := COLS * (r - t.row) + c;
    if 0 <= i < |text| then ScreenCode(text[i], t.draw.on, t.inv) else t.grid[r][c]
  }

  lemma CellOf(row: nat, r: nat, c: nat, n: nat)
    requires c < COLS
    ensures COLS * (r - row) + c == n <==> r == row + n / COLS && c == n % COLS
  {
    var q, m := n / COLS, n % COLS;
    assert n == COLS * q + m;
    if COLS * (r - row) + c == n {
      assert COLS * (r - row - q) == m - c;
    }
  }

  lemma ShowsNothing(t: Term)
    requires Ok(t) && t.col == 0 && !t.pending
    ensures Shows(t, [], t)
  {
  }

  /** The next character goes behind the text, after the pending wrap if the row is full. */
  lemma ShowsMore(t: Term, text: seq<byte>, u: Term, c: byte)
    requires Ok(t) && t.col == 0 && !t.pending && 0x20 <= c < 0x80
    requires Ok(u) && FitsBelow(t, |text|) && FitsBelow(t, |text| + 1) && Shows(t, text, u)
    ensures Shows(t, text + [c], Print(u, c))
  {
    hide ScreenCode, CellAfter, Put;
    NextCell(t, |text|);
    PrintedAt(t, text, u, c);
    MoreCells(t, text, u.grid, c);
  }

  /** Where the next character goes, and where the cursor stands afterwards. */
  lemma PrintedAt(t: Term, text: seq<byte>, u: Term, c: byte)
    requires Ok(t) && Ok(u) && FitsBelow(t, |text|) && FitsBelow(t, |text| + 1) && Shows(t, text, u)
    requires 0x20 <= c < 0x80
    ensures var n, v := |text|, Print(u, c);
            && t.row + n / COLS < ROWS
            && v == Stored(u.(pending := false, row := t.row + n / COLS, col := n % COLS), ScreenCode(c, t.draw.on, t.inv))
  {
    hide ScreenCode, CellAfter, Put, IsGrid, NoLetter;
    NextCell(t, |text|);
  }

  lemma MoreCells(t: Term, text: seq<byte>, g: grid, c: byte)
    requires Ok(t) && IsGrid(g) && t.row + |text| / COLS < ROWS
    requires forall r, k | 0 <= r < ROWS && 0 <= k < COLS :: g[r][k] == CellAfter(t, text, r, k)
    ensures var after := Put(g, t.row + |text| / COLS, |text| % COLS, ScreenCode(c, t.draw.on, t.inv));
            forall r, k | 0 <= r < ROWS && 0 <= k < COLS :: after[r][k] == CellAfter(t, text + [c], r, k)
  {
    hide ScreenCode, Put;
    var n, code := |text|, ScreenCode(c, t.draw.on, t.inv);
    var row, col := t.row + n / COLS, n % COLS;
    forall r, k | 0 <= r < ROWS && 0 <= k < COLS
      ensures Put(g, row, col, code)[r][k] == CellAfter(t, text + [c], r, k)
    {
      CellOf(t.row, r, k, n);
      PutAt(g, row, col, code, r, k);
    }
  }

  lemma NextCell(t: Term, n: nat)
    requires FitsBelow(t, n + 1)
    ensures t.row + n / COLS < ROWS
    ensures n > 0 && n % COLS == 0 ==> t.row + n / COLS - 1 != t.bottom && n / COLS > 0 && (n + 1) % COLS == 1
    ensures n % COLS == COLS - 1 ==> (n + 1) % COLS == 0 && (n + 1) / COLS == n / COLS + 1
    ensures n % COLS != COLS - 1 ==> (n + 1) % COLS == n % COLS + 1 && (n + 1) / COLS == n / COLS
  {
  }

  lemma PutAt(g: grid, row: nat, col: nat, b: byte, r: nat, c: nat)
    requires IsGrid(g) && row < ROWS && col < COLS && r < ROWS && c < COLS
    ensures Put(g, row, col, b)[r][c] == if r == row && c == col then b else g[r][c]
  {
  }

  /** Text of any length printed from the start of a row on fills the screen row by row: character i is in
      row i / 80, column i % 80 from there, nothing else changes, and nothing scrolls. */
  lemma {:induction false} TextShown(t: Term, text: seq<byte>)
    requires Ok(t) && t.mode == Plain && t.col == 0 && !t.pending && Plaintext(text) && FitsBelow(t, |text|)
    ensures TameRun(t, text) && Shows(t, text, Run(t, text))
    decreases |text|
  {
    if text == [] {
      ShowsNothing(t);
    } else {
      hide Ok, ScreenCode, IsGrid, CellAfter, Tame, Print, Step;
      var n, c := |text| - 1, text[|text| - 1];
      TextShown(t, text[..n]);
      var u := Run(t, text[..n]);
      assert text == text[..n] + [c];
      RunConcat(t, text[..n], [c]);
      RunOne(u, c);
      PlainPrints(u, c);
      ShowsMore(t, text[..n], u, c);
    }
  }

  lemma PlainPrints(u: Term, c: byte)
    requires Ok(u) && u.mode == Plain && c >= 0x20
    ensures Step(u, c) == Print(u, c) && Tame(u, c)
  {
  }

  // ----- The addressed cursor -----

  lemma {:induction false} Collected(t: Term, s: seq<byte>)
    requires Ok(t) && t.mode.Csi? && NoLetter(s) && |t.mode.buf| + |s| < 0x100
    ensures NoLetter(t.mode.buf + s) && Run(t, s) == t.(mode := Csi(t.mode.buf + s)) && TameRun(t, s)
    decreases |s|
  {
    if s == [] {
      assert t.mode.buf + s == t.mode.buf;
    } else {
      hide IsGrid;
      var u := Step(t, s[0]);
      assert u == t.(mode := Csi(t.mode.buf + [s[0]]));
      Collected(u, s[1..]);
      assert t.mode.buf + [s[0]] + s[1..] == t.mode.buf + s;
    }
  }

  lemma {:induction false} NumberEndIs(s: seq<byte>, x: nat, end: nat)
    requires Sequence(s) && x <= end < |s| && !D.IsDigit(s[end])
    requires forall i | x <= i < end :: D.IsDigit(s[i])
    ensures NumberEnd(s, x) == end
    decreases end - x
  {
    if x < end {
      NumberEndIs(s, x + 1, end);
    }
  }

  /** A printed number inside a sequence is the number read there. */
  lemma PrintedNumber(s: seq<byte>, x: nat, n: nat)
    requires Sequence(s) && n < 0x100 && x + |D.Digits(n)| < |s|
    requires s[x..x + |D.Digits(n)|] == D.Digits(n) && !D.IsDigit(s[x + |D.Digits(n)|])
    ensures NumberEnd(s, x) == x + |D.Digits(n)| && Number(s, x, 0) as int == n
  {
    var end := x + |D.Digits(n)|;
    forall i | x <= i < end ensures D.IsDigit(s[i]) {
      assert s[x..end][i - x] == s[i];
    }
    NumberEndIs(s, x, end);
    NumberIsDecimal(s, x);
    D.DigitsCanonical(n);
  }

  function Address(row: nat, col: nat): seq<byte> {
    D.Digits(row) + [0x3b] + D.Digits(col)
  }

  lemma AddressParts(row: nat, col: nat)
    requires row < 0x100 && col < 0x100
    ensures |Address(row, col)| <= 7 && NoLetter(Address(row, col)) && Sequence(Address(row, col) + [0x48])
  {
    assert D.Power10(2) == 100;
    assert D.Power10(3) == 1000;
    D.DigitsLength(row, 3);
    D.DigitsLength(col, 3);
    var a := Address(row, col);
    forall i | 0 <= i < |a| ensures !Letter(a[i]) {
      assert i < |D.Digits(row)| ==> D.IsDigit(D.Digits(row)[i]);
      assert i > |D.Digits(row)| ==> D.IsDigit(D.Digits(col)[i - |D.Digits(row)| - 1]);
    }
    assert (a + [0x48])[..|a|] == a;
  }

  /** The cursor position sequence with the decimal digits of any row and column of the screen, counted
      from one, puts the cursor exactly there. */
  lemma CursorAddressed(t: Term, row: nat, col: nat)
    requires Ok(t) && t.mode == Plain && 1 <= row <= ROWS && 1 <= col <= COLS
    ensures var stream := [0x1b, 0x5b] + Address(row, col) + [0x48];
            TameRun(t, stream) && Run(t, stream) == At(Settled(t), row - 1, col - 1)
  {
    hide Ok, Sequence, NoLetter, Run, TameRun, Step, Tame, Address, Target;
    var a := Address(row, col);
    var s := a + [0x48];
    AddressParts(row, col);
    TargetOf(row, col);
    var u := Introduced(t);
    Collected(u, a);
    assert [] + a == a;
    var v := Run(u, a);
    RunOne(v, 0x48);
    FinalLetter(v, a);
    RunConcat(t, [0x1b, 0x5b], a);
    RunConcat(t, [0x1b, 0x5b] + a, [0x48]);
  }

  lemma Introduced(t: Term) returns (u: Term)
    requires Ok(t) && t.mode == Plain
    ensures u == t.(mode := Csi([])) && Ok(u) && Run(t, [0x1b, 0x5b]) == u && TameRun(t, [0x1b, 0x5b])
  {
    u := t.(mode := Csi([]));
    RunTwo(t, 0x1b, 0x5b);
  }

  lemma FinalLetter(v: Term, a: seq<byte>)
    requires Ok(v) && v.mode == Csi(a) && Sequence(a + [0x48])
    ensures Step(v, 0x48) == Position(v.(mode := Plain), a + [0x48]) && Tame(v, 0x48)
  {
  }

  lemma NotDigits()
    ensures !D.IsDigit(0x3b) && !D.IsDigit(0x48)
  {
  }

  lemma AddressSlices(r: seq<byte>, c: seq<byte>, s: seq<byte>)
    requires s == r + [0x3b] + c + [0x48]
    ensures |s| == |r| + |c| + 2 && s[0..0 + |r|] == r && s[|r|] == 0x3b
    ensures s[|r| + 1..|r| + 1 + |c|] == c && s[|r| + 1 + |c|] == 0x48
  {
  }

  lemma TargetOf(row: nat, col: nat)
    requires 1 <= row <= ROWS && 1 <= col <= COLS && Sequence(Address(row, col) + [0x48])
    ensures Target(Address(row, col) + [0x48]) == Lines(row - 1, col - 1)
  {
    hide Sequence, Number, NumberEnd, D.Digits, Target, D.IsDigit;
    NotDigits();
    var s := Address(row, col) + [0x48];
    var r, c := D.Digits(row), D.Digits(col);
    AddressSlices(r, c, s);
    PrintedNumber(s, 0, row);
    PrintedNumber(s, |r| + 1, col);
    TargetFrom(s, |r|, row, col);
  }

  lemma TargetFrom(s: seq<byte>, end: nat, row: nat, col: nat)
    requires Sequence(s) && 1 <= row <= ROWS && 1 <= col <= COLS && 1 < |s| && end + 1 < |s|
    requires NumberEnd(s, 0) == end && s[end] == 0x3b
    requires Number(s, 0, 0) as int == row && Number(s, end + 1, 0) as int == col
    ensures Target(s) == Lines(row - 1, col - 1)
  {
    hide Sequence, Number, NumberEnd;
  }

  // ----- Cursor movements -----

  /** The control sequence that moves the cursor by n: up, down, right or left for A, B, C or D. */
  function Movement(n: nat, c: byte): seq<byte> {
    [0x1b, 0x5b] + D.Digits(n) + [c]
  }

  /** Where the plain terminal moves its cursor. */
  function Moved(t: Term, n: nat, c: byte): (int, int) {
    if c == 0x41 then (Max(t.row - n, t.top), t.col)
    else if c == 0x42 then (Min(t.row + n, t.bottom), t.col)
    else if c == 0x43 then (t.row, Min(t.col + n, COLS - 1))
    else (t.row, Max(t.col - n, 0))
  }

  /** Where the bytes computed by the code put it. */
  function Computed(t: Term, n: byte, c: byte): (int, int)
    requires Ok(t)
  {
    if c == 0x41 then (UpRow(t.row, n, t.top), t.col)
    else if c == 0x42 then (DownRow(t.row, n, t.bottom), t.col)
    else if c == 0x43 then (t.row, RightCol(t.col, n))
    else (t.row, LeftCol(t.col, n))
  }

  lemma MovementParts(n: nat, c: byte)
    requires n < 0x100 && 0x41 <= c <= 0x44
    ensures |D.Digits(n)| <= 3 && NoLetter(D.Digits(n)) && Sequence(D.Digits(n) + [c])
    ensures n > 0 ==> Count(D.Digits(n) + [c]) as int == n
  {
    hide D.Digits, Number, NumberEnd;
    var d, s := D.Digits(n), D.Digits(n) + [c];
    D.DigitsCanonical(n);
    assert D.Power10(3) == 1000;
    D.DigitsLength(n, 3);
    assert s[..|d|] == d && s[0..0 + |d|] == d;
    PrintedNumber(s, 0, n);
  }

  lemma FinalMove(v: Term, d: seq<byte>, n: byte, c: byte)
    requires Ok(v) && v.mode == Csi(d) && Sequence(d + [c]) && Count(d + [c]) == n && 0x41 <= c <= 0x44
    ensures var u := Step(v, c);
            && u == At(Settled(v.(mode := Plain)), u.row, u.col) && (u.row, u.col) == Moved(v, n, c)
            && (Tame(v, c) <==> Computed(v, n, c) == Moved(v, n, c))
  {
    hide Number, NumberEnd, UpRow, DownRow, RightCol, LeftCol;
    UpRowExact(v.row, n, v.top);
    DownRowExact(v.row, n, v.bottom);
    RightColExact(v.col, n);
    LeftColExact(v.col, n);
  }

  /** The sequence for any count below 256 moves the cursor of the plain terminal and nothing else, and it is
      tame if and only if the code's bytes put the cursor there as well. */
  lemma MovementTame(t: Term, n: nat, c: byte)
    requires Ok(t) && t.mode == Plain && 1 <= n < 0x100 && 0x41 <= c <= 0x44
    ensures var u := Run(t, Movement(n, c));
            && u == At(Settled(t), u.row, u.col) && (u.row, u.col) == Moved(t, n, c)
            && (TameRun(t, Movement(n, c)) <==> Computed(t, n, c) == Moved(t, n, c))
  {
    hide Ok, Sequence, NoLetter, Run, TameRun, Step, Tame, D.Digits, Count;
    var d := D.Digits(n);
    MovementParts(n, c);
    var u := Introduced(t);
    Collected(u, d);
    assert [] + d == d;
    var v := Run(u, d);
    RunOne(v, c);
    FinalMove(v, d, n, c);
    RunConcat(t, [0x1b, 0x5b], d);
    RunConcat(t, [0x1b, 0x5b] + d, [c]);
  }

  /** Two received streams with which the code moves the cursor from home off the screen. */
  lemma OffScreen(t: Term)
    requires Ok(t) && t.mode == Plain && t.row == t.col == t.top == 0
    ensures Movement(200, 0x41) == [0x1b, 0x5b, 0x32, 0x30, 0x30, 0x41]
    ensures !TameRun(t, Movement(200, 0x41)) && Computed(t, 200, 0x41) == (56, 0)
    ensures !TameRun(t, Movement(150, 0x44)) && Computed(t, 150, 0x44) == (0, 106)
  {
    hide Run, TameRun;
    MovementTame(t, 200, 0x41);
    MovementTame(t, 150, 0x44);
  }

  // ----- Saving and restoring the cursor -----

  predicate Saves(t: Term, c: byte) {
    t.mode == Escape && c == 0x37
  }

  /** Only the save sequence changes what is saved. */
  lemma SavedKept(t: Term, c: byte)
    requires Ok(t) && !Saves(t, c)
    ensures Step(t, c).saved == t.saved
  {
    hide Ok, Print, Control, Escaped, Command, Letter;
    PrintKeepsSaved(t, c);
    if t.mode == Escape {
      EscapedKeepsSaved(t, c);
    }
    if t.mode.Csi? && Letter(c) {
      OkCsi(t);
      SequenceOf(t.mode.buf, c);
      CommandKeepsSaved(t, t.mode.buf + [c]);
    }
  }

  lemma OkCsi(t: Term)
    requires Ok(t) && t.mode.Csi?
    ensures |t.mode.buf| < 0x100 && NoLetter(t.mode.buf)
  {
  }

  lemma FeedsKeepSaved(t: Term)
    requires Ok(t)
    ensures LineFeed(t).saved == t.saved && ReverseIndex(t).saved == t.saved && Return(t).saved == t.saved
  {
    hide Ok, ScrollUp, ScrollDown, IsGrid;
  }

  lemma PrintKeepsSaved(t: Term, c: byte)
    requires Ok(t)
    ensures Print(t, c).saved == t.saved && Control(t, c).saved == t.saved
  {
    hide Ok, ScreenCode, LineFeed, Return, ScrollUp, IsGrid, Tabbed, Draw.Selected;
    FeedsKeepSaved(t);
  }

  lemma EscapedKeepsSaved(t: Term, c: byte)
    requires Ok(t) && c != 0x37
    ensures Escaped(t, c).saved == t.saved
  {
    hide Ok, LineFeed, ReverseIndex, Return, IsGrid;
    var u := t.(mode := Plain);
    PlainOk(t);
    FeedsKeepSaved(u);
    FeedsKeepSaved(Return(u));
  }

  lemma PlainOk(t: Term)
    requires Ok(t)
    ensures Ok(t.(mode := Plain))
  {
  }

  lemma CommandKeepsSaved(t: Term, s: seq<byte>)
    requires Ok(t) && Sequence(s)
    ensures Command(t, s).saved == t.saved
  {
    hide IsGrid, Number, NumberEnd, Attributes, Count, Sequence, NoLetter, Target, Margins, Ok;
  }

  predicate NoSave(t: Term, bytes: seq<byte>)
    requires Ok(t)
    decreases |bytes|
  {
    bytes == [] || (!Saves(t, bytes[0]) && NoSave(Step(t, bytes[0]), bytes[1..]))
  }

  lemma {:induction false} SavedThrough(t: Term, bytes: seq<byte>)
    requires Ok(t) && NoSave(t, bytes)
    ensures Run(t, bytes).saved == t.saved
    decreases |bytes|
  {
    hide Ok, Step, Saves;
    if bytes != [] {
      SavedKept(t, bytes[0]);
      SavedThrough(Step(t, bytes[0]), bytes[1..]);
    }
  }

  /** Whatever happens between a save and a restore, short of another save: position, attributes and
      character sets are back as they were, and the screen is as it is. */
  lemma RestoreBrings(t: Term, bytes: seq<byte>)
    requires Ok(t) && t.mode == Plain
    requires NoSave(Run(t, [0x1b, 0x37]), bytes) && Run(t, [0x1b, 0x37] + bytes).mode == Plain
    ensures var u := Run(t, [0x1b, 0x37] + bytes);
            Run(t, [0x1b, 0x37] + bytes + [0x1b, 0x38])
            == At(Settled(u), t.row, t.col).(font := t.font, inv := t.inv, draw := t.draw)
  {
    hide Ok, Run, NoSave;
    var save, restore := [0x1b, 0x37], [0x1b, 0x38];
    RunTwo(t, 0x1b, 0x37);
    RunConcat(t, save, bytes);
    SavedThrough(Run(t, save), bytes);
    var u := Run(t, save + bytes);
    RunConcat(t, save + bytes, restore);
    RunTwo(u, 0x1b, 0x38);
  }
}
