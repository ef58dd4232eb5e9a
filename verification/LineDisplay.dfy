/** The display of the line editor in linenoise.c: one console row, rewritten by refreshLine through a window
    that follows the cursor. */
module LineDisplay {

  const NUL := '\0'

  function Spaces(n: nat): string {
    seq(n, _ => ' ')
  }

  // ----- What should be on the row -----

  /** The first character of the text that is shown: the window is moved right just far enough to keep the
      cursor inside the row. */
  function Start(plen: nat, pos: nat, cols: nat): nat {
    if plen + pos >= cols then plen + pos - cols + 1 else 0
  }

  /** The number of characters shown. */
  function ShownLength(plen: nat, len: nat, pos: nat, cols: nat): nat
    requires plen < cols && pos <= len
  {
    var rest := len - Start(plen, pos, cols);
    if plen + rest > cols then cols - plen else rest
  }

  function Shown(plen: nat, text: string, pos: nat, cols: nat): string
    requires plen < cols && pos <= |text|
  {
    var start := Start(plen, pos, cols);
    text[start..start + ShownLength(plen, |text|, pos, cols)]
  }

  /** The row: prompt, shown text, and blanks. */
  function Row(prompt: string, text: string, pos: nat, cols: nat): (row: string)
    requires |prompt| < cols && pos <= |text|
    ensures |row| == cols
  {
    var shown := Shown(|prompt|, text, pos, cols);
    prompt + shown + Spaces(cols - |prompt| - |shown|)
  }

  function Column(plen: nat, pos: nat, cols: nat): nat
    requires plen < cols
  {
    plen + pos - Start(plen, pos, cols)
  }

  /** The window contains the cursor: it stands behind the prompt, inside the row, on the character at the
      edit position, or on a blank behind the end of the text; and a character of the text is shown exactly
      where it stands relative to the cursor. */
  lemma CursorInWindow(prompt: string, text: string, pos: nat, cols: nat)
    requires |prompt| < cols && pos <= |text|
    ensures var x := Column(|prompt|, pos, cols);
            var row := Row(prompt, text, pos, cols);
            && |prompt| <= x < cols
            && row[..|prompt|] == prompt
            && row[x] == (if pos < |text| then text[pos] else ' ')
            && (forall i | |prompt| <= i < cols && 0 <= pos + i - x < |text| :: row[i] == text[pos + i - x])
            && (forall i | |prompt| <= i < cols && pos + i - x >= |text| :: row[i] == ' ')
    ensures pos <= cols - |prompt| - 1 ==> Start(|prompt|, pos, cols) == 0
  {
  }

  // ----- The console -----

  /** A row of text with `s` written over it from column x on. */
  function Over(row: string, x: nat, s: string): (r: string)
    requires x + |s| <= |row|
    ensures |r| == |row|
  {
    row[..x] + s + row[x + |s|..]
  }

  lemma OverConcat(row: string, x: nat, s: string, t: string)
    requires x + |s| + |t| <= |row|
    ensures Over(Over(row, x, s), x + |s|, t) == Over(row, x, s + t)
  {
  }

  /** The console seen through one of its rows. Behind the last column the cursor goes on to the next row,
      whose contents are not part of this model: nothing is ever written there. */
  class Console {
    const cols: nat
    const line: nat
    const row: array<char>
    var x: nat
    var y: nat

    ghost predicate Valid()
      reads this`x
    {
      row.Length == cols && x < cols
    }

    /** The cursor is n columns behind column `from` of the row. */
    ghost predicate Behind(from: nat, n: nat)
      reads this`x, this`y
    {
      && from + n <= cols
      && if from + n < cols then x == from + n && y == line else x == 0 && y == line + 1
    }

    constructor (cols: nat, line: nat)
      requires cols > 0
      ensures Valid() && fresh(row) && this.cols == cols && this.line == line
      ensures x == 0 && y == line && row[..] == Spaces(cols)
    {
      this.cols, this.line, x, y := cols, line, 0, line;
      row := new char[cols](_ => ' ');
      new;
      assert forall i | 0 <= i < cols :: row[..][i] == ' ';
    }

    method GotoX(column: nat)
      requires Valid() && column < cols
      modifies this`x
      ensures Valid() && x == column
    {
      x := column;
    }

    method GotoXY(column: nat, row': nat)
      requires Valid() && column < cols
      modifies this`x, this`y
      ensures Valid() && x == column && y == row'
    {
      x, y := column, row';
    }

    method PutC(c: char)
      requires Valid() && y == line
      modifies this`x, this`y, row
      ensures Valid() && Behind(old(x), 1)
      ensures row[..] == Over(old(row[..]), old(x), [c])
    {
      row[x] := c;
      x := x + 1;
      if x == cols {
        x, y := 0, y + 1;
      }
    }

    /** cputs on a C string held in a buffer from `off` on. */
    method PutS(buf: array<char>, off: nat, ghost s: string)
      requires Valid() && y == line && x + |s| <= cols && buf != row
      requires off + |s| < buf.Length && buf[off..off + |s|] == s && NUL !in s && buf[off + |s|] == NUL
      modifies this`x, this`y, row
      ensures Valid() && Behind(old(x), |s|)
      ensures row[..] == Over(old(row[..]), old(x), s)
    {
      hide Over;
      var k := 0;
      ghost var before := row[..];
      OverNothing(before, x);
      StringByte(buf, off, s, 0);
      while buf[off + k] != NUL
        invariant 0 <= k <= |s| && Valid() && Behind(old(x), k)
        invariant buf[off + k] == NUL <==> k == |s|
        invariant row[..] == Over(before, old(x), s[..k])
        decreases |s| - k
      {
        StringByte(buf, off, s, k);
        OverConcat(before, old(x), s[..k], [s[k]]);
        assert s[..k + 1] == s[..k] + [s[k]];
        PutC(buf[off + k]);
        k := k + 1;
        StringByte(buf, off, s, k);
      }
      assert s[..k] == s;
    }

    /** cclear, from the cursor to the end of the row. */
    method Clear(n: nat)
      requires Valid() && y == line && x + n == cols
      modifies this`x, this`y, row
      ensures Valid() && row[..] == old(row[..x]) + Spaces(n)
    {
      hide Over;
      ghost var before, from := row[..], x;
      OverNothing(before, x);
      var k := 0;
      while k < n
        invariant 0 <= k <= n && Valid() && Behind(from, k)
        invariant row[..] == Over(before, from, Spaces(k))
      {
        OverConcat(before, from, Spaces(k), [' ']);
        assert Spaces(k + 1) == Spaces(k) + [' '];
        PutC(' ');
        k := k + 1;
      }
      OverRest(before, from, Spaces(n));
      assert before[..from] == old(row[..x]);
    }
  }

  lemma OverNothing(row: string, x: nat)
    requires x <= |row|
    ensures Over(row, x, []) == row
    ensures Over(row, x, Spaces(0)) == row
  {
  }

  lemma OverRest(row: string, x: nat, s: string)
    requires x + |s| == |row|
    ensures Over(row, x, s) == row[..x] + s
  {
  }

  lemma StringByte(buf: array<char>, off: nat, s: string, k: nat)
    requires off + |s| < buf.Length && buf[off..off + |s|] == s && NUL !in s && buf[off + |s|] == NUL
    requires k <= |s|
    ensures buf[off + k] == NUL <==> k == |s|
    ensures k < |s| ==> buf[off + k] == s[k]
  {
    if k < |s| {
      assert buf[off..off + |s|][k] == buf[off + k];
      assert s[k] in s;
    }
  }

  // ----- refreshLine -----

  /** A C string in an array of its own, as the prompt and the history entries are. */
  ghost predicate Holds(memory: array<char>, s: string)
    reads memory
  {
    NUL !in s && memory.Length > |s| && memory[..|s|] == s && memory[|s|] == NUL
  }

  /** The two window loops. */
  method Window(plen: nat, len: nat, pos: nat, cols: nat) returns (start: nat, shown: nat, column: nat)
    requires plen < cols && pos <= len
    ensures start == Start(plen, pos, cols) && shown == ShownLength(plen, len, pos, cols)
    ensures column == pos - start
  {
    start, shown, column := 0, len, pos;
    while plen + column >= cols
      invariant start + column == pos && start + shown == len
      invariant start > 0 ==> plen + column >= cols - 1
      decreases column
    {
      start, shown, column := start + 1, shown - 1, column - 1;
    }
    while plen + shown > cols
      invariant start == Start(plen, pos, cols) && shown <= len - start
      invariant shown < len - start ==> plen + shown >= cols
      decreases shown
    {
      shown := shown - 1;
    }
  }

  /** What refreshLine leaves on the row, given what was there: with neither prompt nor text nothing is
      written, and nothing is erased. */
  lemma RowWritten(prompt: string, text: string, pos: nat, cols: nat, before: string)
    requires |prompt| < cols == |before| && pos <= |text| && cols >= 2
    ensures var shown := Shown(|prompt|, text, pos, cols);
            var n := |prompt| + |shown|;
            var written := Over(Over(before, 0, prompt), |prompt|, shown);
            var wanted := Row(prompt, text, pos, cols);
            && |shown| == ShownLength(|prompt|, |text|, pos, cols)
            && Start(|prompt|, pos, cols) + |shown| <= |text|
            && n <= cols && 0 <= Column(|prompt|, pos, cols) < cols
            && shown == text[Start(|prompt|, pos, cols)..Start(|prompt|, pos, cols) + |shown|]
            && (n == 0 <==> |prompt| + |text| == 0)
            && written[..n] + Spaces(cols - n) == wanted
            && (n == cols ==> written == wanted)
            && (n == 0 ==> written == before && wanted == Spaces(cols))
  {
    var shown := Shown(|prompt|, text, pos, cols);
    var n := |prompt| + |shown|;
    var written := Over(Over(before, 0, prompt), |prompt|, shown);
    assert written[..n] == prompt + shown;
    if n == cols {
      assert written == written[..n];
    }
    if n == 0 {
      assert written == before && prompt + shown == [];
    }
  }

  /** refreshLine, on the edit buffer or on a completion: the row and the cursor become those of the given
      text and position, except that an empty line behind an empty prompt is not erased. */
  method RefreshLine(console: Console, prompt: array<char>, ghost p: string, plen: nat,
                     buf: array<char>, len: nat, pos: nat)
    requires console.Valid() && console.y == console.line && console.cols >= 2
    requires Holds(prompt, p) && plen == |p| < console.cols
    requires pos <= len < buf.Length && NUL !in buf[..len]
    requires buf != prompt && buf != console.row && prompt != console.row
    modifies console`x, console`y, console.row, buf
    ensures buf[..] == old(buf[..])
    ensures console.Valid() && console.y == console.line && console.x == Column(plen, pos, console.cols)
    ensures console.row[..] == Row(p, old(buf[..len]), pos, console.cols)
            <==> plen + len > 0 || old(console.row[..]) == Spaces(console.cols)
  {
    hide Over, Row, Holds, Shown, ShownLength, Start, Spaces;
    var y := console.y;
    ghost var text, before, cols := buf[..len], console.row[..], console.cols;
    var start, shown, column := Window(plen, len, pos, console.cols);
    ghost var s := Shown(plen, text, pos, cols);
    RowWritten(p, text, pos, cols, before);
    console.GotoX(0);
    HoldsString(prompt, p);
    console.PutS(prompt, 0, p);
    var tmp := buf[start + shown];
    WindowString(text, start, shown);
    buf[start + shown] := NUL;
    assert buf[start..start + shown] == s;
    console.PutS(buf, start, s);
    buf[start + shown] := tmp;
    assert buf[..] == old(buf[..]);
    if console.x != 0 {
      console.Clear(console.cols - console.x);
    }
    console.GotoXY(column + plen, y);
  }

  lemma HoldsString(memory: array<char>, s: string)
    requires Holds(memory, s)
    ensures NUL !in s && memory.Length > |s| && memory[0..0 + |s|] == s && memory[0 + |s|] == NUL
  {
  }

  lemma WindowString(text: string, start: nat, n: nat)
    requires NUL !in text && start + n <= |text|
    ensures NUL !in text[start..start + n]
  {
  }

  /** The fast path of an insertion: one character at the cursor gives the same row and the same cursor
      column as a full refresh, if the text still ends inside the row. */
  lemma FastPath(p: string, text: string, c: char, cols: nat)
    requires |p| + |text| + 1 < cols
    ensures Over(Row(p, text, |text|, cols), Column(|p|, |text|, cols), [c]) == Row(p, text + [c], |text| + 1, cols)
    ensures Column(|p|, |text| + 1, cols) == Column(|p|, |text|, cols) + 1 < cols
  {
    assert Shown(|p|, text, |text|, cols) == text;
    assert Shown(|p|, text + [c], |text| + 1, cols) == text + [c];
  }
}
