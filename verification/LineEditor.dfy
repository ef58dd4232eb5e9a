/** The line editor of linenoise.c: edit buffer, history and completion. Every command refines a plain editor
    that holds the strings left and right of the cursor, and leaves its exact picture on the display. */
module LineEditor {
  import Bytes
  import opened LineDisplay

  const MAX_LINE: nat := 256
  const HISTORY_MAX_LEN: nat := 20

  // ----- The plain editor -----

  datatype Key =
    | Char(c: char) | CursorLeft | CursorRight | CtrlA | CtrlE | Up | Down | CtrlD | Backspace
    | Enter | CtrlC | Tab | Escape

  predicate Printable(c: char) {
    ' ' <= c <= '~'
  }

  /** The line as the strings on both sides of the cursor, the history, and the entry being edited, counted
      from the newest. */
  datatype Editor = Editor(left: string, right: string, history: seq<string>, index: nat) {
    predicate Ok() {
      index < |history|
    }

    function Text(): string {
      left + right
    }

    function Slot(): nat
      requires Ok()
    {
      |history| - 1 - index
    }

    /** The history with the line being edited in its place. */
    function View(): seq<string>
      requires Ok()
    {
      history[Slot() := Text()]
    }
  }

  /** What fits into the buffer when a history entry or a completion is copied. */
  function Truncated(s: string): string {
    if |s| <= MAX_LINE - 2 then s else s[..MAX_LINE - 2]
  }

  /** Up and Down: the edited line is stored, and the next older or newer entry is taken, if there is one. */
  function Browse(e: Editor, older: bool): Editor
    requires e.Ok()
  {
    if |e.history| <= 1 then e
    else
      var h := e.View();
      if older && e.index + 1 < |h| then Editor(Truncated(h[e.Slot() - 1]), "", h, e.index + 1)
      else if !older && e.index > 0 then Editor(Truncated(h[e.Slot() + 1]), "", h, e.index - 1)
      else e.(history := h)
  }

  /** The commands that keep editing. */
  function Step(e: Editor, key: Key): Editor
    requires e.Ok()
  {
    match key
    case Char(c) =>
      if Printable(c) && |e.Text()| < MAX_LINE - 1 then e.(left := e.left + [c]) else e
    case CursorLeft =>
      if e.left == "" then e
      else e.(left := e.left[..|e.left| - 1], right := [e.left[|e.left| - 1]] + e.right)
    case CursorRight =>
      if e.right == "" then e else e.(left := e.left + [e.right[0]], right := e.right[1..])
    case CtrlA => e.(left := "", right := e.Text())
    case CtrlE => e.(left := e.Text(), right := "")
    case CtrlD => if e.right == "" then e else e.(right := e.right[1..])
    case Backspace => if e.left == "" then e else e.(left := e.left[..|e.left| - 1])
    case Up => Browse(e, true)
    case Down => Browse(e, false)
    case _ => e
  }

  // ----- Laws of the plain editor -----

  predicate Moves(e: Editor, older: bool)
    requires e.Ok()
  {
    |e.history| > 1 && if older then e.index + 1 < |e.history| else e.index > 0
  }

  function Target(e: Editor, older: bool): nat
    requires e.Ok() && Moves(e, older)
  {
    if older then e.Slot() - 1 else e.Slot() + 1
  }

  /** Browsing keeps the history with the edited line in its place, exactly if the entry it moves to, if
      any, has at most 254 characters; a line of 255 characters can be typed, but loses its last character
      when it is browsed to. */
  lemma BrowseKeepsView(e: Editor, older: bool)
    requires e.Ok()
    ensures Browse(e, older).Ok()
    ensures Browse(e, older).View() == e.View()
            <==> (Moves(e, older) ==> |e.View()[Target(e, older)]| <= MAX_LINE - 2)
  {
    var f, h := Browse(e, older), e.View();
    if |e.history| > 1 {
      if Moves(e, older) {
        var t := Target(e, older);
        assert f.Slot() == t && f.history == h;
        assert f.Text() == Truncated(h[t]);
        assert f.View()[t] == Truncated(h[t]);
        if |h[t]| <= MAX_LINE - 2 {
          assert f.View() == h;
        }
      } else {
        assert f.View() == h;
      }
    }
  }

  function BrowseAll(e: Editor, moves: seq<bool>): Editor
    requires e.Ok()
    decreases |moves|
  {
    if moves == [] then e
    else
      BrowseKeepsView(e, moves[0]);
      BrowseAll(Browse(e, moves[0]), moves[1..])
  }

  /** No sequence of Up and Down changes the history with the edited line in its place, if all its lines have
      at most 254 characters. */
  lemma {:induction false} BrowsingConserves(e: Editor, moves: seq<bool>)
    requires e.Ok() && forall i | 0 <= i < |e.View()| :: |e.View()[i]| <= MAX_LINE - 2
    ensures BrowseAll(e, moves).Ok() && BrowseAll(e, moves).View() == e.View()
    decreases |moves|
  {
    if moves != [] {
      hide Browse, Editor.View;
      BrowseKeepsView(e, moves[0]);
      ViewLength(e);
      BrowsingConserves(Browse(e, moves[0]), moves[1..]);
    }
  }

  lemma ViewLength(e: Editor)
    requires e.Ok()
    ensures |e.View()| == |e.history|
  {
  }

  /** A step that is not Up or Down changes the history view in the edited entry only. */
  lemma StepChangesSlotOnly(e: Editor, key: Key)
    requires e.Ok() && !key.Up? && !key.Down?
    ensures var f := Step(e, key); f.Ok() && f.View() == e.View()[e.Slot() := f.Text()]
  {
  }

  lemma StepOk(e: Editor, key: Key)
    requires e.Ok()
    ensures Step(e, key).Ok()
  {
    if key.Up? || key.Down? {
      BrowseKeepsView(e, key.Up?);
    }
  }

  /** What one command does, another undoes. */
  lemma StepsUndone(e: Editor, c: char)
    requires e.Ok()
    ensures Printable(c) && |e.Text()| < MAX_LINE - 1 ==> Step(Step(e, Char(c)), Backspace) == e
    ensures Printable(c) && |e.Text()| < MAX_LINE - 1 ==>
              Step(Step(Step(e, Char(c)), CursorLeft), CtrlD) == e
    ensures e.left != "" ==> Step(Step(e, CursorLeft), CursorRight) == e
    ensures e.right != "" ==> Step(Step(e, CursorRight), CursorLeft) == e
  {
  }

  /** Every command that edits in place, in terms of the text and the cursor's position in it: where the cursor ends up, and
      where a character is put in or taken out. */
  lemma StepIndexed(e: Editor, key: Key)
    requires e.Ok() && key != Up && key != Down
    ensures var t, at, f := e.Text(), |e.left|, Step(e, key);
            && f.history == e.history && f.index == e.index
            && match key
               case Char(c) =>
                 if Printable(c) && |t| < MAX_LINE - 1 then f.Text() == t[..at] + [c] + t[at..] && |f.left| == at + 1 else f == e
               case CursorLeft => f.Text() == t && |f.left| == if at > 0 then at - 1 else 0
               case CursorRight => f.Text() == t && |f.left| == if at < |t| then at + 1 else at
               case CtrlA => f.Text() == t && |f.left| == 0
               case CtrlE => f.Text() == t && |f.left| == |t|
               case CtrlD => if at < |t| then f.Text() == t[..at] + t[at + 1..] && |f.left| == at else f == e
               case Backspace => if at > 0 then f.Text() == t[..at - 1] + t[at..] && |f.left| == at - 1 else f == e
               case _ => f == e
  {
    var t, at := e.Text(), |e.left|;
    assert t[..at] == e.left && t[at..] == e.right;
    if key.CtrlD? && e.right != "" {
      assert t[at + 1..] == e.right[1..];
    }
  }

  /** A character typed behind Home comes first, and one typed behind End comes last. */
  lemma HomeAndEnd(e: Editor, c: char)
    requires e.Ok() && Printable(c) && |e.Text()| < MAX_LINE - 1
    ensures Step(Step(e, CtrlA), Char(c)).Text() == [c] + e.Text()
    ensures Step(Step(e, CtrlE), Char(c)).Text() == e.Text() + [c]
  {
  }

  /** From the newest entry, Up k times shows entry k, counted from the newest, with the cursor at its end. */
  lemma {:induction false} UpShows(e: Editor, k: nat)
    requires e.Ok() && 0 < k && e.index + k < |e.history|
    requires forall i | 0 <= i < |e.View()| :: |e.View()[i]| <= MAX_LINE - 2
    ensures var f := BrowseAll(e, seq(k, _ => true));
            f.index == e.index + k && f.left == e.View()[e.Slot() - k] && f.right == ""
    decreases k
  {
    hide Editor.View;
    var moves := seq(k, _ => true);
    var f := Browse(e, true);
    ViewLength(e);
    BrowseKeepsView(e, true);
    if k > 1 {
      assert moves[1..] == seq(k - 1, _ => true);
      UpShows(f, k - 1);
    } else {
      assert moves[1..] == [];
    }
  }

  /** Down undoes Up, and at either end of the history nothing but the entry that is stored changes. */
  lemma UpAndDown(e: Editor)
    requires e.Ok() && |e.Text()| <= MAX_LINE - 2 && e.index + 1 < |e.history| && |e.View()[e.Slot() - 1]| <= MAX_LINE - 2
    ensures var f := Browse(Browse(e, true), false);
            f.index == e.index && f.left == e.Text() && f.right == "" && f.history == e.View()
  {
    var f := Browse(e, true);
    assert f.View() == e.View() by { BrowseKeepsView(e, true); }
  }

  lemma EndOfHistory(e: Editor, older: bool)
    requires e.Ok() && !Moves(e, older)
    ensures Browse(e, older) == if |e.history| > 1 then e.(history := e.View()) else e
  {
  }

  /** The moves keep the text. */
  lemma MovesKeepText(e: Editor, key: Key)
    requires e.Ok() && key in {CursorLeft, CursorRight, CtrlA, CtrlE}
    ensures Step(e, key).Text() == e.Text()
  {
  }

  // ----- Whole input lines -----

  datatype Outcome =
    | Waiting(e: Editor, menu: bool)             // more keys are wanted, perhaps with completions on display
    | Entered(text: string, history: seq<string>)
    | Interrupted(e: Editor)

  function LeadingTabs(keys: seq<Key>): (n: nat)
    ensures n <= |keys| && (n < |keys| ==> keys[n] != Tab)
    ensures forall i | 0 <= i < n :: keys[i] == Tab
  {
    if keys == [] || keys[0] != Tab then 0 else 1 + LeadingTabs(keys[1..])
  }

  /** The choice after further tabs: the completions in turn, and once in each round the original line. */
  function Chosen(e: Editor, candidates: seq<string>, tabs: nat, key: Key): Editor {
    var i := tabs % (|candidates| + 1);
    if key == Escape || i == |candidates| then e else e.(left := candidates[i], right := "")
  }

  function Run(e: Editor, keys: seq<Key>, complete: string -> seq<string>): Outcome
    requires e.Ok()
    decreases |keys|
  {
    if keys == [] then Waiting(e, false)
    else if keys[0] == Tab && complete(e.Text()) != [] then
      var tabs := LeadingTabs(keys[1..]);
      if tabs == |keys| - 1 then Waiting(e, true)
      else Run(Chosen(e, complete(e.Text()), tabs, keys[1 + tabs]), keys[1 + tabs..], complete)
    else if keys[0] == Enter then Entered(e.Text(), e.history[..|e.history| - 1])
    else if keys[0] == CtrlC then Interrupted(e)
    else
      StepOk(e, keys[0]);
      Run(Step(e, keys[0]), keys[1..], complete)
  }

  /** After a first tab the first completion is shown, further tabs show the others, one after the other, then the original
      line, and then the first again. A choice puts the cursor behind it; Escape leaves the line as it was. */
  lemma TabChoice(e: Editor, candidates: seq<string>, tabs: nat, key: Key)
    ensures Chosen(e, candidates, tabs, Escape) == e
    ensures key != Escape && tabs < |candidates| ==> Chosen(e, candidates, tabs, key) == e.(left := candidates[tabs], right := "")
    ensures tabs == |candidates| ==> Chosen(e, candidates, tabs, key) == e
    ensures Chosen(e, candidates, tabs + (|candidates| + 1), key) == Chosen(e, candidates, tabs, key)
  {
    var m := |candidates| + 1;
    var q, r := Bytes.DivMod(tabs, m);
    assert m * (q + 1) == m * q + m;
    Bytes.ModUnique(tabs + m, m, q + 1, r);
    if tabs < m {
      Bytes.ModUnique(tabs, m, 0, tabs);
    }
  }

  /** What is typed on an empty line is what is entered. */
  lemma {:induction false} TypedIsEntered(e: Editor, typed: string, complete: string -> seq<string>)
    requires e.Ok() && e.right == "" && |e.left| + |typed| <= MAX_LINE - 1
    requires forall i | 0 <= i < |typed| :: Printable(typed[i])
    ensures Run(e, seq(|typed|, i requires 0 <= i < |typed| => Char(typed[i])) + [Enter], complete)
         == Entered(e.left + typed, e.history[..|e.history| - 1])
    decreases |typed|
  {
    hide Run, Step;
    var keys := seq(|typed|, i requires 0 <= i < |typed| => Char(typed[i])) + [Enter];
    RunKey(e, keys, complete);
    if typed == "" {
      assert e.Text() == e.left + typed;
    } else {
      var f, rest := Step(e, Char(typed[0])), typed[1..];
      TypedOne(e, typed[0]);
      TypedIsEntered(f, rest, complete);
      assert keys[1..] == seq(|rest|, i requires 0 <= i < |rest| => Char(rest[i])) + [Enter];
      assert f.left + rest == e.left + typed;
    }
  }

  lemma TypedOne(e: Editor, c: char)
    requires e.Ok() && Printable(c) && e.right == "" && |e.left| < MAX_LINE - 1
    ensures Step(e, Char(c)) == e.(left := e.left + [c])
  {
  }

  // ----- History -----

  function Added(history: seq<string>, line: string): seq<string> {
    if history != [] && history[|history| - 1] == line then history
    else (if |history| == HISTORY_MAX_LEN then history[1..] else history) + [line]
  }

  ghost predicate NoRepeats(history: seq<string>) {
    forall i | 0 < i < |history| :: history[i] != history[i - 1]
  }

  /** Adding leaves the added line last, forgets only the oldest entry and only if the history is full, and
      never stores a line twice in a row. */
  lemma AddedKeeps(history: seq<string>, line: string)
    requires |history| <= HISTORY_MAX_LEN
    ensures var h := Added(history, line);
            && 0 < |h| <= HISTORY_MAX_LEN && h[|h| - 1] == line
            && (NoRepeats(history) ==> NoRepeats(h))
            && (h == history || h == history + [line]
                || (|history| == HISTORY_MAX_LEN && [history[0]] + h == history + [line]))
  {
    if history == [] || history[|history| - 1] != line {
      if |history| == HISTORY_MAX_LEN {
        assert [history[0]] + (history[1..] + [line]) == history + [line];
      }
    }
  }

  method Memmove(buf: array<char>, dst: nat, src: nat, n: nat)
    requires dst + n <= buf.Length && src + n <= buf.Length
    modifies buf
    ensures buf[dst..dst + n] == old(buf[src..src + n])
    ensures forall k | 0 <= k < buf.Length && !(dst <= k < dst + n) :: buf[k] == old(buf[k])
  {
    ghost var moved := buf[src..src + n];
    forall k | 0 <= k < n {
      buf[dst + k] := buf[src + k];
    }
    assert forall k | 0 <= k < n :: buf[dst..dst + n][k] == moved[k];
  }

  /** A character is put before position `at` of the string, which ends at `len`. */
  method InsertAt(buf: array<char>, at: nat, len: nat, c: char)
    requires at <= len && len + 1 < buf.Length
    modifies buf
    ensures buf[..at + 1] == old(buf[..at]) + [c]
    ensures buf[at + 1..len + 1] == old(buf[at..len]) && buf[len + 1] == NUL
  {
    ghost var moved := buf[at..len];
    Memmove(buf, at + 1, at, len - at);
    assert buf[at + 1..len + 1] == moved;
    assert buf[..at] == old(buf[..at]);
    buf[at] := c;
    buf[len + 1] := NUL;
    assert buf[at + 1..len + 1] == moved;
  }

  /** The character at a position of the string is taken out. */
  method RemoveAt(buf: array<char>, at: nat, len: nat)
    requires at < len < buf.Length
    modifies buf
    ensures buf[..at] == old(buf[..at])
    ensures buf[at..len - 1] == old(buf[at + 1..len]) && buf[len - 1] == NUL
  {
    ghost var moved := buf[at + 1..len];
    Memmove(buf, at, at + 1, len - at - 1);
    assert buf[at..len - 1] == moved;
    assert buf[..at] == old(buf[..at]);
    buf[len - 1] := NUL;
    assert buf[at..len - 1] == moved;
  }

  lemma NoNul(buf: array<char>, at: nat, len: nat)
    requires at <= len <= buf.Length
    ensures buf[..len] == buf[..at] + buf[at..len]
    ensures NUL !in buf[..len] <==> NUL !in buf[..at] && NUL !in buf[at..len]
  {
    assert buf[..len] == buf[..at] + buf[at..len];
  }

  /** strncpy, and snprintf with "%s": the copy is padded with NUL characters. */
  method StrNCpy(buf: array<char>, s: string, n: nat)
    requires n <= buf.Length
    modifies buf
    ensures forall k | 0 <= k < n :: buf[k] == if k < |s| then s[k] else NUL
    ensures forall k | n <= k < buf.Length :: buf[k] == old(buf[k])
  {
    var k := 0;
    while k < n
      invariant 0 <= k <= n
      invariant forall j | 0 <= j < k :: buf[j] == if j < |s| then s[j] else NUL
      invariant forall j | n <= j < buf.Length :: buf[j] == old(buf[j])
    {
      buf[k] := if k < |s| then s[k] else NUL;
      k := k + 1;
    }
  }

  method StrLen(buf: array<char>, ghost s: string) returns (n: nat)
    requires |s| < buf.Length && buf[..|s|] == s && NUL !in s && buf[|s|] == NUL
    ensures n == |s|
  {
    n := 0;
    StringByte(buf, 0, s, 0);
    while buf[n] != NUL
      invariant n <= |s| && (buf[n] == NUL <==> n == |s|)
      decreases |s| - n
    {
      n := n + 1;
      StringByte(buf, 0, s, n);
    }
  }

  /** linenoiseHistoryAdd. */
  method HistoryAdd(history: array<string>, n: nat, line: string) returns (n': nat)
    requires n <= HISTORY_MAX_LEN == history.Length
    modifies history
    ensures n' <= HISTORY_MAX_LEN && history[..n'] == Added(old(history[..n]), line)
  {
    n' := n;
    if n' > 0 && history[n' - 1] == line {
      return;
    }
    if n' == HISTORY_MAX_LEN {
      forall k | 0 <= k < HISTORY_MAX_LEN - 1 {
        history[k] := history[k + 1];
      }
      n' := n' - 1;
      assert history[..n'] == old(history[..n])[1..];
    }
    ghost var kept := history[..n'];
    history[n'] := line;
    n' := n' + 1;
    assert history[..n'] == kept + [line];
  }

  // ----- The editor's state -----

  lemma ModuloStep(t: nat, m: nat)
    requires m > 0
    ensures (t % m + 1) % m == (t + 1) % m
  {
    var q, r := t / m, t % m;
    assert t == m * q + r;
    if r + 1 < m {
      Bytes.ModUnique(t + 1, m, q, r + 1);
    } else {
      assert m * (q + 1) == t + 1;
      Bytes.ModUnique(t + 1, m, q + 1, 0);
      Bytes.ModUnique(m, m, 1, 0);
    }
  }

  /** linenoise's global buffer and history together with the state of the line being edited. */
  class LineState {
    const buf: array<char>
    const prompt: array<char>
    ghost const p: string
    const plen: nat
    const console: Console
    var pos: nat
    var len: nat
    const history: array<string>
    var historyLen: nat
    var historyIndex: nat

    ghost predicate Shape()
      reads this`pos, this`len, this`historyLen, this`historyIndex
    {
      && buf.Length == MAX_LINE && history.Length == HISTORY_MAX_LEN
      && buf != prompt && buf != console.row && prompt != console.row
      && 0 < plen == |p| < console.cols && console.cols >= 2
      && pos <= len < MAX_LINE && historyIndex < historyLen <= HISTORY_MAX_LEN
    }

    /** The buffer holds a C string of the recorded length. */
    ghost predicate Line()
      reads this`len, buf
    {
      len < buf.Length && NUL !in buf[..len] && buf[len] == NUL
    }

    ghost predicate Entries()
      reads this`historyLen, history
    {
      historyLen <= history.Length && forall i | 0 <= i < historyLen :: NUL !in history[i]
    }

    ghost predicate Screen()
      reads console`x, console`y, prompt
    {
      console.Valid() && console.y == console.line && Holds(prompt, p)
    }

    ghost predicate Valid()
      reads this`pos, this`len, this`historyLen, this`historyIndex, buf, history, prompt, console`x, console`y
    {
      Shape() && Line() && Entries() && Screen()
    }

    ghost function Text(): string
      reads this`len, buf
      requires len <= buf.Length
    {
      buf[..len]
    }

    function State(): Editor
      reads this`pos, this`len, this`historyLen, this`historyIndex, buf, history
      requires Shape()
    {
      Editor(buf[..pos], buf[pos..len], history[..historyLen], historyIndex)
    }

    /** The display shows a text with the cursor at a position. */
    ghost predicate Showing(text: string, at: nat)
      reads console`x, console`y, console.row
      requires at <= |text| && plen == |p| < console.cols
    {
      && console.row[..] == Row(p, text, at, console.cols)
      && console.x == Column(plen, at, console.cols) && console.y == console.line
    }

    /** The display shows the line and its cursor. */
    ghost predicate Displayed()
      reads this`pos, this`len, buf, console`x, console`y, console.row
      requires pos <= len <= buf.Length && plen == |p| < console.cols
    {
      Showing(buf[..len], pos)
    }

    /** The start of linenoiseEdit, with the cursor at the start of a blank row. */
    constructor (console: Console, prompt: array<char>, ghost p: string, plen: nat,
                 buf: array<char>, history: array<string>, n: nat)
      requires console.Valid() && console.x == 0 && console.y == console.line
      requires console.row[..] == Spaces(console.cols)
      requires Holds(prompt, p) && plen == |p| && 0 < plen < console.cols && console.cols >= 2
      requires buf.Length == MAX_LINE && history.Length == HISTORY_MAX_LEN && n <= HISTORY_MAX_LEN
      requires buf != prompt && buf != console.row && prompt != console.row
      requires forall i | 0 <= i < n :: NUL !in history[i]
      modifies buf, history, console`x, console`y, console.row
      ensures Valid() && Displayed()
      ensures this.buf == buf && this.prompt == prompt && this.p == p && this.console == console
      ensures this.history == history && State() == Editor("", "", Added(old(history[..n]), ""), 0)
    {
      hide Row, Holds, Over, Spaces;
      this.buf, this.prompt, this.p, this.plen, this.console := buf, prompt, p, plen, console;
      this.history, historyIndex := history, 0;
      pos, len := 0, 0;
      historyLen := n;
      new;
      buf[0] := NUL;
      ghost var before := history[..n];
      historyLen := HistoryAdd(history, n, "");
      AddedNoNul(before);
      forall i | 0 <= i < historyLen ensures NUL !in history[i] {
        assert history[..historyLen][i] == history[i];
      }
      ghost var blank := console.row[..];
      HoldsString(prompt, p);
      console.PutS(prompt, 0, p);
      PromptRow(p, console.cols);
      assert buf[..0] == [];
    }

    method Refresh()
      requires Valid()
      modifies console`x, console`y, console.row, buf
      ensures Valid() && State() == old(State()) && Displayed()
    {
      hide Row, Holds;
      RefreshLine(console, prompt, p, plen, buf, len, pos);
      assert buf[..][..len] == buf[..len] && buf[..][..pos] == buf[..pos] && buf[..][pos..len] == buf[pos..len];
      assert old(buf[..][..len]) == old(buf[..len]) && old(buf[..][..pos]) == old(buf[..pos]);
      assert old(buf[..][pos..len]) == old(buf[pos..len]);
      assert buf[len] == buf[..][len] == old(buf[..][len]);
    }

    /** The buffer part of an insertion, at the end of the line or inside it. */
    method PutChar(c: char)
      requires Valid() && c != NUL && len < MAX_LINE - 1
      modifies this`pos, this`len, buf
      ensures Valid() && State() == old(State()).(left := old(State()).left + [c])
      ensures pos == old(pos) + 1 && len == old(len) + 1
    {
      hide Holds;
      NoNul(buf, pos, len);
      InsertAt(buf, pos, len, c);
      pos, len := pos + 1, len + 1;
      NoNul(buf, pos, len);
    }

    method EditInsert(c: char)
      requires Valid() && Displayed() && Printable(c)
      modifies this`pos, this`len, console`x, console`y, console.row, buf
      ensures Valid() && State() == Step(old(State()), Char(c)) && Displayed()
    {
      hide Row, Holds, Column, Over;
      TextParts();
      if len < MAX_LINE - 1 {
        ghost var text := buf[..len];
        if len == pos {
          PutChar(c);
          TextParts();
          assert text + [c] == buf[..len];
          if plen + len < console.cols {
            FastPath(p, text, c, console.cols);
            console.PutC(c);
          } else {
            Refresh();
          }
        } else {
          PutChar(c);
          Refresh();
        }
      }
    }

    method EditMoveLeft()
      requires Valid() && Displayed()
      modifies this`pos, console`x, console`y, console.row, buf
      ensures Valid() && State() == Step(old(State()), CursorLeft) && Displayed()
    {
      hide Row, Holds, Column;
      if pos > 0 {
        pos := pos - 1;
        assert buf[..pos + 1] == buf[..pos] + [buf[pos]] && buf[pos..len] == [buf[pos]] + buf[pos + 1..len];
        Refresh();
      }
    }

    method EditMoveRight()
      requires Valid() && Displayed()
      modifies this`pos, console`x, console`y, console.row, buf
      ensures Valid() && State() == Step(old(State()), CursorRight) && Displayed()
    {
      hide Row, Holds, Column;
      if pos != len {
        assert buf[..pos + 1] == buf[..pos] + [buf[pos]] && buf[pos..len] == [buf[pos]] + buf[pos + 1..len];
        pos := pos + 1;
        Refresh();
      }
    }

    method EditMoveHome()
      requires Valid() && Displayed()
      modifies this`pos, console`x, console`y, console.row, buf
      ensures Valid() && State() == Step(old(State()), CtrlA) && Displayed()
    {
      hide Row, Holds, Column;
      TextParts();
      if pos != 0 {
        pos := 0;
        Refresh();
      }
    }

    method EditMoveEnd()
      requires Valid() && Displayed()
      modifies this`pos, console`x, console`y, console.row, buf
      ensures Valid() && State() == Step(old(State()), CtrlE) && Displayed()
    {
      hide Row, Holds, Column;
      TextParts();
      if pos != len {
        pos := len;
        Refresh();
      }
    }

    lemma TextParts()
      requires Shape()
      ensures buf[..pos] + buf[pos..len] == buf[..len]
      ensures State().Text() == buf[..len]
      ensures buf[0..len] == buf[..len] && buf[len..len] == [] && buf[..0] == []
    {
    }

    /** The buffer part of a deletion: the character behind the cursor, or the one before it, goes. */
    method RemoveChar(before: bool)
      requires Valid() && if before then pos > 0 else pos < len
      modifies this`pos, this`len, buf
      ensures Valid()
      ensures var e := old(State());
              State() == if before then e.(left := e.left[..|e.left| - 1]) else e.(right := e.right[1..])
    {
      hide Holds;
      var at := if before then pos - 1 else pos;
      NoNul(buf, pos, len);
      NoNul(buf, at, len);
      assert buf[at..len][1..] == buf[at + 1..len];
      assert buf[..at] == if before then buf[..pos][..pos - 1] else buf[..pos];
      RemoveAt(buf, at, len);
      pos, len := at, len - 1;
      NoNul(buf, pos, len);
    }

    method EditDelete()
      requires Valid() && Displayed()
      modifies this`pos, this`len, console`x, console`y, console.row, buf
      ensures Valid() && State() == Step(old(State()), CtrlD) && Displayed()
    {
      hide Row, Holds, Column;
      if len > 0 && pos < len {
        RemoveChar(false);
        Refresh();
      }
    }

    method EditBackspace()
      requires Valid() && Displayed()
      modifies this`pos, this`len, console`x, console`y, console.row, buf
      ensures Valid() && State() == Step(old(State()), Backspace) && Displayed()
    {
      hide Row, Holds, Column;
      if pos > 0 && len > 0 {
        RemoveChar(true);
        Refresh();
      }
    }

    /** The copy of a history entry or a completion into the buffer, with the cursor behind it. */
    method TakeLine(s: string)
      requires Valid() && NUL !in s
      modifies this`pos, this`len, buf
      ensures Valid() && State() == old(State()).(left := Truncated(s), right := "")
    {
      StrNCpy(buf, s, MAX_LINE - 1);
      buf[MAX_LINE - 2] := NUL;
      ghost var line := Truncated(s);
      assert buf[..|line|] == line && buf[|line|] == NUL;
      len := StrLen(buf, line);
      pos := len;
    }

    method EditHistoryNext(older: bool)
      requires Valid() && Displayed()
      modifies this`pos, this`len, this`historyIndex, history, console`x, console`y, console.row, buf
      ensures Valid() && State() == Step(old(State()), if older then Up else Down) && Displayed()
    {
      hide Row, Holds, Column, Line, Screen, Truncated;
      if historyLen > 1 {
        StoreLine();
        var index := historyIndex + if older then 1 else -1;
        if index < 0 {
          historyIndex := 0;
          return;
        } else if index >= historyLen {
          historyIndex := historyLen - 1;
          return;
        }
        MoveTo(index);
        Refresh();
      }
    }

    method MoveTo(index: nat)
      requires Valid() && index < historyLen
      modifies this`pos, this`len, this`historyIndex, buf
      ensures Valid()
      ensures var h := old(State()).history;
              State() == Editor(Truncated(h[|h| - 1 - index]), "", h, index)
    {
      hide Holds, Truncated;
      historyIndex := index;
      ghost var h := history[..historyLen];
      assert h[historyLen - 1 - index] == history[historyLen - 1 - index];
      TakeLine(history[historyLen - 1 - historyIndex]);
    }

    /** A completion is shown in place of the line, from a copy of its own. */
    method ShowCompletion(s: string)
      requires Valid() && NUL !in s
      modifies console`x, console`y, console.row
      ensures Valid() && State() == old(State()) && Showing(s, |s|)
    {
      hide Row, Holds;
      var copy := new char[|s| + 1];
      StrNCpy(copy, s, |s| + 1);
      assert copy[..|s|] == s;
      RefreshLine(console, prompt, p, plen, copy, |s|, |s|);
    }

    /** snprintf into the buffer. A completion of more than 254 characters is cut, but its full length is
        recorded, which leaves the state broken: the buffer then holds no string of the recorded length. */
    method AcceptCompletion(s: string)
      requires Valid() && NUL !in s
      modifies this`pos, this`len, buf
      ensures len == pos == |s|
      ensures Line() <==> |s| <= MAX_LINE - 2
      ensures |s| <= MAX_LINE - 2 ==> Valid() && State() == old(State()).(left := s, right := "")
    {
      hide Holds;
      StrNCpy(buf, s, MAX_LINE - 1);
      buf[MAX_LINE - 2] := NUL;
      len, pos := |s|, |s|;
      if |s| <= MAX_LINE - 2 {
        assert buf[..len] == s && buf[len..len] == [];
      } else if |s| < MAX_LINE {
        assert buf[..len][MAX_LINE - 2] == NUL;
      }
    }

    /** completeLine: tabs walk through the completions and the original line; the first other key ends the
        choice and is handed back, unless the keys give out first. */
    method CompleteLine(candidates: seq<string>, keys: seq<Key>) returns (used: nat, got: bool)
      requires Valid() && Displayed() && candidates != [] && Menu(candidates)
      modifies this`pos, this`len, console`x, console`y, console.row, buf
      ensures Valid() && used <= |keys| && (forall i | 0 <= i < used :: keys[i] == Tab)
      ensures got <==> used < |keys|
      ensures !got ==> State() == old(State())
      ensures got ==> keys[used] != Tab && State() == Chosen(old(State()), candidates, used, keys[used]) && Displayed()
    {
      hide Row, Holds, Column, Line, Entries, Screen;
      var i := 0;
      used := 0;
      while true
        invariant 0 <= i <= |candidates| && i == used % (|candidates| + 1)
        invariant used <= |keys| && forall j | 0 <= j < used :: keys[j] == Tab
        invariant Valid() && State() == old(State())
        decreases |keys| - used
      {
        if i < |candidates| {
          ShowCompletion(candidates[i]);
        } else {
          Refresh();
        }
        if used == |keys| {
          return used, false;
        }
        if keys[used] == Tab {
          ModuloStep(used, |candidates| + 1);
          i := (i + 1) % (|candidates| + 1);
          used := used + 1;
        } else {
          Choose(candidates, i, keys[used]);
          return used, true;
        }
      }
    }

    /** The end of a choice, with the chosen completion or the line on display. */
    method Choose(candidates: seq<string>, i: nat, key: Key)
      requires Valid() && i <= |candidates| && Menu(candidates)
      requires if i < |candidates| then Showing(candidates[i], |candidates[i]|) else Displayed()
      modifies this`pos, this`len, console`x, console`y, console.row, buf
      ensures Valid() && Displayed()
      ensures State() == if key == Escape || i == |candidates| then old(State())
                         else old(State()).(left := candidates[i], right := "")
    {
      hide Row, Holds, Column;
      if key == Escape {
        if i < |candidates| {
          Refresh();
        }
      } else if i < |candidates| {
        AcceptCompletion(candidates[i]);
        TextParts();
        assert candidates[i] + "" == candidates[i];
      }
    }

    /** The dispatch of linenoiseEdit for the commands that keep editing. */
    method Dispatch(key: Key)
      requires Valid() && Displayed()
      modifies this`pos, this`len, this`historyIndex, history, console`x, console`y, console.row, buf
      ensures Valid() && Displayed() && State() == Step(old(State()), key)
    {
      hide Row, Holds, Column, Line, Entries, Screen, Showing;
      match key {
        case Backspace => EditBackspace();
        case CtrlD =>
          if len > 0 {
            EditDelete();
          }
        case CursorLeft => EditMoveLeft();
        case CursorRight => EditMoveRight();
        case Up => EditHistoryNext(true);
        case Down => EditHistoryNext(false);
        case CtrlA => EditMoveHome();
        case CtrlE => EditMoveEnd();
        case Char(c) =>
          if Printable(c) {
            EditInsert(c);
          }
        case _ =>
      }
    }

    /** One turn of linenoiseEdit's loop, from key k on. */
    method EditTurn(keys: seq<Key>, k: nat, complete: string -> seq<string>) returns (next: nat, end: bool, outcome: Outcome)
      requires k < |keys| && Valid() && Displayed() && Menu(complete(State().Text()))
      modifies this`pos, this`len, this`historyIndex, this`historyLen
      modifies history, console`x, console`y, console.row, buf
      ensures k < next <= |keys|
      ensures !end ==> Valid() && Displayed()
                       && Run(State(), keys[next..], complete) == Run(old(State()), keys[k..], complete)
      ensures end ==> outcome == Run(old(State()), keys[k..], complete) && Recorded(outcome)
    {
      hide Row, Holds, Column, Line, Entries, Screen, Showing, Menu, Run, Chosen, Step;
      next, end := k, true;
      TextParts();
      var candidates := complete(buf[..len]);
      if keys[k] == Tab && candidates != [] {
        ghost var e := State();
        var used, got := CompleteLine(candidates, keys[k + 1..]);
        RunTab(e, keys[k..], complete, used);
        if !got {
          return |keys|, true, Waiting(State(), true);
        }
        next := k + 1 + used;
      }
      assert Run(State(), keys[next..], complete) == Run(old(State()), keys[k..], complete);
      end, outcome := EditKey(keys, next, complete);
      next := next + 1;
    }

    /** The dispatch on a key that does not ask for completions. */
    method EditKey(keys: seq<Key>, k: nat, complete: string -> seq<string>) returns (end: bool, outcome: Outcome)
      requires k < |keys| && Valid() && Displayed()
      requires keys[k] == Tab ==> complete(State().Text()) == []
      modifies this`pos, this`len, this`historyIndex, this`historyLen
      modifies history, console`x, console`y, console.row, buf
      ensures !end ==> Valid() && Displayed()
                       && Run(State(), keys[k + 1..], complete) == Run(old(State()), keys[k..], complete)
      ensures end ==> outcome == Run(old(State()), keys[k..], complete) && Recorded(outcome)
    {
      hide Row, Holds, Column, Line, Entries, Screen, Showing, Run, Step;
      TextParts();
      RunKey(State(), keys[k..], complete);
      outcome := Interrupted(State());
      if keys[k] == Enter {
        historyLen := historyLen - 1;
        return true, Entered(buf[..len], history[..historyLen]);
      }
      if keys[k] == CtrlC {
        return true, outcome;
      }
      Dispatch(keys[k]);
      end := false;
    }

    /** The state agrees with an outcome; while a key is awaited, the line is on display unless a completion
        is. */
    ghost predicate Recorded(outcome: Outcome)
      reads this`pos, this`len, this`historyLen, this`historyIndex, buf, history, prompt
      reads console`x, console`y, console.row
    {
      match outcome
      case Waiting(e, menu) => Valid() && State() == e && (!menu ==> Displayed())
      case Entered(_, h) => historyLen <= history.Length && history[..historyLen] == h
      case Interrupted(e) => Valid() && State() == e
    }

    /** linenoiseEdit on the keys read so far: the run is that of the plain editor, and what is on display
        is what it should be. */
    method Edit(keys: seq<Key>, complete: string -> seq<string>) returns (outcome: Outcome)
      requires Valid() && Displayed() && forall s :: Menu(complete(s))
      modifies this`pos, this`len, this`historyIndex, this`historyLen
      modifies history, console`x, console`y, console.row, buf
      ensures outcome == Run(old(State()), keys, complete) && Recorded(outcome)
    {
      hide Row, Holds, Column, Line, Entries, Screen, Showing, Menu, Run;
      var k := 0;
      assert keys[0..] == keys;
      while k < |keys|
        invariant 0 <= k <= |keys| && Valid() && Displayed()
        invariant Run(State(), keys[k..], complete) == Run(old(State()), keys, complete)
        decreases |keys| - k
      {
        var end;
        k, end, outcome := EditTurn(keys, k, complete);
        if end { return; }
      }
      RunNothing(State(), keys[k..], complete);
      return Waiting(State(), false);
    }

    /** The edited line replaces its history entry. */
    method StoreLine()
      requires Valid()
      modifies history
      ensures Valid() && State() == old(State()).(history := old(State()).View())
    {
      TextParts();
      ghost var e := State();
      history[historyLen - 1 - historyIndex] := buf[..len];
      assert history[..historyLen] == e.View();
    }
  }

  /** A menu of completions: C strings that fit into the buffer. */
  ghost predicate Menu(candidates: seq<string>) {
    forall i | 0 <= i < |candidates| :: NUL !in candidates[i] && |candidates[i]| <= MAX_LINE - 2
  }

  lemma RunTab(e: Editor, keys: seq<Key>, complete: string -> seq<string>, tabs: nat)
    requires e.Ok() && keys != [] && keys[0] == Tab && complete(e.Text()) != []
    requires tabs <= |keys| - 1 && forall i | 1 <= i <= tabs :: keys[i] == Tab
    ensures tabs == |keys| - 1 ==> Run(e, keys, complete) == Waiting(e, true)
    ensures tabs < |keys| - 1 && keys[1 + tabs] != Tab ==>
              Run(e, keys, complete)
              == Run(Chosen(e, complete(e.Text()), tabs, keys[1 + tabs]), keys[1 + tabs..], complete)
  {
    if tabs == |keys| - 1 || keys[1 + tabs] != Tab {
      LeadingTabsIs(keys[1..], tabs);
    }
  }

  lemma {:induction false} LeadingTabsIs(keys: seq<Key>, n: nat)
    requires n <= |keys| && forall i | 0 <= i < n :: keys[i] == Tab
    requires n < |keys| ==> keys[n] != Tab
    ensures LeadingTabs(keys) == n
  {
    if n > 0 {
      LeadingTabsIs(keys[1..], n - 1);
    }
  }

  lemma RunKey(e: Editor, keys: seq<Key>, complete: string -> seq<string>)
    requires e.Ok() && keys != [] && (keys[0] == Tab ==> complete(e.Text()) == [])
    ensures keys[0] == Enter ==> Run(e, keys, complete) == Entered(e.Text(), e.history[..|e.history| - 1])
    ensures keys[0] == CtrlC ==> Run(e, keys, complete) == Interrupted(e)
    ensures keys[0] != Enter && keys[0] != CtrlC ==>
              Step(e, keys[0]).Ok() && Run(e, keys, complete) == Run(Step(e, keys[0]), keys[1..], complete)
  {
    StepOk(e, keys[0]);
  }

  lemma RunNothing(e: Editor, keys: seq<Key>, complete: string -> seq<string>)
    requires e.Ok() && keys == []
    ensures Run(e, keys, complete) == Waiting(e, false)
  {
  }

  lemma AddedNoNul(history: seq<string>)
    requires forall i | 0 <= i < |history| :: NUL !in history[i]
    ensures Added(history, "") != []
    ensures forall i | 0 <= i < |Added(history, "")| :: NUL !in Added(history, "")[i]
  {
  }

  lemma PromptRow(p: string, cols: nat)
    requires |p| < cols
    ensures Over(Spaces(cols), 0, p) == Row(p, "", 0, cols) && Column(|p|, 0, cols) == |p|
  {
  }
}