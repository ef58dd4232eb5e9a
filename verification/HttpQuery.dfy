/** Query strings: the percent encoder of ifttt.c and its inverse, the request parser of http.s with the
    hexadecimal digits of string_utils.s (section 2.1 of RFC 3986). */
module HttpQuery {
  import opened Bytes

  const NUL: byte := 0
  const SPACE: byte := 0x20
  const PERCENT: byte := 0x25
  const AMPERSAND: byte := 0x26
  const PLUS: byte := 0x2b
  const SLASH: byte := 0x2f
  const EQUALS: byte := 0x3d
  const QUESTION: byte := 0x3f

  // ----- Encoding -----

  /** isalnum or isclean: letters, digits and four marks stand for themselves. */
  predicate Clean(c: byte) {
    || 0x30 <= c <= 0x39 || 0x41 <= c <= 0x5a || 0x61 <= c <= 0x7a
    || c == 0x2a || c == 0x2d || c == 0x2e || c == 0x5f
  }

  function HexDigit(n: nat): byte
    requires n < 16
  {
    if n < 10 then 0x30 + n else 0x41 + (n - 10)
  }

  /** One character; codes from 128 up lose their top bit. */
  function EncodeByte(c: byte): seq<byte> {
    if Clean(c) then [c]
    else if c == SPACE then [PLUS]
    else [PERCENT, HexDigit(c % 0x80 / 16), HexDigit(c % 0x80 % 16)]
  }

  function Encode(value: seq<byte>): seq<byte> {
    if value == [] then [] else EncodeByte(value[0]) + Encode(value[1..])
  }

  /** What an encoded value stands for. */
  function Ascii(value: seq<byte>): seq<byte> {
    seq(|value|, i requires 0 <= i < |value| => value[i] % 0x80)
  }

  lemma AsciiIsValue(value: seq<byte>)
    ensures Ascii(value) == value <==> forall i | 0 <= i < |value| :: value[i] < 0x80
  {
    if Ascii(value) == value {
      forall i | 0 <= i < |value| ensures value[i] < 0x80 {
        assert Ascii(value)[i] == value[i] % 0x80;
      }
    }
  }

  /** The bytes of a C string. */
  ghost predicate IsString(memory: seq<byte>, s: seq<byte>) {
    NUL !in s && |s| < |memory| && memory[..|s|] == s && memory[|s|] == NUL
  }

  lemma {:induction false} EncodeClean(value: seq<byte>)
    requires NUL !in value
    ensures NUL !in Encode(value) && |Encode(value)| <= 3 * |value|
    ensures forall i | 0 <= i < |Encode(value)| :: Encode(value)[i] < 0x80
  {
    if value != [] {
      EncodeClean(value[1..]);
    }
  }

  /** One turn of querystrcat's loop: the encoding of one character is written. */
  method PutEncoded(url: array<byte>, at: nat, c: byte) returns (next: nat)
    requires at + 3 <= url.Length && c != NUL
    modifies url
    ensures at < next <= at + 3 && next == at + |EncodeByte(c)|
    ensures url[..next] == old(url[..at]) + EncodeByte(c)
  {
    if Clean(c) {
      url[at] := c;
      next := at + 1;
    } else if c == SPACE {
      url[at] := PLUS;
      next := at + 1;
    } else {
      var ascii := c % 0x80;
      url[at], url[at + 1], url[at + 2] := PERCENT, HexDigit(ascii / 16), HexDigit(ascii % 16);
      next := at + 3;
    }
  }

  lemma EncodeStep(value: seq<byte>, v: nat)
    requires v < |value|
    ensures Encode(value[v..]) == EncodeByte(value[v]) + Encode(value[v + 1..])
  {
    assert value[v..][1..] == value[v + 1..];
  }

  lemma StringByte(memory: seq<byte>, s: seq<byte>, i: nat)
    requires IsString(memory, s) && i <= |s|
    ensures i < |memory| && (memory[i] == NUL <==> i == |s|) && (i < |s| ==> memory[i] == s[i])
  {
    if i < |s| {
      assert memory[..|s|][i] == memory[i];
    }
  }

  method StrLen(memory: array<byte>, ghost s: seq<byte>) returns (n: nat)
    requires IsString(memory[..], s)
    ensures n == |s|
  {
    n := 0;
    StringByte(memory[..], s, n);
    while memory[n] != NUL
      invariant n <= |s| && n < memory.Length && (memory[n] == NUL <==> n == |s|)
      decreases |s| - n
    {
      n := n + 1;
      StringByte(memory[..], s, n);
    }
  }

  lemma Terminated(memory: seq<byte>, end: nat, before: seq<byte>, value: seq<byte>)
    requires end < |memory| && memory[..end] == before + Encode(value) && memory[end] == NUL
    requires NUL !in before && NUL !in value
    ensures IsString(memory, before + Encode(value))
  {
    EncodeClean(value);
  }

  /** querystrcat: the encoded value is appended to the string in the buffer. */
  method QueryStrCat(url: array<byte>, ghost before: seq<byte>, val: seq<byte>, ghost value: seq<byte>)
    requires IsString(url[..], before) && IsString(val, value)
    requires |before| + 3 * |value| + 1 <= url.Length
    modifies url
    ensures IsString(url[..], before + Encode(value))
  {
    hide IsString, Encode, EncodeByte;
    StringParts(url[..], before);
    StringParts(val, value);
    var end := StrLen(url, before);
    assert url[..end] == url[..][..end];
    var v := 0;
    EncodeAll(value);
    assert value[0..] == value;
    StringByte(val, value, v);
    while val[v] != NUL
      invariant 0 <= v <= |value| && v < |val| && end + 3 * (|value| - v) + 1 <= url.Length
      invariant val[v] == NUL <==> v == |value|
      invariant url[..end] + Encode(value[v..]) == before + Encode(value)
      decreases |value| - v
    {
      StringByte(val, value, v);
      EncodeStep(value, v);
      ghost var sofar := url[..end];
      end := PutEncoded(url, end, val[v]);
      assert sofar + (EncodeByte(value[v]) + Encode(value[v + 1..])) == url[..end] + Encode(value[v + 1..]);
      v := v + 1;
      StringByte(val, value, v);
    }
    assert value[v..] == [];
    EncodeAll(value[v..]);
    url[end] := NUL;
    assert url[..end] + [] == url[..end] == url[..][..end];
    Terminated(url[..], end, before, value);
  }

  lemma EncodeAll(value: seq<byte>)
    ensures value == [] ==> Encode(value) == []
  {
  }

  lemma StringParts(memory: seq<byte>, s: seq<byte>)
    requires IsString(memory, s)
    ensures NUL !in s && |s| < |memory| && memory[..|s|] == s
  {
  }

  // ----- Hexadecimal digits -----

  function OrLower(c: byte): byte {
    if c / 0x20 % 2 == 0 then c + 0x20 else c
  }

  /** parse_1_digit. */
  function ParseDigit(c: byte): byte {
    if c >= 0x3a then (OrLower(c) + 0x100 - 0x57) % 0x100 else (c + 0x100 - 0x30) % 0x100
  }

  /** parse_hex_digits: four shifts, then an addition that drops the carry. */
  function ParseHexDigits(high: byte, low: byte): byte {
    (ParseDigit(high) * 16 % 0x100 + ParseDigit(low)) % 0x100
  }

  lemma DigitParses(n: nat)
    requires n < 16
    ensures ParseDigit(HexDigit(n)) == n && ParseDigit(OrLower(HexDigit(n))) == n
  {
  }

  /** Two digits, upper or lower case, give back the byte they were printed from. */
  lemma HexRoundTrip(b: byte)
    ensures var high, low := HexDigit(b / 16), HexDigit(b % 16);
            && ParseHexDigits(high, low) == b
            && ParseHexDigits(OrLower(high), OrLower(low)) == b
  {
    hide ParseDigit, HexDigit, OrLower;
    DigitParses(b / 16);
    DigitParses(b % 16);
  }

  // ----- What the parser puts into the variables buffer -----

  /** check_end_of_string. */
  predicate Ended(c: byte) {
    c == NUL || c == SPACE || c == 0x0a || c == 0x0d
  }

  predicate Delimiter(c: byte) {
    c == QUESTION || c == AMPERSAND
  }

  /** The output from a new variable on; `s` is what is still to be read. */
  function Variables(s: seq<byte>): seq<byte>
    decreases |s|
  {
    if s == [] || Ended(s[0]) then [NUL, NUL] else [s[0]] + Name(s[1..])
  }

  /** The rest of a name is skipped. */
  function Name(s: seq<byte>): seq<byte>
    decreases |s|
  {
    if s == [] || Ended(s[0]) then [NUL, NUL]
    else if Delimiter(s[0]) then Variables(s[1..])
    else if s[0] == EQUALS then Value(s[1..])
    else Name(s[1..])
  }

  function Value(s: seq<byte>): seq<byte>
    decreases |s|
  {
    if s == [] || Ended(s[0]) then [NUL, NUL]
    else if Delimiter(s[0]) then [NUL] + Variables(s[1..])
    else if s[0] == PERCENT then
      if |s| < 3 then [NUL, NUL] else [ParseHexDigits(s[1], s[2])] + Value(s[3..])
    else [if s[0] == PLUS then SPACE else s[0]] + Value(s[1..])
  }

  lemma ValueStep(s: seq<byte>)
    requires s != []
    ensures if Ended(s[0]) then Value(s) == [NUL, NUL]
            else if Delimiter(s[0]) then Value(s) == [NUL] + Variables(s[1..])
            else if s[0] == PERCENT then |s| >= 3 ==> Value(s) == [ParseHexDigits(s[1], s[2])] + Value(s[3..])
            else Value(s) == [if s[0] == PLUS then SPACE else s[0]] + Value(s[1..])
  {
  }

  function Path(s: seq<byte>): seq<byte> {
    if s == [] || Ended(s[0]) then [NUL, NUL]
    else if Delimiter(s[0]) then [NUL] + Variables(s[1..])
    else [s[0]] + Path(s[1..])
  }

  function Verb(s: seq<byte>): seq<byte> {
    if s == [] then [NUL, NUL]
    else if s[0] == SPACE then [NUL, 2] + Path(s[1..])
    else if Ended(s[0]) then [NUL, NUL]
    else [s[0]] + Verb(s[1..])
  }

  /** The whole table: the method as variable 1, the path as variable 2, then the query's variables. A
      request that starts with a slash, or is empty, has no method. */
  function Table(s: seq<byte>): seq<byte> {
    [1] + if s != [] && (s[0] == SLASH || Ended(s[0])) then [NUL, 2, SLASH] + Path(s[1..]) else Verb(s)
  }

  // ----- Requests built by the encoder -----

  /** A variable of a query: the sign before it, the first letter of its name, the rest of the name, and its value. */
  datatype Pair = Pair(sign: byte, letter: byte, rest: seq<byte>, value: seq<byte>)

  // what ends a request line, and what stands before a variable
  const ENDS: set<byte> := {0x00, 0x20, 0x0a, 0x0d}
  const SIGNS: set<byte> := {0x3f, 0x26}

  ghost predicate Without(s: seq<byte>, some: set<byte>) {
    forall i | 0 <= i < |s| :: s[i] !in some
  }

  /** What follows a request line. */
  ghost predicate After(s: seq<byte>) {
    s != [] && s[0] in ENDS
  }

  /** A name as it may stand in a query, behind either sign; only its first letter counts. */
  ghost predicate GoodName(pair: Pair) {
    pair.sign in SIGNS && pair.letter !in ENDS && Skippable(pair.rest)
  }

  ghost predicate Skippable(s: seq<byte>) {
    Without(s, ENDS + SIGNS + {0x3d})
  }

  function Query(pairs: seq<Pair>): seq<byte> {
    if pairs == [] then [] else [pairs[0].sign] + Variable(pairs[0]) + Query(pairs[1..])
  }

  function Variable(pair: Pair): seq<byte> {
    [pair.letter] + pair.rest + [EQUALS] + Encode(pair.value)
  }

  datatype Entry = Entry(letter: byte, value: seq<byte>)

  function Entries(pairs: seq<Pair>): seq<Entry>
  {
    if pairs == [] then [] else [Entry(pairs[0].letter, Ascii(pairs[0].value))] + Entries(pairs[1..])
  }

  /** A table as http_get_value reads it, without the final NUL. */
  function Render(entries: seq<Entry>): seq<byte> {
    if entries == [] then [] else [entries[0].letter] + entries[0].value + [NUL] + Render(entries[1..])
  }

  /** The parser undoes the encoding of one character. */
  lemma ValueOfByte(c: byte, rest: seq<byte>)
    ensures Value(EncodeByte(c) + rest) == [c % 0x80] + Value(rest)
  {
    var s := EncodeByte(c) + rest;
    assert s[0] == EncodeByte(c)[0];
    if Clean(c) || c == SPACE {
      assert s[1..] == rest;
    } else {
      HexRoundTrip(c % 0x80);
      assert s[1] == EncodeByte(c)[1] && s[2] == EncodeByte(c)[2] && s[3..] == rest;
    }
  }

  lemma {:induction false} ValueOfEncoded(value: seq<byte>, rest: seq<byte>)
    ensures Value(Encode(value) + rest) == Ascii(value) + Value(rest)
    decreases |value|
  {
    if value == [] {
      assert Encode(value) + rest == rest && Ascii(value) + Value(rest) == Value(rest);
    } else {
      hide Value, EncodeByte, Encode, Ascii;
      ValueOfEncoded(value[1..], rest);
      ValueOfByte(value[0], Encode(value[1..]) + rest);
      EncodeStep(value, 0);
      assert value[0..] == value;
      Assoc(EncodeByte(value[0]), Encode(value[1..]), rest);
      AsciiStep(value);
      Assoc([value[0] % 0x80], Ascii(value[1..]), Value(rest));
    }
  }

  lemma AsciiStep(value: seq<byte>)
    requires value != []
    ensures Ascii(value) == [value[0] % 0x80] + Ascii(value[1..])
  {
  }

  lemma Assoc(a: seq<byte>, b: seq<byte>, c: seq<byte>)
    ensures a + b + c == a + (b + c)
  {
  }

  lemma {:induction false} NameSkipped(name: seq<byte>, rest: seq<byte>)
    requires Skippable(name)
    ensures Name(name + [EQUALS] + rest) == Value(rest)
    decreases |name|
  {
    hide Value;
    var s := name + [EQUALS] + rest;
    if name == [] {
      assert s[0] == EQUALS && s[1..] == rest;
    } else {
      NameSkipped(name[1..], rest);
      assert s[0] == name[0] && s[1..] == name[1..] + [EQUALS] + rest;
    }
  }

  lemma VariableOfPair(pair: Pair, rest: seq<byte>)
    requires GoodName(pair)
    ensures Variables(Variable(pair) + rest) == [pair.letter] + Ascii(pair.value) + Value(rest)
  {
    hide Encode, Value, Ascii, Name, Skippable;
    var s := Variable(pair) + rest;
    assert s[0] == pair.letter && s[1..] == pair.rest + [EQUALS] + (Encode(pair.value) + rest);
    NameSkipped(pair.rest, Encode(pair.value) + rest);
    ValueOfEncoded(pair.value, rest);
    assert [pair.letter] + (Ascii(pair.value) + Value(rest)) == [pair.letter] + Ascii(pair.value) + Value(rest);
  }

  /** The query part of a table: one entry for each pair, in order, holding the decoded value, whatever
      delimiters, signs and spaces the value contains. */
  lemma {:induction false} VariablesOfQuery(pairs: seq<Pair>, after: seq<byte>)
    requires forall i | 0 <= i < |pairs| :: GoodName(pairs[i])
    requires After(after)
    ensures Value(Query(pairs) + after) == [NUL] + (Render(Entries(pairs)) + [NUL])
    ensures pairs != [] ==> Variables(Query(pairs)[1..] + after) == Render(Entries(pairs)) + [NUL]
    decreases |pairs|
  {
    hide GoodName, Ascii, Variables, Variable, Value, Render, Entries;
    if pairs == [] {
      assert [] + after == after;
      ValueEnded(after);
    } else {
      VariablesOfQuery(pairs[1..], after);
      VariablesOfPair(pairs, after);
      ValueAtSign(pairs[0], Query(pairs)[1..] + after);
      assert Query(pairs) + after == [pairs[0].sign] + (Query(pairs)[1..] + after);
    }
  }

  lemma VariablesOfPair(pairs: seq<Pair>, after: seq<byte>)
    requires pairs != [] && GoodName(pairs[0])
    requires Value(Query(pairs[1..]) + after) == [NUL] + (Render(Entries(pairs[1..])) + [NUL])
    ensures Variables(Query(pairs)[1..] + after) == Render(Entries(pairs)) + [NUL]
  {
    hide GoodName, Ascii, Variables, Variable, Value, Render, Entries;
    var first, more := pairs[0], Query(pairs[1..]) + after;
    EntriesStep(pairs);
    VariableOfPair(first, more);
    assert Query(pairs)[1..] + after == Variable(first) + more;
    var entry := [first.letter] + Ascii(first.value);
    assert entry + ([NUL] + (Render(Entries(pairs[1..])) + [NUL])) == entry + [NUL] + Render(Entries(pairs[1..])) + [NUL];
  }

  lemma EntriesStep(pairs: seq<Pair>)
    ensures pairs == [] ==> Render(Entries(pairs)) == []
    ensures pairs != [] ==>
              Render(Entries(pairs)) == [pairs[0].letter] + Ascii(pairs[0].value) + [NUL] + Render(Entries(pairs[1..]))
  {
    assert pairs != [] ==> Entries(pairs)[1..] == Entries(pairs[1..]);
  }

  lemma ValueEnded(s: seq<byte>)
    requires After(s)
    ensures Value(s) == [NUL] + (Render(Entries([])) + [NUL])
  {
    assert Render(Entries([])) == [];
  }

  lemma ValueAtSign(pair: Pair, s: seq<byte>)
    requires GoodName(pair)
    ensures Value([pair.sign] + s) == [NUL] + Variables(s)
  {
    assert ([pair.sign] + s)[1..] == s;
  }

  /** A path is read up to where a value would end, and it is not decoded. */
  lemma {:induction false} PathRead(path: seq<byte>, rest: seq<byte>)
    requires Without(path, ENDS + SIGNS)
    requires rest != [] && rest[0] in ENDS + SIGNS
    ensures Path(path + rest) == path + Value(rest)
    decreases |path|
  {
    hide Variables, ParseHexDigits;
    var s := path + rest;
    if path == [] {
      assert s == rest;
    } else {
      PathRead(path[1..], rest);
      assert s[0] == path[0] && s[1..] == path[1..] + rest;
    }
  }

  lemma {:induction false} VerbRead(verb: seq<byte>, rest: seq<byte>)
    requires Without(verb, ENDS)
    ensures Verb(verb + [SPACE] + rest) == verb + [NUL, 2] + Path(rest)
    decreases |verb|
  {
    hide Path;
    var s := verb + [SPACE] + rest;
    if verb == [] {
      assert s[0] == SPACE && s[1..] == rest;
    } else {
      VerbRead(verb[1..], rest);
      assert s[0] == verb[0] && s[1..] == verb[1..] + [SPACE] + rest;
      assert [verb[0]] + (verb[1..] + [NUL, 2] + Path(rest)) == verb + [NUL, 2] + Path(rest);
    }
  }

  function Request(verb: seq<byte>, path: seq<byte>, pairs: seq<Pair>, after: seq<byte>): seq<byte> {
    verb + [SPACE] + (path + (Query(pairs) + after))
  }

  function Decoded(verb: seq<byte>, path: seq<byte>, pairs: seq<Pair>): seq<Entry>
  {
    [Entry(1, verb), Entry(2, path)] + Entries(pairs)
  }

  lemma RenderTwo(a: Entry, b: Entry, more: seq<Entry>)
    ensures Render([a, b] + more) == [a.letter] + a.value + [NUL] + ([b.letter] + b.value + [NUL] + Render(more))
  {
    assert ([a, b] + more)[1..] == [b] + more;
    assert ([b] + more)[1..] == more;
  }

  lemma LineRead(path: seq<byte>, pairs: seq<Pair>, after: seq<byte>)
    requires Without(path, ENDS + SIGNS)
    requires forall i | 0 <= i < |pairs| :: GoodName(pairs[i])
    requires After(after)
    ensures Path(path + (Query(pairs) + after)) == path + [NUL] + (Render(Entries(pairs)) + [NUL])
  {
    hide Path, Value, Render, Entries, Variable;
    VariablesOfQuery(pairs, after);
    assert pairs != [] ==> GoodName(pairs[0]);
    PathRead(path, Query(pairs) + after);
    assert path + ([NUL] + (Render(Entries(pairs)) + [NUL])) == path + [NUL] + (Render(Entries(pairs)) + [NUL]);
  }

  /** The table of an encoded request: method, path and the decoded pairs, in order, if there are any. */
  lemma RequestDecoded(verb: seq<byte>, path: seq<byte>, pairs: seq<Pair>, after: seq<byte>)
    requires verb != [] && verb[0] != 0x2f && Without(verb, ENDS)
    requires Without(path, ENDS + SIGNS)
    requires forall i | 0 <= i < |pairs| :: GoodName(pairs[i])
    requires After(after)
    ensures Table(Request(verb, path, pairs, after)) == Render(Decoded(verb, path, pairs)) + [NUL]
  {
    hide Verb, Path, Variables, Query, Render, Entries, GoodName;
    LineRead(path, pairs, after);
    VerbRead(verb, path + (Query(pairs) + after));
    RenderTwo(Entry(1, verb), Entry(2, path), Entries(pairs));
    var end := Render(Entries(pairs)) + [NUL];
    assert [1] + (verb + [NUL, 2] + (path + [NUL] + end))
        == [1] + verb + [NUL] + ([2] + path + [NUL] + Render(Entries(pairs))) + [NUL];
  }

  /** A request without a method, as a Gopher client sends it: the method is the empty string, and the path
      has a slash for the first byte, which is one, or ends a string. */
  lemma BareDecoded(first: byte, path: seq<byte>, pairs: seq<Pair>, after: seq<byte>)
    requires Without(path, ENDS + SIGNS)
    requires forall i | 0 <= i < |pairs| :: GoodName(pairs[i])
    requires After(after)
    requires first in ENDS + {0x2f}
    ensures Table([first] + (path + (Query(pairs) + after))) == Render(Decoded([], [SLASH] + path, pairs)) + [NUL]
  {
    hide Path, Variables, Query, Render, Entries, GoodName, Table;
    var rest, end := path + (Query(pairs) + after), Render(Entries(pairs)) + [NUL];
    LineRead(path, pairs, after);
    RenderTwo(Entry(1, []), Entry(2, [SLASH] + path), Entries(pairs));
    NoMethod(first, rest);
    Joined(path, Render(Entries(pairs)));
  }

  lemma NoMethod(first: byte, rest: seq<byte>)
    requires first in ENDS + {0x2f}
    ensures Table([first] + rest) == [1] + ([NUL, 2, SLASH] + Path(rest))
  {
    hide Path, Verb;
    assert ([first] + rest)[1..] == rest;
  }

  lemma Joined(path: seq<byte>, more: seq<byte>)
    ensures [1] + ([NUL, 2, SLASH] + (path + [NUL] + (more + [NUL])))
         == [1] + [] + [NUL] + ([2] + ([SLASH] + path) + [NUL] + more) + [NUL]
  {
  }

  /** A request that ends behind its method has no path. */
  lemma {:induction false} MethodAlone(verb: seq<byte>, after: seq<byte>)
    requires verb != [] && verb[0] != 0x2f && Without(verb, ENDS)
    requires After(after) && after[0] != SPACE
    ensures Table(verb + after) == Render([Entry(1, verb)]) + [NUL]
  {
    VerbAlone(verb, after);
    assert Render([Entry(1, verb)][1..]) == [];
    assert [1] + (verb + [NUL, NUL]) == [1] + verb + [NUL] + [] + [NUL];
  }

  lemma {:induction false} VerbAlone(verb: seq<byte>, after: seq<byte>)
    requires Without(verb, ENDS)
    requires After(after) && after[0] != SPACE
    ensures Verb(verb + after) == verb + [NUL, NUL]
    decreases |verb|
  {
    var s := verb + after;
    if verb == [] {
      assert s == after;
    } else {
      VerbAlone(verb[1..], after);
      assert s[0] == verb[0] && s[1..] == verb[1..] + after;
      assert [verb[0]] + (verb[1..] + [NUL, NUL]) == verb + [NUL, NUL];
    }
  }

  /** A name that no value follows is not ended in the table, so that the next variable becomes part of its value. */
  lemma NameAlone(letter: byte, rest: seq<byte>, next: Pair, after: seq<byte>)
    requires letter !in ENDS && Skippable(rest) && GoodName(next)
    requires After(after)
    ensures Variables([letter] + (rest + (Query([next]) + after)))
         == Render([Entry(letter, [next.letter] + Ascii(next.value))]) + [NUL]
  {
    hide Name, Variables, Ascii, GoodName, Variable;
    VariablesOfQuery([next], after);
    EntriesStep([next]);
    EntriesStep([next][1..]);
    var query := Query([next])[1..] + after;
    assert Query([next]) + after == [next.sign] + query;
    NameCut(rest, next, query);
    NewVariable(letter, rest + ([next.sign] + query));
    var found := [Entry(letter, [next.letter] + Ascii(next.value))];
    assert found[1..] == [] && Render(found[1..]) == [];
    assert [letter] + ([next.letter] + Ascii(next.value) + [NUL] + [] + [NUL])
        == [letter] + ([next.letter] + Ascii(next.value)) + [NUL] + [] + [NUL];
  }

  lemma NewVariable(letter: byte, rest: seq<byte>)
    requires letter !in ENDS
    ensures Variables([letter] + rest) == [letter] + Name(rest)
  {
    assert ([letter] + rest)[1..] == rest;
  }

  lemma {:induction false} NameCut(name: seq<byte>, next: Pair, rest: seq<byte>)
    requires Skippable(name) && GoodName(next)
    ensures Name(name + ([next.sign] + rest)) == Variables(rest)
    decreases |name|
  {
    hide Variables;
    var s := name + ([next.sign] + rest);
    if name == [] {
      assert s[0] == next.sign && s[1..] == rest;
    } else {
      NameCut(name[1..], next, rest);
      assert s[0] == name[0] && s[1..] == name[1..] + ([next.sign] + rest);
    }
  }

  // ----- http_parse_request -----

  datatype Stop = AtEquals | AtDelimiter | AtEnd

  /** The parser's moving pointers. The request's bytes are followed by at least three NUL bytes, because
      an escape that is cut off makes the parser read past the end. */
  class Parser {
    const source: seq<byte>
    const table: array<byte>
    var stringPtr: nat
    var tablePtr: nat

    ghost predicate Valid()
      reads this`stringPtr, this`tablePtr
    {
      && |source| >= 3 && source[|source| - 3..] == [NUL, NUL, NUL]
      && stringPtr + 2 <= |source| && tablePtr <= stringPtr + 4 && table.Length >= |source| + 6
    }

    ghost function Output(): seq<byte>
      reads this`tablePtr, table
      requires tablePtr <= table.Length
    {
      table[..tablePtr]
    }

    /** What is still to be read. */
    ghost function Rest(): seq<byte>
      reads this`stringPtr
      requires stringPtr < |source|
    {
      source[stringPtr + 1..]
    }

    constructor (source: seq<byte>, table: array<byte>)
      requires |source| >= 3 && source[|source| - 3..] == [NUL, NUL, NUL] && table.Length >= |source| + 6
      ensures Valid() && this.source == source && this.table == table && tablePtr == 0 && stringPtr == 0
    {
      this.source, this.table, stringPtr, tablePtr := source, table, 0, 0;
    }

    method PutByte(b: byte)
      requires tablePtr < table.Length
      modifies this`tablePtr, table
      ensures tablePtr == old(tablePtr) + 1 && Output() == old(Output()) + [b]
    {
      table[tablePtr] := b;
      tablePtr := tablePtr + 1;
      assert table[..tablePtr] == table[..tablePtr - 1] + [b];
    }

    /** get_next_byte_in_source. */
    method NextByte() returns (b: byte)
      requires Valid()
      modifies this`stringPtr
      ensures stringPtr == old(stringPtr) + 1 < |source| && b == old(Rest())[0] == source[stringPtr]
      ensures old(Rest())[1..] == Rest()
      ensures b != NUL ==> stringPtr + 4 <= |source| && Valid()
    {
      stringPtr := stringPtr + 1;
      b := source[stringPtr];
      if stringPtr + 4 > |source| {
        assert b == source[|source| - 3..][stringPtr - (|source| - 3)];
      }
    }

    method SkipToEquals() returns (stop: Stop)
      requires Valid()
      modifies this`stringPtr
      ensures old(stringPtr) <= stringPtr < |source| && (stop != AtEnd ==> Valid())
      ensures Name(old(Rest())) == match stop
                case AtEquals => Value(Rest())
                case AtDelimiter => Variables(Rest())
                case AtEnd => [NUL, NUL]
    {
      ghost var start := Rest();
      while true
        invariant Valid() && stringPtr >= old(stringPtr) && Name(Rest()) == Name(start)
        decreases |source| - stringPtr
      {
        var c := NextByte();
        if Ended(c) { return AtEnd; }
        if Delimiter(c) { return AtDelimiter; }
        if c == EQUALS { return AtEquals; }
      }
    }

    /** One turn of got_var: a character of a value, its end, or the end of the request. */
    method ValueByte() returns (inside: bool, more: bool)
      requires Valid()
      modifies this, table
      ensures old(stringPtr) < stringPtr < |source| && tablePtr <= stringPtr + 4
      ensures inside || more ==> Valid()
      ensures old(Output()) + Value(old(Rest()))
           == Output() + if inside then Value(Rest()) else if more then Variables(Rest()) else [NUL, NUL]
    {
      hide Value, Variables, ParseHexDigits;
      ghost var output, start := Output(), Rest();
      ValueStep(start);
      var c := NextByte();
      if Ended(c) { return false, false; }
      if Delimiter(c) {
        PutByte(NUL);
        Assoc(output, [NUL], Variables(Rest()));
        return false, true;
      }
      if c == PERCENT {
        var high := NextTwo();
        assert start[3..] == Rest();
        c := ParseHexDigits(high, source[stringPtr]);
      } else if c == PLUS {
        c := SPACE;
      }
      PutByte(c);
      Assoc(output, [c], Value(Rest()));
      return true, true;
    }

    /** The two fetches of an escape, neither of them checked for the end. */
    method NextTwo() returns (high: byte)
      requires stringPtr + 4 <= |source| && Valid()
      modifies this`stringPtr
      ensures Valid() && stringPtr == old(stringPtr) + 2 && high == source[stringPtr - 1]
      ensures old(Rest())[0] == high && old(Rest())[1] == source[stringPtr] && old(Rest())[2..] == Rest()
    {
      stringPtr := stringPtr + 1;
      high := source[stringPtr];
      stringPtr := stringPtr + 1;
    }

    method ExtractValue() returns (more: bool)
      requires Valid()
      modifies this, table
      ensures old(stringPtr) < stringPtr < |source| && tablePtr <= stringPtr + 4
      ensures more ==> Valid()
      ensures old(Output()) + Value(old(Rest())) == Output() + if more then Variables(Rest()) else [NUL, NUL]
    {
      hide Value, Variables;
      var inside;
      inside, more := ValueByte();
      while inside
        invariant old(stringPtr) < stringPtr < |source| && tablePtr <= stringPtr + 4
        invariant inside || more ==> Valid()
        invariant old(Output()) + Value(old(Rest()))
               == Output() + if inside then Value(Rest()) else if more then Variables(Rest()) else [NUL, NUL]
        decreases |source| - stringPtr
      {
        inside, more := ValueByte();
      }
    }

    /** One turn of next_var. */
    method NextVariable() returns (more: bool)
      requires Valid()
      modifies this, table
      ensures old(stringPtr) < stringPtr < |source| && tablePtr <= stringPtr + 4
      ensures more ==> Valid()
      ensures old(Output()) + Variables(old(Rest())) == Output() + if more then Variables(Rest()) else [NUL, NUL]
    {
      hide Value, Name;
      ghost var output, start := Output(), Rest();
      var c := NextByte();
      if Ended(c) { return false; }
      PutByte(c);
      assert output + ([c] + Name(Rest())) == Output() + Name(Rest());
      var stop := SkipToEquals();
      match stop {
        case AtEquals => more := ExtractValue();
        case AtDelimiter => more := true;
        case AtEnd => more := false;
      }
    }

    method Done()
      requires tablePtr + 2 <= table.Length
      modifies this`tablePtr, table
      ensures tablePtr <= table.Length && Output() == old(Output()) + [NUL, NUL]
    {
      PutByte(NUL);
      PutByte(NUL);
    }

    method ExtractVariables()
      requires Valid()
      modifies this, table
      ensures tablePtr <= table.Length && Output() == old(Output()) + Variables(old(Rest()))
    {
      hide Variables;
      var more := true;
      while more
        invariant stringPtr < |source| && tablePtr <= stringPtr + 4 && table.Length >= |source| + 6
        invariant more ==> Valid()
        invariant old(Output()) + Variables(old(Rest()))
               == Output() + if more then Variables(Rest()) else [NUL, NUL]
        decreases |source| - stringPtr
      {
        more := NextVariable();
      }
      Done();
    }

    method ExtractPath()
      requires Valid()
      modifies this, table
      ensures tablePtr <= table.Length && Output() == old(Output()) + Path(old(Rest()))
    {
      hide Variables;
      ghost var all := Output() + Path(Rest());
      while true
        invariant Valid() && Output() + Path(Rest()) == all
        decreases |source| - stringPtr
      {
        ghost var output := Output();
        var c := NextByte();
        if Ended(c) {
          Done();
          return;
        }
        if Delimiter(c) {
          PutByte(NUL);
          assert output + ([NUL] + Variables(Rest())) == Output() + Variables(Rest());
          ExtractVariables();
          return;
        }
        PutByte(c);
        assert output + ([c] + Path(Rest())) == Output() + Path(Rest());
      }
    }

    method EndOfMethod()
      requires tablePtr + 2 <= table.Length
      modifies this`tablePtr, table
      ensures tablePtr == old(tablePtr) + 2 && Output() == old(Output()) + [NUL, 2]
    {
      PutByte(NUL);
      PutByte(2);
    }

    /** extract_method, from the byte under the pointer. */
    method ExtractMethod()
      requires Valid() && stringPtr == 0 && tablePtr == 1 && source[0] != NUL
      modifies this, table
      ensures tablePtr <= table.Length && Output() == old(Output()) + Verb(source)
    {
      hide Path;
      ghost var all := Output() + Verb(source);
      var c := source[0];
      while c != SPACE
        invariant 0 <= stringPtr < |source| && c == source[stringPtr] && tablePtr == stringPtr + 1
        invariant table.Length >= |source| + 6 && (c != NUL ==> Valid())
        invariant Output() + Verb(source[stringPtr..]) == all
        decreases |source| - stringPtr
      {
        if Ended(c) {
          Done();
          return;
        }
        ghost var output := Output();
        PutByte(c);
        assert output + ([c] + Verb(source[stringPtr..][1..])) == Output() + Verb(source[stringPtr..][1..]);
        c := NextByte();
      }
      ghost var output, rest := Output(), Rest();
      assert source[stringPtr..][1..] == rest;
      EndOfMethod();
      ExtractPath();
      assert output + ([NUL, 2] + Path(rest)) == Output();
    }

    /** http_parse_request. */
    method Parse()
      requires Valid() && stringPtr == 0 && tablePtr == 0
      modifies this, table
      ensures tablePtr <= table.Length && Output() == Table(source)
    {
      hide Verb, Path;
      PutByte(1);
      var c := source[0];
      if c == SLASH || Ended(c) {
        EndOfMethod();
        PutByte(SLASH);
        ExtractPath();
      } else {
        ExtractMethod();
      }
    }
  }

  // ----- http_get_value -----

  /** The first entry for a letter, or the number of entries. */
  function First(entries: seq<Entry>, letter: byte): (i: nat)
    ensures i <= |entries| && (i < |entries| ==> entries[i].letter == letter)
    ensures forall j | 0 <= j < i :: entries[j].letter != letter
  {
    if entries == [] || entries[0].letter == letter then 0 else 1 + First(entries[1..], letter)
  }

  /** The first pair whose name starts with a letter, or the number of pairs. */
  function FirstPair(pairs: seq<Pair>, letter: byte): (i: nat)
    ensures i <= |pairs| && (i < |pairs| ==> pairs[i].letter == letter)
    ensures forall j | 0 <= j < i :: pairs[j].letter != letter
  {
    if pairs == [] || pairs[0].letter == letter then 0 else 1 + FirstPair(pairs[1..], letter)
  }

  lemma {:induction false} EntriesAt(pairs: seq<Pair>)
    ensures |Entries(pairs)| == |pairs|
    ensures forall i | 0 <= i < |pairs| :: Entries(pairs)[i] == Entry(pairs[i].letter, Ascii(pairs[i].value))
  {
    if pairs != [] {
      EntriesAt(pairs[1..]);
    }
  }

  /** The C string at the start of some bytes. */
  function CString(s: seq<byte>): seq<byte> {
    if s == [] || s[0] == NUL then [] else [s[0]] + CString(s[1..])
  }

  lemma {:induction false} WholeString(s: seq<byte>)
    ensures CString(s) == s <==> NUL !in s
    ensures NUL !in CString(s)
  {
    if s != [] {
      WholeString(s[1..]);
    }
  }

  lemma {:induction false} StringEnds(s: seq<byte>, t: seq<byte>)
    requires s + [NUL] <= t
    ensures CString(t) == CString(s)
  {
    assert t[..|s| + 1] == s + [NUL] && t[0] == (s + [NUL])[0];
    if s != [] {
      assert t[1..][..|s|] == (s + [NUL])[1..] == s[1..] + [NUL];
      StringEnds(s[1..], t[1..]);
    }
  }

  /** Looking up a letter in the table of an encoded request gives the first value whose name starts with
      it, and fails if there is no such name. The C string found is that value if and only if all its bytes are
      below 128. In the values before it, the byte 128 must not occur, which is decoded to NUL. */
  lemma LookupDecodes(verb: seq<byte>, path: seq<byte>, pairs: seq<Pair>, after: seq<byte>, letter: byte)
    requires verb != [] && verb[0] != 0x2f && Without(verb, ENDS)
    requires Without(path, ENDS + SIGNS)
    requires forall i | 0 <= i < |pairs| :: GoodName(pairs[i]) && NUL !in pairs[i].value
    requires forall i | 0 <= i < FirstPair(pairs, letter) :: 0x80 !in pairs[i].value
    requires After(after) && letter > 2
    ensures var entries := Decoded(verb, path, pairs);
            var i := FirstPair(pairs, letter);
            && Holds(Table(Request(verb, path, pairs, after)), 0, entries) && Readable(entries, letter)
            && First(entries, letter) == 2 + i && |entries| == 2 + |pairs|
            && (i < |pairs| ==>
                (CString(entries[2 + i].value) == pairs[i].value
                 <==> forall k | 0 <= k < |pairs[i].value| :: pairs[i].value[k] < 0x80))
  {
    hide GoodName, Table, Request, Render, Ended, Delimiter, Ascii, Entries, CString;
    var entries := Decoded(verb, path, pairs);
    RequestDecoded(verb, path, pairs, after);
    EntriesAt(pairs);
    LettersGood(pairs);
    NotEndedString(verb);
    NotEndedString(path);
    var i := FirstPair(pairs, letter);
    forall j | 0 <= j < i ensures NUL !in Ascii(pairs[j].value) {
      AsciiNotNul(pairs[j].value);
    }
    FirstIs(entries, letter, 2 + i);
    if i < |pairs| {
      AsciiIsValue(pairs[i].value);
      WholeString(Ascii(pairs[i].value));
      AsciiShorter(pairs[i].value);
    }
  }

  /** A value that is cut at a NUL is not the value itself. */
  lemma AsciiShorter(value: seq<byte>)
    requires NUL !in value
    ensures NUL in Ascii(value) ==> |CString(Ascii(value))| < |value|
  {
    WholeString(Ascii(value));
    StringLength(Ascii(value));
  }

  lemma {:induction false} StringLength(s: seq<byte>)
    ensures CString(s) <= s
  {
    if s != [] {
      StringLength(s[1..]);
    }
  }

  /** That condition is needed: a value with the byte 128 is stored as two entries, the second under the letter
      behind that byte, so that a variable is found that is not in the request. */
  lemma HiddenVariable(verb: seq<byte>, path: seq<byte>, pair: Pair, letter: byte, hidden: seq<byte>, after: seq<byte>)
    requires verb != [] && verb[0] != 0x2f && Without(verb, ENDS)
    requires Without(path, ENDS + SIGNS)
    requires GoodName(pair) && pair.value == [0x80, letter] + hidden && letter < 0x80
    requires After(after)
    ensures Holds(Table(Request(verb, path, [pair], after)), 0,
                  [Entry(1, verb), Entry(2, path), Entry(pair.letter, []), Entry(letter, Ascii(hidden))])
  {
    hide GoodName, Table, Request, Ended, Delimiter;
    RequestDecoded(verb, path, [pair], after);
    var stored, found := Entry(pair.letter, Ascii(pair.value)), [Entry(pair.letter, []), Entry(letter, Ascii(hidden))];
    assert [pair][1..] == [] && Entries([pair]) == [stored];
    assert Ascii(pair.value) == [NUL, letter] + Ascii(hidden);
    RenderTwo(Entry(1, verb), Entry(2, path), [stored]);
    RenderTwo(Entry(1, verb), Entry(2, path), found);
    assert found[1..] == [Entry(letter, Ascii(hidden))] && [stored][1..] == [] && found[1..][1..] == [];
    assert Render(found) == Render([stored]);
    assert [Entry(1, verb), Entry(2, path)] + found
        == [Entry(1, verb), Entry(2, path), Entry(pair.letter, []), Entry(letter, Ascii(hidden))];
  }

  lemma {:induction false} FirstIs(entries: seq<Entry>, letter: byte, k: nat)
    requires k <= |entries| && forall j | 0 <= j < k :: entries[j].letter != letter
    requires k < |entries| ==> entries[k].letter == letter
    ensures First(entries, letter) == k
  {
    if k > 0 {
      FirstIs(entries[1..], letter, k - 1);
    }
  }

  lemma LettersGood(pairs: seq<Pair>)
    requires forall i | 0 <= i < |pairs| :: GoodName(pairs[i])
    ensures forall i | 0 <= i < |pairs| :: pairs[i].letter != NUL
  {
    forall i | 0 <= i < |pairs| ensures pairs[i].letter != NUL {
      assert GoodName(pairs[i]);
    }
  }

  lemma NotEndedString(s: seq<byte>)
    requires Without(s, ENDS)
    ensures NUL !in s
  {
    forall i | 0 <= i < |s| ensures s[i] != NUL {
      assert s[i] !in ENDS;
    }
  }

  lemma AsciiNotNul(value: seq<byte>)
    requires NUL !in value && 0x80 !in value
    ensures NUL !in Ascii(value)
  {
    forall i | 0 <= i < |value| ensures Ascii(value)[i] != NUL {
      assert value[i] in value;
    }
  }

  /** Up to the first entry for a letter, the entries are told apart by their NULs. */
  ghost predicate Readable(entries: seq<Entry>, letter: byte) {
    && (forall i | 0 <= i < First(entries, letter) :: entries[i].letter != NUL && NUL !in entries[i].value)
    && (First(entries, letter) < |entries| ==> letter != NUL)
  }

  ghost predicate Holds(table: seq<byte>, at: nat, entries: seq<Entry>) {
    at <= |table| && Render(entries) + [NUL] <= table[at..]
  }

  lemma HoldsStep(table: seq<byte>, at: nat, entries: seq<Entry>)
    requires Holds(table, at, entries)
    ensures at < |table| && (entries == [] ==> table[at] == NUL)
    ensures entries != [] ==>
              var first := entries[0];
              var end := at + 1 + |first.value|;
              && end < |table| && table[at] == first.letter
              && table[at + 1..end] == first.value && table[end] == NUL
              && Holds(table, end + 1, entries[1..])
  {
    var s := Render(entries) + [NUL];
    assert s[0] == table[at..][0];
    if entries != [] {
      var first, n := entries[0], |entries[0].value|;
      assert s == [first.letter] + first.value + [NUL] + (Render(entries[1..]) + [NUL]);
      assert table[at..][..|s|] == s;
      assert table[at + 1..at + 1 + n] == s[1..1 + n] == first.value;
      assert table[at..][1 + n] == s[1 + n] == NUL;
      assert table[at + n + 2..][..|s| - n - 2] == s[n + 2..] == Render(entries[1..]) + [NUL];
    }
  }

  /** Skipping one value; the pointer ends on the byte behind its NUL. */
  method SkipEntry(table: seq<byte>, at: nat, ghost n: nat) returns (next: nat)
    requires at + 1 + n < |table| && NUL !in table[at + 1..at + 1 + n] && table[at + 1 + n] == NUL
    ensures next == at + n + 2
  {
    next := at + 1;
    ghost var value := table[at + 1..at + 1 + n];
    while table[next] != NUL
      invariant at + 1 <= next <= at + 1 + n
      invariant next < at + 1 + n ==> table[next] == value[next - at - 1]
      decreases at + 1 + n - next
    {
      next := next + 1;
    }
    next := next + 1;
  }

  lemma ValueAt(table: seq<byte>, at: nat, v: seq<byte>)
    requires at + |v| < |table| && table[at..at + |v|] == v && table[at + |v|] == NUL
    ensures v + [NUL] <= table[at..] && CString(table[at..]) == CString(v)
  {
    hide CString;
    SliceEnd(table, at, at + |v|);
    SliceStarts(table, at, at + |v| + 1);
    StringEnds(v, table[at..]);
  }

  /** What is known of an entry that the search comes to. */
  lemma Reached(entries: seq<Entry>, letter: byte, rest: seq<Entry>)
    requires Readable(entries, letter) && rest != [] && |rest| <= |entries| && rest == entries[|entries| - |rest|..]
    requires First(entries, letter) == |entries| - |rest| + First(rest, letter)
    ensures rest[0].letter != NUL && rest[1..] == entries[|entries| - |rest| + 1..]
    ensures rest[0].letter == letter ==> First(rest, letter) == 0
    ensures rest[0].letter != letter ==> NUL !in rest[0].value && First(rest, letter) == 1 + First(rest[1..], letter)
  {
    assert rest[0] == entries[|entries| - |rest|];
  }

  /** http_get_value: the first value stored under the letter, or none. */
  method GetValue(table: seq<byte>, letter: byte, ghost entries: seq<Entry>) returns (found: bool, value: nat)
    requires Holds(table, 0, entries) && Readable(entries, letter)
    ensures found <==> letter != NUL && First(entries, letter) < |entries|
    ensures found ==> var v := entries[First(entries, letter)].value;
              value < |table| && v + [NUL] <= table[value..] && CString(table[value..]) == CString(v)
  {
    hide Holds, Render, CString, First, Readable;
    var at: nat := 0;
    ghost var rest := entries;
    HoldsStep(table, at, rest);
    while table[at] != NUL
      invariant Holds(table, at, rest) && at < |table|
      invariant |rest| <= |entries| && rest == entries[|entries| - |rest|..]
      invariant First(entries, letter) == |entries| - |rest| + First(rest, letter)
      decreases |rest|
    {
      HoldsStep(table, at, rest);
      Reached(entries, letter, rest);
      if table[at] == letter {
        ValueAt(table, at + 1, rest[0].value);
        return true, at + 1;
      }
      at := SkipEntry(table, at, |rest[0].value|);
      rest := rest[1..];
      HoldsStep(table, at, rest);
    }
    HoldsStep(table, at, rest);
    if rest != [] {
      Reached(entries, letter, rest);
    }
    found, value := false, 0;
  }
}
