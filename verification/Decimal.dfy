/** Decimal output of printf.s (shift-subtract division) against decimal input of string_utils.s. */
module Decimal {
  import opened Bytes
  import Arithmetic

  predicate IsDigit(b: byte) {
    0x30 <= b < 0x3a
  }

  predicate AllDigits(s: seq<byte>) {
    forall i | 0 <= i < |s| :: IsDigit(s[i])
  }

  /** The number a string of digits denotes. */
  function Number(s: seq<byte>): nat
    requires AllDigits(s)
  {
    if s == [] then 0
    else
      var last := s[|s| - 1];
      assert IsDigit(last);
      10 * Number(s[..|s| - 1]) + (last - 0x30)
  }

  /** How many of the first `limit` bytes are digits, up to the first that is not. */
  function DigitCount(s: seq<byte>, limit: nat): (n: nat)
    ensures n <= limit && n <= |s|
    ensures AllDigits(s[..n])
    ensures n < limit && n < |s| ==> !IsDigit(s[n])
  {
    if limit == 0 || s == [] || !IsDigit(s[0]) then 0 else 1 + DigitCount(s[1..], limit - 1)
  }

  /** The canonical decimal string. */
  function Digits(n: nat): (s: seq<byte>)
    ensures |s| > 0 && AllDigits(s)
  {
    if n < 10 then [0x30 + n] else Digits(n / 10) + [0x30 + n % 10]
  }

  /** Its first digit is not zero, except for the string "0". */
  lemma {:induction false} DigitsCanonical(n: nat)
    ensures Number(Digits(n)) == n
    ensures Digits(n)[0] == 0x30 <==> n == 0
  {
    if n < 10 {
      assert Digits(n)[..0] == [];
    } else {
      DigitsCanonical(n / 10);
      assert Digits(n)[..|Digits(n)| - 1] == Digits(n / 10);
    }
  }

  lemma {:induction false} DigitsLength(n: nat, k: nat)
    requires 1 <= k <= 5 && n < Power10(k)
    ensures |Digits(n)| <= k
  {
    if n >= 10 {
      DigitsLength(n / 10, k - 1);
    }
  }

  function Power10(k: nat): (r: nat)
    ensures r >= 1
  {
    if k == 0 then 1 else 10 * Power10(k - 1)
  }

  // ----- div10 -----

  function Doubled(n: nat, i: nat): nat {
    if i == 0 then n else 2 * Doubled(n, i - 1)
  }

  lemma Doubled16(n: nat)
    ensures Doubled(n, 16) == 0x1_0000 * n
  {
    assert Doubled(n, 1) == 2 * n;
    assert Doubled(n, 2) == 4 * n;
    assert Doubled(n, 4) == 0x10 * n;
    assert Doubled(n, 6) == 0x40 * n;
    assert Doubled(n, 8) == 0x100 * n;
    assert Doubled(n, 10) == 0x400 * n;
    assert Doubled(n, 12) == 0x1000 * n;
    assert Doubled(n, 14) == 0x4000 * n;
  }

  lemma ShiftedPair(quotient: word, ext: nat)
    ensures 0x1_0000 * (2 * ext + quotient / 0x8000) + 2 * (quotient as int) % 0x1_0000 == 2 * (0x1_0000 * ext + quotient)
    ensures 2 * (quotient as int) % 0x1_0000 % 2 == 0
  {
  }

  lemma DivisionDone(n: word, quotient: word, ext: nat, bits: nat)
    requires ext < 10 && 0x1_0000 * ext + quotient == 0x1_0000 * n as int - (10 * 0x1_0000 - 1) * bits
    ensures quotient == n / 10 && ext == n % 10
  {
    assert 0x1_0000 * (ext - n as int + 10 * bits) == bits - quotient;
  }

  /** Sixteen rounds of shifting the dividend into `ext` and subtracting ten. The quotient grows in
      the places the dividend has left. */
  method Div10(n: word) returns (quotient: word, ext: byte)
    ensures quotient == n / 10 && ext == n % 10
  {
    quotient, ext := n, 0;
    ghost var bits := 0;
    var y := 0x10;
    while y != 0
      invariant 0 <= y <= 0x10 && ext < 10 && bits >= 0
      invariant 0x1_0000 * ext as int + quotient == Doubled(n, 0x10 - y) - (10 * 0x1_0000 - 1) * bits
    {
      ShiftedPair(quotient, ext);
      var top := quotient / 0x8000;
      quotient := 2 * (quotient as int) % 0x1_0000;
      ext := 2 * ext + top;
      bits := 2 * bits;
      if ext >= 10 {
        ext := ext - 10;
        quotient := quotient + 1;
        bits := bits + 1;
      }
      y := y - 1;
    }
    Doubled16(n);
    DivisionDone(n, quotient, ext, bits);
  }

  // ----- printint -----

  /** The five digits of n, most significant first, without suppressing zeros. */
  function Padded(n: nat, k: nat): (s: seq<byte>)
    ensures |s| == k
  {
    if k == 0 then [] else Padded(n / 10, k - 1) + [0x30 + n % 10]
  }

  ghost predicate Zeros(s: seq<byte>, x: nat) {
    forall i | 0 <= i < x && i < |s| :: s[i] == 0x30
  }

  lemma PaddedHigh(n: nat, k: nat, x: nat)
    requires 1 <= k && x <= k
    ensures x < k ==> Padded(n, k)[x..] == Padded(n / 10, k - 1)[x..] + [0x30 + n % 10]
    ensures x < k - 1 ==> Padded(n, k)[x] == Padded(n / 10, k - 1)[x]
    ensures Zeros(Padded(n, k), x) ==> Zeros(Padded(n / 10, k - 1), x)
  {
    var high := Padded(n / 10, k - 1);
    assert Padded(n, k) == high + [0x30 + n % 10];
    if Zeros(Padded(n, k), x) {
      forall i | 0 <= i < x && i < |high| ensures high[i] == 0x30 {
        assert Padded(n, k)[i] == 0x30;
      }
    }
  }

  /** Skipping zeros from the left, but not the last digit, leaves the canonical string. */
  lemma {:induction false} PaddedSkip(n: nat, k: nat, x: nat)
    requires 1 <= k <= 5 && n < Power10(k)
    requires x < k && Zeros(Padded(n, k), x) && (x == k - 1 || Padded(n, k)[x] != 0x30)
    ensures Padded(n, k)[x..] == Digits(n)
  {
    PaddedHigh(n, k, x);
    if x == k - 1 {
      HighZero(n / 10, k - 1);
      assert Padded(n / 10, k - 1)[x..] == [];
    } else {
      PaddedNonZero(n / 10, k - 1, x);
      PaddedSkip(n / 10, k - 1, x);
    }
  }

  lemma {:induction false} HighZero(n: nat, k: nat)
    requires Zeros(Padded(n, k), k) && n < Power10(k)
    ensures n == 0
  {
    if k > 0 {
      PaddedHigh(n, k, k);
      HighZero(n / 10, k - 1);
      assert Padded(n, k)[k - 1] == 0x30;
    }
  }

  lemma {:induction false} PaddedNonZero(n: nat, k: nat, x: nat)
    requires x < k && Padded(n, k)[x] != 0x30
    ensures n > 0
  {
    if x < k - 1 {
      PaddedNonZero(n / 10, k - 1, x);
    }
  }

  /** The digit loop of printint. The array holds characters; the source adds '0' when it prints. */
  method FillDigits(n: word) returns (num: array<byte>)
    ensures fresh(num) && num[..] == Padded(n, 5)
  {
    num := new byte[5];
    var quotient, x := n, 4;
    ghost var tail := [];
    while x >= 0
      invariant -1 <= x <= 4
      invariant num[x + 1..] == tail
      invariant Padded(n, 5) == Padded(quotient, x + 1) + tail
    {
      var ext;
      ghost var before := quotient;
      quotient, ext := Div10(quotient);
      num[x] := 0x30 + ext;
      Shifted(before, x, tail);
      tail := [0x30 + ext] + tail;
      x := x - 1;
    }
  }

  lemma Shifted(n: nat, k: nat, tail: seq<byte>)
    ensures Padded(n, k + 1) + tail == Padded(n / 10, k) + ([0x30 + n % 10] + tail)
  {
  }

  /** What is printed for the byte at position x of the page that begins with the digits. */
  function Character(num: array<byte>, behind: seq<byte>, x: byte): (c: byte)
    requires num.Length == 5 && |behind| == 0xfb
    reads num
    ensures c == (num[..] + Printed(behind))[x]
  {
    if x < 5 then num[x] else (behind[x - 5] as int + 0x30) % 0x100
  }

  /** The digits from position x on. */
  method PrintRest(num: array<byte>, behind: seq<byte>, x0: byte) returns (out: seq<byte>)
    requires num.Length == 5 && |behind| == 0xfb
    ensures out == Rest(num[..] + Printed(behind), x0)
  {
    hide Rest, Printed;
    out := [];
    var x := x0;
    ghost var page: seq<byte> := num[..] + Printed(behind);
    NothingLeft(page);
    assert out + Rest(page, x) == Rest(page, x0);
    while x != 5
      invariant out + Rest(page, x) == Rest(page, x0)
      decreases |Rest(page, x)|
    {
      RestStep(page, x);
      assert out + ([page[x]] + Rest(page, Next(x))) == out + [page[x]] + Rest(page, Next(x));
      out := out + [Character(num, behind, x)];
      x := Next(x);
    }
    assert out + [] == out;
  }

  lemma NothingLeft(page: seq<byte>)
    requires |page| == 0x100
    ensures Rest(page, 5) == [] && Suppressed([], 0x20) == [0x30]
  {
  }

  lemma SuppressedZero(s: seq<byte>, fill: byte)
    ensures Suppressed([0x30] + s, fill) == [fill] + Suppressed(s, fill)
  {
    assert ([0x30] + s)[1..] == s;
  }

  function Fills(n: nat, fill: byte): (s: seq<byte>)
    ensures |s| == n
  {
    seq(n, _ => fill)
  }

  /** Leading zeros are replaced. Behind digits that are all zero, one more is printed. */
  function Suppressed(s: seq<byte>, fill: byte): seq<byte> {
    if s == [] then [0x30] else if s[0] == 0x30 then [fill] + Suppressed(s[1..], fill) else s
  }

  /** The characters that bytes are printed as. */
  function Printed(bytes: seq<byte>): (s: seq<byte>)
    ensures |s| == |bytes|
  {
    seq(|bytes|, i requires 0 <= i < |bytes| => (bytes[i] as int + 0x30) % 0x100)
  }

  /** The rest of a page of 256 characters, of which the first five are the digits, from position x to the end of
      the digits: from behind them, the position wraps around. */
  function Rest(page: seq<byte>, x: byte): seq<byte>
    requires |page| == 0x100
  {
    if x <= 5 then page[x..5] else Wrapped(page[x..], page[..5])
  }

  function Wrapped(high: seq<byte>, low: seq<byte>): seq<byte> {
    high + low
  }

  lemma WrappedStep(s: seq<byte>, i: nat, low: seq<byte>)
    requires i < |s|
    ensures Wrapped(s[i..], low) == [s[i]] + Wrapped(s[i + 1..], low)
  {
    SliceStep(s, i, |s|);
  }

  lemma WrappedEnd(s: seq<byte>, low: seq<byte>)
    ensures Wrapped(s[|s|..], low) == low
  {
  }

  lemma RestStep(page: seq<byte>, x: byte)
    requires |page| == 0x100 && x != 5
    ensures Rest(page, x) == [page[x]] + Rest(page, Next(x))
  {
    hide Wrapped;
    if x < 5 {
      SliceStep(page, x, 5);
    } else {
      WrappedStep(page, x, page[..5]);
      WrappedEnd(page, page[..5]);
    }
  }

  function Next(x: byte): byte {
    (x as int + 1) % 0x100
  }

  /** What printint prints, where `behind` is the memory behind the digits: the last digits only, as many as the
      width says; for a width above five, fill characters and all digits; from width 134 on, the position of the
      first digit, a signed byte, has become positive again, and what lies there is taken for digits as well. */
  function Field(n: word, width: byte, fill: byte, behind: seq<byte>): seq<byte>
    requires |behind| == 0xfb
  {
    if width == 0 then Digits(n)
    else if width <= 5 then Suppressed(Padded(n, 5)[5 - width..], fill)
    else if width < 0x86 then Fills(width - 5, fill) + Suppressed(Padded(n, 5), fill)
    else Suppressed(Printed(Mistaken(width, behind)) + Padded(n, 5), fill)
  }

  /** The memory that is taken for digits. */
  function Mistaken(width: byte, behind: seq<byte>): (s: seq<byte>)
    requires |behind| == 0xfb && width >= 0x86
    ensures |s| == width - 5
  {
    behind[0x100 - width..]
  }

  /** printint. */
  method PrintInt(n: word, width: byte, fill: byte, behind: seq<byte>) returns (out: seq<byte>)
    requires |behind| == 0xfb
    ensures out == Field(n, width, fill, behind)
  {
    hide Padded, Suppressed, Printed, Rest, Field;
    var num := FillDigits(n);
    if width == 0 {
      out := PrintPlain(num, behind, n);
      NoWidth(n, fill, behind);
      return;
    }
    var x := (5 - width as int) % 0x100;
    out := [];
    if x >= 0x80 {
      out := PrintLong(x, fill);
      x := 0;
    }
    ghost var page: seq<byte> := num[..] + Printed(behind);
    FirstDigit(n, width, fill, behind, page, x);
    var rest := PrintLead(num, behind, x, fill);
    out := out + rest;
  }

  lemma NoWidth(n: word, fill: byte, behind: seq<byte>)
    requires |behind| == 0xfb
    ensures Field(n, 0, fill, behind) == Digits(n)
  {
  }

  /** The field is what is printed from the first position on. */
  lemma FirstDigit(n: word, width: byte, fill: byte, behind: seq<byte>, page: seq<byte>, x: byte)
    requires |behind| == 0xfb && page == Padded(n, 5) + Printed(behind) && width > 0
    requires x == if 5 < width < 0x86 then 0 else (5 - width as int) % 0x100
    ensures x != 5
    ensures Field(n, width, fill, behind)
         == (if 5 < width < 0x86 then Fills(width - 5, fill) else []) + Suppressed(Rest(page, x), fill)
  {
    hide Padded, Suppressed;
    var digits := Padded(n, 5);
    assert page[..5] == digits;
    if width >= 0x86 {
      assert page[x..] == Printed(behind)[x - 5..] == Printed(behind[x - 5..]);
    } else if width <= 5 {
      assert page[x..5] == digits[x..];
    } else {
      assert page[0..5] == digits;
    }
    assert [] + Suppressed(Rest(page, x), fill) == Suppressed(Rest(page, x), fill);
  }

  /** Without a width: zeros are skipped, but not the last digit. */
  method PrintPlain(num: array<byte>, behind: seq<byte>, ghost n: word) returns (out: seq<byte>)
    requires num[..] == Padded(n, 5) && |behind| == 0xfb
    ensures out == Digits(n)
  {
    hide Padded;
    assert Power10(5) == 100000;
    var x := 0;
    while x < 4 && num[x] == 0x30
      invariant 0 <= x <= 4 && Zeros(num[..], x)
    {
      x := x + 1;
    }
    PaddedSkip(n, 5, x);
    out := PrintRest(num, behind, x);
    assert (num[..] + Printed(behind))[x..5] == num[..][x..];
  }

  /** Fill characters until the counter, which starts below zero, gets there. */
  method PrintLong(x0: byte, fill: byte) returns (out: seq<byte>)
    requires x0 >= 0x80
    ensures out == Fills(0x100 - x0, fill)
  {
    out := [];
    var x: int := x0;
    while x != 0x100
      invariant x0 <= x <= 0x100 && out == Fills(x - x0, fill)
      decreases 0x100 - x
    {
      out := out + [fill];
      x := x + 1;
    }
  }

  /** The digits from position x0 on, zeros at their start replaced. */
  method PrintLead(num: array<byte>, behind: seq<byte>, x0: byte, fill: byte) returns (out: seq<byte>)
    requires num.Length == 5 && |behind| == 0xfb && x0 != 5
    ensures out == Suppressed(Rest(num[..] + Printed(behind), x0), fill)
  {
    hide Rest, Printed;
    out := [];
    var x := x0;
    ghost var page: seq<byte> := num[..] + Printed(behind);
    assert out + Suppressed(Rest(page, x), fill) == Suppressed(Rest(page, x0), fill);
    while x != 5 && Character(num, behind, x) == 0x30
      invariant out + Suppressed(Rest(page, x), fill) == Suppressed(Rest(page, x0), fill)
      decreases |Rest(page, x)|
    {
      RestStep(page, x);
      SuppressedZero(Rest(page, Next(x)), fill);
      assert out + ([fill] + Suppressed(Rest(page, Next(x)), fill))
          == out + [fill] + Suppressed(Rest(page, Next(x)), fill);
      out := out + [fill];
      x := Next(x);
    }
    if x == 5 {
      NothingLeft(page);
      return out + [0x30];
    }
    RestStep(page, x);
    var rest := PrintRest(num, behind, x);
    out := out + rest;
  }

  // ----- Against the C library's field width -----

  /** A number right-justified in at least `width` characters. */
  function Justified(n: nat, width: nat, fill: byte): seq<byte> {
    var d := Digits(n);
    if |d| < width then Fills(width - |d|, fill) + d else d
  }

  lemma {:induction false} SuppressedAppend(s: seq<byte>, d: byte, fill: byte)
    ensures Suppressed(s + [d], fill) == if !Zeros(s, |s|) then Suppressed(s, fill) + [d]
                                         else if d == 0x30 then Fills(|s| + 1, fill) + [0x30] else Fills(|s|, fill) + [d]
  {
    if s == [] {
      assert [d][1..] == [];
    } else {
      assert (s + [d])[1..] == s[1..] + [d];
      SuppressedAppend(s[1..], d, fill);
      assert Zeros(s, |s|) <==> s[0] == 0x30 && Zeros(s[1..], |s| - 1) by {
        assert forall i | 0 < i < |s| :: s[i] == s[1..][i - 1];
      }
    }
  }

  lemma {:induction false} PaddedZero(n: nat, k: nat)
    requires n < Power10(k)
    ensures Zeros(Padded(n, k), k) <==> n == 0
  {
    if n > 0 {
      if Zeros(Padded(n, k), k) { HighZero(n, k); }
    } else if k > 0 {
      PaddedZero(0, k - 1);
    }
  }

  /** The digits of a number that fits, its leading zeros replaced. */
  lemma {:induction false} SuppressedFits(n: nat, k: nat, fill: byte)
    requires n < Power10(k) && k <= 5
    ensures n == 0 ==> Suppressed(Padded(n, k), fill) == Fills(k, fill) + [0x30]
    ensures n > 0 ==> |Digits(n)| <= k && Suppressed(Padded(n, k), fill) == Fills(k - |Digits(n)|, fill) + Digits(n)
  {
    if k > 0 {
      var high := Padded(n / 10, k - 1);
      SuppressedFits(n / 10, k - 1, fill);
      PaddedZero(n / 10, k - 1);
      SuppressedAppend(high, 0x30 + n % 10, fill);
    }
  }

  lemma {:induction false} SuppressedFirst(s: seq<byte>, fill: byte)
    ensures |Suppressed(s, fill)| == |s| || (|Suppressed(s, fill)| == |s| + 1 && (s != [] ==> Suppressed(s, fill)[0] == fill))
  {
    if s != [] {
      SuppressedFirst(s[1..], fill);
    }
  }

  lemma {:induction false} FewDigits(n: nat, k: nat)
    requires 1 <= k && |Digits(n)| <= k
    ensures n < Power10(k)
  {
    if n >= 10 {
      FewDigits(n / 10, k - 1);
    }
  }

  lemma {:induction false} PaddedLow(n: nat, j: nat, k: nat)
    ensures Padded(n, j + k)[j..] == Padded(n, k)
  {
    if k > 0 {
      PaddedLow(n / 10, j, k - 1);
    }
  }

  lemma WideField(n: word, width: byte, fill: byte, behind: seq<byte>)
    requires 5 < width < 0x86 && |behind| == 0xfb
    ensures n > 0 ==> |Digits(n)| <= 5 && Field(n, width, fill, behind) == Justified(n, width, fill)
    ensures n == 0 ==> |Field(n, width, fill, behind)| == width as int + 1 && |Justified(n, width, fill)| == width as int
  {
    hide Padded, Suppressed, Digits;
    assert Power10(5) == 100000;
    SuppressedFits(n, 5, fill);
    ZeroDigits();
    if n > 0 {
      var d := Digits(n);
      assert Fills(width - 5, fill) + (Fills(5 - |d|, fill) + d) == Fills(width - |d|, fill) + d;
    }
  }

  lemma ZeroDigits()
    ensures |Digits(0)| == 1
  {
  }

  lemma NarrowField(n: word, width: byte, fill: byte, behind: seq<byte>)
    requires |behind| == 0xfb && 0 < width <= 5 && |Digits(n)| <= width
    ensures n > 0 ==> Field(n, width, fill, behind) == Justified(n, width, fill)
    ensures n == 0 ==> |Field(n, width, fill, behind)| == width as int + 1 && |Justified(n, width, fill)| == width as int
  {
    hide Padded, Suppressed, Digits;
    PaddedLow(n, 5 - width, width);
    FewDigits(n, width);
    SuppressedFits(n, width, fill);
    ZeroDigits();
    if n > 0 && |Digits(n)| == width as int {
      assert Fills(0, fill) + Digits(n) == Digits(n);
    }
  }

  lemma CutField(n: word, width: byte, fill: byte, behind: seq<byte>)
    requires |behind| == 0xfb && 0 < width <= 5 && width as int < |Digits(n)| && fill in {0x20, 0x30}
    ensures Field(n, width, fill, behind) != Justified(n, width, fill)
  {
    hide Padded, Suppressed, Digits;
    PaddedLow(n, 5 - width, width);
    SuppressedFirst(Padded(n, width), fill);
    DigitsCanonical(n);
    ZeroDigits();
    assert IsDigit(Digits(n)[0]);
  }

  lemma {:induction false} SuppressedZeros(i: nat, s: seq<byte>, fill: byte)
    ensures Suppressed(Fills(i, 0x30) + s, fill) == Fills(i, fill) + Suppressed(s, fill)
  {
    if i == 0 {
      assert Fills(0, 0x30) + s == s;
      assert Fills(0, fill) + Suppressed(s, fill) == Suppressed(s, fill);
    } else {
      hide Suppressed;
      SuppressedZeros(i - 1, s, fill);
      SuppressedZero(Fills(i - 1, 0x30) + s, fill);
      assert Fills(i, 0x30) + s == [0x30] + (Fills(i - 1, 0x30) + s);
      assert Fills(i, fill) + Suppressed(s, fill) == [fill] + (Fills(i - 1, fill) + Suppressed(s, fill));
    }
  }

  /** The zeros in front of some characters, and what becomes of the rest. */
  lemma SuppressedConcat(c: seq<byte>, s: seq<byte>, fill: byte) returns (i: nat)
    ensures i <= |c| && Zeros(c, i) && (i < |c| ==> c[i] != 0x30)
    ensures Suppressed(c + s, fill) == Fills(i, fill) + if i < |c| then c[i..] + s else Suppressed(s, fill)
  {
    i := 0;
    while i < |c| && c[i] == 0x30
      invariant i <= |c| && Zeros(c, i)
    {
      i := i + 1;
    }
    assert c[..i] == Fills(i, 0x30);
    SplitAt(c, s, i);
    SuppressedZeros(i, c[i..] + s, fill);
    if i == |c| {
      assert c[i..] + s == s;
    } else {
      assert (c[i..] + s)[0] == c[i];
    }
  }

  lemma SplitAt(c: seq<byte>, s: seq<byte>, i: nat)
    requires i <= |c|
    ensures c + s == c[..i] + (c[i..] + s)
  {
  }

  /** Memory that does not show: it holds zeros, or for a number of five digits filled up with spaces, behind the
      zeros bytes that print as spaces. */
  ghost predicate Unnoticed(memory: seq<byte>, digits: nat, fill: byte) {
    exists i | 0 <= i <= |memory| :: FirstZeros(memory, i) && (i == |memory| || (fill == 0x20 && digits == 5))
  }

  ghost predicate FirstZeros(memory: seq<byte>, i: nat) {
    forall j | 0 <= j < |memory| :: memory[j] == if j < i then 0 else 0xf0
  }

  lemma WrappedField(n: word, width: byte, fill: byte, behind: seq<byte>)
    requires width >= 0x86 && |behind| == 0xfb && fill in {0x20, 0x30}
    ensures Field(n, width, fill, behind) == Justified(n, width, fill)
            <==> n > 0 && Unnoticed(Mistaken(width, behind), |Digits(n)|, fill)
  {
    hide Padded, Suppressed, Digits, Mistaken;
    var m := Mistaken(width, behind);
    var c := Printed(m);
    assert Power10(5) == 100000;
    SuppressedFits(n, 5, fill);
    ZeroDigits();
    var i := SuppressedConcat(c, Padded(n, 5), fill);
    if i == |c| {
      AllZero(m, |Digits(n)|, fill);
      if n > 0 {
        assert Fills(|c|, fill) + (Fills(5 - |Digits(n)|, fill) + Digits(n)) == Fills(width - |Digits(n)|, fill) + Digits(n);
      }
    } else {
      if Field(n, width, fill, behind) == Justified(n, width, fill) {
        ShownMemory(n, m, i, fill);
      }
      if n > 0 && Unnoticed(m, |Digits(n)|, fill) {
        HiddenMemory(n, m, i, fill);
      }
    }
  }

  lemma AllZero(m: seq<byte>, digits: nat, fill: byte)
    requires Zeros(Printed(m), |m|)
    ensures Unnoticed(m, digits, fill)
  {
    forall j | 0 <= j < |m| ensures m[j] == 0 {
      assert Printed(m)[j] == 0x30;
    }
    assert FirstZeros(m, |m|);
  }

  lemma ZerosEnd(m: seq<byte>, i: nat, k: nat)
    requires i < |m| && Zeros(Printed(m), i) && Printed(m)[i] != 0x30 && k <= |m| && FirstZeros(m, k)
    ensures k == i
  {
    assert m[i] == if i < k then 0 else 0xf0;
    if k < |m| {
      assert m[k] == 0xf0 && Printed(m)[k] == 0x20;
    }
  }

  /** The first byte that is not zero, and what follows it, is printed. */
  lemma ShownMemory(n: word, m: seq<byte>, i: nat, fill: byte)
    requires i < |m| <= 0xfa && Zeros(Printed(m), i) && Printed(m)[i] != 0x30 && fill in {0x20, 0x30}
    requires Fills(i, fill) + (Printed(m)[i..] + Padded(n, 5)) == Justified(n, |m| + 5, fill)
    ensures n > 0 && Unnoticed(m, |Digits(n)|, fill)
  {
    hide Padded, Digits;
    var c := Printed(m);
    var out, right := Fills(i, fill) + (c[i..] + Padded(n, 5)), Justified(n, |m| + 5, fill);
    FiveDigits(n);
    assert c[i] == out[i] == right[i] == fill;
    forall j | 0 <= j < |m| ensures m[j] == if j < i then 0 else 0xf0 {
      if j < i {
        assert c[j] == 0x30;
      } else {
        assert c[j] == out[j] == right[j] == fill;
      }
    }
    assert FirstZeros(m, i);
    PaddedDigits(n, 5);
    assert IsDigit(Padded(n, 5)[0]);
    assert out[|m|] == Padded(n, 5)[0] && right[|m|] == out[|m|];
  }

  lemma HiddenMemory(n: word, m: seq<byte>, i: nat, fill: byte)
    requires i < |m| <= 0xfa && Zeros(Printed(m), i) && Printed(m)[i] != 0x30
    requires n > 0 && Unnoticed(m, |Digits(n)|, fill)
    ensures Fills(i, fill) + (Printed(m)[i..] + Padded(n, 5)) == Justified(n, |m| + 5, fill)
  {
    hide Padded, Digits;
    var k :| 0 <= k <= |m| && FirstZeros(m, k) && (k == |m| || (fill == 0x20 && |Digits(n)| == 5));
    ZerosEnd(m, i, k);
    FiveDigits(n);
    assert Printed(m)[i..] == Fills(|m| - i, fill);
    assert Fills(i, fill) + Fills(|m| - i, fill) == Fills(|m|, fill);
    assert Fills(i, fill) + (Fills(|m| - i, fill) + Padded(n, 5)) == Fills(|m|, fill) + Padded(n, 5);
  }

  lemma {:induction false} PaddedDigits(n: nat, k: nat)
    ensures AllDigits(Padded(n, k))
  {
    if k > 0 {
      PaddedDigits(n / 10, k - 1);
    }
  }

  /** Five digits fill the places. */
  lemma FiveDigits(n: word)
    ensures |Digits(n)| == 5 ==> n > 0 && Padded(n, 5) == Digits(n)
    ensures |Digits(n)| <= 5
  {
    hide Padded, Suppressed, Digits;
    assert Power10(5) == 100000;
    DigitsLength(n, 5);
    ZeroDigits();
    if |Digits(n)| == 5 {
      DigitsCanonical(n);
      SuppressedFits(n, 5, 0x20);
      assert Fills(0, 0x20) + Digits(n) == Digits(n);
      SuppressedSame(Padded(n, 5));
    }
  }

  lemma SuppressedSame(s: seq<byte>)
    requires s != [] && Suppressed(s, 0x20)[0] != 0x20
    ensures Suppressed(s, 0x20) == s
  {
  }

  /** The width works as in C if and only if there is none, or the number is not zero and fits into it, and for
      widths from 134 on, the memory behind the digits does not show. Zero is printed one character too wide, and
      of longer numbers the first digits are missing. */
  lemma FieldExact(n: word, width: byte, fill: byte, behind: seq<byte>)
    requires fill in {0x20, 0x30} && |behind| == 0xfb
    ensures Field(n, width, fill, behind) == Justified(n, width, fill)
            <==> width == 0 || (&& n > 0 && |Digits(n)| <= width
                                && (width < 0x86 || Unnoticed(Mistaken(width, behind), |Digits(n)|, fill)))
  {
    hide Padded, Suppressed, Digits, Unnoticed, Mistaken;
    if width >= 0x86 {
      WrappedField(n, width, fill, behind);
      FiveDigits(n);
    } else if width > 5 {
      WideField(n, width, fill, behind);
    } else if width > 0 {
      if |Digits(n)| <= width as int {
        NarrowField(n, width, fill, behind);
      } else {
        CutField(n, width, fill, behind);
      }
    }
  }

  // ----- parse_integer -----

  lemma NumberStep(s: seq<byte>, n: nat)
    requires n < |s| && AllDigits(s[..n + 1])
    ensures AllDigits(s[..n]) && IsDigit(s[n]) && Number(s[..n + 1]) == 10 * Number(s[..n]) + (s[n] - 0x30)
  {
    var t := s[..n + 1];
    assert t[..n] == s[..n] && t[n] == s[n] && IsDigit(t[n]);
    forall i | 0 <= i < n ensures IsDigit(s[i]) {
      assert IsDigit(t[i]);
    }
  }

  lemma {:induction false} DigitCountAt(s: seq<byte>, limit: nat, n: nat)
    requires n <= limit && n <= |s| && AllDigits(s[..n])
    requires n == limit || (n < |s| && !IsDigit(s[n]))
    ensures DigitCount(s, limit) == n
  {
    if n > 0 {
      assert IsDigit(s[..n][0]);
      var t := s[1..][..n - 1];
      forall i | 0 <= i < |t| ensures IsDigit(t[i]) {
        assert IsDigit(s[..n][i + 1]);
      }
      DigitCountAt(s[1..], limit - 1, n - 1);
    }
  }

  lemma TimesTen(total: nat, digit: nat)
    ensures (total % 0x1_0000 * 10 % 0x1_0000 + digit) % 0x1_0000 == (10 * total + digit) % 0x1_0000
  {
    var q, r := total / 0x1_0000, total % 0x1_0000;
    assert 10 * total + digit == 0x1_0000 * (10 * q) + (10 * r + digit);
    var p := r * 10 / 0x1_0000;
    assert 10 * r + digit == 0x1_0000 * p + (r * 10 % 0x1_0000 + digit);
  }

  /** parse_integer: the value, modulo 65536, of the digits at the start of the string, of which at
      most 256 are looked at because the index is one byte. */
  method ParseInteger(s: seq<byte>) returns (value: word)
    requires |s| >= 0x100 || exists i | 0 <= i < |s| :: !IsDigit(s[i])
    ensures value == Number(s[..DigitCount(s, 0x100)]) % 0x1_0000
  {
    value := 0;
    var y := 0;
    while y < 0x100 && IsDigit(s[y])
      invariant 0 <= y <= 0x100 && y <= |s| && AllDigits(s[..y])
      invariant y < 0x100 ==> y < |s|
      invariant value == Number(s[..y]) % 0x1_0000
    {
      var product := Arithmetic.Mul8By16(value, 10);
      ghost var total := Number(s[..y]);
      TimesTen(total, s[y] - 0x30);
      value := (product + (s[y] - 0x30)) % 0x1_0000;
      y := y + 1;
      NumberStep(s, y - 1);
    }
    DigitCountAt(s, 0x100, y);
  }

  /** Parsing what was printed, in front of any non-digit, gives the number back. */
  method PrintThenParse(n: word, behind: seq<byte>, rest: seq<byte>) returns (value: word)
    requires |behind| == 0xfb && rest != [] && !IsDigit(rest[0])
    ensures value == n
  {
    var out := PrintInt(n, 0, 0x20, behind);
    var text := out + rest;
    assert Power10(5) == 100000;
    DigitsLength(n, 5);
    DigitsCanonical(n);
    assert !IsDigit(text[|out|]);
    assert text[..|out|] == out;
    DigitCountAt(text, 0x100, |out|);
    value := ParseInteger(text);
  }
}
