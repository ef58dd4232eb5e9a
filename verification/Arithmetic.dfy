/** arithmetic.s: multi-byte accumulators, least significant byte first, updated in place. */
module Arithmetic {
  import opened Bytes

  /** Value of a little-endian byte string. */
  function Value(s: seq<byte>): nat {
    if s == [] then 0 else s[0] + 0x100 * Value(s[1..])
  }

  /** 0x100 to the power n. */
  function Radix(n: nat): (r: nat)
    ensures r > 0
  {
    if n == 0 then 1 else 0x100 * Radix(n - 1)
  }

  lemma {:induction false} ValueBound(s: seq<byte>)
    ensures Value(s) < Radix(|s|)
  {
    if s != [] { ValueBound(s[1..]); }
  }

  /** Two strings of one length are equal exactly if their values are: comparing bytes compares numbers. */
  lemma {:induction false} ValueInjective(s: seq<byte>, t: seq<byte>)
    requires |s| == |t|
    ensures s == t <==> Value(s) == Value(t)
  {
    if s != [] {
      ValueInjective(s[1..], t[1..]);
      if Value(s) == Value(t) {
        assert s[0] - t[0] == 0x100 * (Value(t[1..]) - Value(s[1..]));
      }
      assert s == [s[0]] + s[1..] && t == [t[0]] + t[1..];
    }
  }

  /** The carry chain as a function: the sum of two strings of one length and the carry out. */
  function Sum(s: seq<byte>, t: seq<byte>, carry: nat): (r: (seq<byte>, nat))
    requires |s| == |t| && carry <= 1
    ensures |r.0| == |s| && r.1 <= 1
  {
    if s == [] then ([], carry)
    else
      var low := Adc(s[0], t[0], carry);
      var high := Sum(s[1..], t[1..], low.1);
      ([low.0] + high.0, high.1)
  }

  lemma {:induction false} SumValue(s: seq<byte>, t: seq<byte>, carry: nat)
    requires |s| == |t| && carry <= 1
    ensures Value(Sum(s, t, carry).0) + Radix(|s|) * Sum(s, t, carry).1 == Value(s) + Value(t) + carry
  {
    if s != [] {
      var low := Adc(s[0], t[0], carry);
      var high := Sum(s[1..], t[1..], low.1);
      SumValue(s[1..], t[1..], low.1);
      assert Sum(s, t, carry).0[1..] == high.0;
      assert Radix(|s|) * high.1 == 0x100 * (Radix(|s| - 1) * high.1);
    }
  }

  lemma SumModulo(s: seq<byte>, t: seq<byte>)
    requires |s| == |t|
    ensures Value(Sum(s, t, 0).0) == (Value(s) + Value(t)) % Radix(|s|)
  {
    var r := Sum(s, t, 0);
    SumValue(s, t, 0);
    ValueBound(r.0);
    ModuloOnce(Value(s) + Value(t), Radix(|s|), r.1, Value(r.0));
  }

  lemma ModuloOnce(p: nat, m: nat, q: nat, r: nat)
    requires q <= 1 && r < m && p == r + m * q
    ensures r == p % m
  {
    if q == 1 {
      assert (p - m) % m == p % m;
    }
  }

  // ----- The code -----

  /** add_16_32, and add_32_32 for a four-byte operand: acc = acc + op, modulo 2^32. */
  method Add(acc: array<byte>, op: seq<byte>)
    requires acc.Length == |op|
    modifies acc
    ensures Value(acc[..]) == (old(Value(acc[..])) + Value(op)) % Radix(|op|)
  {
    hide Sum;
    var y, carry := 0, 0;
    ghost var before := acc[..];
    while y < acc.Length
      invariant 0 <= y <= acc.Length && carry <= 1
      invariant acc[y..] == before[y..]
      invariant Sum(before, op, 0).0 == acc[..y] + Sum(before[y..], op[y..], carry).0
    {
      ghost var done := acc[..y];
      SumStep(before, op, y, carry);
      var r := Adc(op[y], acc[y], carry);
      acc[y], carry := r.0, r.1;
      y := y + 1;
      assert acc[..y] == done + [r.0];
    }
    assert acc[..] == Sum(before, op, 0).0;
    SumModulo(before, op);
  }

  lemma SumStep(s: seq<byte>, t: seq<byte>, y: nat, carry: nat)
    requires |s| == |t| && y < |s| && carry <= 1
    ensures var r := Adc(t[y], s[y], carry);
            Sum(s[y..], t[y..], carry).0 == [r.0] + Sum(s[y + 1..], t[y + 1..], r.1).0
  {
    assert s[y..][1..] == s[y + 1..] && t[y..][1..] == t[y + 1..];
  }

  method Add16To32(acc: array<byte>, ax: word)
    requires acc.Length == 4
    modifies acc
    ensures Value(acc[..]) == (old(Value(acc[..])) + ax) % 0x1_0000_0000
  {
    var op := [Lo(ax), Hi(ax), 0, 0];
    assert Value(op[2..]) == 0 by { assert Value(op[2..][1..][1..]) == 0; }
    assert Value(op) == ax by { assert op[1..][1..] == op[2..]; }
    assert Radix(4) == 0x1_0000_0000;
    Add(acc, op);
  }

  /** cmp_32_32 and cmp_16_16: bytes are compared from the low end and the first difference decides. */
  method Equal(acc: seq<byte>, op: seq<byte>) returns (equal: bool)
    requires |acc| == |op|
    ensures equal <==> Value(acc) == Value(op)
  {
    ValueInjective(acc, op);
    var y := 0;
    while y < |acc|
      invariant 0 <= y <= |acc| && acc[..y] == op[..y]
    {
      if op[y] != acc[y] { return false; }
      y := y + 1;
    }
    equal := true;
  }

  /** The 6502 `sbc` on a 16-bit pair. */
  function Sub16(a: word, b: word): word {
    (a - b) % 0x1_0000
  }

  /** sub_16_16. */
  method Sub16From16(acc: array<byte>, ax: word)
    requires acc.Length == 2
    modifies acc
    ensures Word(acc[0], acc[1]) == Sub16(old(Word(acc[0], acc[1])), ax)
  {
    var low: int := acc[0] as int - Lo(ax);
    var borrow := if low < 0 then 1 else 0;
    var high: int := acc[1] as int - Hi(ax) - borrow;
    SubtractBytes(Word(acc[0], acc[1]), ax, acc[0], acc[1], low, high);
    acc[0], acc[1] := low % 0x100, high % 0x100;
  }

  lemma SubtractBytes(a: word, b: word, a0: byte, a1: byte, low: int, high: int)
    requires a == Word(a0, a1) && low == a0 - Lo(b) && high == a1 - Hi(b) - if low < 0 then 1 else 0
    ensures Word(low % 0x100, high % 0x100) == Sub16(a, b)
  {
    LoHiOf(b);
    hide Lo, Hi;
    Borrowed(low, 0x100);
    Borrowed(high, 0x100);
    Borrowed(a - b, 0x1_0000);
  }

  lemma LoHiOf(w: word)
    ensures w == Lo(w) + 0x100 * Hi(w) as int
  {
  }

  /** mul_8_16: the multiplicand is added to itself, the count running down in X. */
  method Mul8By16(acc: word, a: byte) returns (r: word)
    ensures r == acc * a % 0x1_0000
  {
    if a == 0 { return 0; }
    r := acc;
    var x := a - 1;
    while x != 0
      invariant 0 <= x < a
      invariant r == acc * (a - x) % 0x1_0000
    {
      ProductStep(acc, a - x);
      r := (r + acc) % 0x1_0000;
      x := x - 1;
    }
  }

  lemma ProductStep(acc: nat, n: nat)
    ensures (acc * n % 0x1_0000 + acc) % 0x1_0000 == acc * (n + 1) % 0x1_0000
  {
    assert acc * (n + 1) == acc * n + acc;
  }
}
