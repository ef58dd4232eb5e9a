/** Machine integers of the 6502 code: bytes, 16-bit words and 32-bit quads, as
    subranges of int, so that every wrap-around is written out where it happens. */
module Bytes {
  type byte = b: int | 0 <= b < 0x100
  type word = w: int | 0 <= w < 0x1_0000
  type quad = q: int | 0 <= q < 0x1_0000_0000

  function Lo(w: word): byte { w % 0x100 }

  function Hi(w: word): byte { w / 0x100 }

  function Word(lo: byte, hi: byte): word { lo + 0x100 * hi }

  lemma LoHi(lo: byte, hi: byte)
    ensures Lo(Word(lo, hi)) == lo && Hi(Word(lo, hi)) == hi
  {
  }

  /** The 6502 `adc`: sum byte and carry out. */
  function Adc(a: byte, b: byte, carry: nat): (r: (byte, nat))
    requires carry <= 1
    ensures r.1 <= 1 && r.0 + 0x100 * r.1 == a + b + carry
  {
    ((a + b + carry) % 0x100, (a + b + carry) / 0x100)
  }

  // ----- Division by a number that is not a constant -----

  lemma ModUnique(p: nat, m: nat, q: nat, r: nat)
    requires r < m && p == m * q + r
    ensures p % m == r
  {
    var q', r' := p / m, p % m;
    assert p == m * q' + r';
    assert m * (q - q') == r' - r && m * (q' - q) == r - r';
    if q > q' {
      MulAtLeast(m, q - q');
    } else if q' > q {
      MulAtLeast(m, q' - q);
    }
  }

  lemma DivMod(p: nat, m: nat) returns (q: nat, r: nat)
    requires m > 0
    ensures p == m * q + r && r == p % m < m
  {
    q, r := p / m, p % m;
  }

  lemma MulAtLeast(m: nat, d: nat)
    requires d >= 1
    ensures m * d >= m
  {
  }

  /** The remainder of a difference of two numbers below m. */
  lemma Borrowed(x: int, m: nat)
    requires 0 <= x + m < 2 * m
    ensures x % m == if x < 0 then x + m else x
  {
    if x < 0 {
      ModUnique(x + m, m, 0, x + m);
      assert x == m * (-1) + (x + m);
    }
  }

  // ----- Slices -----

  lemma SliceStep(s: seq<byte>, i: nat, j: nat)
    requires i < j <= |s|
    ensures s[i..j] == [s[i]] + s[i + 1..j]
  {
  }

  lemma SliceEnd(s: seq<byte>, i: nat, j: nat)
    requires i <= j < |s|
    ensures s[i..j] + [s[j]] == s[i..j + 1]
  {
  }

  lemma SliceStarts(s: seq<byte>, i: nat, j: nat)
    requires i <= j <= |s|
    ensures s[i..j] <= s[i..]
  {
  }

  /** A slice of a longer sequence, one byte longer. */
  lemma Grown(earlier: seq<byte>, later: seq<byte>, c: nat, i: nat)
    requires earlier <= later && c + i <= |earlier| && c + i < |later|
    ensures earlier[c..c + i] + [later[c + i]] == later[c..c + i + 1]
  {
  }
}
