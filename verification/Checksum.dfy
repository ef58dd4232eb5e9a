/** The Internet checksum of ip.s: a page loop, an odd-byte step, a backward word loop and
    two carry-folding loops, against the one's complement sum of RFC 1071. */
module Checksum {
  import opened Bytes

  // ----- Reference: RFC 1071 -----

  /** One's complement addition: the carry out of bit 15 is added back in. */
  function OcAdd(a: word, b: word): word {
    if a + b < 0x1_0000 then a + b else a + b - 0xffff
  }

  /** One's complement sum of the words of `s` in network byte order, odd tail padded with zero. */
  function NetSum(s: seq<byte>): word {
    if |s| == 0 then 0
    else if |s| == 1 then Word(0, s[0])
    else OcAdd(Word(s[1], s[0]), NetSum(s[2..]))
  }

  // ----- The plain sum the code accumulates: first byte of each pair is the low byte -----

  function Words(s: seq<byte>): nat {
    if |s| == 0 then 0
    else if |s| == 1 then s[0]
    else Word(s[0], s[1]) + Words(s[2..])
  }

  /** `v` stands for the plain sum `n` modulo end-around carry. Zero is kept apart from 0xffff. */
  ghost predicate Folds(v: nat, n: nat) {
    (exists k: nat :: n == Carried(v, k)) && (v == 0 <==> n == 0)
  }

  /** `v` with `k` carries out of bit 15 not yet taken away (0x10000 less the 1 added back in). */
  ghost function Carried(v: nat, k: nat): nat {
    v + 0xffff * k
  }

  lemma FoldsSelf(v: nat)
    ensures Folds(v, v)
  {
    assert v == Carried(v, 0);
  }

  lemma {:induction false} WordsAppend(p: seq<byte>, q: seq<byte>)
    requires |p| % 2 == 0
    ensures Words(p + q) == Words(p) + Words(q)
  {
    if p == [] {
      assert p + q == q;
    } else {
      assert (p + q)[2..] == p[2..] + q;
      WordsAppend(p[2..], q);
    }
  }

  lemma WordsSplit(s: seq<byte>, i: nat)
    requires i <= |s| && i % 2 == 0
    ensures Words(s) == Words(s[..i]) + Words(s[i..])
  {
    assert s == s[..i] + s[i..];
    WordsAppend(s[..i], s[i..]);
  }

  lemma WordsNextPair(s: seq<byte>, i: nat)
    requires i % 2 == 0 && i + 2 <= |s|
    ensures Words(s[..i + 2]) == Words(s[..i]) + Word(s[i], s[i + 1])
  {
    assert s[..i + 2] == s[..i] + s[i..i + 2];
    WordsAppend(s[..i], s[i..i + 2]);
    assert Words(s[i..i + 2][2..]) == 0;
  }

  /** One `lda/adc/sta` pair: the carry out is worth one unit of the next low byte. */
  lemma FoldsStep(v: nat, n: nat, w: nat, v': nat, carry: nat)
    requires Folds(v, n)
    requires v' + 0xffff * carry == v + w
    requires v' == 0 ==> carry == 0
    ensures Folds(v', n + w)
  {
    var k: nat :| n == Carried(v, k);
    assert n + w == Carried(v', k + carry);
  }

  lemma FoldsNextPair(s: seq<byte>, i: nat, v: nat, v': nat, carry: nat)
    requires i % 2 == 0 && i + 2 <= |s|
    requires Folds(v, Words(s[..i]))
    requires v' + 0xffff * carry == v + Word(s[i], s[i + 1])
    requires v' == 0 ==> carry == 0
    ensures Folds(v', Words(s[..i + 2]))
  {
    WordsNextPair(s, i);
    FoldsStep(v, Words(s[..i]), Word(s[i], s[i + 1]), v', carry);
  }

  // ----- The code -----

  /** `lda/adc/sta` on a pair of bytes. */
  method AddPair(b0: byte, b1: byte, lo0: byte, hi0: byte, carry0: nat) returns (lo: byte, hi: byte, carry: nat)
    requires carry0 <= 1
    ensures carry <= 1 && Word(lo, hi) + 0x1_0000 * carry == Word(lo0, hi0) + Word(b0, b1) + carry0
  {
    var low := Adc(b0, lo0, carry0);
    var high := Adc(b1, hi0, low.1);
    lo, hi, carry := low.0, high.0, high.1;
  }

  /** The loop over whole pages (`end` is their size): ascending pairs, the carry of one pair
      entering the next one. `at` is the pointer plus Y, which counts a page before the pointer moves. */
  method PageLoop(data: seq<byte>, end: nat) returns (lo: byte, hi: byte, carry: nat)
    requires end <= |data| && end % 2 == 0
    ensures carry <= 1 && Folds(Word(lo, hi) + carry, Words(data[..end]))
  {
    hide Folds;
    lo, hi, carry := 0, 0, 0;
    var at := 0;
    FoldsSelf(0);
    while at != end
      invariant 0 <= at <= end && at % 2 == 0
      invariant carry <= 1
      invariant Folds(Word(lo, hi) + carry, Words(data[..at]))
      decreases end - at
    {
      ghost var before := Word(lo, hi) + carry;
      lo, hi, carry := AddPair(data[at], data[at + 1], lo, hi, carry);
      FoldsNextPair(data, at, before, Word(lo, hi) + carry, carry);
      at := at + 2;
    }
  }

  /** `adc #0` on both bytes until no carry is left. */
  method FoldCarry(lo0: byte, hi0: byte, carry0: nat, ghost n: nat) returns (lo: byte, hi: byte)
    requires carry0 <= 1 && Folds(Word(lo0, hi0) + carry0, n)
    ensures Folds(Word(lo, hi), n)
  {
    var low := Adc(lo0, 0, carry0);
    var high := Adc(hi0, 0, low.1);
    FoldsStep(Word(lo0, hi0) + carry0, n, 0, Word(low.0, high.0) + high.1, high.1);
    lo, hi := low.0, high.0;
    var carry := high.1;
    while carry == 1
      invariant carry <= 1 && (carry == 1 ==> lo == 0 && hi == 0)
      invariant Folds(Word(lo, hi) + carry, n)
      decreases carry
    {
      low := Adc(lo, 0, carry);
      high := Adc(hi, 0, low.1);
      lo, hi, carry := low.0, high.0, high.1;
    }
  }

  /** The step for an odd tail byte, with its own end-around increment. */
  method OddByte(b: byte, lo0: byte, hi0: byte, ghost n: nat) returns (lo: byte, hi: byte)
    requires Folds(Word(lo0, hi0), n)
    ensures Folds(Word(lo, hi), n + b)
  {
    var low := Adc(b, lo0, 0);
    lo, hi := low.0, hi0;
    ghost var around := 0;
    if low.1 == 1 {
      hi := (hi + 1) % 0x100;
      if hi == 0 {
        lo := (lo + 1) % 0x100;
        around := 1;
      }
    }
    FoldsStep(Word(lo0, hi0), n, b, Word(lo, hi), around);
  }

  /** The backward loop over the even tail, with the carry saved on the stack between rounds. */
  method BackwardLoop(tail: seq<byte>, lo0: byte, hi0: byte, ghost n: nat) returns (lo: byte, hi: byte, carry: nat)
    requires |tail| < 0x100 && |tail| % 2 == 0
    requires Folds(Word(lo0, hi0), n)
    ensures carry <= 1 && Folds(Word(lo, hi) + carry, n + Words(tail))
  {
    hide Folds;
    lo, hi, carry := lo0, hi0, 0;
    var y := |tail|;
    assert tail[y..] == [];
    while y != 0
      invariant 0 <= y <= |tail| && y % 2 == 0 && carry <= 1
      invariant Folds(Word(lo, hi) + carry, n + Words(tail[y..]))
    {
      ghost var before := Word(lo, hi) + carry;
      lo, hi, carry := AddPair(tail[y - 2], tail[y - 1], lo, hi, carry);
      assert tail[y - 2..][2..] == tail[y..];
      FoldsStep(before, n + Words(tail[y..]), Word(tail[y - 2], tail[y - 1]),
                Word(lo, hi) + carry, carry);
      y := y - 2;
    }
    assert tail[0..] == tail;
  }

  /** The part of ip_calc_cksum after the page loop. */
  method TailSum(tail: seq<byte>, lo0: byte, hi0: byte, ghost n: nat) returns (lo: byte, hi: byte)
    requires |tail| < 0x100
    requires Folds(Word(lo0, hi0), n)
    ensures Folds(Word(lo, hi), n + Words(tail))
  {
    hide Folds;
    lo, hi := lo0, hi0;
    var even := tail;
    ghost var m := n;
    if |tail| % 2 == 1 {
      OddTailSum(tail);
      even := tail[..|tail| - 1];
      lo, hi := OddByte(tail[|tail| - 1], lo, hi, n);
      m := n + tail[|tail| - 1];
    }
    var l, h, carry := BackwardLoop(even, lo, hi, m);
    lo, hi := FoldCarry(l, h, carry, m + Words(even));
  }

  /** ip_calc_cksum: the two bytes returned in A and X, which callers store in this order, are the
      one's complement of the one's complement sum in network byte order. */
  method IpCalcCksum(data: seq<byte>) returns (a: byte, x: byte)
    requires |data| < 0x1_0000
    ensures Word(x, a) == 0xffff - NetSum(data)
  {
    var lo, hi := 0, 0;
    var pages := |data| / 0x100;
    var split := |data| - |data| % 0x100;
    ghost var n := Words(data[..split]);
    FoldsSelf(0);
    if pages != 0 {
      var l, h, carry := PageLoop(data, split);
      lo, hi := FoldCarry(l, h, carry, n);
    }
    WordsSplit(data, split);
    lo, hi := TailSum(data[split..], lo, hi, n);
    Complemented(data, lo, hi);
    x := 0xff - hi;
    a := 0xff - lo;
  }

  lemma Complemented(s: seq<byte>, lo: byte, hi: byte)
    requires Folds(Word(lo, hi), Words(s))
    ensures Word(0xff - hi, 0xff - lo) == 0xffff - NetSum(s)
  {
    LoHi(lo, hi);
    SwappedFold(s, Word(lo, hi));
  }

  lemma OddTailSum(tail: seq<byte>)
    requires |tail| % 2 == 1
    ensures Words(tail) == Words(tail[..|tail| - 1]) + tail[|tail| - 1]
  {
    assert tail == tail[..|tail| - 1] + [tail[|tail| - 1]];
    WordsAppend(tail[..|tail| - 1], [tail[|tail| - 1]]);
  }

  /** Byte order independence (section 2(B) of RFC 1071): a folded little-endian sum, byte-swapped,
      is the network-order one's complement sum. */
  lemma SwappedFold(s: seq<byte>, v: word)
    requires Folds(v, Words(s))
    ensures Word(Hi(v), Lo(v)) == NetSum(s)
  {
    NetSumFolds(s);
    var k: nat :| Words(s) == Carried(v, k);
    assert 0x100 * Words(s) == Carried(Word(Hi(v), Lo(v)), 0x100 * k + Hi(v));
    FoldUnique(Word(Hi(v), Lo(v)), NetSum(s), 0x100 * Words(s));
  }

  lemma FoldUnique(u: word, v: word, n: nat)
    requires Folds(u, n) && Folds(v, n)
    ensures u == v
  {
    var j: nat, k: nat :| n == Carried(u, j) && n == Carried(v, k);
    assert u - v == 0xffff * (k - j);
  }

  lemma NetSumStep(w: word, rest: word, n: nat)
    requires Folds(rest, n)
    ensures Folds(OcAdd(w, rest), n + w)
  {
    var sum: int := w as int + rest;
    FoldsStep(rest, n, w, OcAdd(w, rest), if sum < 0x1_0000 then 0 else 1);
  }

  lemma FoldsMore(v: nat, n: nat, k: nat)
    requires Folds(v, n) && (n == 0 ==> k == 0)
    ensures Folds(v, n + 0xffff * k)
  {
    var j: nat :| n == Carried(v, j);
    assert n + 0xffff * k == Carried(v, j + k);
  }

  lemma {:induction false} NetSumFolds(s: seq<byte>)
    ensures Folds(NetSum(s), 0x100 * Words(s))
  {
    FoldsSelf(NetSum(s));
    if |s| >= 2 {
      NetSumFolds(s[2..]);
      var rest, w, n := NetSum(s[2..]), Word(s[1], s[0]), 0x100 * Words(s[2..]);
      NetSumStep(w, rest, n);
      FoldsMore(NetSum(s), n + w, s[1]);
    }
  }
}
