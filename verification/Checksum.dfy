/**
 * The Internet checksum of client/mozilla/pingsender.cpp, proved against the definition in
 * section 1 of RFC 1071 and its byte-order independence in section 2(B).
 */
module Checksum {
  import opened Buffers

  type Word = x: int | 0 <= x < 0x1_0000
  /** The accumulator is a 32-bit signed integer; leaving its range would not verify. */
  newtype Int32 = x: int | -0x8000_0000 <= x < 0x8000_0000

  /** A 16-bit word as the host reads it from two bytes in memory. */
  function AsWord(first: Byte, second: Byte, little: bool): Word {
    if little then first + 0x100 * second else 0x100 * first + second
  }

  /** The two bytes in memory of a word as the host stores it. */
  function AsBytes(w: Word, little: bool): (b: seq<Byte>)
    ensures |b| == 2 && AsWord(b[0], b[1], little) == w
  {
    if little then [w % 0x100, w / 0x100] else [w / 0x100, w % 0x100]
  }

  /** The words of a buffer; an odd last byte is paired with zero. */
  function Words(data: seq<Byte>, little: bool): (ws: seq<Word>)
    ensures |ws| == (|data| + 1) / 2
  {
    seq((|data| + 1) / 2, i requires 0 <= i < (|data| + 1) / 2 =>
      AsWord(data[2 * i], if 2 * i + 1 < |data| then data[2 * i + 1] else 0, little))
  }

  function Sum(ws: seq<Word>): nat {
    if ws == [] then 0 else Sum(ws[..|ws| - 1]) + ws[|ws| - 1]
  }

  // ------------------------------------------------------------ one's complement

  /** Addition with the carry brought back in at the low end. */
  function OnesAdd(a: Word, b: Word): Word {
    if a + b > 0xffff then a + b - 0xffff else a + b
  }

  function OnesSum(ws: seq<Word>): Word {
    if ws == [] then 0 else OnesAdd(OnesSum(ws[..|ws| - 1]), ws[|ws| - 1])
  }

  /** The representative of a number modulo 65535; only zero is represented by zero. */
  function Rep(n: nat): Word { if n == 0 then 0 else 1 + (n - 1) % 0xffff }

  lemma RepAdd(a: nat, w: Word)
    ensures OnesAdd(Rep(a), w) == Rep(a + w)
  {
    if a > 0 {
      var q, r := (a - 1) / 0xffff, (a - 1) % 0xffff;
      assert a + w - 1 == 0xffff * q + (r + w);
    }
  }

  lemma {:induction false} OnesSumIsRep(ws: seq<Word>)
    ensures OnesSum(ws) == Rep(Sum(ws))
  {
    if ws != [] {
      OnesSumIsRep(ws[..|ws| - 1]);
      RepAdd(Sum(ws[..|ws| - 1]), ws[|ws| - 1]);
    }
  }

  /** Two folds, then truncation to sixteen bits. */
  function Folded(sum: nat): Word {
    var once := sum / 0x1_0000 + sum % 0x1_0000;
    (once + once / 0x1_0000) % 0x1_0000
  }

  /** Two folds are enough for every sum that a 31-bit accumulator can hold. */
  lemma TwoFoldsSuffice(sum: nat)
    requires sum < 0x8000_0000
    ensures Folded(sum) == Rep(sum)
  {
    var q, r := sum / 0x1_0000, sum % 0x1_0000;
    assert sum == 0xffff * q + (q + r);
    if sum > 0 {
      if q + r <= 0xffff {
        assert q + r >= 1;
        assert (sum - 1) % 0xffff == q + r - 1;
      } else {
        assert sum - 1 == 0xffff * (q + 1) + (q + r - 1 - 0xffff);
        assert (sum - 1) % 0xffff == q + r - 1 - 0xffff;
      }
    }
  }

  lemma {:induction false} SumBound(ws: seq<Word>)
    ensures Sum(ws) <= 0xffff * |ws|
  {
    if ws != [] { SumBound(ws[..|ws| - 1]); }
  }

  lemma NextWord(ws: seq<Word>, n: nat)
    requires n < |ws| <= 0x8000
    ensures Sum(ws[..n + 1]) == Sum(ws[..n]) + ws[n] < 0x8000_0000
  {
    assert ws[..n + 1][..n] == ws[..n];
    SumBound(ws[..n + 1]);
  }

  /** The accumulation loop and the odd byte of PingSender::inetChecksum. */
  method Accumulate(data: seq<Byte>, little: bool) returns (sum: Int32)
    requires |data| <= 0x1_0000
    ensures sum as int == Sum(Words(data, little))
  {
    var nleft, w, n := |data|, 0, 0;
    sum := 0;
    ghost var ws := Words(data, little);
    while nleft > 1
      invariant 0 <= nleft && w == 2 * n && w + nleft == |data|
      invariant sum as int == Sum(ws[..n])
      decreases nleft
    {
      NextWord(ws, n);
      sum := sum + AsWord(data[w], data[w + 1], little) as Int32;
      w, n, nleft := w + 2, n + 1, nleft - 2;
    }
    if nleft == 1 {
      NextWord(ws, n);
      sum := sum + AsWord(data[w], 0, little) as Int32;
      n := n + 1;
    }
    assert ws[..n] == ws;
  }

  /** PingSender::inetChecksum: the complement of the one's-complement sum of the words. */
  method InetChecksum(data: seq<Byte>, little: bool) returns (answer: Word)
    requires |data| <= 0x1_0000
    ensures answer == 0xffff - OnesSum(Words(data, little))
  {
    var sum := Accumulate(data, little);
    TwoFoldsSuffice(sum as int);
    OnesSumIsRep(Words(data, little));
    sum := sum / 0x1_0000 + sum % 0x1_0000;
    sum := sum + sum / 0x1_0000;
    answer := 0xffff - (sum as int) % 0x1_0000;
  }

  // ------------------------------------------------------------ the receiver's test

  lemma {:induction false} SumUpdate(ws: seq<Word>, i: nat, c: Word)
    requires i < |ws|
    ensures Sum(ws[i := c]) == Sum(ws) - ws[i] + c
  {
    var n := |ws| - 1;
    if i == n {
      assert ws[i := c][..n] == ws[..n];
    } else {
      SumUpdate(ws[..n], i, c);
      assert ws[i := c][..n] == ws[..n][i := c];
    }
  }

  /**
   * With the word at `i` zero, exactly these values in its place make the recomputed checksum
   * zero: the checksum itself, and all ones when it is already zero.
   */
  lemma FieldMakesZeroIff(ws: seq<Word>, i: nat, c: Word)
    requires i < |ws| && ws[i] == 0
    ensures 0xffff - OnesSum(ws[i := c]) == 0
            <==> c == 0xffff - OnesSum(ws) || (c == 0xffff && OnesSum(ws) == 0xffff)
  {
    SumUpdate(ws, i, c);
    OnesSumIsRep(ws);
    OnesSumIsRep(ws[i := c]);
    RepAdd(Sum(ws), c);
  }

  /** In memory: writing the checksum into a zeroed, aligned field of the packet. */
  lemma StoredChecksumVerifies(data: seq<Byte>, n: nat, little: bool)
    requires 2 * n + 1 < |data| && data[2 * n] == data[2 * n + 1] == 0
    ensures var b := AsBytes(0xffff - OnesSum(Words(data, little)), little);
            0xffff - OnesSum(Words(data[2 * n := b[0]][2 * n + 1 := b[1]], little)) == 0
  {
    var ws := Words(data, little);
    var c := 0xffff - OnesSum(ws);
    var b := AsBytes(c, little);
    WordsUpdated(data, n, b[0], b[1], little);
    assert ws[n] == 0;
    FieldMakesZeroIff(ws, n, c);
  }

  lemma WordsUpdated(data: seq<Byte>, n: nat, x: Byte, y: Byte, little: bool)
    requires 2 * n + 1 < |data|
    ensures Words(data[2 * n := x][2 * n + 1 := y], little) == Words(data, little)[n := AsWord(x, y, little)]
  {
    var sent := data[2 * n := x][2 * n + 1 := y];
    var ws, vs := Words(data, little), Words(sent, little);
    forall i | 0 <= i < |ws| && i != n ensures vs[i] == ws[i] {
      assert sent[2 * i] == data[2 * i];
      assert 2 * i + 1 < |data| ==> sent[2 * i + 1] == data[2 * i + 1];
    }
  }

  // ------------------------------------------------------------ byte order

  function Swap(w: Word): Word { 0x100 * (w % 0x100) + w / 0x100 }

  lemma RepShift(n: nat, k: nat)
    ensures n > 0 ==> Rep(n + 0xffff * k) == Rep(n)
  {
  }

  lemma SwapAdd(a: Word, b: Word)
    ensures Swap(OnesAdd(a, b)) == OnesAdd(Swap(a), Swap(b))
  {
    SwapIsRep(a);
    SwapIsRep(b);
    SwapIsRep(OnesAdd(a, b));
    RepAdd(0x100 * a, Swap(b));
    var high := b / 0x100;
    if a + b <= 0xffff {
      RepShift(0x100 * a + Swap(b), high);
    } else {
      assert 0x100 * a + Swap(b) == 0x100 * OnesAdd(a, b) + 0xffff * (0x100 - high);
      RepShift(0x100 * OnesAdd(a, b), 0x100 - high);
    }
  }

  /** Swapping the bytes is multiplying by 256 modulo 65535. */
  lemma SwapIsRep(w: Word)
    ensures Swap(w) == Rep(0x100 * w)
    ensures 0x100 * w - Swap(w) == 0xffff * (w / 0x100)
  {
    var high, low := w / 0x100, w % 0x100;
    assert 0x100 * w == 0xffff * high + Swap(w);
    if w > 0 { assert (0x100 * w - 1) % 0xffff == Swap(w) - 1; }
  }

  function SwapAll(ws: seq<Word>): (s: seq<Word>)
    ensures |s| == |ws|
  {
    seq(|ws|, i requires 0 <= i < |ws| => Swap(ws[i]))
  }

  lemma {:induction false} SwapSum(ws: seq<Word>)
    ensures OnesSum(SwapAll(ws)) == Swap(OnesSum(ws))
  {
    if ws != [] {
      var n := |ws| - 1;
      SwapSum(ws[..n]);
      assert SwapAll(ws)[..n] == SwapAll(ws[..n]);
      SwapAdd(OnesSum(ws[..n]), ws[n]);
    }
  }

  lemma WordsSwapped(data: seq<Byte>)
    ensures Words(data, true) == SwapAll(Words(data, false))
  {
    var a, b := Words(data, true), Words(data, false);
    forall i | 0 <= i < |a| ensures a[i] == Swap(b[i]) {
      SwapPair(data[2 * i], if 2 * i + 1 < |data| then data[2 * i + 1] else 0);
    }
  }

  lemma SwapPair(x: Byte, y: Byte)
    ensures Swap(AsWord(x, y, false)) == AsWord(x, y, true)
  {
  }

  lemma ComplementSwap(w: Word)
    ensures AsBytes(0xffff - Swap(w), true) == AsBytes(0xffff - w, false)
  {
    var high, low := 0xff - w / 0x100, 0xff - w % 0x100;
    assert 0xffff - w == 0x100 * high + low;
    assert 0xffff - Swap(w) == 0x100 * low + high;
    Digits(high, low);
    Digits(low, high);
  }

  lemma Digits(high: Byte, low: Byte)
    ensures (0x100 * high + low) / 0x100 == high && (0x100 * high + low) % 0x100 == low
  {
  }

  /** Hosts of either byte order put the same two bytes into the packet. */
  lemma ByteOrderIndependent(data: seq<Byte>)
    ensures AsBytes(0xffff - OnesSum(Words(data, true)), true) == AsBytes(0xffff - OnesSum(Words(data, false)), false)
  {
    WordsSwapped(data);
    SwapSum(Words(data, false));
    ComplementSwap(OnesSum(Words(data, false)));
  }
}
