/**
 * Network masks in service/server/helper_route_mac.c: the contiguity check of `newroute`, the
 * masks built by `prefixlen` and `inet_makenetandmask`, and what the latter does to the address.
 *
 * A mask is its bits, most significant first; addresses are their bytes, first byte first.
 */
module Netmasks {
  import opened Buffers

  type Bits = seq<bool>

  function Repeat(b: bool, n: nat): (s: Bits)
    ensures |s| == n && forall i :: 0 <= i < n ==> s[i] == b
  {
    seq(n, _ => b)
  }

  function MaskOf(len: nat, width: nat): (m: Bits)
    requires len <= width
    ensures |m| == width
  {
    Repeat(true, len) + Repeat(false, width - len)
  }

  /** Leading ones, then zeros. */
  predicate Contiguous(m: Bits) {
    exists len :: 0 <= len <= |m| && m == MaskOf(len, |m|)
  }

  /**
   * The two loops of `newroute`: skip zero bits from the low end, then every remaining bit
   * must be one. Bit `i` of the value is the bit at `31 - i`.
   */
  method CheckMask(m: Bits) returns (accepted: bool)
    ensures accepted <==> Contiguous(m)
  {
    var n := |m|;
    var i := 0;
    while i < n && !m[n - 1 - i]
      invariant 0 <= i <= n
      invariant forall k :: n - i <= k < n ==> !m[k]
    {
      i := i + 1;
    }
    ghost var len := n - i;
    while i < n
      invariant n - len <= i <= n
      invariant forall k :: n - i <= k < len ==> m[k]
    {
      if !m[n - 1 - i] {
        NotContiguous(m, n - 1 - i, len - 1);
        return false;
      }
      i := i + 1;
    }
    assert m == MaskOf(len, n);
    return true;
  }

  lemma NotContiguous(m: Bits, i: nat, j: nat)
    requires i < j < |m| && !m[i] && m[j]
    ensures !Contiguous(m)
  {
    forall len | 0 <= len <= |m| ensures m != MaskOf(len, |m|) {
      var c := MaskOf(len, |m|);
      assert j < len ==> c[i];
      assert j >= len ==> !c[j];
    }
  }

  // ------------------------------------------------------------ prefixlen

  /** A byte of a mask, as its eight bits. */
  type Octet = b: Bits | |b| == 8 witness Repeat(false, 8)

  function AllBits(octets: seq<Octet>): (s: Bits)
    ensures |s| == 8 * |octets|
  {
    seq(8 * |octets|, j requires 0 <= j < 8 * |octets| => octets[j / 8][j % 8])
  }

  /** A logical shift right of a sixteen-bit word. */
  function ShiftRight(word: Bits, r: nat): (s: Bits)
    requires r <= |word|
    ensures |s| == |word|
  {
    Repeat(false, r) + word[..|word| - r]
  }

  /** (0xff00 >> r) & 0xff. */
  function TopBits(r: nat): Octet
    requires r <= 8
  {
    ShiftRight(Repeat(true, 8) + Repeat(false, 8), r)[8..]
  }

  /** Octet `i` of a mask of length `len`. */
  function MaskOctet(len: nat, i: nat): Octet {
    if 8 * i + 8 <= len then Repeat(true, 8) else if len <= 8 * i then Repeat(false, 8) else TopBits(len - 8 * i)
  }

  lemma MaskOctetsBits(octets: seq<Octet>, len: nat)
    requires len <= 8 * |octets| && forall i :: 0 <= i < |octets| ==> octets[i] == MaskOctet(len, i)
    ensures AllBits(octets) == MaskOf(len, 8 * |octets|)
  {
    var a, m := AllBits(octets), MaskOf(len, 8 * |octets|);
    forall j | 0 <= j < |a| ensures a[j] == m[j] {
      assert octets[j / 8] == MaskOctet(len, j / 8);
    }
  }

  datatype Family = Inet | Inet6 | OtherFamily

  function Width(f: Family): nat { if f.Inet? then 32 else if f.Inet6? then 128 else 0 }

  datatype PrefixResult = Unsupported | BadValue | WholeAddress | Length(n: nat)

  /**
   * `prefixlen`: the new octets of the mask, and WholeAddress (the source's -1) when the mask
   * covers the whole address. An unknown family or a bad length leaves the mask alone.
   */
  method PrefixLen(len: int, family: Family, p: array<Octet>) returns (r: PrefixResult)
    requires p.Length == Width(family) / 8
    modifies p
    ensures family.OtherFamily? ==> r == Unsupported && p[..] == old(p[..])
    ensures !family.OtherFamily? && (len < 0 || len > Width(family)) ==> r == BadValue && p[..] == old(p[..])
    ensures !family.OtherFamily? && 0 <= len <= Width(family) ==>
              && AllBits(p[..]) == MaskOf(len, Width(family)) && Contiguous(AllBits(p[..]))
              && r == if len == Width(family) then WholeAddress else Length(len)
  {
    if family.OtherFamily? { return Unsupported; }
    var max := Width(family);
    if len < 0 || max < len { return BadValue; }
    var q, rest := len / 8, len % 8;
    var i := 0;
    while i < p.Length
      invariant 0 <= i <= p.Length
      invariant forall k :: 0 <= k < i ==> p[k] == if k < q then Repeat(true, 8) else Repeat(false, 8)
    {
      p[i] := if i < q then Repeat(true, 8) else Repeat(false, 8);
      i := i + 1;
    }
    if rest > 0 { p[q] := TopBits(rest); }
    MaskOctetsBits(p[..], len);
    return if len == max then WholeAddress else Length(len);
  }

  // ------------------------------------------------------------ masks elsewhere

  /** A shift left of a word that keeps its width. */
  function ShiftLeft(word: Bits, n: nat): (s: Bits)
    requires n <= |word|
    ensures |s| == |word|
  {
    word[n..] + Repeat(false, n)
  }

  function Xor(a: Bits, b: Bits): (s: Bits)
    requires |a| == |b|
    ensures |s| == |a|
  {
    seq(|a|, i requires 0 <= i < |a| => a[i] != b[i])
  }

  /**
   * The mask of NetworkUtilities::netMaskFromIpWithSubnet (ones shifted left), that of
   * IPAddress::netmask (ones with the host bits flipped) and that of `prefixlen` are the same,
   * in both families.
   */
  lemma MasksAgree(len: nat, width: nat)
    requires len <= width
    ensures ShiftLeft(Repeat(true, width), width - len) == MaskOf(len, width)
    ensures Xor(Repeat(true, width), ShiftRight(Repeat(true, width), len)) == MaskOf(len, width)
  {
    var ones, m := Repeat(true, width), MaskOf(len, width);
    assert ShiftLeft(ones, width - len) == m;
    var x := Xor(ones, ShiftRight(ones, len));
    assert forall i :: 0 <= i < width ==> x[i] == m[i];
  }

  // ------------------------------------------------------------ inet_makenetandmask

  /** Shifts left by whole bytes until the first one is meaningful. */
  function Normalized(net: seq<Byte>): (r: seq<Byte>)
    requires |net| == 4 && Nonzero(net)
    ensures |r| == 4 && r[0] != 0
    decreases if net[0] != 0 then 0 else if net[1] != 0 then 1 else if net[2] != 0 then 2 else 3
  {
    if net[0] != 0 then net else
      var next := net[1..] + [0];
      assert next[0] == net[1] && next[1] == net[2] && next[2] == net[3];
      Normalized(next)
  }

  predicate Nonzero(net: seq<Byte>) { exists i :: 0 <= i < |net| && net[i] != 0 }

  /** The mask length is byte-aligned, covers every nonzero byte, and no shorter one does. */
  ghost predicate ShortestCover(net: seq<Byte>, bits: nat) {
    && bits % 8 == 0 && bits <= 8 * |net|
    && (forall i :: 0 <= i < |net| && bits <= 8 * i ==> net[i] == 0)
    && (bits > 0 ==> net[bits / 8 - 1] != 0)
  }

  method MakeNetAndMask(net: seq<Byte>, bits: nat) returns (outNet: seq<Byte>, mask: Bits, len: nat)
    requires |net| == 4 && bits <= 32
    ensures outNet == if Nonzero(net) then Normalized(net) else net
    ensures len <= 32 && mask == MaskOf(len, 32) && Contiguous(mask)
    ensures bits > 0 ==> len == bits
    ensures bits == 0 ==> ShortestCover(outNet, len)
  {
    outNet := net;
    if Nonzero(net) {
      while outNet[0] == 0
        invariant |outNet| == 4 && Nonzero(outNet) && Normalized(outNet) == Normalized(net)
        decreases if outNet[0] != 0 then 0 else if outNet[1] != 0 then 1 else if outNet[2] != 0 then 2 else 3
      {
        ghost var before := outNet;
        outNet := outNet[1..] + [0];
        assert before[1] == outNet[0] && before[2] == outNet[1] && before[3] == outNet[2];
      }
    }
    len := bits;
    if bits == 0 && Nonzero(net) {
      var i := 0;
      while i < 4 && outNet[3 - i] == 0
        invariant 0 <= i <= 4 && outNet[0] != 0
        invariant forall k :: 4 - i <= k < 4 ==> outNet[k] == 0
      {
        i := i + 1;
      }
      len := 32 - 8 * i;
    }
    mask := MaskOf(len, 32);
  }

  /** The address survives exactly if it is zero or its first byte is not. */
  lemma NetKeptIff(net: seq<Byte>)
    requires |net| == 4
    ensures (if Nonzero(net) then Normalized(net) else net) == net <==> !Nonzero(net) || net[0] != 0
  {
  }

  /** 0.1.2.3 with an explicit length comes out as 1.2.3.0. */
  lemma LeadingZeroIsLost()
    ensures Nonzero([0, 1, 2, 3]) && Normalized([0, 1, 2, 3]) == [1, 2, 3, 0]
  {
    var net := [0, 1, 2, 3];
    assert net[1] != 0;
    assert net[1..] + [0] == [1, 2, 3, 0];
  }
}
