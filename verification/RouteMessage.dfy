/**
 * The routing-socket messages of service/server/helper_route_mac.c: `rtmsg` packs socket
 * addresses behind the header one after the other, `print_getmsg` walks the address bits and
 * finds them again.
 */
module RouteMessage {
  import opened Buffers

  /** RTA_DST, RTA_GATEWAY, RTA_NETMASK, RTA_GENMASK, RTA_IFP and RTA_IFA are bits 0 to 5. */
  const KINDS: nat := 6
  const SPACE: nat := 512

  /** The thirty-two address bits, lowest first; only the six kinds that are packed may be set. */
  predicate Flags(f: seq<bool>) { |f| == 32 && forall k :: KINDS <= k < 32 ==> !f[k] }

  /** A socket address in its union of 128 bytes: the first byte is its length. */
  predicate Sockaddr(s: seq<Byte>) { |s| == 128 && s[0] <= 128 }

  predicate Sockaddrs(sas: seq<seq<Byte>>) { |sas| == KINDS && forall k :: 0 <= k < KINDS ==> Sockaddr(sas[k]) }

  /** ROUNDUP: up to a multiple of four, and four for a length of zero. */
  function RoundUp(a: nat): (r: nat)
    ensures r % 4 == 0 && a <= r && (a > 0 ==> r < a + 4) && (a == 0 ==> r == 4)
    ensures a <= 128 ==> r <= 128
  {
    if a > 0 then 1 + ((a - 1) - (a - 1) % 4 + 3) else 4
  }

  /** The bytes one address contributes: its rounded length, taken from the union. */
  function Chunk(sa: seq<Byte>): (c: seq<Byte>)
    requires Sockaddr(sa)
    ensures |c| == RoundUp(sa[0]) && c[0] == sa[0]
  {
    sa[..RoundUp(sa[0])]
  }

  /** The addresses of the kinds below `k`, packed. */
  function Packed(f: seq<bool>, sas: seq<seq<Byte>>, k: nat): seq<Byte>
    requires Flags(f) && Sockaddrs(sas) && k <= KINDS
  {
    if k == 0 then [] else Packed(f, sas, k - 1) + if f[k - 1] then Chunk(sas[k - 1]) else []
  }

  function Message(f: seq<bool>, sas: seq<seq<Byte>>): seq<Byte>
    requires Flags(f) && Sockaddrs(sas)
  {
    Packed(f, sas, KINDS)
  }

  lemma {:induction false} PackedGrows(f: seq<bool>, sas: seq<seq<Byte>>, k: nat, m: nat)
    requires Flags(f) && Sockaddrs(sas) && k <= m <= KINDS
    ensures Packed(f, sas, k) <= Packed(f, sas, m)
    decreases m
  {
    if k < m { PackedGrows(f, sas, k, m - 1); }
  }

  /** Where the address of kind `k` lies in the message. */
  lemma ChunkInPlace(f: seq<bool>, sas: seq<seq<Byte>>, k: nat)
    requires Flags(f) && Sockaddrs(sas) && k < KINDS && f[k]
    ensures var o, c, all := |Packed(f, sas, k)|, Chunk(sas[k]), Message(f, sas);
            o + |c| <= |all| && all[o..o + |c|] == c && all[o] == sas[k][0]
  {
    PackedGrows(f, sas, k + 1, KINDS);
    var p, c, all := Packed(f, sas, k), Chunk(sas[k]), Message(f, sas);
    assert all[..|p| + |c|] == p + c;
    assert all[|p|..|p| + |c|] == (p + c)[|p|..];
  }

  /** The copy of NEXTADDR: `chunk` goes behind what is there, the rest stays as it is. */
  method CopyTo(chunk: seq<Byte>, space: array<Byte>, at: nat)
    requires at + |chunk| <= space.Length
    modifies space
    ensures space[..at + |chunk|] == old(space[..at]) + chunk
    ensures space[at + |chunk|..] == old(space[at + |chunk|..])
  {
    for i := 0 to |chunk|
      invariant forall j :: 0 <= j < i ==> space[at + j] == chunk[j]
      invariant forall j :: 0 <= j < space.Length && !(at <= j < at + i) ==> space[j] == old(space[j])
    {
      space[at + i] := chunk[i];
    }
  }

  /** `rtmsg`, from the clearing of the buffer to the length of the message. */
  method Pack(f: seq<bool>, sas: seq<seq<Byte>>, space: array<Byte>) returns (end: nat)
    requires Flags(f) && Sockaddrs(sas) && space.Length == SPACE && |Message(f, sas)| <= SPACE
    modifies space
    ensures end == |Message(f, sas)| && space[..end] == Message(f, sas)
    ensures forall i :: end <= i < SPACE ==> space[i] == 0
  {
    Clear(space);
    end := 0;
    for k := 0 to KINDS
      invariant end <= SPACE && space[..end] == Packed(f, sas, k)
      invariant forall i :: 0 <= i < SPACE - end ==> space[end..][i] == 0
    {
      PackedGrows(f, sas, k + 1, KINDS);
      if f[k] {
        var chunk := Chunk(sas[k]);
        ghost var rest := space[end + |chunk|..];
        assert forall i :: 0 <= i < |rest| ==> rest[i] == space[end..][i + |chunk|];
        CopyTo(chunk, space, end);
        end := end + |chunk|;
      }
    }
    assert forall i :: end <= i < SPACE ==> space[i] == space[end..][i - end];
  }

  /**
   * The bit walk of `print_getmsg`: where the address of every set bit starts. The next one
   * follows at the rounded length that is read from the buffer itself.
   */
  method Unpack(f: seq<bool>, space: array<Byte>, ghost sas: seq<seq<Byte>>) returns (found: map<nat, nat>, cp: nat)
    requires Flags(f) && Sockaddrs(sas) && |Message(f, sas)| <= space.Length
    requires space[..|Message(f, sas)|] == Message(f, sas)
    ensures cp == |Message(f, sas)|
    ensures forall k: nat :: k in found <==> k < KINDS && f[k]
    ensures forall k: nat :: k in found ==> found[k] == |Packed(f, sas, k)|
  {
    found, cp := map[], 0;
    for k := 0 to 32
      invariant forall j: nat :: j in found <==> j < k && j < KINDS && f[j]
      invariant cp == |Packed(f, sas, if k < KINDS then k else KINDS)|
      invariant forall j: nat :: j in found ==> found[j] == |Packed(f, sas, j)|
    {
      if f[k] {
        ChunkInPlace(f, sas, k);
        assert space[cp] == space[..|Message(f, sas)|][cp];
        found := found[k := cp];
        cp := cp + RoundUp(space[cp]);
      }
    }
  }

  /**
   * Packing then unpacking, for every set of address bits and all lengths including zero: every
   * address put in is found with its bytes, no other is, and the walk ends at the message length.
   */
  method RoundTrip(f: seq<bool>, sas: seq<seq<Byte>>, space: array<Byte>) returns (found: map<nat, nat>, end: nat, cp: nat)
    requires Flags(f) && Sockaddrs(sas) && space.Length == SPACE && |Message(f, sas)| <= SPACE
    modifies space
    ensures cp == end
    ensures forall k: nat :: k in found <==> k < KINDS && f[k]
    ensures forall k: nat :: k in found ==>
              found[k] + sas[k][0] <= SPACE && space[found[k]..found[k] + sas[k][0]] == sas[k][..sas[k][0]]
  {
    end := Pack(f, sas, space);
    found, cp := Unpack(f, space, sas);
    forall k: nat | k in found
      ensures found[k] + sas[k][0] <= SPACE && space[found[k]..found[k] + sas[k][0]] == sas[k][..sas[k][0]]
    {
      ChunkInPlace(f, sas, k);
      var o, n, m := found[k], |Chunk(sas[k])|, sas[k][0];
      assert space[o..o + n] == space[..end][o..o + n];
      assert space[o..o + m] == space[o..o + n][..m];
    }
  }
}
