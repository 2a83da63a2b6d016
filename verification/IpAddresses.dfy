/**
 * Network prefixes and their subtraction (client/mozilla/shared/ipaddress.cpp).
 *
 * An address is its bits, most significant first: 32 of them in one family, 128 in the
 * other. The same definitions serve both families, as the two branches of the code do.
 */
module IpAddresses {

  type Bits = seq<bool>

  datatype IpAddress = IpAddress(bits: Bits, len: nat)

  predicate Valid(p: IpAddress) { p.len <= |p.bits| }

  predicate AllValid(ps: seq<IpAddress>) { forall i :: 0 <= i < |ps| ==> Valid(ps[i]) }

  /** Same family and the same leading bits. */
  predicate Contains(p: IpAddress, a: Bits)
    requires Valid(p)
  {
    |a| == |p.bits| && a[..p.len] == p.bits[..p.len]
  }

  predicate Overlaps(p: IpAddress, q: IpAddress)
    requires Valid(p) && Valid(q)
  {
    if p.len < q.len then Contains(p, q.bits) else Contains(q, p.bits)
  }

  predicate SubnetOf(p: IpAddress, q: IpAddress)
    requires Valid(p) && Valid(q)
  {
    |p.bits| == |q.bits| && p.len >= q.len && Contains(q, p.bits)
  }

  /** No bit set beyond the prefix. */
  predicate Canonical(p: IpAddress) {
    Valid(p) && forall i :: p.len <= i < |p.bits| ==> !p.bits[i]
  }

  /** The comparison of prefix lengths decides exactly whether two networks share an address. */
  lemma OverlapsMeansMeet(p: IpAddress, q: IpAddress)
    requires Valid(p) && Valid(q)
    ensures Overlaps(p, q) <==> exists a :: Contains(p, a) && Contains(q, a)
  {
    var inner := if p.len < q.len then q else p;
    assert Contains(inner, inner.bits);
    if a :| Contains(p, a) && Contains(q, a) {
      Shorter(a, inner.bits, if p.len < q.len then p.len else q.len, inner.len);
    }
  }

  lemma Shorter(a: Bits, b: Bits, m: nat, n: nat)
    requires m <= n <= |a| && n <= |b| && a[..n] == b[..n]
    ensures a[..m] == b[..m]
  {
    assert a[..m] == a[..n][..m] && b[..m] == b[..n][..m];
  }

  /** The subnet test decides exactly whether every address of one network is in the other. */
  lemma SubnetMeansInside(p: IpAddress, q: IpAddress)
    requires Valid(p) && Valid(q)
    ensures SubnetOf(p, q) <==> forall a :: Contains(p, a) ==> Contains(q, a)
  {
    if SubnetOf(p, q) {
      forall a | Contains(p, a) ensures Contains(q, a) { Shorter(a, p.bits, q.len, p.len); }
    } else {
      assert Contains(p, p.bits);
      if Contains(q, p.bits) {
        var other := p.bits[p.len := !p.bits[p.len]];
        assert Contains(p, other);
        assert other[..q.len][p.len] != q.bits[..q.len][p.len] by {
          assert p.bits[..q.len][p.len] == q.bits[..q.len][p.len];
        }
      }
    }
  }

  // ------------------------------------------------------------ one subtraction

  /** The two halves; the bits beyond the prefix are kept as they are. */
  function Halves(p: IpAddress): (h: (IpAddress, IpAddress))
    requires p.len < |p.bits|
    ensures Valid(h.0) && Valid(h.1)
  {
    (IpAddress(p.bits, p.len + 1), IpAddress(p.bits[p.len := true], p.len + 1))
  }

  /** Stuck stands for the assertion that fails when neither half contains the address. */
  datatype Carved = Stuck | Rest(parts: seq<IpAddress>)

  function Join(a: Carved, b: Carved): Carved {
    if a.Stuck? || b.Stuck? then Stuck else Rest(a.parts + b.parts)
  }

  lemma JoinAssoc(ps: seq<IpAddress>, qs: seq<IpAddress>, c: Carved)
    ensures Join(Rest(ps), Join(Rest(qs), c)) == Join(Rest(ps + qs), c)
  {
    assert c.Rest? ==> ps + (qs + c.parts) == ps + qs + c.parts;
  }

  function Carve(p: IpAddress, ip: IpAddress): (c: Carved)
    requires Valid(p) && Valid(ip) && SubnetOf(ip, p) && ip != p
    ensures c.Rest? ==> AllValid(c.parts)
    decreases |p.bits| - p.len
  {
    NotFull(p, ip);
    var (lower, upper) := Halves(p);
    if lower == ip then Rest([upper])
    else if upper == ip then Rest([lower])
    else if SubnetOf(ip, lower) then Join(Rest([upper]), Carve(lower, ip))
    else if SubnetOf(ip, upper) then Join(Rest([lower]), Carve(upper, ip))
    else Stuck
  }

  lemma NotFull(p: IpAddress, ip: IpAddress)
    requires Valid(p) && Valid(ip) && SubnetOf(ip, p) && ip != p
    ensures p.len < |p.bits|
  {
    assert p.bits[..|p.bits|] == p.bits && ip.bits[..|ip.bits|] == ip.bits;
  }

  /** IPAddress::excludeAddresses(const IPAddress&): the loop down the binary tree. */
  method CarveLoop(p: IpAddress, ip: IpAddress) returns (c: Carved)
    requires Valid(p) && Valid(ip) && SubnetOf(ip, p) && ip != p
    ensures c == Carve(p, ip)
  {
    NotFull(p, ip);
    var current, parts, half := p, [], Halves(p);
    while half.0 != ip && half.1 != ip
      invariant Valid(current) && SubnetOf(ip, current) && ip != current && current.len < |current.bits|
      invariant half == Halves(current)
      invariant Carve(p, ip) == Join(Rest(parts), Carve(current, ip))
      decreases |current.bits| - current.len
    {
      var (next, aside) := if SubnetOf(ip, half.0) then half else (half.1, half.0);
      if !SubnetOf(ip, next) { return Stuck; }
      JoinAssoc(parts, [aside], Carve(next, ip));
      parts := parts + [aside];
      current := next;
      NotFull(current, ip);
      half := Halves(current);
    }
    return Rest(parts + [if half.0 == ip then half.1 else half.0]);
  }

  predicate InSome(ps: seq<IpAddress>, a: Bits)
    requires AllValid(ps)
  {
    exists i :: 0 <= i < |ps| && Contains(ps[i], a)
  }

  lemma InSomeConcat(ps: seq<IpAddress>, qs: seq<IpAddress>, a: Bits)
    requires AllValid(ps) && AllValid(qs)
    ensures InSome(ps + qs, a) <==> InSome(ps, a) || InSome(qs, a)
  {
    if InSome(ps, a) {
      var i :| 0 <= i < |ps| && Contains(ps[i], a);
      assert Contains((ps + qs)[i], a);
    }
    if InSome(qs, a) {
      var i :| 0 <= i < |qs| && Contains(qs[i], a);
      assert Contains((ps + qs)[|ps| + i], a);
    }
    if InSome(ps + qs, a) {
      var i :| 0 <= i < |ps + qs| && Contains((ps + qs)[i], a);
      if i < |ps| { assert Contains(ps[i], a); } else { assert Contains(qs[i - |ps|], a); }
    }
  }

  lemma InSomeCons(p: IpAddress, qs: seq<IpAddress>, a: Bits)
    requires Valid(p) && AllValid(qs)
    ensures InSome([p] + qs, a) <==> Contains(p, a) || InSome(qs, a)
  {
    InSomeConcat([p], qs, a);
    if Contains(p, a) { assert Contains([p][0], a); }
  }

  /** What subtracting `ip` from `p` is supposed to give. */
  ghost predicate Exact(p: IpAddress, ip: IpAddress, parts: seq<IpAddress>)
    requires Valid(p) && Valid(ip) && AllValid(parts)
  {
    forall a :: InSome(parts, a) <==> Contains(p, a) && !Contains(ip, a)
  }

  /** The two networks agree on the bits that the walk never sets. */
  predicate Separable(p: IpAddress, ip: IpAddress)
    requires Valid(p) && Valid(ip) && |p.bits| == |ip.bits|
  {
    && p.len < ip.len
    && (forall i :: p.len <= i < ip.len ==> !p.bits[i])
    && (forall i :: ip.len <= i < |ip.bits| ==> ip.bits[i] == p.bits[i])
  }

  lemma SamePrefix(a: Bits, b: Bits, n: nat)
    requires n <= |a| == |b| && a[..n] == b[..n]
    ensures forall i :: 0 <= i < n ==> a[i] == b[i]
    ensures (forall i :: n <= i < |a| ==> a[i] == b[i]) ==> a == b
  {
    assert forall i :: 0 <= i < n ==> a[..n][i] == b[..n][i];
  }

  lemma CanonicalSeparable(p: IpAddress, ip: IpAddress)
    requires Canonical(p) && Valid(ip) && SubnetOf(ip, p) && ip != p
    ensures Separable(p, ip) <==> Canonical(ip)
  {
    SamePrefix(ip.bits, p.bits, p.len);
  }

  /** Which half an address falls into when the half-deciding bit is clear. */
  lemma HalvesSplit(p: IpAddress, a: Bits)
    requires Valid(p) && p.len < |p.bits|
    ensures var (lower, upper) := Halves(p);
            && (Contains(upper, a) <==> Contains(p, a) && a[p.len])
            && (Contains(lower, a) <==> Contains(p, a) && a[p.len] == p.bits[p.len])
  {
    var n := p.len;
    var raised := p.bits[n := true];
    assert raised[..n + 1] == p.bits[..n] + [true];
    assert p.bits[..n + 1] == p.bits[..n] + [p.bits[n]];
    if |a| == |p.bits| {
      assert a[..n + 1] == a[..n] + [a[n]];
      assert a[..n + 1] == raised[..n + 1] ==> a[..n] == a[..n + 1][..n] == p.bits[..n];
      assert a[..n + 1] == p.bits[..n + 1] ==> a[..n] == a[..n + 1][..n] == p.bits[..n];
    }
  }

  /** The halves partition the network exactly if the bit behind the prefix is clear. */
  lemma HalvesPartitionIff(p: IpAddress)
    requires Valid(p) && p.len < |p.bits|
    ensures var (lower, upper) := Halves(p);
            (forall a :: Contains(p, a) <==> Contains(lower, a) != Contains(upper, a)) <==> !p.bits[p.len]
  {
    var (lower, upper) := Halves(p);
    forall a { HalvesSplit(p, a); }
    if p.bits[p.len] {
      assert Contains(p, p.bits);
      assert Contains(lower, p.bits) && Contains(upper, p.bits);
    }
  }

  lemma {:induction false} CarveInside(p: IpAddress, ip: IpAddress, a: Bits)
    requires Valid(p) && Valid(ip) && SubnetOf(ip, p) && ip != p && Carve(p, ip).Rest?
    ensures InSome(Carve(p, ip).parts, a) ==> Contains(p, a)
    decreases |p.bits| - p.len
  {
    NotFull(p, ip);
    var (lower, upper) := Halves(p);
    HalvesSplit(p, a);
    if lower != ip && upper != ip {
      if SubnetOf(ip, lower) {
        CarveInside(lower, ip, a);
        InSomeCons(upper, Carve(lower, ip).parts, a);
      } else {
        CarveInside(upper, ip, a);
        InSomeCons(lower, Carve(upper, ip).parts, a);
      }
    }
  }

  /** On separable networks the walk ends, and its result is exact. */
  lemma {:induction false} CarveIsExact(p: IpAddress, ip: IpAddress)
    requires Valid(p) && Valid(ip) && SubnetOf(ip, p) && ip != p && Separable(p, ip)
    ensures Carve(p, ip).Rest?
    ensures |Carve(p, ip).parts| == ip.len - p.len
    ensures Exact(p, ip, Carve(p, ip).parts)
    decreases |p.bits| - p.len
  {
    NotFull(p, ip);
    var n := p.len;
    var (lower, upper) := Halves(p);
    HalvesSplit(p, ip.bits);
    if n + 1 == ip.len {
      SamePrefix(ip.bits, p.bits, n);
      var aside := if ip.bits[n] then lower else upper;
      assert ip == if ip.bits[n] then upper else lower;
      forall a ensures InSome([aside], a) <==> Contains(p, a) && !Contains(ip, a) {
        HalvesSplit(p, a);
        InSomeCons(aside, [], a);
        assert [aside] + [] == [aside];
      }
    } else {
      var (next, aside) := if ip.bits[n] then (upper, lower) else (lower, upper);
      CarveIsExact(next, ip);
      SubnetMeansInside(ip, next);
      var inner := Carve(next, ip).parts;
      forall a ensures InSome([aside] + inner, a) <==> Contains(p, a) && !Contains(ip, a) {
        HalvesSplit(p, a);
        InSomeCons(aside, inner, a);
      }
    }
  }

  /** Whenever the walk ends with an exact result, the networks were separable. */
  lemma {:induction false} ExactMeansSeparable(p: IpAddress, ip: IpAddress)
    requires Valid(p) && Valid(ip) && SubnetOf(ip, p) && ip != p
    requires Carve(p, ip).Rest? && Exact(p, ip, Carve(p, ip).parts)
    ensures Separable(p, ip)
    decreases |p.bits| - p.len
  {
    NotFull(p, ip);
    var n := p.len;
    var (lower, upper) := Halves(p);
    HalvesSplit(p, ip.bits);
    assert Contains(ip, ip.bits) && !InSome(Carve(p, ip).parts, ip.bits);
    if lower == ip {
      InSomeCons(upper, [], ip.bits);
    } else if upper == ip {
    } else {
      var (next, aside) := if SubnetOf(ip, lower) then (lower, upper) else (upper, lower);
      var inner := Carve(next, ip).parts;
      InSomeCons(aside, inner, ip.bits);
      assert !p.bits[n];
      forall a ensures InSome(inner, a) <==> Contains(next, a) && !Contains(ip, a) {
        HalvesSplit(p, a);
        InSomeCons(aside, inner, a);
        CarveInside(next, ip, a);
        SubnetMeansInside(ip, next);
      }
      ExactMeansSeparable(next, ip);
      assert forall i :: n < i < |p.bits| ==> p.bits[i] == next.bits[i];
    }
  }

  /** The subtraction of one network is right if and only if the two are separable. */
  lemma CarveRightIff(p: IpAddress, ip: IpAddress)
    requires Valid(p) && Valid(ip) && SubnetOf(ip, p) && ip != p
    ensures Carve(p, ip).Rest? && Exact(p, ip, Carve(p, ip).parts) <==> Separable(p, ip)
    ensures Canonical(p) ==>
              (Carve(p, ip).Rest? && Exact(p, ip, Carve(p, ip).parts) <==> Canonical(ip))
  {
    if Separable(p, ip) { CarveIsExact(p, ip); }
    if Carve(p, ip).Rest? && Exact(p, ip, Carve(p, ip).parts) { ExactMeansSeparable(p, ip); }
    if Canonical(p) { CanonicalSeparable(p, ip); }
  }

  /** Host bits in the exclusion: the walk always misses it, and never ends with a wrong result. */
  lemma {:induction false} HostBitsGetStuck(p: IpAddress, ip: IpAddress)
    requires Canonical(p) && Valid(ip) && SubnetOf(ip, p) && ip != p
    ensures Carve(p, ip).Stuck? <==> !Canonical(ip)
    decreases |p.bits| - p.len
  {
    if Canonical(ip) {
      CarveRightIff(p, ip);
    } else {
      NotFull(p, ip);
      var (lower, upper) := Halves(p);
      assert Canonical(lower) && Canonical(upper);
      if SubnetOf(ip, lower) {
        HostBitsGetStuck(lower, ip);
      } else if SubnetOf(ip, upper) {
        HostBitsGetStuck(upper, ip);
      }
    }
  }

  /** For instance, taking 10.0.0.1/8 out of the whole IPv4 space. */
  lemma TenSlashEightGetsStuck()
    ensures var zero := seq(32, i => false);
            Carve(IpAddress(zero, 0), IpAddress(zero[4 := true][6 := true][31 := true], 8)) == Stuck
  {
    var zero := seq(32, i => false);
    var ip := IpAddress(zero[4 := true][6 := true][31 := true], 8);
    assert ip.bits[31];
    HostBitsGetStuck(IpAddress(zero, 0), ip);
  }

  // ------------------------------------------------------------ lists

  /** One network against one exclusion. */
  function Excluded(p: IpAddress, ex: IpAddress): (c: Carved)
    requires Valid(p) && Valid(ex)
    ensures c.Rest? ==> AllValid(c.parts)
  {
    if !Overlaps(p, ex) then Rest([p])
    else if SubnetOf(ex, p) && ex != p then Carve(p, ex)
    else Rest([])
  }

  function ExcludeOne(ps: seq<IpAddress>, ex: IpAddress): (c: Carved)
    requires AllValid(ps) && Valid(ex)
    ensures c.Rest? ==> AllValid(c.parts)
  {
    if ps == [] then Rest([]) else Join(Excluded(ps[0], ex), ExcludeOne(ps[1..], ex))
  }

  function ExcludeAll(ps: seq<IpAddress>, exs: seq<IpAddress>): (c: Carved)
    requires AllValid(ps) && AllValid(exs)
    ensures c.Rest? ==> AllValid(c.parts)
    decreases exs
  {
    if exs == [] then Rest(ps) else
      var c := ExcludeOne(ps, exs[0]);
      if c.Stuck? then Stuck else ExcludeAll(c.parts, exs[1..])
  }

  /** IPAddress::excludeAddresses over lists: the two nested loops. */
  method ExcludeAddresses(sources: seq<IpAddress>, excludes: seq<IpAddress>) returns (c: Carved)
    requires AllValid(sources) && AllValid(excludes)
    ensures c == ExcludeAll(sources, excludes)
  {
    var results := sources;
    for e := 0 to |excludes|
      invariant AllValid(results)
      invariant ExcludeAll(sources, excludes) == ExcludeAll(results, excludes[e..])
    {
      var newResults: seq<IpAddress> := [];
      for r := 0 to |results|
        invariant AllValid(newResults)
        invariant ExcludeOne(results, excludes[e]) == Join(Rest(newResults), ExcludeOne(results[r..], excludes[e]))
      {
        assert results[r..][1..] == results[r + 1..];
        var kept := Rest([]);
        if !Overlaps(results[r], excludes[e]) {
          kept := Rest([results[r]]);
        } else if SubnetOf(excludes[e], results[r]) && excludes[e] != results[r] {
          kept := CarveLoop(results[r], excludes[e]);
          if kept.Stuck? {
            assert excludes[e..][0] == excludes[e];
            return Stuck;
          }
        }
        JoinAssoc(newResults, kept.parts, ExcludeOne(results[r + 1..], excludes[e]));
        newResults := newResults + kept.parts;
      }
      assert newResults + [] == newResults;
      assert excludes[e..][1..] == excludes[e + 1..];
      results := newResults;
    }
    return Rest(results);
  }

  predicate AllCanonical(ps: seq<IpAddress>) { forall i :: 0 <= i < |ps| ==> Canonical(ps[i]) }

  ghost predicate Disjoint(ps: seq<IpAddress>)
    requires AllValid(ps)
  {
    forall i, j, a :: 0 <= i < j < |ps| && Contains(ps[i], a) ==> !Contains(ps[j], a)
  }

  lemma {:induction false} CarveKeeps(p: IpAddress, ip: IpAddress)
    requires Canonical(p) && Valid(ip) && SubnetOf(ip, p) && ip != p && Carve(p, ip).Rest?
    ensures AllCanonical(Carve(p, ip).parts) && Disjoint(Carve(p, ip).parts)
    decreases |p.bits| - p.len
  {
    NotFull(p, ip);
    var (lower, upper) := Halves(p);
    if lower != ip && upper != ip {
      var (next, aside) := if SubnetOf(ip, lower) then (lower, upper) else (upper, lower);
      CarveKeeps(next, ip);
      var inner := Carve(next, ip).parts;
      assert !p.bits[p.len];
      forall a | Contains(aside, a) ensures !InSome(inner, a) {
        HalvesSplit(p, a);
        CarveInside(next, ip, a);
      }
      DisjointCons(aside, inner);
    }
  }

  lemma DisjointCons(p: IpAddress, ps: seq<IpAddress>)
    requires Valid(p) && AllValid(ps) && Disjoint(ps)
    requires forall a :: Contains(p, a) ==> !InSome(ps, a)
    ensures Disjoint([p] + ps)
  {
    var s := [p] + ps;
    forall i, j, a | 0 <= i < j < |s| && Contains(s[i], a) ensures !Contains(s[j], a) {
      assert s[j] == ps[j - 1];
      if i == 0 { assert !InSome(ps, a); } else { assert s[i] == ps[i - 1]; }
    }
  }

  lemma {:induction false} DisjointConcat(ps: seq<IpAddress>, qs: seq<IpAddress>)
    requires AllValid(ps) && AllValid(qs) && Disjoint(ps) && Disjoint(qs)
    requires forall a :: InSome(ps, a) ==> !InSome(qs, a)
    ensures Disjoint(ps + qs)
  {
    var s := ps + qs;
    forall i, j, a | 0 <= i < j < |s| && Contains(s[i], a) ensures !Contains(s[j], a) {
      if i < |ps| {
        assert s[i] == ps[i] && InSome(ps, a);
        if j < |ps| { assert s[j] == ps[j]; } else { assert s[j] == qs[j - |ps|] && !InSome(qs, a); }
      } else {
        assert s[i] == qs[i - |ps|] && s[j] == qs[j - |ps|];
      }
    }
  }

  /** One canonical network against one canonical exclusion: exactly the difference remains. */
  lemma ExcludedExact(p: IpAddress, ex: IpAddress)
    requires Canonical(p) && Canonical(ex)
    ensures Excluded(p, ex).Rest? && Exact(p, ex, Excluded(p, ex).parts)
    ensures AllCanonical(Excluded(p, ex).parts) && Disjoint(Excluded(p, ex).parts)
  {
    OverlapsMeansMeet(p, ex);
    if !Overlaps(p, ex) {
      forall a { InSomeCons(p, [], a); }
      assert [p] + [] == [p];
    } else if SubnetOf(ex, p) && ex != p {
      CarveRightIff(p, ex);
      CarveKeeps(p, ex);
    } else {
      OverlapNested(p, ex);
      SubnetMeansInside(p, ex);
    }
  }

  /** Networks that share an address are nested one way or the other. */
  lemma OverlapNested(p: IpAddress, q: IpAddress)
    requires Valid(p) && Valid(q) && Overlaps(p, q)
    ensures SubnetOf(p, q) || SubnetOf(q, p)
  {
  }

  lemma {:induction false} ExcludeOneExact(ps: seq<IpAddress>, ex: IpAddress)
    requires AllCanonical(ps) && Canonical(ex)
    ensures ExcludeOne(ps, ex).Rest? && AllCanonical(ExcludeOne(ps, ex).parts)
    ensures forall a :: InSome(ExcludeOne(ps, ex).parts, a) <==> InSome(ps, a) && !Contains(ex, a)
    ensures Disjoint(ps) ==> Disjoint(ExcludeOne(ps, ex).parts)
  {
    if ps != [] {
      var p, rest := ps[0], ps[1..];
      ExcludedExact(p, ex);
      ExcludeOneExact(rest, ex);
      var here, there := Excluded(p, ex).parts, ExcludeOne(rest, ex).parts;
      assert ps == [p] + rest;
      forall a ensures InSome(here + there, a) <==> InSome(ps, a) && !Contains(ex, a) {
        InSomeConcat(here, there, a);
        InSomeCons(p, rest, a);
      }
      if Disjoint(ps) {
        TailDisjoint(p, rest);
        DisjointConcat(here, there);
      }
    }
  }

  lemma TailDisjoint(p: IpAddress, ps: seq<IpAddress>)
    requires Valid(p) && AllValid(ps) && Disjoint([p] + ps)
    ensures Disjoint(ps) && forall a :: Contains(p, a) ==> !InSome(ps, a)
  {
    var s := [p] + ps;
    assert forall i :: 0 <= i < |ps| ==> ps[i] == s[i + 1];
    assert s[0] == p;
  }

  /**
   * Subtracting canonical networks from canonical networks always ends; an address is in the
   * result exactly if it is in a source and in no exclusion; the result is again canonical,
   * and a disjoint list of sources gives a disjoint result.
   */
  lemma {:induction false} ExcludeAllExact(ps: seq<IpAddress>, exs: seq<IpAddress>)
    requires AllCanonical(ps) && AllCanonical(exs)
    ensures ExcludeAll(ps, exs).Rest? && AllCanonical(ExcludeAll(ps, exs).parts)
    ensures forall a :: InSome(ExcludeAll(ps, exs).parts, a) <==> InSome(ps, a) && !InSome(exs, a)
    ensures Disjoint(ps) ==> Disjoint(ExcludeAll(ps, exs).parts)
    decreases exs
  {
    if exs != [] {
      ExcludeOneExact(ps, exs[0]);
      ExcludeAllExact(ExcludeOne(ps, exs[0]).parts, exs[1..]);
      assert exs == [exs[0]] + exs[1..];
      forall a { InSomeCons(exs[0], exs[1..], a); }
    }
  }
}
