/**
 * Site-based split tunnelling, compiled three ways from the same settings: allowed ranges and
 * exclusions for the WireGuard daemon, routing-table entries for OpenVPN and Xray, and a list
 * of networks for the Android VPN interface. Each way decides for every address whether it is
 * tunnelled; the module proves what each decision is and when the three agree.
 */
module SplitTunnel {
  import opened Powers
  import opened IpAddresses
  import IpRanges

  datatype Mode = AllSites | OnlySites | ExceptSites

  datatype Via = Tunnel | Bypass

  datatype Route = Route(net: IpAddress, via: Via)

  predicate WellFormed(t: seq<Route>) { forall i :: 0 <= i < |t| ==> Valid(t[i].net) }

  // ------------------------------------------------------------ longest-prefix match

  /**
   * How a system chooses among matches of equal length: by the lower metric, which depends on
   * the kind of route, then by the order of installation.
   */
  datatype Rules = Rules(tunnelMetric: nat, bypassMetric: nat, laterWins: bool)

  function Metric(rules: Rules, via: Via): nat { if via.Tunnel? then rules.tunnelMetric else rules.bypassMetric }

  predicate Better(rules: Rules, p: Route, q: Route) {
    p.net.len > q.net.len || (p.net.len == q.net.len && Metric(rules, p.via) < Metric(rules, q.via))
  }

  /** Whether an entry installed later is preferred to an earlier one that matches as well. */
  predicate TakesOver(rules: Rules, later: Route, earlier: Route) {
    Better(rules, later, earlier) || (rules.laterWins && !Better(rules, earlier, later))
  }

  /** Index of the entry that decides `a`; -1 if none matches. */
  function Winner(rules: Rules, t: seq<Route>, a: Bits): (w: int)
    requires WellFormed(t)
    ensures -1 <= w < |t|
  {
    if t == [] then -1 else
      var n := |t| - 1;
      var w := Winner(rules, t[..n], a);
      if Contains(t[n].net, a) && (w == -1 || TakesOver(rules, t[n], t[w])) then n else w
  }

  function Decide(rules: Rules, t: seq<Route>, a: Bits): Via
    requires WellFormed(t)
  {
    var w := Winner(rules, t, a);
    if w == -1 then Bypass else t[w].via
  }

  /** The winner matches, takes over from every earlier match, and no later match takes over. */
  lemma {:induction false} WinnerPrevails(rules: Rules, t: seq<Route>, a: Bits)
    requires WellFormed(t)
    ensures var w := Winner(rules, t, a);
            && (w == -1 ==> forall i :: 0 <= i < |t| ==> !Contains(t[i].net, a))
            && (w >= 0 ==> Contains(t[w].net, a)
                           && (forall i :: 0 <= i < w && Contains(t[i].net, a) ==> TakesOver(rules, t[w], t[i]))
                           && (forall i :: w < i < |t| && Contains(t[i].net, a) ==> !TakesOver(rules, t[i], t[w])))
  {
    if t != [] {
      var n := |t| - 1;
      WinnerPrevails(rules, t[..n], a);
      assert forall i :: 0 <= i < n ==> t[..n][i] == t[i];
    }
  }

  /** Length of the longest network that contains the address; -1 if none does. */
  function Longest(nets: seq<IpAddress>, a: Bits): (m: int)
    requires AllValid(nets)
    ensures m >= -1
  {
    if nets == [] then -1 else
      var n := |nets| - 1;
      var m := Longest(nets[..n], a);
      if Contains(nets[n], a) && nets[n].len > m then nets[n].len else m
  }

  lemma {:induction false} LongestIs(nets: seq<IpAddress>, a: Bits)
    requires AllValid(nets)
    ensures forall i :: 0 <= i < |nets| && Contains(nets[i], a) ==> nets[i].len <= Longest(nets, a)
    ensures Longest(nets, a) >= 0 ==> exists i :: 0 <= i < |nets| && Contains(nets[i], a) && nets[i].len == Longest(nets, a)
    ensures Longest(nets, a) >= 0 <==> InSome(nets, a)
  {
    if nets != [] {
      var n := |nets| - 1;
      LongestIs(nets[..n], a);
      assert forall i :: 0 <= i < n ==> nets[..n][i] == nets[i];
    }
  }

  lemma {:induction false} LongestConcat(s: seq<IpAddress>, t: seq<IpAddress>, a: Bits)
    requires AllValid(s) && AllValid(t)
    ensures Longest(s + t, a) == if Longest(s, a) > Longest(t, a) then Longest(s, a) else Longest(t, a)
    decreases t
  {
    if t == [] {
      assert s + t == s;
    } else {
      LongestConcat(s, t[..|t| - 1], a);
      assert (s + t)[..|s + t| - 1] == s + t[..|t| - 1];
    }
  }

  lemma LongestOne(p: IpAddress, a: Bits)
    requires Valid(p)
    ensures Longest([p], a) == if Contains(p, a) then p.len else -1
  {
    assert [p][..0] == [];
  }

  /** The order of a list, and repetitions in it, do not matter. */
  lemma LongestOfSame(s: seq<IpAddress>, t: seq<IpAddress>, a: Bits)
    requires AllValid(s) && AllValid(t) && forall p :: p in s <==> p in t
    ensures Longest(s, a) == Longest(t, a)
  {
    LongestAtMost(s, t, a);
    LongestAtMost(t, s, a);
  }

  lemma LongestAtMost(s: seq<IpAddress>, t: seq<IpAddress>, a: Bits)
    requires AllValid(s) && AllValid(t) && forall p :: p in s ==> p in t
    ensures Longest(s, a) <= Longest(t, a)
  {
    LongestIs(s, a);
    LongestIs(t, a);
    if Longest(s, a) >= 0 {
      var i :| 0 <= i < |s| && Contains(s[i], a) && s[i].len == Longest(s, a);
      assert s[i] in t;
      var j :| 0 <= j < |t| && t[j] == s[i];
    }
  }

  function Entries(nets: seq<IpAddress>, via: Via): (t: seq<Route>)
    ensures |t| == |nets| && forall i :: 0 <= i < |t| ==> t[i] == Route(nets[i], via)
  {
    seq(|nets|, i requires 0 <= i < |nets| => Route(nets[i], via))
  }

  function Other(via: Via): Via { if via.Tunnel? then Bypass else Tunnel }

  /** Whether a route of this kind, installed after the others, wins against them at equal length. */
  predicate WinsTies(rules: Rules, via: Via) {
    Metric(rules, via) < Metric(rules, Other(via)) || (rules.laterWins && Metric(rules, via) == Metric(rules, Other(via)))
  }

  lemma TiesDecide(rules: Rules, later: Route, earlier: Route)
    requires earlier.via == Other(later.via)
    ensures TakesOver(rules, later, earlier)
            <==> later.net.len > earlier.net.len || (later.net.len == earlier.net.len && WinsTies(rules, later.via))
  {
  }

  /** A winner in a stretch of routes of one kind is as long as the longest match there. */
  lemma {:induction false} WinnerIsLongest(rules: Rules, t: seq<Route>, part: seq<IpAddress>, off: nat, via: Via, a: Bits)
    requires WellFormed(t) && off + |part| <= |t| && AllValid(part)
    requires forall i :: 0 <= i < |part| ==> t[off + i] == Route(part[i], via)
    requires off <= Winner(rules, t, a) < off + |part|
    ensures Longest(part, a) == t[Winner(rules, t, a)].net.len
  {
    var w := Winner(rules, t, a);
    WinnerPrevails(rules, t, a);
    LongestIs(part, a);
    assert part[w - off] == t[off + (w - off)].net;
    var i :| 0 <= i < |part| && Contains(part[i], a) && part[i].len == Longest(part, a);
    assert t[off + i] == Route(part[i], via);
  }

  /**
   * A table of two lists, the second installed after the first: the longest match of each is
   * all that counts. Every compilation below produces such a table.
   */
  lemma {:induction false} TwoListsDecide(rules: Rules, first: seq<IpAddress>, second: seq<IpAddress>, via: Via, a: Bits)
    requires AllValid(first) && AllValid(second)
    ensures var t := Entries(first, Other(via)) + Entries(second, via);
            var m, n := Longest(first, a), Longest(second, a);
            WellFormed(t) &&
            Decide(rules, t, a) == if m == -1 && n == -1 then Bypass
                                   else if n > m || (n == m && WinsTies(rules, via)) then via else Other(via)
  {
    var t := Entries(first, Other(via)) + Entries(second, via);
    TableIndex(first, second, via);
    var w := Winner(rules, t, a);
    if w == -1 {
      WinnerPrevails(rules, t, a);
      NoMatch(first, second, t, via, a);
    } else if w < |first| {
      FirstPrevails(rules, first, second, t, via, a);
    } else {
      SecondPrevails(rules, first, second, t, via, a);
    }
  }

  lemma {:induction false} FirstPrevails(rules: Rules, first: seq<IpAddress>, second: seq<IpAddress>, t: seq<Route>, via: Via, a: Bits)
    requires AllValid(first) && AllValid(second) && TwoLists(first, second, t, via) && WellFormed(t)
    requires 0 <= Winner(rules, t, a) < |first|
    ensures var m, n := Longest(first, a), Longest(second, a);
            m >= 0 && n <= m && !(n == m && WinsTies(rules, via))
  {
    var w := Winner(rules, t, a);
    WinnerIsLongest(rules, t, first, 0, Other(via), a);
    WinnerPrevails(rules, t, a);
    LongestIs(second, a);
    if Longest(second, a) >= 0 {
      var j :| 0 <= j < |second| && Contains(second[j], a) && second[j].len == Longest(second, a);
      assert t[|first| + j] == Route(second[j], via);
      TiesDecide(rules, t[|first| + j], t[w]);
    }
  }

  lemma {:induction false} SecondPrevails(rules: Rules, first: seq<IpAddress>, second: seq<IpAddress>, t: seq<Route>, via: Via, a: Bits)
    requires AllValid(first) && AllValid(second) && TwoLists(first, second, t, via) && WellFormed(t)
    requires |first| <= Winner(rules, t, a)
    ensures var m, n := Longest(first, a), Longest(second, a);
            n >= 0 && (n > m || (n == m && WinsTies(rules, via)))
  {
    var w := Winner(rules, t, a);
    WinnerIsLongest(rules, t, second, |first|, via, a);
    WinnerPrevails(rules, t, a);
    LongestIs(first, a);
    if Longest(first, a) >= 0 {
      var i :| 0 <= i < |first| && Contains(first[i], a) && first[i].len == Longest(first, a);
      assert t[|first| + (w - |first|)] == Route(second[w - |first|], via);
      TiesDecide(rules, t[w], t[i]);
    }
  }

  ghost predicate TwoLists(first: seq<IpAddress>, second: seq<IpAddress>, t: seq<Route>, via: Via) {
    && |t| == |first| + |second|
    && (forall i :: 0 <= i < |first| ==> t[i] == Route(first[i], Other(via)))
    && (forall j :: 0 <= j < |second| ==> t[|first| + j] == Route(second[j], via))
  }

  lemma TableIndex(first: seq<IpAddress>, second: seq<IpAddress>, via: Via)
    ensures TwoLists(first, second, Entries(first, Other(via)) + Entries(second, via), via)
    ensures AllValid(first) && AllValid(second) ==> WellFormed(Entries(first, Other(via)) + Entries(second, via))
  {
    var t := Entries(first, Other(via)) + Entries(second, via);
    assert forall i :: |first| <= i < |t| ==> t[i] == Entries(second, via)[i - |first|];
  }

  lemma NoMatch(first: seq<IpAddress>, second: seq<IpAddress>, t: seq<Route>, via: Via, a: Bits)
    requires AllValid(first) && AllValid(second) && t == Entries(first, Other(via)) + Entries(second, via)
    requires WellFormed(t) && forall i :: 0 <= i < |t| ==> !Contains(t[i].net, a)
    ensures Longest(first, a) == -1 && Longest(second, a) == -1
  {
    LongestIs(first, a);
    LongestIs(second, a);
    forall i | 0 <= i < |first| ensures !Contains(first[i], a) { assert t[i].net == first[i]; }
    forall i | 0 <= i < |second| ensures !Contains(second[i], a) { assert t[|first| + i].net == second[i]; }
  }

  // ------------------------------------------------------------ what the user asked for

  function Meaning(mode: Mode, sites: seq<IpAddress>, a: Bits): Via
    requires AllValid(sites)
  {
    match mode
    case AllSites => Tunnel
    case OnlySites => if InSome(sites, a) then Tunnel else Bypass
    case ExceptSites => if InSome(sites, a) then Bypass else Tunnel
  }

  // ------------------------------------------------------------ settings

  /** A key or value of the stored site map: an address, a network, or anything else. */
  datatype SiteText = Host(bits: Bits) | Net(bits: Bits, len: nat) | Name(text: string)

  predicate IsIpOrSubnet(t: SiteText) {
    match t
    case Host(bits) => |bits| == 32
    case Net(bits, len) => |bits| == 32 && len <= 32
    case Name(_) => false
  }

  /** The network a text stands for. */
  function Denoted(t: SiteText): (p: IpAddress)
    requires IsIpOrSubnet(t)
    ensures Valid(p) && |p.bits| == 32
  {
    if t.Host? then IpAddress(t.bits, 32) else IpAddress(t.bits, t.len)
  }

  function AllDenoted(ts: seq<SiteText>): (ps: seq<IpAddress>)
    requires forall i :: 0 <= i < |ts| ==> IsIpOrSubnet(ts[i])
    ensures |ps| == |ts| && Sites4(ps) && forall i :: 0 <= i < |ts| ==> ps[i] == Denoted(ts[i])
  {
    seq(|ts|, i requires 0 <= i < |ts| => Denoted(ts[i]))
  }

  /** The key if it is an address, otherwise the resolved value. */
  function Chosen(site: (SiteText, SiteText)): SiteText { if IsIpOrSubnet(site.0) then site.0 else site.1 }

  /** Settings::getVpnIps, and the same selection in VpnConnection::addSitesRoutes. */
  method VpnIps(stored: seq<(SiteText, SiteText)>) returns (ips: seq<SiteText>)
    ensures forall t :: t in ips <==> IsIpOrSubnet(t) && exists i :: 0 <= i < |stored| && Chosen(stored[i]) == t
    ensures forall i, j :: 0 <= i < j < |ips| ==> ips[i] != ips[j]
  {
    var all := [];
    for i := 0 to |stored|
      invariant forall t :: t in all <==> IsIpOrSubnet(t) && exists k :: 0 <= k < i && Chosen(stored[k]) == t
    {
      if IsIpOrSubnet(stored[i].0) {
        all := all + [stored[i].0];
      } else if IsIpOrSubnet(stored[i].1) {
        all := all + [stored[i].1];
      }
    }
    ips := [];
    for i := 0 to |all|
      invariant forall t :: t in ips <==> t in all[..i]
      invariant forall p, q :: 0 <= p < q < |ips| ==> ips[p] != ips[q]
    {
      if all[i] !in ips { ips := ips + [all[i]]; }
    }
    assert all[..|all|] == all;
  }

  /** Some stored site stands for a network of at least `k` bits that contains the address. */
  predicate StoredMatch(stored: seq<(SiteText, SiteText)>, k: nat, a: Bits) {
    exists i :: 0 <= i < |stored| && IsIpOrSubnet(Chosen(stored[i]))
                && Contains(Denoted(Chosen(stored[i])), a) && Denoted(Chosen(stored[i])).len >= k
  }

  /** The selected texts match exactly where the stored sites do, and as long. */
  lemma SelectionMatches(stored: seq<(SiteText, SiteText)>, ips: seq<SiteText>, k: nat, a: Bits)
    requires forall t :: t in ips <==> IsIpOrSubnet(t) && exists i :: 0 <= i < |stored| && Chosen(stored[i]) == t
    ensures Longest(AllDenoted(ips), a) >= k <==> StoredMatch(stored, k, a)
  {
    var nets := AllDenoted(ips);
    LongestIs(nets, a);
    if Longest(nets, a) >= k {
      var i :| 0 <= i < |nets| && Contains(nets[i], a) && nets[i].len == Longest(nets, a);
      assert ips[i] in ips;
      var j :| 0 <= j < |stored| && Chosen(stored[j]) == ips[i];
      assert Contains(Denoted(Chosen(stored[j])), a);
    }
    if StoredMatch(stored, k, a) {
      var j :| 0 <= j < |stored| && IsIpOrSubnet(Chosen(stored[j]))
               && Contains(Denoted(Chosen(stored[j])), a) && Denoted(Chosen(stored[j])).len >= k;
      assert Chosen(stored[j]) in ips;
      var i :| 0 <= i < |ips| && ips[i] == Chosen(stored[j]);
      assert Contains(nets[i], a);
    }
  }

  /** The addresses the tunnel itself needs: the server's and the two name servers'. */
  datatype Endpoints = Endpoints(server: Bits, dns1: Bits, dns2: Bits)

  predicate Ipv4(e: Endpoints) { |e.server| == |e.dns1| == |e.dns2| == 32 }

  predicate Ordinary(e: Endpoints, a: Bits) { a != e.server && a != e.dns1 && a != e.dns2 }

  /** Networks as the selected texts denote them: 32 bits and a length of at most 32. */
  predicate Sites4(sites: seq<IpAddress>) {
    forall i :: 0 <= i < |sites| ==> Valid(sites[i]) && |sites[i].bits| == 32
  }

  function HostNet(a: Bits): IpAddress { IpAddress(a, |a|) }

  function Zeros(n: nat): (z: Bits) ensures |z| == n { seq(n, i => false) }

  function Ones(n: nat): (z: Bits) ensures |z| == n { seq(n, i => true) }

  function Everything(width: nat): IpAddress { IpAddress(Zeros(width), 0) }

  function LowerHalf(width: nat): IpAddress { IpAddress(Zeros(width), 1) }

  function UpperHalf(width: nat): IpAddress
    requires width > 0
  {
    IpAddress([true] + Zeros(width - 1), 1)
  }

  const EVERYTHING := Everything(32)
  const EVERYTHING6 := Everything(128)
  const LOWER_HALF := LowerHalf(32)
  const UPPER_HALF := UpperHalf(32)

  lemma HalvesCover(a: Bits, width: nat)
    requires width > 0
    ensures Contains(Everything(width), a) <==> |a| == width
    ensures Contains(UpperHalf(width), a) <==> |a| == width && a[0]
    ensures Contains(LowerHalf(width), a) <==> |a| == width && !a[0]
  {
    if |a| == width {
      assert a[..1] == [a[0]] && Zeros(width)[..1] == [false] && UpperHalf(width).bits[..1] == [true];
      assert a[..0] == Zeros(width)[..0];
    }
  }

  lemma HalvesLongest(a: Bits, width: nat)
    requires width > 0
    ensures Longest([LowerHalf(width), UpperHalf(width)], a) == if |a| == width then 1 else -1
  {
    HalvesCover(a, width);
    LongestOne(LowerHalf(width), a);
    LongestOne(UpperHalf(width), a);
    LongestConcat([LowerHalf(width)], [UpperHalf(width)], a);
    assert [LowerHalf(width)] + [UpperHalf(width)] == [LowerHalf(width), UpperHalf(width)];
  }

  lemma HostMissed(h: Bits, a: Bits)
    requires a != h
    ensures !Contains(HostNet(h), a) && Longest([HostNet(h)], a) == -1
  {
    if |a| == |h| { assert a[..|h|] == a && h[..|h|] == h; }
    LongestOne(HostNet(h), a);
  }

  /** None of the addresses the tunnel itself needs matches an ordinary address. */
  lemma EndpointsMissed(e: Endpoints, a: Bits)
    requires Ordinary(e, a)
    ensures Longest([HostNet(e.server)], a) == -1
    ensures Longest([HostNet(e.dns1), HostNet(e.dns2)], a) == -1
    ensures !Contains(HostNet(e.dns1), a) && !Contains(HostNet(e.dns2), a)
  {
    HostMissed(e.dns1, a);
    HostMissed(e.dns2, a);
    HostMissed(e.server, a);
    LongestConcat([HostNet(e.dns1)], [HostNet(e.dns2)], a);
    assert [HostNet(e.dns1)] + [HostNet(e.dns2)] == [HostNet(e.dns1), HostNet(e.dns2)];
  }

  // ------------------------------------------------------------ the WireGuard path

  /**
   * The daemon's routes on Linux: exclusions have metric 0, tunnel routes 1, and a route
   * replaces an equal one. On macOS there are no metrics, and the route that is there stays.
   */
  const LINUX := Rules(1, 0, true)
  const MACOS := Rules(0, 0, false)

  predicate DaemonRules(rules: Rules) { rules == LINUX || rules == MACOS }

  const DEFAULT_RANGES := [EVERYTHING, EVERYTHING6]

  /** Site-based splitting is allowed only if the protocol's own list holds both default ranges. */
  predicate SiteBased(plain: seq<IpAddress>) { EVERYTHING in plain && EVERYTHING6 in plain }

  /** VpnConnection::appendSplitTunnelingConfig; `plain` is the list of the protocol's configuration. */
  function SplitTunnelSites(enabled: bool, mode: Mode, plain: seq<IpAddress>, ips: seq<IpAddress>, e: Endpoints): (Mode, seq<IpAddress>) {
    if !enabled then (AllSites, [])
    else if !SiteBased(plain) then (mode, [])
    else (mode, ips + if mode.OnlySites? then [HostNet(e.dns1), HostNet(e.dns2)] else [])
  }

  /** LocalSocketController::activate: the ranges handed to the daemon; a list of its own comes first. */
  function AllowedRanges(plain: seq<IpAddress>, mode: Mode, sites: seq<IpAddress>): seq<IpAddress> {
    if plain != DEFAULT_RANGES && plain != [] then plain
    else if mode.OnlySites? then sites else DEFAULT_RANGES
  }

  function ExcludedAddresses(mode: Mode, sites: seq<IpAddress>, e: Endpoints): seq<IpAddress> {
    [HostNet(e.server)] + if mode.ExceptSites? then sites else []
  }

  /** WireguardUtilsLinux::updateRoutePrefix never replaces the default route. */
  function RoutesFor(p: IpAddress): seq<IpAddress> {
    if p.len > 0 || |p.bits| == 0 then [p] else [LowerHalf(|p.bits|), UpperHalf(|p.bits|)]
  }

  function Expand(ranges: seq<IpAddress>): seq<IpAddress> {
    if ranges == [] then [] else Expand(ranges[..|ranges| - 1]) + RoutesFor(ranges[|ranges| - 1])
  }

  /** Daemon::activate: exclusions first, then the allowed ranges in the order given. */
  function WireguardTable(excluded: seq<IpAddress>, allowed: seq<IpAddress>): seq<Route> {
    Entries(excluded, Bypass) + Entries(Expand(allowed), Tunnel)
  }

  /** The halves are one bit longer than the range they stand for. */
  function Raised(m: int): int { if m == 0 then 1 else m }

  lemma RoutesForLongest(p: IpAddress, a: Bits)
    requires Valid(p) && |p.bits| > 0
    ensures AllValid(RoutesFor(p)) && Longest(RoutesFor(p), a) == Raised(Longest([p], a))
  {
    LongestOne(p, a);
    HalvesLongest(a, |p.bits|);
    assert p.len == 0 && |a| == |p.bits| ==> a[..0] == p.bits[..0];
  }

  predicate Families(ps: seq<IpAddress>) { forall i :: 0 <= i < |ps| ==> Valid(ps[i]) && |ps[i].bits| > 0 }

  lemma {:induction false} ExpandLongest(ranges: seq<IpAddress>, a: Bits)
    requires Families(ranges)
    ensures AllValid(Expand(ranges)) && Longest(Expand(ranges), a) == Raised(Longest(ranges, a))
  {
    if ranges != [] {
      var n := |ranges| - 1;
      ExpandLongest(ranges[..n], a);
      RoutesForLongest(ranges[n], a);
      LongestConcat(Expand(ranges[..n]), RoutesFor(ranges[n]), a);
      LongestConcat(ranges[..n], [ranges[n]], a);
      assert ranges == ranges[..n] + [ranges[n]];
    }
  }

  /** Any order of the allowed ranges, in particular the sorted one. */
  ghost predicate SameRanges(order: seq<IpAddress>, ranges: seq<IpAddress>) {
    multiset(order) == multiset(ranges)
  }

  lemma SameRangesLongest(order: seq<IpAddress>, ranges: seq<IpAddress>, a: Bits)
    requires SameRanges(order, ranges) && Families(ranges)
    ensures Families(order) && Longest(order, a) == Longest(ranges, a)
  {
    assert forall p :: p in order <==> p in ranges by {
      assert forall p :: p in order <==> p in multiset(order);
      assert forall p :: p in ranges <==> p in multiset(ranges);
    }
    assert forall i :: 0 <= i < |order| ==> order[i] in ranges;
    LongestOfSame(order, ranges, a);
  }

  /**
   * What the daemon's routes decide, for any lists: an address is tunnelled exactly if its
   * longest allowed range, a default range counting as its halves, is longer than its longest
   * exclusion. At equal length the exclusion wins, by its metric or because it came first.
   */
  lemma DaemonDecides(rules: Rules, excluded: seq<IpAddress>, allowed: seq<IpAddress>, order: seq<IpAddress>, a: Bits)
    requires DaemonRules(rules) && AllValid(excluded) && Families(allowed) && SameRanges(order, allowed)
    ensures WellFormed(WireguardTable(excluded, order))
    ensures Decide(rules, WireguardTable(excluded, order), a) == Tunnel
            <==> Raised(Longest(allowed, a)) > Longest(excluded, a)
  {
    SameRangesLongest(order, allowed, a);
    ExpandLongest(order, a);
    TwoListsDecide(rules, excluded, Expand(order), Tunnel, a);
  }

  /** The ranges that decide, and the exceptions, once the endpoints are left aside. */
  function Offered(plain: seq<IpAddress>, m: Mode, ips: seq<IpAddress>): seq<IpAddress> {
    if plain != DEFAULT_RANGES && plain != [] then plain
    else if !m.OnlySites? then DEFAULT_RANGES else if SiteBased(plain) then ips else []
  }

  function Excepted(plain: seq<IpAddress>, m: Mode, ips: seq<IpAddress>): seq<IpAddress> {
    if m.ExceptSites? && SiteBased(plain) then ips else []
  }

  lemma AllowedLongest(enabled: bool, mode: Mode, plain: seq<IpAddress>, ips: seq<IpAddress>, e: Endpoints, a: Bits)
    requires Sites4(ips) && Families(plain) && Ipv4(e) && Ordinary(e, a)
    ensures var (m, sites) := SplitTunnelSites(enabled, mode, plain, ips, e);
            var ranges := AllowedRanges(plain, m, sites);
            Families(ranges) && Families(Offered(plain, m, ips)) && Longest(ranges, a) == Longest(Offered(plain, m, ips), a)
  {
    var (m, sites) := SplitTunnelSites(enabled, mode, plain, ips, e);
    if m.OnlySites? && SiteBased(plain) {
      EndpointsMissed(e, a);
      LongestConcat(ips, [HostNet(e.dns1), HostNet(e.dns2)], a);
    }
  }

  lemma ExcludedLongest(enabled: bool, mode: Mode, plain: seq<IpAddress>, ips: seq<IpAddress>, e: Endpoints, a: Bits)
    requires Sites4(ips) && Ipv4(e) && Ordinary(e, a)
    ensures var (m, sites) := SplitTunnelSites(enabled, mode, plain, ips, e);
            var excluded := ExcludedAddresses(m, sites, e);
            AllValid(excluded) && AllValid(Excepted(plain, m, ips)) && Longest(excluded, a) == Longest(Excepted(plain, m, ips), a)
  {
    var (m, sites) := SplitTunnelSites(enabled, mode, plain, ips, e);
    EndpointsMissed(e, a);
    assert m.ExceptSites? ==> sites == Excepted(plain, m, ips);
    LongestConcat([HostNet(e.server)], Excepted(plain, m, ips), a);
  }

  /** The same for the lists compiled from the settings, whatever list the protocol brings along. */
  lemma WireguardDecision(rules: Rules, enabled: bool, mode: Mode, plain: seq<IpAddress>, ips: seq<IpAddress>,
                          e: Endpoints, order: seq<IpAddress>, a: Bits)
    requires DaemonRules(rules) && Sites4(ips) && Families(plain) && Ipv4(e) && Ordinary(e, a)
    requires var (m, sites) := SplitTunnelSites(enabled, mode, plain, ips, e);
             SameRanges(order, AllowedRanges(plain, m, sites))
    ensures var (m, sites) := SplitTunnelSites(enabled, mode, plain, ips, e);
            var t := WireguardTable(ExcludedAddresses(m, sites, e), order);
            WellFormed(t) && AllValid(Offered(plain, m, ips)) && AllValid(Excepted(plain, m, ips)) &&
            (Decide(rules, t, a) == Tunnel
             <==> Raised(Longest(Offered(plain, m, ips), a)) > Longest(Excepted(plain, m, ips), a))
  {
    var (m, sites) := SplitTunnelSites(enabled, mode, plain, ips, e);
    AllowedLongest(enabled, mode, plain, ips, e, a);
    ExcludedLongest(enabled, mode, plain, ips, e, a);
    DaemonDecides(rules, ExcludedAddresses(m, sites, e), AllowedRanges(plain, m, sites), order, a);
  }

  /** A list of its own without both default ranges overrides the settings: it alone decides. */
  lemma OwnListDecides(rules: Rules, enabled: bool, mode: Mode, plain: seq<IpAddress>, ips: seq<IpAddress>,
                       e: Endpoints, order: seq<IpAddress>, a: Bits)
    requires DaemonRules(rules) && Sites4(ips) && Families(plain) && Ipv4(e) && Ordinary(e, a)
    requires plain != [] && !SiteBased(plain) && SameRanges(order, plain)
    ensures var (m, sites) := SplitTunnelSites(enabled, mode, plain, ips, e);
            var t := WireguardTable(ExcludedAddresses(m, sites, e), order);
            WellFormed(t) && (Decide(rules, t, a) == Tunnel <==> InSome(plain, a))
  {
    assert EVERYTHING in DEFAULT_RANGES && EVERYTHING6 in DEFAULT_RANGES;
    WireguardDecision(rules, enabled, mode, plain, ips, e, order, a);
    LongestIs(plain, a);
  }

  lemma DefaultLongest(a: Bits)
    ensures AllValid(DEFAULT_RANGES) && Longest(DEFAULT_RANGES, a) == if |a| == 32 || |a| == 128 then 0 else -1
  {
    HalvesCover(a, 32);
    HalvesCover(a, 128);
    LongestOne(EVERYTHING, a);
    LongestOne(EVERYTHING6, a);
    LongestConcat([EVERYTHING], [EVERYTHING6], a);
    assert [EVERYTHING] + [EVERYTHING6] == DEFAULT_RANGES;
  }

  /**
   * With the default ranges, the WireGuard path gives the mode its plain meaning at `a` except
   * in one case: a site is excepted, but only with no bit at all, and the halves win.
   */
  lemma WireguardMeaningIff(rules: Rules, enabled: bool, mode: Mode, ips: seq<IpAddress>, e: Endpoints,
                            order: seq<IpAddress>, a: Bits)
    requires DaemonRules(rules) && Sites4(ips) && Ipv4(e) && Ordinary(e, a) && (|a| == 32 || |a| == 128)
    requires var (m, sites) := SplitTunnelSites(enabled, mode, DEFAULT_RANGES, ips, e);
             SameRanges(order, AllowedRanges(DEFAULT_RANGES, m, sites))
    ensures var (m, sites) := SplitTunnelSites(enabled, mode, DEFAULT_RANGES, ips, e);
            var t := WireguardTable(ExcludedAddresses(m, sites, e), order);
            WellFormed(t) &&
            (Decide(rules, t, a) == Meaning(if enabled then mode else AllSites, ips, a)
             <==> !(enabled && mode.ExceptSites? && Longest(ips, a) == 0))
  {
    WireguardDecision(rules, enabled, mode, DEFAULT_RANGES, ips, e, order, a);
    DefaultLongest(a);
    LongestIs(ips, a);
  }

  /** Excepting 0.0.0.0/0 excepts nothing: every ordinary IPv4 address is still tunnelled. */
  lemma ExceptingEverythingFails(rules: Rules, e: Endpoints, order: seq<IpAddress>, a: Bits)
    requires DaemonRules(rules) && Ipv4(e) && Ordinary(e, a) && |a| == 32 && SameRanges(order, DEFAULT_RANGES)
    ensures var t := WireguardTable(ExcludedAddresses(ExceptSites, [EVERYTHING], e), order);
            WellFormed(t) && Decide(rules, t, a) == Tunnel && Meaning(ExceptSites, [EVERYTHING], a) == Bypass
  {
    assert SplitTunnelSites(true, ExceptSites, DEFAULT_RANGES, [EVERYTHING], e) == (ExceptSites, [EVERYTHING]) by {
      assert EVERYTHING in DEFAULT_RANGES && EVERYTHING6 in DEFAULT_RANGES;
      assert [EVERYTHING] + [] == [EVERYTHING];
    }
    HalvesCover(a, 32);
    LongestOne(EVERYTHING, a);
    assert Contains([EVERYTHING][0], a);
    WireguardMeaningIff(rules, true, ExceptSites, [EVERYTHING], e, order, a);
  }

  /** At this address the daemon's routes mean `meaning`, unless it is an exception. */
  ghost predicate RightAt(rules: Rules, excluded: seq<IpAddress>, order: seq<IpAddress>, a: Bits, meaning: Via, exception: bool) {
    var t := WireguardTable(excluded, order);
    WellFormed(t) && (Decide(rules, t, a) == meaning <==> !exception)
  }

  ghost predicate Applies(rules: Rules, order: seq<IpAddress>, allowed: seq<IpAddress>, e: Endpoints, a: Bits) {
    DaemonRules(rules) && SameRanges(order, allowed) && Ordinary(e, a) && (|a| == 32 || |a| == 128)
  }

  /** The daemon's routes, in any order, mean what the mode means, but for excepted sites of no bits. */
  ghost predicate WireguardRight(enabled: bool, mode: Mode, ips: seq<IpAddress>, e: Endpoints,
                                 allowed: seq<IpAddress>, excluded: seq<IpAddress>)
    requires Sites4(ips)
  {
    forall rules, order, a :: Applies(rules, order, allowed, e, a) ==>
      RightAt(rules, excluded, order, a, Meaning(if enabled then mode else AllSites, ips, a),
              enabled && mode.ExceptSites? && Longest(ips, a) == 0)
  }

  lemma CompiledRight(enabled: bool, mode: Mode, ips: seq<IpAddress>, e: Endpoints)
    requires Sites4(ips) && Ipv4(e)
    ensures var (m, sites) := SplitTunnelSites(enabled, mode, DEFAULT_RANGES, ips, e);
            WireguardRight(enabled, mode, ips, e, AllowedRanges(DEFAULT_RANGES, m, sites), ExcludedAddresses(m, sites, e))
  {
    var (m, sites) := SplitTunnelSites(enabled, mode, DEFAULT_RANGES, ips, e);
    forall rules, order, a | Applies(rules, order, AllowedRanges(DEFAULT_RANGES, m, sites), e, a)
      ensures RightAt(rules, ExcludedAddresses(m, sites, e), order, a, Meaning(if enabled then mode else AllSites, ips, a),
                      enabled && mode.ExceptSites? && Longest(ips, a) == 0)
    {
      WireguardMeaningIff(rules, enabled, mode, ips, e, order, a);
    }
  }

  /** The ranges, one after the other, as the loops of LocalSocketController::activate copy them. */
  method CopyRanges(ranges: seq<IpAddress>, start: seq<IpAddress>) returns (copy: seq<IpAddress>)
    ensures copy == start + ranges
  {
    copy := start;
    for i := 0 to |ranges|
      invariant copy == start + ranges[..i]
    {
      copy := copy + [ranges[i]];
    }
  }

  /** LocalSocketController::activate, and with it what the daemon will tunnel. */
  method CompileRanges(enabled: bool, mode: Mode, plain: seq<IpAddress>, ips: seq<IpAddress>, e: Endpoints)
    returns (allowed: seq<IpAddress>, excluded: seq<IpAddress>)
    requires Sites4(ips) && Ipv4(e)
    ensures var (m, sites) := SplitTunnelSites(enabled, mode, plain, ips, e);
            allowed == AllowedRanges(plain, m, sites) && excluded == ExcludedAddresses(m, sites, e)
    ensures plain == DEFAULT_RANGES ==> WireguardRight(enabled, mode, ips, e, allowed, excluded)
  {
    var (m, sites) := SplitTunnelSites(enabled, mode, plain, ips, e);
    allowed := [];
    if plain != DEFAULT_RANGES && plain != [] {
      allowed := CopyRanges(plain, allowed);
    } else {
      if m.AllSites? || m.ExceptSites? {
        allowed := allowed + [EVERYTHING];
        allowed := allowed + [EVERYTHING6];
      }
      if m.OnlySites? { allowed := CopyRanges(sites, allowed); }
    }
    excluded := [HostNet(e.server)];
    if m.ExceptSites? { excluded := CopyRanges(sites, excluded); }
    CompiledRight(enabled, mode, ips, e);
  }

  // ------------------------------------------------------------ the routing-table path

  /** The two clients whose traffic is directed by the system's routing table. */
  datatype Client = OpenVpn | Xray

  /**
   * The routes that are there before the connection is reported. OpenVpnConfigurator has
   * `redirect-gateway def1` add the halves only when splitting is off; XrayProtocol adds them,
   * and the way to its server, whenever the mode it was handed is "all sites".
   */
  function SetUpRoutes(client: Client, enabled: bool, mode: Mode, e: Endpoints): seq<Route> {
    if client.OpenVpn? then (if enabled then [] else Entries([LOWER_HALF, UPPER_HALF], Tunnel))
    else if enabled && !mode.AllSites? then []
    else Entries([LOWER_HALF, UPPER_HALF], Tunnel) + Entries([HostNet(e.server)], Bypass)
  }

  /** VpnConnection::onConnectionStateChanged and addSitesRoutes, in the order of the calls. */
  function ConnectedRoutes(enabled: bool, mode: Mode, ips: seq<IpAddress>, e: Endpoints): seq<Route> {
    Entries([HostNet(e.dns1), HostNet(e.dns2)], Tunnel) +
    if !enabled || mode.AllSites? then []
    else if mode.OnlySites? then Entries(ips, Tunnel)
    else Entries([LOWER_HALF, UPPER_HALF], Tunnel) + Entries([HostNet(e.server)] + ips, Bypass)
  }

  function RouteTable(client: Client, enabled: bool, mode: Mode, ips: seq<IpAddress>, e: Endpoints): seq<Route> {
    SetUpRoutes(client, enabled, mode, e) + ConnectedRoutes(enabled, mode, ips, e)
  }

  /** The table as three lists: tunnelled networks, excluded ones, and tunnelled ones again. */
  function TableNets(client: Client, enabled: bool, mode: Mode, ips: seq<IpAddress>, e: Endpoints)
    : (seq<IpAddress>, seq<IpAddress>, seq<IpAddress>)
  {
    var dns, halves := [HostNet(e.dns1), HostNet(e.dns2)], [LOWER_HALF, UPPER_HALF];
    if !enabled || mode.AllSites? then
      if client.Xray? then (halves, [HostNet(e.server)], dns) else (if enabled then dns else halves + dns, [], [])
    else if mode.OnlySites? then (dns + ips, [], [])
    else (dns + halves, [HostNet(e.server)] + ips, [])
  }

  lemma TableIsThreeLists(client: Client, enabled: bool, mode: Mode, ips: seq<IpAddress>, e: Endpoints)
    ensures var (nets, banned, tail) := TableNets(client, enabled, mode, ips, e);
            RouteTable(client, enabled, mode, ips, e) == Entries(nets, Tunnel) + Entries(banned, Bypass) + Entries(tail, Tunnel)
  {
  }

  /** Entries that do not match change no decision. */
  lemma {:induction false} MissedTail(rules: Rules, t: seq<Route>, nets: seq<IpAddress>, via: Via, a: Bits)
    requires WellFormed(t) && AllValid(nets) && Longest(nets, a) == -1
    ensures WellFormed(t + Entries(nets, via)) && Decide(rules, t + Entries(nets, via), a) == Decide(rules, t, a)
  {
    if nets == [] {
      assert t + Entries(nets, via) == t;
    } else {
      var n := |nets| - 1;
      MissedTail(rules, t, nets[..n], via, a);
      var longer := t + Entries(nets, via);
      assert longer[..|longer| - 1] == t + Entries(nets[..n], via);
      assert longer[|longer| - 1] == Route(nets[n], via);
    }
  }

  /** What the helper's routes go by: no metrics; who wins a tie is up to the system. */
  function HelperRules(laterWins: bool): Rules { Rules(0, 0, laterWins) }

  /** An excepted site must have at least this many bits to win against the halves. */
  function BitsNeeded(laterWins: bool): nat { if laterWins then 1 else 2 }

  /**
   * What the routing table decides, for every setting and every list of sites: with splitting
   * on and the mode "all sites" OpenVPN tunnels nothing and Xray everything, and an exception
   * needs one bit, or two where a route that is there stays, to win against the halves.
   */
  lemma RouteTableDecision(client: Client, laterWins: bool, enabled: bool, mode: Mode, ips: seq<IpAddress>, e: Endpoints, a: Bits)
    requires Sites4(ips) && Ipv4(e) && Ordinary(e, a) && |a| == 32
    ensures var t := RouteTable(client, enabled, mode, ips, e);
            WellFormed(t) &&
            Decide(HelperRules(laterWins), t, a) == if !enabled then Tunnel
                                                    else if mode.AllSites? then (if client.Xray? then Tunnel else Bypass)
                                                    else if mode.OnlySites? then (if InSome(ips, a) then Tunnel else Bypass)
                                                    else (if Longest(ips, a) >= BitsNeeded(laterWins) then Bypass else Tunnel)
  {
    var (nets, banned, tail) := TableNets(client, enabled, mode, ips, e);
    TableLongest(client, enabled, mode, ips, e, a);
    LongestIs(ips, a);
    TableIsThreeLists(client, enabled, mode, ips, e);
    TwoListsDecide(HelperRules(laterWins), nets, banned, Bypass, a);
    MissedTail(HelperRules(laterWins), Entries(nets, Tunnel) + Entries(banned, Bypass), tail, Tunnel, a);
  }

  lemma TableNetsValid(client: Client, enabled: bool, mode: Mode, ips: seq<IpAddress>, e: Endpoints)
    requires Sites4(ips)
    ensures var (nets, banned, tail) := TableNets(client, enabled, mode, ips, e);
            AllValid(nets) && AllValid(banned) && AllValid(tail)
  {
  }

  lemma TableLongest(client: Client, enabled: bool, mode: Mode, ips: seq<IpAddress>, e: Endpoints, a: Bits)
    requires Sites4(ips) && Ipv4(e) && Ordinary(e, a) && |a| == 32
    ensures var (nets, banned, tail) := TableNets(client, enabled, mode, ips, e);
            && AllValid(nets) && AllValid(banned) && AllValid(tail)
            && Longest(nets, a) == (if !enabled || (client.Xray? && mode.AllSites?) || mode.ExceptSites? then 1
                                    else if mode.OnlySites? then Longest(ips, a) else -1)
            && Longest(banned, a) == (if enabled && mode.ExceptSites? then Longest(ips, a) else -1)
            && Longest(tail, a) == -1
  {
    var dns, halves := [HostNet(e.dns1), HostNet(e.dns2)], [LOWER_HALF, UPPER_HALF];
    TableNetsValid(client, enabled, mode, ips, e);
    EndpointsMissed(e, a);
    HalvesLongest(a, 32);
    if !enabled || mode.AllSites? {
      if client.OpenVpn? && !enabled { LongestConcat(halves, dns, a); }
    } else if mode.OnlySites? {
      LongestConcat(dns, ips, a);
    } else {
      LongestConcat(dns, halves, a);
      LongestConcat([HostNet(e.server)], ips, a);
    }
  }

  /** The cases in which the table does not mean what the mode means. */
  predicate TableException(client: Client, laterWins: bool, enabled: bool, mode: Mode, longest: int) {
    enabled && ((client.OpenVpn? && mode.AllSites?) || (mode.ExceptSites? && 0 <= longest < BitsNeeded(laterWins)))
  }

  /** When the table gives the mode its plain meaning: Xray has no exception in the mode "all sites". */
  lemma RouteTableMeaningIff(client: Client, laterWins: bool, enabled: bool, mode: Mode, ips: seq<IpAddress>, e: Endpoints, a: Bits)
    requires Sites4(ips) && Ipv4(e) && Ordinary(e, a) && |a| == 32
    ensures var t := RouteTable(client, enabled, mode, ips, e);
            WellFormed(t) &&
            (Decide(HelperRules(laterWins), t, a) == Meaning(if enabled then mode else AllSites, ips, a)
             <==> !TableException(client, laterWins, enabled, mode, Longest(ips, a)))
  {
    RouteTableDecision(client, laterWins, enabled, mode, ips, e, a);
    LongestIs(ips, a);
  }

  /** OpenVPN, splitting on, mode "all sites": no ordinary address is tunnelled. */
  lemma AllSitesTunnelsNothing(laterWins: bool, ips: seq<IpAddress>, e: Endpoints, a: Bits)
    requires Sites4(ips) && Ipv4(e) && Ordinary(e, a) && |a| == 32
    ensures WellFormed(RouteTable(OpenVpn, true, AllSites, ips, e))
    ensures Decide(HelperRules(laterWins), RouteTable(OpenVpn, true, AllSites, ips, e), a) == Bypass
    ensures Meaning(AllSites, ips, a) == Tunnel
  {
    RouteTableDecision(OpenVpn, laterWins, true, AllSites, ips, e, a);
  }

  ghost predicate TableRight(client: Client, enabled: bool, mode: Mode, ips: seq<IpAddress>, e: Endpoints, t: seq<Route>)
    requires Sites4(ips) && WellFormed(t)
  {
    forall laterWins, a :: Ordinary(e, a) && |a| == 32 ==>
      (Decide(HelperRules(laterWins), t, a) == Meaning(if enabled then mode else AllSites, ips, a)
       <==> !TableException(client, laterWins, enabled, mode, Longest(ips, a)))
  }

  lemma TableWellFormed(client: Client, enabled: bool, mode: Mode, ips: seq<IpAddress>, e: Endpoints)
    requires Sites4(ips)
    ensures WellFormed(RouteTable(client, enabled, mode, ips, e))
  {
    var (nets, banned, tail) := TableNets(client, enabled, mode, ips, e);
    TableNetsValid(client, enabled, mode, ips, e);
    TableIsThreeLists(client, enabled, mode, ips, e);
    TableIndex(nets, banned, Bypass);
  }

  lemma ConnectedRight(client: Client, enabled: bool, mode: Mode, ips: seq<IpAddress>, e: Endpoints)
    requires Sites4(ips) && Ipv4(e)
    ensures var t := RouteTable(client, enabled, mode, ips, e); WellFormed(t) && TableRight(client, enabled, mode, ips, e, t)
  {
    TableWellFormed(client, enabled, mode, ips, e);
    forall laterWins, a | Ordinary(e, a) && |a| == 32
      ensures Decide(HelperRules(laterWins), RouteTable(client, enabled, mode, ips, e), a)
              == Meaning(if enabled then mode else AllSites, ips, a)
              <==> !TableException(client, laterWins, enabled, mode, Longest(ips, a))
    {
      RouteTableMeaningIff(client, laterWins, enabled, mode, ips, e, a);
    }
  }

  /**
   * The commands themselves, issued one list after the other: behind the routes that either
   * client has set up, they give the mode its plain meaning exactly as just said.
   */
  method IssueRoutes(enabled: bool, mode: Mode, ips: seq<IpAddress>, e: Endpoints) returns (t: seq<Route>)
    requires Sites4(ips) && Ipv4(e)
    ensures t == ConnectedRoutes(enabled, mode, ips, e)
    ensures forall client :: WellFormed(SetUpRoutes(client, enabled, mode, e) + t)
                             && TableRight(client, enabled, mode, ips, e, SetUpRoutes(client, enabled, mode, e) + t)
  {
    t := Entries([HostNet(e.dns1), HostNet(e.dns2)], Tunnel);
    if enabled {
      if mode.OnlySites? {
        t := t + Entries(ips, Tunnel);
      } else if mode.ExceptSites? {
        t := t + Entries([LOWER_HALF], Tunnel);
        t := t + Entries([UPPER_HALF], Tunnel);
        t := t + Entries([HostNet(e.server)], Bypass);
        t := t + Entries(ips, Bypass);
      }
    }
    assert t == ConnectedRoutes(enabled, mode, ips, e);
    forall client ensures WellFormed(SetUpRoutes(client, enabled, mode, e) + t)
                          && TableRight(client, enabled, mode, ips, e, SetUpRoutes(client, enabled, mode, e) + t)
    {
      ConnectedRight(client, enabled, mode, ips, e);
    }
  }

  // ------------------------------------------------------------ the Android path

  /** Insertion-ordered set: an element already present keeps its place. */
  function AddRoute(routes: seq<Route>, r: Route): seq<Route> {
    if r in routes then routes else routes + [r]
  }

  function AddRoutes(routes: seq<Route>, more: seq<Route>): seq<Route> {
    if more == [] then routes else AddRoute(AddRoutes(routes, more[..|more| - 1]), more[|more| - 1])
  }

  function Without(routes: seq<Route>, net: IpAddress): seq<Route> {
    if routes == [] then []
    else (if routes[0].net == net then [] else [routes[0]]) + Without(routes[1..], net)
  }

  /** ProtocolConfig.Builder.processSplitTunneling, IPv4 part; `saved` are the protocol's routes. */
  function SplitRoutes(mode: Mode, sites: seq<IpAddress>, saved: seq<Route>): seq<Route> {
    if mode.OnlySites? && sites != [] then
      AddRoutes(AddRoutes([], Entries(sites, Tunnel)), Without(saved, EVERYTHING))
    else if mode.ExceptSites? && sites != [] then
      AddRoutes(AddRoutes([], [Route(EVERYTHING, Tunnel)] + Entries(sites, Bypass)), saved)
    else saved
  }

  /** The last route that matches decides: additions and removals happen in list order. */
  function LastMatch(routes: seq<Route>, a: Bits): Via
    requires WellFormed(routes)
  {
    if routes == [] then Bypass
    else if Contains(routes[|routes| - 1].net, a) then routes[|routes| - 1].via
    else LastMatch(routes[..|routes| - 1], a)
  }

  const LOOPBACK := IpAddress([false] + Ones(7) + Zeros(24), 8)

  // Numeric value of an address, needed because the range set works on numbers.
  function Val(b: Bits): (v: nat)
    ensures v < Pow2(|b|)
  {
    if b == [] then 0 else (if b[0] then Pow2(|b| - 1) else 0) + Val(b[1..])
  }

  /** First and last address of a network, as IpRange.from computes them. */
  function RangeOf(p: IpAddress): (r: IpRanges.Range)
    requires Valid(p)
    ensures r.start <= r.end < Pow2(|p.bits|)
    decreases p.bits
  {
    if p.len == 0 then IpRanges.Range(0, Pow2(|p.bits|) - 1) else
      var r := RangeOf(IpAddress(p.bits[1..], p.len - 1));
      var high := if p.bits[0] then Pow2(|p.bits| - 1) else 0;
      IpRanges.Range(high + r.start, high + r.end)
  }

  /** Membership in the interval is membership in the network. */
  lemma {:induction false} RangeOfContains(p: IpAddress, a: Bits)
    requires Valid(p) && |a| == |p.bits|
    ensures IpRanges.InRange(RangeOf(p), Val(a)) <==> Contains(p, a)
    decreases p.bits
  {
    if p.len > 0 {
      RangeOfContains(IpAddress(p.bits[1..], p.len - 1), a[1..]);
      ContainsTail(p, a);
    }
  }

  lemma ContainsTail(p: IpAddress, a: Bits)
    requires Valid(p) && p.len > 0 && |a| == |p.bits|
    ensures Contains(p, a) <==> a[0] == p.bits[0] && Contains(IpAddress(p.bits[1..], p.len - 1), a[1..])
  {
    var n := p.len - 1;
    assert a[..p.len] == [a[0]] + a[1..][..n];
    assert p.bits[..p.len] == [p.bits[0]] + p.bits[1..][..n];
    assert a[..p.len] == p.bits[..p.len] ==> a[..p.len][1..] == p.bits[..p.len][1..];
  }

  /** The intervals hold exactly the addresses whose last matching route is an inclusion. */
  ghost predicate Tracks(rs: seq<IpRanges.Range>, routes: seq<Route>)
    requires WellFormed(routes)
  {
    forall a: Bits :: |a| == 32 ==> (IpRanges.Covers(rs, Val(a)) <==> LastMatch(routes, a) == Tunnel)
  }

  lemma TracksNext(rs: seq<IpRanges.Range>, after: seq<IpRanges.Range>, routes: seq<Route>, i: nat)
    requires WellFormed(routes) && i < |routes| && |routes[i].net.bits| == 32 && Tracks(rs, routes[..i])
    requires forall x :: IpRanges.Covers(after, x) <==>
               if IpRanges.InRange(RangeOf(routes[i].net), x) then routes[i].via == Tunnel else IpRanges.Covers(rs, x)
    ensures Tracks(after, routes[..i + 1])
  {
    assert routes[..i + 1][..i] == routes[..i];
    forall a: Bits | |a| == 32
      ensures IpRanges.Covers(after, Val(a)) <==> LastMatch(routes[..i + 1], a) == Tunnel
    {
      RangeOfContains(routes[i].net, a);
    }
  }

  /** The loop over the routes: additions and removals in list order. */
  method ApplyRoutes(routes: seq<Route>) returns (ranges: IpRanges.IpRangeSet)
    requires WellFormed(routes) && forall i :: 0 <= i < |routes| ==> |routes[i].net.bits| == 32
    ensures fresh(ranges) && ranges.maxIp == Pow2(32) - 1 && ranges.Valid()
    ensures Tracks(ranges.ranges, routes)
  {
    ranges := new IpRanges.IpRangeSet(Pow2(32) - 1);
    for i := 0 to |routes|
      invariant fresh(ranges) && ranges.maxIp == Pow2(32) - 1 && ranges.Valid()
      invariant Tracks(ranges.ranges, routes[..i])
    {
      ghost var before := ranges.ranges;
      var r := RangeOf(routes[i].net);
      if routes[i].via.Tunnel? { ranges.Add(r); } else { ranges.Remove(r); }
      TracksNext(before, ranges.ranges, routes, i);
    }
    assert routes[..|routes|] == routes;
  }

  /**
   * ProtocolConfig.Builder.processRoutes before Android 13: whatever the list of routes, an
   * address is in one of the built networks exactly if its last matching route is an inclusion
   * and it is not a loopback address.
   */
  method BuildNetworks(routes: seq<Route>) returns (blocks: seq<IpRanges.Block>)
    requires WellFormed(routes) && forall i :: 0 <= i < |routes| ==> |routes[i].net.bits| == 32
    ensures forall b :: b in blocks ==> IpRanges.Aligned(b, 32) && !IpRanges.InRange(RangeOf(LOOPBACK), b.net)
    ensures forall a: Bits :: |a| == 32 ==>
              (IpRanges.InSome(blocks, Val(a)) <==> LastMatch(routes, a) == Tunnel && !Contains(LOOPBACK, a))
  {
    var ranges := ApplyRoutes(routes);
    var loopback := RangeOf(LOOPBACK);
    forall a: Bits | |a| == 32 ensures IpRanges.InRange(loopback, Val(a)) <==> Contains(LOOPBACK, a) {
      RangeOfContains(LOOPBACK, a);
    }
    ranges.Remove(loopback);
    blocks := ranges.Subnets(32);
    forall b | b in blocks ensures !IpRanges.InRange(loopback, b.net) {
      IpRanges.InSomeMember(blocks, b, b.net);
    }
  }

  /** The last filter of processRoutes: an inclusion whose address begins with 127 goes. */
  predicate Kept(r: Route) {
    !(r.via.Tunnel? && |r.net.bits| == 32 && Contains(LOOPBACK, r.net.bits))
  }

  method DropLoopback(routes: seq<Route>) returns (kept: seq<Route>)
    ensures forall r :: r in kept <==> r in routes && Kept(r)
  {
    kept := [];
    for i := 0 to |routes|
      invariant forall r :: r in kept <==> r in routes[..i] && Kept(r)
    {
      assert routes[..i + 1] == routes[..i] + [routes[i]];
      if Kept(routes[i]) { kept := kept + [routes[i]]; }
    }
    assert routes[..|routes|] == routes;
  }

  predicate HasExclusion(routes: seq<Route>) { exists i :: 0 <= i < |routes| && routes[i].via.Bypass? }

  /** The networks the VPN interface gets: routes as they were, or the blocks built from them. */
  datatype Networks = Unchanged(routes: seq<Route>) | Rebuilt(blocks: seq<IpRanges.Block>)

  predicate Tunnelled(n: Networks, a: Bits) {
    if n.Unchanged? then
      exists i :: 0 <= i < |n.routes| && Valid(n.routes[i].net) && Contains(n.routes[i].net, a)
    else IpRanges.InSome(n.blocks, Val(a))
  }

  predicate KeptMatch(routes: seq<Route>, a: Bits)
    requires WellFormed(routes)
  {
    exists i :: 0 <= i < |routes| && Contains(routes[i].net, a) && Kept(routes[i])
  }

  /** What is to be tunnelled, whether or not the list has to be rebuilt. */
  predicate Wanted(routes: seq<Route>, a: Bits)
    requires WellFormed(routes)
  {
    if HasExclusion(routes) then LastMatch(routes, a) == Tunnel && !Contains(LOOPBACK, a) else KeptMatch(routes, a)
  }

  ghost predicate Processed(routes: seq<Route>, n: Networks)
    requires WellFormed(routes)
  {
    forall a: Bits :: |a| == 32 ==> (Tunnelled(n, a) <==> Wanted(routes, a))
  }

  /** ProtocolConfig.Builder.processRoutes, IPv4 part; after a rebuild the last filter finds nothing. */
  method ProcessRoutes(routes: seq<Route>) returns (n: Networks)
    requires WellFormed(routes) && forall i :: 0 <= i < |routes| ==> |routes[i].net.bits| == 32
    ensures Processed(routes, n)
  {
    if exists i :: 0 <= i < |routes| && routes[i].via.Bypass? {
      var blocks := BuildNetworks(routes);
      n := Rebuilt(blocks);
    } else {
      var kept := DropLoopback(routes);
      n := Unchanged(kept);
      KeptMatches(routes, kept);
    }
  }

  lemma KeptMatches(routes: seq<Route>, kept: seq<Route>)
    requires WellFormed(routes) && !HasExclusion(routes) && forall r :: r in kept <==> r in routes && Kept(r)
    ensures Processed(routes, Unchanged(kept))
  {
    forall a: Bits | |a| == 32
      ensures Tunnelled(Unchanged(kept), a) <==> KeptMatch(routes, a)
    {
      if KeptMatch(routes, a) {
        var i :| 0 <= i < |routes| && Contains(routes[i].net, a) && Kept(routes[i]);
        assert routes[i] in kept;
        var j :| 0 <= j < |kept| && kept[j] == routes[i];
        assert Contains(kept[j].net, a);
      }
      if Tunnelled(Unchanged(kept), a) {
        var j :| 0 <= j < |kept| && Valid(kept[j].net) && Contains(kept[j].net, a);
        assert kept[j] in routes;
        var i :| 0 <= i < |routes| && routes[i] == kept[j];
        assert Contains(routes[i].net, a);
      }
    }
  }

  lemma {:induction false} LastMatchConcat(s: seq<Route>, t: seq<Route>, a: Bits)
    requires WellFormed(s) && WellFormed(t)
    ensures LastMatch(s + t, a) ==
              if exists i :: 0 <= i < |t| && Contains(t[i].net, a) then LastMatch(t, a) else LastMatch(s, a)
    decreases t
  {
    if t == [] {
      assert s + t == s;
    } else {
      var n := |t| - 1;
      LastMatchConcat(s, t[..n], a);
      assert (s + t)[..|s + t| - 1] == s + t[..n];
      assert forall i :: 0 <= i < n ==> t[..n][i] == t[i];
    }
  }

  /** Lists whose routes all go one way decide by membership alone. */
  lemma {:induction false} LastMatchUniform(t: seq<Route>, via: Via, a: Bits)
    requires WellFormed(t) && forall i :: 0 <= i < |t| ==> t[i].via == via
    ensures LastMatch(t, a) == if exists i :: 0 <= i < |t| && Contains(t[i].net, a) then via else Bypass
  {
    if t != [] {
      var n := |t| - 1;
      LastMatchUniform(t[..n], via, a);
      assert forall i :: 0 <= i < n ==> t[..n][i] == t[i];
    }
  }

  /** Adding a list appends exactly its elements that were not there. */
  lemma {:induction false} AddRoutesTail(routes: seq<Route>, more: seq<Route>) returns (added: seq<Route>)
    ensures AddRoutes(routes, more) == routes + added
    ensures forall r :: r in added ==> r in more && r !in routes
    ensures forall r :: r in more ==> r in routes || r in added
  {
    added := [];
    if more != [] {
      var n := |more| - 1;
      added := AddRoutesTail(routes, more[..n]);
      assert more == more[..n] + [more[n]];
      if more[n] !in routes + added {
        assert routes + added + [more[n]] == routes + (added + [more[n]]);
        added := added + [more[n]];
      }
    }
  }

  lemma {:induction false} AddRoutesConcat(routes: seq<Route>, s: seq<Route>, t: seq<Route>)
    ensures AddRoutes(routes, s + t) == AddRoutes(AddRoutes(routes, s), t)
  {
    if t == [] {
      assert s + t == s;
    } else {
      AddRoutesConcat(routes, s, t[..|t| - 1]);
      assert (s + t)[..|s + t| - 1] == s + t[..|t| - 1];
    }
  }

  /** The protocol's own routes when its AllowedIPs are the default ones. */
  const DEFAULT_ROUTES := [Route(EVERYTHING, Tunnel)]

  lemma OnlyRoutes(sites: seq<IpAddress>)
    requires sites != []
    ensures forall r :: r in SplitRoutes(OnlySites, sites, DEFAULT_ROUTES) <==> r in Entries(sites, Tunnel)
  {
    var t := AddRoutesTail([], Entries(sites, Tunnel));
    assert [] + t == t;
    assert Without(DEFAULT_ROUTES, EVERYTHING) == [] by { assert DEFAULT_ROUTES[1..] == []; }
    assert SplitRoutes(OnlySites, sites, DEFAULT_ROUTES) == t;
  }

  lemma SameNets(t: seq<Route>, nets: seq<IpAddress>, via: Via, a: Bits)
    requires AllValid(nets) && WellFormed(t)
    requires forall r :: r in t <==> r in Entries(nets, via)
    ensures InSome(nets, a) <==> exists i :: 0 <= i < |t| && Contains(t[i].net, a)
  {
    if InSome(nets, a) {
      var i :| 0 <= i < |nets| && Contains(nets[i], a);
      assert Entries(nets, via)[i] in t;
      var j :| 0 <= j < |t| && t[j] == Route(nets[i], via);
      assert Contains(t[j].net, a);
    }
    if j :| 0 <= j < |t| && Contains(t[j].net, a) {
      assert t[j] in Entries(nets, via);
    }
  }

  lemma ExceptRoutes(sites: seq<IpAddress>) returns (rest: seq<Route>)
    requires sites != []
    ensures SplitRoutes(ExceptSites, sites, DEFAULT_ROUTES) == DEFAULT_ROUTES + rest
    ensures forall r :: r in rest <==> r in Entries(sites, Bypass)
  {
    var first, banned := DEFAULT_ROUTES, Entries(sites, Bypass);
    AddRoutesConcat([], first, banned);
    assert AddRoutes([], first) == first by { assert first[..0] == []; }
    rest := AddRoutesTail(first, banned);
    var none := AddRoutesTail(first + rest, DEFAULT_ROUTES);
    assert none == [] by { assert forall r :: r !in none; }
    assert first + rest + [] == first + rest;
    assert forall r :: r in banned ==> r.via == Bypass;
  }

  lemma AndroidExceptSites(sites: seq<IpAddress>, a: Bits)
    requires Sites4(sites) && sites != [] && |a| == 32
    ensures WellFormed(SplitRoutes(ExceptSites, sites, DEFAULT_ROUTES))
    ensures LastMatch(SplitRoutes(ExceptSites, sites, DEFAULT_ROUTES), a) == if InSome(sites, a) then Bypass else Tunnel
  {
    var rest := ExceptRoutes(sites);
    assert forall i :: 0 <= i < |rest| ==> rest[i] in Entries(sites, Bypass);
    LastMatchConcat(DEFAULT_ROUTES, rest, a);
    LastMatchUniform(rest, Bypass, a);
    SameNets(rest, sites, Bypass, a);
    DefaultMatches(a);
  }

  lemma DefaultMatches(a: Bits)
    requires |a| == 32
    ensures LastMatch(DEFAULT_ROUTES, a) == Tunnel
  {
    HalvesCover(a, 32);
  }

  /** Some site whose own address does not begin with 127 matches. */
  predicate SiteOffLoopback(sites: seq<IpAddress>, a: Bits)
    requires Sites4(sites)
  {
    exists i :: 0 <= i < |sites| && Contains(sites[i], a) && !Contains(LOOPBACK, sites[i].bits)
  }

  /**
   * What the interface tunnels: without exclusions, whatever a route contains that does not
   * begin with 127; with exclusions, loopback addresses are left out.
   */
  predicate AndroidTunnels(enabled: bool, mode: Mode, ips: seq<IpAddress>, a: Bits)
    requires Sites4(ips) && |a| == 32
  {
    if !enabled || mode.AllSites? then true
    else if mode.OnlySites? then SiteOffLoopback(ips, a)
    else ips == [] || (!InSome(ips, a) && !Contains(LOOPBACK, a))
  }

  predicate Width4(t: seq<Route>) { forall i :: 0 <= i < |t| ==> Valid(t[i].net) && |t[i].net.bits| == 32 }

  lemma OnlySitesWanted(ips: seq<IpAddress>, e: Endpoints, a: Bits)
    requires Sites4(ips) && Ipv4(e) && Ordinary(e, a) && |a| == 32
    ensures var t := SplitRoutes(OnlySites, ips + [HostNet(e.dns1), HostNet(e.dns2)], DEFAULT_ROUTES);
            Width4(t) && (Wanted(t, a) <==> SiteOffLoopback(ips, a))
  {
    var sites := ips + [HostNet(e.dns1), HostNet(e.dns2)];
    var want := Entries(sites, Tunnel);
    var t := SplitRoutes(OnlySites, sites, DEFAULT_ROUTES);
    OnlyRoutes(sites);
    assert forall i :: 0 <= i < |t| ==> t[i] in want;
    EndpointsMissed(e, a);
    if KeptMatch(t, a) {
      var i :| 0 <= i < |t| && Contains(t[i].net, a) && Kept(t[i]);
      var j :| 0 <= j < |want| && want[j] == t[i];
      assert j < |ips| && Contains(ips[j], a);
    }
    if SiteOffLoopback(ips, a) {
      var j :| 0 <= j < |ips| && Contains(ips[j], a) && !Contains(LOOPBACK, ips[j].bits);
      assert want[j] in t;
      var i :| 0 <= i < |t| && t[i] == Route(ips[j], Tunnel);
      assert Contains(t[i].net, a);
    }
  }

  lemma ExceptSitesWanted(sites: seq<IpAddress>, a: Bits)
    requires Sites4(sites) && sites != [] && |a| == 32
    ensures var t := SplitRoutes(ExceptSites, sites, DEFAULT_ROUTES);
            Width4(t) && (Wanted(t, a) <==> !InSome(sites, a) && !Contains(LOOPBACK, a))
  {
    var rest := ExceptRoutes(sites);
    var t := DEFAULT_ROUTES + rest;
    assert forall i :: 0 <= i < |rest| ==> rest[i] in Entries(sites, Bypass);
    assert Entries(sites, Bypass)[0] in rest;
    var k :| 0 <= k < |rest| && rest[k] == Entries(sites, Bypass)[0];
    assert t[1 + k].via.Bypass?;
    AndroidExceptSites(sites, a);
  }

  lemma DefaultWanted(a: Bits)
    requires |a| == 32
    ensures Width4(DEFAULT_ROUTES) && Wanted(DEFAULT_ROUTES, a)
  {
    HalvesCover(a, 32);
    assert LOOPBACK.bits[..8][1] && !EVERYTHING.bits[..8][1];
    assert Contains(DEFAULT_ROUTES[0].net, a) && Kept(DEFAULT_ROUTES[0]);
  }

  /** The routes that processSplitTunneling leaves, from the settings. */
  function AndroidRoutes(enabled: bool, mode: Mode, ips: seq<IpAddress>, e: Endpoints): seq<Route> {
    var (m, sites) := SplitTunnelSites(enabled, mode, DEFAULT_RANGES, ips, e);
    SplitRoutes(m, sites, DEFAULT_ROUTES)
  }

  lemma AndroidWanted(enabled: bool, mode: Mode, ips: seq<IpAddress>, e: Endpoints, a: Bits)
    requires Sites4(ips) && Ipv4(e) && Ordinary(e, a) && |a| == 32
    ensures var t := AndroidRoutes(enabled, mode, ips, e);
            Width4(t) && (Wanted(t, a) <==> AndroidTunnels(enabled, mode, ips, a))
  {
    var (m, sites) := SplitTunnelSites(enabled, mode, DEFAULT_RANGES, ips, e);
    DefaultWanted(a);
    if m.OnlySites? {
      OnlySitesWanted(ips, e, a);
    } else if m.ExceptSites? && sites != [] {
      assert sites == ips;
      ExceptSitesWanted(sites, a);
    }
  }

  lemma AndroidRoutesWidth(enabled: bool, mode: Mode, ips: seq<IpAddress>, e: Endpoints)
    requires Sites4(ips) && Ipv4(e)
    ensures Width4(AndroidRoutes(enabled, mode, ips, e))
  {
    var (m, sites) := SplitTunnelSites(enabled, mode, DEFAULT_RANGES, ips, e);
    var t := SplitRoutes(m, sites, DEFAULT_ROUTES);
    if m.OnlySites? {
      OnlyRoutes(sites);
      assert forall i :: 0 <= i < |t| ==> t[i] in Entries(sites, Tunnel);
    } else if m.ExceptSites? && sites != [] {
      var rest := ExceptRoutes(sites);
      assert forall i :: 0 <= i < |rest| ==> rest[i] in Entries(sites, Bypass);
    }
  }

  /** Which addresses the networks of the interface tunnel, for every setting and every list of sites. */
  ghost predicate AndroidRight(enabled: bool, mode: Mode, ips: seq<IpAddress>, e: Endpoints, n: Networks)
    requires Sites4(ips)
  {
    forall a: Bits :: Ordinary(e, a) && |a| == 32 ==> (Tunnelled(n, a) <==> AndroidTunnels(enabled, mode, ips, a))
  }

  /** The whole Android path, from the settings to the networks of the VPN interface. */
  method CompileAndroid(enabled: bool, mode: Mode, ips: seq<IpAddress>, e: Endpoints) returns (n: Networks)
    requires Sites4(ips) && Ipv4(e)
    ensures AndroidRight(enabled, mode, ips, e, n)
  {
    AndroidRoutesWidth(enabled, mode, ips, e);
    n := ProcessRoutes(AndroidRoutes(enabled, mode, ips, e));
    forall a: Bits | Ordinary(e, a) && |a| == 32 ensures Tunnelled(n, a) <==> AndroidTunnels(enabled, mode, ips, a) {
      AndroidWanted(enabled, mode, ips, e, a);
    }
  }

  /** When what the interface tunnels is the plain meaning of the mode. */
  lemma AndroidMeaningIff(enabled: bool, mode: Mode, ips: seq<IpAddress>, e: Endpoints, n: Networks, a: Bits)
    requires Sites4(ips) && Ipv4(e) && Ordinary(e, a) && |a| == 32 && AndroidRight(enabled, mode, ips, e, n)
    ensures (Tunnelled(n, a) <==> Meaning(if enabled then mode else AllSites, ips, a) == Tunnel)
            <==> (enabled && mode.OnlySites? && InSome(ips, a) ==> SiteOffLoopback(ips, a))
                 && (enabled && mode.ExceptSites? && ips != [] && Contains(LOOPBACK, a) ==> InSome(ips, a))
  {
    assert SiteOffLoopback(ips, a) ==> InSome(ips, a);
  }

  /** In the mode that tunnels only sites, the site 127.0.0.1/2 is dropped, and 64.0.0.0 with it. */
  lemma LoopbackSiteIsDropped(e: Endpoints, n: Networks)
    requires Ipv4(e) && Ordinary(e, Zeros(32)[1 := true])
    requires AndroidRight(true, OnlySites, [IpAddress(LOOPBACK.bits[31 := true], 2)], e, n)
    ensures var site, a := IpAddress(LOOPBACK.bits[31 := true], 2), Zeros(32)[1 := true];
            InSome([site], a) && !Tunnelled(n, a)
  {
    var site, a := IpAddress(LOOPBACK.bits[31 := true], 2), Zeros(32)[1 := true];
    assert a[..2] == [false, true] && site.bits[..2] == [false, true];
    assert Contains([site][0], a);
    assert site.bits[..8] == LOOPBACK.bits[..8];
  }

  // ------------------------------------------------------------ agreement

  /**
   * When the three compilations give the mode its plain meaning, at every ordinary IPv4 address
   * and for every setting. Each has its own exceptions: the daemon an excepted site of no bits;
   * the routing table the mode "all sites" on OpenVPN and excepted sites of too few bits; Android, in its
   * finished networks, tunnelled sites whose address begins with 127 and, where there are
   * exclusions, loopback addresses.
   */
  lemma ThreePathsAgree(rules: Rules, client: Client, laterWins: bool, enabled: bool, mode: Mode, ips: seq<IpAddress>, e: Endpoints,
                        order: seq<IpAddress>, n: Networks, a: Bits)
    requires DaemonRules(rules) && Sites4(ips) && Ipv4(e) && Ordinary(e, a) && |a| == 32
    requires var (m, sites) := SplitTunnelSites(enabled, mode, DEFAULT_RANGES, ips, e);
             SameRanges(order, AllowedRanges(DEFAULT_RANGES, m, sites))
    requires WellFormed(AndroidRoutes(enabled, mode, ips, e)) && Processed(AndroidRoutes(enabled, mode, ips, e), n)
    ensures var (m, sites) := SplitTunnelSites(enabled, mode, DEFAULT_RANGES, ips, e);
            var wireguard := WireguardTable(ExcludedAddresses(m, sites, e), order);
            var table := RouteTable(client, enabled, mode, ips, e);
            var meaning := Meaning(if enabled then mode else AllSites, ips, a);
            && WellFormed(wireguard) && WellFormed(table)
            && (Decide(rules, wireguard, a) == meaning <==> !(enabled && mode.ExceptSites? && Longest(ips, a) == 0))
            && (Decide(HelperRules(laterWins), table, a) == meaning
                <==> !TableException(client, laterWins, enabled, mode, Longest(ips, a)))
            && ((Tunnelled(n, a) <==> meaning == Tunnel)
                <==> (enabled && mode.OnlySites? && InSome(ips, a) ==> SiteOffLoopback(ips, a))
                     && (enabled && mode.ExceptSites? && ips != [] && Contains(LOOPBACK, a) ==> InSome(ips, a)))
  {
    WireguardMeaningIff(rules, enabled, mode, ips, e, order, a);
    RouteTableMeaningIff(client, laterWins, enabled, mode, ips, e, a);
    forall b: Bits | Ordinary(e, b) && |b| == 32 ensures Tunnelled(n, b) <==> AndroidTunnels(enabled, mode, ips, b) {
      AndroidWanted(enabled, mode, ips, e, b);
    }
    AndroidMeaningIff(enabled, mode, ips, e, n, a);
  }

  /**
   * With sites of two bits or more, none of them beginning with 127, and on OpenVPN splitting on
   * only in a splitting mode, all three decide alike outside loopback.
   */
  lemma OrdinarySettingsAgree(rules: Rules, client: Client, laterWins: bool, enabled: bool, mode: Mode, ips: seq<IpAddress>, e: Endpoints,
                              order: seq<IpAddress>, n: Networks, a: Bits)
    requires DaemonRules(rules) && Sites4(ips) && Ipv4(e) && Ordinary(e, a) && |a| == 32
    requires enabled && mode.AllSites? ==> client.Xray?
    requires forall i :: 0 <= i < |ips| ==> ips[i].len >= 2 && !Contains(LOOPBACK, ips[i].bits)
    requires !Contains(LOOPBACK, a)
    requires var (m, sites) := SplitTunnelSites(enabled, mode, DEFAULT_RANGES, ips, e);
             SameRanges(order, AllowedRanges(DEFAULT_RANGES, m, sites))
    requires WellFormed(AndroidRoutes(enabled, mode, ips, e)) && Processed(AndroidRoutes(enabled, mode, ips, e), n)
    ensures var (m, sites) := SplitTunnelSites(enabled, mode, DEFAULT_RANGES, ips, e);
            var wireguard := WireguardTable(ExcludedAddresses(m, sites, e), order);
            var table := RouteTable(client, enabled, mode, ips, e);
            && WellFormed(wireguard) && WellFormed(table)
            && Decide(rules, wireguard, a) == Decide(HelperRules(laterWins), table, a)
            && (Decide(rules, wireguard, a) == Tunnel <==> Tunnelled(n, a))
  {
    ThreePathsAgree(rules, client, laterWins, enabled, mode, ips, e, order, n, a);
    LongestIs(ips, a);
    if InSome(ips, a) {
      var i :| 0 <= i < |ips| && Contains(ips[i], a);
      assert SiteOffLoopback(ips, a) && Longest(ips, a) >= 2;
    }
  }

  // ------------------------------------------------------------ from the stored sites

  /** The plain meaning of the settings as they are stored. */
  function StoredMeaning(enabled: bool, mode: Mode, stored: seq<(SiteText, SiteText)>, a: Bits): Via {
    if !enabled || mode.AllSites? then Tunnel
    else if mode.OnlySites? == StoredMatch(stored, 0, a) then Tunnel else Bypass
  }

  /** Where the daemon's routes mean what is stored: not where a site is excepted with no bit only. */
  ghost predicate StoredWireguard(enabled: bool, mode: Mode, stored: seq<(SiteText, SiteText)>, e: Endpoints,
                                  allowed: seq<IpAddress>, excluded: seq<IpAddress>)
  {
    forall rules, order, a :: Applies(rules, order, allowed, e, a) ==>
      RightAt(rules, excluded, order, a, StoredMeaning(enabled, mode, stored, a),
              enabled && mode.ExceptSites? && StoredMatch(stored, 0, a) && !StoredMatch(stored, 1, a))
  }

  ghost predicate StoredTable(client: Client, enabled: bool, mode: Mode, stored: seq<(SiteText, SiteText)>, e: Endpoints, t: seq<Route>)
    requires WellFormed(t)
  {
    forall laterWins, a :: Ordinary(e, a) && |a| == 32 ==>
      (Decide(HelperRules(laterWins), t, a) == StoredMeaning(enabled, mode, stored, a)
       <==> !(client.OpenVpn? && enabled && mode.AllSites?)
            && (enabled && mode.ExceptSites? && StoredMatch(stored, 0, a) ==> StoredMatch(stored, BitsNeeded(laterWins), a)))
  }

  ghost predicate StoredAndroid(enabled: bool, mode: Mode, stored: seq<(SiteText, SiteText)>, e: Endpoints, n: Networks) {
    forall a: Bits :: Ordinary(e, a) && |a| == 32 ==>
      (Tunnelled(n, a) <==>
       if !enabled || mode.AllSites? then true
       else if mode.OnlySites? then StoredOffLoopback(stored, a)
       else !AnySite(stored) || (!StoredMatch(stored, 0, a) && !Contains(LOOPBACK, a)))
  }

  predicate StoredOffLoopback(stored: seq<(SiteText, SiteText)>, a: Bits) {
    exists i :: 0 <= i < |stored| && IsIpOrSubnet(Chosen(stored[i])) && Contains(Denoted(Chosen(stored[i])), a)
                && !Contains(LOOPBACK, Denoted(Chosen(stored[i])).bits)
  }

  predicate AnySite(stored: seq<(SiteText, SiteText)>) { exists i :: 0 <= i < |stored| && IsIpOrSubnet(Chosen(stored[i])) }

  /** The networks stand for the stored sites. */
  ghost predicate Represents(ips: seq<IpAddress>, stored: seq<(SiteText, SiteText)>)
    requires Sites4(ips)
  {
    && (forall a, k: nat :: Longest(ips, a) >= k <==> StoredMatch(stored, k, a))
    && (forall a :: |a| == 32 ==> (SiteOffLoopback(ips, a) <==> StoredOffLoopback(stored, a)))
    && (ips != [] <==> AnySite(stored))
  }

  lemma SelectionRepresents(stored: seq<(SiteText, SiteText)>, texts: seq<SiteText>)
    requires forall t :: t in texts <==> IsIpOrSubnet(t) && exists i :: 0 <= i < |stored| && Chosen(stored[i]) == t
    ensures (forall i :: 0 <= i < |texts| ==> IsIpOrSubnet(texts[i])) && Represents(AllDenoted(texts), stored)
  {
    assert forall i :: 0 <= i < |texts| ==> texts[i] in texts;
    var ips := AllDenoted(texts);
    forall a, k: nat ensures Longest(ips, a) >= k <==> StoredMatch(stored, k, a) { SelectionMatches(stored, texts, k, a); }
    forall a | |a| == 32 ensures SiteOffLoopback(ips, a) <==> StoredOffLoopback(stored, a) {
      SelectionOffLoopback(stored, texts, a);
    }
    if texts != [] {
      var j :| 0 <= j < |stored| && Chosen(stored[j]) == texts[0];
      assert AnySite(stored);
    }
    if AnySite(stored) {
      var j :| 0 <= j < |stored| && IsIpOrSubnet(Chosen(stored[j]));
      assert Chosen(stored[j]) in texts;
    }
  }

  lemma SelectionOffLoopback(stored: seq<(SiteText, SiteText)>, texts: seq<SiteText>, a: Bits)
    requires forall t :: t in texts <==> IsIpOrSubnet(t) && exists i :: 0 <= i < |stored| && Chosen(stored[i]) == t
    requires |a| == 32 && forall i :: 0 <= i < |texts| ==> IsIpOrSubnet(texts[i])
    ensures SiteOffLoopback(AllDenoted(texts), a) <==> StoredOffLoopback(stored, a)
  {
    var ips := AllDenoted(texts);
    if SiteOffLoopback(ips, a) {
      var i :| 0 <= i < |ips| && Contains(ips[i], a) && !Contains(LOOPBACK, ips[i].bits);
      assert texts[i] in texts;
      var j :| 0 <= j < |stored| && Chosen(stored[j]) == texts[i];
      assert Contains(Denoted(Chosen(stored[j])), a);
    }
    if StoredOffLoopback(stored, a) {
      var j :| 0 <= j < |stored| && IsIpOrSubnet(Chosen(stored[j])) && Contains(Denoted(Chosen(stored[j])), a)
               && !Contains(LOOPBACK, Denoted(Chosen(stored[j])).bits);
      assert Chosen(stored[j]) in texts;
      var i :| 0 <= i < |texts| && texts[i] == Chosen(stored[j]);
      assert Contains(ips[i], a);
    }
  }

  lemma MeaningAsStored(enabled: bool, mode: Mode, ips: seq<IpAddress>, stored: seq<(SiteText, SiteText)>, a: Bits)
    requires Sites4(ips) && Represents(ips, stored)
    ensures Meaning(if enabled then mode else AllSites, ips, a) == StoredMeaning(enabled, mode, stored, a)
    ensures InSome(ips, a) <==> StoredMatch(stored, 0, a)
  {
    LongestIs(ips, a);
    BitsAsStored(ips, stored, 0, a);
  }

  lemma BitsAsStored(ips: seq<IpAddress>, stored: seq<(SiteText, SiteText)>, k: nat, a: Bits)
    requires Sites4(ips) && Represents(ips, stored)
    ensures Longest(ips, a) >= k <==> StoredMatch(stored, k, a)
    ensures Longest(ips, a) >= 0 <==> StoredMatch(stored, 0, a)
  {
  }

  lemma WireguardAsStored(enabled: bool, mode: Mode, ips: seq<IpAddress>, stored: seq<(SiteText, SiteText)>, e: Endpoints,
                          allowed: seq<IpAddress>, excluded: seq<IpAddress>)
    requires Sites4(ips) && Represents(ips, stored) && WireguardRight(enabled, mode, ips, e, allowed, excluded)
    ensures StoredWireguard(enabled, mode, stored, e, allowed, excluded)
  {
    forall rules, order, a | Applies(rules, order, allowed, e, a)
      ensures RightAt(rules, excluded, order, a, StoredMeaning(enabled, mode, stored, a),
                      enabled && mode.ExceptSites? && StoredMatch(stored, 0, a) && !StoredMatch(stored, 1, a))
    {
      MeaningAsStored(enabled, mode, ips, stored, a);
      BitsAsStored(ips, stored, 1, a);
    }
  }

  lemma TableAsStored(client: Client, enabled: bool, mode: Mode, ips: seq<IpAddress>, stored: seq<(SiteText, SiteText)>, e: Endpoints, t: seq<Route>)
    requires Sites4(ips) && Represents(ips, stored) && WellFormed(t) && TableRight(client, enabled, mode, ips, e, t)
    ensures StoredTable(client, enabled, mode, stored, e, t)
  {
    forall laterWins, a | Ordinary(e, a) && |a| == 32
      ensures Decide(HelperRules(laterWins), t, a) == StoredMeaning(enabled, mode, stored, a)
              <==> !(client.OpenVpn? && enabled && mode.AllSites?)
                   && (enabled && mode.ExceptSites? && StoredMatch(stored, 0, a) ==> StoredMatch(stored, BitsNeeded(laterWins), a))
    {
      MeaningAsStored(enabled, mode, ips, stored, a);
      BitsAsStored(ips, stored, BitsNeeded(laterWins), a);
    }
  }

  lemma AndroidAsStored(enabled: bool, mode: Mode, ips: seq<IpAddress>, stored: seq<(SiteText, SiteText)>, e: Endpoints, n: Networks)
    requires Sites4(ips) && Represents(ips, stored) && AndroidRight(enabled, mode, ips, e, n)
    ensures StoredAndroid(enabled, mode, stored, e, n)
  {
    forall a: Bits | Ordinary(e, a) && |a| == 32 ensures InSome(ips, a) <==> StoredMatch(stored, 0, a) {
      MeaningAsStored(enabled, mode, ips, stored, a);
    }
  }

  /**
   * All three, from the stored map of sites on: the selection, then the ranges for the daemon,
   * the commands for the routing table and the networks for Android.
   */
  method CompileStored(enabled: bool, mode: Mode, stored: seq<(SiteText, SiteText)>, e: Endpoints)
    returns (allowed: seq<IpAddress>, excluded: seq<IpAddress>, t: seq<Route>, n: Networks)
    requires Ipv4(e)
    ensures StoredWireguard(enabled, mode, stored, e, allowed, excluded)
    ensures forall client :: WellFormed(SetUpRoutes(client, enabled, mode, e) + t)
                             && StoredTable(client, enabled, mode, stored, e, SetUpRoutes(client, enabled, mode, e) + t)
    ensures StoredAndroid(enabled, mode, stored, e, n)
  {
    var texts := VpnIps(stored);
    SelectionRepresents(stored, texts);
    var ips := AllDenoted(texts);
    allowed, excluded := CompileRanges(enabled, mode, DEFAULT_RANGES, ips, e);
    WireguardAsStored(enabled, mode, ips, stored, e, allowed, excluded);
    t := IssueRoutes(enabled, mode, ips, e);
    forall client ensures StoredTable(client, enabled, mode, stored, e, SetUpRoutes(client, enabled, mode, e) + t) {
      TableAsStored(client, enabled, mode, ips, stored, e, SetUpRoutes(client, enabled, mode, e) + t);
    }
    n := CompileAndroid(enabled, mode, ips, e);
    AndroidAsStored(enabled, mode, ips, stored, e, n);
  }
}
