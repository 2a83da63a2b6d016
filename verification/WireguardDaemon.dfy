/**
 * The activation machine of the WireGuard daemon (client/daemon/daemon.cpp), run against an
 * operating system whose every call may fail.
 */
module WireguardDaemon {

  // ------------------------------------------------------------ data

  datatype Address = V4(n: nat) | V6(n: nat)

  /** IPAddress: a network, or the null address with whatever length the constructor left. */
  datatype IPAddress = Ip(address: Address, len: int) | Null(len: int)

  /** An entry of `excludedAddresses`: a plain address, a network with a slash, or neither. */
  datatype Text = Host(address: Address) | Subnet(address: Address, len: nat) | Junk(slash: bool)

  function FullLength(a: Address): nat { if a.V4? then 32 else 128 }

  /** The number with its low `k` bits cleared, and without them. */
  function Cleared(n: nat, k: nat): nat { if k == 0 then n else 2 * Cleared(n / 2, k - 1) }

  function Leading(n: nat, k: nat): nat { if k == 0 then n else Leading(n / 2, k - 1) }

  /** The address with the bits behind the prefix cleared. */
  function Masked(a: Address, len: nat): Address
    requires len <= FullLength(a)
  {
    var n := Cleared(a.n, FullLength(a) - len);
    if a.V4? then V4(n) else V6(n)
  }

  /** IPAddress(const QString&), used when an exclusion is added; a length beyond the family is no network. */
  function FromText(t: Text): IPAddress {
    match t
    case Host(a) => Ip(a, FullLength(a))
    case Subnet(a, len) => if len <= FullLength(a) then Ip(Masked(a, len), len) else Null(-1)
    case Junk(slash) => Null(if slash then -1 else 999999)
  }

  /** IPAddress(QHostAddress(const QString&)), used when one is deleted: a slash is not an address. */
  function FromHost(t: Text): IPAddress {
    if t.Host? then Ip(t.address, FullLength(t.address)) else Null(128)
  }

  /** The two constructions agree exactly on plain addresses. */
  lemma KeysAgreeIff(t: Text)
    ensures FromText(t) == FromHost(t) <==> t.Host?
  {
  }

  /** Two texts with the same length are one key exactly if their leading bits agree. */
  lemma NetworkKeys(a: Address, b: Address, len: nat)
    requires len <= FullLength(a) && (a.V4? <==> b.V4?)
    ensures FromText(Subnet(a, len)) == FromText(Subnet(b, len))
            <==> Leading(a.n, FullLength(a) - len) == Leading(b.n, FullLength(a) - len)
  {
    ClearedLeading(a.n, b.n, FullLength(a) - len);
  }

  lemma {:induction false} ClearedLeading(m: nat, n: nat, k: nat)
    ensures Cleared(m, k) == Cleared(n, k) <==> Leading(m, k) == Leading(n, k)
    decreases k
  {
    if k > 0 { ClearedLeading(m / 2, n / 2, k - 1); }
  }

  datatype HopType = SingleHop | MultiHopEntry | MultiHopExit

  datatype Config = Config(hop: HopType, privateKey: string, deviceV4: string, deviceV6: string,
                           gatewayV4: string, gatewayV6: string,
                           serverKey: string, serverV4: Text, serverV6: Text,
                           allowed: seq<IPAddress>, excluded: seq<Text>, rest: string)

  /** `handshake` is zero until the peer has been heard from. */
  datatype Connection = Connection(config: Config, handshake: int)

  datatype Event = Connected(key: string) | ActivationFailure | Disconnected

  datatype PeerStatus = PeerStatus(key: string, handshake: int)

  // ------------------------------------------------------------ the operating system

  datatype OsState = OsState(up: bool, peers: set<string>, routes: set<IPAddress>, exclusions: set<IPAddress>)

  /** Linux and macOS on the one hand, whose classes do the same to routes, Windows on the other. */
  datatype Platform = Unix | Windows

  predicate Whole(p: IPAddress) { p.Ip? && p.len == 0 }

  function Halves(a: Address): set<IPAddress> {
    if a.V4? then {Ip(V4(0), 1), Ip(V4(0x8000_0000), 1)}
    else {Ip(V6(0), 1), Ip(V6(0x8000_0000_0000_0000_0000_0000_0000_0000), 1)}
  }

  /** The entries of the routing table that updateRoutePrefix makes of a range. */
  function Pieces(platform: Platform, p: IPAddress): set<IPAddress> {
    if platform.Unix? && Whole(p) then Halves(p.address) else {p}
  }

  /** The entries that deleteRoutePrefix deletes: on Unix only those of a whole address space. */
  function Gone(platform: Platform, p: IPAddress): set<IPAddress> {
    if platform.Windows? || Whole(p) then Pieces(platform, p) else {}
  }

  /** The entry that deleteRoutePrefix inserts instead, on Unix, for any other range. */
  function Back(platform: Platform, p: IPAddress): set<IPAddress> {
    if platform.Unix? && !Whole(p) then {p} else {}
  }

  /** What updatePeer excludes and deletePeer no longer does: the server's own addresses. */
  function ServerKeys(config: Config): set<IPAddress> {
    if config.hop.MultiHopExit? then {} else
      set p | p in {FromText(config.serverV4), FromText(config.serverV6)} && p.Ip?
  }

  /**
   * WireguardUtils by contract: a call that reports success has its effect; one that reports
   * failure has none, or part of it where it stands for two calls to the kernel. `history`
   * records the state after every call, `failures` the number of calls of which some part
   * failed. Of the exclusions, `leaked` are those whose deletion failed, `held` those that
   * updatePeer asked for, and `taken` those that deletePeer deleted and nobody installed since.
   */
  class WireguardUtils {
    const platform: Platform
    var state: OsState
    ghost var history: seq<OsState>
    ghost var failures: nat
    ghost var leaked: set<IPAddress>
    ghost var held: set<IPAddress>
    ghost var taken: set<IPAddress>

    constructor (platform: Platform)
      ensures this.platform == platform && state == OsState(false, {}, {}, {})
      ensures leaked == held == taken == {} && failures == 0
    {
      this.platform := platform;
      state := OsState(false, {}, {}, {});
      history, failures, leaked, held, taken := [], 0, {}, {}, {};
    }

    method Commit(next: OsState, ok: bool)
      modifies this`state, this`history, this`failures
      ensures state == (if ok then next else old(state)) && history == old(history) + [state]
      ensures failures == old(failures) + if ok then 0 else 1
    {
      if ok { state := next; } else { failures := failures + 1; }
      history := history + [state];
    }

    method AddInterface() returns (ok: bool)
      modifies this`state, this`history, this`failures
      ensures state == (if ok then old(state).(up := true) else old(state)) && history == old(history) + [state]
      ensures failures == old(failures) + if ok then 0 else 1
    {
      ok := *;
      Commit(state.(up := true), ok);
    }

    /** The interface takes its peers and routes with it. */
    method DeleteInterface() returns (ok: bool)
      modifies this`state, this`history, this`failures
      ensures state == (if ok then old(state).(up := false, peers := {}, routes := {}) else old(state))
      ensures history == old(history) + [state]
      ensures failures == old(failures) + if ok then 0 else 1
    {
      ok := *;
      Commit(state.(up := false, peers := {}, routes := {}), ok);
    }

    /** The server's exclusions come first, and whether they succeed is not reported. */
    method UpdatePeer(config: Config) returns (ok: bool)
      modifies this
      ensures state == old(state).(exclusions := state.exclusions,
                                   peers := if ok then old(state).peers + {config.serverKey} else old(state).peers)
      ensures history == old(history) + [state]
      ensures old(state).exclusions <= state.exclusions <= old(state).exclusions + ServerKeys(config)
      ensures failures >= old(failures) && (!ok ==> failures > old(failures))
      ensures failures == old(failures) ==> state.exclusions == old(state).exclusions + ServerKeys(config)
      ensures leaked == old(leaked) && held == old(held) + (ServerKeys(config) * state.exclusions)
      ensures taken == old(taken) - state.exclusions
    {
      ok := *;
      var excluded: bool, some: set<IPAddress> := *, *;
      var keys := if excluded then ServerKeys(config) else ServerKeys(config) * some;
      if !ok || !excluded { failures := failures + 1; }
      state := state.(exclusions := state.exclusions + keys, peers := if ok then state.peers + {config.serverKey} else state.peers);
      history := history + [state];
      held, taken := held + (ServerKeys(config) * state.exclusions), taken - state.exclusions;
    }

    /** The server's exclusions go first, counted or not, even if the peer then stays. */
    method DeletePeer(config: Config) returns (ok: bool)
      modifies this
      ensures state == old(state).(exclusions := state.exclusions,
                                   peers := if ok then old(state).peers - {config.serverKey} else old(state).peers)
      ensures history == old(history) + [state]
      ensures old(state).exclusions - ServerKeys(config) <= state.exclusions <= old(state).exclusions
      ensures failures >= old(failures) && (!ok ==> failures > old(failures))
      ensures failures == old(failures) ==> state.exclusions == old(state).exclusions - ServerKeys(config)
      ensures leaked == old(leaked) * state.exclusions && held == old(held) * state.exclusions
      ensures taken == old(taken) + (old(state).exclusions - state.exclusions)
    {
      ok := *;
      var cleared: bool, some: set<IPAddress> := *, *;
      var keys := if cleared then ServerKeys(config) else ServerKeys(config) * some;
      if !ok || !cleared { failures := failures + 1; }
      taken := taken + (state.exclusions * keys);
      state := state.(exclusions := state.exclusions - keys, peers := if ok then state.peers - {config.serverKey} else state.peers);
      history := history + [state];
      leaked, held := leaked * state.exclusions, held * state.exclusions;
    }

    /** A change of routes of which, when it fails, any part may have been made. */
    method CommitRoutes(added: set<IPAddress>, deleted: set<IPAddress>, ok: bool)
      modifies this`state, this`history, this`failures
      ensures state == old(state).(routes := state.routes) && history == old(history) + [state]
      ensures old(state).routes - deleted <= state.routes <= old(state).routes + added
      ensures ok ==> state.routes == old(state).routes + added - deleted
      ensures failures == old(failures) + if ok then 0 else 1
    {
      var some: set<IPAddress>, others: set<IPAddress> := *, *;
      var next := if ok then state.routes + added - deleted else state.routes + (added * some) - (deleted * others);
      if !ok { failures := failures + 1; }
      state := state.(routes := next);
      history := history + [state];
    }

    method UpdateRoutePrefix(p: IPAddress) returns (ok: bool)
      modifies this`state, this`history, this`failures
      ensures state == old(state).(routes := state.routes) && history == old(history) + [state]
      ensures old(state).routes <= state.routes <= old(state).routes + Pieces(platform, p)
      ensures ok ==> state.routes == old(state).routes + Pieces(platform, p)
      ensures failures == old(failures) + if ok then 0 else 1
    {
      ok := *;
      CommitRoutes(Pieces(platform, p), {}, ok);
    }

    /** On Unix the class inserts the range it was asked to delete, unless it is a whole address space. */
    method DeleteRoutePrefix(p: IPAddress) returns (ok: bool)
      modifies this`state, this`history, this`failures
      ensures state == old(state).(routes := state.routes) && history == old(history) + [state]
      ensures old(state).routes - Gone(platform, p) <= state.routes <= old(state).routes + Back(platform, p)
      ensures ok ==> state.routes == old(state).routes + Back(platform, p) - Gone(platform, p)
      ensures failures == old(failures) + if ok then 0 else 1
    {
      ok := *;
      CommitRoutes(Back(platform, p), Gone(platform, p), ok);
    }

    method AddExclusionRoute(p: IPAddress) returns (ok: bool)
      modifies this
      ensures state == (if ok then old(state).(exclusions := old(state).exclusions + {p}) else old(state))
      ensures history == old(history) + [state]
      ensures failures == old(failures) + if ok then 0 else 1
      ensures leaked == (if ok then old(leaked) - {p} else old(leaked)) && held == old(held)
      ensures taken == if ok then old(taken) - {p} else old(taken)
    {
      ok := *;
      Commit(state.(exclusions := state.exclusions + {p}), ok);
      if ok { leaked, taken := leaked - {p}, taken - {p}; }
    }

    method DeleteExclusionRoute(p: IPAddress) returns (ok: bool)
      modifies this
      ensures state == (if ok then old(state).(exclusions := old(state).exclusions - {p}) else old(state))
      ensures history == old(history) + [state]
      ensures failures == old(failures) + if ok then 0 else 1
      ensures leaked == if ok then old(leaked) - {p} else old(leaked) + ({p} * old(state).exclusions)
      ensures held == (if ok then old(held) - {p} else old(held)) && taken == if ok then old(taken) - {p} else old(taken)
    {
      ok := *;
      leaked := if ok then leaked - {p} else leaked + ({p} * state.exclusions);
      if ok { held, taken := held - {p}, taken - {p}; }
      Commit(state.(exclusions := state.exclusions - {p}), ok);
    }

    method GetPeerStatus() returns (peers: seq<PeerStatus>)
    {
      peers := *;
    }
  }

  /** Any other platform call: DNS, addresses, MTU, the platform's own start and stop hooks. */
  method PlatformCall() returns (ok: bool)
  {
    ok := *;
  }

  // ------------------------------------------------------------ counting

  function One(b: bool): nat { if b then 1 else 0 }

  /** Occurrences of `p` among the keys that adding, and later deleting, these entries uses. */
  function Added(ts: seq<Text>, p: IPAddress): nat {
    if ts == [] then 0 else Added(ts[..|ts| - 1], p) + One(FromText(ts[|ts| - 1]) == p)
  }

  function Deleted(ts: seq<Text>, p: IPAddress): nat {
    if ts == [] then 0 else Deleted(ts[..|ts| - 1], p) + One(FromHost(ts[|ts| - 1]) == p)
  }

  /** The entries that are counted when added but never found again when deleted. */
  function Lost(ts: seq<Text>, p: IPAddress): nat {
    if ts == [] then 0
    else Lost(ts[..|ts| - 1], p) + One(!ts[|ts| - 1].Host? && FromText(ts[|ts| - 1]) == p)
  }

  predicate HostForm(ts: seq<Text>) { forall i :: 0 <= i < |ts| ==> ts[i].Host? }

  lemma {:induction false} KeysBalance(ts: seq<Text>, p: IPAddress)
    ensures p != Null(128) ==> Added(ts, p) == Deleted(ts, p) + Lost(ts, p)
    ensures p == Null(128) ==> Added(ts, p) == 0
    ensures HostForm(ts) ==> Lost(ts, p) == 0
  {
    if ts != [] { KeysBalance(ts[..|ts| - 1], p); }
  }

  lemma {:induction false} LostSomething(ts: seq<Text>, i: nat)
    requires i < |ts| && !ts[i].Host?
    ensures Lost(ts, FromText(ts[i])) > 0
  {
    if i < |ts| - 1 { LostSomething(ts[..|ts| - 1], i); }
  }

  function AddedBy(connections: map<HopType, Connection>, h: HopType, p: IPAddress): nat {
    if h in connections then Added(connections[h].config.excluded, p) else 0
  }

  /** Total occurrences of `p` in the excluded lists of the live connections. */
  function Live(connections: map<HopType, Connection>, p: IPAddress): nat {
    AddedBy(connections, SingleHop, p) + AddedBy(connections, MultiHopEntry, p) + AddedBy(connections, MultiHopExit, p)
  }

  /** The count kept for `p`; an address without an entry reads as zero. */
  function Times(ledger: map<IPAddress, nat>, p: IPAddress): nat {
    if p in ledger then ledger[p] else 0
  }

  function Less(a: nat, b: nat): nat { if a >= b then a - b else 0 }

  /** The two ways of counting after a switch without failures. */
  lemma SwitchCounts(ledger: map<IPAddress, nat>, after: map<IPAddress, nat>, connections: map<HopType, Connection>,
                     released: seq<seq<Text>>, c: Connection)
    requires c.config.hop in connections
    requires forall p :: Times(after, p)
               == Less(Times(ledger, p) + Added(c.config.excluded, p), Deleted(connections[c.config.hop].config.excluded, p))
    ensures Balanced(ledger, connections) ==>
              (Balanced(after, connections[c.config.hop := c]) <==> HostForm(connections[c.config.hop].config.excluded))
    ensures Accounted(ledger, connections, released) ==>
              Accounted(after, connections[c.config.hop := c], released + [connections[c.config.hop].config.excluded])
  {
    if Balanced(ledger, connections) { SwitchBalancedIff(ledger, after, connections, c); }
    if Accounted(ledger, connections, released) { SwitchAccounted(ledger, after, connections, released, c); }
  }

  /** Each count equals the total occurrences in the live connections. */
  ghost predicate Balanced(ledger: map<IPAddress, nat>, connections: map<HopType, Connection>) {
    forall p :: Times(ledger, p) == Live(connections, p)
  }

  lemma LiveReplaced(connections: map<HopType, Connection>, c: Connection, p: IPAddress)
    ensures Live(connections[c.config.hop := c], p)
         == Live(connections, p) - AddedBy(connections, c.config.hop, p) + Added(c.config.excluded, p)
    ensures Live(connections, p) >= AddedBy(connections, c.config.hop, p)
  {
    var next := connections[c.config.hop := c];
    assert forall h :: AddedBy(next, h, p)
                    == if h == c.config.hop then Added(c.config.excluded, p) else AddedBy(connections, h, p);
    match c.config.hop
    case SingleHop =>
    case MultiHopEntry =>
    case MultiHopExit =>
  }

  lemma FreshBalanced(ledger: map<IPAddress, nat>, after: map<IPAddress, nat>, connections: map<HopType, Connection>, c: Connection)
    requires c.config.hop !in connections && Balanced(ledger, connections)
    requires Grown(ledger, after, c.config.excluded, true)
    ensures Balanced(after, connections[c.config.hop := c])
  {
    forall p ensures Times(after, p) == Live(connections[c.config.hop := c], p) {
      LiveReplaced(connections, c, p);
      assert Times(ledger, p) == Live(connections, p);
    }
  }

  /** What switches have failed to release, given the excluded lists of the connections replaced. */
  function Surplus(released: seq<seq<Text>>, p: IPAddress): nat {
    if released == [] || p == Null(128) then 0
    else Surplus(released[..|released| - 1], p) + Lost(released[|released| - 1], p)
  }

  /** Each count is exactly the total over the live connections and what was never released. */
  ghost predicate Accounted(ledger: map<IPAddress, nat>, connections: map<HopType, Connection>, released: seq<seq<Text>>) {
    forall p :: Times(ledger, p) == Live(connections, p) + Surplus(released, p)
  }

  lemma FreshAccounted(ledger: map<IPAddress, nat>, after: map<IPAddress, nat>, connections: map<HopType, Connection>,
                       released: seq<seq<Text>>, c: Connection)
    requires c.config.hop !in connections && Accounted(ledger, connections, released)
    requires Grown(ledger, after, c.config.excluded, true)
    ensures Accounted(after, connections[c.config.hop := c], released)
  {
    forall p ensures Times(after, p) == Live(connections[c.config.hop := c], p) + Surplus(released, p) {
      LiveReplaced(connections, c, p);
      assert Times(ledger, p) == Live(connections, p) + Surplus(released, p);
    }
  }

  lemma FreshCounts(ledger: map<IPAddress, nat>, after: map<IPAddress, nat>, connections: map<HopType, Connection>,
                    released: seq<seq<Text>>, c: Connection)
    requires c.config.hop !in connections && Grown(ledger, after, c.config.excluded, true)
    ensures Balanced(ledger, connections) ==> Balanced(after, connections[c.config.hop := c])
    ensures Accounted(ledger, connections, released) ==> Accounted(after, connections[c.config.hop := c], released)
  {
    if Balanced(ledger, connections) { FreshBalanced(ledger, after, connections, c); }
    if Accounted(ledger, connections, released) { FreshAccounted(ledger, after, connections, released, c); }
  }

  lemma SwitchAccounted(ledger: map<IPAddress, nat>, after: map<IPAddress, nat>, connections: map<HopType, Connection>,
                        released: seq<seq<Text>>, c: Connection)
    requires c.config.hop in connections && Accounted(ledger, connections, released)
    requires forall p :: Times(after, p)
               == Less(Times(ledger, p) + Added(c.config.excluded, p), Deleted(connections[c.config.hop].config.excluded, p))
    ensures Accounted(after, connections[c.config.hop := c], released + [connections[c.config.hop].config.excluded])
  {
    var last := connections[c.config.hop].config.excluded;
    var more := released + [last];
    assert more[..|released|] == released;
    forall p ensures Times(after, p) == Live(connections[c.config.hop := c], p) + Surplus(more, p) {
      assert Times(ledger, p) == Live(connections, p) + Surplus(released, p);
      LiveReplaced(connections, c, p);
      NeverNull(connections);
      KeysBalance(last, p);
      KeysBalance(c.config.excluded, p);
    }
  }

  lemma {:induction false} SurplusGrows(released: seq<seq<Text>>, more: seq<seq<Text>>, p: IPAddress)
    ensures Surplus(released + more, p) >= Surplus(released, p)
    decreases more
  {
    if more == [] {
      assert released + more == released;
    } else {
      var n := |more| - 1;
      SurplusGrows(released, more[..n], p);
      assert (released + more)[..|released + more| - 1] == released + more[..n];
    }
  }

  lemma NothingBalanced()
    ensures Balanced(map[], map[]) && Accounted(map[], map[], [])
  {
  }

  lemma NeverNull(connections: map<HopType, Connection>)
    ensures Live(connections, Null(128)) == 0
  {
    forall h ensures AddedBy(connections, h, Null(128)) == 0 {
      if h in connections { KeysBalance(connections[h].config.excluded, Null(128)); }
    }
  }

  /**
   * The effect of a switch on a balanced ledger: the new connection is counted, and what
   * remains of the old one is exactly its entries that are not plain addresses.
   */
  lemma SwitchLeaves(connections: map<HopType, Connection>, c: Connection, p: IPAddress)
    requires c.config.hop in connections
    ensures Less(Live(connections, p) + Added(c.config.excluded, p), Deleted(connections[c.config.hop].config.excluded, p))
         == Live(connections[c.config.hop := c], p) + if p == Null(128) then 0 else Lost(connections[c.config.hop].config.excluded, p)
  {
    LiveReplaced(connections, c, p);
    NeverNull(connections);
    KeysBalance(connections[c.config.hop].config.excluded, p);
    KeysBalance(c.config.excluded, p);
  }

  /** The count is exact after a switch if and only if every old entry was a plain address. */
  lemma SwitchBalancedIff(ledger: map<IPAddress, nat>, after: map<IPAddress, nat>, connections: map<HopType, Connection>, c: Connection)
    requires c.config.hop in connections && Balanced(ledger, connections)
    requires forall p :: Times(after, p)
               == Less(Times(ledger, p) + Added(c.config.excluded, p), Deleted(connections[c.config.hop].config.excluded, p))
    ensures Balanced(after, connections[c.config.hop := c]) <==> HostForm(connections[c.config.hop].config.excluded)
  {
    var last := connections[c.config.hop].config.excluded;
    var next := connections[c.config.hop := c];
    forall p ensures Times(after, p) == Live(next, p) + if p == Null(128) then 0 else Lost(last, p) {
      SwitchLeaves(connections, c, p);
    }
    if HostForm(last) {
      forall p ensures Times(after, p) == Live(next, p) { KeysBalance(last, p); }
    } else {
      var i :| 0 <= i < |last| && !last[i].Host?;
      LostSomething(last, i);
      assert Times(after, FromText(last[i])) != Live(next, FromText(last[i]));
    }
  }

  /**
   * Whether an installed exclusion survives a switch is a matter of the counts alone; on a
   * balanced ledger, every exclusion that the new configuration lists does.
   */
  lemma SharedExclusionSurvives(ledger: map<IPAddress, nat>, mid: map<IPAddress, nat>, after: map<IPAddress, nat>,
                                connections: map<HopType, Connection>, c: Connection, p: IPAddress)
    requires c.config.hop in connections && p in ledger && Grown(ledger, mid, c.config.excluded, false)
    requires Times(after, p) == Less(Times(mid, p), Deleted(connections[c.config.hop].config.excluded, p))
    ensures Times(after, p) > 0
         <==> Times(ledger, p) + Added(c.config.excluded, p) > Deleted(connections[c.config.hop].config.excluded, p)
    ensures Balanced(ledger, connections) && Added(c.config.excluded, p) > 0 ==> Times(after, p) > 0
  {
    if Balanced(ledger, connections) && Added(c.config.excluded, p) > 0 {
      SwitchLeaves(connections, c, p);
      LiveReplaced(connections, c, p);
    }
  }

  /**
   * One entry that is not a plain address is enough: once the connection that listed it has
   * been replaced, it stays counted, whatever else has been released before or since.
   */
  lemma NetworkIsNeverReleased(ledger: map<IPAddress, nat>, connections: map<HopType, Connection>,
                               released: seq<seq<Text>>, more: seq<seq<Text>>, k: nat, i: nat)
    requires Accounted(ledger, connections, released + more)
    requires k < |released| && i < |released[k]| && !released[k][i].Host?
    ensures FromText(released[k][i]) in ledger
  {
    var p := FromText(released[k][i]);
    LostSomething(released[k], i);
    var upTo := released[..k + 1];
    assert upTo[..k] == released[..k] && upTo[k] == released[k];
    assert Surplus(upTo, p) > 0;
    SurplusGrows(upTo, released[k + 1..] + more, p);
    assert upTo + (released[k + 1..] + more) == released + more;
    assert Times(ledger, p) > 0;
  }

  // ------------------------------------------------------------ the daemon

  predicate SameTunnelDevice(a: Config, b: Config) {
    && a.privateKey == b.privateKey && a.deviceV4 == b.deviceV4 && a.deviceV6 == b.deviceV6
    && a.gatewayV4 == b.gatewayV4 && a.gatewayV6 == b.gatewayV6
  }

  /** Every state of the history from `from` on has these exclusions and these routes. */
  ghost predicate Kept(history: seq<OsState>, from: nat, exclusions: set<IPAddress>, routes: set<IPAddress>) {
    forall k :: from <= k < |history| ==> exclusions <= history[k].exclusions && routes <= history[k].routes
  }

  /** The entries of the routing table for all these ranges. */
  function AllPieces(platform: Platform, ranges: seq<IPAddress>): set<IPAddress> {
    if ranges == [] then {} else AllPieces(platform, ranges[..|ranges| - 1]) + Pieces(platform, ranges[|ranges| - 1])
  }

  lemma {:induction false} AllPiecesHas(platform: Platform, ranges: seq<IPAddress>)
    ensures forall r :: r in ranges ==> Pieces(platform, r) <= AllPieces(platform, ranges)
    ensures forall q :: q in AllPieces(platform, ranges) ==> exists r :: r in ranges && q in Pieces(platform, r)
  {
    if ranges != [] {
      var n := |ranges| - 1;
      AllPiecesHas(platform, ranges[..n]);
      assert ranges == ranges[..n] + [ranges[n]];
    }
  }

  ghost predicate Routed(platform: Platform, ranges: seq<IPAddress>, routes: set<IPAddress>) {
    forall r :: r in ranges ==> Pieces(platform, r) <= routes
  }

  /** An entry that deleting the ranges only in `last` does not touch. */
  ghost predicate Spared(platform: Platform, r: IPAddress, last: seq<IPAddress>, keep: seq<IPAddress>) {
    forall q :: q in last && q !in keep ==> r !in Gone(platform, q)
  }

  /** The routes after deleting, in order and without failures, the ranges only in `last`. */
  function AfterDeleting(platform: Platform, routes: set<IPAddress>, last: seq<IPAddress>, keep: seq<IPAddress>): set<IPAddress> {
    if last == [] then routes else
      var n := |last| - 1;
      var before := AfterDeleting(platform, routes, last[..n], keep);
      if last[n] in keep then before else before + Back(platform, last[n]) - Gone(platform, last[n])
  }

  /** Decreasing prefix lengths, as a configuration's ranges are sorted. */
  predicate Sorted(ranges: seq<IPAddress>) {
    && (forall i :: 0 <= i < |ranges| ==> ranges[i].Ip? && ranges[i].len >= 0)
    && (forall i, j :: 0 <= i < j < |ranges| ==> ranges[i].len >= ranges[j].len)
  }

  /**
   * Exactly what is routed after a switch without failures: everything spared that was routed
   * before, and on Unix also every range of the old configuration that should have gone.
   */
  lemma {:induction false} RoutesLeft(platform: Platform, routes: set<IPAddress>, last: seq<IPAddress>, keep: seq<IPAddress>, r: IPAddress)
    requires Sorted(last)
    ensures r in AfterDeleting(platform, routes, last, keep)
            <==> Spared(platform, r, last, keep)
                 && (r in routes || (platform.Unix? && r in last && r !in keep && !Whole(r)))
  {
    if last != [] {
      var n := |last| - 1;
      RoutesLeft(platform, routes, last[..n], keep, r);
      assert last == last[..n] + [last[n]];
      SparedNext(platform, r, last, keep);
    }
  }

  lemma SparedNext(platform: Platform, r: IPAddress, last: seq<IPAddress>, keep: seq<IPAddress>)
    requires last != []
    ensures var n := |last| - 1;
            && (Spared(platform, r, last, keep)
                <==> Spared(platform, r, last[..n], keep) && (last[n] in keep || r !in Gone(platform, last[n])))
            && (Sorted(last) && platform.Unix? && !Whole(last[n]) ==> Spared(platform, r, last, keep))
  {
    var n := |last| - 1;
    assert last == last[..n] + [last[n]];
    if Sorted(last) && platform.Unix? && !Whole(last[n]) {
      assert forall q :: q in last ==> q.len > 0;
    }
  }

  /** Some range of the new configuration shares an entry with one that is deleted. */
  ghost predicate Clash(platform: Platform, last: seq<IPAddress>, keep: seq<IPAddress>) {
    exists q, r :: q in last && q !in keep && r in keep && Gone(platform, q) * Pieces(platform, r) != {}
  }

  /** Only the entries of a whole address space can clash, and only on Unix. */
  lemma ClashIff(platform: Platform, last: seq<IPAddress>, keep: seq<IPAddress>)
    ensures Clash(platform, last, keep)
            <==> platform.Unix? && exists q, r :: q in last && q !in keep && Whole(q) && r in keep
                                                 && (r in Halves(q.address) || (Whole(r) && Halves(r.address) == Halves(q.address)))
  {
    if Clash(platform, last, keep) {
      var q, r :| q in last && q !in keep && r in keep && Gone(platform, q) * Pieces(platform, r) != {};
      var x :| x in Gone(platform, q) * Pieces(platform, r);
      assert x in Gone(platform, q) && x in Pieces(platform, r);
    }
    if platform.Unix? {
      forall q, r | q in last && q !in keep && Whole(q) && r in keep
                    && (r in Halves(q.address) || (Whole(r) && Halves(r.address) == Halves(q.address)))
        ensures Gone(platform, q) * Pieces(platform, r) != {}
      {
        assert (if Whole(r) then Ip(if q.address.V4? then V4(0) else V6(0), 1) else r) in Gone(platform, q) * Pieces(platform, r);
      }
    }
  }

  /**
   * A switch without failures leaves every range of the new configuration routed, if and only
   * if nothing clashes.
   */
  lemma NewRangesRoutedIff(platform: Platform, routes: set<IPAddress>, last: seq<IPAddress>, keep: seq<IPAddress>)
    requires Sorted(last)
    ensures Routed(platform, keep, AfterDeleting(platform, routes + AllPieces(platform, keep), last, keep))
            <==> !Clash(platform, last, keep)
  {
    var start := routes + AllPieces(platform, keep);
    var end := AfterDeleting(platform, start, last, keep);
    AllPiecesHas(platform, keep);
    if Clash(platform, last, keep) {
      var q, r :| q in last && q !in keep && r in keep && Gone(platform, q) * Pieces(platform, r) != {};
      var x :| x in Gone(platform, q) * Pieces(platform, r);
      RoutesLeft(platform, start, last, keep, x);
      assert x in Pieces(platform, r) && x !in end;
    } else {
      forall r, x | r in keep && x in Pieces(platform, r) ensures x in end {
        RoutesLeft(platform, start, last, keep, x);
        forall q | q in last && q !in keep ensures x !in Gone(platform, q) {
          assert Gone(platform, q) * Pieces(platform, r) == {};
          assert x in Gone(platform, q) ==> x in Gone(platform, q) * Pieces(platform, r);
        }
      }
    }
  }

  /** A range that should have gone is still routed on Unix, unless an address space took it away. */
  lemma OldRangeStays(routes: set<IPAddress>, last: seq<IPAddress>, keep: seq<IPAddress>, r: IPAddress)
    requires Sorted(last) && r in last && r !in keep && !Whole(r)
    ensures r in AfterDeleting(Unix, routes, last, keep) <==> Spared(Unix, r, last, keep)
    ensures r !in AfterDeleting(Windows, routes, last, keep)
  {
    RoutesLeft(Unix, routes, last, keep, r);
    RoutesLeft(Windows, routes, last, keep, r);
  }

  /** From everything to its two halves: on Unix both halves are gone after the switch. */
  lemma HalvesLost(routes: set<IPAddress>)
    ensures var all, low, high := Ip(V4(0), 0), Ip(V4(0), 1), Ip(V4(0x8000_0000), 1);
            var end := AfterDeleting(Unix, routes + AllPieces(Unix, [low, high]), [all], [low, high]);
            low !in end && high !in end
  {
    var all, low, high := Ip(V4(0), 0), Ip(V4(0), 1), Ip(V4(0x8000_0000), 1);
    assert all in [all] && low in Gone(Unix, all) && high in Gone(Unix, all);
    RoutesLeft(Unix, routes + AllPieces(Unix, [low, high]), [all], [low, high], low);
    RoutesLeft(Unix, routes + AllPieces(Unix, [low, high]), [all], [low, high], high);
  }

  /** The keys that adding, and deleting, these entries uses. */
  function AddedKeys(ts: seq<Text>): set<IPAddress> {
    if ts == [] then {} else AddedKeys(ts[..|ts| - 1]) + {FromText(ts[|ts| - 1])}
  }

  function DeletedKeys(ts: seq<Text>): set<IPAddress> {
    if ts == [] then {} else DeletedKeys(ts[..|ts| - 1]) + {FromHost(ts[|ts| - 1])}
  }

  lemma {:induction false} KeysCount(ts: seq<Text>, p: IPAddress)
    ensures p in AddedKeys(ts) <==> Added(ts, p) > 0
    ensures p in DeletedKeys(ts) <==> Deleted(ts, p) > 0
  {
    if ts != [] { KeysCount(ts[..|ts| - 1], p); }
  }

  /** The exclusions that a switch deletes together with the old peer. */
  function Taking(last: Config, config: Config): set<IPAddress> {
    if config.serverKey == last.serverKey then {} else ServerKeys(last)
  }

  /** The installed exclusions that deleting these entries, and then `gone`, leaves alone. */
  ghost function Lasting(installed: set<IPAddress>, after: map<IPAddress, nat>, ts: seq<Text>, gone: set<IPAddress>): set<IPAddress> {
    set p | p in installed && (p in after || p !in DeletedKeys(ts)) && p !in gone
  }

  /** The exclusions after a switch without failures. */
  function ExclusionsAfter(installed: set<IPAddress>, before: map<IPAddress, nat>, after: map<IPAddress, nat>,
                           last: Config, config: Config): set<IPAddress>
  {
    installed + (AddedKeys(config.excluded) - before.Keys) + ServerKeys(config)
    - (DeletedKeys(last.excluded) - after.Keys) - Taking(last, config)
  }

  /** Counted, but not installed. */
  function Missing(ledger: map<IPAddress, nat>, installed: set<IPAddress>): set<IPAddress> { ledger.Keys - installed }

  /** The addresses of the servers that the connections know of. */
  function ServersAt(connections: map<HopType, Connection>, h: HopType): set<IPAddress> {
    if h in connections then ServerKeys(connections[h].config) else {}
  }

  function LiveServers(connections: map<HopType, Connection>): set<IPAddress> {
    ServersAt(connections, SingleHop) + ServersAt(connections, MultiHopEntry) + ServersAt(connections, MultiHopExit)
  }

  /** Installed, but neither counted nor the address of a connected server: nobody will delete it. */
  function Stray(installed: set<IPAddress>, ledger: map<IPAddress, nat>, connections: map<HopType, Connection>): set<IPAddress> {
    installed - ledger.Keys - LiveServers(connections)
  }

  /** What a switch can make stray: addresses of the old server that its own list does not name, if the peer stays. */
  function StrayOfSwitch(last: Config, config: Config): set<IPAddress> {
    if config.serverKey == last.serverKey then ServerKeys(last) - DeletedKeys(last.excluded) else {}
  }

  /** What an activation without a switch can make stray: its server's addresses, if it fails and does not list them. */
  function StrayOfFailure(config: Config, ok: bool): set<IPAddress> {
    if ok then {} else ServerKeys(config) - AddedKeys(config.excluded)
  }

  lemma ServersReplaced(connections: map<HopType, Connection>, c: Connection)
    ensures LiveServers(connections[c.config.hop := c]) <= LiveServers(connections) + ServerKeys(c.config)
    ensures ServerKeys(c.config) <= LiveServers(connections[c.config.hop := c])
    ensures LiveServers(connections) - ServersAt(connections, c.config.hop) <= LiveServers(connections[c.config.hop := c])
  {
    var next := connections[c.config.hop := c];
    assert forall h :: ServersAt(next, h) == if h == c.config.hop then ServerKeys(c.config) else ServersAt(connections, h);
    match c.config.hop
    case SingleHop =>
    case MultiHopEntry =>
    case MultiHopExit =>
  }

  /** Exactly which exclusions are stray after a switch without failures, and where they can come from. */
  lemma StrayAfterSwitch(installed: set<IPAddress>, before: map<IPAddress, nat>, after: map<IPAddress, nat>,
                         connections: map<HopType, Connection>, config: Config)
    requires config.hop in connections && Counted(before, after, connections[config.hop].config, config)
    requires forall p :: p in before ==> before[p] >= 1
    ensures var last := connections[config.hop].config;
            var next := connections[config.hop := Connection(config, 0)];
            var stray := Stray(ExclusionsAfter(installed, before, after, last, config), after, next);
            && stray == installed - before.Keys - DeletedKeys(last.excluded) - Taking(last, config) - after.Keys - LiveServers(next)
            && stray <= Stray(installed, before, connections) + StrayOfSwitch(last, config)
  {
    var last := connections[config.hop].config;
    var next := connections[config.hop := Connection(config, 0)];
    var end := ExclusionsAfter(installed, before, after, last, config);
    ServersReplaced(connections, Connection(config, 0));
    forall p | p in Stray(end, after, next)
      ensures p in installed && p !in before && p !in DeletedKeys(last.excluded)
    {
      KeysCount(config.excluded, p);
      KeysCount(last.excluded, p);
      assert Times(after, p) == 0;
      assert p in before ==> Times(before, p) >= 1;
    }
  }

  /** A switch with the same key to another server, which neither list names: the old server's exclusion is stray. */
  lemma MovedServerIsStray(installed: set<IPAddress>, before: map<IPAddress, nat>, after: map<IPAddress, nat>,
                           connections: map<HopType, Connection>, config: Config, a: Address, b: Address)
    requires connections.Keys == {SingleHop} && config.hop == SingleHop && connections[SingleHop].config.hop == SingleHop
    requires connections[SingleHop].config.serverKey == config.serverKey && a != b && (a.V4? <==> b.V4?)
    requires connections[SingleHop].config.serverV4 == Host(a) && config.serverV4 == Host(b) && config.serverV6.Junk?
    requires connections[SingleHop].config.excluded == config.excluded == [] && before == map[]
    requires Counted(before, after, connections[SingleHop].config, config) && FromText(Host(a)) in installed
    ensures var last := connections[SingleHop].config;
            FromText(Host(a)) in Stray(ExclusionsAfter(installed, before, after, last, config), after,
                                       connections[SingleHop := Connection(config, 0)])
  {
    var p := FromText(Host(a));
    var next := connections[SingleHop := Connection(config, 0)];
    StrayAfterSwitch(installed, before, after, connections, config);
    assert Times(after, p) == 0;
    assert ServersAt(next, MultiHopEntry) == ServersAt(next, MultiHopExit) == {};
    assert p !in ServerKeys(config);
  }

  /** The configuration lists its server's addresses as plain exclusions, as this client's always do. */
  predicate ListsServer(config: Config) { ServerKeys(config) <= DeletedKeys(config.excluded) }

  ghost predicate AllListed(connections: map<HopType, Connection>) {
    forall h :: h in connections ==> ListsServer(connections[h].config)
  }

  lemma {:induction false} PlainKeysAdded(ts: seq<Text>, p: IPAddress)
    requires p in DeletedKeys(ts) && p.Ip?
    ensures p in AddedKeys(ts)
  {
    if p in DeletedKeys(ts[..|ts| - 1]) { PlainKeysAdded(ts[..|ts| - 1], p); }
  }

  /** Such a configuration makes nothing stray. */
  lemma ListedNotStray(config: Config, next: Config, ok: bool)
    requires ListsServer(config)
    ensures StrayOfFailure(config, ok) == {} && StrayOfSwitch(config, next) == {}
  {
    forall p | p in ServerKeys(config) ensures p in AddedKeys(config.excluded) {
      PlainKeysAdded(config.excluded, p);
    }
  }

  /** The server's text among the excluded ones, and no other address: then it is listed. */
  lemma ClientListsServer(config: Config, rest: seq<Text>)
    requires config.excluded == [config.serverV4] + rest && config.serverV6.Junk? && !config.serverV4.Subnet?
    ensures ListsServer(config)
  {
    forall p | p in ServerKeys(config) ensures p in DeletedKeys(config.excluded) {
      FirstIsDeleted(config.excluded);
    }
  }

  lemma {:induction false} FirstIsDeleted(ts: seq<Text>)
    requires ts != []
    ensures FromHost(ts[0]) in DeletedKeys(ts)
  {
    if |ts| > 1 { FirstIsDeleted(ts[..|ts| - 1]); }
  }

  /**
   * What happens to the exclusions outside a switch: with any failures nothing counted goes
   * missing; without, nothing but `more` becomes stray.
   */
  ghost predicate Tidy(before: map<IPAddress, nat>, installed: set<IPAddress>, connections: map<HopType, Connection>,
                       after: map<IPAddress, nat>, end: set<IPAddress>, next: map<HopType, Connection>,
                       more: set<IPAddress>, clean: bool)
  {
    && Missing(after, end) <= Missing(before, installed)
    && (clean ==> Stray(end, after, next) <= Stray(installed, before, connections) + more)
  }

  /** The counts around a switch without failures. */
  ghost predicate Counted(before: map<IPAddress, nat>, after: map<IPAddress, nat>, last: Config, config: Config) {
    && (forall p :: p in after ==> after[p] >= 1)
    && (forall p :: Times(after, p) == Less(Times(before, p) + Added(config.excluded, p), Deleted(last.excluded, p)))
  }

  /**
   * Which counted exclusions are not installed after a switch without failures: those of the
   * old server if its peer was deleted, and those missing before unless the new peer brought
   * them back.
   */
  lemma MissingAfterSwitch(installed: set<IPAddress>, before: map<IPAddress, nat>, after: map<IPAddress, nat>,
                           last: Config, config: Config)
    requires Counted(before, after, last, config)
    ensures Missing(after, ExclusionsAfter(installed, before, after, last, config))
         == after.Keys * (Taking(last, config) + (Missing(before, installed) - ServerKeys(config)))
  {
    var end := ExclusionsAfter(installed, before, after, last, config);
    forall p | p in after
      ensures p !in end <==> p in Taking(last, config) || (p in before && p !in installed && p !in ServerKeys(config))
    {
      KeysCount(config.excluded, p);
      assert Times(after, p) >= 1;
    }
  }

  /** Whatever is counted is installed: at every moment if it was before, and in any case at the end. */
  ghost predicate AlwaysExcluded(history: seq<OsState>, from: nat, before: map<IPAddress, nat>, after: map<IPAddress, nat>,
                                 end: set<IPAddress>)
  {
    && (forall p, k :: p in before && p in after && from <= k < |history| ==> p in history[k].exclusions)
    && after.Keys <= end
  }

  /**
   * If nothing was missing before a switch without failures, every counted exclusion is
   * installed at every moment, if and only if the peer's key is unchanged, or the hop is an
   * exit, or no address of the old server is counted afterwards.
   */
  lemma AlwaysExcludedIff(history: seq<OsState>, from: nat, installed: set<IPAddress>, routes: set<IPAddress>,
                          before: map<IPAddress, nat>, after: map<IPAddress, nat>, last: Config, config: Config)
    requires Counted(before, after, last, config) && Missing(before, installed) == {}
    requires Kept(history, from, Lasting(installed, after, last.excluded, Taking(last, config)), routes)
    ensures AlwaysExcluded(history, from, before, after, ExclusionsAfter(installed, before, after, last, config))
            <==> config.serverKey == last.serverKey || last.hop.MultiHopExit? || ServerKeys(last) !! after.Keys
  {
    var end := ExclusionsAfter(installed, before, after, last, config);
    MissingAfterSwitch(installed, before, after, last, config);
    assert after.Keys <= end <==> Missing(after, end) == {};
    if Taking(last, config) !! after.Keys {
      forall p | p in before && p in after ensures p in Lasting(installed, after, last.excluded, Taking(last, config)) {
        assert p !in Missing(before, installed);
      }
    }
  }

  /** Whether the new server itself is excluded after a switch without failures. */
  lemma NewServerExcludedIff(installed: set<IPAddress>, before: map<IPAddress, nat>, after: map<IPAddress, nat>,
                             last: Config, config: Config, p: IPAddress)
    requires Counted(before, after, last, config) && p in ServerKeys(config)
    ensures p in ExclusionsAfter(installed, before, after, last, config)
            <==> p !in Taking(last, config) && (p in after || Deleted(last.excluded, p) == 0)
  {
    KeysCount(last.excluded, p);
  }

  /**
   * The ordinary case of a new key on the same server, which both configurations exclude: the
   * exclusion is counted once before and after, and is not installed any more.
   */
  lemma EndpointLosesExclusion(last: Config, config: Config, a: Address, before: map<IPAddress, nat>, after: map<IPAddress, nat>,
                               installed: set<IPAddress>)
    requires last.hop == config.hop == SingleHop && last.serverKey != config.serverKey
    requires last.serverV4 == config.serverV4 == Host(a) && last.excluded == config.excluded == [Host(a)]
    requires Counted(before, after, last, config)
    ensures var p := FromText(Host(a));
            Times(after, p) == Times(before, p) && p !in ExclusionsAfter(installed, before, after, last, config)
  {
    var p := FromText(Host(a));
    var ts := [Host(a)];
    assert ts[..0] == [];
    assert Added(ts, p) == 1 && Deleted(ts, p) == 1;
    assert p in ServerKeys(last);
  }

  /** How far a switch got: the new peer, its routes, the end of the old peer; the ledger between. */
  datatype SwitchLog = SwitchLog(peerUp: bool, routed: bool, oldPeerGone: bool, mid: map<IPAddress, nat>)

  /** What was counted and installed and is listed by the new configuration was always installed, `gone` aside. */
  ghost predicate ListedKept(history: seq<OsState>, from: nat, ledger: map<IPAddress, nat>, installed: set<IPAddress>,
                             excluded: seq<Text>, gone: set<IPAddress>)
  {
    forall p, k :: p in ledger && p in installed && Added(excluded, p) > 0 && p !in gone && from <= k < |history| ==>
      p in history[k].exclusions
  }

  /** Make before break in terms of the configurations: what both need was always there. */
  lemma KeptListed(history: seq<OsState>, from: nat, installed: set<IPAddress>, routes: set<IPAddress>,
                   ledger: map<IPAddress, nat>, mid: map<IPAddress, nat>, after: map<IPAddress, nat>,
                   connections: map<HopType, Connection>, config: Config)
    requires config.hop in connections && Grown(ledger, mid, config.excluded, false)
    requires forall p :: Times(after, p) == Less(Times(mid, p), Deleted(connections[config.hop].config.excluded, p))
    requires var last := connections[config.hop].config;
             Kept(history, from, Lasting(installed, after, last.excluded, Taking(last, config)), routes)
    ensures Balanced(ledger, connections) ==>
              ListedKept(history, from, ledger, installed, config.excluded, Taking(connections[config.hop].config, config))
  {
    if Balanced(ledger, connections) {
      forall p | p in ledger && Added(config.excluded, p) > 0 ensures p in after {
        SharedExclusionSurvives(ledger, mid, after, connections, Connection(config, 0), p);
      }
    }
  }

  /**
   * What a switch does to the exclusions: with any failures, what both configurations need was
   * always there but for the old server's addresses, and only those can newly be missing;
   * without, exactly which counted ones are missing, when all were there at every moment, and
   * which can become stray.
   */
  ghost predicate Excluding(connections: map<HopType, Connection>, config: Config, history: seq<OsState>, from: nat,
                            before: map<IPAddress, nat>, installed: set<IPAddress>,
                            after: map<IPAddress, nat>, end: set<IPAddress>, clean: bool)
    requires config.hop in connections
  {
    var last := connections[config.hop].config;
    && (Balanced(before, connections) ==> ListedKept(history, from, before, installed, config.excluded, Taking(last, config)))
    && Missing(after, end) <= Missing(before, installed) + Taking(last, config)
    && (clean ==> Missing(after, end) == after.Keys * (Taking(last, config) + (Missing(before, installed) - ServerKeys(config))))
    && (clean ==> Stray(end, after, connections[config.hop := Connection(config, 0)])
                  <= Stray(installed, before, connections) + StrayOfSwitch(last, config))
    && (clean && Missing(before, installed) == {} ==>
          (AlwaysExcluded(history, from, before, after, end)
           <==> config.serverKey == last.serverKey || last.hop.MultiHopExit? || ServerKeys(last) !! after.Keys))
  }

  lemma SwitchExcluding(connections: map<HopType, Connection>, config: Config, history: seq<OsState>, from: nat,
                        routes: set<IPAddress>, platform: Platform, before: map<IPAddress, nat>, installed: set<IPAddress>,
                        log: SwitchLog, after: map<IPAddress, nat>, end: set<IPAddress>, clean: bool)
    requires config.hop in connections && Grown(before, log.mid, config.excluded, clean)
    requires (forall p :: p in before ==> before[p] >= 1) && (forall p :: p in after ==> after[p] >= 1)
    requires var last := connections[config.hop].config;
             && (forall p :: Times(after, p) == Less(Times(log.mid, p), if log.peerUp then Deleted(last.excluded, p) else 0))
             && Kept(history, from, Lasting(installed, after, last.excluded, Taking(last, config)),
                     set r | r in routes && Spared(platform, r, last.allowed, config.allowed))
             && (log.peerUp || Kept(history, from, installed, routes))
             && (clean ==> log.peerUp && end == ExclusionsAfter(installed, before, after, last, config))
             && Missing(after, end) <= Missing(before, installed) + Taking(last, config)
    ensures Excluding(connections, config, history, from, before, installed, after, end, clean)
  {
    var last := connections[config.hop].config;
    var stay := set r | r in routes && Spared(platform, r, last.allowed, config.allowed);
    if log.peerUp {
      KeptListed(history, from, installed, stay, before, log.mid, after, connections, config);
    }
    if clean {
      assert Counted(before, after, last, config);
      MissingAfterSwitch(installed, before, after, last, config);
      StrayAfterSwitch(installed, before, after, connections, config);
      if Missing(before, installed) == {} {
        AlwaysExcludedIff(history, from, installed, stay, before, after, last, config);
      }
    }
  }

  /** All that follows from what a switch leaves, in terms of the values before and after. */
  lemma SwitchResults(connections: map<HopType, Connection>, config: Config, history: seq<OsState>, from: nat, platform: Platform,
                      routes: set<IPAddress>, endRoutes: set<IPAddress>, before: map<IPAddress, nat>, installed: set<IPAddress>,
                      log: SwitchLog, after: map<IPAddress, nat>, end: set<IPAddress>, released: seq<seq<Text>>, clean: bool)
    requires config.hop in connections && Grown(before, log.mid, config.excluded, clean)
    requires (forall p :: p in before ==> before[p] >= 1) && (forall p :: p in after ==> after[p] >= 1)
    requires var last := connections[config.hop].config;
             && (forall p :: Times(after, p) == Less(Times(log.mid, p), if log.peerUp then Deleted(last.excluded, p) else 0))
             && Kept(history, from, Lasting(installed, after, last.excluded, Taking(last, config)),
                     set r | r in routes && Spared(platform, r, last.allowed, config.allowed))
             && (log.peerUp || Kept(history, from, installed, routes))
             && (clean ==> log.peerUp && end == ExclusionsAfter(installed, before, after, last, config)
                           && endRoutes == AfterDeleting(platform, routes + AllPieces(platform, config.allowed), last.allowed, config.allowed))
             && Missing(after, end) <= Missing(before, installed) + Taking(last, config)
    ensures Excluding(connections, config, history, from, before, installed, after, end, clean)
    ensures var last := connections[config.hop].config;
            var next := connections[config.hop := Connection(config, 0)];
            && (!Clash(platform, last.allowed, config.allowed) ==>
                  RangesKept(platform, history, from, routes, last.allowed, config.allowed))
            && (clean && Sorted(last.allowed) ==>
                  (Routed(platform, config.allowed, endRoutes) <==> !Clash(platform, last.allowed, config.allowed)))
            && (clean && Balanced(before, connections) ==> (Balanced(after, next) <==> HostForm(last.excluded)))
            && (clean && Accounted(before, connections, released) ==> Accounted(after, next, released + [last.excluded]))
  {
    var last := connections[config.hop].config;
    SwitchRanges(history, from, platform, routes, endRoutes, Lasting(installed, after, last.excluded, Taking(last, config)),
                 last, config, clean);
    if clean { SwitchCounts(before, after, connections, released, Connection(config, 0)); }
    SwitchExcluding(connections, config, history, from, routes, platform, before, installed, log, after, end, clean);
  }

  lemma SwitchRanges(history: seq<OsState>, from: nat, platform: Platform, routes: set<IPAddress>, endRoutes: set<IPAddress>,
                     lasting: set<IPAddress>, last: Config, config: Config, clean: bool)
    requires Kept(history, from, lasting, set r | r in routes && Spared(platform, r, last.allowed, config.allowed))
    requires clean ==> endRoutes == AfterDeleting(platform, routes + AllPieces(platform, config.allowed), last.allowed, config.allowed)
    ensures !Clash(platform, last.allowed, config.allowed) ==>
              RangesKept(platform, history, from, routes, last.allowed, config.allowed)
    ensures clean && Sorted(last.allowed) ==>
              (Routed(platform, config.allowed, endRoutes) <==> !Clash(platform, last.allowed, config.allowed))
  {
    SharedRangesKept(platform, history, from, lasting, routes, last.allowed, config.allowed);
    if clean && Sorted(last.allowed) { NewRangesRoutedIff(platform, routes, last.allowed, config.allowed); }
  }

  /** Ranges of both configurations that were routed were routed at every moment. */
  ghost predicate RangesKept(platform: Platform, history: seq<OsState>, from: nat, routes: set<IPAddress>,
                             last: seq<IPAddress>, keep: seq<IPAddress>)
  {
    forall r, k :: r in last && r in keep && Pieces(platform, r) <= routes && from <= k < |history| ==>
      Pieces(platform, r) <= history[k].routes
  }

  lemma SharedRangesKept(platform: Platform, history: seq<OsState>, from: nat, excl: set<IPAddress>, routes: set<IPAddress>,
                         last: seq<IPAddress>, keep: seq<IPAddress>)
    requires Kept(history, from, excl, set r | r in routes && Spared(platform, r, last, keep))
    ensures !Clash(platform, last, keep) ==> RangesKept(platform, history, from, routes, last, keep)
  {
    if !Clash(platform, last, keep) {
      forall r, x | r in keep && x in Pieces(platform, r) ensures Spared(platform, x, last, keep) {
        forall q | q in last && q !in keep ensures x !in Gone(platform, q) {
          assert x in Gone(platform, q) ==> x in Gone(platform, q) * Pieces(platform, r);
        }
      }
    }
  }

  lemma KeysDropped(before: map<IPAddress, nat>, after: map<IPAddress, nat>, p: IPAddress)
    requires (forall q :: q in before ==> before[q] >= 1) && (forall q :: q in after ==> after[q] >= 1)
    requires forall q :: Times(after, q) == Less(Times(before, q), One(q == p))
    ensures after.Keys == before.Keys || after.Keys == before.Keys - {p}
    ensures p !in after ==> after.Keys == before.Keys - {p}
  {
    forall q ensures q in before <==> Times(before, q) > 0 {}
    forall q ensures q in after <==> Times(after, q) > 0 {}
  }

  /** How a ledger may grow by these entries: fully where the key was present or nothing failed. */
  ghost predicate Grown(before: map<IPAddress, nat>, after: map<IPAddress, nat>, ts: seq<Text>, exact: bool) {
    forall p ::
      && Times(before, p) <= Times(after, p) <= Times(before, p) + Added(ts, p)
      && (exact || p in before ==> Times(after, p) == Times(before, p) + Added(ts, p))
  }

  lemma GrownHas(before: map<IPAddress, nat>, after: map<IPAddress, nat>, ts: seq<Text>, exact: bool)
    requires Grown(before, after, ts, exact)
    requires (forall q :: q in before ==> before[q] >= 1) && (forall q :: q in after ==> after[q] >= 1)
    ensures before.Keys <= after.Keys
    ensures exact ==> after.Keys - before.Keys == AddedKeys(ts) - before.Keys
  {
    forall p ensures p in before ==> p in after {
      assert p in before ==> Times(before, p) > 0;
    }
    forall p ensures exact && p !in before ==> (p in after <==> p in AddedKeys(ts)) {
      KeysCount(ts, p);
      assert p in after <==> Times(after, p) > 0;
    }
  }

  lemma GrownNext(before: map<IPAddress, nat>, ledger: map<IPAddress, nat>, after: map<IPAddress, nat>, ts: seq<Text>, i: nat,
                  exact: bool, ok: bool)
    requires i < |ts| && Grown(before, ledger, ts[..i], exact) && before.Keys <= ledger.Keys
    requires forall q :: Times(after, q) == Times(ledger, q) + One(ok && q == FromText(ts[i]))
    requires FromText(ts[i]) in ledger ==> ok
    ensures Grown(before, after, ts[..i + 1], exact && ok)
  {
    assert ts[..i + 1][..i] == ts[..i];
    forall p ensures Added(ts[..i + 1], p) == Added(ts[..i], p) + One(FromText(ts[i]) == p) {}
  }

  lemma KeysAdded(before: map<IPAddress, nat>, after: map<IPAddress, nat>, p: IPAddress, ok: bool,
                  installed: set<IPAddress>, base: set<IPAddress>)
    requires (forall q :: q in before ==> before[q] >= 1) && (forall q :: q in after ==> after[q] >= 1)
    requires forall q :: Times(after, q) == Times(before, q) + One(ok && q == p)
    requires base <= before.Keys
    ensures after.Keys == before.Keys + if ok then {p} else {}
    ensures installed + (before.Keys - base) + (if ok && p !in before then {p} else {}) == installed + (after.Keys - base)
  {
    forall q ensures q in before <==> Times(before, q) > 0 {}
    forall q ensures q in after <==> Times(after, q) > 0 {}
    assert after.Keys == before.Keys + if ok then {p} else {};
  }

  lemma KeptJoins(h1: seq<OsState>, h2: seq<OsState>, from: nat,
                  e1: set<IPAddress>, r1: set<IPAddress>, e2: set<IPAddress>, r2: set<IPAddress>)
    requires h1 <= h2 && Kept(h1, from, e1, r1) && Kept(h2, |h1|, e2, r2)
    ensures Kept(h2, from, e1 * e2, r1 * r2)
  {
  }

  /**
   * The ledger against the system: counts are positive; a counted exclusion is installed
   * exactly if no peer deletion took it; any other is exactly if its deletion failed or a peer
   * asked for it.
   */
  ghost predicate LedgerMatches(ledger: map<IPAddress, nat>, installed: set<IPAddress>,
                                leaked: set<IPAddress>, held: set<IPAddress>, taken: set<IPAddress>)
  {
    && (forall p :: p in ledger ==> ledger[p] >= 1)
    && (forall p :: p in ledger ==> (p in installed <==> p !in taken))
    && (forall p :: p !in ledger ==> (p in installed <==> p in leaked + held))
    && leaked + held <= installed && taken !! installed && ledger.Keys !! leaked
  }

  /** No exclusion is left that the peer of one of these connections asked for. */
  ghost predicate NotHeld(held: set<IPAddress>, connections: map<HopType, Connection>) {
    forall h :: h in connections ==> held !! ServerKeys(connections[h].config)
  }

  /** A connection after looking at the peers' statuses: the last handshake reported counts. */
  function Heard(c: Connection, peers: seq<PeerStatus>): Connection {
    if c.handshake != 0 || peers == [] then c else
      var last := peers[|peers| - 1];
      if last.key == c.config.serverKey && last.handshake != 0 then c.(handshake := last.handshake)
      else Heard(c, peers[..|peers| - 1])
  }

  /** The signals: one for every reported handshake of a peer that was still awaited. */
  function News(c: Connection, peers: seq<PeerStatus>): seq<Event> {
    if c.handshake != 0 || peers == [] then [] else
      var last := peers[|peers| - 1];
      News(c, peers[..|peers| - 1]) +
      if last.key == c.config.serverKey && last.handshake != 0 then [Connected(last.key)] else []
  }

  function NewsAt(connections: map<HopType, Connection>, h: HopType, peers: seq<PeerStatus>): seq<Event> {
    if h in connections then News(connections[h], peers) else []
  }

  function HeardAt(connections: map<HopType, Connection>, h: HopType, peers: seq<PeerStatus>): map<HopType, Connection> {
    if h in connections then connections[h := Heard(connections[h], peers)] else connections
  }

  function AllHeard(connections: map<HopType, Connection>, peers: seq<PeerStatus>): map<HopType, Connection> {
    map h | h in connections :: Heard(connections[h], peers)
  }

  lemma HopByHop(c0: map<HopType, Connection>, c1: map<HopType, Connection>, c2: map<HopType, Connection>,
                 c3: map<HopType, Connection>, peers: seq<PeerStatus>)
    requires c1 == HeardAt(c0, SingleHop, peers)
    requires c2 == HeardAt(c1, MultiHopEntry, peers)
    requires c3 == HeardAt(c2, MultiHopExit, peers)
    ensures c3 == AllHeard(c0, peers)
    ensures NewsAt(c1, MultiHopEntry, peers) == NewsAt(c0, MultiHopEntry, peers)
    ensures NewsAt(c2, MultiHopExit, peers) == NewsAt(c0, MultiHopExit, peers)
    ensures AwaitingAt(c1, SingleHop) == AwaitingAt(c3, SingleHop)
    ensures AwaitingAt(c2, MultiHopEntry) == AwaitingAt(c3, MultiHopEntry)
  {
    assert c3.Keys == c0.Keys;
    forall h | h in c0 ensures c3[h] == Heard(c0[h], peers) {
      match h
      case SingleHop =>
      case MultiHopEntry =>
      case MultiHopExit =>
    }
  }

  ghost predicate Awaiting(connections: map<HopType, Connection>) {
    exists h :: h in connections && connections[h].handshake == 0
  }

  predicate AwaitingAt(connections: map<HopType, Connection>, h: HopType) {
    h in connections && connections[h].handshake == 0
  }

  lemma AwaitingByHop(connections: map<HopType, Connection>)
    ensures Awaiting(connections) <==> AwaitingAt(connections, SingleHop) || AwaitingAt(connections, MultiHopEntry)
                                       || AwaitingAt(connections, MultiHopExit)
  {
    if Awaiting(connections) {
      var h :| h in connections && connections[h].handshake == 0;
      match h
      case SingleHop =>
      case MultiHopEntry =>
      case MultiHopExit =>
    }
  }

  /** Nobody is announced without a handshake, and a first handshake is always announced. */
  lemma {:induction false} NewsIffHeard(c: Connection, peers: seq<PeerStatus>)
    requires c.handshake == 0
    ensures News(c, peers) != [] <==> Heard(c, peers).handshake != 0
    ensures forall e :: e in News(c, peers) ==> e == Connected(c.config.serverKey)
    ensures Heard(c, peers).handshake != 0 <==>
              exists i :: 0 <= i < |peers| && peers[i].key == c.config.serverKey && peers[i].handshake != 0
  {
    if peers != [] {
      var n := |peers| - 1;
      NewsIffHeard(c, peers[..n]);
      assert forall i :: 0 <= i < n ==> peers[..n][i] == peers[i];
    }
  }

  class Daemon {
    const os: WireguardUtils
    const supportDns: bool
    const supportIp: bool
    var connections: map<HopType, Connection>
    var excludedAddrs: map<IPAddress, nat>
    var timerArmed: bool
    var events: seq<Event>
    /** The excluded lists of the connections that switches have replaced since the last clean-up. */
    ghost var released: seq<seq<Text>>

    ghost predicate Valid()
      reads this, os
    {
      && LedgerMatches(excludedAddrs, os.state.exclusions, os.leaked, os.held, os.taken)
      && (forall h :: h in connections ==> connections[h].config.hop == h)
    }

    constructor (os: WireguardUtils, supportDns: bool, supportIp: bool)
      requires os.state.exclusions == os.leaked + os.held && os.taken !! os.state.exclusions
      ensures Valid() && this.os == os && connections == map[] && excludedAddrs == map[] && events == []
      ensures Accounted(excludedAddrs, connections, released)
    {
      this.os, this.supportDns, this.supportIp := os, supportDns, supportIp;
      connections, excludedAddrs, timerArmed, events := map[], map[], false, [];
      released := [];
    }

    method AddExclusion(p: IPAddress) returns (ok: bool)
      requires Valid()
      modifies this`excludedAddrs, os
      ensures Valid()
      ensures forall q :: Times(excludedAddrs, q) == Times(old(excludedAddrs), q) + One(ok && q == p)
      ensures p in old(excludedAddrs) ==> ok
      ensures os.failures == old(os.failures) + One(!ok)
      ensures os.state == old(os.state).(exclusions := old(os.state).exclusions + if ok && p !in old(excludedAddrs) then {p} else {})
      ensures old(os.history) <= os.history
      ensures Kept(os.history, |old(os.history)|, old(os.state).exclusions, old(os.state).routes)
    {
      if p in excludedAddrs {
        excludedAddrs := excludedAddrs[p := excludedAddrs[p] + 1];
        return true;
      }
      ok := os.AddExclusionRoute(p);
      if ok { excludedAddrs := excludedAddrs[p := 1]; }
    }

    /** An address that is not in the ledger reads as zero, and only the system is asked. */
    method DelExclusion(p: IPAddress) returns (ok: bool)
      requires Valid()
      modifies this`excludedAddrs, os
      ensures Valid()
      ensures forall q :: Times(excludedAddrs, q) == Less(Times(old(excludedAddrs), q), One(q == p))
      ensures os.failures == old(os.failures) + One(!ok)
      ensures os.state == old(os.state).(exclusions := old(os.state).exclusions - if ok && p !in excludedAddrs then {p} else {})
      ensures old(os.history) <= os.history
      ensures Kept(os.history, |old(os.history)|, os.state.exclusions, old(os.state).routes)
    {
      if p in excludedAddrs && excludedAddrs[p] > 1 {
        excludedAddrs := excludedAddrs[p := excludedAddrs[p] - 1];
        return true;
      }
      excludedAddrs := excludedAddrs - {p};
      ok := os.DeleteExclusionRoute(p);
    }

    /** The loop over the excluded addresses of a configuration; failures are ignored. */
    method AddExclusions(ts: seq<Text>)
      requires Valid()
      modifies this`excludedAddrs, os
      ensures Valid()
      ensures Grown(old(excludedAddrs), excludedAddrs, ts, os.failures == old(os.failures))
      ensures os.failures >= old(os.failures)
      ensures os.state == old(os.state).(exclusions := old(os.state).exclusions + (excludedAddrs.Keys - old(excludedAddrs).Keys))
      ensures os.failures == old(os.failures) ==>
                os.state.exclusions == old(os.state).exclusions + (AddedKeys(ts) - old(excludedAddrs).Keys)
                && excludedAddrs.Keys == old(excludedAddrs).Keys + AddedKeys(ts)
      ensures old(os.history) <= os.history && old(excludedAddrs).Keys <= excludedAddrs.Keys
      ensures Kept(os.history, |old(os.history)|, old(os.state).exclusions, old(os.state).routes)
    {
      for i := 0 to |ts|
        invariant Valid()
        invariant Grown(old(excludedAddrs), excludedAddrs, ts[..i], os.failures == old(os.failures))
        invariant os.failures >= old(os.failures)
        invariant os.state == old(os.state).(exclusions := old(os.state).exclusions + (excludedAddrs.Keys - old(excludedAddrs).Keys))
        invariant old(os.history) <= os.history
        invariant Kept(os.history, |old(os.history)|, old(os.state).exclusions, old(os.state).routes)
      {
        ghost var ledger, before, exact, installed := excludedAddrs, os.history, os.failures == old(os.failures), os.state.exclusions;
        GrownHas(old(excludedAddrs), ledger, ts[..i], exact);
        var ok := AddExclusion(FromText(ts[i]));
        KeysAdded(ledger, excludedAddrs, FromText(ts[i]), ok, old(os.state).exclusions, old(excludedAddrs).Keys);
        GrownNext(old(excludedAddrs), ledger, excludedAddrs, ts, i, exact, ok);
        KeptJoins(before, os.history, |old(os.history)|, old(os.state).exclusions, old(os.state).routes, installed, old(os.state).routes);
      }
      assert ts[..|ts|] == ts;
      GrownHas(old(excludedAddrs), excludedAddrs, ts, os.failures == old(os.failures));
    }

    /** The loop over the excluded addresses of the previous configuration. */
    method DelExclusions(ts: seq<Text>)
      requires Valid()
      modifies this`excludedAddrs, os
      ensures Valid()
      ensures forall p :: Times(excludedAddrs, p) == Less(Times(old(excludedAddrs), p), Deleted(ts, p))
      ensures os.failures >= old(os.failures)
      ensures os.state == old(os.state).(exclusions := os.state.exclusions)
      ensures os.failures == old(os.failures) ==>
                os.state.exclusions == old(os.state).exclusions - (DeletedKeys(ts) - excludedAddrs.Keys)
      ensures excludedAddrs.Keys - os.state.exclusions <= old(excludedAddrs).Keys - old(os.state).exclusions
      ensures old(os.history) <= os.history && Lasting(old(os.state).exclusions, excludedAddrs, ts, {}) <= os.state.exclusions
      ensures Kept(os.history, |old(os.history)|, Lasting(old(os.state).exclusions, excludedAddrs, ts, {}), old(os.state).routes)
    {
      for i := 0 to |ts|
        invariant Valid()
        invariant forall p :: Times(excludedAddrs, p) == Less(Times(old(excludedAddrs), p), Deleted(ts[..i], p))
        invariant os.failures >= old(os.failures)
        invariant os.state == old(os.state).(exclusions := os.state.exclusions)
        invariant os.failures == old(os.failures) ==>
                    os.state.exclusions == old(os.state).exclusions - (DeletedKeys(ts[..i]) - excludedAddrs.Keys)
        invariant excludedAddrs.Keys - os.state.exclusions <= old(excludedAddrs).Keys - old(os.state).exclusions
        invariant old(os.history) <= os.history
        invariant Lasting(old(os.state).exclusions, excludedAddrs, ts[..i], {}) <= os.state.exclusions
        invariant Kept(os.history, |old(os.history)|, Lasting(old(os.state).exclusions, excludedAddrs, ts[..i], {}), old(os.state).routes)
      {
        ghost var p, ledger, before, state, was := FromHost(ts[i]), excludedAddrs, os.history, os.state.exclusions, os.failures;
        ghost var lasting := Lasting(old(os.state).exclusions, ledger, ts[..i], {});
        assert ts[..i + 1][..i] == ts[..i];
        var ok := DelExclusion(FromHost(ts[i]));
        KeysDropped(ledger, excludedAddrs, p);
        assert Lasting(old(os.state).exclusions, excludedAddrs, ts[..i + 1], {}) <= lasting * os.state.exclusions;
        KeptJoins(before, os.history, |old(os.history)|, lasting, old(os.state).routes, os.state.exclusions, old(os.state).routes);
      }
      assert ts[..|ts|] == ts;
    }

    /** The loop that installs the allowed ranges; it stops at the first failure. */
    method UpdateRoutes(allowed: seq<IPAddress>) returns (ok: bool)
      modifies os`state, os`history, os`failures
      ensures ok ==> os.state.routes == old(os.state).routes + AllPieces(os.platform, allowed)
      ensures os.failures == old(os.failures) + One(!ok)
      ensures os.state == old(os.state).(routes := os.state.routes)
      ensures old(os.history) <= os.history
      ensures old(os.state).routes <= os.state.routes
      ensures Kept(os.history, |old(os.history)|, old(os.state).exclusions, old(os.state).routes)
    {
      for i := 0 to |allowed|
        invariant os.state.routes == old(os.state).routes + AllPieces(os.platform, allowed[..i])
        invariant os.failures == old(os.failures)
        invariant os.state == old(os.state).(routes := os.state.routes)
        invariant old(os.history) <= os.history
        invariant Kept(os.history, |old(os.history)|, old(os.state).exclusions, old(os.state).routes)
      {
        assert allowed[..i + 1][..i] == allowed[..i];
        ok := os.UpdateRoutePrefix(allowed[i]);
        if !ok { return; }
      }
      assert allowed[..|allowed|] == allowed;
      return true;
    }

    /** The loop that deletes the ranges the new configuration does not share. */
    method DeleteRoutes(last: seq<IPAddress>, keep: seq<IPAddress>)
      modifies os`state, os`history, os`failures
      ensures os.failures >= old(os.failures)
      ensures os.failures == old(os.failures) ==>
                os.state.routes == AfterDeleting(os.platform, old(os.state).routes, last, keep)
      ensures forall r :: r in old(os.state).routes && Spared(os.platform, r, last, keep) ==> r in os.state.routes
      ensures os.state == old(os.state).(routes := os.state.routes)
      ensures old(os.history) <= os.history
      ensures Kept(os.history, |old(os.history)|, old(os.state).exclusions,
                   set r | r in old(os.state).routes && Spared(os.platform, r, last, keep))
    {
      ghost var stay := set r | r in os.state.routes && Spared(os.platform, r, last, keep);
      for i := 0 to |last|
        invariant os.failures >= old(os.failures)
        invariant os.failures == old(os.failures) ==>
                    os.state.routes == AfterDeleting(os.platform, old(os.state).routes, last[..i], keep)
        invariant os.state == old(os.state).(routes := os.state.routes)
        invariant old(os.history) <= os.history
        invariant stay <= os.state.routes
        invariant Kept(os.history, |old(os.history)|, old(os.state).exclusions, stay)
      {
        assert last[..i + 1][..i] == last[..i];
        if last[i] !in keep {
          assert forall r :: r in stay ==> r !in Gone(os.platform, last[i]);
          var ok := os.DeleteRoutePrefix(last[i]);
        }
      }
      assert last[..|last|] == last;
    }

    /** First half of Daemon::switchServer: everything the new configuration needs. */
    method MakeNew(config: Config) returns (ok: bool, ghost routed: bool)
      requires Valid()
      modifies this`excludedAddrs, os
      ensures Valid()
      ensures Grown(old(excludedAddrs), excludedAddrs, config.excluded, os.failures == old(os.failures))
      ensures os.failures >= old(os.failures) && (os.failures == old(os.failures) ==> ok && routed)
      ensures os.state.up == old(os.state.up) && old(os.state).routes <= os.state.routes
      ensures ok ==> config.serverKey in os.state.peers
      ensures routed ==> os.state.routes == old(os.state).routes + AllPieces(os.platform, config.allowed)
      ensures os.failures == old(os.failures) ==>
                os.state.exclusions == old(os.state).exclusions + (AddedKeys(config.excluded) - old(excludedAddrs).Keys) + ServerKeys(config)
      ensures Missing(excludedAddrs, os.state.exclusions) <= Missing(old(excludedAddrs), old(os.state).exclusions)
      ensures old(os.history) <= os.history && old(os.state).exclusions <= os.state.exclusions
      ensures Kept(os.history, |old(os.history)|, old(os.state).exclusions, old(os.state).routes)
    {
      AddExclusions(config.excluded);
      ghost var h := os.history;
      ok := os.UpdatePeer(config);
      routed := false;
      if ok {
        var added := UpdateRoutes(config.allowed);
        routed := added;
      }
      KeptJoins(h, os.history, |old(os.history)|, old(os.state).exclusions, old(os.state).routes,
                old(os.state).exclusions, old(os.state).routes);
    }

    /** Second half: what only the old configuration needed, the peer and its server's exclusions last. */
    method BreakOld(last: Config, config: Config) returns (ok: bool)
      requires Valid()
      modifies this`excludedAddrs, os
      ensures Valid()
      ensures forall p :: Times(excludedAddrs, p) == Less(Times(old(excludedAddrs), p), Deleted(last.excluded, p))
      ensures os.failures >= old(os.failures) && (os.failures == old(os.failures) ==> ok)
      ensures os.state.up == old(os.state.up)
      ensures os.state.peers == old(os.state.peers) - if ok && config.serverKey != last.serverKey then {last.serverKey} else {}
      ensures os.failures == old(os.failures) ==>
                os.state.routes == AfterDeleting(os.platform, old(os.state).routes, last.allowed, config.allowed)
      ensures os.failures == old(os.failures) ==>
                os.state.exclusions == old(os.state).exclusions - (DeletedKeys(last.excluded) - excludedAddrs.Keys) - Taking(last, config)
      ensures Missing(excludedAddrs, os.state.exclusions) <= Missing(old(excludedAddrs), old(os.state).exclusions) + Taking(last, config)
      ensures old(os.history) <= os.history
      ensures Kept(os.history, |old(os.history)|, Lasting(old(os.state).exclusions, excludedAddrs, last.excluded, Taking(last, config)),
                   set r | r in old(os.state).routes && Spared(os.platform, r, last.allowed, config.allowed))
    {
      ghost var stay := set r | r in os.state.routes && Spared(os.platform, r, last.allowed, config.allowed);
      DelExclusions(last.excluded);
      ghost var h, lasting := os.history, Lasting(old(os.state).exclusions, excludedAddrs, last.excluded, {});
      DeleteRoutes(last.allowed, config.allowed);
      KeptJoins(h, os.history, |old(os.history)|, lasting, stay, lasting, stay);
      ok := true;
      if config.serverKey != last.serverKey {
        ok := os.DeletePeer(last);
      }
    }

    /** The steps of Daemon::switchServer, and what they leave; the log says how far it got. */
    method SwitchSteps(config: Config) returns (ok: bool, ghost log: SwitchLog)
      requires Valid() && config.hop in connections
      modifies this`excludedAddrs, this`connections, this`released, os
      ensures Valid()
      ensures ok <==> log.peerUp && log.oldPeerGone
      ensures connections == if ok then old(connections)[config.hop := Connection(config, 0)] else old(connections)
      ensures released == if log.peerUp then old(released) + [old(connections)[config.hop].config.excluded] else old(released)
      ensures Grown(old(excludedAddrs), log.mid, config.excluded, os.failures == old(os.failures))
      ensures forall p :: Times(excludedAddrs, p)
                       == Less(Times(log.mid, p), if log.peerUp then Deleted(old(connections)[config.hop].config.excluded, p) else 0)
      ensures os.failures >= old(os.failures) && (os.failures == old(os.failures) ==> ok && log.routed)
      ensures old(os.history) <= os.history
      ensures Kept(os.history, |old(os.history)|,
                   Lasting(old(os.state).exclusions, excludedAddrs, old(connections)[config.hop].config.excluded,
                           Taking(old(connections)[config.hop].config, config)),
                   set r | r in old(os.state).routes
                           && Spared(os.platform, r, old(connections)[config.hop].config.allowed, config.allowed))
      ensures log.peerUp || Kept(os.history, |old(os.history)|, old(os.state).exclusions, old(os.state).routes)
      ensures os.state.up == old(os.state.up)
      ensures log.peerUp ==> config.serverKey in os.state.peers
      ensures ok && old(connections)[config.hop].config.serverKey != config.serverKey ==>
                old(connections)[config.hop].config.serverKey !in os.state.peers
      ensures os.failures == old(os.failures) ==>
                os.state.routes == AfterDeleting(os.platform, old(os.state).routes + AllPieces(os.platform, config.allowed),
                                                 old(connections)[config.hop].config.allowed, config.allowed)
      ensures os.failures == old(os.failures) ==>
                os.state.exclusions == ExclusionsAfter(old(os.state).exclusions, old(excludedAddrs), excludedAddrs,
                                                       old(connections)[config.hop].config, config)
      ensures Missing(excludedAddrs, os.state.exclusions)
              <= Missing(old(excludedAddrs), old(os.state).exclusions) + Taking(old(connections)[config.hop].config, config)
    {
      var last := connections[config.hop].config;
      ghost var routed;
      ok, routed := MakeNew(config);
      log := SwitchLog(ok, routed, false, excludedAddrs);
      if !ok { return; }
      ghost var stay := set r | r in old(os.state).routes && Spared(os.platform, r, last.allowed, config.allowed);
      ghost var h, mid := os.history, os.state.exclusions;
      ok := BreakOld(last, config);
      KeptJoins(h, os.history, |old(os.history)|, old(os.state).exclusions, stay,
                Lasting(mid, excludedAddrs, last.excluded, Taking(last, config)), stay);
      released := released + [last.excluded];
      log := log.(oldPeerGone := ok);
      if ok { connections := connections[config.hop := Connection(config, 0)]; }
    }

    /**
     * Daemon::switchServer. Success needs the new peer and the end of the old one, and nothing
     * else: a range that could not be routed is not noticed.
     *
     * Make before break, with any failures: an exclusion that was installed and is still
     * counted, or that the old list does not mention, was installed at every moment, unless it
     * went with the old peer; so was every route but those of ranges only the old configuration
     * had. Without failures it is exact which counted exclusions are missing, and whether any
     * ever was.
     */
    method SwitchServer(config: Config) returns (ok: bool, ghost log: SwitchLog)
      requires Valid() && config.hop in connections
      modifies this`excludedAddrs, this`connections, this`released, os
      ensures Valid()
      ensures ok <==> log.peerUp && log.oldPeerGone
      ensures connections == if ok then old(connections)[config.hop := Connection(config, 0)] else old(connections)
      ensures released == if log.peerUp then old(released) + [old(connections)[config.hop].config.excluded] else old(released)
      ensures Grown(old(excludedAddrs), log.mid, config.excluded, os.failures == old(os.failures))
      ensures forall p :: Times(excludedAddrs, p)
                       == Less(Times(log.mid, p), if log.peerUp then Deleted(old(connections)[config.hop].config.excluded, p) else 0)
      ensures os.failures >= old(os.failures) && (os.failures == old(os.failures) ==> ok && log.routed)
      ensures old(os.history) <= os.history
      ensures Kept(os.history, |old(os.history)|,
                   Lasting(old(os.state).exclusions, excludedAddrs, old(connections)[config.hop].config.excluded,
                           Taking(old(connections)[config.hop].config, config)),
                   set r | r in old(os.state).routes
                           && Spared(os.platform, r, old(connections)[config.hop].config.allowed, config.allowed))
      ensures log.peerUp || Kept(os.history, |old(os.history)|, old(os.state).exclusions, old(os.state).routes)
      ensures os.state.up == old(os.state.up)
      ensures log.peerUp ==> config.serverKey in os.state.peers
      ensures ok && old(connections)[config.hop].config.serverKey != config.serverKey ==>
                old(connections)[config.hop].config.serverKey !in os.state.peers
      ensures os.failures == old(os.failures) ==>
                os.state.routes == AfterDeleting(os.platform, old(os.state).routes + AllPieces(os.platform, config.allowed),
                                                 old(connections)[config.hop].config.allowed, config.allowed)
      ensures os.failures == old(os.failures) ==>
                os.state.exclusions == ExclusionsAfter(old(os.state).exclusions, old(excludedAddrs), excludedAddrs,
                                                       old(connections)[config.hop].config, config)
      ensures Missing(excludedAddrs, os.state.exclusions)
              <= Missing(old(excludedAddrs), old(os.state).exclusions) + Taking(old(connections)[config.hop].config, config)
      ensures ok && os.failures == old(os.failures) && Sorted(old(connections)[config.hop].config.allowed) ==>
                (Routed(os.platform, config.allowed, os.state.routes)
                 <==> !Clash(os.platform, old(connections)[config.hop].config.allowed, config.allowed))
      ensures ok && os.failures == old(os.failures) && Balanced(old(excludedAddrs), old(connections)) ==>
                (Balanced(excludedAddrs, connections) <==> HostForm(old(connections)[config.hop].config.excluded))
      ensures ok && os.failures == old(os.failures) && Accounted(old(excludedAddrs), old(connections), old(released)) ==>
                Accounted(excludedAddrs, connections, released)
      ensures !Clash(os.platform, old(connections)[config.hop].config.allowed, config.allowed) ==>
                RangesKept(os.platform, os.history, |old(os.history)|, old(os.state).routes,
                           old(connections)[config.hop].config.allowed, config.allowed)
      ensures Excluding(old(connections), config, os.history, |old(os.history)|, old(excludedAddrs), old(os.state).exclusions,
                        excludedAddrs, os.state.exclusions, ok && os.failures == old(os.failures))
    {
      ok, log := SwitchSteps(config);
      SwitchResults(old(connections), config, os.history, |old(os.history)|, os.platform, old(os.state).routes, os.state.routes,
                    old(excludedAddrs), old(os.state).exclusions, log, excludedAddrs, os.state.exclusions, old(released),
                    os.failures == old(os.failures));
    }

    method DeletePeerAndRoutes(h: HopType)
      requires Valid()
      modifies os
      ensures Valid() && os.failures >= old(os.failures)
      ensures os.state.exclusions <= old(os.state).exclusions && os.state.up == old(os.state).up
      ensures os.held <= old(os.held) && os.leaked <= old(os.leaked)
      ensures os.failures == old(os.failures) && h in connections ==> os.held !! ServerKeys(connections[h].config)
      ensures os.failures == old(os.failures) ==> os.state.exclusions == old(os.state).exclusions - ServersAt(connections, h)
    {
      if h in connections {
        var config := connections[h].config;
        for i := 0 to |config.allowed|
          invariant Valid() && os.failures >= old(os.failures)
          invariant os.state.exclusions == old(os.state).exclusions && os.state.up == old(os.state).up
          invariant os.held == old(os.held) && os.leaked == old(os.leaked)
        {
          var ok := os.DeleteRoutePrefix(config.allowed[i]);
        }
        var ok := os.DeletePeer(config);
      }
    }

    method DeletePeersAndRoutes()
      requires Valid()
      modifies os
      ensures Valid() && os.failures >= old(os.failures)
      ensures os.state.exclusions <= old(os.state).exclusions && os.state.up == old(os.state).up
      ensures os.held <= old(os.held) && os.leaked <= old(os.leaked)
      ensures os.failures == old(os.failures) ==> NotHeld(os.held, connections)
      ensures os.failures == old(os.failures) ==> os.state.exclusions == old(os.state).exclusions - LiveServers(connections)
    {
      DeletePeerAndRoutes(SingleHop);
      DeletePeerAndRoutes(MultiHopEntry);
      DeletePeerAndRoutes(MultiHopExit);
    }

    /** The clean-up of the ledger: every key is deleted in the system, whatever its count. */
    method ClearExclusions()
      requires Valid()
      modifies this`excludedAddrs, this`released, os
      ensures Valid() && excludedAddrs == map[] && released == []
      ensures os.state == old(os.state).(exclusions := os.leaked + os.held)
      ensures os.held <= old(os.held) && os.failures >= old(os.failures)
      ensures os.failures == old(os.failures) ==> os.leaked <= old(os.leaked)
      ensures os.failures == old(os.failures) ==> os.state.exclusions == old(os.state).exclusions - old(excludedAddrs).Keys
    {
      var left := excludedAddrs.Keys;
      while left != {}
        invariant LedgerMatches(map p | p in left :: 1, os.state.exclusions, os.leaked, os.held, os.taken)
        invariant os.state == old(os.state).(exclusions := os.state.exclusions)
        invariant os.held <= old(os.held) && os.failures >= old(os.failures)
        invariant os.failures == old(os.failures) ==> os.leaked <= old(os.leaked)
        invariant left <= old(excludedAddrs).Keys
        invariant os.failures == old(os.failures) ==>
                    os.state.exclusions == old(os.state).exclusions - (old(excludedAddrs).Keys - left)
        decreases left
      {
        var p :| p in left;
        var ok := os.DeleteExclusionRoute(p);
        left := left - {p};
      }
      excludedAddrs, released := map[], [];
    }

    /** Peers and routes, exclusions, and the interface itself. */
    method TearDown() returns (ok: bool)
      requires Valid()
      modifies this`excludedAddrs, this`released, os
      ensures Valid() && excludedAddrs == map[] && released == []
      ensures ok ==> os.state == OsState(false, {}, {}, os.leaked + os.held)
      ensures os.failures >= old(os.failures) && (!ok ==> os.failures > old(os.failures))
      ensures os.failures == old(os.failures) ==> os.leaked <= old(os.leaked) && NotHeld(os.held, connections)
      ensures os.failures == old(os.failures) ==>
                os.state.exclusions == Stray(old(os.state).exclusions, old(excludedAddrs), connections)
    {
      DeletePeersAndRoutes();
      ClearExclusions();
      ok := os.DeleteInterface();
    }

    /**
     * Daemon::deactivate. Success leaves no connection, no counted exclusion and no interface,
     * and without failures exactly the stray exclusions: none at all if and only if none was
     * stray. Failure leaves the connections, and loses the ledger only when the interface would
     * not go.
     */
    method Deactivate(emitSignals: bool) returns (ok: bool)
      requires Valid()
      modifies this`excludedAddrs, this`connections, this`events, this`released, os
      ensures Valid()
      ensures ok ==> connections == map[] && excludedAddrs == map[] && released == []
                     && os.state == OsState(false, {}, {}, os.leaked + os.held)
      ensures ok && os.failures == old(os.failures) ==> NotHeld(os.held, old(connections))
      ensures ok && os.failures == old(os.failures) ==>
                os.state.exclusions == Stray(old(os.state).exclusions, old(excludedAddrs), old(connections))
      ensures Tidy(old(excludedAddrs), old(os.state).exclusions, old(connections),
                   excludedAddrs, os.state.exclusions, connections, {}, os.failures == old(os.failures))
      ensures !ok ==> connections == old(connections)
      ensures excludedAddrs != old(excludedAddrs) || released != old(released) ==>
                excludedAddrs == map[] && released == [] && (ok || os.failures > old(os.failures))
      ensures events == old(events) || (emitSignals && events == old(events) + [Disconnected])
      ensures ok ==> events == old(events) + if emitSignals then [Disconnected] else []
      ensures os.failures >= old(os.failures)
      ensures os.failures == old(os.failures) ==> os.leaked <= old(os.leaked)
    {
      if connections != map[] {
        ok := PlatformCall();
        if !ok { return; }
      }
      if emitSignals { events := events + [Disconnected]; }
      if supportDns {
        ok := PlatformCall();
        if !ok { return; }
      }
      if !os.state.up { return false; }
      ok := TearDown();
      if ok { connections := map[]; }
    }

    /** maybeUpdateResolvers: name servers are set for the hop that faces the Internet. */
    method MaybeUpdateResolvers(config: Config) returns (ok: bool)
      ensures !supportDns || config.hop.MultiHopEntry? ==> ok
    {
      if !supportDns { return true; }
      if config.hop.MultiHopExit? || config.hop.SingleHop? {
        ok := PlatformCall();
        return;
      }
      return true;
    }

    /** Daemon::activate when the hop is connected and its device can be kept. */
    method ActivateBySwitching(config: Config) returns (ok: bool, ghost switched: bool)
      requires Valid() && config.hop in connections
      modifies this`excludedAddrs, this`connections, this`timerArmed, this`released, os
      ensures Valid()
      ensures ok ==> switched
      ensures connections == if switched then old(connections)[config.hop := Connection(config, 0)] else old(connections)
      ensures timerArmed == (ok || old(timerArmed))
      ensures switched ==> config.serverKey in os.state.peers
      ensures os.failures == old(os.failures) ==> switched
      ensures os.failures >= old(os.failures) && old(os.history) <= os.history && old(released) <= released
      ensures switched && os.failures == old(os.failures) && Sorted(old(connections)[config.hop].config.allowed) ==>
                (Routed(os.platform, config.allowed, os.state.routes)
                 <==> !Clash(os.platform, old(connections)[config.hop].config.allowed, config.allowed))
      ensures switched && os.failures == old(os.failures) && Balanced(old(excludedAddrs), old(connections)) ==>
                (Balanced(excludedAddrs, connections) <==> HostForm(old(connections)[config.hop].config.excluded))
      ensures switched && os.failures == old(os.failures) && Accounted(old(excludedAddrs), old(connections), old(released)) ==>
                Accounted(excludedAddrs, connections, released)
      ensures !Clash(os.platform, old(connections)[config.hop].config.allowed, config.allowed) ==>
                RangesKept(os.platform, os.history, |old(os.history)|, old(os.state).routes,
                           old(connections)[config.hop].config.allowed, config.allowed)
      ensures Excluding(old(connections), config, os.history, |old(os.history)|, old(excludedAddrs), old(os.state).exclusions,
                        excludedAddrs, os.state.exclusions, switched && os.failures == old(os.failures))
    {
      ghost var log;
      ok, log := SwitchServer(config);
      switched := ok;
      if !ok { return; }
      ok := FinishSwitch(config);
      if ok {
        connections := connections[config.hop := Connection(config, 0)];
        timerArmed := true;
      }
    }

    method FinishSwitch(config: Config) returns (ok: bool)
    {
      if supportDns {
        ok := PlatformCall();
        if !ok { return; }
      }
      ok := MaybeUpdateResolvers(config);
      if !ok { return; }
      ok := PlatformCall();
    }

    /** Interface, exclusions, peer, name servers, addresses and routes, in this order. */
    method BringUp(config: Config) returns (ok: bool)
      requires Valid()
      modifies this`excludedAddrs, os
      ensures Valid()
      ensures ok ==> os.state.up && config.serverKey in os.state.peers
                     && Routed(os.platform, config.allowed, os.state.routes)
      ensures os.failures >= old(os.failures)
      ensures excludedAddrs == old(excludedAddrs)
           || Grown(old(excludedAddrs), excludedAddrs, config.excluded, os.failures == old(os.failures))
      ensures ok ==> Grown(old(excludedAddrs), excludedAddrs, config.excluded, os.failures == old(os.failures))
      ensures os.failures == old(os.failures) ==>
                ServerKeys(config) <= os.state.exclusions && excludedAddrs.Keys == old(excludedAddrs).Keys + AddedKeys(config.excluded)
      ensures old(excludedAddrs).Keys <= excludedAddrs.Keys
      ensures os.state.exclusions <= old(os.state).exclusions + excludedAddrs.Keys + ServerKeys(config)
      ensures Missing(excludedAddrs, os.state.exclusions) <= Missing(old(excludedAddrs), old(os.state).exclusions)
    {
      if !os.state.up {
        ok := os.AddInterface();
        if !ok { return; }
      }
      AddExclusions(config.excluded);
      ok := os.UpdatePeer(config);
      if !ok { return; }
      ok := MaybeUpdateResolvers(config);
      if !ok { return; }
      if supportIp {
        ok := PlatformCall();
        if !ok { return; }
        ok := PlatformCall();
        if !ok { return; }
      }
      ok := UpdateRoutes(config.allowed);
      AllPiecesHas(os.platform, config.allowed);
    }

    /** Daemon::activate when the hop is not connected. */
    method ActivateFresh(config: Config) returns (ok: bool)
      requires Valid() && config.hop !in connections
      modifies this`excludedAddrs, this`connections, this`timerArmed, os
      ensures Valid()
      ensures connections == if ok then old(connections)[config.hop := Connection(config, 0)] else old(connections)
      ensures timerArmed == (ok || old(timerArmed))
      ensures ok ==> os.state.up && config.serverKey in os.state.peers
                     && Routed(os.platform, config.allowed, os.state.routes)
      ensures os.failures >= old(os.failures)
      ensures excludedAddrs == old(excludedAddrs)
           || Grown(old(excludedAddrs), excludedAddrs, config.excluded, os.failures == old(os.failures))
      ensures ok && os.failures == old(os.failures) && Balanced(old(excludedAddrs), old(connections)) ==>
                Balanced(excludedAddrs, connections)
      ensures ok && os.failures == old(os.failures) && Accounted(old(excludedAddrs), old(connections), released) ==>
                Accounted(excludedAddrs, connections, released)
      ensures os.failures == old(os.failures) ==>
                ServerKeys(config) <= os.state.exclusions && excludedAddrs.Keys == old(excludedAddrs).Keys + AddedKeys(config.excluded)
      ensures Tidy(old(excludedAddrs), old(os.state).exclusions, old(connections),
                   excludedAddrs, os.state.exclusions, connections, StrayOfFailure(config, ok), os.failures == old(os.failures))
    {
      ServersReplaced(connections, Connection(config, 0));
      ok := BringUp(config);
      if !ok { return; }
      ok := PlatformCall();
      if ok {
        if os.failures == old(os.failures) {
          FreshCounts(old(excludedAddrs), excludedAddrs, connections, released, Connection(config, 0));
        }
        connections := connections[config.hop := Connection(config, 0)];
        timerArmed := true;
      }
    }

    /** Daemon::activate when the hop is connected and its device has to change: it calls itself again. */
    method Restart(config: Config) returns (ok: bool, ghost restarted: bool)
      requires Valid() && config.hop in connections
      modifies this, os
      ensures Valid() && (ok ==> restarted)
      ensures events == old(events) + if restarted && !ok then [ActivationFailure] else []
      ensures timerArmed == (ok || old(timerArmed))
      ensures connections == if ok then map[config.hop := Connection(config, 0)] else if restarted then map[] else old(connections)
      ensures ok ==> config.serverKey in os.state.peers && os.state.up && Routed(os.platform, config.allowed, os.state.routes)
      ensures os.failures >= old(os.failures)
      ensures restarted ==> released == []
      ensures !restarted && os.failures == old(os.failures) ==> released == old(released)
      ensures ok && os.failures == old(os.failures) ==>
                Accounted(excludedAddrs, connections, released) && Balanced(excludedAddrs, connections)
      ensures Tidy(old(excludedAddrs), old(os.state).exclusions, old(connections),
                   excludedAddrs, os.state.exclusions, connections, StrayOfFailure(config, ok), os.failures == old(os.failures))
      decreases One(config.hop in connections), 0
    {
      restarted := false;
      ok := Deactivate(false);
      if ok {
        restarted := true;
        NothingBalanced();
        ghost var r, s;
        ok, r, s := Activate(config);
      }
    }

    static lemma Putting(connections: map<HopType, Connection>, c: Connection)
      ensures connections[c.config.hop := c] == connections + map[c.config.hop := c]
      ensures connections + map[] == connections
      ensures map[] + map[c.config.hop := c] == map[c.config.hop := c]
    {
    }

    /**
     * Daemon::activate. `restarted` is whether it called itself after a deactivation, which
     * happens at most once; `switched` whether switchServer succeeded. A failure is signalled
     * once, or twice exactly when the inner activation failed; a failure after a successful
     * switch leaves the new connection in place without arming the timer.
     */
    method Activate(config: Config) returns (ok: bool, ghost restarted: bool, ghost switched: bool)
      requires Valid()
      modifies this, os
      ensures Valid()
      ensures events == old(events) + if ok then [] else if restarted then [ActivationFailure, ActivationFailure] else [ActivationFailure]
      ensures timerArmed == (ok || old(timerArmed))
      ensures connections == (if restarted then map[] else old(connections)) +
                             (if ok || switched then map[config.hop := Connection(config, 0)] else map[])
      ensures restarted ==> config.hop in old(connections) && !SameTunnelDevice(old(connections)[config.hop].config, config)
      ensures switched ==> config.hop in old(connections) && SameTunnelDevice(old(connections)[config.hop].config, config)
      ensures ok && config.hop in old(connections) ==> restarted || switched
      ensures ok ==> config.serverKey in os.state.peers && (switched || os.state.up)
      ensures ok && !switched ==> Routed(os.platform, config.allowed, os.state.routes)
      ensures switched && os.failures == old(os.failures) && Sorted(old(connections)[config.hop].config.allowed) ==>
                (Routed(os.platform, config.allowed, os.state.routes)
                 <==> !Clash(os.platform, old(connections)[config.hop].config.allowed, config.allowed))
      ensures os.failures >= old(os.failures)
      ensures config.hop !in old(connections) ==> released == old(released)
      ensures restarted ==> released == []
      ensures !restarted && os.failures == old(os.failures) ==> old(released) <= released
      ensures (ok || switched) && os.failures == old(os.failures) && Accounted(old(excludedAddrs), old(connections), old(released)) ==>
                Accounted(excludedAddrs, connections, released)
      ensures config.hop in old(connections) && SameTunnelDevice(old(connections)[config.hop].config, config) ==>
                && old(os.history) <= os.history && (os.failures == old(os.failures) ==> switched)
                && Excluding(old(connections), config, os.history, |old(os.history)|, old(excludedAddrs), old(os.state).exclusions,
                             excludedAddrs, os.state.exclusions, switched && os.failures == old(os.failures))
      ensures !(config.hop in old(connections) && SameTunnelDevice(old(connections)[config.hop].config, config)) ==>
                Tidy(old(excludedAddrs), old(os.state).exclusions, old(connections),
                     excludedAddrs, os.state.exclusions, connections, StrayOfFailure(config, ok), os.failures == old(os.failures))
      ensures config.hop !in old(connections) && os.failures == old(os.failures) ==>
                ServerKeys(config) <= os.state.exclusions && excludedAddrs.Keys == old(excludedAddrs).Keys + AddedKeys(config.excluded)
      ensures (ok || switched) && os.failures == old(os.failures) && Balanced(old(excludedAddrs), old(connections)) ==>
                (Balanced(excludedAddrs, connections)
                 <==> (switched ==> HostForm(old(connections)[config.hop].config.excluded)))
      decreases One(config.hop in connections), 1
    {
      restarted, switched := false, false;
      Putting(connections, Connection(config, 0));
      if config.hop in connections {
        if SameTunnelDevice(connections[config.hop].config, config) {
          ok, switched := ActivateBySwitching(config);
        } else {
          ok, restarted := Restart(config);
        }
      } else {
        ok := ActivateFresh(config);
      }
      if !ok { events := events + [ActivationFailure]; }
    }

    method Poll(h: HopType, peers: seq<PeerStatus>) returns (pending: bool)
      requires Valid()
      modifies this`connections, this`events
      ensures Valid()
      ensures connections == HeardAt(old(connections), h, peers)
      ensures events == old(events) + NewsAt(old(connections), h, peers)
      ensures pending <==> AwaitingAt(connections, h)
    {
      pending := false;
      if h in connections && connections[h].handshake == 0 {
        var c := connections[h];
        ghost var awaited := c;
        for i := 0 to |peers|
          invariant connections == old(connections)
          invariant c == Heard(awaited, peers[..i]) && c.config == awaited.config
          invariant events == old(events) + News(awaited, peers[..i])
        {
          assert peers[..i + 1][..i] == peers[..i];
          if c.config.serverKey == peers[i].key && peers[i].handshake != 0 {
            c := c.(handshake := peers[i].handshake);
            events := events + [Connected(peers[i].key)];
          }
        }
        assert peers[..|peers|] == peers;
        connections := connections[h := c];
        pending := c.handshake == 0;
      }
    }

    /** Daemon::checkHandshake, run when the single-shot timer fires. */
    method CheckHandshake() returns (peers: seq<PeerStatus>)
      requires Valid()
      modifies this`connections, this`events, this`timerArmed
      ensures Valid() && connections == AllHeard(old(connections), peers)
      ensures timerArmed <==> Awaiting(connections)
      ensures events == old(events) + NewsAt(old(connections), SingleHop, peers)
                        + NewsAt(old(connections), MultiHopEntry, peers) + NewsAt(old(connections), MultiHopExit, peers)
    {
      timerArmed := false;
      peers := os.GetPeerStatus();
      var single := Poll(SingleHop, peers);
      ghost var c1 := connections;
      var entry := Poll(MultiHopEntry, peers);
      ghost var c2 := connections;
      var exit := Poll(MultiHopExit, peers);
      HopByHop(old(connections), c1, c2, connections, peers);
      if single || entry || exit { timerArmed := true; }
      AwaitingByHop(connections);
    }
  }

  datatype Command = DoActivate(config: Config) | DoDeactivate(emitSignals: bool) | TimerFires

  ghost predicate AllHostForm(connections: map<HopType, Connection>) {
    forall h :: h in connections ==> HostForm(connections[h].config.excluded)
  }

  /** The command names plain addresses only, if it names any. */
  ghost predicate Plain(c: Command) {
    c.DoActivate? ==> HostForm(c.config.excluded)
  }

  /** No clean-up is asked for, neither directly nor by a change of the tunnel device. */
  ghost predicate KeepsDevice(c: Command, device: Config) {
    !c.DoDeactivate? && (c.DoActivate? ==> SameTunnelDevice(c.config, device))
  }

  ghost predicate AllOn(connections: map<HopType, Connection>, device: Config) {
    forall h :: h in connections ==> SameTunnelDevice(connections[h].config, device)
  }

  /** The peers keep their keys, so that no switch deletes one. */
  ghost predicate KeepsKeys(c: Command, keys: map<HopType, string>) {
    c.DoActivate? ==> c.config.hop in keys && c.config.serverKey == keys[c.config.hop]
  }

  ghost predicate KeysAre(connections: map<HopType, Connection>, keys: map<HopType, string>) {
    forall h :: h in connections ==> h in keys && connections[h].config.serverKey == keys[h]
  }

  ghost predicate Lists(c: Command) { c.DoActivate? ==> ListsServer(c.config) }

  /** The signals only grow, and the new ones tell of a failed activation exactly if `failed`. */
  ghost predicate Signalled(before: seq<Event>, after: seq<Event>, failed: bool) {
    before <= after && (failed <==> ActivationFailure in after[|before|..])
  }

  lemma SignalledJoins(e0: seq<Event>, e1: seq<Event>, e2: seq<Event>, first: bool, second: bool)
    requires Signalled(e0, e1, first) && Signalled(e1, e2, second)
    ensures Signalled(e0, e2, first || second)
  {
    assert e2[|e0|..] == e1[|e0|..] + e2[|e1|..];
  }

  lemma NewsIsGood(connections: map<HopType, Connection>, peers: seq<PeerStatus>)
    ensures forall h :: ActivationFailure !in NewsAt(connections, h, peers)
  {
    forall h | h in connections ensures ActivationFailure !in News(connections[h], peers) {
      NoFailureInNews(connections[h], peers);
    }
  }

  lemma {:induction false} NoFailureInNews(c: Connection, peers: seq<PeerStatus>)
    ensures ActivationFailure !in News(c, peers)
  {
    if peers != [] { NoFailureInNews(c, peers[..|peers| - 1]); }
  }

  /** All that the contracts of whole runs speak of. */
  datatype View = View(connections: map<HopType, Connection>, ledger: map<IPAddress, nat>, released: seq<seq<Text>>,
                       timer: bool, events: seq<Event>, exclusions: set<IPAddress>, failures: nat)

  ghost function Look(d: Daemon): View
    reads d, d.os
  {
    View(d.connections, d.excludedAddrs, d.released, d.timerArmed, d.events, d.os.state.exclusions, d.os.failures)
  }

  function MissingIn(v: View): set<IPAddress> { Missing(v.ledger, v.exclusions) }

  function StrayIn(v: View): set<IPAddress> { Stray(v.exclusions, v.ledger, v.connections) }

  /** What one command can make stray. */
  function MayStray(connections: map<HopType, Connection>, command: Command, activated: bool): set<IPAddress> {
    if !command.DoActivate? then {}
    else if command.config.hop in connections && SameTunnelDevice(connections[command.config.hop].config, command.config) then
      StrayOfSwitch(connections[command.config.hop].config, command.config)
    else StrayOfFailure(command.config, activated)
  }

  ghost predicate SignalsKept(b: View, a: View, activated: bool, abandoned: bool) {
    && a.failures >= b.failures
    && Signalled(b.events, a.events, !activated)
    && (abandoned ==> !activated)
    && (!abandoned && (Awaiting(b.connections) ==> b.timer) ==> (Awaiting(a.connections) ==> a.timer))
  }

  ghost predicate CountsKept(b: View, a: View, command: Command, activated: bool) {
    a.failures == b.failures && activated ==>
      && (Plain(command) && Balanced(b.ledger, b.connections) && AllHostForm(b.connections) ==>
            Balanced(a.ledger, a.connections) && AllHostForm(a.connections))
      && (Accounted(b.ledger, b.connections, b.released) ==> Accounted(a.ledger, a.connections, a.released))
  }

  ghost predicate DeviceKept(b: View, a: View, command: Command, device: Config) {
    KeepsDevice(command, device) && AllOn(b.connections, device) ==>
      AllOn(a.connections, device) && (a.failures == b.failures ==> b.released <= a.released)
  }

  ghost predicate ExclusionsKept(b: View, a: View, command: Command, keys: map<HopType, string>, activated: bool) {
    && (KeepsKeys(command, keys) && KeysAre(b.connections, keys) ==> KeysAre(a.connections, keys) && MissingIn(a) <= MissingIn(b))
    && (a.failures == b.failures ==> StrayIn(a) <= StrayIn(b) + MayStray(b.connections, command, activated))
    && (Lists(command) && AllListed(b.connections) ==> AllListed(a.connections))
  }

  /**
   * What one request of the client or one expiry of the timer keeps, with any failures:
   * `activated` is false exactly if an activation failed, `abandoned` if it did after its
   * switch had succeeded.
   */
  ghost predicate Orderly(b: View, a: View, command: Command, device: Config, keys: map<HopType, string>,
                          activated: bool, abandoned: bool)
  {
    && SignalsKept(b, a, activated, abandoned)
    && CountsKept(b, a, command, activated)
    && DeviceKept(b, a, command, device)
    && ExclusionsKept(b, a, command, keys, activated)
  }

  method ExecuteActivate(d: Daemon, config: Config, ghost device: Config, ghost keys: map<HopType, string>)
    returns (ghost activated: bool, ghost abandoned: bool)
    requires d.Valid()
    modifies d, d.os
    ensures d.Valid() && Orderly(old(Look(d)), Look(d), DoActivate(config), device, keys, activated, abandoned)
  {
    ghost var before := Look(d);
    var ok;
    ghost var restarted, switched;
    ok, restarted, switched := d.Activate(config);
    activated, abandoned := ok, switched && !ok;
    ActivatedExclusions(before, Look(d), old(d.os.history), d.os.history, config, keys, ok, restarted, switched);
    ActivatedCounts(before, Look(d), config, device, ok, restarted, switched);
  }

  /** The connections after an activation. */
  ghost predicate Activated(b: View, a: View, config: Config, ok: bool, restarted: bool, switched: bool) {
    && a.connections == (if restarted then map[] else b.connections) +
                        (if ok || switched then map[config.hop := Connection(config, 0)] else map[])
    && (restarted ==> config.hop in b.connections && !SameTunnelDevice(b.connections[config.hop].config, config))
    && (switched ==> config.hop in b.connections && SameTunnelDevice(b.connections[config.hop].config, config))
    && (ok && config.hop in b.connections ==> restarted || switched)
  }

  lemma ActivatedEach(b: View, a: View, config: Config, ok: bool, restarted: bool, switched: bool)
    requires Activated(b, a, config, ok, restarted, switched)
    ensures forall h :: h in a.connections ==>
              (h in b.connections && a.connections[h] == b.connections[h])
              || (h == config.hop && (ok || switched) && a.connections[h] == Connection(config, 0))
  {
  }

  lemma ActivatedExclusions(b: View, a: View, h0: seq<OsState>, h: seq<OsState>, config: Config, keys: map<HopType, string>,
                            ok: bool, restarted: bool, switched: bool)
    requires Activated(b, a, config, ok, restarted, switched)
    requires var clean := a.failures == b.failures;
             if config.hop in b.connections && SameTunnelDevice(b.connections[config.hop].config, config) then
               (clean ==> switched)
               && Excluding(b.connections, config, h, |h0|, b.ledger, b.exclusions, a.ledger, a.exclusions, switched && clean)
             else
               Tidy(b.ledger, b.exclusions, b.connections, a.ledger, a.exclusions, a.connections, StrayOfFailure(config, ok), clean)
    ensures ExclusionsKept(b, a, DoActivate(config), keys, ok)
  {
    ActivatedEach(b, a, config, ok, restarted, switched);
    Daemon.Putting(b.connections, Connection(config, 0));
  }

  lemma ActivatedCounts(b: View, a: View, config: Config, device: Config, ok: bool, restarted: bool, switched: bool)
    requires Activated(b, a, config, ok, restarted, switched)
    requires a.timer == (ok || b.timer) && a.failures >= b.failures
    requires a.events == b.events + if ok then [] else if restarted then [ActivationFailure, ActivationFailure] else [ActivationFailure]
    requires !restarted && a.failures == b.failures ==> b.released <= a.released
    requires ok && a.failures == b.failures && Accounted(b.ledger, b.connections, b.released) ==>
               Accounted(a.ledger, a.connections, a.released)
    requires ok && a.failures == b.failures && Balanced(b.ledger, b.connections) ==>
               (Balanced(a.ledger, a.connections) <==> (switched ==> HostForm(b.connections[config.hop].config.excluded)))
    ensures SignalsKept(b, a, ok, switched && !ok)
    ensures CountsKept(b, a, DoActivate(config), ok) && DeviceKept(b, a, DoActivate(config), device)
  {
    ActivatedEach(b, a, config, ok, restarted, switched);
    assert a.events[|b.events|..] == if ok then [] else if restarted then [ActivationFailure, ActivationFailure] else [ActivationFailure];
  }

  method ExecuteDeactivate(d: Daemon, emitSignals: bool, ghost device: Config, ghost keys: map<HopType, string>)
    requires d.Valid()
    modifies d, d.os
    ensures d.Valid() && Orderly(old(Look(d)), Look(d), DoDeactivate(emitSignals), device, keys, true, false)
  {
    NothingBalanced();
    var ok := d.Deactivate(emitSignals);
  }

  method ExecuteTimer(d: Daemon, ghost device: Config, ghost keys: map<HopType, string>)
    requires d.Valid()
    modifies d, d.os
    ensures d.Valid() && Orderly(old(Look(d)), Look(d), TimerFires, device, keys, true, false)
  {
    if d.timerArmed {
      ghost var before := Look(d);
      var peers := d.CheckHandshake();
      TimerOrderly(before, Look(d), peers, device, keys);
    }
  }

  /** What the expiry of the timer changes. */
  ghost predicate Polled(b: View, a: View, peers: seq<PeerStatus>) {
    && a == b.(connections := AllHeard(b.connections, peers), timer := a.timer, events := a.events)
    && (a.timer <==> Awaiting(a.connections))
    && a.events == b.events + NewsAt(b.connections, SingleHop, peers)
                   + NewsAt(b.connections, MultiHopEntry, peers) + NewsAt(b.connections, MultiHopExit, peers)
  }

  lemma TimerOrderly(b: View, a: View, peers: seq<PeerStatus>, device: Config, keys: map<HopType, string>)
    requires Polled(b, a, peers)
    ensures Orderly(b, a, TimerFires, device, keys, true, false)
  {
    TimerSignals(b, a, peers);
    TimerCounts(b, a, peers, device);
    TimerExclusions(b, a, peers, keys);
  }

  lemma TimerSignals(b: View, a: View, peers: seq<PeerStatus>)
    requires Polled(b, a, peers)
    ensures SignalsKept(b, a, true, false)
  {
    NewsIsGood(b.connections, peers);
    assert a.events[|b.events|..] == NewsAt(b.connections, SingleHop, peers)
                                     + NewsAt(b.connections, MultiHopEntry, peers) + NewsAt(b.connections, MultiHopExit, peers);
  }

  lemma TimerCounts(b: View, a: View, peers: seq<PeerStatus>, device: Config)
    requires Polled(b, a, peers)
    ensures CountsKept(b, a, TimerFires, true) && DeviceKept(b, a, TimerFires, device)
  {
    HeardKeepsConfigs(b.connections, a.connections, peers);
    HeardKeepsCounts(b.connections, a.connections);
  }

  lemma TimerExclusions(b: View, a: View, peers: seq<PeerStatus>, keys: map<HopType, string>)
    requires Polled(b, a, peers)
    ensures ExclusionsKept(b, a, TimerFires, keys, true)
  {
    HeardKeepsConfigs(b.connections, a.connections, peers);
    assert forall h :: ServersAt(a.connections, h) == ServersAt(b.connections, h);
  }

  /** One request of the client, or one expiry of the timer. */
  method Execute(d: Daemon, command: Command, ghost device: Config, ghost keys: map<HopType, string>)
    returns (ghost activated: bool, ghost abandoned: bool)
    requires d.Valid()
    modifies d, d.os
    ensures d.Valid() && Orderly(old(Look(d)), Look(d), command, device, keys, activated, abandoned)
  {
    activated, abandoned := true, false;
    match command {
      case DoActivate(config) => activated, abandoned := ExecuteActivate(d, config, device, keys);
      case DoDeactivate(emitSignals) => ExecuteDeactivate(d, emitSignals, device, keys);
      case TimerFires => ExecuteTimer(d, device, keys);
    }
  }

  /**
   * The ordinary change of keys, as one request of the client: a server that both
   * configurations exclude, on a balanced ledger and the same device, gets a new key. Once the
   * daemon has switched without failures, the server is counted, and not excluded.
   */
  method NewKeyUnprotects(d: Daemon, config: Config, a: Address) returns (ok: bool, ghost switched: bool)
    requires d.Valid() && config.hop == SingleHop && SingleHop in d.connections
    requires SameTunnelDevice(d.connections[SingleHop].config, config)
    requires d.connections[SingleHop].config.serverKey != config.serverKey
    requires d.connections[SingleHop].config.serverV4 == config.serverV4 == Host(a)
    requires d.connections[SingleHop].config.excluded == config.excluded == [Host(a)]
    requires Balanced(d.excludedAddrs, d.connections)
    modifies d, d.os
    ensures ok ==> switched
    ensures switched && d.os.failures == old(d.os.failures) ==>
              FromText(Host(a)) in d.excludedAddrs && FromText(Host(a)) !in d.os.state.exclusions
  {
    ghost var last, p, ts := d.connections[SingleHop].config, FromText(Host(a)), [Host(a)];
    ghost var restarted;
    ok, restarted, switched := d.Activate(config);
    if switched && d.os.failures == old(d.os.failures) {
      assert ts[..0] == [];
      assert Added(ts, p) == 1;
      assert d.connections[SingleHop].config == config;
      assert Times(d.excludedAddrs, p) == Live(d.connections, p) >= AddedBy(d.connections, SingleHop, p);
      assert p in ServerKeys(last);
      assert p in Missing(d.excludedAddrs, d.os.state.exclusions);
    }
  }

  /**
   * Any run of the daemon, with any failures. The ledger always matches the system. In a run
   * without failed system calls and failed activations, over plain addresses, every count is
   * exact. A connection awaits its handshake only while the timer is armed, unless some
   * activation failed after its switch had succeeded; every failed activation is signalled.
   *
   * For addresses of any form the counts are exact once the entries that switches could not
   * release are added, and as long as nothing forces a clean-up these only become more. While
   * peers keep their keys, no counted exclusion goes missing, whatever fails. While the
   * configurations list their servers, nothing becomes stray in a run without failures.
   */
  method Run(d: Daemon, commands: seq<Command>, ghost device: Config, ghost keys: map<HopType, string>)
    returns (ghost allActivated: bool, ghost abandoned: bool, ghost stray: set<IPAddress>)
    requires d.Valid()
    modifies d, d.os
    ensures d.Valid() && RunKept(old(Look(d)), Look(d), commands, device, keys, allActivated, abandoned, stray)
  {
    allActivated, abandoned, stray := true, false, {};
    for i := 0 to |commands|
      invariant d.Valid() && RunKept(old(Look(d)), Look(d), commands[..i], device, keys, allActivated, abandoned, stray)
    {
      ghost var before, activated, left := Look(d), true, false;
      activated, left := Execute(d, commands[i], device, keys);
      RunNext(old(Look(d)), before, Look(d), commands, i, device, keys, allActivated, abandoned, stray, activated, left);
      stray := stray + MayStray(before.connections, commands[i], activated);
      allActivated, abandoned := allActivated && activated, abandoned || left;
    }
    assert commands[..|commands|] == commands;
  }

  /** What a run keeps, clause by clause as Orderly; `stray` is what its commands could make stray. */
  ghost predicate RunKept(b: View, a: View, commands: seq<Command>, device: Config, keys: map<HopType, string>,
                          allActivated: bool, abandoned: bool, stray: set<IPAddress>)
  {
    && SignalsKept(b, a, allActivated, abandoned)
    && RunCounts(b, a, commands, allActivated)
    && RunDevice(b, a, commands, device)
    && RunExclusions(b, a, commands, keys, stray)
  }

  ghost predicate RunCounts(b: View, a: View, commands: seq<Command>, allActivated: bool) {
    a.failures == b.failures && allActivated ==>
      && ((forall i :: 0 <= i < |commands| ==> Plain(commands[i])) && Balanced(b.ledger, b.connections) && AllHostForm(b.connections) ==>
            Balanced(a.ledger, a.connections) && AllHostForm(a.connections))
      && (Accounted(b.ledger, b.connections, b.released) ==> Accounted(a.ledger, a.connections, a.released))
  }

  ghost predicate RunDevice(b: View, a: View, commands: seq<Command>, device: Config) {
    (forall i :: 0 <= i < |commands| ==> KeepsDevice(commands[i], device)) && AllOn(b.connections, device) ==>
      AllOn(a.connections, device) && (a.failures == b.failures ==> b.released <= a.released)
  }

  ghost predicate RunExclusions(b: View, a: View, commands: seq<Command>, keys: map<HopType, string>, stray: set<IPAddress>) {
    && ((forall i :: 0 <= i < |commands| ==> KeepsKeys(commands[i], keys)) && KeysAre(b.connections, keys) ==>
          KeysAre(a.connections, keys) && MissingIn(a) <= MissingIn(b))
    && (a.failures == b.failures ==> StrayIn(a) <= StrayIn(b) + stray)
    && ((forall i :: 0 <= i < |commands| ==> Lists(commands[i])) && AllListed(b.connections) ==>
          AllListed(a.connections) && stray == {})
  }

  lemma RunNext(b: View, m: View, a: View, commands: seq<Command>, i: nat, device: Config, keys: map<HopType, string>,
                allActivated: bool, abandoned: bool, stray: set<IPAddress>, activated: bool, left: bool)
    requires i < |commands| && RunKept(b, m, commands[..i], device, keys, allActivated, abandoned, stray)
    requires Orderly(m, a, commands[i], device, keys, activated, left)
    ensures RunKept(b, a, commands[..i + 1], device, keys, allActivated && activated, abandoned || left,
                    stray + MayStray(m.connections, commands[i], activated))
  {
    SignalledJoins(b.events, m.events, a.events, !allActivated, !activated);
    NextCounts(b, m, a, commands, i, allActivated, activated);
    NextDevice(b, m, a, commands, i, device);
    NextExclusions(b, m, a, commands, i, keys, stray, activated);
  }

  lemma NextCounts(b: View, m: View, a: View, commands: seq<Command>, i: nat, allActivated: bool, activated: bool)
    requires i < |commands| && b.failures <= m.failures <= a.failures
    requires RunCounts(b, m, commands[..i], allActivated) && CountsKept(m, a, commands[i], activated)
    ensures RunCounts(b, a, commands[..i + 1], allActivated && activated)
  {
    assert commands[..i + 1] == commands[..i] + [commands[i]];
    assert commands[..i + 1][i] == commands[i] && forall k :: 0 <= k < i ==> commands[..i + 1][k] == commands[..i][k];
  }

  lemma NextDevice(b: View, m: View, a: View, commands: seq<Command>, i: nat, device: Config)
    requires i < |commands| && b.failures <= m.failures <= a.failures
    requires RunDevice(b, m, commands[..i], device) && DeviceKept(m, a, commands[i], device)
    ensures RunDevice(b, a, commands[..i + 1], device)
  {
    assert commands[..i + 1][i] == commands[i] && forall k :: 0 <= k < i ==> commands[..i + 1][k] == commands[..i][k];
  }

  lemma NextExclusions(b: View, m: View, a: View, commands: seq<Command>, i: nat, keys: map<HopType, string>,
                       stray: set<IPAddress>, activated: bool)
    requires i < |commands| && b.failures <= m.failures <= a.failures
    requires RunExclusions(b, m, commands[..i], keys, stray) && ExclusionsKept(m, a, commands[i], keys, activated)
    ensures RunExclusions(b, a, commands[..i + 1], keys, stray + MayStray(m.connections, commands[i], activated))
  {
    assert commands[..i + 1][i] == commands[i] && forall k :: 0 <= k < i ==> commands[..i + 1][k] == commands[..i][k];
    if Lists(commands[i]) && AllListed(m.connections) { ListedMakesNoStray(m.connections, commands[i], activated); }
  }

  lemma ListedMakesNoStray(connections: map<HopType, Connection>, command: Command, activated: bool)
    requires Lists(command) && AllListed(connections)
    ensures MayStray(connections, command, activated) == {}
  {
    if command.DoActivate? {
      var config := command.config;
      ListedNotStray(config, config, activated);
      if config.hop in connections { ListedNotStray(connections[config.hop].config, config, activated); }
    }
  }

  lemma HeardKeepsConfigs(before: map<HopType, Connection>, after: map<HopType, Connection>, peers: seq<PeerStatus>)
    requires after == AllHeard(before, peers)
    ensures SameConfigs(before, after)
  {
    forall h | h in after ensures after[h].config == before[h].config { HeardSameConfig(before[h], peers); }
  }

  ghost predicate SameConfigs(before: map<HopType, Connection>, after: map<HopType, Connection>) {
    after.Keys == before.Keys && forall h :: h in after ==> after[h].config == before[h].config
  }

  lemma HeardKeepsCounts(before: map<HopType, Connection>, after: map<HopType, Connection>)
    requires SameConfigs(before, after)
    ensures forall p :: Live(after, p) == Live(before, p)
  {
    forall h, p ensures AddedBy(after, h, p) == AddedBy(before, h, p) {}
  }

  lemma {:induction false} HeardSameConfig(c: Connection, peers: seq<PeerStatus>)
    ensures Heard(c, peers).config == c.config
  {
    if peers != [] { HeardSameConfig(c, peers[..|peers| - 1]); }
  }

  /**
   * From nothing to nothing: any requests with configurations that list their servers, then a
   * deactivation. If it succeeds and nothing failed, no exclusion is left in the system.
   */
  method RunAndDeactivate(platform: Platform, supportDns: bool, supportIp: bool, commands: seq<Command>,
                          ghost device: Config, ghost keys: map<HopType, string>)
    returns (d: Daemon, ok: bool)
    ensures d.Valid() && (ok ==> d.connections == map[] && d.excludedAddrs == map[] && !d.os.state.up)
    ensures ok && d.os.failures == 0 && (forall i :: 0 <= i < |commands| ==> Lists(commands[i])) ==>
              d.os.state == OsState(false, {}, {}, {})
  {
    var os := new WireguardUtils(platform);
    d := new Daemon(os, supportDns, supportIp);
    ghost var activated, abandoned, stray;
    activated, abandoned, stray := Run(d, commands, device, keys);
    ok := d.Deactivate(true);
  }

  /**
   * An activation that fails in one of its last steps, with a server that its list does not
   * name: the server's exclusion outlives even a successful deactivation.
   */
  method FailedActivationLeavesStray(platform: Platform, supportDns: bool, supportIp: bool, config: Config, a: Address)
    returns (d: Daemon, activated: bool, ok: bool)
    requires config.hop == SingleHop && config.serverV4 == Host(a) && config.excluded == []
    ensures !activated && ok && d.os.failures == 0 ==> FromText(Host(a)) in d.os.state.exclusions && d.connections == map[]
  {
    var os := new WireguardUtils(platform);
    d := new Daemon(os, supportDns, supportIp);
    ghost var restarted, switched;
    activated, restarted, switched := d.Activate(config);
    ghost var connections, ledger := d.connections, d.excludedAddrs;
    ok := d.Deactivate(true);
    if !activated && d.os.failures == 0 {
      assert FromText(Host(a)) in ServerKeys(config);
      assert connections == map[];
      assert LiveServers(connections) == {};
    }
  }
}
