/**
 * The helper's record of the routes it has added (service/server/router_linux.cpp), against
 * the kernel's table. Every kernel call may fail.
 */
module RouteLedger {

  /** A destination as text: an address, a network, or something that is not an IPv4 address. */
  datatype Text = Host(address: nat) | Net(address: nat, len: nat) | Malformed(text: string)

  datatype Route = Route(address: nat, len: nat, gateway: nat)

  /** The text 0.0.0.0/0, which is never deleted. */
  const DEFAULT := Net(0, 0)

  /** A gateway as text; only IPv4 addresses are usable. */
  datatype Gateway = Ipv4(address: nat) | BadGateway

  datatype Entry = Entry(dst: Text, gateway: Gateway)

  predicate Usable(e: Entry) { !e.dst.Malformed? && e.gateway.Ipv4? }

  /**
   * The kernel's view of an entry. The mask of a zero length is whatever the platform makes of
   * a 32-bit shift of a 32-bit value.
   */
  function Key(e: Entry, zeroLength: nat): Route
    requires Usable(e)
  {
    match e.dst
    case Host(a) => Route(a, 32, e.gateway.address)
    case Net(a, len) => Route(a, if len == 0 then zeroLength else len, e.gateway.address)
  }

  ghost predicate Recorded(entries: seq<Entry>, zeroLength: nat, r: Route) {
    exists e :: e in entries && Usable(e) && Key(e, zeroLength) == r
  }

  /** Some entry is the default route and has this key. */
  ghost predicate DefaultKey(entries: seq<Entry>, zeroLength: nat, r: Route) {
    exists e :: e in entries && Usable(e) && e.dst == DEFAULT && Key(e, zeroLength) == r
  }

  /** A deletable route named by one of these texts and this gateway. */
  ghost predicate Listed(ips: seq<Text>, gateway: Gateway, zeroLength: nat, r: Route) {
    exists i :: 0 <= i < |ips| && Names(Entry(ips[i], gateway), zeroLength, r)
  }

  predicate Names(e: Entry, zeroLength: nat, r: Route) {
    Usable(e) && e.dst != DEFAULT && Key(e, zeroLength) == r
  }

  lemma ListedNext(ips: seq<Text>, i: nat, gateway: Gateway, zeroLength: nat)
    requires i < |ips|
    ensures forall r :: Listed(ips[..i + 1], gateway, zeroLength, r)
              <==> Listed(ips[..i], gateway, zeroLength, r) || Names(Entry(ips[i], gateway), zeroLength, r)
  {
    var a, b := ips[..i], ips[..i + 1];
    assert forall k :: 0 <= k < i ==> a[k] == b[k];
    assert b[i] == ips[i];
  }

  /** The kernel refuses to add a route twice and to delete one it does not have. */
  class Kernel {
    var table: set<Route>
    /** Routes whose deletion was refused although they were present. */
    ghost var refused: set<Route>

    constructor (table: set<Route>)
      ensures this.table == table && refused == {}
    {
      this.table, refused := table, {};
    }

    method Add(r: Route) returns (ok: bool)
      modifies this`table
      ensures ok ==> r !in old(table)
      ensures table == if ok then old(table) + {r} else old(table)
    {
      ok := *;
      ok := ok && r !in table;
      if ok { table := table + {r}; }
    }

    method Delete(r: Route) returns (ok: bool)
      modifies this
      ensures ok ==> r in old(table)
      ensures table == if ok then old(table) - {r} else old(table)
      ensures refused == if !ok && r in old(table) then old(refused) + {r} else old(refused)
    {
      ok := *;
      ok := ok && r in table;
      if ok { table := table - {r}; } else if r in table { refused := refused + {r}; }
    }
  }

  class RouterLinux {
    const kernel: Kernel
    const zeroLength: nat
    var addedRoutes: seq<Entry>
    /** The table when the run began, and the routes somebody asked to delete since. */
    ghost var initial: set<Route>
    ghost var askedToDelete: set<Route>
    /** Routes given up by earlier clean-ups: default routes, and deletions the kernel refused. */
    ghost var abandoned: set<Route>

    ghost predicate Valid()
      reads this, kernel
    {
      && (forall e :: e in addedRoutes ==> Usable(e))
      && (forall r :: r in kernel.table ==> r in initial || Recorded(addedRoutes, zeroLength, r) || r in abandoned)
      && initial - askedToDelete <= kernel.table
      && (forall r :: Recorded(addedRoutes, zeroLength, r) ==> r !in initial - askedToDelete)
    }

    constructor (kernel: Kernel, zeroLength: nat)
      ensures Valid() && this.kernel == kernel && initial == kernel.table && addedRoutes == [] && abandoned == {}
    {
      this.kernel, this.zeroLength, addedRoutes := kernel, zeroLength, [];
      initial, askedToDelete, abandoned := kernel.table, {}, {};
    }

    method RouteAdd(e: Entry) returns (ok: bool)
      requires Valid()
      modifies this`addedRoutes, kernel`table
      ensures Valid()
      ensures ok ==> Usable(e) && addedRoutes == old(addedRoutes) + [e]
                     && kernel.table == old(kernel.table) + {Key(e, zeroLength)} && Key(e, zeroLength) !in old(kernel.table)
      ensures !ok ==> addedRoutes == old(addedRoutes) && kernel.table == old(kernel.table)
    {
      if !Usable(e) { return false; }
      ok := kernel.Add(Key(e, zeroLength));
      if ok {
        addedRoutes := addedRoutes + [e];
        assert forall x :: x in addedRoutes <==> x in old(addedRoutes) || x == e;
        assert forall r :: Recorded(old(addedRoutes), zeroLength, r) ==> Recorded(addedRoutes, zeroLength, r);
        assert Recorded(addedRoutes, zeroLength, Key(e, zeroLength));
      }
    }

    /** The number of routes added is exactly the growth of the record and of the table. */
    method RouteAddList(gateway: Gateway, ips: seq<Text>) returns (count: nat)
      requires Valid()
      modifies this`addedRoutes, kernel`table
      ensures Valid()
      ensures old(addedRoutes) <= addedRoutes && |addedRoutes| == |old(addedRoutes)| + count
      ensures old(kernel.table) <= kernel.table && |kernel.table| == |old(kernel.table)| + count
      ensures forall i :: |old(addedRoutes)| <= i < |addedRoutes| ==>
                addedRoutes[i].gateway == gateway && addedRoutes[i].dst in ips
    {
      count := 0;
      for i := 0 to |ips|
        invariant Valid()
        invariant old(addedRoutes) <= addedRoutes && |addedRoutes| == |old(addedRoutes)| + count
        invariant old(kernel.table) <= kernel.table && |kernel.table| == |old(kernel.table)| + count
        invariant forall k :: |old(addedRoutes)| <= k < |addedRoutes| ==>
                    addedRoutes[k].gateway == gateway && addedRoutes[k].dst in ips
      {
        var ok := RouteAdd(Entry(ips[i], gateway));
        if ok { count := count + 1; }
      }
    }

    /** Deletion never touches the record, and reports success for the skipped default route. */
    method RouteDelete(e: Entry) returns (ok: bool)
      modifies kernel
      ensures !Usable(e) ==> !ok
      ensures Usable(e) && e.dst == DEFAULT ==> ok
      ensures Usable(e) && e.dst != DEFAULT ==> (ok ==> Key(e, zeroLength) in old(kernel.table))
      ensures kernel.table == if ok && e.dst != DEFAULT then old(kernel.table) - {Key(e, zeroLength)} else old(kernel.table)
      ensures old(kernel.refused) <= kernel.refused
      ensures Usable(e) && e.dst != DEFAULT ==>
                Key(e, zeroLength) !in kernel.table || Key(e, zeroLength) in kernel.refused
    {
      if !Usable(e) { return false; }
      if e.dst == DEFAULT { return true; }
      ok := kernel.Delete(Key(e, zeroLength));
    }

    /** The result is true exactly if a default route was listed or some route was deleted. */
    method RouteDeleteList(gateway: Gateway, ips: seq<Text>) returns (any: bool)
      requires Valid()
      modifies this`askedToDelete, kernel
      ensures Valid() && old(askedToDelete) <= askedToDelete
      ensures kernel.table <= old(kernel.table)
      ensures forall r :: r in old(kernel.table) && r !in kernel.table ==> Listed(ips, gateway, zeroLength, r)
      ensures forall r :: Listed(ips, gateway, zeroLength, r) ==>
                r in askedToDelete && (r !in kernel.table || r in kernel.refused)
      ensures any <==> (gateway.Ipv4? && DEFAULT in ips) || kernel.table != old(kernel.table)
      ensures old(kernel.refused) <= kernel.refused
    {
      var count := 0;
      for i := 0 to |ips|
        invariant Valid() && old(askedToDelete) <= askedToDelete
        invariant kernel.table <= old(kernel.table)
        invariant count > 0 <==> (gateway.Ipv4? && DEFAULT in ips[..i]) || kernel.table != old(kernel.table)
        invariant old(kernel.refused) <= kernel.refused
        invariant forall r :: r in old(kernel.table) && r !in kernel.table ==> Listed(ips[..i], gateway, zeroLength, r)
        invariant forall r :: Listed(ips[..i], gateway, zeroLength, r) ==>
                    r in askedToDelete && (r !in kernel.table || r in kernel.refused)
      {
        var e := Entry(ips[i], gateway);
        ListedNext(ips, i, gateway, zeroLength);
        assert ips[..i + 1] == ips[..i] + [ips[i]];
        if Usable(e) { askedToDelete := askedToDelete + {Key(e, zeroLength)}; }
        var ok := RouteDelete(e);
        if ok { count := count + 1; }
      }
      assert ips[..|ips|] == ips;
      return count != 0;
    }

    /**
     * clearSavedRoutes. Afterwards every route that is in the table but was not when the run
     * began is a default route or one whose deletion the kernel refused, now or before; no
     * route of the initial table is lost. A true result means that no recorded route but
     * default ones is left.
     */
    method ClearSavedRoutes() returns (all: bool)
      requires Valid()
      modifies this`addedRoutes, this`abandoned, kernel
      ensures Valid() && addedRoutes == [] && abandoned == kernel.table - initial
      ensures kernel.table <= old(kernel.table) && old(kernel.refused) <= kernel.refused
      ensures forall r :: r in kernel.table && r !in initial ==>
                r in old(abandoned) || r in kernel.refused || DefaultKey(old(addedRoutes), zeroLength, r)
      ensures all ==> forall e :: e in old(addedRoutes) && e.dst != DEFAULT ==> Key(e, zeroLength) !in kernel.table
      ensures initial - askedToDelete <= kernel.table
    {
      var count := 0;
      ghost var was := addedRoutes;
      for i := 0 to |addedRoutes|
        invariant addedRoutes == was && count <= i && old(kernel.refused) <= kernel.refused
        invariant kernel.table <= old(kernel.table) && initial - askedToDelete <= kernel.table
        invariant forall k :: 0 <= k < i && was[k].dst != DEFAULT ==>
                    Key(was[k], zeroLength) !in kernel.table || Key(was[k], zeroLength) in kernel.refused
        invariant count == i ==> forall k :: 0 <= k < i && was[k].dst != DEFAULT ==> Key(was[k], zeroLength) !in kernel.table
      {
        assert Recorded(was, zeroLength, Key(was[i], zeroLength));
        var ok := RouteDelete(addedRoutes[i]);
        if ok { count := count + 1; }
      }
      all := count == |addedRoutes|;
      abandoned := kernel.table - initial;
      addedRoutes := [];
    }
  }

  /** A result that is true although nothing was deleted: the default route was asked for. */
  method DefaultReportedDeleted(router: RouterLinux, gateway: Gateway) returns (any: bool)
    requires router.Valid() && gateway.Ipv4?
    requires Key(Entry(DEFAULT, gateway), router.zeroLength) in router.kernel.table
    modifies router`askedToDelete, router.kernel
    ensures any && Key(Entry(DEFAULT, gateway), router.zeroLength) in router.kernel.table
    ensures router.kernel.table == old(router.kernel.table)
  {
    any := router.RouteDeleteList(gateway, [DEFAULT]);
    assert forall r :: !Listed([DEFAULT], gateway, router.zeroLength, r);
  }

  datatype Call = AddList(gateway: Gateway, ips: seq<Text>) | DeleteList(gateway: Gateway, ips: seq<Text>) | Clear

  /**
   * Any run of calls followed by a clean-up: what remains of the run in the table is only what
   * the kernel refused to delete or the default route, and what was there before is still
   * there unless its deletion was asked for.
   */
  method Run(router: RouterLinux, calls: seq<Call>)
    requires router.Valid() && router.initial == router.kernel.table
    requires router.abandoned == {} && router.addedRoutes == [] && router.kernel.refused == {}
    modifies router, router.kernel
    ensures router.Valid() && router.initial == old(router.initial)
    ensures router.initial - router.askedToDelete <= router.kernel.table
    ensures forall r :: r in router.kernel.table && r !in router.initial ==>
              r in router.kernel.refused || (r.address == 0 && r.len == router.zeroLength)
  {
    for i := 0 to |calls|
      invariant router.Valid() && router.initial == old(router.initial)
      invariant Leftover(router.abandoned, router.kernel.refused, router.zeroLength)
    {
      match calls[i] {
        case AddList(gateway, ips) => var n := router.RouteAddList(gateway, ips);
        case DeleteList(gateway, ips) => var b := router.RouteDeleteList(gateway, ips);
        case Clear => var b := router.ClearSavedRoutes();
      }
    }
    var b := router.ClearSavedRoutes();
  }

  ghost predicate Leftover(routes: set<Route>, refused: set<Route>, zeroLength: nat) {
    forall r :: r in routes ==> r in refused || (r.address == 0 && r.len == zeroLength)
  }
}
