# A verified model of the Amnezia VPN client's network core

The repository is a VPN client: a Qt application, a privileged helper, a WireGuard daemon and an
Android client. This project models the parts where correctness is hardest to see and proves
properties of them in Dafny.

    dafny verify dfyconfig.toml

| file | what it models |
|---|---|
| `IpRanges.dfy` | the Android interval set and its decomposition into CIDR networks |
| `IpAddresses.dfy` | network prefixes of the WireGuard code and the subtraction of exclusions |
| `SplitTunnel.dfy` | site-based split tunnelling, compiled for the daemon, for a routing table and for Android |
| `WireguardDaemon.dfy` | the daemon's activation, switching and deactivation over failing system calls |
| `LocalController.dfy` | the client's controller: retries, initialisation, the log callback |
| `Framing.dfy` | the newline framing between client and daemon |
| `PingRing.dfy`, `Checksum.dfy` | the ring of recent pings and the checksum of their packets |
| `RouteLedger.dfy` | the helper's record of added routes against the kernel's table |
| `RouteMessage.dfy`, `HexAddress.dfy`, `Netmasks.dfy` | routing-socket messages, address parsing and masks of the macOS helper |
| `SecureSettings.dfy` | the encrypted settings with their cache |
| `ClientAddresses.dfy`, `ServerNames.dfy`, `ScpCopy.dfy` | address allocation on the server, server names, file upload |
| `Powers.dfy`, `Decimals.dfy`, `Texts.dfy`, `Buffers.dfy` | powers of two, numerals, white space and byte buffers, shared by the others |

Objects that the source updates in place are classes here, and its loops are loops; each such
method is tied to a function or a predicate on values, and the theorems are about those. Calls
into the operating system may fail at any time and are methods whose success is undetermined.

## Where the code does not do what one would expect

The model follows the code. In these places a natural expectation fails; each has a theorem that
says exactly when it holds.

- Switching servers deletes old exclusions under a key built from the text as a plain address, so
  an exclusion written with a slash is never released (`SwitchBalancedIff`, `NetworkIsNeverReleased`).
- Deleting a peer deletes its server's exclusions even if they are counted. A new key on the same
  server therefore leaves that server counted and not excluded (`AlwaysExcludedIff`,
  `NewKeyUnprotects`).
- A server's exclusion outlives a deactivation if nobody counts it and no connection knows the
  server any more: after an activation that failed late, or a switch with the same key to another
  server, unless the list names the server (`Deactivate`, `StrayAfterSwitch`,
  `FailedActivationLeavesStray`, `MovedServerIsStray`).
- On Linux and macOS, deleting a range inserts it instead, unless it is a whole address space; old
  ranges stay routed after a switch (`RoutesLeft`). Deleting a whole address space takes its halves
  away even from a configuration that lists them (`NewRangesRoutedIff`, `ClashIff`).
- Whether a switch succeeds depends on the two peers alone: a range that could not be routed is not
  noticed (`SwitchServer`). An activation that fails after its switch keeps the new connection
  without arming the handshake timer (`ActivateBySwitching`).
- Subtracting a network whose host bits are set never ends (`HostBitsGetStuck`).
- Excepted sites of no bits lose against the two halves that stand for the default route. With
  OpenVPN, nothing is tunnelled when splitting is on but the mode is still all sites. The
  Android path drops a tunnelled site whose address begins with 127, and tunnels loopback
  addresses unless there are exclusions (`ThreePathsAgree`). A list of allowed addresses of the
  protocol's own that lacks one of the default ranges overrides the settings (`OwnListDecides`).
- A status that arrives while a reconnection is scheduled lets the controller announce its
  initialisation twice (`EarlyReplyIff`).
- Before the first ping an answer numbered zero is taken, and counts until that ping
  (`PingReceived`, `Latency`).
- The mask computation of the macOS helper shifts leading zero bytes out of the address
  (`NetKeptIff`).
- Plain bytes that begin like encrypted ones are not read back, removing a group leaves cached
  members, and byte arrays do not survive a backup (`ReadBackIff`, `RemovalTransparentIff`,
  `RestoredReads`).
- The result of deleting a list of routes is true if any was deleted, or if the default route was
  listed, which is never deleted (`RouteDeleteList`).
- A successful upload of two gibibytes or more is incomplete (`CompleteIff`).

## Model

| member | source | states |
|---|---|---|
| `IpRanges.IpRangeSet.Add` | client/android/utils/src/main/kotlin/net/IpRangeSet.kt:7-24 | After adding a range the set covers exactly the union of what it covered and the range, again as a sorted list of ranges no two of which overlap or touch. |
| `IpRanges.IpRangeSet.Remove` | client/android/utils/src/main/kotlin/net/IpRangeSet.kt:26-38 | After removing a range the set covers exactly the difference, in the same normal form. |
| `IpRanges.NormalIsUnique` | client/android/utils/src/main/kotlin/net/IpRangeSet.kt:5-38 | Two normal lists that cover the same addresses are equal: the stored list depends on the set of addresses alone, never on the history of additions and removals. |
| `IpRanges.IpRangeSet.Subnets` | client/android/utils/src/main/kotlin/net/IpRangeSet.kt:40 | The networks returned have exactly the set as their union, each is an aligned block, and no list of aligned blocks with that union is shorter. |
| `IpRanges.RangeSubnets` | client/android/utils/src/main/kotlin/net/IpRange.kt:51-66 | The blocks of one range follow one another without gap from its first to its last address, and none of them could be doubled in place. |
| `IpRanges.FittingBlock` | client/android/utils/src/main/kotlin/net/IpRange.kt:56-60 | The mask search stops at the largest aligned block that starts at the current address and stays within the range. |
| `IpRanges.TrailingZerosAlign` | client/android/utils/src/main/kotlin/net/IpRange.kt:68-76 | An address is aligned to a block size exactly if it has at least that many trailing zero bits, including the address zero. |
| `IpRanges.MinusCovers` | client/android/utils/src/main/kotlin/net/IpRange.kt:42-49 | Subtracting a range from another leaves pieces that cover exactly the difference. |
| `IpRanges.TilingCovers` | client/android/utils/src/main/kotlin/net/IpRange.kt:51-66 | An address is in one of the blocks exactly if it is in the range. |
| `IpRanges.Nested` | client/android/utils/src/main/kotlin/net/IpRange.kt:51-66 | Two aligned blocks that share an address are nested. |
| `IpRanges.SubnetsAreMinimal` | client/android/utils/src/main/kotlin/net/IpRange.kt:51-66 | No list of aligned blocks with the range as union, in any order and with any overlaps, is shorter than the one built. |
| `IpAddresses.OverlapsMeansMeet` | client/mozilla/shared/ipaddress.cpp:141-147 | The overlap test, which looks at one address only, holds exactly if the two networks share an address. |
| `IpAddresses.SubnetMeansInside` | client/mozilla/shared/ipaddress.cpp:190-199 | The subnet test holds exactly if every address of one network is in the other. |
| `IpAddresses.HalvesSplit` | client/mozilla/shared/ipaddress.cpp:201-233 | Which addresses each of the two halves contains. |
| `IpAddresses.HalvesPartitionIff` | client/mozilla/shared/ipaddress.cpp:201-233 | The two halves partition the network if and only if the bit after the prefix is clear. |
| `IpAddresses.CarveLoop` | client/mozilla/shared/ipaddress.cpp:258-284 | The loop down the prefix tree computes the recursive subtraction that the next rows are about. |
| `IpAddresses.CarveIsExact` | client/mozilla/shared/ipaddress.cpp:258-284 | Where the two networks are separable the loop ends, returns one network per bit of difference, and covers exactly the difference. |
| `IpAddresses.ExactMeansSeparable` | client/mozilla/shared/ipaddress.cpp:258-284 | Whenever the loop ends with exactly the difference, the networks were separable. |
| `IpAddresses.CarveRightIff` | client/mozilla/shared/ipaddress.cpp:258-284 | The subtraction of one network is right if and only if the bits the walk never sets agree; for a canonical source, if and only if the excluded network is canonical. |
| `IpAddresses.HostBitsGetStuck` | client/mozilla/shared/ipaddress.cpp:258-284 | Taking a network out of a canonical one never reaches the exit of the loop if and only if the excluded network has host bits set; it never ends with a wrong result. |
| `IpAddresses.TenSlashEightGetsStuck` | client/mozilla/shared/ipaddress.cpp:264-273 | An IPv4 instance: 10.0.0.1/8 out of the whole address space. |
| `IpAddresses.CarveKeeps` | client/mozilla/shared/ipaddress.cpp:258-284 | From a canonical network come canonical networks, pairwise disjoint. |
| `IpAddresses.ExcludeAddresses` | client/mozilla/shared/ipaddress.cpp:235-256 | The nested loops over sources and exclusions compute the list subtraction of the next rows. |
| `IpAddresses.ExcludedExact` | client/mozilla/shared/ipaddress.cpp:243-250 | The three branches for one network and one exclusion leave exactly the difference. |
| `IpAddresses.ExcludeAllExact` | client/mozilla/shared/ipaddress.cpp:235-256 | On canonical lists the subtraction always ends; an address is in the result exactly if it is in a source and in no exclusion; results are canonical, and disjoint if the sources were. |
| `SplitTunnel.VpnIps` | client/settings.cpp:313-326 | The selected sites are exactly the keys that are addresses and the resolved values of the others where those are, each once. |
| `SplitTunnel.CompileRanges` | client/mozilla/localsocketcontroller.cpp:149-221 | The ranges and exclusions for the daemon, a list of the protocol's own coming first; with the default list, the daemon's routes in any order give the mode its plain meaning except at addresses excepted with no bit at all. |
| `SplitTunnel.TwoListsDecide` | client/platforms/linux/daemon/linuxroutemonitor.cpp:157-172 | In a table of two lists only the longest match of each counts; at equal length the metric decides, then the order of installation. |
| `SplitTunnel.ExpandLongest` | client/platforms/linux/daemon/wireguardutilslinux.cpp:325-344 | Replacing default routes by their halves raises a longest match of no bits to one bit and changes no other, in both families. |
| `SplitTunnel.SameRangesLongest` | client/daemon/daemon.cpp:362-367 | Sorting the allowed ranges, in whatever order, changes no longest match. |
| `SplitTunnel.DaemonDecides` | client/daemon/daemon.cpp:123-154 | On Linux and macOS, for any lists: tunnelled exactly if the longest allowed range beats the longest exclusion, which wins at equal length. |
| `SplitTunnel.WireguardDecision` | client/daemon/daemon.cpp:123-154 | For every mode, every list of sites and every list of the protocol's own: tunnelled exactly if the longest range offered, a default range counting one bit, is longer than the longest exception. |
| `SplitTunnel.WireguardMeaningIff` | client/vpnconnection.cpp:332-352 | With the default list the WireGuard path gives a mode its plain meaning if and only if the address is not excepted by sites of no bits alone, which lose against the halves of the default route; IPv6 addresses included. |
| `SplitTunnel.ExceptingEverythingFails` | client/platforms/linux/daemon/wireguardutilslinux.cpp:325-344 | Excepting 0.0.0.0/0 leaves every ordinary IPv4 address tunnelled. |
| `SplitTunnel.OwnListDecides` | client/mozilla/localsocketcontroller.cpp:151-171 | A list of the protocol's own without both default ranges decides alone, whatever the settings say. |
| `SplitTunnel.IssueRoutes` | client/vpnconnection.cpp:66-86 | The commands issued on connection, behind what either client has set up, give the mode its plain meaning if and only if the client is not OpenVPN in the mode all sites and no exception has too few bits. |
| `SplitTunnel.RouteTableDecision` | client/configurators/openvpn_configurator.cpp:118-140 | For both clients, every setting and every list of sites: what the routing table decides; with splitting on and the mode still all sites OpenVPN tunnels nothing and Xray everything, and an exception needs one bit, or two where an existing route stays. |
| `SplitTunnel.RouteTableMeaningIff` | client/protocols/xrayprotocol.cpp:133-137 | Exactly when that decision is the plain meaning of the mode; Xray, which adds the halves itself, has no exception in the mode all sites. |
| `SplitTunnel.AllSitesTunnelsNothing` | client/configurators/openvpn_configurator.cpp:118-140 | OpenVPN with splitting on and the mode all sites: no ordinary address is tunnelled. |
| `SplitTunnel.RangeOfContains` | client/android/utils/src/main/kotlin/net/IpRange.kt:117-129 | A network and its numeric range contain the same addresses. |
| `SplitTunnel.ApplyRoutes` | client/android/protocolApi/src/main/kotlin/ProtocolConfig.kt:148-152 | After the loop the range set covers exactly the addresses whose last matching route is an inclusion. |
| `SplitTunnel.BuildNetworks` | client/android/protocolApi/src/main/kotlin/ProtocolConfig.kt:148-158 | For every list of routes, an address is in a built network exactly if its last matching route is an inclusion and it is not a loopback address. |
| `SplitTunnel.DropLoopback` | client/android/protocolApi/src/main/kotlin/ProtocolConfig.kt:159-165 | Exactly the inclusions whose address begins with 127 are dropped. |
| `SplitTunnel.ProcessRoutes` | client/android/protocolApi/src/main/kotlin/ProtocolConfig.kt:138-166 | For every list of routes, with or without exclusions: exactly which addresses end up in the networks of the interface. |
| `SplitTunnel.CompileAndroid` | client/android/protocolApi/src/main/kotlin/Protocol.kt:51-72 | From the settings to the networks of the interface, for every site list and every ordinary address: without exclusions all but sites whose own address begins with 127, with exclusions all but loopback. |
| `SplitTunnel.OnlySitesWanted` | client/android/protocolApi/src/main/kotlin/ProtocolConfig.kt:116-136 | In the mode that tunnels only sites: tunnelled exactly if a site whose own address does not begin with 127 contains the address. |
| `SplitTunnel.ExceptSitesWanted` | client/android/protocolApi/src/main/kotlin/ProtocolConfig.kt:116-136 | In the mode that excepts sites: tunnelled exactly if no site contains the address and it is not loopback, whatever the prefix lengths. |
| `SplitTunnel.AndroidMeaningIff` | client/android/protocolApi/src/main/kotlin/ProtocolConfig.kt:138-166 | Exactly when what the interface tunnels is the plain meaning of the mode. |
| `SplitTunnel.LoopbackSiteIsDropped` | client/android/protocolApi/src/main/kotlin/ProtocolConfig.kt:159-165 | The site 127.0.0.1/2 is dropped, and with it 64.0.0.0, which it contains. |
| `SplitTunnel.ThreePathsAgree` | client/vpnconnection.cpp:332-352 | For every setting, site list and ordinary IPv4 address: exactly when each of the three compilations, the routing table for either client and Android in its finished networks, has the plain meaning of the mode. |
| `SplitTunnel.OrdinarySettingsAgree` | client/vpnconnection.cpp:332-352 | With sites of two bits or more that do not begin with 127, and on OpenVPN a splitting mode, all three compilations decide alike outside loopback. |
| `SplitTunnel.SelectionMatches` | client/settings.cpp:313-326 | The selected networks match exactly where the stored sites do, and equally long. |
| `SplitTunnel.CompileStored` | client/vpnconnection.cpp:66-137 | All three compilations from the stored map of sites on, and exactly where each means what is stored. |
| `WireguardDaemon.WireguardUtils.DeleteExclusionRoute` | client/daemon/wireguardutils.h:22-52 | A deletion that reports success has its effect, one that fails leaves the route installed and remembers it as leaked. |
| `WireguardDaemon.WireguardUtils.UpdatePeer` | client/platforms/linux/daemon/wireguardutilslinux.cpp:190-234 | Besides the peer, the server's own addresses are excluded, unless the hop is an exit; whether that succeeds is not reported. |
| `WireguardDaemon.WireguardUtils.DeletePeer` | client/platforms/linux/daemon/wireguardutilslinux.cpp:236-258 | The server's exclusions are deleted first, whether anybody counts them or not, even if the peer then stays. |
| `WireguardDaemon.WireguardUtils.DeleteRoutePrefix` | client/platforms/linux/daemon/wireguardutilslinux.cpp:346-365 | On Linux and macOS a deletion inserts the range it was asked to delete, unless it is a whole address space; on Windows it deletes it. A failure may have done part of it. |
| `WireguardDaemon.KeysAgreeIff` | client/daemon/daemon.cpp:492-509 | The key an exclusion is added under and the key it is deleted under agree exactly for plain addresses. |
| `WireguardDaemon.NetworkKeys` | client/mozilla/shared/ipaddress.cpp:13-33 | Two texts with the same prefix length are one key of the ledger exactly if their leading bits agree. |
| `WireguardDaemon.KeysBalance` | client/daemon/daemon.cpp:490-510 | Additions equal deletions plus the entries that are not plain addresses, for every key. |
| `WireguardDaemon.SwitchLeaves` | client/daemon/daemon.cpp:481-526 | After a switch each count is the new total over the live connections plus exactly the old entries that were not plain addresses. |
| `WireguardDaemon.SwitchBalancedIff` | client/daemon/daemon.cpp:481-526 | A balanced ledger is balanced after a switch if and only if every old exclusion was a plain address. |
| `WireguardDaemon.SharedExclusionSurvives` | client/daemon/daemon.cpp:481-526 | An installed exclusion survives a switch exactly as the counts say; on a balanced ledger every exclusion the new configuration lists does. |
| `WireguardDaemon.NetworkIsNeverReleased` | client/daemon/daemon.cpp:507-510 | Once a connection that listed it has been replaced, an exclusion that is not a plain address stays counted, whatever else has been released since. |
| `WireguardDaemon.SwitchAccounted` | client/daemon/daemon.cpp:481-526 | After any switch without failures every count is exactly the total over the live connections and the entries never released. |
| `WireguardDaemon.RoutesLeft` | client/daemon/daemon.cpp:511-515 | Exactly what is routed after the deletions of a switch: what they spare of what was there and, on Linux and macOS, every old range that should have gone. |
| `WireguardDaemon.OldRangeStays` | client/platforms/macos/daemon/wireguardutilsmacos.cpp:322-341 | A range only the old configuration had is still routed on Linux and macOS unless a whole address space took it away, and is gone on Windows. |
| `WireguardDaemon.NewRangesRoutedIff` | client/daemon/daemon.cpp:500-515 | After a switch without failures every range of the new configuration is routed if and only if none shares an entry with a range that is deleted. |
| `WireguardDaemon.ClashIff` | client/platforms/linux/daemon/wireguardutilslinux.cpp:325-365 | Such an entry is shared exactly if a whole address space goes and one of its halves, or the space in another form, stays, on Linux and macOS. |
| `WireguardDaemon.HalvesLost` | client/platforms/linux/daemon/wireguardutilslinux.cpp:325-365 | The failing case: switching from everything to its two halves leaves neither routed. |
| `WireguardDaemon.KeptListed` | client/daemon/daemon.cpp:481-526 | On a balanced ledger, an exclusion installed before and listed by the new configuration was installed at every moment of the switch, unless it went with the old peer. |
| `WireguardDaemon.MissingAfterSwitch` | client/daemon/daemon.cpp:481-526 | Exactly which counted exclusions are not installed after a switch without failures: the old server's if its peer was deleted, and those missing before that the new peer did not bring back. |
| `WireguardDaemon.AlwaysExcludedIff` | client/daemon/daemon.cpp:481-526 | If nothing was missing before, every counted exclusion is installed at every moment of a switch without failures if and only if the peer's key is unchanged, or the hop is an exit, or no address of the old server is counted afterwards. |
| `WireguardDaemon.NewServerExcludedIff` | client/daemon/daemon.cpp:481-526 | Whether the new server itself is excluded after a switch without failures. |
| `WireguardDaemon.StrayAfterSwitch` | client/daemon/daemon.cpp:481-526 | Exactly which exclusions are neither counted nor a connected server's after a switch without failures: at most those before, and with an unchanged key the old server's that its own list does not name. |
| `WireguardDaemon.MovedServerIsStray` | client/daemon/daemon.cpp:517-523 | A switch with the same key to another server that no list names leaves the old server's exclusion stray. |
| `WireguardDaemon.ListedNotStray` | client/daemon/daemon.cpp:490-510 | A configuration that lists its server as a plain exclusion makes nothing stray, by failing or by being replaced. |
| `WireguardDaemon.ClientListsServer` | client/mozilla/localsocketcontroller.cpp:212-218 | A configuration built by this client, whose first exclusion is the server itself, lists its server. |
| `WireguardDaemon.EndpointLosesExclusion` | client/daemon/daemon.cpp:517-521 | A new key on the same server, excluded by both configurations: the count stays, the exclusion goes. |
| `WireguardDaemon.NewKeyUnprotects` | client/daemon/daemon.cpp:56-98 | The same as one request to the daemon: once it has switched without failures, the server is counted and not excluded. |
| `WireguardDaemon.SharedRangesKept` | client/daemon/daemon.cpp:500-515 | A range of both configurations that was routed is routed at every moment of a switch, with any failures, if nothing clashes. |
| `WireguardDaemon.FreshBalanced` | client/daemon/daemon.cpp:123-126 | A first activation of a hop keeps a balanced ledger balanced. |
| `WireguardDaemon.Daemon.constructor` | client/daemon/daemon.cpp:29-39 | The daemon starts with nothing connected, counted or signalled, and matching the system. |
| `WireguardDaemon.Daemon.AddExclusion` | client/daemon/daemon.cpp:212-222 | The count of the prefix grows by one exactly on success, no other count changes, only the first one asks the system, and no exclusion or route is lost on the way. |
| `WireguardDaemon.Daemon.DelExclusion` | client/daemon/daemon.cpp:224-232 | The count drops by one and not below zero, no other changes, and everything still counted stays installed throughout. |
| `WireguardDaemon.Daemon.AddExclusions` | client/daemon/daemon.cpp:490-493 | A whole list is counted with its multiplicities, and with any failures exactly the newly counted keys are newly installed; nothing is lost on the way. |
| `WireguardDaemon.Daemon.DelExclusions` | client/daemon/daemon.cpp:507-510 | A whole list is discounted under its deletion keys; what is still counted or not mentioned was installed at every moment; without failures exactly the keys no longer counted go. |
| `WireguardDaemon.Daemon.UpdateRoutes` | client/daemon/daemon.cpp:147-154 | Success means the entries of every allowed range were added; no route or exclusion is lost on the way. |
| `WireguardDaemon.Daemon.DeleteRoutes` | client/daemon/daemon.cpp:511-515 | Without failures the routes are exactly those RoutesLeft describes; with any failures, every entry the deletions spare was installed at every moment. |
| `WireguardDaemon.Daemon.MakeNew` | client/daemon/daemon.cpp:490-505 | Everything the new configuration needs is installed, its server's exclusions included, before anything of the old one goes; nothing installed is lost at any moment. |
| `WireguardDaemon.Daemon.BreakOld` | client/daemon/daemon.cpp:507-523 | Only what the old configuration alone needed is touched, the peer last, and with it its server's exclusions, counted or not; the rest was installed at every moment; routes and exclusions without failures. |
| `WireguardDaemon.Daemon.SwitchServer` | client/daemon/daemon.cpp:481-526 | Make before break over every interleaving of failures, in terms of both configurations, for exclusions but the old server's and for ranges. Without failures: exactly which counted exclusions are missing, whether any ever was, and which ranges are routed. Success if and only if the new peer came up and the old one went. |
| `WireguardDaemon.Daemon.ClearExclusions` | client/daemon/daemon.cpp:445-450 | Whatever the counts, the ledger is empty afterwards; without failures exactly the counted exclusions are gone from the system. |
| `WireguardDaemon.Daemon.Deactivate` | client/daemon/daemon.cpp:410-459 | Success leaves no connection, no count, no interface, peer or route; without failures it leaves exactly the stray exclusions, so none if and only if none was neither counted nor a connected server's; failure keeps the connections; when the signal is sent. |
| `WireguardDaemon.Daemon.TearDown` | client/daemon/daemon.cpp:433-457 | Peers, counted exclusions and interface go, and without failures exactly the stray exclusions stay. |
| `WireguardDaemon.Daemon.ActivateBySwitching` | client/daemon/daemon.cpp:73-98 | What a switch and its follow-up leave: a failure after the switch keeps the new connection without arming the timer; counts, ranges and exclusions as after the switch. |
| `WireguardDaemon.Daemon.BringUp` | client/daemon/daemon.cpp:113-154 | Success means interface, peer and all ranges are up; without failures exactly the listed keys are newly counted and the server is excluded; no counted exclusion goes missing, and nothing but listed keys and the server's are added. |
| `WireguardDaemon.Daemon.ActivateFresh` | client/daemon/daemon.cpp:113-165 | The connection appears exactly on success, with the timer armed, balance is kept, and without failures only a failed activation makes something stray: its server's addresses that it does not list. |
| `WireguardDaemon.Daemon.Activate` | client/daemon/daemon.cpp:56-165 | Over all branches, including the one recursive call after a deactivation: connections, timer, failure signals and their number, system state, counts, exactly what a switch does to the exclusions, and what can go missing or become stray in every branch. |
| `WireguardDaemon.Daemon.Restart` | client/daemon/daemon.cpp:100-111 | Deactivation and a second activation: counts start afresh, nothing counted goes missing, an inner failure is signalled by the inner call, and only a failure can make something stray. |
| `WireguardDaemon.Daemon.CheckHandshake` | client/daemon/daemon.cpp:559-593 | Every awaited connection takes the last handshake reported for its key, each report is signalled, and the timer is armed exactly if some connection still waits. |
| `WireguardDaemon.NewsIffHeard` | client/daemon/daemon.cpp:573-581 | A connection is announced exactly if it stops waiting. |
| `WireguardDaemon.Execute` | client/daemon/daemon.cpp:56-593 | One request or timer expiry with any failures: ledger and system agree on every exclusion that no peer deletion took, counts and the timer discipline are kept, a failed activation is signalled; while peers keep their keys nothing counted goes missing, and without failures only what MayStray names becomes stray. |
| `WireguardDaemon.Run` | client/daemon/daemon.cpp:56-593 | The same for every sequence of requests and expiries from any valid state; without a clean-up the entries never released only become more; while configurations list their servers nothing becomes stray in a run without failures. |
| `WireguardDaemon.RunAndDeactivate` | client/daemon/daemon.cpp:410-459 | From a fresh daemon, any requests with configurations that list their servers and then a successful deactivation: if nothing failed, no connection, interface, peer, route or exclusion is left. |
| `WireguardDaemon.FailedActivationLeavesStray` | client/daemon/daemon.cpp:113-165 | An activation that fails late, with a server its list does not name: the exclusion outlives a successful deactivation. |
| `Checksum.Accumulate` | client/mozilla/pingsender.cpp:31-41 | The 32-bit accumulator never overflows on a packet and holds the sum of the words, an odd byte padded with zero. |
| `Checksum.InetChecksum` | client/mozilla/pingsender.cpp:13-48 | The result is the complement of the one's-complement sum of section 1 of RFC 1071. |
| `Checksum.TwoFoldsSuffice` | client/mozilla/pingsender.cpp:43-45 | Two folds reduce every sum the accumulator can hold. |
| `Checksum.OnesSumIsRep` | client/mozilla/pingsender.cpp:31-45 | End-around carries at every addition and one reduction at the end give the same word. |
| `Checksum.FieldMakesZeroIff` | client/mozilla/pingsender.cpp:13-48 | The receiver's check comes out zero exactly for the computed checksum in the field, or all ones where the checksum is zero. |
| `Checksum.StoredChecksumVerifies` | client/mozilla/pingsender.cpp:13-48 | A packet with its checksum stored in memory checks to zero. |
| `Checksum.SwapSum` | client/mozilla/pingsender.cpp:13-48 | Swapping the bytes of all words swaps the bytes of the one's-complement sum. |
| `Checksum.ByteOrderIndependent` | client/mozilla/pingsender.cpp:13-48 | Hosts of either byte order put the same two bytes into the packet, as section 2(B) of RFC 1071 promises. |
| `Framing.Channel.TakeLine` | client/mozilla/localsocketcontroller.cpp:337-351 | Taking a whole line out of the buffer is the same as reading its bytes one at a time. |
| `Framing.Channel.ClientReadData` | client/mozilla/localsocketcontroller.cpp:326-352 | However the stream is cut into reads, delivered commands and buffer are those of a reader that takes the whole stream byte by byte. |
| `Framing.Channel.DaemonReadData` | client/daemon/daemonlocalserverconnection.cpp:48-76 | The same for the daemon's loop, which reads on until a read gives nothing. |
| `Framing.FeedConcat` | client/mozilla/localsocketcontroller.cpp:326-352 | Reading two pieces one after the other is reading their concatenation. |
| `Framing.FeedLine` | client/mozilla/localsocketcontroller.cpp:337-351 | A line and its newline add exactly the trimmed line, or nothing if it is blank. |
| `Framing.DeliveredShape` | client/daemon/daemonlocalserverconnection.cpp:48-76 | Every delivered command is non-empty, trimmed and free of newlines, whatever the bytes. |
| `Framing.WrittenReadBack` | client/daemon/daemonlocalserverconnection.cpp:159-162 | What either side writes is read back as the same sequence of documents, with nothing left over. |
| `Framing.RecoveredIff` | client/mozilla/localsocketcontroller.cpp:474-479 | A sequence of documents is recovered if and only if each is non-empty, without newline and without white space at its ends. |
| `LocalController.StepKeepsInvariant` | client/mozilla/localsocketcontroller.cpp:44-111 | Every step keeps the bounds on attempts, retries, timer and initialisations; a ready controller stays ready. |
| `LocalController.PossibleRunsKeepInvariant` | client/mozilla/localsocketcontroller.cpp:44-472 | The bounds hold after every possible run. |
| `LocalController.AttemptsAndInitialization` | client/mozilla/localsocketcontroller.cpp:44-111 | In every possible run there are at most eleven connection attempts and initialisation is announced at most once. |
| `LocalController.RetriesCount` | client/mozilla/localsocketcontroller.cpp:53-68 | The eleventh attempt is reached, and the error after it announces failure. |
| `LocalController.EarlyReplyIff` | client/mozilla/localsocketcontroller.cpp:371-395 | A status taken while initialising leaves every possible continuation with at most one announcement if and only if no retry was scheduled. |
| `LocalController.RetryIsReachable` | client/mozilla/localsocketcontroller.cpp:53-68 | A scheduled retry, and with it the harmful case, is reached when the first attempt fails. |
| `LocalController.CallbacksConserved` | client/mozilla/localsocketcontroller.cpp:287-324 | In every run, callbacks called followed by the one waiting are the callbacks registered, in order: none is lost or called twice. |
| `LocalController.Operate` | client/mozilla/localsocketcontroller.cpp:44-472 | The controller itself over every possible run: at most eleven attempts, at most one announcement, and callbacks called then waiting are those registered. |
| `PingRing.RingHoldsWindow` | client/mozilla/pinghelper.cpp:81-96 | The ring holds exactly the last thirty-two pings, each in the slot of its number, across wrap-around. |
| `PingRing.SlotHoldsIff` | client/mozilla/pinghelper.cpp:98-111 | The slot of a number holds that number exactly if it is one of the last thirty-two, or is zero before any ping. |
| `PingRing.WrapKeepsSlot` | client/mozilla/pinghelper.cpp:81-96 | The sixteen-bit wrap does not move a ping to another slot. |
| `PingRing.PingHelper.Start` | client/mozilla/pinghelper.cpp:59-65 | A start empties the history and all slots. |
| `PingRing.PingHelper.NextPing` | client/mozilla/pinghelper.cpp:81-96 | One unanswered ping is appended to the history, under its number modulo 65536; the first clears what an early answer left. |
| `PingRing.PingHelper.PingReceived` | client/mozilla/pinghelper.cpp:98-111 | An answer is taken exactly if its number is recent, or zero before any ping, and changes the latency of that ping, or the one kept for an early answer, only. |
| `PingRing.PingHelper.Latency` | client/mozilla/pinghelper.cpp:113-132 | The mean of the answered ones among the last thirty-two pings, to the nearest integer, zero if there are none; before any ping what an early answer left. |
| `PingRing.RingIsWindow` | client/mozilla/pinghelper.cpp:113-132 | Slot by slot the ring has the same answered count and total as the last thirty-two pings, across wrap-around. |
| `PingRing.Run` | client/mozilla/pinghelper.cpp:59-111 | After any pings and answers since a start the ring tells the pings of the run, with the times at which they were sent, an early answer notwithstanding. |
| `Netmasks.CheckMask` | service/server/helper_route_mac.c:837-846 | The two loops accept a mask exactly if it is ones followed by zeros. |
| `Netmasks.PrefixLen` | service/server/helper_route_mac.c:1146-1190 | For every length and family: the octets are the mask of that length, or the error and the untouched mask. |
| `Netmasks.MaskOctetsBits` | service/server/helper_route_mac.c:1146-1190 | Whole octets and one shifted octet together are a contiguous mask. |
| `Netmasks.MasksAgree` | client/core/networkUtilities.cpp:71-84 | The shifted mask, the flipped mask and the octet mask are the same for every length and width. |
| `Netmasks.MakeNetAndMask` | service/server/helper_route_mac.c:876-913 | The mask is contiguous, of the length asked for or the shortest byte-aligned one covering the address. |
| `Netmasks.NetKeptIff` | service/server/helper_route_mac.c:876-913 | The address is unchanged exactly if it is zero or its first byte is not. |
| `Netmasks.LeadingZeroIsLost` | service/server/helper_route_mac.c:876-913 | An address with a leading zero byte that comes out as another address. |
| `RouteMessage.RoundUp` | service/server/helper_route_mac.c:239-241 | The least multiple of four that is not less than the length, four for zero, and within the largest socket address. |
| `RouteMessage.ChunkInPlace` | service/server/helper_route_mac.c:1245-1291 | Where each packed address lies, and that its length byte can be read there. |
| `RouteMessage.Pack` | service/server/helper_route_mac.c:1245-1291 | The buffer holds the addresses of the set bits in bit order, rounded, then zeros; the length is exact. |
| `RouteMessage.Unpack` | service/server/helper_route_mac.c:1460-1482 | The walk finds each address where it was packed, only those, and ends at the end of the message. |
| `RouteMessage.RoundTrip` | service/server/helper_route_mac.c:1245-1482 | Packing then unpacking gives back the bytes of every address put in and no other. |
| `HexAddress.SockaddrFromText` | service/server/helper_route_mac.c:1615-1657 | For every text: the bytes the state machine parses are stored behind the length byte, never past the buffer, and the length is right. |
| `HexAddress.FeedConcat` | service/server/helper_route_mac.c:1615-1657 | The parser's state after a text is that after its parts. |
| `HexAddress.RenderedIsReadBack` | service/server/helper_route_mac.c:1606-1657 | Every byte sequence that fits is parsed back from its hexadecimal form, with any single delimiters or none and in either case. |
| `RouteLedger.RouterLinux.RouteAdd` | service/server/router_linux.cpp:31-71 | A route is recorded exactly if the kernel took it; failure changes nothing. |
| `RouteLedger.RouterLinux.RouteAddList` | service/server/router_linux.cpp:73-82 | The count returned is the growth of the record and of the kernel's table. |
| `RouteLedger.RouterLinux.RouteDelete` | service/server/router_linux.cpp:97-142 | Bad input fails, the default route is skipped and reported as success, and otherwise the route is gone or its deletion was refused. |
| `RouteLedger.RouterLinux.RouteDeleteList` | service/server/router_linux.cpp:144-153 | Only listed routes go, each goes or was refused; the result is true if and only if the default route was listed or some route was deleted. |
| `RouteLedger.DefaultReportedDeleted` | service/server/router_linux.cpp:144-153 | Asking for the default route alone reports success and leaves it in the table. |
| `RouteLedger.RouterLinux.ClearSavedRoutes` | service/server/router_linux.cpp:84-95 | The record is emptied; what remains of the added routes was refused or is a default route; nothing from before is lost. |
| `RouteLedger.Run` | service/server/router_linux.cpp:31-153 | After any calls and a final clean-up the table is the initial one but for asked deletions, refused deletions and default routes. |
| `SecureSettings.SecureQSettings.constructor` | client/secure_qsettings.cpp:18-34 | Migration to the encrypted form changes no value that is read, and encrypts the server list. |
| `SecureSettings.SecureQSettings.Value` | client/secure_qsettings.cpp:36-78 | Through a transparent cache the answer is what the store holds, and the cache stays transparent. |
| `SecureSettings.SecureQSettings.SetValue` | client/secure_qsettings.cpp:80-105 | The new store and cache; the cache stays transparent exactly if the value is encrypted or does not decode to another. |
| `SecureSettings.SecureQSettings.Remove` | client/secure_qsettings.cpp:107-115 | The store loses the key and its group, the cache the key alone. |
| `SecureSettings.SecureQSettings.Backup` | client/secure_qsettings.cpp:122-154 | The backup holds the decoded values of exactly the configuration keys other than the installation identity. |
| `SecureSettings.SecureQSettings.Restore` | client/secure_qsettings.cpp:156-172 | Every writable key of the backup is written, in any order with the same effect; no other key changes, the identity never does. |
| `SecureSettings.ReadBackIff` | client/secure_qsettings.cpp:36-105 | A written value is read back if and only if it is encrypted or does not look encrypted and decode to something else. |
| `SecureSettings.MagicWordIsLost` | client/secure_qsettings.cpp:36-105 | The magic word written as plain bytes, without a key, is read as nothing. |
| `SecureSettings.RemovalTransparentIff` | client/secure_qsettings.cpp:107-115 | Removing a key keeps the cache transparent if and only if nothing below it is cached. |
| `SecureSettings.RemovedGroupStaysCached` | client/secure_qsettings.cpp:107-115 | A cached member of a removed group is still answered from the cache. |
| `SecureSettings.RestoredReads` | client/secure_qsettings.cpp:122-172 | A backup restored into any later store: a writable key reads as when it was backed up if and only if its value was not a byte array; other keys are as they were. |
| `SecureSettings.BytesComeBackAsText` | client/secure_qsettings.cpp:122-172 | A stored byte array that is backed up and restored reads as text. |
| `SecureSettings.BackupAndRestore` | client/secure_qsettings.cpp:122-172 | The same on the settings themselves, with any run of operations between backup and restore. |
| `SecureSettings.Run` | client/secure_qsettings.cpp:36-172 | Over any run of reads, writes, removals, backups and restores on keys that are not groups of one another, the cached settings answer like the store without a cache. |
| `ServerNames.NamesDiffer` | client/settings.cpp:213-230 | Different numbers give different names. |
| `ServerNames.NextAvailableServerName` | client/settings.cpp:213-230 | The name is unused, it is the first such, and the search ends within one more try than there are servers. |
| `ClientAddresses.ReadNextNumber` | client/configurators/wireguard_configurator.cpp:79-121 | The reading code computes the next number that the rows below are about, or that the pool is exhausted. |
| `ClientAddresses.AddressReadBack` | client/configurators/wireguard_configurator.cpp:94-105 | The cutting and splitting recovers the first address of a line, whatever was added by hand behind a comma. |
| `ClientAddresses.OctetReadBack` | client/configurators/wireguard_configurator.cpp:94-119 | A generated line is read back as the number it was generated from. |
| `ClientAddresses.GrepFile` | client/configurators/wireguard_configurator.cpp:82-92 | The search finds one line for every peer of the file, in order. |
| `ClientAddresses.NextOfFile` | client/configurators/wireguard_configurator.cpp:79-121 | The number read from a whole file is one more than the last peer's, two for none, and none beyond 254. |
| `ClientAddresses.AddressesStayDistinct` | client/configurators/wireguard_configurator.cpp:79-158 | Over every history of creations, removals and edits the numbers stay strictly increasing between 2 and 254, so no two peers share an address. |
| `ScpCopy.CopyChunks` | client/core/sshclient.cpp:251-276 | What is written is always a prefix of the file; success means exactly the converted size in full chunks and one rest. |
| `ScpCopy.CompleteIff` | client/core/sshclient.cpp:244-276 | A successful upload is complete if and only if the file is below two gibibytes. |

## Left out

- The user interface, import and export of configurations, installation scripts, the other protocols' processes and everything that only stores or passes values on.
- Foreign code: libssh, OpenSSL, the keychain, netlink, the Windows and macOS routers and JSON parsing appear as parameters or as calls that may fail.
- The platform classes below the daemon are modelled by the contract of their interface, with the routes that the Linux, macOS and Windows classes add and delete; their firewall rules, their own lists and what they do when the default gateway is not known yet are not part of this model.
- DeleteExclusionRoute: that a call which reports success has its effect is an assumption; on Linux success only means that the netlink request was sent, and a refusal by the kernel is logged. The same holds of the other calls for routes and exclusions.
- DeleteInterface: on macOS the route monitor goes with the interface and deletes the exclusions still in its list, so that fewer stray ones remain there than the model says; this is not modelled.
- UpdatePeer: a server address that is missing or malformed is taken to exclude nothing, and the routing monitor to exist while the interface does.
- Split tunnelling: on the routing-table and Android paths for IPv4 and the default list of allowed addresses only; the exclusion interface of Android 13 and the Windows daemon, where interface metrics decide between routes of equal length, are not modelled. Texts of ranges are taken as the networks they denote; that the Linux kernel refuses a route with host bits is not modelled.
- The order in which equal routes of the routing-table path win is a parameter, because it is up to the system.
- Addresses of the Android interval set are numbers; the byte arrays behind them, with their increment and comparison, are not modelled. Bit masks and shifts on prefixes are modelled as comparisons of leading bits.
- Assertions of the source that are compiled out in release builds are not modelled as failures, except the one in the subtraction loop, where the loop does not end.
- Real time, threads and the event loop: timers and replies are events in any order. Repeated name resolution of sites while connected is not modelled.
- The reading of a configuration from JSON in the daemon and its status reply are not modelled.
- Of the ping statistics only the mean is modelled, not the maximum, the loss and the standard deviation.
- Conversions between stored types that the settings library does by itself are not modelled; the serializer and the cipher are one lossless pair of functions.
- InetChecksum: for packets of at most 65536 bytes, because beyond that the 32-bit accumulator of the source may overflow.
- SockaddrFromText: for buffers with at least one byte behind the length byte, which every caller provides.
- Pack: for addresses that fit the message buffer of 512 bytes together, because the source does not check this.
- RouteAdd: the mask for a prefix length of zero is a parameter, because the source shifts a 32-bit value by 32 bits there.
- AddressesStayDistinct: for keys and a server section that do not contain the word searched for, and edits that only append after a comma.
- ReadNextNumber: the output of the search is given line by line and uncut.
