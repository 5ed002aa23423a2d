# MPLS/VPN intent compiler — a Dafny model

This project models the core of a network-automation tool for an MPLS/VPN
backbone. The tool reads an *intent*: the autonomous systems with their
loopback and physical IPv4 ranges, the PE, P and CE routers with their
interfaces and VRFs, and the links between router interfaces. From that it
produces a Cisco IOS configuration text for every router. The core exists
in two near-duplicate variants, and both are modelled side by side:

* the **generator** variant, `NetworkConfigGenerator` in
  `src/network_config_generator.py` (members prefixed `Gen`);
* the **config** variant, `MPLSConfig`, `Router`, `AS` and `Interface` in
  `src/config.py` (members prefixed `Cfg`).

The pipeline has three parts, and so does the model.

1. **Address allocation** (`AddressPool`, `Physical`, `Loopback`, `Build`).
   * Each AS has two one-shot cursors. One runs over the hosts of its
     loopback block. The other runs over the /24 subnets of its physical
     block.
   * The loopback pass goes over the routers in dict order.
   * The physical pass then goes over the links in declared order. Each
     link takes the next /24 from one AS's cursor, and endpoint *i* of the
     link gets host *i* of that /24.
   * Where the variants differ, a `Variant` parameter selects the rule:
     which loopbacks are drawn from a pool, and which flags a PE–CE link
     sets.
   * Cursor exhaustion, a missing range, a missing backbone, an unknown AS,
     router or interface each become a `Result` failure with a named
     `Error`.
2. **Peer resolution** (`Peers`). It finds:
   * the other PEs of a PE;
   * the CE behind a PE's VRF interface;
   * the PE above a CE.
3. **Configuration emission** (`Lines`, `GenEmit`, `CfgEmit`).
   * A configuration is a sequence of `Line` values, rendered to text by
     `Lines.LineText` and joined with newlines.
   * Its sections are the header, the VRF stanzas, the interface stanzas,
     OSPF, MP-BGP or CE eBGP, and the footer.
   * Each variant also has its recap text.

Addresses are integers below 2^32. Masks are always prefix masks, so an
interface address is an `IfAddr(ip, prefix)`. Bitwise AND is a real
recursive function (`IPv4.BitAnd`), proved to clear exactly the host bits.
The same section also proves that the config variant's octet-wise AND of
its own dotted text gives the same network. Python dicts are `Dict.Dict`:
a key sequence in insertion order together with a map.

Where the two variants disagree, the model keeps both behaviours. Each
disagreement is then related by a lemma:

* `Physical.PassesAgree` and `Physical.EndpointAgree`: on any topology both
  physical passes succeed or fail together and draw the same /24s, and
  every link endpoint gets the same address and mask. The flags agree on
  links with no CE endpoint. `Physical.VariantsAgree` adds that when no link
  has a CE endpoint at all, the two passes give identical results.
* `Peers.UpstreamAgree`: the generator takes the *last* link to find a CE's
  PE and the config variant the *first*. Both give the same PE when the CE
  has a single link.
* `Peers.VrfPeerAgree`: for a VRF interface on a single link to a CE, the
  two variants write the same neighbour address. The remote AS is the same
  when no earlier pair link of the PE has a CE on it, because the config
  variant, as written, takes the AS of the CE on the PE's first such link
  (see Findings). `Peers.CeAsWrittenVsIntended` states when the two ASes
  agree in general.
* `CfgEmit.CeBgpAgree`: the two variants write the same CE eBGP block when
  they find the same upstream PE endpoint.

## Model

| member | source | states |
|---|---|---|
| AddressPool.HostAt | src/network_config_generator.py:19-22 | host *i* of a loopback block, as `hosts()` yields it, lies strictly between the block's network and broadcast addresses |
| AddressPool.SubnetAt | src/network_config_generator.py:23-25 | the *i*-th /24 of `subnets(new_prefix=24)` starts on a 256 boundary and lies inside the physical block |
| AddressPool.HostDraws | src/config.py:47-48 | *n* successive `next()` calls on the loopback iterator succeed exactly while *n* hosts remain; the *k*-th yields the host *k* places after the cursor, and the cursor ends *n* further on |
| AddressPool.SubnetDraws | src/config.py:49-50 | *n* successive `next()` calls on the physical iterator succeed exactly while *n* /24s remain; the *k*-th yields the /24 *k* places after the cursor, and the cursor ends *n* further on |
| AddressPool.HostsAscending | src/network_config_generator.py:19-22 | the loopback cursor yields hosts in strictly ascending order, so no host is handed out twice |
| AddressPool.SubnetsDisjoint | src/network_config_generator.py:23-25 | successive /24s of a physical block are disjoint and ascending |
| AddressPool.BlockOf24 | src/config.py:49-50 | a physical block of prefix at most 24 is a whole number of /24s and starts on a /24 boundary |
| IPv4.NetworkOf | src/network_config_generator.py:169 | the network address of `ip/p` is aligned to the block size and the block starting there contains `ip` |
| IPv4.BitAndMask | src/network_config_generator.py:169 | `ip AND netmask(p)` clears exactly the host bits: it equals `ip - ip mod 2^(32-p)` |
| IPv4.MaskKeepsHigh | src/network_config_generator.py:169 | ANDing with the netmask keeps the high `p` bits of an address and drops the rest |
| IPv4.BitAndSplit | src/config.py:268 | bitwise AND works independently on the high and low parts of two numbers split at the same bit position |
| IPv4.BitAndDivMod | src/config.py:268 | bitwise AND commutes with taking the bits above and below a power of two |
| IPv4.OctetAndIsBitAnd | src/config.py:264-269 | the octet-by-octet AND of two addresses equals the octets of their 32-bit AND |
| IPv4.NetworkOfInBlock | src/network_config_generator.py:70-76 | every address inside an aligned block has that block's base as its network address |
| IPv4.AlignedFits | src/network_config_generator.py:20-24 | a strictly parsed CIDR block lies wholly inside the 32-bit address space |
| Text.ParseNatToString | src/config.py:264-265 | `int(str(n)) == n` for every natural number |
| Text.ParseNat | src/config.py:264-265 | on ASCII text, `int()` succeeds exactly on non-empty digit strings, the only texts the emitter writes and reads back |
| Text.DottedRoundTrip | src/config.py:264-265 | splitting a dotted text at `.` and converting each part with `int()` gives back the numbers it was written from |
| Text.SplitJoin | src/network_config_generator.py:213 | `"\n".join` is undone by splitting at newlines, provided no part contains one |
| Text.ContainsAt | src/network_config_generator.py:104 | Python's substring test holds exactly when the pattern occurs at some position |
| Text.JoinStarts | src/network_config_generator.py:235 | a joined text starts with its first part |
| Dict.Put | src/network_config_generator.py:38 | assigning a key updates that key's lookup only; an existing key keeps its position and a new key is appended |
| Dict.FromPairsKeys | src/network_config_generator.py:15 | the keys of a dict built pair by pair are exactly the keys the pairs name |
| Dict.FromPairsLast | src/network_config_generator.py:15 | when a key is given twice, the last pair for it decides its value |
| Dict.FromPairsValues | src/network_config_generator.py:15 | every value in the dict comes from one of the pairs with that key |
| Dict.FromZipKeys | src/network_config_generator.py:217 | a comprehension over distinct keys keeps the keys in their original order |
| Dict.FromZipValue | src/network_config_generator.py:217 | in a comprehension over distinct keys, each key maps to the value computed for it |
| Sorting.StrLeTotal | src/config.py:385 | any two strings are comparable under Python's string order |
| Sorting.StrLeTrans | src/config.py:385 | Python's string order is transitive |
| Sorting.StrLeAntisym | src/config.py:385 | two strings each at most the other are equal |
| Sorting.Insert | src/config.py:385 | inserting into a sorted list keeps it sorted and adds exactly the one element |
| Sorting.SortStrings | src/config.py:385 | `sorted()` returns an ordered permutation of its input |
| Sorting.SortedUnique | src/config.py:387 | two sorted lists holding the same strings are equal, so `sorted()` has a single answer whatever its input order |
| Sorting.SortStringsIn | src/config.py:385 | sorting keeps exactly the names it is given |
| Seqs.LastIndexOf | src/network_config_generator.py:73-79 | finds the last position of an element, and reports absence exactly when the element is absent |
| Seqs.CollectFailsAt | src/network_config_generator.py:217 | gathering per-item results fails with the error of the first item that fails |
| Build.AsMapSpec | src/network_config_generator.py:15 | the AS dict holds exactly the declared AS numbers, and a number declared twice takes its last declaration |
| Build.AsMapFrom | src/config.py:302-303 | every AS in the dict is built from a declaration with its number |
| Build.AsMapPools | src/network_config_generator.py:18-25 | in a well-formed intent, every AS cursor runs over a block that `hosts()` or `subnets()` accepts |
| Build.BackboneSpec | src/config.py:305-309 | the backbone is the first AS flagged backbone in dict order; the lookup fails with a missing backbone exactly when no AS is flagged |
| Build.Backbone | src/config.py:305-309 | the backbone found is a declared AS flagged backbone; a failure is a missing backbone |
| Build.GenAsesSpec | src/network_config_generator.py:13-29 | the generator's AS map succeeds when every AS has a physical range and some AS is the backbone; otherwise it fails at the first AS without a physical range, or with a missing backbone |
| Build.GenAses | src/network_config_generator.py:13-29 | a successful AS map is the declared one, with a declared AS flagged backbone; a failure is a missing physical range or a missing backbone |
| Build.DeclaredAt | src/network_config_generator.py:34-35 | the routers are visited PEs first, then Ps, then CEs, each one a declaration of its kind |
| Build.RouterMapFrom | src/config.py:311-331 | every router in the dict comes from a declaration with its hostname and kind |
| Build.RouterMapSpec | src/network_config_generator.py:36-47 | PEs and Ps get the backbone AS; in the generator every CE also gets a fresh `Loopback0` |
| Build.PassesResolved | src/network_config_generator.py:52-80 | after both address passes, every endpoint of every link has an address; routers and links keep their shape |
| Build.Passes | src/network_config_generator.py:52-80 | both address passes keep the backbone and the declared links |
| Build.GenBuildSpec | src/network_config_generator.py:6-10 | a built generator model has the declared backbone and links; every link endpoint is addressed, every non-CE router is in the backbone AS, and every CE has a `Loopback0` |
| Build.GenBuild | src/network_config_generator.py:6-10 | a built generator model keeps the declared links and is built on a declared AS flagged backbone |
| Build.CfgBuildFails | src/config.py:305-331 | config construction fails for a missing backbone, and otherwise fails naming the first CE whose AS number is absent or undeclared |
| Build.CfgRouterAs | src/config.py:324-330 | once every CE's AS resolves, every router's AS is a declared AS |
| Build.CfgBuildSpec | src/config.py:294-300 | a built config model has the backbone and links of the intent, every link endpoint addressed, every router in a declared AS and every non-CE router in the backbone |
| Build.CfgBuild | src/config.py:294-300 | a built config model keeps the declared links, is built on a declared AS flagged backbone, and exists only when every CE names a declared AS |
| Physical.LinkHost | src/network_config_generator.py:70-74 | endpoint *i* of a link gets host *i* of its /24, that is the base plus *i* plus one |
| Physical.LinkHostInBlock | src/network_config_generator.py:70-76 | an endpoint's address lies in the link's /24 and is neither its network nor its broadcast address |
| Physical.LinkHostsDistinct | src/network_config_generator.py:73-76 | two endpoints of one link get distinct addresses in the same /24 |
| Physical.Stamp | src/network_config_generator.py:74-79 | a stamped endpoint gets its /24 address; in the generator its `mpls` and `internal` flags are set exactly when its router is not a CE; in the config variant they are set on links without a CE and left alone on links with one |
| Physical.StampTwice | src/network_config_generator.py:74-79 | stamping an interface twice leaves the second address, so a repeated endpoint keeps the later one |
| Physical.FirstCe | src/config.py:349-353 | finds the first CE endpoint of a link; fails with an unknown router when an endpoint before it names no router |
| Physical.OwnerAs | src/config.py:351-358 | a link draws from its first CE's AS, or from the backbone when it has no CE; it fails when that AS is missing or undeclared |
| Physical.TakeSubnet | src/config.py:355-358 | drawing a /24 fails for an AS without a physical range or with an exhausted cursor; otherwise it returns that AS's next /24 and advances only that cursor |
| Physical.StampEndpoint | src/config.py:362-369 | stamping an endpoint fails when the router has no such interface; otherwise it rewrites that interface alone |
| Physical.AllResolveMeans | src/config.py:362-366 | a link resolves when each endpoint names an existing interface and has a host in the /24 |
| Physical.AssignFrom | src/config.py:362-373 | assigning a link's endpoints succeeds exactly when all of them resolve, and keeps the routers' shape |
| Physical.AssignFromEffect | src/network_config_generator.py:73-79 | assigning a link's endpoints leaves every other interface alone, and each endpoint ends with the stamp of its last position in the link |
| Physical.LinkStep | src/network_config_generator.py:64-79 | one link only moves cursors forward and changes interfaces, not routers; its /24 is aligned |
| Physical.LinkStepDraw | src/network_config_generator.py:65-69 | a link with a CE endpoint draws from its first CE's AS and any other link from the backbone; the /24 is that AS's next one, and only that cursor moves |
| Physical.LinkStepEffect | src/network_config_generator.py:71-79 | a link touches only its own endpoints; each gets host *i* of the drawn /24 with the flags the variant sets |
| Physical.TakeSubnetAdvances | src/config.py:355 | drawing a /24 moves a cursor forward and no cursor back |
| Physical.PhysicalPass | src/network_config_generator.py:64 | the physical pass records exactly one draw per link |
| Physical.PassShape | src/network_config_generator.py:64-79 | the physical pass only moves cursors forward and keeps every router and interface name |
| Physical.PassFrame | src/network_config_generator.py:64-79 | an interface that no link names leaves the physical pass as it entered |
| Physical.PassFinalAddress | src/network_config_generator.py:64-79 | after the physical pass, an endpoint carries the address and flags from its last mention in the link list |
| Physical.Advance | src/network_config_generator.py:67 | a draw moves only the drawing AS's cursor, by one /24 |
| Physical.ChainAscending | src/network_config_generator.py:67-69 | in a chain of draws, two draws from one AS are disjoint and ascending /24s |
| Physical.DrawsAscending | src/network_config_generator.py:67-69 | two links drawing from the same AS get disjoint, ascending /24s, the earlier link the lower one |
| Physical.VariantsAgree | src/config.py:347-373 | on a topology where no link has a CE endpoint, both variants' physical passes give identical results: the same addresses, masks, flags, draws and cursors, and the same failure |
| Physical.StepShapeAgree | src/config.py:347-373 | one link does the same in either variant on routers of the same shape: the same outcome and error, the same draw and cursors |
| Physical.PassShapeAgree | src/config.py:347-373 | the whole physical pass does the same in either variant on routers of the same shape: the same outcome and error, the same draws and cursors |
| Physical.PassesAgree | src/config.py:347-373 | on any topology the two physical passes succeed and fail together, with the same error, and draw the same /24s, leaving the same cursors |
| Physical.EndpointAgree | src/config.py:362-373 | on any topology every link endpoint gets the same address and mask from both passes; when the link it last occurs on has no CE endpoint, both set its `mpls` and `internal` flags |
| Loopback.PoolStamp | src/network_config_generator.py:56-58 | a pool loopback gets the drawn host with a /32 mask; the generator marks it internal, the config variant leaves its flag alone |
| Loopback.PrivateStamp | src/network_config_generator.py:59-61 | a CE's fallback loopback gets its private network's address and mask, is not internal and is marked `ce_test` |
| Loopback.AdvanceLoop | src/network_config_generator.py:57 | a loopback draw moves only that AS's loopback cursor, by one host |
| Loopback.LoopbackStep | src/network_config_generator.py:54-61 | a router's loopback turn fails exactly on an unknown AS, a missing generator CE loopback, an exhausted cursor or a CE with no private network |
| Loopback.LoopbackStepResult | src/config.py:339-344 | a router whose AS has a loopback range draws its next host (in the config variant only if that AS is the backbone); a generator CE without a range takes its private network; any other router is left untouched |
| Loopback.LoopbackStepLookup | src/network_config_generator.py:55-61 | a loopback turn changes only that router's `Loopback0` |
| Loopback.LoopbackFrom | src/network_config_generator.py:54 | the loopback pass records one turn per router |
| Loopback.LoopbackCursors | src/config.py:339-344 | the loopback pass only moves cursors forward |
| Loopback.LoopbackRouters | src/config.py:339-344 | the loopback pass keeps every router and interface name |
| Loopback.LoopbackFrame | src/network_config_generator.py:54-61 | the loopback pass changes no interface other than a `Loopback0` |
| Loopback.CasesStable | src/network_config_generator.py:56-59 | moving cursors forward or readdressing interfaces does not change which case a router falls in |
| Loopback.LoopbackEffect | src/network_config_generator.py:54-61 | after the pass, each router's `Loopback0` is what its own turn gives: a pool host, its private network, or the interface unchanged |
| Loopback.HostChainAscending | src/network_config_generator.py:57 | two loopback draws from one AS yield strictly ascending hosts |
| Loopback.PoolDrawn | src/config.py:342-344 | a router whose turn is a pool draw ends the pass with the drawn host on its `Loopback0` |
| Loopback.LoopbacksDistinct | src/network_config_generator.py:56-57 | two routers drawing loopbacks from the same AS get distinct addresses, ascending in router order |
| Topology.SameShapeLookup | src/network_config_generator.py:58 | updating interface fields keeps the set of interfaces and every router's kind |
| Topology.LookupAfterUpdate | src/config.py:343-344 | updating one interface changes that interface's lookup and no other |
| Topology.CursorsAdvancedPools | src/config.py:47-50 | cursors that only moved forward still run over blocks that `hosts()` and `subnets()` accept |
| Peers.PeersIn | src/network_config_generator.py:126-127 | picks out, in dict order, the PEs other than the router itself, each once |
| Peers.PePeers | src/network_config_generator.py:126-127 | a PE's iBGP peers are exactly the other PEs, each listed once, and never the PE itself |
| Peers.LoopText | src/network_config_generator.py:128 | a peer's loopback text is its `Loopback0` address; a missing interface or address fails; the config variant writes `None` for an interface without one |
| Peers.PeerTexts | src/config.py:170-174 | the peer address list succeeds exactly when every peer's loopback can be read, and lists them in peer order |
| Peers.PeerTextsFailsAt | src/config.py:172 | the peer address list fails naming the first peer without a loopback |
| Peers.CePeerAt | src/network_config_generator.py:111-118 | the CE behind `(pe, iface)` is the first CE endpoint facing the PE on the first declared link that holds `(pe, iface)` and has one; there is none only when no such link exists |
| Peers.GenCePeer | src/network_config_generator.py:111-118 | `__find_ce_peer` returns `0.0.0.0` and AS `0` when no link holds the PE interface together with a CE |
| Peers.GenCePeerAt | src/network_config_generator.py:111-118 | otherwise it returns the address and AS of the first CE endpoint on the first link that holds the PE interface and a CE |
| Peers.LastPe | src/network_config_generator.py:160-162 | finds the last PE endpoint of a link other than the CE itself |
| Peers.LastUpLink | src/network_config_generator.py:158-162 | finds the last link that touches the CE and has a PE endpoint |
| Peers.GenUpstream | src/network_config_generator.py:157-162 | the generator's upstream endpoint is a PE endpoint on a link touching the CE; there is none exactly when no such link has a PE endpoint |
| Peers.UpstreamScanIsLast | src/network_config_generator.py:158-162 | the loop without `break` ends with the last PE endpoint of the last link the CE shares with a PE |
| Peers.Across | src/config.py:240-245 | the endpoint taken across a two-endpoint link belongs to the link and, when only one end is the CE, to the other router |
| Peers.CfgUpstream | src/config.py:235-249 | the config variant's upstream endpoint comes from the *first* two-endpoint link touching the CE, because the loop breaks there |
| Peers.UpstreamAgree | src/config.py:235-249 | a CE with a single link, to a PE, gets the same upstream PE endpoint in both variants |
| Peers.FirstOther | src/config.py:150 | the far endpoint is an endpoint of the link on another router |
| Peers.VrfNeighbour | src/config.py:139-158 | the far endpoint of a VRF interface comes from the first two-endpoint link holding that interface and another router; there is none exactly when no link qualifies |
| Peers.CfgCeIp | src/config.py:132-160 | `_get_ce_ip` returns the address of the far endpoint on the first two-endpoint link that holds the VRF interface and another router, and `0.0.0.0` when no link qualifies |
| Peers.OtherRouter | src/config.py:218 | the other router of a two-endpoint link, absent when both ends are on the same router |
| Peers.CfgCeAsWritten | src/config.py:205-227 | as written, the CE AS is that of the CE on the first two-endpoint link of the PE, whatever the interface, or `0` when there is none |
| Peers.CfgCeAs | src/config.py:205-227 | the corrected AS: `0` when no link holds the VRF interface or its neighbour is not a CE |
| Peers.CeAsWrittenIgnoresVrf | src/config.py:210-225 | a PE with two CEs on two links: for the VRF on the second link, the written code reports the first CE's AS, while the corrected one reports the second CE's |
| Peers.CfgVrfSession | src/config.py:132-160 | when a VRF interface is on a single two-endpoint link, the VRF's session is with that link's far endpoint: its address, and its AS when it is a CE |
| Peers.CeAsWrittenVsIntended | src/config.py:205-227 | for a VRF interface on a single link to a CE, the AS as written comes from the PE's first CE-bearing pair link, no later than the VRF's own; it equals the generator's AS exactly when that link's CE has the same AS text as the VRF's CE; the addresses always agree |
| Peers.VrfPeerAgree | src/network_config_generator.py:111-118 | for a VRF interface on a single link to a CE, when no earlier pair link of the PE has a CE on it, the generator's `(ip, as)` equals the config variant's address and its AS as written |
| Lines.RenderSplits | src/network_config_generator.py:213 | the rendered configuration splits back at newlines into one text per line |
| Lines.VrfOf | src/network_config_generator.py:195 | an interface's VRF is the first declared VRF listing it; it has none exactly when no VRF lists it |
| Lines.VrfStanzas | src/network_config_generator.py:186-191 | the VRF section has a stanza for every VRF and names no other |
| Lines.Footer | src/config.py:277-288 | the footer is eight lines ending in `end` |
| Lines.OspfBlock | src/config.py:121-130 | the OSPF block is four lines: `router ospf 1`, the router-id, `mpls ldp autoconfig` and `!` |
| Lines.VrfBlocks | src/network_config_generator.py:140-148 | five lines per VRF |
| Lines.VrfBlockAt | src/network_config_generator.py:140-148 | block *k* of the VRF part is `!`, the VRF's address family, the CE's `remote-as` and `activate`, and `exit-address-family` |
| Lines.MpbgpLayout | src/network_config_generator.py:121-150 | an MP-BGP section with *P* peers and *V* VRFs has `6 + 4P + 5V` lines |
| Lines.MpbgpEnds | src/network_config_generator.py:122-138 | the section opens with `router bgp` and the router-id, opens the vpnv4 family after the iBGP lines, closes it after its own neighbour lines, and ends with `!` |
| Lines.MpbgpPeerAt | src/network_config_generator.py:126-137 | peer *k* has its `remote-as` and `update-source` lines at *2+2k* and *3+2k*, and its `activate` and `send-community` lines at the same offsets inside the vpnv4 family |
| Lines.MpbgpVrfAt | src/network_config_generator.py:140-148 | block *k* of the VRF part is the *k*-th VRF's CE session, so the VRF blocks follow the declared VRF order |
| Lines.MpbgpProcess | src/network_config_generator.py:123 | the section declares exactly one BGP process, the router's own AS |
| Lines.MpbgpPeerIn | src/network_config_generator.py:126-137 | every peer appears with all four of its neighbour lines |
| Lines.MpbgpShape | src/network_config_generator.py:126-138 | with *P* peers there are exactly *2P* neighbour lines before `address-family vpnv4` and *2P* inside it |
| Lines.MpbgpKinds | src/network_config_generator.py:121-150 | every line of an MP-BGP section is a BGP line |
| Lines.CeBgpNetworkIn | src/network_config_generator.py:167-170 | a `network` line appears exactly for the announced networks |
| Lines.CeBgpProcess | src/network_config_generator.py:163 | the CE block declares exactly one BGP process, the CE's own AS |
| GenEmit.GenHeader | src/network_config_generator.py:179-183 | the generator's header is fourteen lines carrying the timestamp and `hostname <name>` |
| GenEmit.GenIfaceStanza | src/network_config_generator.py:83-108 | an interface stanza opens with `interface <name>` and ends with `!` |
| GenEmit.GenIfaceStanzaSays | src/network_config_generator.py:87-105 | `ip vrf forwarding` appears exactly for a named VRF; the area line exactly for an internal or `Loopback0` interface outside `ce_test` and VRFs; a cost line only with the area line; `negotiation auto` exactly for names containing `GigabitEthernet` |
| GenEmit.GenIfaceStanzaAddr | src/network_config_generator.py:92-93 | the stanza carries an address line exactly when the interface has an address, and it is that address and mask |
| GenEmit.GenIfaceStanzaName | src/network_config_generator.py:85 | the only interface a stanza names is its own |
| GenEmit.GenIfaceStanzaKinds | src/network_config_generator.py:83-108 | a stanza holds interface lines only |
| GenEmit.GenIfacesNames | src/network_config_generator.py:194-196 | the interface section names exactly the router's interfaces |
| GenEmit.GenIfaces | src/network_config_generator.py:194-196 | the interface section holds interface lines only |
| GenEmit.GenVrfPeer | src/network_config_generator.py:141 | a VRF session fails exactly when the VRF lists no interface |
| GenEmit.GenVrfPeers | src/network_config_generator.py:140-148 | the VRF sessions succeed exactly when every VRF lists an interface, one session per VRF in order |
| GenEmit.GenMpbgpFails | src/network_config_generator.py:121-150 | MP-BGP fails exactly when the PE or another PE lacks a loopback address, or a VRF lists no interface; the PE's own missing loopback is reported first |
| GenEmit.GenPeerTextsFail | src/network_config_generator.py:128 | reading the peers' loopbacks fails exactly when some other PE lacks a loopback address |
| GenEmit.GenMpbgpSplit | src/network_config_generator.py:121-150 | the MP-BGP section is the layout built from the PE's AS and router-id, the other PEs' loopbacks and one session per VRF in declared order |
| GenEmit.GenMpbgp | src/network_config_generator.py:121-150 | MP-BGP writes BGP lines only |
| GenEmit.GenMpbgpShape | src/network_config_generator.py:126-138 | for a PE with *M* other PEs: `6 + 4M + 5V` lines, with exactly *2M* neighbour lines before `address-family vpnv4` and *2M* inside it |
| GenEmit.GenMpbgpPeer | src/network_config_generator.py:122-137 | the section opens with the PE's AS and loopback, and each other PE appears with all four neighbour lines at its loopback address |
| GenEmit.GenPeIp | src/network_config_generator.py:155-162 | the CE's neighbour address is that of the upstream PE endpoint, or `0.0.0.0` when there is none |
| GenEmit.NetPairsIn | src/network_config_generator.py:167-170 | a network and mask pair is announced exactly when some address gives it |
| GenEmit.GenCeBgp | src/network_config_generator.py:153-173 | the CE eBGP block holds BGP lines only |
| GenEmit.GenCeBgpHead | src/network_config_generator.py:163 | the CE block runs its own AS and peers the upstream PE address with the backbone AS as remote-as |
| GenEmit.GenCeBgpNetworks | src/network_config_generator.py:167-170 | a `network` line is written exactly for the network and mask of an addressed interface of the CE |
| GenEmit.GenOspf | src/network_config_generator.py:199-201 | the OSPF block appears exactly for PE and P routers |
| GenEmit.GenBgp | src/network_config_generator.py:204-207 | the BGP part holds BGP lines only |
| GenEmit.GenVrfs | src/network_config_generator.py:186-191 | the VRF section holds VRF lines only |
| GenEmit.GenVrfsSay | src/network_config_generator.py:186-191 | `ip vrf <x>` is written exactly for the VRFs of a PE |
| GenEmit.GenBgpProcess | src/network_config_generator.py:204-207 | a PE or CE configuration declares one BGP process, its own AS, and a P router none |
| GenEmit.GenRouterConfig | src/network_config_generator.py:176-213 | the text contains `hostname <name>` and ends with `end`; rendering fails exactly when assembling the lines fails, with the same error |
| GenEmit.GenRouterSplit | src/network_config_generator.py:176-213 | a configuration is header, VRFs, interfaces, OSPF, BGP and footer, in that order |
| GenEmit.GenRouterFails | src/network_config_generator.py:176-207 | a router's configuration fails for an unknown hostname, a PE or P without a loopback address, and a PE whose peers lack loopbacks or whose VRF lists no interface |
| GenEmit.GenRouterSections | src/network_config_generator.py:176-213 | the six sections hold only their own kind of line; `hostname` sits in the header; VRFs appear only for PEs; `router ospf 1` appears exactly for PE and P; `end` closes the footer |
| GenEmit.GenRouterLines | src/network_config_generator.py:176-212 | an unknown hostname is refused; a configuration has the hostname on line 10 and `end` as its last line |
| GenEmit.GenConfigs | src/network_config_generator.py:217 | one configuration per router, in router order, succeeding exactly when every router's does |
| GenEmit.GenAllConfigsSpec | src/network_config_generator.py:216-217 | the configuration dict has the routers as keys in order, each mapped to its own configuration, and succeeds exactly when every router's does |
| GenEmit.GenAllConfigs | src/network_config_generator.py:216-217 | the configuration dict has the routers' names as keys, in dict order |
| GenEmit.RecapHead | src/network_config_generator.py:224-229 | each link's recap opens on a new line |
| GenEmit.RecapBlock | src/network_config_generator.py:222-232 | a link's recap is its subnet line followed by one line per endpoint, and fails on a link without endpoints |
| GenEmit.RecapBlocks | src/network_config_generator.py:222-232 | one recap block per link, in order, succeeding exactly when no link is empty |
| GenEmit.GenRecap | src/network_config_generator.py:220-235 | the recap fails exactly when some link has no endpoints |
| GenEmit.GenRecapFails | src/network_config_generator.py:224 | the recap fails at the first link without endpoints |
| GenEmit.GenRecapEmpty | src/network_config_generator.py:235 | the recap is `No network links defined.` exactly when there are no links |
| GenEmit.GenRecapLists | src/network_config_generator.py:222-232 | every link's subnet and every endpoint appear in the recap |
| CfgEmit.CfgHeader | src/config.py:79-95 | the config variant's header is twelve lines carrying the timestamp and `hostname <name>` |
| CfgEmit.CfgIfaceStanza | src/config.py:16-34 | an interface stanza opens with `interface <name>` and ends with `!` |
| CfgEmit.CfgIfaceStanzaSays | src/config.py:22-33 | `ip vrf forwarding` appears exactly for a VRF interface; the area line exactly for internal or `Loopback0` interfaces of PEs and Ps; no cost line ever; `negotiation auto` exactly for names containing `GigabitEthernet` |
| CfgEmit.CfgIfaceStanzaAddr | src/config.py:25-26 | the stanza carries an address line exactly when the interface has an address, and it is that address and mask |
| CfgEmit.CfgIfaceStanzaName | src/config.py:22 | the only interface a stanza names is its own |
| CfgEmit.CfgIfaceStanzaKinds | src/config.py:16-34 | a stanza holds interface lines only |
| CfgEmit.CfgIfacesNames | src/config.py:110-119 | the interface section names exactly the router's interfaces |
| CfgEmit.CfgIfaces | src/config.py:110-119 | the interface section holds interface lines only |
| CfgEmit.CfgOspf | src/config.py:70-71 | the OSPF block appears exactly for PE and P routers, four lines with the router-id second |
| CfgEmit.CfgVrfPeer | src/config.py:189-200 | a VRF session fails exactly when the VRF lists no interface |
| CfgEmit.CfgVrfPeers | src/config.py:189-200 | the VRF sessions succeed exactly when every VRF lists an interface, one session per VRF in order |
| CfgEmit.CfgPeerTextsFail | src/config.py:172 | reading the peers' loopbacks fails exactly when some other PE has no `Loopback0` |
| CfgEmit.CfgMpbgpFails | src/config.py:162-203 | MP-BGP fails exactly when the PE or another PE has no `Loopback0`, or a VRF lists no interface; the PE's own missing loopback is reported first |
| CfgEmit.CfgMpbgpSplit | src/config.py:162-203 | the MP-BGP section is the layout built from the PE's AS and router-id, the other PEs' loopbacks and one session per VRF in declared order |
| CfgEmit.CfgVrfPeersShareAs | src/config.py:189-200 | as written, every VRF session of a PE carries the same remote AS, the one `_get_ce_as` finds, while its address is that of its own VRF's neighbour |
| CfgEmit.CfgMpbgp | src/config.py:162-203 | MP-BGP writes BGP lines only |
| CfgEmit.CfgMpbgpShape | src/config.py:169-186 | for a PE with *M* other PEs: `6 + 4M + 5V` lines, with exactly *2M* neighbour lines before `address-family vpnv4` and *2M* inside it |
| CfgEmit.CfgMpbgpPeer | src/config.py:164-184 | the section opens with the PE's AS and loopback, and each other PE appears with all four neighbour lines at its loopback address |
| CfgEmit.UpstreamAddressed | src/config.py:244-247 | the PE interface the CE block reads has an address once the model is built |
| CfgEmit.CfgPeIp | src/config.py:234-252 | the CE's neighbour address is that of the first upstream endpoint, or `0.0.0.0` when there is none |
| CfgEmit.CfgNetworkAgree | src/config.py:264-269 | the octet-wise network the config variant computes from its own address and mask text is the true network address |
| CfgEmit.CfgNetwork | src/config.py:264-269 | text that does not read as four numbers has no network; otherwise the network text reads back as the octet-wise AND of the address and mask numbers |
| CfgEmit.AddrTextParses | src/config.py:264 | a rendered address reads back as its four octets |
| CfgEmit.CfgNetPair | src/config.py:268-272 | each announced network and mask equals the generator's `ipaddress` computation |
| CfgEmit.CfgNetPairs | src/config.py:261-272 | the config variant's network lines are the generator's, address for address |
| CfgEmit.CfgCeBgp | src/config.py:229-275 | the CE eBGP block holds BGP lines only |
| CfgEmit.CfgCeBgpHead | src/config.py:254-257 | the CE block runs its own AS and peers the upstream PE address with the backbone AS as remote-as |
| CfgEmit.CfgCeBgpNetworks | src/config.py:261-272 | a `network` line is written exactly for the network and mask of an addressed interface of the CE |
| CfgEmit.CeBgpAgree | src/config.py:229-275 | when both variants find the same upstream PE endpoint, they write the same CE eBGP block |
| CfgEmit.CfgBgp | src/config.py:72-75 | the BGP part holds BGP lines only |
| CfgEmit.CfgRouterConfig | src/config.py:375-378 | the text contains `hostname <name>` and ends with `end`; rendering fails exactly when assembling the lines fails, with the same error |
| CfgEmit.CfgRouterFails | src/config.py:66-77 | a router's configuration fails for an unknown hostname, and for a PE without a `Loopback0`, with a peer without one, or with a VRF listing no interface; P and CE routers never fail |
| CfgEmit.CfgBgpProcess | src/config.py:72-75 | a PE or CE configuration declares one BGP process, its own AS, and a P router none |
| CfgEmit.CfgRouterSections | src/config.py:66-77 | the six sections hold only their own kind of line; `hostname` sits in the header; VRFs appear only for PEs; `router ospf 1` appears exactly for PE and P; `end` closes the footer |
| CfgEmit.CfgRouterLines | src/config.py:66-108 | an unknown hostname is refused; a configuration has the hostname on line 8 and `end` as its last line |
| CfgEmit.CfgConfigs | src/config.py:381 | one configuration per router, in router order, succeeding exactly when every router's does |
| CfgEmit.CfgAllConfigsSpec | src/config.py:380-381 | the configuration dict has the routers as keys in order, each mapped to its own configuration, and succeeds exactly when every router's does |
| CfgEmit.CfgAllConfigs | src/config.py:380-381 | the configuration dict has the routers' names as keys, in dict order |
| CfgEmit.RecapIfacesIn | src/config.py:387-388 | a line is in a router's interface recap exactly when it is the line of one of its interfaces, with its name, address and mask |
| CfgEmit.RecapIfaces | src/config.py:387-388 | a router's interface recap has exactly one line per interface |
| CfgEmit.RecapIfacesOrder | src/config.py:387-388 | the interface lines follow the interface names in sorted order, each name once |
| CfgEmit.RecapRouterBlock | src/config.py:386 | a router's recap block opens with its name and kind |
| CfgEmit.RecapRouterBlocks | src/config.py:385-388 | the routers are listed in sorted hostname order, each exactly once, each followed by its block |
| CfgEmit.CfgRecapEmpty | src/config.py:389 | the recap is empty exactly when there are no routers |
| CfgEmit.CfgRecap | src/config.py:383-389 | the heading of every router occurs in the recap text |
| CfgEmit.CfgRecapLists | src/config.py:383-389 | every router and every interface of it appear in the recap |

## Left out

* `datetime.now` is not modelled. The timestamp of the header line is the
  parameter `now`, one value for all routers.
* The generator's debug `print(iface)` (`src/network_config_generator.py:84`)
  is output to the console only and is left out.
* The GUI (`src/main.py`), the GNS3 project writer (`src/gns3_manager.py`,
  `src/gns3_project.py`) and the test script are not part of this model.
  They do file I/O and windowing only.
* JSON loading and schema validation of the intent are left out. The model
  starts from an in-memory `Intent`.
* Python `ipaddress` edge cases are excluded by the precondition
  `Topology.WellFormed`:
  * strictly parsed blocks only;
  * no /31 or /32 loopback ranges;
  * no physical range longer than /24.

  A CE's private network must be aligned, as `IPv4Network` requires.
  `hosts()` and `subnets(new_prefix=24)` are modelled as indexed cursors
  (`AddressPool.HostAt`, `AddressPool.SubnetAt`).
* Only the behaviour of the intent fields the core reads is modelled.
  Unknown fields are not represented. In particular, an intent interface
  that itself carries `ip`, `mask`, `internal`, `mpls` or `ce_test` keys is
  outside the modelled intent: the generator copies every key with
  `dict(i)` (`src/network_config_generator.py:42`), so such keys would
  reach the interface stanza, while the model starts every interface
  unaddressed with those flags clear.
* Text.ParseNat: Python's `int()` also accepts a sign, surrounding
  whitespace, `_` separators and non-ASCII decimal digits. Those inputs are
  not modelled, because the config variant only parses the dotted address
  texts it wrote itself (`CfgEmit.AddrTextParses`).
* The config variant's branches for `mpls_config` being unset are left out,
  because no built model reaches them. They are the `0.0.0.0` and `0`
  fallbacks and the `! Error: mpls_config not set` line. Every router's AS
  object gets `mpls_config` during construction (`src/config.py:311-331`).
* Also unreachable in the config variant: the `pe_ip is None` fallback once
  an upstream link is found, and a PE with an empty `pe_routers`, since the
  dict always contains the PE itself. So MP-BGP is always written for a PE.
* The VRF stanzas are produced by the shared `GenEmit.GenVrfs` for both
  variants. The config variant writes them inside `_generate_header`
  (`src/config.py:97-106`), directly after the same header lines, so the
  output is the same.
* GenEmit.GenMpbgpShape and CfgEmit.CfgMpbgpShape state the counts and
  positions of the iBGP and vpnv4 neighbour lines, but not the order of the
  VRF blocks. That order is stated at the layout level by
  `Lines.MpbgpVrfAt`, together with the `...MpbgpSplit` lemmas, which show
  that the section is the layout of the VRF sessions in declared order.
* CfgEmit.CfgVrfPeer: the config variant's MP-BGP sessions follow the
  code as written, with the AS of `Peers.CfgCeAsWritten`. The corrected,
  VRF-aware AS is `Peers.CfgCeAs`. It is stated and proved
  (`Peers.CfgVrfSession`), but the emitter does not use it.

## Findings

| source | as written | input that shows it | evidently intended | confidence | as-written member | corrected member |
|---|---|---|---|---|---|---|
| src/config.py:205-227 | `_get_ce_as(vrf)` never reads `vrf`. It returns the AS of the CE on the first two-endpoint link of the PE, whichever interface that link uses | A PE `pe` linked by `g1` to `ce1` (AS 100) and by `g2` to `ce2` (AS 200), with a VRF on `g2`: the VRF's session gets `remote-as 100` while its neighbour address is `ce2`'s | The remote AS of the CE behind the VRF's interface, the router whose address `_get_ce_ip` returns (AS 200 here) | not executed | Peers.CeAsWrittenIgnoresVrf | Peers.CfgVrfSession |
