/** The config variant's emitters (`Router.generate_config_lines` and the
    `MPLSConfig` entry points): the configuration of one router, of every
    router, and the recap of the addresses, read off the model `CfgBuild`
    produces. */
module CfgEmit {
  import opened Wrappers
  import opened Seqs
  import opened Dict
  import opened Text
  import opened IPv4
  import opened Topology
  import opened Physical
  import opened Loopback
  import opened Build
  import opened Lines
  import opened Peers
  import opened GenEmit
  import opened Sorting

  // ------------------------------------------------------------ header

  /** The twelve opening lines, with the timestamp `now`. */
  function CfgHeader(name: string, now: string): (ls: seq<Line>)
    ensures |ls| == 12 && ls[1] == LastChange(now) && ls[7] == Hostname(name)
    ensures forall l :: l in ls ==> HeaderLine(l)
  {
    [Bang, LastChange(now), Bang, Fixed(Version), Fixed(ServiceDebug), Fixed(ServiceLog),
     Bang, Hostname(name), Bang, Fixed(NoAaa), Fixed(IpCef), Bang]
  }

  // -------------------------------------------------------- interfaces

  /** The VRF an interface forwards in: any VRF found, whatever its name. */
  function CfgVrfName(vrf: Option<Vrf>): (r: Option<string>)
    ensures r.Some? <==> vrf.Some?
    ensures r.Some? ==> r.value == vrf.value.name
  {
    if vrf.Some? then Some(vrf.value.name) else None
  }

  /** The OSPF area, the router's AS number, on the internal interfaces and
      `Loopback0` of PE and P routers. */
  function CfgArea(name: string, f: Iface, kind: RouterKind, asn: Option<nat>): (r: Option<string>)
    ensures r.Some? <==> kind != CE && (f.internal || name == Loopback0)
    ensures r.Some? ==> r.value == OptNatText(asn)
  {
    if kind != CE && (f.internal || name == Loopback0) then Some(OptNatText(asn)) else None
  }

  /** `Interface.generate_config(router_type=..., as_obj=..., associated_vrf=...)`. */
  function CfgIfaceStanza(name: string, f: Iface, kind: RouterKind, asn: Option<nat>, vrf: Option<Vrf>): (ls: seq<Line>)
    ensures |ls| >= 2 && ls[0] == Interface(name) && ls[|ls| - 1] == Bang
  {
    IfaceStanza(name, CfgVrfName(vrf), GenAddr(f), CfgArea(name, f, kind, asn), None, Contains(name, "GigabitEthernet"))
  }

  /** What the config variant configures on an interface: the VRF it is in,
      the AS number as OSPF area on the internal interfaces and `Loopback0`
      of PE and P routers, VRF or not, never a cost, auto-negotiation on
      GigabitEthernet ports. */
  lemma CfgIfaceStanzaSays(name: string, f: Iface, kind: RouterKind, asn: Option<nat>, vrf: Option<Vrf>, x: string)
    ensures VrfForwarding(x) in CfgIfaceStanza(name, f, kind, asn, vrf) <==> vrf.Some? && vrf.value.name == x
    ensures OspfArea(x) in CfgIfaceStanza(name, f, kind, asn, vrf) <==>
      x == OptNatText(asn) && kind != CE && (f.internal || name == Loopback0)
    ensures OspfCost(x) !in CfgIfaceStanza(name, f, kind, asn, vrf)
    ensures Negotiation in CfgIfaceStanza(name, f, kind, asn, vrf) <==> Contains(name, "GigabitEthernet")
  {
    var vn, addr, area := CfgVrfName(vrf), GenAddr(f), CfgArea(name, f, kind, asn);
    var neg := Contains(name, "GigabitEthernet");
    IfaceStanzaVrf(name, vn, addr, area, None, neg, x);
    IfaceStanzaArea(name, vn, addr, area, None, neg, x);
    IfaceStanzaCost(name, vn, addr, area, None, neg, x);
    IfaceStanzaNegotiates(name, vn, addr, area, None, neg);
  }

  /** The stanza carries the interface's address and mask, and no other. */
  lemma CfgIfaceStanzaAddr(name: string, f: Iface, kind: RouterKind, asn: Option<nat>, vrf: Option<Vrf>, l: Line)
    requires l.IpAddress?
    ensures l in CfgIfaceStanza(name, f, kind, asn, vrf) <==> f.addr.Some? && l == AddrLine(f.addr.value)
  {
    IfaceStanzaAddr(name, CfgVrfName(vrf), GenAddr(f), CfgArea(name, f, kind, asn), None,
      Contains(name, "GigabitEthernet"), l);
  }

  lemma CfgIfaceStanzaName(name: string, f: Iface, kind: RouterKind, asn: Option<nat>, vrf: Option<Vrf>, x: string)
    ensures Interface(x) in CfgIfaceStanza(name, f, kind, asn, vrf) <==> x == name
  {
    IfaceStanzaName(name, CfgVrfName(vrf), GenAddr(f), CfgArea(name, f, kind, asn), None,
      Contains(name, "GigabitEthernet"), x);
  }

  lemma CfgIfaceStanzaKinds(name: string, f: Iface, kind: RouterKind, asn: Option<nat>, vrf: Option<Vrf>)
    ensures forall l :: l in CfgIfaceStanza(name, f, kind, asn, vrf) ==> IfaceLine(l)
  {
    IfaceStanzaKinds(name, CfgVrfName(vrf), GenAddr(f), CfgArea(name, f, kind, asn), None,
      Contains(name, "GigabitEthernet"));
  }

  /** The stanza of each of a router's interfaces, in dict order, each
      with the first VRF that lists it. */
  function CfgStanzas(rt: Router): (xss: seq<seq<Line>>)
    requires Valid(rt.ifaces)
    ensures |xss| == |rt.ifaces.keys|
    ensures forall i :: 0 <= i < |xss| ==>
      (xss[i] == CfgIfaceStanza(rt.ifaces.keys[i], rt.ifaces.m[rt.ifaces.keys[i]], rt.kind, rt.asn, VrfOf(rt.vrfs, rt.ifaces.keys[i])))
  {
    var keys := rt.ifaces.keys;
    seq(|keys|, i requires 0 <= i < |keys| =>
      CfgIfaceStanza(keys[i], rt.ifaces.m[keys[i]], rt.kind, rt.asn, VrfOf(rt.vrfs, keys[i])))
  }

  /** `_generate_interfaces()`: the stanzas one after another; the part
      holds interface lines only. */
  function CfgIfaces(rt: Router): (ls: seq<Line>)
    requires Valid(rt.ifaces)
    ensures forall l :: l in ls ==> IfaceLine(l)
  {
    var keys := rt.ifaces.keys;
    var xss := CfgStanzas(rt);
    assert forall i :: 0 <= i < |xss| ==> forall l :: l in xss[i] ==> IfaceLine(l) by {
      forall i | 0 <= i < |xss| ensures forall l :: l in xss[i] ==> IfaceLine(l) {
        CfgIfaceStanzaKinds(keys[i], rt.ifaces.m[keys[i]], rt.kind, rt.asn, VrfOf(rt.vrfs, keys[i]));
      }
    }
    Concat(xss)
  }

  /** The interface part opens one stanza for every interface of the
      router and for nothing else. */
  lemma CfgIfacesNames(rt: Router, x: string)
    requires Valid(rt.ifaces)
    ensures Interface(x) in CfgIfaces(rt) <==> x in rt.ifaces.m
  {
    var keys := rt.ifaces.keys;
    var xss := CfgStanzas(rt);
    forall i | 0 <= i < |keys| ensures Interface(x) in xss[i] <==> x == keys[i] {
      CfgIfaceStanzaName(keys[i], rt.ifaces.m[keys[i]], rt.kind, rt.asn, VrfOf(rt.vrfs, keys[i]), x);
    }
  }

  // ---------------------------------------------------------------- OSPF

  /** The OSPF router id: `Loopback0`'s address, `0.0.0.0` when the router
      has no such interface or it has no address. */
  function CfgOspfId(rt: Router): (id: string)
    ensures Loopback0 in rt.ifaces.m && rt.ifaces.m[Loopback0].addr.Some? ==>
      id == AddrText(rt.ifaces.m[Loopback0].addr.value.ip)
    ensures !(Loopback0 in rt.ifaces.m && rt.ifaces.m[Loopback0].addr.Some?) ==> id == "0.0.0.0"
  {
    if Loopback0 in rt.ifaces.m && rt.ifaces.m[Loopback0].addr.Some? then AddrText(rt.ifaces.m[Loopback0].addr.value.ip)
    else "0.0.0.0"
  }

  /** `_generate_ospf()`, on PE and P routers only; it never fails. */
  function CfgOspf(rt: Router): (ls: seq<Line>)
    ensures forall l :: l in ls ==> OspfLine(l)
    ensures RouterOspf in ls <==> rt.kind != CE
    ensures rt.kind != CE ==> |ls| == 4 && ls[1] == OspfRouterId(CfgOspfId(rt))
  {
    if rt.kind != CE then OspfBlock(CfgOspfId(rt)) else []
  }

  // ------------------------------------------------------------- MP-BGP

  /** The CE session of one VRF: the neighbour across the link of the
      VRF's first interface, with the AS `_get_ce_as` finds, which is the
      AS of the CE on the PE's first CE-bearing pair link whatever the VRF.
      A VRF without interfaces stops the configuration (`IndexError`). */
  function CfgVrfPeer(m: Model, pe: string, vrf: Vrf): (r: Result<VrfPeer, Error>)
    requires Resolved(m.routers, m.links)
    ensures r.Failure? <==> |vrf.interfaces| == 0
    ensures r.Failure? ==> r.error == NoVrfInterface(vrf.name)
  {
    if |vrf.interfaces| == 0 then Failure(NoVrfInterface(vrf.name))
    else
      var a := vrf.interfaces[0];
      Success(VrfPeer(vrf.name, CfgCeIp(m.routers, m.links, pe, a), CfgCeAsWritten(m.routers, m.links, pe)))
  }

  function CfgVrfPeers(m: Model, pe: string, vrfs: seq<Vrf>): (r: Result<seq<VrfPeer>, Error>)
    requires Resolved(m.routers, m.links)
    ensures r.Success? <==> forall k :: 0 <= k < |vrfs| ==> |vrfs[k].interfaces| > 0
    ensures r.Success? ==> |r.value| == |vrfs|
    ensures r.Success? ==> forall k :: 0 <= k < |vrfs| ==> r.value[k] == CfgVrfPeer(m, pe, vrfs[k]).value
  {
    var xs := seq(|vrfs|, k requires 0 <= k < |vrfs| => CfgVrfPeer(m, pe, vrfs[k]));
    assert forall k :: 0 <= k < |vrfs| ==> xs[k] == CfgVrfPeer(m, pe, vrfs[k]);
    Collect(xs, 0)
  }

  /** Every VRF session of a PE carries the same remote AS, the one
      `_get_ce_as` finds for the PE, and each reads its neighbour address
      through the first interface of its own VRF. */
  lemma CfgVrfPeersShareAs(m: Model, pe: string, vrfs: seq<Vrf>, vps: seq<VrfPeer>, j: nat, k: nat)
    requires Resolved(m.routers, m.links) && CfgVrfPeers(m, pe, vrfs) == Success(vps)
    requires j < |vrfs| && k < |vrfs|
    ensures j < |vps| && k < |vps| && vps[j].asn == vps[k].asn == CfgCeAsWritten(m.routers, m.links, pe)
    ensures vps[k].vrf == vrfs[k].name && vps[k].ip == CfgCeIp(m.routers, m.links, pe, vrfs[k].interfaces[0])
  {
  }

  /** `_generate_mpbgp(pe_routers)`: `Loopback0`'s address as router id,
      the other PEs' `Loopback0` addresses as iBGP and vpnv4 peers, one
      session per VRF. The section holds nothing but BGP lines. */
  function CfgMpbgp(m: Model, pe: string): (r: Result<seq<Line>, Error>)
    requires Built(m) && pe in m.routers.m
    ensures r.Success? ==> forall l :: l in r.value ==> BgpLine(l)
  {
    var rs := m.routers;
    var rid :- LoopText(Config, rs, pe);
    var peers :- PeerTexts(Config, rs, PePeers(rs, pe));
    var vps :- CfgVrfPeers(m, pe, rs.m[pe].vrfs);
    MpbgpKinds(OptNatText(rs.m[pe].asn), rid, peers, vps);
    Success(MpbgpLayout(OptNatText(rs.m[pe].asn), rid, peers, vps))
  }

  /** Some other PE has no `Loopback0` interface. */
  lemma CfgPeerTextsFail(rs: Routers, pe: string)
    requires Valid(rs)
    ensures PeerTexts(Config, rs, PePeers(rs, pe)).Failure? <==>
      exists n :: IsPeer(rs, pe, n) && Lookup(rs, Endpoint(n, Loopback0)).None?
  {
    var peers := PePeers(rs, pe);
    if PeerTexts(Config, rs, peers).Failure? {
      var k :| 0 <= k < |peers| && LoopText(Config, rs, peers[k]).Failure?;
      assert IsPeer(rs, pe, peers[k]);
    }
    if n :| IsPeer(rs, pe, n) && Lookup(rs, Endpoint(n, Loopback0)).None? {
      assert n in peers;
    }
  }

  /** The MP-BGP section fails exactly when the PE itself or some other
      PE has no `Loopback0` interface, or some VRF has no interface; the
      PE's own interface is read first. A `Loopback0` without an address
      does not fail: its address prints as `None`. */
  lemma CfgMpbgpFails(m: Model, pe: string)
    requires Built(m) && pe in m.routers.m
    ensures CfgMpbgp(m, pe).Failure? <==>
      || Lookup(m.routers, Endpoint(pe, Loopback0)).None?
      || (exists n :: IsPeer(m.routers, pe, n) && Lookup(m.routers, Endpoint(n, Loopback0)).None?)
      || (exists k :: 0 <= k < |m.routers.m[pe].vrfs| && |m.routers.m[pe].vrfs[k].interfaces| == 0)
    ensures Lookup(m.routers, Endpoint(pe, Loopback0)).None? ==> CfgMpbgp(m, pe) == Failure(MissingLoopback(pe))
  {
    CfgPeerTextsFail(m.routers, pe);
  }

  /** The pieces a successful MP-BGP section is laid out from. */
  lemma CfgMpbgpSplit(m: Model, pe: string, ls: seq<Line>) returns (rid: string, peers: seq<string>, vps: seq<VrfPeer>)
    requires Built(m) && pe in m.routers.m && CfgMpbgp(m, pe) == Success(ls)
    ensures LoopText(Config, m.routers, pe) == Success(rid)
    ensures PeerTexts(Config, m.routers, PePeers(m.routers, pe)) == Success(peers)
    ensures CfgVrfPeers(m, pe, m.routers.m[pe].vrfs) == Success(vps)
    ensures ls == MpbgpLayout(OptNatText(m.routers.m[pe].asn), rid, peers, vps)
  {
    rid := LoopText(Config, m.routers, pe).value;
    peers := PeerTexts(Config, m.routers, PePeers(m.routers, pe)).value;
    vps := CfgVrfPeers(m, pe, m.routers.m[pe].vrfs).value;
  }

  /** With `M` other PEs, a successful MP-BGP section has `2M` neighbour
      lines before the vpnv4 family, `2M` inside it, and five lines per VRF
      after it. */
  lemma CfgMpbgpShape(m: Model, pe: string, ls: seq<Line>) returns (M: nat)
    requires Built(m) && pe in m.routers.m && CfgMpbgp(m, pe) == Success(ls)
    ensures M == |PePeers(m.routers, pe)|
    ensures |ls| == 6 + 4 * M + 5 * |m.routers.m[pe].vrfs|
    ensures IbgpRun(ls, M) && Vpnv4Run(ls, M)
  {
    var rid, peers, vps := CfgMpbgpSplit(m, pe, ls);
    M := |peers|;
    MpbgpShape(OptNatText(m.routers.m[pe].asn), rid, peers, vps);
  }

  /** A successful MP-BGP section opens the process in the PE's AS with
      its `Loopback0` address as router id, and gives every other PE an
      iBGP session and a vpnv4 activation on that PE's `Loopback0` address. */
  lemma CfgMpbgpPeer(m: Model, pe: string, ls: seq<Line>, n: string)
    requires Built(m) && pe in m.routers.m && CfgMpbgp(m, pe) == Success(ls)
    requires IsPeer(m.routers, pe, n)
    ensures Lookup(m.routers, Endpoint(pe, Loopback0)).Some? && Lookup(m.routers, Endpoint(n, Loopback0)).Some?
    ensures ls[0] == RouterBgp(OptNatText(m.routers.m[pe].asn))
    ensures ls[1] == BgpRouterId(IpText(Lookup(m.routers, Endpoint(pe, Loopback0)).value))
    ensures var ip := IpText(Lookup(m.routers, Endpoint(n, Loopback0)).value); var asn := OptNatText(m.routers.m[pe].asn);
      && Neighbor(false, ip, RemoteAs(asn)) in ls && Neighbor(false, ip, UpdateSource) in ls
      && Neighbor(true, ip, Activate) in ls && Neighbor(true, ip, SendCommunity) in ls
  {
    var rid, peers, vps := CfgMpbgpSplit(m, pe, ls);
    var names := PePeers(m.routers, pe);
    var k :| 0 <= k < |names| && names[k] == n;
    MpbgpEnds(OptNatText(m.routers.m[pe].asn), rid, peers, vps);
    MpbgpPeerIn(OptNatText(m.routers.m[pe].asn), rid, peers, vps, k);
  }

  // ------------------------------------------------------------- CE BGP

  /** The endpoint the CE peers with lies on a link, so it is addressed. */
  lemma UpstreamAddressed(m: Model, ce: string)
    requires Resolved(m.routers, m.links) && CfgUpstream(m.links, ce).Some?
    ensures Addressed(m.routers, CfgUpstream(m.links, ce).value)
  {
    var ep := CfgUpstream(m.links, ce).value;
    var l :| 0 <= l < |m.links| && PairTouches(m.links[l], ce) && ep == Across(m.links[l], ce);
    assert ep == m.links[l][0] || ep == m.links[l][1];
  }

  /** The address the CE peers with: that of the endpoint across its first
      two-endpoint link, `0.0.0.0` when it is on none. */
  function CfgPeIp(m: Model, ce: string): (ip: string)
    requires Resolved(m.routers, m.links)
    ensures CfgUpstream(m.links, ce).None? ==> ip == "0.0.0.0"
    ensures CfgUpstream(m.links, ce).Some? ==>
      exists a :: Lookup(m.routers, CfgUpstream(m.links, ce).value) == Some(a) && a.addr.Some?
        && ip == AddrText(a.addr.value.ip)
  {
    match CfgUpstream(m.links, ce)
    case None => "0.0.0.0"
    case Some(ep) =>
      UpstreamAddressed(m, ce);
      AddrText(Lookup(m.routers, ep).value.addr.value.ip)
  }

  /** The network address as `_generate_ce_bgp` computes it from the
      address and mask texts: both split at the dots, read as numbers and
      ANDed octet by octet. Text that does not read as four numbers has no
      network (`ValueError` or `IndexError`). The network text reads back
      as the AND of the first four numbers of each. */
  function CfgNetwork(ip: string, mask: string): (r: Option<string>)
    ensures r.None? <==>
      || ParseDotted(ip).None? || ParseDotted(mask).None?
      || |ParseDotted(ip).value| < 4 || |ParseDotted(mask).value| < 4
    ensures r.Some? ==> ParseDotted(r.value) == Some(OctetAnd(ParseDotted(ip).value[..4], ParseDotted(mask).value[..4]))
  {
    var ips := ParseDotted(ip);
    var ms := ParseDotted(mask);
    if ips.None? || ms.None? || |ips.value| < 4 || |ms.value| < 4 then None
    else
      var net := OctetAnd(ips.value[..4], ms.value[..4]);
      DottedRoundTrip(net);
      Some(Dotted(net))
  }

  /** The octet-wise computation on the texts gives the network address the
      generator obtains from `ipaddress`. */
  lemma CfgNetworkAgree(a: IfAddr)
    ensures CfgNetwork(AddrText(a.ip), MaskText(a.prefix)) == Some(AddrText(NetworkOf(a.ip, a.prefix)))
  {
    var mask := MaskOf(a.prefix);
    AddrTextParses(a.ip);
    AddrTextParses(mask);
    OctetAndIsBitAnd(a.ip, mask);
  }

  /** An address's text reads back as its four octets. */
  lemma AddrTextParses(a: Addr)
    ensures ParseDotted(AddrText(a)) == Some(Octets(a)) && Octets(a)[..4] == Octets(a)
  {
    DottedRoundTrip(Octets(a));
  }

  /** The `network` line of an interface address, as the config variant
      writes it; it is the generator's. */
  function CfgNetPair(a: IfAddr): (r: (string, string))
    ensures r == NetPair(a)
  {
    CfgNetworkAgree(a);
    (CfgNetwork(AddrText(a.ip), MaskText(a.prefix)).value, MaskText(a.prefix))
  }

  function CfgNetPairs(addrs: seq<IfAddr>): (nets: seq<(string, string)>)
    ensures nets == NetPairs(addrs)
  {
    seq(|addrs|, k requires 0 <= k < |addrs| => CfgNetPair(addrs[k]))
  }

  /** `_generate_ce_bgp()`: the CE's own AS, the endpoint across its first
      link in the backbone AS, one `network` line per addressed interface. */
  function CfgCeBgp(m: Model, ce: string): (ls: seq<Line>)
    requires Built(m) && ce in m.routers.m
    ensures forall l :: l in ls ==> BgpLine(l)
  {
    var rt := m.routers.m[ce];
    var addrs := AddressesIn(rt.ifaces, rt.ifaces.keys);
    CeBgpLayout(OptNatText(rt.asn), CfgPeIp(m, ce), NatToString(m.backbone), CfgNetPairs(addrs))
  }

  /** The CE's BGP section runs in the CE's AS and peers, in the backbone
      AS, with the address across its first link. */
  lemma CfgCeBgpHead(m: Model, ce: string)
    requires Built(m) && ce in m.routers.m
    ensures var ls := CfgCeBgp(m, ce);
      && ls[0] == RouterBgp(OptNatText(m.routers.m[ce].asn))
      && ls[1] == Neighbor(false, CfgPeIp(m, ce), RemoteAs(NatToString(m.backbone)))
  {
  }

  /** The CE advertises the network of every addressed interface and
      nothing else. */
  lemma CfgCeBgpNetworks(m: Model, ce: string, net: string, mask: string)
    requires Built(m) && ce in m.routers.m
    ensures Network(net, mask) in CfgCeBgp(m, ce) <==> exists a :: HasAddress(m.routers.m[ce], a) && NetPair(a) == (net, mask)
  {
    var rt := m.routers.m[ce];
    var addrs := AddressesIn(rt.ifaces, rt.ifaces.keys);
    CeBgpNetworkIn(OptNatText(rt.asn), CfgPeIp(m, ce), NatToString(m.backbone), CfgNetPairs(addrs), net, mask);
    NetPairsIn(addrs, net, mask);
    forall a ensures a in addrs <==> HasAddress(rt, a) { }
  }

  /** Where both variants find the same upstream endpoint, they write the
      same BGP section for the CE. */
  lemma CeBgpAgree(m: Model, ce: string)
    requires Built(m) && ce in m.routers.m
    requires GenUpstream(m.routers, ce, m.links) == CfgUpstream(m.links, ce)
    ensures CfgCeBgp(m, ce) == GenCeBgp(m, ce)
  {
    assert CfgPeIp(m, ce) == GenPeIp(m, ce);
  }

  // ------------------------------------------------------- one router

  /** The BGP section: MP-BGP on a PE, the CE session on a CE, none on a P. */
  function CfgBgp(m: Model, name: string): (r: Result<seq<Line>, Error>)
    requires Built(m) && name in m.routers.m
    ensures r.Success? ==> forall l :: l in r.value ==> BgpLine(l)
  {
    match m.routers.m[name].kind
    case PE => CfgMpbgp(m, name)
    case CE => Success(CfgCeBgp(m, name))
    case P => Success([])
  }

  /** `generate_config(router_name)` as lines: header with the VRF
      definitions, interfaces, OSPF, BGP, footer; `now` is the timestamp
      the clock would give. An unknown router is refused; a configuration
      names its router on line 8 and ends with `end`. */
  function CfgRouterLines(m: Model, name: string, now: string): (r: Result<seq<Line>, Error>)
    requires Built(m)
    ensures name !in m.routers.m ==> r == Failure(UnknownRouter(name))
    ensures r.Success? ==> |r.value| > 12 && r.value[7] == Hostname(name) && r.value[|r.value| - 1] == End
  {
    if name !in m.routers.m then Failure(UnknownRouter(name))
    else
      var rt := m.routers.m[name];
      var bgp :- CfgBgp(m, name);
      var ls := CfgHeader(name, now) + GenVrfs(rt) + CfgIfaces(rt) + CfgOspf(rt) + bgp + Footer();
      FrameOf(ls, CfgHeader(name, now), GenVrfs(rt), CfgIfaces(rt), CfgOspf(rt), bgp, Footer());
      Success(ls)
  }

  /** `generate_config(router_name)`: the lines joined by newlines. The
      text contains `hostname <name>` and ends with `end`. */
  function CfgRouterConfig(m: Model, name: string, now: string): (r: Result<string, Error>)
    requires Built(m)
    ensures r.Failure? <==> CfgRouterLines(m, name, now).Failure?
    ensures r.Failure? ==> r.error == CfgRouterLines(m, name, now).error
    ensures r.Success? ==> Contains(r.value, "hostname " + name) && EndsWith(r.value, "end")
  {
    var ls :- CfgRouterLines(m, name, now);
    RenderHas(ls, 7);
    RenderEnds(ls);
    Success(Render(ls))
  }

  /** An unknown router is refused; a known one fails exactly when it is a
      PE and it or another PE has no `Loopback0` interface or one of its
      VRFs has no interface, its own interface being read first. */
  lemma CfgRouterFails(m: Model, name: string, now: string)
    requires Built(m)
    ensures name !in m.routers.m ==> CfgRouterLines(m, name, now) == Failure(UnknownRouter(name))
    ensures name in m.routers.m ==> var rt := m.routers.m[name];
      (CfgRouterLines(m, name, now).Failure? <==>
        (rt.kind == PE &&
          (|| Lookup(m.routers, Endpoint(name, Loopback0)).None?
           || (exists n :: IsPeer(m.routers, name, n) && Lookup(m.routers, Endpoint(n, Loopback0)).None?)
           || (exists k :: 0 <= k < |rt.vrfs| && |rt.vrfs[k].interfaces| == 0))))
    ensures name in m.routers.m && m.routers.m[name].kind == PE && Lookup(m.routers, Endpoint(name, Loopback0)).None? ==>
      CfgRouterLines(m, name, now) == Failure(MissingLoopback(name))
  {
    if name in m.routers.m && m.routers.m[name].kind == PE {
      CfgMpbgpFails(m, name);
    }
  }

  /** PE and CE routers start a BGP process in their own AS; P routers none. */
  lemma CfgBgpProcess(m: Model, name: string, bgp: seq<Line>, x: string)
    requires Built(m) && name in m.routers.m && CfgBgp(m, name) == Success(bgp)
    ensures RouterBgp(x) in bgp <==> m.routers.m[name].kind != P && x == OptNatText(m.routers.m[name].asn)
  {
    var rt := m.routers.m[name];
    if rt.kind == PE {
      var rid, peers, vps := CfgMpbgpSplit(m, name, bgp);
      MpbgpProcess(OptNatText(rt.asn), rid, peers, vps, x);
    } else if rt.kind == CE {
      var addrs := AddressesIn(rt.ifaces, rt.ifaces.keys);
      CeBgpProcess(OptNatText(rt.asn), CfgPeIp(m, name), NatToString(m.backbone), CfgNetPairs(addrs), x);
    }
  }

  /** A successful configuration, in order: the header, the VRF
      definitions, the interface stanzas, the OSPF process, the BGP
      section, the footer. The header carries the timestamp and the host
      name, the footer ends with `end`. Each section holds only its own
      kinds of line; the VRFs defined are those of a PE and none on other
      routers, every interface of the router gets a stanza and nothing else
      does, OSPF runs on PE and P routers only, BGP in the router's own AS
      on PE and CE routers only. */
  lemma CfgRouterSections(m: Model, name: string, now: string, ls: seq<Line>, x: string)
    returns (head: seq<Line>, vrfs: seq<Line>, ifaces: seq<Line>, ospf: seq<Line>, bgp: seq<Line>, foot: seq<Line>)
    requires Built(m) && CfgRouterLines(m, name, now) == Success(ls)
    ensures name in m.routers.m
    ensures ls == head + vrfs + ifaces + ospf + bgp + foot
    ensures |head| == 12 && head[1] == LastChange(now) && head[7] == Hostname(name)
    ensures |foot| == 8 && foot[7] == End
    ensures forall l :: l in head ==> HeaderLine(l)
    ensures forall l :: l in vrfs ==> VrfLine(l)
    ensures forall l :: l in ifaces ==> IfaceLine(l)
    ensures forall l :: l in ospf ==> OspfLine(l)
    ensures forall l :: l in bgp ==> BgpLine(l)
    ensures forall l :: l in foot ==> FooterLine(l)
    ensures var rt := m.routers.m[name];
      && (IpVrf(x) in vrfs <==> rt.kind == PE && exists k :: 0 <= k < |rt.vrfs| && rt.vrfs[k].name == x)
      && (Interface(x) in ifaces <==> x in rt.ifaces.m)
      && (RouterOspf in ospf <==> rt.kind != CE)
      && (RouterBgp(x) in bgp <==> rt.kind != P && x == OptNatText(rt.asn))
  {
    var rt := m.routers.m[name];
    bgp := CfgBgp(m, name).value;
    head, vrfs, ifaces, ospf, foot := CfgHeader(name, now), GenVrfs(rt), CfgIfaces(rt), CfgOspf(rt), Footer();
    GenVrfsSay(rt, x);
    CfgIfacesNames(rt, x);
    CfgBgpProcess(m, name, bgp, x);
  }

  // ----------------------------------------------------------- all routers

  /** The configuration of each router, in dict order. */
  function CfgConfigs(m: Model, now: string): (r: Result<seq<string>, Error>)
    requires Built(m)
    ensures r.Success? <==> forall i :: 0 <= i < |m.routers.keys| ==> CfgRouterConfig(m, m.routers.keys[i], now).Success?
    ensures r.Success? ==> |r.value| == |m.routers.keys|
    ensures r.Success? ==> forall i :: 0 <= i < |m.routers.keys| ==>
      r.value[i] == CfgRouterConfig(m, m.routers.keys[i], now).value
  {
    var keys := m.routers.keys;
    var xs := seq(|keys|, i requires 0 <= i < |keys| => CfgRouterConfig(m, keys[i], now));
    assert forall i :: 0 <= i < |keys| ==> xs[i] == CfgRouterConfig(m, keys[i], now);
    Collect(xs, 0)
  }

  /** `generate_all_configs()`: router name to configuration text, with
      the routers' names as keys in dict order. */
  function CfgAllConfigs(m: Model, now: string): (r: Result<Dict<string, string>, Error>)
    requires Built(m)
    ensures r.Success? ==> r.value.keys == m.routers.keys
  {
    var texts :- CfgConfigs(m, now);
    FromZipKeys(m.routers.keys, texts);
    Success(FromPairs(Zip(m.routers.keys, texts)))
  }

  /** All configurations are produced exactly when every router's is; the
      result has the routers' names, in dict order, each bound to that
      router's configuration. */
  lemma CfgAllConfigsSpec(m: Model, now: string)
    requires Built(m)
    ensures CfgAllConfigs(m, now).Success? <==> forall n :: n in m.routers.m ==> CfgRouterLines(m, n, now).Success?
    ensures CfgAllConfigs(m, now).Success? ==> CfgAllConfigs(m, now).value.keys == m.routers.keys
    ensures CfgAllConfigs(m, now).Success? ==> forall n :: n in m.routers.m ==>
      n in CfgAllConfigs(m, now).value.m && CfgAllConfigs(m, now).value.m[n] == CfgRouterConfig(m, n, now).value
  {
    var keys := m.routers.keys;
    if CfgConfigs(m, now).Success? {
      var texts := CfgConfigs(m, now).value;
      FromZipKeys(keys, texts);
      forall n | n in m.routers.m
        ensures n in CfgAllConfigs(m, now).value.m && CfgAllConfigs(m, now).value.m[n] == CfgRouterConfig(m, n, now).value
      {
        var i :| 0 <= i < |keys| && keys[i] == n;
        FromZipValue(keys, texts, i);
      }
    } else {
      var i :| 0 <= i < |keys| && CfgRouterConfig(m, keys[i], now).Failure?;
      assert keys[i] in m.routers.m;
    }
  }

  // ----------------------------------------------------------------- recap

  function KindText(k: RouterKind): string {
    match k
    case PE => "PE"
    case P => "P"
    case CE => "CE"
  }

  /** The mask text of an interface; `None` prints as such. */
  function MaskTextOf(f: Iface): string {
    if f.addr.Some? then MaskText(f.addr.value.prefix) else "None"
  }

  /** The recap line of one interface: name, address and mask. */
  function RecapIface(name: string, f: Iface): string {
    " " + name + ": " + IpText(f) + "/" + MaskTextOf(f)
  }

  /** The recap heading of one router: name and kind. */
  function RecapRouter(name: string, rt: Router): string {
    name + " (" + KindText(rt.kind) + "):"
  }

  /** A router's interface lines, in sorted name order. */
  function RecapIfaces(rt: Router): (ls: seq<string>)
    requires Valid(rt.ifaces)
    ensures |ls| == |rt.ifaces.keys|
  {
    var names := SortStrings(rt.ifaces.keys);
    assert |names| == |multiset(names)| == |multiset(rt.ifaces.keys)| == |rt.ifaces.keys|;
    assert forall i :: 0 <= i < |names| ==> names[i] in rt.ifaces.m by {
      forall i | 0 <= i < |names| ensures names[i] in rt.ifaces.m { SortStringsIn(rt.ifaces.keys, names[i]); }
    }
    seq(|names|, i requires 0 <= i < |names| => RecapIface(names[i], rt.ifaces.m[names[i]]))
  }

  /** Every interface has its line, and every line is an interface's. */
  lemma RecapIfacesIn(rt: Router, x: string)
    requires Valid(rt.ifaces)
    ensures x in RecapIfaces(rt) <==> exists k :: k in rt.ifaces.m && x == RecapIface(k, rt.ifaces.m[k])
  {
    var names := SortStrings(rt.ifaces.keys);
    var ls := RecapIfaces(rt);
    if x in ls {
      var i :| 0 <= i < |ls| && ls[i] == x;
      SortStringsIn(rt.ifaces.keys, names[i]);
    }
    if k :| k in rt.ifaces.m && x == RecapIface(k, rt.ifaces.m[k]) {
      SortStringsIn(rt.ifaces.keys, k);
      var i :| 0 <= i < |names| && names[i] == k;
      assert ls[i] == x;
    }
  }

  /** The interface lines follow the interfaces in sorted name order: the
      names they are written from are sorted and are the router's interface
      names, each once, one line per interface. */
  lemma RecapIfacesOrder(rt: Router) returns (names: seq<string>)
    requires Valid(rt.ifaces)
    ensures Sorted(names) && multiset(names) == multiset(rt.ifaces.keys)
    ensures |RecapIfaces(rt)| == |names|
    ensures forall i :: 0 <= i < |names| ==>
      names[i] in rt.ifaces.m && RecapIfaces(rt)[i] == RecapIface(names[i], rt.ifaces.m[names[i]])
  {
    names := SortStrings(rt.ifaces.keys);
    forall i | 0 <= i < |names| ensures names[i] in rt.ifaces.m {
      SortStringsIn(rt.ifaces.keys, names[i]);
    }
  }

  /** A router's part of the recap: its heading, then its interfaces. */
  function RecapRouterBlock(name: string, rt: Router): (ls: seq<string>)
    requires Valid(rt.ifaces)
    ensures |ls| > 0 && ls[0] == RecapRouter(name, rt)
  {
    [RecapRouter(name, rt)] + RecapIfaces(rt)
  }

  /** The routers' names in sorted order, and each one's part of the recap. */
  function RecapRouterBlocks(m: Model): (r: (seq<string>, seq<seq<string>>))
    requires ValidRouters(m.routers)
    ensures Sorted(r.0) && multiset(r.0) == multiset(m.routers.keys) && |r.1| == |r.0|
    ensures forall i :: 0 <= i < |r.0| ==> r.0[i] in m.routers.m && r.1[i] == RecapRouterBlock(r.0[i], m.routers.m[r.0[i]])
  {
    var names := SortStrings(m.routers.keys);
    assert forall x :: x in names ==> x in m.routers.m by {
      forall x | x in names ensures x in m.routers.m { SortStringsIn(m.routers.keys, x); }
    }
    (names, seq(|names|, i requires 0 <= i < |names| => RecapRouterBlock(names[i], m.routers.m[names[i]])))
  }

  /** `recap()`: routers in sorted name order, each followed by its
      interfaces in sorted name order. The heading of every router occurs
      in the text. */
  function CfgRecap(m: Model): (r: string)
    requires ValidRouters(m.routers)
    ensures forall n :: n in m.routers.m ==> Contains(r, RecapRouter(n, m.routers.m[n]))
  {
    var lines := Concat(RecapRouterBlocks(m).1);
    assert forall n :: n in m.routers.m ==> Contains(Join(lines, "\n"), RecapRouter(n, m.routers.m[n])) by {
      forall n | n in m.routers.m ensures Contains(Join(lines, "\n"), RecapRouter(n, m.routers.m[n])) {
        CfgRecapLists(m, n, "");
        var i :| 0 <= i < |lines| && lines[i] == RecapRouter(n, m.routers.m[n]);
        JoinHas(lines, "\n", i);
      }
    }
    Join(lines, "\n")
  }

  /** The recap is empty exactly when there are no routers. */
  lemma CfgRecapEmpty(m: Model)
    requires ValidRouters(m.routers)
    ensures CfgRecap(m) == "" <==> |m.routers.keys| == 0
  {
    var b := RecapRouterBlocks(m);
    assert |b.0| == |multiset(b.0)| == |multiset(m.routers.keys)| == |m.routers.keys|;
    if |b.0| > 0 {
      var lines := Concat(b.1);
      ConcatStarts(b.1);
      assert lines[0] == RecapRouter(b.0[0], m.routers.m[b.0[0]]);
      JoinStarts(lines, "\n");
      assert |CfgRecap(m)| > 0;
    }
  }

  /** Every router is listed with its kind, and every interface of it with
      its address and mask. */
  lemma CfgRecapLists(m: Model, n: string, k: string)
    requires ValidRouters(m.routers) && n in m.routers.m
    ensures var lines := Concat(RecapRouterBlocks(m).1); var rt := m.routers.m[n];
      && RecapRouter(n, rt) in lines
      && (k in rt.ifaces.m ==> RecapIface(k, rt.ifaces.m[k]) in lines)
  {
    var b := RecapRouterBlocks(m);
    SortStringsIn(m.routers.keys, n);
    var i :| 0 <= i < |b.0| && b.0[i] == n;
    var rt := m.routers.m[n];
    assert b.1[i][0] in b.1[i];
    if k in rt.ifaces.m {
      RecapIfacesIn(rt, RecapIface(k, rt.ifaces.m[k]));
      assert RecapIface(k, rt.ifaces.m[k]) in b.1[i];
    }
  }
}
