/** The generator's emitters: the configuration of one router, of every
    router, and the recap of the links, read off the model `GenBuild`
    produces. */
module GenEmit {
  import opened Wrappers
  import opened Seqs
  import opened Dict
  import opened Text
  import opened IPv4
  import opened Topology
  import opened Physical
  import opened Loopback
  import opened Build
  import opened Lines
  import opened Peers

  // ------------------------------------------------------------ header

  /** The fourteen opening lines, with the timestamp `now`. */
  function GenHeader(name: string, now: string): (ls: seq<Line>)
    ensures |ls| == 14 && ls[3] == LastChange(now) && ls[9] == Hostname(name)
    ensures forall l :: l in ls ==> HeaderLine(l)
  {
    [Bang, Bang, Bang, LastChange(now), Bang, Fixed(Version), Fixed(ServiceDebug), Fixed(ServiceLog),
     Bang, Hostname(name), Bang, Fixed(NoAaa), Fixed(IpCef), Bang]
  }

  // -------------------------------------------------------- interfaces

  /** `vrf_name` as the stanza tests it: the name of the interface's VRF,
      an empty name counting as none. */
  function GenVrfName(vrf: Option<Vrf>): (r: Option<string>)
    ensures r.Some? <==> vrf.Some? && vrf.value.name != ""
    ensures r.Some? ==> r.value == vrf.value.name
  {
    if vrf.Some? && vrf.value.name != "" then Some(vrf.value.name) else None
  }

  /** The interface joins OSPF: internal or `Loopback0`, not a CE's test
      loopback, in no VRF. */
  predicate GenInOspf(name: string, f: Iface, vrf: Option<Vrf>) {
    (f.internal || name == Loopback0) && !f.ceTest && GenVrfName(vrf).None?
  }

  /** `__build_interface_config(iface, as_num, vrf_name)`. */
  function GenIfaceStanza(name: string, f: Iface, asn: Option<nat>, vrf: Option<Vrf>): (ls: seq<Line>)
    ensures |ls| >= 2 && ls[0] == Interface(name) && ls[|ls| - 1] == Bang
  {
    IfaceStanza(name, GenVrfName(vrf), GenAddr(f), GenArea(name, f, asn, vrf), GenCost(f),
      Contains(name, "GigabitEthernet"))
  }

  /** The address line of an addressed interface. */
  function GenAddr(f: Iface): (r: Option<Line>)
    ensures r.Some? <==> f.addr.Some?
    ensures r.Some? ==> r.value.IpAddress? && r.value == AddrLine(f.addr.value)
  {
    if f.addr.Some? then Some(AddrLine(f.addr.value)) else None
  }

  /** The OSPF area, the AS number, for an interface in OSPF. */
  function GenArea(name: string, f: Iface, asn: Option<nat>, vrf: Option<Vrf>): (r: Option<string>)
    ensures r.Some? <==> GenInOspf(name, f, vrf)
    ensures r.Some? ==> r.value == OptNatText(asn)
  {
    if GenInOspf(name, f, vrf) then Some(OptNatText(asn)) else None
  }

  /** The declared OSPF cost, as text. */
  function GenCost(f: Iface): (r: Option<string>)
    ensures r.Some? <==> f.ospfCost.Some?
    ensures r.Some? ==> r.value == NatToString(f.ospfCost.value)
  {
    if f.ospfCost.Some? then Some(NatToString(f.ospfCost.value)) else None
  }

  /** What the generator configures on an interface: the VRF it is in (a
      non-empty name), its address, the AS number as OSPF area exactly for
      internal links and `Loopback0` outside VRFs and CE test loopbacks, the
      declared cost only together with the area, auto-negotiation on
      GigabitEthernet ports. */
  lemma GenIfaceStanzaSays(name: string, f: Iface, asn: Option<nat>, vrf: Option<Vrf>, x: string)
    ensures VrfForwarding(x) in GenIfaceStanza(name, f, asn, vrf) <==> vrf.Some? && vrf.value.name == x && x != ""
    ensures OspfArea(x) in GenIfaceStanza(name, f, asn, vrf) <==>
      x == OptNatText(asn) && (f.internal || name == Loopback0) && !f.ceTest && !(vrf.Some? && vrf.value.name != "")
    ensures OspfCost(x) in GenIfaceStanza(name, f, asn, vrf) <==>
      GenInOspf(name, f, vrf) && f.ospfCost.Some? && x == NatToString(f.ospfCost.value)
    ensures Negotiation in GenIfaceStanza(name, f, asn, vrf) <==> Contains(name, "GigabitEthernet")
  {
    var addr, area, cost := GenAddr(f), GenArea(name, f, asn, vrf), GenCost(f);
    var neg := Contains(name, "GigabitEthernet");
    IfaceStanzaVrf(name, GenVrfName(vrf), addr, area, cost, neg, x);
    IfaceStanzaArea(name, GenVrfName(vrf), addr, area, cost, neg, x);
    IfaceStanzaCost(name, GenVrfName(vrf), addr, area, cost, neg, x);
    IfaceStanzaNegotiates(name, GenVrfName(vrf), addr, area, cost, neg);
  }

  /** The stanza carries the interface's address, and no other. */
  lemma GenIfaceStanzaAddr(name: string, f: Iface, asn: Option<nat>, vrf: Option<Vrf>, l: Line)
    requires l.IpAddress?
    ensures l in GenIfaceStanza(name, f, asn, vrf) <==> f.addr.Some? && l == AddrLine(f.addr.value)
  {
    var addr, area, cost := GenAddr(f), GenArea(name, f, asn, vrf), GenCost(f);
    var neg := Contains(name, "GigabitEthernet");
    IfaceStanzaAddr(name, GenVrfName(vrf), addr, area, cost, neg, l);
  }

  lemma GenIfaceStanzaName(name: string, f: Iface, asn: Option<nat>, vrf: Option<Vrf>, x: string)
    ensures Interface(x) in GenIfaceStanza(name, f, asn, vrf) <==> x == name
  {
    IfaceStanzaName(name, GenVrfName(vrf), GenAddr(f), GenArea(name, f, asn, vrf), GenCost(f),
      Contains(name, "GigabitEthernet"), x);
  }

  lemma GenIfaceStanzaKinds(name: string, f: Iface, asn: Option<nat>, vrf: Option<Vrf>)
    ensures forall l :: l in GenIfaceStanza(name, f, asn, vrf) ==> IfaceLine(l)
  {
    IfaceStanzaKinds(name, GenVrfName(vrf), GenAddr(f), GenArea(name, f, asn, vrf), GenCost(f),
      Contains(name, "GigabitEthernet"));
  }

  /** The stanza of each of a router's interfaces, in dict order, each
      with the first VRF that lists it. */
  function GenStanzas(rt: Router): (xss: seq<seq<Line>>)
    requires Valid(rt.ifaces)
    ensures |xss| == |rt.ifaces.keys|
    ensures forall i :: 0 <= i < |xss| ==>
      (xss[i] == GenIfaceStanza(rt.ifaces.keys[i], rt.ifaces.m[rt.ifaces.keys[i]], rt.asn, VrfOf(rt.vrfs, rt.ifaces.keys[i])))
  {
    var keys := rt.ifaces.keys;
    seq(|keys|, i requires 0 <= i < |keys| =>
      GenIfaceStanza(keys[i], rt.ifaces.m[keys[i]], rt.asn, VrfOf(rt.vrfs, keys[i])))
  }

  /** The interface part: the stanzas one after another; it holds
      interface lines only. */
  function GenIfaces(rt: Router): (ls: seq<Line>)
    requires Valid(rt.ifaces)
    ensures forall l :: l in ls ==> IfaceLine(l)
  {
    var keys := rt.ifaces.keys;
    var xss := GenStanzas(rt);
    assert forall i :: 0 <= i < |xss| ==> forall l :: l in xss[i] ==> IfaceLine(l) by {
      forall i | 0 <= i < |xss| ensures forall l :: l in xss[i] ==> IfaceLine(l) {
        GenIfaceStanzaKinds(keys[i], rt.ifaces.m[keys[i]], rt.asn, VrfOf(rt.vrfs, keys[i]));
      }
    }
    Concat(xss)
  }

  /** The interface part opens one stanza for every interface of the
      router and for nothing else. */
  lemma GenIfacesNames(rt: Router, x: string)
    requires Valid(rt.ifaces)
    ensures Interface(x) in GenIfaces(rt) <==> x in rt.ifaces.m
  {
    var keys := rt.ifaces.keys;
    var xss := GenStanzas(rt);
    forall i | 0 <= i < |keys| ensures Interface(x) in xss[i] <==> x == keys[i] {
      GenIfaceStanzaName(keys[i], rt.ifaces.m[keys[i]], rt.asn, VrfOf(rt.vrfs, keys[i]), x);
    }
  }

  // ------------------------------------------------------------- MP-BGP

  /** The CE session of one VRF: the CE behind the VRF's first interface.
      A VRF without interfaces stops the configuration (`IndexError`). */
  function GenVrfPeer(m: Model, pe: string, vrf: Vrf): (r: Result<VrfPeer, Error>)
    requires Resolved(m.routers, m.links)
    ensures r.Failure? <==> |vrf.interfaces| == 0
    ensures r.Failure? ==> r.error == NoVrfInterface(vrf.name)
  {
    if |vrf.interfaces| == 0 then Failure(NoVrfInterface(vrf.name))
    else
      var ce := GenCePeer(m.routers, m.links, pe, vrf.interfaces[0]);
      Success(VrfPeer(vrf.name, ce.0, ce.1))
  }

  /** The CE sessions of a PE's VRFs, in declared order. */
  function GenVrfPeers(m: Model, pe: string, vrfs: seq<Vrf>): (r: Result<seq<VrfPeer>, Error>)
    requires Resolved(m.routers, m.links)
    ensures r.Success? <==> forall k :: 0 <= k < |vrfs| ==> |vrfs[k].interfaces| > 0
    ensures r.Success? ==> |r.value| == |vrfs|
    ensures r.Success? ==> forall k :: 0 <= k < |vrfs| ==> r.value[k] == GenVrfPeer(m, pe, vrfs[k]).value
  {
    var xs := seq(|vrfs|, k requires 0 <= k < |vrfs| => GenVrfPeer(m, pe, vrfs[k]));
    assert forall k :: 0 <= k < |vrfs| ==> xs[k] == GenVrfPeer(m, pe, vrfs[k]);
    Collect(xs, 0)
  }

  /** `__generate_mpbgp(name)`: the router's loopback as router id, the
      other PEs' loopbacks as iBGP and vpnv4 peers, one session per VRF.
      The section holds nothing but BGP lines. */
  function GenMpbgp(m: Model, pe: string): (r: Result<seq<Line>, Error>)
    requires Built(m) && pe in m.routers.m
    ensures r.Success? ==> forall l :: l in r.value ==> BgpLine(l)
  {
    var rs := m.routers;
    var rid :- LoopText(Generator, rs, pe);
    var peers :- PeerTexts(Generator, rs, PePeers(rs, pe));
    var vps :- GenVrfPeers(m, pe, rs.m[pe].vrfs);
    MpbgpKinds(OptNatText(rs.m[pe].asn), rid, peers, vps);
    Success(MpbgpLayout(OptNatText(rs.m[pe].asn), rid, peers, vps))
  }

  /** The MP-BGP section fails exactly when the PE's own loopback, some
      other PE's loopback, or some VRF's first interface is missing; the
      PE's own loopback is read first. */
  lemma GenMpbgpFails(m: Model, pe: string)
    requires Built(m) && pe in m.routers.m
    ensures GenMpbgp(m, pe).Failure? <==>
      || LoopAddr(m.routers, pe).None?
      || (exists n :: IsPeer(m.routers, pe, n) && LoopAddr(m.routers, n).None?)
      || (exists k :: 0 <= k < |m.routers.m[pe].vrfs| && |m.routers.m[pe].vrfs[k].interfaces| == 0)
    ensures LoopAddr(m.routers, pe).None? ==> GenMpbgp(m, pe) == Failure(MissingLoopback(pe))
  {
    GenPeerTextsFail(m.routers, pe);
  }

  /** Some other PE's loopback address cannot be read. */
  lemma GenPeerTextsFail(rs: Routers, pe: string)
    requires Valid(rs)
    ensures PeerTexts(Generator, rs, PePeers(rs, pe)).Failure? <==>
      exists n :: IsPeer(rs, pe, n) && LoopAddr(rs, n).None?
  {
    var peers := PePeers(rs, pe);
    if PeerTexts(Generator, rs, peers).Failure? {
      var k :| 0 <= k < |peers| && LoopText(Generator, rs, peers[k]).Failure?;
      assert IsPeer(rs, pe, peers[k]);
    }
    if n :| IsPeer(rs, pe, n) && LoopAddr(rs, n).None? {
      assert n in peers;
    }
  }

  /** The pieces a successful MP-BGP section is laid out from. */
  lemma GenMpbgpSplit(m: Model, pe: string, ls: seq<Line>) returns (rid: string, peers: seq<string>, vps: seq<VrfPeer>)
    requires Built(m) && pe in m.routers.m && GenMpbgp(m, pe) == Success(ls)
    ensures LoopText(Generator, m.routers, pe) == Success(rid)
    ensures PeerTexts(Generator, m.routers, PePeers(m.routers, pe)) == Success(peers)
    ensures GenVrfPeers(m, pe, m.routers.m[pe].vrfs) == Success(vps)
    ensures ls == MpbgpLayout(OptNatText(m.routers.m[pe].asn), rid, peers, vps)
  {
    rid := LoopText(Generator, m.routers, pe).value;
    peers := PeerTexts(Generator, m.routers, PePeers(m.routers, pe)).value;
    vps := GenVrfPeers(m, pe, m.routers.m[pe].vrfs).value;
  }

  /** With `M` other PEs, a successful MP-BGP section has `2M` neighbour
      lines before the vpnv4 family, `2M` inside it, and five lines per VRF
      after it. */
  lemma GenMpbgpShape(m: Model, pe: string, ls: seq<Line>) returns (M: nat)
    requires Built(m) && pe in m.routers.m && GenMpbgp(m, pe) == Success(ls)
    ensures M == |PePeers(m.routers, pe)|
    ensures |ls| == 6 + 4 * M + 5 * |m.routers.m[pe].vrfs|
    ensures IbgpRun(ls, M) && Vpnv4Run(ls, M)
  {
    var rid, peers, vps := GenMpbgpSplit(m, pe, ls);
    M := |peers|;
    MpbgpShape(OptNatText(m.routers.m[pe].asn), rid, peers, vps);
  }

  /** A successful MP-BGP section opens the process in the PE's AS with
      its loopback as router id, and gives every other PE an iBGP session
      and a vpnv4 activation on that PE's loopback address. */
  lemma GenMpbgpPeer(m: Model, pe: string, ls: seq<Line>, n: string)
    requires Built(m) && pe in m.routers.m && GenMpbgp(m, pe) == Success(ls)
    requires IsPeer(m.routers, pe, n)
    ensures LoopAddr(m.routers, pe).Some? && LoopAddr(m.routers, n).Some?
    ensures ls[0] == RouterBgp(OptNatText(m.routers.m[pe].asn))
    ensures ls[1] == BgpRouterId(AddrText(LoopAddr(m.routers, pe).value))
    ensures var ip := AddrText(LoopAddr(m.routers, n).value); var asn := OptNatText(m.routers.m[pe].asn);
      && Neighbor(false, ip, RemoteAs(asn)) in ls && Neighbor(false, ip, UpdateSource) in ls
      && Neighbor(true, ip, Activate) in ls && Neighbor(true, ip, SendCommunity) in ls
  {
    var rid, peers, vps := GenMpbgpSplit(m, pe, ls);
    var names := PePeers(m.routers, pe);
    var k :| 0 <= k < |names| && names[k] == n;
    MpbgpEnds(OptNatText(m.routers.m[pe].asn), rid, peers, vps);
    MpbgpPeerIn(OptNatText(m.routers.m[pe].asn), rid, peers, vps, k);
  }

  // ------------------------------------------------------------- CE BGP

  /** The address the CE peers with: that of its upstream PE endpoint,
      `0.0.0.0` when it shares no link with a PE. */
  function GenPeIp(m: Model, ce: string): (ip: string)
    requires Resolved(m.routers, m.links)
    ensures GenUpstream(m.routers, ce, m.links).None? ==> ip == "0.0.0.0"
    ensures GenUpstream(m.routers, ce, m.links).Some? ==>
      exists a :: Lookup(m.routers, GenUpstream(m.routers, ce, m.links).value) == Some(a) && a.addr.Some?
        && ip == AddrText(a.addr.value.ip)
  {
    match GenUpstream(m.routers, ce, m.links)
    case None => "0.0.0.0"
    case Some(ep) =>
      assert Addressed(m.routers, ep);
      AddrText(Lookup(m.routers, ep).value.addr.value.ip)
  }

  /** The `network` line of an interface address: the network it lies in
      and the interface's netmask. */
  function NetPair(a: IfAddr): (string, string) {
    (AddrText(NetworkOf(a.ip, a.prefix)), MaskText(a.prefix))
  }

  /** The `network` lines of a list of interface addresses, in order. */
  function NetPairs(addrs: seq<IfAddr>): (nets: seq<(string, string)>)
    ensures |nets| == |addrs| && forall k :: 0 <= k < |addrs| ==> nets[k] == NetPair(addrs[k])
  {
    seq(|addrs|, k requires 0 <= k < |addrs| => NetPair(addrs[k]))
  }

  lemma NetPairsIn(addrs: seq<IfAddr>, net: string, mask: string)
    ensures (net, mask) in NetPairs(addrs) <==> exists a :: a in addrs && NetPair(a) == (net, mask)
  {
    var nets := NetPairs(addrs);
    if (net, mask) in nets {
      var k :| 0 <= k < |nets| && nets[k] == (net, mask);
      assert addrs[k] in addrs;
    }
    if a :| a in addrs && NetPair(a) == (net, mask) {
      var k :| 0 <= k < |addrs| && addrs[k] == a;
      assert nets[k] == (net, mask);
    }
  }

  /** Some interface of the router carries address `a`. */
  predicate HasAddress(rt: Router, a: IfAddr) {
    exists k :: k in rt.ifaces.m && rt.ifaces.m[k].addr == Some(a)
  }

  /** `__generate_ce_bgp(name)`: the CE's own AS, its upstream PE in the
      backbone AS, one `network` line per addressed interface. */
  function GenCeBgp(m: Model, ce: string): (ls: seq<Line>)
    requires Built(m) && ce in m.routers.m
    ensures forall l :: l in ls ==> BgpLine(l)
  {
    var rt := m.routers.m[ce];
    var addrs := AddressesIn(rt.ifaces, rt.ifaces.keys);
    CeBgpLayout(OptNatText(rt.asn), GenPeIp(m, ce), NatToString(m.backbone), NetPairs(addrs))
  }

  /** The CE's BGP section runs in the CE's AS and peers with the
      upstream PE endpoint's address in the backbone AS. */
  lemma GenCeBgpHead(m: Model, ce: string)
    requires Built(m) && ce in m.routers.m
    ensures var ls := GenCeBgp(m, ce);
      && ls[0] == RouterBgp(OptNatText(m.routers.m[ce].asn))
      && ls[1] == Neighbor(false, GenPeIp(m, ce), RemoteAs(NatToString(m.backbone)))
  {
  }

  /** The CE advertises the network of every addressed interface and
      nothing else. */
  lemma GenCeBgpNetworks(m: Model, ce: string, net: string, mask: string)
    requires Built(m) && ce in m.routers.m
    ensures Network(net, mask) in GenCeBgp(m, ce) <==> exists a :: HasAddress(m.routers.m[ce], a) && NetPair(a) == (net, mask)
  {
    var rt := m.routers.m[ce];
    var addrs := AddressesIn(rt.ifaces, rt.ifaces.keys);
    CeBgpNetworkIn(OptNatText(rt.asn), GenPeIp(m, ce), NatToString(m.backbone), NetPairs(addrs), net, mask);
    NetPairsIn(addrs, net, mask);
    forall a ensures a in addrs <==> HasAddress(rt, a) { }
  }

  // ------------------------------------------------------- one router

  /** The OSPF process of a PE or P router, its loopback address as router
      id; a CE has none. */
  function GenOspf(m: Model, name: string): (r: Result<seq<Line>, Error>)
    requires name in m.routers.m
    ensures r.Success? ==> forall l :: l in r.value ==> OspfLine(l)
    ensures r.Success? ==> (RouterOspf in r.value <==> m.routers.m[name].kind != CE)
  {
    if m.routers.m[name].kind == CE then Success([])
    else
      var rid :- LoopText(Generator, m.routers, name);
      Success(OspfBlock(rid))
  }

  /** The BGP section: MP-BGP on a PE, the CE session on a CE, none on a P. */
  function GenBgp(m: Model, name: string): (r: Result<seq<Line>, Error>)
    requires Built(m) && name in m.routers.m
    ensures r.Success? ==> forall l :: l in r.value ==> BgpLine(l)
  {
    match m.routers.m[name].kind
    case PE => GenMpbgp(m, name)
    case CE => Success(GenCeBgp(m, name))
    case P => Success([])
  }

  /** The VRF definitions, on a PE only. */
  function GenVrfs(rt: Router): (ls: seq<Line>)
    ensures forall l :: l in ls ==> VrfLine(l)
  {
    if rt.kind == PE then VrfStanzas(rt.vrfs) else []
  }

  /** `generate_router_config(name)` as lines: header, VRFs, interfaces,
      OSPF, BGP, footer; `now` is the timestamp the clock would give. An
      unknown router is refused; a configuration names its router on line
      10 and ends with `end`. */
  function GenRouterLines(m: Model, name: string, now: string): (r: Result<seq<Line>, Error>)
    requires Built(m)
    ensures name !in m.routers.m ==> r == Failure(UnknownRouter(name))
    ensures r.Success? ==> |r.value| > 14 && r.value[9] == Hostname(name) && r.value[|r.value| - 1] == End
  {
    if name !in m.routers.m then Failure(UnknownRouter(name))
    else
      var rt := m.routers.m[name];
      var ospf :- GenOspf(m, name);
      var bgp :- GenBgp(m, name);
      var ls := GenHeader(name, now) + GenVrfs(rt) + GenIfaces(rt) + ospf + bgp + Footer();
      FrameOf(ls, GenHeader(name, now), GenVrfs(rt), GenIfaces(rt), ospf, bgp, Footer());
      Success(ls)
  }

  /** `generate_router_config(name)`: the lines joined by newlines. The
      text contains `hostname <name>` and ends with `end`. */
  function GenRouterConfig(m: Model, name: string, now: string): (r: Result<string, Error>)
    requires Built(m)
    ensures r.Failure? <==> GenRouterLines(m, name, now).Failure?
    ensures r.Failure? ==> r.error == GenRouterLines(m, name, now).error
    ensures r.Success? ==> Contains(r.value, "hostname " + name) && EndsWith(r.value, "end")
  {
    var ls :- GenRouterLines(m, name, now);
    RenderHas(ls, 9);
    RenderEnds(ls);
    Success(Render(ls))
  }

  /** The sections a successful configuration is made of. */
  lemma GenRouterSplit(m: Model, name: string, now: string, ls: seq<Line>) returns (ospf: seq<Line>, bgp: seq<Line>)
    requires Built(m) && GenRouterLines(m, name, now) == Success(ls)
    ensures name in m.routers.m
    ensures GenOspf(m, name) == Success(ospf) && GenBgp(m, name) == Success(bgp)
    ensures ls == GenHeader(name, now) + GenVrfs(m.routers.m[name]) + GenIfaces(m.routers.m[name]) + ospf + bgp + Footer()
  {
    ospf := GenOspf(m, name).value;
    bgp := GenBgp(m, name).value;
  }

  /** An unknown router is refused; a known one fails exactly when a PE or
      P router's loopback address, another PE's loopback address or a VRF's
      first interface is missing, and a missing own loopback is reported
      first. */
  lemma GenRouterFails(m: Model, name: string, now: string)
    requires Built(m)
    ensures name !in m.routers.m ==> GenRouterLines(m, name, now) == Failure(UnknownRouter(name))
    ensures name in m.routers.m ==> var rt := m.routers.m[name];
      (GenRouterLines(m, name, now).Failure? <==>
        || (rt.kind != CE && LoopAddr(m.routers, name).None?)
        || (rt.kind == PE && exists n :: IsPeer(m.routers, name, n) && LoopAddr(m.routers, n).None?)
        || (rt.kind == PE && exists k :: 0 <= k < |rt.vrfs| && |rt.vrfs[k].interfaces| == 0))
    ensures name in m.routers.m && m.routers.m[name].kind != CE && LoopAddr(m.routers, name).None? ==>
      GenRouterLines(m, name, now) == Failure(MissingLoopback(name))
  {
    if name in m.routers.m && m.routers.m[name].kind == PE {
      GenMpbgpFails(m, name);
    }
  }

  /** A PE defines each of its VRFs; other routers define none. */
  lemma GenVrfsSay(rt: Router, x: string)
    ensures IpVrf(x) in GenVrfs(rt) <==> rt.kind == PE && exists k :: 0 <= k < |rt.vrfs| && rt.vrfs[k].name == x
  {
  }

  /** PE and CE routers start a BGP process in their own AS; P routers none. */
  lemma GenBgpProcess(m: Model, name: string, bgp: seq<Line>, x: string)
    requires Built(m) && name in m.routers.m && GenBgp(m, name) == Success(bgp)
    ensures RouterBgp(x) in bgp <==> m.routers.m[name].kind != P && x == OptNatText(m.routers.m[name].asn)
  {
    var rt := m.routers.m[name];
    if rt.kind == PE {
      var rid, peers, vps := GenMpbgpSplit(m, name, bgp);
      MpbgpProcess(OptNatText(rt.asn), rid, peers, vps, x);
    } else if rt.kind == CE {
      var addrs := AddressesIn(rt.ifaces, rt.ifaces.keys);
      CeBgpProcess(OptNatText(rt.asn), GenPeIp(m, name), NatToString(m.backbone), NetPairs(addrs), x);
    }
  }

  /** A successful configuration, in order: the header, the VRF
      definitions, the interface stanzas, the OSPF process, the BGP
      section, the footer. The header carries the timestamp and the host
      name, the footer ends with `end`. Each section holds only its own kinds of line;
      the VRFs defined are those of a PE and none on other routers, every
      interface of the router gets a stanza and nothing else does, OSPF
      runs on PE and P routers only, BGP in the router's own AS on PE and CE
      routers only. */
  lemma GenRouterSections(m: Model, name: string, now: string, ls: seq<Line>, x: string)
    returns (head: seq<Line>, vrfs: seq<Line>, ifaces: seq<Line>, ospf: seq<Line>, bgp: seq<Line>, foot: seq<Line>)
    requires Built(m) && GenRouterLines(m, name, now) == Success(ls)
    ensures name in m.routers.m
    ensures ls == head + vrfs + ifaces + ospf + bgp + foot
    ensures |head| == 14 && head[3] == LastChange(now) && head[9] == Hostname(name)
    ensures |foot| == 8 && foot[7] == End
    ensures forall l :: l in head ==> HeaderLine(l)
    ensures forall l :: l in vrfs ==> VrfLine(l)
    ensures forall l :: l in ifaces ==> IfaceLine(l)
    ensures forall l :: l in ospf ==> OspfLine(l)
    ensures forall l :: l in bgp ==> BgpLine(l)
    ensures forall l :: l in foot ==> FooterLine(l)
    ensures var rt := m.routers.m[name];
      && (IpVrf(x) in vrfs <==> rt.kind == PE && exists k :: 0 <= k < |rt.vrfs| && rt.vrfs[k].name == x)
      && (Interface(x) in ifaces <==> x in rt.ifaces.m)
      && (RouterOspf in ospf <==> rt.kind != CE)
      && (RouterBgp(x) in bgp <==> rt.kind != P && x == OptNatText(rt.asn))
  {
    var o, b := GenRouterSplit(m, name, now, ls);
    var rt := m.routers.m[name];
    head, vrfs, ifaces, ospf, bgp, foot := GenHeader(name, now), GenVrfs(rt), GenIfaces(rt), o, b, Footer();
    GenVrfsSay(rt, x);
    GenIfacesNames(rt, x);
    GenBgpProcess(m, name, bgp, x);
  }

  // ----------------------------------------------------------- all routers

  /** The configuration of each router, in dict order. */
  function GenConfigs(m: Model, now: string): (r: Result<seq<string>, Error>)
    requires Built(m)
    ensures r.Success? <==> forall i :: 0 <= i < |m.routers.keys| ==> GenRouterConfig(m, m.routers.keys[i], now).Success?
    ensures r.Success? ==> |r.value| == |m.routers.keys|
    ensures r.Success? ==> forall i :: 0 <= i < |m.routers.keys| ==>
      r.value[i] == GenRouterConfig(m, m.routers.keys[i], now).value
  {
    var keys := m.routers.keys;
    var xs := seq(|keys|, i requires 0 <= i < |keys| => GenRouterConfig(m, keys[i], now));
    assert forall i :: 0 <= i < |keys| ==> xs[i] == GenRouterConfig(m, keys[i], now);
    Collect(xs, 0)
  }

  /** `generate_all_configs()`: router name to configuration text, with
      the routers' names as keys in dict order. */
  function GenAllConfigs(m: Model, now: string): (r: Result<Dict<string, string>, Error>)
    requires Built(m)
    ensures r.Success? ==> r.value.keys == m.routers.keys
  {
    var texts :- GenConfigs(m, now);
    FromZipKeys(m.routers.keys, texts);
    Success(FromPairs(Zip(m.routers.keys, texts)))
  }

  /** All configurations are produced exactly when every router's is; the
      result has the routers' names, in dict order, each bound to that
      router's configuration. */
  lemma GenAllConfigsSpec(m: Model, now: string)
    requires Built(m)
    ensures GenAllConfigs(m, now).Success? <==> forall n :: n in m.routers.m ==> GenRouterLines(m, n, now).Success?
    ensures GenAllConfigs(m, now).Success? ==> GenAllConfigs(m, now).value.keys == m.routers.keys
    ensures GenAllConfigs(m, now).Success? ==> forall n :: n in m.routers.m ==>
      n in GenAllConfigs(m, now).value.m && GenAllConfigs(m, now).value.m[n] == GenRouterConfig(m, n, now).value
  {
    var keys := m.routers.keys;
    if GenConfigs(m, now).Success? {
      var texts := GenConfigs(m, now).value;
      FromZipKeys(keys, texts);
      forall n | n in m.routers.m
        ensures n in GenAllConfigs(m, now).value.m && GenAllConfigs(m, now).value.m[n] == GenRouterConfig(m, n, now).value
      {
        var i :| 0 <= i < |keys| && keys[i] == n;
        FromZipValue(keys, texts, i);
      }
    } else {
      var i :| 0 <= i < |keys| && GenRouterConfig(m, keys[i], now).Failure?;
      assert keys[i] in m.routers.m;
    }
  }

  // ----------------------------------------------------------------- recap

  /** The heading of a link: the network of its first endpoint's address,
      with prefix length. */
  function RecapHead(rs: Routers, ep: Endpoint): (t: string)
    requires Addressed(rs, ep)
    ensures |t| > 0 && t[0] == '\n'
  {
    var a := Lookup(rs, ep).value.addr.value;
    "\nSubnet: " + AddrText(NetworkOf(a.ip, a.prefix)) + "/" + NatToString(a.prefix)
  }

  /** The line of one endpoint: router, interface and address. */
  function RecapEndpoint(rs: Routers, ep: Endpoint): string
    requires Addressed(rs, ep)
  {
    "  - Router: " + ep.router + " | Interface: " + ep.iface + " | IP: " + AddrText(Lookup(rs, ep).value.addr.value.ip)
  }

  /** The lines of link `i`; an empty link has no first endpoint to read
      the network from (`IndexError`). */
  function RecapBlock(rs: Routers, links: seq<Link>, i: nat): (r: Result<seq<string>, Error>)
    requires Resolved(rs, links) && i < |links|
    ensures r.Failure? <==> |links[i]| == 0
    ensures r.Failure? ==> r.error == EmptyLink(i)
    ensures r.Success? ==> |r.value| == 1 + |links[i]| && r.value[0] == RecapHead(rs, links[i][0])
    ensures r.Success? ==> forall j :: 0 <= j < |links[i]| ==> r.value[1 + j] == RecapEndpoint(rs, links[i][j])
  {
    var link := links[i];
    if |link| == 0 then Failure(EmptyLink(i))
    else Success([RecapHead(rs, link[0])] + seq(|link|, j requires 0 <= j < |link| => RecapEndpoint(rs, link[j])))
  }

  /** The blocks of every link, in order. */
  function RecapBlocks(m: Model): (r: Result<seq<seq<string>>, Error>)
    requires Resolved(m.routers, m.links)
    ensures r.Success? <==> forall i :: 0 <= i < |m.links| ==> |m.links[i]| > 0
    ensures r.Success? ==> |r.value| == |m.links|
    ensures r.Success? ==> forall i :: 0 <= i < |m.links| ==> r.value[i] == RecapBlock(m.routers, m.links, i).value
  {
    var xs := seq(|m.links|, i requires 0 <= i < |m.links| => RecapBlock(m.routers, m.links, i));
    assert forall i :: 0 <= i < |m.links| ==> xs[i] == RecapBlock(m.routers, m.links, i);
    assert forall i :: 0 <= i < |m.links| ==> (xs[i].Success? <==> |m.links[i]| > 0);
    Collect(xs, 0)
  }

  /** `generate_network_recap()`: fails exactly when some link is empty. */
  function GenRecap(m: Model): (r: Result<string, Error>)
    requires Resolved(m.routers, m.links)
    ensures r.Success? <==> forall i :: 0 <= i < |m.links| ==> |m.links[i]| > 0
  {
    var blocks :- RecapBlocks(m);
    var lines := Concat(blocks);
    Success(if |lines| > 1 then Join(lines, "\n") else "No network links defined.")
  }

  /** The recap fails on the first empty link. */
  lemma GenRecapFails(m: Model, i: nat)
    requires Resolved(m.routers, m.links) && i < |m.links| && |m.links[i]| == 0
    requires forall k :: 0 <= k < i ==> |m.links[k]| > 0
    ensures GenRecap(m) == Failure(EmptyLink(i))
  {
    var xs := seq(|m.links|, k requires 0 <= k < |m.links| => RecapBlock(m.routers, m.links, k));
    CollectFailsAt(xs, 0, i);
  }

  /** Without links the recap says so; with links it lists them, and the
      text starts with the first link's heading. */
  lemma GenRecapEmpty(m: Model)
    requires Resolved(m.routers, m.links) && GenRecap(m).Success?
    ensures GenRecap(m).value == "No network links defined." <==> |m.links| == 0
    ensures |m.links| > 0 ==> RecapHead(m.routers, m.links[0][0]) <= GenRecap(m).value
  {
    var blocks := RecapBlocks(m).value;
    var lines := Concat(blocks);
    if |m.links| > 0 {
      ConcatStarts(blocks);
      assert lines[0] == RecapHead(m.routers, m.links[0][0]);
      JoinStarts(lines, "\n");
    }
  }

  /** Every endpoint of every link is listed under its link's heading. */
  lemma GenRecapLists(m: Model, l: nat, j: nat)
    requires Resolved(m.routers, m.links) && RecapBlocks(m).Success?
    requires l < |m.links| && j < |m.links[l]|
    ensures var lines := Concat(RecapBlocks(m).value);
      RecapHead(m.routers, m.links[l][0]) in lines && RecapEndpoint(m.routers, m.links[l][j]) in lines
  {
    var blocks := RecapBlocks(m).value;
    assert blocks[l][0] in blocks[l] && blocks[l][1 + j] in blocks[l];
  }
}
