/** The lines of a router configuration, by what each says, and their exact
    text. Both variants emit the same kinds of lines; the emitters build
    `seq<Line>` and the text of a configuration is the lines' texts joined
    with newlines. */
module Lines {
  import opened Wrappers
  import opened Text
  import opened IPv4
  import opened Seqs
  import opened Topology
  import opened Dict

  /** Lines whose text never varies. */
  datatype Boilerplate =
    | Version | ServiceDebug | ServiceLog | NoAaa | IpCef
    | ForwardProtocol | LineCon | ExecTimeout | PrivilegeLevel | LoggingSync

  /** What a `neighbor` line configures for its peer. */
  datatype Session = RemoteAs(asn: string) | UpdateSource | Activate | SendCommunity

  datatype Line =
    | Bang                                              // "!"
    | SubBang                                           // " !"
    | End                                               // "end"
    | Fixed(b: Boilerplate)
    | LastChange(now: string)                           // the timestamp comment
    | Hostname(name: string)
    | IpVrf(name: string)                               // a VRF definition's first line
    | Rd(rd: string)
    | RouteTarget(exported: bool, rt: string)
    | Interface(name: string)                           // an interface stanza's first line
    | VrfForwarding(vrf: string)
    | IpAddress(ip: string, mask: string)
    | OspfArea(area: string)
    | OspfCost(cost: string)
    | Negotiation
    | RouterOspf
    | OspfRouterId(id: string)
    | MplsLdp
    | RouterBgp(asn: string)
    | BgpRouterId(id: string)
    | Neighbor(nested: bool, ip: string, session: Session) // nested: inside an address family
    | AddressFamilyVpnv4
    | AddressFamilyVrf(vrf: string)
    | ExitAddressFamily
    | Network(net: string, mask: string)

  function BoilerplateText(b: Boilerplate): string {
    match b
    case Version => "version 15.2"
    case ServiceDebug => "service timestamps debug datetime msec"
    case ServiceLog => "service timestamps log datetime msec"
    case NoAaa => "no aaa new-model"
    case IpCef => "ip cef"
    case ForwardProtocol => "ip forward-protocol nd"
    case LineCon => "line con 0"
    case ExecTimeout => " exec-timeout 0 0"
    case PrivilegeLevel => " privilege level 15"
    case LoggingSync => " logging synchronous"
  }

  function SessionText(s: Session): string {
    match s
    case RemoteAs(asn) => "remote-as " + asn
    case UpdateSource => "update-source Loopback0"
    case Activate => "activate"
    case SendCommunity => "send-community extended"
  }

  function LineText(l: Line): string {
    match l
    case Bang => "!"
    case SubBang => " !"
    case End => "end"
    case Fixed(b) => BoilerplateText(b)
    case LastChange(now) => "! Last configuration change at " + now
    case Hostname(n) => "hostname " + n
    case IpVrf(n) => "ip vrf " + n
    case Rd(rd) => " rd " + rd
    case RouteTarget(exported, rt) => " route-target " + (if exported then "export " else "import ") + rt
    case Interface(n) => "interface " + n
    case VrfForwarding(n) => " ip vrf forwarding " + n
    case IpAddress(ip, mask) => " ip address " + ip + " " + mask
    case OspfArea(a) => " ip ospf 1 area " + a
    case OspfCost(c) => " ip ospf cost " + c
    case Negotiation => " negotiation auto"
    case RouterOspf => "router ospf 1"
    case OspfRouterId(id) => " router-id " + id
    case MplsLdp => " mpls ldp autoconfig"
    case RouterBgp(a) => "router bgp " + a
    case BgpRouterId(id) => " bgp router-id " + id
    case Neighbor(nested, ip, s) => (if nested then "  " else " ") + "neighbor " + ip + " " + SessionText(s)
    case AddressFamilyVpnv4 => " address-family vpnv4"
    case AddressFamilyVrf(n) => " address-family ipv4 vrf " + n
    case ExitAddressFamily => " exit-address-family"
    case Network(net, mask) => " network " + net + " mask " + mask
  }

  function Texts(ls: seq<Line>): seq<string> {
    seq(|ls|, i requires 0 <= i < |ls| => LineText(ls[i]))
  }

  /** `"\n".join(lines)`. */
  function Render(ls: seq<Line>): string {
    Join(Texts(ls), "\n")
  }

  /** Every line's text occurs in the rendered configuration. */
  lemma RenderHas(ls: seq<Line>, i: nat)
    requires i < |ls|
    ensures Contains(Render(ls), LineText(ls[i]))
  {
    JoinHas(Texts(ls), "\n", i);
  }

  /** The rendered configuration ends with its last line's text. */
  lemma RenderEnds(ls: seq<Line>)
    requires |ls| > 0
    ensures EndsWith(Render(ls), LineText(ls[|ls| - 1]))
  {
    JoinEnds(Texts(ls), "\n");
  }

  /** A configuration's text splits back into its lines, provided no field
      carries a newline of its own. */
  lemma RenderSplits(ls: seq<Line>)
    requires |ls| > 0 && forall i :: 0 <= i < |ls| ==> '\n' !in LineText(ls[i])
    ensures Split(Render(ls), '\n') == Texts(ls)
  {
    SplitJoin(Texts(ls), '\n');
  }

  /** `str(x)` of an optional number: Python prints `None` for a missing one. */
  function OptNatText(n: Option<nat>): string {
    if n.Some? then NatToString(n.value) else "None"
  }

  /** The address text of an interface; `None` prints as such. */
  function IpText(f: Iface): string {
    if f.addr.Some? then AddrText(f.addr.value.ip) else "None"
  }

  // ------------------------------------------------------------ sections

  /** A configuration between a header and a footer starts with the
      header and ends with the footer. */
  lemma FrameOf(ls: seq<Line>, head: seq<Line>, a: seq<Line>, b: seq<Line>, c: seq<Line>, d: seq<Line>, foot: seq<Line>)
    requires ls == head + a + b + c + d + foot && |foot| > 0
    ensures |ls| >= |head| + |foot| && ls[|ls| - 1] == foot[|foot| - 1]
    ensures forall i :: 0 <= i < |head| ==> ls[i] == head[i]
  {
  }

  /** The kinds of line each section of a configuration is made of. */
  predicate HeaderLine(l: Line) {
    l.Bang? || l.Fixed? || l.LastChange? || l.Hostname?
  }

  predicate VrfLine(l: Line) {
    l.IpVrf? || l.Rd? || l.RouteTarget? || l.Bang?
  }

  predicate IfaceLine(l: Line) {
    l.Interface? || l.VrfForwarding? || l.IpAddress? || l.OspfArea? || l.OspfCost? || l.Negotiation? || l.Bang?
  }

  predicate OspfLine(l: Line) {
    l.RouterOspf? || l.OspfRouterId? || l.MplsLdp? || l.Bang?
  }

  predicate BgpLine(l: Line) {
    || l.RouterBgp? || l.BgpRouterId? || l.Neighbor? || l.SubBang? || l.AddressFamilyVpnv4?
    || l.AddressFamilyVrf? || l.ExitAddressFamily? || l.Network? || l.Bang?
  }

  predicate FooterLine(l: Line) {
    l.Fixed? || l.Bang? || l.End?
  }

  /** The first VRF, in declared order, whose interface list names `iface`. */
  function VrfOf(vrfs: seq<Vrf>, iface: string): (r: Option<Vrf>)
    ensures r.Some? ==> r.value in vrfs && iface in r.value.interfaces
    ensures r.None? <==> forall k :: 0 <= k < |vrfs| ==> iface !in vrfs[k].interfaces
    ensures r.Some? ==>
      exists k :: 0 <= k < |vrfs| && vrfs[k] == r.value && (forall j :: 0 <= j < k ==> iface !in vrfs[j].interfaces)
  {
    var k := FirstWhere(vrfs, (v: Vrf) => iface in v.interfaces, 0);
    if k.Some? then Some(vrfs[k.value]) else None
  }

  // ------------------------------------------------------- shared stanzas

  /** A VRF definition: name, route distinguisher, export targets, import
      targets, closing `!`. */
  function VrfStanza(vrf: Vrf): (ls: seq<Line>)
    ensures |ls| == 3 + |vrf.exports| + |vrf.imports|
    ensures ls[0] == IpVrf(vrf.name) && ls[1] == Rd(vrf.rd) && ls[|ls| - 1] == Bang
    ensures forall i :: 0 <= i < |vrf.exports| ==> ls[2 + i] == RouteTarget(true, vrf.exports[i])
    ensures forall i :: 0 <= i < |vrf.imports| ==> ls[2 + |vrf.exports| + i] == RouteTarget(false, vrf.imports[i])
  {
    [IpVrf(vrf.name), Rd(vrf.rd)]
      + seq(|vrf.exports|, i requires 0 <= i < |vrf.exports| => RouteTarget(true, vrf.exports[i]))
      + seq(|vrf.imports|, i requires 0 <= i < |vrf.imports| => RouteTarget(false, vrf.imports[i]))
      + [Bang]
  }

  /** Every VRF's definition, in declared order. */
  function VrfStanzas(vrfs: seq<Vrf>): (ls: seq<Line>)
    ensures forall l :: l in ls ==> VrfLine(l)
    ensures forall l :: l in ls && l.IpVrf? ==> exists k :: 0 <= k < |vrfs| && l == IpVrf(vrfs[k].name)
    ensures forall k :: 0 <= k < |vrfs| ==> IpVrf(vrfs[k].name) in ls
  {
    if |vrfs| == 0 then []
    else
      var init := vrfs[..|vrfs| - 1];
      var ls := VrfStanzas(init) + VrfStanza(vrfs[|vrfs| - 1]);
      assert forall k :: 0 <= k < |init| ==> init[k] == vrfs[k];
      ls
  }

  /** `[l]` when `c` holds, nothing otherwise. */
  function When(c: bool, l: Line): (ls: seq<Line>)
    ensures forall x :: x in ls <==> c && x == l
  {
    if c then [l] else []
  }

  /** The address and mask texts of an interface address. */
  function AddrLine(a: IfAddr): Line {
    IpAddress(AddrText(a.ip), MaskText(a.prefix))
  }

  /** An interface stanza: its name, the VRF it forwards in, its address
      and mask, the OSPF area and cost it joins, auto-negotiation, a
      closing `!`. A cost is only written for an interface in an area. */
  function IfaceStanza(name: string, vrf: Option<string>, addr: Option<Line>, area: Option<string>, cost: Option<string>, negotiate: bool): (ls: seq<Line>)
    ensures |ls| >= 2 && ls[0] == Interface(name) && ls[|ls| - 1] == Bang
  {
    [Interface(name)]
      + When(vrf.Some?, VrfForwarding(vrf.GetOr("")))
      + When(addr.Some?, addr.GetOr(Bang))
      + When(area.Some?, OspfArea(area.GetOr("")))
      + When(area.Some? && cost.Some?, OspfCost(cost.GetOr("")))
      + When(negotiate, Negotiation)
      + [Bang]
  }

  /** The stanza names its interface and no other. */
  lemma IfaceStanzaName(name: string, vrf: Option<string>, addr: Option<Line>, area: Option<string>, cost: Option<string>, negotiate: bool, x: string)
    requires addr.Some? ==> addr.value.IpAddress?
    ensures Interface(x) in IfaceStanza(name, vrf, addr, area, cost, negotiate) <==> x == name
  {
  }

  /** The stanza forwards in the given VRF and no other. */
  lemma IfaceStanzaVrf(name: string, vrf: Option<string>, addr: Option<Line>, area: Option<string>, cost: Option<string>, negotiate: bool, x: string)
    requires addr.Some? ==> addr.value.IpAddress?
    ensures VrfForwarding(x) in IfaceStanza(name, vrf, addr, area, cost, negotiate) <==> vrf == Some(x)
  {
  }

  /** The stanza joins the given OSPF area and no other. */
  lemma IfaceStanzaArea(name: string, vrf: Option<string>, addr: Option<Line>, area: Option<string>, cost: Option<string>, negotiate: bool, x: string)
    requires addr.Some? ==> addr.value.IpAddress?
    ensures OspfArea(x) in IfaceStanza(name, vrf, addr, area, cost, negotiate) <==> area == Some(x)
  {
  }

  /** The stanza sets the given cost, and only inside an area. */
  lemma IfaceStanzaCost(name: string, vrf: Option<string>, addr: Option<Line>, area: Option<string>, cost: Option<string>, negotiate: bool, x: string)
    requires addr.Some? ==> addr.value.IpAddress?
    ensures OspfCost(x) in IfaceStanza(name, vrf, addr, area, cost, negotiate) <==> area.Some? && cost == Some(x)
  {
  }

  /** The stanza turns on auto-negotiation exactly when asked to. */
  lemma IfaceStanzaNegotiates(name: string, vrf: Option<string>, addr: Option<Line>, area: Option<string>, cost: Option<string>, negotiate: bool)
    requires addr.Some? ==> addr.value.IpAddress?
    ensures Negotiation in IfaceStanza(name, vrf, addr, area, cost, negotiate) <==> negotiate
  {
  }

  /** The address line of an interface stanza is the one given, if any. */
  lemma IfaceStanzaAddr(name: string, vrf: Option<string>, addr: Option<Line>, area: Option<string>, cost: Option<string>, negotiate: bool, l: Line)
    requires l.IpAddress? && (addr.Some? ==> addr.value.IpAddress?)
    ensures l in IfaceStanza(name, vrf, addr, area, cost, negotiate) <==> addr == Some(l)
  {
  }

  /** An interface stanza holds interface lines only. */
  lemma IfaceStanzaKinds(name: string, vrf: Option<string>, addr: Option<Line>, area: Option<string>, cost: Option<string>, negotiate: bool)
    requires addr.Some? ==> addr.value.IpAddress?
    ensures forall l :: l in IfaceStanza(name, vrf, addr, area, cost, negotiate) ==> IfaceLine(l)
  {
  }

  /** The addresses of a router's addressed interfaces, in dict order. */
  function AddressesIn(d: Dict<string, Iface>, keys: seq<string>): (addrs: seq<IfAddr>)
    requires forall k :: k in keys ==> k in d.m
    ensures forall a :: a in addrs <==> exists k :: k in keys && d.m[k].addr == Some(a)
  {
    if |keys| == 0 then []
    else
      var last := keys[|keys| - 1];
      assert keys == keys[..|keys| - 1] + [last];
      AddressesIn(d, keys[..|keys| - 1]) + (if d.m[last].addr.Some? then [d.m[last].addr.value] else [])
  }

  /** The closing lines both variants share. */
  function Footer(): (ls: seq<Line>)
    ensures |ls| == 8 && ls[7] == End
    ensures forall l :: l in ls ==> FooterLine(l)
  {
    [Fixed(ForwardProtocol), Bang, Fixed(LineCon), Fixed(ExecTimeout), Fixed(PrivilegeLevel), Fixed(LoggingSync), Bang, End]
  }

  /** The OSPF process block of a PE or P router, with its router id. */
  function OspfBlock(id: string): (ls: seq<Line>)
    ensures |ls| == 4 && ls[0] == RouterOspf && ls[1] == OspfRouterId(id)
    ensures forall l :: l in ls ==> OspfLine(l)
  {
    [RouterOspf, OspfRouterId(id), MplsLdp, Bang]
  }

  // -------------------------------------------------------------- MP-BGP

  /** Two `neighbor` lines per peer address, peers in order. */
  function NeighborPairs(nested: bool, ips: seq<string>, first: Session, second: Session): (ls: seq<Line>)
    ensures |ls| == 2 * |ips|
    ensures forall j :: 0 <= j < |ls| ==> ls[j].Neighbor? && ls[j].nested == nested
  {
    if |ips| == 0 then []
    else
      NeighborPairs(nested, ips[..|ips| - 1], first, second)
        + [Neighbor(nested, ips[|ips| - 1], first), Neighbor(nested, ips[|ips| - 1], second)]
  }

  /** The `k`-th pair of lines is about the `k`-th peer. */
  lemma {:induction false} NeighborPairAt(nested: bool, ips: seq<string>, first: Session, second: Session, k: nat)
    requires k < |ips|
    ensures var ls := NeighborPairs(nested, ips, first, second);
      ls[2 * k] == Neighbor(nested, ips[k], first) && ls[2 * k + 1] == Neighbor(nested, ips[k], second)
  {
    var init := ips[..|ips| - 1];
    if k < |init| {
      NeighborPairAt(nested, init, first, second, k);
      assert init[k] == ips[k];
    }
  }

  /** The CE session of one VRF: the VRF's name and the CE's address and AS,
      as both variants print them. */
  datatype VrfPeer = VrfPeer(vrf: string, ip: string, asn: string)

  function VrfBlock(p: VrfPeer): seq<Line> {
    [Bang, AddressFamilyVrf(p.vrf), Neighbor(true, p.ip, RemoteAs(p.asn)), Neighbor(true, p.ip, Activate), ExitAddressFamily]
  }

  /** Five lines per VRF: `!`, the address family, the CE's `remote-as` and
      `activate`, `exit-address-family`. */
  function VrfBlocks(ps: seq<VrfPeer>): (ls: seq<Line>)
    ensures |ls| == 5 * |ps|
  {
    if |ps| == 0 then [] else VrfBlocks(ps[..|ps| - 1]) + VrfBlock(ps[|ps| - 1])
  }

  /** The `k`-th block configures the `k`-th VRF's CE session. */
  lemma {:induction false} VrfBlockAt(ps: seq<VrfPeer>, k: nat)
    requires k < |ps|
    ensures var ls := VrfBlocks(ps);
      && ls[5 * k] == Bang
      && ls[5 * k + 1] == AddressFamilyVrf(ps[k].vrf)
      && ls[5 * k + 2] == Neighbor(true, ps[k].ip, RemoteAs(ps[k].asn))
      && ls[5 * k + 3] == Neighbor(true, ps[k].ip, Activate)
      && ls[5 * k + 4] == ExitAddressFamily
  {
    var init := ps[..|ps| - 1];
    if k < |init| {
      VrfBlockAt(init, k);
      assert init[k] == ps[k];
    }
  }

  lemma {:induction false} VrfBlocksKinds(ps: seq<VrfPeer>)
    ensures forall l :: l in VrfBlocks(ps) ==> BgpLine(l) && !l.RouterBgp?
  {
    if |ps| > 0 {
      VrfBlocksKinds(ps[..|ps| - 1]);
    }
  }

  /** The iBGP part of a PE's BGP section: the process, its router id and
      two lines per peer loopback address. */
  function IbgpPart(asn: string, rid: string, peers: seq<string>): (ls: seq<Line>)
    ensures |ls| == 2 + 2 * |peers|
    ensures ls[0] == RouterBgp(asn) && ls[1] == BgpRouterId(rid)
  {
    [RouterBgp(asn), BgpRouterId(rid)] + NeighborPairs(false, peers, RemoteAs(asn), UpdateSource)
  }

  /** The vpnv4 address family: two lines per peer loopback address. */
  function Vpnv4Part(peers: seq<string>): (ls: seq<Line>)
    ensures |ls| == 3 + 2 * |peers|
    ensures ls[0] == SubBang && ls[1] == AddressFamilyVpnv4 && ls[|ls| - 1] == ExitAddressFamily
  {
    [SubBang, AddressFamilyVpnv4] + NeighborPairs(true, peers, Activate, SendCommunity) + [ExitAddressFamily]
  }

  /** The MP-BGP section of a PE, with `peers` the loopback addresses of the
      other PEs and `vps` one entry per VRF: the iBGP part, the vpnv4 part,
      one block per VRF, a closing `!`. */
  function MpbgpLayout(asn: string, rid: string, peers: seq<string>, vps: seq<VrfPeer>): (ls: seq<Line>)
    ensures |ls| == 6 + 4 * |peers| + 5 * |vps|
  {
    IbgpPart(asn, rid, peers) + Vpnv4Part(peers) + VrfBlocks(vps) + [Bang]
  }

  /** The MP-BGP section opens the process with its router id, and ends
      its vpnv4 family and itself with the fixed separators. */
  lemma MpbgpEnds(asn: string, rid: string, peers: seq<string>, vps: seq<VrfPeer>)
    ensures var ls := MpbgpLayout(asn, rid, peers, vps);
      && ls[0] == RouterBgp(asn) && ls[1] == BgpRouterId(rid)
      && ls[2 + 2 * |peers|] == SubBang && ls[3 + 2 * |peers|] == AddressFamilyVpnv4
      && ls[4 + 4 * |peers|] == ExitAddressFamily && ls[|ls| - 1] == Bang
  {
  }

  /** Peer `k` is the `k`-th iBGP neighbour and the `k`-th vpnv4 neighbour. */
  lemma MpbgpPeerAt(asn: string, rid: string, peers: seq<string>, vps: seq<VrfPeer>, k: nat)
    requires k < |peers|
    ensures var ls := MpbgpLayout(asn, rid, peers, vps);
      && ls[2 + 2 * k] == Neighbor(false, peers[k], RemoteAs(asn))
      && ls[3 + 2 * k] == Neighbor(false, peers[k], UpdateSource)
      && ls[4 + 2 * |peers| + 2 * k] == Neighbor(true, peers[k], Activate)
      && ls[5 + 2 * |peers| + 2 * k] == Neighbor(true, peers[k], SendCommunity)
  {
    NeighborPairAt(false, peers, RemoteAs(asn), UpdateSource, k);
    NeighborPairAt(true, peers, Activate, SendCommunity, k);
  }

  /** Lines `o .. o + 4` are the address family of one VRF's CE session. */
  predicate HoldsVrfBlock(ls: seq<Line>, o: nat, p: VrfPeer) {
    o + 5 <= |ls| && ls[o..o + 5] == VrfBlock(p)
  }

  /** Block `k` of the VRF part configures the `k`-th VRF's CE session. */
  lemma MpbgpVrfAt(asn: string, rid: string, peers: seq<string>, vps: seq<VrfPeer>, k: nat)
    requires k < |vps|
    ensures HoldsVrfBlock(MpbgpLayout(asn, rid, peers, vps), 5 + 4 * |peers| + 5 * k, vps[k])
  {
    VrfBlockAt(vps, k);
    var ls := MpbgpLayout(asn, rid, peers, vps);
    var o := 5 + 4 * |peers| + 5 * k;
    assert forall j :: 0 <= j < 5 ==> ls[o..o + 5][j] == VrfBlock(vps[k])[j];
  }

  /** The MP-BGP section starts one BGP process, in the given AS. */
  lemma MpbgpProcess(asn: string, rid: string, peers: seq<string>, vps: seq<VrfPeer>, x: string)
    ensures RouterBgp(x) in MpbgpLayout(asn, rid, peers, vps) <==> x == asn
  {
    VrfBlocksKinds(vps);
  }

  /** Every peer gets its iBGP session and its vpnv4 activation. */
  lemma MpbgpPeerIn(asn: string, rid: string, peers: seq<string>, vps: seq<VrfPeer>, k: nat)
    requires k < |peers|
    ensures var ls := MpbgpLayout(asn, rid, peers, vps);
      && Neighbor(false, peers[k], RemoteAs(asn)) in ls && Neighbor(false, peers[k], UpdateSource) in ls
      && Neighbor(true, peers[k], Activate) in ls && Neighbor(true, peers[k], SendCommunity) in ls
  {
    MpbgpPeerAt(asn, rid, peers, vps, k);
  }

  /** Lines `2 .. 2P` of an MP-BGP section are its `2P` iBGP neighbour
      lines, outside any address family. */
  predicate IbgpRun(ls: seq<Line>, p: nat) {
    && |ls| > 2 + 2 * p
    && (forall j :: 2 <= j < 2 + 2 * p ==> ls[j].Neighbor? && !ls[j].nested)
  }

  /** The vpnv4 family of an MP-BGP section opens at line `3 + 2P`, holds
      `2P` neighbour lines and closes at line `4 + 4P`. */
  predicate Vpnv4Run(ls: seq<Line>, p: nat) {
    && |ls| > 4 + 4 * p
    && ls[2 + 2 * p] == SubBang && ls[3 + 2 * p] == AddressFamilyVpnv4
    && (forall j :: 4 + 2 * p <= j < 4 + 4 * p ==> ls[j].Neighbor? && ls[j].nested)
    && ls[4 + 4 * p] == ExitAddressFamily
  }

  /** The shape of the MP-BGP section with `P` peers: `2P` iBGP neighbour
      lines, then the vpnv4 family with `2P` neighbour lines of its own. */
  lemma MpbgpShape(asn: string, rid: string, peers: seq<string>, vps: seq<VrfPeer>)
    ensures IbgpRun(MpbgpLayout(asn, rid, peers, vps), |peers|)
    ensures Vpnv4Run(MpbgpLayout(asn, rid, peers, vps), |peers|)
  {
  }

  /** The MP-BGP section holds nothing but BGP lines. */
  lemma MpbgpKinds(asn: string, rid: string, peers: seq<string>, vps: seq<VrfPeer>)
    ensures forall l :: l in MpbgpLayout(asn, rid, peers, vps) ==> BgpLine(l)
  {
    VrfBlocksKinds(vps);
  }

  // --------------------------------------------------------------- CE BGP

  /** A CE's BGP section: its process, the upstream PE as sole neighbour in
      `remoteAs`, one `network` line per `(network, mask)`, a closing `!`. */
  function CeBgpLayout(asn: string, peIp: string, remoteAs: string, nets: seq<(string, string)>): (ls: seq<Line>)
    ensures |ls| == 3 + |nets|
    ensures ls[0] == RouterBgp(asn) && ls[1] == Neighbor(false, peIp, RemoteAs(remoteAs))
    ensures forall k :: 0 <= k < |nets| ==> ls[2 + k] == Network(nets[k].0, nets[k].1)
    ensures ls[|ls| - 1] == Bang
    ensures forall l :: l in ls ==> BgpLine(l)
  {
    [RouterBgp(asn), Neighbor(false, peIp, RemoteAs(remoteAs))]
      + seq(|nets|, k requires 0 <= k < |nets| => Network(nets[k].0, nets[k].1))
      + [Bang]
  }

  /** The CE advertises exactly the given networks. */
  lemma CeBgpNetworkIn(asn: string, peIp: string, remoteAs: string, nets: seq<(string, string)>, net: string, mask: string)
    ensures Network(net, mask) in CeBgpLayout(asn, peIp, remoteAs, nets) <==> (net, mask) in nets
  {
    var ls := CeBgpLayout(asn, peIp, remoteAs, nets);
    if Network(net, mask) in ls {
      var i :| 0 <= i < |ls| && ls[i] == Network(net, mask);
      assert nets[i - 2] == (net, mask);
    }
    if (net, mask) in nets {
      var k :| 0 <= k < |nets| && nets[k] == (net, mask);
      assert ls[2 + k] == Network(net, mask);
    }
  }

  /** The CE's BGP section starts one BGP process, in the given AS. */
  lemma CeBgpProcess(asn: string, peIp: string, remoteAs: string, nets: seq<(string, string)>, x: string)
    ensures RouterBgp(x) in CeBgpLayout(asn, peIp, remoteAs, nets) <==> x == asn
  {
    var ls := CeBgpLayout(asn, peIp, remoteAs, nets);
    if RouterBgp(x) in ls {
      var i :| 0 <= i < |ls| && ls[i] == RouterBgp(x);
      assert i == 0;
    }
  }
}
