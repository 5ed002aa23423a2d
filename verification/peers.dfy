/** The lookups the emitters make across routers and links: the other PEs
    of a PE and their loopback addresses, the CE behind a VRF interface and
    the PE above a CE. */
module Peers {
  import opened Wrappers
  import opened Seqs
  import opened Dict
  import opened IPv4
  import opened Topology
  import opened Physical
  import opened Loopback
  import opened Build
  import opened Lines

  // ------------------------------------------------------------ PE peers

  predicate IsPeer(rs: Routers, self: string, n: string) {
    n in rs.m && rs.m[n].kind == PE && n != self
  }

  /** The routers of `keys` that are PEs other than `self`, in order. */
  function PeersIn(rs: Routers, self: string, keys: seq<string>): (ps: seq<string>)
    ensures forall n :: n in ps <==> n in keys && IsPeer(rs, self, n)
    ensures Distinct(keys) ==> Distinct(ps)
  {
    if |keys| == 0 then []
    else
      var init := PeersIn(rs, self, keys[..|keys| - 1]);
      var last := keys[|keys| - 1];
      assert keys == keys[..|keys| - 1] + [last];
      if IsPeer(rs, self, last) then init + [last] else init
  }

  /** The PE routers other than `self` in dict order: the routers both
      variants' MP-BGP loops give sessions to. */
  function PePeers(rs: Routers, self: string): (ps: seq<string>)
    ensures Valid(rs) ==> forall n :: n in ps <==> IsPeer(rs, self, n)
    ensures Valid(rs) ==> Distinct(ps)
    ensures self !in ps
  {
    PeersIn(rs, self, rs.keys)
  }

  /** The text of router `n`'s loopback address as each variant reads it:
      the generator indexes `["Loopback0"]["ip"]` and needs both keys; the
      config variant indexes `["Loopback0"]` and prints a missing address
      as `None`. */
  function LoopText(v: Variant, rs: Routers, n: string): (r: Result<string, Error>)
    ensures r.Failure? ==> r.error == MissingLoopback(n)
    ensures v == Generator ==> (r.Success? <==> LoopAddr(rs, n).Some?)
    ensures v == Generator && r.Success? ==> r.value == AddrText(LoopAddr(rs, n).value)
    ensures v == Config ==> (r.Success? <==> Lookup(rs, Endpoint(n, Loopback0)).Some?)
    ensures v == Config && r.Success? ==> r.value == IpText(Lookup(rs, Endpoint(n, Loopback0)).value)
  {
    var f := Lookup(rs, Endpoint(n, Loopback0));
    if f.None? then Failure(MissingLoopback(n))
    else if v == Config then Success(IpText(f.value))
    else if f.value.addr.Some? then Success(AddrText(f.value.addr.value.ip))
    else Failure(MissingLoopback(n))
  }

  /** The loopback texts of `peers` in order, failing on the first peer
      whose loopback cannot be read. */
  function PeerTexts(v: Variant, rs: Routers, peers: seq<string>): (r: Result<seq<string>, Error>)
    ensures r.Success? <==> forall k :: 0 <= k < |peers| ==> LoopText(v, rs, peers[k]).Success?
    ensures r.Success? ==> |r.value| == |peers|
    ensures r.Success? ==> forall k :: 0 <= k < |peers| ==> r.value[k] == LoopText(v, rs, peers[k]).value
  {
    var xs := seq(|peers|, k requires 0 <= k < |peers| => LoopText(v, rs, peers[k]));
    assert forall k :: 0 <= k < |peers| ==> xs[k] == LoopText(v, rs, peers[k]);
    Collect(xs, 0)
  }

  /** The texts stop at the first peer whose loopback cannot be read, and
      the error names that peer. */
  lemma PeerTextsFailsAt(v: Variant, rs: Routers, peers: seq<string>, k: nat)
    requires k < |peers| && LoopText(v, rs, peers[k]).Failure?
    requires forall j :: 0 <= j < k ==> LoopText(v, rs, peers[j]).Success?
    ensures PeerTexts(v, rs, peers) == Failure(MissingLoopback(peers[k]))
  {
    var xs := seq(|peers|, j requires 0 <= j < |peers| => LoopText(v, rs, peers[j]));
    CollectFailsAt(xs, 0, k);
  }

  // ------------------------------------- the CE behind a PE interface (generator)

  /** Endpoint `ep` is a CE's, on a router other than the PE `pe`. */
  predicate CeFacing(rs: Routers, pe: string, ep: Endpoint) {
    ep.router != pe && IsCe(rs, ep)
  }

  /** The link holds the PE interface and a CE endpoint facing it. */
  predicate CeLink(rs: Routers, pe: string, iface: string, link: Link) {
    Endpoint(pe, iface) in link && exists j :: 0 <= j < |link| && CeFacing(rs, pe, link[j])
  }

  /** Where `__find_ce_peer(pe, iface)` returns: the first link holding
      `(pe, iface)` that has a CE endpoint, and the first CE endpoint on it;
      links holding the interface but no CE are passed over. */
  function CePeerAt(rs: Routers, links: seq<Link>, pe: string, iface: string): (r: Option<(nat, nat)>)
    ensures r.Some? ==> r.value.0 < |links| && r.value.1 < |links[r.value.0]|
    ensures r.Some? ==> Endpoint(pe, iface) in links[r.value.0] && CeFacing(rs, pe, links[r.value.0][r.value.1])
    ensures r.Some? ==> forall j :: 0 <= j < r.value.1 ==> !CeFacing(rs, pe, links[r.value.0][j])
    ensures r.Some? ==> forall l :: 0 <= l < r.value.0 ==> !CeLink(rs, pe, iface, links[l])
    ensures r.None? <==> forall l :: 0 <= l < |links| ==> !CeLink(rs, pe, iface, links[l])
  {
    var l := FirstWhere(links, (link: Link) => CeLink(rs, pe, iface, link), 0);
    if l.None? then None
    else
      // the link qualifies because it has a CE endpoint, so the inner search finds one
      var link := links[l.value];
      assert CeLink(rs, pe, iface, link);
      var j := FirstWhere(link, (ep: Endpoint) => CeFacing(rs, pe, ep), 0);
      Some((l.value, j.value))
  }

  /** Position `j` of link `l` is where `__find_ce_peer(pe, iface)` stops:
      `l` is the first link holding the PE interface and a CE endpoint, and
      `j` the first CE endpoint on it. */
  predicate FirstCeHit(rs: Routers, links: seq<Link>, pe: string, iface: string, l: nat, j: nat) {
    && l < |links| && j < |links[l]|
    && CeLink(rs, pe, iface, links[l]) && CeFacing(rs, pe, links[l][j])
    && (forall l' :: 0 <= l' < l ==> !CeLink(rs, pe, iface, links[l']))
    && (forall j' :: 0 <= j' < j ==> !CeFacing(rs, pe, links[l][j']))
  }

  /** `(ip, as)` of the CE behind the PE interface, `("0.0.0.0", 0)` when none. */
  function GenCePeer(rs: Routers, links: seq<Link>, pe: string, iface: string): (r: (string, string))
    requires Resolved(rs, links)
    ensures (forall l :: 0 <= l < |links| ==> !CeLink(rs, pe, iface, links[l])) ==> r == ("0.0.0.0", "0")
  {
    match CePeerAt(rs, links, pe, iface)
    case None => ("0.0.0.0", "0")
    case Some(hit) =>
      var ep := links[hit.0][hit.1];
      (AddrText(Lookup(rs, ep).value.addr.value.ip), OptNatText(rs.m[ep.router].asn))
  }

  /** Where a link holds the PE interface with a CE on it, the peer is the
      first CE endpoint of the first such link: its interface's address and
      its router's AS. */
  lemma GenCePeerAt(rs: Routers, links: seq<Link>, pe: string, iface: string, l: nat, j: nat)
    requires Resolved(rs, links) && FirstCeHit(rs, links, pe, iface, l, j)
    ensures Addressed(rs, links[l][j])
    ensures GenCePeer(rs, links, pe, iface)
      == (AddrText(Lookup(rs, links[l][j]).value.addr.value.ip), OptNatText(rs.m[links[l][j].router].asn))
  {
    var hit := CePeerAt(rs, links, pe, iface);
    assert hit.Some?;
    assert hit.value.0 == l;
    assert hit.value.1 == j;
  }

  // ----------------------------------------------- the PE above a CE (generator)

  /** Some endpoint of the link is on router `n`. */
  predicate Touches(link: Link, n: string) {
    exists j :: 0 <= j < |link| && link[j].router == n
  }

  /** Endpoint `ep` is a PE's, on a router other than the CE `ce`. */
  predicate PeFar(rs: Routers, ce: string, ep: Endpoint) {
    ep.router != ce && KindOf(rs, ep.router) == Some(PE)
  }

  /** The inner loop of `__generate_ce_bgp` from endpoint `j` on: each PE
      endpoint overwrites the address found so far. */
  function ScanLink(rs: Routers, ce: string, link: Link, j: nat, acc: Option<Endpoint>): Option<Endpoint>
    requires j <= |link|
    decreases |link| - j
  {
    if j == |link| then acc
    else ScanLink(rs, ce, link, j + 1, if PeFar(rs, ce, link[j]) then Some(link[j]) else acc)
  }

  /** The outer loop from link `i` on: links the CE is on are scanned, the
      others skipped; nothing stops the loop early. */
  function UpstreamScan(rs: Routers, ce: string, links: seq<Link>, i: nat, acc: Option<Endpoint>): Option<Endpoint>
    requires i <= |links|
    decreases |links| - i
  {
    if i == |links| then acc
    else UpstreamScan(rs, ce, links, i + 1, if Touches(links[i], ce) then ScanLink(rs, ce, links[i], 0, acc) else acc)
  }

  /** Position of the last PE endpoint of a link. */
  function LastPe(rs: Routers, ce: string, link: Link): (r: Option<nat>)
    ensures r.Some? ==> r.value < |link| && PeFar(rs, ce, link[r.value])
    ensures r.Some? ==> forall j :: r.value < j < |link| ==> !PeFar(rs, ce, link[j])
    ensures r.None? <==> forall j :: 0 <= j < |link| ==> !PeFar(rs, ce, link[j])
  {
    LastWhere(link, (ep: Endpoint) => PeFar(rs, ce, ep), |link|)
  }

  /** A link the CE is on, with a PE endpoint. */
  predicate UpLink(rs: Routers, ce: string, link: Link) {
    Touches(link, ce) && LastPe(rs, ce, link).Some?
  }

  /** Position of the last link the CE shares with a PE. */
  function LastUpLink(rs: Routers, ce: string, links: seq<Link>): (r: Option<nat>)
    ensures r.Some? ==> r.value < |links| && UpLink(rs, ce, links[r.value])
    ensures r.Some? ==> forall l :: r.value < l < |links| ==> !UpLink(rs, ce, links[l])
    ensures r.None? <==> forall l :: 0 <= l < |links| ==> !UpLink(rs, ce, links[l])
  {
    LastWhere(links, (link: Link) => UpLink(rs, ce, link), |links|)
  }

  /** The PE endpoint a CE peers with in the generator: the last PE endpoint
      of the last link the CE shares with a PE. */
  function GenUpstream(rs: Routers, ce: string, links: seq<Link>): (r: Option<Endpoint>)
    ensures r.Some? ==> PeFar(rs, ce, r.value)
    ensures r.Some? ==> exists l :: 0 <= l < |links| && Touches(links[l], ce) && r.value in links[l]
    ensures r.None? <==> forall l, j :: 0 <= l < |links| && Touches(links[l], ce) && 0 <= j < |links[l]| ==>
      !PeFar(rs, ce, links[l][j])
  {
    match LastUpLink(rs, ce, links)
    case None =>
      forall l, j | 0 <= l < |links| && Touches(links[l], ce) && 0 <= j < |links[l]|
        ensures !PeFar(rs, ce, links[l][j])
      {
        assert !UpLink(rs, ce, links[l]);
      }
      None
    case Some(l) =>
      var k := LastPe(rs, ce, links[l]).value;
      Some(links[l][k])
  }

  /** The inner loop leaves the last PE endpoint at or after `j`, or what it
      started with when there is none. */
  lemma {:induction false} ScanLinkLast(rs: Routers, ce: string, link: Link, j: nat, acc: Option<Endpoint>)
    requires j <= |link|
    ensures var k := LastPe(rs, ce, link);
      ScanLink(rs, ce, link, j, acc) == if k.Some? && k.value >= j then Some(link[k.value]) else acc
    decreases |link| - j
  {
    if j < |link| {
      ScanLinkLast(rs, ce, link, j + 1, if PeFar(rs, ce, link[j]) then Some(link[j]) else acc);
    }
  }

  /** The outer loop leaves the last PE endpoint of the last link at or after
      `i` the CE shares with a PE, or what it started with when there is none. */
  lemma {:induction false} UpstreamScanLast(rs: Routers, ce: string, links: seq<Link>, i: nat, acc: Option<Endpoint>)
    requires i <= |links|
    ensures var l := LastUpLink(rs, ce, links);
      UpstreamScan(rs, ce, links, i, acc)
        == if l.Some? && l.value >= i then Some(links[l.value][LastPe(rs, ce, links[l.value]).value]) else acc
    decreases |links| - i
  {
    if i < |links| {
      ScanLinkLast(rs, ce, links[i], 0, acc);
      UpstreamScanLast(rs, ce, links, i + 1, if Touches(links[i], ce) then ScanLink(rs, ce, links[i], 0, acc) else acc);
    }
  }

  /** The loops of `__generate_ce_bgp`, which keep overwriting the address,
      find exactly the generator's upstream PE endpoint. */
  lemma UpstreamScanIsLast(rs: Routers, ce: string, links: seq<Link>)
    ensures UpstreamScan(rs, ce, links, 0, None) == GenUpstream(rs, ce, links)
  {
    UpstreamScanLast(rs, ce, links, 0, None);
  }

  // ------------------------------------------------ the PE above a CE (config)

  /** A two-endpoint link with an endpoint on router `n`. */
  predicate PairTouches(link: Link, n: string) {
    |link| == 2 && (link[0].router == n || link[1].router == n)
  }

  /** The endpoint `_generate_ce_bgp` takes across a pair link from `n`:
      the first when the second is `n`'s, the second otherwise. */
  function Across(link: Link, n: string): (ep: Endpoint)
    requires |link| == 2
    ensures ep in link
    ensures (link[0].router == n) != (link[1].router == n) ==> ep.router != n
  {
    if link[1].router == n then link[0] else link[1]
  }

  /** The endpoint a CE peers with in the config variant: across the first
      two-endpoint link it is on, whatever the router there is. */
  function CfgUpstream(links: seq<Link>, ce: string): (r: Option<Endpoint>)
    ensures r.Some? ==> exists l :: (0 <= l < |links| && PairTouches(links[l], ce) && r.value == Across(links[l], ce)
      && forall l' :: 0 <= l' < l ==> !PairTouches(links[l'], ce))
    ensures r.None? <==> forall l :: 0 <= l < |links| ==> !PairTouches(links[l], ce)
  {
    match FirstWhere(links, (link: Link) => PairTouches(link, ce), 0)
    case None => None
    case Some(l) => Some(Across(links[l], ce))
  }

  /** A CE on a single link, a two-endpoint link to a PE, peers with that
      PE's endpoint in both variants. */
  lemma UpstreamAgree(rs: Routers, ce: string, links: seq<Link>, L: nat, i: string, ep: Endpoint)
    requires L < |links| && (links[L] == [Endpoint(ce, i), ep] || links[L] == [ep, Endpoint(ce, i)])
    requires PeFar(rs, ce, ep)
    requires forall l :: 0 <= l < |links| && l != L ==> !Touches(links[l], ce)
    ensures GenUpstream(rs, ce, links) == Some(ep)
    ensures CfgUpstream(links, ce) == Some(ep)
  {
    var link := links[L];
    var c := if link[0] == ep then 1 else 0;
    assert link[c].router == ce && link[1 - c] == ep;
    assert Touches(link, ce);
    assert LastPe(rs, ce, link) == Some(1 - c);
    assert UpLink(rs, ce, link);
    assert LastUpLink(rs, ce, links) == Some(L);
    assert PairTouches(link, ce);
  }

  // ------------------------------------------- the CE behind a VRF (config)

  /** A two-endpoint link holding the PE interface `(h, a)` and an endpoint
      on another router. */
  predicate VrfLink(h: string, a: string, link: Link) {
    |link| == 2 && Endpoint(h, a) in link && (link[0].router != h || link[1].router != h)
  }

  /** `next(ep for ep in subnet if ep["router"] != hostname)`. */
  function FirstOther(link: Link, h: string): (ep: Endpoint)
    requires |link| == 2 && (link[0].router != h || link[1].router != h)
    ensures ep in link && ep.router != h
  {
    if link[0].router != h then link[0] else link[1]
  }

  /** The endpoint `_get_ce_ip` reads: the first router-other-than-`h`
      endpoint of the first two-endpoint link holding `(h, a)`. */
  function VrfNeighbour(links: seq<Link>, h: string, a: string): (r: Option<Endpoint>)
    ensures r.Some? ==> exists l :: (0 <= l < |links| && VrfLink(h, a, links[l]) && r.value == FirstOther(links[l], h)
      && forall l' :: 0 <= l' < l ==> !VrfLink(h, a, links[l']))
    ensures r.None? <==> forall l :: 0 <= l < |links| ==> !VrfLink(h, a, links[l])
  {
    match FirstWhere(links, (link: Link) => VrfLink(h, a, link), 0)
    case None => None
    case Some(l) => Some(FirstOther(links[l], h))
  }

  /** `_get_ce_ip`: the neighbour's address text, `0.0.0.0` without one. */
  function CfgCeIp(rs: Routers, links: seq<Link>, h: string, a: string): (ip: string)
    requires Resolved(rs, links)
    ensures (forall l :: 0 <= l < |links| ==> !VrfLink(h, a, links[l])) ==> ip == "0.0.0.0"
    ensures VrfNeighbour(links, h, a).Some? ==>
      Addressed(rs, VrfNeighbour(links, h, a).value) && ip == AddrText(Lookup(rs, VrfNeighbour(links, h, a).value).value.addr.value.ip)
  {
    match VrfNeighbour(links, h, a)
    case None => "0.0.0.0"
    case Some(ep) =>
      assert Addressed(rs, ep);
      IpText(Lookup(rs, ep).value)
  }

  /** `next(r for r in {subnet[0]["router"], subnet[1]["router"]} if r != hostname)`:
      the set holds at most one router other than `h`, so its order does not matter. */
  function OtherRouter(link: Link, h: string): (r: Option<string>)
    requires |link| == 2
    ensures r.Some? ==> r.value != h && (r.value == link[0].router || r.value == link[1].router)
    ensures r.None? <==> link[0].router == h && link[1].router == h
  {
    if link[0].router != h then Some(link[0].router)
    else if link[1].router != h then Some(link[1].router)
    else None
  }

  /** A two-endpoint link with `h` on it whose other router is a CE with a
      non-empty name. */
  predicate CeAsLink(rs: Routers, h: string, link: Link) {
    && |link| == 2 && (link[0].router == h || link[1].router == h)
    && var o := OtherRouter(link, h); o.Some? && o.value != "" && KindOf(rs, o.value) == Some(CE)
  }

  /** `_get_ce_as` as written: the AS of the CE on the first two-endpoint
      link of `h` that has one, whichever interface of `h` the link is on. */
  function CfgCeAsWritten(rs: Routers, links: seq<Link>, h: string): (r: string)
    ensures (forall l :: 0 <= l < |links| ==> !CeAsLink(rs, h, links[l])) ==> r == "0"
    ensures forall l :: 0 <= l < |links| && CeAsLink(rs, h, links[l]) && (forall l' :: 0 <= l' < l ==> !CeAsLink(rs, h, links[l'])) ==>
      r == OptNatText(rs.m[OtherRouter(links[l], h).value].asn)
  {
    var hit := FirstWhere(links, (link: Link) => CeAsLink(rs, h, link), 0);
    if hit.None? then "0"
    else OptNatText(rs.m[OtherRouter(links[hit.value], h).value].asn)
  }

  /** The AS of the CE behind the VRF interface `(h, a)`: the AS of the
      router whose address `_get_ce_ip` reads, when that router is a CE. */
  function CfgCeAs(rs: Routers, links: seq<Link>, h: string, a: string): (r: string)
    ensures (forall l :: 0 <= l < |links| ==> !VrfLink(h, a, links[l])) ==> r == "0"
    ensures VrfNeighbour(links, h, a).Some? && !IsCe(rs, VrfNeighbour(links, h, a).value) ==> r == "0"
  {
    match VrfNeighbour(links, h, a)
    case None => "0"
    case Some(ep) => if IsCe(rs, ep) then OptNatText(rs.m[ep.router].asn) else "0"
  }

  /** When the VRF interface `(h, a)` is on one link only, a two-endpoint
      link to `ep`, the session the config variant writes for the VRF is
      with `ep`: its address and, when `ep` is a CE's, its AS. */
  lemma CfgVrfSession(rs: Routers, links: seq<Link>, h: string, a: string, L: nat, ep: Endpoint)
    requires Resolved(rs, links)
    requires L < |links| && (links[L] == [Endpoint(h, a), ep] || links[L] == [ep, Endpoint(h, a)]) && ep.router != h
    requires forall l :: 0 <= l < |links| && l != L ==> Endpoint(h, a) !in links[l]
    ensures VrfNeighbour(links, h, a) == Some(ep)
    ensures Addressed(rs, ep) && CfgCeIp(rs, links, h, a) == AddrText(Lookup(rs, ep).value.addr.value.ip)
    ensures CfgCeAs(rs, links, h, a) == if IsCe(rs, ep) then OptNatText(rs.m[ep.router].asn) else "0"
  {
    var link := links[L];
    assert VrfLink(h, a, link);
    assert FirstOther(link, h) == ep;
    assert ep == link[0] || ep == link[1];
  }

  /** In the same situation, with `ep` a CE, the session the config
      variant as written gives the VRF and the one the generator gives it
      have the same address, and the same AS exactly when the CE on the
      PE's first CE-bearing pair link `l0` has the AS text of `ep`. That link
      comes no later than the VRF's own, and when it comes earlier it does
      not hold the VRF's interface. */
  lemma CeAsWrittenVsIntended(rs: Routers, links: seq<Link>, h: string, a: string, L: nat, ep: Endpoint) returns (l0: nat)
    requires Resolved(rs, links)
    requires L < |links| && (links[L] == [Endpoint(h, a), ep] || links[L] == [ep, Endpoint(h, a)]) && ep.router != h
    requires forall l :: 0 <= l < |links| && l != L ==> Endpoint(h, a) !in links[l]
    requires IsCe(rs, ep) && ep.router != ""
    ensures l0 <= L && CeAsLink(rs, h, links[l0]) && forall l' :: 0 <= l' < l0 ==> !CeAsLink(rs, h, links[l'])
    ensures l0 < L ==> Endpoint(h, a) !in links[l0]
    ensures CfgCeAsWritten(rs, links, h) == OptNatText(rs.m[OtherRouter(links[l0], h).value].asn)
    ensures GenCePeer(rs, links, h, a).1 == CfgCeAs(rs, links, h, a) == OptNatText(rs.m[ep.router].asn)
    ensures GenCePeer(rs, links, h, a).0 == CfgCeIp(rs, links, h, a)
    ensures CfgCeAsWritten(rs, links, h) == GenCePeer(rs, links, h, a).1 <==>
      OptNatText(rs.m[OtherRouter(links[l0], h).value].asn) == OptNatText(rs.m[ep.router].asn)
  {
    CfgVrfSession(rs, links, h, a, L, ep);
    var link := links[L];
    var j := if link[0] == ep then 0 else 1;
    assert CeFacing(rs, h, link[j]) && CeLink(rs, h, a, link);
    assert !CeFacing(rs, h, link[1 - j]);
    assert CePeerAt(rs, links, h, a) == Some((L, j));
    assert OtherRouter(link, h) == Some(ep.router);
    assert CeAsLink(rs, h, link);
    var hit := FirstWhere(links, (x: Link) => CeAsLink(rs, h, x), 0);
    l0 := hit.value;
  }

  /** In the same situation, when no pair link of the PE before the VRF's
      own has a CE on it, the generator's `__find_ce_peer` and the config
      variant as written give the VRF the same neighbour address and AS. */
  lemma VrfPeerAgree(rs: Routers, links: seq<Link>, h: string, a: string, L: nat, ep: Endpoint)
    requires Resolved(rs, links)
    requires L < |links| && (links[L] == [Endpoint(h, a), ep] || links[L] == [ep, Endpoint(h, a)]) && ep.router != h
    requires forall l :: 0 <= l < |links| && l != L ==> Endpoint(h, a) !in links[l]
    requires IsCe(rs, ep) && ep.router != ""
    requires forall l :: 0 <= l < L ==> !CeAsLink(rs, h, links[l])
    ensures GenCePeer(rs, links, h, a) == (CfgCeIp(rs, links, h, a), CfgCeAsWritten(rs, links, h))
  {
    var l0 := CeAsWrittenVsIntended(rs, links, h, a, L, ep);
    assert l0 == L;
  }

  /** Two CEs on two interfaces of one PE, the VRF on the second. */
  function TwoCeRouters(): Routers {
    Dict(["pe", "ce1", "ce2"], map[
      "pe" := Router(PE, Some(1), [], Dict([], map[]), None),
      "ce1" := Router(CE, Some(100), [], Dict([], map[]), None),
      "ce2" := Router(CE, Some(200), [], Dict([], map[]), None)])
  }

  function TwoCeLinks(): seq<Link> {
    [[Endpoint("pe", "g1"), Endpoint("ce1", "g0")], [Endpoint("pe", "g2"), Endpoint("ce2", "g0")]]
  }

  /** `_get_ce_as` ignores the VRF: for the VRF on `g2`, whose neighbour is
      `ce2` in AS 200, it returns the AS of `ce1`, the CE on the PE's first
      link. */
  lemma CeAsWrittenIgnoresVrf()
    ensures CfgCeAsWritten(TwoCeRouters(), TwoCeLinks(), "pe") == OptNatText(Some(100))
    ensures CfgCeAs(TwoCeRouters(), TwoCeLinks(), "pe", "g2") == OptNatText(Some(200))
    ensures OptNatText(Some(100)) != OptNatText(Some(200))
  {
    var rs, links := TwoCeRouters(), TwoCeLinks();
    assert CeAsLink(rs, "pe", links[0]);
    assert VrfLink("pe", "g2", links[1]);
    assert !VrfLink("pe", "g2", links[0]);
  }
}
