/** The physical pass both variants run after their loopback pass: every link,
    in declared order, draws one fresh /24 and its endpoints receive the hosts of
    that /24 in endpoint order. The variants differ only in the flags they set. */
module Physical {
  import opened Wrappers
  import opened IPv4
  import opened AddressPool
  import opened Seqs
  import opened Dict
  import opened Topology

  datatype Variant = Generator | Config

  /** `len(list(IPv4Network(x/24).hosts()))`. */
  const LinkHosts: nat := 254

  /** One /24 drawn by the pass: from which AS and where it starts. */
  datatype Draw = Draw(asn: nat, base: Addr)

  datatype PassOut = PassOut(ases: Ases, routers: Routers, draws: seq<Draw>)

  /** Host `i` of the /24 starting at `base`. */
  function LinkHost(base: Addr, i: nat): (a: Addr)
    requires base % 256 == 0 && i < LinkHosts
    ensures a == base + 1 + i
  {
    Pow2Values();
    var c := Cidr(base, 24);
    assert HostCount(c) == LinkHosts;
    HostAt(c, i)
  }

  /** A link host lies inside its /24 and is neither its network nor its
      broadcast address, so distinct positions get distinct addresses of the
      same subnet. */
  lemma LinkHostInBlock(base: Addr, i: nat)
    requires base % 256 == 0 && i < LinkHosts
    ensures NetworkOf(LinkHost(base, i), 24) == base
    ensures base < LinkHost(base, i) < base + 255
  {
    Pow2Values();
    NetworkOfInBlock(Cidr(base, 24), 1 + i);
  }

  lemma LinkHostsDistinct(base: Addr, i: nat, j: nat)
    requires base % 256 == 0 && i < j < LinkHosts
    ensures LinkHost(base, i) < LinkHost(base, j)
    ensures NetworkOf(LinkHost(base, i), 24) == NetworkOf(LinkHost(base, j), 24) == base
  {
    LinkHostInBlock(base, i);
    LinkHostInBlock(base, j);
  }

  /** The fields one endpoint's interface receives: address and mask always;
      the generator sets `mpls`/`internal` to "router is not a CE", the config
      variant sets both only on links without a CE and otherwise leaves them. */
  function Stamp(v: Variant, f: Iface, a: IfAddr, kind: RouterKind, ceLink: bool): (g: Iface)
    ensures g.addr == Some(a) && g.ceTest == f.ceTest && g.ospfCost == f.ospfCost
    ensures v == Generator ==> (g.mpls <==> kind != CE) && (g.internal <==> kind != CE)
    ensures v == Config && !ceLink ==> g.mpls && g.internal
    ensures v == Config && ceLink ==> g.mpls == f.mpls && g.internal == f.internal
  {
    match v
    case Generator => f.(addr := Some(a), mpls := kind != CE, internal := kind != CE)
    case Config =>
      if ceLink then f.(addr := Some(a)) else f.(addr := Some(a), mpls := true, internal := true)
  }

  /** Stamping an interface twice leaves what the second stamp alone leaves. */
  lemma StampTwice(v: Variant, f: Iface, a1: IfAddr, a2: IfAddr, kind: RouterKind, ceLink: bool)
    ensures Stamp(v, Stamp(v, f, a1, kind, ceLink), a2, kind, ceLink) == Stamp(v, f, a2, kind, ceLink)
  {
  }

  /** The short-circuiting `any(... == "CE" ...)` followed by `next(...)`: the
      position of the first CE endpoint from `i` on, failing on an unknown
      router met before one is found. */
  function FirstCe(rs: Routers, link: Link, i: nat): (r: Result<Option<nat>, Error>)
    requires i <= |link|
    decreases |link| - i
    ensures r.Success? && r.value.Some? ==>
      && i <= r.value.value < |link| && IsCe(rs, link[r.value.value])
      && forall j :: i <= j < r.value.value ==> link[j].router in rs.m && !IsCe(rs, link[j])
    ensures r.Success? && r.value.None? ==>
      forall j :: i <= j < |link| ==> link[j].router in rs.m && !IsCe(rs, link[j])
    ensures (forall j :: i <= j < |link| ==> link[j].router in rs.m) ==> r.Success?
    ensures r.Failure? ==> r.error.UnknownRouter? && r.error.name !in rs.m
  {
    if i == |link| then Success(None)
    else if link[i].router !in rs.m then Failure(UnknownRouter(link[i].router))
    else if rs.m[link[i].router].kind == CE then Success(Some(i))
    else FirstCe(rs, link, i + 1)
  }

  /** The AS whose physical range feeds the link: the first CE endpoint's, or
      the backbone's when the link has no CE. An absent or undeclared CE AS is
      the `KeyError` of the AS lookup. */
  function OwnerAs(ases: Ases, rs: Routers, backbone: nat, link: Link, ce: Option<nat>): (r: Result<nat, Error>)
    requires ce.Some? ==> ce.value < |link| && IsCe(rs, link[ce.value])
    ensures r.Success? ==> r.value in ases.m
    ensures r.Success? && ce.None? ==> r.value == backbone
    ensures r.Success? && ce.Some? ==> Some(r.value) == rs.m[link[ce.value].router].asn
    ensures r.Failure? <==>
      if ce.None? then backbone !in ases.m
      else
        var asn := rs.m[link[ce.value].router].asn;
        asn.None? || asn.value !in ases.m
  {
    match ce
    case None => if backbone in ases.m then Success(backbone) else Failure(MissingBackbone)
    case Some(c) =>
      var name := link[c].router;
      match rs.m[name].asn
      case None => Failure(UnknownAs(name))
      case Some(n) => if n in ases.m then Success(n) else Failure(UnknownAs(name))
  }

  /** `next(phys_iter)` of AS `asn`. */
  function TakeSubnet(ases: Ases, asn: nat): (r: Result<(Addr, Ases), Error>)
    requires asn in ases.m && PoolsOk(ases)
    ensures r.Success? <==> ases.m[asn].physical.Some? && ases.m[asn].physical.value.used < SubnetCount(ases.m[asn].physical.value.block)
    ensures r.Failure? && ases.m[asn].physical.None? ==> r.error == MissingRange(asn, PhysicalPool)
    ensures r.Failure? && ases.m[asn].physical.Some? ==> r.error == PoolExhausted(asn, PhysicalPool)
    ensures r.Success? ==>
      var p := ases.m[asn].physical.value;
      && r.value.0 == SubnetAt(p.block, p.used)
      && r.value.1 == ases.(m := ases.m[asn := ases.m[asn].(physical := Some(p.(used := p.used + 1)))])
  {
    match ases.m[asn].physical
    case None => Failure(MissingRange(asn, PhysicalPool))
    case Some(p) =>
      match NextSubnet(p)
      case None => Failure(PoolExhausted(asn, PhysicalPool))
      case Some((b, p')) => Success((b, ases.(m := ases.m[asn := ases.m[asn].(physical := Some(p'))])))
  }

  /** The interface endpoint `ep` ends up with when it is stamped as the
      endpoint at position `i` of a link whose /24 starts at `base`; `None`
      when the endpoint names no interface or the /24 has no host `i`. */
  function StampAt(v: Variant, rs: Routers, ep: Endpoint, base: Addr, ceLink: bool, i: nat): Option<Iface>
    requires base % 256 == 0
  {
    if Lookup(rs, ep).Some? && i < LinkHosts
    then Some(Stamp(v, Lookup(rs, ep).value, IfAddr(LinkHost(base, i), 24), rs.m[ep.router].kind, ceLink))
    else None
  }

  /** One iteration of the inner loop: endpoint `ep` at position `i`. The
      router lookup, the interface lookup and `hosts[idx]` fail in that order. */
  function StampEndpoint(v: Variant, rs: Routers, ep: Endpoint, base: Addr, ceLink: bool, i: nat): (r: Result<Routers, Error>)
    requires base % 256 == 0
    ensures r.Success? <==> Lookup(rs, ep).Some? && i < LinkHosts
    ensures r.Success? ==>
      && SameShape(rs, r.value)
      && r.value == UpdateIface(rs, ep, Stamp(v, Lookup(rs, ep).value, IfAddr(LinkHost(base, i), 24), rs.m[ep.router].kind, ceLink))
  {
    if ep.router !in rs.m then Failure(UnknownRouter(ep.router))
    else if ep.iface !in rs.m[ep.router].ifaces.m then Failure(UnknownInterface(ep.router, ep.iface))
    else if i >= LinkHosts then Failure(HostIndexOutOfRange(i))
    else
      var g := Stamp(v, Lookup(rs, ep).value, IfAddr(LinkHost(base, i), 24), rs.m[ep.router].kind, ceLink);
      LookupAfterUpdate(rs, ep, g, ep);
      Success(UpdateIface(rs, ep, g))
  }

  /** Every endpoint from position `i` on names an existing interface and has
      a host of the /24 to receive. */
  predicate AllResolve(rs: Routers, link: Link, i: nat)
    decreases |link| - i
  {
    i < |link| ==> Lookup(rs, link[i]).Some? && i < LinkHosts && AllResolve(rs, link, i + 1)
  }

  lemma {:induction false} AllResolveAt(rs: Routers, link: Link, i: nat, k: nat)
    requires AllResolve(rs, link, i) && i <= k < |link|
    ensures Lookup(rs, link[k]).Some? && k < LinkHosts
    decreases k - i
  {
    if k > i {
      AllResolveAt(rs, link, i + 1, k);
    }
  }

  lemma AllResolveMeans(rs: Routers, link: Link, i: nat)
    ensures AllResolve(rs, link, i) ==> forall k :: i <= k < |link| ==> Lookup(rs, link[k]).Some? && k < LinkHosts
  {
    if AllResolve(rs, link, i) {
      forall k | i <= k < |link| ensures Lookup(rs, link[k]).Some? && k < LinkHosts {
        AllResolveAt(rs, link, i, k);
      }
    }
  }

  lemma {:induction false} AllResolveShape(rs: Routers, rs': Routers, link: Link, i: nat)
    requires SameShape(rs, rs')
    ensures AllResolve(rs', link, i) <==> AllResolve(rs, link, i)
    decreases |link| - i
  {
    SameShapeLookup(rs, rs');
    if i < |link| {
      AllResolveShape(rs, rs', link, i + 1);
    }
  }

  /** The inner `for idx, ep in enumerate(link)` loop from position `i` on. */
  function AssignFrom(v: Variant, rs: Routers, link: Link, base: Addr, ceLink: bool, i: nat): (r: Result<Routers, Error>)
    requires base % 256 == 0 && i <= |link|
    decreases |link| - i
    ensures r.Success? <==> AllResolve(rs, link, i)
    ensures r.Success? ==> SameShape(rs, r.value)
  {
    if i == |link| then Success(rs)
    else
      var rs1 :- StampEndpoint(v, rs, link[i], base, ceLink, i);
      AllResolveShape(rs, rs1, link, i + 1);
      var r := AssignFrom(v, rs1, link, base, ceLink, i + 1);
      if r.Success? then SameShapeTrans(rs, rs1, r.value); r else r
  }

  /** What the loop leaves: an interface no endpoint from `i` on names is
      untouched; the interface at the LAST position `k` where an endpoint occurs
      carries host `k` of the /24, mask /24 and the variant's flags for its router. */
  lemma {:induction false} AssignFromEffect(v: Variant, rs: Routers, link: Link, base: Addr, ceLink: bool, i: nat)
    requires base % 256 == 0 && i <= |link|
    requires AssignFrom(v, rs, link, base, ceLink, i).Success?
    ensures forall ep :: ep !in link[i..] ==> Lookup(AssignFrom(v, rs, link, base, ceLink, i).value, ep) == Lookup(rs, ep)
    ensures forall k :: i <= k < |link| && link[k] !in link[k + 1..] ==>
      Lookup(AssignFrom(v, rs, link, base, ceLink, i).value, link[k]) == StampAt(v, rs, link[k], base, ceLink, k)
    decreases |link| - i
  {
    if i < |link| {
      var ep := link[i];
      var f := Lookup(rs, ep).value;
      var kind := rs.m[ep.router].kind;
      var g := Stamp(v, f, IfAddr(LinkHost(base, i), 24), kind, ceLink);
      var rs1 := UpdateIface(rs, ep, g);
      forall ep' ensures Lookup(rs1, ep') == if ep' == ep then Some(g) else Lookup(rs, ep') {
        LookupAfterUpdate(rs, ep, g, ep');
      }
      LookupAfterUpdate(rs, ep, g, ep);
      assert AssignFrom(v, rs, link, base, ceLink, i) == AssignFrom(v, rs1, link, base, ceLink, i + 1);
      AssignFromEffect(v, rs1, link, base, ceLink, i + 1);
      var rs' := AssignFrom(v, rs1, link, base, ceLink, i + 1).value;
      forall ep' | ep' !in link[i..] ensures Lookup(rs', ep') == Lookup(rs, ep') {
        NotInTail(link, i, ep');
      }
      forall k | i <= k < |link| && link[k] !in link[k + 1..]
        ensures Lookup(rs', link[k]) == StampAt(v, rs, link[k], base, ceLink, k)
      {
        AllResolveAt(rs, link, i, k);
        if k == i {
          assert link[i + 1..] == link[k + 1..];
        } else if link[k] == ep {
          StampTwice(v, f, IfAddr(LinkHost(base, i), 24), IfAddr(LinkHost(base, k), 24), kind, ceLink);
        }
      }
    }
  }

  /** One iteration of the outer loop over links. */
  function LinkStep(v: Variant, ases: Ases, rs: Routers, backbone: nat, link: Link): (r: Result<(Ases, Routers, Draw), Error>)
    requires PoolsOk(ases)
    ensures r.Success? ==> CursorsAdvanced(ases, r.value.0) && SameShape(rs, r.value.1)
    ensures r.Success? ==> r.value.2.base % 256 == 0
  {
    var ce :- FirstCe(rs, link, 0);
    var asn :- OwnerAs(ases, rs, backbone, link, ce);
    var t :- TakeSubnet(ases, asn);
    TakeSubnetAdvances(ases, asn);
    var rs' :- AssignFrom(v, rs, link, t.0, ce.Some?, 0);
    Success((t.1, rs', Draw(asn, t.0)))
  }

  /** Some endpoint of the link is on a CE router. */
  predicate HasCe(rs: Routers, link: Link) {
    exists j :: 0 <= j < |link| && IsCe(rs, link[j])
  }

  /** Position `c` holds the link's first CE endpoint. */
  predicate FirstCeAt(rs: Routers, link: Link, c: nat) {
    c < |link| && IsCe(rs, link[c]) && forall j :: 0 <= j < c ==> !IsCe(rs, link[j])
  }

  /** Pool selection: a link with a CE endpoint draws from the AS of its first
      CE endpoint, any other link from the backbone; the /24 is the next one of
      that AS's physical cursor, which moves by one while every other AS is
      left as it was. */
  lemma LinkStepDraw(v: Variant, ases: Ases, rs: Routers, backbone: nat, link: Link)
    requires PoolsOk(ases) && LinkStep(v, ases, rs, backbone, link).Success?
    ensures var d := LinkStep(v, ases, rs, backbone, link).value.2;
      && d.asn in ases.m && ases.m[d.asn].physical.Some?
      && (forall c: nat :: FirstCeAt(rs, link, c) ==> Some(d.asn) == rs.m[link[c].router].asn)
      && (!HasCe(rs, link) ==> d.asn == backbone)
      && var p := ases.m[d.asn].physical.value;
      && d.base == SubnetAt(p.block, p.used)
      && LinkStep(v, ases, rs, backbone, link).value.0 == Advance(ases, d.asn)
  {
    var ce := FirstCe(rs, link, 0).value;
    var asn := OwnerAs(ases, rs, backbone, link, ce).value;
    var t := TakeSubnet(ases, asn).value;
    var rs' := AssignFrom(v, rs, link, t.0, ce.Some?, 0).value;
    assert LinkStep(v, ases, rs, backbone, link).value == (t.1, rs', Draw(asn, t.0));
    if ce.Some? {
      assert HasCe(rs, link) by { assert IsCe(rs, link[ce.value]); }
      forall c: nat | FirstCeAt(rs, link, c) ensures c == ce.value { }
    } else {
      forall c: nat | FirstCeAt(rs, link, c) ensures false { }
    }
  }

  /** What one link does to the interfaces: every endpoint names an existing
      interface, the link has at most as many endpoints as a /24 has hosts,
      interfaces not on the link are untouched, and the interface at the last
      position `k` its endpoint occupies is stamped with host `k`. */
  lemma LinkStepEffect(v: Variant, ases: Ases, rs: Routers, backbone: nat, link: Link)
    requires PoolsOk(ases) && LinkStep(v, ases, rs, backbone, link).Success?
    ensures |link| <= LinkHosts
    ensures forall k :: 0 <= k < |link| ==> Lookup(rs, link[k]).Some?
    ensures var out := LinkStep(v, ases, rs, backbone, link).value;
      && (forall ep :: ep !in link ==> Lookup(out.1, ep) == Lookup(rs, ep))
      && forall k :: 0 <= k < |link| && link[k] !in link[k + 1..] ==>
        Lookup(out.1, link[k]) == StampAt(v, rs, link[k], out.2.base, HasCe(rs, link), k)
  {
    var ce := FirstCe(rs, link, 0).value;
    var asn := OwnerAs(ases, rs, backbone, link, ce).value;
    var t := TakeSubnet(ases, asn).value;
    var rs' := AssignFrom(v, rs, link, t.0, ce.Some?, 0).value;
    assert LinkStep(v, ases, rs, backbone, link).value == (t.1, rs', Draw(asn, t.0));
    AllResolveMeans(rs, link, 0);
    if |link| > 0 {
      AllResolveAt(rs, link, 0, |link| - 1);
    }
    AssignFromEffect(v, rs, link, t.0, ce.Some?, 0);
    assert link[0..] == link;
    assert HasCe(rs, link) == ce.Some? by {
      if ce.Some? {
        assert IsCe(rs, link[ce.value]);
      }
    }
  }

  lemma TakeSubnetAdvances(ases: Ases, asn: nat)
    requires asn in ases.m && PoolsOk(ases) && TakeSubnet(ases, asn).Success?
    ensures CursorsAdvanced(ases, TakeSubnet(ases, asn).value.1)
  {
    var ases' := TakeSubnet(ases, asn).value.1;
    assert ases'.m.Keys == ases.m.Keys;
  }

  /** The physical pass over all links, in declared order. */
  function PhysicalPass(v: Variant, ases: Ases, rs: Routers, backbone: nat, links: seq<Link>): (r: Result<PassOut, Error>)
    requires PoolsOk(ases)
    ensures r.Success? ==> |r.value.draws| == |links|
    decreases |links|
  {
    if |links| == 0 then Success(PassOut(ases, rs, []))
    else
      var step :- LinkStep(v, ases, rs, backbone, links[0]);
      CursorsAdvancedPools(ases, step.0);
      var rest :- PhysicalPass(v, step.0, step.1, backbone, links[1..]);
      Success(rest.(draws := [step.2] + rest.draws))
  }

  /** The pass only moves cursors forward and only fills in interface
      addresses and flags: no AS, router or interface appears or disappears. */
  lemma {:induction false} PassShape(v: Variant, ases: Ases, rs: Routers, backbone: nat, links: seq<Link>)
    requires PoolsOk(ases) && PhysicalPass(v, ases, rs, backbone, links).Success?
    ensures var out := PhysicalPass(v, ases, rs, backbone, links).value;
      CursorsAdvanced(ases, out.ases) && PoolsOk(out.ases) && SameShape(rs, out.routers)
    decreases |links|
  {
    if |links| > 0 {
      var step := LinkStep(v, ases, rs, backbone, links[0]).value;
      CursorsAdvancedPools(ases, step.0);
      PassShape(v, step.0, step.1, backbone, links[1..]);
      var rest := PhysicalPass(v, step.0, step.1, backbone, links[1..]).value;
      CursorsAdvancedTrans(ases, step.0, rest.ases);
      SameShapeTrans(rs, step.1, rest.routers);
    }
  }

  /** The pass over a non-empty link list is its first link's step followed by
      the pass over the remaining links from the state that step leaves. */
  lemma PassUnfold(v: Variant, ases: Ases, rs: Routers, backbone: nat, links: seq<Link>)
    requires PoolsOk(ases) && |links| > 0 && PhysicalPass(v, ases, rs, backbone, links).Success?
    ensures LinkStep(v, ases, rs, backbone, links[0]).Success?
    ensures var step := LinkStep(v, ases, rs, backbone, links[0]).value;
      && PoolsOk(step.0)
      && PhysicalPass(v, step.0, step.1, backbone, links[1..]).Success?
      && PhysicalPass(v, ases, rs, backbone, links).value
         == PhysicalPass(v, step.0, step.1, backbone, links[1..]).value.(draws := [step.2] + PhysicalPass(v, step.0, step.1, backbone, links[1..]).value.draws)
  {
    var step := LinkStep(v, ases, rs, backbone, links[0]).value;
    CursorsAdvancedPools(ases, step.0);
  }

  /** No link names the endpoint. */
  predicate OffLinks(links: seq<Link>, ep: Endpoint) {
    forall l :: 0 <= l < |links| ==> ep !in links[l]
  }

  /** An interface no link names leaves the pass as it entered it. */
  lemma {:induction false} PassFrame(v: Variant, ases: Ases, rs: Routers, backbone: nat, links: seq<Link>, ep: Endpoint)
    requires PoolsOk(ases) && PhysicalPass(v, ases, rs, backbone, links).Success?
    requires OffLinks(links, ep)
    ensures Lookup(PhysicalPass(v, ases, rs, backbone, links).value.routers, ep) == Lookup(rs, ep)
    decreases |links|
  {
    if |links| > 0 {
      var step := LinkStep(v, ases, rs, backbone, links[0]).value;
      LinkStepEffect(v, ases, rs, backbone, links[0]);
      assert ep !in links[0];
      CursorsAdvancedPools(ases, step.0);
      OffLinksTail(links, ep);
      PassFrame(v, step.0, step.1, backbone, links[1..], ep);
    }
  }

  lemma OffLinksTail(links: seq<Link>, ep: Endpoint)
    requires |links| > 0 && OffLinks(links, ep)
    ensures OffLinks(links[1..], ep)
  {
    forall l | 0 <= l < |links| - 1 ensures ep !in links[1..][l] {
      assert links[1..][l] == links[l + 1];
    }
  }

  /** `ep` last occurs in the link list at position `k` of link `l`. */
  predicate LastOccurrence(links: seq<Link>, ep: Endpoint, l: nat, k: nat) {
    && l < |links| && k < |links[l]| && links[l][k] == ep && ep !in links[l][k + 1..]
    && forall l' :: l < l' < |links| ==> ep !in links[l']
  }

  /** Dropping the first link: a last occurrence in a later link stays one,
      and a last occurrence in the first link means no later link names it. */
  lemma LastOccurrenceTail(links: seq<Link>, ep: Endpoint, l: nat, k: nat)
    requires LastOccurrence(links, ep, l, k)
    ensures l == 0 ==> OffLinks(links[1..], ep)
    ensures l > 0 ==> LastOccurrence(links[1..], ep, l - 1, k)
  {
    forall l' | 0 <= l' < |links| - 1 ensures links[1..][l'] == links[l' + 1] { }
  }

  /** `f` carries what stamping position `k` of a link over the /24 at `base`
      gives a router of kind `kind`: host `k` with a /24 mask; in the generator,
      `mpls` and `internal` exactly when the router is not a CE; in the config
      variant, both set when the link has no CE endpoint. */
  predicate Carries(v: Variant, f: Iface, base: Addr, k: nat, kind: RouterKind, ceLink: bool)
    requires base % 256 == 0 && k < LinkHosts
  {
    && f.addr == Some(IfAddr(LinkHost(base, k), 24))
    && (v == Generator ==> (f.mpls <==> kind != CE) && (f.internal <==> kind != CE))
    && (v == Config && !ceLink ==> f.mpls && f.internal)
  }

  /** Right after its link, an endpoint at its last position `k` carries host `k`. */
  lemma StepCarries(v: Variant, ases: Ases, rs: Routers, backbone: nat, link: Link, k: nat)
    requires PoolsOk(ases) && LinkStep(v, ases, rs, backbone, link).Success?
    requires k < |link| && link[k] !in link[k + 1..]
    ensures var out := LinkStep(v, ases, rs, backbone, link).value;
      && link[k].router in rs.m && k < LinkHosts && out.2.base % 256 == 0
      && Lookup(out.1, link[k]).Some?
      && Carries(v, Lookup(out.1, link[k]).value, out.2.base, k, rs.m[link[k].router].kind, HasCe(rs, link))
  {
    LinkStepEffect(v, ases, rs, backbone, link);
  }

  /** The address an endpoint leaves the pass with is host `k` of the /24 drawn
      for link `l`, where position `k` of link `l` is its last occurrence, with
      the flags the variant gives it there. */
  lemma {:induction false} PassFinalAddress(v: Variant, ases: Ases, rs: Routers, backbone: nat, links: seq<Link>, ep: Endpoint, l: nat, k: nat)
    requires PoolsOk(ases) && PhysicalPass(v, ases, rs, backbone, links).Success?
    requires LastOccurrence(links, ep, l, k)
    ensures var out := PhysicalPass(v, ases, rs, backbone, links).value;
      && ep.router in rs.m && k < LinkHosts && out.draws[l].base % 256 == 0
      && Lookup(out.routers, ep).Some?
      && Carries(v, Lookup(out.routers, ep).value, out.draws[l].base, k, rs.m[ep.router].kind, HasCe(rs, links[l]))
    decreases |links|
  {
    PassUnfold(v, ases, rs, backbone, links);
    var step := LinkStep(v, ases, rs, backbone, links[0]).value;
    if l == 0 {
      StepCarries(v, ases, rs, backbone, links[0], k);
      LastOccurrenceTail(links, ep, l, k);
      PassFrame(v, step.0, step.1, backbone, links[1..], ep);
    } else {
      LastOccurrenceTail(links, ep, l, k);
      PassFinalAddress(v, step.0, step.1, backbone, links[1..], ep, l - 1, k);
      assert rs.m[ep.router].kind == step.1.m[ep.router].kind by {
        StepShape(v, ases, rs, backbone, links[0], ep.router);
      }
      StepShapeHasCe(v, ases, rs, backbone, links[0], links[l]);
    }
  }

  lemma StepShape(v: Variant, ases: Ases, rs: Routers, backbone: nat, link: Link, name: string)
    requires PoolsOk(ases) && LinkStep(v, ases, rs, backbone, link).Success?
    requires name in LinkStep(v, ases, rs, backbone, link).value.1.m
    ensures name in rs.m && rs.m[name].kind == LinkStep(v, ases, rs, backbone, link).value.1.m[name].kind
  {
    var rs' := LinkStep(v, ases, rs, backbone, link).value.1;
    assert SameRouterShape(rs.m[name], rs'.m[name]);
  }

  lemma StepShapeHasCe(v: Variant, ases: Ases, rs: Routers, backbone: nat, link: Link, other: Link)
    requires PoolsOk(ases) && LinkStep(v, ases, rs, backbone, link).Success?
    ensures HasCe(LinkStep(v, ases, rs, backbone, link).value.1, other) == HasCe(rs, other)
  {
    HasCeShape(rs, LinkStep(v, ases, rs, backbone, link).value.1, other);
  }

  lemma HasCeShape(rs: Routers, rs': Routers, link: Link)
    requires SameShape(rs, rs')
    ensures HasCe(rs', link) == HasCe(rs, link)
  {
    SameShapeLookup(rs, rs');
    if HasCe(rs, link) {
      var j :| 0 <= j < |link| && IsCe(rs, link[j]);
      assert IsCe(rs', link[j]);
    }
    if HasCe(rs', link) {
      var j :| 0 <= j < |link| && IsCe(rs', link[j]);
      assert IsCe(rs, link[j]);
    }
  }

  /** Where AS `n`'s physical cursor would start its next /24. */
  function NextBase(ases: Ases, n: nat): nat
    requires n in ases.m && ases.m[n].physical.Some?
  {
    var p := ases.m[n].physical.value;
    p.block.base + 256 * p.used
  }

  /** AS `n`'s physical cursor after one `next()`. */
  function Advance(ases: Ases, n: nat): (r: Ases)
    requires n in ases.m && ases.m[n].physical.Some?
    ensures r.m.Keys == ases.m.Keys && r.m[n].physical.Some?
    ensures NextBase(r, n) == NextBase(ases, n) + 256
    ensures forall k :: k in ases.m && k != n ==> r.m[k] == ases.m[k]
  {
    var p := ases.m[n].physical.value;
    ases.(m := ases.m[n := ases.m[n].(physical := Some(p.(used := p.used + 1)))])
  }

  /** `draws` is what successive `next()` calls on the physical cursors of
      `ases` hand out, each from the AS it names. */
  predicate DrawsChain(ases: Ases, draws: seq<Draw>)
    decreases |draws|
  {
    |draws| > 0 ==>
      && draws[0].asn in ases.m && ases.m[draws[0].asn].physical.Some?
      && draws[0].base == NextBase(ases, draws[0].asn)
      && DrawsChain(Advance(ases, draws[0].asn), draws[1..])
  }

  /** The pass's draws are such a chain from the cursors it started with. */
  lemma {:induction false} PassChain(v: Variant, ases: Ases, rs: Routers, backbone: nat, links: seq<Link>)
    requires PoolsOk(ases) && PhysicalPass(v, ases, rs, backbone, links).Success?
    ensures DrawsChain(ases, PhysicalPass(v, ases, rs, backbone, links).value.draws)
    decreases |links|
  {
    if |links| > 0 {
      PassUnfold(v, ases, rs, backbone, links);
      LinkStepDraw(v, ases, rs, backbone, links[0]);
      var step := LinkStep(v, ases, rs, backbone, links[0]).value;
      PassChain(v, step.0, step.1, backbone, links[1..]);
      var draws := PhysicalPass(v, ases, rs, backbone, links).value.draws;
      assert draws[1..] == PhysicalPass(v, step.0, step.1, backbone, links[1..]).value.draws;
    }
  }

  /** Each draw of a chain starts at or after where its AS's cursor stood. */
  lemma {:induction false} ChainFrom(ases: Ases, draws: seq<Draw>, t: nat)
    requires DrawsChain(ases, draws) && t < |draws|
    ensures draws[t].asn in ases.m && ases.m[draws[t].asn].physical.Some?
    ensures NextBase(ases, draws[t].asn) <= draws[t].base
    decreases t
  {
    if t > 0 {
      var n := draws[0].asn;
      ChainFrom(Advance(ases, n), draws[1..], t - 1);
      assert draws[1..][t - 1] == draws[t];
    }
  }

  /** Two draws of a chain from the same AS: the later one lies wholly above
      the earlier one. */
  lemma {:induction false} ChainAscending(ases: Ases, draws: seq<Draw>, i: nat, j: nat)
    requires DrawsChain(ases, draws) && i < j < |draws| && draws[i].asn == draws[j].asn
    ensures draws[i].base + 256 <= draws[j].base
    decreases i
  {
    var n := draws[0].asn;
    assert draws[1..][j - 1] == draws[j];
    if i == 0 {
      ChainFrom(Advance(ases, n), draws[1..], j - 1);
    } else {
      assert draws[1..][i - 1] == draws[i];
      ChainAscending(Advance(ases, n), draws[1..], i - 1, j - 1);
    }
  }

  /** Successive draws from one AS are strictly ascending, non-overlapping /24s. */
  lemma DrawsAscending(v: Variant, ases: Ases, rs: Routers, backbone: nat, links: seq<Link>, i: nat, j: nat)
    requires PoolsOk(ases) && PhysicalPass(v, ases, rs, backbone, links).Success?
    requires i < j < |links|
    requires PhysicalPass(v, ases, rs, backbone, links).value.draws[i].asn == PhysicalPass(v, ases, rs, backbone, links).value.draws[j].asn
    ensures PhysicalPass(v, ases, rs, backbone, links).value.draws[i].base + 256 <= PhysicalPass(v, ases, rs, backbone, links).value.draws[j].base
  {
    PassChain(v, ases, rs, backbone, links);
    ChainAscending(ases, PhysicalPass(v, ases, rs, backbone, links).value.draws, i, j);
  }

  /** No endpoint of any link is on a CE router. */
  predicate NoCeOnLinks(rs: Routers, links: seq<Link>) {
    forall l, j :: 0 <= l < |links| && 0 <= j < |links[l]| ==> !IsCe(rs, links[l][j])
  }

  lemma {:induction false} AssignFromAgree(rs: Routers, link: Link, base: Addr, i: nat)
    requires base % 256 == 0 && i <= |link|
    requires forall j :: i <= j < |link| ==> !IsCe(rs, link[j])
    ensures AssignFrom(Generator, rs, link, base, false, i) == AssignFrom(Config, rs, link, base, false, i)
    decreases |link| - i
  {
    if i < |link| {
      var g := StampEndpoint(Generator, rs, link[i], base, false, i);
      assert g == StampEndpoint(Config, rs, link[i], base, false, i);
      if g.Success? {
        SameShapeLookup(rs, g.value);
        AssignFromAgree(g.value, link, base, i + 1);
      }
    }
  }

  lemma LinkStepAgree(ases: Ases, rs: Routers, backbone: nat, link: Link)
    requires PoolsOk(ases)
    requires forall j :: 0 <= j < |link| ==> !IsCe(rs, link[j])
    ensures LinkStep(Generator, ases, rs, backbone, link) == LinkStep(Config, ases, rs, backbone, link)
  {
    var ce := FirstCe(rs, link, 0);
    if ce.Success? {
      var asn := OwnerAs(ases, rs, backbone, link, ce.value);
      if asn.Success? {
        var t := TakeSubnet(ases, asn.value);
        if t.Success? {
          AssignFromAgree(rs, link, t.value.0, 0);
        }
      }
    }
  }

  /** On a topology whose links join only PE and P routers, the two variants'
      physical passes agree exactly: same draws, same addresses, same flags,
      same cursors, and the same failure when there is one. */
  lemma {:induction false} VariantsAgree(ases: Ases, rs: Routers, backbone: nat, links: seq<Link>)
    requires PoolsOk(ases) && NoCeOnLinks(rs, links)
    ensures PhysicalPass(Generator, ases, rs, backbone, links) == PhysicalPass(Config, ases, rs, backbone, links)
    decreases |links|
  {
    if |links| > 0 {
      LinkStepAgree(ases, rs, backbone, links[0]);
      var step := LinkStep(Generator, ases, rs, backbone, links[0]);
      if step.Success? {
        CursorsAdvancedPools(ases, step.value.0);
        SameShapeLookup(rs, step.value.1);
        assert NoCeOnLinks(step.value.1, links[1..]) by {
          forall l, j | 0 <= l < |links| - 1 && 0 <= j < |links[1..][l]| ensures !IsCe(step.value.1, links[1..][l][j]) {
            assert links[1..][l] == links[l + 1];
          }
        }
        VariantsAgree(step.value.0, step.value.1, backbone, links[1..]);
      }
    }
  }

  // ------------------------------------ the two variants on any topology

  /** Shapes agree across two steps that each keep their own shape. */
  lemma ShapeBridge(a: Routers, a': Routers, b: Routers, b': Routers)
    requires SameShape(a, a') && SameShape(b, b') && SameShape(a, b)
    ensures SameShape(a', b')
  {
    forall n | n in a'.m ensures SameRouterShape(a'.m[n], b'.m[n]) {
      assert SameRouterShape(a.m[n], a'.m[n]) && SameRouterShape(b.m[n], b'.m[n]) && SameRouterShape(a.m[n], b.m[n]);
    }
  }

  lemma {:induction false} FirstCeShape(rs1: Routers, rs2: Routers, link: Link, i: nat)
    requires SameShape(rs1, rs2) && i <= |link|
    ensures FirstCe(rs1, link, i) == FirstCe(rs2, link, i)
    decreases |link| - i
  {
    if i < |link| {
      if link[i].router in rs1.m {
        assert SameRouterShape(rs1.m[link[i].router], rs2.m[link[i].router]);
      }
      FirstCeShape(rs1, rs2, link, i + 1);
    }
  }

  /** The inner loop succeeds or fails alike on routers of the same shape,
      whatever the variant and flag, and leaves routers of the same shape. */
  lemma {:induction false} AssignFromShape(v: Variant, w: Variant, rs1: Routers, rs2: Routers, link: Link, base: Addr, c1: bool, c2: bool, i: nat)
    requires base % 256 == 0 && i <= |link| && SameShape(rs1, rs2)
    ensures AssignFrom(v, rs1, link, base, c1, i).Success? == AssignFrom(w, rs2, link, base, c2, i).Success?
    ensures AssignFrom(v, rs1, link, base, c1, i).Failure? ==>
      AssignFrom(v, rs1, link, base, c1, i).error == AssignFrom(w, rs2, link, base, c2, i).error
    ensures AssignFrom(v, rs1, link, base, c1, i).Success? ==>
      SameShape(AssignFrom(v, rs1, link, base, c1, i).value, AssignFrom(w, rs2, link, base, c2, i).value)
    decreases |link| - i
  {
    if i < |link| {
      StampShape(v, w, rs1, rs2, link[i], base, c1, c2, i);
      var s1 := StampEndpoint(v, rs1, link[i], base, c1, i);
      var s2 := StampEndpoint(w, rs2, link[i], base, c2, i);
      if s1.Success? {
        AssignFromShape(v, w, s1.value, s2.value, link, base, c1, c2, i + 1);
      }
    }
  }

  lemma StampShape(v: Variant, w: Variant, rs1: Routers, rs2: Routers, ep: Endpoint, base: Addr, c1: bool, c2: bool, i: nat)
    requires base % 256 == 0 && SameShape(rs1, rs2)
    ensures StampEndpoint(v, rs1, ep, base, c1, i).Success? == StampEndpoint(w, rs2, ep, base, c2, i).Success?
    ensures StampEndpoint(v, rs1, ep, base, c1, i).Failure? ==>
      StampEndpoint(v, rs1, ep, base, c1, i).error == StampEndpoint(w, rs2, ep, base, c2, i).error
    ensures StampEndpoint(v, rs1, ep, base, c1, i).Success? ==>
      SameShape(StampEndpoint(v, rs1, ep, base, c1, i).value, StampEndpoint(w, rs2, ep, base, c2, i).value)
  {
    if ep.router in rs1.m {
      assert SameRouterShape(rs1.m[ep.router], rs2.m[ep.router]);
    }
    var s1 := StampEndpoint(v, rs1, ep, base, c1, i);
    if s1.Success? {
      ShapeBridge(rs1, s1.value, rs2, StampEndpoint(w, rs2, ep, base, c2, i).value);
    }
  }

  /** One link does the same on routers of the same shape in either variant:
      same outcome, same error, same draw and cursors. */
  lemma StepShapeAgree(v: Variant, w: Variant, ases: Ases, rs1: Routers, rs2: Routers, backbone: nat, link: Link)
    requires PoolsOk(ases) && SameShape(rs1, rs2)
    ensures LinkStep(v, ases, rs1, backbone, link).Success? == LinkStep(w, ases, rs2, backbone, link).Success?
    ensures LinkStep(v, ases, rs1, backbone, link).Failure? ==>
      LinkStep(v, ases, rs1, backbone, link).error == LinkStep(w, ases, rs2, backbone, link).error
    ensures LinkStep(v, ases, rs1, backbone, link).Success? ==>
      var o1 := LinkStep(v, ases, rs1, backbone, link).value; var o2 := LinkStep(w, ases, rs2, backbone, link).value;
      o1.0 == o2.0 && o1.2 == o2.2 && SameShape(o1.1, o2.1)
  {
    FirstCeShape(rs1, rs2, link, 0);
    var ce := FirstCe(rs1, link, 0);
    if ce.Success? {
      if ce.value.Some? {
        var name := link[ce.value.value].router;
        assert SameRouterShape(rs1.m[name], rs2.m[name]);
      }
      var asn := OwnerAs(ases, rs1, backbone, link, ce.value);
      assert asn == OwnerAs(ases, rs2, backbone, link, ce.value);
      if asn.Success? {
        var t := TakeSubnet(ases, asn.value);
        if t.Success? {
          AssignFromShape(v, w, rs1, rs2, link, t.value.0, ce.value.Some?, ce.value.Some?, 0);
        }
      }
    }
  }

  /** The whole pass does the same on routers of the same shape in either
      variant: same outcome, same error, same draws and cursors. Which
      flags are set differs, but flags never decide a draw. */
  lemma {:induction false} PassShapeAgree(v: Variant, w: Variant, ases: Ases, rs1: Routers, rs2: Routers, backbone: nat, links: seq<Link>)
    requires PoolsOk(ases) && SameShape(rs1, rs2)
    ensures PhysicalPass(v, ases, rs1, backbone, links).Success? == PhysicalPass(w, ases, rs2, backbone, links).Success?
    ensures PhysicalPass(v, ases, rs1, backbone, links).Failure? ==>
      PhysicalPass(v, ases, rs1, backbone, links).error == PhysicalPass(w, ases, rs2, backbone, links).error
    ensures PhysicalPass(v, ases, rs1, backbone, links).Success? ==>
      var p1 := PhysicalPass(v, ases, rs1, backbone, links).value; var p2 := PhysicalPass(w, ases, rs2, backbone, links).value;
      p1.ases == p2.ases && p1.draws == p2.draws
    decreases |links|
  {
    if |links| > 0 {
      StepShapeAgree(v, w, ases, rs1, rs2, backbone, links[0]);
      var s1 := LinkStep(v, ases, rs1, backbone, links[0]);
      var s2 := LinkStep(w, ases, rs2, backbone, links[0]);
      if s1.Success? {
        CursorsAdvancedPools(ases, s1.value.0);
        PassShapeAgree(v, w, s1.value.0, s1.value.1, s2.value.1, backbone, links[1..]);
      }
    }
  }

  /** On any topology the two variants' physical passes succeed and fail
      together, with the same error, and draw the same /24s from the same
      ASes in the same order, leaving the same cursors. */
  lemma PassesAgree(ases: Ases, rs: Routers, backbone: nat, links: seq<Link>)
    requires PoolsOk(ases)
    ensures PhysicalPass(Generator, ases, rs, backbone, links).Success? <==> PhysicalPass(Config, ases, rs, backbone, links).Success?
    ensures PhysicalPass(Generator, ases, rs, backbone, links).Failure? ==>
      PhysicalPass(Generator, ases, rs, backbone, links).error == PhysicalPass(Config, ases, rs, backbone, links).error
    ensures PhysicalPass(Generator, ases, rs, backbone, links).Success? ==>
      && PhysicalPass(Generator, ases, rs, backbone, links).value.ases == PhysicalPass(Config, ases, rs, backbone, links).value.ases
      && PhysicalPass(Generator, ases, rs, backbone, links).value.draws == PhysicalPass(Config, ases, rs, backbone, links).value.draws
  {
    PassShapeAgree(Generator, Config, ases, rs, rs, backbone, links);
  }

  /** On any topology, every link endpoint leaves both passes with the same
      address and mask; when the link it last occurs on has no CE endpoint,
      its `mpls` and `internal` flags agree as well (both set). */
  lemma EndpointAgree(ases: Ases, rs: Routers, backbone: nat, links: seq<Link>, ep: Endpoint, l: nat, k: nat)
    requires PoolsOk(ases) && PhysicalPass(Generator, ases, rs, backbone, links).Success?
    requires LastOccurrence(links, ep, l, k)
    ensures PhysicalPass(Config, ases, rs, backbone, links).Success?
    ensures var g := Lookup(PhysicalPass(Generator, ases, rs, backbone, links).value.routers, ep);
      var c := Lookup(PhysicalPass(Config, ases, rs, backbone, links).value.routers, ep);
      && g.Some? && c.Some? && g.value.addr == c.value.addr
      && (!HasCe(rs, links[l]) ==> g.value.mpls && c.value.mpls && g.value.internal && c.value.internal)
  {
    PassesAgree(ases, rs, backbone, links);
    PassFinalAddress(Generator, ases, rs, backbone, links, ep, l, k);
    PassFinalAddress(Config, ases, rs, backbone, links, ep, l, k);
    if !HasCe(rs, links[l]) {
      assert !IsCe(rs, links[l][k]);
    }
  }
}
