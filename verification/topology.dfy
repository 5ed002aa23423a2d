/** The entities of the compiler: the intent document it reads (AS, router,
    interface, VRF and link declarations) and the model it builds from it
    (routers whose interfaces receive addresses and flags, and the per-AS
    address cursors), with the lookups both variants perform by name. */
module Topology {
  import opened Wrappers
  import opened IPv4
  import opened AddressPool
  import opened Seqs
  import opened Dict

  datatype RouterKind = PE | P | CE

  datatype PoolKind = LoopbackPool | PhysicalPool

  /** Every exception the compiler can raise, by cause. */
  datatype Error =
    | MissingBackbone                          // no AS is flagged backbone
    | MissingRange(asn: nat, pool: PoolKind)   // an AS without the range an operation needs
    | PoolExhausted(asn: nat, pool: PoolKind)  // `next()` on an exhausted cursor
    | UnknownAs(router: string)                // a router's AS number is absent or undeclared
    | UnknownRouter(name: string)              // a hostname no router carries
    | UnknownInterface(router: string, iface: string)
    | HostIndexOutOfRange(index: nat)          // a link with more endpoints than a /24 has hosts
    | MissingPrivateNetwork(router: string)    // a CE needing its private network has none
    | MissingLoopback(router: string)          // `Loopback0` (or its address) indexed but absent
    | NoVrfInterface(vrf: string)              // `associated_interfaces[0]` of an empty list
    | EmptyLink(index: nat)                    // `link[0]` of a link without endpoints

  // ---------------------------------------------------------------- intent

  datatype AsIntent = AsIntent(number: nat, backbone: bool, loopback: Option<Cidr>, physical: Option<Cidr>)

  datatype IfaceIntent = IfaceIntent(name: string, ospfCost: Option<nat>)

  datatype Vrf = Vrf(name: string, rd: string, exports: seq<string>, imports: seq<string>, interfaces: seq<string>)

  /** One entry of `pe_routers`, `p_routers` or `ce_routers`. `asNumber` and
      `privateNetwork` are read for CEs only. */
  datatype RouterIntent = RouterIntent(
    hostname: string,
    asNumber: Option<nat>,
    vrfs: seq<Vrf>,
    interfaces: seq<IfaceIntent>,
    privateNetwork: Option<Cidr>)

  datatype Endpoint = Endpoint(router: string, iface: string)

  /** One entry of `subnets`: the endpoints sharing a link, in declared order. */
  type Link = seq<Endpoint>

  datatype Intent = Intent(
    ases: seq<AsIntent>,
    peRouters: seq<RouterIntent>,
    pRouters: seq<RouterIntent>,
    ceRouters: seq<RouterIntent>,
    links: seq<Link>)

  /** The address ranges are blocks `ipaddress` accepts and enumerates as the
      compiler expects: strict CIDRs, loopback blocks with at least two hosts,
      physical blocks no longer than /24. */
  predicate WellFormed(intent: Intent) {
    && (forall a :: a in intent.ases && a.loopback.Some? ==> HostBlock(a.loopback.value))
    && (forall a :: a in intent.ases && a.physical.Some? ==> SubnetBlock(a.physical.value))
    && (forall r :: r in intent.ceRouters && r.privateNetwork.Some? ==> Aligned(r.privateNetwork.value))
  }

  // ----------------------------------------------------------------- model

  datatype IfAddr = IfAddr(ip: Addr, prefix: PrefixLen)

  /** An interface as the compiler fills it in; its name is its key in the
      router's interface dict. `ceTest` and `ospfCost` exist in the generator
      variant only; the config variant leaves them `false` and `None`. */
  datatype Iface = Iface(
    addr: Option<IfAddr>,
    internal: bool,
    mpls: bool,
    ceTest: bool,
    ospfCost: Option<nat>)

  /** A router; its hostname is its key in the router dict. */
  datatype Router = Router(
    kind: RouterKind,
    asn: Option<nat>,
    vrfs: seq<Vrf>,
    ifaces: Dict<string, Iface>,
    privateNetwork: Option<Cidr>)

  type Routers = Dict<string, Router>

  /** An AS with its two cursors, `None` where the AS has no such range;
      its number is its key in the AS dict. */
  datatype AsState = AsState(backbone: bool, loopback: Option<Pool>, physical: Option<Pool>)

  type Ases = Dict<nat, AsState>

  /** The compiled, addressed model the emitters read. */
  datatype Model = Model(ases: Ases, backbone: nat, routers: Routers, links: seq<Link>)

  const Loopback0: string := "Loopback0"

  function FreshIface(cost: Option<nat>): Iface {
    Iface(None, false, false, false, cost)
  }

  /** Cursors of a declared AS, none of them used yet. */
  function FreshAs(a: AsIntent): AsState {
    AsState(
      a.backbone,
      if a.loopback.Some? then Some(Pool(a.loopback.value, 0)) else None,
      if a.physical.Some? then Some(Pool(a.physical.value, 0)) else None)
  }

  predicate PoolsOk(ases: Ases) {
    forall n :: n in ases.m ==>
      && (ases.m[n].loopback.Some? ==> HostBlock(ases.m[n].loopback.value.block))
      && (ases.m[n].physical.Some? ==> SubnetBlock(ases.m[n].physical.value.block))
  }

  predicate ValidRouters(rs: Routers) {
    Valid(rs) && forall n :: n in rs.m ==> Valid(rs.m[n].ifaces)
  }

  function KindOf(rs: Routers, name: string): (r: Option<RouterKind>)
    ensures r.Some? <==> name in rs.m
  {
    if name in rs.m then Some(rs.m[name].kind) else None
  }

  /** `routers[ep.router]["interfaces"][ep.iface]`, `None` where a key is missing. */
  function Lookup(rs: Routers, ep: Endpoint): (r: Option<Iface>)
    ensures r.Some? <==> ep.router in rs.m && ep.iface in rs.m[ep.router].ifaces.m
  {
    if ep.router in rs.m && ep.iface in rs.m[ep.router].ifaces.m
    then Some(rs.m[ep.router].ifaces.m[ep.iface])
    else None
  }

  /** Replace the interface an endpoint names; nothing changes if it names none. */
  function UpdateIface(rs: Routers, ep: Endpoint, f: Iface): Routers {
    if ep.router in rs.m && ep.iface in rs.m[ep.router].ifaces.m then
      var r := rs.m[ep.router];
      rs.(m := rs.m[ep.router := r.(ifaces := r.ifaces.(m := r.ifaces.m[ep.iface := f]))])
    else rs
  }

  /** Two router dicts that differ at most in interface addresses and flags. */
  predicate SameShape(rs: Routers, rs': Routers) {
    && rs'.keys == rs.keys
    && rs'.m.Keys == rs.m.Keys
    && forall n :: n in rs.m ==> SameRouterShape(rs.m[n], rs'.m[n])
  }

  predicate SameRouterShape(r: Router, r': Router) {
    && r'.kind == r.kind && r'.asn == r.asn && r'.vrfs == r.vrfs && r'.privateNetwork == r.privateNetwork
    && r'.ifaces.keys == r.ifaces.keys && r'.ifaces.m.Keys == r.ifaces.m.Keys
  }

  lemma SameShapeLookup(rs: Routers, rs': Routers)
    requires SameShape(rs, rs')
    ensures forall ep :: Lookup(rs', ep).Some? <==> Lookup(rs, ep).Some?
    ensures forall name :: KindOf(rs', name) == KindOf(rs, name)
    ensures ValidRouters(rs) ==> ValidRouters(rs')
  {
    forall ep ensures Lookup(rs', ep).Some? <==> Lookup(rs, ep).Some? {
      if ep.router in rs.m {
        assert SameRouterShape(rs.m[ep.router], rs'.m[ep.router]);
      }
    }
    forall name ensures KindOf(rs', name) == KindOf(rs, name) {
      if name in rs.m {
        assert SameRouterShape(rs.m[name], rs'.m[name]);
      }
    }
    if ValidRouters(rs) {
      forall n | n in rs'.m ensures Valid(rs'.m[n].ifaces) {
        assert SameRouterShape(rs.m[n], rs'.m[n]);
      }
    }
  }

  /** Updating through an endpoint changes what that endpoint names and nothing else. */
  lemma LookupAfterUpdate(rs: Routers, ep0: Endpoint, f: Iface, ep: Endpoint)
    requires Lookup(rs, ep0).Some?
    ensures SameShape(rs, UpdateIface(rs, ep0, f))
    ensures Lookup(UpdateIface(rs, ep0, f), ep) == if ep == ep0 then Some(f) else Lookup(rs, ep)
  {
  }

  lemma SameShapeTrans(a: Routers, b: Routers, c: Routers)
    requires SameShape(a, b) && SameShape(b, c)
    ensures SameShape(a, c)
  {
  }

  predicate IsCe(rs: Routers, ep: Endpoint) {
    KindOf(rs, ep.router) == Some(CE)
  }

  predicate PoolAdvanced(p: Pool, p': Pool) {
    p'.block == p.block && p'.used >= p.used
  }

  predicate AsAdvanced(a: AsState, a': AsState) {
    && a'.backbone == a.backbone
    && a'.loopback.Some? == a.loopback.Some?
    && a'.physical.Some? == a.physical.Some?
    && (a.loopback.Some? ==> PoolAdvanced(a.loopback.value, a'.loopback.value))
    && (a.physical.Some? ==> PoolAdvanced(a.physical.value, a'.physical.value))
  }

  /** The pass left every cursor where it was or further on, over the same blocks. */
  predicate CursorsAdvanced(ases: Ases, ases': Ases) {
    && ases'.keys == ases.keys
    && ases'.m.Keys == ases.m.Keys
    && forall n :: n in ases.m ==> AsAdvanced(ases.m[n], ases'.m[n])
  }

  lemma CursorsAdvancedTrans(a: Ases, b: Ases, c: Ases)
    requires CursorsAdvanced(a, b) && CursorsAdvanced(b, c)
    ensures CursorsAdvanced(a, c)
  {
  }

  lemma CursorsAdvancedPools(a: Ases, b: Ases)
    requires CursorsAdvanced(a, b) && PoolsOk(a)
    ensures PoolsOk(b)
  {
  }
}
