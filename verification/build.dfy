/** Construction of the model from an intent, in both variants: the AS map
    with its cursors, the backbone, the router map, then the loopback pass and
    the physical pass. */
module Build {
  import opened Wrappers
  import opened IPv4
  import opened AddressPool
  import opened Seqs
  import opened Dict
  import opened Topology
  import opened Physical
  import opened Loopback

  // ------------------------------------------------------------ the AS map

  /** `{a["as_number"]: a for a in intent["as"]}`, each AS with fresh cursors. */
  function AsMap(decls: seq<AsIntent>): (d: Ases)
    ensures Valid(d)
  {
    FromPairs(seq(|decls|, i requires 0 <= i < |decls| => (decls[i].number, FreshAs(decls[i]))))
  }

  /** The AS map has a key for every declared number and no other, and binds
      each number to the cursors of its last declaration. */
  lemma AsMapSpec(decls: seq<AsIntent>)
    ensures forall n :: n in AsMap(decls).m <==> exists i :: 0 <= i < |decls| && decls[i].number == n
    ensures forall i :: 0 <= i < |decls| && (forall j :: i < j < |decls| ==> decls[j].number != decls[i].number) ==>
      AsMap(decls).m[decls[i].number] == FreshAs(decls[i])
  {
    var ps := seq(|decls|, i requires 0 <= i < |decls| => (decls[i].number, FreshAs(decls[i])));
    FromPairsKeys(ps);
    forall n ensures n in AsMap(decls).m <==> exists i :: 0 <= i < |decls| && decls[i].number == n {
      if exists i :: 0 <= i < |decls| && decls[i].number == n {
        var i :| 0 <= i < |decls| && decls[i].number == n;
        assert ps[i].0 == n;
      }
    }
    forall i | 0 <= i < |decls| && (forall j :: i < j < |decls| ==> decls[j].number != decls[i].number)
      ensures AsMap(decls).m[decls[i].number] == FreshAs(decls[i])
    {
      assert LastFor(ps, i);
      FromPairsLast(ps, i);
    }
  }

  /** Every AS in the map carries the cursors of one of its declarations. */
  lemma AsMapFrom(decls: seq<AsIntent>, n: nat)
    requires n in AsMap(decls).m
    ensures exists i :: 0 <= i < |decls| && decls[i].number == n && AsMap(decls).m[n] == FreshAs(decls[i])
  {
    var ps := seq(|decls|, i requires 0 <= i < |decls| => (decls[i].number, FreshAs(decls[i])));
    FromPairsValues(ps, n);
    var i :| 0 <= i < |ps| && ps[i] == (n, AsMap(decls).m[n]);
    assert decls[i].number == n && AsMap(decls).m[n] == FreshAs(decls[i]);
  }

  /** Declared ranges that are well formed give well-formed cursors. */
  lemma AsMapPools(intent: Intent)
    requires WellFormed(intent)
    ensures PoolsOk(AsMap(intent.ases))
  {
    forall n | n in AsMap(intent.ases).m
      ensures var a := AsMap(intent.ases).m[n];
        && (a.loopback.Some? ==> HostBlock(a.loopback.value.block))
        && (a.physical.Some? ==> SubnetBlock(a.physical.value.block))
    {
      AsMapFrom(intent.ases, n);
    }
  }

  // ------------------------------------------------------------- backbone

  /** `_get_backbone_as` and the `next(...)` of `__init_as_map`: the first AS
      in dict order flagged backbone. */
  function Backbone(ases: Ases): (r: Result<nat, Error>)
    requires Valid(ases)
    ensures r.Success? ==> r.value in ases.m && ases.m[r.value].backbone
    ensures r.Failure? ==> r.error == MissingBackbone
  {
    match FirstWhere(ases.keys, n => n in ases.m && ases.m[n].backbone, 0)
    case None => Failure(MissingBackbone)
    case Some(k) => Success(ases.keys[k])
  }

  /** The backbone is a declared AS flagged backbone, no AS before it in dict
      order is flagged, and the search fails exactly when no AS is flagged. */
  lemma BackboneSpec(ases: Ases)
    requires Valid(ases)
    ensures var r := Backbone(ases);
      && (r.Success? ==> r.value in ases.m && ases.m[r.value].backbone)
      && (r.Success? ==> exists k :: 0 <= k < |ases.keys| && ases.keys[k] == r.value
                          && forall j :: 0 <= j < k ==> !ases.m[ases.keys[j]].backbone)
      && (r.Failure? <==> forall n :: n in ases.m ==> !ases.m[n].backbone)
      && (r.Failure? ==> r.error == MissingBackbone)
  {
    var f := FirstWhere(ases.keys, n => n in ases.m && ases.m[n].backbone, 0);
    if f.None? {
      forall n | n in ases.m ensures !ases.m[n].backbone {
        var j :| 0 <= j < |ases.keys| && ases.keys[j] == n;
      }
    }
  }

  // ------------------------------------------------------ generator ASes

  /** `__init_as_map`: building the physical cursor of each AS, in dict order,
      indexes `ipv4_ranges["physical"]`, so an AS without a physical range
      fails before the backbone is looked for. */
  function GenAses(decls: seq<AsIntent>): (r: Result<(Ases, nat), Error>)
    ensures r.Success? ==> r.value.0 == AsMap(decls) && r.value.1 in r.value.0.m && r.value.0.m[r.value.1].backbone
    ensures r.Failure? ==> r.error == MissingBackbone || (r.error.MissingRange? && r.error.pool == PhysicalPool)
  {
    var ases := AsMap(decls);
    match FirstWhere(ases.keys, n => n in ases.m && ases.m[n].physical.None?, 0)
    case Some(k) => Failure(MissingRange(ases.keys[k], PhysicalPool))
    case None =>
      var b :- Backbone(ases);
      Success((ases, b))
  }

  /** The generator's AS map is the declared one with its backbone; it fails
      on the first AS in dict order without a physical range, and otherwise
      exactly when no AS is flagged backbone. */
  lemma GenAsesSpec(decls: seq<AsIntent>)
    ensures var r := GenAses(decls); var ases := AsMap(decls);
      && (r.Success? ==> r.value.0 == ases && Backbone(ases) == Success(r.value.1))
      && (r.Success? ==> forall n :: n in ases.m ==> ases.m[n].physical.Some?)
      && (r.Failure? && r.error.MissingRange? ==>
            && r.error.asn in ases.m && ases.m[r.error.asn].physical.None?
            && exists k :: 0 <= k < |ases.keys| && ases.keys[k] == r.error.asn
                 && forall j :: 0 <= j < k ==> ases.m[ases.keys[j]].physical.Some?)
      && (r.Failure? && !r.error.MissingRange? ==>
            r.error == MissingBackbone && Backbone(ases).Failure?)
  {
    var ases := AsMap(decls);
    var f := FirstWhere(ases.keys, n => n in ases.m && ases.m[n].physical.None?, 0);
    if f.None? {
      forall n | n in ases.m ensures ases.m[n].physical.Some? {
        var j :| 0 <= j < |ases.keys| && ases.keys[j] == n;
      }
    }
  }

  // --------------------------------------------------------- router map

  /** The interface dict of a declared router: `{i["name"]: dict(i) ...}` in
      the generator, which keeps `ospf_cost`; `Interface(iface)` per entry in
      the config variant, which has no cost. */
  function IfaceDict(v: Variant, decls: seq<IfaceIntent>): (d: Dict<string, Iface>)
    ensures Valid(d)
  {
    FromPairs(seq(|decls|, i requires 0 <= i < |decls| =>
      (decls[i].name, FreshIface(if v == Generator then decls[i].ospfCost else None))))
  }

  /** The router a declaration becomes. PE and P routers join the backbone AS;
      a CE keeps its declared AS number. The generator also stores a CE's
      private network and gives it a bare `Loopback0`, replacing a declared one. */
  function Entry(v: Variant, kind: RouterKind, r: RouterIntent, backbone: nat): (rt: Router)
    ensures Valid(rt.ifaces)
  {
    var ifaces := IfaceDict(v, r.interfaces);
    if kind != CE then Router(kind, Some(backbone), r.vrfs, ifaces, None)
    else if v == Config then Router(CE, r.asNumber, r.vrfs, ifaces, None)
    else Router(CE, r.asNumber, r.vrfs, Put(ifaces, Loopback0, FreshIface(None)), r.privateNetwork)
  }

  function Entries(v: Variant, kind: RouterKind, rs: seq<RouterIntent>, backbone: nat): (ps: seq<(string, Router)>)
    ensures |ps| == |rs|
    ensures forall i :: 0 <= i < |rs| ==> ps[i] == (rs[i].hostname, Entry(v, kind, rs[i], backbone))
  {
    seq(|rs|, i requires 0 <= i < |rs| => (rs[i].hostname, Entry(v, kind, rs[i], backbone)))
  }

  /** All declarations in the order both variants visit them: PEs, Ps, CEs. */
  function Declared(v: Variant, intent: Intent, backbone: nat): seq<(string, Router)> {
    Entries(v, PE, intent.peRouters, backbone)
      + Entries(v, P, intent.pRouters, backbone)
      + Entries(v, CE, intent.ceRouters, backbone)
  }

  /** `routers[r["hostname"]] = ...` for every declaration in turn. */
  function RouterMap(v: Variant, intent: Intent, backbone: nat): (rs: Routers)
    ensures Valid(rs)
  {
    FromPairs(Declared(v, intent, backbone))
  }

  /** `r` is one of the routers the intent declares with kind `kind`. */
  predicate Declares(intent: Intent, kind: RouterKind, r: RouterIntent) {
    match kind
    case PE => r in intent.peRouters
    case P => r in intent.pRouters
    case CE => r in intent.ceRouters
  }

  /** Each position of the visiting order holds what some declaration becomes. */
  lemma DeclaredAt(v: Variant, intent: Intent, backbone: nat, i: nat) returns (kind: RouterKind, r: RouterIntent)
    requires i < |Declared(v, intent, backbone)|
    ensures Declared(v, intent, backbone)[i] == (r.hostname, Entry(v, kind, r, backbone))
    ensures Declares(intent, kind, r)
  {
    var a, b := |intent.peRouters|, |intent.pRouters|;
    if i < a {
      kind, r := PE, intent.peRouters[i];
    } else if i < a + b {
      kind, r := P, intent.pRouters[i - a];
    } else {
      kind, r := CE, intent.ceRouters[i - a - b];
    }
  }

  /** Every router in the map is what one of its declarations becomes. */
  lemma RouterMapFrom(v: Variant, intent: Intent, backbone: nat, name: string)
    requires name in RouterMap(v, intent, backbone).m
    ensures exists kind: RouterKind, r: RouterIntent ::
      Declares(intent, kind, r) && r.hostname == name && RouterMap(v, intent, backbone).m[name] == Entry(v, kind, r, backbone)
  {
    var ps := Declared(v, intent, backbone);
    FromPairsValues(ps, name);
    var i :| 0 <= i < |ps| && ps[i] == (name, RouterMap(v, intent, backbone).m[name]);
    var kind, r := DeclaredAt(v, intent, backbone, i);
  }

  /** The router map and every interface dict in it are well formed; every
      PE and P router is in the backbone AS; and in the generator every CE
      has a `Loopback0`, unaddressed and without a cost. */
  lemma RouterMapSpec(v: Variant, intent: Intent, backbone: nat)
    ensures var rs := RouterMap(v, intent, backbone);
      && ValidRouters(rs)
      && (forall n :: n in rs.m && rs.m[n].kind != CE ==> rs.m[n].asn == Some(backbone))
      && (v == Generator ==> forall n :: n in rs.m && rs.m[n].kind == CE ==>
            Loopback0 in rs.m[n].ifaces.m && rs.m[n].ifaces.m[Loopback0] == FreshIface(None))
  {
    var rs := RouterMap(v, intent, backbone);
    forall n | n in rs.m
      ensures Valid(rs.m[n].ifaces)
      ensures rs.m[n].kind != CE ==> rs.m[n].asn == Some(backbone)
      ensures v == Generator && rs.m[n].kind == CE ==>
        Loopback0 in rs.m[n].ifaces.m && rs.m[n].ifaces.m[Loopback0] == FreshIface(None)
    {
      RouterMapFrom(v, intent, backbone, n);
      var kind: RouterKind, r: RouterIntent :| Declares(intent, kind, r) && r.hostname == n && rs.m[n] == Entry(v, kind, r, backbone);
      if v == Generator && kind == CE {
        assert Get(rs.m[n].ifaces, Loopback0) == Some(FreshIface(None));
      }
    }
  }

  // ---------------------------------------------------------------- passes

  /** The loopback pass over the routers in dict order, then the physical pass
      over the links in declared order. */
  function Passes(v: Variant, ases: Ases, rs: Routers, backbone: nat, links: seq<Link>): (r: Result<Model, Error>)
    requires Ready(ases, rs)
    ensures r.Success? ==> r.value.backbone == backbone && r.value.links == links
  {
    var lo :- LoopbackFrom(v, ases, rs, 0);
    LoopbackCursors(v, ases, rs, 0, lo);
    CursorsAdvancedPools(ases, lo.ases);
    var po :- PhysicalPass(v, lo.ases, lo.routers, backbone, links);
    Success(Model(po.ases, backbone, po.routers, links))
  }

  /** The generator: `__init_as_map`, `__create_router_map`, `__assign_ips`.
      The model keeps the declared links and is built on a declared AS
      flagged backbone. */
  function GenBuild(intent: Intent): (r: Result<Model, Error>)
    requires WellFormed(intent)
    ensures r.Success? ==> r.value.links == intent.links
    ensures r.Success? ==> r.value.backbone in AsMap(intent.ases).m && AsMap(intent.ases).m[r.value.backbone].backbone
  {
    var ab :- GenAses(intent.ases);
    GenAsesSpec(intent.ases);
    AsMapPools(intent);
    RouterMapSpec(Generator, intent, ab.1);
    Passes(Generator, ab.0, RouterMap(Generator, intent, ab.1), ab.1, intent.links)
  }

  /** The CE's `as_number` is absent or names no declared AS, so
      `self.as_objects[ce["as_number"]]` raises on it. */
  predicate BadAs(ases: Ases, r: RouterIntent) {
    !(r.asNumber.Some? && r.asNumber.value in ases.m)
  }

  /** Position of the first CE, in declaration order, with a bad AS number. */
  function CeAsGap(ases: Ases, ces: seq<RouterIntent>): Option<nat> {
    FirstWhere(ces, (r: RouterIntent) => BadAs(ases, r), 0)
  }

  /** The config variant: `_initialize_as`, `_get_backbone_as`,
      `_initialize_routers`, `_assign_addresses`. The model keeps the
      declared links, is built on a declared AS flagged backbone, and exists
      only when every CE names a declared AS. */
  function CfgBuild(intent: Intent): (r: Result<Model, Error>)
    requires WellFormed(intent)
    ensures r.Success? ==> r.value.links == intent.links
    ensures r.Success? ==> r.value.backbone in AsMap(intent.ases).m && AsMap(intent.ases).m[r.value.backbone].backbone
    ensures r.Success? ==> forall k :: 0 <= k < |intent.ceRouters| ==> !BadAs(AsMap(intent.ases), intent.ceRouters[k])
  {
    var ases := AsMap(intent.ases);
    var b :- Backbone(ases);
    match CeAsGap(ases, intent.ceRouters)
    case Some(k) => Failure(UnknownAs(intent.ceRouters[k].hostname))
    case None =>
      AsMapPools(intent);
      RouterMapSpec(Config, intent, b);
      Passes(Config, ases, RouterMap(Config, intent, b), b, intent.links)
  }

  // ------------------------------------------------------- built models

  /** The endpoint names an existing interface that carries an address. */
  predicate Addressed(rs: Routers, ep: Endpoint) {
    Lookup(rs, ep).Some? && Lookup(rs, ep).value.addr.Some?
  }

  /** Every endpoint of every link is addressed; the emitters' scans of the
      link list read these addresses. */
  predicate Resolved(rs: Routers, links: seq<Link>) {
    forall l, j :: 0 <= l < |links| && 0 <= j < |links[l]| ==> Addressed(rs, links[l][j])
  }

  /** What the emitters read: well-formed dicts and an addressed endpoint
      for every link entry. */
  predicate Built(m: Model) {
    ValidRouters(m.routers) && Resolved(m.routers, m.links)
  }

  /** An occurrence of an endpoint in the link list has a last occurrence at or after it. */
  lemma {:induction false} FindLast(links: seq<Link>, ep: Endpoint, l: nat, j: nat) returns (l': nat, k': nat)
    requires l < |links| && j < |links[l]| && links[l][j] == ep
    ensures LastOccurrence(links, ep, l', k')
    decreases |links| - l, |links[l]| - j
  {
    if exists l2 :: l < l2 < |links| && ep in links[l2] {
      var l2 :| l < l2 < |links| && ep in links[l2];
      var j2 :| 0 <= j2 < |links[l2]| && links[l2][j2] == ep;
      l', k' := FindLast(links, ep, l2, j2);
    } else if ep in links[l][j + 1..] {
      var t :| 0 <= t < |links[l][j + 1..]| && links[l][j + 1..][t] == ep;
      l', k' := FindLast(links, ep, l, j + 1 + t);
    } else {
      l', k' := l, j;
    }
  }

  /** After both passes no router or interface has appeared or disappeared,
      and every link endpoint is addressed: an endpoint naming an interface
      its router lacks makes construction fail. */
  lemma PassesResolved(v: Variant, ases: Ases, rs: Routers, backbone: nat, links: seq<Link>, m: Model)
    requires Ready(ases, rs) && Passes(v, ases, rs, backbone, links) == Success(m)
    ensures m.backbone == backbone && m.links == links
    ensures SameShape(rs, m.routers)
    ensures Resolved(m.routers, links)
    ensures ValidRouters(rs) ==> ValidRouters(m.routers)
  {
    var lo := LoopbackFrom(v, ases, rs, 0).value;
    LoopbackCursors(v, ases, rs, 0, lo);
    LoopbackRouters(v, ases, rs, 0, lo);
    CursorsAdvancedPools(ases, lo.ases);
    PassShape(v, lo.ases, lo.routers, backbone, links);
    SameShapeTrans(rs, lo.routers, m.routers);
    SameShapeLookup(rs, m.routers);
    forall l, j | 0 <= l < |links| && 0 <= j < |links[l]| ensures Addressed(m.routers, links[l][j]) {
      var l', k' := FindLast(links, links[l][j], l, j);
      PassFinalAddress(v, lo.ases, lo.routers, backbone, links, links[l][j], l', k');
    }
  }

  /** The generator's model: built on the first backbone AS of the AS map,
      with every link endpoint addressed, the declared routers and no other,
      every PE and P router in the backbone AS, and a `Loopback0` on every CE. */
  lemma GenBuildSpec(intent: Intent, m: Model)
    requires WellFormed(intent) && GenBuild(intent) == Success(m)
    ensures GenAses(intent.ases).Success? && Backbone(AsMap(intent.ases)) == Success(m.backbone)
    ensures m.links == intent.links && Built(m)
    ensures m.routers.keys == RouterMap(Generator, intent, m.backbone).keys
    ensures forall n :: n in m.routers.m && m.routers.m[n].kind != CE ==> m.routers.m[n].asn == Some(m.backbone)
    ensures forall n :: n in m.routers.m && m.routers.m[n].kind == CE ==> Loopback0 in m.routers.m[n].ifaces.m
  {
    var ab := GenAses(intent.ases).value;
    GenAsesSpec(intent.ases);
    AsMapPools(intent);
    var rs := RouterMap(Generator, intent, ab.1);
    RouterMapSpec(Generator, intent, ab.1);
    PassesResolved(Generator, ab.0, rs, ab.1, intent.links, m);
    forall n | n in m.routers.m ensures SameRouterShape(rs.m[n], m.routers.m[n]) { }
  }

  /** The config variant fails when no AS is flagged backbone, and otherwise
      on the first CE, in declaration order, with a bad AS number. */
  lemma CfgBuildFails(intent: Intent)
    requires WellFormed(intent)
    ensures var r := CfgBuild(intent); var ases := AsMap(intent.ases); var ces := intent.ceRouters;
      && (Backbone(ases).Failure? ==> r == Failure(MissingBackbone))
      && forall k :: 0 <= k < |ces| && BadAs(ases, ces[k]) && (forall j :: 0 <= j < k ==> !BadAs(ases, ces[j])) ==>
           (Backbone(ases).Success? ==> r == Failure(UnknownAs(ces[k].hostname)))
  {
    var ases := AsMap(intent.ases);
    var ces := intent.ceRouters;
    var gap := CeAsGap(ases, ces);
    forall k | 0 <= k < |ces| && BadAs(ases, ces[k]) && (forall j :: 0 <= j < k ==> !BadAs(ases, ces[j]))
      ensures gap == Some(k)
    {
    }
  }

  /** In the config variant's router map, built after the CE check passed,
      every router is in a declared AS. */
  lemma CfgRouterAs(intent: Intent, b: nat, n: string)
    requires Backbone(AsMap(intent.ases)) == Success(b) && CeAsGap(AsMap(intent.ases), intent.ceRouters).None?
    requires n in RouterMap(Config, intent, b).m
    ensures var rt := RouterMap(Config, intent, b).m[n];
      rt.asn.Some? && rt.asn.value in AsMap(intent.ases).m
  {
    var ases := AsMap(intent.ases);
    RouterMapFrom(Config, intent, b, n);
    var kind: RouterKind, r: RouterIntent :|
      Declares(intent, kind, r) && r.hostname == n && RouterMap(Config, intent, b).m[n] == Entry(Config, kind, r, b);
    if kind == CE {
      var j :| 0 <= j < |intent.ceRouters| && intent.ceRouters[j] == r;
      assert !BadAs(ases, intent.ceRouters[j]);
    }
  }

  /** A model the config variant builds has every link endpoint addressed and
      every router in a declared AS, PE and P routers in the backbone. */
  lemma CfgBuildSpec(intent: Intent, m: Model)
    requires WellFormed(intent) && CfgBuild(intent) == Success(m)
    ensures Backbone(AsMap(intent.ases)) == Success(m.backbone)
    ensures m.links == intent.links && Built(m)
    ensures forall n :: n in m.routers.m ==>
      m.routers.m[n].asn.Some? && m.routers.m[n].asn.value in AsMap(intent.ases).m
    ensures forall n :: n in m.routers.m && m.routers.m[n].kind != CE ==> m.routers.m[n].asn == Some(m.backbone)
  {
    var ases := AsMap(intent.ases);
    var b := Backbone(ases).value;
    AsMapPools(intent);
    var rs := RouterMap(Config, intent, b);
    RouterMapSpec(Config, intent, b);
    PassesResolved(Config, ases, rs, b, intent.links, m);
    forall n | n in m.routers.m
      ensures m.routers.m[n].asn == rs.m[n].asn && m.routers.m[n].kind == rs.m[n].kind
    {
      assert SameRouterShape(rs.m[n], m.routers.m[n]);
    }
    forall n | n in m.routers.m ensures m.routers.m[n].asn.Some? && m.routers.m[n].asn.value in ases.m {
      CfgRouterAs(intent, b, n);
    }
  }
}
