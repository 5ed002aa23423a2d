/** The loopback pass both variants run before the physical pass: the routers
    are visited in dict order and each router's `Loopback0`, when it has one,
    draws the next host of its AS's loopback cursor with a /32 mask. The
    generator does so whenever that AS has a loopback range and otherwise
    gives a CE its private network; the config variant does so only for
    routers whose AS is flagged backbone and otherwise leaves the loopback
    unaddressed. */
module Loopback {
  import opened Wrappers
  import opened IPv4
  import opened AddressPool
  import opened Seqs
  import opened Dict
  import opened Topology
  import opened Physical

  /** One host handed out by the pass: from which AS and which address. */
  datatype HostDraw = HostDraw(asn: nat, ip: Addr)

  /** The pass's result; `draws` has one entry per visited router, in visiting
      order, `None` for routers that drew nothing. */
  datatype LoopOut = LoopOut(ases: Ases, routers: Routers, draws: seq<Option<HostDraw>>)

  /** The router's AS number names a declared AS. */
  predicate AsKnown(ases: Ases, r: Router) {
    r.asn.Some? && r.asn.value in ases.m
  }

  /** The router's `Loopback0` is drawn from its AS's loopback cursor. */
  predicate PoolCase(v: Variant, ases: Ases, r: Router) {
    && Loopback0 in r.ifaces.m && AsKnown(ases, r)
    && ases.m[r.asn.value].loopback.Some?
    && (v == Config ==> ases.m[r.asn.value].backbone)
  }

  /** The generator's fallback: a CE whose AS has no loopback range takes the
      network address and netmask of its private network. */
  predicate PrivateCase(v: Variant, ases: Ases, r: Router) {
    v == Generator && Loopback0 in r.ifaces.m && AsKnown(ases, r) && !PoolCase(v, ases, r) && r.kind == CE
  }

  /** The next host AS `n`'s loopback cursor would hand out. */
  function NextHostAddr(ases: Ases, n: nat): nat
    requires n in ases.m && ases.m[n].loopback.Some?
  {
    var p := ases.m[n].loopback.value;
    p.block.base + 1 + p.used
  }

  /** AS `n`'s loopback cursor after one `next()`. */
  function AdvanceLoop(ases: Ases, n: nat): (r: Ases)
    requires n in ases.m && ases.m[n].loopback.Some?
    ensures r.m.Keys == ases.m.Keys && r.m[n].loopback.Some?
    ensures NextHostAddr(r, n) == NextHostAddr(ases, n) + 1
    ensures forall k :: k in ases.m && k != n ==> r.m[k] == ases.m[k]
  {
    var p := ases.m[n].loopback.value;
    ases.(m := ases.m[n := ases.m[n].(loopback := Some(p.(used := p.used + 1)))])
  }

  /** The loopback after drawing host `ip`: a /32; the generator also marks it internal. */
  function PoolStamp(v: Variant, f: Iface, ip: Addr): (g: Iface)
    ensures g.addr == Some(IfAddr(ip, 32))
    ensures g.internal == (v == Generator || f.internal)
    ensures g.mpls == f.mpls && g.ceTest == f.ceTest && g.ospfCost == f.ospfCost
  {
    if v == Generator then f.(addr := Some(IfAddr(ip, 32)), internal := true)
    else f.(addr := Some(IfAddr(ip, 32)))
  }

  /** The CE loopback built from the private network: not internal, marked `ce_test`. */
  function PrivateStamp(f: Iface, c: Cidr): (g: Iface)
    ensures g.addr == Some(IfAddr(c.base, c.prefix)) && !g.internal && g.ceTest
    ensures g.mpls == f.mpls && g.ospfCost == f.ospfCost
  {
    f.(addr := Some(IfAddr(c.base, c.prefix)), internal := false, ceTest := true)
  }

  /** One router's turn. In the generator, indexing the AS map with an absent
      or undeclared AS number fails before anything else, and a CE reaching
      the private-network branch fails without a private network or, having
      one, without the `Loopback0` to update. */
  function LoopbackStep(v: Variant, ases: Ases, rs: Routers, name: string): (r: Result<(Ases, Routers, Option<HostDraw>), Error>)
    requires name in rs.m && PoolsOk(ases)
    ensures var rt := rs.m[name];
      r.Failure? <==>
        || (v == Generator && Loopback0 in rt.ifaces.m && !AsKnown(ases, rt))
        || (v == Generator && Loopback0 !in rt.ifaces.m && rt.kind == CE)
        || (PoolCase(v, ases, rt) && ases.m[rt.asn.value].loopback.value.used >= HostCount(ases.m[rt.asn.value].loopback.value.block))
        || (PrivateCase(v, ases, rt) && rt.privateNetwork.None?)
  {
    var rt := rs.m[name];
    var ep := Endpoint(name, Loopback0);
    if Loopback0 in rt.ifaces.m then
      if v == Generator && !AsKnown(ases, rt) then Failure(UnknownAs(name))
      else if PoolCase(v, ases, rt) then
        var n := rt.asn.value;
        match NextHost(ases.m[n].loopback.value)
        case None => Failure(PoolExhausted(n, LoopbackPool))
        case Some((ip, _)) =>
          Success((AdvanceLoop(ases, n), UpdateIface(rs, ep, PoolStamp(v, rt.ifaces.m[Loopback0], ip)), Some(HostDraw(n, ip))))
      else if PrivateCase(v, ases, rt) then
        match rt.privateNetwork
        case None => Failure(MissingPrivateNetwork(name))
        case Some(c) => Success((ases, UpdateIface(rs, ep, PrivateStamp(rt.ifaces.m[Loopback0], c)), None))
      else Success((ases, rs, None))
    else if v == Generator && rt.kind == CE then
      if rt.privateNetwork.None? then Failure(MissingPrivateNetwork(name)) else Failure(MissingLoopback(name))
    else Success((ases, rs, None))
  }

  /** A turn's result: the AS map, the routers and the host drawn, if any. */
  type StepOut = (Ases, Routers, Option<HostDraw>)

  /** What a successful turn produces: a pool draw stamps the loopback and
      advances the AS's cursor, the private case stamps the private network,
      and every other router passes through unchanged. */
  lemma LoopbackStepResult(v: Variant, ases: Ases, rs: Routers, name: string, s: StepOut)
    requires name in rs.m && PoolsOk(ases) && LoopbackStep(v, ases, rs, name) == Success(s)
    ensures var rt := rs.m[name];
      PoolCase(v, ases, rt) ==>
        var n := rt.asn.value;
        && s.0 == AdvanceLoop(ases, n)
        && s.2.Some? && s.2.value.asn == n && s.2.value.ip == NextHostAddr(ases, n)
        && s.1 == UpdateIface(rs, Endpoint(name, Loopback0), PoolStamp(v, rt.ifaces.m[Loopback0], s.2.value.ip))
    ensures var rt := rs.m[name];
      PrivateCase(v, ases, rt) ==>
        && rt.privateNetwork.Some?
        && s == (ases, UpdateIface(rs, Endpoint(name, Loopback0), PrivateStamp(rt.ifaces.m[Loopback0], rt.privateNetwork.value)), None)
    ensures var rt := rs.m[name];
      !PoolCase(v, ases, rt) && !PrivateCase(v, ases, rt) ==> s == (ases, rs, None)
  {
  }

  /** A turn moves at most the visited router's AS's loopback cursor, by one. */
  lemma LoopbackStepCursors(v: Variant, ases: Ases, rs: Routers, name: string, s: StepOut)
    requires name in rs.m && PoolsOk(ases) && LoopbackStep(v, ases, rs, name) == Success(s)
    ensures CursorsAdvanced(ases, s.0) && PoolsOk(s.0)
  {
    LoopbackStepResult(v, ases, rs, name, s);
    if PoolCase(v, ases, rs.m[name]) {
      var n := rs.m[name].asn.value;
      assert AsAdvanced(ases.m[n], s.0.m[n]);
    }
  }

  /** A turn changes at most the visited router's `Loopback0`. */
  lemma LoopbackStepLookup(v: Variant, ases: Ases, rs: Routers, name: string, s: StepOut, ep: Endpoint)
    requires name in rs.m && PoolsOk(ases) && LoopbackStep(v, ases, rs, name) == Success(s)
    ensures SameShape(rs, s.1)
    ensures ep != Endpoint(name, Loopback0) ==> Lookup(s.1, ep) == Lookup(rs, ep)
  {
    LoopbackStepResult(v, ases, rs, name, s);
    var ep0 := Endpoint(name, Loopback0);
    if PoolCase(v, ases, rs.m[name]) {
      LookupAfterUpdate(rs, ep0, PoolStamp(v, rs.m[name].ifaces.m[Loopback0], s.2.value.ip), ep);
    } else if PrivateCase(v, ases, rs.m[name]) {
      LookupAfterUpdate(rs, ep0, PrivateStamp(rs.m[name].ifaces.m[Loopback0], rs.m[name].privateNetwork.value), ep);
    }
  }

  /** What the loop needs of its state: well-formed pools and router dicts. */
  predicate Ready(ases: Ases, rs: Routers) {
    PoolsOk(ases) && ValidRouters(rs)
  }

  /** A turn leaves the loop's state well formed and the router order alone. */
  lemma LoopbackStepReady(v: Variant, ases: Ases, rs: Routers, name: string, s: StepOut)
    requires name in rs.m && Ready(ases, rs) && LoopbackStep(v, ases, rs, name) == Success(s)
    ensures Ready(s.0, s.1) && s.1.keys == rs.keys
  {
    LoopbackStepCursors(v, ases, rs, name, s);
    LoopbackStepLookup(v, ases, rs, name, s, Endpoint(name, Loopback0));
    SameShapeLookup(rs, s.1);
  }

  /** The loop over the routers from dict position `i` on. */
  function LoopbackFrom(v: Variant, ases: Ases, rs: Routers, i: nat): (r: Result<LoopOut, Error>)
    requires Ready(ases, rs) && i <= |rs.keys|
    ensures r.Success? ==> |r.value.draws| == |rs.keys| - i
    decreases |rs.keys| - i
  {
    if i == |rs.keys| then Success(LoopOut(ases, rs, []))
    else
      var step :- LoopbackStep(v, ases, rs, rs.keys[i]);
      LoopbackStepReady(v, ases, rs, rs.keys[i], step);
      var rest :- LoopbackFrom(v, step.0, step.1, i + 1);
      Success(rest.(draws := [step.2] + rest.draws))
  }

  /** The pass from position `i` is that position's turn followed by the pass
      from `i + 1` on what the turn leaves. */
  predicate Splits(v: Variant, ases: Ases, rs: Routers, i: nat, step: StepOut, rest: LoopOut, out: LoopOut)
    requires Ready(ases, rs) && i < |rs.keys|
  {
    && LoopbackStep(v, ases, rs, rs.keys[i]) == Success(step)
    && Ready(step.0, step.1) && step.1.keys == rs.keys
    && LoopbackFrom(v, step.0, step.1, i + 1) == Success(rest)
    && out == rest.(draws := [step.2] + rest.draws)
  }

  lemma LoopbackSplit(v: Variant, ases: Ases, rs: Routers, i: nat, out: LoopOut) returns (step: StepOut, rest: LoopOut)
    requires Ready(ases, rs) && i < |rs.keys| && LoopbackFrom(v, ases, rs, i) == Success(out)
    ensures Splits(v, ases, rs, i, step, rest, out)
  {
    step := LoopbackStep(v, ases, rs, rs.keys[i]).value;
    LoopbackStepReady(v, ases, rs, rs.keys[i], step);
    rest := LoopbackFrom(v, step.0, step.1, i + 1).value;
  }

  /** The pass only moves loopback cursors forward: no AS appears or disappears. */
  lemma {:induction false} LoopbackCursors(v: Variant, ases: Ases, rs: Routers, i: nat, out: LoopOut)
    requires Ready(ases, rs) && i <= |rs.keys| && LoopbackFrom(v, ases, rs, i) == Success(out)
    ensures CursorsAdvanced(ases, out.ases)
    decreases |rs.keys| - i
  {
    if i < |rs.keys| {
      var step, rest := LoopbackSplit(v, ases, rs, i, out);
      LoopbackStepCursors(v, ases, rs, rs.keys[i], step);
      LoopbackCursors(v, step.0, step.1, i + 1, rest);
      CursorsAdvancedTrans(ases, step.0, rest.ases);
    }
  }

  /** The pass only fills in loopback interfaces: no router or interface
      appears or disappears. */
  lemma {:induction false} LoopbackRouters(v: Variant, ases: Ases, rs: Routers, i: nat, out: LoopOut)
    requires Ready(ases, rs) && i <= |rs.keys| && LoopbackFrom(v, ases, rs, i) == Success(out)
    ensures SameShape(rs, out.routers)
    decreases |rs.keys| - i
  {
    if i < |rs.keys| {
      var step, rest := LoopbackSplit(v, ases, rs, i, out);
      LoopbackStepLookup(v, ases, rs, rs.keys[i], step, Endpoint(rs.keys[i], Loopback0));
      LoopbackRouters(v, step.0, step.1, i + 1, rest);
      SameShapeTrans(rs, step.1, rest.routers);
    }
  }

  /** Interfaces other than the `Loopback0` of a router visited from `i` on
      leave the pass as they entered it. */
  lemma {:induction false} LoopbackFrame(v: Variant, ases: Ases, rs: Routers, i: nat, out: LoopOut, ep: Endpoint)
    requires Ready(ases, rs) && i <= |rs.keys| && LoopbackFrom(v, ases, rs, i) == Success(out)
    requires ep.iface != Loopback0 || ep.router !in rs.keys[i..]
    ensures Lookup(out.routers, ep) == Lookup(rs, ep)
    decreases |rs.keys| - i
  {
    if i < |rs.keys| {
      var step, rest := LoopbackSplit(v, ases, rs, i, out);
      NotInTailOr(rs.keys, i, ep);
      LoopbackStepLookup(v, ases, rs, rs.keys[i], step, ep);
      LoopbackFrame(v, step.0, step.1, i + 1, rest, ep);
    }
  }

  lemma NotInTailOr(keys: seq<string>, i: nat, ep: Endpoint)
    requires i < |keys| && (ep.iface != Loopback0 || ep.router !in keys[i..])
    ensures ep != Endpoint(keys[i], Loopback0)
    ensures ep.iface != Loopback0 || ep.router !in keys[i + 1..]
  {
    if ep.iface == Loopback0 {
      NotInTail(keys, i, ep.router);
    }
  }

  /** A router's standing for the pass is fixed by its AS's flags and ranges,
      which advancing cursors and filling in addresses leave alone. */
  lemma CasesStable(v: Variant, ases: Ases, ases': Ases, r: Router, r': Router)
    requires CursorsAdvanced(ases, ases') && SameRouterShape(r, r')
    ensures PoolCase(v, ases', r') == PoolCase(v, ases, r)
    ensures PrivateCase(v, ases', r') == PrivateCase(v, ases, r)
    ensures AsKnown(ases', r') == AsKnown(ases, r)
  {
    if AsKnown(ases, r) {
      assert AsAdvanced(ases.m[r.asn.value], ases'.m[r.asn.value]);
    }
  }

  /** What a router's turn amounts to: the AS whose loopback pool it drew
      from, if any, and the `Loopback0` it leaves behind. */
  datatype Turn = Turn(drawnFrom: Option<nat>, loopback: Option<Iface>)

  function Observed(d: Option<HostDraw>, after: Option<Iface>): Turn {
    Turn(if d.Some? then Some(d.value.asn) else None, after)
  }

  /** The turn a router is due, given the cursors it starts from and the host
      `d` drawn for it: a pool draw from its own AS stamped onto its loopback,
      the private network, or nothing at all. */
  function Expected(v: Variant, ases: Ases, rt: Router, d: Option<HostDraw>): Turn {
    if PoolCase(v, ases, rt) then
      Turn(Some(rt.asn.value), if d.Some? then Some(PoolStamp(v, rt.ifaces.m[Loopback0], d.value.ip)) else None)
    else if PrivateCase(v, ases, rt) && rt.privateNetwork.Some? then
      Turn(None, Some(PrivateStamp(rt.ifaces.m[Loopback0], rt.privateNetwork.value)))
    else
      Turn(None, if Loopback0 in rt.ifaces.m then Some(rt.ifaces.m[Loopback0]) else None)
  }

  lemma ExpectedStable(v: Variant, ases: Ases, ases': Ases, rt: Router, rt': Router, d: Option<HostDraw>)
    requires CursorsAdvanced(ases, ases') && SameRouterShape(rt, rt')
    requires Loopback0 in rt.ifaces.m ==> rt'.ifaces.m[Loopback0] == rt.ifaces.m[Loopback0]
    ensures Expected(v, ases', rt', d) == Expected(v, ases, rt, d)
  {
    CasesStable(v, ases, ases', rt, rt');
  }

  /** The router at dict position `k` ends the pass with the loopback its own
      turn gave it: the pool's next host as a /32 (internal in the generator),
      the private network for a generator CE without a pool, or untouched. */
  lemma {:induction false} LoopbackEffect(v: Variant, ases: Ases, rs: Routers, i: nat, k: nat, out: LoopOut)
    requires Ready(ases, rs) && i <= k < |rs.keys| && LoopbackFrom(v, ases, rs, i) == Success(out)
    ensures Observed(out.draws[k - i], Lookup(out.routers, Endpoint(rs.keys[k], Loopback0)))
            == Expected(v, ases, rs.m[rs.keys[k]], out.draws[k - i])
    decreases k - i, 2
  {
    if k == i {
      LoopbackEffectHere(v, ases, rs, i, out);
    } else {
      LoopbackEffectAfter(v, ases, rs, i, k, out);
    }
  }

  /** The inductive step of `LoopbackEffect`: a router after position `i` is
      untouched by the turn at `i`, so its outcome is the rest of the pass's. */
  lemma {:induction false} LoopbackEffectAfter(v: Variant, ases: Ases, rs: Routers, i: nat, k: nat, out: LoopOut)
    requires Ready(ases, rs) && i < k < |rs.keys| && LoopbackFrom(v, ases, rs, i) == Success(out)
    ensures Observed(out.draws[k - i], Lookup(out.routers, Endpoint(rs.keys[k], Loopback0)))
            == Expected(v, ases, rs.m[rs.keys[k]], out.draws[k - i])
    decreases k - i, 1
  {
    var step, rest := LoopbackSplit(v, ases, rs, i, out);
    LoopbackEffectLater(v, ases, rs, i, k, step, rest, out);
  }

  lemma LoopbackEffectHere(v: Variant, ases: Ases, rs: Routers, i: nat, out: LoopOut)
    requires Ready(ases, rs) && i < |rs.keys| && LoopbackFrom(v, ases, rs, i) == Success(out)
    ensures Observed(out.draws[0], Lookup(out.routers, Endpoint(rs.keys[i], Loopback0)))
            == Expected(v, ases, rs.m[rs.keys[i]], out.draws[0])
  {
    var step, rest := LoopbackSplit(v, ases, rs, i, out);
    var name := rs.keys[i];
    var ep0 := Endpoint(name, Loopback0);
    LoopbackStepResult(v, ases, rs, name, step);
    DistinctTail(rs.keys, i);
    LoopbackFrame(v, step.0, step.1, i + 1, rest, ep0);
    var rt := rs.m[name];
    if PoolCase(v, ases, rt) {
      LookupAfterUpdate(rs, ep0, PoolStamp(v, rt.ifaces.m[Loopback0], step.2.value.ip), ep0);
    } else if PrivateCase(v, ases, rt) {
      LookupAfterUpdate(rs, ep0, PrivateStamp(rt.ifaces.m[Loopback0], rt.privateNetwork.value), ep0);
    }
  }

  lemma {:induction false} LoopbackEffectLater(v: Variant, ases: Ases, rs: Routers, i: nat, k: nat, step: StepOut, rest: LoopOut, out: LoopOut)
    requires Ready(ases, rs) && i < k < |rs.keys| && Splits(v, ases, rs, i, step, rest, out)
    ensures Observed(out.draws[k - i], Lookup(out.routers, Endpoint(rs.keys[k], Loopback0)))
            == Expected(v, ases, rs.m[rs.keys[k]], out.draws[k - i])
    decreases k - i, 0
  {
    LoopbackEffect(v, step.0, step.1, i + 1, k, rest);
    var name := rs.keys[k];
    var ep0 := Endpoint(name, Loopback0);
    assert out.draws[k - i] == rest.draws[k - (i + 1)];
    LoopbackStepCursors(v, ases, rs, rs.keys[i], step);
    assert name != rs.keys[i];
    LoopbackStepLookup(v, ases, rs, rs.keys[i], step, ep0);
    ExpectedStable(v, ases, step.0, rs.m[name], step.1.m[name], out.draws[k - i]);
  }

  /** `draws` is what successive `next()` calls on the loopback cursors of
      `ases` hand out, `None` marking a router that drew nothing. */
  predicate HostChain(ases: Ases, draws: seq<Option<HostDraw>>)
    decreases |draws|
  {
    |draws| > 0 ==>
      match draws[0]
      case None => HostChain(ases, draws[1..])
      case Some(d) =>
        && d.asn in ases.m && ases.m[d.asn].loopback.Some?
        && d.ip == NextHostAddr(ases, d.asn)
        && HostChain(AdvanceLoop(ases, d.asn), draws[1..])
  }

  /** The pass's draws are such a chain from the cursors it started with. */
  lemma {:induction false} LoopbackChain(v: Variant, ases: Ases, rs: Routers, i: nat, out: LoopOut)
    requires Ready(ases, rs) && i <= |rs.keys| && LoopbackFrom(v, ases, rs, i) == Success(out)
    ensures HostChain(ases, out.draws)
    decreases |rs.keys| - i
  {
    if i < |rs.keys| {
      var step, rest := LoopbackSplit(v, ases, rs, i, out);
      LoopbackStepResult(v, ases, rs, rs.keys[i], step);
      LoopbackChain(v, step.0, step.1, i + 1, rest);
      assert out.draws[1..] == rest.draws;
    }
  }

  /** Each draw of a chain comes at or after where its AS's cursor stood. */
  lemma {:induction false} HostChainFrom(ases: Ases, draws: seq<Option<HostDraw>>, t: nat)
    requires HostChain(ases, draws) && t < |draws| && draws[t].Some?
    ensures draws[t].value.asn in ases.m && ases.m[draws[t].value.asn].loopback.Some?
    ensures NextHostAddr(ases, draws[t].value.asn) <= draws[t].value.ip
    decreases t
  {
    if t > 0 {
      assert draws[1..][t - 1] == draws[t];
      if draws[0].Some? {
        HostChainFrom(AdvanceLoop(ases, draws[0].value.asn), draws[1..], t - 1);
      } else {
        HostChainFrom(ases, draws[1..], t - 1);
      }
    }
  }

  /** Two draws of a chain from the same AS: the later host is strictly higher. */
  lemma {:induction false} HostChainAscending(ases: Ases, draws: seq<Option<HostDraw>>, i: nat, j: nat)
    requires HostChain(ases, draws) && i < j < |draws|
    requires draws[i].Some? && draws[j].Some? && draws[i].value.asn == draws[j].value.asn
    ensures draws[i].value.ip < draws[j].value.ip
    decreases i
  {
    assert draws[1..][j - 1] == draws[j];
    var next := if draws[0].Some? then AdvanceLoop(ases, draws[0].value.asn) else ases;
    if i == 0 {
      HostChainFrom(next, draws[1..], j - 1);
    } else {
      assert draws[1..][i - 1] == draws[i];
      HostChainAscending(next, draws[1..], i - 1, j - 1);
    }
  }

  /** The address on router `name`'s `Loopback0`, if it has one. */
  function LoopAddr(rs: Routers, name: string): Option<Addr> {
    var f := Lookup(rs, Endpoint(name, Loopback0));
    if f.Some? && f.value.addr.Some? then Some(f.value.addr.value.ip) else None
  }

  /** A router whose turn is a pool draw ends the pass with the drawn host on its loopback. */
  lemma PoolDrawn(v: Variant, ases: Ases, rs: Routers, out: LoopOut, k: nat)
    requires Ready(ases, rs) && LoopbackFrom(v, ases, rs, 0) == Success(out)
    requires k < |rs.keys| && PoolCase(v, ases, rs.m[rs.keys[k]])
    ensures out.draws[k].Some? && Some(out.draws[k].value.asn) == rs.m[rs.keys[k]].asn
    ensures LoopAddr(out.routers, rs.keys[k]) == Some(out.draws[k].value.ip)
  {
    LoopbackEffect(v, ases, rs, 0, k, out);
  }

  /** Two routers drawing their loopbacks from the same AS's pool end up with
      different /32 addresses: the earlier one in dict order gets the lower. */
  lemma LoopbacksDistinct(v: Variant, ases: Ases, rs: Routers, out: LoopOut, i: nat, j: nat)
    requires Ready(ases, rs) && LoopbackFrom(v, ases, rs, 0) == Success(out)
    requires i < j < |rs.keys|
    requires PoolCase(v, ases, rs.m[rs.keys[i]]) && PoolCase(v, ases, rs.m[rs.keys[j]])
    requires rs.m[rs.keys[i]].asn == rs.m[rs.keys[j]].asn
    ensures LoopAddr(out.routers, rs.keys[i]).Some? && LoopAddr(out.routers, rs.keys[j]).Some?
    ensures LoopAddr(out.routers, rs.keys[i]).value < LoopAddr(out.routers, rs.keys[j]).value
  {
    PoolDrawn(v, ases, rs, out, i);
    PoolDrawn(v, ases, rs, out, j);
    LoopbackChain(v, ases, rs, 0, out);
    HostChainAscending(ases, out.draws, i, j);
  }
}
