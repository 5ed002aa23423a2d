/** One-shot address cursors. An AS owns up to two: one over the host addresses
    of its loopback block (Python's `IPv4Network(...).hosts()`) and one over the
    /24 subnets carved from its physical block (`.subnets(new_prefix=24)`).
    A cursor only records how many items have been drawn; drawing past the end
    is the `StopIteration` the source lets escape, modelled as `None`. */
module AddressPool {
  import opened Wrappers
  import opened Arith
  import opened IPv4

  datatype Pool = Pool(block: Cidr, used: nat)

  /** A block whose `hosts()` are the addresses strictly between the network and
      broadcast addresses (prefixes /31 and /32, special-cased by Python, are excluded). */
  predicate HostBlock(c: Cidr) {
    Aligned(c) && c.prefix <= 30
  }

  /** A block that `subnets(new_prefix=24)` can carve into /24s. */
  predicate SubnetBlock(c: Cidr) {
    Aligned(c) && c.prefix <= 24
  }

  function HostCount(c: Cidr): nat
    requires HostBlock(c)
  {
    assert BlockSize(c.prefix) >= 4 by { Pow2Add(2, 30 - c.prefix); }
    BlockSize(c.prefix) - 2
  }

  function SubnetCount(c: Cidr): nat
    requires SubnetBlock(c)
  {
    Pow2(24 - c.prefix)
  }

  /** The `i`-th host of the block, counting from zero. */
  function HostAt(c: Cidr, i: nat): (a: Addr)
    requires HostBlock(c) && i < HostCount(c)
    ensures c.base < a < c.base + BlockSize(c.prefix) - 1
  {
    AlignedFits(c);
    c.base + 1 + i
  }

  lemma BlockOf24(c: Cidr)
    requires SubnetBlock(c)
    ensures BlockSize(c.prefix) == SubnetCount(c) * 256
    ensures c.base % 256 == 0
  {
    Pow2Add(24 - c.prefix, 8);
    Pow2Values();
    var k := BlockSize(c.prefix);
    DivModSplit(c.base, k);
    MulAssoc(c.base / k, SubnetCount(c), 256);
    DivModUnique(c.base, 256, (c.base / k) * SubnetCount(c), 0);
  }

  /** The `i`-th /24 carved from the block, counting from zero, as its base address. */
  function SubnetAt(c: Cidr, i: nat): (b: Addr)
    requires SubnetBlock(c) && i < SubnetCount(c)
    ensures b % 256 == 0
    ensures c.base <= b && b + 256 <= c.base + BlockSize(c.prefix)
  {
    BlockOf24(c);
    AlignedFits(c);
    MulLe(i + 1, SubnetCount(c), 256);
    DivModUnique(c.base + 256 * i, 256, c.base / 256 + i, 0);
    c.base + 256 * i
  }

  /** `next(hosts_iterator)`: the next host in ascending order, or `None` when exhausted. */
  function NextHost(p: Pool): (r: Option<(Addr, Pool)>)
    requires HostBlock(p.block)
    ensures r.Some? <==> p.used < HostCount(p.block)
    ensures r.Some? ==> r.value.0 == HostAt(p.block, p.used) && r.value.1 == p.(used := p.used + 1)
  {
    if p.used < HostCount(p.block) then Some((HostAt(p.block, p.used), p.(used := p.used + 1)))
    else None
  }

  /** `next(subnets_iterator)`: the next /24 in ascending order, or `None` when exhausted. */
  function NextSubnet(p: Pool): (r: Option<(Addr, Pool)>)
    requires SubnetBlock(p.block)
    ensures r.Some? <==> p.used < SubnetCount(p.block)
    ensures r.Some? ==> r.value.0 == SubnetAt(p.block, p.used) && r.value.1 == p.(used := p.used + 1)
  {
    if p.used < SubnetCount(p.block) then Some((SubnetAt(p.block, p.used), p.(used := p.used + 1)))
    else None
  }

  /** Hosts come out in strictly ascending order, so no host is handed out twice. */
  lemma HostsAscending(c: Cidr, i: nat, j: nat)
    requires HostBlock(c) && i < j < HostCount(c)
    ensures HostAt(c, i) < HostAt(c, j)
  {
  }

  /** Successive /24s are ascending and pairwise disjoint. */
  lemma SubnetsDisjoint(c: Cidr, i: nat, j: nat)
    requires SubnetBlock(c) && i < j < SubnetCount(c)
    ensures SubnetAt(c, i) + 256 <= SubnetAt(c, j)
  {
  }

  /** `n` successive `next()` calls on a loopback cursor: the hosts they
      return in order and the cursor they leave; `None` when one of them
      finds the cursor exhausted. */
  function DrawHosts(p: Pool, n: nat): Option<(seq<Addr>, Pool)>
    requires HostBlock(p.block)
    decreases n
  {
    if n == 0 then Some(([], p))
    else match NextHost(p)
      case None => None
      case Some((a, p')) =>
        match DrawHosts(p', n - 1)
        case None => None
        case Some((rest, q)) => Some(([a] + rest, q))
  }

  /** `n` successive `next()` calls on a physical cursor. */
  function DrawSubnets(p: Pool, n: nat): Option<(seq<Addr>, Pool)>
    requires SubnetBlock(p.block)
    decreases n
  {
    if n == 0 then Some(([], p))
    else match NextSubnet(p)
      case None => None
      case Some((b, p')) =>
        match DrawSubnets(p', n - 1)
        case None => None
        case Some((rest, q)) => Some(([b] + rest, q))
  }

  /** A loopback cursor hands out the hosts of its block one by one, in
      ascending order from where it stands: `n` draws succeed exactly while
      `n` hosts remain, the `k`-th returns the block's base plus `used + k + 1`,
      and the cursor ends `n` further on. */
  lemma {:induction false} HostDraws(p: Pool, n: nat)
    requires HostBlock(p.block) && p.used <= HostCount(p.block)
    ensures DrawHosts(p, n).Some? <==> p.used + n <= HostCount(p.block)
    ensures DrawHosts(p, n).Some? ==>
      && |DrawHosts(p, n).value.0| == n
      && DrawHosts(p, n).value.1 == p.(used := p.used + n)
      && forall k :: 0 <= k < n ==> DrawHosts(p, n).value.0[k] == p.block.base + 1 + p.used + k
    decreases n
  {
    if n > 0 && p.used < HostCount(p.block) {
      var p' := p.(used := p.used + 1);
      assert NextHost(p) == Some((HostAt(p.block, p.used), p'));
      HostDraws(p', n - 1);
      if DrawHosts(p', n - 1).Some? {
        var rest := DrawHosts(p', n - 1).value.0;
        var s := DrawHosts(p, n).value.0;
        assert s == [HostAt(p.block, p.used)] + rest;
        forall k | 0 <= k < n ensures s[k] == p.block.base + 1 + p.used + k {
          if k > 0 { assert s[k] == rest[k - 1]; }
        }
      }
    }
  }

  /** A physical cursor hands out the /24s of its block one by one, in
      ascending order from where it stands: `n` draws succeed exactly while
      `n` of them remain, the `k`-th starts `256 * (used + k)` above the
      block's base, and the cursor ends `n` further on. */
  lemma {:induction false} SubnetDraws(p: Pool, n: nat)
    requires SubnetBlock(p.block) && p.used <= SubnetCount(p.block)
    ensures DrawSubnets(p, n).Some? <==> p.used + n <= SubnetCount(p.block)
    ensures DrawSubnets(p, n).Some? ==>
      && |DrawSubnets(p, n).value.0| == n
      && DrawSubnets(p, n).value.1 == p.(used := p.used + n)
      && forall k :: 0 <= k < n ==> DrawSubnets(p, n).value.0[k] == p.block.base + 256 * (p.used + k)
    decreases n
  {
    if n > 0 && p.used < SubnetCount(p.block) {
      var p' := p.(used := p.used + 1);
      assert NextSubnet(p) == Some((SubnetAt(p.block, p.used), p'));
      SubnetDraws(p', n - 1);
      if DrawSubnets(p', n - 1).Some? {
        var rest := DrawSubnets(p', n - 1).value.0;
        var s := DrawSubnets(p, n).value.0;
        assert s == [SubnetAt(p.block, p.used)] + rest;
        forall k | 0 <= k < n ensures s[k] == p.block.base + 256 * (p.used + k) {
          if k > 0 { assert s[k] == rest[k - 1]; }
        }
      }
    }
  }
}
