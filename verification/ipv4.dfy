/** IPv4 addresses as 32-bit unsigned integers, prefix lengths and CIDR blocks
    (section 3.1 of RFC 4632), the bitwise AND that turns an address and a
    netmask into a network address, and the dotted-quad text form. */
module IPv4 {
  import opened Text
  import opened Arith

  const AddrCount: nat := 0x1_0000_0000

  type Addr = n: nat | n < 0x1_0000_0000

  type PrefixLen = p: nat | p <= 32

  function Pow2(n: nat): (r: nat)
    ensures r >= 1
  {
    if n == 0 then 1 else 2 * Pow2(n - 1)
  }

  lemma {:induction false} Pow2Add(a: nat, b: nat)
    ensures Pow2(a) * Pow2(b) == Pow2(a + b)
  {
    if a > 0 {
      Pow2Add(a - 1, b);
      assert Pow2(a) * Pow2(b) == 2 * (Pow2(a - 1) * Pow2(b));
    }
  }

  lemma Pow2Values()
    ensures Pow2(8) == 256 && Pow2(16) == 65536 && Pow2(24) == 16777216
    ensures Pow2(32) == AddrCount
  {
  }

  /** Number of addresses in a block with prefix length `p`. */
  function BlockSize(p: PrefixLen): nat {
    Pow2(32 - p)
  }

  /** A CIDR block `base/prefix`. */
  datatype Cidr = Cidr(base: Addr, prefix: PrefixLen)

  /** The base has no host bits set, as a strictly parsed network requires. */
  predicate Aligned(c: Cidr) {
    c.base % BlockSize(c.prefix) == 0
  }

  /** An aligned block lies wholly inside the 32-bit address space. */
  lemma AlignedFits(c: Cidr)
    requires Aligned(c)
    ensures c.base + BlockSize(c.prefix) <= AddrCount
  {
    var b := BlockSize(c.prefix);
    Pow2Add(c.prefix, 32 - c.prefix);
    Pow2Values();
    var q := c.base / b;
    DivModSplit(c.base, b);
    assert c.base == q * b;
    MulLtCancel(q, Pow2(c.prefix), b);
    MulLe(q + 1, Pow2(c.prefix), b);
    MulDistAdd(q, 1, b);
  }

  /** The netmask of prefix length `p`: `p` one bits followed by `32 - p` zero bits. */
  function MaskOf(p: PrefixLen): (m: Addr)
    ensures m == (Pow2(p) - 1) * BlockSize(p)
  {
    Pow2Add(p, 32 - p);
    Pow2Values();
    MulDistSub(Pow2(p), 1, BlockSize(p));
    MulNonneg(Pow2(p) - 1, BlockSize(p));
    (Pow2(p) - 1) * BlockSize(p)
  }

  /** Bitwise AND of two naturals (Python's `&` on non-negative integers). */
  function BitAnd(a: nat, b: nat): (r: nat)
    ensures r <= a && r <= b
    decreases a
  {
    if a == 0 || b == 0 then 0
    else 2 * BitAnd(a / 2, b / 2) + (if a % 2 == 1 && b % 2 == 1 then 1 else 0)
  }

  /** The defining recurrence of `BitAnd` also holds when an operand is zero. */
  lemma BitAndStep(a: nat, b: nat)
    ensures BitAnd(a, b) == 2 * BitAnd(a / 2, b / 2) + (if a % 2 == 1 && b % 2 == 1 then 1 else 0)
  {
  }

  /** Halving a number split at bit `n` halves its low part. */
  lemma HalfSplit(n: nat, x: nat, h: nat, l: nat)
    requires n > 0 && l < Pow2(n) && x == h * Pow2(n) + l
    ensures x / 2 == h * Pow2(n - 1) + l / 2 && x % 2 == l % 2
    ensures l / 2 < Pow2(n - 1)
  {
    var q := Pow2(n - 1);
    MulAssoc(h, q, 2);
    MulComm(q, 2);
    MulDistAdd(h * q, l / 2, 2);
    MulNonneg(h, q);
    DivModUnique(x, 2, h * q + l / 2, l % 2);
  }

  /** AND acts independently on the bits above and below position `n`. */
  lemma {:induction false} BitAndSplit(n: nat, x: nat, y: nat, h1: nat, l1: nat, h2: nat, l2: nat)
    requires l1 < Pow2(n) && l2 < Pow2(n)
    requires x == h1 * Pow2(n) + l1 && y == h2 * Pow2(n) + l2
    ensures BitAnd(x, y) == BitAnd(h1, h2) * Pow2(n) + BitAnd(l1, l2)
  {
    if n > 0 {
      var q := Pow2(n - 1);
      HalfSplit(n, x, h1, l1);
      HalfSplit(n, y, h2, l2);
      BitAndSplit(n - 1, x / 2, y / 2, h1, l1 / 2, h2, l2 / 2);
      BitAndStep(x, y);
      BitAndStep(l1, l2);
      var hh, lo := BitAnd(h1, h2), BitAnd(l1 / 2, l2 / 2);
      var b := if x % 2 == 1 && y % 2 == 1 then 1 else 0;
      assert BitAnd(x, y) == 2 * (hh * q + lo) + b;
      assert BitAnd(l1, l2) == 2 * lo + b;
      MulAssoc(hh, q, 2);
      MulComm(q, 2);
      assert (hh * q) * 2 == hh * Pow2(n);
    } else {
      assert Pow2(n) == 1 && l1 == 0 && l2 == 0;
      assert x == h1 && y == h2;
    }
  }

  /** AND distributes over the split of both operands at bit `n`. */
  lemma BitAndDivMod(a: nat, b: nat, n: nat)
    ensures BitAnd(a, b) / Pow2(n) == BitAnd(Quot(a, Pow2(n)), Quot(b, Pow2(n)))
    ensures BitAnd(a, b) % Pow2(n) == BitAnd(a % Pow2(n), b % Pow2(n))
  {
    var p := Pow2(n);
    var h1, l1, h2, l2 := Quot(a, p), a % p, Quot(b, p), b % p;
    assert h1 == a / p && h2 == b / p;
    DivModSplit(a, p);
    DivModSplit(b, p);
    BitAndSplit(n, a, b, h1, l1, h2, l2);
    var hh, ll := BitAnd(h1, h2), BitAnd(l1, l2);
    DivModUnique(BitAnd(a, b), p, hh, ll);
  }

  /** ANDing with `n` one bits keeps a number below `2^n` unchanged. */
  lemma {:induction false} BitAndAllOnes(l: nat, n: nat)
    requires l < Pow2(n)
    ensures BitAnd(l, Pow2(n) - 1) == l
  {
    if n > 0 {
      var q := Pow2(n - 1);
      DivModUnique(Pow2(n) - 1, 2, q - 1, 1);
      BitAndAllOnes(l / 2, n - 1);
      BitAndStep(l, Pow2(n) - 1);
    }
  }

  /** The netmask is `2^p - 1` copies of the block size. */
  lemma MaskSplit(p: PrefixLen)
    ensures MaskOf(p) == (Pow2(p) - 1) * Pow2(32 - p) + 0
  {
  }

  /** The part of an address above the host bits fits in `p` bits. */
  lemma HighBitsBelow(ip: Addr, p: PrefixLen)
    ensures Quot(ip, BlockSize(p)) < Pow2(p)
  {
    var k := BlockSize(p);
    var h := Quot(ip, k);
    DivModSplit(ip, k);
    Pow2Add(p, 32 - p);
    Pow2Values();
    assert h * k <= ip < Pow2(p) * k;
    MulLtCancel(h, Pow2(p), k);
  }

  lemma SplitAddr(ip: Addr, p: PrefixLen)
    ensures ip == Quot(ip, BlockSize(p)) * Pow2(32 - p) + ip % BlockSize(p)
    ensures ip % BlockSize(p) < Pow2(32 - p)
  {
    DivModSplit(ip, BlockSize(p));
  }

  /** ANDing with the netmask of prefix `p` clears exactly the host bits. */
  lemma BitAndMask(ip: Addr, p: PrefixLen)
    ensures BitAnd(ip, MaskOf(p)) == ip - ip % BlockSize(p)
  {
    SplitAddr(ip, p);
    HighBitsBelow(ip, p);
    MaskKeepsHigh(ip, p, Quot(ip, BlockSize(p)), ip % BlockSize(p));
  }

  lemma MaskKeepsHigh(ip: Addr, p: PrefixLen, h: nat, l: nat)
    requires ip == h * Pow2(32 - p) + l && l < Pow2(32 - p) && h < Pow2(p)
    ensures BitAnd(ip, MaskOf(p)) == h * Pow2(32 - p)
  {
    MaskSplit(p);
    BitAndSplit(32 - p, ip, MaskOf(p), h, l, Pow2(p) - 1, 0);
    BitAndAllOnes(h, p);
    assert BitAnd(l, 0) == 0;
  }

  /** The network address of `ip` under the netmask of prefix `p` (`ip & mask`):
      the start of the aligned block of that size that contains `ip`. */
  function NetworkOf(ip: Addr, p: PrefixLen): (n: Addr)
    ensures n <= ip < n + BlockSize(p)
    ensures n % BlockSize(p) == 0
  {
    BitAndMask(ip, p);
    var k := BlockSize(p);
    DivModSplit(ip, k);
    DivModUnique(ip - ip % k, k, ip / k, 0);
    BitAnd(ip, MaskOf(p))
  }

  /** Every address of an aligned block has the block's base as its network. */
  lemma NetworkOfInBlock(c: Cidr, offset: nat)
    requires Aligned(c) && offset < BlockSize(c.prefix)
    requires c.base + offset < AddrCount
    ensures NetworkOf(c.base + offset, c.prefix) == c.base
  {
    var k := BlockSize(c.prefix);
    var ip: Addr := c.base + offset;
    BitAndMask(ip, c.prefix);
    DivModSplit(c.base, k);
    DivModUnique(ip, k, c.base / k, offset);
  }

  /** The four octets of an address, most significant first. */
  function Octets(a: Addr): (os: seq<nat>)
    ensures |os| == 4 && forall i :: 0 <= i < 4 ==> os[i] < 256
  {
    [a / 16777216, a / 65536 % 256, a / 256 % 256, a % 256]
  }

  /** Dotted-quad text of an address, as `str(IPv4Address)`. */
  function AddrText(a: Addr): string {
    Dotted(Octets(a))
  }

  /** Dotted-quad text of the netmask of prefix `p`. */
  function MaskText(p: PrefixLen): string {
    AddrText(MaskOf(p))
  }

  /** Octet-wise AND of two four-part addresses (config.py's network computation). */
  function OctetAnd(xs: seq<nat>, ys: seq<nat>): (zs: seq<nat>)
    requires |xs| == 4 && |ys| == 4
    ensures |zs| == 4 && forall i :: 0 <= i < 4 ==> zs[i] == BitAnd(xs[i], ys[i])
  {
    [BitAnd(xs[0], ys[0]), BitAnd(xs[1], ys[1]), BitAnd(xs[2], ys[2]), BitAnd(xs[3], ys[3])]
  }

  /** ANDing octet by octet gives the octets of the 32-bit AND. */
  lemma OctetAndIsBitAnd(a: Addr, b: Addr)
    ensures OctetAnd(Octets(a), Octets(b)) == Octets(BitAnd(a, b))
  {
    var r: Addr := BitAnd(a, b);
    Pow2Values();
    BitAndDivMod(a, b, 24);
    BitAndDivMod(a, b, 8);
    BitAndDivMod(Quot(a, 65536), Quot(b, 65536), 8);
    BitAndDivMod(a, b, 16);
    BitAndDivMod(Quot(a, 256), Quot(b, 256), 8);
    assert r / 256 == BitAnd(a / 256, b / 256);
    assert r / 256 % 256 == BitAnd(a / 256 % 256, b / 256 % 256);
    assert r / 65536 == BitAnd(a / 65536, b / 65536);
    assert r / 65536 % 256 == BitAnd(a / 65536 % 256, b / 65536 % 256);
  }
}
