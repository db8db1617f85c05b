/**
 * Addresses and networks of the two IP families.
 *
 * An address is its family and its bits, most significant first (32 of them for IPv4,
 * 128 for IPv6).  A network (a CIDR block) is its family and its leading prefix bits; the
 * prefix length is the number of those bits and the host bits of the base address are
 * zero by construction, which is the canonical form the address library produces.
 */
module Ip {

  datatype Family = IPv4 | IPv6

  /** Number of address bits of a family. */
  function Width(f: Family): (w: nat)
    ensures w == 32 || w == 128
  {
    match f
    case IPv4 => 32
    case IPv6 => 128
  }

  datatype IpAddress = IpAddress(family: Family, bits: seq<bool>)

  /** A host address: exactly as many bits as its family is wide. */
  type Address = a: IpAddress | |a.bits| == Width(a.family)
    witness IpAddress(IPv4, seq(32, _ => false))

  datatype IpNetwork = IpNetwork(family: Family, bits: seq<bool>)

  /** A CIDR block: the network bits, at most as many as the family is wide. */
  type Network = n: IpNetwork | |n.bits| <= Width(n.family)
    witness IpNetwork(IPv4, [])

  function PrefixLen(n: Network): (len: nat)
    ensures len <= Width(n.family)
  {
    |n.bits|
  }

  /** Membership of an address in a network: same family, and the address starts with the network bits. */
  predicate Contains(n: Network, a: Address)
  {
    n.family == a.family && n.bits <= a.bits
  }

  /** Two networks of one family that both contain an address and have the same length are the same network. */
  lemma ContainsSameLength(n: Network, m: Network, a: Address)
    requires Contains(n, a) && Contains(m, a) && PrefixLen(n) == PrefixLen(m)
    ensures n == m
  {
    assert n.bits == a.bits[..|n.bits|] == m.bits;
  }

  // ---------------------------------------------------------------------------------------
  // The numeric view: the address library stores an address as a natural number below
  // 2^width, and a network as its base address plus a netmask.

  function Pow2(k: nat): (p: nat)
    ensures p >= 1
  {
    if k == 0 then 1 else 2 * Pow2(k - 1)
  }

  /** Value of a bit string, most significant bit first. */
  function ToNat(bits: seq<bool>): (v: nat)
  {
    if bits == [] then 0
    else 2 * ToNat(bits[..|bits| - 1]) + (if bits[|bits| - 1] then 1 else 0)
  }

  /** The `w` bits of a value below 2^w, most significant first. */
  function FromNat(v: nat, w: nat): (bits: seq<bool>)
    requires v < Pow2(w)
    ensures |bits| == w
  {
    if w == 0 then [] else FromNat(v / 2, w - 1) + [v % 2 == 1]
  }

  lemma {:induction false} ToNatBound(bits: seq<bool>)
    ensures ToNat(bits) < Pow2(|bits|)
  {
    if bits != [] {
      ToNatBound(bits[..|bits| - 1]);
    }
  }

  lemma {:induction false} ToNatFromNat(v: nat, w: nat)
    requires v < Pow2(w)
    ensures ToNat(FromNat(v, w)) == v
  {
    if w > 0 {
      ToNatFromNat(v / 2, w - 1);
      var bits := FromNat(v, w);
      assert bits[..|bits| - 1] == FromNat(v / 2, w - 1);
    }
  }

  lemma {:induction false} FromNatToNat(bits: seq<bool>)
    ensures ToNat(bits) < Pow2(|bits|) && FromNat(ToNat(bits), |bits|) == bits
  {
    ToNatBound(bits);
    if bits != [] {
      var init := bits[..|bits| - 1];
      FromNatToNat(init);
      assert bits == init + [bits[|bits| - 1]];
    }
  }

  /** The address of a family whose numeric value is `v` (the library's `IPv4Address(int)`). */
  function AddressOf(f: Family, v: nat): (a: Address)
    requires v < Pow2(Width(f))
    ensures a.family == f && ToNat(a.bits) == v
  {
    ToNatFromNat(v, Width(f));
    IpAddress(f, FromNat(v, Width(f)))
  }

  /** The numeric value of an address determines it within its family. */
  lemma ValueDeterminesAddress(a: Address, b: Address)
    requires a.family == b.family && ToNat(a.bits) == ToNat(b.bits)
    ensures a == b
  {
    FromNatToNat(a.bits);
    FromNatToNat(b.bits);
  }

  /** Splitting a bit string after `k` bits splits its value into a high and a low part. */
  lemma {:induction false} ToNatSplit(bits: seq<bool>, k: nat)
    requires k <= |bits|
    ensures ToNat(bits) == ToNat(bits[..k]) * Pow2(|bits| - k) + ToNat(bits[k..])
  {
    if k < |bits| {
      var init, low := bits[..|bits| - 1], bits[k..];
      var last := if bits[|bits| - 1] then 1 else 0;
      ToNatSplit(init, k);
      assert init[..k] == bits[..k];
      assert low[..|low| - 1] == init[k..] && low[|low| - 1] == bits[|bits| - 1];
      assert ToNat(low) == 2 * ToNat(init[k..]) + last;
      assert Pow2(|bits| - k) == 2 * Pow2(|init| - k);
      Distribute(ToNat(bits[..k]), Pow2(|init| - k), ToNat(init[k..]), last);
    } else {
      assert bits[..k] == bits;
      assert bits[k..] == [];
    }
  }

  lemma Distribute(h: nat, p: nat, l: nat, b: nat)
    ensures 2 * (h * p + l) + b == h * (2 * p) + (2 * l + b)
  {
    assert h * (2 * p) == 2 * (h * p);
  }

  /** The high `k` bits of a value: its quotient by 2^(length - k). */
  lemma HighBits(bits: seq<bool>, k: nat)
    requires k <= |bits|
    ensures ToNat(bits) / Pow2(|bits| - k) == ToNat(bits[..k])
  {
    ToNatSplit(bits, k);
    ToNatBound(bits[k..]);
    DivUnique(ToNat(bits), Pow2(|bits| - k), ToNat(bits[..k]), ToNat(bits[k..]));
  }

  lemma DivUnique(x: nat, d: nat, q: nat, r: nat)
    requires d > 0 && r < d && x == q * d + r
    ensures x / d == q
  {
    var q', r' := x / d, x % d;
    assert x == q' * d + r';
    if q' < q {
      MulStep(q', q, d);
    } else if q < q' {
      MulStep(q, q', d);
    }
  }

  lemma {:induction false} MulStep(a: nat, b: nat, d: nat)
    requires a < b
    ensures a * d + d <= b * d
  {
    if b == a + 1 {
      assert (a + 1) * d == a * d + d;
    } else {
      MulStep(a, b - 1, d);
      assert (b - 1) * d + d == b * d;
    }
  }

  /**
   * Membership in numeric terms, as the address library computes it: the address's value
   * shifted right past the host bits equals the network's prefix value.
   */
  lemma ContainsByValue(n: Network, a: Address)
    requires n.family == a.family
    ensures Contains(n, a) <==> ToNat(a.bits) / Pow2(Width(a.family) - PrefixLen(n)) == ToNat(n.bits)
  {
    var k := |n.bits|;
    var high := a.bits[..k];
    HighBits(a.bits, k);
    assert ToNat(a.bits) / Pow2(Width(a.family) - PrefixLen(n)) == ToNat(high);
    if Contains(n, a) {
      assert high == n.bits;
    }
    if ToNat(high) == ToNat(n.bits) {
      FromNatToNat(high);
      FromNatToNat(n.bits);
      assert high == n.bits;
      assert k <= |a.bits|;
      assert n.bits == a.bits[..k];
      assert n.bits <= a.bits;
    }
  }
}
