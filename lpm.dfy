/**
 * The meaning of a longest-prefix-match lookup, independent of any data structure: among
 * the stored networks that contain an address, the one with the greatest prefix length.
 */
module Lpm {
  import opened Wrappers
  import opened Ip

  /** The network of the address's own family spelled by the first `k` bits of the address. */
  function PrefixOf(a: Address, k: nat): (n: Network)
    requires k <= Width(a.family)
    ensures n.family == a.family && PrefixLen(n) == k && Contains(n, a)
  {
    IpNetwork(a.family, a.bits[..k])
  }

  /** The longest stored network containing `a` whose prefix length is at most `k`. */
  function MatchUpTo(stored: set<Network>, a: Address, k: nat): (m: Option<Network>)
    requires k <= Width(a.family)
    decreases k
  {
    if PrefixOf(a, k) in stored then Some(PrefixOf(a, k))
    else if k == 0 then None
    else MatchUpTo(stored, a, k - 1)
  }

  /** The longest-prefix match of `a` among `stored`, or None when no stored network contains it. */
  function LongestMatch(stored: set<Network>, a: Address): (m: Option<Network>)
  {
    MatchUpTo(stored, a, Width(a.family))
  }

  /** Every network that contains `a` and is at most `k` bits long is one of the first `k + 1` prefixes of `a`. */
  lemma ContainedIsPrefixOf(m: Network, a: Address)
    requires Contains(m, a)
    ensures PrefixLen(m) <= Width(a.family) && m == PrefixOf(a, PrefixLen(m))
  {
  }

  lemma {:induction false} MatchUpToSpec(stored: set<Network>, a: Address, k: nat)
    requires k <= Width(a.family)
    ensures MatchUpTo(stored, a, k).Some? ==>
      var n := MatchUpTo(stored, a, k).value;
      && n in stored && Contains(n, a) && PrefixLen(n) <= k
      && forall m :: m in stored && Contains(m, a) && PrefixLen(m) <= k ==> PrefixLen(m) <= PrefixLen(n)
    ensures MatchUpTo(stored, a, k).None? ==>
      forall m :: m in stored && Contains(m, a) ==> PrefixLen(m) > k
  {
    if PrefixOf(a, k) !in stored {
      forall m | m in stored && Contains(m, a)
        ensures PrefixLen(m) != k
      {
        ContainedIsPrefixOf(m, a);
      }
      if k > 0 {
        MatchUpToSpec(stored, a, k - 1);
      }
    }
  }

  /**
   * Longest-prefix-match correctness: a match is a stored network containing the address
   * and no stored network containing it is longer; there is no match exactly when no stored
   * network contains the address.
   */
  lemma LongestMatchSpec(stored: set<Network>, a: Address)
    ensures LongestMatch(stored, a).Some? ==>
      var n := LongestMatch(stored, a).value;
      && n in stored && Contains(n, a)
      && forall m :: m in stored && Contains(m, a) ==> PrefixLen(m) <= PrefixLen(n)
    ensures LongestMatch(stored, a).None? <==> forall m :: m in stored ==> !Contains(m, a)
  {
    MatchUpToSpec(stored, a, Width(a.family));
    forall m | m in stored && Contains(m, a)
      ensures PrefixLen(m) <= Width(a.family)
    {
    }
  }

  /** The converse: a stored network that contains `a` and is longest among those is the match. */
  lemma LongestMatchUnique(stored: set<Network>, a: Address, n: Network)
    requires n in stored && Contains(n, a)
    requires forall m :: m in stored && Contains(m, a) ==> PrefixLen(m) <= PrefixLen(n)
    ensures LongestMatch(stored, a) == Some(n)
  {
    LongestMatchSpec(stored, a);
    var r := LongestMatch(stored, a).value;
    ContainsSameLength(n, r, a);
  }

  /** A more specific network always beats a less specific one that also contains the address. */
  lemma MoreSpecificWins(stored: set<Network>, a: Address, wide: Network, narrow: Network)
    requires wide in stored && narrow in stored && Contains(wide, a) && Contains(narrow, a)
    requires PrefixLen(wide) < PrefixLen(narrow)
    ensures LongestMatch(stored, a) != Some(wide)
    ensures LongestMatch(stored, a).Some? && PrefixLen(narrow) <= PrefixLen(LongestMatch(stored, a).value)
  {
    LongestMatchSpec(stored, a);
  }

  /** A /0 network of the address's family is the fallback: every address of the family then matches. */
  lemma DefaultNetworkMatches(stored: set<Network>, a: Address)
    requires IpNetwork(a.family, []) in stored
    ensures LongestMatch(stored, a).Some? && LongestMatch(stored, a).value.family == a.family
  {
    var zero: Network := IpNetwork(a.family, []);
    assert Contains(zero, a);
    LongestMatchSpec(stored, a);
  }

  /** Family isolation: networks of another family never change the match of an address. */
  lemma {:induction false} MatchUpToOtherFamily(stored: set<Network>, other: set<Network>, a: Address, k: nat)
    requires k <= Width(a.family)
    requires forall m :: m in other ==> m.family != a.family
    ensures MatchUpTo(stored + other, a, k) == MatchUpTo(stored, a, k)
  {
    assert PrefixOf(a, k) !in other;
    if k > 0 {
      MatchUpToOtherFamily(stored, other, a, k - 1);
    }
  }

  lemma LongestMatchOtherFamily(stored: set<Network>, other: set<Network>, a: Address)
    requires forall m :: m in other ==> m.family != a.family
    ensures LongestMatch(stored + other, a) == LongestMatch(stored, a)
    ensures LongestMatch(other, a) == None
  {
    MatchUpToOtherFamily(stored, other, a, Width(a.family));
    MatchUpToOtherFamily({}, other, a, Width(a.family));
    assert {} + other == other;
    LongestMatchSpec({}, a);
  }

  /** Prefixes of `a` longer than `d` that are not stored do not change the match found up to length `d`. */
  lemma {:induction false} MatchUpToSkip(stored: set<Network>, a: Address, d: nat, k: nat)
    requires d <= k <= Width(a.family)
    requires forall e :: d < e <= k ==> PrefixOf(a, e) !in stored
    ensures MatchUpTo(stored, a, k) == MatchUpTo(stored, a, d)
  {
    if d < k {
      MatchUpToSkip(stored, a, d, k - 1);
    }
  }
}
