/**
 * The longest-prefix-match structure: a binary trie over address bits, one per family,
 * and the table that holds the two of them and dispatches on the family of a key.
 */
module PrefixTrie {
  import opened Wrappers
  import opened Ip
  import opened Lpm

  // ---------------------------------------------------------------------------------------
  // The invariant of a trie, stated over the values of its fields.

  /** `path` and `node` are inverse bijections between nodes and the bit strings they spell. */
  ghost predicate Indexed(path: seq<seq<bool>>, node: map<seq<bool>, nat>, width: nat)
  {
    && (forall n :: 0 <= n < |path| ==> path[n] in node && node[path[n]] == n && |path[n]| <= width)
    && (forall b :: b in node ==> node[b] < |path| && path[node[b]] == b)
  }

  /** Every node's ancestors exist. */
  ghost predicate PrefixClosed(node: map<seq<bool>, nat>)
  {
    forall b, k :: b in node && 0 <= k <= |b| ==> b[..k] in node
  }

  /** The node spelled by `b`, or 0 when there is none (node 0, the root, is nobody's child). */
  ghost function NodeOf(node: map<seq<bool>, nat>, b: seq<bool>): nat
  {
    if b in node then node[b] else 0
  }

  /** The child links are exactly the one-bit extensions that exist. */
  ghost predicate Linked(left: seq<nat>, right: seq<nat>, path: seq<seq<bool>>, node: map<seq<bool>, nat>)
  {
    && |left| == |path| && |right| == |path|
    && (forall n {:trigger left[n]} :: 0 <= n < |path| ==> left[n] == NodeOf(node, path[n] + [false]))
    && (forall n {:trigger right[n]} :: 0 <= n < |path| ==> right[n] == NodeOf(node, path[n] + [true]))
  }

  /** A node stores only the network its path spells, and the stored networks are exactly `contents`. */
  ghost predicate Holds(stored: seq<Option<Network>>, path: seq<seq<bool>>, node: map<seq<bool>, nat>,
                        contents: set<Network>, family: Family)
  {
    && |stored| == |path|
    && (forall n {:trigger stored[n]} :: 0 <= n < |path| && stored[n].Some? ==>
          stored[n].value == IpNetwork(family, path[n]) && stored[n].value in contents)
    && (forall m :: m in contents ==>
          m.family == family && m.bits in node && node[m.bits] < |stored| && stored[node[m.bits]] == Some(m))
  }

  /** Adding a node for a missing one-bit extension of an existing node keeps the index and its closure. */
  lemma ExtendIndex(path: seq<seq<bool>>, node: map<seq<bool>, nat>, width: nat, q: seq<bool>)
    requires Indexed(path, node, width) && PrefixClosed(node)
    requires q != [] && q[..|q| - 1] in node && q !in node && |q| <= width
    ensures Indexed(path + [q], node[q := |path|], width)
    ensures PrefixClosed(node[q := |path|])
  {
    var node' := node[q := |path|];
    forall b, k | b in node' && 0 <= k <= |b|
      ensures b[..k] in node'
    {
      if b == q {
        if k < |b| {
          assert b[..k] == q[..|q| - 1][..k];
        } else {
          assert b[..k] == q;
        }
      } else {
        assert b in node;
      }
    }
  }

  /** The new node has no children, and only its parent's link changes. */
  lemma ExtendLinks(left: seq<nat>, right: seq<nat>, path: seq<seq<bool>>, node: map<seq<bool>, nat>,
                    width: nat, parent: nat, bit: bool)
    requires Indexed(path, node, width) && PrefixClosed(node) && Linked(left, right, path, node)
    requires parent < |path| && path[parent] + [bit] !in node
    ensures bit ==> Linked(left + [0], (right + [0])[parent := |path|],
                           path + [path[parent] + [bit]], node[path[parent] + [bit] := |path|])
    ensures !bit ==> Linked((left + [0])[parent := |path|], right + [0],
                            path + [path[parent] + [bit]], node[path[parent] + [bit] := |path|])
  {
    var q, child := path[parent] + [bit], |path|;
    var node' := node[q := child];
    var left' := if bit then left + [0] else (left + [0])[parent := child];
    var right' := if bit then (right + [0])[parent := child] else right + [0];
    var path' := path + [q];
    assert q + [false] !in node && q + [true] !in node by {
      assert (q + [false])[..|q|] == q && (q + [true])[..|q|] == q;
    }
    forall n | 0 <= n < |path'|
      ensures left'[n] == NodeOf(node', path'[n] + [false]) && right'[n] == NodeOf(node', path'[n] + [true])
    {
      if n < child {
        assert left[n] == NodeOf(node, path[n] + [false]) && right[n] == NodeOf(node, path[n] + [true]);
        assert path'[n] == path[n];
      }
      if n < child && n != parent {
        assert path[n] + [false] != q && path[n] + [true] != q by {
          assert (path[n] + [false])[..|path[n]|] == path[n];
          assert (path[n] + [true])[..|path[n]|] == path[n];
          assert q[..|path[parent]|] == path[parent];
        }
      }
    }
  }

  /** A new node stores nothing, so the stored networks stay what they were. */
  lemma ExtendHolds(stored: seq<Option<Network>>, path: seq<seq<bool>>, node: map<seq<bool>, nat>,
                    contents: set<Network>, family: Family, q: seq<bool>)
    requires Holds(stored, path, node, contents, family) && q !in node
    ensures Holds(stored + [None], path + [q], node[q := |path|], contents, family)
  {
  }

  /** Storing the network a node spells adds exactly that network to the contents. */
  lemma StoreHolds(stored: seq<Option<Network>>, path: seq<seq<bool>>, node: map<seq<bool>, nat>, width: nat,
                   contents: set<Network>, family: Family, at: nat, n: Network)
    requires Indexed(path, node, width) && Holds(stored, path, node, contents, family)
    requires at < |path| && path[at] == n.bits && n.family == family
    ensures Holds(stored[at := Some(n)], path, node, contents + {n}, family)
    ensures n in contents ==> stored[at := Some(n)] == stored && contents + {n} == contents
  {
    if n in contents {
      assert stored[at := Some(n)] == stored;
    }
  }

  /** When a bit string has no node, neither has any extension of it. */
  lemma NoNodeBelow(node: map<seq<bool>, nat>, b: seq<bool>, k: nat)
    requires PrefixClosed(node) && k <= |b| && b[..k] !in node
    ensures b !in node
  {
    assert b[..|b|][..k] == b[..k];
  }

  /** Adding the missing child of a node keeps the whole invariant and the contents. */
  lemma ExtendAll(left: seq<nat>, right: seq<nat>, stored: seq<Option<Network>>, path: seq<seq<bool>>,
                  node: map<seq<bool>, nat>, contents: set<Network>, family: Family, parent: nat, bit: bool)
    requires |path| >= 1 && path[0] == []
    requires Indexed(path, node, Width(family)) && PrefixClosed(node)
    requires Linked(left, right, path, node) && Holds(stored, path, node, contents, family)
    requires parent < |path| && |path[parent]| < Width(family) && path[parent] + [bit] !in node
    ensures var q, child := path[parent] + [bit], |left|;
      && |path + [q]| >= 1 && (path + [q])[0] == []
      && Indexed(path + [q], node[q := child], Width(family)) && PrefixClosed(node[q := child])
      && Linked(if bit then left + [0] else (left + [0])[parent := child],
                if bit then (right + [0])[parent := child] else right + [0],
                path + [q], node[q := child])
      && Holds(stored + [None], path + [q], node[q := child], contents, family)
  {
    var q := path[parent] + [bit];
    assert q[..|q| - 1] == path[parent];
    ExtendIndex(path, node, Width(family), q);
    ExtendLinks(left, right, path, node, Width(family), parent, bit);
    ExtendHolds(stored, path, node, contents, family, q);
  }

  /**
   * A binary trie over the address bits of one family.  Nodes live in an arena indexed by
   * natural numbers: node 0 is the root, `left[n]` and `right[n]` are the children of node
   * `n` along bit 0 and bit 1 (0 for "no child") and `stored[n]` is the network that ends
   * at node `n`, if any.
   *
   * The ghost view: `Contents` is the set of inserted networks, `path[n]` the bits spelled
   * from the root down to node `n`, and `node` the inverse of `path`.
   */
  class Trie {
    const family: Family
    var left: seq<nat>
    var right: seq<nat>
    var stored: seq<Option<Network>>

    ghost var Contents: set<Network>
    ghost var path: seq<seq<bool>>
    ghost var node: map<seq<bool>, nat>

    ghost predicate Valid()
      reads this
    {
      && |path| >= 1 && path[0] == []
      && Indexed(path, node, Width(family)) && PrefixClosed(node)
      && Linked(left, right, path, node)
      && Holds(stored, path, node, Contents, family)
    }

    function Child(n: nat, bit: bool): nat
      reads this
      requires n < |left| && n < |right|
    {
      if bit then right[n] else left[n]
    }

    constructor (family: Family)
      ensures Valid() && this.family == family && Contents == {}
    {
      this.family := family;
      left, right, stored := [0], [0], [None];
      Contents, path, node := {}, [[]], map[[] := 0];
    }

    /** Creates the child of `parent` along `bit`, which must not exist yet. */
    method AddChild(parent: nat, bit: bool) returns (child: nat)
      requires Valid() && parent < |path|
      requires |path[parent]| < Width(family) && path[parent] + [bit] !in node
      modifies this
      ensures Valid() && Contents == old(Contents)
      ensures child == old(|path|) && path == old(path) + [old(path[parent]) + [bit]]
      ensures child < |path| && Child(parent, bit) == child
    {
      var q := path[parent] + [bit];
      child := |left|;
      ExtendAll(left, right, stored, path, node, Contents, family, parent, bit);
      left, right := if bit then left + [0] else (left + [0])[parent := child],
                     if bit then (right + [0])[parent := child] else right + [0];
      stored, path, node := stored + [None], path + [q], node[q := child];
    }

    /**
     * Walks down from the root along the bits of `n`, creating the missing nodes, and
     * returns the node that spells `n`; when `n` is stored already nothing is created.
     */
    method Descend(n: Network) returns (cur: nat)
      requires Valid() && n.family == family
      modifies this
      ensures Valid() && Contents == old(Contents)
      ensures cur < |path| && path[cur] == n.bits
      ensures old(n in Contents) ==> unchanged(this)
    {
      cur := 0;
      var d: nat := 0;
      while d < |n.bits|
        invariant Valid() && Contents == old(Contents)
        invariant 0 <= d <= |n.bits|
        invariant cur < |path| && path[cur] == n.bits[..d]
        invariant old(n in Contents) ==> unchanged(this)
      {
        var bit := n.bits[d];
        assert path[cur] + [bit] == n.bits[..d + 1];
        var next := Child(cur, bit);
        if next == 0 {
          NoNodeBelow(node, n.bits, d + 1);
          next := AddChild(cur, bit);
        }
        cur, d := next, d + 1;
      }
      assert n.bits[..d] == n.bits;
    }

    /**
     * Inserts a network (the library's `insert(key, value)` with key and value equal).
     * A network of the other family is refused, as the conversion to this family's network
     * type raises; an already stored network leaves the trie exactly as it was.
     */
    method Insert(n: Network) returns (ok: bool)
      requires Valid()
      modifies this
      ensures Valid()
      ensures ok <==> n.family == family
      ensures Contents == if ok then old(Contents) + {n} else old(Contents)
      ensures !ok || old(n in Contents) ==> unchanged(this)
    {
      if n.family != family {
        return false;
      }
      var cur := Descend(n);
      StoreHolds(stored, path, node, Width(family), Contents, family, cur, n);
      stored := stored[cur := Some(n)];
      Contents := Contents + {n};
      ok := true;
    }

    /**
     * Longest-prefix match (the library's `get_key`): walks down along the bits of `a`
     * and returns the deepest stored network passed on the way, or None.
     */
    method Lookup(a: Address) returns (r: Option<Network>)
      requires Valid()
      ensures r == LongestMatch(Contents, a)
    {
      if a.family != family {
        LongestMatchOtherFamily({}, Contents, a);
        return None;
      }
      assert stored[0] == MatchUpTo(Contents, a, 0) by {
        assert a.bits[..0] == path[0];
      }
      var cur: nat, d: nat := 0, 0;
      r := stored[0];
      while d < |a.bits|
        invariant 0 <= d <= |a.bits|
        invariant cur < |path| && path[cur] == a.bits[..d]
        invariant r == MatchUpTo(Contents, a, d)
      {
        var next := Child(cur, a.bits[d]);
        assert path[cur] + [a.bits[d]] == a.bits[..d + 1];
        if next == 0 {
          forall e | d < e <= |a.bits|
            ensures PrefixOf(a, e) !in Contents
          {
            assert a.bits[..e][..d + 1] == a.bits[..d + 1];
            NoNodeBelow(node, a.bits[..e], d + 1);
          }
          MatchUpToSkip(Contents, a, d, |a.bits|);
          return;
        }
        cur, d := next, d + 1;
        if stored[cur].Some? {
          r := stored[cur];
        } else {
          assert PrefixOf(a, d) !in Contents;
        }
      }
    }
  }

  /**
   * The lookup table of the program: one trie per family.  A key goes into the IPv4 trie
   * when it converts to an IPv4 network and into the IPv6 trie otherwise.
   */
  class Table {
    const v4: Trie
    const v6: Trie

    ghost predicate Valid()
      reads this, v4, v6
    {
      v4 != v6 && v4.family == IPv4 && v6.family == IPv6 && v4.Valid() && v6.Valid()
    }

    /** Every network inserted so far, of either family. */
    ghost function Networks(): set<Network>
      reads this, v4, v6
    {
      v4.Contents + v6.Contents
    }

    constructor ()
      ensures Valid() && fresh(v4) && fresh(v6) && Networks() == {}
    {
      v4 := new Trie(IPv4);
      v6 := new Trie(IPv6);
    }

    /** Inserts a network into the trie of its family; inserting a stored network again changes nothing. */
    method Insert(n: Network)
      requires Valid()
      modifies v4, v6
      ensures Valid() && Networks() == old(Networks()) + {n}
      ensures n in old(Networks()) ==> unchanged(v4) && unchanged(v6)
    {
      assert n in old(Networks()) ==> n in (if n.family == IPv4 then v4 else v6).Contents;
      var ok := v4.Insert(n);
      if !ok {
        ok := v6.Insert(n);
      }
    }

    /** The longest inserted network of the address's family that contains it. */
    method GetKey(a: Address) returns (r: Option<Network>)
      requires Valid()
      ensures r == LongestMatch(Networks(), a)
    {
      if a.family == IPv4 {
        r := v4.Lookup(a);
        LongestMatchOtherFamily(v4.Contents, v6.Contents, a);
      } else {
        r := v6.Lookup(a);
        LongestMatchOtherFamily(v6.Contents, v4.Contents, a);
        assert v6.Contents + v4.Contents == Networks();
      }
    }

    /** Whether some inserted network contains the address (the script's `i in pyt`). */
    method HasMatch(a: Address) returns (found: bool)
      requires Valid()
      ensures found <==> exists m :: m in Networks() && Contains(m, a)
    {
      var r := GetKey(a);
      LongestMatchSpec(Networks(), a);
      found := r.Some?;
    }
  }
}
