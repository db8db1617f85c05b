/**
 * The script's pipeline: the address lines and subnet lines become sets, the subnets are
 * inserted into the lookup table, every address is paired with its most specific subnet,
 * and the records are rendered as CSV lines under a header, sorted by the numeric-aware key.
 *
 * Parsing an address or a subnet line (with its surrounding white space stripped) and the
 * text of an address (`str(i)`) are the address library's; the text of a matched subnet is
 * the key the lookup table returns (`get_key`).  Here they are function parameters.
 * `showNet` stands for the text `get_key` gives for a stored network.
 */
module Relationship {
  import opened Wrappers
  import opened Ip
  import opened Lpm
  import opened PrefixTrie
  import opened SortKey

  const Header: string := "Subnet,IP"

  // ---------------------------------------------------------------------------------------
  // Loading the input lines.

  /** The addresses of the lines that parse; a line that does not parse is skipped. */
  function ParsedAddresses(lines: seq<string>, parse: string -> Option<Address>): (addrs: set<Address>)
  {
    if lines == [] then {}
    else
      var last := parse(lines[|lines| - 1]);
      ParsedAddresses(lines[..|lines| - 1], parse) + (if last.Some? then {last.value} else {})
  }

  lemma {:induction false} ParsedAddressesSpec(lines: seq<string>, parse: string -> Option<Address>, a: Address)
    ensures a in ParsedAddresses(lines, parse) <==> exists i :: 0 <= i < |lines| && parse(lines[i]) == Some(a)
  {
    if lines != [] {
      var init := lines[..|lines| - 1];
      ParsedAddressesSpec(init, parse, a);
      if exists i :: 0 <= i < |lines| && parse(lines[i]) == Some(a) {
        var i :| 0 <= i < |lines| && parse(lines[i]) == Some(a);
        if i < |init| {
          assert init[i] == lines[i];
        }
      }
      if exists i :: 0 <= i < |init| && parse(init[i]) == Some(a) {
        var i :| 0 <= i < |init| && parse(init[i]) == Some(a);
        assert lines[i] == init[i];
      }
    }
  }

  /** A line that is not an address has no effect on the addresses read from the other lines. */
  lemma SkipInvalidLine(before: seq<string>, bad: string, after: seq<string>, parse: string -> Option<Address>)
    requires parse(bad).None?
    ensures ParsedAddresses(before + [bad] + after, parse) == ParsedAddresses(before + after, parse)
  {
    var with, without := before + [bad] + after, before + after;
    forall a
      ensures a in ParsedAddresses(with, parse) <==> a in ParsedAddresses(without, parse)
    {
      ParsedAddressesSpec(with, parse, a);
      ParsedAddressesSpec(without, parse, a);
      if exists i :: 0 <= i < |with| && parse(with[i]) == Some(a) {
        var i :| 0 <= i < |with| && parse(with[i]) == Some(a);
        if i < |before| {
          assert without[i] == with[i];
        } else {
          assert i > |before| && without[i - 1] == with[i];
        }
      }
      if exists i :: 0 <= i < |without| && parse(without[i]) == Some(a) {
        var i :| 0 <= i < |without| && parse(without[i]) == Some(a);
        if i < |before| {
          assert with[i] == without[i];
        } else {
          assert with[i + 1] == without[i];
        }
      }
    }
  }

  /** Reads the address lines into a set (lines 108-117 of the script). */
  method LoadAddresses(lines: seq<string>, parse: string -> Option<Address>) returns (addrs: set<Address>)
    ensures addrs == ParsedAddresses(lines, parse)
  {
    addrs := {};
    for i := 0 to |lines|
      invariant addrs == ParsedAddresses(lines[..i], parse)
    {
      assert lines[..i + 1][..i] == lines[..i];
      var parsed := parse(lines[i]);
      if parsed.Some? {
        addrs := addrs + {parsed.value};
      }
    }
    assert lines[..|lines|] == lines;
  }

  /** The networks of the subnet lines, or None as soon as one line is not a network. */
  function ParsedNetworks(lines: seq<string>, parse: string -> Option<Network>): (nets: Option<set<Network>>)
  {
    if lines == [] then Some({})
    else
      match ParsedNetworks(lines[..|lines| - 1], parse)
      case None => None
      case Some(nets) =>
        var last := parse(lines[|lines| - 1]);
        if last.Some? then Some(nets + {last.value}) else None
  }

  /** One bad subnet line fails the whole load; otherwise the networks are those of the lines. */
  lemma {:induction false} ParsedNetworksSpec(lines: seq<string>, parse: string -> Option<Network>)
    ensures ParsedNetworks(lines, parse).None? <==> exists i :: 0 <= i < |lines| && parse(lines[i]).None?
    ensures ParsedNetworks(lines, parse).Some? ==>
      forall n :: n in ParsedNetworks(lines, parse).value <==> exists i :: 0 <= i < |lines| && parse(lines[i]) == Some(n)
  {
    if lines != [] {
      var init := lines[..|lines| - 1];
      ParsedNetworksSpec(init, parse);
      forall i | 0 <= i < |init|
        ensures init[i] == lines[i]
      {
      }
      if ParsedNetworks(lines, parse).Some? {
        forall n
          ensures n in ParsedNetworks(lines, parse).value <==> exists i :: 0 <= i < |lines| && parse(lines[i]) == Some(n)
        {
          if exists i :: 0 <= i < |lines| && parse(lines[i]) == Some(n) {
            var i :| 0 <= i < |lines| && parse(lines[i]) == Some(n);
            if i < |init| {
              assert parse(init[i]) == Some(n);
            }
          }
        }
      }
    }
  }

  /** Reads the subnet lines into a set; a line that is not a network aborts the load (lines 120-127). */
  method LoadNetworks(lines: seq<string>, parse: string -> Option<Network>) returns (r: Option<set<Network>>)
    ensures r == ParsedNetworks(lines, parse)
  {
    var nets := {};
    for i := 0 to |lines|
      invariant ParsedNetworks(lines[..i], parse) == Some(nets)
    {
      assert lines[..i + 1][..i] == lines[..i];
      var parsed := parse(lines[i]);
      if parsed.None? {
        AbortIsFinal(lines, parse, i + 1);
        return None;
      }
      nets := nets + {parsed.value};
    }
    assert lines[..|lines|] == lines;
    r := Some(nets);
  }

  /** Once a prefix of the subnet lines fails, so do all the lines. */
  lemma {:induction false} AbortIsFinal(lines: seq<string>, parse: string -> Option<Network>, k: nat)
    requires k <= |lines| && ParsedNetworks(lines[..k], parse).None?
    ensures ParsedNetworks(lines, parse).None?
    decreases |lines| - k
  {
    if k < |lines| {
      assert lines[..k + 1][..k] == lines[..k];
      AbortIsFinal(lines, parse, k + 1);
    } else {
      assert lines[..k] == lines;
    }
  }

  // ---------------------------------------------------------------------------------------
  // Building the lookup table.

  /** Inserts every network into a new table (lines 130-143); the result does not depend on the order. */
  method BuildTable(nets: set<Network>) returns (pyt: Table)
    ensures fresh(pyt) && fresh(pyt.v4) && fresh(pyt.v6)
    ensures pyt.Valid() && pyt.Networks() == nets
  {
    pyt := new Table();
    var rest := nets;
    while rest != {}
      invariant pyt.Valid() && fresh(pyt.v4) && fresh(pyt.v6)
      invariant rest <= nets && pyt.Networks() == nets - rest
      decreases rest
    {
      var n :| n in rest;
      pyt.Insert(n);
      RemoveOne(nets, rest, n);
      rest := rest - {n};
    }
  }

  // ---------------------------------------------------------------------------------------
  // Matching.

  /** The record of an address: the text of its subnet (empty when none), a comma, the address text. */
  function RecordLine(m: Option<Network>, a: Address, showNet: Network -> string, showAddr: Address -> string): (line: string)
  {
    match m
    case Some(n) => showNet(n) + "," + showAddr(a)
    case None => "," + showAddr(a)
  }

  /** The records of the script: one per address, naming the longest matching network. */
  function Records(nets: set<Network>, addrs: set<Address>, showNet: Network -> string, showAddr: Address -> string): (records: set<string>)
  {
    set a | a in addrs :: RecordLine(LongestMatch(nets, a), a, showNet, showAddr)
  }

  /** Pairs every address with its longest match in the table (lines 146-158). */
  method MatchAddresses(pyt: Table, addrs: set<Address>, showNet: Network -> string, showAddr: Address -> string)
    returns (records: set<string>)
    requires pyt.Valid()
    ensures records == Records(pyt.Networks(), addrs, showNet, showAddr)
  {
    records := {};
    ghost var nets := pyt.Networks();
    if |addrs| != 0 {
      var rest := addrs;
      while rest != {}
        invariant rest <= addrs
        invariant records == Records(nets, addrs - rest, showNet, showAddr)
        decreases rest
      {
        var i :| i in rest;
        ghost var done := addrs - rest;
        ghost var line := RecordLine(LongestMatch(nets, i), i, showNet, showAddr);
        RecordsAdd(nets, done, i, showNet, showAddr);
        MatchFound(nets, i);
        var a := pyt.HasMatch(i);
        if a {
          var key := pyt.GetKey(i);
          assert showNet(key.value) + "," + showAddr(i) == line;
          records := records + {showNet(key.value) + "," + showAddr(i)};
        }
        if !a {
          assert "," + showAddr(i) == line;
          records := records + {"," + showAddr(i)};
        }
        RemoveOne(addrs, rest, i);
        rest := rest - {i};
      }
    }
  }

  lemma MatchFound(nets: set<Network>, a: Address)
    ensures LongestMatch(nets, a).Some? <==> exists m :: m in nets && Contains(m, a)
  {
    LongestMatchSpec(nets, a);
  }

  lemma RemoveOne<T>(all: set<T>, rest: set<T>, x: T)
    requires x in rest && rest <= all
    ensures all - (rest - {x}) == (all - rest) + {x}
  {
  }

  lemma RecordsAdd(nets: set<Network>, done: set<Address>, a: Address, showNet: Network -> string, showAddr: Address -> string)
    ensures Records(nets, done + {a}, showNet, showAddr)
         == Records(nets, done, showNet, showAddr) + {RecordLine(LongestMatch(nets, a), a, showNet, showAddr)}
  {
  }

  // ---------------------------------------------------------------------------------------
  // Reading a record back.

  /** The position of the last comma of `s`, if any. */
  function LastComma(s: string): (i: Option<nat>)
    ensures i.Some? ==> i.value < |s| && s[i.value] == ',' && ',' !in s[i.value + 1..]
    ensures i.None? ==> ',' !in s
  {
    if s == [] then None
    else if s[|s| - 1] == ',' then Some(|s| - 1)
    else
      var i := LastComma(s[..|s| - 1]);
      assert s == s[..|s| - 1] + [s[|s| - 1]];
      if i.Some? then assert s[i.value + 1..] == s[..|s| - 1][i.value + 1..] + [s[|s| - 1]]; i else i
  }

  /** The subnet field of a record: the text before its last comma. */
  function SubnetField(line: string): string
  {
    match LastComma(line)
    case Some(i) => line[..i]
    case None => ""
  }

  /** The address field of a record: the text after its last comma. */
  function AddressField(line: string): string
  {
    match LastComma(line)
    case Some(i) => line[i + 1..]
    case None => line
  }

  lemma {:induction false} LastCommaBefore(x: string, y: string)
    requires ',' !in y
    ensures LastComma(x + "," + y) == Some(|x|)
  {
    var s := x + "," + y;
    if y != [] {
      assert s[..|s| - 1] == x + "," + y[..|y| - 1];
      assert s[|s| - 1] == y[|y| - 1];
      LastCommaBefore(x, y[..|y| - 1]);
    }
  }

  /** A record reads back as its subnet text and its address text, when address texts hold no comma. */
  lemma RecordLineFields(m: Option<Network>, a: Address, showNet: Network -> string, showAddr: Address -> string)
    requires ',' !in showAddr(a)
    ensures SubnetField(RecordLine(m, a, showNet, showAddr)) == (if m.Some? then showNet(m.value) else "")
    ensures AddressField(RecordLine(m, a, showNet, showAddr)) == showAddr(a)
  {
    var subnet := if m.Some? then showNet(m.value) else "";
    LastCommaBefore(subnet, showAddr(a));
    var line := subnet + "," + showAddr(a);
    assert line == RecordLine(m, a, showNet, showAddr);
    assert line[..|subnet|] == subnet;
    assert line[|subnet| + 1..] == showAddr(a);
  }

  // ---------------------------------------------------------------------------------------
  // What the records promise.

  /** The records are at most as many as the addresses, and none at all without addresses. */
  lemma {:induction false} RecordsAtMost(nets: set<Network>, addrs: set<Address>, showNet: Network -> string, showAddr: Address -> string)
    ensures |Records(nets, addrs, showNet, showAddr)| <= |addrs|
    ensures addrs == {} ==> Records(nets, addrs, showNet, showAddr) == {}
    decreases addrs
  {
    if addrs != {} {
      var a :| a in addrs;
      var rest := addrs - {a};
      RecordsAtMost(nets, rest, showNet, showAddr);
      assert Records(nets, addrs, showNet, showAddr)
          == Records(nets, rest, showNet, showAddr) + {RecordLine(LongestMatch(nets, a), a, showNet, showAddr)};
    }
  }

  /**
   * With address texts that are distinct and hold no comma, there is exactly one record per
   * address, and the record of an address names its longest match.
   */
  lemma {:induction false} RecordsOnePerAddress(nets: set<Network>, addrs: set<Address>, showNet: Network -> string, showAddr: Address -> string)
    requires forall x, y :: showAddr(x) == showAddr(y) ==> x == y
    requires forall x :: ',' !in showAddr(x)
    ensures |Records(nets, addrs, showNet, showAddr)| == |addrs|
    decreases addrs
  {
    if addrs != {} {
      var a :| a in addrs;
      var rest := addrs - {a};
      RecordsOnePerAddress(nets, rest, showNet, showAddr);
      var line := RecordLine(LongestMatch(nets, a), a, showNet, showAddr);
      assert Records(nets, addrs, showNet, showAddr) == Records(nets, rest, showNet, showAddr) + {line};
      assert line !in Records(nets, rest, showNet, showAddr) by {
        forall b | b in rest
          ensures RecordLine(LongestMatch(nets, b), b, showNet, showAddr) != line
        {
          RecordLineFields(LongestMatch(nets, a), a, showNet, showAddr);
          RecordLineFields(LongestMatch(nets, b), b, showNet, showAddr);
        }
      }
    }
  }

  /**
   * The record of an address is the only record with that address's text, and its subnet
   * field is the text of a network containing the address of the greatest prefix length,
   * or empty when no network contains it.
   */
  lemma RecordOfAddress(nets: set<Network>, addrs: set<Address>, showNet: Network -> string, showAddr: Address -> string, a: Address)
    requires forall x, y :: showAddr(x) == showAddr(y) ==> x == y
    requires forall x :: ',' !in showAddr(x)
    requires a in addrs
    ensures exists line :: line in Records(nets, addrs, showNet, showAddr) && AddressField(line) == showAddr(a)
    ensures forall line :: line in Records(nets, addrs, showNet, showAddr) && AddressField(line) == showAddr(a) ==>
      if exists n :: n in nets && Contains(n, a) then
        exists n :: n in nets && Contains(n, a) && SubnetField(line) == showNet(n) &&
          forall m :: m in nets && Contains(m, a) ==> PrefixLen(m) <= PrefixLen(n)
      else SubnetField(line) == ""
  {
    var m := LongestMatch(nets, a);
    RecordLineFields(m, a, showNet, showAddr);
    LongestMatchSpec(nets, a);
    forall line | line in Records(nets, addrs, showNet, showAddr) && AddressField(line) == showAddr(a)
      ensures line == RecordLine(m, a, showNet, showAddr)
    {
      var b :| b in addrs && line == RecordLine(LongestMatch(nets, b), b, showNet, showAddr);
      RecordLineFields(LongestMatch(nets, b), b, showNet, showAddr);
    }
  }

  // ---------------------------------------------------------------------------------------
  // Output.

  /** What the script appends for a set of records: nothing when there are none, otherwise the header and the records sorted by key. */
  predicate OutputOf(records: set<string>, lines: seq<string>)
  {
    if records == {} then lines == []
    else |lines| == |records| + 1 && lines[0] == Header && Sorted(lines[1..]) && multiset(lines[1..]) == multiset(records)
  }

  /** The header followed by the records sorted by key, or nothing for no records (lines 161-168). */
  function Render(records: seq<string>): (lines: seq<string>)
    ensures records == [] ==> lines == []
    ensures records != [] ==> |lines| == |records| + 1 && lines[0] == Header
    ensures records != [] ==> Sorted(lines[1..]) && multiset(lines[1..]) == multiset(records)
  {
    if records == [] then []
    else
      SortByKeySorted(records);
      var sorted := SortByKey(records);
      assert |sorted| == |multiset(sorted)| == |records|;
      assert ([Header] + sorted)[1..] == sorted;
      [Header] + sorted
  }

  /** Takes the records in the order the set yields them and renders them. */
  method Emit(records: set<string>) returns (lines: seq<string>)
    ensures OutputOf(records, lines)
  {
    var order := [];
    var rest := records;
    while rest != {}
      invariant rest <= records
      invariant multiset(order) + multiset(rest) == multiset(records)
      decreases rest
    {
      var r :| r in rest;
      order := order + [r];
      rest := rest - {r};
    }
    lines := Render(order);
    assert |multiset(records)| == |records|;
  }

  /**
   * The whole run: None when the subnet file holds a line that is not a network (the script
   * exits without writing), otherwise the lines it appends to the output file.
   */
  method Run(ipLines: seq<string>, subnetLines: seq<string>,
             parseAddr: string -> Option<Address>, parseNet: string -> Option<Network>,
             showNet: Network -> string, showAddr: Address -> string)
    returns (out: Option<seq<string>>)
    ensures ParsedNetworks(subnetLines, parseNet).None? ==> out == None
    ensures ParsedNetworks(subnetLines, parseNet).Some? ==>
      out.Some? &&
      OutputOf(Records(ParsedNetworks(subnetLines, parseNet).value, ParsedAddresses(ipLines, parseAddr), showNet, showAddr),
               out.value)
  {
    var addrs := LoadAddresses(ipLines, parseAddr);
    var nets := LoadNetworks(subnetLines, parseNet);
    if nets.None? {
      return None;
    }
    var pyt := BuildTable(nets.value);
    var records := MatchAddresses(pyt, addrs, showNet, showAddr);
    var lines := Emit(records);
    out := Some(lines);
  }
}
