# IP-to-subnet relationship, modelled in Dafny

`ip-subnet-relationship.py` takes a file of IP addresses and a file of CIDR subnets.
For every distinct address, it writes one CSV record naming the most specific subnet that
contains the address: `"<subnet>,<ip>"` when some subnet contains it, and `",<ip>"` otherwise.
The records are sorted with a numeric-aware key (`keyfunc`) and appended to the output file
under the header `Subnet,IP`.

The model has six modules:

- `Wrappers` (`wrappers.dfy`): the `Option` type.
- `Ip` (`ip.dfy`): the data model. An address is a family plus its bits, most significant first, with exactly 32 or 128 bits. A network is a family plus its prefix bits. A network contains an address when it has the same family and its bits are a prefix of the address's bits. `ContainsByValue` connects this to the usual numeric view of an address.
- `Lpm` (`lpm.dfy`): the reference meaning of a longest-prefix-match lookup (`LongestMatch`) over a set of networks, with its characterising lemmas.
- `PrefixTrie` (`trie.dfy`): the lookup table that the script gets from its trie library.
  - `Trie` is a binary trie over address bits, for one family. Its nodes are numbered; their child links and stored entries are held in sequence fields.
  - `Insert` walks the prefix bits, creating the missing children, and stores the network at the end node.
  - `Lookup` walks the address bits and keeps the deepest stored network it passes.
  - `Table` holds one trie per family. Its insertion tries the IPv4 trie first and falls back to the IPv6 trie, as the script does.
- `SortKey` (`sortkey.dfy`): `keyfunc`. The string `'\0' + s` is split into maximal runs of digits and non-digits. Digit runs become numbers and the others stay text. Keys are ordered as Python orders lists, and `SortByKey` is a stable sort by that key.
- `Relationship` (`relationship.dfy`): the script's pipeline.
  - Load the address lines; a bad line is skipped.
  - Load the subnet lines; a bad line aborts the run.
  - Build the table.
  - Match every address.
  - Render the header and the sorted records.
  - `Run` chains all of these.

Parsing a stripped line into an address or a network, and the text of an address (`str(i)`),
belong to Python's `ipaddress` library. The subnet text of a record is what the trie library's
`get_key` returns for the matched network (line 153). The model passes all of these in as
function parameters; `showNet` stands for the text `get_key` gives. Some lemmas need the rendering of addresses to be injective and comma-free; they
state this as a precondition.

## Model

| member | source | states |
|---|---|---|
| Ip.ContainsByValue | ip-subnet-relationship.py:151 | a network of the address's family contains it exactly when the address value, shifted right by the host bits, equals the network value |
| Ip.ContainsSameLength | ip-subnet-relationship.py:151-153 | two networks that contain the same address with the same prefix length are the same network |
| Ip.AddressOf | ip-subnet-relationship.py:112 | every value below 2^32 (IPv4) or 2^128 (IPv6) is the value of an address of that family |
| Ip.ValueDeterminesAddress | ip-subnet-relationship.py:112 | two addresses of one family with the same value are equal |
| Lpm.PrefixOf | ip-subnet-relationship.py:151-153 | the first k bits of an address form a network of length k that contains it |
| Lpm.ContainedIsPrefixOf | ip-subnet-relationship.py:151-153 | every network containing an address is that address's prefix of its own length |
| Lpm.MatchUpToSpec | ip-subnet-relationship.py:151-153 | the search from length k down finds a stored network containing the address, and no longer one of length at most k; it finds none exactly when none of length at most k contains the address |
| Lpm.LongestMatchSpec | ip-subnet-relationship.py:151-153 | the longest match is a stored network that contains the address and is at least as long as every stored network containing it; there is none exactly when no stored network contains the address |
| Lpm.LongestMatchUnique | ip-subnet-relationship.py:151-153 | a stored network that contains the address and is at least as long as every other such network is the longest match |
| Lpm.MoreSpecificWins | ip-subnet-relationship.py:151-153 | when a longer stored network also contains the address, a shorter one is never the answer, and the answer is at least as long as the longer one |
| Lpm.DefaultNetworkMatches | ip-subnet-relationship.py:151-153 | with the /0 network of its family stored, every address has a match of its own family |
| Lpm.LongestMatchOtherFamily | ip-subnet-relationship.py:133-140 | networks of another family never match an address and do not change its longest match |
| Lpm.MatchUpToSkip | ip-subnet-relationship.py:151-153 | lengths whose prefix is not stored can be skipped without changing the result of the search |
| PrefixTrie.Trie.constructor | ip-subnet-relationship.py:132 | a new trie for one family is well formed and holds no networks |
| PrefixTrie.Trie.AddChild | ip-subnet-relationship.py:135 | adds the one missing child node under a node, keeps the trie well formed, and leaves its networks unchanged |
| PrefixTrie.Trie.Descend | ip-subnet-relationship.py:135 | walks, creating missing children, to the node whose path is exactly the network's bits; networks are unchanged, and nothing changes at all when the network is already stored |
| PrefixTrie.Trie.Insert | ip-subnet-relationship.py:135-140 | succeeds exactly for a network of the trie's family, whose contents become the old contents plus the network; a refused insertion and the insertion of a network already present change nothing |
| PrefixTrie.Trie.Lookup | ip-subnet-relationship.py:151-153 | the deepest stored network on the address's path is the longest match over the trie's contents (none for an address of another family) |
| PrefixTrie.Table.constructor | ip-subnet-relationship.py:132 | a new table is an empty IPv4 trie plus an empty IPv6 trie |
| PrefixTrie.Table.Insert | ip-subnet-relationship.py:133-140 | the table's networks become the old ones plus the network, and inserting a network twice leaves both tries unchanged |
| PrefixTrie.Table.GetKey | ip-subnet-relationship.py:153 | returns the longest match of the address among all inserted networks |
| PrefixTrie.Table.HasMatch | ip-subnet-relationship.py:151 | true exactly when some inserted network contains the address |
| SortKey.Runs | ip-subnet-relationship.py:61 | the runs are empty exactly for the empty string, none of them is empty, and the first starts with the string's first character |
| SortKey.RunsSpec | ip-subnet-relationship.py:61 | the runs concatenate back to the string, each is all digits or all non-digits, and neighbouring runs differ in kind (so they are maximal) |
| SortKey.KeyShape | ip-subnet-relationship.py:61 | the key starts with the text piece from the leading NUL, then alternates text and numbers; each number is the decimal value of its digit run, and the runs concatenate to NUL plus the line |
| SortKey.RunsAppend | ip-subnet-relationship.py:61 | the runs of two strings joined where the kind changes are the runs of each |
| SortKey.StrLessAsym | ip-subnet-relationship.py:61 | text order is asymmetric |
| SortKey.StrLessTrans | ip-subnet-relationship.py:61 | text order is transitive |
| SortKey.StrLessTotal | ip-subnet-relationship.py:61 | any two texts are equal or ordered one way |
| SortKey.KeyLessAsym | ip-subnet-relationship.py:55-61 | key order is asymmetric |
| SortKey.KeyLessTrans | ip-subnet-relationship.py:55-61 | key order is transitive |
| SortKey.KeyLessTotal | ip-subnet-relationship.py:55-61 | two keys of the same text/number shape are equal or ordered one way |
| SortKey.KeysComparable | ip-subnet-relationship.py:55-61 | the keys of any two lines are equal or ordered, so a text piece is never compared with a number |
| SortKey.DigitRunsCompareByValue | ip-subnet-relationship.py:55-61 | two lines that share a prefix and differ in a digit run are ordered by the value of that run, whatever follows |
| SortKey.NumericOrderExample | ip-subnet-relationship.py:55-61 | `10.0.0.0/8,10.2.0.5` sorts before `10.0.0.0/8,10.10.0.5`, although plain text order puts it after |
| SortKey.SortByKey | ip-subnet-relationship.py:164 | the sorted list is a permutation of the input |
| SortKey.InsertByKeySorted | ip-subnet-relationship.py:164 | inserting a line into a sorted list keeps it sorted |
| SortKey.SortByKeySorted | ip-subnet-relationship.py:164 | no line of the sorted list has a key less than that of an earlier line |
| Relationship.ParsedAddressesSpec | ip-subnet-relationship.py:108-117 | an address is loaded exactly when some line parses to it |
| Relationship.SkipInvalidLine | ip-subnet-relationship.py:111-114 | a line that is not an address does not change what the other lines load |
| Relationship.LoadAddresses | ip-subnet-relationship.py:108-117 | the loop loads the set of parsed addresses of all lines |
| Relationship.ParsedNetworksSpec | ip-subnet-relationship.py:121-127 | the subnet load fails exactly when some line is not a network; otherwise a network is loaded exactly when some line parses to it |
| Relationship.AbortIsFinal | ip-subnet-relationship.py:121-127 | once a line fails, the whole subnet load fails |
| Relationship.LoadNetworks | ip-subnet-relationship.py:121-127 | the loop stops at the first bad line with no networks, and otherwise loads the networks of all lines |
| Relationship.BuildTable | ip-subnet-relationship.py:130-143 | inserting every subnet, in any order, gives a well-formed table whose networks are exactly the subnets |
| Relationship.MatchAddresses | ip-subnet-relationship.py:146-158 | the loop produces one record per address: the longest match's text, a comma and the address's text, or a comma and the address's text when nothing matches |
| Relationship.RecordsAdd | ip-subnet-relationship.py:150-155 | the records of one more address are the old records plus that address's record |
| Relationship.RecordLineFields | ip-subnet-relationship.py:153-155 | a record splits at its last comma back into the subnet text (empty when unmatched) and the address text |
| Relationship.RecordsAtMost | ip-subnet-relationship.py:149-155 | there are at most as many records as addresses, and none without addresses |
| Relationship.RecordsOnePerAddress | ip-subnet-relationship.py:149-155 | with distinct, comma-free address texts there are exactly as many records as addresses |
| Relationship.RecordOfAddress | ip-subnet-relationship.py:150-155 | the record of an address exists, and every record carrying the address's text has a subnet field that names a containing network of the greatest prefix length, or is empty when no network contains the address |
| Relationship.Render | ip-subnet-relationship.py:161-168 | no records give no lines; otherwise the header `Subnet,IP` comes first, then a permutation of the records sorted by key |
| Relationship.Emit | ip-subnet-relationship.py:161-168 | the records, in any order the set yields them, are written as the header plus the records sorted by key, and nothing at all when there are none |
| Relationship.Run | ip-subnet-relationship.py:107-168 | a bad subnet line means no output; otherwise the output is the header plus the sorted records of the parsed addresses against the parsed subnets, and empty when there are no records |

## Left out

- Argument parsing, the guards on the input files' existence and their exits (lines 46-53, 69-98) are command-line and file-system plumbing. The unused `--log` option is also left out.
- Opening and reading the input files and appending to the output file (lines 109, 122, 165-168): `Run` takes the lines of both files and returns the lines to append.
- Text parsing of addresses and networks and the text of an address by `ipaddress`, and the key text the trie library's `get_key` returns, are left out. They are function parameters, and the stripping of white space is part of the parser. `ip_network` rejects a subnet with host bits set; the parser parameter covers this, and a `Network` holds only its prefix bits.
- The internals of the trie library are not part of this model. Its own key width (its constructor defaults to 32-bit keys) is also left out. The model keeps one 32-bit trie and one 128-bit trie, and a network goes to the trie of its own family. The library stores a key and a value; the script stores the network as both, so the model stores the network once.
- SortKey.IsDigit: only the ASCII digits `0` to `9` count as digits. Python's `str.isdigit` also accepts other Unicode digit characters.
- SortKey.KeyLessTotal: in Python, comparing a text piece with a number raises `TypeError`. The model's piece order just says neither is less. `KeysComparable` shows that keys built by `keyfunc` never reach that comparison.
- Python's set iteration order is left out: the build, match and emit loops pick an arbitrary element. Their contracts hold for every order.
- Relationship.LoadNetworks: a subnet line that fails to parse ends the run with no output, as the code does at lines 121-127. Skipping the bad line, as the address load does, would be the more forgiving policy; the model follows the code.
- The header `Source,Destination` in the script's opening comment (line 28) is stale; the model writes `Subnet,IP`, as line 166 does.
- Error messages printed before an exit are left out: they are console output.
