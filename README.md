# Firewall rule engine in Dafny

This project models the packet filter in `Firewall.py`. Each rule row has four
fields: direction, protocol, port and IP address. Direction and protocol are
categorical. They are joined with a comma into a key, and each key maps to the
rules that share it, in load order. The port and IP fields are parsed into
lists. A list of one value means equality. A list of two values means an
inclusive range: over the number for the port, and independently per octet for
the address. A packet is accepted when some rule under its key matches every
field. A packet whose key is absent is rejected. The model has four modules:

- `Wrappers`: `Option`. `None` stands for an exception: the `ValueError`
  that Python's `int()` raises on text that is not a number, or the
  `IndexError` of comparing against an octet list that is too short.
- `Strings`: the string operations the source relies on. `Split` follows
  Python's `str.split(sep)`, so it always returns one more piece than there are
  separators. `Join` is its inverse. `ParseDecimal` is `int()` restricted to
  plain digit strings.
- `Firewall`:
  - the parsers (`CreateRange`, `ProcessPort`, `ProcessIPAddress`) and the key
    `GenerateKey`;
  - the per-octet comparison `CompareIPAddress`;
  - the field predicates;
  - the specification of loading (`LoadRows`);
  - the decision, twice: `Accept` is the policy, whether some candidate
    matches, and `Decide` is the loops as written, step by step, including
    the exceptions they can raise;
  - the class `Firewall`, whose `rules` field the loader `ProcessFile` updates
    row by row (each pass of its loop is the method `ProcessRow`), and whose
    `AcceptPacket` runs the nested first-match loops.
- `FirewallLemmas`: the properties of the key, the parsers, the index and the
  decision.

## Model

| member | source | states |
|---|---|---|
| Strings.Split | Firewall.py:110 | `str.split('-')`/`split('.')` yields exactly one more piece than there are separators |
| Strings.JoinSplit | Firewall.py:110 | joining the split pieces with the separator gives back the original text |
| Strings.SplitJoin | Firewall.py:110 | splitting the join of separator-free pieces gives back the pieces |
| Strings.ParseDecimal | Firewall.py:115 | `int(piece)` succeeds exactly when the piece is a non-empty string of digits |
| Strings.ParseDecimalOfDecimal | Firewall.py:115 | `int` applied to the decimal rendering of `n` gives `n` back |
| FirewallLemmas.GenerateKeyInjective | Firewall.py:45-49 | when the directions contain no comma, two keys are equal iff both their directions and their protocols are equal |
| FirewallLemmas.GenerateKeyCollision | Firewall.py:45-49 | the comma join is not injective in general: `("a,b","c")` and `("a","b,c")` share a key |
| Firewall.CreateRange | Firewall.py:105-111 | `create_range` never returns an empty list |
| FirewallLemmas.CreateRangePieces | Firewall.py:105-111 | `create_range` gives one piece per dash plus one, no piece has a dash, and joining the pieces with `-` gives back the text |
| FirewallLemmas.CreateRangeShapes | Firewall.py:105-111 | dash-free text gives `[text]` and `lo-hi` gives `[lo, hi]` |
| Firewall.ParseAllPieces | Firewall.py:113-115 | the comprehension succeeds iff every piece is an integer; the result then has one value per piece, in order |
| FirewallLemmas.ProcessPortShapes | Firewall.py:113-115 | `processPort` of `"lo"` is `[lo]` and of `"lo-hi"` is `[lo, hi]` |
| Firewall.ParseOctetListsPieces | Firewall.py:117-122 | parsing IP pieces succeeds iff every piece splits on `.` into integers; element `i` is then the octets of piece `i` |
| Firewall.ProcessIPAddress | Firewall.py:117-122 | the loop replaces every piece of `create_range` with its octet list, and fails when any piece does not parse; the result has as many entries as pieces |
| FirewallLemmas.DottedRoundTrip | Firewall.py:121 | splitting dotted-decimal text on `.` and parsing each part gives back the octets, and dotted text has no dash |
| FirewallLemmas.ProcessIPAddressShapes | Firewall.py:117-122 | `processIPAddress` of `"a.b.c.d"` is `[[a,b,c,d]]` and of a dotted range is `[lo, hi]`; element 0, the packet's address, is `lo` in both cases |
| Firewall.CompareFromMeaning | Firewall.py:124-129 | from octet `i` on, `True` means every remaining octet is present and within its bounds, `False` means some present octet is out of its bounds, and four octets in every list rule out the `IndexError` |
| Firewall.CompareIPAddressMeaning | Firewall.py:124-129 | whenever `compareIPAddress` returns, it returns whether each of the four octets lies within its own bounds, `ranged[0][i] <= single[i] <= ranged[1][i]`; with four octets everywhere it always returns |
| Firewall.CompareIPAddress | Firewall.py:124-129 | the early-exit loop returns `False` at the first octet out of bounds, `True` after four, and raises `IndexError` exactly when it reads an octet a list does not have; a normal return is the per-octet range test |
| FirewallLemmas.CompareShortBounds | Firewall.py:126-128 | a three-octet bound is harmless when an earlier octet already fails (`False`), and raises when the loop reaches the missing octet |
| FirewallLemmas.OctetsWithinIsInsideNumericRange | Firewall.py:124-129 | an address inside the per-octet range is also inside the numeric 32-bit range between the bounds |
| FirewallLemmas.NumericRangeIsNotOctetRange | Firewall.py:124-129 | the converse fails: 1.2.255.255 lies numerically between 1.2.0.0 and 1.3.0.0 but is rejected by the per-octet range |
| FirewallLemmas.PortTextSemantics | Firewall.py:78-97 | a port rule `"lo"` matches exactly port `lo`; `"lo-hi"` matches exactly `lo <= port <= hi`; an inverted range matches nothing |
| FirewallLemmas.IPTextSemantics | Firewall.py:78-93 | an IP rule `"a.b.c.d"` matches exactly that address; a dotted range matches exactly the addresses within its bounds octet by octet |
| FirewallLemmas.ManyDashesImposeNothing | Firewall.py:78-85 | a field whose text has two or more dashes parses to a list that is neither length 1 nor 2, and so never rejects a packet |
| Firewall.LoadRowsFailsAt | Firewall.py:39-40 | a row whose port or address does not parse fails the whole load, wherever it is |
| Firewall.LoadRowsSucceeds | Firewall.py:22-43 | when every row parses, the load succeeds |
| Firewall.LoadRowsFails | Firewall.py:22-43 | the load fails iff some row does not parse |
| Firewall.LoadStopsAt | Firewall.py:31-40 | when row `i` does not parse, the loop stops with the index of rows `0..i-1` plus the key of row `i`, and the load fails |
| Firewall.Firewall.constructor | Firewall.py:12-13 | a new engine starts with an empty index |
| Firewall.Firewall.ProcessRow | Firewall.py:31-43 | one pass of the row loop succeeds iff the row parses; it then appends the row's rule to its key's list, creating the key if needed; when it fails, the only change is the created key |
| Firewall.Firewall.ProcessFile | Firewall.py:16-43 | the loader succeeds iff every row parses; on success `rules` is `LoadRows` of the rows; on failure `rules` is the partial index at the first failing row, with that row's key created |
| Firewall.NewFirewall | Firewall.py:12-14 | constructing from rows gives a fresh engine whose index is `LoadRows(map[], rows)`, or fails iff some row does not parse |
| FirewallLemmas.AddRowFrame | Firewall.py:31-43 | one iteration adds the row's key, appends the parsed rule to the end of that key's list, and leaves every other key's list unchanged |
| FirewallLemmas.RowKeysMembers | Firewall.py:31 | a key is among the row keys iff some row has it |
| FirewallLemmas.LoadRowsKeys | Firewall.py:31-34 | after loading, the index's keys are the starting keys plus the keys of the rows |
| FirewallLemmas.LoadRowsList | Firewall.py:31-43 | after loading, each key's list is its starting list followed by the rules of the rows with that key, in row order |
| FirewallLemmas.RowOfRule | Firewall.py:31-43 | every rule filed under a key comes from some row with that key |
| FirewallLemmas.RuleOfRow | Firewall.py:31-43 | every row with a key that parses has its rule filed under that key |
| FirewallLemmas.RulesWithKeyMatch | Firewall.py:70-100 | some rule filed under a key matches a packet iff some row with that key matches it |
| FirewallLemmas.LoadedIndex | Firewall.py:12-43 | a fresh engine's keys are exactly the rows' keys, and each key's list is exactly that key's rules in row order |
| Firewall.CheckFieldMeaning | Firewall.py:75-97 | one field check, when it returns, says whether the field matches (equality for one value, an inclusive or per-octet range for two, nothing otherwise); it always returns unless it compares a short octet list |
| Firewall.CheckRuleMeaning | Firewall.py:73-99 | the field loop, port then address, when it returns, says whether the rule matches on every field; it always returns when the rule's address range is comparable |
| Firewall.ScanFromMeaning | Firewall.py:70-102 | the candidate loop, when it returns, says whether some remaining candidate matches; it always returns when every remaining candidate is comparable |
| Firewall.Firewall.AcceptPacket | Firewall.py:51-102 | the answer is `Decide`: false for an unknown key, a `ValueError` for an unparsable packet address, otherwise the first candidate that passes every field accepts, a comparison that reaches a missing octet raises, and false when none passes; when it accepts, the candidate that accepts is the first one that matches |
| FirewallLemmas.DecideMeaning | Firewall.py:51-102 | whenever `accept_packet` returns, its answer is the policy `Accept`, whether some candidate matches on every field; when no candidate comparison can raise, it always returns |
| FirewallLemmas.DefaultDeny | Firewall.py:54-57 | when no row has the packet's key, the policy and `accept_packet` both reject the packet, whatever its port and address |
| FirewallLemmas.DefaultDenyByFields | Firewall.py:54-57 | with comma-free directions, when no row has the packet's direction and protocol, the policy and `accept_packet` both reject the packet |
| FirewallLemmas.AcceptIffSomeRowMatches | Firewall.py:59-102 | when the key is known, an unparsable packet address fails; otherwise the packet is accepted iff some row with that key matches it on every field |
| FirewallLemmas.AcceptIsExistential | Firewall.py:70-102 | a single candidate that matches on every field, wherever it stands in the list, makes the policy accept |
| FirewallLemmas.AcceptOrderFree | Firewall.py:70-102 | reordering the rules under each key leaves the policy's answer unchanged, and also `accept_packet`'s answer when no comparison can raise |
| FirewallLemmas.OrderMattersOnError | Firewall.py:70-102 | when a comparison raises, order decides: a matching rule before a malformed range accepts, and the same rules the other way round raise |

## Left out

- Reading the CSV file (`open`, `csv.reader`, Firewall.py:18-20) is not modelled. The rows arrive as a sequence of 4-tuples. A row with fewer than four columns, which raises `IndexError` in the source, cannot be expressed.
- The `__main__` demo (Firewall.py:144-151) and the commented-out class sketch (Firewall.py:137-141) are not modelled.
- Python's `int()` also accepts surrounding whitespace, a sign, underscores, and decimal digits outside ASCII, such as Arabic-Indic or full-width digits. `ParseDecimal` accepts only plain digit strings, so such text is modelled as `None` (a `ValueError`).
- `str(ip_address)` (Firewall.py:63) is left out: the packet address is a string already.
- Ports are unbounded integers, as Python's are. No 16-bit bound is checked, in line with the source.
- Firewall.ProcessIPAddress: the source overwrites the string list in place with octet lists. The model builds a fresh sequence of the same length, entry by entry, which gives the same result because the list is local.
- The source loops over the keys of the rule dictionary in insertion order, `port` then `ip_address`. The model uses the fixed list `Fields` in that order.
- Firewall.Firewall.ProcessFile: a failed load leaves the engine in a partial state, which the contract states exactly. In the source that state cannot be observed, because the constructor raises, and `NewFirewall` returns `None` accordingly.
- A ranged IP field whose sides do not have exactly four octets is not rejected when the rules are loaded, because the code does not check the octet count. The model follows the code: such a rule loads, and the count matters only when the rule is compared.
