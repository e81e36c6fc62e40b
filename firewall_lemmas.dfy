/**
 * Properties of the Firewall model: what the parsers produce from rule text,
 * what the loaded index holds, and when a packet is accepted.
 */
module FirewallLemmas {
  import opened Wrappers
  import opened Strings
  import opened Firewall

  // ---------------------------------------------------------------------
  // Categorical key
  // ---------------------------------------------------------------------

  /** Without a comma in the directions, equal keys mean equal (direction, protocol) pairs. */
  lemma GenerateKeyInjective(d1: string, p1: string, d2: string, p2: string)
    requires ',' !in d1 && ',' !in d2
    ensures GenerateKey(d1, p1) == GenerateKey(d2, p2) <==> d1 == d2 && p1 == p2
  {
    var k1, k2 := GenerateKey(d1, p1), GenerateKey(d2, p2);
    if k1 == k2 {
      IndexOfAfterPrefix(d1, ',', p1);
      IndexOfAfterPrefix(d2, ',', p2);
      assert |d1| == IndexOf(k1, ',') == |d2|;
      assert d1 == k1[..|d1|] && d2 == k2[..|d2|];
      assert p1 == k1[|d1| + 1..] && p2 == k2[|d2| + 1..];
    }
  }

  /** The comma join is not injective once a field holds a comma. */
  lemma GenerateKeyCollision()
    ensures GenerateKey("a,b", "c") == GenerateKey("a", "b,c")
  {
  }

  // ---------------------------------------------------------------------
  // Parsers
  // ---------------------------------------------------------------------

  /** `create_range` cuts the text at every dash: one piece more than dashes, dash-free, rejoining to the text. */
  lemma CreateRangePieces(text: string)
    ensures |CreateRange(text)| == CountChar(text, '-') + 1
    ensures forall i :: 0 <= i < |CreateRange(text)| ==> '-' !in CreateRange(text)[i]
    ensures Join(CreateRange(text), '-') == text
  {
    CountCharZero(text, '-');
    if '-' in text {
      SplitPiecesFree(text, '-');
      JoinSplit(text, '-');
    }
  }

  /** Text without a dash is a single-element spec; `lo-hi` is the two-element spec `[lo, hi]`. */
  lemma CreateRangeShapes(lo: string, hi: string)
    requires '-' !in lo && '-' !in hi
    ensures CreateRange(lo) == [lo]
    ensures CreateRange(lo + "-" + hi) == [lo, hi]
  {
    var t := lo + "-" + hi;
    assert t[|lo|] == '-';
    SplitPrefix(lo, '-', hi);
    SplitFree(hi, '-');
  }

  /** `str(n)` for every element, in order. */
  function DecimalAll(ns: seq<nat>): (r: seq<string>)
    ensures |r| == |ns|
    ensures forall i :: 0 <= i < |ns| ==> r[i] == Decimal(ns[i])
  {
    if ns == [] then [] else [Decimal(ns[0])] + DecimalAll(ns[1..])
  }

  /** The dotted spelling of an address, `".".join(map(str, octets))`. */
  function Dotted(octets: seq<nat>): string {
    Join(DecimalAll(octets), '.')
  }

  lemma ParseAllOfDecimals(ns: seq<nat>)
    ensures ParseAll(DecimalAll(ns)) == Some(ns)
  {
    forall i | 0 <= i < |ns|
      ensures ParseDecimal(DecimalAll(ns)[i]) == Some(ns[i])
    {
      ParseDecimalOfDecimal(ns[i]);
    }
    ParseAllPieces(DecimalAll(ns));
    var r := ParseAll(DecimalAll(ns));
    assert r.value == ns;
  }

  lemma DecimalsFree(ns: seq<nat>, c: char)
    requires !IsDigit(c)
    ensures forall i :: 0 <= i < |ns| ==> c !in DecimalAll(ns)[i]
  {
    forall i | 0 <= i < |ns|
      ensures c !in DecimalAll(ns)[i]
    {
      var s := Decimal(ns[i]);
      assert forall j :: 0 <= j < |s| ==> s[j] != c;
    }
  }

  /** Splitting a dotted address on `.` and parsing each piece gives the octets back. */
  lemma DottedRoundTrip(octets: seq<nat>)
    requires |octets| >= 1
    ensures ParseAll(Split(Dotted(octets), '.')) == Some(octets)
    ensures '-' !in Dotted(octets)
  {
    DecimalsFree(octets, '.');
    DecimalsFree(octets, '-');
    SplitJoin(DecimalAll(octets), '.');
    ParseAllOfDecimals(octets);
    JoinFree(DecimalAll(octets), '.', '-');
  }

  /** `processPort(str(n)) == [n]` and `processPort(str(lo) + "-" + str(hi)) == [lo, hi]`. */
  lemma ProcessPortShapes(lo: nat, hi: nat)
    ensures ProcessPort(Decimal(lo)) == Some([lo])
    ensures ProcessPort(Decimal(lo) + "-" + Decimal(hi)) == Some([lo, hi])
  {
    DecimalsFree([lo, hi], '-');
    assert DecimalAll([lo, hi]) == [Decimal(lo), Decimal(hi)];
    CreateRangeShapes(Decimal(lo), Decimal(hi));
    ParseDecimalOfDecimal(lo);
    ParseDecimalOfDecimal(hi);
    ParseAllOfDecimals([lo]);
    ParseAllOfDecimals([lo, hi]);
    assert DecimalAll([lo]) == [Decimal(lo)];
  }

  /** A dotted address parses to the single spec `[octets]`, a dotted `lo-hi` to `[lo, hi]`; the packet address is the first. */
  lemma ProcessIPAddressShapes(lo: seq<nat>, hi: seq<nat>)
    requires |lo| >= 1 && |hi| >= 1
    ensures IPSpecOf(Dotted(lo)) == Some([lo])
    ensures PacketAddress(Dotted(lo)) == Some(lo)
    ensures IPSpecOf(Dotted(lo) + "-" + Dotted(hi)) == Some([lo, hi])
    ensures PacketAddress(Dotted(lo) + "-" + Dotted(hi)) == Some(lo)
  {
    DottedRoundTrip(lo);
    DottedRoundTrip(hi);
    CreateRangeShapes(Dotted(lo), Dotted(hi));
    ParseOctetListsPieces([Dotted(lo)]);
    ParseOctetListsPieces([Dotted(lo), Dotted(hi)]);
    assert ParseOctetLists([Dotted(lo)]).value == [lo];
    assert ParseOctetLists([Dotted(lo), Dotted(hi)]).value == [lo, hi];
  }

  // ---------------------------------------------------------------------
  // Field semantics, stated on rule text
  // ---------------------------------------------------------------------

  /** A single port matches by equality; `lo-hi` matches inclusively at both ends, with no reordering. */
  lemma PortTextSemantics(lo: nat, hi: nat, port: int)
    ensures ProcessPort(Decimal(lo)) == Some([lo]) && (PortMatches([lo], port) <==> port == lo)
    ensures ProcessPort(Decimal(lo) + "-" + Decimal(hi)) == Some([lo, hi]) &&
            (PortMatches([lo, hi], port) <==> lo <= port && port <= hi)
    ensures hi < lo ==> !PortMatches([lo, hi], port)
  {
    ProcessPortShapes(lo, hi);
  }

  /** A single address matches by octet-list equality; `lo-hi` by the per-octet test. */
  lemma IPTextSemantics(lo: seq<nat>, hi: seq<nat>, address: seq<nat>)
    requires |lo| >= 1 && |hi| >= 1
    ensures IPSpecOf(Dotted(lo)) == Some([lo]) && (IPMatches([lo], address) <==> address == lo)
    ensures IPSpecOf(Dotted(lo) + "-" + Dotted(hi)) == Some([lo, hi]) &&
            (IPMatches([lo, hi], address) <==> OctetsWithin(lo, hi, address))
  {
    ProcessIPAddressShapes(lo, hi);
  }

  /** A field text with two or more dashes splits into three or more pieces and constrains nothing. */
  lemma ManyDashesImposeNothing(text: string, port: int, address: seq<nat>)
    requires CountChar(text, '-') >= 2
    ensures ProcessPort(text).Some? ==> PortMatches(ProcessPort(text).value, port)
    ensures IPSpecOf(text).Some? ==> IPMatches(IPSpecOf(text).value, address)
  {
    CreateRangePieces(text);
    ParseAllPieces(CreateRange(text));
    ParseOctetListsPieces(CreateRange(text));
  }

  /** The address as one big-endian 32-bit number (for octets below 256). */
  function AddressValue(a: seq<nat>): nat
    requires |a| >= 4
  {
    ((a[0] * 256 + a[1]) * 256 + a[2]) * 256 + a[3]
  }

  /** The per-octet test only accepts addresses inside the numeric range of the bounds. */
  lemma OctetsWithinIsInsideNumericRange(lo: seq<nat>, hi: seq<nat>, address: seq<nat>)
    requires OctetsWithin(lo, hi, address)
    ensures AddressValue(lo) <= AddressValue(address) <= AddressValue(hi)
  {
    assert lo[0] <= address[0] <= hi[0];
    assert lo[1] <= address[1] <= hi[1];
    assert lo[2] <= address[2] <= hi[2];
    assert lo[3] <= address[3] <= hi[3];
  }

  /** ... but not every such address: 1.2.255.255 lies between 1.2.0.0 and 1.3.0.0 and is rejected. */
  lemma NumericRangeIsNotOctetRange()
    ensures AddressValue([1, 2, 0, 0]) <= AddressValue([1, 2, 255, 255]) <= AddressValue([1, 3, 0, 0])
    ensures !IPMatches([[1, 2, 0, 0], [1, 3, 0, 0]], [1, 2, 255, 255])
  {
    assert !(0 <= 255 <= 0);
  }

  // ---------------------------------------------------------------------
  // Rule index
  // ---------------------------------------------------------------------

  /** Appending a row extends its key's list by the parsed rule and leaves every other key as it was. */
  lemma AddRowFrame(m: Index, row: Row)
    ensures AddRow(m, row).Some? <==> ParseRow(row).Some?
    ensures AddRow(m, row).Some? ==> AddRow(m, row).value.Keys == m.Keys + {RowKey(row)}
    ensures AddRow(m, row).Some? ==> AddRow(m, row).value[RowKey(row)] == ListAt(m, RowKey(row)) + [ParseRow(row).value]
    ensures AddRow(m, row).Some? ==> forall k :: k in m && k != RowKey(row) ==> AddRow(m, row).value[k] == m[k]
  {
  }

  /** The keys the rows produce. */
  function RowKeys(rows: seq<Row>): set<string> {
    if rows == [] then {} else RowKeys(rows[..|rows| - 1]) + {RowKey(rows[|rows| - 1])}
  }

  /** The parsed rules of exactly those rows whose key is `key`, in row order. */
  function RulesWithKey(rows: seq<Row>, key: string): seq<Rule> {
    if rows == [] then []
    else
      var last := rows[|rows| - 1];
      RulesWithKey(rows[..|rows| - 1], key) +
        (if RowKey(last) == key && ParseRow(last).Some? then [ParseRow(last).value] else [])
  }

  /** Whether `row` parses into a rule that matches the packet. */
  predicate RowMatches(row: Row, port: int, address: seq<nat>) {
    ParseRow(row).Some? && RuleMatches(ParseRow(row).value, port, address)
  }

  predicate SomeRuleMatches(rules: seq<Rule>, port: int, address: seq<nat>) {
    exists j :: 0 <= j < |rules| && RuleMatches(rules[j], port, address)
  }

  predicate SomeRowMatches(rows: seq<Row>, key: string, port: int, address: seq<nat>) {
    exists i :: 0 <= i < |rows| && RowKey(rows[i]) == key && RowMatches(rows[i], port, address)
  }

  lemma {:induction false} RowKeysMembers(rows: seq<Row>, k: string)
    ensures k in RowKeys(rows) <==> exists i :: 0 <= i < |rows| && RowKey(rows[i]) == k
  {
    if rows != [] {
      var init := rows[..|rows| - 1];
      RowKeysMembers(init, k);
      if exists i :: 0 <= i < |init| && RowKey(init[i]) == k {
        var i :| 0 <= i < |init| && RowKey(init[i]) == k;
        assert rows[i] == init[i];
      }
      if exists i :: 0 <= i < |rows| && RowKey(rows[i]) == k {
        var i :| 0 <= i < |rows| && RowKey(rows[i]) == k;
        if i < |init| {
          assert init[i] == rows[i];
        }
      }
    }
  }

  /** After loading, a key is present iff it was before or some row produced it. */
  lemma {:induction false} LoadRowsKeys(m: Index, rows: seq<Row>, k: string)
    requires LoadRows(m, rows).Some?
    ensures k in LoadRows(m, rows).value <==> k in m || k in RowKeys(rows)
  {
    if rows != [] {
      var init := rows[..|rows| - 1];
      assert LoadRows(m, init).Some?;
      LoadRowsKeys(m, init, k);
      AddRowFrame(LoadRows(m, init).value, rows[|rows| - 1]);
    }
  }

  /** After loading, a key's list is its old list followed by the rules of exactly the rows with that key, in order. */
  lemma {:induction false} LoadRowsList(m: Index, rows: seq<Row>, k: string)
    requires LoadRows(m, rows).Some?
    ensures ListAt(LoadRows(m, rows).value, k) == ListAt(m, k) + RulesWithKey(rows, k)
  {
    if rows != [] {
      var init := rows[..|rows| - 1];
      var last := rows[|rows| - 1];
      assert LoadRows(m, init).Some?;
      LoadRowsList(m, init, k);
      var before := LoadRows(m, init).value;
      AddRowFrame(before, last);
      assert LoadRows(m, rows) == AddRow(before, last);
      if RowKey(last) == k {
        assert ListAt(LoadRows(m, rows).value, k) == ListAt(before, k) + [ParseRow(last).value];
      } else {
        assert ListAt(LoadRows(m, rows).value, k) == ListAt(before, k);
      }
    }
  }

  /** Each rule in `RulesWithKey(rows, key)` comes from a row with that key. */
  lemma {:induction false} RowOfRule(rows: seq<Row>, key: string, j: int) returns (i: int)
    requires 0 <= j < |RulesWithKey(rows, key)|
    ensures 0 <= i < |rows| && RowKey(rows[i]) == key && ParseRow(rows[i]) == Some(RulesWithKey(rows, key)[j])
  {
    var init := rows[..|rows| - 1];
    var front := RulesWithKey(init, key);
    if j < |front| {
      i := RowOfRule(init, key, j);
      assert rows[i] == init[i];
    } else {
      i := |rows| - 1;
    }
  }

  /** Each row with that key that parses contributes its rule to `RulesWithKey(rows, key)`. */
  lemma {:induction false} RuleOfRow(rows: seq<Row>, key: string, i: int) returns (j: int)
    requires 0 <= i < |rows| && RowKey(rows[i]) == key && ParseRow(rows[i]).Some?
    ensures 0 <= j < |RulesWithKey(rows, key)| && RulesWithKey(rows, key)[j] == ParseRow(rows[i]).value
  {
    var init := rows[..|rows| - 1];
    var front := RulesWithKey(init, key);
    if i == |rows| - 1 {
      j := |front|;
    } else {
      assert rows[i] == init[i];
      j := RuleOfRow(init, key, i);
    }
  }

  /** Some rule in `RulesWithKey(rows, key)` matches iff some row with that key parses into a matching rule. */
  lemma RulesWithKeyMatch(rows: seq<Row>, key: string, port: int, address: seq<nat>)
    ensures SomeRuleMatches(RulesWithKey(rows, key), port, address) <==> SomeRowMatches(rows, key, port, address)
  {
    var rules := RulesWithKey(rows, key);
    if SomeRuleMatches(rules, port, address) {
      var j :| 0 <= j < |rules| && RuleMatches(rules[j], port, address);
      var i := RowOfRule(rows, key, j);
      assert RowMatches(rows[i], port, address);
    }
    if SomeRowMatches(rows, key, port, address) {
      var i :| 0 <= i < |rows| && RowKey(rows[i]) == key && RowMatches(rows[i], port, address);
      var j := RuleOfRow(rows, key, i);
      assert RuleMatches(rules[j], port, address);
    }
  }

  /** Loading from an empty dictionary indexes each key with exactly the rules of its rows, in row order. */
  lemma LoadedIndex(rows: seq<Row>)
    requires LoadRows(map[], rows).Some?
    ensures forall k :: k in LoadRows(map[], rows).value <==> exists i :: 0 <= i < |rows| && RowKey(rows[i]) == k
    ensures forall k :: k in LoadRows(map[], rows).value ==> LoadRows(map[], rows).value[k] == RulesWithKey(rows, k)
  {
    forall k
      ensures k in LoadRows(map[], rows).value <==> exists i :: 0 <= i < |rows| && RowKey(rows[i]) == k
      ensures k in LoadRows(map[], rows).value ==> LoadRows(map[], rows).value[k] == RulesWithKey(rows, k)
    {
      LoadRowsKeys(map[], rows, k);
      RowKeysMembers(rows, k);
      LoadRowsList(map[], rows, k);
    }
  }

  // ---------------------------------------------------------------------
  // Matcher
  // ---------------------------------------------------------------------

  /** Default deny: if no row produced the query's key, nothing is accepted, whatever the port and address text. */
  lemma DefaultDeny(rows: seq<Row>, d: string, p: string, port: int, ip: string)
    requires LoadRows(map[], rows).Some?
    requires forall i :: 0 <= i < |rows| ==> RowKey(rows[i]) != GenerateKey(d, p)
    ensures Accept(LoadRows(map[], rows).value, d, p, port, ip) == Some(false)
    ensures Decide(LoadRows(map[], rows).value, d, p, port, ip) == Some(false)
  {
    LoadRowsKeys(map[], rows, GenerateKey(d, p));
    RowKeysMembers(rows, GenerateKey(d, p));
  }

  /** Default deny in the terms of the rows' own fields, when no direction holds a comma. */
  lemma DefaultDenyByFields(rows: seq<Row>, d: string, p: string, port: int, ip: string)
    requires LoadRows(map[], rows).Some?
    requires ',' !in d && forall i :: 0 <= i < |rows| ==> ',' !in rows[i].0
    requires forall i :: 0 <= i < |rows| ==> !(rows[i].0 == d && rows[i].1 == p)
    ensures Accept(LoadRows(map[], rows).value, d, p, port, ip) == Some(false)
    ensures Decide(LoadRows(map[], rows).value, d, p, port, ip) == Some(false)
  {
    forall i | 0 <= i < |rows|
      ensures RowKey(rows[i]) != GenerateKey(d, p)
    {
      GenerateKeyInjective(rows[i].0, rows[i].1, d, p);
    }
    DefaultDeny(rows, d, p, port, ip);
  }

  /**
   * Existential result: once some row has the query's key, the packet is
   * accepted iff some row with that key parses into a rule matching the
   * packet on every field (and the query fails when the address does not parse).
   */
  lemma AcceptIffSomeRowMatches(rows: seq<Row>, d: string, p: string, port: int, ip: string)
    requires LoadRows(map[], rows).Some?
    requires exists i :: 0 <= i < |rows| && RowKey(rows[i]) == GenerateKey(d, p)
    ensures PacketAddress(ip).None? ==> Accept(LoadRows(map[], rows).value, d, p, port, ip) == None
    ensures PacketAddress(ip).Some? ==>
      (Accept(LoadRows(map[], rows).value, d, p, port, ip) == Some(true) <==>
       SomeRowMatches(rows, GenerateKey(d, p), port, PacketAddress(ip).value))
  {
    var key := GenerateKey(d, p);
    LoadRowsKeys(map[], rows, key);
    RowKeysMembers(rows, key);
    LoadRowsList(map[], rows, key);
    if PacketAddress(ip).Some? {
      RulesWithKeyMatch(rows, key, port, PacketAddress(ip).value);
      assert LoadRows(map[], rows).value[key] == RulesWithKey(rows, key);
    }
  }

  /** A single candidate that matches on every field, wherever it stands in the list, makes the policy accept. */
  lemma AcceptIsExistential(rules: Index, d: string, p: string, port: int, ip: string, j: int)
    requires GenerateKey(d, p) in rules && PacketAddress(ip).Some?
    requires 0 <= j < |rules[GenerateKey(d, p)]|
    requires RuleMatches(rules[GenerateKey(d, p)][j], port, PacketAddress(ip).value)
    ensures Accept(rules, d, p, port, ip) == Some(true)
  {
  }

  /**
   * The loop as written against the policy: when `accept_packet` returns, it
   * returns what `Accept` says, and when no candidate comparison can raise it
   * always returns. A packet address that does not parse raises in both.
   */
  lemma DecideMeaning(rules: Index, d: string, p: string, port: int, ip: string)
    ensures Decide(rules, d, p, port, ip).Some? ==> Decide(rules, d, p, port, ip) == Accept(rules, d, p, port, ip)
    ensures InBounds(rules, d, p, ip) ==> Decide(rules, d, p, port, ip) == Accept(rules, d, p, port, ip)
    ensures Accept(rules, d, p, port, ip).None? ==> Decide(rules, d, p, port, ip).None?
  {
    var key := GenerateKey(d, p);
    if key in rules && PacketAddress(ip).Some? {
      ScanFromMeaning(rules[key], 0, port, PacketAddress(ip).value);
    }
  }

  /** A rule that matches in one list also matches in any permutation of it. */
  lemma MatchSurvivesPermutation(s: seq<Rule>, t: seq<Rule>, port: int, address: seq<nat>)
    requires multiset(s) == multiset(t)
    requires exists j :: 0 <= j < |s| && RuleMatches(s[j], port, address)
    ensures exists j :: 0 <= j < |t| && RuleMatches(t[j], port, address)
  {
    var j :| 0 <= j < |s| && RuleMatches(s[j], port, address);
    assert s[j] in multiset(t);
    var i :| 0 <= i < |t| && t[i] == s[j];
    assert RuleMatches(t[i], port, address);
  }

  /**
   * The policy does not depend on the order of the rules under a key: any
   * reordering gives the same `Accept`, and, when no comparison can raise, the
   * same answer from `accept_packet`.
   */
  lemma AcceptOrderFree(r1: Index, r2: Index, d: string, p: string, port: int, ip: string)
    requires r1.Keys == r2.Keys
    requires forall k :: k in r1 ==> multiset(r1[k]) == multiset(r2[k])
    ensures Accept(r1, d, p, port, ip) == Accept(r2, d, p, port, ip)
    ensures InBounds(r1, d, p, ip) && InBounds(r2, d, p, ip) ==>
      Decide(r1, d, p, port, ip) == Decide(r2, d, p, port, ip)
  {
    var key := GenerateKey(d, p);
    if key in r1 && PacketAddress(ip).Some? {
      var a := PacketAddress(ip).value;
      assert multiset(r1[key]) == multiset(r2[key]);
      if exists j :: 0 <= j < |r1[key]| && RuleMatches(r1[key][j], port, a) {
        MatchSurvivesPermutation(r1[key], r2[key], port, a);
      }
      if exists j :: 0 <= j < |r2[key]| && RuleMatches(r2[key][j], port, a) {
        MatchSurvivesPermutation(r2[key], r1[key], port, a);
      }
    }
    DecideMeaning(r1, d, p, port, ip);
    DecideMeaning(r2, d, p, port, ip);
  }

  /**
   * `compareIPAddress` reads a short bound only if it gets that far: with a
   * three-octet lower bound it returns `False` when the first octet is already
   * below it, and raises when the first three octets pass.
   */
  lemma CompareShortBounds()
    ensures CompareFrom([[1, 2, 3], [9, 9, 9, 9]], [0, 0, 0, 0], 0) == Some(false)
    ensures CompareFrom([[1, 2, 3], [9, 9, 9, 9]], [5, 5, 5, 5], 0) == None
  {
    assert CompareFrom([[1, 2, 3], [9, 9, 9, 9]], [5, 5, 5, 5], 3) == None;
    assert CompareFrom([[1, 2, 3], [9, 9, 9, 9]], [5, 5, 5, 5], 2) == None;
  }

  /**
   * Where a comparison raises, rule order does decide the outcome: a matching
   * rule placed before a malformed range accepts, while the same two rules in
   * the other order raise.
   */
  lemma OrderMattersOnError()
    ensures ScanFrom([Rule([80], [[1, 2, 3, 4]]), Rule([80], [[1, 2, 3], [9, 9, 9]])], 0, 80, [1, 2, 3, 4]) == Some(true)
    ensures ScanFrom([Rule([80], [[1, 2, 3], [9, 9, 9]]), Rule([80], [[1, 2, 3, 4]])], 0, 80, [1, 2, 3, 4]) == None
  {
    var good := Rule([80], [[1, 2, 3, 4]]);
    var bad := Rule([80], [[1, 2, 3], [9, 9, 9]]);
    assert CompareFrom(bad.ipAddress, [1, 2, 3, 4], 3) == None;
    assert CompareFrom(bad.ipAddress, [1, 2, 3, 4], 1) == None;
    assert CheckField(bad, IpAddress, 80, [1, 2, 3, 4]) == None;
    assert CheckFieldsFrom(bad, 1, 80, [1, 2, 3, 4]) == None;
    assert CheckFieldsFrom(bad, 0, 80, [1, 2, 3, 4]) == None;
    assert CheckFieldsFrom(good, 1, 80, [1, 2, 3, 4]) == Some(true);
    assert CheckFieldsFrom(good, 0, 80, [1, 2, 3, 4]) == Some(true);
  }
}
