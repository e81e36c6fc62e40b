/**
 * The packet-filter policy engine of Firewall.py.
 *
 * Rule text is parsed into lists (a field spec of length 1 is a single
 * value, of length 2 an inclusive range); rules are indexed by the comma join
 * of their categorical fields (direction, protocol), in load order; a packet
 * is accepted iff some rule under its key matches it on every field.
 */
module Firewall {
  import opened Wrappers
  import opened Strings

  /** One raw record: direction, protocol, port text, IP text (CSV columns 0..3). */
  type Row = (string, string, string, string)

  /** A parsed rule: the port spec and the IP spec, each as the list the parsers return. */
  datatype Rule = Rule(port: seq<nat>, ipAddress: seq<seq<nat>>)

  /** `Firewall.rules`: categorical key to the rules that share it, in load order. */
  type Index = map<string, seq<Rule>>

  /** The keys of a rule dictionary, in the order the loader inserts them. */
  datatype Field = Port | IpAddress

  const Fields: seq<Field> := [Port, IpAddress]

  // ---------------------------------------------------------------------
  // Rule-field parsers
  // ---------------------------------------------------------------------

  /** `Firewall.__generate_key([direction, protocol])`: the comma join. */
  function GenerateKey(direction: string, protocol: string): string {
    direction + "," + protocol
  }

  /** `create_range`: the text alone, or the pieces between its dashes. */
  function CreateRange(text: string): (pieces: seq<string>)
    ensures |pieces| >= 1
  {
    if '-' in text then Split(text, '-') else [text]
  }

  /** `[int(i) for i in pieces]`; `None` when some piece is not a decimal number. */
  function ParseAll(pieces: seq<string>): Option<seq<nat>> {
    if pieces == [] then Some([])
    else match (ParseDecimal(pieces[0]), ParseAll(pieces[1..]))
      case (Some(v), Some(vs)) => Some([v] + vs)
      case _ => None
  }

  /** `ParseAll` parses every piece, keeping count and order, and fails iff some piece does not parse. */
  lemma {:induction false} ParseAllPieces(pieces: seq<string>)
    ensures ParseAll(pieces).Some? <==> forall i :: 0 <= i < |pieces| ==> ParseDecimal(pieces[i]).Some?
    ensures ParseAll(pieces).Some? ==> |ParseAll(pieces).value| == |pieces|
    ensures ParseAll(pieces).Some? ==>
      forall i :: 0 <= i < |pieces| ==> ParseDecimal(pieces[i]) == Some(ParseAll(pieces).value[i])
  {
    if pieces != [] {
      ParseAllPieces(pieces[1..]);
      if ParseDecimal(pieces[0]).Some? && ParseAll(pieces[1..]).Some? {
        assert forall i :: 1 <= i < |pieces| ==> pieces[i] == pieces[1..][i - 1];
      } else if ParseDecimal(pieces[0]).Some? {
        var i :| 0 <= i < |pieces[1..]| && ParseDecimal(pieces[1..][i]).None?;
        assert pieces[i + 1] == pieces[1..][i];
      }
    }
  }

  /** `processPort` */
  function ProcessPort(text: string): Option<seq<nat>> {
    ParseAll(CreateRange(text))
  }

  /** Each piece replaced by its dot-separated integers; `None` when one does not parse. */
  function ParseOctetLists(pieces: seq<string>): Option<seq<seq<nat>>> {
    if pieces == [] then Some([])
    else match (ParseAll(Split(pieces[0], '.')), ParseOctetLists(pieces[1..]))
      case (Some(v), Some(vs)) => Some([v] + vs)
      case _ => None
  }

  /** `ParseOctetLists` replaces every piece by its octets, keeping count and order, and fails iff one does not parse. */
  lemma {:induction false} ParseOctetListsPieces(pieces: seq<string>)
    ensures ParseOctetLists(pieces).Some? <==> forall i :: 0 <= i < |pieces| ==> ParseAll(Split(pieces[i], '.')).Some?
    ensures ParseOctetLists(pieces).Some? ==> |ParseOctetLists(pieces).value| == |pieces|
    ensures ParseOctetLists(pieces).Some? ==>
      forall i :: 0 <= i < |pieces| ==> ParseAll(Split(pieces[i], '.')) == Some(ParseOctetLists(pieces).value[i])
  {
    if pieces != [] {
      ParseOctetListsPieces(pieces[1..]);
      if ParseAll(Split(pieces[0], '.')).Some? && ParseOctetLists(pieces[1..]).Some? {
        assert forall i :: 1 <= i < |pieces| ==> pieces[i] == pieces[1..][i - 1];
      } else if ParseAll(Split(pieces[0], '.')).Some? {
        var i :| 0 <= i < |pieces[1..]| && ParseAll(Split(pieces[1..][i], '.')).None?;
        assert pieces[i + 1] == pieces[1..][i];
      }
    }
  }

  /** What `processIPAddress(text)` returns. */
  function IPSpecOf(text: string): Option<seq<seq<nat>>> {
    ParseOctetLists(CreateRange(text))
  }

  /** `processIPAddress`: replaces each piece of `create_range(text)`, index by index, with its octets. */
  method ProcessIPAddress(text: string) returns (r: Option<seq<seq<nat>>>)
    ensures r == IPSpecOf(text)
    ensures r.Some? ==> |r.value| == |CreateRange(text)|
  {
    var raw := CreateRange(text);
    var parsed: seq<seq<nat>> := [];
    for i := 0 to |raw|
      invariant |parsed| == i
      invariant forall j :: 0 <= j < i ==> ParseAll(Split(raw[j], '.')) == Some(parsed[j])
    {
      var octets := ParseAll(Split(raw[i], '.'));
      if octets.None? {
        ParseOctetListsPieces(raw);
        return None;
      }
      parsed := parsed + [octets.value];
    }
    r := Some(parsed);
    ParseOctetListsPieces(raw);
    assert ParseOctetLists(raw).Some?;
    assert ParseOctetLists(raw).value == parsed;
  }

  /** The packet side of `accept_packet`: element 0 of `processIPAddress(text)`. */
  function PacketAddress(text: string): Option<seq<nat>> {
    match IPSpecOf(text)
    case None => None
    case Some(spec) => Some(spec[0])
  }

  // ---------------------------------------------------------------------
  // Field matching
  // ---------------------------------------------------------------------

  /** Independently for each of the four octet positions, `lo[i] <= address[i] <= hi[i]`. */
  predicate OctetsWithin(lo: seq<nat>, hi: seq<nat>, address: seq<nat>) {
    |lo| >= 4 && |hi| >= 4 && |address| >= 4 &&
    forall i :: 0 <= i < 4 ==> lo[i] <= address[i] <= hi[i]
  }

  /**
   * `compareIPAddress(ranged, single)` from octet `i` on: `Some(false)` at the
   * first octet out of its bounds, `Some(true)` after the fourth, and `None` for
   * the `IndexError` of reading an octet that one of the lists does not have.
   * The operands are read in Python's order: `single[i]`, `ranged[0][i]`, and
   * only when the lower bound holds, `ranged[1][i]`.
   */
  function CompareFrom(ranged: seq<seq<nat>>, single: seq<nat>, i: nat): Option<bool>
    decreases 4 - i
  {
    if i >= 4 then Some(true)
    else if i >= |single| || |ranged| == 0 || i >= |ranged[0]| then None
    else if single[i] < ranged[0][i] then Some(false)
    else if |ranged| < 2 || i >= |ranged[1]| then None
    else if single[i] > ranged[1][i] then Some(false)
    else CompareFrom(ranged, single, i + 1)
  }

  /** From octet `i` on, a normal return is the per-octet test, and four octets everywhere rule out the error. */
  lemma {:induction false} CompareFromMeaning(ranged: seq<seq<nat>>, single: seq<nat>, i: nat)
    requires |ranged| >= 2 && i <= 4
    ensures CompareFrom(ranged, single, i) == Some(true) ==>
      forall k :: i <= k < 4 ==> k < |single| && k < |ranged[0]| && k < |ranged[1]| && ranged[0][k] <= single[k] <= ranged[1][k]
    ensures CompareFrom(ranged, single, i) == Some(false) ==>
      exists k :: i <= k < 4 && k < |single| && k < |ranged[0]| &&
        (single[k] < ranged[0][k] || (k < |ranged[1]| && single[k] > ranged[1][k]))
    ensures |single| >= 4 && |ranged[0]| >= 4 && |ranged[1]| >= 4 ==> CompareFrom(ranged, single, i).Some?
    decreases 4 - i
  {
    if i < 4 {
      CompareFromMeaning(ranged, single, i + 1);
    }
  }

  /** When `compareIPAddress` returns, it returns `OctetsWithin`; with four octets in every list it always returns. */
  lemma CompareIPAddressMeaning(ranged: seq<seq<nat>>, single: seq<nat>)
    requires |ranged| >= 2
    ensures CompareFrom(ranged, single, 0).Some? ==>
      CompareFrom(ranged, single, 0) == Some(OctetsWithin(ranged[0], ranged[1], single))
    ensures |single| >= 4 && |ranged[0]| >= 4 && |ranged[1]| >= 4 ==>
      CompareFrom(ranged, single, 0) == Some(OctetsWithin(ranged[0], ranged[1], single))
  {
    CompareFromMeaning(ranged, single, 0);
    if CompareFrom(ranged, single, 0) == Some(false) {
      var k :| 0 <= k < 4 && k < |single| && k < |ranged[0]| &&
        (single[k] < ranged[0][k] || (k < |ranged[1]| && single[k] > ranged[1][k]));
      assert !OctetsWithin(ranged[0], ranged[1], single);
    }
  }

  /**
   * `compareIPAddress(ranged, single)`: the per-octet test, left to right with an
   * early exit; `None` is the `IndexError` of a list too short for the octet reached.
   */
  method CompareIPAddress(ranged: seq<seq<nat>>, single: seq<nat>) returns (within: Option<bool>)
    ensures within == CompareFrom(ranged, single, 0)
    ensures |ranged| >= 2 && within.Some? ==> within == Some(OctetsWithin(ranged[0], ranged[1], single))
  {
    if |ranged| >= 2 {
      CompareIPAddressMeaning(ranged, single);
    }
    var i := 0;
    while i < 4
      invariant 0 <= i <= 4
      invariant CompareFrom(ranged, single, 0) == CompareFrom(ranged, single, i)
    {
      if i >= |single| || |ranged| == 0 || i >= |ranged[0]| {
        return None;
      }
      if single[i] < ranged[0][i] {
        return Some(false);
      }
      if |ranged| < 2 || i >= |ranged[1]| {
        return None;
      }
      if single[i] > ranged[1][i] {
        return Some(false);
      }
      i := i + 1;
    }
    return Some(true);
  }

  /** A port spec of length 1 is an equality, of length 2 an inclusive range; others impose nothing. */
  predicate PortMatches(spec: seq<nat>, port: int) {
    if |spec| == 1 then spec[0] == port
    else if |spec| == 2 then spec[0] <= port <= spec[1]
    else true
  }

  /** An IP spec of length 1 is octet-list equality, of length 2 a per-octet range; others impose nothing. */
  predicate IPMatches(spec: seq<seq<nat>>, address: seq<nat>) {
    if |spec| == 1 then spec[0] == address
    else if |spec| == 2 then OctetsWithin(spec[0], spec[1], address)
    else true
  }

  predicate FieldMatches(rule: Rule, field: Field, port: int, address: seq<nat>) {
    match field
    case Port => PortMatches(rule.port, port)
    case IpAddress => IPMatches(rule.ipAddress, address)
  }

  /** Every field of the rule matches the packet. */
  predicate RuleMatches(rule: Rule, port: int, address: seq<nat>) {
    PortMatches(rule.port, port) && IPMatches(rule.ipAddress, address)
  }

  /** A two-entry address range and the packet address both have four octets, so comparing them cannot raise. */
  predicate Comparable(rule: Rule, address: seq<nat>) {
    |rule.ipAddress| == 2 ==> |rule.ipAddress[0]| >= 4 && |rule.ipAddress[1]| >= 4 && |address| >= 4
  }

  /** Every candidate rule for the query can be compared without an `IndexError`, whatever the order of the checks. */
  predicate InBounds(rules: Index, direction: string, protocol: string, ipAddress: string) {
    var key := GenerateKey(direction, protocol);
    key in rules && PacketAddress(ipAddress).Some? ==>
      forall j :: 0 <= j < |rules[key]| ==> Comparable(rules[key][j], PacketAddress(ipAddress).value)
  }

  /**
   * The decision of `accept_packet` as a policy: `Some(false)` when the key is
   * absent (before the packet address is parsed), `None` when the packet
   * address does not parse, and otherwise whether some candidate rule matches.
   * `Decide`, the loop as written, agrees with it whenever no comparison raises.
   */
  function Accept(rules: Index, direction: string, protocol: string, port: int, ipAddress: string): Option<bool> {
    var key := GenerateKey(direction, protocol);
    if key !in rules then Some(false)
    else match PacketAddress(ipAddress)
      case None => None
      case Some(a) => Some(exists j :: 0 <= j < |rules[key]| && RuleMatches(rules[key][j], port, a))
  }

  /**
   * One pass of the field loop of `accept_packet`: `Some(false)` when the field
   * rejects the packet, `None` when comparing the address raises.
   */
  function CheckField(rule: Rule, field: Field, port: int, address: seq<nat>): Option<bool> {
    match field
    case Port =>
      if |rule.port| == 1 then Some(rule.port[0] == port)
      else if |rule.port| == 2 then Some(!(rule.port[0] > port || rule.port[1] < port))
      else Some(true)
    case IpAddress =>
      if |rule.ipAddress| == 1 then Some(rule.ipAddress[0] == address)
      else if |rule.ipAddress| == 2 then CompareFrom(rule.ipAddress, address, 0)
      else Some(true)
  }

  /** The field loop from field `f` on: it stops at the first field that rejects or raises. */
  function CheckFieldsFrom(rule: Rule, f: nat, port: int, address: seq<nat>): Option<bool>
    decreases |Fields| - f
  {
    if f >= |Fields| then Some(true)
    else match CheckField(rule, Fields[f], port, address)
      case Some(true) => CheckFieldsFrom(rule, f + 1, port, address)
      case other => other
  }

  /** The candidate loop from candidate `n` on: the first candidate whose fields all pass accepts. */
  function ScanFrom(candidates: seq<Rule>, n: nat, port: int, address: seq<nat>): Option<bool>
    decreases |candidates| - n
  {
    if n >= |candidates| then Some(false)
    else match CheckFieldsFrom(candidates[n], 0, port, address)
      case Some(true) => Some(true)
      case Some(false) => ScanFrom(candidates, n + 1, port, address)
      case None => None
  }

  /**
   * What `accept_packet` does, step for step: `None` is an exception, either
   * the `ValueError` of an unparsable packet address or the `IndexError` of a
   * comparison that runs off a short octet list.
   */
  function Decide(rules: Index, direction: string, protocol: string, port: int, ipAddress: string): Option<bool> {
    var key := GenerateKey(direction, protocol);
    if key !in rules then Some(false)
    else match PacketAddress(ipAddress)
      case None => None
      case Some(a) => ScanFrom(rules[key], 0, port, a)
  }

  /** A field check that returns agrees with `FieldMatches`; on a comparable rule it always returns. */
  lemma CheckFieldMeaning(rule: Rule, field: Field, port: int, address: seq<nat>)
    ensures CheckField(rule, field, port, address).Some? ==>
      CheckField(rule, field, port, address) == Some(FieldMatches(rule, field, port, address))
    ensures Comparable(rule, address) ==> CheckField(rule, field, port, address).Some?
  {
    if field == IpAddress && |rule.ipAddress| == 2 {
      CompareIPAddressMeaning(rule.ipAddress, address);
    }
  }

  /** The field loop, when it returns, decides `RuleMatches`; on a comparable rule it always returns. */
  lemma CheckRuleMeaning(rule: Rule, port: int, address: seq<nat>)
    ensures CheckFieldsFrom(rule, 0, port, address).Some? ==>
      CheckFieldsFrom(rule, 0, port, address) == Some(RuleMatches(rule, port, address))
    ensures Comparable(rule, address) ==> CheckFieldsFrom(rule, 0, port, address).Some?
  {
    CheckFieldMeaning(rule, Port, port, address);
    CheckFieldMeaning(rule, IpAddress, port, address);
    assert CheckFieldsFrom(rule, 2, port, address) == Some(true);
  }

  /** The candidate loop, when it returns, decides whether some candidate from `n` on matches. */
  lemma {:induction false} ScanFromMeaning(candidates: seq<Rule>, n: nat, port: int, address: seq<nat>)
    requires n <= |candidates|
    ensures ScanFrom(candidates, n, port, address).Some? ==>
      ScanFrom(candidates, n, port, address) ==
        Some(exists j :: n <= j < |candidates| && RuleMatches(candidates[j], port, address))
    ensures (forall j :: n <= j < |candidates| ==> Comparable(candidates[j], address)) ==>
      ScanFrom(candidates, n, port, address).Some?
    decreases |candidates| - n
  {
    if n < |candidates| {
      CheckRuleMeaning(candidates[n], port, address);
      ScanFromMeaning(candidates, n + 1, port, address);
    }
  }

  // ---------------------------------------------------------------------
  // Rule index
  // ---------------------------------------------------------------------

  function RowKey(row: Row): string {
    GenerateKey(row.0, row.1)
  }

  /** The `{port, ip_address}` dictionary built from one row. */
  function ParseRow(row: Row): Option<Rule> {
    match (ProcessPort(row.2), IPSpecOf(row.3))
    case (Some(p), Some(ip)) => Some(Rule(p, ip))
    case _ => None
  }

  /** The list stored under `key`, or the empty list the loader would create. */
  function ListAt(m: Index, key: string): seq<Rule> {
    if key in m then m[key] else []
  }

  /** The `if key not in self.rules: self.rules[key] = []` step. */
  function WithKey(m: Index, key: string): Index {
    if key in m then m else m[key := []]
  }

  /** One iteration of the loader's row loop. */
  function AddRow(m: Index, row: Row): Option<Index> {
    var key := RowKey(row);
    match ParseRow(row)
    case None => None
    case Some(rule) => Some(m[key := ListAt(m, key) + [rule]])
  }

  /** The index after the loader has gone through all of `rows`; `None` if a row does not parse. */
  function LoadRows(m: Index, rows: seq<Row>): Option<Index> {
    if rows == [] then Some(m)
    else match LoadRows(m, rows[..|rows| - 1])
      case None => None
      case Some(m') => AddRow(m', rows[|rows| - 1])
  }

  /** A row that does not parse fails the load, whatever comes before or after it. */
  lemma {:induction false} LoadRowsFailsAt(m: Index, rows: seq<Row>, i: int)
    requires 0 <= i < |rows| && ParseRow(rows[i]).None?
    ensures LoadRows(m, rows).None?
  {
    var init := rows[..|rows| - 1];
    if i < |init| {
      assert init[i] == rows[i];
      LoadRowsFailsAt(m, init, i);
    }
  }

  /** When every row parses, the load succeeds. */
  lemma {:induction false} LoadRowsSucceeds(m: Index, rows: seq<Row>)
    requires forall i :: 0 <= i < |rows| ==> ParseRow(rows[i]).Some?
    ensures LoadRows(m, rows).Some?
  {
    if rows != [] {
      var init := rows[..|rows| - 1];
      assert forall i :: 0 <= i < |init| ==> init[i] == rows[i];
      LoadRowsSucceeds(m, init);
    }
  }

  /** Loading fails exactly when some row does not parse, whatever the index it starts from. */
  lemma LoadRowsFails(m: Index, rows: seq<Row>)
    ensures LoadRows(m, rows).None? <==> exists i :: 0 <= i < |rows| && ParseRow(rows[i]).None?
  {
    if exists i :: 0 <= i < |rows| && ParseRow(rows[i]).None? {
      var i :| 0 <= i < |rows| && ParseRow(rows[i]).None?;
      LoadRowsFailsAt(m, rows, i);
    } else {
      LoadRowsSucceeds(m, rows);
    }
  }

  /**
   * The state the loader leaves when row `i` is the first that does not
   * parse: the index after rows `0..i-1`, with the key of row `i` created.
   */
  predicate FailedAt(m: Index, rows: seq<Row>, i: int, after: Index) {
    0 <= i < |rows| && ParseRow(rows[i]).None? &&
    LoadRows(m, rows[..i]).Some? &&
    after == WithKey(LoadRows(m, rows[..i]).value, RowKey(rows[i]))
  }

  /** Loading one more row applies `AddRow` to the index of the rows before it. */
  lemma LoadStep(m: Index, rows: seq<Row>, i: int, before: Index)
    requires 0 <= i < |rows| && LoadRows(m, rows[..i]) == Some(before)
    ensures LoadRows(m, rows[..i + 1]) == AddRow(before, rows[i])
  {
    assert rows[..i + 1][..i] == rows[..i];
  }

  /** A row that does not parse leaves the loader in the `FailedAt` state and fails the whole load. */
  lemma LoadStopsAt(m: Index, rows: seq<Row>, i: int, before: Index)
    requires 0 <= i < |rows| && LoadRows(m, rows[..i]) == Some(before)
    requires ParseRow(rows[i]).None?
    ensures FailedAt(m, rows, i, WithKey(before, RowKey(rows[i])))
    ensures LoadRows(m, rows).None?
  {
    LoadRowsFailsAt(m, rows, i);
  }

  // ---------------------------------------------------------------------
  // The engine object
  // ---------------------------------------------------------------------

  class Firewall {
    var rules: Index

    /** `self.rules = {}` */
    constructor ()
      ensures rules == map[]
    {
      rules := map[];
    }

    /**
     * One pass of the row loop of `__process_file`: create the row's key if it
     * is missing, then parse the port and, if that succeeds, the address, and
     * append the rule. When parsing raises, the created key stays behind.
     */
    method ProcessRow(row: Row) returns (ok: bool)
      modifies this
      ensures ok <==> ParseRow(row).Some?
      ensures ok ==> rules == AddRow(old(rules), row).value
      ensures !ok ==> rules == WithKey(old(rules), RowKey(row))
    {
      var key := GenerateKey(row.0, row.1);
      if key !in rules {
        rules := rules[key := []];
      }
      var port := ProcessPort(row.2);
      if port.None? {
        return false;
      }
      var ipAddress := ProcessIPAddress(row.3);
      if ipAddress.None? {
        return false;
      }
      assert ParseRow(row) == Some(Rule(port.value, ipAddress.value));
      assert rules[key := rules[key] + [Rule(port.value, ipAddress.value)]] ==
        old(rules)[key := ListAt(old(rules), key) + [Rule(port.value, ipAddress.value)]];
      rules := rules[key := rules[key] + [Rule(port.value, ipAddress.value)]];
      return true;
    }

    /**
     * `__process_file` with the CSV reader replaced by `rows`. On success the
     * index is `LoadRows(old(rules), rows)`. When row `i` does not parse, the
     * key of that row has already been created, so the index is the one after
     * rows `0..i-1` with that key added.
     */
    method ProcessFile(rows: seq<Row>) returns (ok: bool)
      modifies this
      ensures ok <==> LoadRows(old(rules), rows).Some?
      ensures ok ==> rules == LoadRows(old(rules), rows).value
      ensures !ok ==> exists i :: FailedAt(old(rules), rows, i, rules)
    {
      var i := 0;
      while i < |rows|
        invariant 0 <= i <= |rows|
        invariant LoadRows(old(rules), rows[..i]) == Some(rules)
      {
        ghost var before := rules;
        var added := ProcessRow(rows[i]);
        if !added {
          LoadStopsAt(old(rules), rows, i, before);
          return false;
        }
        LoadStep(old(rules), rows, i, before);
        i := i + 1;
      }
      assert rows[..i] == rows;
      return true;
    }

    /**
     * `accept_packet`: default-deny on an unknown key, otherwise the first
     * candidate (in load order) whose fields all pass accepts. `None` is an
     * exception: the `ValueError` of an unparsable packet address, or the
     * `IndexError` of a comparison that reaches a missing octet. `examined` is
     * the number of candidates looked at.
     */
    method AcceptPacket(direction: string, protocol: string, port: int, ipAddress: string)
      returns (r: Option<bool>, ghost examined: nat)
      ensures r == Decide(rules, direction, protocol, port, ipAddress)
      ensures r == Some(true) ==> var c := rules[GenerateKey(direction, protocol)];
        0 < examined <= |c| && RuleMatches(c[examined - 1], port, PacketAddress(ipAddress).value) &&
        forall j :: 0 <= j < examined - 1 ==> !RuleMatches(c[j], port, PacketAddress(ipAddress).value)
    {
      var filterKey := GenerateKey(direction, protocol);
      examined := 0;
      if filterKey !in rules {
        return Some(false), examined;
      }
      var rulesFiltered := rules[filterKey];
      var parsed := ProcessIPAddress(ipAddress);
      if parsed.None? {
        return None, examined;
      }
      var packetAddress := parsed.value[0];
      var n := 0;
      while n < |rulesFiltered|
        invariant 0 <= n <= |rulesFiltered|
        invariant examined == n
        invariant ScanFrom(rulesFiltered, 0, port, packetAddress) == ScanFrom(rulesFiltered, n, port, packetAddress)
        invariant forall j :: 0 <= j < n ==> !RuleMatches(rulesFiltered[j], port, packetAddress)
      {
        var rule := rulesFiltered[n];
        examined := examined + 1;
        var state := true;
        var f := 0;
        while f < |Fields|
          invariant 0 <= f <= |Fields|
          invariant state
          invariant CheckFieldsFrom(rule, 0, port, packetAddress) == CheckFieldsFrom(rule, f, port, packetAddress)
        {
          var field := Fields[f];
          if field == Port {
            if |rule.port| == 1 {
              if rule.port[0] != port {
                state := false;
                break;
              }
            } else if |rule.port| == 2 {
              if rule.port[0] > port || rule.port[1] < port {
                state := false;
                break;
              }
            }
          } else {
            if |rule.ipAddress| == 1 {
              if rule.ipAddress[0] != packetAddress {
                state := false;
                break;
              }
            } else if |rule.ipAddress| == 2 {
              var within := CompareIPAddress(rule.ipAddress, packetAddress);
              if within.None? {
                return None, examined;
              }
              if !within.value {
                state := false;
                break;
              }
            }
          }
          f := f + 1;
        }
        CheckRuleMeaning(rule, port, packetAddress);
        if state {
          return Some(true), examined;
        }
        n := n + 1;
      }
      return Some(false), examined;
    }
  }

  /** `Firewall(path)`: a fresh engine loaded from `rows`, or `None` when loading raises. */
  method NewFirewall(rows: seq<Row>) returns (fw: Option<Firewall>)
    ensures fw.Some? <==> LoadRows(map[], rows).Some?
    ensures fw.Some? ==> fresh(fw.value) && fw.value.rules == LoadRows(map[], rows).value
  {
    var engine := new Firewall();
    var ok := engine.ProcessFile(rows);
    fw := if ok then Some(engine) else None;
  }
}
