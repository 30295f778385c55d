/** The three scanning modes: interactive host selection, the full automatic
    sweep, and the port range scan of one address. The printed progress and
    the `input()` prompt are outside the model: the text the user types is a
    parameter, and each mode returns what it would report. */
module Cli {
  import opened Common
  import opened PyText
  import opened Arp
  import opened Scan

  // ---------------------------------------------------------------------
  // Integer lists
  // ---------------------------------------------------------------------

  /** `[convert(f) for f in fields]` for a conversion that may raise: the
      fields are converted in order and the first failure propagates. */
  function ParseFields(fields: seq<string>, convert: string -> Result<int>): (r: Result<seq<int>>)
    ensures r.Ok? ==> |r.value| == |fields|
    ensures r.Err? ==> exists k :: 0 <= k < |fields| && convert(fields[k]) == Err(r.error)
  {
    if fields == [] then Ok([])
    else match convert(fields[0])
      case Err(e) => Err(e)
      case Ok(v) =>
        match ParseFields(fields[1..], convert)
        case Err(e) => Err(e)
        case Ok(vs) => Ok([v] + vs)
  }

  /** The list converts exactly when every field does, it then holds the
      fields' values in order, and a failure is the first field's failure. */
  lemma {:induction false} ParseFieldsMeaning(fields: seq<string>, convert: string -> Result<int>)
    ensures ParseFields(fields, convert).Ok? <==> forall k :: 0 <= k < |fields| ==> convert(fields[k]).Ok?
    ensures ParseFields(fields, convert).Ok? ==>
              forall k :: 0 <= k < |fields| ==> convert(fields[k]) == Ok(ParseFields(fields, convert).value[k])
    ensures ParseFields(fields, convert).Err? ==>
              exists k :: 0 <= k < |fields| && convert(fields[k]) == Err(ParseFields(fields, convert).error)
                          && forall j :: 0 <= j < k ==> convert(fields[j]).Ok?
  {
    if fields != [] {
      ParseFieldsMeaning(fields[1..], convert);
      assert forall k :: 1 <= k < |fields| ==> fields[1..][k - 1] == fields[k];
      var r := ParseFields(fields, convert);
      if r.Err? && convert(fields[0]).Ok? {
        var k :| 0 <= k < |fields| - 1 && convert(fields[1..][k]) == Err(r.error)
                 && forall j :: 0 <= j < k ==> convert(fields[1..][j]).Ok?;
        assert convert(fields[k + 1]) == Err(r.error);
        assert forall j :: 0 <= j < k + 1 ==> convert(fields[j]).Ok?;
      }
    }
  }

  /** Fields that each convert to the matching value convert to the list. */
  lemma {:induction false} ParseFieldsAll(fields: seq<string>, convert: string -> Result<int>, ns: seq<int>)
    requires |fields| == |ns|
    requires forall k :: 0 <= k < |fields| ==> convert(fields[k]) == Ok(ns[k])
    ensures ParseFields(fields, convert) == Ok(ns)
  {
    if fields != [] {
      ParseFieldsAll(fields[1..], convert, ns[1..]);
      assert [ns[0]] + ns[1..] == ns;
    }
  }

  /** Two fields convert exactly when both do, to their two values. */
  lemma ParseFieldsPair(fields: seq<string>, convert: string -> Result<int>)
    requires |fields| == 2
    ensures ParseFields(fields, convert).Ok? <==> convert(fields[0]).Ok? && convert(fields[1]).Ok?
    ensures ParseFields(fields, convert).Ok? ==>
              ParseFields(fields, convert).value == [convert(fields[0]).value, convert(fields[1]).value]
  {
    var rest := fields[1..];
    assert rest[0] == fields[1] && rest[1..] == [];
    assert ParseFields(rest[1..], convert) == Ok([]);
    assert forall v: int :: [v] + [] == [v];
    assert ParseFields(rest, convert) == if convert(fields[1]).Ok? then Ok([convert(fields[1]).value]) else Err(convert(fields[1]).error);
  }

  /** `int(x.strip())`, the conversion applied to each entry of the host
      selection and of the port list. */
  function StrippedInt(x: string): (r: Result<int>)
    ensures r.Err? ==> r.error == ValueError
  {
    ParseInt(Strip(x))
  }

  /** `[int(p.strip()) for p in text.split(",")]`, the form the host
      selection and the port list are read in: one integer per
      comma-separated field. */
  function ParseIntList(text: string): (r: Result<seq<int>>)
    ensures r.Ok? ==> |r.value| == |Split(text, ',')| >= 1
    ensures r.Err? ==> r.error == ValueError
  {
    ParseFields(Split(text, ','), StrippedInt)
  }

  /** `str(n)` for each entry. */
  function Decimals(ns: seq<int>): (r: seq<string>)
    ensures |r| == |ns|
    ensures forall k :: 0 <= k < |ns| ==> r[k] == IntToDecimal(ns[k])
  {
    seq(|ns|, k requires 0 <= k < |ns| => IntToDecimal(ns[k]))
  }

  /** `str(n)` holds only a sign and decimal digits. */
  lemma DecimalCharacters(n: int)
    ensures forall k :: 0 <= k < |IntToDecimal(n)| ==>
              IntToDecimal(n)[k] == '-' || IsDigit(IntToDecimal(n)[k])
    ensures ',' !in IntToDecimal(n)
  {
    var s := IntToDecimal(n);
    var m: nat := if n < 0 then -n else n;
    var d := NatToDecimal(m);
    assert forall k :: 0 <= k < |d| ==> IsDigit(d[k]);
    assert forall k :: 0 <= k < |s| ==> s[k] == '-' || IsDigit(s[k]) by {
      if n < 0 {
        assert forall k :: 1 <= k < |s| ==> s[k] == d[k - 1];
      }
    }
  }

  /** A comma-separated list of integers, as `str` prints them, reads back
      as the same list. */
  lemma IntListRoundTrip(ns: seq<int>)
    requires |ns| >= 1
    ensures ParseIntList(Join(Decimals(ns), ',')) == Ok(ns)
  {
    var fields := Decimals(ns);
    forall k | 0 <= k < |ns| ensures ',' !in fields[k] && StrippedInt(fields[k]) == Ok(ns[k]) {
      DecimalCharacters(ns[k]);
      ParseIntRoundTrip(ns[k]);
    }
    SplitJoin(fields, ',');
    ParseFieldsAll(fields, StrippedInt, ns);
  }

  // ---------------------------------------------------------------------
  // Host selection
  // ---------------------------------------------------------------------

  /** Python's `a[i]` accepts -len(a) <= i < len(a). */
  predicate ValidIndex(i: int, len: nat)
  {
    -(len as int) <= i < len
  }

  /** The element a valid index designates: negative indices count from the
      end. */
  function PyIndex(i: int, len: nat): (k: nat)
    requires ValidIndex(i, len)
    ensures k < len
    ensures k == i || k == i + len
  {
    if i < 0 then i + len else i
  }

  /** `[active[n - 1] for n in numbers]`: None when an index is out of range
      (IndexError). A number n is accepted exactly when 1 - len <= n <= len;
      a positive n picks the n-th host, and 0 or a negative n counts from
      the end. */
  function Pick(active: seq<string>, numbers: seq<int>): (r: Option<seq<string>>)
    ensures r.Some? <==> forall k :: 0 <= k < |numbers| ==> 1 - |active| <= numbers[k] <= |active|
    ensures r.Some? ==> |r.value| == |numbers|
    ensures r.Some? ==>
              forall k :: 0 <= k < |numbers| ==>
                r.value[k] == active[if numbers[k] <= 0 then numbers[k] - 1 + |active| else numbers[k] - 1]
  {
    if forall k :: 0 <= k < |numbers| ==> ValidIndex(numbers[k] - 1, |active|) then
      Some(seq(|numbers|, k requires 0 <= k < |numbers| => active[PyIndex(numbers[k] - 1, |active|)]))
    else None
  }

  /** The selection step of `interactive_scan`: the entries are read as
      integers and picked from the list of active hosts. A field that is not
      an integer (ValueError) or a number out of range (IndexError) gives
      None, the "Invalid input" path. */
  function SelectHosts(active: seq<string>, selected: string): (r: Option<seq<string>>)
    ensures ParseIntList(selected).Ok? ==> r == Pick(active, ParseIntList(selected).value)
    ensures ParseIntList(selected).Err? ==> r.None?
  {
    match ParseIntList(selected)
    case Err(_) => None
    case Ok(numbers) => Pick(active, numbers)
  }

  /** Entering host numbers from the printed list, 1-based, selects those
      hosts in the order entered, repeats included. */
  lemma SelectByNumbers(active: seq<string>, picks: seq<int>)
    requires |picks| >= 1
    requires forall k :: 0 <= k < |picks| ==> 1 <= picks[k] <= |active|
    ensures SelectHosts(active, Join(Decimals(picks), ',')) ==
              Some(seq(|picks|, k requires 0 <= k < |picks| => active[picks[k] - 1]))
  {
    IntListRoundTrip(picks);
    PickByNumbers(active, picks);
  }

  /** Picking by 1-based positions gives the hosts at those positions. */
  lemma PickByNumbers(active: seq<string>, picks: seq<int>)
    requires forall k :: 0 <= k < |picks| ==> 1 <= picks[k] <= |active|
    ensures Pick(active, picks) == Some(seq(|picks|, k requires 0 <= k < |picks| => active[picks[k] - 1]))
  {
    var r := Pick(active, picks);
    assert r.value == seq(|picks|, k requires 0 <= k < |picks| => active[picks[k] - 1]);
  }

  /** Entering 0 or a negative number does not fail while it stays above
      -len: n picks the host at index n - 1 from the end, so 0 picks the
      last host. */
  lemma NonPositiveCountsFromEnd(active: seq<string>, n: int)
    requires 1 - |active| <= n <= 0
    ensures SelectHosts(active, IntToDecimal(n)) == Some([active[n - 1 + |active|]])
  {
    IntListRoundTrip([n]);
    assert Decimals([n]) == [IntToDecimal(n)];
    assert Join([IntToDecimal(n)], ',') == IntToDecimal(n);
    var r := Pick(active, [n]);
    assert r.Some? && |r.value| == 1;
    assert r.value == [active[n - 1 + |active|]];
  }

  /** A number beyond the list, or below 1 - len, is invalid input. */
  lemma OutOfRangeRejected(active: seq<string>, n: int)
    requires n > |active| || n < 1 - |active|
    ensures SelectHosts(active, IntToDecimal(n)) == None
  {
    IntListRoundTrip([n]);
    assert Decimals([n]) == [IntToDecimal(n)];
    assert Join([IntToDecimal(n)], ',') == IntToDecimal(n);
  }

  /** Entering every number from 1 to the number of hosts selects exactly
      the hosts of the full automatic mode, in the same order. */
  lemma SelectAll(active: seq<string>)
    requires |active| >= 1
    ensures SelectHosts(active, Join(Decimals(Range(1, |active| + 1)), ',')) == Some(active)
  {
    var picks := Range(1, |active| + 1);
    SelectByNumbers(active, picks);
    assert seq(|picks|, k requires 0 <= k < |picks| => active[picks[k] - 1]) == active;
  }

  // ---------------------------------------------------------------------
  // Port ranges
  // ---------------------------------------------------------------------

  /** `list(range(a, b))`: the integers from a up to but excluding b. */
  function Range(a: int, b: int): (r: seq<int>)
    ensures |r| == if b <= a then 0 else b - a
    ensures forall k :: 0 <= k < |r| ==> r[k] == a + k
  {
    if b <= a then [] else seq(b - a, k requires 0 <= k < b - a => a + k)
  }

  /** `map(int, port_range.split("-"))` unpacked into two names, then
      `list(range(start, end + 1))`. Every failure is a ValueError: a field
      that is not an integer, or a number of fields other than two. */
  function ParsePortRange(portRange: string): (r: Result<seq<int>>)
    ensures r.Err? ==> r.error == ValueError
  {
    match ParseFields(Split(portRange, '-'), ParseInt)
    case Err(e) => Err(e)
    case Ok(bounds) =>
      if |bounds| != 2 then Err(ValueError) else Ok(Range(bounds[0], bounds[1] + 1))
  }

  /** The range parses exactly when the text has two fields around one
      hyphen and both are integers; it then runs from the first to the
      second, inclusive. */
  lemma PortRangeMeaning(portRange: string)
    ensures ParsePortRange(portRange).Ok? <==>
              (|Split(portRange, '-')| == 2 &&
               ParseInt(Split(portRange, '-')[0]).Ok? && ParseInt(Split(portRange, '-')[1]).Ok?)
    ensures ParsePortRange(portRange).Ok? ==>
              ParsePortRange(portRange).value == Range(ParseInt(Split(portRange, '-')[0]).value,
                                                       ParseInt(Split(portRange, '-')[1]).value + 1)
  {
    var fields := Split(portRange, '-');
    if |fields| == 2 {
      ParseFieldsPair(fields, ParseInt);
    }
  }

  /** `a-b` for non-negative a and b is the inclusive range: b - a + 1
      ports from a to b, or none when b < a. */
  lemma PortRangeInclusive(a: nat, b: nat)
    ensures ParsePortRange(IntToDecimal(a) + "-" + IntToDecimal(b)) == Ok(Range(a, b + 1))
    ensures |Range(a, b + 1)| == if b < a then 0 else b - a + 1
    ensures a <= b ==> Range(a, b + 1)[0] == a && Range(a, b + 1)[b - a] == b
  {
    PortRangeFields(a, b);
    ParseIntRoundTrip(a);
    ParseIntRoundTrip(b);
    ParseFieldsAll(Split(IntToDecimal(a) + "-" + IntToDecimal(b), '-'), ParseInt, [a, b]);
  }

  /** The text `a-b` splits into the two printed numbers. */
  lemma PortRangeFields(a: nat, b: nat)
    ensures Split(IntToDecimal(a) + "-" + IntToDecimal(b), '-') == [IntToDecimal(a), IntToDecimal(b)]
  {
    var s, t := IntToDecimal(a), IntToDecimal(b);
    DecimalCharacters(a);
    DecimalCharacters(b);
    assert '-' !in s && '-' !in t by {
      assert s == NatToDecimal(a) && t == NatToDecimal(b);
    }
    SplitJoin([s, t], '-');
    assert Join([s, t], '-') == s + "-" + t by {
      assert Join([t], '-') == t;
    }
  }

  /** A negative start cannot be written: its minus sign is taken as a third
      field. */
  lemma NegativeStartRejected()
    ensures ParsePortRange("-1-5") == Err(ValueError)
  {
    assert "-1-5"[1..] == "1-5" && "1-5"[1..] == "-5" && "-5"[1..] == "5";
    assert Split("5", '-') == ["5"] by {
      assert "5"[1..] == [] && Split([], '-') == [[]];
      assert ['5'] + [] == "5";
    }
    assert |Split("-1-5", '-')| == 3;
  }

  // ---------------------------------------------------------------------
  // The modes
  // ---------------------------------------------------------------------

  /** One printed line of results: a host and its open ports. */
  datatype HostReport = HostReport(host: string, openPorts: seq<int>)

  /** How a session ends. */
  datatype Session =
    | NoActiveHosts                  // "No active hosts found. Exiting."
    | InvalidInput                   // "Invalid input. Exiting."
    | Reports(reports: seq<HostReport>)
    | Failed(error: PyError)         // an exception leaves the function

  /** The report of a port sweep of each host in turn, with the same port
      list and the default pool of 50 workers. */
  function ReportsFor(hosts: seq<string>, ports: seq<int>, connect: (string, int) -> bool): (r: seq<HostReport>)
    ensures |r| == |hosts|
    ensures forall k :: 0 <= k < |hosts| ==> r[k].host == hosts[k] && r[k].openPorts == OpenPorts(hosts[k], ports, connect)
  {
    seq(|hosts|, k requires 0 <= k < |hosts| => HostReport(hosts[k], OpenPorts(hosts[k], ports, connect)))
  }

  /** Every report lists only ports that were asked about, in the order
      they were asked. */
  lemma ReportsInOrder(hosts: seq<string>, ports: seq<int>, connect: (string, int) -> bool)
    ensures forall k :: 0 <= k < |hosts| ==> IsSubsequence(ReportsFor(hosts, ports, connect)[k].openPorts, ports)
  {
    forall k | 0 <= k < |hosts| ensures IsSubsequence(ReportsFor(hosts, ports, connect)[k].openPorts, ports) {
      OpenPortsInOrder(hosts[k], ports, connect);
    }
  }

  /** The loop both modes end with: `scan_ports(host, port_list)` for each
      host in order. */
  method ScanEach(hosts: seq<string>, ports: seq<int>, connect: (string, int) -> bool) returns (reports: seq<HostReport>)
    ensures reports == ReportsFor(hosts, ports, connect)
  {
    reports := [];
    for i := 0 to |hosts|
      invariant reports == ReportsFor(hosts[..i], ports, connect)
    {
      var r := ScanPorts(hosts[i], ports, 50, connect);
      reports := reports + [HostReport(hosts[i], r.value)];
    }
    assert hosts[..|hosts|] == hosts;
  }

  /** `interactive_scan`: sweep the network, stop when nobody answers, read
      the selection, then sweep the selected hosts' ports. The port list is
      parsed after the selection and outside the `try`, so a bad port list
      escapes as ValueError. */
  method InteractiveScan(network: Cidr, ping: string -> PingOutcome, selected: string, ports: string,
                         connect: (string, int) -> bool)
    returns (active: seq<string>, s: Session)
    requires network.prefix <= 30
    ensures active == Responders(HostNames(Hosts(network)), ping)
    ensures active == [] ==> s == NoActiveHosts
    ensures active != [] && SelectHosts(active, selected).None? ==> s == InvalidInput
    ensures active != [] && SelectHosts(active, selected).Some? && ParseIntList(ports).Err? ==> s == Failed(ValueError)
    ensures active != [] && SelectHosts(active, selected).Some? && ParseIntList(ports).Ok? ==>
              s == Reports(ReportsFor(SelectHosts(active, selected).value, ParseIntList(ports).value, connect))
  {
    var probed;
    active, probed := ScanHosts(network, ping);
    if active == [] {
      return active, NoActiveHosts;
    }
    var chosen := SelectHosts(active, selected);
    if chosen.None? {
      return active, InvalidInput;
    }
    var portList := ParseIntList(ports);
    if portList.Err? {
      return active, Failed(portList.error);
    }
    var reports := ScanEach(chosen.value, portList.value, connect);
    s := Reports(reports);
  }

  /** `full_auto_scan`: sweep the network, then sweep the ports of every
      host that answered, in order, with the same port list. */
  method FullAutoScan(network: Cidr, ping: string -> PingOutcome, ports: string, connect: (string, int) -> bool)
    returns (active: seq<string>, s: Session)
    requires network.prefix <= 30
    ensures active == Responders(HostNames(Hosts(network)), ping)
    ensures active == [] ==> s == NoActiveHosts
    ensures active != [] && ParseIntList(ports).Err? ==> s == Failed(ValueError)
    ensures active != [] && ParseIntList(ports).Ok? ==>
              s == Reports(ReportsFor(active, ParseIntList(ports).value, connect))
  {
    var probed;
    active, probed := ScanHosts(network, ping);
    if active == [] {
      return active, NoActiveHosts;
    }
    var portList := ParseIntList(ports);
    if portList.Err? {
      return active, Failed(portList.error);
    }
    var reports := ScanEach(active, portList.value, connect);
    s := Reports(reports);
  }

  /** `scan_single_ip`: parse the range, then sweep it with the given pool
      size. */
  method ScanSingleIp(ip: string, portRange: string, threads: int, connect: (string, int) -> bool)
    returns (r: Result<seq<int>>)
    ensures ParsePortRange(portRange).Err? ==> r == Err(ValueError)
    ensures ParsePortRange(portRange).Ok? && threads < 1 ==> r == Err(ValueError)
    ensures ParsePortRange(portRange).Ok? && threads >= 1 ==> r == Ok(OpenPorts(ip, ParsePortRange(portRange).value, connect))
  {
    var ports := ParsePortRange(portRange);
    if ports.Err? {
      return Err(ports.error);
    }
    r := ScanPorts(ip, ports.value, threads, connect);
  }

  /** The ports a range scan reports lie in the range. */
  lemma {:induction false} RangeScanWithin(ip: string, a: int, b: int, connect: (string, int) -> bool)
    decreases b - a
    ensures forall p :: p in OpenPorts(ip, Range(a, b), connect) ==> a <= p < b
  {
    if a < b {
      RangeScanWithin(ip, a + 1, b, connect);
      var ports := Range(a, b);
      assert ports[0] == a && ports[1..] == Range(a + 1, b);
    }
  }

  /** Strictly ascending. */
  predicate Ascending(s: seq<int>)
  {
    forall i, j :: 0 <= i < j < |s| ==> s[i] < s[j]
  }

  lemma AscendingCons(x: int, s: seq<int>)
    requires Ascending(s) && forall p :: p in s ==> x < p
    ensures Ascending([x] + s)
  {
    var t := [x] + s;
    forall i, j | 0 <= i < j < |t| ensures t[i] < t[j] {
      assert t[j] == s[j - 1] && s[j - 1] in s;
      if i > 0 {
        assert t[i] == s[i - 1];
      }
    }
  }

  /** The ports a range scan reports lie in the range and ascend. */
  lemma {:induction false} RangeScanAscending(ip: string, a: int, b: int, connect: (string, int) -> bool)
    decreases b - a
    ensures forall p :: p in OpenPorts(ip, Range(a, b), connect) ==> a <= p < b
    ensures Ascending(OpenPorts(ip, Range(a, b), connect))
  {
    RangeScanWithin(ip, a, b, connect);
    if a < b {
      RangeScanAscending(ip, a + 1, b, connect);
      var ports := Range(a, b);
      assert ports[0] == a && ports[1..] == Range(a + 1, b);
      var rest := OpenPorts(ip, Range(a + 1, b), connect);
      if ScanPort(ip, a, connect).open {
        assert OpenPorts(ip, ports, connect) == [a] + rest;
        AscendingCons(a, rest);
      } else {
        assert OpenPorts(ip, ports, connect) == rest;
      }
    }
  }
}
