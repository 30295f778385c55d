/** The two sweeps: ARP discovery over the usable hosts of a CIDR block, and
    the TCP port sweep of one host. The ARP probe and the TCP connect are
    oracles; the worker pools are modelled as a sequential run, which is one
    of the orders the pools allow. */
module Scan {
  import opened Common
  import opened Ipv4
  import opened Arp

  /** A network in CIDR notation after parsing (section 3.1 of RFC 4632):
      an address and a prefix length. */
  datatype Cidr = Cidr(base: u32, prefix: nat)

  /** Number of addresses in a block with this prefix. */
  function BlockSize(prefix: nat): (n: nat)
    requires prefix <= 32
    ensures n >= 1
  {
    Pow2(32 - prefix)
  }

  lemma {:induction false} MulLe(d: nat, x: nat, y: nat)
    ensures x <= y ==> d * x <= d * y
    decreases if x <= y then y - x else 0
  {
    if x < y {
      MulLe(d, x, y - 1);
      assert d * y == d * (y - 1) + d;
    }
  }

  /** Division and remainder are determined by any decomposition
      a == d * q + r with 0 <= r < d. */
  lemma DivMod(a: nat, d: nat, q: nat, r: nat)
    requires d > 0 && r < d && a == d * q + r
    ensures a / d == q && a % d == r
  {
    var q0: nat, r0 := a / d, a % d;
    assert a == d * q0 + r0;
    assert d * (q0 + 1) == d * q0 + d;
    assert d * (q + 1) == d * q + d;
    MulLe(d, q0 + 1, q);
    MulLe(d, q + 1, q0);
  }

  /** Clearing the remainder leaves a multiple of the divisor, and when the
      dividend lies below `total == size * count` so does the next multiple. */
  lemma Align(base: nat, size: nat, count: nat, total: nat)
    requires size > 0 && size * count == total && base < total
    ensures base % size <= base
    ensures (base - base % size) % size == 0
    ensures base - base % size + size <= total
  {
    var q := base / size;
    assert base == size * q + base % size;
    DivMod(size * q, size, q, 0);
    assert size * (q + 1) == size * q + size;
    MulLe(size, 0, q);
    MulLe(size, count, q);
    MulLe(size, q + 1, count);
  }

  /** A block of this prefix fits 2^prefix times into the address space. */
  lemma BlocksPerSpace(prefix: nat)
    requires prefix <= 32
    ensures BlockSize(prefix) * Pow2(prefix) == 0x1_0000_0000
  {
    Pow2Add(32 - prefix, prefix);
    Pow2Values();
  }

  /** The block's base address: host bits cleared, as
      `IPv4Network(cidr, strict=False)` does. It is aligned to the block size
      and the whole block fits below 2^32. */
  function NetworkAddress(c: Cidr): (net: u32)
    requires c.prefix <= 32
    ensures net <= c.base && c.base - net < BlockSize(c.prefix)
    ensures net % BlockSize(c.prefix) == 0
    ensures net + BlockSize(c.prefix) <= 0x1_0000_0000
  {
    ClearedBlock(c.base, c.prefix);
    c.base - c.base % BlockSize(c.prefix)
  }

  lemma ClearedBlock(base: u32, prefix: nat)
    requires prefix <= 32
    ensures base % BlockSize(prefix) <= base
    ensures (base - base % BlockSize(prefix)) % BlockSize(prefix) == 0
    ensures base - base % BlockSize(prefix) + BlockSize(prefix) <= 0x1_0000_0000
  {
    BlocksPerSpace(prefix);
    Align(base, BlockSize(prefix), Pow2(prefix), 0x1_0000_0000);
  }

  /** `network.hosts()` for a prefix of at most 30: every address of the
      block except the first (network) and the last (broadcast), ascending. */
  function Hosts(c: Cidr): (r: seq<u32>)
    requires c.prefix <= 30
    ensures |r| == BlockSize(c.prefix) - 2
    ensures forall k :: 0 <= k < |r| ==> r[k] == NetworkAddress(c) + 1 + k
  {
    Pow2Add(2, 30 - c.prefix);
    Pow2Values();
    var net := NetworkAddress(c);
    seq(BlockSize(c.prefix) - 2, k requires 0 <= k < BlockSize(c.prefix) - 2 => (net + 1 + k) as u32)
  }

  /** The address lies in the same block as the CIDR's base address. */
  predicate InBlock(c: Cidr, a: u32)
    requires c.prefix <= 32
  {
    NetworkAddress(Cidr(a, c.prefix)) == NetworkAddress(c)
  }

  /** An offset below the block size from an aligned address is the
      remainder, and clearing it gives the aligned address back. */
  lemma OffsetInBlock(net: nat, size: nat, j: nat)
    requires size > 0 && net % size == 0 && j < size
    ensures (net + j) % size == j && (net + j) - (net + j) % size == net
  {
    DivMod(net, size, net / size, 0);
    DivMod(net + j, size, net / size, j);
  }

  /** Every host is an address of the block other than its network and
      broadcast addresses. */
  lemma HostIsUsable(c: Cidr, a: u32)
    requires c.prefix <= 30 && a in Hosts(c)
    ensures InBlock(c, a) && a % BlockSize(c.prefix) != 0 && a % BlockSize(c.prefix) != BlockSize(c.prefix) - 1
  {
    var k :| 0 <= k < |Hosts(c)| && Hosts(c)[k] == a;
    OffsetInBlock(NetworkAddress(c), BlockSize(c.prefix), k + 1);
  }

  /** Every address of the block other than its network and broadcast
      addresses is a host. */
  lemma UsableIsHost(c: Cidr, a: u32)
    requires c.prefix <= 30
    requires InBlock(c, a) && a % BlockSize(c.prefix) != 0 && a % BlockSize(c.prefix) != BlockSize(c.prefix) - 1
    ensures a in Hosts(c)
  {
    var r := a % BlockSize(c.prefix);
    assert Hosts(c)[r - 1] == a;
  }

  /** The hosts are exactly the addresses of the block other than its
      network and broadcast addresses. */
  lemma HostsAreUsableAddresses(c: Cidr, a: u32)
    requires c.prefix <= 30
    ensures a in Hosts(c) <==>
      InBlock(c, a) && a % BlockSize(c.prefix) != 0 && a % BlockSize(c.prefix) != BlockSize(c.prefix) - 1
  {
    if a in Hosts(c) {
      HostIsUsable(c, a);
    }
    if InBlock(c, a) && a % BlockSize(c.prefix) != 0 && a % BlockSize(c.prefix) != BlockSize(c.prefix) - 1 {
      UsableIsHost(c, a);
    }
  }

  /** Clearing the host bits of a network address changes nothing. */
  lemma NetworkAddressIdempotent(c: Cidr)
    requires c.prefix <= 32
    ensures NetworkAddress(Cidr(NetworkAddress(c), c.prefix)) == NetworkAddress(c)
  {
    var net := NetworkAddress(c);
    assert net % BlockSize(c.prefix) == 0;
  }

  /** Host bits in the CIDR text do not matter: the block of a base address
      and the block of its network address have the same hosts. */
  lemma HostBitsMasked(c: Cidr)
    requires c.prefix <= 30
    ensures Hosts(Cidr(NetworkAddress(c), c.prefix)) == Hosts(c)
  {
    NetworkAddressIdempotent(c);
    var h, h2 := Hosts(c), Hosts(Cidr(NetworkAddress(c), c.prefix));
    assert |h| == |h2|;
    assert forall k :: 0 <= k < |h| ==> h[k] == h2[k];
  }

  /** `192.168.1.5/24` sweeps 192.168.1.0/24, and `192.168.1.0/30` has the
      two hosts 192.168.1.1 and 192.168.1.2. */
  lemma SweepExamples()
    ensures NetworkAddress(Cidr(0xC0A8_0105, 24)) == 0xC0A8_0100
    ensures |Hosts(Cidr(0xC0A8_0105, 24))| == 254
    ensures Hosts(Cidr(0xC0A8_0100, 30)) == [0xC0A8_0101, 0xC0A8_0102]
  {
    Pow2Values();
    assert BlockSize(24) == 256;
    assert BlockSize(30) == 4 by { Pow2Add(1, 1); }
  }

  /** The dotted quads of the addresses, in order: the `str(ip)` each probe
      is called with. */
  function HostNames(hosts: seq<u32>): (r: seq<string>)
    ensures |r| == |hosts|
    ensures forall k :: 0 <= k < |hosts| ==> r[k] == AddrToString(hosts[k])
  {
    seq(|hosts|, k requires 0 <= k < |hosts| => AddrToString(hosts[k]))
  }

  /** Distinct addresses have distinct dotted quads. */
  lemma HostNamesDistinct(hosts: seq<u32>)
    requires forall i, j :: 0 <= i < j < |hosts| ==> hosts[i] != hosts[j]
    ensures forall i, j :: 0 <= i < j < |hosts| ==> HostNames(hosts)[i] != HostNames(hosts)[j]
  {
    forall i, j | 0 <= i < j < |hosts| ensures HostNames(hosts)[i] != HostNames(hosts)[j] {
      AddrToStringInjective(hosts[i], hosts[j]);
    }
  }

  /** `scan_hosts`: one probe per host of the block, called with the host's
      dotted quad; a host is recorded when its probe answers True. A probe
      that raises records nothing and the sweep goes on. `probed` lists the
      probe arguments in the order they are submitted. The order of the
      recorded list stands for completion order, so what the sweep promises
      is which hosts it holds, and that it holds each once. */
  method ScanHosts(c: Cidr, ping: string -> PingOutcome) returns (active: seq<string>, probed: seq<string>)
    requires c.prefix <= 30
    ensures probed == HostNames(Hosts(c)) && |probed| == BlockSize(c.prefix) - 2
    ensures active == Responders(probed, ping)
    ensures forall a :: a in Hosts(c) ==> (AddrToString(a) in active <==> ping(AddrToString(a)) == Reachable)
    ensures forall s :: s in active ==> exists a :: a in Hosts(c) && s == AddrToString(a)
    ensures forall i, j :: 0 <= i < j < |active| ==> active[i] != active[j]
  {
    active, probed := ProbeEach(HostNames(Hosts(c)), ping);
    SweepResult(c, ping);
  }

  /** The executor's work for one sweep: each address is submitted once, in
      order, and the ones whose probe answers True are recorded. */
  method ProbeEach(ips: seq<string>, ping: string -> PingOutcome) returns (active: seq<string>, probed: seq<string>)
    ensures probed == ips
    ensures active == Responders(ips, ping)
  {
    active, probed := [], [];
    for i := 0 to |ips|
      invariant probed == ips[..i]
      invariant Responders(ips, ping) == active + Responders(ips[i..], ping)
    {
      assert ips[i..][1..] == ips[i + 1..];
      probed := probed + [ips[i]];
      if ping(ips[i]) == Reachable {
        active := active + [ips[i]];
      }
    }
    assert ips[|ips|..] == [] && active + [] == active;
  }

  /** The addresses whose probe answers True, in probe order. */
  function Responders(ips: seq<string>, ping: string -> PingOutcome): (r: seq<string>)
    ensures |r| <= |ips|
    ensures forall k :: 0 <= k < |r| ==> ping(r[k]) == Reachable
  {
    if ips == [] then []
    else (if ping(ips[0]) == Reachable then [ips[0]] else []) + Responders(ips[1..], ping)
  }

  /** An address is recorded exactly when it was probed and its probe
      answered True; a probe that answers False or raises records nothing. */
  lemma {:induction false} RespondersMembership(ips: seq<string>, ping: string -> PingOutcome)
    ensures forall s :: s in Responders(ips, ping) <==> s in ips && ping(s) == Reachable
  {
    if ips != [] {
      RespondersMembership(ips[1..], ping);
      assert ips == [ips[0]] + ips[1..];
    }
  }

  /** Probing distinct addresses records each responder once. */
  lemma {:induction false} RespondersDistinct(ips: seq<string>, ping: string -> PingOutcome)
    requires forall i, j :: 0 <= i < j < |ips| ==> ips[i] != ips[j]
    ensures forall i, j :: 0 <= i < j < |Responders(ips, ping)| ==> Responders(ips, ping)[i] != Responders(ips, ping)[j]
  {
    if ips != [] {
      RespondersDistinct(ips[1..], ping);
      RespondersMembership(ips[1..], ping);
      assert ips[0] !in ips[1..];
    }
  }

  /** What the sweep records, stated on the hosts of the block. */
  lemma SweepResult(c: Cidr, ping: string -> PingOutcome)
    requires c.prefix <= 30
    ensures forall a :: a in Hosts(c) ==>
              (AddrToString(a) in Responders(HostNames(Hosts(c)), ping) <==> ping(AddrToString(a)) == Reachable)
    ensures forall s :: s in Responders(HostNames(Hosts(c)), ping) ==> exists a :: a in Hosts(c) && s == AddrToString(a)
    ensures forall i, j :: 0 <= i < j < |Responders(HostNames(Hosts(c)), ping)| ==>
              Responders(HostNames(Hosts(c)), ping)[i] != Responders(HostNames(Hosts(c)), ping)[j]
  {
    var hosts := Hosts(c);
    var ips := HostNames(hosts);
    RespondersMembership(ips, ping);
    HostNamesDistinct(hosts);
    RespondersDistinct(ips, ping);
    forall a | a in hosts ensures AddrToString(a) in ips {
      var k :| 0 <= k < |hosts| && hosts[k] == a;
      assert ips[k] == AddrToString(a);
    }
    forall s | s in Responders(ips, ping) ensures exists a :: a in hosts && s == AddrToString(a) {
      var k :| 0 <= k < |ips| && ips[k] == s;
      assert hosts[k] in hosts;
    }
  }

  /** `scan_port`'s answer: the port asked about and whether it is open. */
  datatype PortProbe = PortProbe(port: int, open: bool)

  /** `scan_port(ip, port)`: the port comes back unchanged. `connect` stands
      for the TCP connect attempt on a valid port; a port outside 0..65535
      makes `connect` raise OverflowError, which the bare `except` turns into
      False like every other failure. */
  function ScanPort(ip: string, port: int, connect: (string, int) -> bool): (r: PortProbe)
    ensures r.port == port
    ensures r.open ==> 0 <= r.port < 0x1_0000
    ensures r.open <==> 0 <= port < 0x1_0000 && connect(ip, port)
  {
    PortProbe(port, 0 <= port < 0x1_0000 && connect(ip, port))
  }

  /** The ports of the list that `ScanPort` reports open, in list order. */
  function OpenPorts(ip: string, ports: seq<int>, connect: (string, int) -> bool): seq<int>
  {
    if ports == [] then []
    else (if ScanPort(ip, ports[0], connect).open then [ports[0]] else []) + OpenPorts(ip, ports[1..], connect)
  }

  /** `scan_ports(ip, ports, max_threads)`: the results of `scan_port` come
      back in the order of `ports` and the open ones are kept. A pool size
      below one makes `ThreadPoolExecutor` raise ValueError. */
  method ScanPorts(ip: string, ports: seq<int>, maxThreads: int, connect: (string, int) -> bool)
    returns (r: Result<seq<int>>)
    ensures maxThreads < 1 ==> r == Err(ValueError)
    ensures maxThreads >= 1 ==> r == Ok(OpenPorts(ip, ports, connect))
  {
    if maxThreads < 1 {
      return Err(ValueError);
    }
    var openPorts := [];
    for i := 0 to |ports|
      invariant OpenPorts(ip, ports, connect) == openPorts + OpenPorts(ip, ports[i..], connect)
    {
      assert ports[i..][1..] == ports[i + 1..];
      var probe := ScanPort(ip, ports[i], connect);
      if probe.open {
        openPorts := openPorts + [probe.port];
      }
    }
    assert ports[|ports|..] == [] && openPorts + [] == openPorts;
    return Ok(openPorts);
  }

  /** `a` is `b` with some entries dropped, the rest kept in order. */
  predicate IsSubsequence(a: seq<int>, b: seq<int>)
  {
    if a == [] then true
    else if b == [] then false
    else if a[0] == b[0] then IsSubsequence(a[1..], b[1..])
    else IsSubsequence(a, b[1..])
  }

  lemma {:induction false} SubsequenceDropFirst(a: seq<int>, b: seq<int>)
    requires b != [] && IsSubsequence(a, b[1..])
    ensures IsSubsequence(a, b)
    decreases |b|, |a|
  {
    if a != [] && a[0] == b[0] {
      if a[1..] != [] && |b| > 1 {
        SubsequenceTail(a, b[1..]);
      }
    }
  }

  lemma {:induction false} SubsequenceTail(a: seq<int>, b: seq<int>)
    requires a != [] && IsSubsequence(a, b)
    ensures IsSubsequence(a[1..], b)
    decreases |b|, |a|
  {
    if a[0] == b[0] {
      if a[1..] != [] {
        SubsequenceDropFirst(a[1..], b);
      }
    } else {
      SubsequenceTail(a, b[1..]);
      if a[1..] != [] {
        SubsequenceDropFirst(a[1..], b);
      }
    }
  }

  /** The open ports are a subsequence of the ports asked about. */
  lemma {:induction false} OpenPortsInOrder(ip: string, ports: seq<int>, connect: (string, int) -> bool)
    ensures IsSubsequence(OpenPorts(ip, ports, connect), ports)
  {
    if ports != [] {
      OpenPortsInOrder(ip, ports[1..], connect);
      if !ScanPort(ip, ports[0], connect).open {
        assert OpenPorts(ip, ports, connect) == OpenPorts(ip, ports[1..], connect);
        SubsequenceDropFirst(OpenPorts(ip, ports, connect), ports);
      }
    }
  }

  /** Each port appears in the result as often as in the input when it is
      open, and not at all when it is not: duplicates are kept. */
  lemma {:induction false} OpenPortsCount(ip: string, ports: seq<int>, connect: (string, int) -> bool, p: int)
    ensures multiset(OpenPorts(ip, ports, connect))[p]
            == if ScanPort(ip, p, connect).open then multiset(ports)[p] else 0
  {
    if ports != [] {
      OpenPortsCount(ip, ports[1..], connect, p);
      assert ports == [ports[0]] + ports[1..];
    }
  }

  /** `scan_ports("10.0.0.5", [22, 80, 81])` with only port 80 open gives
      `[80]`. */
  lemma PortSweepExample(connect: (string, int) -> bool)
    requires !connect("10.0.0.5", 22) && connect("10.0.0.5", 80) && !connect("10.0.0.5", 81)
    ensures OpenPorts("10.0.0.5", [22, 80, 81], connect) == [80]
  {
    assert [22, 80, 81][1..] == [80, 81] && [80, 81][1..] == [81] && [81][1..] == [];
  }
}
