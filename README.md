# LAN scanner: a verified model of its sequential core

The scanner finds the hosts of an IPv4 network that answer an ARP request,
then probes TCP ports on the hosts it found or on one given address. This
project models, in Dafny, the logic that sits between the raw sockets, the
thread pools and the `ioctl` calls:

- the Ethernet II + ARP request frame that `generate_arp_request_packet`
  builds, the "Packet format" of RFC 826 behind a 14-byte Ethernet header;
- the reply test applied to every received frame;
- the receive loop of `arp_ping`, as a method over a `RawSocket` class whose
  pending receive events are given;
- the host enumeration of a CIDR block (section 3.1 of RFC 4632) and the
  responder collection of `scan_hosts`;
- the result of `scan_port` and the order-preserving filter of `scan_ports`;
- the default-route search over the lines of `/proc/net/route`, the 256-byte
  `ifreq` request, the reply slicing and the MAC text;
- the port list, host selection and port range parsers of the command line
  modes, and the control flow of `interactive_scan`, `full_auto_scan` and
  `scan_single_ip`.

Python behaviour the code relies on is modelled explicitly in `text.dfy` and
`common.dfy`: clipping slices, `str.isspace`, `strip`, `split(sep)`, `split()`,
`join`, `str.replace` (removing every occurrence of one character), `str(n)` of an integer, `int()` in base 10 and base 16 (sign, the surrounding whitespace
`int` itself skips, underscores between digits), `"%02x"`, `bytes.fromhex`, UTF-8 encoding and
`struct.pack("Ns")`.

Files: `common.dfy` (shared types), `text.dfy` (Python text built-ins),
`ipv4.dfy` (`inet_aton` / `inet_ntoa` and 32-bit addresses), `arp.dfy`,
`scan.dfy`, `iface.dfy`, `cli.dfy`.

Three behaviours of the code are easy to misread, and the model states them as
the code has them:

- `arp_ping` closes its socket only on its three `return` paths
  (arp.py:71-77). An exception from building the request (arp.py:59) or from
  the reply test (arp.py:67 and 69) leaves the socket open.
- A received ARP frame that is too short for the opcode (`struct.error` at
  arp.py:67), or an ARP reply too short for the sender address (`OSError`
  from `inet_ntoa` at arp.py:69), makes `arp_ping` raise. Only the socket
  timeout is caught, so such a frame is not turned into `False`.
- The route flag tested is bit 0x2 (iface.py:15). The comment beside it calls
  the bit "UP", but in the kernel's route flags it is RTF_GATEWAY. The model
  states the bit test.

## Model

| member | source | states |
|---|---|---|
| Arp.RequestLayout | arp.py:23-42 | With a 6-byte MAC the frame is 42 bytes: broadcast at 0..6, source MAC at 6..12, 08 06 at 12..14, htype 1 at 14..16, ptype 0x0800 at 16..18, hlen 6, plen 4, opcode 1 at 20..22, source MAC at 22..28, source IP at 28..32, zeros at 32..38, target IP at 38..42 |
| Arp.RequestFrame | arp.py:26-42 | The concatenation as written is 36 bytes plus the MAC's length; the MAC goes into the ARP payload cut or padded to six bytes by `"6s"` |
| Arp.RequestIsEncoding | arp.py:26-42 | With a 6-byte MAC the concatenated frame equals the encoding of the request's fields |
| Arp.DecodeEncode | arp.py:26-42 | Decoding the 42-byte encoding of any frame gives back every field |
| Arp.EncodeDecode | arp.py:26-42 | Re-encoding what is decoded from 42 or more bytes gives back the first 42 bytes |
| Arp.EncodeOffsets | arp.py:26-42 | Each field of an encoded frame sits at its fixed byte offset, the 16-bit fields big-endian |
| Arp.Encode | arp.py:26-42 | A valid frame's fields encode to exactly 42 bytes |
| Arp.Decode | arp.py:66-69 | The fields are read exactly from frames of 42 or more bytes, and what is read is a valid frame |
| Arp.UnpackU16 | arp.py:67 | `struct.unpack("!H")` succeeds exactly on two bytes, and then their value packs back to them; otherwise struct.error |
| Arp.U16RoundTrip | arp.py:26-35 | Unpacking a packed 16-bit value gives the value back |
| Arp.BuildArpRequest | arp.py:19-42 | The build succeeds exactly when the MAC text parses and both addresses parse. A bad MAC gives ValueError before anything else; then a bad source address, then a bad target address, each raises OSError, or ValueError when that text holds a NUL; on success the frame is 36 bytes plus the MAC's length |
| Arp.BuildRoundTrip | arp.py:19-42 | Decoding a built 6-byte-MAC request recovers both dotted quads, the MAC in both places, the broadcast destination, the zero target MAC, the ARP ethertype and opcode 1 |
| Arp.BuildFromInterface | arp.py:19-42 | Built from what the interface query reports, the request never fails and is the encoding of the request fields |
| Arp.MalformedTargetFails | arp.py:22 | A target such as `999.1.1.1` makes the build raise OSError |
| Arp.ReplyTest | arp.py:66-70 | A frame matches exactly when it holds 32 or more bytes, bytes 12..14 are 08 06, bytes 20..22 are 0 2 and the dotted quad of 28..32 is the target. It raises exactly when it is ARP but too short for the opcode (struct.error), or a reply too short for the sender address (OSError) |
| Arp.ReplyFromTarget | arp.py:66-70 | For a target given as a dotted quad, a match means an ARP reply whose sender address bytes are the target's bytes, and conversely |
| Arp.ReplyTestOnFields | arp.py:66-70 | On a full 42-byte frame the test never raises, and it matches exactly when the decoded ethertype is ARP, the opcode is 2 and the sender address is the target |
| Arp.RequestNeverMatches | arp.py:66-70 | The probe's own request (opcode 1, arp.py:35) is skipped by the reply test, whatever the target |
| Arp.Step | arp.py:64-78 | One event makes the loop return True exactly when it is a frame that passes the reply test; the loop goes on exactly after a skipped frame seen within the timeout; a receive timeout, or a skipped frame seen after the deadline, returns False; a frame whose test raises raises that error |
| Arp.Receive | arp.py:63-78 | The loop reads at most the events given. Every event before the last one read was a skipped frame before the deadline. When it stops early, or answers True or raises, the last event read decides the outcome |
| Arp.ReceiveStep | arp.py:63-78 | One turn of the loop: a deciding first event is the whole run, otherwise the run continues on the rest with one more event read |
| Arp.StopsAtFirstDecision | arp.py:63-72 | The loop returns at the first deciding event, having read exactly up to it, and whatever follows it changes nothing |
| Arp.Exhausted | arp.py:73-75 | With no deciding event every event is read and the receive timeout gives Unreachable |
| Arp.ReachableIffAnswered | arp.py:63-72 | The probe answers True exactly when a reply from the target arrives before any other deciding event (deadline, receive timeout, raising frame) |
| Arp.SilentTargetUnreachable | arp.py:63-78 | If no frame ever answers for the target, the probe never answers True |
| Arp.ShortArpFrameRaises | arp.py:66-67 | An ARP frame of 14 to 21 bytes reached before any other decision makes the probe raise struct.error, having read up to it |
| Arp.LateFrameUnreachable | arp.py:76-78 | A frame that is not the reply, seen after the deadline and before any other decision, makes the probe return False, having read up to it |
| Arp.RawSocket.Send | arp.py:60 | Sending appends the frame to what was sent and leaves pending events alone |
| Arp.RawSocket.Recv | arp.py:65 | Receiving takes the next pending event, or the receive timeout when none is left |
| Arp.RawSocket.Close | arp.py:71 | Closing (also at lines 74 and 77) marks the socket closed and changes nothing else |
| Arp.ArpPing | arp.py:45-78 | A failing build raises with nothing sent. Otherwise exactly the request is sent, the outcome is the loop's outcome over the events, exactly the events read are consumed, and the socket is closed exactly when the outcome is not an exception |
| Scan.NetworkAddress | scan.py:26 | Clearing the host bits gives an address at or below the base, within one block of it, aligned to the block size, with the whole block below 2^32 |
| Scan.Hosts | scan.py:27 | A block of prefix at most 30 has 2^(32-p) - 2 hosts: the network address plus 1, 2, … in ascending order |
| Scan.HostsAreUsableAddresses | scan.py:26-27 | An address is a host exactly when it lies in the block and is neither the block's network nor its broadcast address |
| Scan.HostIsUsable | scan.py:26-27 | Every host lies in the block and is neither the network nor the broadcast address |
| Scan.UsableIsHost | scan.py:26-27 | Every address of the block other than the network and broadcast addresses is a host |
| Scan.NetworkAddressIdempotent | scan.py:26 | Clearing host bits a second time changes nothing |
| Scan.HostBitsMasked | scan.py:26 | A base address with host bits set has the same hosts as its network address (`strict=False`) |
| Scan.SweepExamples | scan.py:26-27 | `192.168.1.5/24` sweeps 192.168.1.0/24 with 254 hosts; `192.168.1.0/30` has the hosts .1 and .2 |
| Scan.HostNamesDistinct | scan.py:21-23 | Distinct addresses have distinct `str(ip)` texts |
| Scan.ScanHosts | scan.py:7-29 | One probe per host of the block, in order. A host is recorded exactly when its probe answers True; nothing else is recorded; each host at most once |
| Scan.ProbeEach | scan.py:20-28 | The sequential run of the pool submits each address once in order and records those whose probe answers True |
| Scan.Responders | scan.py:20-23 | Never more addresses than were probed, and every recorded address answered True |
| Scan.RespondersMembership | scan.py:20-23 | An address is recorded exactly when it was probed and its probe answered True; a False or raising probe records nothing |
| Scan.RespondersDistinct | scan.py:20-23 | Probing distinct addresses records each responder at most once |
| Scan.SweepResult | scan.py:7-29 | The sweep's responders, stated on the hosts of the block: membership exactly for answering hosts, provenance, no repeats |
| Scan.ScanPort | scan.py:32-50 | The port comes back unchanged; it is open exactly when it is a valid port and the connect succeeds, any failure giving False |
| Scan.ScanPorts | scan.py:52-70 | A pool size below one raises ValueError; otherwise the result is the open ports of the list, in list order |
| Scan.OpenPortsInOrder | scan.py:64-70 | The open ports are a subsequence of the ports asked about |
| Scan.OpenPortsCount | scan.py:64-70 | Each open port appears as often as in the input and a closed one not at all, so duplicates are kept |
| Scan.PortSweepExample | scan.py:64-70 | Ports 22, 80, 81 with only 80 answering give `[80]` |
| Iface.ClassifyRoute | iface.py:13-16 | A line is the default route exactly when it has at least 11 fields, destination `00000000` and hex flags with bit 0x2 set, and the interface is its first field. It raises exactly when it has fewer than 11 fields, or has that destination and non-hex flags |
| Iface.Bit1 | iface.py:15 | `n & 2` is non-zero exactly when n mod 4 is 2 or 3, which reads a negative n in two's complement as Python does |
| Iface.FirstDefault | iface.py:12-17 | The only exception the search lets out is ValueError |
| Iface.DefaultRoute | iface.py:12-17 | The only exception reading the table lets out is ValueError |
| Iface.FoundOnSomeLine | iface.py:14-16 | An interface the search reports is the first field of a line that qualifies as the default route |
| Iface.GetDefaultIfaceName | iface.py:6-17 | The loop's result is the route search over the lines after the header |
| Iface.HeaderIgnored | iface.py:12 | Replacing the first line never changes the result |
| Iface.DecidedByFirstLine | iface.py:12-16 | The first line after the header that is not an ordinary route decides: its interface, or its error |
| Iface.NoDefaultRoute | iface.py:17 | With no qualifying and no malformed line the result is None |
| Iface.TabSeparatedRoute | iface.py:13-16 | A line as the kernel writes it and `readlines()` returns it (at least eleven whitespace-free fields joined by tabs, then space padding and the newline) is the default route exactly when its destination is `00000000` and its hex flags have bit 0x2 set; it raises ValueError when that destination comes with flags that are not hex |
| Iface.GatewayBit | iface.py:15 | The flag text `0003` (up, gateway) reads as 3 and qualifies; the test on a negative value reads two's complement |
| Iface.UpOnlyFlags | iface.py:15 | The flag text `0001` (up only) reads as 1 and does not qualify |
| Iface.FlagDigit | iface.py:15 | A flags field written `000` and one decimal digit reads as that digit's value |
| Iface.IfreqRequest | iface.py:49 | The request buffer (built again at line 56) is 256 bytes: the first at most 15 bytes of the UTF-8 name, then zeros |
| Iface.IfreqAsciiName | iface.py:49 | For an ASCII name the buffer holds its code points up to 15 and always a zero at byte 15 |
| Iface.IfaceInfo | iface.py:46-58 | The address is read exactly when the reply holds 24 bytes, and it is the dotted quad of bytes 20..24 (else OSError); the MAC text is formatted from bytes 18..24 |
| Iface.FormatMac | iface.py:58 | Split at its colons, the MAC text gives back the two-digit lower-case hex text of each byte, in order |
| Iface.MacRoundTrip | iface.py:58 | `bytes.fromhex(mac.replace(":", ""))`, the parse at arp.py:20, on the formatted MAC gives the bytes back |
| Iface.MacTextShape | iface.py:58 | The MAC text has 3n - 1 characters: two hex digits per byte, a colon between neighbours |
| Ipv4.InetNtoa | arp.py:69 | `inet_ntoa` formats exactly 4-byte values and raises OSError otherwise |
| Ipv4.InetAton | arp.py:22 | Every failure to read an address is OSError, except text holding a NUL, which is ValueError |
| Ipv4.EmbeddedNulRejected | arp.py:22 | `1.2.3.4` followed by a NUL raises ValueError, not OSError |
| Ipv4.SplitDottedQuad | arp.py:69 | `inet_ntoa` text is four fields separated by dots, each the decimal text of one byte in order |
| Ipv4.AtonNtoa | arp.py:21-22 | `inet_aton` reads the dotted quad of four bytes back as the same bytes |
| Ipv4.NtoaAton | arp.py:21-22 | Text that `inet_aton` accepts is the dotted quad of what it returns |
| Ipv4.DottedQuadInjective | arp.py:69-70 | Two 4-byte values print the same exactly when they are equal |
| Ipv4.AddrToStringInjective | scan.py:21-23 | `str(ip)` of different addresses differ |
| Ipv4.MalformedAddressRejected | arp.py:22 | `999.1.1.1` raises OSError |
| PyText.ParseInt | cli.py:52 | `int(s)` skips only its own whitespace (not U+001C..U+001F), then reads an optional sign and decimal digit groups; every failure is ValueError |
| PyText.ParseHex | iface.py:15 | `int(s, 16)`: every failure is ValueError |
| PyText.ParseHexDigits | iface.py:15 | Plain hexadecimal digits (no sign, prefix, underscore or whitespace) parse to their base-16 value |
| PyText.ParseIntRoundTrip | cli.py:28 | `int(str(n)) == n` for every integer, and `str(n)` has no whitespace for `strip()` to remove |
| PyText.IntIgnoresStrip | cli.py:28 | After `strip()`, `int` finds no whitespace of its own left to skip; for text without the separators U+001C..U+001F, `int(s.strip()) == int(s)` |
| PyText.SeparatorControlNotSkipped | cli.py:52 | `int("\x1c5")` raises ValueError while `int("\x1c5".strip())` is 5: `strip()` removes U+001C but `int` does not |
| PyText.Strip | cli.py:22 | The stripped text is never longer and has no whitespace left at either end |
| PyText.StripIdempotent | cli.py:22 | Stripping twice strips nothing more |
| PyText.StripTrims | cli.py:22 | The stripped text is a contiguous piece with only whitespace removed on either side and none left at its ends |
| PyText.Split | cli.py:28 | `split(sep)` gives at least one field and no field holds the separator |
| PyText.SplitJoin | cli.py:28 | Splitting separator-free fields joined by the separator gives the fields back |
| PyText.JoinSplit | cli.py:28 | Joining the fields of a split gives the text back |
| PyText.Words | iface.py:13 | Every word of `split()` is non-empty and holds no whitespace |
| PyText.WordsJoin | iface.py:13 | Non-empty whitespace-free fields joined by one whitespace character, followed by any run of whitespace, come back out of `split()` |
| PyText.FromHex | arp.py:20 | Every failure is ValueError, and a success yields at most one byte per two characters |
| PyText.Utf8Encode | iface.py:49 | UTF-8 takes one to four bytes per character |
| Common.PySlice | arp.py:66 | `s[i:j]` clips both bounds to the length: it is `s[i..j]` when both lie inside, shorter otherwise, never an error, and its k-th element is `s[i + k]` |
| Common.PackFixed | arp.py:29-40 | `struct.pack("Ns", b)` is exactly n bytes: those of b that fit, then zeros |
| PyText.FromHexRoundTrip | arp.py:20 | `bytes.fromhex` of the lower-case hex text of some bytes gives the bytes back |
| Cli.ParseFields | cli.py:28 | A converted list has one value per field, and a failure is the failure of one of the fields |
| Cli.ParseFieldsMeaning | cli.py:28 | A list comprehension of `int` succeeds exactly when every field converts, holds their values in order, and its failure is the failure of the first field that does not convert |
| Cli.StrippedInt | cli.py:22 | `int(x.strip())`: every failure is ValueError |
| Cli.ParseIntList | cli.py:28 | `int(p.strip())` of each comma-separated field (the same parse at line 43), one integer per field; any failure is ValueError |
| Cli.IntListRoundTrip | cli.py:28 | A comma-separated list of printed integers reads back as the same list |
| Cli.Pick | cli.py:22-23 | Entries are accepted exactly when 1 - len <= n <= len; each picks `active[n - 1]`, counting from the end when n <= 0, in input order with repeats |
| Cli.SelectHosts | cli.py:21-26 | A non-integer entry is invalid input; otherwise the result is the pick of the parsed numbers |
| Cli.SelectByNumbers | cli.py:21-26 | Typing 1-based positions selects those hosts in the typed order, repeats included |
| Cli.NonPositiveCountsFromEnd | cli.py:22-23 | 0 and negative entries down to 1 - len are accepted and count from the end; 0 picks the last host |
| Cli.OutOfRangeRejected | cli.py:23-26 | An entry beyond the list or below 1 - len is invalid input |
| Cli.SelectAll | cli.py:21-26 | Selecting 1 up to the number of hosts selects exactly the full automatic mode's hosts |
| Cli.Range | cli.py:53 | `range(a, b)` has b - a entries (none when b <= a), the k-th being a + k |
| Cli.ParsePortRange | cli.py:52-53 | `int` of each `-`-separated field, with no `strip()`; every failure of the range parse is ValueError |
| Cli.PortRangeMeaning | cli.py:52-53 | The range parses exactly when the text has two `-`-separated fields that are both integers, and it then runs from the first to the second inclusive |
| Cli.PortRangeInclusive | cli.py:52-53 | `a-b` for non-negative a, b is the b - a + 1 ports from a to b, or none when b < a |
| Cli.NegativeStartRejected | cli.py:52 | `-1-5` has three fields and raises ValueError |
| Cli.ReportsFor | cli.py:44-47 | One report per host (the loop at lines 29-32 too), in order, each with that host's open ports over the same port list |
| Cli.ReportsInOrder | cli.py:44-47 | Every report lists only ports that were asked about, in the order asked |
| Cli.ScanEach | cli.py:29-32 | The loop over hosts (also at lines 44-47) produces the reports of each host in turn |
| Cli.InteractiveScan | cli.py:3-32 | No responders ends the session before any prompt; a bad selection is invalid input with no port scan; a bad port list escapes as ValueError; otherwise the selected hosts' ports are scanned in selection order |
| Cli.FullAutoScan | cli.py:35-47 | No responders ends the session; a bad port list raises ValueError; otherwise every responder is port-scanned in order with the same list |
| Cli.ScanSingleIp | cli.py:50-56 | A bad range or a pool size below one raises ValueError; otherwise the result is the open ports of the inclusive range |
| Cli.RangeScanAscending | cli.py:52-56 | The ports a range scan reports lie in the range and ascend strictly |

## Left out

- Raw socket I/O: creating, binding and `settimeout` on the raw socket are not modelled. The events it delivers are a parameter, and so is the clock reading after each frame. The receive timeout is the event that ends the list.
- `time.time()`: the start reading is a parameter and each received frame carries its own clock reading. The clock readings and `timeout` are integers in the model, while `time.time()` and the timeout are floats in the source; the model states the same `now - start > timeout` comparison on the values it is given.
- `recv(65535)` truncation of frames longer than 65535 bytes is not modelled.
- Thread pools: both sweeps run sequentially, which is one schedule the pools allow. The concurrency bound of 50 workers, the completion order of `scan_hosts` and the thread-safety of `list.append` are not modelled. A pool size below one is modelled: it raises ValueError.
- Scan.ScanHosts: records the responders in probe order. The source records them in completion order, so only the membership, provenance and no-repeat clauses hold for every schedule.
- `arp_ping` and the TCP connect are oracles (`ping`, `connect`). Inside `scan_hosts` the probe's exception is one of its outcomes, and it records nothing.
- Scan.OpenPortsCount: the `connect` oracle is a function, so a port listed twice is assumed to get the same answer both times; the source probes it twice and the two answers may differ. The same assumption covers a host selected twice in `Cli.ReportsFor` and Cli.InteractiveScan, and a host probed twice by `ping`.
- `ipaddress.IPv4Network` text parsing: the CIDR is taken already parsed as a 32-bit base and a prefix. Hosts and the sweep require a prefix of at most 30, because `hosts()` for /31 and /32 differs between Python versions.
- Ipv4.InetAton: accepts only canonical dotted quads (one to three digits per field, no leading zeros, each at most 255). Any non-canonical text without a NUL that glibc's `inet_aton` also accepts is treated as OSError; examples are the shorthand, octal and hexadecimal forms and a dotted quad followed by whitespace and further text.
- `int()` accepts non-ASCII Unicode digits; the model accepts only ASCII digits.
- PyText.ParseInt: does not model the limit of 4300 digits that Python 3.11 and later (and the security releases of 3.7 to 3.10) put on `int()` of a decimal string. Such a string raises ValueError there but is read in the model. The limit depends on the interpreter's version and settings, which the source does not fix.
- PyText.ParseIntRoundTrip: for the same reason, in those versions `str(n)` of an integer with more than 4300 digits raises ValueError. The lemma states the round trip for every integer.
- `fcntl.ioctl` and opening `/proc/net/route`: the reply buffers and the file's lines are parameters.
- `print` and `input`: the typed selection and the port texts are parameters. The printed lines are the session's outcome.
- `get_iface_info_by_name` and its sockets: the interface's address and MAC text are parameters of the request builder.
- main.py: argument parsing and dispatch are not part of this model.
