/** Interface discovery: choosing the default interface from the lines of
    the kernel routing table, the `ifreq` request buffer handed to the
    address queries, the slices taken out of their replies, and the MAC text
    built from those bytes. Opening the routing table and the `ioctl` calls
    themselves are outside the model: their contents are parameters. */
module Iface {
  import opened Common
  import opened PyText
  import opened Ipv4

  // ---------------------------------------------------------------------
  // Default route
  // ---------------------------------------------------------------------

  /** What one routing-table line contributes to the search. */
  datatype RouteVerdict =
    | DefaultVia(iface: string)   // destination 00000000 with flag bit 0x2 set
    | OtherRoute                  // well-formed, but not the route searched for
    | Malformed(error: PyError)   // unpacking or `int(flags, 16)` raises

  /** `int(flags, 16) & 2` is non-zero. Python's `&` on a negative integer
      works on its infinite two's complement; Dafny's `/` and `%` round
      towards minus infinity for a positive divisor, which reads the same bit. */
  predicate Bit1(n: int)
    ensures Bit1(n) <==> n % 4 == 2 || n % 4 == 3
  {
    (n / 2) % 2 == 1
  }

  /** The test applied to one line after the header. The line is split on
      whitespace (stripping it first changes nothing); fewer than eleven
      fields fail the unpacking, and the flags are only parsed when the
      destination matches, because `and` short-circuits. */
  function ClassifyRoute(line: string): (v: RouteVerdict)
    ensures v.DefaultVia? <==> (|Words(line)| >= 11 && Words(line)[1] == "00000000" &&
                                ParseHex(Words(line)[3]).Ok? && Bit1(ParseHex(Words(line)[3]).value))
    ensures v.DefaultVia? ==> v.iface == Words(line)[0]
    ensures v.Malformed? <==> |Words(line)| < 11 || (Words(line)[1] == "00000000" && ParseHex(Words(line)[3]).Err?)
    ensures v.Malformed? ==> v.error == ValueError
  {
    var parts := Words(line);
    if |parts| < 11 then Malformed(ValueError)
    else if parts[1] != "00000000" then OtherRoute
    else match ParseHex(parts[3])
      case Err(e) => Malformed(e)
      case Ok(flags) => if Bit1(flags) then DefaultVia(parts[0]) else OtherRoute
  }

  /** The first line with a verdict other than OtherRoute decides. */
  function FirstDefault(lines: seq<string>): (r: Result<Option<string>>)
    ensures r.Err? ==> r.error == ValueError
  {
    if lines == [] then Ok(None)
    else match ClassifyRoute(lines[0])
      case DefaultVia(name) => Ok(Some(name))
      case Malformed(e) => Err(e)
      case OtherRoute => FirstDefault(lines[1..])
  }

  /** The result of the search over the lines of the routing table; the
      first line is the column header and is never examined. */
  function DefaultRoute(lines: seq<string>): (r: Result<Option<string>>)
    ensures r.Err? ==> r.error == ValueError
  {
    if |lines| <= 1 then Ok(None) else FirstDefault(lines[1..])
  }

  /** `get_default_iface_name`, given the lines `readlines()` returns. */
  method GetDefaultIfaceName(lines: seq<string>) returns (r: Result<Option<string>>)
    ensures r == DefaultRoute(lines)
  {
    if |lines| <= 1 {
      return Ok(None);
    }
    var i := 1;
    while i < |lines|
      invariant 1 <= i <= |lines|
      invariant DefaultRoute(lines) == FirstDefault(lines[i..])
    {
      assert lines[i..][1..] == lines[i + 1..];
      var parts := Words(lines[i]);
      if |parts| < 11 {
        return Err(ValueError);
      }
      var name, dest, flags := parts[0], parts[1], parts[3];
      if dest == "00000000" {
        var value := ParseHex(flags);
        if value.Err? {
          return Err(value.error);
        }
        if Bit1(value.value) {
          return Ok(Some(name));
        }
      }
      i := i + 1;
    }
    return Ok(None);
  }

  /** Replacing the header line never changes the answer. */
  lemma HeaderIgnored(lines: seq<string>, header: string)
    requires |lines| >= 1
    ensures DefaultRoute([header] + lines[1..]) == DefaultRoute(lines)
  {
    assert ([header] + lines[1..])[1..] == lines[1..];
  }

  /** The answer is decided by the first line (after the header) whose
      verdict is not OtherRoute: its interface, or its error. */
  lemma {:induction false} DecidedByFirstLine(lines: seq<string>, k: nat)
    requires k < |lines| && ClassifyRoute(lines[k]) != OtherRoute
    requires forall j :: 0 <= j < k ==> ClassifyRoute(lines[j]) == OtherRoute
    ensures FirstDefault(lines) == match ClassifyRoute(lines[k])
                                   case DefaultVia(name) => Ok(Some(name))
                                   case Malformed(e) => Err(e)
                                   case OtherRoute => Ok(None)
  {
    if k > 0 {
      var rest := lines[1..];
      assert rest[k - 1] == lines[k];
      assert forall j :: 0 <= j < k - 1 ==> rest[j] == lines[j + 1];
      DecidedByFirstLine(rest, k - 1);
      assert ClassifyRoute(lines[0]) == OtherRoute;
    }
  }

  /** An interface the search reports is the first field of a line that
      qualifies as the default route. */
  lemma {:induction false} FoundOnSomeLine(lines: seq<string>)
    requires FirstDefault(lines).Ok? && FirstDefault(lines).value.Some?
    ensures exists k :: 0 <= k < |lines| && ClassifyRoute(lines[k]) == DefaultVia(FirstDefault(lines).value.value)
  {
    if ClassifyRoute(lines[0]).OtherRoute? {
      FoundOnSomeLine(lines[1..]);
      var k :| 0 <= k < |lines| - 1 && ClassifyRoute(lines[1..][k]) == DefaultVia(FirstDefault(lines).value.value);
      assert lines[1..][k] == lines[k + 1];
    }
  }

  /** With no qualifying and no malformed line the result is None. */
  lemma {:induction false} NoDefaultRoute(lines: seq<string>)
    requires forall j :: 0 <= j < |lines| ==> ClassifyRoute(lines[j]) == OtherRoute
    ensures FirstDefault(lines) == Ok(None)
  {
    if lines != [] {
      NoDefaultRoute(lines[1..]);
    }
  }

  /** A line as the kernel writes it, whitespace-free fields separated by
      tabs and followed by space padding and the newline that `readlines()`
      keeps, is classified by its destination and flags fields: the default
      route exactly when the destination is 00000000 and the hex flags have
      bit 0x2 set (the kernel's RTF_GATEWAY bit), malformed when that
      destination comes with flags that are not hex. */
  lemma TabSeparatedRoute(fields: seq<string>, pad: string)
    requires |fields| >= 11
    requires forall k :: 0 <= k < |fields| ==> fields[k] != [] && forall m :: 0 <= m < |fields[k]| ==> !IsSpace(fields[k][m])
    requires forall k :: 0 <= k < |pad| ==> IsSpace(pad[k])
    ensures ClassifyRoute(Join(fields, '\t') + pad) ==
              if fields[1] != "00000000" then OtherRoute
              else if ParseHex(fields[3]).Err? then Malformed(ValueError)
              else if Bit1(ParseHex(fields[3]).value) then DefaultVia(fields[0])
              else OtherRoute
  {
    WordsJoin(fields, '\t', pad);
  }

  /** The flag bit tested is 0x2: flags 0003 (up, gateway) qualify, and a
      negative value is read in two's complement. */
  lemma GatewayBit()
    ensures ParseHex("0003") == Ok(3) && Bit1(3)
    ensures Bit1(-2)
  {
    FlagDigit('3');
    assert "000" + ['3'] == "0003";
  }

  /** Flags 0001 (up, no gateway) do not qualify. */
  lemma UpOnlyFlags()
    ensures ParseHex("0001") == Ok(1) && !Bit1(1)
  {
    FlagDigit('1');
    assert "000" + ['1'] == "0001";
  }

  /** A four-digit flags field `000d` reads as the digit's value. */
  lemma FlagDigit(d: char)
    requires IsDigit(d)
    ensures ParseHex("000" + [d]) == Ok(d as int - '0' as int)
  {
    var s := "000" + [d];
    assert AllDigits(s, 16) by {
      forall k | 0 <= k < |s|
        ensures IsHexDigit(s[k])
      {
      }
    }
    ParseHexDigits(s);
    assert s[..3] == "000";
    assert "000"[..2] == "00" && "00"[..1] == "0" && "0"[..0] == "";
  }

  // ---------------------------------------------------------------------
  // ifreq buffers
  // ---------------------------------------------------------------------

  /** `struct.pack("256s", name.encode("utf-8")[:15])`: at most fifteen
      bytes of the encoded name, then zeros up to 256 bytes. */
  function IfreqRequest(name: string): (r: seq<byte>)
    ensures |r| == 256
    ensures forall k :: 0 <= k < 256 ==> r[k] == if k < 15 && k < |Utf8Encode(name)| then Utf8Encode(name)[k] else 0
  {
    PackFixed(PySlice(Utf8Encode(name), 0, 15), 256)
  }

  /** For an ASCII name the buffer holds the name's code points (cut at
      fifteen characters) and always a terminating zero at byte 15. */
  lemma IfreqAsciiName(name: string)
    requires forall k :: 0 <= k < |name| ==> name[k] as int < 0x80
    ensures forall k :: 0 <= k < 15 && k < |name| ==> IfreqRequest(name)[k] == name[k] as int
    ensures forall k :: |name| <= k < 256 ==> IfreqRequest(name)[k] == 0
    ensures IfreqRequest(name)[15] == 0
  {
    Utf8Ascii(name);
  }

  /** The two-hex-digit texts of the bytes, in order. */
  function HexPairs(b: seq<byte>): (r: seq<string>)
    ensures |r| == |b|
    ensures forall k :: 0 <= k < |b| ==> r[k] == Hex2(b[k])
  {
    if b == [] then [] else [Hex2(b[0])] + HexPairs(b[1..])
  }

  /** `":".join("%02x" % b for b in mac)`: split at the colons, the text
      gives back the two-digit text of each byte. */
  function FormatMac(b: seq<byte>): (r: string)
    ensures b != [] ==> Split(r, ':') == HexPairs(b)
  {
    var parts := HexPairs(b);
    if b == [] then Join(parts, ':')
    else
      assert forall k :: 0 <= k < |parts| ==> parts[k] == [parts[k][0], parts[k][1]];
      SplitJoin(parts, ':');
      Join(parts, ':')
  }

  /** The address and MAC the two queries report, taken from reply bytes
      20..24 and 18..24. A reply too short for the address makes
      `inet_ntoa` raise. */
  function IfaceInfo(addrReply: seq<byte>, hwReply: seq<byte>): (r: Result<(string, string)>)
    ensures r.Ok? <==> |addrReply| >= 24
    ensures r.Err? ==> r.error == OSError
    ensures r.Ok? ==> InetAton(r.value.0) == Ok(addrReply[20..24])
    ensures r.Ok? ==> r.value.1 == FormatMac(PySlice(hwReply, 18, 24))
  {
    match InetNtoa(PySlice(addrReply, 20, 24))
    case Err(e) => Err(e)
    case Ok(ip) =>
      AtonNtoa(addrReply[20..24]);
      Ok((ip, FormatMac(PySlice(hwReply, 18, 24))))
  }

  /** `"".join(parts)` */
  function Concat(parts: seq<string>): string
  {
    if parts == [] then [] else parts[0] + Concat(parts[1..])
  }

  lemma {:induction false} RemoveAllAppend(a: string, b: string, c: char)
    ensures RemoveAll(a + b, c) == RemoveAll(a, c) + RemoveAll(b, c)
  {
    if a != [] {
      assert (a + b)[1..] == a[1..] + b;
      RemoveAllAppend(a[1..], b, c);
    } else {
      assert a + b == b;
    }
  }

  lemma {:induction false} RemoveAllJoin(parts: seq<string>, c: char)
    requires forall k :: 0 <= k < |parts| ==> c !in parts[k]
    ensures RemoveAll(Join(parts, c), c) == Concat(parts)
  {
    if |parts| == 1 {
      RemoveAllNone(parts[0], c);
      assert Concat(parts) == parts[0] + [];
    } else if |parts| > 1 {
      RemoveAllJoin(parts[1..], c);
      RemoveAllAppend(parts[0] + [c], Join(parts[1..], c), c);
      RemoveAllAppend(parts[0], [c], c);
      RemoveAllNone(parts[0], c);
      assert RemoveAll([c], c) == [];
    }
  }

  lemma {:induction false} ConcatHexPairs(b: seq<byte>)
    ensures Concat(HexPairs(b)) == HexString(b)
  {
    if b != [] {
      ConcatHexPairs(b[1..]);
      assert HexPairs(b)[1..] == HexPairs(b[1..]);
    }
  }

  /** The MAC text is read back to the same bytes by the parsing the frame
      builder does, `bytes.fromhex(mac.replace(":", ""))`. */
  lemma MacRoundTrip(b: seq<byte>)
    ensures FromHex(RemoveAll(FormatMac(b), ':')) == Ok(b)
  {
    var parts := HexPairs(b);
    forall k | 0 <= k < |parts| ensures ':' !in parts[k] {
      var h := parts[k];
      assert h == [h[0], h[1]];
    }
    RemoveAllJoin(parts, ':');
    ConcatHexPairs(b);
    FromHexRoundTrip(b);
  }

  /** The text of a 6-byte MAC is 17 characters: two lower-case hex digits
      per octet with a colon between neighbours. */
  lemma {:induction false} MacTextShape(b: seq<byte>)
    requires |b| >= 1
    ensures |FormatMac(b)| == 3 * |b| - 1
    ensures forall i :: 0 <= i < |b| ==> FormatMac(b)[3 * i..3 * i + 2] == Hex2(b[i])
    ensures forall i :: 0 <= i < |b| - 1 ==> FormatMac(b)[3 * i + 2] == ':'
  {
    if |b| > 1 {
      MacTextShape(b[1..]);
      var rest := FormatMac(b[1..]);
      assert HexPairs(b)[1..] == HexPairs(b[1..]);
      var m := FormatMac(b);
      assert m == Hex2(b[0]) + [':'] + rest;
      assert |Hex2(b[0])| == 2 && m[3..] == rest;
      forall i | 1 <= i < |b| ensures m[3 * i..3 * i + 2] == Hex2(b[i]) {
        assert m[3 * i..3 * i + 2] == rest[3 * (i - 1)..3 * (i - 1) + 2];
      }
      forall i | 1 <= i < |b| - 1 ensures m[3 * i + 2] == ':' {
        assert m[3 * i + 2] == rest[3 * (i - 1) + 2];
      }
    }
  }
}
