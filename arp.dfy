/** ARP discovery: the Ethernet II + ARP request frame, the test that picks
    the reply for the probed address out of whatever arrives on the raw
    socket, and the probe's receive loop. The frame layout is the "Packet
    format" of RFC 826 behind a 14-byte Ethernet II header. */
module Arp {
  import opened Common
  import opened PyText
  import opened Ipv4
  import opened Iface

  type Mac = s: seq<byte> | |s| == 6 witness [0, 0, 0, 0, 0, 0]

  const BROADCAST: Mac := [0xff, 0xff, 0xff, 0xff, 0xff, 0xff]
  const ETHERTYPE_ARP := 0x0806
  const HTYPE_ETHERNET := 1
  const PTYPE_IPV4 := 0x0800
  const OP_REQUEST := 1
  const OP_REPLY := 2

  // ---------------------------------------------------------------------
  // Big-endian 16-bit fields
  // ---------------------------------------------------------------------

  /** `struct.pack("!H", v)` */
  function U16(v: nat): (r: seq<byte>)
    requires v < 0x1_0000
    ensures |r| == 2
  {
    [v / 0x100, v % 0x100]
  }

  /** The value of two bytes read most significant first. */
  function Be16(hi: byte, lo: byte): nat
  {
    (hi as int) * 0x100 + lo as int
  }

  lemma Be16Parts(hi: byte, lo: byte)
    ensures Be16(hi, lo) < 0x1_0000 && Be16(hi, lo) / 0x100 == hi && Be16(hi, lo) % 0x100 == lo
  {
  }

  lemma U16OfBe16(hi: byte, lo: byte)
    ensures U16(Be16(hi, lo)) == [hi, lo]
  {
    Be16Parts(hi, lo);
  }

  /** `struct.unpack("!H", b)[0]`, which insists on exactly two bytes. */
  function UnpackU16(b: seq<byte>): (r: Result<nat>)
    ensures r.Ok? <==> |b| == 2
    ensures r.Ok? ==> r.value < 0x1_0000 && U16(r.value) == b
    ensures r.Err? ==> r.error == StructError
  {
    if |b| == 2 then
      Be16Parts(b[0], b[1]);
      Ok(Be16(b[0], b[1]))
    else Err(StructError)
  }

  lemma U16RoundTrip(v: nat)
    requires v < 0x1_0000
    ensures UnpackU16(U16(v)) == Ok(v)
  {
  }

  // ---------------------------------------------------------------------
  // The frame as fields
  // ---------------------------------------------------------------------

  /** The fields of an Ethernet II frame carrying an ARP packet for IPv4
      over Ethernet. */
  datatype ArpFrame = ArpFrame(
    dst: Mac, src: Mac, etherType: nat,
    htype: nat, ptype: nat, hlen: byte, plen: byte, oper: nat,
    sha: Mac, spa: Ip4Bytes, tha: Mac, tpa: Ip4Bytes)
  {
    predicate Valid()
    {
      etherType < 0x1_0000 && htype < 0x1_0000 && ptype < 0x1_0000 && oper < 0x1_0000
    }
  }

  /** The 42 bytes of a frame: 14 of Ethernet header, 28 of ARP payload. */
  function Encode(f: ArpFrame): (r: seq<byte>)
    requires f.Valid()
    ensures |r| == 42
  {
    f.dst + f.src + U16(f.etherType)
    + U16(f.htype) + U16(f.ptype) + [f.hlen, f.plen] + U16(f.oper)
    + f.sha + f.spa + f.tha + f.tpa
  }

  /** Reads the fields back from the first 42 bytes of a received frame
      (what follows, such as Ethernet padding, is ignored); a shorter frame
      has no ARP payload to read. */
  function Decode(b: seq<byte>): (r: Option<ArpFrame>)
    ensures r.Some? <==> |b| >= 42
    ensures r.Some? ==> r.value.Valid()
  {
    if |b| < 42 then None
    else Some(ArpFrame(
      b[0..6], b[6..12], Be16(b[12], b[13]),
      Be16(b[14], b[15]), Be16(b[16], b[17]), b[18], b[19], Be16(b[20], b[21]),
      b[22..28], b[28..32], b[32..38], b[38..42]))
  }

  /** Where each field sits in the 42 bytes. */
  lemma EncodeOffsets(f: ArpFrame)
    requires f.Valid()
    ensures var b := Encode(f);
      && b[0..6] == f.dst && b[6..12] == f.src && b[12..14] == U16(f.etherType)
      && b[14..16] == U16(f.htype) && b[16..18] == U16(f.ptype) && b[18] == f.hlen && b[19] == f.plen
      && b[20..22] == U16(f.oper)
      && b[22..28] == f.sha && b[28..32] == f.spa && b[32..38] == f.tha && b[38..42] == f.tpa
  {
    var b := Encode(f);
    var head := f.dst + f.src + U16(f.etherType) + U16(f.htype) + U16(f.ptype) + [f.hlen, f.plen] + U16(f.oper);
    var tail := f.sha + f.spa + f.tha + f.tpa;
    assert b == head + tail && |head| == 22;
    assert b[..22] == head && b[22..] == tail;
  }

  lemma Be16OfU16(v: nat)
    requires v < 0x1_0000
    ensures Be16(U16(v)[0], U16(v)[1]) == v
  {
  }

  lemma DecodeEncode(f: ArpFrame)
    requires f.Valid()
    ensures Decode(Encode(f)) == Some(f)
  {
    var b := Encode(f);
    EncodeOffsets(f);
    Be16OfU16(f.etherType);
    Be16OfU16(f.htype);
    Be16OfU16(f.ptype);
    Be16OfU16(f.oper);
    assert b[12] == b[12..14][0] && b[13] == b[12..14][1] && b[14] == b[14..16][0] && b[15] == b[14..16][1];
    assert b[16] == b[16..18][0] && b[17] == b[16..18][1] && b[20] == b[20..22][0] && b[21] == b[20..22][1];
  }

  lemma EncodeDecode(b: seq<byte>)
    requires |b| >= 42
    ensures Encode(Decode(b).value) == b[..42]
  {
    var f := Decode(b).value;
    U16OfBe16(b[12], b[13]);
    U16OfBe16(b[14], b[15]);
    U16OfBe16(b[16], b[17]);
    U16OfBe16(b[20], b[21]);
    var head := b[0..6] + b[6..12] + b[12..14] + b[14..16] + b[16..18] + b[18..20] + b[20..22];
    assert head == b[..22];
    var tail := b[22..28] + b[28..32] + b[32..38] + b[38..42];
    assert tail == b[22..42];
    assert Encode(f) == head + tail;
    assert b[..42] == b[..22] + b[22..42];
  }

  // ---------------------------------------------------------------------
  // The request frame
  // ---------------------------------------------------------------------

  /** The fields of the request that asks who holds `target`, sent from
      `mac` / `ip`: broadcast, ARP ethertype, Ethernet/IPv4 with lengths 6
      and 4, opcode 1, unknown (zero) target hardware address. */
  function RequestFields(mac: Mac, ip: Ip4Bytes, target: Ip4Bytes): (f: ArpFrame)
    ensures f.Valid()
  {
    ArpFrame(BROADCAST, mac, ETHERTYPE_ARP, HTYPE_ETHERNET, PTYPE_IPV4, 6, 4, OP_REQUEST,
             mac, ip, Zeros(6), target)
  }

  /** The frame as `generate_arp_request_packet` concatenates it from the
      converted inputs. The source MAC is used as decoded in the Ethernet
      header but packed with `"6s"` (cut or zero-padded to six bytes) in
      the ARP payload, so only a 6-byte MAC gives the 42-byte layout. */
  function RequestFrame(mac: seq<byte>, ip: Ip4Bytes, target: Ip4Bytes): (r: seq<byte>)
    ensures |r| == 36 + |mac|
  {
    BROADCAST + mac + U16(ETHERTYPE_ARP)
    + U16(HTYPE_ETHERNET) + U16(PTYPE_IPV4) + [6, 4] + U16(OP_REQUEST)
    + PackFixed(mac, 6) + ip + Zeros(6) + target
  }

  /** With a 6-byte MAC the concatenated frame is the encoding of the
      request's fields. */
  lemma RequestIsEncoding(mac: Mac, ip: Ip4Bytes, target: Ip4Bytes)
    ensures RequestFrame(mac, ip, target) == Encode(RequestFields(mac, ip, target))
  {
    assert PackFixed(mac, 6) == mac;
  }

  /** Byte offsets of every field of the request built from a 6-byte MAC. */
  lemma RequestLayout(mac: Mac, ip: Ip4Bytes, target: Ip4Bytes)
    ensures var r := RequestFrame(mac, ip, target);
      && |r| == 42
      && r[0..6] == BROADCAST && r[6..12] == mac && r[12..14] == [0x08, 0x06]
      && r[14..16] == [0, 1] && r[16..18] == [0x08, 0x00] && r[18] == 6 && r[19] == 4
      && r[20..22] == [0, 1]
      && r[22..28] == mac && r[28..32] == ip && r[32..38] == Zeros(6) && r[38..42] == target
  {
    RequestIsEncoding(mac, ip, target);
    DecodeEncode(RequestFields(mac, ip, target));
  }

  /** `generate_arp_request_packet(target_ip)` with the interface's address
      and MAC text given: the MAC text is parsed with
      `bytes.fromhex(mac.replace(":", ""))`, then both addresses with
      `inet_aton`, each failure raising before anything is built. */
  function BuildArpRequest(targetIp: string, srcIp: string, srcMac: string): (r: Result<seq<byte>>)
    ensures r.Ok? <==> FromHex(RemoveAll(srcMac, ':')).Ok? && InetAton(srcIp).Ok? && InetAton(targetIp).Ok?
    ensures FromHex(RemoveAll(srcMac, ':')).Err? ==> r == Err(ValueError)
    ensures FromHex(RemoveAll(srcMac, ':')).Ok? && InetAton(srcIp).Err? ==>
              r == Err(if '\0' in srcIp then ValueError else OSError)
    ensures FromHex(RemoveAll(srcMac, ':')).Ok? && InetAton(srcIp).Ok? && InetAton(targetIp).Err? ==>
              r == Err(if '\0' in targetIp then ValueError else OSError)
    ensures r.Ok? ==> |r.value| == 36 + |FromHex(RemoveAll(srcMac, ':')).value|
  {
    match FromHex(RemoveAll(srcMac, ':'))
    case Err(e) => Err(e)
    case Ok(mac) =>
      match InetAton(srcIp)
      case Err(e) => Err(e)
      case Ok(ip) =>
        match InetAton(targetIp)
        case Err(e) => Err(e)
        case Ok(target) => Ok(RequestFrame(mac, ip, target))
  }

  /** Decoding a built request recovers the inputs: both dotted quads, the
      MAC in both places, the zero target MAC and the request opcode. */
  lemma BuildRoundTrip(targetIp: string, srcIp: string, srcMac: string)
    requires BuildArpRequest(targetIp, srcIp, srcMac).Ok?
    requires |FromHex(RemoveAll(srcMac, ':')).value| == 6
    ensures var f := Decode(BuildArpRequest(targetIp, srcIp, srcMac).value);
      && f.Some?
      && DottedQuad(f.value.spa) == srcIp && DottedQuad(f.value.tpa) == targetIp
      && f.value.src == f.value.sha == FromHex(RemoveAll(srcMac, ':')).value
      && f.value.dst == BROADCAST && f.value.tha == Zeros(6)
      && f.value.etherType == ETHERTYPE_ARP && f.value.oper == OP_REQUEST
  {
    var mac: Mac := FromHex(RemoveAll(srcMac, ':')).value;
    var ip, target := InetAton(srcIp).value, InetAton(targetIp).value;
    RequestIsEncoding(mac, ip, target);
    DecodeEncode(RequestFields(mac, ip, target));
    NtoaAton(srcIp);
    NtoaAton(targetIp);
  }

  /** Built from what the interface query reports (a dotted quad from
      `inet_ntoa`, MAC text from the `%02x` join), the request never fails
      and is the 42-byte encoding of the request fields. */
  lemma BuildFromInterface(target: Ip4Bytes, ip: Ip4Bytes, mac: Mac)
    ensures BuildArpRequest(DottedQuad(target), DottedQuad(ip), FormatMac(mac))
            == Ok(Encode(RequestFields(mac, ip, target)))
  {
    MacRoundTrip(mac);
    AtonNtoa(ip);
    AtonNtoa(target);
    RequestIsEncoding(mac, ip, target);
  }

  /** A malformed target address fails the build, so nothing is sent. */
  lemma MalformedTargetFails(ip: Ip4Bytes, mac: Mac)
    ensures BuildArpRequest("999.1.1.1", DottedQuad(ip), FormatMac(mac)) == Err(OSError)
  {
    MacRoundTrip(mac);
    AtonNtoa(ip);
    MalformedAddressRejected();
  }

  // ---------------------------------------------------------------------
  // The reply test
  // ---------------------------------------------------------------------

  /** What the receive loop does with one received frame. */
  datatype Verdict = Match | Skip | Raises(error: PyError)

  /** The test on a received frame: ethertype bytes 12..14 must be 08 06,
      the big-endian opcode at 20..22 must be 2, and the dotted quad of the
      sender address at 28..32 must equal `targetIp`. Slicing clips, so an
      ARP frame too short for the opcode makes `struct.unpack` raise, and a
      reply too short for the sender address makes `inet_ntoa` raise. */
  function ReplyTest(frame: seq<byte>, targetIp: string): (v: Verdict)
    ensures v == Match <==>
      |frame| >= 32 && frame[12..14] == [0x08, 0x06] && frame[20..22] == [0, 2]
      && DottedQuad(frame[28..32]) == targetIp
    ensures v.Raises? <==>
      |frame| >= 14 && frame[12..14] == [0x08, 0x06]
      && (|frame| < 22 || (frame[20..22] == [0, 2] && |frame| < 32))
    ensures v.Raises? ==> v.error == (if |frame| < 22 then StructError else OSError)
  {
    if PySlice(frame, 12, 14) != [0x08, 0x06] then Skip
    else match UnpackU16(PySlice(frame, 20, 22))
      case Err(e) => Raises(e)
      case Ok(op) =>
        if op != OP_REPLY then Skip
        else match InetNtoa(PySlice(frame, 28, 32))
          case Err(e) => Raises(e)
          case Ok(ip) => if ip == targetIp then Match else Skip
  }

  /** For a target given as a dotted quad, a frame matches exactly when it
      is an ARP reply whose sender protocol address is the target's four
      bytes: other ethertypes, requests and replies from other addresses
      are all skipped or raise. */
  lemma ReplyFromTarget(frame: seq<byte>, target: Ip4Bytes)
    ensures ReplyTest(frame, DottedQuad(target)) == Match <==>
      |frame| >= 32 && frame[12..14] == [0x08, 0x06] && frame[20..22] == [0, 2] && frame[28..32] == target
  {
    if |frame| >= 32 {
      DottedQuadInjective(frame[28..32], target);
    }
  }

  /** On a full-length frame the test reads the decoded fields and never
      raises. */
  lemma ReplyTestOnFields(frame: seq<byte>, target: Ip4Bytes)
    requires |frame| >= 42
    ensures var f := Decode(frame).value;
      && !ReplyTest(frame, DottedQuad(target)).Raises?
      && (ReplyTest(frame, DottedQuad(target)) == Match <==>
            f.etherType == ETHERTYPE_ARP && f.oper == OP_REPLY && f.spa == target)
  {
    ReplyFromTarget(frame, target);
    U16OfBe16(frame[12], frame[13]);
    U16OfBe16(frame[20], frame[21]);
    assert frame[12..14] == [frame[12], frame[13]] && frame[20..22] == [frame[20], frame[21]];
    assert U16(ETHERTYPE_ARP) == [0x08, 0x06] && U16(OP_REPLY) == [0, 2];
  }

  /** The probe's own request, when the raw socket sees it go out, is
      skipped: its opcode is 1, not 2. */
  lemma RequestNeverMatches(mac: Mac, ip: Ip4Bytes, target: Ip4Bytes, anyIp: string)
    ensures ReplyTest(RequestFrame(mac, ip, target), anyIp) == Skip
  {
    RequestLayout(mac, ip, target);
  }

  // ---------------------------------------------------------------------
  // The receive loop
  // ---------------------------------------------------------------------

  /** What one `recv` on the raw socket yields: a frame, together with the
      clock reading the loop takes after handling it, or the socket's
      receive timeout firing. */
  datatype RecvEvent = Frame(data: seq<byte>, clock: int) | RecvTimeout

  /** `arp_ping`'s answer: True, False, or an exception. */
  datatype PingOutcome = Reachable | Unreachable | Raised(error: PyError)

  /** The outcome of a run of the loop and how many events it consumed. */
  datatype ProbeRun = ProbeRun(outcome: PingOutcome, read: nat)

  /** One turn of the loop: None to go on receiving, or the outcome it
      returns with. A skipped frame ends the wait once more than `timeout`
      has passed since `start`. */
  function Step(e: RecvEvent, targetIp: string, start: int, timeout: int): (r: Option<PingOutcome>)
    ensures r == Some(Reachable) <==> e.Frame? && ReplyTest(e.data, targetIp) == Match
    ensures r.None? <==> e.Frame? && ReplyTest(e.data, targetIp) == Skip && e.clock - start <= timeout
    ensures e.RecvTimeout? ==> r == Some(Unreachable)
    ensures e.Frame? && ReplyTest(e.data, targetIp).Raises? ==>
              r == Some(Raised(ReplyTest(e.data, targetIp).error))
    ensures e.Frame? && ReplyTest(e.data, targetIp) == Skip && e.clock - start > timeout ==>
              r == Some(Unreachable)
  {
    match e
    case RecvTimeout => Some(Unreachable)
    case Frame(data, clock) =>
      match ReplyTest(data, targetIp)
      case Match => Some(Reachable)
      case Raises(err) => Some(Raised(err))
      case Skip => if clock - start > timeout then Some(Unreachable) else None
  }

  /** The loop over the events the socket delivers. When nothing more
      arrives, `recv` blocks until the receive timeout fires: Unreachable.
      Every event consumed before the last one was a skipped frame seen
      before the deadline. */
  function Receive(events: seq<RecvEvent>, targetIp: string, start: int, timeout: int): (r: ProbeRun)
    ensures r.read <= |events|
    ensures forall j :: 0 <= j < r.read - 1 ==> Step(events[j], targetIp, start, timeout).None?
    ensures r.read < |events| ==> r.read >= 1 && Step(events[r.read - 1], targetIp, start, timeout) == Some(r.outcome)
    ensures r.outcome != Unreachable ==> r.read >= 1 && Step(events[r.read - 1], targetIp, start, timeout) == Some(r.outcome)
  {
    if events == [] then ProbeRun(Unreachable, 0)
    else match Step(events[0], targetIp, start, timeout)
      case Some(outcome) => ProbeRun(outcome, 1)
      case None =>
        var rest := Receive(events[1..], targetIp, start, timeout);
        ProbeRun(rest.outcome, rest.read + 1)
  }

  /** One turn of the loop, unfolded: a deciding first event is the whole
      run, otherwise the run goes on with the rest. */
  lemma ReceiveStep(events: seq<RecvEvent>, targetIp: string, start: int, timeout: int)
    requires events != []
    ensures var step := Step(events[0], targetIp, start, timeout);
      && (step.Some? ==> Receive(events, targetIp, start, timeout) == ProbeRun(step.value, 1))
      && (step.None? ==>
            var rest := Receive(events[1..], targetIp, start, timeout);
            Receive(events, targetIp, start, timeout) == ProbeRun(rest.outcome, rest.read + 1))
  {
  }

  /** The loop returns at the first event that decides, having read exactly
      up to it and nothing after it, whatever would have followed. */
  lemma {:induction false} StopsAtFirstDecision(events: seq<RecvEvent>, k: nat, later: seq<RecvEvent>,
                                                targetIp: string, start: int, timeout: int)
    requires k < |events|
    requires forall j :: 0 <= j < k ==> Step(events[j], targetIp, start, timeout).None?
    requires Step(events[k], targetIp, start, timeout).Some?
    ensures Receive(events[..k + 1] + later, targetIp, start, timeout)
            == Receive(events, targetIp, start, timeout)
            == ProbeRun(Step(events[k], targetIp, start, timeout).value, k + 1)
  {
    var s := events[..k + 1] + later;
    if k > 0 {
      assert s[1..] == events[1..][..k] + later;
      StopsAtFirstDecision(events[1..], k - 1, later, targetIp, start, timeout);
    }
  }

  /** With no deciding event, every event is read and the probe waits for
      the receive timeout: Unreachable. */
  lemma {:induction false} Exhausted(events: seq<RecvEvent>, targetIp: string, start: int, timeout: int)
    requires forall j :: 0 <= j < |events| ==> Step(events[j], targetIp, start, timeout).None?
    ensures Receive(events, targetIp, start, timeout) == ProbeRun(Unreachable, |events|)
  {
    if events != [] {
      Exhausted(events[1..], targetIp, start, timeout);
    }
  }

  /** A matching reply from the target, before any other deciding event. */
  ghost predicate AnsweredAt(events: seq<RecvEvent>, k: nat, target: Ip4Bytes, start: int, timeout: int)
  {
    && k < |events|
    && (forall j :: 0 <= j < k ==> Step(events[j], DottedQuad(target), start, timeout).None?)
    && events[k].Frame?
    && ReplyTest(events[k].data, DottedQuad(target)) == Match
  }

  /** The probe reports the target reachable exactly when a reply from it
      comes before the deadline, before the receive timeout and before any
      frame that makes the test raise. */
  lemma ReachableIffAnswered(events: seq<RecvEvent>, target: Ip4Bytes, start: int, timeout: int)
    ensures Receive(events, DottedQuad(target), start, timeout).outcome == Reachable
            <==> exists k :: AnsweredAt(events, k, target, start, timeout)
  {
    var t := DottedQuad(target);
    var r := Receive(events, t, start, timeout);
    if r.outcome == Reachable {
      assert AnsweredAt(events, r.read - 1, target, start, timeout);
    }
    if exists k :: AnsweredAt(events, k, target, start, timeout) {
      var k :| AnsweredAt(events, k, target, start, timeout);
      StopsAtFirstDecision(events, k, [], t, start, timeout);
    }
  }

  /** If no frame ever answers for the target, the probe never says True. */
  lemma SilentTargetUnreachable(events: seq<RecvEvent>, target: Ip4Bytes, start: int, timeout: int)
    requires forall j :: 0 <= j < |events| && events[j].Frame? ==> ReplyTest(events[j].data, DottedQuad(target)) != Match
    ensures Receive(events, DottedQuad(target), start, timeout).outcome != Reachable
  {
    ReachableIffAnswered(events, target, start, timeout);
  }

  /** An ARP frame too short for the opcode, reached before any other
      deciding event, makes the probe raise struct.error rather than
      answer False. */
  lemma ShortArpFrameRaises(events: seq<RecvEvent>, k: nat, targetIp: string, start: int, timeout: int)
    requires k < |events|
    requires forall j :: 0 <= j < k ==> Step(events[j], targetIp, start, timeout).None?
    requires events[k].Frame? && 14 <= |events[k].data| < 22 && events[k].data[12..14] == [0x08, 0x06]
    ensures Receive(events, targetIp, start, timeout) == ProbeRun(Raised(StructError), k + 1)
  {
    StopsAtFirstDecision(events, k, [], targetIp, start, timeout);
  }

  /** A frame that is not a reply from the target, seen after the deadline
      and before any other deciding event, makes the probe answer False. */
  lemma LateFrameUnreachable(events: seq<RecvEvent>, k: nat, targetIp: string, start: int, timeout: int)
    requires k < |events|
    requires forall j :: 0 <= j < k ==> Step(events[j], targetIp, start, timeout).None?
    requires events[k].Frame? && ReplyTest(events[k].data, targetIp) == Skip
    requires events[k].clock - start > timeout
    ensures Receive(events, targetIp, start, timeout) == ProbeRun(Unreachable, k + 1)
  {
    StopsAtFirstDecision(events, k, [], targetIp, start, timeout);
  }

  // ---------------------------------------------------------------------
  // The raw socket and arp_ping
  // ---------------------------------------------------------------------

  /** A raw link-layer socket bound to the interface. `pending` holds the
      events the link will deliver from now on; `sent` the frames sent. */
  class RawSocket {
    var isOpen: bool
    var sent: seq<seq<byte>>
    var pending: seq<RecvEvent>

    constructor (link: seq<RecvEvent>)
      ensures isOpen && sent == [] && pending == link
    {
      isOpen, sent, pending := true, [], link;
    }

    method Send(frame: seq<byte>)
      requires isOpen
      modifies this
      ensures isOpen && sent == old(sent) + [frame] && pending == old(pending)
    {
      sent := sent + [frame];
    }

    /** `recv(65535)`: the next event; with nothing more to come the
        receive timeout fires. */
    method Recv() returns (e: RecvEvent)
      requires isOpen
      modifies this
      ensures isOpen && sent == old(sent)
      ensures old(pending) == [] ==> e == RecvTimeout && pending == []
      ensures old(pending) != [] ==> e == old(pending)[0] && pending == old(pending)[1..]
    {
      if pending == [] {
        e := RecvTimeout;
      } else {
        e, pending := pending[0], pending[1..];
      }
    }

    method Close()
      modifies this
      ensures !isOpen && sent == old(sent) && pending == old(pending)
    {
      isOpen := false;
    }
  }

  /** `arp_ping`: open the socket, build and send the request, then receive
      until a reply matches (True), the receive timeout fires or the deadline
      has passed after a skipped frame (False). Those three returns close the
      socket first. An exception, from building the request or from the reply
      test, leaves it open. `start` is the clock reading taken after sending;
      `srcIp` and `srcMac` are what the interface query reports. */
  method ArpPing(targetIp: string, srcIp: string, srcMac: string, timeout: int, start: int,
                 link: seq<RecvEvent>)
    returns (outcome: PingOutcome, sock: RawSocket)
    ensures BuildArpRequest(targetIp, srcIp, srcMac).Err? ==>
      && outcome == Raised(BuildArpRequest(targetIp, srcIp, srcMac).error)
      && sock.isOpen && sock.sent == [] && sock.pending == link
    ensures BuildArpRequest(targetIp, srcIp, srcMac).Ok? ==>
      var run := Receive(link, targetIp, start, timeout);
      && outcome == run.outcome
      && sock.sent == [BuildArpRequest(targetIp, srcIp, srcMac).value]
      && sock.pending == link[run.read..]
      && (sock.isOpen <==> outcome.Raised?)
  {
    sock := new RawSocket(link);
    var packet := BuildArpRequest(targetIp, srcIp, srcMac);
    if packet.Err? {
      return Raised(packet.error), sock;
    }
    sock.Send(packet.value);
    ghost var read := 0;
    while true
      invariant sock.isOpen && sock.sent == [packet.value]
      invariant read <= |link| && sock.pending == link[read..]
      invariant Receive(link, targetIp, start, timeout)
                == var rest := Receive(sock.pending, targetIp, start, timeout);
                   ProbeRun(rest.outcome, read + rest.read)
      decreases |sock.pending|
    {
      ghost var before := sock.pending;
      if before != [] {
        ReceiveStep(before, targetIp, start, timeout);
      }
      var e := sock.Recv();
      match e {
        case RecvTimeout =>
          sock.Close();
          return Unreachable, sock;
        case Frame(data, clock) =>
          var verdict := ReplyTest(data, targetIp);
          if verdict == Match {
            sock.Close();
            return Reachable, sock;
          } else if verdict.Raises? {
            return Raised(verdict.error), sock;
          }
          if clock - start > timeout {
            sock.Close();
            return Unreachable, sock;
          }
      }
      assert before[1..] == link[read + 1..];
      read := read + 1;
    }
  }
}
