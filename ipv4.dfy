/** IPv4 addresses as the scanner handles them: four bytes on the wire
    (`socket.inet_aton` / `socket.inet_ntoa`), dotted-quad text, and the
    32-bit value `ipaddress` counts with. */
module Ipv4 {
  import opened Common
  import opened PyText

  /** The packed form `inet_aton` returns: exactly four bytes. */
  type Ip4Bytes = s: seq<byte> | |s| == 4 witness [0, 0, 0, 0]

  /** `inet_ntoa(b)` and `str(IPv4Address)`: `"%d.%d.%d.%d"`. */
  function DottedQuad(b: Ip4Bytes): string
  {
    Join([NatToDecimal(b[0]), NatToDecimal(b[1]), NatToDecimal(b[2]), NatToDecimal(b[3])], '.')
  }

  /** One field of a canonical dotted quad: one to three decimal digits,
      no leading zero, value at most 255. */
  predicate CanonicalOctet(f: string)
  {
    1 <= |f| <= 3 && AllDigits(f, 10) && (|f| == 1 || f[0] != '0') && DigitsValue(f, 10) < 256
  }

  /** `socket.inet_aton(s)` on the canonical four-field form. Text holding a
      NUL character is refused by the argument conversion with ValueError
      before the C routine sees it; any other text raises OSError. */
  function InetAton(s: string): (r: Result<Ip4Bytes>)
    ensures r.Err? ==> r.error == if '\0' in s then ValueError else OSError
  {
    var fs := Split(s, '.');
    if |fs| == 4 && forall k :: 0 <= k < 4 ==> CanonicalOctet(fs[k]) then
      Ok([DigitsValue(fs[0], 10), DigitsValue(fs[1], 10), DigitsValue(fs[2], 10), DigitsValue(fs[3], 10)])
    else if '\0' in s then Err(ValueError)
    else Err(OSError)
  }

  /** `socket.inet_ntoa(b)`: only a 4-byte value can be formatted; any other
      length raises OSError. */
  function InetNtoa(b: seq<byte>): (r: Result<string>)
    ensures r.Ok? <==> |b| == 4
    ensures r.Err? ==> r.error == OSError
  {
    if |b| == 4 then Ok(DottedQuad(b)) else Err(OSError)
  }

  lemma {:induction false} DigitsValuePositive(f: string)
    requires f != [] && AllDigits(f, 10) && f[0] != '0'
    ensures DigitsValue(f, 10) > 0
  {
    if |f| > 1 {
      DigitsValuePositive(f[..|f| - 1]);
    }
  }

  /** Printing the value of a digit string without leading zeros gives the
      string back. */
  lemma {:induction false} DecimalOfDigits(f: string)
    requires f != [] && AllDigits(f, 10) && (|f| == 1 || f[0] != '0')
    ensures NatToDecimal(DigitsValue(f, 10)) == f
  {
    var v := DigitsValue(f, 10);
    var p := f[..|f| - 1];
    if |f| > 1 {
      DigitsValuePositive(p);
      DecimalOfDigits(p);
      assert v / 10 == DigitsValue(p, 10) && v % 10 == HexDigitValue(f[|f| - 1]);
      assert f == p + [f[|f| - 1]];
    }
  }

  lemma {:induction false} DecimalIsCanonical(n: byte)
    ensures CanonicalOctet(NatToDecimal(n)) && DigitsValue(NatToDecimal(n), 10) == n
    ensures '.' !in NatToDecimal(n)
  {
    DecimalShort(n);
    DecimalRoundTrip(n);
    var d := NatToDecimal(n);
    assert forall k :: 0 <= k < |d| ==> IsDigit(d[k]);
  }

  /** The dotted quad is four fields separated by dots, each the decimal
      text of one byte. */
  lemma {:induction false} SplitDottedQuad(b: Ip4Bytes)
    ensures Split(DottedQuad(b), '.') == [NatToDecimal(b[0]), NatToDecimal(b[1]), NatToDecimal(b[2]), NatToDecimal(b[3])]
  {
    var parts := [NatToDecimal(b[0]), NatToDecimal(b[1]), NatToDecimal(b[2]), NatToDecimal(b[3])];
    forall k | 0 <= k < 4 ensures '.' !in parts[k] {
      DecimalIsCanonical(b[k]);
    }
    SplitJoin(parts, '.');
  }

  /** The dotted quad `inet_ntoa` prints is read back by `inet_aton` as the
      same four bytes. */
  lemma {:induction false} AtonNtoa(b: Ip4Bytes)
    ensures InetAton(DottedQuad(b)) == Ok(b)
  {
    SplitDottedQuad(b);
    forall k | 0 <= k < 4 ensures CanonicalOctet(NatToDecimal(b[k])) && DigitsValue(NatToDecimal(b[k]), 10) == b[k] {
      DecimalIsCanonical(b[k]);
    }
    var fs := Split(DottedQuad(b), '.');
    var v := [DigitsValue(fs[0], 10), DigitsValue(fs[1], 10), DigitsValue(fs[2], 10), DigitsValue(fs[3], 10)];
    assert v == b;
  }

  /** Text that `inet_aton` accepts is exactly the dotted quad of what it
      returns, so the accepted texts and the 4-byte values correspond one to one. */
  lemma {:induction false} NtoaAton(s: string)
    requires InetAton(s).Ok?
    ensures DottedQuad(InetAton(s).value) == s
  {
    var fs := Split(s, '.');
    var b := InetAton(s).value;
    forall k | 0 <= k < 4 ensures NatToDecimal(b[k]) == fs[k] {
      DecimalOfDigits(fs[k]);
    }
    assert [NatToDecimal(b[0]), NatToDecimal(b[1]), NatToDecimal(b[2]), NatToDecimal(b[3])] == fs;
    JoinSplit(s, '.');
  }

  lemma {:induction false} DottedQuadInjective(a: Ip4Bytes, b: Ip4Bytes)
    ensures DottedQuad(a) == DottedQuad(b) <==> a == b
  {
    AtonNtoa(a);
    AtonNtoa(b);
  }

  // ---------------------------------------------------------------------
  // 32-bit values
  // ---------------------------------------------------------------------

  /** The network-order bytes of a 32-bit address. */
  function AddrBytes(a: u32): Ip4Bytes
  {
    [a / 0x100_0000, (a / 0x1_0000) % 0x100, (a / 0x100) % 0x100, a % 0x100]
  }

  function AddrOfBytes(b: Ip4Bytes): u32
  {
    (b[0] as int) * 0x100_0000 + (b[1] as int) * 0x1_0000 + (b[2] as int) * 0x100 + b[3] as int
  }

  lemma AddrBytesRoundTrip(a: u32)
    ensures AddrOfBytes(AddrBytes(a)) == a
  {
    var q1, q2, q3 := a / 0x100, a / 0x1_0000, a / 0x100_0000;
    assert a == q1 * 0x100 + a % 0x100;
    assert q1 == q2 * 0x100 + q1 % 0x100;
    assert q2 == q3 * 0x100 + q2 % 0x100;
    assert q2 == q1 / 0x100 && q3 == q2 / 0x100;
    assert (a / 0x100) % 0x100 == q1 % 0x100;
  }

  /** `str(IPv4Address(a))` */
  function AddrToString(a: u32): string
  {
    DottedQuad(AddrBytes(a))
  }

  /** Different addresses print differently. */
  lemma {:induction false} AddrToStringInjective(a: u32, b: u32)
    ensures AddrToString(a) == AddrToString(b) <==> a == b
  {
    DottedQuadInjective(AddrBytes(a), AddrBytes(b));
    AddrBytesRoundTrip(a);
    AddrBytesRoundTrip(b);
  }

  /** A NUL character anywhere in the text is a ValueError, even after a
      well-formed quad. */
  lemma EmbeddedNulRejected()
    ensures InetAton("1.2.3.4\0") == Err(ValueError)
  {
    var s := "1.2.3.4\0";
    assert s[7] == '\0';
  }

  /** The dotted quad `999.1.1.1` is not an address: its first field is
      above 255. */
  lemma MalformedAddressRejected()
    ensures InetAton("999.1.1.1") == Err(OSError)
  {
    var fs := Split("999.1.1.1", '.');
    assert fs[0] == "999";
    assert "999"[..2] == "99" && "99"[..1] == "9" && "9"[..0] == "";
    assert DigitsValue("999", 10) == 999;
  }
}
