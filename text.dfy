/** The parts of Python's `str` and `bytes` behaviour the scanner relies on:
    whitespace, `strip`, `split`, `join`, `replace`, `int()` in base 10 and
    base 16, `"%02x"`, `bytes.fromhex` and `str.encode("utf-8")`. */
module PyText {
  import opened Common

  // ---------------------------------------------------------------------
  // Whitespace, strip, replace
  // ---------------------------------------------------------------------

  /** `str.isspace()` for one character: the Unicode whitespace that
      `str.split()` and `str.strip()` treat as separators. */
  predicate IsSpace(c: char)
  {
    || ('\t' <= c <= '\r')
    || ('\U{001C}' <= c <= '\U{001F}')
    || c == ' ' || c == '\U{0085}' || c == '\U{00A0}' || c == '\U{1680}'
    || ('\U{2000}' <= c <= '\U{200A}')
    || c == '\U{2028}' || c == '\U{2029}' || c == '\U{202F}' || c == '\U{205F}' || c == '\U{3000}'
  }

  /** The ASCII whitespace `bytes.fromhex` skips between byte pairs. */
  predicate IsAsciiSpace(c: char)
  {
    c == ' ' || ('\t' <= c <= '\r')
  }

  /** The information separators U+001C..U+001F: whitespace to
      `str.isspace()`, but not to `int()`. */
  predicate IsSeparatorControl(c: char)
  {
    '\U{001C}' <= c <= '\U{001F}'
  }

  /** The whitespace `int()` skips around its digits. Characters below 127
      are kept as they are and then only the C locale's tab, line feed,
      vertical tab, form feed, carriage return and space are skipped; a
      character from 128 up is skipped when `str.isspace()` holds for it. */
  predicate IsIntSpace(c: char)
  {
    IsSpace(c) && !IsSeparatorControl(c)
  }

  /** Drops the leading characters that `space` accepts. */
  function TrimLeft(s: string, space: char -> bool): string
  {
    if s != [] && space(s[0]) then TrimLeft(s[1..], space) else s
  }

  /** Drops the trailing characters that `space` accepts. */
  function TrimRight(s: string, space: char -> bool): string
  {
    if s != [] && space(s[|s| - 1]) then TrimRight(s[..|s| - 1], space) else s
  }

  /** Trimming at the front removes a prefix of accepted characters and
      leaves none at the front. */
  lemma {:induction false} TrimLeftShape(s: string, space: char -> bool)
    ensures |TrimLeft(s, space)| <= |s| && TrimLeft(s, space) == s[|s| - |TrimLeft(s, space)|..]
    ensures forall k :: 0 <= k < |s| - |TrimLeft(s, space)| ==> space(s[k])
    ensures TrimLeft(s, space) != [] ==> !space(TrimLeft(s, space)[0])
  {
    if s != [] && space(s[0]) {
      var t := s[1..];
      TrimLeftShape(t, space);
      var r := TrimLeft(t, space);
      assert TrimLeft(s, space) == r;
      assert t[|t| - |r|..] == s[|s| - |r|..];
      assert r == s[|s| - |r|..];
      forall k | 0 <= k < |s| - |r| ensures space(s[k]) {
        if k > 0 {
          assert s[k] == t[k - 1];
        }
      }
    }
  }

  /** Trimming at the back removes a suffix of accepted characters and
      leaves none at the end. */
  lemma {:induction false} TrimRightShape(s: string, space: char -> bool)
    ensures |TrimRight(s, space)| <= |s| && TrimRight(s, space) == s[..|TrimRight(s, space)|]
    ensures forall k :: |TrimRight(s, space)| <= k < |s| ==> space(s[k])
    ensures TrimRight(s, space) != [] ==> !space(TrimRight(s, space)[|TrimRight(s, space)| - 1])
  {
    if s != [] && space(s[|s| - 1]) {
      var t := s[..|s| - 1];
      TrimRightShape(t, space);
      var r := TrimRight(t, space);
      assert TrimRight(s, space) == r;
      assert t[..|r|] == s[..|r|];
      assert r == s[..|r|];
      forall k | |r| <= k < |s| ensures space(s[k]) {
        if k < |s| - 1 {
          assert s[k] == t[k];
        }
      }
    }
  }

  /** Drops the accepted characters at both ends. */
  function Trim(s: string, space: char -> bool): string
  {
    TrimRight(TrimLeft(s, space), space)
  }

  /** `s.strip()` */
  function Strip(s: string): (r: string)
    ensures |r| <= |s|
    ensures r != [] ==> !IsSpace(r[0]) && !IsSpace(r[|r| - 1])
  {
    TrimLeftShape(s, IsSpace);
    TrimRightShape(TrimLeft(s, IsSpace), IsSpace);
    Trim(s, IsSpace)
  }

  /** The whitespace `int(s)` skips before reading a sign and digits. */
  function IntStrip(s: string): string
  {
    Trim(s, IsIntSpace)
  }

  /** The stripped text is a contiguous piece of s, with only whitespace cut
      away on either side and none left at its ends. */
  lemma StripTrims(s: string)
    ensures exists i, j :: 0 <= i <= j <= |s| && Strip(s) == s[i..j]
                           && (forall k :: 0 <= k < i ==> IsSpace(s[k]))
                           && (forall k :: j <= k < |s| ==> IsSpace(s[k]))
    ensures Strip(s) != [] ==> !IsSpace(Strip(s)[0]) && !IsSpace(Strip(s)[|Strip(s)| - 1])
  {
    var l := TrimLeft(s, IsSpace);
    var r := TrimRight(l, IsSpace);
    TrimLeftShape(s, IsSpace);
    TrimRightShape(l, IsSpace);
    assert r == s[|s| - |l|..|s| - |l| + |r|];
  }

  /** Stripping twice strips nothing more. */
  lemma StripIdempotent(s: string)
    ensures Strip(Strip(s)) == Strip(s)
  {
    StripTrims(s);
    var r := Strip(s);
    if r != [] {
      assert TrimLeft(r, IsSpace) == r;
      assert TrimRight(r, IsSpace) == r;
    }
  }

  /** A text whose end characters are not accepted is left as it is. */
  lemma TrimNone(s: string, space: char -> bool)
    requires s != [] ==> !space(s[0]) && !space(s[|s| - 1])
    ensures Trim(s, space) == s
  {
  }

  lemma {:induction false} TrimLeftAgree(s: string, p: char -> bool, q: char -> bool)
    requires forall k :: 0 <= k < |s| ==> p(s[k]) == q(s[k])
    ensures TrimLeft(s, p) == TrimLeft(s, q)
  {
    if s != [] && p(s[0]) {
      assert forall k :: 0 <= k < |s| - 1 ==> s[1..][k] == s[k + 1];
      TrimLeftAgree(s[1..], p, q);
    }
  }

  lemma {:induction false} TrimRightAgree(s: string, p: char -> bool, q: char -> bool)
    requires forall k :: 0 <= k < |s| ==> p(s[k]) == q(s[k])
    ensures TrimRight(s, p) == TrimRight(s, q)
  {
    if s != [] && p(s[|s| - 1]) {
      assert forall k :: 0 <= k < |s| - 1 ==> s[..|s| - 1][k] == s[k];
      TrimRightAgree(s[..|s| - 1], p, q);
    }
  }

  /** Two whitespace sets that agree on every character of s trim it
      alike. */
  lemma TrimAgree(s: string, p: char -> bool, q: char -> bool)
    requires forall k :: 0 <= k < |s| ==> p(s[k]) == q(s[k])
    ensures Trim(s, p) == Trim(s, q)
  {
    TrimLeftAgree(s, p, q);
    var t := TrimLeft(s, p);
    TrimLeftShape(s, p);
    assert forall k :: 0 <= k < |t| ==> t[k] == s[|s| - |t| + k];
    TrimRightAgree(t, p, q);
  }

  /** `int(s.strip())`: after `strip()` no whitespace is left for `int` to
      skip, and for a text without information separators the explicit
      strip changes nothing, because `int` skips the same whitespace. */
  lemma IntIgnoresStrip(s: string)
    ensures IntStrip(Strip(s)) == Strip(s)
    ensures (forall k :: 0 <= k < |s| ==> !IsSeparatorControl(s[k])) ==> ParseInt(Strip(s)) == ParseInt(s)
  {
    StripTrims(s);
    TrimNone(Strip(s), IsIntSpace);
    if forall k :: 0 <= k < |s| ==> !IsSeparatorControl(s[k]) {
      TrimAgree(s, IsIntSpace, IsSpace);
    }
  }

  /** An information separator in front of the digits is skipped by
      `strip()` but not by `int()`: `int("\x1c5")` raises ValueError while
      `int("\x1c5".strip())` is 5. */
  lemma SeparatorControlNotSkipped()
    ensures ParseInt("\U{001C}5") == Err(ValueError)
    ensures ParseInt(Strip("\U{001C}5")) == Ok(5)
  {
    var s := "\U{001C}5";
    TrimNone(s, IsIntSpace);
    assert SignOf(s) == (false, s);
    SplitPrefix(s, [], '_');
    assert s + [] == s;
    assert s in Split(s, '_') && !AllDigits(s, 10);
    assert TrimLeft(s, IsSpace) == "5";
    TrimNone("5", IsSpace);
    TrimNone("5", IsIntSpace);
    DigitGroupsPlain("5", 10);
    assert DigitsValue("5", 10) == DigitsValue([], 10) * 10 + 5;
  }

  lemma {:induction false} StripNoSpace(s: string)
    requires forall k :: 0 <= k < |s| ==> !IsSpace(s[k])
    ensures Strip(s) == s && IntStrip(s) == s
  {
    TrimNone(s, IsSpace);
    TrimNone(s, IsIntSpace);
  }

  /** `s.replace(c, "")` for a one-character pattern. */
  function RemoveAll(s: string, c: char): (r: string)
    ensures c !in r && |r| <= |s|
  {
    if s == [] then [] else (if s[0] == c then [] else [s[0]]) + RemoveAll(s[1..], c)
  }

  // ---------------------------------------------------------------------
  // split(sep) and join
  // ---------------------------------------------------------------------

  /** `s.split(sep)` for a one-character separator: always at least one
      field, and no field holds the separator. */
  function Split(s: string, sep: char): (r: seq<string>)
    ensures |r| >= 1
    ensures forall k :: 0 <= k < |r| ==> sep !in r[k]
    decreases |s|
  {
    if s == [] then [[]]
    else if s[0] == sep then [[]] + Split(s[1..], sep)
    else
      var rest := Split(s[1..], sep);
      [[s[0]] + rest[0]] + rest[1..]
  }

  /** `sep.join(parts)` */
  function Join(parts: seq<string>, sep: char): string
  {
    if |parts| == 0 then []
    else if |parts| == 1 then parts[0]
    else parts[0] + [sep] + Join(parts[1..], sep)
  }

  /** Joining the fields of a split gives back the text. */
  lemma {:induction false} JoinSplit(s: string, sep: char)
    ensures Join(Split(s, sep), sep) == s
  {
    if s == [] {
    } else if s[0] == sep {
      JoinSplit(s[1..], sep);
    } else {
      JoinSplit(s[1..], sep);
      var rest := Split(s[1..], sep);
      if |rest| > 1 {
        assert rest == [rest[0]] + rest[1..];
      }
    }
  }

  lemma {:induction false} SplitPrefix(a: string, t: string, sep: char)
    requires sep !in a
    ensures Split(a + t, sep) == [a + Split(t, sep)[0]] + Split(t, sep)[1..]
    decreases |a|
  {
    if a != [] {
      assert (a + t)[1..] == a[1..] + t;
      SplitPrefix(a[1..], t, sep);
      assert [a[0]] + (a[1..] + Split(t, sep)[0]) == a + Split(t, sep)[0];
    } else {
      var r := Split(t, sep);
      assert a + t == t && a + r[0] == r[0];
      assert r == [r[0]] + r[1..];
    }
  }

  /** Splitting separator-free fields joined by the separator recovers them. */
  lemma {:induction false} SplitJoin(parts: seq<string>, sep: char)
    requires |parts| >= 1
    requires forall k :: 0 <= k < |parts| ==> sep !in parts[k]
    ensures Split(Join(parts, sep), sep) == parts
  {
    if |parts| == 1 {
      SplitPrefix(parts[0], [], sep);
      assert parts[0] + [] == parts[0];
    } else {
      var rest := Join(parts[1..], sep);
      SplitPrefix(parts[0], [sep] + rest, sep);
      assert ([sep] + rest)[1..] == rest;
      assert Split([sep] + rest, sep) == [[]] + Split(rest, sep);
      SplitJoin(parts[1..], sep);
      assert parts[0] + [] == parts[0];
      assert parts[0] + [sep] + rest == parts[0] + ([sep] + rest);
      assert parts == [parts[0]] + parts[1..];
    }
  }

  // ---------------------------------------------------------------------
  // split() on whitespace
  // ---------------------------------------------------------------------

  /** Length of the longest prefix of s without whitespace. */
  function WordLength(s: string): (n: nat)
    ensures n <= |s|
    ensures forall k :: 0 <= k < n ==> !IsSpace(s[k])
    ensures n < |s| ==> IsSpace(s[n])
  {
    if s == [] || IsSpace(s[0]) then 0 else 1 + WordLength(s[1..])
  }

  /** `s.split()`: the maximal runs of non-whitespace, in order. */
  function Words(s: string): (r: seq<string>)
    ensures forall k :: 0 <= k < |r| ==> r[k] != [] && forall m :: 0 <= m < |r[k]| ==> !IsSpace(r[k][m])
    decreases |s|
  {
    if s == [] then []
    else if IsSpace(s[0]) then Words(s[1..])
    else
      var n := WordLength(s);
      [s[..n]] + Words(s[n..])
  }

  lemma {:induction false} WordsAfterWord(w: string, sp: char, t: string)
    requires w != [] && forall m :: 0 <= m < |w| ==> !IsSpace(w[m])
    requires IsSpace(sp)
    ensures Words(w + [sp] + t) == [w] + Words(t)
  {
    var s := w + [sp] + t;
    WordLengthOf(w, [sp] + t);
    assert s == w + ([sp] + t);
    assert s[|w|..] == [sp] + t;
    assert ([sp] + t)[1..] == t;
  }

  lemma {:induction false} WordLengthOf(w: string, t: string)
    requires forall m :: 0 <= m < |w| ==> !IsSpace(w[m])
    requires t == [] || IsSpace(t[0])
    ensures WordLength(w + t) == |w|
    decreases |w|
  {
    if w != [] {
      assert (w + t)[1..] == w[1..] + t;
      WordLengthOf(w[1..], t);
    } else {
      assert w + t == t;
    }
  }

  /** A run of whitespace holds no words. */
  lemma {:induction false} WordsOfSpace(pad: string)
    requires forall k :: 0 <= k < |pad| ==> IsSpace(pad[k])
    ensures Words(pad) == []
  {
    if pad != [] {
      assert forall k :: 0 <= k < |pad| - 1 ==> pad[1..][k] == pad[k + 1];
      WordsOfSpace(pad[1..]);
    }
  }

  lemma WordsOfWord(w: string, pad: string)
    requires w != [] && forall m :: 0 <= m < |w| ==> !IsSpace(w[m])
    requires forall k :: 0 <= k < |pad| ==> IsSpace(pad[k])
    ensures Words(w + pad) == [w]
  {
    WordLengthOf(w, pad);
    var s := w + pad;
    assert s[..|w|] == w && s[|w|..] == pad;
    WordsOfSpace(pad);
  }

  lemma WordsCons(w: string, rest: seq<string>, sp: char, pad: string)
    requires IsSpace(sp) && |rest| >= 1
    requires w != [] && forall m :: 0 <= m < |w| ==> !IsSpace(w[m])
    requires Words(Join(rest, sp) + pad) == rest
    ensures Words(Join([w] + rest, sp) + pad) == [w] + rest
  {
    var jr := Join(rest, sp);
    var fields := [w] + rest;
    assert fields[0] == w && fields[1..] == rest;
    assert Join(fields, sp) == w + [sp] + jr;
    assert w + [sp] + jr + pad == w + [sp] + (jr + pad);
    WordsAfterWord(w, sp, jr + pad);
  }

  /** Fields free of whitespace, joined by one whitespace character and
      followed by any run of whitespace (the padding and the newline that
      end a line), come back out of `split()` unchanged. */
  lemma {:induction false} WordsJoin(fields: seq<string>, sp: char, pad: string)
    requires IsSpace(sp)
    requires forall k :: 0 <= k < |fields| ==> fields[k] != [] && forall m :: 0 <= m < |fields[k]| ==> !IsSpace(fields[k][m])
    requires forall k :: 0 <= k < |pad| ==> IsSpace(pad[k])
    ensures |fields| >= 1 ==> Words(Join(fields, sp) + pad) == fields
  {
    if |fields| == 1 {
      WordsOfWord(fields[0], pad);
    } else if |fields| > 1 {
      WordsJoin(fields[1..], sp, pad);
      WordsCons(fields[0], fields[1..], sp, pad);
      assert fields == [fields[0]] + fields[1..];
    }
  }

  // ---------------------------------------------------------------------
  // Decimal and hexadecimal digits
  // ---------------------------------------------------------------------

  predicate IsDigit(c: char)
  {
    '0' <= c <= '9'
  }

  predicate IsHexDigit(c: char)
  {
    IsDigit(c) || ('a' <= c <= 'f') || ('A' <= c <= 'F')
  }

  function HexDigitValue(c: char): (v: nat)
    requires IsHexDigit(c)
    ensures v < 16 && (IsDigit(c) ==> v < 10)
  {
    if IsDigit(c) then c as int - '0' as int
    else if 'a' <= c <= 'f' then c as int - 'a' as int + 10
    else c as int - 'A' as int + 10
  }

  /** The lower-case digit for a value below 16. */
  function HexChar(v: nat): (c: char)
    requires v < 16
    ensures IsHexDigit(c) && HexDigitValue(c) == v
    ensures !('A' <= c <= 'F') && (v < 10 <==> IsDigit(c))
  {
    if v < 10 then ('0' as int + v) as char else ('a' as int + v - 10) as char
  }

  predicate AllDigits(s: string, base: nat)
    requires base == 10 || base == 16
  {
    forall k :: 0 <= k < |s| ==> if base == 10 then IsDigit(s[k]) else IsHexDigit(s[k])
  }

  /** The value of a digit string, most significant digit first. */
  function DigitsValue(s: string, base: nat): (v: nat)
    requires base == 10 || base == 16
    requires AllDigits(s, base)
  {
    if s == [] then 0 else DigitsValue(s[..|s| - 1], base) * base + HexDigitValue(s[|s| - 1])
  }

  /** `str(n)` for a non-negative integer. */
  function NatToDecimal(n: nat): (s: string)
    ensures s != [] && AllDigits(s, 10)
    ensures |s| > 1 ==> s[0] != '0'
  {
    if n < 10 then [HexChar(n)] else NatToDecimal(n / 10) + [HexChar(n % 10)]
  }

  /** Reading back what `str(n)` prints gives n. */
  lemma {:induction false} DecimalRoundTrip(n: nat)
    ensures DigitsValue(NatToDecimal(n), 10) == n
  {
    var s := NatToDecimal(n);
    if n >= 10 {
      DecimalRoundTrip(n / 10);
      assert s[..|s| - 1] == NatToDecimal(n / 10);
    }
  }

  /** str(n) for n < 256 has at most three digits and is its unique decimal
      text without leading zeros. */
  lemma {:induction false} DecimalShort(n: nat)
    requires n < 256
    ensures 1 <= |NatToDecimal(n)| <= 3
  {
    if n >= 10 {
      DecimalShort(n / 10);
    }
  }

  /** `str(n)` for any integer. */
  function IntToDecimal(n: int): (s: string)
    ensures s != []
  {
    if n < 0 then ['-'] + NatToDecimal(-n) else NatToDecimal(n)
  }

  // ---------------------------------------------------------------------
  // int(s) and int(s, 16)
  // ---------------------------------------------------------------------

  /** A digit string in which single underscores may separate digits, as
      Python's `int()` allows: every `_`-separated group is a non-empty run of
      digits of the base. */
  predicate DigitGroups(s: string, base: nat)
    requires base == 10 || base == 16
  {
    forall g :: g in Split(s, '_') ==> g != [] && AllDigits(g, base)
  }

  lemma {:induction false} RemoveAllDigits(s: string, base: nat)
    requires base == 10 || base == 16
    requires forall k :: 0 <= k < |s| ==> s[k] == '_' || (if base == 10 then IsDigit(s[k]) else IsHexDigit(s[k]))
    ensures AllDigits(RemoveAll(s, '_'), base)
  {
    if s != [] {
      RemoveAllDigits(s[1..], base);
      var r := RemoveAll(s[1..], '_');
      if s[0] != '_' {
        assert RemoveAll(s, '_') == [s[0]] + r;
      } else {
        assert RemoveAll(s, '_') == r;
      }
    }
  }

  lemma {:induction false} SplitChars(s: string, sep: char, k: nat)
    requires k < |s| && s[k] != sep
    ensures exists g :: g in Split(s, sep) && s[k] in g
  {
    if s[0] == sep {
      SplitChars(s[1..], sep, k - 1);
      var g :| g in Split(s[1..], sep) && s[k] in g;
      assert g in Split(s, sep);
    } else if k == 0 {
      assert s[0] in Split(s, sep)[0];
    } else {
      SplitChars(s[1..], sep, k - 1);
      var rest := Split(s[1..], sep);
      var g :| g in rest && s[k] in g;
      if g == rest[0] {
        assert s[k] in Split(s, sep)[0];
      } else {
        var i :| 0 <= i < |rest| && rest[i] == g;
        assert Split(s, sep)[i] == g;
      }
    }
  }

  /** The value of digit groups, underscores ignored. */
  function GroupsValue(s: string, base: nat): nat
    requires base == 10 || base == 16
    requires DigitGroups(s, base)
  {
    forall k | 0 <= k < |s| && s[k] != '_'
      ensures if base == 10 then IsDigit(s[k]) else IsHexDigit(s[k])
    {
      SplitChars(s, '_', k);
    }
    RemoveAllDigits(s, base);
    DigitsValue(RemoveAll(s, '_'), base)
  }

  /** Splits an optional leading sign off: whether it was a minus, and the
      rest of the text. */
  function SignOf(t: string): (r: (bool, string))
    ensures |r.1| <= |t|
    ensures r.0 ==> t != [] && t[0] == '-'
  {
    if t != [] && t[0] == '-' then (true, t[1..])
    else if t != [] && t[0] == '+' then (false, t[1..])
    else (false, t)
  }

  /** Applies the sign split off by `SignOf`. */
  function Signed(negative: bool, v: nat): int
  {
    if negative then -(v as int) else v
  }

  /** `int(s)`: surrounding whitespace, an optional sign, then decimal digit
      groups; anything else raises ValueError. */
  function ParseInt(s: string): (r: Result<int>)
    ensures r.Err? ==> r.error == ValueError
  {
    var (negative, body) := SignOf(IntStrip(s));
    if DigitGroups(body, 10) then Ok(Signed(negative, GroupsValue(body, 10))) else Err(ValueError)
  }

  /** Drops the `0x` / `0X` prefix (and the one underscore Python allows
      right after it) when present. */
  function HexBody(t: string): string
  {
    if |t| >= 2 && t[0] == '0' && (t[1] == 'x' || t[1] == 'X') then
      (if |t| >= 3 && t[2] == '_' then t[3..] else t[2..])
    else t
  }

  /** `int(s, 16)` */
  function ParseHex(s: string): (r: Result<int>)
    ensures r.Err? ==> r.error == ValueError
  {
    var (negative, rest) := SignOf(IntStrip(s));
    var body := HexBody(rest);
    if DigitGroups(body, 16) then Ok(Signed(negative, GroupsValue(body, 16))) else Err(ValueError)
  }

  /** Plain hexadecimal digits with no sign, prefix, underscore or
      whitespace parse to their value. */
  lemma ParseHexDigits(s: string)
    requires s != [] && AllDigits(s, 16)
    ensures ParseHex(s) == Ok(DigitsValue(s, 16))
  {
    assert IsHexDigit(s[0]) && IsHexDigit(s[|s| - 1]);
    TrimNone(s, IsIntSpace);
    assert SignOf(s) == (false, s);
    assert |s| >= 2 ==> IsHexDigit(s[1]);
    assert HexBody(s) == s;
    DigitGroupsPlain(s, 16);
  }

  lemma {:induction false} DigitGroupsPlain(s: string, base: nat)
    requires base == 10 || base == 16
    requires s != [] && AllDigits(s, base)
    ensures DigitGroups(s, base) && GroupsValue(s, base) == DigitsValue(s, base)
  {
    SplitPrefix(s, [], '_');
    assert s + [] == s;
    assert Split(s, '_') == [s];
    RemoveAllNone(s, '_');
  }

  lemma {:induction false} RemoveAllNone(s: string, c: char)
    requires c !in s
    ensures RemoveAll(s, c) == s
  {
    if s != [] {
      RemoveAllNone(s[1..], c);
      assert s == [s[0]] + s[1..];
    }
  }

  /** `int(str(n)) == n` for every integer n; `str(n)` has no whitespace
      for `strip()` to remove. */
  lemma {:induction false} ParseIntRoundTrip(n: int)
    ensures ParseInt(IntToDecimal(n)) == Ok(n)
    ensures Strip(IntToDecimal(n)) == IntToDecimal(n)
  {
    var s := IntToDecimal(n);
    var m: nat := if n < 0 then -n else n;
    var d := NatToDecimal(m);
    StripNoSpace(s);
    DigitGroupsPlain(d, 10);
    DecimalRoundTrip(m);
    if n < 0 {
      assert SignOf(s) == (true, d);
    } else {
      assert SignOf(s) == (false, d);
    }
  }

  // ---------------------------------------------------------------------
  // Hex formatting of bytes and bytes.fromhex
  // ---------------------------------------------------------------------

  /** `"%02x" % b`: two lower-case hex digits. */
  function Hex2(b: byte): (s: string)
    ensures |s| == 2 && IsHexDigit(s[0]) && IsHexDigit(s[1])
    ensures HexDigitValue(s[0]) * 16 + HexDigitValue(s[1]) == b
    ensures forall k :: 0 <= k < 2 ==> !('A' <= s[k] <= 'F')
  {
    [HexChar(b / 16), HexChar(b % 16)]
  }

  /** `bytes.fromhex(s)`: pairs of hex digits (either case), with ASCII
      whitespace allowed before each pair; anything else raises ValueError. */
  function FromHex(s: string): (r: Result<seq<byte>>)
    ensures r.Err? ==> r.error == ValueError
    ensures r.Ok? ==> |r.value| <= |s| / 2
    decreases |s|
  {
    if s == [] then Ok([])
    else if IsAsciiSpace(s[0]) then FromHex(s[1..])
    else if |s| >= 2 && IsHexDigit(s[0]) && IsHexDigit(s[1]) then
      match FromHex(s[2..])
      case Ok(rest) => Ok([HexDigitValue(s[0]) * 16 + HexDigitValue(s[1])] + rest)
      case Err(e) => Err(e)
    else Err(ValueError)
  }

  /** Hex text without whitespace decodes exactly when it has an even number
      of digits, byte k coming from digits 2k and 2k+1. */
  lemma {:induction false} FromHexDigits(s: string)
    requires AllDigits(s, 16)
    ensures FromHex(s).Ok? <==> |s| % 2 == 0
    ensures FromHex(s).Ok? ==> |FromHex(s).value| == |s| / 2
    ensures FromHex(s).Ok? ==> forall k :: 0 <= k < |s| / 2 ==>
      FromHex(s).value[k] == HexDigitValue(s[2 * k]) * 16 + HexDigitValue(s[2 * k + 1])
    decreases |s|
  {
    if |s| >= 2 {
      FromHexDigits(s[2..]);
      if FromHex(s).Ok? {
        var r := FromHex(s).value;
        forall k | 0 <= k < |s| / 2
          ensures r[k] == HexDigitValue(s[2 * k]) * 16 + HexDigitValue(s[2 * k + 1])
        {
          if k > 0 {
            assert r[k] == FromHex(s[2..]).value[k - 1];
            assert s[2..][2 * (k - 1)] == s[2 * k];
            assert s[2..][2 * (k - 1) + 1] == s[2 * k + 1];
          }
        }
      }
    }
  }

  /** Concatenation of `"%02x" % b` over the bytes, with no separator. */
  function HexString(bs: seq<byte>): (s: string)
    ensures |s| == 2 * |bs|
  {
    if bs == [] then [] else Hex2(bs[0]) + HexString(bs[1..])
  }

  /** `bytes.fromhex` reads back what `"%02x"` formatting wrote. */
  lemma {:induction false} FromHexRoundTrip(bs: seq<byte>)
    ensures FromHex(HexString(bs)) == Ok(bs)
  {
    if bs != [] {
      var s := HexString(bs);
      FromHexRoundTrip(bs[1..]);
      assert s[2..] == HexString(bs[1..]);
      assert bs == [bs[0]] + bs[1..];
    }
  }

  // ---------------------------------------------------------------------
  // UTF-8
  // ---------------------------------------------------------------------

  /** The UTF-8 encoding of one Unicode scalar value. */
  function Utf8Char(c: char): (r: seq<byte>)
    ensures 1 <= |r| <= 4
    ensures (|r| == 1) <==> (c as int < 0x80)
    ensures |r| == 1 ==> r[0] == c as int
  {
    var n := c as int;
    if n < 0x80 then [n]
    else if n < 0x800 then [0xC0 + n / 64, 0x80 + n % 64]
    else if n < 0x1_0000 then [0xE0 + n / 4096, 0x80 + (n / 64) % 64, 0x80 + n % 64]
    else [0xF0 + n / 0x4_0000, 0x80 + (n / 4096) % 64, 0x80 + (n / 64) % 64, 0x80 + n % 64]
  }

  /** `s.encode("utf-8")`: at least one byte per character, and an ASCII
      character is its own byte. */
  function Utf8Encode(s: string): (r: seq<byte>)
    ensures |s| <= |r| <= 4 * |s|
  {
    if s == [] then [] else Utf8Char(s[0]) + Utf8Encode(s[1..])
  }

  /** An ASCII name encodes to its code points, one byte per character. */
  lemma {:induction false} Utf8Ascii(s: string)
    requires forall k :: 0 <= k < |s| ==> s[k] as int < 0x80
    ensures |Utf8Encode(s)| == |s|
    ensures forall k :: 0 <= k < |s| ==> Utf8Encode(s)[k] == s[k] as int
  {
    if s != [] {
      Utf8Ascii(s[1..]);
    }
  }
}
