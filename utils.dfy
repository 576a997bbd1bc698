/**
 * Identity helpers of the player (ak_rpi/utils.py): the MAC address as
 * colon-separated upper-case hex, the board serial number read from the
 * lines of /proc/cpuinfo, and the map from network interface to IPv4 address.
 *
 * The operating system's answers (the node number, the file's lines, the
 * interface table) are parameters.
 */
module Utils {
  import opened Wrappers

  // ------------------------------------------------------------------------
  // String operations with Python's semantics
  // ------------------------------------------------------------------------

  /** `sep.join(xs)`. */
  function Join(xs: seq<string>, sep: char): string
  {
    if |xs| == 0 then []
    else if |xs| == 1 then xs[0]
    else xs[0] + [sep] + Join(xs[1..], sep)
  }

  /** `s.split(sep)`: the pieces between separators, always at least one. */
  function Split(s: string, sep: char): (r: seq<string>)
    ensures |r| >= 1
    ensures |r| == 1 <==> sep !in s
  {
    if |s| == 0 then [[]]
    else
      var rest := Split(s[1..], sep);
      assert s == [s[0]] + s[1..];
      if s[0] == sep then
        [[]] + rest
      else
        assert rest == [rest[0]] + rest[1..];
        [[s[0]] + rest[0]] + rest[1..]
  }

  /** Splitting text that opens with a separator-free `a` glues `a` to the
      first piece of the rest. */
  lemma {:induction false} SplitConcat(a: string, t: string, sep: char)
    requires sep !in a
    ensures Split(a + t, sep) == [a + Split(t, sep)[0]] + Split(t, sep)[1..]
  {
    var x := Split(t, sep);
    if a != [] {
      var s := a + t;
      assert s[0] == a[0] && s[1..] == a[1..] + t;
      SplitConcat(a[1..], t, sep);
      var r := Split(s[1..], sep);
      assert r == [a[1..] + x[0]] + x[1..];
      assert Split(s, sep) == [[a[0]] + r[0]] + r[1..];
      assert [a[0]] + (a[1..] + x[0]) == a + x[0];
    } else {
      assert a + t == t && a + x[0] == x[0];
      assert x == [x[0]] + x[1..];
    }
  }

  /** A leading separator opens an empty first piece. */
  lemma SplitAfterSeparator(t: string, sep: char)
    ensures Split([sep] + t, sep) == [[]] + Split(t, sep)
  {
    assert ([sep] + t)[1..] == t;
  }

  /** `s.replace(pat, "")`: every non-overlapping occurrence of `pat`, found
      scanning left to right, is removed, so the text never grows. */
  function RemoveAll(s: string, pat: string): (r: string)
    requires |pat| > 0
    ensures |r| <= |s|
    decreases |s|
  {
    if |s| == 0 then []
    else if |pat| <= |s| && s[..|pat|] == pat then RemoveAll(s[|pat|..], pat)
    else [s[0]] + RemoveAll(s[1..], pat)
  }

  /** What is left is drawn from `s`, and a single-character pattern leaves no
      occurrence behind. */
  lemma {:induction false} RemoveAllKept(s: string, pat: string)
    requires |pat| > 0
    ensures multiset(RemoveAll(s, pat)) <= multiset(s)
    ensures |pat| == 1 ==> pat[0] !in RemoveAll(s, pat)
    decreases |s|
  {
    if |s| == 0 {
    } else if |pat| <= |s| && s[..|pat|] == pat {
      RemoveAllKept(s[|pat|..], pat);
      assert s == s[..|pat|] + s[|pat|..];
    } else {
      RemoveAllKept(s[1..], pat);
      assert s == [s[0]] + s[1..];
    }
  }

  /** Text that lacks the last character of `pat` holds no occurrence of it. */
  lemma {:induction false} RemoveAllAbsent(s: string, pat: string)
    requires |pat| > 0 && pat[|pat| - 1] !in s
    ensures RemoveAll(s, pat) == s
  {
    if |s| > 0 {
      RemoveAllAbsent(s[1..], pat);
      assert s == [s[0]] + s[1..];
    }
  }

  /** Removing a single character distributes over concatenation. */
  lemma {:induction false} RemoveCharConcat(a: string, b: string, c: char)
    ensures RemoveAll(a + b, [c]) == RemoveAll(a, [c]) + RemoveAll(b, [c])
  {
    if a == [] {
      assert a + b == b;
    } else {
      assert (a + b)[1..] == a[1..] + b;
      assert (a + b)[..1] == a[..1];
      RemoveCharConcat(a[1..], b, c);
    }
  }

  /** `c.upper()` for the ASCII letters. */
  function UpperChar(c: char): char
  {
    if 'a' <= c <= 'z' then (c as int - 32) as char else c
  }

  /** `s.upper()`, character by character: each lower-case ASCII letter
      becomes its upper-case partner and every other character is kept. */
  function Upper(s: string): (r: string)
    ensures |r| == |s|
    ensures forall i :: 0 <= i < |s| && 'a' <= s[i] <= 'z' ==>
              'A' <= r[i] <= 'Z' && r[i] as int - 'A' as int == s[i] as int - 'a' as int
    ensures forall i :: 0 <= i < |s| && !('a' <= s[i] <= 'z') ==> r[i] == s[i]
  {
    seq(|s|, i requires 0 <= i < |s| => UpperChar(s[i]))
  }

  /** The characters `str.isspace` accepts. */
  predicate IsSpace(c: char)
  {
    ('\t' <= c <= '\r') || ('\U{1C}' <= c <= ' ') || c == '\U{85}' || c == '\U{A0}'
    || c == '\U{1680}' || ('\U{2000}' <= c <= '\U{200A}') || c == '\U{2028}' || c == '\U{2029}'
    || c == '\U{202F}' || c == '\U{205F}' || c == '\U{3000}'
  }

  /** `s.strip()`: leading and trailing whitespace removed. */
  function Strip(s: string): (r: string)
    ensures |r| <= |s|
    ensures r != [] ==> !IsSpace(r[0]) && !IsSpace(r[|r| - 1])
    ensures r == [] <==> forall i :: 0 <= i < |s| ==> IsSpace(s[i])
  {
    if s != [] && IsSpace(s[0]) then Strip(s[1..])
    else if s != [] && IsSpace(s[|s| - 1]) then Strip(s[..|s| - 1])
    else s
  }

  // ------------------------------------------------------------------------
  // MAC address (utils.py:9-17)
  // ------------------------------------------------------------------------

  function LowerHexDigit(d: nat): char
    requires d < 16
  {
    if d < 10 then ('0' as int + d) as char else ('a' as int + d - 10) as char
  }

  function UpperHexDigit(d: nat): char
    requires d < 16
  {
    if d < 10 then ('0' as int + d) as char else ('A' as int + d - 10) as char
  }

  predicate IsUpperHexChar(c: char)
  {
    '0' <= c <= '9' || 'A' <= c <= 'F'
  }

  /** The value of one upper-case hex digit. */
  function DigitValue(c: char): nat
  {
    if '0' <= c <= '9' then c as int - '0' as int
    else if 'A' <= c <= 'F' then c as int - 'A' as int + 10
    else 0
  }

  predicate IsLowerHexChar(c: char)
  {
    '0' <= c <= '9' || 'a' <= c <= 'f'
  }

  /** The lower-case hex digits of `n`, most significant first, no leading zeros. */
  function LowerHexDigits(n: nat): (s: string)
    ensures |s| > 0
    ensures forall i :: 0 <= i < |s| ==> IsLowerHexChar(s[i])
    decreases n
  {
    if n < 16 then [LowerHexDigit(n)] else LowerHexDigits(n / 16) + [LowerHexDigit(n % 16)]
  }

  /** Python's `hex(n)` for a non-negative `n`: `0x` and at least one
      lower-case hex digit. */
  function PyHex(n: nat): (h: string)
    ensures |h| >= 3 && h[..2] == "0x"
    ensures forall i :: 2 <= i < |h| ==> IsLowerHexChar(h[i])
  {
    "0x" + LowerHexDigits(n)
  }

  /** The upper-case hex numeral of `n`: the reference the MAC address is
      stated against. */
  function UpperHexDigits(n: nat): (s: string)
    ensures |s| > 0
    ensures forall i :: 0 <= i < |s| ==> IsUpperHexChar(s[i])
    decreases n
  {
    if n < 16 then [UpperHexDigit(n)] else UpperHexDigits(n / 16) + [UpperHexDigit(n % 16)]
  }

  /** The value of a hex numeral, most significant digit first. */
  function HexValue(s: string): nat
  {
    if s == [] then 0 else HexValue(s[..|s| - 1]) * 16 + DigitValue(s[|s| - 1])
  }

  /** Reading the numeral back gives the number, and it has no zero padding. */
  lemma {:induction false} UpperHexDigitsRoundTrip(n: nat)
    ensures HexValue(UpperHexDigits(n)) == n
    ensures n > 0 ==> UpperHexDigits(n)[0] != '0'
    decreases n
  {
    var s := UpperHexDigits(n);
    if n >= 16 {
      UpperHexDigitsRoundTrip(n / 16);
      assert s[..|s| - 1] == UpperHexDigits(n / 16);
    } else {
      assert s[..0] == [];
    }
  }

  /** Upper-casing the lower-case numeral gives the upper-case one. */
  lemma {:induction false} UpperOfLowerHexDigits(n: nat)
    ensures Upper(LowerHexDigits(n)) == UpperHexDigits(n)
    decreases n
  {
    if n >= 16 {
      UpperOfLowerHexDigits(n / 16);
      var a, c := LowerHexDigits(n / 16), LowerHexDigit(n % 16);
      assert Upper(a + [c]) == Upper(a) + [UpperChar(c)];
    }
  }

  /** The digits the MAC address is built from: `hex(node)` without `0x`,
      upper-cased (utils.py:15). */
  function MacDigits(node: nat): (s: string)
    ensures s == UpperHexDigits(node)
  {
    var lower := LowerHexDigits(node);
    assert forall i :: 0 <= i < |lower| ==> lower[i] != 'x' by {
      LowerHexDigitsNoX(node);
    }
    RemoveAllAbsent(lower, "0x");
    assert PyHex(node)[..2] == "0x" && PyHex(node)[2..] == lower;
    UpperOfLowerHexDigits(node);
    Upper(RemoveAll(PyHex(node), "0x"))
  }

  lemma {:induction false} LowerHexDigitsNoX(n: nat)
    ensures forall i :: 0 <= i < |LowerHexDigits(n)| ==> LowerHexDigits(n)[i] != 'x'
    decreases n
  {
    if n >= 16 {
      LowerHexDigitsNoX(n / 16);
    }
  }

  function Min(a: int, b: int): int
  {
    if a < b then a else b
  }

  /** `[s[i:i+2] for i in range(0, len(s), 2)]`: consecutive two-character
      groups, the last one shorter when `s` has odd length. */
  function Chunks(s: string): (r: seq<string>)
    ensures |r| == (|s| + 1) / 2
    ensures forall i :: 0 <= i < |r| ==> r[i] == s[2 * i .. Min(2 * i + 2, |s|)]
    decreases |s|
  {
    if |s| == 0 then []
    else if |s| <= 2 then [s]
    else
      var rest := Chunks(s[2..]);
      var r := [s[..2]] + rest;
      assert forall i :: 1 <= i < |r| ==> r[i] == s[2 * i .. Min(2 * i + 2, |s|)] by {
        forall i | 1 <= i < |r| ensures r[i] == s[2 * i .. Min(2 * i + 2, |s|)] {
          assert r[i] == rest[i - 1] == s[2..][2 * (i - 1) .. Min(2 * (i - 1) + 2, |s| - 2)];
        }
      }
      r
  }

  /** All groups have two characters except the last, which has one when the
      length is odd. */
  lemma ChunkSizes(s: string)
    requires s != []
    ensures forall i :: 0 <= i < |Chunks(s)| - 1 ==> |Chunks(s)[i]| == 2
    ensures |Chunks(s)[|Chunks(s)| - 1]| == 2 - |s| % 2
  {
    var r := Chunks(s);
    var k := |r| - 1;
    assert r[k] == s[2 * k .. Min(2 * k + 2, |s|)];
    if |s| % 2 == 0 {
      assert 2 * k + 2 == |s|;
    } else {
      assert 2 * k + 1 == |s|;
    }
  }

  /** Groups of two joined by colons (utils.py:16): up to two characters are
      kept as they are; otherwise the first group is followed by a colon. */
  function FormatMac(digits: string): (r: string)
    ensures |digits| <= 2 ==> r == digits
    ensures |digits| > 2 ==> |r| >= 3 && r[..3] == digits[..2] + [':']
  {
    var chunks := Chunks(digits);
    if |digits| > 2 then
      assert |chunks| >= 2 && chunks[0] == digits[..2];
      var r := chunks[0] + [':'] + Join(chunks[1..], ':');
      assert r[..3] == digits[..2] + [':'];
      r
    else
      assert |digits| > 0 ==> chunks == [digits];
      Join(chunks, ':')
  }

  /** The formatted address peels off one group at a time. */
  lemma FormatMacStep(s: string)
    requires |s| > 2
    ensures FormatMac(s) == s[..2] + [':'] + FormatMac(s[2..])
  {
    var rest := Chunks(s[2..]);
    assert Chunks(s) == [s[..2]] + rest;
    assert (Chunks(s))[1..] == rest;
  }

  /** Every character of the formatted address is a digit or a colon. */
  lemma {:induction false} FormatMacChars(s: string)
    ensures forall c :: c in FormatMac(s) ==> c in s || c == ':'
    decreases |s|
  {
    if |s| > 2 {
      FormatMacStep(s);
      FormatMacChars(s[2..]);
      assert s == s[..2] + s[2..];
    }
  }

  /** Removing the colons restores the digits. */
  lemma {:induction false} FormatMacRemoveColons(s: string)
    requires ':' !in s
    ensures RemoveAll(FormatMac(s), ":") == s
    decreases |s|
  {
    if |s| <= 2 {
      RemoveAllAbsent(s, ":");
    } else {
      FormatMacStep(s);
      FormatMacRemoveColons(s[2..]);
      RemoveCharConcat(s[..2] + [':'], FormatMac(s[2..]), ':');
      RemoveCharConcat(s[..2], [':'], ':');
      RemoveAllAbsent(s[..2], ":");
      assert RemoveAll([':'], ":") == [];
      assert s == s[..2] + s[2..];
    }
  }

  /** Splitting the formatted address at its colons gives back the groups. */
  lemma {:induction false} FormatMacGroups(s: string)
    requires s != [] && ':' !in s
    ensures Split(FormatMac(s), ':') == Chunks(s)
    decreases |s|
  {
    if |s| <= 2 {
      assert Chunks(s) == [s];
      assert FormatMac(s) == s;
      SplitConcat(s, [], ':');
      assert s + [] == s && Split([], ':') == [[]];
    } else {
      FormatMacStep(s);
      FormatMacGroups(s[2..]);
      var t := [':'] + FormatMac(s[2..]);
      assert s[..2] + [':'] + FormatMac(s[2..]) == s[..2] + t;
      SplitConcat(s[..2], t, ':');
      assert Split(t, ':') == [[]] + Chunks(s[2..]) by {
        assert t[0] == ':' && t[1..] == FormatMac(s[2..]);
      }
      assert s[..2] + [] == s[..2];
      assert Chunks(s) == [s[..2]] + Chunks(s[2..]);
    }
  }

  /** `get_mac_address()` for the node number `node` (`uuid.getnode()`). */
  function GetMacAddress(node: nat): (mac: string)
    ensures RemoveAll(mac, ":") == UpperHexDigits(node)
    ensures forall i :: 0 <= i < |mac| ==> IsUpperHexChar(mac[i]) || mac[i] == ':'
    ensures var digits, groups := UpperHexDigits(node), Split(mac, ':');
            groups == Chunks(digits)
            && |groups| == (|digits| + 1) / 2
            && (forall i :: 0 <= i < |groups| - 1 ==> |groups[i]| == 2)
            && |groups[|groups| - 1]| == 2 - |digits| % 2
  {
    var digits := MacDigits(node);
    assert ':' !in digits;
    FormatMacRemoveColons(digits);
    FormatMacGroups(digits);
    ChunkSizes(digits);
    FormatMacHex(digits);
    FormatMac(digits)
  }

  /** Formatting hex digits gives hex digits and colons only. */
  lemma FormatMacHex(digits: string)
    requires forall i :: 0 <= i < |digits| ==> IsUpperHexChar(digits[i])
    ensures forall i :: 0 <= i < |FormatMac(digits)| ==> IsUpperHexChar(FormatMac(digits)[i]) || FormatMac(digits)[i] == ':'
  {
    var mac := FormatMac(digits);
    FormatMacChars(digits);
    forall i | 0 <= i < |mac| ensures IsUpperHexChar(mac[i]) || mac[i] == ':' {
      assert mac[i] in mac;
      if mac[i] != ':' {
        var k :| 0 <= k < |digits| && digits[k] == mac[i];
      }
    }
  }

  // ------------------------------------------------------------------------
  // Serial number (utils.py:20-35)
  // ------------------------------------------------------------------------

  /** `line.split(":")[1]` on a line without a colon raises IndexError, which
      `get_serial_number` does not catch. */
  datatype SerialError = IndexError

  /** `line.startswith("Serial")`. */
  predicate IsSerialLine(line: string)
  {
    |line| >= 6 && line[..6] == "Serial"
  }

  /** `line.split(":")[1].strip()`. */
  function SerialField(line: string): (r: Result<string, SerialError>)
    ensures r.Failure? <==> ':' !in line
  {
    var parts := Split(line, ':');
    if |parts| < 2 then Failure(IndexError) else Success(Strip(parts[1]))
  }

  /** The field is the text between the first colon and the next colon (or
      the end of the line), whitespace-stripped. */
  lemma SerialFieldBetweenColons(key: string, value: string, rest: string)
    requires ':' !in key && ':' !in value
    requires rest == [] || rest[0] == ':'
    ensures SerialField(key + [':'] + value + rest) == Success(Strip(value))
  {
    var tail := value + rest;
    assert key + [':'] + value + rest == key + [':'] + tail;
    SplitSecondPiece(key, tail);
    SplitFirstPiece(value, rest);
  }

  /** After a separator-free `key` and one separator, the second piece is the
      first piece of what follows. */
  lemma SplitSecondPiece(key: string, tail: string)
    requires ':' !in key
    ensures |Split(key + [':'] + tail, ':')| >= 2
    ensures Split(key + [':'] + tail, ':')[1] == Split(tail, ':')[0]
  {
    assert key + [':'] + tail == key + ([':'] + tail);
    SplitConcat(key, [':'] + tail, ':');
    SplitAfterSeparator(tail, ':');
  }

  /** A separator-free `value` followed by nothing or by a separator is the
      first piece. */
  lemma SplitFirstPiece(value: string, rest: string)
    requires ':' !in value
    requires rest == [] || rest[0] == ':'
    ensures Split(value + rest, ':')[0] == value
  {
    SplitConcat(value, rest, ':');
    if rest == [] {
      assert Split(rest, ':') == [[]];
    } else {
      assert rest == [':'] + rest[1..];
      SplitAfterSeparator(rest[1..], ':');
    }
  }

  /** `get_serial_number()`. `cpuinfo` holds the lines of /proc/cpuinfo, or is
      None when the file does not exist; `node` is the node number the MAC
      address fallback is built from. */
  method GetSerialNumber(cpuinfo: Option<seq<string>>, node: nat) returns (r: Result<string, SerialError>)
    ensures cpuinfo.None? ==> r == Success(GetMacAddress(node))
    ensures (cpuinfo.Some? && forall i :: 0 <= i < |cpuinfo.value| ==> !IsSerialLine(cpuinfo.value[i]))
              ==> r == Success(GetMacAddress(node))
    ensures cpuinfo.Some? ==>
              forall k :: 0 <= k < |cpuinfo.value| && IsSerialLine(cpuinfo.value[k])
                          && (forall i :: 0 <= i < k ==> !IsSerialLine(cpuinfo.value[i]))
                          ==> r == SerialField(cpuinfo.value[k])
  {
    if cpuinfo.None? {
      return Success(GetMacAddress(node));
    }
    var lines := cpuinfo.value;
    var j := 0;
    while j < |lines|
      invariant 0 <= j <= |lines|
      invariant forall i :: 0 <= i < j ==> !IsSerialLine(lines[i])
    {
      if IsSerialLine(lines[j]) {
        return SerialField(lines[j]);
      }
      j := j + 1;
    }
    return Success(GetMacAddress(node));
  }

  // ------------------------------------------------------------------------
  // IP addresses (utils.py:38-49)
  // ------------------------------------------------------------------------

  /** `socket.AF_INET` on Linux. */
  const AF_INET := 2

  /** One address of an interface: its family and its text. */
  datatype Addr = Addr(family: int, address: string)

  /** The last IPv4 address in `addrs`, if there is one. */
  function LastIPv4(addrs: seq<Addr>): (r: Option<string>)
    ensures r.None? <==> forall j :: 0 <= j < |addrs| ==> addrs[j].family != AF_INET
    ensures r.Some? ==>
              exists j :: 0 <= j < |addrs| && addrs[j] == Addr(AF_INET, r.value)
                          && forall k :: j < k < |addrs| ==> addrs[k].family != AF_INET
  {
    if addrs == [] then None
    else
      var last := addrs[|addrs| - 1];
      if last.family == AF_INET then
        assert addrs[|addrs| - 1] == Addr(AF_INET, last.address);
        Some(last.address)
      else
        var init := addrs[..|addrs| - 1];
        assert forall j :: 0 <= j < |init| ==> init[j] == addrs[j];
        LastIPv4(init)
  }

  /** `get_ip_addresses()` over the interface table `interfaces` (what
      `psutil.net_if_addrs()` returns): each interface that has an IPv4 address
      maps to the last one listed; the others are absent. */
  method GetIpAddresses(interfaces: map<string, seq<Addr>>) returns (ipAddresses: map<string, string>)
    ensures forall name :: name in ipAddresses <==> name in interfaces && LastIPv4(interfaces[name]).Some?
    ensures forall name :: name in ipAddresses ==> ipAddresses[name] == LastIPv4(interfaces[name]).value
  {
    ipAddresses := map[];
    var remaining := interfaces.Keys;
    while remaining != {}
      invariant remaining <= interfaces.Keys
      invariant forall name :: name in ipAddresses ==> name in interfaces && name !in remaining
      invariant forall name :: name in interfaces && name !in remaining ==>
                  (name in ipAddresses <==> LastIPv4(interfaces[name]).Some?)
      invariant forall name :: name in ipAddresses ==> ipAddresses[name] == LastIPv4(interfaces[name]).value
      decreases remaining
    {
      var name :| name in remaining;
      var addrs := interfaces[name];
      var before := ipAddresses;
      var j := 0;
      while j < |addrs|
        invariant 0 <= j <= |addrs|
        invariant forall other :: other != name ==>
                    (other in ipAddresses <==> other in before)
                    && (other in ipAddresses ==> ipAddresses[other] == before[other])
        invariant name in ipAddresses <==> LastIPv4(addrs[..j]).Some?
        invariant name in ipAddresses ==> ipAddresses[name] == LastIPv4(addrs[..j]).value
      {
        assert addrs[..j + 1][..j] == addrs[..j];
        if addrs[j].family == AF_INET {
          ipAddresses := ipAddresses[name := addrs[j].address];
        }
        j := j + 1;
      }
      assert addrs[..j] == addrs;
      remaining := remaining - {name};
    }
  }
}
