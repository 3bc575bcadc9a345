/** The Wake-on-LAN packet builder of scripts/send_wol.py: MAC address
    parsing, the AMD "Magic Packet" layout, and the script's exit status. */
module MagicPacket {
  import opened Wrappers

  newtype byte = x: int | 0 <= x < 256

  /** The ValueError raised for an address that is not 12 hex digits. */
  datatype MacError = InvalidMacAddress(input: string)

  /** The characters of "0123456789abcdefABCDEF". */
  predicate IsHexDigit(c: char) {
    '0' <= c <= '9' || 'a' <= c <= 'f' || 'A' <= c <= 'F'
  }

  predicate AllHex(s: string) {
    forall i :: 0 <= i < |s| ==> IsHexDigit(s[i])
  }

  /** The value of one hex digit, either case. */
  function HexValue(c: char): (v: nat)
    requires IsHexDigit(c)
    ensures v < 16
  {
    if '0' <= c <= '9' then c as int - '0' as int
    else if 'a' <= c <= 'f' then c as int - 'a' as int + 10
    else c as int - 'A' as int + 10
  }

  /** `s.replace(c, "")`: every occurrence of `c` removed, every other
      character kept, in order. */
  function Without(s: string, c: char): (r: string)
    ensures c !in r
    ensures forall x :: x != c ==> multiset(r)[x] == multiset(s)[x]
    ensures c !in s ==> r == s
  {
    if s == [] then []
    else
      assert s == [s[0]] + s[1..];
      if s[0] == c then Without(s[1..], c) else [s[0]] + Without(s[1..], c)
  }

  /** `mac_address.replace(":", "").replace("-", "")`. */
  function StripSeparators(s: string): string {
    Without(Without(s, ':'), '-')
  }

  /** `bytes.fromhex` on a string of hex digit pairs. */
  function FromHex(h: string): (bytes: seq<byte>)
    requires |h| % 2 == 0 && AllHex(h)
    ensures |bytes| == |h| / 2
    ensures forall i :: 0 <= i < |bytes| ==> bytes[i] as int == 16 * HexValue(h[2 * i]) + HexValue(h[2 * i + 1])
  {
    if h == [] then []
    else [(16 * HexValue(h[0]) + HexValue(h[1])) as byte] + FromHex(h[2..])
  }

  /** `_parse_mac_address`: succeeds iff, once every ':' and '-' is removed,
      exactly 12 hex digits remain; byte i is then the value of digits 2i, 2i+1. */
  function ParseMac(macAddress: string): (r: Result<seq<byte>, MacError>)
    ensures var m := StripSeparators(macAddress);
      r.Ok? <==> |m| == 12 && AllHex(m)
    ensures var m := StripSeparators(macAddress);
      r.Ok? ==> (|r.value| == 6 && |m| == 12 && AllHex(m) &&
        forall i :: 0 <= i < 6 ==> r.value[i] as int == 16 * HexValue(m[2 * i]) + HexValue(m[2 * i + 1]))
    ensures r.Err? ==> r.error == InvalidMacAddress(macAddress)
  {
    var mac := StripSeparators(macAddress);
    if |mac| != 12 || !AllHex(mac) then Err(InvalidMacAddress(macAddress))
    else Ok(FromHex(mac))
  }

  /* ---------- Formatting, the partner of parsing ---------- */

  /** The hex digit for a value below 16, in upper or lower case. */
  function HexDigit(v: nat, upper: bool): (c: char)
    requires v < 16
    ensures IsHexDigit(c) && HexValue(c) == v
  {
    if v < 10 then ('0' as int + v) as char
    else if upper then ('A' as int + v - 10) as char
    else ('a' as int + v - 10) as char
  }

  /** Two hex digits for one byte. */
  function HexPair(b: byte, upper: bool): string {
    [HexDigit(b as int / 16, upper), HexDigit(b as int % 16, upper)]
  }

  /** The bytes as hex digit pairs with no separator. */
  function HexString(mac: seq<byte>, upper: bool): (s: string)
    ensures |s| == 2 * |mac| && AllHex(s)
  {
    if mac == [] then [] else HexPair(mac[0], upper) + HexString(mac[1..], upper)
  }

  /** The bytes as hex digit pairs joined by `sep`, e.g. "AA:BB:CC:DD:EE:FF". */
  function FormatMac(mac: seq<byte>, sep: string, upper: bool): string
    decreases |mac|
  {
    if |mac| <= 1 then HexString(mac, upper)
    else HexPair(mac[0], upper) + sep + FormatMac(mac[1..], sep, upper)
  }

  /** The separators the parser accepts between digit pairs. */
  predicate IsSeparator(sep: string) {
    sep == "" || sep == ":" || sep == "-"
  }

  lemma {:induction false} WithoutConcat(a: string, b: string, c: char)
    ensures Without(a + b, c) == Without(a, c) + Without(b, c)
    decreases |a|
  {
    if a != [] {
      assert (a + b)[0] == a[0] && (a + b)[1..] == a[1..] + b;
      WithoutConcat(a[1..], b, c);
    } else {
      assert a + b == b;
    }
  }

  lemma StripConcat(a: string, b: string)
    ensures StripSeparators(a + b) == StripSeparators(a) + StripSeparators(b)
  {
    WithoutConcat(a, b, ':');
    WithoutConcat(Without(a, ':'), Without(b, ':'), '-');
  }

  lemma StripHex(s: string)
    requires AllHex(s)
    ensures StripSeparators(s) == s
  {
    assert forall i :: 0 <= i < |s| ==> s[i] != ':' && s[i] != '-';
  }

  /** Removing the separators of a formatted address leaves its bare hex digits. */
  lemma {:induction false} StripFormat(mac: seq<byte>, sep: string, upper: bool)
    requires IsSeparator(sep)
    ensures StripSeparators(FormatMac(mac, sep, upper)) == HexString(mac, upper)
    decreases |mac|
  {
    if |mac| <= 1 {
      StripHex(HexString(mac, upper));
    } else {
      var head := HexPair(mac[0], upper);
      assert AllHex(head);
      StripConcat(head + sep, FormatMac(mac[1..], sep, upper));
      StripConcat(head, sep);
      StripHex(head);
      assert StripSeparators(sep) == [];
      StripFormat(mac[1..], sep, upper);
      assert HexString(mac, upper) == head + HexString(mac[1..], upper);
    }
  }

  /** Digits 2i and 2i+1 of the hex rendering are the two digits of byte i. */
  lemma {:induction false} HexStringAt(mac: seq<byte>, upper: bool, i: nat)
    requires i < |mac|
    ensures |HexString(mac, upper)| == 2 * |mac|
    ensures HexString(mac, upper)[2 * i] == HexDigit(mac[i] as int / 16, upper)
    ensures HexString(mac, upper)[2 * i + 1] == HexDigit(mac[i] as int % 16, upper)
    decreases i
  {
    var h := HexString(mac, upper);
    assert h == HexPair(mac[0], upper) + HexString(mac[1..], upper);
    if i > 0 {
      HexStringAt(mac[1..], upper, i - 1);
      assert h[2 * i] == HexString(mac[1..], upper)[2 * (i - 1)];
      assert h[2 * i + 1] == HexString(mac[1..], upper)[2 * (i - 1) + 1];
    }
  }

  /** `bytes.fromhex` undoes the hex rendering. */
  lemma FromHexString(mac: seq<byte>, upper: bool)
    ensures FromHex(HexString(mac, upper)) == mac
  {
    var h := HexString(mac, upper);
    var b := FromHex(h);
    assert |b| == |mac|;
    forall i | 0 <= i < |mac|
      ensures b[i] == mac[i]
    {
      HexStringAt(mac, upper, i);
      var v := mac[i] as int;
      assert HexValue(h[2 * i]) == v / 16 && HexValue(h[2 * i + 1]) == v % 16;
      assert b[i] as int == 16 * (v / 16) + v % 16 == v;
    }
    assert b == mac;
  }

  /** Round trip: every 6-byte address, written with ':', '-' or no separator,
      in upper or lower case, parses back to itself. */
  lemma ParseFormatRoundTrip(mac: seq<byte>, sep: string, upper: bool)
    requires |mac| == 6 && IsSeparator(sep)
    ensures ParseMac(FormatMac(mac, sep, upper)) == Ok(mac)
  {
    StripFormat(mac, sep, upper);
    FromHexString(mac, upper);
  }

  /** The address AA:BB:CC:DD:EE:FF used by the spelling lemmas. */
  const SampleMac: seq<byte> := [0xAA, 0xBB, 0xCC, 0xDD, 0xEE, 0xFF]

  /** One unfolding of `FormatMac` on a list of at least two bytes. */
  lemma FormatCons(b: byte, rest: seq<byte>, sep: string, upper: bool)
    requires |rest| >= 1
    ensures FormatMac([b] + rest, sep, upper) == HexPair(b, upper) + sep + FormatMac(rest, sep, upper)
  {
    assert ([b] + rest)[1..] == rest;
  }

  /** The sample address written out with a given separator and case, each
      digit pair with its separator joined to the rest of the address. */
  lemma SampleFormat(sep: string, upper: bool, aa: string, bb: string, cc: string, dd: string, ee: string, ff: string)
    requires aa == HexPair(0xAA, upper) && bb == HexPair(0xBB, upper) && cc == HexPair(0xCC, upper)
    requires dd == HexPair(0xDD, upper) && ee == HexPair(0xEE, upper) && ff == HexPair(0xFF, upper)
    ensures FormatMac(SampleMac, sep, upper)
      == (aa + sep) + ((bb + sep) + ((cc + sep) + ((dd + sep) + ((ee + sep) + ff))))
  {
    assert FormatMac([0xFF], sep, upper) == ff;
    FormatCons(0xEE, [0xFF], sep, upper);
    assert [0xEE] + [0xFF] == [0xEE, 0xFF];
    FormatCons(0xDD, [0xEE, 0xFF], sep, upper);
    assert [0xDD] + [0xEE, 0xFF] == [0xDD, 0xEE, 0xFF];
    FormatCons(0xCC, [0xDD, 0xEE, 0xFF], sep, upper);
    assert [0xCC] + [0xDD, 0xEE, 0xFF] == [0xCC, 0xDD, 0xEE, 0xFF];
    FormatCons(0xBB, [0xCC, 0xDD, 0xEE, 0xFF], sep, upper);
    assert [0xBB] + [0xCC, 0xDD, 0xEE, 0xFF] == [0xBB, 0xCC, 0xDD, 0xEE, 0xFF];
    FormatCons(0xAA, [0xBB, 0xCC, 0xDD, 0xEE, 0xFF], sep, upper);
    assert [0xAA] + [0xBB, 0xCC, 0xDD, 0xEE, 0xFF] == SampleMac;
  }

  /** The capital spelling of the sample address with separator `c`, grouped
      as `SampleFormat` groups it. */
  lemma SeparatedText(s: string, c: char)
    requires s == ['A', 'A', c, 'B', 'B', c, 'C', 'C', c, 'D', 'D', c, 'E', 'E', c, 'F', 'F']
    ensures ("AA" + [c]) + (("BB" + [c]) + (("CC" + [c]) + (("DD" + [c]) + (("EE" + [c]) + "FF")))) == s
  {
    var t2 := ['E', 'E', c, 'F', 'F'];
    assert ("EE" + [c]) + "FF" == t2;
    var t3 := ['D', 'D', c] + t2;
    assert ("DD" + [c]) + t2 == t3;
    var t4 := ['C', 'C', c] + t3;
    assert ("CC" + [c]) + t3 == t4;
    var t5 := ['B', 'B', c] + t4;
    assert ("BB" + [c]) + t4 == t5;
    assert ("AA" + [c]) + t5 == s;
  }

  /** The sample address in capitals, its octets separated by the character `c`. */
  lemma SeparatedSpelling(s: string, c: char)
    requires c == ':' || c == '-'
    requires s == ['A', 'A', c, 'B', 'B', c, 'C', 'C', c, 'D', 'D', c, 'E', 'E', c, 'F', 'F']
    ensures ParseMac(s) == Ok(SampleMac)
  {
    SamplePairs();
    SampleFormat([c], true, "AA", "BB", "CC", "DD", "EE", "FF");
    SeparatedText(s, c);
    ParseFormatRoundTrip(SampleMac, [c], true);
  }

  /** One unfolding of `HexString`. */
  lemma HexCons(b: byte, rest: seq<byte>, upper: bool)
    ensures HexString([b] + rest, upper) == HexPair(b, upper) + HexString(rest, upper)
  {
    assert ([b] + rest)[1..] == rest;
  }

  /** Round trip for the bare form: 6 bytes as 12 hex digits parse back. */
  lemma ParseHexString(mac: seq<byte>, upper: bool)
    requires |mac| == 6
    ensures ParseMac(HexString(mac, upper)) == Ok(mac)
  {
    StripHex(HexString(mac, upper));
    FromHexString(mac, upper);
  }

  /** The sample address in lower case without separators. */
  lemma BareSpelling(s: string)
    requires s == "aabbccddeeff"
    ensures ParseMac(s) == Ok(SampleMac)
  {
    SampleHexString(s);
    ParseHexString(SampleMac, false);
  }

  /** The digit pairs of the sample address's bytes. */
  lemma SamplePairs()
    ensures HexPair(0xAA, true) == "AA" && HexPair(0xBB, true) == "BB" && HexPair(0xCC, true) == "CC"
    ensures HexPair(0xDD, true) == "DD" && HexPair(0xEE, true) == "EE" && HexPair(0xFF, true) == "FF"
    ensures HexPair(0xAA, false) == "aa" && HexPair(0xBB, false) == "bb" && HexPair(0xCC, false) == "cc"
    ensures HexPair(0xDD, false) == "dd" && HexPair(0xEE, false) == "ee" && HexPair(0xFF, false) == "ff"
  {
  }

  lemma SampleHexString(s: string)
    requires s == "aabbccddeeff"
    ensures HexString(SampleMac, false) == s
  {
    SamplePairs();
    HexCons(0xFF, [], false);
    assert [0xFF] + [] == [0xFF];
    assert "ff" + "" == "ff";
    HexCons(0xEE, [0xFF], false);
    assert [0xEE] + [0xFF] == [0xEE, 0xFF];
    assert "ee" + "ff" == "eeff";
    HexCons(0xDD, [0xEE, 0xFF], false);
    assert [0xDD] + [0xEE, 0xFF] == [0xDD, 0xEE, 0xFF];
    assert "dd" + "eeff" == "ddeeff";
    HexCons(0xCC, [0xDD, 0xEE, 0xFF], false);
    assert [0xCC] + [0xDD, 0xEE, 0xFF] == [0xCC, 0xDD, 0xEE, 0xFF];
    assert "cc" + "ddeeff" == "ccddeeff";
    HexCons(0xBB, [0xCC, 0xDD, 0xEE, 0xFF], false);
    assert [0xBB] + [0xCC, 0xDD, 0xEE, 0xFF] == [0xBB, 0xCC, 0xDD, 0xEE, 0xFF];
    assert "bb" + "ccddeeff" == "bbccddeeff";
    HexCons(0xAA, [0xBB, 0xCC, 0xDD, 0xEE, 0xFF], false);
    assert [0xAA] + [0xBB, 0xCC, 0xDD, 0xEE, 0xFF] == SampleMac;
    assert "aa" + "bbccddeeff" == s;
  }

  /** "AA:BB:CC:DD:EE:FF", "AA-BB-CC-DD-EE-FF" and "aabbccddeeff" name the
      same address, so they give the same packet. */
  lemma EquivalentSpellings(colon: string, hyphen: string, bare: string)
    requires colon == "AA:BB:CC:DD:EE:FF" && hyphen == "AA-BB-CC-DD-EE-FF" && bare == "aabbccddeeff"
    ensures ParseMac(colon) == ParseMac(hyphen) == ParseMac(bare) == Ok(SampleMac)
  {
    SeparatedSpelling(colon, ':');
    SeparatedSpelling(hyphen, '-');
    BareSpelling(bare);
  }

  /** "AA:BB:CC:DD:EE" (ten hex digits) is rejected. */
  lemma FiveOctetsRejected(short: string)
    requires short == "AA:BB:CC:DD:EE"
    ensures ParseMac(short).Err?
  {
    var m: seq<byte> := [0xAA, 0xBB, 0xCC, 0xDD, 0xEE];
    SamplePairs();
    assert FormatMac([0xEE], ":", true) == "EE";
    FormatCons(0xDD, [0xEE], ":", true);
    assert [0xDD] + [0xEE] == [0xDD, 0xEE];
    assert "DD" + ":" + "EE" == "DD:EE";
    FormatCons(0xCC, [0xDD, 0xEE], ":", true);
    assert [0xCC] + [0xDD, 0xEE] == [0xCC, 0xDD, 0xEE];
    assert "CC" + ":" + "DD:EE" == "CC:DD:EE";
    FormatCons(0xBB, [0xCC, 0xDD, 0xEE], ":", true);
    assert [0xBB] + [0xCC, 0xDD, 0xEE] == [0xBB, 0xCC, 0xDD, 0xEE];
    assert "BB" + ":" + "CC:DD:EE" == "BB:CC:DD:EE";
    FormatCons(0xAA, [0xBB, 0xCC, 0xDD, 0xEE], ":", true);
    assert [0xAA] + [0xBB, 0xCC, 0xDD, 0xEE] == m;
    assert "AA" + ":" + "BB:CC:DD:EE" == short;
    StripFormat(m, ":", true);
  }

  /* ---------- The packet ---------- */

  /** The length of a hardware address in bytes. */
  const MacLength: nat := 6

  /** `mac_bytes * n` for a parsed, 6-byte address. */
  function Repeat(mac: seq<byte>, n: nat): (r: seq<byte>)
    requires |mac| == MacLength
    ensures |r| == n * MacLength
    ensures forall i :: 0 <= i < |r| ==> r[i] == mac[i % MacLength]
  {
    if n == 0 then [] else mac + Repeat(mac, n - 1)
  }

  /** `bytes([0xFF] * 6) + mac_bytes * 16`; the address always has 6 bytes
      here, since `send_wol` builds only from a successful parse. */
  function BuildPacket(mac: seq<byte>): (p: seq<byte>)
    requires |mac| == MacLength
    ensures |p| == 102
    ensures forall i :: 0 <= i < 6 ==> p[i] == 0xFF
    ensures forall i :: 6 <= i < |p| ==> p[i] == mac[(i - 6) % MacLength]
  {
    [0xFF, 0xFF, 0xFF, 0xFF, 0xFF, 0xFF] + Repeat(mac, 16)
  }

  /** The layout for a 6-byte address: 102 bytes, and byte 6 + 6k + j is byte j
      of the address for each of the 16 copies k. */
  lemma PacketLayout(mac: seq<byte>, k: nat, j: nat)
    requires |mac| == 6 && k < 16 && j < 6
    ensures |BuildPacket(mac)| == 102
    ensures BuildPacket(mac)[6 + 6 * k + j] == mac[j]
  {
    assert (6 * k + j) % 6 == j;
  }

  /** A receiver's view of a well-formed packet: 102 bytes, six 0xFF bytes,
      then one 6-byte block repeated 16 times. */
  predicate IsMagicPacket(p: seq<byte>) {
    && |p| == 102
    && (forall i :: 0 <= i < 6 ==> p[i] == 0xFF)
    && (forall i :: 6 <= i < 102 ==> p[i] == p[6 + (i - 6) % 6])
  }

  /** The packets `BuildPacket` makes from 6-byte addresses are exactly the
      well-formed ones, and each carries its address at bytes 6 to 11. */
  lemma MagicPacketIff(p: seq<byte>)
    ensures IsMagicPacket(p) <==> |p| == 102 && p == BuildPacket(p[6..12])
  {
    if |p| == 102 {
      var q := BuildPacket(p[6..12]);
      if IsMagicPacket(p) {
        assert forall i :: 0 <= i < 102 ==> p[i] == q[i];
      }
      if p == q {
        forall i | 6 <= i < 102 ensures p[i] == p[6 + (i - 6) % 6] {
          assert q[i] == p[6..12][(i - 6) % 6];
        }
      }
    }
  }

  lemma PacketCarriesMac(mac: seq<byte>)
    requires |mac| == 6
    ensures IsMagicPacket(BuildPacket(mac)) && BuildPacket(mac)[6..12] == mac
  {
    var p := BuildPacket(mac);
    forall i | 6 <= i < 12 ensures p[i] == mac[i - 6] {
      assert (i - 6) % 6 == i - 6;
    }
    assert p[6..12] == mac;
    MagicPacketIff(p);
  }

  /* ---------- send_wol and the script around it ---------- */

  const DefaultBroadcastAddress: string := "255.255.255.255"
  const DefaultPort: int := 9

  /** The datagram handed to `sendto`. */
  datatype Datagram = Datagram(payload: seq<byte>, address: string, port: int)

  /** What `send_wol` did: the datagram it built and whether the socket calls
      succeeded (its boolean return value). */
  datatype SendAttempt = SendAttempt(datagram: Datagram, transmitted: bool)

  /** `send_wol`: the address is parsed before any socket exists, so an invalid
      address raises and nothing is sent; otherwise one magic packet goes to
      the broadcast address and port. `socketOk` is the outcome of the socket
      calls, which the model does not perform. */
  function SendWol(macAddress: string, broadcastAddress: string, port: int, socketOk: bool): (r: Result<SendAttempt, MacError>)
    ensures r.Err? <==> ParseMac(macAddress).Err?
    ensures r.Ok? ==> (IsMagicPacket(r.value.datagram.payload)
      && r.value.datagram.payload[6..12] == ParseMac(macAddress).value)
    ensures r.Ok? ==> (r.value.datagram.address == broadcastAddress && r.value.datagram.port == port
      && r.value.transmitted == socketOk)
  {
    match ParseMac(macAddress)
    case Err(e) => Err(e)
    case Ok(mac) =>
      PacketCarriesMac(mac);
      Ok(SendAttempt(Datagram(BuildPacket(mac), broadcastAddress, port), socketOk))
  }

  /** The packet does not depend on where it is sent. */
  lemma PayloadIgnoresDestination(macAddress: string, a1: string, p1: int, a2: string, p2: int, ok1: bool, ok2: bool)
    requires SendWol(macAddress, a1, p1, ok1).Ok?
    ensures SendWol(macAddress, a2, p2, ok2).Ok?
    ensures SendWol(macAddress, a1, p1, ok1).value.datagram.payload == SendWol(macAddress, a2, p2, ok2).value.datagram.payload
  {
  }

  /** The command line of send_wol.py: the address, an optional broadcast
      address, and an optional port (None inside when `int()` rejects it). */
  datatype ScriptArgs = ScriptArgs(macAddress: Option<string>, broadcastAddress: Option<string>, port: Option<Option<int>>)

  /** The exit status of send_wol.py: 0 only when the address and port are
      usable and the socket calls succeed. A missing address exits with 1, and
      so do the ValueErrors of `int()` and of the parser, which escape to the
      interpreter. */
  function ScriptExitCode(args: ScriptArgs, socketOk: bool): (code: int)
    ensures code == 0 || code == 1
    ensures code == 0 <==>
      args.macAddress.Some? && args.port != Some(None) && ParseMac(args.macAddress.value).Ok? && socketOk
  {
    if args.macAddress.None? then 1
    else if args.port == Some(None) then 1
    else
      var address := args.broadcastAddress.GetOr(DefaultBroadcastAddress);
      var port := if args.port.Some? then args.port.value.value else DefaultPort;
      match SendWol(args.macAddress.value, address, port, socketOk)
      case Err(_) => 1
      case Ok(attempt) => if attempt.transmitted then 0 else 1
  }
}
