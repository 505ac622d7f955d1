/**
 * How the engine names and identifies a host it has found: the MAC address from the
 * kernel's ARP table text (`getMacFromArpCache`), the vendor table (`getMacVendor`), the
 * `getent hosts` output (`tryGetNetbiosName`), the ARP file fallback name
 * (`tryGetAlternativeHostname`) and the DNS-then-fallback choice of `getHostname`.
 * Files, processes and DNS are oracles passed in as values.
 */
module Identity {
  import opened Wrappers
  import opened KotlinText
  import opened Screens

  // ---------------------------------------------------------------------------
  // MAC addresses in the ARP table
  // ---------------------------------------------------------------------------

  const ZeroMac: string := "00:00:00:00:00:00"

  /** `([0-9a-fA-F]{2}[:-]){5}([0-9a-fA-F]{2})`, matched against the whole token. */
  predicate IsArpMacFormat(s: string) {
    |s| == 17 && forall i :: 0 <= i < 17 ==> if i % 3 == 2 then s[i] == ':' || s[i] == '-' else IsHexChar(s[i])
  }

  lemma CleanMacOfGroup(g: string)
    requires |g| == 3 && IsHexChar(g[0]) && IsHexChar(g[1]) && (g[2] == ':' || g[2] == '-')
    ensures CleanMac(g) == g[..2]
  {
    assert g == [g[0]] + [g[1]] + [g[2]];
    CleanMacAppend([g[0]] + [g[1]], [g[2]]);
    CleanMacAppend([g[0]], [g[1]]);
  }

  lemma CleanMacOfPair(g: string)
    requires |g| == 2 && IsHexChar(g[0]) && IsHexChar(g[1])
    ensures CleanMac(g) == g
  {
    assert g == [g[0]] + [g[1]];
    CleanMacAppend([g[0]], [g[1]]);
  }

  /** Every MAC the ARP parser accepts passes `isValidMacAddress`, so it can be used to wake the host. */
  lemma ArpMacIsValid(s: string)
    requires IsArpMacFormat(s)
    ensures IsValidMacAddress(s)
    ensures CleanMac(s) == s[0..2] + s[3..5] + s[6..8] + s[9..11] + s[12..14] + s[15..17]
  {
    CleanMacOfArpFormat(s);
    var r := CleanMac(s);
    assert forall i :: 0 <= i < |r| ==> IsHexChar(r[i]) by {
      forall i | 0 <= i < |r| ensures IsHexChar(r[i]) {
        assert r[i] in r;
        var j :| 0 <= j < |s| && s[j] == r[i];
      }
    }
  }

  /** Cleaning an ARP-format MAC drops exactly the five separators. */
  lemma CleanMacOfArpFormat(s: string)
    requires IsArpMacFormat(s)
    ensures CleanMac(s) == s[0..2] + s[3..5] + s[6..8] + s[9..11] + s[12..14] + s[15..17]
  {
    var g0, g1, g2, g3, g4, g5 := s[0..3], s[3..6], s[6..9], s[9..12], s[12..15], s[15..17];
    assert s == g0 + g1 + g2 + g3 + g4 + g5;
    CleanMacOfGroup(g0);
    CleanMacOfGroup(g1);
    CleanMacOfGroup(g2);
    CleanMacOfGroup(g3);
    CleanMacOfGroup(g4);
    CleanMacOfPair(g5);
    CleanMacAppend(g0 + g1 + g2 + g3 + g4, g5);
    CleanMacAppend(g0 + g1 + g2 + g3, g4);
    CleanMacAppend(g0 + g1 + g2, g3);
    CleanMacAppend(g0 + g1, g2);
    CleanMacAppend(g0, g1);
  }

  /** What one line of `/proc/net/arp` tells `getMacFromArpCache` about `ip`. */
  function ArpMacOfLine(line: string, ip: string): (r: Option<string>)
    ensures r.Some? ==> IsArpMacFormat(r.value) && r.value != ZeroMac
  {
    if !Contains(line, ip) then None
    else
      var parts := Tokens(line);
      if |parts| >= 4 && parts[3] != ZeroMac && IsArpMacFormat(parts[3]) then Some(parts[3]) else None
  }

  /** The answer of the first line that has one. */
  function ArpMac(lines: seq<string>, ip: string): Option<string>
  {
    if |lines| == 0 then None else ArpMacOfLine(lines[0], ip).OrElse(ArpMac(lines[1..], ip))
  }

  /**
   * `getMacFromArpCache`: `arpOutput` is what `cat /proc/net/arp` printed, or `None` when
   * running it threw. The lines are the pieces between `\n`.
   */
  method GetMacFromArpCache(arpOutput: Option<string>, ip: string) returns (mac: Option<string>)
    ensures arpOutput.None? ==> mac.None?
    ensures arpOutput.Some? ==> mac == ArpMac(Split(arpOutput.value, '\n'), ip)
  {
    if arpOutput.None? {
      return None;
    }
    var lines := Split(arpOutput.value, '\n');
    var i := 0;
    while i < |lines|
      invariant 0 <= i <= |lines|
      invariant ArpMac(lines, ip) == ArpMac(lines[i..], ip)
    {
      var line := lines[i];
      if Contains(line, ip) {
        var parts := Tokens(line);
        if |parts| >= 4 {
          var candidate := parts[3];
          if candidate != ZeroMac && IsArpMacFormat(candidate) {
            return Some(candidate);
          }
        }
      }
      assert lines[i..][1..] == lines[i + 1..];
      i := i + 1;
    }
    return None;
  }

  /**
   * The MAC found is the fourth token of a line that mentions `ip`, every earlier line has
   * no usable MAC, and the MAC is a well-formed, non-zero address.
   */
  lemma {:induction false} ArpMacIsFirstMatch(lines: seq<string>, ip: string)
    ensures ArpMac(lines, ip).Some? <==> exists i :: 0 <= i < |lines| && ArpMacOfLine(lines[i], ip).Some?
    ensures ArpMac(lines, ip).Some? ==>
      exists i :: 0 <= i < |lines|
        && ArpMac(lines, ip) == ArpMacOfLine(lines[i], ip)
        && Contains(lines[i], ip) && Tokens(lines[i])[3] == ArpMac(lines, ip).value
        && forall j :: 0 <= j < i ==> ArpMacOfLine(lines[j], ip).None?
  {
    if |lines| > 0 {
      ArpMacIsFirstMatch(lines[1..], ip);
      if ArpMacOfLine(lines[0], ip).None? {
        if exists i :: 0 <= i < |lines| && ArpMacOfLine(lines[i], ip).Some? {
          var i :| 0 <= i < |lines| && ArpMacOfLine(lines[i], ip).Some?;
          assert lines[1..][i - 1] == lines[i];
        }
        if ArpMac(lines, ip).Some? {
          var i :| 0 <= i < |lines[1..]|
            && ArpMac(lines[1..], ip) == ArpMacOfLine(lines[1..][i], ip)
            && Contains(lines[1..][i], ip) && Tokens(lines[1..][i])[3] == ArpMac(lines[1..], ip).value
            && forall j :: 0 <= j < i ==> ArpMacOfLine(lines[1..][j], ip).None?;
          assert forall j :: 0 <= j < i + 1 ==> ArpMacOfLine(lines[j], ip).None? by {
            forall j | 0 <= j < i + 1 ensures ArpMacOfLine(lines[j], ip).None? {
              if j > 0 {
                assert lines[j] == lines[1..][j - 1];
              }
            }
          }
        }
      }
    }
  }

  /** Every MAC the ARP lookup returns is valid for `isValidMacAddress` and is not the all-zero address. */
  lemma ArpMacIsUsable(lines: seq<string>, ip: string)
    requires ArpMac(lines, ip).Some?
    ensures IsValidMacAddress(ArpMac(lines, ip).value) && ArpMac(lines, ip).value != ZeroMac
  {
    ArpMacIsFirstMatch(lines, ip);
    var i :| 0 <= i < |lines| && ArpMac(lines, ip) == ArpMacOfLine(lines[i], ip)
      && Contains(lines[i], ip) && Tokens(lines[i])[3] == ArpMac(lines, ip).value
      && forall j :: 0 <= j < i ==> ArpMacOfLine(lines[j], ip).None?;
    ArpMacIsValid(ArpMac(lines, ip).value);
  }

  lemma {:induction false} ContainsExtended(s: string, p: string, suffix: string)
    requires Contains(s, p + suffix)
    ensures Contains(s, p)
    decreases |s|
  {
    if StartsWith(s, p + suffix) {
      assert s[..|p|] == (p + suffix)[..|p|] == p;
    } else {
      ContainsExtended(s[1..], p, suffix);
    }
  }

  /**
   * The line filter is a substring test: a line about `192.168.1.50` also answers a lookup
   * of `192.168.1.5`, so the lookup of a shorter address can return a longer address's MAC.
   */
  lemma ArpLineMatchIsSubstring(line: string, ip: string, suffix: string)
    requires ArpMacOfLine(line, ip + suffix).Some?
    ensures ArpMacOfLine(line, ip) == ArpMacOfLine(line, ip + suffix)
  {
    ContainsExtended(line, ip, suffix);
  }

  // ---------------------------------------------------------------------------
  // Vendors
  // ---------------------------------------------------------------------------

  /** `getMacVendor`'s table, keyed by upper-case `XX:XX:XX` prefixes. */
  const VendorMap: map<string, string> := map[
    "00:50:56" := "VMware",
    "00:0C:29" := "VMware",
    "00:1A:11" := "Google",
    "08:00:27" := "VirtualBox",
    "00:1B:44" := "SanDisk",
    "00:25:00" := "Apple",
    "08:00:20" := "Oracle",
    "00:04:76" := "3Com",
    "00:13:10" := "Cisco",
    "00:1C:B3" := "Apple",
    "00:1D:BA" := "Sony",
    "00:21:19" := "Samsung",
    "00:22:41" := "Apple",
    "00:25:BC" := "Apple",
    "00:26:BB" := "Apple",
    "00:30:48" := "Supermicro",
    "00:0E:8F" := "Sercomm",
    "00:90:FB" := "TP-Link",
    "18:31:BF" := "Netgear",
    "B8:27:EB" := "Raspberry Pi",
    "DC:A6:32" := "Raspberry Pi",
    "E0:DC:FF" := "Xiaomi",
    "D8:3A:DD" := "Intel",
    "48:D7:05" := "Apple",
    "68:DB:CA" := "Apple",
    "A0:99:9B" := "Apple"
  ]

  /** `getMacVendor(prefix)`: an exact, case-sensitive lookup. */
  function MacVendor(prefix: string): (r: Option<string>)
    ensures r.Some? <==> prefix in VendorMap
    ensures r.Some? ==> r.value == VendorMap[prefix] && r.value != ""
  {
    if prefix in VendorMap then Some(VendorMap[prefix]) else None
  }

  /** The prefixes of the table that contain no letter. */
  const DigitOnlyPrefixes: set<string> := {
    "00:50:56", "08:00:27", "00:25:00", "08:00:20", "00:04:76", "00:13:10", "00:21:19", "00:22:41", "00:30:48"
  }

  predicate HasUpperCase(s: string) {
    exists i :: 0 <= i < |s| && 'A' <= s[i] <= 'Z'
  }

  /**
   * Every key of the table outside `DigitOnlyPrefixes` holds an upper-case letter. The
   * lookup does not fold case, so a prefix written in lower case (as the kernel's ARP
   * table writes MAC addresses) can find a vendor only among `DigitOnlyPrefixes`.
   */
  lemma LetterPrefixesAreUpperCase(prefix: string)
    requires MacVendor(prefix).Some? && prefix !in DigitOnlyPrefixes
    ensures HasUpperCase(prefix)
  {
    assert |prefix| == 8;
    assert || ('A' <= prefix[0] <= 'Z') || ('A' <= prefix[1] <= 'Z') || ('A' <= prefix[3] <= 'Z')
           || ('A' <= prefix[4] <= 'Z') || ('A' <= prefix[6] <= 'Z') || ('A' <= prefix[7] <= 'Z');
  }

  /** `mac.split(":").take(3).joinToString(":")`. */
  function VendorPrefix(mac: string): string {
    Join(Take(Split(mac, ':'), 3), ':')
  }

  /** For a colon-separated MAC the vendor prefix is its first eight characters. */
  lemma VendorPrefixOfColonMac(mac: string)
    requires IsArpMacFormat(mac) && mac[2] == ':' && mac[5] == ':' && mac[8] == ':'
    ensures VendorPrefix(mac) == mac[..8]
  {
    var p0, p1, p2, rest := mac[..2], mac[3..5], mac[6..8], mac[9..];
    assert ':' !in p0 && ':' !in p1 && ':' !in p2 by {
      assert forall i :: 0 <= i < 2 ==> IsHexChar(p0[i]) && IsHexChar(p1[i]) && IsHexChar(p2[i]);
    }
    assert mac[6..] == p2 + [':'] + rest;
    assert mac[3..] == p1 + [':'] + mac[6..];
    assert mac == p0 + [':'] + mac[3..];
    SplitCons(p2, ':', rest);
    SplitCons(p1, ':', p2 + [':'] + rest);
    SplitCons(p0, ':', p1 + [':'] + (p2 + [':'] + rest));
    var parts := Split(mac, ':');
    assert parts[..3] == [p0, p1, p2];
    assert Join([p0, p1, p2], ':') == p0 + [':'] + Join([p1, p2], ':');
    assert Join([p1, p2], ':') == p1 + [':'] + Join([p2], ':');
  }

  // ---------------------------------------------------------------------------
  // `getent hosts <ip>`
  // ---------------------------------------------------------------------------

  /** `tryGetNetbiosName`: `getent` is the command's output, `None` when running it threw. */
  function NetbiosName(getent: Option<string>): (r: Option<string>)
    ensures r.Some? ==>
      getent.Some? && !IsBlank(getent.value) && |Tokens(getent.value)| > 1 && r.value == Tokens(getent.value)[1]
    ensures getent.Some? && !IsBlank(getent.value) && |Tokens(getent.value)| > 1 ==> r == Some(Tokens(getent.value)[1])
  {
    if getent.None? || IsBlank(getent.value) then None
    else
      var parts := Tokens(getent.value);
      if |parts| > 1 then Some(parts[1]) else None
  }

  predicate IsToken(s: string) {
    |s| > 0 && !IsWhitespace(s[0]) && !IsWhitespace(s[|s| - 1])
    && forall i :: 0 <= i < |s| ==> !IsRegexSpace(s[i])
  }

  /** A `getent` line `"<address> <name>\n"` yields the name. */
  lemma NetbiosNameOfHostsLine(address: string, name: string)
    requires IsToken(address) && IsToken(name)
    ensures NetbiosName(Some(address + " " + name + "\n")) == Some(name)
  {
    var out := address + " " + name + "\n";
    var line := address + " " + name;
    assert TrimStart(out) == out;
    assert out[..|out| - 1] == line;
    assert TrimEnd(out) == TrimEnd(line);
    assert TrimEnd(line) == line;
    SplitWsCons(address, ' ', name);
    assert !IsWhitespace(out[0]);
  }

  // ---------------------------------------------------------------------------
  // `tryGetAlternativeHostname`
  // ---------------------------------------------------------------------------

  /**
   * Reading `/proc/net/arp`: the file is missing or unreadable (`exists() && canRead()` is
   * false), reading it throws, or it reads as `text`.
   */
  datatype FileRead = Unavailable | ReadFails | Readable(text: string)

  /** The `when` on the interface name, without regard to case: `wlan` is tested before `eth`. */
  function InterfaceType(interfaceName: string): (r: string)
    ensures r in {"WiFi", "Ethernet", "Device"}
    ensures r == "WiFi" <==> ContainsIgnoreCase(interfaceName, "wlan")
    ensures r == "Ethernet" <==> !ContainsIgnoreCase(interfaceName, "wlan") && ContainsIgnoreCase(interfaceName, "eth")
    ensures r == "Device" <==> !ContainsIgnoreCase(interfaceName, "wlan") && !ContainsIgnoreCase(interfaceName, "eth")
  {
    if ContainsIgnoreCase(interfaceName, "wlan") then "WiFi"
    else if ContainsIgnoreCase(interfaceName, "eth") then "Ethernet"
    else "Device"
  }

  /** `ip.split(".").last()`. */
  function LastOctet(ip: string): string {
    Last(Split(ip, '.'))
  }

  /**
   * The name built from an ARP line with at least six tokens: the vendor of its MAC (the
   * fourth token, when it is neither blank nor all zeros) and the interface type, or
   * without a vendor the interface type and the last octet of `ip`.
   */
  function NameFromArpParts(parts: seq<string>, ip: string): (r: string)
    requires |parts| >= 6
    ensures ' ' in r
    ensures !IsBlank(parts[3]) && parts[3] != ZeroMac && MacVendor(VendorPrefix(parts[3])).Some? ==>
      r == MacVendor(VendorPrefix(parts[3])).value + " " + InterfaceType(Last(parts))
    ensures IsBlank(parts[3]) || parts[3] == ZeroMac || MacVendor(VendorPrefix(parts[3])).None? ==>
      r == InterfaceType(Last(parts)) + " on " + LastOctet(ip)
  {
    var interfaceType := InterfaceType(Last(parts));
    var mac := parts[3];
    var vendor := if !IsBlank(mac) && mac != ZeroMac then MacVendor(VendorPrefix(mac)) else None;
    if vendor.Some? then
      assert (vendor.value + " " + interfaceType)[|vendor.value|] == ' ';
      vendor.value + " " + interfaceType
    else
      assert (interfaceType + " on " + LastOctet(ip))[|interfaceType|] == ' ';
      interfaceType + " on " + LastOctet(ip)
  }

  /** An ARP line that names the host: it mentions `ip` and has at least six tokens. */
  predicate IsArpNameLine(line: string, ip: string) {
    Contains(line, ip) && |Tokens(line)| >= 6
  }

  /** The first line that mentions `ip` and has at least six tokens decides the name. */
  function NameFromArpLines(lines: seq<string>, ip: string): (r: Option<string>)
    ensures r.Some? ==> ' ' in r.value
  {
    if |lines| == 0 then None
    else if IsArpNameLine(lines[0], ip) then Some(NameFromArpParts(Tokens(lines[0]), ip))
    else NameFromArpLines(lines[1..], ip)
  }

  /**
   * A name is found exactly when some line names the host, and it is the name built from
   * the first such line.
   */
  lemma {:induction false} NameFromArpLinesIsFirstMatch(lines: seq<string>, ip: string)
    ensures NameFromArpLines(lines, ip).Some? <==> exists i :: 0 <= i < |lines| && IsArpNameLine(lines[i], ip)
    ensures forall i ::
      (0 <= i < |lines| && IsArpNameLine(lines[i], ip) && forall j :: 0 <= j < i ==> !IsArpNameLine(lines[j], ip)) ==>
      NameFromArpLines(lines, ip) == Some(NameFromArpParts(Tokens(lines[i]), ip))
  {
    if |lines| > 0 {
      NameFromArpLinesIsFirstMatch(lines[1..], ip);
      if !IsArpNameLine(lines[0], ip) {
        if exists i :: 0 <= i < |lines| && IsArpNameLine(lines[i], ip) {
          var i :| 0 <= i < |lines| && IsArpNameLine(lines[i], ip);
          assert lines[1..][i - 1] == lines[i];
        }
        forall i | 0 <= i < |lines| && IsArpNameLine(lines[i], ip)
          && (forall j :: 0 <= j < i ==> !IsArpNameLine(lines[j], ip))
          ensures NameFromArpLines(lines, ip) == Some(NameFromArpParts(Tokens(lines[i]), ip))
        {
          assert lines[1..][i - 1] == lines[i];
          forall j | 0 <= j < i - 1 ensures !IsArpNameLine(lines[1..][j], ip) {
            assert lines[1..][j] == lines[j + 1];
          }
        }
      }
    }
  }

  /** The lines of `/proc/net/arp` after its header. */
  function ArpDataLines(text: string): seq<string> {
    var lines := ReaderLines(text);
    if |lines| == 0 then [] else lines[1..]
  }

  /** `tryGetAlternativeHostname(ip)`: the header line is skipped; with no usable line the name is `"Device <last octet>"`. */
  function AlternativeHostname(arpFile: FileRead, ip: string): (r: Option<string>)
    ensures r.None? <==> arpFile.ReadFails?
  {
    var fallback := "Device " + LastOctet(ip);
    match arpFile
    case ReadFails => None
    case Unavailable => Some(fallback)
    case Readable(text) => NameFromArpLines(ArpDataLines(text), ip).OrElse(Some(fallback))
  }

  /**
   * The name `tryGetAlternativeHostname` gives: from the first line after the header that
   * names the host, and `"Device <last octet>"` when the file is unavailable or no line
   * names the host.
   */
  lemma AlternativeHostnameValue(arpFile: FileRead, ip: string)
    ensures arpFile.Unavailable? ==> AlternativeHostname(arpFile, ip) == Some("Device " + LastOctet(ip))
    ensures arpFile.Readable? && (forall i :: 0 <= i < |ArpDataLines(arpFile.text)| ==> !IsArpNameLine(ArpDataLines(arpFile.text)[i], ip)) ==>
      AlternativeHostname(arpFile, ip) == Some("Device " + LastOctet(ip))
    ensures arpFile.Readable? ==>
      forall i ::
        (&& 0 <= i < |ArpDataLines(arpFile.text)| && IsArpNameLine(ArpDataLines(arpFile.text)[i], ip)
         && forall j :: 0 <= j < i ==> !IsArpNameLine(ArpDataLines(arpFile.text)[j], ip)) ==>
        AlternativeHostname(arpFile, ip) == Some(NameFromArpParts(Tokens(ArpDataLines(arpFile.text)[i]), ip))
  {
    if arpFile.Readable? {
      NameFromArpLinesIsFirstMatch(ArpDataLines(arpFile.text), ip);
    }
  }

  predicate HasNoSpace(s: string) {
    forall i :: 0 <= i < |s| ==> s[i] != ' '
  }

  /**
   * The fallback name always contains a space, so it is never a dotted-quad address:
   * a ping hit is named after its IP only when reading the ARP file throws.
   */
  lemma AlternativeHostnameIsNotAnAddress(arpFile: FileRead, ip: string)
    requires !arpFile.ReadFails?
    ensures AlternativeHostname(arpFile, ip).Some?
    ensures ' ' in AlternativeHostname(arpFile, ip).value
    ensures HasNoSpace(ip) ==> AlternativeHostname(arpFile, ip).value != ip
  {
    var fallback := "Device " + LastOctet(ip);
    assert fallback[6] == ' ';
  }

  /** A dotted-quad address has no space. */
  lemma DottedQuadHasNoSpace(ip: string)
    requires IsDottedQuad(ip)
    ensures HasNoSpace(ip)
  {
    var a, b, c, d := DottedQuadIsFormatted(ip);
    DecIsCanonical(a);
    DecIsCanonical(b);
    DecIsCanonical(c);
    DecIsCanonical(d);
    assert forall i :: 0 <= i < |ip| ==> IsDigit(ip[i]) || ip[i] == '.';
  }

  // ---------------------------------------------------------------------------
  // `getHostname`
  // ---------------------------------------------------------------------------

  /**
   * The outcome of the 800 ms block in `getHostname` that asks DNS for the canonical name
   * and the host name: it times out, throws, or answers.
   */
  datatype DnsAnswer = TimedOut | Failed | Answered(canonicalName: Option<string>, hostName: Option<string>)

  /** The per-host answers of the outside world that naming a host consults. */
  datatype NameSources = NameSources(dns: DnsAnswer, getent: Option<string>, arpFile: FileRead)

  /** The value of the timed block: canonical name, else host name, each only when it differs from `ip`, else the NetBIOS name. */
  function DnsName(dns: DnsAnswer, getent: Option<string>, ip: string): (r: Option<string>)
    ensures r.Some? ==> dns.Answered?
    ensures r.Some? && r.value == ip ==> r == NetbiosName(getent)
    ensures dns.Answered? && dns.canonicalName.Some? && dns.canonicalName.value != ip ==> r == dns.canonicalName
    ensures (&& dns.Answered? && (dns.canonicalName.None? || dns.canonicalName.value == ip)
             && dns.hostName.Some? && dns.hostName.value != ip) ==> r == dns.hostName
    ensures (&& dns.Answered? && (dns.canonicalName.None? || dns.canonicalName.value == ip)
             && (dns.hostName.None? || dns.hostName.value == ip)) ==> r == NetbiosName(getent)
  {
    match dns
    case TimedOut => None
    case Failed => None
    case Answered(canonical, host) =>
      if canonical.Some? && canonical.value != ip then canonical
      else if host.Some? && host.value != ip then host
      else NetbiosName(getent)
  }

  /** `result ?: fallbackName`: the DNS name when there is one, the ARP-file name otherwise. */
  function ResolveHostname(sources: NameSources, ip: string): (r: Option<string>)
    ensures r.None? <==> DnsName(sources.dns, sources.getent, ip).None? && sources.arpFile.ReadFails?
    ensures DnsName(sources.dns, sources.getent, ip).Some? ==> r == DnsName(sources.dns, sources.getent, ip)
  {
    DnsName(sources.dns, sources.getent, ip).OrElse(AlternativeHostname(sources.arpFile, ip))
  }

  /** A host whose DNS gives nothing better is still named (not null) unless the ARP file read throws. */
  lemma ResolveHostnameFallsBack(sources: NameSources, ip: string)
    requires DnsName(sources.dns, sources.getent, ip).None?
    ensures ResolveHostname(sources, ip) == AlternativeHostname(sources.arpFile, ip)
    ensures !sources.arpFile.ReadFails? ==> ResolveHostname(sources, ip).Some? && ' ' in ResolveHostname(sources, ip).value
  {
    if !sources.arpFile.ReadFails? {
      AlternativeHostnameIsNotAnAddress(sources.arpFile, ip);
    }
  }
}
