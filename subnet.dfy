/**
 * Where a wake-up packet goes: `getBroadcastAddress`, the local subnet detection of
 * `getLocalSubnet` (link addresses, then the Wi-Fi address integer, then probing common
 * gateways) and `wakeDeviceUp`'s choice of target before it sends the packet.
 */
module Subnet {
  import opened Wrappers
  import opened KotlinText
  import opened Schema
  import opened Screens
  import opened ServiceNames
  import opened WakeOnLan

  const LimitedBroadcast: string := "255.255.255.255"

  /** `getBroadcastAddress`: the first three octets and `.255`, or the limited broadcast for a null or invalid address. */
  function GetBroadcastAddress(ip: Option<string>): (r: string)
  {
    if ip.None? || !IsValidIpAddress(ip) then LimitedBroadcast
    else SubstringBeforeLast(ip.value, '.') + ".255"
  }

  lemma LimitedBroadcastIsFormatted()
    ensures LimitedBroadcast == FormatIp(255, 255, 255, 255)
  {
    DecOf255();
  }

  /** Three dot-free pieces joined by dots are not an address: they split into three pieces. */
  lemma ThreePiecesAreNotAnAddress(x: string, y: string, z: string)
    requires '.' !in x && '.' !in y && '.' !in z
    ensures Split(x + "." + y + "." + z, '.') == [x, y, z]
    ensures !IsDottedQuad(x + "." + y + "." + z)
  {
    SplitWithoutSeparator(z, '.');
    SplitCons(y, '.', z);
    assert x + "." + y + "." + z == x + ['.'] + (y + ['.'] + z);
    SplitCons(x, '.', y + ['.'] + z);
  }

  /** What `substringBeforeLast('.')` leaves of a valid address: its first three octets, which are not an address. */
  lemma SubnetOfFormatted(a: nat, b: nat, c: nat, d: nat)
    requires a <= 255 && b <= 255 && c <= 255 && d <= 255
    ensures SubstringBeforeLast(FormatIp(a, b, c, d), '.') == Dec(a) + "." + Dec(b) + "." + Dec(c)
    ensures !IsDottedQuad(Dec(a) + "." + Dec(b) + "." + Dec(c))
  {
    DecHasNoDot(a);
    DecHasNoDot(b);
    DecHasNoDot(c);
    DecHasNoDot(d);
    var x, y, z, w := Dec(a), Dec(b), Dec(c), Dec(d);
    assert FormatIp(a, b, c, d) == (x + "." + y + "." + z) + ['.'] + w;
    SubstringBeforeLastCons(x + "." + y + "." + z, '.', w);
    ThreePiecesAreNotAnAddress(x, y, z);
  }

  /**
   * `getBroadcastAddress` agrees with the dialogs' `inferBroadcastAddress` wherever that
   * is not null, is the limited broadcast otherwise, and always yields a valid address.
   */
  lemma GetBroadcastAddressIsInferred(ip: Option<string>)
    ensures GetBroadcastAddress(ip) == InferBroadcastAddress(ip).GetOr(LimitedBroadcast)
    ensures IsDottedQuad(GetBroadcastAddress(ip))
  {
    if IsValidIpAddress(ip) {
      var p := Split(ip.value, '.');
      FourPieces(ip.value, '.');
      SplitPiecesAvoidSeparator(ip.value, '.');
      assert '.' !in p[3];
      assert ip.value == (p[0] + "." + p[1] + "." + p[2]) + ['.'] + p[3];
      SubstringBeforeLastCons(p[0] + "." + p[1] + "." + p[2], '.', p[3]);
      InferBroadcastIsValidAndIdempotent(ip);
    } else {
      LimitedBroadcastIsFormatted();
      FormatIpIsDottedQuad(255, 255, 255, 255);
    }
  }

  lemma GetBroadcastAddressOfFormatted(a: nat, b: nat, c: nat, d: nat)
    requires a <= 255 && b <= 255 && c <= 255 && d <= 255
    ensures GetBroadcastAddress(Some(FormatIp(a, b, c, d))) == FormatIp(a, b, c, 255)
  {
    GetBroadcastAddressIsInferred(Some(FormatIp(a, b, c, d)));
    InferBroadcastOfFormatted(a, b, c, d);
  }

  // ---------------------------------------------------------------------------
  // `getLocalSubnet`
  // ---------------------------------------------------------------------------

  /**
   * What the connectivity service answers: no service, no active network, no link
   * properties, an exception, or the link addresses of the active network.
   */
  datatype Connectivity =
    | NoConnectivityManager
    | NoActiveNetwork
    | NoLinkProperties
    | ConnectivityThrows
    | LinkAddresses(addresses: seq<HostAddress>)

  /**
   * The environment `getLocalSubnet` consults: the connectivity service, the Wi-Fi
   * address integer (`connectionInfo?.ipAddress ?: 0`, 0 also when the Wi-Fi service
   * throws) and the set of hosts that answer a reachability probe.
   */
  datatype SubnetSources = SubnetSources(connectivity: Connectivity, wifiIpAddress: int, reachable: set<string>)

  /** `ipAddressInt shr (8 * k) and 0xff` for a 32-bit `Int`. */
  function WifiByte(ipAddressInt: int, k: nat): (b: nat)
    requires k < 4
    ensures b < 256
  {
    var u := ipAddressInt % 0x1_0000_0000;
    if k == 0 then u % 0x100
    else if k == 1 then (u / 0x100) % 0x100
    else if k == 2 then (u / 0x1_0000) % 0x100
    else u / 0x100_0000
  }

  /** `String.format("%d.%d.%d.%d", ...)`: the integer read as four little-endian bytes. */
  function WifiAddress(ipAddressInt: int): string {
    FormatIp(WifiByte(ipAddressInt, 0), WifiByte(ipAddressInt, 1), WifiByte(ipAddressInt, 2), WifiByte(ipAddressInt, 3))
  }

  /**
   * The four octets are the little-endian bytes of the address's 32-bit pattern: the
   * first octet is the lowest byte, and together they give the integer back modulo 2^32.
   */
  lemma WifiAddressIsLittleEndian(ipAddressInt: int)
    ensures IsDottedQuad(WifiAddress(ipAddressInt))
    ensures WifiByte(ipAddressInt, 0) + 0x100 * WifiByte(ipAddressInt, 1)
      + 0x1_0000 * WifiByte(ipAddressInt, 2) + 0x100_0000 * WifiByte(ipAddressInt, 3)
      == ipAddressInt % 0x1_0000_0000
  {
    FormatIpIsDottedQuad(WifiByte(ipAddressInt, 0), WifiByte(ipAddressInt, 1), WifiByte(ipAddressInt, 2), WifiByte(ipAddressInt, 3));
    var u := ipAddressInt % 0x1_0000_0000;
    var q1 := u / 0x100;
    var q2 := q1 / 0x100;
    assert u / 0x1_0000 == q2;
    assert u / 0x100_0000 == q2 / 0x100;
    assert u == u % 0x100 + 0x100 * q1;
    assert q1 == q1 % 0x100 + 0x100 * q2;
    assert q2 == q2 % 0x100 + 0x100 * (q2 / 0x100);
  }

  /** `192.168.1.1` on the wire is the integer `0x0101A8C0`. */
  lemma WifiAddressExample()
    ensures WifiAddress(0x0101A8C0) == "192.168.1.1"
    ensures SubstringBeforeLast(WifiAddress(0x0101A8C0), '.') == "192.168.1"
  {
    WifiBytesExample();
    DecExamples();
    assert WifiAddress(0x0101A8C0) == FormatIp(192, 168, 1, 1);
    assert FormatIp(192, 168, 1, 1) == "192" + "." + "168" + "." + "1" + "." + "1";
    SubnetOfFormatted(192, 168, 1, 1);
    assert Dec(192) + "." + Dec(168) + "." + Dec(1) == "192" + "." + "168" + "." + "1";
  }

  /** The four octets of `0x0101A8C0`, least significant first. */
  lemma WifiBytesExample()
    ensures WifiByte(0x0101A8C0, 0) == 192 && WifiByte(0x0101A8C0, 1) == 168
    ensures WifiByte(0x0101A8C0, 2) == 1 && WifiByte(0x0101A8C0, 3) == 1
  {
  }

  /** The decimal texts of the octets of `192.168.1.1`. */
  lemma DecExamples()
    ensures Dec(192) == "192" && Dec(168) == "168" && Dec(1) == "1"
  {
    assert Dec(192) == Dec(19) + [DigitChar(2)] && Dec(19) == Dec(1) + [DigitChar(9)];
    assert Dec(168) == Dec(16) + [DigitChar(8)] && Dec(16) == Dec(1) + [DigitChar(6)];
  }

  /** The prefixes probed last, in order, by pinging their `.1` host. */
  const CommonPrefixes: seq<string> := ["192.168.0", "192.168.1", "10.0.0", "10.0.1"]

  function FirstReachablePrefix(prefixes: seq<string>, reachable: set<string>): Option<string> {
    if |prefixes| == 0 then None
    else if prefixes[0] + ".1" in reachable then Some(prefixes[0])
    else FirstReachablePrefix(prefixes[1..], reachable)
  }

  /** The Wi-Fi fallback and then the gateway probe. */
  function SubnetFallback(sources: SubnetSources): Option<string> {
    if sources.wifiIpAddress != 0 then Some(SubstringBeforeLast(WifiAddress(sources.wifiIpAddress), '.'))
    else FirstReachablePrefix(CommonPrefixes, sources.reachable)
  }

  /**
   * What `getLocalSubnet` returns. A missing active network or missing link properties
   * return null at once, without the fallbacks; no usable link address or an exception
   * falls through to them.
   */
  function LocalSubnet(sources: SubnetSources): Option<string> {
    match sources.connectivity
    case NoActiveNetwork => None
    case NoLinkProperties => None
    case LinkAddresses(addresses) =>
      var a := FirstUsableAddress(addresses);
      if a.Some? then Some(SubstringBeforeLast(a.value, '.')) else SubnetFallback(sources)
    case _ => SubnetFallback(sources)
  }

  /** `getLocalSubnet`, with its loop over the link addresses and its loop over the common prefixes. */
  method GetLocalSubnet(sources: SubnetSources) returns (subnet: Option<string>)
    ensures subnet == LocalSubnet(sources)
  {
    if sources.connectivity.NoActiveNetwork? || sources.connectivity.NoLinkProperties? {
      return None;
    }
    if sources.connectivity.LinkAddresses? {
      var addresses := sources.connectivity.addresses;
      var i := 0;
      while i < |addresses|
        invariant 0 <= i <= |addresses|
        invariant FirstUsableAddress(addresses) == FirstUsableAddress(addresses[i..])
      {
        var address := addresses[i];
        if !address.isLoopback && Contains(address.hostAddress, ".") {
          return Some(SubstringBeforeLast(address.hostAddress, '.'));
        }
        assert addresses[i..][1..] == addresses[i + 1..];
        i := i + 1;
      }
    }
    if sources.wifiIpAddress != 0 {
      return Some(SubstringBeforeLast(WifiAddress(sources.wifiIpAddress), '.'));
    }
    var prefixes := CommonPrefixes;
    for i := 0 to |prefixes|
      invariant FirstReachablePrefix(prefixes, sources.reachable) == FirstReachablePrefix(prefixes[i..], sources.reachable)
    {
      if prefixes[i] + ".1" in sources.reachable {
        return Some(prefixes[i]);
      }
      assert prefixes[i..][1..] == prefixes[i + 1..];
    }
    return None;
  }

  /**
   * A subnet found from a dotted-quad link address, from the Wi-Fi integer or from the
   * probe is three octets, never itself a valid address.
   */
  lemma LocalSubnetIsNotAnAddress(sources: SubnetSources)
    requires sources.connectivity.LinkAddresses? && FirstUsableAddress(sources.connectivity.addresses).Some?
      ==> IsDottedQuad(FirstUsableAddress(sources.connectivity.addresses).value)
    ensures !IsValidIpAddress(LocalSubnet(sources))
  {
    var subnet := LocalSubnet(sources);
    if sources.connectivity.LinkAddresses? && FirstUsableAddress(sources.connectivity.addresses).Some? {
      var a, b, c, d := DottedQuadIsFormatted(FirstUsableAddress(sources.connectivity.addresses).value);
      SubnetOfFormatted(a, b, c, d);
    } else if subnet.Some? && sources.wifiIpAddress != 0 {
      SubnetOfFormatted(WifiByte(sources.wifiIpAddress, 0), WifiByte(sources.wifiIpAddress, 1),
        WifiByte(sources.wifiIpAddress, 2), WifiByte(sources.wifiIpAddress, 3));
    } else if subnet.Some? {
      CommonPrefixesAreNotAddresses(sources.reachable);
    }
  }

  lemma {:induction false} FirstReachablePrefixIsListed(prefixes: seq<string>, reachable: set<string>)
    ensures FirstReachablePrefix(prefixes, reachable).Some? ==>
      FirstReachablePrefix(prefixes, reachable).value in prefixes
      && FirstReachablePrefix(prefixes, reachable).value + ".1" in reachable
  {
    if |prefixes| > 0 {
      FirstReachablePrefixIsListed(prefixes[1..], reachable);
    }
  }

  /** None of the probed prefixes is itself an address. */
  lemma CommonPrefixIsNotAnAddress(p: string)
    requires p in CommonPrefixes
    ensures !IsDottedQuad(p)
  {
    if p == "192.168.0" {
      assert p == "192" + "." + "168" + "." + "0";
      ThreePiecesAreNotAnAddress("192", "168", "0");
    } else if p == "192.168.1" {
      assert p == "192" + "." + "168" + "." + "1";
      ThreePiecesAreNotAnAddress("192", "168", "1");
    } else if p == "10.0.0" {
      assert p == "10" + "." + "0" + "." + "0";
      ThreePiecesAreNotAnAddress("10", "0", "0");
    } else {
      assert p == "10" + "." + "0" + "." + "1";
      ThreePiecesAreNotAnAddress("10", "0", "1");
    }
  }

  lemma CommonPrefixesAreNotAddresses(reachable: set<string>)
    ensures FirstReachablePrefix(CommonPrefixes, reachable).Some? ==>
      !IsDottedQuad(FirstReachablePrefix(CommonPrefixes, reachable).value)
  {
    FirstReachablePrefixIsListed(CommonPrefixes, reachable);
    var r := FirstReachablePrefix(CommonPrefixes, reachable);
    if r.Some? {
      CommonPrefixIsNotAnAddress(r.value);
    }
  }

  // ---------------------------------------------------------------------------
  // `wakeDeviceUp`
  // ---------------------------------------------------------------------------

  /**
   * The target address of `wakeDeviceUp`, with `localSubnet` the value `getLocalSubnet`
   * returns (taken to be the same on both of its calls).
   */
  function WakeTarget(ipAddress: string, localSubnet: Option<string>): string {
    var target := GetBroadcastAddress(if IsBlank(ipAddress) then localSubnet else Some(ipAddress));
    if target == LimitedBroadcast && IsValidIpAddress(Some(ipAddress)) then SubstringBeforeLast(ipAddress, '.') + ".255"
    else if target == LimitedBroadcast && localSubnet.Some? then localSubnet.value + ".255"
    else target
  }

  /**
   * For a subnet that is not itself an address: a valid device address gives its own
   * broadcast address; otherwise the local subnet's `.255`; and the limited broadcast
   * only when no subnet is known.
   */
  lemma WakeTargetChoice(ipAddress: string, localSubnet: Option<string>)
    requires !IsValidIpAddress(localSubnet)
    ensures IsDottedQuad(ipAddress) ==> WakeTarget(ipAddress, localSubnet) == GetBroadcastAddress(Some(ipAddress))
    ensures !IsDottedQuad(ipAddress) && localSubnet.Some? ==> WakeTarget(ipAddress, localSubnet) == localSubnet.value + ".255"
    ensures !IsDottedQuad(ipAddress) && localSubnet.None? ==> WakeTarget(ipAddress, localSubnet) == LimitedBroadcast
  {
    if IsDottedQuad(ipAddress) {
      ValidIpIsNotBlank(ipAddress);
    }
  }

  /** `wakeDeviceUp`'s result messages. */
  function MissingMacMessage(name: string): string { "MAC address is missing for " + name + "." }
  function SentMessage(name: string): string { "WOL packet sent for " + name + "!" }
  function FailedMessage(name: string): string { "Failed to send WOL for " + name + "." }

  /**
   * `wakeDeviceUp`: the result passed to `onResult`, and the datagram handed to the socket.
   * `resolves`, `socketOpens` and `sendSucceeds` are the oracles of `sendWakeOnLanPacket`.
   */
  method WakeDeviceUp(device: Device, localSubnet: Option<string>, resolves: bool, socketOpens: bool, sendSucceeds: bool)
    returns (success: bool, message: string, attempted: Option<Datagram>)
    ensures IsBlank(device.macAddress) ==>
      !success && message == MissingMacMessage(device.name) && attempted.None?
    ensures attempted.Some? ==> IsValidMacAddress(device.macAddress) && attempted.value == Datagram(
      MagicPacket(MacBytes(CleanMac(device.macAddress))), WakeTarget(device.ipAddress, localSubnet), device.port)
    ensures !IsBlank(device.macAddress) ==>
      && (attempted.Some? <==> IsValidMacAddress(device.macAddress) && resolves && socketOpens && IsPort(device.port))
      && (success <==> attempted.Some? && sendSucceeds)
      && message == (if success then SentMessage(device.name) else FailedMessage(device.name))
  {
    if IsBlank(device.macAddress) {
      return false, MissingMacMessage(device.name), None;
    }
    var target := WakeTarget(device.ipAddress, localSubnet);
    success, attempted := SendWakeOnLanPacket(device.macAddress, target, device.port, resolves, socketOpens, sendSucceeds);
    message := if success then SentMessage(device.name) else FailedMessage(device.name);
  }
}
