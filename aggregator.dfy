/**
 * The shared list of scanned devices: the record a ping hit and a resolved service each
 * produce, the two commit rules (`none { it.ip == … }` for pings; `none { ip && name }`
 * then `distinctBy` ip-name-port-serviceType for services) and the service-lost filter.
 */
module Aggregator {
  import opened Wrappers
  import opened KotlinText
  import opened Schema
  import opened Screens
  import opened Identity
  import opened ServiceNames
  import opened Subnet

  // ---------------------------------------------------------------------------
  // Keys and list predicates
  // ---------------------------------------------------------------------------

  /** `"${it.ip}-${it.name}-${it.port}-${it.serviceType}"`, the selector of `distinctBy`. */
  function DeviceKey(d: NetworkDevice): string {
    d.ip + "-" + d.name + "-" + IntToString(d.port) + "-" + d.serviceType
  }

  /** No two entries share a key. */
  predicate KeysDistinct<T>(list: seq<T>, key: T -> string) {
    forall i, j :: 0 <= i < j < |list| ==> key(list[i]) != key(list[j])
  }

  /** No two entries share an IP address. */
  predicate IpsDistinct(list: seq<NetworkDevice>) {
    forall i, j :: 0 <= i < j < |list| ==> list[i].ip != list[j].ip
  }

  predicate ListsIp(list: seq<NetworkDevice>, ip: string) {
    exists i :: 0 <= i < |list| && list[i].ip == ip
  }

  predicate ListsIpAndName(list: seq<NetworkDevice>, ip: string, name: string) {
    exists i :: 0 <= i < |list| && list[i].ip == ip && list[i].name == name
  }

  predicate ListsKey<T>(list: seq<T>, key: T -> string, k: string) {
    exists i :: 0 <= i < |list| && key(list[i]) == k
  }

  // ---------------------------------------------------------------------------
  // The ping commit
  // ---------------------------------------------------------------------------

  /**
   * `if (currentList.none { it.ip == newDevice.ip }) currentList + newDevice`: afterwards
   * the IP is listed, and the list either stayed as it was or grew by exactly `d` at the
   * end, the latter only when the IP was new.
   */
  function CommitPing(list: seq<NetworkDevice>, d: NetworkDevice): (r: seq<NetworkDevice>)
    ensures ListsIp(r, d.ip)
    ensures r == list || (r == list + [d] && !ListsIp(list, d.ip))
  {
    if ListsIp(list, d.ip) then list
    else
      assert (list + [d])[|list|] == d;
      list + [d]
  }

  /** A list built by ping commits alone never shows an IP twice. */
  lemma CommitPingKeepsIpsDistinct(list: seq<NetworkDevice>, d: NetworkDevice)
    requires IpsDistinct(list)
    ensures IpsDistinct(CommitPing(list, d))
  {
  }

  // ---------------------------------------------------------------------------
  // `distinctBy`
  // ---------------------------------------------------------------------------

  /** `distinctBy(key)` with the keys already met in `seen`: keeps each key's first entry, in order. */
  function DistinctByFrom<T(==)>(xs: seq<T>, key: T -> string, seen: set<string>): (r: seq<T>)
    ensures |r| <= |xs|
    ensures forall i :: 0 <= i < |r| ==> r[i] in xs && key(r[i]) !in seen
    ensures KeysDistinct(r, key)
    ensures forall x :: x in xs && key(x) !in seen ==> ListsKey(r, key, key(x))
    decreases |xs|
  {
    if |xs| == 0 then []
    else
      var k := key(xs[0]);
      if k in seen then
        var rest := DistinctByFrom(xs[1..], key, seen);
        assert forall x :: x in xs && key(x) !in seen ==> x in xs[1..];
        rest
      else
        var rest := DistinctByFrom(xs[1..], key, seen + {k});
        var r := [xs[0]] + rest;
        assert forall i :: 1 <= i < |r| ==> r[i] == rest[i - 1];
        assert ListsKey(r, key, k) by { assert key(r[0]) == k; }
        assert forall x :: x in xs[1..] && key(x) !in seen + {k} ==> ListsKey(r, key, key(x)) by {
          forall x | x in xs[1..] && key(x) !in seen + {k} ensures ListsKey(r, key, key(x)) {
            var i :| 0 <= i < |rest| && key(rest[i]) == key(x);
            assert r[i + 1] == rest[i];
          }
        }
        assert forall x :: x in xs ==> x == xs[0] || x in xs[1..];
        r
  }

  /** Kotlin's `distinctBy { "${it.ip}-${it.name}-${it.port}-${it.serviceType}" }`. */
  function DistinctByKey(xs: seq<NetworkDevice>): seq<NetworkDevice> {
    DistinctByFrom(xs, DeviceKey, {})
  }

  /** On a list whose keys are distinct and unseen, `distinctBy` changes nothing. */
  lemma {:induction false} DistinctByOfDistinct<T>(xs: seq<T>, key: T -> string, seen: set<string>)
    requires KeysDistinct(xs, key)
    requires forall i :: 0 <= i < |xs| ==> key(xs[i]) !in seen
    ensures DistinctByFrom(xs, key, seen) == xs
  {
    if |xs| > 0 {
      var k := key(xs[0]);
      assert forall i :: 0 <= i < |xs[1..]| ==> key(xs[1..][i]) != k by {
        forall i | 0 <= i < |xs[1..]| ensures key(xs[1..][i]) != k {
          assert xs[1..][i] == xs[i + 1];
        }
      }
      DistinctByOfDistinct(xs[1..], key, seen + {k});
    }
  }

  /** The keys a list shows. */
  function Keys<T>(xs: seq<T>, key: T -> string): (ks: set<string>)
    ensures forall k :: k in ks <==> ListsKey(xs, key, k)
  {
    if |xs| == 0 then {}
    else
      var ks := {key(xs[0])} + Keys(xs[1..], key);
      assert forall k :: ListsKey(xs[1..], key, k) ==> ListsKey(xs, key, k) by {
        forall k | ListsKey(xs[1..], key, k) ensures ListsKey(xs, key, k) {
          var i :| 0 <= i < |xs[1..]| && key(xs[1..][i]) == k;
          assert xs[i + 1] == xs[1..][i];
        }
      }
      assert forall k :: ListsKey(xs, key, k) ==> k == key(xs[0]) || ListsKey(xs[1..], key, k) by {
        forall k | ListsKey(xs, key, k) ensures k == key(xs[0]) || ListsKey(xs[1..], key, k) {
          var i :| 0 <= i < |xs| && key(xs[i]) == k;
          if i > 0 { assert xs[1..][i - 1] == xs[i]; }
        }
      }
      ks
  }

  /** Appending one entry before `distinctBy` adds it at the end exactly when its key is new. */
  lemma {:induction false} DistinctByAppend<T>(xs: seq<T>, d: T, key: T -> string, seen: set<string>)
    ensures DistinctByFrom(xs + [d], key, seen) ==
      DistinctByFrom(xs, key, seen) + (if key(d) in seen + Keys(xs, key) then [] else [d])
    decreases |xs|
  {
    if |xs| == 0 {
      assert xs + [d] == [d];
      assert [d][1..] == [];
    } else {
      var ys := xs + [d];
      assert ys[0] == xs[0];
      assert ys[1..] == xs[1..] + [d];
      var k := key(xs[0]);
      var tail: seq<T> := if key(d) in seen + Keys(xs, key) then [] else [d];
      if k in seen {
        assert seen + Keys(xs, key) == seen + Keys(xs[1..], key);
        DistinctByAppend(xs[1..], d, key, seen);
        assert DistinctByFrom(ys, key, seen) == DistinctByFrom(xs[1..] + [d], key, seen);
      } else {
        assert seen + Keys(xs, key) == (seen + {k}) + Keys(xs[1..], key);
        DistinctByAppend(xs[1..], d, key, seen + {k});
        var rest := DistinctByFrom(xs[1..], key, seen + {k});
        assert DistinctByFrom(ys, key, seen) == [xs[0]] + (rest + tail);
        assert DistinctByFrom(xs, key, seen) == [xs[0]] + rest;
      }
    }
  }

  // ---------------------------------------------------------------------------
  // The resolved-service commit
  // ---------------------------------------------------------------------------

  /**
   * `if (currentList.none { it.ip == newDevice.ip && it.name == newDevice.name })
   * (currentList + newDevice).distinctBy { … }`: whenever the list changes, the new list
   * has no repeated key, and it holds `d` only if no listed device had `d`'s IP and name.
   */
  function CommitResolved(list: seq<NetworkDevice>, d: NetworkDevice): (r: seq<NetworkDevice>)
    ensures r == list || KeysDistinct(r, DeviceKey)
    ensures ListsIpAndName(list, d.ip, d.name) ==> r == list
  {
    if ListsIpAndName(list, d.ip, d.name) then list else DistinctByKey(list + [d])
  }

  /**
   * On a list that already has distinct keys, the `distinctBy` pass only decides whether
   * `d` is appended: it is, exactly when no entry shares its IP and name and none its key.
   */
  lemma CommitResolvedOfDistinct(list: seq<NetworkDevice>, d: NetworkDevice)
    requires KeysDistinct(list, DeviceKey)
    ensures CommitResolved(list, d) ==
      if ListsIpAndName(list, d.ip, d.name) || ListsKey(list, DeviceKey, DeviceKey(d)) then list else list + [d]
    ensures KeysDistinct(CommitResolved(list, d), DeviceKey)
  {
    if !ListsIpAndName(list, d.ip, d.name) {
      DistinctByAppend(list, d, DeviceKey, {});
      DistinctByOfDistinct(list, DeviceKey, {});
    }
  }

  // ---------------------------------------------------------------------------
  // The service-lost filter
  // ---------------------------------------------------------------------------

  /**
   * `it.name == service.serviceName && it.serviceType == service.serviceType`; a null
   * service name or type never equals a device's (non-null) one.
   */
  predicate IsLost(d: NetworkDevice, serviceName: Option<string>, serviceType: Option<string>) {
    serviceName == Some(d.name) && serviceType == Some(d.serviceType)
  }

  /** `filterNot { IsLost }`: keeps exactly the entries that do not match. */
  function RemoveLost(list: seq<NetworkDevice>, serviceName: Option<string>, serviceType: Option<string>)
    : (r: seq<NetworkDevice>)
    ensures |r| <= |list|
    ensures forall x :: x in r <==> x in list && !IsLost(x, serviceName, serviceType)
  {
    if |list| == 0 then []
    else
      var rest := RemoveLost(list[1..], serviceName, serviceType);
      assert forall x :: x in list <==> x == list[0] || x in list[1..];
      if IsLost(list[0], serviceName, serviceType) then rest else [list[0]] + rest
  }

  /** The filter works entry by entry, so the entries kept stay in their order. */
  lemma {:induction false} RemoveLostAppend(a: seq<NetworkDevice>, b: seq<NetworkDevice>,
                                            serviceName: Option<string>, serviceType: Option<string>)
    ensures RemoveLost(a + b, serviceName, serviceType) ==
      RemoveLost(a, serviceName, serviceType) + RemoveLost(b, serviceName, serviceType)
  {
    if |a| > 0 {
      assert (a + b)[0] == a[0];
      assert (a + b)[1..] == a[1..] + b;
      RemoveLostAppend(a[1..], b, serviceName, serviceType);
    } else {
      assert a + b == b;
    }
  }

  /** A list with no matching entry is left as it is. */
  lemma {:induction false} RemoveLostWithoutMatch(list: seq<NetworkDevice>, serviceName: Option<string>, serviceType: Option<string>)
    requires forall i :: 0 <= i < |list| ==> !IsLost(list[i], serviceName, serviceType)
    ensures RemoveLost(list, serviceName, serviceType) == list
  {
    if |list| > 0 {
      var tail := list[1..];
      forall i | 0 <= i < |tail| ensures !IsLost(tail[i], serviceName, serviceType) {
        assert tail[i] == list[i + 1];
      }
      RemoveLostWithoutMatch(tail, serviceName, serviceType);
      assert !IsLost(list[0], serviceName, serviceType);
      assert list == [list[0]] + tail;
    }
  }

  /** Reporting the same service lost twice removes nothing more. */
  lemma RemoveLostIdempotent(list: seq<NetworkDevice>, serviceName: Option<string>, serviceType: Option<string>)
    ensures RemoveLost(RemoveLost(list, serviceName, serviceType), serviceName, serviceType) ==
      RemoveLost(list, serviceName, serviceType)
  {
    var r := RemoveLost(list, serviceName, serviceType);
    assert forall i :: 0 <= i < |r| ==> r[i] in r;
    RemoveLostWithoutMatch(r, serviceName, serviceType);
  }

  // ---------------------------------------------------------------------------
  // The records committed
  // ---------------------------------------------------------------------------

  /** `getMacFromArpCache` as a value: nothing when `cat /proc/net/arp` threw. */
  function ArpCacheMac(arpOutput: Option<string>, ip: string): (r: Option<string>)
    ensures r.Some? ==> IsValidMacAddress(r.value)
  {
    if arpOutput.None? then None
    else
      var r := ArpMac(Split(arpOutput.value, '\n'), ip);
      if r.Some? then ArpMacIsUsable(Split(arpOutput.value, '\n'), ip); r else r
  }

  const PingServiceType: string := "ping_discovered"
  const DefaultWolPort: int := 9

  /** The device of a ping hit: `hostname ?: hostIp`, port 9, the ARP MAC and the broadcast address. */
  function PingDevice(ip: string, hostname: Option<string>, mac: Option<string>): NetworkDevice {
    NetworkDevice(
      name := hostname.GetOr(ip), ip := ip, port := DefaultWolPort, serviceType := PingServiceType,
      macAddress := mac, broadcastAddress := GetBroadcastAddress(Some(ip)))
  }

  /**
   * The device of a resolved service: the cleaned-up name, the chosen IPv4 address, the
   * service's port and type (the type that was searched for when the service has none).
   */
  function ResolvedDevice(info: ServiceInfo, originalServiceType: string, chosen: string,
                          arpOutput: Option<string>, urlDecode: string -> Option<string>): NetworkDevice {
    NetworkDevice(
      name := ResolvedName(info, originalServiceType, urlDecode), ip := chosen, port := info.port,
      serviceType := info.serviceType.GetOr(originalServiceType),
      macAddress := ArpCacheMac(arpOutput, chosen), broadcastAddress := GetBroadcastAddress(Some(chosen)))
  }

  /**
   * Every committed record carries a well-formed broadcast address (its own subnet's when
   * its IP is valid) and, when it has a MAC, one the Wake-on-LAN sender accepts.
   */
  lemma PingDeviceIsWakeable(ip: string, hostname: Option<string>, arpOutput: Option<string>)
    ensures var d := PingDevice(ip, hostname, ArpCacheMac(arpOutput, ip));
      && IsDottedQuad(d.broadcastAddress)
      && (IsValidIpAddress(Some(ip)) ==> Some(d.broadcastAddress) == InferBroadcastAddress(Some(ip)))
      && (d.macAddress.Some? ==> IsValidMacAddress(d.macAddress.value))
      && (hostname.None? ==> d.name == ip)
  {
    GetBroadcastAddressIsInferred(Some(ip));
  }

  lemma ResolvedDeviceIsWakeable(info: ServiceInfo, originalServiceType: string, chosen: string,
                                 arpOutput: Option<string>, urlDecode: string -> Option<string>)
    ensures var d := ResolvedDevice(info, originalServiceType, chosen, arpOutput, urlDecode);
      && IsDottedQuad(d.broadcastAddress)
      && (IsValidIpAddress(Some(chosen)) ==> Some(d.broadcastAddress) == InferBroadcastAddress(Some(chosen)))
      && (d.macAddress.Some? ==> IsValidMacAddress(d.macAddress.value))
  {
    GetBroadcastAddressIsInferred(Some(chosen));
  }
}
