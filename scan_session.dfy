/**
 * `DeviceViewModel`'s scan session: the scanning flag, the progress counter, the ping
 * chain jobs, the listener registry, the pending-service map, the hostname cache and the
 * shared list of scanned devices, with the coroutine bodies and the NSD callbacks run as
 * sequential method calls on plain data.
 */
module ScanSession {
  import opened Wrappers
  import opened KotlinText
  import opened Schema
  import opened Identity
  import opened ServiceNames
  import opened Subnet
  import opened Aggregator
  import opened PingSweep

  /** A registered `DiscoveryListener`, known by the service type it was created for. */
  datatype Listener = Listener(serviceTypeToDiscover: string)

  /** A `ResolveListener`, with the pending-map key and the searched-for type it was created with. */
  datatype ResolveListener = ResolveListener(serviceKey: string, originalServiceType: string)

  /** `SERVICE_TYPES`. */
  const ServiceTypes: seq<string> := [
    "_services._dns-sd._udp", "_http._tcp.", "_workstation._tcp.", "_companion-link._tcp.",
    "_ssh._tcp.", "_smb._tcp.", "_printer._tcp.", "_ipp._tcp.", "_device-info._tcp.",
    "_googlecast._tcp.", "_spotify-connect._tcp.", "_airplay._tcp.", "_raop._tcp.",
    "_sleep-proxy._udp", "_sleep-proxy._tcp", "_homekit._tcp"]

  /** The types whose discovery starts first. */
  const PriorityServices: seq<string> := ["_workstation._tcp.", "_http._tcp.", "_smb._tcp."]

  /**
   * The types `startServiceDiscovery` registers, called on `types` in turn with `registered`
   * the registry's keys before the first call: a type is registered when it is not already
   * (before, or by an earlier call) and `discoverServices` does not throw for it.
   */
  function Initiated(types: seq<string>, registered: set<string>, discoverThrows: string -> bool): (r: seq<string>)
    decreases |types|
  {
    if |types| == 0 then []
    else
      var prev := Initiated(types[..|types| - 1], registered, discoverThrows);
      var t := types[|types| - 1];
      if t in registered || t in prev || discoverThrows(t) then prev else prev + [t]
  }

  /**
   * Each type is registered at most once, only when it was free and its discovery started,
   * and every such type of the list is registered.
   */
  lemma {:induction false} InitiatedIsExact(types: seq<string>, registered: set<string>, discoverThrows: string -> bool)
    ensures var r := Initiated(types, registered, discoverThrows);
      && (forall i, j :: 0 <= i < j < |r| ==> r[i] != r[j])
      && (forall t :: t in r <==> t in types && t !in registered && !discoverThrows(t))
    decreases |types|
  {
    if |types| > 0 {
      var front := types[..|types| - 1];
      InitiatedIsExact(front, registered, discoverThrows);
      assert forall t :: t in types <==> t in front || t == types[|types| - 1] by {
        assert types == front + [types[|types| - 1]];
      }
    }
  }

  class DeviceViewModel {
    var scannedNetworkDevices: seq<NetworkDevice>
    var isScanningNetwork: bool
    var scanProgress: int
    var sharedPingProgressCounter: int
    /** The launched ping chains, each known by its start index. */
    var pingChainJobs: seq<int>
    var discoveryListeners: map<string, Listener>
    var discoveredServicesMap: map<string, ServiceInfo>
    var hostnameCache: map<string, Option<string>>

    /**
     * Progress stays within `0..scanTotal` and, while scanning, equals the shared counter
     * capped at 254; each listener is filed under its own type; each pending service
     * under its own key; each job is one of the 25 chains.
     */
    predicate Valid()
      reads this
    {
      && 0 <= scanProgress <= ScanTotal
      && 0 <= sharedPingProgressCounter
      && (isScanningNetwork ==> scanProgress == Min(sharedPingProgressCounter, ScanTotal))
      && (forall t :: t in discoveryListeners ==> discoveryListeners[t] == Listener(t))
      && (forall k :: k in discoveredServicesMap ==>
            k == ServiceKey(discoveredServicesMap[k].serviceName, discoveredServicesMap[k].serviceType))
      && (forall i :: 0 <= i < |pingChainJobs| ==> 1 <= pingChainJobs[i] <= ChainCount)
    }

    /** The state a ping chain works on. */
    function Snapshot(): PingState
      reads this`scannedNetworkDevices, this`hostnameCache, this`sharedPingProgressCounter
    {
      PingState(scannedNetworkDevices, hostnameCache, sharedPingProgressCounter)
    }

    constructor()
      ensures Valid()
      ensures scannedNetworkDevices == [] && !isScanningNetwork && scanProgress == 0
      ensures sharedPingProgressCounter == 0 && pingChainJobs == []
      ensures discoveryListeners == map[] && discoveredServicesMap == map[] && hostnameCache == map[]
    {
      scannedNetworkDevices := [];
      isScanningNetwork := false;
      scanProgress := 0;
      sharedPingProgressCounter := 0;
      pingChainJobs := [];
      discoveryListeners := map[];
      discoveredServicesMap := map[];
      hostnameCache := map[];
    }

    // -------------------------------------------------------------------------
    // Starting and stopping
    // -------------------------------------------------------------------------

    /**
     * `startNetworkScan`'s own body (the coroutine it launches is `RunLaunchedScan`):
     * nothing while a scan runs; otherwise a stop, then a fresh scanning session.
     */
    method StartNetworkScan() returns (stopped: set<Listener>)
      requires Valid()
      modifies this
      ensures Valid()
      ensures old(isScanningNetwork) ==> unchanged(this) && stopped == {}
      ensures !old(isScanningNetwork) ==>
        && isScanningNetwork && scannedNetworkDevices == [] && discoveredServicesMap == map[]
        && scanProgress == 0 && sharedPingProgressCounter == 0 && pingChainJobs == []
        && discoveryListeners == map[] && hostnameCache == old(hostnameCache)
        && stopped == old(discoveryListeners).Values
    {
      if isScanningNetwork {
        return {};
      }
      stopped := StopNetworkScan();
      isScanningNetwork := true;
      scannedNetworkDevices := [];
      discoveredServicesMap := map[];
      scanProgress := 0;
      sharedPingProgressCounter := 0;
      pingChainJobs := [];
    }

    /**
     * `stopAllDiscoveryListeners`: every registered listener is removed and handed to
     * `stopServiceDiscovery` (returned as `stopped`).
     */
    method StopAllDiscoveryListeners() returns (stopped: set<Listener>)
      modifies this`discoveryListeners
      ensures discoveryListeners == map[]
      ensures stopped == old(discoveryListeners).Values
    {
      var keys := discoveryListeners.Keys;
      stopped := {};
      while keys != {}
        invariant keys <= old(discoveryListeners).Keys
        invariant discoveryListeners == map t | t in keys :: old(discoveryListeners)[t]
        invariant stopped == set t | t in old(discoveryListeners).Keys - keys :: old(discoveryListeners)[t]
        decreases keys
      {
        var serviceType :| serviceType in keys;
        stopped := stopped + {discoveryListeners[serviceType]};
        discoveryListeners := discoveryListeners - {serviceType};
        keys := keys - {serviceType};
      }
      assert old(discoveryListeners).Keys - keys == old(discoveryListeners).Keys;
    }

    /**
     * `stopNetworkScan`. When nothing runs (not scanning, no jobs, no listeners) it changes
     * nothing; otherwise it ends scanning, drops the jobs, stops every listener and resets
     * the progress. Either way it leaves that idle condition behind, so a second call
     * changes nothing.
     */
    method StopNetworkScan() returns (stopped: set<Listener>)
      requires Valid()
      modifies this`isScanningNetwork, this`pingChainJobs, this`discoveryListeners, this`scanProgress
      ensures Valid()
      ensures !isScanningNetwork && pingChainJobs == [] && discoveryListeners == map[]
      ensures old(!isScanningNetwork && pingChainJobs == [] && discoveryListeners == map[]) ==>
        scanProgress == old(scanProgress) && stopped == {}
      ensures !old(!isScanningNetwork && pingChainJobs == [] && discoveryListeners == map[]) ==>
        scanProgress == 0 && stopped == old(discoveryListeners).Values
    {
      if !isScanningNetwork && pingChainJobs == [] && discoveryListeners == map[] {
        return {};
      }
      isScanningNetwork := false;
      pingChainJobs := [];
      stopped := StopAllDiscoveryListeners();
      scanProgress := 0;
    }

    /** `clearScannedDevices`. */
    method ClearScannedDevices()
      requires Valid()
      modifies this`scannedNetworkDevices, this`discoveredServicesMap
      ensures Valid()
      ensures scannedNetworkDevices == [] && discoveredServicesMap == map[]
    {
      scannedNetworkDevices := [];
      discoveredServicesMap := map[];
    }

    // -------------------------------------------------------------------------
    // The ping sweep
    // -------------------------------------------------------------------------

    /**
     * `getHostname`'s cache: a cached answer is returned without a lookup and without
     * changing the cache; otherwise the looked-up name `lookup` (null included) is cached
     * and returned.
     */
    method GetHostname(ip: string, lookup: Option<string>) returns (name: Option<string>)
      modifies this`hostnameCache
      ensures name == CachedHostname(old(hostnameCache), lookup, ip)
      ensures hostnameCache == old(hostnameCache)[ip := name]
      ensures ip in old(hostnameCache) ==> name == old(hostnameCache)[ip] && hostnameCache == old(hostnameCache)
    {
      if ip in hostnameCache {
        assert hostnameCache[ip := hostnameCache[ip]] == hostnameCache;
        return hostnameCache[ip];
      }
      name := lookup;
      hostnameCache := hostnameCache[ip := name];
    }

    /**
     * One pass of `pingDeviceChain`'s loop body for `hostIp`: a reachable host is named,
     * looked up in the ARP table and committed; the visit is counted and the progress
     * follows the counter.
     */
    method PingHost(hostIp: string, net: Network)
      requires Valid() && isScanningNetwork
      modifies this`scannedNetworkDevices, this`hostnameCache, this`sharedPingProgressCounter, this`scanProgress
      ensures Valid()
      ensures Snapshot() == PingStep(old(Snapshot()), hostIp, net)
      ensures old(scanProgress) <= scanProgress
    {
      if net.reachable(hostIp) {
        var hostname := GetHostname(hostIp, net.lookup(hostIp));
        var macAddress := GetMacFromArpCache(net.arpOutput, hostIp);
        var newDevice := PingDevice(hostIp, hostname, macAddress);
        scannedNetworkDevices := CommitPing(scannedNetworkDevices, newDevice);
      }
      sharedPingProgressCounter := sharedPingProgressCounter + 1;
      scanProgress := Min(sharedPingProgressCounter, ScanTotal);
    }

    /**
     * `pingDeviceChain`: while the index is at most 254 and the scan runs, ping
     * `prefix.index`, commit a device for a reachable host, count the visit and move on by
     * `step`. The state it leaves is `ChainRun` over `ChainIndices(startIndex, step)`, and
     * the progress never goes down.
     */
    method PingDeviceChain(networkPrefix: string, startIndex: int, step: int, net: Network)
      requires Valid() && step > 0
      modifies this`scannedNetworkDevices, this`hostnameCache, this`sharedPingProgressCounter, this`scanProgress
      ensures Valid()
      ensures isScanningNetwork ==>
        Snapshot() == ChainRun(old(Snapshot()), networkPrefix, ChainIndices(startIndex, step), net)
      ensures !isScanningNetwork ==> Snapshot() == old(Snapshot()) && scanProgress == old(scanProgress)
      ensures old(scanProgress) <= scanProgress
    {
      var currentIndex := startIndex;
      ghost var chain := ChainRun(Snapshot(), networkPrefix, ChainIndices(startIndex, step), net);
      while currentIndex <= LastHost && isScanningNetwork
        invariant Valid()
        invariant old(scanProgress) <= scanProgress
        invariant isScanningNetwork ==> chain == ChainRun(Snapshot(), networkPrefix, ChainIndices(currentIndex, step), net)
        invariant !isScanningNetwork ==> Snapshot() == old(Snapshot()) && scanProgress == old(scanProgress)
        decreases LastHost + 1 - currentIndex
      {
        var hostIp := HostIp(networkPrefix, currentIndex);
        ghost var before, visited := Snapshot(), currentIndex;
        PingHost(hostIp, net);
        currentIndex := currentIndex + step;
        ChainRunStep(before, networkPrefix, visited, currentIndex, step, Snapshot(), net);
      }
      assert currentIndex > LastHost ==> ChainIndices(currentIndex, step) == [];
    }

    /**
     * One pass of the launching loop: chain `i` is added to the jobs and (in this sequential
     * model) runs to its end.
     */
    method LaunchChain(localSubnetPrefix: string, i: int, net: Network)
      requires Valid() && isScanningNetwork && 1 <= i <= ChainCount
      modifies this`scannedNetworkDevices, this`hostnameCache, this`sharedPingProgressCounter,
               this`scanProgress, this`pingChainJobs
      ensures Valid()
      ensures Snapshot() == ChainRun(old(Snapshot()), localSubnetPrefix, ChainIndices(i, ChainCount), net)
      ensures pingChainJobs == old(pingChainJobs) + [i]
      ensures old(scanProgress) <= scanProgress
    {
      pingChainJobs := pingChainJobs + [i];
      PingDeviceChain(localSubnetPrefix, i, ChainCount, net);
    }

    /**
     * The ping part of the launched coroutine: while the scan runs, chains `first..25` are
     * launched (and, in this sequential model, run) in turn; the coroutine starts at chain 1.
     * The result is `SweepFrom`, which from chain 1 is `SweepRun`.
     */
    method LaunchPingChains(localSubnetPrefix: string, first: int, net: Network)
      requires Valid() && 1 <= first <= ChainCount + 1
      modifies this`scannedNetworkDevices, this`hostnameCache, this`sharedPingProgressCounter,
               this`scanProgress, this`pingChainJobs
      ensures Valid()
      ensures isScanningNetwork ==>
        && Snapshot() == SweepFrom(old(Snapshot()), localSubnetPrefix, first, net)
        && pingChainJobs == old(pingChainJobs) + ChainRange(first, ChainCount + 1)
      ensures !isScanningNetwork ==> Snapshot() == old(Snapshot()) && pingChainJobs == old(pingChainJobs)
      ensures old(scanProgress) <= scanProgress
    {
      if !isScanningNetwork {
        return;
      }
      ghost var sweep := SweepFrom(Snapshot(), localSubnetPrefix, first, net);
      var i := first;
      while i <= ChainCount
        invariant first <= i <= ChainCount + 1
        invariant Valid() && isScanningNetwork
        invariant old(scanProgress) <= scanProgress
        invariant sweep == SweepFrom(Snapshot(), localSubnetPrefix, i, net)
        invariant pingChainJobs == old(pingChainJobs) + ChainRange(first, i)
        decreases ChainCount + 1 - i
      {
        ghost var before, launched := Snapshot(), i;
        LaunchChain(localSubnetPrefix, i, net);
        i := i + 1;
        SweepFromStep(before, localSubnetPrefix, launched, i, Snapshot(), net);
        ChainRangeSnoc(first, launched, i);
        SnocAssociates(old(pingChainJobs), ChainRange(first, launched), launched);
      }
    }

    // -------------------------------------------------------------------------
    // Service discovery
    // -------------------------------------------------------------------------

    /**
     * `startServiceDiscovery`: only while scanning and for a type not yet registered, the
     * listener is registered; it is taken out again when `discoverServices` throws.
     */
    method StartServiceDiscovery(serviceType: string, discoverThrows: bool) returns (started: bool)
      requires Valid()
      modifies this`discoveryListeners
      ensures Valid()
      ensures started <==> isScanningNetwork && serviceType !in old(discoveryListeners) && !discoverThrows
      ensures discoveryListeners ==
        if started then old(discoveryListeners)[serviceType := Listener(serviceType)] else old(discoveryListeners)
    {
      if !isScanningNetwork || serviceType in discoveryListeners {
        return false;
      }
      var listener := Listener(serviceType);
      discoveryListeners := discoveryListeners[serviceType := listener];
      if discoverThrows {
        discoveryListeners := discoveryListeners - {serviceType};
        assert discoveryListeners == old(discoveryListeners);
        return false;
      }
      started := true;
    }

    /**
     * One of the launched coroutine's discovery loops: `startServiceDiscovery` for each of
     * `types` in turn while the scan runs. `before` are the types the earlier loop went
     * through, `registered` the registry's keys when the first loop began.
     */
    method DiscoverEach(types: seq<string>, ghost before: seq<string>, ghost registered: set<string>,
                        discoverThrows: string -> bool, initiatedBefore: seq<string>)
      returns (initiated: seq<string>)
      requires Valid()
      requires isScanningNetwork ==> initiatedBefore == Initiated(before, registered, discoverThrows)
      requires !isScanningNetwork ==> initiatedBefore == []
      requires forall t :: t in discoveryListeners <==> t in registered || t in initiatedBefore
      modifies this`discoveryListeners
      ensures Valid()
      ensures isScanningNetwork ==> initiated == Initiated(before + types, registered, discoverThrows)
      ensures !isScanningNetwork ==> initiated == [] && discoveryListeners == old(discoveryListeners)
      ensures forall t :: t in discoveryListeners <==> t in registered || t in initiated
    {
      initiated := initiatedBefore;
      assert before + types[..0] == before;
      for k := 0 to |types|
        invariant Valid()
        invariant isScanningNetwork ==> initiated == Initiated(before + types[..k], registered, discoverThrows)
        invariant !isScanningNetwork ==> initiated == [] && discoveryListeners == old(discoveryListeners)
        invariant forall t :: t in discoveryListeners <==> t in registered || t in initiated
      {
        if !isScanningNetwork {
          break;
        }
        assert (before + types[..k + 1])[..|before| + k] == before + types[..k];
        assert (before + types[..k + 1])[|before| + k] == types[k];
        var started := StartServiceDiscovery(types[k], discoverThrows(types[k]));
        if started {
          initiated := initiated + [types[k]];
        }
      }
      assert types[..|types|] == types;
    }

    /**
     * The end of the launched coroutine, once the discovery window has passed: if the scan
     * still runs, the jobs are cancelled, scanning ends and every listener is stopped.
     */
    method FinishScan() returns (stopped: set<Listener>)
      requires Valid()
      modifies this`pingChainJobs, this`isScanningNetwork, this`discoveryListeners
      ensures Valid()
      ensures !old(isScanningNetwork) ==> unchanged(this) && stopped == {}
      ensures old(isScanningNetwork) ==>
        && !isScanningNetwork && pingChainJobs == [] && discoveryListeners == map[]
        && stopped == set t | t in old(discoveryListeners) :: Listener(t)
    {
      stopped := {};
      if isScanningNetwork {
        pingChainJobs := [];
        isScanningNetwork := false;
        ghost var registry := discoveryListeners;
        stopped := StopAllDiscoveryListeners();
        forall l | l in stopped ensures l in set t | t in registry :: Listener(t) {
          var t :| t in registry && registry[t] == l;
        }
        forall t | t in registry ensures Listener(t) in stopped {
          assert registry[t] == Listener(t);
        }
      }
    }

    /**
     * The ping part of the launched coroutine: find the subnet and, when there is one and
     * the scan still runs, launch the 25 chains: the jobs then name chains 1..25, the state
     * is `SweepRun` from the old state, with 254 more visits counted, and the progress
     * follows the counter.
     */
    method PingPhase(subnetSources: SubnetSources, net: Network) returns (localSubnetPrefix: Option<string>)
      requires Valid()
      modifies this`scannedNetworkDevices, this`hostnameCache, this`sharedPingProgressCounter,
               this`scanProgress, this`pingChainJobs
      ensures Valid()
      ensures localSubnetPrefix == LocalSubnet(subnetSources)
      ensures localSubnetPrefix.Some? && isScanningNetwork ==>
        && Snapshot() == SweepRun(old(Snapshot()), localSubnetPrefix.value, net)
        && pingChainJobs == old(pingChainJobs) + ChainRange(1, ChainCount + 1)
        && sharedPingProgressCounter == old(sharedPingProgressCounter) + ScanTotal
        && scanProgress == Min(sharedPingProgressCounter, ScanTotal)
      ensures localSubnetPrefix.None? || !isScanningNetwork ==> unchanged(this)
      ensures old(scanProgress) <= scanProgress
    {
      localSubnetPrefix := GetLocalSubnet(subnetSources);
      if localSubnetPrefix.Some? && isScanningNetwork {
        ghost var before := Snapshot();
        LaunchPingChains(localSubnetPrefix.value, 1, net);
        SweepRunCounter(before, localSubnetPrefix.value, net);
      }
    }

    /**
     * The discovery part of the launched coroutine: start discovery for the given priority
     * types and then the remaining ones, and at the timeout end the scan and stop every
     * listener.
     */
    method DiscoveryPhase(priority: seq<string>, remaining: seq<string>, discoverThrows: string -> bool)
      returns (initiated: seq<string>, stopped: set<Listener>)
      requires Valid()
      modifies this`discoveryListeners, this`pingChainJobs, this`isScanningNetwork
      ensures Valid()
      ensures !old(isScanningNetwork) ==> unchanged(this) && initiated == [] && stopped == {}
      ensures old(isScanningNetwork) ==>
        && !isScanningNetwork && pingChainJobs == [] && discoveryListeners == map[]
        && initiated == Initiated(priority + remaining, old(discoveryListeners).Keys, discoverThrows)
        && stopped == set t | t in old(discoveryListeners).Keys + (set u | u in initiated) :: Listener(t)
    {
      ghost var registered := discoveryListeners.Keys;
      assert [] + priority == priority;
      initiated := DiscoverEach(priority, [], registered, discoverThrows, []);
      initiated := DiscoverEach(remaining, priority, registered, discoverThrows, initiated);
      ghost var registry := discoveryListeners;
      stopped := FinishScan();
      assert old(isScanningNetwork) ==>
        (set t | t in registry :: Listener(t)) == set t | t in old(discoveryListeners).Keys + (set u | u in initiated) :: Listener(t);
    }

    /**
     * The coroutine `startNetworkScan` launches, with the outside world as parameters: find
     * the subnet, run the ping sweep, start discovery for the priority types and then the
     * others, and at the timeout end the scan and stop every listener. No callback runs in
     * between in this sequential model. The progress is left at the counter capped at 254:
     * at 254 after a sweep that started from 0, and where it was when no subnet was found.
     */
    method RunLaunchedScan(subnetSources: SubnetSources, net: Network, discoverThrows: string -> bool)
      returns (localSubnetPrefix: Option<string>, initiated: seq<string>, stopped: set<Listener>)
      requires Valid()
      modifies this
      ensures Valid()
      ensures localSubnetPrefix == LocalSubnet(subnetSources)
      ensures !old(isScanningNetwork) ==> unchanged(this) && initiated == [] && stopped == {}
      ensures old(isScanningNetwork) ==>
        && !isScanningNetwork && pingChainJobs == [] && discoveryListeners == map[]
        && discoveredServicesMap == old(discoveredServicesMap)
        && Snapshot() == (if localSubnetPrefix.Some? then SweepRun(old(Snapshot()), localSubnetPrefix.value, net)
                          else old(Snapshot()))
        && initiated == Initiated(ScanOrder(), old(discoveryListeners).Keys, discoverThrows)
        && stopped == (set t | t in old(discoveryListeners).Keys + (set u | u in initiated) :: Listener(t))
        && scanProgress == Min(sharedPingProgressCounter, ScanTotal)
        && (localSubnetPrefix.None? ==> scanProgress == old(scanProgress))
        && (localSubnetPrefix.Some? ==> sharedPingProgressCounter == old(sharedPingProgressCounter) + ScanTotal)
        && (localSubnetPrefix.Some? && old(sharedPingProgressCounter) == 0 ==> scanProgress == ScanTotal)
    {
      localSubnetPrefix := PingPhase(subnetSources, net);
      initiated, stopped := DiscoveryPhase(PriorityServices, RemainingServices, discoverThrows);
    }

    /**
     * `onServiceFound`: while scanning, an unseen `name-type` key is filed with the service
     * and a resolve is requested (returned as the resolve listener); a resolve request that
     * throws takes the key out again.
     */
    method OnServiceFound(listener: Listener, service: ServiceInfo, resolveThrows: bool)
      returns (resolver: Option<ResolveListener>)
      requires Valid()
      modifies this`discoveredServicesMap
      ensures Valid()
      ensures var key := ServiceKey(service.serviceName, service.serviceType);
        && (resolver.Some? <==> isScanningNetwork && key !in old(discoveredServicesMap) && !resolveThrows)
        && (resolver.Some? ==>
              resolver.value == ResolveListener(key, listener.serviceTypeToDiscover)
              && discoveredServicesMap == old(discoveredServicesMap)[key := service])
        && (resolver.None? ==> discoveredServicesMap == old(discoveredServicesMap))
    {
      if !isScanningNetwork {
        return None;
      }
      var serviceKey := ServiceKey(service.serviceName, service.serviceType);
      if serviceKey in discoveredServicesMap {
        return None;
      }
      discoveredServicesMap := discoveredServicesMap[serviceKey := service];
      if resolveThrows {
        discoveredServicesMap := discoveredServicesMap - {serviceKey};
        assert discoveredServicesMap == old(discoveredServicesMap);
        return None;
      }
      resolver := Some(ResolveListener(serviceKey, listener.serviceTypeToDiscover));
    }

    /**
     * `onServiceLost`: the key leaves the pending map and, while scanning, exactly the
     * devices with the service's name and type leave the list, the others keeping their order.
     */
    method OnServiceLost(service: ServiceInfo)
      requires Valid()
      modifies this`discoveredServicesMap, this`scannedNetworkDevices
      ensures Valid()
      ensures discoveredServicesMap == old(discoveredServicesMap) - {ServiceKey(service.serviceName, service.serviceType)}
      ensures scannedNetworkDevices == if isScanningNetwork
        then RemoveLost(old(scannedNetworkDevices), service.serviceName, service.serviceType)
        else old(scannedNetworkDevices)
    {
      var serviceKey := ServiceKey(service.serviceName, service.serviceType);
      discoveredServicesMap := discoveredServicesMap - {serviceKey};
      if isScanningNetwork {
        scannedNetworkDevices := RemoveLost(scannedNetworkDevices, service.serviceName, service.serviceType);
      }
    }

    /** `onDiscoveryStopped`, `onStartDiscoveryFailed`, `onStopDiscoveryFailed`: the listener's type leaves the registry. */
    method OnListenerEnded(listener: Listener)
      requires Valid()
      modifies this`discoveryListeners
      ensures Valid()
      ensures discoveryListeners == old(discoveryListeners) - {listener.serviceTypeToDiscover}
    {
      discoveryListeners := discoveryListeners - {listener.serviceTypeToDiscover};
    }

    /** `onResolveFailed`: the key leaves the pending map. */
    method OnResolveFailed(resolver: ResolveListener)
      requires Valid()
      modifies this`discoveredServicesMap
      ensures Valid()
      ensures discoveredServicesMap == old(discoveredServicesMap) - {resolver.serviceKey}
    {
      discoveredServicesMap := discoveredServicesMap - {resolver.serviceKey};
    }

    /**
     * `onServiceResolved`: on every outcome the key leaves the pending map. Only a non-null
     * service, while scanning, with a usable IPv4 address, produces a device, which is
     * committed by `CommitResolved`; a list with distinct keys keeps them distinct.
     */
    method OnServiceResolved(resolver: ResolveListener, serviceInfo: Option<ServiceInfo>, modernApi: bool,
                             arpOutput: Option<string>, urlDecode: string -> Option<string>)
      requires Valid()
      modifies this`discoveredServicesMap, this`scannedNetworkDevices
      ensures Valid()
      ensures discoveredServicesMap == old(discoveredServicesMap) - {resolver.serviceKey}
      ensures serviceInfo.None? || !isScanningNetwork || ChosenAddress(serviceInfo.value, modernApi).None? ==>
        scannedNetworkDevices == old(scannedNetworkDevices)
      ensures serviceInfo.Some? && isScanningNetwork && ChosenAddress(serviceInfo.value, modernApi).Some? ==>
        scannedNetworkDevices == CommitResolved(old(scannedNetworkDevices),
          ResolvedDevice(serviceInfo.value, resolver.originalServiceType, ChosenAddress(serviceInfo.value, modernApi).value,
                         arpOutput, urlDecode))
      ensures KeysDistinct(old(scannedNetworkDevices), DeviceKey) ==> KeysDistinct(scannedNetworkDevices, DeviceKey)
    {
      if serviceInfo.None? || !isScanningNetwork {
        discoveredServicesMap := discoveredServicesMap - {resolver.serviceKey};
        return;
      }
      discoveredServicesMap := discoveredServicesMap - {resolver.serviceKey};
      AddResolvedService(serviceInfo.value, resolver.originalServiceType, modernApi, arpOutput, urlDecode);
    }

    /**
     * The rest of `onServiceResolved` for a non-null service while scanning: without a
     * usable IPv4 address nothing is added; otherwise the built device is committed.
     */
    method AddResolvedService(info: ServiceInfo, originalServiceType: string, modernApi: bool,
                              arpOutput: Option<string>, urlDecode: string -> Option<string>)
      modifies this`scannedNetworkDevices
      ensures ChosenAddress(info, modernApi).None? ==> scannedNetworkDevices == old(scannedNetworkDevices)
      ensures ChosenAddress(info, modernApi).Some? ==>
        scannedNetworkDevices == CommitResolved(old(scannedNetworkDevices),
          ResolvedDevice(info, originalServiceType, ChosenAddress(info, modernApi).value, arpOutput, urlDecode))
      ensures KeysDistinct(old(scannedNetworkDevices), DeviceKey) ==> KeysDistinct(scannedNetworkDevices, DeviceKey)
    {
      var chosenHostAddress := ChooseHostAddress(info, modernApi);
      if chosenHostAddress.Some? {
        var newDevice := BuildResolvedDevice(info, originalServiceType, chosenHostAddress.value, arpOutput, urlDecode);
        CommitResolvedDevice(newDevice);
      }
    }

    /**
     * The device `onServiceResolved` builds for a resolved service: its better, cleaned-up
     * name, the chosen address, the ARP table's MAC for it and the address's broadcast.
     */
    method BuildResolvedDevice(info: ServiceInfo, originalServiceType: string, chosenHostAddress: string,
                               arpOutput: Option<string>, urlDecode: string -> Option<string>)
      returns (newDevice: NetworkDevice)
      ensures newDevice == ResolvedDevice(info, originalServiceType, chosenHostAddress, arpOutput, urlDecode)
    {
      var deviceName := ExtractBetterName(info, info.serviceName.GetOr("Unknown Service"));
      deviceName := CleanServiceName(deviceName, originalServiceType, urlDecode);
      var macAddress := GetMacFromArpCache(arpOutput, chosenHostAddress);
      newDevice := NetworkDevice(
        name := deviceName, ip := chosenHostAddress, port := info.port,
        serviceType := info.serviceType.GetOr(originalServiceType),
        macAddress := macAddress, broadcastAddress := GetBroadcastAddress(Some(chosenHostAddress)));
    }

    /**
     * The `synchronized` block of `onServiceResolved`: the device is added unless one with
     * its address and name is listed; a list with distinct keys keeps them distinct.
     */
    method CommitResolvedDevice(newDevice: NetworkDevice)
      modifies this`scannedNetworkDevices
      ensures scannedNetworkDevices == CommitResolved(old(scannedNetworkDevices), newDevice)
      ensures KeysDistinct(old(scannedNetworkDevices), DeviceKey) ==> KeysDistinct(scannedNetworkDevices, DeviceKey)
    {
      if KeysDistinct(scannedNetworkDevices, DeviceKey) {
        CommitResolvedOfDistinct(scannedNetworkDevices, newDevice);
      }
      scannedNetworkDevices := CommitResolved(scannedNetworkDevices, newDevice);
    }
  }

  /** The chain start indices `first..end - 1`. */
  function ChainRange(first: int, end: int): seq<int>
    requires first <= end
  {
    seq(end - first, k => first + k)
  }

  /** Extending the range by one start index appends that index. */
  lemma ChainRangeSnoc(first: int, end: int, after: int)
    requires first <= end && after == end + 1
    ensures ChainRange(first, after) == ChainRange(first, end) + [end]
  {
    assert ChainRange(first, after)[..end - first] == ChainRange(first, end);
  }

  /** Appending one element after a concatenation appends it to the second part. */
  lemma SnocAssociates(a: seq<int>, b: seq<int>, x: int)
    ensures (a + b) + [x] == a + (b + [x])
  {
  }

  /** The order in which the launched coroutine starts discovery: the priority types, then the rest. */
  function ScanOrder(): seq<string> {
    PriorityServices + RemainingServices
  }

  /**
   * `SERVICE_TYPES.filter { it !in priorityServices }`, the second loop's list: the sixteen
   * types in their declared order with the three priority types (positions 1, 2 and 5) taken out.
   */
  const RemainingServices: seq<string> := ServiceTypes[..1] + ServiceTypes[3..5] + ServiceTypes[6..]

  /** The second loop's list holds exactly the declared types that are not priority types. */
  lemma RemainingServicesIsFilter()
    ensures |RemainingServices| == |ServiceTypes| - |PriorityServices|
    ensures forall t :: t in RemainingServices <==> t in ServiceTypes && t !in PriorityServices
  {
    assert PriorityServices == [ServiceTypes[2], ServiceTypes[1], ServiceTypes[5]];
    forall i | 0 <= i < |ServiceTypes| && i != 1 && i != 2 && i != 5
      ensures ServiceTypes[i] !in PriorityServices
    {
      assert |ServiceTypes[i]| != 18 || ServiceTypes[i][1] != 'w';
    }
  }

}
