/**
 * The striped ping sweep: 25 chains, chain `i` visiting host indices `i, i + 25, …` up to
 * 254, and what one visit does to the device list, the hostname cache and the shared
 * progress counter.
 */
module PingSweep {
  import opened Wrappers
  import opened KotlinText
  import opened Schema
  import opened Identity
  import opened Aggregator

  /** `_scanTotal`, the number of hosts of a /24 the sweep visits. */
  const ScanTotal: nat := 254
  /** `PING_SCAN_CONCURRENT_CHAINS`: the number of chains and the stride of each. */
  const ChainCount: nat := 25
  const LastHost: int := 254

  function Min(a: int, b: int): int { if a <= b then a else b }

  // ---------------------------------------------------------------------------
  // Which hosts each chain visits
  // ---------------------------------------------------------------------------

  /** A stride `k` steps long that fits in `n` when `k` is at most `n / step`, and not one step more. */
  lemma StrideFits(n: int, step: int, k: int)
    requires 0 <= n && 0 < step && 0 <= k
    ensures k <= n / step <==> k * step <= n
  {
    var q := n / step;
    assert n == q * step + n % step;
    if k <= q {
      assert k * step <= q * step;
    } else {
      assert (q + 1) * step <= k * step;
    }
  }

  /** Longer strides reach further. */
  lemma StridesIncrease(step: int, i: int, j: int)
    requires 0 < step && i < j
    ensures i * step < j * step
  {
    assert j * step - i * step == (j - i) * step;
  }

  /**
   * The values `currentIndex` takes in `pingDeviceChain`'s loop while it stays at most 254:
   * `current`, `current + step`, … up to 254.
   */
  function ChainIndices(current: int, step: nat): (r: seq<int>)
    requires step > 0
    ensures forall i :: 0 <= i < |r| ==> current <= r[i] <= LastHost
    ensures forall i, j :: 0 <= i < j < |r| ==> r[i] < r[j]
  {
    if current > LastHost then []
    else
      var r := seq((LastHost - current) / step + 1, k => current + k * step);
      assert forall i :: 0 <= i < |r| ==> current <= r[i] <= LastHost by {
        forall i | 0 <= i < |r| ensures current <= r[i] <= LastHost {
          StrideFits(LastHost - current, step, i);
        }
      }
      assert forall i, j :: 0 <= i < j < |r| ==> r[i] < r[j] by {
        forall i, j | 0 <= i < j < |r| ensures r[i] < r[j] {
          StridesIncrease(step, i, j);
        }
      }
      r
  }

  /** Taking one stride off `n` takes one off the number of strides that fit. */
  lemma StrideCountStep(n: int, step: int)
    requires 0 < step <= n
    ensures n / step == (n - step) / step + 1
  {
    var q, r := (n - step) / step, (n - step) % step;
    assert n - step == q * step + r;
    assert n == (q + 1) * step + r;
    StrideFits(n, step, q + 1);
    StrideFits(n, step, q + 2);
  }

  /** A chain that has not passed 254 is its first index followed by the chain one stride on. */
  lemma ChainIndicesStep(current: int, step: nat)
    requires step > 0 && current <= LastHost
    ensures ChainIndices(current, step) == [current] + ChainIndices(current + step, step)
  {
    var r, rest := ChainIndices(current, step), ChainIndices(current + step, step);
    StrideFits(LastHost - current, step, 1);
    if current + step <= LastHost {
      StrideCountStep(LastHost - current, step);
      assert |r| == |rest| + 1;
      forall k | 0 <= k < |rest| ensures r[k + 1] == rest[k] {
        assert (k + 1) * step == k * step + step;
      }
    } else {
      assert |r| == 1;
    }
  }

  /** Chain `start` visits `x` exactly when `x` is between `start` and 254 and a whole number of strides away. */
  lemma ChainIndicesMembership(start: int, x: int)
    ensures x in ChainIndices(start, ChainCount) <==> start <= x <= LastHost && (x - start) % ChainCount == 0
  {
    var r := ChainIndices(start, ChainCount);
    if start <= x <= LastHost && (x - start) % ChainCount == 0 {
      var k := (x - start) / ChainCount;
      StrideFits(LastHost - start, ChainCount, k);
      assert r[k] == x;
    }
    if x in r {
      var k :| 0 <= k < |r| && r[k] == x;
      assert x - start == k * ChainCount;
    }
  }

  /** The chains `i..25`, one after the other. */
  function Chains(i: int): seq<int>
    requires 1 <= i
    decreases ChainCount + 1 - i
  {
    if i > ChainCount then [] else ChainIndices(i, ChainCount) + Chains(i + 1)
  }

  /** Every host index the sweep visits, chain by chain. */
  function Sweep(): seq<int> { Chains(1) }

  /** A strictly increasing sequence holds each of its values once. */
  lemma {:induction false} IncreasingCounts(s: seq<int>, x: int)
    requires forall i, j :: 0 <= i < j < |s| ==> s[i] < s[j]
    ensures multiset(s)[x] == if x in s then 1 else 0
  {
    if |s| > 0 {
      assert s == [s[0]] + s[1..];
      IncreasingCounts(s[1..], x);
      if x == s[0] {
        assert x !in s[1..];
      }
    }
  }

  /** The chain that visits host `x`. */
  function HostChain(x: int): int { (x - 1) % ChainCount + 1 }

  /** Chain `i` is the one that visits host `x` exactly when `i == (x - 1) % 25 + 1`. */
  lemma ChainOfHost(x: int, i: int)
    requires 1 <= x && 1 <= i <= ChainCount
    ensures (i <= x && (x - i) % ChainCount == 0) <==> i == (x - 1) % ChainCount + 1
  {
    var q, r := (x - 1) / ChainCount, (x - 1) % ChainCount;
    assert x - 1 == ChainCount * q + r;
    if i <= x && (x - i) % ChainCount == 0 {
      var k := (x - i) / ChainCount;
      assert x - i == ChainCount * k;
      assert x - 1 == ChainCount * k + (i - 1);
      assert (ChainCount * k + (i - 1)) % ChainCount == i - 1;
    }
    if i == r + 1 {
      assert x - i == ChainCount * q;
    }
  }

  /** How often the chains `i..25` visit `x`: once if `x` is a host index whose chain is `i` or later. */
  lemma {:induction false} ChainsCount(i: int, x: int)
    requires 1 <= i <= ChainCount + 1
    ensures multiset(Chains(i))[x] ==
      if 1 <= x <= LastHost && i <= (x - 1) % ChainCount + 1 then 1 else 0
    decreases ChainCount + 1 - i
  {
    if i <= ChainCount {
      var c := ChainIndices(i, ChainCount);
      assert Chains(i) == c + Chains(i + 1);
      assert multiset(Chains(i))[x] == multiset(c)[x] + multiset(Chains(i + 1))[x];
      ChainsCount(i + 1, x);
      IncreasingCounts(c, x);
      ChainIndicesMembership(i, x);
      if 1 <= x {
        ChainOfHost(x, i);
      }
    }
  }

  /** The host indices 1..254. */
  function Hosts(): (r: seq<int>)
    ensures |r| == ScanTotal
    ensures forall i :: 0 <= i < |r| ==> r[i] == i + 1
  {
    seq(ScanTotal, i => i + 1)
  }

  /**
   * Together the 25 chains visit every host index 1..254 exactly once and nothing else:
   * the sweep is a permutation of 1..254, so it has 254 visits.
   */
  lemma SweepCoversHostsOnce()
    ensures multiset(Sweep()) == multiset(Hosts())
    ensures |Sweep()| == ScanTotal
  {
    assert forall x :: 1 <= HostChain(x);
    AllChainsCoverHostsOnce(1);
  }

  /**
   * The helpers below take the first chain as a parameter `first` bounded by every host's
   * chain instead of the literal 1, so that `Chains(1)` is never computed out; that bound
   * leaves no chain but the first.
   */
  lemma FirstChainIsOne(first: int)
    requires 1 <= first && forall x :: first <= HostChain(x)
    ensures first == 1
  {
    assert first <= HostChain(1);
  }

  /** `SweepCoversHostsOnce` for the first chain kept abstract (see `FirstChainIsOne`). */
  lemma AllChainsCoverHostsOnce(first: int)
    requires 1 <= first <= ChainCount + 1 && forall x :: first <= HostChain(x)
    ensures forall x :: multiset(Chains(first))[x] == if 1 <= x <= LastHost then 1 else 0
    ensures multiset(Chains(first)) == multiset(Hosts())
    ensures |Chains(first)| == ScanTotal
  {
    forall x ensures multiset(Chains(first))[x] == multiset(Hosts())[x] == if 1 <= x <= LastHost then 1 else 0 {
      assert first <= HostChain(x);
      ChainsCount(first, x);
      HostsCount(x);
    }
    assert multiset(Chains(first)) == multiset(Hosts());
    assert |multiset(Chains(first))| == |multiset(Hosts())|;
  }

  lemma HostsCount(x: int)
    ensures multiset(Hosts())[x] == if 1 <= x <= LastHost then 1 else 0
  {
    var hosts := Hosts();
    IncreasingCounts(hosts, x);
    if 1 <= x <= LastHost { assert hosts[x - 1] == x; }
  }

  // ---------------------------------------------------------------------------
  // One visit
  // ---------------------------------------------------------------------------

  /**
   * The answers of the network to the sweep: whether a host answers `isReachable`, the
   * name `getHostname`'s uncached lookup finds for it (that lookup is
   * `Identity.ResolveHostname` over the host's DNS, `getent` and ARP-file answers), and
   * the ARP table text (`None` when reading it throws).
   */
  datatype Network = Network(reachable: string -> bool, lookup: string -> Option<string>, arpOutput: Option<string>)

  /** The part of the scan state a ping chain touches. */
  datatype PingState = PingState(devices: seq<NetworkDevice>, hostnameCache: map<string, Option<string>>, counter: int)

  /** `"$networkPrefix.$currentIndex"`. */
  function HostIp(prefix: string, index: int): string {
    prefix + "." + IntToString(index)
  }

  /** `getHostname`: the cached answer when there is one, the looked-up name otherwise. */
  function CachedHostname(cache: map<string, Option<string>>, lookup: Option<string>, ip: string): Option<string> {
    if ip in cache then cache[ip] else lookup
  }

  /**
   * One pass of the loop body: an unreachable host only counts; a reachable one is named
   * through the cache, looked up in the ARP table and committed.
   */
  function PingStep(s: PingState, ip: string, net: Network): PingState {
    if !net.reachable(ip) then s.(counter := s.counter + 1)
    else
      var name := CachedHostname(s.hostnameCache, net.lookup(ip), ip);
      var d := PingDevice(ip, name, ArpCacheMac(net.arpOutput, ip));
      PingState(CommitPing(s.devices, d), s.hostnameCache[ip := name], s.counter + 1)
  }

  /**
   * Either way the counter goes up by one and the listed devices stay first; a reachable
   * host is then listed and cached, no cache entry is lost, and an unreachable host
   * changes neither the list nor the cache.
   */
  lemma PingStepFacts(s: PingState, ip: string, net: Network)
    ensures var t := PingStep(s, ip, net);
      && t.counter == s.counter + 1
      && |s.devices| <= |t.devices| && t.devices[..|s.devices|] == s.devices
      && (net.reachable(ip) ==> ListsIp(t.devices, ip) && ip in t.hostnameCache)
      && (forall k :: k in s.hostnameCache ==> k in t.hostnameCache)
      && (!net.reachable(ip) ==> t.devices == s.devices && t.hostnameCache == s.hostnameCache)
  {
  }

  /** The loop of `pingDeviceChain` over the given host indices, from state `s`. */
  function ChainRun(s: PingState, prefix: string, indices: seq<int>, net: Network): PingState
    decreases |indices|
  {
    if |indices| == 0 then s else ChainRun(PingStep(s, HostIp(prefix, indices[0]), net), prefix, indices[1..], net)
  }

  /** The counter goes up by one per visited host. */
  lemma {:induction false} ChainRunCounter(s: PingState, prefix: string, indices: seq<int>, net: Network)
    ensures ChainRun(s, prefix, indices, net).counter == s.counter + |indices|
    decreases |indices|
  {
    if |indices| > 0 {
      PingStepFacts(s, HostIp(prefix, indices[0]), net);
      ChainRunCounter(PingStep(s, HostIp(prefix, indices[0]), net), prefix, indices[1..], net);
    }
  }

  /** Running two stretches of indices is running one after the other. */
  lemma {:induction false} ChainRunAppend(s: PingState, prefix: string, a: seq<int>, b: seq<int>, net: Network)
    ensures ChainRun(s, prefix, a + b, net) == ChainRun(ChainRun(s, prefix, a, net), prefix, b, net)
    decreases |a|
  {
    if |a| == 0 {
      assert a + b == b;
    } else {
      assert (a + b)[0] == a[0];
      assert (a + b)[1..] == a[1..] + b;
      ChainRunAppend(PingStep(s, HostIp(prefix, a[0]), net), prefix, a[1..], b, net);
    }
  }

  /** A chain that has not passed 254 is one visit followed by the rest of the chain. */
  lemma ChainRunStep(s: PingState, prefix: string, current: int, after: int, step: nat, next: PingState, net: Network)
    requires step > 0 && current <= LastHost && after == current + step
    requires next == PingStep(s, HostIp(prefix, current), net)
    ensures ChainRun(s, prefix, ChainIndices(current, step), net) == ChainRun(next, prefix, ChainIndices(after, step), net)
  {
    var indices := ChainIndices(current, step);
    ChainIndicesStep(current, step);
    assert indices[0] == current && indices[1..] == ChainIndices(current + step, step);
  }

  /**
   * A chain never drops or reorders a listed device, and afterwards every reachable host
   * it visited is listed and has a hostname cache entry.
   */
  lemma {:induction false} ChainRunListsReachable(s: PingState, prefix: string, indices: seq<int>, net: Network)
    ensures var t := ChainRun(s, prefix, indices, net);
      && |s.devices| <= |t.devices| && t.devices[..|s.devices|] == s.devices
      && forall i :: 0 <= i < |indices| && net.reachable(HostIp(prefix, indices[i])) ==>
           ListsIp(t.devices, HostIp(prefix, indices[i])) && HostIp(prefix, indices[i]) in t.hostnameCache
    decreases |indices|
  {
    if |indices| > 0 {
      var s1 := PingStep(s, HostIp(prefix, indices[0]), net);
      PingStepFacts(s, HostIp(prefix, indices[0]), net);
      ChainRunListsReachable(s1, prefix, indices[1..], net);
      var t := ChainRun(s, prefix, indices, net);
      assert t == ChainRun(s1, prefix, indices[1..], net);
      forall i | 0 <= i < |indices| && net.reachable(HostIp(prefix, indices[i]))
        ensures ListsIp(t.devices, HostIp(prefix, indices[i])) && HostIp(prefix, indices[i]) in t.hostnameCache
      {
        if i == 0 {
          var ip := HostIp(prefix, indices[0]);
          var j :| 0 <= j < |s1.devices| && s1.devices[j].ip == ip;
          assert t.devices[j] == s1.devices[j];
          HostnameCacheKeepsKeys(s1, prefix, indices[1..], net, ip);
        } else {
          assert indices[1..][i - 1] == indices[i];
        }
      }
      assert t.devices[..|s.devices|] == t.devices[..|s1.devices|][..|s.devices|];
    }
  }

  /** Hostname cache entries are never removed. */
  lemma {:induction false} HostnameCacheKeepsKeys(s: PingState, prefix: string, indices: seq<int>, net: Network, ip: string)
    requires ip in s.hostnameCache
    ensures ip in ChainRun(s, prefix, indices, net).hostnameCache
    decreases |indices|
  {
    if |indices| > 0 {
      PingStepFacts(s, HostIp(prefix, indices[0]), net);
      HostnameCacheKeepsKeys(PingStep(s, HostIp(prefix, indices[0]), net), prefix, indices[1..], net, ip);
    }
  }

  /** Chains `i..25` run one after the other, from state `s`. */
  function SweepFrom(s: PingState, prefix: string, i: int, net: Network): PingState
    requires 1 <= i
    decreases ChainCount + 1 - i
  {
    if i > ChainCount then s else SweepFrom(ChainRun(s, prefix, ChainIndices(i, ChainCount), net), prefix, i + 1, net)
  }

  /** Chains `i..25`, for `i` at most 25, are chain `i` and then chains `i + 1..25`. */
  lemma SweepFromStep(s: PingState, prefix: string, i: int, after: int, next: PingState, net: Network)
    requires 1 <= i <= ChainCount && after == i + 1
    requires next == ChainRun(s, prefix, ChainIndices(i, ChainCount), net)
    ensures SweepFrom(s, prefix, i, net) == SweepFrom(next, prefix, after, net)
  {
  }

  /** The whole sweep: chains 1..25 in turn. */
  function SweepRun(s: PingState, prefix: string, net: Network): PingState {
    SweepFrom(s, prefix, 1, net)
  }

  /** Running chains `i..25` in turn is running their indices as one stretch. */
  lemma {:induction false} SweepFromIsChainRun(s: PingState, prefix: string, i: int, net: Network)
    requires 1 <= i
    ensures SweepFrom(s, prefix, i, net) == ChainRun(s, prefix, Chains(i), net)
    decreases ChainCount + 1 - i
  {
    if i <= ChainCount {
      var t := ChainRun(s, prefix, ChainIndices(i, ChainCount), net);
      SweepFromIsChainRun(t, prefix, i + 1, net);
      ChainRunAppend(s, prefix, ChainIndices(i, ChainCount), Chains(i + 1), net);
    }
  }

  /**
   * The sweep counts 254 visits, one per host index 1..254, so a sweep started from 0
   * ends with the progress at 254.
   */
  lemma SweepRunCounter(s: PingState, prefix: string, net: Network)
    ensures SweepRun(s, prefix, net).counter == s.counter + ScanTotal
    ensures s.counter == 0 ==> Min(SweepRun(s, prefix, net).counter, ScanTotal) == ScanTotal
  {
    assert forall x :: 1 <= HostChain(x);
    SweepFromCounter(s, prefix, 1, net);
  }

  /** `SweepRunCounter`, for the first chain kept abstract (see `FirstChainIsOne`). */
  lemma SweepFromCounter(s: PingState, prefix: string, first: int, net: Network)
    requires 1 <= first <= ChainCount + 1 && forall x :: first <= HostChain(x)
    ensures SweepFrom(s, prefix, first, net) == ChainRun(s, prefix, Chains(first), net)
    ensures SweepFrom(s, prefix, first, net).counter == s.counter + ScanTotal
  {
    AllChainsCoverHostsOnce(first);
    SweepFromIsChainRun(s, prefix, first, net);
    ChainRunCounter(s, prefix, Chains(first), net);
  }

  /** After a sweep the devices listed before are still first, and every reachable host 1..254 is listed. */
  lemma SweepListsReachableHosts(s: PingState, prefix: string, net: Network)
    ensures var t := SweepRun(s, prefix, net);
      && |s.devices| <= |t.devices| && t.devices[..|s.devices|] == s.devices
      && forall x :: 1 <= x <= LastHost && net.reachable(HostIp(prefix, x)) ==> ListsIp(t.devices, HostIp(prefix, x))
  {
    assert forall x :: 1 <= HostChain(x);
    SweepFromListsReachable(s, prefix, 1, net);
  }

  /** `SweepListsReachableHosts`, for the first chain kept abstract (see `FirstChainIsOne`). */
  lemma SweepFromListsReachable(s: PingState, prefix: string, first: int, net: Network)
    requires 1 <= first <= ChainCount + 1 && forall x :: first <= HostChain(x)
    ensures var t := SweepFrom(s, prefix, first, net);
      && |s.devices| <= |t.devices| && t.devices[..|s.devices|] == s.devices
      && forall x :: 1 <= x <= LastHost && net.reachable(HostIp(prefix, x)) ==> ListsIp(t.devices, HostIp(prefix, x))
  {
    var hosts := Chains(first);
    AllChainsCoverHostsOnce(first);
    SweepFromIsChainRun(s, prefix, first, net);
    ChainRunListsReachable(s, prefix, hosts, net);
    var t := ChainRun(s, prefix, hosts, net);
    forall x | 1 <= x <= LastHost && net.reachable(HostIp(prefix, x))
      ensures ListsIp(t.devices, HostIp(prefix, x))
    {
      assert multiset(hosts)[x] == 1;
      assert x in hosts;
      var i :| 0 <= i < |hosts| && hosts[i] == x;
    }
  }
}
