/**
 * Turning a resolved DNS-SD service into a device name and address: the host address
 * choice of `onServiceResolved`, `extractBetterName`'s attribute priority, and the name
 * cleanup (`.local` removal, the Cast hash suffix, percent-decoding for AirPlay names).
 */
module ServiceNames {
  import opened Wrappers
  import opened KotlinText

  /** An `InetAddress` as the resolver reports it. */
  datatype HostAddress = HostAddress(isLoopback: bool, hostAddress: string)

  /**
   * An `NsdServiceInfo`: `host` is the single (pre-Android 13) host, `hostAddresses` the
   * list of newer versions, `attributes` the TXT record with each value already decoded
   * from UTF-8 (`None` for a key without a value).
   */
  datatype ServiceInfo = ServiceInfo(
    serviceName: Option<string>,
    serviceType: Option<string>,
    port: int,
    host: Option<HostAddress>,
    hostAddresses: seq<HostAddress>,
    attributes: map<string, Option<string>>)

  /** A value in a string template: `"$x"` prints `null` for a null `x`. */
  function Template(x: Option<string>): string {
    x.GetOr("null")
  }

  /** `"${service.serviceName}-${service.serviceType}"`, the key of the pending-service map. */
  function ServiceKey(serviceName: Option<string>, serviceType: Option<string>): string {
    Template(serviceName) + "-" + Template(serviceType)
  }

  // ---------------------------------------------------------------------------
  // Choosing the address
  // ---------------------------------------------------------------------------

  /** The list loop's test: not loopback and the text has a `.` (an IPv4 address). */
  predicate IsUsableAddress(a: HostAddress) {
    !a.isLoopback && Contains(a.hostAddress, ".")
  }

  /** The first usable address of the list. */
  function FirstUsableAddress(addresses: seq<HostAddress>): (r: Option<string>)
  {
    if |addresses| == 0 then None
    else if IsUsableAddress(addresses[0]) then Some(addresses[0].hostAddress)
    else FirstUsableAddress(addresses[1..])
  }

  lemma {:induction false} FirstUsableAddressIsFirst(addresses: seq<HostAddress>)
    ensures FirstUsableAddress(addresses).None? <==> forall i :: 0 <= i < |addresses| ==> !IsUsableAddress(addresses[i])
    ensures FirstUsableAddress(addresses).Some? ==>
      exists i :: 0 <= i < |addresses| && IsUsableAddress(addresses[i])
        && FirstUsableAddress(addresses).value == addresses[i].hostAddress
        && forall j :: 0 <= j < i ==> !IsUsableAddress(addresses[j])
  {
    if |addresses| > 0 && !IsUsableAddress(addresses[0]) {
      var rest := addresses[1..];
      FirstUsableAddressIsFirst(rest);
      if FirstUsableAddress(rest).Some? {
        var i :| 0 <= i < |rest| && IsUsableAddress(rest[i])
          && FirstUsableAddress(rest).value == rest[i].hostAddress
          && forall j :: 0 <= j < i ==> !IsUsableAddress(rest[j]);
        assert addresses[i + 1] == rest[i];
        assert forall j :: 0 <= j < i + 1 ==> !IsUsableAddress(addresses[j]) by {
          forall j | 0 <= j < i + 1 ensures !IsUsableAddress(addresses[j]) {
            if j > 0 {
              assert addresses[j] == rest[j - 1];
            }
          }
        }
      } else {
        assert forall i :: 0 <= i < |addresses| ==> !IsUsableAddress(addresses[i]) by {
          forall i | 0 <= i < |addresses| ensures !IsUsableAddress(addresses[i]) {
            if i > 0 {
              assert addresses[i] == rest[i - 1];
            }
          }
        }
      }
    }
  }

  /** `host?.hostAddress`. */
  function SingleHostAddress(info: ServiceInfo): Option<string> {
    if info.host.Some? then Some(info.host.value.hostAddress) else None
  }

  /** The address `onServiceResolved` would choose; `modernApi` stands for `SDK_INT >= TIRAMISU`. */
  function ChosenAddress(info: ServiceInfo, modernApi: bool): Option<string> {
    if modernApi then FirstUsableAddress(info.hostAddresses) else SingleHostAddress(info)
  }

  /** The address choice of `onServiceResolved`, with the loop over `hostAddresses` and its `break`. */
  method ChooseHostAddress(info: ServiceInfo, modernApi: bool) returns (chosen: Option<string>)
    ensures chosen == ChosenAddress(info, modernApi)
    ensures modernApi && chosen.Some? ==> Contains(chosen.value, ".")
  {
    if !modernApi {
      return SingleHostAddress(info);
    }
    chosen := None;
    var addresses := info.hostAddresses;
    var i := 0;
    while i < |addresses|
      invariant 0 <= i <= |addresses|
      invariant FirstUsableAddress(addresses) == FirstUsableAddress(addresses[i..])
    {
      if IsUsableAddress(addresses[i]) {
        chosen := Some(addresses[i].hostAddress);
        break;
      }
      assert addresses[i..][1..] == addresses[i + 1..];
      i := i + 1;
    }
    if chosen.Some? {
      assert IsUsableAddress(addresses[i]);
    }
  }

  // ---------------------------------------------------------------------------
  // `extractBetterName`
  // ---------------------------------------------------------------------------

  /** The TXT keys tried, in order. */
  const NameAttributes: seq<string> := ["n", "fn", "name", "model", "md", "deviceName", "am", "dn"]

  /** A TXT value is used when present, not blank and not the host's address text. */
  predicate Qualifies(attributes: map<string, Option<string>>, key: string, hostAddress: Option<string>) {
    key in attributes && attributes[key].Some? && !IsBlank(attributes[key].value)
    && Some(attributes[key].value) != hostAddress
  }

  /** The value of the first qualifying key, if any. */
  function BetterName(keys: seq<string>, attributes: map<string, Option<string>>, hostAddress: Option<string>): Option<string>
  {
    if |keys| == 0 then None
    else if Qualifies(attributes, keys[0], hostAddress) then attributes[keys[0]]
    else BetterName(keys[1..], attributes, hostAddress)
  }

  /** The name `extractBetterName` returns. */
  function BetterNameOrOriginal(info: ServiceInfo, originalName: string): string {
    BetterName(NameAttributes, info.attributes, SingleHostAddress(info)).GetOr(originalName)
  }

  /**
   * `extractBetterName`: the loop over the keys with its early return. The comparison is
   * against `host?.hostAddress` on every platform version.
   */
  method ExtractBetterName(info: ServiceInfo, originalName: string) returns (name: string)
    ensures name == BetterNameOrOriginal(info, originalName)
  {
    var hostAddress := SingleHostAddress(info);
    var keys := NameAttributes;
    var i := 0;
    while i < |keys|
      invariant 0 <= i <= |keys|
      invariant BetterName(keys, info.attributes, hostAddress) == BetterName(keys[i..], info.attributes, hostAddress)
    {
      var key := keys[i];
      if key in info.attributes && info.attributes[key].Some? {
        var value := info.attributes[key].value;
        if !IsBlank(value) && Some(value) != hostAddress {
          return value;
        }
      }
      assert keys[i..][1..] == keys[i + 1..];
      i := i + 1;
    }
    return originalName;
  }

  /**
   * The name is the value of the first key in priority order that qualifies, and
   * the original name exactly when no key qualifies.
   */
  lemma {:induction false} BetterNameIsFirstQualifying(keys: seq<string>, attributes: map<string, Option<string>>, hostAddress: Option<string>)
    ensures BetterName(keys, attributes, hostAddress).None? <==>
      forall i :: 0 <= i < |keys| ==> !Qualifies(attributes, keys[i], hostAddress)
    ensures BetterName(keys, attributes, hostAddress).Some? ==>
      exists i :: 0 <= i < |keys| && Qualifies(attributes, keys[i], hostAddress)
        && BetterName(keys, attributes, hostAddress) == attributes[keys[i]]
        && forall j :: 0 <= j < i ==> !Qualifies(attributes, keys[j], hostAddress)
  {
    if |keys| > 0 && !Qualifies(attributes, keys[0], hostAddress) {
      var rest := keys[1..];
      BetterNameIsFirstQualifying(rest, attributes, hostAddress);
      if BetterName(rest, attributes, hostAddress).Some? {
        var i :| 0 <= i < |rest| && Qualifies(attributes, rest[i], hostAddress)
          && BetterName(rest, attributes, hostAddress) == attributes[rest[i]]
          && forall j :: 0 <= j < i ==> !Qualifies(attributes, rest[j], hostAddress);
        assert keys[i + 1] == rest[i];
        assert forall j :: 0 <= j < i + 1 ==> !Qualifies(attributes, keys[j], hostAddress) by {
          forall j | 0 <= j < i + 1 ensures !Qualifies(attributes, keys[j], hostAddress) {
            if j > 0 {
              assert keys[j] == rest[j - 1];
            }
          }
        }
      } else {
        assert forall i :: 0 <= i < |keys| ==> !Qualifies(attributes, keys[i], hostAddress) by {
          forall i | 0 <= i < |keys| ensures !Qualifies(attributes, keys[i], hostAddress) {
            if i > 0 {
              assert keys[i] == rest[i - 1];
            }
          }
        }
      }
    }
  }

  /** A friendly name in `n` wins over every other key. */
  lemma FirstKeyWins(info: ServiceInfo, originalName: string, value: string)
    requires info.attributes["n" := Some(value)] == info.attributes
    requires !IsBlank(value) && Some(value) != SingleHostAddress(info)
    ensures BetterNameOrOriginal(info, originalName) == value
  {
    assert "n" in info.attributes;
  }

  /** Without attributes the service keeps its own name. */
  lemma NoAttributesKeepsName(info: ServiceInfo, originalName: string)
    requires info.attributes == map[]
    ensures BetterNameOrOriginal(info, originalName) == originalName
  {
    BetterNameIsFirstQualifying(NameAttributes, info.attributes, SingleHostAddress(info));
  }

  // ---------------------------------------------------------------------------
  // Name cleanup
  // ---------------------------------------------------------------------------

  /** `if (deviceName.contains(".local")) deviceName = deviceName.replace(".local", "")`. */
  function RemoveLocal(name: string): (r: string)
  {
    if Contains(name, ".local") then ReplaceAll(name, ".local", "") else name
  }

  /** The `contains` guard changes nothing: the result is always one `replace` pass. */
  lemma RemoveLocalIsOneReplacePass(name: string)
    ensures RemoveLocal(name) == ReplaceAll(name, ".local", "")
    ensures |RemoveLocal(name)| <= |name|
    ensures RemoveLocal(name) == name <==> !Contains(name, ".local")
  {
    if !Contains(name, ".local") {
      ReplaceAllWithoutOccurrence(name, ".local", "");
    }
    RemoveAllShortens(name, ".local");
  }

  /** One pass can leave a `.local` behind, made of the pieces around a removed one. */
  lemma RemoveLocalIsNotIdempotent()
    ensures RemoveLocal("..locallocal") == ".local"
  {
    var s := "..locallocal";
    assert Contains(s, ".local") by {
      assert s[1..][..6] == ".local";
      assert StartsWith(s[1..], ".local");
    }
    assert s[..6][1] != ".local"[1];
    assert !StartsWith(s, ".local");
    assert StartsWith(s[1..], ".local");
    assert s[1..][6..] == "local";
    ShortTextHasNoOccurrence("local", ".local");
  }

  /** A text shorter than the pattern survives `replace` untouched. */
  lemma {:induction false} ShortTextHasNoOccurrence(s: string, p: string)
    requires 0 < |p| && |s| < |p|
    ensures ReplaceAll(s, p, "") == s
    decreases |s|
  {
    if |s| > 0 {
      assert !StartsWith(s, p);
      ShortTextHasNoOccurrence(s[1..], p);
      assert s == [s[0]] + s[1..];
    }
  }

  predicate IsLowerHex(c: char) { ('0' <= c <= '9') || ('a' <= c <= 'f') }

  /** `-[0-9a-f]{8}` at the end of `s`. */
  predicate EndsWithCastHash(s: string) {
    |s| >= 9 && s[|s| - 9] == '-' && forall i :: |s| - 8 <= i < |s| ==> IsLowerHex(s[i])
  }

  /** The final line terminators before which Java's `$` also matches. */
  predicate IsFinalTerminator(t: string) {
    t == "\n" || t == "\r\n" || t == "\r" || t == "\U{0085}" || t == "\U{2028}" || t == "\U{2029}"
  }

  /**
   * `replace(Regex("-[0-9a-f]{8}$"), "")`: `$` matches at the very end, or before one
   * final line terminator, so at most one hash is removed.
   */
  function StripCastHash(name: string): (r: string)
    ensures |r| == |name| || |r| == |name| - 9
  {
    if EndsWithCastHash(name) then name[..|name| - 9]
    else if |name| >= 1 && IsFinalTerminator(name[|name| - 1..]) && !(name[|name| - 1] == '\n' && |name| >= 2 && name[|name| - 2] == '\r')
      && EndsWithCastHash(name[..|name| - 1])
    then name[..|name| - 10] + name[|name| - 1..]
    else if |name| >= 2 && name[|name| - 2..] == "\r\n" && EndsWithCastHash(name[..|name| - 2])
    then name[..|name| - 11] + name[|name| - 2..]
    else name
  }

  lemma StripCastHashOfHashed(base: string, hash: string)
    requires |hash| == 8 && forall i :: 0 <= i < 8 ==> IsLowerHex(hash[i])
    ensures StripCastHash(base + "-" + hash) == base
  {
    var s := base + "-" + hash;
    assert s[|s| - 9] == '-';
    assert forall i :: |s| - 8 <= i < |s| ==> s[i] == hash[i - (|s| - 8)];
    assert s[..|s| - 9] == base;
  }

  lemma StripCastHashExample()
    ensures StripCastHash("LivingRoom-a1b2c3d4") == "LivingRoom"
  {
    assert "LivingRoom-a1b2c3d4" == "LivingRoom" + "-" + "a1b2c3d4";
    StripCastHashOfHashed("LivingRoom", "a1b2c3d4");
  }

  /** A name that neither ends in a hash nor ends in a line terminator, such as `Kitchen`, is kept. */
  lemma StripCastHashKeepsPlainNames(name: string)
    requires !EndsWithCastHash(name) && (|name| == 0 || !IsFinalTerminator(name[|name| - 1..]))
    ensures StripCastHash(name) == name
  {
  }

  /** The hash stands at the end of `name`, or just before one final line terminator. */
  predicate HasCastHashAtEnd(name: string) {
    || EndsWithCastHash(name)
    || (|name| >= 1 && IsFinalTerminator(name[|name| - 1..]) && EndsWithCastHash(name[..|name| - 1]))
    || (|name| >= 2 && name[|name| - 2..] == "\r\n" && EndsWithCastHash(name[..|name| - 2]))
  }

  /** The name changes exactly when a hash stands where `$` lets the pattern match. */
  lemma StripCastHashChangesExactly(name: string)
    ensures StripCastHash(name) == name <==> !HasCastHashAtEnd(name)
  {
    if |name| >= 2 && name[|name| - 1] == '\n' && name[|name| - 2] == '\r' {
      assert name[..|name| - 1][|name| - 2] == '\r';
      assert !EndsWithCastHash(name[..|name| - 1]);
    }
  }

  /**
   * The cleanup of `onServiceResolved` after `extractBetterName`: `.local` removed, then by
   * the type being browsed either the Cast hash stripped or, for AirPlay and RAOP names with
   * a `%`, `URLDecoder.decode` applied (`urlDecode`; `None` when it throws, which keeps the name).
   */
  function CleanServiceName(name: string, originalServiceType: string, urlDecode: string -> Option<string>): string {
    var n := RemoveLocal(name);
    if Contains(originalServiceType, "_googlecast") then StripCastHash(n)
    else if Contains(originalServiceType, "_airplay") || Contains(originalServiceType, "_raop") then
      if Contains(n, "%") then urlDecode(n).GetOr(n) else n
    else n
  }

  /** For every type other than Cast, AirPlay and RAOP the cleanup is the `.local` removal alone. */
  lemma CleanServiceNameOfOtherTypes(name: string, originalServiceType: string, urlDecode: string -> Option<string>)
    requires !Contains(originalServiceType, "_googlecast")
    requires !(Contains(originalServiceType, "_airplay") || Contains(originalServiceType, "_raop"))
    ensures CleanServiceName(name, originalServiceType, urlDecode) == ReplaceAll(name, ".local", "")
  {
    RemoveLocalIsOneReplacePass(name);
  }

  /** An AirPlay name without `%` is not run through the decoder. */
  lemma CleanServiceNameWithoutPercent(name: string, originalServiceType: string, urlDecode: string -> Option<string>)
    requires !Contains(originalServiceType, "_googlecast")
    requires !Contains(RemoveLocal(name), "%")
    ensures CleanServiceName(name, originalServiceType, urlDecode) == RemoveLocal(name)
  {
  }

  /** The device name of a resolved service: `serviceName ?: "Unknown Service"`, the better name, then the cleanup. */
  function ResolvedName(info: ServiceInfo, originalServiceType: string, urlDecode: string -> Option<string>): string {
    CleanServiceName(BetterNameOrOriginal(info, info.serviceName.GetOr("Unknown Service")), originalServiceType, urlDecode)
  }
}
