# WakeItUp: LAN discovery and Wake-on-LAN engine, in Dafny

WakeItUp is an Android app that finds the devices on the local network and wakes them with
Wake-on-LAN. This project models the deterministic core of that engine and proves properties
of the model. The core covers:

- the scan session of `DeviceViewModel`;
- the helpers that name and address the devices it finds;
- the input validators and save logic of the device dialogs;
- the construction of the Wake-on-LAN "Magic Packet".

The modules follow the program's structure:

- `ScanSession` (`scan_session.dfy`) holds the class `DeviceViewModel`. Its fields are:
  - the scanning flag;
  - the progress value and the shared progress counter;
  - the launched ping chains;
  - the listener registry (`discoveryListeners`);
  - the pending-service map (`discoveredServicesMap`);
  - the hostname cache;
  - the list of scanned devices.

  Its methods model `startNetworkScan`, `stopNetworkScan`, `stopAllDiscoveryListeners`,
  `clearScannedDevices`, `getHostname`'s cache, the `pingDeviceChain` loop,
  `startServiceDiscovery`, the coroutine that `startNetworkScan` launches, and the NSD
  callbacks. A callback is a method that takes the callback's data as plain values.

  The class invariant `Valid` says each of the following:
  - the progress stays within `0..254`;
  - while scanning, the progress is the shared counter capped at 254;
  - every listener is filed under its own type;
  - every pending service is filed under its own `name-type` key;
  - every job is one of the 25 chains.
- `PingSweep` models the striped sweep. There are 25 chains, and chain `i` visits `i, i + 25, …`
  up to 254. `PingSweep` also states what one visit does to the device list, the hostname
  cache and the counter. It proves that the chains together visit each host 1..254 exactly
  once, and that a full sweep ends with the progress at 254.
- `Aggregator` models the shared device list:
  - the ping commit, which is deduplicated by IP;
  - the resolved-service commit, which is deduplicated by IP and name, and then by
    `distinctBy` over IP, name, port and service type;
  - the service-lost filter;
  - the records a ping hit and a resolved service produce.
- `Identity` covers naming and identifying a host:
  - ARP table parsing (`getMacFromArpCache`);
  - the vendor table (`getMacVendor`);
  - `getent` parsing (`tryGetNetbiosName`);
  - the ARP-file fallback name (`tryGetAlternativeHostname`);
  - the DNS-then-fallback choice of `getHostname`.
- `ServiceNames` turns a resolved DNS-SD service into a device name and address:
  - the host-address choice;
  - `extractBetterName`;
  - the `.local`, Cast-hash and AirPlay cleanup.
- `Subnet` covers `getBroadcastAddress`, `getLocalSubnet` (including the 32-bit little-endian
  Wi-Fi address decode) and `wakeDeviceUp`.
- `Screens` holds `isValidMacAddress`, `isValidIpAddress` and `inferBroadcastAddress`, the
  MAC field filters, and the save logic of the edit and add dialogs. The IPv4 regex is
  re-expressed as a predicate on the pieces between the dots. It is proved to hold exactly
  for four numbers 0..255 written in canonical decimal.
- `WakeOnLan` models `sendWakeOnLanPacket`. It fills the 102-byte packet array in place: six
  0xFF bytes, then the six MAC bytes sixteen times (the AMD Magic Packet format). Separate
  lemmas prove that the packet determines the MAC and that the MAC determines the packet.
- `Schema` holds the `Device` and `NetworkDevice` records. `KotlinText` holds the parts of the
  Kotlin and Java standard library the core relies on: `isBlank`, `trim`, `split` on a
  character and on `\s+`, `contains`, `replace`, `substringBeforeLast`, `Int.toString` /
  `toIntOrNull` and `lines`. `Wrappers` holds `Option`, which stands for Kotlin's nullable
  types.

In the places below, the model follows the code as written, because that behaviour is easy
to misread:

- `getLocalSubnet` returns null at once when there is no active network or no link properties
  (the `?: return null` inside the `try`). In that case the Wi-Fi and gateway-probe fallbacks
  are skipped. They run only after the link-address loop finds nothing or throws. See
  `Subnet.GetLocalSubnet`.
- `tryGetAlternativeHostname` returns `"Device <last octet>"` whenever the ARP file has no
  useful line, and null only when reading the file throws. So a ping hit is named after its IP
  only in that last case. See `Identity.AlternativeHostnameValue`, `Identity.AlternativeHostnameIsNotAnAddress` and
  `Aggregator.PingDeviceIsWakeable`.
- The ARP lookup matches lines by substring (`line.contains(ip)`). A lookup of `192.168.1.5`
  can therefore return the MAC of `192.168.1.50`. See `Identity.ArpLineMatchIsSubstring`.
- The `.local` removal is one `replace` pass, so it can leave a `.local` behind. See
  `ServiceNames.RemoveLocalIsNotIdempotent`.

## Model

| member | source | states |
|---|---|---|
| Screens.CleanMac | app/src/main/java/org/cheek/wakeitup/Screens.kt:1060 | keeps exactly the characters of the input other than `:`, `-` and space |
| Screens.CleanMacIsReplaceChain | app/src/main/java/org/cheek/wakeitup/Screens.kt:1060 | the cleaned MAC is the result of the three chained `replace` calls |
| Screens.ValidMacIsNotBlank | app/src/main/java/org/cheek/wakeitup/Screens.kt:739-743 | a MAC that passes `isValidMacAddress` is never blank |
| Screens.EditMacInputIsCleanMac | app/src/main/java/org/cheek/wakeitup/Screens.kt:603 | the edit dialog's MAC field filter removes the same characters as `isValidMacAddress`'s cleaning, so it never changes whether the text is valid, and a second pass changes nothing |
| Screens.AddMacInput | app/src/main/java/org/cheek/wakeitup/Screens.kt:925-930 | an edit is taken exactly when the new text's `length` (UTF-16 code units) is at most 17, so a field that starts short never grows past 17 |
| Screens.AddMacInputCountsCodeUnits | app/src/main/java/org/cheek/wakeitup/Screens.kt:930 | sixteen hex digits followed by an emoji are 18 code units and the edit is refused |
| Screens.ValidIpIffFormatted | app/src/main/java/org/cheek/wakeitup/Screens.kt:1064-1067 | `isValidIpAddress` holds exactly for four numbers 0..255, written in decimal without leading zeros and joined by single dots (both directions) |
| Screens.FormatIpIsDottedQuad | app/src/main/java/org/cheek/wakeitup/Screens.kt:1064-1067 | four numbers up to 255, written with dots, are accepted, and they split back into their four pieces |
| Screens.DottedQuadIsFormatted | app/src/main/java/org/cheek/wakeitup/Screens.kt:1064-1067 | every accepted address is four numbers up to 255 written with dots |
| Screens.OctetIsDec | app/src/main/java/org/cheek/wakeitup/Screens.kt:1066 | an accepted octet is the canonical decimal text of a number no larger than 255 |
| Screens.DecIsOctet | app/src/main/java/org/cheek/wakeitup/Screens.kt:1066 | the decimal text of every number up to 255 is an accepted octet |
| Screens.ValidIpIsNotBlank | app/src/main/java/org/cheek/wakeitup/Screens.kt:739-743 | an accepted address is never blank |
| Screens.InferBroadcastAddress | app/src/main/java/org/cheek/wakeitup/Screens.kt:1069-1076 | the result is present exactly when the input is a valid address (null refused) |
| Screens.InferBroadcastOfFormatted | app/src/main/java/org/cheek/wakeitup/Screens.kt:1069-1076 | the inferred broadcast address of `a.b.c.d` is `a.b.c.255` |
| Screens.InferBroadcastIsValidAndIdempotent | app/src/main/java/org/cheek/wakeitup/Screens.kt:1069-1076 | an inferred broadcast address is itself valid, and inferring again gives it back unchanged |
| Screens.InferBroadcastExamples | app/src/main/java/org/cheek/wakeitup/Screens.kt:1069-1076 | `10.0.0.42` infers `10.0.0.255` |
| Screens.InferBroadcastRejects | app/src/main/java/org/cheek/wakeitup/Screens.kt:1069-1076 | a text with no dots infers nothing, and neither does null |
| Screens.ArgbOf | app/src/main/java/org/cheek/wakeitup/Screens.kt:508 | `toArgb()` is a signed 32-bit `Int` with the same bit pattern as the colour |
| Screens.ColorIndex | app/src/main/java/org/cheek/wakeitup/Screens.kt:459-462 | the first palette index whose colour equals the device's, and 0 when no palette colour matches |
| Screens.SelectedGroup | app/src/main/java/org/cheek/wakeitup/Screens.kt:465-470 | the dialog's group check keeps a group that is among the database's, and otherwise selects the first of them, or `Default` when there are none |
| Screens.EditFormOf | app/src/main/java/org/cheek/wakeitup/Screens.kt:438-470 | the edit dialog opens with a colour index that lies inside the palette, and after its group check the selected group is one of the database's (or `Default` when there are none) and is the device's own when that one is still in the database |
| Screens.EditSave | app/src/main/java/org/cheek/wakeitup/Screens.kt:492-513 | saving is refused exactly for a non-blank invalid MAC or a non-blank invalid broadcast address; a saved device keeps the edited device's id |
| Screens.EditSaveNormalises | app/src/main/java/org/cheek/wakeitup/Screens.kt:502-508 | a saved edit keeps the id, stores `Unnamed Device` for a blank name and the typed name otherwise, trims MAC and IP, and stores the typed port when `toIntOrNull` reads it as a 32-bit `Int` (an optional sign and decimal digits of any script in the Basic Multilingual Plane) and 9 otherwise |
| Screens.EditUnchangedKeepsDevice | app/src/main/java/org/cheek/wakeitup/Screens.kt:438-513 | opening the edit dialog on a device already in saved form, whose group is still in the database, and saving at once gives back the same device |
| Screens.EditMissingGroupIsReplaced | app/src/main/java/org/cheek/wakeitup/Screens.kt:465-470 | a device whose group has left the database is saved under the first database group (or `Default` when there is none), which differs from its own group unless the database has no groups and the device was in `Default` |
| KotlinText.IntToStringRoundTrip | app/src/main/java/org/cheek/wakeitup/Screens.kt:443 | a port shown in the edit dialog as `port.toString()` is read back by `toIntOrNull` as the same `Int` |
| KotlinText.ToIntOrNullReadsOtherScripts | app/src/main/java/org/cheek/wakeitup/Screens.kt:506 | `toIntOrNull` reads the decimal digits of other scripts as `Character.digit` does: the Arabic-Indic `٨٠` is 80 |
| Screens.AddSave | app/src/main/java/org/cheek/wakeitup/Screens.kt:729-743 | the add dialog saves exactly when its button is enabled, with id 0 and name, MAC and IP stored as typed |
| Screens.AddSaveEnabledIffValid | app/src/main/java/org/cheek/wakeitup/Screens.kt:739-743 | the button is enabled exactly for a valid MAC and a valid broadcast address; the `isNotBlank` tests add nothing |
| WakeOnLan.MacBytes | app/src/main/java/org/cheek/wakeitup/MainActivity.kt:105 | six bytes, byte `k` being the hex pair at positions `2k` and `2k + 1` of the cleaned MAC |
| WakeOnLan.HexDigits | app/src/main/java/org/cheek/wakeitup/MainActivity.kt:105 | twelve hex digits, each pair of which parses back to its byte |
| WakeOnLan.MacBytesOfHexDigits | app/src/main/java/org/cheek/wakeitup/MainActivity.kt:105 | parsing the hex digits of any six bytes gives back those bytes, so `MacBytes` reaches every MAC |
| WakeOnLan.MagicPacketLayout | app/src/main/java/org/cheek/wakeitup/MainActivity.kt:116-123 | the packet is 102 bytes: six 0xFF bytes, then byte `6 + 6i + k` is MAC byte `k` for every copy `i < 16` |
| WakeOnLan.MagicPacketIsRecognised | app/src/main/java/org/cheek/wakeitup/MainActivity.kt:116-123 | the packet built from a MAC is a Magic Packet, and the MAC it targets is the MAC it was built from |
| WakeOnLan.MagicPacketIsUnique | app/src/main/java/org/cheek/wakeitup/MainActivity.kt:116-123 | every Magic Packet is the packet built from its own target MAC |
| WakeOnLan.CopyInto | app/src/main/java/org/cheek/wakeitup/MainActivity.kt:122 | `copyInto` overwrites exactly the bytes from `offset` on, as many as `src` has, with `src` and leaves the rest of the array alone |
| WakeOnLan.BuildMagicPacket | app/src/main/java/org/cheek/wakeitup/MainActivity.kt:116-123 | the freshly allocated array holds exactly the Magic Packet of the MAC bytes |
| WakeOnLan.SendWakeOnLanPacket | app/src/main/java/org/cheek/wakeitup/MainActivity.kt:96-138 | an invalid MAC fails without sending; a datagram is handed to the socket exactly when the MAC is valid, the address resolves, the broadcast socket opens and the port is in range, and it carries the Magic Packet of the cleaned MAC; the result is true exactly when that datagram is sent |
| Identity.ArpMacIsValid | app/src/main/java/org/cheek/wakeitup/DeviceViewModel.kt:315 | every MAC in the ARP table format passes `isValidMacAddress`, and cleaning it drops exactly its five separators |
| Identity.CleanMacOfArpFormat | app/src/main/java/org/cheek/wakeitup/DeviceViewModel.kt:315 | cleaning an ARP-format MAC drops exactly the five separators |
| Identity.ArpMacOfLine | app/src/main/java/org/cheek/wakeitup/DeviceViewModel.kt:311-318 | a MAC read from one ARP line is in the `xx:xx:xx:xx:xx:xx` format and is not the all-zero address |
| Identity.GetMacFromArpCache | app/src/main/java/org/cheek/wakeitup/DeviceViewModel.kt:304-327 | no MAC when running `cat /proc/net/arp` throws; otherwise the answer of the first line that has one |
| Identity.ArpMacIsFirstMatch | app/src/main/java/org/cheek/wakeitup/DeviceViewModel.kt:310-322 | a MAC is found exactly when some line yields one; it is the fourth token of a line that mentions the IP, and no earlier line yields a MAC |
| Identity.ArpMacIsUsable | app/src/main/java/org/cheek/wakeitup/DeviceViewModel.kt:315 | every MAC the ARP lookup returns passes `isValidMacAddress` and is not the all-zero address |
| Identity.ArpLineMatchIsSubstring | app/src/main/java/org/cheek/wakeitup/DeviceViewModel.kt:311 | a line that answers a lookup of `ip + suffix` also answers a lookup of `ip`, with the same MAC |
| Identity.MacVendor | app/src/main/java/org/cheek/wakeitup/DeviceViewModel.kt:690-722 | a vendor is found exactly for a prefix that is a key of the table, and vendor names are not empty |
| Identity.LetterPrefixesAreUpperCase | app/src/main/java/org/cheek/wakeitup/DeviceViewModel.kt:690-721 | every found prefix outside the digit-only ones has an upper-case letter, so lower-case ARP text finds no vendor there |
| Identity.VendorPrefixOfColonMac | app/src/main/java/org/cheek/wakeitup/DeviceViewModel.kt:665 | the vendor prefix of a colon-separated MAC is its first eight characters |
| Identity.NetbiosName | app/src/main/java/org/cheek/wakeitup/DeviceViewModel.kt:624-641 | a name is found exactly when the `getent` output is non-blank and has at least two whitespace-separated tokens, and it is then the second token |
| Identity.NetbiosNameOfHostsLine | app/src/main/java/org/cheek/wakeitup/DeviceViewModel.kt:630-635 | an `"<address> <name>\n"` line yields the name |
| Identity.InterfaceType | app/src/main/java/org/cheek/wakeitup/DeviceViewModel.kt:656-660 | the interface label is `WiFi` exactly when the name contains `wlan` (ignoring case), `Ethernet` exactly when it does not but contains `eth`, and `Device` otherwise |
| Identity.NameFromArpParts | app/src/main/java/org/cheek/wakeitup/DeviceViewModel.kt:652-673 | with a MAC (fourth token) that is neither blank nor all zeros and whose prefix has a vendor, the name is the vendor, a space and the interface label; otherwise it is the interface label, ` on ` and the last octet of the IP |
| Identity.NameFromArpLinesIsFirstMatch | app/src/main/java/org/cheek/wakeitup/DeviceViewModel.kt:649-674 | a name is found exactly when some line mentions the IP and has at least six tokens, and it is built from the first such line |
| Identity.AlternativeHostname | app/src/main/java/org/cheek/wakeitup/DeviceViewModel.kt:643-687 | there is no name exactly when reading the ARP file throws |
| Identity.AlternativeHostnameValue | app/src/main/java/org/cheek/wakeitup/DeviceViewModel.kt:643-682 | the name is `Device <last octet>` when the ARP file is unavailable or no line after the header names the host, and otherwise the name built from the first line that does |
| Identity.AlternativeHostnameIsNotAnAddress | app/src/main/java/org/cheek/wakeitup/DeviceViewModel.kt:678-682 | unless the read throws there is a name; it contains a space, so it is never the IP itself |
| Identity.DottedQuadHasNoSpace | app/src/main/java/org/cheek/wakeitup/Screens.kt:1064-1067 | a valid address contains no space |
| Identity.DnsName | app/src/main/java/org/cheek/wakeitup/DeviceViewModel.kt:578-613 | a DNS name exists only when DNS answered; the canonical name is used when present and different from the IP, else the host name under the same condition, else the NetBIOS name |
| Identity.ResolveHostname | app/src/main/java/org/cheek/wakeitup/DeviceViewModel.kt:616-620 | a DNS name, when there is one, is the result; there is no name exactly when DNS gives none and the ARP file read throws |
| Identity.ResolveHostnameFallsBack | app/src/main/java/org/cheek/wakeitup/DeviceViewModel.kt:616-620 | when DNS gives nothing, the name is the ARP-file name, which is present and contains a space unless the read throws |
| ServiceNames.FirstUsableAddressIsFirst | app/src/main/java/org/cheek/wakeitup/DeviceViewModel.kt:427-433 | no address chosen exactly when no listed address is usable; otherwise the first usable one |
| ServiceNames.ChooseHostAddress | app/src/main/java/org/cheek/wakeitup/DeviceViewModel.kt:423-437 | the loop with its `break` chooses that address on new platform versions and `host?.hostAddress` on old ones; on new versions the choice contains a dot |
| ServiceNames.ExtractBetterName | app/src/main/java/org/cheek/wakeitup/DeviceViewModel.kt:725-752 | the loop with its early return gives the first qualifying TXT value, or the original name |
| ServiceNames.BetterNameIsFirstQualifying | app/src/main/java/org/cheek/wakeitup/DeviceViewModel.kt:734-746 | no better name exactly when no key qualifies; otherwise the value of the first key, in priority order, that qualifies |
| ServiceNames.FirstKeyWins | app/src/main/java/org/cheek/wakeitup/DeviceViewModel.kt:734-746 | a usable `n` attribute always wins |
| ServiceNames.NoAttributesKeepsName | app/src/main/java/org/cheek/wakeitup/DeviceViewModel.kt:751 | with no attributes the service keeps its own name |
| ServiceNames.RemoveLocalIsOneReplacePass | app/src/main/java/org/cheek/wakeitup/DeviceViewModel.kt:453-455 | the `contains` guard changes nothing: the result is one `replace` pass, no longer than the name, and equal to the name exactly when it holds no `.local` |
| ServiceNames.RemoveLocalIsNotIdempotent | app/src/main/java/org/cheek/wakeitup/DeviceViewModel.kt:454 | the single pass can leave a `.local` behind (`..locallocal` becomes `.local`) |
| ServiceNames.StripCastHash | app/src/main/java/org/cheek/wakeitup/DeviceViewModel.kt:461 | at most one 9-character `-xxxxxxxx` suffix is removed |
| ServiceNames.StripCastHashOfHashed | app/src/main/java/org/cheek/wakeitup/DeviceViewModel.kt:461 | a name ending in a dash and eight lower-case hex digits loses exactly that suffix |
| ServiceNames.StripCastHashExample | app/src/main/java/org/cheek/wakeitup/DeviceViewModel.kt:461 | `LivingRoom-a1b2c3d4` becomes `LivingRoom` |
| ServiceNames.StripCastHashKeepsPlainNames | app/src/main/java/org/cheek/wakeitup/DeviceViewModel.kt:461 | a name that neither ends in a hash nor ends in a line terminator (such as `Kitchen`) is kept |
| ServiceNames.StripCastHashChangesExactly | app/src/main/java/org/cheek/wakeitup/DeviceViewModel.kt:461 | the name changes exactly when a hash stands at its end or just before one final line terminator |
| ServiceNames.CleanServiceNameOfOtherTypes | app/src/main/java/org/cheek/wakeitup/DeviceViewModel.kt:453-473 | for types other than Cast, AirPlay and RAOP the cleanup is only the `.local` removal |
| ServiceNames.CleanServiceNameWithoutPercent | app/src/main/java/org/cheek/wakeitup/DeviceViewModel.kt:465 | a name without `%` is not run through the decoder |
| Subnet.LimitedBroadcastIsFormatted | app/src/main/java/org/cheek/wakeitup/DeviceViewModel.kt:564 | the fallback broadcast is the dotted quad 255.255.255.255 |
| Subnet.SubnetOfFormatted | app/src/main/java/org/cheek/wakeitup/DeviceViewModel.kt:541 | `substringBeforeLast('.')` of a valid address is its first three octets, which are not an address |
| Subnet.GetBroadcastAddressIsInferred | app/src/main/java/org/cheek/wakeitup/DeviceViewModel.kt:562-565 | `getBroadcastAddress` equals the dialogs' `inferBroadcastAddress` where that is not null, is 255.255.255.255 otherwise, and is always a valid address |
| Subnet.GetBroadcastAddressOfFormatted | app/src/main/java/org/cheek/wakeitup/DeviceViewModel.kt:564 | the broadcast address of `a.b.c.d` is `a.b.c.255` |
| Subnet.WifiByte | app/src/main/java/org/cheek/wakeitup/DeviceViewModel.kt:535-538 | each shifted and masked byte of the Wi-Fi address integer is below 256 |
| Subnet.WifiAddressIsLittleEndian | app/src/main/java/org/cheek/wakeitup/DeviceViewModel.kt:531-539 | the four octets are the little-endian bytes of the integer's 32-bit pattern and make a valid address |
| Subnet.WifiAddressExample | app/src/main/java/org/cheek/wakeitup/DeviceViewModel.kt:531-541 | the integer `0x0101A8C0` reads as `192.168.1.1`, subnet `192.168.1` |
| Subnet.GetLocalSubnet | app/src/main/java/org/cheek/wakeitup/DeviceViewModel.kt:499-560 | the loops over the link addresses and the common prefixes return what `LocalSubnet` states: null at once without an active network or link properties; else the first usable link address, then the Wi-Fi address, then the first common prefix whose `.1` answers |
| Subnet.LocalSubnetIsNotAnAddress | app/src/main/java/org/cheek/wakeitup/DeviceViewModel.kt:499-560 | a subnet found from a dotted-quad link address, from the Wi-Fi integer or from the probe is never itself a valid address |
| Subnet.FirstReachablePrefixIsListed | app/src/main/java/org/cheek/wakeitup/DeviceViewModel.kt:548-557 | a probed prefix is one of the listed prefixes, and its `.1` host answered |
| Subnet.CommonPrefixesAreNotAddresses | app/src/main/java/org/cheek/wakeitup/DeviceViewModel.kt:548-557 | no probed prefix is itself an address |
| Subnet.WakeTargetChoice | app/src/main/java/org/cheek/wakeitup/DeviceViewModel.kt:762-768 | a valid device address gives its own broadcast address; otherwise the local subnet's `.255`, or 255.255.255.255 when no subnet is known |
| Subnet.WakeDeviceUp | app/src/main/java/org/cheek/wakeitup/DeviceViewModel.kt:755-776 | a blank MAC fails with the missing-MAC message and sends nothing; otherwise the result of sending the Magic Packet of the cleaned MAC to the chosen target and port, with the matching message |
| Aggregator.CommitPing | app/src/main/java/org/cheek/wakeitup/DeviceViewModel.kt:282-287 | afterwards the IP is listed; the list is unchanged, or grown by exactly the new device at its end, the latter only when the IP was new |
| Aggregator.CommitPingKeepsIpsDistinct | app/src/main/java/org/cheek/wakeitup/DeviceViewModel.kt:282-287 | a list built by ping commits never shows an IP twice |
| Aggregator.DistinctByFrom | app/src/main/java/org/cheek/wakeitup/DeviceViewModel.kt:489-491 | `distinctBy` keeps the first entry of each key, in order: no key twice, every key of the input kept, nothing added |
| Aggregator.DistinctByOfDistinct | app/src/main/java/org/cheek/wakeitup/DeviceViewModel.kt:489-491 | on a list whose keys are already distinct, `distinctBy` changes nothing |
| Aggregator.DistinctByAppend | app/src/main/java/org/cheek/wakeitup/DeviceViewModel.kt:489-491 | `distinctBy` of a list plus one device appends that device exactly when its key is new |
| Aggregator.CommitResolved | app/src/main/java/org/cheek/wakeitup/DeviceViewModel.kt:486-493 | a changed list has distinct keys, and a list that already shows the IP and name is unchanged |
| Aggregator.CommitResolvedOfDistinct | app/src/main/java/org/cheek/wakeitup/DeviceViewModel.kt:486-493 | on a list with distinct keys the device is appended exactly when no entry has its IP and name and none its key |
| Aggregator.RemoveLost | app/src/main/java/org/cheek/wakeitup/DeviceViewModel.kt:384-387 | keeps exactly the entries whose name and type differ from the lost service's |
| Aggregator.RemoveLostAppend | app/src/main/java/org/cheek/wakeitup/DeviceViewModel.kt:384-387 | the filter works entry by entry, so kept entries stay in order |
| Aggregator.RemoveLostWithoutMatch | app/src/main/java/org/cheek/wakeitup/DeviceViewModel.kt:384-387 | a list with no matching entry is left as it is |
| Aggregator.RemoveLostIdempotent | app/src/main/java/org/cheek/wakeitup/DeviceViewModel.kt:384-387 | reporting the same service lost twice removes nothing more |
| Aggregator.ArpCacheMac | app/src/main/java/org/cheek/wakeitup/DeviceViewModel.kt:304-327 | every MAC from the ARP lookup passes `isValidMacAddress` |
| Aggregator.PingDeviceIsWakeable | app/src/main/java/org/cheek/wakeitup/DeviceViewModel.kt:273-280 | a ping hit's record has a valid broadcast address (its own subnet's for a valid IP) and a usable MAC when it has one, and is named after its IP when no name was found |
| Aggregator.ResolvedDeviceIsWakeable | app/src/main/java/org/cheek/wakeitup/DeviceViewModel.kt:477-484 | a resolved service's record has a valid broadcast address (its own subnet's for a valid IP) and a usable MAC when it has one |
| PingSweep.ChainIndices | app/src/main/java/org/cheek/wakeitup/DeviceViewModel.kt:255-259 | the indices a chain visits are strictly increasing and lie between its start and 254 |
| PingSweep.ChainIndicesMembership | app/src/main/java/org/cheek/wakeitup/DeviceViewModel.kt:259-295 | chain `start` visits `x` exactly when `start <= x <= 254` and `x - start` is a multiple of 25 |
| PingSweep.ChainOfHost | app/src/main/java/org/cheek/wakeitup/DeviceViewModel.kt:173-176 | host `x` is visited by chain `i` exactly when `i == (x - 1) % 25 + 1` |
| PingSweep.ChainsCount | app/src/main/java/org/cheek/wakeitup/DeviceViewModel.kt:173-176 | the chains from `i` on visit `x` once if `x` is a host between 1 and 254 whose chain is `i` or later, and never otherwise |
| PingSweep.SweepCoversHostsOnce | app/src/main/java/org/cheek/wakeitup/DeviceViewModel.kt:173-176 | together the 25 chains visit each host 1..254 exactly once (a permutation of 1..254), 254 visits in all |
| PingSweep.FirstChainIsOne | app/src/main/java/org/cheek/wakeitup/DeviceViewModel.kt:173 | the only first chain that comes no later than every host's chain is chain 1, the first index of `1..PING_SCAN_CONCURRENT_CHAINS` |
| PingSweep.PingStepFacts | app/src/main/java/org/cheek/wakeitup/DeviceViewModel.kt:263-293 | a visit adds one to the counter and keeps the listed devices first; a reachable host is then listed and cached; no cache entry is lost; an unreachable host changes neither list nor cache |
| PingSweep.ChainRunCounter | app/src/main/java/org/cheek/wakeitup/DeviceViewModel.kt:292 | the counter grows by one per visited host |
| PingSweep.ChainRunAppend | app/src/main/java/org/cheek/wakeitup/DeviceViewModel.kt:259-299 | running two stretches of indices is running one after the other |
| PingSweep.ChainRunListsReachable | app/src/main/java/org/cheek/wakeitup/DeviceViewModel.kt:259-299 | a chain never drops or reorders a listed device; every reachable host it visited is listed and cached |
| PingSweep.HostnameCacheKeepsKeys | app/src/main/java/org/cheek/wakeitup/DeviceViewModel.kt:567-619 | hostname cache entries are never removed |
| PingSweep.SweepFromIsChainRun | app/src/main/java/org/cheek/wakeitup/DeviceViewModel.kt:173-179 | running the chains one after the other is running their indices as one stretch |
| PingSweep.SweepRunCounter | app/src/main/java/org/cheek/wakeitup/DeviceViewModel.kt:172-293 | the sweep counts 254 visits, so a sweep started at 0 ends with the progress at 254 |
| PingSweep.SweepListsReachableHosts | app/src/main/java/org/cheek/wakeitup/DeviceViewModel.kt:173-299 | after a sweep the devices listed before are still first, and every reachable host 1..254 is listed |
| ScanSession.InitiatedIsExact | app/src/main/java/org/cheek/wakeitup/DeviceViewModel.kt:342-352 | each type is registered at most once, exactly when it was free and its discovery did not throw |
| ScanSession.DeviceViewModel.constructor | app/src/main/java/org/cheek/wakeitup/DeviceViewModel.kt:43-60 | an idle session: not scanning, progress 0, no devices, jobs, listeners or pending services |
| ScanSession.DeviceViewModel.StartNetworkScan | app/src/main/java/org/cheek/wakeitup/DeviceViewModel.kt:150-163 | nothing while a scan runs; otherwise every listener is stopped and a fresh scan begins with an empty list, empty pending map, zero progress and no jobs, keeping the hostname cache |
| ScanSession.DeviceViewModel.StopAllDiscoveryListeners | app/src/main/java/org/cheek/wakeitup/DeviceViewModel.kt:223-235 | the registry ends empty, and exactly the registered listeners are stopped |
| ScanSession.DeviceViewModel.StopNetworkScan | app/src/main/java/org/cheek/wakeitup/DeviceViewModel.kt:237-251 | an idle session is left alone; otherwise scanning ends, jobs and listeners are cleared and the progress resets; either way the session is idle afterwards |
| ScanSession.DeviceViewModel.ClearScannedDevices | app/src/main/java/org/cheek/wakeitup/DeviceViewModel.kt:782-785 | the device list and the pending map are empty |
| ScanSession.DeviceViewModel.GetHostname | app/src/main/java/org/cheek/wakeitup/DeviceViewModel.kt:569-573 | a cached answer is returned with the cache unchanged; otherwise the looked-up answer (null included) is cached and returned |
| ScanSession.DeviceViewModel.PingHost | app/src/main/java/org/cheek/wakeitup/DeviceViewModel.kt:260-293 | the state moves by one `PingStep` and the progress never goes down |
| ScanSession.DeviceViewModel.PingDeviceChain | app/src/main/java/org/cheek/wakeitup/DeviceViewModel.kt:254-301 | while scanning, the loop's end state is `ChainRun` over the chain's indices; progress never goes down |
| ScanSession.DeviceViewModel.LaunchChain | app/src/main/java/org/cheek/wakeitup/DeviceViewModel.kt:173-179 | chain `i` is added to the jobs and runs its indices |
| ScanSession.DeviceViewModel.LaunchPingChains | app/src/main/java/org/cheek/wakeitup/DeviceViewModel.kt:173-179 | while scanning, the launch loop records the jobs `first..25` and leaves the state `SweepFrom(first)` |
| ScanSession.DeviceViewModel.PingPhase | app/src/main/java/org/cheek/wakeitup/DeviceViewModel.kt:166-182 | the subnet is `LocalSubnet`; with a subnet and the scan running the state is the whole sweep from the old state, the jobs of chains 1..25 are recorded, the shared counter has grown by 254 and the progress is the counter capped at 254; otherwise nothing changes |
| ScanSession.DeviceViewModel.StartServiceDiscovery | app/src/main/java/org/cheek/wakeitup/DeviceViewModel.kt:342-353 | a listener is registered exactly while scanning, for a type not yet registered, when `discoverServices` does not throw |
| ScanSession.DeviceViewModel.DiscoverEach | app/src/main/java/org/cheek/wakeitup/DeviceViewModel.kt:185-200 | a discovery loop registers exactly the types `Initiated` gives, and the registry holds the old keys and those |
| ScanSession.DeviceViewModel.FinishScan | app/src/main/java/org/cheek/wakeitup/DeviceViewModel.kt:207-219 | at the timeout a running scan ends: jobs dropped, scanning off, every listener stopped |
| ScanSession.DeviceViewModel.DiscoveryPhase | app/src/main/java/org/cheek/wakeitup/DeviceViewModel.kt:185-219 | priority types then the rest are registered as `Initiated` says, and at the timeout all old and new listeners are stopped |
| ScanSession.RemainingServicesIsFilter | app/src/main/java/org/cheek/wakeitup/DeviceViewModel.kt:185-196 | the second discovery loop's list, the declared list with the positions of the three priority types cut out, holds exactly the declared service types that are not priority types, thirteen of them |
| ScanSession.DeviceViewModel.RunLaunchedScan | app/src/main/java/org/cheek/wakeitup/DeviceViewModel.kt:165-220 | the launched scan leaves the sweep's device list and cache, the registrations of the discovery order, and at the end nothing scanning, no jobs and no listeners; the progress is the shared counter capped at 254, unchanged without a subnet, and 254 when a sweep ran from a zero counter |
| ScanSession.DeviceViewModel.OnServiceFound | app/src/main/java/org/cheek/wakeitup/DeviceViewModel.kt:361-375 | while scanning, an unseen `name-type` key is filed with its service and a resolve is requested unless that throws; nothing changes otherwise |
| ScanSession.DeviceViewModel.OnServiceLost | app/src/main/java/org/cheek/wakeitup/DeviceViewModel.kt:377-390 | the key leaves the pending map, and while scanning exactly the devices with the service's name and type leave the list |
| ScanSession.DeviceViewModel.OnListenerEnded | app/src/main/java/org/cheek/wakeitup/DeviceViewModel.kt:392-405 | the listener's type leaves the registry |
| ScanSession.DeviceViewModel.OnResolveFailed | app/src/main/java/org/cheek/wakeitup/DeviceViewModel.kt:411-414 | the service's key leaves the pending map |
| ScanSession.DeviceViewModel.OnServiceResolved | app/src/main/java/org/cheek/wakeitup/DeviceViewModel.kt:417-494 | the key always leaves the pending map; only a non-null service, while scanning, with a usable IPv4 address, commits a device; distinct keys stay distinct |
| ScanSession.DeviceViewModel.AddResolvedService | app/src/main/java/org/cheek/wakeitup/DeviceViewModel.kt:423-493 | without a usable address nothing is added; otherwise the built device is committed by the resolved-service rule |
| ScanSession.DeviceViewModel.BuildResolvedDevice | app/src/main/java/org/cheek/wakeitup/DeviceViewModel.kt:448-484 | the resolved service's record, with the better, cleaned-up name and the ARP MAC |
| ScanSession.DeviceViewModel.CommitResolvedDevice | app/src/main/java/org/cheek/wakeitup/DeviceViewModel.kt:486-493 | the list becomes `CommitResolved` of the old list and the device, and distinct keys stay distinct |

## Left out

- Concurrency is not modelled: coroutines, `launch`, `delay`, `Dispatchers`, `synchronized`, `AtomicInteger`, the 100/500/80 ms pauses and the 3000/1000 ms scan windows. The launched coroutine, each ping chain and each NSD callback run as sequential method calls on one `DeviceViewModel`. Each chain runs to its end before the next starts, and no callback interleaves with the scan. As a result, the scanning flag cannot change while a chain runs. The chains' early `break`s on a cleared flag are modelled only as the flag being cleared before the chain starts, and job cancellation amounts to dropping the recorded jobs.
- `ScanSession.DeviceViewModel.PingDeviceChain`: the loop models the `_isScanningNetwork` re-checks, but in the sequential model they always see the value the chain started with. A chain cancelled part-way through is not modelled.
- `_scanTotal` is the constant 254, the only value the code ever gives it.
- Network and OS calls are parameters of the methods. Each one stands in as follows:
  - `isHostReachable` is `Network.reachable`;
  - `getHostname`'s uncached lookup (DNS with its 800 ms timeout, `getent`, the ARP file) is `Network.lookup`. `Identity.ResolveHostname` states what that lookup computes from the DNS, `getent` and ARP-file answers;
  - the output of `cat /proc/net/arp` is `Network.arpOutput` (absent when the command throws);
  - `ConnectivityManager` and `WifiManager` are `SubnetSources`;
  - `discoverServices` and `resolveService` throwing are the booleans `discoverThrows` and `resolveThrows`;
  - `InetAddress.getByName`, opening the `DatagramSocket` with `broadcast = true`, and `send` succeeding are the booleans `resolves`, `socketOpens` and `sendSucceeds`.
- `stopServiceDiscovery` is not called. The listeners it would be handed are returned as the `stopped` set, and an exception from it is ignored, as the code ignores it.
- `ScanSession.DeviceViewModel.StopAllDiscoveryListeners` returns the stopped listeners as a set, so the order in which the code stops them is not captured.
- `URLDecoder.decode` for AirPlay and RAOP names is the parameter `urlDecode`, which returns nothing when decoding throws. Only a name without `%` is proved unchanged.
- `Build.VERSION.SDK_INT >= TIRAMISU` is the parameter `modernApi`.
- Logging is not modelled.
- `Identity.InterfaceType`: `contains(..., ignoreCase = true)` in `tryGetAlternativeHostname`'s interface test is modelled with ASCII case folding only.
- `KotlinText.ToIntOrNull`: `Character.digit(c, 10)` is modelled by the table `DigitZeros` of the Basic Multilingual Plane's runs of decimal digits as of Unicode 15. The JVM's table follows its own Unicode version. A digit outside that plane is a surrogate pair in Kotlin, and neither half is a digit.
- `Subnet.WakeTarget`: `wakeDeviceUp` may call `getLocalSubnet()` twice (`DeviceViewModel.kt` lines 762 and 766). The model takes one `localSubnet` value for both calls, so a network change between the two calls is not captured.
- `ServiceNames.ExtractBetterName`: the TXT attribute values are given as text that is already decoded. The `String(bytes, UTF-8)` decode (`DeviceViewModel.kt` line 740), which replaces malformed bytes rather than throwing, is not modelled. The surrounding `try`/`catch` (lines 727-748) has no counterpart, so an exception from reading the attributes is not modelled either.
- `isValidIpAddress` appears both in `DeviceViewModel.kt` (lines 778-780) and in `Screens.kt` (lines 1064-1067), with the same regex. It is modelled once.
- The `macBytes.size != 6` branch of `sendWakeOnLanPacket` (`MainActivity.kt` lines 111-114) cannot be taken. `WakeOnLan.MacBytes` proves that the parse gives six bytes, so the branch has no counterpart. The `try` around the parse cannot fail for twelve hex digits either. Kotlin's signed `Byte` is modelled by the unsigned value of the same bits.
- Room persistence (the DAOs, the database, `addDevice`, `deleteDevice`, `addGroup`, `selectGroup`), `onCleared` and the view-model factory are not modelled. Only the `Device` and `NetworkDevice` records are kept.
- The Compose UI is not modelled. Only the MAC field filters and the save and enable expressions of the two dialogs are.
