/**
 * `sendWakeOnLanPacket`: clean and check the MAC address, parse its six bytes, fill a
 * 102-byte "Magic Packet" (six 0xFF bytes, then the MAC sixteen times) and hand it to a
 * broadcast UDP socket.
 */
module WakeOnLan {
  import opened Wrappers
  import opened Screens

  /** An octet of the packet. Kotlin's `Byte` is signed; the model keeps the unsigned value of the same bits. */
  type byte = x: int | 0 <= x < 256

  const SyncByte: byte := 0xFF
  const MacLength: nat := 6
  const Repetitions: nat := 16
  /** `6 + 16 * 6`. */
  const PacketLength: nat := MacLength + Repetitions * MacLength

  // ---------------------------------------------------------------------------
  // MAC bytes
  // ---------------------------------------------------------------------------

  function HexValue(c: char): (v: nat)
    requires IsHexChar(c)
    ensures v < 16
  {
    if '0' <= c <= '9' then c as int - '0' as int
    else if 'a' <= c <= 'f' then c as int - 'a' as int + 10
    else c as int - 'A' as int + 10
  }

  /** `substring(i, i + 2).toInt(16).toByte()`. */
  function HexPair(hi: char, lo: char): byte
    requires IsHexChar(hi) && IsHexChar(lo)
  {
    HexValue(hi) * 16 + HexValue(lo)
  }

  /** `(0 until 12 step 2).map { cleanMac.substring(it, it + 2).toInt(16).toByte() }`. */
  function MacBytes(clean: string): (bytes: seq<byte>)
    requires IsTwelveHex(clean)
    ensures |bytes| == MacLength
    ensures forall k :: 0 <= k < MacLength ==> bytes[k] == HexPair(clean[2 * k], clean[2 * k + 1])
  {
    seq(MacLength, k requires 0 <= k < MacLength => HexPair(clean[2 * k], clean[2 * k + 1]))
  }

  /** An upper-case hex digit. */
  function HexDigit(v: nat): (c: char)
    requires v < 16
    ensures IsHexChar(c) && HexValue(c) == v
  {
    if v < 10 then ('0' as int + v) as char else ('A' as int + v - 10) as char
  }

  /** Six bytes as twelve upper-case hex digits. */
  function HexDigits(bytes: seq<byte>): (s: string)
    ensures |s| == 2 * |bytes|
    ensures forall i :: 0 <= i < |s| ==> IsHexChar(s[i])
    ensures forall k :: 0 <= k < |bytes| ==> HexPair(s[2 * k], s[2 * k + 1]) == bytes[k]
  {
    var s := seq(2 * |bytes|, i requires 0 <= i < 2 * |bytes| =>
      if i % 2 == 0 then HexDigit(bytes[i / 2] / 16) else HexDigit(bytes[i / 2] % 16));
    assert forall k :: 0 <= k < |bytes| ==> HexPair(s[2 * k], s[2 * k + 1]) == bytes[k] by {
      forall k | 0 <= k < |bytes| ensures HexPair(s[2 * k], s[2 * k + 1]) == bytes[k] {
        HexPairOfDigits(bytes[k]);
      }
    }
    s
  }

  /** A byte's two hex digits parse back to the byte. */
  lemma HexPairOfDigits(b: byte)
    ensures HexPair(HexDigit(b / 16), HexDigit(b % 16)) == b
  {
  }

  /** Parsing the hex digits of six bytes gives back the bytes. */
  lemma MacBytesOfHexDigits(bytes: seq<byte>)
    requires |bytes| == MacLength
    ensures IsTwelveHex(HexDigits(bytes))
    ensures MacBytes(HexDigits(bytes)) == bytes
  {
  }

  // ---------------------------------------------------------------------------
  // The packet as a value
  // ---------------------------------------------------------------------------

  /** `mac` written `n` times in a row. */
  function Repeat(mac: seq<byte>, n: nat): (r: seq<byte>)
    ensures |r| == n * |mac|
  {
    if n == 0 then [] else Repeat(mac, n - 1) + mac
  }

  lemma {:induction false} RepeatAt(mac: seq<byte>, n: nat, i: nat, k: nat)
    requires i < n && k < |mac|
    ensures i * |mac| + k < |Repeat(mac, n)|
    ensures Repeat(mac, n)[i * |mac| + k] == mac[k]
  {
    var prev := Repeat(mac, n - 1);
    assert Repeat(mac, n) == prev + mac;
    if i < n - 1 {
      RepeatAt(mac, n - 1, i, k);
    } else {
      assert |prev| == i * |mac|;
    }
  }

  const SyncStream: seq<byte> := [SyncByte, SyncByte, SyncByte, SyncByte, SyncByte, SyncByte]

  /** The Magic Packet for a six-byte MAC address. */
  function MagicPacket(mac: seq<byte>): seq<byte>
    requires |mac| == MacLength
  {
    SyncStream + Repeat(mac, Repetitions)
  }

  /** Where byte `k` of copy `i` of the MAC goes: `6 + 6i + k`. */
  function PacketIndex(i: nat, k: nat): nat {
    MacLength + MacLength * i + k
  }

  /** 102 bytes; bytes 0..5 are 0xFF; byte `6 + 6i + k` is `mac[k]` for every `i < 16`, `k < 6`. */
  lemma MagicPacketLayout(mac: seq<byte>)
    requires |mac| == MacLength
    ensures |MagicPacket(mac)| == PacketLength == 102
    ensures forall i :: 0 <= i < MacLength ==> MagicPacket(mac)[i] == SyncByte
    ensures forall i, k :: 0 <= i < Repetitions && 0 <= k < MacLength ==>
      PacketIndex(i, k) < PacketLength && MagicPacket(mac)[PacketIndex(i, k)] == mac[k]
  {
    forall i, k | 0 <= i < Repetitions && 0 <= k < MacLength
      ensures PacketIndex(i, k) < PacketLength && MagicPacket(mac)[PacketIndex(i, k)] == mac[k]
    {
      RepeatAt(mac, Repetitions, i, k);
      assert MacLength * i == i * |mac|;
    }
  }

  /**
   * What a receiving network card looks for: 102 bytes, six 0xFF, then sixteen copies
   * of the same six bytes.
   */
  predicate IsMagicPacket(p: seq<byte>) {
    && |p| == PacketLength
    && (forall i :: 0 <= i < MacLength ==> p[i] == SyncByte)
    && (forall j :: MacLength <= j < PacketLength ==> p[j] == p[MacLength + (j - MacLength) % MacLength])
  }

  /** The MAC address a Magic Packet wakes up. */
  function TargetMac(p: seq<byte>): seq<byte>
    requires IsMagicPacket(p)
  {
    p[MacLength..2 * MacLength]
  }

  /** The packet the engine builds is a Magic Packet for exactly the MAC it was built from. */
  lemma MagicPacketIsRecognised(mac: seq<byte>)
    requires |mac| == MacLength
    ensures IsMagicPacket(MagicPacket(mac))
    ensures TargetMac(MagicPacket(mac)) == mac
  {
    var p := MagicPacket(mac);
    MagicPacketLayout(mac);
    forall j | MacLength <= j < PacketLength
      ensures p[j] == p[MacLength + (j - MacLength) % MacLength]
    {
      var i, k := (j - MacLength) / MacLength, (j - MacLength) % MacLength;
      assert j == PacketIndex(i, k);
      assert p[PacketIndex(0, k)] == mac[k];
    }
    forall k | 0 <= k < MacLength ensures TargetMac(p)[k] == mac[k] {
      assert p[PacketIndex(0, k)] == mac[k];
    }
  }

  /** A Magic Packet is determined by its target: it is the packet the engine builds for that MAC. */
  lemma MagicPacketIsUnique(p: seq<byte>)
    requires IsMagicPacket(p)
    ensures MagicPacket(TargetMac(p)) == p
  {
    var mac := TargetMac(p);
    var q := MagicPacket(mac);
    MagicPacketLayout(mac);
    forall j | 0 <= j < PacketLength ensures q[j] == p[j] {
      if j >= MacLength {
        var i, k := (j - MacLength) / MacLength, (j - MacLength) % MacLength;
        assert j == PacketIndex(i, k);
        assert q[j] == mac[k];
      }
    }
  }

  // ---------------------------------------------------------------------------
  // Filling the packet array
  // ---------------------------------------------------------------------------

  /** `src.copyInto(dst, offset)`. */
  method CopyInto(src: seq<byte>, dst: array<byte>, offset: nat)
    requires offset + |src| <= dst.Length
    modifies dst
    ensures dst[..] == old(dst[..offset]) + src + old(dst[offset + |src|..])
  {
    for k := 0 to |src|
      invariant dst[..] == old(dst[..offset]) + src[..k] + old(dst[offset + k..])
    {
      dst[offset + k] := src[k];
      assert src[..k + 1] == src[..k] + [src[k]];
    }
  }

  /**
   * `ByteArray(6 + 16 * 6)`, bytes 0..5 set to 0xFF, then `macBytes.copyInto(magicPacket, 6 + i * 6)`
   * for `i` in 0..15.
   */
  method BuildMagicPacket(macBytes: seq<byte>) returns (packet: array<byte>)
    requires |macBytes| == MacLength
    ensures fresh(packet)
    ensures packet[..] == MagicPacket(macBytes)
  {
    packet := new byte[PacketLength];
    for i := 0 to MacLength
      invariant packet[..i] == SyncStream[..i]
    {
      packet[i] := SyncByte;
      assert packet[..i + 1] == packet[..i] + [packet[i]];
    }
    assert packet[..MacLength] == SyncStream;
    for i := 0 to Repetitions
      invariant packet[..MacLength + MacLength * i] == SyncStream + Repeat(macBytes, i)
    {
      ghost var before := packet[..];
      CopyInto(macBytes, packet, MacLength + MacLength * i);
      assert packet[..MacLength + MacLength * (i + 1)] == before[..MacLength + MacLength * i] + macBytes;
    }
    assert packet[..] == packet[..PacketLength];
  }

  // ---------------------------------------------------------------------------
  // Sending
  // ---------------------------------------------------------------------------

  /** `DatagramPacket(magicPacket, magicPacket.size, address, port)`. */
  datatype Datagram = Datagram(payload: seq<byte>, address: string, port: int)

  /** `DatagramPacket` refuses a port outside 0..65535. */
  predicate IsPort(port: int) { 0 <= port <= 0xFFFF }

  /**
   * `sendWakeOnLanPacket`. Name resolution and the socket are oracles, taken in the order
   * the code meets them: `resolves` is whether `InetAddress.getByName(broadcastAddress)`
   * returns, `socketOpens` whether `DatagramSocket()` and `broadcast = true` complete, and
   * `sendSucceeds` whether `send` completes, each without an exception. `attempted` is the
   * datagram handed to `send`, if the code gets that far.
   */
  method SendWakeOnLanPacket(macAddress: string, broadcastAddress: string, port: int,
                             resolves: bool, socketOpens: bool, sendSucceeds: bool)
    returns (ok: bool, attempted: Option<Datagram>)
    ensures !IsValidMacAddress(macAddress) ==> !ok && attempted.None?
    ensures attempted.Some? <==> IsValidMacAddress(macAddress) && resolves && socketOpens && IsPort(port)
    ensures attempted.Some? ==>
      attempted.value == Datagram(MagicPacket(MacBytes(CleanMac(macAddress))), broadcastAddress, port)
    ensures ok <==> attempted.Some? && sendSucceeds
  {
    var cleanMac := CleanMac(macAddress);
    if !IsTwelveHex(cleanMac) {
      return false, None;
    }
    var macBytes := MacBytes(cleanMac);
    var magicPacket := BuildMagicPacket(macBytes);
    if !resolves || !socketOpens || !IsPort(port) {
      return false, None;
    }
    attempted := Some(Datagram(magicPacket[..], broadcastAddress, port));
    ok := sendSucceeds;
  }
}
