/** The capture decoder `PcapParser` (src/utils/pcap-parser.ts): the libpcap
    global-header check, the record loop, and the Ethernet II / IPv4 / TCP /
    UDP classification of each frame. */
module PcapParser {
  import opened Wrappers
  import opened Text
  import opened FormatUtils
  import opened PcapTypes
  import opened PcapSummary

  const PCAP_HEADER_SIZE: nat := 24
  const PACKET_HEADER_SIZE: nat := 16
  const ETHERNET_HEADER_SIZE: nat := 14
  const IP_HEADER_MIN_SIZE: nat := 20
  const TCP_HEADER_SIZE: nat := 20
  /** `Number.MAX_SAFE_INTEGER`, 2^53 - 1. */
  const MAX_SAFE_INTEGER: nat := 0x1F_FFFF_FFFF_FFFF
  /** The length of the top-source and top-destination lists. */
  const TOP_N: nat := 3
  /** The accepted magic numbers: microsecond and nanosecond files, in both byte orders. */
  const VALID_MAGICS: seq<nat> := [0xa1b2c3d4, 0xd4c3b2a1, 0xa1b23c4d, 0x4d3cb2a1]

  /** The errors `parsePcapFile` throws. */
  datatype ParseError =
    | HeaderTooSmall            // fewer than 24 bytes
    | BadMagic(be: nat, le: nat) // neither reading of the first four bytes is a known magic

  // ---------------------------------------------------------------------------
  // Global header
  // ---------------------------------------------------------------------------

  /** Four bytes are recovered from their big-endian value by division. */
  lemma BytesOfValue(b0: nat, b1: nat, b2: nat, b3: nat)
    requires b0 < 0x100 && b1 < 0x100 && b2 < 0x100 && b3 < 0x100
    ensures var v := b0 * 0x100_0000 + b1 * 0x1_0000 + b2 * 0x100 + b3;
      b3 == v % 0x100 && b2 == v / 0x100 % 0x100 && b1 == v / 0x100 / 0x100 % 0x100
      && b0 == v / 0x100 / 0x100 / 0x100
  {
    var v2 := b0 * 0x100 + b1;
    var v1 := v2 * 0x100 + b2;
    assert b0 * 0x100_0000 + b1 * 0x1_0000 + b2 * 0x100 + b3 == v1 * 0x100 + b3;
    DivModByte(v1, b3);
    DivModByte(v2, b2);
    DivModByte(b0, b1);
  }

  /** The set of magics is closed under byte reversal, so the little-endian
      reading is valid exactly when the big-endian one is. */
  lemma MagicReversal(buffer: seq<uint8>)
    requires |buffer| >= 4
    ensures U32LE(buffer, 0) in VALID_MAGICS <==> U32BE(buffer, 0) in VALID_MAGICS
  {
    var b0, b1, b2, b3 := buffer[0] as nat, buffer[1] as nat, buffer[2] as nat, buffer[3] as nat;
    var be, le := U32BE(buffer, 0), U32LE(buffer, 0);
    assert be == b0 * 0x100_0000 + b1 * 0x1_0000 + b2 * 0x100 + b3;
    assert le == b3 * 0x100_0000 + b2 * 0x1_0000 + b1 * 0x100 + b0;
    BytesOfValue(b0, b1, b2, b3);
    BytesOfValue(b3, b2, b1, b0);
    if be in VALID_MAGICS {
      MagicBytes(be, b0, b1, b2, b3);
    }
    if le in VALID_MAGICS {
      MagicBytes(le, b3, b2, b1, b0);
    }
  }

  /** The bytes of a magic, high byte first, reversed make a magic again. */
  lemma MagicBytes(m: nat, b0: nat, b1: nat, b2: nat, b3: nat)
    requires m in VALID_MAGICS
    requires b3 == m % 0x100 && b2 == m / 0x100 % 0x100 && b1 == m / 0x100 / 0x100 % 0x100
    requires b0 == m / 0x100 / 0x100 / 0x100
    ensures b3 * 0x100_0000 + b2 * 0x1_0000 + b1 * 0x100 + b0 in VALID_MAGICS
  {
    if m == 0xa1b2c3d4 {
      assert b0 == 0xa1 && b1 == 0xb2 && b2 == 0xc3 && b3 == 0xd4;
    } else if m == 0xd4c3b2a1 {
      assert b0 == 0xd4 && b1 == 0xc3 && b2 == 0xb2 && b3 == 0xa1;
    } else if m == 0xa1b23c4d {
      assert b0 == 0xa1 && b1 == 0xb2 && b2 == 0x3c && b3 == 0x4d;
    } else {
      assert b0 == 0x4d && b1 == 0x3c && b2 == 0xb2 && b3 == 0xa1;
    }
  }

  /** `validatePcapHeader`: accepts when either reading of the magic is known. */
  function ValidatePcapHeader(buffer: seq<uint8>): (r: Outcome<ParseError>)
    requires |buffer| >= 4
    ensures r.Pass? <==> U32BE(buffer, 0) in VALID_MAGICS
    ensures r.Fail? ==> r.error == BadMagic(U32BE(buffer, 0), U32LE(buffer, 0))
  {
    var magic32BE := U32BE(buffer, 0);
    var magic32LE := U32LE(buffer, 0);
    MagicReversal(buffer);
    if magic32BE !in VALID_MAGICS && magic32LE !in VALID_MAGICS then Fail(BadMagic(magic32BE, magic32LE))
    else Pass
  }

  // ---------------------------------------------------------------------------
  // TCP flags
  // ---------------------------------------------------------------------------

  const TCP_FLAG_NAMES: seq<string> := ["FIN", "SYN", "RST", "PSH", "ACK", "URG"]
  /** `1 << i` for each flag position. */
  const FLAG_BITS: seq<nat> := [1, 2, 4, 8, 16, 32]

  /** `v & (1 << i)` is non-zero. */
  predicate BitSet(v: nat, i: nat)
    requires i < 6
  {
    (v / FLAG_BITS[i]) % 2 == 1
  }

  /** The position of a flag name, or 6 for any other string. */
  function FlagIndex(name: string): (k: nat)
    ensures k <= 6
    ensures k < 6 ==> TCP_FLAG_NAMES[k] == name
  {
    if name == "FIN" then 0 else if name == "SYN" then 1 else if name == "RST" then 2
    else if name == "PSH" then 3 else if name == "ACK" then 4 else if name == "URG" then 5
    else 6
  }

  /** The names of the set bits among the first `i` positions, in position order. */
  function FlagsBelow(v: nat, i: nat): (names: seq<string>)
    requires i <= 6
    ensures |names| <= i
  {
    if i == 0 then []
    else FlagsBelow(v, i - 1) + (if BitSet(v, i - 1) then [TCP_FLAG_NAMES[i - 1]] else [])
  }

  /** What `parseTcpFlags` returns: nothing outside 0..255, else the names of
      the set bits of the low six bits. */
  function TcpFlags(flags: int): (names: seq<string>)
    ensures |names| <= 6
  {
    if flags < 0 || flags > 255 then [] else FlagsBelow(flags % 0x40, 6)
  }

  /** `parseTcpFlags`: masks to the low six bits and collects the name of each set bit. */
  method ParseTcpFlags(flags: int) returns (activeFlags: seq<string>)
    ensures activeFlags == TcpFlags(flags)
  {
    if flags < 0 || flags > 255 {
      return [];
    }
    var validFlags := flags % 0x40;
    activeFlags := [];
    for i := 0 to |TCP_FLAG_NAMES|
      invariant activeFlags == FlagsBelow(validFlags, i)
    {
      if BitSet(validFlags, i) {
        activeFlags := activeFlags + [TCP_FLAG_NAMES[i]];
      }
    }
  }

  lemma FlagsBelowShape(v: nat, k: nat)
    requires k <= 6
    ensures var r := FlagsBelow(v, k);
      && |r| <= k
      && (forall a :: 0 <= a < |r| ==> FlagIndex(r[a]) < k)
      && (forall a, b :: 0 <= a < b < |r| ==> FlagIndex(r[a]) < FlagIndex(r[b]))
      && (forall j :: 0 <= j < k ==> (TCP_FLAG_NAMES[j] in r <==> BitSet(v, j)))
  {
    FlagsBelowOrdered(v, k);
    FlagsBelowMembers(v, k);
  }

  /** The names below `k` come in increasing position, each below `k`. */
  lemma {:induction false} FlagsBelowOrdered(v: nat, k: nat)
    requires k <= 6
    ensures var r := FlagsBelow(v, k);
      && |r| <= k
      && (forall a :: 0 <= a < |r| ==> FlagIndex(r[a]) < k)
      && (forall a, b :: 0 <= a < b < |r| ==> FlagIndex(r[a]) < FlagIndex(r[b]))
  {
    if k > 0 {
      FlagsBelowOrdered(v, k - 1);
      FlagIndexOfName(k - 1);
    }
  }

  /** A name below `k` is listed exactly when its bit is set. */
  lemma {:induction false} FlagsBelowMembers(v: nat, k: nat)
    requires k <= 6
    ensures forall j :: 0 <= j < k ==> (TCP_FLAG_NAMES[j] in FlagsBelow(v, k) <==> BitSet(v, j))
  {
    if k > 0 {
      FlagsBelowMembers(v, k - 1);
      FlagsBelowOrdered(v, k - 1);
      var prev := FlagsBelow(v, k - 1);
      var name := TCP_FLAG_NAMES[k - 1];
      FlagIndexOfName(k - 1);
      assert name !in prev by {
        forall a | 0 <= a < |prev| ensures prev[a] != name {
        }
      }
      forall j | 0 <= j < k - 1 ensures TCP_FLAG_NAMES[j] != name {
        FlagIndexOfName(j);
      }
    }
  }

  /** Each flag name's position is its index in the name list. */
  lemma FlagIndexOfName(j: nat)
    requires j < 6
    ensures FlagIndex(TCP_FLAG_NAMES[j]) == j
  {
  }

  /** A flag name is listed exactly when its bit is set in the masked byte value. */
  lemma TcpFlagsMembership(flags: int, i: nat)
    requires i < 6
    ensures TCP_FLAG_NAMES[i] in TcpFlags(flags) <==> 0 <= flags <= 255 && BitSet(flags % 0x40, i)
  {
    if 0 <= flags <= 255 {
      FlagsBelowShape(flags % 0x40, 6);
    }
  }

  /** The flags come in FIN, SYN, RST, PSH, ACK, URG order, each at most once. */
  lemma TcpFlagsOrdered(flags: int)
    ensures var r := TcpFlags(flags);
      && |r| <= 6
      && (forall a :: 0 <= a < |r| ==> r[a] in TCP_FLAG_NAMES)
      && (forall a, b :: 0 <= a < b < |r| ==> FlagIndex(r[a]) < FlagIndex(r[b]))
  {
    if 0 <= flags <= 255 {
      FlagsBelowShape(flags % 0x40, 6);
    }
  }

  /** Only the low six bits matter. */
  lemma TcpFlagsLowBits(a: int, b: int)
    requires 0 <= a <= 255 && 0 <= b <= 255 && a % 0x40 == b % 0x40
    ensures TcpFlags(a) == TcpFlags(b)
  {
  }

  // ---------------------------------------------------------------------------
  // IPv4
  // ---------------------------------------------------------------------------

  /** The header fields `parseIpPacket` extracts. */
  datatype IpInfo = IpInfo(protocol: string, source: string, destination: string, port: Option<nat>, flags: seq<string>)

  /** What `parseIpPacket` returns for the bytes from the IPv4 header on. The
      header length field is ignored: transport headers start at offset 20. */
  function IpPacket(ip: seq<uint8>): (r: Option<IpInfo>)
    ensures r.Some? <==> |ip| >= 20 && ip[0] / 16 == 4
  {
    if |ip| < 20 || ip[0] / 16 != 4 then None
    else
      var source := FormatIpAddress(ip[12..16]).value;
      var destination := FormatIpAddress(ip[16..20]).value;
      var tcpFull := |ip| >= 40;
      match ip[9]
      case 1 => Some(IpInfo("ICMP", source, destination, None, []))
      case 6 =>
        Some(IpInfo(if tcpFull && U16BE(ip, 22) == 25 then "SMTP" else "TCP", source, destination,
                    if tcpFull then Some(U16BE(ip, 20)) else None,
                    if tcpFull then TcpFlags(ip[33]) else []))
      case 17 => Some(IpInfo("UDP", source, destination, if |ip| >= 28 then Some(U16BE(ip, 20)) else None, []))
      case n => Some(IpInfo("IP(" + NatToString(n, 10) + ")", source, destination, None, []))
  }

  /** `parseIpPacket`, with its `let` fields updated branch by branch. */
  method ParseIpPacket(ipData: seq<uint8>) returns (r: Option<IpInfo>)
    ensures r == IpPacket(ipData)
  {
    if |ipData| < 20 {
      return None;
    }
    var ipVersion := (ipData[0] / 16) % 0x10;
    if ipVersion != 4 {
      return None;
    }
    var ipProtocol := ipData[9];
    var source := FormatIpAddress(ipData[12..16]).value;
    var destination := FormatIpAddress(ipData[16..20]).value;
    var protocol := "Unknown";
    var port: Option<nat> := None;
    var flags: seq<string> := [];
    if ipProtocol == 1 {
      protocol := "ICMP";
    } else if ipProtocol == 6 {
      protocol := "TCP";
      var tcpStart := IP_HEADER_MIN_SIZE;
      var tcpMinLength := tcpStart + TCP_HEADER_SIZE;
      if |ipData| >= tcpMinLength {
        var tcpData := ipData[tcpStart..];
        var srcPort := U16BE(tcpData, 0);
        var dstPort := U16BE(tcpData, 2);
        port := Some(srcPort);
        if |tcpData| > 13 {
          flags := ParseTcpFlags(tcpData[13]);
        }
        if dstPort == 25 {
          protocol := "SMTP";
        }
      }
    } else if ipProtocol == 17 {
      protocol := "UDP";
      var udpStart := IP_HEADER_MIN_SIZE;
      var udpMinLength := udpStart + 8;
      if |ipData| >= udpMinLength {
        var udpData := ipData[udpStart..];
        port := Some(U16BE(udpData, 0));
      }
    } else {
      protocol := "IP(" + NatToString(ipProtocol, 10) + ")";
    }
    r := Some(IpInfo(protocol, source, destination, port, flags));
  }

  // ---------------------------------------------------------------------------
  // Ethernet II
  // ---------------------------------------------------------------------------

  /** A 16-bit header field as `0x` and four lower-case hex digits, high nibble first. */
  function HexField(v: nat): (s: string)
    requires v < 0x1_0000
    ensures |s| == 6 && s[..2] == "0x"
  {
    "0x" + FixedDigits(v, 16, 4)
  }

  /** `'0x' + v.toString(16).padStart(4, '0')` is exactly `HexField(v)`. */
  lemma HexFieldIsPadded(v: nat)
    requires v < 0x1_0000
    ensures "0x" + PadStart(NatToString(v, 16), 4, '0') == HexField(v)
  {
    assert Pow(16, 4) == 0x1_0000;
    FixedDigitsPadded(v, 16, 4);
  }

  /** A hex field is `0x` followed by four digits that read back as the value. */
  lemma HexFieldRoundTrip(v: nat)
    requires v < 0x1_0000
    ensures |HexField(v)| == 6 && HexField(v)[..2] == "0x"
    ensures ParseNat(HexField(v)[2..], 16) == Some(v)
  {
    var digits := NatToString(v, 16);
    HexFieldIsPadded(v);
    ParsePadStart(digits, 4, 16);
    ParseNatToString(v, 16);
    assert HexField(v)[2..] == PadStart(digits, 4, '0');
  }

  /** A VLAN tag (802.1Q or 802.1ad) in the EtherType position. */
  predicate IsVlan(etherType: nat) {
    etherType == 0x8100 || etherType == 0x88a8
  }

  /** What the IPv4 branch of `parseEthernetPacket` fills in: the view of
      `parseIpPacket`, and the low-level header fields, which are read
      whatever the version nibble says. */
  datatype Ipv4Fields = Ipv4Fields(
    info: Option<IpInfo>,
    ipTtl: Option<nat>, ipId: Option<nat>, ipChecksum: Option<string>,
    tcpSeq: Option<nat>, tcpAck: Option<nat>, tcpWin: Option<nat>, tcpChecksum: Option<string>,
    udpLen: Option<nat>, udpChecksum: Option<string>)

  /** Nothing filled in. */
  const NO_IPV4_FIELDS := Ipv4Fields(None, None, None, None, None, None, None, None, None, None)

  /** The IPv4 branch for a frame with EtherType 0x0800: nothing unless the
      frame holds a 20-byte IPv4 header; the TCP fields when the protocol is 6
      and 20 TCP bytes follow, the UDP fields when it is 17 and 8 UDP bytes follow. */
  function Ipv4FieldsOf(data: seq<uint8>): (f: Ipv4Fields)
    requires |data| >= 14
  {
    if |data| < 34 then NO_IPV4_FIELDS
    else
      var ip := data[14..];
      var isTcp := ip[9] == 6 && |ip| >= 40;
      var isUdp := ip[9] == 17 && |ip| >= 28;
      Ipv4Fields(
        info := IpPacket(ip),
        ipTtl := Some(ip[8] as nat),
        ipId := Some(U16BE(ip, 4)),
        ipChecksum := Some(HexField(U16BE(ip, 10))),
        tcpSeq := if isTcp then Some(U32BE(ip[20..], 4)) else None,
        tcpAck := if isTcp then Some(U32BE(ip[20..], 8)) else None,
        tcpWin := if isTcp then Some(U16BE(ip[20..], 14)) else None,
        tcpChecksum := if isTcp then Some(HexField(U16BE(ip[20..], 16))) else None,
        udpLen := if isUdp then Some(U16BE(ip[20..], 4)) else None,
        udpChecksum := if isUdp then Some(HexField(U16BE(ip[20..], 6))) else None)
  }

  /** The IPv4 branch of `parseEthernetPacket` (its `let` fields assigned in turn). */
  method ParseIpv4Fields(data: seq<uint8>) returns (f: Ipv4Fields)
    requires |data| >= 14
    ensures f == Ipv4FieldsOf(data)
  {
    f := NO_IPV4_FIELDS;
    var ipHeaderStart := ETHERNET_HEADER_SIZE;
    if |data| >= ipHeaderStart + IP_HEADER_MIN_SIZE {
      var ipData := data[ipHeaderStart..];
      var ipProtocol := ipData[9];
      f := f.(ipTtl := Some(ipData[8] as nat));
      f := f.(ipId := Some(U16BE(ipData, 4)));
      f := f.(ipChecksum := Some(HexField(U16BE(ipData, 10))));
      var ipPacket := ParseIpPacket(ipData);
      f := f.(info := ipPacket);
      if ipProtocol == 6 && |ipData| >= IP_HEADER_MIN_SIZE + TCP_HEADER_SIZE {
        var tcpData := ipData[IP_HEADER_MIN_SIZE..];
        f := f.(tcpSeq := Some(U32BE(tcpData, 4)));
        f := f.(tcpAck := Some(U32BE(tcpData, 8)));
        f := f.(tcpWin := Some(U16BE(tcpData, 14)));
        f := f.(tcpChecksum := Some(HexField(U16BE(tcpData, 16))));
      } else if ipProtocol == 17 && |ipData| >= IP_HEADER_MIN_SIZE + 8 {
        var udpData := ipData[IP_HEADER_MIN_SIZE..];
        f := f.(udpLen := Some(U16BE(udpData, 4)));
        f := f.(udpChecksum := Some(HexField(U16BE(udpData, 6))));
      }
    }
  }

  /** What `parseEthernetPacket` returns: `null` for a short frame or a VLAN
      tag, otherwise the packet `FrameFields` describes. */
  function EthernetFrame(data: seq<uint8>, timestamp: nat, microSeconds: nat): (r: Option<PcapPacket>)
    ensures r.None? <==> |data| < 14 || IsVlan(U16BE(data, 12))
    ensures r.Some? ==> r.value.length == |data| && r.value.flags.Some?
  {
    if |data| < 14 || IsVlan(U16BE(data, 12)) then None
    else Some(FrameFields(data, timestamp, microSeconds))
  }

  /** The packet built from a frame that is not `null`: the MAC pair (swapped
      into source and destination), and what the IPv4 branch found, if any. */
  function FrameFields(data: seq<uint8>, timestamp: nat, microSeconds: nat): (p: PcapPacket)
    requires |data| >= 14
    ensures p.length == |data| && p.flags.Some?
  {
    var sourceMac := FormatMacAddress(data[6..12]).value;
    var destMac := FormatMacAddress(data[0..6]).value;
    var et := U16BE(data, 12);
    var v := if et == 0x0800 then Ipv4FieldsOf(data) else NO_IPV4_FIELDS;
    var info := v.info;
    PcapPacket(
      source := if info.Some? then info.value.source else destMac,
      destination := if info.Some? then info.value.destination else sourceMac,
      protocol :=
        if info.Some? then info.value.protocol
        else if et == 0x0806 then "ARP"
        else if et == 0x86DD then "IPv6"
        else "Unknown",
      length := |data|,
      port := if info.Some? then info.value.port else None,
      flags := Some(if info.Some? then info.value.flags else []),
      data := ArrayToHexString(data),
      srcMac := Some(sourceMac),
      dstMac := Some(destMac),
      etherType := Some(HexField(et)),
      ipTtl := v.ipTtl, ipId := v.ipId, ipChecksum := v.ipChecksum,
      tcpSeq := v.tcpSeq, tcpAck := v.tcpAck, tcpWin := v.tcpWin, tcpChecksum := v.tcpChecksum,
      udpLen := v.udpLen, udpChecksum := v.udpChecksum,
      timestamp := Timestamp(timestamp, if microSeconds > 999999 then 999999 else microSeconds))
  }

  /** `parseEthernetPacket`, with its `let` fields reassigned as the frame is read. */
  method ParseEthernetPacket(data: seq<uint8>, timestamp: nat, microSeconds: nat) returns (r: Option<PcapPacket>)
    ensures r == EthernetFrame(data, timestamp, microSeconds)
  {
    if |data| < ETHERNET_HEADER_SIZE {
      return None;
    }
    var safeMicroSeconds := if microSeconds > 999999 then 999999 else microSeconds;
    var sourceMac := FormatMacAddress(data[6..12]).value;
    var destMac := FormatMacAddress(data[0..6]).value;
    var etherTypeNum := U16BE(data, 12);
    var etherType := HexField(etherTypeNum);
    var protocol := "Unknown";
    var transportSource := destMac;
    var transportDestination := sourceMac;
    var port: Option<nat> := None;
    var flags: seq<string> := [];
    var low := NO_IPV4_FIELDS;
    if etherTypeNum == 0x8100 || etherTypeNum == 0x88a8 {
      return None;
    }
    if etherTypeNum == 0x0800 {
      low := ParseIpv4Fields(data);
      var ipPacket := low.info;
      if ipPacket.Some? {
        protocol := ipPacket.value.protocol;
        transportSource := ipPacket.value.source;
        transportDestination := ipPacket.value.destination;
        port := ipPacket.value.port;
        flags := ipPacket.value.flags;
      }
    } else if etherTypeNum == 0x0806 {
      protocol := "ARP";
    } else if etherTypeNum == 0x86DD {
      protocol := "IPv6";
    }
    ghost var expected := FrameFields(data, timestamp, microSeconds);
    assert low == (if etherTypeNum == 0x0800 then Ipv4FieldsOf(data) else NO_IPV4_FIELDS);
    assert protocol == expected.protocol && port == expected.port && Some(flags) == expected.flags;
    assert transportSource == expected.source && transportDestination == expected.destination;
    r := Some(PcapPacket(
      source := transportSource, destination := transportDestination, protocol := protocol,
      length := |data|, port := port, flags := Some(flags), data := ArrayToHexString(data),
      srcMac := Some(sourceMac), dstMac := Some(destMac), etherType := Some(etherType),
      ipTtl := low.ipTtl, ipId := low.ipId, ipChecksum := low.ipChecksum,
      tcpSeq := low.tcpSeq, tcpAck := low.tcpAck, tcpWin := low.tcpWin, tcpChecksum := low.tcpChecksum,
      udpLen := low.udpLen, udpChecksum := low.udpChecksum,
      timestamp := Timestamp(timestamp, safeMicroSeconds)));
  }

  // ---------------------------------------------------------------------------
  // Records
  // ---------------------------------------------------------------------------

  /** A record as `parsePacket` cuts it out of the buffer: the two timestamp
      words of its header and its frame. */
  datatype RawRecord = RawRecord(seconds: nat, micros: nat, frame: seq<uint8>)

  /** The reads and guards of `parsePacket` at `offset`. A field read past the
      end throws, as `readUint32` does; an empty record or one that runs past
      the end of the buffer gives `null`; otherwise the frame is cut out. */
  function RecordAt(buffer: seq<uint8>, offset: int): (r: Result<Option<RawRecord>, FormatError>)
    ensures r.Failure? <==> 0 <= offset <= |buffer| < offset + 12
    ensures r.Success? && r.value.Some? ==>
      && 0 <= offset
      && offset + PACKET_HEADER_SIZE + |r.value.value.frame| <= |buffer|
      && 0 < |r.value.value.frame| == U32LE(buffer, offset + 8)
  {
    if offset < 0 || offset > |buffer| then Success(None)
    else
      var timestamp := ReadUint32(buffer, offset);
      var microSeconds := ReadUint32(buffer, offset + 4);
      var capturedLength := ReadUint32(buffer, offset + 8);
      if timestamp.Failure? then Failure(timestamp.error)
      else if microSeconds.Failure? then Failure(microSeconds.error)
      else if capturedLength.Failure? then Failure(capturedLength.error)
      else
        var len := capturedLength.value;
        var headerEnd := offset + PACKET_HEADER_SIZE;
        if len == 0 || headerEnd > |buffer| || len > |buffer| || headerEnd + len > |buffer|
           || headerEnd + len > MAX_SAFE_INTEGER
        then Success(None)
        else Success(Some(RawRecord(timestamp.value, microSeconds.value, Slice(buffer, headerEnd, headerEnd + len))))
  }

  /** A record that `parsePacket` cuts out holds the two header words and,
      as its frame, exactly the captured bytes that follow the header. */
  lemma RecordAtContents(buffer: seq<uint8>, offset: int)
    requires RecordAt(buffer, offset).Success? && RecordAt(buffer, offset).value.Some?
    ensures var record := RecordAt(buffer, offset).value.value;
      && record.seconds == U32LE(buffer, offset)
      && record.micros == U32LE(buffer, offset + 4)
      && record.frame == buffer[offset + PACKET_HEADER_SIZE..offset + PACKET_HEADER_SIZE + U32LE(buffer, offset + 8)]
  {
    var len := U32LE(buffer, offset + 8);
    SliceIsSubsequence(buffer, offset + PACKET_HEADER_SIZE, offset + PACKET_HEADER_SIZE + len);
  }

  /** A frame decoder of the shape of `parseEthernetPacket`: the frame with
      its capture time, to a packet or `null`. */
  type FrameDecoder = (seq<uint8>, nat, nat) -> Option<PcapPacket>

  /** What `parsePacket` returns at `offset` when its frames are decoded by
      `decode`: the record's header errors and `null`s, else the decoded frame. */
  function PacketWith(buffer: seq<uint8>, offset: int, decode: FrameDecoder): (r: Result<Option<PcapPacket>, FormatError>)
    ensures r.Failure? <==> 0 <= offset <= |buffer| < offset + 12
    ensures r.Success? && r.value.Some? <==>
      var record := RecordAt(buffer, offset);
      record.Success? && record.value.Some? && decode(record.value.value.frame, record.value.value.seconds, record.value.value.micros).Some?
  {
    match RecordAt(buffer, offset)
    case Failure(e) => Failure(e)
    case Success(None) => Success(None)
    case Success(Some(record)) => Success(decode(record.frame, record.seconds, record.micros))
  }

  /** What `parsePacket` returns at `offset`: the record's frame decoded by
      `parseEthernetPacket`. */
  function PacketAt(buffer: seq<uint8>, offset: int): (r: Result<Option<PcapPacket>, FormatError>)
    ensures r.Failure? <==> 0 <= offset <= |buffer| < offset + 12
    ensures r.Success? && r.value.Some? ==>
      && 0 <= offset && offset + PACKET_HEADER_SIZE + r.value.value.length <= |buffer|
      && r.value.value.length == U32LE(buffer, offset + 8) >= ETHERNET_HEADER_SIZE
    ensures r.Success? && r.value.Some? <==>
      var record := RecordAt(buffer, offset);
      record.Success? && record.value.Some? && Decodes(record.value.value.frame)
    ensures r.Success? && r.value.Some? ==> r.value.value.length == |RecordAt(buffer, offset).value.value.frame|
  {
    PacketWith(buffer, offset, EthernetFrame)
  }

  /** Whether `parseEthernetPacket` decodes `frame` rather than returning `null`. */
  predicate Decodes(frame: seq<uint8>)
  {
    |frame| >= ETHERNET_HEADER_SIZE && !IsVlan(U16BE(frame, 12))
  }

  /** The packets the loop of `parsePcapFile` collects from `offset` on, its
      frames decoded by `decode`: it stops when fewer than 16 bytes remain
      or `parsePacket` gives `null`, and after a packet of length 0. */
  function WalkWith(buffer: seq<uint8>, offset: nat, decode: FrameDecoder): (packets: seq<PcapPacket>)
    ensures |packets| == 0 || offset + PACKET_HEADER_SIZE * |packets| <= |buffer|
    decreases |buffer| - offset
  {
    if offset + PACKET_HEADER_SIZE > |buffer| then []
    else
      match PacketWith(buffer, offset, decode)
      case Success(Some(p)) =>
        if p.length == 0 then [p]
        else [p] + WalkWith(buffer, offset + PACKET_HEADER_SIZE + p.length, decode)
      case _ => []
  }

  /** One turn of the record loop: the packet at `offset` comes first, and
      unless its length is 0 the walk goes on past its frame. */
  lemma WalkWithStep(buffer: seq<uint8>, offset: nat, decode: FrameDecoder, p: PcapPacket)
    requires offset + PACKET_HEADER_SIZE <= |buffer|
    requires PacketWith(buffer, offset, decode) == Success(Some(p))
    ensures p.length == 0 ==> WalkWith(buffer, offset, decode) == [p]
    ensures p.length != 0 ==>
      WalkWith(buffer, offset, decode) == [p] + WalkWith(buffer, offset + PACKET_HEADER_SIZE + p.length, decode)
  {
  }

  /** One turn of the record loop on the packets `done` before it: pushing
      the packet at `offset` and walking on past its frame gives the same
      packets as walking from `offset`. */
  lemma WalkWithPush(buffer: seq<uint8>, offset: nat, decode: FrameDecoder, p: PcapPacket, done: seq<PcapPacket>)
    requires offset + PACKET_HEADER_SIZE <= |buffer|
    requires PacketWith(buffer, offset, decode) == Success(Some(p))
    ensures p.length == 0 ==> done + [p] == done + WalkWith(buffer, offset, decode)
    ensures p.length != 0 ==>
      done + [p] + WalkWith(buffer, offset + PACKET_HEADER_SIZE + p.length, decode) == done + WalkWith(buffer, offset, decode)
  {
    WalkWithStep(buffer, offset, decode, p);
    assert done + [p] + WalkWith(buffer, offset + PACKET_HEADER_SIZE + p.length, decode)
        == done + ([p] + WalkWith(buffer, offset + PACKET_HEADER_SIZE + p.length, decode));
  }

  /** The packets of `parsePcapFile`: the record loop with the Ethernet decoder. */
  function Records(buffer: seq<uint8>): (packets: seq<PcapPacket>)
    ensures |packets| == 0 || PCAP_HEADER_SIZE + PACKET_HEADER_SIZE * |packets| <= |buffer|
  {
    WalkWith(buffer, PCAP_HEADER_SIZE, EthernetFrame)
  }

  /** What `parsePcapFile` returns: the header errors, or the packets of the
      record loop with their summary and the hex dump of the whole buffer. */
  function PcapFile(buffer: seq<uint8>): (r: Result<PcapData, ParseError>)
    ensures r.Failure? <==> |buffer| < PCAP_HEADER_SIZE || U32BE(buffer, 0) !in VALID_MAGICS
    ensures r.Failure? ==> (r.error == HeaderTooSmall <==> |buffer| < PCAP_HEADER_SIZE)
  {
    if |buffer| < PCAP_HEADER_SIZE then Failure(HeaderTooSmall)
    else
      match ValidatePcapHeader(buffer)
      case Fail(e) => Failure(e)
      case Pass =>
        var packets := Records(buffer);
        Success(PcapData(packets, Summarize(packets, TOP_N), ArrayToHexString(buffer)))
  }
}
