/** Properties of the capture decoder of `PcapParser`: how the record loop
    uses the buffer, and how frames are labelled. */
module PcapFacts {
  import opened Wrappers
  import opened Text
  import opened FormatUtils
  import opened PcapTypes
  import opened PcapParser

  // ---------------------------------------------------------------------------
  // The record loop
  // ---------------------------------------------------------------------------

  /** The bytes the packets occupy in the file: a 16-byte record header and the frame each. */
  function Footprint(packets: seq<PcapPacket>): nat
  {
    if packets == [] then 0 else PACKET_HEADER_SIZE + packets[0].length + Footprint(packets[1..])
  }

  lemma FootprintCons(p: PcapPacket, rest: seq<PcapPacket>)
    ensures Footprint([p] + rest) == PACKET_HEADER_SIZE + p.length + Footprint(rest)
  {
    assert ([p] + rest)[1..] == rest;
  }

  /** What the record loop guarantees of each packet it keeps. */
  predicate WellFormed(p: PcapPacket)
  {
    p.length >= ETHERNET_HEADER_SIZE && p.flags.Some? && p.timestamp.micros <= 999999 && PlainLabel(p.protocol)
  }

  /** A character a protocol label is made of: a letter, a digit or a parenthesis. */
  predicate IsLabelChar(c: char)
  {
    'A' <= c <= 'Z' || 'a' <= c <= 'z' || '0' <= c <= '9' || c == '(' || c == ')'
  }

  predicate PlainLabel(tag: string)
  {
    forall i :: 0 <= i < |tag| ==> IsLabelChar(tag[i])
  }

  /** Below 16 remaining bytes no record header is read, so `readUint32`
      never throws inside the loop. */
  lemma RecordReadInBounds(buffer: seq<uint8>, offset: nat)
    requires offset + PACKET_HEADER_SIZE <= |buffer|
    ensures PacketAt(buffer, offset).Success?
    ensures RecordAt(buffer, offset).Success?
  {
  }

  /** An empty record (captured length 0) ends the walk. */
  lemma EmptyRecordStops(buffer: seq<uint8>, offset: nat)
    requires offset + PACKET_HEADER_SIZE <= |buffer|
    requires U32LE(buffer, offset + 8) == 0
    ensures WalkWith(buffer, offset, EthernetFrame) == []
  {
    assert RecordAt(buffer, offset).value.None?;
  }

  /** A record whose frame runs past the end of the buffer ends the walk. */
  lemma TruncatedRecordStops(buffer: seq<uint8>, offset: nat)
    requires offset + PACKET_HEADER_SIZE <= |buffer| < offset + PACKET_HEADER_SIZE + U32LE(buffer, offset + 8)
    ensures WalkWith(buffer, offset, EthernetFrame) == []
  {
    assert RecordAt(buffer, offset).value.None?;
  }

  /** A frame `parseEthernetPacket` turns into `null` ends the walk. */
  lemma NullFrameStops(buffer: seq<uint8>, offset: nat)
    requires offset + PACKET_HEADER_SIZE <= |buffer|
    requires RecordAt(buffer, offset).value.Some?
    requires !Decodes(RecordAt(buffer, offset).value.value.frame)
    ensures WalkWith(buffer, offset, EthernetFrame) == []
  {
    assert PacketAt(buffer, offset).value.None?;
  }

  /** Every packet kept from `offset` on fits the buffer: the headers and
      frames the walk steps over never pass its end. */
  lemma {:induction false} WalkFits(buffer: seq<uint8>, offset: nat)
    requires offset <= |buffer|
    ensures offset + Footprint(WalkWith(buffer, offset, EthernetFrame)) <= |buffer|
    decreases |buffer| - offset
  {
    if offset + PACKET_HEADER_SIZE <= |buffer| {
      var r := PacketAt(buffer, offset);
      if r.value.Some? {
        var p := r.value.value;
        var next := offset + PACKET_HEADER_SIZE + p.length;
        WalkWithStep(buffer, offset, EthernetFrame, p);
        WalkFits(buffer, next);
        FootprintCons(p, WalkWith(buffer, next, EthernetFrame));
      }
    }
  }

  /** Every packet kept from `offset` on is at least an Ethernet header long,
      has its flag list and a clamped microsecond count. */
  lemma {:induction false} WalkWellFormed(buffer: seq<uint8>, offset: nat)
    ensures forall p | p in WalkWith(buffer, offset, EthernetFrame) :: WellFormed(p)
    decreases |buffer| - offset
  {
    if offset + PACKET_HEADER_SIZE <= |buffer| {
      var r := PacketAt(buffer, offset);
      if r.value.Some? {
        var p := r.value.value;
        var next := offset + PACKET_HEADER_SIZE + p.length;
        FramePacketWellFormed(buffer, offset);
        WalkWithStep(buffer, offset, EthernetFrame, p);
        WalkWellFormed(buffer, next);
      }
    }
  }

  /** The packet decoded at one offset satisfies `WellFormed`. */
  lemma FramePacketWellFormed(buffer: seq<uint8>, offset: nat)
    requires PacketAt(buffer, offset).Success? && PacketAt(buffer, offset).value.Some?
    ensures WellFormed(PacketAt(buffer, offset).value.value)
  {
    var record := RecordAt(buffer, offset).value.value;
    FrameTimestamp(record.frame, record.seconds, record.micros);
    FrameLabelPlain(record.frame, record.seconds, record.micros);
  }

  /** The packets of a file lie after its 24-byte global header, one record
      after another: 24 + the sum of (16 + length) is at most the buffer length. */
  lemma RecordsFit(buffer: seq<uint8>)
    requires |buffer| >= PCAP_HEADER_SIZE
    ensures PCAP_HEADER_SIZE + Footprint(Records(buffer)) <= |buffer|
  {
    WalkFits(buffer, PCAP_HEADER_SIZE);
  }

  /** Every packet of a file is well formed. */
  lemma RecordsWellFormed(buffer: seq<uint8>)
    ensures forall p | p in Records(buffer) :: WellFormed(p)
  {
    WalkWellFormed(buffer, PCAP_HEADER_SIZE);
  }

  // ---------------------------------------------------------------------------
  // Frame fields
  // ---------------------------------------------------------------------------

  /** The capture time is kept, the microseconds clamped to 999999. */
  lemma FrameTimestamp(data: seq<uint8>, timestamp: nat, microSeconds: nat)
    requires |data| >= ETHERNET_HEADER_SIZE
    ensures var t := FrameFields(data, timestamp, microSeconds).timestamp;
      && t.seconds == timestamp
      && t.micros <= 999999
      && (microSeconds <= 999999 ==> t.micros == microSeconds)
  {
  }

  /** Whether the frame carries an IPv4 header `parseIpPacket` accepts. */
  predicate CarriesIpv4(data: seq<uint8>)
    requires |data| >= ETHERNET_HEADER_SIZE
  {
    U16BE(data, 12) == 0x0800 && |data| >= ETHERNET_HEADER_SIZE + IP_HEADER_MIN_SIZE && data[14] / 16 == 4
  }

  /** The IPv4 branch yields the view of `parseIpPacket` exactly when the frame carries IPv4. */
  lemma Ipv4InfoPresent(data: seq<uint8>)
    requires |data| >= ETHERNET_HEADER_SIZE
    ensures var et := U16BE(data, 12);
      var info := (if et == 0x0800 then Ipv4FieldsOf(data) else NO_IPV4_FIELDS).info;
      info.Some? <==> CarriesIpv4(data)
  {
    if U16BE(data, 12) == 0x0800 && |data| >= ETHERNET_HEADER_SIZE + IP_HEADER_MIN_SIZE {
      assert data[14..][0] == data[14];
    }
  }

  /** The labels `parseIpPacket` gives never coincide with the EtherType labels. */
  lemma IpLabelIsNotEtherLabel(ip: seq<uint8>)
    requires IpPacket(ip).Some?
    ensures var tag := IpPacket(ip).value.protocol;
      tag != "ARP" && tag != "IPv6" && tag != "Unknown"
  {
    var tag := IpPacket(ip).value.protocol;
    if ip[9] !in {1, 6, 17} {
      assert tag[0] == 'I' && tag[1] == 'P' && tag[2] == '(';
    }
  }

  /** A frame without IPv4 is addressed by its MAC pair, swapped: `source`
      is the destination MAC and `destination` the source MAC. It has no
      port and an empty flag list. */
  lemma NonIpv4SwapsMacs(data: seq<uint8>, timestamp: nat, microSeconds: nat)
    requires |data| >= ETHERNET_HEADER_SIZE && !CarriesIpv4(data)
    ensures var p := FrameFields(data, timestamp, microSeconds);
      && p.source == p.dstMac.value == FormatMacAddress(data[0..6]).value
      && p.destination == p.srcMac.value == FormatMacAddress(data[6..12]).value
      && p.port.None? && p.flags == Some([])
  {
    Ipv4InfoPresent(data);
  }

  /** An IPv4 frame takes its addresses, port and flags from `parseIpPacket`. */
  lemma Ipv4Addresses(data: seq<uint8>, timestamp: nat, microSeconds: nat)
    requires |data| >= ETHERNET_HEADER_SIZE && CarriesIpv4(data)
    ensures var p := FrameFields(data, timestamp, microSeconds);
      var info := IpPacket(data[14..]).value;
      && p.source == info.source && p.destination == info.destination
      && p.protocol == info.protocol && p.port == info.port && p.flags == Some(info.flags)
  {
    Ipv4InfoPresent(data);
  }

  /** EtherType 0x0806 is, and is the only frame, labelled ARP. */
  lemma ArpLabel(data: seq<uint8>, timestamp: nat, microSeconds: nat)
    requires |data| >= ETHERNET_HEADER_SIZE
    ensures FrameFields(data, timestamp, microSeconds).protocol == "ARP" <==> U16BE(data, 12) == 0x0806
  {
    LabelCases(data, timestamp, microSeconds);
  }

  /** EtherType 0x86DD is, and is the only frame, labelled IPv6. */
  lemma Ipv6Label(data: seq<uint8>, timestamp: nat, microSeconds: nat)
    requires |data| >= ETHERNET_HEADER_SIZE
    ensures FrameFields(data, timestamp, microSeconds).protocol == "IPv6" <==> U16BE(data, 12) == 0x86DD
  {
    LabelCases(data, timestamp, microSeconds);
  }

  /** A frame is labelled Unknown exactly when it is neither ARP, nor IPv6,
      nor carries IPv4; this includes EtherType 0x0800 with a short or
      non-version-4 IP header. */
  lemma UnknownLabel(data: seq<uint8>, timestamp: nat, microSeconds: nat)
    requires |data| >= ETHERNET_HEADER_SIZE
    ensures FrameFields(data, timestamp, microSeconds).protocol == "Unknown" <==>
      U16BE(data, 12) != 0x0806 && U16BE(data, 12) != 0x86DD && !CarriesIpv4(data)
  {
    LabelCases(data, timestamp, microSeconds);
  }

  /** The tag of a frame: the IPv4 tag when it carries IPv4, otherwise by EtherType. */
  lemma LabelCases(data: seq<uint8>, timestamp: nat, microSeconds: nat)
    requires |data| >= ETHERNET_HEADER_SIZE
    ensures var tag := FrameFields(data, timestamp, microSeconds).protocol;
      var et := U16BE(data, 12);
      && (CarriesIpv4(data) ==> tag == IpPacket(data[14..]).value.protocol && tag != "ARP" && tag != "IPv6" && tag != "Unknown")
      && (!CarriesIpv4(data) ==> tag == (if et == 0x0806 then "ARP" else if et == 0x86DD then "IPv6" else "Unknown"))
  {
    Ipv4InfoPresent(data);
    if CarriesIpv4(data) {
      IpLabelIsNotEtherLabel(data[14..]);
    }
  }

  /** Every label the decoder gives a frame is made of letters, digits and
      parentheses. */
  lemma FrameLabelPlain(data: seq<uint8>, timestamp: nat, microSeconds: nat)
    requires |data| >= ETHERNET_HEADER_SIZE
    ensures PlainLabel(FrameFields(data, timestamp, microSeconds).protocol)
  {
    LabelCases(data, timestamp, microSeconds);
    if CarriesIpv4(data) {
      IpLabelPlain(data[14..]);
    } else {
      FixedLabelsPlain();
    }
  }

  lemma FixedLabelsPlain()
    ensures PlainLabel("ARP") && PlainLabel("IPv6") && PlainLabel("Unknown")
    ensures PlainLabel("ICMP") && PlainLabel("UDP") && PlainLabel("SMTP") && PlainLabel("TCP")
  {
  }

  /** The IPv4 labels: four fixed names and `IP(n)` with n in decimal. */
  lemma IpLabelPlain(ip: seq<uint8>)
    requires IpPacket(ip).Some?
    ensures PlainLabel(IpPacket(ip).value.protocol)
  {
    IpLabelShape(ip);
    FixedLabelsPlain();
    var digits := NatToString(ip[9], 10);
    DecimalLabelPlain(digits);
  }

  lemma DecimalLabelPlain(digits: string)
    requires forall i :: 0 <= i < |digits| ==> IsDigitChar(digits[i])
    ensures PlainLabel("IP(" + digits + ")")
  {
    var other := "IP(" + digits + ")";
    forall i | 0 <= i < |other|
      ensures IsLabelChar(other[i])
    {
      if 3 <= i < |other| - 1 {
        assert other[i] == digits[i - 3];
      }
    }
  }

  // ---------------------------------------------------------------------------
  // IPv4 labels
  // ---------------------------------------------------------------------------

  /** Whether `parseIpPacket` sees an SMTP segment: TCP, a full 20-byte TCP
      header, destination port 25. */
  predicate IsSmtp(ip: seq<uint8>)
    requires |ip| >= IP_HEADER_MIN_SIZE
  {
    ip[9] == 6 && |ip| >= IP_HEADER_MIN_SIZE + TCP_HEADER_SIZE && U16BE(ip, 22) == 25
  }

  /** Protocol 1 is, and is the only protocol, labelled ICMP. */
  lemma IcmpLabel(ip: seq<uint8>)
    requires IpPacket(ip).Some?
    ensures IpPacket(ip).value.protocol == "ICMP" <==> ip[9] == 1
  {
    IpLabelShape(ip);
  }

  /** Protocol 17 is, and is the only protocol, labelled UDP. */
  lemma UdpLabel(ip: seq<uint8>)
    requires IpPacket(ip).Some?
    ensures IpPacket(ip).value.protocol == "UDP" <==> ip[9] == 17
  {
    IpLabelShape(ip);
  }

  /** A TCP segment to port 25 with a full TCP header is labelled SMTP, and nothing else is. */
  lemma SmtpLabel(ip: seq<uint8>)
    requires IpPacket(ip).Some?
    ensures IpPacket(ip).value.protocol == "SMTP" <==> IsSmtp(ip)
  {
    IpLabelShape(ip);
  }

  /** Every other TCP segment is labelled TCP, and nothing else is. */
  lemma TcpLabel(ip: seq<uint8>)
    requires IpPacket(ip).Some?
    ensures IpPacket(ip).value.protocol == "TCP" <==> ip[9] == 6 && !IsSmtp(ip)
  {
    IpLabelShape(ip);
  }

  /** Any other protocol number n is labelled `IP(n)`, in decimal. */
  lemma OtherLabel(ip: seq<uint8>)
    requires IpPacket(ip).Some?
    ensures IpPacket(ip).value.protocol == "IP(" + NatToString(ip[9], 10) + ")" <==> ip[9] !in {1, 6, 17}
  {
    IpLabelShape(ip);
  }

  /** The labels, each told apart from the others by its first two characters. */
  lemma IpLabelShape(ip: seq<uint8>)
    requires IpPacket(ip).Some?
    ensures var tag := IpPacket(ip).value.protocol;
      var other := "IP(" + NatToString(ip[9], 10) + ")";
      && (ip[9] == 1 <==> tag == "ICMP")
      && (ip[9] == 17 <==> tag == "UDP")
      && (IsSmtp(ip) <==> tag == "SMTP")
      && (ip[9] == 6 && !IsSmtp(ip) <==> tag == "TCP")
      && (ip[9] !in {1, 6, 17} <==> tag == other)
  {
    var other := "IP(" + NatToString(ip[9], 10) + ")";
    assert other[0] == 'I' && other[1] == 'P';
  }

  /** A TCP segment with a full header reports its source port and the flags
      of byte 13 of the TCP header; a shorter one neither. */
  lemma TcpPortAndFlags(ip: seq<uint8>)
    requires IpPacket(ip).Some? && ip[9] == 6
    ensures var info := IpPacket(ip).value;
      && (info.port.Some? <==> |ip| >= IP_HEADER_MIN_SIZE + TCP_HEADER_SIZE)
      && (info.port.Some? ==> info.port.value == U16BE(ip, 20) && info.flags == TcpFlags(ip[33]))
      && (info.port.None? ==> info.flags == [])
  {
  }

  /** A UDP datagram with a full 8-byte header reports its source port; nothing else but TCP has a port. */
  lemma UdpPort(ip: seq<uint8>)
    requires IpPacket(ip).Some? && ip[9] != 6
    ensures var info := IpPacket(ip).value;
      && (info.port.Some? <==> ip[9] == 17 && |ip| >= IP_HEADER_MIN_SIZE + 8)
      && (info.port.Some? ==> info.port.value == U16BE(ip, 20))
      && info.flags == []
  {
  }
}
