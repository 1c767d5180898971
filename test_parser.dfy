/** The second copy of the decoder, the class `PcapParser` of
    example/angularjs/test-parser.js. It differs from the main decoder in
    four ways: record headers are read big-endian, a TCP flag byte above 63
    makes the whole parse throw, the hex dump is upper-case, and the top
    lists hold five entries. Its packets carry none of the low-level header
    fields. Its address formatters compute the same strings as those of
    `FormatUtils` on the six- and four-byte slices they are given, so those
    are used here. */
module TestParser {
  import opened Wrappers
  import opened Text
  import opened FormatUtils
  import opened PcapTypes
  import opened PcapSummary
  import opened PcapParser

  /** The length of the top-source and top-destination lists of this copy. */
  const TEST_TOP_N: nat := 5

  /** What this copy throws. */
  datatype TestError =
    | Header(cause: ParseError)    // the header errors of the main decoder
    | RangeError                   // a `DataView` opened past the end of the buffer
    | InvalidTcpFlags(flags: int)  // a flag value outside 0..63

  /** What this copy's `parsePcapFile` returns: the packets and their summary. */
  datatype TestData = TestData(packets: seq<PcapPacket>, summary: Summary)

  // ---------------------------------------------------------------------------
  // Bytes
  // ---------------------------------------------------------------------------

  /** `readUint32` of this copy: a `DataView` over four bytes, read big-endian;
      the view cannot be opened past the end of the buffer. The value is the
      one the main decoder's little-endian read gives for the bytes reversed. */
  function ReadUint32BE(buffer: seq<uint8>, offset: int): (r: Result<nat, TestError>)
    ensures r.Failure? <==> offset < 0 || offset + 4 > |buffer|
    ensures r.Failure? ==> r.error == RangeError
    ensures r.Success? ==>
      r == Success(ReadUint32([buffer[offset + 3], buffer[offset + 2], buffer[offset + 1], buffer[offset]], 0).value)
  {
    if offset < 0 || offset + 4 > |buffer| then Failure(RangeError)
    else Success(U32BE(buffer, offset))
  }

  /** The same record-header bytes 00 00 00 3c are 60 here and 0x3c000000 in the main decoder. */
  lemma ByteOrderExample()
    ensures ReadUint32BE([0, 0, 0, 0x3c], 0) == Success(60)
    ensures ReadUint32([0, 0, 0, 0x3c], 0) == Success(0x3c00_0000)
  {
  }

  /** `arrayToHexString` of this copy: the main hex dump, upper-cased. */
  function UpperHexString(data: seq<uint8>): (r: string)
    ensures |r| == |ArrayToHexString(data)|
  {
    ToUpper(ArrayToHexString(data))
  }

  /** The upper-case dump still reads back to the bytes it was made from. */
  lemma UpperHexRoundTrip(data: seq<uint8>)
    ensures ParseHexString(UpperHexString(data)) == Some(data)
  {
    if |data| > 0 {
      var parts := HexPairs(data);
      var up := seq(|parts|, i requires 0 <= i < |parts| => ToUpper(parts[i]));
      ToUpperJoin(parts, " ");
      assert ToUpper(" ") == " ";
      forall i | 0 <= i < |up|
        ensures ' ' !in up[i] && |up[i]| == 2 && ParseNat(up[i], 16) == Some(data[i] as int)
      {
        assert parts[i] == Hex2(data[i]);
        UpperHex2(data[i]);
      }
      SplitJoin(up, ' ');
      ParseTokensAll(up, 16, data);
      HexStringLayout(data);
      var s := UpperHexString(data);
      assert s == Join(up, [' ']) && s != "";
      assert Split(s, ' ') == up;
    }
  }

  // ---------------------------------------------------------------------------
  // TCP flags
  // ---------------------------------------------------------------------------

  /** `parseTcpFlags` of this copy: throws outside 0..63, with no masking;
      otherwise the same names as the main decoder's. */
  function CheckedTcpFlags(flags: int): (r: Result<seq<string>, TestError>)
    ensures r.Failure? <==> flags < 0 || flags > 63
    ensures r.Failure? ==> r.error == InvalidTcpFlags(flags)
    ensures r.Success? ==> r.value == TcpFlags(flags)
  {
    if flags < 0 || flags > 63 then Failure(InvalidTcpFlags(flags))
    else
      assert flags % 0x40 == flags;
      Success(FlagsBelow(flags, 6))
  }

  /** `parseTcpFlags` of this copy: the range check, then the `activeFlags` loop. */
  method ParseCheckedTcpFlags(flags: int) returns (r: Result<seq<string>, TestError>)
    ensures r == CheckedTcpFlags(flags)
  {
    if flags < 0 || flags > 63 {
      return Failure(InvalidTcpFlags(flags));
    }
    var activeFlags: seq<string> := [];
    for i := 0 to |TCP_FLAG_NAMES|
      invariant activeFlags == FlagsBelow(flags, i)
    {
      if BitSet(flags, i) {
        activeFlags := activeFlags + [TCP_FLAG_NAMES[i]];
      }
    }
    r := Success(activeFlags);
  }

  // ---------------------------------------------------------------------------
  // IPv4
  // ---------------------------------------------------------------------------

  /** Whether `parseIpPacket` of this copy throws: an IPv4 TCP segment with a
      full header whose flag byte is above 63. */
  predicate FlagsRejected(ip: seq<uint8>)
  {
    |ip| >= IP_HEADER_MIN_SIZE + TCP_HEADER_SIZE && ip[0] / 16 == 4 && ip[9] == 6 && ip[33] > 63
  }

  /** `parseIpPacket` of this copy: throws exactly on a rejected flag byte. */
  function TestIp(ip: seq<uint8>): (r: Result<Option<IpInfo>, TestError>)
    ensures r.Failure? <==> FlagsRejected(ip)
    ensures r.Failure? ==> r.error == InvalidTcpFlags(ip[33])
  {
    if |ip| < 20 || ip[0] / 16 != 4 then Success(None)
    else
      var source := FormatIpAddress(ip[12..16]).value;
      var destination := FormatIpAddress(ip[16..20]).value;
      match ip[9]
      case 1 => Success(Some(IpInfo("ICMP", source, destination, None, [])))
      case 6 =>
        if |ip| < IP_HEADER_MIN_SIZE + TCP_HEADER_SIZE then Success(Some(IpInfo("TCP", source, destination, None, [])))
        else
          (match CheckedTcpFlags(ip[33])
           case Failure(e) => Failure(e)
           case Success(flags) =>
             Success(Some(IpInfo(if U16BE(ip, 22) == 25 then "SMTP" else "TCP", source, destination, Some(U16BE(ip, 20)), flags))))
      case 17 => Success(Some(IpInfo("UDP", source, destination, if |ip| >= 28 then Some(U16BE(ip, 20)) else None, [])))
      case n => Success(Some(IpInfo("IP(" + NatToString(n, 10) + ")", source, destination, None, [])))
  }

  /** Apart from the flag error, this copy's `parseIpPacket` returns what the main decoder's does. */
  lemma TestIpAgrees(ip: seq<uint8>)
    requires !FlagsRejected(ip)
    ensures TestIp(ip) == Success(IpPacket(ip))
  {
  }

  /** An IPv4 header: the flag error, or one `IpInfo` whose label, port and
      flags are chosen by protocol number as the `switch` of `parseIpPacket` does. */
  lemma TestIpCases(ip: seq<uint8>)
    requires |ip| >= IP_HEADER_MIN_SIZE && ip[0] / 16 == 4
    ensures FlagsRejected(ip) ==> TestIp(ip) == Failure(InvalidTcpFlags(ip[33]))
    ensures !FlagsRejected(ip) ==>
      var tcpFull := ip[9] == 6 && |ip| >= IP_HEADER_MIN_SIZE + TCP_HEADER_SIZE;
      TestIp(ip) == Success(Some(IpInfo(
        if ip[9] == 1 then "ICMP"
        else if ip[9] == 6 then (if tcpFull && U16BE(ip, 22) == 25 then "SMTP" else "TCP")
        else if ip[9] == 17 then "UDP"
        else "IP(" + NatToString(ip[9], 10) + ")",
        FormatIpAddress(ip[12..16]).value, FormatIpAddress(ip[16..20]).value,
        if tcpFull || (ip[9] == 17 && |ip| >= 28) then Some(U16BE(ip, 20)) else None,
        if tcpFull then CheckedTcpFlags(ip[33]).value else [])))
  {
  }

  /** `parseIpPacket` of this copy, with its `let` fields updated in the `switch`. */
  method ParseTestIp(ipData: seq<uint8>) returns (r: Result<Option<IpInfo>, TestError>)
    ensures r == TestIp(ipData)
  {
    if |ipData| < 20 {
      return Success(None);
    }
    var ipVersion := (ipData[0] / 16) % 0x10;
    if ipVersion != 4 {
      return Success(None);
    }
    var ipProtocol := ipData[9];
    var source := FormatIpAddress(ipData[12..16]).value;
    var destination := FormatIpAddress(ipData[16..20]).value;
    var protocol := "Unknown";
    var port: Option<nat> := None;
    var flags: seq<string> := [];
    TestIpCases(ipData);
    if ipProtocol == 1 {
      protocol := "ICMP";
    } else if ipProtocol == 6 {
      protocol := "TCP";
      var tcpStart := IP_HEADER_MIN_SIZE;
      var tcpMinLength := tcpStart + TCP_HEADER_SIZE;
      if |ipData| >= tcpMinLength {
        var tcpData := ipData[tcpStart..];
        assert tcpData[13] == ipData[33];
        assert U16BE(tcpData, 0) == U16BE(ipData, 20) && U16BE(tcpData, 2) == U16BE(ipData, 22);
        var srcPort := U16BE(tcpData, 0);
        var dstPort := U16BE(tcpData, 2);
        port := Some(srcPort);
        var parsed := ParseCheckedTcpFlags(tcpData[13]);
        if parsed.Failure? {
          return Failure(parsed.error);
        }
        flags := parsed.value;
        if dstPort == 25 {
          protocol := "SMTP";
        }
      }
    } else if ipProtocol == 17 {
      protocol := "UDP";
      var udpStart := IP_HEADER_MIN_SIZE;
      var udpMinLength := udpStart + 8;
      if |ipData| >= udpMinLength {
        var udpData := ipData[udpStart..];
        assert U16BE(udpData, 0) == U16BE(ipData, 20);
        port := Some(U16BE(udpData, 0));
      }
    } else {
      protocol := "IP(" + NatToString(ipProtocol, 10) + ")";
    }
    r := Success(Some(IpInfo(protocol, source, destination, port, flags)));
  }

  // ---------------------------------------------------------------------------
  // Ethernet II
  // ---------------------------------------------------------------------------

  /** Whether `parseEthernetPacket` of this copy throws: an IPv4 frame whose
      TCP flag byte, frame byte 47, is above 63. */
  predicate FrameFlagsRejected(data: seq<uint8>)
  {
    |data| >= ETHERNET_HEADER_SIZE + IP_HEADER_MIN_SIZE + TCP_HEADER_SIZE
    && U16BE(data, 12) == 0x0800 && data[14] / 16 == 4 && data[23] == 6 && data[47] > 63
  }

  /** `parseEthernetPacket` of this copy: `null` for a short frame or a VLAN
      tag; the flag error of `parseIpPacket`; otherwise the packet with the
      upper-case dump and no low-level fields. */
  function TestFrame(data: seq<uint8>, timestamp: nat, microSeconds: nat): (r: Result<Option<PcapPacket>, TestError>)
    ensures r.Failure? <==> FrameFlagsRejected(data)
    ensures r.Success? ==> (r.value.None? <==> |data| < 14 || IsVlan(U16BE(data, 12)))
  {
    if |data| < ETHERNET_HEADER_SIZE then Success(None)
    else
      var sourceMac := FormatMacAddress(data[6..12]).value;
      var destMac := FormatMacAddress(data[0..6]).value;
      var et := U16BE(data, 12);
      if IsVlan(et) then Success(None)
      else
        var ip := if et == 0x0800 && |data| >= ETHERNET_HEADER_SIZE + IP_HEADER_MIN_SIZE then TestIp(data[14..]) else Success(None);
        if ip.Failure? then Failure(ip.error)
        else
          var info := ip.value;
          Success(Some(PcapPacket(
            source := if info.Some? then info.value.source else destMac,
            destination := if info.Some? then info.value.destination else sourceMac,
            protocol :=
              if info.Some? then info.value.protocol
              else if et == 0x0806 then "ARP"
              else if et == 0x86DD then "IPv6"
              else "Unknown",
            length := |data|,
            port := if info.Some? then info.value.port else None,
            flags := Some(if info.Some? then info.value.flags else []),
            data := UpperHexString(data),
            srcMac := None, dstMac := None, etherType := None,
            ipTtl := None, ipId := None, ipChecksum := None,
            tcpSeq := None, tcpAck := None, tcpWin := None, tcpChecksum := None,
            udpLen := None, udpChecksum := None,
            timestamp := Timestamp(timestamp, if microSeconds > 999999 then 999999 else microSeconds))))
  }

  /** `parseEthernetPacket` of this copy, its `let` fields reassigned as the frame is read. */
  method ParseTestEthernet(data: seq<uint8>, timestamp: nat, microSeconds: nat) returns (r: Result<Option<PcapPacket>, TestError>)
    ensures r == TestFrame(data, timestamp, microSeconds)
  {
    if |data| < ETHERNET_HEADER_SIZE {
      return Success(None);
    }
    var safeMicroSeconds := if microSeconds > 999999 then 999999 else microSeconds;
    var sourceMac := FormatMacAddress(data[6..12]).value;
    var destMac := FormatMacAddress(data[0..6]).value;
    var etherType := U16BE(data, 12);
    var protocol := "Unknown";
    var transportSource := destMac;
    var transportDestination := sourceMac;
    var port: Option<nat> := None;
    var flags: seq<string> := [];
    if etherType == 0x8100 || etherType == 0x88a8 {
      return Success(None);
    }
    if etherType == 0x0800 {
      var ipHeaderStart := ETHERNET_HEADER_SIZE;
      if |data| >= ipHeaderStart + IP_HEADER_MIN_SIZE {
        var ipPacket := ParseTestIp(data[ipHeaderStart..]);
        if ipPacket.Failure? {
          return Failure(ipPacket.error);
        }
        if ipPacket.value.Some? {
          protocol := ipPacket.value.value.protocol;
          transportSource := ipPacket.value.value.source;
          transportDestination := ipPacket.value.value.destination;
          port := ipPacket.value.value.port;
          flags := ipPacket.value.value.flags;
        }
      }
    } else if etherType == 0x0806 {
      protocol := "ARP";
    } else if etherType == 0x86DD {
      protocol := "IPv6";
    }
    r := Success(Some(PcapPacket(
      source := transportSource, destination := transportDestination, protocol := protocol,
      length := |data|, port := port, flags := Some(flags), data := UpperHexString(data),
      srcMac := None, dstMac := None, etherType := None,
      ipTtl := None, ipId := None, ipChecksum := None,
      tcpSeq := None, tcpAck := None, tcpWin := None, tcpChecksum := None,
      udpLen := None, udpChecksum := None,
      timestamp := Timestamp(timestamp, safeMicroSeconds))));
  }

  /** A packet of the main decoder as this copy builds it: upper-case dump,
      no low-level fields. */
  function Slim(p: PcapPacket): PcapPacket
  {
    p.(data := ToUpper(p.data), srcMac := None, dstMac := None, etherType := None,
       ipTtl := None, ipId := None, ipChecksum := None,
       tcpSeq := None, tcpAck := None, tcpWin := None, tcpChecksum := None,
       udpLen := None, udpChecksum := None)
  }

  /** Unless it throws, this copy decodes a frame as the main decoder does,
      up to `Slim`: the same `null`s, labels, addresses, port, flags, length
      and capture time. */
  lemma TestFrameAgrees(data: seq<uint8>, timestamp: nat, microSeconds: nat)
    requires !FrameFlagsRejected(data)
    ensures var main := EthernetFrame(data, timestamp, microSeconds);
      TestFrame(data, timestamp, microSeconds) == Success(if main.None? then None else Some(Slim(main.value)))
  {
    if |data| >= ETHERNET_HEADER_SIZE && !IsVlan(U16BE(data, 12)) {
      SlimFrame(data, timestamp, microSeconds);
    }
  }

  lemma SlimFrame(data: seq<uint8>, timestamp: nat, microSeconds: nat)
    requires |data| >= ETHERNET_HEADER_SIZE && !IsVlan(U16BE(data, 12)) && !FrameFlagsRejected(data)
    ensures TestFrame(data, timestamp, microSeconds) == Success(Some(Slim(FrameFields(data, timestamp, microSeconds))))
  {
    var et := U16BE(data, 12);
    if et == 0x0800 && |data| >= ETHERNET_HEADER_SIZE + IP_HEADER_MIN_SIZE {
      var ip := data[14..];
      assert ip[0] == data[14] && ip[9] == data[23];
      assert |ip| >= IP_HEADER_MIN_SIZE + TCP_HEADER_SIZE ==> ip[33] == data[47];
      assert !FlagsRejected(ip);
      TestIpAgrees(ip);
      assert Ipv4FieldsOf(data).info == IpPacket(ip);
    }
  }

  // ---------------------------------------------------------------------------
  // Records
  // ---------------------------------------------------------------------------

  /** `parsePacket` of this copy: the guards of the main decoder over big-endian header reads. */
  function TestRecordAt(buffer: seq<uint8>, offset: int): (r: Result<Option<RawRecord>, TestError>)
    ensures r.Failure? <==> 0 <= offset <= |buffer| < offset + 12
    ensures r.Success? && r.value.Some? ==>
      && 0 <= offset
      && offset + PACKET_HEADER_SIZE + |r.value.value.frame| <= |buffer|
      && 0 < |r.value.value.frame| == U32BE(buffer, offset + 8)
  {
    if offset < 0 || offset > |buffer| then Success(None)
    else
      var timestamp := ReadUint32BE(buffer, offset);
      var microSeconds := ReadUint32BE(buffer, offset + 4);
      var capturedLength := ReadUint32BE(buffer, offset + 8);
      if timestamp.Failure? then Failure(timestamp.error)
      else if microSeconds.Failure? then Failure(microSeconds.error)
      else if capturedLength.Failure? then Failure(capturedLength.error)
      else
        var len := capturedLength.value;
        var headerEnd := offset + PACKET_HEADER_SIZE;
        if len == 0 || headerEnd > |buffer| || len > |buffer| || headerEnd + len > |buffer|
           || headerEnd + len > MAX_SAFE_INTEGER
        then Success(None)
        else Success(Some(RawRecord(timestamp.value, microSeconds.value, Slice(buffer, headerEnd, headerEnd + len))))
  }

  /** A frame decoder that may throw, of the shape of this copy's `parseEthernetPacket`. */
  type CheckedDecoder = (seq<uint8>, nat, nat) -> Result<Option<PcapPacket>, TestError>

  /** `parsePacket` of this copy at `offset`, its frames decoded by `decode`. */
  function TestPacketWith(buffer: seq<uint8>, offset: int, decode: CheckedDecoder): (r: Result<Option<PcapPacket>, TestError>)
    ensures r.Success? && r.value.Some? ==>
      var record := TestRecordAt(buffer, offset);
      record.Success? && record.value.Some? && decode(record.value.value.frame, record.value.value.seconds, record.value.value.micros) == r
  {
    match TestRecordAt(buffer, offset)
    case Failure(e) => Failure(e)
    case Success(None) => Success(None)
    case Success(Some(record)) => decode(record.frame, record.seconds, record.micros)
  }

  /** The packets `done` put before the rest of a walk, or the error that ended it. */
  function Prepend(done: seq<PcapPacket>, rest: Result<seq<PcapPacket>, TestError>): (r: Result<seq<PcapPacket>, TestError>)
    ensures r.Failure? <==> rest.Failure?
  {
    match rest
    case Success(ps) => Success(done + ps)
    case Failure(e) => Failure(e)
  }

  /** Prepending no packets changes nothing. */
  lemma PrependEmpty(rest: Result<seq<PcapPacket>, TestError>)
    ensures Prepend([], rest) == rest
  {
    if rest.Success? {
      assert [] + rest.value == rest.value;
    }
  }

  /** The loop of this copy's `parsePcapFile` from `offset` on: as in the
      main decoder, except that an exception in a frame ends the whole parse. */
  function TestWalk(buffer: seq<uint8>, offset: nat, decode: CheckedDecoder): (r: Result<seq<PcapPacket>, TestError>)
    ensures r.Success? ==> |r.value| == 0 || offset + PACKET_HEADER_SIZE * |r.value| <= |buffer|
    decreases |buffer| - offset
  {
    if offset + PACKET_HEADER_SIZE > |buffer| then Success([])
    else
      match TestPacketWith(buffer, offset, decode)
      case Failure(e) => Failure(e)
      case Success(None) => Success([])
      case Success(Some(p)) =>
        if p.length == 0 then Success([p])
        else Prepend([p], TestWalk(buffer, offset + PACKET_HEADER_SIZE + p.length, decode))
  }

  /** One turn of the loop of this copy, on the packets `done` before it: an
      exception ends the walk with it, `null` ends it with `done`, and a
      packet is pushed before the walk goes on past its frame. */
  lemma TestWalkTurn(buffer: seq<uint8>, offset: nat, decode: CheckedDecoder, done: seq<PcapPacket>)
    requires offset + PACKET_HEADER_SIZE <= |buffer|
    ensures var packet := TestPacketWith(buffer, offset, decode);
      var whole := Prepend(done, TestWalk(buffer, offset, decode));
      && (packet.Failure? ==> whole == Failure(packet.error))
      && (packet.Success? && packet.value.None? ==> whole == Success(done))
      && (packet.Success? && packet.value.Some? && packet.value.value.length == 0 ==>
            whole == Success(done + [packet.value.value]))
      && (packet.Success? && packet.value.Some? && packet.value.value.length != 0 ==>
            whole == Prepend(done + [packet.value.value],
                             TestWalk(buffer, offset + PACKET_HEADER_SIZE + packet.value.value.length, decode)))
  {
    var packet := TestPacketWith(buffer, offset, decode);
    if packet.Success? && packet.value.Some? {
      var p := packet.value.value;
      if p.length == 0 {
        assert TestWalk(buffer, offset, decode) == Success([p]);
      } else {
        var rest := TestWalk(buffer, offset + PACKET_HEADER_SIZE + p.length, decode);
        assert TestWalk(buffer, offset, decode) == Prepend([p], rest);
        if rest.Success? {
          assert done + [p] + rest.value == done + ([p] + rest.value);
        }
      }
    } else if packet.Success? {
      assert done + [] == done;
    }
  }

  /** With fewer than 16 bytes left the walk ends with the packets `done` before it. */
  lemma TestWalkEnd(buffer: seq<uint8>, offset: nat, decode: CheckedDecoder, done: seq<PcapPacket>)
    requires offset + PACKET_HEADER_SIZE > |buffer|
    ensures Prepend(done, TestWalk(buffer, offset, decode)) == Success(done)
  {
    assert done + [] == done;
  }

  /** The offset loop of this copy's `parsePcapFile`: stop at `null` or after
      a packet of length 0, and let an exception escape. */
  method ReadTestRecords(buffer: seq<uint8>, decode: CheckedDecoder) returns (r: Result<seq<PcapPacket>, TestError>)
    ensures r == TestWalk(buffer, PCAP_HEADER_SIZE, decode)
  {
    var packets: seq<PcapPacket> := [];
    var offset: nat := PCAP_HEADER_SIZE;
    PrependEmpty(TestWalk(buffer, offset, decode));
    while offset <= |buffer| - PACKET_HEADER_SIZE
      invariant Prepend(packets, TestWalk(buffer, offset, decode)) == TestWalk(buffer, PCAP_HEADER_SIZE, decode)
      decreases |buffer| - offset
    {
      TestWalkTurn(buffer, offset, decode, packets);
      var packet := TestPacketWith(buffer, offset, decode);
      if packet.Failure? {
        return Failure(packet.error);
      }
      if packet.value.None? {
        return Success(packets);
      }
      var p := packet.value.value;
      packets := packets + [p];
      var packetLength := p.length;
      offset := offset + PACKET_HEADER_SIZE + packetLength;
      if packetLength == 0 {
        return Success(packets);
      }
    }
    TestWalkEnd(buffer, offset, decode, packets);
    r := Success(packets);
  }

  /** What this copy's `parsePcapFile` returns: the header errors of the main
      decoder, the flag error of any frame the loop reaches, or the packets
      with a summary whose top lists hold five entries. */
  function TestFile(buffer: seq<uint8>): (r: Result<TestData, TestError>)
    ensures r.Success? ==> |buffer| >= PCAP_HEADER_SIZE && r.value.summary.totalPackets == |r.value.packets|
  {
    if |buffer| < PCAP_HEADER_SIZE then Failure(Header(HeaderTooSmall))
    else
      match ValidatePcapHeader(buffer)
      case Fail(e) => Failure(Header(e))
      case Pass =>
        match TestWalk(buffer, PCAP_HEADER_SIZE, TestFrame)
        case Failure(e) => Failure(e)
        case Success(packets) => Success(TestData(packets, Summarize(packets, TEST_TOP_N)))
  }

  /** This copy's `parsePcapFile`: header checks, the record loop, then `generateSummary`. */
  method ParseTestFile(buffer: seq<uint8>) returns (r: Result<TestData, TestError>)
    ensures r == TestFile(buffer)
  {
    if |buffer| < PCAP_HEADER_SIZE {
      return Failure(Header(HeaderTooSmall));
    }
    var header := ValidatePcapHeader(buffer);
    if header.Fail? {
      return Failure(Header(header.error));
    }
    var packets := ReadTestRecords(buffer, TestFrame);
    if packets.Failure? {
      return Failure(packets.error);
    }
    var summary := GenerateSummary(packets.value, TEST_TOP_N);
    r := Success(TestData(packets.value, summary));
  }

  // ---------------------------------------------------------------------------
  // Properties
  // ---------------------------------------------------------------------------

  /** The only error the loop of this copy can raise is the flag error. */
  lemma {:induction false} TestWalkErrors(buffer: seq<uint8>, offset: nat)
    ensures var r := TestWalk(buffer, offset, TestFrame);
      r.Failure? ==> r.error.InvalidTcpFlags? && r.error.flags > 63
    decreases |buffer| - offset
  {
    if offset + PACKET_HEADER_SIZE <= |buffer| {
      var packet := TestPacketWith(buffer, offset, TestFrame);
      TestPacketError(buffer, offset);
      if packet.Success? && packet.value.Some? && packet.value.value.length != 0 {
        TestWalkErrors(buffer, offset + PACKET_HEADER_SIZE + packet.value.value.length);
      }
    }
  }

  /** A record that fits raises no error but the flag error of its frame. */
  lemma TestPacketError(buffer: seq<uint8>, offset: nat)
    requires offset + PACKET_HEADER_SIZE <= |buffer|
    ensures var packet := TestPacketWith(buffer, offset, TestFrame);
      packet.Failure? ==> packet.error.InvalidTcpFlags? && packet.error.flags > 63
  {
    var record := TestRecordAt(buffer, offset);
    if record.Success? && record.value.Some? {
      var frame := record.value.value.frame;
      if FrameFlagsRejected(frame) {
        var ip := frame[14..];
        assert ip[0] == frame[14] && ip[9] == frame[23] && ip[33] == frame[47];
        assert FlagsRejected(ip);
      }
    }
  }

  /** A TCP frame whose flag byte is above 63 makes the loop throw when it reaches it. */
  lemma FlagErrorAborts(buffer: seq<uint8>, offset: nat)
    requires offset + PACKET_HEADER_SIZE <= |buffer|
    requires TestRecordAt(buffer, offset).Success? && TestRecordAt(buffer, offset).value.Some?
    requires FrameFlagsRejected(TestRecordAt(buffer, offset).value.value.frame)
    ensures TestWalk(buffer, offset, TestFrame).Failure?
  {
    var record := TestRecordAt(buffer, offset).value.value;
    assert TestFrame(record.frame, record.seconds, record.micros).Failure?;
  }

  /** A frame decoded as `null` ends the loop of this copy, keeping nothing after it. */
  lemma TestNullStops(buffer: seq<uint8>, offset: nat)
    requires offset + PACKET_HEADER_SIZE <= |buffer|
    requires TestRecordAt(buffer, offset).Success? && TestRecordAt(buffer, offset).value.Some?
    requires !Decodes(TestRecordAt(buffer, offset).value.value.frame)
    ensures TestWalk(buffer, offset, TestFrame) == Success([])
  {
    var record := TestRecordAt(buffer, offset).value.value;
    assert TestFrame(record.frame, record.seconds, record.micros) == Success(None);
  }

  /** The header is checked as in the main decoder: this copy fails with a
      header error exactly when the main decoder fails, and with the same error. */
  lemma TestFileHeader(buffer: seq<uint8>)
    ensures var r := TestFile(buffer);
      && (r.Failure? && r.error.Header? <==> PcapFile(buffer).Failure?)
      && (PcapFile(buffer).Failure? ==> r == Failure(Header(PcapFile(buffer).error)))
  {
    if |buffer| >= PCAP_HEADER_SIZE {
      TestWalkErrors(buffer, PCAP_HEADER_SIZE);
    }
  }

  /** The summary of this copy: the packet count and, in each top list, at
      most five entries in non-increasing count order. */
  lemma TestFileSummary(buffer: seq<uint8>)
    requires TestFile(buffer).Success?
    ensures var d := TestFile(buffer).value;
      && d.summary.totalPackets == |d.packets|
      && |d.summary.topSources| <= TEST_TOP_N && SortedDesc(d.summary.topSources)
      && |d.summary.topDestinations| <= TEST_TOP_N && SortedDesc(d.summary.topDestinations)
  {
    var d := TestFile(buffer).value;
    SummarizeFacts(d.packets, TEST_TOP_N);
    SummarizeTop(d.packets, TEST_TOP_N);
  }
}
