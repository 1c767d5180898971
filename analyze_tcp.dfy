/** The diagnostic walker of example/angularjs/analyze-tcp.js: a frame
    classifier that reads fixed frame offsets, and a record loop that counts
    every record, skips frames it cannot classify and flags TCP flag bytes
    outside 0..63. */
module TcpAnalysis {
  import opened Wrappers
  import opened Text
  import opened FormatUtils
  import opened PcapTypes
  import opened PcapParser
  import opened TestParser

  /** What `analyzePacketData` returns for a frame: the label, the TCP
      fields for a TCP segment, the record offset, the frame length and the
      record number. */
  datatype PacketInfo = PacketInfo(
    protocol: string,
    srcPort: Option<nat>,
    dstPort: Option<nat>,
    tcpFlags: Option<nat>,
    offset: nat,
    length: nat,
    packetNumber: nat)

  /** Whether `analyzePacketData` gives `null`: a frame under 14 bytes, an
      IPv4 frame under 34 bytes, or a TCP frame under 54 bytes. */
  predicate Dropped(data: seq<uint8>)
  {
    |data| < 14
    || (U16BE(data, 12) == 0x0800 && (|data| < 34 || (data[23] == 6 && |data| < 54)))
  }

  /** `analyzePacketData`: classification by EtherType and, for IPv4, by the
      protocol byte at frame offset 23, with no IP version check. */
  function AnalyzePacketData(data: seq<uint8>, packetOffset: nat, packetNumber: nat): (r: Option<PacketInfo>)
    ensures r.None? <==> Dropped(data)
    ensures r.Some? ==>
      && r.value.offset == packetOffset && r.value.length == |data| && r.value.packetNumber == packetNumber
      && (r.value.tcpFlags.Some? <==> r.value.protocol == "TCP")
  {
    if |data| < 14 then None
    else
      var etherType := U16BE(data, 12);
      if etherType == 0x0800 then
        if |data| < 34 then None
        else
          var ipProtocol := data[23];
          if ipProtocol == 6 then
            if |data| < 34 + 20 then None
            else
              var tcpData := data[34..54];
              Some(PacketInfo("TCP", Some(U16BE(tcpData, 0)), Some(U16BE(tcpData, 2)), Some(tcpData[13] as nat),
                              packetOffset, |data|, packetNumber))
          else if ipProtocol == 17 then Some(PacketInfo("UDP", None, None, None, packetOffset, |data|, packetNumber))
          else if ipProtocol == 1 then Some(PacketInfo("ICMP", None, None, None, packetOffset, |data|, packetNumber))
          else
            var tag := "IP(" + NatToString(ipProtocol, 10) + ")";
            assert tag[0] == 'I';
            Some(PacketInfo(tag, None, None, None, packetOffset, |data|, packetNumber))
      else if etherType == 0x0806 then Some(PacketInfo("ARP", None, None, None, packetOffset, |data|, packetNumber))
      else if etherType == 0x86DD then Some(PacketInfo("IPv6", None, None, None, packetOffset, |data|, packetNumber))
      else
        var tag := UnknownTag(etherType);
        assert tag[1] == 'n';
        Some(PacketInfo(tag, None, None, None, packetOffset, |data|, packetNumber))
  }

  /** The label of an unrecognised EtherType: its lower-case hex digits, unpadded. */
  function UnknownTag(etherType: nat): (tag: string)
    ensures |tag| >= 12 && tag[..10] == "Unknown(0x" && tag[|tag| - 1] == ')'
  {
    "Unknown(0x" + NatToString(etherType, 16) + ")"
  }

  /** The hex digits of an `Unknown(0x..)` label read back to the EtherType. */
  lemma UnknownTagRoundTrip(etherType: nat)
    ensures var tag := UnknownTag(etherType);
      ParseNat(tag[10..|tag| - 1], 16) == Some(etherType)
  {
    var tag := UnknownTag(etherType);
    assert tag[10..|tag| - 1] == NatToString(etherType, 16);
    ParseNatToString(etherType, 16);
  }

  // ---------------------------------------------------------------------------
  // Labels
  // ---------------------------------------------------------------------------

  /** The labels, each determined by EtherType and the protocol byte. */
  lemma AnalysisTags(data: seq<uint8>, packetOffset: nat, packetNumber: nat)
    requires !Dropped(data)
    ensures var tag := AnalyzePacketData(data, packetOffset, packetNumber).value.protocol;
      var et := U16BE(data, 12);
      && (tag == "TCP" <==> et == 0x0800 && data[23] == 6)
      && (tag == "UDP" <==> et == 0x0800 && data[23] == 17)
      && (tag == "ICMP" <==> et == 0x0800 && data[23] == 1)
      && (tag == "ARP" <==> et == 0x0806)
      && (tag == "IPv6" <==> et == 0x86DD)
  {
    var et := U16BE(data, 12);
    if et == 0x0800 && data[23] !in {1, 6, 17} {
      var other := "IP(" + NatToString(data[23], 10) + ")";
      assert other[0] == 'I' && other[1] == 'P';
    } else if et !in {0x0800, 0x0806, 0x86DD} {
      var unknown := UnknownTag(et);
      assert unknown[0] == 'U' && unknown[1] == 'n';
    }
  }

  /** Any other IP protocol number n is labelled `IP(n)`. */
  lemma AnalysisOtherIp(data: seq<uint8>, packetOffset: nat, packetNumber: nat)
    requires !Dropped(data) && U16BE(data, 12) == 0x0800 && data[23] !in {1, 6, 17}
    ensures AnalyzePacketData(data, packetOffset, packetNumber).value.protocol == "IP(" + NatToString(data[23], 10) + ")"
  {
  }

  /** Any other EtherType is labelled `Unknown(0x..)`, whatever the frame holds. */
  lemma AnalysisUnknown(data: seq<uint8>, packetOffset: nat, packetNumber: nat)
    requires |data| >= 14 && U16BE(data, 12) !in {0x0800, 0x0806, 0x86DD}
    ensures AnalyzePacketData(data, packetOffset, packetNumber).value.protocol == UnknownTag(U16BE(data, 12))
  {
  }

  /** A TCP result carries the big-endian ports at frame offsets 34 and 36
      and the raw flag byte at frame offset 47. */
  lemma AnalysisTcpFields(data: seq<uint8>, packetOffset: nat, packetNumber: nat)
    requires !Dropped(data) && U16BE(data, 12) == 0x0800 && data[23] == 6
    ensures var info := AnalyzePacketData(data, packetOffset, packetNumber).value;
      && info.srcPort == Some(U16BE(data, 34))
      && info.dstPort == Some(U16BE(data, 36))
      && info.tcpFlags == Some(data[47] as nat)
  {
    var tcpData := data[34..54];
    assert tcpData[0] == data[34] && tcpData[1] == data[35] && tcpData[2] == data[36] && tcpData[3] == data[37];
    assert tcpData[13] == data[47];
  }

  // ---------------------------------------------------------------------------
  // The record loop
  // ---------------------------------------------------------------------------

  /** A classifier of the shape of `analyzePacketData`: frame, record offset, record number. */
  type Analyzer = (seq<uint8>, nat, nat) -> Option<PacketInfo>

  /** The state the loop of `analyzePcapFile` ends with: the classified
      packets and the number of records it looked at. */
  datatype Analysis = Analysis(packets: seq<PacketInfo>, packetCount: nat)

  /** The loop of `analyzePcapFile` from `offset` on, after `count` records:
      it runs while more than 16 bytes remain, counts the record, stops on a
      captured length of 0, keeps the frame's result unless it is `null`,
      and advances by 16 plus the captured length. The captured length is
      read big-endian, and the frame is cut short at the end of the buffer. */
  function AnalyzeWith(data: seq<uint8>, offset: nat, count: nat, analyze: Analyzer): (a: Analysis)
    ensures count <= a.packetCount
    ensures |a.packets| <= a.packetCount - count
    decreases |data| - offset
  {
    if offset + PACKET_HEADER_SIZE >= |data| then Analysis([], count)
    else
      var packetCount := count + 1;
      var capturedLength := U32BE(data, offset + 8);
      if capturedLength == 0 then Analysis([], packetCount)
      else
        var frameEnd := if offset + 16 + capturedLength <= |data| then offset + 16 + capturedLength else |data|;
        var info := analyze(Slice(data, offset + 16, frameEnd), offset, packetCount);
        var rest := AnalyzeWith(data, offset + PACKET_HEADER_SIZE + capturedLength, packetCount, analyze);
        Analysis((if info.Some? then [info.value] else []) + rest.packets, rest.packetCount)
  }

  /** The packets `done` before a walk, and the walk. */
  function Extend(done: seq<PacketInfo>, a: Analysis): Analysis
  {
    Analysis(done + a.packets, a.packetCount)
  }

  /** One turn of the loop on the packets `done` before it. */
  lemma AnalyzeTurn(data: seq<uint8>, offset: nat, count: nat, analyze: Analyzer, done: seq<PacketInfo>)
    requires offset + PACKET_HEADER_SIZE < |data|
    ensures var capturedLength := U32BE(data, offset + 8);
      var whole := Extend(done, AnalyzeWith(data, offset, count, analyze));
      && (capturedLength == 0 ==> whole == Analysis(done, count + 1))
      && (capturedLength != 0 ==>
            var frameEnd := if offset + 16 + capturedLength <= |data| then offset + 16 + capturedLength else |data|;
            var info := analyze(Slice(data, offset + 16, frameEnd), offset, count + 1);
            whole == Extend(done + (if info.Some? then [info.value] else []),
                            AnalyzeWith(data, offset + PACKET_HEADER_SIZE + capturedLength, count + 1, analyze)))
  {
    var capturedLength := U32BE(data, offset + 8);
    if capturedLength == 0 {
      assert done + [] == done;
    } else {
      var frameEnd := if offset + 16 + capturedLength <= |data| then offset + 16 + capturedLength else |data|;
      var info := analyze(Slice(data, offset + 16, frameEnd), offset, count + 1);
      var kept := if info.Some? then [info.value] else [];
      var rest := AnalyzeWith(data, offset + PACKET_HEADER_SIZE + capturedLength, count + 1, analyze);
      assert done + (kept + rest.packets) == done + kept + rest.packets;
    }
  }

  /** The loop of `analyzePcapFile`, with `analyzePacketData` passed as `analyze`. */
  method AnalyzeRecords(data: seq<uint8>, analyze: Analyzer) returns (packets: seq<PacketInfo>, packetCount: nat)
    ensures Analysis(packets, packetCount) == AnalyzeWith(data, PCAP_HEADER_SIZE, 0, analyze)
  {
    packets := [];
    packetCount := 0;
    var offset: nat := PCAP_HEADER_SIZE;
    assert Extend([], AnalyzeWith(data, offset, packetCount, analyze)) == AnalyzeWith(data, offset, packetCount, analyze);
    while offset < |data| - 16
      invariant Extend(packets, AnalyzeWith(data, offset, packetCount, analyze)) == AnalyzeWith(data, PCAP_HEADER_SIZE, 0, analyze)
      decreases |data| - offset
    {
      AnalyzeTurn(data, offset, packetCount, analyze, packets);
      packetCount := packetCount + 1;
      var capturedLength := U32BE(data, offset + 8);
      if capturedLength == 0 {
        return;
      }
      var frameEnd := if offset + 16 + capturedLength <= |data| then offset + 16 + capturedLength else |data|;
      var packetData := Slice(data, offset + 16, frameEnd);
      var packetInfo := analyze(packetData, offset, packetCount);
      var kept := if packetInfo.Some? then [packetInfo.value] else [];
      packets := packets + kept;
      offset := offset + 16 + capturedLength;
    }
    assert packets + [] == packets;
  }

  /** The records `analyzePcapFile` walks, classified by `analyzePacketData`. */
  function Analyze(data: seq<uint8>): (a: Analysis)
    ensures |a.packets| <= a.packetCount
  {
    AnalyzeWith(data, PCAP_HEADER_SIZE, 0, AnalyzePacketData)
  }

  /** The TCP results. */
  function TcpPackets(packets: seq<PacketInfo>): (r: seq<PacketInfo>)
    ensures forall p :: p in r <==> p in packets && p.protocol == "TCP"
  {
    if packets == [] then []
    else (if packets[0].protocol == "TCP" then [packets[0]] else []) + TcpPackets(packets[1..])
  }

  /** The check `analyzePcapFile` prints for a TCP result: its flag byte lies in 0..63. */
  predicate IsValidFlags(p: PacketInfo)
  {
    p.tcpFlags.Some? && 0 <= p.tcpFlags.value <= 63
  }

  /** Results numbered strictly increasingly within (count, last], taken at
      record offsets from `offset` on. */
  ghost predicate Numbered(packets: seq<PacketInfo>, count: nat, last: nat, offset: nat)
  {
    && (forall i :: 0 <= i < |packets| ==> count < packets[i].packetNumber <= last && offset <= packets[i].offset)
    && (forall i, j :: 0 <= i < j < |packets| ==> packets[i].packetNumber < packets[j].packetNumber)
  }

  /** A classifier that stamps each result with the record offset and number it was given. */
  ghost predicate Stamps(analyze: Analyzer)
  {
    forall data, packetOffset, packetNumber :: analyze(data, packetOffset, packetNumber).Some? ==>
      analyze(data, packetOffset, packetNumber).value.offset == packetOffset
      && analyze(data, packetOffset, packetNumber).value.packetNumber == packetNumber
  }

  /** A walk with a stamping classifier numbers its results strictly
      increasingly, each with the number of the record it came from, and
      starts them after the records already counted. */
  lemma {:induction false} WalkNumbering(data: seq<uint8>, offset: nat, count: nat, analyze: Analyzer)
    requires Stamps(analyze)
    ensures var a := AnalyzeWith(data, offset, count, analyze);
      Numbered(a.packets, count, a.packetCount, offset)
    decreases |data| - offset
  {
    if offset + PACKET_HEADER_SIZE < |data| && U32BE(data, offset + 8) != 0 {
      WalkNumbering(data, offset + PACKET_HEADER_SIZE + U32BE(data, offset + 8), count + 1, analyze);
      NumberingTurn(data, offset, count, analyze);
    }
  }

  /** One record of the walk keeps the numbering of the records after it. */
  lemma NumberingTurn(data: seq<uint8>, offset: nat, count: nat, analyze: Analyzer)
    requires Stamps(analyze)
    requires offset + PACKET_HEADER_SIZE < |data| && U32BE(data, offset + 8) != 0
    requires var rest := AnalyzeWith(data, offset + PACKET_HEADER_SIZE + U32BE(data, offset + 8), count + 1, analyze);
      Numbered(rest.packets, count + 1, rest.packetCount, offset + PACKET_HEADER_SIZE + U32BE(data, offset + 8))
    ensures var a := AnalyzeWith(data, offset, count, analyze);
      Numbered(a.packets, count, a.packetCount, offset)
  {
    var capturedLength := U32BE(data, offset + 8);
    var next := offset + PACKET_HEADER_SIZE + capturedLength;
    var frameEnd := if offset + 16 + capturedLength <= |data| then offset + 16 + capturedLength else |data|;
    var info := analyze(Slice(data, offset + 16, frameEnd), offset, count + 1);
    var kept := if info.Some? then [info.value] else [];
    var rest := AnalyzeWith(data, next, count + 1, analyze);
    AnalyzeUnfold(data, offset, count, analyze);
    NumberedKept(AnalyzeWith(data, offset, count, analyze), kept, rest, count, offset, next);
  }

  /** At most one result of record `count + 1`, taken at `offset`, in front
      of the numbered results of the later records. */
  lemma NumberedKept(a: Analysis, kept: seq<PacketInfo>, restWalk: Analysis, count: nat, offset: nat, next: nat)
    requires a == Analysis(kept + restWalk.packets, restWalk.packetCount)
    requires |kept| <= 1 && forall x | x in kept :: x.packetNumber == count + 1 && x.offset == offset
    requires Numbered(restWalk.packets, count + 1, restWalk.packetCount, next) && offset <= next && count + 1 <= restWalk.packetCount
    ensures Numbered(a.packets, count, a.packetCount, offset)
  {
    var rest := restWalk.packets;
    var last := restWalk.packetCount;
    NumberedWeaken(rest, count + 1, count, last, next, offset);
    if |kept| == 1 {
      NumberedCons(kept[0], rest, count, last, offset);
      assert kept == [kept[0]];
    } else {
      assert kept + rest == rest;
    }
  }

  /** One record of the walk, when its captured length is not 0. */
  lemma AnalyzeUnfold(data: seq<uint8>, offset: nat, count: nat, analyze: Analyzer)
    requires offset + PACKET_HEADER_SIZE < |data| && U32BE(data, offset + 8) != 0
    ensures var capturedLength := U32BE(data, offset + 8);
      var frameEnd := if offset + 16 + capturedLength <= |data| then offset + 16 + capturedLength else |data|;
      var info := analyze(Slice(data, offset + 16, frameEnd), offset, count + 1);
      var rest := AnalyzeWith(data, offset + PACKET_HEADER_SIZE + capturedLength, count + 1, analyze);
      AnalyzeWith(data, offset, count, analyze) == Analysis((if info.Some? then [info.value] else []) + rest.packets, rest.packetCount)
  {
  }

  /** Numbering within a range stays numbering within a wider one. */
  lemma NumberedWeaken(packets: seq<PacketInfo>, count: nat, lower: nat, last: nat, offset: nat, from: nat)
    requires Numbered(packets, count, last, offset) && lower <= count && from <= offset
    ensures Numbered(packets, lower, last, from)
  {
  }

  /** `analyzePacketData` stamps its results. */
  lemma AnalyzerStamps()
    ensures Stamps(AnalyzePacketData)
  {
  }

  /** The records of a file are numbered strictly increasingly from 1 up to the count. */
  lemma AnalysisNumbering(data: seq<uint8>)
    ensures var a := Analyze(data);
      Numbered(a.packets, 0, a.packetCount, PCAP_HEADER_SIZE)
  {
    AnalyzerStamps();
    WalkNumbering(data, PCAP_HEADER_SIZE, 0, AnalyzePacketData);
  }

  lemma NumberedCons(first: PacketInfo, rest: seq<PacketInfo>, count: nat, last: nat, offset: nat)
    requires first.packetNumber == count + 1 && first.offset == offset
    requires Numbered(rest, count + 1, last, offset) && count + 1 <= last
    ensures Numbered([first] + rest, count, last, offset)
  {
    var ps := [first] + rest;
    forall i, j | 0 <= i < j < |ps|
      ensures ps[i].packetNumber < ps[j].packetNumber
    {
      assert ps[j] == rest[j - 1];
      if i > 0 { assert ps[i] == rest[i - 1]; }
    }
    forall i | 0 <= i < |ps|
      ensures count < ps[i].packetNumber <= last && offset <= ps[i].offset
    {
      if i > 0 { assert ps[i] == rest[i - 1]; }
    }
  }

  /** A version-4 TCP frame whose flag byte lies outside 0..63 is the frame
      the result flags as invalid, the frame the strict copy of the decoder
      refuses, and still a frame the main decoder keeps (it masks the byte). */
  lemma InvalidFlagsCrossCheck(data: seq<uint8>, packetOffset: nat, packetNumber: nat, timestamp: nat, microSeconds: nat)
    requires |data| >= 54 && U16BE(data, 12) == 0x0800 && data[14] / 16 == 4 && data[23] == 6
    ensures var info := AnalyzePacketData(data, packetOffset, packetNumber).value;
      && (!IsValidFlags(info) <==> TestFrame(data, timestamp, microSeconds).Failure?)
      && EthernetFrame(data, timestamp, microSeconds).Some?
  {
    AnalysisTcpFields(data, packetOffset, packetNumber);
  }

  /** The results whose flag byte lies outside 0..63, in walk order. */
  function InvalidTcpPackets(packets: seq<PacketInfo>): (r: seq<PacketInfo>)
    ensures |r| <= |packets|
    ensures forall p :: p in r <==> p in packets && !IsValidFlags(p)
  {
    if packets == [] then []
    else (if IsValidFlags(packets[0]) then [] else [packets[0]]) + InvalidTcpPackets(packets[1..])
  }

  /** What `analyzePcapFile` finds: nothing for a buffer shorter than the
      24-byte global header, otherwise the walk and its TCP and invalid lists. */
  datatype Report = Report(packets: seq<PacketInfo>, packetCount: nat, tcpPackets: seq<PacketInfo>, invalidTcpPackets: seq<PacketInfo>)

  function AnalyzeFile(data: seq<uint8>): (r: Option<Report>)
    ensures r.None? <==> |data| < PCAP_HEADER_SIZE
  {
    if |data| < PCAP_HEADER_SIZE then None
    else
      var a := Analyze(data);
      Some(Report(a.packets, a.packetCount, TcpPackets(a.packets), InvalidTcpPackets(TcpPackets(a.packets))))
  }

  /** `analyzePcapFile` without its printing: the size check, the loop, the two filters. */
  method AnalyzePcapFile(data: seq<uint8>) returns (r: Option<Report>)
    ensures r == AnalyzeFile(data)
  {
    if |data| < 24 {
      return None;
    }
    var packets, packetCount := AnalyzeRecords(data, AnalyzePacketData);
    var tcpPackets := TcpPackets(packets);
    r := Some(Report(packets, packetCount, tcpPackets, InvalidTcpPackets(tcpPackets)));
  }
}
