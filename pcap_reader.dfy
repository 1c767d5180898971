/** The imperative side of `parsePcapFile` (src/utils/pcap-parser.ts): the
    record loop and the function itself, each proved equal to its
    specification in `PcapParser`. */
module PcapReader {
  import opened Wrappers
  import opened Text
  import opened FormatUtils
  import opened PcapTypes
  import opened PcapSummary
  import opened PcapParser

  /** The offset loop of `parsePcapFile`, with `parsePacket` decoding frames
      by `decode`: decode the record at `offset`, push it, and advance past
      its header and frame; stop at `null` or after a packet of length 0. */
  method ReadRecords(buffer: seq<uint8>, decode: FrameDecoder) returns (packets: seq<PcapPacket>)
    ensures packets == WalkWith(buffer, PCAP_HEADER_SIZE, decode)
  {
    packets := [];
    var offset: nat := PCAP_HEADER_SIZE;
    while offset <= |buffer| - PACKET_HEADER_SIZE
      invariant packets + WalkWith(buffer, offset, decode) == WalkWith(buffer, PCAP_HEADER_SIZE, decode)
      decreases |buffer| - offset
    {
      var packet := PacketWith(buffer, offset, decode);
      if packet.value.None? {
        break;
      }
      var p := packet.value.value;
      WalkWithPush(buffer, offset, decode, p, packets);
      packets := packets + [p];
      var packetLength := p.length;
      offset := offset + PACKET_HEADER_SIZE + packetLength;
      if packetLength == 0 {
        break;
      }
    }
  }

  /** `parsePcapFile`: the header checks, then the record loop, then the
      summary and the hex dump of the whole buffer. */
  method ParsePcapFile(buffer: seq<uint8>) returns (r: Result<PcapData, ParseError>)
    ensures r == PcapFile(buffer)
  {
    if |buffer| < PCAP_HEADER_SIZE {
      return Failure(HeaderTooSmall);
    }
    var header := ValidatePcapHeader(buffer);
    if header.Fail? {
      return Failure(header.error);
    }
    var packets := ReadRecords(buffer, EthernetFrame);
    var summary := GenerateSummary(packets, TOP_N);
    var fullHex := ArrayToHexString(buffer);
    r := Success(PcapData(packets, summary, fullHex));
  }
}
