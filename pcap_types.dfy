/** The records the decoder produces (src/types/index.ts): one value per
    decoded frame and the parsed file with its summary. */
module PcapTypes {
  import opened Wrappers

  /** The capture time of a record: whole seconds and microseconds, the
      microseconds already clamped to at most 999999. The decoder folds the
      pair into one floating-point number of seconds. */
  datatype Timestamp = Timestamp(seconds: nat, micros: nat)

  /** One decoded frame (`PcapPacket`). Every optional field of the record is
      an `Option`, so that an absent field stays distinct from zero. */
  datatype PcapPacket = PcapPacket(
    source: string,
    destination: string,
    protocol: string,
    length: nat,
    port: Option<nat>,
    flags: Option<seq<string>>,
    data: string,
    srcMac: Option<string>,
    dstMac: Option<string>,
    etherType: Option<string>,
    ipTtl: Option<nat>,
    ipId: Option<nat>,
    ipChecksum: Option<string>,
    tcpSeq: Option<nat>,
    tcpAck: Option<nat>,
    tcpWin: Option<nat>,
    tcpChecksum: Option<string>,
    udpLen: Option<nat>,
    udpChecksum: Option<string>,
    timestamp: Timestamp)

  /** One key of a count table with its count. A table is a sequence of
      entries in insertion order, which is the order in which the decoder's
      string-keyed objects enumerate their keys. */
  datatype Entry = Entry(key: string, count: nat)

  /** The `summary` part of `PcapData`. */
  datatype Summary = Summary(
    totalPackets: nat,
    totalBytes: nat,
    protocols: seq<Entry>,
    topSources: seq<Entry>,
    topDestinations: seq<Entry>)

  /** A parsed capture file (`PcapData`). */
  datatype PcapData = PcapData(packets: seq<PcapPacket>, summary: Summary, fullHex: string)
}
