# pcap-element: a verified model of the capture decoder and its views

pcap-element is a web component that shows a libpcap capture file in the
browser. This project models its core in Dafny:

- **The decoder** (`PcapParser.parsePcapFile` and its helpers):
  - it checks the 24-byte global header and its magic number;
  - it walks the 16-byte record headers;
  - it decodes each Ethernet frame into a `PcapPacket`, looking into IPv4,
    TCP and UDP headers;
  - it builds the summary: packet and byte totals, per-protocol counts, and
    the top sources and destinations.
- **The byte helpers of `FormatUtils`**: MAC and IP address strings, hex
  dumps, and the 32-bit little-endian read.
- **The stand-alone copy of the decoder in the AngularJS example**
  (`test-parser.js`). It differs from the main decoder in these ways:
  - it reads record headers big-endian;
  - it upper-cases its hex dumps;
  - it throws on a TCP flag byte above 63;
  - its top-source and top-destination lists hold five entries
    (`TestParser.TEST_TOP_N`), not three;
  - its packets carry none of the low-level header fields and no `fullHex`;
  - its top entries are `[key, count]` arrays rather than
    `{address, count}` records.
- **The TCP flag survey script** (`analyze-tcp.js`).
- **The HTML renderer**: escaping, the summary strings, and the packet rows.
- **The canvas hex view**: row labels, cell positions, the ASCII column and
  zebra shading.
- **The language manager**: the current language, the lazily loaded tables,
  and the shared instance.

Design choices:

- Bytes are `uint8` (an `int` subset type) and buffers are `seq<uint8>`.
- JavaScript's string-keyed count objects are sequences of `Entry(key,
  count)` in insertion order. That is the order in which the source
  enumerates their keys: none of the keys is an integer-like string.
- Thrown errors become `Result` failures, and `null` returns become `None`.

Modules, and which parts are imperative:

- `Text`: number printing and parsing, padding, split and join.
- `FormatUtils`, `PcapTypes`.
- `PcapSummary`:
  - `GenerateSummary` is a method, and its `forEach` loop is the method
    `CountPackets`;
  - it is proved equal to the specification function `Summarize`.
- `PcapParser`:
  - the specification functions of the decoder;
  - methods for the flag loop and for the branch-by-branch field
    assignments.
- `PcapReader`: the record loop and `parsePcapFile` as methods.
- `PcapFacts`: lemmas about the decoder.
- `TestParser`: the example copy, and its relation to the main decoder.
- `TcpAnalysis`.
- `PcapRenderer`.
- `HexCanvas`: a `Canvas` class whose `Draw` method sets its fields.
- `I18n`: `I18nManager` and `Registry` classes.

## Model

| member | source | states |
|---|---|---|
| FormatUtils.U16BE | src/utils/pcap-parser.ts:96 | a big-endian 16-bit header field is below 2^16 |
| FormatUtils.U32BE | src/utils/pcap-parser.ts:129-130 | a big-endian 32-bit field (shifts then `>>> 0`) is below 2^32 |
| FormatUtils.U32LE | src/utils/format-utils.ts:89-90 | a little-endian 32-bit read is below 2^32 |
| FormatUtils.U32LEIsReversedBE | src/utils/pcap-parser.ts:57-59 | reading four bytes little-endian equals reading them reversed big-endian |
| FormatUtils.EncodeUint32LE | src/utils/format-utils.ts:83-91 | the four bytes of a 32-bit value, the partner of `readUint32` |
| FormatUtils.ReadUint32 | src/utils/format-utils.ts:83-91 | fails with the range error exactly when `offset < 0` or `offset + 3 >= length`; otherwise a value below 2^32 |
| FormatUtils.ReadEncodedUint32 | src/utils/format-utils.ts:83-91 | reading back the encoding of any 32-bit value gives the value |
| FormatUtils.EncodeReadUint32 | src/utils/format-utils.ts:83-91 | a successful read determines the four bytes read (the read is injective) |
| FormatUtils.ReadUint32Example | src/utils/format-utils.ts:90 | the bytes 78 56 34 12 read as 0x12345678 |
| FormatUtils.HexPairs | src/utils/format-utils.ts:73 | one `toString(16).padStart(2, '0')` pair per byte, in order |
| FormatUtils.HexPairsLength | src/utils/format-utils.ts:73 | every pair has two characters |
| FormatUtils.FormatMacAddress | src/utils/format-utils.ts:35-47 | fails exactly when the input is not 6 bytes long |
| FormatUtils.MacLayout | src/utils/format-utils.ts:43-46 | a MAC string is 17 characters: six upper-case digit pairs, high nibble first, with `:` between them |
| FormatUtils.MacIsUpperPairs | src/utils/format-utils.ts:43-46 | the MAC string is the upper-cased hex pairs joined by `:` |
| FormatUtils.UpperHex2 | src/utils/format-utils.ts:44-46 | an upper-cased pair has two characters, holds no separator and reads back to its byte |
| FormatUtils.MacRoundTrip | src/utils/format-utils.ts:35-47 | splitting a MAC string on `:` and reading each group as hex gives the six bytes back |
| FormatUtils.DecimalParts | src/utils/format-utils.ts:64 | each byte printed in decimal, in order |
| FormatUtils.FormatIpAddress | src/utils/format-utils.ts:55-65 | fails with the range error exactly when the length is neither 4 nor 16 |
| FormatUtils.IpRoundTrip | src/utils/format-utils.ts:55-65 | splitting an address on `.` and reading each part in decimal gives the bytes back |
| FormatUtils.IpInjective | src/utils/format-utils.ts:64 | two IPv4 addresses with the same string are equal |
| FormatUtils.IpExample | src/utils/format-utils.ts:64 | 192, 168, 1, 1 formats as `192.168.1.1` |
| FormatUtils.IpExampleParts | src/utils/format-utils.ts:64 | the decimal parts of 192, 168, 1, 1 |
| FormatUtils.HexStringLayout | src/utils/format-utils.ts:72-74 | in `arrayToHexString`, byte k is the pair at 3k, with a single space after every pair but the last |
| FormatUtils.ArrayToHexString | src/utils/format-utils.ts:72-74 | the dump of n bytes is empty for no bytes and otherwise 3n − 1 characters long |
| FormatUtils.SplitHexPairs | src/utils/format-utils.ts:73 | splitting the space-joined pairs on a space gives the pairs back |
| FormatUtils.ParseHexPairs | src/utils/format-utils.ts:73 | reading every pair as hex gives the bytes back |
| FormatUtils.HexStringRoundTrip | src/utils/format-utils.ts:72-74 | reading a hex dump back gives the bytes it was made from |
| FormatUtils.HexStringInjective | src/utils/format-utils.ts:72-74 | different byte strings have different hex dumps |
| FormatUtils.HexStringExample | src/utils/format-utils.ts:73 | 00, 255, 16 dump as `00 ff 10` |
| Text.Slice | src/utils/pcap-parser.ts:84 | `slice(from, to)`: the elements from `from` up to `to`, in order |
| Text.SliceIsSubsequence | src/utils/pcap-parser.ts:84 | a slice equals the subsequence between its bounds |
| Text.DigitValue | src/renderers/hex-canvas-renderer.ts:78 | a digit of either case has a value below 16 |
| Text.DigitChar | src/utils/pcap-parser.ts:97 | the digit `toString` prints for a value below 16 reads back as that value |
| Text.NatToString | src/utils/pcap-parser.ts:97 | `n.toString(base)` is a non-empty string of digit characters |
| Text.NatToStringDigit | src/utils/pcap-parser.ts:97 | a number below the base prints as its one digit |
| Text.NatToStringStep | src/utils/pcap-parser.ts:97 | a larger number prints as its quotient's digits then its last digit |
| Text.FixedDigits | src/utils/pcap-parser.ts:97 | the `width` lowest digits of a number, most significant first |
| Text.FixedDigitsZero | src/utils/pcap-parser.ts:97 | the digits of zero are all `0` |
| Text.FixedDigitsPadded | src/utils/pcap-parser.ts:97 | below base^width, `toString(base).padStart(width, '0')` is exactly the `width` lowest digits |
| Text.ParseNatToString | src/utils/pcap-parser.ts:97 | printing a number and reading it back gives the number |
| Text.ParseNatLeadingZeros | src/utils/format-utils.ts:73 | leading zeros do not change the value read |
| Text.PadStart | src/utils/format-utils.ts:73 | `padStart`: at least `width` long; the input is a suffix; the added characters are the pad character |
| Text.PadEnd | src/renderers/hex-canvas-renderer.ts:82 | `padEnd`: at least `width` long; the input is a prefix; the added characters are the pad character |
| Text.ParsePadStart | src/utils/pcap-parser.ts:97 | zero padding on the left does not change the value read |
| Text.ToUpper | src/utils/format-utils.ts:46 | `toUpperCase` on ASCII text: keeps the length and upper-cases each ASCII letter |
| Text.ToLower | src/renderers/pcap-renderer.ts:113 | `toLowerCase` on ASCII text: keeps the length and lower-cases each ASCII letter |
| Text.ParseNatUpper | src/utils/format-utils.ts:46 | upper-casing keeps the value of every digit string |
| Text.ToUpperJoin | src/utils/format-utils.ts:45-46 | upper-casing a join upper-cases each part and the separator |
| Text.Split | src/utils/format-utils.ts:45 | `split` on one character gives at least one part |
| Text.SplitJoin | src/utils/format-utils.ts:45 | splitting a join on a separator that no part contains gives the parts back |
| Text.JoinPairs | src/utils/format-utils.ts:73 | the layout of a join of two-character parts: a part at every third position |
| Text.ParseTokensAll | src/utils/format-utils.ts:64 | a token list reads as `vals` exactly when there is one value per token and each token reads as its value |
| Text.Hex2IsPadded | src/utils/format-utils.ts:73 | `b.toString(16).padStart(2, '0')` is the two-digit pair of the byte |
| Text.ParseHex2 | src/utils/format-utils.ts:73 | the pair of a byte reads back as the byte |
| PcapParser.ValidatePcapHeader | src/utils/pcap-parser.ts:56-64 | accepts exactly when the big-endian first word is one of the four magics (by `MagicReversal`, exactly when either reading is); the error carries both readings |
| PcapParser.MagicReversal | src/utils/pcap-parser.ts:60-61 | the little-endian reading of the first word is a magic exactly when the big-endian one is |
| PcapParser.MagicBytes | src/utils/pcap-parser.ts:60 | the bytes of each magic, reversed, form a magic again |
| PcapParser.FlagIndex | src/utils/pcap-parser.ts:5 | the position of a flag name in FIN, SYN, RST, PSH, ACK, URG |
| PcapParser.ParseTcpFlags | src/utils/pcap-parser.ts:220-234 | the flag loop returns `TcpFlags(flags)`: nothing outside 0..255, else the names of the set bits of `flags & 0x3F` |
| PcapParser.FlagsBelowShape | src/utils/pcap-parser.ts:228-232 | the names listed below position k: at most k of them, in increasing position, each listed exactly when its bit is set |
| PcapParser.FlagsBelowOrdered | src/utils/pcap-parser.ts:228-232 | the names come in increasing position order |
| PcapParser.FlagsBelowMembers | src/utils/pcap-parser.ts:228-232 | a name below k is listed exactly when its bit is set |
| PcapParser.FlagIndexOfName | src/utils/pcap-parser.ts:5 | each name's position is its index in the name list |
| PcapParser.TcpFlagsMembership | src/utils/pcap-parser.ts:220-234 | a flag name is listed exactly when its bit is set in the masked byte |
| PcapParser.TcpFlags | src/utils/pcap-parser.ts:220-234 | at most six flag names |
| PcapParser.TcpFlagsOrdered | src/utils/pcap-parser.ts:228-232 | flags come in FIN..URG order, each at most once |
| PcapParser.TcpFlagsLowBits | src/utils/pcap-parser.ts:226 | two bytes with the same low six bits give the same flags |
| PcapParser.IpPacket | src/utils/pcap-parser.ts:172-215 | `null` for fewer than 20 bytes or a version other than 4; otherwise the label, addresses, port and flags of the `switch` |
| PcapParser.ParseIpPacket | src/utils/pcap-parser.ts:172-215 | the imperative `switch` equals `IpPacket` |
| PcapParser.HexFieldIsPadded | src/utils/pcap-parser.ts:97 | `'0x' + v.toString(16).padStart(4, '0')` is `0x` and the four low hex digits |
| PcapParser.HexFieldRoundTrip | src/utils/pcap-parser.ts:117 | a checksum field is 6 characters that read back to the 16-bit value |
| PcapParser.HexField | src/utils/pcap-parser.ts:97 | a hex field is six characters starting with `0x` |
| PcapParser.ParseIpv4Fields | src/utils/pcap-parser.ts:110-139 | the IPv4 branch's TTL, id, checksum, TCP and UDP fields equal their specification |
| PcapParser.EthernetFrame | src/utils/pcap-parser.ts:91-167 | `null` exactly for a frame under 14 bytes or a VLAN EtherType; otherwise the packet of `FrameFields` |
| PcapParser.FrameFields | src/utils/pcap-parser.ts:93-166 | the packet keeps the frame length and always has a flag list |
| PcapParser.ParseEthernetPacket | src/utils/pcap-parser.ts:91-167 | the imperative frame decoding equals `EthernetFrame` |
| PcapParser.RecordAt | src/utils/pcap-parser.ts:69-86 | the range error exactly when fewer than 12 bytes remain at an offset inside the buffer; a record has a frame of the captured length, 1 or more, that ends inside the buffer |
| PcapParser.RecordAtContents | src/utils/pcap-parser.ts:71-84 | a record holds the two header words and the frame bytes after its header |
| PcapParser.PacketWith | src/utils/pcap-parser.ts:69-86 | `parsePacket` with a given frame decoder: the range error as for `RecordAt`, and a packet exactly when there is a record and the decoder accepts its frame |
| PcapParser.PacketAt | src/utils/pcap-parser.ts:69-86 | `parsePacket`: a packet exactly when there is a record whose frame is Ethernet and not VLAN; its length is the captured length, at least 14, and it ends inside the buffer |
| PcapParser.WalkWithStep | src/utils/pcap-parser.ts:39-46 | one loop turn: the packet at the offset comes first, then the walk after its record |
| PcapParser.WalkWithPush | src/utils/pcap-parser.ts:39-46 | the loop invariant kept by pushing one packet |
| PcapParser.PcapFile | src/utils/pcap-parser.ts:31-51 | fails exactly for a file under 24 bytes or with an unknown magic; the too-small error exactly for the short file |
| PcapParser.WalkWith | src/utils/pcap-parser.ts:38-46 | the walk keeps at most one packet per 16-byte record header that fits after the offset |
| PcapParser.Records | src/utils/pcap-parser.ts:37-46 | a file's packets each take at least a 16-byte record header after the 24-byte global header |
| PcapReader.ReadRecords | src/utils/pcap-parser.ts:37-46 | the offset loop collects exactly the packets of the record walk |
| PcapReader.ParsePcapFile | src/utils/pcap-parser.ts:31-51 | `parsePcapFile` returns `PcapFile(buffer)` |
| PcapFacts.FootprintCons | src/utils/pcap-parser.ts:44 | each packet takes 16 header bytes plus its length |
| PcapFacts.RecordReadInBounds | src/utils/pcap-parser.ts:39-40 | while 16 bytes remain, the header reads of `parsePacket` do not throw |
| PcapFacts.EmptyRecordStops | src/utils/pcap-parser.ts:76 | a record of captured length 0 ends the walk |
| PcapFacts.TruncatedRecordStops | src/utils/pcap-parser.ts:77-79 | a record whose frame runs past the end ends the walk |
| PcapFacts.NullFrameStops | src/utils/pcap-parser.ts:41 | a frame decoded as `null` ends the walk |
| PcapFacts.WalkFits | src/utils/pcap-parser.ts:39-46 | the packets kept fit the buffer: headers and frames sum to at most the bytes left |
| PcapFacts.WalkWellFormed | src/utils/pcap-parser.ts:39-46 | every packet kept is at least 14 bytes long, has a flag list, has microseconds at most 999999 and a label of letters, digits and parentheses |
| PcapFacts.FramePacketWellFormed | src/utils/pcap-parser.ts:84-85 | the packet decoded at one offset is well formed |
| PcapFacts.RecordsFit | src/utils/pcap-parser.ts:38-46 | all packets of a file fit after its 24-byte header |
| PcapFacts.RecordsWellFormed | src/utils/pcap-parser.ts:38-46 | every packet of a file is well formed |
| PcapFacts.FrameTimestamp | src/utils/pcap-parser.ts:93 | the seconds are kept and the microseconds clamped to 999999 |
| PcapFacts.Ipv4InfoPresent | src/utils/pcap-parser.ts:110-125 | the IPv4 branch takes the `parseIpPacket` result exactly when the frame carries an IPv4 header |
| PcapFacts.IpLabelIsNotEtherLabel | src/utils/pcap-parser.ts:179-213 | no `parseIpPacket` label equals `ARP`, `IPv6` or `Unknown` |
| PcapFacts.NonIpv4SwapsMacs | src/utils/pcap-parser.ts:99-100 | a frame without IPv4 has the destination MAC as `source` and the source MAC as `destination` |
| PcapFacts.Ipv4Addresses | src/utils/pcap-parser.ts:119-125 | an IPv4 frame takes its addresses, port and flags from `parseIpPacket` |
| PcapFacts.ArpLabel | src/utils/pcap-parser.ts:140-141 | EtherType 0x0806, and no other frame, is labelled `ARP` |
| PcapFacts.Ipv6Label | src/utils/pcap-parser.ts:142-143 | EtherType 0x86DD, and no other frame, is labelled `IPv6` |
| PcapFacts.UnknownLabel | src/utils/pcap-parser.ts:98 | `Unknown` exactly when the frame is neither ARP, IPv6 nor carries IPv4 |
| PcapFacts.LabelCases | src/utils/pcap-parser.ts:110-144 | the label is the IPv4 label when IPv4 is carried, otherwise the EtherType label |
| PcapFacts.FrameLabelPlain | src/utils/pcap-parser.ts:98-143 | every protocol label the frame decoder gives is made of letters, digits and parentheses |
| PcapFacts.IpLabelPlain | src/utils/pcap-parser.ts:179-213 | so is every IPv4 label, `IP(n)` included |
| PcapFacts.IcmpLabel | src/utils/pcap-parser.ts:183-185 | protocol 1, and only protocol 1, is labelled `ICMP` |
| PcapFacts.UdpLabel | src/utils/pcap-parser.ts:202-203 | protocol 17, and only protocol 17, is labelled `UDP` |
| PcapFacts.SmtpLabel | src/utils/pcap-parser.ts:186-199 | a full TCP header to port 25, and nothing else, is labelled `SMTP` |
| PcapFacts.TcpLabel | src/utils/pcap-parser.ts:186-199 | every other TCP segment, and nothing else, is labelled `TCP` |
| PcapFacts.OtherLabel | src/utils/pcap-parser.ts:211-212 | any other protocol n is labelled `IP(n)` in decimal |
| PcapFacts.IpLabelShape | src/utils/pcap-parser.ts:179-213 | the five label cases at once, each holding exactly under its condition |
| PcapFacts.TcpPortAndFlags | src/utils/pcap-parser.ts:190-198 | a full TCP header reports its source port and the flags of byte 13 |
| PcapFacts.UdpPort | src/utils/pcap-parser.ts:206-209 | a full UDP header reports its source port; only TCP and UDP have ports |
| PcapSummary.KeyOf | src/utils/pcap-parser.ts:259-261 | `field \|\| 'Unknown'`: an empty label becomes `Unknown`, other labels are kept |
| PcapSummary.Keys | src/utils/pcap-parser.ts:262 | the keys of a table, one per entry, in order |
| PcapSummary.Bump | src/utils/pcap-parser.ts:262-264 | `table[key] = (table[key] \|\| 0) + 1` keeps the length for a known key and adds one entry for a new key |
| PcapSummary.BumpLookup | src/utils/pcap-parser.ts:262 | bumping adds one to that key's count and changes no other count |
| PcapSummary.BumpKeys | src/utils/pcap-parser.ts:262 | bumping keeps the key order and appends a new key at the end |
| PcapSummary.BumpSum | src/utils/pcap-parser.ts:262 | bumping adds one to the total, and every count stays positive |
| PcapSummary.BumpDistinct | src/utils/pcap-parser.ts:262 | bumping keeps the keys distinct |
| PcapSummary.CountsFacts | src/utils/pcap-parser.ts:258-266 | the table has distinct keys and positive counts |
| PcapSummary.CountsKeySet | src/utils/pcap-parser.ts:258-266 | a key is in the table exactly when it occurs in the input |
| PcapSummary.CountsSum | src/utils/pcap-parser.ts:258-266 | the counts sum to the number of packets |
| PcapSummary.CountsLookup | src/utils/pcap-parser.ts:262-264 | a key's count is its number of occurrences |
| PcapSummary.CountsKeys | src/utils/pcap-parser.ts:258-266 | the table lists each key once, in order of first occurrence |
| PcapSummary.InsertDesc | src/utils/pcap-parser.ts:11 | one insertion step of the stable descending sort adds one entry |
| PcapSummary.SortDesc | src/utils/pcap-parser.ts:11 | `sort((a, b) => b - a)` on counts, keeping the length |
| PcapSummary.InsertDescSorted | src/utils/pcap-parser.ts:11 | an insertion keeps the table sorted |
| PcapSummary.InsertDescMultiset | src/utils/pcap-parser.ts:11 | an insertion adds exactly that entry |
| PcapSummary.SortDescCorrect | src/utils/pcap-parser.ts:11 | the sort result is non-increasing and a permutation of its input |
| PcapSummary.InsertWithCount | src/utils/pcap-parser.ts:11 | an insertion keeps the relative order of entries with equal counts |
| PcapSummary.SortDescStable | src/utils/pcap-parser.ts:11 | the sort is stable: entries of one count keep their table order |
| PcapSummary.PrefixIsTop | src/utils/pcap-parser.ts:12 | every entry past the cut counts at most as much as every entry before it |
| PcapSummary.TopNFacts | src/utils/pcap-parser.ts:9-14 | `getTopN` returns min(size, n) entries in non-increasing count, drawn from the table; nothing left out counts more than an entry kept; ties keep table order |
| PcapSummary.TopN | src/utils/pcap-parser.ts:9-14 | `getTopN` keeps min(size, n) entries |
| PcapSummary.TopSorted | src/utils/pcap-parser.ts:9-14 | the top list is sorted |
| PcapSummary.TopFromTable | src/utils/pcap-parser.ts:9-14 | the top list is a sub-multiset of the table |
| PcapSummary.TopDominates | src/utils/pcap-parser.ts:9-14 | an entry left out counts no more than any entry kept |
| PcapSummary.TopStable | src/utils/pcap-parser.ts:9-14 | among entries of one count, the earlier table entries are kept |
| PcapSummary.ProtocolKeys | src/utils/pcap-parser.ts:259 | one protocol key per packet |
| PcapSummary.SourceKeys | src/utils/pcap-parser.ts:260 | one source key per packet |
| PcapSummary.DestinationKeys | src/utils/pcap-parser.ts:261 | one destination key per packet |
| PcapSummary.KeysSnoc | src/utils/pcap-parser.ts:258-266 | one more packet extends each key list by that packet's key |
| PcapSummary.GenerateSummary | src/utils/pcap-parser.ts:240-280 | equals `Summarize`, including the empty case |
| PcapSummary.CountPackets | src/utils/pcap-parser.ts:258-266 | the `forEach` loop builds the three count tables and the byte total of all the packets |
| PcapSummary.FoldStep | src/utils/pcap-parser.ts:259-265 | one packet more bumps each table at that packet's key and adds its length to the total |
| PcapSummary.Counts | src/utils/pcap-parser.ts:258-264 | a count table has at most one entry per key, and is empty exactly when there are no keys |
| PcapSummary.Summarize | src/utils/pcap-parser.ts:240-280 | the packet count, at most one protocol entry per packet, and top lists of at most n entries |
| PcapSummary.SummarizeFacts | src/utils/pcap-parser.ts:240-280 | the packet count, the byte total, and protocol counts equal to the occurrences of each label |
| PcapSummary.SummarizeTop | src/utils/pcap-parser.ts:267-268 | each top list has at most n entries, sorted by count, and each entry carries its key's number of occurrences |
| PcapSummary.TopCounts | src/utils/pcap-parser.ts:267-268 | each top entry carries its key's number of occurrences |
| PcapSummary.LookupDistinct | src/utils/pcap-parser.ts:262 | in a table with distinct keys, looking up an entry's key gives its count |
| TestParser.ReadUint32BE | example/angularjs/test-parser.js:168-170 | a big-endian read; the range error exactly when the four bytes do not fit |
| TestParser.ByteOrderExample | example/angularjs/test-parser.js:169 | the header bytes 00 00 00 3c are 60 here but 0x3c000000 in the main decoder |
| TestParser.UpperHexString | example/angularjs/test-parser.js:180-182 | as long as the main hex dump, being that dump upper-cased |
| TestParser.UpperHexRoundTrip | example/angularjs/test-parser.js:180-182 | the upper-case dump reads back to its bytes |
| TestParser.CheckedTcpFlags | example/angularjs/test-parser.js:152-165 | throws exactly outside 0..63; otherwise the names of the set bits, unmasked |
| TestParser.ParseCheckedTcpFlags | example/angularjs/test-parser.js:152-165 | the range check and flag loop equal `CheckedTcpFlags` |
| TestParser.TestIp | example/angularjs/test-parser.js:107-150 | throws exactly when a full TCP header has a flag byte above 63 |
| TestParser.TestIpAgrees | example/angularjs/test-parser.js:107-150 | apart from the flag error, this copy returns what the main `parseIpPacket` returns |
| TestParser.TestIpCases | example/angularjs/test-parser.js:107-150 | on an IPv4 header: the flag error, or one result whose label, port and flags are as in the main decoder |
| TestParser.ParseTestIp | example/angularjs/test-parser.js:107-150 | the imperative `switch` equals `TestIp` |
| TestParser.TestFrame | example/angularjs/test-parser.js:61-105 | `null` for a short frame or a VLAN; the flag error for an IPv4 frame whose TCP flags are rejected |
| TestParser.ParseTestEthernet | example/angularjs/test-parser.js:61-105 | the imperative decoding equals `TestFrame` |
| TestParser.TestFrameAgrees | example/angularjs/test-parser.js:61-105 | unless it throws, this copy decodes a frame as the main decoder does |
| TestParser.SlimFrame | example/angularjs/test-parser.js:95-104 | with an upper-case dump, and without the low-level fields |
| TestParser.TestRecordAt | example/angularjs/test-parser.js:43-59 | the guards of `parsePacket` over big-endian reads |
| TestParser.TestPacketWith | example/angularjs/test-parser.js:43-59 | `parsePacket` with a given checked decoder: a packet only from a record whose frame the decoder accepts |
| TestParser.Prepend | example/angularjs/test-parser.js:24 | the packets before a walk, or the error that ended it |
| TestParser.PrependEmpty | example/angularjs/test-parser.js:24 | prepending nothing changes nothing |
| TestParser.TestWalkTurn | example/angularjs/test-parser.js:20-29 | one loop turn: an error ends the walk; `null` stops it; otherwise the packet comes first |
| TestParser.TestWalkEnd | example/angularjs/test-parser.js:20 | with fewer than 16 bytes left the walk ends |
| TestParser.ReadTestRecords | example/angularjs/test-parser.js:18-29 | the offset loop equals `TestWalk` |
| TestParser.ParseTestFile | example/angularjs/test-parser.js:12-31 | equals `TestFile`: the header errors, the walk, and `generateSummary` with top 5 |
| TestParser.TestWalkErrors | example/angularjs/test-parser.js:20-29 | the only error the walk raises is the flag error |
| TestParser.TestPacketError | example/angularjs/test-parser.js:21 | a record that fits raises no error but the flag error above 63 |
| TestParser.TestWalk | example/angularjs/test-parser.js:20-29 | a successful walk keeps at most one packet per 16-byte record header that fits after the offset |
| TestParser.TestFile | example/angularjs/test-parser.js:12-31 | succeeds only for a file of at least 24 bytes, with a summary counting all its packets |
| TestParser.FlagErrorAborts | example/angularjs/test-parser.js:132 | a TCP frame whose flag byte is above 63 makes the walk throw when it reaches it |
| TestParser.TestNullStops | example/angularjs/test-parser.js:22-23 | a `null` frame ends the walk, and nothing after it is kept |
| TestParser.TestFileHeader | example/angularjs/test-parser.js:14-17 | the header is checked as in the main decoder |
| TestParser.TestFileSummary | example/angularjs/test-parser.js:184-219 | the summary's packet count, and top lists of at most 5 sorted entries |
| TcpAnalysis.AnalyzePacketData | example/angularjs/analyze-tcp.js:94-165 | `null` exactly for the dropped frames (under 14 bytes, or a short IPv4 or TCP header); otherwise offset, length and number are kept, and flags are present exactly for `TCP` |
| TcpAnalysis.UnknownTag | example/angularjs/analyze-tcp.js:160 | `Unknown(0x` + the EtherType in hex + `)` |
| TcpAnalysis.UnknownTagRoundTrip | example/angularjs/analyze-tcp.js:160 | the hex digits of the tag read back to the EtherType |
| TcpAnalysis.AnalysisTags | example/angularjs/analyze-tcp.js:97-157 | each of `TCP`, `UDP`, `ICMP`, `ARP`, `IPv6` is given exactly for its EtherType and protocol |
| TcpAnalysis.AnalysisOtherIp | example/angularjs/analyze-tcp.js:135-141 | another IPv4 protocol n is tagged `IP(n)` |
| TcpAnalysis.AnalysisUnknown | example/angularjs/analyze-tcp.js:159-164 | any other EtherType gets the `Unknown(0x..)` tag |
| TcpAnalysis.AnalysisTcpFields | example/angularjs/analyze-tcp.js:104-120 | the ports are the big-endian words at 34 and 36; the flags are byte 47 |
| TcpAnalysis.AnalyzeWith | example/angularjs/analyze-tcp.js:34-49 | the walk counts at least as many records as it keeps results |
| TcpAnalysis.AnalyzeTurn | example/angularjs/analyze-tcp.js:35-48 | one loop turn: count, stop on length 0, keep a non-`null` result, advance |
| TcpAnalysis.AnalyzeRecords | example/angularjs/analyze-tcp.js:30-49 | the loop's packets and count equal the walk's |
| TcpAnalysis.Analyze | example/angularjs/analyze-tcp.js:30-49 | a file's analysis counts at least as many records as it keeps results |
| TcpAnalysis.WalkNumbering | example/angularjs/analyze-tcp.js:35-42 | results carry strictly increasing numbers in (count, total] and offsets past the start |
| TcpAnalysis.NumberingTurn | example/angularjs/analyze-tcp.js:35-42 | one loop turn keeps the numbering |
| TcpAnalysis.NumberedCons | example/angularjs/analyze-tcp.js:42-46 | a result numbered before a numbered list keeps it numbered |
| TcpAnalysis.AnalyzerStamps | example/angularjs/analyze-tcp.js:117-163 | every result carries the offset and number it was given |
| TcpAnalysis.AnalysisNumbering | example/angularjs/analyze-tcp.js:32-49 | in a file's analysis, the packet numbers strictly increase and never exceed the record count |
| TcpAnalysis.InvalidFlagsCrossCheck | example/angularjs/analyze-tcp.js:59 | the script flags an IPv4 TCP frame as invalid exactly when the decoder copy in test-parser.js throws on it |
| TcpAnalysis.TcpPackets | example/angularjs/analyze-tcp.js:55 | exactly the results tagged `TCP` |
| TcpAnalysis.InvalidTcpPackets | example/angularjs/analyze-tcp.js:81 | exactly the TCP results whose flag byte is outside 0..63 |
| TcpAnalysis.AnalyzeFile | example/angularjs/analyze-tcp.js:14-17 | nothing exactly for a file under 24 bytes |
| TcpAnalysis.AnalyzePcapFile | example/angularjs/analyze-tcp.js:7-92 | the analysis, its TCP results and its invalid ones, equal to `AnalyzeFile` |
| PcapRenderer.EscapeChar | src/renderers/pcap-renderer.ts:24-30 | each of `& < > " '` becomes an entity; every other character is kept |
| PcapRenderer.EscapeHtml | src/renderers/pcap-renderer.ts:23-31 | the result has no `<`, `>`, `"` or `'`, and is no shorter than the input |
| PcapRenderer.EscapeIdentity | src/renderers/pcap-renderer.ts:23-31 | escaping changes a string exactly when it has a special character, and then lengthens it |
| PcapRenderer.EntityAt | src/renderers/pcap-renderer.ts:25-29 | recognises one of the five entities at the head of a string |
| PcapRenderer.EntityAtEscape | src/renderers/pcap-renderer.ts:24-30 | the entity of a special character is recognised with its length |
| PcapRenderer.UnescapeHead | src/renderers/pcap-renderer.ts:24-30 | unescaping an escaped character gives the character back |
| PcapRenderer.UnescapeEscape | src/renderers/pcap-renderer.ts:23-31 | unescaping the escape of any string gives the string back |
| PcapRenderer.EscapeInjective | src/renderers/pcap-renderer.ts:23-31 | different strings escape differently |
| PcapRenderer.AddressItem | src/renderers/pcap-renderer.ts:59 | `escaped address (count)` |
| PcapRenderer.AddressItems | src/renderers/pcap-renderer.ts:59 | one item per entry, in order |
| PcapRenderer.FormatAddressList | src/renderers/pcap-renderer.ts:57-60 | empty exactly for a missing or empty list |
| PcapRenderer.DigitSuffixOf | src/renderers/pcap-renderer.ts:59 | the trailing digits of an item are its count |
| PcapRenderer.ItemBodyRoundTrip | src/renderers/pcap-renderer.ts:59 | an item body reads back to the unescaped address and the count |
| PcapRenderer.AddressItemRoundTrip | src/renderers/pcap-renderer.ts:59 | reading an address item back gives its entry |
| PcapRenderer.NatToStringDecimal | src/renderers/pcap-renderer.ts:59 | a count prints as decimal digits |
| PcapRenderer.ProtocolItem | src/renderers/pcap-renderer.ts:68 | `escaped protocol: count` |
| PcapRenderer.ProtocolItems | src/renderers/pcap-renderer.ts:67-68 | one item per protocol entry, in table order |
| PcapRenderer.ProtocolDistribution | src/renderers/pcap-renderer.ts:67-69 | empty exactly for an empty protocol table; otherwise the items of the table, in order, joined by `, ` |
| PcapRenderer.ProtocolBodyRoundTrip | src/renderers/pcap-renderer.ts:68 | `label: count` reads back to the unescaped label and the count |
| PcapRenderer.ProtocolItemRoundTrip | src/renderers/pcap-renderer.ts:68 | reading a protocol item back (the trailing digits after `: ` are the count, the unescaped text before it the label) gives its entry |
| PcapRenderer.ProtocolItemsRoundTrip | src/renderers/pcap-renderer.ts:67-69 | the items of the distribution line read back, in order, to the protocol table |
| PcapRenderer.SafeKeysLength | src/renderers/pcap-renderer.ts:52-54 | the number of keys, or 0 for a missing table |
| PcapRenderer.DistinctCard | src/renderers/pcap-renderer.ts:65 | a list without repeats has as many elements as its set |
| PcapRenderer.ProtocolTypesCount | src/renderers/pcap-renderer.ts:65 | the protocol-types figure is the number of distinct protocol labels among the packets |
| PcapRenderer.RenderRows | src/renderers/pcap-renderer.ts:112-136 | one row per packet; the source, destination and data of every row are escaped; the length and the protocol are the packet's own, the protocol unescaped |
| PcapRenderer.RowShape | src/renderers/pcap-renderer.ts:113-133 | row i is `even` exactly for even i, is numbered i + 1, has the lower-cased protocol as its badge class, and has a divider exactly when it is not last |
| PcapRenderer.DecodedRowsPlain | src/renderers/pcap-renderer.ts:113-130 | for the packets of a decoded file, the unescaped protocol cells and the badge class hold no markup character |
| PcapRenderer.DividersFrom | src/renderers/pcap-renderer.ts:133 | counts the dividers of the rows from k on |
| PcapRenderer.DividerCount | src/renderers/pcap-renderer.ts:133 | n packets get n - 1 dividers |
| HexCanvas.Width | src/renderers/hex-canvas-renderer.ts:34 | the canvas holds at least the sixteen hex cells |
| HexCanvas.OffsetLabel | src/renderers/hex-canvas-renderer.ts:64 | at least nine characters, ending in `:` |
| HexCanvas.HexCell | src/renderers/hex-canvas-renderer.ts:72 | a token padded to at least two characters |
| HexCanvas.Cells | src/renderers/hex-canvas-renderer.ts:67-74 | one cell per token |
| HexCanvas.AsciiChar | src/renderers/hex-canvas-renderer.ts:78-79 | always a printable character |
| HexCanvas.DrawSpec | src/renderers/hex-canvas-renderer.ts:52-88 | one row per line |
| HexCanvas.Canvas.constructor | src/renderers/hex-canvas-renderer.ts:4 | an empty canvas |
| HexCanvas.CellsPush | src/renderers/hex-canvas-renderer.ts:69-74 | the cell loop invariant kept by one cell |
| HexCanvas.DrawHexCells | src/renderers/hex-canvas-renderer.ts:67-74 | the cursor loop draws exactly `Cells`: a gap before every eighth token after the first |
| HexCanvas.DrawAscii | src/renderers/hex-canvas-renderer.ts:76-82 | the character loop builds exactly the ASCII column |
| HexCanvas.DrawRow | src/renderers/hex-canvas-renderer.ts:53-87 | one pass of the row loop equals `RowSpec` |
| HexCanvas.RowsPush | src/renderers/hex-canvas-renderer.ts:52-88 | the row loop invariant kept by one row |
| HexCanvas.Draw | src/renderers/hex-canvas-renderer.ts:4-92 | sets the width and height from the measured widths or the fallback ones; without a drawing context leaves the drawing and the recorded lines as they were, otherwise draws exactly `DrawSpec` and records the lines and `lineStart` |
| HexCanvas.FallbackWidth | src/renderers/hex-canvas-renderer.ts:23-34 | without a measuring context the canvas is 696 pixels wide |
| HexCanvas.OffsetLabelRoundTrip | src/renderers/hex-canvas-renderer.ts:64 | the label reads back in hex to the global row; below 16^8 it is the eight low digits and `:` |
| HexCanvas.OneGapPerRow | src/renderers/hex-canvas-renderer.ts:70 | a full row of 16 tokens has one gap, before the ninth |
| HexCanvas.CellXClosedForm | src/renderers/hex-canvas-renderer.ts:67-74 | token j sits at offsetWidth + 2 + j × byte width + (j / 8) × group gap |
| HexCanvas.AsciiOfByte | src/renderers/hex-canvas-renderer.ts:78-79 | for a dump token, the byte itself when printable, else `.` |
| HexCanvas.AsciiWidth | src/renderers/hex-canvas-renderer.ts:82-87 | up to 16 tokens give 23 characters, with character j at 2 + j and spaces to the padding |
| HexCanvas.ZebraRows | src/renderers/hex-canvas-renderer.ts:56 | shading is on exactly at odd global rows and alternates row by row |
| HexCanvas.Parity | src/renderers/hex-canvas-renderer.ts:56 | consecutive rows differ in parity |
| HexCanvas.SubrangeDraw | src/renderers/hex-canvas-renderer.ts:53 | drawing rows [a, b) with `lineStart = a` gives the same labels, shading, cells and ASCII, with y shifted by 28 per row |
| I18n.Code | src/i18n/i18n-manager.ts:14 | a language's code is `zh-cn` or `en-us` |
| I18n.DefaultTexts | src/i18n/i18n-manager.ts:43-94 | `getDefaultLanguages`: a key has a text in either table exactly when it is one of the 22 translated keys |
| I18n.SelectLanguage | src/i18n/i18n-manager.ts:101 | English exactly for the code `en-us`, Chinese otherwise |
| I18n.I18nManager.constructor | src/i18n/i18n-manager.ts:12-17 | Chinese, with no tables loaded |
| I18n.I18nManager.LoadLanguages | src/i18n/i18n-manager.ts:33-40 | afterwards the default tables are loaded and returned; a second call changes nothing |
| I18n.I18nManager.SetLanguage | src/i18n/i18n-manager.ts:100-102 | sets the current language to the selected one, keeping the tables |
| I18n.I18nManager.GetCurrentLanguage | src/i18n/i18n-manager.ts:107-109 | returns the current language |
| I18n.I18nManager.GetAllTexts | src/i18n/i18n-manager.ts:123-126 | loads the tables and returns the current language's table |
| I18n.I18nManager.GetText | src/i18n/i18n-manager.ts:115-118 | loads the tables and returns the current language's text for the key; nothing (`undefined`) exactly for an untranslated key |
| I18n.Registry.constructor | src/i18n/i18n-manager.ts:10 | no manager has been created yet |
| I18n.Registry.GetInstance | src/i18n/i18n-manager.ts:22-27 | creates a fresh Chinese manager on the first call and returns the same one afterwards |
| I18n.ChineseDefined | src/i18n/i18n-manager.ts:45-68 | the Chinese table defines exactly the translated keys |
| I18n.EnglishDefined | src/i18n/i18n-manager.ts:69-92 | the English table defines exactly the translated keys |
| I18n.TextsDefined | src/i18n/i18n-manager.ts:45-92 | both tables define the same keys |
| I18n.SelectCode | src/i18n/i18n-manager.ts:101 | selecting by a language's own code gives it back; selection is idempotent |
| I18n.UntranslatedKeys | src/types/index.ts:78-115 | the 17 `LanguageKey`s without a text give `undefined`; `packet` and `formatToggle` have texts but are not `LanguageKey`s |

## Left out

- I/O:
  - reading the file and the sample path (`fs`, `main`) are not modelled;
  - the console output of `analyze-tcp.js` and `test-parser.js` is not
    modelled, including the magic and link-type lines the survey prints.
- Asynchrony: `async`/`await` and font loading are sequential calls here.
- Floating point:
  - the timestamp `seconds + micros / 1000000` is kept as the pair
    (seconds, clamped micros);
  - `formatBytes` (`toFixed(1)`) and the renderer's figure for total bytes
    are not modelled;
  - the renderer's `Date(...).toISOString()` time is not modelled.
- HTML text: the literal HTML of `renderSummary` and `renderPackets` is not
  modelled. What is modelled are the per-row cells placed in it (class,
  number, badge class, addresses, length, protocol, data, divider), apart
  from the time.
- Canvas:
  - pixels, fonts, colours and `devicePixelRatio` are left out;
  - the measured widths are a `Geometry` parameter in whole pixels;
  - the width and height are the CSS-pixel sizes;
  - the x position of the ASCII column is not recorded.
- HexCanvas.AsciiChar: `parseInt` accepts a leading hex prefix of a
  token. The model reads only a token made entirely of hex digits, and shows
  `.` for any other. The dumps the viewer produces only have such tokens.
- Text.ToUpper, Text.ToLower: JavaScript's `toUpperCase` and `toLowerCase`
  map all of Unicode (`'ß'.toUpperCase()` is `SS`); the model maps only the
  ASCII letters. Every string the program passes them is ASCII: hex digits
  and `:` or spaces in the dumps and MAC addresses, and the decoder's
  protocol labels, which `PcapFacts.FrameLabelPlain` proves to be letters,
  digits and parentheses.
- Top entries: the test parser's `[key, count]` arrays and the main
  decoder's `{address, count}` records are both modelled as `Entry(key,
  count)`.
- The shared instance: the static `instance` field of `I18nManager` is the
  `Registry` object.
- I18n.I18nManager.GetText: the key type of the source is `LanguageKey`.
  The model's key type also holds the two table-only keys, which the
  precondition excludes.
- `parsePacket`: the `Number.MAX_SAFE_INTEGER` guard is kept as a conjunct of
  `RecordAt` and `TestRecordAt`, where integers are unbounded; it never
  holds for a record inside the buffer.
- The record loops take the frame decoder as a parameter, and are then
  instantiated with the Ethernet decoder; no behaviour is lost.
- The `instanceof Uint8Array` checks of `FormatUtils`: inputs are byte
  sequences by type.
- Rendering of `texts.*` labels: the renderer escapes some labels and not
  others; the labels are not part of the rows.
- The renderer prints a packet's protocol without escaping it. The model
  keeps it raw and proves markup-free only the labels the decoder gives.
- `src/pcap-element.ts` (the custom element, attributes and fullscreen) and
  the AngularJS controller are not part of this model.
