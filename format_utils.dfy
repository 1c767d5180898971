/** The byte helpers of `FormatUtils` (src/utils/format-utils.ts): address and
    hex formatting and the little-endian 32-bit read, plus the fixed-width
    integer reads that the decoders do inline with shifts. */
module FormatUtils {
  import opened Wrappers
  import opened Text

  /** The exceptions the helpers throw. */
  datatype FormatError =
    | MacNotSixBytes      // "MAC address must be exactly 6 bytes long"
    | IpBadLength         // "IP address must be either 4 bytes (IPv4) or 16 bytes (IPv6)"
    | OffsetOutOfBounds   // "Offset is out of bounds."

  /** `(s[i] << 8) | s[i + 1]`: a big-endian 16-bit field. */
  function U16BE(s: seq<uint8>, i: nat): (r: nat)
    requires i + 2 <= |s|
    ensures r < 0x1_0000
  {
    s[i] as nat * 0x100 + s[i + 1]
  }

  /** A big-endian 32-bit field (`DataView.getUint32(i, false)`, or the shifts followed by `>>> 0`). */
  function U32BE(s: seq<uint8>, i: nat): (r: nat)
    requires i + 4 <= |s|
    ensures r < 0x1_0000_0000
  {
    s[i] as nat * 0x100_0000 + s[i + 1] as nat * 0x1_0000 + s[i + 2] as nat * 0x100 + s[i + 3]
  }

  /** A little-endian 32-bit field (`DataView.getUint32(i, true)`). */
  function U32LE(s: seq<uint8>, i: nat): (r: nat)
    requires i + 4 <= |s|
    ensures r < 0x1_0000_0000
  {
    s[i] as nat + s[i + 1] as nat * 0x100 + s[i + 2] as nat * 0x1_0000 + s[i + 3] as nat * 0x100_0000
  }

  /** Reading four bytes little-endian is reading them reversed big-endian. */
  lemma U32LEIsReversedBE(s: seq<uint8>, i: nat)
    requires i + 4 <= |s|
    ensures U32LE(s, i) == U32BE([s[i + 3], s[i + 2], s[i + 1], s[i]], 0)
  {
  }

  /** The four little-endian bytes of a 32-bit value: the inverse of `U32LE`. */
  function EncodeUint32LE(v: nat): (r: seq<uint8>)
    requires v < 0x1_0000_0000
    ensures |r| == 4
  {
    var v1 := v / 0x100;
    var v2 := v1 / 0x100;
    [v % 0x100, v1 % 0x100, v2 % 0x100, v2 / 0x100]
  }

  lemma DivModByte(hi: nat, lo: nat)
    requires lo < 0x100
    ensures (hi * 0x100 + lo) / 0x100 == hi && (hi * 0x100 + lo) % 0x100 == lo
  {
  }

  /** `readUint32`: bounds check, then a little-endian read whatever the file's byte order. */
  function ReadUint32(buffer: seq<uint8>, offset: int): (r: Result<nat, FormatError>)
    ensures r.Failure? <==> offset < 0 || offset + 4 > |buffer|
    ensures r.Failure? ==> r.error == OffsetOutOfBounds
    ensures r.Success? ==> r.value < 0x1_0000_0000
  {
    if offset < 0 || offset + 3 >= |buffer| then Failure(OffsetOutOfBounds)
    else Success(U32LE(buffer, offset))
  }

  /** Encoding a value and reading it back gives the value. */
  lemma ReadEncodedUint32(v: nat)
    requires v < 0x1_0000_0000
    ensures ReadUint32(EncodeUint32LE(v), 0) == Success(v)
  {
  }

  /** A successful read determines the four bytes it read: reading is injective. */
  lemma EncodeReadUint32(buffer: seq<uint8>, offset: int)
    requires ReadUint32(buffer, offset).Success?
    ensures EncodeUint32LE(ReadUint32(buffer, offset).value) == buffer[offset..offset + 4]
  {
    var v := ReadUint32(buffer, offset).value;
    var b := buffer[offset..offset + 4];
    var v2 := b[3] as nat * 0x100 + b[2];
    var v1 := v2 * 0x100 + b[1];
    assert v == v1 * 0x100 + b[0];
    DivModByte(v1, b[0]);
    DivModByte(v2, b[1]);
    DivModByte(b[3], b[2]);
  }

  /** The bytes 78 56 34 12 read as 0x12345678. */
  lemma ReadUint32Example()
    ensures ReadUint32([0x78, 0x56, 0x34, 0x12], 0) == Success(0x12345678)
  {
  }

  /** Each byte as two lower-case hex digits. */
  function HexPairs(bytes: seq<uint8>): (r: seq<string>)
    ensures |r| == |bytes| && forall i :: 0 <= i < |bytes| ==> r[i] == Hex2(bytes[i])
  {
    seq(|bytes|, i requires 0 <= i < |bytes| => Hex2(bytes[i]))
  }

  /** Every pair has two characters. */
  lemma HexPairsLength(bytes: seq<uint8>)
    ensures forall i :: 0 <= i < |bytes| ==> |HexPairs(bytes)[i]| == 2
  {
    forall i | 0 <= i < |bytes| ensures |HexPairs(bytes)[i]| == 2 {
      assert HexPairs(bytes)[i] == Hex2(bytes[i]);
    }
  }

  /** `formatMacAddress`: six two-digit hex groups joined by `:`, then upper-cased. */
  function FormatMacAddress(bytes: seq<uint8>): (r: Result<string, FormatError>)
    ensures r.Failure? <==> |bytes| != 6
    ensures r.Failure? ==> r.error == MacNotSixBytes
  {
    if |bytes| != 6 then Failure(MacNotSixBytes)
    else Success(ToUpper(Join(HexPairs(bytes), ":")))
  }

  /** An upper-case hex digit or a `:`. */
  predicate IsMacChar(c: char) {
    '0' <= c <= '9' || 'A' <= c <= 'F' || c == ':'
  }

  /** An upper-case hex digit. */
  predicate IsUpperHexChar(c: char) {
    '0' <= c <= '9' || 'A' <= c <= 'F'
  }

  /** A MAC string is six upper-case digit pairs, high nibble first, with `:` between them. */
  lemma MacLayout(bytes: seq<uint8>)
    requires |bytes| == 6
    ensures var s := FormatMacAddress(bytes).value;
      && |s| == 17
      && (forall k :: 0 <= k < 6 ==>
            && s[3 * k] == UpperChar(DigitChar(bytes[k] / 16))
            && s[3 * k + 1] == UpperChar(DigitChar(bytes[k] % 16))
            && IsUpperHexChar(s[3 * k]) && IsUpperHexChar(s[3 * k + 1]))
      && (forall k :: 0 <= k < 5 ==> s[3 * k + 2] == ':')
  {
    var parts := HexPairs(bytes);
    HexPairsLength(bytes);
    JoinPairs(parts, ':');
    var j := Join(parts, [':']);
    var s := ToUpper(j);
    assert FormatMacAddress(bytes).value == s;
    forall k | 0 <= k < 6
      ensures s[3 * k] == UpperChar(DigitChar(bytes[k] / 16)) && s[3 * k + 1] == UpperChar(DigitChar(bytes[k] % 16))
      ensures IsUpperHexChar(s[3 * k]) && IsUpperHexChar(s[3 * k + 1])
    {
      assert parts[k] == Hex2(bytes[k]);
      assert j[3 * k] == parts[k][0] && j[3 * k + 1] == parts[k][1];
    }
    forall k | 0 <= k < 5 ensures s[3 * k + 2] == ':' {
      assert j[3 * k + 2] == ':';
    }
  }

  /** The MAC string is the upper-cased pairs joined by `:`. */
  lemma MacIsUpperPairs(bytes: seq<uint8>)
    requires |bytes| == 6
    ensures FormatMacAddress(bytes).value
         == Join(seq(6, i requires 0 <= i < 6 => ToUpper(HexPairs(bytes)[i])), [':'])
  {
    ToUpperJoin(HexPairs(bytes), ":");
    assert ToUpper(":") == ":";
  }

  lemma UpperHex2(b: uint8)
    ensures ':' !in ToUpper(Hex2(b)) && ' ' !in ToUpper(Hex2(b)) && |ToUpper(Hex2(b))| == 2
    ensures ParseNat(ToUpper(Hex2(b)), 16) == Some(b as int)
  {
    ParseNatUpper(Hex2(b), 16);
    ParseHex2(b);
  }

  /** Splitting a MAC string on `:` and reading each group as hex gives the bytes back. */
  lemma MacRoundTrip(bytes: seq<uint8>)
    requires |bytes| == 6
    ensures ParseTokens(Split(FormatMacAddress(bytes).value, ':'), 16) == Some(bytes)
  {
    var up := seq(6, i requires 0 <= i < 6 => ToUpper(HexPairs(bytes)[i]));
    MacIsUpperPairs(bytes);
    forall i | 0 <= i < 6 ensures ':' !in up[i] && ParseNat(up[i], 16) == Some(bytes[i] as int) {
      UpperHex2(bytes[i]);
    }
    SplitJoin(up, ':');
    ParseTokensAll(up, 16, bytes);
  }

  /** Each byte in decimal. */
  function DecimalParts(bytes: seq<uint8>): (r: seq<string>)
    ensures |r| == |bytes| && forall i :: 0 <= i < |bytes| ==> r[i] == NatToString(bytes[i], 10)
  {
    seq(|bytes|, i requires 0 <= i < |bytes| => NatToString(bytes[i], 10))
  }

  /** `formatIpAddress`: 4 or 16 bytes in decimal, joined by `.`. */
  function FormatIpAddress(bytes: seq<uint8>): (r: Result<string, FormatError>)
    ensures r.Failure? <==> |bytes| != 4 && |bytes| != 16
    ensures r.Failure? ==> r.error == IpBadLength
  {
    if |bytes| != 4 && |bytes| != 16 then Failure(IpBadLength)
    else Success(Join(DecimalParts(bytes), "."))
  }

  /** Splitting an address string on `.` and reading each part in decimal gives the bytes back. */
  lemma IpRoundTrip(bytes: seq<uint8>)
    requires |bytes| == 4 || |bytes| == 16
    ensures ParseTokens(Split(FormatIpAddress(bytes).value, '.'), 10) == Some(bytes)
  {
    var parts := DecimalParts(bytes);
    forall i | 0 <= i < |parts| ensures '.' !in parts[i] && ParseNat(parts[i], 10) == Some(bytes[i] as int) {
      ParseNatToString(bytes[i], 10);
      assert forall j :: 0 <= j < |parts[i]| ==> IsDigitChar(parts[i][j]);
    }
    SplitJoin(parts, '.');
    ParseTokensAll(parts, 10, bytes);
  }

  /** Different addresses of the same length format differently. */
  lemma IpInjective(a: seq<uint8>, b: seq<uint8>)
    requires |a| == 4 && |b| == 4
    requires FormatIpAddress(a) == FormatIpAddress(b)
    ensures a == b
  {
    IpRoundTrip(a);
    IpRoundTrip(b);
  }

  /** The test case 192.168.1.1. */
  lemma IpExample()
    ensures FormatIpAddress([192, 168, 1, 1]) == Success("192.168.1.1")
  {
    IpExampleParts();
    assert Join(["1", "1"], ".") == "1.1";
    assert Join(["168", "1", "1"], ".") == "168.1.1";
    assert Join(["192", "168", "1", "1"], ".") == "192.168.1.1";
  }

  lemma IpExampleParts()
    ensures DecimalParts([192, 168, 1, 1]) == ["192", "168", "1", "1"]
  {
    assert NatToString(192, 10) == "192";
    assert NatToString(168, 10) == "168";
    assert NatToString(1, 10) == "1";
  }

  /** `arrayToHexString`: lower-case two-digit hex bytes separated by single spaces. */
  function ArrayToHexString(data: seq<uint8>): (s: string)
    ensures |s| == if |data| == 0 then 0 else 3 * |data| - 1
  {
    if |data| == 0 then ""
    else
      HexPairsLength(data);
      JoinPairs(HexPairs(data), ' ');
      Join(HexPairs(data), " ")
  }

  /** Byte `k` is the digit pair at `3k`, and a single space follows every pair but the last. */
  lemma HexStringLayout(data: seq<uint8>)
    ensures var s := ArrayToHexString(data);
      && |s| == (if |data| == 0 then 0 else 3 * |data| - 1)
      && (forall k :: 0 <= k < |data| ==> s[3 * k..3 * k + 2] == Hex2(data[k]))
      && (forall k :: 0 <= k < |data| - 1 ==> s[3 * k + 2] == ' ')
  {
    if |data| > 0 {
      var parts := HexPairs(data);
      HexPairsLength(data);
      JoinPairs(parts, ' ');
      var s := Join(parts, [' ']);
      forall k | 0 <= k < |data| ensures s[3 * k..3 * k + 2] == Hex2(data[k]) {
        assert parts[k] == Hex2(data[k]);
        assert s[3 * k..3 * k + 2] == [s[3 * k], s[3 * k + 1]];
      }
    }
  }

  /** Reads a hex dump back: space-separated tokens of exactly two hex digits each. */
  function ParseHexString(s: string): Option<seq<int>> {
    if s == "" then Some([])
    else
      var tokens := Split(s, ' ');
      if forall i :: 0 <= i < |tokens| ==> |tokens[i]| == 2 then ParseTokens(tokens, 16) else None
  }

  lemma SplitHexPairs(data: seq<uint8>)
    requires |data| > 0
    ensures Split(Join(HexPairs(data), [' ']), ' ') == HexPairs(data)
  {
    var parts := HexPairs(data);
    forall i | 0 <= i < |parts| ensures ' ' !in parts[i] {
      assert parts[i] == Hex2(data[i]);
    }
    SplitJoin(parts, ' ');
  }

  lemma ParseHexPairs(data: seq<uint8>)
    ensures ParseTokens(HexPairs(data), 16) == Some(data)
  {
    var parts := HexPairs(data);
    forall i | 0 <= i < |parts| ensures ParseNat(parts[i], 16) == Some(data[i] as int) {
      assert parts[i] == Hex2(data[i]);
      ParseHex2(data[i]);
    }
    ParseTokensAll(parts, 16, data);
  }

  /** Reading a hex dump back gives the bytes it was made from. */
  lemma HexStringRoundTrip(data: seq<uint8>)
    ensures ParseHexString(ArrayToHexString(data)) == Some(data)
  {
    if |data| > 0 {
      var parts := HexPairs(data);
      HexPairsLength(data);
      SplitHexPairs(data);
      ParseHexPairs(data);
      var s := ArrayToHexString(data);
      assert s == Join(parts, [' ']) && s != "";
      var tokens := Split(s, ' ');
      assert tokens == parts;
      assert forall i :: 0 <= i < |tokens| ==> |tokens[i]| == 2;
    }
  }

  /** Different byte strings have different hex dumps. */
  lemma HexStringInjective(a: seq<uint8>, b: seq<uint8>)
    requires ArrayToHexString(a) == ArrayToHexString(b)
    ensures a == b
  {
    HexStringRoundTrip(a);
    HexStringRoundTrip(b);
  }

  /** The test case 00 ff 10. */
  lemma HexStringExample()
    ensures ArrayToHexString([0, 255, 16]) == "00 ff 10"
  {
    var data: seq<uint8> := [0, 255, 16];
    assert HexPairs(data) == ["00", "ff", "10"];
    assert Join(["00", "ff", "10"], " ") == "00 ff 10";
  }
}
