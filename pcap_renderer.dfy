/** The text rules of src/renderers/pcap-renderer.ts: HTML escaping, the
    summary's address and protocol lists, and the per-packet row rules. The
    HTML template around them is not modelled. */
module PcapRenderer {
  import opened Wrappers
  import opened Text
  import opened PcapTypes
  import opened PcapSummary
  import opened PcapParser
  import opened PcapFacts

  // ---------------------------------------------------------------------------
  // escapeHtml
  // ---------------------------------------------------------------------------

  /** The five characters `escapeHtml` replaces. */
  predicate IsSpecial(c: char)
  {
    c == '&' || c == '<' || c == '>' || c == '"' || c == '\''
  }

  /** The four characters that open or close markup or an attribute value. */
  predicate IsMarkup(c: char)
  {
    c == '<' || c == '>' || c == '"' || c == '\''
  }

  predicate NoSpecials(s: string)
  {
    forall i :: 0 <= i < |s| ==> !IsSpecial(s[i])
  }

  predicate NoMarkup(s: string)
  {
    forall i :: 0 <= i < |s| ==> !IsMarkup(s[i])
  }

  /** The replacement of one character. */
  function EscapeChar(c: char): (r: string)
    ensures NoMarkup(r) && |r| >= 1
    ensures IsSpecial(c) <==> r[0] == '&' && |r| > 1
    ensures !IsSpecial(c) ==> r == [c]
  {
    match c
    case '&' => "&amp;"
    case '<' => "&lt;"
    case '>' => "&gt;"
    case '"' => "&quot;"
    case '\'' => "&#39;"
    case _ => [c]
  }

  /** `escapeHtml`: every special character replaced by its entity, every
      other character kept. The result holds no markup character. */
  function EscapeHtml(s: string): (r: string)
    ensures NoMarkup(r)
    ensures |r| >= |s|
    decreases |s|
  {
    if |s| == 0 then ""
    else
      var head := EscapeChar(s[0]);
      var rest := EscapeHtml(s[1..]);
      assert forall i :: |head| <= i < |head + rest| ==> (head + rest)[i] == rest[i - |head|];
      head + rest
  }

  /** Escaping leaves a string unchanged exactly when it holds no special
      character; otherwise it makes it longer. */
  lemma {:induction false} EscapeIdentity(s: string)
    ensures EscapeHtml(s) == s <==> NoSpecials(s)
    ensures !NoSpecials(s) ==> |EscapeHtml(s)| > |s|
    decreases |s|
  {
    if |s| > 0 {
      EscapeIdentity(s[1..]);
      var rest := EscapeHtml(s[1..]);
      assert EscapeHtml(s) == EscapeChar(s[0]) + rest;
      if NoSpecials(s) {
        assert NoSpecials(s[1..]);
        assert [s[0]] + s[1..] == s;
      } else if IsSpecial(s[0]) {
        assert |EscapeChar(s[0])| > 1;
      } else {
        assert !NoSpecials(s[1..]) by {
          var i :| 0 <= i < |s| && IsSpecial(s[i]);
          assert s[1..][i - 1] == s[i];
        }
      }
    }
  }

  /** Whether `r` begins with `p`. */
  predicate StartsWith(r: string, p: string)
  {
    |p| <= |r| && forall i :: 0 <= i < |p| ==> r[i] == p[i]
  }

  /** The entity `r` begins with, if any: its character and its length. */
  function EntityAt(r: string): (e: Option<(char, nat)>)
    ensures e.Some? ==> 1 <= e.value.1 <= |r|
  {
    if StartsWith(r, "&amp;") then Some(('&', 5))
    else if StartsWith(r, "&lt;") then Some(('<', 4))
    else if StartsWith(r, "&gt;") then Some(('>', 4))
    else if StartsWith(r, "&quot;") then Some(('"', 6))
    else if StartsWith(r, "&#39;") then Some(('\'', 5))
    else None
  }

  /** The inverse of `escapeHtml`: each of the five entities read back to
      its character, every other character kept. */
  function UnescapeHtml(r: string): (s: string)
    decreases |r|
  {
    if |r| == 0 then ""
    else match EntityAt(r)
      case Some((c, n)) => [c] + UnescapeHtml(r[n..])
      case None => [r[0]] + UnescapeHtml(r[1..])
  }

  /** A replacement, followed by anything, starts with the entity of its character. */
  lemma EntityAtEscape(c: char, rest: string)
    ensures var r := EscapeChar(c) + rest;
      EntityAt(r) == if IsSpecial(c) then Some((c, |EscapeChar(c)|)) else None
  {
    var r := EscapeChar(c) + rest;
    assert r[0] == EscapeChar(c)[0];
    if IsSpecial(c) {
      assert r[1] == EscapeChar(c)[1];
      forall i | 0 <= i < |EscapeChar(c)|
        ensures r[i] == EscapeChar(c)[i]
      {
      }
    }
  }

  /** Unescaping one replacement followed by anything reads back the character. */
  lemma UnescapeHead(c: char, rest: string)
    ensures UnescapeHtml(EscapeChar(c) + rest) == [c] + UnescapeHtml(rest)
  {
    var r := EscapeChar(c) + rest;
    EntityAtEscape(c, rest);
    assert r[|EscapeChar(c)|..] == rest;
  }

  /** Escaping loses nothing: unescaping gives the original string back. */
  lemma {:induction false} UnescapeEscape(s: string)
    ensures UnescapeHtml(EscapeHtml(s)) == s
    decreases |s|
  {
    if |s| > 0 {
      UnescapeEscape(s[1..]);
      UnescapeHead(s[0], EscapeHtml(s[1..]));
      assert [s[0]] + s[1..] == s;
    }
  }

  /** So two different strings never escape to the same text. */
  lemma EscapeInjective(s: string, t: string)
    requires EscapeHtml(s) == EscapeHtml(t)
    ensures s == t
  {
    UnescapeEscape(s);
    UnescapeEscape(t);
  }

  // ---------------------------------------------------------------------------
  // Summary lists
  // ---------------------------------------------------------------------------

  /** One entry of an address list: the escaped address and its count in parentheses. */
  function AddressItem(e: Entry): (item: string)
    ensures |item| >= 4 && item[|item| - 1] == ')'
  {
    EscapeHtml(e.key) + " (" + NatToString(e.count, 10) + ")"
  }

  function AddressItems(list: seq<Entry>): (items: seq<string>)
    ensures |items| == |list| && forall i :: 0 <= i < |list| ==> items[i] == AddressItem(list[i])
  {
    seq(|list|, i requires 0 <= i < |list| => AddressItem(list[i]))
  }

  /** A join of parts whose first part is not empty is not empty. */
  lemma JoinNotEmpty(parts: seq<string>, sep: string)
    requires |parts| >= 1 && parts[0] != ""
    ensures Join(parts, sep) != ""
  {
    if |parts| > 1 {
      assert |Join(parts, sep)| >= |parts[0]|;
    }
  }

  /** `formatAddressList`: empty for an absent or empty list, otherwise the
      items joined by a comma and a space. */
  function FormatAddressList(list: Option<seq<Entry>>): (r: string)
    ensures r == "" <==> list.None? || |list.value| == 0
  {
    if list.None? || |list.value| == 0 then ""
    else
      var items := AddressItems(list.value);
      JoinNotEmpty(items, ", ");
      Join(items, ", ")
  }

  /** The length of the run of decimal digits that ends `s`. */
  function DigitSuffix(s: string): (n: nat)
    ensures n <= |s|
    decreases |s|
  {
    if |s| > 0 && '0' <= s[|s| - 1] <= '9' then 1 + DigitSuffix(s[..|s| - 1]) else 0
  }

  lemma {:induction false} DigitSuffixOf(p: string, d: string)
    requires |p| > 0 && !('0' <= p[|p| - 1] <= '9')
    requires forall i :: 0 <= i < |d| ==> '0' <= d[i] <= '9'
    ensures DigitSuffix(p + d) == |d|
    decreases |d|
  {
    if |d| == 0 {
      assert p + d == p;
    } else {
      assert (p + d)[..|p + d| - 1] == p + d[..|d| - 1];
      DigitSuffixOf(p, d[..|d| - 1]);
    }
  }

  /** Reads an address-list item back into the entry it shows: the count is
      the run of digits before the closing parenthesis, the address the
      unescaped text before ` (`. */
  function ParseAddressItem(item: string): (e: Option<Entry>)
  {
    if |item| < 4 || item[|item| - 1] != ')' then None
    else ParseItemBody(item[..|item| - 1])
  }

  /** An item without its closing parenthesis, read back. */
  function ParseItemBody(body: string): (e: Option<Entry>)
  {
    var n := DigitSuffix(body);
    var cut := |body| - n;
    if n == 0 || cut < 2 || body[cut - 2..cut] != " (" then None
    else match ParseNat(body[cut..], 10)
      case None => None
      case Some(count) => Some(Entry(UnescapeHtml(body[..cut - 2]), count))
  }

  lemma ItemBodyRoundTrip(escaped: string, count: nat)
    ensures ParseItemBody(escaped + " (" + NatToString(count, 10)) == Some(Entry(UnescapeHtml(escaped), count))
  {
    var digits := NatToString(count, 10);
    var body := (escaped + " (") + digits;
    NatToStringDecimal(count);
    DigitSuffixOf(escaped + " (", digits);
    var cut := |body| - |digits|;
    assert body[cut - 2..cut] == " (";
    assert body[cut..] == digits;
    assert body[..cut - 2] == escaped;
    ParseNatToString(count, 10);
  }

  /** Every item `formatAddressList` writes reads back to its entry. */
  lemma AddressItemRoundTrip(e: Entry)
    ensures ParseAddressItem(AddressItem(e)) == Some(e)
  {
    var item := AddressItem(e);
    var escaped := EscapeHtml(e.key);
    assert item[..|item| - 1] == escaped + " (" + NatToString(e.count, 10);
    ItemBodyRoundTrip(escaped, e.count);
    UnescapeEscape(e.key);
  }

  /** The digits `NatToString` writes in base 10 are decimal digits. */
  lemma {:induction false} NatToStringDecimal(n: nat)
    ensures forall i :: 0 <= i < |NatToString(n, 10)| ==> '0' <= NatToString(n, 10)[i] <= '9'
    decreases n
  {
    if n >= 10 {
      NatToStringDecimal(n / 10);
    }
  }

  /** One entry of the protocol distribution: the escaped label, a colon, the count. */
  function ProtocolItem(e: Entry): (item: string)
    ensures |item| >= 3
  {
    EscapeHtml(e.key) + ": " + NatToString(e.count, 10)
  }

  function ProtocolItems(protocols: seq<Entry>): (items: seq<string>)
    ensures |items| == |protocols| && forall i :: 0 <= i < |protocols| ==> items[i] == ProtocolItem(protocols[i])
  {
    seq(|protocols|, i requires 0 <= i < |protocols| => ProtocolItem(protocols[i]))
  }

  /** The protocol distribution line: the entries of the protocol table in
      order, joined by a comma and a space; empty exactly when the table is. */
  function ProtocolDistribution(protocols: seq<Entry>): (r: string)
    ensures r == "" <==> |protocols| == 0
    ensures |protocols| > 0 ==> r == Join(ProtocolItems(protocols), ", ")
  {
    var items := ProtocolItems(protocols);
    if |protocols| == 0 then ""
    else
      JoinNotEmpty(items, ", ");
      Join(items, ", ")
  }

  /** Reads a protocol item back into the entry it shows: the count is the
      run of digits that ends the item, the label the unescaped text before
      the `: ` in front of it. */
  function ParseProtocolItem(item: string): (e: Option<Entry>)
  {
    var n := DigitSuffix(item);
    var cut := |item| - n;
    if n == 0 || cut < 2 || item[cut - 2..cut] != ": " then None
    else match ParseNat(item[cut..], 10)
      case None => None
      case Some(count) => Some(Entry(UnescapeHtml(item[..cut - 2]), count))
  }

  /** A protocol item read back gives the unescaped label and the count. */
  lemma ProtocolBodyRoundTrip(escaped: string, count: nat)
    ensures ParseProtocolItem(escaped + ": " + NatToString(count, 10)) == Some(Entry(UnescapeHtml(escaped), count))
  {
    var digits := NatToString(count, 10);
    var item := (escaped + ": ") + digits;
    NatToStringDecimal(count);
    DigitSuffixOf(escaped + ": ", digits);
    var cut := |item| - |digits|;
    assert item[cut - 2..cut] == ": ";
    assert item[cut..] == digits;
    assert item[..cut - 2] == escaped;
    ParseNatToString(count, 10);
  }

  /** Every item of the protocol distribution reads back to its entry. */
  lemma ProtocolItemRoundTrip(e: Entry)
    ensures ParseProtocolItem(ProtocolItem(e)) == Some(e)
  {
    ProtocolBodyRoundTrip(EscapeHtml(e.key), e.count);
    UnescapeEscape(e.key);
  }

  /** The items of the distribution line read back, in order, to the
      protocol table it was written from. */
  lemma ProtocolItemsRoundTrip(protocols: seq<Entry>)
    ensures forall i :: 0 <= i < |protocols| ==> ParseProtocolItem(ProtocolItems(protocols)[i]) == Some(protocols[i])
  {
    forall i | 0 <= i < |protocols|
      ensures ParseProtocolItem(ProtocolItems(protocols)[i]) == Some(protocols[i])
    {
      ProtocolItemRoundTrip(protocols[i]);
    }
  }

  /** `safeKeysLength`: 0 for an absent table, otherwise its number of keys. */
  function SafeKeysLength(table: Option<seq<Entry>>): (n: nat)
    ensures table.Some? ==> n == |table.value|
    ensures table.None? ==> n == 0
  {
    match table
    case None => 0
    case Some(t) => |t|
  }

  /** A sequence without repeats has as many elements as its set. */
  lemma {:induction false} DistinctCard(s: seq<string>)
    requires forall i, j :: 0 <= i < j < |s| ==> s[i] != s[j]
    ensures |set k | k in s| == |s|
    decreases |s|
  {
    if |s| > 0 {
      DistinctCard(s[1..]);
      var rest := set k | k in s[1..];
      assert (set k | k in s) == rest + {s[0]};
      assert s[0] !in rest by {
        forall j | 0 <= j < |s[1..]|
          ensures s[1..][j] != s[0]
        {
          assert s[1..][j] == s[j + 1];
        }
      }
    }
  }

  /** The protocol-type count shown in the summary is the number of
      different protocol labels among the packets. */
  lemma ProtocolTypesCount(ps: seq<PcapPacket>, n: nat)
    ensures SafeKeysLength(Some(Summarize(ps, n).protocols)) == |set k | k in ProtocolKeys(ps)|
  {
    var table := Summarize(ps, n).protocols;
    if |ps| == 0 {
      assert ProtocolKeys(ps) == [];
      assert (set k | k in ProtocolKeys(ps)) == {};
    } else {
      CountsKeySet(ProtocolKeys(ps));
      var keys := Keys(table);
      assert forall i, j :: 0 <= i < j < |keys| ==> keys[i] != keys[j];
      DistinctCard(keys);
      assert (set k | k in keys) == (set k | k in ProtocolKeys(ps));
    }
  }

  // ---------------------------------------------------------------------------
  // Packet rows
  // ---------------------------------------------------------------------------

  /** The text a packet's row shows, apart from its time and the template:
      its class, its 1-based number, the badge's lower-cased protocol class,
      the escaped addresses and data, the length, the protocol as given, and
      whether a divider follows it. */
  datatype PacketRow = PacketRow(cssClass: string, number: nat, protocolClass: string, source: string,
                                 destination: string, length: nat, protocol: string, data: string, divider: bool)

  /** The row of packet `index` in a list of `count` packets. The protocol
      is printed without escaping, in the badge and in the info line. */
  function Row(p: PcapPacket, index: nat, count: nat): PacketRow
  {
    PacketRow(if index % 2 == 0 then "even" else "odd", index + 1, ToLower(p.protocol),
              EscapeHtml(p.source), EscapeHtml(p.destination), p.length, p.protocol, EscapeHtml(p.data),
              index < count - 1)
  }

  /** `renderPackets` row by row: the addresses and data escaped, the length
      and protocol as the packet gives them. */
  function RenderRows(packets: seq<PcapPacket>): (rows: seq<PacketRow>)
    ensures |rows| == |packets|
    ensures forall i :: 0 <= i < |rows| ==> NoMarkup(rows[i].source) && NoMarkup(rows[i].destination) && NoMarkup(rows[i].data)
    ensures forall i :: 0 <= i < |rows| ==>
      rows[i].protocol == packets[i].protocol && rows[i].length == packets[i].length
      && |rows[i].protocolClass| == |packets[i].protocol|
  {
    seq(|packets|, i requires 0 <= i < |packets| => Row(packets[i], i, |packets|))
  }

  /** The number of rows followed by a divider. */
  function Dividers(rows: seq<PacketRow>): nat
  {
    if |rows| == 0 then 0 else (if rows[0].divider then 1 else 0) + Dividers(rows[1..])
  }

  /** Rows alternate `even` and `odd` starting with `even`, are numbered
      from 1, carry the lower-cased protocol as the badge class, and each
      row but the last is followed by a divider. */
  lemma RowShape(packets: seq<PcapPacket>)
    ensures var rows := RenderRows(packets);
      && (forall i :: 0 <= i < |rows| ==> (rows[i].cssClass == "even" <==> i % 2 == 0) && rows[i].number == i + 1)
      && (forall i :: 0 <= i < |rows| - 1 ==> rows[i].cssClass != rows[i + 1].cssClass)
      && (forall i :: 0 <= i < |rows| ==> (rows[i].divider <==> i != |rows| - 1))
      && (forall i :: 0 <= i < |rows| ==> rows[i].protocolClass == ToLower(packets[i].protocol))
  {
    var rows := RenderRows(packets);
    forall i | 0 <= i < |rows|
      ensures (rows[i].cssClass == "even" <==> i % 2 == 0) && rows[i].number == i + 1
      ensures rows[i].divider <==> i != |rows| - 1
      ensures rows[i].protocolClass == ToLower(packets[i].protocol)
    {
      assert rows[i] == Row(packets[i], i, |packets|);
    }
  }

  lemma {:induction false} DividersFrom(rows: seq<PacketRow>, k: nat, total: nat)
    requires k <= total && |rows| == total - k
    requires forall i :: 0 <= i < |rows| ==> (rows[i].divider <==> k + i != total - 1)
    ensures Dividers(rows) == if total == 0 then 0 else if k < total then total - 1 - k else 0
    decreases |rows|
  {
    if |rows| > 0 {
      DividersFrom(rows[1..], k + 1, total);
    }
  }

  /** A list of n packets has n - 1 dividers. */
  lemma DividerCount(packets: seq<PcapPacket>)
    ensures |packets| > 0 ==> Dividers(RenderRows(packets)) == |packets| - 1
  {
    RowShape(packets);
    DividersFrom(RenderRows(packets), 0, |packets|);
  }

  /** The protocol cells are not escaped, but every label the decoder
      gives a packet of a file is free of markup characters, and so is its
      lower-cased class. */
  lemma DecodedRowsPlain(buffer: seq<uint8>)
    ensures forall row | row in RenderRows(Records(buffer)) :: NoMarkup(row.protocol) && NoMarkup(row.protocolClass)
  {
    var packets := Records(buffer);
    var rows := RenderRows(packets);
    RecordsWellFormed(buffer);
    forall row | row in rows
      ensures NoMarkup(row.protocol) && NoMarkup(row.protocolClass)
    {
      var i :| 0 <= i < |rows| && rows[i] == row;
      assert packets[i] in packets;
      PlainLabelNoMarkup(packets[i].protocol);
    }
  }

  /** A label of letters, digits and parentheses, and its lower-cased form,
      hold no markup character. */
  lemma PlainLabelNoMarkup(tag: string)
    requires PlainLabel(tag)
    ensures NoMarkup(tag) && NoMarkup(ToLower(tag))
  {
    forall i | 0 <= i < |tag|
      ensures IsLabelChar(ToLower(tag)[i])
    {
      assert IsLabelChar(tag[i]);
    }
  }
}
