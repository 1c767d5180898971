/** The summary fold of the decoder (src/utils/pcap-parser.ts: `getTopN`,
    `generateSummary`): per-key count tables built in one pass over the
    packets, and the top entries of a table by descending count. */
module PcapSummary {
  import opened PcapTypes

  /** `field || 'Unknown'`: an empty label counts as `Unknown`. */
  function KeyOf(s: string): (k: string)
    ensures k != ""
    ensures s != "" ==> k == s
  {
    if s == "" then "Unknown" else s
  }

  // ---------------------------------------------------------------------------
  // Count tables
  // ---------------------------------------------------------------------------

  /** `table[key] || 0`. */
  function Lookup(table: seq<Entry>, key: string): nat {
    if |table| == 0 then 0
    else if table[0].key == key then table[0].count
    else Lookup(table[1..], key)
  }

  /** The keys of a table, in enumeration order. */
  function Keys(table: seq<Entry>): (r: seq<string>)
    ensures |r| == |table| && forall i :: 0 <= i < |table| ==> r[i] == table[i].key
  {
    seq(|table|, i requires 0 <= i < |table| => table[i].key)
  }

  /** No key occurs twice. */
  predicate DistinctKeys(table: seq<Entry>) {
    forall i, j :: 0 <= i < j < |table| ==> table[i].key != table[j].key
  }

  /** The sum of the counts of a table. */
  function SumCounts(table: seq<Entry>): nat {
    if |table| == 0 then 0 else table[0].count + SumCounts(table[1..])
  }

  /** `table[key] = (table[key] || 0) + 1`: an existing key keeps its place,
      a new key is added at the end. */
  function Bump(table: seq<Entry>, key: string): (r: seq<Entry>)
    ensures |r| == if key in Keys(table) then |table| else |table| + 1
  {
    if |table| == 0 then [Entry(key, 1)]
    else if table[0].key == key then [Entry(key, table[0].count + 1)] + table[1..]
    else
      assert Keys(table[1..]) == Keys(table)[1..];
      [table[0]] + Bump(table[1..], key)
  }

  /** Bumping a key adds one to its count and changes no other count. */
  lemma {:induction false} BumpLookup(table: seq<Entry>, key: string, k: string)
    ensures Lookup(Bump(table, key), k) == Lookup(table, k) + (if k == key then 1 else 0)
  {
    if |table| > 0 && table[0].key != key {
      BumpLookup(table[1..], key, k);
    }
  }

  /** Bumping keeps the key order and appends a key it has not seen. */
  lemma {:induction false} BumpKeys(table: seq<Entry>, key: string)
    ensures Keys(Bump(table, key)) == if key in Keys(table) then Keys(table) else Keys(table) + [key]
  {
    if |table| > 0 && table[0].key != key {
      var t := table[1..];
      BumpKeys(t, key);
      KeysCons(table[0], t);
      KeysCons(table[0], Bump(t, key));
      assert table == [table[0]] + t;
      if key !in Keys(t) {
        assert [table[0].key] + (Keys(t) + [key]) == [table[0].key] + Keys(t) + [key];
      }
    }
  }

  /** The keys of a table with an entry in front. */
  lemma KeysCons(e: Entry, t: seq<Entry>)
    ensures Keys([e] + t) == [e.key] + Keys(t)
  {
  }

  /** Bumping adds one to the total and keeps every count positive. */
  lemma {:induction false} BumpSum(table: seq<Entry>, key: string)
    requires forall i :: 0 <= i < |table| ==> table[i].count >= 1
    ensures SumCounts(Bump(table, key)) == SumCounts(table) + 1
    ensures forall i :: 0 <= i < |Bump(table, key)| ==> Bump(table, key)[i].count >= 1
  {
    if |table| > 0 && table[0].key != key {
      BumpSum(table[1..], key);
    }
  }

  /** The table the decoder's `forEach` builds from a sequence of keys. */
  function Counts(keys: seq<string>): (table: seq<Entry>)
    ensures |table| <= |keys| && (|table| == 0 <==> |keys| == 0)
  {
    if |keys| == 0 then [] else Bump(Counts(keys[..|keys| - 1]), keys[|keys| - 1])
  }

  /** Counting one more key bumps that key. */
  lemma CountsSnoc(keys: seq<string>, key: string)
    ensures Counts(keys + [key]) == Bump(Counts(keys), key)
  {
    assert (keys + [key])[..|keys|] == keys;
  }

  /** The table has one entry per distinct key, every count is positive, and
      the counts add up to the number of keys. */
  lemma CountsFacts(keys: seq<string>)
    ensures var r := Counts(keys);
      && DistinctKeys(r)
      && (forall k :: k in Keys(r) <==> k in keys)
      && (forall i :: 0 <= i < |r| ==> r[i].count >= 1)
      && SumCounts(r) == |keys|
  {
    CountsKeySet(keys);
    CountsSum(keys);
  }

  lemma {:induction false} CountsKeySet(keys: seq<string>)
    ensures DistinctKeys(Counts(keys))
    ensures forall k :: k in Keys(Counts(keys)) <==> k in keys
  {
    if |keys| > 0 {
      var init := keys[..|keys| - 1];
      var prev := Counts(init);
      var key := keys[|keys| - 1];
      CountsKeySet(init);
      BumpDistinct(prev, key);
      BumpKeys(prev, key);
      assert keys == init + [key];
    }
  }

  /** Bumping keeps the keys of a table distinct. */
  lemma BumpDistinct(table: seq<Entry>, key: string)
    requires DistinctKeys(table)
    ensures DistinctKeys(Bump(table, key))
  {
    var r := Bump(table, key);
    BumpKeys(table, key);
    forall i, j | 0 <= i < j < |r| ensures r[i].key != r[j].key {
      assert Keys(r)[i] == r[i].key && Keys(r)[j] == r[j].key;
      if key !in Keys(table) && j == |table| {
        assert Keys(table)[i] == table[i].key;
      }
    }
  }

  lemma {:induction false} CountsSum(keys: seq<string>)
    ensures forall i :: 0 <= i < |Counts(keys)| ==> Counts(keys)[i].count >= 1
    ensures SumCounts(Counts(keys)) == |keys|
  {
    if |keys| > 0 {
      var init := keys[..|keys| - 1];
      CountsSum(init);
      BumpSum(Counts(init), keys[|keys| - 1]);
    }
  }

  /** The count of a key is the number of times it occurs. */
  lemma {:induction false} CountsLookup(keys: seq<string>, k: string)
    ensures Lookup(Counts(keys), k) == multiset(keys)[k]
  {
    if |keys| > 0 {
      var key := keys[|keys| - 1];
      CountsLookup(keys[..|keys| - 1], k);
      BumpLookup(Counts(keys[..|keys| - 1]), key, k);
      assert keys == keys[..|keys| - 1] + [key];
    }
  }

  /** The distinct keys of a sequence, in the order of their first occurrence. */
  function FirstSeen(keys: seq<string>): seq<string> {
    if |keys| == 0 then []
    else
      var prev := FirstSeen(keys[..|keys| - 1]);
      if keys[|keys| - 1] in prev then prev else prev + [keys[|keys| - 1]]
  }

  /** The table lists each key once, in the order of its first occurrence. */
  lemma {:induction false} CountsKeys(keys: seq<string>)
    ensures Keys(Counts(keys)) == FirstSeen(keys)
  {
    if |keys| > 0 {
      CountsKeys(keys[..|keys| - 1]);
      BumpKeys(Counts(keys[..|keys| - 1]), keys[|keys| - 1]);
    }
  }

  // ---------------------------------------------------------------------------
  // Top entries (`getTopN`)
  // ---------------------------------------------------------------------------

  /** Counts never increase along the table. */
  predicate SortedDesc(s: seq<Entry>) {
    forall i, j :: 0 <= i < j < |s| ==> s[i].count >= s[j].count
  }

  /** Inserts an entry before the first entry whose count it reaches. */
  function InsertDesc(e: Entry, t: seq<Entry>): (r: seq<Entry>)
    ensures |r| == |t| + 1
  {
    if |t| == 0 || e.count >= t[0].count then [e] + t
    else [t[0]] + InsertDesc(e, t[1..])
  }

  /** The stable descending sort `sort(([, a], [, b]) => b - a)`. */
  function SortDesc(s: seq<Entry>): (r: seq<Entry>)
    ensures |r| == |s|
  {
    if |s| == 0 then [] else InsertDesc(s[0], SortDesc(s[1..]))
  }

  lemma {:induction false} InsertDescSorted(e: Entry, t: seq<Entry>)
    requires SortedDesc(t)
    ensures SortedDesc(InsertDesc(e, t))
    ensures multiset(InsertDesc(e, t)) == multiset(t) + multiset{e}
  {
    InsertDescMultiset(e, t);
    if |t| > 0 && e.count < t[0].count {
      var rest := InsertDesc(e, t[1..]);
      InsertDescSorted(e, t[1..]);
      InsertDescMultiset(e, t[1..]);
      forall j | 0 <= j < |rest| ensures t[0].count >= rest[j].count {
        assert rest[j] in multiset(rest);
        assert rest[j] == e || rest[j] in multiset(t[1..]);
      }
      assert InsertDesc(e, t) == [t[0]] + rest;
    }
  }

  lemma {:induction false} InsertDescMultiset(e: Entry, t: seq<Entry>)
    ensures multiset(InsertDesc(e, t)) == multiset(t) + multiset{e}
  {
    if |t| > 0 && e.count < t[0].count {
      InsertDescMultiset(e, t[1..]);
      assert t == [t[0]] + t[1..];
    }
  }

  /** The sort orders by count and keeps every entry. */
  lemma {:induction false} SortDescCorrect(s: seq<Entry>)
    ensures SortedDesc(SortDesc(s))
    ensures multiset(SortDesc(s)) == multiset(s)
  {
    if |s| > 0 {
      SortDescCorrect(s[1..]);
      InsertDescSorted(s[0], SortDesc(s[1..]));
      assert s == [s[0]] + s[1..];
    }
  }

  /** The entries with a given count, in table order. */
  function WithCount(s: seq<Entry>, c: nat): seq<Entry> {
    if |s| == 0 then [] else (if s[0].count == c then [s[0]] else []) + WithCount(s[1..], c)
  }

  lemma {:induction false} InsertWithCount(e: Entry, t: seq<Entry>, c: nat)
    requires SortedDesc(t)
    ensures WithCount(InsertDesc(e, t), c) == (if e.count == c then [e] else []) + WithCount(t, c)
  {
    WithCountCons(e, t, c);
    if |t| > 0 && e.count < t[0].count {
      var t1 := t[1..];
      InsertWithCount(e, t1, c);
      WithCountCons(t[0], InsertDesc(e, t1), c);
      WithCountCons(t[0], t1, c);
      assert t == [t[0]] + t1;
    }
  }

  /** The entries of one count in a table with an entry in front. */
  lemma WithCountCons(e: Entry, t: seq<Entry>, c: nat)
    ensures WithCount([e] + t, c) == (if e.count == c then [e] else []) + WithCount(t, c)
  {
    assert ([e] + t)[1..] == t;
  }

  /** The sort is stable: entries with equal counts keep their relative order. */
  lemma {:induction false} SortDescStable(s: seq<Entry>, c: nat)
    ensures WithCount(SortDesc(s), c) == WithCount(s, c)
  {
    if |s| > 0 {
      SortDescStable(s[1..], c);
      SortDescCorrect(s[1..]);
      InsertWithCount(s[0], SortDesc(s[1..]), c);
    }
  }

  lemma {:induction false} WithCountPrefix(s: seq<Entry>, k: nat, c: nat)
    requires k <= |s|
    ensures WithCount(s[..k], c) <= WithCount(s, c)
  {
    if k > 0 {
      WithCountPrefix(s[1..], k - 1, c);
      assert s[..k][1..] == s[1..][..k - 1];
    }
  }

  /** Every entry past a prefix of a sorted table counts at most as much as
      any entry of the prefix. */
  lemma PrefixIsTop(sorted: seq<Entry>, k: nat)
    requires SortedDesc(sorted) && k <= |sorted|
    ensures forall i, e :: 0 <= i < k && e in sorted && e !in sorted[..k] ==> e.count <= sorted[i].count
  {
    forall i, e | 0 <= i < k && e in sorted && e !in sorted[..k] ensures e.count <= sorted[i].count {
      var j :| 0 <= j < |sorted| && sorted[j] == e;
      assert j >= k;
    }
  }

  lemma PrefixMultiset(s: seq<Entry>, k: nat)
    requires k <= |s|
    ensures multiset(s[..k]) <= multiset(s)
  {
    assert s == s[..k] + s[k..];
  }

  lemma SameElements(s: seq<Entry>, t: seq<Entry>)
    requires multiset(s) == multiset(t)
    ensures forall e :: e in s <==> e in t
  {
    forall e ensures e in s <==> e in t {
      assert e in s <==> e in multiset(s);
      assert e in t <==> e in multiset(t);
    }
  }

  /** `getTopN(table, n)`: the first `n` entries of the table sorted by
      descending count, ties in table order. */
  function TopN(table: seq<Entry>, n: nat): (top: seq<Entry>)
    ensures |top| == if |table| < n then |table| else n
  {
    SortDesc(table)[..if |table| < n then |table| else n]
  }

  /** The top list has `min(|table|, n)` entries in non-increasing count
      order, all taken from the table; nothing left out counts more than an
      entry kept; and among entries of equal count the kept ones are the
      first ones in table order. */
  lemma TopNFacts(table: seq<Entry>, n: nat)
    ensures var r := TopN(table, n);
      && |r| == (if |table| < n then |table| else n)
      && SortedDesc(r)
      && multiset(r) <= multiset(table)
      && (forall i, e :: 0 <= i < |r| && e in table && e !in r ==> e.count <= r[i].count)
      && (forall c :: WithCount(r, c) <= WithCount(table, c))
  {
    var k := if |table| < n then |table| else n;
    TopSorted(table, k);
    TopFromTable(table, k);
    TopDominates(table, k);
    TopStable(table, k);
  }

  /** A prefix of the sorted table is sorted. */
  lemma TopSorted(table: seq<Entry>, k: nat)
    requires k <= |table|
    ensures SortedDesc(SortDesc(table)[..k])
  {
    SortDescCorrect(table);
  }

  /** A prefix of the sorted table takes its entries from the table. */
  lemma TopFromTable(table: seq<Entry>, k: nat)
    requires k <= |table|
    ensures multiset(SortDesc(table)[..k]) <= multiset(table)
  {
    SortDescCorrect(table);
    PrefixMultiset(SortDesc(table), k);
  }

  /** An entry of the table outside a prefix of the sorted table counts no
      more than any entry inside it. */
  lemma TopDominates(table: seq<Entry>, k: nat)
    requires k <= |table|
    ensures var r := SortDesc(table)[..k];
      forall i, e :: 0 <= i < k && e in table && e !in r ==> e.count <= r[i].count
  {
    var sorted := SortDesc(table);
    SortDescCorrect(table);
    PrefixIsTop(sorted, k);
    SameElements(table, sorted);
  }

  /** Among entries of one count, a prefix of the sorted table keeps the
      first ones in table order. */
  lemma TopStable(table: seq<Entry>, k: nat)
    requires k <= |table|
    ensures forall c :: WithCount(SortDesc(table)[..k], c) <= WithCount(table, c)
  {
    forall c ensures WithCount(SortDesc(table)[..k], c) <= WithCount(table, c) {
      WithCountPrefix(SortDesc(table), k, c);
      SortDescStable(table, c);
    }
  }

  // ---------------------------------------------------------------------------
  // The summary
  // ---------------------------------------------------------------------------

  function ProtocolKeys(ps: seq<PcapPacket>): (r: seq<string>)
    ensures |r| == |ps| && forall i :: 0 <= i < |ps| ==> r[i] == KeyOf(ps[i].protocol)
  {
    seq(|ps|, i requires 0 <= i < |ps| => KeyOf(ps[i].protocol))
  }

  function SourceKeys(ps: seq<PcapPacket>): (r: seq<string>)
    ensures |r| == |ps| && forall i :: 0 <= i < |ps| ==> r[i] == KeyOf(ps[i].source)
  {
    seq(|ps|, i requires 0 <= i < |ps| => KeyOf(ps[i].source))
  }

  function DestinationKeys(ps: seq<PcapPacket>): (r: seq<string>)
    ensures |r| == |ps| && forall i :: 0 <= i < |ps| ==> r[i] == KeyOf(ps[i].destination)
  {
    seq(|ps|, i requires 0 <= i < |ps| => KeyOf(ps[i].destination))
  }

  /** The sum of the packet lengths. */
  function TotalBytes(ps: seq<PcapPacket>): nat {
    if |ps| == 0 then 0 else TotalBytes(ps[..|ps| - 1]) + ps[|ps| - 1].length
  }

  /** Extending the packet prefix by one packet extends each key list by that packet's key. */
  lemma KeysSnoc(ps: seq<PcapPacket>, i: nat)
    requires i < |ps|
    ensures ProtocolKeys(ps[..i + 1]) == ProtocolKeys(ps[..i]) + [KeyOf(ps[i].protocol)]
    ensures SourceKeys(ps[..i + 1]) == SourceKeys(ps[..i]) + [KeyOf(ps[i].source)]
    ensures DestinationKeys(ps[..i + 1]) == DestinationKeys(ps[..i]) + [KeyOf(ps[i].destination)]
    ensures TotalBytes(ps[..i + 1]) == TotalBytes(ps[..i]) + ps[i].length
  {
    assert ps[..i + 1][..i] == ps[..i];
  }

  /** One packet more updates each table by one count and the total by its length. */
  lemma FoldStep(ps: seq<PcapPacket>, i: nat)
    requires i < |ps|
    ensures Counts(ProtocolKeys(ps[..i + 1])) == Bump(Counts(ProtocolKeys(ps[..i])), KeyOf(ps[i].protocol))
    ensures Counts(SourceKeys(ps[..i + 1])) == Bump(Counts(SourceKeys(ps[..i])), KeyOf(ps[i].source))
    ensures Counts(DestinationKeys(ps[..i + 1])) == Bump(Counts(DestinationKeys(ps[..i])), KeyOf(ps[i].destination))
    ensures TotalBytes(ps[..i + 1]) == TotalBytes(ps[..i]) + ps[i].length
  {
    KeysSnoc(ps, i);
    CountsSnoc(ProtocolKeys(ps[..i]), KeyOf(ps[i].protocol));
    CountsSnoc(SourceKeys(ps[..i]), KeyOf(ps[i].source));
    CountsSnoc(DestinationKeys(ps[..i]), KeyOf(ps[i].destination));
  }

  /** What `generateSummary` computes, with the top lists cut at `n`. */
  function Summarize(ps: seq<PcapPacket>, n: nat): (s: Summary)
    ensures s.totalPackets == |ps| && |s.protocols| <= |ps|
    ensures |s.topSources| <= n && |s.topDestinations| <= n
  {
    if |ps| == 0 then Summary(0, 0, [], [], [])
    else Summary(|ps|, TotalBytes(ps), Counts(ProtocolKeys(ps)),
                 TopN(Counts(SourceKeys(ps)), n), TopN(Counts(DestinationKeys(ps)), n))
  }

  /** The one-pass fold of `generateSummary`: three count tables and a byte
      total updated packet by packet, then the top `n` of two of them. */
  method GenerateSummary(packets: seq<PcapPacket>, n: nat) returns (s: Summary)
    ensures s == Summarize(packets, n)
  {
    if |packets| == 0 {
      return Summary(0, 0, [], [], []);
    }
    var protocols, sources, destinations, totalBytes := CountPackets(packets);
    s := Summary(|packets|, totalBytes, protocols, TopN(sources, n), TopN(destinations, n));
  }

  /** The `forEach` of `generateSummary`: each packet bumps its protocol,
      source and destination counts and adds its length to the total. */
  method CountPackets(packets: seq<PcapPacket>) returns (protocols: seq<Entry>, sources: seq<Entry>, destinations: seq<Entry>, totalBytes: nat)
    ensures protocols == Counts(ProtocolKeys(packets))
    ensures sources == Counts(SourceKeys(packets))
    ensures destinations == Counts(DestinationKeys(packets))
    ensures totalBytes == TotalBytes(packets)
  {
    protocols, sources, destinations, totalBytes := [], [], [], 0;
    for i := 0 to |packets|
      invariant protocols == Counts(ProtocolKeys(packets[..i]))
      invariant sources == Counts(SourceKeys(packets[..i]))
      invariant destinations == Counts(DestinationKeys(packets[..i]))
      invariant totalBytes == TotalBytes(packets[..i])
    {
      var packet := packets[i];
      FoldStep(packets, i);
      protocols := Bump(protocols, KeyOf(packet.protocol));
      sources := Bump(sources, KeyOf(packet.source));
      destinations := Bump(destinations, KeyOf(packet.destination));
      totalBytes := totalBytes + packet.length;
    }
    assert packets[..|packets|] == packets;
  }

  /** The summary's totals and protocol counts: the packet count, the byte
      total, one entry per protocol label holding the number of packets with
      that label, and counts that add up to the packet count. */
  lemma SummarizeFacts(ps: seq<PcapPacket>, n: nat)
    ensures var s := Summarize(ps, n);
      && s.totalPackets == |ps|
      && s.totalBytes == TotalBytes(ps)
      && SumCounts(s.protocols) == |ps|
      && DistinctKeys(s.protocols)
      && (forall k :: Lookup(s.protocols, k) == multiset(ProtocolKeys(ps))[k])
  {
    var s := Summarize(ps, n);
    CountsFacts(ProtocolKeys(ps));
    forall k ensures Lookup(s.protocols, k) == multiset(ProtocolKeys(ps))[k] {
      CountsLookup(ProtocolKeys(ps), k);
    }
  }

  /** The top lists: at most `n` entries each, in non-increasing count order,
      each entry counting exactly the packets with that address. */
  lemma SummarizeTop(ps: seq<PcapPacket>, n: nat)
    ensures var s := Summarize(ps, n);
      && |s.topSources| <= n && SortedDesc(s.topSources)
      && |s.topDestinations| <= n && SortedDesc(s.topDestinations)
      && (forall i :: 0 <= i < |s.topSources| ==>
            s.topSources[i].count == multiset(SourceKeys(ps))[s.topSources[i].key])
      && (forall i :: 0 <= i < |s.topDestinations| ==>
            s.topDestinations[i].count == multiset(DestinationKeys(ps))[s.topDestinations[i].key])
  {
    if |ps| > 0 {
      TopCounts(SourceKeys(ps), n);
      TopCounts(DestinationKeys(ps), n);
    }
  }

  /** Each entry of a top list carries the number of occurrences of its key. */
  lemma TopCounts(keys: seq<string>, n: nat)
    ensures var r := TopN(Counts(keys), n);
      && |r| <= n && SortedDesc(r)
      && forall i :: 0 <= i < |r| ==> r[i].count == multiset(keys)[r[i].key]
  {
    var t := Counts(keys);
    var r := TopN(t, n);
    CountsFacts(keys);
    TopNFacts(t, n);
    forall i | 0 <= i < |r| ensures r[i].count == multiset(keys)[r[i].key] {
      var e := r[i];
      assert e in multiset(t);
      var j :| 0 <= j < |t| && t[j] == e;
      LookupDistinct(t, j);
      CountsLookup(keys, e.key);
    }
  }

  /** In a table with distinct keys, looking up an entry's key gives its count. */
  lemma {:induction false} LookupDistinct(table: seq<Entry>, j: nat)
    requires DistinctKeys(table) && j < |table|
    ensures Lookup(table, table[j].key) == table[j].count
  {
    if j > 0 {
      LookupDistinct(table[1..], j - 1);
    }
  }
}
