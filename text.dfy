/** Character- and string-level building blocks shared by every formatter of the
    project: JavaScript's `Number.prototype.toString(base)`, `padStart`,
    `padEnd`, ASCII `toUpperCase`/`toLowerCase`, `Array.prototype.join` and
    `String.prototype.split` with a one-character separator, together with
    the parsers that read their output back. */
module Text {
  import opened Wrappers

  /** One element of a `Uint8Array`. */
  type uint8 = x: int | 0 <= x < 256

  /** `Uint8Array.prototype.slice(from, to)` within bounds: the elements from
      `from` up to, not including, `to`, in a fresh array. */
  function Slice(s: seq<uint8>, from: nat, to: nat): (r: seq<uint8>)
    requires from <= to <= |s|
    ensures |r| == to - from
  {
    seq(to - from, i requires 0 <= i < to - from => s[from + i])
  }

  /** The slice holds the same elements as the subsequence `s[from..to]`. */
  lemma SliceIsSubsequence(s: seq<uint8>, from: nat, to: nat)
    requires from <= to <= |s|
    ensures Slice(s, from, to) == s[from..to]
  {
  }

  /** The value of a hexadecimal (or decimal) digit of either case. */
  function DigitValue(c: char): (r: Option<nat>)
    ensures r.Some? ==> r.value < 16
  {
    if '0' <= c <= '9' then Some(c as int - '0' as int)
    else if 'a' <= c <= 'f' then Some(c as int - 'a' as int + 10)
    else if 'A' <= c <= 'F' then Some(c as int - 'A' as int + 10)
    else None
  }

  predicate IsDigitChar(c: char) {
    DigitValue(c).Some?
  }

  /** The digit `toString(base)` prints for the value `d` (lower case above 9). */
  function DigitChar(d: nat): (c: char)
    requires d < 16
    ensures DigitValue(c) == Some(d)
  {
    if d < 10 then ('0' as int + d) as char else ('a' as int + d - 10) as char
  }

  /** Euclidean division by a base makes progress and leaves a digit. */
  lemma DivByBase(n: nat, base: nat)
    requires 2 <= base <= n
    ensures 0 < n / base < n && n % base < base
    ensures n == n / base * base + n % base
  {
  }

  /** `n.toString(base)`: the shortest digit string, most significant digit first. */
  function NatToString(n: nat, base: nat): (s: string)
    requires 2 <= base <= 16
    ensures 1 <= |s|
    ensures forall i :: 0 <= i < |s| ==> IsDigitChar(s[i])
    decreases n
  {
    if n < base then [DigitChar(n)]
    else
      DivByBase(n, base);
      NatToString(n / base, base) + [DigitChar(n % base)]
  }

  /** A number below the base is one digit. */
  lemma NatToStringDigit(n: nat, base: nat)
    requires 2 <= base <= 16 && n < base
    ensures NatToString(n, base) == [DigitChar(n)]
  {
  }

  /** A number of at least the base is its quotient's digits and then its last digit. */
  lemma NatToStringStep(n: nat, base: nat)
    requires 2 <= base <= 16 && base <= n
    ensures NatToString(n, base) == NatToString(n / base, base) + [DigitChar(n % base)]
  {
  }

  /** `base` to the power `k`. */
  function Pow(base: nat, k: nat): nat
  {
    if k == 0 then 1 else base * Pow(base, k - 1)
  }

  /** The `width` lowest base-`base` digits of `n`, most significant first. */
  function FixedDigits(n: nat, base: nat, width: nat): (s: string)
    requires 2 <= base <= 16
    ensures |s| == width
    decreases width
  {
    if width == 0 then [] else FixedDigits(n / base, base, width - 1) + [DigitChar(n % base)]
  }

  /** The digits of zero are all `0`. */
  lemma {:induction false} FixedDigitsZero(base: nat, width: nat)
    requires 2 <= base <= 16
    ensures FixedDigits(0, base, width) == Repeat('0', width)
    decreases width
  {
    if width > 0 {
      FixedDigitsZero(base, width - 1);
      assert Repeat('0', width) == Repeat('0', width - 1) + ['0'];
    }
  }

  /** Padding on the left and then appending a digit is appending first and
      padding to one more. */
  lemma PadStartPush(s: string, width: nat, c: char)
    ensures PadStart(s, width, '0') + [c] == PadStart(s + [c], width + 1, '0')
  {
    if |s| < width {
      assert Repeat('0', width - |s|) + s + [c] == Repeat('0', width - |s|) + (s + [c]);
    }
  }

  /** A number below the base is its own remainder, with quotient zero. */
  lemma SmallQuotient(n: nat, base: nat)
    requires n < base
    ensures n / base == 0 && n % base == n
  {
  }

  /** A quotient below the next power: `n < base^(k+1)` leaves `n / base < base^k`. */
  lemma DivBelowPow(n: nat, base: nat, k: nat)
    requires 2 <= base && n < Pow(base, k + 1)
    ensures n / base < Pow(base, k)
  {
    var q := n / base;
    if q >= Pow(base, k) {
      assert q * base >= Pow(base, k) * base;
    }
  }

  /** A one-digit number padded to `width` is `width - 1` zeros and its digit. */
  lemma FixedDigitsOneDigit(n: nat, base: nat, width: nat)
    requires 2 <= base <= 16 && 1 <= width && n < base
    ensures FixedDigits(n, base, width) == PadStart(NatToString(n, base), width, '0')
  {
    SmallQuotient(n, base);
    FixedDigitsZero(base, width - 1);
    NatToStringDigit(n, base);
    assert FixedDigits(n, base, width) == Repeat('0', width - 1) + [DigitChar(n)];
  }

  /** Padding carries over from the quotient's digits to the number's. */
  lemma FixedDigitsStep(n: nat, base: nat, width: nat)
    requires 2 <= base <= 16 && 2 <= width && base <= n
    requires FixedDigits(n / base, base, width - 1) == PadStart(NatToString(n / base, base), width - 1, '0')
    ensures FixedDigits(n, base, width) == PadStart(NatToString(n, base), width, '0')
  {
    var c := DigitChar(n % base);
    NatToStringStep(n, base);
    PadStartPush(NatToString(n / base, base), width - 1, c);
  }

  /** A number below `base^width` printed and padded to `width` with zeros is
      its `width` lowest digits. */
  lemma {:induction false} FixedDigitsPadded(n: nat, base: nat, width: nat)
    requires 2 <= base <= 16 && 1 <= width && n < Pow(base, width)
    ensures FixedDigits(n, base, width) == PadStart(NatToString(n, base), width, '0')
    decreases width
  {
    if n < base {
      FixedDigitsOneDigit(n, base, width);
    } else {
      assert width >= 2;
      DivBelowPow(n, base, width - 1);
      FixedDigitsPadded(n / base, base, width - 1);
      FixedDigitsStep(n, base, width);
    }
  }

  /** Reads a whole non-empty string of base-`base` digits, most significant first. */
  function ParseNat(s: string, base: nat): Option<nat>
    requires 2 <= base <= 16
    decreases |s|
  {
    if |s| == 0 then None
    else
      var d := DigitValue(s[|s| - 1]);
      if d.None? || d.value >= base then None
      else if |s| == 1 then Some(d.value)
      else match ParseNat(s[..|s| - 1], base)
        case None => None
        case Some(h) => Some(h * base + d.value)
  }

  /** Printing a number and reading it back gives the number. */
  lemma {:induction false} ParseNatToString(n: nat, base: nat)
    requires 2 <= base <= 16
    ensures ParseNat(NatToString(n, base), base) == Some(n)
    decreases n
  {
    if n >= base {
      DivByBase(n, base);
      var s := NatToString(n, base);
      ParseNatToString(n / base, base);
      assert s[..|s| - 1] == NatToString(n / base, base);
    }
  }

  /** A leading zero does not change the value read. */
  lemma {:induction false} ParseNatLeadingZero(s: string, base: nat)
    requires 2 <= base <= 16 && |s| >= 1
    ensures ParseNat(['0'] + s, base) == ParseNat(s, base)
    decreases |s|
  {
    var t := ['0'] + s;
    if |s| == 1 {
      assert t[..|t| - 1] == ['0'];
    } else {
      assert t[..|t| - 1] == ['0'] + s[..|s| - 1];
      ParseNatLeadingZero(s[..|s| - 1], base);
      ParseNatSameLast(t, s, base);
    }
  }

  /** Two strings of at least two characters with the same last digit read
      the same when their fronts do. */
  lemma ParseNatSameLast(a: string, b: string, base: nat)
    requires 2 <= base <= 16 && |a| >= 2 && |b| >= 2 && a[|a| - 1] == b[|b| - 1]
    requires ParseNat(a[..|a| - 1], base) == ParseNat(b[..|b| - 1], base)
    ensures ParseNat(a, base) == ParseNat(b, base)
  {
  }

  function Repeat(c: char, k: nat): (r: string)
    ensures |r| == k && forall i :: 0 <= i < k ==> r[i] == c
  {
    seq(k, _ => c)
  }

  /** Any number of leading zeros does not change the value read. */
  lemma {:induction false} ParseNatLeadingZeros(k: nat, s: string, base: nat)
    requires 2 <= base <= 16 && |s| >= 1
    ensures ParseNat(Repeat('0', k) + s, base) == ParseNat(s, base)
    decreases k
  {
    if k > 0 {
      assert Repeat('0', k) == ['0'] + Repeat('0', k - 1);
      var t := Repeat('0', k - 1) + s;
      assert Repeat('0', k) + s == ['0'] + t;
      ParseNatLeadingZero(t, base);
      ParseNatLeadingZeros(k - 1, s, base);
      assert ParseNat(['0'] + t, base) == ParseNat(s, base);
    } else {
      assert Repeat('0', k) + s == s;
    }
  }

  /** `s.padStart(width, c)` with a one-character pad string. */
  function PadStart(s: string, width: nat, c: char): (r: string)
    ensures |r| == if |s| >= width then |s| else width
    ensures r[|r| - |s|..] == s
    ensures forall i :: 0 <= i < |r| - |s| ==> r[i] == c
  {
    if |s| >= width then s else Repeat(c, width - |s|) + s
  }

  /** `s.padEnd(width, c)` with a one-character pad string. */
  function PadEnd(s: string, width: nat, c: char): (r: string)
    ensures |r| == if |s| >= width then |s| else width
    ensures r[..|s|] == s
    ensures forall i :: |s| <= i < |r| ==> r[i] == c
  {
    if |s| >= width then s else s + Repeat(c, width - |s|)
  }

  /** Zero padding on the left does not change the value read. */
  lemma ParsePadStart(s: string, width: nat, base: nat)
    requires 2 <= base <= 16 && |s| >= 1
    ensures ParseNat(PadStart(s, width, '0'), base) == ParseNat(s, base)
  {
    if |s| < width {
      ParseNatLeadingZeros(width - |s|, s, base);
    }
  }

  function UpperChar(c: char): char {
    if 'a' <= c <= 'z' then (c as int - 32) as char else c
  }


  /** `s.toUpperCase()` on ASCII text. */
  function ToUpper(s: string): (r: string)
    ensures |r| == |s| && forall i :: 0 <= i < |s| ==> r[i] == UpperChar(s[i])
  {
    seq(|s|, i requires 0 <= i < |s| => UpperChar(s[i]))
  }


  function LowerChar(c: char): char {
    if 'A' <= c <= 'Z' then (c as int + 32) as char else c
  }

  /** `s.toLowerCase()` on ASCII text. */
  function ToLower(s: string): (r: string)
    ensures |r| == |s| && forall i :: 0 <= i < |s| ==> r[i] == LowerChar(s[i])
  {
    seq(|s|, i requires 0 <= i < |s| => LowerChar(s[i]))
  }

  /** Upper-casing keeps every digit's value. */
  lemma ParseNatUpper(s: string, base: nat)
    requires 2 <= base <= 16
    ensures ParseNat(ToUpper(s), base) == ParseNat(s, base)
    decreases |s|
  {
    if |s| > 1 {
      assert ToUpper(s)[..|s| - 1] == ToUpper(s[..|s| - 1]);
      ParseNatUpper(s[..|s| - 1], base);
    }
  }

  /** `parts.join(sep)`. */
  function Join(parts: seq<string>, sep: string): string
    decreases |parts|
  {
    if |parts| == 0 then ""
    else if |parts| == 1 then parts[0]
    else parts[0] + sep + Join(parts[1..], sep)
  }

  /** Upper-casing a joined string upper-cases each part and the separator. */
  lemma {:induction false} ToUpperJoin(parts: seq<string>, sep: string)
    ensures ToUpper(Join(parts, sep))
         == Join(seq(|parts|, i requires 0 <= i < |parts| => ToUpper(parts[i])), ToUpper(sep))
    decreases |parts|
  {
    var up := seq(|parts|, i requires 0 <= i < |parts| => ToUpper(parts[i]));
    if |parts| > 1 {
      ToUpperJoin(parts[1..], sep);
      assert up[1..] == seq(|parts| - 1, i requires 0 <= i < |parts| - 1 => ToUpper(parts[1..][i]));
      var rest := Join(parts[1..], sep);
      assert ToUpper(parts[0] + sep + rest) == ToUpper(parts[0]) + ToUpper(sep) + ToUpper(rest);
    }
  }

  /** `s.split(sep)` for a one-character separator. */
  function Split(s: string, sep: char): (r: seq<string>)
    ensures |r| >= 1
    decreases |s|
  {
    if |s| == 0 then [""]
    else if s[0] == sep then [""] + Split(s[1..], sep)
    else
      var t := Split(s[1..], sep);
      [[s[0]] + t[0]] + t[1..]
  }

  lemma {:induction false} SplitNoSep(p: string, sep: char)
    requires sep !in p
    ensures Split(p, sep) == [p]
    decreases |p|
  {
    if |p| > 0 {
      SplitNoSep(p[1..], sep);
      assert [p[0]] + p[1..] == p;
    }
  }

  lemma {:induction false} SplitAfterPart(p: string, sep: char, rest: string)
    requires sep !in p
    ensures Split(p + [sep] + rest, sep) == [p] + Split(rest, sep)
    decreases |p|
  {
    var s := p + [sep] + rest;
    if |p| == 0 {
      assert s == [sep] + rest;
      assert s[1..] == rest;
    } else {
      assert s[1..] == p[1..] + [sep] + rest;
      SplitAfterPart(p[1..], sep, rest);
      assert [p[0]] + p[1..] == p;
    }
  }

  /** Splitting a join on a separator that no part contains gives the parts back. */
  lemma {:induction false} SplitJoin(parts: seq<string>, sep: char)
    requires |parts| >= 1
    requires forall i :: 0 <= i < |parts| ==> sep !in parts[i]
    ensures Split(Join(parts, [sep]), sep) == parts
    decreases |parts|
  {
    if |parts| == 1 {
      SplitNoSep(parts[0], sep);
    } else {
      SplitJoin(parts[1..], sep);
      SplitAfterPart(parts[0], sep, Join(parts[1..], [sep]));
      assert [parts[0]] + parts[1..] == parts;
    }
  }

  /** The layout of a join of two-character parts on a one-character separator. */
  lemma {:induction false} JoinPairs(parts: seq<string>, sep: char)
    requires |parts| >= 1
    requires forall i :: 0 <= i < |parts| ==> |parts[i]| == 2
    ensures |Join(parts, [sep])| == 3 * |parts| - 1
    ensures forall k :: 0 <= k < |parts| ==>
      Join(parts, [sep])[3 * k] == parts[k][0] && Join(parts, [sep])[3 * k + 1] == parts[k][1]
    ensures forall k :: 0 <= k < |parts| - 1 ==> Join(parts, [sep])[3 * k + 2] == sep
    decreases |parts|
  {
    if |parts| > 1 {
      var rest := Join(parts[1..], [sep]);
      JoinPairs(parts[1..], sep);
      var j := Join(parts, [sep]);
      assert j == parts[0] + [sep] + rest;
      forall k | 1 <= k < |parts|
        ensures j[3 * k] == parts[k][0] && j[3 * k + 1] == parts[k][1]
      {
        assert parts[1..][k - 1] == parts[k];
        assert j[3 * k] == rest[3 * (k - 1)];
        assert j[3 * k + 1] == rest[3 * (k - 1) + 1];
      }
      forall k | 1 <= k < |parts| - 1
        ensures j[3 * k + 2] == sep
      {
        assert j[3 * k + 2] == rest[3 * (k - 1) + 2];
      }
    }
  }

  /** Reads every token as a base-`base` number; `None` if any token is not one. */
  function ParseTokens(tokens: seq<string>, base: nat): Option<seq<int>>
    requires 2 <= base <= 16
    decreases |tokens|
  {
    if |tokens| == 0 then Some([])
    else match (ParseNat(tokens[0], base), ParseTokens(tokens[1..], base))
      case (Some(v), Some(vs)) => Some([v] + vs)
      case _ => None
  }

  /** A token list reads as `vals` exactly when there is one value per
      token and each token reads as its value. */
  lemma {:induction false} ParseTokensAll(tokens: seq<string>, base: nat, vals: seq<int>)
    requires 2 <= base <= 16
    ensures ParseTokens(tokens, base) == Some(vals)
        <==> |vals| == |tokens| && forall i :: 0 <= i < |tokens| ==> ParseNat(tokens[i], base) == Some(vals[i])
    decreases |tokens|
  {
    if |tokens| > 0 && |vals| > 0 {
      ParseTokensAll(tokens[1..], base, vals[1..]);
      assert [vals[0]] + vals[1..] == vals;
      if ParseTokens(tokens, base) == Some(vals) {
        forall i | 0 <= i < |tokens|
          ensures ParseNat(tokens[i], base) == Some(vals[i])
        {
          if i > 0 {
            assert tokens[1..][i - 1] == tokens[i];
          }
        }
      }
      if |vals| == |tokens| && forall i :: 0 <= i < |tokens| ==> ParseNat(tokens[i], base) == Some(vals[i]) {
        forall i | 0 <= i < |tokens| - 1
          ensures ParseNat(tokens[1..][i], base) == Some(vals[1..][i])
        {
          assert tokens[1..][i] == tokens[i + 1];
        }
      }
    }
  }

  /** The two lower-case hex digits of a byte, high nibble first. */
  function Hex2(b: uint8): string
  {
    [DigitChar(b / 16), DigitChar(b % 16)]
  }

  /** `b.toString(16).padStart(2, '0')` is exactly `Hex2(b)`. */
  lemma Hex2IsPadded(b: uint8)
    ensures PadStart(NatToString(b, 16), 2, '0') == Hex2(b)
  {
    if b < 16 {
      assert NatToString(b, 16) == [DigitChar(b)];
    } else {
      assert NatToString(b / 16, 16) == [DigitChar(b / 16)];
    }
  }

  /** Reading the two digits of `Hex2(b)` gives `b` back. */
  lemma ParseHex2(b: uint8)
    ensures ParseNat(Hex2(b), 16) == Some(b)
  {
    var h := Hex2(b);
    assert h[..1] == [DigitChar(b / 16)];
  }
}
