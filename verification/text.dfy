/**
 * String building blocks the source relies on: joining with a separator,
 * `std::getline` tokenising, decimal rendering and parsing, `%03d`
 * padding, `std::string` ordering and `boost::algorithm::replace_all`.
 */
module Text {
  import opened Wrappers

  /** The parts with `sep` between consecutive parts and nothing after the last one. */
  function Join(parts: seq<string>, sep: string): string
    decreases |parts|
  {
    if |parts| == 0 then ""
    else if |parts| == 1 then parts[0]
    else parts[0] + sep + Join(parts[1..], sep)
  }

  /**
   * What the source's loops build before trimming: every part followed by
   * `sep`, the last one included.
   */
  function Terminated(parts: seq<string>, sep: string): string
    decreases |parts|
  {
    if |parts| == 0 then "" else parts[0] + sep + Terminated(parts[1..], sep)
  }

  /** A terminated list is the joined list plus one trailing separator. */
  lemma {:induction false} TerminatedIsJoinPlusSep(parts: seq<string>, sep: string)
    requires |parts| > 0
    ensures Terminated(parts, sep) == Join(parts, sep) + sep
    decreases |parts|
  {
    if |parts| > 1 {
      TerminatedIsJoinPlusSep(parts[1..], sep);
    }
  }

  /**
   * Erasing the trailing separator from a terminated non-empty list (the
   * source's `erase(size() - |sep|)`) leaves exactly the joined list.
   */
  lemma TrimmedTerminatedIsJoin(parts: seq<string>, sep: string)
    requires |parts| > 0
    ensures |Terminated(parts, sep)| >= |sep|
    ensures Terminated(parts, sep)[..|Terminated(parts, sep)| - |sep|] == Join(parts, sep)
  {
    TerminatedIsJoinPlusSep(parts, sep);
    var t := Terminated(parts, sep);
    assert t == Join(parts, sep) + sep;
  }

  /** A non-empty join ends with its last part, so nothing follows the last part. */
  lemma {:induction false} JoinEndsWithLast(parts: seq<string>, sep: string)
    requires |parts| > 0
    ensures |Join(parts, sep)| >= |parts[|parts| - 1]|
    ensures Join(parts, sep)[|Join(parts, sep)| - |parts[|parts| - 1]|..] == parts[|parts| - 1]
    decreases |parts|
  {
    if |parts| > 1 {
      JoinEndsWithLast(parts[1..], sep);
      assert parts[1..][|parts[1..]| - 1] == parts[|parts| - 1];
    }
  }

  /** The parts one after another, with nothing between them. */
  function Concat(parts: seq<string>): string
    decreases |parts|
  {
    if |parts| == 0 then "" else parts[0] + Concat(parts[1..])
  }

  /** A concatenation is its first part followed by the rest. */
  lemma ConcatCons(parts: seq<string>)
    requires |parts| > 0
    ensures Concat(parts) == parts[0] + Concat(parts[1..])
  {
  }

  lemma {:induction false} ConcatAppend(a: seq<string>, b: seq<string>)
    ensures Concat(a + b) == Concat(a) + Concat(b)
    decreases |a|
  {
    if |a| == 0 {
      assert a + b == b;
    } else {
      assert (a + b)[1..] == a[1..] + b;
      ConcatAppend(a[1..], b);
    }
  }

  /** A concatenation ends with its last part. */
  lemma ConcatEndsWithLast(parts: seq<string>)
    requires |parts| > 0
    ensures var c := Concat(parts); var l := parts[|parts| - 1]; |c| >= |l| && c[|c| - |l|..] == l
  {
    var init := parts[..|parts| - 1];
    var l := parts[|parts| - 1];
    assert init + [l] == parts;
    ConcatAppend(init, [l]);
    assert Concat([l]) == l + Concat([]);
  }

  /** Appending one part to a non-empty join adds the separator and the part. */
  lemma {:induction false} JoinSnoc(parts: seq<string>, x: string, sep: string)
    requires |parts| > 0
    ensures Join(parts + [x], sep) == Join(parts, sep) + sep + x
    decreases |parts|
  {
    if |parts| == 1 {
      assert parts + [x] == [parts[0], x];
      assert [parts[0], x][1..] == [x];
    } else {
      assert (parts + [x])[1..] == parts[1..] + [x];
      JoinSnoc(parts[1..], x, sep);
    }
  }

  /** Terminating a concatenation terminates each half. */
  lemma {:induction false} TerminatedAppend(a: seq<string>, b: seq<string>, sep: string)
    ensures Terminated(a + b, sep) == Terminated(a, sep) + Terminated(b, sep)
    decreases |a|
  {
    if |a| == 0 {
      assert a + b == b;
    } else {
      assert (a + b)[1..] == a[1..] + b;
      TerminatedAppend(a[1..], b, sep);
    }
  }

  /** `erase(size() - n)`: the string without its last `n` characters. */
  function DropLast(s: string, n: nat): (r: string)
    requires |s| >= n
    ensures |r| == |s| - n
  {
    s[..|s| - n]
  }

  /** Erasing from the end of a concatenation only touches the last part when it is long enough. */
  lemma DropLastAppend(a: string, b: string, n: nat)
    requires |b| >= n
    ensures DropLast(a + b, n) == a + DropLast(b, n)
  {
    assert (a + b)[..|a + b| - n] == a + b[..|b| - n];
  }

  /** Erasing the trailing separator of a prefixed, terminated, non-empty list leaves the prefixed join. */
  lemma TrimTerminated(p: string, parts: seq<string>, sep: string)
    requires |parts| > 0
    ensures |Terminated(parts, sep)| >= |sep|
    ensures DropLast(p + Terminated(parts, sep), |sep|) == p + Join(parts, sep)
  {
    TrimmedTerminatedIsJoin(parts, sep);
    DropLastAppend(p, Terminated(parts, sep), |sep|);
  }

  /** Each part followed by `sep`: the pieces a loop appends one statement at a time. */
  function Suffixed(parts: seq<string>, sep: string): (r: seq<string>)
    ensures |r| == |parts|
    ensures forall i :: 0 <= i < |parts| ==> r[i] == parts[i] + sep
  {
    seq(|parts|, i requires 0 <= i < |parts| => parts[i] + sep)
  }

  /** Appending the suffixed pieces one after another builds the terminated list. */
  lemma {:induction false} ConcatSuffixed(parts: seq<string>, sep: string)
    ensures Concat(Suffixed(parts, sep)) == Terminated(parts, sep)
    decreases |parts|
  {
    if |parts| > 0 {
      ConcatSuffixed(parts[1..], sep);
      assert Suffixed(parts, sep)[1..] == Suffixed(parts[1..], sep);
    }
  }

  /** A piece that is appended only when `c` holds. */
  function Opt(c: bool, x: string): (r: seq<string>)
    ensures c <==> r == [x]
    ensures !c <==> r == []
  {
    if c then [x] else []
  }

  /** Appending a part that may be absent to a non-empty join. */
  lemma JoinOpt(parts: seq<string>, c: bool, x: string, sep: string)
    requires |parts| > 0
    ensures Join(parts + Opt(c, x), sep) == Join(parts, sep) + (if c then sep + x else "")
  {
    if c {
      JoinSnoc(parts, x, sep);
    } else {
      assert parts + [] == parts;
    }
  }

  /** A terminated list followed by one more part is the join of all of them. */
  lemma TerminatedThenLast(parts: seq<string>, x: string, sep: string)
    ensures Terminated(parts, sep) + x == Join(parts + [x], sep)
  {
    if |parts| == 0 {
      assert parts + [x] == [x];
    } else {
      TerminatedIsJoinPlusSep(parts, sep);
      JoinSnoc(parts, x, sep);
    }
  }

  /** Each part preceded by `sep`. */
  function Prefixed(parts: seq<string>, sep: string): (r: seq<string>)
    ensures |r| == |parts|
    ensures forall i :: 0 <= i < |parts| ==> r[i] == sep + parts[i]
  {
    seq(|parts|, i requires 0 <= i < |parts| => sep + parts[i])
  }

  lemma PrefixedAppend(a: seq<string>, b: seq<string>, sep: string)
    ensures Prefixed(a + b, sep) == Prefixed(a, sep) + Prefixed(b, sep)
  {
    var l := Prefixed(a + b, sep);
    var r := Prefixed(a, sep) + Prefixed(b, sep);
    forall i | 0 <= i < |l|
      ensures l[i] == r[i]
    {
      if i < |a| {
        assert (a + b)[i] == a[i];
      } else {
        assert (a + b)[i] == b[i - |a|];
      }
    }
  }

  lemma PrefixedOpt(c: bool, x: string, sep: string)
    ensures Prefixed(Opt(c, x), sep) == Opt(c, sep + x)
  {
    if c {
      assert Prefixed([x], sep)[0] == sep + x;
    }
  }

  /** The first part, then every later part preceded by `sep`, is the join. */
  lemma {:induction false} JoinIsPrefixed(parts: seq<string>, sep: string)
    requires |parts| > 0
    ensures Concat([parts[0]] + Prefixed(parts[1..], sep)) == Join(parts, sep)
    decreases |parts|
  {
    var rest := Prefixed(parts[1..], sep);
    assert ([parts[0]] + rest)[1..] == rest;
    if |parts| > 1 {
      var tail := parts[1..];
      JoinIsPrefixed(tail, sep);
      assert Prefixed(tail[1..], sep) == rest[1..];
      assert [tail[0]] + rest[1..] == [tail[0]] + Prefixed(tail[1..], sep);
      assert Concat(rest) == sep + tail[0] + Concat(rest[1..]);
      assert Concat([tail[0]] + rest[1..]) == tail[0] + Concat(rest[1..]) by {
        assert ([tail[0]] + rest[1..])[1..] == rest[1..];
      }
    } else {
      assert rest == [];
    }
  }

  lemma ConcatSingle(x: string)
    ensures Concat([x]) == x
  {
    assert [x][1..] == [];
  }

  /** A prefix, suffixed parts, then a last part closed by `q`: the prefixed join of all parts, then `q`. */
  lemma SuffixedThenLast(p: string, parts: seq<string>, last: string, sep: string, q: string)
    ensures Concat([p] + Suffixed(parts, sep) + [last + q]) == p + Join(parts + [last], sep) + q
  {
    var t := Terminated(parts, sep);
    ConcatAppend([p] + Suffixed(parts, sep), [last + q]);
    ConcatAppend([p], Suffixed(parts, sep));
    ConcatSuffixed(parts, sep);
    ConcatSingle(p);
    ConcatSingle(last + q);
    TerminatedThenLast(parts, last, sep);
    assert (p + t) + (last + q) == (p + (t + last)) + q;
  }

  /** A concatenation starts as its front part starts and ends as its back part ends. */
  lemma FramedConcat(a: string, b: string, p: string, q: string)
    requires |a| >= |p| && a[..|p|] == p
    requires |b| >= |q| && b[|b| - |q|..] == q
    ensures |a + b| >= |p| && (a + b)[..|p|] == p
    ensures |a + b| >= |q| && (a + b)[|a + b| - |q|..] == q
  {
    assert (a + b)[..|p|] == a[..|p|];
    assert (a + b)[|a + b| - |q|..] == b[|b| - |q|..];
  }

  /** A prefix, the first part, every later part preceded by `sep`, then `q`: the prefixed join, then `q`. */
  lemma PrefixedWrapped(p: string, parts: seq<string>, sep: string, q: string)
    requires |parts| > 0
    ensures Concat([p, parts[0]] + Prefixed(parts[1..], sep) + [q]) == p + Join(parts, sep) + q
  {
    var mid := [parts[0]] + Prefixed(parts[1..], sep);
    assert [p, parts[0]] + Prefixed(parts[1..], sep) + [q] == [p] + mid + [q];
    ConcatAppend([p] + mid, [q]);
    ConcatAppend([p], mid);
    ConcatSingle(p);
    ConcatSingle(q);
    JoinIsPrefixed(parts, sep);
  }

  // ---------------------------------------------------------------------
  // std::getline tokenising

  /** Index of the first `d` in `s`, or `|s|` when there is none. */
  function FirstIndex(s: string, d: char): (i: nat)
    ensures i <= |s|
    ensures forall j :: 0 <= j < i ==> s[j] != d
    ensures i < |s| ==> s[i] == d
    decreases |s|
  {
    if |s| == 0 then 0 else if s[0] == d then 0 else 1 + FirstIndex(s[1..], d)
  }

  /**
   * The tokens repeated `std::getline(stream, token, d)` calls deliver: an
   * empty input gives no token, and a trailing delimiter gives no empty
   * token after it, while an empty token between two delimiters is kept.
   */
  function GetlineSplit(s: string, d: char): seq<string>
    decreases |s|
  {
    if |s| == 0 then []
    else
      var i := FirstIndex(s, d);
      if i == |s| then [s] else [s[..i]] + GetlineSplit(s[i + 1..], d)
  }

  /** With no `d` in `s`, the search runs off the end. */
  lemma FirstIndexAbsent(s: string, d: char)
    requires d !in s
    ensures FirstIndex(s, d) == |s|
  {
  }

  /** In `p + [d] + rest` with no `d` in `p`, the first `d` is the one after `p`. */
  lemma FirstIndexAfter(p: string, d: char, rest: string)
    requires d !in p
    ensures FirstIndex(p + [d] + rest, d) == |p|
  {
    var s := p + [d] + rest;
    var i := FirstIndex(s, d);
    assert s[|p|] == d;
  }

  /** Tokenising a joined list of non-empty, delimiter-free parts gives the parts back. */
  lemma {:induction false} SplitJoin(parts: seq<string>, d: char)
    requires forall k :: 0 <= k < |parts| ==> |parts[k]| > 0 && d !in parts[k]
    ensures GetlineSplit(Join(parts, [d]), d) == parts
    decreases |parts|
  {
    if |parts| == 1 {
      FirstIndexAbsent(parts[0], d);
    } else if |parts| > 1 {
      var p := parts[0];
      var rest := Join(parts[1..], [d]);
      var s := p + [d] + rest;
      assert Join(parts, [d]) == s;
      FirstIndexAfter(p, d, rest);
      assert s[..|p|] == p;
      assert s[|p| + 1..] == rest;
      SplitJoin(parts[1..], d);
      assert GetlineSplit(s, d) == [p] + GetlineSplit(rest, d);
    }
  }

  // ---------------------------------------------------------------------
  // Decimal rendering (std::to_string on integers) and parsing

  predicate IsDigit(c: char) {
    '0' <= c <= '9'
  }

  predicate AllDigits(s: string) {
    forall k :: 0 <= k < |s| ==> IsDigit(s[k])
  }

  function DigitChar(d: nat): (c: char)
    requires d < 10
    ensures IsDigit(c)
  {
    ('0' as int + d) as char
  }

  function CharValue(c: char): (d: nat)
    requires IsDigit(c)
    ensures d < 10
  {
    c as int - '0' as int
  }

  function Pow10(k: nat): (p: nat)
    ensures p >= 1
  {
    if k == 0 then 1 else 10 * Pow10(k - 1)
  }

  /** Decimal digits of `n`, most significant first, without leading zeros. */
  function NatToString(n: nat): (s: string)
    ensures |s| > 0 && AllDigits(s)
    decreases n
  {
    if n < 10 then [DigitChar(n)] else NatToString(n / 10) + [DigitChar(n % 10)]
  }

  /** `std::to_string` of an integer: a minus sign before the digits of a negative value. */
  function IntToString(i: int): (s: string)
    ensures |s| > 0
    ensures ',' !in s
  {
    var r := if i < 0 then "-" + NatToString(-i) else NatToString(i);
    assert forall k :: 0 <= k < |r| ==> r[k] == '-' || IsDigit(r[k]);
    r
  }

  /** The number a string of decimal digits denotes (leading zeros allowed). */
  function DigitsValue(s: string): nat
    requires AllDigits(s)
    decreases |s|
  {
    if |s| == 0 then 0 else 10 * DigitsValue(s[..|s| - 1]) + CharValue(s[|s| - 1])
  }

  /** A non-empty run of decimal digits, or nothing. */
  function ParseNat(s: string): Option<nat> {
    if |s| > 0 && AllDigits(s) then Some(DigitsValue(s)) else None
  }

  /** An optionally negative decimal integer, or nothing when `s` is not one. */
  function ParseInt(s: string): Option<int> {
    if |s| > 0 && s[0] == '-' then
      match ParseNat(s[1..])
      case Some(n) => Some(-(n as int))
      case None => None
    else
      match ParseNat(s)
      case Some(n) => Some(n)
      case None => None
  }

  lemma {:induction false} NatToStringValue(n: nat)
    ensures DigitsValue(NatToString(n)) == n
    decreases n
  {
    if n >= 10 {
      var s := NatToString(n);
      NatToStringValue(n / 10);
      assert s[..|s| - 1] == NatToString(n / 10);
    }
  }

  /** Parsing the rendering of any integer gives the integer back. */
  lemma IntToStringRoundTrip(i: int)
    ensures ParseInt(IntToString(i)) == Some(i)
  {
    if i < 0 {
      NatToStringValue(-i);
      assert ("-" + NatToString(-i))[1..] == NatToString(-i);
    } else {
      NatToStringValue(i);
    }
  }

  /** The value of a concatenation of digit strings. */
  lemma {:induction false} DigitsValueAppend(a: string, b: string)
    requires AllDigits(a) && AllDigits(b)
    ensures AllDigits(a + b)
    ensures DigitsValue(a + b) == DigitsValue(a) * Pow10(|b|) + DigitsValue(b)
    decreases |b|
  {
    if |b| > 0 {
      var ab := a + b;
      var b' := b[..|b| - 1];
      assert ab[..|ab| - 1] == a + b';
      DigitsValueAppend(a, b');
      var last := CharValue(b[|b| - 1]);
      assert DigitsValue(ab) == 10 * DigitsValue(a + b') + last;
      assert DigitsValue(b) == 10 * DigitsValue(b') + last;
      assert Pow10(|b|) == 10 * Pow10(|b'|);
      calc {
        DigitsValue(ab);
        10 * (DigitsValue(a) * Pow10(|b'|) + DigitsValue(b')) + last;
        { MulAssoc(DigitsValue(a), Pow10(|b'|)); }
        DigitsValue(a) * Pow10(|b|) + DigitsValue(b);
      }
    } else {
      assert a + b == a;
    }
  }

  lemma MulAssoc(x: nat, y: nat)
    ensures 10 * (x * y) == x * (10 * y)
  {
  }

  /** A number below 10^k has at most k digits. */
  lemma {:induction false} NatToStringLength(n: nat, k: nat)
    requires k >= 1 && n < Pow10(k)
    ensures |NatToString(n)| <= k
    decreases k
  {
    if n >= 10 {
      NatToStringLength(n / 10, k - 1);
    }
  }

  // ---------------------------------------------------------------------
  // printf-style zero padding

  function Zeros(k: nat): (z: string)
    ensures |z| == k && AllDigits(z)
  {
    seq(k, _ => '0')
  }

  lemma ZerosValue(k: nat)
    ensures DigitsValue(Zeros(k)) == 0
  {
    if k > 0 {
      assert Zeros(k)[..k - 1] == Zeros(k - 1);
      ZerosValue(k - 1);
    }
  }

  function ZeroPad(s: string, width: nat): string {
    if |s| < width then Zeros(width - |s|) + s else s
  }

  /** `%03d`: at least three characters, zero-filled after a minus sign. */
  function Format03(x: int): string {
    if x >= 0 then ZeroPad(NatToString(x), 3) else "-" + ZeroPad(NatToString(-x), 2)
  }

  /** For 0 <= x < 1000 the rendering is exactly three digits denoting x. */
  lemma Format03Small(x: int)
    requires 0 <= x < 1000
    ensures |Format03(x)| == 3 && AllDigits(Format03(x))
    ensures DigitsValue(Format03(x)) == x
  {
    var s := NatToString(x);
    assert Pow10(3) == 1000;
    NatToStringLength(x, 3);
    NatToStringValue(x);
    if |s| < 3 {
      DigitsValueAppend(Zeros(3 - |s|), s);
      ZerosValue(3 - |s|);
    }
  }

  // ---------------------------------------------------------------------
  // std::string ordering

  /** `a < b` for `std::string`: lexicographic by character, a proper prefix first. */
  predicate StrLess(a: string, b: string)
    decreases |a|
  {
    if |b| == 0 then false
    else if |a| == 0 then true
    else if a[0] != b[0] then a[0] < b[0]
    else StrLess(a[1..], b[1..])
  }

  /** The strings ordered before `"*"` are the empty one and those starting below `'*'`. */
  lemma LessThanStar(x: string)
    ensures StrLess(x, "*") <==> (|x| == 0 || x[0] < '*')
  {
    if |x| > 0 && x[0] == '*' {
      assert "*"[1..] == "";
    }
  }

  // ---------------------------------------------------------------------
  // boost::algorithm::replace_all with a one-character pattern

  function ReplaceAllChar(s: string, c: char, rep: string): (r: string)
    requires c !in rep
    ensures c !in r
    ensures c !in s ==> r == s
    decreases |s|
  {
    if |s| == 0 then ""
    else (if s[0] == c then rep else [s[0]]) + ReplaceAllChar(s[1..], c, rep)
  }

  /** The number of occurrences of `c` in `s`. */
  function Count(s: string, c: char): nat
    decreases |s|
  {
    if |s| == 0 then 0 else (if s[0] == c then 1 else 0) + Count(s[1..], c)
  }

  /** Each occurrence of `c` grows the string by `|rep| - 1` characters. */
  lemma {:induction false} ReplaceAllCharLength(s: string, c: char, rep: string)
    requires c !in rep
    ensures |ReplaceAllChar(s, c, rep)| + Count(s, c) == |s| + Count(s, c) * |rep|
    decreases |s|
  {
    if |s| > 0 {
      ReplaceAllCharLength(s[1..], c, rep);
      var k := Count(s[1..], c);
      var tail := ReplaceAllChar(s[1..], c, rep);
      if s[0] == c {
        assert ReplaceAllChar(s, c, rep) == rep + tail;
        MulSucc(k, |rep|);
      } else {
        assert ReplaceAllChar(s, c, rep) == [s[0]] + tail;
      }
    }
  }

  /**
   * Replacement works piece by piece: replacing in a concatenation is
   * replacing in each part. With `ReplaceAllCharSingle` this fixes the
   * result for every string.
   */
  lemma {:induction false} ReplaceAllCharAppend(a: string, b: string, c: char, rep: string)
    requires c !in rep
    ensures ReplaceAllChar(a + b, c, rep) == ReplaceAllChar(a, c, rep) + ReplaceAllChar(b, c, rep)
    decreases |a|
  {
    if |a| == 0 {
      assert a + b == b;
    } else {
      assert (a + b)[0] == a[0];
      assert (a + b)[1..] == a[1..] + b;
      ReplaceAllCharAppend(a[1..], b, c, rep);
    }
  }

  /** A single character becomes `rep` when it is `c` and stays itself otherwise. */
  lemma ReplaceAllCharSingle(x: char, c: char, rep: string)
    requires c !in rep
    ensures ReplaceAllChar([x], c, rep) == if x == c then rep else [x]
  {
    assert [x][1..] == "";
  }

  lemma MulSucc(k: nat, m: nat)
    ensures (k + 1) * m == k * m + m
  {
  }
}
