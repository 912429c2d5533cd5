/**
 * `PlanetReplicator::findRemotePath`: from a start time to the replication
 * file to fetch first. A time/sequence index is read from the
 * configuration tree, the two entries that bracket the start time are
 * found, a sequence number is interpolated linearly between them and
 * encoded as the `AAA/BBB/CCC` path of the file on the planet server.
 *
 * Times are whole seconds. The source's double arithmetic is modelled over
 * `real`; the conversion of the interpolated value to `int` truncates
 * toward zero, as the C++ conversion does.
 */
module PlanetReplicator {
  import opened Wrappers
  import opened Text
  import Yaml

  /** `replication::frequency_t`. */
  datatype Frequency = Minutely | Hourly | Daily | Changeset

  /** One index entry: a sequence number and the time of that file, in seconds. */
  datatype Entry = Entry(seqNo: int, time: int)

  /** The file to fetch: its sequence number, the three path groups, the path and the URL. */
  datatype RemotePath = RemotePath(target: int, major: int, minor: int, index: int, path: string, url: string)

  /** The configuration section holding the index: minutely files have their own. */
  function IndexSection(f: Frequency): string {
    if f == Minutely then "minute" else "changeset"
  }

  /** Minutely files are change files, every other frequency gets `.osm.gz`. */
  function Suffix(f: Frequency): string {
    if f == Minutely then ".osc.gz" else ".osm.gz"
  }

  /** Every frequency other than minutely reads the changeset index and `.osm.gz` files. */
  lemma SectionAndSuffix(f: Frequency)
    ensures IndexSection(f) == "minute" <==> f == Minutely
    ensures IndexSection(f) == "changeset" <==> f != Minutely
    ensures Suffix(f) == ".osc.gz" <==> f == Minutely
    ensures f in {Hourly, Daily, Changeset} ==> IndexSection(f) == "changeset" && Suffix(f) == ".osm.gz"
  {
  }

  // ---------------------------------------------------------------------
  // The index: std::map<int, ptime>

  ghost predicate StrictlySorted(idx: seq<Entry>) {
    forall i, j :: 0 <= i < j < |idx| ==> idx[i].seqNo < idx[j].seqNo
  }

  ghost predicate HasKey(idx: seq<Entry>, key: int) {
    exists x :: x in idx && x.seqNo == key
  }

  /** `std::map::insert`: a new key goes to its ordered place, an existing key is kept as it is. */
  function InsertEntry(idx: seq<Entry>, e: Entry): (r: seq<Entry>)
    requires StrictlySorted(idx)
    ensures StrictlySorted(r)
    ensures HasKey(idx, e.seqNo) ==> r == idx
    ensures !HasKey(idx, e.seqNo) ==> forall x :: x in r <==> x in idx || x == e
    decreases |idx|
  {
    if |idx| == 0 then [e]
    else if idx[0].seqNo == e.seqNo then idx
    else if e.seqNo < idx[0].seqNo then [e] + idx
    else
      var rest := InsertEntry(idx[1..], e);
      assert forall x :: x in idx <==> x == idx[0] || x in idx[1..];
      assert HasKey(idx, e.seqNo) <==> HasKey(idx[1..], e.seqNo);
      assert forall x :: x in rest ==> x in idx[1..] || x == e;
      assert forall x :: x in rest ==> idx[0].seqNo < x.seqNo;
      assert idx == [idx[0]] + idx[1..];
      [idx[0]] + rest
  }

  /** `x` is the first entry of `es` with its sequence number. */
  ghost predicate FirstOccurrence(es: seq<Entry>, x: Entry) {
    exists i :: 0 <= i < |es| && es[i] == x && forall j :: 0 <= j < i ==> es[j].seqNo != x.seqNo
  }

  /** `x` is in the index that inserting `es` into `idx` yields. */
  ghost predicate InIndexAfter(idx: seq<Entry>, es: seq<Entry>, x: Entry) {
    x in idx || (FirstOccurrence(es, x) && !HasKey(idx, x.seqNo))
  }

  /** The insert loop over the entries, starting from `idx`. */
  function InsertAll(idx: seq<Entry>, es: seq<Entry>): (r: seq<Entry>)
    requires StrictlySorted(idx)
    ensures StrictlySorted(r)
    ensures forall x :: x in r <==> InIndexAfter(idx, es, x)
    decreases |es|
  {
    if |es| == 0 then idx
    else
      var next := InsertEntry(idx, es[0]);
      var r := InsertAll(next, es[1..]);
      InsertAllStep(idx, es);
      r
  }

  /** How one insertion changes the first-occurrence description of the rest. */
  lemma InsertAllStep(idx: seq<Entry>, es: seq<Entry>)
    requires StrictlySorted(idx) && |es| > 0
    ensures forall x :: InIndexAfter(InsertEntry(idx, es[0]), es[1..], x) <==> InIndexAfter(idx, es, x)
  {
    var e := es[0];
    var next := InsertEntry(idx, e);
    forall x
      ensures InIndexAfter(next, es[1..], x) <==> InIndexAfter(idx, es, x)
    {
      if FirstOccurrence(es, x) && x.seqNo != e.seqNo {
        var i :| 0 <= i < |es| && es[i] == x && forall j :: 0 <= j < i ==> es[j].seqNo != x.seqNo;
        assert i > 0;
        assert es[1..][i - 1] == x;
        assert forall j :: 0 <= j < i - 1 ==> es[1..][j] == es[j + 1];
        assert FirstOccurrence(es[1..], x);
      }
      if FirstOccurrence(es[1..], x) && x.seqNo != e.seqNo {
        var i :| 0 <= i < |es[1..]| && es[1..][i] == x && forall j :: 0 <= j < i ==> es[1..][j].seqNo != x.seqNo;
        assert es[i + 1] == x;
        forall j | 0 <= j < i + 1
          ensures es[j].seqNo != x.seqNo
        {
          if j > 0 {
            assert es[j] == es[1..][j - 1];
          }
        }
        assert FirstOccurrence(es, x);
      }
      if FirstOccurrence(es, x) && x.seqNo == e.seqNo {
        var i :| 0 <= i < |es| && es[i] == x && forall j :: 0 <= j < i ==> es[j].seqNo != x.seqNo;
        assert i == 0;
      }
      if x == e {
        assert FirstOccurrence(es, x);
      }
      if HasKey(next, x.seqNo) && !HasKey(idx, x.seqNo) {
        assert x.seqNo == e.seqNo;
      }
      if x.seqNo == e.seqNo && FirstOccurrence(es[1..], x) {
        assert HasKey(next, x.seqNo);
      }
    }
  }

  /** The entries a section node lists: each child is a sequence number whose first child is its time. */
  function SectionEntries(section: Yaml.Node, parseSeq: string -> int, parseTime: string -> int): (es: seq<Entry>)
    requires forall c :: c in section.children ==> |c.children| > 0
    ensures |es| == |section.children|
  {
    seq(|section.children|, i requires 0 <= i < |section.children| =>
      Entry(parseSeq(section.children[i].value), parseTime(section.children[i].children[0].value)))
  }

  /**
   * The index in iteration order: ascending sequence numbers, and for
   * each number the time listed with its first occurrence in the section.
   */
  function BuildIndex(es: seq<Entry>): (idx: seq<Entry>)
    ensures StrictlySorted(idx)
    ensures forall x :: x in idx <==> FirstOccurrence(es, x)
  {
    InsertAll([], es)
  }

  // ---------------------------------------------------------------------
  // The bracket

  /** The scan for the first entry whose time is strictly after `start`. */
  function FirstAfter(idx: seq<Entry>, start: int): (r: Option<nat>)
    ensures r.Some? ==> r.value < |idx| && idx[r.value].time > start
    ensures r.Some? ==> forall j :: 0 <= j < r.value ==> idx[j].time <= start
    ensures r.None? <==> forall j :: 0 <= j < |idx| ==> idx[j].time <= start
    decreases |idx|
  {
    if |idx| == 0 then None
    else if start - idx[0].time < 0 then Some(0)
    else
      match FirstAfter(idx[1..], start)
      case None => None
      case Some(k) => Some(k + 1)
  }

  /**
   * `closest_next` and `closest_prev` for a scan stopped at `k`: the entry
   * at `k` and its predecessor, replaced by (second-to-last entry, old
   * predecessor) when the predecessor is later than the entry at `k`.
   */
  function Bracket(idx: seq<Entry>, k: nat): (r: (Entry, Entry))
    requires 1 <= k < |idx|
    ensures r.0 in idx && r.1 in idx
    ensures idx[k].time - idx[k - 1].time >= 0 ==> r == (idx[k - 1], idx[k])
    ensures idx[k].time - idx[k - 1].time < 0 ==> r == (idx[|idx| - 2], idx[k - 1])
  {
    var prev := idx[k - 1];
    var next := idx[k];
    if next.time - prev.time < 0 then (idx[|idx| - 2], prev) else (prev, next)
  }

  /**
   * Once the scan has stopped at an entry that is not the first, the
   * out-of-order fallback never applies: the bracket is the stopping entry
   * and its predecessor, and it straddles the start time.
   */
  lemma NoFallbackAfterScan(idx: seq<Entry>, start: int, k: nat)
    requires StrictlySorted(idx)
    requires FirstAfter(idx, start) == Some(k) && k >= 1
    ensures Bracket(idx, k) == (idx[k - 1], idx[k])
    ensures idx[k - 1].time <= start < idx[k].time
    ensures idx[k - 1].seqNo < idx[k].seqNo
  {
  }

  // ---------------------------------------------------------------------
  // Interpolation

  /** Conversion of a double to `int`: truncation toward zero. */
  function Trunc(x: real): (r: int)
    ensures x >= 0.0 ==> r >= 0 && r as real <= x < r as real + 1.0
    ensures x < 0.0 ==> r <= 0 && r as real - 1.0 < x <= r as real
  {
    if x >= 0.0 then x.Floor else -((-x).Floor)
  }

  /**
   * `ratio` is minutes per sequence number across the bracket, and the
   * target is `prev`'s number plus the minutes elapsed since `prev` over
   * that ratio, truncated.
   */
  function Interpolate(prev: Entry, next: Entry, start: int): int
    requires next.seqNo != prev.seqNo && next.time != prev.time
  {
    var ratio := ((next.time - prev.time) as real / 60.0) / ((next.seqNo - prev.seqNo) as real);
    Trunc(prev.seqNo as real + ((start - prev.time) as real / 60.0) / ratio)
  }

  /** Starting exactly at `prev`'s time resolves to `prev` itself. */
  lemma InterpolateAtPrev(prev: Entry, next: Entry)
    requires next.seqNo != prev.seqNo && next.time != prev.time
    ensures Interpolate(prev, next, prev.time) == prev.seqNo
  {
  }

  /**
   * Between two entries in order, the interpolated number lies in
   * `[prev, next)`; it is `prev` plus the elapsed fraction of the span, rounded down.
   */
  lemma InterpolateBounds(prev: Entry, next: Entry, start: int)
    requires 0 <= prev.seqNo < next.seqNo
    requires prev.time <= start < next.time
    ensures prev.seqNo <= Interpolate(prev, next, start) < next.seqNo
    ensures Interpolate(prev, next, start) == prev.seqNo + ((start - prev.time) * (next.seqNo - prev.seqNo)) / (next.time - prev.time)
  {
    var num := (start - prev.time) * (next.seqNo - prev.seqNo);
    var den := next.time - prev.time;
    var dt := (start - prev.time) as real;
    var d := den as real;
    var s := (next.seqNo - prev.seqNo) as real;
    RatioCancel(dt, d, s);
    assert dt * s == num as real;
    FloorOfQuotient(num, den);
    QuotientBelow(start - prev.time, den, next.seqNo - prev.seqNo);
    FloorShift(prev.seqNo, num as real / d);
  }

  /** Minutes elapsed over minutes per sequence number: the elapsed share of the sequence span. */
  lemma RatioCancel(dt: real, d: real, s: real)
    requires d > 0.0 && s > 0.0
    ensures (dt / 60.0) / ((d / 60.0) / s) == dt * s / d
  {
    assert (d / 60.0) / s == d / (60.0 * s);
  }

  /** Less than the whole time span elapsed gives less than the whole sequence span. */
  lemma QuotientBelow(dt: int, d: int, s: int)
    requires 0 <= dt < d && s > 0
    ensures (dt * s) / d < s
  {
    assert dt * s < d * s;
  }

  /** Adding a whole number commutes with rounding down. */
  lemma FloorShift(n: int, q: real)
    ensures (n as real + q).Floor == n + q.Floor
  {
  }

  /** For a non-negative numerator, the real quotient rounds down to the integer quotient. */
  lemma FloorOfQuotient(num: int, den: int)
    requires num >= 0 && den > 0
    ensures (num as real / den as real).Floor == num / den
  {
    var k := num / den;
    var m := num % den;
    assert num == k * den + m;
    assert (num as real / den as real) == k as real + m as real / den as real;
    assert 0.0 <= m as real / den as real < 1.0;
  }

  /** The two interpolation facts a bracket found by the scan supports. */
  lemma InterpolateInBracket(prev: Entry, next: Entry, start: int)
    requires prev.seqNo < next.seqNo && prev.time <= start < next.time
    ensures prev.seqNo >= 0 ==> prev.seqNo <= Interpolate(prev, next, start) < next.seqNo
    ensures start == prev.time ==> Interpolate(prev, next, start) == prev.seqNo
  {
    if prev.seqNo >= 0 { InterpolateBounds(prev, next, start); }
    if start == prev.time { InterpolateAtPrev(prev, next); }
  }

  // ---------------------------------------------------------------------
  // Path encoding

  /**
   * The source's split of the target into three groups, over reals:
   * `major` = floor(t / 10^6), `minor` = floor of the next three digits,
   * `index` = what remains, times 1000.
   */
  function SplitAsWritten(t: int): (real, real, real) {
    var n := t as real / 1000000.0;
    var major := n.Floor as real;
    var decimal := n - major;
    var n2 := decimal * 1000.0;
    var minor := n2.Floor as real;
    var index := (n2 - minor) * 1000.0;
    (major, minor, index)
  }

  /** The three groups as integers. */
  function Split(t: int): (g: (int, int, int))
    ensures 0 <= g.1 < 1000 && 0 <= g.2 < 1000
    ensures g.0 * 1000000 + g.1 * 1000 + g.2 == t
  {
    (t / 1000000, (t % 1000000) / 1000, t % 1000)
  }

  /** Over exact arithmetic the real-valued split is the integer division and remainder. */
  lemma SplitAsWrittenIsDivMod(t: int)
    ensures SplitAsWritten(t) == ((Split(t).0) as real, (Split(t).1) as real, (Split(t).2) as real)
  {
    var q := t / 1000000;
    var m := t % 1000000;
    var n := t as real / 1000000.0;
    assert n == q as real + m as real / 1000000.0;
    assert 0.0 <= m as real / 1000000.0 < 1.0;
    assert n.Floor == q;
    var decimal := n - q as real;
    var n2 := decimal * 1000.0;
    assert n2 == m as real / 1000.0;
    var q2 := m / 1000;
    var m2 := m % 1000;
    assert m == q2 * 1000 + m2;
    assert n2 == q2 as real + m2 as real / 1000.0;
    assert n2.Floor == q2;
    assert (n2 - q2 as real) * 1000.0 == m2 as real;
    assert m2 == t % 1000;
  }

  /** `%03d/%03d/%03d` of the three groups. */
  function PathOf(t: int): string {
    var g := Split(t);
    Format03(g.0) + "/" + Format03(g.1) + "/" + Format03(g.2)
  }

  /**
   * For a nine-digit sequence number the path is three groups of exactly
   * three digits whose concatenation spells the number.
   */
  lemma PathSpellsSequence(t: int)
    requires 0 <= t < 1000000000
    ensures PathOf(t) == Format03(Split(t).0) + "/" + Format03(Split(t).1) + "/" + Format03(Split(t).2)
    ensures |Format03(Split(t).0)| == 3 && |Format03(Split(t).1)| == 3 && |Format03(Split(t).2)| == 3
    ensures AllDigits(Format03(Split(t).0) + Format03(Split(t).1) + Format03(Split(t).2))
    ensures DigitsValue(Format03(Split(t).0) + Format03(Split(t).1) + Format03(Split(t).2)) == t
  {
    var g := Split(t);
    assert 0 <= g.0 < 1000;
    Format03Small(g.0);
    Format03Small(g.1);
    Format03Small(g.2);
    var a := Format03(g.0);
    var b := Format03(g.1);
    var c := Format03(g.2);
    DigitsValueAppend(a, b);
    DigitsValueAppend(a + b, c);
    assert Pow10(3) == 1000;
  }

  // ---------------------------------------------------------------------
  // findRemotePath

  /** The index for a frequency, when its section is configured with well-formed entries. */
  function IndexFor(doc: Yaml.Document, f: Frequency, parseSeq: string -> int, parseTime: string -> int): (r: Option<seq<Entry>>)
    ensures r.Some? ==> StrictlySorted(r.value)
  {
    match Yaml.DocGet(doc, IndexSection(f))
    case None => None
    case Some(section) =>
      if forall c :: c in section.children ==> |c.children| > 0
      then Some(BuildIndex(SectionEntries(section, parseSeq, parseTime)))
      else None
  }

  /**
   * What the source needs to run without undefined behaviour: the section
   * exists, each entry has a time, some entry is later than `start`, and
   * that entry is not the first (the source reads the entry before it).
   */
  predicate Resolvable(doc: Yaml.Document, f: Frequency, start: int, parseSeq: string -> int, parseTime: string -> int) {
    var idx := IndexFor(doc, f, parseSeq, parseTime);
    idx.Some? && FirstAfter(idx.value, start).Some? && FirstAfter(idx.value, start).value >= 1
  }

  /** The URL the remote is parsed from. */
  function RemoteUrl(server: string, datadir: string, freqName: string, path: string, f: Frequency): string {
    "https://" + server + "/" + datadir + freqName + "/" + path + Suffix(f)
  }

  /** The target interpolated inside the bracket where the scan stopped. */
  function Target(idx: seq<Entry>, start: int, k: nat): (t: int)
    requires StrictlySorted(idx) && FirstAfter(idx, start) == Some(k) && k >= 1
    ensures idx[k - 1].seqNo >= 0 ==> idx[k - 1].seqNo <= t < idx[k].seqNo
    ensures start == idx[k - 1].time ==> t == idx[k - 1].seqNo
  {
    NoFallbackAfterScan(idx, start, k);
    var b := Bracket(idx, k);
    InterpolateInBracket(b.0, b.1, start);
    Interpolate(b.0, b.1, start)
  }

  /** The path groups, path and URL of a target sequence number. */
  function Locate(target: int, server: string, datadir: string, freqName: string, f: Frequency): (r: RemotePath)
    ensures r.target == target
    ensures r.url == "https://" + server + "/" + datadir + freqName + "/" + r.path + Suffix(f)
    ensures r.path == Format03(r.major) + "/" + Format03(r.minor) + "/" + Format03(r.index)
    ensures 0 <= r.minor < 1000 && 0 <= r.index < 1000
    ensures r.major * 1000000 + r.minor * 1000 + r.index == target
  {
    var g := Split(target);
    var path := PathOf(target);
    RemotePath(target, g.0, g.1, g.2, path, RemoteUrl(server, datadir, freqName, path, f))
  }

  /**
   * The remote path for the bracket where the scan stopped at `k`: the
   * interpolated target, its path groups and its URL.
   */
  function Resolve(idx: seq<Entry>, start: int, k: nat, server: string, datadir: string, freqName: string, f: Frequency): (r: RemotePath)
    requires StrictlySorted(idx) && FirstAfter(idx, start) == Some(k) && k >= 1
    ensures r.url == "https://" + server + "/" + datadir + freqName + "/" + r.path + Suffix(f)
    ensures r.path == Format03(r.major) + "/" + Format03(r.minor) + "/" + Format03(r.index)
    ensures 0 <= r.minor < 1000 && 0 <= r.index < 1000
    ensures r.major * 1000000 + r.minor * 1000 + r.index == r.target
    ensures idx[k - 1].time <= start < idx[k].time
    ensures idx[k - 1].seqNo >= 0 ==> idx[k - 1].seqNo <= r.target < idx[k].seqNo
    ensures start == idx[k - 1].time ==> r.target == idx[k - 1].seqNo
  {
    NoFallbackAfterScan(idx, start, k);
    Locate(Target(idx, start, k), server, datadir, freqName, f)
  }

  /**
   * `findRemotePath`: the frequency's index read from the configuration,
   * then resolved around `start` as `Resolve` does. `freqName` is
   * `StateFile::freq_to_string`.
   */
  function FindRemotePath(doc: Yaml.Document, f: Frequency, start: int, server: string, datadir: string,
                          freqName: Frequency -> string, parseSeq: string -> int, parseTime: string -> int): (r: RemotePath)
    requires Resolvable(doc, f, start, parseSeq, parseTime)
    ensures r.url == "https://" + server + "/" + datadir + freqName(f) + "/" + r.path + Suffix(f)
    ensures r.path == Format03(r.major) + "/" + Format03(r.minor) + "/" + Format03(r.index)
    ensures 0 <= r.minor < 1000 && 0 <= r.index < 1000
    ensures r.major * 1000000 + r.minor * 1000 + r.index == r.target
    ensures var idx := IndexFor(doc, f, parseSeq, parseTime).value;
            r == Resolve(idx, start, FirstAfter(idx, start).value, server, datadir, freqName(f), f)
  {
    var idx := IndexFor(doc, f, parseSeq, parseTime).value;
    Resolve(idx, start, FirstAfter(idx, start).value, server, datadir, freqName(f), f)
  }

  /**
   * Halfway in time between sequence 0 and sequence 1000000, 1000 minutes
   * apart, resolves to 500000, path `000/500/000`.
   */
  lemma HalfwayExample(t0: int)
    ensures Interpolate(Entry(0, t0), Entry(1000000, t0 + 60000), t0 + 30000) == 500000
    ensures PathOf(500000) == "000/500/000"
  {
    InterpolateBounds(Entry(0, t0), Entry(1000000, t0 + 60000), t0 + 30000);
    assert Split(500000) == (0, 500, 0);
    assert NatToString(0) == "0";
    assert NatToString(5) == "5";
    assert NatToString(50) == "50";
    assert NatToString(500) == "500";
    assert Format03(0) == "000";
    assert Format03(500) == "500";
  }
}
