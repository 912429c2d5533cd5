/**
 * The decisions the replicator program makes from its arguments before
 * any download starts: how deep a replication URL reaches, which update
 * frequency a `--frequency` argument selects, which tag names each
 * frequency's directory, and whether monitor mode has somewhere to start.
 * Option parsing, logging, the database connections and the monitor
 * threads are not part of this model; their inputs arrive as parameters.
 */
module Replicator {
  import opened Wrappers
  import opened Text
  import PlanetReplicator

  type Frequency = PlanetReplicator.Frequency

  // ---------------------------------------------------------------------
  // matchUrl

  /** How much of the replication tree a URL names. */
  datatype PathMatch = Root | Directory | Subdirectory | Filepath

  predicate IsTriple(s: string)
    requires |s| >= 3
  {
    IsDigit(s[0]) && IsDigit(s[1]) && IsDigit(s[2])
  }

  /**
   * The matches of `[0-9]{3}` in `s`, found left to right without
   * overlapping: each search resumes after the previous match.
   */
  function Triples(s: string): (ms: seq<string>)
    ensures forall i :: 0 <= i < |ms| ==> |ms[i]| == 3 && AllDigits(ms[i])
    ensures |ms| <= |s| / 3
    decreases |s|
  {
    if |s| < 3 then []
    else if IsTriple(s) then [s[..3]] + Triples(s[3..])
    else Triples(s[1..])
  }

  /** A run of digits holds one match for every three digits. */
  lemma {:induction false} DigitRunTriples(d: string)
    requires AllDigits(d)
    ensures |Triples(d)| == |d| / 3
    decreases |d|
  {
    if |d| >= 3 {
      assert IsTriple(d);
      assert AllDigits(d[3..]);
      DigitRunTriples(d[3..]);
    }
  }

  /**
   * A run of digits ended by a non-digit contributes one match per three
   * digits and nothing else: no match spans the non-digit. Together with
   * `DigitRunTriples` this counts the matches of any URL run by run.
   */
  lemma {:induction false} DigitRunThenBreak(d: string, c: char, rest: string)
    requires AllDigits(d) && !IsDigit(c)
    ensures |Triples(d + [c] + rest)| == |d| / 3 + |Triples(rest)|
    decreases |d|
  {
    var s := d + [c] + rest;
    if |s| < 3 {
      assert |rest| < 3;
    } else if |d| >= 3 {
      assert s[..3] == d[..3];
      assert IsTriple(s);
      assert s[3..] == d[3..] + [c] + rest;
      assert AllDigits(d[3..]);
      DigitRunThenBreak(d[3..], c, rest);
    } else if |d| == 0 {
      assert s[0] == c;
      assert s[1..] == rest;
    } else {
      assert s[|d|] == c;
      assert !IsTriple(s);
      assert s[1..] == d[1..] + [c] + rest;
      assert AllDigits(d[1..]);
      DigitRunThenBreak(d[1..], c, rest);
    }
  }

  /** `matchUrl`: one group names a directory, two a subdirectory, three a file; anything else is the root. */
  function MatchUrl(url: string): (m: PathMatch)
    ensures m == Directory <==> |Triples(url)| == 1
    ensures m == Subdirectory <==> |Triples(url)| == 2
    ensures m == Filepath <==> |Triples(url)| == 3
    ensures m == Root <==> |Triples(url)| == 0 || |Triples(url)| > 3
  {
    match |Triples(url)|
    case 1 => Directory
    case 2 => Subdirectory
    case 3 => Filepath
    case _ => Root
  }

  /** Every path the planet replicator builds for a sequence number names a file. */
  lemma ReplicationPathIsFile(t: int)
    requires 0 <= t < 1000000000
    ensures MatchUrl(PlanetReplicator.PathOf(t)) == Filepath
  {
    PlanetReplicator.PathSpellsSequence(t);
    var g := PlanetReplicator.Split(t);
    var a := Format03(g.0);
    var b := Format03(g.1);
    var c := Format03(g.2);
    assert AllDigits(a) && AllDigits(b) && AllDigits(c) by {
      assert forall i :: 0 <= i < |a| ==> (a + b + c)[i] == a[i];
      assert forall i :: 0 <= i < |b| ==> (a + b + c)[|a| + i] == b[i];
      assert forall i :: 0 <= i < |c| ==> (a + b + c)[|a| + |b| + i] == c[i];
    }
    ThreeGroupsIsFile(a, b, c);
  }

  /** Three groups of three digits separated by slashes name a file. */
  lemma ThreeGroupsIsFile(a: string, b: string, c: string)
    requires |a| == 3 && |b| == 3 && |c| == 3
    requires AllDigits(a) && AllDigits(b) && AllDigits(c)
    ensures MatchUrl(a + "/" + b + "/" + c) == Filepath
  {
    assert !IsDigit('/');
    assert a + "/" + b + "/" + c == a + ['/'] + (b + ['/'] + c);
    DigitRunThenBreak(a, '/', b + ['/'] + c);
    DigitRunThenBreak(b, '/', c);
    DigitRunTriples(c);
  }

  /** A URL with no digits at all is the root of the tree. */
  lemma NoDigitsIsRoot(url: string)
    requires forall i :: 0 <= i < |url| ==> !IsDigit(url[i])
    ensures MatchUrl(url) == Root
  {
    NoDigitsNoTriples(url);
  }

  lemma {:induction false} NoDigitsNoTriples(s: string)
    requires forall i :: 0 <= i < |s| ==> !IsDigit(s[i])
    ensures Triples(s) == []
    decreases |s|
  {
    if |s| >= 3 {
      assert !IsTriple(s);
      assert forall i :: 0 <= i < |s[1..]| ==> s[1..][i] == s[i + 1];
      NoDigitsNoTriples(s[1..]);
    }
  }

  /** The example the program's help text gives: `000/075/000` names a file. */
  lemma HelpExampleIsFile()
    ensures MatchUrl("000/075/000") == Filepath
  {
    assert AllDigits("000") && AllDigits("075");
    ThreeGroupsIsFile("000", "075", "000");
    assert "000" + "/" + "075" + "/" + "000" == "000/075/000";
  }

  // ---------------------------------------------------------------------
  // Frequency selection and tags

  /** The tag naming each frequency's directory in monitor mode. */
  function FrequencyTag(f: Frequency): (tag: string)
    ensures |tag| > 0
  {
    match f
    case Minutely => "minute"
    case Hourly => "hour"
    case Daily => "day"
    case Changeset => "changeset"
  }

  /** Distinct frequencies have distinct tags. */
  lemma FrequencyTagInjective(f: Frequency, g: Frequency)
    ensures FrequencyTag(f) == FrequencyTag(g) ==> f == g
  {
    if f != g {
      assert FrequencyTag(f)[0] != FrequencyTag(g)[0] || |FrequencyTag(f)| != |FrequencyTag(g)|;
    }
  }

  /** What the `--frequency` argument selects: the frequency, and the string used in the URL. */
  datatype FrequencyChoice = FrequencyChoice(frequency: Frequency, name: string)

  /**
   * The frequency chosen by the first letter of the argument; an absent
   * argument keeps minutely and the name `minute`. Any other first letter,
   * and an empty argument (whose first character reads as the terminating
   * NUL), keeps minutely but passes the argument on as the name.
   */
  function ChooseFrequency(arg: Option<string>): (r: FrequencyChoice)
    ensures arg.None? ==> r == FrequencyChoice(PlanetReplicator.Minutely, "minute")
    ensures arg.Some? ==> r.name == arg.value
    ensures arg.Some? && |arg.value| > 0 && arg.value[0] == 'h' <==> r.frequency == PlanetReplicator.Hourly
    ensures arg.Some? && |arg.value| > 0 && arg.value[0] == 'd' <==> r.frequency == PlanetReplicator.Daily
    ensures r.frequency != PlanetReplicator.Changeset
  {
    match arg
    case None => FrequencyChoice(PlanetReplicator.Minutely, "minute")
    case Some(s) =>
      var first := if |s| > 0 then s[0] else '\0';
      var f := if first == 'm' then PlanetReplicator.Minutely
               else if first == 'h' then PlanetReplicator.Hourly
               else if first == 'd' then PlanetReplicator.Daily
               else PlanetReplicator.Minutely;
      FrequencyChoice(f, s)
  }

  /** Passing a frequency's own tag selects that frequency again; the changeset tag selects minutely. */
  lemma ChooseTagRoundTrip(f: Frequency)
    ensures f != PlanetReplicator.Changeset ==> ChooseFrequency(Some(FrequencyTag(f))).frequency == f
    ensures f == PlanetReplicator.Changeset ==> ChooseFrequency(Some(FrequencyTag(f))).frequency == PlanetReplicator.Minutely
  {
  }

  // ---------------------------------------------------------------------
  // Start-up: data directory, starting URL and the monitor-mode check

  const DefaultServer: string := "https://planet.maps.mail.ru"
  const DefaultDatadir: string := "replication/"

  /** The data directory: the `DATADIR` environment variable wins over `--datadir`, which wins over the default. */
  function ChooseDatadir(option: Option<string>, env: Option<string>): (d: string)
    ensures env.Some? ==> d == env.value
    ensures env.None? && option.Some? ==> d == option.value
    ensures env.None? && option.None? ==> d == DefaultDatadir
  {
    if env.Some? then env.value else if option.Some? then option.value else DefaultDatadir
  }

  /** The starting URL: server, data directory, frequency name and the `--url` argument. */
  function FullUrl(server: string, datadir: string, freqName: string, url: string): (u: string)
    ensures |u| == |server| + |datadir| + |freqName| + |url| + 2
    ensures u[..|server| + 1] == server + "/"
    ensures u[|u| - |url|..] == url
    ensures u[|u| - |url| - 1] == '/'
    ensures u[|server| + 1..|u| - |url| - 1] == datadir + freqName
  {
    server + "/" + datadir + freqName + "/" + url
  }

  /** What monitor mode goes on to use: the starting URL and the frequency's directory. */
  datatype MonitorPlan = MonitorPlan(fullUrl: string, path: string)

  datatype StartError = NeitherTimestampNorUrl

  /**
   * Monitor mode needs a timestamp or a URL; with neither it stops before
   * resolving anything. Otherwise it watches the frequency's tag
   * directory. `start` is the parsed `--timestamp`, absent when not given.
   */
  function MonitorStart(server: string, datadir: string, choice: FrequencyChoice, start: Option<int>, url: string): (r: Result<MonitorPlan, StartError>)
    ensures r.Failure? <==> start.None? && url == ""
    ensures r.Failure? ==> r.error == NeitherTimestampNorUrl
    ensures r.Success? ==> r.value.path == FrequencyTag(choice.frequency) + "/"
    ensures r.Success? ==> r.value.fullUrl == FullUrl(server, datadir, choice.name, url)
  {
    if start.None? && |url| == 0 then Failure(NeitherTimestampNorUrl)
    else Success(MonitorPlan(FullUrl(server, datadir, choice.name, url), FrequencyTag(choice.frequency) + "/"))
  }

  /** With no arguments besides `--monitor` the start-up is rejected; a URL alone is enough. */
  lemma MonitorNeedsAStart(url: string)
    ensures MonitorStart(DefaultServer, DefaultDatadir, ChooseFrequency(None), None, "").Failure?
    ensures url != "" ==> (MonitorStart(DefaultServer, DefaultDatadir, ChooseFrequency(None), None, url)
      == Success(MonitorPlan(DefaultServer + "/" + DefaultDatadir + "minute" + "/" + url, "minute/")))
  {
    assert FrequencyTag(PlanetReplicator.Minutely) + "/" == "minute/";
  }
}
