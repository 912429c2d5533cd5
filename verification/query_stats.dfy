/**
 * `querystats::QueryStats`: the upserts into the `changesets` table. One
 * comes from the statistics of a change file (added and modified counts
 * per tag), one from a changeset's metadata (editor, times, hashtags,
 * source and bounding box).
 *
 * Each builder is written the way the source accumulates its text: it
 * appends pieces with trailing separators and then erases the last
 * separator. Each is proved equal to a reference built from plain lists
 * joined by their separator. `escapedString` is the parameter `esc`,
 * `to_simple_string` on times is `show`, `std::to_string` on doubles is
 * `showReal`, and the current time is `now`. Coordinates are `real`.
 */
module QueryStats {
  import opened Wrappers
  import opened Text

  /** `boost::posix_time::ptime`: a time in seconds, or the special not-a-date-time value. */
  datatype Instant = NotADateTime | At(seconds: int)

  /** A `std::map<std::string, int>` of counts, in its iteration order. */
  type Counts = seq<(string, int)>

  datatype ChangeStats = ChangeStats(changeId: int, userId: int, closedAt: Instant, added: Counts, modified: Counts)

  // ---------------------------------------------------------------------
  // hstore

  /** The entries with a positive count, in order. */
  function Positive(counts: Counts): (ps: Counts)
    ensures forall x :: x in ps <==> x in counts && x.1 > 0
    ensures |ps| <= |counts|
    decreases |counts|
  {
    if |counts| == 0 then []
    else
      var rest := Positive(counts[1..]);
      assert forall x :: x in counts <==> x == counts[0] || x in counts[1..];
      if counts[0].1 > 0 then [counts[0]] + rest else rest
  }

  /** ` ARRAY[key,count]`, both escaped. */
  function HstoreEntry(esc: string -> string, kv: (string, int)): string {
    " ARRAY[" + esc(kv.0) + "," + esc(IntToString(kv.1)) + "]"
  }

  function HstoreEntries(esc: string -> string, counts: Counts): (es: seq<string>)
    ensures |es| == |counts|
    ensures forall i :: 0 <= i < |counts| ==> es[i] == HstoreEntry(esc, counts[i])
  {
    seq(|counts|, i requires 0 <= i < |counts| => HstoreEntry(esc, counts[i]))
  }

  /**
   * The hstore text of a count map: the positive entries, comma-separated,
   * inside `HSTORE(ARRAY[...])`; nothing for an empty map. When the map is
   * not empty but no count is positive, erasing the last character eats
   * the opening bracket and leaves `HSTORE(ARRAY])`.
   */
  function Hstore(esc: string -> string, counts: Counts): (h: string)
    ensures |counts| == 0 <==> h == ""
    ensures |counts| > 0 && |Positive(counts)| > 0 ==>
      h == "HSTORE(ARRAY[" + Join(HstoreEntries(esc, Positive(counts)), ",") + "])"
    ensures |counts| > 0 && |Positive(counts)| == 0 ==> h == "HSTORE(ARRAY])"
    ensures |counts| > 0 ==> |h| > 0 && h[0] == 'H'
  {
    if |counts| > 0 then
      var entries := HstoreEntries(esc, Positive(counts));
      var loop := "HSTORE(ARRAY[" + Terminated(entries, ",");
      HstoreTrim(entries);
      DropLast(loop, 1) + "])"
    else ""
  }

  /** Trimming the loop's text: the joined entries, or the bare prefix minus its bracket. */
  lemma HstoreTrim(entries: seq<string>)
    ensures |entries| > 0 ==> DropLast("HSTORE(ARRAY[" + Terminated(entries, ","), 1) == "HSTORE(ARRAY[" + Join(entries, ",")
    ensures |entries| == 0 ==> DropLast("HSTORE(ARRAY[" + Terminated(entries, ","), 1) == "HSTORE(ARRAY"
  {
    if |entries| > 0 {
      TrimTerminated("HSTORE(ARRAY[", entries, ",");
    }
  }

  /** A positive entry shows up in the hstore text's entries. */
  lemma HstoreKeepsPositive(esc: string -> string, counts: Counts, kv: (string, int))
    requires kv in counts
    ensures HstoreEntry(esc, kv) in HstoreEntries(esc, Positive(counts)) <== kv.1 > 0
  {
    if kv.1 > 0 {
      var ps := Positive(counts);
      var i :| 0 <= i < |ps| && ps[i] == kv;
      assert HstoreEntries(esc, ps)[i] == HstoreEntry(esc, kv);
    }
  }

  // ---------------------------------------------------------------------
  // applyChange(const ChangeStats &)

  /** The column names of the statistics insert. */
  function StatsColumns(cs: ChangeStats): seq<string> {
    ["id", "user_id", "closed_at", "updated_at"] + Opt(|cs.added| > 0, "added") + Opt(|cs.modified| > 0, "modified")
  }

  /** The values of the statistics insert, one per column. */
  function StatsValues(esc: string -> string, show: Instant -> string, now: Instant, cs: ChangeStats): seq<string> {
    [IntToString(cs.changeId), IntToString(cs.userId), "'" + show(cs.closedAt) + "'", "'" + show(now) + "'"]
      + Opt(|cs.added| > 0, Hstore(esc, cs.added)) + Opt(|cs.modified| > 0, Hstore(esc, cs.modified))
  }

  /** The assignments of the conflict clause: an empty map resets its column to `null`. */
  function StatsUpdates(esc: string -> string, show: Instant -> string, now: Instant, cs: ChangeStats): seq<string> {
    [" closed_at = '" + show(cs.closedAt) + "'", " updated_at = '" + show(now) + "'",
     if |cs.added| > 0 then "added = " + Hstore(esc, cs.added) else "added = null",
     if |cs.modified| > 0 then "modified = " + Hstore(esc, cs.modified) else "modified = null"]
  }

  /** Each column has its value, and a map's column is there exactly when the map is not empty. */
  lemma StatsColumnsMatchValues(esc: string -> string, show: Instant -> string, now: Instant, cs: ChangeStats)
    ensures |StatsColumns(cs)| == |StatsValues(esc, show, now, cs)|
    ensures "added" in StatsColumns(cs) <==> |cs.added| > 0
    ensures "modified" in StatsColumns(cs) <==> |cs.modified| > 0
    ensures StatsUpdates(esc, show, now, cs)[2] == "added = null" <==> |cs.added| == 0
    ensures StatsUpdates(esc, show, now, cs)[3] == "modified = null" <==> |cs.modified| == 0
  {
    StatsColumnsPresent(cs);
    if |cs.added| > 0 {
      NotReset("added = ", Hstore(esc, cs.added));
    }
    if |cs.modified| > 0 {
      NotReset("modified = ", Hstore(esc, cs.modified));
    }
  }

  lemma StatsColumnsPresent(cs: ChangeStats)
    ensures "added" in StatsColumns(cs) <==> |cs.added| > 0
    ensures "modified" in StatsColumns(cs) <==> |cs.modified| > 0
  {
    var fixed := ["id", "user_id", "closed_at", "updated_at"];
    var oa, om := Opt(|cs.added| > 0, "added"), Opt(|cs.modified| > 0, "modified");
    assert StatsColumns(cs) == fixed + oa + om;
    assert forall x :: x in fixed ==> |x| != 5 && |x| != 8;
    assert "added" !in om && "modified" !in oa by {
      assert |"added"| == 5 && |"modified"| == 8;
    }
  }

  /** An assignment of an hstore text is never the reset to `null`. */
  lemma NotReset(assign: string, text: string)
    requires |text| > 0 && text[0] == 'H'
    ensures assign + text != assign + "null"
  {
    assert (assign + text)[|assign|] == 'H' != (assign + "null")[|assign|];
  }

  /**
   * The statements that build the column list, one list element per
   * append (the fixed names are one literal in the source).
   */
  function StatsColumnPieces(cs: ChangeStats): seq<string> {
    ["INSERT INTO changesets (", "id, ", "user_id, ", "closed_at, ", "updated_at, "]
      + Opt(|cs.added| > 0, "added, ") + Opt(|cs.modified| > 0, "modified, ")
  }

  /** The column list: appended with trailing `", "`, the last one erased. */
  function StatsColumnsClause(cs: ChangeStats): (t: string)
    ensures t == "INSERT INTO changesets (" + Join(StatsColumns(cs), ", ") + ")"
  {
    var cols := StatsColumns(cs);
    assert "id" + ", " == "id, " && "user_id" + ", " == "user_id, ";
    assert "closed_at" + ", " == "closed_at, " && "updated_at" + ", " == "updated_at, ";
    assert "added" + ", " == "added, " && "modified" + ", " == "modified, ";
    assert StatsColumnPieces(cs) == ["INSERT INTO changesets ("] + Suffixed(cols, ", ");
    ConcatAppend(["INSERT INTO changesets ("], Suffixed(cols, ", "));
    ConcatSuffixed(cols, ", ");
    TrimTerminated("INSERT INTO changesets (", cols, ", ");
    DropLast(Concat(StatsColumnPieces(cs)), 2) + ")"
  }

  /** The statements that build the value list, one list element per append. */
  function StatsValuePieces(esc: string -> string, show: Instant -> string, now: Instant, cs: ChangeStats): seq<string> {
    [" VALUES(", IntToString(cs.changeId) + ", ", IntToString(cs.userId) + ", ",
     "'" + show(cs.closedAt) + "', ", "'" + show(now) + "', "]
      + Opt(|cs.added| > 0, Hstore(esc, cs.added) + ", ") + Opt(|cs.modified| > 0, Hstore(esc, cs.modified) + ", ")
  }

  /** The value list: appended with trailing `", "`, the last one erased. */
  function StatsValuesClause(esc: string -> string, show: Instant -> string, now: Instant, cs: ChangeStats): (t: string)
    ensures t == " VALUES(" + Join(StatsValues(esc, show, now, cs), ", ") + ") ON CONFLICT (id) DO UPDATE SET"
  {
    var vals := StatsValues(esc, show, now, cs);
    assert "'" + show(cs.closedAt) + "', " == "'" + show(cs.closedAt) + "'" + ", ";
    assert "'" + show(now) + "', " == "'" + show(now) + "'" + ", ";
    assert StatsValuePieces(esc, show, now, cs) == [" VALUES("] + Suffixed(vals, ", ");
    ConcatAppend([" VALUES("], Suffixed(vals, ", "));
    ConcatSuffixed(vals, ", ");
    TrimTerminated(" VALUES(", vals, ", ");
    DropLast(Concat(StatsValuePieces(esc, show, now, cs)), 2) + ") ON CONFLICT (id) DO UPDATE SET"
  }

  /** The statements that build the conflict clause, one list element per append. */
  function StatsUpdatePieces(esc: string -> string, show: Instant -> string, now: Instant, cs: ChangeStats): seq<string> {
    [" closed_at = '" + show(cs.closedAt) + "', ", " updated_at = '" + show(now) + "', ",
     if |cs.added| > 0 then "added = " + Hstore(esc, cs.added) + ", " else "added = null, ",
     if |cs.modified| > 0 then "modified = " + Hstore(esc, cs.modified) + ", " else "modified = null, "]
  }

  /** The conflict clause: appended with trailing `", "`, the last one erased. */
  function StatsUpdatesClause(esc: string -> string, show: Instant -> string, now: Instant, cs: ChangeStats): (t: string)
    ensures t == Join(StatsUpdates(esc, show, now, cs), ", ")
  {
    var ups := StatsUpdates(esc, show, now, cs);
    assert " closed_at = '" + show(cs.closedAt) + "', " == " closed_at = '" + show(cs.closedAt) + "'" + ", ";
    assert " updated_at = '" + show(now) + "', " == " updated_at = '" + show(now) + "'" + ", ";
    assert "added = null" + ", " == "added = null, " && "modified = null" + ", " == "modified = null, ";
    assert StatsUpdatePieces(esc, show, now, cs) == Suffixed(ups, ", ");
    ConcatSuffixed(ups, ", ");
    TrimTerminated("", ups, ", ");
    assert "" + Terminated(ups, ", ") == Terminated(ups, ", ");
    assert "" + Join(ups, ", ") == Join(ups, ", ");
    DropLast(Concat(StatsUpdatePieces(esc, show, now, cs)), 2)
  }

  /**
   * `applyChange(const ChangeStats &)`: the insert's column list, its
   * values and the conflict clause. The source trims each list on the
   * whole accumulated query; erasing from the end only touches the latest
   * list (`Text.DropLastAppend`), so each clause is built and trimmed on
   * its own here.
   */
  function ChangeStatsQuery(esc: string -> string, show: Instant -> string, now: Instant, cs: ChangeStats): (q: string)
    ensures q == "INSERT INTO changesets (" + Join(StatsColumns(cs), ", ") + ")"
      + (" VALUES(" + Join(StatsValues(esc, show, now, cs), ", ") + ") ON CONFLICT (id) DO UPDATE SET")
      + Join(StatsUpdates(esc, show, now, cs), ", ") + ";"
  {
    StatsColumnsClause(cs) + StatsValuesClause(esc, show, now, cs) + StatsUpdatesClause(esc, show, now, cs) + ";"
  }

  // ---------------------------------------------------------------------
  // applyChange(const ChangeSet &)

  /** The changeset's bounding box, in degrees. */
  datatype Box = Box(minLat: real, maxLat: real, minLon: real, maxLon: real)

  datatype ChangeSet = ChangeSet(id: int, editor: string, uid: int, createdAt: Instant, closedAt: Instant,
                                 hashtags: seq<string>, source: string, box: Box)

  /** The time stored as `closed_at`: the creation time stands in for a missing close time. */
  function ClosedAtStored(c: ChangeSet): (t: Instant)
    ensures c.closedAt != NotADateTime ==> t == c.closedAt
    ensures c.closedAt == NotADateTime ==> t == c.createdAt
    ensures c.createdAt != NotADateTime ==> t != NotADateTime
  {
    if c.closedAt != NotADateTime then c.closedAt else c.createdAt
  }

  /** A hashtag with every double quote replaced by `&quot;`. */
  function Quot(ht: string): (r: string)
    ensures '"' !in r
    ensures '"' !in ht ==> r == ht
  {
    ReplaceAllChar(ht, '"', "&quot;")
  }

  /**
   * Each double quote becomes `&quot;` and every other character is kept:
   * quoting works character by character, so these two facts fix `Quot`
   * on every hashtag.
   */
  lemma QuotByCharacter(a: string, b: string, x: char)
    ensures Quot(a + b) == Quot(a) + Quot(b)
    ensures Quot([x]) == if x == '"' then "&quot;" else [x]
  {
    ReplaceAllCharAppend(a, b, '"', "&quot;");
    ReplaceAllCharSingle(x, '"', "&quot;");
  }

  /** The text on either side of a double quote is quoted on its own, and the quote becomes `&quot;`. */
  lemma QuotSplitsAtQuote(a: string, b: string)
    ensures Quot(a + "\"" + b) == Quot(a) + "&quot;" + Quot(b)
  {
    QuotByCharacter(a, "\"", '"');
    QuotByCharacter(a + "\"", b, '"');
  }

  /** The hashtags as stored: quotes replaced, then escaped. */
  function HashtagItems(esc: string -> string, hts: seq<string>): (its: seq<string>)
    ensures |its| == |hts|
    ensures forall i :: 0 <= i < |hts| ==> its[i] == esc(Quot(hts[i]))
  {
    seq(|hts|, i requires 0 <= i < |hts| => esc(Quot(hts[i])))
  }

  /** The hashtags value: `, ARRAY[...]` with the items separated by `", "`. */
  function HashtagValue(esc: string -> string, hts: seq<string>): (t: string)
    ensures |hts| > 0 ==> t == ", ARRAY[" + Join(HashtagItems(esc, hts), ", ") + "]"
  {
    HashtagTrim(esc, hts);
    DropLast(", ARRAY[" + Terminated(HashtagItems(esc, hts), ", "), 2) + "]"
  }

  lemma HashtagTrim(esc: string -> string, hts: seq<string>)
    ensures |hts| > 0 ==> DropLast(", ARRAY[" + Terminated(HashtagItems(esc, hts), ", "), 2) == ", ARRAY[" + Join(HashtagItems(esc, hts), ", ")
  {
    if |hts| > 0 {
      TrimTerminated(", ARRAY[", HashtagItems(esc, hts), ", ");
    }
  }

  /** The hashtags assignment of the conflict clause; `null` when there are none. */
  function HashtagUpdate(esc: string -> string, hts: seq<string>): (t: string)
    ensures |hts| == 0 ==> t == ", hashtags=null"
    ensures |hts| > 0 ==> t == ", hashtags=ARRAY [" + Join(HashtagItems(esc, hts), ", ") + "]"
  {
    if |hts| > 0 then
      TrimTerminated(", hashtags=" + "ARRAY [", HashtagItems(esc, hts), ", ");
      DropLast(", hashtags=" + "ARRAY [" + Terminated(HashtagItems(esc, hts), ", "), 2) + "]"
    else ", hashtags=null"
  }

  // The bounding box fudge

  const Fudge: real := 0.0001

  /** The box moved by half a fudge: north in latitude, west in longitude. */
  function Shift(b: Box): Box {
    Box(b.minLat + Fudge / 2.0, b.maxLat + Fudge / 2.0, b.minLon - Fudge / 2.0, b.maxLon - Fudge / 2.0)
  }

  /** Zero width or zero height. */
  predicate Degenerate(b: Box) {
    b.maxLon == b.minLon || b.maxLat == b.minLat
  }

  /** West of the meridian and south of the equator. */
  predicate SouthWest(b: Box) {
    b.maxLon < 0.0 && b.minLat < 0.0
  }

  /**
   * The three checks in source order, each recomputing from the ORIGINAL
   * box: the result is the box itself or the box shifted once, and it is
   * shifted exactly when the original is south-west or degenerate.
   */
  function AdjustBox(b: Box): (r: Box)
    ensures r == b || r == Shift(b)
    ensures r == Shift(b) <==> SouthWest(b) || Degenerate(b)
    ensures r.maxLat - r.minLat == b.maxLat - b.minLat
    ensures r.maxLon - r.minLon == b.maxLon - b.minLon
  {
    var b1 := if SouthWest(b) then Shift(b) else b;
    var b2 := if Degenerate(b1) then Shift(b) else b1;
    var b3 := if SouthWest(b2) then Shift(b) else b2;
    assert Degenerate(Shift(b)) <==> Degenerate(b);
    assert Shift(b) != b;
    b3
  }

  /** A box with no width or no height keeps it: the fudge moves the box and does not widen it. */
  lemma FudgeDoesNotWiden(b: Box)
    ensures Degenerate(AdjustBox(b)) <==> Degenerate(b)
  {
  }

  /** Adjusting twice shifts twice when the shifted box still qualifies. */
  lemma AdjustNotIdempotent()
    ensures AdjustBox(AdjustBox(Box(1.0, 1.0, 2.0, 2.0))) != AdjustBox(Box(1.0, 1.0, 2.0, 2.0))
  {
    var b := Box(1.0, 1.0, 2.0, 2.0);
    assert Degenerate(b);
    assert AdjustBox(b) == Shift(b);
    assert Degenerate(Shift(b));
    assert AdjustBox(Shift(b)) == Shift(Shift(b));
  }

  /** The polygon ring as (longitude, latitude) pairs, clockwise from the north-east corner. */
  function Ring(b: Box): (ring: seq<(real, real)>)
    ensures |ring| == 5 && ring[0] == ring[4]
    ensures forall i :: 0 <= i < 5 ==> ring[i].0 in {b.minLon, b.maxLon} && ring[i].1 in {b.minLat, b.maxLat}
    ensures {ring[0], ring[1], ring[2], ring[3]} ==
      {(b.maxLon, b.maxLat), (b.minLon, b.maxLat), (b.minLon, b.minLat), (b.maxLon, b.minLat)}
  {
    [(b.maxLon, b.maxLat), (b.minLon, b.maxLat), (b.minLon, b.minLat), (b.maxLon, b.minLat), (b.maxLon, b.maxLat)]
  }

  /** For a box with width and height, the first four vertices are the four distinct corners. */
  lemma RingCornersDistinct(b: Box)
    requires !Degenerate(b)
    ensures forall i, j :: 0 <= i < j < 4 ==> Ring(b)[i] != Ring(b)[j]
  {
  }

  function VertexText(showReal: real -> string, v: (real, real)): string {
    showReal(v.0) + "  " + showReal(v.1)
  }

  /** The opening of the geometry text: a multi-polygon from WGS 84 (SRID 4326) text. */
  const PolygonOpen: string := "ST_MULTI(ST_GeomFromEWKT('SRID=4326;POLYGON(("

  /** The geometry the bbox column is set to, without the leading `", "`. */
  function BboxBody(showReal: real -> string, b: Box): string {
    var r := Ring(b);
    PolygonOpen + Join([VertexText(showReal, r[0]), VertexText(showReal, r[1]), VertexText(showReal, r[2]),
              VertexText(showReal, r[3]), VertexText(showReal, r[4])], ",") + ")"
  }

  /** The bbox text as the source appends it: one list element per corner, each corner's two appends merged. */
  function BboxText(showReal: real -> string, b: Box): (t: string)
    ensures t == ", " + BboxBody(showReal, b)
  {
    var vs := [VertexText(showReal, Ring(b)[0]), VertexText(showReal, Ring(b)[1]), VertexText(showReal, Ring(b)[2]),
               VertexText(showReal, Ring(b)[3])];
    var last := VertexText(showReal, Ring(b)[4]);
    var pre := ", " + PolygonOpen;
    var pieces := [pre,
      VertexText(showReal, (b.maxLon, b.maxLat)) + ",", VertexText(showReal, (b.minLon, b.maxLat)) + ",",
      VertexText(showReal, (b.minLon, b.minLat)) + ",", VertexText(showReal, (b.maxLon, b.minLat)) + ",",
      VertexText(showReal, (b.maxLon, b.maxLat)) + ")"];
    assert pieces == [pre] + Suffixed(vs, ",") + [last + ")"];
    SuffixedThenLast(pre, vs, last, ",", ")");
    var j := Join(vs + [last], ",");
    assert vs + [last] == [VertexText(showReal, Ring(b)[0]), VertexText(showReal, Ring(b)[1]), VertexText(showReal, Ring(b)[2]),
                           VertexText(showReal, Ring(b)[3]), VertexText(showReal, Ring(b)[4])];
    var m := PolygonOpen;
    assert (", " + m) + j == ", " + (m + j);
    assert ", " + (m + j) + ")" == ", " + (m + j + ")");
    Concat(pieces)
  }

  /** The column names of the changeset insert. */
  function SetColumns(c: ChangeSet): seq<string> {
    ["id", "editor", "user_id", "created_at", "closed_at", "updated_at"]
      + Opt(|c.hashtags| > 0, "hashtags ") + Opt(c.source != "", "source ") + ["bbox"]
  }

  /** The geometry value: the bbox polygon, closed off as `ST_MULTI(ST_GeomFromEWKT('...'))`. */
  function GeometryValue(showReal: real -> string, b: Box): string {
    " " + BboxBody(showReal, b) + ")'))"
  }

  /** The values of the changeset insert, each with the quoting and spacing the source gives it. */
  function SetValues(esc: string -> string, show: Instant -> string, showReal: real -> string, now: Instant, c: ChangeSet): seq<string> {
    [IntToString(c.id), esc(c.editor), "'" + IntToString(c.uid) + "'", "'" + show(c.createdAt) + "'",
     " '" + show(ClosedAtStored(c)) + "'", " '" + show(now) + "'"]
      + Opt(|c.hashtags| > 0, " ARRAY[" + Join(HashtagItems(esc, c.hashtags), ", ") + "]")
      + Opt(c.source != "", "'" + c.source + "'")
      + [GeometryValue(showReal, AdjustBox(c.box))]
  }

  /**
   * Each column has its value; the hashtags and source columns are there
   * exactly when there are hashtags and a source; the source goes in as
   * given, without escaping.
   */
  lemma SetColumnsMatchValues(esc: string -> string, show: Instant -> string, showReal: real -> string, now: Instant, c: ChangeSet)
    ensures |SetColumns(c)| == |SetValues(esc, show, showReal, now, c)|
    ensures "hashtags " in SetColumns(c) <==> |c.hashtags| > 0
    ensures "source " in SetColumns(c) <==> c.source != ""
    ensures c.source != "" ==> SetValues(esc, show, showReal, now, c)[|SetColumns(c)| - 2] == "'" + c.source + "'"
  {
  }

  /** Without a close time the row's `closed_at` repeats its `created_at`. */
  lemma ClosedAtFallsBackToCreated(esc: string -> string, show: Instant -> string, showReal: real -> string, now: Instant, c: ChangeSet)
    requires c.closedAt == NotADateTime
    ensures SetValues(esc, show, showReal, now, c)[4] == " " + SetValues(esc, show, showReal, now, c)[3]
  {
  }

  /**
   * The statements that build the column list, one list element per
   * column: each column after the first brings its leading `", "` (the
   * six fixed names are one literal in the source).
   */
  function SetColumnPieces(c: ChangeSet): seq<string> {
    ["INSERT INTO changesets (", "id"] + Prefixed(["editor", "user_id", "created_at", "closed_at", "updated_at"], ", ")
      + Opt(|c.hashtags| > 0, ", hashtags ") + Opt(c.source != "", ", source ") + [", bbox", ") VALUES("]
  }

  /** The column list of the changeset insert. */
  function SetColumnsClause(c: ChangeSet): (t: string)
    ensures t == "INSERT INTO changesets (" + Join(SetColumns(c), ", ") + ") VALUES("
  {
    var cols := SetColumns(c);
    var fixed := ["id", "editor", "user_id", "created_at", "closed_at", "updated_at"];
    assert fixed[1..] == ["editor", "user_id", "created_at", "closed_at", "updated_at"];
    assert ", hashtags " == ", " + "hashtags " && ", source " == ", " + "source " && ", bbox" == ", " + "bbox";
    ColumnsRegroup("INSERT INTO changesets (", ") VALUES(", ", ", fixed, |c.hashtags| > 0, "hashtags ", c.source != "", "source ", "bbox");
    PrefixedWrapped("INSERT INTO changesets (", cols, ", ", ") VALUES(");
    Concat(SetColumnPieces(c))
  }

  /**
   * Optional columns appended behind their separators regroup into the
   * first column followed by every later column behind its separator.
   */
  lemma ColumnsRegroup(open: string, close: string, sep: string, n: seq<string>, h: bool, hn: string, s: bool, sn: string, bn: string)
    requires |n| > 0
    ensures var cols := n + Opt(h, hn) + Opt(s, sn) + [bn];
      [open, n[0]] + Prefixed(n[1..], sep) + Opt(h, sep + hn) + Opt(s, sep + sn) + [sep + bn, close]
      == [open, cols[0]] + Prefixed(cols[1..], sep) + [close]
  {
    var oh, os := Opt(h, hn), Opt(s, sn);
    var cols := n + oh + os + [bn];
    var tail := n[1..] + oh + os + [bn];
    assert cols[1..] == tail;
    var pa, ph, ps := Prefixed(n[1..], sep), Opt(h, sep + hn), Opt(s, sep + sn);
    var l := [open, n[0]] + pa + ph + ps + [sep + bn, close];
    var r := [open, cols[0]] + Prefixed(tail, sep) + [close];
    var k := |n| + 1;
    assert |l| == |r| == k + |oh| + |os| + 2;
    forall i | 0 <= i < |l|
      ensures l[i] == r[i]
    {
      if i >= 2 && i < k + |oh| + |os| + 1 {
        assert r[i] == sep + tail[i - 2];
        if i < k {
          assert l[i] == pa[i - 2];
        } else if i < k + |oh| {
          assert l[i] == ph[i - k];
        } else if i < k + |oh| + |os| {
          assert l[i] == ps[i - k - |oh|];
        }
      }
    }
  }

  /**
   * The statements that build the value list, cut at the commas between
   * values: the source's appends glue each comma to the quote around the
   * next value, and the bbox statement brings its own leading `", "`.
   */
  function SetValuePieces(esc: string -> string, show: Instant -> string, showReal: real -> string, now: Instant, c: ChangeSet): seq<string> {
    [IntToString(c.id), "," + esc(c.editor), ",'" + IntToString(c.uid) + "'", ",'" + show(c.createdAt) + "'",
     ", '" + show(ClosedAtStored(c)) + "'", ", '" + show(now) + "'"]
      + Opt(|c.hashtags| > 0, HashtagValue(esc, c.hashtags))
      + Opt(c.source != "", ",'" + c.source + "'")
      + [BboxText(showReal, AdjustBox(c.box)) + ")')" + ")"]
  }

  /** The value list of the changeset insert, up to the closing parenthesis of the geometry. */
  function SetValuesClause(esc: string -> string, show: Instant -> string, showReal: real -> string, now: Instant, c: ChangeSet): (t: string)
    ensures t == Join(SetValues(esc, show, showReal, now, c), ",")
  {
    var vals := SetValues(esc, show, showReal, now, c);
    SetValuePiecesArePrefixed(esc, show, showReal, now, c);
    JoinIsPrefixed(vals, ",");
    Concat(SetValuePieces(esc, show, showReal, now, c))
  }

  lemma SetValuePiecesArePrefixed(esc: string -> string, show: Instant -> string, showReal: real -> string, now: Instant, c: ChangeSet)
    ensures SetValuePieces(esc, show, showReal, now, c)
      == [SetValues(esc, show, showReal, now, c)[0]] + Prefixed(SetValues(esc, show, showReal, now, c)[1..], ",")
  {
    var hv := " ARRAY[" + Join(HashtagItems(esc, c.hashtags), ", ") + "]";
    var g := GeometryValue(showReal, AdjustBox(c.box));
    SetValuePiecesPlain(esc, show, showReal, now, c);
    var rest := [esc(c.editor), "'" + IntToString(c.uid) + "'", "'" + show(c.createdAt) + "'",
                 " '" + show(ClosedAtStored(c)) + "'", " '" + show(now) + "'"]
      + Opt(|c.hashtags| > 0, hv) + Opt(c.source != "", "'" + c.source + "'") + [g];
    assert SetValues(esc, show, showReal, now, c) == [IntToString(c.id)] + rest;
    assert SetValues(esc, show, showReal, now, c)[1..] == rest;
    PrefixedValues(IntToString(c.id), esc(c.editor), IntToString(c.uid), show(c.createdAt), show(ClosedAtStored(c)), show(now),
                   |c.hashtags| > 0, hv, c.source != "", c.source, g);
  }

  /** The value pieces with the hashtag and bbox statements written through the values they carry. */
  lemma SetValuePiecesPlain(esc: string -> string, show: Instant -> string, showReal: real -> string, now: Instant, c: ChangeSet)
    ensures SetValuePieces(esc, show, showReal, now, c)
      == [IntToString(c.id), "," + esc(c.editor), ",'" + IntToString(c.uid) + "'", ",'" + show(c.createdAt) + "'",
          ", '" + show(ClosedAtStored(c)) + "'", ", '" + show(now) + "'"]
        + Opt(|c.hashtags| > 0, "," + (" ARRAY[" + Join(HashtagItems(esc, c.hashtags), ", ") + "]"))
        + Opt(c.source != "", ",'" + c.source + "'")
        + ["," + GeometryValue(showReal, AdjustBox(c.box))]
  {
    BboxPiece(showReal, AdjustBox(c.box));
    HashtagPiece(esc, c.hashtags);
  }

  /** The bbox statement and the closing of the geometry value, as one value piece. */
  lemma BboxPiece(showReal: real -> string, b: Box)
    ensures BboxText(showReal, b) + ")')" + ")" == "," + GeometryValue(showReal, b)
  {
  }

  /** The hashtag statement, when present, as one value piece. */
  lemma HashtagPiece(esc: string -> string, hts: seq<string>)
    ensures Opt(|hts| > 0, HashtagValue(esc, hts)) == Opt(|hts| > 0, "," + (" ARRAY[" + Join(HashtagItems(esc, hts), ", ") + "]"))
  {
    if |hts| > 0 {
      var j := Join(HashtagItems(esc, hts), ", ");
      assert ", ARRAY[" == "," + " ARRAY[";
      assert HashtagValue(esc, hts) == ", ARRAY[" + j + "]";
      assert ", ARRAY[" + j + "]" == "," + (" ARRAY[" + j + "]");
    }
  }

  /** The value pieces as the source cuts them, regrouped at the commas, over plain strings. */
  lemma PrefixedValues(id: string, ed: string, uid: string, cr: string, cl: string, nw: string,
                       h: bool, hv: string, s: bool, src: string, g: string)
    ensures [id, "," + ed, ",'" + uid + "'", ",'" + cr + "'", ", '" + cl + "'", ", '" + nw + "'"]
        + Opt(h, "," + hv) + Opt(s, ",'" + src + "'") + ["," + g]
      == [id] + Prefixed([ed, "'" + uid + "'", "'" + cr + "'", " '" + cl + "'", " '" + nw + "'"]
        + Opt(h, hv) + Opt(s, "'" + src + "'") + [g], ",")
  {
    assert ",'" + uid + "'" == "," + ("'" + uid + "'");
    assert ",'" + cr + "'" == "," + ("'" + cr + "'");
    assert ", '" + cl + "'" == "," + (" '" + cl + "'");
    assert ", '" + nw + "'" == "," + (" '" + nw + "'");
    assert ",'" + src + "'" == "," + ("'" + src + "'");
  }

  /** The conflict clause: the editor, times, hashtags and the inserted geometry again. */
  function SetConflictClause(esc: string -> string, show: Instant -> string, showReal: real -> string, now: Instant, c: ChangeSet): (t: string)
    ensures t == ") ON CONFLICT (id) DO UPDATE SET editor=" + esc(c.editor)
      + ", created_at='" + show(c.createdAt) + "', updated_at='" + show(now) + "'"
      + HashtagUpdate(esc, c.hashtags)
      + ", bbox=" + BboxBody(showReal, AdjustBox(c.box)) + ")'));"
  {
    var bbox := BboxText(showReal, AdjustBox(c.box));
    assert bbox[2..] == BboxBody(showReal, AdjustBox(c.box));
    ") ON CONFLICT (id) DO UPDATE SET editor=" + esc(c.editor)
      + ", created_at='" + show(c.createdAt)
      + "', updated_at='" + show(now) + "'"
      + HashtagUpdate(esc, c.hashtags)
      + ", bbox=" + bbox[2..] + ")'));"
  }

  /**
   * `applyChange(const ChangeSet &)`: the insert's column list and values,
   * then the conflict clause, whose bbox assignment repeats the inserted
   * geometry text. The source's `")) ON CONFLICT"` literal is split here:
   * its first parenthesis closes the geometry value, its second the value
   * list.
   */
  function ChangeSetQuery(esc: string -> string, show: Instant -> string, showReal: real -> string, now: Instant, c: ChangeSet): (q: string)
    ensures q == "INSERT INTO changesets (" + Join(SetColumns(c), ", ") + ") VALUES("
      + Join(SetValues(esc, show, showReal, now, c), ",")
      + (") ON CONFLICT (id) DO UPDATE SET editor=" + esc(c.editor)
        + ", created_at='" + show(c.createdAt) + "', updated_at='" + show(now) + "'"
        + HashtagUpdate(esc, c.hashtags)
        + ", bbox=" + BboxBody(showReal, AdjustBox(c.box)) + ")'));")
  {
    SetColumnsClause(c) + SetValuesClause(esc, show, showReal, now, c) + SetConflictClause(esc, show, showReal, now, c)
  }
}
