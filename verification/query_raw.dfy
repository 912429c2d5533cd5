/**
 * `queryraw::QueryRaw`: the statements that keep the raw OSM tables
 * (`raw_node`, `raw_poly`, `rawrefs`) in step with a change file, the
 * parser for the Postgres array text those tables return, and the id
 * collection of `getNodeCache`.
 *
 * A change is first turned into abstract statements (`Stmt`), which are
 * then rendered to SQL text as the source formats them, except the way
 * upsert, which uses the corrected format (see `WayFormatTooFewArgs`). `Exec`
 * gives each statement its meaning on a table state, so the version gate,
 * the ring gate and the membership rows can be stated as facts about the
 * resulting tables.
 *
 * `escapedString` is the parameter `esc`; the current time, rendered by
 * `to_simple_string`, is the parameter `now`; a node's WKT geometry text
 * is carried as a string.
 */
module QueryRaw {
  import opened Wrappers
  import opened Text
  import opened BoostFormat

  /** `osmobjects::action_t`. */
  datatype Action = NoAction | Create | Modify | Remove

  predicate IsUpsert(a: Action) {
    a == Create || a == Modify
  }

  /** A tag map in its iteration order. */
  type Tags = seq<(string, string)>

  datatype OsmNode = OsmNode(id: int, action: Action, version: int, tags: Tags, geometry: string)

  datatype OsmWay = OsmWay(id: int, action: Action, version: int, tags: Tags, refs: seq<int>) {
    /** First ref equals last ref; only meaningful when there are refs. */
    predicate Closed()
      requires |refs| > 0
    {
      refs[0] == refs[|refs| - 1]
    }
  }

  // ---------------------------------------------------------------------
  // Tag and ref serialisation

  /** `"k" => "v"` with both sides escaped. */
  function TagPair(esc: string -> string, tag: (string, string)): string {
    "\"" + esc(tag.0) + "\" => \"" + esc(tag.1) + "\""
  }

  function TagPairs(esc: string -> string, tags: Tags): (ps: seq<string>)
    ensures |ps| == |tags|
    ensures forall i :: 0 <= i < |tags| ==> ps[i] == TagPair(esc, tags[i])
  {
    seq(|tags|, i requires 0 <= i < |tags| => TagPair(esc, tags[i]))
  }

  /**
   * The tags column: every pair followed by a comma, the last comma
   * erased, the whole quoted; `null` when there are no tags.
   */
  function TagsText(esc: string -> string, tags: Tags): (t: string)
    ensures |tags| == 0 <==> t == "null"
    ensures |tags| > 0 ==> t == "'" + Join(TagPairs(esc, tags), ",") + "'"
  {
    if |tags| > 0 then
      var loop := Terminated(TagPairs(esc, tags), ",");
      TrimmedTerminatedIsJoin(TagPairs(esc, tags), ",");
      "'" + loop[..|loop| - 1] + "'"
    else "null"
  }

  /** No comma is left dangling: the character before the closing quote closes the last value. */
  lemma TagsTextNoTrailingComma(esc: string -> string, tags: Tags)
    requires |tags| > 0
    ensures var t := TagsText(esc, tags); |t| >= 2 && t[|t| - 2] == '"' && t[|t| - 1] == '\''
  {
    var ps := TagPairs(esc, tags);
    JoinEndsWithLast(ps, ",");
    var j := Join(ps, ",");
    var last := ps[|ps| - 1];
    assert last[|last| - 1] == '"';
    assert j[|j| - 1] == last[|last| - 1];
  }

  /** Decimal rendering of each ref. */
  function Decimals(xs: seq<int>): (ds: seq<string>)
    ensures |ds| == |xs|
    ensures forall i :: 0 <= i < |xs| ==> ds[i] == IntToString(xs[i])
  {
    seq(|xs|, i requires 0 <= i < |xs| => IntToString(xs[i]))
  }

  /** The refs column: `ARRAY[r1,...,rn]` in order, or `null` when there are none. */
  function RefsText(refs: seq<int>): (t: string)
    ensures |refs| == 0 <==> t == "null"
    ensures |refs| > 0 ==> t == "ARRAY[" + Join(Decimals(refs), ",") + "]"
  {
    if |refs| > 0 then
      var loop := Terminated(Decimals(refs), ",");
      TrimmedTerminatedIsJoin(Decimals(refs), ",");
      "ARRAY[" + loop[..|loop| - 1] + "]"
    else "null"
  }

  // ---------------------------------------------------------------------
  // Statements and their text

  datatype Stmt =
    | UpsertNode(id: int, geometry: string, tags: string, timestamp: string, version: int)
    | DeleteNode(id: int)
    | UpsertWay(id: int, tags: string, refs: string, timestamp: string, version: int)
    | InsertRawRef(node: int, way: int)
    | DeleteWay(id: int)
    | DeleteRawRefs(way: int)

  const NodePrefix := "INSERT INTO raw_node as r (osm_id,  geometry, tags, timestamp, version) VALUES("

  /** The node upsert format: ten directives. */
  const NodeTemplate := Template([
    "", ", ST_GeomFromText('", "', 4326), ", ", '", "', ",
    "         ) ON CONFLICT (osm_id) DO UPDATE SET  geometry = ST_GeomFromText('",
    "',         4326), tags = ", ", timestamp = '", "', version = ", " WHERE r.version < ", ";"])

  const WayPrefix := "INSERT INTO raw_poly as r (osm_id, tags, refs, timestamp, version) VALUES("

  /** The way upsert format as written: eleven directives, one more than the arguments fed to it. */
  const WayTemplateAsWritten := Template([
    "", ", ", ", ", ", '", "', ",
    ")         ON CONFLICT (osm_id) DO UPDATE SET geometry = ", ", tags = ", ", refs = ", ", timestamp = '",
    "', version = ", " WHERE r.version < ", ";"])

  /** The way upsert format without the `geometry = %s` clause no argument was supplied for. */
  const WayTemplate := Template([
    "", ", ", ", ", ", '", "', ",
    ")         ON CONFLICT (osm_id) DO UPDATE SET tags = ", ", refs = ", ", timestamp = '",
    "', version = ", " WHERE r.version < ", ";"])

  /** The ten arguments fed to the way format, in feeding order. */
  function WayArgs(id: int, tags: string, refs: string, timestamp: string, version: int): seq<string> {
    [IntToString(id), tags, refs, timestamp, IntToString(version), tags, refs, timestamp, IntToString(version), IntToString(version)]
  }

  function RawRefText(node: int, way: int): string {
    "INSERT INTO rawrefs (node_id, way_id) VALUES (" + IntToString(node) + "," + IntToString(way) + ") ON CONFLICT (node_id, way_id) DO NOTHING;"
  }

  /** The gate every upsert ends with: the update fires only over an older stored version. */
  function Gate(version: int): string {
    " WHERE r.version < " + IntToString(version) + ";"
  }

  /** The node upsert: the insert prefix, then the ten arguments through the node format. */
  function NodeUpsertText(id: int, geometry: string, tags: string, timestamp: string, version: int): (t: string)
    ensures |t| > |NodePrefix| && t[..|NodePrefix|] == NodePrefix
    ensures |t| >= |Gate(version)| && t[|t| - |Gate(version)|..] == Gate(version)
  {
    var v := IntToString(version);
    var args := [IntToString(id), geometry, tags, timestamp, v, geometry, tags, timestamp, v, v];
    FormatTail(NodePrefix, NodeTemplate, args);
    NodePrefix + Format(NodeTemplate, args).value
  }

  /** The way upsert: the insert prefix, then the ten arguments through the (corrected) way format. */
  function WayUpsertText(id: int, tags: string, refs: string, timestamp: string, version: int): (t: string)
    ensures |t| > |WayPrefix| && t[..|WayPrefix|] == WayPrefix
    ensures |t| >= |Gate(version)| && t[|t| - |Gate(version)|..] == Gate(version)
  {
    var args := WayArgs(id, tags, refs, timestamp, version);
    FormatTail(WayPrefix, WayTemplate, args);
    WayPrefix + Format(WayTemplate, args).value
  }

  /** The SQL text of one statement. */
  function Render(s: Stmt): string {
    match s
    case UpsertNode(id, geometry, tags, timestamp, version) => NodeUpsertText(id, geometry, tags, timestamp, version)
    case DeleteNode(id) => "DELETE from raw_node where osm_id = " + IntToString(id) + ";"
    case UpsertWay(id, tags, refs, timestamp, version) => WayUpsertText(id, tags, refs, timestamp, version)
    case InsertRawRef(node, way) => RawRefText(node, way)
    case DeleteWay(id) => "DELETE from raw_poly where osm_id = " + IntToString(id) + ";"
    case DeleteRawRefs(way) => "DELETE from rawrefs where way_id = " + IntToString(way) + ";"
  }

  function Renders(ss: seq<Stmt>): (ts: seq<string>)
    ensures |ts| == |ss|
    ensures forall i :: 0 <= i < |ss| ==> ts[i] == Render(ss[i])
  {
    seq(|ss|, i requires 0 <= i < |ss| => Render(ss[i]))
  }

  /** The statements' texts one after another, as the source appends them to one query string. */
  function RenderAll(ss: seq<Stmt>): string {
    Concat(Renders(ss))
  }

  // ---------------------------------------------------------------------
  // applyChange(OsmNode) and applyChange(OsmWay)

  /** What a node change asks of the tables. */
  function NodeChange(esc: string -> string, now: string, node: OsmNode): seq<Stmt> {
    if IsUpsert(node.action) then [UpsertNode(node.id, node.geometry, TagsText(esc, node.tags), now, node.version)]
    else if node.action == Remove then [DeleteNode(node.id)]
    else []
  }

  /** `applyChange(const OsmNode &)`. */
  function ApplyChangeNode(esc: string -> string, now: string, node: OsmNode): (q: string)
    ensures q == "" <==> node.action == NoAction
    ensures node.action == Remove ==> q == "DELETE from raw_node where osm_id = " + IntToString(node.id) + ";"
    ensures IsUpsert(node.action) ==> |q| > |NodePrefix| && q[..|NodePrefix|] == NodePrefix
    ensures IsUpsert(node.action) ==> |q| >= |Gate(node.version)| && q[|q| - |Gate(node.version)|..] == Gate(node.version)
  {
    var ss := NodeChange(esc, now, node);
    assert |ss| == 1 ==> Concat(Renders(ss)) == Render(ss[0]) + Concat([]);
    RenderAll(ss)
  }

  function RawRefRows(refs: seq<int>, way: int): (ss: seq<Stmt>)
    ensures |ss| == |refs|
    ensures forall i :: 0 <= i < |refs| ==> ss[i] == InsertRawRef(refs[i], way)
  {
    seq(|refs|, i requires 0 <= i < |refs| => InsertRawRef(refs[i], way))
  }

  /** What a way change asks of the tables; the source reads the first ref unguarded. */
  function WayChange(esc: string -> string, now: string, way: OsmWay): seq<Stmt>
    requires |way.refs| > 0
  {
    if way.Closed() && IsUpsert(way.action) then
      [UpsertWay(way.id, TagsText(esc, way.tags), RefsText(way.refs), now, way.version)] + RawRefRows(way.refs, way.id)
    else if way.action == Remove then [DeleteWay(way.id), DeleteRawRefs(way.id)]
    else []
  }

  /** `applyChange(const OsmWay &)`, with the way format corrected (see `ApplyChangeWayAsWritten`). */
  function ApplyChangeWay(esc: string -> string, now: string, way: OsmWay): (q: string)
    requires |way.refs| > 0
    ensures q == "" <==> !(way.Closed() && IsUpsert(way.action)) && way.action != Remove
    ensures way.action == Remove ==>
      q == "DELETE from raw_poly where osm_id = " + IntToString(way.id) + ";" + "DELETE from rawrefs where way_id = " + IntToString(way.id) + ";"
    ensures way.Closed() && IsUpsert(way.action) ==> |q| > |WayPrefix| && q[..|WayPrefix|] == WayPrefix
    ensures way.Closed() && IsUpsert(way.action) ==>
      var last := RawRefText(way.refs[|way.refs| - 1], way.id);
      |q| >= |last| && q[|q| - |last|..] == last
  {
    var q := RenderAll(WayChange(esc, now, way));
    if way.Closed() && IsUpsert(way.action) then
      ClosedWayText(esc, now, way);
      q
    else if way.action == Remove then
      RemovedWayText(esc, now, way);
      q
    else q
  }

  /** The text for a closed way: the upsert first, the membership row of the last ref last. */
  lemma ClosedWayText(esc: string -> string, now: string, way: OsmWay)
    requires |way.refs| > 0 && way.Closed() && IsUpsert(way.action)
    ensures var q := RenderAll(WayChange(esc, now, way));
      && |q| > |WayPrefix| && q[..|WayPrefix|] == WayPrefix
      && var last := RawRefText(way.refs[|way.refs| - 1], way.id);
         |q| >= |last| && q[|q| - |last|..] == last
  {
    var rows := RawRefRows(way.refs, way.id);
    var u := UpsertWay(way.id, TagsText(esc, way.tags), RefsText(way.refs), now, way.version);
    assert WayChange(esc, now, way) == [u] + rows;
    assert rows[|rows| - 1] == InsertRawRef(way.refs[|way.refs| - 1], way.id);
    var head := WayUpsertText(u.id, u.tags, u.refs, u.timestamp, u.version);
    assert Render(u) == head;
    RenderAllCons(u, rows);
    var last := RawRefText(way.refs[|way.refs| - 1], way.id);
    assert Render(rows[|rows| - 1]) == last;
    RenderAllLast(rows);
    FramedConcat(head, RenderAll(rows), WayPrefix, last);
  }

  /** The text of statements is the first statement's text followed by the rest's. */
  lemma RenderAllCons(u: Stmt, rows: seq<Stmt>)
    ensures RenderAll([u] + rows) == Render(u) + RenderAll(rows)
  {
    var ts := Renders([u] + rows);
    assert ts[0] == Render(u);
    assert ts[1..] == Renders(rows) by {
      assert forall i :: 0 <= i < |rows| ==> ([u] + rows)[i + 1] == rows[i];
    }
    ConcatCons(ts);
  }

  /** The text for a removed way: the two deletes, in that order. */
  lemma RemovedWayText(esc: string -> string, now: string, way: OsmWay)
    requires |way.refs| > 0 && way.action == Remove
    ensures RenderAll(WayChange(esc, now, way)) ==
      "DELETE from raw_poly where osm_id = " + IntToString(way.id) + ";" + "DELETE from rawrefs where way_id = " + IntToString(way.id) + ";"
  {
    var ss := WayChange(esc, now, way);
    assert ss == [DeleteWay(way.id), DeleteRawRefs(way.id)];
    var ts := Renders(ss);
    ConcatCons(ts);
    ConcatCons(ts[1..]);
    assert ts[1..][1..] == [];
  }

  lemma RenderAllAppend(a: seq<Stmt>, b: seq<Stmt>)
    ensures RenderAll(a + b) == RenderAll(a) + RenderAll(b)
  {
    var r := Renders(a + b);
    var t := Renders(a) + Renders(b);
    forall i | 0 <= i < |r|
      ensures r[i] == t[i]
    {
      if i < |a| {
        assert (a + b)[i] == a[i];
      } else {
        assert (a + b)[i] == b[i - |a|];
      }
    }
    assert r == t;
    ConcatAppend(Renders(a), Renders(b));
  }

  lemma RenderAllLast(ss: seq<Stmt>)
    requires |ss| > 0
    ensures var t := RenderAll(ss); var l := Render(ss[|ss| - 1]); |t| >= |l| && t[|t| - |l|..] == l
  {
    ConcatEndsWithLast(Renders(ss));
  }

  /**
   * `applyChange(const OsmWay &)` as written: the way format has eleven
   * directives and is fed ten arguments, so `str()` raises `too_few_args`.
   */
  function ApplyChangeWayAsWritten(esc: string -> string, now: string, way: OsmWay): (r: Result<string, FormatError>)
    requires |way.refs| > 0
    ensures !(way.Closed() && IsUpsert(way.action)) ==> r == Success(ApplyChangeWay(esc, now, way))
  {
    if way.Closed() && IsUpsert(way.action) then
      var args := WayArgs(way.id, TagsText(esc, way.tags), RefsText(way.refs), now, way.version);
      match Format(WayTemplateAsWritten, args)
      case Failure(e) => Failure(e)
      case Success(body) =>
        Success(WayPrefix + body + RenderAll(RawRefRows(way.refs, way.id)))
    else
      Success(ApplyChangeWay(esc, now, way))
  }

  /** Every closed way created or modified makes the as-written builder throw; the corrected one yields text. */
  lemma WayFormatTooFewArgs(esc: string -> string, now: string, way: OsmWay)
    requires |way.refs| > 0 && way.Closed() && IsUpsert(way.action)
    ensures ApplyChangeWayAsWritten(esc, now, way) == Failure(TooFewArgs(10, 11))
    ensures Format(WayTemplate, WayArgs(way.id, TagsText(esc, way.tags), RefsText(way.refs), now, way.version)).Success?
  {
  }

  /** A concrete closed triangle shows the throw. */
  lemma WayFormatCounterexample()
    ensures ApplyChangeWayAsWritten(s => s, "2023-Jan-01 00:00:00", OsmWay(7, Create, 1, [], [1, 2, 3, 1])).Failure?
  {
    WayFormatTooFewArgs(s => s, "2023-Jan-01 00:00:00", OsmWay(7, Create, 1, [], [1, 2, 3, 1]));
  }

  // ---------------------------------------------------------------------
  // The tables

  datatype NodeRow = NodeRow(geometry: string, tags: string, timestamp: string, version: int)
  datatype PolyRow = PolyRow(tags: string, refs: string, timestamp: string, version: int)
  datatype Db = Db(rawNode: map<int, NodeRow>, rawPoly: map<int, PolyRow>, rawRefs: set<(int, int)>)

  /** What each statement does to the tables, read as PostgreSQL executes it. */
  function Exec(db: Db, s: Stmt): Db {
    match s
    case UpsertNode(id, geometry, tags, timestamp, version) =>
      if id !in db.rawNode || db.rawNode[id].version < version
      then db.(rawNode := db.rawNode[id := NodeRow(geometry, tags, timestamp, version)])
      else db
    case DeleteNode(id) => db.(rawNode := db.rawNode - {id})
    case UpsertWay(id, tags, refs, timestamp, version) =>
      if id !in db.rawPoly || db.rawPoly[id].version < version
      then db.(rawPoly := db.rawPoly[id := PolyRow(tags, refs, timestamp, version)])
      else db
    case InsertRawRef(node, way) => db.(rawRefs := db.rawRefs + {(node, way)})
    case DeleteWay(id) => db.(rawPoly := db.rawPoly - {id})
    case DeleteRawRefs(way) => db.(rawRefs := set p | p in db.rawRefs && p.1 != way)
  }

  function ExecAll(db: Db, ss: seq<Stmt>): Db
    decreases |ss|
  {
    if |ss| == 0 then db else ExecAll(Exec(db, ss[0]), ss[1..])
  }

  /** Two statements run one after the other. */
  lemma ExecTwo(db: Db, a: Stmt, b: Stmt)
    ensures ExecAll(db, [a, b]) == Exec(Exec(db, a), b)
  {
    assert [a, b][1..] == [b];
    assert [b][1..] == [];
    assert ExecAll(db, [a, b]) == ExecAll(Exec(db, a), [b]);
    assert ExecAll(Exec(db, a), [b]) == ExecAll(Exec(Exec(db, a), b), []);
  }

  /**
   * A node upsert inserts a missing row, replaces a row with an older
   * version and leaves a row with the same or a newer version alone;
   * nothing else changes.
   */
  lemma NodeUpsertGate(esc: string -> string, now: string, node: OsmNode, db: Db)
    requires IsUpsert(node.action)
    ensures var after := ExecAll(db, NodeChange(esc, now, node));
      && node.id in after.rawNode
      && after.rawNode - {node.id} == db.rawNode - {node.id}
      && after.rawPoly == db.rawPoly && after.rawRefs == db.rawRefs
      && (node.id !in db.rawNode || db.rawNode[node.id].version < node.version ==>
            after.rawNode[node.id] == NodeRow(node.geometry, TagsText(esc, node.tags), now, node.version))
      && (node.id in db.rawNode && db.rawNode[node.id].version >= node.version ==>
            after.rawNode[node.id] == db.rawNode[node.id])
  {
    var ss := NodeChange(esc, now, node);
    assert ExecAll(db, ss) == Exec(db, ss[0]);
  }

  /** No statement other than a delete lowers or removes a stored version. */
  lemma VersionsNeverDecrease(db: Db, s: Stmt)
    requires !s.DeleteNode? && !s.DeleteWay?
    ensures forall k :: k in db.rawNode ==> k in Exec(db, s).rawNode && Exec(db, s).rawNode[k].version >= db.rawNode[k].version
    ensures forall k :: k in db.rawPoly ==> k in Exec(db, s).rawPoly && Exec(db, s).rawPoly[k].version >= db.rawPoly[k].version
  {
  }

  /** The membership rows add exactly one (ref, way) pair per distinct ref. */
  lemma {:induction false} RawRefRowsAdd(db: Db, refs: seq<int>, way: int)
    ensures ExecAll(db, RawRefRows(refs, way)) == db.(rawRefs := db.rawRefs + (set r | r in refs :: (r, way)))
    decreases |refs|
  {
    var rows := RawRefRows(refs, way);
    if |refs| == 0 {
      assert (set r | r in refs :: (r, way)) == {};
    } else {
      var next := Exec(db, rows[0]);
      assert rows[1..] == RawRefRows(refs[1..], way);
      RawRefRowsAdd(next, refs[1..], way);
      assert (set r | r in refs :: (r, way)) == {(refs[0], way)} + (set r | r in refs[1..] :: (r, way)) by {
        assert forall r :: r in refs <==> r == refs[0] || r in refs[1..];
      }
    }
  }

  /**
   * A closed way created or modified goes through the version gate into
   * `raw_poly` and adds one `rawrefs` row per ref. A one-ref way counts as
   * closed too; in a longer ring the repeated closing ref adds nothing
   * beyond the open ring's rows.
   */
  lemma WayUpsertRows(esc: string -> string, now: string, way: OsmWay, db: Db)
    requires |way.refs| > 0 && way.Closed() && IsUpsert(way.action)
    ensures var after := ExecAll(db, WayChange(esc, now, way));
      && after.rawRefs == db.rawRefs + (set r | r in way.refs :: (r, way.id))
      && (|way.refs| > 1 ==> after.rawRefs == db.rawRefs + (set r | r in way.refs[..|way.refs| - 1] :: (r, way.id)))
      && after.rawNode == db.rawNode
      && way.id in after.rawPoly
      && after.rawPoly - {way.id} == db.rawPoly - {way.id}
      && (way.id !in db.rawPoly || db.rawPoly[way.id].version < way.version ==>
            after.rawPoly[way.id] == PolyRow(TagsText(esc, way.tags), RefsText(way.refs), now, way.version))
      && (way.id in db.rawPoly && db.rawPoly[way.id].version >= way.version ==>
            after.rawPoly[way.id] == db.rawPoly[way.id])
  {
    var up := UpsertWay(way.id, TagsText(esc, way.tags), RefsText(way.refs), now, way.version);
    var refs := set r | r in way.refs :: (r, way.id);
    WayUpsertSteps(esc, now, way, db, up, refs);
    UpsertWayGate(db, way.id, TagsText(esc, way.tags), RefsText(way.refs), now, way.version);
    if |way.refs| > 1 {
      ClosingRefAddsNothing(way.refs, way.id);
    }
  }

  /** The way upsert alone: gated by version, touching only its own row of `raw_poly`. */
  lemma UpsertWayGate(db: Db, id: int, tags: string, refs: string, now: string, version: int)
    ensures var after := Exec(db, UpsertWay(id, tags, refs, now, version));
      && after.rawRefs == db.rawRefs && after.rawNode == db.rawNode
      && id in after.rawPoly
      && after.rawPoly - {id} == db.rawPoly - {id}
      && (id !in db.rawPoly || db.rawPoly[id].version < version ==> after.rawPoly[id] == PolyRow(tags, refs, now, version))
      && (id in db.rawPoly && db.rawPoly[id].version >= version ==> after.rawPoly[id] == db.rawPoly[id])
  {
  }

  /** A closed way's statements: the gated upsert, then the membership rows. */
  lemma WayUpsertSteps(esc: string -> string, now: string, way: OsmWay, db: Db, up: Stmt, refs: set<(int, int)>)
    requires |way.refs| > 0 && way.Closed() && IsUpsert(way.action)
    requires up == UpsertWay(way.id, TagsText(esc, way.tags), RefsText(way.refs), now, way.version)
    requires refs == set r | r in way.refs :: (r, way.id)
    ensures ExecAll(db, WayChange(esc, now, way)) == Exec(db, up).(rawRefs := Exec(db, up).rawRefs + refs)
  {
    var ss := WayChange(esc, now, way);
    var rows := RawRefRows(way.refs, way.id);
    var up := UpsertWay(way.id, TagsText(esc, way.tags), RefsText(way.refs), now, way.version);
    assert ss == [up] + rows;
    assert ss[0] == up && ss[1..] == rows;
    var mid := Exec(db, up);
    assert ExecAll(db, ss) == ExecAll(mid, rows);
    RawRefRowsAdd(mid, way.refs, way.id);
  }

  /** The closing ref of a ring is already among the others. */
  lemma ClosingRefAddsNothing(refs: seq<int>, way: int)
    requires |refs| > 1 && refs[0] == refs[|refs| - 1]
    ensures (set r | r in refs :: (r, way)) == (set r | r in refs[..|refs| - 1] :: (r, way))
  {
    forall r | r in refs
      ensures r in refs[..|refs| - 1]
    {
      var i :| 0 <= i < |refs| && refs[i] == r;
      if i == |refs| - 1 {
        assert refs[..|refs| - 1][0] == r;
      } else {
        assert refs[..|refs| - 1][i] == r;
      }
    }
    assert forall r :: r in refs[..|refs| - 1] ==> r in refs;
  }

  /**
   * Removing a way deletes its `raw_poly` row and every `rawrefs` row that
   * names it, whatever its refs; other rows stay; doing it twice is the
   * same as doing it once.
   */
  lemma WayRemoveClears(esc: string -> string, now: string, way: OsmWay, db: Db)
    requires |way.refs| > 0 && way.action == Remove
    ensures var after := ExecAll(db, WayChange(esc, now, way));
      && way.id !in after.rawPoly
      && after.rawPoly == db.rawPoly - {way.id}
      && (forall p :: p in after.rawRefs <==> p in db.rawRefs && p.1 != way.id)
      && after.rawNode == db.rawNode
      && ExecAll(after, WayChange(esc, now, way)) == after
  {
    var ss := WayChange(esc, now, way);
    assert ss == [DeleteWay(way.id), DeleteRawRefs(way.id)];
    ExecTwo(db, ss[0], ss[1]);
    var after := ExecAll(db, ss);
    ExecTwo(after, ss[0], ss[1]);
    var again := ExecAll(after, ss);
    assert again.rawPoly == after.rawPoly;
    assert again.rawRefs == after.rawRefs;
  }

  /** An open way created or modified touches nothing. */
  lemma OpenWayIgnored(esc: string -> string, now: string, way: OsmWay, db: Db)
    requires |way.refs| > 0 && !way.Closed() && IsUpsert(way.action)
    ensures ApplyChangeWay(esc, now, way) == ""
    ensures ExecAll(db, WayChange(esc, now, way)) == db
  {
  }

  // ---------------------------------------------------------------------
  // arrayStrToVector

  /** Every token reads as an integer. */
  predicate AllIntegers(tokens: seq<string>) {
    forall i :: 0 <= i < |tokens| ==> ParseInt(tokens[i]).Some?
  }

  /** `std::stod` on every token, modelled as a strict integer parse; any failure aborts. */
  function ParseAll(tokens: seq<string>): (r: Option<seq<int>>)
    ensures r.Some? ==> |r.value| == |tokens| && forall i :: 0 <= i < |tokens| ==> ParseInt(tokens[i]) == Some(r.value[i])
    ensures r.None? <==> exists i :: 0 <= i < |tokens| && ParseInt(tokens[i]).None?
    ensures r.Some? <==> AllIntegers(tokens)
    decreases |tokens|
  {
    if |tokens| == 0 then Some([])
    else
      match ParseInt(tokens[0])
      case None => None
      case Some(x) =>
        match ParseAll(tokens[1..])
        case None =>
          var i :| 0 <= i < |tokens[1..]| && ParseInt(tokens[1..][i]).None?;
          assert ParseInt(tokens[i + 1]).None?;
          None
        case Some(xs) =>
          assert forall i :: 1 <= i < |tokens| ==> tokens[i] == tokens[1..][i - 1];
          Some([x] + xs)
  }

  /**
   * `arrayStrToVector`: drop the first and last characters (the braces),
   * split on commas, parse each token. A text shorter than two characters
   * makes the second `erase` throw.
   */
  function ArrayStrToVector(s: string): (r: Option<seq<int>>)
    ensures |s| < 2 ==> r.None?
    ensures |s| >= 2 ==> (r.Some? <==> AllIntegers(GetlineSplit(s[1..|s| - 1], ',')))
    ensures r.Some? ==> var tokens := GetlineSplit(s[1..|s| - 1], ',');
      |r.value| == |tokens| && forall i :: 0 <= i < |tokens| ==> ParseInt(tokens[i]) == Some(r.value[i])
  {
    if |s| < 2 then None else ParseAll(GetlineSplit(s[1..|s| - 1], ','))
  }

  /** Each rendered integer parses back to itself. */
  lemma ParseDecimals(xs: seq<int>)
    ensures ParseAll(Decimals(xs)) == Some(xs)
  {
    var ds := Decimals(xs);
    forall i | 0 <= i < |ds|
      ensures ParseInt(ds[i]) == Some(xs[i])
    {
      IntToStringRoundTrip(xs[i]);
    }
    assert !exists i :: 0 <= i < |ds| && ParseInt(ds[i]).None?;
    var r := ParseAll(ds);
    assert forall i :: 0 <= i < |xs| ==> r.value[i] == xs[i];
    assert r.value == xs;
  }

  /** Postgres's text of an integer array parses back to that array, the empty one included. */
  lemma ArrayStrRoundTrip(xs: seq<int>)
    ensures ArrayStrToVector("{" + Join(Decimals(xs), ",") + "}") == Some(xs)
  {
    var ds := Decimals(xs);
    var s := "{" + Join(ds, ",") + "}";
    assert s[1..|s| - 1] == Join(ds, ",");
    SplitJoin(ds, ',');
    ParseDecimals(xs);
  }

  /** The refs column the way upsert writes reads back, bracket for brace, as the same refs. */
  lemma RefsTextParsesBack(refs: seq<int>)
    requires |refs| > 0
    ensures |RefsText(refs)| > 5
    ensures ArrayStrToVector(RefsText(refs)[5..]) == Some(refs)
  {
    var j := Join(Decimals(refs), ",");
    var t := RefsText(refs);
    var u := t[5..];
    assert u == "[" + j + "]";
    assert u[1..|u| - 1] == j;
    SplitJoin(Decimals(refs), ',');
    ParseDecimals(refs);
  }

  // ---------------------------------------------------------------------
  // getNodeCache

  /** A change of the change file: its ways. */
  datatype Change = Change(ways: seq<OsmWay>)

  datatype Point = Point(lat: real, lon: real)

  /** Every way ref of every change, in file order. */
  function AllRefs(changes: seq<Change>): seq<int>
    decreases |changes|
  {
    if |changes| == 0 then [] else WayRefs(changes[0].ways) + AllRefs(changes[1..])
  }

  function WayRefs(ways: seq<OsmWay>): seq<int>
    decreases |ways|
  {
    if |ways| == 0 then [] else ways[0].refs + WayRefs(ways[1..])
  }

  /** The refs the cache lacks, in the order they are met. */
  function Missing(refs: seq<int>, cache: map<int, Point>): (ms: seq<int>)
    ensures forall r :: r in ms <==> r in refs && r !in cache
    ensures |ms| <= |refs|
    decreases |refs|
  {
    if |refs| == 0 then []
    else
      var rest := Missing(refs[1..], cache);
      assert forall r :: r in refs <==> r == refs[0] || r in refs[1..];
      if refs[0] in cache then rest else [refs[0]] + rest
  }

  /** An uncached ref is collected once for each time it occurs, a cached one never. */
  lemma {:induction false} MissingCounts(refs: seq<int>, cache: map<int, Point>)
    ensures forall r :: multiset(Missing(refs, cache))[r] == if r in cache then 0 else multiset(refs)[r]
    decreases |refs|
  {
    if |refs| > 0 {
      MissingCounts(refs[1..], cache);
      assert refs == [refs[0]] + refs[1..];
      assert multiset(refs) == multiset{refs[0]} + multiset(refs[1..]);
      if refs[0] !in cache {
        var rest := Missing(refs[1..], cache);
        assert multiset([refs[0]] + rest) == multiset{refs[0]} + multiset(rest);
      }
    }
  }

  /** One ref is collected exactly when the cache lacks it. */
  lemma MissingOne(r: int, cache: map<int, Point>)
    ensures Missing([r], cache) == if r in cache then [] else [r]
  {
    assert [r][1..] == [];
  }

  /** Missing refs of a concatenation are the missing refs of each part. */
  lemma {:induction false} MissingAppend(a: seq<int>, b: seq<int>, cache: map<int, Point>)
    ensures Missing(a + b, cache) == Missing(a, cache) + Missing(b, cache)
    decreases |a|
  {
    if |a| == 0 {
      assert a + b == b;
    } else {
      assert (a + b)[1..] == a[1..] + b;
      MissingAppend(a[1..], b, cache);
    }
  }

  /** The id list the source accumulates: one entry per uncached ref, in order. */
  function MissingRefs(changes: seq<Change>, cache: map<int, Point>): (ms: seq<int>)
    ensures forall r :: r in ms <==> r in AllRefs(changes) && r !in cache
  {
    Missing(AllRefs(changes), cache)
  }

  function NodeQuery(ids: string): string {
    "SELECT osm_id, st_x(geometry) as lat, st_y(geometry) as lon FROM raw_node where  osm_id in ("
      + ids + ") and st_x(geometry) is not null and st_y(geometry) is not null;"
  }

  /**
   * The node query, issued only when the accumulated text is longer than
   * one character, which is exactly when some ref is missing.
   */
  function NodeCacheQuery(changes: seq<Change>, cache: map<int, Point>): (q: Option<string>)
    ensures q.None? <==> |MissingRefs(changes, cache)| == 0
    ensures q.Some? ==> q.value == NodeQuery(Join(Decimals(MissingRefs(changes, cache)), ","))
  {
    var ids := Decimals(MissingRefs(changes, cache));
    var text := Terminated(ids, ",");
    IdListText(MissingRefs(changes, cache));
    if |text| > 1 then
      Some(NodeQuery(text[..|text| - 1]))
    else None
  }

  /** The accumulated id text is longer than one character exactly when there is an id. */
  lemma IdListText(xs: seq<int>)
    ensures var t := Terminated(Decimals(xs), ",");
      && (|t| > 1 <==> |xs| > 0)
      && (|xs| > 0 ==> t[..|t| - 1] == Join(Decimals(xs), ","))
  {
    var ds := Decimals(xs);
    if |xs| > 0 {
      TrimmedTerminatedIsJoin(ds, ",");
      assert Terminated(ds, ",") == ds[0] + "," + Terminated(ds[1..], ",");
    }
  }

  /** The result rows written into the cache one after another; a later row for the same id wins. */
  function FillCache(cache: map<int, Point>, rows: seq<(int, Point)>): (c: map<int, Point>)
    ensures forall k :: k in c <==> k in cache || exists i :: 0 <= i < |rows| && rows[i].0 == k
    ensures forall k :: k in cache && (forall i :: 0 <= i < |rows| ==> rows[i].0 != k) ==> c[k] == cache[k]
    ensures |rows| > 0 ==> rows[|rows| - 1].0 in c && c[rows[|rows| - 1].0] == rows[|rows| - 1].1
    decreases |rows|
  {
    if |rows| == 0 then cache
    else
      var last := rows[|rows| - 1];
      var c := FillCache(cache, rows[..|rows| - 1])[last.0 := last.1];
      assert forall i :: 0 <= i < |rows| - 1 ==> rows[..|rows| - 1][i] == rows[i];
      c
  }

  /**
   * `getNodeCache`: ask the database (`query`) for the missing refs and
   * write what it returns into the cache. Entries are only added or
   * overwritten; with nothing missing the cache is returned unchanged.
   */
  function GetNodeCache(changes: seq<Change>, cache: map<int, Point>, query: string -> seq<(int, Point)>): (c: map<int, Point>)
    ensures |MissingRefs(changes, cache)| == 0 ==> c == cache
    ensures cache.Keys <= c.Keys
    ensures NodeCacheQuery(changes, cache).Some? ==>
      var rows := query(NodeCacheQuery(changes, cache).value);
      forall k :: k in c <==> k in cache || exists i :: 0 <= i < |rows| && rows[i].0 == k
    ensures NodeCacheQuery(changes, cache).Some? ==>
      var rows := query(NodeCacheQuery(changes, cache).value);
      forall k :: k in cache && (forall i :: 0 <= i < |rows| ==> rows[i].0 != k) ==> c[k] == cache[k]
  {
    match NodeCacheQuery(changes, cache)
    case None => cache
    case Some(q) => FillCache(cache, query(q))
  }
}
