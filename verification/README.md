# Underpass core, modelled in Dafny

Underpass keeps a PostgreSQL copy of OpenStreetMap data current: it follows
the planet server's replication files and turns each change into SQL. This
project models the sequential, deterministic core of that work as pure
Dafny functions over strings, sequences, maps and a tree, and proves what
each piece promises:

- **the nested configuration tree** (`Yaml`): the node tree the YAML
  reader builds and its searches `get`, `get_value`,
  `get_values`, `contains_key` and `contains_value`, on a node and on the
  document root;
- **the tag classification rules** (`StatsConfig`): `read_yaml` turning the
  tree into ordered categories of per-kind key → value-set maps, and
  `searchCategory` / `search` classifying a tag by first match, with the
  `*` wildcards and the two template category names;
- **replication path interpolation** (`PlanetReplicator`):
  `findRemotePath`, which builds a sequence → time index, brackets the start
  time, interpolates a sequence number, and spells it as an `AAA/BBB/CCC`
  path inside the replication URL;
- **the raw-table upserts** (`QueryRaw`): `applyChange` for nodes and ways,
  with its version gate, ring gate and membership rows. Also the Postgres
  array parser `arrayStrToVector` and the id collection of `getNodeCache`.
  The statements are abstract (`Stmt`); they are rendered to SQL text and
  given a meaning on a table state (`Exec`);
- **the changeset upserts** (`QueryStats`): `applyChange` for change-file
  statistics (hstore maps of counts) and for changeset metadata (hashtags,
  source, the `closed_at` fallback, the bounding-box fudge and its
  five-vertex ring);
- **the replicator's start-up decisions** (`Replicator`): `matchUrl`, the
  frequency chosen by the first letter of `--frequency`, the frequency tags,
  the data directory and the monitor-mode argument check.

Two helper modules support them. `Text` holds joining, `std::getline`
splitting, decimal rendering and parsing, `%03d`, string ordering and
`replace_all`. `BoostFormat` models `boost::format` filling a template,
including its too-few and too-many argument errors. `Wrappers` holds
`Option` and `Result`.

Collaborators the model cannot see are parameters:

- `escapedString` is `esc`;
- `to_simple_string` is `show`, and `std::to_string` on doubles is `showReal`;
- the clock is `now`;
- `stoi` and `time_from_string` are `parseSeq` and `parseTime`;
- `StateFile::freq_to_string` is `freqName`;
- the node query's result rows are `query`.

Times are integer seconds. Coordinates and interpolation arithmetic are
`real`.

Each string builder is written the way the source accumulates its text.
Appends become a list of pieces; a loop that appends every part with a
trailing separator and then erases the last one becomes `Terminated`
followed by `DropLast`. Each builder is proved equal to a reference built
from plain lists joined by their separator (`Join`). The proofs that connect
the two are generic lemmas of `Text`.

## Model

| member | source | states |
|---|---|---|
| Yaml.Get | src/utils/yaml.hh:52-57 | `get` finds a descendant whose value is the key (the first in pre-order, a choice of the model); it finds nothing exactly when no descendant carries the key |
| Yaml.GetIn | src/utils/yaml.hh:91 | the recursive walk over a forest equals the first match of the pre-order flattening |
| Yaml.FirstOfAppend | src/utils/yaml.hh:52-57 | the first match in a concatenation is the first match in the front part, or else in the back part |
| Yaml.GetValue | src/utils/yaml.hh:58-63 | `get_value` is the value of the first child of the node `get` finds: that node's sole child when it has one; absent when there is no such node or it has no children |
| Yaml.GetValues | src/utils/yaml.hh:64-69 | `get_values` lists exactly the values of the found node's children, one per child and in order; absent exactly when the key is nowhere |
| Yaml.ContainsKey | src/utils/yaml.hh:70-75 | `contains_key` holds iff some descendant carries the key |
| Yaml.ContainsKeyIn | src/utils/yaml.hh:92 | the recursive walk decides membership of the key in the flattened forest |
| Yaml.ContainsValue | src/utils/yaml.hh:76-83 | `contains_value` holds iff some descendant carrying the key has a child carrying the value |
| Yaml.ContainsValueIn | src/utils/yaml.hh:93 | the recursive walk decides the key:value pair over the flattened forest |
| Yaml.ContainsKeyIffGet | src/utils/yaml.hh:52-75 | `contains_key` holds exactly when `get` finds a node |
| Yaml.ContainsValueImpliesKey | src/utils/yaml.hh:70-83 | a contained key:value pair implies the key is contained |
| Yaml.DocGet | src/utils/yaml.hh:107-112 | the document's `get` is the root node's `get` |
| Yaml.DocContainsKey | src/utils/yaml.hh:117-122 | the document's `contains_key` searches the descendants of the root |
| Yaml.DocContainsValue | src/utils/yaml.hh:123-130 | the document's `contains_value` searches the descendants of the root |
| StatsConfig.Insert | src/stats/statsconfig.cc:85 | `map[key].insert(x)` adds exactly the pair (key, x) and keeps every set non-empty |
| StatsConfig.AddTags | src/stats/statsconfig.cc:83-91 | a key child's tags are all added under the key; with no tags the key is not created |
| StatsConfig.AddKeyChild | src/stats/statsconfig.cc:81-100 | one key child adds exactly what it gives: its tags under its name, or `*` under `*` |
| StatsConfig.AddKeyChildren | src/stats/statsconfig.cc:81-101 | the key children of a type child together add exactly what some key child gives |
| StatsConfig.AddTypeChild | src/stats/statsconfig.cc:80-102 | a type child changes only the map of its own kind (way, node or relation), and only by what its key children give; other type names change nothing |
| StatsConfig.AddTypeChildren | src/stats/statsconfig.cc:80-102 | all type children of a category contribute exactly the union of their contributions |
| StatsConfig.CategoryOf | src/stats/statsconfig.cc:77-105 | a category is named by its node, every rule set is non-empty, and an entry is present iff some type child contributes it |
| StatsConfig.ReadYaml | src/stats/statsconfig.cc:75-106 | one category per root child, in root-child order, named by that child, with exactly the contributed entries |
| StatsConfig.KeyChildEntries | src/stats/statsconfig.cc:82-99 | a non-`*` key child without children adds nothing; a `*` key child adds only `*` under `*` |
| StatsConfig.SearchCategory | src/stats/statsconfig.cc:116-129 | a rule map matches iff some key is `*`, or the tag is a key whose set's least element is `*` or whose set holds the value |
| StatsConfig.StarHonouredOnlyWhenLeast | src/stats/statsconfig.cc:120 | a value set holding `*` matches any value when `*` is its least string, and does not when a string such as `!` sorts before it |
| StatsConfig.Search | src/stats/statsconfig.cc:131-152 | the result is the label of the first matching category in list order, or "" when none matches |
| StatsConfig.SearchIgnoresLaterCategories | src/stats/statsconfig.cc:134-149 | categories after a matching one never change the result |
| StatsConfig.FirstCategoryWins | src/stats/statsconfig.cc:142-149 | for a tag two categories both match, the earlier category's name is returned |
| StatsConfig.TemplateLabels | src/stats/statsconfig.cc:143-148 | a category named `"[key]"` yields the tag, `"[key:value]"` yields tag:value, any other name yields itself |
| StatsConfig.ReadYamlSearchable | src/stats/statsconfig.cc:116-121 | every category built from a tree can be searched: the set the search reads first is never empty |
| PlanetReplicator.SectionAndSuffix | src/replicator/planetreplicator.cc:117-121 | the index section is `minute` for minutely and `changeset` for every other frequency; the suffix is `.osc.gz` only for minutely |
| PlanetReplicator.InsertEntry | src/replicator/planetreplicator.cc:123-128 | `std::map::insert` keeps the index sorted by sequence and ignores a sequence number already present |
| PlanetReplicator.InsertAll | src/replicator/planetreplicator.cc:122-129 | inserting all entries yields a sorted index holding exactly the first entry for each sequence number |
| PlanetReplicator.BuildIndex | src/replicator/planetreplicator.cc:113-129 | the index is strictly ordered by sequence number and holds exactly the first occurrence of each |
| PlanetReplicator.FirstAfter | src/replicator/planetreplicator.cc:134-140 | the scan stops at the first entry later than the start; every earlier entry is at or before it; it runs off the end exactly when none is later |
| PlanetReplicator.Bracket | src/replicator/planetreplicator.cc:142-150 | the bracket is (previous, next), or (second-to-last, previous) when next is earlier than previous |
| PlanetReplicator.NoFallbackAfterScan | src/replicator/planetreplicator.cc:134-150 | on a sorted index the fallback never fires: the bracket is (previous, next), and the start lies in [previous time, next time) |
| PlanetReplicator.Trunc | src/replicator/planetreplicator.cc:155 | the conversion to `int` truncates toward zero |
| PlanetReplicator.InterpolateAtPrev | src/replicator/planetreplicator.cc:152-155 | a start equal to the previous entry's time gives the previous sequence number |
| PlanetReplicator.InterpolateBounds | src/replicator/planetreplicator.cc:152-155 | the target stays in [previous, next) and equals the integer interpolation prev + (elapsed * seq span) / time span |
| PlanetReplicator.Split | src/replicator/planetreplicator.cc:157-163 | the three groups are millions, thousands and units, the last two below 1000, recombining to the target |
| PlanetReplicator.SplitAsWrittenIsDivMod | src/replicator/planetreplicator.cc:157-163 | the source's floor-and-subtract arithmetic over reals gives exactly integer division and remainder |
| PlanetReplicator.PathSpellsSequence | src/replicator/planetreplicator.cc:165-173 | for a nine-digit target the path is three 3-digit groups whose digits spell the target |
| PlanetReplicator.Target | src/replicator/planetreplicator.cc:134-155 | the interpolated target lies between the bracketing sequence numbers |
| PlanetReplicator.Locate | src/replicator/planetreplicator.cc:157-188 | the URL is `https://` + server + `/` + datadir + frequency + `/` + path + suffix, and the groups recombine to the target |
| PlanetReplicator.Resolve | src/replicator/planetreplicator.cc:134-188 | where the scan stops, the start lies between the previous entry's time and the next one's, the target between their sequence numbers, and the URL spells the target's three groups |
| PlanetReplicator.FindRemotePath | src/replicator/planetreplicator.cc:102-195 | `findRemotePath` yields a URL of that shape whose groups recombine to the target, resolved on the configured index at the first entry after the start |
| PlanetReplicator.HalfwayExample | src/replicator/planetreplicator.cc:152-173 | half way through a 1000000-sequence span lands on 500000, path `000/500/000` |
| BoostFormat.Format | src/raw/queryraw.cc:70-113 | filling succeeds exactly when the arguments match the directives; extra arguments and missing ones are the two errors |
| BoostFormat.FillLength | src/raw/queryraw.cc:70-113 | the filled text is as long as all literals and arguments together |
| BoostFormat.FormatTail | src/raw/queryraw.cc:113 | a filled template, appended to a prefix, keeps the prefix and ends with the last argument between the last two literals |
| QueryRaw.TagsText | src/raw/queryraw.cc:85-98 | tags are `null` when there are none, otherwise the escaped `"k" => "v"` pairs joined by commas, quoted |
| QueryRaw.TagsTextNoTrailingComma | src/raw/queryraw.cc:139-152 | a non-empty tag text ends with the closing quote of the last value, not a comma |
| QueryRaw.RefsText | src/raw/queryraw.cc:156-165 | refs are `null` when there are none, otherwise `ARRAY[` + the refs in order joined by commas + `]` |
| QueryRaw.NodeUpsertText | src/raw/queryraw.cc:69-113 | the node upsert starts with the insert prefix and ends with the version gate |
| QueryRaw.WayUpsertText | src/raw/queryraw.cc:131-180 | the way upsert starts with the insert prefix and ends with the version gate |
| QueryRaw.ApplyChangeNode | src/raw/queryraw.cc:61-120 | a node change is empty exactly for no action; a remove deletes the row; a create or modify is the gated upsert |
| QueryRaw.ApplyChangeWay | src/raw/queryraw.cc:122-193 | a way change is non-empty exactly for a closed create/modify or a remove; the upsert is followed by the membership rows, the last ref's last; a remove deletes the way and its memberships |
| QueryRaw.ClosedWayText | src/raw/queryraw.cc:130-185 | a closed way's text is the upsert followed by one membership insert per ref |
| QueryRaw.RemovedWayText | src/raw/queryraw.cc:187-190 | a removed way's text deletes the `raw_poly` row, then its `rawrefs` rows |
| QueryRaw.RenderAllAppend | src/raw/queryraw.cc:183-185 | rendering a statement list is rendering its halves one after another |
| QueryRaw.NodeUpsertGate | src/raw/queryraw.cc:70-72 | after a node upsert the row exists, is replaced only when the stored version is older, and is otherwise unchanged |
| QueryRaw.UpsertWayGate | src/raw/queryraw.cc:131-133 | a way upsert leaves every other table and every other way's row alone, and replaces its own row only over an older stored version |
| QueryRaw.VersionsNeverDecrease | src/raw/queryraw.cc:70-72 | no insert or upsert lowers a stored version |
| QueryRaw.RawRefRowsAdd | src/raw/queryraw.cc:183-185 | the membership inserts add exactly one (ref, way) pair per distinct ref, conflicts ignored |
| QueryRaw.WayUpsertRows | src/raw/queryraw.cc:130-185 | after a closed way's statements, a one-ref way included, the way row is gated by version and the memberships hold exactly the way's refs |
| QueryRaw.ClosingRefAddsNothing | src/raw/queryraw.cc:183-185 | the repeated closing ref adds no membership the other refs do not |
| QueryRaw.WayRemoveClears | src/raw/queryraw.cc:187-190 | after a remove the way row and all its memberships are gone, other ways untouched, and removing again changes nothing |
| QueryRaw.OpenWayIgnored | src/raw/queryraw.cc:130 | an open way's create/modify produces no text and changes no table |
| QueryRaw.ApplyChangeWayAsWritten | src/raw/queryraw.cc:131-178 | with the source's way format, every change except a closed create/modify is as in the corrected model |
| QueryRaw.WayFormatTooFewArgs | src/raw/queryraw.cc:132-178 | the source's way format has eleven directives and is fed ten arguments, so every closed create/modify fails with too few arguments; the corrected format succeeds |
| QueryRaw.WayFormatCounterexample | src/raw/queryraw.cc:132-178 | a closed square way with refs 1,2,3,1 fails to format |
| QueryRaw.ParseAll | src/raw/queryraw.cc:201-203 | parsing tokens succeeds exactly when every token is an integer, and then yields them in order |
| QueryRaw.ArrayStrToVector | src/raw/queryraw.cc:195-205 | the text between the first and last characters succeeds exactly when every comma-separated token is an integer, and then yields one value per token in order; a text under two characters yields nothing |
| QueryRaw.ArrayStrRoundTrip | src/raw/queryraw.cc:195-205 | `{` + integers joined by commas + `}` parses back to exactly those integers, the empty list included |
| QueryRaw.RefsTextParsesBack | src/raw/queryraw.cc:156-205 | the ref text a way upsert writes, without its `ARRAY` word, parses back to the refs |
| QueryRaw.Missing | src/raw/queryraw.cc:266-271 | the collected ids are exactly the refs absent from the cache |
| QueryRaw.MissingCounts | src/raw/queryraw.cc:266-271 | an uncached ref is collected once per occurrence, so a closed way's first ref twice, and a cached ref never |
| QueryRaw.MissingOne | src/raw/queryraw.cc:268-270 | a single ref is collected iff the cache lacks it; with `MissingAppend` this fixes the collected list, order included, for every input |
| QueryRaw.MissingAppend | src/raw/queryraw.cc:264-277 | collecting over two ref lists in turn is collecting over each list and concatenating, in ref order |
| QueryRaw.MissingRefs | src/raw/queryraw.cc:264-277 | over all changes, an id is collected iff some way refers to it and the cache lacks it, once per occurrence |
| QueryRaw.NodeCacheQuery | src/raw/queryraw.cc:278-281 | no query is issued when nothing is missing; otherwise the query lists the missing ids joined by commas |
| QueryRaw.FillCache | src/raw/queryraw.cc:284-290 | filling only adds or overwrites the returned ids, every other entry is kept, and the last row's point is stored under its id |
| QueryRaw.GetNodeCache | src/raw/queryraw.cc:261-292 | `getNodeCache` leaves the cache alone when nothing is missing and otherwise only extends it with the query's rows |
| QueryStats.Positive | src/stats/querystats.cc:82 | exactly the entries with a positive count are kept |
| QueryStats.Hstore | src/stats/querystats.cc:79-101 | an empty map gives nothing; otherwise `HSTORE(ARRAY[` + the positive entries joined by commas + `])`, or the malformed `HSTORE(ARRAY])` when no count is positive |
| QueryStats.HstoreKeepsPositive | src/stats/querystats.cc:82-85 | every positive entry appears in the hstore entries |
| QueryStats.StatsColumnsMatchValues | src/stats/querystats.cc:104-146 | columns and values line up; `added`/`modified` are columns iff their maps are non-empty, and on conflict an empty map is set to `null` |
| QueryStats.StatsColumnsClause | src/stats/querystats.cc:106-115 | the column list is the fixed columns plus the present map columns, joined by `, ` with no trailing separator |
| QueryStats.StatsValuesClause | src/stats/querystats.cc:117-130 | the value list is the values in column order, joined by `, ` with no trailing separator |
| QueryStats.StatsUpdatesClause | src/stats/querystats.cc:132-144 | the conflict clause is the four assignments joined by `, ` with no trailing separator |
| QueryStats.ChangeStatsQuery | src/stats/querystats.cc:69-148 | the statistics upsert is the insert of the joined columns and values with the joined assignments on conflict |
| QueryStats.ClosedAtStored | src/stats/querystats.cc:172-176 | `closed_at` is stored as `created_at` when the close time is not-a-date-time |
| QueryStats.ClosedAtFallsBackToCreated | src/stats/querystats.cc:171-176 | without a close time the inserted `closed_at` repeats the `created_at` text |
| QueryStats.Quot | src/stats/querystats.cc:185-186 | no double quote survives the `&quot;` replacement, and a hashtag without one is unchanged |
| QueryStats.QuotByCharacter | src/stats/querystats.cc:185-186 | quoting a concatenation quotes each part; a `"` becomes `&quot;` and any other character stays, which fixes the result on every hashtag |
| QueryStats.QuotSplitsAtQuote | src/stats/querystats.cc:185-186 | each `"` is replaced in place by `&quot;`, with the text on either side quoted on its own |
| QueryStats.HashtagValue | src/stats/querystats.cc:182-191 | the hashtags value is `, ARRAY[` + the replaced, escaped hashtags joined by `, ` + `]` |
| QueryStats.HashtagUpdate | src/stats/querystats.cc:256-268 | on conflict the hashtags are set to an array of the replaced, escaped hashtags joined by `, `, or to `null` when there are none |
| QueryStats.AdjustBox | src/stats/querystats.cc:200-229 | the box is kept or shifted once (+fudge/2 latitude, −fudge/2 longitude), shifted iff south-west or degenerate, width and height unchanged |
| QueryStats.FudgeDoesNotWiden | src/stats/querystats.cc:214-221 | a box without width or height still has none after the fudge |
| QueryStats.AdjustNotIdempotent | src/stats/querystats.cc:214-221 | adjusting an adjusted degenerate box shifts it again |
| QueryStats.Ring | src/stats/querystats.cc:232-248 | the ring has five vertices, the last equal to the first, the first four the box's corners |
| QueryStats.RingCornersDistinct | src/stats/querystats.cc:233-248 | for a box with width and height the four corners are distinct |
| QueryStats.BboxText | src/stats/querystats.cc:232-249 | the appended bbox text is `, ` + the polygon with its five vertices joined by commas |
| QueryStats.SetColumnsMatchValues | src/stats/querystats.cc:157-196 | columns and values line up; hashtags and source are columns iff present, and the source goes in unescaped |
| QueryStats.SetColumnsClause | src/stats/querystats.cc:157-167 | the changeset column list is the fixed columns, the present optional ones and `bbox`, joined by `, ` |
| QueryStats.SetValuesClause | src/stats/querystats.cc:168-251 | the changeset values, cut at the commas between them, are the values in column order joined by `,` |
| QueryStats.SetConflictClause | src/stats/querystats.cc:252-270 | on conflict the editor, creation and update times and hashtags are reset, and the bbox is set to the same polygon text as the inserted geometry |
| QueryStats.ChangeSetQuery | src/stats/querystats.cc:151-274 | the changeset upsert is the insert of the joined columns and values, then that conflict clause |
| Replicator.Triples | replicator.cc:136-145 | every match is three digits, and there are at most a third as many matches as characters |
| Replicator.DigitRunTriples | replicator.cc:136-145 | a run of digits holds one match per three digits |
| Replicator.DigitRunThenBreak | replicator.cc:136-145 | a digit run ended by a non-digit contributes one match per three digits and no match spans the break |
| Replicator.MatchUrl | replicator.cc:135-164 | one match names a directory, two a subdirectory, three a file path, none or more than three the root |
| Replicator.ReplicationPathIsFile | replicator.cc:135-164 | every `AAA/BBB/CCC` path the planet replicator builds is classified as a file path |
| Replicator.ThreeGroupsIsFile | replicator.cc:135-164 | any three groups of three digits joined by slashes are classified as a file path |
| Replicator.NoDigitsIsRoot | replicator.cc:148-151 | a URL without digits is the root |
| Replicator.HelpExampleIsFile | replicator.cc:199 | the help text's example `000/075/000` is a file path |
| Replicator.FrequencyTagInjective | replicator.cc:312-316 | distinct frequencies have distinct tags |
| Replicator.ChooseFrequency | replicator.cc:268-278 | the first letter `m`, `h` or `d` selects minutely, hourly or daily; anything else, the empty string included, keeps minutely; the argument is kept as the URL's frequency name |
| Replicator.ChooseTagRoundTrip | replicator.cc:268-316 | passing a frequency's own tag selects it again, except the changeset tag, which selects minutely |
| Replicator.ChooseDatadir | replicator.cc:259-266 | the `DATADIR` environment variable wins over `--datadir`, which wins over the default |
| Replicator.FullUrl | replicator.cc:280 | the starting URL is the server, a slash, the data directory followed by the frequency name, a slash and the `--url` argument |
| Replicator.MonitorStart | replicator.cc:304-317 | monitor mode fails exactly when there is neither a timestamp nor a URL; otherwise it watches the frequency's tag directory |
| Replicator.MonitorNeedsAStart | replicator.cc:304-311 | with defaults and no timestamp, an empty URL is rejected and any other URL is accepted |
| Text.TrimmedTerminatedIsJoin | src/raw/queryraw.cc:93-94 | erasing the trailing separator of a terminated list leaves the joined list |
| Text.SplitJoin | src/raw/queryraw.cc:199-203 | `std::getline` splitting undoes joining, for non-empty parts without the delimiter |
| Text.IntToStringRoundTrip | src/raw/queryraw.cc:161 | a rendered integer parses back to itself |
| Text.Format03Small | src/replicator/planetreplicator.cc:165-171 | `%03d` of a number below 1000 is three digits denoting the number |
| Text.LessThanStar | src/stats/statsconfig.cc:120 | a string sorts before `*` exactly when it is empty or its first character is below `*` |
| Text.ReplaceAllCharLength | src/stats/querystats.cc:186 | each replaced character grows the text by the replacement's length less one |
| Text.ReplaceAllCharAppend | src/stats/querystats.cc:186 | replacing in a concatenation is replacing in each part |
| Text.ReplaceAllCharSingle | src/stats/querystats.cc:186 | a lone character becomes the replacement when it is the pattern and stays itself otherwise |

## Left out

- File and network I/O, the YAML text parser, database round-trips and connections: the inputs they produce are parameters (the tree, the query's rows).
- Clocks, `escapedString`, `to_simple_string`, `std::to_string` on doubles, WKT geometry text, `stoi`, `time_from_string` and `StateFile::freq_to_string`: parameters, uninterpreted.
- Floating point: the interpolation, the path split and the bbox fudge are computed over `real`; rounding of doubles is not modelled.
- QueryRaw.ArrayStrToVector: tokens are parsed as decimal integers rather than through `std::stod` to `long`, so any token other than an optional `-` followed by decimal digits is rejected, where `std::stod` would accept leading whitespace, `+`, hexadecimal, `inf`, fractions, exponents and trailing junk; an argument shorter than two characters yields no result, where the source's second erase would throw.
- `src/utils/yaml.cc`, which implements the tree searches, is not part of this model.
- Yaml.Get: the header documents only that `get` returns a node identified by a key and that `get_value` is meant for a node with one child. Three choices here are the model's own and are not settled by it: the first match in pre-order over the descendants wins, a missing key yields no node (the C++ returns a `Node`, not an option), and `get_value` takes the first child.
- The unused `applyChange(nodes map)` and the `getWays*` row readers in `src/raw/queryraw.cc`: not part of this core.
- The `osmtype_t` values other than node, way and relation in `search`: the source leaves the previous category flag in place for them; the model's `Kind` has only the three.
- The process-wide category cache of `read_yaml` and `search`'s use of its first entry: the category list is passed explicitly.
- `RemoteURL::parse` and `updatePath`, and `connectServer`, in `findRemotePath`: the model returns the URL text and the three groups.
- PlanetReplicator.FindRemotePath: requires the frequency's section to be present with a time under every entry, and some entry later than the start that is not the first; the source reads those values unchecked, dereferencing the end of the map or stepping before its beginning otherwise.
- QueryRaw.ApplyChangeWay: requires a non-empty ref list, because the source reads the first and last refs unguarded.
- Option parsing, logging, the `--timestamp` handling, the monitor threads and everything in `replicator.cc` after the monitor check: process bootstrap and concurrency.
- The hstore text for a non-empty map whose counts are all zero or negative is modelled as the source writes it (`HSTORE(ARRAY])`), not corrected.

Where the source's comments or names suggest other intent, the model follows the code:

- the bbox fudge moves a degenerate box instead of widening it;
- a `*` value acts as a wildcard only when it sorts first in its set;
- the out-of-order fallback in `findRemotePath` cannot fire on the sorted index the map yields.

## Findings

| source | as written | input that shows it | evidently intended | confidence | as-written member | corrected member |
|---|---|---|---|---|---|---|
| src/raw/queryraw.cc:132-178 | the way upsert format has eleven `%` directives, the conflict clause starting with `geometry = %s`, but only ten arguments are fed, so `fmt.str()` throws `too_few_args` | way 7, action create, version 1, no tags, refs 1,2,3,1 (any closed way being created or modified) | the conflict clause updates the ten fed values (tags, refs, timestamp, version, version gate) without a `geometry` directive, matching the insert's columns | medium; not executed | QueryRaw.WayFormatTooFewArgs | QueryRaw.ApplyChangeWay |
