/**
 * The tag-classification ruleset (`statsconfig::StatsConfig`): the
 * configuration tree read into an ordered list of categories, and the
 * first-match search that classifies a tag of a node, way or relation.
 *
 * The tree has one child per category; under it one child per OSM type
 * (`way`, `node`, `relation`); under that one child per tag key, or `*`;
 * under a key the accepted tag values.
 */
module StatsConfig {
  import opened Wrappers
  import opened Text
  import Yaml

  /** `osmchange::osmtype_t` values the search dispatches on. */
  datatype Kind = Node | Way | Relation

  /** Tag key to accepted values (`std::map<std::string, std::set<std::string>>`). */
  type RuleMap = map<string, set<string>>

  /** `StatsConfigCategory`: a name and one rule map per OSM type. */
  datatype Category = Category(name: string, way: RuleMap, node: RuleMap, relation: RuleMap) {
    function Rules(k: Kind): RuleMap {
      match k
      case Way => way
      case Node => node
      case Relation => relation
    }

    function WithRules(k: Kind, m: RuleMap): (c: Category)
      ensures c.Rules(k) == m && c.name == name
      ensures forall k' :: k' != k ==> c.Rules(k') == Rules(k')
    {
      match k
      case Way => this.(way := m)
      case Node => this.(node := m)
      case Relation => this.(relation := m)
    }
  }

  /** The type names the reader recognises. */
  function KindOf(typeName: string): Option<Kind> {
    if typeName == "way" then Some(Way)
    else if typeName == "node" then Some(Node)
    else if typeName == "relation" then Some(Relation)
    else None
  }

  // ---------------------------------------------------------------------
  // Reference description of what a tree contributes

  /** `x` is among the accepted values of `key` in `m`. */
  ghost predicate Has(m: RuleMap, key: string, x: string) {
    key in m && x in m[key]
  }

  /** Every key present has at least one accepted value. */
  ghost predicate NonEmptySets(m: RuleMap) {
    forall key :: key in m ==> m[key] != {}
  }

  /** Some child of `ns` carries `x`. */
  ghost predicate ValueAmong(ns: seq<Yaml.Node>, x: string) {
    exists l :: 0 <= l < |ns| && ns[l].value == x
  }

  /**
   * A key child `v` adds `x` to the values of `key`: `*` adds `*` under
   * `*`; any other key adds each of its children's values under itself.
   */
  ghost predicate KeyChildGives(v: Yaml.Node, key: string, x: string) {
    if v.value == "*" then key == "*" && x == "*" else key == v.value && ValueAmong(v.children, x)
  }

  ghost predicate SomeKeyChildGives(vs: seq<Yaml.Node>, key: string, x: string) {
    exists j :: 0 <= j < |vs| && KeyChildGives(vs[j], key, x)
  }

  /** A type child named after kind `k` has a key child adding `x` under `key`. */
  ghost predicate TypeChildGives(t: Yaml.Node, k: Kind, key: string, x: string) {
    KindOf(t.value) == Some(k) && SomeKeyChildGives(t.children, key, x)
  }

  ghost predicate Contributes(ts: seq<Yaml.Node>, k: Kind, key: string, x: string) {
    exists i :: 0 <= i < |ts| && TypeChildGives(ts[i], k, key, x)
  }

  // ---------------------------------------------------------------------
  // read_yaml, as the nested loops of the reader

  /** `m[key].insert(x)`: creates the entry when missing. */
  function Insert(m: RuleMap, key: string, x: string): (r: RuleMap)
    ensures forall k', y :: Has(r, k', y) <==> Has(m, k', y) || (k' == key && y == x)
    ensures NonEmptySets(m) ==> NonEmptySets(r)
  {
    m[key := (if key in m then m[key] else {}) + {x}]
  }

  /** The loop over the tag children of a non-`*` key. */
  function AddTags(m: RuleMap, key: string, tags: seq<Yaml.Node>): (r: RuleMap)
    ensures forall k', y :: Has(r, k', y) <==> Has(m, k', y) || (k' == key && ValueAmong(tags, y))
    ensures NonEmptySets(m) ==> NonEmptySets(r)
    ensures r.Keys == if |tags| == 0 then m.Keys else m.Keys + {key}
    decreases |tags|
  {
    if |tags| == 0 then m
    else
      var r := AddTags(Insert(m, key, tags[0].value), key, tags[1..]);
      assert forall y :: ValueAmong(tags, y) <==> y == tags[0].value || ValueAmong(tags[1..], y) by {
        forall y | ValueAmong(tags, y)
          ensures y == tags[0].value || ValueAmong(tags[1..], y)
        {
          var l :| 0 <= l < |tags| && tags[l].value == y;
          if l > 0 {
            assert tags[1..][l - 1] == tags[l];
          }
        }
        forall y | ValueAmong(tags[1..], y)
          ensures ValueAmong(tags, y)
        {
          var l :| 0 <= l < |tags[1..]| && tags[1..][l].value == y;
          assert tags[l + 1] == tags[1..][l];
        }
      }
      r
  }

  /** One key child: a real key adds its tag children, `*` adds `*` under `*`. */
  function AddKeyChild(m: RuleMap, v: Yaml.Node): (r: RuleMap)
    ensures forall k', y :: Has(r, k', y) <==> Has(m, k', y) || KeyChildGives(v, k', y)
    ensures NonEmptySets(m) ==> NonEmptySets(r)
  {
    if v.value != "*" then AddTags(m, v.value, v.children) else Insert(m, "*", "*")
  }

  /** The loop over the key children of one type child. */
  function AddKeyChildren(m: RuleMap, vs: seq<Yaml.Node>): (r: RuleMap)
    ensures forall k', y :: Has(r, k', y) <==> Has(m, k', y) || SomeKeyChildGives(vs, k', y)
    ensures NonEmptySets(m) ==> NonEmptySets(r)
    decreases |vs|
  {
    if |vs| == 0 then m
    else
      var r := AddKeyChildren(AddKeyChild(m, vs[0]), vs[1..]);
      assert forall k', y :: SomeKeyChildGives(vs, k', y) <==> KeyChildGives(vs[0], k', y) || SomeKeyChildGives(vs[1..], k', y) by {
        forall k', y | SomeKeyChildGives(vs, k', y)
          ensures KeyChildGives(vs[0], k', y) || SomeKeyChildGives(vs[1..], k', y)
        {
          var j :| 0 <= j < |vs| && KeyChildGives(vs[j], k', y);
          if j > 0 {
            assert vs[1..][j - 1] == vs[j];
          }
        }
        forall k', y | SomeKeyChildGives(vs[1..], k', y)
          ensures SomeKeyChildGives(vs, k', y)
        {
          var j :| 0 <= j < |vs[1..]| && KeyChildGives(vs[1..][j], k', y);
          assert vs[j + 1] == vs[1..][j];
        }
      }
      r
  }

  /** All rule maps of the category hold only non-empty value sets. */
  ghost predicate WellFormed(c: Category) {
    forall k :: NonEmptySets(c.Rules(k))
  }

  /**
   * One type child: a recognised type name extends that type's map and
   * leaves the other two alone; any other name contributes nothing.
   */
  function AddTypeChild(c: Category, t: Yaml.Node): (r: Category)
    ensures r.name == c.name
    ensures forall k :: KindOf(t.value) != Some(k) ==> r.Rules(k) == c.Rules(k)
    ensures forall k, key, y :: Has(r.Rules(k), key, y) <==> Has(c.Rules(k), key, y) || TypeChildGives(t, k, key, y)
    ensures WellFormed(c) ==> WellFormed(r)
  {
    match KindOf(t.value)
    case None => c
    case Some(k) => c.WithRules(k, AddKeyChildren(c.Rules(k), t.children))
  }

  /** The loop over the type children of one category. */
  function AddTypeChildren(c: Category, ts: seq<Yaml.Node>): (r: Category)
    ensures r.name == c.name
    ensures forall k, key, y :: Has(r.Rules(k), key, y) <==> Has(c.Rules(k), key, y) || Contributes(ts, k, key, y)
    ensures WellFormed(c) ==> WellFormed(r)
    decreases |ts|
  {
    if |ts| == 0 then c
    else
      var r := AddTypeChildren(AddTypeChild(c, ts[0]), ts[1..]);
      assert forall k, key, y :: Contributes(ts, k, key, y) <==> TypeChildGives(ts[0], k, key, y) || Contributes(ts[1..], k, key, y) by {
        forall k, key, y | Contributes(ts, k, key, y)
          ensures TypeChildGives(ts[0], k, key, y) || Contributes(ts[1..], k, key, y)
        {
          var i :| 0 <= i < |ts| && TypeChildGives(ts[i], k, key, y);
          if i > 0 {
            assert ts[1..][i - 1] == ts[i];
          }
        }
        forall k, key, y | Contributes(ts[1..], k, key, y)
          ensures Contributes(ts, k, key, y)
        {
          var i :| 0 <= i < |ts[1..]| && TypeChildGives(ts[1..][i], k, key, y);
          assert ts[i + 1] == ts[1..][i];
        }
      }
      r
  }

  /** One category: named by the child's value, rules from its type children. */
  function CategoryOf(n: Yaml.Node): (c: Category)
    ensures c.name == n.value
    ensures WellFormed(c)
    ensures forall k, key, y :: Has(c.Rules(k), key, y) <==> Contributes(n.children, k, key, y)
  {
    AddTypeChildren(Category(n.value, map[], map[], map[]), n.children)
  }

  /** `read_yaml`: one category per child of the root, in the root's child order. */
  function ReadYaml(root: Yaml.Node): (cats: seq<Category>)
    ensures |cats| == |root.children|
    ensures forall i :: 0 <= i < |cats| ==> cats[i].name == root.children[i].value
    ensures forall i :: 0 <= i < |cats| ==> WellFormed(cats[i])
    ensures forall i, k, key, y :: 0 <= i < |cats| ==>
      (Has(cats[i].Rules(k), key, y) <==> Contributes(root.children[i].children, k, key, y))
  {
    seq(|root.children|, i requires 0 <= i < |root.children| => CategoryOf(root.children[i]))
  }

  /**
   * A key child other than `*` with no children creates no entry, and a
   * `*` key child makes `*` accept `*` whatever children it has.
   */
  lemma KeyChildEntries(m: RuleMap, v: Yaml.Node)
    ensures v.value != "*" && |v.children| == 0 ==> AddKeyChild(m, v) == m
    ensures v.value == "*" ==> Has(AddKeyChild(m, v), "*", "*")
    ensures v.value == "*" ==> forall k', y :: Has(AddKeyChild(m, v), k', y) ==> Has(m, k', y) || (k' == "*" && y == "*")
  {
  }

  // ---------------------------------------------------------------------
  // Classification

  /** `*(values.begin()) == "*"`: `"*"` is the least element of the ordered set. */
  predicate LeastIsStar(values: set<string>) {
    "*" in values && forall x :: x in values ==> !StrLess(x, "*")
  }

  /** The test `searchCategory` applies to one map entry. */
  predicate EntryMatches(entryKey: string, values: set<string>, tag: string, value: string) {
    entryKey == "*" || (tag == entryKey && (LeastIsStar(values) || value in values))
  }

  /**
   * `searchCategory`: true when some entry of the map passes the test. The
   * source dereferences `begin()` of the set stored under `tag`, so that set
   * must not be empty.
   */
  function SearchCategory(tag: string, value: string, tags: RuleMap): (r: bool)
    requires tag in tags ==> tags[tag] != {}
    ensures r <==> exists k :: k in tags && EntryMatches(k, tags[k], tag, value)
  {
    assert "*" in tags ==> EntryMatches("*", tags["*"], tag, value);
    "*" in tags || (tag in tags && (LeastIsStar(tags[tag]) || value in tags[tag]))
  }

  /** The name template literally written `"[key]"`, quote characters included. */
  const KeyTemplate: string := "\"[key]\""

  /** The name template literally written `"[key:value]"`, quote characters included. */
  const KeyValueTemplate: string := "\"[key:value]\""

  /** What a matching category returns. */
  function Label(name: string, tag: string, value: string): string {
    if name == KeyTemplate then tag
    else if name == KeyValueTemplate then tag + ":" + value
    else name
  }

  /** The source's precondition for every category a search may reach. */
  ghost predicate Searchable(cats: seq<Category>, tag: string, kind: Kind) {
    forall i :: 0 <= i < |cats| && tag in cats[i].Rules(kind) ==> cats[i].Rules(kind)[tag] != {}
  }

  /** Category `i` is the first, in list order, whose rules for `kind` match. */
  predicate FirstMatchAt(tag: string, value: string, kind: Kind, cats: seq<Category>, i: int)
    requires Searchable(cats, tag, kind)
  {
    && 0 <= i < |cats|
    && SearchCategory(tag, value, cats[i].Rules(kind))
    && forall j :: 0 <= j < i ==> !SearchCategory(tag, value, cats[j].Rules(kind))
  }

  /**
   * `search`: the label of the first category, in list order, whose rules
   * for `kind` match; the empty string when none does.
   */
  function Search(tag: string, value: string, kind: Kind, cats: seq<Category>): (r: string)
    requires Searchable(cats, tag, kind)
    ensures (forall i :: 0 <= i < |cats| ==> !SearchCategory(tag, value, cats[i].Rules(kind))) ==> r == ""
    ensures forall i :: FirstMatchAt(tag, value, kind, cats, i) ==> r == Label(cats[i].name, tag, value)
    decreases |cats|
  {
    if |cats| == 0 then ""
    else if SearchCategory(tag, value, cats[0].Rules(kind)) then Label(cats[0].name, tag, value)
    else
      var r := Search(tag, value, kind, cats[1..]);
      assert forall i :: 1 <= i < |cats| ==> cats[1..][i - 1] == cats[i];
      r
  }

  /** Categories after the first match are never consulted. */
  lemma {:induction false} SearchIgnoresLaterCategories(tag: string, value: string, kind: Kind, cats: seq<Category>, more: seq<Category>)
    requires Searchable(cats, tag, kind) && Searchable(more, tag, kind)
    requires exists i :: 0 <= i < |cats| && SearchCategory(tag, value, cats[i].Rules(kind))
    ensures Searchable(cats + more, tag, kind)
    ensures Search(tag, value, kind, cats + more) == Search(tag, value, kind, cats)
    decreases |cats|
  {
    assert forall i :: 0 <= i < |cats| ==> (cats + more)[i] == cats[i];
    assert forall i :: |cats| <= i < |cats| + |more| ==> (cats + more)[i] == more[i - |cats|];
    if !SearchCategory(tag, value, cats[0].Rules(kind)) {
      assert (cats + more)[1..] == cats[1..] + more;
      assert forall i :: 1 <= i < |cats| ==> cats[1..][i - 1] == cats[i];
      SearchIgnoresLaterCategories(tag, value, kind, cats[1..], more);
    }
  }

  /** Categories read from any tree satisfy the search's precondition. */
  lemma ReadYamlSearchable(root: Yaml.Node, tag: string, kind: Kind)
    ensures Searchable(ReadYaml(root), tag, kind)
  {
    var cats := ReadYaml(root);
    forall i | 0 <= i < |cats| && tag in cats[i].Rules(kind)
      ensures cats[i].Rules(kind)[tag] != {}
    {
      assert WellFormed(cats[i]);
      assert NonEmptySets(cats[i].Rules(kind));
    }
  }

  /**
   * First match wins: with `shop: *` in the first category and
   * `shop: supermarket` in the second, a supermarket is classified by the first.
   */
  lemma FirstCategoryWins()
    ensures Search("shop", "supermarket", Node,
      [Category("A", map[], map["shop" := {"*"}], map[]),
       Category("B", map[], map["shop" := {"supermarket"}], map[])]) == "A"
  {
    var cats := [Category("A", map[], map["shop" := {"*"}], map[]),
                 Category("B", map[], map["shop" := {"supermarket"}], map[])];
    LessThanStar("*");
    assert LeastIsStar(cats[0].Rules(Node)["shop"]);
    assert SearchCategory("shop", "supermarket", cats[0].Rules(Node));
  }

  /**
   * The `*` value is honoured only when it is the least element: a set
   * that also holds `"!"` (ordered before `"*"`) accepts only its listed values.
   */
  lemma StarHonouredOnlyWhenLeast()
    ensures !SearchCategory("amenity", "cafe", map["amenity" := {"!", "*"}])
    ensures SearchCategory("amenity", "cafe", map["amenity" := {"*", "pub"}])
  {
    LessThanStar("!");
    assert StrLess("!", "*");
    assert !LeastIsStar({"!", "*"});
    LessThanStar("pub");
    LessThanStar("*");
    assert LeastIsStar({"*", "pub"});
  }

  /** The two name templates return the tag, or tag and value. */
  lemma TemplateLabels(tag: string, value: string)
    ensures Label(KeyTemplate, tag, value) == tag
    ensures Label(KeyValueTemplate, tag, value) == tag + ":" + value
    ensures forall name :: name != KeyTemplate && name != KeyValueTemplate ==> Label(name, tag, value) == name
  {
  }
}
