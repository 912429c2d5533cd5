/**
 * The nested configuration tree (`yaml::Node`, `yaml::Yaml`) and its
 * searches. Every search walks the DESCENDANTS of the node it starts from,
 * depth first and in child order; the node itself is not a candidate.
 * The text parser that builds the tree is not part of this model.
 */
module Yaml {
  import opened Wrappers

  /** One line of the document: its trimmed text and the lines nested under it. */
  datatype Node = Node(value: string, children: seq<Node>)

  /** The document: the root node whose children are the top-level lines. */
  datatype Document = Document(root: Node)

  // ---------------------------------------------------------------------
  // Reference order: all descendants, parent before children, siblings in order

  function Descendants(n: Node): seq<Node>
    decreases n, 1
  {
    Forest(n.children)
  }

  /** The trees `ns` flattened in pre-order. */
  function Forest(ns: seq<Node>): seq<Node>
    decreases ns, 0
  {
    if |ns| == 0 then [] else [ns[0]] + Descendants(ns[0]) + Forest(ns[1..])
  }

  /** Some node of the forest carries `key`. */
  ghost predicate KeyIn(ns: seq<Node>, key: string) {
    exists d :: d in Forest(ns) && d.value == key
  }

  /** Some node of the forest carries `key` and has a child carrying `value`. */
  ghost predicate PairIn(ns: seq<Node>, key: string, value: string) {
    exists d :: d in Forest(ns) && d.value == key && HasChild(d, value)
  }

  predicate HasChild(d: Node, value: string) {
    exists c :: c in d.children && c.value == value
  }

  /** Reference search: the first node of `order` carrying `key`. */
  function FirstOf(order: seq<Node>, key: string): (r: Option<Node>)
    ensures r.None? <==> forall d :: d in order ==> d.value != key
    ensures r.Some? ==> r.value in order && r.value.value == key
    decreases |order|
  {
    if |order| == 0 then None
    else if order[0].value == key then Some(order[0])
    else
      assert forall d :: d in order ==> d == order[0] || d in order[1..];
      FirstOf(order[1..], key)
  }

  lemma {:induction false} FirstOfAppend(a: seq<Node>, b: seq<Node>, key: string)
    ensures FirstOf(a + b, key) == if FirstOf(a, key).Some? then FirstOf(a, key) else FirstOf(b, key)
    decreases |a|
  {
    if |a| > 0 {
      assert (a + b)[1..] == a[1..] + b;
      FirstOfAppend(a[1..], b, key);
    } else {
      assert a + b == b;
    }
  }

  // ---------------------------------------------------------------------
  // The searches, written as the recursive walk the class performs

  /** `get` over a forest: the first node carrying `key` in depth-first order. */
  function GetIn(ns: seq<Node>, key: string): (r: Option<Node>)
    ensures r == FirstOf(Forest(ns), key)
    decreases ns
  {
    if |ns| == 0 then None
    else if ns[0].value == key then Some(ns[0])
    else
      var inner := GetIn(ns[0].children, key);
      var rest := GetIn(ns[1..], key);
      var a := Forest(ns[0].children);
      var b := Forest(ns[1..]);
      assert Forest(ns) == [ns[0]] + (a + b);
      assert FirstOf(Forest(ns), key) == FirstOf(a + b, key);
      FirstOfAppend(a, b, key);
      if inner.Some? then inner else rest
  }

  /** `contains_key` over a forest. */
  function ContainsKeyIn(ns: seq<Node>, key: string): (r: bool)
    ensures r <==> KeyIn(ns, key)
    decreases ns
  {
    if |ns| == 0 then false
    else
      var r := ns[0].value == key || ContainsKeyIn(ns[0].children, key) || ContainsKeyIn(ns[1..], key);
      assert Forest(ns) == [ns[0]] + Forest(ns[0].children) + Forest(ns[1..]);
      r
  }

  /** `contains_value` over a forest. */
  function ContainsValueIn(ns: seq<Node>, key: string, value: string): (r: bool)
    ensures r <==> PairIn(ns, key, value)
    decreases ns
  {
    if |ns| == 0 then false
    else
      var here := ns[0].value == key && HasChild(ns[0], value);
      var r := here || ContainsValueIn(ns[0].children, key, value) || ContainsValueIn(ns[1..], key, value);
      assert Forest(ns) == [ns[0]] + Forest(ns[0].children) + Forest(ns[1..]);
      r
  }

  // ---------------------------------------------------------------------
  // Node members

  /** `Node::get`: the first descendant carrying `key`; absent when there is none. */
  function Get(n: Node, key: string): (r: Option<Node>)
    ensures r.None? <==> !KeyIn(n.children, key)
    ensures r.Some? ==> r.value.value == key && r.value in Descendants(n)
    ensures r == FirstOf(Descendants(n), key)
  {
    GetIn(n.children, key)
  }

  /** `Node::get_value`: the value of the single child of the node `get` finds. */
  function GetValue(n: Node, key: string): (r: Option<string>)
    ensures r.Some? ==> KeyIn(n.children, key)
    ensures r.Some? <==> Get(n, key).Some? && |Get(n, key).value.children| > 0
    ensures Get(n, key).Some? && |Get(n, key).value.children| == 1 ==>
      r == Some(Get(n, key).value.children[0].value)
  {
    match Get(n, key)
    case None => None
    case Some(m) => if |m.children| == 0 then None else Some(m.children[0].value)
  }

  /** `Node::get_values`: the values of all children of the node `get` finds, in order. */
  function GetValues(n: Node, key: string): (r: Option<seq<string>>)
    ensures r.None? <==> !KeyIn(n.children, key)
    ensures r.Some? ==> |r.value| == |Get(n, key).value.children|
    ensures r.Some? ==> forall i :: 0 <= i < |r.value| ==> r.value[i] == Get(n, key).value.children[i].value
  {
    match Get(n, key)
    case None => None
    case Some(m) => Some(seq(|m.children|, i requires 0 <= i < |m.children| => m.children[i].value))
  }

  /** `Node::contains_key`: some descendant carries `key`. */
  function ContainsKey(n: Node, key: string): (r: bool)
    ensures r <==> exists d :: d in Descendants(n) && d.value == key
  {
    ContainsKeyIn(n.children, key)
  }

  /** `Node::contains_value`: some descendant carrying `key` has a child carrying `value`. */
  function ContainsValue(n: Node, key: string, value: string): (r: bool)
    ensures r <==> exists d :: d in Descendants(n) && d.value == key && HasChild(d, value)
  {
    ContainsValueIn(n.children, key, value)
  }

  /** A key is contained exactly when `get` finds it. */
  lemma ContainsKeyIffGet(n: Node, key: string)
    ensures ContainsKey(n, key) <==> Get(n, key).Some?
  {
  }

  /** A key:value pair can only be contained where the key is. */
  lemma ContainsValueImpliesKey(n: Node, key: string, value: string)
    ensures ContainsValue(n, key, value) ==> ContainsKey(n, key)
  {
  }

  // ---------------------------------------------------------------------
  // Document members: the same searches started from the root

  function DocGet(y: Document, key: string): (r: Option<Node>)
    ensures r.None? <==> !(exists d :: d in Descendants(y.root) && d.value == key)
    ensures r == FirstOf(Descendants(y.root), key)
  {
    Get(y.root, key)
  }

  function DocContainsKey(y: Document, key: string): (r: bool)
    ensures r <==> exists d :: d in Descendants(y.root) && d.value == key
  {
    ContainsKey(y.root, key)
  }

  function DocContainsValue(y: Document, key: string, value: string): (r: bool)
    ensures r <==> exists d :: d in Descendants(y.root) && d.value == key && HasChild(d, value)
  {
    ContainsValue(y.root, key, value)
  }
}
