/** The parsed BBCode tree as the C layer sees it through its handles.
    The parser that builds it is not part of this model: every consumer
    receives the tree (or a parse failure) from a `Loader` value. */
module Tree {
  import opened Wrappers

  /** The four syntactic shapes of a tag (BBElement::ElementType). */
  datatype ElementType = Simple | Value | Parameter | Closing

  /** The four node kinds (BBNode::NodeType). */
  datatype NodeType = DocumentNode | ElementNode | TextNode | AttributeNode

  /** A node below the document root. Text and attribute nodes are leaves.
      `params` keeps the element's parameters in iteration order. */
  datatype Node =
    | Element(name: string, etype: ElementType, params: seq<(string, string)>, children: seq<Node>)
    | Text(content: string)
    | Attribute(key: string, value: string)

  /** The document root and its top-level children. */
  datatype Document = Document(children: seq<Node>)

  /** The kind a node reports through getNodeType. */
  function KindOf(n: Node): NodeType
  {
    match n
    case Element(_, _, _, _) => ElementNode
    case Text(_) => TextNode
    case Attribute(_, _) => AttributeNode
  }

  /** The name a node reports through getNodeName: the tag name of an
      element, the fixed literal "#text" of a text node, the key of an
      attribute node. */
  function NameOf(n: Node): string
  {
    match n
    case Element(name, _, _, _) => name
    case Text(_) => "#text"
    case Attribute(key, _) => key
  }

  /** The ordered children of a node; leaves have none. */
  function ChildrenOf(n: Node): seq<Node>
  {
    match n
    case Element(_, _, _, cs) => cs
    case Text(_) => []
    case Attribute(_, _) => []
  }

  /** getParameter(key): the value stored under `key`, if any. The
      parameter container itself is not part of this model; where a key
      repeats, this model answers with its first pair, and only the
      unique-key case is relied on (`LookupAtIndex`). */
  function Lookup(params: seq<(string, string)>, key: string): (r: Option<string>)
    ensures r.None? <==> forall i :: 0 <= i < |params| ==> params[i].0 != key
    ensures r.Some? ==> exists i :: 0 <= i < |params| && params[i] == (key, r.value)
                                   && forall j :: 0 <= j < i ==> params[j].0 != key
  {
    if params == [] then None
    else if params[0].0 == key then Some(params[0].1)
    else
      var r := Lookup(params[1..], key);
      assert forall i :: 1 <= i < |params| ==> params[i] == params[1..][i - 1];
      r
  }

  /** No key occurs twice, as for a key/value map. */
  predicate UniqueKeys(params: seq<(string, string)>)
  {
    forall i, j :: 0 <= i < j < |params| ==> params[i].0 != params[j].0
  }

  /** With unique keys, looking up the key at any position yields the value
      stored at that position: enumeration by index and lookup by key agree. */
  lemma {:induction false} LookupAtIndex(params: seq<(string, string)>, i: nat)
    requires UniqueKeys(params)
    requires i < |params|
    ensures Lookup(params, params[i].0) == Some(params[i].1)
  {
    if i > 0 {
      assert params[0].0 != params[i].0;
      var tail := params[1..];
      assert UniqueKeys(tail) by {
        forall a, b | 0 <= a < b < |tail| ensures tail[a].0 != tail[b].0 {
          assert tail[a] == params[a + 1] && tail[b] == params[b + 1];
        }
      }
      assert tail[i - 1] == params[i];
      LookupAtIndex(tail, i - 1);
    }
  }
}
