/**
 * The parsed document as the converter sees it through BeautifulSoup: a
 * tree of elements, comments and text. Parsing and serialisation belong to
 * the parser library; an element carries its own serialisation `str(tag)`
 * as a given value.
 */
module Html {
  import opened Wrappers

  /** An attribute value; BeautifulSoup gives a list for multi-valued attributes such as `class`. */
  datatype AttrValue = Str(s: string) | Multi(values: seq<string>)

  datatype Node =
    | Element(name: string, attrs: map<string, AttrValue>, children: seq<Node>, html: string)
    | Comment(text: string)
    | Text(s: string)

  /** `str(node)`: an element's markup; for a comment or text node, its bare text. */
  function Serialize(n: Node): string
  {
    match n
    case Element(_, _, _, html) => html
    case Comment(text) => text
    case Text(s) => s
  }

  /** The attributes of a node; only elements have any. */
  function Attrs(n: Node): map<string, AttrValue>
  {
    if n.Element? then n.attrs else map[]
  }

  /** `find_all()`: every element below the given nodes, in document order (parent before children). */
  function AllElements(nodes: seq<Node>): (r: seq<Node>)
    ensures forall i | 0 <= i < |r| :: r[i].Element?
    decreases nodes
  {
    if nodes == [] then []
    else
      var rest := AllElements(nodes[1..]);
      match nodes[0]
      case Element(_, _, children, _) => [nodes[0]] + AllElements(children) + rest
      case _ => rest
  }

  /** No element below `nodes`, at any depth, is called `name`. */
  predicate NoneNamed(nodes: seq<Node>, name: string)
  {
    forall i | 0 <= i < |AllElements(nodes)| :: AllElements(nodes)[i].name != name
  }

  /** The first element of `elements` called `name`, as an index. */
  function FirstNamed(elements: seq<Node>, name: string): (r: Option<nat>)
    requires forall i | 0 <= i < |elements| :: elements[i].Element?
    ensures r.Some? ==> r.value < |elements| && elements[r.value].name == name
    ensures forall j | 0 <= j < |elements| && (r.None? || j < r.value) :: elements[j].name != name
  {
    if elements == [] then None
    else if elements[0].name == name then Some(0)
    else match FirstNamed(elements[1..], name)
      case Some(i) => Some(i + 1)
      case None => None
  }

  /** `find(name)`: the first element called `name` below the given nodes, in document order. */
  function Find(nodes: seq<Node>, name: string): (r: Option<Node>)
    ensures r.Some? ==> r.value.Element? && r.value.name == name
    ensures r.Some? ==> exists i | 0 <= i < |AllElements(nodes)| ::
                          AllElements(nodes)[i] == r.value
                          && forall j | 0 <= j < i :: AllElements(nodes)[j].name != name
    ensures r.None? <==> NoneNamed(nodes, name)
  {
    var all := AllElements(nodes);
    match FirstNamed(all, name)
    case Some(i) => Some(all[i])
    case None => None
  }
}
