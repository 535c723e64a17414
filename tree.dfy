/**
  The repository tree shown by the `Tree` component: the nested listing
  served by the contents endpoint, how `renderTree` walks it, and the
  indented text that `treeToText` produces from it.
 */
module Tree {
  import opened Lines

  datatype Option<+T> = None | Some(value: T)

  /**
    One entry of the listing. A node whose `type` is `'directory'` carries
    its `children`; the listing always supplies them, but nothing in the
    component checks it, so a directory without a children list is
    representable too (`UnlistedDirectory`). Every other node is a file
    with its download URL.
   */
  datatype Node =
    | Directory(name: string, path: string, children: seq<Node>)
    | UnlistedDirectory(name: string, path: string)
    | File(name: string, path: string, downloadUrl: string)
  {
    /** `node.type === 'directory'` */
    predicate IsDirectory() { !File? }
  }

  /** Every directory in the forest, at every depth, carries a children list. */
  predicate Listed(nodes: seq<Node>)
    decreases nodes
  {
    forall k :: 0 <= k < |nodes| ==> NodeListed(nodes[k])
  }

  predicate NodeListed(n: Node)
    decreases n
  {
    match n
    case Directory(_, _, children) => Listed(children)
    case UnlistedDirectory(_, _) => false
    case File(_, _, _) => true
  }

  /** No name in the forest contains a newline character. */
  predicate OneLineNames(nodes: seq<Node>)
    decreases nodes
  {
    forall k :: 0 <= k < |nodes| ==> OneLineName(nodes[k])
  }

  predicate OneLineName(n: Node)
    decreases n
  {
    '\n' !in n.name && (n.Directory? ==> OneLineNames(n.children))
  }

  /** Number of nodes in the forest, counting every child list that is present. */
  function Size(nodes: seq<Node>): nat
    decreases nodes
  {
    if nodes == [] then 0 else NodeSize(nodes[0]) + Size(nodes[1..])
  }

  function NodeSize(n: Node): nat
    decreases n
  {
    if n.Directory? then 1 + Size(n.children) else 1
  }

  // ---------------------------------------------------------------------
  // renderTree: the visible entries, in the order the list elements appear
  // ---------------------------------------------------------------------

  /** What one `<li>` shows: a folder label, or a link to the file's download URL. */
  datatype Item =
    | Folder(level: nat, name: string)
    | Link(level: nat, name: string, href: string)

  /**
    The entries `renderTree(nodes, level)` displays, in document order. A
    directory's sub-list is rendered only when its children are present and
    non-empty.
   */
  function Render(nodes: seq<Node>, level: nat): (r: seq<Item>)
    ensures |r| == Size(nodes)
    ensures forall k :: 0 <= k < |r| ==> r[k].level >= level
    decreases nodes
  {
    if nodes == [] then [] else RenderNode(nodes[0], level) + Render(nodes[1..], level)
  }

  function RenderNode(n: Node, level: nat): (r: seq<Item>)
    ensures |r| == NodeSize(n)
    ensures r[0].level == level && r[0].name == n.name
    ensures forall k :: 1 <= k < |r| ==> r[k].level > level
    decreases n
  {
    match n
    case File(name, _, url) => [Link(level, name, url)]
    case UnlistedDirectory(name, _) => [Folder(level, name)]
    case Directory(name, _, children) =>
      [Folder(level, name)] + (if |children| > 0 then Render(children, level + 1) else [])
  }

  // ---------------------------------------------------------------------
  // treeToText: one line per node, depth first, pre-order
  // ---------------------------------------------------------------------

  /** The marker written after the indentation: empty for a directory and empty for a file. */
  function Marker(n: Node): (r: string)
    ensures r == ""
  {
    if n.IsDirectory() then "" else ""
  }

  /** The line written for node `n` at depth `indent`. */
  function Line(n: Node, indent: nat): (r: string)
    ensures r == Indent(indent) + n.name + "\n"
  {
    Indent(indent) + Marker(n) + n.name + "\n"
  }

  /** Concatenation of two outcomes; a failure in either is a failure of the whole. */
  function Concat(a: Option<string>, b: Option<string>): Option<string>
  {
    if a.Some? && b.Some? then Some(a.value + b.value) else None
  }

  /**
    The text `treeToText(nodes, indent)` returns, or `None` when it throws:
    iterating the missing children list of a directory raises a TypeError.
   */
  function Text(nodes: seq<Node>, indent: nat): (r: Option<string>)
    ensures nodes == [] ==> r == Some("")
    ensures r.Some? ==> forall k :: 0 <= k < |nodes| ==> !nodes[k].UnlistedDirectory?
    decreases nodes
  {
    if nodes == [] then Some("")
    else Concat(NodeText(nodes[0], indent), Text(nodes[1..], indent))
  }

  /** What one iteration of the loop appends for node `n`. */
  function NodeText(n: Node, indent: nat): (r: Option<string>)
    ensures n.UnlistedDirectory? ==> r == None
    ensures n.File? ==> r == Some(Line(n, indent))
    decreases n
  {
    match n
    case File(_, _, _) => Some(Line(n, indent))
    case UnlistedDirectory(_, _) => None
    case Directory(_, _, children) => Concat(Some(Line(n, indent)), Text(children, indent + 1))
  }

  /** The text of a sequence of rendered entries, one indented line each. */
  function Join(items: seq<Item>): string
  {
    if items == [] then "" else Indent(items[0].level) + items[0].name + "\n" + Join(items[1..])
  }

  /** The lines a sequence of rendered entries reads as, without their newlines. */
  function ItemLines(items: seq<Item>): (ls: seq<string>)
    ensures |ls| == |items|
    ensures forall k :: 0 <= k < |items| ==> ls[k] == Indent(items[k].level) + items[k].name
  {
    if items == [] then [] else [Indent(items[0].level) + items[0].name] + ItemLines(items[1..])
  }
}
