/**
  The two steps of the "Copy Tree" button: `treeToText`, which builds the
  indented listing with a loop over the siblings and a recursive call for
  each directory's children, and `copyToClipboard`, which refuses to copy
  before any tree data has arrived.
 */
module TreeExport {
  import opened Tree
  import opened TreeFacts

  /**
    `treeToText(nodes, indent)`: appends, node by node, the node's line and,
    for a directory, the text of its children one level deeper. Returns
    `None` where the source throws, on a directory without a children list.
   */
  method TreeToText(nodes: seq<Node>, indent: nat) returns (r: Option<string>)
    ensures r == Text(nodes, indent)
    ensures r.Some? <==> Listed(nodes)
    ensures nodes == [] ==> r == Some("")
    decreases nodes
  {
    TextDefinedIffListed(nodes, indent);
    var text := "";
    for k := 0 to |nodes|
      invariant Text(nodes[..k], indent) == Some(text)
    {
      var node := nodes[k];
      TextStep(nodes, k, indent);
      ghost var before := text;
      text := text + Line(node, indent);
      match node {
        case File(_, _, _) =>
        case UnlistedDirectory(_, _) =>
          // The recursive call iterates the undefined children list and throws.
          PrefixFailure(nodes, k + 1, indent);
          return None;
        case Directory(_, _, children) =>
          var sub := TreeToText(children, indent + 1);
          if sub.None? {
            PrefixFailure(nodes, k + 1, indent);
            return None;
          }
          assert before + (Line(node, indent) + sub.value) == text + sub.value;
          text := text + sub.value;
      }
    }
    assert nodes[..|nodes|] == nodes;
    return Some(text);
  }

  /** One more iteration of the loop appends the text of the next node. */
  lemma TextStep(nodes: seq<Node>, k: nat, indent: nat)
    requires k < |nodes|
    ensures Text(nodes[..k + 1], indent) == Concat(Text(nodes[..k], indent), NodeText(nodes[k], indent))
  {
    assert nodes[..k + 1] == nodes[..k] + [nodes[k]];
    TextAppend(nodes[..k], [nodes[k]], indent);
    TextSingleton(nodes[k], indent);
  }

  /** A forest whose leading nodes already make `treeToText` throw makes it throw as a whole. */
  lemma PrefixFailure(nodes: seq<Node>, k: nat, indent: nat)
    requires k <= |nodes|
    requires Text(nodes[..k], indent) == None
    ensures Text(nodes, indent) == None
  {
    assert nodes == nodes[..k] + nodes[k..];
    TextAppend(nodes[..k], nodes[k..], indent);
  }

  /** What pressing "Copy Tree" does. */
  datatype CopyOutcome =
    | NoTreeData          // `if (!treeData) return;`
    | Threw               // `treeToText` threw before the clipboard was touched
    | Write(text: string) // the text handed to the clipboard

  /**
    `copyToClipboard`: nothing happens while `treeData` is still `null`;
    otherwise the whole forest is serialised from indentation 0 and the text
    is written to the clipboard. An empty listing is an (empty) array, which
    is truthy, so it is copied as the empty text.
   */
  method CopyToClipboard(treeData: Option<seq<Node>>) returns (r: CopyOutcome)
    ensures treeData.None? <==> r == NoTreeData
    ensures r.Write? <==> treeData.Some? && Listed(treeData.value)
    ensures r.Write? ==> Some(r.text) == Text(treeData.value, 0)
    ensures treeData == Some([]) ==> r == Write("")
  {
    if treeData.None? {
      return NoTreeData;
    }
    var text := TreeToText(treeData.value, 0);
    if text.None? {
      return Threw;
    }
    return Write(text.value);
  }
}
