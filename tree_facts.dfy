/**
  What the indented text of a forest says about the forest: it is defined
  exactly when every directory carries its children, it distributes over
  sibling lists, it is the rendered entries written one per line, and each
  of its lines is the indented name of one node, in pre-order.
 */
module TreeFacts {
  import opened Lines
  import opened Tree

  // ---------------------------------------------------------------------
  // Structure of Text over sibling lists
  // ---------------------------------------------------------------------

  /** The text of two sibling lists placed one after the other is the text of the first followed by the text of the second. */
  lemma {:induction false} TextAppend(xs: seq<Node>, ys: seq<Node>, indent: nat)
    ensures Text(xs + ys, indent) == Concat(Text(xs, indent), Text(ys, indent))
  {
    if xs == [] {
      assert xs + ys == ys;
      var t := Text(ys, indent);
      assert t.Some? ==> "" + t.value == t.value;
    } else {
      assert (xs + ys)[0] == xs[0];
      assert (xs + ys)[1..] == xs[1..] + ys;
      TextAppend(xs[1..], ys, indent);
      var a, b, c := NodeText(xs[0], indent), Text(xs[1..], indent), Text(ys, indent);
      assert Text(xs + ys, indent) == Concat(a, Concat(b, c));
      assert Text(xs, indent) == Concat(a, b);
      ConcatAssoc(a, b, c);
    }
  }

  lemma ConcatAssoc(a: Option<string>, b: Option<string>, c: Option<string>)
    ensures Concat(a, Concat(b, c)) == Concat(Concat(a, b), c)
  {
    if a.Some? && b.Some? && c.Some? {
      assert a.value + (b.value + c.value) == (a.value + b.value) + c.value;
    }
  }

  /** A single node's text is the text of the one-element list holding it. */
  lemma TextSingleton(n: Node, indent: nat)
    ensures Text([n], indent) == NodeText(n, indent)
  {
    assert [n][1..] == [];
    var t := NodeText(n, indent);
    assert t.Some? ==> t.value + "" == t.value;
  }

  /** Listed splits over the first element and the rest. */
  lemma ListedCons(nodes: seq<Node>)
    requires nodes != []
    ensures Listed(nodes) <==> NodeListed(nodes[0]) && Listed(nodes[1..])
  {
  }

  /**
    `treeToText` returns (rather than throwing) exactly when every directory
    in the forest, at every depth, carries a children list.
   */
  lemma {:induction false} TextDefinedIffListed(nodes: seq<Node>, indent: nat)
    ensures Text(nodes, indent).Some? <==> Listed(nodes)
    decreases nodes
  {
    if nodes != [] {
      ListedCons(nodes);
      NodeTextDefinedIffListed(nodes[0], indent);
      TextDefinedIffListed(nodes[1..], indent);
    }
  }

  lemma {:induction false} NodeTextDefinedIffListed(n: Node, indent: nat)
    ensures NodeText(n, indent).Some? <==> NodeListed(n)
    decreases n
  {
    if n.Directory? {
      TextDefinedIffListed(n.children, indent + 1);
    }
  }

  // ---------------------------------------------------------------------
  // Text and the rendered entries
  // ---------------------------------------------------------------------

  lemma {:induction false} JoinAppend(a: seq<Item>, b: seq<Item>)
    ensures Join(a + b) == Join(a) + Join(b)
  {
    if a == [] {
      assert a + b == b;
    } else {
      assert (a + b)[0] == a[0];
      assert (a + b)[1..] == a[1..] + b;
      JoinAppend(a[1..], b);
    }
  }

  lemma {:induction false} RenderAppend(xs: seq<Node>, ys: seq<Node>, level: nat)
    ensures Render(xs + ys, level) == Render(xs, level) + Render(ys, level)
  {
    if xs == [] {
      assert xs + ys == ys;
    } else {
      assert (xs + ys)[0] == xs[0];
      assert (xs + ys)[1..] == xs[1..] + ys;
      RenderAppend(xs[1..], ys, level);
    }
  }

  /**
    Whenever `treeToText` returns, its text is the entries `renderTree`
    displays for the same forest, one per line, each indented two spaces per
    level: the copied text is what the page shows.
   */
  lemma {:induction false} TextIsRenderedEntries(nodes: seq<Node>, indent: nat)
    requires Text(nodes, indent).Some?
    ensures Text(nodes, indent).value == Join(Render(nodes, indent))
    decreases nodes
  {
    if nodes != [] {
      NodeTextIsRenderedEntries(nodes[0], indent);
      TextIsRenderedEntries(nodes[1..], indent);
      JoinAppend(RenderNode(nodes[0], indent), Render(nodes[1..], indent));
    }
  }

  lemma {:induction false} NodeTextIsRenderedEntries(n: Node, indent: nat)
    requires NodeText(n, indent).Some?
    ensures NodeText(n, indent).value == Join(RenderNode(n, indent))
    decreases n
  {
    var head := [Folder(indent, n.name)];
    match n
    case File(_, _, _) =>
    case Directory(_, _, children) =>
      if children == [] {
        assert RenderNode(n, indent) == head;
      } else {
        TextIsRenderedEntries(children, indent + 1);
        JoinAppend(head, Render(children, indent + 1));
      }
  }

  /** No rendered entry has a newline in its name when no node has one. */
  lemma {:induction false} RenderedNamesOneLine(nodes: seq<Node>, level: nat)
    requires OneLineNames(nodes)
    ensures forall k :: 0 <= k < |Render(nodes, level)| ==> '\n' !in Render(nodes, level)[k].name
    decreases nodes
  {
    if nodes != [] {
      assert OneLineName(nodes[0]);
      assert OneLineNames(nodes[1..]) by {
        forall k | 0 <= k < |nodes[1..]| ensures OneLineName(nodes[1..][k]) {
          assert nodes[1..][k] == nodes[k + 1];
        }
      }
      NodeRenderedNamesOneLine(nodes[0], level);
      RenderedNamesOneLine(nodes[1..], level);
    }
  }

  lemma {:induction false} NodeRenderedNamesOneLine(n: Node, level: nat)
    requires OneLineName(n)
    ensures forall k :: 0 <= k < |RenderNode(n, level)| ==> '\n' !in RenderNode(n, level)[k].name
    decreases n
  {
    if n.Directory? && |n.children| > 0 {
      RenderedNamesOneLine(n.children, level + 1);
    }
  }

  /** Splitting the text of entries with one-line names gives back one indented name per entry. */
  lemma {:induction false} SplitJoin(items: seq<Item>)
    requires forall k :: 0 <= k < |items| ==> '\n' !in items[k].name
    ensures SplitLines(Join(items)) == ItemLines(items)
    ensures CountNewlines(Join(items)) == |items|
  {
    if items != [] {
      var line := Indent(items[0].level) + items[0].name;
      IndentedOneLine(items[0].level, items[0].name);
      assert Join(items) == line + "\n" + Join(items[1..]);
      SplitLinesCons(line, Join(items[1..]));
      SplitJoin(items[1..]);
      CountNewlinesAppend(line + "\n", Join(items[1..]));
      CountNewlinesAppend(line, "\n");
    }
  }

  /**
    When names are one line each, the text `treeToText` returns has exactly
    one line per node of the forest, and line k is the k-th rendered entry's
    name indented by two spaces per level.
   */
  lemma TextLines(nodes: seq<Node>, indent: nat)
    requires Text(nodes, indent).Some?
    requires OneLineNames(nodes)
    ensures CountNewlines(Text(nodes, indent).value) == Size(nodes)
    ensures |SplitLines(Text(nodes, indent).value)| == Size(nodes)
    ensures forall k :: 0 <= k < Size(nodes) ==>
      SplitLines(Text(nodes, indent).value)[k] == Indent(Render(nodes, indent)[k].level) + Render(nodes, indent)[k].name
  {
    TextIsRenderedEntries(nodes, indent);
    RenderedNamesOneLine(nodes, indent);
    SplitJoin(Render(nodes, indent));
  }

  // ---------------------------------------------------------------------
  // Order and nesting
  // ---------------------------------------------------------------------

  /** Node k's entries sit between those of its earlier and its later siblings. */
  lemma RenderAround(nodes: seq<Node>, level: nat, k: nat)
    requires k < |nodes|
    ensures Render(nodes, level) == Render(nodes[..k], level) + RenderNode(nodes[k], level) + Render(nodes[k + 1..], level)
  {
    assert nodes == nodes[..k] + ([nodes[k]] + nodes[k + 1..]);
    RenderAppend(nodes[..k], [nodes[k]] + nodes[k + 1..], level);
    RenderAppend([nodes[k]], nodes[k + 1..], level);
    assert [nodes[k]][1..] == [];
  }

  /** The size of two sibling lists together is the sum of their sizes. */
  lemma SizeAppend(xs: seq<Node>, ys: seq<Node>)
    ensures Size(xs + ys) == Size(xs) + Size(ys)
  {
    RenderAppend(xs, ys, 0);
  }

  /**
    Siblings keep their array order: node k's own entry sits at position
    Size(nodes[..k]) of the rendering, right after everything its earlier
    siblings contribute, and those positions strictly increase with k.
   */
  lemma SiblingOrder(nodes: seq<Node>, level: nat, k: nat)
    requires k < |nodes|
    ensures Size(nodes[..k]) < |Render(nodes, level)|
    ensures Render(nodes, level)[Size(nodes[..k])] == RenderNode(nodes[k], level)[0]
    ensures Render(nodes, level)[Size(nodes[..k])].name == nodes[k].name
    ensures Render(nodes, level)[Size(nodes[..k])].level == level
    ensures forall j :: 0 <= j < k ==> Size(nodes[..j]) < Size(nodes[..k])
  {
    RenderAround(nodes, level, k);
    forall j | 0 <= j < k ensures Size(nodes[..j]) < Size(nodes[..k]) {
      assert nodes[..k] == nodes[..j] + nodes[j..k];
      SizeAppend(nodes[..j], nodes[j..k]);
      assert nodes[j..k][0] == nodes[j];
    }
  }

  /**
    Depth first, pre-order: in the text of a forest that `treeToText`
    returns, node k contributes its own line at the current indentation,
    then (for a directory) the text of its children one level deeper, and
    (for a file) nothing more; before it stands the text of its earlier
    siblings and after it that of its later ones.
   */
  lemma TextAround(nodes: seq<Node>, indent: nat, k: nat)
    requires Text(nodes, indent).Some?
    requires k < |nodes|
    ensures !nodes[k].UnlistedDirectory?
    ensures Text(nodes[..k], indent).Some? && Text(nodes[k + 1..], indent).Some?
    ensures nodes[k].Directory? ==> Text(nodes[k].children, indent + 1).Some?
    ensures Text(nodes, indent).value ==
      Text(nodes[..k], indent).value + Line(nodes[k], indent)
      + (if nodes[k].Directory? then Text(nodes[k].children, indent + 1).value else "")
      + Text(nodes[k + 1..], indent).value
  {
    TextSplitAt(nodes, indent, k);
    var before, own, after := Text(nodes[..k], indent), NodeText(nodes[k], indent), Text(nodes[k + 1..], indent);
    assert before.Some? && own.Some? && after.Some?;
    NodeTextShape(nodes[k], indent);
    var line, sub := Line(nodes[k], indent), if nodes[k].Directory? then Text(nodes[k].children, indent + 1).value else "";
    assert own.value == line + sub;
    Regroup(before.value, line, sub, after.value);
  }

  lemma Regroup(p: string, q: string, r: string, t: string)
    ensures p + ((q + r) + t) == p + q + r + t
  {
  }

  /** The text of a forest around its node k: the text before, the node's own text, the text after. */
  lemma TextSplitAt(nodes: seq<Node>, indent: nat, k: nat)
    requires k < |nodes|
    ensures Text(nodes, indent) ==
      Concat(Text(nodes[..k], indent), Concat(NodeText(nodes[k], indent), Text(nodes[k + 1..], indent)))
  {
    assert nodes == nodes[..k] + ([nodes[k]] + nodes[k + 1..]);
    TextAppend(nodes[..k], [nodes[k]] + nodes[k + 1..], indent);
    TextAppend([nodes[k]], nodes[k + 1..], indent);
    TextSingleton(nodes[k], indent);
  }

  /** A node's own text, when it has one, is its line followed by (for a directory) its children's text. */
  lemma NodeTextShape(n: Node, indent: nat)
    requires NodeText(n, indent).Some?
    ensures !n.UnlistedDirectory?
    ensures n.Directory? ==> Text(n.children, indent + 1).Some?
    ensures NodeText(n, indent).value ==
      Line(n, indent) + (if n.Directory? then Text(n.children, indent + 1).value else "")
  {
  }

  /**
    `renderTree` shows a directory without a children list exactly as one
    with an empty list, while `treeToText` throws on the first and writes a
    single line for the second.
   */
  lemma UnlistedVersusEmpty(name: string, path: string, level: nat)
    ensures RenderNode(UnlistedDirectory(name, path), level) == RenderNode(Directory(name, path, []), level)
    ensures NodeText(UnlistedDirectory(name, path), level) == None
    ensures NodeText(Directory(name, path, []), level) == Some(Indent(level) + name + "\n")
  {
    var line := Line(Directory(name, path, []), level);
    assert line + "" == line;
  }

  /** A small listing: a directory's children follow its line one level deeper, then the next sibling. */
  lemma ExampleListing()
    ensures Text([Directory("src", "src", [File("a.js", "src/a.js", "u1")]), File("README.md", "README.md", "u2")], 0)
      == Some("src\n  a.js\nREADME.md\n")
  {
    var src, readme := Directory("src", "src", [File("a.js", "src/a.js", "u1")]), File("README.md", "README.md", "u2");
    ExampleDirectory();
    assert Indent(0) == "";
    assert Line(readme, 0) == "README.md\n";
    TextSingleton(readme, 0);
    assert Text([readme], 0) == Some("README.md\n");
    assert [src, readme][1..] == [readme];
    assert "src\n  a.js\n" + "README.md\n" == "src\n  a.js\nREADME.md\n";
  }

  /** The directory of the example writes its line, then its one file one level deeper. */
  lemma ExampleDirectory()
    ensures NodeText(Directory("src", "src", [File("a.js", "src/a.js", "u1")]), 0) == Some("src\n  a.js\n")
  {
    var a := File("a.js", "src/a.js", "u1");
    assert Indent(0) == "" && Indent(1) == "  ";
    assert Line(a, 1) == "  a.js\n";
    TextSingleton(a, 1);
    var src := Directory("src", "src", [a]);
    assert Line(src, 0) == "src\n";
    assert NodeText(src, 0) == Concat(Some("src\n"), Some("  a.js\n"));
    assert "src\n" + "  a.js\n" == "src\n  a.js\n";
  }
}
