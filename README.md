# Repository tree text export, modelled in Dafny

The `Tree` component of gittree shows the file hierarchy of a GitHub
repository and offers a "Copy Tree" button. The hierarchy arrives from the
contents endpoint as an ordered forest. Each node is either a directory,
with `type: 'directory'` and a `children` array, or a file, with a
`download_url`. This project models the logic of `components/Tree.js` that
can be stated and proved:

- `treeToText` walks the forest depth first, in pre-order. It writes one
  line per node: two spaces per level of depth, then the node's name, then
  `\n`. For a directory it then writes the children's text one level
  deeper.
- `copyToClipboard` does nothing while no tree data has arrived.
- `renderTree` guards its recursion into a directory's children.

Files:

- `lines.dfy` (module `Lines`): the indentation and the line helpers that
  state results about the text. These are newline counting and splitting a
  text into lines.
- `tree.dfy` (module `Tree`): the `Node` datatype and the specification
  functions. `Text` and `NodeText` give what `treeToText` returns. `Render`
  and `RenderNode` give the entries `renderTree` displays, in document
  order. `Size` counts nodes. `Listed` says that every directory carries a
  children list.
- `tree_facts.dfy` (module `TreeFacts`): the properties of the text,
  proved by induction over the forest.
- `tree_export.dfy` (module `TreeExport`): `treeToText` as a recursive
  method with a loop over the siblings, proved equal to `Text`, and
  `copyToClipboard`.

Some behaviour of the code as written is worth stating plainly:

- The component keeps no expanded, collapsed or fetched flag on a
  directory. Every directory's subtree is written, at every depth.
- The expression that picks a directory or file marker evaluates to `''`
  in both branches. So a directory line and a file line have the same
  form.
- Every line, the last one included, ends in `\n`.
- Siblings are written in array order. Nothing sorts them, and nothing
  puts directories first.
- `treeToText` iterates `node.children` without a guard. A directory
  object without a `children` array makes it throw a TypeError, and then
  nothing is copied. The model keeps this case as the constructor
  `UnlistedDirectory`, and `Text` returns `None` for it. `renderTree`
  checks `node.children && node.children.length > 0`. It shows such a
  directory exactly as it shows one with an empty list.

## Model

| member | source | states |
|---|---|---|
| `Lines.Indent` | components/Tree.js:66 | `'  '.repeat(indent)`: exactly `2 * indent` characters, all spaces |
| `Tree.Line` | components/Tree.js:66 | the line for a node is its indentation, then its name, then `\n`; the directory/file marker is empty in both branches, so directory and file lines have one form |
| `Tree.Render` | components/Tree.js:38-60 | `renderTree` shows one entry per node of the forest (`Size(nodes)` of them); no entry is shallower than the starting level |
| `Tree.RenderNode` | components/Tree.js:41-55 | a node's entries start with its own entry at the current level and with its name; all later entries (its children, rendered only when the list is present and non-empty, line 49) are deeper |
| `Tree.Marker` | components/Tree.js:66 | the marker `node.type === 'directory' ? '' : ''` is the empty text for a directory and for a file alike |
| `Tree.Text` | components/Tree.js:63-72 | the text `treeToText` returns: the empty text for an empty list, and `None` (the source throws a TypeError) whenever a directory in the list has no children list; a failure anywhere in the loop is a failure of the whole (`Concat`) |
| `Tree.NodeText` | components/Tree.js:66-69 | what one iteration appends: a file gives exactly its own line; a directory without a children list gives `None`; a listed directory gives its line, then its children's text one level deeper |
| `TreeFacts.NodeTextShape` | components/Tree.js:66-69 | whenever one iteration does not throw, the node is not an unlisted directory and it appends exactly its line, followed, for a directory, by its children's text at `indent + 1` |
| `TreeExport.TreeToText` | components/Tree.js:63-72 | the loop's accumulated text equals `Text`; the result is defined exactly when every directory carries a children list; an empty list gives the empty text |
| `TreeExport.TextStep` | components/Tree.js:65-69 | one iteration of the loop appends exactly the next node's text to what the earlier iterations built |
| `TreeExport.PrefixFailure` | components/Tree.js:68 | once a node's children make the loop throw, the whole call throws, whatever the later siblings are |
| `TreeExport.CopyToClipboard` | components/Tree.js:75-88 | with no tree data nothing is copied; otherwise the text handed to the clipboard is `Text(treeData, 0)`, present exactly when every directory carries its children; an empty forest copies the empty text |
| `TreeFacts.TextAppend` | components/Tree.js:64-71 | distributivity: the text of `xs + ys` is the text of `xs` followed by the text of `ys`, and it fails if either part fails |
| `TreeFacts.TextDefinedIffListed` | components/Tree.js:65-69 | `treeToText` returns rather than throws if and only if every directory in the forest, at every depth, carries a children list |
| `TreeFacts.NodeTextDefinedIffListed` | components/Tree.js:66-69 | the same, for one node and its subtree |
| `TreeFacts.TextIsRenderedEntries` | components/Tree.js:63-72 | whenever the text exists, it is the entries `renderTree` shows for the same forest, one line each, indented two spaces per level |
| `TreeFacts.NodeTextIsRenderedEntries` | components/Tree.js:66-69 | the same, for one node: its line, then its children's lines one level deeper |
| `TreeFacts.TextLines` | components/Tree.js:63-72 | with one-line names, the text has exactly one `\n` per node of the forest and splits into one line per node; line k is the k-th rendered entry's name, indented by exactly two spaces per level |
| `TreeFacts.RenderAppend` | components/Tree.js:41-57 | rendering a sibling list placed after another is rendering each in turn |
| `TreeFacts.RenderAround` | components/Tree.js:41-57 | node k's entries sit between all entries of its earlier siblings and all entries of its later siblings |
| `TreeFacts.SiblingOrder` | components/Tree.js:41-57 | node k's own entry sits at position `Size(nodes[..k])`, with its name and the current level, and these positions strictly increase with k: array order is kept |
| `TreeFacts.TextAround` | components/Tree.js:65-69 | pre-order: node k's line follows all its earlier siblings' text and is followed by its children's text one level deeper (nothing for a file), then by its later siblings' text; a returned text has no unlisted directory |
| `TreeFacts.UnlistedVersusEmpty` | components/Tree.js:49-68 | `renderTree` shows a directory with no children list like one with an empty list, but `treeToText` throws on the first and writes a single line for the second |
| `TreeFacts.ExampleListing` | components/Tree.js:63-72 | a concrete forest, directory `src` holding `a.js` followed by file `README.md`, serialises to the lines `src`, `  a.js`, `README.md`, each ending in `\n` |

## Left out

- The `useEffect` fetch of `/api/github/{owner}/{repo}/contents`, and the
  `loading`, `error` and `treeData` state it sets (components/Tree.js:11-35).
  These are network I/O and React state. The tree data reaches
  `CopyToClipboard` as a parameter instead.
- `navigator.clipboard.writeText`, its caught failure, the `copied` flag
  and its `setTimeout` reset (components/Tree.js:79-87). These are a
  browser API and a timer. `CopyToClipboard` returns the text it would
  hand to the clipboard.
- The JSX that `renderTree` and the component produce. This covers the
  `<ul>`/`<li>` markup, the list keys, CSS classes, link attributes, the
  loading, error and "No data" screens, and the button's `disabled` state.
  Only the order, depth, label and link target of each shown entry are
  modelled.
- The server-side recursive listing in
  `pages/api/github/[owner]/[repo]/contents.js`, the repository list API,
  authentication and the pages. None of it is part of this model. They
  are a foreign library (Octokit), HTTP plumbing and page chrome.
- Lazy expansion: locating a node by path, copy-on-write updates of
  children or of an expanded flag, tracking fetches in flight, discarding
  stale results. The component contains none of this. It renders and
  serialises the whole tree it was given.
- Node objects of other shapes (a missing `name`, which JavaScript would
  print as `undefined`) are not modelled. The `name`, `path` and
  `download_url` fields are strings.
- `TreeFacts.TextLines`: holds only when no name contains a newline
  (`OneLineNames`). Git allows such names, and the component would then
  write more than one line for one node. The other lemmas hold for all
  names.
