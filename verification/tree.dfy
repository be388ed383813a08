/** The in-memory note tree shared by the tree builder and both renderers,
    with the pieces of rendering both renderers define identically:
    the indentation unit and the link target. */
module Tree {
  import opened Text

  /** A note (`isDirectory: false`) or a directory (`isDirectory: true`).
      `title` is the title paragraph; `description` is the description
      paragraph, where the empty string stands for both an absent and an
      empty one (both are falsy in JavaScript). */
  datatype TreeNode =
    | FileNode(filename: string, title: string, description: string)
    | DirectoryNode(filename: string, title: string, description: string, children: seq<TreeNode>)

  /** Number of nodes in a forest, descendants included. */
  function NodeCount(tree: seq<TreeNode>): nat
    decreases tree
  {
    if tree == [] then 0
    else
      1 + (if tree[0].DirectoryNode? then NodeCount(tree[0].children) else 0)
        + NodeCount(tree[1..])
  }

  /** A node reached by a pre-order walk, with the filenames of its ancestors
      and its nesting depth. */
  datatype Visit = Visit(node: TreeNode, parents: seq<string>, depth: nat)

  /** The pre-order walk of a forest whose roots sit below `parents` at
      nesting depth `depth`: a node comes right before its descendants, and
      siblings keep their order. */
  function Walk(tree: seq<TreeNode>, parents: seq<string>, depth: nat): (visits: seq<Visit>)
    ensures |visits| == NodeCount(tree)
    ensures forall k :: 0 <= k < |visits| ==>
      visits[k].depth >= depth && |visits[k].parents| == |parents| + visits[k].depth - depth
    decreases tree
  {
    if tree == [] then []
    else
      var node := tree[0];
      var below :=
        if node.DirectoryNode? then Walk(node.children, parents + [node.filename], depth + 1)
        else [];
      [Visit(node, parents, depth)] + below + Walk(tree[1..], parents, depth)
  }

  /** Prefix every line with `prefix` (`lines.map(line => prefix + line)`). */
  function Indent(prefix: string, lines: seq<string>): (r: seq<string>)
    ensures |r| == |lines|
    ensures forall k :: 0 <= k < |lines| ==> r[k] == prefix + lines[k]
  {
    seq(|lines|, k requires 0 <= k < |lines| => prefix + lines[k])
  }

  lemma IndentConcat(prefix: string, a: seq<string>, b: seq<string>)
    ensures Indent(prefix, a + b) == Indent(prefix, a) + Indent(prefix, b)
  {
    var l, r := Indent(prefix, a + b), Indent(prefix, a) + Indent(prefix, b);
    forall k | 0 <= k < |l| ensures l[k] == r[k] {
      if k < |a| {
        assert (a + b)[k] == a[k];
      } else {
        assert (a + b)[k] == b[k - |a|];
      }
    }
  }

  lemma IndentTwice(outer: string, inner: string, lines: seq<string>)
    ensures Indent(outer, Indent(inner, lines)) == Indent(outer + inner, lines)
  {
    forall k | 0 <= k < |lines| ensures outer + (inner + lines[k]) == (outer + inner) + lines[k] {
    }
  }

  lemma IndentEmpty(lines: seq<string>)
    ensures Indent("", lines) == lines
  {
    forall k | 0 <= k < |lines| ensures Indent("", lines)[k] == lines[k] {
      assert "" + lines[k] == lines[k];
    }
  }

  /** `n + 1` copies of a unit are `n` copies followed by one more. */
  lemma {:induction false} RepeatSnoc(unit: string, n: nat)
    ensures Repeat(unit, n) + unit == Repeat(unit, n + 1)
  {
    if n > 0 {
      RepeatSnoc(unit, n - 1);
      assert Repeat(unit, n) + unit == unit + (Repeat(unit, n - 1) + unit);
    }
  }

  /** One level of list indentation: a tab, or four spaces. */
  function IndentationUnit(useTabs: bool): (unit: string)
    ensures |unit| > 0
  {
    if useTabs then "\t" else Repeat(" ", 4)
  }

  /** The unit is one tab, or exactly four spaces. */
  lemma IndentationUnitShape(useTabs: bool)
    ensures useTabs ==> IndentationUnit(useTabs) == "\t"
    ensures !useTabs ==> |IndentationUnit(useTabs)| == 4
                         && forall k :: 0 <= k < 4 ==> IndentationUnit(useTabs)[k] == ' '
  {
    if !useTabs {
      assert Repeat(" ", 4) == "    ";
    }
  }

  /** Joining one more part appends the separator and the part. */
  lemma {:induction false} JoinSnoc(parts: seq<string>, last: string, sep: string)
    requires |parts| > 0
    ensures Join(parts + [last], sep) == Join(parts, sep) + sep + last
  {
    if |parts| > 1 {
      assert (parts + [last])[1..] == parts[1..] + [last];
      JoinSnoc(parts[1..], last, sep);
    } else {
      assert (parts + [last])[1..] == [last];
    }
  }

  /** `getLinkTargetForTreeNode`: the ancestor filenames and the node's own
      filename joined by "/", with "/README.md" appended to a directory when
      subdirectory readmes are linked. So a node's target is its parent's
      plain target, a "/" and its own filename, and a top-level node links
      to its filename. */
  function LinkTarget(node: TreeNode, parentParts: seq<string>, linkToSubdirectoryReadme: bool): (target: string)
    ensures var suffix := if node.DirectoryNode? && linkToSubdirectoryReadme then "/README.md" else "";
      target == (if parentParts == [] then node.filename
                 else Join(parentParts, "/") + "/" + node.filename) + suffix
  {
    var path := Join(parentParts + [node.filename], "/");
    assert parentParts != [] ==> path == Join(parentParts, "/") + "/" + node.filename by {
      if parentParts != [] {
        JoinSnoc(parentParts, node.filename, "/");
      }
    }
    if node.DirectoryNode? && linkToSubdirectoryReadme then path + "/README.md" else path
  }
}
