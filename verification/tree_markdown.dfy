/** `src/tree-markdown-generator.js`: the renderer that shows descriptions.
    A node's text is the bullet with its link, optionally followed by the
    node's description, inline or on a continuation line; that text is split
    at the line terminator and all of its lines are indented with the node. */
module TreeMarkdown {
  import opened Text
  import opened Tree
  import opened Collaborators
  import FileContents

  /** The parts of the environment the renderer reads. */
  datatype Environment = Environment(
    endOfLine: string,
    useTabs: bool,
    linkToSubdirectoryReadme: bool,
    subdirectoryDescriptionOnNewLine: bool,
    markdown: InlineMarkdown)

  /** `getLinkParagraphTextForTreeNode`: a directory's title paragraph with
      its strong emphasis removed and the whole made strong; a note's title
      paragraph as it is. */
  function LinkParagraphText(node: TreeNode, markdown: InlineMarkdown): (text: string)
    ensures node.FileNode? ==> text == node.title
    ensures node.DirectoryNode? ==>
      |text| == |markdown.removeStrong(node.title)| + 4 && StartsWith(text, "**") && EndsWith(text, "**")
      && text[2..|text| - 2] == markdown.removeStrong(node.title)
  {
    if node.DirectoryNode? then "**" + markdown.removeStrong(node.title) + "**" else node.title
  }

  /** When removing strong emphasis leaves the title as it is, this renderer
      shows the same link text as the plain one. */
  lemma LinkTextsAgree(node: TreeNode, markdown: InlineMarkdown)
    requires markdown.removeStrong(node.title) == node.title
    ensures LinkParagraphText(node, markdown) == FileContents.LinkText(node)
  {
  }

  /** The bullet: "- " followed by the link the inline-markdown helper builds. */
  function BasicLine(node: TreeNode, parentParts: seq<string>, env: Environment): string {
    "- " + env.markdown.link(LinkParagraphText(node, env.markdown),
                             LinkTarget(node, parentParts, env.linkToSubdirectoryReadme))
  }

  /** `getDescriptionSeparator`: a hard line break (two spaces and the line
      terminator) plus one indentation unit, or " - ". */
  function DescriptionSeparator(env: Environment): (separator: string)
    ensures LineTerminator(env.endOfLine) ==>
      (Contains(separator, env.endOfLine) <==> env.subdirectoryDescriptionOnNewLine)
  {
    if env.subdirectoryDescriptionOnNewLine then
      var separator := "  " + env.endOfLine + IndentationUnit(env.useTabs);
      assert OccursAt(separator, env.endOfLine, 2);
      separator
    else
      assert LineTerminator(env.endOfLine) ==> !Contains(" - ", env.endOfLine) by {
        if LineTerminator(env.endOfLine) {
          forall p | 0 <= p <= 3 - |env.endOfLine| ensures !OccursAt(" - ", env.endOfLine, p) {
            assert " - "[p] != env.endOfLine[0];
          }
        }
      }
      " - "
  }

  /** `getMarkdownForTreeNode`: the bullet, then the description behind the
      separator when there is a non-empty one. */
  function MarkdownForTreeNode(node: TreeNode, parentParts: seq<string>, env: Environment): (text: string)
    ensures StartsWith(text, BasicLine(node, parentParts, env))
    ensures EndsWith(text, node.description)
    ensures node.description == "" <==> text == BasicLine(node, parentParts, env)
    ensures node.description != "" ==>
      |text| == |BasicLine(node, parentParts, env)| + |DescriptionSeparator(env)| + |node.description|
      && text[|BasicLine(node, parentParts, env)|..|text| - |node.description|] == DescriptionSeparator(env)
  {
    var basicLine := BasicLine(node, parentParts, env);
    if node.description != "" then
      var separator := DescriptionSeparator(env);
      var text := basicLine + separator + node.description;
      assert text[..|basicLine|] == basicLine;
      assert text[|text| - |node.description|..] == node.description;
      assert text[|basicLine|..|text| - |node.description|] == separator;
      text
    else
      basicLine
  }

  /** The physical lines of one node's text. */
  function NodeLines(node: TreeNode, parentParts: seq<string>, env: Environment): seq<string> {
    Split(MarkdownForTreeNode(node, parentParts, env), env.endOfLine)
  }

  /** `getMarkdownLinesForTree`: every node contributes the lines of its text,
      followed, for a directory, by the lines of its children one
      indentation unit deeper. */
  function MarkdownLinesForTree(tree: seq<TreeNode>, parentParts: seq<string>, env: Environment): (lines: seq<string>)
    ensures tree == [] ==> lines == []
    ensures |env.endOfLine| > 0 ==> |lines| >= |tree|
    decreases tree
  {
    if tree == [] then []
    else
      var node := tree[0];
      var nested :=
        if node.DirectoryNode? then
          Indent(IndentationUnit(env.useTabs), MarkdownLinesForTree(node.children, parentParts + [node.filename], env))
        else [];
      NodeLines(node, parentParts, env) + nested + MarkdownLinesForTree(tree[1..], parentParts, env)
  }

  /** `getMarkdownForTree`: the lines joined by the line terminator. */
  function MarkdownForTree(tree: seq<TreeNode>, env: Environment): (md: string)
    ensures tree == [] ==> md == ""
  {
    Join(MarkdownLinesForTree(tree, [], env), env.endOfLine)
  }

  // ------------------------------------------------------------- reference

  /** Reference rendering: the lines of every visited node's text, each
      prefixed with as many indentation units as the node's depth. */
  function Outline(visits: seq<Visit>, env: Environment): seq<string> {
    if visits == [] then []
    else
      Indent(Repeat(IndentationUnit(env.useTabs), visits[0].depth),
             NodeLines(visits[0].node, visits[0].parents, env))
        + Outline(visits[1..], env)
  }

  lemma {:induction false} OutlineConcat(a: seq<Visit>, b: seq<Visit>, env: Environment)
    ensures Outline(a + b, env) == Outline(a, env) + Outline(b, env)
  {
    if a != [] {
      assert (a + b)[1..] == a[1..] + b;
      OutlineConcat(a[1..], b, env);
    } else {
      assert a + b == b;
    }
  }

  lemma OutlineOne(v: Visit, env: Environment)
    ensures Outline([v], env)
         == Indent(Repeat(IndentationUnit(env.useTabs), v.depth), NodeLines(v.node, v.parents, env))
  {
    assert Outline([v], env)
        == Indent(Repeat(IndentationUnit(env.useTabs), v.depth), NodeLines(v.node, v.parents, env)) + Outline([], env);
  }

  /** Indenting by `depth` units lines already indented by one unit
      indents them by `depth + 1` units. */
  lemma IndentOneDeeper(unit: string, depth: nat, lines: seq<string>)
    ensures Indent(Repeat(unit, depth), Indent(unit, lines)) == Indent(Repeat(unit, depth + 1), lines)
  {
    IndentTwice(Repeat(unit, depth), unit, lines);
    RepeatSnoc(unit, depth);
  }

  /** Rendering a forest at depth `depth`, indented by `depth` units, is the
      reference rendering of its pre-order walk: every physical line of a
      node's text, continuation lines included, carries exactly one unit per
      nesting level. */
  lemma {:induction false} MarkdownLinesFollowWalk(tree: seq<TreeNode>, parentParts: seq<string>, depth: nat,
                                                   env: Environment)
    ensures Indent(Repeat(IndentationUnit(env.useTabs), depth), MarkdownLinesForTree(tree, parentParts, env))
         == Outline(Walk(tree, parentParts, depth), env)
    decreases tree
  {
    if tree != [] {
      var unit := IndentationUnit(env.useTabs);
      var prefix := Repeat(unit, depth);
      var node := tree[0];
      var own := NodeLines(node, parentParts, env);
      var rest := MarkdownLinesForTree(tree[1..], parentParts, env);
      var here := [Visit(node, parentParts, depth)];
      var restVisits := Walk(tree[1..], parentParts, depth);
      MarkdownLinesFollowWalk(tree[1..], parentParts, depth, env);
      OutlineOne(Visit(node, parentParts, depth), env);
      var nested, below;
      if node.DirectoryNode? {
        var childParts := parentParts + [node.filename];
        var children := MarkdownLinesForTree(node.children, childParts, env);
        below := Walk(node.children, childParts, depth + 1);
        nested := Indent(unit, children);
        MarkdownLinesFollowWalk(node.children, childParts, depth + 1, env);
        IndentOneDeeper(unit, depth, children);
      } else {
        below := [];
        nested := [];
      }
      assert Indent(prefix, nested) == Outline(below, env);
      assert MarkdownLinesForTree(tree, parentParts, env) == own + nested + rest;
      assert Walk(tree, parentParts, depth) == here + below + restVisits;
      IndentConcat(prefix, own + nested, rest);
      IndentConcat(prefix, own, nested);
      OutlineConcat(here + below, restVisits, env);
      OutlineConcat(here, below, env);
    }
  }

  /** The rendered tree is the reference rendering of its pre-order walk,
      joined by the line terminator. */
  lemma MarkdownForTreeIsOutline(tree: seq<TreeNode>, env: Environment)
    ensures MarkdownForTree(tree, env) == Join(Outline(Walk(tree, [], 0), env), env.endOfLine)
  {
    MarkdownLinesFollowWalk(tree, [], 0, env);
    IndentEmpty(MarkdownLinesForTree(tree, [], env));
  }

  // ------------------------------------------------------------ line counts

  /** Neither the bullet nor the description of a node holds the line terminator. */
  predicate SingleLineNode(node: TreeNode, parentParts: seq<string>, env: Environment) {
    !Contains(BasicLine(node, parentParts, env), env.endOfLine) && !Contains(node.description, env.endOfLine)
  }

  /** Every node of the forest is a `SingleLineNode`. */
  predicate SingleLineTexts(tree: seq<TreeNode>, parentParts: seq<string>, env: Environment)
    decreases tree
  {
    tree == []
    || (SingleLineNode(tree[0], parentParts, env)
        && (tree[0].DirectoryNode? ==> SingleLineTexts(tree[0].children, parentParts + [tree[0].filename], env))
        && SingleLineTexts(tree[1..], parentParts, env))
  }

  /** Number of nodes with a non-empty description, descendants included. */
  function DescribedCount(tree: seq<TreeNode>): nat
    decreases tree
  {
    if tree == [] then 0
    else
      (if tree[0].description != "" then 1 else 0)
        + (if tree[0].DirectoryNode? then DescribedCount(tree[0].children) else 0)
        + DescribedCount(tree[1..])
  }

  lemma SplitOne(a: string, eol: string)
    requires LineTerminator(eol) && !Contains(a, eol)
    ensures Split(a, eol) == [a]
  {
    LineTerminatorAnchored(eol);
    SplitJoin([a], eol);
  }

  lemma SplitTwo(a: string, b: string, eol: string)
    requires LineTerminator(eol) && !Contains(a, eol) && !Contains(b, eol)
    ensures Split(a + eol + b, eol) == [a, b]
  {
    LineTerminatorAnchored(eol);
    assert Join([a, b], eol) == a + eol + b;
    SplitJoin([a, b], eol);
  }

  /** The lines of one node whose pieces hold no line terminator: the bullet
      alone; the bullet with " - " and the description; or the bullet with
      its two trailing spaces, then the description after one indentation
      unit on a line of its own. */
  lemma NodeTextLines(node: TreeNode, parentParts: seq<string>, env: Environment)
    requires LineTerminator(env.endOfLine)
    requires SingleLineNode(node, parentParts, env)
    ensures NodeLines(node, parentParts, env) ==
      var basicLine := BasicLine(node, parentParts, env);
      if node.description == "" then [basicLine]
      else if env.subdirectoryDescriptionOnNewLine then
        [basicLine + "  ", IndentationUnit(env.useTabs) + node.description]
      else [basicLine + " - " + node.description]
  {
    var eol := env.endOfLine;
    var basicLine := BasicLine(node, parentParts, env);
    var d := node.description;
    var text := MarkdownForTreeNode(node, parentParts, env);
    if d == "" {
      SplitOne(basicLine, eol);
    } else if env.subdirectoryDescriptionOnNewLine {
      var unit := IndentationUnit(env.useTabs);
      NoNewlineNoTerminator("  ", eol);
      ConcatWithoutTerminator(basicLine, "  ", eol);
      IndentationUnitShape(env.useTabs);
      NoNewlineNoTerminator(unit, eol);
      ConcatWithoutTerminator(unit, d, eol);
      assert text == basicLine + ("  " + eol + unit) + d;
      assert text == (basicLine + "  ") + eol + (unit + d);
      SplitTwo(basicLine + "  ", unit + d, eol);
    } else {
      NoNewlineNoTerminator(" - ", eol);
      ConcatWithoutTerminator(basicLine, " - ", eol);
      ConcatWithoutTerminator(basicLine + " - ", d, eol);
      assert text == basicLine + " - " + d;
      SplitOne(text, eol);
    }
  }

  /** When no node's pieces hold the line terminator, the rendering has one
      line per node, plus one per described node when descriptions go on a
      line of their own. */
  lemma {:induction false} LineCount(tree: seq<TreeNode>, parentParts: seq<string>, env: Environment)
    requires LineTerminator(env.endOfLine)
    requires SingleLineTexts(tree, parentParts, env)
    ensures |MarkdownLinesForTree(tree, parentParts, env)|
         == NodeCount(tree) + (if env.subdirectoryDescriptionOnNewLine then DescribedCount(tree) else 0)
    decreases tree
  {
    if tree != [] {
      var node := tree[0];
      NodeTextLines(node, parentParts, env);
      if node.DirectoryNode? {
        LineCount(node.children, parentParts + [node.filename], env);
      }
      LineCount(tree[1..], parentParts, env);
    }
  }
}
