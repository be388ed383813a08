/** `src/file-contents.js`: reading a note's title from its first line,
    rendering a tree as a nested bullet list of links, splicing that list
    between two markers of the main README, and generating a directory
    README. */
module FileContents {
  import opened Results
  import opened Text
  import opened Tree

  // ------------------------------------------------------------------ titles

  predicate IsLineBreak(c: char) {
    c == '\r' || c == '\n'
  }

  predicate NoLineBreak(s: string) {
    forall k :: 0 <= k < |s| ==> !IsLineBreak(s[k])
  }

  /** The text before the first "\r" or "\n": the first element of
      `contents.split(/\r\n|\r|\n/, 1)`, for CRLF, CR and LF alike. */
  function FirstLine(contents: string): (line: string)
    ensures StartsWith(contents, line)
    ensures NoLineBreak(line)
    ensures |line| < |contents| ==> IsLineBreak(contents[|line|])
  {
    if |contents| == 0 || IsLineBreak(contents[0]) then ""
    else
      var tail := FirstLine(contents[1..]);
      assert contents[..1 + |tail|] == [contents[0]] + contents[1..][..|tail|];
      [contents[0]] + tail
  }

  /** A break-free text followed by a line break (or by nothing) is the first line. */
  lemma FirstLineOf(first: string, rest: string)
    requires NoLineBreak(first)
    requires |rest| == 0 || IsLineBreak(rest[0])
    ensures FirstLine(first + rest) == first
  {
    var s := first + rest;
    var line := FirstLine(s);
    assert forall k :: 0 <= k < |first| ==> s[k] == first[k];
    assert |rest| > 0 ==> s[|first|] == rest[0];
    assert |line| == |first|;
    assert line == s[..|first|] == first;
  }

  /** `getTitleFromMarkdownContents`: the first line without its leading
      "# ", or `undefined` when the first line does not start with "# ". */
  function TitleFromMarkdownContents(contents: string): (title: Option<string>)
    ensures title.Some? <==> StartsWith(contents, "# ")
    ensures title.Some? ==> NoLineBreak(title.value) && StartsWith(contents, "# " + title.value)
    ensures title.Some? && |title.value| + 2 < |contents| ==> IsLineBreak(contents[|title.value| + 2])
  {
    var firstLine := FirstLine(contents);
    assert StartsWith(contents, "# ") ==> !IsLineBreak(contents[0]) && !IsLineBreak(contents[1]);
    assert StartsWith(contents, "# ") ==> |firstLine| >= 2;
    if StartsWith(firstLine, "# ") then
      assert firstLine == "# " + firstLine[2..];
      Some(firstLine[2..])
    else
      None
  }

  /** The title depends on the first line only, whichever line break ends it:
      it is that line minus "# ", or nothing. */
  lemma TitleOfFirstLine(first: string, rest: string)
    requires NoLineBreak(first)
    requires |rest| == 0 || IsLineBreak(rest[0])
    ensures TitleFromMarkdownContents(first + rest) ==
      (if StartsWith(first, "# ") then Some(first[2..]) else None)
  {
    FirstLineOf(first, rest);
  }

  /** Writing a heading and reading it back gives the heading text, whether
      the line ends in "\r\n", "\r", "\n" or the end of the file. */
  lemma TitleRoundTrip(t: string, rest: string)
    requires NoLineBreak(t)
    requires |rest| == 0 || IsLineBreak(rest[0])
    ensures TitleFromMarkdownContents("# " + t + rest) == Some(t)
  {
    var first := "# " + t;
    assert forall k :: 2 <= k < |first| ==> first[k] == t[k - 2];
    assert first[2..] == t;
    TitleOfFirstLine(first, rest);
  }

  // --------------------------------------------------------- tree rendering

  /** `getLinkTextForTreeNode`: a directory's title is shown in bold; a
      note's title as it is. Either way the title reads back from between
      the markers. */
  function LinkText(node: TreeNode): (text: string)
    ensures node.FileNode? ==> text == node.title
    ensures node.DirectoryNode? ==>
      |text| == |node.title| + 4 && StartsWith(text, "**") && EndsWith(text, "**")
      && text[2..|text| - 2] == node.title
  {
    if node.DirectoryNode? then "**" + node.title + "**" else node.title
  }

  /** `getMarkdownLineForTreeNode`: "- [text](target)"; the link text and the
      target read back from their places in the line. */
  function MarkdownLineForTreeNode(node: TreeNode, parentParts: seq<string>, linkToSubdirectoryReadme: bool)
    : (line: string)
    ensures var text, target := LinkText(node), LinkTarget(node, parentParts, linkToSubdirectoryReadme);
            |line| == |text| + |target| + 6 && StartsWith(line, "- [") && EndsWith(line, ")")
            && line[3..3 + |text|] == text && line[3 + |text|..5 + |text|] == "]("
            && line[5 + |text|..|line| - 1] == target
  {
    var text, target := LinkText(node), LinkTarget(node, parentParts, linkToSubdirectoryReadme);
    var line := "- [" + text + "](" + target + ")";
    assert line[..3] == "- [" && line[|line| - 1..] == ")";
    assert line[3..3 + |text|] == text;
    assert line[3 + |text|..5 + |text|] == "](";
    assert line[5 + |text|..|line| - 1] == target;
    line
  }

  /** A bullet is one physical line when neither the title nor the link
      target holds the line terminator, so joining bullets with the
      terminator keeps one line per node. */
  lemma MarkdownLineStaysOnOneLine(node: TreeNode, parentParts: seq<string>, linkToSubdirectoryReadme: bool,
                                   eol: string)
    requires LineTerminator(eol)
    requires !Contains(node.title, eol)
    requires !Contains(LinkTarget(node, parentParts, linkToSubdirectoryReadme), eol)
    ensures !Contains(MarkdownLineForTreeNode(node, parentParts, linkToSubdirectoryReadme), eol)
  {
    var target := LinkTarget(node, parentParts, linkToSubdirectoryReadme);
    NoNewlineNoTerminator("**", eol);
    NoNewlineNoTerminator("- [", eol);
    NoNewlineNoTerminator("](", eol);
    NoNewlineNoTerminator(")", eol);
    var text := LinkText(node);
    if node.DirectoryNode? {
      ConcatWithoutTerminator("**", node.title, eol);
      ConcatWithoutTerminator("**" + node.title, "**", eol);
      assert text == "**" + node.title + "**";
    }
    assert !Contains(text, eol);
    ConcatWithoutTerminator("- [", text, eol);
    ConcatWithoutTerminator("- [" + text, "](", eol);
    ConcatWithoutTerminator("- [" + text + "](", target, eol);
    ConcatWithoutTerminator("- [" + text + "](" + target, ")", eol);
  }

  /** `getMarkdownLinesForTree`: one bullet per node; the lines of a
      directory's children follow it, one indentation unit deeper. */
  function MarkdownLinesForTree(tree: seq<TreeNode>, parentParts: seq<string>,
                                linkToSubdirectoryReadme: bool, useTabs: bool): (lines: seq<string>)
    ensures |lines| == NodeCount(tree)
    decreases tree
  {
    if tree == [] then []
    else
      var node := tree[0];
      var own := [MarkdownLineForTreeNode(node, parentParts, linkToSubdirectoryReadme)];
      var nested :=
        if node.DirectoryNode? then
          Indent(IndentationUnit(useTabs),
                 MarkdownLinesForTree(node.children, parentParts + [node.filename], linkToSubdirectoryReadme, useTabs))
        else [];
      own + nested + MarkdownLinesForTree(tree[1..], parentParts, linkToSubdirectoryReadme, useTabs)
  }

  /** `getMarkdownForTree`: the lines joined by the line terminator. */
  function MarkdownForTree(tree: seq<TreeNode>, endOfLine: string,
                           linkToSubdirectoryReadme: bool, useTabs: bool): (md: string)
    ensures tree == [] ==> md == ""
  {
    Join(MarkdownLinesForTree(tree, [], linkToSubdirectoryReadme, useTabs), endOfLine)
  }

  /** Reference rendering: for every visit of the pre-order walk, `depth`
      indentation units followed by the node's bullet. */
  function Outline(visits: seq<Visit>, linkToSubdirectoryReadme: bool, useTabs: bool): (lines: seq<string>)
    ensures |lines| == |visits|
  {
    seq(|visits|, k requires 0 <= k < |visits| =>
      Repeat(IndentationUnit(useTabs), visits[k].depth)
        + MarkdownLineForTreeNode(visits[k].node, visits[k].parents, linkToSubdirectoryReadme))
  }

  lemma OutlineConcat(a: seq<Visit>, b: seq<Visit>, linkToSubdirectoryReadme: bool, useTabs: bool)
    ensures Outline(a + b, linkToSubdirectoryReadme, useTabs)
         == Outline(a, linkToSubdirectoryReadme, useTabs) + Outline(b, linkToSubdirectoryReadme, useTabs)
  {
    var l := Outline(a + b, linkToSubdirectoryReadme, useTabs);
    var r := Outline(a, linkToSubdirectoryReadme, useTabs) + Outline(b, linkToSubdirectoryReadme, useTabs);
    forall k | 0 <= k < |l| ensures l[k] == r[k] {
      if k < |a| {
        assert (a + b)[k] == a[k];
      } else {
        assert (a + b)[k] == b[k - |a|];
      }
    }
  }

  /** Rendering a forest whose roots sit at depth `depth` and prefixing every
      line with `depth` units gives, line for line, the reference rendering
      of its pre-order walk: each node is on its own line, preceded by as
      many units as it has ancestors below the roots' level plus `depth`. */
  lemma {:induction false} MarkdownLinesFollowWalk(tree: seq<TreeNode>, parentParts: seq<string>, depth: nat,
                                                   linkToSubdirectoryReadme: bool, useTabs: bool)
    ensures Indent(Repeat(IndentationUnit(useTabs), depth),
                   MarkdownLinesForTree(tree, parentParts, linkToSubdirectoryReadme, useTabs))
         == Outline(Walk(tree, parentParts, depth), linkToSubdirectoryReadme, useTabs)
    decreases tree, 1
  {
    if tree != [] {
      var prefix := Repeat(IndentationUnit(useTabs), depth);
      var node := tree[0];
      var own := [MarkdownLineForTreeNode(node, parentParts, linkToSubdirectoryReadme)];
      var nested := NestedLines(node, parentParts, linkToSubdirectoryReadme, useTabs);
      var rest := MarkdownLinesForTree(tree[1..], parentParts, linkToSubdirectoryReadme, useTabs);
      var here := [Visit(node, parentParts, depth)];
      var below := NestedVisits(node, parentParts, depth);
      var restVisits := Walk(tree[1..], parentParts, depth);
      assert MarkdownLinesForTree(tree, parentParts, linkToSubdirectoryReadme, useTabs) == own + nested + rest;
      assert Walk(tree, parentParts, depth) == here + below + restVisits;
      MarkdownLinesFollowWalk(tree[1..], parentParts, depth, linkToSubdirectoryReadme, useTabs);
      NestedLinesFollowWalk(tree, parentParts, depth, linkToSubdirectoryReadme, useTabs);
      assert Outline(here, linkToSubdirectoryReadme, useTabs) == Indent(prefix, own);
      IndentConcat(prefix, own + nested, rest);
      IndentConcat(prefix, own, nested);
      OutlineConcat(here + below, restVisits, linkToSubdirectoryReadme, useTabs);
      OutlineConcat(here, below, linkToSubdirectoryReadme, useTabs);
    }
  }

  /** The lines a node's children contribute, one unit deeper. */
  function NestedLines(node: TreeNode, parentParts: seq<string>, linkToSubdirectoryReadme: bool, useTabs: bool)
    : seq<string>
  {
    if node.DirectoryNode? then
      Indent(IndentationUnit(useTabs),
             MarkdownLinesForTree(node.children, parentParts + [node.filename], linkToSubdirectoryReadme, useTabs))
    else []
  }

  /** The visits the walk makes below a node. */
  function NestedVisits(node: TreeNode, parentParts: seq<string>, depth: nat): seq<Visit> {
    if node.DirectoryNode? then Walk(node.children, parentParts + [node.filename], depth + 1) else []
  }

  /** The first node's nested lines, prefixed with `depth` units, are the
      reference rendering of the visits below it. */
  lemma {:induction false} NestedLinesFollowWalk(tree: seq<TreeNode>, parentParts: seq<string>, depth: nat,
                                                 linkToSubdirectoryReadme: bool, useTabs: bool)
    requires tree != []
    ensures Indent(Repeat(IndentationUnit(useTabs), depth),
                   NestedLines(tree[0], parentParts, linkToSubdirectoryReadme, useTabs))
         == Outline(NestedVisits(tree[0], parentParts, depth), linkToSubdirectoryReadme, useTabs)
    decreases tree, 0
  {
    var node := tree[0];
    if node.DirectoryNode? {
      var unit := IndentationUnit(useTabs);
      var prefix := Repeat(unit, depth);
      var childParts := parentParts + [node.filename];
      var children := MarkdownLinesForTree(node.children, childParts, linkToSubdirectoryReadme, useTabs);
      MarkdownLinesFollowWalk(node.children, childParts, depth + 1, linkToSubdirectoryReadme, useTabs);
      IndentTwice(prefix, unit, children);
      RepeatSnoc(unit, depth);
    }
  }

  /** The rendered tree is the reference rendering of the pre-order walk,
      joined by the line terminator: exactly one line per node. */
  lemma MarkdownForTreeIsOutline(tree: seq<TreeNode>, endOfLine: string,
                                 linkToSubdirectoryReadme: bool, useTabs: bool)
    ensures MarkdownForTree(tree, endOfLine, linkToSubdirectoryReadme, useTabs)
         == Join(Outline(Walk(tree, [], 0), linkToSubdirectoryReadme, useTabs), endOfLine)
    ensures |Outline(Walk(tree, [], 0), linkToSubdirectoryReadme, useTabs)| == NodeCount(tree)
  {
    MarkdownLinesFollowWalk(tree, [], 0, linkToSubdirectoryReadme, useTabs);
    IndentEmpty(MarkdownLinesForTree(tree, [], linkToSubdirectoryReadme, useTabs));
  }

  // ------------------------------------------------------ main README merge

  const TreeStartMarker: string := "<!-- auto-generated notes tree starts here -->"
  const TreeEndMarker: string := "<!-- auto-generated notes tree ends here -->"
  const MarkerOrderMessage: string := "Invalid file structure: tree end marker found before tree start marker"

  /** Neither a "<" nor a line-break character. */
  predicate PlainChar(c: char) {
    c != '<' && !IsLineBreak(c)
  }

  /** A "<" followed by plain characters only: the shape of both markers. */
  predicate MarkerShaped(m: string) {
    |m| > 0 && m[0] == '<' && forall k :: 1 <= k < |m| ==> PlainChar(m[k])
  }

  predicate PlainFrom(s: string, lo: nat) {
    forall k :: lo <= k < |s| ==> PlainChar(s[k])
  }

  lemma PlainConcat(a: string, b: string, lo: nat)
    requires lo <= |a| && PlainFrom(a, lo) && PlainFrom(b, 0)
    ensures PlainFrom(a + b, lo)
  {
    forall k | lo <= k < |a + b| ensures PlainChar((a + b)[k]) {
      if k < |a| {
        assert (a + b)[k] == a[k];
      } else {
        assert (a + b)[k] == b[k - |a|];
      }
    }
  }

  lemma MarkerFromPieces(m: string, a: string, b: string, c: string, d: string, e: string)
    requires m == a + b + c + d + e && |a| > 0 && a[0] == '<'
    requires PlainFrom(a, 1) && PlainFrom(b, 0) && PlainFrom(c, 0) && PlainFrom(d, 0) && PlainFrom(e, 0)
    ensures MarkerShaped(m)
  {
    PlainConcat(a, b, 1);
    PlainConcat(a + b, c, 1);
    PlainConcat(a + b + c, d, 1);
    PlainConcat(a + b + c + d, e, 1);
  }

  /* The markers are checked in chunks of at most ten characters: the
     solver handles a short literal character by character but not a
     46-character one in a single step, and the chunk boundaries themselves
     carry no meaning. */
  lemma StartMarkerPieces()
    ensures TreeStartMarker == "<!-- auto-" + "generated" + " notes tr" + "ee starts" + " here -->"
  {
  }

  lemma EndMarkerPieces()
    ensures TreeEndMarker == "<!-- auto-" + "generated" + " notes tr" + "ee ends h" + "ere -->"
  {
  }

  /** Both markers are "<" plus plain characters. */
  lemma MarkersShaped()
    ensures MarkerShaped(TreeStartMarker) && MarkerShaped(TreeEndMarker)
  {
    StartMarkerPieces();
    EndMarkerPieces();
    assert PlainFrom("<!-- auto-", 1) && PlainFrom("generated", 0) && PlainFrom(" notes tr", 0);
    assert PlainFrom("ee starts", 0) && PlainFrom(" here -->", 0);
    assert PlainFrom("ee ends h", 0) && PlainFrom("ere -->", 0);
    MarkerFromPieces(TreeStartMarker, "<!-- auto-", "generated", " notes tr", "ee starts", " here -->");
    MarkerFromPieces(TreeEndMarker, "<!-- auto-", "generated", " notes tr", "ee ends h", "ere -->");
  }

  /** The end marker is shorter than the start marker and not a prefix of it. */
  lemma EndMarkerNotPrefixOfStart()
    ensures |TreeEndMarker| < |TreeStartMarker| && !OccursAt(TreeStartMarker, TreeEndMarker, 0)
  {
    assert TreeStartMarker[31] != TreeEndMarker[31];
    assert TreeStartMarker[..|TreeEndMarker|][31] == TreeStartMarker[31];
  }

  /** A marker cannot start at a line break, nor cover one. */
  lemma MarkerAvoidsBreak(s: string, m: string, q: int, x: int)
    requires MarkerShaped(m)
    requires 0 <= q <= x < q + |m| && x < |s| && IsLineBreak(s[x])
    ensures !OccursAt(s, m, q)
  {
    OccursAtChar(s, m, q, x);
  }

  /** Inside a marker, no other marker can start. */
  lemma MarkerAvoidsInterior(s: string, m: string, q: int)
    requires MarkerShaped(m)
    requires 0 <= q < |s| && s[q] != '<'
    ensures !OccursAt(s, m, q)
  {
    OccursAtChar(s, m, q, q);
  }

  lemma TerminatorPairIsBreaks(eol: string)
    requires LineTerminator(eol)
    ensures Repeat(eol, 2) == eol + eol
    ensures |Repeat(eol, 2)| > 0
    ensures forall k :: 0 <= k < |Repeat(eol, 2)| ==> IsLineBreak(Repeat(eol, 2)[k])
  {
  }

  /** The text kept in front of the tree: everything before the first start
      marker, or the whole text plus two line terminators when there is no
      start marker. */
  function ContentsBeforeTree(current: string, endOfLine: string): (before: string)
    ensures Contains(current, TreeStartMarker) ==>
      |before| + |TreeStartMarker| <= |current| && before == current[..|before|]
      && OccursAt(current, TreeStartMarker, |before|) && NoneBefore(current, TreeStartMarker, |before|)
    ensures !Contains(current, TreeStartMarker) ==> before == current + endOfLine + endOfLine
  {
    var indexStartMarker := IndexOf(current, TreeStartMarker);
    if indexStartMarker >= 0 then current[..indexStartMarker]
    else
      assert Repeat(endOfLine, 2) == endOfLine + endOfLine;
      current + Repeat(endOfLine, 2)
  }

  /** The text kept behind the tree: everything after the first end marker,
      or one line terminator when there is no end marker. */
  function ContentsAfterTree(current: string, endOfLine: string): (after: string)
    ensures Contains(current, TreeEndMarker) ==>
      var j := |current| - |after| - |TreeEndMarker|;
      0 <= j && OccursAt(current, TreeEndMarker, j) && NoneBefore(current, TreeEndMarker, j)
      && after == current[j + |TreeEndMarker|..]
    ensures !Contains(current, TreeEndMarker) ==> after == endOfLine
  {
    var indexEndMarker := IndexOf(current, TreeEndMarker);
    if indexEndMarker >= 0 then current[indexEndMarker + |TreeEndMarker|..] else endOfLine
  }

  /** The generated section: start marker, blank line, tree, blank line, end marker. */
  function TreeSection(markdownForTree: string, endOfLine: string): string {
    TreeStartMarker + Repeat(endOfLine, 2) + markdownForTree + Repeat(endOfLine, 2) + TreeEndMarker
  }

  /** Some end marker occurs at an offset where no start marker has occurred
      yet, although a start marker occurs later. */
  predicate EndMarkerBeforeStartMarker(current: string) {
    Contains(current, TreeStartMarker)
    && exists j :: 0 <= j <= |current| - |TreeEndMarker| && OccursAt(current, TreeEndMarker, j) && NoneBefore(current, TreeStartMarker, j + 1)
  }

  /** No end marker, or a first start marker ahead of the first end marker:
      the texts a merge can be repeated on. */
  predicate MarkersInOrder(current: string) {
    !Contains(current, TreeEndMarker)
    || (Contains(current, TreeStartMarker) && IndexOf(current, TreeStartMarker) < IndexOf(current, TreeEndMarker))
  }

  /** `getNewMainReadmeContents`: replace the section between the first start
      marker and the first end marker by a freshly generated one, keeping
      the text around it; fail when the first end marker precedes the first
      start marker. */
  function NewMainReadmeContents(current: string, markdownForTree: string, endOfLine: string): (r: Result<string>)
    ensures r.Err? <==> EndMarkerBeforeStartMarker(current)
    ensures r.Err? ==> r.message == MarkerOrderMessage
    ensures r.Ok? ==> r.value == ContentsBeforeTree(current, endOfLine)
                                 + TreeSection(markdownForTree, endOfLine)
                                 + ContentsAfterTree(current, endOfLine)
  {
    var indexStartMarker := IndexOf(current, TreeStartMarker);
    var indexEndMarker := IndexOf(current, TreeEndMarker);
    assert EndMarkerBeforeStartMarker(current) <==> 0 <= indexEndMarker < indexStartMarker by {
      if 0 <= indexEndMarker < indexStartMarker {
        assert OccursAt(current, TreeEndMarker, indexEndMarker);
      }
      if EndMarkerBeforeStartMarker(current) {
        var j :| 0 <= j <= |current| - |TreeEndMarker| && OccursAt(current, TreeEndMarker, j)
                 && NoneBefore(current, TreeStartMarker, j + 1);
        assert Contains(current, TreeEndMarker);
        assert indexEndMarker <= j;
      }
    }
    if indexEndMarker >= 0 && indexEndMarker < indexStartMarker then
      Err(MarkerOrderMessage)
    else
      Ok(ContentsBeforeTree(current, endOfLine) + TreeSection(markdownForTree, endOfLine)
         + ContentsAfterTree(current, endOfLine))
  }

  /** Text made of line breaks only. */
  predicate AllBreaks(f: string) {
    forall k :: 0 <= k < |f| ==> IsLineBreak(f[k])
  }

  /** In `S + F + md + F + E + after`, with marker-shaped `S` and `E`, `E` not
      a prefix of `S`, `F` non-empty line breaks and `md` free of `E`, no `E`
      starts before the one written after the second `F`. */
  lemma NoEarlyEndMarker(S: string, E: string, F: string, md: string, after: string, q: int)
    requires MarkerShaped(S) && MarkerShaped(E)
    requires |E| <= |S| && !OccursAt(S, E, 0)
    requires |F| > 0 && AllBreaks(F)
    requires !Contains(md, E)
    requires 0 <= q < |S| + |F| + |md| + |F|
    ensures !OccursAt(S + F + md + F + E + after, E, q)
  {
    var s := S + F + md + F + E + after;
    var tail := F + md + F + E + after;
    assert s == S + tail;
    if q < |S| {
      if q == 0 {
        OccursInLeft(S, tail, E, 0);
      } else {
        assert s[q] == S[q];
        MarkerAvoidsInterior(s, E, q);
      }
    } else {
      var q1 := q - |S|;
      OccursInRight(S, tail, E, q1);
      NoEndMarkerAfterStart(E, F, md, after, q1);
    }
  }

  /** The part of `NoEarlyEndMarker` after the start marker: no `E` starts
      in `F + md + F`. */
  lemma NoEndMarkerAfterStart(E: string, F: string, md: string, after: string, q1: int)
    requires MarkerShaped(E)
    requires |F| > 0 && AllBreaks(F)
    requires !Contains(md, E)
    requires 0 <= q1 < |F| + |md| + |F|
    ensures !OccursAt(F + md + F + E + after, E, q1)
  {
    var tail := F + md + F + E + after;
    var tail2 := md + F + E + after;
    assert tail == F + tail2;
    if q1 < |F| {
      assert tail[q1] == F[q1];
      MarkerAvoidsBreak(tail, E, q1, q1);
    } else {
      var q2 := q1 - |F|;
      OccursInRight(F, tail2, E, q2);
      NoEndMarkerInTree(E, F, md, after, q2);
    }
  }

  /** No `E` starts in `md + F`, when `md` holds none and `F` is line
      breaks. */
  lemma NoEndMarkerInTree(E: string, F: string, md: string, after: string, q2: int)
    requires MarkerShaped(E)
    requires |F| > 0 && AllBreaks(F)
    requires !Contains(md, E)
    requires 0 <= q2 < |md| + |F|
    ensures !OccursAt(md + F + E + after, E, q2)
  {
    var tail2 := md + F + E + after;
    var tail3 := F + E + after;
    assert tail2 == md + tail3;
    if q2 < |md| {
      if q2 + |E| <= |md| {
        OccursInLeft(md, tail3, E, q2);
      } else {
        assert tail2[|md|] == F[0];
        MarkerAvoidsBreak(tail2, E, q2, |md|);
      }
    } else {
      var q3 := q2 - |md|;
      OccursInRight(md, tail3, E, q3);
      assert tail3[q3] == F[q3];
      MarkerAvoidsBreak(tail3, E, q3, q3);
    }
  }

  /** In a generated section followed by anything, the start marker is at
      offset 0 and the first end marker is the section's own. */
  lemma SectionMarkers(markdownForTree: string, endOfLine: string, after: string)
    requires LineTerminator(endOfLine)
    requires !Contains(markdownForTree, TreeEndMarker)
    ensures var s := TreeSection(markdownForTree, endOfLine) + after;
            var q0 := |TreeSection(markdownForTree, endOfLine)| - |TreeEndMarker|;
            OccursAt(s, TreeStartMarker, 0) && OccursAt(s, TreeEndMarker, q0) && NoneBefore(s, TreeEndMarker, q0)
  {
    MarkersShaped();
    EndMarkerNotPrefixOfStart();
    TerminatorPairIsBreaks(endOfLine);
    var F := Repeat(endOfLine, 2);
    assert AllBreaks(F);
    SectionMarkersOf(TreeStartMarker, TreeEndMarker, F, markdownForTree, after);
  }

  /** `SectionMarkers` for any pair of markers shaped like the tree's. */
  lemma SectionMarkersOf(S: string, E: string, F: string, md: string, after: string)
    requires MarkerShaped(S) && MarkerShaped(E)
    requires |E| <= |S| && !OccursAt(S, E, 0)
    requires |F| > 0 && AllBreaks(F)
    requires !Contains(md, E)
    ensures var s := S + F + md + F + E + after;
            var q0 := |S| + |F| + |md| + |F|;
            OccursAt(s, S, 0) && OccursAt(s, E, q0) && NoneBefore(s, E, q0)
  {
    var s := S + F + md + F + E + after;
    var q0 := |S| + |F| + |md| + |F|;
    assert s == S + (F + md + F + E + after);
    OccursInLeft(S, F + md + F + E + after, S, 0);
    assert s == (S + F + md + F) + (E + after);
    OccursInRight(S + F + md + F, E + after, E, 0);
    OccursInLeft(E, after, E, 0);
    forall q | 0 <= q < q0 ensures !OccursAt(s, E, q) {
      NoEarlyEndMarker(S, E, F, md, after, q);
    }
  }

  /** A marker can start neither inside a marker-free text nor across its
      end when the text is followed by "<". */
  lemma NoMarkerUpToJoin(kept: string, rest: string, m: string)
    requires MarkerShaped(m)
    requires |rest| > 0 && rest[0] == '<'
    requires !Contains(kept, m)
    ensures NoneBefore(kept + rest, m, |kept|)
  {
    assert Anchored(m);
    forall q | 0 <= q < |kept| ensures !OccursAt(kept + rest, m, q) {
      if q + |m| > |kept| {
        NoStraddle(kept, rest, m, q);
      } else {
        OccursInLeft(kept, rest, m, q);
      }
    }
  }

  /** The text before the first occurrence of a pattern does not contain it. */
  lemma PrefixBeforeFirst(current: string, n: int, m: string)
    requires 0 <= n <= |current| && |m| > 0 && NoneBefore(current, m, n)
    ensures !Contains(current[..n], m)
  {
    forall q | 0 <= q <= n - |m| ensures !OccursAt(current[..n], m, q) {
      assert current[..n] + current[n..] == current;
      OccursInLeft(current[..n], current[n..], m, q);
      assert !OccursAt(current, m, q);
    }
  }

  /** Appending line breaks to a marker-free text keeps it marker-free. */
  lemma BreaksKeepMarkerOut(current: string, F: string, m: string)
    requires MarkerShaped(m) && !Contains(current, m)
    requires |F| > 0 && AllBreaks(F)
    ensures !Contains(current + F, m)
  {
    var s := current + F;
    forall q | 0 <= q <= |s| - |m| ensures !OccursAt(s, m, q) {
      if q + |m| <= |current| {
        OccursInLeft(current, F, m, q);
      } else {
        var x := if q < |current| then |current| else q;
        assert s[x] == F[x - |current|];
        MarkerAvoidsBreak(s, m, q, x);
      }
    }
  }

  /** The text kept in front of the tree holds no marker, provided the
      original text has no end marker, or has its first end marker after
      its first start marker. */
  lemma BeforeTreeHasNoMarker(current: string, endOfLine: string, m: string)
    requires LineTerminator(endOfLine)
    requires m == TreeStartMarker || m == TreeEndMarker
    requires MarkersInOrder(current)
    ensures !Contains(ContentsBeforeTree(current, endOfLine), m)
  {
    MarkersShaped();
    var before := ContentsBeforeTree(current, endOfLine);
    if Contains(current, TreeStartMarker) {
      IndexOfIsFirst(current, TreeStartMarker, |before|);
      if m == TreeEndMarker && Contains(current, TreeEndMarker) {
        var iE := IndexOf(current, TreeEndMarker);
        assert NoneBefore(current, TreeEndMarker, iE);
      }
      assert NoneBefore(current, m, |before|);
      PrefixBeforeFirst(current, |before|, m);
    } else {
      TerminatorPairIsBreaks(endOfLine);
      BreaksKeepMarkerOut(current, Repeat(endOfLine, 2), m);
    }
  }

  /** When no occurrence starts inside `kept`, the first occurrence in
      `kept + rest` is the first one in `rest`. */
  lemma FirstMarkerAfterKept(kept: string, rest: string, m: string, q0: int)
    requires NoneBefore(kept + rest, m, |kept|)
    requires OccursAt(rest, m, q0) && NoneBefore(rest, m, q0)
    ensures IndexOf(kept + rest, m) == |kept| + q0
  {
    var s := kept + rest;
    OccursInRight(kept, rest, m, q0);
    assert NoneBefore(s, m, |kept| + q0) by {
      forall q | 0 <= q < |kept| + q0 ensures !OccursAt(s, m, q) {
        if q >= |kept| {
          OccursInRight(kept, rest, m, q - |kept|);
        }
      }
    }
    IndexOfIsFirst(s, m, |kept| + q0);
  }

  /** Merging again with the same tree reproduces the merged text exactly,
      when the tree text holds no end marker and the original text has no
      end marker, or has its first end marker after its first start marker. */
  lemma MainReadmeIdempotent(current: string, markdownForTree: string, endOfLine: string)
    requires LineTerminator(endOfLine)
    requires !Contains(markdownForTree, TreeEndMarker)
    requires MarkersInOrder(current)
    ensures NewMainReadmeContents(current, markdownForTree, endOfLine).Ok?
    ensures var once := NewMainReadmeContents(current, markdownForTree, endOfLine).value;
            NewMainReadmeContents(once, markdownForTree, endOfLine) == Ok(once)
  {
    var before := ContentsBeforeTree(current, endOfLine);
    var after := ContentsAfterTree(current, endOfLine);
    MergeInOrder(current, markdownForTree, endOfLine);
    BeforeTreeHasNoMarker(current, endOfLine, TreeStartMarker);
    BeforeTreeHasNoMarker(current, endOfLine, TreeEndMarker);
    RemergeGeneratedText(before, after, markdownForTree, endOfLine);
  }

  /** A text whose markers are in order is accepted and framed by its kept
      prefix and suffix. */
  lemma MergeInOrder(current: string, markdownForTree: string, endOfLine: string)
    requires MarkersInOrder(current)
    ensures NewMainReadmeContents(current, markdownForTree, endOfLine)
         == Ok(ContentsBeforeTree(current, endOfLine) + TreeSection(markdownForTree, endOfLine)
               + ContentsAfterTree(current, endOfLine))
  {
    assert !EndMarkerBeforeStartMarker(current) by {
      if Contains(current, TreeEndMarker) {
        assert OccursAt(current, TreeStartMarker, IndexOf(current, TreeStartMarker));
      }
    }
  }

  /** A prefix free of both markers, a generated section and any suffix
      merge again to themselves. */
  lemma RemergeGeneratedText(before: string, after: string, markdownForTree: string, endOfLine: string)
    requires LineTerminator(endOfLine)
    requires !Contains(markdownForTree, TreeEndMarker)
    requires !Contains(before, TreeStartMarker) && !Contains(before, TreeEndMarker)
    ensures var once := before + TreeSection(markdownForTree, endOfLine) + after;
            NewMainReadmeContents(once, markdownForTree, endOfLine) == Ok(once)
  {
    MarkersShaped();
    var S, E := TreeStartMarker, TreeEndMarker;
    var section := TreeSection(markdownForTree, endOfLine);
    var rest := section + after;
    var once := before + rest;
    assert before + section + after == once;
    SectionMarkers(markdownForTree, endOfLine, after);
    var q0 := |section| - |E|;
    OccursAtChar(rest, S, 0, 0);
    NoMarkerUpToJoin(before, rest, S);
    NoMarkerUpToJoin(before, rest, E);
    FirstMarkerAfterKept(before, rest, S, 0);
    FirstMarkerAfterKept(before, rest, E, q0);
    assert ContentsBeforeTree(once, endOfLine) == once[..|before|] == before;
    assert ContentsAfterTree(once, endOfLine) == once[|before| + |section|..] == after;
    assert OccursAt(once, S, |before|);
    assert MarkersInOrder(once);
    MergeInOrder(once, markdownForTree, endOfLine);
  }

  /** A text left with an end marker but no start marker is accepted once:
      the whole text is kept, the generated section follows it, and the text
      after the stray end marker is written a second time behind the
      section. The text that merge produces is then refused, because the
      generated start marker lands behind the stray end marker. */
  lemma EndMarkerAloneBreaksIdempotence(current: string, markdownForTree: string, endOfLine: string)
    requires LineTerminator(endOfLine)
    requires Contains(current, TreeEndMarker) && !Contains(current, TreeStartMarker)
    ensures 0 <= IndexOf(current, TreeEndMarker) <= |current| - |TreeEndMarker|
    ensures NewMainReadmeContents(current, markdownForTree, endOfLine)
         == Ok(current + Repeat(endOfLine, 2) + TreeSection(markdownForTree, endOfLine)
               + current[IndexOf(current, TreeEndMarker) + |TreeEndMarker|..])
    ensures NewMainReadmeContents(NewMainReadmeContents(current, markdownForTree, endOfLine).value,
                                  markdownForTree, endOfLine).Err?
  {
    StrayEndMarkerMerge(current, markdownForTree, endOfLine);
    var after := current[IndexOf(current, TreeEndMarker) + |TreeEndMarker|..];
    MergeAfterStrayEndMarkerRefused(current, markdownForTree, endOfLine, after);
  }

  /** A text with a stray end marker, two line terminators, a generated
      section and anything after it is refused by the merge. */
  lemma MergeAfterStrayEndMarkerRefused(current: string, markdownForTree: string, endOfLine: string, after: string)
    requires LineTerminator(endOfLine)
    requires Contains(current, TreeEndMarker) && !Contains(current, TreeStartMarker)
    ensures NewMainReadmeContents(current + Repeat(endOfLine, 2) + TreeSection(markdownForTree, endOfLine) + after,
                                  markdownForTree, endOfLine).Err?
  {
    MarkersShaped();
    TerminatorPairIsBreaks(endOfLine);
    var F := Repeat(endOfLine, 2);
    var rest := TreeSection(markdownForTree, endOfLine) + after;
    var once := current + F + TreeSection(markdownForTree, endOfLine) + after;
    assert once == current + F + rest;
    SectionOpensWithStartMarker(markdownForTree, endOfLine, after);
    StrayEndMarkerComesFirst(current, F, rest, TreeStartMarker, TreeEndMarker);
    assert EndMarkerBeforeStartMarker(once);
  }

  /** The first merge of a text with a stray end marker: the whole text, two
      line terminators, the section, and the text after the stray marker. */
  lemma StrayEndMarkerMerge(current: string, markdownForTree: string, endOfLine: string)
    requires Contains(current, TreeEndMarker) && !Contains(current, TreeStartMarker)
    ensures 0 <= IndexOf(current, TreeEndMarker) <= |current| - |TreeEndMarker|
    ensures NewMainReadmeContents(current, markdownForTree, endOfLine)
         == Ok(current + Repeat(endOfLine, 2) + TreeSection(markdownForTree, endOfLine)
               + current[IndexOf(current, TreeEndMarker) + |TreeEndMarker|..])
  {
    var indexEndMarker := IndexOf(current, TreeEndMarker);
    assert ContentsAfterTree(current, endOfLine) == current[indexEndMarker + |TreeEndMarker|..];
    assert Repeat(endOfLine, 2) == endOfLine + endOfLine;
    assert ContentsBeforeTree(current, endOfLine) == current + Repeat(endOfLine, 2);
  }

  lemma SectionOpensWithStartMarker(markdownForTree: string, endOfLine: string, after: string)
    ensures OccursAt(TreeSection(markdownForTree, endOfLine) + after, TreeStartMarker, 0)
  {
    var tail := Repeat(endOfLine, 2) + markdownForTree + Repeat(endOfLine, 2) + TreeEndMarker + after;
    assert TreeSection(markdownForTree, endOfLine) + after == TreeStartMarker + tail;
    OccursInLeft(TreeStartMarker, tail, TreeStartMarker, 0);
  }

  /** A text with an end marker `E` and no start marker `S`, followed by line
      breaks and then anything starting with `S`, has its first `S` behind
      the text's first `E`. */
  lemma StrayEndMarkerComesFirst(current: string, F: string, rest: string, S: string, E: string)
    requires MarkerShaped(S) && !Contains(current, S) && Contains(current, E)
    requires |F| > 0 && AllBreaks(F)
    requires OccursAt(rest, S, 0)
    ensures Contains(current + F + rest, S)
    ensures exists j :: 0 <= j <= |current + F + rest| - |E|
                        && OccursAt(current + F + rest, E, j) && NoneBefore(current + F + rest, S, j + 1)
  {
    var kept := current + F;
    var once := kept + rest;
    var iE := IndexOf(current, E);
    assert once == current + (F + rest);
    OccursInLeft(current, F + rest, E, iE);
    OccursInRight(kept, rest, S, 0);
    OccursAtChar(rest, S, 0, 0);
    BreaksKeepMarkerOut(current, F, S);
    NoMarkerUpToJoin(kept, rest, S);
    assert OccursAt(once, S, |kept|);
    assert OccursAt(once, E, iE) && NoneBefore(once, S, iE + 1);
  }

  /** Two different markers never start at the same offset. */
  lemma MarkersNeverShareOffset(current: string, p: int)
    ensures OccursAt(current, TreeStartMarker, p) ==> !OccursAt(current, TreeEndMarker, p)
  {
    EndMarkerNotPrefixOfStart();
    if OccursAt(current, TreeStartMarker, p) {
      assert current[p..p + |TreeEndMarker|] == TreeStartMarker[..|TreeEndMarker|];
    }
  }

  /** The merge with the order check its error message describes: an end
      marker is refused unless a start marker precedes it. */
  function NewMainReadmeContentsStrict(current: string, markdownForTree: string, endOfLine: string): (r: Result<string>)
    ensures r.Err? <==> !MarkersInOrder(current)
    ensures r.Err? ==> r.message == MarkerOrderMessage
    ensures r.Ok? ==> r.value == ContentsBeforeTree(current, endOfLine)
                                 + TreeSection(markdownForTree, endOfLine)
                                 + ContentsAfterTree(current, endOfLine)
  {
    var indexStartMarker := IndexOf(current, TreeStartMarker);
    var indexEndMarker := IndexOf(current, TreeEndMarker);
    MarkersNeverShareOffset(current, indexStartMarker);
    assert indexStartMarker >= 0 ==> OccursAt(current, TreeStartMarker, indexStartMarker);
    assert indexStartMarker >= 0 && indexEndMarker >= 0 ==> indexStartMarker != indexEndMarker;
    assert !MarkersInOrder(current) <==>
      indexEndMarker >= 0 && (indexStartMarker < 0 || indexEndMarker < indexStartMarker);
    if indexEndMarker >= 0 && (indexStartMarker < 0 || indexEndMarker < indexStartMarker) then
      Err(MarkerOrderMessage)
    else
      Ok(ContentsBeforeTree(current, endOfLine) + TreeSection(markdownForTree, endOfLine)
         + ContentsAfterTree(current, endOfLine))
  }

  /** The strict merge differs from the merge as written only on texts with
      an end marker and no start marker. */
  lemma StrictMergeAgrees(current: string, markdownForTree: string, endOfLine: string)
    ensures Contains(current, TreeStartMarker) || !Contains(current, TreeEndMarker) ==>
      NewMainReadmeContentsStrict(current, markdownForTree, endOfLine)
        == NewMainReadmeContents(current, markdownForTree, endOfLine)
    ensures Contains(current, TreeEndMarker) && !Contains(current, TreeStartMarker) ==>
      NewMainReadmeContentsStrict(current, markdownForTree, endOfLine).Err?
      && NewMainReadmeContents(current, markdownForTree, endOfLine).Ok?
  {
    if Contains(current, TreeStartMarker) && Contains(current, TreeEndMarker) {
      MarkersNeverShareOffset(current, IndexOf(current, TreeStartMarker));
      assert OccursAt(current, TreeStartMarker, IndexOf(current, TreeStartMarker));
      if !MarkersInOrder(current) {
        assert OccursAt(current, TreeEndMarker, IndexOf(current, TreeEndMarker));
      }
    }
  }

  /** Every text the strict merge accepts can be merged again with the same
      tree, and the second merge changes nothing. */
  lemma StrictMergeIdempotent(current: string, markdownForTree: string, endOfLine: string)
    requires LineTerminator(endOfLine)
    requires !Contains(markdownForTree, TreeEndMarker)
    requires NewMainReadmeContentsStrict(current, markdownForTree, endOfLine).Ok?
    ensures var once := NewMainReadmeContentsStrict(current, markdownForTree, endOfLine).value;
            NewMainReadmeContentsStrict(once, markdownForTree, endOfLine) == Ok(once)
  {
    MainReadmeIdempotent(current, markdownForTree, endOfLine);
    StrictMergeAgrees(current, markdownForTree, endOfLine);
    var once := NewMainReadmeContents(current, markdownForTree, endOfLine).value;
    StrictMergeAgrees(once, markdownForTree, endOfLine);
  }

  // --------------------------------------------------- directory README

  const DirectoryReadmeComment: string := "<!-- this entire file is auto-generated -->"

  /** `getDirectoryReadmeContents`: a generated-file comment, a level-1
      heading with the directory name and the tree, separated by blank lines.
      It depends on its three arguments only; no existing text is read. */
  function DirectoryReadmeContents(name: string, markdownForTree: string, endOfLine: string): (contents: string)
    ensures StartsWith(contents, DirectoryReadmeComment + Repeat(endOfLine, 2) + "# " + name)
    ensures EndsWith(contents, Repeat(endOfLine, 2) + markdownForTree + endOfLine)
    ensures |contents| == |DirectoryReadmeComment| + 5 * |endOfLine| + 2 + |name| + |markdownForTree|
  {
    var title := "# " + name;
    DirectoryReadmeComment + Repeat(endOfLine, 2) + title + Repeat(endOfLine, 2) + markdownForTree + endOfLine
  }

  /** The heading line of a directory README reads back, through the note
      title reader, as the directory name. */
  lemma DirectoryReadmeHeadingReadsBack(name: string, markdownForTree: string, endOfLine: string)
    requires LineTerminator(endOfLine)
    requires NoLineBreak(name)
    ensures var contents := DirectoryReadmeContents(name, markdownForTree, endOfLine);
            var headingOffset := |DirectoryReadmeComment| + 2 * |endOfLine|;
            headingOffset <= |contents|
            && TitleFromMarkdownContents(contents[headingOffset..]) == Some(name)
  {
    TerminatorPairIsBreaks(endOfLine);
    var F := Repeat(endOfLine, 2);
    var tail := F + markdownForTree + endOfLine;
    var contents := DirectoryReadmeContents(name, markdownForTree, endOfLine);
    assert contents == (DirectoryReadmeComment + F) + ("# " + name + tail);
    assert contents[|DirectoryReadmeComment| + |F|..] == "# " + name + tail;
    assert IsLineBreak(tail[0]);
    TitleRoundTrip(name, tail);
  }
}
