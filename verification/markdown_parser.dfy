/** `src/markdown-parser.js`: queries over the mdast syntax tree that the
    Markdown parser produces. The parser itself is not modelled: its trees
    are the input here. */
module MarkdownParser {
  import opened Results

  /** Offsets into the parsed contents where a node starts and ends. */
  datatype Position = Position(startOffset: nat, endOffset: nat)

  /** An mdast node. `depth` is present on headings and `value` on literal
      nodes such as `html` and `text`. Only a parent node has a `children`
      property, and a parent may have an empty list of children. */
  datatype AstNode =
    | Leaf(nodeType: string, depth: Option<int>, value: Option<string>, position: Position)
    | Parent(nodeType: string, depth: Option<int>, value: Option<string>, position: Position,
             children: seq<AstNode>)

  /** The node types that mdast allows as the content of a link. */
  const AllowedTypesInsideLink: set<string> :=
    {"break", "emphasis", "html", "image", "imageReference", "inlineCode", "strong", "text"}

  /** Index of the first node satisfying `p`, as `Array.prototype.find`
      scans. */
  function FindFirst(nodes: seq<AstNode>, p: AstNode -> bool): (r: Option<nat>)
    ensures r.Some? ==> r.value < |nodes| && p(nodes[r.value])
                        && forall k :: 0 <= k < r.value ==> !p(nodes[k])
    ensures r.None? <==> forall k :: 0 <= k < |nodes| ==> !p(nodes[k])
  {
    if nodes == [] then None
    else if p(nodes[0]) then Some(0)
    else
      var rest := FindFirst(nodes[1..], p);
      assert forall k :: 1 <= k < |nodes| ==> nodes[k] == nodes[1..][k - 1];
      if rest.None? then None else Some(rest.value + 1)
  }

  /** The first child satisfying `p`; nothing for a node without children. */
  function FindChild(node: AstNode, p: AstNode -> bool): (r: Option<AstNode>)
    ensures node.Leaf? ==> r.None?
    ensures r.Some? ==> exists i :: FirstMatchAt(node, p, i) && r.value == node.children[i]
    ensures node.Parent? && r.None? ==>
      forall k :: 0 <= k < |node.children| ==> !p(node.children[k])
  {
    if node.Leaf? then None
    else
      var i := FindFirst(node.children, p);
      if i.None? then None
      else
        assert FirstMatchAt(node, p, i.value);
        Some(node.children[i.value])
  }

  /** Child `i` satisfies `p` and no earlier child does. */
  ghost predicate FirstMatchAt(node: AstNode, p: AstNode -> bool, i: int) {
    node.Parent? && 0 <= i < |node.children| && p(node.children[i])
    && forall k :: 0 <= k < i ==> !p(node.children[k])
  }

  predicate IsLevel1Heading(node: AstNode) {
    node.nodeType == "heading" && node.depth == Some(1)
  }

  predicate IsHtmlWithValue(value: string, node: AstNode) {
    node.nodeType == "html" && node.value == Some(value)
  }

  /** `getFirstLevel1HeadingChild`: the first child that is a heading of
      depth 1; nothing when there is none or the node has no children. */
  function FirstLevel1HeadingChild(node: AstNode): (r: Option<AstNode>)
    ensures r.Some? ==> IsLevel1Heading(r.value)
                        && exists i :: FirstMatchAt(node, IsLevel1Heading, i) && r.value == node.children[i]
    ensures r.None? <==>
      node.Leaf? || forall k :: 0 <= k < |node.children| ==> !IsLevel1Heading(node.children[k])
  {
    FindChild(node, IsLevel1Heading)
  }

  /** `getFirstHtmlChildWithValue`: the first child that is an HTML node
      holding exactly `value`; nothing when there is none or the node has no
      children. */
  function FirstHtmlChildWithValue(value: string, node: AstNode): (r: Option<AstNode>)
    ensures r.Some? ==> r.value.nodeType == "html" && r.value.value == Some(value)
                        && exists i :: FirstMatchAt(node, n => IsHtmlWithValue(value, n), i)
                                       && r.value == node.children[i]
    ensures r.None? <==>
      node.Leaf?
      || forall k :: 0 <= k < |node.children| ==> !IsHtmlWithValue(value, node.children[k])
  {
    FindChild(node, n => IsHtmlWithValue(value, n))
  }

  /** `isContentAllowedInsideLink`: every child has an allowed type and
      allowed content of its own; a node without children qualifies. */
  function IsContentAllowedInsideLink(node: AstNode): (allowed: bool)
    ensures allowed <==> node.Leaf? || forall k :: 0 <= k < |node.children| ==>
      node.children[k].nodeType in AllowedTypesInsideLink && IsContentAllowedInsideLink(node.children[k])
    decreases node, 1
  {
    node.Leaf? || AllAllowedInsideLink(node.children)
  }

  /** The callback of `every` over a list of children. */
  function AllAllowedInsideLink(children: seq<AstNode>): (all: bool)
    ensures all <==> forall k :: 0 <= k < |children| ==>
      children[k].nodeType in AllowedTypesInsideLink && IsContentAllowedInsideLink(children[k])
    decreases children, 0
  {
    if children == [] then true
    else
      assert forall k :: 1 <= k < |children| ==> children[k] == children[1..][k - 1];
      children[0].nodeType in AllowedTypesInsideLink
      && IsContentAllowedInsideLink(children[0])
      && AllAllowedInsideLink(children[1..])
  }

  /** All descendants of a node in pre-order, the node itself excluded. */
  function Descendants(node: AstNode): seq<AstNode>
    decreases node, 1
  {
    if node.Leaf? then [] else DescendantsOfAll(node.children)
  }

  /** The nodes of a list of children and all their descendants, in pre-order. */
  function DescendantsOfAll(children: seq<AstNode>): seq<AstNode>
    decreases children, 0
  {
    if children == [] then []
    else [children[0]] + Descendants(children[0]) + DescendantsOfAll(children[1..])
  }

  /** Every node of the list has one of the eight allowed types. */
  predicate AllowedTypes(nodes: seq<AstNode>) {
    forall k :: 0 <= k < |nodes| ==> nodes[k].nodeType in AllowedTypesInsideLink
  }

  lemma AllowedTypesConcat(a: seq<AstNode>, b: seq<AstNode>)
    ensures AllowedTypes(a + b) <==> AllowedTypes(a) && AllowedTypes(b)
  {
    assert forall k :: 0 <= k < |a| ==> (a + b)[k] == a[k];
    assert forall k :: 0 <= k < |b| ==> (a + b)[|a| + k] == b[k];
  }

  /** The recursive check is a statement about descendants: the content is
      allowed inside a link exactly when every descendant's type is one of
      the eight allowed types. */
  lemma {:induction false} AllowedInsideLinkIffDescendants(node: AstNode)
    ensures IsContentAllowedInsideLink(node) <==> AllowedTypes(Descendants(node))
    decreases node, 1
  {
    if node.Parent? {
      AllAllowedIffDescendants(node.children);
    }
  }

  lemma {:induction false} AllAllowedIffDescendants(children: seq<AstNode>)
    ensures AllAllowedInsideLink(children) <==> AllowedTypes(DescendantsOfAll(children))
    decreases children, 0
  {
    if children != [] {
      var head, below, rest := children[0], Descendants(children[0]), DescendantsOfAll(children[1..]);
      AllowedInsideLinkIffDescendants(head);
      AllAllowedIffDescendants(children[1..]);
      AllowedTypesConcat([head] + below, rest);
      AllowedTypesConcat([head], below);
      assert [head][0] == head;
    }
  }

  /** `getStartIndex`. */
  function StartIndex(node: AstNode): nat {
    node.position.startOffset
  }

  /** `getEndIndex`. */
  function EndIndex(node: AstNode): nat {
    node.position.endOffset
  }

  /** The node has at least one child. */
  predicate HasChildren(node: AstNode) {
    node.Parent? && |node.children| > 0
  }

  /** `getContentStartIndex`: where the first child starts, or the node's
      end when it has no children. */
  function ContentStartIndex(node: AstNode): (r: nat)
    ensures HasChildren(node) ==> r == StartIndex(node.children[0])
    ensures !HasChildren(node) ==> r == EndIndex(node)
  {
    if !HasChildren(node) then EndIndex(node) else StartIndex(node.children[0])
  }

  /** `getContentEndIndex`: where the last child ends, or the node's end
      when it has no children. */
  function ContentEndIndex(node: AstNode): (r: nat)
    ensures HasChildren(node) ==> r == EndIndex(node.children[|node.children| - 1])
    ensures !HasChildren(node) ==> r == EndIndex(node)
  {
    if !HasChildren(node) then EndIndex(node)
    else
      var children := node.children;
      EndIndex(children[|children| - 1])
  }

  /** Positions as a parser produces them: every node ends no earlier than
      it starts, and the children lie inside their parent, in order, without
      overlapping. */
  predicate WellPositioned(node: AstNode)
    decreases node
  {
    StartIndex(node) <= EndIndex(node)
    && (node.Parent? ==>
          var children := node.children;
          (forall k :: 0 <= k < |children| ==> WellPositioned(children[k]))
          && (forall k :: 0 <= k < |children| ==>
                StartIndex(node) <= StartIndex(children[k]) && EndIndex(children[k]) <= EndIndex(node))
          && (forall k :: 0 <= k < |children| - 1 ==> EndIndex(children[k]) <= StartIndex(children[k + 1])))
  }

  /** A node without children has empty content placed at its end; so for
      it content start, content end and end coincide. */
  lemma ChildlessContentIsEmptyAtEnd(node: AstNode)
    requires node.Leaf? || node.children == []
    ensures ContentStartIndex(node) == ContentEndIndex(node) == EndIndex(node)
  {
  }

  /** For a well-positioned node, the content lies within the node and does
      not run backwards. */
  lemma ContentWithinNode(node: AstNode)
    requires WellPositioned(node)
    ensures StartIndex(node) <= ContentStartIndex(node) <= ContentEndIndex(node) <= EndIndex(node)
  {
    if HasChildren(node) {
      var children := node.children;
      ChildrenInOrder(children, 0, |children| - 1);
    }
  }

  /** For a well-positioned node with children, the content range spans
      every child: it starts no later than any child starts and ends no
      earlier than any child ends. */
  lemma ContentSpansChildren(node: AstNode)
    requires WellPositioned(node) && HasChildren(node)
    ensures ContentStartIndex(node) <= ContentEndIndex(node)
    ensures forall k :: 0 <= k < |node.children| ==>
      ContentStartIndex(node) <= StartIndex(node.children[k]) && EndIndex(node.children[k]) <= ContentEndIndex(node)
  {
    var children := node.children;
    var last := |children| - 1;
    ChildrenInOrder(children, 0, last);
    forall k | 0 <= k < |children|
      ensures StartIndex(children[0]) <= StartIndex(children[k]) && EndIndex(children[k]) <= EndIndex(children[last])
    {
      if k > 0 {
        ChildrenInOrder(children, 0, k - 1);
      }
      if k < last {
        ChildrenInOrder(children, k + 1, last);
      }
    }
  }

  /** In a well-positioned list of children, a child starts no later than
      any later child ends. */
  lemma {:induction false} ChildrenInOrder(children: seq<AstNode>, i: nat, j: nat)
    requires forall k :: 0 <= k < |children| ==> StartIndex(children[k]) <= EndIndex(children[k])
    requires forall k :: 0 <= k < |children| - 1 ==> EndIndex(children[k]) <= StartIndex(children[k + 1])
    requires i <= j < |children|
    ensures StartIndex(children[i]) <= EndIndex(children[j])
    decreases j - i
  {
    if i < j {
      ChildrenInOrder(children, i + 1, j);
      assert EndIndex(children[i]) <= StartIndex(children[i + 1]);
    }
  }
}
