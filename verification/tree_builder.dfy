/** `src/tree-builder.js`: the note tree of a directory. The directory is
    an ordered listing of entries as the file system enumerates it; the
    tree holds the kept subdirectories first and then the kept notes, each
    note titled by its first-line heading. */
module TreeBuilder {
  import opened Results
  import opened Text
  import opened Tree
  import opened Collaborators
  import opened OptionsParser
  import opened Ignores
  import opened FileContents

  /** A directory entry: a file with its contents, or a subdirectory with
      its own listing. */
  datatype Entry =
    | FileEntry(name: string, contents: string)
    | DirectoryEntry(name: string, entries: seq<Entry>)

  /** `getAbsolutePath`: the path joined to the working directory. */
  function AbsolutePath(platform: Platform, relativePath: string): string {
    platform.join(platform.cwd, relativePath)
  }

  const NoTitleMessagePrefix: string := "No title found for Markdown file "

  /** The note has a non-empty title: JavaScript treats both `undefined` and
      `""` as missing. */
  predicate HasTitle(contents: string) {
    var title := TitleFromMarkdownContents(contents);
    title.Some? && title.value != ""
  }

  /** `getTitleFromMarkdownFileOrThrow`: the note's title, or an error naming
      the absolute path when it has none or an empty one. */
  function TitleFromMarkdownFileOrThrow(relativePath: string, contents: string, platform: Platform): (r: Result<string>)
    ensures r.Ok? <==> HasTitle(contents)
    ensures r.Ok? ==> TitleFromMarkdownContents(contents) == Some(r.value) && r.value != ""
    ensures r.Err? ==> r.message == NoTitleMessagePrefix + AbsolutePath(platform, relativePath)
  {
    var title := TitleFromMarkdownContents(contents);
    if title.None? || title.value == "" then Err(NoTitleMessagePrefix + AbsolutePath(platform, relativePath))
    else Ok(title.value)
  }

  // ------------------------------------------------------------ reference

  predicate KeptDirectory(entry: Entry, relativeParentPath: string, options: Options, platform: Platform) {
    entry.DirectoryEntry? && !ShouldIgnoreDirectory(entry.name, relativeParentPath, options, platform)
  }

  predicate KeptFile(entry: Entry, relativeParentPath: string, options: Options, platform: Platform) {
    entry.FileEntry? && !ShouldIgnoreFile(entry.name, relativeParentPath, options, platform)
  }

  /** Every kept note below this listing, however deep, has a title. */
  predicate AllTitled(entries: seq<Entry>, relativePath: string, options: Options, platform: Platform)
    decreases entries
  {
    forall k :: 0 <= k < |entries| ==>
      (KeptFile(entries[k], relativePath, options, platform) ==> HasTitle(entries[k].contents))
      && (KeptDirectory(entries[k], relativePath, options, platform) ==>
            AllTitled(entries[k].entries, platform.join(relativePath, entries[k].name), options, platform))
  }

  /** Every kept subdirectory of the listing holds only titled notes. */
  predicate DirectoriesTitled(entries: seq<Entry>, relativePath: string, options: Options, platform: Platform) {
    forall k :: 0 <= k < |entries| && KeptDirectory(entries[k], relativePath, options, platform) ==>
      AllTitled(entries[k].entries, platform.join(relativePath, entries[k].name), options, platform)
  }

  /** Every kept note of the listing itself has a title. */
  predicate NotesTitled(entries: seq<Entry>, relativePath: string, options: Options, platform: Platform) {
    forall k :: 0 <= k < |entries| && KeptFile(entries[k], relativePath, options, platform) ==>
      HasTitle(entries[k].contents)
  }

  lemma AllTitledSplits(entries: seq<Entry>, relativePath: string, options: Options, platform: Platform)
    ensures AllTitled(entries, relativePath, options, platform)
        <==> DirectoriesTitled(entries, relativePath, options, platform)
             && NotesTitled(entries, relativePath, options, platform)
  {
  }

  lemma DirectoriesTitledCons(entries: seq<Entry>, relativePath: string, options: Options, platform: Platform)
    requires entries != []
    ensures DirectoriesTitled(entries, relativePath, options, platform)
        <==> (KeptDirectory(entries[0], relativePath, options, platform) ==>
                AllTitled(entries[0].entries, platform.join(relativePath, entries[0].name), options, platform))
             && DirectoriesTitled(entries[1..], relativePath, options, platform)
  {
    assert forall k :: 1 <= k < |entries| ==> entries[k] == entries[1..][k - 1];
  }

  lemma NotesTitledCons(entries: seq<Entry>, relativePath: string, options: Options, platform: Platform)
    requires entries != []
    ensures NotesTitled(entries, relativePath, options, platform)
        <==> (KeptFile(entries[0], relativePath, options, platform) ==> HasTitle(entries[0].contents))
             && NotesTitled(entries[1..], relativePath, options, platform)
  {
    assert forall k :: 1 <= k < |entries| ==> entries[k] == entries[1..][k - 1];
  }

  /** The kept subdirectories, in listing order. */
  function KeptDirectories(entries: seq<Entry>, relativePath: string, options: Options, platform: Platform)
    : (kept: seq<Entry>)
    ensures forall k :: 0 <= k < |kept| ==> KeptDirectory(kept[k], relativePath, options, platform) && kept[k] in entries
  {
    if entries == [] then []
    else
      (if KeptDirectory(entries[0], relativePath, options, platform) then [entries[0]] else [])
        + KeptDirectories(entries[1..], relativePath, options, platform)
  }

  /** The kept notes, in listing order. */
  function KeptFiles(entries: seq<Entry>, relativePath: string, options: Options, platform: Platform)
    : (kept: seq<Entry>)
    ensures forall k :: 0 <= k < |kept| ==> KeptFile(kept[k], relativePath, options, platform)
  {
    if entries == [] then []
    else
      (if KeptFile(entries[0], relativePath, options, platform) then [entries[0]] else [])
        + KeptFiles(entries[1..], relativePath, options, platform)
  }

  function EntryNames(entries: seq<Entry>): seq<string> {
    seq(|entries|, k requires 0 <= k < |entries| => entries[k].name)
  }

  function NodeNames(nodes: seq<TreeNode>): seq<string> {
    seq(|nodes|, k requires 0 <= k < |nodes| => nodes[k].filename)
  }

  lemma NamesConcat(a: seq<Entry>, b: seq<Entry>, x: seq<TreeNode>, y: seq<TreeNode>)
    ensures EntryNames(a + b) == EntryNames(a) + EntryNames(b)
    ensures NodeNames(x + y) == NodeNames(x) + NodeNames(y)
  {
    assert forall k :: 0 <= k < |a + b| ==> EntryNames(a + b)[k] == (EntryNames(a) + EntryNames(b))[k];
    assert forall k :: 0 <= k < |x + y| ==> NodeNames(x + y)[k] == (NodeNames(x) + NodeNames(y))[k];
  }

  /** Entry `k` is the first kept note of the listing without a title. */
  predicate FirstUntitledAt(entries: seq<Entry>, k: int, relativePath: string, options: Options, platform: Platform) {
    0 <= k < |entries| && KeptFile(entries[k], relativePath, options, platform) && !HasTitle(entries[k].contents)
    && NotesTitled(entries[..k], relativePath, options, platform)
  }

  /** The index of the first kept note of the listing without a title, or -1
      when every kept note has one. */
  function FirstUntitledNote(entries: seq<Entry>, relativePath: string, options: Options, platform: Platform)
    : (k: int)
    ensures -1 <= k < |entries|
    ensures k < 0 <==> NotesTitled(entries, relativePath, options, platform)
    ensures k >= 0 ==> FirstUntitledAt(entries, k, relativePath, options, platform)
  {
    if entries == [] then -1
    else
      NotesTitledCons(entries, relativePath, options, platform);
      if KeptFile(entries[0], relativePath, options, platform) && !HasTitle(entries[0].contents) then
        assert entries[..0] == [];
        0
      else
        var k := FirstUntitledNote(entries[1..], relativePath, options, platform);
        if k < 0 then -1
        else
          assert NotesTitled(entries[..k + 1], relativePath, options, platform) by {
            NotesTitledCons(entries[..k + 1], relativePath, options, platform);
            assert entries[..k + 1][1..] == entries[1..][..k];
          }
          k + 1
  }

  /** The joined path of the first kept note without a title in build order:
      the subdirectories' notes, depth first in listing order, before the
      notes of the listing itself. */
  function FirstUntitledIn(entries: seq<Entry>, relativePath: string, options: Options, platform: Platform)
    : (path: Option<string>)
    ensures path.None? <==> AllTitled(entries, relativePath, options, platform)
    decreases entries, 1
  {
    AllTitledSplits(entries, relativePath, options, platform);
    var below := FirstUntitledBelow(entries, relativePath, options, platform);
    if below.Some? then below
    else
      var k := FirstUntitledNote(entries, relativePath, options, platform);
      if k < 0 then None else Some(platform.join(relativePath, entries[k].name))
  }

  /** The first kept note without a title inside the kept subdirectories,
      taken in listing order. */
  function FirstUntitledBelow(entries: seq<Entry>, relativePath: string, options: Options, platform: Platform)
    : (path: Option<string>)
    ensures path.None? <==> DirectoriesTitled(entries, relativePath, options, platform)
    decreases entries, 0
  {
    if entries == [] then None
    else
      DirectoriesTitledCons(entries, relativePath, options, platform);
      var here :=
        if KeptDirectory(entries[0], relativePath, options, platform) then
          FirstUntitledIn(entries[0].entries, platform.join(relativePath, entries[0].name), options, platform)
        else None;
      if here.Some? then here else FirstUntitledBelow(entries[1..], relativePath, options, platform)
  }

  /** The missing-title error names `path`, made absolute. */
  predicate NamesUntitled(message: string, path: Option<string>, platform: Platform) {
    path.Some? && message == NoTitleMessagePrefix + AbsolutePath(platform, path.value)
  }

  /** No note comes before a directory. */
  predicate DirectoriesFirst(nodes: seq<TreeNode>) {
    forall i, j :: 0 <= i < j < |nodes| && nodes[i].FileNode? ==> nodes[j].FileNode?
  }

  // ----------------------------------------------------------------- build

  /** `buildTreeStartingAt`: the nodes of the kept subdirectories, then those
      of the kept notes. Subdirectories are built first, so an error in one
      of them is reported before any note of this level is read. */
  function BuildTreeStartingAt(entries: seq<Entry>, relativePath: string, options: Options, platform: Platform,
                               cmp: (string, string) -> int): (r: Result<seq<TreeNode>>)
    ensures r.Ok? <==> AllTitled(entries, relativePath, options, platform)
    ensures r.Err? ==> NamesUntitled(r.message, FirstUntitledIn(entries, relativePath, options, platform), platform)
    decreases entries, 2
  {
    AllTitledSplits(entries, relativePath, options, platform);
    var directories := TreeNodesForDirectories(entries, relativePath, options, platform, cmp);
    if directories.Err? then
      Err(directories.message)
    else
      var files := TreeNodesForFiles(entries, relativePath, options, platform, cmp);
      if files.Err? then Err(files.message) else Ok(directories.value + files.value)
  }

  /** `getTreeNodesForDirectories`: a node for every kept subdirectory, in
      listing order, titled with its name and holding its own tree. */
  function TreeNodesForDirectories(entries: seq<Entry>, relativeParentPath: string, options: Options,
                                   platform: Platform, cmp: (string, string) -> int): (r: Result<seq<TreeNode>>)
    ensures r.Ok? <==> DirectoriesTitled(entries, relativeParentPath, options, platform)
    ensures r.Err? ==>
      NamesUntitled(r.message, FirstUntitledBelow(entries, relativeParentPath, options, platform), platform)
    decreases entries, 1
  {
    if entries == [] then Ok([])
    else
      DirectoriesTitledCons(entries, relativeParentPath, options, platform);
      var entry := entries[0];
      if !KeptDirectory(entry, relativeParentPath, options, platform) then
        TreeNodesForDirectories(entries[1..], relativeParentPath, options, platform, cmp)
      else
        var children := BuildTreeStartingAt(entry.entries, platform.join(relativeParentPath, entry.name),
                                            options, platform, cmp);
        if children.Err? then
          Err(children.message)
        else
          var rest := TreeNodesForDirectories(entries[1..], relativeParentPath, options, platform, cmp);
          if rest.Err? then rest else Ok([DirectoryNode(entry.name, entry.name, "", children.value)] + rest.value)
  }

  /** `node` is the node of subdirectory `entry`: named and titled after it,
      without description, holding the tree built at the joined path. */
  predicate DirectoryNodeOf(node: TreeNode, entry: Entry, relativeParentPath: string, options: Options,
                            platform: Platform, cmp: (string, string) -> int) {
    entry.DirectoryEntry? && node.DirectoryNode?
    && node == DirectoryNode(entry.name, entry.name, "", node.children)
    && BuildTreeStartingAt(entry.entries, platform.join(relativeParentPath, entry.name), options, platform, cmp)
         == Ok(node.children)
  }

  /** `nodes[k]` is the node of subdirectory `kept[k]`, for every `k`. */
  predicate DirectoryNodesOf(nodes: seq<TreeNode>, kept: seq<Entry>, relativeParentPath: string, options: Options,
                             platform: Platform, cmp: (string, string) -> int) {
    |nodes| == |kept|
    && forall k :: 0 <= k < |kept| ==> DirectoryNodeOf(nodes[k], kept[k], relativeParentPath, options, platform, cmp)
  }

  lemma DirectoryNodesConcat(a: seq<TreeNode>, ka: seq<Entry>, b: seq<TreeNode>, kb: seq<Entry>,
                             relativeParentPath: string, options: Options, platform: Platform,
                             cmp: (string, string) -> int)
    requires DirectoryNodesOf(a, ka, relativeParentPath, options, platform, cmp)
    requires DirectoryNodesOf(b, kb, relativeParentPath, options, platform, cmp)
    ensures DirectoryNodesOf(a + b, ka + kb, relativeParentPath, options, platform, cmp)
  {
    var nodes, kept := a + b, ka + kb;
    forall k | 0 <= k < |kept|
      ensures DirectoryNodeOf(nodes[k], kept[k], relativeParentPath, options, platform, cmp)
    {
      if k < |a| {
        assert nodes[k] == a[k] && kept[k] == ka[k];
      } else {
        assert nodes[k] == b[k - |a|] && kept[k] == kb[k - |a|];
      }
    }
  }

  /** The directory nodes are those of the kept subdirectories, in listing
      order, each holding the tree built from that subdirectory. */
  lemma {:induction false} DirectoryNodesBuilt(entries: seq<Entry>, relativeParentPath: string, options: Options,
                                               platform: Platform, cmp: (string, string) -> int)
    requires TreeNodesForDirectories(entries, relativeParentPath, options, platform, cmp).Ok?
    ensures DirectoryNodesOf(TreeNodesForDirectories(entries, relativeParentPath, options, platform, cmp).value,
                             KeptDirectories(entries, relativeParentPath, options, platform),
                             relativeParentPath, options, platform, cmp)
    decreases entries
  {
    if entries != [] {
      DirectoryNodesBuilt(entries[1..], relativeParentPath, options, platform, cmp);
      var entry := entries[0];
      var nodes := TreeNodesForDirectories(entries, relativeParentPath, options, platform, cmp).value;
      var rest := TreeNodesForDirectories(entries[1..], relativeParentPath, options, platform, cmp).value;
      var keptRest := KeptDirectories(entries[1..], relativeParentPath, options, platform);
      if KeptDirectory(entry, relativeParentPath, options, platform) {
        var children := BuildTreeStartingAt(entry.entries, platform.join(relativeParentPath, entry.name),
                                            options, platform, cmp);
        var node := DirectoryNode(entry.name, entry.name, "", children.value);
        assert nodes == [node] + rest;
        assert KeptDirectories(entries, relativeParentPath, options, platform) == [entry] + keptRest;
        assert DirectoryNodesOf([node], [entry], relativeParentPath, options, platform, cmp);
        DirectoryNodesConcat([node], [entry], rest, keptRest, relativeParentPath, options, platform, cmp);
      }
    }
  }

  /** Directory nodes carry the names of their subdirectories. */
  lemma DirectoryNodeNames(nodes: seq<TreeNode>, kept: seq<Entry>, relativeParentPath: string, options: Options,
                           platform: Platform, cmp: (string, string) -> int)
    requires DirectoryNodesOf(nodes, kept, relativeParentPath, options, platform, cmp)
    ensures NodeNames(nodes) == EntryNames(kept)
    ensures forall k :: 0 <= k < |nodes| ==> nodes[k].DirectoryNode?
  {
    forall k | 0 <= k < |nodes|
      ensures nodes[k].DirectoryNode? && nodes[k].filename == kept[k].name
    {
      assert DirectoryNodeOf(nodes[k], kept[k], relativeParentPath, options, platform, cmp);
    }
  }

  /** A level's nodes: the kept subdirectories in listing order, each with
      its own tree, then the note nodes of the kept notes in the order
      `TreeNodesForFiles` gives them, so no note precedes a directory; every
      kept entry appears once and no other entry does. */
  lemma BuildTreeShape(entries: seq<Entry>, relativePath: string, options: Options, platform: Platform,
                       cmp: (string, string) -> int)
    requires BuildTreeStartingAt(entries, relativePath, options, platform, cmp).Ok?
    ensures var nodes := BuildTreeStartingAt(entries, relativePath, options, platform, cmp).value;
            var dirs := KeptDirectories(entries, relativePath, options, platform);
            |dirs| <= |nodes|
            && DirectoriesFirst(nodes)
            && DirectoryNodesOf(nodes[..|dirs|], dirs, relativePath, options, platform, cmp)
            && NodeNames(nodes[..|dirs|]) == EntryNames(dirs)
            && nodes[|dirs|..] == TreeNodesForFiles(entries, relativePath, options, platform, cmp).value
            && (forall k :: |dirs| <= k < |nodes| ==> nodes[k].FileNode?)
            && multiset(nodes[|dirs|..]) == multiset(FileNodesInListingOrder(entries, relativePath, options, platform).value)
            && multiset(NodeNames(nodes[|dirs|..])) == multiset(EntryNames(KeptFiles(entries, relativePath, options, platform)))
  {
    var nodes := BuildTreeStartingAt(entries, relativePath, options, platform, cmp).value;
    var directories := TreeNodesForDirectories(entries, relativePath, options, platform, cmp).value;
    var files := TreeNodesForFiles(entries, relativePath, options, platform, cmp).value;
    var dirs := KeptDirectories(entries, relativePath, options, platform);
    assert nodes == directories + files;
    DirectoryNodesBuilt(entries, relativePath, options, platform, cmp);
    DirectoryNodeNames(directories, dirs, relativePath, options, platform, cmp);
    assert nodes[..|dirs|] == directories;
    assert nodes[|dirs|..] == files;
    forall k | |dirs| <= k < |nodes| ensures nodes[k].FileNode? {
      assert nodes[k] == files[k - |dirs|];
    }
  }

  /** The loop of `getTreeNodesForFiles`: a titled node for every kept note,
      in listing order, or the error for the first note without a title. */
  function FileNodesInListingOrder(entries: seq<Entry>, relativeParentPath: string, options: Options,
                                   platform: Platform): (r: Result<seq<TreeNode>>)
    ensures r.Ok? <==> NotesTitled(entries, relativeParentPath, options, platform)
    ensures r.Err? ==>
      var k := FirstUntitledNote(entries, relativeParentPath, options, platform);
      0 <= k < |entries|
      && r.message == NoTitleMessagePrefix + AbsolutePath(platform, platform.join(relativeParentPath, entries[k].name))
    ensures r.Ok? ==> NotesOfFiles(r.value, KeptFiles(entries, relativeParentPath, options, platform))
    decreases entries
  {
    if entries == [] then Ok([])
    else
      NotesTitledCons(entries, relativeParentPath, options, platform);
      var entry := entries[0];
      var here: Result<seq<TreeNode>> :=
        if KeptFile(entry, relativeParentPath, options, platform) then
          var title := TitleFromMarkdownFileOrThrow(platform.join(relativeParentPath, entry.name), entry.contents, platform);
          if title.Err? then Err(title.message) else Ok([FileNode(entry.name, title.value, "")])
        else Ok([]);
      if here.Err? then
        here
      else
        var rest := FileNodesInListingOrder(entries[1..], relativeParentPath, options, platform);
        if rest.Err? then
          rest
        else
          var keptHere := if KeptFile(entry, relativeParentPath, options, platform) then [entry] else [];
          NotesOfFilesConcat(here.value, keptHere, rest.value, KeptFiles(entries[1..], relativeParentPath, options, platform));
          Ok(here.value + rest.value)
  }

  /** `nodes[k]` is the note node of file `files[k]`: its name, its title
      read from the contents, no description. */
  predicate NotesOfFiles(nodes: seq<TreeNode>, files: seq<Entry>) {
    |nodes| == |files|
    && forall k :: 0 <= k < |files| ==>
         files[k].FileEntry? && nodes[k].FileNode? && nodes[k].filename == files[k].name
         && nodes[k].description == "" && TitleFromMarkdownContents(files[k].contents) == Some(nodes[k].title)
  }

  lemma NotesOfFilesConcat(a: seq<TreeNode>, fa: seq<Entry>, b: seq<TreeNode>, fb: seq<Entry>)
    requires NotesOfFiles(a, fa) && NotesOfFiles(b, fb)
    ensures NotesOfFiles(a + b, fa + fb)
  {
    forall k | 0 <= k < |fa + fb|
      ensures (fa + fb)[k].FileEntry? && (a + b)[k].FileNode? && (a + b)[k].filename == (fa + fb)[k].name
              && (a + b)[k].description == ""
              && TitleFromMarkdownContents((fa + fb)[k].contents) == Some((a + b)[k].title)
    {
      if k < |fa| {
        assert (a + b)[k] == a[k] && (fa + fb)[k] == fa[k];
      } else {
        assert (a + b)[k] == b[k - |a|] && (fa + fb)[k] == fb[k - |fa|];
      }
    }
  }

  /** `getTreeNodesForFiles`: the note nodes, sorted by title when the
      options ask for it. */
  function TreeNodesForFiles(entries: seq<Entry>, relativeParentPath: string, options: Options,
                             platform: Platform, cmp: (string, string) -> int): (r: Result<seq<TreeNode>>)
    ensures r.Ok? <==> NotesTitled(entries, relativeParentPath, options, platform)
    ensures r.Err? ==> r == FileNodesInListingOrder(entries, relativeParentPath, options, platform)
    ensures r.Ok? ==> forall k :: 0 <= k < |r.value| ==> r.value[k].FileNode?
    ensures r.Ok? ==>
      multiset(NodeNames(r.value)) == multiset(EntryNames(KeptFiles(entries, relativeParentPath, options, platform)))
    ensures r.Ok? && options.orderNotesByTitle && Total(cmp) ==> TitleSorted(r.value, cmp)
    ensures r.Ok? ==> multiset(r.value) == multiset(FileNodesInListingOrder(entries, relativeParentPath, options, platform).value)
    ensures r.Ok? && !options.orderNotesByTitle ==> r == FileNodesInListingOrder(entries, relativeParentPath, options, platform)
  {
    var nodes := FileNodesInListingOrder(entries, relativeParentPath, options, platform);
    if nodes.Err? then
      nodes
    else
      ListingNamesAreKeptNames(entries, relativeParentPath, options, platform);
      if options.orderNotesByTitle then
        var sorted := SortByTitle(nodes.value, cmp);
        NamesOfPermutation(nodes.value, sorted);
        PermutationKeepsNotes(nodes.value, sorted);
        Ok(sorted)
      else
        nodes
  }

  lemma ListingNamesAreKeptNames(entries: seq<Entry>, relativeParentPath: string, options: Options, platform: Platform)
    requires FileNodesInListingOrder(entries, relativeParentPath, options, platform).Ok?
    ensures var nodes := FileNodesInListingOrder(entries, relativeParentPath, options, platform).value;
            NodeNames(nodes) == EntryNames(KeptFiles(entries, relativeParentPath, options, platform))
            && forall k :: 0 <= k < |nodes| ==> nodes[k].FileNode?
  {
  }

  lemma PermutationKeepsNotes(a: seq<TreeNode>, b: seq<TreeNode>)
    requires multiset(a) == multiset(b)
    requires forall k :: 0 <= k < |a| ==> a[k].FileNode?
    ensures forall k :: 0 <= k < |b| ==> b[k].FileNode?
  {
    forall k | 0 <= k < |b| ensures b[k].FileNode? {
      assert b[k] in multiset(a);
    }
  }

  /** `buildTree`: the tree of the notes root. */
  function BuildTree(root: seq<Entry>, options: Options, platform: Platform, cmp: (string, string) -> int)
    : (r: Result<seq<TreeNode>>)
    ensures r.Ok? <==> AllTitled(root, "", options, platform)
    ensures r.Err? ==> NamesUntitled(r.message, FirstUntitledIn(root, "", options, platform), platform)
  {
    BuildTreeStartingAt(root, "", options, platform, cmp)
  }

  // --------------------------------------------------------------- sorting

  /** The comparator orders any two titles one way or the other. */
  ghost predicate Total(cmp: (string, string) -> int) {
    forall a, b :: cmp(a, b) <= 0 || cmp(b, a) <= 0
  }

  /** Every node's title is ordered no later than its successor's. */
  predicate TitleSorted(nodes: seq<TreeNode>, cmp: (string, string) -> int) {
    forall k :: 0 <= k < |nodes| - 1 ==> cmp(nodes[k].title, nodes[k + 1].title) <= 0
  }

  /** Put `node` in front of the first node it does not come after; equal
      titles keep `node` ahead of the later nodes. */
  function InsertByTitle(node: TreeNode, sorted: seq<TreeNode>, cmp: (string, string) -> int): (r: seq<TreeNode>)
    ensures multiset(r) == multiset(sorted) + multiset{node}
    ensures |r| > 0 && (r[0] == node || (|sorted| > 0 && r[0] == sorted[0]))
  {
    if sorted == [] || cmp(node.title, sorted[0].title) <= 0 then
      [node] + sorted
    else
      assert sorted == [sorted[0]] + sorted[1..];
      [sorted[0]] + InsertByTitle(node, sorted[1..], cmp)
  }

  lemma {:induction false} InsertKeepsSorted(node: TreeNode, sorted: seq<TreeNode>, cmp: (string, string) -> int)
    requires Total(cmp) && TitleSorted(sorted, cmp)
    ensures TitleSorted(InsertByTitle(node, sorted, cmp), cmp)
  {
    if sorted != [] && cmp(node.title, sorted[0].title) > 0 {
      assert cmp(sorted[0].title, node.title) <= 0;
      var rest := InsertByTitle(node, sorted[1..], cmp);
      InsertKeepsSorted(node, sorted[1..], cmp);
      var r := [sorted[0]] + rest;
      assert r == InsertByTitle(node, sorted, cmp);
      forall k | 0 <= k < |r| - 1 ensures cmp(r[k].title, r[k + 1].title) <= 0 {
        if k > 0 {
          assert r[k] == rest[k - 1] && r[k + 1] == rest[k];
        }
      }
    }
  }

  /** The array sort of `getTreeNodesForFiles` with the title comparator:
      stable insertion. */
  function SortByTitle(nodes: seq<TreeNode>, cmp: (string, string) -> int): (r: seq<TreeNode>)
    ensures multiset(r) == multiset(nodes)
    ensures Total(cmp) ==> TitleSorted(r, cmp)
  {
    if nodes == [] then []
    else
      assert nodes == [nodes[0]] + nodes[1..];
      var rest := SortByTitle(nodes[1..], cmp);
      assert Total(cmp) ==> TitleSorted(InsertByTitle(nodes[0], rest, cmp), cmp) by {
        if Total(cmp) {
          InsertKeepsSorted(nodes[0], rest, cmp);
        }
      }
      InsertByTitle(nodes[0], rest, cmp)
  }

  /** A permutation of nodes permutes their names. */
  lemma {:induction false} NamesOfPermutation(a: seq<TreeNode>, b: seq<TreeNode>)
    requires multiset(a) == multiset(b)
    ensures multiset(NodeNames(a)) == multiset(NodeNames(b))
    decreases |a|
  {
    if a == [] {
      assert |b| == |multiset(b)| == 0;
    } else {
      var x := a[0];
      assert x in multiset(b);
      var i :| 0 <= i < |b| && b[i] == x;
      var b' := b[..i] + b[i + 1..];
      assert b == b[..i] + [x] + b[i + 1..];
      assert a == [x] + a[1..];
      assert multiset(b) == multiset(b[..i]) + multiset{x} + multiset(b[i + 1..]);
      assert multiset(a) == multiset{x} + multiset(a[1..]);
      assert multiset(b') == multiset(b[..i]) + multiset(b[i + 1..]);
      assert multiset(a[1..]) == multiset(a) - multiset{x};
      assert multiset(b') == multiset(b) - multiset{x};
      NamesOfPermutation(a[1..], b');
      NamesConcat([], [], [x], a[1..]);
      NamesConcat([], [], b[..i] + [x], b[i + 1..]);
      NamesConcat([], [], b[..i], [x]);
      NamesConcat([], [], b[..i], b[i + 1..]);
    }
  }

  /** Comparing equal is an equivalence: two titles that both compare equal
      to a third compare equal to each other, as with a collation. */
  ghost predicate EqualityConsistent(cmp: (string, string) -> int) {
    forall a, b, c :: cmp(a, c) == 0 && cmp(b, c) == 0 ==> cmp(a, b) == 0
  }

  /** The nodes whose title compares equal to `t`, in their order. */
  function SameTitle(nodes: seq<TreeNode>, t: string, cmp: (string, string) -> int): seq<TreeNode> {
    if nodes == [] then []
    else (if cmp(nodes[0].title, t) == 0 then [nodes[0]] else []) + SameTitle(nodes[1..], t, cmp)
  }

  /** Inserting a node puts it in front of every node of its title class. */
  lemma {:induction false} InsertBeforeEqualTitles(node: TreeNode, sorted: seq<TreeNode>, t: string,
                                                   cmp: (string, string) -> int)
    requires EqualityConsistent(cmp)
    ensures SameTitle(InsertByTitle(node, sorted, cmp), t, cmp)
         == (if cmp(node.title, t) == 0 then [node] else []) + SameTitle(sorted, t, cmp)
    decreases |sorted|
  {
    var r := InsertByTitle(node, sorted, cmp);
    if sorted == [] || cmp(node.title, sorted[0].title) <= 0 {
      assert r[1..] == sorted;
    } else {
      var head, rest := sorted[0], InsertByTitle(node, sorted[1..], cmp);
      assert r[1..] == rest;
      InsertBeforeEqualTitles(node, sorted[1..], t, cmp);
      var h := if cmp(head.title, t) == 0 then [head] else [];
      var n := if cmp(node.title, t) == 0 then [node] else [];
      assert cmp(node.title, t) == 0 ==> cmp(head.title, t) != 0;
      assert h == [] || n == [];
      assert SameTitle(r, t, cmp) == h + (n + SameTitle(sorted[1..], t, cmp));
      assert SameTitle(sorted, t, cmp) == h + SameTitle(sorted[1..], t, cmp);
    }
  }

  /** The sort is stable: within every title class, the nodes keep their
      input order. */
  lemma {:induction false} SortIsStable(nodes: seq<TreeNode>, t: string, cmp: (string, string) -> int)
    requires EqualityConsistent(cmp)
    ensures SameTitle(SortByTitle(nodes, cmp), t, cmp) == SameTitle(nodes, t, cmp)
    decreases |nodes|
  {
    if nodes != [] {
      SortIsStable(nodes[1..], t, cmp);
      InsertBeforeEqualTitles(nodes[0], SortByTitle(nodes[1..], cmp), t, cmp);
    }
  }

  // ---------------------------------------------------------------- lemmas

  /** With title ordering, notes whose titles compare equal, such as "Notes"
      and "notes" under a base-sensitivity collation, stay in listing order. */
  lemma EqualTitlesKeepListingOrder(entries: seq<Entry>, relativeParentPath: string, options: Options,
                                    platform: Platform, cmp: (string, string) -> int, t: string)
    requires options.orderNotesByTitle && EqualityConsistent(cmp)
    requires TreeNodesForFiles(entries, relativeParentPath, options, platform, cmp).Ok?
    ensures SameTitle(TreeNodesForFiles(entries, relativeParentPath, options, platform, cmp).value, t, cmp)
         == SameTitle(FileNodesInListingOrder(entries, relativeParentPath, options, platform).value, t, cmp)
  {
    SortIsStable(FileNodesInListingOrder(entries, relativeParentPath, options, platform).value, t, cmp);
  }

  /** Without title ordering, the notes of a level are exactly its kept
      Markdown files in listing order, each titled from its first line. */
  lemma NotesInListingOrder(entries: seq<Entry>, relativeParentPath: string, options: Options,
                            platform: Platform, cmp: (string, string) -> int)
    requires !options.orderNotesByTitle
    requires TreeNodesForFiles(entries, relativeParentPath, options, platform, cmp).Ok?
    ensures var nodes := TreeNodesForFiles(entries, relativeParentPath, options, platform, cmp).value;
            var kept := KeptFiles(entries, relativeParentPath, options, platform);
            |nodes| == |kept|
            && forall k :: 0 <= k < |kept| ==>
                 nodes[k].filename == kept[k].name
                 && Some(nodes[k].title) == TitleFromMarkdownContents(kept[k].contents)
  {
  }

  /** Kept entries are exactly the listing's entries of the kind that the
      ignore rules let through. */
  lemma {:induction false} KeptFilesAreKept(entries: seq<Entry>, relativePath: string, options: Options, platform: Platform)
    ensures forall e :: e in KeptFiles(entries, relativePath, options, platform) <==>
      e in entries && KeptFile(e, relativePath, options, platform)
    ensures forall e :: e in KeptDirectories(entries, relativePath, options, platform) <==>
      e in entries && KeptDirectory(e, relativePath, options, platform)
    decreases |entries|
  {
    if entries != [] {
      KeptFilesAreKept(entries[1..], relativePath, options, platform);
      assert forall e :: e in entries <==> e == entries[0] || e in entries[1..];
    }
  }
}
