# markdown-notes-tree, modelled in Dafny

markdown-notes-tree walks a directory of Markdown notes and builds a tree.
The tree holds every kept subdirectory and every kept note, and each note is
titled by its first-line heading. The tool renders the tree as a nested
bullet list of links. It writes that list into the main `README.md`,
between two marker comments, and it writes a fully generated `README.md`
into every subdirectory.

This project models the pure core of the tool as immutable Dafny data and
functions:

- `results.dfy` (`Results`): `Option` and `Result`. A thrown `Error` becomes
  `Err(message)`, and `undefined` becomes `None`.
- `text.dfy` (`Text`): the JavaScript string operations the core relies on,
  namely `indexOf`, `repeat`, `join`, `split` and `startsWith`/`endsWith`.
  It also proves the split/join round trips.
- `collaborators.dfy` (`Collaborators`): the foreign functions, passed in as
  function-valued fields. These are `path.join`, `minimatch`,
  `process.cwd()` and the two inline-Markdown helpers.
- `tree.dfy` (`Tree`): the tree node, its pre-order walk, and the
  indentation unit and link target that both renderers share.
- `file_contents.dfy` (`FileContents`): `src/file-contents.js`. It covers
  title extraction, the plain renderer, the main-README marker splice with
  its idempotence, and the directory README.
- `tree_markdown.dfy` (`TreeMarkdown`): `src/tree-markdown-generator.js`.
  It covers the renderer with descriptions, inline or on a continuation
  line, with every physical line indented with its node.
- `ignores.dfy` (`Ignores`): `src/ignores.js`, the directory and file
  ignore rules.
- `tree_builder.dfy` (`TreeBuilder`): `src/tree-builder.js`. It runs over
  an abstract file system, where an entry is a file with contents or a
  directory with its own listing, in enumeration order.
- `markdown_parser.dfy` (`MarkdownParser`): the mdast queries of
  `src/markdown-parser.js`, over an mdast node datatype.
- `options_parser.dfy` (`OptionsParser`): `src/options-parser.js`. The
  arguments arrive already parsed, as an ordered list of key/value pairs.

Most operations come with a partner:

- an independent reference definition, such as the pre-order walk for the
  renderers, the descendant list for the link-content check, and the kept
  entries for the builder;
- an inverse, such as title write/read and split/join;
- or an invariant, such as idempotence of the marker splice, sortedness
  plus permutation for the note order, and key set and typing for the
  options.

The end-of-line string is a parameter. Where a lemma needs it, it is
`"\n"` or `"\r\n"`, the two values `os.EOL` takes.

## Model

| member | source | states |
|---|---|---|
| Text.IndexOf | src/file-contents.js:88 | The result is -1 exactly when the pattern does not occur. Otherwise it is an offset where the pattern occurs, with no occurrence before it. |
| Text.Split | src/tree-markdown-generator.js:21 | Splitting on a non-empty separator gives at least one piece, and no piece contains the separator. |
| Text.JoinSplit | src/tree-markdown-generator.js:21 | Joining the pieces of a split with the same separator gives back the original text. |
| Text.SplitJoin | src/tree-markdown-generator.js:21 | Splitting a join of separator-free pieces at an anchored separator gives back the pieces. |
| Tree.IndentationUnitShape | src/tree-markdown-generator.js:40-47 | The indentation unit is one tab with `useTabs`, and exactly four spaces otherwise. |
| Tree.LinkTarget | src/tree-markdown-generator.js:80-89 | The link target is the ancestors' path, "/" and the node's filename (just the filename at top level). "/README.md" is appended only for a directory when subdirectory readmes are linked. |
| FileContents.FirstLine | src/file-contents.js:11 | The first line is a break-free prefix of the contents. It is followed by "\r" or "\n", or by the end, so CRLF, CR and LF behave alike. |
| FileContents.TitleFromMarkdownContents | src/file-contents.js:10-18 | A title exists exactly when the contents start with "# ". It then has no line break, follows "# " directly, and ends at a line break or the end. |
| FileContents.TitleOfFirstLine | src/file-contents.js:10-18 | The title depends on the first line only: it is that line minus "# ", or nothing when the line does not start with "# ". |
| FileContents.TitleRoundTrip | src/file-contents.js:11-14 | A heading "# t" followed by any line break or the end reads back as `t` whenever `t` has no line break. |
| FileContents.LinkText | src/file-contents.js:65-71 | A note's link text is its title. A directory's is its title between "**" markers, and the title reads back from between them. |
| FileContents.MarkdownLineForTreeNode | src/file-contents.js:59-63 | A bullet is "- [", the link text, "](", the link target and ")"; text and target read back from their places. |
| FileContents.MarkdownLineStaysOnOneLine | src/file-contents.js:20-63 | A bullet holds no line terminator when neither the title nor the link target holds one, so joining bullets with the terminator keeps one line per node. |
| FileContents.MarkdownLinesForTree | src/file-contents.js:25-48 | The plain renderer gives exactly one line per node of the tree, descendants included. |
| FileContents.MarkdownLinesFollowWalk | src/file-contents.js:25-48 | Each line of the rendering, prefixed with `depth` units, is that many units plus the depth-indented bullet of the matching node in the pre-order walk. |
| FileContents.MarkdownForTreeIsOutline | src/file-contents.js:20-71 | The rendered tree is the walk's reference rendering joined by the line terminator. Each node gets one line: depth units, then "- [text](target)". |
| FileContents.MarkdownForTree | src/file-contents.js:20-23 | An empty tree renders as the empty string. |
| FileContents.ContentsBeforeTree | src/file-contents.js:88-95 | The kept prefix is the text before the first start marker, or the whole text plus two line terminators when there is no start marker. |
| FileContents.ContentsAfterTree | src/file-contents.js:97-106 | The kept suffix is the text after the first end marker, or one line terminator when there is no end marker. |
| FileContents.NewMainReadmeContents | src/file-contents.js:84-117 | The merge fails exactly when a start marker occurs and the first end marker precedes it, with the fixed message. Otherwise the result is prefix + start marker + 2 EOL + tree + 2 EOL + end marker + suffix. |
| FileContents.MarkersNeverShareOffset | src/file-contents.js:85-86 | The start and end markers never begin at the same offset, so the index comparison is strict. |
| FileContents.MergeInOrder | src/file-contents.js:84-117 | A text with no end marker, or with its first start marker ahead of its first end marker, is accepted. The result is its kept prefix, the section and its kept suffix. |
| FileContents.RemergeGeneratedText | src/file-contents.js:84-117 | A prefix free of both markers, followed by a generated section and any suffix, merges again to exactly itself. |
| FileContents.MainReadmeIdempotent | src/file-contents.js:84-117 | Suppose the tree text has no end marker and the original has no end marker, or its first end marker follows its first start marker. Then merging the result again with the same tree changes nothing. |
| FileContents.StrayEndMarkerMerge | src/file-contents.js:91-116 | For a text with an end marker and no start marker, the merge gives the whole text, two line terminators, the section, and then the text after the stray end marker once more. |
| FileContents.EndMarkerAloneBreaksIdempotence | src/file-contents.js:100-101 | A text with an end marker and no start marker is accepted, with the output above. The text the merge makes from it is refused on the next merge. |
| FileContents.MergeAfterStrayEndMarkerRefused | src/file-contents.js:100-101 | A text with a stray end marker, followed by two line terminators, a generated section and anything else, is refused. |
| FileContents.NewMainReadmeContentsStrict | src/file-contents.js:97-106 | The corrected merge fails exactly when the text has an end marker not preceded by a start marker. Otherwise its output has the same shape as the original merge. |
| FileContents.StrictMergeAgrees | src/file-contents.js:100-106 | The corrected merge equals the original on every text except one with an end marker and no start marker. There the original accepts and the corrected one refuses. |
| FileContents.StrictMergeIdempotent | src/file-contents.js:84-117 | Every text the corrected merge accepts merges again to itself. |
| FileContents.DirectoryReadmeContents | src/file-contents.js:121-133 | The directory README starts with the generated-file comment, two line terminators and "# name". It ends with two line terminators, the tree and one line terminator. Its length is exactly the sum of those parts, so nothing lies between them. |
| FileContents.DirectoryReadmeHeadingReadsBack | src/file-contents.js:121-133 | Read through the note title reader, the heading line of a directory README gives back the directory name. |
| TreeMarkdown.DescriptionSeparator | src/tree-markdown-generator.js:91-97 | For either line terminator, the separator holds a line terminator exactly when descriptions go on a new line. |
| TreeMarkdown.LinkParagraphText | src/tree-markdown-generator.js:66-78 | A note's link paragraph is its title. A directory's is its title with strong emphasis removed, between "**" markers, and it reads back from between them. |
| TreeMarkdown.LinkTextsAgree | src/tree-markdown-generator.js:66-78 | When removing strong emphasis leaves a title unchanged, this renderer shows the same link text as the plain renderer. |
| TreeMarkdown.MarkdownForTreeNode | src/tree-markdown-generator.js:49-64 | A node's text starts with its bullet (`BasicLine`: "- " and the link the inline-markdown helper builds from the link paragraph and target) and ends with its description. It is the bare bullet exactly when the description is empty. Otherwise exactly the separator lies between the bullet and the description. |
| TreeMarkdown.MarkdownForTree | src/tree-markdown-generator.js:9-12 | An empty tree renders as the empty string. |
| TreeMarkdown.MarkdownLinesForTree | src/tree-markdown-generator.js:14-38 | An empty forest gives no lines, and every top-level node gives at least one line. The content of the lines is pinned by `TreeMarkdown.MarkdownLinesFollowWalk`. |
| TreeMarkdown.MarkdownLinesFollowWalk | src/tree-markdown-generator.js:14-38 | Rendering at depth `depth` and indenting by `depth` units gives the reference rendering of the pre-order walk. Every physical line of a node's text, continuation lines included, carries one unit per nesting level. |
| TreeMarkdown.MarkdownForTreeIsOutline | src/tree-markdown-generator.js:9-38 | The rendered tree is the reference rendering of the pre-order walk, joined by the line terminator. |
| TreeMarkdown.NodeTextLines | src/tree-markdown-generator.js:49-97 | If no piece holds the line terminator, a node's lines are: the bullet; or the bullet, " - " and the description; or the bullet plus two spaces, then one unit plus the description. |
| TreeMarkdown.LineCount | src/tree-markdown-generator.js:14-38 | If no piece holds the line terminator, there is one line per node, plus one per described node when descriptions go on their own line. |
| Ignores.AnyGlobMatches | src/ignores.js:32-42 | The glob loop reports true exactly when some glob of the list matches the path. |
| Ignores.ShouldIgnoreDirectory | src/ignores.js:8-14 | A directory is ignored exactly when the name rule applies or some ignore glob matches its joined relative path. |
| Ignores.ShouldIgnoreFile | src/ignores.js:24-30 | A file is ignored exactly when it does not end in ".md", is the readme, or some ignore glob matches its joined relative path. |
| Ignores.DirectoryNameRule | src/ignores.js:16-22 | Without include-all, a hidden, private or `node_modules` directory is ignored. Any other directory is ignored exactly when a glob matches it. |
| Ignores.IncludeAllLeavesOnlyGlobs | src/ignores.js:8-22 | With include-all, a directory is ignored exactly when a glob matches it. |
| Ignores.GlobAlwaysWins | src/ignores.js:8-30 | A matching glob ignores directories and files, whatever the include-all flag says. |
| Ignores.FileRule | src/ignores.js:24-30 | A file is kept exactly when it is a ".md" file other than the readme that no glob matches. With no globs, every such Markdown file is kept. |
| Ignores.MoreGlobsIgnoreMore | src/ignores.js:32-42 | Adding globs never un-ignores a directory or a file. |
| TreeBuilder.TitleFromMarkdownFileOrThrow | src/tree-builder.js:67-77 | A note's title is returned exactly when the note has a non-empty title. Otherwise the error names the absolute path. |
| TreeBuilder.FirstUntitledNote | src/tree-builder.js:50-56 | The index is -1 exactly when every kept note of the listing has a title. Otherwise it points at a kept note without a title, and every kept note before it has one. |
| TreeBuilder.FirstUntitledIn | src/tree-builder.js:16-26 | There is a first untitled note in build order exactly when some kept note at any depth lacks a title. Subdirectories are searched first, then the listing's own notes. |
| TreeBuilder.FirstUntitledBelow | src/tree-builder.js:28-45 | There is a first untitled note inside the kept subdirectories exactly when some kept subdirectory holds a kept note without a title. |
| TreeBuilder.BuildTreeStartingAt | src/tree-builder.js:16-26 | The build succeeds exactly when every kept note at any depth has a title. A failure's message names the absolute path of the first untitled note in build order, since subdirectories are built before the listing's own notes are read. |
| TreeBuilder.BuildTreeShape | src/tree-builder.js:16-26 | No note precedes a directory. The directory nodes are the kept subdirectories in listing order, each holding its own build. The nodes after them are note nodes: exactly the result of the notes step, a permutation of the listing-order note nodes. |
| TreeBuilder.TreeNodesForDirectories | src/tree-builder.js:28-45 | The directory nodes are built exactly when every kept subdirectory's build succeeds. A failure's message names the absolute path of the first untitled note inside the kept subdirectories, in listing order. |
| TreeBuilder.DirectoryNodesBuilt | src/tree-builder.js:28-45 | There is one node per kept subdirectory, in listing order, named and titled after it with no description. Its children are the build of that subdirectory at the joined path. |
| TreeBuilder.DirectoryNodeNames | src/tree-builder.js:33-40 | The directory nodes carry exactly the names of the kept subdirectories, in order. |
| TreeBuilder.FileNodesInListingOrder | src/tree-builder.js:47-59 | There is one node per kept note, in listing order, with the note's name and title. It fails exactly when some kept note has no title. The message then names the absolute path of the first kept note without a title. |
| TreeBuilder.TreeNodesForFiles | src/tree-builder.js:47-65 | The note nodes are a permutation of the listing-order nodes. They are sorted by title under any total comparator when title ordering is on, and unchanged when it is off. A failure is the listing-order failure, so it names the same note. |
| TreeBuilder.EqualTitlesKeepListingOrder | src/tree-builder.js:60-62 | With title ordering and a comparator whose equality is an equivalence, the notes whose titles compare equal to any title keep their listing order. |
| TreeBuilder.SortIsStable | src/tree-builder.js:60-62 | The sort is stable: within every title class, the nodes keep their input order. |
| TreeBuilder.InsertBeforeEqualTitles | src/tree-builder.js:60-62 | Inserting a node puts it in front of every node of its own title class and leaves that class's order unchanged. |
| TreeBuilder.SortByTitle | src/tree-builder.js:60-62 | The sort is a permutation of its input, and its output is ordered by title when the comparator is total. |
| TreeBuilder.InsertKeepsSorted | src/tree-builder.js:60-62 | Inserting a node into a title-ordered list keeps it ordered. |
| TreeBuilder.NamesOfPermutation | src/tree-builder.js:60-62 | Permuting nodes permutes their filenames, so sorting loses and duplicates no note. |
| TreeBuilder.NotesInListingOrder | src/tree-builder.js:47-59 | Without title ordering, the i-th note node is the i-th kept note of the listing, titled from its first line. |
| TreeBuilder.KeptFilesAreKept | src/tree-builder.js:19-20 | The kept files and kept directories are exactly the listing's entries of that kind that the ignore rules let through. |
| TreeBuilder.BuildTree | src/tree-builder.js:12-14 | Building from the notes root succeeds exactly when every kept note below it has a title. Otherwise the message names the absolute path of the first untitled note in build order. |
| MarkdownParser.FindFirst | src/markdown-parser.js:46 | The search finds the index of the first node satisfying the predicate, or nothing exactly when no node does. |
| MarkdownParser.FirstLevel1HeadingChild | src/markdown-parser.js:41-47 | The result is the first child that is a heading of depth 1. It is nothing exactly when the node has no children or no child qualifies. |
| MarkdownParser.FirstHtmlChildWithValue | src/markdown-parser.js:63-69 | The result is the first child that is an HTML node with exactly the given value. It is nothing exactly when the node has no children or none qualifies. |
| MarkdownParser.IsContentAllowedInsideLink | src/markdown-parser.js:49-61 | A node without children qualifies. Otherwise every child has an allowed type and qualifies itself, as `every` checks. |
| MarkdownParser.AllowedInsideLinkIffDescendants | src/markdown-parser.js:49-61 | The recursive check holds exactly when every descendant's type is one of the eight allowed types. |
| MarkdownParser.ContentSpansChildren | src/markdown-parser.js:79-95 | For a well-positioned node with children, the content range starts no later than any child starts and ends no earlier than any child ends, and it does not run backwards. |
| MarkdownParser.ChildlessContentIsEmptyAtEnd | src/markdown-parser.js:79-95 | For a node without children, content start, content end and end coincide. |
| MarkdownParser.ContentWithinNode | src/markdown-parser.js:71-95 | For well-nested positions, start <= content start <= content end <= end. |
| OptionsParser.MakeStringArray | src/options-parser.js:47-55 | The result is always a string array. A falsy or absent value gives [], a scalar gives its text, and an array gives the text of each element. |
| OptionsParser.NormaliseIgnore | src/options-parser.js:27-28 | After normalisation `ignore` is present and a string array. Every other argument is untouched, and `[]` is appended when `ignore` was absent. |
| OptionsParser.IsSameType | src/options-parser.js:57-59 | Two values pass exactly when their `Object.prototype.toString` texts are equal. |
| OptionsParser.Merge | src/options-parser.js:30-44 | The merge succeeds exactly when every argument is an own key of the defaults with a value of the right type, or the positional key. Names inherited from `Object.prototype` are known keys that never have the right type. An error carries the message for the first bad argument. On success, the keys are kept, and each known key takes its last given value or keeps its old one. |
| OptionsParser.GetOptions | src/options-parser.js:26-45 | The result has exactly the default keys. It succeeds exactly when every normalised argument is acceptable, and otherwise reports the first bad one. Each option is the given value or the default. |
| OptionsParser.LookupFinds | src/options-parser.js:35-36 | A key has a value exactly when some argument names it, and the value found belongs to such an argument. |
| OptionsParser.IgnoreAlwaysWellTyped | src/options-parser.js:27-28 | The normalised `ignore` never fails the type check. |
| OptionsParser.OnlyPositionalGivesDefaults | src/options-parser.js:24-44 | Arguments holding only the positional key give exactly the default options. |
| OptionsParser.UnknownKeyRejected | src/options-parser.js:39-40 | Any unknown key other than the positional one makes the result an error. |
| OptionsParser.InheritedNameRejected | src/options-parser.js:33-38 | An argument named after an inherited property such as `toString` is refused as "Unexpected use of argument", not as unknown. |
| OptionsParser.WrongTypeRejected | src/options-parser.js:37-38 | A known key whose value has another type tag than its default makes the result an error. |
| OptionsParser.GetOptionsWellTyped | src/options-parser.js:32-36 | On success, every option has its default's type tag and `ignore` is a string array. |
| OptionsParser.ParseOptions | src/options-parser.js:26-45 | The typed options exist exactly when the merge succeeds, and an error keeps its message. |
| OptionsParser.DefaultsWhenNoArguments | src/options-parser.js:5-19 | With no arguments, every typed option has its documented default. |

## Left out

- `index.js` at the repository root is an older standalone script. Its rules duplicate the `src/` modules with older semantics, and it does file I/O when loaded.
- `src/tree-writer.js`, `src/index.js`, `cli.js`, `src/logger.js` and `src/path-utils.js` are left out. They do file reads and writes, console output and global logging state. `getAbsolutePath` is kept only as the `cwd`/`join` pair of `Collaborators.Platform`.
- `fs.readdirSync`/`readFileSync`: the file system is an `Entry` value, already read. The listing order is whatever the value holds. Read errors and non-regular files are not modelled: every non-directory entry is a file with contents.
- `path.join`, `minimatch` and `process.cwd()` are uninterpreted function fields, and nothing is assumed about them.
- `generateLinkFromMarkdownParagraphAndUrl` and `removeStrongFromMarkdown` are called by the renderer, but they are not part of the markdown-parser file modelled here. They are uninterpreted function fields.
- `mdast-util-from-markdown` and `getAstNodeFromContents` with its cache: the parser is foreign and the cache only memoizes it. The model takes mdast trees as input.
- minimist: the model starts from its output. Numbers are integers, so floating-point option values are not modelled. `toString` of a number is its decimal integer text.
- The order of keys in `for...in` is taken to be the order of the argument list. JavaScript visits integer-like keys first, and that quirk is not modelled. It only changes which of several bad keys is reported.
- `TreeBuilder.SortByTitle`: `localeCompare` with ICU collation is a comparator parameter. The sort is a stable insertion sort, as the ES2019 array sort is stable. Sortedness is proved only for a total comparator. Stability is proved only for a comparator whose "compares equal" is an equivalence, as a collation's is.
- `TreeBuilder.TreeNodesForFiles`: its own contract gives a sorted permutation. The order among equal titles is stated separately, in `TreeBuilder.EqualTitlesKeepListingOrder`, under the same comparator assumption as the line above.
- `OptionsParser.Merge`: of the names `in` finds on a plain object, `__proto__` is left out. The argument parser's handling of that key is not part of this model, so it is treated as an unknown argument.
- The options record is one value, `OptionsParser.Options`. The ignore rules read `environment.options`, the builder passes `options`, and the generator reads `environment`. `TreeMarkdown.Environment` holds just the fields the generator reads.
- The two renderers read different property names: `title` in `src/file-contents.js` and `titleParagraph`/`descriptionParagraph` in `src/tree-markdown-generator.js`. The single `TreeNode` uses `title` and `description` for both. The builder sets no description, which the model writes as `""` (both are falsy).
- Options that the modelled core never reads, such as `includeUpwardNavigation`, `noSubdirectoryTrees`, `notesBeforeDirectories`, `numberSpaces`, `silent` and `allowMissingTitle`, are parsed and typed but drive nothing.
- The legacy marker spellings, description markers and the `getNewDirectoryReadmeContents`, `getAstNodeFromMarkdown` and `hasLinkDescendant` functions exist only in the tests, not in the modelled code.
- The empty `getNewMainReadmeContentsAfterEndMarker` at src/file-contents.js:119 is never called.
- `TreeMarkdown.LineCount` and `TreeMarkdown.NodeTextLines` assume that no title, link or description contains the line terminator. Without that, the count depends on the foreign link helper.
- `FileContents.MainReadmeIdempotent` assumes the tree text holds no end marker and the line terminator is `"\n"` or `"\r\n"`. Other inputs are not covered.

## Findings

| source | as written | input that shows it | evidently intended | confidence | as-written member | corrected member |
|---|---|---|---|---|---|---|
| src/file-contents.js:100-101 | The order check `indexEndMarker < indexStartMarker` compares against -1 when there is no start marker. So an end marker without a start marker is accepted. The whole text is kept with two line terminators, the new section follows, and the text after the stray end marker is written a second time behind the section. | `"x<!-- auto-generated notes tree ends here -->"` with any tree. The first merge succeeds. Merging its output again fails with "tree end marker found before tree start marker", because the stray end marker now precedes the generated start marker. | An end marker with no preceding start marker is refused, with the same message. The test at src/file-contents.spec.js:159-170 expects exactly that. | not executed | FileContents.EndMarkerAloneBreaksIdempotence | FileContents.NewMainReadmeContentsStrict |

`FileContents.StrictMergeIdempotent` proves the intended property for the
corrected merge: every text it accepts merges again to itself.
`FileContents.StrictMergeAgrees` shows that the two merges differ only on
texts with an end marker and no start marker.
