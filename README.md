# web-diff-viewer: diff normalisation and file tree, in Dafny

A model of the core of a browser viewer for unified diffs (GitLab patch text),
with proofs about it. The model covers two parts of the program.

- **The normalisation layer** (`src/utils/diff.ts`). It takes the file records
  that the `parse-diff` tokenizer produces and turns them into the viewer's
  file descriptors, plus a dictionary of presentation hunks keyed by file id.
  This covers:
  - stripping the marker of each line;
  - choosing the old-side, new-side and single line number of each line;
  - classifying each file as add, modify, delete, rename or binary;
  - normalising paths;
  - building the positional id `${index}-${from}-${to}`.
- **The file-tree helpers of the page** (`src/App.tsx`):
  - the display path and display name of a file;
  - the highlighting language chosen from the extension;
  - the change badges;
  - the restored selection;
  - `buildFileTree`, which files every file under the directories of its
    display path;
  - the `collapsedDirs` record, which a click toggles and which is cleared
    above the selected file;
  - `buildFlatTreeRows`, which flattens the tree into the rows of the sidebar.

Modules, one per file:

- `Wrappers`: the `Option` type that stands for an optional field, with
  `??` as `OrElse` and `GetOr`.
- `Text`: splitting on a separator, `filter(Boolean)`, joining directory
  paths, decimal rendering of an index, ASCII lower-casing.
- `Sorting`: the sort by a string key that stands in for `localeCompare`.
- `DiffTypes`: the tokenizer's records and the viewer's records.
- `Diff`: `src/utils/diff.ts`.
- `Display`: display path and name, language, badges, initial selection.
- `CollapsedDirs`: the collapsed-directory record and its two updaters.
- `TreeSpec`: the directory tree of a file list, described as values. It
  gives:
  - each file's directory key;
  - the directories of the tree;
  - each directory's child names, in first-reached order;
  - each directory's files, in input order.
- `FileTree`: `buildFileTree`. The nodes form a `class` whose `children` and
  `files` fields the methods update in place. Ghost maps from directory keys
  to nodes tie the built tree to `TreeSpec`.
- `TreeRows`: `buildFlatTreeRows`. It is proved to produce exactly the rows
  `Rows` describes. Lemmas state which files and directory headers those
  rows show under a given collapsed record, and in what order.

The `collapsedDirs` record (`collapsedDirs[path]`) and `languageByExtension`
(`languageByExtension[match]`) are plain JavaScript objects. An index
expression on them also finds the members inherited from `Object.prototype`.
The model states that reading (`…AsWritten`) next to the intended
own-entry lookup, which the rest of the model uses. See "## Findings".

## Model

| member | source | states |
|---|---|---|
| Diff.StripDiffPrefix | src/utils/diff.ts:26-35 | the result is a suffix of the content, exactly one character shorter when the content starts with '+', '-' or ' ', and the whole content otherwise (the empty string included) |
| Diff.StripMarkerRoundTrip | src/utils/diff.ts:26-35 | stripping undoes prefixing a line's marker: strip(marker + body) == body for every kind and body |
| Diff.GetChangeLineNumber | src/utils/diff.ts:37-45 | an added line takes `ln2 ?? ln ?? ln1`, a removed line `ln1 ?? ln ?? ln2`, a context line nothing; a number is found exactly when the line is not context and one of the three is present |
| Diff.ToLine | src/utils/diff.ts:47-57 | the kind is kept; content is stripped; an added line has no old number and a removed line no new one; otherwise each side takes its own field (`ln1`/`ln2`) and falls back to `ln`, and is null exactly when both are absent |
| Diff.ViewKindOf | src/utils/diff.ts:65 | an added line is an insertion, a removed line a deletion and a context line unchanged, and no two kinds share a name |
| Diff.ToViewChange | src/utils/diff.ts:59-71 | agrees with the line model on content and both numbers, with the kind renamed; `lineNumber` is absent for a context line, and for an added (removed) line equals the new (old) number whenever that is present |
| Diff.ToHunk | src/utils/diff.ts:73-79 | the four header numbers are copied, and line i is the line model of change i |
| Diff.ToViewHunk | src/utils/diff.ts:81-88 | header text and numbers are copied, and change i is the presentation of change i |
| Diff.HunkProjectionsAgree | src/utils/diff.ts:47-88 | the two projections of a hunk agree line by line on kind, content and both line numbers |
| Diff.ToHunks | src/utils/diff.ts:123 | one line-model hunk per chunk, in order |
| Diff.ToViewHunks | src/utils/diff.ts:124 | one presentation hunk per chunk, in order |
| Diff.LinesFollowCounters | src/utils/diff.ts:47-57 | when the tokenizer numbers the changes by running old/new counters, the line model carries those counters: both on context lines, only the new one on added lines, only the old one on removed lines |
| Diff.ViewChangesFollowCounters | src/utils/diff.ts:59-71 | under the same numbering, the presentation model carries the counters, and its single `lineNumber` is the new counter on insertions, the old counter on deletions, absent on context lines |
| Diff.HunkNumbering | src/utils/diff.ts:73-88 | a hunk numbered from its header's start lines gives both projections numbered from those starts |
| Diff.ExampleHunk | src/utils/diff.ts:59-88 | the hunk `@@ -1,2 +1,3 @@` with ` foo`, `-bar`, `+baz`, `+qux` is presented with the numbers (1,1), (2,-), (-,2), (-,3) and stripped contents |
| Diff.GetChangeType | src/utils/diff.ts:90-104 | each of the five kinds holds exactly under the precedence binary > add (`newFile` or from /dev/null) > delete (`deletedFile` or to /dev/null) > rename (`renamed` or a non-empty rename field) > modify |
| Diff.BinaryNewFileIsBinary | src/utils/diff.ts:91-96 | a binary record that is also new is classified as binary |
| Diff.RenameOnlyIsRename | src/utils/diff.ts:100-102 | rename metadata without an add, delete or binary signal gives a rename |
| Diff.NormalizePath | src/utils/diff.ts:106 | never lengthens the path; leaves it alone without a leading `a/` or `b/`; removes a leading `b/`; removes a leading `a/` and, right after it, a `b/` |
| Diff.NormalizePathSuffix | src/utils/diff.ts:106 | the normalised path is a suffix of the original: only a leading part is removed |
| Diff.NormalizeKeepsSecondA | src/utils/diff.ts:106 | `a/a/x.ts` becomes `a/x.ts`: only one `a/` is removed |
| Diff.NormalizeStripsAThenB | src/utils/diff.ts:106 | `a/b/x` becomes `x`: a leading `a/` and then a leading `b/` are both removed |
| Diff.BuildFileId | src/utils/diff.ts:108-112 | the leading decimal digits of an id give back the index it was built from, and the rest of the id is `-from-to` |
| Diff.FromPath | src/utils/diff.ts:109 | `renameFrom ?? from ?? ''`: the rename source when present, else the old-side path when present, else the empty string |
| Diff.ToPath | src/utils/diff.ts:110 | `renameTo ?? to ?? ''`: the rename target when present, else the new-side path when present, else the empty string |
| Diff.BuildFileIdDistinct | src/utils/diff.ts:108-112 | ids built at distinct positions differ, whatever the records hold |
| Diff.BuildFileIdIgnoresContent | src/utils/diff.ts:108-112 | an id depends on the position and the four path fields only |
| Diff.ToDiffFile | src/utils/diff.ts:118-135 | the descriptor's id, kind, hunks and normalised paths come from the record (`renameFrom ?? from ?? ''`, `renameTo ?? to ?? ''`, a rename field winning when present); it is binary exactly when the record is |
| Diff.DescribeFile | src/utils/diff.ts:118-135 | the mapping callback returns the descriptor of the record at its index and that record's presentation hunks |
| Diff.DescribeAllElements | src/utils/diff.ts:118-136 | the descriptor list holds one descriptor per record, in order |
| Diff.IdsUpToStep | src/utils/diff.ts:117-126 | each record adds one new id to the ids seen so far |
| Diff.ViewHunksUpToKeys | src/utils/diff.ts:117-126 | the dictionary's keys are the ids of the records processed so far |
| Diff.ViewHunksUpToSize | src/utils/diff.ts:117-126 | no entry overwrites another: the dictionary has one entry per record |
| Diff.ViewHunksUpToEntries | src/utils/diff.ts:117-126 | the entry under each record's id holds that record's presentation hunks |
| Diff.ParseResultProperties | src/utils/diff.ts:114-139 | one descriptor per record, in order, with pairwise distinct ids; the dictionary has exactly the ids as keys, one entry per record, each holding that record's presentation hunks |
| Diff.ParseDiffText | src/utils/diff.ts:114-139 | the loop that collects descriptors and fills the dictionary returns exactly `ParseResult` of the records |
| Text.JoinPathStep | src/App.tsx:52 | extending a directory path by one segment is the step `currentPath ? currentPath/part : part` |
| Text.JoinPathInjective | src/App.tsx:52 | distinct lists of valid segments join to distinct directory paths |
| Text.Segments | src/App.tsx:28 | `split('/').filter(Boolean)`: every segment is non-empty and free of '/' |
| Text.SegmentsOfJoinPath | src/App.tsx:44 | splitting a joined directory path on '/' and dropping empty pieces gives back its segments |
| Text.DigitsRoundTrip | src/utils/diff.ts:111 | the decimal rendering of an index reads back as that index |
| Text.NatToStringInjective | src/utils/diff.ts:111 | distinct indices render differently |
| Sorting.SortBy | src/App.tsx:485-486 | the sorted list is a permutation of the input (same multiset, same length) |
| Sorting.SortBySorted | src/App.tsx:485-486 | the sorted list is in ascending order of the key |
| Sorting.SortByKeys | src/App.tsx:485 | reading the keys of the sorted list gives the keys sorted: sorting nodes by name orders them as their names sort |
| Sorting.SortByMembers | src/App.tsx:485-486 | an element is in the sorted list exactly when it is in the input |
| Display.GetDisplayPath | src/App.tsx:25 | the new path unless it is empty, else the old path; empty exactly when both are |
| Display.DisplayPathOrUntitled | src/App.tsx:27 | never empty; the display path whenever that is non-empty, and "Untitled file" otherwise |
| Display.GetDisplayName | src/App.tsx:26-30 | the last non-empty '/'-segment of the display path (so non-empty and free of '/'), or the whole path when there is none |
| Display.UntitledName | src/App.tsx:26-30 | a file with neither path is listed as "Untitled file" |
| Display.PlainNameIsDisplayName | src/App.tsx:26-30 | a new path without '/' is its own display name |
| Display.Extension | src/App.tsx:91 | the lower-cased text after the last '.', which holds no '.', and the whole lower-cased path when it has no '.' |
| Display.ExtensionAfterDot | src/App.tsx:91 | whatever precedes the last '.', the extension is the lower-cased text after it |
| Display.GetLanguageFromPath | src/App.tsx:90-96 | the table's language for the extension, and "text" when the extension is empty or not in the table; never anything else |
| Display.LanguageFromPathAsWritten | src/App.tsx:95 | the lookup as written yields an inherited member exactly when the extension is not in the table but names a member of `Object.prototype` |
| Display.LanguageAsWrittenAgrees | src/App.tsx:95 | outside those names the lookup as written and the intended one agree |
| Display.LanguageAsWrittenConstructor | src/App.tsx:90-96 | `x.constructor` gets the inherited `Object` function as written, and "text" as intended |
| Display.LanguageOfUpperCaseExtension | src/App.tsx:90-96 | `src/App.TSX` is highlighted as tsx: the extension is read case-insensitively |
| Display.ChangeBadge | src/App.tsx:17-23 | every change kind has a one-letter badge: A for an added file, M modified, D deleted, R renamed, B binary, and each letter belongs to that kind only |
| Display.ChangeBadgeInjective | src/App.tsx:17-23 | distinct change kinds have distinct badges |
| Display.InitialFileId | src/App.tsx:173-175 | the restored selection is a file's id: the stored id when it is non-empty and some file carries it, else the first file's id |
| CollapsedDirs.IsCollapsed | src/App.tsx:458 | `collapsedDirs[path] ?? false` on the own entries: a directory without an entry is expanded, and one with an entry is collapsed exactly when the entry is `true` |
| CollapsedDirs.IsCollapsedAsWritten | src/App.tsx:496 | `if (collapsedDirs[path])` as written: an own entry decides, and a path without one reads as collapsed exactly when it names an inherited member |
| CollapsedDirs.WithInherited | src/App.tsx:458 | the record as an index expression sees it: its own entries unchanged, plus a truthy value under every inherited name it has no entry for |
| CollapsedDirs.AsWrittenAgrees | src/App.tsx:496 | outside the inherited names, the collapsed test as written and the own-entry test agree |
| CollapsedDirs.ConstructorCollapsedAsWritten | src/App.tsx:496 | with an empty record, a directory named `constructor` reads as collapsed as written and is not collapsed as intended |
| CollapsedDirs.ToggleDir | src/App.tsx:271-276 | the clicked directory's flag flips and gains an entry if it had none; every other entry is kept |
| CollapsedDirs.ToggleTwice | src/App.tsx:271-276 | clicking a directory twice leaves every directory as collapsed as it was |
| CollapsedDirs.AncestorDirs | src/App.tsx:398-402 | the directories above the selected file are valid segments |
| CollapsedDirs.AncestorDirsIsDirKey | src/App.tsx:398-402 | the directories expanded for a file are exactly the ones it is filed under in the tree, even for a file with no path |
| CollapsedDirs.AncestorPathsStep | src/App.tsx:406-407 | each step of the walk adds the path of one more ancestor |
| CollapsedDirs.ClearAncestors | src/App.tsx:403-413 | the updater keeps the record's keys, sets every ancestor's flag to false and leaves every other flag as it was |
| CollapsedDirs.ExpandAncestors | src/App.tsx:395-414 | afterwards no directory above the selected file is collapsed, no key is added or removed, and the other flags are unchanged |
| TreeSpec.DirKey | src/App.tsx:43-51 | a file is filed under all segments of its display path (or "Untitled file") but the last, all valid segments |
| TreeSpec.DirKeyThenName | src/App.tsx:26-30 | a file's directory key followed by its display name gives all segments of its display path |
| TreeSpec.ChildNamesDistinct | src/App.tsx:53-60 | no directory lists a child name twice (the `Map` is keyed by name) |
| TreeSpec.ChildNamesMembers | src/App.tsx:51-61 | a name is a child of a directory exactly when some file's key extends the directory by that name |
| TreeSpec.ParentListsChild | src/App.tsx:51-61 | every directory but the root is a child of the directory above it |
| TreeSpec.WalkStep | src/App.tsx:51-61 | one step of the walk adds at most the new child name, last, to the directory walked through, and at most that one directory to the tree |
| TreeSpec.NewDirectoryIsLeaf | src/App.tsx:54-59 | a directory created by the walk has no children yet |
| TreeSpec.FilesInMembers | src/App.tsx:42-64 | a directory holds a file exactly when the file is in the list and has that directory's key |
| TreeSpec.FilesInPartition | src/App.tsx:42-64 | each file is held, as many times as it is listed, by the directory of its key and by no other |
| TreeSpec.ChildOnTheWay | src/App.tsx:51-61 | a file below a directory is reached through the child named by its next segment |
| TreeSpec.InTreeValid | src/App.tsx:44 | every directory of the tree is a list of non-empty segments without '/' |
| FileTree.FileTreeNode.constructor | src/App.tsx:54-59 | a new node has the given name and path, no children and no files |
| FileTree.ChildNamed | src/App.tsx:53 | `children.has/get`: a child with that name when one exists, none when no child has it |
| FileTree.ChildNamedIsNode | src/App.tsx:61 | the child found under a name is the node of the directory extended by that name |
| FileTree.NoChildNamedNoNode | src/App.tsx:53 | with no child of that name, the extended directory is not in the tree |
| FileTree.ShapedAfterNewChild | src/App.tsx:53-60 | adding an empty node, last among its parent's children, gives the tree with one more directory |
| FileTree.ShapedWalkExisting | src/App.tsx:53-61 | walking into an existing child changes nothing in the tree |
| FileTree.AddChild | src/App.tsx:54-59 | `children.set`: appends a fresh empty node with the segment's name and joined path; the tree is the one walked one segment further |
| FileTree.Descend | src/App.tsx:52-61 | one step of the walk: the path is extended by the segment, and the node reached is that directory's, created only when missing |
| FileTree.WalkDown | src/App.tsx:49-62 | the walk over all directory segments ends at the node of the file's directory key, with the tree extended by that key; every existing node stays under its path (an existing child is reused, never replaced), and every other node is fresh |
| FileTree.PushFile | src/App.tsx:46 | `files.push`: the node holds its previous files and then the new one, and every node again holds exactly its directory's files |
| FileTree.PlaceFile | src/App.tsx:42-64 | filing one file gives the tree of the list one file longer; every earlier node stays under its path, and every node added is fresh |
| FileTree.NewRoot | src/App.tsx:40 | the empty root is the tree of the empty list |
| FileTree.BuildFileTree | src/App.tsx:39-67 | the result is the tree of the file list: a node per directory, at its key and carrying the path those segments join to; children in first-reached order, without repeats; each file held by the node of its directory key, in input order |
| TreeRows.Rows | src/App.tsx:484-501 | the rows of a directory: at least one per own file and one per child directory |
| TreeRows.DirBlocks | src/App.tsx:494-500 | the blocks of the children in the given order: at least one row per child, opening with the first child's header |
| TreeRows.ChildBlock | src/App.tsx:495-499 | a child's block opens with its header row; a collapsed child has the header row only |
| TreeRows.FileRows | src/App.tsx:487-493 | one row per file, the i-th row for the i-th file |
| TreeRows.SortedChildren | src/App.tsx:485 | the children sorted by name are the nodes of the child names sorted |
| TreeRows.PushFileRows | src/App.tsx:487-493 | the first loop appends one file row per file, in order |
| TreeRows.PushChildBlock | src/App.tsx:495-499 | one pass of the second loop appends the child's header row, then its rows unless it is collapsed |
| TreeRows.PushDirBlocks | src/App.tsx:494-500 | the second loop appends one block per child, in order |
| TreeRows.BuildFlatTreeRows | src/App.tsx:484-501 | appends exactly the rows of the node's directory: its files sorted by display name, then each child, sorted by name, with its header and (if not collapsed) its rows |
| TreeRows.RowsStartWithSortedFiles | src/App.tsx:486-493 | a directory's rows open with exactly the file rows of its own files sorted by display name: one row each, every own file shown, in ascending order of display name |
| TreeRows.FileRowShown | src/App.tsx:484-501 | a file is listed exactly when it is in the list and no directory between the starting one and its own is collapsed |
| TreeRows.DirRowHeader | src/App.tsx:494-500 | every header listed, whatever its text, is the path of a directory of the tree below the starting one whose ancestors below it are expanded |
| TreeRows.DirRowsAreExpandedDirectories | src/App.tsx:484-501 | a string is a listed header exactly when it is the path of such a directory |
| TreeRows.DirRowSound | src/App.tsx:494-500 | every header listed as the path of a list of valid segments belongs to a directory of the tree below the starting one, with all directories above it expanded |
| TreeRows.DirRowComplete | src/App.tsx:494-500 | every such directory has its header listed |
| TreeRows.DirRowShown | src/App.tsx:494-500 | a directory's header is listed exactly when it is in the tree below the start and every directory above it is expanded |
| TreeRows.NothingCollapsedShowsEveryFile | src/App.tsx:484-501 | with no directory collapsed every file is listed |
| TreeRows.NothingCollapsedShowsEveryDirectory | src/App.tsx:494-500 | with no directory collapsed every directory has its header |
| TreeRows.ExpandedAncestorsShowFile | src/App.tsx:403-413 | once the directories above a file are expanded (what the effect on selection ensures), the file is listed |
| TreeRows.CollapsedHidesFiles | src/App.tsx:496-498 | no file below a collapsed directory is listed |
| TreeRows.CollapsedHidesDirectories | src/App.tsx:496-498 | no directory strictly below a collapsed directory has its header listed |
| TreeRows.InheritedNameHidesFileAsWritten | src/App.tsx:496 | a file below a top-level directory named like an inherited member is listed with an empty record as intended, and hidden as written |
| TreeRows.ConstructorDirectoryHiddenAsWritten | src/App.tsx:496 | the file `constructor/a.ts` is one of them |

## Left out

- The unified-diff tokenizer (`parseDiff` from the `parse-diff` package,
  `src/utils/diff.ts:115`) is not part of this model. Its records are the
  input. `Diff.TokenizerNumbering` states the line numbering that the numbering
  lemmas require of it.
- The React state, effects and rendering in `src/App.tsx` are left out:
  - JSX and CSS classes;
  - the stored raw text, scroll positions and tree scroll offset in
    `localStorage`;
  - theme, font scale and word wrap;
  - syntax highlighting with `refractor`;
  - `loadDiff`'s error messages.
  A row keeps only what it shows: a file, or a directory path.
- `localeCompare` is modelled as code-point lexicographic order, because the
  locale's collation cannot be expressed here. Sorting is an insertion sort
  that keeps ties in input order, like `Array.prototype.sort`. This
  stability is not stated as a lemma.
- `toLowerCase` is modelled on ASCII letters only, one character for one.
  Outside ASCII, two characters lower-case into something holding an ASCII
  letter: KELVIN SIGN (U+212A) becomes 'k', and LATIN CAPITAL LETTER I WITH
  DOT ABOVE (U+0130) becomes 'i' followed by U+0307, which also lengthens
  the string. No key of the language table and neither lower-case inherited
  name (`constructor`, `__proto__`) contains a 'k' or an 'i', so no
  extension holding either character reaches a language or an inherited
  member in the source either.
- The `rows` array that `buildFlatTreeRows` pushes into is modelled as a
  sequence passed in and returned. Aliasing of the array across calls is
  not modelled.
- The `selectedFile` lookup (`files.find`) and its null check are left out.
  `CollapsedDirs.ExpandAncestors` takes the selected file.
- TreeRows.ChildBlock: stops at the height of the tree. This only bounds
  the recursion for the verifier: a child of a directory of the tree is
  always below that height (`TreeSpec.ChildBelowHeight`).
- Diff.NormalizePath: the code removes a leading `a/` and then a leading
  `b/` from either path, so `a/b/x` becomes `x` and a new-side path can lose
  an `a/`. It is not limited to one prefix chosen by side. The model follows
  the code.
- TreeRows.BuildFlatTreeRows: skips a child's rows when `IsCollapsed` holds on
  the record's own entries. The code tests `collapsedDirs[dir.path]`, which
  also sees the inherited members of `Object.prototype`. That reading is the
  instance `Rows(files, k, WithInherited(m))` of the same definition, and the
  second Findings row records the difference.
- CollapsedDirs.ToggleDir: reads the flag from the record's own entries. As
  written, `!prev[path]` also sees the inherited members, so the first click
  on a directory named `constructor` stores `false`. That is the same
  reading the Findings row below describes.
- CollapsedDirs.ClearAncestors: reads the flag from the record's own
  entries. As written, `next[currentPath]` is truthy for an inherited name,
  so such a directory gains an own `false` entry, which the model never
  adds. Assigning to `__proto__` is left out.

## Findings

| source | as written | input that shows it | evidently intended | confidence | as-written member | corrected member |
|---|---|---|---|---|---|---|
| src/App.tsx:90-96 | `languageByExtension[match] ?? 'text'` also finds the members of `Object.prototype`, which are never nullish | a path ending in `.constructor` (or `.__proto__`) gets the inherited `Object` function (or `Object.prototype`) instead of a language name | "text" for any extension not in the table | not executed | Display.LanguageFromPathAsWritten, Display.LanguageAsWrittenConstructor | Display.GetLanguageFromPath |
| src/App.tsx:496 | `if (collapsedDirs[dir.path])` on a plain object finds the inherited members, all truthy (also at lines 458, 274 and 408) | with no directory collapsed, a top-level directory named `constructor` reads as collapsed: `constructor/a.ts` is not listed | a directory is collapsed only after it has been clicked | not executed | CollapsedDirs.IsCollapsedAsWritten, CollapsedDirs.ConstructorCollapsedAsWritten, TreeRows.ConstructorDirectoryHiddenAsWritten | CollapsedDirs.IsCollapsed, TreeRows.NothingCollapsedShowsEveryFile |
