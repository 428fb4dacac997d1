/**
 * `buildFlatTreeRows`: the file list flattened into rows. At each directory
 * the rows of its files come first, sorted by display name, then for each
 * child directory, sorted by name, a header row followed, unless the child
 * is collapsed, by the child's own rows.
 *
 * `Rows` describes the rows of a directory of the tree `TreeSpec` defines;
 * `BuildFlatTreeRows` walks the nodes `buildFileTree` built and is proved to
 * produce exactly those rows.
 */
module TreeRows {
  import opened Text
  import opened DiffTypes
  import opened Display
  import opened Sorting
  import opened TreeSpec
  import opened FileTree
  import opened CollapsedDirs

  /** A row of the flattened tree: a file's button, or a directory's header with its path. */
  datatype Row = FileRow(file: DiffFile) | DirRow(path: string)

  /** One file row per file, in order. */
  function FileRows(fs: seq<DiffFile>): (rows: seq<Row>)
    ensures |rows| == |fs|
    ensures forall i :: 0 <= i < |fs| ==> rows[i] == FileRow(fs[i])
  {
    if |fs| == 0 then [] else FileRows(fs[..|fs| - 1]) + [FileRow(fs[|fs| - 1])]
  }

  /** The sort key of a directory node. */
  function NodeName(c: FileTreeNode): string {
    c.name
  }

  /** The rows of directory `k` of the tree of `files`. */
  function Rows(files: seq<DiffFile>, k: seq<string>, collapsed: Collapsed): (r: seq<Row>)
    ensures |r| >= |FilesIn(files, k)| + |ChildNames(DirKeys(files), k)|
    decreases Height(DirKeys(files)) - |k|, 2
  {
    FileRows(SortBy(FilesIn(files, k), GetDisplayName)) +
    DirBlocks(files, k, SortBy(ChildNames(DirKeys(files), k), Id), collapsed)
  }

  /** The blocks of the child directories `names` of `k`, in that order. */
  function DirBlocks(files: seq<DiffFile>, k: seq<string>, names: seq<string>, collapsed: Collapsed): (r: seq<Row>)
    ensures |r| >= |names|
    ensures |names| > 0 ==> r[0] == DirRow(JoinPath(k + [names[0]]))
    decreases Height(DirKeys(files)) - |k|, 1, |names|
  {
    if |names| == 0 then []
    else DirBlocks(files, k, names[..|names| - 1], collapsed) + ChildBlock(files, k, names[|names| - 1], collapsed)
  }

  /**
   * The header row of the child `n` of `k`, then its rows unless it is
   * collapsed. The height test only bounds the recursion: a child directory
   * of the tree is always below the height (`ChildBelowHeight`).
   */
  function ChildBlock(files: seq<DiffFile>, k: seq<string>, n: string, collapsed: Collapsed): (r: seq<Row>)
    ensures |r| >= 1 && r[0] == DirRow(JoinPath(k + [n]))
    ensures IsCollapsed(collapsed, JoinPath(k + [n])) ==> r == [DirRow(JoinPath(k + [n]))]
    decreases Height(DirKeys(files)) - |k|, 0
  {
    var path := JoinPath(k + [n]);
    [DirRow(path)] +
    if IsCollapsed(collapsed, path) || Height(DirKeys(files)) <= |k| then [] else Rows(files, k + [n], collapsed)
  }

  lemma DirBlocksSnoc(files: seq<DiffFile>, k: seq<string>, names: seq<string>, i: nat, collapsed: Collapsed)
    requires i < |names| && names[i] in ChildNames(DirKeys(files), k)
    ensures DirBlocks(files, k, names[..i + 1], collapsed) ==
      DirBlocks(files, k, names[..i], collapsed) + ChildBlock(files, k, names[i], collapsed)
    ensures |k| < Height(DirKeys(files))
    ensures ChildBlock(files, k, names[i], collapsed) ==
      [DirRow(JoinPath(k + [names[i]]))] +
      if IsCollapsed(collapsed, JoinPath(k + [names[i]])) then [] else Rows(files, k + [names[i]], collapsed)
  {
    assert names[..i + 1][..i] == names[..i];
    ChildBelowHeight(DirKeys(files), k, names[i]);
  }

  lemma RowsUnfold(files: seq<DiffFile>, k: seq<string>, collapsed: Collapsed)
    ensures Rows(files, k, collapsed) ==
      FileRows(SortBy(FilesIn(files, k), GetDisplayName)) +
      DirBlocks(files, k, SortBy(ChildNames(DirKeys(files), k), Id), collapsed)
  {
  }

  lemma AppendAssoc(a: seq<Row>, b: seq<Row>, c: seq<Row>)
    ensures a + b + c == a + (b + c)
  {
  }

  lemma AppendBlock(before: seq<Row>, path: string, rest: seq<Row>, out: seq<Row>)
    requires out == before + [DirRow(path)] + rest
    ensures out == before + ([DirRow(path)] + rest)
  {
  }

  /**
   * The children of a node, sorted by name, are the nodes of its child
   * directories' names, sorted.
   */
  lemma SortedChildren(nodes: NodeMap, kids: KidsMap, dks: seq<seq<string>>, k: seq<string>)
    requires Shaped(nodes, kids, dks) && k in nodes
    ensures var sorted := SortBy(kids[k], NodeName);
      var names := SortBy(ChildNames(dks, k), Id);
      |sorted| == |names| &&
      forall j :: 0 <= j < |names| ==> k + [names[j]] in nodes && sorted[j] == nodes[k + [names[j]]]
  {
    hide SortBy, InsertBy, ChildNames;
    var names := ChildNames(dks, k);
    var sorted := SortBy(kids[k], NodeName);
    assert NodeShaped(nodes, kids, dks, k);
    forall j | 0 <= j < |names| ensures nodes[k + [names[j]]].name == names[j] {
      assert NodeShaped(nodes, kids, dks, k + [names[j]]);
      assert (k + [names[j]])[|k|] == names[j];
    }
    assert KeysOf(kids[k], NodeName) == names by {
      forall j | 0 <= j < |names| ensures KeysOf(kids[k], NodeName)[j] == names[j] {
        assert kids[k][j] == nodes[k + [names[j]]];
      }
    }
    SortByKeys(kids[k], NodeName);
    SortByElements(kids[k], NodeName);
    var sortedNames := SortBy(names, Id);
    forall j | 0 <= j < |sortedNames| ensures k + [sortedNames[j]] in nodes && sorted[j] == nodes[k + [sortedNames[j]]] {
      assert sorted[j] in kids[k];
      var m :| 0 <= m < |kids[k]| && kids[k][m] == sorted[j];
      assert sorted[j].name == KeysOf(sorted, NodeName)[j] == sortedNames[j];
    }
  }

  /** The first loop of `buildFlatTreeRows`: pushes a row for each of the files `fs`. */
  method PushFileRows(rows: seq<Row>, fs: seq<DiffFile>) returns (out: seq<Row>)
    ensures out == rows + FileRows(fs)
  {
    out := rows;
    for i := 0 to |fs|
      invariant out == rows + FileRows(fs[..i])
    {
      assert fs[..i + 1][..i] == fs[..i];
      out := out + [FileRow(fs[i])];
    }
    assert fs[..|fs|] == fs;
  }

  /**
   * One pass of the second loop of `buildFlatTreeRows`: pushes the header
   * row of the child node `dir` (the node of the child directory `n` of `k`)
   * and, unless it is collapsed, the child's own rows.
   */
  method PushChildBlock(rows: seq<Row>, dir: FileTreeNode, collapsed: Collapsed,
                        ghost files: seq<DiffFile>, ghost nodes: NodeMap, ghost kids: KidsMap,
                        ghost k: seq<string>, ghost n: string)
    returns (out: seq<Row>)
    requires Shaped(nodes, kids, DirKeys(files)) && Linked(nodes, kids) && Filed(nodes, files)
    requires n in ChildNames(DirKeys(files), k) && k + [n] in nodes && dir == nodes[k + [n]]
    ensures out == rows + ChildBlock(files, k, n, collapsed)
    decreases Height(DirKeys(files)) - |k|, 0
  {
    ChildBelowHeight(DirKeys(files), k, n);
    assert NodeShaped(nodes, kids, DirKeys(files), k + [n]);
    out := rows + [DirRow(dir.path)];
    if !IsCollapsed(collapsed, dir.path) {
      out := BuildFlatTreeRows(dir, out, collapsed, files, nodes, kids, k + [n]);
      AppendBlock(rows, dir.path, Rows(files, k + [n], collapsed), out);
    } else {
      AppendBlock(rows, dir.path, [], out);
    }
  }

  /**
   * The second loop of `buildFlatTreeRows`: one block for each child node
   * in `dirs`, the nodes of the child directories `names` of `k`.
   */
  method PushDirBlocks(rows: seq<Row>, dirs: seq<FileTreeNode>, collapsed: Collapsed,
                       ghost files: seq<DiffFile>, ghost nodes: NodeMap, ghost kids: KidsMap,
                       ghost k: seq<string>, ghost names: seq<string>)
    returns (out: seq<Row>)
    requires Shaped(nodes, kids, DirKeys(files)) && Linked(nodes, kids) && Filed(nodes, files)
    requires |dirs| == |names|
    requires forall j :: 0 <= j < |names| ==>
      names[j] in ChildNames(DirKeys(files), k) && k + [names[j]] in nodes && dirs[j] == nodes[k + [names[j]]]
    ensures out == rows + DirBlocks(files, k, names, collapsed)
    decreases Height(DirKeys(files)) - |k|, 1
  {
    out := rows;
    for i := 0 to |dirs|
      invariant out == rows + DirBlocks(files, k, names[..i], collapsed)
    {
      ghost var before := out;
      DirBlocksSnoc(files, k, names, i, collapsed);
      out := PushChildBlock(out, dirs[i], collapsed, files, nodes, kids, k, names[i]);
      AppendAssoc(rows, DirBlocks(files, k, names[..i], collapsed), ChildBlock(files, k, names[i], collapsed));
    }
    assert names[..|dirs|] == names;
  }

  /**
   * `buildFlatTreeRows(node, rows)`: appends to `rows` the rows of the
   * directory whose node is `node`: its files sorted by display name, then
   * its children sorted by name.
   */
  method BuildFlatTreeRows(node: FileTreeNode, rows: seq<Row>, collapsed: Collapsed,
                           ghost files: seq<DiffFile>, ghost nodes: NodeMap, ghost kids: KidsMap, ghost k: seq<string>)
    returns (out: seq<Row>)
    requires Shaped(nodes, kids, DirKeys(files)) && Linked(nodes, kids) && Filed(nodes, files)
    requires k in nodes && node == nodes[k]
    ensures |k| <= Height(DirKeys(files))
    ensures out == rows + Rows(files, k, collapsed)
    decreases Height(DirKeys(files)) - |k|, 2
  {
    InTreeBelowHeight(DirKeys(files), k);
    var sortedDirs := SortBy(node.children, NodeName);
    var sortedFiles := SortBy(node.files, GetDisplayName);
    ghost var names := SortBy(ChildNames(DirKeys(files), k), Id);
    SortedChildren(nodes, kids, DirKeys(files), k);
    SortByElements(ChildNames(DirKeys(files), k), Id);
    RowsUnfold(files, k, collapsed);
    ghost var fileRows := FileRows(sortedFiles);
    out := PushFileRows(rows, sortedFiles);
    out := PushDirBlocks(out, sortedDirs, collapsed, files, nodes, kids, k, names);
    AppendAssoc(rows, fileRows, DirBlocks(files, k, names, collapsed));
  }

  // ----- what the rows show -----

  /** Every directory strictly below `k`, down to and including `d`, is expanded. */
  ghost predicate Expanded(collapsed: Collapsed, k: seq<string>, d: seq<string>) {
    k <= d && forall j :: |k| < j <= |d| ==> !IsCollapsed(collapsed, JoinPath(d[..j]))
  }

  lemma ExpandedStep(collapsed: Collapsed, k: seq<string>, n: string, d: seq<string>)
    requires k + [n] <= d
    ensures Expanded(collapsed, k, d) <==> !IsCollapsed(collapsed, JoinPath(k + [n])) && Expanded(collapsed, k + [n], d)
  {
    assert d[..|k| + 1] == k + [n];
    assert d[..|k|] == k;
  }

  lemma {:induction false} FileRowsMembers(fs: seq<DiffFile>, r: Row)
    ensures r in FileRows(fs) <==> r.FileRow? && r.file in fs
    decreases |fs|
  {
    if |fs| > 0 {
      FileRowsMembers(fs[..|fs| - 1], r);
      assert fs == fs[..|fs| - 1] + [fs[|fs| - 1]];
    }
  }

  /** A row of the block of `names[i]` is a row of the blocks of `names`. */
  lemma {:induction false} DirBlocksIncludes(files: seq<DiffFile>, k: seq<string>, names: seq<string>, i: nat,
                                             collapsed: Collapsed, r: Row)
    requires i < |names|
    requires r in ChildBlock(files, k, names[i], collapsed)
    ensures r in DirBlocks(files, k, names, collapsed)
    decreases |names|
  {
    hide ChildBlock;
    var front := names[..|names| - 1];
    if i < |front| {
      assert front[i] == names[i];
      DirBlocksIncludes(files, k, front, i, collapsed, r);
    }
  }

  /** A row of the blocks of `names` is a row of the block of some `names[i]`. */
  lemma {:induction false} DirBlocksWitness(files: seq<DiffFile>, k: seq<string>, names: seq<string>,
                                            collapsed: Collapsed, r: Row)
    returns (i: nat)
    requires r in DirBlocks(files, k, names, collapsed)
    ensures i < |names| && r in ChildBlock(files, k, names[i], collapsed)
    decreases |names|
  {
    hide ChildBlock;
    var front := names[..|names| - 1];
    if r in ChildBlock(files, k, names[|names| - 1], collapsed) {
      i := |names| - 1;
    } else {
      i := DirBlocksWitness(files, k, front, collapsed, r);
      assert front[i] == names[i];
    }
  }

  /** A file row in the block of a child comes from the child's own rows. */
  lemma ChildBlockFileRow(files: seq<DiffFile>, k: seq<string>, n: string, collapsed: Collapsed, f: DiffFile)
    requires n in ChildNames(DirKeys(files), k)
    ensures |k| < Height(DirKeys(files))
    ensures FileRow(f) in ChildBlock(files, k, n, collapsed) <==>
      !IsCollapsed(collapsed, JoinPath(k + [n])) && FileRow(f) in Rows(files, k + [n], collapsed)
  {
    ChildBelowHeight(DirKeys(files), k, n);
    var path := JoinPath(k + [n]);
    assert ChildBlock(files, k, n, collapsed) ==
      [DirRow(path)] + if IsCollapsed(collapsed, path) then [] else Rows(files, k + [n], collapsed);
    hide ChildBlock, Rows, JoinPath, ChildNames, DirKeys, Height;
  }

  /**
   * A file is listed in the rows of directory `k` exactly when it is in the
   * file list, filed at or below `k`, and no directory between `k` and its
   * own directory is collapsed.
   */
  lemma {:induction false} FileRowShown(files: seq<DiffFile>, k: seq<string>, collapsed: Collapsed, f: DiffFile)
    ensures FileRow(f) in Rows(files, k, collapsed) <==> f in files && Expanded(collapsed, k, DirKey(f))
    decreases Height(DirKeys(files)) - |k|
  {
    var dks := DirKeys(files);
    var names := SortBy(ChildNames(dks, k), Id);
    var here := SortBy(FilesIn(files, k), GetDisplayName);
    var r := FileRow(f);
    RowsUnfold(files, k, collapsed);
    FileRowsMembers(here, r);
    SortByMembers(FilesIn(files, k), GetDisplayName, f);
    FilesInMembers(files, k, f);
    hide Rows, DirBlocks, ChildBlock, FileRows, SortBy, FilesIn, ChildNames, DirKeys, Height;
    if r in DirBlocks(files, k, names, collapsed) {
      var i := DirBlocksWitness(files, k, names, collapsed, r);
      var n := names[i];
      SortByMembers(ChildNames(dks, k), Id, n);
      ChildBlockFileRow(files, k, n, collapsed, f);
      FileRowShown(files, k + [n], collapsed, f);
      ExpandedStep(collapsed, k, n, DirKey(f));
    }
    if f in files && Expanded(collapsed, k, DirKey(f)) && DirKey(f) != k {
      var n := DirKey(f)[|k|];
      ChildOnTheWay(files, k, f);
      SortByMembers(ChildNames(dks, k), Id, n);
      var i :| 0 <= i < |names| && names[i] == n;
      ChildBlockFileRow(files, k, n, collapsed, f);
      ExpandedStep(collapsed, k, n, DirKey(f));
      FileRowShown(files, k + [n], collapsed, f);
      DirBlocksIncludes(files, k, names, i, collapsed, r);
    }
  }

  /** A directory row in the block of a child is the child's header, or comes from the child's own rows. */
  lemma ChildBlockDirRow(files: seq<DiffFile>, k: seq<string>, n: string, collapsed: Collapsed, p: string)
    requires n in ChildNames(DirKeys(files), k)
    ensures |k| < Height(DirKeys(files))
    ensures DirRow(p) in ChildBlock(files, k, n, collapsed) <==>
      p == JoinPath(k + [n]) ||
      (!IsCollapsed(collapsed, JoinPath(k + [n])) && DirRow(p) in Rows(files, k + [n], collapsed))
  {
    ChildBelowHeight(DirKeys(files), k, n);
    var path := JoinPath(k + [n]);
    assert ChildBlock(files, k, n, collapsed) ==
      [DirRow(path)] + if IsCollapsed(collapsed, path) then [] else Rows(files, k + [n], collapsed);
    hide ChildBlock, Rows, JoinPath, ChildNames, DirKeys, Height;
  }

  lemma ExpandedThroughChild(collapsed: Collapsed, k: seq<string>, n: string, d: seq<string>)
    requires k + [n] < d && !IsCollapsed(collapsed, JoinPath(k + [n])) && Expanded(collapsed, k + [n], d[..|d| - 1])
    ensures k < d && Expanded(collapsed, k, d[..|d| - 1])
  {
    assert k + [n] <= d[..|d| - 1];
    ExpandedStep(collapsed, k, n, d[..|d| - 1]);
  }

  /**
   * Every header listed in the rows of `k`, whatever its text, is the path of
   * a directory of the tree strictly below `k` whose ancestors below `k` are
   * expanded; the lemma returns that directory.
   */
  lemma {:induction false} DirRowHeader(files: seq<DiffFile>, k: seq<string>, collapsed: Collapsed, p: string) returns (d: seq<string>)
    requires ValidSegments(k)
    requires DirRow(p) in Rows(files, k, collapsed)
    ensures ValidSegments(d) && p == JoinPath(d)
    ensures k < d && InTree(DirKeys(files), d) && Expanded(collapsed, k, d[..|d| - 1])
    decreases Height(DirKeys(files)) - |k|
  {
    hide Rows, DirBlocks, ChildBlock, FileRows, SortBy, FilesIn, ChildNames, DirKeys, Height, JoinPath, InTree, Expanded, ValidSegments, IsCollapsed;
    var dks := DirKeys(files);
    var names := SortBy(ChildNames(dks, k), Id);
    var r := DirRow(p);
    RowsUnfold(files, k, collapsed);
    FileRowsMembers(SortBy(FilesIn(files, k), GetDisplayName), r);
    var i := DirBlocksWitness(files, k, names, collapsed, r);
    var n := names[i];
    SortByMembers(ChildNames(dks, k), Id, n);
    ChildBlockDirRow(files, k, n, collapsed, p);
    ChildBelowHeight(dks, k, n);
    InTreeValid(files, k + [n]);
    if p == JoinPath(k + [n]) {
      d := k + [n];
      ChildHeader(files, k, n, collapsed, d);
    } else {
      assert !IsCollapsed(collapsed, JoinPath(k + [n])) && DirRow(p) in Rows(files, k + [n], collapsed);
      d := DirRowHeader(files, k + [n], collapsed, p);
      ExpandedThroughChild(collapsed, k, n, d);
    }
  }

  /** A directory header listed in the rows of `k` belongs to a directory of the tree below `k` whose ancestors below `k` are expanded. */
  lemma DirRowSound(files: seq<DiffFile>, k: seq<string>, collapsed: Collapsed, d: seq<string>)
    requires ValidSegments(k) && ValidSegments(d)
    requires DirRow(JoinPath(d)) in Rows(files, k, collapsed)
    ensures k < d && InTree(DirKeys(files), d) && Expanded(collapsed, k, d[..|d| - 1])
  {
    var e := DirRowHeader(files, k, collapsed, JoinPath(d));
    hide Rows, DirKeys, JoinPath, InTree, Expanded, ValidSegments;
    JoinPathInjective(d, e);
  }

  /** The header of the child `n` of `k` names the directory `k + [n]` of the tree. */
  lemma ChildHeader(files: seq<DiffFile>, k: seq<string>, n: string, collapsed: Collapsed, d: seq<string>)
    requires ValidSegments(k) && ValidSegments(d) && n in ChildNames(DirKeys(files), k)
    requires JoinPath(d) == JoinPath(k + [n])
    ensures d == k + [n] && k < d && InTree(DirKeys(files), d) && Expanded(collapsed, k, d[..|d| - 1])
  {
    hide JoinPath, ChildNames, DirKeys, Height, InTree;
    ChildNameValid(files, k, n);
    ChildBelowHeight(DirKeys(files), k, n);
    var c := k + [n];
    forall i | 0 <= i < |c| ensures c[i] != "" && '/' !in c[i] {
      if i < |k| {
        assert c[i] == k[i];
      }
    }
    JoinPathInjective(d, c);
    assert d[..|d| - 1] == k;
  }

  /** Every directory of the tree below `k` whose ancestors below `k` are expanded has its header listed in the rows of `k`. */
  lemma {:induction false} DirRowComplete(files: seq<DiffFile>, k: seq<string>, collapsed: Collapsed, d: seq<string>)
    requires k < d && InTree(DirKeys(files), d) && Expanded(collapsed, k, d[..|d| - 1])
    ensures DirRow(JoinPath(d)) in Rows(files, k, collapsed)
    decreases |d| - |k|
  {
    var dks := DirKeys(files);
    var names := SortBy(ChildNames(dks, k), Id);
    var r := DirRow(JoinPath(d));
    RowsUnfold(files, k, collapsed);
    hide Rows, DirBlocks, ChildBlock, FileRows, SortBy, FilesIn, ChildNames, DirKeys, Height, JoinPath;
    var n := d[|k|];
    var j :| 0 <= j < |dks| && d <= dks[j];
    ExtendedPrefix(k, n, d);
    assert k + [n] <= dks[j];
    ChildNamesMembers(dks, k, n);
    SortByMembers(ChildNames(dks, k), Id, n);
    var i :| 0 <= i < |names| && names[i] == n;
    ChildBlockDirRow(files, k, n, collapsed, JoinPath(d));
    if |d| > |k| + 1 {
      ExtendedPrefix(k, n, d[..|d| - 1]);
      ExpandedStep(collapsed, k, n, d[..|d| - 1]);
      DirRowComplete(files, k + [n], collapsed, d);
    } else {
      assert d == k + [n];
    }
    DirBlocksIncludes(files, k, names, i, collapsed, r);
  }

  /**
   * The headers listed in the rows of `k` are exactly the paths of the
   * directories of the tree strictly below `k` whose ancestors below `k` are
   * expanded: a string is a listed header iff it is such a path.
   */
  lemma DirRowsAreExpandedDirectories(files: seq<DiffFile>, k: seq<string>, collapsed: Collapsed, p: string)
    requires ValidSegments(k)
    ensures DirRow(p) in Rows(files, k, collapsed) <==>
      exists d :: ValidSegments(d) && p == JoinPath(d) && k < d && InTree(DirKeys(files), d) && Expanded(collapsed, k, d[..|d| - 1])
  {
    if DirRow(p) in Rows(files, k, collapsed) {
      var d := DirRowHeader(files, k, collapsed, p);
      hide Rows, DirKeys, JoinPath, InTree, Expanded, ValidSegments;
      assert ValidSegments(d) && p == JoinPath(d) && k < d && InTree(DirKeys(files), d) && Expanded(collapsed, k, d[..|d| - 1]);
    }
    if exists d :: ValidSegments(d) && p == JoinPath(d) && k < d && InTree(DirKeys(files), d) && Expanded(collapsed, k, d[..|d| - 1]) {
      var d :| ValidSegments(d) && p == JoinPath(d) && k < d && InTree(DirKeys(files), d) && Expanded(collapsed, k, d[..|d| - 1]);
      DirRowComplete(files, k, collapsed, d);
    }
  }

  /**
   * A directory's header is listed in the rows of directory `k` exactly when
   * the directory is in the tree, strictly below `k`, and no directory
   * between `k` and its parent is collapsed.
   */
  lemma DirRowShown(files: seq<DiffFile>, k: seq<string>, collapsed: Collapsed, d: seq<string>)
    requires ValidSegments(k) && ValidSegments(d)
    ensures DirRow(JoinPath(d)) in Rows(files, k, collapsed) <==>
      k < d && InTree(DirKeys(files), d) && Expanded(collapsed, k, d[..|d| - 1])
  {
    if DirRow(JoinPath(d)) in Rows(files, k, collapsed) {
      DirRowSound(files, k, collapsed, d);
    }
    if k < d && InTree(DirKeys(files), d) && Expanded(collapsed, k, d[..|d| - 1]) {
      DirRowComplete(files, k, collapsed, d);
    }
  }

  /** With no directory collapsed, every file of the list is shown. */
  lemma NothingCollapsedShowsEveryFile(files: seq<DiffFile>, f: DiffFile)
    requires f in files
    ensures FileRow(f) in Rows(files, [], map[])
  {
    assert Expanded(map[], [], DirKey(f));
    FileRowShown(files, [], map[], f);
  }

  /** With no directory collapsed, every directory of the tree has its header row. */
  lemma NothingCollapsedShowsEveryDirectory(files: seq<DiffFile>, d: seq<string>)
    requires InTree(DirKeys(files), d) && d != []
    ensures DirRow(JoinPath(d)) in Rows(files, [], map[])
  {
    InTreeValid(files, d);
    DirRowShown(files, [], map[], d);
  }

  /**
   * Once no directory above a file is collapsed (what `ExpandAncestors`
   * ensures for the selected file), the file is shown.
   */
  lemma ExpandedAncestorsShowFile(files: seq<DiffFile>, f: DiffFile, collapsed: Collapsed)
    requires f in files
    requires forall j :: 1 <= j <= |DirKey(f)| ==> !IsCollapsed(collapsed, JoinPath(DirKey(f)[..j]))
    ensures FileRow(f) in Rows(files, [], collapsed)
  {
    FileRowShown(files, [], collapsed, f);
  }

  /** Nothing below a collapsed directory is shown. */
  lemma CollapsedHidesFiles(files: seq<DiffFile>, collapsed: Collapsed, d: seq<string>, f: DiffFile)
    requires d != [] && d <= DirKey(f) && IsCollapsed(collapsed, JoinPath(d))
    ensures FileRow(f) !in Rows(files, [], collapsed)
  {
    FileRowShown(files, [], collapsed, f);
    assert DirKey(f)[..|d|] == d;
  }

  /** Nothing strictly below a collapsed directory is shown, only its header row. */
  lemma CollapsedHidesDirectories(files: seq<DiffFile>, collapsed: Collapsed, d: seq<string>, e: seq<string>)
    requires d != [] && d < e && ValidSegments(e) && IsCollapsed(collapsed, JoinPath(d))
    ensures DirRow(JoinPath(e)) !in Rows(files, [], collapsed)
  {
    DirRowShown(files, [], collapsed, e);
    assert e[..|e| - 1][..|d|] == d;
  }

  lemma RowsFront(files: seq<DiffFile>, k: seq<string>, collapsed: Collapsed)
    ensures |FilesIn(files, k)| <= |Rows(files, k, collapsed)|
    ensures Rows(files, k, collapsed)[..|FilesIn(files, k)|] == FileRows(SortBy(FilesIn(files, k), GetDisplayName))
  {
    RowsUnfold(files, k, collapsed);
  }

  /**
   * The rows of a directory open with its own files, one row each, in
   * ascending order of display name.
   */
  lemma RowsStartWithSortedFiles(files: seq<DiffFile>, k: seq<string>, collapsed: Collapsed)
    ensures |FilesIn(files, k)| <= |Rows(files, k, collapsed)|
    ensures forall i :: 0 <= i < |FilesIn(files, k)| ==>
      Rows(files, k, collapsed)[i].FileRow? && Rows(files, k, collapsed)[i].file in FilesIn(files, k)
    ensures forall i, j :: 0 <= i < j < |FilesIn(files, k)| ==>
      Rows(files, k, collapsed)[i].FileRow? && Rows(files, k, collapsed)[j].FileRow? &&
      StrLe(GetDisplayName(Rows(files, k, collapsed)[i].file), GetDisplayName(Rows(files, k, collapsed)[j].file))
    ensures Rows(files, k, collapsed)[..|FilesIn(files, k)|] == FileRows(SortBy(FilesIn(files, k), GetDisplayName))
    ensures forall f :: f in FilesIn(files, k) ==> FileRow(f) in Rows(files, k, collapsed)[..|FilesIn(files, k)|]
  {
    var fs := FilesIn(files, k);
    var sorted := SortBy(fs, GetDisplayName);
    var rows := Rows(files, k, collapsed);
    RowsFront(files, k, collapsed);
    SortBySorted(fs, GetDisplayName);
    hide Rows, DirBlocks, ChildBlock, FileRows, SortBy, InsertBy, FilesIn, ChildNames, DirKeys;
    forall i | 0 <= i < |fs| ensures rows[i] == FileRow(sorted[i]) && sorted[i] in fs {
      assert rows[i] == rows[..|fs|][i];
      assert sorted[i] in multiset(fs);
    }
    forall i, j | 0 <= i < j < |fs| ensures StrLe(GetDisplayName(rows[i].file), GetDisplayName(rows[j].file)) {
      assert rows[i].file == sorted[i] && rows[j].file == sorted[j];
    }
    forall f | f in fs ensures FileRow(f) in rows[..|fs|] {
      assert f in multiset(sorted);
      var i :| 0 <= i < |sorted| && sorted[i] == f;
      assert rows[..|fs|][i] == FileRow(f);
    }
  }

  // ----- reading the record with its inherited members -----

  /**
   * A file below a top-level directory named like a member of
   * `Object.prototype` is shown while nothing is collapsed, but the
   * as-written test `collapsedDirs[dir.path]` finds the inherited member and
   * hides it.
   */
  lemma InheritedNameHidesFileAsWritten(files: seq<DiffFile>, f: DiffFile)
    requires f in files && DirKey(f) != [] && DirKey(f)[0] in PrototypeMembers
    ensures FileRow(f) in Rows(files, [], map[])
    ensures FileRow(f) !in Rows(files, [], WithInherited(map[]))
  {
    NothingCollapsedShowsEveryFile(files, f);
    var d := [DirKey(f)[0]];
    assert DirKey(f)[..1] == d;
    assert JoinPath(d) == DirKey(f)[0];
    CollapsedHidesFiles(files, WithInherited(map[]), d, f);
  }

  /** The file `constructor/a.ts` is one of them. */
  lemma ConstructorDirectoryHiddenAsWritten(files: seq<DiffFile>, f: DiffFile)
    requires f in files && f.newPath == "constructor/a.ts"
    ensures FileRow(f) in Rows(files, [], map[])
    ensures FileRow(f) !in Rows(files, [], WithInherited(map[]))
  {
    var parts := ["constructor", "a.ts"];
    assert JoinPath(parts) == "constructor/a.ts";
    SegmentsOfJoinPath(parts);
    assert DirKey(f) == ["constructor"];
    InheritedNameHidesFileAsWritten(files, f);
  }
}
