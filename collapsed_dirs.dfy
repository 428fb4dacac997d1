/**
 * The `collapsedDirs` record of the file tree: a flag per directory path,
 * toggled by clicking the directory's row and cleared for every directory
 * above the selected file.
 *
 * Reading `collapsedDirs[path]` on a JavaScript object also finds the
 * members of `Object.prototype`, all of them truthy; `IsCollapsedAsWritten`
 * keeps that reading, and `IsCollapsed` (own entries only) is the one the
 * rest of the model uses.
 */
module CollapsedDirs {
  import opened Text
  import opened DiffTypes
  import opened Display
  import opened TreeSpec

  /** The record: directory path to "collapsed". */
  type Collapsed = map<string, bool>

  /** The directory `path` is collapsed: it has an own entry, and it is `true`. */
  predicate IsCollapsed(m: Collapsed, path: string): (r: bool)
    ensures path !in m ==> !r
    ensures path in m ==> (r <==> m[path])
  {
    path in m && m[path]
  }

  /**
   * The record as an index expression sees it: its own entries, and the
   * inherited members (all truthy) under the names it has no entry for.
   */
  function WithInherited(m: Collapsed): (r: Collapsed)
    ensures r.Keys == m.Keys + PrototypeMembers
    ensures forall p :: p in m ==> r[p] == m[p]
    ensures forall p :: p in PrototypeMembers && p !in m ==> r[p]
  {
    (map p | p in PrototypeMembers :: true) + m
  }

  /** `collapsedDirs[path]` read as a truth value, as written. */
  predicate IsCollapsedAsWritten(m: Collapsed, path: string): (r: bool)
    ensures path in m ==> (r <==> m[path])
    ensures path !in m ==> (r <==> path in PrototypeMembers)
  {
    IsCollapsed(WithInherited(m), path)
  }

  /** Outside the inherited names, the test as written and the intended one agree. */
  lemma AsWrittenAgrees(m: Collapsed, path: string)
    requires path !in PrototypeMembers
    ensures IsCollapsedAsWritten(m, path) <==> IsCollapsed(m, path)
  {
  }

  /** With nothing collapsed yet, a directory named `constructor` reads as collapsed. */
  lemma ConstructorCollapsedAsWritten()
    ensures IsCollapsedAsWritten(map[], "constructor")
    ensures !IsCollapsed(map[], "constructor")
  {
    assert "constructor" in PrototypeMembers;
  }

  // ----- clicking a directory row -----

  /** `handleToggleDir`: flips the flag of `path`, adding the entry if there was none. */
  function ToggleDir(m: Collapsed, path: string): (r: Collapsed)
    ensures r.Keys == m.Keys + {path}
    ensures IsCollapsed(r, path) <==> !IsCollapsed(m, path)
    ensures forall p :: p in m && p != path ==> r[p] == m[p]
  {
    m[path := !IsCollapsed(m, path)]
  }

  /** Clicking a directory twice leaves every directory as collapsed as it was. */
  lemma ToggleTwice(m: Collapsed, path: string, q: string)
    ensures IsCollapsed(ToggleDir(ToggleDir(m, path), path), q) <==> IsCollapsed(m, q)
  {
  }

  // ----- expanding the directories above the selected file -----

  /**
   * The directory segments above a file, from `getDisplayPath(file) || ''`:
   * all segments but the last, and none when there are at most one.
   */
  function AncestorDirs(file: DiffFile): (dirs: seq<string>)
    ensures ValidSegments(dirs)
  {
    var parts := Segments(GetDisplayPath(file));
    if |parts| <= 1 then [] else parts[..|parts| - 1]
  }

  /**
   * The directories expanded for a file are those it is filed under: the
   * fallback name "Untitled file" has a single segment, like the empty path.
   */
  lemma AncestorDirsIsDirKey(file: DiffFile)
    ensures AncestorDirs(file) == DirKey(file)
  {
    if GetDisplayPath(file) == "" {
      assert Split("", '/') == [""];
      SplitWithoutSeparator(Untitled, '/');
      assert Segments(Untitled) == NonEmpty([Untitled]);
    }
  }

  /** The paths of the first `n` directories above a file: the joins of its first 1..n segments. */
  function AncestorPaths(dirs: seq<string>, n: nat): (r: set<string>)
    requires n <= |dirs|
    ensures forall j :: 1 <= j <= n ==> JoinPath(dirs[..j]) in r
  {
    set j | 1 <= j <= n :: JoinPath(dirs[..j])
  }

  lemma AncestorPathsStep(dirs: seq<string>, n: nat)
    requires n < |dirs|
    ensures AncestorPaths(dirs, n + 1) == AncestorPaths(dirs, n) + {JoinPath(dirs[..n + 1])}
  {
  }

  /**
   * The updater passed to `setCollapsedDirs`: walks the directories `dirs`,
   * building each path as `buildFileTree` does, and sets the flag of each
   * collapsed one to `false` in a copy of the record. Every other entry is
   * kept, and no entry is added.
   */
  method ClearAncestors(prev: Collapsed, dirs: seq<string>) returns (next: Collapsed)
    requires ValidSegments(dirs)
    ensures next.Keys == prev.Keys
    ensures forall p :: p in prev ==> next[p] == (prev[p] && p !in AncestorPaths(dirs, |dirs|))
  {
    next := prev;
    var currentPath := "";
    for i := 0 to |dirs|
      invariant currentPath == JoinPath(dirs[..i])
      invariant next.Keys == prev.Keys
      invariant forall p :: p in prev ==> next[p] == (prev[p] && p !in AncestorPaths(dirs, i))
    {
      hide JoinPath, AncestorPaths;
      assert ValidSegments(dirs[..i]);
      JoinPathStep(dirs[..i], dirs[i]);
      assert dirs[..i + 1] == dirs[..i] + [dirs[i]];
      AncestorPathsStep(dirs, i);
      currentPath := if currentPath != "" then currentPath + "/" + dirs[i] else dirs[i];
      if IsCollapsed(next, currentPath) {
        next := next[currentPath := false];
      }
    }
  }

  /**
   * The effect run when the selected file changes: nothing when its display
   * path has at most one segment, and otherwise the updater above on the
   * directories above it. Afterwards none of those directories is collapsed.
   */
  method ExpandAncestors(prev: Collapsed, file: DiffFile) returns (next: Collapsed)
    ensures next.Keys == prev.Keys
    ensures forall p :: p in prev ==> next[p] == (prev[p] && p !in AncestorPaths(DirKey(file), |DirKey(file)|))
    ensures forall j :: 1 <= j <= |DirKey(file)| ==> !IsCollapsed(next, JoinPath(DirKey(file)[..j]))
  {
    AncestorDirsIsDirKey(file);
    var dirs := AncestorDirs(file);
    if |dirs| == 0 {
      return prev;
    }
    next := ClearAncestors(prev, dirs);
  }
}
