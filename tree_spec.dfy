/**
 * The directory tree of the file list, described as values. A file is filed
 * under the directory segments of its display path (all segments but the
 * last); a directory exists for every non-empty prefix of some file's
 * segments, and the root for the empty one. The children of a directory are
 * named in the order in which files first reach them, as the insertion order
 * of the `Map` the viewer builds.
 *
 * Most definitions here take the list of the files' directory keys (`dks`),
 * so that the state of the tree half-way through filing a file can be
 * described as the tree of a list ending in a partial key.
 */
module TreeSpec {
  import opened Text
  import opened DiffTypes
  import opened Display

  /** The directory segments a file is filed under. */
  function DirKey(file: DiffFile): (k: seq<string>)
    ensures ValidSegments(k)
  {
    hide Segments, DisplayPathOrUntitled;
    var parts := Segments(DisplayPathOrUntitled(file));
    if |parts| <= 1 then [] else parts[..|parts| - 1]
  }

  /** The directory key followed by the listed name gives back all segments of the display path. */
  lemma DirKeyThenName(file: DiffFile)
    requires |Segments(DisplayPathOrUntitled(file))| >= 1
    ensures DirKey(file) + [GetDisplayName(file)] == Segments(DisplayPathOrUntitled(file))
  {
    var parts := Segments(DisplayPathOrUntitled(file));
    hide Segments, DisplayPathOrUntitled;
    if |parts| > 1 {
      assert parts == parts[..|parts| - 1] + [parts[|parts| - 1]];
    }
  }

  function DirKeys(files: seq<DiffFile>): (dks: seq<seq<string>>)
    ensures |dks| == |files|
    ensures forall j :: 0 <= j < |files| ==> dks[j] == DirKey(files[j])
  {
    seq(|files|, j requires 0 <= j < |files| => DirKey(files[j]))
  }

  lemma DirKeysSnoc(files: seq<DiffFile>, file: DiffFile)
    ensures DirKeys(files + [file]) == DirKeys(files) + [DirKey(file)]
  {
    assert forall j :: 0 <= j < |files| ==> (files + [file])[j] == files[j];
  }

  /** A directory of the tree: the root, or a prefix of some file's directory key. */
  ghost predicate InTree(dks: seq<seq<string>>, k: seq<string>) {
    k == [] || exists j :: 0 <= j < |dks| && k <= dks[j]
  }

  /** The directory `k` has a child directory named `c`. */
  ghost predicate HasChild(dks: seq<seq<string>>, k: seq<string>, c: string) {
    exists j :: 0 <= j < |dks| && k + [c] <= dks[j]
  }

  /**
   * The names of the child directories of `k`, each once, in the order in
   * which the keys first reach them.
   */
  function ChildNames(dks: seq<seq<string>>, k: seq<string>): (names: seq<string>)
    decreases |dks|
  {
    if |dks| == 0 then []
    else
      var prev := ChildNames(dks[..|dks| - 1], k);
      var d := dks[|dks| - 1];
      if k < d && d[|k|] !in prev then prev + [d[|k|]] else prev
  }

  /** No name is listed twice. */
  lemma {:induction false} ChildNamesDistinct(dks: seq<seq<string>>, k: seq<string>)
    ensures forall i, j :: 0 <= i < j < |ChildNames(dks, k)| ==> ChildNames(dks, k)[i] != ChildNames(dks, k)[j]
    decreases |dks|
  {
    if |dks| > 0 {
      var prev := ChildNames(dks[..|dks| - 1], k);
      var names := ChildNames(dks, k);
      ChildNamesDistinct(dks[..|dks| - 1], k);
      var d := dks[|dks| - 1];
      forall i, j | 0 <= i < j < |names| ensures names[i] != names[j] {
        if names == prev {
          assert prev[i] != prev[j];
        } else {
          assert names == prev + [d[|k|]] && d[|k|] !in prev;
          assert names[i] == prev[i];
          if j == |prev| {
            assert names[i] in prev;
          } else {
            assert prev[i] != prev[j];
          }
        }
      }
    }
  }

  lemma ExtendedPrefix(k: seq<string>, c: string, d: seq<string>)
    ensures k + [c] <= d <==> k < d && d[|k|] == c
  {
    if k < d && d[|k|] == c {
      assert d[..|k| + 1] == d[..|k|] + [d[|k|]];
    }
    if k + [c] <= d {
      assert d[..|k|] == (k + [c])[..|k|] == k;
    }
  }

  lemma ChildNamesSnoc(dks: seq<seq<string>>, d: seq<string>, k: seq<string>)
    ensures ChildNames(dks + [d], k) ==
      if k < d && d[|k|] !in ChildNames(dks, k) then ChildNames(dks, k) + [d[|k|]] else ChildNames(dks, k)
  {
    assert (dks + [d])[..|dks|] == dks;
  }

  /** A name is listed as a child of `k` exactly when some key extends `k` by it. */
  lemma {:induction false} ChildNamesMembers(dks: seq<seq<string>>, k: seq<string>, c: string)
    ensures c in ChildNames(dks, k) <==> HasChild(dks, k, c)
    decreases |dks|
  {
    if |dks| > 0 {
      var front := dks[..|dks| - 1];
      var d := dks[|dks| - 1];
      assert dks == front + [d];
      ChildNamesMembers(front, k, c);
      ExtendedPrefix(k, c, d);
      if HasChild(front, k, c) {
        var j :| 0 <= j < |front| && k + [c] <= front[j];
        assert dks[j] == front[j];
      }
      if HasChild(dks, k, c) && !(k + [c] <= d) {
        var j :| 0 <= j < |dks| && k + [c] <= dks[j];
        assert j < |front| && front[j] == dks[j];
      }
    }
  }

  /** The length of the longest key. */
  function Height(dks: seq<seq<string>>): (h: nat)
    ensures forall j :: 0 <= j < |dks| ==> |dks[j]| <= h
    decreases |dks|
  {
    if |dks| == 0 then 0
    else
      var h := Height(dks[..|dks| - 1]);
      var d := dks[|dks| - 1];
      assert forall j :: 0 <= j < |dks| - 1 ==> dks[j] == dks[..|dks| - 1][j];
      if |d| > h then |d| else h
  }

  /** No directory of the tree is deeper than the longest key. */
  lemma InTreeBelowHeight(dks: seq<seq<string>>, k: seq<string>)
    requires InTree(dks, k)
    ensures |k| <= Height(dks)
  {
    if k != [] {
      var j :| 0 <= j < |dks| && k <= dks[j];
    }
  }

  lemma ChildBelowHeight(dks: seq<seq<string>>, k: seq<string>, c: string)
    requires c in ChildNames(dks, k)
    ensures |k| < Height(dks)
    ensures InTree(dks, k) && InTree(dks, k + [c])
  {
    ChildNamesMembers(dks, k, c);
    var j :| 0 <= j < |dks| && k + [c] <= dks[j];
    assert k <= dks[j] by { ExtendedPrefix(k, c, dks[j]); }
  }

  /** Every directory but the root is a child of the directory above it. */
  lemma ParentListsChild(dks: seq<seq<string>>, k: seq<string>)
    requires k != [] && InTree(dks, k)
    ensures k[|k| - 1] in ChildNames(dks, k[..|k| - 1])
  {
    var j :| 0 <= j < |dks| && k <= dks[j];
    assert k[..|k| - 1] + [k[|k| - 1]] == k;
    assert HasChild(dks, k[..|k| - 1], k[|k| - 1]);
    ChildNamesMembers(dks, k[..|k| - 1], k[|k| - 1]);
  }

  // ----- the tree half-way through filing a file -----

  /** Starting a walk from the root adds nothing to the tree. */
  lemma WalkStart(dks: seq<seq<string>>, k: seq<string>)
    ensures ChildNames(dks + [[]], k) == ChildNames(dks, k)
    ensures InTree(dks + [[]], k) <==> InTree(dks, k)
  {
    ChildNamesSnoc(dks, [], k);
    if InTree(dks + [[]], k) && k != [] {
      var j :| 0 <= j < |dks| + 1 && k <= (dks + [[]])[j];
      assert j < |dks| && dks[j] == (dks + [[]])[j];
    }
    if InTree(dks, k) && k != [] {
      var j :| 0 <= j < |dks| && k <= dks[j];
      assert (dks + [[]])[j] == dks[j];
    }
  }

  /**
   * Walking one segment further down the key `d` adds the directory
   * `d[..i + 1]`, and lists `d[i]` as a child of `d[..i]` unless it already is.
   */
  lemma WalkStep(dks: seq<seq<string>>, d: seq<string>, i: nat, k: seq<string>)
    requires i < |d|
    ensures ChildNames(dks + [d[..i + 1]], k) ==
      if k == d[..i] && d[i] !in ChildNames(dks + [d[..i]], k) then ChildNames(dks + [d[..i]], k) + [d[i]]
      else ChildNames(dks + [d[..i]], k)
    ensures InTree(dks + [d[..i + 1]], k) <==> InTree(dks + [d[..i]], k) || k == d[..i + 1]
  {
    var a := d[..i];
    var b := d[..i + 1];
    ChildNamesSnoc(dks, a, k);
    ChildNamesSnoc(dks, b, k);
    if k < a {
      assert k < b && b[|k|] == a[|k|];
    }
    if k < b && k != a {
      assert |k| < i;
      assert k < a && b[|k|] == a[|k|];
    }
    assert b[..i] == a;
    if InTree(dks + [b], k) && k != [] && k != b {
      var j :| 0 <= j < |dks| + 1 && k <= (dks + [b])[j];
      if j < |dks| {
        assert (dks + [a])[j] == dks[j] == (dks + [b])[j];
      } else {
        assert k <= a;
        assert (dks + [a])[|dks|] == a;
      }
    }
    if InTree(dks + [a], k) && k != [] {
      var j :| 0 <= j < |dks| + 1 && k <= (dks + [a])[j];
      if j < |dks| {
        assert (dks + [b])[j] == dks[j] == (dks + [a])[j];
      } else {
        assert k <= b;
        assert (dks + [b])[|dks|] == b;
      }
    }
    if k == b {
      assert (dks + [b])[|dks|] == b;
    }
  }

  /** A directory that was not in the tree before the step has no children after it. */
  lemma NewDirectoryIsLeaf(dks: seq<seq<string>>, d: seq<string>, i: nat)
    requires i < |d|
    requires !InTree(dks + [d[..i]], d[..i + 1])
    ensures ChildNames(dks + [d[..i + 1]], d[..i + 1]) == []
  {
    var b := d[..i + 1];
    var after := dks + [b];
    var names := ChildNames(after, b);
    forall c ensures c !in names {
      forall j | 0 <= j < |after| ensures !(b + [c] <= after[j]) {
        ExtendedPrefix(b, c, after[j]);
        if j < |dks| {
          assert after[j] == dks[j] == (dks + [d[..i]])[j];
        }
      }
      ChildNamesMembers(after, b, c);
    }
    FirstIsMember(names);
  }

  lemma FirstIsMember<T>(s: seq<T>)
    ensures s == [] || s[0] in s
  {
  }

  // ----- the files at a directory -----

  /** The files filed under directory `k`, in input order. */
  function FilesIn(files: seq<DiffFile>, k: seq<string>): seq<DiffFile>
    decreases |files|
  {
    if |files| == 0 then []
    else
      var last := files[|files| - 1];
      FilesIn(files[..|files| - 1], k) + (if DirKey(last) == k then [last] else [])
  }

  lemma FilesInSnoc(files: seq<DiffFile>, file: DiffFile, k: seq<string>)
    ensures FilesIn(files + [file], k) == FilesIn(files, k) + (if DirKey(file) == k then [file] else [])
  {
    assert (files + [file])[..|files|] == files;
  }

  /**
   * Every file is filed under exactly one directory: a directory holds each
   * file with its key as often as the input does, and no other file.
   */
  lemma {:induction false} FilesInPartition(files: seq<DiffFile>, k: seq<string>, f: DiffFile)
    ensures multiset(FilesIn(files, k))[f] == if DirKey(f) == k then multiset(files)[f] else 0
    decreases |files|
  {
    hide DirKey;
    if |files| > 0 {
      var front := files[..|files| - 1];
      var last := files[|files| - 1];
      assert files == front + [last];
      FilesInPartition(front, k, f);
    }
  }

  /** A directory no file's key equals holds no file. */
  lemma {:induction false} FilesInNone(files: seq<DiffFile>, k: seq<string>)
    requires forall j :: 0 <= j < |files| ==> DirKey(files[j]) != k
    ensures FilesIn(files, k) == []
    decreases |files|
  {
    if |files| > 0 {
      FilesInNone(files[..|files| - 1], k);
    }
  }

  /** A directory that is not in the tree holds no file. */
  lemma NotInTreeHoldsNoFile(files: seq<DiffFile>, extra: seq<string>, k: seq<string>)
    requires !InTree(DirKeys(files) + [extra], k)
    ensures FilesIn(files, k) == []
  {
    var dks := DirKeys(files);
    forall j | 0 <= j < |files| ensures DirKey(files[j]) != k {
      assert (dks + [extra])[j] == DirKey(files[j]);
    }
    FilesInNone(files, k);
  }

  /** A directory holds a file exactly when the file is in the list and has its key. */
  lemma FilesInMembers(files: seq<DiffFile>, k: seq<string>, f: DiffFile)
    ensures f in FilesIn(files, k) <==> f in files && DirKey(f) == k
  {
    FilesInPartition(files, k, f);
    assert f in FilesIn(files, k) <==> f in multiset(FilesIn(files, k));
    assert f in files <==> f in multiset(files);
  }

  /** A file below `k` is reached through the child of `k` named by its next segment. */
  lemma ChildOnTheWay(files: seq<DiffFile>, k: seq<string>, f: DiffFile)
    requires f in files && k < DirKey(f)
    ensures DirKey(f)[|k|] in ChildNames(DirKeys(files), k)
    ensures k + [DirKey(f)[|k|]] <= DirKey(f)
  {
    var dks := DirKeys(files);
    var n := DirKey(f)[|k|];
    var idx :| 0 <= idx < |files| && files[idx] == f;
    ExtendedPrefix(k, n, DirKey(f));
    assert dks[idx] == DirKey(f);
    assert HasChild(dks, k, n);
    ChildNamesMembers(dks, k, n);
  }

  /** Every directory of the tree is a list of valid segments. */
  lemma InTreeValid(files: seq<DiffFile>, k: seq<string>)
    requires InTree(DirKeys(files), k)
    ensures ValidSegments(k)
  {
    if k != [] {
      var j :| 0 <= j < |DirKeys(files)| && k <= DirKeys(files)[j];
      assert ValidSegments(DirKeys(files)[j]);
      forall i | 0 <= i < |k| ensures k[i] != "" && '/' !in k[i] {
        assert k[i] == DirKeys(files)[j][i];
      }
    }
  }

  /** A child name is a valid segment. */
  lemma ChildNameValid(files: seq<DiffFile>, k: seq<string>, n: string)
    requires n in ChildNames(DirKeys(files), k)
    ensures n != "" && '/' !in n
  {
    ChildBelowHeight(DirKeys(files), k, n);
    InTreeValid(files, k + [n]);
    assert (k + [n])[|k|] == n;
  }
}
