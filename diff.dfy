/**
 * The diff normalisation layer: from the tokenizer's file records to the
 * viewer's file descriptors and each file's presentation hunks.
 */
module Diff {
  import opened Wrappers
  import opened Text
  import opened DiffTypes

  /** The path unified-diff headers give for "no file". */
  const DevNull: string := "/dev/null"

  /** The marker characters a unified-diff line starts with. */
  predicate IsMarker(c: char) {
    c == '+' || c == '-' || c == ' '
  }

  /** The marker a line of the given kind carries in unified-diff text. */
  function Marker(kind: LineKind): (c: char)
    ensures IsMarker(c)
  {
    match kind
    case Add => '+'
    case Del => '-'
    case Normal => ' '
  }

  /** Removes exactly one leading '+', '-' or ' ', and nothing otherwise. */
  function StripDiffPrefix(content: string): (r: string)
    ensures |r| <= |content| && r == content[|content| - |r|..]
    ensures |r| == |content| - 1 <==> |content| > 0 && IsMarker(content[0])
    ensures |r| == |content| <==> !(|content| > 0 && IsMarker(content[0]))
  {
    if |content| == 0 then content
    else if IsMarker(content[0]) then content[1..]
    else content
  }

  /** Stripping undoes prefixing a marker. */
  lemma StripMarkerRoundTrip(kind: LineKind, body: string)
    ensures StripDiffPrefix([Marker(kind)] + body) == body
  {
    assert ([Marker(kind)] + body)[1..] == body;
  }

  /**
   * The single line number the renderer shows for a changed line: the
   * new-side number first for an added line, the old-side number first for a
   * removed line, nothing for a context line.
   */
  function GetChangeLineNumber(change: Change): (r: Option<int>)
    ensures change.kind == Normal ==> r.None?
    ensures change.kind == Add ==> r == change.ln2.OrElse(change.ln).OrElse(change.ln1)
    ensures change.kind == Del ==> r == change.ln1.OrElse(change.ln).OrElse(change.ln2)
    ensures r.Some? <==> change.kind != Normal && (change.ln.Some? || change.ln1.Some? || change.ln2.Some?)
  {
    match change.kind
    case Add => change.ln2.OrElse(change.ln).OrElse(change.ln1)
    case Del => change.ln1.OrElse(change.ln).OrElse(change.ln2)
    case Normal => None
  }

  /** The old-side number of a line: none for an added line, else `ln1 ?? ln`. */
  function OldSideNumber(change: Change): Option<int> {
    if change.kind == Add then None else change.ln1.OrElse(change.ln)
  }

  /** The new-side number of a line: none for a removed line, else `ln2 ?? ln`. */
  function NewSideNumber(change: Change): Option<int> {
    if change.kind == Del then None else change.ln2.OrElse(change.ln)
  }

  /** The line model of one change. */
  function ToLine(change: Change): (r: DiffLine)
    ensures r.kind == change.kind
    ensures r.content == StripDiffPrefix(change.content)
    ensures change.kind == Add ==> r.oldLineNumber.None?
    ensures change.kind == Del ==> r.newLineNumber.None?
    ensures r.oldLineNumber.None? <==> change.kind == Add || (change.ln1.None? && change.ln.None?)
    ensures r.newLineNumber.None? <==> change.kind == Del || (change.ln2.None? && change.ln.None?)
    ensures r.oldLineNumber.Some? ==> r.oldLineNumber == (if change.ln1.Some? then change.ln1 else change.ln)
    ensures r.newLineNumber.Some? ==> r.newLineNumber == (if change.ln2.Some? then change.ln2 else change.ln)
  {
    DiffLine(change.kind, OldSideNumber(change), NewSideNumber(change), StripDiffPrefix(change.content))
  }

  /** The renderer's name for a line kind. */
  function ViewKindOf(kind: LineKind): (r: ViewKind)
    ensures r == Insert <==> kind == Add
    ensures r == Delete <==> kind == Del
    ensures r == Unchanged <==> kind == Normal
  {
    match kind
    case Add => Insert
    case Del => Delete
    case Normal => Unchanged
  }

  /**
   * The presentation model of one change. It agrees with the line model on
   * content and on both line numbers; its single `lineNumber` is the line
   * model's number for the side the line belongs to, whenever that is known.
   */
  function ToViewChange(change: Change): (r: DiffViewChange)
    ensures r.kind == ViewKindOf(ToLine(change).kind)
    ensures r.content == ToLine(change).content
    ensures r.oldLineNumber == ToLine(change).oldLineNumber
    ensures r.newLineNumber == ToLine(change).newLineNumber
    ensures r.lineNumber == GetChangeLineNumber(change)
    ensures change.kind == Add && r.newLineNumber.Some? ==> r.lineNumber == r.newLineNumber
    ensures change.kind == Del && r.oldLineNumber.Some? ==> r.lineNumber == r.oldLineNumber
    ensures change.kind == Normal <==> r.kind == Unchanged
    ensures change.kind == Normal ==> r.lineNumber.None?
  {
    var lineNumber := if change.kind == Normal then None else GetChangeLineNumber(change);
    DiffViewChange(
      ViewKindOf(change.kind), StripDiffPrefix(change.content),
      OldSideNumber(change), NewSideNumber(change), lineNumber)
  }

  /** The line model of one hunk: the header numbers and one line per change, in order. */
  function ToHunk(chunk: Chunk): (h: DiffHunk)
    ensures h.oldStart == chunk.oldStart && h.oldLines == chunk.oldLines
    ensures h.newStart == chunk.newStart && h.newLines == chunk.newLines
    ensures |h.lines| == |chunk.changes|
    ensures forall i :: 0 <= i < |h.lines| ==> h.lines[i] == ToLine(chunk.changes[i])
  {
    DiffHunk(
      chunk.oldStart, chunk.oldLines, chunk.newStart, chunk.newLines,
      seq(|chunk.changes|, i requires 0 <= i < |chunk.changes| => ToLine(chunk.changes[i])))
  }

  /** The presentation model of one hunk: the header and one change per change, in order. */
  function ToViewHunk(chunk: Chunk): (h: DiffViewHunk)
    ensures h.content == chunk.content
    ensures h.oldStart == chunk.oldStart && h.oldLines == chunk.oldLines
    ensures h.newStart == chunk.newStart && h.newLines == chunk.newLines
    ensures |h.changes| == |chunk.changes|
    ensures forall i :: 0 <= i < |h.changes| ==> h.changes[i] == ToViewChange(chunk.changes[i])
  {
    DiffViewHunk(
      chunk.content, chunk.oldStart, chunk.oldLines, chunk.newStart, chunk.newLines,
      seq(|chunk.changes|, i requires 0 <= i < |chunk.changes| => ToViewChange(chunk.changes[i])))
  }

  /** The two projections of a hunk agree line by line. */
  lemma HunkProjectionsAgree(chunk: Chunk, i: nat)
    requires i < |chunk.changes|
    ensures var line, view := ToHunk(chunk).lines[i], ToViewHunk(chunk).changes[i];
      && view.kind == ViewKindOf(line.kind)
      && view.content == line.content
      && view.oldLineNumber == line.oldLineNumber
      && view.newLineNumber == line.newLineNumber
  {
  }

  function ToHunks(chunks: seq<Chunk>): (r: seq<DiffHunk>)
    ensures |r| == |chunks| && forall i :: 0 <= i < |r| ==> r[i] == ToHunk(chunks[i])
  {
    seq(|chunks|, i requires 0 <= i < |chunks| => ToHunk(chunks[i]))
  }

  function ToViewHunks(chunks: seq<Chunk>): (r: seq<DiffViewHunk>)
    ensures |r| == |chunks| && forall i :: 0 <= i < |r| ==> r[i] == ToViewHunk(chunks[i])
  {
    seq(|chunks|, i requires 0 <= i < |chunks| => ToViewHunk(chunks[i]))
  }

  // ----- line numbering -----

  /**
   * The numbering the tokenizer gives the changes of a hunk, counting from
   * the old-side and new-side numbers of the first line: a context line
   * carries both counters in `ln1` and `ln2` and advances both; an added line
   * carries the new-side counter in `ln` and advances it; a removed line
   * carries the old-side counter in `ln` and advances it.
   */
  predicate TokenizerNumbering(changes: seq<Change>, oldNo: int, newNo: int)
    decreases |changes|
  {
    |changes| == 0 ||
    var c := changes[0];
    match c.kind
    case Normal =>
      c.ln.None? && c.ln1 == Some(oldNo) && c.ln2 == Some(newNo) && TokenizerNumbering(changes[1..], oldNo + 1, newNo + 1)
    case Add =>
      c.ln == Some(newNo) && c.ln1.None? && c.ln2.None? && TokenizerNumbering(changes[1..], oldNo, newNo + 1)
    case Del =>
      c.ln == Some(oldNo) && c.ln1.None? && c.ln2.None? && TokenizerNumbering(changes[1..], oldNo + 1, newNo)
  }

  /**
   * Lines numbered by running counters: a context line has both numbers, an
   * added line only the new one, a removed line only the old one, and each
   * counter advances on the lines of its side.
   */
  predicate LinesNumbered(lines: seq<DiffLine>, oldNo: int, newNo: int)
    decreases |lines|
  {
    |lines| == 0 ||
    var l := lines[0];
    match l.kind
    case Normal =>
      l.oldLineNumber == Some(oldNo) && l.newLineNumber == Some(newNo) && LinesNumbered(lines[1..], oldNo + 1, newNo + 1)
    case Add =>
      l.oldLineNumber.None? && l.newLineNumber == Some(newNo) && LinesNumbered(lines[1..], oldNo, newNo + 1)
    case Del =>
      l.oldLineNumber == Some(oldNo) && l.newLineNumber.None? && LinesNumbered(lines[1..], oldNo + 1, newNo)
  }

  /** The same running counters on the presentation model, including its single `lineNumber`. */
  predicate ViewChangesNumbered(changes: seq<DiffViewChange>, oldNo: int, newNo: int)
    decreases |changes|
  {
    |changes| == 0 ||
    var v := changes[0];
    match v.kind
    case Unchanged =>
      v.oldLineNumber == Some(oldNo) && v.newLineNumber == Some(newNo) && v.lineNumber.None?
      && ViewChangesNumbered(changes[1..], oldNo + 1, newNo + 1)
    case Insert =>
      v.oldLineNumber.None? && v.newLineNumber == Some(newNo) && v.lineNumber == Some(newNo)
      && ViewChangesNumbered(changes[1..], oldNo, newNo + 1)
    case Delete =>
      v.oldLineNumber == Some(oldNo) && v.newLineNumber.None? && v.lineNumber == Some(oldNo)
      && ViewChangesNumbered(changes[1..], oldNo + 1, newNo)
  }

  /** `lines` is the line model of `changes`, one line per change. */
  predicate LinesOf(changes: seq<Change>, lines: seq<DiffLine>) {
    |lines| == |changes| && forall i :: 0 <= i < |changes| ==> lines[i] == ToLine(changes[i])
  }

  /** `views` is the presentation model of `changes`, one view per change. */
  predicate ViewsOf(changes: seq<Change>, views: seq<DiffViewChange>) {
    |views| == |changes| && forall i :: 0 <= i < |changes| ==> views[i] == ToViewChange(changes[i])
  }

  lemma LinesOfTail(changes: seq<Change>, lines: seq<DiffLine>)
    requires 0 < |changes| && LinesOf(changes, lines)
    ensures lines[0] == ToLine(changes[0]) && LinesOf(changes[1..], lines[1..])
  {
    hide ToLine;
    assert forall i :: 0 <= i < |changes| - 1 ==> lines[1..][i] == lines[i + 1] && changes[1..][i] == changes[i + 1];
  }

  lemma ViewsOfTail(changes: seq<Change>, views: seq<DiffViewChange>)
    requires 0 < |changes| && ViewsOf(changes, views)
    ensures views[0] == ToViewChange(changes[0]) && ViewsOf(changes[1..], views[1..])
  {
    hide ToViewChange;
    assert forall i :: 0 <= i < |changes| - 1 ==> views[1..][i] == views[i + 1] && changes[1..][i] == changes[i + 1];
  }

  /** Under the tokenizer's numbering, the line model of the changes follows the running counters. */
  lemma {:induction false} LinesFollowCounters(changes: seq<Change>, lines: seq<DiffLine>, oldNo: int, newNo: int)
    requires LinesOf(changes, lines) && TokenizerNumbering(changes, oldNo, newNo)
    ensures LinesNumbered(lines, oldNo, newNo)
    decreases |changes|
  {
    if |changes| > 0 {
      hide LinesOf, ToLine, StripDiffPrefix, LinesNumbered;
      var kind := changes[0].kind;
      var oldNext, newNext := if kind == Add then oldNo else oldNo + 1, if kind == Del then newNo else newNo + 1;
      LinesOfTail(changes, lines);
      LinesFollowCounters(changes[1..], lines[1..], oldNext, newNext);
      FirstLineNumbered(changes, lines, oldNo, newNo);
    }
  }

  /** The line model of a numbered first change carries the counters, which then advance on its side. */
  lemma FirstLineNumbered(changes: seq<Change>, lines: seq<DiffLine>, oldNo: int, newNo: int)
    requires 0 < |changes| == |lines| && lines[0] == ToLine(changes[0])
    requires TokenizerNumbering(changes, oldNo, newNo)
    requires var kind := changes[0].kind;
      LinesNumbered(lines[1..], if kind == Add then oldNo else oldNo + 1, if kind == Del then newNo else newNo + 1)
    ensures LinesNumbered(lines, oldNo, newNo)
  {
    hide StripDiffPrefix;
  }

  /** Under the tokenizer's numbering, the presentation model of the changes follows the running counters. */
  lemma {:induction false} ViewChangesFollowCounters(changes: seq<Change>, views: seq<DiffViewChange>, oldNo: int, newNo: int)
    requires ViewsOf(changes, views) && TokenizerNumbering(changes, oldNo, newNo)
    ensures ViewChangesNumbered(views, oldNo, newNo)
    decreases |changes|
  {
    if |changes| > 0 {
      hide ViewsOf, ToViewChange, ToLine, StripDiffPrefix, ViewChangesNumbered;
      var kind := changes[0].kind;
      var oldNext, newNext := if kind == Add then oldNo else oldNo + 1, if kind == Del then newNo else newNo + 1;
      ViewsOfTail(changes, views);
      ViewChangesFollowCounters(changes[1..], views[1..], oldNext, newNext);
      FirstViewChangeNumbered(changes, views, oldNo, newNo);
    }
  }

  /** The presentation model of a numbered first change carries the counters, which then advance on its side. */
  lemma FirstViewChangeNumbered(changes: seq<Change>, views: seq<DiffViewChange>, oldNo: int, newNo: int)
    requires 0 < |changes| == |views| && views[0] == ToViewChange(changes[0])
    requires TokenizerNumbering(changes, oldNo, newNo)
    requires var kind := changes[0].kind;
      ViewChangesNumbered(views[1..], if kind == Add then oldNo else oldNo + 1, if kind == Del then newNo else newNo + 1)
    ensures ViewChangesNumbered(views, oldNo, newNo)
  {
    hide StripDiffPrefix;
  }

  /**
   * A hunk numbered by the tokenizer from its header's start lines yields
   * both projections numbered by running counters from those starts.
   */
  lemma HunkNumbering(chunk: Chunk)
    requires TokenizerNumbering(chunk.changes, chunk.oldStart, chunk.newStart)
    ensures LinesNumbered(ToHunk(chunk).lines, chunk.oldStart, chunk.newStart)
    ensures ViewChangesNumbered(ToViewHunk(chunk).changes, chunk.oldStart, chunk.newStart)
  {
    hide LinesNumbered, ViewChangesNumbered, TokenizerNumbering, ToHunk, ToViewHunk, ToLine, ToViewChange;
    LinesFollowCounters(chunk.changes, ToHunk(chunk).lines, chunk.oldStart, chunk.newStart);
    ViewChangesFollowCounters(chunk.changes, ToViewHunk(chunk).changes, chunk.oldStart, chunk.newStart);
  }

  /** The hunk `@@ -1,2 +1,3 @@` with lines ` foo`, `-bar`, `+baz`, `+qux`, as the tokenizer delivers it. */
  lemma ExampleHunk()
    ensures var chunk := Chunk("@@ -1,2 +1,3 @@", 1, 2, 1, 3, [
                          Change(Normal, " foo", None, Some(1), Some(1)),
                          Change(Del, "-bar", Some(2), None, None),
                          Change(Add, "+baz", Some(2), None, None),
                          Change(Add, "+qux", Some(3), None, None)]);
            ToViewHunk(chunk).changes == [
              DiffViewChange(Unchanged, "foo", Some(1), Some(1), None),
              DiffViewChange(Delete, "bar", Some(2), None, Some(2)),
              DiffViewChange(Insert, "baz", None, Some(2), Some(2)),
              DiffViewChange(Insert, "qux", None, Some(3), Some(3))]
  {
    hide ToViewHunk, ToViewChange, StripDiffPrefix;
    var changes := [
      Change(Normal, " foo", None, Some(1), Some(1)),
      Change(Del, "-bar", Some(2), None, None),
      Change(Add, "+baz", Some(2), None, None),
      Change(Add, "+qux", Some(3), None, None)];
    var views := ToViewHunk(Chunk("@@ -1,2 +1,3 @@", 1, 2, 1, 3, changes)).changes;
    assert views[0] == DiffViewChange(Unchanged, "foo", Some(1), Some(1), None) by {
      ViewOfMarkedChange(changes[0], "foo");
    }
    assert views[1] == DiffViewChange(Delete, "bar", Some(2), None, Some(2)) by {
      ViewOfMarkedChange(changes[1], "bar");
    }
    assert views[2] == DiffViewChange(Insert, "baz", None, Some(2), Some(2)) by {
      ViewOfMarkedChange(changes[2], "baz");
    }
    assert views[3] == DiffViewChange(Insert, "qux", None, Some(3), Some(3)) by {
      ViewOfMarkedChange(changes[3], "qux");
    }
    FourElements(views, views[0], views[1], views[2], views[3]);
  }

  lemma FourElements<T>(s: seq<T>, a: T, b: T, c: T, d: T)
    requires |s| == 4 && s[0] == a && s[1] == b && s[2] == c && s[3] == d
    ensures s == [a, b, c, d]
  {
  }

  /** The presentation model of a change whose content is a marker followed by `body`. */
  lemma ViewOfMarkedChange(change: Change, body: string)
    requires |change.content| == |body| + 1 && IsMarker(change.content[0]) && change.content[1..] == body
    ensures ToViewChange(change) == DiffViewChange(
      ViewKindOf(change.kind), body, OldSideNumber(change), NewSideNumber(change),
      if change.kind == Normal then None else GetChangeLineNumber(change))
  {
  }

  // ----- classification -----

  /** JavaScript truthiness of an optional string: present and non-empty. */
  predicate Truthy(s: Option<string>) {
    s.Some? && s.value != ""
  }

  predicate AddSignal(file: File) {
    file.newFile || file.from == Some(DevNull)
  }

  predicate DeleteSignal(file: File) {
    file.deletedFile || file.to == Some(DevNull)
  }

  predicate RenameSignal(file: File) {
    file.renamed || Truthy(file.renameFrom) || Truthy(file.renameTo)
  }

  /** The change kind, by the precedence binary > add > delete > rename > modify. */
  function GetChangeType(file: File): (r: ChangeType)
    ensures r == Binary <==> file.binary
    ensures r == AddFile <==> !file.binary && AddSignal(file)
    ensures r == DeleteFile <==> !file.binary && !AddSignal(file) && DeleteSignal(file)
    ensures r == Rename <==> !file.binary && !AddSignal(file) && !DeleteSignal(file) && RenameSignal(file)
    ensures r == Modify <==> !file.binary && !AddSignal(file) && !DeleteSignal(file) && !RenameSignal(file)
  {
    if file.binary then Binary
    else if file.newFile || file.from == Some(DevNull) then AddFile
    else if file.deletedFile || file.to == Some(DevNull) then DeleteFile
    else if file.renamed || Truthy(file.renameFrom) || Truthy(file.renameTo) then Rename
    else Modify
  }

  /** A binary file that is also new is classified as binary. */
  lemma BinaryNewFileIsBinary(file: File)
    requires file.binary && file.newFile
    ensures GetChangeType(file) == Binary
  {
  }

  /** A record with rename metadata and no add, delete or binary signal is a rename. */
  lemma RenameOnlyIsRename(file: File)
    requires !file.binary && !AddSignal(file) && !DeleteSignal(file)
    requires Truthy(file.renameFrom) && Truthy(file.renameTo)
    ensures GetChangeType(file) == Rename
  {
  }

  // ----- paths and ids -----

  /** `path.replace(/^a\//, '').replace(/^b\//, '')`. */
  function NormalizePath(path: string): (r: string)
    ensures |r| <= |path|
    ensures !HasPrefix(path, "a/") && !HasPrefix(path, "b/") ==> r == path
    ensures HasPrefix(path, "b/") ==> r == path[2..]
    ensures HasPrefix(path, "a/") && !HasPrefix(path[2..], "b/") ==> r == path[2..]
    ensures HasPrefix(path, "a/b/") ==> r == path[4..]
  {
    var afterA := StripPrefix(path, "a/");
    assert HasPrefix(path, "a/b/") ==> HasPrefix(path, "a/") && HasPrefix(afterA, "b/") by {
      if HasPrefix(path, "a/b/") {
        assert path[..2] == path[..4][..2] == "a/";
        assert afterA[..2] == path[..4][2..] == "b/";
      }
    }
    StripPrefix(afterA, "b/")
  }

  /** Normalising only ever removes a leading part: the result is a suffix of the path. */
  lemma NormalizePathSuffix(path: string)
    ensures var r := NormalizePath(path); r == path[|path| - |r|..]
  {
  }

  /** Only one leading `a/` is removed. */
  lemma NormalizeKeepsSecondA()
    ensures NormalizePath("a/a/x.ts") == "a/x.ts"
  {
    assert HasPrefix("a/a/x.ts", "a/");
    assert "a/x.ts"[0] != "b/"[0];
  }

  /** An `a/` followed by a `b/` loses both. */
  lemma NormalizeStripsAThenB()
    ensures NormalizePath("a/b/x") == "x"
  {
    assert HasPrefix("a/b/x", "a/");
    assert HasPrefix("b/x", "b/");
  }

  /** The old-side path of a record: `renameFrom ?? from ?? ''`. */
  function FromPath(file: File): (r: string)
    ensures file.renameFrom.Some? ==> r == file.renameFrom.value
    ensures file.renameFrom.None? && file.from.Some? ==> r == file.from.value
    ensures file.renameFrom.None? && file.from.None? ==> r == ""
  {
    file.renameFrom.OrElse(file.from).GetOr("")
  }

  /** The new-side path of a record: `renameTo ?? to ?? ''`. */
  function ToPath(file: File): (r: string)
    ensures file.renameTo.Some? ==> r == file.renameTo.value
    ensures file.renameTo.None? && file.to.Some? ==> r == file.to.value
    ensures file.renameTo.None? && file.to.None? ==> r == ""
  {
    file.renameTo.OrElse(file.to).GetOr("")
  }

  /** `${index}-${from}-${to}`: its leading digits give back the index. */
  function BuildFileId(file: File, index: nat): (id: string)
    ensures IdIndex(id) == index
    ensures |NatToString(index)| < |id| && id[|NatToString(index)|..] == "-" + FromPath(file) + "-" + ToPath(file)
  {
    var rest := "-" + FromPath(file) + "-" + ToPath(file);
    LeadingDigitsOfNumber(NatToString(index), rest);
    DigitsRoundTrip(index);
    NatToString(index) + rest
  }

  /** The decimal digits an id starts with. */
  function LeadingDigits(s: string): (r: string)
    ensures |r| <= |s| && r == s[..|r|]
    ensures forall i :: 0 <= i < |r| ==> IsDigit(r[i])
    ensures |r| < |s| ==> !IsDigit(s[|r|])
    decreases |s|
  {
    if |s| > 0 && IsDigit(s[0]) then [s[0]] + LeadingDigits(s[1..]) else ""
  }

  /** The index an id was built from: the number its leading digits denote. */
  function IdIndex(id: string): nat {
    DigitsValue(LeadingDigits(id))
  }

  lemma {:induction false} LeadingDigitsOfNumber(digits: string, rest: string)
    requires forall i :: 0 <= i < |digits| ==> IsDigit(digits[i])
    requires |rest| > 0 && !IsDigit(rest[0])
    ensures LeadingDigits(digits + rest) == digits
    decreases |digits|
  {
    if |digits| > 0 {
      assert (digits + rest)[1..] == digits[1..] + rest;
      LeadingDigitsOfNumber(digits[1..], rest);
      assert digits == [digits[0]] + digits[1..];
    } else {
      assert digits + rest == rest;
    }
  }

  /** Ids built for distinct positions differ, whatever the records hold. */
  lemma BuildFileIdDistinct(f: File, i: nat, g: File, j: nat)
    requires i != j
    ensures BuildFileId(f, i) != BuildFileId(g, j)
  {
  }

  /** An id depends on the position and the paths only, not on hunks or flags. */
  lemma BuildFileIdIgnoresContent(f: File, g: File, index: nat)
    requires f.from == g.from && f.to == g.to
    requires f.renameFrom == g.renameFrom && f.renameTo == g.renameTo
    ensures BuildFileId(f, index) == BuildFileId(g, index)
  {
  }

  // ----- assembling the result -----

  /** The descriptor `parseDiffText` produces for the record at `index`. */
  function ToDiffFile(file: File, index: nat): (d: DiffFile)
    ensures d.id == BuildFileId(file, index)
    ensures d.changeType == GetChangeType(file)
    ensures d.isBinary <==> file.binary
    ensures d.oldPath == NormalizePath(FromPath(file))
    ensures d.newPath == NormalizePath(ToPath(file))
    ensures file.renameFrom.Some? ==> d.oldPath == NormalizePath(file.renameFrom.value)
    ensures file.renameTo.Some? ==> d.newPath == NormalizePath(file.renameTo.value)
    ensures d.hunks == ToHunks(file.chunks)
  {
    var changeType := GetChangeType(file);
    DiffFile(
      BuildFileId(file, index),
      NormalizePath(FromPath(file)), NormalizePath(ToPath(file)),
      changeType, ToHunks(file.chunks), changeType == Binary)
  }

  /** The descriptors of the first `n` records, in order. */
  function DescribeAll(parsed: seq<File>, n: nat): seq<DiffFile>
    requires n <= |parsed|
  {
    if n == 0 then [] else DescribeAll(parsed, n - 1) + [ToDiffFile(parsed[n - 1], n - 1)]
  }

  /** The dictionary of presentation hunks after the first `n` records. */
  function ViewHunksUpTo(parsed: seq<File>, n: nat): map<string, seq<DiffViewHunk>>
    requires n <= |parsed|
  {
    if n == 0 then map[]
    else ViewHunksUpTo(parsed, n - 1)[BuildFileId(parsed[n - 1], n - 1) := ToViewHunks(parsed[n - 1].chunks)]
  }

  /** What `parseDiffText` returns for the records of a diff. */
  function ParseResult(parsed: seq<File>): ParsedDiffResult {
    ParsedDiffResult(DescribeAll(parsed, |parsed|), ViewHunksUpTo(parsed, |parsed|))
  }

  /** The ids of the first `n` records. */
  function IdsUpTo(parsed: seq<File>, n: nat): set<string>
    requires n <= |parsed|
  {
    set i | 0 <= i < n :: BuildFileId(parsed[i], i)
  }

  /** The descriptor list holds one descriptor per record, in order. */
  lemma {:induction false} DescribeAllElements(parsed: seq<File>, n: nat)
    requires n <= |parsed|
    ensures |DescribeAll(parsed, n)| == n
    ensures forall i :: 0 <= i < n ==> DescribeAll(parsed, n)[i] == ToDiffFile(parsed[i], i)
  {
    hide ToDiffFile, BuildFileId, FromPath, ToPath, IdIndex, NormalizePath, ToHunks, GetChangeType;
    if n > 0 {
      DescribeAllElements(parsed, n - 1);
    }
  }

  lemma IdsUpToStep(parsed: seq<File>, n: nat)
    requires n < |parsed|
    ensures IdsUpTo(parsed, n + 1) == IdsUpTo(parsed, n) + {BuildFileId(parsed[n], n)}
    ensures BuildFileId(parsed[n], n) !in IdsUpTo(parsed, n)
  {
    hide BuildFileId, IdIndex, LeadingDigits, DigitsValue, NatToString, FromPath, ToPath, ToViewHunks;
    forall i | 0 <= i < n ensures BuildFileId(parsed[i], i) != BuildFileId(parsed[n], n) {
      BuildFileIdDistinct(parsed[i], i, parsed[n], n);
    }
    assert BuildFileId(parsed[n], n) in IdsUpTo(parsed, n + 1);
  }

  /** The dictionary's keys are the ids of the records seen so far. */
  lemma {:induction false} ViewHunksUpToKeys(parsed: seq<File>, n: nat)
    requires n <= |parsed|
    ensures ViewHunksUpTo(parsed, n).Keys == IdsUpTo(parsed, n)
  {
    hide BuildFileId, IdIndex, LeadingDigits, DigitsValue, NatToString, FromPath, ToPath, ToViewHunks;
    if n == 0 {
      assert IdsUpTo(parsed, 0) == {};
    } else {
      ViewHunksUpToKeys(parsed, n - 1);
      IdsUpToStep(parsed, n - 1);
    }
  }

  /** No entry overwrites another: the dictionary has one entry per record. */
  lemma {:induction false} ViewHunksUpToSize(parsed: seq<File>, n: nat)
    requires n <= |parsed|
    ensures |ViewHunksUpTo(parsed, n)| == n
  {
    hide BuildFileId, IdIndex, LeadingDigits, DigitsValue, NatToString, FromPath, ToPath, ToViewHunks;
    if n > 0 {
      ViewHunksUpToSize(parsed, n - 1);
      ViewHunksUpToKeys(parsed, n - 1);
      IdsUpToStep(parsed, n - 1);
    }
  }

  /** The entry under each record's id holds that record's presentation hunks. */
  lemma {:induction false} ViewHunksUpToEntries(parsed: seq<File>, n: nat)
    requires n <= |parsed|
    ensures forall i :: 0 <= i < n ==>
      BuildFileId(parsed[i], i) in ViewHunksUpTo(parsed, n) &&
      ViewHunksUpTo(parsed, n)[BuildFileId(parsed[i], i)] == ToViewHunks(parsed[i].chunks)
  {
    hide BuildFileId, IdIndex, LeadingDigits, DigitsValue, NatToString, FromPath, ToPath, ToViewHunks;
    if n > 0 {
      var m := n - 1;
      ViewHunksUpToEntries(parsed, m);
      forall i | 0 <= i < m ensures BuildFileId(parsed[i], i) != BuildFileId(parsed[m], m) {
        BuildFileIdDistinct(parsed[i], i, parsed[m], m);
      }
    }
  }

  /**
   * The result of `parseDiffText`: one descriptor per record, in order, with
   * pairwise distinct ids, and a dictionary holding exactly one entry per id,
   * that file's presentation hunks.
   */
  lemma ParseResultProperties(parsed: seq<File>)
    ensures |ParseResult(parsed).files| == |parsed|
    ensures forall i :: 0 <= i < |parsed| ==> ParseResult(parsed).files[i] == ToDiffFile(parsed[i], i)
    ensures forall i, j :: 0 <= i < j < |parsed| ==> ParseResult(parsed).files[i].id != ParseResult(parsed).files[j].id
    ensures ParseResult(parsed).viewHunksById.Keys == IdsUpTo(parsed, |parsed|)
    ensures |ParseResult(parsed).viewHunksById| == |parsed|
    ensures forall i :: 0 <= i < |parsed| ==>
      BuildFileId(parsed[i], i) in ParseResult(parsed).viewHunksById &&
      ParseResult(parsed).viewHunksById[BuildFileId(parsed[i], i)] == ToViewHunks(parsed[i].chunks)
  {
    var files := DescribeAll(parsed, |parsed|);
    DescribeAllElements(parsed, |parsed|);
    ViewHunksUpToKeys(parsed, |parsed|);
    ViewHunksUpToSize(parsed, |parsed|);
    ViewHunksUpToEntries(parsed, |parsed|);
    hide DescribeAll, ViewHunksUpTo, BuildFileId, ToViewHunks, ToHunks;
    forall i, j | 0 <= i < j < |parsed| ensures files[i].id != files[j].id {
      BuildFileIdDistinct(parsed[i], i, parsed[j], j);
    }
  }

  /**
   * The callback `parseDiffText` maps over the records: the descriptor of the
   * record at `index`, and its presentation hunks.
   */
  method DescribeFile(file: File, index: nat) returns (d: DiffFile, viewHunks: seq<DiffViewHunk>)
    ensures d == ToDiffFile(file, index)
    ensures viewHunks == ToViewHunks(file.chunks)
  {
    var id := BuildFileId(file, index);
    var changeType := GetChangeType(file);
    var oldPath := NormalizePath(FromPath(file));
    var newPath := NormalizePath(ToPath(file));
    var hunks := ToHunks(file.chunks);
    viewHunks := ToViewHunks(file.chunks);
    d := DiffFile(id, oldPath, newPath, changeType, hunks, changeType == Binary);
  }

  /**
   * `parseDiffText` on the records the tokenizer produced: the descriptors
   * are collected in order while each file's presentation hunks are written
   * into the dictionary under its id.
   */
  method ParseDiffText(parsed: seq<File>) returns (result: ParsedDiffResult)
    ensures result == ParseResult(parsed)
  {
    var viewHunksById: map<string, seq<DiffViewHunk>> := map[];
    var files: seq<DiffFile> := [];
    for index := 0 to |parsed|
      invariant files == DescribeAll(parsed, index)
      invariant viewHunksById == ViewHunksUpTo(parsed, index)
    {
      var d, viewHunks := DescribeFile(parsed[index], index);
      viewHunksById := viewHunksById[d.id := viewHunks];
      files := files + [d];
    }
    result := ParsedDiffResult(files, viewHunksById);
  }
}
