/**
 * The records of the diff model: what the unified-diff tokenizer (the
 * `parse-diff` package) hands over, and the two projections the viewer builds
 * from them. TypeScript numbers are modelled as `int`; an optional number is
 * an `Option<int>`, with `None` standing for both `undefined` and `null`.
 */
module DiffTypes {
  import opened Wrappers

  // ----- the tokenizer's output -----

  /** The kind of a line of a hunk: 'add', 'del' or 'normal'. */
  datatype LineKind = Add | Del | Normal

  /**
   * One line of a hunk, with its marker character still in `content`; `ln`,
   * `ln1` and `ln2` are the optional line-number fields.
   */
  datatype Change = Change(kind: LineKind, content: string, ln: Option<int>, ln1: Option<int>, ln2: Option<int>)

  /** One hunk: the header text, the four header numbers and the lines. */
  datatype Chunk = Chunk(
    content: string,
    oldStart: int, oldLines: int, newStart: int, newLines: int,
    changes: seq<Change>)

  /**
   * One file section of the diff. The optional boolean flags are only ever
   * read as truth values, so an absent flag is `false`.
   */
  datatype File = File(
    chunks: seq<Chunk>,
    from: Option<string>, to: Option<string>,
    deletions: int, additions: int,
    oldMode: Option<string>, newMode: Option<string>,
    newFileMode: Option<string>, deletedFileMode: Option<string>,
    renameFrom: Option<string>, renameTo: Option<string>,
    newFile: bool, deletedFile: bool, renamed: bool, binary: bool)

  // ----- the line model -----

  /** The change kinds 'add', 'modify', 'delete', 'rename' and 'binary'. */
  datatype ChangeType = AddFile | Modify | DeleteFile | Rename | Binary

  /** A line with `null` (here `None`) for the side it does not belong to. */
  datatype DiffLine = DiffLine(kind: LineKind, oldLineNumber: Option<int>, newLineNumber: Option<int>, content: string)

  datatype DiffHunk = DiffHunk(oldStart: int, oldLines: int, newStart: int, newLines: int, lines: seq<DiffLine>)

  datatype DiffFile = DiffFile(
    id: string, oldPath: string, newPath: string,
    changeType: ChangeType, hunks: seq<DiffHunk>, isBinary: bool)

  // ----- the presentation model handed to the diff renderer -----

  /** The renderer's line kinds 'insert', 'delete' and 'normal'. */
  datatype ViewKind = Insert | Delete | Unchanged

  /** A line with the field left out (here `None`) for the side it does not belong to. */
  datatype DiffViewChange = DiffViewChange(
    kind: ViewKind, content: string,
    oldLineNumber: Option<int>, newLineNumber: Option<int>, lineNumber: Option<int>)

  datatype DiffViewHunk = DiffViewHunk(
    content: string,
    oldStart: int, oldLines: int, newStart: int, newLines: int,
    changes: seq<DiffViewChange>)

  /** The result of parsing: the files, and each file's presentation hunks by id. */
  datatype ParsedDiffResult = ParsedDiffResult(files: seq<DiffFile>, viewHunksById: map<string, seq<DiffViewHunk>>)
}
