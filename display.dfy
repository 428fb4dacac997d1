/**
 * The viewer's small display helpers: the path and name a file is shown
 * under, the highlighting language chosen from the path's extension, the
 * one-letter change badge, and the rule that picks the selected file when a
 * stored diff is restored.
 *
 * Looking a key up in a JavaScript object literal also finds the members of
 * `Object.prototype`; `LanguageFromPathAsWritten` keeps that behaviour, and
 * `GetLanguageFromPath` is the lookup the table was meant to perform.
 */
module Display {
  import opened Wrappers
  import opened Text
  import opened DiffTypes

  const Untitled := "Untitled file"

  /** `newPath || oldPath`: the new path unless it is empty. */
  function GetDisplayPath(file: DiffFile): (r: string)
    ensures file.newPath != "" ==> r == file.newPath
    ensures file.newPath == "" ==> r == file.oldPath
    ensures r == "" <==> file.newPath == "" && file.oldPath == ""
  {
    if file.newPath != "" then file.newPath else file.oldPath
  }

  /** `getDisplayPath(file) || 'Untitled file'`. */
  function DisplayPathOrUntitled(file: DiffFile): (r: string)
    ensures r != ""
    ensures GetDisplayPath(file) != "" ==> r == GetDisplayPath(file)
    ensures GetDisplayPath(file) == "" ==> r == Untitled
  {
    if GetDisplayPath(file) != "" then GetDisplayPath(file) else Untitled
  }

  /**
   * The name a file is listed under: the last non-empty '/'-segment of its
   * display path, or the whole display path when it has no such segment.
   */
  function GetDisplayName(file: DiffFile): (r: string)
    ensures r != ""
    ensures var parts := Segments(DisplayPathOrUntitled(file));
      (|parts| > 0 ==> r == parts[|parts| - 1] && '/' !in r) &&
      (|parts| == 0 ==> r == DisplayPathOrUntitled(file))
  {
    var displayPath := DisplayPathOrUntitled(file);
    var parts := Segments(displayPath);
    if |parts| > 0 then parts[|parts| - 1] else displayPath
  }

  /** A file with neither path is listed as "Untitled file". */
  lemma UntitledName(file: DiffFile)
    requires file.newPath == "" && file.oldPath == ""
    ensures GetDisplayName(file) == Untitled
  {
    SplitWithoutSeparator(Untitled, '/');
    assert Segments(Untitled) == NonEmpty([Untitled]);
  }

  /** A file whose new path is a plain name is listed under that name. */
  lemma PlainNameIsDisplayName(file: DiffFile)
    requires file.newPath != "" && '/' !in file.newPath
    ensures GetDisplayName(file) == file.newPath
  {
    SplitWithoutSeparator(file.newPath, '/');
    assert Segments(file.newPath) == NonEmpty([file.newPath]);
  }

  // ----- highlighting language -----

  /** The `languageByExtension` table. */
  const LanguageByExtension: map<string, string> := map[
    "ts" := "typescript", "tsx" := "tsx", "js" := "javascript", "jsx" := "jsx",
    "json" := "json", "md" := "markdown", "css" := "css", "scss" := "scss",
    "html" := "html", "yml" := "yaml", "yaml" := "yaml", "py" := "python",
    "go" := "go", "rs" := "rust", "java" := "java", "rb" := "ruby",
    "php" := "php", "sh" := "bash"]

  /**
   * The names every JavaScript object inherits from `Object.prototype`; an
   * index expression on an object literal finds them when the object has no
   * own property of that name. All of them are truthy and not nullish.
   */
  const PrototypeMembers: set<string> := {
    "constructor", "__defineGetter__", "__defineSetter__", "hasOwnProperty",
    "__lookupGetter__", "__lookupSetter__", "isPrototypeOf",
    "propertyIsEnumerable", "toString", "valueOf", "__proto__", "toLocaleString"}

  /** `path.split('.').pop().toLowerCase()`: the lower-cased text after the last '.'. */
  function Extension(path: string): (ext: string)
    ensures '.' !in ext
    ensures '.' !in path ==> ext == ToLower(path)
  {
    var pieces := Split(path, '.');
    assert '.' !in path ==> pieces == [path] by {
      if '.' !in path {
        SplitWithoutSeparator(path, '.');
      }
    }
    var last := pieces[|pieces| - 1];
    var ext := ToLower(last);
    assert forall i :: 0 <= i < |ext| ==> ext[i] != '.' by {
      forall i | 0 <= i < |ext| ensures ext[i] != '.' {
        assert last[i] != '.';
      }
    }
    ext
  }

  /**
   * The highlighting language for a path: the table's entry for its
   * extension, and "text" when the extension is empty or not in the table.
   */
  function GetLanguageFromPath(path: string): (r: string)
    ensures r == "text" || r in LanguageByExtension.Values
    ensures Extension(path) in LanguageByExtension ==> r == LanguageByExtension[Extension(path)]
    ensures Extension(path) !in LanguageByExtension ==> r == "text"
  {
    var ext := Extension(path);
    if ext == "" then "text"
    else if ext in LanguageByExtension then LanguageByExtension[ext]
    else "text"
  }

  /** What an index expression on an object literal finds. */
  datatype Found = Value(s: string) | Inherited(member: string)

  /**
   * `getLanguageFromPath` as written: `languageByExtension[match] ?? 'text'`
   * also finds the inherited members whose names are already lower case.
   */
  function LanguageFromPathAsWritten(path: string): (r: Found)
    ensures r.Inherited? <==> Extension(path) !in LanguageByExtension && Extension(path) in PrototypeMembers
  {
    var ext := Extension(path);
    if ext == "" then Value("text")
    else if ext in LanguageByExtension then Value(LanguageByExtension[ext])
    else if ext in PrototypeMembers then Inherited(ext)
    else Value("text")
  }

  /** Outside the inherited names, the code as written and the intended lookup agree. */
  lemma LanguageAsWrittenAgrees(path: string)
    requires Extension(path) !in PrototypeMembers
    ensures LanguageFromPathAsWritten(path) == Value(GetLanguageFromPath(path))
  {
  }

  lemma {:induction false} SplitLastAfterSeparator(stem: string, ext: string)
    requires '.' !in ext
    ensures var pieces := Split(stem + ['.'] + ext, '.'); |pieces| >= 2 && pieces[|pieces| - 1] == ext
    decreases |stem|
  {
    SplitWithoutSeparator(ext, '.');
    if |stem| == 0 {
      assert stem + ['.'] + ext == ['.'] + ext;
      assert (['.'] + ext)[1..] == ext;
    } else {
      assert (stem + ['.'] + ext)[1..] == stem[1..] + ['.'] + ext;
      SplitLastAfterSeparator(stem[1..], ext);
    }
  }

  /** The extension is read from the text after the last '.', whatever precedes it. */
  lemma ExtensionAfterDot(stem: string, ext: string)
    requires '.' !in ext
    ensures Extension(stem + ['.'] + ext) == ToLower(ext)
  {
    SplitLastAfterSeparator(stem, ext);
  }

  /** A file named `x.constructor` gets the inherited `Object` function as its language. */
  lemma LanguageAsWrittenConstructor()
    ensures LanguageFromPathAsWritten("x.constructor") == Inherited("constructor")
    ensures GetLanguageFromPath("x.constructor") == "text"
  {
    var ext := "constructor";
    assert ToLower(ext) == ext;
    assert ext in PrototypeMembers;
    assert ext !in LanguageByExtension;
    assert Extension("x.constructor") == ext by {
      assert "x.constructor" == "x" + ['.'] + ext;
      ExtensionAfterDot("x", ext);
    }
  }

  /** The extension is read case-insensitively: `App.TSX` is highlighted as tsx. */
  lemma LanguageOfUpperCaseExtension()
    ensures GetLanguageFromPath("src/App.TSX") == "tsx"
  {
    assert ToLower("TSX") == "tsx";
    assert "tsx" in LanguageByExtension && LanguageByExtension["tsx"] == "tsx";
    assert Extension("src/App.TSX") == "tsx" by {
      assert "src/App.TSX" == "src/App" + ['.'] + "TSX";
      ExtensionAfterDot("src/App", "TSX");
    }
  }

  // ----- change badge -----

  /** The `CHANGE_BADGES` record: one letter per change kind. */
  function ChangeBadge(t: ChangeType): (badge: string)
    ensures |badge| == 1
    ensures badge == "A" <==> t == AddFile
    ensures badge == "M" <==> t == Modify
    ensures badge == "D" <==> t == DeleteFile
    ensures badge == "R" <==> t == Rename
    ensures badge == "B" <==> t == Binary
  {
    match t
    case AddFile => "A"
    case Modify => "M"
    case DeleteFile => "D"
    case Rename => "R"
    case Binary => "B"
  }

  /** Distinct change kinds get distinct badges. */
  lemma ChangeBadgeInjective(s: ChangeType, t: ChangeType)
    requires ChangeBadge(s) == ChangeBadge(t)
    ensures s == t
  {
  }

  // ----- restoring the selection -----

  /** `files.some((file) => file.id === id)`. */
  predicate HasId(files: seq<DiffFile>, id: string) {
    exists i :: 0 <= i < |files| && files[i].id == id
  }

  /**
   * The file selected when a stored diff is restored (only done when it has
   * at least one file): the stored id when it is non-empty and some file
   * carries it, and the first file's id otherwise.
   */
  function InitialFileId(stored: Option<string>, files: seq<DiffFile>): (r: string)
    requires |files| > 0
    ensures HasId(files, r)
    ensures stored.Some? && stored.value != "" && HasId(files, stored.value) ==> r == stored.value
    ensures !(stored.Some? && stored.value != "" && HasId(files, stored.value)) ==> r == files[0].id
  {
    if stored.Some? && stored.value != "" && HasId(files, stored.value) then stored.value
    else files[0].id
  }
}
