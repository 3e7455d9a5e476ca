/** `src/classifier.rs`: one file's journey. Its media type and date decide the
    destination `cwd/EXT/YYYYMMDD/name`; a file already in such a place is left
    alone; otherwise the conflict resolver decides between moving, skipping and
    moving under a new name. The date provider and the working directory are
    outcomes handed in, since they come from the metadata reader and the process. */
module Classifier {
  import opened Wrappers
  import opened Text
  import opened Paths
  import opened MediaTypes
  import opened Templates
  import opened FileSystems
  import opened Conflicts

  datatype ClassifyResult =
    | Success(from: Path, to: Path)
    | Skipped(path: Path)
    | Renamed(from: Path, to: Path)
    | Failed(path: Path, error: string)

  /** A result together with the disk it leaves behind. */
  datatype Outcome = Outcome(result: Result<ClassifyResult>, entries: map<Path, Node>)

  // ------------------------------------------------------------ paths

  /** `build_target_path`: the working directory, the upper-case extension, the
      compact date and the file's own name. */
  function ClassifiedTarget(cwd: Result<Path>, source: Path, info: MediaInfo, d: Date): Result<Path> {
    match cwd
    case Err(_) => Err("Failed to get current directory")
    case Ok(dir) =>
      var dateText := CompactDate(d);
      match FileName(source)
      case None => Err("Failed to get filename")
      case Some(name) => Ok(JoinStr(JoinStr(dir, info.extension), dateText) + [name])
  }

  /** `is_classified_file`: the parent is named by eight ASCII digits and the
      grandparent by upper-case letters and digits. */
  predicate IsClassifiedFile(path: Path) {
    match Parent(path)
    case None => false
    case Some(parent) =>
      match FileName(parent)
      case None => false
      case Some(dateDir) =>
        if |dateDir| == 8 && AllDigits(dateDir) then
          match Parent(parent)
          case None => false
          case Some(grandparent) =>
            match FileName(grandparent)
            case None => false
            case Some(extensionDir) => IsUpperAlnum(extensionDir)
        else false
  }

  /** The shape `is_classified_file` looks for, component by component. */
  lemma ClassifiedShape(path: Path)
    ensures IsClassifiedFile(path) <==>
      && |path| >= 3
      && |path[|path| - 2]| == 8 && AllDigits(path[|path| - 2])
      && IsUpperAlnum(path[|path| - 3])
  {
    if |path| >= 3 {
      var parent := path[..|path| - 1];
      assert parent[|parent| - 1] == path[|path| - 2];
      assert parent[..|parent| - 1][|parent| - 2] == path[|path| - 3];
      assert !IsUpperAlnum("..") by { assert ".."[0] == '.'; }
    } else if |path| == 2 {
      assert path[..1][..0] == [];
    }
  }

  /** With a four-digit year, the destination of a media file is
      `cwd/EXT/YYYYMMDD/name`, and that destination looks classified. */
  lemma TargetLayout(cwd: Path, source: Path, d: Date)
    requires GetMediaInfo(source).Some?
    requires ValidDate(d) && d.year <= 9999
    ensures FileName(source).Some?
    ensures var info := GetMediaInfo(source).value;
      && ClassifiedTarget(Ok(cwd), source, info, d) ==
           Ok(cwd + [info.extension, CompactDate(d), FileName(source).value])
      && IsClassifiedFile(ClassifiedTarget(Ok(cwd), source, info, d).value)
  {
    var info := GetMediaInfo(source).value;
    var ext, dateText := info.extension, CompactDate(d);
    CompactDateDigits(d);
    assert '/' !in ext && ext != "." by {
      assert ext[0] != '.';
      assert forall i :: 0 <= i < |ext| ==> ext[i] != '/';
    }
    assert '/' !in dateText && dateText != "." by {
      assert dateText[0] != '.';
      assert forall i :: 0 <= i < |dateText| ==> dateText[i] != '/';
    }
    SegmentsOfName(cwd, ext);
    SegmentsOfName(cwd + [ext], dateText);
    var target := cwd + [ext, dateText, FileName(source).value];
    assert target == cwd + [ext] + [dateText] + [FileName(source).value];
    ClassifiedShape(target);
  }

  /** `test_is_classified_file`. */
  lemma ClassifiedExamples(p1: Path, p2: Path, p3: Path)
    requires p1 == ["home", "user", "JPG", "20251118", "photo.jpg"]
    requires p2 == ["home", "user", "photos", "photo.jpg"]
    requires p3 == ["home", "user", "NEF", "20251115", "DSC_1234.NEF"]
    ensures IsClassifiedFile(p1) && !IsClassifiedFile(p2) && IsClassifiedFile(p3)
  {
    ClassifiedShape(p1);
    ClassifiedShape(p2);
    ClassifiedShape(p3);
    assert |p2[2]| != 8;
  }

  // ------------------------------------------------------------ moving

  /** The disk after `create_dir_all(target.parent())`, successful or not. */
  function WithTargetDirectory(entries: map<Path, Node>, target: Path): map<Path, Node> {
    if Parent(target).Some? && CanCreateDirAll(entries, Parent(target).value)
    then WithDirectories(entries, Parent(target).value)
    else entries
  }

  /** What `move_file` returns. */
  function MoveResult(entries: map<Path, Node>, source: Path, target: Path): Result<()> {
    if Parent(target).Some? && !CanCreateDirAll(entries, Parent(target).value) then
      Err("Failed to create target directory")
    else if !CanRename(WithTargetDirectory(entries, target), source, target) then
      Err("Failed to move file")
    else Ok(())
  }

  /** The disk `move_file` leaves: directories it created stay even if the rename fails. */
  function MovedEntries(entries: map<Path, Node>, source: Path, target: Path): map<Path, Node> {
    var dirs := WithTargetDirectory(entries, target);
    if MoveResult(entries, source, target).Ok? then AfterRename(dirs, source, target) else dirs
  }

  /** `move_file`: create the destination's directories, then rename. */
  method MoveFile(fs: FileSystem, source: Path, target: Path) returns (r: Result<()>)
    requires fs.Valid()
    modifies fs
    ensures fs.Valid()
    ensures r == MoveResult(old(fs.entries), source, target)
    ensures fs.entries == MovedEntries(old(fs.entries), source, target)
  {
    var parent := Parent(target);
    if parent.Some? {
      var created := fs.CreateDirAll(parent.value);
      if !created {
        return Err("Failed to create target directory");
      }
    }
    var moved := fs.Rename(source, target);
    if !moved {
      return Err("Failed to move file");
    }
    return Ok(());
  }

  /** A file moves to a free destination whenever no file stands where the
      destination's directories must go: afterwards the destination holds the file,
      the source is gone, the tree stays well formed and every other file is as it was. */
  lemma MoveMeaning(entries: map<Path, Node>, source: Path, target: Path)
    requires ValidTree(entries) && IsFile(entries, source)
    requires target !in entries && |target| > 0
    requires CanCreateDirAll(entries, target[..|target| - 1])
    ensures MoveResult(entries, source, target) == Ok(())
    ensures var e := MovedEntries(entries, source, target);
      && ValidTree(e)
      && target in e && e[target] == entries[source] && source !in e
      && (forall q | q != source && q != target :: IsFile(entries, q) <==> IsFile(e, q))
      && (forall q | q != source && q != target && IsFile(entries, q) :: e[q] == entries[q])
  {
    var parent := target[..|target| - 1];
    WithDirectoriesValid(entries, parent);
    var dirs := WithDirectories(entries, parent);
    assert parent == parent[..|parent|];
    assert target !in Prefixes(parent);
    assert CanRename(dirs, source, target);
    RenamedValid(dirs, source, target);
  }

  // ------------------------------------------------------------ classify_file

  /** `classify_file` as a function of the disk, the date provider's answer and the
      working directory. */
  function Classify(entries: map<Path, Node>, directoryLength: nat, source: Path,
                    date: Result<Date>, cwd: Result<Path>): Outcome
  {
    match GetMediaInfo(source)
    case None => Outcome(Ok(Failed(source, "Not a media file")), entries)
    case Some(info) =>
      match date
      case Err(e) => Outcome(Ok(Failed(source, "Failed to extract date: " + e)), entries)
      case Ok(d) =>
        match ClassifiedTarget(cwd, source, info, d)
        case Err(e) => Outcome(Err(e), entries)
        case Ok(target) =>
          if IsClassifiedFile(source) then Outcome(Ok(Skipped(source)), entries)
          else Placement(entries, directoryLength, source, target)
  }

  /** What `classify_file` does once the destination is known: resolve a conflict
      there, then move, skip or report the error. */
  function Placement(entries: map<Path, Node>, directoryLength: nat, source: Path, target: Path): Outcome {
    match Resolution(entries, directoryLength, source, target)
    case Err(e) => Outcome(Err(e), entries)
    case Ok(NoConflict(t)) =>
      var m := MoveResult(entries, source, t);
      Outcome(if m.Ok? then Ok(Success(source, t)) else Err(m.error), MovedEntries(entries, source, t))
    case Ok(Skip(_)) => Outcome(Ok(Skipped(source)), entries)
    case Ok(Rename(p)) =>
      var m := MoveResult(entries, source, p);
      Outcome(if m.Ok? then Ok(Renamed(source, p)) else Err(m.error), MovedEntries(entries, source, p))
  }

  /** `classify_file`. */
  method ClassifyFile(fs: FileSystem, source: Path, date: Result<Date>, cwd: Result<Path>)
    returns (r: Result<ClassifyResult>)
    requires fs.Valid()
    modifies fs
    ensures fs.Valid()
    ensures Outcome(r, fs.entries) == Classify(old(fs.entries), fs.directoryLength, source, date, cwd)
  {
    var mediaInfo := GetMediaInfo(source);
    if mediaInfo.None? {
      return Ok(Failed(source, "Not a media file"));
    }
    var info := mediaInfo.value;
    if date.Err? {
      return Ok(Failed(source, "Failed to extract date: " + date.error));
    }
    var target := ClassifiedTarget(cwd, source, info, date.value);
    if target.Err? {
      return Err(target.error);
    }
    if IsClassifiedFile(source) {
      return Ok(Skipped(source));
    }
    ghost var entries := fs.entries;
    assert Classify(entries, fs.directoryLength, source, date, cwd)
      == Placement(entries, fs.directoryLength, source, target.value);
    var resolution := ResolveConflict(fs, source, target.value);
    if resolution.Err? {
      return Err(resolution.error);
    }
    match resolution.value {
      case NoConflict(finalTarget) =>
        var moved := MoveFile(fs, source, finalTarget);
        if moved.Err? {
          return Err(moved.error);
        }
        return Ok(Success(source, finalTarget));
      case Skip(_) =>
        return Ok(Skipped(source));
      case Rename(newTarget) =>
        var moved := MoveFile(fs, source, newTarget);
        if moved.Err? {
          return Err(moved.error);
        }
        return Ok(Renamed(source, newTarget));
    }
  }

  // ------------------------------------------------------------ properties

  /** Whatever `move_file` does to a free destination: the tree stays well formed;
      on success the destination holds the source file, the source is gone and every
      other file is as it was; on failure every file is as it was. */
  lemma MovedEntriesKeepFiles(entries: map<Path, Node>, source: Path, target: Path)
    requires ValidTree(entries) && target !in entries
    ensures var e := MovedEntries(entries, source, target);
      && ValidTree(e)
      && (MoveResult(entries, source, target).Ok? ==>
            && IsFile(entries, source) && source != target
            && target in e && e[target] == entries[source] && source !in e
            && (forall q | q != source && q != target :: IsFile(entries, q) <==> IsFile(e, q))
            && (forall q | q != source && q != target && IsFile(entries, q) :: e[q] == entries[q]))
      && (MoveResult(entries, source, target).Err? ==>
            && (forall q :: IsFile(entries, q) <==> IsFile(e, q))
            && (forall q | IsFile(entries, q) :: e[q] == entries[q]))
  {
    var dirs := WithTargetDirectory(entries, target);
    if Parent(target).Some? && CanCreateDirAll(entries, Parent(target).value) {
      WithDirectoriesValid(entries, Parent(target).value);
    }
    if MoveResult(entries, source, target).Ok? {
      RenamedValid(dirs, source, target);
    }
  }

  /** `classify_file` never loses a file: a move takes the source to a destination
      that was free and leaves every other file as it was; every other outcome leaves
      every file as it was. */
  lemma ClassifyKeepsFiles(entries: map<Path, Node>, directoryLength: nat, source: Path,
                           date: Result<Date>, cwd: Result<Path>)
    requires ValidTree(entries)
    ensures var o := Classify(entries, directoryLength, source, date, cwd);
      && ValidTree(o.entries)
      && (o.result.Ok? && (o.result.value.Success? || o.result.value.Renamed?) ==>
            var to := o.result.value.to;
            && o.result.value.from == source
            && IsFile(entries, source) && to !in entries
            && to in o.entries && o.entries[to] == entries[source] && source !in o.entries
            && (forall q | q != source && q != to :: IsFile(entries, q) <==> IsFile(o.entries, q))
            && (forall q | q != source && q != to && IsFile(entries, q) :: o.entries[q] == entries[q]))
      && (!(o.result.Ok? && (o.result.value.Success? || o.result.value.Renamed?)) ==>
            && (forall q :: IsFile(entries, q) <==> IsFile(o.entries, q))
            && (forall q | IsFile(entries, q) :: o.entries[q] == entries[q]))
  {
    var info := GetMediaInfo(source);
    if info.Some? && date.Ok? {
      var target := ClassifiedTarget(cwd, source, info.value, date.value);
      if target.Ok? && !IsClassifiedFile(source) {
        ResolutionMeaning(entries, directoryLength, source, target.value);
        var res := Resolution(entries, directoryLength, source, target.value);
        if res.Ok? && res.value.NoConflict? {
          MovedEntriesKeepFiles(entries, source, res.value.target);
        } else if res.Ok? && res.value.Rename? {
          MovedEntriesKeepFiles(entries, source, res.value.newTarget);
        }
      }
    }
  }

  /** A media file that is not yet classified moves to `cwd/EXT/YYYYMMDD/name` when
      that place is free and no file blocks its directories. */
  lemma ClassifyMovesWhenFree(entries: map<Path, Node>, directoryLength: nat, source: Path,
                              d: Date, cwd: Path)
    requires ValidTree(entries) && IsFile(entries, source)
    requires GetMediaInfo(source).Some? && !IsClassifiedFile(source)
    requires ValidDate(d) && d.year <= 9999
    requires var target := cwd + [GetMediaInfo(source).value.extension, CompactDate(d)];
      target + [FileName(source).value] !in entries && CanCreateDirAll(entries, target)
    ensures FileName(source).Some?
    ensures var target := cwd + [GetMediaInfo(source).value.extension, CompactDate(d), FileName(source).value];
      Classify(entries, directoryLength, source, Ok(d), Ok(cwd)).result == Ok(Success(source, target))
  {
    TargetLayout(cwd, source, d);
    var info := GetMediaInfo(source).value;
    var target := cwd + [info.extension, CompactDate(d), FileName(source).value];
    assert target[..|target| - 1] == cwd + [info.extension, CompactDate(d)];
    assert target == cwd + [info.extension, CompactDate(d)] + [FileName(source).value];
    MoveMeaning(entries, source, target);
  }

  /** Two paths with the same file name have the same media information. */
  lemma SameNameSameMedia(a: Path, b: Path)
    requires FileName(a) == FileName(b)
    ensures GetMediaInfo(a) == GetMediaInfo(b)
  {
  }

  /** Classifying a file where a successful run put it leaves it there: with any
      date and working directory the second run skips it and changes nothing. */
  lemma ClassifyAgainSkips(entries: map<Path, Node>, directoryLength: nat, source: Path,
                           d: Date, cwd: Path, date2: Result<Date>, cwd2: Result<Path>)
    requires ValidDate(d) && d.year <= 9999
    requires date2.Ok? && cwd2.Ok?
    requires Classify(entries, directoryLength, source, Ok(d), Ok(cwd)).result.Ok?
    requires Classify(entries, directoryLength, source, Ok(d), Ok(cwd)).result.value.Success?
    ensures var o := Classify(entries, directoryLength, source, Ok(d), Ok(cwd));
      Classify(o.entries, directoryLength, o.result.value.to, date2, cwd2) ==
        Outcome(Ok(Skipped(o.result.value.to)), o.entries)
  {
    var o := Classify(entries, directoryLength, source, Ok(d), Ok(cwd));
    SuccessIsClassified(entries, directoryLength, source, d, cwd);
    SameNameSameMedia(o.result.value.to, source);
    ClassifiedSkipped(o.entries, directoryLength, o.result.value.to, date2, cwd2);
  }

  /** A successful run puts the file in the classified layout under its own name. */
  lemma SuccessIsClassified(entries: map<Path, Node>, directoryLength: nat, source: Path, d: Date, cwd: Path)
    requires ValidDate(d) && d.year <= 9999
    requires Classify(entries, directoryLength, source, Ok(d), Ok(cwd)).result.Ok?
    requires Classify(entries, directoryLength, source, Ok(d), Ok(cwd)).result.value.Success?
    ensures var to := Classify(entries, directoryLength, source, Ok(d), Ok(cwd)).result.value.to;
      IsClassifiedFile(to) && FileName(to) == FileName(source)
  {
    var o := Classify(entries, directoryLength, source, Ok(d), Ok(cwd));
    TargetLayout(cwd, source, d);
    var info := GetMediaInfo(source).value;
    var target := cwd + [info.extension, CompactDate(d), FileName(source).value];
    ResolutionMeaning(entries, directoryLength, source, target);
    assert o.result.value.to == target;
  }

  /** A media file already in the classified layout is skipped whatever the date
      and working directory, and the disk is left as it was. */
  lemma ClassifiedSkipped(entries: map<Path, Node>, directoryLength: nat, source: Path,
                          date: Result<Date>, cwd: Result<Path>)
    requires GetMediaInfo(source).Some? && IsClassifiedFile(source) && FileName(source).Some?
    requires date.Ok? && cwd.Ok?
    ensures Classify(entries, directoryLength, source, date, cwd) == Outcome(Ok(Skipped(source)), entries)
  {
  }
}
