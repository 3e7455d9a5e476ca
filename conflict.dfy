/** `src/conflict.rs`: what to do when the destination of a move is taken. An
    existing destination of the same byte size is taken to be the same file;
    otherwise the file gets the first free numbered name beside it. */
module Conflicts {
  import opened Wrappers
  import opened Text
  import opened Paths
  import opened FileSystems

  datatype ConflictResolution =
    | NoConflict(target: Path)
    | Skip(reason: string)
    | Rename(newTarget: Path)

  /** The exclusive upper end of the suffixes `generate_unique_name` tries. */
  const Attempts: nat := 1000

  /** `stem_i.ext`, or `stem_i` when there is no extension. */
  function NumberedName(stem: string, extension: string, i: nat): string {
    if extension == "" then stem + "_" + NatToString(i)
    else stem + "_" + NatToString(i) + "." + extension
  }

  /** The first suffix in `from..1000` whose name is free in `dir`. */
  function FirstFree(entries: map<Path, Node>, dir: Path, stem: string, extension: string, from: nat)
    : (r: Option<nat>)
    ensures r.Some? ==>
      && from <= r.value < Attempts
      && dir + [NumberedName(stem, extension, r.value)] !in entries
      && forall j :: from <= j < r.value ==> dir + [NumberedName(stem, extension, j)] in entries
    ensures r.None? ==> forall j :: from <= j < Attempts ==> dir + [NumberedName(stem, extension, j)] in entries
    decreases Attempts - from
  {
    if from >= Attempts then None
    else if dir + [NumberedName(stem, extension, from)] !in entries then Some(from)
    else FirstFree(entries, dir, stem, extension, from + 1)
  }

  const NoParent := "Failed to get parent directory"
  const NoStem := "Failed to get file stem"
  const Exhausted := "Failed to generate unique name after 1000 attempts"

  /** `generate_unique_name`: the target's directory, joined with the numbered name
      of the smallest free suffix from 1 to 999. */
  function UniqueName(entries: map<Path, Node>, target: Path): (r: Result<Path>)
    ensures Parent(target).None? ==> r == Err(NoParent)
    ensures Parent(target).Some? && FileStem(target).None? ==> r == Err(NoStem)
    ensures r.Ok? ==>
      && Parent(target).Some? && FileStem(target).Some?
      && var ext := if Extension(target).Some? then Extension(target).value else "";
      && exists i :: 1 <= i < Attempts
          && r.value == Parent(target).value + [NumberedName(FileStem(target).value, ext, i)]
          && (forall j :: 1 <= j < i ==>
                Parent(target).value + [NumberedName(FileStem(target).value, ext, j)] in entries)
    ensures r.Ok? ==> r.value !in entries && Parent(r.value) == Parent(target)
    ensures r.Err? && Parent(target).Some? && FileStem(target).Some? ==>
      && r.error == Exhausted
      && var ext := if Extension(target).Some? then Extension(target).value else "";
      && forall j :: 1 <= j < Attempts ==>
           Parent(target).value + [NumberedName(FileStem(target).value, ext, j)] in entries
  {
    match Parent(target)
    case None => Err(NoParent)
    case Some(dir) =>
      match FileStem(target)
      case None => Err(NoStem)
      case Some(stem) =>
        var ext := if Extension(target).Some? then Extension(target).value else "";
        match FirstFree(entries, dir, stem, ext, 1)
        case None => Err(Exhausted)
        case Some(i) =>
          var p := dir + [NumberedName(stem, ext, i)];
          assert Parent(p) == Some(dir) by { assert p[..|p| - 1] == dir; }
          Ok(p)
  }

  /** `generate_unique_name`: probe `stem_1.ext`, `stem_2.ext`, ... and stop at the
      first that does not exist. */
  method GenerateUniqueName(fs: FileSystem, target: Path) returns (r: Result<Path>)
    ensures r == UniqueName(fs.entries, target)
  {
    var parent := Parent(target);
    if parent.None? {
      return Err(NoParent);
    }
    var stem := FileStem(target);
    if stem.None? {
      return Err(NoStem);
    }
    var extension := if Extension(target).Some? then Extension(target).value else "";
    var i := 1;
    while i < Attempts
      invariant 1 <= i <= Attempts
      invariant FirstFree(fs.entries, parent.value, stem.value, extension, i)
        == FirstFree(fs.entries, parent.value, stem.value, extension, 1)
    {
      var newPath := parent.value + [NumberedName(stem.value, extension, i)];
      if !fs.Exists(newPath) {
        UniqueNameOfFirstFree(fs.entries, target, parent.value, stem.value, extension, Some(i));
        return Ok(newPath);
      }
      i := i + 1;
    }
    UniqueNameOfFirstFree(fs.entries, target, parent.value, stem.value, extension, None);
    return Err(Exhausted);
  }

  /** `UniqueName` is read off the first free suffix from 1. */
  lemma UniqueNameOfFirstFree(entries: map<Path, Node>, target: Path, dir: Path, stem: string,
                              extension: string, found: Option<nat>)
    requires Parent(target) == Some(dir) && FileStem(target) == Some(stem)
    requires extension == if Extension(target).Some? then Extension(target).value else ""
    requires FirstFree(entries, dir, stem, extension, 1) == found
    ensures found.Some? ==> UniqueName(entries, target) == Ok(dir + [NumberedName(stem, extension, found.value)])
    ensures found.None? ==> UniqueName(entries, target) == Err(Exhausted)
  {
  }

  /** The reason a same-size conflict is skipped. The source formats the path with
      `{:?}`, which escapes quotes, backslashes and control characters; here it is
      quoted as is. Only log text depends on it. */
  function SkipReason(size: nat, target: Path): string {
    "File already exists with same size (" + NatToString(size) + " bytes): \"" + PathText(target) + "\""
  }

  /** `resolve_conflict` as a function of the disk it reads. */
  function Resolution(entries: map<Path, Node>, directoryLength: nat, source: Path, target: Path)
    : Result<ConflictResolution>
  {
    if target !in entries then Ok(NoConflict(target))
    else match MetadataLength(entries, directoryLength, source)
      case None => Err("Failed to get source file metadata")
      case Some(sourceSize) =>
        match MetadataLength(entries, directoryLength, target)
        case None => Err("Failed to get target file metadata")
        case Some(targetSize) =>
          if sourceSize == targetSize then Ok(Skip(SkipReason(sourceSize, target)))
          else match UniqueName(entries, target)
            case Ok(p) => Ok(Rename(p))
            case Err(e) => Err(e)
  }

  /** `resolve_conflict`: it reads the disk and changes nothing. */
  method ResolveConflict(fs: FileSystem, source: Path, target: Path) returns (r: Result<ConflictResolution>)
    ensures r == Resolution(fs.entries, fs.directoryLength, source, target)
  {
    if !fs.Exists(target) {
      return Ok(NoConflict(target));
    }
    var sourceSize := fs.Length(source);
    if sourceSize.None? {
      return Err("Failed to get source file metadata");
    }
    var targetSize := fs.Length(target);
    if targetSize.None? {
      return Err("Failed to get target file metadata");
    }
    if sourceSize.value == targetSize.value {
      return Ok(Skip(SkipReason(sourceSize.value, target)));
    }
    var newTarget := GenerateUniqueName(fs, target);
    if newTarget.Err? {
      return Err(newTarget.error);
    }
    return Ok(Rename(newTarget.value));
  }

  // ------------------------------------------------------------ properties

  /** The three outcomes: an absent target is kept as it is; an existing one of the
      source's size is skipped; one of another size gets a fresh name beside it that
      is not the target itself; a missing source is an error; and running out of
      suffixes is an error, never a skip. */
  lemma ResolutionMeaning(entries: map<Path, Node>, directoryLength: nat, source: Path, target: Path)
    ensures var r := Resolution(entries, directoryLength, source, target);
      && (r == Ok(NoConflict(target)) <==> target !in entries)
      && (r.Ok? && r.value.NoConflict? ==> r.value.target == target)
      && (r.Ok? && r.value.Skip? <==>
            target in entries && source in entries &&
            MetadataLength(entries, directoryLength, source) == MetadataLength(entries, directoryLength, target))
      && (r.Ok? && r.value.Rename? ==>
            && target in entries && source in entries
            && MetadataLength(entries, directoryLength, source) != MetadataLength(entries, directoryLength, target)
            && r.value.newTarget !in entries && r.value.newTarget != target
            && Parent(r.value.newTarget) == Parent(target))
      && (target in entries && source !in entries ==> r == Err("Failed to get source file metadata"))
  {
  }

  /** `test_generate_unique_name`: beside an existing "test.jpg" the first free name is
      "test_1.jpg"; once that exists too, "test_2.jpg". */
  lemma UniqueNameProgression(entries: map<Path, Node>, dir: Path, name: string)
    requires name == "test.jpg"
    requires dir + [name] in entries
    requires dir + ["test_1.jpg"] !in entries
    ensures UniqueName(entries, dir + [name]) == Ok(dir + ["test_1.jpg"])
    ensures dir + ["test_2.jpg"] !in entries ==>
      UniqueName(entries[dir + ["test_1.jpg"] := File(4)], dir + [name]) == Ok(dir + ["test_2.jpg"])
  {
    var target := dir + [name];
    assert target[..|target| - 1] == dir;
    StemAndExtension(name);
    assert NumberedName("test", "jpg", 1) == "test_1.jpg" by { assert NatToString(1) == "1"; }
    assert NumberedName("test", "jpg", 2) == "test_2.jpg" by { assert NatToString(2) == "2"; }
  }

  lemma StemAndExtension(name: string)
    requires name == "test.jpg"
    ensures SplitName(name) == ("test", Some("jpg"))
  {
    assert name[..5][4] == '.' && LastDot(name[..5]) == Some(4);
    assert name[..6][..5] == name[..5] && name[..6][5] != '.';
    assert name[..7][..6] == name[..6] && name[..7][6] != '.';
    assert name[7] != '.';
    assert LastDot(name) == Some(4);
    assert name[..4] == "test" && name[5..] == "jpg";
  }
}
