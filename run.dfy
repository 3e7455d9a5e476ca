/** The per-run bookkeeping of `src/main.rs`: the four-counter `Statistics`, the
    loop that records one outcome per media file, and the scan's rule that skips
    directories named like a media extension. */
module Run {
  import opened Wrappers
  import opened Text
  import opened Paths
  import opened MediaTypes
  import opened Filter
  import opened Classifier

  /** Which counter an outcome of the loop raises: an error counts as a failure. */
  datatype Kind = SuccessKind | SkippedKind | RenamedKind | FailedKind

  function KindOf(outcome: Result<ClassifyResult>): Kind {
    match outcome
    case Err(_) => FailedKind
    case Ok(Success(_, _)) => SuccessKind
    case Ok(Skipped(_)) => SkippedKind
    case Ok(Renamed(_, _)) => RenamedKind
    case Ok(Failed(_, _)) => FailedKind
  }

  /** How many of the outcomes are of kind `k`. */
  function Count(outcomes: seq<Result<ClassifyResult>>, k: Kind): nat
    decreases |outcomes|
  {
    if |outcomes| == 0 then 0
    else Count(outcomes[..|outcomes| - 1], k) + (if KindOf(outcomes[|outcomes| - 1]) == k then 1 else 0)
  }

  /** Every outcome is of exactly one kind, so the four counts add up to the number
      of outcomes. */
  lemma {:induction false} CountsPartition(outcomes: seq<Result<ClassifyResult>>)
    ensures Count(outcomes, SuccessKind) + Count(outcomes, SkippedKind)
          + Count(outcomes, RenamedKind) + Count(outcomes, FailedKind) == |outcomes|
    decreases |outcomes|
  {
    if |outcomes| > 0 {
      CountsPartition(outcomes[..|outcomes| - 1]);
    }
  }

  /** `Statistics`: counters of moved, skipped, renamed and failed files. */
  class Statistics {
    var success: nat
    var skipped: nat
    var renamed: nat
    var failed: nat

    /** `Statistics::new`: every counter at zero. */
    constructor()
      ensures success == 0 && skipped == 0 && renamed == 0 && failed == 0
      ensures Total() == 0
    {
      success, skipped, renamed, failed := 0, 0, 0, 0;
    }

    /** `total`. */
    function Total(): nat
      reads this
    {
      success + skipped + renamed + failed
    }

    /** `record`: raise exactly the counter of the result's variant. */
    method Record(result: ClassifyResult)
      modifies this
      ensures success == old(success) + (if result.Success? then 1 else 0)
      ensures skipped == old(skipped) + (if result.Skipped? then 1 else 0)
      ensures renamed == old(renamed) + (if result.Renamed? then 1 else 0)
      ensures failed == old(failed) + (if result.Failed? then 1 else 0)
      ensures Total() == old(Total()) + 1
    {
      match result {
        case Success(_, _) => success := success + 1;
        case Skipped(_) => skipped := skipped + 1;
        case Renamed(_, _) => renamed := renamed + 1;
        case Failed(_, _) => failed := failed + 1;
      }
    }
  }

  /** The processing loop: one outcome per media file, recorded when the file was
      handled and counted as a failure when handling it was an error. Each counter
      ends as the number of outcomes of its kind, so the total is the number of files. */
  method Tally(outcomes: seq<Result<ClassifyResult>>) returns (stats: Statistics)
    ensures fresh(stats)
    ensures stats.success == Count(outcomes, SuccessKind)
    ensures stats.skipped == Count(outcomes, SkippedKind)
    ensures stats.renamed == Count(outcomes, RenamedKind)
    ensures stats.failed == Count(outcomes, FailedKind)
    ensures stats.Total() == |outcomes|
  {
    stats := new Statistics();
    var index := 0;
    while index < |outcomes|
      invariant 0 <= index <= |outcomes|
      invariant stats.success == Count(outcomes[..index], SuccessKind)
      invariant stats.skipped == Count(outcomes[..index], SkippedKind)
      invariant stats.renamed == Count(outcomes[..index], RenamedKind)
      invariant stats.failed == Count(outcomes[..index], FailedKind)
    {
      assert outcomes[..index + 1][..index] == outcomes[..index];
      match outcomes[index] {
        case Ok(result) => stats.Record(result);
        case Err(_) => stats.failed := stats.failed + 1;
      }
      index := index + 1;
    }
    assert outcomes[..index] == outcomes;
    CountsPartition(outcomes);
  }

  // ------------------------------------------------------------ scanning

  /** `is_media_name_dir`: a directory whose lower-cased name is a media extension. */
  predicate IsMediaNameDir(e: DirEntry) {
    if !e.isDir then false else IsMediaExtension(ToLower(e.name))
  }

  /** The top-level directories the classifier creates, named by an upper-case
      extension, are exactly the kind the scan does not enter. */
  lemma ExtensionDirectoriesSkipped(source: Path, dir: Path)
    requires GetMediaInfo(source).Some?
    ensures IsMediaNameDir(DirEntry(GetMediaInfo(source).value.extension, dir, true))
  {
    var info := GetMediaInfo(source).value;
    assert ToLower(info.extension) in Table(info.mediaType);
  }

  /** The name test ignores ASCII case; a file is never a media-named directory. */
  lemma MediaNameDirExamples(dir: Path)
    ensures IsMediaNameDir(DirEntry("JPG", dir, true)) && IsMediaNameDir(DirEntry("mp4", dir, true))
    ensures !IsMediaNameDir(DirEntry("jpg", dir, false))
    ensures !IsMediaNameDir(DirEntry("Photos", dir, true))
  {
    assert ToLower("JPG") == "jpg";
    assert ToLower("mp4") == "mp4";
    assert ToLower("Photos") == "photos";
  }
}
