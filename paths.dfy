/** `std::path::Path` as a sequence of components. Paths are caller-resolved and
    normalised: no component is empty or ".", as `Path::components` yields them. */
module Paths {
  import opened Wrappers
  import opened Text

  type Path = seq<string>

  /** `Path::file_name`: the last component, none for the root or a trailing "..". */
  function FileName(p: Path): Option<string> {
    if |p| == 0 || p[|p| - 1] == ".." then None else Some(p[|p| - 1])
  }

  /** `Path::parent`: none only for the root. */
  function Parent(p: Path): Option<Path> {
    if |p| == 0 then None else Some(p[..|p| - 1])
  }

  /** Index of the last '.' in `s`, if any. */
  function LastDot(s: string): (r: Option<nat>)
    ensures r.Some? ==> r.value < |s| && s[r.value] == '.'
    ensures r.Some? ==> forall j :: r.value < j < |s| ==> s[j] != '.'
    ensures r.None? ==> forall j :: 0 <= j < |s| ==> s[j] != '.'
    decreases |s|
  {
    if |s| == 0 then None
    else if s[|s| - 1] == '.' then Some(|s| - 1)
    else LastDot(s[..|s| - 1])
  }

  /** The split Rust's `Path::file_stem` and `Path::extension` share: the name is cut
      at its last '.', unless that dot is the first character ("." files have no
      extension) or the name is "..". */
  function SplitName(name: string): (string, Option<string>) {
    if name == ".." then (name, None)
    else match LastDot(name)
      case None => (name, None)
      case Some(i) => if i == 0 then (name, None) else (name[..i], Some(name[i + 1..]))
  }

  function Extension(p: Path): Option<string> {
    match FileName(p)
    case None => None
    case Some(n) => SplitName(n).1
  }

  function FileStem(p: Path): Option<string> {
    match FileName(p)
    case None => None
    case Some(n) => Some(SplitName(n).0)
  }

  /** The components a '/'-separated string contributes to a path: empty and "."
      segments vanish, as in `Path::components`. */
  function Segments(t: string): Path
    decreases |t|
  {
    if |t| == 0 then []
    else
      var cut := TakeWhile(t, c => c != '/');
      var rest := if |cut| < |t| then t[|cut| + 1..] else [];
      (if cut == "" || cut == "." then [] else [cut]) + Segments(rest)
  }

  /** `base.join(t)` for a template string: an absolute `t` replaces `base`. */
  function JoinStr(base: Path, t: string): Path {
    if |t| > 0 && t[0] == '/' then Segments(t) else base + Segments(t)
  }

  /** The text of an absolute path: "/" for the root, else "/" before each component. */
  function PathText(p: Path): string {
    if |p| == 0 then "/" else ComponentsText(p)
  }

  function ComponentsText(p: Path): string {
    if |p| == 0 then "" else ComponentsText(p[..|p| - 1]) + "/" + p[|p| - 1]
  }

  /** A name with no '/' that is neither empty nor "." joins as one component. */
  lemma SegmentsOfName(base: Path, s: string)
    requires |s| > 0 && '/' !in s && s != "."
    ensures Segments(s) == [s]
    ensures JoinStr(base, s) == base + [s]
  {
    var cut := TakeWhile(s, c => c != '/');
    assert |cut| == |s|;
    assert cut == s;
  }
}
