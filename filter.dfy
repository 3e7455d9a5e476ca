/** The entry filter of `src/filter.rs`: which files and directories a scan skips.
    A pattern understands `*` only in a few positions; `Glob` is the ordinary
    wildcard language, against which those positions are checked. */
module Filter {
  import opened Wrappers
  import opened Text
  import opened Paths
  import opened Configuration

  /** A `walkdir::DirEntry`: the name walkdir reports, the full path and whether it
      is a directory. */
  datatype DirEntry = DirEntry(name: string, path: Path, isDir: bool)

  // ------------------------------------------------------------ patterns

  predicate StarFree(w: string) {
    forall i :: 0 <= i < |w| ==> w[i] != '*'
  }

  /** `match_wildcard`: "*" matches everything; a pattern without `*` is compared
      ignoring ASCII case; `*mid*` (longer than two), `*suffix` and `prefix*` compare
      lower-cased text; any other placement of `*` matches nothing. */
  predicate MatchWildcard(pattern: string, text: string) {
    if pattern == "*" then true
    else if '*' !in pattern then EqIgnoreAsciiCase(pattern, text)
    else if StartsWith(pattern, "*") && EndsWith(pattern, "*") && |pattern| > 2 then
      Contains(ToLower(text), ToLower(pattern[1..|pattern| - 1]))
    else if StartsWith(pattern, "*") then
      EndsWith(ToLower(text), ToLower(pattern[1..]))
    else if EndsWith(pattern, "*") then
      StartsWith(ToLower(text), ToLower(pattern[..|pattern| - 1]))
    else false
  }

  /** The reference wildcard language: `*` stands for any run of characters,
      anywhere in the pattern; every other character stands for itself. */
  predicate Glob(p: string, t: string)
    decreases |p| + |t|
  {
    if |p| == 0 then |t| == 0
    else if p[0] == '*' then Glob(p[1..], t) || (|t| > 0 && Glob(p, t[1..]))
    else |t| > 0 && p[0] == t[0] && Glob(p[1..], t[1..])
  }

  /** `*` only as the first or the last character. */
  predicate StarsAtEnds(p: string) {
    forall i :: 0 < i < |p| - 1 ==> p[i] != '*'
  }

  /** `matches_exclude_pattern`: some pattern of the list matches, tried in order. */
  function MatchesExcludePattern(patterns: seq<string>, name: string): (r: bool)
    ensures r <==> exists i :: 0 <= i < |patterns| && MatchWildcard(patterns[i], name)
  {
    if |patterns| == 0 then false
    else if MatchWildcard(patterns[0], name) then true
    else
      var rest := MatchesExcludePattern(patterns[1..], name);
      assert forall i :: 1 <= i < |patterns| ==> patterns[i] == patterns[1..][i - 1];
      rest
  }

  /** `excluded.eq_ignore_ascii_case(name)` for some listed directory. */
  function ListedDirectory(directories: seq<string>, name: string): (r: bool)
    ensures r <==> exists i :: 0 <= i < |directories| && EqIgnoreAsciiCase(directories[i], name)
  {
    if |directories| == 0 then false
    else if EqIgnoreAsciiCase(directories[0], name) then true
    else
      var rest := ListedDirectory(directories[1..], name);
      assert forall i :: 1 <= i < |directories| ==> directories[i] == directories[1..][i - 1];
      rest
  }

  // ------------------------------------------------------------ entries

  predicate IsHiddenName(name: string) { StartsWith(name, ".") }

  /** `should_exclude_file`: a path without a file name is kept. */
  predicate ShouldExcludeFile(c: ExcludeConfig, path: Path) {
    match FileName(path)
    case None => false
    case Some(name) =>
      if c.hiddenFiles && IsHiddenName(name) then true
      else MatchesExcludePattern(c.patterns, name)
  }

  /** `should_exclude_dir`: never true of a file. */
  predicate ShouldExcludeDir(c: ExcludeConfig, e: DirEntry) {
    if !e.isDir then false
    else if c.hiddenFiles && IsHiddenName(e.name) then true
    else ListedDirectory(c.directories, e.name)
  }

  /** `should_exclude_entry`: directories by name, everything else by path. */
  predicate ShouldExcludeEntry(c: ExcludeConfig, e: DirEntry) {
    if e.isDir then ShouldExcludeDir(c, e) else ShouldExcludeFile(c, e.path)
  }

  // ------------------------------------------------------------ the glob reference

  /** A star-free pattern matches itself and nothing else. */
  lemma {:induction false} GlobLiteral(w: string, t: string)
    requires StarFree(w)
    ensures Glob(w, t) <==> t == w
    decreases |w|
  {
    if |w| > 0 && |t| > 0 {
      GlobLiteral(w[1..], t[1..]);
      if t[1..] == w[1..] && t[0] == w[0] {
        assert t == [t[0]] + t[1..] && w == [w[0]] + w[1..];
      }
    }
  }

  /** "*" matches everything. */
  lemma {:induction false} GlobStar(t: string)
    ensures Glob("*", t)
    decreases |t|
  {
    assert "*"[1..] == "";
    if |t| > 0 {
      GlobStar(t[1..]);
    }
  }

  /** `w*` matches exactly the texts that start with `w`. */
  lemma {:induction false} GlobPrefix(w: string, t: string)
    requires StarFree(w)
    ensures Glob(w + "*", t) <==> StartsWith(t, w)
    decreases |w|
  {
    if |w| == 0 {
      assert w + "*" == "*";
      GlobStar(t);
    } else {
      assert (w + "*")[0] == w[0] && (w + "*")[1..] == w[1..] + "*";
      if |t| > 0 {
        GlobPrefix(w[1..], t[1..]);
        if StartsWith(t[1..], w[1..]) && t[0] == w[0] {
          assert t[..|w|] == [t[0]] + t[1..][..|w| - 1];
          assert w == [w[0]] + w[1..];
        }
        if StartsWith(t, w) {
          assert t[1..][..|w| - 1] == t[..|w|][1..];
        }
      }
    }
  }

  /** A text ends with `w` when it is `w` or its tail ends with `w`. */
  lemma EndsWithStep(t: string, w: string)
    ensures EndsWith(t, w) <==> t == w || (|t| > 0 && EndsWith(t[1..], w))
  {
    if |t| > 0 && |w| <= |t| - 1 {
      assert t[1..][|t| - 1 - |w|..] == t[|t| - |w|..];
    }
  }

  /** `*w` matches exactly the texts that end with `w`. */
  lemma {:induction false} GlobSuffix(w: string, t: string)
    requires StarFree(w)
    ensures Glob("*" + w, t) <==> EndsWith(t, w)
    decreases |t|
  {
    assert ("*" + w)[0] == '*' && ("*" + w)[1..] == w;
    GlobLiteral(w, t);
    EndsWithStep(t, w);
    if |t| > 0 {
      GlobSuffix(w, t[1..]);
    }
  }

  /** `*w*` matches exactly the texts that contain `w`. */
  lemma {:induction false} GlobInfix(w: string, t: string)
    requires StarFree(w)
    ensures Glob("*" + w + "*", t) <==> Contains(t, w)
    decreases |t|
  {
    var p := "*" + w + "*";
    assert p[0] == '*' && p[1..] == w + "*";
    GlobPrefix(w, t);
    if |t| > 0 {
      GlobInfix(w, t[1..]);
    }
  }

  lemma LowerKeepsStars(p: string)
    ensures |ToLower(p)| == |p|
    ensures forall i :: 0 <= i < |p| ==> (ToLower(p)[i] == '*' <==> p[i] == '*')
  {
  }

  /** Where every `*` is first or last and the pattern is not "**", `match_wildcard`
      is the reference wildcard language, ignoring ASCII case. */
  lemma MatchWildcardIsGlob(pattern: string, text: string)
    requires StarsAtEnds(pattern) && pattern != "**"
    ensures MatchWildcard(pattern, text) <==> Glob(ToLower(pattern), ToLower(text))
  {
    var n := |pattern|;
    if pattern == "*" {
      LowerKeepsStars(pattern);
      assert ToLower(pattern) == "*";
      GlobStar(ToLower(text));
    } else if '*' !in pattern {
      LowerKeepsStars(pattern);
      GlobLiteral(ToLower(pattern), ToLower(text));
    } else if StartsWith(pattern, "*") && EndsWith(pattern, "*") && n > 2 {
      InfixIsGlob(pattern, text);
    } else if StartsWith(pattern, "*") {
      SuffixIsGlob(pattern, text);
    } else if EndsWith(pattern, "*") {
      PrefixIsGlob(pattern, text);
    } else {
      assert false;
    }
  }

  lemma InfixIsGlob(pattern: string, text: string)
    requires StarsAtEnds(pattern) && |pattern| > 2
    requires StartsWith(pattern, "*") && EndsWith(pattern, "*")
    ensures MatchWildcard(pattern, text) <==> Glob(ToLower(pattern), ToLower(text))
  {
    var n := |pattern|;
    LowerKeepsStars(pattern);
    var mid := pattern[1..n - 1];
    assert ToLower(pattern) == "*" + ToLower(mid) + "*";
    GlobInfix(ToLower(mid), ToLower(text));
  }

  lemma SuffixIsGlob(pattern: string, text: string)
    requires StarsAtEnds(pattern) && pattern != "*" && pattern != "**"
    requires StartsWith(pattern, "*") && !(EndsWith(pattern, "*") && |pattern| > 2)
    ensures MatchWildcard(pattern, text) <==> Glob(ToLower(pattern), ToLower(text))
  {
    var n := |pattern|;
    LowerKeepsStars(pattern);
    assert pattern[n - 1] != '*';
    assert ToLower(pattern) == "*" + ToLower(pattern[1..]);
    GlobSuffix(ToLower(pattern[1..]), ToLower(text));
  }

  lemma PrefixIsGlob(pattern: string, text: string)
    requires StarsAtEnds(pattern) && '*' in pattern && pattern != "*"
    requires !StartsWith(pattern, "*") && EndsWith(pattern, "*")
    ensures MatchWildcard(pattern, text) <==> Glob(ToLower(pattern), ToLower(text))
  {
    var n := |pattern|;
    LowerKeepsStars(pattern);
    assert pattern[0] != '*';
    assert ToLower(pattern) == ToLower(pattern[..n - 1]) + "*";
    GlobPrefix(ToLower(pattern[..n - 1]), ToLower(text));
  }

  /** A pattern whose stars are all interior matches no name at all. */
  lemma InteriorStarMatchesNothing(pattern: string, text: string)
    requires '*' in pattern
    requires pattern[0] != '*' && pattern[|pattern| - 1] != '*'
    ensures !MatchWildcard(pattern, text)
  {
  }

  /** "**" is a `*suffix` pattern with suffix "*": only names ending in a literal
      star match, where the reference language would match every name. */
  lemma DoubleStarIsLiteralSuffix(text: string)
    ensures MatchWildcard("**", text) <==> EndsWith(ToLower(text), "*")
    ensures Glob("**", text)
  {
    assert "**"[1..] == "*";
    assert ToLower("*") == "*";
    assert "**"[1..] == "*";
    GlobStar(text);
  }

  /** With patterns of the supported shapes, a file is excluded exactly when it is
      hidden and hidden files are excluded, or its name is in the reference
      language of some pattern. */
  lemma ExcludeFileMeaning(c: ExcludeConfig, path: Path)
    requires forall i :: 0 <= i < |c.patterns| ==> StarsAtEnds(c.patterns[i]) && c.patterns[i] != "**"
    ensures ShouldExcludeFile(c, path) <==>
      FileName(path).Some? &&
      ((c.hiddenFiles && IsHiddenName(FileName(path).value)) ||
       exists i :: 0 <= i < |c.patterns| && Glob(ToLower(c.patterns[i]), ToLower(FileName(path).value)))
  {
    if FileName(path).Some? {
      var name := FileName(path).value;
      forall i | 0 <= i < |c.patterns|
        ensures MatchWildcard(c.patterns[i], name) <==> Glob(ToLower(c.patterns[i]), ToLower(name))
      {
        MatchWildcardIsGlob(c.patterns[i], name);
      }
    }
  }

  /** A directory is excluded exactly when it is hidden and hidden entries are
      excluded, or a listed name equals it ignoring ASCII case; a file is excluded
      only by its own name. */
  lemma ExcludeEntryMeaning(c: ExcludeConfig, e: DirEntry)
    ensures e.isDir ==>
      (ShouldExcludeEntry(c, e) <==>
        (c.hiddenFiles && IsHiddenName(e.name)) ||
        exists i :: 0 <= i < |c.directories| && ToLower(c.directories[i]) == ToLower(e.name))
    ensures !e.isDir ==>
      (ShouldExcludeEntry(c, e) <==>
        FileName(e.path).Some? &&
        ((c.hiddenFiles && IsHiddenName(FileName(e.path).value)) ||
         exists i :: 0 <= i < |c.patterns| && MatchWildcard(c.patterns[i], FileName(e.path).value)))
    ensures !ShouldExcludeDir(c, e.(isDir := false))
  {
  }

  /** The directory test sees a name only up to ASCII case: two spellings that
      lower-case alike are excluded alike. */
  lemma ExcludeDirIgnoresCase(c: ExcludeConfig, e: DirEntry, other: string)
    requires ToLower(other) == ToLower(e.name)
    ensures ShouldExcludeDir(c, e) <==> ShouldExcludeDir(c, e.(name := other))
  {
    assert |other| == |e.name|;
    if |e.name| > 0 {
      assert LowerChar(other[0]) == LowerChar(e.name[0]) by {
        assert ToLower(other)[0] == ToLower(e.name)[0];
      }
      assert other[0] == '.' <==> e.name[0] == '.';
      assert IsHiddenName(other) <==> IsHiddenName(e.name) by {
        assert StartsWith(other, ".") <==> other[0] == '.';
        assert StartsWith(e.name, ".") <==> e.name[0] == '.';
      }
    }
  }

  /** Listing more directories only excludes more: a directory excluded under the
      shorter list stays excluded, and the extra names are excluded too. */
  lemma {:induction false} ExcludeDirMonotone(c: ExcludeConfig, extra: seq<string>, e: DirEntry)
    ensures ShouldExcludeDir(c, e) ==> ShouldExcludeDir(c.(directories := c.directories + extra), e)
    ensures e.isDir && (exists j :: 0 <= j < |extra| && EqIgnoreAsciiCase(extra[j], e.name)) ==>
      ShouldExcludeDir(c.(directories := c.directories + extra), e)
  {
    var all := c.directories + extra;
    if e.isDir && ListedDirectory(c.directories, e.name) {
      var i :| 0 <= i < |c.directories| && EqIgnoreAsciiCase(c.directories[i], e.name);
      assert all[i] == c.directories[i];
    }
    if e.isDir && exists j :: 0 <= j < |extra| && EqIgnoreAsciiCase(extra[j], e.name) {
      var j :| 0 <= j < |extra| && EqIgnoreAsciiCase(extra[j], e.name);
      assert all[|c.directories| + j] == extra[j];
    }
  }

  // ------------------------------------------------------------ the unit tests

  /** `test_wildcard_matching`: suffix patterns ignore case. */
  lemma SuffixExamples(pattern: string)
    requires pattern == "*.tmp"
    ensures MatchWildcard(pattern, "file.tmp") && MatchWildcard(pattern, "FILE.TMP")
    ensures !MatchWildcard(pattern, "file.txt")
  {
    assert pattern[1..] == ".tmp";
    assert ToLower(".tmp") == ".tmp";
    assert ToLower("FILE.TMP") == "file.tmp";
    assert ToLower("file.txt") == "file.txt";
  }

  /** `test_wildcard_matching`: exact patterns ignore case. */
  lemma ExactExamples(pattern: string)
    requires pattern == "desktop.ini"
    ensures MatchWildcard(pattern, "desktop.ini") && MatchWildcard(pattern, "Desktop.ini")
    ensures !MatchWildcard(pattern, "desktop.txt")
  {
    assert ToLower(pattern) == "desktop.ini";
    assert ToLower("Desktop.ini") == "desktop.ini";
    assert ToLower("desktop.txt") == "desktop.txt";
  }

  /** `test_prefix_wildcard`. */
  lemma PrefixExamples(pattern: string)
    requires pattern == "temp*"
    ensures MatchWildcard(pattern, "temp.txt") && MatchWildcard(pattern, "temporary")
    ensures !MatchWildcard(pattern, "test")
  {
    PrefixHit(pattern, "temp.txt");
    PrefixHit(pattern, "temporary");
    PrefixMiss(pattern, "test");
  }

  lemma PrefixHit(pattern: string, name: string)
    requires pattern == "temp*" && (name == "temp.txt" || name == "temporary")
    ensures MatchWildcard(pattern, name)
  {
    assert pattern[..|pattern| - 1] == "temp";
    assert ToLower("temp") == "temp";
    assert ToLower(name) == name;
  }

  lemma PrefixMiss(pattern: string, name: string)
    requires pattern == "temp*" && name == "test"
    ensures !MatchWildcard(pattern, name)
  {
    assert pattern[..|pattern| - 1] == "temp";
    assert ToLower("temp") == "temp";
    assert ToLower(name) == name;
    assert name[2] != "temp"[2];
  }

  /** `test_middle_wildcard`: checked before the prefix and suffix forms. */
  lemma MiddleExamples(pattern: string)
    requires pattern == "*cache*"
    ensures MatchWildcard(pattern, "my_cache_file") && MatchWildcard(pattern, "cache")
    ensures MatchWildcard(pattern, "test_cache") && !MatchWildcard(pattern, "test")
  {
    MiddleHit(pattern, "my_", "_file");
    MiddleHit(pattern, "", "");
    MiddleHit(pattern, "test_", "");
    assert "my_" + "cache" + "_file" == "my_cache_file";
    assert "" + "cache" + "" == "cache";
    assert "test_" + "cache" + "" == "test_cache";
    MiddleMiss(pattern, "test");
  }

  /** A lower-case name with "cache" inside matches "*cache*". */
  lemma MiddleHit(pattern: string, before: string, after: string)
    requires pattern == "*cache*"
    requires before in ["my_", "", "test_"] && after in ["_file", ""]
    ensures MatchWildcard(pattern, before + "cache" + after)
  {
    var w := "cache";
    assert pattern[1..|pattern| - 1] == w && ToLower(w) == w;
    assert ToLower(before + w + after) == before + w + after;
    ContainsAfter(before, w, after);
  }

  lemma MiddleMiss(pattern: string, name: string)
    requires pattern == "*cache*" && name == "test"
    ensures !MatchWildcard(pattern, name)
  {
    var w := "cache";
    assert pattern[1..|pattern| - 1] == w && ToLower(w) == w;
    assert ToLower(name) == name;
    assert !Contains("test", w);
  }

  /** Text that has `w` after some prefix contains `w`. */
  lemma {:induction false} ContainsAfter(a: string, w: string, b: string)
    ensures Contains(a + w + b, w)
    decreases |a|
  {
    if |a| == 0 {
      assert a + w + b == w + b;
      assert (w + b)[..|w|] == w;
    } else {
      assert (a + w + b)[1..] == a[1..] + w + b;
      ContainsAfter(a[1..], w, b);
    }
  }

  /** `test_exclude_patterns`. */
  lemma ExcludePatternExamples(patterns: seq<string>)
    requires patterns == ["*.tmp", "*.bak", "desktop.ini", "Thumbs.db"]
    ensures MatchesExcludePattern(patterns, "file.tmp") && MatchesExcludePattern(patterns, "backup.bak")
    ensures MatchesExcludePattern(patterns, "desktop.ini") && MatchesExcludePattern(patterns, "Thumbs.db")
    ensures !MatchesExcludePattern(patterns, "important.txt")
  {
    ExcludePatternHits(patterns);
    ExcludePatternMiss(patterns, "important.txt");
  }

  lemma ExcludePatternHits(patterns: seq<string>)
    requires patterns == ["*.tmp", "*.bak", "desktop.ini", "Thumbs.db"]
    ensures MatchesExcludePattern(patterns, "file.tmp") && MatchesExcludePattern(patterns, "backup.bak")
    ensures MatchesExcludePattern(patterns, "desktop.ini") && MatchesExcludePattern(patterns, "Thumbs.db")
  {
    SuffixExamples(patterns[0]);
    BakMatches(patterns[1]);
    ExactExamples(patterns[2]);
    assert MatchWildcard(patterns[3], "Thumbs.db");
  }

  lemma ExcludePatternMiss(patterns: seq<string>, t: string)
    requires patterns == ["*.tmp", "*.bak", "desktop.ini", "Thumbs.db"] && t == "important.txt"
    ensures !MatchesExcludePattern(patterns, t)
  {
    SuffixMiss(patterns[0], t);
    SuffixMiss(patterns[1], t);
    ExactMiss(patterns[2], t);
    ExactMiss(patterns[3], t);
  }

  lemma BakMatches(pattern: string)
    requires pattern == "*.bak"
    ensures MatchWildcard(pattern, "backup.bak")
  {
    assert pattern[1..] == ".bak" && ToLower(".bak") == ".bak";
    assert ToLower("backup.bak") == "backup.bak";
  }

  lemma SuffixMiss(pattern: string, t: string)
    requires pattern == "*.tmp" || pattern == "*.bak"
    requires t == "important.txt"
    ensures !MatchWildcard(pattern, t)
  {
    assert ToLower(t) == t;
    assert ToLower(pattern[1..])[2] != 'x';
  }

  lemma ExactMiss(pattern: string, t: string)
    requires pattern == "desktop.ini" || pattern == "Thumbs.db"
    requires t == "important.txt"
    ensures !MatchWildcard(pattern, t)
  {
    assert |ToLower(pattern)| != |ToLower(t)|;
  }

  /** `test_hidden_files`: with hidden files excluded and no patterns. */
  lemma HiddenFileExamples(c: ExcludeConfig)
    requires c.hiddenFiles && c.patterns == []
    ensures ShouldExcludeFile(c, [".hidden"]) && ShouldExcludeFile(c, [".DS_Store"])
    ensures !ShouldExcludeFile(c, ["visible.txt"])
  {
    assert FileName([".hidden"]) == Some(".hidden");
    assert FileName([".DS_Store"]) == Some(".DS_Store");
    assert FileName(["visible.txt"]) == Some("visible.txt");
    assert "visible.txt"[0] != '.';
  }
}
