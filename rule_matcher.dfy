/** The rule index of `src/rule_matcher.rs`: `RuleMatcher::new` builds a map from
    lower-case extension to the rules registered under it, `match_file` picks the
    first rule whose size filter accepts a file, and `build_target_path` turns the
    chosen rule into a destination. A rule is identified by its position in
    `config.rules`, the identity `std::ptr::eq` compares. */
module RuleMatching {
  import opened Wrappers
  import opened Text
  import opened Paths
  import opened MediaTypes
  import opened Configuration
  import opened Templates

  datatype RuleMatcher = RuleMatcher(
    config: Config,
    extensionRules: map<string, seq<nat>>,
    globalRule: Option<nat>)

  // ------------------------------------------------------------ specification

  function Lookup(index: map<string, seq<nat>>, key: string): seq<nat> {
    if key in index then index[key] else []
  }

  /** `rule.name.to_lowercase().contains("default")`. */
  predicate IsDefaultName(name: string) {
    Contains(ToLower(name), "default")
  }

  /** The fallback rule: enabled, "default" in its name, and no extensions. A
      `["*"]` rule is not one. */
  predicate IsFallback(rule: Rule) {
    rule.enabled && IsDefaultName(rule.name) && |rule.extensions| == 0
  }

  /** The last fallback among the first `n` rules: each one found overwrites the
      previous choice. */
  function LastFallback(rules: seq<Rule>, n: nat): (r: Option<nat>)
    requires n <= |rules|
    ensures r.Some? ==> r.value < n && IsFallback(rules[r.value])
    ensures r.Some? ==> forall q :: r.value < q < n ==> !IsFallback(rules[q])
    ensures r.None? ==> forall q :: 0 <= q < n ==> !IsFallback(rules[q])
  {
    if n == 0 then None
    else if IsFallback(rules[n - 1]) then Some(n - 1)
    else LastFallback(rules, n - 1)
  }

  /** Some member of the group equals `e` up to ASCII case. */
  predicate InGroup(group: AliasGroup, e: string) {
    exists j :: 0 <= j < |group.extensions| && EqIgnoreAsciiCase(group.extensions[j], e)
  }

  /** The first alias group, in sequence order, that holds `e`. */
  function FirstGroup(groups: seq<AliasGroup>, e: string): (r: Option<nat>)
    ensures r.Some? ==> r.value < |groups| && InGroup(groups[r.value], e)
    ensures r.Some? ==> forall h :: 0 <= h < r.value ==> !InGroup(groups[h], e)
    ensures r.None? ==> forall h :: 0 <= h < |groups| ==> !InGroup(groups[h], e)
    decreases |groups|
  {
    if |groups| == 0 then None
    else if InGroup(groups[|groups| - 1], e) && FirstGroup(groups[..|groups| - 1], e).None?
    then Some(|groups| - 1)
    else FirstGroup(groups[..|groups| - 1], e)
  }

  function LowerAll(exts: seq<string>): seq<string> {
    seq(|exts|, i requires 0 <= i < |exts| => ToLower(exts[i]))
  }

  /** The keys one listed extension registers its rule under: its own lower-case
      form, and every member of the first alias group that holds it. */
  function ExtKeys(e: string, groups: seq<AliasGroup>): seq<string> {
    [ToLower(e)] + match FirstGroup(groups, e)
      case None => []
      case Some(g) => LowerAll(groups[g].extensions)
  }

  /** The keys of all the extensions a rule lists. */
  function RuleKeys(exts: seq<string>, groups: seq<AliasGroup>): seq<string>
    decreases |exts|
  {
    if |exts| == 0 then [] else RuleKeys(exts[..|exts| - 1], groups) + ExtKeys(exts[|exts| - 1], groups)
  }

  /** Rule `r` belongs in the list of `key`. */
  predicate Indexed(c: Config, r: nat, key: string) {
    && r < |c.rules|
    && c.rules[r].enabled
    && !IsFallback(c.rules[r])
    && key in RuleKeys(c.rules[r].extensions, c.extensionAliases)
  }

  predicate Ordered(s: seq<nat>) {
    forall i, j :: 0 <= i < j < |s| ==> s[i] <= s[j]
  }

  /** Every list is nonempty and in declaration order. */
  predicate WellOrdered(index: map<string, seq<nat>>) {
    forall key :: key in index ==> |index[key]| > 0 && Ordered(index[key])
  }

  /** Every rule listed comes before rule `b`. */
  predicate ListsBelow(index: map<string, seq<nat>>, b: nat) {
    forall key, i :: key in index && 0 <= i < |index[key]| ==> index[key][i] < b
  }

  /** What `new` establishes: a rule is listed under exactly the keys it registers,
      the lists follow declaration order, and the fallback is the last fallback rule. */
  ghost predicate Valid(m: RuleMatcher) {
    && WellOrdered(m.extensionRules)
    && (forall key, r :: r in Lookup(m.extensionRules, key) <==> Indexed(m.config, r, key))
    && m.globalRule == LastFallback(m.config.rules, |m.config.rules|)
  }

  // ------------------------------------------------------------- construction

  function Push(index: map<string, seq<nat>>, key: string, r: nat): map<string, seq<nat>> {
    index[key := Lookup(index, key) + [r]]
  }

  lemma PushKeepsOrder(index: map<string, seq<nat>>, key: string, r: nat)
    requires WellOrdered(index) && ListsBelow(index, r + 1)
    ensures WellOrdered(Push(index, key, r)) && ListsBelow(Push(index, key, r), r + 1)
    ensures forall k, q :: q in Lookup(Push(index, key, r), k) <==> q in Lookup(index, k) || (k == key && q == r)
  {
    var s := Lookup(index, key) + [r];
    assert Ordered(s) by {
      forall i, j | 0 <= i < j < |s| ensures s[i] <= s[j] {
        if j < |s| - 1 {
          assert s[i] == index[key][i] && s[j] == index[key][j];
        } else if i < |s| - 1 {
          assert s[i] == index[key][i];
        }
      }
    }
  }

  /** The first alias group holding `e`: the `for ... in values()` loop with its
      `any` test and `break`. */
  method FindAliasGroup(groups: seq<AliasGroup>, e: string) returns (g: Option<nat>)
    ensures g == FirstGroup(groups, e)
  {
    g := None;
    var h := 0;
    while h < |groups|
      invariant 0 <= h <= |groups|
      invariant forall q :: 0 <= q < h ==> !InGroup(groups[q], e)
    {
      if InGroup(groups[h], e) {
        g := Some(h);
        return;
      }
      h := h + 1;
    }
  }

  /** The alias loop: rule `r` is pushed under each member's lower-case form
      unless that list already holds it. */
  method AddAliases(index: map<string, seq<nat>>, members: seq<string>, r: nat)
    returns (result: map<string, seq<nat>>)
    requires WellOrdered(index) && ListsBelow(index, r + 1)
    ensures WellOrdered(result) && ListsBelow(result, r + 1)
    ensures forall k, q :: q in Lookup(result, k) <==> q in Lookup(index, k) || (q == r && k in LowerAll(members))
  {
    result := index;
    var j := 0;
    while j < |members|
      invariant 0 <= j <= |members|
      invariant WellOrdered(result) && ListsBelow(result, r + 1)
      invariant forall k, q :: q in Lookup(result, k) <==> q in Lookup(index, k) || (q == r && k in LowerAll(members[..j]))
    {
      var key := ToLower(members[j]);
      assert LowerAll(members[..j + 1]) == LowerAll(members[..j]) + [key];
      if r !in Lookup(result, key) {
        PushKeepsOrder(result, key, r);
        result := Push(result, key, r);
      }
      j := j + 1;
    }
    assert members[..j] == members;
  }

  /** One extension of a rule: a direct push under its lower-case form (with no
      check, so a rule listing two spellings of one extension is pushed twice),
      then the aliases of the first group holding it. */
  method IndexExtension(index: map<string, seq<nat>>, e: string, groups: seq<AliasGroup>, r: nat)
    returns (result: map<string, seq<nat>>)
    requires WellOrdered(index) && ListsBelow(index, r + 1)
    ensures WellOrdered(result) && ListsBelow(result, r + 1)
    ensures forall k, q :: q in Lookup(result, k) <==> q in Lookup(index, k) || (q == r && k in ExtKeys(e, groups))
  {
    PushKeepsOrder(index, ToLower(e), r);
    result := Push(index, ToLower(e), r);
    var g := FindAliasGroup(groups, e);
    if g.Some? {
      result := AddAliases(result, groups[g.value].extensions, r);
    }
  }

  /** The loop over one rule's extensions. */
  method IndexRule(index: map<string, seq<nat>>, exts: seq<string>, groups: seq<AliasGroup>, r: nat)
    returns (result: map<string, seq<nat>>)
    requires WellOrdered(index) && ListsBelow(index, r)
    ensures WellOrdered(result) && ListsBelow(result, r + 1)
    ensures forall k, q :: q in Lookup(result, k) <==> q in Lookup(index, k) || (q == r && k in RuleKeys(exts, groups))
  {
    result := index;
    var i := 0;
    while i < |exts|
      invariant 0 <= i <= |exts|
      invariant WellOrdered(result) && ListsBelow(result, r + 1)
      invariant forall k, q :: q in Lookup(result, k) <==> q in Lookup(index, k) || (q == r && k in RuleKeys(exts[..i], groups))
    {
      assert exts[..i + 1][..i] == exts[..i];
      assert RuleKeys(exts[..i + 1], groups) == RuleKeys(exts[..i], groups) + ExtKeys(exts[i], groups);
      result := IndexExtension(result, exts[i], groups, r);
      i := i + 1;
    }
    assert exts[..i] == exts;
  }

  /** `RuleMatcher::new`. */
  method New(config: Config) returns (m: RuleMatcher)
    ensures m.config == config
    ensures Valid(m)
  {
    var index: map<string, seq<nat>> := map[];
    var globalRule: Option<nat> := None;
    var n := 0;
    while n < |config.rules|
      invariant 0 <= n <= |config.rules|
      invariant WellOrdered(index) && ListsBelow(index, n)
      invariant forall k: string, q: nat :: q in Lookup(index, k) <==> q < n && Indexed(config, q, k)
      invariant globalRule == LastFallback(config.rules, n)
    {
      var rule := config.rules[n];
      if rule.enabled {
        var isGlobal := false;
        if IsDefaultName(rule.name)
          && (|rule.extensions| == 0
              || (|rule.extensions| == 1 && rule.extensions[0] == "*" && globalRule.None?))
        {
          if |rule.extensions| == 0 {
            globalRule := Some(n);
            isGlobal := true;
          }
        }
        if !isGlobal {
          index := IndexRule(index, rule.extensions, config.extensionAliases, n);
        }
      }
      n := n + 1;
    }
    m := RuleMatcher(config, index, globalRule);
  }

  // ----------------------------------------------------------------- matching

  /** A size bound as `check_file_size_match` reads it: absent is 0, otherwise parsed. */
  function BoundOf(bound: Option<string>): Result<FileSize> {
    match bound
    case None => Ok(FileSize(0))
    case Some(text) => Parse(text)
  }

  /** `check_file_size_match`: no filter accepts every size; a bound that does not
      parse rejects the file; otherwise the range check with 0 as "no bound". */
  predicate SizeMatches(rule: Rule, size: u64) {
    match rule.fileSize
    case None => true
    case Some(f) =>
      && BoundOf(f.min).Ok? && BoundOf(f.max).Ok?
      && IsInRange(FileSize(size), BoundOf(f.min).value, BoundOf(f.max).value)
  }

  /** `is_supported_media_type`. */
  predicate IsSupportedMediaType(ext: string) {
    IsImageExtension(ext) || IsVideoExtension(ext) || IsAudioExtension(ext)
  }

  /** Rule `r` is registered under `key` and accepts the size. */
  predicate Candidate(c: Config, key: string, size: u64, r: nat) {
    Indexed(c, r, key) && SizeMatches(c.rules[r], size)
  }

  /** The earliest-declared candidate at or after position `from`, found by
      scanning the rules themselves rather than the index. */
  function FirstCandidate(c: Config, key: string, size: u64, from: nat): (r: Option<nat>)
    ensures r.Some? ==> from <= r.value && Candidate(c, key, size, r.value)
    ensures r.Some? ==> forall q :: from <= q < r.value ==> !Candidate(c, key, size, q)
    ensures r.None? ==> forall q :: from <= q < |c.rules| ==> !Candidate(c, key, size, q)
    decreases |c.rules| - from
  {
    if from >= |c.rules| then None
    else if Candidate(c, key, size, from) then Some(from)
    else FirstCandidate(c, key, size, from + 1)
  }

  /** What `match_file` should answer, stated on the configuration alone: the
      earliest enabled rule registered under the lower-cased extension whose size
      check passes; failing that, the fallback, for a known media extension only. */
  function ReferenceMatch(c: Config, extension: string, size: u64): Option<nat> {
    var key := ToLower(extension);
    match FirstCandidate(c, key, size, 0)
    case Some(r) => Some(r)
    case None =>
      if IsSupportedMediaType(key) && LastFallback(c.rules, |c.rules|).Some?
      then LastFallback(c.rules, |c.rules|)
      else None
  }

  lemma {:induction false} FirstCandidateAt(c: Config, key: string, size: u64, from: nat, q: nat)
    requires from <= q && Candidate(c, key, size, q)
    requires forall p :: from <= p < q ==> !Candidate(c, key, size, p)
    ensures FirstCandidate(c, key, size, from) == Some(q)
    decreases q - from
  {
    if from < q {
      FirstCandidateAt(c, key, size, from + 1, q);
    }
  }

  lemma {:induction false} FirstCandidateNone(c: Config, key: string, size: u64, from: nat)
    requires forall p :: from <= p < |c.rules| ==> !Candidate(c, key, size, p)
    ensures FirstCandidate(c, key, size, from) == None
    decreases |c.rules| - from
  {
    if from < |c.rules| {
      FirstCandidateNone(c, key, size, from + 1);
    }
  }

  /** `match_file`: the scan of the extension's list with an early return, then
      the fallback. */
  method MatchFile(m: RuleMatcher, extension: string, fileSize: u64) returns (r: Option<nat>)
    requires Valid(m)
    ensures r == ReferenceMatch(m.config, extension, fileSize)
  {
    var key := ToLower(extension);
    var rules := Lookup(m.extensionRules, key);
    ValidListing(m, key);
    var i := 0;
    while i < |rules|
      invariant 0 <= i <= |rules|
      invariant forall j :: 0 <= j < i ==> !SizeMatches(m.config.rules[rules[j]], fileSize)
    {
      if SizeMatches(m.config.rules[rules[i]], fileSize) {
        ScanFindsFirst(m.config, key, fileSize, rules, i);
        return Some(rules[i]);
      }
      i := i + 1;
    }
    ScanFindsNone(m.config, key, fileSize, rules);
    if IsSupportedMediaType(key) && m.globalRule.Some? {
      return m.globalRule;
    }
    return None;
  }

  /** `rules` is the list of `key` in a valid index. */
  ghost predicate ListedExactly(c: Config, key: string, rules: seq<nat>) {
    && Ordered(rules)
    && (forall q: nat :: q in rules <==> Indexed(c, q, key))
  }

  lemma ValidListing(m: RuleMatcher, key: string)
    requires Valid(m)
    ensures ListedExactly(m.config, key, Lookup(m.extensionRules, key))
    ensures forall j :: 0 <= j < |Lookup(m.extensionRules, key)| ==> Lookup(m.extensionRules, key)[j] < |m.config.rules|
  {
    var rules := Lookup(m.extensionRules, key);
    forall j | 0 <= j < |rules| ensures rules[j] < |m.config.rules| {
      assert rules[j] in rules;
    }
  }

  /** In a list kept in declaration order, the first entry that passes the size
      check is the earliest-declared candidate. */
  lemma ScanFindsFirst(c: Config, key: string, size: u64, rules: seq<nat>, i: nat)
    requires ListedExactly(c, key, rules) && i < |rules|
    requires rules[i] < |c.rules| && SizeMatches(c.rules[rules[i]], size)
    requires forall j :: 0 <= j < i ==> rules[j] < |c.rules| && !SizeMatches(c.rules[rules[j]], size)
    ensures FirstCandidate(c, key, size, 0) == Some(rules[i])
  {
    assert rules[i] in rules;
    forall p | 0 <= p < rules[i] && Indexed(c, p, key) ensures !SizeMatches(c.rules[p], size) {
      var j :| 0 <= j < |rules| && rules[j] == p;
      assert j < i;
    }
    FirstCandidateAt(c, key, size, 0, rules[i]);
  }

  /** A list none of whose rules passes leaves no candidate at all. */
  lemma ScanFindsNone(c: Config, key: string, size: u64, rules: seq<nat>)
    requires ListedExactly(c, key, rules)
    requires forall j :: 0 <= j < |rules| ==> rules[j] < |c.rules| && !SizeMatches(c.rules[rules[j]], size)
    ensures FirstCandidate(c, key, size, 0) == None
  {
    forall p | 0 <= p < |c.rules| && Indexed(c, p, key) ensures !SizeMatches(c.rules[p], size) {
      var j :| 0 <= j < |rules| && rules[j] == p;
    }
    FirstCandidateNone(c, key, size, 0);
  }

  /** `find_matching_rule` delegates to `match_file`. */
  method FindMatchingRule(m: RuleMatcher, extension: string, fileSize: u64) returns (r: Option<nat>)
    requires Valid(m)
    ensures r == ReferenceMatch(m.config, extension, fileSize)
  {
    r := MatchFile(m, extension, fileSize);
  }

  // --------------------------------------------------------------- properties

  /** The keys of a listed extension are keys of its rule. */
  lemma {:induction false} RuleKeysContains(exts: seq<string>, groups: seq<AliasGroup>, i: nat)
    requires i < |exts|
    ensures forall k :: k in ExtKeys(exts[i], groups) ==> k in RuleKeys(exts, groups)
    decreases |exts|
  {
    var init := exts[..|exts| - 1];
    if i < |exts| - 1 {
      assert exts[i] == init[i];
      RuleKeysContains(init, groups, i);
    }
  }

  /** Every key of a rule comes from one of its extensions: its lower-case form,
      or a member of an alias group holding it. */
  lemma {:induction false} RuleKeysBound(exts: seq<string>, groups: seq<AliasGroup>, key: string)
    requires key in RuleKeys(exts, groups)
    ensures key in LowerAll(exts) ||
      exists h, i :: 0 <= h < |groups| && 0 <= i < |exts| && InGroup(groups[h], exts[i]) && key in LowerAll(groups[h].extensions)
    decreases |exts|
  {
    var n := |exts| - 1;
    var init := exts[..n];
    if key in RuleKeys(init, groups) {
      RuleKeysBound(init, groups, key);
      if key in LowerAll(init) {
        var t :| 0 <= t < |init| && LowerAll(init)[t] == key;
        assert LowerAll(exts)[t] == key;
      } else {
        var h, i :| 0 <= h < |groups| && 0 <= i < |init| && InGroup(groups[h], init[i]) && key in LowerAll(groups[h].extensions);
        assert exts[i] == init[i];
      }
    } else if key == ToLower(exts[n]) {
      assert LowerAll(exts)[n] == key;
    } else {
      var g := FirstGroup(groups, exts[n]).value;
      assert InGroup(groups[g], exts[n]);
    }
  }

  /** A disabled rule is in no list and is never the fallback. */
  lemma DisabledNeverListed(m: RuleMatcher, r: nat, key: string)
    requires Valid(m) && r < |m.config.rules| && !m.config.rules[r].enabled
    ensures r !in Lookup(m.extensionRules, key)
    ensures m.globalRule != Some(r)
  {
  }

  /** Alias symmetry: a rule listing an extension is registered under every member
      of the first alias group holding that extension, whatever its case. */
  lemma AliasSymmetry(m: RuleMatcher, r: nat, i: nat, j: nat)
    requires Valid(m) && r < |m.config.rules| && m.config.rules[r].enabled
    requires i < |m.config.rules[r].extensions|
    requires var g := FirstGroup(m.config.extensionAliases, m.config.rules[r].extensions[i]);
      g.Some? && j < |m.config.extensionAliases[g.value].extensions|
    ensures var g := FirstGroup(m.config.extensionAliases, m.config.rules[r].extensions[i]).value;
      r in Lookup(m.extensionRules, ToLower(m.config.extensionAliases[g].extensions[j]))
  {
    var c := m.config;
    var e := c.rules[r].extensions[i];
    var g := FirstGroup(c.extensionAliases, e).value;
    var key := ToLower(c.extensionAliases[g].extensions[j]);
    assert LowerAll(c.extensionAliases[g].extensions)[j] == key;
    assert key in ExtKeys(e, c.extensionAliases);
    RuleKeysContains(c.rules[r].extensions, c.extensionAliases, i);
    assert Indexed(c, r, key);
  }

  /** The size check: no filter or no bounds accept everything, an unparsable bound
      rejects, and two parsed nonzero bounds form an inclusive interval. */
  lemma SizeMatchesMeaning(rule: Rule, size: u64)
    ensures rule.fileSize.None? ==> SizeMatches(rule, size)
    ensures rule.fileSize.Some? && rule.fileSize.value.min.None? && rule.fileSize.value.max.None? ==>
      SizeMatches(rule, size)
    ensures rule.fileSize.Some? && rule.fileSize.value.min.Some? && Parse(rule.fileSize.value.min.value).Err? ==>
      !SizeMatches(rule, size)
    ensures rule.fileSize.Some? && rule.fileSize.value.max.Some? && Parse(rule.fileSize.value.max.value).Err? ==>
      !SizeMatches(rule, size)
    ensures rule.fileSize.Some? && BoundOf(rule.fileSize.value.min).Ok? && BoundOf(rule.fileSize.value.max).Ok? ==>
      var lo := BoundOf(rule.fileSize.value.min).value.bytes;
      var hi := BoundOf(rule.fileSize.value.max).value.bytes;
      lo > 0 && hi > 0 ==> (SizeMatches(rule, size) <==> lo <= size <= hi)
  {
  }

  /** First match wins: a rule is returned either as the earliest-declared candidate
      or, when there is none, as the fallback for a known media extension. */
  lemma MatchMeaning(c: Config, extension: string, size: u64)
    ensures var key := ToLower(extension); var r := ReferenceMatch(c, extension, size);
      && (r.Some? && Candidate(c, key, size, r.value) ==>
            forall q :: 0 <= q < r.value ==> !Candidate(c, key, size, q))
      && (r.Some? && !Candidate(c, key, size, r.value) ==>
            && (forall q :: 0 <= q < |c.rules| ==> !Candidate(c, key, size, q))
            && IsSupportedMediaType(key) && r == LastFallback(c.rules, |c.rules|))
      && (r.None? ==>
            && (forall q :: 0 <= q < |c.rules| ==> !Candidate(c, key, size, q))
            && (!IsSupportedMediaType(key) || LastFallback(c.rules, |c.rules|).None?))
  {
    var key := ToLower(extension);
    var first := FirstCandidate(c, key, size, 0);
    if first.Some? {
      assert Candidate(c, key, size, first.value);
    }
  }

  // ------------------------------------------------- the default configuration

  /** `"5MB"` is five mebibytes. */
  lemma ParseFiveMegabytes(s: string)
    requires s == "5MB"
    ensures Parse(s) == Ok(FileSize(5 * MB))
  {
    assert NatToString(5) + "MB" == s by { assert NatToString(5) == "5"; }
    assert Multiplier("MB") == Some(MB);
    ParseInteger(5, "MB");
  }

  /** A size filter with two bounds that parse accepts exactly the sizes their
      range check accepts. */
  lemma SizeMatchesBounds(rule: Rule, size: u64, min: string, max: string, lo: u64, hi: u64)
    requires rule.fileSize == Some(FileSizeFilter(Some(min), Some(max)))
    requires Parse(min) == Ok(FileSize(lo)) && Parse(max) == Ok(FileSize(hi))
    ensures SizeMatches(rule, size) <==> IsInRange(FileSize(size), FileSize(lo), FileSize(hi))
  {
  }

  /** The filter "5MB".."0B": at least five mebibytes. */
  lemma AtLeastFiveMegabytes(rule: Rule, size: u64)
    requires rule.fileSize == Some(FileSizeFilter(Some("5MB"), Some("0B")))
    ensures SizeMatches(rule, size) <==> size >= 5 * MB
  {
    var min, max := "5MB", "0B";
    ParseFiveMegabytes(min);
    ParseZeroExample(max);
    SizeMatchesBounds(rule, size, min, max, 5 * MB, 0);
  }

  /** The filter "0B".."5MB": at most five mebibytes. */
  lemma AtMostFiveMegabytes(rule: Rule, size: u64)
    requires rule.fileSize == Some(FileSizeFilter(Some("0B"), Some("5MB")))
    ensures SizeMatches(rule, size) <==> size <= 5 * MB
  {
    var min, max := "0B", "5MB";
    ParseZeroExample(min);
    ParseFiveMegabytes(max);
    SizeMatchesBounds(rule, size, min, max, 0, 5 * MB);
  }

  /** The filter "0B".."0B": any size, the empty file included. */
  lemma ZeroFilterAcceptsAll(rule: Rule, size: u64)
    requires rule.fileSize == Some(FileSizeFilter(Some("0B"), Some("0B")))
    ensures SizeMatches(rule, size)
  {
    var zero := "0B";
    ParseZeroExample(zero);
    SizeMatchesBounds(rule, size, zero, zero, 0, 0);
  }

  /** The size checks of the default rules: "High Quality Photos" wants at least
      5 MB, "Thumbnails" at most 5 MB, and the others take any size. */
  lemma DefaultSizes(c: Config, size: u64)
    requires c == Default()
    ensures SizeMatches(c.rules[0], size) <==> size >= 5 * MB
    ensures SizeMatches(c.rules[2], size) <==> size <= 5 * MB
    ensures forall r | r in {1, 3, 4, 5} :: SizeMatches(c.rules[r], size)
  {
    AtLeastFiveMegabytes(c.rules[0], size);
    AtMostFiveMegabytes(c.rules[2], size);
    forall r | r in {1, 3, 4, 5} ensures SizeMatches(c.rules[r], size) {
      ZeroFilterAcceptsAll(c.rules[r], size);
    }
  }

  /** Group membership of an already lower-case extension, for lower-case groups. */
  lemma InGroupOfLower(group: AliasGroup, e: string)
    requires ToLower(e) == e
    requires forall j :: 0 <= j < |group.extensions| ==> IsLowerAlnum(group.extensions[j])
    ensures InGroup(group, e) <==> e in group.extensions
    ensures LowerAll(group.extensions) == group.extensions
  {
    forall j | 0 <= j < |group.extensions| ensures ToLower(group.extensions[j]) == group.extensions[j] {
      LowerOfLower(group.extensions[j]);
    }
  }

  /** The extensions of the default rules are already lower case. */
  lemma DefaultLowerCase(r: nat)
    requires r < 6
    ensures forall i :: 0 <= i < |Default().rules[r].extensions| ==>
      ToLower(Default().rules[r].extensions[i]) == Default().rules[r].extensions[i]
  {
    var exts := Default().rules[r].extensions;
    forall i | 0 <= i < |exts| ensures ToLower(exts[i]) == exts[i] {
      var e := exts[i];
      if e != "*" {
        assert e in ImageExtensions || e in VideoExtensions || e in AudioExtensions;
        TablesLowerAlnum(e);
        LowerOfLower(e);
      }
    }
  }

  /** So are the members of the default alias groups. */
  lemma DefaultGroupsLower(h: nat)
    requires h < 3
    ensures forall j :: 0 <= j < |Default().extensionAliases[h].extensions| ==>
      IsLowerAlnum(Default().extensionAliases[h].extensions[j])
  {
    var members := Default().extensionAliases[h].extensions;
    forall j | 0 <= j < |members| ensures IsLowerAlnum(members[j]) {
      assert members[j] in ImageExtensions || members[j] in VideoExtensions;
      TablesLowerAlnum(members[j]);
    }
  }

  /** A default rule that lists a member of an alias group lists the whole group. */
  lemma DefaultGroupsListedWhole(r: nat, i: nat, h: nat)
    requires r < 6 && h < 3 && i < |Default().rules[r].extensions|
    requires Default().rules[r].extensions[i] in Default().extensionAliases[h].extensions
    ensures forall k :: k in Default().extensionAliases[h].extensions ==> k in Default().rules[r].extensions
  {
  }

  /** In the default configuration a rule is registered under exactly the
      extensions it lists. */
  lemma DefaultIndexed(r: nat, key: string)
    requires r < 6
    ensures Indexed(Default(), r, key) <==> key in Default().rules[r].extensions
  {
    var c := Default();
    var exts := c.rules[r].extensions;
    var groups := c.extensionAliases;
    DefaultShape();
    DefaultLowerCase(r);
    assert LowerAll(exts) == exts;
    if key in RuleKeys(exts, groups) {
      RuleKeysBound(exts, groups, key);
      if key !in LowerAll(exts) {
        var h, i :| 0 <= h < |groups| && 0 <= i < |exts| && InGroup(groups[h], exts[i]) && key in LowerAll(groups[h].extensions);
        DefaultGroupsLower(h);
        InGroupOfLower(groups[h], exts[i]);
        DefaultGroupsListedWhole(r, i, h);
      }
    }
    if key in exts {
      var i :| 0 <= i < |exts| && exts[i] == key;
      RuleKeysContains(exts, groups, i);
    }
  }

  /** No default rule has an empty extension list, so there is no fallback. */
  lemma DefaultHasNoFallback()
    ensures LastFallback(Default().rules, |Default().rules|) == None
  {
    DefaultShape();
  }


  /** Over the default rules the scan stops at the first rule that lists the key
      and whose size check passes. */
  lemma DefaultFirst(c: Config, key: string, size: u64, q: nat)
    requires c == Default()
    requires q < 6 && key in c.rules[q].extensions && SizeMatches(c.rules[q], size)
    requires forall p | 0 <= p < q :: key !in c.rules[p].extensions || !SizeMatches(c.rules[p], size)
    ensures FirstCandidate(c, key, size, 0) == Some(q)
  {
    forall p | 0 <= p <= q ensures Candidate(c, key, size, p) <==>
      key in c.rules[p].extensions && SizeMatches(c.rules[p], size)
    {
      DefaultIndexed(p, key);
    }
    FirstCandidateAt(c, key, size, 0, q);
  }

  /** With a lower-case extension, the match over the default rules is the first
      candidate of the scan... */
  lemma DefaultMatchesFirst(c: Config, ext: string, size: u64, r: nat)
    requires c == Default()
    requires ToLower(ext) == ext && FirstCandidate(c, ext, size, 0) == Some(r)
    ensures ReferenceMatch(c, ext, size) == Some(r)
  {
  }

  /** ... and, there being no fallback, nothing when the scan finds no candidate. */
  lemma DefaultUnmatched(c: Config, ext: string, size: u64)
    requires c == Default()
    requires ToLower(ext) == ext && FirstCandidate(c, ext, size, 0) == None
    ensures ReferenceMatch(c, ext, size) == None
  {
    DefaultHasNoFallback();
  }

  /** The extensions the examples below use are lower case. */
  lemma ExampleLower(ext: string)
    requires ext in ["jpg", "nef", "mp4", "gif"]
    ensures ToLower(ext) == ext
  {
    LowerOfLower(ext);
  }

  lemma LargeJpegCandidates(c: Config, ext: string, size: u64)
    requires c == Default() && ext == "jpg" && size == 10 * MB
    ensures ext in c.rules[0].extensions && SizeMatches(c.rules[0], size)
  {
    DefaultSizes(c, size);
  }

  /** A 10 MB "jpg" goes to "High Quality Photos", the first rule. */
  lemma DefaultLargeJpeg(c: Config, ext: string, size: u64)
    requires c == Default() && ext == "jpg" && size == 10 * MB
    ensures ReferenceMatch(c, ext, size) == Some(0)
  {
    LargeJpegCandidates(c, ext, size);
    DefaultFirst(c, ext, size, 0);
    ExampleLower(ext);
    DefaultMatchesFirst(c, ext, size, 0);
  }

  lemma SmallJpegCandidates(c: Config, ext: string, size: u64)
    requires c == Default() && ext == "jpg" && size == MB
    ensures ext in c.rules[2].extensions && SizeMatches(c.rules[2], size)
    ensures forall p | 0 <= p < 2 :: ext !in c.rules[p].extensions || !SizeMatches(c.rules[p], size)
  {
    JpegListing(c, ext);
    AtLeastFiveMegabytes(c.rules[0], size);
    AtMostFiveMegabytes(c.rules[2], size);
  }

  /** "jpg" is listed by "High Quality Photos" and "Thumbnails", not by "RAW Photos". */
  lemma JpegListing(c: Config, ext: string)
    requires c == Default() && ext == "jpg"
    ensures ext in c.rules[0].extensions && ext !in c.rules[1].extensions && ext in c.rules[2].extensions
  {
  }

  /** A 1 MB "jpg" is too small for the first rule, is not a RAW photo, and goes to
      "Thumbnails". */
  lemma DefaultSmallJpeg(c: Config, ext: string, size: u64)
    requires c == Default() && ext == "jpg" && size == MB
    ensures ReferenceMatch(c, ext, size) == Some(2)
  {
    SmallJpegCandidates(c, ext, size);
    DefaultFirst(c, ext, size, 2);
    ExampleLower(ext);
    DefaultMatchesFirst(c, ext, size, 2);
  }

  lemma RawPhotoCandidates(c: Config, ext: string, size: u64)
    requires c == Default() && ext == "nef" && size == 20 * MB
    ensures ext in c.rules[1].extensions && SizeMatches(c.rules[1], size)
    ensures ext !in c.rules[0].extensions
  {
    RawListing(c, ext);
    ZeroFilterAcceptsAll(c.rules[1], size);
  }

  /** "nef" is listed by "RAW Photos" and not by "High Quality Photos". */
  lemma RawListing(c: Config, ext: string)
    requires c == Default() && ext == "nef"
    ensures ext !in c.rules[0].extensions && ext in c.rules[1].extensions
  {
  }

  /** A 20 MB "nef" goes to "RAW Photos". */
  lemma DefaultRawPhoto(c: Config, ext: string, size: u64)
    requires c == Default() && ext == "nef" && size == 20 * MB
    ensures ReferenceMatch(c, ext, size) == Some(1)
  {
    RawPhotoCandidates(c, ext, size);
    DefaultFirst(c, ext, size, 1);
    ExampleLower(ext);
    DefaultMatchesFirst(c, ext, size, 1);
  }

  lemma VideoCandidates(c: Config, ext: string, size: u64)
    requires c == Default() && ext == "mp4" && size == 100 * MB
    ensures ext in c.rules[3].extensions && SizeMatches(c.rules[3], size)
    ensures forall p | 0 <= p < 3 :: ext !in c.rules[p].extensions
  {
    VideoListing(c, ext);
    ZeroFilterAcceptsAll(c.rules[3], size);
  }

  /** "mp4" is listed by "Videos" and by none of the photo rules before it. */
  lemma VideoListing(c: Config, ext: string)
    requires c == Default() && ext == "mp4"
    ensures ext !in c.rules[0].extensions && ext !in c.rules[1].extensions
    ensures ext !in c.rules[2].extensions && ext in c.rules[3].extensions
  {
  }

  /** A 100 MB "mp4" goes to "Videos". */
  lemma DefaultVideo(c: Config, ext: string, size: u64)
    requires c == Default() && ext == "mp4" && size == 100 * MB
    ensures ReferenceMatch(c, ext, size) == Some(3)
  {
    VideoCandidates(c, ext, size);
    DefaultFirst(c, ext, size, 3);
    ExampleLower(ext);
    DefaultMatchesFirst(c, ext, size, 3);
  }

  lemma GifUnlisted(c: Config, ext: string, r: nat)
    requires c == Default() && ext == "gif" && r < 6
    ensures ext !in c.rules[r].extensions
  {
  }

  lemma GifScan(c: Config, ext: string, size: u64)
    requires c == Default() && ext == "gif"
    ensures FirstCandidate(c, ext, size, 0) == None
  {
    forall r | 0 <= r < 6 ensures !Candidate(c, ext, size, r) {
      DefaultIndexed(r, ext);
      GifUnlisted(c, ext, r);
    }
    FirstCandidateNone(c, ext, size, 0);
  }

  /** "gif" is an image extension that no default rule lists, and the `["*"]` rule
      is indexed under "*" rather than being a fallback, so nothing matches. */
  lemma DefaultGifUnmatched(c: Config, ext: string, size: u64)
    requires c == Default() && ext == "gif"
    ensures IsSupportedMediaType(ext)
    ensures ReferenceMatch(c, ext, size) == None
  {
    GifScan(c, ext, size);
    ExampleLower(ext);
    DefaultUnmatched(c, ext, size);
  }

  // ------------------------------------------------------------ target paths

  /** The date format `build_path` hands to the expander: the rule's own, else the
      global one. */
  function EffectiveDateFormat(m: RuleMatcher, rule: Rule): string {
    if rule.dateFormat.Some? then rule.dateFormat.value else m.config.global.dateFormat
  }

  /** `build_path`: the rule's template expanded for this file and date, joined to
      `baseDir`, with the file name last. */
  method BuildPath(m: RuleMatcher, rule: Rule, baseDir: Path, extension: string, t: MediaType,
                   d: Date, filename: string, strftime: (Date, string) -> string)
    returns (r: Path)
    ensures |r| > 0 && r[|r| - 1] == filename
    ensures r[..|r| - 1] ==
      JoinStr(baseDir, ReplaceAll(rule.directoryTemplate,
        ExpansionEnv(extension, t, d, FormatDateString(d, EffectiveDateFormat(m, rule), strftime))))
    ensures InertValue(ToUpper(extension)) && InertValue(FormatDateString(d, EffectiveDateFormat(m, rule), strftime)) ==>
      r[..|r| - 1] == JoinStr(baseDir, Subst(rule.directoryTemplate,
        ExpansionEnv(extension, t, d, FormatDateString(d, EffectiveDateFormat(m, rule), strftime))))
  {
    var dateFormat := if rule.dateFormat.Some? then rule.dateFormat.value else m.config.global.dateFormat;
    var expanded := ExpandTemplate(rule.directoryTemplate, extension, t, d, dateFormat, strftime);
    r := JoinStr(baseDir, expanded) + [filename];
    assert r[..|r| - 1] == JoinStr(baseDir, expanded);
  }

  /** `build_target_path`: a source without a file name is an error; without a date,
      or for a rule with no date format of its own, only `{ext}` and `{type}` are
      replaced and date variables stay in the path as written; otherwise the full
      expansion with the rule's date format. The file keeps its name. */
  method BuildTargetPath(m: RuleMatcher, baseDir: Path, source: Path, info: MediaInfo,
                         date: Option<Date>, rule: Rule, strftime: (Date, string) -> string)
    returns (r: Result<Path>)
    ensures r.Err? <==> FileName(source).None?
    ensures r.Err? ==> r.error == "Failed to get filename"
    ensures r.Ok? ==> FileName(r.value) == FileName(source)
    ensures r.Ok? && (date.None? || rule.dateFormat.None?) ==>
      Parent(r.value) == Some(JoinStr(baseDir, PlainTemplate(rule.directoryTemplate, info.extension, info.mediaType)))
    ensures r.Ok? && date.Some? && rule.dateFormat.Some? ==>
      Parent(r.value) == Some(JoinStr(baseDir, ReplaceAll(rule.directoryTemplate,
        ExpansionEnv(info.extension, info.mediaType, date.value,
          FormatDateString(date.value, rule.dateFormat.value, strftime)))))
  {
    var filename := FileName(source);
    if filename.None? {
      return Err("Failed to get filename");
    }
    var name := filename.value;
    if date.None? || rule.dateFormat.None? {
      var template := rule.directoryTemplate;
      template := Replace(template, "{ext}", info.extension);
      template := Replace(template, "{type}", TypeName(info.mediaType));
      var target := JoinStr(baseDir, template) + [name];
      assert target[..|target| - 1] == JoinStr(baseDir, template);
      return Ok(target);
    }
    var target := BuildPath(m, rule, baseDir, info.extension, info.mediaType, date.value, name, strftime);
    return Ok(target);
  }
}
