# MediaClassifier core in Dafny

MediaClassifier sorts photos, videos and audio files into directories named after
their extension and date. This project models its core and proves properties of
that model:

- `media_types.dfy` (module `MediaTypes`): the image, video and audio extension
  tables, and `get_media_info`.
- `config.dfy` (module `Configuration`): the configuration records, `Config::default`,
  and the `FileSize` arithmetic. That arithmetic covers the `parse` regex and its
  unit table, `is_in_range` and `format`.
- `templates.dfy` (module `Templates`): the date rendering of `format_date_string`
  and `format_date`, and the directory-template expander `expand_template`. The
  expander is a sequence of `str::replace` calls. The model proves this sequence
  equals one simultaneous substitution of the template variables.
- `rule_matcher.dfy` (module `RuleMatching`): the extension index built by
  `RuleMatcher::new`, with its alias groups and fallback rule. It also covers the
  first-match-wins `match_file`, the size check, `build_target_path` and
  `build_path`. `match_file` is proved against a reference that scans the rules
  themselves, not the index.
- `filter.dfy` (module `Filter`): the exclusion filter for hidden entries,
  excluded directory names and the wildcard patterns of `match_wildcard`.
  `match_wildcard` is related to an ordinary wildcard language, `Glob`.
- `files.dfy` (module `FileSystems`): the part of `std::fs` the classifier uses.
  This is a `FileSystem` class holding a map from path to node, which is a file
  with a size or a directory. Its operations are `exists`, `metadata().len()`,
  `create_dir_all` and `rename`.
- `conflict.rs` is modelled in module `Conflicts` (`conflict.dfy`):
  - `resolve_conflict`;
  - the loop of `generate_unique_name`, which probes `stem_1.ext`, `stem_2.ext`,
    … up to `stem_999.ext`.
- `classifier.dfy` (module `Classifier`) models `classify_file`,
  `build_target_path`, `is_classified_file` and `move_file`:
  - `build_target_path` and `is_classified_file` only compute, so they are the
    functions `ClassifiedTarget` and `IsClassifiedFile`;
  - `classify_file` and `move_file` change the disk, so they are the module-level
    methods `ClassifyFile` and `MoveFile`. Each takes a `FileSystem` object as an
    argument and is proved against a function of its entries (`Classify` and
    `MoveResult` with `MovedEntries`).

  The central lemma is that classifying never loses a file. The module also
  proves that a second run over a classified file skips it.
- `run.dfy` (module `Run`): the `Statistics` counters and the processing loop of
  `main`, which tallies one outcome per file. It also models the
  `is_media_name_dir` test of the scan.
- `paths.dfy`, `text.dfy` and `wrappers.dfy` hold shared helpers:
  - paths as sequences of components;
  - ASCII case mapping, trimming and decimal digits;
  - `Option` and `Result`.

Some data the source reads from the outside world is passed in as parameters:

- the date the metadata reader finds, given to `Classifier.ClassifyFile` as a
  `Result<Date>`;
- the current directory, given as a `Result<Path>`;
- chrono's rendering of a custom strftime pattern, given as a function.

Where the sources disagree, the model follows the code that uses the data:

- `src/config.rs:41-46` declares the `min` and `max` of a size filter as plain
  strings. `src/rule_matcher.rs:108-125` reads the filter and both bounds as
  optional. The model makes them optional, as the matcher does. An absent bound
  counts as 0, which means "no bound".
- `src/main.rs:23` imports `is_media_extension`, but `src/media_types.rs` does not
  define it. The model takes it to be the union of the three tables.

## Model

Rows whose third column starts with "definition" are functions that model the
cited code directly and carry no contract of their own; they name the lemmas
that state what they compute. Proof helpers have no row.

| member | source | states |
|---|---|---|
| MediaTypes.GetMediaInfo | src/media_types.rs:19-40 | None exactly when the path has no extension or its lower-cased extension is in no table; otherwise the reported type is the one table holding it, and the reported extension is upper-case letters and digits that lower-case back to the looked-up extension |
| MediaTypes.Table | src/media_types.rs:22-36 | definition: the table each media type is looked up in, image, video and audio; `GetMediaInfo` states the lookup |
| MediaTypes.IsImageExtension | src/media_types.rs:43-64 | definition: membership of the literal image table, case-sensitive; `TableExamples` and `TablesDisjoint` state its cases and that it shares no entry with the other tables |
| MediaTypes.IsVideoExtension | src/media_types.rs:67-91 | definition: membership of the literal video table, case-sensitive; `TableExamples` and `TablesDisjoint` state its cases |
| MediaTypes.IsAudioExtension | src/media_types.rs:94-104 | definition: membership of the literal audio table, case-sensitive; `TableExamples` and `TablesDisjoint` state its cases |
| MediaTypes.IsMediaExtension | src/main.rs:23 | definition: the union of the three tables, for the function `src/main.rs` imports but `src/media_types.rs` does not define; `TablesLowerAlnum` states its entries are lower-case letters and digits |
| MediaTypes.TablesDisjoint | src/media_types.rs:43-104 | no extension is in two tables, so the image-video-audio order of the lookup never hides a type |
| MediaTypes.TablesLowerAlnum | src/media_types.rs:43-104 | every table entry is nonempty lower-case letters and digits |
| MediaTypes.TableEntryLower | src/media_types.rs:43-104 | lower-casing leaves every table entry unchanged |
| MediaTypes.TableExamples | src/media_types.rs:110-130 | the unit tests: jpg, nef and cr2 are images, mp4 is not; mp4 and mov are videos, jpg is not; mp3 and flac are audio, jpg is not; the tables are case-sensitive |
| Configuration.Scan | src/config.rs:81-89 | a match of the size pattern is a well-formed literal (digits, optional fraction digits, whitespace, letters) whose text is the whole input |
| Configuration.ScanCompose | src/config.rs:81-89 | every well-formed literal is matched and decomposed back into exactly its parts, so a string matches the pattern exactly when it is the text of a well-formed literal |
| Configuration.ZeroShortcutAgrees | src/config.rs:76-78 | the "0", "0B", "0b" shortcut returns what the general pattern-and-unit rule would return for those strings |
| Configuration.ZeroLiteralShape | src/config.rs:76-89 | the only literals written "0", "0B" or "0b" are the digit zero with no fraction, no gap and unit "", "B" or "b" |
| Configuration.Parse | src/config.rs:73-74 | definition: `parse` trims its argument and hands it to `ParseTrimmed`; `ParseLiteral` and `ParseInteger` state what it returns |
| Configuration.ParseTrimmed | src/config.rs:76-113 | definition: the zero shortcut, then the pattern (else "Invalid size format: …"), then `Evaluate`; `Scan`, `ScanCompose` and `ZeroShortcutAgrees` state which strings take which path |
| Configuration.Multiplier | src/config.rs:91-104 | definition: the unit table, byte units by powers of 1024, bit units an eighth of that, anything else unknown; `ParseInteger` and `ParseUnknownUnitExample` state its use |
| Configuration.Evaluate | src/config.rs:91-112 | definition: an unknown unit is the error "Unknown unit: …", otherwise the scaled value saturated to u64; `ParseLiteral` states it is what parsing a literal's text returns |
| Configuration.ExactBytes | src/config.rs:106-111 | definition: the literal's exact value times the multiplier, or divided by 8 for "b", truncated; `ExactBytesOfInteger` states the integer case |
| Configuration.Saturate | src/config.rs:108-110 | definition: the `as u64` cast of a non-negative value, which saturates at the u64 maximum; `ParseInteger` states the saturated result |
| Configuration.ParseLiteral | src/config.rs:73-113 | parsing the text of a literal (without surrounding whitespace) is evaluating that literal: its unit scaled value, or the unknown-unit error |
| Configuration.ParseInteger | src/config.rs:73-113 | an integer followed directly by a known unit parses to the integer times the unit's multiplier (an eighth of it for "b"), saturated at the u64 maximum |
| Configuration.ExactBytesOfInteger | src/config.rs:106-111 | without a fraction the byte count is the integer times the multiplier, or the integer divided by 8 for "b" |
| Configuration.ParseBytesExample | src/config.rs:350-355 | "100B" is 100 bytes |
| Configuration.ParseBareNumberExample | src/config.rs:350-355 | "100" is 100 bytes |
| Configuration.ParseZeroExample | src/config.rs:350-355 | "0B" is 0 bytes |
| Configuration.ParseKilobyteExample | src/config.rs:358-366 | "1KB" is 1024 bytes |
| Configuration.ParseMegabyteExample | src/config.rs:358-366 | "1MB" is 2^20 bytes |
| Configuration.ParseGigabyteExample | src/config.rs:358-366 | "1GB" is 2^30 bytes |
| Configuration.ParseTerabyteExample | src/config.rs:358-366 | "1TB" is 2^40 bytes |
| Configuration.ParseBitExample | src/config.rs:369-373 | "8b" is 1 byte |
| Configuration.ParseKilobitExample | src/config.rs:369-373 | "1Kb" is 128 bytes |
| Configuration.ParseMegabitExample | src/config.rs:369-373 | "1Mb" is 128 * 1024 bytes |
| Configuration.ParseFractionExample | src/config.rs:376-380 | "1.5MB" is 1572864 bytes, the truncated product 1.5 * 2^20 |
| Configuration.ParseUnknownUnitExample | src/config.rs:91-104 | units are case-sensitive: "5kB" is the error "Unknown unit: kB" |
| Configuration.InRangeMeaning | src/config.rs:116-120 | with two nonzero bounds the range is the inclusive interval; a zero bound does not restrict its side; two zero bounds accept every size, the empty file included |
| Configuration.IsInRange | src/config.rs:116-120 | definition: both bounds inclusive, a bound of 0 not restricting; `InRangeMeaning` states the interval it accepts |
| Configuration.Format | src/config.rs:123-144 | 0 renders as "∞"; a size n with 0 < n < 1024 renders as the text "{n}B"; larger sizes render with two decimals in the largest unit not above the size |
| Configuration.FormatParseRoundTrip | src/config.rs:141-142 | a sub-kilobyte size renders as its decimal digits, without a leading zero, followed by "B", and that text parses back to the same size |
| Configuration.Default | src/config.rs:174-316 | definition: the default configuration, transcribed; `DefaultShape`, `RuleMatching.DefaultSizes` and `RuleMatching.DefaultIndexed` state its content |
| Configuration.DefaultShape | src/config.rs:174-316 | the default configuration has six enabled rules in a fixed order, three alias groups, hidden files excluded and "YYYYMMDD" as the global date format |
| Templates.ParseDateFormat | src/rule_matcher.rs:237-251 | the format is trimmed first; a known token is recognised by its exact text and anything else is kept, trimmed, as a custom pattern |
| Templates.TokenRoundTrip | src/rule_matcher.rs:240-250 | every known token is recognised back from its own text |
| Templates.FormatDate | src/rule_matcher.rs:240-251 | definition: the rendering of each known token from `%Y`, `%m` and `%d`, and a custom pattern through `strftime`; `FormatDateStringExamples` and `CompactTokenAgrees` state its values |
| Templates.FormatDateString | src/rule_matcher.rs:237-254 | definition: `format_date_string` is `FormatDate` of `ParseDateFormat` of the format; `ParseDateFormat` states how the format is read |
| Templates.CompactDate | src/metadata.rs:94-96 | definition: `format_date`, the `%Y%m%d` name of a date directory; `CompactDateDigits` and `CompactDateInjective` state what the name is |
| Templates.ZeroPadDigits | src/rule_matcher.rs:224-227 | a zero-padded number below 10^w is exactly w digits that read back as the number (the `%m` and `%d` fields) |
| Templates.CompactDateDigits | src/metadata.rs:94-96 | the `%Y%m%d` name of a date with a four-digit year is eight digits that read back as year, month and day |
| Templates.CompactDateInjective | src/metadata.rs:94-96 | two dates with four-digit years share a date directory name only if they are equal |
| Templates.CompactTokenAgrees | src/rule_matcher.rs:243 | the "YYYYMMDD" token renders exactly as `format_date` does |
| Templates.FindBinding | src/rule_matcher.rs:207-233 | the binding found is one whose variable starts the text, and none is found only when no variable starts it |
| Templates.ReplaceAllSubst | src/rule_matcher.rs:207-233 | with distinct variables bound to inert values, the sequence of `replace` calls equals one simultaneous left-to-right substitution, so their order does not matter |
| Templates.ReplaceSubst | src/rule_matcher.rs:207-233 | replacing one more variable in a substituted text is substituting it together with the others: a value already in place is never rescanned |
| Templates.SubstNoCloser | src/rule_matcher.rs:207-233 | substitution never produces the tail of a variable that the template did not already hold at that point |
| Templates.ExpandTemplate | src/rule_matcher.rs:200-234 | `expand_template` replaces `{type}`, `{ext}` (upper-cased), `{year}`, `{month}`, `{day}` and `{date}` in that order; when the extension and the formatted date are inert, the result is their simultaneous substitution |
| Templates.ExpansionEnvWellFormed | src/rule_matcher.rs:209-231 | the six variables are distinct placeholders, and their values are inert once the extension and the formatted date are |
| Templates.TypeName | src/rule_matcher.rs:210-214 | definition: the directory name of each media type, "Image", "Video" or "Audio"; `ExpandTypeYearExample` states its use |
| Templates.KnownFormatInert | src/rule_matcher.rs:240-248 | every known date token renders to an inert value, so it can stand in for `{date}` |
| Templates.PlainTemplateSubst | src/rule_matcher.rs:153-162 | without a date, the two replacements of `build_target_path` are one simultaneous substitution of `{ext}` and `{type}` |
| Templates.PlainKeepsDateVariables | src/rule_matcher.rs:152-163 | without a date, `{year}`, `{month}`, `{day}` and `{date}` stay in the path as written |
| Templates.DateFieldsExample | src/rule_matcher.rs:263 | on 2025-11-18, `%Y`, `%m`, `%d` give "2025", "11", "18" and `format_date` gives "20251118" |
| Templates.FormatDateStringExamples | src/rule_matcher.rs:261-277 | the `format_date_string` test: YYYY, YYYYMM, YYYYMMDD, YYYY/MM, YYYY/MM/DD and YYYY-MM-DD on 2025-11-18 |
| Templates.ExpandExtDateExample | src/rule_matcher.rs:283-285 | "{ext}/{date}" with "jpg" and YYYYMMDD expands to "JPG/20251118" |
| Templates.ExpandYearMonthExample | src/rule_matcher.rs:287-295 | "Photos/{year}/{month}" expands to "Photos/2025/11" |
| Templates.ExpandTypeYearExample | src/rule_matcher.rs:297-299 | "{type}/{year}" for a video expands to "Video/2025" |
| Templates.PlainTemplateExample | src/rule_matcher.rs:152-163 | with no date, "{ext}/{date}" becomes "JPG/{date}" |
| RuleMatching.New | src/rule_matcher.rs:18-76 | the built index is valid: each list is nonempty and in declaration order; a rule is listed under a key exactly when it is enabled, not the fallback, and the key is the lower-cased form of one of its extensions or a member of the first alias group holding one; the fallback is the last enabled rule whose name contains "default" and that has no extensions |
| RuleMatching.FindAliasGroup | src/rule_matcher.rs:53-67 | the alias loop with its `break` finds the first group holding the extension, ignoring ASCII case |
| RuleMatching.AddAliases | src/rule_matcher.rs:56-64 | the rule is added to the list of each group member's lower-case form and to nothing else, the order being kept |
| RuleMatching.IndexExtension | src/rule_matcher.rs:43-67 | one extension registers its rule under its own lower-case form and under the members of its first alias group, and nowhere else |
| RuleMatching.IndexRule | src/rule_matcher.rs:43-68 | a rule is registered under exactly the keys of the extensions it lists |
| RuleMatching.LastFallback | src/rule_matcher.rs:28-40 | the chosen fallback is a fallback rule and no later rule is one; none is chosen only when no rule is one |
| RuleMatching.FirstGroup | src/rule_matcher.rs:53-66 | the group chosen holds the extension and no earlier group does; none is chosen only when no group holds it |
| RuleMatching.MatchFile | src/rule_matcher.rs:85-104 | `match_file` returns the earliest-declared enabled rule registered under the lower-cased extension whose size check passes; failing that, the fallback for a known media extension; otherwise nothing |
| RuleMatching.FindMatchingRule | src/rule_matcher.rs:80-82 | `find_matching_rule` answers as `match_file` does |
| RuleMatching.BoundOf | src/rule_matcher.rs:109-125 | definition: an absent bound is 0, a present one is parsed; `SizeMatchesMeaning` states the effect of a bound that does not parse |
| RuleMatching.SizeMatches | src/rule_matcher.rs:107-131 | definition: `check_file_size_match`; `SizeMatchesMeaning` and `SizeMatchesBounds` state which sizes it accepts |
| RuleMatching.IsSupportedMediaType | src/rule_matcher.rs:134-138 | definition: the extension is in one of the three tables; `MatchMeaning` states that only such an extension reaches the fallback |
| RuleMatching.FirstCandidate | src/rule_matcher.rs:90-97 | the candidate found accepts the size and no earlier rule is a candidate; none is found only when no rule is a candidate |
| RuleMatching.ScanFindsFirst | src/rule_matcher.rs:90-97 | in a list kept in declaration order, the first entry whose size check passes is the earliest-declared candidate among all rules |
| RuleMatching.ScanFindsNone | src/rule_matcher.rs:90-97 | a list none of whose rules passes leaves no candidate among all rules |
| RuleMatching.MatchMeaning | src/rule_matcher.rs:85-104 | first match wins: the answer is the earliest candidate, or, when there is none, the fallback for a supported media extension, or nothing |
| RuleMatching.SizeMatchesMeaning | src/rule_matcher.rs:107-131 | no filter or no bounds accepts every size; a bound that does not parse rejects the file; two parsed nonzero bounds form an inclusive interval |
| RuleMatching.SizeMatchesBounds | src/rule_matcher.rs:107-131 | a filter with two bounds that parse accepts exactly the sizes in their range |
| RuleMatching.DisabledNeverListed | src/rule_matcher.rs:24-26 | a disabled rule is in no list and is never the fallback |
| RuleMatching.AliasSymmetry | src/rule_matcher.rs:52-67 | a rule listing an extension is registered under every member of the first alias group holding it, whatever the member's case |
| RuleMatching.RuleKeysBound | src/rule_matcher.rs:43-67 | every key a rule is registered under is the lower-cased form of one of its extensions or a member of an alias group holding one |
| RuleMatching.DefaultSizes | src/config.rs:190-276 | in the default rules, "High Quality Photos" wants at least 5 MB, "Thumbnails" at most 5 MB, and the others take any size |
| RuleMatching.DefaultIndexed | src/config.rs:185-297 | in the default configuration a rule is registered under exactly the extensions it lists |
| RuleMatching.DefaultHasNoFallback | src/config.rs:269-280 | no default rule has an empty extension list, so the default configuration has no fallback |
| RuleMatching.DefaultLargeJpeg | src/rule_matcher.rs:307-310 | a 10 MB "jpg" matches "High Quality Photos" |
| RuleMatching.DefaultSmallJpeg | src/rule_matcher.rs:312-315 | a 1 MB "jpg" matches "Thumbnails" |
| RuleMatching.DefaultRawPhoto | src/rule_matcher.rs:317-320 | a 20 MB "nef" matches "RAW Photos" |
| RuleMatching.DefaultVideo | src/rule_matcher.rs:322-325 | a 100 MB "mp4" matches "Videos" |
| RuleMatching.DefaultGifUnmatched | src/rule_matcher.rs:28-40 | "gif" is a supported image extension, yet no default rule matches it: the `["*"]` "Default" rule is indexed under "*" and is not a fallback |
| RuleMatching.BuildPath | src/rule_matcher.rs:178-196 | the path is the base joined with the expanded template, then the file name; the rule's date format is used, or else the global one |
| RuleMatching.EffectiveDateFormat | src/rule_matcher.rs:188-191 | definition: the rule's date format, or else the global one; `BuildPath` states that the expansion uses it |
| RuleMatching.BuildTargetPath | src/rule_matcher.rs:141-175 | a source without a file name is the error "Failed to get filename"; without a date or a rule date format, only `{ext}` and `{type}` are replaced; otherwise the full expansion is used; the file keeps its name |
| Filter.MatchesExcludePattern | src/filter.rs:79-84 | a name is matched exactly when some pattern of the list matches it |
| Filter.ListedDirectory | src/filter.rs:37-45 | a directory name is listed exactly when some excluded name equals it, ignoring ASCII case |
| Filter.MatchWildcard | src/filter.rs:89-116 | definition: `match_wildcard`, branch by branch; `MatchWildcardIsGlob`, `InteriorStarMatchesNothing` and `DoubleStarIsLiteralSuffix` state which names each pattern shape matches |
| Filter.ShouldExcludeFile | src/filter.rs:53-70 | definition: `should_exclude_file`; `ExcludeFileMeaning` states which files it excludes |
| Filter.ShouldExcludeDir | src/filter.rs:25-46 | definition: `should_exclude_dir`; `ExcludeEntryMeaning`, `ExcludeDirIgnoresCase` and `ExcludeDirMonotone` state which directories it excludes |
| Filter.ShouldExcludeEntry | src/filter.rs:121-127 | definition: `should_exclude_entry` dispatches on whether the entry is a directory; `ExcludeEntryMeaning` states the result |
| Filter.MatchWildcardIsGlob | src/filter.rs:89-116 | where every `*` is first or last and the pattern is not "**", `match_wildcard` is the ordinary wildcard language, ignoring ASCII case |
| Filter.GlobPrefix | src/filter.rs:110-113 | `w*` matches exactly the texts starting with `w` |
| Filter.GlobSuffix | src/filter.rs:105-108 | `*w` matches exactly the texts ending with `w` |
| Filter.GlobInfix | src/filter.rs:99-103 | `*w*` matches exactly the texts containing `w` |
| Filter.GlobLiteral | src/filter.rs:94-97 | a pattern without `*` matches itself and nothing else |
| Filter.InteriorStarMatchesNothing | src/filter.rs:115 | a pattern whose stars are all interior matches no name |
| Filter.DoubleStarIsLiteralSuffix | src/filter.rs:100-108 | "**" is taken as a suffix pattern and matches only names ending in a literal star, although the wildcard language matches every name |
| Filter.ExcludeFileMeaning | src/filter.rs:53-70 | with patterns of the supported shapes, a file is excluded exactly when it is hidden and hidden files are excluded, or its name is matched by some pattern; a path without a file name is kept |
| Filter.ExcludeEntryMeaning | src/filter.rs:121-127 | a directory is excluded exactly when it is hidden and hidden entries are excluded, or its name is listed up to ASCII case; a file is judged by its name and patterns only; the directory test never excludes a file |
| Filter.ExcludeDirIgnoresCase | src/filter.rs:25-46 | two directory names that lower-case alike are excluded alike, through both the hidden test and the listed names |
| Filter.ExcludeDirMonotone | src/filter.rs:37-45 | listing more directories keeps every directory excluded before and also excludes the new names, up to ASCII case |
| Filter.SuffixExamples | src/filter.rs:147-149 | "*.tmp" matches "file.tmp" and "FILE.TMP" but not "file.txt" |
| Filter.ExactExamples | src/filter.rs:151-153 | "desktop.ini" matches "desktop.ini" and "Desktop.ini" but not "desktop.txt" |
| Filter.PrefixExamples | src/filter.rs:157-164 | "temp*" matches "temp.txt" and "temporary" but not "test" |
| Filter.MiddleExamples | src/filter.rs:167-175 | "*cache*" matches "my_cache_file", "cache" and "test_cache" but not "test" |
| Filter.ExcludePatternExamples | src/filter.rs:178-191 | the four test patterns exclude "file.tmp", "backup.bak", "desktop.ini" and "Thumbs.db" but not "important.txt" |
| Filter.HiddenFileExamples | src/filter.rs:194-201 | with hidden files excluded, ".hidden" and ".DS_Store" are excluded and "visible.txt" is not |
| FileSystems.MetadataLength | src/conflict.rs:28-34 | `metadata` succeeds exactly for an existing path, and gives a file's size for a file |
| FileSystems.FileSystem.Exists | src/conflict.rs:22 | definition: `Path::exists`, the path is an entry of the disk; `ResolutionMeaning` states its use |
| FileSystems.FileSystem.Length | src/conflict.rs:28-34 | definition: `metadata().len()` on the disk, as `MetadataLength` states |
| FileSystems.FileSystem.CreateDirAll | src/classifier.rs:141-143 | `create_dir_all` succeeds unless a regular file stands where a directory must go; on success the path and all its ancestors are directories, on failure nothing changes |
| FileSystems.FileSystem.Rename | src/classifier.rs:146 | `rename` of a file succeeds when the destination's parent is a directory and the destination is not one; it moves the node and replaces a file already there; on failure nothing changes |
| FileSystems.WithDirectoriesValid | src/classifier.rs:141-143 | creating directories keeps the tree well formed and keeps every file and its size |
| FileSystems.RenamedValid | src/classifier.rs:146 | a rename keeps the tree well formed, puts the source's node at the destination, removes the source and leaves every other file as it was |
| Conflicts.FirstFree | src/conflict.rs:66-77 | the suffix found is free and every smaller suffix tried is taken; none is found only when every suffix up to 999 is taken |
| Conflicts.NumberedName | src/conflict.rs:67-71 | definition: `stem_i.ext`, or `stem_i` without an extension; `UniqueNameProgression` states its values |
| Conflicts.UniqueName | src/conflict.rs:57-80 | no parent or no stem is its own error; otherwise the result is a free name beside the target using the smallest free suffix from 1 to 999, or the "after 1000 attempts" error when all are taken |
| Conflicts.GenerateUniqueName | src/conflict.rs:57-80 | the probing loop returns what `UniqueName` specifies |
| Conflicts.ResolveConflict | src/conflict.rs:20-53 | `resolve_conflict` reads the disk, changes nothing and returns `Resolution` |
| Conflicts.Resolution | src/conflict.rs:20-53 | definition: `resolve_conflict` as a function of the disk; `ResolutionMeaning` states its cases |
| Conflicts.SkipReason | src/conflict.rs:38-41 | definition: the skip message with the size and the target path; the path is quoted without `{:?}` escaping |
| Conflicts.ResolutionMeaning | src/conflict.rs:20-53 | an absent target gives NoConflict with that target; an existing one is skipped exactly when both exist with equal metadata length; a rename gives a different free path in the same directory; a missing source is an error |
| Conflicts.UniqueNameProgression | src/conflict.rs:88-106 | beside an existing "test.jpg" the unique name is "test_1.jpg"; once that exists too, it is "test_2.jpg" |
| Classifier.ClassifiedShape | src/classifier.rs:114-136 | a path is classified exactly when it has at least three components, its parent is eight ASCII digits and its grandparent is upper-case letters and digits |
| Classifier.IsClassifiedFile | src/classifier.rs:114-136 | definition: `is_classified_file`; `ClassifiedShape` states which paths it accepts |
| Classifier.ClassifiedTarget | src/classifier.rs:93-110 | definition: `build_target_path`, with its two errors; `TargetLayout` states the destination and that it is classified |
| Classifier.TargetLayout | src/classifier.rs:93-110 | with a four-digit year the destination is `cwd/EXT/YYYYMMDD/name`, and it is itself classified |
| Classifier.ClassifiedExamples | src/classifier.rs:155-165 | the `is_classified_file` test: the JPG and NEF dated paths are classified and "/home/user/photos/photo.jpg" is not |
| Classifier.MoveFile | src/classifier.rs:139-149 | `move_file` creates the destination's directories and then renames, reporting either failure; directories it created stay even if the rename fails |
| Classifier.WithTargetDirectory | src/classifier.rs:141-143 | definition: the disk after `create_dir_all` of the destination's parent, unchanged when it fails |
| Classifier.MoveResult | src/classifier.rs:139-149 | definition: what `move_file` returns, the directory error before the rename error; `MoveMeaning` states when it succeeds |
| Classifier.MovedEntries | src/classifier.rs:139-149 | definition: the disk `move_file` leaves; `MovedEntriesKeepFiles` states that no file is lost |
| Classifier.MoveMeaning | src/classifier.rs:139-149 | a file moves to a free destination whenever no file blocks its directories: the destination holds the file, the source is gone, and every other file is unchanged |
| Classifier.MovedEntriesKeepFiles | src/classifier.rs:139-149 | whatever `move_file` does, the tree stays well formed; on success exactly the source's file moves; on failure every file is as it was |
| Classifier.ClassifyFile | src/classifier.rs:24-90 | `classify_file` leaves the result and disk given by `Classify`: not a media file or no date gives Failed; a classified source is Skipped; otherwise the conflict decides between Success, Skipped and Renamed, and I/O errors propagate |
| Classifier.Classify | src/classifier.rs:24-59 | definition: `classify_file` as a function of the disk, the date and the working directory, in the source's order of checks; `ClassifyKeepsFiles`, `ClassifyMovesWhenFree` and `ClassifiedSkipped` state its outcomes |
| Classifier.Placement | src/classifier.rs:60-89 | definition: resolve the conflict at the destination, then move, skip or move to the renamed path; `ClassifyKeepsFiles` and `SuccessIsClassified` state its outcomes |
| Classifier.ClassifyKeepsFiles | src/classifier.rs:24-90 | classifying never loses a file: a move takes the source to a previously free destination and leaves every other file as it was; every other outcome leaves all files as they were |
| Classifier.ClassifyMovesWhenFree | src/classifier.rs:50-69 | an unclassified media file moves to `cwd/EXT/YYYYMMDD/name` when that place is free and no file blocks its directories |
| Classifier.ClassifyAgainSkips | src/classifier.rs:52-57 | after a successful move, classifying the moved file again with any date and directory skips it and changes nothing |
| Classifier.SuccessIsClassified | src/classifier.rs:60-69 | a successful move puts the file in the classified layout under its own name |
| Classifier.ClassifiedSkipped | src/classifier.rs:52-57 | a media file already in the classified layout is skipped whatever the date and directory, and the disk is left as it was |
| Run.Statistics.constructor | src/main.rs:60-62 | every counter starts at zero |
| Run.Statistics.Record | src/main.rs:64-71 | recording raises exactly the counter of the result's variant, so the total grows by one |
| Run.Statistics.Total | src/main.rs:88-90 | definition: the sum of the four counters; `Record` and `Tally` state how it grows |
| Run.KindOf | src/main.rs:164-210 | definition: the counter an outcome raises, an error counting as a failure; `Tally` states the counts |
| Run.Count | src/main.rs:161-212 | definition: how many outcomes are of one kind; `CountsPartition` states that the kinds partition the outcomes |
| Run.Tally | src/main.rs:159-212 | after the loop each counter is the number of outcomes of its kind, with an error counted as a failure, and the total is the number of files |
| Run.CountsPartition | src/main.rs:88-90 | every outcome is of exactly one kind, so the four counts add up to the number of outcomes |
| Run.ExtensionDirectoriesSkipped | src/main.rs:271-281 | the extension directory the classifier creates for a media file is a directory the scan does not enter |
| Run.IsMediaNameDir | src/main.rs:271-281 | definition: a directory whose lower-cased name is a media extension; `MediaNameDirExamples` and `ExtensionDirectoriesSkipped` state its cases |
| Run.MediaNameDirExamples | src/main.rs:271-281 | the name test ignores ASCII case ("JPG", "mp4"); a file is never skipped as a media-named directory; "Photos" is not a media name |

## Left out

- Reading metadata is out of scope: EXIF dates, file modification times and the
  date fallback of `src/metadata.rs`. The date is a `Result<Date>` parameter of
  `Classifier.ClassifyFile`. `src/metadata.rs` is not part of this model apart
  from `format_date`.
- The current directory is a `Result<Path>` parameter.
- chrono's rendering of a custom strftime pattern is a function parameter.
- Time zones and times of day are not modelled: a date is year, month and day.
- Logging, progress output and `print_summary` are left out.
- The command line and the YAML loading and saving of the configuration are left
  out.
- `remove_empty_dirs` (`src/utils.rs`) is not part of this model.
- The `WalkDir` traversal of `scan_media_files` is left out: the depth limits,
  the symlink handling and the order of entries. Its entry test is modelled:
  `Filter.ShouldExcludeEntry` and `Run.IsMediaNameDir`.
- `classify_file_with_config` is not part of this model. `Run.Tally` takes the
  per-file outcomes as its input.
- The disk holds regular files and directories only. Symlinks, permissions and
  cross-device renames are not modelled.
- Moving a directory with `rename` is modelled as a failure.
- The skip message of `resolve_conflict` (`Conflicts.SkipReason`) prints the
  target path between plain quotes. The source prints it with `{:?}`, which also
  escapes quotes, backslashes and control characters. `classify_file` discards
  the message, so only log text differs.
- Configuration.ParseLiteral: evaluates a fractional literal exactly and then
  truncates, where the source multiplies as `f64`. All multipliers are powers of
  two, so only `f64` parsing of very long or very large numbers can round
  differently.
- Configuration.Format: the two-decimal float text is represented, not rendered,
  because `f64` formatting is not modelled.
- `usize` overflow of the `Statistics` counters is not modelled. The counters
  are unbounded naturals.
- Case mapping, `eq_ignore_ascii_case`, `to_lowercase` and `trim` are modelled on
  ASCII only. Non-ASCII letters and Unicode whitespace are outside the model.
- `extension_aliases` is a `HashMap`, whose iteration order is unspecified. The
  model is a sequence of groups, and "the first group holding an extension" is
  taken in that order.
- RuleMatching.New: the valid index pins down which rules each list holds and
  their order, not how many times a rule appears. A rule that lists two
  spellings of one extension is pushed twice by the source.
- RuleMatching.AddAliases: states which lists hold the rule afterwards, not that
  the alias pushes skip a list already holding it. The direct push before them
  does not check, so lists can repeat a rule either way.
- The global date format of `build_path` is modelled, but it is never reached
  from `build_target_path`. That function only calls `build_path` when the rule
  has a date format of its own.
- The default rule lists `["*"]`, so it is indexed under the key "*" and is
  never a fallback. The model keeps this behaviour:
  `RuleMatching.DefaultGifUnmatched` shows that a supported extension no rule
  lists ("gif") matches nothing.
- Filter.MatchWildcardIsGlob: covers patterns with stars only at the ends,
  other than "**". For "**" and for patterns with interior stars, `match_wildcard`
  differs from the wildcard language. `Filter.DoubleStarIsLiteralSuffix` and
  `Filter.InteriorStarMatchesNothing` state what happens there.
- Classifier.ClassifyAgainSkips: covers a first run that ends in Success. A
  Renamed file carries a numbered name, and is covered only by the general
  `Classifier.ClassifiedSkipped`.
- The descriptions in `Config::default` are not modelled. They are display text
  that no operation reads.
