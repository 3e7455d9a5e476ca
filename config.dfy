/** The configuration data of `src/config.rs`: rules, alias groups, exclusion
    settings, and the `FileSize` arithmetic (parsing, range check, display). */
module Configuration {
  import opened Wrappers
  import opened Text

  const U64Max: nat := 0xFFFF_FFFF_FFFF_FFFF

  type u64 = x: nat | x <= U64Max

  /** A normalised byte count; 0 doubles as "unbounded" when used as a bound. */
  datatype FileSize = FileSize(bytes: u64)

  /** `min` and `max` are size expressions such as "5MB"; an absent bound is 0. */
  datatype FileSizeFilter = FileSizeFilter(min: Option<string>, max: Option<string>)

  datatype Rule = Rule(
    name: string,
    description: string,
    extensions: seq<string>,
    fileSize: Option<FileSizeFilter>,
    directoryTemplate: string,
    dateFormat: Option<string>,
    enabled: bool)

  /** One entry of `extension_aliases`: a key and the interchangeable extensions. */
  datatype AliasGroup = AliasGroup(key: string, extensions: seq<string>)

  datatype GlobalConfig = GlobalConfig(
    dateFormat: string,
    directoryTemplate: string,
    cleanEmptyDirs: bool,
    fileSize: FileSizeFilter)

  datatype ExcludeConfig = ExcludeConfig(hiddenFiles: bool, directories: seq<string>, patterns: seq<string>)

  /** `extension_aliases` is a hash map in the source; here its iteration order is
      the order of this sequence. */
  datatype Config = Config(
    global: GlobalConfig,
    rules: seq<Rule>,
    extensionAliases: seq<AliasGroup>,
    exclude: ExcludeConfig)

  // ---------------------------------------------------------------- parsing

  const KB: nat := 1024
  const MB: nat := 1024 * 1024
  const GB: nat := 1024 * 1024 * 1024
  const TB: nat := 1024 * 1024 * 1024 * 1024

  /** The unit table of `FileSize::parse`. Byte units scale by powers of 1024; bit
      units by an eighth of that ("b" itself is divided by 8 separately). */
  function Multiplier(unit: string): Option<nat> {
    if unit == "B" || unit == "" then Some(1)
    else if unit == "KB" then Some(KB)
    else if unit == "MB" then Some(MB)
    else if unit == "GB" then Some(GB)
    else if unit == "TB" then Some(TB)
    else if unit == "b" then Some(1)
    else if unit == "Kb" || unit == "kb" then Some(128)
    else if unit == "Mb" || unit == "mb" then Some(128 * 1024)
    else if unit == "Gb" || unit == "gb" then Some(128 * 1024 * 1024)
    else if unit == "Tb" || unit == "tb" then Some(128 * 1024 * 1024 * 1024)
    else None
  }

  /** A match of `^(\d+(?:\.\d+)?)\s*([A-Za-z]*)$`: integer digits, fraction digits
      (empty when there is no '.'), the whitespace gap, and the unit letters. */
  datatype SizeLiteral = SizeLiteral(whole: string, frac: string, gap: string, unit: string)

  predicate AllWhitespace(s: string) { forall i :: 0 <= i < |s| ==> IsWhitespace(s[i]) }

  predicate WellFormedLiteral(q: SizeLiteral) {
    |q.whole| > 0 && AllDigits(q.whole) && AllDigits(q.frac) && AllWhitespace(q.gap) && AllLetters(q.unit)
  }

  /** The text a literal is written as. */
  function Compose(q: SizeLiteral): string {
    q.whole + (if q.frac == "" then "" else "." + q.frac) + q.gap + q.unit
  }

  /** Matches the size pattern against an (already trimmed) string. */
  function Scan(s: string): (r: Option<SizeLiteral>)
    ensures r.Some? ==> WellFormedLiteral(r.value) && Compose(r.value) == s
  {
    var whole := TakeWhile(s, IsAsciiDigit);
    if |whole| == 0 then None else ScanAfterWhole(whole, s[|whole|..], s)
  }

  /** The optional `(?:\.\d+)` group. */
  function ScanAfterWhole(whole: string, rest: string, ghost s: string): (r: Option<SizeLiteral>)
    requires |whole| > 0 && AllDigits(whole) && s == whole + rest
    ensures r.Some? ==> WellFormedLiteral(r.value) && Compose(r.value) == s
  {
    if |rest| > 0 && rest[0] == '.' then
      assert rest == "." + rest[1..];
      ScanFraction(whole, rest[1..], s)
    else ScanUnit(whole, "", rest, s)
  }

  function ScanFraction(whole: string, afterDot: string, ghost s: string): (r: Option<SizeLiteral>)
    requires |whole| > 0 && AllDigits(whole) && s == whole + ("." + afterDot)
    ensures r.Some? ==> WellFormedLiteral(r.value) && Compose(r.value) == s
  {
    var frac := TakeWhile(afterDot, IsAsciiDigit);
    assert afterDot == frac + afterDot[|frac|..];
    if |frac| == 0 then None else ScanUnit(whole, frac, afterDot[|frac|..], s)
  }

  /** The `\s*([A-Za-z]*)$` tail of the pattern. */
  function ScanUnit(whole: string, frac: string, rest: string, ghost s: string): (r: Option<SizeLiteral>)
    requires |whole| > 0 && AllDigits(whole) && AllDigits(frac)
    requires s == whole + (if frac == "" then "" else "." + frac) + rest
    ensures r.Some? ==> WellFormedLiteral(r.value) && Compose(r.value) == s
  {
    var gap := TakeWhile(rest, IsWhitespace);
    var unit := rest[|gap|..];
    assert rest == gap + unit;
    if AllLetters(unit) then Some(SizeLiteral(whole, frac, gap, unit)) else None
  }

  /** The exact value of the literal's number scaled by its unit, truncated toward
      zero. `whole.frac` is `(whole * 10^|frac| + frac) / 10^|frac|`. */
  function ExactBytes(q: SizeLiteral, m: nat): nat
    requires WellFormedLiteral(q)
  {
    DigitsConcat(q.whole, q.frac);
    var n := DigitsValue(q.whole + q.frac);
    var d := Pow10(|q.frac|);
    if q.unit == "b" then n / d / 8 else n * m / d
  }

  lemma DigitsConcat(a: string, b: string)
    requires AllDigits(a) && AllDigits(b)
    ensures AllDigits(a + b)
  {
    forall i | 0 <= i < |a + b| ensures IsAsciiDigit((a + b)[i]) {
      if i >= |a| { assert (a + b)[i] == b[i - |a|]; }
    }
  }

  /** `as u64` on a float saturates at the largest u64. */
  function Saturate(x: nat): u64 {
    if x > U64Max then U64Max else x
  }

  /** `FileSize::parse`: surrounding whitespace is ignored. */
  function Parse(sizeStr: string): Result<FileSize> {
    ParseTrimmed(Trim(sizeStr))
  }

  /** "0", "0B" and "0b" are zero outright; anything else must match the pattern. */
  function ParseTrimmed(s: string): Result<FileSize> {
    if s == "0" || s == "0B" || s == "0b" then Ok(FileSize(0))
    else match Scan(s)
      case None => Err("Invalid size format: " + s)
      case Some(q) => Evaluate(q)
  }

  /** The value of a matched literal: its unit must be in the table. */
  function Evaluate(q: SizeLiteral): Result<FileSize>
    requires WellFormedLiteral(q)
  {
    match Multiplier(q.unit)
    case None => Err("Unknown unit: " + q.unit)
    case Some(m) => Ok(FileSize(Saturate(ExactBytes(q, m))))
  }

  // ------------------------------------------------------- parsing lemmas

  lemma {:induction false} TakeWhileOfPrefix(a: string, b: string, p: char -> bool)
    requires AllChars(a, p)
    requires |b| == 0 || !p(b[0])
    ensures TakeWhile(a + b, p) == a
    decreases |a|
  {
    if |a| > 0 {
      assert (a + b)[1..] == a[1..] + b;
      TakeWhileOfPrefix(a[1..], b, p);
    }
  }

  /** Every well-formed literal is recognised, and decomposed back into its parts:
      with the `ensures` of `Scan`, a string matches the size pattern exactly when
      it is the text of a well-formed literal. */
  lemma ScanCompose(q: SizeLiteral)
    requires WellFormedLiteral(q)
    ensures Scan(Compose(q)) == Some(q)
  {
    ScanUnitOfTail(q);
    if q.frac == "" { ScanComposeWhole(q); } else { ScanComposeFraction(q); }
  }

  lemma ScanComposeWhole(q: SizeLiteral)
    requires WellFormedLiteral(q) && q.frac == ""
    requires ScanUnit(q.whole, q.frac, q.gap + q.unit, Compose(q)) == Some(q)
    ensures Scan(Compose(q)) == Some(q)
  {
    TailStart(q);
    WholeThenTail(q);
    ScanWholeOnly(q.whole, q.gap + q.unit);
  }

  lemma WholeThenTail(q: SizeLiteral)
    requires q.frac == ""
    ensures Compose(q) == q.whole + (q.gap + q.unit)
  {
  }

  lemma ScanComposeFraction(q: SizeLiteral)
    requires WellFormedLiteral(q) && q.frac != ""
    requires ScanUnit(q.whole, q.frac, q.gap + q.unit, Compose(q)) == Some(q)
    ensures Scan(Compose(q)) == Some(q)
  {
    var tail := q.gap + q.unit;
    var s := Compose(q);
    TailStart(q);
    assert s == q.whole + ("." + (q.frac + tail));
    ScanOfDot(q.whole, q.frac + tail, s);
    ScanFractionOf(q.whole, q.frac, tail, s);
  }

  /** What follows the number cannot continue it. */
  lemma TailStart(q: SizeLiteral)
    requires WellFormedLiteral(q)
    ensures var tail := q.gap + q.unit;
      |tail| == 0 || (!IsAsciiDigit(tail[0]) && tail[0] != '.')
  {
    if |q.gap| > 0 {
      assert (q.gap + q.unit)[0] == q.gap[0];
    } else if |q.unit| > 0 {
      assert (q.gap + q.unit)[0] == q.unit[0];
    }
  }

  lemma ScanOfDot(whole: string, afterDot: string, s: string)
    requires |whole| > 0 && AllDigits(whole) && s == whole + ("." + afterDot)
    ensures Scan(s) == ScanFraction(whole, afterDot, s)
  {
    assert AllChars(whole, IsAsciiDigit);
    TakeWhileOfPrefix(whole, "." + afterDot, IsAsciiDigit);
    assert s[|whole|..] == "." + afterDot;
    assert ("." + afterDot)[1..] == afterDot;
  }

  lemma ScanFractionOf(whole: string, frac: string, tail: string, s: string)
    requires |whole| > 0 && AllDigits(whole) && |frac| > 0 && AllDigits(frac)
    requires |tail| == 0 || !IsAsciiDigit(tail[0])
    requires s == whole + ("." + (frac + tail))
    ensures ScanFraction(whole, frac + tail, s) == ScanUnit(whole, frac, tail, s)
  {
    assert AllChars(frac, IsAsciiDigit);
    TakeWhileOfPrefix(frac, tail, IsAsciiDigit);
    assert (frac + tail)[|frac|..] == tail;
  }

  lemma ScanUnitOfTail(q: SizeLiteral)
    requires WellFormedLiteral(q)
    ensures TakeWhile(q.gap + q.unit, IsWhitespace) == q.gap
    ensures (q.gap + q.unit)[|q.gap|..] == q.unit
  {
    assert AllChars(q.gap, IsWhitespace);
    if |q.unit| > 0 { assert IsAsciiLetter(q.unit[0]); }
    TakeWhileOfPrefix(q.gap, q.unit, IsWhitespace);
  }

  lemma ScanWholeOnly(whole: string, tail: string)
    requires |whole| > 0 && AllDigits(whole)
    requires |tail| == 0 || (!IsAsciiDigit(tail[0]) && tail[0] != '.')
    ensures TakeWhile(whole + tail, IsAsciiDigit) == whole
    ensures (whole + tail)[|whole|..] == tail
  {
    assert AllChars(whole, IsAsciiDigit);
    TakeWhileOfPrefix(whole, tail, IsAsciiDigit);
  }

  lemma {:induction false} TrimStartOfNonSpace(s: string)
    requires |s| > 0 && !IsWhitespace(s[0])
    ensures TrimStart(s) == s
  {
  }

  lemma {:induction false} TrimEndOfNonSpace(s: string)
    requires |s| > 0 && !IsWhitespace(s[|s| - 1])
    ensures TrimEnd(s) == s
  {
  }

  /** The "0", "0B", "0b" shortcut of `parse` gives what the general rule would. */
  lemma ZeroShortcutAgrees(q: SizeLiteral)
    requires WellFormedLiteral(q)
    requires Compose(q) == "0" || Compose(q) == "0B" || Compose(q) == "0b"
    ensures Evaluate(q) == Ok(FileSize(0))
  {
    ZeroLiteralShape(q);
    ZeroUnitKnown(q.unit);
    ZeroBytes(q, 1);
  }

  lemma ZeroUnitKnown(unit: string)
    requires unit == "" || unit == "B" || unit == "b"
    ensures Multiplier(unit) == Some(1)
  {
  }

  lemma ZeroBytes(q: SizeLiteral, m: nat)
    requires WellFormedLiteral(q) && q.whole == "0" && q.frac == ""
    ensures ExactBytes(q, m) == 0
  {
    assert q.whole + q.frac == "0";
    assert DigitsValue("0") == 0;
  }

  /** The only literals written "0", "0B" or "0b" are the digit zero with that unit. */
  lemma ZeroLiteralShape(q: SizeLiteral)
    requires WellFormedLiteral(q)
    requires Compose(q) == "0" || Compose(q) == "0B" || Compose(q) == "0b"
    ensures q.whole == "0" && q.frac == "" && q.gap == ""
    ensures q.unit == "" || q.unit == "B" || q.unit == "b"
  {
    var t := Compose(q);
    var z := SizeLiteral("0", "", "", t[1..]);
    assert Compose(z) == t;
    ScanCompose(q);
    ScanCompose(z);
  }

  /** Parsing a literal without surrounding whitespace is evaluating it. */
  lemma ParseLiteral(q: SizeLiteral)
    requires WellFormedLiteral(q)
    requires q.unit != "" || q.gap == ""
    ensures Parse(Compose(q)) == Evaluate(q)
  {
    var s := Compose(q);
    assert s[0] == q.whole[0];
    TrimStartOfNonSpace(s);
    if q.unit != "" {
      assert s[|s| - 1] == q.unit[|q.unit| - 1];
    } else if q.frac != "" {
      assert s[|s| - 1] == q.frac[|q.frac| - 1];
    } else {
      assert s == q.whole;
    }
    TrimEndOfNonSpace(s);
    if s == "0" || s == "0B" || s == "0b" {
      ZeroShortcutAgrees(q);
    } else {
      ScanCompose(q);
    }
  }

  /** "100B" is a hundred bytes. */
  lemma ParseBytesExample(s: string)
    requires s == "100B"
    ensures Parse(s) == Ok(FileSize(100))
  {
    assert NatToString(100) + "B" == s by { assert NatToString(100) == "100"; }
    assert Multiplier("B") == Some(1);
    ParseInteger(100, "B");
  }

  /** A number without a unit is bytes. */
  lemma ParseBareNumberExample(s: string)
    requires s == "100"
    ensures Parse(s) == Ok(FileSize(100))
  {
    assert NatToString(100) + "" == s by { assert NatToString(100) == "100"; }
    assert Multiplier("") == Some(1);
    ParseInteger(100, "");
  }

  /** "0B" takes the zero shortcut. */
  lemma ParseZeroExample(s: string)
    requires s == "0B"
    ensures Parse(s) == Ok(FileSize(0))
  {
    assert NatToString(0) + "B" == s by { assert NatToString(0) == "0"; }
    assert Multiplier("B") == Some(1);
    ParseInteger(0, "B");
  }

  /** Byte units scale by powers of 1024. */
  lemma ParseKilobyteExample(s: string)
    requires s == "1KB"
    ensures Parse(s) == Ok(FileSize(1024))
  {
    assert NatToString(1) + "KB" == s by { assert NatToString(1) == "1"; }
    assert Multiplier("KB") == Some(KB);
    ParseInteger(1, "KB");
  }

  lemma ParseMegabyteExample(s: string)
    requires s == "1MB"
    ensures Parse(s) == Ok(FileSize(1024 * 1024))
  {
    assert NatToString(1) + "MB" == s by { assert NatToString(1) == "1"; }
    assert Multiplier("MB") == Some(MB);
    ParseInteger(1, "MB");
  }

  lemma ParseGigabyteExample(s: string)
    requires s == "1GB"
    ensures Parse(s) == Ok(FileSize(1024 * 1024 * 1024))
  {
    assert NatToString(1) + "GB" == s by { assert NatToString(1) == "1"; }
    assert Multiplier("GB") == Some(GB);
    ParseInteger(1, "GB");
  }

  lemma ParseTerabyteExample(s: string)
    requires s == "1TB"
    ensures Parse(s) == Ok(FileSize(1024 * 1024 * 1024 * 1024))
  {
    assert NatToString(1) + "TB" == s by { assert NatToString(1) == "1"; }
    assert Multiplier("TB") == Some(TB);
    ParseInteger(1, "TB");
  }

  /** "b" is a bit: eight of them make a byte. */
  lemma ParseBitExample(s: string)
    requires s == "8b"
    ensures Parse(s) == Ok(FileSize(1))
  {
    assert NatToString(8) + "b" == s by { assert NatToString(8) == "8"; }
    assert Multiplier("b") == Some(1);
    ParseInteger(8, "b");
  }

  /** Bit units scale by an eighth of the byte unit. */
  lemma ParseKilobitExample(s: string)
    requires s == "1Kb"
    ensures Parse(s) == Ok(FileSize(128))
  {
    assert NatToString(1) + "Kb" == s by { assert NatToString(1) == "1"; }
    assert Multiplier("Kb") == Some(128);
    ParseInteger(1, "Kb");
  }

  lemma ParseMegabitExample(s: string)
    requires s == "1Mb"
    ensures Parse(s) == Ok(FileSize(128 * 1024))
  {
    assert NatToString(1) + "Mb" == s by { assert NatToString(1) == "1"; }
    assert Multiplier("Mb") == Some(128 * 1024);
    ParseInteger(1, "Mb");
  }

  /** A fraction is scaled exactly before truncation: "1.5MB" is 15 * 2^20 / 10 bytes. */
  lemma ParseFractionExample(s: string)
    requires s == "1.5MB"
    ensures Parse(s) == Ok(FileSize(1572864))
  {
    var q := SizeLiteral("1", "5", "", "MB");
    assert Compose(q) == s;
    assert Evaluate(q) == Ok(FileSize(1572864)) by {
      assert Multiplier("MB") == Some(MB);
      assert q.whole + q.frac == "15";
      assert DigitsValue("15") == 15;
      assert Pow10(1) == 10;
    }
    ParseLiteral(q);
  }

  /** Units are case-sensitive: "kB" is not in the table. */
  lemma ParseUnknownUnitExample(s: string)
    requires s == "5kB"
    ensures Parse(s) == Err("Unknown unit: kB")
  {
    var q := SizeLiteral("5", "", "", "kB");
    assert Compose(q) == s;
    assert Evaluate(q) == Err("Unknown unit: kB") by {
      assert Multiplier("kB") == None;
    }
    ParseLiteral(q);
  }

  /** An integer followed directly by a known unit. */
  lemma ParseInteger(n: nat, unit: string)
    requires AllLetters(unit) && Multiplier(unit).Some?
    ensures Parse(NatToString(n) + unit) ==
      Ok(FileSize(Saturate(if unit == "b" then n / 8 else n * Multiplier(unit).value)))
  {
    var digits := NatToString(n);
    var q := SizeLiteral(digits, "", "", unit);
    var m := Multiplier(unit).value;
    assert WellFormedLiteral(q) && DigitsValue(q.whole) == n by {
      NatToStringDigits(n);
    }
    assert Compose(q) == digits + unit;
    assert Evaluate(q) == Ok(FileSize(Saturate(ExactBytes(q, m))));
    ParseLiteral(q);
    ExactBytesOfInteger(q, m);
  }

  /** Without a fraction no scaling by a power of ten is involved. */
  lemma ExactBytesOfInteger(q: SizeLiteral, m: nat)
    requires WellFormedLiteral(q) && q.frac == ""
    ensures ExactBytes(q, m) == if q.unit == "b" then DigitsValue(q.whole) / 8 else DigitsValue(q.whole) * m
  {
    assert q.whole + q.frac == q.whole;
    assert Pow10(0) == 1;
  }

  // ------------------------------------------------------- range and display

  /** `FileSize::is_in_range`: inclusive bounds, and a bound of 0 does not restrict. */
  predicate IsInRange(size: FileSize, min: FileSize, max: FileSize) {
    (min.bytes == 0 || size.bytes >= min.bytes) && (max.bytes == 0 || size.bytes <= max.bytes)
  }

  /** Both bounds real: plain inclusive interval. Both bounds 0: everything,
      including the empty file. */
  lemma InRangeMeaning(size: FileSize, min: FileSize, max: FileSize)
    ensures min.bytes > 0 && max.bytes > 0 ==>
      (IsInRange(size, min, max) <==> min.bytes <= size.bytes <= max.bytes)
    ensures min.bytes == 0 && max.bytes == 0 ==> IsInRange(size, min, max)
    ensures min.bytes == 0 ==> (IsInRange(size, min, max) <==> max.bytes == 0 || size.bytes <= max.bytes)
    ensures max.bytes == 0 ==> (IsInRange(size, min, max) <==> size.bytes >= min.bytes)
  {
  }

  /** What `FileSize::format` renders: literal text, or a float quotient printed with
      two decimals and a unit (that rendering is not modelled). */
  datatype SizeText = Plain(text: string) | TwoDecimals(bytes: nat, unitBytes: nat, unit: string)

  function Format(size: FileSize): (r: SizeText)
    ensures size.bytes == 0 <==> r == Plain("∞")
    ensures r.TwoDecimals? <==> size.bytes >= KB
    ensures r.TwoDecimals? ==> r.bytes == size.bytes && r.unitBytes <= size.bytes
    ensures r.TwoDecimals? && r.unit != "TB" ==> size.bytes < r.unitBytes * 1024
    ensures 0 < size.bytes < KB ==> r == Plain(NatToString(size.bytes) + "B")
  {
    if size.bytes == 0 then Plain("∞")
    else if size.bytes >= TB then TwoDecimals(size.bytes, TB, "TB")
    else if size.bytes >= GB then TwoDecimals(size.bytes, GB, "GB")
    else if size.bytes >= MB then TwoDecimals(size.bytes, MB, "MB")
    else if size.bytes >= KB then TwoDecimals(size.bytes, KB, "KB")
    else Plain(NatToString(size.bytes) + "B")
  }

  /** A sub-kilobyte size prints as "{n}B": the decimal digits of n, without a
      leading zero, then "B". That text parses back to the same size. */
  lemma FormatParseRoundTrip(size: FileSize)
    requires 0 < size.bytes < KB
    ensures Format(size).Plain?
    ensures var t := Format(size).text;
      |t| >= 2 && t[|t| - 1] == 'B' && t[0] != '0' &&
      AllDigits(t[..|t| - 1]) && DigitsValue(t[..|t| - 1]) == size.bytes
    ensures Parse(Format(size).text) == Ok(size)
  {
    var t := Format(size).text;
    assert t == NatToString(size.bytes) + "B";
    NatToStringDigits(size.bytes);
    NatToStringNoLeadingZero(size.bytes);
    assert t[..|t| - 1] == NatToString(size.bytes);
    assert Multiplier("B") == Some(1);
    ParseInteger(size.bytes, "B");
  }

  // ------------------------------------------------------------ defaults

  const ZeroFilter := FileSizeFilter(Some("0B"), Some("0B"))

  /** `Config::default`. */
  function Default(): Config {
    Config(
      GlobalConfig("YYYYMMDD", "{ext}/{date}", true, ZeroFilter),
      [ Rule("High Quality Photos", "large photos by year and month",
             ["jpg", "jpeg", "png"], Some(FileSizeFilter(Some("5MB"), Some("0B"))),
             "Photos/{year}/{month}", Some("YYYY/MM"), true),
        Rule("RAW Photos", "RAW photos by year, month and day",
             ["nef", "cr2", "cr3", "arw", "dng", "orf", "raf", "rw2"], Some(ZeroFilter),
             "RAW/{year}/{month}/{day}", Some("YYYY/MM/DD"), true),
        Rule("Thumbnails", "small pictures",
             ["jpg", "jpeg", "png"], Some(FileSizeFilter(Some("0B"), Some("5MB"))),
             "Thumbnails/{date}", Some("YYYYMMDD"), true),
        Rule("Videos", "videos by year",
             ["mp4", "mov", "avi", "mkv", "m4v", "wmv", "flv"], Some(ZeroFilter),
             "Videos/{year}", Some("YYYY"), true),
        Rule("Music", "music by format",
             ["mp3", "flac", "wav", "aac", "m4a"], Some(ZeroFilter),
             "Music/{ext}", None, true),
        Rule("Default", "extension / date",
             ["*"], Some(ZeroFilter),
             "{ext}/{date}", Some("YYYYMMDD"), true)
      ],
      [ AliasGroup("JPG", ["jpg", "jpeg"]),
        AliasGroup("TIFF", ["tif", "tiff"]),
        AliasGroup("MPEG", ["mpg", "mpeg", "mpe"]) ],
      ExcludeConfig(true,
        [".git", ".svn", "node_modules", "target", "__pycache__"],
        ["*.tmp", "*.bak", "*.swp", "desktop.ini", "Thumbs.db", ".DS_Store"]))
  }

  /** The default configuration: six enabled rules in a fixed order, three alias
      groups, hidden files excluded, "YYYYMMDD" as the global date format. */
  lemma DefaultShape()
    ensures var c := Default();
      && |c.rules| == 6
      && (forall i :: 0 <= i < 6 ==> c.rules[i].enabled)
      && c.rules[0].name == "High Quality Photos" && c.rules[1].name == "RAW Photos"
      && c.rules[2].name == "Thumbnails" && c.rules[3].name == "Videos"
      && c.rules[4].name == "Music" && c.rules[5].name == "Default"
      && c.rules[5].extensions == ["*"]
      && |c.extensionAliases| == 3
      && c.extensionAliases[0].extensions == ["jpg", "jpeg"]
      && c.extensionAliases[1].extensions == ["tif", "tiff"]
      && c.extensionAliases[2].extensions == ["mpg", "mpeg", "mpe"]
      && c.exclude.hiddenFiles
      && c.global.dateFormat == "YYYYMMDD"
  {
  }
}
