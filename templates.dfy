/** Date rendering and directory-template expansion of `src/rule_matcher.rs`
    (`expand_template`, `format_date_string`) and the compact date of
    `src/metadata.rs` (`format_date`). */
module Templates {
  import opened Wrappers
  import opened Text
  import opened MediaTypes

  // ------------------------------------------------------------------ dates

  /** The calendar fields of a local date-time that the templates use. */
  datatype Date = Date(year: nat, month: nat, day: nat)

  predicate ValidDate(d: Date) {
    1 <= d.month <= 12 && 1 <= d.day <= 31
  }

  /** chrono's `%Y`: at least four digits, zero-padded, and a leading '+' once the
      year no longer fits in four. */
  function YearText(d: Date): string {
    if d.year <= 9999 then ZeroPad(NatToString(d.year), 4) else "+" + NatToString(d.year)
  }

  /** chrono's `%m` and `%d`: two digits, zero-padded. */
  function MonthText(d: Date): string { ZeroPad(NatToString(d.month), 2) }
  function DayText(d: Date): string { ZeroPad(NatToString(d.day), 2) }

  /** `format_date` of `src/metadata.rs`: `%Y%m%d`, the name of a date directory. */
  function CompactDate(d: Date): string {
    YearText(d) + MonthText(d) + DayText(d)
  }

  /** The date-format tokens `format_date_string` knows; anything else is handed to
      the strftime formatter as a pattern of its own. */
  datatype DateFormat =
    | Yyyy | YyyyMm | YyyyMmDd | YyyySlashMmDd | YyyySlashMm | YyyySlashMmSlashDd
    | YyyyDashMm | YyyyDashMmDashDd
    | Custom(pattern: string)

  /** The token a known format is written as. */
  function TokenText(f: DateFormat): string
    requires !f.Custom?
  {
    match f
    case Yyyy => "YYYY"
    case YyyyMm => "YYYYMM"
    case YyyyMmDd => "YYYYMMDD"
    case YyyySlashMmDd => "YYYY/MMDD"
    case YyyySlashMm => "YYYY/MM"
    case YyyySlashMmSlashDd => "YYYY/MM/DD"
    case YyyyDashMm => "YYYY-MM"
    case YyyyDashMmDashDd => "YYYY-MM-DD"
  }

  /** The `match` of `format_date_string` on the trimmed format string. */
  function ParseDateFormat(format: string): (r: DateFormat)
    ensures r.Custom? ==> r.pattern == Trim(format)
    ensures !r.Custom? ==> TokenText(r) == Trim(format)
  {
    var f := Trim(format);
    if f == "YYYY" then Yyyy
    else if f == "YYYYMM" then YyyyMm
    else if f == "YYYYMMDD" then YyyyMmDd
    else if f == "YYYY/MMDD" then YyyySlashMmDd
    else if f == "YYYY/MM" then YyyySlashMm
    else if f == "YYYY/MM/DD" then YyyySlashMmSlashDd
    else if f == "YYYY-MM" then YyyyDashMm
    else if f == "YYYY-MM-DD" then YyyyDashMmDashDd
    else Custom(f)
  }

  /** The rendering of each format; a custom pattern goes to `strftime`. */
  function FormatDate(d: Date, f: DateFormat, strftime: (Date, string) -> string): string {
    match f
    case Yyyy => YearText(d)
    case YyyyMm => YearText(d) + MonthText(d)
    case YyyyMmDd => CompactDate(d)
    case YyyySlashMmDd => YearText(d) + "/" + MonthText(d) + DayText(d)
    case YyyySlashMm => YearText(d) + "/" + MonthText(d)
    case YyyySlashMmSlashDd => YearText(d) + "/" + MonthText(d) + "/" + DayText(d)
    case YyyyDashMm => YearText(d) + "-" + MonthText(d)
    case YyyyDashMmDashDd => YearText(d) + "-" + MonthText(d) + "-" + DayText(d)
    case Custom(p) => strftime(d, p)
  }

  /** `format_date_string`. It never fails for the known tokens; chrono's handling
      of a custom pattern is the `strftime` parameter. */
  function FormatDateString(d: Date, format: string, strftime: (Date, string) -> string): string {
    FormatDate(d, ParseDateFormat(format), strftime)
  }

  // ------------------------------------------------------------ date lemmas

  /** Every known token is recognised back, with or without surrounding blanks. */
  lemma {:induction false} TokenRoundTrip(f: DateFormat)
    requires !f.Custom?
    ensures ParseDateFormat(TokenText(f)) == f
  {
    var t := TokenText(f);
    assert t[0] == 'Y' && t[|t| - 1] in "YMD";
    TrimOfNonBlank(t);
  }

  lemma TrimOfNonBlank(s: string)
    requires |s| > 0 && !IsWhitespace(s[0]) && !IsWhitespace(s[|s| - 1])
    ensures Trim(s) == s
  {
    assert TrimStart(s) == s;
  }

  lemma {:induction false} LeadingZeros(z: string, s: string)
    requires forall i :: 0 <= i < |z| ==> z[i] == '0'
    requires AllDigits(s)
    ensures AllDigits(z + s) && DigitsValue(z + s) == DigitsValue(s)
    decreases |s|
  {
    assert AllDigits(z + s) by {
      forall i | 0 <= i < |z + s| ensures IsAsciiDigit((z + s)[i]) {
        if i >= |z| { assert (z + s)[i] == s[i - |z|]; }
      }
    }
    if |s| == 0 {
      assert z + s == z;
      AllZeros(z);
    } else {
      assert (z + s)[..|z + s| - 1] == z + s[..|s| - 1];
      LeadingZeros(z, s[..|s| - 1]);
    }
  }

  lemma {:induction false} AllZeros(z: string)
    requires forall i :: 0 <= i < |z| ==> z[i] == '0'
    ensures AllDigits(z) && DigitsValue(z) == 0
    decreases |z|
  {
    if |z| > 0 {
      AllZeros(z[..|z| - 1]);
    }
  }

  /** A zero-padded number below 10^w is exactly w digits reading back as itself. */
  lemma ZeroPadDigits(n: nat, w: nat)
    requires w >= 1 && n < Pow10(w)
    ensures |ZeroPad(NatToString(n), w)| == w
    ensures AllDigits(ZeroPad(NatToString(n), w))
    ensures DigitsValue(ZeroPad(NatToString(n), w)) == n
  {
    var s := NatToString(n);
    NatToStringDigits(n);
    NatToStringLength(n, w);
    if |s| < w {
      LeadingZeros(seq(w - |s|, _ => '0'), s);
    }
  }

  /** The compact date of a four-digit year is eight digits that read back as the
      year, the month and the day. */
  lemma CompactDateDigits(d: Date)
    requires ValidDate(d) && d.year <= 9999
    ensures var c := CompactDate(d);
      && |c| == 8 && AllDigits(c)
      && DigitsValue(c[..4]) == d.year
      && DigitsValue(c[4..6]) == d.month
      && DigitsValue(c[6..]) == d.day
  {
    assert Pow10(2) == 100 && Pow10(4) == 10000;
    ZeroPadDigits(d.year, 4);
    ZeroPadDigits(d.month, 2);
    ZeroPadDigits(d.day, 2);
    var c := CompactDate(d);
    assert c[..4] == YearText(d);
    assert c[4..6] == MonthText(d);
    assert c[6..] == DayText(d);
  }

  /** Two dates with four-digit years share a compact date only if they are equal:
      a date directory names exactly one day. */
  lemma CompactDateInjective(d1: Date, d2: Date)
    requires ValidDate(d1) && d1.year <= 9999 && ValidDate(d2) && d2.year <= 9999
    requires CompactDate(d1) == CompactDate(d2)
    ensures d1 == d2
  {
    CompactDateDigits(d1);
    CompactDateDigits(d2);
  }

  /** The "YYYYMMDD" token and `format_date` agree. */
  lemma CompactTokenAgrees(d: Date, strftime: (Date, string) -> string)
    ensures FormatDateString(d, "YYYYMMDD", strftime) == CompactDate(d)
  {
    TokenRoundTrip(YyyyMmDd);
  }

  // ----------------------------------------------------- template substitution

  /** A template variable: '{', one or more lower-case letters, '}'. */
  predicate IsPlaceholder(p: string) {
    |p| >= 3 && p[0] == '{' && IsCloser(p[1..])
  }

  /** Lower-case letters followed by a single '}': what follows the '{' of a placeholder. */
  predicate IsCloser(w: string) {
    |w| >= 1 && w[|w| - 1] == '}' && forall i :: 0 <= i < |w| - 1 ==> IsAsciiLower(w[i])
  }

  datatype Binding = Binding(placeholder: string, value: string)

  /** A substituted value that cannot combine with neighbouring text into a new
      placeholder: nonempty, no '{', and not starting with a letter of a variable
      name or with the closing '}'. */
  predicate InertValue(v: string) {
    |v| > 0 && !IsAsciiLower(v[0]) && v[0] != '}' && forall i :: 0 <= i < |v| ==> v[i] != '{'
  }

  predicate WellFormedEnv(env: seq<Binding>) {
    && (forall i :: 0 <= i < |env| ==> IsPlaceholder(env[i].placeholder) && InertValue(env[i].value))
    && (forall i, j :: 0 <= i < j < |env| ==> env[i].placeholder != env[j].placeholder)
  }

  /** The first binding whose placeholder starts `s`. */
  function FindBinding(s: string, env: seq<Binding>): (r: Option<Binding>)
    ensures r.Some? ==> r.value in env && |r.value.placeholder| > 0 && StartsWith(s, r.value.placeholder)
    ensures r.None? ==> forall i :: 0 <= i < |env| && |env[i].placeholder| > 0 ==> !StartsWith(s, env[i].placeholder)
    decreases |env|
  {
    if |env| == 0 then None
    else if |env[0].placeholder| > 0 && StartsWith(s, env[0].placeholder) then Some(env[0])
    else FindBinding(s, env[1..])
  }

  /** Simultaneous substitution: one left-to-right pass that replaces each variable
      occurrence of the template by its value and never rescans a value. */
  function Subst(s: string, env: seq<Binding>): string
    decreases |s|
  {
    if |s| == 0 then []
    else match FindBinding(s, env)
      case Some(b) => b.value + Subst(s[|b.placeholder|..], env)
      case None => [s[0]] + Subst(s[1..], env)
  }

  /** The source's sequence of `str::replace` calls, one variable after another. */
  function ReplaceAll(s: string, env: seq<Binding>): string
    requires forall i :: 0 <= i < |env| ==> |env[i].placeholder| > 0
    decreases |env|
  {
    if |env| == 0 then s
    else Replace(ReplaceAll(s, env[..|env| - 1]), env[|env| - 1].placeholder, env[|env| - 1].value)
  }

  lemma {:induction false} FindBindingAppend(s: string, env: seq<Binding>, b: Binding)
    ensures FindBinding(s, env + [b]) ==
      if FindBinding(s, env).Some? then FindBinding(s, env)
      else if |b.placeholder| > 0 && StartsWith(s, b.placeholder) then Some(b)
      else None
    decreases |env|
  {
    if |env| > 0 {
      assert (env + [b])[1..] == env[1..] + [b];
      FindBindingAppend(s, env[1..], b);
    }
  }

  lemma {:induction false} ReplaceBraceFreePrefix(a: string, x: string, p: string, v: string)
    requires |p| > 0 && p[0] == '{'
    requires forall i :: 0 <= i < |a| ==> a[i] != '{'
    ensures Replace(a + x, p, v) == a + Replace(x, p, v)
    decreases |a|
  {
    if |a| > 0 {
      var s := a + x;
      assert !StartsWith(s, p) by {
        if |p| <= |s| { assert s[..|p|][0] == a[0]; }
      }
      assert s[1..] == a[1..] + x;
      ReplaceBraceFreePrefix(a[1..], x, p, v);
      calc {
        Replace(s, p, v);
        [s[0]] + Replace(s[1..], p, v);
        [a[0]] + (a[1..] + Replace(x, p, v));
        { assert a == [a[0]] + a[1..]; }
        a + Replace(x, p, v);
      }
    } else {
      assert a + x == x;
    }
  }

  /** Every variable starts with '{', so none is found where another character is. */
  lemma NoBindingWithoutBrace(s: string, env: seq<Binding>)
    requires WellFormedEnv(env) && |s| > 0 && s[0] != '{'
    ensures FindBinding(s, env).None?
  {
  }

  lemma {:induction false} SubstBraceFreePrefix(w: string, rest: string, env: seq<Binding>)
    requires WellFormedEnv(env)
    requires forall i :: 0 <= i < |w| ==> w[i] != '{'
    ensures Subst(w + rest, env) == w + Subst(rest, env)
    decreases |w|
  {
    if |w| > 0 {
      var s := w + rest;
      NoBindingWithoutBrace(s, env);
      assert s[1..] == w[1..] + rest;
      SubstBraceFreePrefix(w[1..], rest, env);
      calc {
        Subst(s, env);
        [s[0]] + Subst(s[1..], env);
        [w[0]] + (w[1..] + Subst(rest, env));
        { assert w == [w[0]] + w[1..]; }
        w + Subst(rest, env);
      }
    } else {
      assert w + rest == rest;
    }
  }

  /** Substitution never produces the tail of a placeholder that the template did
      not already hold at that point. */
  lemma {:induction false} SubstNoCloser(t: string, env: seq<Binding>, w: string)
    requires WellFormedEnv(env) && IsCloser(w)
    requires !StartsWith(t, w)
    ensures !StartsWith(Subst(t, env), w)
    decreases |t|
  {
    if |t| > 0 {
      match FindBinding(t, env)
      case Some(b) =>
        var k :| 0 <= k < |env| && env[k] == b;
        assert Subst(t, env)[0] == b.value[0];
      case None =>
        assert Subst(t, env) == [t[0]] + Subst(t[1..], env);
        if t[0] == w[0] && |w| > 1 {
          SubstNoCloser(t[1..], env, w[1..]);
        }
    }
  }

  lemma WellFormedPrefix(env: seq<Binding>, b: Binding)
    requires WellFormedEnv(env + [b])
    ensures WellFormedEnv(env)
    ensures IsPlaceholder(b.placeholder) && InertValue(b.value)
    ensures forall i :: 0 <= i < |env| ==> env[i].placeholder != b.placeholder
  {
    assert b == (env + [b])[|env|];
    forall i | 0 <= i < |env| ensures env[i].placeholder != b.placeholder {
      assert env[i] == (env + [b])[i];
    }
    forall i | 0 <= i < |env| ensures IsPlaceholder(env[i].placeholder) && InertValue(env[i].value) {
      assert env[i] == (env + [b])[i];
    }
    forall i, j | 0 <= i < j < |env| ensures env[i].placeholder != env[j].placeholder {
      assert env[i] == (env + [b])[i] && env[j] == (env + [b])[j];
    }
  }

  /** Replacing one more variable in a substituted template is substituting it
      along with the others: no value, once in place, is rescanned into a variable. */
  lemma {:induction false} ReplaceSubst(s: string, env: seq<Binding>, p: string, v: string)
    requires WellFormedEnv(env) && IsPlaceholder(p) && InertValue(v)
    requires forall i :: 0 <= i < |env| ==> env[i].placeholder != p
    ensures Replace(Subst(s, env), p, v) == Subst(s, env + [Binding(p, v)])
    decreases |s|, 1
  {
    FindBindingAppend(s, env, Binding(p, v));
    if |s| == 0 {
    } else if FindBinding(s, env).Some? {
      ReplaceAfterBound(s, env, p, v);
    } else if StartsWith(s, p) {
      ReplaceAtNew(s, env, p, v);
    } else {
      ReplaceAfterVerbatim(s, env, p, v);
    }
  }

  /** `s` starts with a variable substituted already: its value is passed over. */
  lemma {:induction false} ReplaceAfterBound(s: string, env: seq<Binding>, p: string, v: string)
    requires WellFormedEnv(env) && IsPlaceholder(p) && InertValue(v)
    requires forall i :: 0 <= i < |env| ==> env[i].placeholder != p
    requires |s| > 0 && FindBinding(s, env).Some?
    requires FindBinding(s, env + [Binding(p, v)]) == FindBinding(s, env)
    ensures Replace(Subst(s, env), p, v) == Subst(s, env + [Binding(p, v)])
    decreases |s|, 0
  {
    var c := FindBinding(s, env).value;
    var k :| 0 <= k < |env| && env[k] == c;
    var tail := s[|c.placeholder|..];
    ReplaceBraceFreePrefix(c.value, Subst(tail, env), p, v);
    ReplaceSubst(tail, env, p, v);
  }

  /** `s` starts with the variable now replaced. */
  lemma {:induction false} ReplaceAtNew(s: string, env: seq<Binding>, p: string, v: string)
    requires WellFormedEnv(env) && IsPlaceholder(p) && InertValue(v)
    requires forall i :: 0 <= i < |env| ==> env[i].placeholder != p
    requires |s| > 0 && FindBinding(s, env).None? && StartsWith(s, p)
    requires FindBinding(s, env + [Binding(p, v)]) == Some(Binding(p, v))
    ensures Replace(Subst(s, env), p, v) == Subst(s, env + [Binding(p, v)])
    decreases |s|, 0
  {
    var rest := s[|p|..];
    assert s == p + rest;
    SubstAtUnbound(p, rest, env);
    var y := Subst(rest, env);
    assert StartsWith(p + y, p) && (p + y)[|p|..] == y;
    assert Replace(p + y, p, v) == v + Replace(y, p, v);
    ReplaceSubst(rest, env, p, v);
  }

  /** An unbound variable at the start of the text is copied by substitution. */
  lemma SubstAtUnbound(p: string, rest: string, env: seq<Binding>)
    requires WellFormedEnv(env) && IsPlaceholder(p) && FindBinding(p + rest, env).None?
    ensures Subst(p + rest, env) == p + Subst(rest, env)
  {
    SubstCopiesHead(p, rest, env);
    PlaceholderTailBraceFree(p);
    SubstBraceFreePrefix(p[1..], rest, env);
    HeadThenTail(p, Subst(rest, env));
  }

  lemma SubstCopiesHead(p: string, rest: string, env: seq<Binding>)
    requires |p| > 0 && FindBinding(p + rest, env).None?
    ensures Subst(p + rest, env) == [p[0]] + Subst(p[1..] + rest, env)
  {
    assert (p + rest)[1..] == p[1..] + rest;
    SubstVerbatimStep(p + rest, env);
  }

  lemma PlaceholderTailBraceFree(p: string)
    requires IsPlaceholder(p)
    ensures forall i :: 0 <= i < |p[1..]| ==> p[1..][i] != '{'
  {
  }

  lemma HeadThenTail(p: string, t: string)
    requires |p| > 0
    ensures [p[0]] + (p[1..] + t) == p + t
  {
    assert p == [p[0]] + p[1..];
  }

  /** Where no variable starts, substitution copies one character. */
  lemma SubstVerbatimStep(s: string, env: seq<Binding>)
    requires |s| > 0 && FindBinding(s, env).None?
    ensures Subst(s, env) == [s[0]] + Subst(s[1..], env)
  {
  }

  /** `s` starts with a character kept as it is. */
  lemma {:induction false} ReplaceAfterVerbatim(s: string, env: seq<Binding>, p: string, v: string)
    requires WellFormedEnv(env) && IsPlaceholder(p) && InertValue(v)
    requires forall i :: 0 <= i < |env| ==> env[i].placeholder != p
    requires |s| > 0 && FindBinding(s, env).None? && !StartsWith(s, p)
    requires FindBinding(s, env + [Binding(p, v)]).None?
    ensures Replace(Subst(s, env), p, v) == Subst(s, env + [Binding(p, v)])
    decreases |s|, 0
  {
    var z := Subst(s[1..], env);
    assert Subst(s, env) == [s[0]] + z;
    if s[0] == '{' {
      assert !StartsWith(s[1..], p[1..]);
      SubstNoCloser(s[1..], env, p[1..]);
      assert !StartsWith([s[0]] + z, p);
    } else {
      assert !StartsWith([s[0]] + z, p) by {
        if |p| <= |[s[0]] + z| { assert ([s[0]] + z)[..|p|][0] == s[0]; }
      }
    }
    assert ([s[0]] + z)[1..] == z;
    ReplaceSubst(s[1..], env, p, v);
  }

  lemma {:induction false} SubstNoBindings(s: string)
    ensures Subst(s, []) == s
    decreases |s|
  {
    if |s| > 0 {
      SubstNoBindings(s[1..]);
    }
  }

  /** With well-formed bindings the order of the `replace` calls does not matter:
      the sequence of replacements is one simultaneous substitution. */
  lemma {:induction false} ReplaceAllSubst(s: string, env: seq<Binding>)
    requires WellFormedEnv(env)
    ensures forall i :: 0 <= i < |env| ==> |env[i].placeholder| > 0
    ensures ReplaceAll(s, env) == Subst(s, env)
    decreases |env|
  {
    if |env| == 0 {
      SubstNoBindings(s);
    } else {
      var init := env[..|env| - 1];
      var last := env[|env| - 1];
      assert env == init + [Binding(last.placeholder, last.value)];
      WellFormedPrefix(init, last);
      ReplaceAllSubst(s, init);
      ReplaceSubst(s, init, last.placeholder, last.value);
    }
  }

  /** A placeholder is never a proper prefix of text that starts with another one. */
  lemma PlaceholderPrefixFree(p: string, q: string, rest: string)
    requires IsPlaceholder(p) && IsPlaceholder(q) && StartsWith(p + rest, q)
    ensures q == p
  {
    var s := p + rest;
    assert forall i :: 1 <= i < |p| - 1 ==> s[i] == p[1..][i - 1];
    assert forall i :: 1 <= i < |q| - 1 ==> s[i] == q[1..][i - 1];
    assert s[|p| - 1] == '}' && s[|q| - 1] == '}';
    assert |q| <= |p|;
    assert |p| <= |q|;
    assert q == s[..|q|] == p;
  }

  /** A template that starts with a bound variable begins with its value. */
  lemma SubstVariable(p: string, rest: string, env: seq<Binding>, k: nat)
    requires WellFormedEnv(env) && k < |env| && env[k].placeholder == p
    ensures Subst(p + rest, env) == env[k].value + Subst(rest, env)
  {
    var s := p + rest;
    assert StartsWith(s, p);
    var b := FindBinding(s, env).value;
    var j :| 0 <= j < |env| && env[j] == b;
    PlaceholderPrefixFree(p, b.placeholder, rest);
    assert s[|p|..] == rest;
  }

  // -------------------------------------------------------- expand_template

  /** The directory name of a media type. */
  function TypeName(t: MediaType): string {
    match t
    case Image => "Image"
    case Video => "Video"
    case Audio => "Audio"
  }

  /** The variables of `expand_template`, in the order it replaces them. */
  function ExpansionEnv(extension: string, t: MediaType, d: Date, formatted: string): seq<Binding> {
    [ Binding("{type}", TypeName(t)),
      Binding("{ext}", ToUpper(extension)),
      Binding("{year}", YearText(d)),
      Binding("{month}", MonthText(d)),
      Binding("{day}", DayText(d)),
      Binding("{date}", formatted) ]
  }

  /** `expand_template`: `result` is reassigned by one `replace` per variable. When
      the extension and the formatted date are inert (as every known date token
      and every table extension is), this is simultaneous substitution. */
  method ExpandTemplate(template: string, extension: string, t: MediaType, d: Date,
                        dateFormat: string, strftime: (Date, string) -> string)
    returns (r: string)
    ensures r == ReplaceAll(template, ExpansionEnv(extension, t, d, FormatDateString(d, dateFormat, strftime)))
    ensures InertValue(ToUpper(extension)) && InertValue(FormatDateString(d, dateFormat, strftime)) ==>
      r == Subst(template, ExpansionEnv(extension, t, d, FormatDateString(d, dateFormat, strftime)))
  {
    var result := template;
    result := Replace(result, "{type}", TypeName(t));
    result := Replace(result, "{ext}", ToUpper(extension));
    result := Replace(result, "{year}", YearText(d));
    result := Replace(result, "{month}", MonthText(d));
    result := Replace(result, "{day}", DayText(d));
    var formatted := FormatDateString(d, dateFormat, strftime);
    result := Replace(result, "{date}", formatted);
    var env := ExpansionEnv(extension, t, d, formatted);
    ReplaceAllSteps(template, env);
    r := result;
    if InertValue(ToUpper(extension)) && InertValue(formatted) {
      ExpansionEnvWellFormed(extension, t, d, formatted);
      ReplaceAllSubst(template, env);
    }
  }

  /** Unfolds `ReplaceAll` over the six variables of `expand_template`. */
  lemma ReplaceAllSteps(s: string, env: seq<Binding>)
    requires |env| == 6 && forall i :: 0 <= i < 6 ==> |env[i].placeholder| > 0
    ensures ReplaceAll(s, env) ==
      Replace(Replace(Replace(Replace(Replace(Replace(s,
        env[0].placeholder, env[0].value), env[1].placeholder, env[1].value),
        env[2].placeholder, env[2].value), env[3].placeholder, env[3].value),
        env[4].placeholder, env[4].value), env[5].placeholder, env[5].value)
  {
    var r1 := Replace(s, env[0].placeholder, env[0].value);
    var r2 := Replace(r1, env[1].placeholder, env[1].value);
    var r3 := Replace(r2, env[2].placeholder, env[2].value);
    var r4 := Replace(r3, env[3].placeholder, env[3].value);
    var r5 := Replace(r4, env[4].placeholder, env[4].value);
    assert env[..1][..0] == [];
    assert ReplaceAll(s, env[..1]) == r1;
    assert env[..2][..1] == env[..1];
    assert ReplaceAll(s, env[..2]) == r2;
    assert env[..3][..2] == env[..2];
    assert ReplaceAll(s, env[..3]) == r3;
    assert env[..4][..3] == env[..3];
    assert ReplaceAll(s, env[..4]) == r4;
    assert env[..5][..4] == env[..4];
    assert ReplaceAll(s, env[..5]) == r5;
  }

  lemma YearTextShape(d: Date)
    ensures |YearText(d)| > 0 && (IsAsciiDigit(YearText(d)[0]) || YearText(d)[0] == '+')
    ensures forall i :: 0 <= i < |YearText(d)| ==> IsAsciiDigit(YearText(d)[i]) || YearText(d)[i] == '+'
  {
    NatToStringDigits(d.year);
    if d.year <= 9999 {
      assert Pow10(4) == 10000;
      ZeroPadDigits(d.year, 4);
    }
  }

  lemma TwoDigitsInert(n: nat)
    ensures InertValue(ZeroPad(NatToString(n), 2))
  {
    NatToStringDigits(n);
  }

  /** The bindings of `expand_template` are well formed once the extension and the
      formatted date are inert; the type names and date fields always are. */
  lemma ExpansionEnvWellFormed(extension: string, t: MediaType, d: Date, formatted: string)
    requires InertValue(ToUpper(extension)) && InertValue(formatted)
    ensures WellFormedEnv(ExpansionEnv(extension, t, d, formatted))
  {
    ExpansionPlaceholders(extension, t, d, formatted);
    ExpansionValuesInert(extension, t, d, formatted);
  }

  /** The six variables are distinct placeholders. */
  lemma ExpansionPlaceholders(extension: string, t: MediaType, d: Date, formatted: string)
    ensures var env := ExpansionEnv(extension, t, d, formatted);
      && (forall i :: 0 <= i < |env| ==> IsPlaceholder(env[i].placeholder))
      && (forall i, j :: 0 <= i < j < |env| ==> env[i].placeholder != env[j].placeholder)
  {
    var env := ExpansionEnv(extension, t, d, formatted);
    forall i | 0 <= i < |env| ensures IsPlaceholder(env[i].placeholder) {
      var p := env[i].placeholder;
      assert p[1..][..|p| - 2] == p[1..|p| - 1];
    }
  }

  /** The values bound to them are inert. */
  lemma ExpansionValuesInert(extension: string, t: MediaType, d: Date, formatted: string)
    requires InertValue(ToUpper(extension)) && InertValue(formatted)
    ensures var env := ExpansionEnv(extension, t, d, formatted);
      forall i :: 0 <= i < |env| ==> InertValue(env[i].value)
  {
    YearTextShape(d);
    TwoDigitsInert(d.month);
    TwoDigitsInert(d.day);
  }

  /** Every known date token renders inertly, so it can stand in for `{date}`. */
  lemma KnownFormatInert(d: Date, f: DateFormat, strftime: (Date, string) -> string)
    requires !f.Custom?
    ensures InertValue(FormatDate(d, f, strftime))
  {
    YearTextShape(d);
    TwoDigitsInert(d.month);
    TwoDigitsInert(d.day);
    var r := FormatDate(d, f, strftime);
    assert r[..|YearText(d)|] == YearText(d);
    forall i | 0 <= i < |r| ensures r[i] != '{' {
      if i < |YearText(d)| {
        assert r[i] == YearText(d)[i];
      }
    }
  }

  /** A variable the bindings do not bind is left as it is. */
  lemma SubstUnbound(p: string, env: seq<Binding>)
    requires WellFormedEnv(env) && IsPlaceholder(p)
    requires forall i :: 0 <= i < |env| ==> env[i].placeholder != p
    ensures Subst(p, env) == p
  {
    var found := FindBinding(p, env);
    if found.Some? {
      var j :| 0 <= j < |env| && env[j] == found.value;
      PlaceholderPrefixFree(p, found.value.placeholder, "");
    }
    assert forall i :: 0 <= i < |p[1..]| ==> p[1..][i] != '{';
    SubstBraceFreePrefix(p[1..], "", env);
    assert p[1..] + "" == p[1..];
    assert p == [p[0]] + p[1..];
  }

  // ------------------------------------------------ the template without a date

  /** The template of `build_target_path` when there is no date or the rule has no
      date format: `{ext}` is replaced by the extension as given, then `{type}`. */
  function PlainTemplate(template: string, extension: string, t: MediaType): string {
    Replace(Replace(template, "{ext}", extension), "{type}", TypeName(t))
  }

  function PlainEnv(extension: string, t: MediaType): seq<Binding> {
    [Binding("{ext}", extension), Binding("{type}", TypeName(t))]
  }

  lemma PlainEnvWellFormed(extension: string, t: MediaType)
    requires InertValue(extension)
    ensures WellFormedEnv(PlainEnv(extension, t))
  {
    var env := PlainEnv(extension, t);
    forall i | 0 <= i < 2 ensures IsPlaceholder(env[i].placeholder) {
      var p := env[i].placeholder;
      assert p[1..][..|p| - 2] == p[1..|p| - 1];
    }
  }

  /** With an inert extension the two replacements are one simultaneous
      substitution of `{ext}` and `{type}`. */
  lemma PlainTemplateSubst(template: string, extension: string, t: MediaType)
    requires InertValue(extension)
    ensures PlainTemplate(template, extension, t) == Subst(template, PlainEnv(extension, t))
  {
    var env := PlainEnv(extension, t);
    PlainEnvWellFormed(extension, t);
    ReplaceAllSubst(template, env);
    assert env[..1][..0] == [];
    assert ReplaceAll(template, env[..1]) == Replace(template, "{ext}", extension);
  }

  /** That substitution binds no date variable: `{year}`, `{month}`, `{day}` and
      `{date}` stay in the result. */
  lemma PlainKeepsDateVariables(p: string, extension: string, t: MediaType)
    requires InertValue(extension)
    requires p in ["{year}", "{month}", "{day}", "{date}"]
    ensures Subst(p, PlainEnv(extension, t)) == p
  {
    PlainEnvWellFormed(extension, t);
    assert p[1..][..|p| - 2] == p[1..|p| - 1];
    SubstUnbound(p, PlainEnv(extension, t));
  }

  // ----------------------------------------------------------- examples

  /** The test date of `src/rule_matcher.rs`, 2025-11-18. */
  lemma DateFieldsExample(d: Date)
    requires d == Date(2025, 11, 18)
    ensures YearText(d) == "2025" && MonthText(d) == "11" && DayText(d) == "18"
    ensures CompactDate(d) == "20251118"
  {
    assert NatToString(2025) == "2025";
    assert NatToString(11) == "11";
    assert NatToString(18) == "18";
  }

  /** The `format_date_string` test of `src/rule_matcher.rs` on 2025-11-18. */
  lemma FormatDateStringExamples(d: Date, strftime: (Date, string) -> string)
    requires d == Date(2025, 11, 18)
    ensures FormatDateString(d, "YYYY", strftime) == "2025"
    ensures FormatDateString(d, "YYYYMM", strftime) == "202511"
    ensures FormatDateString(d, "YYYYMMDD", strftime) == "20251118"
    ensures FormatDateString(d, "YYYY/MM", strftime) == "2025/11"
    ensures FormatDateString(d, "YYYY/MM/DD", strftime) == "2025/11/18"
    ensures FormatDateString(d, "YYYY-MM-DD", strftime) == "2025-11-18"
  {
    DateFieldsExample(d);
    TokenRoundTrip(Yyyy);
    TokenRoundTrip(YyyyMm);
    TokenRoundTrip(YyyyMmDd);
    TokenRoundTrip(YyyySlashMm);
    TokenRoundTrip(YyyySlashMmSlashDd);
    TokenRoundTrip(YyyyDashMmDashDd);
  }

  /** Two variables around a separator without '{' substitute to their values
      around the separator. */
  lemma SubstJoin(env: seq<Binding>, i: nat, sep: string, j: nat)
    requires WellFormedEnv(env) && i < |env| && j < |env|
    requires forall k :: 0 <= k < |sep| ==> sep[k] != '{'
    ensures Subst(env[i].placeholder + sep + env[j].placeholder, env) == env[i].value + sep + env[j].value
  {
    SubstLoneVariable(env, j);
    SubstVariableThen(env, i, sep, env[j].placeholder);
  }

  /** A variable on its own substitutes to its value. */
  lemma SubstLoneVariable(env: seq<Binding>, j: nat)
    requires WellFormedEnv(env) && j < |env|
    ensures Subst(env[j].placeholder, env) == env[j].value
  {
    var pj := env[j].placeholder;
    SubstVariable(pj, "", env, j);
    assert pj + "" == pj;
    assert Subst("", env) == "";
    assert env[j].value + "" == env[j].value;
  }

  /** A variable, then a separator without '{', then anything. */
  lemma SubstVariableThen(env: seq<Binding>, k: nat, sep: string, tail: string)
    requires WellFormedEnv(env) && k < |env|
    requires forall i :: 0 <= i < |sep| ==> sep[i] != '{'
    ensures Subst(env[k].placeholder + sep + tail, env) == env[k].value + sep + Subst(tail, env)
  {
    SubstBraceFreePrefix(sep, tail, env);
    SubstVariable(env[k].placeholder, sep + tail, env, k);
    Associative(env[k].placeholder, sep, tail);
    Associative(env[k].value, sep, Subst(tail, env));
  }

  lemma Associative(a: string, b: string, c: string)
    ensures a + b + c == a + (b + c)
  {
  }

  /** A text without '{' followed by two variables of `expand_template` around a
      separator without '{' expands to the text and their values around the separator. */
  lemma ExpandJoin(template: string, extension: string, t: MediaType, d: Date, formatted: string,
                   lead: string, i: nat, sep: string, j: nat)
    requires InertValue(ToUpper(extension)) && InertValue(formatted) && i < 6 && j < 6
    requires forall k :: 0 <= k < |lead| ==> lead[k] != '{'
    requires forall k :: 0 <= k < |sep| ==> sep[k] != '{'
    requires var env := ExpansionEnv(extension, t, d, formatted);
      template == lead + (env[i].placeholder + sep + env[j].placeholder)
    ensures var env := ExpansionEnv(extension, t, d, formatted);
      ReplaceAll(template, env) == lead + (env[i].value + sep + env[j].value)
  {
    var env := ExpansionEnv(extension, t, d, formatted);
    ExpansionEnvWellFormed(extension, t, d, formatted);
    ReplaceAllSubst(template, env);
    SubstJoin(env, i, sep, j);
    SubstBraceFreePrefix(lead, env[i].placeholder + sep + env[j].placeholder, env);
  }

  /** `format_date_string` of "YYYYMMDD" and of "YYYY" on 2025-11-18. */
  lemma CompactAndYearFormats(d: Date, compact: string, year: string, strftime: (Date, string) -> string)
    requires d == Date(2025, 11, 18) && compact == "YYYYMMDD" && year == "YYYY"
    ensures FormatDateString(d, compact, strftime) == "20251118"
    ensures FormatDateString(d, year, strftime) == "2025"
  {
    DateFieldsExample(d);
    TokenRoundTrip(YyyyMmDd);
    TokenRoundTrip(Yyyy);
  }

  /** The upper-case forms of the example extensions. */
  lemma UpperExamples(jpg: string, mp4: string)
    requires jpg == "jpg" && mp4 == "mp4"
    ensures ToUpper(jpg) == "JPG" && ToUpper(mp4) == "MP4"
  {
  }

  /** `expand_template("{ext}/{date}", "jpg", Image, 2025-11-18, "YYYYMMDD")`. */
  lemma ExpandExtDateExample(template: string, d: Date, strftime: (Date, string) -> string)
    requires template == "{ext}/{date}" && d == Date(2025, 11, 18)
    ensures ReplaceAll(template, ExpansionEnv("jpg", Image, d, FormatDateString(d, "YYYYMMDD", strftime)))
      == "JPG" + "/" + "20251118"
  {
    CompactAndYearFormats(d, "YYYYMMDD", "YYYY", strftime);
    ExtDateExpansion(template, "jpg", d, "20251118");
  }

  lemma ExtDateExpansion(template: string, extension: string, d: Date, formatted: string)
    requires template == "{ext}/{date}" && extension == "jpg" && formatted == "20251118"
    ensures ReplaceAll(template, ExpansionEnv(extension, Image, d, formatted)) == "JPG" + "/" + "20251118"
  {
    UpperExamples(extension, "mp4");
    assert template == "" + ("{ext}" + "/" + "{date}");
    ExpandJoin(template, extension, Image, d, formatted, "", 1, "/", 5);
  }

  /** `expand_template("Photos/{year}/{month}", "jpg", Image, 2025-11-18, "YYYYMMDD")`. */
  lemma ExpandYearMonthExample(template: string, d: Date, strftime: (Date, string) -> string)
    requires template == "Photos/{year}/{month}" && d == Date(2025, 11, 18)
    ensures ReplaceAll(template, ExpansionEnv("jpg", Image, d, FormatDateString(d, "YYYYMMDD", strftime)))
      == "Photos/" + ("2025" + "/" + "11")
  {
    CompactAndYearFormats(d, "YYYYMMDD", "YYYY", strftime);
    YearMonthExpansion(template, "jpg", d, "20251118");
  }

  lemma YearMonthExpansion(template: string, extension: string, d: Date, formatted: string)
    requires template == "Photos/{year}/{month}" && extension == "jpg" && formatted == "20251118"
    requires d == Date(2025, 11, 18)
    ensures ReplaceAll(template, ExpansionEnv(extension, Image, d, formatted)) == "Photos/" + ("2025" + "/" + "11")
  {
    DateFieldsExample(d);
    UpperExamples(extension, "mp4");
    assert template == "Photos/" + ("{year}" + "/" + "{month}");
    ExpandJoin(template, extension, Image, d, formatted, "Photos/", 2, "/", 3);
  }

  /** `expand_template("{type}/{year}", "mp4", Video, 2025-11-18, "YYYY")`. */
  lemma ExpandTypeYearExample(template: string, d: Date, strftime: (Date, string) -> string)
    requires template == "{type}/{year}" && d == Date(2025, 11, 18)
    ensures ReplaceAll(template, ExpansionEnv("mp4", Video, d, FormatDateString(d, "YYYY", strftime)))
      == "Video" + "/" + "2025"
  {
    CompactAndYearFormats(d, "YYYYMMDD", "YYYY", strftime);
    TypeYearExpansion(template, "mp4", d, "2025");
  }

  lemma TypeYearExpansion(template: string, extension: string, d: Date, formatted: string)
    requires template == "{type}/{year}" && extension == "mp4" && formatted == "2025"
    requires d == Date(2025, 11, 18)
    ensures ReplaceAll(template, ExpansionEnv(extension, Video, d, formatted)) == "Video" + "/" + "2025"
  {
    DateFieldsExample(d);
    UpperExamples("jpg", extension);
    assert template == "" + ("{type}" + "/" + "{year}");
    ExpandJoin(template, extension, Video, d, formatted, "", 0, "/", 2);
  }

  /** `{ext}`, a separator without '{', and a date variable: only the extension
      is filled in. */
  lemma PlainExtThenDate(template: string, extension: string, t: MediaType, sep: string, p: string)
    requires InertValue(extension)
    requires forall k :: 0 <= k < |sep| ==> sep[k] != '{'
    requires p in ["{year}", "{month}", "{day}", "{date}"]
    requires template == "{ext}" + sep + p
    ensures PlainTemplate(template, extension, t) == extension + sep + p
  {
    var env := PlainEnv(extension, t);
    PlainEnvWellFormed(extension, t);
    PlainTemplateSubst(template, extension, t);
    PlainKeepsDateVariables(p, extension, t);
    SubstThenFixed(env, 0, sep, p);
  }

  /** A bound variable, then text substitution leaves alone. */
  lemma SubstThenFixed(env: seq<Binding>, k: nat, sep: string, p: string)
    requires WellFormedEnv(env) && k < |env|
    requires forall i :: 0 <= i < |sep| ==> sep[i] != '{'
    requires Subst(p, env) == p
    ensures Subst(env[k].placeholder + sep + p, env) == env[k].value + sep + p
  {
    SubstVariableThen(env, k, sep, p);
  }

  /** With no date, "{ext}/{date}" keeps its date variable. */
  lemma PlainTemplateExample(template: string)
    requires template == "{ext}/{date}"
    ensures PlainTemplate(template, "JPG", Image) == "JPG" + "/" + "{date}"
  {
    assert template == "{ext}" + "/" + "{date}";
    PlainExtThenDate(template, "JPG", Image, "/", "{date}");
  }
}
