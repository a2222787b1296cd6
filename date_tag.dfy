/**
  `_extract_date_tag_from_filename` (streamlit_app.py lines 13-37): the date
  tag YYYY_MM_DD put into the output file name. The file's stem is searched
  for a compact date 20YYMMDD, then for 20YY-MM-DD, then for MM-DD-20YY (each
  separator `-` or `_`); only the leftmost occurrence of each pattern is tried,
  and one that is not a real calendar date falls through to the next pattern.
  When nothing is found the tag is today's date, supplied by the caller.
*/
module DateTag {
  import opened Options

  datatype Date = Date(year: int, month: int, day: int)

  predicate IsLeapYear(y: int) {
    y % 4 == 0 && (y % 100 != 0 || y % 400 == 0)
  }

  function DaysInMonth(y: int, m: int): int
    requires 1 <= m <= 12
  {
    if m == 2 then (if IsLeapYear(y) then 29 else 28)
    else if m == 4 || m == 6 || m == 9 || m == 11 then 30
    else 31
  }

  /** The dates Python's `datetime` accepts: years 1 to 9999, Gregorian months and days. */
  predicate ValidDate(d: Date)
    ensures ValidDate(d) ==> 1 <= d.month <= 12 && 1 <= d.day <= 31
    ensures 1 <= d.year <= 9999 && d.month == 2 && d.day == 29 ==> (ValidDate(d) <==> IsLeapYear(d.year))
    ensures 1 <= d.year <= 9999 && 1 <= d.month <= 12 && d.day == 31 ==>
      (ValidDate(d) <==> d.month in {1, 3, 5, 7, 8, 10, 12})
  {
    1 <= d.year <= 9999 && 1 <= d.month <= 12 && 1 <= d.day <= DaysInMonth(d.year, d.month)
  }

  // ---- Characters ----

  predicate IsDigit(c: char) {
    '0' <= c <= '9'
  }

  predicate IsSeparator(c: char) {
    c == '-' || c == '_'
  }

  function DigitValue(c: char): (v: int)
    requires IsDigit(c)
    ensures 0 <= v <= 9
  {
    c as int - '0' as int
  }

  function DigitChar(n: int): (c: char)
    requires 0 <= n <= 9
    ensures IsDigit(c) && DigitValue(c) == n
  {
    ('0' as int + n) as char
  }

  /** `int()` of a two-digit string. */
  function TwoDigits(s: string, i: nat): int
    requires i + 2 <= |s| && IsDigit(s[i]) && IsDigit(s[i + 1])
  {
    10 * DigitValue(s[i]) + DigitValue(s[i + 1])
  }

  /** `int()` of a four-digit string. */
  function FourDigits(s: string, i: nat): int
    requires i + 4 <= |s| && IsDigit(s[i]) && IsDigit(s[i + 1]) && IsDigit(s[i + 2]) && IsDigit(s[i + 3])
  {
    100 * TwoDigits(s, i) + TwoDigits(s, i + 2)
  }

  // ---- The file stem ----

  /** The last `/`-separated component of a path (`Path(filename).name`). */
  function BaseName(path: string): (name: string)
    ensures |name| <= |path| && name == path[|path| - |name|..]
    ensures '/' !in name
    ensures |name| < |path| ==> path[|path| - |name| - 1] == '/'
  {
    if |path| == 0 || path[|path| - 1] == '/' then []
    else
      var last := |path| - 1;
      var prefix := BaseName(path[..last]);
      assert path[..last][last - |prefix|..] == path[last - |prefix|..last];
      assert path[last - |prefix|..] == path[last - |prefix|..last] + [path[last]];
      assert |prefix| < last ==> path[..last][last - |prefix| - 1] == path[last - |prefix| - 1];
      prefix + [path[last]]
  }

  /** The index of the last `.` in s (`str.rfind`), if there is one. */
  function LastDot(s: string): (r: Option<nat>)
    ensures r.Some? ==> r.value < |s| && s[r.value] == '.'
    ensures r.Some? ==> forall k :: r.value < k < |s| ==> s[k] != '.'
    ensures r.None? ==> '.' !in s
  {
    if |s| == 0 then None
    else if s[|s| - 1] == '.' then Some(|s| - 1)
    else
      var r := LastDot(s[..|s| - 1]);
      assert forall k :: 0 <= k < |s| - 1 ==> s[..|s| - 1][k] == s[k];
      r
  }

  /**
    k is where the final suffix of name starts: a dot that is neither the
    first nor the last character, with no dot after it.
  */
  predicate SuffixDot(name: string, k: nat) {
    0 < k < |name| - 1 && name[k] == '.' && forall m :: k < m < |name| ==> name[m] != '.'
  }

  /** A suffix dot is the last dot of the name. */
  lemma SuffixDotIsLastDot(name: string, k: nat)
    requires SuffixDot(name, k)
    ensures LastDot(name) == Some(k)
  {
    assert name[k] in name;
  }

  /**
    `Path(filename).stem`: the base name without its final suffix. A dot
    counts as starting a suffix only when it is neither the first nor the last
    character of the name; without such a dot the stem is the whole name.
  */
  function Stem(filename: string): (stem: string)
    ensures var name := BaseName(filename);
      (exists k: nat :: SuffixDot(name, k)) ==> SuffixDot(name, |stem|) && stem == name[..|stem|]
    ensures var name := BaseName(filename);
      (forall k: nat :: !SuffixDot(name, k)) ==> stem == name
  {
    var name := BaseName(filename);
    var r := LastDot(name);
    if r.Some? && 0 < r.value < |name| - 1 then
      assert SuffixDot(name, r.value);
      name[..r.value]
    else
      assert forall k: nat :: !SuffixDot(name, k) by {
        forall k: nat | SuffixDot(name, k) ensures r == Some(k) {
          SuffixDotIsLastDot(name, k);
        }
      }
      name
  }

  // ---- The three date patterns ----

  /**
    `20\d{2}[01]\d[0-3]\d`, `(20\d{2})[-_](\d{2})[-_](\d{2})` and
    `(\d{2})[-_](\d{2})[-_](20\d{2})`.
  */
  datatype Pattern = Compact | YearFirst | MonthFirst

  function Width(p: Pattern): nat {
    match p
    case Compact => 8
    case _ => 10
  }

  /** The pattern matches the stem at position i. */
  predicate MatchesAt(p: Pattern, s: string, i: nat)
    ensures MatchesAt(p, s, i) ==> i + Width(p) <= |s|
    ensures MatchesAt(p, s, i) ==> forall k :: i <= k < i + Width(p) ==> IsDigit(s[k]) || IsSeparator(s[k])
  {
    i + Width(p) <= |s| &&
    match p
    case Compact =>
      s[i] == '2' && s[i + 1] == '0' && IsDigit(s[i + 2]) && IsDigit(s[i + 3])
      && (s[i + 4] == '0' || s[i + 4] == '1') && IsDigit(s[i + 5])
      && '0' <= s[i + 6] <= '3' && IsDigit(s[i + 7])
    case YearFirst =>
      s[i] == '2' && s[i + 1] == '0' && IsDigit(s[i + 2]) && IsDigit(s[i + 3])
      && IsSeparator(s[i + 4]) && IsDigit(s[i + 5]) && IsDigit(s[i + 6])
      && IsSeparator(s[i + 7]) && IsDigit(s[i + 8]) && IsDigit(s[i + 9])
    case MonthFirst =>
      IsDigit(s[i]) && IsDigit(s[i + 1]) && IsSeparator(s[i + 2])
      && IsDigit(s[i + 3]) && IsDigit(s[i + 4]) && IsSeparator(s[i + 5])
      && s[i + 6] == '2' && s[i + 7] == '0' && IsDigit(s[i + 8]) && IsDigit(s[i + 9])
  }

  /** i is where `re.search` reports the pattern: a match with none further left. */
  predicate IsLeftmost(p: Pattern, s: string, i: nat) {
    MatchesAt(p, s, i) && forall k: nat :: k < i ==> !MatchesAt(p, s, k)
  }

  /**
    The year, month and day a match denotes. For the compact form this is the
    only split on which `strptime(raw, "%Y%m%d")` consumes all eight digits: a
    one-digit month or day leaves data unconverted, which is a ValueError.
  */
  function Fields(p: Pattern, s: string, i: nat): (d: Date)
    requires MatchesAt(p, s, i)
    ensures 2000 <= d.year <= 2099 && 0 <= d.month <= 99 && 0 <= d.day <= 99
  {
    match p
    case Compact => Date(FourDigits(s, i), TwoDigits(s, i + 4), TwoDigits(s, i + 6))
    case YearFirst => Date(FourDigits(s, i), TwoDigits(s, i + 5), TwoDigits(s, i + 8))
    case MonthFirst => Date(FourDigits(s, i + 6), TwoDigits(s, i), TwoDigits(s, i + 3))
  }

  /** `re.search` from position start on: the first position at or after start where p matches. */
  function SearchFrom(p: Pattern, s: string, start: nat): (r: Option<nat>)
    ensures r.Some? ==> start <= r.value && MatchesAt(p, s, r.value)
    ensures r.Some? ==> forall k: nat :: start <= k < r.value ==> !MatchesAt(p, s, k)
    ensures r.None? ==> forall k: nat :: start <= k ==> !MatchesAt(p, s, k)
    decreases |s| - start
  {
    if start + Width(p) > |s| then None
    else if MatchesAt(p, s, start) then Some(start)
    else SearchFrom(p, s, start + 1)
  }

  function Search(p: Pattern, s: string): (r: Option<nat>)
    ensures r.Some? ==> IsLeftmost(p, s, r.value)
    ensures r.None? ==> forall k: nat :: !MatchesAt(p, s, k)
  {
    SearchFrom(p, s, 0)
  }

  /** One `if m: ... try ... except ValueError: pass` block: the leftmost match, if it is a real date. */
  function TryPattern(p: Pattern, s: string): (r: Option<Date>)
    ensures r.Some? <==> exists i: nat :: IsLeftmost(p, s, i) && ValidDate(Fields(p, s, i))
    ensures forall i: nat :: IsLeftmost(p, s, i) && ValidDate(Fields(p, s, i)) ==> r == Some(Fields(p, s, i))
  {
    match Search(p, s)
    case None => None
    case Some(i) =>
      LeftmostUnique(p, s);
      var d := Fields(p, s, i);
      if ValidDate(d) then Some(d) else None
  }

  /** A pattern has at most one leftmost match. */
  lemma LeftmostUnique(p: Pattern, s: string)
    ensures forall i: nat, j: nat :: IsLeftmost(p, s, i) && IsLeftmost(p, s, j) ==> i == j
  {
  }

  /** The leftmost match of p is absent or not a real date, so p's block falls through. */
  ghost predicate Rejects(p: Pattern, s: string) {
    forall i: nat :: IsLeftmost(p, s, i) ==> !ValidDate(Fields(p, s, i))
  }

  /**
    The date the tag encodes. It is a real date: either one a pattern denotes
    at its leftmost match in the stem, or `today`.
  */
  function ExtractDate(filename: string, today: Date): (d: Date)
    requires ValidDate(today)
    ensures ValidDate(d)
    ensures d == today || exists p: Pattern, i: nat :: IsLeftmost(p, Stem(filename), i) && d == Fields(p, Stem(filename), i)
  {
    var stem := Stem(filename);
    match TryPattern(Compact, stem)
    case Some(d) => d
    case None =>
      match TryPattern(YearFirst, stem)
      case Some(d) => d
      case None =>
        match TryPattern(MonthFirst, stem)
        case Some(d) => d
        case None => today
  }

  // ---- The tag text ----

  /** A number below 100 as two digits, zero-padded. */
  function Pad2(n: int): (s: string)
    requires 0 <= n <= 99
    ensures |s| == 2 && IsDigit(s[0]) && IsDigit(s[1]) && TwoDigits(s, 0) == n
  {
    [DigitChar(n / 10), DigitChar(n % 10)]
  }

  /** `strftime("%Y_%m_%d")` for a year of four digits. */
  function FormatDate(d: Date): (tag: string)
    requires 1000 <= d.year <= 9999 && 0 <= d.month <= 99 && 0 <= d.day <= 99
    ensures |tag| == 10 && tag[4] == '_' && tag[7] == '_'
    ensures IsDigit(tag[0]) && IsDigit(tag[1]) && IsDigit(tag[2]) && IsDigit(tag[3])
    ensures IsDigit(tag[5]) && IsDigit(tag[6]) && IsDigit(tag[8]) && IsDigit(tag[9])
  {
    Pad2(d.year / 100) + Pad2(d.year % 100) + "_" + Pad2(d.month) + "_" + Pad2(d.day)
  }

  /** Reads a tag YYYY_MM_DD back into the date it names. */
  function ParseTag(tag: string): Option<Date> {
    if |tag| == 10 && tag[4] == '_' && tag[7] == '_'
       && IsDigit(tag[0]) && IsDigit(tag[1]) && IsDigit(tag[2]) && IsDigit(tag[3])
       && IsDigit(tag[5]) && IsDigit(tag[6]) && IsDigit(tag[8]) && IsDigit(tag[9])
    then Some(Date(FourDigits(tag, 0), TwoDigits(tag, 5), TwoDigits(tag, 8)))
    else None
  }

  /** The tag names its date unambiguously: reading it back gives the date. */
  lemma FormatRoundTrip(d: Date)
    requires 1000 <= d.year <= 9999 && 0 <= d.month <= 99 && 0 <= d.day <= 99
    ensures ParseTag(FormatDate(d)) == Some(d)
  {
    var hi, lo, m, dd := Pad2(d.year / 100), Pad2(d.year % 100), Pad2(d.month), Pad2(d.day);
    var tag := FormatDate(d);
    assert tag == hi + lo + "_" + m + "_" + dd;
    assert tag[0] == hi[0] && tag[1] == hi[1] && tag[2] == lo[0] && tag[3] == lo[1];
    assert tag[5] == m[0] && tag[6] == m[1] && tag[8] == dd[0] && tag[9] == dd[1];
    assert TwoDigits(tag, 0) == TwoDigits(hi, 0) && TwoDigits(tag, 2) == TwoDigits(lo, 0);
    assert TwoDigits(tag, 5) == TwoDigits(m, 0) && TwoDigits(tag, 8) == TwoDigits(dd, 0);
  }

  /** Two dates with the same tag are the same date. */
  lemma FormatInjective(d1: Date, d2: Date)
    requires 1000 <= d1.year <= 9999 && 0 <= d1.month <= 99 && 0 <= d1.day <= 99
    requires 1000 <= d2.year <= 9999 && 0 <= d2.month <= 99 && 0 <= d2.day <= 99
    requires FormatDate(d1) == FormatDate(d2)
    ensures d1 == d2
  {
    FormatRoundTrip(d1);
    FormatRoundTrip(d2);
  }

  /**
    `_extract_date_tag_from_filename(filename)` with `datetime.today()` passed
    in as `today` (a year of four digits). The tag is always ten characters
    YYYY_MM_DD and reads back to the extracted date.
  */
  function ExtractDateTag(filename: string, today: Date): (tag: string)
    requires ValidDate(today) && 1000 <= today.year
    ensures |tag| == 10 && tag[4] == '_' && tag[7] == '_'
    ensures ParseTag(tag) == Some(ExtractDate(filename, today))
  {
    var d := ExtractDate(filename, today);
    FormatRoundTrip(d);
    FormatDate(d)
  }

  // ---- Which pattern decides ----

  /** A compact date that is a real date wins over everything else. */
  lemma CompactFirst(filename: string, today: Date, i: nat)
    requires ValidDate(today)
    requires IsLeftmost(Compact, Stem(filename), i) && ValidDate(Fields(Compact, Stem(filename), i))
    ensures ExtractDate(filename, today) == Fields(Compact, Stem(filename), i)
  {
  }

  /** Otherwise a real year-first date at the leftmost year-first match decides. */
  lemma YearFirstSecond(filename: string, today: Date, i: nat)
    requires ValidDate(today)
    requires Rejects(Compact, Stem(filename))
    requires IsLeftmost(YearFirst, Stem(filename), i) && ValidDate(Fields(YearFirst, Stem(filename), i))
    ensures ExtractDate(filename, today) == Fields(YearFirst, Stem(filename), i)
  {
  }

  /** Then a real month-first date at the leftmost month-first match. */
  lemma MonthFirstThird(filename: string, today: Date, i: nat)
    requires ValidDate(today)
    requires Rejects(Compact, Stem(filename)) && Rejects(YearFirst, Stem(filename))
    requires IsLeftmost(MonthFirst, Stem(filename), i) && ValidDate(Fields(MonthFirst, Stem(filename), i))
    ensures ExtractDate(filename, today) == Fields(MonthFirst, Stem(filename), i)
  {
  }

  /** The tag falls back to today exactly when every pattern's block falls through. */
  lemma TodayWhenAllReject(filename: string, today: Date)
    requires ValidDate(today)
    requires Rejects(Compact, Stem(filename)) && Rejects(YearFirst, Stem(filename)) && Rejects(MonthFirst, Stem(filename))
    ensures ExtractDate(filename, today) == today
  {
    var stem := Stem(filename);
    assert TryPattern(Compact, stem).None?;
    assert TryPattern(YearFirst, stem).None?;
    assert TryPattern(MonthFirst, stem).None?;
  }

  lemma {:induction false} BaseNameNoSlash(s: string)
    requires '/' !in s
    ensures BaseName(s) == s
  {
    if |s| > 0 {
      var last := |s| - 1;
      assert '/' !in s[..last] by {
        forall k | 0 <= k < last ensures s[..last][k] != '/' {
          assert s[..last][k] == s[k];
        }
      }
      BaseNameNoSlash(s[..last]);
      assert s[last] in s;
      assert BaseName(s) == BaseName(s[..last]) + [s[last]];
      assert s == s[..last] + [s[last]];
    }
  }

  /** A plain name "base.ext" whose extension holds no dot has stem "base". */
  lemma StemDropsExtension(base: string, ext: string)
    requires |base| > 0 && |ext| > 0
    requires '/' !in base && '/' !in ext && '.' !in ext
    ensures Stem(base + "." + ext) == base
  {
    var name := base + "." + ext;
    assert '/' !in name by {
      forall k | 0 <= k < |name| ensures name[k] != '/' {
        if k < |base| { assert name[k] == base[k]; }
        else if k > |base| { assert name[k] == ext[k - |base| - 1]; }
      }
    }
    BaseNameNoSlash(name);
    var r := LastDot(name);
    assert name[|base|] == '.';
    assert r == Some(|base|);
    assert name[..|base|] == base;
  }

  /** The base name of "dir/name" is name when name holds no slash. */
  lemma {:induction false} BaseNameAfterSlash(dir: string, name: string)
    requires '/' !in name
    ensures BaseName(dir + "/" + name) == name
  {
    if |name| > 0 {
      var last := |name| - 1;
      assert '/' !in name[..last] by {
        forall k | 0 <= k < last ensures name[..last][k] != '/' {
          assert name[..last][k] == name[k];
        }
      }
      BaseNameAfterSlash(dir, name[..last]);
      var path := dir + "/" + name;
      assert path[..|path| - 1] == dir + "/" + name[..last];
      assert name[last] in name;
      assert name == name[..last] + [name[last]];
    }
  }

  /** In a path "dir/base.ext" the directory and the extension are both dropped. */
  lemma StemOfPathDropsExtension(dir: string, base: string, ext: string)
    requires |base| > 0 && |ext| > 0
    requires '/' !in base && '/' !in ext && '.' !in ext
    ensures Stem(dir + "/" + base + "." + ext) == base
  {
    var name := base + "." + ext;
    assert '/' !in name by {
      forall k | 0 <= k < |name| ensures name[k] != '/' {
        if k < |base| { assert name[k] == base[k]; }
        else if k > |base| { assert name[k] == ext[k - |base| - 1]; }
      }
    }
    var path := dir + "/" + base + "." + ext;
    assert path == dir + "/" + name;
    BaseNameAfterSlash(dir, name);
    assert SuffixDot(name, |base|) by {
      forall m | |base| < m < |name| ensures name[m] != '.' {
        assert name[m] == ext[m - |base| - 1];
      }
    }
    var stem := Stem(path);
    SuffixDotIsLastDot(name, |base|);
    SuffixDotIsLastDot(name, |stem|);
    assert name[..|base|] == base;
  }

  /** A name with neither a slash nor a dot is its own stem. */
  lemma StemOfPlainName(name: string)
    requires '/' !in name && '.' !in name
    ensures Stem(name) == name
  {
    BaseNameNoSlash(name);
  }

  /**
    Only the leftmost compact match is tried: when it is not a real date, a
    later compact match that is one (as in "20241332_20240506") is ignored and
    the compact block falls through.
  */
  lemma LaterCompactIgnored(s: string, i: nat, j: nat)
    requires IsLeftmost(Compact, s, i) && !ValidDate(Fields(Compact, s, i))
    requires i < j && MatchesAt(Compact, s, j) && ValidDate(Fields(Compact, s, j))
    ensures TryPattern(Compact, s).None?
    ensures Rejects(Compact, s)
  {
    LeftmostUnique(Compact, s);
  }

  lemma NoEarlyPattern(s: string)
    requires s == "07-07-2025"
    ensures Rejects(Compact, s) && Rejects(YearFirst, s)
  {
    assert s[0] == '0' && s[1] == '7' && s[2] == '-';
    forall k: nat ensures !MatchesAt(Compact, s, k) && !MatchesAt(YearFirst, s, k) {
      assert k + 8 <= |s| ==> k == 0 || k == 1 || k == 2;
    }
  }

  lemma MonthFirstAtStart(s: string)
    requires s == "07-07-2025"
    ensures IsLeftmost(MonthFirst, s, 0) && Fields(MonthFirst, s, 0) == Date(2025, 7, 7)
  {
  }

  /** A file named "07-07-2025" has no compact or year-first date and yields 7 July 2025. */
  lemma MonthFirstExample(s: string, today: Date)
    requires s == "07-07-2025" && ValidDate(today)
    ensures ExtractDate(s, today) == Date(2025, 7, 7)
  {
    StemOfPlainName(s);
    NoEarlyPattern(s);
    MonthFirstAtStart(s);
    MonthFirstThird(s, today, 0);
  }

}
