/**
 * The deadline parsing of `map_job_to_api_format` (scraper_api.py:257-271):
 * `datetime.strptime` tried with four formats in order, the first success
 * re-emitted as `%Y-%m-%d`.
 *
 * `strptime` turns its format into a regular expression, matches it at the
 * start of the text with the usual first-alternative-first backtracking, and
 * fails when the match stops short of the end of the text or the fields do
 * not make a calendar date. This module implements that procedure for the
 * directives the four formats use. The alternatives of the numeric directives
 * are tried in the order the expression lists them. For `%B` the expression
 * lists the month names longest first, while `MONTH_NAMES` is in calendar
 * order; the result is the same, because at most one month name matches at
 * any position (`MonthNameAltsUnique`).
 */
module Dates {
  import opened Wrappers
  import opened Text

  datatype Date = Date(year: nat, month: nat, day: nat)

  predicate IsLeap(y: nat) {
    y % 4 == 0 && (y % 100 != 0 || y % 400 == 0)
  }

  function DaysInMonth(y: nat, m: nat): (n: nat)
    requires 1 <= m <= 12
    ensures 28 <= n <= 31
  {
    if m == 2 then (if IsLeap(y) then 29 else 28)
    else if m == 4 || m == 6 || m == 9 || m == 11 then 30
    else 31
  }

  /** A date `datetime` accepts: years 1 to 9999 and a day that exists in its month. */
  predicate ValidDate(d: Date) {
    1 <= d.year <= 9999 && 1 <= d.month <= 12 && 1 <= d.day <= DaysInMonth(d.year, d.month)
  }

  /** The format directives of the deadline formats; a space in a format stands for one or more whitespace characters. */
  datatype Directive = DayOfMonth | MonthNumber | MonthName | Year4 | Whitespace | Literal(c: char)

  /** `%B %d, %Y` */
  const LONG_MONTH_FIRST: seq<Directive> := [MonthName, Whitespace, DayOfMonth, Literal(','), Whitespace, Year4]
  /** `%d %B %Y` */
  const LONG_DAY_FIRST: seq<Directive> := [DayOfMonth, Whitespace, MonthName, Whitespace, Year4]
  /** `%Y-%m-%d` */
  const ISO: seq<Directive> := [Year4, Literal('-'), MonthNumber, Literal('-'), DayOfMonth]
  /** `%d/%m/%Y` */
  const SLASHED: seq<Directive> := [DayOfMonth, Literal('/'), MonthNumber, Literal('/'), Year4]

  /** The formats in the order they are tried. */
  const DEADLINE_FORMATS: seq<seq<Directive>> := [LONG_MONTH_FIRST, LONG_DAY_FIRST, ISO, SLASHED]

  /** English month names, lower case, January first. */
  const MONTH_NAMES: seq<string> := [
    "january", "february", "march", "april", "may", "june",
    "july", "august", "september", "october", "november", "december"
  ]

  /** One way a directive can match at a position: the number it reads and where it stops. */
  datatype Alt = Alt(value: nat, end: nat)

  predicate IsNonZeroDigit(c: char) {
    '1' <= c <= '9'
  }

  /** `3[01]|[12]\d|0[1-9]|[1-9]| [1-9]`, in that order. */
  function DayAlts(s: string, i: nat): (r: seq<Alt>)
    requires i <= |s|
    ensures forall k :: 0 <= k < |r| ==> i < r[k].end <= i + 2 && r[k].end <= |s|
  {
    var two := i + 1 < |s|;
    (if two && s[i] == '3' && (s[i + 1] == '0' || s[i + 1] == '1') then [Alt(30 + DigitValue(s[i + 1]), i + 2)] else [])
    + (if two && (s[i] == '1' || s[i] == '2') && IsDigit(s[i + 1]) then [Alt(10 * DigitValue(s[i]) + DigitValue(s[i + 1]), i + 2)] else [])
    + (if two && s[i] == '0' && IsNonZeroDigit(s[i + 1]) then [Alt(DigitValue(s[i + 1]), i + 2)] else [])
    + (if i < |s| && IsNonZeroDigit(s[i]) then [Alt(DigitValue(s[i]), i + 1)] else [])
    + (if two && s[i] == ' ' && IsNonZeroDigit(s[i + 1]) then [Alt(DigitValue(s[i + 1]), i + 2)] else [])
  }

  /** `1[0-2]|0[1-9]|[1-9]`, in that order. */
  function MonthAlts(s: string, i: nat): seq<Alt>
    requires i <= |s|
  {
    var two := i + 1 < |s|;
    (if two && s[i] == '1' && '0' <= s[i + 1] <= '2' then [Alt(10 + DigitValue(s[i + 1]), i + 2)] else [])
    + (if two && s[i] == '0' && IsNonZeroDigit(s[i + 1]) then [Alt(DigitValue(s[i + 1]), i + 2)] else [])
    + (if i < |s| && IsNonZeroDigit(s[i]) then [Alt(DigitValue(s[i]), i + 1)] else [])
  }

  /** Four digits. */
  function YearAlts(s: string, i: nat): seq<Alt>
    requires i <= |s|
  {
    if i + 4 <= |s| && AllDigits(s[i..i + 4]) then
      [Alt(1000 * DigitValue(s[i]) + 100 * DigitValue(s[i + 1]) + 10 * DigitValue(s[i + 2]) + DigitValue(s[i + 3]), i + 4)]
    else []
  }

  /** The full month names from index `k` on that match, ignoring case, at position `i`; the value is the month number. */
  function MonthNameAltsFrom(s: string, i: nat, k: nat): seq<Alt>
    requires i <= |s| && k <= |MONTH_NAMES|
    decreases |MONTH_NAMES| - k
  {
    if k == |MONTH_NAMES| then []
    else
      var name := MONTH_NAMES[k];
      (if i + |name| <= |s| && Lower(s[i..i + |name|]) == name then [Alt(k + 1, i + |name|)] else [])
      + MonthNameAltsFrom(s, i, k + 1)
  }

  /** The end of the run of whitespace starting at `i`. */
  function SpaceRunEnd(s: string, i: nat): (j: nat)
    requires i <= |s|
    ensures i <= j <= |s|
    decreases |s| - i
  {
    if i < |s| && IsSpace(s[i]) then SpaceRunEnd(s, i + 1) else i
  }

  /** `\s+`: the longest run first, then each shorter one. */
  function WhitespaceAlts(s: string, i: nat): seq<Alt>
    requires i <= |s|
  {
    var j := SpaceRunEnd(s, i);
    seq(j - i, k requires 0 <= k < j - i => Alt(0, j - k))
  }

  function Alts(d: Directive, s: string, i: nat): (r: seq<Alt>)
    requires i <= |s|
    ensures forall k :: 0 <= k < |r| ==> i < r[k].end <= |s|
  {
    match d
    case DayOfMonth => DayAlts(s, i)
    case MonthNumber => MonthAlts(s, i)
    case Year4 => YearAlts(s, i)
    case MonthName => MonthNameEnds(s, i, 0); MonthNameAltsFrom(s, i, 0)
    case Whitespace => WhitespaceAlts(s, i)
    case Literal(c) => if i < |s| && s[i] == c then [Alt(0, i + 1)] else []
  }

  lemma {:induction false} MonthNameEnds(s: string, i: nat, k: nat)
    requires i <= |s| && k <= |MONTH_NAMES|
    ensures forall a :: a in MonthNameAltsFrom(s, i, k) ==> i < a.end <= |s|
    decreases |MONTH_NAMES| - k
  {
    if k < |MONTH_NAMES| {
      MonthNameEnds(s, i, k + 1);
      assert |MONTH_NAMES[k]| > 0;
    }
  }

  /** The fields read so far; `strptime` starts from 1900-01-01. */
  function Record(d: Directive, v: nat, f: Date): Date {
    match d
    case DayOfMonth => f.(day := v)
    case MonthNumber => f.(month := v)
    case MonthName => f.(month := v)
    case Year4 => f.(year := v)
    case _ => f
  }

  /** Matches `dirs` at position `i`: the fields and end position of the first path that completes. */
  function Match(dirs: seq<Directive>, s: string, i: nat, f: Date): Option<(Date, nat)>
    requires i <= |s|
    decreases |dirs|, 1, 0
  {
    if dirs == [] then Some((f, i)) else TryAlts(dirs, s, Alts(dirs[0], s, i), f)
  }

  /** Tries the alternatives of the first directive in order, backtracking into the next on failure. */
  function TryAlts(dirs: seq<Directive>, s: string, alts: seq<Alt>, f: Date): Option<(Date, nat)>
    requires dirs != []
    requires forall k :: 0 <= k < |alts| ==> alts[k].end <= |s|
    decreases |dirs|, 0, |alts|
  {
    if alts == [] then None
    else
      match Match(dirs[1..], s, alts[0].end, Record(dirs[0], alts[0].value, f))
      case Some(r) => Some(r)
      case None => TryAlts(dirs, s, alts[1..], f)
  }

  /** `datetime.strptime(s, format)`: the date, or `None` where it raises. */
  function Strptime(s: string, format: seq<Directive>): (r: Option<Date>)
    ensures r.Some? ==> ValidDate(r.value)
  {
    match Match(format, s, 0, Date(1900, 1, 1))
    case None => None
    case Some((d, end)) => if end == |s| && ValidDate(d) then Some(d) else None
  }

  /** The first of `formats` that parses `s`. */
  function FirstParse(formats: seq<seq<Directive>>, s: string): (r: Option<Date>)
    ensures r.Some? ==> ValidDate(r.value)
    ensures r.None? ==> forall k :: 0 <= k < |formats| ==> Strptime(s, formats[k]).None?
    ensures r.Some? ==> exists k :: 0 <= k < |formats| && r == Strptime(s, formats[k])
                                    && forall j :: 0 <= j < k ==> Strptime(s, formats[j]).None?
    decreases |formats|
  {
    if formats == [] then None
    else
      var here := Strptime(s, formats[0]);
      if here.Some? then here
      else
        var r := FirstParse(formats[1..], s);
        assert forall k :: 1 <= k < |formats| ==> formats[k] == formats[1..][k - 1];
        r
  }

  /** When format `k` parses and none before it does, format `k` decides the date. */
  lemma FirstParseAt(formats: seq<seq<Directive>>, s: string, k: nat)
    requires k < |formats| && Strptime(s, formats[k]).Some?
    requires forall j :: 0 <= j < k ==> Strptime(s, formats[j]).None?
    ensures FirstParse(formats, s) == Strptime(s, formats[k])
  {
    var r := FirstParse(formats, s);
    if r.Some? {
      var k' :| 0 <= k' < |formats| && r == Strptime(s, formats[k'])
                && forall j :: 0 <= j < k' ==> Strptime(s, formats[j]).None?;
      assert k' == k;
    }
  }

  function Pad2(n: nat): (r: string)
    requires n < 100
    ensures |r| == 2 && AllDigits(r)
  {
    [DigitChar(n / 10), DigitChar(n % 10)]
  }

  function Pad4(n: nat): (r: string)
    requires n < 10000
    ensures |r| == 4 && AllDigits(r)
  {
    [DigitChar(n / 1000), DigitChar(n / 100 % 10), DigitChar(n / 10 % 10), DigitChar(n % 10)]
  }

  /** Fields `%Y-%m-%d` can read: a four-digit year, a month 1 to 12, a day 1 to 31. */
  predicate InIsoRange(d: Date) {
    d.year < 10000 && 1 <= d.month <= 12 && 1 <= d.day <= 31
  }

  /** The fields written `YYYY-MM-DD`, each zero-padded. */
  function IsoText(d: Date): (r: string)
    requires InIsoRange(d)
    ensures |r| == 10 && r[4] == '-' && r[7] == '-'
  {
    Pad4(d.year) + "-" + Pad2(d.month) + "-" + Pad2(d.day)
  }

  /** `strftime("%Y-%m-%d")`, the year written with four digits. */
  function FormatIso(d: Date): string
    requires ValidDate(d)
  {
    IsoText(d)
  }

  /** `expiration_date`: `None` for a missing or empty deadline or one no format parses. */
  function ExpirationDate(deadline: Option<string>): Option<string> {
    if !Truthy(deadline) then None
    else
      match FirstParse(DEADLINE_FORMATS, deadline.value)
      case None => None
      case Some(d) => Some(FormatIso(d))
  }

  /** The format loop, leaving it at the first format that parses. */
  method ParseDeadline(deadline: Option<string>) returns (expiration: Option<string>)
    ensures expiration == ExpirationDate(deadline)
  {
    expiration := None;
    if !Truthy(deadline) {
      return;
    }
    var text := deadline.value;
    var k := 0;
    while k < |DEADLINE_FORMATS|
      invariant 0 <= k <= |DEADLINE_FORMATS|
      invariant FirstParse(DEADLINE_FORMATS, text) == FirstParse(DEADLINE_FORMATS[k..], text)
    {
      var parsed := Strptime(text, DEADLINE_FORMATS[k]);
      if parsed.Some? {
        expiration := Some(FormatIso(parsed.value));
        return;
      }
      assert DEADLINE_FORMATS[k..][1..] == DEADLINE_FORMATS[k + 1..];
      k := k + 1;
    }
  }

  /** What comes out is always a real date written as `YYYY-MM-DD`. */
  lemma ExpirationDateShape(deadline: Option<string>)
    ensures ExpirationDate(deadline).Some? ==>
      exists d :: ValidDate(d) && ExpirationDate(deadline) == Some(FormatIso(d))
  {
    if ExpirationDate(deadline).Some? {
      var d := FirstParse(DEADLINE_FORMATS, deadline.value).value;
      assert ValidDate(d) && ExpirationDate(deadline) == Some(FormatIso(d));
    }
  }

  /** Four digits split off `n` recombine to `n`. */
  lemma FourDigits(n: nat)
    requires n < 10000
    ensures 1000 * (n / 1000) + 100 * (n / 100 % 10) + 10 * (n / 10 % 10) + n % 10 == n
  {
    var q := n / 10;
    assert n == 10 * q + n % 10;
    assert n / 100 == q / 10 && n / 1000 == q / 100;
    var p := q / 10;
    assert q == 10 * p + q % 10;
    assert q / 100 == p / 10;
    assert p == 10 * (p / 10) + p % 10;
  }

  /** The year, month and day fields of `FormatIso` are read back by the directives of `%Y-%m-%d`. */
  lemma YearAltsOfPad4(s: string, i: nat, n: nat)
    requires n < 10000 && i + 4 <= |s| && s[i..i + 4] == Pad4(n)
    ensures YearAlts(s, i) == [Alt(n, i + 4)]
  {
    var w := s[i..i + 4];
    assert w[0] == s[i] && w[1] == s[i + 1] && w[2] == s[i + 2] && w[3] == s[i + 3];
    assert DigitValue(s[i]) == n / 1000 && DigitValue(s[i + 1]) == n / 100 % 10;
    assert DigitValue(s[i + 2]) == n / 10 % 10 && DigitValue(s[i + 3]) == n % 10;
    FourDigits(n);
  }

  lemma MonthAltsOfPad2(s: string, i: nat, n: nat)
    requires 1 <= n <= 12 && i + 2 <= |s| && s[i..i + 2] == Pad2(n)
    ensures MonthAlts(s, i) != [] && MonthAlts(s, i)[0] == Alt(n, i + 2)
  {
    assert s[i] == s[i..i + 2][0] == DigitChar(n / 10);
    assert s[i + 1] == s[i..i + 2][1] == DigitChar(n % 10);
  }

  lemma DayAltsOfPad2(s: string, i: nat, n: nat)
    requires 1 <= n <= 31 && i + 2 <= |s| && s[i..i + 2] == Pad2(n)
    ensures DayAlts(s, i) != [] && DayAlts(s, i)[0] == Alt(n, i + 2)
  {
    assert s[i] == s[i..i + 2][0] == DigitChar(n / 10);
    assert s[i + 1] == s[i..i + 2][1] == DigitChar(n % 10);
  }

  /** Every month name starts with a letter. */
  lemma MonthNamesStartWithLetters()
    ensures forall k :: 0 <= k < |MONTH_NAMES| ==> |MONTH_NAMES[k]| > 0 && 'a' <= MONTH_NAMES[k][0] <= 'z'
  {
  }

  /** No month name matches at a digit. */
  lemma {:induction false} NoMonthNameAtDigit(s: string, i: nat, k: nat)
    requires i < |s| && IsDigit(s[i]) && k <= |MONTH_NAMES|
    ensures MonthNameAltsFrom(s, i, k) == []
    decreases |MONTH_NAMES| - k
  {
    if k < |MONTH_NAMES| {
      NoMonthNameAtDigit(s, i, k + 1);
      MonthNamesStartWithLetters();
      var name := MONTH_NAMES[k];
      if i + |name| <= |s| {
        assert Lower(s[i..i + |name|])[0] == s[i];
      }
    }
  }

  /** When every alternative leads nowhere, the directive fails. */
  lemma {:induction false} TryAltsFail(dirs: seq<Directive>, s: string, alts: seq<Alt>, f: Date)
    requires dirs != []
    requires forall k :: 0 <= k < |alts| ==> alts[k].end <= |s|
    requires forall k :: 0 <= k < |alts| ==> Match(dirs[1..], s, alts[k].end, Record(dirs[0], alts[k].value, f)).None?
    ensures TryAlts(dirs, s, alts, f).None?
    decreases |alts|
  {
    if alts != [] {
      TryAltsFail(dirs, s, alts[1..], f);
    }
  }

  /** A format whose next directive is whitespace fails where no whitespace follows. */
  lemma WhitespaceFails(dirs: seq<Directive>, s: string, i: nat, f: Date)
    requires dirs != [] && dirs[0] == Whitespace && i <= |s| && (i == |s| || !IsSpace(s[i]))
    ensures Match(dirs, s, i, f).None?
  {
    assert WhitespaceAlts(s, i) == [];
  }

  /** A format whose next directive is a literal fails where another character follows. */
  lemma LiteralFails(dirs: seq<Directive>, s: string, i: nat, f: Date)
    requires dirs != [] && dirs[0].Literal? && i <= |s| && (i == |s| || s[i] != dirs[0].c)
    ensures Match(dirs, s, i, f).None?
  {
  }

  /** A text starting with a digit is not `%B %d, %Y`. */
  lemma LongMonthFirstRejectsDigit(s: string)
    requires |s| > 0 && IsDigit(s[0])
    ensures Strptime(s, LONG_MONTH_FIRST).None?
  {
    NoMonthNameAtDigit(s, 0, 0);
    assert Alts(MonthName, s, 0) == [];
  }

  /**
   * `%d %B %Y` needs whitespace right after the one or two characters of the
   * day, so a text whose second and third characters are not whitespace fails.
   */
  lemma LongDayFirstNeedsSpace(s: string)
    requires |s| >= 3 && !IsSpace(s[1]) && !IsSpace(s[2])
    ensures Strptime(s, LONG_DAY_FIRST).None?
  {
    var start := Date(1900, 1, 1);
    var dayAlts := DayAlts(s, 0);
    forall k | 0 <= k < |dayAlts|
      ensures Match(LONG_DAY_FIRST[1..], s, dayAlts[k].end, Record(DayOfMonth, dayAlts[k].value, start)).None?
    {
      WhitespaceFails(LONG_DAY_FIRST[1..], s, dayAlts[k].end, Record(DayOfMonth, dayAlts[k].value, start));
    }
    TryAltsFail(LONG_DAY_FIRST, s, dayAlts, start);
  }

  /** The month and day of `IsoText` are read back by the tail of `%Y-%m-%d`. */
  lemma IsoTailMatches(d: Date, f1: Date)
    requires InIsoRange(d) && f1 == Date(d.year, 1, 1)
    ensures Match(ISO[2..], IsoText(d), 5, f1) == Some((d, 10))
  {
    var s := IsoText(d);
    assert s[5..7] == Pad2(d.month) && s[8..10] == Pad2(d.day);
    MonthAltsOfPad2(s, 5, d.month);
    DayAltsOfPad2(s, 8, d.day);
    var f3 := f1.(month := d.month);
    assert f3.(day := d.day) == d;
    assert Match(ISO[5..], s, 10, d) == Some((d, 10));
    assert Match(ISO[4..], s, 8, f3) == Some((d, 10));
    assert Match(ISO[3..], s, 7, f3) == Some((d, 10));
  }

  /** `%Y-%m-%d` reads each field of `IsoText` back with its first alternative. */
  lemma IsoMatches(d: Date)
    requires InIsoRange(d)
    ensures Match(ISO, IsoText(d), 0, Date(1900, 1, 1)) == Some((d, 10))
  {
    var s := IsoText(d);
    assert s[0..4] == Pad4(d.year);
    YearAltsOfPad4(s, 0, d.year);
    var f1 := Date(d.year, 1, 1);
    IsoTailMatches(d, f1);
    assert Match(ISO[1..], s, 4, f1) == Some((d, 10));
  }

  /** `%Y-%m-%d` gives back the date `FormatIso` wrote. */
  lemma IsoParsesFormatIso(d: Date)
    requires ValidDate(d)
    ensures Strptime(FormatIso(d), ISO) == Some(d)
  {
    IsoMatches(d);
  }

  /**
   * A date written `YYYY-MM-DD` by `FormatIso` is parsed by `%Y-%m-%d`, the
   * first format that accepts it, and comes out unchanged.
   */
  lemma IsoRoundTrip(d: Date)
    requires ValidDate(d)
    ensures ExpirationDate(Some(FormatIso(d))) == Some(FormatIso(d))
  {
    var s := FormatIso(d);
    assert |s| == 10 && IsDigit(s[0]) && IsDigit(s[1]) && IsDigit(s[2]) by {
      assert s[0..4] == Pad4(d.year);
    }
    assert Strptime(s, DEADLINE_FORMATS[0]).None? by { LongMonthFirstRejectsDigit(s); }
    assert Strptime(s, DEADLINE_FORMATS[1]).None? by { LongDayFirstNeedsSpace(s); }
    assert Strptime(s, DEADLINE_FORMATS[2]) == Some(d) by { IsoParsesFormatIso(d); }
    ExpirationDateAt(s, 2, d);
  }

  /** Two month names differ in their first three letters. */
  lemma MonthNamesDistinctPrefixes(j: nat, k: nat)
    requires j < |MONTH_NAMES| && k < |MONTH_NAMES| && j != k
    ensures |MONTH_NAMES[j]| >= 3 && |MONTH_NAMES[k]| >= 3
    ensures MONTH_NAMES[j][..3] != MONTH_NAMES[k][..3]
  {
    var a := MONTH_NAMES[j];
    var b := MONTH_NAMES[k];
    assert a[0] != b[0] || a[1] != b[1] || a[2] != b[2];
  }

  /** Where month `m` is read at `i`, month `k` is not. */
  lemma OtherMonthNameFails(s: string, i: nat, m: nat, k: nat)
    requires m < |MONTH_NAMES| && k < |MONTH_NAMES| && k != m
    requires i + |MONTH_NAMES[m]| <= |s| && Lower(s[i..i + |MONTH_NAMES[m]|]) == MONTH_NAMES[m]
    requires i + |MONTH_NAMES[k]| <= |s|
    ensures Lower(s[i..i + |MONTH_NAMES[k]|]) != MONTH_NAMES[k]
  {
    MonthNamesDistinctPrefixes(m, k);
    var a := Lower(s[i..i + |MONTH_NAMES[k]|]);
    var b := Lower(s[i..i + |MONTH_NAMES[m]|]);
    assert a[0] == b[0] && a[1] == b[1] && a[2] == b[2];
    assert a[..3] == b[..3];
  }

  /** A month name read at `i` is the only one that matches there. */
  lemma {:induction false} MonthNameAltsUnique(s: string, i: nat, m: nat, k: nat)
    requires i <= |s| && m < |MONTH_NAMES| && k <= |MONTH_NAMES|
    requires i + |MONTH_NAMES[m]| <= |s| && Lower(s[i..i + |MONTH_NAMES[m]|]) == MONTH_NAMES[m]
    ensures MonthNameAltsFrom(s, i, k) == if k <= m then [Alt(m + 1, i + |MONTH_NAMES[m]|)] else []
    decreases |MONTH_NAMES| - k
  {
    if k < |MONTH_NAMES| {
      MonthNameAltsUnique(s, i, m, k + 1);
      if k != m && i + |MONTH_NAMES[k]| <= |s| {
        OtherMonthNameFails(s, i, m, k);
      }
    }
  }

  /** When the first alternative of the first directive leads to a match, that match is the result. */
  lemma MatchFirstAlt(dirs: seq<Directive>, s: string, i: nat, f: Date, alt: Alt)
    requires dirs != [] && i <= |s|
    requires Alts(dirs[0], s, i) != [] && Alts(dirs[0], s, i)[0] == alt
    requires Match(dirs[1..], s, alt.end, Record(dirs[0], alt.value, f)).Some?
    ensures Match(dirs, s, i, f) == Match(dirs[1..], s, alt.end, Record(dirs[0], alt.value, f))
  {
  }

  /** A literal character read where it stands. */
  lemma LiteralAt(dirs: seq<Directive>, s: string, i: nat, c: char, f: Date)
    requires dirs != [] && dirs[0] == Literal(c) && i < |s| && s[i] == c
    requires Match(dirs[1..], s, i + 1, f).Some?
    ensures Match(dirs, s, i, f) == Match(dirs[1..], s, i + 1, f)
  {
    assert Alts(dirs[0], s, i) == [Alt(0, i + 1)];
    MatchFirstAlt(dirs, s, i, f, Alt(0, i + 1));
  }

  /** The day as it is usually typed: one digit below 10, two digits otherwise. */
  function DayText(n: nat): (r: string)
    requires 1 <= n <= 31
    ensures 1 <= |r| <= 2 && AllDigits(r)
  {
    if n < 10 then [DigitChar(n)] else Pad2(n)
  }

  /** `%d` reads a day written by `DayText` back with its first alternative when no digit follows. */
  lemma DayAltsOfDayText(s: string, i: nat, n: nat)
    requires 1 <= n <= 31 && i + |DayText(n)| < |s| && s[i..i + |DayText(n)|] == DayText(n)
    requires !IsDigit(s[i + |DayText(n)|])
    ensures DayAlts(s, i) != [] && DayAlts(s, i)[0] == Alt(n, i + |DayText(n)|)
  {
    if n < 10 {
      assert s[i] == s[i..i + 1][0] == DigitChar(n);
    } else {
      DayAltsOfPad2(s, i, n);
    }
  }

  /** A single space followed by something else is read as whitespace in one way only. */
  lemma SingleSpace(s: string, i: nat)
    requires i < |s| && s[i] == ' ' && (i + 1 == |s| || !IsSpace(s[i + 1]))
    ensures WhitespaceAlts(s, i) == [Alt(0, i + 1)]
  {
    assert SpaceRunEnd(s, i + 1) == i + 1;
  }

  /** Where `name` is written, its month's lower-case name is read. */
  lemma MonthNameKey(s: string, i: nat, name: string, m: nat)
    requires 1 <= m <= 12 && Lower(name) == MONTH_NAMES[m - 1]
    requires i + |name| <= |s| && s[i..i + |name|] == name
    ensures |MONTH_NAMES[m - 1]| == |name| && Lower(s[i..i + |MONTH_NAMES[m - 1]|]) == MONTH_NAMES[m - 1]
  {
    assert |Lower(name)| == |name|;
  }

  /** A month name in any letter case is read as its month, and as nothing else. */
  lemma MonthNameAt(s: string, i: nat, name: string, m: nat)
    requires 1 <= m <= 12 && Lower(name) == MONTH_NAMES[m - 1]
    requires i + |name| <= |s| && s[i..i + |name|] == name
    ensures Alts(MonthName, s, i) == [Alt(m, i + |name|)]
  {
    MonthNameKey(s, i, name, m);
    MonthNameAltsUnique(s, i, m - 1, 0);
  }

  /** A directive list that starts with `%B`, where a month's name is written: the name is read and the rest goes on after it. */
  lemma MonthNameStep(dirs: seq<Directive>, s: string, i: nat, name: string, m: nat, f: Date)
    requires dirs != [] && dirs[0] == MonthName
    requires 1 <= m <= 12 && Lower(name) == MONTH_NAMES[m - 1]
    requires i + |name| <= |s| && s[i..i + |name|] == name
    requires Match(dirs[1..], s, i + |name|, f.(month := m)).Some?
    ensures Match(dirs, s, i, f) == Match(dirs[1..], s, i + |name|, f.(month := m))
  {
    MonthNameAt(s, i, name, m);
    MatchFirstAlt(dirs, s, i, f, Alt(m, i + |name|));
  }

  /** A month name starts with a letter. */
  lemma MonthNameStart(name: string, m: nat)
    requires 1 <= m <= 12 && Lower(name) == MONTH_NAMES[m - 1]
    ensures |name| > 0 && !IsSpace(name[0]) && !IsDigit(name[0])
  {
    MonthNamesStartWithLetters();
    assert 'a' <= Lower(name)[0] <= 'z';
  }

  /** One space and a four-digit year: how both long formats end. */
  lemma SpaceThenYear(s: string, b: nat, f: Date)
    requires b + 5 == |s| && s[b] == ' ' && !IsSpace(s[b + 1])
    requires YearAlts(s, b + 1) == [Alt(f.year, |s|)]
    ensures Match([Whitespace, Year4], s, b, f.(year := 1900)) == Some((f, |s|))
  {
    var dirs := [Whitespace, Year4];
    var g := f.(year := 1900);
    assert Match(dirs[1..], s, b + 1, g) == Some((f, |s|)) by {
      assert dirs[1..][0] == Year4 && dirs[1..][1..] == [];
      MatchFirstAlt(dirs[1..], s, b + 1, g, Alt(f.year, |s|));
    }
    SingleSpace(s, b);
    MatchFirstAlt(dirs, s, b, g, Alt(0, b + 1));
  }

  /** `%B %d, %Y` from its day on: a day from `p` to `a`, a comma, and the rest. */
  lemma LongMonthFirstDay(s: string, p: nat, a: nat, d: Date)
    requires p < a && a + 6 == |s|
    requires DayAlts(s, p) != [] && DayAlts(s, p)[0] == Alt(d.day, a) && s[a] == ','
    requires Match([Whitespace, Year4], s, a + 1, Date(1900, d.month, d.day)) == Some((d, |s|))
    ensures Match(LONG_MONTH_FIRST[2..], s, p, Date(1900, d.month, 1)) == Some((d, |s|))
  {
    var dirs := LONG_MONTH_FIRST;
    var f2 := Date(1900, d.month, d.day);
    assert Match(dirs[3..], s, a, f2) == Some((d, |s|)) by {
      assert dirs[3..][0] == Literal(',') && dirs[3..][1..] == [Whitespace, Year4];
      LiteralAt(dirs[3..], s, a, ',', f2);
    }
    assert dirs[2..][0] == DayOfMonth && dirs[2..][1..] == dirs[3..];
    MatchFirstAlt(dirs[2..], s, p, Date(1900, d.month, 1), Alt(d.day, a));
  }

  /** `%B %d, %Y` after its month name, from `n`: one space, and the rest. */
  lemma LongMonthFirstAfterName(s: string, n: nat, f: Date, r: (Date, nat))
    requires n + 1 < |s| && s[n] == ' ' && !IsSpace(s[n + 1])
    requires Match(LONG_MONTH_FIRST[2..], s, n + 1, f) == Some(r)
    ensures Match(LONG_MONTH_FIRST[1..], s, n, f) == Some(r)
  {
    var dirs := LONG_MONTH_FIRST[1..];
    assert dirs[0] == Whitespace && dirs[1..] == LONG_MONTH_FIRST[2..];
    SingleSpace(s, n);
    MatchFirstAlt(dirs, s, n, f, Alt(0, n + 1));
  }

  /** `%B %d, %Y` where a month's name is written from `i`, followed by one space and the rest. */
  lemma LongMonthFirstNamed(s: string, i: nat, name: string, m: nat, f: Date, r: (Date, nat))
    requires 1 <= m <= 12 && Lower(name) == MONTH_NAMES[m - 1]
    requires i + |name| + 1 < |s| && s[i..i + |name|] == name
    requires s[i + |name|] == ' ' && !IsSpace(s[i + |name| + 1])
    requires Match(LONG_MONTH_FIRST[2..], s, i + |name| + 1, f.(month := m)) == Some(r)
    ensures Match(LONG_MONTH_FIRST, s, i, f) == Some(r)
  {
    LongMonthFirstAfterName(s, i + |name|, f.(month := m), r);
    var dirs := LONG_MONTH_FIRST;
    assert dirs[0] == MonthName;
    MonthNameStep(dirs, s, i, name, m, f);
  }

  /** In `Month D, YYYY`, everything after the month name is read by the rest of `%B %d, %Y`. */
  lemma LongMonthFirstText(name: string, d: Date)
    requires InIsoRange(d)
    ensures var s := name + " " + DayText(d.day) + ", " + Pad4(d.year);
      && s[..|name|] == name && s[|name|] == ' ' && !IsSpace(s[|name| + 1])
      && Match(LONG_MONTH_FIRST[2..], s, |name| + 1, Date(1900, d.month, 1)) == Some((d, |s|))
  {
    var day := DayText(d.day);
    var s := name + " " + day + ", " + Pad4(d.year);
    var p := |name| + 1;
    var a := p + |day|;
    assert s[..|name|] == name && s[|name|] == ' ';
    assert s[p..a] == day && s[a] == ',' && s[a + 1] == ' ' && s[a + 2..] == Pad4(d.year);
    assert !IsSpace(s[p]) by { assert s[p] == day[0]; }
    assert DayAlts(s, p) != [] && DayAlts(s, p)[0] == Alt(d.day, a) by {
      DayAltsOfDayText(s, p, d.day);
    }
    assert Match([Whitespace, Year4], s, a + 1, Date(1900, d.month, d.day)) == Some((d, |s|)) by {
      assert !IsSpace(s[a + 2]) by { assert s[a + 2] == Pad4(d.year)[0]; }
      YearAltsOfPad4(s, a + 2, d.year);
      SpaceThenYear(s, a + 1, d);
    }
    LongMonthFirstDay(s, p, a, d);
  }

  /** `%B %d, %Y` reads back a valid date written with its month name, day and four-digit year. */
  lemma LongMonthFirstParses(d: Date, name: string)
    requires ValidDate(d) && Lower(name) == MONTH_NAMES[d.month - 1]
    ensures Strptime(name + " " + DayText(d.day) + ", " + Pad4(d.year), LONG_MONTH_FIRST) == Some(d)
  {
    var s := name + " " + DayText(d.day) + ", " + Pad4(d.year);
    LongMonthFirstText(name, d);
    assert s[0..|name|] == name;
    LongMonthFirstNamed(s, 0, name, d.month, Date(1900, 1, 1), (d, |s|));
  }

  /** `%d %B %Y`: a day ending at `a`, one space, and the rest. */
  lemma LongDayFirstChain(s: string, a: nat, d: Date)
    requires a + 1 < |s| && s[a] == ' ' && !IsSpace(s[a + 1])
    requires DayAlts(s, 0) != [] && DayAlts(s, 0)[0] == Alt(d.day, a)
    requires Match(LONG_DAY_FIRST[2..], s, a + 1, Date(1900, 1, d.day)) == Some((d, |s|))
    ensures Match(LONG_DAY_FIRST, s, 0, Date(1900, 1, 1)) == Some((d, |s|))
  {
    var dirs := LONG_DAY_FIRST;
    var f1 := Date(1900, 1, d.day);
    assert Match(dirs[1..], s, a, f1) == Some((d, |s|)) by {
      assert dirs[1..][0] == Whitespace && dirs[1..][1..] == dirs[2..];
      SingleSpace(s, a);
      MatchFirstAlt(dirs[1..], s, a, f1, Alt(0, a + 1));
    }
    MatchFirstAlt(dirs, s, 0, Date(1900, 1, 1), Alt(d.day, a));
  }

  /** Where a month's name is written from `i`, `%d %B %Y` reads it and the rest. */
  lemma LongDayFirstNameAt(s: string, i: nat, name: string, d: Date)
    requires 1 <= d.month <= 12 && Lower(name) == MONTH_NAMES[d.month - 1]
    requires i < i + |name| && i + |name| + 5 == |s| && s[i..i + |name|] == name
    requires Match([Whitespace, Year4], s, i + |name|, Date(1900, d.month, d.day)) == Some((d, |s|))
    ensures Match(LONG_DAY_FIRST[2..], s, i, Date(1900, 1, d.day)) == Some((d, |s|))
  {
    var dirs := LONG_DAY_FIRST[2..];
    assert dirs[0] == MonthName && dirs[1..] == [Whitespace, Year4];
    MonthNameStep(dirs, s, i, name, d.month, Date(1900, 1, d.day));
  }

  /** A text ending in one space and a four-digit year ends as both long formats want. */
  lemma SpaceThenYearText(pre: string, d: Date)
    requires d.year < 10000
    ensures var s := pre + " " + Pad4(d.year);
      && |s| == |pre| + 5 && s[|pre|] == ' '
      && Match([Whitespace, Year4], s, |pre|, d.(year := 1900)) == Some((d, |s|))
  {
    var s := pre + " " + Pad4(d.year);
    var b := |pre|;
    assert s[b] == ' ' && s[b + 1..] == Pad4(d.year);
    assert !IsSpace(s[b + 1]) by { assert s[b + 1] == Pad4(d.year)[0]; }
    YearAltsOfPad4(s, b + 1, d.year);
    SpaceThenYear(s, b, d);
  }

  /** In `D Month YYYY`, with a name that starts with no space, the day, the spaces and the year around the name are read. */
  lemma LongDayFirstText(name: string, d: Date)
    requires InIsoRange(d) && |name| > 0 && !IsSpace(name[0])
    ensures var a := |DayText(d.day)|;
      var s := DayText(d.day) + " " + name + " " + Pad4(d.year);
      && a + 1 + |name| + 5 == |s| && s[a] == ' ' && !IsSpace(s[a + 1])
      && s[a + 1..a + 1 + |name|] == name
      && DayAlts(s, 0) != [] && DayAlts(s, 0)[0] == Alt(d.day, a)
      && Match([Whitespace, Year4], s, a + 1 + |name|, Date(1900, d.month, d.day)) == Some((d, |s|))
  {
    var day := DayText(d.day);
    var pre := day + " " + name;
    var s := pre + " " + Pad4(d.year);
    var a := |day|;
    SpaceThenYearText(pre, d);
    assert s[0..a] == day && s[a] == ' ' && s[a + 1..a + 1 + |name|] == name by {
      assert s[..|pre|] == pre;
    }
    assert !IsSpace(s[a + 1]) by { assert s[a + 1] == name[0]; }
    DayAltsOfDayText(s, 0, d.day);
  }

  /** `%d %B %Y` reads back a valid date written with its day, month name and four-digit year. */
  lemma LongDayFirstParses(d: Date, name: string)
    requires ValidDate(d) && Lower(name) == MONTH_NAMES[d.month - 1]
    ensures Strptime(DayText(d.day) + " " + name + " " + Pad4(d.year), LONG_DAY_FIRST) == Some(d)
  {
    var s := DayText(d.day) + " " + name + " " + Pad4(d.year);
    var a := |DayText(d.day)|;
    MonthNameStart(name, d.month);
    LongDayFirstText(name, d);
    LongDayFirstNameAt(s, a + 1, name, d);
    LongDayFirstChain(s, a, d);
  }

  /** `%d/%m/%Y` read directive by directive: two-digit day, `/`, two-digit month, `/`, year. */
  lemma SlashedChain(s: string, d: Date)
    requires |s| == 10
    requires DayAlts(s, 0) != [] && DayAlts(s, 0)[0] == Alt(d.day, 2) && s[2] == '/'
    requires MonthAlts(s, 3) != [] && MonthAlts(s, 3)[0] == Alt(d.month, 5) && s[5] == '/'
    requires YearAlts(s, 6) == [Alt(d.year, 10)]
    ensures Match(SLASHED, s, 0, Date(1900, 1, 1)) == Some((d, 10))
  {
    var dirs := SLASHED;
    var f1 := Date(1900, 1, d.day);
    var f2 := Date(1900, d.month, d.day);
    assert Match(dirs[4..], s, 6, f2) == Some((d, 10)) by {
      assert dirs[4..][0] == Year4 && dirs[4..][1..] == [];
      MatchFirstAlt(dirs[4..], s, 6, f2, Alt(d.year, 10));
    }
    assert Match(dirs[3..], s, 5, f2) == Some((d, 10)) by {
      assert dirs[3..][0] == Literal('/') && dirs[3..][1..] == dirs[4..];
      MatchFirstAlt(dirs[3..], s, 5, f2, Alt(0, 6));
    }
    assert Match(dirs[2..], s, 3, f1) == Some((d, 10)) by {
      assert dirs[2..][0] == MonthNumber && dirs[2..][1..] == dirs[3..];
      MatchFirstAlt(dirs[2..], s, 3, f1, Alt(d.month, 5));
    }
    assert Match(dirs[1..], s, 2, f1) == Some((d, 10)) by {
      assert dirs[1..][0] == Literal('/') && dirs[1..][1..] == dirs[2..];
      MatchFirstAlt(dirs[1..], s, 2, f1, Alt(0, 3));
    }
    MatchFirstAlt(dirs, s, 0, Date(1900, 1, 1), Alt(d.day, 2));
  }

  /** `%d/%m/%Y` reads back a valid date written with zero-padded day and month. */
  lemma SlashedParses(d: Date)
    requires ValidDate(d)
    ensures Strptime(Pad2(d.day) + "/" + Pad2(d.month) + "/" + Pad4(d.year), SLASHED) == Some(d)
  {
    var s := Pad2(d.day) + "/" + Pad2(d.month) + "/" + Pad4(d.year);
    assert s[0..2] == Pad2(d.day) && s[3..5] == Pad2(d.month) && s[6..10] == Pad4(d.year);
    assert s[2] == '/' && s[5] == '/';
    assert DayAlts(s, 0) != [] && DayAlts(s, 0)[0] == Alt(d.day, 2) by { DayAltsOfPad2(s, 0, d.day); }
    assert MonthAlts(s, 3) != [] && MonthAlts(s, 3)[0] == Alt(d.month, 5) by { MonthAltsOfPad2(s, 3, d.month); }
    assert YearAlts(s, 6) == [Alt(d.year, 10)] by { YearAltsOfPad4(s, 6, d.year); }
    SlashedChain(s, d);
  }

  /** The format that parses first, with none before it parsing, decides the expiration date. */
  lemma ExpirationDateAt(s: string, k: nat, d: Date)
    requires s != "" && k < |DEADLINE_FORMATS| && Strptime(s, DEADLINE_FORMATS[k]) == Some(d)
    requires forall j :: 0 <= j < k ==> Strptime(s, DEADLINE_FORMATS[j]).None?
    ensures ExpirationDate(Some(s)) == Some(FormatIso(d))
  {
    FirstParseAt(DEADLINE_FORMATS, s, k);
  }

  /** A valid date written `Month D, YYYY` gives that date, re-dated `YYYY-MM-DD`. */
  lemma LongMonthFirstRoundTrip(d: Date, name: string)
    requires ValidDate(d) && Lower(name) == MONTH_NAMES[d.month - 1]
    ensures ExpirationDate(Some(name + " " + DayText(d.day) + ", " + Pad4(d.year))) == Some(FormatIso(d))
  {
    var s := name + " " + DayText(d.day) + ", " + Pad4(d.year);
    assert Strptime(s, DEADLINE_FORMATS[0]) == Some(d) by { LongMonthFirstParses(d, name); }
    ExpirationDateAt(s, 0, d);
  }

  /** A valid date written `D Month YYYY` gives that date, re-dated `YYYY-MM-DD`. */
  lemma LongDayFirstRoundTrip(d: Date, name: string)
    requires ValidDate(d) && Lower(name) == MONTH_NAMES[d.month - 1]
    ensures ExpirationDate(Some(DayText(d.day) + " " + name + " " + Pad4(d.year))) == Some(FormatIso(d))
  {
    var s := DayText(d.day) + " " + name + " " + Pad4(d.year);
    assert Strptime(s, DEADLINE_FORMATS[0]).None? by {
      assert IsDigit(s[0]) by { assert s[0] == DayText(d.day)[0]; }
      LongMonthFirstRejectsDigit(s);
    }
    assert Strptime(s, DEADLINE_FORMATS[1]) == Some(d) by { LongDayFirstParses(d, name); }
    ExpirationDateAt(s, 1, d);
  }

  /**
   * A valid date written `DD/MM/YYYY` is read day first, and no earlier
   * format reads it.
   */
  lemma SlashedRoundTrip(d: Date)
    requires ValidDate(d)
    ensures ExpirationDate(Some(Pad2(d.day) + "/" + Pad2(d.month) + "/" + Pad4(d.year))) == Some(FormatIso(d))
  {
    var s := Pad2(d.day) + "/" + Pad2(d.month) + "/" + Pad4(d.year);
    assert |s| == 10 && IsDigit(s[0]) && IsDigit(s[1]) && s[2] == '/' by {
      assert s[0] == Pad2(d.day)[0] && s[1] == Pad2(d.day)[1];
    }
    assert Strptime(s, DEADLINE_FORMATS[0]).None? by { LongMonthFirstRejectsDigit(s); }
    assert Strptime(s, DEADLINE_FORMATS[1]).None? by { LongDayFirstNeedsSpace(s); }
    assert Strptime(s, DEADLINE_FORMATS[2]).None? by {
      assert !AllDigits(s[0..4]) by { assert s[0..4][2] == '/'; }
      assert YearAlts(s, 0) == [];
    }
    assert Strptime(s, DEADLINE_FORMATS[3]) == Some(d) by { SlashedParses(d); }
    ExpirationDateAt(s, 3, d);
  }

  lemma FormatIsoExample()
    ensures FormatIso(Date(2025, 1, 5)) == "2025-01-05"
  {
    assert Pad4(2025) == "2025";
    assert Pad2(1) == "01" && Pad2(5) == "05";
  }

  /** `%B %d, %Y` with a one-digit day. */
  lemma LongMonthFirstExample()
    ensures ExpirationDate(Some("January 5, 2025")) == Some("2025-01-05")
  {
    assert Lower("January") == "january";
    assert DayText(5) == "5" && Pad4(2025) == "2025";
    assert "January" + " " + DayText(5) + ", " + Pad4(2025) == "January 5, 2025";
    LongMonthFirstRoundTrip(Date(2025, 1, 5), "January");
    FormatIsoExample();
  }

  /** `%d %B %Y` with a one-digit day. */
  lemma LongDayFirstExample()
    ensures ExpirationDate(Some("5 January 2025")) == Some("2025-01-05")
  {
    assert Lower("January") == "january";
    assert DayText(5) == "5" && Pad4(2025) == "2025";
    assert DayText(5) + " " + "January" + " " + Pad4(2025) == "5 January 2025";
    LongDayFirstRoundTrip(Date(2025, 1, 5), "January");
    FormatIsoExample();
  }

  /** `05/01/2025` is day first: the fifth of January. */
  lemma SlashedExample()
    ensures ExpirationDate(Some("05/01/2025")) == Some("2025-01-05")
  {
    assert Pad2(5) == "05" && Pad2(1) == "01" && Pad4(2025) == "2025";
    assert Pad2(5) + "/" + Pad2(1) + "/" + Pad4(2025) == "05/01/2025";
    SlashedRoundTrip(Date(2025, 1, 5));
    FormatIsoExample();
  }

  /** No month name matches where the letter there starts none of the names that still fit. */
  lemma {:induction false} NoMonthNameAt(s: string, i: nat, k: nat)
    requires i < |s| && k <= |MONTH_NAMES|
    requires forall j :: k <= j < |MONTH_NAMES| && i + |MONTH_NAMES[j]| <= |s| ==> LowerChar(s[i]) != MONTH_NAMES[j][0]
    ensures MonthNameAltsFrom(s, i, k) == []
    decreases |MONTH_NAMES| - k
  {
    if k < |MONTH_NAMES| {
      NoMonthNameAt(s, i, k + 1);
      var name := MONTH_NAMES[k];
      if i + |name| <= |s| {
        assert |name| > 0;
        assert Lower(s[i..i + |name|])[0] == LowerChar(s[i]);
      }
    }
  }

  /** `%B %d, %Y` needs a month name first, so a text whose first letter starts no name that fits fails. */
  lemma LongMonthFirstNeedsName(s: string)
    requires |s| > 0
    requires forall j :: 0 <= j < |MONTH_NAMES| && |MONTH_NAMES[j]| <= |s| ==> LowerChar(s[0]) != MONTH_NAMES[j][0]
    ensures Strptime(s, LONG_MONTH_FIRST).None?
  {
    NoMonthNameAt(s, 0, 0);
    assert Alts(MonthName, s, 0) == [];
  }

  /** `%d %B %Y`, `%Y-%m-%d` and `%d/%m/%Y` start with a number, so a text starting with neither a digit nor a space fails them. */
  lemma NumericFormatsNeedDigit(s: string)
    requires |s| > 0 && !IsDigit(s[0]) && s[0] != ' '
    ensures Strptime(s, LONG_DAY_FIRST).None?
    ensures Strptime(s, ISO).None? && Strptime(s, SLASHED).None?
  {
    assert DayAlts(s, 0) == [];
    assert YearAlts(s, 0) == [] by {
      if 4 <= |s| {
        assert !AllDigits(s[0..4]) by { assert s[0..4][0] == s[0]; }
      }
    }
    assert Strptime(s, LONG_DAY_FIRST).None?;
    assert Strptime(s, ISO).None?;
  }

  /** A deadline that no format reads has no expiration date. */
  lemma NoFormatNoExpiration(s: string)
    requires forall k :: 0 <= k < |DEADLINE_FORMATS| ==> Strptime(s, DEADLINE_FORMATS[k]).None?
    ensures ExpirationDate(Some(s)).None?
  {
    if s != "" {
      assert FirstParse(DEADLINE_FORMATS, s).None?;
    }
  }

  /**
   * A deadline that starts with neither a digit nor a space, and whose first
   * letter starts no month name that fits, has no expiration date.
   */
  lemma WordDeadlineNoExpiration(s: string)
    requires |s| > 0 && !IsDigit(s[0]) && s[0] != ' '
    requires forall j :: 0 <= j < |MONTH_NAMES| && |MONTH_NAMES[j]| <= |s| ==> LowerChar(s[0]) != MONTH_NAMES[j][0]
    ensures ExpirationDate(Some(s)).None?
  {
    LongMonthFirstNeedsName(s);
    NumericFormatsNeedDigit(s);
    NoFormatNoExpiration(s);
  }

  /** A deadline such as `ASAP` matches no format, so there is no expiration date. */
  lemma AsapExample(s: string)
    requires s == "ASAP"
    ensures ExpirationDate(Some(s)).None?
  {
    assert |s| == 4 && s[0] == 'A' && LowerChar(s[0]) == 'a';
    assert forall j :: 0 <= j < |MONTH_NAMES| ==> MONTH_NAMES[j][0] != 'a' || |MONTH_NAMES[j]| > 4;
    WordDeadlineNoExpiration(s);
  }

  /** `2025-02-29` has the shape of `%Y-%m-%d` but is no date, and no other format reads it. */
  lemma InvalidDateExample()
    ensures ExpirationDate(Some("2025-02-29")).None?
  {
    var s := "2025-02-29";
    assert IsDigit(s[0]) && IsDigit(s[1]) && IsDigit(s[2]);
    LongMonthFirstRejectsDigit(s);
    LongDayFirstNeedsSpace(s);
    InvalidDateExampleIso(s);
    InvalidDateExampleSlashed(s);
    assert forall k :: 0 <= k < |DEADLINE_FORMATS| ==> Strptime(s, DEADLINE_FORMATS[k]).None?;
  }

  lemma InvalidDateExampleIso(s: string)
    requires s == "2025-02-29"
    ensures Strptime(s, ISO).None?
  {
    var d := Date(2025, 2, 29);
    assert Pad4(2025) == "2025" && Pad2(2) == "02" && Pad2(29) == "29";
    assert s == IsoText(d);
    assert !ValidDate(d);
    IsoMatches(d);
  }

  lemma InvalidDateExampleSlashed(s: string)
    requires s == "2025-02-29"
    ensures Strptime(s, SLASHED).None?
  {
    var start := Date(1900, 1, 1);
    assert DayAlts(s, 0) == [Alt(20, 2), Alt(2, 1)];
    LiteralFails(SLASHED[1..], s, 2, start.(day := 20));
    LiteralFails(SLASHED[1..], s, 1, start.(day := 2));
    TryAltsFail(SLASHED, s, DayAlts(s, 0), start);
  }
}
