/**
 * The custom date picture interpreter of LocaleWords::formatTimePoint
 * (TimestampsHelpers.cpp) and the date-text divider test of the parser.
 *
 * The calendar fields of the time point arrive as the digit string that
 * std::format builds from "%Y%m%d%j%w%H%I%M%S"; the zone as "%z%Z"; the
 * locale's month, day and AM/PM names as the LocaleWords record.  All of
 * them, and the text the Windows locale formats produce, are parameters.
 */
module Timestamps {
  import opened Common

  // ----- the locale's words -----

  /** LocaleWords: the locale's names and the widths of the longest full month, genitive month and weekday names. */
  datatype LocaleWords = LocaleWords(
    abbrMonth: seq<string>,
    fullMonth: seq<string>,
    geniMonth: seq<string>,
    dayAbbrev: seq<string>,
    dayOfWeek: seq<string>,
    ampm: seq<string>,
    fullMax: nat,
    geniMax: nat,
    weekMax: nat)

  /** The length of the longest name, 0 for no names. */
  function MaxLength(names: seq<string>): (m: nat)
  {
    if names == [] then 0
    else var m := MaxLength(names[..|names| - 1]);
      if |names[|names| - 1]| > m then |names[|names| - 1]| else m
  }

  /** No name is longer than MaxLength, and some name is that long unless all are empty. */
  lemma {:induction false} MaxLengthIsMaximum(names: seq<string>)
    ensures forall k :: 0 <= k < |names| ==> |names[k]| <= MaxLength(names)
    ensures MaxLength(names) > 0 ==> exists k :: 0 <= k < |names| && |names[k]| == MaxLength(names)
  {
    if names != [] {
      var init := names[..|names| - 1];
      MaxLengthIsMaximum(init);
      assert forall k :: 0 <= k < |init| ==> names[k] == init[k];
      if MaxLength(init) > 0 && MaxLength(names) == MaxLength(init) {
        var k :| 0 <= k < |init| && |init[k]| == MaxLength(init);
        assert names[k] == init[k];
      }
    }
  }

  /** The loop of the LocaleWords constructor: the longest length among the names. */
  method LongestLength(names: seq<string>) returns (m: nat)
    ensures m == MaxLength(names)
  {
    m := 0;
    for i := 0 to |names|
      invariant m == MaxLength(names[..i])
    {
      assert names[..i + 1][..i] == names[..i];
      if |names[i]| > m {
        m := |names[i]|;
      }
    }
    assert names[..|names|] == names;
  }

  /** The LocaleWords constructor, given the names the locale reports. */
  method NewLocaleWords(abbrMonth: seq<string>, fullMonth: seq<string>, geniMonth: seq<string>,
                        dayAbbrev: seq<string>, dayOfWeek: seq<string>, ampm: seq<string>)
    returns (w: LocaleWords)
    requires |abbrMonth| == 12 && |fullMonth| == 12 && |geniMonth| == 12
    requires |dayAbbrev| == 7 && |dayOfWeek| == 7 && |ampm| == 2
    ensures Valid(w)
    ensures w.abbrMonth == abbrMonth && w.fullMonth == fullMonth && w.geniMonth == geniMonth
    ensures w.dayAbbrev == dayAbbrev && w.dayOfWeek == dayOfWeek && w.ampm == ampm
  {
    var fullMax := LongestLength(fullMonth);
    var geniMax := LongestLength(geniMonth);
    var weekMax := LongestLength(dayOfWeek);
    w := LocaleWords(abbrMonth, fullMonth, geniMonth, dayAbbrev, dayOfWeek, ampm, fullMax, geniMax, weekMax);
  }

  /** Twelve month names of each kind, seven day names of each kind, two AM/PM words, and the widths they imply. */
  predicate Valid(w: LocaleWords)
  {
    |w.abbrMonth| == 12 && |w.fullMonth| == 12 && |w.geniMonth| == 12
    && |w.dayAbbrev| == 7 && |w.dayOfWeek| == 7 && |w.ampm| == 2
    && w.fullMax == MaxLength(w.fullMonth) && w.geniMax == MaxLength(w.geniMonth)
    && w.weekMax == MaxLength(w.dayOfWeek)
  }

  // ----- the digit string of the time point -----

  /** The numeric value of a decimal digit. */
  function DigitOf(c: char): int
  {
    c as int - '0' as int
  }

  /** std::stoi(info.substr(4, 2)): the month number. */
  function MonthNumber(info: string): int
    requires |info| >= 6
  {
    10 * DigitOf(info[4]) + DigitOf(info[5])
  }

  /**
   * The shape of "%Y%m%d%j%w%H%I%M%S" for a year of four digits and a
   * clock in ticks of 100 ns: the year at 0, the month at 4, the day at 6,
   * the day of the year at 8, the weekday at 11, the hour at 12, the
   * twelve-hour hour at 14, the minute at 16, the second at 18, a period
   * at 20 and seven digits of fraction from 21.
   */
  predicate InfoFields(info: string)
  {
    |info| == 28
    && (forall k :: 0 <= k < 20 ==> IsDigit(info[k]))
    && info[20] == '.'
    && (forall k :: 21 <= k < 28 ==> IsDigit(info[k]))
    && 1 <= MonthNumber(info) <= 12
    && info[11] <= '6'
  }

  /** The month number less one, as an index into the month names. */
  function MonthIndex(info: string): (m: nat)
    requires InfoFields(info)
    ensures m < 12
  {
    MonthNumber(info) - 1
  }

  /** The weekday digit, Sunday being 0, as an index into the day names. */
  function WeekdayIndex(info: string): (d: nat)
    requires InfoFields(info)
    ensures d < 7
  {
    assert IsDigit(info[11]);
    DigitOf(info[11])
  }

  // ----- string helpers -----

  /** std::wstring::substr(pos, n): the n characters from pos, or as many as there are. */
  function Substr(s: string, pos: nat, n: nat): (r: string)
    requires pos <= |s|
    ensures |r| <= n && pos + |r| <= |s| && r == s[pos..pos + |r|]
    ensures pos + n <= |s| ==> |r| == n
    ensures pos + n > |s| ==> pos + |r| == |s|
  {
    if pos + n <= |s| then s[pos..pos + n] else s[pos..]
  }

  /** std::wstring(n, L' '). */
  function Spaces(n: nat): (r: string)
    ensures |r| == n && forall k :: 0 <= k < n ==> r[k] == ' '
  {
    if n == 0 then [] else Spaces(n - 1) + [' ']
  }

  /** (s + std::wstring(n, L' ')).substr(0, n): s cut or padded with spaces to width n. */
  function PadTo(s: string, n: nat): (r: string)
  {
    (s + Spaces(n))[..n]
  }

  /** A padded name has exactly the width asked for; a name no wider keeps all its characters, followed by spaces. */
  lemma PadToWidth(s: string, n: nat)
    ensures |PadTo(s, n)| == n
    ensures |s| <= n ==> PadTo(s, n)[..|s|] == s
    ensures |s| <= n ==> forall k :: |s| <= k < n ==> PadTo(s, n)[k] == ' '
    ensures |s| > n ==> PadTo(s, n) == s[..n]
  {
  }

  /** std::wstring::operator[](0): the first character, or the null character of an empty string. */
  function FirstOrNul(s: string): char
  {
    if |s| == 0 then 0 as char else s[0]
  }

  // ----- the picture letters -----

  /** The characters the picture interpreter gives a meaning to. */
  predicate IsPatternChar(c: char)
  {
    c == 'y' || c == 'M' || c == 'N' || c == 'd' || c == 'D' || c == 'H' || c == 'h'
    || c == 'm' || c == 's' || c == 'T' || c == 't' || c == '\'' || c == 'Z' || c == 'z'
  }

  /**
   * The end of the run of c that starts at i: the first other character,
   * or the end (std::min(find_first_not_of(c, i), length())).
   */
  function RunEnd(p: string, i: nat, c: char): (j: nat)
    requires i <= |p|
    ensures i <= j <= |p|
    ensures forall k :: i <= k < j ==> p[k] == c
    ensures j < |p| ==> p[j] != c
  {
    match FindNotFrom(p, c, i)
    case None => |p|
    case Some(j) => j
  }

  /** A run ends at the first character after it that differs. */
  lemma RunEndUnique(p: string, i: nat, n: nat, c: char)
    requires i + n <= |p|
    requires forall k :: i <= k < i + n ==> p[k] == c
    requires i + n == |p| || p[i + n] != c
    ensures RunEnd(p, i, c) == i + n
  {
  }

  /** y: the two-digit year for a run shorter than three, else the four-digit year. */
  function YearText(info: string, n: nat): (r: string)
    requires InfoFields(info)
    ensures |r| == (if n < 3 then 2 else 4)
  {
    if n < 3 then info[2..4] else info[0..4]
  }

  /** M: the month number without or with its leading zero, or the abbreviated, genitive or padded genitive name. */
  function MonthText(w: LocaleWords, info: string, n: nat): string
    requires Valid(w) && InfoFields(info)
  {
    if n < 2 && info[4] == '0' then info[5..6]
    else if n < 3 then info[4..6]
    else if n == 3 then w.abbrMonth[MonthIndex(info)]
    else if n == 4 then w.geniMonth[MonthIndex(info)]
    else PadTo(w.geniMonth[MonthIndex(info)], w.geniMax)
  }

  /** N: the full month name, padded to the longest one for a run of five or more. */
  function MonthNameText(w: LocaleWords, info: string, n: nat): string
    requires Valid(w) && InfoFields(info)
  {
    if n < 5 then w.fullMonth[MonthIndex(info)]
    else PadTo(w.fullMonth[MonthIndex(info)], w.fullMax)
  }

  /** d: the day of the month without or with its leading zero, or the abbreviated, full or padded weekday name. */
  function DayText(w: LocaleWords, info: string, n: nat): string
    requires Valid(w) && InfoFields(info)
  {
    if n < 2 && info[6] == '0' then info[7..8]
    else if n < 3 then info[6..8]
    else if n == 3 then w.dayAbbrev[WeekdayIndex(info)]
    else if n == 4 then w.dayOfWeek[WeekdayIndex(info)]
    else PadTo(w.dayOfWeek[WeekdayIndex(info)], w.weekMax)
  }

  /** D: the day of the year with one, two or three digits. */
  function DayOfYearText(info: string, n: nat): string
    requires InfoFields(info)
  {
    if n < 2 && info[8] == '0' && info[9] == '0' then info[10..11]
    else if n < 3 && info[8] == '0' then info[9..11]
    else info[8..11]
  }

  /** H, h, m and s: the two digits at `at`, less a leading zero for a single letter. */
  function ClockText(info: string, at: nat, n: nat): string
    requires InfoFields(info) && at <= 18
  {
    if n < 2 && info[at] == '0' then info[at + 1..at + 2] else info[at..at + 2]
  }

  /** info.substr(12, 2) < L"12": the hour is before noon. */
  predicate BeforeNoon(info: string)
    requires InfoFields(info)
  {
    info[12] < '1' || (info[12] == '1' && info[13] < '2')
  }

  /** Comparing the two hour digits with "12" is comparing the hour with 12. */
  lemma BeforeNoonMeaning(info: string)
    requires InfoFields(info)
    ensures BeforeNoon(info) <==> 10 * DigitOf(info[12]) + DigitOf(info[13]) < 12
  {
    assert IsDigit(info[12]) && IsDigit(info[13]);
  }

  /** The AM or PM word of the hour. */
  function AmPmWord(w: LocaleWords, info: string): string
    requires Valid(w) && InfoFields(info)
  {
    w.ampm[if BeforeNoon(info) then 0 else 1]
  }

  /** T and t: the first character of the AM/PM word for a single letter, else the word; lower-cased for t. */
  function AmPmText(w: LocaleWords, info: string, n: nat, lower: bool): (r: string)
    requires Valid(w) && InfoFields(info)
    ensures n == 1 ==> |r| == 1
    ensures n != 1 ==> |r| == |AmPmWord(w, info)|
  {
    var word := AmPmWord(w, info);
    if n == 1 then [if lower then ToLower(FirstOrNul(word)) else FirstOrNul(word)]
    else if lower then LowerString(word) else word
  }

  /**
   * Z: from "%z%Z", the offset unless it is +0000 or -0000 for one Z, the
   * offset for two, and the abbreviation for three or more.
   */
  function ZoneText(zone: string, n: nat): string
  {
    if n < 2 then (if |zone| > 4 && zone[1..5] != "0000" then zone[..5] else "")
    else if n < 3 then Substr(zone, 0, 5)
    else if |zone| > 5 then zone[5..]
    else ""
  }

  /** The z forms: the two digits at `at`, a leading zero shown as a space. */
  function BlankedText(info: string, at: nat): (r: string)
    requires InfoFields(info) && at <= 18
    ensures |r| == 2 && r[1] == info[at + 1]
    ensures r[0] == (if info[at] == '0' then ' ' else info[at])
  {
    if info[at] == '0' then [' '] + info[at + 1..at + 2] else info[at..at + 2]
  }

  /** zD: the day of the year in three places, leading zeros shown as spaces. */
  function BlankedDayOfYear(info: string): (r: string)
    requires InfoFields(info)
    ensures |r| == 3 && r[2] == info[10]
  {
    if info[8] == '0' && info[9] == '0' then "  " + info[10..11]
    else if info[8] == '0' then [' '] + info[9..11]
    else info[8..11]
  }

  /** zm as written: when the minute has a leading zero, the space is followed by the digit at 15, which is the twelve-hour hour's. */
  function BlankedMinuteAsWritten(info: string): (r: string)
    requires InfoFields(info)
  {
    if info[16] == '0' then [' '] + info[15..16] else info[16..18]
  }

  /** zm as written shows the last digit of the twelve-hour hour in place of a minute from 00 to 09. */
  lemma BlankedMinuteAsWrittenWrong(info: string)
    requires InfoFields(info) && info[16] == '0'
    ensures BlankedMinuteAsWritten(info) == [' ', info[15]]
    ensures info[15] != info[17] ==> BlankedMinuteAsWritten(info) != BlankedText(info, 16)
  {
  }

  /** At 15:05 (03 on the twelve-hour clock), zm as written gives " 3" where " 5" is meant. */
  lemma BlankedMinuteAsWrittenExample()
    ensures InfoFields(ExampleInfo)
    ensures BlankedMinuteAsWritten(ExampleInfo) == " 3"
    ensures BlankedText(ExampleInfo, 16) == " 5"
  {
    assert ExampleInfo[15] == '3' && ExampleInfo[16] == '0' && ExampleInfo[17] == '5';
  }

  /** 1991-09-06, day 249, a Friday, 15:05:07.1350000. */
  const ExampleInfo: string := "1991090624951503050" + "7.1350000"

  /** After a run of s: ".s" or ",s" starts a fraction, that character followed by one digit per further s. */
  function FractionPiece(info: string, p: string, j: nat): (r: (string, nat))
    requires InfoFields(info) && j <= |p|
    ensures j <= r.1 <= |p|
  {
    if Substr(p, j, 2) == ".s" || Substr(p, j, 2) == ",s" then
      var e := RunEnd(p, j + 1, 's');
      ([p[j]] + Substr(info, 21, e - j - 1), e)
    else ("", j)
  }

  /** The z case: a z followed by M, d, D, H, h, m or s gives that field blanked; zz gives z; any other z is itself. */
  function ZPiece(info: string, p: string, i: nat): (r: (string, nat))
    requires InfoFields(info) && i < |p| && p[i] == 'z'
    ensures i < r.1 <= |p|
  {
    if i + 1 >= |p| then ("z", i + 1)
    else match p[i + 1]
      case 'M' => (BlankedText(info, 4), i + 2)
      case 'd' => (BlankedText(info, 6), i + 2)
      case 'D' => (BlankedDayOfYear(info), i + 2)
      case 'H' => (BlankedText(info, 12), i + 2)
      case 'h' => (BlankedText(info, 14), i + 2)
      case 'm' => (BlankedText(info, 16), i + 2)
      case 's' =>
        var f := FractionPiece(info, p, i + 2);
        (BlankedText(info, 18) + f.0, f.1)
      case 'z' => ("z", i + 2)
      case _ => ("z", i + 1)
  }

  /** The first apostrophe at or after i, or the end (std::min(find_first_of(L'\'', i), length())). */
  function NextQuote(p: string, i: nat): (j: nat)
    requires i <= |p|
    ensures i <= j <= |p|
    ensures forall k :: i <= k < j ==> p[k] != '\''
    ensures j < |p| ==> p[j] == '\''
  {
    match FindFrom(p, '\'', i)
    case None => |p|
    case Some(j) => j
  }

  /**
   * The quoted-text loop from the apostrophe at i: the text up to the next
   * apostrophe, and, when another apostrophe follows at once, an apostrophe
   * and the quoted text that goes on after it.  The position after is one
   * past the closing apostrophe, or one past the end when there is none.
   */
  function Quoted(p: string, i: nat): (r: (string, nat))
    requires i < |p| && p[i] == '\''
    decreases |p| - i
    ensures i < r.1 <= |p| + 1
  {
    var j := NextQuote(p, i + 1);
    var t := p[i + 1..j];
    if j + 1 >= |p| || p[j + 1] != '\'' then (t, j + 1)
    else var rest := Quoted(p, j + 1); (t + "'" + rest.0, rest.1)
  }

  /** The text of a run of n letters c, for the letters that take no look-ahead. */
  function RunText(w: LocaleWords, info: string, zone: string, c: char, n: nat): string
    requires Valid(w) && InfoFields(info)
  {
    if c == 'y' then YearText(info, n)
    else if c == 'M' then MonthText(w, info, n)
    else if c == 'N' then MonthNameText(w, info, n)
    else if c == 'd' then DayText(w, info, n)
    else if c == 'D' then DayOfYearText(info, n)
    else if c == 'H' || c == 'h' || c == 'm' then ClockText(info, ClockAt(c), n)
    else if c == 'T' then AmPmText(w, info, n, false)
    else if c == 't' then AmPmText(w, info, n, true)
    else ZoneText(zone, n)
  }

  /** The s case: the seconds, then perhaps a fraction. */
  function SecondsPiece(info: string, p: string, i: nat): (r: (string, nat))
    requires InfoFields(info) && i < |p| && p[i] == 's'
    ensures i < r.1 <= |p|
  {
    var j := RunEnd(p, i, 's');
    var f := FractionPiece(info, p, j);
    (ClockText(info, 18, j - i) + f.0, f.1)
  }

  /** One step of the picture loop at position i: the text it appends and where the loop goes on. */
  function Piece(w: LocaleWords, info: string, zone: string, p: string, i: nat): (r: (string, nat))
    requires Valid(w) && InfoFields(info) && i < |p|
    ensures i < r.1 <= |p| + 1
  {
    var c := p[i];
    if !IsPatternChar(c) then ([c], i + 1)
    else if c == '\'' then Quoted(p, i)
    else if c == 'z' then ZPiece(info, p, i)
    else if c == 's' then SecondsPiece(info, p, i)
    else var j := RunEnd(p, i, c); (RunText(w, info, zone, c, j - i), j)
  }

  /** What the picture loop appends from position i on. */
  function FormatFrom(w: LocaleWords, info: string, zone: string, p: string, i: nat): string
    requires Valid(w) && InfoFields(info)
    decreases |p| - i
  {
    if i >= |p| then ""
    else var r := Piece(w, info, zone, p, i); r.0 + FormatFrom(w, info, zone, p, r.1)
  }

  /** The text the picture p makes of the time point. */
  function Format(w: LocaleWords, info: string, zone: string, p: string): string
    requires Valid(w) && InfoFields(info)
  {
    FormatFrom(w, info, zone, p, 0)
  }

  // ----- what a picture makes -----

  /** A maximal run of n letters c at i. */
  predicate RunAt(p: string, i: nat, n: nat, c: char)
  {
    0 < n && i + n <= |p| && (forall k :: i <= k < i + n ==> p[k] == c) && (i + n == |p| || p[i + n] != c)
  }

  /** The letters whose case appends a text chosen by the length of their run alone. */
  predicate PlainRunLetter(c: char)
  {
    c == 'y' || c == 'M' || c == 'N' || c == 'd' || c == 'D' || c == 'H' || c == 'h'
    || c == 'm' || c == 'T' || c == 't' || c == 'Z'
  }

  /** One turn of the picture loop. */
  lemma FormatStep(w: LocaleWords, info: string, zone: string, p: string, i: nat)
    requires Valid(w) && InfoFields(info) && i < |p|
    ensures FormatFrom(w, info, zone, p, i)
      == Piece(w, info, zone, p, i).0 + FormatFrom(w, info, zone, p, Piece(w, info, zone, p, i).1)
  {
  }

  /** The same, for a step already known to append t and go on at j. */
  lemma StepIs(w: LocaleWords, info: string, zone: string, p: string, i: nat, t: string, j: nat)
    requires Valid(w) && InfoFields(info) && i < |p| && Piece(w, info, zone, p, i) == (t, j)
    ensures FormatFrom(w, info, zone, p, i) == t + FormatFrom(w, info, zone, p, j)
  {
    FormatStep(w, info, zone, p, i);
  }

  /** The step at one of those letters. */
  lemma PlainRunPiece(w: LocaleWords, info: string, zone: string, p: string, i: nat)
    requires Valid(w) && InfoFields(info) && i < |p| && PlainRunLetter(p[i])
    ensures Piece(w, info, zone, p, i) == (RunText(w, info, zone, p[i], RunEnd(p, i, p[i]) - i), RunEnd(p, i, p[i]))
  {
  }

  /** A maximal run of one of those letters is consumed whole, and appends the text of its length. */
  lemma FormatRun(w: LocaleWords, info: string, zone: string, p: string, i: nat, n: nat)
    requires Valid(w) && InfoFields(info) && i < |p| && RunAt(p, i, n, p[i]) && PlainRunLetter(p[i])
    ensures FormatFrom(w, info, zone, p, i) == RunText(w, info, zone, p[i], n) + FormatFrom(w, info, zone, p, i + n)
  {
    RunEndUnique(p, i, n, p[i]);
    PlainRunPiece(w, info, zone, p, i);
    StepIs(w, info, zone, p, i, RunText(w, info, zone, p[i], n), i + n);
  }

  /** Characters that are not picture letters are copied as they are. */
  lemma {:induction false} FormatVerbatim(w: LocaleWords, info: string, zone: string, p: string, i: nat)
    requires Valid(w) && InfoFields(info) && i <= |p|
    requires forall k :: i <= k < |p| ==> !IsPatternChar(p[k])
    ensures FormatFrom(w, info, zone, p, i) == p[i..]
    decreases |p| - i
  {
    if i < |p| {
      FormatVerbatim(w, info, zone, p, i + 1);
      assert FormatFrom(w, info, zone, p, i) == [p[i]] + FormatFrom(w, info, zone, p, i + 1);
      assert p[i..] == [p[i]] + p[i + 1..];
    }
  }

  /** A picture without picture letters comes out unchanged. */
  lemma FormatPlainPicture(w: LocaleWords, info: string, zone: string, p: string)
    requires Valid(w) && InfoFields(info)
    requires forall k :: 0 <= k < |p| ==> !IsPatternChar(p[k])
    ensures Format(w, info, zone, p) == p
  {
    FormatVerbatim(w, info, zone, p, 0);
  }

  /** y and yy give the two-digit year, three or more y the four-digit year. */
  lemma FormatYear(w: LocaleWords, info: string, zone: string, p: string, i: nat, n: nat)
    requires Valid(w) && InfoFields(info) && RunAt(p, i, n, 'y')
    ensures FormatFrom(w, info, zone, p, i)
      == (if n < 3 then info[2..4] else info[0..4]) + FormatFrom(w, info, zone, p, i + n)
  {
    FormatRun(w, info, zone, p, i, n);
  }

  /** Where the two digits of H, h, m and s sit in the digit string. */
  function ClockAt(c: char): nat
  {
    if c == 'H' then 12 else if c == 'h' then 14 else if c == 'm' then 16 else 18
  }

  /** H, h and m take their two digits from ClockAt. */
  lemma ClockRunText(w: LocaleWords, info: string, zone: string, c: char, n: nat)
    requires Valid(w) && InfoFields(info) && c in {'H', 'h', 'm'}
    ensures RunText(w, info, zone, c, n) == ClockText(info, ClockAt(c), n)
  {
  }

  /** A single H, h or m drops a leading zero; two or more give both digits. */
  lemma FormatClock(w: LocaleWords, info: string, zone: string, p: string, i: nat, n: nat)
    requires Valid(w) && InfoFields(info) && i < |p| && p[i] in {'H', 'h', 'm'} && RunAt(p, i, n, p[i])
    ensures n == 1 && info[ClockAt(p[i])] == '0' ==>
      FormatFrom(w, info, zone, p, i) == [info[ClockAt(p[i]) + 1]] + FormatFrom(w, info, zone, p, i + 1)
    ensures n == 1 && info[ClockAt(p[i])] != '0' ==>
      FormatFrom(w, info, zone, p, i) == info[ClockAt(p[i])..ClockAt(p[i]) + 2] + FormatFrom(w, info, zone, p, i + 1)
    ensures n >= 2 ==>
      FormatFrom(w, info, zone, p, i) == info[ClockAt(p[i])..ClockAt(p[i]) + 2] + FormatFrom(w, info, zone, p, i + n)
  {
    var at := ClockAt(p[i]);
    FormatRun(w, info, zone, p, i, n);
    ClockRunText(w, info, zone, p[i], n);
    if n == 1 && info[at] == '0' {
      assert info[at + 1..at + 2] == [info[at + 1]];
    }
  }

  /** The step at an s. */
  lemma SecondsStep(w: LocaleWords, info: string, zone: string, p: string, i: nat)
    requires Valid(w) && InfoFields(info) && i < |p| && p[i] == 's'
    ensures Piece(w, info, zone, p, i) == SecondsPiece(info, p, i)
  {
  }

  /** A maximal run of s with no fraction after it. */
  lemma SecondsPlain(info: string, p: string, i: nat, n: nat)
    requires InfoFields(info) && RunAt(p, i, n, 's')
    requires Substr(p, i + n, 2) != ".s" && Substr(p, i + n, 2) != ",s"
    ensures SecondsPiece(info, p, i) == (ClockText(info, 18, n), i + n)
  {
    RunEndUnique(p, i, n, 's');
    assert ClockText(info, 18, n) + "" == ClockText(info, 18, n);
  }

  /** The same for s when no fraction follows. */
  lemma FormatSeconds(w: LocaleWords, info: string, zone: string, p: string, i: nat, n: nat)
    requires Valid(w) && InfoFields(info) && RunAt(p, i, n, 's')
    requires Substr(p, i + n, 2) != ".s" && Substr(p, i + n, 2) != ",s"
    ensures n == 1 && info[18] == '0' ==>
      FormatFrom(w, info, zone, p, i) == [info[19]] + FormatFrom(w, info, zone, p, i + 1)
    ensures n == 1 && info[18] != '0' ==>
      FormatFrom(w, info, zone, p, i) == info[18..20] + FormatFrom(w, info, zone, p, i + 1)
    ensures n >= 2 ==>
      FormatFrom(w, info, zone, p, i) == info[18..20] + FormatFrom(w, info, zone, p, i + n)
  {
    SecondsPlain(info, p, i, n);
    SecondsStep(w, info, zone, p, i);
    StepIs(w, info, zone, p, i, ClockText(info, 18, n), i + n);
    assert info[19..20] == [info[19]];
  }

  /** A maximal run of s, a period or comma, and a maximal run of k more s. */
  lemma SecondsWithFraction(info: string, p: string, i: nat, n: nat, k: nat)
    requires InfoFields(info) && RunAt(p, i, n, 's')
    requires i + n < |p| && p[i + n] in {'.', ','} && RunAt(p, i + n + 1, k, 's')
    ensures SecondsPiece(info, p, i) == (ClockText(info, 18, n) + ([p[i + n]] + Substr(info, 21, k)), i + n + 1 + k)
  {
    RunEndUnique(p, i, n, 's');
    RunEndUnique(p, i + n + 1, k, 's');
    assert Substr(p, i + n, 2) == [p[i + n], 's'];
  }

  /**
   * A run of s followed by a period or comma and k more s gives the
   * seconds, that separator, and the first k of the seven fraction digits
   * (all seven when k is larger).
   */
  lemma FormatFraction(w: LocaleWords, info: string, zone: string, p: string, i: nat, n: nat, k: nat)
    requires Valid(w) && InfoFields(info) && RunAt(p, i, n, 's')
    requires i + n < |p| && p[i + n] in {'.', ','} && RunAt(p, i + n + 1, k, 's')
    ensures FormatFrom(w, info, zone, p, i) ==
      ClockText(info, 18, n) + ([p[i + n]] + Substr(info, 21, k)) + FormatFrom(w, info, zone, p, i + n + 1 + k)
  {
    SecondsWithFraction(info, p, i, n, k);
    SecondsStep(w, info, zone, p, i);
    StepIs(w, info, zone, p, i, ClockText(info, 18, n) + ([p[i + n]] + Substr(info, 21, k)), i + n + 1 + k);
  }

  /** With five or more N the full month name is padded to the width of the longest one, and never cut. */
  lemma FormatPaddedMonth(w: LocaleWords, info: string, zone: string, p: string, i: nat, n: nat)
    requires Valid(w) && InfoFields(info) && RunAt(p, i, n, 'N') && n >= 5
    ensures |w.fullMonth[MonthIndex(info)]| <= w.fullMax
    ensures var name := w.fullMonth[MonthIndex(info)];
      exists text :: FormatFrom(w, info, zone, p, i) == text + FormatFrom(w, info, zone, p, i + n)
        && |text| == w.fullMax && text[..|name|] == name
        && forall k :: |name| <= k < w.fullMax ==> text[k] == ' '
  {
    var name := w.fullMonth[MonthIndex(info)];
    FormatRun(w, info, zone, p, i, n);
    MaxLengthIsMaximum(w.fullMonth);
    PadToWidth(name, w.fullMax);
    var text := PadTo(name, w.fullMax);
    assert FormatFrom(w, info, zone, p, i) == text + FormatFrom(w, info, zone, p, i + n);
  }

  /** Text between apostrophes is copied as it is. */
  lemma FormatQuoted(w: LocaleWords, info: string, zone: string, p: string, i: nat, j: nat)
    requires Valid(w) && InfoFields(info)
    requires i < j < |p| && p[i] == '\'' && p[j] == '\'' && forall k :: i < k < j ==> p[k] != '\''
    requires j + 1 == |p| || p[j + 1] != '\''
    ensures FormatFrom(w, info, zone, p, i) == p[i + 1..j] + FormatFrom(w, info, zone, p, j + 1)
  {
    assert NextQuote(p, i + 1) == j;
  }

  /**
   * Inside quoted text two apostrophes give one and the quoted text goes
   * on; a pair outside quoted text is an empty quotation and gives nothing.
   */
  lemma FormatQuotedApostrophe(w: LocaleWords, info: string, zone: string, p: string, i: nat, j: nat)
    requires Valid(w) && InfoFields(info)
    requires i < j && j + 1 < |p| && p[i] == '\'' && p[j] == '\'' && p[j + 1] == '\''
    requires forall k :: i < k < j ==> p[k] != '\''
    ensures FormatFrom(w, info, zone, p, i) == p[i + 1..j] + "'" + FormatFrom(w, info, zone, p, j + 1)
  {
    assert NextQuote(p, i + 1) == j;
    var rest := Quoted(p, j + 1);
    assert Quoted(p, i) == (p[i + 1..j] + "'" + rest.0, rest.1);
    assert FormatFrom(w, info, zone, p, j + 1) == rest.0 + FormatFrom(w, info, zone, p, rest.1);
    Associative(p[i + 1..j] + "'", rest.0, FormatFrom(w, info, zone, p, rest.1));
  }

  /** An apostrophe that is never closed quotes the rest of the picture. */
  lemma FormatUnclosedQuote(w: LocaleWords, info: string, zone: string, p: string, i: nat)
    requires Valid(w) && InfoFields(info)
    requires i < |p| && p[i] == '\'' && forall k :: i < k < |p| ==> p[k] != '\''
    ensures FormatFrom(w, info, zone, p, i) == p[i + 1..]
  {
    assert NextQuote(p, i + 1) == |p|;
    assert p[i + 1..|p|] + "" == p[i + 1..];
  }

  /** zz gives z; a z at the end, or before a character it does not combine with, is itself. */
  lemma FormatLiteralZ(w: LocaleWords, info: string, zone: string, p: string, i: nat)
    requires Valid(w) && InfoFields(info) && i < |p| && p[i] == 'z'
    ensures i + 1 == |p| ==> FormatFrom(w, info, zone, p, i) == "z"
    ensures i + 1 < |p| && p[i + 1] == 'z' ==> FormatFrom(w, info, zone, p, i) == "z" + FormatFrom(w, info, zone, p, i + 2)
    ensures i + 1 < |p| && !(p[i + 1] in {'M', 'd', 'D', 'H', 'h', 'm', 's', 'z'}) ==>
      FormatFrom(w, info, zone, p, i) == "z" + FormatFrom(w, info, zone, p, i + 1)
  {
    if i + 1 == |p| {
      assert "z" + "" == "z";
    }
  }

  /** z before M, d, H, h or m gives that two-digit field with a leading zero shown as a space. */
  lemma FormatBlanked(w: LocaleWords, info: string, zone: string, p: string, i: nat)
    requires Valid(w) && InfoFields(info) && i + 1 < |p| && p[i] == 'z'
    ensures p[i + 1] == 'M' ==> FormatFrom(w, info, zone, p, i) == BlankedText(info, 4) + FormatFrom(w, info, zone, p, i + 2)
    ensures p[i + 1] == 'd' ==> FormatFrom(w, info, zone, p, i) == BlankedText(info, 6) + FormatFrom(w, info, zone, p, i + 2)
    ensures p[i + 1] == 'H' ==> FormatFrom(w, info, zone, p, i) == BlankedText(info, 12) + FormatFrom(w, info, zone, p, i + 2)
    ensures p[i + 1] == 'h' ==> FormatFrom(w, info, zone, p, i) == BlankedText(info, 14) + FormatFrom(w, info, zone, p, i + 2)
    ensures p[i + 1] == 'm' ==> FormatFrom(w, info, zone, p, i) == BlankedText(info, 16) + FormatFrom(w, info, zone, p, i + 2)
  {
  }

  /** The picture used unless the format is custom. */
  const DefaultPicture: string := "yyyy-MM-dd'T'HH:mm:ss.sssZZ"

  /** A run of exactly two of those letters, followed by another character or the end. */
  lemma FormatPair(w: LocaleWords, info: string, zone: string, p: string, i: nat)
    requires Valid(w) && InfoFields(info) && i + 2 <= |p| && p[i + 1] == p[i] && PlainRunLetter(p[i])
    requires i + 2 == |p| || p[i + 2] != p[i]
    ensures FormatFrom(w, info, zone, p, i) == RunText(w, info, zone, p[i], 2) + FormatFrom(w, info, zone, p, i + 2)
  {
    FormatRun(w, info, zone, p, i, 2);
  }

  /** A character that is not a picture letter, then the rest. */
  lemma FormatLiteral(w: LocaleWords, info: string, zone: string, p: string, i: nat)
    requires Valid(w) && InfoFields(info) && i < |p| && !IsPatternChar(p[i])
    ensures FormatFrom(w, info, zone, p, i) == [p[i]] + FormatFrom(w, info, zone, p, i + 1)
  {
  }

  /** The offset at the end of the default picture. */
  lemma DefaultPictureZone(w: LocaleWords, info: string, zone: string)
    requires Valid(w) && InfoFields(info)
    ensures FormatFrom(w, info, zone, DefaultPicture, 25) == Substr(zone, 0, 5)
  {
    assert |DefaultPicture| == 27 && DefaultPicture[25] == 'Z' && DefaultPicture[26] == 'Z';
    FormatPair(w, info, zone, DefaultPicture, 25);
  }

  /** ss.sss in the default picture. */
  lemma DefaultPictureSeconds(w: LocaleWords, info: string, zone: string)
    requires Valid(w) && InfoFields(info)
    ensures FormatFrom(w, info, zone, DefaultPicture, 19)
      == info[18..20] + ("." + info[21..24]) + FormatFrom(w, info, zone, DefaultPicture, 25)
  {
    var p := DefaultPicture;
    assert |p| == 27 && p[19] == 's' && p[20] == 's' && p[21] == '.';
    assert p[22] == 's' && p[23] == 's' && p[24] == 's' && p[25] == 'Z';
    FormatFraction(w, info, zone, p, 19, 2, 3);
    assert ClockText(info, 18, 2) == info[18..20];
    assert Substr(info, 21, 3) == info[21..24];
    assert [p[21]] == ".";
  }

  /** HH: in the default picture. */
  lemma DefaultPictureHour(w: LocaleWords, info: string, zone: string)
    requires Valid(w) && InfoFields(info)
    ensures FormatFrom(w, info, zone, DefaultPicture, 13)
      == info[12..14] + (":" + FormatFrom(w, info, zone, DefaultPicture, 16))
  {
    var p := DefaultPicture;
    assert |p| == 27 && p[13] == 'H' && p[14] == 'H' && p[15] == ':';
    FormatPair(w, info, zone, p, 13);
    FormatLiteral(w, info, zone, p, 15);
  }

  /** mm: in the default picture. */
  lemma DefaultPictureMinute(w: LocaleWords, info: string, zone: string)
    requires Valid(w) && InfoFields(info)
    ensures FormatFrom(w, info, zone, DefaultPicture, 16)
      == info[16..18] + (":" + FormatFrom(w, info, zone, DefaultPicture, 19))
  {
    var p := DefaultPicture;
    assert |p| == 27 && p[16] == 'm' && p[17] == 'm' && p[18] == ':';
    FormatPair(w, info, zone, p, 16);
    FormatLiteral(w, info, zone, p, 18);
  }

  /** 'T' in the default picture. */
  lemma DefaultPictureSeparator(w: LocaleWords, info: string, zone: string)
    requires Valid(w) && InfoFields(info)
    ensures FormatFrom(w, info, zone, DefaultPicture, 10) == "T" + FormatFrom(w, info, zone, DefaultPicture, 13)
  {
    var p := DefaultPicture;
    assert |p| == 27 && p[10] == '\'' && p[11] == 'T' && p[12] == '\'' && p[13] == 'H';
    FormatQuoted(w, info, zone, p, 10, 12);
    assert p[11..12] == "T";
  }

  /** yyyy- in the default picture. */
  lemma DefaultPictureYear(w: LocaleWords, info: string, zone: string)
    requires Valid(w) && InfoFields(info)
    ensures FormatFrom(w, info, zone, DefaultPicture, 0)
      == info[0..4] + ("-" + FormatFrom(w, info, zone, DefaultPicture, 5))
  {
    var p := DefaultPicture;
    assert |p| == 27 && p[0] == 'y' && p[1] == 'y' && p[2] == 'y' && p[3] == 'y' && p[4] == '-';
    FormatRun(w, info, zone, p, 0, 4);
    FormatLiteral(w, info, zone, p, 4);
  }

  /** MM- in the default picture. */
  lemma DefaultPictureMonth(w: LocaleWords, info: string, zone: string)
    requires Valid(w) && InfoFields(info)
    ensures FormatFrom(w, info, zone, DefaultPicture, 5)
      == info[4..6] + ("-" + FormatFrom(w, info, zone, DefaultPicture, 8))
  {
    var p := DefaultPicture;
    assert |p| == 27 && p[5] == 'M' && p[6] == 'M' && p[7] == '-';
    FormatPair(w, info, zone, p, 5);
    FormatLiteral(w, info, zone, p, 7);
  }

  /** dd in the default picture. */
  lemma DefaultPictureDay(w: LocaleWords, info: string, zone: string)
    requires Valid(w) && InfoFields(info)
    ensures FormatFrom(w, info, zone, DefaultPicture, 8) == info[6..8] + FormatFrom(w, info, zone, DefaultPicture, 10)
  {
    var p := DefaultPicture;
    assert |p| == 27 && p[8] == 'd' && p[9] == 'd' && p[10] == '\'';
    FormatPair(w, info, zone, p, 8);
  }

  /**
   * The default picture gives the extended form of ISO 8601: the date, T,
   * the time with the first three digits of the fraction, and the UTC
   * offset of the zone.
   */
  lemma FormatDefaultPicture(w: LocaleWords, info: string, zone: string)
    requires Valid(w) && InfoFields(info)
    ensures Format(w, info, zone, DefaultPicture)
      == info[0..4] + ("-" + (info[4..6] + ("-" + (info[6..8] + ("T" + (info[12..14] + (":" + (info[16..18]
         + (":" + (info[18..20] + ("." + info[21..24]) + Substr(zone, 0, 5)))))))))))
  {
    DefaultPictureZone(w, info, zone);
    DefaultPictureSeconds(w, info, zone);
    DefaultPictureMinute(w, info, zone);
    DefaultPictureHour(w, info, zone);
    DefaultPictureSeparator(w, info, zone);
    DefaultPictureDay(w, info, zone);
    DefaultPictureMonth(w, info, zone);
    DefaultPictureYear(w, info, zone);
  }

  /** TimestampSettings::DateFormat */
  datatype DateFormat = Iso8601 | LocaleShort | LocaleLong | Custom

  /**
   * formatTimePoint: the locale's short or long date and time, which
   * Windows formats (windowsText(longForm)), or the picture loop over the
   * custom picture or, for any other format, the default one.
   */
  method FormatTimePoint(w: LocaleWords, format: DateFormat, customPicture: string,
                         info: string, zone: string, windowsText: bool -> string) returns (s: string)
    requires Valid(w) && InfoFields(info)
    ensures format == LocaleShort ==> s == windowsText(false)
    ensures format == LocaleLong ==> s == windowsText(true)
    ensures format == Custom ==> s == Format(w, info, zone, customPicture)
    ensures format == Iso8601 ==> s == Format(w, info, zone, DefaultPicture)
  {
    if format == LocaleShort {
      return windowsText(false);
    }
    if format == LocaleLong {
      return windowsText(true);
    }
    var picture := if format == Custom then customPicture else DefaultPicture;
    s := FormatPicture(w, info, zone, picture);
  }

  // ----- the picture loop -----

  /** The for (;;) loop of the apostrophe case. */
  method CopyQuoted(p: string, start: nat) returns (t: string, i: nat)
    requires start < |p| && p[start] == '\''
    ensures (t, i) == Quoted(p, start)
  {
    t, i := "", start;
    ghost var whole := Quoted(p, start);
    assert "" + whole.0 == whole.0;
    while true
      invariant i < |p| && p[i] == '\''
      invariant t + Quoted(p, i).0 == whole.0 && Quoted(p, i).1 == whole.1
      decreases |p| - i
    {
      var j := NextQuote(p, i + 1);
      ghost var q := Quoted(p, i);
      var piece := p[i + 1..j];
      if j + 1 >= |p| || p[j + 1] != '\'' {
        assert q == (piece, j + 1);
        return t + piece, j + 1;
      }
      ghost var rest := Quoted(p, j + 1);
      assert q == (piece + "'" + rest.0, rest.1);
      Associative(t, piece + "'", rest.0);
      Associative(t, piece, "'");
      t := t + piece + "'";
      i := j + 1;
    }
  }

  /** The loop of formatTimePoint over the picture, appending to s and advancing i case by case. */
  method FormatPicture(w: LocaleWords, info: string, zone: string, p: string) returns (s: string)
    requires Valid(w) && InfoFields(info)
    ensures s == Format(w, info, zone, p)
  {
    s := "";
    var i: nat := 0;
    assert "" + Format(w, info, zone, p) == Format(w, info, zone, p);
    while i < |p|
      invariant i <= |p| + 1
      invariant s + FormatFrom(w, info, zone, p, i) == Format(w, info, zone, p)
      decreases |p| + 1 - i
    {
      var t, next := PictureStep(w, info, zone, p, i);
      assert FormatFrom(w, info, zone, p, i) == t + FormatFrom(w, info, zone, p, next);
      Associative(s, t, FormatFrom(w, info, zone, p, next));
      s, i := s + t, next;
    }
  }

  /**
   * The switch of the picture loop: the text one case appends and the
   * position after it.  Every letter case but the apostrophe and z first
   * finds the end of its run of letters.
   */
  method PictureStep(w: LocaleWords, info: string, zone: string, p: string, i: nat) returns (t: string, next: nat)
    requires Valid(w) && InfoFields(info) && i < |p|
    ensures (t, next) == Piece(w, info, zone, p, i)
  {
    var c := p[i];
    if !IsPatternChar(c) {
      t, next := [c], i + 1;
    } else if c == '\'' {
      t, next := CopyQuoted(p, i);
    } else if c == 'z' {
      t, next := ZCase(info, p, i);
    } else {
      var j := RunEnd(p, i, c);
      if c == 's' {
        t, next := ClockText(info, 18, j - i), j;
        if Substr(p, j, 2) == ".s" || Substr(p, j, 2) == ",s" {
          var e := RunEnd(p, j + 1, 's');
          var fraction := [p[j]] + Substr(info, 21, e - j - 1);
          t, next := t + fraction, e;
        } else {
          assert t + "" == t;
        }
      } else {
        t, next := RunText(w, info, zone, c, j - i), j;
      }
    }
  }

  /** The inner switch of the z case. */
  method ZCase(info: string, p: string, i: nat) returns (t: string, next: nat)
    requires InfoFields(info) && i < |p| && p[i] == 'z'
    ensures (t, next) == ZPiece(info, p, i)
  {
    if i + 1 >= |p| {
      return "z", i + 1;
    }
    match p[i + 1] {
      case 'M' => t, next := BlankedText(info, 4), i + 2;
      case 'd' => t, next := BlankedText(info, 6), i + 2;
      case 'D' => t, next := BlankedDayOfYear(info), i + 2;
      case 'H' => t, next := BlankedText(info, 12), i + 2;
      case 'h' => t, next := BlankedText(info, 14), i + 2;
      case 'm' => t, next := BlankedText(info, 16), i + 2;
      case 's' =>
        t, next := BlankedText(info, 18), i + 2;
        if Substr(p, next, 2) == ".s" || Substr(p, next, 2) == ",s" {
          var e := RunEnd(p, next + 1, 's');
          var fraction := [p[next]] + Substr(info, 21, e - next - 1);
          t, next := t + fraction, e;
        } else {
          assert t + "" == t;
        }
      case 'z' => t, next := "z", i + 2;
      case _ => t, next := "z", i + 1;
    }
  }

  // ----- isParseDivider -----

  /** The characters above U+007F that separate the parts of a date: dashes, minus signs and spaces. */
  const NonAsciiDividers: string :=
    "\U{2012}\U{2013}\U{2212}\U{FE63}\U{FF0D}\U{00A0}\U{2000}\U{2001}\U{2002}\U{2003}\U{2004}"
    + "\U{2005}\U{2006}\U{2007}\U{2008}\U{2009}\U{200A}\U{202F}\U{205F}"

  /** isParseDivider: any ASCII character but a letter or digit, or one of the listed non-ASCII characters. */
  predicate IsParseDivider(c: char)
  {
    if c < 128 as char then !IsAlnum(c) else c in NonAsciiDividers
  }

  /** The dashes and minus signs among the dividers. */
  predicate IsDash(c: char)
  {
    c == '\U{2012}' || c == '\U{2013}' || c == '\U{2212}' || c == '\U{FE63}' || c == '\U{FF0D}'
  }

  /** The spaces among the dividers: no-break space, the spaces from U+2000 to U+200A, and two more. */
  predicate IsWideSpace(c: char)
  {
    c == '\U{00A0}' || ('\U{2000}' <= c <= '\U{200A}') || c == '\U{202F}' || c == '\U{205F}'
  }

  /**
   * Letters and digits never divide; every other ASCII character does;
   * above ASCII exactly the dashes, minus signs and spaces of the list do.
   */
  lemma ParseDividers(c: char)
    ensures IsAlnum(c) ==> !IsParseDivider(c)
    ensures c < 128 as char && !IsAlnum(c) ==> IsParseDivider(c)
    ensures c >= 128 as char ==> (IsParseDivider(c) <==> IsDash(c) || IsWideSpace(c))
  {
    if c >= 128 as char {
      if IsWideSpace(c) && '\U{2000}' <= c <= '\U{200A}' {
        var k := c as int - 0x2000 + 6;
        assert NonAsciiDividers[k] == c;
      }
      if c in NonAsciiDividers {
        var k :| 0 <= k < |NonAsciiDividers| && NonAsciiDividers[k] == c;
      }
    }
  }
}
