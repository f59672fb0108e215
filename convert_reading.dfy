// What separatedValuesToTabs makes of the text tabsToSeparatedValues writes
// (Convert.cpp:277-371 against Convert.cpp:384-504): plain, quoted and
// escaped fields are read back as they were written, and a whole
// tab-separated text comes back unchanged when quoting is enabled and
// escaping is not.
module ConvertReading {
  import opened Common
  import opened Convert

  // ---------------------------------------------------------------------
  // Searching
  // ---------------------------------------------------------------------

  /** A scan started before a stretch without stop characters finds what a scan after it finds. */
  lemma {:induction false} FindStopUpTo(s: string, csv: CsvSettings, closer: char, i: nat, e: nat)
    requires i <= e <= |s|
    requires forall k :: i <= k < e ==> !Stops(s[k], csv, closer)
    decreases e - i
    ensures FindStop(s, csv, closer, i) == FindStop(s, csv, closer, e)
  {
    if i < e {
      FindStopUpTo(s, csv, closer, i + 1, e);
    }
  }

  /** The delimiter the reader writes for the character ending a field: a tab for the separator, otherwise the character. */
  function Delimiter(s: string, csv: CsvSettings, e: nat): (d: string)
    requires e < |s|
    ensures |d| == 1
  {
    if s[e] == csv.separator then "\t" else [s[e]]
  }

  /** What FieldFrom gives for a field whose text read back is w and which ends at e. */
  function ReadAs(s: string, csv: CsvSettings, w: string, e: nat): (r: (string, Option<nat>))
    requires e <= |s|
    ensures r.1.Some? ==> r.1.value == e + 1
  {
    if e == |s| then (w, None) else (w + Delimiter(s, csv, e), Some(e + 1))
  }

  /** What ReadAs gives for w is w before what it gives for an empty field. */
  lemma ReadAsEmpty(s: string, csv: CsvSettings, w: string, e: nat)
    requires e <= |s|
    ensures ReadAs(s, csv, w, e).0 == w + ReadAs(s, csv, "", e).0
    ensures ReadAs(s, csv, w, e).1 == ReadAs(s, csv, "", e).1
  {
  }

  /** The characters that may end a field: the separator and the line ends. */
  predicate EndsField(s: string, csv: CsvSettings, e: nat)
    requires e <= |s|
  {
    e < |s| ==> (s[e] == csv.separator || s[e] == '\n' || s[e] == '\r')
  }

  // ---------------------------------------------------------------------
  // Plain fields (Convert.cpp:335-369)
  // ---------------------------------------------------------------------

  /** The unquoted loop on a stretch without characters it stops at, ending at e, writes the stretch and the delimiter. */
  lemma PlainRun(s: string, csv: CsvSettings, subs: Subs, p: nat, e: nat)
    requires p <= e <= |s| && EndsField(s, csv, e)
    requires forall k :: p <= k < e ==> !Stops(s[k], csv, csv.separator)
    requires Kept(s, csv, p, e) == s[p..e]
    ensures UnquotedRun(s, csv, subs, p).0 == ReadAs(s, csv, s[p..e], e).0
    ensures UnquotedRun(s, csv, subs, p).1 == ReadAs(s, csv, s[p..e], e).1
  {
    FindStopUpTo(s, csv, csv.separator, p, e);
    if e < |s| {
      assert FindStop(s, csv, csv.separator, e) == Some(e);
    }
  }

  /**
   * A field without any character the unquoted loop stops at, not opening
   * with a blank or a quote and not ending with a blank, is read as it is;
   * the separator after it becomes a tab and a line end is kept.
   */
  lemma PlainReads(s: string, csv: CsvSettings, subs: Subs, p: nat, e: nat)
    requires p <= e <= |s| && p < |s| && EndsField(s, csv, e)
    requires forall k :: p <= k < e ==> !Stops(s[k], csv, csv.separator)
    requires s[p] != ' ' && !IsQuote(s[p], csv)
    requires p < e ==> s[e - 1] != ' '
    ensures FieldFrom(s, csv, subs, p) == ReadAs(s, csv, s[p..e], e)
  {
    assert Kept(s, csv, p, e) == s[p..e];
    PlainRun(s, csv, subs, p, e);
    assert FindNonBlank(s, p) == Some(p);
    assert Blanks(0) == "";
    var body := FieldBody(s, csv, subs, p);
    assert body.0 == ReadAs(s, csv, s[p..e], e).0 && body.1 == ReadAs(s, csv, s[p..e], e).1;
    assert FieldFrom(s, csv, subs, p).0 == body.0;
  }

  // ---------------------------------------------------------------------
  // Quoted fields (Convert.cpp:286-333 against Convert.cpp:453-465)
  // ---------------------------------------------------------------------

  /** Doubling a field character by character from the front. */
  lemma {:induction false} DoubledCons(c: char, f: string, quote: char, csv: CsvSettings)
    decreases |f|
    ensures Doubled([c] + f, quote, csv) == DoubledChar(c, quote, csv) + Doubled(f, quote, csv)
  {
    if f == [] {
      assert ([c] + f)[..0] == [];
    } else {
      var g := [c] + f;
      var init := f[..|f| - 1];
      var last := f[|f| - 1];
      assert g[..|g| - 1] == [c] + init;
      assert g[|g| - 1] == last;
      assert f[..|f| - 1] == init;
      DoubledCons(c, init, quote, csv);
      assert Doubled(g, quote, csv) == Doubled([c] + init, quote, csv) + DoubledChar(last, quote, csv);
      assert Doubled(f, quote, csv) == Doubled(init, quote, csv) + DoubledChar(last, quote, csv);
      Associative(DoubledChar(c, quote, csv), Doubled(init, quote, csv), DoubledChar(last, quote, csv));
    }
  }

  /** The settings under which the quoted loop reads a doubled field back. */
  predicate QuotedReadable(csv: CsvSettings, subs: Subs, quote: char)
  {
    csv.encodingStyle == Replace && !csv.preserveQuotes
    && (csv.escape ==> csv.escapeChar != quote && subs.esc == [csv.escapeChar]
                       && csv.escapeChar != '\t' && csv.escapeChar != '\n' && csv.escapeChar != '\r')
    && quote != '\t' && quote != '\n' && quote != '\r'
  }

  /** Fields that hold no TAB, LF or CR, as every field of tab-separated text. */
  predicate NoDelimiters(f: string)
  {
    forall k :: 0 <= k < |f| ==> f[k] != '\t' && f[k] != '\n' && f[k] != '\r'
  }

  /** In Replace style the quoted loop stops only at TAB, LF, CR, the quote and an enabled escape character. */
  lemma QuotedStopReplace(c: char, csv: CsvSettings, quote: char)
    requires csv.encodingStyle == Replace
    requires c != '\t' && c != '\n' && c != '\r' && c != quote && !(csv.escape && c == csv.escapeChar)
    ensures !Stops(c, csv, quote)
  {
  }

  /** A character the quoted loop does not stop at is copied, and the loop goes on after it. */
  lemma QuotedRunSkip(s: string, csv: CsvSettings, subs: Subs, quote: char, p: nat, c: char, next: nat)
    requires p < |s| && s[p] == c && next == p + 1 && !Stops(c, csv, quote)
    ensures QuotedRun(s, csv, subs, quote, p).0 == [c] + QuotedRun(s, csv, subs, quote, next).0
    ensures QuotedRun(s, csv, subs, quote, p).1 == QuotedRun(s, csv, subs, quote, next).1
  {
    assert FindStop(s, csv, quote, p) == FindStop(s, csv, quote, p + 1);
    match FindStop(s, csv, quote, p)
    case None =>
      assert s[p..] == [s[p]] + s[p + 1..];
    case Some(q) =>
      assert s[p..q] == [s[p]] + s[p + 1..q];
      var st := QuotedStep(s, csv, subs, quote, p + 1);
      if st.More? {
        Associative([s[p]], st.out, QuotedRun(s, csv, subs, quote, st.at).0);
      }
  }

  /** The closing quote, not followed by a second quote, ends the quoted loop. */
  lemma QuotedRunClose(s: string, csv: CsvSettings, subs: Subs, quote: char, p: nat)
    requires QuotedReadable(csv, subs, quote)
    requires p < |s| && s[p] == quote && (p + 1 < |s| ==> s[p + 1] != quote)
    ensures QuotedRun(s, csv, subs, quote, p).0 == ""
    ensures QuotedRun(s, csv, subs, quote, p).1 == p + 1
  {
    assert FindStop(s, csv, quote, p) == Some(p);
    assert QuotedAt(s, csv, subs, quote, p) == Done("", Some(p + 1));
  }

  /** A doubled quote, or a doubled escape character when escaping is enabled, is read as one. */
  lemma QuotedRunPair(s: string, csv: CsvSettings, subs: Subs, quote: char, p: nat, c: char, next: nat)
    requires QuotedReadable(csv, subs, quote)
    requires next == p + 2 && next <= |s| && s[p] == c && s[p + 1] == c && (c == quote || (c == csv.escapeChar && csv.escape))
    ensures QuotedRun(s, csv, subs, quote, p).0 == [c] + QuotedRun(s, csv, subs, quote, next).0
    ensures QuotedRun(s, csv, subs, quote, p).1 == QuotedRun(s, csv, subs, quote, next).1
  {
    assert FindStop(s, csv, quote, p) == Some(p);
    assert QuotedAt(s, csv, subs, quote, p) == More([s[p]], p + 2);
  }

  /**
   * s holds, from p, the doubled form of f and then the closing quote, not
   * followed by a second quote; stated character by character.
   */
  predicate DoubledAt(s: string, p: nat, f: string, quote: char, csv: CsvSettings)
    decreases |f|
  {
    if f == [] then p < |s| && s[p] == quote && (p + 1 < |s| ==> s[p + 1] != quote)
    else if |DoubledChar(f[0], quote, csv)| == 2 then
      p + 1 < |s| && s[p] == f[0] && s[p + 1] == f[0] && DoubledAt(s, p + 2, f[1..], quote, csv)
    else p < |s| && s[p] == f[0] && DoubledAt(s, p + 1, f[1..], quote, csv)
  }

  /** The quoted loop at the doubled form of one character c reads c, then goes on as after it. */
  lemma DoubledStep(s: string, csv: CsvSettings, subs: Subs, quote: char, c: char, p: nat, next: nat, out: string, end: nat)
    requires QuotedReadable(csv, subs, quote) && c != '\t' && c != '\n' && c != '\r'
    requires next == p + |DoubledChar(c, quote, csv)| && next <= |s| && s[p] == c
    requires |DoubledChar(c, quote, csv)| == 2 ==> s[p + 1] == c
    requires QuotedRun(s, csv, subs, quote, next).0 == out
    requires QuotedRun(s, csv, subs, quote, next).1 == end
    ensures QuotedRun(s, csv, subs, quote, p).0 == [c] + out
    ensures QuotedRun(s, csv, subs, quote, p).1 == end
  {
    if |DoubledChar(c, quote, csv)| == 2 {
      QuotedRunPair(s, csv, subs, quote, p, c, next);
    } else {
      QuotedStopReplace(c, csv, quote);
      QuotedRunSkip(s, csv, subs, quote, p, c, next);
    }
  }

  /**
   * The quoted loop started on the doubled form of f, followed by the
   * closing quote and a character that is not a quote, reads f and
   * stops after the closing quote.
   */
  lemma {:induction false} DoubledReads(s: string, csv: CsvSettings, subs: Subs, quote: char, f: string, p: nat)
    requires QuotedReadable(csv, subs, quote) && NoDelimiters(f) && DoubledAt(s, p, f, quote, csv)
    decreases |f|
    ensures QuotedRun(s, csv, subs, quote, p).0 == f
    ensures QuotedRun(s, csv, subs, quote, p).1 == p + |Doubled(f, quote, csv)| + 1
  {
    if f == [] {
      QuotedRunClose(s, csv, subs, quote, p);
    } else {
      var c := f[0];
      var tail := f[1..];
      DoubledFirst(f, quote, csv);
      var next := DoubledAtFirst(s, p, f, quote, csv);
      NoDelimitersTail(f);
      DoubledReads(s, csv, subs, quote, tail, next);
      DoubledStep(s, csv, subs, quote, c, p, next, tail, next + |Doubled(tail, quote, csv)| + 1);
    }
  }

  /** DoubledAt p for a non-empty field: its first character once or twice, then the rest from next. */
  lemma DoubledAtFirst(s: string, p: nat, f: string, quote: char, csv: CsvSettings) returns (next: nat)
    requires f != [] && DoubledAt(s, p, f, quote, csv)
    ensures next == p + |DoubledChar(f[0], quote, csv)| && next <= |s| && s[p] == f[0]
    ensures |DoubledChar(f[0], quote, csv)| == 2 ==> s[p + 1] == f[0]
    ensures DoubledAt(s, next, f[1..], quote, csv)
  {
    next := p + |DoubledChar(f[0], quote, csv)|;
  }

  /** The characters of a field without delimiters after its first have none either. */
  lemma NoDelimitersTail(f: string)
    requires f != [] && NoDelimiters(f)
    ensures NoDelimiters(f[1..])
  {
    assert forall k :: 0 <= k < |f| - 1 ==> f[1..][k] == f[k + 1];
  }

  /** The doubled form of f, then the closing quote, written into s from p, is DoubledAt p. */
  lemma {:induction false} DoubledIsAt(s: string, p: nat, f: string, quote: char, csv: CsvSettings)
    requires p + |Doubled(f, quote, csv)| < |s|
    requires s[p..p + |Doubled(f, quote, csv)|] == Doubled(f, quote, csv)
    requires s[p + |Doubled(f, quote, csv)|] == quote
    requires p + |Doubled(f, quote, csv)| + 1 < |s| ==> s[p + |Doubled(f, quote, csv)| + 1] != quote
    decreases |f|
    ensures DoubledAt(s, p, f, quote, csv)
  {
    if f != [] {
      var n := DoubledFront(s, p, f, quote, csv);
      DoubledIsAt(s, n, f[1..], quote, csv);
    }
  }

  /** The doubled form of f written into s from p starts with its first character, then the doubled rest of f from n. */
  lemma DoubledFront(s: string, p: nat, f: string, quote: char, csv: CsvSettings) returns (n: nat)
    requires f != [] && p + |Doubled(f, quote, csv)| <= |s|
    requires s[p..p + |Doubled(f, quote, csv)|] == Doubled(f, quote, csv)
    ensures n == p + |DoubledChar(f[0], quote, csv)| && n + |Doubled(f[1..], quote, csv)| == p + |Doubled(f, quote, csv)|
    ensures s[n..n + |Doubled(f[1..], quote, csv)|] == Doubled(f[1..], quote, csv)
    ensures s[p] == f[0] && (|DoubledChar(f[0], quote, csv)| == 2 ==> s[p + 1] == f[0])
  {
    var dc := DoubledChar(f[0], quote, csv);
    DoubledFirst(f, quote, csv);
    n := p + |dc|;
    FrontOf(s, p, Doubled(f, quote, csv), f[0], dc, Doubled(f[1..], quote, csv));
  }

  /** Doubling a non-empty field: its first character doubled, then the rest. */
  lemma DoubledFirst(f: string, quote: char, csv: CsvSettings)
    requires f != []
    ensures Doubled(f, quote, csv) == DoubledChar(f[0], quote, csv) + Doubled(f[1..], quote, csv)
  {
    assert [f[0]] + f[1..] == f;
    DoubledCons(f[0], f[1..], quote, csv);
  }

  /** Text holding dc + rest from p, dc being c once or twice, holds c at p (and p + 1), then rest. */
  lemma FrontOf(s: string, p: nat, d: string, c: char, dc: string, rest: string)
    requires d == dc + rest && 1 <= |dc| <= 2 && dc[0] == c && (|dc| == 2 ==> dc[1] == c)
    requires p + |d| <= |s| && s[p..p + |d|] == d
    ensures s[p + |dc|..p + |dc| + |rest|] == rest
    ensures s[p] == c && (|dc| == 2 ==> s[p + 1] == c)
  {
    SliceOf(s, p, d, |dc|, |d|);
    assert d[|dc|..|d|] == rest;
    assert s[p..p + |d|][0] == s[p];
    if |dc| == 2 {
      assert s[p..p + |d|][1] == s[p + 1];
    }
  }

  /** A stretch of text equal to w holds w's slices at the same offsets. */
  lemma SliceOf(s: string, p: nat, w: string, i: nat, j: nat)
    requires p + |w| <= |s| && s[p..p + |w|] == w && i <= j <= |w|
    ensures s[p + i..p + j] == w[i..j]
  {
    forall k | 0 <= k < j - i
      ensures s[p + i..p + j][k] == w[i..j][k]
    {
      assert s[p + i + k] == s[p..p + |w|][i + k];
    }
  }

  /** Text holding a quote, d and a quote from p holds d from p + 1 between the two quotes. */
  lemma QuotedSplit(s: string, p: nat, d: string, quote: char)
    requires p + |d| + 2 <= |s| && s[p..p + |d| + 2] == [quote] + d + [quote]
    ensures s[p] == quote && s[p + 1..p + 1 + |d|] == d && s[p + 1 + |d|] == quote
  {
    var w := [quote] + d + [quote];
    SliceOf(s, p, w, 1, 1 + |d|);
    assert w[1..1 + |d|] == d;
    assert s[p] == quote by {
      assert s[p..p + |d| + 2][0] == s[p];
    }
    assert s[p + 1 + |d|] == quote by {
      assert s[p..p + |d| + 2][1 + |d|] == s[p + 1 + |d|];
    }
  }

  /** The quoted loop, after the opening quote of a field written in quotes, reads the field and stops after the closing quote. */
  lemma QuotedPartReads(s: string, csv: CsvSettings, subs: Subs, f: string, quote: char, p: nat)
    requires QuotedReadable(csv, subs, quote) && NoDelimiters(f)
    requires p + |Quoted(f, quote, csv)| <= |s|
    requires s[p..p + |Quoted(f, quote, csv)|] == Quoted(f, quote, csv)
    requires p + |Quoted(f, quote, csv)| < |s| ==> s[p + |Quoted(f, quote, csv)|] != quote
    ensures s[p] == quote
    ensures QuotedRun(s, csv, subs, quote, p + 1).0 == f
    ensures QuotedRun(s, csv, subs, quote, p + 1).1 == p + |Quoted(f, quote, csv)|
  {
    var d := Doubled(f, quote, csv);
    QuotedSplit(s, p, d, quote);
    DoubledIsAt(s, p + 1, f, quote, csv);
    DoubledReads(s, csv, subs, quote, f, p + 1);
  }

  /** FieldBody at an opening quote, with the runs of its two loops named. */
  lemma FieldBodyQuoted(s: string, csv: CsvSettings, subs: Subs, p: nat,
                        quoted: (string, nat), rest: (string, Option<nat>))
    requires p < |s| && IsQuote(s[p], csv)
    requires quoted == QuotedRun(s, csv, subs, s[p], p + 1)
    requires rest == UnquotedRun(s, csv, subs, quoted.1)
    ensures FieldBody(s, csv, subs, p) == ((if csv.preserveQuotes then [s[p]] else "") + quoted.0 + rest.0, rest.1)
  {
  }

  /** A quoted part read as f and ending at a delimiter or the end of the text makes the field body f. */
  lemma QuotedBodyReads(s: string, csv: CsvSettings, subs: Subs, f: string, p: nat, e: nat)
    requires p < |s| && IsQuote(s[p], csv) && !csv.preserveQuotes
    requires e <= |s| && EndsField(s, csv, e)
    requires QuotedRun(s, csv, subs, s[p], p + 1).0 == f && QuotedRun(s, csv, subs, s[p], p + 1).1 == e
    ensures FieldBody(s, csv, subs, p).0 == ReadAs(s, csv, f, e).0
    ensures FieldBody(s, csv, subs, p).1 == ReadAs(s, csv, f, e).1
  {
    var quoted := QuotedRun(s, csv, subs, s[p], p + 1);
    Kept0(s, csv, e);
    PlainRun(s, csv, subs, e, e);
    var rest := UnquotedRun(s, csv, subs, e);
    assert s[e..e] == "";
    assert rest == ReadAs(s, csv, "", e);
    ReadAsEmpty(s, csv, f, e);
    FieldBodyQuoted(s, csv, subs, p, quoted, rest);
  }

  /** Nothing is kept of an empty stretch. */
  lemma Kept0(s: string, csv: CsvSettings, e: nat)
    requires e <= |s|
    ensures Kept(s, csv, e, e) == s[e..e]
  {
  }

  /**
   * A field written in quotes, followed by the separator, a line end or the
   * end of the text, is read back as the field, with the delimiter.
   */
  lemma QuotedReads(s: string, csv: CsvSettings, subs: Subs, f: string, quote: char, p: nat, e: nat)
    requires IsQuote(quote, csv) && QuotedReadable(csv, subs, quote) && NoDelimiters(f)
    requires e == p + |Quoted(f, quote, csv)| && e <= |s|
    requires s[p..e] == Quoted(f, quote, csv)
    requires EndsField(s, csv, e) && csv.separator != quote
    ensures FieldFrom(s, csv, subs, p) == ReadAs(s, csv, f, e)
  {
    QuotedPartReads(s, csv, subs, f, quote, p);
    QuotedBodyReads(s, csv, subs, f, p, e);
    FieldFromBody(s, csv, subs, p);
    SamePair(FieldFrom(s, csv, subs, p), FieldBody(s, csv, subs, p), ReadAs(s, csv, f, e));
  }

  /** A field that starts with no blank is its body. */
  lemma FieldFromBody(s: string, csv: CsvSettings, subs: Subs, p: nat)
    requires p < |s| && s[p] != ' '
    ensures FieldFrom(s, csv, subs, p) == FieldBody(s, csv, subs, p)
  {
    var body := FieldBody(s, csv, subs, p);
    assert FindNonBlank(s, p) == Some(p);
    assert Blanks(0) == "";
    assert "" + body.0 == body.0;
    assert FieldFrom(s, csv, subs, p) == ("" + body.0, body.1);
  }

  /** A pair equal to y, whose components are those of z, is z. */
  lemma SamePair(x: (string, Option<nat>), y: (string, Option<nat>), z: (string, Option<nat>))
    requires x == y && y.0 == z.0 && y.1 == z.1
    ensures x == z
  {
  }

  // ---------------------------------------------------------------------
  // Whole texts (Convert.cpp:410-504, then Convert.cpp:277-371)
  // ---------------------------------------------------------------------

  /**
   * Settings under which a tab-separated text written as separated values
   * reads back unchanged: no encoding, quoting enabled, escaping and
   * preserving quotes disabled, a separator that is not a blank, a quote or
   * a line end, and an escape character that isValidField does not mistake
   * for an escape (it tests for it even when escaping is disabled).
   */
  predicate Reversible(csv: CsvSettings)
  {
    csv.encodingStyle == Replace && !csv.escape && !csv.preserveQuotes && (csv.quote || csv.apostrophe)
    && csv.separator != ' ' && csv.separator != '"' && csv.separator != '\'' && csv.separator != '\n' && csv.separator != '\r'
    && csv.escapeChar != csv.separator && csv.escapeChar != '\n' && csv.escapeChar != '\r'
    && !IsQuote(csv.escapeChar, csv)
  }

  /** isValidField's unquoted scan, when the escape character is not among the characters it checks, finds none of them. */
  lemma {:induction false} EscapedFromNone(s: string, i: nat, end: nat, stop: string, esc: char, head: bool)
    requires i <= |s| && esc !in stop && (head ==> i < end)
    requires EscapedFrom(s, i, end, stop, esc, head)
    decreases |s| - i, if head then 1 else 0
    ensures forall k :: i <= k < |s| ==> s[k] !in stop
  {
    if head {
      EscapedFromNone(s, i, end, stop, esc, false);
    } else if i < |s| {
      EscapedFromNone(s, i + 1, end, stop, esc, false);
    }
  }

  /** A field without TAB, LF and CR that tabsToSeparatedValues writes as it is has no character the unquoted loop stops at. */
  lemma RawHasNoStop(raw: string, csv: CsvSettings)
    requires Reversible(csv) && raw != [] && NoDelimiters(raw)
    requires raw[0] != ' ' && raw[|raw| - 1] != ' ' && !IsQuote(raw[0], csv) && ValidField(raw, csv, true)
    ensures forall k :: 0 <= k < |raw| ==> !Stops(raw[k], csv, csv.separator)
  {
    assert FindNonBlank(raw, 0) == Some(0);
    assert LastNonBlank(raw, 0, |raw|) == |raw| - 1;
    var stop := UnquotedStop(csv, true);
    EscapedFromNone(raw, 0, |raw|, stop, csv.escapeChar, true);
    forall k | 0 <= k < |raw|
      ensures !Stops(raw[k], csv, csv.separator)
    {
      assert raw[k] !in stop;
    }
  }

  /** The field written as it is, at start in t, reads back as raw. */
  lemma RawReads(raw: string, csv: CsvSettings, subs: Subs, t: string, start: nat, e: nat)
    requires Reversible(csv) && raw != [] && raw[0] != ' ' && raw[|raw| - 1] != ' ' && !IsQuote(raw[0], csv)
    requires forall k :: 0 <= k < |raw| ==> !Stops(raw[k], csv, csv.separator)
    requires e == start + |raw| && e <= |t| && t[start..e] == raw && EndsField(t, csv, e)
    ensures FieldFrom(t, csv, subs, start) == ReadAs(t, csv, raw, e)
  {
    forall k | start <= k < e
      ensures !Stops(t[k], csv, csv.separator)
    {
      assert t[k] == t[start..e][k - start];
    }
    assert t[start] == raw[0] && t[e - 1] == raw[|raw| - 1] by {
      assert t[start..e][0] == t[start];
      assert t[start..e][|raw| - 1] == t[e - 1];
    }
    PlainReads(t, csv, subs, start, e);
  }

  /** What tabsToSeparatedValues writes for a non-empty field under Reversible settings: the field itself or its quoted form. */
  lemma WrittenForms(s: string, csv: CsvSettings, p: nat, end: nat)
    requires Reversible(csv) && p < end <= |s|
    ensures FieldText(s, csv, p, end).Some? && FieldText(s, csv, p, end).value != []
    ensures WrittenAs(s[p..end], FieldText(s, csv, p, end).value, csv)
  {
    assert DecodeField(s[p..end], csv) == s[p..end];
  }

  /** w is raw written as it is, or raw in quotes. */
  predicate WrittenAs(raw: string, w: string, csv: CsvSettings)
    requires csv.quote || csv.apostrophe
  {
    (w == raw && raw != [] && raw[0] != ' ' && raw[|raw| - 1] != ' ' && !IsQuote(raw[0], csv) && ValidField(raw, csv, true))
    || w == Quoted(raw, ChooseQuote(raw, csv), csv)
  }

  /**
   * What the reader needs of a written field: raw without delimiters, and
   * w either raw itself, with nothing the unquoted loop stops at and no
   * blank or quote where the reader would take it for one, or raw in the
   * quotes quote.
   */
  predicate Readable(raw: string, w: string, quote: char, csv: CsvSettings)
  {
    raw != [] && NoDelimiters(raw) && IsQuote(quote, csv) &&
    ((w == raw && raw[0] != ' ' && raw[|raw| - 1] != ' ' && !IsQuote(raw[0], csv)
      && forall k :: 0 <= k < |raw| ==> !Stops(raw[k], csv, csv.separator))
     || w == Quoted(raw, quote, csv))
  }

  /** Each written form of a field without delimiters is readable, with the quote ChooseQuote picks. */
  lemma WrittenReadable(raw: string, w: string, csv: CsvSettings) returns (quote: char)
    requires Reversible(csv) && raw != [] && NoDelimiters(raw) && WrittenAs(raw, w, csv)
    ensures quote == ChooseQuote(raw, csv) && Readable(raw, w, quote, csv)
  {
    quote := ChooseQuote(raw, csv);
    if w == raw && raw[0] != ' ' && raw[|raw| - 1] != ' ' && !IsQuote(raw[0], csv) && ValidField(raw, csv, true) {
      RawHasNoStop(raw, csv);
    }
  }

  /** A readable field, at start in t and followed by the separator, a line end or the end of t, reads back as raw. */
  lemma ReadableReads(raw: string, w: string, quote: char, csv: CsvSettings, subs: Subs, t: string, start: nat, e: nat)
    requires Reversible(csv) && Readable(raw, w, quote, csv)
    requires e == start + |w| && e <= |t| && t[start..e] == w && EndsField(t, csv, e)
    ensures w != []
    ensures FieldFrom(t, csv, subs, start) == ReadAs(t, csv, raw, e)
  {
    if w == raw && raw[0] != ' ' && raw[|raw| - 1] != ' ' && !IsQuote(raw[0], csv)
       && forall k :: 0 <= k < |raw| ==> !Stops(raw[k], csv, csv.separator) {
      RawReads(raw, csv, subs, t, start, e);
    } else {
      QuotedReads(t, csv, subs, raw, quote, start, e);
    }
  }

  /**
   * The field of s from p to end, written as w: a stretch without TAB, LF
   * and CR, written as nothing when it is empty, else as it is, with
   * nothing the unquoted loop stops at and no blank or quote where the
   * reader would take it for one, or in the quotes quote.
   */
  predicate FieldLaid(s: string, csv: CsvSettings, p: nat, end: nat, w: string, quote: char)
    requires p <= end <= |s|
  {
    (forall k :: p <= k < end ==> s[k] != '\t' && s[k] != '\n' && s[k] != '\r') &&
    if p == end then w == ""
    else
      IsQuote(quote, csv) &&
      ((w == s[p..end] && s[p] != ' ' && s[end - 1] != ' ' && !IsQuote(s[p], csv)
        && forall k :: p <= k < end ==> !Stops(s[k], csv, csv.separator))
       || w == Quoted(s[p..end], quote, csv))
  }

  /** A laid-out non-empty field is readable. */
  lemma LaidReadable(s: string, csv: CsvSettings, p: nat, end: nat, w: string, quote: char)
    requires p < end <= |s| && FieldLaid(s, csv, p, end, w, quote)
    ensures Readable(s[p..end], w, quote, csv)
  {
    var raw := s[p..end];
    forall k | 0 <= k < |raw|
      ensures raw[k] == s[p + k]
    {
    }
    assert raw[0] == s[p] && raw[|raw| - 1] == s[end - 1];
  }

  /** A readable non-empty field is laid out. */
  lemma ReadableLaid(s: string, csv: CsvSettings, p: nat, end: nat, w: string, quote: char)
    requires p < end <= |s| && Readable(s[p..end], w, quote, csv)
    ensures FieldLaid(s, csv, p, end, w, quote)
  {
    var raw := s[p..end];
    forall k | p <= k < end
      ensures s[k] == raw[k - p]
    {
    }
    assert raw[0] == s[p] && raw[|raw| - 1] == s[end - 1];
  }

  /**
   * A field laid out as w at start in t, followed by the separator, a line
   * end or the end of t, reads back as the field.
   */
  lemma FieldTextReads(s: string, csv: CsvSettings, subs: Subs, p: nat, end: nat,
                       w: string, quote: char, t: string, start: nat, e: nat)
    requires Reversible(csv) && p <= end <= |s| && FieldLaid(s, csv, p, end, w, quote)
    requires e == start + |w| && e <= |t| && t[start..e] == w && EndsField(t, csv, e) && start < |t|
    ensures FieldFrom(t, csv, subs, start) == ReadAs(t, csv, s[p..end], e)
  {
    if p == end {
      assert w == "" && s[p..end] == t[start..start];
      assert t[start] != ' ' && !IsQuote(t[start], csv);
      PlainReads(t, csv, subs, start, start);
    } else {
      LaidReadable(s, csv, p, end, w, quote);
      ReadableReads(s[p..end], w, quote, csv, subs, t, start, e);
    }
  }

  /** A stretch without TAB, LF and CR, as FindAny reports, is a field without delimiters. */
  lemma DelimiterFree(s: string, p: nat, end: nat)
    requires p <= end <= |s| && forall k :: p <= k < end ==> s[k] !in "\t\n\r"
    ensures NoDelimiters(s[p..end])
  {
    forall k | 0 <= k < end - p
      ensures s[p..end][k] != '\t' && s[p..end][k] != '\n' && s[p..end][k] != '\r'
    {
      assert s[p..end][k] == s[p + k];
      assert s[p + k] !in "\t\n\r";
    }
  }

  /** What tabsToSeparatedValues writes for the delimiter at end: the separator for a tab, LF and CR as they are. */
  function WrittenDelimiter(s: string, csv: CsvSettings, end: nat): (d: char)
    requires end < |s|
    ensures s[end] != '\t' ==> d == s[end]
  {
    if s[end] == '\t' then csv.separator else s[end]
  }

  /**
   * The first field of s from p: where its delimiter is, and what
   * tabsToSeparatedValues writes for it, with TabsFrom at p in those terms.
   */
  lemma FieldOf(s: string, csv: CsvSettings, p: nat) returns (q: Option<nat>, end: nat, w: string, quote: char)
    requires Reversible(csv) && p <= |s|
    ensures q == FindAny(s, "\t\n\r", p) && end == (if q.Some? then q.value else |s|)
    ensures p <= end <= |s| && (q.Some? ==> s[end] == '\t' || s[end] == '\n' || s[end] == '\r')
    ensures FieldLaid(s, csv, p, end, w, quote)
    ensures q.None? ==> TabsFrom(s, csv, p) == Some(w)
    ensures q.Some? ==> TabsFrom(s, csv, p) == Prefixed(w + [WrittenDelimiter(s, csv, end)], TabsFrom(s, csv, end + 1))
  {
    q := FindAny(s, "\t\n\r", p);
    end := if q.Some? then q.value else |s|;
    FindAnyMeaning(s, "\t\n\r", p);
    DelimiterFree(s, p, end);
    quote := if csv.quote then '"' else '\'';
    if p < end {
      WrittenForms(s, csv, p, end);
      quote := WrittenReadable(s[p..end], FieldText(s, csv, p, end).value, csv);
      ReadableLaid(s, csv, p, end, FieldText(s, csv, p, end).value, quote);
    }
    w := FieldText(s, csv, p, end).value;
    TabsFromIs(s, csv, p, q, end, Some(w));
  }

  /** Under Reversible settings tabsToSeparatedValues writes every text: no field makes it stop with an error. */
  lemma {:induction false} TabsWritten(s: string, csv: CsvSettings, p: nat)
    requires Reversible(csv) && p <= |s|
    decreases |s| - p
    ensures TabsFrom(s, csv, p).Some?
  {
    var q := FindAny(s, "\t\n\r", p);
    FindAnyMeaning(s, "\t\n\r", p);
    if q.Some? {
      TabsWritten(s, csv, q.value + 1);
    }
    FieldWritten(s, csv, p, q);
  }

  /** The first field of s from p is written, and so is the text when the rest after its delimiter is. */
  lemma FieldWritten(s: string, csv: CsvSettings, p: nat, q: Option<nat>)
    requires Reversible(csv) && p <= |s| && q == FindAny(s, "\t\n\r", p)
    requires q.Some? ==> q.value < |s| && TabsFrom(s, csv, q.value + 1).Some?
    ensures TabsFrom(s, csv, p).Some?
  {
    FindAnyMeaning(s, "\t\n\r", p);
    var end := if q.Some? then q.value else |s|;
    var w := FieldText(s, csv, p, end);
    if p < end {
      WrittenForms(s, csv, p, end);
    }
    TabsFromIs(s, csv, p, q, end, w);
    if q.Some? {
      PrefixedSome(w.value + [if s[end] == '\t' then csv.separator else s[end]], TabsFrom(s, csv, end + 1), TabsFrom(s, csv, p));
    }
  }

  /** A text prefixed to a written rest is written. */
  lemma PrefixedSome(a: string, r: Option<string>, x: Option<string>)
    requires r.Some? && x == Prefixed(a, r)
    ensures x.Some?
  {
  }

  /** The last field of s, from p to its end, laid out at start to the end of t, reads back as s[p..] and ends the text. */
  lemma LastFieldReads(s: string, csv: CsvSettings, subs: Subs, p: nat, w: string, quote: char,
                       t: string, start: nat)
    requires Reversible(csv) && p <= |s| && FieldLaid(s, csv, p, |s|, w, quote)
    requires start <= |t| && t[start..] == w
    ensures start == |t| ==> p == |s|
    ensures start < |t| ==> FieldFrom(t, csv, subs, start).0 == s[p..] && FieldFrom(t, csv, subs, start).1 == None
  {
    if p < |s| {
      LaidReadable(s, csv, p, |s|, w, quote);
    }
    if start < |t| {
      assert t[start..start + |w|] == w && start + |w| == |t| && s[p..|s|] == s[p..];
      FieldTextReads(s, csv, subs, p, |s|, w, quote, t, start, |t|);
    }
  }

  /**
   * A field of s from p to the delimiter at end, laid out at start in t and
   * followed by the delimiter written for it, reads back as s[p..end] and
   * the delimiter; the reader goes on after it.
   */
  lemma InnerFieldReads(s: string, csv: CsvSettings, subs: Subs, p: nat, end: nat,
                        w: string, quote: char, t: string, start: nat, e: nat)
    requires Reversible(csv) && p <= end < |s| && FieldLaid(s, csv, p, end, w, quote)
    requires s[end] == '\t' || s[end] == '\n' || s[end] == '\r'
    requires e == start + |w| && e < |t| && t[start..e] == w
    requires t[e] == WrittenDelimiter(s, csv, end)
    ensures FieldFrom(t, csv, subs, start).0 == s[p..end + 1]
    ensures FieldFrom(t, csv, subs, start).1 == Some(e + 1)
  {
    DelimitedAs(s, csv, t, p, end, e);
    FieldTextReads(s, csv, subs, p, end, w, quote, t, start, e);
    Composed(FieldFrom(t, csv, subs, start), ReadAs(t, csv, s[p..end], e), s[p..end + 1], Some(e + 1));
  }

  /** A pair equal to one with the components a and b has them too. */
  lemma Composed(x: (string, Option<nat>), y: (string, Option<nat>), a: string, b: Option<nat>)
    requires x == y && y.0 == a && y.1 == b
    ensures x.0 == a && x.1 == b
  {
  }

  /** The written delimiter of the field of s from p to end, at e in t, ends the field there and reads back as its delimiter in s. */
  lemma DelimitedAs(s: string, csv: CsvSettings, t: string, p: nat, end: nat, e: nat)
    requires Reversible(csv) && p <= end < |s| && e < |t|
    requires s[end] == '\t' || s[end] == '\n' || s[end] == '\r'
    requires t[e] == WrittenDelimiter(s, csv, end)
    ensures EndsField(t, csv, e) && ReadAs(t, csv, s[p..end], e).0 == s[p..end + 1] && ReadAs(t, csv, s[p..end], e).1 == Some(e + 1)
  {
    assert Delimiter(t, csv, e) == [s[end]];
    assert s[p..end + 1] == s[p..end] + [s[end]];
  }

  /** A text that starts, from start, with w, then d, then r, read in its three parts. */
  lemma SplitAt(t: string, start: nat, w: string, d: char, r: string)
    requires start <= |t| && t[start..] == w + [d] + r
    ensures start + |w| < |t| && t[start..start + |w|] == w && t[start + |w|] == d && t[start + |w| + 1..] == r
  {
    assert t[start..start + |w|] == t[start..][..|w|];
    assert t[start + |w|] == t[start..][|w|];
    assert t[start + |w| + 1..] == t[start..][|w| + 1..];
  }

  /**
   * o holds, field by field, what tabsToSeparatedValues writes for the
   * fields of s from p: each entry of fields gives where a field of s ends,
   * how long its written form is and the quote it may be written in, and
   * the written delimiter follows every field but the last.
   */
  predicate Laid(s: string, csv: CsvSettings, p: nat, o: string, fields: seq<(nat, nat, char)>)
    decreases |fields|
  {
    |fields| > 0 && p <= fields[0].0 <= |s| && fields[0].1 <= |o| &&
    var end := fields[0].0;
    var k := fields[0].1;
    FieldLaid(s, csv, p, end, o[..k], fields[0].2) &&
    if |fields| == 1 then end == |s| && k == |o|
    else
      end < |s| && (s[end] == '\t' || s[end] == '\n' || s[end] == '\r') && k < |o| &&
      o[k] == WrittenDelimiter(s, csv, end) && Laid(s, csv, end + 1, o[k + 1..], fields[1..])
  }

  /** The three parts of w + [d] + r. */
  lemma Joined(w: string, d: char, r: string)
    ensures (w + [d] + r)[..|w|] == w && (w + [d] + r)[|w|] == d && (w + [d] + r)[|w| + 1..] == r
  {
    assert (w + [d] + r)[..|w|] == w;
    assert (w + [d] + r)[|w| + 1..] == r;
  }

  /** A field from p to the delimiter at end, written as w, in front of the rest laid out after it. */
  lemma LaidCons(s: string, csv: CsvSettings, p: nat, end: nat, w: string, quote: char, rest: string,
                 more: seq<(nat, nat, char)>, o: string) returns (fields: seq<(nat, nat, char)>)
    requires p <= end < |s| && FieldLaid(s, csv, p, end, w, quote)
    requires s[end] == '\t' || s[end] == '\n' || s[end] == '\r'
    requires Laid(s, csv, end + 1, rest, more) && o == w + [WrittenDelimiter(s, csv, end)] + rest
    ensures fields == [(end, |w|, quote)] + more && Laid(s, csv, p, o, fields)
  {
    Joined(w, WrittenDelimiter(s, csv, end), rest);
    fields := [(end, |w|, quote)] + more;
    assert fields[0] == (end, |w|, quote) && fields[1..] == more;
  }

  /** What tabsToSeparatedValues writes for s from p is laid out field by field. */
  lemma {:induction false} TabsLaid(s: string, csv: CsvSettings, p: nat, o: string) returns (fields: seq<(nat, nat, char)>)
    requires Reversible(csv) && p <= |s| && TabsFrom(s, csv, p) == Some(o)
    decreases |s| - p
    ensures Laid(s, csv, p, o, fields)
  {
    var q, end, w, quote, rest := FieldIn(s, csv, p, o);
    if q.None? {
      fields := LastLaid(s, csv, p, w, quote);
    } else {
      var more := TabsLaid(s, csv, end + 1, rest);
      fields := LaidCons(s, csv, p, end, w, quote, rest, more, o);
    }
  }

  /** The first field of what tabsToSeparatedValues writes for s from p, o, and the text written after it. */
  lemma FieldIn(s: string, csv: CsvSettings, p: nat, o: string) returns (q: Option<nat>, end: nat, w: string, quote: char, rest: string)
    requires Reversible(csv) && p <= |s| && TabsFrom(s, csv, p) == Some(o)
    ensures p <= end <= |s| && FieldLaid(s, csv, p, end, w, quote)
    ensures q.None? ==> end == |s| && o == w
    ensures q.Some? ==> end < |s| && (s[end] == '\t' || s[end] == '\n' || s[end] == '\r')
    ensures q.Some? ==> TabsFrom(s, csv, end + 1) == Some(rest) && o == w + [WrittenDelimiter(s, csv, end)] + rest
  {
    q, end, w, quote := FieldOf(s, csv, p);
    rest := if q.Some? then TabsFrom(s, csv, end + 1).value else "";
  }

  /** The last field, written as w, is a layout of its own. */
  lemma LastLaid(s: string, csv: CsvSettings, p: nat, w: string, quote: char) returns (fields: seq<(nat, nat, char)>)
    requires p <= |s| && FieldLaid(s, csv, p, |s|, w, quote)
    ensures Laid(s, csv, p, w, fields)
  {
    assert w[..|w|] == w;
    fields := [(|s|, |w|, quote)];
  }

  /** The first field of a text laid out from start in t, and the rest laid out after it. */
  lemma LaidAt(s: string, csv: CsvSettings, p: nat, t: string, start: nat, fields: seq<(nat, nat, char)>)
      returns (end: nat, w: string, quote: char, e: nat)
    requires start <= |t| && Laid(s, csv, p, t[start..], fields)
    ensures end == fields[0].0 && p <= end <= |s| && e == start + |w| && e <= |t| && t[start..e] == w
    ensures FieldLaid(s, csv, p, end, w, quote)
    ensures |fields| == 1 ==> end == |s| && t[start..] == w
    ensures |fields| > 1 ==> end < |s| && (s[end] == '\t' || s[end] == '\n' || s[end] == '\r') && e < |t|
    ensures |fields| > 1 ==> t[e] == WrittenDelimiter(s, csv, end) && Laid(s, csv, end + 1, t[e + 1..], fields[1..])
  {
    var o := t[start..];
    var k;
    end, k, quote := LaidFirst(s, csv, p, o, fields);
    w, e := SuffixParts(t, start, o, k);
  }

  /** The first entry of fields, for o laid out field by field. */
  lemma LaidFirst(s: string, csv: CsvSettings, p: nat, o: string, fields: seq<(nat, nat, char)>)
      returns (end: nat, k: nat, quote: char)
    requires Laid(s, csv, p, o, fields)
    ensures (end, k, quote) == fields[0] && p <= end <= |s| && k <= |o|
    ensures FieldLaid(s, csv, p, end, o[..k], quote)
    ensures |fields| == 1 ==> end == |s| && k == |o|
    ensures |fields| > 1 ==> end < |s| && (s[end] == '\t' || s[end] == '\n' || s[end] == '\r') && k < |o|
    ensures |fields| > 1 ==> o[k] == WrittenDelimiter(s, csv, end) && Laid(s, csv, end + 1, o[k + 1..], fields[1..])
  {
    end, k, quote := fields[0].0, fields[0].1, fields[0].2;
  }

  /** The rest o of t from start, split at k. */
  lemma SuffixParts(t: string, start: nat, o: string, k: nat) returns (w: string, e: nat)
    requires start <= |t| && t[start..] == o && k <= |o|
    ensures w == o[..k] && |w| == k && e == start + |w| && e <= |t| && t[start..e] == w && (k == |o| ==> t[start..] == w)
    ensures k < |o| ==> t[e] == o[k] && t[e + 1..] == o[k + 1..]
  {
    w := o[..k];
    e := start + k;
    assert t[start..start + k] == t[start..][..k];
    if k < |o| {
      assert t[start + k] == t[start..][k];
      assert t[start + k + 1..] == t[start..][k + 1..];
    }
  }

  /** A field laid out in t: the part of s it writes, from from to end, its written width and its quote. */
  datatype Piece = Piece(from: nat, end: nat, width: nat, quote: char)

  /**
   * The field laid out at a, a key of m: written as t from a for its width,
   * then either the end of s and of t, or the written delimiter, with the
   * next field laid out right after it.
   */
  predicate PieceLaid(s: string, csv: CsvSettings, t: string, m: map<nat, Piece>, a: nat)
    requires a in m
  {
    var pc := m[a];
    pc.from <= pc.end <= |s| && a + pc.width <= |t| &&
    FieldLaid(s, csv, pc.from, pc.end, t[a..a + pc.width], pc.quote) &&
    if pc.end == |s| then a + pc.width == |t|
    else
      (s[pc.end] == '\t' || s[pc.end] == '\n' || s[pc.end] == '\r') && a + pc.width < |t| &&
      t[a + pc.width] == WrittenDelimiter(s, csv, pc.end) &&
      a + pc.width + 1 in m && m[a + pc.width + 1].from == pc.end + 1
  }

  /** Every key of m is where a field is laid out in t. */
  predicate MapLaid(s: string, csv: CsvSettings, t: string, m: map<nat, Piece>)
  {
    forall a {:trigger PieceLaid(s, csv, t, m, a)} :: a in m ==> PieceLaid(s, csv, t, m, a)
  }

  /** A key other than start stays laid out once start is added. */
  lemma PieceLaidAdded(s: string, csv: CsvSettings, t: string, m: map<nat, Piece>, start: nat, pc: Piece, a: nat)
    requires a in m && a != start && PieceLaid(s, csv, t, m, a)
    requires m[a].end < |s| ==> a + m[a].width + 1 != start
    ensures PieceLaid(s, csv, t, m[start := pc], a)
  {
  }

  /** Adding, before every key, a position where a field is laid out keeps the map laid out. */
  lemma MapLaidAdded(s: string, csv: CsvSettings, t: string, m: map<nat, Piece>, start: nat, pc: Piece)
    requires MapLaid(s, csv, t, m) && (forall a :: a in m ==> start < a)
    requires PieceLaid(s, csv, t, m[start := pc], start)
    ensures MapLaid(s, csv, t, m[start := pc])
  {
    forall a | a == start || a in m
      ensures PieceLaid(s, csv, t, m[start := pc], a)
    {
      if a != start {
        PieceLaidAdded(s, csv, t, m, start, pc, a);
      }
    }
  }

  /** The map of the last field of the text, laid out at start. */
  lemma LastField(s: string, csv: CsvSettings, t: string, start: nat, p: nat, w: string, quote: char)
      returns (m: map<nat, Piece>)
    requires p <= |s| && start <= |t| && t[start..] == w && FieldLaid(s, csv, p, |s|, w, quote)
    ensures m == map[start := Piece(p, |s|, |w|, quote)]
    ensures start in m && m[start].from == p && (forall a :: a in m ==> start <= a)
    ensures MapLaid(s, csv, t, m)
  {
    m := map[start := Piece(p, |s|, |w|, quote)];
    assert t[start..start + |w|] == w;
    assert PieceLaid(s, csv, t, m, start);
  }

  /** The map of the rest of the text, with the field laid out at start added in front of it. */
  lemma FieldAdded(s: string, csv: CsvSettings, t: string, rest: map<nat, Piece>, start: nat,
                   p: nat, end: nat, w: string, quote: char, e: nat) returns (m: map<nat, Piece>)
    requires p <= end < |s| && e == start + |w| && e < |t| && t[start..e] == w
    requires FieldLaid(s, csv, p, end, w, quote)
    requires (s[end] == '\t' || s[end] == '\n' || s[end] == '\r') && t[e] == WrittenDelimiter(s, csv, end)
    requires e + 1 in rest && rest[e + 1].from == end + 1
    requires (forall a :: a in rest ==> e + 1 <= a) && MapLaid(s, csv, t, rest)
    ensures m == rest[start := Piece(p, end, |w|, quote)]
    ensures start in m && m[start].from == p && (forall a :: a in m ==> start <= a)
    ensures MapLaid(s, csv, t, m)
  {
    m := rest[start := Piece(p, end, |w|, quote)];
    assert PieceLaid(s, csv, t, m, start);
    MapLaidAdded(s, csv, t, rest, start, Piece(p, end, |w|, quote));
  }

  /** A text laid out from start, field by field, as a map from where each field is written to its piece. */
  lemma {:induction false} LaidToMap(s: string, csv: CsvSettings, p: nat, t: string, start: nat,
                                     fields: seq<(nat, nat, char)>) returns (m: map<nat, Piece>)
    requires start <= |t| && Laid(s, csv, p, t[start..], fields)
    decreases |fields|
    ensures start in m && m[start].from == p && (forall a :: a in m ==> start <= a)
    ensures MapLaid(s, csv, t, m)
  {
    var end, w, quote, e := LaidAt(s, csv, p, t, start, fields);
    if |fields| == 1 {
      m := LastField(s, csv, t, start, p, w, quote);
    } else {
      var rest := LaidToMap(s, csv, end + 1, t, e + 1, fields[1..]);
      m := FieldAdded(s, csv, t, rest, start, p, end, w, quote, e);
    }
  }

  /**
   * What the reader makes of t at a, a key of m: the end of t where s is
   * exhausted, else a field f that is the part of s from m[a].from up to
   * where the next field starts, itself a key of m, or all the rest of s.
   */
  predicate ReadsAt(t: string, s: string, m: map<nat, Piece>, a: nat, f: (string, Option<nat>))
    requires a in m
  {
    a <= |t| && m[a].from <= |s| &&
    if a == |t| then m[a].from == |s|
    else
      match f.1
      case None => f.0 == s[m[a].from..]
      case Some(next) => next in m && m[a].from <= m[next].from <= |s| && f.0 == s[m[a].from..m[next].from]
  }

  /** Every key of m, up to the end of t, is a position where the field read is the matching part of s. */
  predicate ReadsBack(t: string, csv: CsvSettings, subs: Subs, s: string, m: map<nat, Piece>)
  {
    forall a {:trigger ReadsAt(t, s, m, a, FieldFrom(t, csv, subs, a))} :: a in m && a <= |t| ==> ReadsAt(t, s, m, a, FieldFrom(t, csv, subs, a))
  }

  /** An inner field read as the part of s up to where the next key's piece starts. */
  lemma ReadsAtInner(t: string, s: string, m: map<nat, Piece>, a: nat, f: (string, Option<nat>),
                     from: nat, end: nat, next: nat)
    requires a in m && a < |t| && m[a].from == from && from <= end < |s|
    requires f.0 == s[from..end + 1] && f.1 == Some(next) && next in m && m[next].from == end + 1
    ensures ReadsAt(t, s, m, a, f)
  {
  }

  /** The last field read as all the rest of s, or the end of t where s is exhausted. */
  lemma ReadsAtLast(t: string, s: string, m: map<nat, Piece>, a: nat, f: (string, Option<nat>))
    requires a in m && a <= |t| && m[a].from <= |s|
    requires a == |t| ==> m[a].from == |s|
    requires a < |t| ==> f.0 == s[m[a].from..] && f.1 == None
    ensures ReadsAt(t, s, m, a, f)
  {
  }

  /** The field laid out at a key reads back as its piece of s. */
  lemma PieceReads(s: string, csv: CsvSettings, subs: Subs, t: string, m: map<nat, Piece>, a: nat)
    requires Reversible(csv) && a in m && PieceLaid(s, csv, t, m, a)
    ensures a <= |t| && ReadsAt(t, s, m, a, FieldFrom(t, csv, subs, a))
  {
    var pc := m[a];
    if pc.end == |s| {
      LastPieceReads(s, csv, subs, t, m, a, pc);
    } else {
      InnerPieceReads(s, csv, subs, t, m, a, pc);
    }
  }

  /** The piece pc laid out at a reads as all the rest of s. */
  lemma LastPieceReads(s: string, csv: CsvSettings, subs: Subs, t: string, m: map<nat, Piece>,
                       a: nat, pc: Piece)
    requires Reversible(csv) && a in m && m[a] == pc && pc.end == |s| && PieceLaid(s, csv, t, m, a)
    ensures a <= |t| && ReadsAt(t, s, m, a, FieldFrom(t, csv, subs, a))
  {
    var w := t[a..a + pc.width];
    assert t[a..] == w;
    LastFieldReads(s, csv, subs, pc.from, w, pc.quote, t, a);
    ReadsAtLast(t, s, m, a, FieldFrom(t, csv, subs, a));
  }

  /** The piece pc laid out at a reads as the part of s up to where the next piece starts. */
  lemma InnerPieceReads(s: string, csv: CsvSettings, subs: Subs, t: string, m: map<nat, Piece>,
                        a: nat, pc: Piece)
    requires Reversible(csv) && a in m && m[a] == pc && pc.end < |s| && PieceLaid(s, csv, t, m, a)
    ensures a <= |t| && ReadsAt(t, s, m, a, FieldFrom(t, csv, subs, a))
  {
    var w, e := InnerPieceText(s, csv, t, m, a, pc);
    InnerFieldReads(s, csv, subs, pc.from, pc.end, w, pc.quote, t, a, e);
    InnerPieceAt(s, csv, t, m, a, pc, e, FieldFrom(t, csv, subs, a));
  }

  /** What the inner piece pc laid out at a says about the text w it writes and the delimiter after it. */
  lemma InnerPieceText(s: string, csv: CsvSettings, t: string, m: map<nat, Piece>, a: nat, pc: Piece)
      returns (w: string, e: nat)
    requires a in m && m[a] == pc && pc.end < |s| && PieceLaid(s, csv, t, m, a)
    ensures pc.from <= pc.end && e == a + |w| && e == a + pc.width && e < |t| && t[a..e] == w
    ensures FieldLaid(s, csv, pc.from, pc.end, w, pc.quote)
    ensures s[pc.end] == '\t' || s[pc.end] == '\n' || s[pc.end] == '\r'
    ensures t[e] == WrittenDelimiter(s, csv, pc.end)
  {
    w := t[a..a + pc.width];
    e := a + pc.width;
  }

  /** A field f read at a as the part of s that the inner piece pc laid out at a writes, with its delimiter. */
  lemma InnerPieceAt(s: string, csv: CsvSettings, t: string, m: map<nat, Piece>, a: nat, pc: Piece,
                     e: nat, f: (string, Option<nat>))
    requires a in m && m[a] == pc && pc.end < |s| && PieceLaid(s, csv, t, m, a) && e == a + pc.width
    requires f.0 == s[pc.from..pc.end + 1] && f.1 == Some(e + 1)
    ensures a <= |t| && ReadsAt(t, s, m, a, f)
  {
    ReadsAtInner(t, s, m, a, f, pc.from, pc.end, e + 1);
  }

  /** A laid-out map reads back. */
  lemma MapLaidReads(s: string, csv: CsvSettings, subs: Subs, t: string, m: map<nat, Piece>)
    requires Reversible(csv) && MapLaid(s, csv, t, m)
    ensures ReadsBack(t, csv, subs, s, m)
  {
    forall a | a in m && a <= |t|
      ensures ReadsAt(t, s, m, a, FieldFrom(t, csv, subs, a))
    {
      PieceReads(s, csv, subs, t, m, a);
    }
  }

  /** Reading t from a key of such a map gives the rest of s from the matching position. */
  lemma {:induction false} MapReads(t: string, csv: CsvSettings, subs: Subs, s: string,
                                    m: map<nat, Piece>, a: nat)
    requires ReadsBack(t, csv, subs, s, m) && a in m && a <= |t|
    decreases |t| - a
    ensures m[a].from <= |s| && ToTabs(t, csv, subs, a) == s[m[a].from..]
  {
    var f := FieldFrom(t, csv, subs, a);
    assert ReadsAt(t, s, m, a, f);
    if a < |t| && f.1.Some? {
      var next := f.1.value;
      MapReads(t, csv, subs, s, m, next);
      ThenRest(s, m[a].from, m[next].from, f.0, ToTabs(t, csv, subs, next));
    }
  }

  /** The part of s from i to j before the rest of s from j is the rest of s from i. */
  lemma ThenRest(s: string, i: nat, j: nat, x: string, y: string)
    requires i <= j <= |s| && x == s[i..j] && y == s[j..]
    ensures x + y == s[i..]
  {
    assert s[i..] == s[i..j] + s[j..];
  }

  /**
   * The round trip: under Reversible settings, separatedValuesToTabs on
   * the output of tabsToSeparatedValues gives back the tab-separated text.
   */
  lemma TextRoundTrip(s: string, csv: CsvSettings, subs: Subs)
    ensures Reversible(csv) ==> TabsFrom(s, csv, 0).Some?
    ensures Reversible(csv) ==> ToTabs(TabsFrom(s, csv, 0).value, csv, subs, 0) == s
  {
    if Reversible(csv) {
      TabsWritten(s, csv, 0);
      var t := TabsFrom(s, csv, 0).value;
      assert t[0..] == t;
      var fields := TabsLaid(s, csv, 0, t);
      var m := LaidToMap(s, csv, 0, t, 0, fields);
      MapLaidReads(s, csv, subs, t, m);
      MapReads(t, csv, subs, s, m, 0);
      assert s[0..] == s;
    }
  }
}
