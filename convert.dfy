// Conversion between tab-separated and character-separated values
// (Convert.cpp): whether a field may be written without quotes, quoting and
// escaping a field, the backslash (TNR) and percent (URL) decodings applied to
// a tab-separated field, and reading separated values back into tabs.
//
// fromWide and toWide are the identity here: text is a sequence of wide
// characters throughout, and the code-page bytes of the URL encode character,
// which the source obtains from fromWide, are a parameter.
module Convert {
  import opened Common

  datatype EncodingStyle = Replace | TNR | URL

  /** The options of the conversion dialog (class CsvSettings). */
  datatype CsvSettings = CsvSettings(
    replaceTab: string, replaceLF: string, replaceCR: string,
    separator: char, escapeChar: char, encodeTNR: char, encodeURL: char,
    quote: bool, apostrophe: bool, escape: bool, preserveQuotes: bool,
    encodingStyle: EncodingStyle)

  /** The member initialisers of CsvSettings. */
  const DefaultSettings := CsvSettings("(TAB)", "(LF)", "(CR)", ',', '\\', '\\', '%',
                                       true, false, false, false, Replace)

  /** A character that opens a quoted field under these settings. */
  predicate IsQuote(c: char, csv: CsvSettings)
  {
    (c == '"' && csv.quote) || (c == '\'' && csv.apostrophe)
  }

  // ---------------------------------------------------------------------
  // Searching
  // ---------------------------------------------------------------------

  /** First position at or after from holding a character of stop (find_first_of). */
  function FindAny(s: string, stop: string, from: nat): (r: Option<nat>)
    decreases |s| - from
    ensures r.Some? ==> from <= r.value < |s| && s[r.value] in stop
  {
    if from >= |s| then None
    else if s[from] in stop then Some(from)
    else FindAny(s, stop, from + 1)
  }

  /** FindAny finds the first such position, and None means there is none. */
  lemma {:induction false} FindAnyMeaning(s: string, stop: string, from: nat)
    decreases |s| - from
    ensures FindAny(s, stop, from).Some? ==>
              forall k :: from <= k < FindAny(s, stop, from).value ==> s[k] !in stop
    ensures FindAny(s, stop, from).None? ==> forall k :: from <= k < |s| ==> s[k] !in stop
  {
    if from < |s| && s[from] !in stop {
      FindAnyMeaning(s, stop, from + 1);
    }
  }

  /** First non-blank position at or after from (find_first_not_of(' ')). */
  function FindNonBlank(s: string, from: nat): (r: Option<nat>)
    decreases |s| - from
    ensures r.Some? ==> from <= r.value < |s| && s[r.value] != ' '
  {
    if from >= |s| then None
    else if s[from] != ' ' then Some(from)
    else FindNonBlank(s, from + 1)
  }

  /** The last non-blank position below upTo, given one at p (find_last_not_of(' ')). */
  function LastNonBlank(s: string, p: nat, upTo: nat): (q: nat)
    requires p < upTo <= |s| && s[p] != ' '
    decreases upTo
    ensures p <= q < upTo && s[q] != ' '
  {
    if s[upTo - 1] != ' ' then upTo - 1 else LastNonBlank(s, p, upTo - 1)
  }

  /** Nothing after LastNonBlank, up to upTo, is anything but a blank. */
  lemma {:induction false} LastNonBlankMeaning(s: string, p: nat, upTo: nat)
    requires p < upTo <= |s| && s[p] != ' '
    decreases upTo
    ensures forall k :: LastNonBlank(s, p, upTo) < k < upTo ==> s[k] == ' '
  {
    if s[upTo - 1] == ' ' {
      LastNonBlankMeaning(s, p, upTo - 1);
    }
  }

  // ---------------------------------------------------------------------
  // isValidField (Convert.cpp:384-407)
  // ---------------------------------------------------------------------

  /** The characters that must be paired inside a field quoted with quote. */
  function QuotedStop(quote: char, csv: CsvSettings): (stop: string)
    ensures quote in stop
  {
    if csv.escape then [quote, csv.escapeChar] else [quote]
  }

  /**
   * A well-formed inside of a quoted field: every character of stop is
   * followed by a partner, and a quote only by a second quote.
   */
  predicate QuotedBody(b: string, quote: char, stop: string)
    decreases |b|
  {
    if b == [] then true
    else if b[0] !in stop then QuotedBody(b[1..], quote, stop)
    else |b| >= 2 && (b[0] != quote || b[1] == quote) && QuotedBody(b[2..], quote, stop)
  }

  /** The characters an unquoted field may hold only after the escape character. */
  function UnquotedStop(csv: CsvSettings, strict: bool): (stop: string)
    ensures csv.separator in stop && '\r' in stop && '\n' in stop
  {
    "\r\n" + [csv.separator]
      + (if strict && csv.quote then "\"" else "")
      + (if strict && csv.apostrophe then "'" else "")
      + (if csv.escape then [csv.escapeChar] else "")
  }

  /**
   * The unquoted-field scan from position i: every character of stop met is
   * the escape character with a character after it, which it covers.  When
   * head holds, i is where the scan resumes, and it ends there once i reaches
   * end; the search for the next character of stop runs to the end of s.
   */
  predicate EscapedFrom(s: string, i: nat, end: nat, stop: string, esc: char, head: bool)
    requires i <= |s|
    decreases |s| - i, if head then 1 else 0
  {
    if head then i >= end || EscapedFrom(s, i, end, stop, esc, false)
    else if i == |s| then true
    else if s[i] !in stop then EscapedFrom(s, i + 1, end, stop, esc, false)
    else s[i] == esc && i + 1 < |s| && EscapedFrom(s, i + 2, end, stop, esc, true)
  }

  /**
   * isValidField as written: the unquoted scan starts one past the first
   * non-blank character, so that character is never checked, and it stops
   * once it resumes at or past the last non-blank character, so that one
   * is checked only when a search from an earlier position reaches it.
   * When the non-blank part has one or two characters the scan does not
   * run at all, and fields such as "," and "a," pass unchecked (see the
   * findings).
   */
  function ValidFieldAsWritten(s: string, csv: CsvSettings, strict: bool): bool
  {
    match FindNonBlank(s, 0)
    case None => true
    case Some(p) =>
      var q := LastNonBlank(s, p, |s|);
      if IsQuote(s[p], csv) then
        p < q && s[p] == s[q] && QuotedBody(s[p + 1..q], s[p], QuotedStop(s[p], csv))
      else EscapedFrom(s, p + 1, q, UnquotedStop(csv, strict), csv.escapeChar, true)
  }

  /**
   * Whether a field can be written as it is: all blank; or quoted, with the
   * same quote at both ends and a well-formed inside; or unquoted, with
   * every separator, line end, escape character and (when strict) enabled
   * quote from the first to the last non-blank character escaped.
   */
  function ValidField(s: string, csv: CsvSettings, strict: bool): bool
  {
    match FindNonBlank(s, 0)
    case None => true
    case Some(p) =>
      var q := LastNonBlank(s, p, |s|);
      if IsQuote(s[p], csv) then
        p < q && s[p] == s[q] && QuotedBody(s[p + 1..q], s[p], QuotedStop(s[p], csv))
      else EscapedFrom(s, p, q + 1, UnquotedStop(csv, strict), csv.escapeChar, true)
  }

  /**
   * ",ab" under the default settings: as written it passes as a plain field
   * although it begins with an unescaped separator, so it would be read
   * back as two fields; the corrected test rejects it.
   */
  lemma ValidFieldAsWrittenExample()
    ensures ValidFieldAsWritten(",ab", DefaultSettings, false)
    ensures !ValidField(",ab", DefaultSettings, false)
  {
    var s := ",ab";
    var csv := DefaultSettings;
    var stop := UnquotedStop(csv, false);
    assert stop == "\r\n,";
    assert FindNonBlank(s, 0) == Some(0);
    assert LastNonBlank(s, 0, 3) == 2;
    assert EscapedFrom(s, 3, 2, stop, csv.escapeChar, false);
    assert EscapedFrom(s, 2, 2, stop, csv.escapeChar, false);
    assert EscapedFrom(s, 1, 2, stop, csv.escapeChar, false);
    assert !EscapedFrom(s, 0, 3, stop, csv.escapeChar, false);
  }

  /**
   * "," and "a," under the default settings: the non-blank part is one or
   * two characters long, so as written the scan does not run and both pass
   * as plain fields; the corrected test rejects both.
   */
  lemma ShortFieldsAsWrittenExample()
    ensures ValidFieldAsWritten(",", DefaultSettings, false)
    ensures !ValidField(",", DefaultSettings, false)
    ensures ValidFieldAsWritten("a,", DefaultSettings, false)
    ensures !ValidField("a,", DefaultSettings, false)
  {
    var csv := DefaultSettings;
    var stop := UnquotedStop(csv, false);
    assert stop == "\r\n,";
    assert FindNonBlank(",", 0) == Some(0);
    assert LastNonBlank(",", 0, 1) == 0;
    assert !EscapedFrom(",", 0, 1, stop, csv.escapeChar, false);
    assert FindNonBlank("a,", 0) == Some(0);
    assert LastNonBlank("a,", 0, 2) == 1;
    assert !EscapedFrom("a,", 1, 2, stop, csv.escapeChar, false);
    assert !EscapedFrom("a,", 0, 2, stop, csv.escapeChar, false);
  }

  /**
   * The corrected test checks the first non-blank character too: a field
   * that starts with an unescaped separator, CR, LF or (when strict) quote
   * is never valid unquoted.
   */
  lemma ValidFieldChecksFirst(s: string, csv: CsvSettings, strict: bool, p: nat)
    requires FindNonBlank(s, 0) == Some(p) && !IsQuote(s[p], csv)
    requires s[p] in UnquotedStop(csv, strict) && s[p] != csv.escapeChar
    ensures !ValidField(s, csv, strict)
  {
    var q := LastNonBlank(s, p, |s|);
    assert !EscapedFrom(s, p, q + 1, UnquotedStop(csv, strict), csv.escapeChar, false);
  }

  /** Jumping to the next character of stop skips only unpaired characters of a quoted body. */
  lemma {:induction false} QuotedJump(s: string, stop: string, quote: char, i: nat, q: nat)
    requires i <= q < |s| && s[q] in stop
    decreases q - i
    ensures FindAny(s, stop, i).Some? && FindAny(s, stop, i).value <= q
    ensures QuotedBody(s[i..q], quote, stop) == QuotedBody(s[FindAny(s, stop, i).value..q], quote, stop)
  {
    if s[i] !in stop {
      assert s[i..q][1..] == s[i + 1..q];
      QuotedJump(s, stop, quote, i + 1, q);
    }
  }

  /** Jumping to the next character of stop skips only characters the unquoted scan passes over. */
  lemma {:induction false} UnquotedJump(s: string, stop: string, esc: char, i: nat, end: nat)
    requires i <= |s|
    decreases |s| - i
    ensures FindAny(s, stop, i).None? ==> EscapedFrom(s, i, end, stop, esc, false)
    ensures FindAny(s, stop, i).Some? ==>
              var j := FindAny(s, stop, i).value;
              EscapedFrom(s, i, end, stop, esc, false) ==
              (s[j] == esc && j + 1 < |s| && EscapedFrom(s, j + 2, end, stop, esc, true))
  {
    if i < |s| && s[i] !in stop {
      UnquotedJump(s, stop, esc, i + 1, end);
    }
  }

  /** The loop of isValidField over a quoted field whose quotes are at p and q. */
  method ScanQuoted(s: string, p: nat, q: nat, stop: string) returns (ok: bool)
    requires p < q < |s| && s[q] in stop && s[p] == s[q]
    ensures ok == QuotedBody(s[p + 1..q], s[p], stop)
  {
    var i := p + 1;
    var next := FindAny(s, stop, i);
    while next.Some? && next.value < q
      invariant p + 1 <= i <= q
      invariant next == FindAny(s, stop, i)
      invariant QuotedBody(s[i..q], s[p], stop) == QuotedBody(s[p + 1..q], s[p], stop)
      decreases q - i
    {
      var j := next.value;
      QuotedJump(s, stop, s[p], i, q);
      if j == q - 1 || (s[j] == s[p] && s[j + 1] != s[p]) {
        return false;
      }
      assert s[j..q][2..] == s[j + 2..q];
      i := j + 2;
      next := FindAny(s, stop, i);
    }
    QuotedJump(s, stop, s[p], i, q);
    return true;
  }

  /** The loop of isValidField over an unquoted field, from p up to end. */
  method ScanUnquoted(s: string, p: nat, end: nat, stop: string, esc: char) returns (ok: bool)
    requires p <= |s|
    ensures ok == EscapedFrom(s, p, end, stop, esc, true)
  {
    var i := p;
    while i < end
      invariant p <= i <= |s|
      invariant EscapedFrom(s, i, end, stop, esc, true) == EscapedFrom(s, p, end, stop, esc, true)
      decreases |s| - i
    {
      var j := FindAny(s, stop, i);
      UnquotedJump(s, stop, esc, i, end);
      if j.None? {
        return true;
      }
      if s[j.value] != esc || j.value == |s| - 1 {
        return false;
      }
      i := j.value + 2;
    }
    return true;
  }

  /** isValidField, with the unquoted scan covering the first and last non-blank characters. */
  method IsValidField(s: string, csv: CsvSettings, strict: bool) returns (valid: bool)
    ensures valid == ValidField(s, csv, strict)
  {
    var first := FindNonBlank(s, 0);
    if first.None? {
      return true;
    }
    var p := first.value;
    var q := LastNonBlank(s, p, |s|);
    if IsQuote(s[p], csv) {
      if p == q || s[p] != s[q] {
        return false;
      }
      valid := ScanQuoted(s, p, q, QuotedStop(s[p], csv));
    } else {
      valid := ScanUnquoted(s, p, q + 1, UnquotedStop(csv, strict), csv.escapeChar);
    }
  }

  // ---------------------------------------------------------------------
  // Quoting a field (Convert.cpp:453-465)
  // ---------------------------------------------------------------------

  /** The quote a field is wrapped in: the enabled one, or with both enabled the one it holds fewer of. */
  function ChooseQuote(field: string, csv: CsvSettings): (quote: char)
    requires csv.quote || csv.apostrophe
    ensures IsQuote(quote, csv)
    ensures csv.quote && csv.apostrophe ==>
              multiset(field)[quote] <= multiset(field)[if quote == '"' then '\'' else '"']
    ensures csv.quote && multiset(field)['"'] <= multiset(field)['\''] ==> quote == '"'
  {
    if !csv.quote then '\''
    else if !csv.apostrophe then '"'
    else if multiset(field)['"'] > multiset(field)['\''] then '\'' else '"'
  }

  /** One character of a field inside quotes: a quote, or an enabled escape character, is doubled. */
  function DoubledChar(c: char, quote: char, csv: CsvSettings): (r: string)
    ensures 1 <= |r| <= 2 && r[0] == c && (|r| == 2 ==> r[1] == c)
  {
    if c == quote || (c == csv.escapeChar && csv.escape) then [c, c] else [c]
  }

  /** The inside of the quoted field: each character doubled where it must be. */
  function Doubled(field: string, quote: char, csv: CsvSettings): string
  {
    if field == [] then ""
    else Doubled(field[..|field| - 1], quote, csv) + DoubledChar(field[|field| - 1], quote, csv)
  }

  /** The quoted form of a field. */
  function Quoted(field: string, quote: char, csv: CsvSettings): string
  {
    [quote] + Doubled(field, quote, csv) + [quote]
  }

  /** The quoting loop of tabsToSeparatedValues. */
  method QuoteField(field: string, quote: char, csv: CsvSettings) returns (r: string)
    ensures r == Quoted(field, quote, csv)
  {
    var w := "";
    for i := 0 to |field|
      invariant w == Doubled(field[..i], quote, csv)
    {
      assert field[..i + 1][..i] == field[..i];
      if field[i] == quote || (field[i] == csv.escapeChar && csv.escape) {
        w := w + [field[i]];
      }
      w := w + [field[i]];
    }
    assert field[..|field|] == field;
    r := [quote] + w + [quote];
  }

  /** The quoted form grows by one character per quote and per enabled escape character. */
  lemma {:induction false} DoubledLength(field: string, quote: char, csv: CsvSettings)
    ensures |Doubled(field, quote, csv)| ==
            |field| + multiset(field)[quote]
                    + (if csv.escape && csv.escapeChar != quote then multiset(field)[csv.escapeChar] else 0)
  {
    if field != [] {
      var init := field[..|field| - 1];
      DoubledLength(init, quote, csv);
      assert field == init + [field[|field| - 1]];
      assert multiset(field) == multiset(init) + multiset{field[|field| - 1]};
    }
  }

  /** Well-formed quoted bodies concatenate. */
  lemma {:induction false} QuotedBodyConcat(a: string, b: string, quote: char, stop: string)
    requires QuotedBody(a, quote, stop) && QuotedBody(b, quote, stop)
    decreases |a|
    ensures QuotedBody(a + b, quote, stop)
  {
    if a != [] {
      var ab := a + b;
      assert ab[0] == a[0];
      if a[0] !in stop {
        assert ab[1..] == a[1..] + b;
        QuotedBodyConcat(a[1..], b, quote, stop);
        assert QuotedBody(ab[1..], quote, stop);
      } else {
        assert |a| >= 2 && ab[1] == a[1];
        assert ab[2..] == a[2..] + b;
        QuotedBodyConcat(a[2..], b, quote, stop);
        assert QuotedBody(ab[2..], quote, stop);
      }
    } else {
      assert a + b == b;
    }
  }

  /** The doubled inside of a field is a well-formed quoted body. */
  lemma {:induction false} DoubledIsBody(field: string, quote: char, csv: CsvSettings)
    ensures QuotedBody(Doubled(field, quote, csv), quote, QuotedStop(quote, csv))
  {
    if field != [] {
      var c := field[|field| - 1];
      var stop := QuotedStop(quote, csv);
      DoubledIsBody(field[..|field| - 1], quote, csv);
      if c == quote || (c == csv.escapeChar && csv.escape) {
        assert QuotedBody([c, c][2..], quote, stop);
      } else {
        assert QuotedBody([c][1..], quote, stop);
      }
      QuotedBodyConcat(Doubled(field[..|field| - 1], quote, csv), DoubledChar(c, quote, csv), quote, stop);
    }
  }

  /** A field quoted with an enabled quote is a valid field, strict or not. */
  lemma QuotedIsValid(field: string, quote: char, csv: CsvSettings, strict: bool)
    requires IsQuote(quote, csv)
    ensures ValidField(Quoted(field, quote, csv), csv, strict)
  {
    var w := Quoted(field, quote, csv);
    assert FindNonBlank(w, 0) == Some(0);
    assert LastNonBlank(w, 0, |w|) == |w| - 1;
    assert w[1..|w| - 1] == Doubled(field, quote, csv);
    DoubledIsBody(field, quote, csv);
  }

  // ---------------------------------------------------------------------
  // Decoding a tab-separated field (Convert.cpp:430-447)
  // ---------------------------------------------------------------------

  /** What the TNR decoding makes of the two characters at i, and how many it consumes. */
  function TnrToken(a: char, b: char, enc: char): (t: (string, nat))
    ensures |t.0| == 1 && (t.1 == 1 || t.1 == 2)
  {
    if a != enc then ([a], 1)
    else if b == 't' then ("\t", 2)
    else if b == 'n' then ("\n", 2)
    else if b == 'r' then ("\r", 2)
    else if b == enc then ([enc], 2)
    else ([enc], 1)
  }

  /** The TNR decoding: enc t, enc n and enc r become TAB, LF and CR, and a doubled enc one enc. */
  function TnrDecode(f: string, enc: char): string
    decreases |f|
  {
    if |f| < 2 then f
    else TnrToken(f[0], f[1], enc).0 + TnrDecode(f[TnrToken(f[0], f[1], enc).1..], enc)
  }

  /** The text before the next enc is left as it is. */
  lemma {:induction false} TnrSkip(r: string, enc: char, i: nat)
    requires FindAny(r, [enc], i).Some?
    decreases |r| - i
    ensures var k := FindAny(r, [enc], i).value;
            TnrDecode(r[i..], enc) == r[i..k] + TnrDecode(r[k..], enc)
  {
    var k := FindAny(r, [enc], i).value;
    if i < k {
      TnrSkip(r, enc, i + 1);
      TnrFirst(r, enc, i);
      SliceFirst(r, i, k);
      Associative([r[i]], r[i + 1..k], TnrDecode(r[k..], enc));
    }
  }

  /** A first character other than enc is left as it is. */
  lemma TnrFirst(r: string, enc: char, i: nat)
    requires i < |r| && r[i] != enc
    ensures TnrDecode(r[i..], enc) == [r[i]] + TnrDecode(r[i + 1..], enc)
  {
    assert r[i..][1..] == r[i + 1..];
    if i + 2 > |r| {
      assert r[i..] == [r[i]] + r[i + 1..];
    }
  }

  /** Text with no enc is left as it is. */
  lemma {:induction false} TnrNone(r: string, enc: char, i: nat)
    requires i <= |r| && FindAny(r, [enc], i).None?
    decreases |r| - i
    ensures TnrDecode(r[i..], enc) == r[i..]
  {
    if i + 2 <= |r| {
      TnrNone(r, enc, i + 1);
      SliceFirst(r, i, |r|);
      assert r[i..][1..] == r[i + 1..];
    }
  }

  /** Replacing the m characters at k by c. */
  lemma Splice(r: string, k: nat, c: string, m: nat)
    requires k + m <= |r| && |c| == 1
    ensures var e := r[..k] + c + r[k + m..];
            |e| == |r| - m + 1 && e[..k + 1] == r[..k] + c && e[k + 1..] == r[k + m..]
  {
  }

  /** Erasing the character at k, or leaving it, is replacing it by itself. */
  lemma SpliceSame(r: string, k: nat, m: nat)
    requires k + m <= |r| && 1 <= m <= 2 && r[k + m - 1] == r[k]
    ensures (if m == 2 then r[..k] + r[k + 1..] else r) == r[..k] + [r[k]] + r[k + m..]
  {
    if m == 2 {
      assert r[k + 1..] == [r[k + 1]] + r[k + 2..];
    } else {
      assert r[k..] == [r[k]] + r[k + 1..];
      assert r == r[..k] + r[k..];
    }
  }

  /** When no enc with a character after it is left, the rest is as it is. */
  lemma TnrRest(r: string, enc: char, i: nat)
    requires i <= |r|
    requires FindAny(r, [enc], i).None? || FindAny(r, [enc], i).value + 1 >= |r|
    ensures r[..i] + TnrDecode(r[i..], enc) == r
  {
    if FindAny(r, [enc], i).Some? {
      var k := FindAny(r, [enc], i).value;
      TnrSkip(r, enc, i);
      TnrShort(r[k..], enc);
      Rejoined(r, i, k);
    } else {
      TnrNone(r, enc, i);
      assert r[..i] + r[i..] == r;
    }
  }

  /** Text shorter than two characters is left as it is. */
  lemma TnrShort(f: string, enc: char)
    requires |f| < 2
    ensures TnrDecode(f, enc) == f
  {
  }

  /** One pass of the TNR loop, replacing the token at the enc in position k, keeps the decoded whole. */
  lemma TnrLoopStep(r: string, enc: char, i: nat, k: nat, e: string)
    requires FindAny(r, [enc], i) == Some(k) && k + 1 < |r|
    requires e == r[..k] + TnrToken(r[k], r[k + 1], enc).0 + r[k + TnrToken(r[k], r[k + 1], enc).1..]
    ensures k + 1 <= |e| && e[..k + 1] + TnrDecode(e[k + 1..], enc) == r[..i] + TnrDecode(r[i..], enc)
  {
    var t := TnrToken(r[k], r[k + 1], enc);
    TnrSkip(r, enc, i);
    TnrAt(r, enc, k);
    Splice(r, k, t.0, t.1);
    Regrouped(r, i, k, t.0, TnrDecode(r[k + t.1..], enc));
  }

  /** The decoding of the text from k on begins with the token at k. */
  lemma TnrAt(r: string, enc: char, k: nat)
    requires k + 1 < |r|
    ensures TnrDecode(r[k..], enc) == TnrToken(r[k], r[k + 1], enc).0 + TnrDecode(r[k + TnrToken(r[k], r[k + 1], enc).1..], enc)
  {
    var t := TnrToken(r[k], r[k + 1], enc);
    assert r[k..][0] == r[k] && r[k..][1] == r[k + 1] && r[k..][t.1..] == r[k + t.1..];
  }

  /** The text up to i, the skipped text up to k, then a token and the rest, regrouped. */
  lemma Regrouped(r: string, i: nat, k: nat, c: string, d: string)
    requires i <= k <= |r|
    ensures r[..k] + c + d == r[..i] + (r[i..k] + (c + d))
  {
    assert r[..k] == r[..i] + r[i..k];
  }

  /** The edit of the TNR loop at the enc in position k (the switch on the character after it). */
  method TnrEditAt(r: string, enc: char, k: nat) returns (e: string)
    requires k + 1 < |r| && r[k] == enc
    ensures e == r[..k] + TnrToken(r[k], r[k + 1], enc).0 + r[k + TnrToken(r[k], r[k + 1], enc).1..]
  {
    if r[k + 1] == 't' {
      e := r[..k] + "\t" + r[k + 2..];
    } else if r[k + 1] == 'n' {
      e := r[..k] + "\n" + r[k + 2..];
    } else if r[k + 1] == 'r' {
      e := r[..k] + "\r" + r[k + 2..];
    } else if r[k + 1] == enc {
      SpliceSame(r, k, 2);
      e := r[..k] + r[k + 1..];
    } else {
      SpliceSame(r, k, 1);
      e := r;
    }
  }

  /** The TNR loop of tabsToSeparatedValues, editing the field in place. */
  method DecodeTnr(field: string, enc: char) returns (r: string)
    ensures r == TnrDecode(field, enc)
  {
    r := field;
    var i: nat := 0;
    ghost var total := TnrDecode(field, enc);
    assert field[0..] == field;
    while true
      invariant i <= |r|
      invariant r[..i] + TnrDecode(r[i..], enc) == total
      decreases |r| - i
    {
      var found := FindAny(r, [enc], i);
      if found.None? || found.value + 1 >= |r| {
        TnrRest(r, enc, i);
        return;
      }
      var k := found.value;
      var e := TnrEditAt(r, enc, k);
      TnrLoopStep(r, enc, i, k, e);
      r, i := e, k + 1;
    }
  }

  /** The two-digit value after a URL encode character, as a character. */
  function HexPairChar(a: char, b: char): (c: char)
    ensures c as int == HexDigitValue(a) * 16 + HexDigitValue(b)
  {
    (HexDigitValue(a) * 16 + HexDigitValue(b)) as char
  }

  /** What the URL decoding makes of the three characters at i, and how many it consumes. */
  function UrlToken(a: char, b: char, c: char, enc: char): (t: (string, nat))
    ensures |t.0| == 1 && (t.1 == 1 || t.1 == 3)
  {
    if a == enc && IsHexDigit(b) && IsHexDigit(c) then ([HexPairChar(b, c)], 3)
    else ([a], 1)
  }

  /**
   * The URL decoding: enc followed by two hexadecimal digits (both at most
   * 'f', which isxdigit already implies) becomes the character of that value.
   * The source also looks at a field of length 1, where field.length() - 2
   * wraps around, reading its terminating null character, which is no digit:
   * such a field is left as it is, as here.
   */
  function UrlDecode(f: string, enc: char): string
    decreases |f|
  {
    if |f| < 3 then f
    else UrlToken(f[0], f[1], f[2], enc).0 + UrlDecode(f[UrlToken(f[0], f[1], f[2], enc).1..], enc)
  }

  /** The text before the next enc is left as it is. */
  lemma {:induction false} UrlSkip(r: string, enc: char, i: nat)
    requires FindAny(r, [enc], i).Some?
    decreases |r| - i
    ensures var k := FindAny(r, [enc], i).value;
            UrlDecode(r[i..], enc) == r[i..k] + UrlDecode(r[k..], enc)
  {
    var k := FindAny(r, [enc], i).value;
    if i < k {
      UrlSkip(r, enc, i + 1);
      UrlFirst(r, enc, i);
      SliceFirst(r, i, k);
      Associative([r[i]], r[i + 1..k], UrlDecode(r[k..], enc));
    }
  }

  /** A first character other than enc is left as it is. */
  lemma UrlFirst(r: string, enc: char, i: nat)
    requires i < |r| && r[i] != enc
    ensures UrlDecode(r[i..], enc) == [r[i]] + UrlDecode(r[i + 1..], enc)
  {
    assert r[i..][1..] == r[i + 1..];
    if i + 3 > |r| {
      assert r[i..] == [r[i]] + r[i + 1..];
    }
  }

  /** Text with no enc is left as it is. */
  lemma {:induction false} UrlNone(r: string, enc: char, i: nat)
    requires i <= |r| && FindAny(r, [enc], i).None?
    decreases |r| - i
    ensures UrlDecode(r[i..], enc) == r[i..]
  {
    if i + 3 <= |r| {
      UrlNone(r, enc, i + 1);
      SliceFirst(r, i, |r|);
      assert r[i..][1..] == r[i + 1..];
    }
  }

  /** When no enc with two characters after it is left, the rest is as it is. */
  lemma UrlRest(r: string, enc: char, i: nat)
    requires i <= |r|
    requires FindAny(r, [enc], i).None? || FindAny(r, [enc], i).value + 2 >= |r|
    ensures r[..i] + UrlDecode(r[i..], enc) == r
  {
    if FindAny(r, [enc], i).Some? {
      var k := FindAny(r, [enc], i).value;
      UrlSkip(r, enc, i);
      UrlShort(r[k..], enc);
      Rejoined(r, i, k);
    } else {
      UrlNone(r, enc, i);
      assert r[..i] + r[i..] == r;
    }
  }

  /** Text shorter than three characters is left as it is. */
  lemma UrlShort(f: string, enc: char)
    requires |f| < 3
    ensures UrlDecode(f, enc) == f
  {
  }

  /** The text up to i, from i up to k, and from k on, is the whole text. */
  lemma Rejoined(r: string, i: nat, k: nat)
    requires i <= k <= |r|
    ensures r[..i] + (r[i..k] + r[k..]) == r
  {
    assert r[..i] + r[i..k] == r[..k];
    assert r[..k] + r[k..] == r;
  }

  /** One pass of the URL loop, replacing the token at the enc in position k, keeps the decoded whole. */
  lemma UrlLoopStep(r: string, enc: char, i: nat, k: nat, e: string)
    requires FindAny(r, [enc], i) == Some(k) && k + 2 < |r|
    requires e == r[..k] + UrlToken(r[k], r[k + 1], r[k + 2], enc).0 + r[k + UrlToken(r[k], r[k + 1], r[k + 2], enc).1..]
    ensures k + 1 <= |e| && e[..k + 1] + UrlDecode(e[k + 1..], enc) == r[..i] + UrlDecode(r[i..], enc)
  {
    var t := UrlToken(r[k], r[k + 1], r[k + 2], enc);
    UrlSkip(r, enc, i);
    UrlAt(r, enc, k);
    Splice(r, k, t.0, t.1);
    Regrouped(r, i, k, t.0, UrlDecode(r[k + t.1..], enc));
  }

  /** The decoding of the text from k on begins with the token at k. */
  lemma UrlAt(r: string, enc: char, k: nat)
    requires k + 2 < |r|
    ensures UrlDecode(r[k..], enc) == UrlToken(r[k], r[k + 1], r[k + 2], enc).0 + UrlDecode(r[k + UrlToken(r[k], r[k + 1], r[k + 2], enc).1..], enc)
  {
    var t := UrlToken(r[k], r[k + 1], r[k + 2], enc);
    assert r[k..][0] == r[k] && r[k..][1] == r[k + 1] && r[k..][2] == r[k + 2] && r[k..][t.1..] == r[k + t.1..];
  }

  /** The edit of the URL loop at the enc in position k. */
  method UrlEditAt(r: string, enc: char, k: nat) returns (e: string)
    requires k + 2 < |r| && r[k] == enc
    ensures e == r[..k] + UrlToken(r[k], r[k + 1], r[k + 2], enc).0 + r[k + UrlToken(r[k], r[k + 1], r[k + 2], enc).1..]
  {
    if !IsHexDigit(r[k + 1]) || !IsHexDigit(r[k + 2]) {
      SpliceSame(r, k, 1);
      return r;
    }
    e := r[..k] + [HexPairChar(r[k + 1], r[k + 2])] + r[k + 3..];
  }

  /** The URL loop of tabsToSeparatedValues, editing the field in place. */
  method DecodeUrl(field: string, enc: char) returns (r: string)
    ensures r == UrlDecode(field, enc)
  {
    r := field;
    var i: nat := 0;
    ghost var total := UrlDecode(field, enc);
    assert field[0..] == field;
    while true
      invariant i <= |r|
      invariant r[..i] + UrlDecode(r[i..], enc) == total
      decreases |r| - i
    {
      var found := FindAny(r, [enc], i);
      if found.None? || found.value + 2 >= |r| {
        UrlRest(r, enc, i);
        return;
      }
      var k := found.value;
      var e := UrlEditAt(r, enc, k);
      UrlLoopStep(r, enc, i, k, e);
      r, i := e, k + 1;
    }
  }

  // ---------------------------------------------------------------------
  // The substitutions of separatedValuesToTabs (Convert.cpp:235-263)
  // ---------------------------------------------------------------------

  /** The upper-case hexadecimal digit of a value below 16. */
  function HexUpper(n: nat): (c: char)
    requires n < 16
    ensures IsHexDigit(c) && HexDigitValue(c) == n && !('a' <= c <= 'f')
  {
    if n < 10 then ('0' as int + n) as char else ('A' as int + n - 10) as char
  }

  /** enc followed by the two hexadecimal digits of each byte. */
  function UrlBytes(enc: char, bytes: seq<Byte>): (r: string)
    ensures |r| == 3 * |bytes|
  {
    if bytes == [] then ""
    else [enc, HexUpper(bytes[0] / 16), HexUpper(bytes[0] % 16)] + UrlBytes(enc, bytes[1..])
  }

  /** The encode character of the active style, or the null character when there is none. */
  function ActiveEncode(csv: CsvSettings): char
  {
    match csv.encodingStyle
    case TNR => csv.encodeTNR
    case URL => csv.encodeURL
    case Replace => 0 as char
  }

  /**
   * The characters every scan of the reader stops at (commonStop): TAB, LF,
   * CR, the escape character when escaping is enabled, and the encode
   * character of the active style unless it is the null character.
   */
  predicate CommonStop(c: char, csv: CsvSettings)
  {
    c == '\t' || c == '\n' || c == '\r' || (csv.escape && c == csv.escapeChar)
    || (ActiveEncode(csv) != 0 as char && c == ActiveEncode(csv))
  }

  /** A character a scan of the reader stops at, closer being the quote inside quotes and the separator outside. */
  predicate Stops(c: char, csv: CsvSettings, closer: char)
  {
    CommonStop(c, csv) || c == closer
  }

  /** First position at or after from holding a character the scan stops at (find_first_of). */
  function FindStop(s: string, csv: CsvSettings, closer: char, from: nat): (r: Option<nat>)
    decreases |s| - from
    ensures r.Some? ==> from <= r.value < |s| && Stops(s[r.value], csv, closer)
  {
    if from >= |s| then None
    else if Stops(s[from], csv, closer) then Some(from)
    else FindStop(s, csv, closer, from + 1)
  }

  /** What the reader writes for a TAB, LF, CR, encode, escape and separator character inside a field. */
  datatype Subs = Subs(tab: string, lf: string, cr: string, enc: string, esc: string, sep: string)

  /**
   * The substitution strings; encBytes are the code-page bytes of the URL
   * encode character (fromWide is not part of this model).
   */
  function Substitutions(csv: CsvSettings, encBytes: seq<Byte>): (subs: Subs)
    ensures csv.encodingStyle == Replace ==>
              subs == Subs(csv.replaceTab, csv.replaceLF, csv.replaceCR, "", [csv.escapeChar], [csv.separator])
    ensures csv.encodingStyle == TNR ==>
              subs.tab == [csv.encodeTNR, 't'] && subs.lf == [csv.encodeTNR, 'n'] && subs.cr == [csv.encodeTNR, 'r']
              && subs.enc == [csv.encodeTNR, csv.encodeTNR]
    ensures csv.encodingStyle == URL ==>
              subs.tab == [csv.encodeURL, '0', '9'] && subs.lf == [csv.encodeURL, '0', 'A']
              && subs.cr == [csv.encodeURL, '0', 'D'] && subs.enc == UrlBytes(csv.encodeURL, encBytes)
    ensures subs.esc == (if csv.encodingStyle != Replace && ActiveEncode(csv) == csv.escapeChar
                         then subs.enc else [csv.escapeChar])
    ensures subs.sep == (if csv.encodingStyle != Replace && ActiveEncode(csv) == csv.separator
                         then subs.enc else [csv.separator])
  {
    var enc := match csv.encodingStyle
               case TNR => [csv.encodeTNR, csv.encodeTNR]
               case URL => UrlBytes(csv.encodeURL, encBytes)
               case Replace => "";
    var shared := csv.encodingStyle != Replace;
    match csv.encodingStyle
    case TNR =>
      Subs([csv.encodeTNR, 't'], [csv.encodeTNR, 'n'], [csv.encodeTNR, 'r'], enc,
           if shared && ActiveEncode(csv) == csv.escapeChar then enc else [csv.escapeChar],
           if shared && ActiveEncode(csv) == csv.separator then enc else [csv.separator])
    case URL =>
      Subs([csv.encodeURL, '0', '9'], [csv.encodeURL, '0', 'A'], [csv.encodeURL, '0', 'D'], enc,
           if shared && ActiveEncode(csv) == csv.escapeChar then enc else [csv.escapeChar],
           if shared && ActiveEncode(csv) == csv.separator then enc else [csv.separator])
    case Replace =>
      Subs(csv.replaceTab, csv.replaceLF, csv.replaceCR, enc, [csv.escapeChar], [csv.separator])
  }

  // ---------------------------------------------------------------------
  // The encodings the reader applies, and the decodings undoing them
  // ---------------------------------------------------------------------

  /** How the reader writes one character of field content in TNR style. */
  function TnrEncodeChar(c: char, enc: char): string
  {
    if c == '\t' then [enc, 't']
    else if c == '\n' then [enc, 'n']
    else if c == '\r' then [enc, 'r']
    else if c == enc then [enc, enc]
    else [c]
  }

  /** Field content in TNR style (subTab, subLF, subCR and subEnc). */
  function TnrEncode(s: string, enc: char): string
  {
    if s == [] then "" else TnrEncodeChar(s[0], enc) + TnrEncode(s[1..], enc)
  }

  /** The TNR decoding undoes the TNR encoding, unless enc is one of the letters t, n and r. */
  lemma {:induction false} TnrRoundTrip(s: string, enc: char)
    requires enc != 't' && enc != 'n' && enc != 'r'
    ensures TnrDecode(TnrEncode(s, enc), enc) == s
  {
    if s != [] {
      TnrRoundTrip(s[1..], enc);
      TnrCharDecodes(s[0], TnrEncode(s[1..], enc), enc);
      assert s == [s[0]] + s[1..];
    }
  }

  /** The TNR decoding of one encoded character c before y gives c before the decoding of y. */
  lemma TnrCharDecodes(c: char, y: string, enc: char)
    requires enc != 't' && enc != 'n' && enc != 'r'
    ensures TnrDecode(TnrEncodeChar(c, enc) + y, enc) == [c] + TnrDecode(y, enc)
  {
    var x := TnrEncodeChar(c, enc);
    var xy := x + y;
    if |x| == 1 {
      if |xy| >= 2 {
        assert xy[0] == c && xy[1..] == y;
      } else {
        assert y == [] && xy == [c];
      }
    } else {
      assert xy[0] == enc && xy[1] == x[1] && xy[2..] == y;
    }
  }

  /** Whether two hexadecimal digits follow position p (the reader's test before writing subEnc in URL style). */
  predicate HexFollows(s: string, p: nat)
  {
    p + 1 < |s| && IsHexDigit(s[p]) && IsHexDigit(s[p + 1])
  }

  /** How the reader writes the first character of s in URL style, looking at the two after it. */
  function UrlEncodeHead(s: string, enc: char, encBytes: seq<Byte>): string
    requires s != []
  {
    if s[0] == '\t' then [enc, '0', '9']
    else if s[0] == '\n' then [enc, '0', 'A']
    else if s[0] == '\r' then [enc, '0', 'D']
    else if s[0] == enc then (if HexFollows(s, 1) then UrlBytes(enc, encBytes) else [enc])
    else [s[0]]
  }

  /** Field content in URL style: an encode character is encoded only where two hexadecimal digits follow it. */
  function UrlEncode(s: string, enc: char, encBytes: seq<Byte>): string
  {
    if s == [] then "" else UrlEncodeHead(s, enc, encBytes) + UrlEncode(s[1..], enc, encBytes)
  }

  /** encBytes is the one byte of enc. */
  predicate SingleByte(enc: char, encBytes: seq<Byte>)
  {
    |encBytes| == 1 && encBytes[0] == enc as int
  }

  /** The URL encoding begins with a hexadecimal digit exactly when the content does, and then with that digit. */
  lemma UrlEncodeFirst(s: string, enc: char, encBytes: seq<Byte>)
    requires s != [] && !IsHexDigit(enc) && encBytes != []
    ensures UrlEncode(s, enc, encBytes) != []
    ensures IsHexDigit(UrlEncode(s, enc, encBytes)[0]) <==> IsHexDigit(s[0])
    ensures IsHexDigit(s[0]) ==> UrlEncode(s, enc, encBytes) == [s[0]] + UrlEncode(s[1..], enc, encBytes)
  {
    var x := UrlEncodeHead(s, enc, encBytes);
    assert UrlEncode(s, enc, encBytes) == x + UrlEncode(s[1..], enc, encBytes);
    if s[0] == enc && HexFollows(s, 1) {
      assert x[0] == enc;
    }
  }

  /** A character that starts no decodable triple is kept. */
  lemma UrlDecodeLead(c: char, y: string, enc: char)
    requires c != enc || !HexFollows([c] + y, 1)
    ensures UrlDecode([c] + y, enc) == [c] + UrlDecode(y, enc)
  {
    var cy := [c] + y;
    assert cy[1..] == y;
    if |cy| >= 3 {
      assert cy[0] == c && cy[1] == y[0] && cy[2] == y[1];
    }
  }

  /** A decodable triple becomes its character. */
  lemma UrlDecodeTriple(x: string, y: string, enc: char)
    requires |x| == 3 && x[0] == enc && IsHexDigit(x[1]) && IsHexDigit(x[2])
    ensures UrlDecode(x + y, enc) == [HexPairChar(x[1], x[2])] + UrlDecode(y, enc)
  {
    var xy := x + y;
    assert xy[0] == x[0] && xy[1] == x[1] && xy[2] == x[2] && xy[3..] == y;
  }

  /**
   * The URL decoding undoes the URL encoding when enc is a single byte, is no
   * hexadecimal digit and is none of TAB, LF and CR.
   */
  lemma {:induction false} UrlRoundTrip(s: string, enc: char, encBytes: seq<Byte>)
    requires SingleByte(enc, encBytes) && !IsHexDigit(enc) && enc != '\t' && enc != '\n' && enc != '\r'
    ensures UrlDecode(UrlEncode(s, enc, encBytes), enc) == s
  {
    if s != [] {
      UrlRoundTrip(s[1..], enc, encBytes);
      UrlHeadDecodes(s, enc, encBytes);
      assert s == [s[0]] + s[1..];
    }
  }

  /** The URL decoding of the encoding of s gives its first character before the decoding of the encoding of the rest. */
  lemma UrlHeadDecodes(s: string, enc: char, encBytes: seq<Byte>)
    requires SingleByte(enc, encBytes) && !IsHexDigit(enc) && enc != '\t' && enc != '\n' && enc != '\r'
    requires s != []
    ensures UrlDecode(UrlEncode(s, enc, encBytes), enc) == [s[0]] + UrlDecode(UrlEncode(s[1..], enc, encBytes), enc)
  {
    var x := UrlEncodeHead(s, enc, encBytes);
    var y := UrlEncode(s[1..], enc, encBytes);
    assert UrlEncode(s, enc, encBytes) == x + y;
    if s[0] == '\t' || s[0] == '\n' || s[0] == '\r' || (s[0] == enc && HexFollows(s, 1)) {
      UrlHeadTriple(s, enc, encBytes);
      UrlDecodeTriple(x, y, enc);
    } else {
      UrlHeadKept(s, enc, encBytes);
      UrlDecodeLead(s[0], y, enc);
    }
  }

  /** A TAB, LF or CR, or an encode character before two hexadecimal digits, is encoded as a decodable triple of that character. */
  lemma UrlHeadTriple(s: string, enc: char, encBytes: seq<Byte>)
    requires SingleByte(enc, encBytes) && enc != '\t' && enc != '\n' && enc != '\r' && s != []
    requires s[0] == '\t' || s[0] == '\n' || s[0] == '\r' || (s[0] == enc && HexFollows(s, 1))
    ensures var x := UrlEncodeHead(s, enc, encBytes);
            |x| == 3 && x[0] == enc && IsHexDigit(x[1]) && IsHexDigit(x[2]) && HexPairChar(x[1], x[2]) == s[0]
  {
    if s[0] == enc {
      var b := encBytes[0];
      assert UrlEncodeHead(s, enc, encBytes) == [enc, HexUpper(b / 16), HexUpper(b % 16)];
    }
  }

  /** Any other first character is kept, and does not start a decodable triple with what follows. */
  lemma UrlHeadKept(s: string, enc: char, encBytes: seq<Byte>)
    requires SingleByte(enc, encBytes) && !IsHexDigit(enc) && s != []
    requires !(s[0] == '\t' || s[0] == '\n' || s[0] == '\r' || (s[0] == enc && HexFollows(s, 1)))
    ensures UrlEncodeHead(s, enc, encBytes) == [s[0]]
    ensures s[0] != enc || !HexFollows([s[0]] + UrlEncode(s[1..], enc, encBytes), 1)
  {
    var y := UrlEncode(s[1..], enc, encBytes);
    if s[0] == enc && |s| > 1 {
      UrlEncodeFirst(s[1..], enc, encBytes);
      if IsHexDigit(s[1]) && |s| > 2 {
        assert y == [s[1]] + UrlEncode(s[2..], enc, encBytes);
        UrlEncodeFirst(s[2..], enc, encBytes);
        assert ([s[0]] + y)[2] == UrlEncode(s[2..], enc, encBytes)[0];
      }
    }
  }

  // ---------------------------------------------------------------------
  // Reading separated values into tabs (Convert.cpp:277-371)
  // ---------------------------------------------------------------------

  /** One pass of a field loop of the reader: go on from at, or stop, the next field starting at rest. */
  datatype Step = More(out: string, at: nat) | Done(out: string, rest: Option<nat>)

  /** What the reader writes for the encode character at q: subEnc in TNR style, and in URL style only before two hexadecimal digits. */
  function EncodedAt(s: string, q: nat, csv: CsvSettings, subs: Subs): string
    requires q < |s|
  {
    if csv.encodingStyle == TNR || HexFollows(s, q + 1) then subs.enc else [s[q]]
  }

  /** st with pre written before what it writes. */
  function After(pre: string, st: Step): (r: Step)
    ensures r.More? == st.More? && r.out == pre + st.out
    ensures r.More? ==> r.at == st.at
    ensures r.Done? ==> r.rest == st.rest
  {
    match st
    case More(out, at) => More(pre + out, at)
    case Done(out, rest) => Done(pre + out, rest)
  }

  /** What the quoted-field loop writes for the character at q it stopped at, and where it goes on. */
  function QuotedAt(s: string, csv: CsvSettings, subs: Subs, quote: char, q: nat): (st: Step)
    requires q < |s|
    ensures st.More? ==> q < st.at <= |s|
    ensures st.Done? ==> st.rest.Some? && q < st.rest.value <= |s|
  {
    if s[q] == '\t' then More(subs.tab, q + 1)
    else if s[q] == '\n' then More(subs.lf, q + 1)
    else if s[q] == '\r' then More(subs.cr, q + 1)
    else if s[q] == csv.escapeChar && csv.escape then
      if q + 1 == |s| then Done(subs.esc, Some(q + 1))
      else
        var kept := if csv.preserveQuotes then subs.esc else "";
        if s[q + 1] == csv.escapeChar then More(kept + subs.esc, q + 2)
        else if s[q + 1] == quote then More(kept + [quote], q + 2)
        else More(kept, q + 1)
    else if s[q] == quote then
      var kept := if csv.preserveQuotes then [quote] else "";
      if q + 1 < |s| && s[q + 1] == quote then More(kept + [quote], q + 2)
      else Done(kept, Some(q + 1))
    else More(EncodedAt(s, q, csv, subs), q + 1)
  }

  /** One pass of the quoted-field loop from p, inside quotes opened by quote: the text up to the next character it stops at, then what QuotedAt writes. */
  function QuotedStep(s: string, csv: CsvSettings, subs: Subs, quote: char, p: nat): (st: Step)
    requires p <= |s|
    ensures st.More? ==> p < st.at <= |s|
    ensures st.Done? ==> st.rest.Some? && p <= st.rest.value <= |s|
  {
    match FindStop(s, csv, quote, p)
    case None => Done(s[p..], Some(|s|))
    case Some(q) => After(s[p..q], QuotedAt(s, csv, subs, quote, q))
  }

  /** The quoted-field loop from p: what it writes, and where the unquoted loop takes over. */
  function QuotedRun(s: string, csv: CsvSettings, subs: Subs, quote: char, p: nat): (r: (string, nat))
    requires p <= |s|
    decreases |s| - p
    ensures p <= r.1 <= |s|
  {
    match QuotedStep(s, csv, subs, quote, p)
    case Done(out, rest) => (out, rest.value)
    case More(out, at) =>
      var r := QuotedRun(s, csv, subs, quote, at);
      (out + r.0, r.1)
  }

  /** s[p..q] without its trailing blanks. */
  function Trimmed(s: string, p: nat, q: nat): (r: string)
    requires p <= q <= |s|
    decreases q
    ensures |r| <= q - p && r == s[p..p + |r|]
    ensures r != [] ==> r[|r| - 1] != ' '
  {
    if q == p then ""
    else if s[q - 1] != ' ' then s[p..q]
    else Trimmed(s, p, q - 1)
  }

  /** What the last pass of the unquoted loop writes of s[p..q]: all of it when quotes are preserved, else without trailing blanks. */
  function Kept(s: string, csv: CsvSettings, p: nat, q: nat): string
    requires p <= q <= |s|
  {
    if csv.preserveQuotes then s[p..q] else Trimmed(s, p, q)
  }

  /** What the unquoted-field loop writes for the TAB, escape or encode character at q it stopped at, and where it goes on. */
  function UnquotedAt(s: string, csv: CsvSettings, subs: Subs, q: nat): (st: Step)
    requires q < |s|
    ensures st.More? ==> q < st.at <= |s|
    ensures st.Done? ==> st.rest.None?
  {
    if s[q] == '\t' then More(subs.tab, q + 1)
    else if s[q] == csv.escapeChar && csv.escape then
      if q + 1 == |s| then Done(subs.esc, None)
      else
        var kept := if csv.preserveQuotes then subs.esc else "";
        if s[q + 1] == csv.escapeChar then More(kept + subs.esc, q + 2)
        else if s[q + 1] == csv.separator then More(kept + subs.sep, q + 2)
        else if s[q + 1] == '\n' then More(kept + subs.lf, q + 2)
        else if s[q + 1] == '\r' then More(kept + subs.cr, q + 2)
        else More(kept, q + 1)
    else More(EncodedAt(s, q, csv, subs), q + 1)
  }

  /**
   * One pass of the unquoted-field loop from p: at a separator or line end the
   * field ends, its text kept by Kept; otherwise the text up to the character
   * it stopped at, then what UnquotedAt writes.
   */
  function UnquotedStep(s: string, csv: CsvSettings, subs: Subs, p: nat): (st: Step)
    requires p <= |s|
    ensures st.More? ==> p < st.at <= |s|
    ensures st.Done? && st.rest.Some? ==> p < st.rest.value <= |s|
  {
    match FindStop(s, csv, csv.separator, p)
    case None => Done(Kept(s, csv, p, |s|), None)
    case Some(q) =>
      if s[q] == csv.separator || s[q] == '\n' || s[q] == '\r' then
        Done(Kept(s, csv, p, q) + (if s[q] == csv.separator then "\t" else [s[q]]), Some(q + 1))
      else After(s[p..q], UnquotedAt(s, csv, subs, q))
  }

  /** The unquoted-field loop from p: what it writes, and where the next field starts (None: nothing is left). */
  function UnquotedRun(s: string, csv: CsvSettings, subs: Subs, p: nat): (r: (string, Option<nat>))
    requires p <= |s|
    decreases |s| - p
    ensures r.1.Some? ==> p < r.1.value <= |s|
  {
    match UnquotedStep(s, csv, subs, p)
    case Done(out, rest) => (out, rest)
    case More(out, at) =>
      var r := UnquotedRun(s, csv, subs, at);
      (out + r.0, r.1)
  }

  /** n blanks. */
  function Blanks(n: nat): (r: string)
    ensures |r| == n
  {
    seq(n, _ => ' ')
  }

  /** The field from its first non-blank character p on: an optional quoted part, then the unquoted part. */
  function FieldBody(s: string, csv: CsvSettings, subs: Subs, p: nat): (r: (string, Option<nat>))
    requires p < |s|
    ensures r.1.Some? ==> p < r.1.value <= |s|
  {
    if IsQuote(s[p], csv) then
      var quoted := QuotedRun(s, csv, subs, s[p], p + 1);
      var rest := UnquotedRun(s, csv, subs, quoted.1);
      ((if csv.preserveQuotes then [s[p]] else "") + quoted.0 + rest.0, rest.1)
    else UnquotedRun(s, csv, subs, p)
  }

  /**
   * One pass of the outer loop from start: leading blanks (kept only when
   * quotes are preserved), then the field body.
   */
  function FieldFrom(s: string, csv: CsvSettings, subs: Subs, start: nat): (r: (string, Option<nat>))
    requires start <= |s|
    ensures r.1.Some? ==> start < r.1.value <= |s|
  {
    match FindNonBlank(s, start)
    case None => (if csv.preserveQuotes then Blanks(|s| - start) else "", None)
    case Some(p) =>
      var body := FieldBody(s, csv, subs, p);
      ((if csv.preserveQuotes then Blanks(p - start) else "") + body.0, body.1)
  }

  /** The tab-separated text the reader makes of s from start on. */
  function ToTabs(s: string, csv: CsvSettings, subs: Subs, start: nat): string
    requires start <= |s|
    decreases |s| - start
  {
    if start == |s| then ""
    else
      var field := FieldFrom(s, csv, subs, start);
      match field.1
      case None => field.0
      case Some(next) => field.0 + ToTabs(s, csv, subs, next)
  }

  /** The quoted-field loop of separatedValuesToTabs. */
  method ReadQuoted(s: string, csv: CsvSettings, subs: Subs, quote: char, from: nat) returns (out: string, p: nat)
    requires from <= |s|
    ensures out == QuotedRun(s, csv, subs, quote, from).0 && p == QuotedRun(s, csv, subs, quote, from).1
  {
    ghost var total := QuotedRun(s, csv, subs, quote, from);
    out, p := "", from;
    while true
      invariant p <= |s|
      invariant out + QuotedRun(s, csv, subs, quote, p).0 == total.0
      invariant QuotedRun(s, csv, subs, quote, p).1 == total.1
      decreases |s| - p
    {
      var st := QuotedStep(s, csv, subs, quote, p);
      if st.Done? {
        out, p := out + st.out, st.rest.value;
        return;
      }
      Associative(out, st.out, QuotedRun(s, csv, subs, quote, st.at).0);
      out, p := out + st.out, st.at;
    }
  }

  /** The unquoted-field loop of separatedValuesToTabs. */
  method ReadUnquoted(s: string, csv: CsvSettings, subs: Subs, from: nat)
    returns (out: string, next: Option<nat>)
    requires from <= |s|
    ensures out == UnquotedRun(s, csv, subs, from).0 && next == UnquotedRun(s, csv, subs, from).1
  {
    ghost var total := UnquotedRun(s, csv, subs, from);
    out := "";
    var p := from;
    while true
      invariant p <= |s|
      invariant out + UnquotedRun(s, csv, subs, p).0 == total.0
      invariant UnquotedRun(s, csv, subs, p).1 == total.1
      decreases |s| - p
    {
      var st := UnquotedStep(s, csv, subs, p);
      if st.Done? {
        out, next := out + st.out, st.rest;
        return;
      }
      Associative(out, st.out, UnquotedRun(s, csv, subs, st.at).0);
      out, p := out + st.out, st.at;
    }
  }

  /** The field body of separatedValuesToTabs, from the first non-blank character p. */
  method ReadBody(s: string, csv: CsvSettings, subs: Subs, p: nat)
    returns (out: string, next: Option<nat>)
    requires p < |s|
    ensures out == FieldBody(s, csv, subs, p).0 && next == FieldBody(s, csv, subs, p).1
  {
    if IsQuote(s[p], csv) {
      var mark := if csv.preserveQuotes then [s[p]] else "";
      var quoted, at := ReadQuoted(s, csv, subs, s[p], p + 1);
      var rest;
      rest, next := ReadUnquoted(s, csv, subs, at);
      out := mark + quoted + rest;
    } else {
      out, next := ReadUnquoted(s, csv, subs, p);
    }
  }

  /** One pass of the outer loop of separatedValuesToTabs. */
  method ReadField(s: string, csv: CsvSettings, subs: Subs, start: nat)
    returns (out: string, next: Option<nat>)
    requires start <= |s|
    ensures out == FieldFrom(s, csv, subs, start).0 && next == FieldFrom(s, csv, subs, start).1
  {
    var first := FindNonBlank(s, start);
    if first.None? {
      out := if csv.preserveQuotes then Blanks(|s| - start) else "";
      return out, None;
    }
    var p := first.value;
    var lead := if csv.preserveQuotes then Blanks(p - start) else "";
    var body;
    body, next := ReadBody(s, csv, subs, p);
    out := lead + body;
  }

  /**
   * separatedValuesToTabs on the text of one selection; encBytes are the
   * code-page bytes of the URL encode character.
   */
  method SeparatedValuesToTabs(s: string, csv: CsvSettings, encBytes: seq<Byte>) returns (t: string)
    ensures t == ToTabs(s, csv, Substitutions(csv, encBytes), 0)
  {
    var subs := Substitutions(csv, encBytes);
    ghost var total := ToTabs(s, csv, subs, 0);
    t := "";
    var start: nat := 0;
    while start < |s|
      invariant start <= |s|
      invariant t + ToTabs(s, csv, subs, start) == total
      decreases |s| - start
    {
      var out, next := ReadField(s, csv, subs, start);
      if next.None? {
        t := t + out;
        return;
      }
      Associative(t, out, ToTabs(s, csv, subs, next.value));
      t, start := t + out, next.value;
    }
  }

  // ---------------------------------------------------------------------
  // Writing tabs as separated values (Convert.cpp:410-504)
  // ---------------------------------------------------------------------

  /** n blanks, each written as the escape character and a blank. */
  function EscapedBlanks(n: nat, esc: char): (r: string)
    ensures |r| == 2 * n
  {
    if n == 0 then "" else EscapedBlanks(n - 1, esc) + [esc, ' ']
  }

  /** One character between the first and last non-blank: separators, escape characters and line ends get the escape character before them. */
  function EscapeChar(c: char, csv: CsvSettings): string
  {
    if c == csv.separator || c == csv.escapeChar || c == '\n' || c == '\r' then [csv.escapeChar, c] else [c]
  }

  /** Every character of w escaped where it must be. */
  function EscapeChars(w: string, csv: CsvSettings): string
  {
    if w == [] then "" else EscapeChars(w[..|w| - 1], csv) + EscapeChar(w[|w| - 1], csv)
  }

  /** The escaped form of a field: leading and trailing blanks escaped, the rest escaped where it must be. */
  function EscapedField(field: string, csv: CsvSettings): string
  {
    match FindNonBlank(field, 0)
    case None => EscapedBlanks(|field|, csv.escapeChar)
    case Some(a) =>
      var b := LastNonBlank(field, a, |field|);
      EscapedBlanks(a, csv.escapeChar) + EscapeChars(field[a..b + 1], csv)
        + EscapedBlanks(|field| - 1 - b, csv.escapeChar)
  }

  /** Appending n escaped blanks to t. */
  method AppendEscapedBlanks(t: string, n: nat, esc: char) returns (r: string)
    ensures r == t + EscapedBlanks(n, esc)
  {
    r := t;
    for i := 0 to n
      invariant r == t + EscapedBlanks(i, esc)
    {
      r := r + [esc, ' '];
    }
  }

  /** The escaping loop over the characters from the first to the last non-blank. */
  method EscapeAll(mid: string, csv: CsvSettings) returns (w: string)
    ensures w == EscapeChars(mid, csv)
  {
    w := "";
    for i := 0 to |mid|
      invariant w == EscapeChars(mid[..i], csv)
    {
      assert mid[..i + 1][..i] == mid[..i];
      if mid[i] == csv.separator || mid[i] == csv.escapeChar || mid[i] == '\n' || mid[i] == '\r' {
        w := w + [csv.escapeChar];
      }
      w := w + [mid[i]];
    }
    assert mid[..|mid|] == mid;
  }

  /** The escaping branch of tabsToSeparatedValues. */
  method EscapeField(field: string, csv: CsvSettings) returns (t: string)
    ensures t == EscapedField(field, csv)
  {
    var first := FindNonBlank(field, 0);
    if first.None? {
      t := AppendEscapedBlanks("", |field|, csv.escapeChar);
      return;
    }
    var a := first.value;
    var b := LastNonBlank(field, a, |field|);
    var lead := AppendEscapedBlanks("", a, csv.escapeChar);
    var w := EscapeAll(field[a..b + 1], csv);
    t := AppendEscapedBlanks(lead + w, |field| - 1 - b, csv.escapeChar);
    assert lead == EscapedBlanks(a, csv.escapeChar);
  }

  /** The field after the decoding of the active style. */
  function DecodeField(raw: string, csv: CsvSettings): (field: string)
    ensures raw != [] ==> field != []
  {
    match csv.encodingStyle
    case TNR => TnrDecode(raw, csv.encodeTNR)
    case URL => UrlDecode(raw, csv.encodeURL)
    case Replace => raw
  }

  /** A field that must not be written as it is unless quotes are preserved: blank at either end, or opening with an enabled quote. */
  predicate Reduces(field: string, csv: CsvSettings)
    requires field != []
  {
    field[0] == ' ' || field[|field| - 1] == ' ' || IsQuote(field[0], csv)
  }

  /**
   * How tabsToSeparatedValues writes one non-empty tab-separated field: as it
   * is, quoted, escaped, or not at all (None: the conversion stops with an
   * error message).
   */
  function WriteField(raw: string, csv: CsvSettings): Option<string>
    requires raw != []
  {
    var field := DecodeField(raw, csv);
    if (csv.preserveQuotes || !Reduces(field, csv)) && ValidField(field, csv, !csv.preserveQuotes) then Some(field)
    else if csv.quote || csv.apostrophe then Some(Quoted(field, ChooseQuote(field, csv), csv))
    else if csv.escape then Some(EscapedField(field, csv))
    else None
  }

  /** The body of the field loop of tabsToSeparatedValues. */
  method ConvertField(raw: string, csv: CsvSettings) returns (w: Option<string>)
    requires raw != []
    ensures w == WriteField(raw, csv)
  {
    var field := raw;
    if csv.encodingStyle == TNR {
      field := DecodeTnr(raw, csv.encodeTNR);
    } else if csv.encodingStyle == URL {
      field := DecodeUrl(raw, csv.encodeURL);
    }
    assert field == DecodeField(raw, csv);
    var valid := IsValidField(field, csv, !csv.preserveQuotes);
    if (csv.preserveQuotes || !Reduces(field, csv)) && valid {
      return Some(field);
    }
    if csv.quote || csv.apostrophe {
      var quote := ChooseQuote(field, csv);
      var q := QuoteField(field, quote, csv);
      return Some(q);
    }
    if csv.escape {
      var e := EscapeField(field, csv);
      return Some(e);
    }
    return None;
  }

  /** a before the text r, when there is one. */
  function Prefixed(a: string, r: Option<string>): Option<string>
  {
    match r
    case None => None
    case Some(b) => Some(a + b)
  }

  /** What tabsToSeparatedValues writes for the field of s from p up to end. */
  function FieldText(s: string, csv: CsvSettings, p: nat, end: nat): Option<string>
    requires p <= end <= |s|
  {
    if p == end then Some("") else WriteField(s[p..end], csv)
  }

  /**
   * What tabsToSeparatedValues makes of s from p on: each field written by
   * WriteField, each TAB replaced by the separator and each LF and CR kept;
   * None when some field cannot be written.
   */
  function TabsFrom(s: string, csv: CsvSettings, p: nat): Option<string>
    requires p <= |s|
    decreases |s| - p, 2
  {
    var q := FindAny(s, "\t\n\r", p);
    var end := if q.Some? then q.value else |s|;
    FieldThen(s, csv, p, end, q.Some?)
  }

  /** The field of s from p up to end as written, then, if delimited, the rest of the text after it. */
  function FieldThen(s: string, csv: CsvSettings, p: nat, end: nat, delimited: bool): Option<string>
    requires p <= end <= |s| && (delimited ==> end < |s|)
    decreases |s| - end, 1
  {
    TabsAfter(s, csv, end, delimited, FieldText(s, csv, p, end))
  }

  /** The rest of the text after the field w ending at end, at a delimiter if delimited. */
  function TabsAfter(s: string, csv: CsvSettings, end: nat, delimited: bool, w: Option<string>): Option<string>
    requires end <= |s| && (delimited ==> end < |s|)
    decreases |s| - end, 0
  {
    if w.None? || !delimited then w
    else Prefixed(w.value + [if s[end] == '\t' then csv.separator else s[end]], TabsFrom(s, csv, end + 1))
  }

  /** Prefixing twice is prefixing with both. */
  lemma PrefixedTwice(a: string, b: string, r: Option<string>)
    ensures Prefixed(a, Prefixed(b, r)) == Prefixed(a + b, r)
  {
    if r.Some? {
      Associative(a, b, r.value);
    }
  }

  /** TabsFrom at p, with the delimiter search and the written field named. */
  lemma TabsFromIs(s: string, csv: CsvSettings, p: nat, q: Option<nat>, end: nat, w: Option<string>)
    requires p <= |s| && q == FindAny(s, "\t\n\r", p) && end == (if q.Some? then q.value else |s|)
    requires w == FieldText(s, csv, p, end)
    ensures w.None? ==> TabsFrom(s, csv, p) == None
    ensures w.Some? && q.None? ==> TabsFrom(s, csv, p) == w
    ensures w.Some? && q.Some? ==> TabsFrom(s, csv, p) == Prefixed(w.value + [if s[end] == '\t' then csv.separator else s[end]], TabsFrom(s, csv, end + 1))
  {
    TabsFromThen(s, csv, p, q, end);
    FieldThenIs(s, csv, p, end, q.Some?, w);
  }

  /** TabsFrom at p is the field up to the delimiter search's end, then the rest. */
  lemma TabsFromThen(s: string, csv: CsvSettings, p: nat, q: Option<nat>, end: nat)
    requires p <= |s| && q == FindAny(s, "\t\n\r", p) && end == (if q.Some? then q.value else |s|)
    ensures end <= |s| && (q.Some? ==> end < |s|) && TabsFrom(s, csv, p) == FieldThen(s, csv, p, end, q.Some?)
  {
  }

  /** The field w up to end, then, if delimited, the rest of the text. */
  lemma FieldThenIs(s: string, csv: CsvSettings, p: nat, end: nat, delimited: bool, w: Option<string>)
    requires p <= end <= |s| && (delimited ==> end < |s|) && w == FieldText(s, csv, p, end)
    ensures w.None? ==> FieldThen(s, csv, p, end, delimited) == None
    ensures w.Some? && !delimited ==> FieldThen(s, csv, p, end, delimited) == w
    ensures w.Some? && delimited ==> FieldThen(s, csv, p, end, delimited) == Prefixed(w.value + [if s[end] == '\t' then csv.separator else s[end]], TabsFrom(s, csv, end + 1))
  {
    assert FieldThen(s, csv, p, end, delimited) == TabsAfter(s, csv, end, delimited, w);
  }

  /** The field of the loop of tabsToSeparatedValues from p up to end, the delimiter found by q. */
  method WriteFieldAt(s: string, csv: CsvSettings, p: nat, q: Option<nat>, end: nat) returns (w: Option<string>)
    requires p <= |s| && q == FindAny(s, "\t\n\r", p) && end == (if q.Some? then q.value else |s|)
    ensures w == FieldText(s, csv, p, end)
    ensures w.None? ==> TabsFrom(s, csv, p) == None
    ensures w.Some? && q.None? ==> TabsFrom(s, csv, p) == w
    ensures w.Some? && q.Some? ==> TabsFrom(s, csv, p) == Prefixed(w.value + [if s[end] == '\t' then csv.separator else s[end]], TabsFrom(s, csv, end + 1))
  {
    w := Some("");
    if p < end {
      w := ConvertField(s[p..end], csv);
    }
    TabsFromIs(s, csv, p, q, end, w);
  }

  /** One pass of the loop of tabsToSeparatedValues: the field from p with its delimiter, and where the next field starts. */
  method TabsPass(s: string, csv: CsvSettings, p: nat) returns (piece: Option<string>, next: Option<nat>)
    requires p <= |s|
    ensures next.Some? ==> p < next.value <= |s| && piece.Some?
    ensures next.None? ==> piece == TabsFrom(s, csv, p)
    ensures next.Some? ==> TabsFrom(s, csv, p) == Prefixed(piece.value, TabsFrom(s, csv, next.value))
  {
    var q := FindAny(s, "\t\n\r", p);
    var end := if q.Some? then q.value else |s|;
    var w := WriteFieldAt(s, csv, p, q, end);
    if w.None? {
      return None, None;
    }
    if q.None? {
      return w, None;
    }
    piece, next := Some(w.value + [if s[end] == '\t' then csv.separator else s[end]]), Some(end + 1);
  }

  /** tabsToSeparatedValues on the text of one selection. */
  method TabsToSeparatedValues(s: string, csv: CsvSettings) returns (t: Option<string>)
    ensures t == TabsFrom(s, csv, 0)
  {
    ghost var total := TabsFrom(s, csv, 0);
    var acc := "";
    var p: nat := 0;
    assert Prefixed("", total) == total by {
      if total.Some? {
        assert "" + total.value == total.value;
      }
    }
    while true
      invariant p <= |s|
      invariant Prefixed(acc, TabsFrom(s, csv, p)) == total
      decreases |s| - p
    {
      var piece, next := TabsPass(s, csv, p);
      if next.None? {
        return Prefixed(acc, piece);
      }
      PrefixedTwice(acc, piece.value, TabsFrom(s, csv, next.value));
      acc, p := acc + piece.value, next.value;
    }
  }
}
