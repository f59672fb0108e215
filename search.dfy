// Search.cpp: expansion of the escapes allowed in "extended" search mode,
// and the find/replace history of the search dialog.
//
// The expansion reads one fixed string by position: Expand(s, i) is the
// expansion of s[i..], the string the loop of expandExtendedSearchString
// holds once it has consumed s[..i]. The functions Expand unfolds through
// are plain recursions without quantified postconditions; what they mean
// is proved in separate lemmas (SpanMeaning, NextBackslashIsFind,
// LineFreeMeaning, MatchEscapeMeaning).
module Search {
  import opened Common
  import ColumnsPlusPlus

  /** The digit classes of the pattern: [01], \d, [0-7] and [\da-fA-F]. */
  datatype Digits = Binary | Decimal | Octal | Hex

  predicate InClass(c: char, d: Digits) {
    match d
    case Binary => c == '0' || c == '1'
    case Decimal => IsDigit(c)
    case Octal => '0' <= c <= '7'
    case Hex => IsHexDigit(c)
  }

  /** How many characters from position j on, at most max, are in class d: a greedy [d]{0,max}. */
  function Span(s: string, j: nat, d: Digits, max: nat): (n: nat)
    ensures n <= max && (n == 0 || j + n <= |s|)
    decreases max
  {
    if max == 0 || j >= |s| || !InClass(s[j], d) then 0 else 1 + Span(s, j + 1, d, max - 1)
  }

  /** Span takes only characters of the class, and stops early only at one outside it. */
  lemma {:induction false} SpanMeaning(s: string, j: nat, d: Digits, max: nat)
    ensures forall k :: j <= k < j + Span(s, j, d, max) ==> InClass(s[k], d)
    ensures j + Span(s, j, d, max) < |s| && Span(s, j, d, max) < max ==> !InClass(s[j + Span(s, j, d, max)], d)
    decreases max
  {
    if max > 0 && j < |s| && InClass(s[j], d) {
      SpanMeaning(s, j + 1, d, max - 1);
    }
  }

  /** static_cast<char> of an int: the value modulo 256 as one byte. */
  function ByteChar(v: nat): (c: char)
    ensures c as int == v % 256
  {
    (v % 256) as char
  }

  /** The escapes with digits: \b, \d, \o, \u and \x; the digits' class, how many at most, their radix, and whether the value is a UTF-16 code unit. */
  datatype Numeric = Numeric(digits: Digits, max: nat, radix: nat, wide: bool)

  /** The single-character escapes \\, \0, \n, \r and \t. */
  function SimpleEscape(c: char): char
  {
    match c
    case '0' => '\0'
    case 'n' => '\n'
    case 'r' => '\r'
    case 't' => '\t'
    case _ => c
  }

  /**
   * The letter at j followed by 1..max digits: the byte
   * static_cast<char>(stoi(digits, 0, radix)), or for \u that UTF-16 code
   * unit converted by toMultiByte, which stands for WideCharToMultiByte in
   * the document's code page. None when no digit follows.
   */
  function LetterMatch(s: string, j: nat, k: Numeric, toMultiByte: nat -> string): (r: Option<(nat, string)>)
    requires j < |s|
    ensures r.Some? ==> 1 < r.value.0 && j + r.value.0 <= |s|
  {
    var n := Span(s, j + 1, k.digits, k.max);
    if n == 0 then None
    else
      var v := DigitsValue(s[j + 1..j + 1 + n], k.radix);
      Some((1 + n, if k.wide then toMultiByte(v) else [ByteChar(v)]))
  }

  /** One alternative of the escape group: a single character from a set, or a letter and its digits. */
  datatype Alternative = OneOf(chars: string) | Letter(letter: char, numeric: Numeric)

  /** The group ([0nrt\\]|b[01]{1,8}|d\d{1,3}|o[0-7]{1,3}|u[\da-fA-F]{1,4}|x[\da-fA-F]{1,2}|) in the order it is tried; the final empty alternative is implicit. */
  const Alternatives: seq<Alternative> := [
    OneOf("0nrt\\"),
    Letter('b', Numeric(Binary, 8, 2, false)),
    Letter('d', Numeric(Decimal, 3, 10, false)),
    Letter('o', Numeric(Octal, 3, 8, false)),
    Letter('u', Numeric(Hex, 4, 16, true)),
    Letter('x', Numeric(Hex, 2, 16, false))
  ]

  /** Whether alternative a matches at j, and if so how many characters it takes and what it expands to. */
  function TryAlternative(s: string, j: nat, a: Alternative, toMultiByte: nat -> string): (r: Option<(nat, string)>)
    ensures r.Some? ==> 0 < r.value.0 && j + r.value.0 <= |s|
  {
    if j >= |s| then None
    else match a
      case OneOf(chars) => if s[j] in chars then Some((1, [SimpleEscape(s[j])])) else None
      case Letter(c, k) => if s[j] == c then LetterMatch(s, j, k, toMultiByte) else None
  }

  /** The first of alts that matches at j; when none does, the empty alternative keeps the backslash. */
  function FirstAlternative(s: string, j: nat, alts: seq<Alternative>, toMultiByte: nat -> string): (r: (nat, string))
    ensures r.0 == 0 || j + r.0 <= |s|
  {
    if alts == [] then (0, "\\")
    else match TryAlternative(s, j, alts[0], toMultiByte)
      case Some(r) => r
      case None => FirstAlternative(s, j, alts[1..], toMultiByte)
  }

  /** The escape that starts at position j, just after a backslash: how many characters it takes and what it expands to. */
  function EscapeAt(s: string, j: nat, toMultiByte: nat -> string): (r: (nat, string))
    ensures r.0 == 0 || j + r.0 <= |s|
  {
    FirstAlternative(s, j, Alternatives, toMultiByte)
  }

  /** The letters of the numeric escapes and what follows each. */
  function NumericKind(c: char): (k: Option<Numeric>)
    ensures k.Some? <==> c in "bdoux"
  {
    match c
    case 'b' => Some(Numeric(Binary, 8, 2, false))
    case 'd' => Some(Numeric(Decimal, 3, 10, false))
    case 'o' => Some(Numeric(Octal, 3, 8, false))
    case 'u' => Some(Numeric(Hex, 4, 16, true))
    case 'x' => Some(Numeric(Hex, 2, 16, false))
    case _ => None
  }

  /** The escape by its first character, as the switch on e[0] in expandExtendedSearchString reads it. */
  function EscapeTable(s: string, j: nat, toMultiByte: nat -> string): (r: (nat, string))
  {
    if j >= |s| then (0, "\\")
    else if s[j] in "0nrt\\" then (1, [SimpleEscape(s[j])])
    else match NumericKind(s[j])
      case None => (0, "\\")
      case Some(k) =>
        match LetterMatch(s, j, k, toMultiByte)
        case None => (0, "\\")
        case Some(r) => r
  }

  /** The alternatives are mutually exclusive on their first character, so their order does not change the escape. */
  lemma EscapeAtIsTable(s: string, j: nat, toMultiByte: nat -> string)
    ensures EscapeAt(s, j, toMultiByte) == EscapeTable(s, j, toMultiByte)
  {
    var A := Alternatives;
    assert EscapeAt(s, j, toMultiByte) == FirstAlternative(s, j, A, toMultiByte);
    if j < |s| && s[j] !in "0nrt\\" {
      var c := s[j];
      var L := A[1..];
      assert FirstAlternative(s, j, A, toMultiByte) == FirstAlternative(s, j, L, toMultiByte);
      assert |L| == 5 && forall i :: 0 <= i < 5 ==> L[i].Letter? && L[i].letter == "bdoux"[i];
      if c in "bdoux" {
        var m := if c == 'b' then 0 else if c == 'd' then 1 else if c == 'o' then 2 else if c == 'u' then 3 else 4;
        assert NumericKind(c) == Some(L[m].numeric);
        SkipLetters(s, j, L, m, toMultiByte);
        assert L[m..][0] == L[m];
        FromLetter(s, j, L[m..], toMultiByte);
      } else {
        SkipLetters(s, j, L, |L|, toMultiByte);
        assert L[|L|..] == [];
      }
    } else if j < |s| {
      assert A[0] == OneOf("0nrt\\");
      assert TryAlternative(s, j, A[0], toMultiByte) == Some((1, [SimpleEscape(s[j])]));
      assert FirstAlternative(s, j, A, toMultiByte) == (1, [SimpleEscape(s[j])]);
      assert EscapeTable(s, j, toMultiByte) == (1, [SimpleEscape(s[j])]);
    } else {
      PastTheEnd(s, j, A, toMultiByte);
    }
  }

  /** Past the end of the string no alternative but the empty one matches. */
  lemma {:induction false} PastTheEnd(s: string, j: nat, alts: seq<Alternative>, toMultiByte: nat -> string)
    requires j >= |s|
    ensures FirstAlternative(s, j, alts, toMultiByte) == (0, "\\")
  {
    if alts != [] {
      PastTheEnd(s, j, alts[1..], toMultiByte);
    }
  }

  /** Letter alternatives for other letters are passed over. */
  lemma {:induction false} SkipLetters(s: string, j: nat, alts: seq<Alternative>, m: nat, toMultiByte: nat -> string)
    requires j < |s| && m <= |alts|
    requires forall i :: 0 <= i < m ==> alts[i].Letter? && alts[i].letter != s[j]
    ensures FirstAlternative(s, j, alts, toMultiByte) == FirstAlternative(s, j, alts[m..], toMultiByte)
    decreases m
  {
    if m > 0 {
      SkipLetters(s, j, alts[1..], m - 1, toMultiByte);
      assert alts[1..][m - 1..] == alts[m..];
    }
  }

  /** The alternative for the letter at j decides the escape when no later one has that letter. */
  lemma FromLetter(s: string, j: nat, alts: seq<Alternative>, toMultiByte: nat -> string)
    requires j < |s| && alts != [] && alts[0].Letter? && alts[0].letter == s[j]
    requires forall i :: 1 <= i < |alts| ==> alts[i].Letter? && alts[i].letter != s[j]
    ensures FirstAlternative(s, j, alts, toMultiByte) ==
      match LetterMatch(s, j, alts[0].numeric, toMultiByte)
      case None => (0, "\\")
      case Some(r) => r
  {
    if LetterMatch(s, j, alts[0].numeric, toMultiByte).None? {
      SkipLetters(s, j, alts[1..], |alts| - 1, toMultiByte);
      assert alts[1..][|alts| - 1..] == [];
    }
  }

  /** The first backslash at or after i. */
  function NextBackslash(s: string, i: nat): (r: Option<nat>)
    ensures r.Some? ==> i <= r.value < |s|
    decreases |s| - i
  {
    if i >= |s| then None else if s[i] == '\\' then Some(i) else NextBackslash(s, i + 1)
  }

  lemma {:induction false} NextBackslashIsFind(s: string, i: nat)
    ensures NextBackslash(s, i) == FindFrom(s, '\\', i)
    decreases |s| - i
  {
    if i < |s| && s[i] != '\\' {
      NextBackslashIsFind(s, i + 1);
    }
  }

  /** No CR or LF at or after i: the final (.*) of the pattern can take the rest. */
  predicate LineFree(s: string, i: nat)
    decreases |s| - i
  {
    i >= |s| || (s[i] != '\n' && s[i] != '\r' && LineFree(s, i + 1))
  }

  lemma {:induction false} LineFreeMeaning(s: string, i: nat)
    requires i <= |s|
    ensures LineFree(s, i) <==> NoLineBreak(s[i..])
    decreases |s| - i
  {
    if i < |s| {
      LineFreeMeaning(s, i + 1);
      assert s[i..] == [s[i]] + s[i + 1..];
    }
  }

  /**
   * Where the whole pattern ([^\\]*)(\\(...))(.*) matches s[i..]: at the
   * first backslash, provided no CR or LF follows it, since (.*) cannot
   * cross a line break and no escape contains one.
   */
  function MatchEscape(s: string, i: nat): (m: Option<nat>)
    ensures m.Some? ==> i <= m.value < |s|
  {
    match NextBackslash(s, i)
    case None => None
    case Some(k) => if LineFree(s, k + 1) then Some(k) else None
  }

  /** The match in terms of std::string::find and the '.' of ECMAScript. */
  lemma MatchEscapeMeaning(s: string, i: nat)
    ensures MatchEscape(s, i) ==
      match FindFrom(s, '\\', i)
      case None => None
      case Some(k) => if NoLineBreak(s[k + 1..]) then Some(k) else None
  {
    NextBackslashIsFind(s, i);
    match FindFrom(s, '\\', i)
    case None =>
    case Some(k) => LineFreeMeaning(s, k + 1);
  }

  /**
   * One match of the pattern on s[i..]: m[1] followed by the escape's
   * expansion, and where m[4], the unmatched rest, starts; None when the
   * pattern does not match.
   */
  function NextPass(s: string, i: nat, toMultiByte: nat -> string): (p: Option<(string, nat)>)
    ensures p.Some? ==> i < p.value.1 <= |s|
    ensures p.None? <==> MatchEscape(s, i).None?
  {
    match MatchEscape(s, i)
    case None => None
    case Some(k) =>
      var e := EscapeAt(s, k + 1, toMultiByte);
      Some((s[i..k] + e.1, k + 1 + e.0))
  }

  /** The expansion of s[i..], one match of the pattern at a time. */
  function Expand(s: string, i: nat, toMultiByte: nat -> string): string
    requires i <= |s|
    decreases |s| - i
  {
    match NextPass(s, i, toMultiByte)
    case None => s[i..]
    case Some(p) => p.0 + Expand(s, p.1, toMultiByte)
  }

  /**
   * expandExtendedSearchString: while text remains, append m[1] and the
   * escape's expansion and continue with m[4]; once the pattern fails,
   * append the rest. The rest m[4] is text[i..].
   */
  method ExpandExtendedSearchString(text: string, toMultiByte: nat -> string) returns (r: string)
    ensures r == Expand(text, 0, toMultiByte)
  {
    var i := 0;
    r := "";
    while i < |text|
      invariant i <= |text|
      invariant r + Expand(text, i, toMultiByte) == Expand(text, 0, toMultiByte)
      decreases |text| - i
    {
      var p := NextPass(text, i, toMultiByte);
      if p.None? {
        r := r + text[i..];
        i := |text|;
        break;
      }
      ghost var rest := Expand(text, p.value.1, toMultiByte);
      Associative(r, p.value.0, rest);
      r := r + p.value.0;
      i := p.value.1;
    }
    if i == |text| {
      assert NextBackslash(text, i) == None;
      assert r + [] == r;
    }
  }

  /** One pass: the text it produces, then the expansion of the rest. */
  lemma ExpandPass(s: string, i: nat, out: string, n: nat, toMultiByte: nat -> string)
    requires i <= n <= |s|
    requires NextPass(s, i, toMultiByte) == Some((out, n))
    ensures Expand(s, i, toMultiByte) == out + Expand(s, n, toMultiByte)
  {
  }

  /** Nothing is left to expand at the end of the string. */
  lemma ExpandAtEnd(s: string, toMultiByte: nat -> string)
    ensures Expand(s, |s|, toMultiByte) == []
  {
    assert NextBackslash(s, |s|) == None;
  }

  predicate NoBackslash(s: string) {
    forall i :: 0 <= i < |s| ==> s[i] != '\\'
  }

  /** Text without a backslash is left as it is. */
  lemma NoBackslashUnchanged(s: string, toMultiByte: nat -> string)
    requires NoBackslash(s)
    ensures Expand(s, 0, toMultiByte) == s
  {
    NextBackslashIsFind(s, 0);
    assert MatchEscape(s, 0) == None;
  }

  /** A character other than a backslash is copied, and the expansion goes on after it. */
  lemma PlainCopied(s: string, i: nat, toMultiByte: nat -> string)
    requires i < |s| && s[i] != '\\'
    ensures Expand(s, i, toMultiByte) == [s[i]] + Expand(s, i + 1, toMultiByte)
  {
    assert NextBackslash(s, i) == NextBackslash(s, i + 1);
    assert MatchEscape(s, i) == MatchEscape(s, i + 1);
    match MatchEscape(s, i)
    case None =>
      CopiedRest(s, i, toMultiByte);
    case Some(k) =>
      var e := EscapeAt(s, k + 1, toMultiByte);
      PlainMatch(s, i, k, e, toMultiByte);
  }

  lemma CopiedRest(s: string, i: nat, toMultiByte: nat -> string)
    requires i < |s| && MatchEscape(s, i) == None && MatchEscape(s, i + 1) == None
    ensures Expand(s, i, toMultiByte) == [s[i]] + Expand(s, i + 1, toMultiByte)
  {
    assert s[i..] == [s[i]] + s[i + 1..];
  }

  lemma PlainMatch(s: string, i: nat, k: nat, e: (nat, string), toMultiByte: nat -> string)
    requires i < |s| && MatchEscape(s, i) == Some(k) && MatchEscape(s, i + 1) == Some(k)
    requires e == EscapeAt(s, k + 1, toMultiByte)
    ensures Expand(s, i, toMultiByte) == [s[i]] + Expand(s, i + 1, toMultiByte)
  {
    assert k + 1 + e.0 <= |s|;
    ExpandPass(s, i, s[i..k] + e.1, k + 1 + e.0, toMultiByte);
    ExpandPass(s, i + 1, s[i + 1..k] + e.1, k + 1 + e.0, toMultiByte);
    SliceFirst(s, i, k);
    Associative([s[i]], s[i + 1..k], e.1);
    Associative([s[i]], s[i + 1..k] + e.1, Expand(s, k + 1 + e.0, toMultiByte));
  }

  /** A backslash followed by a one-line rest: the escape's expansion, then the expansion after it. */
  lemma EscapeExpanded(s: string, i: nat, toMultiByte: nat -> string)
    requires i < |s| && s[i] == '\\'
    requires NoLineBreak(s[i + 1..])
    ensures var e := EscapeAt(s, i + 1, toMultiByte);
      i + 1 + e.0 <= |s| && Expand(s, i, toMultiByte) == e.1 + Expand(s, i + 1 + e.0, toMultiByte)
  {
    LineFreeMeaning(s, i + 1);
    assert MatchEscape(s, i) == Some(i);
    var e := EscapeAt(s, i + 1, toMultiByte);
    EscapeMatch(s, i, e, toMultiByte);
  }

  lemma EscapeMatch(s: string, i: nat, e: (nat, string), toMultiByte: nat -> string)
    requires i < |s| && MatchEscape(s, i) == Some(i)
    requires e == EscapeAt(s, i + 1, toMultiByte)
    ensures i + 1 + e.0 <= |s| && Expand(s, i, toMultiByte) == e.1 + Expand(s, i + 1 + e.0, toMultiByte)
  {
    assert s[i..i] + e.1 == e.1;
    ExpandPass(s, i, e.1, i + 1 + e.0, toMultiByte);
  }

  /** A backslash followed later by a line break: the pattern fails and the rest is kept as it is. */
  lemma LineBreakStopsExpansion(s: string, i: nat, toMultiByte: nat -> string)
    requires i < |s| && s[i] == '\\'
    requires !NoLineBreak(s[i + 1..])
    ensures Expand(s, i, toMultiByte) == s[i..]
  {
    LineFreeMeaning(s, i + 1);
    assert MatchEscape(s, i) == None;
  }

  /** The single-character escapes \\, \0, \n, \r and \t. */
  lemma SimpleEscapes(s: string, j: nat, toMultiByte: nat -> string)
    requires j < |s| && s[j] in "\\0nrt"
    ensures EscapeAt(s, j, toMultiByte) ==
      (1, if s[j] == '\\' then "\\" else if s[j] == '0' then "\0" else if s[j] == 'n' then "\n" else if s[j] == 'r' then "\r" else "\t")
  {
    EscapeAtIsTable(s, j, toMultiByte);
  }

  /** \xHH takes two hex digits and stands for that byte. */
  lemma HexEscape(s: string, j: nat, toMultiByte: nat -> string)
    requires j + 2 < |s| && s[j] == 'x' && IsHexDigit(s[j + 1]) && IsHexDigit(s[j + 2])
    ensures EscapeAt(s, j, toMultiByte) == (3, [(HexDigitValue(s[j + 1]) * 16 + HexDigitValue(s[j + 2])) as char])
  {
    EscapeAtIsTable(s, j, toMultiByte);
    assert Span(s, j + 1, Hex, 2) == 2;
    assert s[j + 1..j + 3] == [s[j + 1], s[j + 2]];
    TwoDigits(s[j + 1], s[j + 2], 16);
  }

  lemma TwoDigits(a: char, b: char, radix: nat)
    ensures DigitsValue([a, b], radix) == HexDigitValue(a) * radix + HexDigitValue(b)
  {
    assert [a, b][..1] == [a];
    assert [a][..0] == [];
    assert DigitsValue([a], radix) == 0 * radix + HexDigitValue(a);
    assert DigitsValue([a, b], radix) == DigitsValue([a], radix) * radix + HexDigitValue(b);
  }

  lemma ThreeDigits(a: char, b: char, c: char, radix: nat)
    ensures DigitsValue([a, b, c], radix) == (HexDigitValue(a) * radix + HexDigitValue(b)) * radix + HexDigitValue(c)
  {
    assert [a, b, c][..2] == [a, b];
    TwoDigits(a, b, radix);
  }

  /** \dNNN takes three decimal digits; the value is truncated to one byte. */
  lemma DecimalEscape(s: string, j: nat, toMultiByte: nat -> string)
    requires j + 3 < |s| && s[j] == 'd' && IsDigit(s[j + 1]) && IsDigit(s[j + 2]) && IsDigit(s[j + 3])
    ensures EscapeAt(s, j, toMultiByte)
      == (4, [ByteChar(HexDigitValue(s[j + 1]) * 100 + HexDigitValue(s[j + 2]) * 10 + HexDigitValue(s[j + 3]))])
  {
    EscapeAtIsTable(s, j, toMultiByte);
    assert Span(s, j + 1, Decimal, 3) == 3;
    assert s[j + 1..j + 4] == [s[j + 1], s[j + 2], s[j + 3]];
    ThreeDigits(s[j + 1], s[j + 2], s[j + 3], 10);
  }

  /** \u with four hex digits is that UTF-16 code unit in the document's code page. */
  lemma WideEscape(s: string, j: nat, toMultiByte: nat -> string)
    requires j + 4 < |s| && s[j] == 'u'
    requires forall k :: j + 1 <= k <= j + 4 ==> IsHexDigit(s[k])
    ensures EscapeAt(s, j, toMultiByte) == (5, toMultiByte(DigitsValue(s[j + 1..j + 5], 16)))
  {
    EscapeAtIsTable(s, j, toMultiByte);
    assert Span(s, j + 1, Hex, 4) == 4;
  }

  /** \b, \d, \o, \u or \x without a digit of its class: the empty alternative keeps the backslash and the letter stays text. */
  lemma LetterWithoutDigits(s: string, j: nat, toMultiByte: nat -> string)
    requires j < |s| && s[j] in "bdoux"
    requires j + 1 == |s| || !InClass(s[j + 1], NumericKind(s[j]).value.digits)
    ensures EscapeAt(s, j, toMultiByte) == (0, "\\")
  {
    EscapeAtIsTable(s, j, toMultiByte);
  }

  /** A backslash not followed by a recognised escape, or at the very end, is kept. */
  lemma UnrecognisedEscapeKept(s: string, j: nat, toMultiByte: nat -> string)
    requires j >= |s| || s[j] !in "\\0nrtbdoux"
    ensures EscapeAt(s, j, toMultiByte) == (0, "\\")
  {
    EscapeAtIsTable(s, j, toMultiByte);
  }

  /** Each backslash doubled: the extended-mode spelling of a literal text. */
  function QuoteBackslashes(s: string): (q: string)
    ensures |q| >= |s|
  {
    if s == [] then [] else (if s[0] == '\\' then "\\\\" else [s[0]]) + QuoteBackslashes(s[1..])
  }

  lemma {:induction false} QuotePreservesLines(s: string)
    requires NoLineBreak(s)
    ensures NoLineBreak(QuoteBackslashes(s))
  {
    if s != [] {
      QuotePreservesLines(s[1..]);
    }
  }

  /** Expanding from a position where the quoted form of s begins gives s back. */
  lemma {:induction false} ExpandQuotedAt(w: string, i: nat, s: string, toMultiByte: nat -> string)
    requires i <= |w| && w[i..] == QuoteBackslashes(s)
    requires NoLineBreak(s)
    ensures Expand(w, i, toMultiByte) == s
    decreases |s|
  {
    if s == [] {
      assert i == |w|;
      ExpandAtEnd(w, toMultiByte);
    } else if s[0] != '\\' {
      assert w[i] == s[0] && w[i + 1..] == QuoteBackslashes(s[1..]) by {
        assert w[i..] == [s[0]] + QuoteBackslashes(s[1..]);
      }
      PlainCopied(w, i, toMultiByte);
      ExpandQuotedAt(w, i + 1, s[1..], toMultiByte);
      assert s == [s[0]] + s[1..];
    } else {
      assert w[i] == '\\' && w[i + 1] == '\\' && w[i + 2..] == QuoteBackslashes(s[1..]) by {
        assert w[i..] == "\\\\" + QuoteBackslashes(s[1..]);
      }
      QuotePreservesLines(s);
      assert w[i + 1..] == w[i..][1..];
      EscapeExpanded(w, i, toMultiByte);
      assert EscapeAt(w, i + 1, toMultiByte) == (1, "\\");
      ExpandQuotedAt(w, i + 2, s[1..], toMultiByte);
      assert s == "\\" + s[1..];
    }
  }

  /** Doubling every backslash of a one-line text is undone by the expansion. */
  lemma ExpandQuoted(s: string, toMultiByte: nat -> string)
    requires NoLineBreak(s)
    ensures Expand(QuoteBackslashes(s), 0, toMultiByte) == s
  {
    var w := QuoteBackslashes(s);
    assert w[0..] == w;
    ExpandQuotedAt(w, 0, s, toMultiByte);
  }

  /** The dialog's find or replace history. */
  type History = ColumnsPlusPlus.History

  /** updateSearchHistory: an empty string is ignored; otherwise the string is promoted as in updateComboHistory. */
  method UpdateSearchHistory(text: string, history: History)
    modifies history
    ensures |text| == 0 ==> history.items == old(history.items)
    ensures |text| > 0 && old(history.items) != [] && old(history.items)[|old(history.items)| - 1] == text ==>
      history.items == old(history.items)
    ensures |text| > 0 && !(old(history.items) != [] && old(history.items)[|old(history.items)| - 1] == text) ==>
      history.items == ColumnsPlusPlus.RemoveFirst(old(history.items), text) + [text]
  {
    if |text| > 0 {
      history.Promote(text);
    }
  }
}
