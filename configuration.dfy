// Configuration.cpp: the backslash-delimited form in which string settings
// are written to ColumnsPlusPlus.data, the key mapping of the Extensions
// section, and the compatibility test of the file header. Conversion
// between UTF-8 and UTF-16 (toWide/fromWide) is taken to be the identity.
module Configuration {
  import opened Common

  /** The text of one character once escaped: CR, LF and backslash take two characters. */
  function EscapeChar(c: char): string
  {
    if c == '\r' then "\\r"
    else if c == '\n' then "\\n"
    else if c == '\\' then "\\\\"
    else [c]
  }

  /** Every character escaped, in order. */
  function Escape(s: string): string
    decreases |s|
  {
    if s == [] then [] else EscapeChar(s[0]) + Escape(s[1..])
  }

  /** The recognised escapes read back; a backslash before anything else stays as it is. */
  function Unescape(s: string): string
    decreases |s|
  {
    if |s| >= 2 && s[0] == '\\' && s[1] == 'r' then "\r" + Unescape(s[2..])
    else if |s| >= 2 && s[0] == '\\' && s[1] == 'n' then "\n" + Unescape(s[2..])
    else if |s| >= 2 && s[0] == '\\' && s[1] == '\\' then "\\" + Unescape(s[2..])
    else if s == [] then []
    else [s[0]] + Unescape(s[1..])
  }

  /** A string is enclosed in backslashes with at least one character between them. */
  predicate Delimited(value: string)
  {
    |value| > 2 && value[0] == '\\' && value[|value| - 1] == '\\'
  }

  /** Escaping a suffix: the first character's escape, then the rest. */
  lemma EscapeFrom(s: string, i: nat)
    requires i < |s|
    ensures Escape(s[i..]) == EscapeChar(s[i]) + Escape(s[i + 1..])
  {
    assert s[i..][1..] == s[i + 1..];
  }

  /** s.replace(i, n, piece): the n characters at i replaced by piece. */
  function Splice(s: string, i: nat, n: nat, piece: string): (r: string)
    requires i + n <= |s|
    ensures |r| == |s| - n + |piece|
    ensures r[..i + |piece|] == s[..i] + piece
    ensures r[i + |piece|..] == s[i + n..]
  {
    s[..i] + piece + s[i + n..]
  }

  /** encodeDelimitedString: escapes are replaced in place, then the text is wrapped in backslashes. */
  method EncodeDelimitedString(text: string) returns (r: string)
    ensures r == "\\" + Escape(text) + "\\"
  {
    var s := text;
    var i := 0;
    while i < |s|
      invariant 0 <= i <= |s|
      invariant s[..i] + Escape(s[i..]) == Escape(text)
      decreases |s| - i
    {
      EscapeFrom(s, i);
      ghost var done, rest := s[..i], Escape(s[i + 1..]);
      var piece := EscapeChar(s[i]);
      assert done + (piece + rest) == Escape(text);
      if |piece| == 2 {
        s := Splice(s, i, 1, piece);
        i := i + 2;
      } else {
        assert s[..i + 1] == done + piece;
        i := i + 1;
      }
      assert s[..i] == done + piece;
      assert Escape(s[i..]) == rest;
      Associative(done, piece, rest);
    }
    assert s[..i] == s;
    r := "\\" + s + "\\";
  }

  /** Unescaping a suffix that starts with a recognised escape. */
  lemma UnescapeFromEscape(s: string, i: nat)
    requires i + 1 < |s| && s[i] == '\\' && (s[i + 1] == 'r' || s[i + 1] == 'n' || s[i + 1] == '\\')
    ensures Unescape(s[i..]) == [if s[i + 1] == 'r' then '\r' else if s[i + 1] == 'n' then '\n' else '\\'] + Unescape(s[i + 2..])
  {
    assert s[i..][2..] == s[i + 2..];
  }

  /** Unescaping a suffix that does not start with a recognised escape. */
  lemma UnescapeFromPlain(s: string, i: nat)
    requires i < |s|
    requires !(i + 1 < |s| && s[i] == '\\' && (s[i + 1] == 'r' || s[i + 1] == 'n' || s[i + 1] == '\\'))
    ensures Unescape(s[i..]) == [s[i]] + Unescape(s[i + 1..])
  {
    assert s[i..][1..] == s[i + 1..];
  }

  /**
   * decodeDelimitedString: a delimited value has its escapes replaced in
   * place; anything else reads as the empty string.
   */
  method DecodeDelimitedString(value: string) returns (r: string)
    ensures Delimited(value) ==> r == Unescape(value[1..|value| - 1])
    ensures !Delimited(value) ==> r == ""
  {
    if !Delimited(value) {
      return "";
    }
    var s := value[1..|value| - 1];
    ghost var original := s;
    var i := 0;
    while i < |s| - 1
      invariant 0 <= i <= |s|
      invariant s[..i] + Unescape(s[i..]) == Unescape(original)
      decreases |s| - i
    {
      ghost var done := s[..i];
      if s[i] == '\\' && (s[i + 1] == 'r' || s[i + 1] == 'n' || s[i + 1] == '\\') {
        UnescapeFromEscape(s, i);
        var c := if s[i + 1] == 'r' then '\r' else if s[i + 1] == 'n' then '\n' else '\\';
        ghost var rest := Unescape(s[i + 2..]);
        s := Splice(s, i, 2, [c]);
        assert s[..i + 1] == done + [c];
        assert Unescape(s[i + 1..]) == rest;
        Associative(done, [c], rest);
      } else {
        UnescapeFromPlain(s, i);
        ghost var rest := Unescape(s[i + 1..]);
        assert s[..i + 1] == done + [s[i]];
        Associative(done, [s[i]], rest);
      }
      i := i + 1;
    }
    if i < |s| {
      UnescapeFromPlain(s, i);
      assert s[..i] + [s[i]] == s;
    } else {
      assert s[..i] == s;
    }
    r := s;
  }

  lemma {:induction false} UnescapeEscape(s: string)
    ensures Unescape(Escape(s)) == s
    decreases |s|
  {
    if s != [] {
      var rest := Escape(s[1..]);
      UnescapeEscape(s[1..]);
      var e := EscapeChar(s[0]) + rest;
      if s[0] == '\r' || s[0] == '\n' || s[0] == '\\' {
        assert e[2..] == rest;
      } else {
        assert e[1..] == rest;
      }
      assert [s[0]] + s[1..] == s;
    }
  }

  /** Decoding what encoding wrote gives back the original text, the empty string included. */
  lemma DecodeEncode(text: string)
    ensures var e := "\\" + Escape(text) + "\\";
      (Delimited(e) ==> Unescape(e[1..|e| - 1]) == text) && (!Delimited(e) ==> text == "")
  {
    var e := "\\" + Escape(text) + "\\";
    assert e[1..|e| - 1] == Escape(text);
    UnescapeEscape(text);
    if text != [] {
      assert |EscapeChar(text[0])| >= 1;
    }
  }

  /** The encoded form has no raw line breaks, so it fits on one line of the file. */
  lemma {:induction false} EscapeHasNoLineBreak(s: string)
    ensures forall i :: 0 <= i < |Escape(s)| ==> Escape(s)[i] != '\r' && Escape(s)[i] != '\n'
    decreases |s|
  {
    if s != [] {
      EscapeHasNoLineBreak(s[1..]);
      var e := Escape(s);
      assert e == EscapeChar(s[0]) + Escape(s[1..]);
      forall i | 0 <= i < |e|
        ensures e[i] != '\r' && e[i] != '\n'
      {
        if i >= |EscapeChar(s[0])| {
          assert e[i] == Escape(s[1..])[i - |EscapeChar(s[0])|];
        }
      }
    }
  }

  // ---------------------------------------------------------------------
  // The Extensions section: one "extension<TAB>profile" line per map entry.
  // ---------------------------------------------------------------------

  /** Every occurrence of one character replaced by another (std::replace). */
  function ReplaceAll(s: string, from: char, to: char): (r: string)
    ensures |r| == |s|
    ensures forall i :: 0 <= i < |s| ==> r[i] == if s[i] == from then to else s[i]
  {
    if s == [] then [] else [if s[0] == from then to else s[0]] + ReplaceAll(s[1..], from, to)
  }

  /**
   * The map entry read from one line of the section, or None when the
   * line's extension is not recognised and the line is ignored.
   */
  function LoadExtension(extension: string, profile: string): (r: Option<(string, string)>)
  {
    if extension == "new" then Some(("", profile))
    else if extension == "none" then Some((".", profile))
    else if extension == "default" then Some(("*", profile))
    else if |extension| > 1 && extension[0] == '.' then
      Some((ReplaceAll(extension[1..], '.', ' '), if profile == "(disable)" then "" else profile))
    else None
  }

  /** The line written for one map entry. */
  function SaveExtension(key: string, profile: string): (r: (string, string))
  {
    if key == "" then ("new", profile)
    else if key == "." then ("none", profile)
    else if key == "*" then ("default", profile)
    else ("." + ReplaceAll(key, ' ', '.'), if |profile| > 0 then profile else "(disable)")
  }

  /** The reserved names new/none/default and ".a.b" keys read as the design describes. */
  lemma LoadExtensionKeys(name: string, profile: string)
    ensures LoadExtension("new", profile) == Some(("", profile))
    ensures LoadExtension("none", profile) == Some((".", profile))
    ensures LoadExtension("default", profile) == Some(("*", profile))
    ensures LoadExtension(".a.b", profile).Some? && LoadExtension(".a.b", profile).value.0 == "a b"
    ensures LoadExtension(".a.b", "(disable)") == Some(("a b", ""))
  {
    assert ".a.b"[1..] == "a.b";
    assert ReplaceAll("a.b", '.', ' ') == "a b";
  }

  // ---------------------------------------------------------------------
  // The data-line pattern \s*(\S+)\s+(.*\S)\s* that splits every line
  // of a section into a name and a value.
  // ---------------------------------------------------------------------

  /** The characters \s matches on a narrow string: space, TAB, LF, VT, FF and CR. */
  predicate IsBlank(c: char)
  {
    c == ' ' || c == '\t' || c == '\n' || c == '\U{B}' || c == '\U{C}' || c == '\r'
  }

  /** The text after its leading blanks. */
  function SkipBlanks(s: string): (r: string)
    ensures |r| <= |s| && r == s[|s| - |r|..]
    ensures r == [] || !IsBlank(r[0])
    ensures forall i :: 0 <= i < |s| - |r| ==> IsBlank(s[i])
  {
    if s != [] && IsBlank(s[0]) then SkipBlanks(s[1..]) else s
  }

  /** The text without its trailing blanks. */
  function TrimEnd(s: string): (r: string)
    ensures |r| <= |s| && r == s[..|r|]
    ensures r == [] || !IsBlank(r[|r| - 1])
    ensures forall i :: |r| <= i < |s| ==> IsBlank(s[i])
  {
    if s != [] && IsBlank(s[|s| - 1]) then TrimEnd(s[..|s| - 1]) else s
  }

  /** The length of the run of non-blank characters the text begins with. */
  function RunLength(s: string): (r: nat)
    ensures r <= |s|
    ensures forall i :: 0 <= i < r ==> !IsBlank(s[i])
    ensures r < |s| ==> IsBlank(s[r])
  {
    if s != [] && !IsBlank(s[0]) then 1 + RunLength(s[1..]) else 0
  }

  /**
   * The two groups of the data-line pattern, or None when the line does
   * not match it. The first group is the first run of non-blanks; the
   * second is the rest without its surrounding blanks, and `.` does not
   * match CR or LF.
   */
  function ReadDataLine(line: string): (r: Option<(string, string)>)
    ensures r.Some? ==> r.value.0 != [] && forall i :: 0 <= i < |r.value.0| ==> !IsBlank(r.value.0[i])
    ensures r.Some? ==> Trimmed(r.value.1)
  {
    var s := SkipBlanks(line);
    var n := RunLength(s);
    var rest := SkipBlanks(s[n..]);
    var v := TrimEnd(rest);
    if v == [] || !OneLine(v) then None
    else
      DataLineGroups(s, n, rest, v);
      Some((s[..n], v))
  }

  /** The facts about the two groups that ReadDataLine promises. */
  lemma DataLineGroups(s: string, n: nat, rest: string, v: string)
    requires s == [] || !IsBlank(s[0])
    requires n == RunLength(s) && rest == SkipBlanks(s[n..]) && v == TrimEnd(rest)
    requires v != [] && OneLine(v)
    ensures n > 0 && forall i :: 0 <= i < n ==> !IsBlank(s[..n][i])
    ensures Trimmed(v)
  {
    assert s[n..] != [];
    assert rest != [] && v[0] == rest[0];
  }

  /** No CR or LF, which `.` does not match. */
  predicate OneLine(value: string)
  {
    forall i :: 0 <= i < |value| ==> value[i] != '\r' && value[i] != '\n'
  }

  /** A value ready to be the second group: non-empty, no blank at either end, no line break. */
  predicate Trimmed(value: string)
  {
    value != [] && !IsBlank(value[0]) && !IsBlank(value[|value| - 1]) && OneLine(value)
  }

  /** A name, a TAB and a trimmed value split back into the name and the value. */
  lemma ReadDataLineJoin(name: string, value: string)
    requires name != [] && forall i :: 0 <= i < |name| ==> !IsBlank(name[i])
    requires Trimmed(value)
    ensures ReadDataLine(name + "\t" + value) == Some((name, value))
  {
    var line := name + "\t" + value;
    assert line[0] == name[0];
    var s := SkipBlanks(line);
    assert s == line;
    assert line == name + ("\t" + value);
    RunLengthOf(name, "\t" + value);
    var n := RunLength(s);
    assert n == |name|;
    assert s[n..] == "\t" + value;
    SkipBlanksOf("\t", value);
    var v := TrimEnd(SkipBlanks(s[n..]));
    assert v == TrimEnd(value);
    assert TrimEnd(value) == value;
    assert s[..n] == name;
  }

  lemma RunLengthOf(a: string, b: string)
    requires forall i :: 0 <= i < |a| ==> !IsBlank(a[i])
    requires b != [] && IsBlank(b[0])
    ensures RunLength(a + b) == |a|
  {
    if a != [] {
      assert (a + b)[1..] == a[1..] + b;
      RunLengthOf(a[1..], b);
    } else {
      assert a + b == b;
    }
  }

  lemma SkipBlanksOf(a: string, b: string)
    requires forall i :: 0 <= i < |a| ==> IsBlank(a[i])
    requires b != [] && !IsBlank(b[0])
    ensures SkipBlanks(a + b) == b
  {
    if a != [] {
      assert (a + b)[1..] == a[1..] + b;
      SkipBlanksOf(a[1..], b);
    } else {
      assert a + b == b;
    }
  }

  /** The line written to the Extensions section for one map entry. */
  function ExtensionLine(key: string, profile: string): (r: string)
    ensures var e := SaveExtension(key, profile); r == e.0 + "\t" + e.1
  {
    var e := SaveExtension(key, profile);
    e.0 + "\t" + e.1
  }

  /** The keys saved under the names "new", "none" and "default". */
  predicate Reserved(key: string)
  {
    key == "" || key == "." || key == "*"
  }

  predicate NoPeriod(key: string)
  {
    forall i :: 0 <= i < |key| ==> key[i] != '.'
  }

  /** No blank but the space, which is saved as a period. */
  predicate OnlySpaceBlanks(key: string)
  {
    forall i :: 0 <= i < |key| ==> key[i] == ' ' || !IsBlank(key[i])
  }

  /**
   * The name and value of a saved entry load back as the entry, for every
   * key that is reserved or has no period and every profile other than
   * "(disable)", the empty profile included.
   */
  lemma SaveLoadExtensionFields(key: string, profile: string)
    requires Reserved(key) || NoPeriod(key)
    requires profile != "(disable)"
    ensures var e := SaveExtension(key, profile); LoadExtension(e.0, e.1) == Some((key, profile))
  {
    if !Reserved(key) {
      var ext := SaveExtension(key, profile).0;
      assert ext[1..] == ReplaceAll(key, ' ', '.');
      assert ReplaceAll(ext[1..], '.', ' ') == key;
      assert ext != "new" && ext != "none" && ext != "default" by { assert ext[0] == '.'; }
    }
  }

  /**
   * The line saved for a map entry splits into the name and value written,
   * when the key has no blank other than the space, the profile has no
   * blank at either end and no line break, and a reserved key has a
   * non-empty profile (see EmptyReservedProfileLost).
   */
  lemma SavedLineSplits(key: string, profile: string)
    requires Reserved(key) || OnlySpaceBlanks(key)
    requires profile == [] || Trimmed(profile)
    requires Reserved(key) ==> profile != []
    ensures ReadDataLine(ExtensionLine(key, profile)) == Some(SaveExtension(key, profile))
  {
    var e := SaveExtension(key, profile);
    if Reserved(key) {
      assert forall i :: 0 <= i < |e.0| ==> 'a' <= e.0[i] <= 'z';
      ReadDataLineJoin(e.0, profile);
    } else {
      var ext := e.0;
      assert ext[1..] == ReplaceAll(key, ' ', '.');
      if profile == [] {
        DisableTrimmed();
      }
      assert forall i :: 0 <= i < |ext| ==> ext[i] == '.' || !IsBlank(key[i - 1]);
      ReadDataLineJoin(ext, e.1);
    }
  }

  /**
   * The line saved for a map entry, split by the data-line pattern and
   * loaded, gives the entry back. The key is reserved, or has no period
   * and no blank other than the space; the profile is not literally
   * "(disable)" and has no blank at either end and no line break; a
   * reserved key needs a non-empty profile.
   */
  lemma SaveLoadExtension(key: string, profile: string)
    requires Reserved(key) || (NoPeriod(key) && OnlySpaceBlanks(key))
    requires profile != "(disable)"
    requires profile == [] || Trimmed(profile)
    requires Reserved(key) ==> profile != []
    ensures var line := ReadDataLine(ExtensionLine(key, profile));
            line.Some? && LoadExtension(line.value.0, line.value.1) == Some((key, profile))
  {
    SavedLineSplits(key, profile);
    SaveLoadExtensionFields(key, profile);
  }

  lemma DisableTrimmed()
    ensures Trimmed("(disable)")
  {
    var d := "(disable)";
    assert d[0] == '(' && d[|d| - 1] == ')';
    assert forall i :: 0 <= i < |d| ==> 'a' <= d[i] <= 'z' || d[i] == '(' || d[i] == ')';
  }

  /**
   * A reserved key with the empty profile is saved as "new", "none" or
   * "default" and a TAB, which the data-line pattern does not match, so
   * the entry is not read back.
   */
  lemma EmptyReservedProfileLost(key: string)
    requires Reserved(key)
    ensures ReadDataLine(ExtensionLine(key, "")) == None
  {
    var name := SaveExtension(key, "").0;
    assert SaveExtension(key, "").1 == "";
    assert ExtensionLine(key, "") == name + "\t";
    assert |name| >= 3 && forall i :: 0 <= i < |name| ==> 'a' <= name[i] <= 'z';
    EmptyValueLost(name);
  }

  lemma EmptyValueLost(name: string)
    requires name != [] && forall i :: 0 <= i < |name| ==> !IsBlank(name[i])
    ensures ReadDataLine(name + "\t") == None
  {
    var line := name + "\t";
    assert line[0] == name[0];
    var s := SkipBlanks(line);
    assert s == line;
    RunLengthOf(name, "\t");
    var n := RunLength(s);
    assert n == |name|;
    assert s[n..] == "\t";
    var blanks := SkipBlanks(s[n..]);
    assert blanks == SkipBlanks("\t"[1..]);
    assert "\t"[1..] == [];
    assert TrimEnd(blanks) == [];
  }

  // ---------------------------------------------------------------------
  // The header line "Notepad++ Columns++ Configuration <level> <compat>".
  // ---------------------------------------------------------------------

  /** The header regular expression either fails or yields the two numbers. */
  datatype HeaderMatch = NoHeader | Header(level: nat, compat: nat)

  /** The file is read only when the header matched and its compatibility number is at most 2. */
  predicate HeaderAccepted(h: HeaderMatch)
  {
    h.Header? && h.compat <= 2
  }

  /** The header this version writes is accepted; a compatibility number above 2 is rejected. */
  lemma HeaderCompatibility(h: HeaderMatch)
    ensures HeaderAccepted(Header(2, 1))
    ensures h.Header? && h.compat > 2 ==> !HeaderAccepted(h)
    ensures h.NoHeader? ==> !HeaderAccepted(h)
  {
  }
}
