/**
 * The generator of the Unicode character table (BuildUnicodeTables.py).
 *
 * The script reads CaseFolding.txt, GraphemeBreakProperty.txt,
 * DerivedCoreProperties.txt (InCB) and emoji-data.txt into maps and sets, then
 * makes one pass over UnicodeData.txt appending one table entry per code
 * point: unlisted code points become zero-filled lines, a `<..., Last>` line
 * stands for every code point since the previous line, and the unassigned
 * stretch [ExcludeFrom, ExcludeTo) is left out of the table altogether.
 *
 * Files are taken as sequences of lines already split into fields (or, for
 * the three property files, already matched by their patterns); the text of
 * the emitted rows is abstracted into the Row datatype.
 */
module UnicodeTables {
  import opened Common

  const ExcludeFrom: int := 0x33480
  const ExcludeTo: int := 0xE0000
  const ZoneWidth: int := ExcludeTo - ExcludeFrom
  const StopAt: int := 0xF0000
  /** The starting value of firstGraphBreakComplex, above every code point. */
  const NoComplexBreak: int := 0x200000
  /** Zeros written per line of a gap. */
  const ZerosPerLine: nat := 40

  /**
   * One element appended to codeCategory: the entry of one code point (its
   * category name and the tags or-ed onto it), or a block of `lines` text
   * lines holding `width` zeros each.
   */
  datatype Row =
    | Entry(codept: int, category: string, graphBreak: Option<string>, indicBreak: Option<string>,
            fold: bool, lower: bool, upper: bool, pictographic: bool)
    | Zeros(lines: nat, width: nat)

  /** A row of caseLower or caseUpper: the code point and the hexadecimal text of its mapping. */
  datatype CaseRow = CaseRow(codept: int, mapping: string)

  /** A row of caseFold: the hexadecimal texts of the code point and of its fold. */
  datatype FoldRow = FoldRow(code: string, mapping: string)

  /** A property-file line its pattern matched: first code point, optional last one, and the property. */
  datatype RangeLine = RangeLine(first: nat, last: Option<nat>, property: string)

  /** A UnicodeData.txt line split on ';', with the value of its first field read as hexadecimal. */
  datatype DataLine = DataLine(codept: nat, fields: seq<string>)

  // ---------------------------------------------------------------- fields

  predicate IsHex(s: string)
  {
    |s| > 0 && forall k :: 0 <= k < |s| ==> IsHexDigit(s[k])
  }

  /** str.find(sub) >= 0 */
  predicate Contains(s: string, sub: string)
  {
    |s| >= |sub| && (s[..|sub|] == sub || Contains(s[1..], sub))
  }

  /** A `<..., Last>` line closes a range of code points. */
  predicate ClosesRange(fields: seq<string>)
    requires |fields| >= 2
  {
    Contains(fields[1], ", Last>")
  }

  function Lookup(m: map<int, string>, k: int): (r: Option<string>)
    ensures r.Some? <==> k in m
    ensures r.Some? ==> r.value == m[k]
  {
    if k in m then Some(m[k]) else None
  }

  /** The entry codeEntry appends for codept, given the property maps and sets loaded so far. */
  function EntryFor(codept: int, fields: seq<string>, graph: map<int, string>, indic: map<int, string>,
                    folds: set<int>, pict: set<int>): Row
    requires |fields| >= 14
  {
    Entry(codept, fields[2], Lookup(graph, codept), Lookup(indic, codept),
          codept in folds, fields[13] != "", fields[12] != "", codept in pict)
  }

  /** The case rows for the code points lo, ..., hi - 1 that all share the mapping text (none if it is empty). */
  function CaseRows(lo: int, hi: int, mapping: string): seq<CaseRow>
  {
    if mapping == "" || hi <= lo then [] else seq(hi - lo, k => CaseRow(lo + k, mapping))
  }

  /** One row per code point of [lo, hi) when the mapping text is not empty, none otherwise. */
  lemma CaseRowsAt(lo: int, hi: int, mapping: string)
    ensures mapping == "" ==> CaseRows(lo, hi, mapping) == []
    ensures mapping != "" ==> |CaseRows(lo, hi, mapping)| == (if hi > lo then hi - lo else 0)
    ensures forall k :: 0 <= k < |CaseRows(lo, hi, mapping)| ==> CaseRows(lo, hi, mapping)[k] == CaseRow(lo + k, mapping)
  {
  }

  /** codeEntry appends a lower row exactly when field 13 is not empty, and an upper row exactly when field 12 is not. */
  lemma CaseRowsOnlyWithMapping(codept: int, fields: seq<string>, graph: map<int, string>,
                                indic: map<int, string>, folds: set<int>, pict: set<int>)
    requires |fields| >= 14
    ensures CaseRows(codept, codept + 1, fields[13]) != [] <==> fields[13] != ""
    ensures CaseRows(codept, codept + 1, fields[12]) != [] <==> fields[12] != ""
    ensures EntryFor(codept, fields, graph, indic, folds, pict).lower <==> fields[13] != ""
    ensures EntryFor(codept, fields, graph, indic, folds, pict).upper <==> fields[12] != ""
    ensures CaseRows(codept, codept + 1, fields[13]) != [] ==>
              CaseRows(codept, codept + 1, fields[13]) == [CaseRow(codept, fields[13])]
  {
  }

  lemma CaseRowsSplit(lo: int, mid: int, hi: int, mapping: string)
    requires lo <= mid <= hi
    ensures CaseRows(lo, hi, mapping) == CaseRows(lo, mid, mapping) + CaseRows(mid, hi, mapping)
  {
    var r := CaseRows(lo, hi, mapping);
    var a := CaseRows(lo, mid, mapping);
    var b := CaseRows(mid, hi, mapping);
    CaseRowsAt(lo, hi, mapping);
    CaseRowsAt(lo, mid, mapping);
    CaseRowsAt(mid, hi, mapping);
    assert |r| == |a| + |b|;
    forall k | 0 <= k < |r|
      ensures r[k] == (a + b)[k]
    {
      if k >= |a| {
        assert (a + b)[k] == b[k - |a|];
      }
    }
  }

  // ---------------------------------------------------------------- case folding

  /** line[0:1] == "#": since ';' follows no '#', the line starts with '#' iff its first field does. */
  predicate IsComment(fields: seq<string>)
  {
    |fields| > 0 && |fields[0]| > 0 && fields[0][0] == '#'
  }

  /** A CaseFolding.txt line (split on "; ") whose fold is recorded: not a comment, three fields, status C or S. */
  predicate FoldSelected(fields: seq<string>)
  {
    !IsComment(fields) && |fields| >= 3 && (fields[1] == "C" || fields[1] == "S")
  }

  /** int(fields[0], 16) only has to succeed on the lines that get that far. */
  predicate FoldLineReadable(fields: seq<string>)
  {
    FoldSelected(fields) ==> IsHex(fields[0])
  }

  /** The caseFold rows of a CaseFolding.txt file, in file order. */
  function FoldRows(lines: seq<seq<string>>): seq<FoldRow>
  {
    if lines == [] then []
    else
      var f := lines[|lines| - 1];
      FoldRows(lines[..|lines| - 1]) + (if FoldSelected(f) then [FoldRow(f[0], f[2])] else [])
  }

  /** The code points a CaseFolding.txt file adds to foldPoints. */
  function FoldCodes(lines: seq<seq<string>>): set<int>
  {
    set k | 0 <= k < |lines| && FoldSelected(lines[k]) :: DigitsValue(lines[k][0], 16)
  }

  /** Every caseFold row comes from a line with status C or S, and every such line gives one, in order. */
  lemma {:induction false} FoldRowsSelected(lines: seq<seq<string>>)
    ensures |FoldRows(lines)| <= |lines|
    ensures forall r :: r in FoldRows(lines) ==>
              exists k :: 0 <= k < |lines| && FoldSelected(lines[k]) && r == FoldRow(lines[k][0], lines[k][2])
    ensures forall k :: 0 <= k < |lines| && FoldSelected(lines[k]) ==>
              FoldRow(lines[k][0], lines[k][2]) in FoldRows(lines)
  {
    if lines != [] {
      var init := lines[..|lines| - 1];
      FoldRowsSelected(init);
      forall k | 0 <= k < |init| && FoldSelected(init[k])
        ensures FoldRow(lines[k][0], lines[k][2]) in FoldRows(lines)
      {
        assert lines[k] == init[k];
      }
      forall r | r in FoldRows(lines)
        ensures exists k :: 0 <= k < |lines| && FoldSelected(lines[k]) && r == FoldRow(lines[k][0], lines[k][2])
      {
        if r in FoldRows(init) {
          var k :| 0 <= k < |init| && FoldSelected(init[k]) && r == FoldRow(init[k][0], init[k][2]);
          assert lines[k] == init[k];
        } else {
          assert FoldSelected(lines[|lines| - 1]);
        }
      }
    }
  }

  lemma FoldCodesStep(lines: seq<seq<string>>, i: nat)
    requires i < |lines|
    ensures FoldCodes(lines[..i + 1]) ==
              FoldCodes(lines[..i]) + (if FoldSelected(lines[i]) then {DigitsValue(lines[i][0], 16)} else {})
  {
    var a := lines[..i];
    var b := lines[..i + 1];
    forall x | x in FoldCodes(b)
      ensures x in FoldCodes(a) + (if FoldSelected(lines[i]) then {DigitsValue(lines[i][0], 16)} else {})
    {
      var k :| 0 <= k < |b| && FoldSelected(b[k]) && x == DigitsValue(b[k][0], 16);
      if k < i {
        assert b[k] == a[k];
      }
    }
    forall x | x in FoldCodes(a)
      ensures x in FoldCodes(b)
    {
      var k :| 0 <= k < |a| && FoldSelected(a[k]) && x == DigitsValue(a[k][0], 16);
      assert b[k] == a[k];
    }
    if FoldSelected(lines[i]) {
      assert b[i] == lines[i];
    }
  }

  // ---------------------------------------------------------------- property ranges

  /** The last code point of a matched line: the first one when no `..` part is given. */
  function RangeEnd(r: RangeLine): nat
  {
    if r.last.None? then r.first else r.last.value
  }

  /** range(lo, hi + 1) as a set */
  function Span(lo: int, hi: int): set<int>
    decreases hi - lo
  {
    if hi < lo then {} else Span(lo, hi - 1) + {hi}
  }

  lemma {:induction false} SpanMeaning(lo: int, hi: int, c: int)
    ensures c in Span(lo, hi) <==> lo <= c <= hi
    decreases hi - lo
  {
    if lo <= hi {
      SpanMeaning(lo, hi - 1, c);
    }
  }

  /** m with every key of [lo, hi] set to v. */
  function Spread(m: map<int, string>, lo: int, hi: int, v: string): map<int, string>
  {
    map k | k in m.Keys + Span(lo, hi) :: if k in Span(lo, hi) then v else m[k]
  }

  lemma SpreadEmpty(m: map<int, string>, lo: int, hi: int, v: string)
    requires hi < lo
    ensures Spread(m, lo, hi, v) == m
  {
    assert Span(lo, hi) == {};
  }

  lemma SpreadStep(m: map<int, string>, lo: int, hi: int, v: string)
    requires lo <= hi + 1
    ensures Spread(m, lo, hi, v)[hi + 1 := v] == Spread(m, lo, hi + 1, v)
  {
    assert Span(lo, hi + 1) == Span(lo, hi) + {hi + 1};
  }

  /** The value Spread gives a key: v inside the range, the old value outside. */
  lemma SpreadAt(m: map<int, string>, lo: int, hi: int, v: string, c: int)
    ensures c in Spread(m, lo, hi, v) <==> c in m || lo <= c <= hi
    ensures lo <= c <= hi ==> Spread(m, lo, hi, v)[c] == v
    ensures !(lo <= c <= hi) && c in m ==> Spread(m, lo, hi, v)[c] == m[c]
  {
    SpanMeaning(lo, hi, c);
  }

  /** A map after the matched lines of a property file, each setting its whole range, later lines winning. */
  function Assigned(m: map<int, string>, lines: seq<Option<RangeLine>>): map<int, string>
  {
    if lines == [] then m
    else
      var before := Assigned(m, lines[..|lines| - 1]);
      var l := lines[|lines| - 1];
      if l.None? then before else Spread(before, l.value.first, RangeEnd(l.value), l.value.property)
  }

  /** Whether line k of a property file matched and its range (both ends included) holds c. */
  predicate Covers(lines: seq<Option<RangeLine>>, k: int, c: int)
    requires 0 <= k < |lines|
  {
    lines[k].Some? && lines[k].value.first <= c <= RangeEnd(lines[k].value)
  }

  /**
   * Property ranges are inclusive and later lines win: c has a property
   * after loading iff it had one or some range holds it, and then it is the
   * property of the last line whose range holds c.
   */
  lemma {:induction false} AssignedMeaning(m: map<int, string>, lines: seq<Option<RangeLine>>, c: int)
    ensures c in Assigned(m, lines) <==> c in m || exists k :: 0 <= k < |lines| && Covers(lines, k, c)
    ensures (forall k :: 0 <= k < |lines| ==> !Covers(lines, k, c)) && c in m ==> Assigned(m, lines)[c] == m[c]
    ensures forall k :: 0 <= k < |lines| && Covers(lines, k, c) &&
                        (forall j :: k < j < |lines| ==> !Covers(lines, j, c)) ==>
              Assigned(m, lines)[c] == lines[k].value.property
  {
    if lines != [] {
      var n := |lines| - 1;
      var init := lines[..n];
      AssignedMeaning(m, init, c);
      assert forall k :: 0 <= k < n ==> (Covers(init, k, c) <==> Covers(lines, k, c));
      if lines[n].Some? {
        SpreadAt(Assigned(m, init), lines[n].value.first, RangeEnd(lines[n].value), lines[n].value.property, c);
      }
      if !Covers(lines, n, c) {
        forall k | 0 <= k < |lines| && Covers(lines, k, c) && (forall j :: k < j < |lines| ==> !Covers(lines, j, c))
          ensures Assigned(m, lines)[c] == lines[k].value.property
        {
          assert k < n && Covers(init, k, c);
          assert forall j :: k < j < |init| ==> !Covers(init, j, c);
        }
      }
    }
  }

  /** A set after the matched lines of a property file, each adding its whole range. */
  function Marked(s: set<int>, lines: seq<Option<RangeLine>>): set<int>
  {
    if lines == [] then s
    else
      var before := Marked(s, lines[..|lines| - 1]);
      var l := lines[|lines| - 1];
      if l.None? then before else before + Span(l.value.first, RangeEnd(l.value))
  }

  /** c is marked iff it was already or some matched range holds it. */
  lemma {:induction false} MarkedMeaning(s: set<int>, lines: seq<Option<RangeLine>>, c: int)
    ensures c in Marked(s, lines) <==> c in s || exists k :: 0 <= k < |lines| && Covers(lines, k, c)
  {
    if lines != [] {
      var n := |lines| - 1;
      var init := lines[..n];
      MarkedMeaning(s, init, c);
      assert forall k :: 0 <= k < n ==> (Covers(init, k, c) <==> Covers(lines, k, c));
      if lines[n].Some? {
        SpanMeaning(lines[n].value.first, RangeEnd(lines[n].value), c);
      }
      if c in Marked(s, lines) && c !in s && c !in Marked(s, init) {
        assert Covers(lines, n, c);
      }
      if exists k :: 0 <= k < |lines| && Covers(lines, k, c) {
        var k :| 0 <= k < |lines| && Covers(lines, k, c);
        if k < n {
          assert Covers(init, k, c);
        }
      }
    }
  }

  /** A grapheme-break class that can start a cluster boundary other than the control ones. */
  predicate IsComplexBreak(property: string)
  {
    property != "Control" && property != "CR" && property != "LF"
  }

  /** firstGraphBreakComplex after the matched lines of GraphemeBreakProperty.txt. */
  function ComplexStart(x: int, lines: seq<Option<RangeLine>>): int
  {
    if lines == [] then x
    else
      var before := ComplexStart(x, lines[..|lines| - 1]);
      var l := lines[|lines| - 1];
      if l.Some? && before > l.value.first && IsComplexBreak(l.value.property) then l.value.first else before
  }

  /** firstGraphBreakComplex is the least of its starting value and the first code points of the complex ranges. */
  lemma {:induction false} ComplexStartIsMinimum(x: int, lines: seq<Option<RangeLine>>)
    ensures ComplexStart(x, lines) <= x
    ensures forall k :: 0 <= k < |lines| && lines[k].Some? && IsComplexBreak(lines[k].value.property) ==>
              ComplexStart(x, lines) <= lines[k].value.first
    ensures ComplexStart(x, lines) == x ||
            exists k :: 0 <= k < |lines| && lines[k].Some? && IsComplexBreak(lines[k].value.property) &&
                        ComplexStart(x, lines) == lines[k].value.first
  {
    if lines != [] {
      var n := |lines| - 1;
      var init := lines[..n];
      ComplexStartIsMinimum(x, init);
      assert forall k :: 0 <= k < n ==> lines[k] == init[k];
      if ComplexStart(x, lines) != ComplexStart(x, init) {
        assert lines[n].Some? && IsComplexBreak(lines[n].value.property);
      }
    }
  }

  // ---------------------------------------------------------------- UnicodeData rows

  /** The entries of codeEntry(i, fields) for i in range(lo, hi). */
  function Entries(lo: int, hi: int, fields: seq<string>, graph: map<int, string>, indic: map<int, string>,
                   folds: set<int>, pict: set<int>): seq<Row>
    requires |fields| >= 14
  {
    if hi <= lo then [] else seq(hi - lo, k => EntryFor(lo + k, fields, graph, indic, folds, pict))
  }

  /** The entries of a range are those of its code points in order. */
  lemma EntriesAt(lo: int, hi: int, fields: seq<string>, graph: map<int, string>, indic: map<int, string>,
                  folds: set<int>, pict: set<int>)
    requires |fields| >= 14
    ensures |Entries(lo, hi, fields, graph, indic, folds, pict)| == (if hi > lo then hi - lo else 0)
    ensures forall k :: 0 <= k < |Entries(lo, hi, fields, graph, indic, folds, pict)| ==>
              Entries(lo, hi, fields, graph, indic, folds, pict)[k] == EntryFor(lo + k, fields, graph, indic, folds, pict)
  {
  }

  lemma EntriesStep(lo: int, hi: int, fields: seq<string>, graph: map<int, string>, indic: map<int, string>,
                    folds: set<int>, pict: set<int>)
    requires |fields| >= 14 && lo <= hi
    ensures Entries(lo, hi + 1, fields, graph, indic, folds, pict) ==
              Entries(lo, hi, fields, graph, indic, folds, pict) + [EntryFor(hi, fields, graph, indic, folds, pict)]
  {
    var a := Entries(lo, hi, fields, graph, indic, folds, pict);
    var b := Entries(lo, hi + 1, fields, graph, indic, folds, pict);
    EntriesAt(lo, hi, fields, graph, indic, folds, pict);
    EntriesAt(lo, hi + 1, fields, graph, indic, folds, pict);
    assert |b| == |a| + 1;
    forall k | 0 <= k < |b|
      ensures b[k] == (a + [EntryFor(hi, fields, graph, indic, folds, pict)])[k]
    {
    }
  }

  /** The zero-filled rows for a gap of reps code points: reps div 40 full lines, then reps mod 40 zeros. */
  function GapRows(reps: int): seq<Row>
  {
    (if reps / ZerosPerLine > 0 then [Zeros(reps / ZerosPerLine, ZerosPerLine)] else []) +
    (if reps % ZerosPerLine > 0 then [Zeros(1, reps % ZerosPerLine)] else [])
  }

  /** The gap count: the unlisted code points between last and codept, less the zone if the gap crosses it. */
  function GapCount(last: int, codept: int): int
  {
    if codept >= ExcludeFrom && last <= ExcludeFrom then codept - last - 1 - (ExcludeTo - ExcludeFrom)
    else codept - last - 1
  }

  /** Whether the line reports "Code point ... within exclusion zone". */
  predicate ZoneError(last: int, codept: int, fields: seq<string>)
    requires |fields| >= 14
  {
    if ClosesRange(fields) then codept >= ExcludeFrom && last < ExcludeFrom
    else last + 1 != codept && codept >= ExcludeFrom && last <= ExcludeFrom && codept < ExcludeTo
  }

  /** The rows the main loop appends for one line below stopAt, the previous code point being last. */
  function LineRows(last: int, codept: int, fields: seq<string>, graph: map<int, string>, indic: map<int, string>,
                    folds: set<int>, pict: set<int>): seq<Row>
    requires |fields| >= 14
  {
    LeadRows(last, codept, fields, graph, indic, folds, pict) + [EntryFor(codept, fields, graph, indic, folds, pict)]
  }

  /** The first code point a line gives case rows to: last + 1 for a range, else the line's own. */
  function FirstCovered(last: int, codept: int, fields: seq<string>): int
    requires |fields| >= 2
  {
    if ClosesRange(fields) && last + 1 < codept then last + 1 else codept
  }

  /** The case rows of one line: those of a range up to codept, then that of codept itself. */
  lemma CaseRowsFrom(last: int, codept: int, fields: seq<string>, n: nat)
    requires |fields| >= 14 && n < |fields|
    ensures (if ClosesRange(fields) then CaseRows(last + 1, codept, fields[n]) else []) +
              CaseRows(codept, codept + 1, fields[n]) ==
            CaseRows(FirstCovered(last, codept, fields), codept + 1, fields[n])
  {
    if ClosesRange(fields) && last + 1 < codept {
      CaseRowsSplit(last + 1, codept, codept + 1, fields[n]);
    }
  }

  /** The last code point the main loop handles: the one of the last line before the first at or above stopAt. */
  function LastBeforeStop(last: int, lines: seq<DataLine>): int
    decreases |lines|
  {
    if lines == [] || lines[0].codept >= StopAt then last else LastBeforeStop(lines[0].codept, lines[1..])
  }

  /** unicode_last_codept is the code point of the line just before the first line at or above stopAt (or of the final line). */
  lemma {:induction false} LastBeforeStopIs(last: int, lines: seq<DataLine>, k: nat)
    requires k <= |lines|
    requires forall j :: 0 <= j < k ==> lines[j].codept < StopAt
    requires k == |lines| || lines[k].codept >= StopAt
    ensures LastBeforeStop(last, lines) == if k == 0 then last else lines[k - 1].codept
    decreases k
  {
    if k > 0 {
      LastBeforeStopIs(lines[0].codept, lines[1..], k - 1);
    }
  }

  /** Every line of UnicodeData.txt has the fifteen fields of the format (fields 0 to 13 are read). */
  predicate DataReadable(lines: seq<DataLine>)
  {
    forall k :: 0 <= k < |lines| ==> |lines[k].fields| >= 14
  }

  lemma DataReadableTail(lines: seq<DataLine>)
    requires DataReadable(lines) && lines != []
    ensures DataReadable(lines[1..]) && |lines[0].fields| >= 14
  {
    forall k | 0 <= k < |lines[1..]|
      ensures |lines[1..][k].fields| >= 14
    {
      assert lines[1..][k] == lines[k + 1];
    }
  }

  /** The rows the main loop appends for the whole file: those of each line up to the first at or above stopAt. */
  function DataRows(last: int, lines: seq<DataLine>, graph: map<int, string>, indic: map<int, string>,
                    folds: set<int>, pict: set<int>): seq<Row>
    requires DataReadable(lines)
    decreases |lines|
  {
    if lines == [] || lines[0].codept >= StopAt then []
    else
      DataReadableTail(lines);
      LineRows(last, lines[0].codept, lines[0].fields, graph, indic, folds, pict) +
      DataRows(lines[0].codept, lines[1..], graph, indic, folds, pict)
  }

  /** The case rows the main loop appends for the whole file from field n: 13 for caseLower, 12 for caseUpper. */
  function DataCaseRows(last: int, lines: seq<DataLine>, n: nat): seq<CaseRow>
    requires DataReadable(lines) && n < 14
    decreases |lines|
  {
    if lines == [] || lines[0].codept >= StopAt then []
    else
      DataReadableTail(lines);
      CaseRows(FirstCovered(last, lines[0].codept, lines[0].fields), lines[0].codept + 1, lines[0].fields[n]) +
      DataCaseRows(lines[0].codept, lines[1..], n)
  }

  /** The code points the main loop reports as lying within the exclusion zone, in order. */
  function DataZoneErrors(last: int, lines: seq<DataLine>): seq<int>
    requires DataReadable(lines)
    decreases |lines|
  {
    if lines == [] || lines[0].codept >= StopAt then []
    else
      DataReadableTail(lines);
      (if ZoneError(last, lines[0].codept, lines[0].fields) then [lines[0].codept] else []) +
      DataZoneErrors(lines[0].codept, lines[1..])
  }

  /** A file whose lines all fit after a code point outside the zone reports no zone error. */
  lemma {:induction false} FittingDataNoErrors(last: int, lines: seq<DataLine>)
    requires DataReadable(lines) && !InZone(last) && DataFits(last, lines)
    ensures DataZoneErrors(last, lines) == []
    decreases |lines|
  {
    if lines != [] && lines[0].codept < StopAt {
      DataReadableTail(lines);
      FittingLineNoError(last, lines[0].codept, lines[0].fields);
      FittingDataNoErrors(lines[0].codept, lines[1..]);
    }
  }

  /** Every case row of the file carries a mapping: an empty field 13 or 12 gives none. */
  lemma {:induction false} DataCaseRowsMapped(last: int, lines: seq<DataLine>, n: nat)
    requires DataReadable(lines) && n < 14
    ensures forall i :: 0 <= i < |DataCaseRows(last, lines, n)| ==> DataCaseRows(last, lines, n)[i].mapping != ""
    decreases |lines|
  {
    if lines != [] && lines[0].codept < StopAt {
      DataReadableTail(lines);
      var head: seq<CaseRow> := CaseRows(FirstCovered(last, lines[0].codept, lines[0].fields), lines[0].codept + 1, lines[0].fields[n]);
      var tail: seq<CaseRow> := DataCaseRows(lines[0].codept, lines[1..], n);
      CaseRowsAt(FirstCovered(last, lines[0].codept, lines[0].fields), lines[0].codept + 1, lines[0].fields[n]);
      DataCaseRowsMapped(lines[0].codept, lines[1..], n);
      assert DataCaseRows(last, lines, n) == head + tail;
      forall i | 0 <= i < |head + tail|
        ensures (head + tail)[i].mapping != ""
      {
        if i >= |head| {
          assert (head + tail)[i] == tail[i - |head|];
        }
      }
    }
  }

  /** Holds when no line before k is at or above stopAt, so the main loop reaches line k. */
  predicate Reached(lines: seq<DataLine>, k: nat)
  {
    k < |lines| && forall j :: 0 <= j <= k ==> lines[j].codept < StopAt
  }

  lemma ReachedTail(lines: seq<DataLine>, k: nat)
    requires Reached(lines, k + 1)
    ensures Reached(lines[1..], k) && lines[1..][k] == lines[k + 1]
  {
    forall j | 0 <= j <= k
      ensures lines[1..][j].codept < StopAt
    {
      assert lines[1..][j] == lines[j + 1];
    }
  }

  /** A line the loop reaches gets a row of its own code point from field n exactly when that field is not empty. */
  lemma {:induction false} DataCaseRowsOwn(last: int, lines: seq<DataLine>, n: nat, k: nat)
    requires DataReadable(lines) && n < 14 && Reached(lines, k)
    ensures CaseRow(lines[k].codept, lines[k].fields[n]) in DataCaseRows(last, lines, n) <==> lines[k].fields[n] != ""
    decreases k
  {
    DataCaseRowsMapped(last, lines, n);
    DataReadableTail(lines);
    var lo := FirstCovered(last, lines[0].codept, lines[0].fields);
    var head := CaseRows(lo, lines[0].codept + 1, lines[0].fields[n]);
    var tail := DataCaseRows(lines[0].codept, lines[1..], n);
    assert DataCaseRows(last, lines, n) == head + tail;
    if lines[k].fields[n] != "" {
      if k == 0 {
        CaseRowsAt(lo, lines[0].codept + 1, lines[0].fields[n]);
        assert head[lines[0].codept - lo] == CaseRow(lines[0].codept, lines[0].fields[n]);
      } else {
        ReachedTail(lines, k - 1);
        DataCaseRowsOwn(lines[0].codept, lines[1..], n, k - 1);
      }
    }
  }

  /** A line the loop reaches has its own entry in the table, built from its fields. */
  lemma {:induction false} DataRowsOwn(last: int, lines: seq<DataLine>, graph: map<int, string>, indic: map<int, string>,
                                       folds: set<int>, pict: set<int>, k: nat)
    requires DataReadable(lines) && Reached(lines, k)
    ensures EntryFor(lines[k].codept, lines[k].fields, graph, indic, folds, pict) in
              DataRows(last, lines, graph, indic, folds, pict)
    decreases k
  {
    DataReadableTail(lines);
    var head := LineRows(last, lines[0].codept, lines[0].fields, graph, indic, folds, pict);
    var tail := DataRows(lines[0].codept, lines[1..], graph, indic, folds, pict);
    assert DataRows(last, lines, graph, indic, folds, pict) == head + tail;
    if k == 0 {
      assert head[|head| - 1] == EntryFor(lines[0].codept, lines[0].fields, graph, indic, folds, pict);
    } else {
      ReachedTail(lines, k - 1);
      DataRowsOwn(lines[0].codept, lines[1..], graph, indic, folds, pict, k - 1);
    }
  }

  /** The whole-file functions from line j on, when the loop handles line j: that line's part, then the rest. */
  lemma DataStep(last: int, lines: seq<DataLine>, j: nat, graph: map<int, string>, indic: map<int, string>,
                 folds: set<int>, pict: set<int>)
    requires j < |lines| && DataReadable(lines[j..]) && lines[j].codept < StopAt
    ensures |lines[j].fields| >= 14 && DataReadable(lines[j + 1..])
    ensures DataRows(last, lines[j..], graph, indic, folds, pict) ==
              LineRows(last, lines[j].codept, lines[j].fields, graph, indic, folds, pict) +
              DataRows(lines[j].codept, lines[j + 1..], graph, indic, folds, pict)
    ensures DataCaseRows(last, lines[j..], 13) ==
              CaseRows(FirstCovered(last, lines[j].codept, lines[j].fields), lines[j].codept + 1, lines[j].fields[13]) +
              DataCaseRows(lines[j].codept, lines[j + 1..], 13)
    ensures DataCaseRows(last, lines[j..], 12) ==
              CaseRows(FirstCovered(last, lines[j].codept, lines[j].fields), lines[j].codept + 1, lines[j].fields[12]) +
              DataCaseRows(lines[j].codept, lines[j + 1..], 12)
    ensures DataZoneErrors(last, lines[j..]) ==
              (if ZoneError(last, lines[j].codept, lines[j].fields) then [lines[j].codept] else []) +
              DataZoneErrors(lines[j].codept, lines[j + 1..])
  {
    var t := lines[j..];
    assert t[0] == lines[j];
    assert t[1..] == lines[j + 1..];
    DataReadableTail(t);
  }

  /**
   * The invariant of the UnicodeData pass: what the lines rest still append,
   * after what the output holds now, is the output of the whole file.
   */
  predicate Accounted(all: Emitted, now: Emitted, rest: seq<DataLine>, graph: map<int, string>, indic: map<int, string>,
                      folds: set<int>, pict: set<int>)
    requires DataReadable(rest)
  {
    all.codeCategory == now.codeCategory + DataRows(now.last, rest, graph, indic, folds, pict)
    && all.caseLower == now.caseLower + DataCaseRows(now.last, rest, 13)
    && all.caseUpper == now.caseUpper + DataCaseRows(now.last, rest, 12)
    && all.zoneErrors == now.zoneErrors + DataZoneErrors(now.last, rest)
  }

  /** Handling line j as DataLineStep does keeps the invariant, with the lines after j still to come. */
  lemma DataAccounted(lines: seq<DataLine>, j: nat, previous: int, codept: int, fields: seq<string>,
                      graph: map<int, string>, indic: map<int, string>, folds: set<int>, pict: set<int>,
                      all: Emitted, now: Emitted, next: Emitted)
    requires j < |lines| && DataReadable(lines[j..]) && codept < StopAt && |fields| >= 14
    requires codept == lines[j].codept && fields == lines[j].fields && previous == now.last
    requires Accounted(all, now, lines[j..], graph, indic, folds, pict)
    requires next.codeCategory == now.codeCategory + LineRows(previous, codept, fields, graph, indic, folds, pict)
    requires next.caseLower == now.caseLower + CaseRows(FirstCovered(previous, codept, fields), codept + 1, fields[13])
    requires next.caseUpper == now.caseUpper + CaseRows(FirstCovered(previous, codept, fields), codept + 1, fields[12])
    requires next.zoneErrors == now.zoneErrors + (if ZoneError(previous, codept, fields) then [codept] else [])
    requires next.last == codept
    ensures DataReadable(lines[j + 1..])
    ensures Accounted(all, next, lines[j + 1..], graph, indic, folds, pict)
  {
    DataStep(previous, lines, j, graph, indic, folds, pict);
    Regrouped(all.codeCategory, now.codeCategory, DataRows(previous, lines[j..], graph, indic, folds, pict),
              LineRows(previous, codept, fields, graph, indic, folds, pict),
              DataRows(codept, lines[j + 1..], graph, indic, folds, pict), next.codeCategory);
    Regrouped(all.caseLower, now.caseLower, DataCaseRows(previous, lines[j..], 13),
              CaseRows(FirstCovered(previous, codept, fields), codept + 1, fields[13]),
              DataCaseRows(codept, lines[j + 1..], 13), next.caseLower);
    Regrouped(all.caseUpper, now.caseUpper, DataCaseRows(previous, lines[j..], 12),
              CaseRows(FirstCovered(previous, codept, fields), codept + 1, fields[12]),
              DataCaseRows(codept, lines[j + 1..], 12), next.caseUpper);
    Regrouped(all.zoneErrors, now.zoneErrors, DataZoneErrors(previous, lines[j..]),
              if ZoneError(previous, codept, fields) then [codept] else [],
              DataZoneErrors(codept, lines[j + 1..]), next.zoneErrors);
  }

  /** Once nothing is left to come, the output is that of the whole file. */
  lemma DataFinished(lines: seq<DataLine>, j: nat, graph: map<int, string>, indic: map<int, string>,
                     folds: set<int>, pict: set<int>, all: Emitted, now: Emitted)
    requires j <= |lines| && DataReadable(lines[j..]) && (j == |lines| || lines[j].codept >= StopAt)
    requires Accounted(all, now, lines[j..], graph, indic, folds, pict)
    ensures now.codeCategory == all.codeCategory && now.caseLower == all.caseLower
    ensures now.caseUpper == all.caseUpper && now.zoneErrors == all.zoneErrors
  {
    DataEnd(now.last, lines, j, graph, indic, folds, pict);
  }

  /** Nothing is appended once the lines run out or reach stopAt. */
  lemma DataEnd(last: int, lines: seq<DataLine>, j: nat, graph: map<int, string>, indic: map<int, string>,
                folds: set<int>, pict: set<int>)
    requires j <= |lines| && DataReadable(lines[j..]) && (j == |lines| || lines[j].codept >= StopAt)
    ensures DataRows(last, lines[j..], graph, indic, folds, pict) == []
    ensures DataCaseRows(last, lines[j..], 13) == [] && DataCaseRows(last, lines[j..], 12) == []
    ensures DataZoneErrors(last, lines[j..]) == []
  {
    if j < |lines| {
      assert lines[j..][0] == lines[j];
    }
  }

  /** x == rows + d with d == step + rest, and rows grown by step: x is the grown rows followed by rest. */
  lemma Regrouped<T>(x: seq<T>, rows: seq<T>, d: seq<T>, step: seq<T>, rest: seq<T>, grown: seq<T>)
    requires x == rows + d && d == step + rest && grown == rows + step
    ensures x == grown + rest
  {
  }

  // ---------------------------------------------------------------- table layout

  /** A slot of the emitted table: a zero of a gap, or the entry of a code point. */
  datatype Slot = Zero | Cell(codept: int)

  function RowSlots(r: Row): seq<Slot>
  {
    match r
    case Entry(c, _, _, _, _, _, _, _) => [Cell(c)]
    case Zeros(lines, width) => seq(lines * width, _ => Zero)
  }

  /** The table the rows spell out, one slot per array element. */
  function Slots(rows: seq<Row>): seq<Slot>
  {
    if rows == [] then [] else Slots(rows[..|rows| - 1]) + RowSlots(rows[|rows| - 1])
  }

  lemma {:induction false} SlotsAppend(a: seq<Row>, b: seq<Row>)
    ensures Slots(a + b) == Slots(a) + Slots(b)
    decreases |b|
  {
    if b == [] {
      assert a + b == a;
    } else {
      var n := |b| - 1;
      assert (a + b)[..|a + b| - 1] == a + b[..n];
      SlotsAppend(a, b[..n]);
    }
  }

  lemma SlotsOne(r: Row)
    ensures Slots([r]) == RowSlots(r)
  {
    assert [r][..0] == [];
  }

  /** A gap of N >= 0 code points yields exactly N zeros; a negative count (lines out of order) still yields N mod 40. */
  lemma GapRowsZeros(reps: int)
    ensures reps >= 0 ==> Slots(GapRows(reps)) == seq(reps, _ => Zero)
    ensures reps < 0 ==> Slots(GapRows(reps)) == seq(reps % ZerosPerLine, _ => Zero)
  {
    var full: seq<Row> := if reps / ZerosPerLine > 0 then [Zeros(reps / ZerosPerLine, ZerosPerLine)] else [];
    var rest: seq<Row> := if reps % ZerosPerLine > 0 then [Zeros(1, reps % ZerosPerLine)] else [];
    SlotsAppend(full, rest);
    if full != [] { SlotsOne(full[0]); }
    if rest != [] { SlotsOne(rest[0]); }
    var n := if reps >= 0 then reps else reps % ZerosPerLine;
    assert |Slots(full)| + |Slots(rest)| == n;
    assert forall k :: 0 <= k < |Slots(full)| ==> Slots(full)[k] == Zero;
    assert forall k :: 0 <= k < |Slots(rest)| ==> Slots(rest)[k] == Zero;
  }

  lemma {:induction false} EntriesSlots(lo: int, hi: int, fields: seq<string>, graph: map<int, string>,
                                       indic: map<int, string>, folds: set<int>, pict: set<int>)
    requires |fields| >= 14 && lo <= hi
    ensures Slots(Entries(lo, hi, fields, graph, indic, folds, pict)) == seq(hi - lo, k => Cell(lo + k))
    decreases hi - lo
  {
    if lo < hi {
      EntriesSlots(lo, hi - 1, fields, graph, indic, folds, pict);
      EntriesStep(lo, hi - 1, fields, graph, indic, folds, pict);
      var e := Entries(lo, hi, fields, graph, indic, folds, pict);
      assert e[..|e| - 1] == Entries(lo, hi - 1, fields, graph, indic, folds, pict);
    }
  }

  /** Where the generated lookup expects the entry of c: shifted down by the zone width past the zone. */
  function TableIndex(c: int): int
  {
    if c < ExcludeFrom then c else c - ZoneWidth
  }

  /** The code point the lookup expects at table index i. */
  function CodeAt(i: int): int
  {
    if i < ExcludeFrom then i else i + ZoneWidth
  }

  predicate InZone(c: int)
  {
    ExcludeFrom <= c < ExcludeTo
  }

  /** Every entry sits where the lookup looks for its code point. */
  predicate Agrees(slots: seq<Slot>)
  {
    forall i :: 0 <= i < |slots| && slots[i].Cell? ==> slots[i].codept == CodeAt(i)
  }

  /** The table so far spells out every code point up to last at its lookup index. */
  predicate LaidOut(rows: seq<Row>, last: int)
  {
    -1 <= last && !InZone(last) && |Slots(rows)| == TableIndex(last) + 1 && Agrees(Slots(rows))
  }

  /** A line the table format can hold after last: in order, outside the zone, and a range that does not cross it. */
  predicate LineFits(last: int, codept: int, fields: seq<string>)
    requires |fields| >= 2
  {
    last < codept && !InZone(codept) && (ClosesRange(fields) ==> !(last < ExcludeFrom <= codept))
  }

  /** A file whose lines up to stopAt all fit. */
  predicate DataFits(last: int, lines: seq<DataLine>)
    decreases |lines|
  {
    lines == [] || lines[0].codept >= StopAt ||
    (|lines[0].fields| >= 2 && LineFits(last, lines[0].codept, lines[0].fields) &&
     DataFits(lines[0].codept, lines[1..]))
  }

  lemma AgreesAppend(a: seq<Slot>, b: seq<Slot>)
    requires Agrees(a)
    requires forall j :: 0 <= j < |b| && b[j].Cell? ==> b[j].codept == CodeAt(|a| + j)
    ensures Agrees(a + b)
  {
    forall i | 0 <= i < |a + b| && (a + b)[i].Cell?
      ensures (a + b)[i].codept == CodeAt(i)
    {
      if i >= |a| {
        assert (a + b)[i] == b[i - |a|];
      }
    }
  }

  /** A fitting line reports no zone error. */
  lemma FittingLineNoError(last: int, codept: int, fields: seq<string>)
    requires |fields| >= 14 && !InZone(last) && LineFits(last, codept, fields)
    ensures !ZoneError(last, codept, fields)
  {
  }

  /** A range line that fits lays out last + 1, ..., codept one after another from the end of the table. */
  lemma RunAgrees(s0: seq<Slot>, last: int, codept: int)
    requires -1 <= last < codept && !InZone(last) && !InZone(codept) && !(last < ExcludeFrom <= codept)
    requires |s0| == TableIndex(last) + 1 && Agrees(s0)
    ensures |s0 + seq(codept - last, k => Cell(last + 1 + k))| == TableIndex(codept) + 1
    ensures Agrees(s0 + seq(codept - last, k => Cell(last + 1 + k)))
  {
    var run := seq(codept - last, k => Cell(last + 1 + k));
    forall j | 0 <= j < |run| && run[j].Cell?
      ensures run[j].codept == CodeAt(|s0| + j)
    {
    }
    AgreesAppend(s0, run);
  }

  /** A line after a gap that fits puts its own entry at its lookup index once the gap's zeros are written. */
  lemma GapAgrees(s0: seq<Slot>, last: int, codept: int, gap: seq<Slot>)
    requires -1 <= last < codept && !InZone(last) && !InZone(codept)
    requires |s0| == TableIndex(last) + 1 && Agrees(s0)
    requires GapCount(last, codept) >= 0 ==> gap == seq(GapCount(last, codept), _ => Zero) + [Cell(codept)]
    ensures GapCount(last, codept) >= 0
    ensures |s0 + gap| == TableIndex(codept) + 1
    ensures Agrees(s0 + gap)
  {
    assert forall j :: 0 <= j < |gap| - 1 ==> gap[j] == Zero;
    AgreesAppend(s0, gap);
  }

  /** The rows a line appends before its own entry: a range's entries, a gap's zeros, or nothing. */
  function LeadRows(last: int, codept: int, fields: seq<string>, graph: map<int, string>, indic: map<int, string>,
                    folds: set<int>, pict: set<int>): seq<Row>
    requires |fields| >= 14
  {
    if ClosesRange(fields) then Entries(last + 1, codept, fields, graph, indic, folds, pict)
    else if last + 1 != codept then GapRows(GapCount(last, codept))
    else []
  }

  lemma LaidOutFrom(rows: seq<Row>, added: seq<Row>, sa: seq<Slot>, codept: int)
    requires Slots(added) == sa && -1 <= codept && !InZone(codept)
    requires |Slots(rows) + sa| == TableIndex(codept) + 1 && Agrees(Slots(rows) + sa)
    ensures LaidOut(rows + added, codept)
  {
    SlotsAppend(rows, added);
  }

  lemma RangeLineLaidOut(rows: seq<Row>, last: int, codept: int, fields: seq<string>, graph: map<int, string>,
                         indic: map<int, string>, folds: set<int>, pict: set<int>)
    requires |fields| >= 14 && ClosesRange(fields) && LaidOut(rows, last) && LineFits(last, codept, fields)
    ensures LaidOut(rows + LineRows(last, codept, fields, graph, indic, folds, pict), codept)
  {
    var added := LineRows(last, codept, fields, graph, indic, folds, pict);
    EntriesStep(last + 1, codept, fields, graph, indic, folds, pict);
    assert added == Entries(last + 1, codept + 1, fields, graph, indic, folds, pict);
    EntriesSlots(last + 1, codept + 1, fields, graph, indic, folds, pict);
    RunAgrees(Slots(rows), last, codept);
    LaidOutFrom(rows, added, seq(codept - last, k => Cell(last + 1 + k)), codept);
  }

  lemma GapLineLaidOut(rows: seq<Row>, last: int, codept: int, fields: seq<string>, graph: map<int, string>,
                       indic: map<int, string>, folds: set<int>, pict: set<int>)
    requires |fields| >= 14 && !ClosesRange(fields) && LaidOut(rows, last) && LineFits(last, codept, fields)
    ensures LaidOut(rows + LineRows(last, codept, fields, graph, indic, folds, pict), codept)
  {
    var own := EntryFor(codept, fields, graph, indic, folds, pict);
    var lead := LeadRows(last, codept, fields, graph, indic, folds, pict);
    assert LineRows(last, codept, fields, graph, indic, folds, pict) == lead + [own];
    assert GapRows(0) == [];
    assert lead == GapRows(GapCount(last, codept));
    GapRowsZeros(GapCount(last, codept));
    SlotsAppend(lead, [own]);
    SlotsOne(own);
    var gap := Slots(lead + [own]);
    GapAgrees(Slots(rows), last, codept, gap);
    LaidOutFrom(rows, lead + [own], gap, codept);
  }

  /**
   * The central invariant of the main loop: a line that fits keeps every entry
   * at the index where the lookup (shift by the zone width past ExcludeFrom)
   * looks for it, and the table one entry past the line's own code point.
   */
  lemma LineKeepsLayout(rows: seq<Row>, last: int, codept: int, fields: seq<string>, graph: map<int, string>,
                        indic: map<int, string>, folds: set<int>, pict: set<int>)
    requires |fields| >= 14 && LaidOut(rows, last) && LineFits(last, codept, fields)
    ensures LaidOut(rows + LineRows(last, codept, fields, graph, indic, folds, pict), codept)
  {
    if ClosesRange(fields) {
      RangeLineLaidOut(rows, last, codept, fields, graph, indic, folds, pict);
    } else {
      GapLineLaidOut(rows, last, codept, fields, graph, indic, folds, pict);
    }
  }

  // ---------------------------------------------------------------- the generator's state

  /** `for cp in range(lo, hi + 1): m[cp] = v` */
  method SpreadRange(m: map<int, string>, lo: int, hi: int, v: string) returns (r: map<int, string>)
    ensures r == Spread(m, lo, hi, v)
  {
    r := m;
    SpreadEmpty(m, lo, lo - 1, v);
    var cp := lo;
    while cp <= hi
      invariant lo <= cp <= if hi < lo then lo else hi + 1
      invariant r == Spread(m, lo, cp - 1, v)
    {
      SpreadStep(m, lo, cp - 1, v);
      r := r[cp := v];
      cp := cp + 1;
    }
    if hi < lo {
      SpreadEmpty(m, lo, hi, v);
    }
  }

  /** `for cp in range(lo, hi + 1): s.add(cp)` */
  method MarkRange(s: set<int>, lo: int, hi: int) returns (r: set<int>)
    ensures r == s + Span(lo, hi)
  {
    r := s;
    var cp := lo;
    while cp <= hi
      invariant lo <= cp <= if hi < lo then lo else hi + 1
      invariant r == s + Span(lo, cp - 1)
    {
      r := r + {cp};
      cp := cp + 1;
    }
  }

  datatype Loaded = Loaded(caseFold: seq<FoldRow>, graphBreak: map<int, string>, indicBreak: map<int, string>,
                           foldPoints: set<int>, extPict: set<int>, firstGraphBreakComplex: int)

  datatype Emitted = Emitted(codeCategory: seq<Row>, caseLower: seq<CaseRow>, caseUpper: seq<CaseRow>,
                             last: int, zoneErrors: seq<int>)

  class TableBuilder {
    var codeCategory: seq<Row>
    var caseFold: seq<FoldRow>
    var caseLower: seq<CaseRow>
    var caseUpper: seq<CaseRow>
    var graphBreak: map<int, string>
    var indicBreak: map<int, string>
    var foldPoints: set<int>
    var extPict: set<int>
    var firstGraphBreakComplex: int
    var last: int
    /** The code points reported by "** ERROR: Code point ... within exclusion zone" lines of the output. */
    var zoneErrors: seq<int>

    /** What the property files load: all that the UnicodeData pass reads and never changes. */
    function Properties(): Loaded
      reads this
    {
      Loaded(caseFold, graphBreak, indicBreak, foldPoints, extPict, firstGraphBreakComplex)
    }

    /** What the UnicodeData pass writes. */
    function Output(): Emitted
      reads this
    {
      Emitted(codeCategory, caseLower, caseUpper, last, zoneErrors)
    }

    /** The module-level initial values, with last = -1 as set before the main loop. */
    constructor ()
      ensures codeCategory == [] && caseFold == [] && caseLower == [] && caseUpper == []
      ensures graphBreak == map[] && indicBreak == map[] && foldPoints == {} && extPict == {}
      ensures firstGraphBreakComplex == NoComplexBreak && last == -1 && zoneErrors == []
    {
      codeCategory, caseFold, caseLower, caseUpper := [], [], [], [];
      graphBreak, indicBreak, foldPoints, extPict := map[], map[], {}, {};
      firstGraphBreakComplex, last, zoneErrors := NoComplexBreak, -1, [];
    }

    /** codeEntry: append the entry of codept, tagged from the loaded properties, and its case rows. */
    method CodeEntry(codept: int, fields: seq<string>)
      requires |fields| >= 14
      modifies this
      ensures codeCategory == old(codeCategory) + [EntryFor(codept, fields, graphBreak, indicBreak, foldPoints, extPict)]
      ensures caseLower == old(caseLower) + CaseRows(codept, codept + 1, fields[13])
      ensures caseUpper == old(caseUpper) + CaseRows(codept, codept + 1, fields[12])
      ensures Properties() == old(Properties()) && last == old(last) && zoneErrors == old(zoneErrors)
    {
      var graph: Option<string> := None;
      if codept in graphBreak {
        graph := Some(graphBreak[codept]);
      }
      var indic: Option<string> := None;
      if codept in indicBreak {
        indic := Some(indicBreak[codept]);
      }
      var fold := codept in foldPoints;
      var lower, upper := false, false;
      if fields[13] != "" {
        caseLower := caseLower + [CaseRow(codept, fields[13])];
        lower := true;
      }
      if fields[12] != "" {
        caseUpper := caseUpper + [CaseRow(codept, fields[12])];
        upper := true;
      }
      var pict := codept in extPict;
      codeCategory := codeCategory + [Entry(codept, fields[2], graph, indic, fold, lower, upper, pict)];
    }

    /** The CaseFolding.txt loop: record the C and S folds and their code points. */
    method LoadCaseFolding(lines: seq<seq<string>>)
      requires forall k :: 0 <= k < |lines| ==> FoldLineReadable(lines[k])
      modifies this
      ensures caseFold == old(caseFold) + FoldRows(lines)
      ensures foldPoints == old(foldPoints) + FoldCodes(lines)
      ensures Output() == old(Output())
      ensures graphBreak == old(graphBreak) && indicBreak == old(indicBreak) && extPict == old(extPict)
      ensures firstGraphBreakComplex == old(firstGraphBreakComplex)
    {
      var i := 0;
      while i < |lines|
        invariant 0 <= i <= |lines|
        invariant caseFold == old(caseFold) + FoldRows(lines[..i])
        invariant foldPoints == old(foldPoints) + FoldCodes(lines[..i])
        invariant Output() == old(Output())
        invariant graphBreak == old(graphBreak) && indicBreak == old(indicBreak) && extPict == old(extPict)
        invariant firstGraphBreakComplex == old(firstGraphBreakComplex)
      {
        var fields := lines[i];
        assert lines[..i + 1][..i] == lines[..i];
        FoldCodesStep(lines, i);
        if !IsComment(fields) && |fields| >= 3 && (fields[1] == "C" || fields[1] == "S") {
          caseFold := caseFold + [FoldRow(fields[0], fields[2])];
          foldPoints := foldPoints + {DigitsValue(fields[0], 16)};
        }
        i := i + 1;
      }
      assert lines[..|lines|] == lines;
    }

    /** The GraphemeBreakProperty.txt loop: set each matched range's class and track the first complex one. */
    method LoadGraphemeBreaks(lines: seq<Option<RangeLine>>)
      modifies this
      ensures graphBreak == Assigned(old(graphBreak), lines)
      ensures firstGraphBreakComplex == ComplexStart(old(firstGraphBreakComplex), lines)
      ensures Output() == old(Output()) && caseFold == old(caseFold)
      ensures indicBreak == old(indicBreak) && foldPoints == old(foldPoints) && extPict == old(extPict)
    {
      var i := 0;
      while i < |lines|
        invariant 0 <= i <= |lines|
        invariant graphBreak == Assigned(old(graphBreak), lines[..i])
        invariant firstGraphBreakComplex == ComplexStart(old(firstGraphBreakComplex), lines[..i])
        invariant Output() == old(Output()) && caseFold == old(caseFold)
        invariant indicBreak == old(indicBreak) && foldPoints == old(foldPoints) && extPict == old(extPict)
      {
        assert lines[..i + 1][..i] == lines[..i];
        if lines[i].Some? {
          var cp1, prop := lines[i].value.first, lines[i].value.property;
          var cp2 := if lines[i].value.last.None? then cp1 else lines[i].value.last.value;
          graphBreak := SpreadRange(graphBreak, cp1, cp2, prop);
          if firstGraphBreakComplex > cp1 && prop != "Control" && prop != "CR" && prop != "LF" {
            firstGraphBreakComplex := cp1;
          }
        }
        i := i + 1;
      }
      assert lines[..|lines|] == lines;
    }

    /** The DerivedCoreProperties.txt loop: set each matched range's InCB value. */
    method LoadIndicBreaks(lines: seq<Option<RangeLine>>)
      modifies this
      ensures indicBreak == Assigned(old(indicBreak), lines)
      ensures Output() == old(Output()) && caseFold == old(caseFold)
      ensures graphBreak == old(graphBreak) && foldPoints == old(foldPoints) && extPict == old(extPict)
      ensures firstGraphBreakComplex == old(firstGraphBreakComplex)
    {
      var i := 0;
      while i < |lines|
        invariant 0 <= i <= |lines|
        invariant indicBreak == Assigned(old(indicBreak), lines[..i])
        invariant Output() == old(Output()) && caseFold == old(caseFold)
        invariant graphBreak == old(graphBreak) && foldPoints == old(foldPoints) && extPict == old(extPict)
        invariant firstGraphBreakComplex == old(firstGraphBreakComplex)
      {
        assert lines[..i + 1][..i] == lines[..i];
        if lines[i].Some? {
          var cp1, prop := lines[i].value.first, lines[i].value.property;
          var cp2 := if lines[i].value.last.None? then cp1 else lines[i].value.last.value;
          indicBreak := SpreadRange(indicBreak, cp1, cp2, prop);
        }
        i := i + 1;
      }
      assert lines[..|lines|] == lines;
    }

    /** The emoji-data.txt loop: mark each matched Extended_Pictographic range. */
    method LoadPictographics(lines: seq<Option<RangeLine>>)
      modifies this
      ensures extPict == Marked(old(extPict), lines)
      ensures Output() == old(Output()) && caseFold == old(caseFold)
      ensures graphBreak == old(graphBreak) && indicBreak == old(indicBreak) && foldPoints == old(foldPoints)
      ensures firstGraphBreakComplex == old(firstGraphBreakComplex)
    {
      var i := 0;
      while i < |lines|
        invariant 0 <= i <= |lines|
        invariant extPict == Marked(old(extPict), lines[..i])
        invariant Output() == old(Output()) && caseFold == old(caseFold)
        invariant graphBreak == old(graphBreak) && indicBreak == old(indicBreak) && foldPoints == old(foldPoints)
        invariant firstGraphBreakComplex == old(firstGraphBreakComplex)
      {
        assert lines[..i + 1][..i] == lines[..i];
        if lines[i].Some? {
          var cp1 := lines[i].value.first;
          var cp2 := if lines[i].value.last.None? then cp1 else lines[i].value.last.value;
          extPict := MarkRange(extPict, cp1, cp2);
        }
        i := i + 1;
      }
      assert lines[..|lines|] == lines;
    }

    /** The zero-filled lines of a gap of reps code points (Python's // and % floor, as Dafny's do for divisor 40). */
    method FillGap(reps: int)
      modifies this
      ensures codeCategory == old(codeCategory) + GapRows(reps)
      ensures caseLower == old(caseLower) && caseUpper == old(caseUpper)
      ensures Properties() == old(Properties()) && last == old(last) && zoneErrors == old(zoneErrors)
    {
      var rep1 := reps / 40;
      var rep2 := reps % 40;
      if rep1 > 0 {
        codeCategory := codeCategory + [Zeros(rep1, 40)];
      }
      if rep2 > 0 {
        codeCategory := codeCategory + [Zeros(1, rep2)];
      }
    }

    /** The `<..., Last>` branch of the UnicodeData.txt loop: entries for range(last + 1, codept). */
    method RangeEntries(codept: int, fields: seq<string>)
      requires |fields| >= 14 && ClosesRange(fields)
      modifies this
      ensures codeCategory == old(codeCategory) + Entries(last + 1, codept, fields, graphBreak, indicBreak, foldPoints, extPict)
      ensures caseLower == old(caseLower) + CaseRows(last + 1, codept, fields[13])
      ensures caseUpper == old(caseUpper) + CaseRows(last + 1, codept, fields[12])
      ensures zoneErrors == old(zoneErrors) + (if ZoneError(last, codept, fields) then [codept] else [])
      ensures last == old(last)
      ensures Properties() == old(Properties())
    {
      if codept >= ExcludeFrom && last < ExcludeFrom {
        zoneErrors := zoneErrors + [codept];
      }
      var lo := last + 1;
      var i := lo;
      while i < codept
        invariant lo <= i <= if codept < lo then lo else codept
        invariant last == old(last) && zoneErrors == old(zoneErrors) + (if ZoneError(last, codept, fields) then [codept] else [])
        invariant codeCategory == old(codeCategory) + Entries(lo, i, fields, graphBreak, indicBreak, foldPoints, extPict)
        invariant caseLower == old(caseLower) + CaseRows(lo, i, fields[13])
        invariant caseUpper == old(caseUpper) + CaseRows(lo, i, fields[12])
        invariant Properties() == old(Properties())
      {
        EntriesStep(lo, i, fields, graphBreak, indicBreak, foldPoints, extPict);
        CaseRowsSplit(lo, i, i + 1, fields[13]);
        CaseRowsSplit(lo, i, i + 1, fields[12]);
        Associative(old(caseLower), CaseRows(lo, i, fields[13]), CaseRows(i, i + 1, fields[13]));
        Associative(old(caseUpper), CaseRows(lo, i, fields[12]), CaseRows(i, i + 1, fields[12]));
        Associative(old(codeCategory), Entries(lo, i, fields, graphBreak, indicBreak, foldPoints, extPict),
                    [EntryFor(i, fields, graphBreak, indicBreak, foldPoints, extPict)]);
        CodeEntry(i, fields);
        i := i + 1;
      }
      if i != codept {
        assert Entries(lo, i, fields, graphBreak, indicBreak, foldPoints, extPict) == [] ==
               Entries(lo, codept, fields, graphBreak, indicBreak, foldPoints, extPict);
        assert CaseRows(lo, i, fields[13]) == [] == CaseRows(lo, codept, fields[13]);
        assert CaseRows(lo, i, fields[12]) == [] == CaseRows(lo, codept, fields[12]);
      }
    }

    /** The branch of the UnicodeData.txt loop for a line that does not follow last directly. */
    method GapBefore(codept: int, fields: seq<string>)
      requires |fields| >= 14 && !ClosesRange(fields) && last + 1 != codept
      modifies this
      ensures codeCategory == old(codeCategory) + GapRows(GapCount(last, codept))
      ensures zoneErrors == old(zoneErrors) + (if ZoneError(last, codept, fields) then [codept] else [])
      ensures caseLower == old(caseLower) && caseUpper == old(caseUpper) && last == old(last)
      ensures Properties() == old(Properties())
    {
      var reps;
      if codept >= ExcludeFrom && last <= ExcludeFrom {
        if codept < ExcludeTo {
          zoneErrors := zoneErrors + [codept];
        }
        reps := codept - last - 1 - (ExcludeTo - ExcludeFrom);
      } else {
        reps := codept - last - 1;
      }
      FillGap(reps);
    }

    /** One pass of the UnicodeData.txt loop for a line below stopAt. */
    method DataLineStep(codept: int, fields: seq<string>)
      requires |fields| >= 14
      modifies this
      ensures codeCategory == old(codeCategory) +
                LineRows(old(last), codept, fields, graphBreak, indicBreak, foldPoints, extPict)
      ensures caseLower == old(caseLower) + CaseRows(FirstCovered(old(last), codept, fields), codept + 1, fields[13])
      ensures caseUpper == old(caseUpper) + CaseRows(FirstCovered(old(last), codept, fields), codept + 1, fields[12])
      ensures zoneErrors == old(zoneErrors) + (if ZoneError(old(last), codept, fields) then [codept] else [])
      ensures last == codept
      ensures Properties() == old(Properties())
    {
      var previous := last;
      ghost var lead := LeadRows(previous, codept, fields, graphBreak, indicBreak, foldPoints, extPict);
      ghost var own := EntryFor(codept, fields, graphBreak, indicBreak, foldPoints, extPict);
      ghost var lowerRun := if ClosesRange(fields) then CaseRows(previous + 1, codept, fields[13]) else [];
      ghost var upperRun := if ClosesRange(fields) then CaseRows(previous + 1, codept, fields[12]) else [];
      if ClosesRange(fields) {
        RangeEntries(codept, fields);
      } else if previous + 1 != codept {
        GapBefore(codept, fields);
      }
      assert codeCategory == old(codeCategory) + lead;
      assert caseLower == old(caseLower) + lowerRun && caseUpper == old(caseUpper) + upperRun;
      CaseRowsFrom(previous, codept, fields, 13);
      CaseRowsFrom(previous, codept, fields, 12);
      Associative(old(codeCategory), lead, [own]);
      Associative(old(caseLower), lowerRun, CaseRows(codept, codept + 1, fields[13]));
      Associative(old(caseUpper), upperRun, CaseRows(codept, codept + 1, fields[12]));
      CodeEntry(codept, fields);
      last := codept;
    }

    /** The UnicodeData.txt loop: every line up to the first at or above stopAt. */
    method LoadUnicodeData(lines: seq<DataLine>)
      requires DataReadable(lines)
      modifies this
      ensures codeCategory == old(codeCategory) + DataRows(old(last), lines, graphBreak, indicBreak, foldPoints, extPict)
      ensures caseLower == old(caseLower) + DataCaseRows(old(last), lines, 13)
      ensures caseUpper == old(caseUpper) + DataCaseRows(old(last), lines, 12)
      ensures zoneErrors == old(zoneErrors) + DataZoneErrors(old(last), lines)
      ensures last == LastBeforeStop(old(last), lines)
      ensures forall k :: |old(codeCategory)| <= k < |codeCategory| && codeCategory[k].Entry? ==>
                codeCategory[k].codept < StopAt
      ensures DataFits(old(last), lines) && LaidOut(old(codeCategory), old(last)) ==>
                LaidOut(codeCategory, last) && zoneErrors == old(zoneErrors)
      ensures Properties() == old(Properties())
    {
      ghost var fits := DataFits(old(last), lines) && LaidOut(old(codeCategory), old(last));
      ghost var g, ic, fo, pi := graphBreak, indicBreak, foldPoints, extPict;
      ghost var all := Emitted(old(codeCategory) + DataRows(old(last), lines, g, ic, fo, pi),
                               old(caseLower) + DataCaseRows(old(last), lines, 13),
                               old(caseUpper) + DataCaseRows(old(last), lines, 12),
                               LastBeforeStop(old(last), lines),
                               old(zoneErrors) + DataZoneErrors(old(last), lines));
      var j := 0;
      assert lines[j..] == lines;
      while j < |lines| && lines[j].codept < StopAt
        invariant 0 <= j <= |lines| && DataReadable(lines[j..])
        invariant LastBeforeStop(last, lines[j..]) == LastBeforeStop(old(last), lines)
        invariant Accounted(all, Output(), lines[j..], g, ic, fo, pi)
        invariant |old(codeCategory)| <= |codeCategory|
        invariant forall k :: |old(codeCategory)| <= k < |codeCategory| && codeCategory[k].Entry? ==>
                    codeCategory[k].codept < StopAt
        invariant fits ==> DataFits(last, lines[j..]) && LaidOut(codeCategory, last) && zoneErrors == old(zoneErrors)
        invariant Properties() == old(Properties())
      {
        var codept, fields := lines[j].codept, lines[j].fields;
        assert lines[j..][1..] == lines[j + 1..];
        ghost var rows, previous, before := codeCategory, last, Output();
        assert |fields| >= 14 by { assert lines[j..][0] == lines[j]; }
        if fits {
          LineKeepsLayout(rows, previous, codept, fields, graphBreak, indicBreak, foldPoints, extPict);
          FittingLineNoError(previous, codept, fields);
        }
        DataLineStep(codept, fields);
        assert graphBreak == g && indicBreak == ic && foldPoints == fo && extPict == pi;
        EmittedBelow(rows, previous, codept, fields, g, ic, fo, pi, |old(codeCategory)|);
        DataAccounted(lines, j, previous, codept, fields, g, ic, fo, pi, all, before, Output());
        j := j + 1;
      }
      if j < |lines| {
        assert lines[j..][0] == lines[j];
      }
      DataFinished(lines, j, g, ic, fo, pi, all, Output());
    }
  }

  /** The rows of a line below stopAt hold no entry at or above stopAt. */
  lemma EmittedBelow(rows: seq<Row>, last: int, codept: int, fields: seq<string>, graph: map<int, string>,
                     indic: map<int, string>, folds: set<int>, pict: set<int>, n: nat)
    requires |fields| >= 14 && codept < StopAt && n <= |rows|
    requires forall k :: n <= k < |rows| && rows[k].Entry? ==> rows[k].codept < StopAt
    ensures forall k :: n <= k < |rows + LineRows(last, codept, fields, graph, indic, folds, pict)| &&
                        (rows + LineRows(last, codept, fields, graph, indic, folds, pict))[k].Entry? ==>
              (rows + LineRows(last, codept, fields, graph, indic, folds, pict))[k].codept < StopAt
  {
    var added := LineRows(last, codept, fields, graph, indic, folds, pict);
    EntriesAt(last + 1, codept, fields, graph, indic, folds, pict);
    assert forall k :: 0 <= k < |GapRows(GapCount(last, codept))| ==> GapRows(GapCount(last, codept))[k].Zeros?;
    assert forall k :: 0 <= k < |added| && added[k].Entry? ==> added[k].codept <= codept;
    forall k | n <= k < |rows + added| && (rows + added)[k].Entry?
      ensures (rows + added)[k].codept < StopAt
    {
      if k >= |rows| {
        assert (rows + added)[k] == added[k - |rows|];
      }
    }
  }

  /** The header constants the script writes after the loops. */
  datatype Header = Header(excludeFrom: int, excludeTo: int, lastCodePoint: int, firstGraphBreakComplex: int)

  /**
   * The whole script: load the four property files, make the UnicodeData pass
   * and report the header constants.  On a UnicodeData file whose lines fit,
   * every entry sits where the lookup expects it and no zone error is written.
   */
  method BuildTables(foldLines: seq<seq<string>>, graphLines: seq<Option<RangeLine>>,
                     indicLines: seq<Option<RangeLine>>, emojiLines: seq<Option<RangeLine>>,
                     dataLines: seq<DataLine>)
    returns (b: TableBuilder, h: Header)
    requires forall k :: 0 <= k < |foldLines| ==> FoldLineReadable(foldLines[k])
    requires DataReadable(dataLines)
    ensures fresh(b)
    ensures b.caseFold == FoldRows(foldLines) && b.foldPoints == FoldCodes(foldLines)
    ensures b.graphBreak == Assigned(map[], graphLines) && b.indicBreak == Assigned(map[], indicLines)
    ensures b.extPict == Marked({}, emojiLines)
    ensures h == Header(ExcludeFrom, ExcludeTo, LastBeforeStop(-1, dataLines), ComplexStart(NoComplexBreak, graphLines))
    ensures b.codeCategory == DataRows(-1, dataLines, b.graphBreak, b.indicBreak, b.foldPoints, b.extPict)
    ensures b.caseLower == DataCaseRows(-1, dataLines, 13) && b.caseUpper == DataCaseRows(-1, dataLines, 12)
    ensures b.zoneErrors == DataZoneErrors(-1, dataLines)
    ensures forall k :: 0 <= k < |b.codeCategory| && b.codeCategory[k].Entry? ==> b.codeCategory[k].codept < StopAt
    ensures DataFits(-1, dataLines) ==> LaidOut(b.codeCategory, h.lastCodePoint) && b.zoneErrors == []
  {
    b := new TableBuilder();
    b.LoadCaseFolding(foldLines);
    b.LoadGraphemeBreaks(graphLines);
    b.LoadIndicBreaks(indicLines);
    b.LoadPictographics(emojiLines);
    assert Slots([]) == [];
    b.LoadUnicodeData(dataLines);
    h := Header(ExcludeFrom, ExcludeTo, b.last, b.firstGraphBreakComplex);
  }
}
