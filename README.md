# Columns++ core, modelled in Dafny

Columns++ is a Notepad++ plug-in for working with columns of text: elastic
tabstops, conversion between tab-separated and comma-separated values,
calculations, timestamps, and a Unicode regular-expression engine. This
project models the parts of it that are self-contained sequential logic and
proves what they compute:

- **Unicode character table** (`unicode_tables.dfy`, `unicode_lookup.dfy`).
  The generator `BuildUnicodeTables.py` is modelled as a class `TableBuilder`.
  It makes one pass over the records of UnicodeData.txt (Unicode Standard
  Annex #44 layout), and gap, range, exclusion-zone and stop handling are
  proved exact. The lookups of `UnicodeCharacterDataFixed.h` are modelled
  too: the table index past the exclusion zone, the general category, and
  the fold/lower/upper casing operations.
- **Encodings** (`utf.dfy`). UTF-8 ⇄ UTF-32 follows section 3 of RFC 3629.
  Bytes that do not form a well-formed sequence are escaped to the lone
  surrogates 0xDC80..0xDCFF. UTF-16 → UTF-32 follows sections 2.1-2.2 of
  RFC 2781. The file also models the document iterator of the regular
  expression engine and the gap-buffer `str`. Both round trips are proved
  for all inputs, against corrected definitions. The as-written code is
  modelled next to them, with its defects exhibited (see Findings).
- **Grapheme clusters** (`grapheme.dfy`). The pair rules, backward scans and
  `\X` matcher of `RegularExpressionTS.h` follow section 3.1.1 of Unicode
  Standard Annex #29. They are proved equal to a reference statement of
  rules GB3-GB999.
- **Regex traits** (`regex_traits.dfy`): `utf32_regex_traits` of
  `UnicodeRegexTraits.h`, covering `isctype`, `value`, `lookup_classname`,
  `lookup_collatename`, `translate` and `transform`.
- **String and state utilities**:
  - delimited-string escaping, the Extensions lines and the data-line
    pattern of `Configuration.cpp` (`configuration.dfy`);
  - extended-search escape expansion and search history (`search.dfy`);
  - `clamp_cast`, file-extension keys, combo-box history and tab cells of
    `ColumnsPlusPlus.h` (`columns.dfy`);
  - CSV field validation, quoting, escaping, and both conversion
    directions of `Convert.cpp` (`convert.dfy`). The writer is modelled
    with `isValidField` corrected to check the first non-blank character
    (see Findings), and `convert_reading.dfy` proves that reading back what
    this corrected writer writes gives the original tab-separated text. As
    written, the writer puts fields such as ",ab", "," and "a," out
    unquoted, and they read back as two fields;
  - the date-picture interpreter of `TimestampsHelpers.cpp`
    (`timestamps.dfy`);
  - the calculation history ring of `Numeric.h` (`numeric.dfy`);
  - version tags and the release choice of `Update.cpp` (`update.dfy`);
  - the trace ring of `Diagnostic.h` (`diagnostic.dfy`).

`common.dfy` holds the shared vocabulary: `Option`, bytes, and the "C"
locale character classes.

Code that loops or changes state is modelled as methods with loop
invariants. Each method is proved equal to a specification function, and
the lemmas about that function state what the code promises. An object the
code updates in place is a class with `modifies` clauses:
`TableBuilder`, `DocumentIterator`, `CalculateHistory`, `Trace`,
`History` and `UpdateInformation`. Pure code is modelled as functions and
lemmas.

## Model

| member | source | states |
|---|---|---|
| UnicodeLookup.TableIndex | src/Unicode/UnicodeCharacterDataFixed.h:77-81 | every code point with a byte of its own has an index inside the table |
| UnicodeLookup.CodePointAt | src/Unicode/UnicodeCharacterDataFixed.h:77-81 | every table index belongs to a code point that has a byte of its own |
| UnicodeLookup.TableIndexShift | src/Unicode/UnicodeCharacterDataFixed.h:77-81 | below exclude_from the index is c itself, from exclude_to on it is c less the zone width, and CodePointAt inverts it |
| UnicodeLookup.TableIndexBijective | src/Unicode/UnicodeCharacterDataFixed.h:77-81 | table indices and in-table code points are in one-to-one, order-preserving correspondence |
| UnicodeLookup.CategoryOf | src/Unicode/UnicodeCharacterDataFixed.h:77 | the 0x1f mask gives a category below 32 |
| UnicodeLookup.GenCat | src/Unicode/UnicodeCharacterDataFixed.h:76-82 | unicodeGenCat: below 32; the table byte's category for in-table code points; Cn inside the zone; beyond the last code point Co exactly for U+F0000-FFFFD and U+100000-10FFFD, else Cn |
| UnicodeLookup.CasingOperation | src/Unicode/UnicodeCharacterDataFixed.h:84-90 | unicode_casing_operation gives the mapping of c exactly when c's byte carries the flag and c is in the map, and c otherwise |
| UnicodeLookup.CasingOperationChanges | src/Unicode/UnicodeCharacterDataFixed.h:84-90 | a casing operation changes c only into its mapping and only when flagged and mapped; a zero flag never changes anything |
| UnicodeLookup.Fold | src/Unicode/UnicodeCharacterDataFixed.h:92-94 | unicodeFold is c or, for a code point flagged unicode_has_fold and in the fold map, its fold |
| UnicodeLookup.Lower | src/Unicode/UnicodeCharacterDataFixed.h:96-98 | unicodeLower is c or, for a code point flagged unicode_has_lower and in the lower map, its lower case |
| UnicodeLookup.Upper | src/Unicode/UnicodeCharacterDataFixed.h:100-102 | unicodeUpper is c or, for a code point flagged unicode_has_upper and in the upper map, its upper case |
| UnicodeLookup.EntryByteDecodes | src/Unicode/UnicodeCharacterDataFixed.h:72-74 | the flags 0x80, 0x40 and 0x20 are distinct bits outside the five category bits, so a byte built from a category and flags gives each back |
| UnicodeLookup.FlagsKeepCategory | src/Unicode/UnicodeCharacterDataFixed.h:72-77 | setting or clearing any flag leaves the category of a byte unchanged |
| UnicodeTables.CaseRowsAt | src/Unicode/BuildUnicodeTables.py:65-70 | an empty mapping gives no case rows; otherwise one row per code point, in order |
| UnicodeTables.CaseRowsOnlyWithMapping | src/Unicode/BuildUnicodeTables.py:65-70 | codeEntry appends a lower row and sets unicode_has_lower exactly when field 13 is not empty, and an upper row and unicode_has_upper exactly when field 12 is not |
| UnicodeTables.FoldRowsSelected | src/Unicode/BuildUnicodeTables.py:75-82 | every caseFold row comes from a non-comment line with three fields and status C or S, and every such line gives its row |
| UnicodeTables.SpreadAt | src/Unicode/BuildUnicodeTables.py:92-93 | after a range loop every key of the inclusive range holds the line's value and every other key keeps its old one |
| UnicodeTables.AssignedMeaning | src/Unicode/BuildUnicodeTables.py:86-106 | property ranges are inclusive and later lines win: a code point has a property iff it had one or a matched range holds it, and then it is the last such range's |
| UnicodeTables.MarkedMeaning | src/Unicode/BuildUnicodeTables.py:110-117 | a code point is in extPict iff it was already or a matched Extended_Pictographic range holds it |
| UnicodeTables.ComplexStartIsMinimum | src/Unicode/BuildUnicodeTables.py:94-95 | firstGraphBreakComplex is the least of its start value and the first code points of the ranges whose class is not Control, CR or LF |
| UnicodeTables.EntriesAt | src/Unicode/BuildUnicodeTables.py:131-132 | range(lo, hi) gives hi - lo entries, each that of its code point, in order |
| UnicodeTables.GapRowsZeros | src/Unicode/BuildUnicodeTables.py:141-146 | a gap of N >= 0 code points writes exactly N zeros (N div 40 lines of 40, then N mod 40); a negative count still writes N mod 40 |
| UnicodeTables.FittingLineNoError | src/Unicode/BuildUnicodeTables.py:129-137 | a line that fits the table format reports no exclusion-zone error |
| UnicodeTables.RunAgrees | src/Unicode/BuildUnicodeTables.py:128-132 | a Last> line lays out the code points last + 1 to codept one after another, each at its lookup index |
| UnicodeTables.GapAgrees | src/Unicode/BuildUnicodeTables.py:134-147 | after a gap, less the zone width when it crosses excludeFrom, the line's own entry lands at its lookup index |
| UnicodeTables.LineKeepsLayout | src/Unicode/BuildUnicodeTables.py:123-148 | every fitting line keeps each entry at the index where unicodeGenCat looks for its code point |
| UnicodeTables.EmittedBelow | src/Unicode/BuildUnicodeTables.py:126-127 | the rows of a line below stopAt hold no entry at or above stopAt |
| UnicodeTables.LastBeforeStopIs | src/Unicode/BuildUnicodeTables.py:148 | unicode_last_codept is the code point of the last line before the first one at or above stopAt |
| UnicodeTables.SpreadRange | src/Unicode/BuildUnicodeTables.py:92-93 | the loop `for cp in range(lo, hi + 1)` sets every key of the inclusive range to the value |
| UnicodeTables.MarkRange | src/Unicode/BuildUnicodeTables.py:116-117 | the loop adds exactly the inclusive range to the set |
| UnicodeTables.TableBuilder.constructor | src/Unicode/BuildUnicodeTables.py:41-53 | the initial lists, maps and sets are empty, firstGraphBreakComplex is 0x200000 and last is -1 |
| UnicodeTables.TableBuilder.CodeEntry | src/Unicode/BuildUnicodeTables.py:55-73 | codeEntry appends one entry tagged from the loaded properties and the case rows of fields 13 and 12, and changes nothing else |
| UnicodeTables.TableBuilder.LoadCaseFolding | src/Unicode/BuildUnicodeTables.py:75-82 | the CaseFolding loop appends FoldRows and adds FoldCodes to foldPoints, and changes nothing else |
| UnicodeTables.TableBuilder.LoadGraphemeBreaks | src/Unicode/BuildUnicodeTables.py:86-95 | the grapheme-break loop assigns every matched range and lowers firstGraphBreakComplex to ComplexStart |
| UnicodeTables.TableBuilder.LoadIndicBreaks | src/Unicode/BuildUnicodeTables.py:99-106 | the InCB loop assigns every matched range's value |
| UnicodeTables.TableBuilder.LoadPictographics | src/Unicode/BuildUnicodeTables.py:110-117 | the emoji loop marks every matched Extended_Pictographic range |
| UnicodeTables.TableBuilder.FillGap | src/Unicode/BuildUnicodeTables.py:141-146 | the gap branch appends GapRows of the count and nothing else |
| UnicodeTables.TableBuilder.RangeEntries | src/Unicode/BuildUnicodeTables.py:128-132 | a Last> line appends the entries and case rows of range(last + 1, codept) from its own fields, and records a zone error exactly when the test at line 129 fires |
| UnicodeTables.TableBuilder.GapBefore | src/Unicode/BuildUnicodeTables.py:134-146 | a line that does not follow last appends the zero rows of GapCount and records a zone error exactly when the test at lines 135-136 fires |
| UnicodeTables.TableBuilder.DataLineStep | src/Unicode/BuildUnicodeTables.py:124-148 | one pass appends LineRows and the case rows from FirstCovered through codept, and sets last to codept |
| UnicodeTables.TableBuilder.LoadUnicodeData | src/Unicode/BuildUnicodeTables.py:121-150 | the UnicodeData loop appends exactly the whole-file rows DataRows to codeCategory, DataCaseRows of fields 13 and 12 to caseLower and caseUpper, and DataZoneErrors to the error list, stopping at stopAt; last ends as the last code point handled; no entry at or above stopAt; on fitting data every entry keeps its lookup index and there is no error |
| UnicodeTables.FittingDataNoErrors | src/Unicode/BuildUnicodeTables.py:129-137 | a file whose every line fits the table format, read from outside the exclusion zone, reports no exclusion-zone error |
| UnicodeTables.DataCaseRowsMapped | src/Unicode/BuildUnicodeTables.py:65-70 | every lower and upper case row the whole file produces has a non-empty mapping |
| UnicodeTables.DataCaseRowsOwn | src/Unicode/BuildUnicodeTables.py:121-150 | for every line read before stopAt, its own code point and field 13 (or 12) is a caseLower (or caseUpper) row exactly when that field is not empty |
| UnicodeTables.DataRowsOwn | src/Unicode/BuildUnicodeTables.py:121-150 | every line read before stopAt contributes its own entry, tagged from its fields and the loaded properties, to codeCategory |
| UnicodeTables.BuildTables | src/Unicode/BuildUnicodeTables.py:27-169 | the whole script: the loaded maps and sets, codeCategory, caseLower, caseUpper and the zone errors as the whole-file functions of the UnicodeData lines, the header constants, no entry at or above stopAt, and on fitting data a table laid out for the lookup with no error marker |
| RegexTraits.CatMask | src/Unicode/UnicodeCharacterDataFixed.h:41-70 | CatMask_xx is a single bit above the 32 bits of the named classes |
| RegexTraits.CatMaskConstants | src/Unicode/UnicodeCharacterDataFixed.h:41-53 | CatMask_Cc, CatMask_Mc, CatMask_Me and CatMask_Mn are the bits 32 + their category ordinals |
| RegexTraits.CatMasksDistinct | src/Unicode/UnicodeCharacterDataFixed.h:41-70 | the bits of two categories meet exactly when the categories are the same |
| RegexTraits.Category | src/Unicode/UnicodeCharacterDataFixed.h:76-82 | the category isctype indexes is unicodeGenCat and below the category count |
| RegexTraits.Translate | src/Unicode/UnicodeRegexTraits.h:75 | translate is the identity |
| RegexTraits.IsCombiningMeaning | src/Unicode/UnicodeRegexTraits.h:16-18 | is_combining holds exactly for the categories Mc, Me and Mn |
| RegexTraits.MarkBits | src/Unicode/UnicodeRegexTraits.h:17 | of the 32 category bits, exactly those of Mc, Me and Mn meet their union |
| RegexTraits.IsCTypeCases | src/Unicode/UnicodeRegexTraits.h:152-159 | isctype uses the ASCII table below 128, treats U+0085 as Cc, cntrl and vertical space, and is always true for mask_unicode above 255 |
| RegexTraits.IsCTypeAbove255 | src/Unicode/UnicodeRegexTraits.h:157-158 | above U+00FF a class holds when it includes mask_unicode or meets the category's mask |
| RegexTraits.IsCTypeLatin1 | src/Unicode/UnicodeRegexTraits.h:154-158 | from U+0080 to U+00FF, apart from U+0085, only the category's mask decides |
| RegexTraits.IsCTypeUnion | src/Unicode/UnicodeRegexTraits.h:152-159 | a code point is in a union of classes exactly when it is in one of them, and in no class of the empty mask |
| RegexTraits.Value | src/Unicode/UnicodeRegexTraits.h:161-170 | value is the digit's value for 0-9, A-F and a-f when below radix, and -1 otherwise |
| RegexTraits.Lowered | src/Unicode/UnicodeRegexTraits.h:131-134 | the narrow name has one lower-cased character per code point |
| RegexTraits.LowerName | src/Unicode/UnicodeRegexTraits.h:130-134 | the shared loop fails at any code point above 127 and otherwise gives the lower-cased name |
| RegexTraits.LookupClassname | src/Unicode/UnicodeRegexTraits.h:129-137 | lookup_classname returns ClassnameOf |
| RegexTraits.ClassnameIgnoresCase | src/Unicode/UnicodeRegexTraits.h:129-137 | two names that differ only in ASCII case give the same class |
| RegexTraits.ClassnameUnknown | src/Unicode/UnicodeRegexTraits.h:129-137 | a name with a non-ASCII code point or an unknown lower-cased name gives 0; a known one its class |
| RegexTraits.LookupCollatename | src/Unicode/UnicodeRegexTraits.h:139-150 | lookup_collatename returns CollatenameOf |
| RegexTraits.CollatenameCases | src/Unicode/UnicodeRegexTraits.h:139-150 | inputs shorter than 2 come back unchanged; a known character name gives its character; a 2-character input that is no name comes back exactly when it is a digraph; anything else gives the empty string |
| RegexTraits.WideAsWrittenShiftsPlane | src/Unicode/UnicodeRegexTraits.h:84 | as written the high unit leaves out the 0x10000 offset, so every supplementary code point below U+100000 comes back one plane higher |
| RegexTraits.WideAsWrittenExample | src/Unicode/UnicodeRegexTraits.h:84-85 | as written U+1F600 becomes D87D DE00, the pair of U+2F600, where section 2.1 of RFC 2781 gives D83D DE00 |
| RegexTraits.WideIsUtf16 | src/Unicode/UnicodeRegexTraits.h:82-88 | the corrected wide text is the RFC 2781 encoding, which utf16to32 turns back into the code points |
| RegexTraits.ToWide | src/Unicode/UnicodeRegexTraits.h:81-88 | (with the high surrogate corrected, see Findings) the wide text loop of transform builds Wide of its input |
| RegexTraits.BeforeNulMeaning | src/Unicode/UnicodeRegexTraits.h:94-98 | the loop keeps the sort key's units up to its first zero unit, and none past it |
| RegexTraits.TakeKey | src/Unicode/UnicodeRegexTraits.h:94-98 | the copying loop stops at the first zero unit |
| RegexTraits.Transform | src/Unicode/UnicodeRegexTraits.h:79-100 | (with the high surrogate corrected) transform and transform_primary give the empty string for empty input and otherwise the sort key of the wide text, cut at its terminating zero |
| RegexTraits.TransformMeaning | src/Unicode/UnicodeRegexTraits.h:79-100 | (with the high surrogate corrected) for scalar text the key is taken of the RFC 2781 UTF-16 encoding and holds no zero |
| Utf.ByteClasses | src/RegularExpression.cpp:46-51 | each byte test of utf8byte as a range of byte values |
| Utf.ByteClassesPartition | src/RegularExpression.cpp:46-51 | ASCII, trail, lead-2, lead-3, lead-4 and trash bytes cover every byte, and no byte is in two of them, under both readings of isLead4 |
| Utf.ImplicitLengthValues | src/RegularExpression.cpp:56-62 | with isLead4 corrected to accept F4, implicit_length is 1 exactly for 0x00-0x7F, 2 for 0xC2-0xDF, 3 for 0xE0-0xEF, 4 for 0xF0-0xF4 and 0 for trail and trash bytes |
| Utf.StepLengthIsWellFormed | src/RegularExpression.cpp:88-107 | the loop of utf8to32 consumes exactly the well-formed UTF-8 sequence of section 4 of RFC 3629 at the current byte, and a single non-ASCII byte when there is none |
| Utf.StepValueMeaning | src/RegularExpression.cpp:88-108 | a well-formed sequence decodes to a Unicode scalar value, an ASCII byte to itself, and any other byte to its surrogate escape |
| Utf.Utf8To32 | src/RegularExpression.cpp:85-111 | utf8to32 (corrected) builds Utf8To32Of of its input, one sequence at a time |
| Utf.EncodeLengths | src/RegularExpression.cpp:113-139 | utf32to8 writes one byte below 0x80, two below 0x800, three below 0x10000 outside the surrogates, four up to 0x10FFFF, the escaped byte back for 0xDC80-0xDCFF, and U+FFFD for any other surrogate or larger value |
| Utf.EncodeAsWrittenAgrees | src/RegularExpression.cpp:125-130 | the encoder as written agrees with the corrected one everywhere except at 0x10000 and 0x110000 |
| Utf.Utf32To8 | src/RegularExpression.cpp:113-139 | utf32to8 (corrected) builds Utf32To8Of of its input, one code point at a time |
| Utf.DecodeRoundTrip | src/RegularExpression.cpp:85-139 | utf32to8(utf8to32(s)) == s for every byte string, the escaped bytes included |
| Utf.EncodeRoundTrip | src/RegularExpression.cpp:85-139 | utf8to32(utf32to8(u)) == u for every sequence of Unicode scalar values |
| Utf.AsWrittenRoundTripShort | src/RegularExpression.cpp:85-139 | on well-formed UTF-8 of 1- to 3-byte characters, the conversions as written agree with the corrected ones and round-trip |
| Utf.EscapeAsWrittenLoses | src/RegularExpression.cpp:108 | as written, the byte 0x80 is escaped to 0xDB80, which utf32to8 turns into U+FFFD, where the corrected 0xDC80 comes back as 0x80 |
| Utf.FourByteAsWrittenEscapes | src/RegularExpression.cpp:103 | as written, the four bytes of U+1F600 are escaped one by one, where the corrected decoder gives U+1F600 |
| Utf.FourByteAsWrittenSwallows | src/RegularExpression.cpp:103-105 | as written, a 4-byte lead, two bytes and a zero byte are read as one 3-byte to32 value and all four consumed |
| Utf.Lead4AsWrittenMissesF4 | src/RegularExpression.cpp:50 | as written, with a signed char, 0xF4 is not a lead byte, so the well-formed bytes of U+100000 are escaped one by one |
| Utf.EncodeAsWrittenBounds | src/RegularExpression.cpp:125-130 | as written, U+10000 is written as three bytes that decode to three escapes, and 0x110000 as four bytes |
| Utf.CombineIsRfc2781 | src/RegularExpression.cpp:76-78 | for a true surrogate pair the source's formula equals the one of section 2.2 of RFC 2781 and gives a supplementary code point |
| Utf.Utf16Unpaired | src/RegularExpression.cpp:80 | an unpaired surrogate passes through utf16to32 as it is |
| Utf.Utf16PassThrough | src/RegularExpression.cpp:73-83 | units that are no surrogates pass through utf16to32 unchanged |
| Utf.Utf16RoundTrip | src/RegularExpression.cpp:73-83 | utf16to32 decodes the RFC 2781 encoding of every sequence of scalar values back to it |
| Utf.Utf16To32 | src/RegularExpression.cpp:73-83 | the loop of utf16to32 builds Utf16To32Of of its input |
| Utf.Str | src/RegularExpression.cpp:1055-1062 | str(n) of a matched group is the document's bytes from its first to its last position, across the gap; an unmatched or out-of-range group gives the empty string |
| Utf.Length | src/RegularExpression.cpp:882-893 | length(p) is between 1 and 4 and stays within the document |
| Utf.LengthIsStep | src/RegularExpression.cpp:882-893 | the iterator's length(p) is the number of bytes utf8to32 consumes at p |
| Utf.FixedIsBoundary | src/RegularExpression.cpp:900-912 | fix_position moves at most three bytes forward, to a position not inside a valid sequence, and leaves such a position where it is |
| Utf.NextAtBoundary | src/RegularExpression.cpp:932-947 | from a boundary, operator++ reaches a boundary from which operator-- comes straight back |
| Utf.PreviousAtBoundary | src/RegularExpression.cpp:932-947 | from a boundary, operator-- reaches an earlier boundary from which operator++ comes straight back |
| Utf.DocumentIterator.constructor | src/RegularExpression.cpp:923-924 | construction at a position applies fix_position, ending on a boundary at most three bytes on |
| Utf.DocumentIterator.FixPosition | src/RegularExpression.cpp:900-912 | fix_position moves the position to Fixed of the old one |
| Utf.DocumentIterator.SetPosition | src/RegularExpression.cpp:930 | position(at) sets the position as given |
| Utf.DocumentIterator.Increment | src/RegularExpression.cpp:932-935 | operator++ advances by length(pos) |
| Utf.DocumentIterator.Decrement | src/RegularExpression.cpp:937-947 | operator-- moves back over one whole valid sequence, or one byte |
| Utf.DocumentIterator.Current | src/RegularExpression.cpp:949-957 | operator* is the code point utf8to32 decodes at the position |
| Grapheme.PairClusterRules | src/RegularExpressionTS.h:34-54 | pairCluster below the first complex code point joins only CR LF; otherwise a control on either side breaks, Hangul sequences, Extend, ZWJ, SpacingMark and Prepend join, and "maybe" only for two regional indicators, ZWJ before a pictograph, or an Indic Extend/Linker before a consonant |
| Grapheme.RegionalRun | src/RegularExpressionTS.h:61-66 | the count of regional indicators before the position never reaches past the backstop |
| Grapheme.RegionalRunMeaning | src/RegularExpressionTS.h:62-65 | the count is exactly the maximal run of regional indicators directly before the position, back to the backstop |
| Grapheme.PictScanMeaning | src/RegularExpressionTS.h:68-73 | the scan back from a joiner over Extend code points succeeds exactly when a pictograph followed only by Extend code points precedes it (rule GB11's context) |
| Grapheme.LinkScanMeaning | src/RegularExpressionTS.h:75-93 | the Indic scan back from a consonant succeeds exactly when a consonant precedes it through Extend and Linker code points with at least one Linker among them (rule GB9c's context) |
| Grapheme.MultipleCluster | src/RegularExpressionTS.h:56-96 | multipleCluster, with its two scanning loops, returns MultipleClusterOf: an odd run of regional indicators, a pictograph sequence before a ZWJ, or a linked conjunct |
| Grapheme.JoinsIsReference | src/RegularExpressionTS.h:106-113 | with consistent tables, pairCluster with multipleCluster keeps two code points together exactly when rules GB3 to GB999 of UAX #29 put no boundary between them |
| Grapheme.ClusterEnd | src/RegularExpressionTS.h:115-121 | the end of the cluster lies between its start and last |
| Grapheme.ClusterEndMeaning | src/RegularExpressionTS.h:115-121 | every code point before the cluster end joins its predecessor, and the end is last or a code point that does not |
| Grapheme.ClusterEndIsReference | src/RegularExpressionTS.h:115-121 | with consistent tables, the cluster end is the first UAX #29 boundary after the start, or last |
| Grapheme.Continues | src/RegularExpressionTS.h:110-120 | the pair test match_combining makes is Joins: yes, or maybe confirmed by multipleCluster |
| Grapheme.MatchCombining | src/RegularExpressionTS.h:100-125 | match_combining succeeds exactly at a cluster start before last, and then moves to the cluster end; otherwise the position is unchanged |
| Configuration.EncodeDelimitedString | src/Configuration.cpp:51-59 | the in-place loop writes the text with CR, LF and backslash escaped as \r, \n and \\ (proved against Escape), wrapped in backslashes |
| Configuration.DecodeDelimitedString | src/Configuration.cpp:37-49 | a value longer than two characters that begins and ends with a backslash gives its inside with \r, \n and \\ read back (proved against Unescape); any other value gives the empty string |
| Configuration.Splice | src/Configuration.cpp:41-43 | s.replace(i, n, piece) keeps the text before i, puts piece there and keeps the text after the n replaced characters |
| Configuration.UnescapeEscape | src/Configuration.cpp:37-59 | reading back the escapes of an escaped text gives the text |
| Configuration.DecodeEncode | src/Configuration.cpp:37-59 | decodeDelimitedString(encodeDelimitedString(s)) == s for every s; the empty text is written as two backslashes, which decode to the empty string |
| Configuration.EscapeHasNoLineBreak | src/Configuration.cpp:51-59 | the encoded form has no CR or LF, so it stays on one line of the file |
| Configuration.ReplaceAll | src/Configuration.cpp:228 | std::replace keeps the length and replaces exactly the occurrences of one character |
| Configuration.LoadExtensionKeys | src/Configuration.cpp:220-229 | "new", "none" and "default" load as the keys "", "." and "*"; ".a.b" loads as the key "a b"; the profile "(disable)" loads as the empty profile |
| Configuration.SkipBlanks | src/Configuration.cpp:31 | the leading `\s*` of the data-line pattern: a suffix of the text, all blanks before it, starting with a non-blank if anything is left |
| Configuration.TrimEnd | src/Configuration.cpp:31 | the trailing `\s*`: a prefix of the text, all blanks after it, ending with a non-blank if anything is left |
| Configuration.RunLength | src/Configuration.cpp:31 | the `(\S+)` group: the length of the non-blank run the text begins with, followed by a blank if the text goes on |
| Configuration.ReadDataLine | src/Configuration.cpp:31 | a line matching `\s*(\S+)\s+(.*\S)\s*` gives a non-empty first group without blanks and a second with no blank at either end and no line break |
| Configuration.ReadDataLineJoin | src/Configuration.cpp:31 | a name without blanks, a TAB and a value with no surrounding blanks and no line break split back into that name and value |
| Configuration.SaveLoadExtensionFields | src/Configuration.cpp:220-229 | the name and value saved for an entry whose key is reserved or has no period, and whose profile is not literally "(disable)", load back as the entry, the empty profile included |
| Configuration.SavedLineSplits | src/Configuration.cpp:340-348 | the line saved for an entry splits by the data-line pattern into the name and value written, when the key has no blank but the space, the profile no surrounding blanks or line break, and a reserved key a non-empty profile |
| Configuration.SaveLoadExtension | src/Configuration.cpp:340-348 | the line saved for an entry, split by the data-line pattern and loaded, gives the entry back, for a reserved key with a non-empty profile or a key without a period and without blanks but the space, and a profile other than "(disable)" with no surrounding blanks or line break |
| Configuration.EmptyReservedProfileLost | src/Configuration.cpp:342-344 | the keys "", "." and "*" with the empty profile are saved as "new", "none" or "default" and a TAB, which the data-line pattern rejects, so the entry is not read back |
| Configuration.HeaderCompatibility | src/Configuration.cpp:80-83 | the header this version writes (level 2, compatibility 1, line 243) is accepted; a header that does not match or has a compatibility number above 2 stops loading |
| Search.SpanMeaning | src/Search.cpp:48 | a greedy digit run [d]{0,max} takes only characters of its class and stops short of max only before a character outside it |
| Search.ByteChar | src/Search.cpp:67-70 | static_cast<char> keeps the value modulo 256 |
| Search.LetterMatch | src/Search.cpp:48 | a numeric escape letter matches only with at least one digit of its class and stays inside the string |
| Search.EscapeAtIsTable | src/Search.cpp:59-79 | the escape the regular expression's ordered alternation picks equals the switch on its first character: \\, \0, \n, \r, \t give that character, b/d/o/x with digits the byte of their value, u with hex digits the code unit through the code-page conversion, anything else the kept backslash |
| Search.SimpleEscapes | src/Search.cpp:62-66 | \\, \0, \n, \r and \t take one character and give backslash, NUL, LF, CR and tab |
| Search.HexEscape | src/Search.cpp:70 | \x followed by two hex digits takes both and gives the byte 16*h1 + h2 |
| Search.DecimalEscape | src/Search.cpp:68 | \d followed by three decimal digits takes all three and gives their value modulo 256 |
| Search.WideEscape | src/Search.cpp:71-77 | \u followed by four hex digits gives the code-page conversion of that UTF-16 code unit |
| Search.LetterWithoutDigits | src/Search.cpp:60 | b, d, o, u or x without a digit of its class after it: the empty alternative matches, the backslash is kept and the letter stays text |
| Search.UnrecognisedEscapeKept | src/Search.cpp:60 | a backslash before any other character, or at the very end, is kept |
| Search.MatchEscapeMeaning | src/Search.cpp:48-54 | the whole pattern matches the remaining text exactly when it holds a backslash and no CR or LF follows the first one, and m[1] ends at that backslash |
| Search.NextPass | src/Search.cpp:53-80 | one pass consumes at least one character and fails exactly when the pattern fails |
| Search.ExpandExtendedSearchString | src/Search.cpp:50-83 | the while loop, which appends m[1] and the escape's meaning and goes on with m[4] until the pattern fails, computes Expand of the whole text |
| Search.ExpandPass | src/Search.cpp:58-80 | one matched pass contributes its text and the expansion goes on where m[4] starts |
| Search.ExpandAtEnd | src/Search.cpp:52 | nothing remains to expand at the end of the text |
| Search.NoBackslashUnchanged | src/Search.cpp:54-56 | text without a backslash comes out unchanged |
| Search.PlainCopied | src/Search.cpp:58 | a character other than a backslash is copied as it is |
| Search.EscapeExpanded | src/Search.cpp:58-80 | a backslash with no line break after it is replaced by its escape's meaning, and expansion continues after the escape |
| Search.LineBreakStopsExpansion | src/Search.cpp:54-56 | from a backslash followed somewhere by CR or LF the pattern fails and the rest is appended unchanged |
| Search.ExpandQuoted | src/Search.cpp:50-83 | for one-line text, doubling every backslash is undone by the expansion |
| Search.UpdateSearchHistory | src/Search.cpp:121-134 | an empty string leaves the history alone; otherwise the string is promoted as in updateComboHistory: unchanged when it is already the newest entry, else an earlier copy is removed and it is appended |
| ColumnsPlusPlus.ClampCastIsClamp | src/ColumnsPlusPlus.h:40-51 | for integral source and target types, clamp_cast gives a value of the target type: v itself when it fits, otherwise the nearest bound of the target type |
| ColumnsPlusPlus.GetFileExtensionCases | src/ColumnsPlusPlus.h:329-337 | the key is "" exactly when the path has no backslash; with a backslash it is "." exactly when no period follows the last backslash or the path ends in a period; otherwise it is the lower-cased text after the last period, which has no period or backslash after it |
| ColumnsPlusPlus.RemoveFirst | src/ColumnsPlusPlus.h:101-105 | erasing the found copy of s shortens a list that holds s by one, leaves one without s as it was, and removes no other entry |
| ColumnsPlusPlus.RemoveFirstNoDuplicates | src/ColumnsPlusPlus.h:101-105 | in a list without duplicates, the erase removes the only copy of s and leaves a list without duplicates |
| ColumnsPlusPlus.History.Promote | src/ColumnsPlusPlus.h:96-111 | updateComboHistory leaves the history unchanged when s is already the newest entry, and otherwise removes the earlier copy of s and appends s |
| ColumnsPlusPlus.PromoteKeepsUnique | src/ColumnsPlusPlus.h:100-109 | after the update, a history without duplicates still has none, its newest entry is s, and s occurs exactly once |
| ColumnsPlusPlus.NewCell | src/ColumnsPlusPlus.h:681-707 | a start at or past the end of the row gives the empty cell at the end and npos; otherwise the cell runs from start over the indentation tabs (only for the first cell with leading-tabs indent) to the next tab or the end of the row, next is the position after that tab or npos, and [left, right) is the cell without its leading and trailing spaces (empty at the end when the cell is all spaces) |
| ColumnsPlusPlus.CellText | src/ColumnsPlusPlus.h:710 | text() is end - start characters long |
| ColumnsPlusPlus.CellTrim | src/ColumnsPlusPlus.h:711 | trim() is right - left characters long |
| ColumnsPlusPlus.CellAccessors | src/ColumnsPlusPlus.h:710-721 | for every cell the constructor builds, text() followed by terminator() is the row from the cell start through its tab; text() has a tab only among the indentation tabs; trim() has no space at either end; trailing() and the indentation are never negative |
| Convert.FindAnyMeaning | src/Convert.cpp:427 | find_first_of from a position: everything before the position found is outside the stop set, and no position found means none of the rest is in it |
| Convert.LastNonBlankMeaning | src/Convert.cpp:387 | find_last_not_of(' '): everything after the position found, up to the bound, is a blank |
| Convert.ScanQuoted | src/Convert.cpp:390-393 | the loop over a quoted field accepts exactly when every quote or escape character inside is paired with the character after it and a quote only with a second quote |
| Convert.ScanUnquoted | src/Convert.cpp:399-405 | the loop over an unquoted field accepts exactly when every separator, line end and (strict) quote met is covered by an escape character with a character after it |
| Convert.IsValidField | src/Convert.cpp:384-407 | (corrected, see Findings) isValidField with the first non-blank character checked: true for an all-blank field; for a quoted one exactly when both ends hold the same enabled quote and the inside is paired; otherwise exactly when the unquoted scan, from the first non-blank character, accepts |
| Convert.ValidFieldAsWrittenExample | src/Convert.cpp:399 | as written the unquoted scan starts one past the first non-blank character, so ",ab" passes as a plain field under the default settings although the corrected test rejects it |
| Convert.ShortFieldsAsWrittenExample | src/Convert.cpp:399-405 | as written the scan does not run when the non-blank part has one or two characters, so "," and "a," pass as plain fields under the default settings although the corrected test rejects both |
| Convert.ValidFieldChecksFirst | src/Convert.cpp:395-405 | the corrected test rejects every field whose first non-blank character is an unescaped separator, CR, LF or (strict) quote |
| Convert.ChooseQuote | src/Convert.cpp:454-456 | the quote chosen is an enabled one; with both enabled it is the one the field holds no more of, the double quote on a tie |
| Convert.QuoteField | src/Convert.cpp:457-464 | the quoting loop writes the quote, the field with each quote and enabled escape character doubled, and the quote |
| Convert.DoubledLength | src/Convert.cpp:459-462 | the quoted inside grows by exactly one character per quote and per enabled escape character of the field |
| Convert.DoubledIsBody | src/Convert.cpp:459-462 | the doubled inside is a well-formed quoted body: a reader pairs every doubled character |
| Convert.QuotedIsValid | src/Convert.cpp:453-465 | a field wrapped in an enabled quote passes isValidField, strict or not |
| Convert.DecodeTnr | src/Convert.cpp:430-438 | the TNR loop, editing the field in place, yields TnrDecode: enc t, enc n, enc r become TAB, LF, CR, a doubled enc becomes one, anything else is kept |
| Convert.TnrShort | src/Convert.cpp:431 | a field shorter than two characters is left unchanged |
| Convert.TnrNone | src/Convert.cpp:431 | text without the encode character is left unchanged |
| Convert.TnrRoundTrip | src/Convert.cpp:430-438 | the TNR decoding undoes the reader's TNR encoding (subTab, subLF, subCR, subEnc) for every text, unless enc is one of t, n and r |
| Convert.DecodeUrl | src/Convert.cpp:440-447 | the URL loop, editing the field in place, yields UrlDecode: enc followed by two hexadecimal digits becomes the character of that value, anything else is kept |
| Convert.UrlShort | src/Convert.cpp:441 | a field shorter than three characters is left unchanged |
| Convert.UrlNone | src/Convert.cpp:441 | text without the encode character is left unchanged |
| Convert.UrlRoundTrip | src/Convert.cpp:440-447 | the URL decoding undoes the reader's URL encoding for every text when enc is one byte, no hexadecimal digit and none of TAB, LF and CR |
| Convert.HexUpper | src/Convert.cpp:256-257 | the digit written is an upper-case hexadecimal digit whose value is the nibble |
| Convert.UrlBytes | src/Convert.cpp:252-259 | subEnc in URL style has three characters per code-page byte of the encode character |
| Convert.Substitutions | src/Convert.cpp:235-263 | subTab, subLF, subCR, subEnc for each encoding style, and subEsc/subSep equal to subEnc exactly when the active encode character is the escape character or separator |
| Convert.Trimmed | src/Convert.cpp:339-342 | the kept text is a prefix of the stretch and does not end with a blank |
| Convert.ReadQuoted | src/Convert.cpp:286-333 | the quoted-field loop writes QuotedRun's text and hands QuotedRun's position to the unquoted loop |
| Convert.ReadUnquoted | src/Convert.cpp:335-369 | the unquoted-field loop writes UnquotedRun's text and returns where the next field starts, or none at the end of the text |
| Convert.ReadBody | src/Convert.cpp:286-369 | a field body from its first non-blank character: the optional quoted part, then the unquoted part |
| Convert.ReadField | src/Convert.cpp:279-369 | one pass of the outer loop: leading blanks kept only when quotes are preserved, then the body; the next field starts strictly later |
| Convert.SeparatedValuesToTabs | src/Convert.cpp:275-373 | the converted text of one selection is ToTabs over its fields, with the substitutions of the settings |
| Convert.AppendEscapedBlanks | src/Convert.cpp:472 | appending n escaped blanks adds exactly n pairs of escape character and blank |
| Convert.EscapeAll | src/Convert.cpp:474-478 | every separator, escape character, LF and CR between the first and last non-blank gets the escape character before it |
| Convert.EscapeField | src/Convert.cpp:466-482 | the escaping branch writes the leading and trailing blanks escaped (all of them for an all-blank field) and the middle escaped where needed |
| Convert.DecodeField | src/Convert.cpp:429-447 | the decoding of the active style leaves a non-empty field non-empty |
| Convert.ConvertField | src/Convert.cpp:429-489 | (with the corrected isValidField) one non-empty field is written as it is, quoted, escaped, or (no quote or escape enabled) the conversion stops with an error |
| Convert.WriteFieldAt | src/Convert.cpp:428-493 | (with the corrected isValidField) the field up to the next TAB, LF or CR is written by FieldText and the delimiter after it as the separator, LF or CR; an error stops the whole text |
| Convert.TabsPass | src/Convert.cpp:426-494 | (with the corrected isValidField) one pass of the field loop writes a piece and the next start lies strictly later; the whole output is the piece before the rest |
| Convert.TabsToSeparatedValues | src/Convert.cpp:424-496 | (with the corrected isValidField) the converted text of one selection is TabsFrom its start, or none when a field cannot be written |
| ConvertReading.PlainReads | src/Convert.cpp:335-349 | a field with no character the unquoted loop stops at, starting with no blank or quote and ending with no blank, is read back as it is |
| ConvertReading.DoubledReads | src/Convert.cpp:291-332 | the quoted loop started on the doubled form of a field reads the field and stops just after the closing quote |
| ConvertReading.QuotedReads | src/Convert.cpp:286-333 | a field written in quotes and followed by a separator, line end or end of text is read back as the field with its delimiter |
| ConvertReading.RawHasNoStop | src/Convert.cpp:452 | (of the writer with the corrected isValidField) a field tabsToSeparatedValues writes as it is holds no character separatedValuesToTabs's unquoted loop stops at |
| ConvertReading.WrittenForms | src/Convert.cpp:448-465 | under reversible settings every non-empty field is written, either as it is or in quotes |
| ConvertReading.TabsWritten | src/Convert.cpp:483-489 | under reversible settings the error branch is never taken: every text is written |
| ConvertReading.TextRoundTrip | src/Convert.cpp:277-371 | (of the writer with the corrected isValidField) under reversible settings separatedValuesToTabs on the output of tabsToSeparatedValues gives back the original tab-separated text |
| Timestamps.MaxLengthIsMaximum | src/TimestampsHelpers.cpp:142-144 | the longest-length loop gives a length no name exceeds and that some name has, unless all are empty |
| Timestamps.LongestLength | src/TimestampsHelpers.cpp:142 | the loop over the names computes MaxLength |
| Timestamps.NewLocaleWords | src/TimestampsHelpers.cpp:83-145 | the LocaleWords constructor keeps the twelve month names of each kind, the seven day names of each kind and the two AM/PM words, and sets fullMax, geniMax and weekMax to the longest lengths |
| Timestamps.MonthIndex | src/TimestampsHelpers.cpp:195-197 | stoi of the month digits less one indexes the twelve month names |
| Timestamps.WeekdayIndex | src/TimestampsHelpers.cpp:213-215 | the weekday digit indexes the seven day names |
| Timestamps.Substr | src/TimestampsHelpers.cpp:187 | substr(pos, n) is the n characters from pos, or as many as there are |
| Timestamps.PadToWidth | src/TimestampsHelpers.cpp:197 | a padded name has exactly the width; a shorter name keeps all its characters followed by spaces, a longer one is cut |
| Timestamps.RunEnd | src/TimestampsHelpers.cpp:186 | min(find_first_not_of(c, i), length()) ends the run of c at i: every character before it is c, and the one at it is not |
| Timestamps.RunEndUnique | src/TimestampsHelpers.cpp:186 | a run of n equal characters followed by another character or the end ends at i + n |
| Timestamps.YearText | src/TimestampsHelpers.cpp:187 | y takes two characters for a run shorter than three and four otherwise |
| Timestamps.FormatYear | src/TimestampsHelpers.cpp:184-190 | y and yy give the two-digit year, three or more y the four-digit year, and the whole run is consumed |
| Timestamps.FormatClock | src/TimestampsHelpers.cpp:226-246 | a single H, h or m drops a leading zero, a longer run gives both digits, and the whole run is consumed |
| Timestamps.FormatSeconds | src/TimestampsHelpers.cpp:247-251 | a run of s with no ".s" or ",s" after it gives the seconds, one digit for a single s with a leading zero |
| Timestamps.FormatFraction | src/TimestampsHelpers.cpp:247-258 | a run of s, a period or comma and k more s give the seconds, that separator and the first k of the seven fraction digits |
| Timestamps.FormatRun | src/TimestampsHelpers.cpp:191-246 | a maximal run of M, N, d, D, H, h, m, T, t, y or Z is consumed whole and appends the text of its length |
| Timestamps.FormatPaddedMonth | src/TimestampsHelpers.cpp:204-205 | five or more N give the full month name padded with spaces to the longest name's width, never cut |
| Timestamps.BeforeNoonMeaning | src/TimestampsHelpers.cpp:263 | the string comparison of the hour digits with "12" is the numeric comparison of the hour with 12 |
| Timestamps.AmPmText | src/TimestampsHelpers.cpp:260-276 | a single T or t gives one character, a longer run the whole AM/PM word |
| Timestamps.FormatQuoted | src/TimestampsHelpers.cpp:278-286 | text between apostrophes is copied as it is |
| Timestamps.FormatQuotedApostrophe | src/TimestampsHelpers.cpp:279-285 | inside quoted text two apostrophes give one apostrophe and the quoted text goes on |
| Timestamps.FormatUnclosedQuote | src/TimestampsHelpers.cpp:279-285 | an apostrophe that is never closed quotes the rest of the picture |
| Timestamps.NextQuote | src/TimestampsHelpers.cpp:280 | the next apostrophe, or the end: no apostrophe lies before it |
| Timestamps.CopyQuoted | src/TimestampsHelpers.cpp:279-285 | the for (;;) loop of the apostrophe case returns Quoted's text and position |
| Timestamps.BlankedText | src/TimestampsHelpers.cpp:302-321 | the z forms give two characters, a leading zero shown as a space |
| Timestamps.BlankedDayOfYear | src/TimestampsHelpers.cpp:310-313 | zD gives three characters ending in the last digit of the day of the year |
| Timestamps.FormatBlanked | src/TimestampsHelpers.cpp:301-325 | z before M, d, H, h or m gives that field's two digits with a leading zero shown as a space (zm corrected to use the minute's digit) |
| Timestamps.BlankedMinuteAsWrittenWrong | src/TimestampsHelpers.cpp:323 | as written, zm for a minute 00-09 shows the last digit of the twelve-hour hour, which differs from the minute's digit whenever those digits differ |
| Timestamps.BlankedMinuteAsWrittenExample | src/TimestampsHelpers.cpp:323 | at 15:05 zm as written gives " 3" where " 5" is meant |
| Timestamps.FormatLiteralZ | src/TimestampsHelpers.cpp:295-345 | zz gives z; a z at the end, or before a character it does not combine with, gives z and advances one position |
| Timestamps.ZCase | src/TimestampsHelpers.cpp:295-346 | (with zm corrected, see Findings) the inner switch of the z case returns ZPiece |
| Timestamps.FormatVerbatim | src/TimestampsHelpers.cpp:347-349 | characters that are not picture letters are copied as they are |
| Timestamps.FormatPlainPicture | src/TimestampsHelpers.cpp:347-349 | a picture without picture letters comes out unchanged |
| Timestamps.PictureStep | src/TimestampsHelpers.cpp:183-350 | (with zm corrected) the switch of the picture loop appends Piece's text and moves to Piece's position |
| Timestamps.FormatPicture | src/TimestampsHelpers.cpp:181-352 | (with zm corrected) the picture loop builds Format of the picture |
| Timestamps.FormatDefaultPicture | src/TimestampsHelpers.cpp:179 | the default picture yyyy-MM-dd'T'HH:mm:ss.sssZZ gives the extended ISO 8601 form: date, T, time with three fraction digits, and the UTC offset |
| Timestamps.FormatTimePoint | src/TimestampsHelpers.cpp:165-179 | (with zm corrected) the locale short and long formats come from Windows, the custom format runs the picture loop over the custom picture, and any other format over the default picture |
| Timestamps.ParseDividers | src/TimestampsHelpers.cpp:513-518 | letters and digits never divide, every other ASCII character does, and above ASCII exactly the listed dashes, minus signs and spaces do |
| Numeric.Distance | src/Numeric.h:74 | the age of slot j in the three-entry ring is below the ring's size, and no more than the current slot exactly when j is no later than it |
| Numeric.SlotAt | src/Numeric.h:74 | the slot of the line d lines back lies in the ring |
| Numeric.SlotDistance | src/Numeric.h:74 | slot and age are inverse: every age has exactly one slot and every slot one age |
| Numeric.Advance | src/Numeric.h:122-123 | ++currentEntry wrapping to 0 stays inside the ring |
| Numeric.AdvanceAges | src/Numeric.h:121-124 | moving the current slot on reuses the slot of the oldest line and makes every other slot one line older |
| Numeric.GrowAges | src/Numeric.h:117-120 | appending a slot after the current last one makes every old slot one line older |
| Numeric.Widened | src/Numeric.h:75 | the insert grows the cache to exactly the requested size |
| Numeric.WidenedKeepsLines | src/Numeric.h:74-76 | after the insert every old entry still caches the same line, the new entries are fresh and lie beyond the old ring, and the slot returned, currentEntry + 1, holds the oldest line |
| Numeric.Unskipped | src/Numeric.h:58 | skipMap lists indices of lines, no more of them than there are lines |
| Numeric.UnskippedMembers | src/Numeric.h:127-135 | a line's index is in skipMap exactly when its skip flag is clear |
| Numeric.UnskippedIncreasing | src/Numeric.h:128 | skipMap is strictly increasing |
| Numeric.UnskippedSkipLast | src/Numeric.h:133-134 | setting the flag of the current line removes the last entry of skipMap |
| Numeric.UnskippedPush | src/Numeric.h:127-128 | a new unskipped line appends its index to skipMap |
| Numeric.LastFiniteIsLatest | src/Numeric.h:60 | lastFiniteResult is 0 when no finite result exists, and otherwise a finite result after which only non-finite ones follow |
| Numeric.LastFinitePush | src/Numeric.h:126 | the update of lastFiniteResult on push is the last finite value of the longer list |
| Numeric.PushedLastFinite | src/Numeric.h:126 | after push, lastFiniteResult is the last finite result of all earlier lines |
| Numeric.IndexArg | src/Numeric.h:247 | the cast of the index truncates a finite value of at least 1 to its integer part, and gives 0 otherwise |
| Numeric.PushConsistent | src/Numeric.h:116-130 | push keeps the history's invariant: one result and flag per line, skipMap the unskipped lines, lastFiniteResult the last finite result before the current line, a ring of at most three slots until widened |
| Numeric.SetResultConsistent | src/Numeric.cpp:593 | storing the current line's result keeps the invariant |
| Numeric.SkipConsistent | src/Numeric.h:132-135 | skip keeps the invariant, and skipMap has an entry to drop |
| Numeric.WidenConsistent | src/Numeric.h:75 | widening the cache to reach an older line keeps the invariant |
| Numeric.CalculateHistory.constructor | src/Numeric.h:56-64 | a new history has no lines, no cache entries and lastFiniteResult 0 |
| Numeric.CalculateHistory.Push | src/Numeric.h:116-130 | push appends a NaN result, a clear flag and the line's index in skipMap, moves lastFiniteResult on, and grows the ring to three slots, then reuses the oldest slot, invalidated |
| Numeric.CalculateHistory.SetResult | src/Numeric.cpp:593 | the last result is replaced and nothing else changes |
| Numeric.CalculateHistory.Skip | src/Numeric.h:132-135 | the current line's flag is set and the last entry of skipMap removed; nothing else changes |
| Numeric.CalculateHistory.Skipped | src/Numeric.h:137 | skipped(n) is true exactly when line n is not in skipMap |
| Numeric.CalculateHistory.Previous | src/Numeric.h:71-77 | previous(n) is npos exactly when there are not n + 1 unskipped lines; otherwise it returns the slot holding that line, widening the cache first when that line is older than the ring |
| Numeric.CalculateHistory.Last | src/Numeric.h:244-250 | last() with no argument is lastFiniteResult; with index i it is the result i lines back when that exists and is finite, otherwise the default argument or NaN |
| Numeric.CalculateHistory.LastWithoutIndex | src/Numeric.h:245 | last() with no argument is the most recent finite result before the current line, or 0 |
| Update.MatchVersionTagShape | src/Update.cpp:81-84 | a tag the pattern matches has one to four numbers; a tag that does not start with 'v' never matches, and parseVersionTag gives it 0 |
| Update.VersionTagRoundTrip | src/Update.cpp:81-89 | every tag "v" + one to four numbers joined by '.' + an optional "-suffix" matches with exactly those numbers, and parses to ((A*100+B)*100+C)*100+D with the missing parts as 0 |
| Update.ChooseIsUpperBound | src/Update.cpp:118-136 | no non-draft release (non-draft and non-prerelease for the stable choice) with all four members well-typed has a version above the chosen one |
| Update.ChooseNeverDecreases | src/Update.cpp:129-136 | scanning one more release never lowers the chosen version |
| Update.ChooseIsFirstMaximum | src/Update.cpp:129-136 | the choice is either still (0, "") or a positive version with the URL of the first eligible release that has that version |
| Update.UpdateInformation.ParseReleaseData | src/Update.cpp:111-140 | an empty or unparsable download changes nothing; otherwise the newest and stable versions and URLs are reset and become the scan's choices over the release list (the loop is proved against Choose) |
| Update.NotifyDueExactly | src/Update.cpp:92-101 | the menu is changed only when the own version is known and the mode is NotifyAny with a newer newest release or NotifyStable with a newer stable release; never with version 0 or DoNotCheck |
| Diagnostic.Trace.constructor | src/Diagnostic.h:21-23 | the ring starts as 24 empty strings with n at 0 |
| Diagnostic.Trace.Record | src/Diagnostic.h:25-28 | trace writes the entry into slot n, changes no other slot, advances n to (n + 1) mod 24, and keeps the ring holding the 24 most recent entries oldest first from slot n |
| Diagnostic.Trace.Display | src/Diagnostic.h:29-32 | the message is the 24 most recent entries, oldest first, joined by line feeds |
| Diagnostic.JoinLinesPrefix | src/Diagnostic.h:31-32 | each further entry adds a line feed and the entry to the message |

## Left out

- File and network I/O is not modelled. The files `BuildUnicodeTables.py` reads and the lines it writes are sequences of records and `Row` values. The release list that `Update.cpp` downloads is a sequence of already-parsed release records. The settings file of `Configuration.cpp` is not modelled beyond the mappings of single values and the split of one line by the data-line pattern.
- Windows and C++ library services are parameters:
  - the Windows locale date formats are the `windowsText` argument;
  - `std::format`'s calendar digits and zone text are the `info` and `zone` strings;
  - the locale's month and day names are the `LocaleWords` record;
  - `LCMapStringEx`'s sort key is the `sortKey` argument;
  - `WideCharToMultiByte` is a parameter, both for the `\u` escape of extended search and for the code-page bytes of the URL encode character.
- `toWide` and `fromWide` are taken to be the identity, so text is a sequence of characters throughout.
- `towlower`/`tolower` are ASCII-only case mappings. The locale lower-casing of non-ASCII letters is not modelled.
- Generated data is a parameter: the byte table and the fold/lower/upper maps of `UnicodeCharacterDataFixed.h`, the Grapheme_Cluster_Break, Indic_Conjunct_Break and Extended_Pictographic tables, and the constant tables of `UnicodeRegexTraits.cpp`.
- Boost.Regex and ExprTk are not modelled. The search pattern of `expandExtendedSearchString` and the tag pattern of `parseVersionTag` are given their meaning directly. The regex engine's iterator over the document is a sequence of code points, and its positions are indices into that sequence.
- Scintilla calls are not modelled. This covers selections, `StringOfRange`, the dialogs and the menu item that `updateMenuToNotify` changes. The model gives only the decision whether to change it.
- Doubles in `Numeric.h` are `Finite(real)` or `NonFinite`. Nothing is computed with them.
- Numeric.CalculateHistory: the cached numbers and text (`col`, `reg`, `tab`, `text`) and `selectionIndex` with its reversal by `origin` read the document and are not modelled. A cache entry keeps only its validity flags.
- Numeric.CalculateHistory.Skip: requires that the current line is not skipped yet. The source calls `skip` at most once after each `push`.
- Numeric.IndexArg: a `static_cast<size_t>` of a NaN, infinite or negative double is undefined behaviour. It counts as 0 here, which `last` treats as out of range, as it does index 0.
- Update.ParseVersionTag: `std::stoi`'s exceptions and its overflow on very long digit runs are not modelled. Numbers are unbounded.
- Grapheme.JoinsIsReference: requires facts about the Unicode data that the shortcuts of the code rely on (`Consistent`). Examples are that code points below `unicode_first_GraphBreak_complex` are Other, CR, LF or Control, and that no Extended_Pictographic code point is Regional_Indicator, Extend, ZWJ or an Indic consonant.
- Grapheme.ClusterEndIsReference: proved under the same `Consistent` tables.
- ColumnsPlusPlus.ClampCastIsClamp: covers integral types only. Conversions from and to floating point are not modelled.
- Utf.Str: models the gap-buffer read of one sub-match by positions. `RegularExpressionDirect.h` and the other regex front ends are not part of this model.
- Utf.Length: `DocumentIterator::length` uses the same lead-byte tests as `utf8to32`, including the signed-char `isLead4` of the first finding. The model uses the corrected test, so the iterator steps over F4 sequences. `Utf.LengthIsStep` ties it to the corrected decoder.
- UnicodeTables.TableBuilder.LoadUnicodeData: requires every line to have at least 14 fields (`DataReadable`), as every line of UnicodeData.txt has. On a shorter line the script stops with an IndexError at `fields[12]` or `fields[13]`, and that failure is not modelled.
- Convert.IsValidField: models the test with the first non-blank character checked and the scan run to the last one. The code as written is `Convert.ValidFieldAsWritten`, which passes ",ab", "," and "a," unquoted (see Findings).
- Convert.ConvertField: calls the corrected `IsValidField`. As written, a field such as ",ab" is written as it is instead of quoted.
- Convert.WriteFieldAt: inherits the corrected test from `ConvertField`.
- Convert.TabsPass: inherits the corrected test from `ConvertField`.
- Convert.TabsToSeparatedValues: inherits the corrected test from `ConvertField`. The output of the program as written can differ on fields that begin with, or have two characters and end with, a separator, line end, escape character or (when strict) quote.
- ConvertReading.RawHasNoStop: holds of the corrected writer only. As written, ",ab" is written as it is and holds the separator.
- ConvertReading.TextRoundTrip: holds of the corrected writer only. As written, the field ",ab" comes back as the two fields "" and "ab".
- RegexTraits.ToWide: uses the corrected high surrogate `0xD800 + ((c - 0x10000) >> 10)` of section 2.1 of RFC 2781. The code as written is `RegexTraits.WideAsWritten`, which is one plane off for supplementary code points (see Findings).
- RegexTraits.Transform: builds its key from the corrected `ToWide`. As written, the sort key of a supplementary code point is taken of the wrong UTF-16 pair.
- RegexTraits.TransformMeaning: states the key of the RFC 2781 encoding, which only the corrected `ToWide` produces.
- Timestamps.ZPiece: zm for minutes 00-09 shows the minute's last digit, `info[17]`. The code as written shows `info[15]`, which is `Timestamps.BlankedMinuteAsWritten` (see Findings).
- Timestamps.ZCase: returns the corrected `ZPiece`.
- Timestamps.PictureStep: uses the corrected `ZPiece` through `Piece`.
- Timestamps.FormatPicture: uses the corrected `ZPiece` through `Format`.
- Timestamps.FormatTimePoint: uses the corrected `ZPiece` for custom and default pictures.
- Timestamps.InfoFields: requires the `info` text to be 28 characters long, which fixes the year to four digits. Years before 0000 or after 9999, which `std::format`'s `%Y` writes with more characters and which move every later field, are not modelled.
- Update.UpdateInformation.ParseReleaseData: the clock is not modelled. The `updateInfo.timestamp = getTimestamp()` of a successful parse is left out, and the record has no timestamp field.
- Configuration.SaveLoadExtension: states the round trip only for keys without a period and without blanks other than the space, and for profiles without surrounding blanks or line breaks. Other keys and profiles are changed or split by saving, and a reserved key with the empty profile is lost (`EmptyReservedProfileLost`).
- `parseGenericDateText` is not modelled. Only its divider test `isParseDivider` is.
- The picture interpreter in `Timestamps.cpp` is an older copy of the one in `TimestampsHelpers.cpp` and is not modelled separately.

## Notes on the code

- `BuildUnicodeTables.py` sets `excludeFrom` to 0x33480, while the generated `UnicodeCharacterDataFixed.h` shipped with it uses 0x32400, with `unicode_exclude_to` 0xE0000 and `unicode_last_codept` 0xE01EF. The two files come from different versions of the generator. `UnicodeTables` follows the script, and `UnicodeLookup` follows the header.
- An apostrophe pair `''` in a date picture gives one apostrophe only inside quoted text. Outside quotes, `''` opens and at once closes an empty quotation and gives nothing, so a bare `''` does not write an apostrophe. The model follows the code (`Timestamps.FormatQuoted`, `Timestamps.FormatQuotedApostrophe`).

## Findings

| source | as written | input that shows it | evidently intended | confidence | as-written member | corrected member |
|---|---|---|---|---|---|---|
| src/RegularExpression.cpp:50 | `isLead4` compares a signed `char` with 0xF4, which is never equal, so F4 never starts a sequence | F4 80 80 80 (U+100000) decodes to four escapes | F4 is a four-byte lead byte | not executed | Utf.Lead4AsWrittenMissesF4 | Utf.ImplicitLengthValues |
| src/RegularExpression.cpp:103 | the four-byte test joins its trail checks with a comma operator, and `to32` is given three bytes | F0 9F 98 80 (U+1F600) decodes to four escapes; F0 80 80 00 decodes to 0 | the three trail bytes are checked and the code point is built from all four bytes | not executed | Utf.FourByteAsWrittenEscapes | Utf.DecodeRoundTrip |
| src/RegularExpression.cpp:108 | a bad byte escapes to 0xDC00 plus a signed `char`, which is 0xDB00 plus the byte | the byte 0x80 becomes 0xDB80 and encodes back as EF BF BD | 0xDC00 plus the unsigned byte, which encodes back to the byte | not executed | Utf.EscapeAsWrittenLoses | Utf.EncodeRoundTrip |
| src/RegularExpression.cpp:125-130 | `utf32to8` tests `<= 0x10000` for three bytes and `<= 0x110000` for four | U+10000 encodes as F0 80 80, and 0x110000 as F4 90 80 80 | `< 0x10000` and `< 0x110000` | not executed | Utf.EncodeAsWrittenBounds | Utf.EncodeLengths |
| src/Convert.cpp:399 | the unquoted check of `isValidField` starts one past the first non-blank character, so that character is never checked; the last non-blank character is checked only when a search from an earlier position reaches it, and when the non-blank part has one or two characters nothing is checked | ",ab", "," and "a," with separator ',' are valid, so they are written without quotes and read back as two fields | the first non-blank character is checked as well, and the scan runs to the last one | not executed | Convert.ValidFieldAsWrittenExample, Convert.ShortFieldsAsWrittenExample | Convert.ValidFieldChecksFirst |
| src/Unicode/UnicodeRegexTraits.h:84 | the high surrogate is `0xD800 \| (c >> 10)` without subtracting 0x10000 | U+1F600 becomes D87D DE00, which is U+2F600 | section 2.1 of RFC 2781: `0xD800 + ((c - 0x10000) >> 10)` | not executed | RegexTraits.WideAsWrittenExample | RegexTraits.WideIsUtf16 |
| src/TimestampsHelpers.cpp:323 | `zm` for minutes 00-09 shows `info[15]`, the last digit of the twelve-hour hour | at 15:05, `zm` gives " 3" | `info[17]`, the minute's last digit, as `m` uses | not executed | Timestamps.BlankedMinuteAsWrittenWrong | Timestamps.FormatBlanked |
