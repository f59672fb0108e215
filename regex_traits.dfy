/**
 * The character traits the UTF-32 regular expression engine is given
 * (utf32_regex_traits in UnicodeRegexTraits.h): character classes,
 * class and collating-element names, digit values and the collation
 * transform.
 *
 * The constant tables of UnicodeRegexTraits.cpp (masks by category and
 * by ASCII code, the class names, the character names and the digraphs)
 * and the generated character table are parameters.  The sort key that
 * LCMapStringEx computes is a parameter of the transform.
 */
module RegexTraits {
  import opened Common
  import opened UnicodeLookup
  import Utf

  /** char_class_type */
  type Mask = bv64

  const MaskUpper: Mask := 0x0001
  const MaskLower: Mask := 0x0002
  const MaskDigit: Mask := 0x0004
  const MaskPunct: Mask := 0x0008
  const MaskCntrl: Mask := 0x0010
  const MaskHorizontal: Mask := 0x0020
  const MaskVertical: Mask := 0x0040
  const MaskXdigit: Mask := 0x0080
  const MaskAlpha: Mask := 0x0100
  const MaskWord: Mask := 0x0200
  const MaskGraph: Mask := 0x0400
  const MaskAscii: Mask := 0x0800
  const MaskUnicode: Mask := 0x1000

  const MaskBlank: Mask := MaskHorizontal
  const MaskSpace: Mask := MaskHorizontal | MaskVertical
  const MaskAlnum: Mask := MaskAlpha | MaskDigit
  const MaskPrint: Mask := MaskGraph | MaskSpace

  /** Ordinals of Category_Cc, Category_Mc, Category_Me and Category_Mn. */
  const CategoryCc: nat := 1
  const CategoryMc: nat := 10
  const CategoryMe: nat := 11
  const CategoryMn: nat := 12

  /** CatMask_xx: one bit per general category, above the 32 bits of the named classes. */
  function CatMask(k: nat): (m: Mask)
    requires k < 32
    ensures m != 0 && m & 0xFFFF_FFFF == 0
  {
    CategoryBit(k as bv6)
  }

  /** Bit 32 + k of a mask. */
  function CategoryBit(k: bv6): (m: Mask)
    requires k < 32
  {
    (1 as bv64) << (k as bv7 + 32)
  }

  /** Distinct ordinals below 32 stay distinct as six-bit values. */
  lemma OrdinalsDistinct(j: nat, k: nat)
    requires j < 32 && k < 32 && j != k
    ensures j as bv6 != k as bv6
  {
  }

  lemma CategoryBitsDistinct(j: bv6, k: bv6)
    requires j < 32 && k < 32
    ensures Meets(CategoryBit(j), CategoryBit(k)) <==> j == k
  {
  }

  /** Two masks share a class bit. */
  predicate Meets(a: Mask, b: Mask)
  {
    a & b != 0
  }

  /** CatMask_Cc, CatMask_Mc, CatMask_Me and CatMask_Mn. */
  const CatMaskCc: Mask := 0x2_0000_0000
  const CatMaskMc: Mask := 0x400_0000_0000
  const CatMaskMe: Mask := 0x800_0000_0000
  const CatMaskMn: Mask := 0x1000_0000_0000

  lemma CatMaskConstants()
    ensures CatMask(CategoryCc) == CatMaskCc && CatMask(CategoryMc) == CatMaskMc
    ensures CatMask(CategoryMe) == CatMaskMe && CatMask(CategoryMn) == CatMaskMn
  {
  }

  /** The category bits of distinct categories never overlap. */
  lemma CatMasksDistinct(j: nat, k: nat)
    requires j < 32 && k < 32
    ensures Meets(CatMask(j), CatMask(k)) <==> j == k
  {
    if j != k {
      OrdinalsDistinct(j, k);
    }
    CategoryBitsDistinct(j as bv6, k as bv6);
  }

  /** The data utf32_regex_traits consults. */
  datatype Traits = Traits(
    table: seq<bv8>,
    categoryMasks: seq<Mask>,
    asciiMasks: seq<Mask>,
    classnames: map<string, Mask>,
    characterNames: map<string, Char32>,
    digraphs: set<seq<Char32>>)

  /** One mask per category and per ASCII code, and a table whose bytes all hold a real category. */
  predicate Valid(tr: Traits)
  {
    |tr.table| == TableSize && |tr.categoryMasks| == CategoryCount && |tr.asciiMasks| == 128
    && forall i :: 0 <= i < |tr.table| ==> CategoryOf(tr.table[i]) < CategoryCount
  }

  /** unicodeGenCat over a valid table names one of the categories. */
  function Category(tr: Traits, c: Char32): (k: nat)
    requires Valid(tr)
    ensures k < CategoryCount
    ensures k == GenCat(tr.table, c)
  {
    var k := GenCat(tr.table, c);
    assert InTable(c) ==> k == CategoryOf(tr.table[TableIndex(c)]);
    k
  }

  // ----- translate -----

  /** translate: characters are compared as they are. */
  function Translate(c: Char32): (r: Char32)
    ensures r == c
  {
    c
  }

  // ----- is_combining -----

  /** is_combining: the category bit of c falls among those of Mc, Me and Mn. */
  function IsCombining(tr: Traits, c: Char32): bool
    requires Valid(tr)
  {
    Meets(CatMask(Category(tr, c)), CatMaskMc | CatMaskMe | CatMaskMn)
  }

  /** A character is combining exactly when it is a spacing, enclosing or nonspacing mark. */
  lemma IsCombiningMeaning(tr: Traits, c: Char32)
    requires Valid(tr)
    ensures IsCombining(tr, c) <==> Category(tr, c) in {CategoryMc, CategoryMe, CategoryMn}
  {
    MarkBits(Category(tr, c));
  }

  /** Of the 32 category bits, exactly those of Mc, Me and Mn meet their union. */
  lemma MarkBits(k: nat)
    requires k < 32
    ensures Meets(CatMask(k), CatMaskMc | CatMaskMe | CatMaskMn) <==> k in {CategoryMc, CategoryMe, CategoryMn}
  {
  }

  // ----- isctype -----

  /** isctype */
  function IsCType(tr: Traits, c: Char32, mask: Mask): bool
    requires Valid(tr)
  {
    if c < 128 then Meets(mask, tr.asciiMasks[c])
    else if c == 0x85 then Meets(mask, CatMaskCc | MaskCntrl | MaskVertical)
    else if c >= 256 && Meets(mask, MaskUnicode) then true
    else Meets(mask, tr.categoryMasks[Category(tr, c)])
  }

  /** The mask that decides isctype for c, when mask_unicode does not decide it first. */
  function DecidingMask(tr: Traits, c: Char32): (m: Mask)
    requires Valid(tr)
  {
    if c < 128 then tr.asciiMasks[c]
    else if c == 0x85 then CatMaskCc | MaskCntrl | MaskVertical
    else tr.categoryMasks[Category(tr, c)]
  }

  /**
   * isctype looks at the ASCII table below 128, treats U+0085 as a control
   * and vertical space, and answers yes to mask_unicode above 255.
   */
  lemma IsCTypeCases(tr: Traits, c: Char32, mask: Mask)
    requires Valid(tr)
    ensures c < 128 ==> (IsCType(tr, c, mask) <==> Meets(mask, tr.asciiMasks[c]))
    ensures c == 0x85 ==> (IsCType(tr, c, mask) <==> Meets(mask, CatMaskCc | MaskCntrl | MaskVertical))
    ensures c >= 256 ==> IsCType(tr, c, MaskUnicode)
  {
  }

  /** Above U+00FF, isctype answers yes to mask_unicode and otherwise looks at the category of c. */
  lemma IsCTypeAbove255(tr: Traits, c: Char32, mask: Mask)
    requires Valid(tr) && c >= 256
    ensures IsCType(tr, c, mask) <==> Meets(mask, MaskUnicode) || Meets(mask, tr.categoryMasks[Category(tr, c)])
  {
  }

  /** From U+0080 to U+00FF, apart from U+0085, isctype looks at the category of c alone. */
  lemma IsCTypeLatin1(tr: Traits, c: Char32, mask: Mask)
    requires Valid(tr) && 128 <= c < 256 && c != 0x85
    ensures IsCType(tr, c, mask) <==> Meets(mask, tr.categoryMasks[Category(tr, c)])
  {
  }

  /**
   * A character belongs to a union of classes exactly when it belongs to
   * one of them, and to no class of the empty mask.
   */
  lemma IsCTypeUnion(tr: Traits, c: Char32, m1: Mask, m2: Mask)
    requires Valid(tr)
    ensures IsCType(tr, c, m1 | m2) <==> IsCType(tr, c, m1) || IsCType(tr, c, m2)
    ensures !IsCType(tr, c, 0)
  {
    if c < 128 || c == 0x85 {
      MeetDistributes(m1, m2, DecidingMask(tr, c));
    } else if c < 256 {
      IsCTypeUnionLatin1(tr, c, m1, m2);
    } else {
      IsCTypeUnionAbove255(tr, c, m1, m2);
    }
  }

  lemma IsCTypeUnionLatin1(tr: Traits, c: Char32, m1: Mask, m2: Mask)
    requires Valid(tr) && 128 <= c < 256 && c != 0x85
    ensures IsCType(tr, c, m1 | m2) <==> IsCType(tr, c, m1) || IsCType(tr, c, m2)
    ensures !IsCType(tr, c, 0)
  {
    IsCTypeLatin1(tr, c, m1);
    IsCTypeLatin1(tr, c, m2);
    IsCTypeLatin1(tr, c, m1 | m2);
    IsCTypeLatin1(tr, c, 0);
    MeetDistributes(m1, m2, tr.categoryMasks[Category(tr, c)]);
  }

  lemma IsCTypeUnionAbove255(tr: Traits, c: Char32, m1: Mask, m2: Mask)
    requires Valid(tr) && c >= 256
    ensures IsCType(tr, c, m1 | m2) <==> IsCType(tr, c, m1) || IsCType(tr, c, m2)
    ensures !IsCType(tr, c, 0)
  {
    IsCTypeAbove255(tr, c, m1);
    IsCTypeAbove255(tr, c, m2);
    IsCTypeAbove255(tr, c, m1 | m2);
    IsCTypeAbove255(tr, c, 0);
    MeetDistributes(m1, m2, tr.categoryMasks[Category(tr, c)]);
    MeetDistributes(m1, m2, MaskUnicode);
  }

  lemma MeetDistributes(a: Mask, b: Mask, d: Mask)
    ensures Meets(a | b, d) <==> Meets(a, d) || Meets(b, d)
    ensures !Meets(0, d)
  {
    AndDistributes(a, b, d);
    OrNonzero(a & d, b & d);
  }

  lemma AndDistributes(a: Mask, b: Mask, d: Mask)
    ensures (a | b) & d == (a & d) | (b & d)
  {
  }

  lemma OrNonzero(x: Mask, y: Mask)
    ensures x | y != 0 <==> x != 0 || y != 0
  {
  }

  // ----- value -----

  /** The ASCII character of a code point below 128. */
  function AsciiChar(c: Char32): (r: char)
    ensures c < 128 ==> r as int == c
  {
    if c < 128 then c as char else 0 as char
  }

  /** value */
  function Value(c: Char32, radix: int): (n: int)
    ensures n == (if c < 128 && IsHexDigit(AsciiChar(c)) && HexDigitValue(AsciiChar(c)) < radix
                  then HexDigitValue(AsciiChar(c)) else -1)
    ensures -1 <= n < 16 && (n >= 0 ==> n < radix)
  {
    var n := if c < '0' as int then -1
      else if c <= '9' as int then c - '0' as int
      else if c < 'A' as int then -1
      else if c <= 'F' as int then c - ('A' as int - 10)
      else if c < 'a' as int then -1
      else if c <= 'f' as int then c - ('a' as int - 10)
      else -1;
    if n < radix then n else -1
  }

  // ----- lookup_classname and lookup_collatename -----

  /** Every code point is ASCII. */
  predicate AllAscii(p: seq<Char32>)
  {
    forall i :: 0 <= i < |p| ==> p[i] <= 127
  }

  /** The name as the narrow string std::tolower builds from it. */
  function Lowered(p: seq<Char32>): (s: string)
    ensures |s| == |p|
    ensures forall i :: 0 <= i < |p| ==> s[i] == ToLower(AsciiChar(p[i]))
  {
    if |p| == 0 then [] else Lowered(p[..|p| - 1]) + [ToLower(AsciiChar(p[|p| - 1]))]
  }

  /** The loop both lookups share: fail at the first code point above 127, else the lower-cased name. */
  method LowerName(p: seq<Char32>) returns (name: Option<string>)
    ensures name == if AllAscii(p) then Some(Lowered(p)) else None
  {
    var s: string := [];
    for i := 0 to |p|
      invariant AllAscii(p[..i])
      invariant s == Lowered(p[..i])
    {
      if p[i] > 127 {
        assert !AllAscii(p) by { assert p[i] > 127; }
        return None;
      }
      assert p[..i + 1][..i] == p[..i];
      s := s + [ToLower(AsciiChar(p[i]))];
    }
    assert p[..|p|] == p;
    return Some(s);
  }

  /** lookup_classname as a value: the class of the lower-cased name, or 0. */
  function ClassnameOf(tr: Traits, p: seq<Char32>): Mask
  {
    if AllAscii(p) && Lowered(p) in tr.classnames then tr.classnames[Lowered(p)] else 0
  }

  /** lookup_classname */
  method LookupClassname(tr: Traits, p: seq<Char32>) returns (r: Mask)
    ensures r == ClassnameOf(tr, p)
  {
    var name := LowerName(p);
    if name.Some? && name.value in tr.classnames {
      return tr.classnames[name.value];
    }
    return 0;
  }

  /** Two code points that are the same letter, perhaps in the other ASCII case. */
  predicate SameIgnoringCase(a: Char32, b: Char32)
  {
    a == b || ('A' as int <= a <= 'Z' as int && b == a + 32) || ('A' as int <= b <= 'Z' as int && a == b + 32)
  }

  /**
   * Class names are matched without regard to ASCII case, never match a
   * name with a non-ASCII code point, and give 0 when unknown.
   */
  lemma ClassnameIgnoresCase(tr: Traits, p: seq<Char32>, q: seq<Char32>)
    requires |p| == |q| && forall i :: 0 <= i < |p| ==> SameIgnoringCase(p[i], q[i])
    ensures ClassnameOf(tr, p) == ClassnameOf(tr, q)
  {
    forall i | 0 <= i < |p|
      ensures p[i] <= 127 <==> q[i] <= 127
      ensures p[i] <= 127 ==> Lowered(p)[i] == Lowered(q)[i]
    {
    }
    assert AllAscii(p) <==> AllAscii(q);
    if AllAscii(p) {
      assert Lowered(p) == Lowered(q);
    }
  }

  lemma ClassnameUnknown(tr: Traits, p: seq<Char32>)
    ensures !AllAscii(p) ==> ClassnameOf(tr, p) == 0
    ensures AllAscii(p) && Lowered(p) !in tr.classnames ==> ClassnameOf(tr, p) == 0
    ensures AllAscii(p) && Lowered(p) in tr.classnames ==> ClassnameOf(tr, p) == tr.classnames[Lowered(p)]
  {
  }

  /** lookup_collatename as a value. */
  function CollatenameOf(tr: Traits, p: seq<Char32>): seq<Char32>
  {
    if |p| < 2 then p
    else if !AllAscii(p) then []
    else if Lowered(p) in tr.characterNames then [tr.characterNames[Lowered(p)]]
    else if |p| != 2 then []
    else if p in tr.digraphs then p
    else []
  }

  /** lookup_collatename */
  method LookupCollatename(tr: Traits, p: seq<Char32>) returns (r: seq<Char32>)
    ensures r == CollatenameOf(tr, p)
  {
    if |p| < 2 {
      return p;
    }
    var name := LowerName(p);
    if name.None? {
      return [];
    }
    if name.value in tr.characterNames {
      return [tr.characterNames[name.value]];
    }
    if |p| != 2 {
      return [];
    }
    return if p in tr.digraphs then p else [];
  }

  /**
   * A collating element name gives back a single-character name, the
   * input itself when it is shorter than two or is a known digraph, and
   * otherwise nothing.
   */
  lemma CollatenameCases(tr: Traits, p: seq<Char32>)
    ensures |p| < 2 ==> CollatenameOf(tr, p) == p
    ensures |p| >= 2 && !AllAscii(p) ==> CollatenameOf(tr, p) == []
    ensures |p| >= 2 && AllAscii(p) && Lowered(p) in tr.characterNames ==> CollatenameOf(tr, p) == [tr.characterNames[Lowered(p)]]
    ensures |p| == 2 && AllAscii(p) && Lowered(p) !in tr.characterNames ==> (CollatenameOf(tr, p) == p <==> p in tr.digraphs)
    ensures |p| == 2 && AllAscii(p) && Lowered(p) !in tr.characterNames && p !in tr.digraphs ==> CollatenameOf(tr, p) == []
    ensures |p| > 2 && (!AllAscii(p) || Lowered(p) !in tr.characterNames) ==> CollatenameOf(tr, p) == []
    ensures |CollatenameOf(tr, p)| <= |p|
  {
  }

  // ----- transform and transform_primary -----

  /**
   * 0xD800 | y for a sixteen-bit y, written out on integers: each of the
   * bits 11, 12, 14 and 15 of 0xD800 is added where y does not have it.
   */
  function OrD800(y: nat): (w: Utf.Unit16)
    requires y < 0x10000
    ensures w >= y && w >= 0xD800
  {
    y + (if (y / 0x800) % 2 == 0 then 0x800 else 0)
      + (if (y / 0x1000) % 2 == 0 then 0x1000 else 0)
      + (if (y / 0x4000) % 2 == 0 then 0x4000 else 0)
      + (if (y / 0x8000) % 2 == 0 then 0x8000 else 0)
  }

  /** The sixteen-bit unit static_cast<wchar_t> keeps of 0xD800 | (c >> 10). */
  function HighAsWritten(c: Char32): (w: Utf.Unit16)
  {
    OrD800((c / 0x400) % 0x10000)
  }

  /** The low surrogate 0xDC00 | (c & 0x3FF). */
  function LowUnit(c: Char32): (w: Utf.Unit16)
    ensures Utf.IsLowSurrogate(w)
  {
    0xDC00 + c % 0x400
  }

  /** The UTF-16 units transform makes of one code point, as written. */
  function WideUnitsAsWritten(c: Char32): (w: seq<Utf.Unit16>)
  {
    if c > 0xFFFF then [HighAsWritten(c), LowUnit(c)] else [c]
  }

  /** The UTF-16 text transform hands to LCMapStringEx, as written. */
  function WideAsWritten(p: seq<Char32>): seq<Utf.Unit16>
  {
    if |p| == 0 then [] else WideUnitsAsWritten(p[0]) + WideAsWritten(p[1..])
  }

  /** Below 0x200000 the or puts c >> 10 above 0xD800 without a carry. */
  lemma HighAsWrittenValue(c: Char32)
    requires c < 0x20_0000
    ensures HighAsWritten(c) == 0xD800 + c / 0x400
  {
    var x := c / 0x400;
    assert x % 0x10000 == x;
    assert x < 0x800;
  }

  /**
   * As written, the high unit leaves out the 0x10000 offset of section 2.1
   * of RFC 2781: every supplementary code point below U+100000 comes back
   * from its units as the code point one plane higher.
   */
  lemma WideAsWrittenShiftsPlane(c: Char32)
    requires 0x10000 <= c < 0x100000
    ensures Utf.Utf16To32Of(WideUnitsAsWritten(c)) == [c + 0x10000]
  {
    HighAsWrittenValue(c);
    var hi, lo := HighAsWritten(c), LowUnit(c);
    assert Utf.IsHighSurrogate(hi);
    var w := WideUnitsAsWritten(c);
    assert w == [hi, lo];
    assert w[2..] == [];
    assert (0xD800 + c / 0x400) % 0x800 == c / 0x400;
    assert Utf.Combine(hi, lo) == c + 0x10000;
  }

  /** U+1F600 becomes D87D DE00, the pair for U+2F600, where RFC 2781 gives D83D DE00. */
  lemma WideAsWrittenExample()
    ensures WideAsWritten([0x1F600]) == [0xD87D, 0xDE00]
    ensures Utf.Utf16To32Of(WideAsWritten([0x1F600])) == [0x2F600]
    ensures Wide([0x1F600]) == [0xD83D, 0xDE00] == Utf.Utf16Encode(0x1F600)
  {
    HighAsWrittenValue(0x1F600);
    assert [0x1F600][1..] == [];
    assert WideAsWritten([0x1F600]) == WideUnitsAsWritten(0x1F600);
    WideAsWrittenShiftsPlane(0x1F600);
    assert Wide([0x1F600]) == WideUnits(0x1F600);
  }

  /** The UTF-16 units of one code point: a surrogate pair above 0xFFFF, after section 2.1 of RFC 2781. */
  function WideUnits(c: Char32): (w: seq<Utf.Unit16>)
  {
    if c > 0xFFFF then [0xD800 + ((c - 0x10000) / 0x400) % 0x400, LowUnit(c)] else [c]
  }

  /** The UTF-16 text of a code point sequence. */
  function Wide(p: seq<Char32>): seq<Utf.Unit16>
  {
    if |p| == 0 then [] else WideUnits(p[0]) + Wide(p[1..])
  }

  /** For scalar values the units are the RFC 2781 encoding, so utf16to32 gives the text back. */
  lemma {:induction false} WideIsUtf16(p: seq<Char32>)
    requires forall i :: 0 <= i < |p| ==> Utf.IsScalar(p[i])
    ensures Wide(p) == Utf.Utf16EncodeAll(p)
    ensures Utf.Utf16To32Of(Wide(p)) == p
    decreases |p|
  {
    if |p| > 0 {
      var c := p[0];
      if c > 0xFFFF {
        assert (c - 0x10000) / 0x400 < 0x400;
        assert (c - 0x10000) % 0x400 == c % 0x400;
      }
      assert WideUnits(c) == Utf.Utf16Encode(c);
      WideIsUtf16(p[1..]);
    }
    Utf.Utf16RoundTrip(p);
  }

  /** The wide text loop of transform. */
  method ToWide(p: seq<Char32>) returns (wc: seq<Utf.Unit16>)
    ensures wc == Wide(p)
  {
    wc := [];
    for i := 0 to |p|
      invariant wc + Wide(p[i..]) == Wide(p)
    {
      assert p[i..] == [p[i]] + p[i + 1..];
      Associative(wc, WideUnits(p[i]), Wide(p[i + 1..]));
      if p[i] > 0xFFFF {
        wc := wc + [0xD800 + ((p[i] - 0x10000) / 0x400) % 0x400, 0xDC00 + p[i] % 0x400];
      } else {
        wc := wc + [p[i]];
      }
    }
    assert p[|p|..] == [];
  }

  /** The units of a sort key before its first zero, widened to code points. */
  function BeforeNul(w: seq<Utf.Unit16>): (s: seq<Char32>)
    ensures |s| <= |w|
  {
    if |w| == 0 || w[0] == 0 then [] else [w[0] as Char32] + BeforeNul(w[1..])
  }

  /** BeforeNul keeps the units up to the first zero, and none past it. */
  lemma {:induction false} BeforeNulMeaning(w: seq<Utf.Unit16>)
    ensures forall i :: 0 <= i < |BeforeNul(w)| ==> BeforeNul(w)[i] == w[i] && w[i] != 0
    ensures |BeforeNul(w)| == |w| || w[|BeforeNul(w)|] == 0
    decreases |w|
  {
    if |w| > 0 && w[0] != 0 {
      BeforeNulMeaning(w[1..]);
    }
  }

  /** The copying loop of transform: stop at the first zero unit of the key. */
  method TakeKey(wt: seq<Utf.Unit16>) returns (st: seq<Char32>)
    ensures st == BeforeNul(wt)
  {
    st := [];
    for i := 0 to |wt|
      invariant st + BeforeNul(wt[i..]) == BeforeNul(wt)
    {
      if wt[i] == 0 {
        break;
      }
      assert wt[i..] == [wt[i]] + wt[i + 1..];
      Associative(st, [wt[i] as Char32], BeforeNul(wt[i + 1..]));
      st := st + [wt[i] as Char32];
    }
  }

  /** transform and transform_primary as values, for the sort key of the flags each passes. */
  function TransformOf(sortKey: seq<Utf.Unit16> -> seq<Utf.Unit16>, p: seq<Char32>): seq<Char32>
  {
    if |p| == 0 then [] else BeforeNul(sortKey(Wide(p)))
  }

  /**
   * transform and transform_primary: the sort key of the UTF-16 text, cut
   * at its terminating zero; the two differ only in the flags, which choose
   * sortKey.
   */
  method Transform(sortKey: seq<Utf.Unit16> -> seq<Utf.Unit16>, p: seq<Char32>) returns (st: seq<Char32>)
    ensures st == TransformOf(sortKey, p)
  {
    if |p| == 0 {
      return [];
    }
    var wc := ToWide(p);
    var wt := sortKey(wc);
    st := TakeKey(wt);
  }

  /** For scalar text, the key is taken of the RFC 2781 UTF-16 encoding, up to its first zero. */
  lemma TransformMeaning(sortKey: seq<Utf.Unit16> -> seq<Utf.Unit16>, p: seq<Char32>)
    requires |p| > 0 && forall i :: 0 <= i < |p| ==> Utf.IsScalar(p[i])
    ensures TransformOf(sortKey, p) == BeforeNul(sortKey(Utf.Utf16EncodeAll(p)))
    ensures 0 !in TransformOf(sortKey, p)
  {
    WideIsUtf16(p);
    BeforeNulMeaning(sortKey(Wide(p)));
  }
}
