/**
 * Lookups in the generated Unicode character table (UnicodeCharacterDataFixed.h).
 *
 * The table holds one byte per code point below the last listed one, except
 * that the unassigned stretch [ExcludeFrom, ExcludeTo) is not stored: code
 * points above it are shifted down by the width of the zone.  The low five
 * bits of a byte are the general category, the top three bits say whether
 * the code point has a case fold, a lower-case or an upper-case mapping.
 */
module UnicodeLookup {

  /** unicode_exclude_from, unicode_exclude_to and unicode_last_codept of the generated header. */
  const ExcludeFrom: nat := 0x32400
  const ExcludeTo: nat := 0xE0000
  const LastCodePoint: nat := 0xE01EF
  const ZoneWidth: nat := ExcludeTo - ExcludeFrom

  /** Number of bytes in the table: every code point up to the last one, less the zone. */
  const TableSize: nat := LastCodePoint + 1 - ZoneWidth

  /** A char32_t. */
  type Char32 = c: int | 0 <= c < 0x1_0000_0000

  /** Ordinals of the Unicode_Category enumeration (Cn, Cc, Cf, Co, ..., Zs). */
  const CategoryCn: nat := 0
  const CategoryCo: nat := 3
  const CategoryCount: nat := 30

  const CategoryMask: bv8 := 0x1f
  const HasFold: bv8 := 0x80
  const HasLower: bv8 := 0x40
  const HasUpper: bv8 := 0x20

  /** Code points that have a byte of their own in the table. */
  predicate InTable(c: Char32)
  {
    c < ExcludeFrom || ExcludeTo <= c <= LastCodePoint
  }

  /** Where the byte of an in-table code point sits. */
  function TableIndex(c: Char32): (i: nat)
    requires InTable(c)
    ensures i < TableSize
  {
    if c < ExcludeFrom then c else c - ZoneWidth
  }

  /** The code point whose byte sits at index i. */
  function CodePointAt(i: nat): (c: Char32)
    requires i < TableSize
    ensures InTable(c)
  {
    if i < ExcludeFrom then i else i + ZoneWidth
  }

  /** Below the zone a code point is its own index; from the end of the zone on, it is shifted down by the zone width. */
  lemma TableIndexShift(c: Char32)
    requires InTable(c)
    ensures c < ExcludeFrom ==> TableIndex(c) == c
    ensures c >= ExcludeTo ==> TableIndex(c) == c - (ExcludeTo - ExcludeFrom)
    ensures CodePointAt(TableIndex(c)) == c
  {
  }

  /** Every byte of the table belongs to exactly one code point, in increasing order. */
  lemma TableIndexBijective(i: nat, c: Char32, d: Char32)
    requires i < TableSize && InTable(c) && InTable(d)
    ensures TableIndex(CodePointAt(i)) == i
    ensures c < d <==> TableIndex(c) < TableIndex(d)
  {
  }

  /** The general category held in the low five bits of a table byte. */
  function CategoryOf(b: bv8): (k: nat)
    ensures k < 32
  {
    (b & CategoryMask) as nat
  }

  /** The code points of the two supplementary private-use planes, less their last two noncharacters. */
  predicate PrivateUsePlane(c: Char32)
  {
    (0xF0000 <= c <= 0xFFFFD) || (0x100000 <= c <= 0x10FFFD)
  }

  /** unicodeGenCat */
  function GenCat(table: seq<bv8>, c: Char32): (r: nat)
    requires |table| == TableSize
    ensures r < 32
    ensures InTable(c) ==> r == CategoryOf(table[TableIndex(c)])
    ensures ExcludeFrom <= c < ExcludeTo ==> r == CategoryCn
    ensures c > LastCodePoint ==> (r == CategoryCo <==> PrivateUsePlane(c))
    ensures c > LastCodePoint ==> (r == CategoryCo || r == CategoryCn)
  {
    if c < ExcludeFrom then CategoryOf(table[c])
    else if c < ExcludeTo then CategoryCn
    else if c > LastCodePoint then (if PrivateUsePlane(c) then CategoryCo else CategoryCn)
    else CategoryOf(table[c - (ExcludeTo - ExcludeFrom)])
  }

  /** Whether the table byte of c carries the given flag; code points without a byte carry none. */
  predicate Flagged(table: seq<bv8>, c: Char32, flag: bv8)
    requires |table| == TableSize
  {
    InTable(c) && flag & table[TableIndex(c)] != 0
  }

  /** map.find(c): the mapped value when there is one, else c. */
  function MapFind(m: map<Char32, Char32>, c: Char32): (r: Char32)
    ensures r == (if c in m then m[c] else c)
  {
    if c in m then m[c] else c
  }

  /** unicode_casing_operation: the mapping of c in m, consulted only when c's byte carries flag. */
  function CasingOperation(table: seq<bv8>, c: Char32, m: map<Char32, Char32>, flag: bv8): (r: Char32)
    requires |table| == TableSize
    ensures r == (if Flagged(table, c, flag) && c in m then m[c] else c)
  {
    if c < ExcludeFrom then (if flag & table[c] == 0 then c else MapFind(m, c))
    else if c < ExcludeTo || c > LastCodePoint then c
    else if flag & table[c - (ExcludeTo - ExcludeFrom)] == 0 then c
    else MapFind(m, c)
  }

  /** A casing operation changes c only into its mapping, and only when c's byte carries the flag and c is in the map. */
  lemma CasingOperationChanges(table: seq<bv8>, c: Char32, m: map<Char32, Char32>, flag: bv8)
    requires |table| == TableSize
    ensures CasingOperation(table, c, m, flag) != c ==> Flagged(table, c, flag) && c in m
    ensures Flagged(table, c, flag) && c in m ==> CasingOperation(table, c, m, flag) == m[c]
    ensures !Flagged(table, c, flag) || c !in m ==> CasingOperation(table, c, m, flag) == c
    ensures flag == 0 ==> CasingOperation(table, c, m, flag) == c
  {
  }

  /** unicodeFold: the simple case fold, taken only for code points flagged as having one. */
  function Fold(table: seq<bv8>, foldMap: map<Char32, Char32>, c: Char32): (r: Char32)
    requires |table| == TableSize
    ensures r == c || (Flagged(table, c, HasFold) && c in foldMap && r == foldMap[c])
    ensures Flagged(table, c, HasFold) && c in foldMap ==> r == foldMap[c]
  {
    CasingOperation(table, c, foldMap, HasFold)
  }

  /** unicodeLower */
  function Lower(table: seq<bv8>, lowerMap: map<Char32, Char32>, c: Char32): (r: Char32)
    requires |table| == TableSize
    ensures r == c || (Flagged(table, c, HasLower) && c in lowerMap && r == lowerMap[c])
    ensures Flagged(table, c, HasLower) && c in lowerMap ==> r == lowerMap[c]
  {
    CasingOperation(table, c, lowerMap, HasLower)
  }

  /** unicodeUpper */
  function Upper(table: seq<bv8>, upperMap: map<Char32, Char32>, c: Char32): (r: Char32)
    requires |table| == TableSize
    ensures r == c || (Flagged(table, c, HasUpper) && c in upperMap && r == upperMap[c])
    ensures Flagged(table, c, HasUpper) && c in upperMap ==> r == upperMap[c]
  {
    CasingOperation(table, c, upperMap, HasUpper)
  }

  /** A table byte as the generator writes it: the category ordinal or-ed with the flags that apply. */
  function EntryByte(category: bv8, fold: bool, lower: bool, upper: bool): (b: bv8)
    requires category < 32
  {
    category
      | (if fold then HasFold else 0)
      | (if lower then HasLower else 0)
      | (if upper then HasUpper else 0)
  }

  /**
   * The three flags are distinct bits outside the five category bits, so a
   * byte built from a category and flags gives both back unchanged.
   */
  lemma EntryByteDecodes(category: bv8, fold: bool, lower: bool, upper: bool)
    requires category < 32
    ensures HasFold & CategoryMask == 0 && HasLower & CategoryMask == 0 && HasUpper & CategoryMask == 0
    ensures HasFold & HasLower == 0 && HasFold & HasUpper == 0 && HasLower & HasUpper == 0
    ensures CategoryOf(EntryByte(category, fold, lower, upper)) == category as nat
    ensures (HasFold & EntryByte(category, fold, lower, upper) != 0) == fold
    ensures (HasLower & EntryByte(category, fold, lower, upper) != 0) == lower
    ensures (HasUpper & EntryByte(category, fold, lower, upper) != 0) == upper
  {
  }

  /** Setting or clearing flags never changes the category a byte reports. */
  lemma FlagsKeepCategory(b: bv8)
    ensures CategoryOf(b | HasFold) == CategoryOf(b)
    ensures CategoryOf(b | HasLower) == CategoryOf(b)
    ensures CategoryOf(b | HasUpper) == CategoryOf(b)
    ensures CategoryOf(b & !(HasFold | HasLower | HasUpper)) == CategoryOf(b)
  {
  }
}
