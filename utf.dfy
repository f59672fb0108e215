/**
 * Conversions between UTF-8, UTF-16 and UTF-32 used by the Unicode regular
 * expression engine (RegularExpression.cpp).
 *
 * Bytes of the document are `char`, which is signed on the platform the
 * program is built for; where that matters the model says so.  A byte that
 * does not start a well-formed sequence decodes to the lone surrogate
 * 0xDC00 + byte, as Python's surrogateescape does, and encodes back to the
 * raw byte.  The bit-field expressions of the source combine fields that do
 * not overlap, so `|` of such fields is written as `+`, `x & 0x3F` as
 * `x % 0x40` and `x >> 6` as `x / 0x40`.
 */
module Utf {
  import opened Common
  import opened UnicodeLookup

  /** A UTF-16 code unit (wchar_t). */
  type Unit16 = x: int | 0 <= x < 0x10000

  /** The value a document byte has as a (signed) char. */
  function SignedChar(b: Byte): (v: int)
    ensures -0x80 <= v < 0x80
    ensures v == b || v == b - 0x100
  {
    if b < 0x80 then b else b - 0x100
  }

  // ----- utf8byte -----

  /** isASCII: (c & 0x80) == 0 */
  predicate IsAscii(b: Byte) { b < 0x80 }

  /** isTrail: (c & 0xC0) == 0x80 */
  predicate IsTrail(b: Byte) { b / 0x40 == 2 }

  /** isLead2: (c & 0xE0) == 0xC0 && (c & 0xFE) != 0xC0 */
  predicate IsLead2(b: Byte) { b / 0x20 == 6 && b / 2 != 0x60 }

  /** isLead3: (c & 0xF0) == 0xE0 */
  predicate IsLead3(b: Byte) { b / 0x10 == 0xE }

  /**
   * isLead4 as written: (c & 0xFC) == 0xF0 || c == 0xF4.  With a signed char
   * the comparison with 0xF4 never holds, so 0xF4 is not a lead byte.
   */
  predicate IsLead4AsWritten(b: Byte) { b / 4 == 0x3C || SignedChar(b) == 0xF4 }

  /** isLead4 as intended: 0xF0 through 0xF4. */
  predicate IsLead4(b: Byte) { b / 4 == 0x3C || b == 0xF4 }

  /** isTrash as written: (c & 0xFE) == 0xC0 || ((c & 0xF0) == 0xF0 && (c & 0x0C) != 0 && c != 0xF4). */
  predicate IsTrashAsWritten(b: Byte) { b / 2 == 0x60 || (b / 0x10 == 0xF && (b / 4) % 4 != 0 && SignedChar(b) != 0xF4) }

  /** isTrash as intended. */
  predicate IsTrash(b: Byte) { b / 2 == 0x60 || (b / 0x10 == 0xF && (b / 4) % 4 != 0 && b != 0xF4) }

  /** The byte classes as ranges of values. */
  lemma ByteClasses(b: Byte)
    ensures IsAscii(b) <==> b <= 0x7F
    ensures IsTrail(b) <==> 0x80 <= b <= 0xBF
    ensures IsLead2(b) <==> 0xC2 <= b <= 0xDF
    ensures IsLead3(b) <==> 0xE0 <= b <= 0xEF
    ensures IsLead4(b) <==> 0xF0 <= b <= 0xF4
    ensures IsLead4AsWritten(b) <==> 0xF0 <= b <= 0xF3
    ensures IsTrash(b) <==> b == 0xC0 || b == 0xC1 || 0xF5 <= b
    ensures IsTrashAsWritten(b) <==> b == 0xC0 || b == 0xC1 || 0xF4 <= b
  {
  }

  /** Either way of reading the lead-4 test, every byte is in exactly one class. */
  lemma ByteClassesPartition(b: Byte)
    ensures IsAscii(b) || IsTrail(b) || IsLead2(b) || IsLead3(b) || IsLead4(b) || IsTrash(b)
    ensures IsAscii(b) || IsTrail(b) || IsLead2(b) || IsLead3(b) || IsLead4AsWritten(b) || IsTrashAsWritten(b)
    ensures !(IsLead4(b) && IsTrash(b)) && !(IsLead4AsWritten(b) && IsTrashAsWritten(b))
    ensures !(IsAscii(b) && IsTrail(b)) && !(IsTrail(b) && IsLead2(b)) && !(IsLead2(b) && IsLead3(b))
    ensures !(IsLead3(b) && IsLead4(b)) && !(IsTrail(b) && IsTrash(b)) && !(IsAscii(b) && IsTrash(b))
  {
    ByteClasses(b);
  }

  /** badPair: the second byte is out of range for a 3- or 4-byte lead that restricts it. */
  predicate BadPair(c1: Byte, c2: Byte)
  {
    (c1 == 0xE0 && c2 < 0xA0) || (c1 == 0xED && c2 > 0x9F) || (c1 == 0xF0 && c2 < 0x90) || (c1 == 0xF4 && c2 > 0x8F)
  }

  /** implicit_length as written (0xF4 is not a lead byte). */
  function ImplicitLengthAsWritten(b: Byte): (n: nat)
    ensures n <= 4
  {
    if IsAscii(b) then 1
    else if IsLead2(b) then 2
    else if IsLead3(b) then 3
    else if IsLead4AsWritten(b) then 4
    else 0
  }

  /** implicit_length: 1 for ASCII, 2, 3 or 4 for a lead byte, 0 for anything else. */
  function ImplicitLength(b: Byte): (n: nat)
    ensures n <= 4
  {
    if IsAscii(b) then 1
    else if IsLead2(b) then 2
    else if IsLead3(b) then 3
    else if IsLead4(b) then 4
    else 0
  }

  /** The lengths implicit_length reports, by byte value. */
  lemma ImplicitLengthValues(b: Byte)
    ensures ImplicitLength(b) == 1 <==> b <= 0x7F
    ensures ImplicitLength(b) == 2 <==> 0xC2 <= b <= 0xDF
    ensures ImplicitLength(b) == 3 <==> 0xE0 <= b <= 0xEF
    ensures ImplicitLength(b) == 4 <==> 0xF0 <= b <= 0xF4
    ensures ImplicitLength(b) == 0 <==> IsTrail(b) || IsTrash(b)
  {
    ByteClasses(b);
  }

  /** valid_trail with three bytes. */
  predicate ValidTrail3(c1: Byte, c2: Byte, c3: Byte)
  {
    !BadPair(c1, c2) && IsTrail(c2) && IsTrail(c3)
  }

  /** valid_trail with four bytes. */
  predicate ValidTrail4(c1: Byte, c2: Byte, c3: Byte, c4: Byte)
  {
    !BadPair(c1, c2) && IsTrail(c2) && IsTrail(c3) && IsTrail(c4)
  }

  /** to32 of two bytes: ((c1 & 0x1F) << 6) | (c2 & 0x3F) */
  function To32Of2(c1: Byte, c2: Byte): (c: Char32)
    ensures c < 0x800
  {
    (c1 % 0x20) * 0x40 + c2 % 0x40
  }

  /** to32 of three bytes: ((c1 & 0x0F) << 12) | ((c2 & 0x3F) << 6) | (c3 & 0x3F) */
  function To32Of3(c1: Byte, c2: Byte, c3: Byte): (c: Char32)
    ensures c < 0x10000
  {
    (c1 % 0x10) * 0x1000 + (c2 % 0x40) * 0x40 + c3 % 0x40
  }

  /** to32 of four bytes: ((c1 & 0x07) << 18) | ((c2 & 0x3F) << 12) | ((c3 & 0x3F) << 6) | (c4 & 0x3F) */
  function To32Of4(c1: Byte, c2: Byte, c3: Byte, c4: Byte): (c: Char32)
    ensures c < 0x200000
  {
    (c1 % 8) * 0x40000 + (c2 % 0x40) * 0x1000 + (c3 % 0x40) * 0x40 + c4 % 0x40
  }

  // ----- An independent reference: RFC 3629 -----

  /** A Unicode scalar value: a code point that is not a surrogate. */
  predicate IsScalar(c: int)
  {
    0 <= c < 0xD800 || 0xE000 <= c <= 0x10FFFF
  }

  predicate InRange(b: Byte, lo: int, hi: int) { lo <= b <= hi }

  /**
   * The length of the well-formed UTF-8 sequence that s starts with,
   * following the syntax of section 4 of RFC 3629, or 0 when s does not
   * start with one.
   */
  function WellFormedLength(s: seq<Byte>): (n: nat)
    requires |s| > 0
    ensures n <= 4 && n <= |s|
  {
    var b := s[0];
    if b <= 0x7F then 1
    else if 0xC2 <= b <= 0xDF then
      (if |s| >= 2 && InRange(s[1], 0x80, 0xBF) then 2 else 0)
    else if 0xE0 <= b <= 0xEF then
      var lo := if b == 0xE0 then 0xA0 else 0x80;
      var hi := if b == 0xED then 0x9F else 0xBF;
      (if |s| >= 3 && InRange(s[1], lo, hi) && InRange(s[2], 0x80, 0xBF) then 3 else 0)
    else if 0xF0 <= b <= 0xF4 then
      var lo := if b == 0xF0 then 0x90 else 0x80;
      var hi := if b == 0xF4 then 0x8F else 0xBF;
      (if |s| >= 4 && InRange(s[1], lo, hi) && InRange(s[2], 0x80, 0xBF) && InRange(s[3], 0x80, 0xBF) then 4 else 0)
    else 0
  }

  /** Whether s is a sequence of well-formed UTF-8 characters of at most maxLength bytes each. */
  predicate WellFormed(s: seq<Byte>, maxLength: nat)
    decreases |s|
  {
    |s| == 0 || (0 < WellFormedLength(s) <= maxLength && WellFormed(s[WellFormedLength(s)..], maxLength))
  }

  // ----- utf8to32 -----

  /**
   * The number of bytes utf8to32 consumes at the start of s: the implicit
   * length when the sequence is complete and valid, otherwise 1.
   */
  function StepLength(s: seq<Byte>): (n: nat)
    requires |s| > 0
    ensures 1 <= n <= 4 && n <= |s|
  {
    var k := ImplicitLength(s[0]);
    if k == 1 then 1
    else if k == 2 && 1 < |s| && IsTrail(s[1]) then 2
    else if k == 3 && 2 < |s| && ValidTrail3(s[0], s[1], s[2]) then 3
    else if k == 4 && 3 < |s| && ValidTrail4(s[0], s[1], s[2], s[3]) then 4
    else 1
  }

  /** The surrogate escape of a byte: 0xDC00 + the byte as an unsigned value. */
  function Escape(b: Byte): (c: Char32)
    ensures 0xDC00 <= c <= 0xDCFF
  {
    0xDC00 + b
  }

  /** The code point utf8to32 produces for the sequence at the start of s. */
  function StepValue(s: seq<Byte>): (c: Char32)
    requires |s| > 0
  {
    var n := StepLength(s);
    if n == 2 then To32Of2(s[0], s[1])
    else if n == 3 then To32Of3(s[0], s[1], s[2])
    else if n == 4 then To32Of4(s[0], s[1], s[2], s[3])
    else if IsAscii(s[0]) then s[0]
    else Escape(s[0])
  }

  /** utf8to32 (with the defects at lines 50, 103 and 108 of the source corrected). */
  function Utf8To32Of(s: seq<Byte>): (u: seq<Char32>)
    decreases |s|
  {
    if |s| == 0 then [] else [StepValue(s)] + Utf8To32Of(s[StepLength(s)..])
  }

  /** The well-formed lengths are exactly the lengths utf8to32 consumes other than a lone byte. */
  lemma StepLengthIsWellFormed(s: seq<Byte>)
    requires |s| > 0
    ensures WellFormedLength(s) > 0 ==> StepLength(s) == WellFormedLength(s)
    ensures WellFormedLength(s) == 0 ==> StepLength(s) == 1 && !IsAscii(s[0])
  {
    ByteClasses(s[0]);
    if |s| > 1 { ByteClasses(s[1]); }
    if |s| > 2 { ByteClasses(s[2]); }
    if |s| > 3 { ByteClasses(s[3]); }
  }

  /** A well-formed sequence decodes to a scalar value; any other byte decodes to its escape. */
  lemma StepValueMeaning(s: seq<Byte>)
    requires |s| > 0
    ensures WellFormedLength(s) > 0 ==> IsScalar(StepValue(s))
    ensures WellFormedLength(s) == 1 ==> StepValue(s) == s[0]
    ensures WellFormedLength(s) == 0 ==> StepValue(s) == Escape(s[0]) && 0x80 <= s[0]
  {
    StepLengthIsWellFormed(s);
    ByteClasses(s[0]);
    if |s| > 1 { ByteClasses(s[1]); }
  }

  // ----- utf32to8 -----

  /** EF BF BD, the UTF-8 form of U+FFFD REPLACEMENT CHARACTER. */
  const Replacement: seq<Byte> := [0xEF, 0xBF, 0xBD]

  /** The bytes utf32to8 writes for one code point, with the bounds of lines 125 and 130 corrected to < 0x10000 and < 0x110000. */
  function Encode(c: Char32): (b: seq<Byte>)
    ensures 1 <= |b| <= 4
  {
    if c < 0x80 then [c]
    else if c < 0x800 then [c / 0x40 + 0xC0, c % 0x40 + 0x80]
    else if 0xD800 <= c <= 0xDFFF then
      (if 0xDC80 <= c <= 0xDCFF then [c % 0x100] else Replacement)
    else if c < 0x10000 then [c / 0x1000 + 0xE0, (c / 0x40) % 0x40 + 0x80, c % 0x40 + 0x80]
    else if c < 0x110000 then [c / 0x40000 + 0xF0, (c / 0x1000) % 0x40 + 0x80, (c / 0x40) % 0x40 + 0x80, c % 0x40 + 0x80]
    else Replacement
  }

  /** The bytes utf32to8 writes for one code point, as written (<= 0x10000 and <= 0x110000). */
  function EncodeAsWritten(c: Char32): (b: seq<Byte>)
    ensures 1 <= |b| <= 4
  {
    if c < 0x80 then [c]
    else if c < 0x800 then [c / 0x40 + 0xC0, c % 0x40 + 0x80]
    else if 0xD800 <= c <= 0xDFFF then
      (if 0xDC80 <= c <= 0xDCFF then [c % 0x100] else Replacement)
    else if c <= 0x10000 then [c / 0x1000 + 0xE0, (c / 0x40) % 0x40 + 0x80, c % 0x40 + 0x80]
    else if c <= 0x110000 then [c / 0x40000 + 0xF0, (c / 0x1000) % 0x40 + 0x80, (c / 0x40) % 0x40 + 0x80, c % 0x40 + 0x80]
    else Replacement
  }

  /** utf32to8 (corrected). */
  function Utf32To8Of(u: seq<Char32>): (s: seq<Byte>)
  {
    if |u| == 0 then [] else Encode(u[0]) + Utf32To8Of(u[1..])
  }

  /** utf32to8 as written. */
  function Utf32To8AsWrittenOf(u: seq<Char32>): (s: seq<Byte>)
  {
    if |u| == 0 then [] else EncodeAsWritten(u[0]) + Utf32To8AsWrittenOf(u[1..])
  }

  /** The two encoders differ only at 0x10000 and 0x110000. */
  lemma EncodeAsWrittenAgrees(c: Char32)
    requires c != 0x10000 && c != 0x110000
    ensures EncodeAsWritten(c) == Encode(c)
  {
  }

  /** The lengths utf32to8 writes, by code point. */
  lemma EncodeLengths(c: Char32)
    ensures c < 0x80 ==> Encode(c) == [c]
    ensures 0x80 <= c < 0x800 ==> |Encode(c)| == 2
    ensures 0xDC80 <= c <= 0xDCFF ==> Encode(c) == [c - 0xDC00]
    ensures (0xD800 <= c < 0xDC80 || 0xDCFF < c <= 0xDFFF || c >= 0x110000) ==> Encode(c) == Replacement
    ensures (0x800 <= c < 0xD800 || 0xE000 <= c < 0x10000) ==> |Encode(c)| == 3
    ensures 0x10000 <= c < 0x110000 ==> |Encode(c)| == 4
  {
  }

  /** A division by a power of two that splits off the low field. */
  lemma Split(a: int, b: int, k: int)
    requires 0 <= a && 0 <= b < k && (k == 8 || k == 0x10 || k == 0x20 || k == 0x40 || k == 0x400 || k == 0x800 || k == 0x1000 || k == 0x40000)
    ensures (a * k + b) / k == a && (a * k + b) % k == b
  {
  }

  /** The fields of a value built from three 6-bit-aligned fields. */
  lemma Fields3(a: int, b: int, d: int)
    requires 0 <= a && 0 <= b < 0x40 && 0 <= d < 0x40
    ensures (a * 0x1000 + b * 0x40 + d) / 0x1000 == a
    ensures ((a * 0x1000 + b * 0x40 + d) / 0x40) % 0x40 == b
    ensures (a * 0x1000 + b * 0x40 + d) % 0x40 == d
  {
    assert a * 0x1000 + b * 0x40 + d == (a * 0x40 + b) * 0x40 + d;
    Split(a * 0x40 + b, d, 0x40);
    Split(a, b, 0x40);
    Split(a, b * 0x40 + d, 0x1000);
  }

  /** The fields of a value built from four 6-bit-aligned fields. */
  lemma Fields4(a: int, b: int, d: int, e: int)
    requires 0 <= a && 0 <= b < 0x40 && 0 <= d < 0x40 && 0 <= e < 0x40
    ensures (a * 0x40000 + b * 0x1000 + d * 0x40 + e) / 0x40000 == a
    ensures ((a * 0x40000 + b * 0x1000 + d * 0x40 + e) / 0x1000) % 0x40 == b
    ensures ((a * 0x40000 + b * 0x1000 + d * 0x40 + e) / 0x40) % 0x40 == d
    ensures (a * 0x40000 + b * 0x1000 + d * 0x40 + e) % 0x40 == e
  {
    var c := a * 0x40000 + b * 0x1000 + d * 0x40 + e;
    assert c == ((a * 0x40 + b) * 0x40 + d) * 0x40 + e;
    Split((a * 0x40 + b) * 0x40 + d, e, 0x40);
    Split(a * 0x40 + b, d, 0x40);
    assert c == (a * 0x40 + b) * 0x1000 + (d * 0x40 + e);
    Split(a * 0x40 + b, d * 0x40 + e, 0x1000);
    Split(a, b, 0x40);
    Split(a, b * 0x1000 + d * 0x40 + e, 0x40000);
  }

  /** Two bytes: the code point decodes and re-encodes to the same bytes. */
  lemma RoundTrip2(c1: Byte, c2: Byte)
    requires 0xC2 <= c1 <= 0xDF && 0x80 <= c2 <= 0xBF
    ensures 0x80 <= To32Of2(c1, c2) < 0x800
    ensures Encode(To32Of2(c1, c2)) == [c1, c2]
  {
    Split(6, c1 - 0xC0, 0x20);
    Split(2, c2 - 0x80, 0x40);
    Split(c1 - 0xC0, c2 - 0x80, 0x40);
  }

  /** Three bytes. */
  lemma RoundTrip3(c1: Byte, c2: Byte, c3: Byte)
    requires 0xE0 <= c1 <= 0xEF && 0x80 <= c2 <= 0xBF && 0x80 <= c3 <= 0xBF
    requires !BadPair(c1, c2)
    ensures IsScalar(To32Of3(c1, c2, c3)) && 0x800 <= To32Of3(c1, c2, c3) < 0x10000
    ensures Encode(To32Of3(c1, c2, c3)) == [c1, c2, c3]
  {
    Split(0xE, c1 - 0xE0, 0x10);
    Split(2, c2 - 0x80, 0x40);
    Split(2, c3 - 0x80, 0x40);
    Fields3(c1 - 0xE0, c2 - 0x80, c3 - 0x80);
  }

  /** Four bytes. */
  lemma RoundTrip4(c1: Byte, c2: Byte, c3: Byte, c4: Byte)
    requires 0xF0 <= c1 <= 0xF4 && 0x80 <= c2 <= 0xBF && 0x80 <= c3 <= 0xBF && 0x80 <= c4 <= 0xBF
    requires !BadPair(c1, c2)
    ensures 0x10000 <= To32Of4(c1, c2, c3, c4) < 0x110000
    ensures Encode(To32Of4(c1, c2, c3, c4)) == [c1, c2, c3, c4]
  {
    Split(0x1E, c1 - 0xF0, 8);
    Split(2, c2 - 0x80, 0x40);
    Split(2, c3 - 0x80, 0x40);
    Split(2, c4 - 0x80, 0x40);
    Fields4(c1 - 0xF0, c2 - 0x80, c3 - 0x80, c4 - 0x80);
  }

  /** One step of utf8to32 followed by utf32to8 gives back the bytes the step consumed. */
  lemma StepRoundTrip(s: seq<Byte>)
    requires |s| > 0
    ensures Encode(StepValue(s)) == s[..StepLength(s)]
  {
    var n := StepLength(s);
    ByteClasses(s[0]);
    if n == 2 {
      ByteClasses(s[1]);
      RoundTrip2(s[0], s[1]);
    } else if n == 3 {
      ByteClasses(s[1]);
      ByteClasses(s[2]);
      RoundTrip3(s[0], s[1], s[2]);
    } else if n == 4 {
      ByteClasses(s[1]);
      ByteClasses(s[2]);
      ByteClasses(s[3]);
      RoundTrip4(s[0], s[1], s[2], s[3]);
    }
  }

  /**
   * Every byte string survives utf8to32 followed by utf32to8: well-formed
   * characters are decoded and re-encoded, and every other byte is carried
   * through its surrogate escape.
   */
  lemma {:induction false} DecodeRoundTrip(s: seq<Byte>)
    ensures Utf32To8Of(Utf8To32Of(s)) == s
    decreases |s|
  {
    if |s| > 0 {
      var n := StepLength(s);
      var rest := Utf8To32Of(s[n..]);
      DecodeRoundTrip(s[n..]);
      RoundTripStep(s, n, StepValue(s), rest);
    }
  }

  /** One step of the round trip, with the decoded rest as a parameter. */
  lemma RoundTripStep(s: seq<Byte>, n: nat, v: Char32, rest: seq<Char32>)
    requires |s| > 0 && n == StepLength(s) && v == StepValue(s)
    requires Utf32To8Of(rest) == s[n..]
    ensures Utf32To8Of([v] + rest) == s
  {
    EncodeCons(v, rest);
    StepRoundTrip(s);
    assert s == s[..n] + s[n..];
  }

  /** utf32to8 of a code point followed by more. */
  lemma EncodeCons(c: Char32, rest: seq<Char32>)
    ensures Utf32To8Of([c] + rest) == Encode(c) + Utf32To8Of(rest)
  {
    var u := [c] + rest;
    assert u[0] == c && u[1..] == rest;
  }

  /** A value split into 6-bit fields is the sum of its fields. */
  lemma Join(c: int)
    requires 0 <= c
    ensures c == (c / 0x40) * 0x40 + c % 0x40
    ensures c / 0x40 == ((c / 0x40) / 0x40) * 0x40 + (c / 0x40) % 0x40
    ensures (c / 0x40) / 0x40 == c / 0x1000
    ensures c / 0x1000 == ((c / 0x1000) / 0x40) * 0x40 + (c / 0x1000) % 0x40
    ensures (c / 0x1000) / 0x40 == c / 0x40000
  {
  }

  /** A 2-byte encoding is a well-formed sequence that to32 takes back. */
  lemma Encoded2(c: Char32)
    requires 0x80 <= c < 0x800
    ensures |Encode(c)| == 2 && 0xC2 <= Encode(c)[0] <= 0xDF && 0x80 <= Encode(c)[1] <= 0xBF
    ensures To32Of2(Encode(c)[0], Encode(c)[1]) == c
  {
    Join(c);
    Split(6, c / 0x40, 0x20);
    Split(2, c % 0x40, 0x40);
  }

  /** A 3-byte encoding is a well-formed sequence that to32 takes back. */
  lemma Encoded3(c: Char32)
    requires IsScalar(c) && 0x800 <= c < 0x10000
    ensures |Encode(c)| == 3 && 0xE0 <= Encode(c)[0] <= 0xEF && !BadPair(Encode(c)[0], Encode(c)[1])
    ensures 0x80 <= Encode(c)[1] <= 0xBF && 0x80 <= Encode(c)[2] <= 0xBF
    ensures To32Of3(Encode(c)[0], Encode(c)[1], Encode(c)[2]) == c
  {
    Join(c);
    Split(0xE, c / 0x1000, 0x10);
    Split(2, (c / 0x40) % 0x40, 0x40);
    Split(2, c % 0x40, 0x40);
  }

  /** A 4-byte encoding is a well-formed sequence that to32 takes back. */
  lemma Encoded4(c: Char32)
    requires 0x10000 <= c < 0x110000
    ensures |Encode(c)| == 4 && 0xF0 <= Encode(c)[0] <= 0xF4 && !BadPair(Encode(c)[0], Encode(c)[1])
    ensures 0x80 <= Encode(c)[1] <= 0xBF && 0x80 <= Encode(c)[2] <= 0xBF && 0x80 <= Encode(c)[3] <= 0xBF
    ensures To32Of4(Encode(c)[0], Encode(c)[1], Encode(c)[2], Encode(c)[3]) == c
  {
    Join(c);
    Split(0x1E, c / 0x40000, 8);
    Split(2, (c / 0x1000) % 0x40, 0x40);
    Split(2, (c / 0x40) % 0x40, 0x40);
    Split(2, c % 0x40, 0x40);
  }

  /** A scalar value, encoded, starts a well-formed sequence of its encoded length that decodes back to it, whatever follows. */
  lemma EncodeStep(c: Char32, rest: seq<Byte>)
    requires IsScalar(c)
    ensures |Encode(c) + rest| > 0
    ensures WellFormedLength(Encode(c) + rest) == |Encode(c)|
    ensures StepLength(Encode(c) + rest) == |Encode(c)|
    ensures StepValue(Encode(c) + rest) == c
  {
    var e := Encode(c);
    var s := e + rest;
    assert s[0] == e[0];
    if |e| > 1 { assert s[1] == e[1]; }
    if |e| > 2 { assert s[2] == e[2]; }
    if |e| > 3 { assert s[3] == e[3]; }
    if c < 0x80 {
    } else if c < 0x800 {
      Encoded2(c);
    } else if c < 0x10000 {
      Encoded3(c);
    } else {
      Encoded4(c);
    }
    ByteClasses(s[0]);
    if |e| > 1 { ByteClasses(s[1]); }
    if |e| > 2 { ByteClasses(s[2]); }
    if |e| > 3 { ByteClasses(s[3]); }
    StepLengthIsWellFormed(s);
  }

  /**
   * A sequence of scalar values survives utf32to8 followed by utf8to32.
   * (Lone surrogates are not mapped back: two escaped bytes may form a
   * well-formed character.)
   */
  lemma {:induction false} EncodeRoundTrip(u: seq<Char32>)
    requires forall i :: 0 <= i < |u| ==> IsScalar(u[i])
    ensures Utf8To32Of(Utf32To8Of(u)) == u
    decreases |u|
  {
    if |u| > 0 {
      var rest := Utf32To8Of(u[1..]);
      assert Utf32To8Of(u) == Encode(u[0]) + rest;
      EncodeRoundTrip(u[1..]);
      EncodeRoundTripStep(u[0], rest, u[1..]);
      assert u == [u[0]] + u[1..];
    }
  }

  /** One step of the reverse round trip, with the encoded rest as a parameter. */
  lemma EncodeRoundTripStep(c: Char32, rest: seq<Byte>, decoded: seq<Char32>)
    requires IsScalar(c) && Utf8To32Of(rest) == decoded
    ensures Utf8To32Of(Encode(c) + rest) == [c] + decoded
  {
    var e := Encode(c);
    EncodeStep(c, rest);
    assert (e + rest)[|e|..] == rest;
  }

  // ----- utf8to32 as written -----

  /** The escape as written: 0xDC00 plus the byte read as a signed char. */
  function EscapeAsWritten(b: Byte): (c: Char32)
    ensures c == (if b < 0x80 then 0xDC00 + b else 0xDB00 + b)
  {
    0xDC00 + SignedChar(b)
  }

  function Prepend(c: Char32, rest: Option<seq<Char32>>): (r: Option<seq<Char32>>)
    ensures r.Some? <==> rest.Some?
    ensures rest.Some? ==> r.value == [c] + rest.value
  {
    match rest
    case None => None
    case Some(t) => Some([c] + t)
  }

  /**
   * utf8to32 as written.  The 4-byte case tests, through a comma operator,
   * only whether the fourth byte is non-zero, and breaks out to the escape
   * when it is; when it is zero it stores the 3-byte to32 of the first three
   * bytes and skips all four.  None stands for the read of s[i + 3] past the
   * end of the view that this test makes when fewer than four bytes remain.
   */
  function Utf8To32AsWrittenOf(s: seq<Byte>): (u: Option<seq<Char32>>)
    decreases |s|
  {
    if |s| == 0 then Some([])
    else
      var k := ImplicitLengthAsWritten(s[0]);
      if k == 1 then Prepend(s[0], Utf8To32AsWrittenOf(s[1..]))
      else if k == 2 && 1 < |s| && IsTrail(s[1]) then Prepend(To32Of2(s[0], s[1]), Utf8To32AsWrittenOf(s[2..]))
      else if k == 3 && 2 < |s| && ValidTrail3(s[0], s[1], s[2]) then Prepend(To32Of3(s[0], s[1], s[2]), Utf8To32AsWrittenOf(s[3..]))
      else if k == 4 && |s| <= 3 then None
      else if k == 4 && s[3] == 0 then Prepend(To32Of3(s[0], s[1], s[2]), Utf8To32AsWrittenOf(s[4..]))
      else Prepend(EscapeAsWritten(s[0]), Utf8To32AsWrittenOf(s[1..]))
  }

  /**
   * On well-formed UTF-8 made of 1- to 3-byte characters the conversions as
   * written agree with the corrected ones, so utf32to8(utf8to32(s)) == s.
   */
  lemma {:induction false} AsWrittenRoundTripShort(s: seq<Byte>)
    requires WellFormed(s, 3)
    ensures Utf8To32AsWrittenOf(s) == Some(Utf8To32Of(s))
    ensures Utf32To8AsWrittenOf(Utf8To32Of(s)) == s
    decreases |s|
  {
    if |s| > 0 {
      var n := StepLength(s);
      StepLengthIsWellFormed(s);
      ByteClasses(s[0]);
      assert ImplicitLengthAsWritten(s[0]) == ImplicitLength(s[0]);
      var v := StepValue(s);
      AsWrittenRoundTripShort(s[n..]);
      var rest := Utf8To32Of(s[n..]);
      assert Utf8To32Of(s) == [v] + rest;
      assert v < 0x10000;
      EncodeAsWrittenAgrees(v);
      StepRoundTrip(s);
      var u := [v] + rest;
      assert u[0] == v && u[1..] == rest;
      assert s == s[..n] + s[n..];
    }
  }

  /** One escaped byte of utf8to32 as written: a trail byte, 0xF4, or a 4-byte lead whose fourth byte is not zero. */
  lemma EscapedAsWritten(s: seq<Byte>, rest: seq<Char32>)
    requires |s| > 0 && s[0] >= 0x80
    requires IsTrail(s[0]) || s[0] == 0xF4 || (0xF0 <= s[0] <= 0xF3 && |s| > 3 && s[3] != 0)
    requires Utf8To32AsWrittenOf(s[1..]) == Some(rest)
    ensures EscapeAsWritten(s[0]) == 0xDB00 + s[0] as int
    ensures Utf8To32AsWrittenOf(s) == Some([EscapeAsWritten(s[0])] + rest)
  {
    ByteClasses(s[0]);
  }

  /** Line 108: a byte that cannot be decoded is escaped as 0xDB00 + byte, a high surrogate that utf32to8 turns into U+FFFD. */
  lemma EscapeAsWrittenLoses()
    ensures Utf8To32AsWrittenOf([0x80]) == Some([0xDB80])
    ensures Utf32To8AsWrittenOf([0xDB80]) == Replacement
    ensures Utf8To32Of([0x80]) == [0xDC80] && Utf32To8Of([0xDC80]) == [0x80]
  {
    var s: seq<Byte> := [0x80];
    assert s[1..] == [];
    EscapedAsWritten(s, []);
    assert [0xDB80] + [] == [0xDB80];
    assert [0xDB80][1..] == [] && [0xDC80][1..] == [];
  }

  /** Line 103: U+1F600 in UTF-8 is escaped byte by byte instead of being decoded. */
  lemma FourByteAsWrittenEscapes()
    ensures Utf8To32AsWrittenOf([0xF0, 0x9F, 0x98, 0x80]) == Some([0xDBF0, 0xDB9F, 0xDB98, 0xDB80])
    ensures Utf8To32Of([0xF0, 0x9F, 0x98, 0x80]) == [0x1F600]
  {
    var s: seq<Byte> := [0xF0, 0x9F, 0x98, 0x80];
    assert s[1..] == [0x9F, 0x98, 0x80] && s[2..] == [0x98, 0x80] && s[3..] == [0x80] && s[4..] == [];
    assert s[1..][1..] == s[2..] && s[2..][1..] == s[3..] && s[3..][1..] == s[4..];
    EscapedAsWritten(s[3..], []);
    EscapedAsWritten(s[2..], [0xDB80] + []);
    EscapedAsWritten(s[1..], [0xDB98] + ([0xDB80] + []));
    EscapedAsWritten(s, [0xDB9F] + ([0xDB98] + ([0xDB80] + [])));
    assert [0xDBF0] + ([0xDB9F] + ([0xDB98] + ([0xDB80] + []))) == [0xDBF0, 0xDB9F, 0xDB98, 0xDB80];
    assert StepLength(s) == 4;
  }

  /** Line 103: a 4-byte lead followed by any two bytes and a zero byte is read as one character. */
  lemma FourByteAsWrittenSwallows()
    ensures Utf8To32AsWrittenOf([0xF0, 0x80, 0x80, 0x00]) == Some([0])
  {
    var s: seq<Byte> := [0xF0, 0x80, 0x80, 0x00];
    assert s[4..] == [];
    ByteClasses(s[0]);
    assert Utf8To32AsWrittenOf(s) == Prepend(0, Some([]));
    assert [0] + [] == [0];
  }

  /** Line 50: with a signed char, 0xF4 is not a lead byte, so U+100000 is escaped byte by byte. */
  lemma Lead4AsWrittenMissesF4()
    ensures ImplicitLengthAsWritten(0xF4) == 0 && ImplicitLength(0xF4) == 4
    ensures WellFormedLength([0xF4, 0x80, 0x80, 0x80]) == 4
    ensures Utf8To32AsWrittenOf([0xF4, 0x80, 0x80, 0x80]) == Some([0xDBF4, 0xDB80, 0xDB80, 0xDB80])
    ensures Utf8To32Of([0xF4, 0x80, 0x80, 0x80]) == [0x100000]
  {
    var s: seq<Byte> := [0xF4, 0x80, 0x80, 0x80];
    assert s[1..] == [0x80, 0x80, 0x80] && s[2..] == [0x80, 0x80] && s[3..] == [0x80] && s[4..] == [];
    assert s[1..][1..] == s[2..] && s[2..][1..] == s[3..] && s[3..][1..] == s[4..];
    EscapedAsWritten(s[3..], []);
    EscapedAsWritten(s[2..], [0xDB80] + []);
    EscapedAsWritten(s[1..], [0xDB80] + ([0xDB80] + []));
    EscapedAsWritten(s, [0xDB80] + ([0xDB80] + ([0xDB80] + [])));
    assert [0xDBF4] + ([0xDB80] + ([0xDB80] + ([0xDB80] + []))) == [0xDBF4, 0xDB80, 0xDB80, 0xDB80];
    assert StepLength(s) == 4;
  }

  /** Lines 125 and 130: U+10000 is written in three bytes, and 0x110000 as if it were a code point. */
  lemma EncodeAsWrittenBounds()
    ensures EncodeAsWritten(0x10000) == [0xF0, 0x80, 0x80] && Encode(0x10000) == [0xF0, 0x90, 0x80, 0x80]
    ensures Utf8To32Of([0xF0, 0x80, 0x80]) == [0xDCF0, 0xDC80, 0xDC80]
    ensures EncodeAsWritten(0x110000) == [0xF4, 0x90, 0x80, 0x80] && Encode(0x110000) == Replacement
  {
    var s: seq<Byte> := [0xF0, 0x80, 0x80];
    assert s[1..] == [0x80, 0x80] && s[1..][1..] == [0x80] && s[1..][1..][1..] == [];
  }

  // ----- The conversion loops -----

  /** The decoding of the rest of s from i starts with the step at i. */
  lemma DecodeFrom(s: seq<Byte>, i: nat, c: Char32, n: nat)
    requires i < |s| && n == StepLength(s[i..]) && c == StepValue(s[i..])
    ensures i + n <= |s|
    ensures Utf8To32Of(s[i..]) == [c] + Utf8To32Of(s[i + n..])
  {
    assert s[i..][n..] == s[i + n..];
  }

  /** The switch on implicit_length in the loop of utf8to32: the code point at i and the bytes it takes. */
  method DecodeAt(s: seq<Byte>, i: nat) returns (c: Char32, n: nat)
    requires i < |s|
    ensures n == StepLength(s[i..]) && c == StepValue(s[i..])
  {
    ghost var rest := s[i..];
    assert rest[0] == s[i];
    assert i + 1 < |s| ==> rest[1] == s[i + 1];
    assert i + 2 < |s| ==> rest[2] == s[i + 2];
    assert i + 3 < |s| ==> rest[3] == s[i + 3];
    var k := ImplicitLength(s[i]);
    if k == 1 {
      c, n := s[i], 1;
    } else if k == 2 && i + 1 < |s| && IsTrail(s[i + 1]) {
      c, n := To32Of2(s[i], s[i + 1]), 2;
    } else if k == 3 && i + 2 < |s| && ValidTrail3(s[i], s[i + 1], s[i + 2]) {
      c, n := To32Of3(s[i], s[i + 1], s[i + 2]), 3;
    } else if k == 4 && i + 3 < |s| && ValidTrail4(s[i], s[i + 1], s[i + 2], s[i + 3]) {
      c, n := To32Of4(s[i], s[i + 1], s[i + 2], s[i + 3]), 4;
    } else {
      c, n := Escape(s[i]), 1;
    }
  }

  /** utf8to32 (corrected): decode s one sequence at a time, escaping bytes that start none. */
  method Utf8To32(s: seq<Byte>) returns (u: seq<Char32>)
    ensures u == Utf8To32Of(s)
  {
    u := [];
    var i := 0;
    while i < |s|
      invariant i <= |s|
      invariant u + Utf8To32Of(s[i..]) == Utf8To32Of(s)
      decreases |s| - i
    {
      var c, n := DecodeAt(s, i);
      DecodeFrom(s, i, c, n);
      Associative(u, [c], Utf8To32Of(s[i + n..]));
      u := u + [c];
      i := i + n;
    }
  }

  /** The encoding of the rest of u from k starts with the encoding of u[k]. */
  lemma EncodeFrom(u: seq<Char32>, k: nat)
    requires k < |u|
    ensures Utf32To8Of(u[k..]) == Encode(u[k]) + Utf32To8Of(u[k + 1..])
  {
    assert u[k..][1..] == u[k + 1..];
  }

  /** utf32to8 (corrected): encode each code point in turn. */
  method Utf32To8(u: seq<Char32>) returns (s: seq<Byte>)
    ensures s == Utf32To8Of(u)
  {
    s := [];
    for k := 0 to |u|
      invariant s + Utf32To8Of(u[k..]) == Utf32To8Of(u)
    {
      var c := u[k];
      var b: seq<Byte>;
      if c < 0x80 {
        b := [c];
      } else if c < 0x800 {
        b := [c / 0x40 + 0xC0, c % 0x40 + 0x80];
      } else if 0xD800 <= c <= 0xDFFF {
        if 0xDC80 <= c <= 0xDCFF { b := [c % 0x100]; } else { b := Replacement; }
      } else if c < 0x10000 {
        b := [c / 0x1000 + 0xE0, (c / 0x40) % 0x40 + 0x80, c % 0x40 + 0x80];
      } else if c < 0x110000 {
        b := [c / 0x40000 + 0xF0, (c / 0x1000) % 0x40 + 0x80, (c / 0x40) % 0x40 + 0x80, c % 0x40 + 0x80];
      } else {
        b := Replacement;
      }
      assert b == Encode(c);
      EncodeFrom(u, k);
      Associative(s, b, Utf32To8Of(u[k + 1..]));
      s := s + b;
    }
    assert u[|u|..] == [];
  }

  // ----- utf16to32 -----

  predicate IsHighSurrogate(w: int) { 0xD800 <= w < 0xDC00 }
  predicate IsLowSurrogate(w: int) { 0xDC00 <= w <= 0xDFFF }

  /** The code point of a surrogate pair: ((hi & 0x7FF) << 10 | (lo & 0x3FF)) + 0x10000. */
  function Combine(hi: Unit16, lo: Unit16): (c: Char32)
  {
    (hi % 0x800) * 0x400 + lo % 0x400 + 0x10000
  }

  /**
   * For a true pair the source's mask 0x7FF takes the same ten bits as the
   * 0x3FF of section 2.2 of RFC 2781, and the pair stands for a supplementary code point.
   */
  lemma CombineIsRfc2781(hi: Unit16, lo: Unit16)
    requires IsHighSurrogate(hi) && IsLowSurrogate(lo)
    ensures Combine(hi, lo) == 0x10000 + (hi - 0xD800) * 0x400 + (lo - 0xDC00)
    ensures 0x10000 <= Combine(hi, lo) <= 0x10FFFF
  {
    Split(0x1B, hi - 0xD800, 0x800);
    Split(0x37, lo - 0xDC00, 0x400);
    assert hi % 0x800 == hi - 0xD800;
    assert lo % 0x400 == lo - 0xDC00;
  }

  /** utf16to32: combine each high surrogate directly followed by a low one, and pass every other unit through. */
  function Utf16To32Of(w: seq<Unit16>): (u: seq<Char32>)
    decreases |w|
  {
    if |w| == 0 then []
    else if IsHighSurrogate(w[0]) && 1 < |w| && IsLowSurrogate(w[1]) then [Combine(w[0], w[1])] + Utf16To32Of(w[2..])
    else [w[0]] + Utf16To32Of(w[1..])
  }

  /** The UTF-16 encoding of a scalar value, after section 2.1 of RFC 2781. */
  function Utf16Encode(c: Char32): (w: seq<Unit16>)
    requires IsScalar(c)
    ensures 1 <= |w| <= 2
  {
    if c < 0x10000 then [c]
    else [0xD800 + (c - 0x10000) / 0x400, 0xDC00 + (c - 0x10000) % 0x400]
  }

  function Utf16EncodeAll(u: seq<Char32>): (w: seq<Unit16>)
    requires forall i :: 0 <= i < |u| ==> IsScalar(u[i])
  {
    if |u| == 0 then [] else Utf16Encode(u[0]) + Utf16EncodeAll(u[1..])
  }

  /** utf16to32 decodes the RFC 2781 encoding of any sequence of scalar values back to it. */
  lemma {:induction false} Utf16RoundTrip(u: seq<Char32>)
    requires forall i :: 0 <= i < |u| ==> IsScalar(u[i])
    ensures Utf16To32Of(Utf16EncodeAll(u)) == u
    decreases |u|
  {
    if |u| > 0 {
      var c := u[0];
      var e := Utf16Encode(c);
      var rest := Utf16EncodeAll(u[1..]);
      var w := e + rest;
      assert Utf16EncodeAll(u) == w;
      Utf16RoundTrip(u[1..]);
      if c < 0x10000 {
        assert w[1..] == rest;
      } else {
        var hi, lo := 0xD800 + (c - 0x10000) / 0x400, 0xDC00 + (c - 0x10000) % 0x400;
        assert w[0] == hi && w[1] == lo && w[2..] == rest;
        CombineIsRfc2781(hi, lo);
        assert Combine(hi, lo) == c;
      }
      assert u == [c] + u[1..];
    }
  }

  /** Units that are not surrogates pass through unchanged. */
  lemma {:induction false} Utf16PassThrough(w: seq<Unit16>)
    requires forall i :: 0 <= i < |w| ==> !IsHighSurrogate(w[i]) && !IsLowSurrogate(w[i])
    ensures Utf16To32Of(w) == w
    decreases |w|
  {
    if |w| > 0 {
      Utf16PassThrough(w[1..]);
      assert w == [w[0]] + w[1..];
    }
  }

  /** An unpaired surrogate is passed through as it is. */
  lemma Utf16Unpaired(w: seq<Unit16>)
    requires |w| > 0 && (IsLowSurrogate(w[0]) || (IsHighSurrogate(w[0]) && (|w| == 1 || !IsLowSurrogate(w[1]))))
    ensures Utf16To32Of(w) == [w[0]] + Utf16To32Of(w[1..])
  {
  }

  /** utf16to32 */
  method Utf16To32(w: seq<Unit16>) returns (u: seq<Char32>)
    ensures u == Utf16To32Of(w)
  {
    u := [];
    var i := 0;
    while i < |w|
      invariant i <= |w|
      invariant u + Utf16To32Of(w[i..]) == Utf16To32Of(w)
      decreases |w| - i
    {
      ghost var rest := w[i..];
      assert rest[0] == w[i];
      if IsHighSurrogate(w[i]) && i + 1 < |w| && IsLowSurrogate(w[i + 1]) {
        assert rest[1] == w[i + 1] && rest[2..] == w[i + 2..];
        Associative(u, [Combine(w[i], w[i + 1])], Utf16To32Of(w[i + 2..]));
        u := u + [Combine(w[i], w[i + 1])];
        i := i + 2;
      } else {
        assert rest[1..] == w[i + 1..];
        Associative(u, [w[i]], Utf16To32Of(w[i + 1..]));
        u := u + [w[i]];
        i := i + 1;
      }
    }
  }

  // ----- The document seen through Scintilla's gap buffer -----

  /**
   * The document as two pieces around the gap: pt1 holds positions
   * [0, gap) and pt2 positions [gap, end).  The code offsets its pt2
   * address by -gap so that pt2[cp] is the byte at position cp; here pt2
   * holds just the bytes after the gap.  A plain string is Document(s, []).
   */
  datatype Document = Document(pt1: seq<Byte>, pt2: seq<Byte>)

  function Gap(d: Document): nat { |d.pt1| }
  function End(d: Document): nat { |d.pt1| + |d.pt2| }

  /** The bytes of the document in order. */
  function Text(d: Document): (t: seq<Byte>)
    ensures |t| == End(d)
  {
    d.pt1 + d.pt2
  }

  /** at(cp): the byte at position cp, from whichever side of the gap holds it. */
  function At(d: Document, cp: int): (b: Byte)
    requires 0 <= cp < End(d)
    ensures b == Text(d)[cp]
  {
    if cp < Gap(d) then d.pt1[cp] else d.pt2[cp - Gap(d)]
  }

  /** A matched sub-expression: whether it matched and the positions it spans. */
  datatype Group = Group(matched: bool, first: nat, second: nat)

  predicate GroupsWithin(d: Document, groups: seq<Group>)
  {
    forall i :: 0 <= i < |groups| ==> groups[i].first <= groups[i].second <= End(d)
  }

  /**
   * str(n): the text of sub-expression n, read from pt1 when it lies before
   * the gap, from pt2 when it lies after, and from both when it spans the
   * gap; empty when there is no match, n is out of range or the group did
   * not take part.
   */
  function Str(d: Document, groups: seq<Group>, n: int): (r: seq<Byte>)
    requires GroupsWithin(d, groups)
    ensures r == (if 0 <= n < |groups| && groups[n].matched then Text(d)[groups[n].first..groups[n].second] else [])
  {
    if |groups| == 0 || n < 0 || n >= |groups| || !groups[n].matched then []
    else
      var s1, s2 := groups[n].first, groups[n].second;
      if s2 <= Gap(d) then d.pt1[s1..s2]
      else if s1 >= Gap(d) then d.pt2[s1 - Gap(d)..s2 - Gap(d)]
      else d.pt1[s1..Gap(d)] + d.pt2[..s2 - Gap(d)]
  }

  // ----- RegularExpressionU::DocumentIterator -----

  /**
   * length(p): the length of the sequence at p when it is a complete valid
   * sequence, otherwise 1.
   */
  function Length(d: Document, p: int): (n: int)
    requires 0 <= p < End(d)
    ensures 1 <= n <= 4 && p + n <= End(d)
  {
    var c1 := At(d, p);
    var k := ImplicitLength(c1);
    if k < 2 || p + k > End(d) then 1
    else if !IsTrail(At(d, p + 1)) then 1
    else if k == 2 then 2
    else if BadPair(c1, At(d, p + 1)) then 1
    else if !IsTrail(At(d, p + 2)) then 1
    else if k == 3 then 3
    else if IsTrail(At(d, p + 3)) then 4
    else 1
  }

  /** The iterator steps over the same sequences that utf8to32 decodes. */
  lemma LengthIsStep(d: Document, p: int)
    requires 0 <= p < End(d)
    ensures Length(d, p) == StepLength(Text(d)[p..])
  {
    var t := Text(d)[p..];
    assert t[0] == At(d, p);
    assert p + 1 < End(d) ==> t[1] == At(d, p + 1);
    assert p + 2 < End(d) ==> t[2] == At(d, p + 2);
    assert p + 3 < End(d) ==> t[3] == At(d, p + 3);
  }

  /** What a length says about the bytes it covers. */
  lemma LengthShape(d: Document, p: int)
    requires 0 <= p < End(d)
    ensures IsTrail(At(d, p)) || IsAscii(At(d, p)) ==> Length(d, p) == 1
    ensures Length(d, p) >= 2 ==> IsTrail(At(d, p + 1))
    ensures Length(d, p) >= 3 ==> IsTrail(At(d, p + 2))
    ensures Length(d, p) == 4 ==> IsTrail(At(d, p + 3))
  {
    ByteClasses(At(d, p));
  }

  /** fix_position: from a trail byte inside a valid sequence, move to the end of that sequence. */
  function Fixed(d: Document, pos: int): (r: int)
  {
    if pos <= 0 || pos >= End(d) || !IsTrail(At(d, pos)) || IsAscii(At(d, pos - 1)) then pos
    else if Length(d, pos - 1) > 1 then pos + Length(d, pos - 1) - 1
    else if pos <= 1 then pos
    else if Length(d, pos - 2) > 2 then pos + Length(d, pos - 2) - 2
    else if pos <= 2 then pos
    else if Length(d, pos - 3) > 3 then pos + Length(d, pos - 3) - 3
    else pos
  }

  /** operator--: back over one whole sequence when the bytes before pos form one, otherwise back one byte. */
  function Previous(d: Document, q: int): (r: int)
    requires 0 < q <= End(d)
  {
    if !IsTrail(At(d, q - 1)) then q - 1
    else if q < 2 then q - 1
    else if Length(d, q - 2) == 2 then q - 2
    else if q < 3 then q - 1
    else if Length(d, q - 3) == 3 then q - 3
    else if q < 4 then q - 1
    else if Length(d, q - 4) == 4 then q - 4
    else q - 1
  }

  /** Position p lies k bytes into a valid sequence. */
  predicate Inside(d: Document, p: int, k: int)
    requires 0 <= p <= End(d) && 1 <= k
  {
    k <= p && Length(d, p - k) > k
  }

  /** Position p does not lie inside a valid sequence: it starts a sequence, an error byte, or is the end. */
  predicate AtBoundary(d: Document, p: int)
    requires 0 <= p <= End(d)
  {
    !Inside(d, p, 1) && !Inside(d, p, 2) && !Inside(d, p, 3)
  }

  /** The start, the end, and any byte that is not a trail byte are boundaries. */
  lemma BoundaryCases(d: Document, p: int)
    requires 0 <= p <= End(d)
    requires p == 0 || p == End(d) || !IsTrail(At(d, p)) || IsAscii(At(d, p - 1))
    ensures AtBoundary(d, p)
  {
    if p >= 1 { LengthShape(d, p - 1); }
    if p >= 2 { LengthShape(d, p - 2); }
    if p >= 3 { LengthShape(d, p - 3); }
    if p > 0 && p < End(d) && IsTrail(At(d, p)) {
      ByteClasses(At(d, p - 1));
    }
  }

  /** The end of a valid sequence is a boundary. */
  lemma EndOfSequenceIsBoundary(d: Document, s: int)
    requires 0 <= s < End(d) && Length(d, s) > 1
    ensures AtBoundary(d, s + Length(d, s))
  {
    var e := s + Length(d, s);
    LengthShape(d, s);
    LengthShape(d, e - 1);
    LengthShape(d, e - 2);
    if e >= 3 { LengthShape(d, e - 3); }
  }

  /** fix_position moves at most three bytes forward, to a boundary, and leaves a boundary where it is. */
  lemma FixedIsBoundary(d: Document, pos: int)
    requires 0 <= pos <= End(d)
    ensures pos <= Fixed(d, pos) <= End(d) && Fixed(d, pos) <= pos + 3
    ensures AtBoundary(d, Fixed(d, pos))
    ensures AtBoundary(d, pos) ==> Fixed(d, pos) == pos
  {
    if pos <= 0 || pos >= End(d) || !IsTrail(At(d, pos)) || IsAscii(At(d, pos - 1)) {
      BoundaryCases(d, pos);
    } else {
      FixedOnTrail(d, pos);
    }
  }

  /** fix_position on a trail byte after a non-ASCII byte. */
  lemma FixedOnTrail(d: Document, pos: int)
    requires 0 < pos < End(d) && IsTrail(At(d, pos)) && !IsAscii(At(d, pos - 1))
    ensures pos <= Fixed(d, pos) <= End(d) && Fixed(d, pos) <= pos + 3
    ensures AtBoundary(d, Fixed(d, pos))
    ensures AtBoundary(d, pos) ==> Fixed(d, pos) == pos
  {
    if Length(d, pos - 1) > 1 {
      EndOfSequenceIsBoundary(d, pos - 1);
    } else if pos > 1 && Length(d, pos - 2) > 2 {
      EndOfSequenceIsBoundary(d, pos - 2);
    } else if pos > 2 && Length(d, pos - 3) > 3 {
      EndOfSequenceIsBoundary(d, pos - 3);
    }
  }

  /** From a boundary, operator++ reaches a boundary from which operator-- comes straight back. */
  lemma NextAtBoundary(d: Document, p: int)
    requires 0 <= p < End(d) && AtBoundary(d, p)
    ensures AtBoundary(d, p + Length(d, p))
    ensures Previous(d, p + Length(d, p)) == p
  {
    var n := Length(d, p);
    LengthShape(d, p);
    if n == 1 {
      if p >= 1 { LengthShape(d, p - 1); }
      if p >= 2 { LengthShape(d, p - 2); }
      if p >= 3 { LengthShape(d, p - 3); }
    } else {
      EndOfSequenceIsBoundary(d, p);
      LengthShape(d, p + 1);
      if n >= 3 { LengthShape(d, p + 2); }
    }
  }

  /** From a boundary, operator-- reaches a boundary from which operator++ comes straight back. */
  lemma PreviousAtBoundary(d: Document, q: int)
    requires 0 < q <= End(d) && AtBoundary(d, q)
    ensures 0 <= Previous(d, q) < q
    ensures AtBoundary(d, Previous(d, q))
    ensures Previous(d, q) + Length(d, Previous(d, q)) == q
  {
    var r := Previous(d, q);
    LengthShape(d, q - 1);
    if q >= 2 { LengthShape(d, q - 2); }
    if q >= 3 { LengthShape(d, q - 3); }
    if q >= 4 { LengthShape(d, q - 4); }
    if !IsTrail(At(d, r)) {
      BoundaryCases(d, r);
    }
  }

  /** The UTF-32 view of a UTF-8 document that the regular expression engine walks. */
  class DocumentIterator {
    const doc: Document
    var pos: int

    /** Construct at a position, moved by fix_position to a boundary. */
    constructor (doc: Document, at: int)
      requires 0 <= at <= End(doc)
      ensures this.doc == doc && pos == Fixed(doc, at)
      ensures at <= pos <= at + 3 && AtBoundary(doc, pos)
    {
      this.doc := doc;
      pos := at;
      new;
      FixPosition();
      FixedIsBoundary(doc, at);
    }

    /** fix_position */
    method FixPosition()
      modifies this
      ensures pos == Fixed(doc, old(pos))
    {
      if pos <= 0 || pos >= End(doc) || !IsTrail(At(doc, pos)) || IsAscii(At(doc, pos - 1)) {
        return;
      }
      var n := Length(doc, pos - 1);
      if n > 1 {
        pos := pos + n - 1;
      } else if pos > 1 {
        n := Length(doc, pos - 2);
        if n > 2 {
          pos := pos + n - 2;
        } else if pos > 2 {
          n := Length(doc, pos - 3);
          if n > 3 {
            pos := pos + n - 3;
          }
        }
      }
    }

    /** position(at): move to a position as given, without fixing it. */
    method SetPosition(at: int)
      modifies this
      ensures pos == at
    {
      pos := at;
    }

    /** operator++ */
    method Increment()
      requires 0 <= pos < End(doc)
      modifies this
      ensures pos == old(pos) + Length(doc, old(pos))
    {
      pos := pos + Length(doc, pos);
    }

    /** operator-- */
    method Decrement()
      requires 0 < pos <= End(doc)
      modifies this
      ensures pos == Previous(doc, old(pos))
    {
      if !IsTrail(At(doc, pos - 1)) { pos := pos - 1; }
      else if pos < 2 { pos := pos - 1; }
      else if Length(doc, pos - 2) == 2 { pos := pos - 2; }
      else if pos < 3 { pos := pos - 1; }
      else if Length(doc, pos - 3) == 3 { pos := pos - 3; }
      else if pos < 4 { pos := pos - 1; }
      else if Length(doc, pos - 4) == 4 { pos := pos - 4; }
      else { pos := pos - 1; }
    }

    /** operator*: the code point at pos, the same one utf8to32 decodes there. */
    function Current(): (c: Char32)
      reads this
      requires 0 <= pos < End(doc)
      ensures c == StepValue(Text(doc)[pos..])
    {
      LengthIsStep(doc, pos);
      var c1 := At(doc, pos);
      if IsAscii(c1) then c1
      else
        var n := Length(doc, pos);
        if n == 2 then To32Of2(c1, At(doc, pos + 1))
        else if n == 3 then To32Of3(c1, At(doc, pos + 1), At(doc, pos + 2))
        else if n == 4 then To32Of4(c1, At(doc, pos + 1), At(doc, pos + 2), At(doc, pos + 3))
        else Escape(c1)
    }
  }
}
