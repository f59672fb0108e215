// Small shared vocabulary: an optional value and the ASCII character
// classification the C and C++ runtime functions of the plug-in use.
module Common {

  datatype Option<T> = None | Some(value: T)

  /** An unsigned 8-bit code unit. */
  type Byte = x: int | 0 <= x < 256

  /** isdigit in the "C" locale. */
  predicate IsDigit(c: char) { '0' <= c <= '9' }

  /** isxdigit in the "C" locale. */
  predicate IsHexDigit(c: char) { IsDigit(c) || 'a' <= c <= 'f' || 'A' <= c <= 'F' }

  /** isalnum in the "C" locale. */
  predicate IsAlnum(c: char) { IsDigit(c) || 'a' <= c <= 'z' || 'A' <= c <= 'Z' }

  /** tolower / towlower restricted to ASCII letters. */
  function ToLower(c: char): (r: char)
    ensures 'A' <= c <= 'Z' ==> r as int == c as int + 32
    ensures !('A' <= c <= 'Z') ==> r == c
  {
    if 'A' <= c <= 'Z' then (c as int + 32) as char else c
  }

  /** The whole string lower-cased character by character. */
  function LowerString(s: string): (r: string)
    ensures |r| == |s|
    ensures forall i :: 0 <= i < |s| ==> r[i] == ToLower(s[i])
  {
    if s == [] then [] else [ToLower(s[0])] + LowerString(s[1..])
  }

  /** Value of a hexadecimal digit (0 for any other character). */
  function HexDigitValue(c: char): (v: nat)
    ensures v < 16
    ensures IsDigit(c) ==> v == c as int - '0' as int
  {
    if IsDigit(c) then c as int - '0' as int
    else if 'a' <= c <= 'f' then c as int - 'a' as int + 10
    else if 'A' <= c <= 'F' then c as int - 'A' as int + 10
    else 0
  }

  /** Value of a digit string in the given radix, most significant digit first. */
  function DigitsValue(s: string, radix: nat): nat
  {
    if s == [] then 0 else DigitsValue(s[..|s| - 1], radix) * radix + HexDigitValue(s[|s| - 1])
  }

  /** Position of the first occurrence of c in s at or after from, if any (std::string::find). */
  function FindFrom(s: string, c: char, from: nat): (r: Option<nat>)
    decreases |s| - from
    ensures r.Some? ==> from <= r.value < |s| && s[r.value] == c
    ensures r.Some? ==> forall k :: from <= k < r.value ==> s[k] != c
    ensures r.None? ==> forall k :: from <= k < |s| ==> s[k] != c
  {
    if from >= |s| then None
    else if s[from] == c then Some(from)
    else FindFrom(s, c, from + 1)
  }

  /** Position of the first character other than c at or after from, if any (find_first_not_of). */
  function FindNotFrom(s: string, c: char, from: nat): (r: Option<nat>)
    decreases |s| - from
    ensures r.Some? ==> from <= r.value < |s| && s[r.value] != c
    ensures r.Some? ==> forall k :: from <= k < r.value ==> s[k] == c
    ensures r.None? ==> forall k :: from <= k < |s| ==> s[k] == c
  {
    if from >= |s| then None
    else if s[from] != c then Some(from)
    else FindNotFrom(s, c, from + 1)
  }

  /** Position of the last character other than c before upTo, if any (find_last_not_of(c, upTo - 1)). */
  function FindLastNotBefore(s: string, c: char, upTo: nat): (r: Option<nat>)
    requires upTo <= |s|
    ensures r.Some? ==> r.value < upTo && s[r.value] != c
    ensures r.Some? ==> forall k :: r.value < k < upTo ==> s[k] == c
    ensures r.None? ==> forall k :: 0 <= k < upTo ==> s[k] == c
  {
    if upTo == 0 then None
    else if s[upTo - 1] != c then Some(upTo - 1)
    else FindLastNotBefore(s, c, upTo - 1)
  }

  /** The ECMAScript '.' matches any character except the line terminators CR and LF. */
  predicate NoLineBreak(s: string)
  {
    forall i :: 0 <= i < |s| ==> s[i] != '\n' && s[i] != '\r'
  }

  /** Last position of c in s, if any (std::string::find_last_of / wcsrchr). */
  function FindLast(s: string, c: char): (r: Option<nat>)
    ensures r.Some? ==> r.value < |s| && s[r.value] == c
    ensures r.Some? ==> forall k :: r.value < k < |s| ==> s[k] != c
    ensures r.None? ==> forall k :: 0 <= k < |s| ==> s[k] != c
  {
    if s == [] then None
    else if s[|s| - 1] == c then Some(|s| - 1)
    else FindLast(s[..|s| - 1], c)
  }

  /** Moving the first element of s onto the end of prefix. */
  lemma MoveFirst<T>(prefix: seq<T>, s: seq<T>)
    requires s != []
    ensures (prefix + [s[0]]) + s[1..] == prefix + s
  {
    assert s == [s[0]] + s[1..];
  }

  /** A slice is its first element followed by the rest. */
  lemma SliceFirst<T>(s: seq<T>, i: nat, k: nat)
    requires i < k <= |s|
    ensures s[i..k] == [s[i]] + s[i + 1..k]
  {
  }

  /** Concatenation regroups freely; stating it once keeps sequence proofs cheap. */
  lemma Associative<T>(a: seq<T>, b: seq<T>, c: seq<T>)
    ensures (a + b) + c == a + (b + c)
  {
  }
}
