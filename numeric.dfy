/**
 * The line history behind the Calculate command (CalculateHistory in
 * Numeric.h): one result per processed selection line, the flags and the
 * list of lines not skipped by a regular-expression miss, the last finite
 * result, and a ring of line caches that the formula functions enlarge on
 * demand when they look further back.
 *
 * A double is a Value: Finite(x) for a finite number, NonFinite for NaN and
 * the infinities.  A cache entry keeps only its four validity flags: the
 * numbers and text it caches are read from the document.
 */
module Numeric {
  import opened Common

  datatype Value = Finite(x: real) | NonFinite

  /** LineCache: which of col, reg, tab and text have been filled for this line. */
  datatype LineCache = LineCache(colValid: bool, regValid: bool, tabValid: bool, textValid: bool)

  /** A cache entry after invalidate(), and a newly constructed one. */
  const Invalidated := LineCache(false, false, false, false)

  /** How many lines before the current one slot j of a ring of the given size holds, when the current line is in slot current. */
  function Distance(current: nat, size: nat, j: nat): (d: nat)
    requires current < size && j < size
    ensures d < size
    ensures d <= current <==> j <= current
  {
    if j <= current then current - j else size + current - j
  }

  /** The slot holding the line d lines before the current one. */
  function SlotAt(current: nat, size: nat, d: nat): (j: nat)
    requires current < size && d < size
    ensures j < size
  {
    if d <= current then current - d else size + current - d
  }

  /** Every distance has exactly one slot, and every slot one distance. */
  lemma SlotDistance(current: nat, size: nat, d: nat, j: nat)
    requires current < size && d < size && j < size
    ensures Distance(current, size, SlotAt(current, size, d)) == d
    ensures SlotAt(current, size, Distance(current, size, j)) == j
    ensures Distance(current, size, j) == d <==> j == SlotAt(current, size, d)
  {
  }

  /** The slot after current in the ring: ++currentEntry, wrapping to 0 at the end. */
  function Advance(current: nat, size: nat): (j: nat)
    requires current < size
    ensures j < size
  {
    if current + 1 == size then 0 else current + 1
  }

  /**
   * Moving the current slot on by one makes every other slot one line older,
   * and the slot reused for the new line is the one that held the oldest.
   */
  lemma AdvanceAges(current: nat, size: nat, j: nat)
    requires current < size && j < size
    ensures Distance(current, size, Advance(current, size)) == size - 1
    ensures Distance(Advance(current, size), size, Advance(current, size)) == 0
    ensures j != Advance(current, size) ==>
      Distance(Advance(current, size), size, j) == Distance(current, size, j) + 1
  {
  }

  /** Appending a slot after the last one, which held the current line, also makes every old slot one line older. */
  lemma GrowAges(size: nat, j: nat)
    requires j < size
    ensures Distance(size, size + 1, j) == Distance(size - 1, size, j) + 1
  {
  }

  /**
   * cache.insert(cache.begin() + current + 1, size - |cache|, LineCache()):
   * the ring grown to the given size by fresh entries placed after the
   * current slot.
   */
  function Widened(cache: seq<LineCache>, current: nat, size: nat): (r: seq<LineCache>)
    requires current < |cache| <= size
    ensures |r| == size
  {
    cache[..current + 1] + seq(size - |cache|, _ => Invalidated) + cache[current + 1..]
  }

  /**
   * Widening keeps every entry with the line it caches: an entry moves only
   * when it lies after the current slot, and then it keeps its distance;
   * the new entries are fresh and stand for the lines older than all those
   * cached before, the slot after the current one for the oldest.
   */
  lemma WidenedKeepsLines(cache: seq<LineCache>, current: nat, size: nat, j: nat)
    requires current < |cache| <= size && j < |cache|
    ensures var k := if j <= current then j else j + (size - |cache|);
      k < size && Widened(cache, current, size)[k] == cache[j] &&
      Distance(current, size, k) == Distance(current, |cache|, j)
    ensures current < j <= current + (size - |cache|) ==>
      Widened(cache, current, size)[j] == Invalidated && Distance(current, size, j) >= |cache|
    ensures |cache| < size ==> Distance(current, size, current + 1) == size - 1
  {
    var w := Widened(cache, current, size);
    var g := size - |cache|;
    if j <= current {
      assert w[j] == cache[..current + 1][j];
    } else {
      assert w[j + g] == cache[current + 1..][j - current - 1];
    }
    if current < j <= current + g {
      assert w[j] == seq(g, _ => Invalidated)[j - current - 1];
    }
  }

  /** skipMap as the source keeps it: the indices of the lines not skipped, in increasing order. */
  function Unskipped(flags: seq<bool>): (r: seq<nat>)
    ensures |r| <= |flags|
    ensures forall k :: 0 <= k < |r| ==> r[k] < |flags|
    decreases |flags|
  {
    if flags == [] then []
    else Unskipped(flags[..|flags| - 1]) + (if flags[|flags| - 1] then [] else [|flags| - 1])
  }

  /** The indices Unskipped lists are exactly the lines whose flag is clear. */
  lemma {:induction false} UnskippedMembers(flags: seq<bool>, i: nat)
    ensures i in Unskipped(flags) <==> i < |flags| && !flags[i]
    decreases |flags|
  {
    if flags != [] {
      var f := flags[..|flags| - 1];
      UnskippedMembers(f, i);
      if i < |f| {
        assert f[i] == flags[i];
      }
    }
  }

  /** Unskipped is strictly increasing. */
  lemma {:induction false} UnskippedIncreasing(flags: seq<bool>, a: nat, b: nat)
    requires a < b < |Unskipped(flags)|
    ensures Unskipped(flags)[a] < Unskipped(flags)[b]
    decreases |flags|
  {
    var f := flags[..|flags| - 1];
    var u := Unskipped(f);
    if b < |u| {
      UnskippedIncreasing(f, a, b);
    } else {
      assert Unskipped(flags)[a] == u[a] < |f|;
    }
  }

  /** Marking the last line skipped drops it, the last entry, from Unskipped. */
  lemma UnskippedSkipLast(flags: seq<bool>)
    requires |flags| > 0 && !flags[|flags| - 1]
    ensures Unskipped(flags[|flags| - 1 := true]) == Unskipped(flags)[..|Unskipped(flags)| - 1]
  {
    var g := flags[|flags| - 1 := true];
    assert g[..|g| - 1] == flags[..|flags| - 1];
  }

  /** A new unskipped line appends its index. */
  lemma UnskippedPush(flags: seq<bool>)
    ensures Unskipped(flags + [false]) == Unskipped(flags) + [|flags|]
  {
    assert (flags + [false])[..|flags|] == flags;
  }

  /** The last finite value of a list of results, 0 if there is none. */
  function LastFinite(results: seq<Value>): real
    decreases |results|
  {
    if results == [] then 0.0
    else if results[|results| - 1].Finite? then results[|results| - 1].x
    else LastFinite(results[..|results| - 1])
  }

  /** There is no finite value in results from position k on. */
  predicate NoFiniteFrom(results: seq<Value>, k: nat)
  {
    forall j :: k <= j < |results| ==> results[j] == NonFinite
  }

  /**
   * LastFinite is the most recent finite value: either results holds no
   * finite value and it is 0, or it is the value at some k after which
   * every value is not finite.
   */
  lemma {:induction false} LastFiniteIsLatest(results: seq<Value>)
    ensures (NoFiniteFrom(results, 0) && LastFinite(results) == 0.0) ||
      exists k :: 0 <= k < |results| && results[k] == Finite(LastFinite(results)) && NoFiniteFrom(results, k + 1)
    decreases |results|
  {
    if results != [] {
      var n := |results| - 1;
      if results[n].Finite? {
        assert results[n] == Finite(LastFinite(results)) && NoFiniteFrom(results, n + 1);
      } else {
        var f := results[..n];
        LastFiniteIsLatest(f);
        if NoFiniteFrom(f, 0) && LastFinite(f) == 0.0 {
          assert NoFiniteFrom(results, 0) by {
            forall j | 0 <= j < |results| ensures results[j] == NonFinite {
              if j < n { assert results[j] == f[j]; }
            }
          }
        } else {
          var k :| 0 <= k < |f| && f[k] == Finite(LastFinite(f)) && NoFiniteFrom(f, k + 1);
          assert results[k] == f[k];
          assert NoFiniteFrom(results, k + 1) by {
            forall j | k + 1 <= j < |results| ensures results[j] == NonFinite {
              if j < n { assert results[j] == f[j]; }
            }
          }
        }
      }
    }
  }

  /** std::isfinite(results.back()) ? results.back() : lastFiniteResult, as one more result is pushed. */
  lemma LastFinitePush(results: seq<Value>, v: Value)
    ensures LastFinite(results + [v]) == if v.Finite? then v.x else LastFinite(results)
  {
    assert (results + [v])[..|results|] == results;
  }

  /** The value push gives lastFiniteResult is the last finite value of all results so far. */
  lemma PushedLastFinite(results: seq<Value>, last: real)
    requires last == LastFinite(if results == [] then [] else results[..|results| - 1])
    ensures LastFinite(results) == if results != [] && results[|results| - 1].Finite? then results[|results| - 1].x else last
  {
    if results != [] {
      LastFinitePush(results[..|results| - 1], results[|results| - 1]);
      assert results[..|results| - 1] + [results[|results| - 1]] == results;
    }
  }

  /** static_cast<size_t> of the index argument; a value that cannot be cast counts as 0, which no lookup accepts. */
  function IndexArg(v: Value): (i: nat)
    ensures v.Finite? && v.x >= 1.0 ==> i as real <= v.x < i as real + 1.0
    ensures v.NonFinite? || v.x < 1.0 ==> i == 0
  {
    if v.Finite? && v.x >= 1.0 then v.x.Floor else 0
  }

  /**
   * The invariant of the history, on its field values: one result and one
   * skip flag per line; skipMap lists the lines not skipped; lastFinite is
   * the last finite result before the current line; the cache has an entry
   * for each of the last three lines at least, never more than there are
   * lines, and the current line is in slot current (the last slot while the
   * ring is still growing).
   */
  ghost predicate Consistent(cache: seq<LineCache>, results: seq<Value>, skipMap: seq<nat>, skipFlag: seq<bool>,
                             lastFinite: real, current: nat)
  {
    |skipFlag| == |results| && skipMap == Unskipped(skipFlag) &&
    lastFinite == LastFinite(if results == [] then [] else results[..|results| - 1]) &&
    |cache| <= |results| && (|results| < 3 ==> |cache| == |results|) && (|results| >= 3 ==> |cache| >= 3) &&
    (if cache == [] then current == 0 else current < |cache|) &&
    (0 < |cache| < 3 ==> current == |cache| - 1)
  }

  /** push keeps the invariant. */
  lemma PushConsistent(cache: seq<LineCache>, results: seq<Value>, skipMap: seq<nat>, skipFlag: seq<bool>,
                       lastFinite: real, current: nat, cache': seq<LineCache>, current': nat, lastFinite': real)
    requires Consistent(cache, results, skipMap, skipFlag, lastFinite, current)
    requires |cache| < 3 ==> cache' == cache + [Invalidated] && current' == |cache|
    requires |cache| >= 3 ==> current' == Advance(current, |cache|) && cache' == cache[current' := Invalidated]
    requires lastFinite' == if results != [] && results[|results| - 1].Finite? then results[|results| - 1].x else lastFinite
    ensures Consistent(cache', results + [NonFinite], skipMap + [|results|], skipFlag + [false], lastFinite', current')
  {
    PushedLastFinite(results, lastFinite);
    UnskippedPush(skipFlag);
    assert (results + [NonFinite])[..|results|] == results;
  }

  /** Storing the current line's result keeps the invariant. */
  lemma SetResultConsistent(cache: seq<LineCache>, results: seq<Value>, skipMap: seq<nat>, skipFlag: seq<bool>,
                            lastFinite: real, current: nat, v: Value)
    requires Consistent(cache, results, skipMap, skipFlag, lastFinite, current) && results != []
    ensures Consistent(cache, results[|results| - 1 := v], skipMap, skipFlag, lastFinite, current)
  {
    assert results[|results| - 1 := v][..|results| - 1] == results[..|results| - 1];
  }

  /** skip keeps the invariant, and there is an entry in skipMap to drop. */
  lemma SkipConsistent(cache: seq<LineCache>, results: seq<Value>, skipMap: seq<nat>, skipFlag: seq<bool>,
                       lastFinite: real, current: nat)
    requires Consistent(cache, results, skipMap, skipFlag, lastFinite, current)
    requires results != [] && !skipFlag[|skipFlag| - 1]
    ensures |skipMap| > 0
    ensures Consistent(cache, results, skipMap[..|skipMap| - 1], skipFlag[|skipFlag| - 1 := true], lastFinite, current)
  {
    UnskippedSkipLast(skipFlag);
    UnskippedMembers(skipFlag, |skipFlag| - 1);
  }

  /** Widening the cache to reach the line m lines back keeps the invariant. */
  lemma WidenConsistent(cache: seq<LineCache>, results: seq<Value>, skipMap: seq<nat>, skipFlag: seq<bool>,
                        lastFinite: real, current: nat, m: nat)
    requires Consistent(cache, results, skipMap, skipFlag, lastFinite, current)
    requires |cache| <= m < |results|
    ensures cache != [] && |cache| >= 3
    ensures Consistent(Widened(cache, current, m + 1), results, skipMap, skipFlag, lastFinite, current)
  {
  }

  class CalculateHistory {
    var cache: seq<LineCache>
    var results: seq<Value>
    var skipMap: seq<nat>
    var skipFlag: seq<bool>
    var lastFiniteResult: real
    var currentEntry: nat

    ghost predicate Valid()
      reads this
    {
      Consistent(cache, results, skipMap, skipFlag, lastFiniteResult, currentEntry)
    }

    /** The index of the line whose entry is in slot j. */
    ghost function LineOf(j: nat): (line: int)
      reads this
      requires currentEntry < |cache| && j < |cache|
    {
      |results| - 1 - Distance(currentEntry, |cache|, j)
    }

    constructor ()
      ensures Valid()
      ensures cache == [] && results == [] && skipMap == [] && skipFlag == []
      ensures lastFiniteResult == 0.0 && currentEntry == 0
    {
      cache := [];
      results := [];
      skipMap := [];
      skipFlag := [];
      lastFiniteResult := 0.0;
      currentEntry := 0;
    }

    /**
     * push: start a new line with a NaN result and a clear skip flag.  A cache
     * of fewer than three entries grows by one for it; otherwise the slot
     * after the current one, which held the oldest line, is invalidated and
     * reused.  The previous line's result becomes the last finite result if
     * it is finite.
     */
    method Push()
      requires Valid()
      modifies this
      ensures Valid()
      ensures results == old(results) + [NonFinite]
      ensures skipFlag == old(skipFlag) + [false]
      ensures skipMap == old(skipMap) + [|old(results)|]
      ensures lastFiniteResult ==
        if old(results) != [] && old(results)[|old(results)| - 1].Finite? then old(results)[|old(results)| - 1].x
        else old(lastFiniteResult)
      ensures old(|cache|) < 3 ==> cache == old(cache) + [Invalidated] && currentEntry == old(|cache|)
      ensures old(|cache|) >= 3 ==>
        currentEntry == Advance(old(currentEntry), old(|cache|)) && cache == old(cache)[currentEntry := Invalidated]
    {
      var c, e := cache, currentEntry;
      if |c| < 3 {
        c := c + [Invalidated];
        e := |c| - 1;
      } else {
        e := e + 1;
        if e == |c| {
          e := 0;
        }
        c := c[e := Invalidated];
      }
      var l := lastFiniteResult;
      if |results| > 0 && results[|results| - 1].Finite? {
        l := results[|results| - 1].x;
      }
      var f, s, r := skipFlag + [false], skipMap + [|results|], results + [NonFinite];
      PushConsistent(cache, results, skipMap, skipFlag, lastFiniteResult, currentEntry, c, e, l);
      assert Consistent(c, r, s, f, l, e);
      cache, currentEntry, lastFiniteResult := c, e, l;
      skipFlag, skipMap, results := f, s, r;
    }

    /** results.back() = result: the calculation stores the current line's result. */
    method SetResult(v: Value)
      requires Valid() && results != []
      modifies this
      ensures Valid()
      ensures results == old(results)[|old(results)| - 1 := v]
      ensures cache == old(cache) && skipMap == old(skipMap) && skipFlag == old(skipFlag)
      ensures lastFiniteResult == old(lastFiniteResult) && currentEntry == old(currentEntry)
    {
      SetResultConsistent(cache, results, skipMap, skipFlag, lastFiniteResult, currentEntry, v);
      results := results[|results| - 1 := v];
    }

    /** skip: the current line, not yet skipped, is marked skipped and leaves skipMap. */
    method Skip()
      requires Valid() && results != [] && !skipFlag[|skipFlag| - 1]
      modifies this
      ensures Valid()
      ensures skipFlag == old(skipFlag)[|old(skipFlag)| - 1 := true]
      ensures skipMap == old(skipMap)[..|old(skipMap)| - 1]
      ensures cache == old(cache) && results == old(results)
      ensures lastFiniteResult == old(lastFiniteResult) && currentEntry == old(currentEntry)
    {
      SkipConsistent(cache, results, skipMap, skipFlag, lastFiniteResult, currentEntry);
      skipFlag := skipFlag[|skipFlag| - 1 := true];
      skipMap := skipMap[..|skipMap| - 1];
    }

    /** skipped(n): whether line n was skipped. */
    method Skipped(n: nat) returns (b: bool)
      requires Valid() && n < |results|
      ensures b <==> n !in skipMap
    {
      UnskippedMembers(skipFlag, n);
      b := skipFlag[n];
    }

    /**
     * previous(n): the slot of the line n unskipped lines before the current
     * one (n = 0: the most recent unskipped line), or None (npos) when there
     * are not that many.  When the ring does not reach that far back it is
     * widened, by fresh entries after the current slot, to just reach it.
     */
    method Previous(n: nat) returns (r: Option<nat>)
      requires Valid()
      modifies this
      ensures Valid()
      ensures r.None? <==> n >= |skipMap|
      ensures r.Some? ==> r.value < |cache| && currentEntry < |cache| && LineOf(r.value) == skipMap[|skipMap| - 1 - n]
      ensures results == old(results) && skipMap == old(skipMap) && skipFlag == old(skipFlag)
      ensures lastFiniteResult == old(lastFiniteResult) && currentEntry == old(currentEntry)
      ensures n < |skipMap| && |results| - skipMap[|skipMap| - 1 - n] > old(|cache|) ==>
        old(cache) != [] && cache == Widened(old(cache), currentEntry, |results| - skipMap[|skipMap| - 1 - n])
      ensures n >= |skipMap| || |results| - skipMap[|skipMap| - 1 - n] <= old(|cache|) ==> cache == old(cache)
    {
      if n >= |skipMap| {
        return None;
      }
      var line := skipMap[|skipMap| - n - 1];
      var m := |results| - line - 1;
      if m < |cache| {
        r := Some(if m <= currentEntry then currentEntry - m else |cache| + currentEntry - m);
        SlotDistance(currentEntry, |cache|, m, r.value);
        return;
      }
      WidenedKeepsLines(cache, currentEntry, m + 1, 0);
      WidenConsistent(cache, results, skipMap, skipFlag, lastFiniteResult, currentEntry, m);
      cache := cache[..currentEntry + 1] + seq(m + 1 - |cache|, _ => Invalidated) + cache[currentEntry + 1..];
      r := Some(currentEntry + 1);
    }

    /**
     * ExLast: with no argument, the last finite result before the current
     * line; with an index i, the result of the line i lines before the
     * current one, counting skipped lines, when 0 < i < the number of
     * lines; otherwise NaN.  A second argument replaces a result that is not
     * finite.
     */
    function Last(args: seq<Value>): (v: Value)
      reads this
      ensures args == [] ==> v == Finite(lastFiniteResult)
      ensures args != [] && 0 < IndexArg(args[0]) < |results| && results[|results| - IndexArg(args[0]) - 1].Finite? ==>
        v == results[|results| - IndexArg(args[0]) - 1]
      ensures args != [] && !(0 < IndexArg(args[0]) < |results| && results[|results| - IndexArg(args[0]) - 1].Finite?) ==>
        v == if |args| > 1 then args[1] else NonFinite
    {
      if args == [] then Finite(lastFiniteResult)
      else
        var i := IndexArg(args[0]);
        var n := if 0 < i < |results| then results[|results| - i - 1] else NonFinite;
        if |args| > 1 && n.NonFinite? then args[1] else n
    }

    /** Under the invariant, last() is the most recent finite result before the current line, or 0. */
    lemma LastWithoutIndex()
      requires Valid() && results != []
      ensures Last([]) == Finite(LastFinite(results[..|results| - 1]))
      ensures (NoFiniteFrom(results[..|results| - 1], 0) && Last([]) == Finite(0.0)) ||
        exists k :: 0 <= k < |results| - 1 && results[k] == Last([]) && NoFiniteFrom(results[..|results| - 1], k + 1)
    {
      var f := results[..|results| - 1];
      LastFiniteIsLatest(f);
      if !(NoFiniteFrom(f, 0) && LastFinite(f) == 0.0) {
        var k :| 0 <= k < |f| && f[k] == Finite(LastFinite(f)) && NoFiniteFrom(f, k + 1);
        assert results[k] == f[k];
      }
    }
  }
}
