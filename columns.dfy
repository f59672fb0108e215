// Helpers from ColumnsPlusPlus.h: the saturating integer conversion
// clamp_cast, the file-extension key used to choose an elastic-tabstop
// profile, the combo-box history shared by the dialogs, and the splitting of
// one row of a rectangular selection into tab-separated cells.
module ColumnsPlusPlus {
  import opened Common

  // ---------------------------------------------------------------------
  // clamp_cast
  // ---------------------------------------------------------------------

  /** An integral C++ type: its signedness and its width in bits. */
  datatype IntType = IntType(signed: bool, bits: nat)

  predicate ValidType(t: IntType) { t.bits > 0 }

  function Power2(n: nat): (p: nat)
    ensures p >= 1
  {
    if n == 0 then 1 else 2 * Power2(n - 1)
  }

  function MinOf(t: IntType): int
    requires ValidType(t)
  {
    if t.signed then -(Power2(t.bits - 1) as int) else 0
  }

  function MaxOf(t: IntType): int
    requires ValidType(t)
  {
    if t.signed then Power2(t.bits - 1) - 1 else Power2(t.bits) - 1
  }

  predicate Fits(v: int, t: IntType)
    requires ValidType(t)
  {
    MinOf(t) <= v <= MaxOf(t)
  }

  function Clamp(v: int, lo: int, hi: int): int
    requires lo <= hi
  {
    if v < lo then lo else if v > hi then hi else v
  }

  /** clamp_cast<T>(v) for an integral source type S and target type T, branch by branch as in the template. */
  function ClampCast(v: int, s: IntType, t: IntType): int
    requires ValidType(s) && ValidType(t) && Fits(v, s)
  {
    if s.signed == t.signed then
      if MaxOf(t) >= MaxOf(s) then v else Clamp(v, MinOf(t), MaxOf(t))
    else if s.signed then
      if MaxOf(t) >= MaxOf(s) then (if v < 0 then 0 else v) else Clamp(v, 0, MaxOf(t))
    else
      if MaxOf(t) >= MaxOf(s) then v else (if v > MaxOf(t) then MaxOf(t) else v)
  }

  lemma {:induction false} Power2Monotone(a: nat, b: nat)
    requires a <= b
    ensures Power2(a) <= Power2(b)
    decreases b
  {
    if a < b { Power2Monotone(a, b - 1); }
  }

  /** A type with the larger maximum of the same signedness also has the smaller (or equal) minimum. */
  lemma SameSignednessRange(s: IntType, t: IntType)
    requires ValidType(s) && ValidType(t) && s.signed == t.signed && MaxOf(t) >= MaxOf(s)
    ensures MinOf(t) <= MinOf(s)
  {
    if s.signed {
      if t.bits < s.bits {
        Power2Monotone(t.bits, s.bits - 1);
        assert false;
      }
      Power2Monotone(s.bits - 1, t.bits - 1);
    }
  }

  /** clamp_cast returns v when it fits the target type, and otherwise the nearest bound of the target type. */
  lemma ClampCastIsClamp(v: int, s: IntType, t: IntType)
    requires ValidType(s) && ValidType(t) && Fits(v, s)
    ensures Fits(ClampCast(v, s, t), t)
    ensures ClampCast(v, s, t) == Clamp(v, MinOf(t), MaxOf(t))
    ensures Fits(v, t) ==> ClampCast(v, s, t) == v
  {
    if s.signed == t.signed && MaxOf(t) >= MaxOf(s) {
      SameSignednessRange(s, t);
    }
  }

  // ---------------------------------------------------------------------
  // getFileExtension
  // ---------------------------------------------------------------------

  /**
   * The profile key of a file path: "" when the path has no backslash (a new,
   * unsaved document), "." when the name has no extension or ends in a
   * period, and otherwise the lower-cased text after the last period.
   */
  function GetFileExtension(path: string): (ext: string)
  {
    match FindLast(path, '\\')
    case None => ""
    case Some(lastBackslash) =>
      match FindLast(path, '.')
      case None => "."
      case Some(lastPeriod) =>
        if lastPeriod < lastBackslash || lastPeriod == |path| - 1 then "."
        else LowerString(path[lastPeriod + 1..])
  }

  /** The three outcomes of getFileExtension, each with its condition. */
  lemma GetFileExtensionCases(path: string)
    ensures (forall i :: 0 <= i < |path| ==> path[i] != '\\') <==> GetFileExtension(path) == ""
    ensures (exists i :: 0 <= i < |path| && path[i] == '\\') ==>
      (GetFileExtension(path) == "." <==>
         (forall i :: 0 <= i < |path| && path[i] == '.' ==> exists j :: i < j < |path| && path[j] == '\\')
         || path[|path| - 1] == '.')
    ensures GetFileExtension(path) != "" && GetFileExtension(path) != "." ==>
      exists p :: 0 <= p < |path| - 1 && path[p] == '.' && GetFileExtension(path) == LowerString(path[p + 1..])
        && (forall k :: p < k < |path| ==> path[k] != '.' && path[k] != '\\')
  {
    var ext := GetFileExtension(path);
    match FindLast(path, '\\')
    case None =>
    case Some(b) =>
      assert path[b] == '\\';
      match FindLast(path, '.')
      case None =>
      case Some(p) =>
        if p < b || p == |path| - 1 {
          if p < b {
            forall i | 0 <= i < |path| && path[i] == '.'
              ensures exists j :: i < j < |path| && path[j] == '\\'
            {
              assert i <= p;
            }
          }
        } else {
          assert |path[p + 1..]| > 0;
          assert path[b] == '\\' && !(exists j :: p < j < |path| && path[j] == '\\');
          assert path[|path| - 1] != '.';
        }
  }

  // ---------------------------------------------------------------------
  // updateComboHistory
  // ---------------------------------------------------------------------

  /** The list minus the first occurrence of x. */
  function RemoveFirst(items: seq<string>, x: string): (r: seq<string>)
    ensures x in items ==> |r| == |items| - 1
    ensures x !in items ==> r == items
    ensures forall y :: y in r ==> y in items
    ensures forall y :: y in items && y != x ==> y in r
  {
    if items == [] then []
    else if items[0] == x then items[1..]
    else [items[0]] + RemoveFirst(items[1..], x)
  }

  predicate NoDuplicates(items: seq<string>)
  {
    forall i, j :: 0 <= i < j < |items| ==> items[i] != items[j]
  }

  function Count(items: seq<string>, x: string): nat
  {
    if items == [] then 0 else (if items[0] == x then 1 else 0) + Count(items[1..], x)
  }

  /** A list without duplicates loses its only copy of x and keeps every other entry once. */
  lemma {:induction false} RemoveFirstNoDuplicates(items: seq<string>, x: string)
    requires NoDuplicates(items)
    ensures NoDuplicates(RemoveFirst(items, x)) && x !in RemoveFirst(items, x)
    decreases |items|
  {
    if items != [] {
      assert NoDuplicates(items[1..]) by {
        forall i, j | 0 <= i < j < |items[1..]| ensures items[1..][i] != items[1..][j] {
          assert items[1..][i] == items[i + 1] && items[1..][j] == items[j + 1];
        }
      }
      RemoveFirstNoDuplicates(items[1..], x);
      if items[0] != x {
        var r := RemoveFirst(items[1..], x);
        assert items[0] !in items[1..] by {
          forall k | 0 <= k < |items[1..]| ensures items[1..][k] != items[0] {
            assert items[1..][k] == items[k + 1];
          }
        }
        assert items[0] !in r;
        var whole := [items[0]] + r;
        forall i, j | 0 <= i < j < |whole| ensures whole[i] != whole[j] {
          if i > 0 { assert whole[i] == r[i - 1] && whole[j] == r[j - 1]; }
          else { assert whole[j] in r; }
        }
      } else {
        assert x !in items[1..] by {
          forall k | 0 <= k < |items[1..]| ensures items[1..][k] != x {
            assert items[1..][k] == items[k + 1];
          }
        }
      }
    }
  }

  lemma {:induction false} CountAbsent(items: seq<string>, x: string)
    requires x !in items
    ensures Count(items, x) == 0
    decreases |items|
  {
    if items != [] { CountAbsent(items[1..], x); }
  }

  lemma {:induction false} CountAppend(a: seq<string>, b: seq<string>, x: string)
    ensures Count(a + b, x) == Count(a, x) + Count(b, x)
    decreases |a|
  {
    if a == [] {
      assert a + b == b;
    } else {
      assert (a + b)[1..] == a[1..] + b;
      CountAppend(a[1..], b, x);
    }
  }

  /** The dialog's list of earlier entries, oldest first; the newest is shown at the top of the combo box. */
  class History {
    var items: seq<string>

    constructor ()
      ensures items == []
    {
      items := [];
    }

    /**
     * updateComboHistory: unless s is already the newest entry, an earlier
     * copy is removed and s becomes the newest entry.
     */
    method Promote(s: string)
      modifies this
      ensures old(items) != [] && old(items)[|old(items)| - 1] == s ==> items == old(items)
      ensures !(old(items) != [] && old(items)[|old(items)| - 1] == s) ==> items == RemoveFirst(old(items), s) + [s]
    {
      if items == [] || items[|items| - 1] != s {
        if items != [] {
          items := RemoveFirst(items, s);
        }
        items := items + [s];
      }
    }
  }

  /** Promoting keeps the history free of duplicates, and afterwards s is the newest entry and occurs exactly once. */
  lemma PromoteKeepsUnique(items: seq<string>, s: string)
    requires NoDuplicates(items)
    ensures var after := if items != [] && items[|items| - 1] == s then items else RemoveFirst(items, s) + [s];
      NoDuplicates(after) && after[|after| - 1] == s && Count(after, s) == 1
  {
    if items != [] && items[|items| - 1] == s {
      var k := |items| - 1;
      assert items == items[..k] + [s];
      assert s !in items[..k] by {
        forall i | 0 <= i < k ensures items[..k][i] != s { assert items[..k][i] == items[i]; }
      }
      CountAbsent(items[..k], s);
      CountAppend(items[..k], [s], s);
    } else {
      var r := RemoveFirst(items, s);
      RemoveFirstNoDuplicates(items, s);
      var after := r + [s];
      forall i, j | 0 <= i < j < |after| ensures after[i] != after[j] {
        if j == |after| - 1 { assert after[i] in r; } else { assert after[i] == r[i] && after[j] == r[j]; }
      }
      CountAbsent(r, s);
      CountAppend(r, [s], s);
    }
  }

  // ---------------------------------------------------------------------
  // RectangularSelection_Cell
  // ---------------------------------------------------------------------

  /**
   * One tab-separated cell of a row's text: [start, end) is the cell,
   * [left, right) the cell without its surrounding spaces, and
   * pastLeadingTabs the position after the indentation tabs that elastic
   * tabstops treat as part of the first cell.
   */
  datatype Cell = Cell(row: string, start: nat, left: nat, right: nat, end: nat, pastLeadingTabs: nat)

  predicate AllAre(s: string, lo: nat, hi: nat, c: char)
    requires lo <= hi <= |s|
  {
    forall k :: lo <= k < hi ==> s[k] == c
  }

  /**
   * The RectangularSelection_Cell constructor for the cell beginning at
   * start in a row whose text begins at offset; leadingTabsIndent is the
   * conjunction of the elastic-tabstops and leading-tabs-indent settings.
   * next is the start of the following cell, or None for npos.
   */
  method NewCell(row: string, offset: nat, start: nat, leadingTabsIndent: bool) returns (cell: Cell, next: Option<nat>)
    ensures cell.row == row
    ensures start >= |row| ==>
      cell == Cell(row, |row|, |row|, |row|, |row|, |row|) && next.None?
    ensures start < |row| ==>
      && cell.start == start
      && start <= cell.pastLeadingTabs <= cell.left <= cell.right <= cell.end <= |row|
      && AllAre(row, start, cell.pastLeadingTabs, '\t')
      && (if start == offset && leadingTabsIndent && AllAre(row, 0, start + 1, '\t')
          then cell.pastLeadingTabs == |row| || row[cell.pastLeadingTabs] != '\t'
          else cell.pastLeadingTabs == start)
      && (forall k :: cell.pastLeadingTabs <= k < cell.end ==> row[k] != '\t')
      && (cell.end == |row| || row[cell.end] == '\t')
      && next == (if cell.end == |row| then None else Some(cell.end + 1))
      && AllAre(row, cell.pastLeadingTabs, cell.left, ' ')
      && AllAre(row, cell.right, cell.end, ' ')
      && (cell.left == cell.right ==> cell.left == cell.end)
      && (cell.left < cell.right ==> row[cell.left] != ' ' && row[cell.right - 1] != ' ')
  {
    if start >= |row| {
      return Cell(row, |row|, |row|, |row|, |row|, |row|), None;
    }
    var pastLeadingTabs := start;
    if start == offset && leadingTabsIndent {
      var firstNonTab := FindNotFrom(row, '\t', 0);
      if firstNonTab.None? || firstNonTab.value > start {
        pastLeadingTabs := if firstNonTab.None? then |row| else firstNonTab.value;
      } else {
        assert !AllAre(row, 0, start + 1, '\t');
      }
    }
    assert AllAre(row, start, pastLeadingTabs, '\t');
    var end: nat;
    match FindFrom(row, '\t', pastLeadingTabs) {
      case None =>
        end := |row|;
        next := None;
      case Some(e) =>
        end := e;
        next := Some(e + 1);
    }
    assert forall k :: pastLeadingTabs <= k < end ==> row[k] != '\t';
    assert end == |row| || row[end] == '\t';
    var left, right := end, end;
    if end != pastLeadingTabs {
      var firstNonSpace := FindNotFrom(row, ' ', pastLeadingTabs);
      if firstNonSpace.Some? && firstNonSpace.value < end {
        left := firstNonSpace.value;
        var lastNonSpace := FindLastNotBefore(row, ' ', end);
        assert lastNonSpace.Some? by { assert row[left] != ' '; }
        right := lastNonSpace.value + 1;
        assert AllAre(row, pastLeadingTabs, left, ' ') && AllAre(row, right, end, ' ');
      } else {
        assert AllAre(row, pastLeadingTabs, end, ' ');
      }
    }
    cell := Cell(row, start, left, right, end, pastLeadingTabs);
  }

  /** The accessors of a cell. */
  function CellText(c: Cell): (r: string)
    requires c.start <= c.end <= |c.row|
    ensures |r| == c.end - c.start
  {
    c.row[c.start..c.end]
  }

  function CellTrim(c: Cell): (r: string)
    requires c.left <= c.right <= |c.row|
    ensures |r| == c.right - c.left
  {
    c.row[c.left..c.right]
  }

  predicate IsLastInRow(c: Cell)
  {
    c.end == |c.row|
  }

  function Terminator(c: Cell): string
  {
    if IsLastInRow(c) then "" else "\t"
  }

  /** Indentation width: the leading tabs at tabWidth each plus the leading spaces. */
  function Leading(c: Cell, tabWidth: nat): int
  {
    (c.pastLeadingTabs - c.start) * tabWidth + c.left - c.pastLeadingTabs
  }

  function Trailing(c: Cell): int
  {
    c.end - c.right
  }

  /**
   * For every cell the constructor builds, the text of the row from the
   * cell's start is the cell text followed by its terminator; the trimmed
   * text has no space at either end and sits inside the cell text with only
   * spaces (and leading tabs) around it.
   */
  lemma CellAccessors(row: string, offset: nat, start: nat, leadingTabsIndent: bool, cell: Cell, next: Option<nat>)
    requires start < |row|
    requires cell.row == row && cell.start == start
    requires start <= cell.pastLeadingTabs <= cell.left <= cell.right <= cell.end <= |row|
    requires (forall k :: cell.pastLeadingTabs <= k < cell.end ==> row[k] != '\t')
    requires cell.end == |row| || row[cell.end] == '\t'
    requires AllAre(row, start, cell.pastLeadingTabs, '\t')
    requires AllAre(row, cell.pastLeadingTabs, cell.left, ' ') && AllAre(row, cell.right, cell.end, ' ')
    requires cell.left < cell.right ==> row[cell.left] != ' ' && row[cell.right - 1] != ' '
    ensures row[start..cell.end] + Terminator(cell) == row[start..(if IsLastInRow(cell) then |row| else cell.end + 1)]
    ensures forall k :: 0 <= k < |CellText(cell)| ==> CellText(cell)[k] != '\t' || start + k < cell.pastLeadingTabs
    ensures |CellTrim(cell)| > 0 ==> CellTrim(cell)[0] != ' ' && CellTrim(cell)[|CellTrim(cell)| - 1] != ' '
    ensures Trailing(cell) >= 0 && Leading(cell, 0) >= 0
  {
    if !IsLastInRow(cell) {
      assert row[start..cell.end + 1] == row[start..cell.end] + [row[cell.end]];
    }
  }
}
