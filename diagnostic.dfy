// The error-trace ring of Diagnostic.h: a fixed array of 24 strings, an
// index n of the slot to overwrite next, and a display that reads the ring
// from the oldest entry to the newest.
module Diagnostic {

  const Depth: nat := 24

  /** Entries joined with a line feed before every entry but the first. */
  function JoinLines(lines: seq<string>): (r: string)
    requires |lines| > 0
    decreases |lines|
  {
    if |lines| == 1 then lines[0]
    else JoinLines(lines[..|lines| - 1]) + "\n" + lines[|lines| - 1]
  }

  /** Joining one more entry of a prefix appends a line feed and that entry. */
  lemma JoinLinesPrefix(lines: seq<string>, m: nat)
    requires 0 < m < |lines|
    ensures JoinLines(lines[..m + 1]) == JoinLines(lines[..m]) + "\n" + lines[m]
  {
    assert lines[..m + 1][..m] == lines[..m];
  }

  /** The array slot holding the entry of age k (0 = oldest) when n is the next slot to write. */
  function Slot(n: int, k: int): int
  {
    (n + k) % Depth
  }

  class Trace {
    var text: array<string>
    var n: int
    /** Every entry ever traced, preceded by the 24 empty strings the array starts with. */
    ghost var Log: seq<string>

    ghost predicate Valid()
      reads this, text
    {
      |Log| >= Depth && text.Length == Depth && 0 <= n < Depth &&
      forall k :: 0 <= k < Depth ==> text[Slot(n, k)] == Window()[k]
    }

    /** The 24 most recent entries, oldest first. */
    ghost function Window(): (w: seq<string>)
      reads this
      requires |Log| >= Depth
      ensures |w| == Depth
    {
      Log[|Log| - Depth..]
    }

    constructor ()
      ensures Valid() && fresh(text)
      ensures Log == seq(Depth, _ => "") && n == 0
    {
      text := new string[Depth](_ => "");
      n := 0;
      Log := seq(Depth, _ => "");
    }

    /** trace: store the entry in slot n and move n to the next slot, wrapping after 23. */
    method Record(next: string)
      requires Valid()
      modifies this, text
      ensures Valid() && text == old(text)
      ensures Log == old(Log) + [next]
      ensures text[old(n)] == next
      ensures n == (old(n) + 1) % Depth
      ensures forall k :: 0 <= k < Depth && k != old(n) ==> text[k] == old(text[k])
    {
      ghost var w0 := Window();
      ghost var n0 := n;
      text[n] := next;
      n := if n >= Depth - 1 then 0 else n + 1;
      Log := Log + [next];
      forall k | 0 <= k < Depth
        ensures text[Slot(n, k)] == Window()[k]
      {
        if k == Depth - 1 {
          assert Slot(n, k) == n0;
        } else {
          assert Slot(n, k) == Slot(n0, k + 1);
          assert Slot(n, k) != n0;
          assert Window()[k] == w0[k + 1];
        }
      }
    }

    /** display: the message shows the ring from the oldest entry to the newest. */
    method Display() returns (msg: string)
      requires Valid()
      ensures msg == JoinLines(Window())
    {
      ghost var w := Window();
      assert text[n] == w[0] by { assert Slot(n, 0) == n; }
      msg := text[n];
      assert w[..1] == [w[0]];
      var i := n + 1;
      while i < Depth
        invariant n + 1 <= i <= Depth
        invariant msg == JoinLines(w[..i - n])
      {
        assert text[i] == w[i - n] by { assert Slot(n, i - n) == i; }
        JoinLinesPrefix(w, i - n);
        msg := msg + "\n" + text[i];
        i := i + 1;
      }
      var j := 0;
      while j < n
        invariant 0 <= j <= n
        invariant msg == JoinLines(w[..Depth - n + j])
      {
        assert text[j] == w[Depth - n + j] by { assert Slot(n, Depth - n + j) == j; }
        JoinLinesPrefix(w, Depth - n + j);
        msg := msg + "\n" + text[j];
        j := j + 1;
      }
      assert w[..Depth] == w;
    }
  }
}
