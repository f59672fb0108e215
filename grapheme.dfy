/**
 * Grapheme cluster segmentation for the \X escape (RegularExpressionTS.h),
 * after section 3.1.1 of Unicode Standard Annex #29.
 *
 * The matcher walks the code points that RegularExpressionU's document
 * iterator yields; here they are the sequence cs and iterator positions
 * are indices into it.  The property tables (Grapheme_Cluster_Break,
 * Indic_Conjunct_Break, Extended_Pictographic) are generated data and are
 * parameters.
 */
module Grapheme {
  import opened UnicodeLookup

  datatype GraphBreak = Other | CR | LF | Control | Extend | ZWJ | RegionalIndicator | Prepend | SpacingMark | L | V | T | LV | LVT

  datatype IndicBreak = IndicNone | Consonant | IndicExtend | Linker

  /**
   * unicodeGCB, unicodeICB and unicodeExtPict, with
   * unicode_first_GraphBreak_complex (0x300 in the generated header).
   */
  datatype Tables = Tables(gcb: Char32 -> GraphBreak, icb: Char32 -> IndicBreak, extPict: Char32 -> bool, firstComplex: Char32)

  datatype PairClusters = Yes | No | Maybe

  /**
   * Facts about the Unicode data that the shortcuts of the code rely on.
   * CR and LF come before the first complex code point, and below it there
   * are only Other, CR, LF and Control, with no Indic conjunct property.
   */
  predicate FastPathSound(t: Tables)
  {
    0x0D < t.firstComplex
    && forall c: Char32 :: c < t.firstComplex ==> t.gcb(c) in {Other, CR, LF, Control} && t.icb(c) == IndicNone
  }

  /** CR, LF and ZWJ are each one code point. */
  predicate SingleCodePoints(t: Tables)
  {
    forall c: Char32 :: (t.gcb(c) == CR <==> c == 0x0D) && (t.gcb(c) == LF <==> c == 0x0A) && (t.gcb(c) == ZWJ <==> c == 0x200D)
  }

  /** Pictographs are not regional indicators, extenders, joiners or consonants. */
  predicate PictographsPlain(t: Tables)
  {
    forall c: Char32 :: t.extPict(c) ==> t.gcb(c) !in {RegionalIndicator, Extend, ZWJ} && t.icb(c) != Consonant
  }

  /** Consonants are not regional indicators. */
  predicate ConsonantsPlain(t: Tables)
  {
    forall c: Char32 :: t.icb(c) == Consonant ==> t.gcb(c) != RegionalIndicator
  }

  predicate Consistent(t: Tables)
  {
    FastPathSound(t) && SingleCodePoints(t) && PictographsPlain(t) && ConsonantsPlain(t)
  }

  predicate IsControl(g: GraphBreak) { g == CR || g == LF || g == Control }

  /** The Hangul syllable sequences of rules GB6, GB7 and GB8. */
  predicate Hangul(g1: GraphBreak, g2: GraphBreak)
  {
    (g1 == L && (g2 == L || g2 == V || g2 == LV || g2 == LVT))
    || ((g1 == LV || g1 == V) && (g2 == V || g2 == T))
    || ((g1 == LVT || g1 == T) && g2 == T)
  }

  /** pairCluster: whether c1 c2 stay in one cluster, by the properties of the two alone where they suffice. */
  function PairCluster(t: Tables, c1: Char32, c2: Char32): (r: PairClusters)
  {
    if c1 < t.firstComplex && c2 < t.firstComplex then (if c1 == 0x0D && c2 == 0x0A then Yes else No)
    else
      var g1, g2 := t.gcb(c1), t.gcb(c2);
      if IsControl(g1) then No
      else if IsControl(g2) then No
      else if Hangul(g1, g2) then Yes
      else if g2 == Extend || g2 == ZWJ then Yes
      else if g1 == Prepend || g2 == SpacingMark then Yes
      else if g1 == RegionalIndicator && g2 == RegionalIndicator then Maybe
      else if g1 == ZWJ && t.extPict(c2) then Maybe
      else if (t.icb(c1) == IndicExtend || t.icb(c1) == Linker) && t.icb(c2) == Consonant then Maybe
      else No
  }

  /** The verdicts pairCluster gives from the properties of the pair. */
  lemma PairClusterRules(t: Tables, c1: Char32, c2: Char32)
    ensures c1 < t.firstComplex && c2 < t.firstComplex ==> (PairCluster(t, c1, c2) == Yes <==> c1 == 0x0D && c2 == 0x0A)
    ensures c1 < t.firstComplex && c2 < t.firstComplex ==> PairCluster(t, c1, c2) != Maybe
    ensures (c1 >= t.firstComplex || c2 >= t.firstComplex) ==>
      (IsControl(t.gcb(c1)) || IsControl(t.gcb(c2)) ==> PairCluster(t, c1, c2) == No)
    ensures (c1 >= t.firstComplex || c2 >= t.firstComplex) && !IsControl(t.gcb(c1)) && !IsControl(t.gcb(c2)) ==>
      (Hangul(t.gcb(c1), t.gcb(c2)) || t.gcb(c2) in {Extend, ZWJ, SpacingMark} || t.gcb(c1) == Prepend ==> PairCluster(t, c1, c2) == Yes)
    ensures PairCluster(t, c1, c2) == Maybe ==>
      (t.gcb(c1) == RegionalIndicator && t.gcb(c2) == RegionalIndicator)
      || (t.gcb(c1) == ZWJ && t.extPict(c2))
      || ((t.icb(c1) == IndicExtend || t.icb(c1) == Linker) && t.icb(c2) == Consonant)
  {
  }

  // ----- The backward scans of multipleCluster -----

  /** The number of regional indicators directly before position p, back to the backstop. */
  function RegionalRun(t: Tables, cs: seq<Char32>, backstop: nat, p: nat): (n: nat)
    requires backstop <= p <= |cs|
    ensures n <= p - backstop
    decreases p
  {
    if p == backstop || t.gcb(cs[p - 1]) != RegionalIndicator then 0
    else 1 + RegionalRun(t, cs, backstop, p - 1)
  }

  /** The run counted is exactly the maximal run of regional indicators before p. */
  lemma {:induction false} RegionalRunMeaning(t: Tables, cs: seq<Char32>, backstop: nat, p: nat)
    requires backstop <= p <= |cs|
    ensures forall k :: p - RegionalRun(t, cs, backstop, p) <= k < p ==> t.gcb(cs[k]) == RegionalIndicator
    ensures p - RegionalRun(t, cs, backstop, p) == backstop
         || t.gcb(cs[p - RegionalRun(t, cs, backstop, p) - 1]) != RegionalIndicator
    decreases p
  {
    if p > backstop && t.gcb(cs[p - 1]) == RegionalIndicator {
      RegionalRunMeaning(t, cs, backstop, p - 1);
    }
  }

  /**
   * The pictograph scan, from the joiner at z: back over Extend code points
   * to the first other one, or to the backstop, and whether that one is a
   * pictograph.
   */
  function PictScan(t: Tables, cs: seq<Char32>, backstop: nat, z: nat): bool
    requires backstop <= z < |cs|
    decreases z
  {
    if z == backstop then t.extPict(cs[z])
    else if t.gcb(cs[z - 1]) == Extend then PictScan(t, cs, backstop, z - 1)
    else t.extPict(cs[z - 1])
  }

  /** Every code point in [lo, hi) is an Extend. */
  predicate AllExtend(t: Tables, cs: seq<Char32>, lo: nat, hi: nat)
    requires hi <= |cs|
  {
    forall k :: lo <= k < hi ==> t.gcb(cs[k]) == Extend
  }

  /** A pictograph at j, then only Extend code points up to z. */
  predicate PictographAt(t: Tables, cs: seq<Char32>, j: nat, z: nat)
    requires j < z <= |cs|
  {
    t.extPict(cs[j]) && AllExtend(t, cs, j + 1, z)
  }

  /** Rule GB11's left context: a pictograph, then only Extend code points up to the joiner at z. */
  predicate PictographBefore(t: Tables, cs: seq<Char32>, sot: nat, z: nat)
    requires sot <= z <= |cs|
  {
    exists j :: sot <= j < z && PictographAt(t, cs, j, z)
  }

  /** The scan finds exactly rule GB11's context, when the code point it starts from is a joiner or an extender. */
  lemma {:induction false} PictScanMeaning(t: Tables, cs: seq<Char32>, backstop: nat, z: nat)
    requires PictographsPlain(t) && backstop <= z < |cs|
    requires t.gcb(cs[z]) == ZWJ || t.gcb(cs[z]) == Extend
    ensures PictScan(t, cs, backstop, z) <==> PictographBefore(t, cs, backstop, z)
    decreases z
  {
    if z == backstop {
      assert !t.extPict(cs[z]);
    } else if t.gcb(cs[z - 1]) == Extend {
      PictScanMeaning(t, cs, backstop, z - 1);
      PictographStep(t, cs, backstop, z);
    } else {
      if t.extPict(cs[z - 1]) {
        assert PictographAt(t, cs, z - 1, z);
      }
      forall j | backstop <= j < z - 1
        ensures !PictographAt(t, cs, j, z)
      {
        assert t.gcb(cs[z - 1]) != Extend;
      }
    }
  }

  /** Past an Extend at z - 1, the context before z is the context before z - 1. */
  lemma PictographStep(t: Tables, cs: seq<Char32>, sot: nat, z: nat)
    requires sot < z <= |cs| && t.gcb(cs[z - 1]) == Extend && !t.extPict(cs[z - 1])
    ensures PictographBefore(t, cs, sot, z) <==> PictographBefore(t, cs, sot, z - 1)
  {
    if PictographBefore(t, cs, sot, z - 1) {
      var j :| sot <= j < z - 1 && PictographAt(t, cs, j, z - 1);
      assert PictographAt(t, cs, j, z);
    }
    if PictographBefore(t, cs, sot, z) {
      var j :| sot <= j < z && PictographAt(t, cs, j, z);
      assert PictographAt(t, cs, j, z - 1);
    }
  }

  /**
   * The conjunct scan back from p: Extend is skipped, Linker is noted, and
   * the scan succeeds at a Consonant when a Linker has been seen.
   */
  function LinkScan(t: Tables, cs: seq<Char32>, backstop: nat, p: nat, seenLinker: bool): bool
    requires backstop <= p <= |cs|
    decreases p
  {
    if p == backstop then false
    else match t.icb(cs[p - 1])
      case Consonant => seenLinker
      case IndicExtend => LinkScan(t, cs, backstop, p - 1, seenLinker)
      case Linker => LinkScan(t, cs, backstop, p - 1, true)
      case IndicNone => false
  }

  predicate Joiner(b: IndicBreak) { b == IndicExtend || b == Linker }

  /** Every code point in [lo, hi) is an Indic Extend or Linker. */
  predicate AllJoiners(t: Tables, cs: seq<Char32>, lo: nat, hi: nat)
    requires hi <= |cs|
  {
    forall k :: lo <= k < hi ==> Joiner(t.icb(cs[k]))
  }

  /** Some code point in [lo, hi) is an Indic Linker. */
  predicate HasLinker(t: Tables, cs: seq<Char32>, lo: nat, hi: nat)
    requires hi <= |cs|
  {
    exists k :: lo <= k < hi && t.icb(cs[k]) == Linker
  }

  /** A Consonant at j, then only Extend and Linker up to p, with a Linker among them (or one seen already). */
  predicate ConjunctAt(t: Tables, cs: seq<Char32>, j: nat, p: nat, seenLinker: bool)
    requires j < p <= |cs|
  {
    t.icb(cs[j]) == Consonant && AllJoiners(t, cs, j + 1, p) && (seenLinker || HasLinker(t, cs, j + 1, p))
  }

  /** Rule GB9c's left context at p, for a scan that may have seen a Linker already. */
  predicate ConjunctFrom(t: Tables, cs: seq<Char32>, sot: nat, p: nat, seenLinker: bool)
    requires sot <= p <= |cs|
  {
    exists j :: sot <= j < p && ConjunctAt(t, cs, j, p, seenLinker)
  }

  /** Rule GB9c's left context before position i. */
  predicate ConjunctBefore(t: Tables, cs: seq<Char32>, sot: nat, i: nat)
    requires sot <= i <= |cs|
  {
    ConjunctFrom(t, cs, sot, i, false)
  }

  /** Stepping back over an Extend or a Linker keeps the context at every earlier consonant. */
  lemma ConjunctAtStep(t: Tables, cs: seq<Char32>, j: nat, p: nat, seenLinker: bool)
    requires j < p - 1 && p <= |cs| && Joiner(t.icb(cs[p - 1]))
    ensures ConjunctAt(t, cs, j, p, seenLinker)
        <==> ConjunctAt(t, cs, j, p - 1, seenLinker || t.icb(cs[p - 1]) == Linker)
  {
    if HasLinker(t, cs, j + 1, p) && t.icb(cs[p - 1]) != Linker {
      var k :| j + 1 <= k < p && t.icb(cs[k]) == Linker;
      assert HasLinker(t, cs, j + 1, p - 1);
    }
    if HasLinker(t, cs, j + 1, p - 1) {
      var k :| j + 1 <= k < p - 1 && t.icb(cs[k]) == Linker;
      assert HasLinker(t, cs, j + 1, p);
    }
    if t.icb(cs[p - 1]) == Linker {
      assert HasLinker(t, cs, j + 1, p);
    }
  }

  /** The scan finds exactly rule GB9c's context. */
  lemma {:induction false} LinkScanMeaning(t: Tables, cs: seq<Char32>, backstop: nat, p: nat, seenLinker: bool)
    requires backstop <= p <= |cs|
    ensures LinkScan(t, cs, backstop, p, seenLinker) <==> ConjunctFrom(t, cs, backstop, p, seenLinker)
    decreases p, 1
  {
    if p == backstop {
    } else {
      var b := t.icb(cs[p - 1]);
      if b == Consonant {
        if seenLinker {
          assert ConjunctAt(t, cs, p - 1, p, seenLinker);
        }
        if ConjunctFrom(t, cs, backstop, p, seenLinker) {
          var j :| backstop <= j < p && ConjunctAt(t, cs, j, p, seenLinker);
          assert j < p - 1 ==> Joiner(t.icb(cs[p - 1]));
        }
      } else if b == IndicNone {
        assert !Joiner(t.icb(cs[p - 1]));
      } else {
        LinkScanFrom(t, cs, backstop, p, seenLinker);
      }
    }
  }

  /** LinkScanMeaning where the scan steps back over an Extend or a Linker. */
  lemma {:induction false} LinkScanFrom(t: Tables, cs: seq<Char32>, backstop: nat, p: nat, seenLinker: bool)
    requires backstop < p <= |cs| && Joiner(t.icb(cs[p - 1]))
    ensures LinkScan(t, cs, backstop, p, seenLinker) <==> ConjunctFrom(t, cs, backstop, p, seenLinker)
    decreases p, 0
  {
    var seen := seenLinker || t.icb(cs[p - 1]) == Linker;
    assert LinkScan(t, cs, backstop, p, seenLinker) == LinkScan(t, cs, backstop, p - 1, seen);
    LinkScanMeaning(t, cs, backstop, p - 1, seen);
    if ConjunctFrom(t, cs, backstop, p - 1, seen) {
      var j :| backstop <= j < p - 1 && ConjunctAt(t, cs, j, p - 1, seen);
      ConjunctAtStep(t, cs, j, p, seenLinker);
    }
    if ConjunctFrom(t, cs, backstop, p, seenLinker) {
      var j :| backstop <= j < p && ConjunctAt(t, cs, j, p, seenLinker);
      assert j != p - 1;
      ConjunctAtStep(t, cs, j, p, seenLinker);
    }
  }

  /** multipleCluster: for a pair that depends on context, whether the code point at position joins the one before it. */
  function MultipleClusterOf(t: Tables, cs: seq<Char32>, position: nat, backstop: nat): bool
    requires backstop <= position < |cs|
  {
    var c := cs[position];
    if t.gcb(c) == RegionalIndicator then RegionalRun(t, cs, backstop, position) % 2 == 1
    else if t.extPict(c) then position != backstop && cs[position - 1] == 0x200D && PictScan(t, cs, backstop, position - 1)
    else if t.icb(c) == Consonant then LinkScan(t, cs, backstop, position, false)
    else false
  }

  /** multipleCluster */
  method MultipleCluster(t: Tables, cs: seq<Char32>, position: nat, backstop: nat) returns (r: bool)
    requires backstop <= position < |cs|
    ensures r == MultipleClusterOf(t, cs, position, backstop)
  {
    var c := cs[position];

    if t.gcb(c) == RegionalIndicator {
      var p := position;
      var count := 0;
      while p != backstop
        invariant backstop <= p <= position
        invariant count + RegionalRun(t, cs, backstop, p) == RegionalRun(t, cs, backstop, position)
        decreases p
      {
        p := p - 1;
        if t.gcb(cs[p]) != RegionalIndicator {
          assert RegionalRun(t, cs, backstop, p + 1) == 0;
          break;
        }
        count := count + 1;
      }
      return count % 2 == 1;
    }

    if t.extPict(c) {
      var p := position;
      if p == backstop || cs[p - 1] != 0x200D {
        return false;
      }
      p := p - 1;
      while p != backstop
        invariant backstop <= p < position
        invariant PictScan(t, cs, backstop, p) == PictScan(t, cs, backstop, position - 1)
        decreases p
      {
        p := p - 1;
        if t.gcb(cs[p]) != Extend {
          assert PictScan(t, cs, backstop, p + 1) == t.extPict(cs[p]);
          return t.extPict(cs[p]);
        }
      }
      return t.extPict(cs[p]);
    }

    if t.icb(c) == Consonant {
      var foundLinker := false;
      var p := position;
      while p != backstop
        invariant backstop <= p <= position
        invariant LinkScan(t, cs, backstop, p, foundLinker) == LinkScan(t, cs, backstop, position, false)
        decreases p
      {
        p := p - 1;
        match t.icb(cs[p])
        case Consonant =>
          return foundLinker;
        case IndicExtend =>
        case Linker =>
          foundLinker := true;
        case IndicNone =>
          return false;
      }
      return false;
    }

    return false;
  }

  // ----- Section 3.1.1 of UAX #29 -----

  /**
   * Whether the grapheme cluster rules put a boundary between cs[i - 1] and
   * cs[i], for a text that starts at sot: rules GB3 to GB13 in their order
   * of precedence, and GB999 otherwise.
   */
  predicate ReferenceBreak(t: Tables, cs: seq<Char32>, sot: nat, i: nat)
    requires sot < i < |cs|
  {
    var c1, c2 := cs[i - 1], cs[i];
    var g1, g2 := t.gcb(c1), t.gcb(c2);
    if g1 == CR && g2 == LF then false                                        // GB3
    else if IsControl(g1) then true                                           // GB4
    else if IsControl(g2) then true                                           // GB5
    else if Hangul(g1, g2) then false                                         // GB6, GB7, GB8
    else if g2 == Extend || g2 == ZWJ then false                              // GB9
    else if g2 == SpacingMark then false                                      // GB9a
    else if g1 == Prepend then false                                          // GB9b
    else if t.icb(c2) == Consonant && ConjunctBefore(t, cs, sot, i) then false                // GB9c
    else if g1 == ZWJ && t.extPict(c2) && PictographBefore(t, cs, sot, i - 1) then false      // GB11
    else if g1 == RegionalIndicator && g2 == RegionalIndicator
      && RegionalRun(t, cs, sot, i) % 2 == 1 then false                       // GB12, GB13
    else true                                                                 // GB999
  }

  /**
   * With consistent tables, pairCluster and multipleCluster together keep
   * two code points in one cluster exactly when the rules of UAX #29 put no
   * boundary between them, the backstop standing for the start of the text.
   */
  lemma JoinsIsReference(t: Tables, cs: seq<Char32>, q: nat, backstop: nat)
    requires Consistent(t) && backstop < q < |cs|
    ensures Joins(t, cs, q, backstop) <==> !ReferenceBreak(t, cs, backstop, q)
  {
    var c1, c2 := cs[q - 1], cs[q];
    var g1, g2 := t.gcb(c1), t.gcb(c2);
    if c1 < t.firstComplex && c2 < t.firstComplex {
      assert t.icb(c2) == IndicNone;
      assert g1 != ZWJ && g1 != RegionalIndicator;
    } else if PairCluster(t, c1, c2) == Maybe {
      if g1 == RegionalIndicator && g2 == RegionalIndicator {
        assert t.icb(c2) != Consonant;
      } else if g1 == ZWJ && t.extPict(c2) {
        assert c1 == 0x200D && t.icb(c2) != Consonant && g2 != RegionalIndicator;
        PictScanMeaning(t, cs, backstop, q - 1);
      } else {
        assert t.icb(c2) == Consonant && !t.extPict(c2) && g2 != RegionalIndicator;
        LinkScanMeaning(t, cs, backstop, q, false);
      }
    } else if PairCluster(t, c1, c2) == No {
      if t.icb(c2) == Consonant && ConjunctBefore(t, cs, backstop, q) {
        var j :| backstop <= j < q && ConjunctAt(t, cs, j, q, false);
        assert j != q - 1;
        assert Joiner(t.icb(cs[q - 1]));
      }
      assert ReferenceBreak(t, cs, backstop, q);
    } else {
      assert !ReferenceBreak(t, cs, backstop, q);
    }
  }

  // ----- match_combining -----

  /** The code point at q stays in the cluster of the one before it. */
  predicate Joins(t: Tables, cs: seq<Char32>, q: nat, backstop: nat)
    requires backstop < q < |cs|
  {
    var pc := PairCluster(t, cs[q - 1], cs[q]);
    pc == Yes || (pc == Maybe && MultipleClusterOf(t, cs, q, backstop))
  }

  /** Where the cluster that continues through q ends: the first position from q on that breaks, or last. */
  function ClusterEnd(t: Tables, cs: seq<Char32>, q: nat, last: nat, backstop: nat): (r: nat)
    requires backstop < q <= last <= |cs|
    ensures q <= r <= last
    decreases last - q
  {
    if q == last || !Joins(t, cs, q, backstop) then q else ClusterEnd(t, cs, q + 1, last, backstop)
  }

  /** Every code point from q up to the cluster end joins its predecessor, and the cluster end does not. */
  lemma {:induction false} ClusterEndMeaning(t: Tables, cs: seq<Char32>, q: nat, last: nat, backstop: nat)
    requires backstop < q <= last <= |cs|
    ensures forall k :: q <= k < ClusterEnd(t, cs, q, last, backstop) ==> Joins(t, cs, k, backstop)
    ensures ClusterEnd(t, cs, q, last, backstop) == last || !Joins(t, cs, ClusterEnd(t, cs, q, last, backstop), backstop)
    decreases last - q
  {
    if q < last {
      var joins := Joins(t, cs, q, backstop);
      ClusterEndStep(t, cs, q, last, backstop, joins);
      if joins {
        ClusterEndMeaning(t, cs, q + 1, last, backstop);
      }
    }
  }

  /** One step of ClusterEnd, for a pair test already made. */
  lemma ClusterEndStep(t: Tables, cs: seq<Char32>, q: nat, last: nat, backstop: nat, joins: bool)
    requires backstop < q < last <= |cs| && joins == Joins(t, cs, q, backstop)
    ensures !joins ==> ClusterEnd(t, cs, q, last, backstop) == q
    ensures joins ==> ClusterEnd(t, cs, q, last, backstop) == ClusterEnd(t, cs, q + 1, last, backstop)
  {
  }

  /** With consistent tables, the cluster end is the first boundary UAX #29 gives from q on. */
  lemma ClusterEndIsReference(t: Tables, cs: seq<Char32>, q: nat, last: nat, backstop: nat)
    requires Consistent(t) && backstop < q <= last <= |cs|
    ensures forall k :: q <= k < ClusterEnd(t, cs, q, last, backstop) ==> !ReferenceBreak(t, cs, backstop, k)
    ensures ClusterEnd(t, cs, q, last, backstop) == last || ReferenceBreak(t, cs, backstop, ClusterEnd(t, cs, q, last, backstop))
  {
    var r := ClusterEnd(t, cs, q, last, backstop);
    ClusterEndMeaning(t, cs, q, last, backstop);
    forall k | q <= k < r
      ensures !ReferenceBreak(t, cs, backstop, k)
    {
      JoinsIsReference(t, cs, k, backstop);
    }
    if r < last {
      JoinsIsReference(t, cs, r, backstop);
    }
  }

  /**
   * The pair test match_combining makes at q, before and inside its loop:
   * pairCluster, and multipleCluster where the pair needs context.
   */
  method Continues(t: Tables, cs: seq<Char32>, q: nat, backstop: nat) returns (joins: bool)
    requires backstop < q < |cs|
    ensures joins == Joins(t, cs, q, backstop)
  {
    var pc := PairCluster(t, cs[q - 1], cs[q]);
    if pc == Yes {
      return true;
    }
    if pc == No {
      return false;
    }
    joins := MultipleCluster(t, cs, q, backstop);
  }

  /**
   * match_combining: at the start of a cluster, match the whole cluster and
   * return the position after it; inside a cluster, or at the end, fail.
   */
  method MatchCombining(t: Tables, cs: seq<Char32>, position: nat, last: nat, backstop: nat) returns (matched: bool, next: nat)
    requires backstop <= position <= last <= |cs|
    ensures matched <==> position < last && !(backstop < position && Joins(t, cs, position, backstop))
    ensures matched ==> next == ClusterEnd(t, cs, position + 1, last, backstop)
    ensures !matched ==> next == position
  {
    if position == last {
      return false, position;
    }
    if position != backstop {
      var inside := Continues(t, cs, position, backstop);
      if inside {
        return false, position;
      }
    }
    next := position + 1;
    while next != last
      invariant position < next <= last
      invariant ClusterEnd(t, cs, next, last, backstop) == ClusterEnd(t, cs, position + 1, last, backstop)
      decreases last - next
    {
      var joins := Continues(t, cs, next, backstop);
      ClusterEndStep(t, cs, next, last, backstop, joins);
      if !joins {
        break;
      }
      next := next + 1;
    }
    matched := true;
  }
}
