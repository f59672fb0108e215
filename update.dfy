// Update.cpp: turning a release tag such as "v1.2.3.4-beta" into one
// comparable number, choosing the newest and the newest stable release from
// the release list the update check downloads, and deciding whether the
// "Update Available" menu text is due.
module Update {
  import opened Common

  // ---------------------------------------------------------------------
  // parseVersionTag: the whole tag must match
  //   v(\d+)(?:\.(\d+)(?:\.(\d+)(?:\.(\d+))?)?)?(?:-(.*))?
  // ---------------------------------------------------------------------

  /**
   * The matcher's position in the pattern: before the 'v', expecting the
   * first digit of a part, inside a part (whose value so far is value), in
   * the "-..." suffix, or failed.
   */
  datatype MatchState =
    | Start
    | ExpectDigit(parts: seq<nat>)
    | InPart(parts: seq<nat>, value: nat)
    | InSuffix(parts: seq<nat>)
    | Failed

  function DigitValue(c: char): nat
    requires IsDigit(c)
  {
    c as int - '0' as int
  }

  /** One character of the tag. At most four parts: a '.' after the fourth cannot match. */
  function Step(st: MatchState, c: char): MatchState
  {
    match st
    case Start => if c == 'v' then ExpectDigit([]) else Failed
    case ExpectDigit(ps) => if IsDigit(c) then InPart(ps, DigitValue(c)) else Failed
    case InPart(ps, v) =>
      if IsDigit(c) then InPart(ps, v * 10 + DigitValue(c))
      else if c == '.' && |ps| + 1 < 4 then ExpectDigit(ps + [v])
      else if c == '-' then InSuffix(ps + [v])
      else Failed
    case InSuffix(ps) => if c == '\n' || c == '\r' then Failed else InSuffix(ps)
    case Failed => Failed
  }

  /** The state after reading all of s. */
  function Run(st: MatchState, s: string): MatchState
    decreases |s|
  {
    if s == [] then st else Step(Run(st, s[..|s| - 1]), s[|s| - 1])
  }

  /** A whole-string match ends inside a part or inside the suffix. */
  function Accepted(st: MatchState): Option<seq<nat>>
  {
    match st
    case InPart(ps, v) => Some(ps + [v])
    case InSuffix(ps) => Some(ps)
    case _ => None
  }

  /** The one to four numbers of a tag that matches, or None. */
  function MatchVersionTag(tag: string): Option<seq<nat>>
  {
    Accepted(Run(Start, tag))
  }

  /** Part i of a version, 0 when the tag leaves it out. */
  function Part(parts: seq<nat>, i: nat): nat
  {
    if i < |parts| then parts[i] else 0
  }

  /** parseVersionTag: two decimal digits for each part after the first; 0 for a tag that does not match. */
  function ParseVersionTag(tag: string): nat
  {
    match MatchVersionTag(tag)
    case None => 0
    case Some(parts) => ((Part(parts, 0) * 100 + Part(parts, 1)) * 100 + Part(parts, 2)) * 100 + Part(parts, 3)
  }

  /** Reading a concatenation reads the first piece, then the second. */
  lemma {:induction false} RunConcat(st: MatchState, a: string, b: string)
    ensures Run(st, a + b) == Run(Run(st, a), b)
    decreases |b|
  {
    if b != [] {
      var b' := b[..|b| - 1];
      assert (a + b)[..|a + b| - 1] == a + b';
      assert (a + b)[|a + b| - 1] == b[|b| - 1];
      RunConcat(st, a, b');
    } else {
      assert a + b == a;
    }
  }

  /** Failure is final. */
  lemma {:induction false} RunFailed(s: string)
    ensures Run(Failed, s) == Failed
    decreases |s|
  {
    if s != [] { RunFailed(s[..|s| - 1]); }
  }

  /** Every parts list a state holds has at most four numbers, and a part being read is at most the fourth. */
  ghost predicate Bounded(st: MatchState)
  {
    match st
    case Start => true
    case ExpectDigit(ps) => |ps| < 4
    case InPart(ps, _) => |ps| < 4
    case InSuffix(ps) => 1 <= |ps| <= 4
    case Failed => true
  }

  lemma {:induction false} RunBounded(s: string)
    ensures Bounded(Run(Start, s))
    decreases |s|
  {
    if s != [] { RunBounded(s[..|s| - 1]); }
  }

  /** A tag that matches has one to four numbers; one that does not start with 'v' never matches. */
  lemma MatchVersionTagShape(tag: string)
    ensures MatchVersionTag(tag).Some? ==> 1 <= |MatchVersionTag(tag).value| <= 4
    ensures (tag == [] || tag[0] != 'v') ==> MatchVersionTag(tag).None? && ParseVersionTag(tag) == 0
  {
    RunBounded(tag);
    if tag != [] && tag[0] != 'v' {
      assert tag == [tag[0]] + tag[1..];
      RunConcat(Start, [tag[0]], tag[1..]);
      assert Run(Start, [tag[0]]) == Failed by { assert [tag[0]][..0] == []; }
      RunFailed(tag[1..]);
    }
  }

  // The partner of parseVersionTag: writing a tag from its numbers.

  function DigitChar(d: nat): char
    requires d < 10
  {
    ('0' as int + d) as char
  }

  /** A number in decimal, without leading zeros. */
  function DecimalString(n: nat): string
    decreases n
  {
    if n < 10 then [DigitChar(n)] else DecimalString(n / 10) + [DigitChar(n % 10)]
  }

  /** The parts joined with '.'. */
  function FormatParts(parts: seq<nat>): string
    requires |parts| > 0
  {
    DecimalString(parts[0]) + (if |parts| > 1 then "." + FormatParts(parts[1..]) else "")
  }

  function SuffixText(suffix: Option<string>): string
  {
    match suffix
    case None => ""
    case Some(t) => "-" + t
  }

  /** The tag "v" + parts joined with '.', then "-" + suffix when a suffix is given. */
  function FormatVersionTag(parts: seq<nat>, suffix: Option<string>): string
    requires |parts| > 0
  {
    "v" + FormatParts(parts) + SuffixText(suffix)
  }

  /** Reading a written number from the start of a part yields the number. */
  lemma {:induction false} RunDecimal(ps: seq<nat>, n: nat)
    ensures Run(ExpectDigit(ps), DecimalString(n)) == InPart(ps, n)
    decreases n
  {
    if n >= 10 {
      RunDecimal(ps, n / 10);
      var s := DecimalString(n);
      assert s[..|s| - 1] == DecimalString(n / 10);
    }
  }

  /** Reading a written parts list from the start of a part. */
  lemma {:induction false} RunParts(ps: seq<nat>, parts: seq<nat>)
    requires |parts| > 0 && |ps| + |parts| <= 4
    ensures Run(ExpectDigit(ps), FormatParts(parts)) == InPart(ps + parts[..|parts| - 1], parts[|parts| - 1])
    decreases |parts|
  {
    RunDecimal(ps, parts[0]);
    if |parts| > 1 {
      var head := DecimalString(parts[0]) + ".";
      assert FormatParts(parts) == head + FormatParts(parts[1..]);
      RunConcat(ExpectDigit(ps), DecimalString(parts[0]), ".");
      assert Run(InPart(ps, parts[0]), ".") == ExpectDigit(ps + [parts[0]]) by {
        assert "."[..0] == [];
      }
      RunConcat(ExpectDigit(ps), head, FormatParts(parts[1..]));
      RunParts(ps + [parts[0]], parts[1..]);
      assert ps + [parts[0]] + parts[1..][..|parts[1..]| - 1] == ps + parts[..|parts| - 1];
    } else {
      assert FormatParts(parts) == DecimalString(parts[0]);
    }
  }

  /** The suffix text keeps the matcher in the suffix state. */
  lemma {:induction false} RunSuffix(ps: seq<nat>, t: string)
    requires NoLineBreak(t)
    ensures Run(InSuffix(ps), t) == InSuffix(ps)
    decreases |t|
  {
    if t != [] { RunSuffix(ps, t[..|t| - 1]); }
  }

  /** parseVersionTag("vA.B.C.D-suffix") == ((A*100+B)*100+C)*100+D, with missing parts read as 0. */
  lemma VersionTagRoundTrip(parts: seq<nat>, suffix: Option<string>)
    requires 1 <= |parts| <= 4
    requires suffix.Some? ==> NoLineBreak(suffix.value)
    ensures MatchVersionTag(FormatVersionTag(parts, suffix)) == Some(parts)
    ensures ParseVersionTag(FormatVersionTag(parts, suffix))
         == ((Part(parts, 0) * 100 + Part(parts, 1)) * 100 + Part(parts, 2)) * 100 + Part(parts, 3)
  {
    var body := FormatParts(parts);
    assert Run(Start, "v") == ExpectDigit([]) by { assert "v"[..0] == []; }
    RunConcat(Start, "v", body);
    RunParts([], parts);
    var last := InPart(parts[..|parts| - 1], parts[|parts| - 1]);
    assert parts[..|parts| - 1] + [parts[|parts| - 1]] == parts;
    RunConcat(Start, "v" + body, SuffixText(suffix));
    if suffix.Some? {
      var t := suffix.value;
      assert FormatVersionTag(parts, suffix) == ("v" + body) + ("-" + t);
      assert Run(Start, "v" + body) == last;
      RunConcat(last, "-", t);
      assert Run(last, "-") == InSuffix(parts) by { assert "-"[..0] == []; }
      RunSuffix(parts, t);
      assert Run(Start, FormatVersionTag(parts, suffix)) == InSuffix(parts);
    } else {
      assert FormatVersionTag(parts, suffix) == "v" + body;
      assert Run(Start, "v" + body) == last;
    }
  }

  // ---------------------------------------------------------------------
  // parseReleaseData and updateMenuToNotify
  // ---------------------------------------------------------------------

  /** The update-check setting. */
  datatype CheckMode = NotifyAny | NotifyStable | DoNotCheck

  /** A member of a downloaded release object: absent, a string, a boolean, or anything else. */
  datatype JsonValue = Missing | JString(str: string) | JBool(flag: bool) | JOther

  /** The four members of a release object that parseReleaseData reads. */
  datatype Release = Release(tagName: JsonValue, draft: JsonValue, prerelease: JsonValue, htmlUrl: JsonValue)

  /** All four members are present and have the expected type. */
  predicate WellFormed(r: Release)
  {
    r.tagName.JString? && r.draft.JBool? && r.prerelease.JBool? && r.htmlUrl.JString?
  }

  /** The release takes part in the newest (stableOnly false) or the stable (stableOnly true) choice. */
  predicate Eligible(r: Release, stableOnly: bool)
  {
    WellFormed(r) && !r.draft.flag && (!stableOnly || !r.prerelease.flag)
  }

  function VersionOf(r: Release): nat
    requires WellFormed(r)
  {
    ParseVersionTag(r.tagName.str)
  }

  datatype Choice = Choice(version: int, url: string)

  /**
   * The choice left after scanning the releases in order: a release replaces
   * the current choice only when its version is strictly greater.
   */
  function Choose(rs: seq<Release>, stableOnly: bool): Choice
    decreases |rs|
  {
    if rs == [] then Choice(0, "")
    else
      var prev := Choose(rs[..|rs| - 1], stableOnly);
      var r := rs[|rs| - 1];
      if Eligible(r, stableOnly) && prev.version < VersionOf(r) then Choice(VersionOf(r), r.htmlUrl.str)
      else prev
  }

  /** No eligible release has a version above the chosen one. */
  lemma {:induction false} ChooseIsUpperBound(rs: seq<Release>, stableOnly: bool, i: nat)
    requires i < |rs| && Eligible(rs[i], stableOnly)
    ensures VersionOf(rs[i]) <= Choose(rs, stableOnly).version
    decreases |rs|
  {
    var init := rs[..|rs| - 1];
    if i < |rs| - 1 {
      assert rs[i] == init[i];
      ChooseIsUpperBound(init, stableOnly, i);
      ChooseNeverDecreases(rs, stableOnly);
    }
  }

  lemma ChooseNeverDecreases(rs: seq<Release>, stableOnly: bool)
    requires rs != []
    ensures Choose(rs[..|rs| - 1], stableOnly).version <= Choose(rs, stableOnly).version
  {
  }

  /** Release i is the first eligible release with version v. */
  predicate FirstWithVersion(rs: seq<Release>, stableOnly: bool, i: nat, v: int)
  {
    i < |rs| && Eligible(rs[i], stableOnly) && VersionOf(rs[i]) == v &&
    forall j :: 0 <= j < i && Eligible(rs[j], stableOnly) ==> VersionOf(rs[j]) < v
  }

  /** The choice is either nothing, or a positive version taken from the first eligible release that has it. */
  ghost predicate ChoiceIsFirst(rs: seq<Release>, stableOnly: bool, c: Choice)
  {
    c == Choice(0, "") ||
    (c.version > 0 && exists i: nat :: FirstWithVersion(rs, stableOnly, i, c.version) && rs[i].htmlUrl.str == c.url)
  }

  /**
   * Unless nothing positive was found, the chosen version and URL are those
   * of the first eligible release that has the maximum version.
   */
  lemma {:induction false} ChooseIsFirstMaximum(rs: seq<Release>, stableOnly: bool)
    ensures ChoiceIsFirst(rs, stableOnly, Choose(rs, stableOnly))
    decreases |rs|
  {
    if rs != [] {
      var init := rs[..|rs| - 1];
      ChooseIsFirstMaximum(init, stableOnly);
      var prev := Choose(init, stableOnly);
      var r := rs[|rs| - 1];
      if Eligible(r, stableOnly) && prev.version < VersionOf(r) {
        assert Choose(rs, stableOnly) == Choice(VersionOf(r), r.htmlUrl.str);
        forall j | 0 <= j < |rs| - 1 && Eligible(rs[j], stableOnly)
          ensures VersionOf(rs[j]) < VersionOf(r)
        {
          assert rs[j] == init[j];
          ChooseIsUpperBound(init, stableOnly, j);
        }
        assert FirstWithVersion(rs, stableOnly, |rs| - 1, VersionOf(r));
      } else {
        assert Choose(rs, stableOnly) == prev;
        if prev != Choice(0, "") {
          var i: nat :| FirstWithVersion(init, stableOnly, i, prev.version) && init[i].htmlUrl.str == prev.url;
          assert forall j :: 0 <= j <= i ==> rs[j] == init[j];
          assert FirstWithVersion(rs, stableOnly, i, prev.version);
        }
      }
    }
  }

  class UpdateInformation {
    var thisVersion: int
    var check: CheckMode
    var newestVersion: int
    var newestURL: string
    var stableVersion: int
    var stableURL: string

    constructor (version: int, mode: CheckMode)
      ensures thisVersion == version && check == mode
      ensures newestVersion == 0 && stableVersion == 0 && newestURL == "" && stableURL == ""
    {
      thisVersion, check := version, mode;
      newestVersion, stableVersion := 0, 0;
      newestURL, stableURL := "", "";
    }

    /**
     * parseReleaseData: releases is None when the download was empty or did
     * not parse as JSON, and then nothing changes.
     */
    method ParseReleaseData(releases: Option<seq<Release>>)
      modifies this
      ensures thisVersion == old(thisVersion) && check == old(check)
      ensures releases.None? ==>
        newestVersion == old(newestVersion) && newestURL == old(newestURL) &&
        stableVersion == old(stableVersion) && stableURL == old(stableURL)
      ensures releases.Some? ==>
        Choice(newestVersion, newestURL) == Choose(releases.value, false) &&
        Choice(stableVersion, stableURL) == Choose(releases.value, true)
    {
      if releases.Some? {
        var rs := releases.value;
        newestVersion, stableVersion := 0, 0;
        newestURL, stableURL := "", "";
        var i := 0;
        while i < |rs|
          invariant 0 <= i <= |rs|
          invariant thisVersion == old(thisVersion) && check == old(check)
          invariant Choice(newestVersion, newestURL) == Choose(rs[..i], false)
          invariant Choice(stableVersion, stableURL) == Choose(rs[..i], true)
        {
          var r := rs[i];
          assert rs[..i + 1][..i] == rs[..i];
          if WellFormed(r) && !r.draft.flag {
            var v := ParseVersionTag(r.tagName.str);
            if newestVersion < v {
              newestVersion, newestURL := v, r.htmlUrl.str;
            }
            if !r.prerelease.flag && stableVersion < v {
              stableVersion, stableURL := v, r.htmlUrl.str;
            }
          }
          i := i + 1;
        }
        assert rs[..|rs|] == rs;
      }
    }

    /** updateMenuToNotify: whether the menu item is changed to announce an update. */
    predicate NotifyDue()
      reads this
    {
      thisVersion != 0 &&
      match check
      case NotifyAny => newestVersion > thisVersion
      case NotifyStable => stableVersion > thisVersion
      case DoNotCheck => false
    }
  }

  /** No notification without a known own version or with checking switched off; otherwise only for a newer release. */
  lemma NotifyDueExactly(info: UpdateInformation)
    ensures (info.thisVersion == 0 || info.check == DoNotCheck) ==> !info.NotifyDue()
    ensures info.NotifyDue() <==>
      info.thisVersion != 0 &&
      ((info.check == NotifyAny && info.newestVersion > info.thisVersion) ||
       (info.check == NotifyStable && info.stableVersion > info.thisVersion))
  {
  }
}
