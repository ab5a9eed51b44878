/**
 * ExtractYearsFromText: five regular expressions tried in order; the first
 * whose leftmost match has a capture group that parses as an `int` gives
 * the result, and 0 when none does.
 *
 * Every pattern has the shape `lead (\d+) rest`, where each `\d+` in it is
 * followed by a literal that starts with a non-digit. A greedy `\d+`
 * therefore matches only the whole maximal digit run, and backtracking to
 * a shorter run can never succeed, so the matcher below takes the maximal
 * run and does not backtrack.
 */
module Years {
  import opened Text
  import opened Wrappers
  import Cleaner

  /** A literal or a digit group `\d+` (not captured). */
  datatype Token = Lit(text: string) | Num

  /** `lead`, then the captured group `(\d+)`, then `rest`. */
  datatype YearPattern = YearPattern(lead: string, rest: seq<Token>)

  const PlusYears := YearPattern("", [Lit("+ years")])                 // (\d+)\+ years
  const RangeYears := YearPattern("", [Lit("-"), Num, Lit(" years")])   // (\d+)-(\d+) years
  const PlainYears := YearPattern("", [Lit(" years")])                  // (\d+) years
  const MinimumYears := YearPattern("minimum ", [Lit(" years")])        // minimum (\d+) years
  const AtLeastYears := YearPattern("at least ", [Lit(" years")])       // at least (\d+) years

  /** The patterns in the order they are tried. */
  const YearPatterns: seq<YearPattern> := [PlusYears, RangeYears, PlainYears, MinimumYears, AtLeastYears]

  const MaxInt32: nat := 2147483647

  /** The tokens match a prefix of `s`. */
  predicate TokensMatch(toks: seq<Token>, s: string)
    decreases |toks|
  {
    if toks == [] then true
    else match toks[0]
      case Lit(w) => |w| <= |s| && s[..|w|] == w && TokensMatch(toks[1..], s[|w|..])
      case Num =>
        var n := Cleaner.DigitRun(s);
        n > 0 && TokensMatch(toks[1..], s[n..])
  }

  /** The captured group when `p` matches at position `i` of `s`. */
  function MatchAt(p: YearPattern, s: string, i: nat): (g: Option<string>)
    ensures g.Some? ==> g.value != [] && forall k :: 0 <= k < |g.value| ==> IsDigit(g.value[k])
  {
    var j := i + |p.lead|;
    if j <= |s| && s[i..j] == p.lead then
      var n := Cleaner.DigitRun(s[j..]);
      if n > 0 && TokensMatch(p.rest, s[j + n..]) then Some(s[j..j + n]) else None
    else None
  }

  /** `Regex.Match` from position `i`: the group of the leftmost match at or after `i`. */
  function FirstMatchFrom(p: YearPattern, s: string, i: nat): (g: Option<string>)
    decreases |s| + 1 - i
    ensures g.Some? ==> g.value != [] && forall k :: 0 <= k < |g.value| ==> IsDigit(g.value[k])
  {
    if i > |s| then None
    else if MatchAt(p, s, i).Some? then MatchAt(p, s, i)
    else FirstMatchFrom(p, s, i + 1)
  }

  /** `int.TryParse` of a group of ASCII digits: fails only when the value does not fit in 32 bits. */
  function TryParseInt32(d: string): (r: Option<nat>)
    ensures r.Some? ==> r.value <= MaxInt32
    ensures r.Some? <==> d != [] && (forall k :: 0 <= k < |d| ==> IsDigit(d[k])) && DigitsValue(d) <= MaxInt32
    ensures r.Some? ==> r.value == DigitsValue(d)
  {
    if d != [] && (forall k :: 0 <= k < |d| ==> IsDigit(d[k])) && DigitsValue(d) <= MaxInt32
    then Some(DigitsValue(d))
    else None
  }

  /** Parsing reads back the decimal rendering of every value that fits in 32 bits, and of no other. */
  lemma ParseReadsRendering(n: nat)
    ensures TryParseInt32(NatToString(n)) == (if n <= MaxInt32 then Some(n) else None)
  {
  }

  /** What one pattern contributes: its leftmost match, parsed. */
  function Parsed(p: YearPattern, s: string): Option<nat> {
    match FirstMatchFrom(p, s, 0)
    case None => None
    case Some(g) => TryParseInt32(g)
  }

  /** The first pattern of `ps` whose leftmost match parses gives the value; 0 if none does. */
  function YearsFrom(ps: seq<YearPattern>, s: string): nat {
    if ps == [] then 0
    else match Parsed(ps[0], s)
      case Some(v) => v
      case None => YearsFrom(ps[1..], s)
  }

  /** The years ExtractYearsFromText finds in `s`. */
  function YearsFromText(s: string): nat {
    YearsFrom(YearPatterns, s)
  }

  /** ExtractYearsFromText: tries the patterns in order and returns at the first parsable group. */
  method ExtractYearsFromText(text: string) returns (years: nat)
    ensures years == YearsFromText(text)
    ensures years <= MaxInt32
  {
    for k := 0 to |YearPatterns|
      invariant YearsFrom(YearPatterns[k..], text) == YearsFromText(text)
    {
      var m := FirstMatchFrom(YearPatterns[k], text, 0);
      if m.Some? {
        var parsed := TryParseInt32(m.value);
        if parsed.Some? {
          YearsBounded(YearPatterns[k..], text);
          return parsed.value;
        }
      }
      assert YearPatterns[k..][1..] == YearPatterns[k + 1..];
    }
    return 0;
  }

  lemma {:induction false} YearsBounded(ps: seq<YearPattern>, s: string)
    ensures YearsFrom(ps, s) <= MaxInt32
    decreases |ps|
  {
    if ps != [] && Parsed(ps[0], s).None? {
      YearsBounded(ps[1..], s);
    }
  }

  /**
   * The result is the value of the first pattern, in order, whose leftmost
   * match parses, and 0 when no pattern's does. (So 0 also comes back when
   * the first parsable group is itself zero, as in "0 years".)
   */
  lemma {:induction false} YearsIsFirstParsed(ps: seq<YearPattern>, s: string)
    ensures (forall k :: 0 <= k < |ps| ==> Parsed(ps[k], s).None?) ==> YearsFrom(ps, s) == 0
    ensures (exists k :: 0 <= k < |ps| && Parsed(ps[k], s).Some?) ==>
      exists k :: 0 <= k < |ps| && Parsed(ps[k], s) == Some(YearsFrom(ps, s))
        && forall j :: 0 <= j < k ==> Parsed(ps[j], s).None?
    decreases |ps|
  {
    if ps != [] {
      YearsIsFirstParsed(ps[1..], s);
      if Parsed(ps[0], s).None? {
        assert forall k :: 1 <= k < |ps| ==> ps[k] == ps[1..][k - 1];
        if exists k :: 0 <= k < |ps| && Parsed(ps[k], s).Some? {
          var k :| 0 <= k < |ps| && Parsed(ps[k], s).Some?;
          assert Parsed(ps[1..][k - 1], s).Some?;
          var k' :| 0 <= k' < |ps[1..]| && Parsed(ps[1..][k'], s) == Some(YearsFrom(ps[1..], s))
            && forall j :: 0 <= j < k' ==> Parsed(ps[1..][j], s).None?;
          assert Parsed(ps[k' + 1], s) == Some(YearsFrom(ps, s));
        }
      } else {
        assert Parsed(ps[0], s) == Some(YearsFrom(ps, s));
      }
    }
  }

  /** A match at `i` means there is a leftmost match at or after any earlier position. */
  lemma {:induction false} MatchGivesFirstMatch(p: YearPattern, s: string, i: nat, j: nat)
    requires j <= i && MatchAt(p, s, i).Some?
    ensures FirstMatchFrom(p, s, j).Some?
    decreases i - j
  {
    if i <= |s| && MatchAt(p, s, j).None? {
      MatchGivesFirstMatch(p, s, i, j + 1);
    }
  }

  /**
   * A text matching `minimum N years` or `at least N years` also matches
   * `N years`, which is tried before them.
   */
  lemma LaterPatternsImplyPlain(s: string)
    ensures FirstMatchFrom(MinimumYears, s, 0).Some? ==> FirstMatchFrom(PlainYears, s, 0).Some?
    ensures FirstMatchFrom(AtLeastYears, s, 0).Some? ==> FirstMatchFrom(PlainYears, s, 0).Some?
  {
    forall p, i: nat | p in [MinimumYears, AtLeastYears] && MatchAt(p, s, i).Some?
      ensures MatchAt(PlainYears, s, i + |p.lead|).Some?
    {
      var j := i + |p.lead|;
      assert s[j..j] == PlainYears.lead;
    }
    FirstMatchLeadsToPlain(MinimumYears, s, 0);
    FirstMatchLeadsToPlain(AtLeastYears, s, 0);
  }

  lemma {:induction false} FirstMatchLeadsToPlain(p: YearPattern, s: string, i: nat)
    requires p.rest == PlainYears.rest
    requires forall k: nat :: MatchAt(p, s, k).Some? ==> MatchAt(PlainYears, s, k + |p.lead|).Some?
    ensures FirstMatchFrom(p, s, i).Some? ==> FirstMatchFrom(PlainYears, s, 0).Some?
    decreases |s| + 1 - i
  {
    if i <= |s| {
      if MatchAt(p, s, i).Some? {
        MatchGivesFirstMatch(PlainYears, s, i + |p.lead|, 0);
      } else {
        FirstMatchLeadsToPlain(p, s, i + 1);
      }
    }
  }

  /** With no match anywhere from `j` on, there is no leftmost match from `j`. */
  lemma {:induction false} NoMatchNoFirst(p: YearPattern, s: string, j: nat)
    requires forall i: nat :: j <= i ==> MatchAt(p, s, i).None?
    ensures FirstMatchFrom(p, s, j).None?
    decreases |s| + 1 - j
  {
    if j <= |s| {
      NoMatchNoFirst(p, s, j + 1);
    }
  }

  /**
   * `Regex.Match` from `j` finds `g` exactly when `g` is the group of the
   * leftmost position at or after `j` where the pattern matches.
   */
  lemma FirstMatchIsLeftmost(p: YearPattern, s: string, j: nat, g: string)
    ensures FirstMatchFrom(p, s, j) == Some(g) <==>
      exists i: nat :: (j <= i <= |s| && MatchAt(p, s, i) == Some(g)
                        && forall k: nat :: j <= k < i ==> MatchAt(p, s, k).None?)
  {
    if FirstMatchFrom(p, s, j) == Some(g) {
      FirstMatchHasLeftmostPosition(p, s, j, g);
    }
    if exists i: nat :: (j <= i <= |s| && MatchAt(p, s, i) == Some(g)
                         && forall k: nat :: j <= k < i ==> MatchAt(p, s, k).None?) {
      var i: nat :| j <= i <= |s| && MatchAt(p, s, i) == Some(g)
        && forall k: nat :: j <= k < i ==> MatchAt(p, s, k).None?;
      SkipToMatch(p, s, j, i);
    }
  }

  lemma {:induction false} FirstMatchHasLeftmostPosition(p: YearPattern, s: string, j: nat, g: string)
    requires FirstMatchFrom(p, s, j) == Some(g)
    ensures exists i: nat :: (j <= i <= |s| && MatchAt(p, s, i) == Some(g)
                              && forall k: nat :: j <= k < i ==> MatchAt(p, s, k).None?)
    decreases |s| + 1 - j
  {
    if MatchAt(p, s, j).None? {
      FirstMatchHasLeftmostPosition(p, s, j + 1, g);
      var i: nat :| j + 1 <= i <= |s| && MatchAt(p, s, i) == Some(g)
        && forall k: nat :: j + 1 <= k < i ==> MatchAt(p, s, k).None?;
      assert forall k: nat :: j <= k < i ==> MatchAt(p, s, k).None?;
    } else {
      assert j <= |s| && MatchAt(p, s, j) == Some(g);
    }
  }

  /** Positions without a match are skipped. */
  lemma {:induction false} SkipToMatch(p: YearPattern, s: string, j: nat, i: nat)
    requires j <= i <= |s|
    requires forall k: nat :: j <= k < i ==> MatchAt(p, s, k).None?
    ensures FirstMatchFrom(p, s, j) == FirstMatchFrom(p, s, i)
    decreases i - j
  {
    if j < i {
      SkipToMatch(p, s, j + 1, i);
    }
  }
}
