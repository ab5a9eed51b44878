/**
 * What ExtractYearsFromText yields on particular kinds of text: a range
 * `N-M years`, and a resume that has been through the cleaner.
 */
module YearCases {
  import opened Text
  import opened Wrappers
  import Cleaner
  import opened Years
  import opened YearMatching

  /**
   * `N-M years` yields N: in a text `pre N-M years post` where `pre` holds no
   * digit and neither `pre` nor `post` a '+', the result is N (when N fits
   * in 32 bits).
   */
  lemma RangeGivesLowerBound(s: string, pre: string, d1: string, d2: string, post: string)
    requires s == pre + (d1 + ("-" + (d2 + (" years" + post))))
    requires d1 != [] && forall k :: 0 <= k < |d1| ==> IsDigit(d1[k])
    requires d2 != [] && forall k :: 0 <= k < |d2| ==> IsDigit(d2[k])
    requires DigitsValue(d1) <= MaxInt32
    requires forall k :: 0 <= k < |pre| ==> !IsDigit(pre[k])
    requires PlusFree(pre) && PlusFree(post)
    ensures YearsFromText(s) == DigitsValue(d1)
  {
    RangeTextNoPlusYears(pre, d1, d2, post);
    RangeParsed(pre, d1, d2, post);
    SecondPatternGives(s, DigitsValue(d1));
  }

  /** The leftmost `N-M years` match in `pre N-M years post` is the one after `pre`. */
  lemma RangeParsed(pre: string, d1: string, d2: string, post: string)
    requires d1 != [] && forall k :: 0 <= k < |d1| ==> IsDigit(d1[k])
    requires d2 != [] && forall k :: 0 <= k < |d2| ==> IsDigit(d2[k])
    requires DigitsValue(d1) <= MaxInt32
    requires forall k :: 0 <= k < |pre| ==> !IsDigit(pre[k])
    ensures Parsed(RangeYears, pre + (d1 + ("-" + (d2 + (" years" + post))))) == Some(DigitsValue(d1))
  {
    var u := "-" + (d2 + (" years" + post));
    var s := pre + (d1 + u);
    assert forall k: nat :: k < |pre| ==> MatchAt(RangeYears, s, k).None? by {
      forall k: nat | k < |pre| ensures MatchAt(RangeYears, s, k).None? {
        assert s[k] == pre[k];
        NoMatchAtNonDigit(RangeYears, s, k);
      }
    }
    assert MatchAt(RangeYears, s, |pre|) == Some(d1) by {
      RangeRestMatches(d2, post);
      MatchAfterDigits(RangeYears, pre, d1, u);
    }
    SkipToMatch(RangeYears, s, 0, |pre|);
  }

  /** A text with no '+' and no standalone number: as a cleaned resume is. */
  predicate CleanShaped(t: string) {
    PlusFree(t) && forall k :: 0 <= k < |t| ==> !Cleaner.StandaloneNumberAt(t, k)
  }

  /**
   * In a resume that went through the cleaner, `N+ years`, `N-M years`,
   * `minimum N years` and `at least N years` never match: '+' is gone, and
   * the number each of the others needs has non-word characters on both
   * sides, so the cleaner removed it. Only `N years` can give the resume's
   * years, and only for digits glued to a preceding letter or underscore.
   */
  lemma CleanedResumeYears(x: string)
    ensures var t := ToLower(Cleaner.CleanResumeText(x));
      && Parsed(PlusYears, t).None?
      && Parsed(RangeYears, t).None?
      && Parsed(MinimumYears, t).None?
      && Parsed(AtLeastYears, t).None?
      && YearsFromText(t) == Parsed(PlainYears, t).GetOr(0)
  {
    var t := ToLower(Cleaner.CleanResumeText(x));
    forall k | 0 <= k < |t| ensures !Cleaner.StandaloneNumberAt(t, k) {
      Cleaner.CleanedHasNoStandaloneNumber(x, k);
    }
    assert PlusFree(t);
    CleanShapedYears(t);
  }

  lemma CleanShapedYears(t: string)
    requires CleanShaped(t)
    ensures Parsed(PlusYears, t).None?
    ensures Parsed(RangeYears, t).None?
    ensures Parsed(MinimumYears, t).None?
    ensures Parsed(AtLeastYears, t).None?
    ensures YearsFromText(t) == Parsed(PlainYears, t).GetOr(0)
  {
    NoPlusNoPlusYears(t);
    forall i: nat ensures MatchAt(RangeYears, t, i).None? {
      if MatchAt(RangeYears, t, i).Some? {
        RangeMatchIsStandalone(t, i);
      }
    }
    NoMatchNoFirst(RangeYears, t, 0);
    forall i: nat ensures MatchAt(MinimumYears, t, i).None? {
      if MatchAt(MinimumYears, t, i).Some? {
        LeadMatchIsStandalone(t, MinimumYears, i);
      }
    }
    forall i: nat ensures MatchAt(AtLeastYears, t, i).None? {
      if MatchAt(AtLeastYears, t, i).Some? {
        LeadMatchIsStandalone(t, AtLeastYears, i);
      }
    }
    NoMatchNoFirst(MinimumYears, t, 0);
    NoMatchNoFirst(AtLeastYears, t, 0);
    assert YearsFrom([AtLeastYears], t) == YearsFrom([], t) == 0;
    assert YearsFrom([MinimumYears, AtLeastYears], t) == YearsFrom([AtLeastYears], t);
    assert YearsFrom(YearPatterns, t) == YearsFrom([RangeYears, PlainYears, MinimumYears, AtLeastYears], t);
    assert YearsFrom([RangeYears, PlainYears, MinimumYears, AtLeastYears], t)
      == YearsFrom([PlainYears, MinimumYears, AtLeastYears], t);
  }

  /** The second number of an `N-M years` match stands alone. */
  lemma RangeMatchIsStandalone(t: string, i: nat)
    requires MatchAt(RangeYears, t, i).Some?
    ensures Cleaner.StandaloneNumberAt(t, i + Cleaner.DigitRun(t[i..]) + 1)
  {
    var n := NoLeadMatchParts(RangeYears, t, i);
    var u := t[i + n..];
    var n2 := RangeRestShape(u);
    assert u[1..] == t[i + n + 1..];
    assert t[i + n + 1 + n2] == u[1 + n2];
    StandaloneBetween(t, i + n, n2);
  }

  /** The number of a `minimum N years` or `at least N years` match stands alone. */
  lemma LeadMatchIsStandalone(t: string, p: YearPattern, i: nat)
    requires p == MinimumYears || p == AtLeastYears
    requires MatchAt(p, t, i).Some?
    ensures Cleaner.StandaloneNumberAt(t, i + |p.lead|)
  {
    var j := i + |p.lead|;
    assert t[i..j] == p.lead;
    assert t[j - 1] == p.lead[|p.lead| - 1] == ' ';
    var n := Cleaner.DigitRun(t[j..]);
    assert TokensMatch([Lit(" years")], t[j + n..]);
    assert t[j + n..][..6] == " years";
    assert t[j + n] == t[j + n..][0];
  }
}
