/**
 * Facts about single matches of the year patterns, used by the lemmas in
 * YearCases.
 */
module YearMatching {
  import opened Text
  import opened Wrappers
  import Cleaner
  import opened Years
  /** No '+' anywhere in `s`. */
  predicate PlusFree(s: string) {
    forall k :: 0 <= k < |s| ==> s[k] != '+'
  }

  lemma PlusFreeConcat(a: string, b: string)
    requires PlusFree(a) && PlusFree(b)
    ensures PlusFree(a + b)
  {
    forall k | 0 <= k < |a + b| ensures (a + b)[k] != '+' {
      if k >= |a| {
        assert (a + b)[k] == b[k - |a|];
      }
    }
  }

  /** `N+ years` matches only a text holding a '+'. */
  lemma PlusNeedsPlus(s: string, i: nat)
    requires MatchAt(PlusYears, s, i).Some?
    ensures !PlusFree(s)
  {
    var n := Cleaner.DigitRun(s[i..]);
    assert s[i + n..][..7] == "+ years";
    assert s[i + n] == '+';
  }

  lemma NoPlusNoPlusYears(s: string)
    requires PlusFree(s)
    ensures Parsed(PlusYears, s).None?
  {
    forall i: nat ensures MatchAt(PlusYears, s, i).None? {
      if MatchAt(PlusYears, s, i).Some? {
        PlusNeedsPlus(s, i);
      }
    }
    NoMatchNoFirst(PlusYears, s, 0);
  }

  /** A one-literal token list matches exactly the texts that start with the literal. */
  lemma LitMatch(w: string, s: string)
    ensures TokensMatch([Lit(w)], s) <==> |w| <= |s| && s[..|w|] == w
  {
    assert [Lit(w)][1..] == [];
  }

  /** A match of `p` at `i`, taken apart: the lead, the digit group, then the rest. */
  lemma MatchAtParts(p: YearPattern, s: string, i: nat) returns (n: nat)
    requires MatchAt(p, s, i).Some?
    ensures i + |p.lead| <= |s| && s[i..i + |p.lead|] == p.lead
    ensures n == Cleaner.DigitRun(s[i + |p.lead|..]) && n > 0
    ensures TokensMatch(p.rest, s[i + |p.lead| + n..])
    ensures MatchAt(p, s, i).value == s[i + |p.lead|..i + |p.lead| + n]
  {
    n := Cleaner.DigitRun(s[i + |p.lead|..]);
  }

  /** The same for a pattern with no lead. */
  lemma NoLeadMatchParts(p: YearPattern, s: string, i: nat) returns (n: nat)
    requires p.lead == [] && MatchAt(p, s, i).Some?
    ensures i <= |s|
    ensures n == Cleaner.DigitRun(s[i..]) && n > 0
    ensures TokensMatch(p.rest, s[i + n..]) && MatchAt(p, s, i).value == s[i..i + n]
  {
    n := MatchAtParts(p, s, i);
  }

  /** The converse: a lead, a digit group and a matching rest make a match. */
  lemma MatchAtIntro(p: YearPattern, s: string, i: nat, n: nat)
    requires i + |p.lead| <= |s| && s[i..i + |p.lead|] == p.lead
    requires n == Cleaner.DigitRun(s[i + |p.lead|..]) && n > 0
    requires TokensMatch(p.rest, s[i + |p.lead| + n..])
    ensures MatchAt(p, s, i) == Some(s[i + |p.lead|..i + |p.lead| + n])
  {
  }

  /** What follows N in `N-M years` is matched by "-M years ...". */
  lemma RangeRestMatches(d2: string, post: string)
    requires d2 != [] && forall k :: 0 <= k < |d2| ==> IsDigit(d2[k])
    ensures TokensMatch(RangeYears.rest, "-" + (d2 + (" years" + post)))
  {
    var tail := " years" + post;
    var v := d2 + tail;
    var u := "-" + v;
    Cleaner.DigitRunOfDigitsThen(d2, tail);
    assert v[|d2|..] == tail;
    assert tail[..6] == " years";
    LitMatch(" years", tail);
    assert [Num, Lit(" years")][1..] == [Lit(" years")];
    assert TokensMatch([Num, Lit(" years")], v);
    assert u[..1] == "-" && u[1..] == v;
    assert RangeYears.rest[1..] == [Num, Lit(" years")];
  }

  /** A pattern with no lead matches at the start of a digit run `d` that its rest matches after. */
  lemma MatchAfterDigits(p: YearPattern, pre: string, d: string, u: string)
    requires p.lead == []
    requires d != [] && forall k :: 0 <= k < |d| ==> IsDigit(d[k])
    requires u == [] || !IsDigit(u[0])
    requires TokensMatch(p.rest, u)
    ensures MatchAt(p, pre + (d + u), |pre|) == Some(d)
  {
    var s := pre + (d + u);
    var j := |pre|;
    assert s[j..] == d + u;
    Cleaner.DigitRunOfDigitsThen(d, u);
    assert s[j + |d|..] == u;
    assert s[j..j + |d|] == d;
    MatchAtIntro(p, s, j, |d|);
  }

  /** No pattern with an empty lead matches where there is no digit. */
  lemma NoMatchAtNonDigit(p: YearPattern, s: string, i: nat)
    requires p.lead == [] && i < |s| && !IsDigit(s[i])
    ensures MatchAt(p, s, i).None?
  {
    assert s[i..][0] == s[i];
  }

  lemma RangeTextPlusFree(pre: string, d1: string, d2: string, post: string)
    requires forall k :: 0 <= k < |d1| ==> IsDigit(d1[k])
    requires forall k :: 0 <= k < |d2| ==> IsDigit(d2[k])
    requires PlusFree(pre) && PlusFree(post)
    ensures PlusFree(pre + (d1 + ("-" + (d2 + (" years" + post)))))
  {
    var tail := " years" + post;
    var u := "-" + (d2 + tail);
    assert PlusFree(" years");
    PlusFreeConcat(" years", post);
    PlusFreeConcat(d2, tail);
    assert PlusFree("-");
    PlusFreeConcat("-", d2 + tail);
    PlusFreeConcat(d1, u);
    PlusFreeConcat(pre, d1 + u);
  }

  lemma RangeTextNoPlusYears(pre: string, d1: string, d2: string, post: string)
    requires forall k :: 0 <= k < |d1| ==> IsDigit(d1[k])
    requires forall k :: 0 <= k < |d2| ==> IsDigit(d2[k])
    requires PlusFree(pre) && PlusFree(post)
    ensures Parsed(PlusYears, pre + (d1 + ("-" + (d2 + (" years" + post))))).None?
  {
    RangeTextPlusFree(pre, d1, d2, post);
    NoPlusNoPlusYears(pre + (d1 + ("-" + (d2 + (" years" + post)))));
  }

  /** When `N+ years` gives nothing, `N-M years` decides, if it parses. */
  lemma SecondPatternGives(s: string, v: nat)
    requires Parsed(PlusYears, s).None? && Parsed(RangeYears, s) == Some(v)
    ensures YearsFromText(s) == v
  {
    SecondGives(YearPatterns, s);
  }

  lemma SecondGives(ps: seq<YearPattern>, s: string)
    requires |ps| >= 2 && Parsed(ps[0], s).None? && Parsed(ps[1], s).Some?
    ensures YearsFrom(ps, s) == Parsed(ps[1], s).value
  {
    assert ps[1..][0] == ps[1];
  }

  /** Text matched by "-M years": a '-', a digit run, then a space. */
  lemma RangeRestShape(u: string) returns (n2: nat)
    requires TokensMatch(RangeYears.rest, u)
    ensures |u| > 0 && u[0] == '-'
    ensures n2 == Cleaner.DigitRun(u[1..]) && n2 > 0 && 1 + n2 < |u| && u[1 + n2] == ' '
  {
    assert RangeYears.rest[1..] == [Num, Lit(" years")];
    assert u[..1] == "-";
    assert u[0] == u[..1][0] == "-"[0] == '-';
    var v := u[1..];
    assert TokensMatch([Num, Lit(" years")], v);
    assert [Num, Lit(" years")][1..] == [Lit(" years")];
    n2 := Cleaner.DigitRun(v);
    assert n2 > 0 && TokensMatch([Lit(" years")], v[n2..]);
    LitMatch(" years", v[n2..]);
    assert v[n2..][0] == v[n2..][..6][0] == " years"[0] == ' ';
    assert v[n2..][0] == u[1 + n2];
  }

  /** A digit run between a '-' at `m` and a ' ' after it stands alone. */
  lemma StandaloneBetween(t: string, m: nat, n2: nat)
    requires m < |t| && t[m] == '-'
    requires n2 == Cleaner.DigitRun(t[m + 1..]) > 0
    requires m + 1 + n2 < |t| && t[m + 1 + n2] == ' '
    ensures Cleaner.StandaloneNumberAt(t, m + 1)
  {
    assert t[m + 1..][0] == t[m + 1];
  }
}
