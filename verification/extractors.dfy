/**
 * Signal extractors: role words, hard skills, education levels and the
 * generic keywords of a job description. Every membership test is ordinal
 * substring containment on text the caller has already lower-cased.
 */
module Extractors {
  import opened Text

  /** The role words both role extractors look for, in their order. */
  const RoleVocabulary: seq<string> :=
    ["engineer", "developer", "manager", "analyst", "architect", "specialist", "consultant"]

  /** The hard-skill terms, in their order. */
  const HardSkillVocabulary: seq<string> :=
    [ "python", "java", "javascript", "c#", "c++", "sql", "react", "angular", "vue",
      "aws", "azure", "docker", "kubernetes", "jenkins", "git", "rest", "api",
      "machine learning", "ai", "data analysis", "cloud", "devops", "agile", "scrum",
      "typescript", "node", "express", "mongodb", "mysql", "postgresql", "linux" ]

  lemma RoleVocabularyDistinct()
    ensures NoDuplicates(RoleVocabulary)
  {
  }

  lemma HardSkillVocabularyDistinct()
    ensures NoDuplicates(HardSkillVocabulary)
  {
    HardSkillsDistinctFrom0();
    HardSkillsDistinctFrom3();
    HardSkillsDistinctFrom6();
    HardSkillsDistinctFrom14();
  }

  // The 465 pairs of skill terms, compared in four groups of rows.

  lemma HardSkillsDistinctFrom0()
    ensures forall i, j :: 0 <= i < 3 && i < j < |HardSkillVocabulary| ==>
      HardSkillVocabulary[i] != HardSkillVocabulary[j]
  {
  }

  lemma HardSkillsDistinctFrom3()
    ensures forall i, j :: 3 <= i < 6 && i < j < |HardSkillVocabulary| ==>
      HardSkillVocabulary[i] != HardSkillVocabulary[j]
  {
  }

  lemma HardSkillsDistinctFrom6()
    ensures forall i, j :: 6 <= i < 14 && i < j < |HardSkillVocabulary| ==>
      HardSkillVocabulary[i] != HardSkillVocabulary[j]
  {
  }

  lemma HardSkillsDistinctFrom14()
    ensures forall i, j :: 14 <= i < j < |HardSkillVocabulary| ==>
      HardSkillVocabulary[i] != HardSkillVocabulary[j]
  {
  }

  /** The terms of `vocab` that occur in `text`, in vocabulary order. */
  function Present(vocab: seq<string>, text: string): (r: seq<string>)
    ensures IsSubsequence(r, vocab)
    ensures forall t :: t in r <==> t in vocab && Contains(text, t)
  {
    if vocab == [] then []
    else
      var last := vocab[|vocab| - 1];
      var front := vocab[..|vocab| - 1];
      var p := Present(front, text);
      var r := p + (if Contains(text, last) then [last] else []);
      assert forall t :: t in vocab <==> t in front || t == last;
      assert front == vocab[..|vocab| - 1];
      assert Contains(text, last) ==> r[..|r| - 1] == p;
      assert !Contains(text, last) ==> r == p;
      r
  }

  /** A vocabulary without duplicates yields finds without duplicates. */
  lemma {:induction false} PresentNoDuplicates(vocab: seq<string>, text: string)
    requires NoDuplicates(vocab)
    ensures NoDuplicates(Present(vocab, text))
  {
    if vocab != [] {
      var front := vocab[..|vocab| - 1];
      assert NoDuplicates(front);
      PresentNoDuplicates(front, text);
      assert vocab[|vocab| - 1] !in front;
    }
  }

  /** The loop shared by the extractors: walk the vocabulary and keep what `text` contains. */
  method CollectPresent(vocab: seq<string>, text: string) returns (found: seq<string>)
    ensures found == Present(vocab, text)
  {
    found := [];
    for k := 0 to |vocab|
      invariant found == Present(vocab[..k], text)
    {
      if Contains(text, vocab[k]) {
        found := found + [vocab[k]];
      }
      assert vocab[..k + 1][..k] == vocab[..k];
    }
    assert vocab[..|vocab|] == vocab;
  }

  /**
   * ExtractJobRoles and ExtractResumeRoles, which are the same code: the
   * role words `text` contains, without duplicates, in vocabulary order.
   */
  method ExtractRoles(text: string) returns (roles: seq<string>)
    ensures roles == Roles(text)
    ensures forall t :: t in roles <==> t in RoleVocabulary && Contains(text, t)
  {
    var found := CollectPresent(RoleVocabulary, text);
    RoleVocabularyDistinct();
    PresentNoDuplicates(RoleVocabulary, text);
    DistinctOfDistinct(found);
    roles := Distinct(found);
  }

  /** ExtractHardSkills: the hard-skill terms `text` contains, without duplicates, in vocabulary order. */
  method ExtractHardSkills(text: string) returns (skills: seq<string>)
    ensures skills == HardSkills(text)
    ensures forall t :: t in skills <==> t in HardSkillVocabulary && Contains(text, t)
  {
    var found := CollectPresent(HardSkillVocabulary, text);
    HardSkillVocabularyDistinct();
    PresentNoDuplicates(HardSkillVocabulary, text);
    DistinctOfDistinct(found);
    skills := Distinct(found);
  }

  /** The role words of `text` (the specification of ExtractRoles). */
  function Roles(text: string): seq<string> {
    Present(RoleVocabulary, text)
  }

  /** The hard skills of `text` (the specification of ExtractHardSkills). */
  function HardSkills(text: string): seq<string> {
    Present(HardSkillVocabulary, text)
  }

  /** The role words found come without duplicates and in vocabulary order. */
  lemma RolesInVocabularyOrder(text: string)
    ensures NoDuplicates(Roles(text)) && IsSubsequence(Roles(text), RoleVocabulary)
  {
    RoleVocabularyDistinct();
    PresentNoDuplicates(RoleVocabulary, text);
  }

  /** The hard skills found come without duplicates and in vocabulary order. */
  lemma HardSkillsInVocabularyOrder(text: string)
    ensures NoDuplicates(HardSkills(text)) && IsSubsequence(HardSkills(text), HardSkillVocabulary)
  {
    HardSkillVocabularyDistinct();
    PresentNoDuplicates(HardSkillVocabulary, text);
  }

  // ---------------------------------------------------------------------
  // Education

  /** ExtractEducationRequirements: on the job side "degree" also asks for a bachelor. */
  function EducationRequirements(job: string): (r: seq<string>)
    ensures "bachelor" in r <==> Contains(job, "bachelor") || Contains(job, "degree")
    ensures "master" in r <==> Contains(job, "master")
    ensures "phd" in r <==> Contains(job, "phd") || Contains(job, "doctorate")
    ensures forall e :: e in r ==> e in ["bachelor", "master", "phd"]
    ensures NoDuplicates(r) && |r| <= 3
  {
    (if Contains(job, "bachelor") || Contains(job, "degree") then ["bachelor"] else [])
    + (if Contains(job, "master") then ["master"] else [])
    + (if Contains(job, "phd") || Contains(job, "doctorate") then ["phd"] else [])
  }

  /** ExtractEducationFromResume: "degree" alone does not count as a bachelor. */
  function EducationFromResume(resume: string): (r: seq<string>)
    ensures "bachelor" in r <==> Contains(resume, "bachelor")
    ensures "master" in r <==> Contains(resume, "master")
    ensures "phd" in r <==> Contains(resume, "phd") || Contains(resume, "doctorate")
    ensures forall e :: e in r ==> e in ["bachelor", "master", "phd"]
    ensures NoDuplicates(r) && |r| <= 3
  {
    (if Contains(resume, "bachelor") then ["bachelor"] else [])
    + (if Contains(resume, "master") then ["master"] else [])
    + (if Contains(resume, "phd") || Contains(resume, "doctorate") then ["phd"] else [])
  }

  /**
   * On the same text the two education extractors agree, except that the
   * job side adds "bachelor" for a text that says "degree" but not "bachelor".
   */
  lemma EducationSidesDiffer(t: string)
    ensures forall e :: e in EducationFromResume(t) ==> e in EducationRequirements(t)
    ensures EducationFromResume(t) != EducationRequirements(t)
      <==> Contains(t, "degree") && !Contains(t, "bachelor")
  {
    var job, res := EducationRequirements(t), EducationFromResume(t);
    if Contains(t, "degree") && !Contains(t, "bachelor") {
      assert "bachelor" in job && "bachelor" !in res;
    }
  }

  // ---------------------------------------------------------------------
  // Keywords

  /** The separators of the keyword split: space, comma, period, semicolon. */
  predicate IsSeparator(c: char) {
    c == ' ' || c == ',' || c == '.' || c == ';'
  }

  /** Length of the separator-free prefix of `s`. */
  function TokenRun(s: string): (n: nat)
    ensures n <= |s|
    ensures forall i :: 0 <= i < n ==> !IsSeparator(s[i])
    ensures n < |s| ==> IsSeparator(s[n])
  {
    if s != [] && !IsSeparator(s[0]) then 1 + TokenRun(s[1..]) else 0
  }

  /** The characters of `s` that are not separators. */
  function DropSeparators(s: string): string {
    if s == [] then []
    else if IsSeparator(s[0]) then DropSeparators(s[1..])
    else [s[0]] + DropSeparators(s[1..])
  }

  function Flatten(tokens: seq<string>): string {
    if tokens == [] then [] else tokens[0] + Flatten(tokens[1..])
  }

  /** `Split(' ', ',', '.', ';')` with `RemoveEmptyEntries`. */
  function SplitTokens(s: string): (r: seq<string>)
    decreases |s|
    ensures forall k :: 0 <= k < |r| ==> r[k] != [] && Contains(s, r[k])
    ensures forall k, i :: 0 <= k < |r| && 0 <= i < |r[k]| ==> !IsSeparator(r[k][i])
  {
    if s == [] then []
    else if IsSeparator(s[0]) then
      var r := SplitTokens(s[1..]);
      forall k | 0 <= k < |r| ensures Contains(s, r[k]) {
        ContainsInSuffix(s, 1, r[k]);
      }
      r
    else
      var n := TokenRun(s);
      var rest := SplitTokens(s[n..]);
      forall k | 0 <= k < |rest| ensures Contains(s, rest[k]) {
        ContainsInSuffix(s, n, rest[k]);
      }
      assert OccursAt(s, s[..n], 0);
      [s[..n]] + rest
  }

  lemma {:induction false} DropSeparatorsOfToken(a: string, b: string)
    requires forall i :: 0 <= i < |a| ==> !IsSeparator(a[i])
    ensures DropSeparators(a + b) == a + DropSeparators(b)
    decreases |a|
  {
    if a != [] {
      assert (a + b)[1..] == a[1..] + b;
      DropSeparatorsOfToken(a[1..], b);
      assert [a[0]] + (a[1..] + DropSeparators(b)) == a + DropSeparators(b);
    } else {
      assert a + b == b;
    }
  }

  /** Splitting loses exactly the separators: the tokens, put back together, are the rest of the text. */
  lemma {:induction false} SplitKeepsNonSeparators(s: string)
    ensures Flatten(SplitTokens(s)) == DropSeparators(s)
    decreases |s|
  {
    if s != [] {
      if IsSeparator(s[0]) {
        SplitKeepsNonSeparators(s[1..]);
      } else {
        var n := TokenRun(s);
        SplitKeepsNonSeparators(s[n..]);
        assert ([s[..n]] + SplitTokens(s[n..]))[1..] == SplitTokens(s[n..]);
        assert s == s[..n] + s[n..];
        DropSeparatorsOfToken(s[..n], s[n..]);
      }
    }
  }

  /** The token at the front of a text ends at the first separator, wherever the text continues. */
  lemma {:induction false} TokenRunStopsAtSeparator(a: string, b: string)
    requires b == [] || IsSeparator(b[0])
    ensures TokenRun(a + b) == TokenRun(a)
    decreases |a|
  {
    if a == [] {
      assert a + b == b;
    } else {
      assert (a + b)[1..] == a[1..] + b;
      TokenRunStopsAtSeparator(a[1..], b);
    }
  }

  /** A non-empty separator-free text is one token. */
  lemma SplitWholeWord(w: string)
    requires w != [] && forall i :: 0 <= i < |w| ==> !IsSeparator(w[i])
    ensures SplitTokens(w) == [w]
  {
    TokenRunStopsAtSeparator(w, []);
    assert w + [] == w;
    assert w[|w|..] == [];
  }

  /** Splitting at a separator: the tokens of the two sides, in order, and nothing across it. */
  lemma {:induction false} SplitAtSeparator(a: string, c: char, b: string)
    requires IsSeparator(c)
    ensures SplitTokens(a + [c] + b) == SplitTokens(a) + SplitTokens(b)
    decreases |a|
  {
    var s := a + [c] + b;
    if a == [] {
      assert s == [c] + b && s[1..] == b;
    } else if IsSeparator(a[0]) {
      assert s[1..] == a[1..] + [c] + b;
      SplitAtSeparator(a[1..], c, b);
    } else {
      var n := TokenRun(a);
      assert s == a + ([c] + b);
      TokenRunStopsAtSeparator(a, [c] + b);
      assert s[..n] == a[..n];
      assert s[n..] == a[n..] + [c] + b;
      SplitAtSeparator(a[n..], c, b);
      assert SplitTokens(s) == [a[..n]] + (SplitTokens(a[n..]) + SplitTokens(b));
    }
  }

  /** The tokens longer than four characters. */
  function LongTokens(tokens: seq<string>): (r: seq<string>)
    ensures forall w :: w in r <==> w in tokens && |w| > 4
  {
    if tokens == [] then []
    else
      var last := tokens[|tokens| - 1];
      var front := tokens[..|tokens| - 1];
      assert forall w :: w in tokens <==> w in front || w == last;
      LongTokens(front) + (if |last| > 4 then [last] else [])
  }

  /**
   * The job keywords of CalculateKeywordMatch: the tokens of the split
   * longer than four characters, each kept once at its first occurrence.
   */
  function JobKeywords(job: string): (r: seq<string>)
    ensures NoDuplicates(r)
    ensures forall w :: w in r <==> w in SplitTokens(job) && |w| > 4
    ensures forall w :: w in r ==> |w| > 4 && Contains(job, w)
  {
    var tokens := SplitTokens(job);
    assert forall w :: w in tokens ==> Contains(job, w);
    DistinctNoDuplicates(LongTokens(tokens));
    Distinct(LongTokens(tokens))
  }
}
