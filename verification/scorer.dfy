/**
 * The strict local scorer: a base of 30 plus five sub-scores, clamped to
 * [10, 95]. Every sub-score takes the lower-cased resume and job texts.
 *
 * The role, skill and keyword sub-scores compute `(int)((double)m / n * K)`
 * with 0 <= m <= n and 0 < n; the model uses the truncated integer
 * quotient m * K / n in its place.
 */
module Scorer {
  import opened Text
  import opened Extractors
  import opened Years

  const BaseScore: nat := 30
  const MinScore: nat := 10
  const MaxScore: nat := 95

  function Min(a: int, b: int): int { if a <= b then a else b }
  function Max(a: int, b: int): int { if a >= b then a else b }

  /** `K` points shared out over `n` items, `m` of which matched. */
  function Share(m: nat, n: nat, k: nat): (r: nat)
    requires 0 < n && m <= n
    ensures r <= k
  {
    ShareAtMost(m, n, k);
    m * k / n
  }

  lemma {:induction false} MulMonotone(a: nat, b: nat, c: nat)
    requires a <= b
    ensures a * c <= b * c
    decreases c
  {
    if c > 0 {
      MulMonotone(a, b, c - 1);
      assert a * c == a * (c - 1) + a;
      assert b * c == b * (c - 1) + b;
    }
  }

  /** Below `n * k`, the quotient by `n` is below `k`. */
  lemma DivBelow(a: nat, k: nat, n: nat)
    requires 0 < n && a < n * k
    ensures a / n < k
  {
    var d := a / n;
    assert d * n <= a;
    if d >= k {
      MulMonotone(k, d, n);
      assert false;
    }
  }

  /** From `n * q` on, the quotient by `n` is at least `q`. */
  lemma DivAbove(a: nat, q: nat, n: nat)
    requires 0 < n && n * q <= a
    ensures q <= a / n
  {
    var d := a / n;
    assert a < d * n + n;
    if d < q {
      MulMonotone(d + 1, q, n);
      assert false;
    }
  }

  lemma ShareAtMost(m: nat, n: nat, k: nat)
    requires 0 < n && m <= n
    ensures m * k / n <= k
  {
    MulMonotone(m, n, k);
    var a := m * k;
    assert a < n * (k + 1) by {
      assert n * (k + 1) == n * k + n;
    }
    DivBelow(a, k + 1, n);
  }

  /** All `K` points exactly when every item matched; none when nothing did; some once `m * K` reaches `n`. */
  lemma ShareFull(m: nat, n: nat, k: nat)
    requires 0 < n && m <= n && 0 < k
    ensures Share(m, n, k) == k <==> m == n
    ensures m == 0 ==> Share(m, n, k) == 0
    ensures m * k >= n ==> Share(m, n, k) >= 1
  {
    var a := m * k;
    if m < n {
      MulMonotone(m + 1, n, k);
      assert (m + 1) * k == a + k;
      assert a < n * k;
      DivBelow(a, k, n);
    } else {
      assert a == n * k;
      DivAbove(a, k, n);
    }
    if a >= n {
      DivAbove(a, 1, n);
    }
  }

  /** More matches never give fewer points. */
  lemma ShareMonotone(m1: nat, m2: nat, n: nat, k: nat)
    requires 0 < n && m1 <= m2 <= n
    ensures Share(m1, n, k) <= Share(m2, n, k)
  {
    MulMonotone(m1, m2, k);
    DivMonotone(m1 * k, m2 * k, n);
  }

  lemma DivMonotone(a: nat, b: nat, n: nat)
    requires 0 < n && a <= b
    ensures a / n <= b / n
  {
    var q := b / n;
    assert b < q * n + n;
    assert a < n * (q + 1) by {
      assert n * (q + 1) == q * n + n;
    }
    DivBelow(a, q + 1, n);
  }

  // ---------------------------------------------------------------------
  // The five sub-scores

  /** CalculateRoleMatch: up to 20 points for the job's role words the resume also names; 5 when the job names none. */
  function RoleMatch(resume: string, job: string): (r: nat)
    ensures r <= 20
  {
    var jobRoles := Roles(job);
    var resumeRoles := Roles(resume);
    if jobRoles == [] then 5
    else Share(CountIn(jobRoles, resumeRoles), |jobRoles|, 20)
  }

  /** CalculateHardSkillsMatch: up to 30 points for the required skills found in the resume; 10 when none is required. */
  function SkillsMatch(resume: string, job: string): (r: nat)
    ensures r <= 30
  {
    var required := HardSkills(job);
    if required == [] then 10
    else Share(CountContained(required, resume), |required|, 30)
  }

  /** CalculateExperienceMatch, on the two year counts. */
  function ExperienceTier(jobYears: int, resumeYears: int): (r: nat)
  {
    if jobYears == 0 then 5
    else if resumeYears >= jobYears then 20
    else if resumeYears >= jobYears - 1 then 15
    else if resumeYears >= jobYears - 2 then 10
    else if resumeYears >= jobYears - 3 then 5
    else 0
  }

  /** CalculateExperienceMatch: the tier of the years found in each text. */
  function ExperienceMatch(resume: string, job: string): (r: nat)
    ensures r <= 20
  {
    ExperienceTier(YearsFromText(job), YearsFromText(resume))
  }

  /** CalculateEducationMatch: 5 points per required level the resume shows; 5 when nothing is required. */
  function EducationMatch(resume: string, job: string): (r: nat)
    ensures r <= 15
  {
    var required := EducationRequirements(job);
    var held := EducationFromResume(resume);
    if required == [] then 5
    else 5 * CountIn(required, held)
  }

  /** CalculateKeywordMatch: up to 20 points for the job keywords found in the resume; 5 when there are none. */
  function KeywordMatch(resume: string, job: string): (r: nat)
    ensures r <= 20
  {
    var keywords := JobKeywords(job);
    if keywords == [] then 5
    else Share(CountContained(keywords, resume), |keywords|, 20)
  }

  /** The unclamped total: the base plus the five sub-scores. */
  function RawScore(resume: string, job: string): nat {
    BaseScore + RoleMatch(resume, job) + SkillsMatch(resume, job) + ExperienceMatch(resume, job)
      + EducationMatch(resume, job) + KeywordMatch(resume, job)
  }

  /** The score CalculateStrictScore returns for the lower-cased texts. */
  function StrictScore(resume: string, job: string): (r: int)
    ensures BaseScore <= r <= MaxScore
  {
    Min(Max(RawScore(resume, job), MinScore), MaxScore)
  }

  /**
   * CalculateStrictScore: lower-cases both texts, then adds the five
   * sub-scores to the base one after the other and clamps the total.
   */
  method CalculateStrictScore(resumeText: string, jobDescription: string) returns (score: int)
    ensures score == StrictScore(ToLower(resumeText), ToLower(jobDescription))
    ensures BaseScore <= score <= MaxScore
  {
    score := BaseScore;
    var resumeLower := ToLower(resumeText);
    var jobLower := ToLower(jobDescription);
    score := score + RoleMatch(resumeLower, jobLower);
    score := score + SkillsMatch(resumeLower, jobLower);
    score := score + ExperienceMatch(resumeLower, jobLower);
    score := score + EducationMatch(resumeLower, jobLower);
    score := score + KeywordMatch(resumeLower, jobLower);
    score := Min(Max(score, MinScore), MaxScore);
  }

  // ---------------------------------------------------------------------
  // What the sub-scores promise

  /** The role sub-score: 5 without job roles, else at most 20, and 20 exactly when the resume names every job role. */
  lemma RoleMatchRange(resume: string, job: string)
    ensures Roles(job) == [] ==> RoleMatch(resume, job) == 5
    ensures Roles(job) != [] ==> RoleMatch(resume, job) <= 20
    ensures Roles(job) != [] ==>
      (RoleMatch(resume, job) == 20 <==> forall t :: t in Roles(job) ==> Contains(resume, t))
    ensures Roles(job) != [] ==>
      (RoleMatch(resume, job) == 0 <==> forall t :: t in Roles(job) ==> !Contains(resume, t))
  {
    var jobRoles := Roles(job);
    var resumeRoles := Roles(resume);
    if jobRoles != [] {
      var m := CountIn(jobRoles, resumeRoles);
      ShareFull(m, |jobRoles|, 20);
      assert forall t :: t in jobRoles ==> (t in resumeRoles <==> Contains(resume, t));
      RolesAtMostSeven(job);
      if m > 0 {
        assert m * 20 >= |jobRoles|;
      }
    }
  }

  /** At most the seven role words can be found. */
  lemma RolesAtMostSeven(text: string)
    ensures |Roles(text)| <= 7
  {
    RoleVocabularyDistinct();
    SubsequenceNoLonger(Roles(text), RoleVocabulary);
  }

  lemma {:induction false} SubsequenceNoLonger(a: seq<string>, b: seq<string>)
    requires IsSubsequence(a, b)
    ensures |a| <= |b|
    decreases |b|
  {
    if a != [] && b != [] {
      if a[|a| - 1] == b[|b| - 1] && IsSubsequence(a[..|a| - 1], b[..|b| - 1]) {
        SubsequenceNoLonger(a[..|a| - 1], b[..|b| - 1]);
      } else {
        SubsequenceNoLonger(a, b[..|b| - 1]);
      }
    }
  }

  /** The skill sub-score: 10 without required skills, else at most 30, and 30 exactly when the resume has them all. */
  lemma SkillsMatchRange(resume: string, job: string)
    ensures HardSkills(job) == [] ==> SkillsMatch(resume, job) == 10
    ensures HardSkills(job) != [] ==> SkillsMatch(resume, job) <= 30
    ensures HardSkills(job) != [] ==>
      (SkillsMatch(resume, job) == 30 <==> forall t :: t in HardSkills(job) ==> Contains(resume, t))
    ensures (forall t :: t in HardSkills(job) ==> !Contains(resume, t)) && HardSkills(job) != [] ==>
      SkillsMatch(resume, job) == 0
  {
    var required := HardSkills(job);
    if required != [] {
      ShareFull(CountContained(required, resume), |required|, 30);
    }
  }

  /** The experience tier is one of 0, 5, 10, 15, 20; it is 5 when the job asks for no years, else 20 exactly when the resume has enough. */
  lemma ExperienceTierRange(jobYears: int, resumeYears: int)
    ensures ExperienceTier(jobYears, resumeYears) in {0, 5, 10, 15, 20}
    ensures jobYears == 0 ==> ExperienceTier(jobYears, resumeYears) == 5
    ensures jobYears != 0 ==> (ExperienceTier(jobYears, resumeYears) == 20 <==> resumeYears >= jobYears)
  {
  }

  /** The tiers drop by 5 for each missing year, down to 0 at four or more years short. */
  lemma ExperienceTierByShortfall(jobYears: int, resumeYears: int)
    requires jobYears != 0
    ensures ExperienceTier(jobYears, resumeYears) == 5 * (4 - Min(4, Max(0, jobYears - resumeYears)))
  {
  }

  /** More years on the resume never lower the tier. */
  lemma ExperienceTierMonotone(jobYears: int, resumeYears1: int, resumeYears2: int)
    requires resumeYears1 <= resumeYears2
    ensures ExperienceTier(jobYears, resumeYears1) <= ExperienceTier(jobYears, resumeYears2)
  {
    if jobYears != 0 {
      ExperienceTierByShortfall(jobYears, resumeYears1);
      ExperienceTierByShortfall(jobYears, resumeYears2);
    }
  }

  /** The education sub-score: 5 without requirements, else a multiple of 5 up to 15, full when every required level is held. */
  lemma EducationMatchRange(resume: string, job: string)
    ensures EducationRequirements(job) == [] ==> EducationMatch(resume, job) == 5
    ensures EducationMatch(resume, job) <= 15 && EducationMatch(resume, job) % 5 == 0
    ensures EducationRequirements(job) != [] ==>
      (EducationMatch(resume, job) == 5 * |EducationRequirements(job)| <==>
        forall e :: e in EducationRequirements(job) ==> e in EducationFromResume(resume))
    ensures EducationRequirements(job) != [] ==>
      (EducationMatch(resume, job) == 0 <==>
        forall e :: e in EducationRequirements(job) ==> e !in EducationFromResume(resume))
  {
    var required := EducationRequirements(job);
    var held := EducationFromResume(resume);
    if required != [] {
      var m := CountIn(required, held);
      assert m <= |required| <= 3;
      assert EducationMatch(resume, job) == 5 * m;
      assert 5 * m == 5 * |required| <==> m == |required|;
    }
  }

  /** The keyword sub-score: 5 without job keywords, else at most 20, and 20 exactly when the resume contains them all. */
  lemma KeywordMatchRange(resume: string, job: string)
    ensures JobKeywords(job) == [] ==> KeywordMatch(resume, job) == 5
    ensures JobKeywords(job) != [] ==> KeywordMatch(resume, job) <= 20
    ensures JobKeywords(job) != [] ==>
      (KeywordMatch(resume, job) == 20 <==> forall w :: w in JobKeywords(job) ==> Contains(resume, w))
  {
    var keywords := JobKeywords(job);
    if keywords != [] {
      ShareFull(CountContained(keywords, resume), |keywords|, 20);
    }
  }

  /** The lower clamp never applies: the raw total is at least the base 30, so only the cap at 95 can change it. */
  lemma LowerClampUnused(resume: string, job: string)
    ensures RawScore(resume, job) >= BaseScore
    ensures StrictScore(resume, job) == Min(RawScore(resume, job), MaxScore)
  {
  }

  /**
   * A job that yields no role, no skill, no years, no education level and
   * no keyword scores 60 whatever the resume: 30 + 5 + 10 + 5 + 5 + 5.
   */
  lemma DegenerateJobScoresSixty(resume: string, job: string)
    requires Roles(job) == [] && HardSkills(job) == [] && YearsFromText(job) == 0
    requires EducationRequirements(job) == [] && JobKeywords(job) == []
    ensures StrictScore(resume, job) == 60
  {
  }
}
