/**
 * The report of the local analysis: the score band, the assessment
 * sentence, the feedback lines and the list of critical missing terms.
 * The emoji prefixes are kept as the controller's source text holds them
 * (UTF-8 emoji re-read as Mac Roman), so each line is the exact string the
 * controller produces.
 */
module Feedback {
  import opened Text
  import opened Extractors
  import opened Years
  import opened Scorer

  // ---------------------------------------------------------------------
  // Score bands

  /** The four bands shared by the band line of the feedback and the assessment sentence. */
  datatype Band = Good | Moderate | Weak | Poor

  /** The band of a score: 75 and above, 60 to 74, 40 to 59, below 40. */
  function BandOf(score: int): (b: Band)
    ensures b == Good <==> 75 <= score
    ensures b == Moderate <==> 60 <= score < 75
    ensures b == Weak <==> 40 <= score < 60
    ensures b == Poor <==> score < 40
  {
    if score >= 75 then Good
    else if score >= 60 then Moderate
    else if score >= 40 then Weak
    else Poor
  }

  function Rank(b: Band): nat {
    match b
    case Poor => 0
    case Weak => 1
    case Moderate => 2
    case Good => 3
  }

  /** A higher score never falls into a lower band. */
  lemma BandMonotone(s1: int, s2: int)
    requires s1 <= s2
    ensures Rank(BandOf(s1)) <= Rank(BandOf(s2))
  {
  }

  function AssessmentText(b: Band): string {
    match b
    case Good => "Good alignment with most key requirements"
    case Moderate => "Moderate match with some important skills present"
    case Weak => "Weak match requiring substantial improvements"
    case Poor => "Poor alignment - consider different roles or major resume overhaul"
  }

  /** GetStrictAssessment: the sentence of the score's band. */
  function GetStrictAssessment(score: int): (r: string)
    ensures r == AssessmentText(BandOf(score))
  {
    if score >= 75 then "Good alignment with most key requirements"
    else if score >= 60 then "Moderate match with some important skills present"
    else if score >= 40 then "Weak match requiring substantial improvements"
    else "Poor alignment - consider different roles or major resume overhaul"
  }

  /** The four sentences are different, so two scores get the same sentence exactly when they are in the same band. */
  lemma AssessmentIdentifiesBand(s1: int, s2: int)
    ensures GetStrictAssessment(s1) == GetStrictAssessment(s2) <==> BandOf(s1) == BandOf(s2)
  {
    if BandOf(s1) != BandOf(s2) {
      assert AssessmentText(BandOf(s1)) != AssessmentText(BandOf(s2));
    }
  }

  // ---------------------------------------------------------------------
  // Feedback lines

  // The emoji prefix of each kind of line, as the controller's source text spells it.
  const TargetMark: string := "\U{F8FF}\U{FC}\U{E9}\U{D8}"
  const ChartMark: string := "\U{F8FF}\U{FC}\U{EC}\U{E4}"
  const CheckMark: string := "\U{201A}\U{FA}\U{D6}"
  const WarningMark: string := "\U{201A}\U{F6}\U{2020}\U{D4}\U{220F}\U{E8}"
  const DiamondMark: string := "\U{F8FF}\U{FC}\U{EE}\U{2202}"
  const SirenMark: string := "\U{F8FF}\U{FC}\U{F6}\U{AE}"
  const WrenchMark: string := "\U{F8FF}\U{FC}\U{EE}\U{DF}"
  const BulletMark: string := "   \U{201A}\U{C4}\U{A2} "
  const ClockMark: string := "\U{201A}\U{E8}\U{221E}"
  const MasksMark: string := "\U{F8FF}\U{FC}\U{E9}\U{2260}"
  const BulbMark: string := "\U{F8FF}\U{FC}\U{ED}\U{B0}"

  const Title: string := TargetMark + " **STRICT Resume Analysis**"
  const ScorePrefix: string := ChartMark + " **Match Score: "
  const GoodLine: string := CheckMark + " **Good Match** - Meets key requirements"
  const ModerateLine: string := WarningMark + " **Moderate Match** - Some gaps need addressing"
  const WeakLine: string := DiamondMark + " **Weak Match** - Significant improvements needed"
  const PoorLine: string := SirenMark + " **Poor Match** - Major skill/experience gaps"
  const SkillsHeading: string := WrenchMark + " **Missing Hard Skills:**"
  const GapPrefix: string := ClockMark + " **Experience Gap:** Requires "
  const RoleHeading: string := MasksMark + " **Role Alignment:**"
  const Recommendation: string :=
    BulbMark + " **Recommendation:** Focus on the specific missing skills and requirements above"

  function ScoreLine(score: int): string {
    ScorePrefix + IntToString(score) + "%**"
  }

  function BandLine(b: Band): string {
    match b
    case Good => GoodLine
    case Moderate => ModerateLine
    case Weak => WeakLine
    case Poor => PoorLine
  }

  function Bullet(item: string): string {
    BulletMark + item
  }

  function Bullets(items: seq<string>): (r: seq<string>)
    ensures |r| == |items|
    ensures forall k :: 0 <= k < |items| ==> r[k] == Bullet(items[k])
  {
    if items == [] then [] else Bullets(items[..|items| - 1]) + [Bullet(items[|items| - 1])]
  }

  function GapLine(jobYears: int, resumeYears: int): string {
    GapPrefix + IntToString(jobYears) + "+ years, you have ~" + IntToString(resumeYears)
  }

  // ---------------------------------------------------------------------
  // Filters

  /** The items `text` does not contain, in order (LINQ `Where(x => !text.Contains(x))`). */
  function Absent(items: seq<string>, text: string): (r: seq<string>)
    ensures forall t :: t in r <==> t in items && !Contains(text, t)
    ensures IsSubsequence(r, items)
  {
    if items == [] then []
    else
      var last := items[|items| - 1];
      var front := items[..|items| - 1];
      var p := Absent(front, text);
      var r := p + (if Contains(text, last) then [] else [last]);
      assert forall t :: t in items <==> t in front || t == last;
      assert !Contains(text, last) ==> r[..|r| - 1] == p;
      assert Contains(text, last) ==> r == p;
      r
  }

  /** LINQ `a.Except(b)`: the distinct elements of `a` that are not in `b`, in order of first occurrence. */
  function Except(a: seq<string>, b: seq<string>): (r: seq<string>)
    ensures forall t :: t in r <==> t in a && t !in b
    ensures NoDuplicates(r)
  {
    DistinctNoDuplicates(Outside(a, b));
    Distinct(Outside(a, b))
  }

  function Outside(a: seq<string>, b: seq<string>): (r: seq<string>)
    ensures forall t :: t in r <==> t in a && t !in b
  {
    if a == [] then []
    else
      var last := a[|a| - 1];
      assert forall t :: t in a <==> t in a[..|a| - 1] || t == last;
      Outside(a[..|a| - 1], b) + (if last in b then [] else [last])
  }

  // ---------------------------------------------------------------------
  // GenerateStrictFeedback

  /** The hard skills of the job missing from the resume, at most five, in vocabulary order. */
  function MissingSkills(resumeLower: string, jobLower: string): (r: seq<string>)
    ensures |r| <= 5
    ensures forall t :: t in r ==> t in HardSkillVocabulary && Contains(jobLower, t) && !Contains(resumeLower, t)
  {
    Take(Absent(HardSkills(jobLower), resumeLower), 5)
  }

  /** The job roles the resume does not name, at most three. */
  function RoleGaps(resumeLower: string, jobLower: string): (r: seq<string>)
    ensures |r| <= 3
    ensures forall t :: t in r ==> t in Roles(jobLower) && t !in Roles(resumeLower)
  {
    Take(Except(Roles(jobLower), Roles(resumeLower)), 3)
  }

  /** The missing-skill bullets keep the order of the hard-skill vocabulary. */
  lemma MissingSkillsInVocabularyOrder(resumeLower: string, jobLower: string)
    ensures IsSubsequence(MissingSkills(resumeLower, jobLower), HardSkillVocabulary)
  {
    var absent := Absent(HardSkills(jobLower), resumeLower);
    HardSkillsInVocabularyOrder(jobLower);
    SubsequenceTransitive(absent, HardSkills(jobLower), HardSkillVocabulary);
    var m := MissingSkills(resumeLower, jobLower);
    assert m == absent[..|m|];
    SubsequencePrefix(absent, HardSkillVocabulary, |m|);
  }

  /** The vocabulary terms a job text contains and a resume lacks are the job's terms the resume lacks. */
  lemma {:induction false} AbsentFromPresent(vocab: seq<string>, resumeLower: string, jobLower: string)
    ensures Absent(Present(vocab, jobLower), resumeLower) == MissingFrom(vocab, resumeLower, jobLower)
  {
    if vocab != [] {
      var last := vocab[|vocab| - 1];
      var front := vocab[..|vocab| - 1];
      AbsentFromPresent(front, resumeLower, jobLower);
      var p := Present(front, jobLower);
      var m := MissingFrom(front, resumeLower, jobLower);
      assert Absent(p, resumeLower) == m;
      if Contains(jobLower, last) {
        var q := p + [last];
        assert Present(vocab, jobLower) == q;
        assert q[..|q| - 1] == p && q[|q| - 1] == last;
        assert Absent(q, resumeLower) == m + (if Contains(resumeLower, last) then [] else [last]);
      } else {
        assert Present(vocab, jobLower) == p;
      }
    }
  }

  /**
   * The missing-skill bullets list the first five hard-skill terms, in
   * vocabulary order, that the job contains and the resume lacks: all of
   * them when there are at most five, exactly five otherwise.
   */
  lemma MissingSkillsAreFirstFive(resumeLower: string, jobLower: string)
    ensures MissingSkills(resumeLower, jobLower) == Take(MissingFrom(HardSkillVocabulary, resumeLower, jobLower), 5)
    ensures |MissingFrom(HardSkillVocabulary, resumeLower, jobLower)| <= 5 ==>
      forall t :: t in HardSkillVocabulary && Contains(jobLower, t) && !Contains(resumeLower, t) ==>
        t in MissingSkills(resumeLower, jobLower)
    ensures |MissingFrom(HardSkillVocabulary, resumeLower, jobLower)| > 5 ==> |MissingSkills(resumeLower, jobLower)| == 5
  {
    AbsentFromPresent(HardSkillVocabulary, resumeLower, jobLower);
  }

  function Opening(score: int): seq<string> {
    [Title, ScoreLine(score), "", BandLine(BandOf(score)), ""]
  }

  function SkillsSection(missing: seq<string>): seq<string> {
    if missing == [] then [] else [SkillsHeading] + Bullets(missing) + [""]
  }

  function GapSection(jobYears: int, resumeYears: int): seq<string> {
    if jobYears > 0 && resumeYears < jobYears then [GapLine(jobYears, resumeYears), ""] else []
  }

  function RoleSection(gaps: seq<string>, jobRoles: seq<string>, resumeRoles: seq<string>): seq<string> {
    if gaps == [] then []
    else
      [ RoleHeading,
        Bullet("Target roles: " + Join(", ", jobRoles)),
        Bullet("Your roles: " + Join(", ", Take(resumeRoles, 3))),
        "" ]
  }

  /** The feedback lines, from the values the sections are built of. */
  function Assemble(score: int, missing: seq<string>, jobYears: int, resumeYears: int,
                    gaps: seq<string>, jobRoles: seq<string>, resumeRoles: seq<string>): seq<string> {
    Opening(score) + SkillsSection(missing) + GapSection(jobYears, resumeYears)
      + RoleSection(gaps, jobRoles, resumeRoles) + [Recommendation]
  }

  /** The feedback GenerateStrictFeedback returns for the original texts and the score. */
  function StrictFeedback(resumeText: string, jobDescription: string, score: int): (r: seq<string>)
    ensures 6 <= |r| && r[..5] == Opening(score) && r[|r| - 1] == Recommendation
  {
    var resumeLower := ToLower(resumeText);
    var jobLower := ToLower(jobDescription);
    var missing := MissingSkills(resumeLower, jobLower);
    var jobYears, resumeYears := YearsFromText(jobLower), YearsFromText(resumeLower);
    var gaps, jobRoles, resumeRoles := RoleGaps(resumeLower, jobLower), Roles(jobLower), Roles(resumeLower);
    AssembleLength(score, missing, jobYears, resumeYears, gaps, jobRoles, resumeRoles);
    Assemble(score, missing, jobYears, resumeYears, gaps, jobRoles, resumeRoles)
  }

  /**
   * GenerateStrictFeedback: the heading and score lines, the band line,
   * then a section per kind of gap found, then the recommendation.
   */
  method GenerateStrictFeedback(resumeText: string, jobDescription: string, score: int)
    returns (feedback: seq<string>)
    ensures feedback == StrictFeedback(resumeText, jobDescription, score)
  {
    feedback := [Title, ScoreLine(score), ""];
    var resumeLower := ToLower(resumeText);
    var jobLower := ToLower(jobDescription);
    feedback := AddBand(feedback, score);
    assert feedback == Opening(score);

    var jobSkills := ExtractHardSkills(jobLower);
    var missing := Take(Absent(jobSkills, resumeLower), 5);
    feedback := AddMissingSkills(feedback, missing);

    var jobYears := ExtractYearsFromText(jobLower);
    var resumeYears := ExtractYearsFromText(resumeLower);
    feedback := AddExperienceGap(feedback, jobYears, resumeYears);

    var jobRoles := ExtractRoles(jobLower);
    var resumeRoles := ExtractRoles(resumeLower);
    var roleGaps := Take(Except(jobRoles, resumeRoles), 3);
    feedback := AddRoleAlignment(feedback, roleGaps, jobRoles, resumeRoles);

    feedback := feedback + [Recommendation];
    assert feedback == Assemble(score, missing, jobYears, resumeYears, roleGaps, jobRoles, resumeRoles);
  }

  /** The band line for the score, then a blank line. */
  method AddBand(lines: seq<string>, score: int) returns (feedback: seq<string>)
    ensures feedback == lines + [BandLine(BandOf(score)), ""]
  {
    if score >= 75 {
      feedback := lines + [GoodLine];
    } else if score >= 60 {
      feedback := lines + [ModerateLine];
    } else if score >= 40 {
      feedback := lines + [WeakLine];
    } else {
      feedback := lines + [PoorLine];
    }
    feedback := feedback + [""];
  }

  /** The missing-skills section: a heading, one bullet per skill, a blank line; nothing when no skill is missing. */
  method AddMissingSkills(lines: seq<string>, missing: seq<string>) returns (feedback: seq<string>)
    ensures feedback == lines + SkillsSection(missing)
  {
    feedback := lines;
    if missing != [] {
      var head := lines + [SkillsHeading];
      feedback := head;
      for k := 0 to |missing|
        invariant feedback == head + Bullets(missing[..k])
      {
        BulletsSnoc(missing, k);
        feedback := feedback + [Bullet(missing[k])];
      }
      assert missing[..|missing|] == missing;
      feedback := feedback + [""];
      Regroup(lines, SkillsHeading, Bullets(missing), "");
    }
  }

  lemma BulletsSnoc(items: seq<string>, k: nat)
    requires k < |items|
    ensures Bullets(items[..k + 1]) == Bullets(items[..k]) + [Bullet(items[k])]
  {
    assert items[..k + 1][..k] == items[..k];
  }

  lemma Regroup<T>(a: seq<T>, x: T, b: seq<T>, y: T)
    ensures a + [x] + b + [y] == a + ([x] + b + [y])
  {
  }

  /** The experience-gap line and a blank line, when the job asks for more years than the resume shows. */
  method AddExperienceGap(lines: seq<string>, jobYears: int, resumeYears: int) returns (feedback: seq<string>)
    ensures feedback == lines + GapSection(jobYears, resumeYears)
  {
    feedback := lines;
    if jobYears > 0 && resumeYears < jobYears {
      feedback := feedback + [GapLine(jobYears, resumeYears)];
      feedback := feedback + [""];
    }
  }

  /** The role section: a heading, the job's roles, the resume's first three roles, a blank line; nothing without a gap. */
  method AddRoleAlignment(lines: seq<string>, roleGaps: seq<string>, jobRoles: seq<string>, resumeRoles: seq<string>)
    returns (feedback: seq<string>)
    ensures feedback == lines + RoleSection(roleGaps, jobRoles, resumeRoles)
  {
    feedback := lines;
    if roleGaps != [] {
      feedback := feedback + [RoleHeading];
      feedback := feedback + [Bullet("Target roles: " + Join(", ", jobRoles))];
      feedback := feedback + [Bullet("Your roles: " + Join(", ", Take(resumeRoles, 3)))];
      feedback := feedback + [""];
    }
  }

  lemma AssembleLength(score: int, missing: seq<string>, jobYears: int, resumeYears: int,
                       gaps: seq<string>, jobRoles: seq<string>, resumeRoles: seq<string>)
    requires |missing| <= 5
    ensures 6 <= |Assemble(score, missing, jobYears, resumeYears, gaps, jobRoles, resumeRoles)| <= 19
    ensures Assemble(score, missing, jobYears, resumeYears, gaps, jobRoles, resumeRoles)[..5] == Opening(score)
    ensures var f := Assemble(score, missing, jobYears, resumeYears, gaps, jobRoles, resumeRoles);
      f[|f| - 1] == Recommendation
  {
  }

  /** Between 6 lines (no gap of any kind) and 19 (five missing skills, a years gap and a role gap). */
  lemma FeedbackLength(resumeText: string, jobDescription: string, score: int)
    ensures 6 <= |StrictFeedback(resumeText, jobDescription, score)| <= 19
    ensures StrictFeedback(resumeText, jobDescription, score)[..5] == Opening(score)
    ensures StrictFeedback(resumeText, jobDescription, score)[|StrictFeedback(resumeText, jobDescription, score)| - 1]
      == Recommendation
  {
    var resumeLower := ToLower(resumeText);
    var jobLower := ToLower(jobDescription);
    AssembleLength(score, MissingSkills(resumeLower, jobLower),
      YearsFromText(jobLower), YearsFromText(resumeLower),
      RoleGaps(resumeLower, jobLower), Roles(jobLower), Roles(resumeLower));
  }

  // ---------------------------------------------------------------------
  // FindCriticalMissingKeywords

  /** The terms FindCriticalMissingKeywords looks for: the first 24 hard-skill terms. */
  const ImportantTerms: seq<string> :=
    [ "python", "java", "javascript", "c#", "c++", "sql", "react", "angular", "vue",
      "aws", "azure", "docker", "kubernetes", "jenkins", "git", "rest", "api",
      "machine learning", "ai", "data analysis", "cloud", "devops", "agile", "scrum" ]

  lemma ImportantTermsAreHardSkills()
    ensures ImportantTerms == HardSkillVocabulary[..24]
  {
  }

  /** The terms the job text contains and the resume text does not, in the order of `terms`. */
  function MissingFrom(terms: seq<string>, resumeLower: string, jobLower: string): (r: seq<string>)
    ensures forall t :: t in r <==> t in terms && Contains(jobLower, t) && !Contains(resumeLower, t)
    ensures IsSubsequence(r, terms)
  {
    if terms == [] then []
    else
      var last := terms[|terms| - 1];
      var front := terms[..|terms| - 1];
      var p := MissingFrom(front, resumeLower, jobLower);
      var keep := Contains(jobLower, last) && !Contains(resumeLower, last);
      var r := p + (if keep then [last] else []);
      assert forall t :: t in terms <==> t in front || t == last;
      assert keep ==> r[..|r| - 1] == p;
      assert !keep ==> r == p;
      r
  }

  /** The list FindCriticalMissingKeywords returns for the lower-cased texts. */
  function CriticalMissing(resumeLower: string, jobLower: string): (r: seq<string>)
    ensures |r| <= 8
    ensures forall t :: t in r ==> t in ImportantTerms && Contains(jobLower, t) && !Contains(resumeLower, t)
  {
    Take(Distinct(MissingFrom(ImportantTerms, resumeLower, jobLower)), 8)
  }

  /**
   * FindCriticalMissingKeywords: lower-cases both texts, collects the
   * important terms the job mentions and the resume lacks, drops repeats
   * and keeps the first eight.
   */
  method FindCriticalMissingKeywords(resumeText: string, jobDescription: string) returns (terms: seq<string>)
    ensures terms == CriticalMissing(ToLower(resumeText), ToLower(jobDescription))
  {
    var resumeLower := ToLower(resumeText);
    var jobLower := ToLower(jobDescription);
    var missing: seq<string> := [];
    for k := 0 to |ImportantTerms|
      invariant missing == MissingFrom(ImportantTerms[..k], resumeLower, jobLower)
    {
      var term := ImportantTerms[k];
      if Contains(jobLower, term) && !Contains(resumeLower, term) {
        missing := missing + [term];
      }
      assert ImportantTerms[..k + 1][..k] == ImportantTerms[..k];
    }
    assert ImportantTerms[..|ImportantTerms|] == ImportantTerms;
    terms := Take(Distinct(missing), 8);
  }

  /**
   * At most eight terms, none repeated, each an important term the job
   * contains and the resume lacks; when no more than eight qualify, all of
   * them are listed.
   */
  lemma CriticalMissingSound(resumeLower: string, jobLower: string)
    ensures |CriticalMissing(resumeLower, jobLower)| <= 8
    ensures NoDuplicates(CriticalMissing(resumeLower, jobLower))
    ensures forall t :: t in CriticalMissing(resumeLower, jobLower) ==>
      t in ImportantTerms && Contains(jobLower, t) && !Contains(resumeLower, t)
    ensures |Distinct(MissingFrom(ImportantTerms, resumeLower, jobLower))| <= 8 ==>
      forall t :: t in ImportantTerms && Contains(jobLower, t) && !Contains(resumeLower, t) ==>
        t in CriticalMissing(resumeLower, jobLower)
  {
    var d := Distinct(MissingFrom(ImportantTerms, resumeLower, jobLower));
    DistinctNoDuplicates(MissingFrom(ImportantTerms, resumeLower, jobLower));
    var c := CriticalMissing(resumeLower, jobLower);
    assert c == d[..|c|];
    forall t | t in c ensures t in d {
      var i :| 0 <= i < |c| && c[i] == t;
      assert d[i] == t;
    }
  }

  lemma {:induction false} MissingFromNoDuplicates(terms: seq<string>, resumeLower: string, jobLower: string)
    requires NoDuplicates(terms)
    ensures NoDuplicates(MissingFrom(terms, resumeLower, jobLower))
  {
    if terms != [] {
      var front := terms[..|terms| - 1];
      assert NoDuplicates(front);
      MissingFromNoDuplicates(front, resumeLower, jobLower);
      assert terms[|terms| - 1] !in front;
    }
  }

  /** The critical missing terms keep the order of the important-term list. */
  lemma CriticalMissingInVocabularyOrder(resumeLower: string, jobLower: string)
    ensures IsSubsequence(CriticalMissing(resumeLower, jobLower), ImportantTerms)
  {
    var m := MissingFrom(ImportantTerms, resumeLower, jobLower);
    HardSkillVocabularyDistinct();
    ImportantTermsAreHardSkills();
    assert NoDuplicates(ImportantTerms);
    MissingFromNoDuplicates(ImportantTerms, resumeLower, jobLower);
    DistinctOfDistinct(m);
    var c := CriticalMissing(resumeLower, jobLower);
    assert c == m[..|c|];
    SubsequencePrefix(m, ImportantTerms, |c|);
  }

  /** Every critical missing term is one of the job's hard skills that the resume lacks. */
  lemma CriticalMissingAreMissingSkills(resumeLower: string, jobLower: string)
    ensures forall t :: t in CriticalMissing(resumeLower, jobLower) ==>
      t in HardSkills(jobLower) && t in Absent(HardSkills(jobLower), resumeLower)
  {
    CriticalMissingSound(resumeLower, jobLower);
    ImportantTermsAreHardSkills();
    forall t | t in CriticalMissing(resumeLower, jobLower)
      ensures t in HardSkillVocabulary
    {
      assert t in HardSkillVocabulary[..24];
    }
  }

  // ---------------------------------------------------------------------
  // Which sections the feedback holds

  /** Two lines that differ at some position are different lines. */
  lemma DifferAt(a: string, b: string, i: nat)
    requires i < |a| && i < |b| && a[i] != b[i]
    ensures a != b
  {
  }

  lemma SkillsHeadingNotOpening(score: int)
    ensures SkillsHeading !in Opening(score)
  {
    DifferAt(SkillsHeading, Title, 2);
    DifferAt(SkillsHeading, ScorePrefix + IntToString(score) + "%**", 2);
    DifferAt(SkillsHeading, GoodLine, 0);
    DifferAt(SkillsHeading, ModerateLine, 0);
    DifferAt(SkillsHeading, WeakLine, 3);
    DifferAt(SkillsHeading, PoorLine, 2);
  }

  lemma SkillsHeadingNotLater(jobYears: int, resumeYears: int,
                              gaps: seq<string>, jobRoles: seq<string>, resumeRoles: seq<string>)
    ensures SkillsHeading !in GapSection(jobYears, resumeYears)
    ensures SkillsHeading !in RoleSection(gaps, jobRoles, resumeRoles) + [Recommendation]
  {
    DifferAt(SkillsHeading, GapPrefix + IntToString(jobYears) + "+ years, you have ~" + IntToString(resumeYears), 0);
    DifferAt(SkillsHeading, RoleHeading, 2);
    DifferAt(SkillsHeading, BulletMark + "Target roles: " + Join(", ", jobRoles), 0);
    DifferAt(SkillsHeading, BulletMark + "Your roles: " + Join(", ", Take(resumeRoles, 3)), 0);
    DifferAt(SkillsHeading, Recommendation, 2);
  }

  lemma SkillsHeadingInSection(missing: seq<string>)
    ensures SkillsHeading in SkillsSection(missing) <==> missing != []
  {
    if missing != [] {
      assert SkillsSection(missing)[0] == SkillsHeading;
    }
  }

  /** The missing-skills heading appears exactly when some skill is missing. */
  lemma SkillsHeadingOnlyInItsSection(score: int, missing: seq<string>, jobYears: int, resumeYears: int,
                                      gaps: seq<string>, jobRoles: seq<string>, resumeRoles: seq<string>)
    ensures SkillsHeading in Assemble(score, missing, jobYears, resumeYears, gaps, jobRoles, resumeRoles)
      <==> missing != []
  {
    SkillsHeadingNotOpening(score);
    SkillsHeadingInSection(missing);
    SkillsHeadingNotLater(jobYears, resumeYears, gaps, jobRoles, resumeRoles);
    assert forall x :: x in Bullets(missing) ==> x != SkillsHeading by {
      forall x | x in Bullets(missing) ensures x != SkillsHeading {
        var k :| 0 <= k < |missing| && Bullets(missing)[k] == x;
        DifferAt(SkillsHeading, BulletMark + missing[k], 0);
      }
    }
  }

  // The years-gap line

  lemma GapLineNotOpening(score: int, jobYears: int, resumeYears: int)
    ensures GapLine(jobYears, resumeYears) !in Opening(score)
  {
    var g := GapPrefix + IntToString(jobYears) + "+ years, you have ~" + IntToString(resumeYears);
    DifferAt(g, Title, 0);
    DifferAt(g, ScorePrefix + IntToString(score) + "%**", 0);
    GapLineNotBandLine(jobYears, resumeYears, BandOf(score));
  }

  lemma GapLineNotBandLine(jobYears: int, resumeYears: int, b: Band)
    ensures GapLine(jobYears, resumeYears) != BandLine(b)
  {
    var g := GapPrefix + IntToString(jobYears) + "+ years, you have ~" + IntToString(resumeYears);
    match b
    case Good => DifferAt(g, GoodLine, 1);
    case Moderate => DifferAt(g, ModerateLine, 1);
    case Weak => DifferAt(g, WeakLine, 0);
    case Poor => DifferAt(g, PoorLine, 0);
  }

  lemma GapLineNotInSkills(missing: seq<string>, jobYears: int, resumeYears: int)
    ensures GapLine(jobYears, resumeYears) !in SkillsSection(missing)
  {
    var g := GapPrefix + IntToString(jobYears) + "+ years, you have ~" + IntToString(resumeYears);
    DifferAt(g, SkillsHeading, 0);
    forall k | 0 <= k < |missing| ensures Bullets(missing)[k] != g {
      DifferAt(g, BulletMark + missing[k], 0);
    }
  }

  lemma GapLineNotInRoles(jobYears: int, resumeYears: int,
                          gaps: seq<string>, jobRoles: seq<string>, resumeRoles: seq<string>)
    ensures GapLine(jobYears, resumeYears) !in RoleSection(gaps, jobRoles, resumeRoles) + [Recommendation]
  {
    var g := GapPrefix + IntToString(jobYears) + "+ years, you have ~" + IntToString(resumeYears);
    DifferAt(g, RoleHeading, 0);
    DifferAt(g, BulletMark + "Target roles: " + Join(", ", jobRoles), 0);
    DifferAt(g, BulletMark + "Your roles: " + Join(", ", Take(resumeRoles, 3)), 0);
    DifferAt(g, Recommendation, 0);
  }

  /** The years-gap line appears exactly when the job asks for years and the resume shows fewer. */
  lemma GapLineOnlyInItsSection(score: int, missing: seq<string>, jobYears: int, resumeYears: int,
                                gaps: seq<string>, jobRoles: seq<string>, resumeRoles: seq<string>)
    ensures GapLine(jobYears, resumeYears) in Assemble(score, missing, jobYears, resumeYears, gaps, jobRoles, resumeRoles)
      <==> 0 < jobYears && resumeYears < jobYears
  {
    GapLineNotOpening(score, jobYears, resumeYears);
    GapLineNotInSkills(missing, jobYears, resumeYears);
    GapLineNotInRoles(jobYears, resumeYears, gaps, jobRoles, resumeRoles);
    if 0 < jobYears && resumeYears < jobYears {
      assert GapSection(jobYears, resumeYears)[0] == GapLine(jobYears, resumeYears);
    }
  }

  // The role heading

  lemma RoleHeadingNotOpening(score: int)
    ensures RoleHeading !in Opening(score)
  {
    DifferAt(RoleHeading, Title, 3);
    DifferAt(RoleHeading, ScorePrefix + IntToString(score) + "%**", 2);
    DifferAt(RoleHeading, GoodLine, 0);
    DifferAt(RoleHeading, ModerateLine, 0);
    DifferAt(RoleHeading, WeakLine, 2);
    DifferAt(RoleHeading, PoorLine, 2);
  }

  lemma RoleHeadingNotElsewhere(missing: seq<string>, jobYears: int, resumeYears: int)
    ensures RoleHeading !in SkillsSection(missing)
    ensures RoleHeading !in GapSection(jobYears, resumeYears)
    ensures RoleHeading != Recommendation
  {
    DifferAt(RoleHeading, SkillsHeading, 2);
    forall k | 0 <= k < |missing| ensures Bullets(missing)[k] != RoleHeading {
      DifferAt(RoleHeading, BulletMark + missing[k], 0);
    }
    DifferAt(RoleHeading, GapPrefix + IntToString(jobYears) + "+ years, you have ~" + IntToString(resumeYears), 0);
    DifferAt(RoleHeading, Recommendation, 2);
  }

  /** The role heading appears exactly when some job role is missing from the resume. */
  lemma RoleHeadingOnlyInItsSection(score: int, missing: seq<string>, jobYears: int, resumeYears: int,
                                    gaps: seq<string>, jobRoles: seq<string>, resumeRoles: seq<string>)
    ensures RoleHeading in Assemble(score, missing, jobYears, resumeYears, gaps, jobRoles, resumeRoles)
      <==> gaps != []
  {
    RoleHeadingNotOpening(score);
    RoleHeadingNotElsewhere(missing, jobYears, resumeYears);
    if gaps != [] {
      assert RoleSection(gaps, jobRoles, resumeRoles)[0] == RoleHeading;
    } else {
      forall x | x in RoleSection(gaps, jobRoles, resumeRoles) + [Recommendation] ensures x != RoleHeading {
      }
    }
  }

  // ---------------------------------------------------------------------
  // The feedback agrees with the score

  /**
   * The missing-skills section is shown exactly when a hard skill of the
   * job is absent from the resume, which is exactly when the skills
   * sub-score of CalculateStrictScore falls short of its 30 points.
   */
  lemma FeedbackFlagsMissingSkills(resumeText: string, jobDescription: string, score: int)
    ensures SkillsHeading in StrictFeedback(resumeText, jobDescription, score) <==>
      exists t :: t in HardSkills(ToLower(jobDescription)) && !Contains(ToLower(resumeText), t)
    ensures SkillsHeading in StrictFeedback(resumeText, jobDescription, score) <==>
      HardSkills(ToLower(jobDescription)) != [] && SkillsMatch(ToLower(resumeText), ToLower(jobDescription)) < 30
  {
    var r, j := ToLower(resumeText), ToLower(jobDescription);
    var missing := MissingSkills(r, j);
    SkillsHeadingOnlyInItsSection(score, missing, YearsFromText(j), YearsFromText(r),
      RoleGaps(r, j), Roles(j), Roles(r));
    var absent := Absent(HardSkills(j), r);
    assert missing != [] <==> absent != [];
    if absent != [] {
      assert absent[0] in absent;
    }
    SkillsMatchRange(r, j);
  }

  /**
   * The experience-gap line is shown exactly when the job names a number
   * of years and the resume shows fewer, which is exactly when the
   * experience sub-score falls short of its 20 points for such a job.
   */
  lemma FeedbackFlagsExperienceGap(resumeText: string, jobDescription: string, score: int)
    ensures (GapLine(YearsFromText(ToLower(jobDescription)), YearsFromText(ToLower(resumeText)))
               in StrictFeedback(resumeText, jobDescription, score)) <==>
      0 < YearsFromText(ToLower(jobDescription)) && YearsFromText(ToLower(resumeText)) < YearsFromText(ToLower(jobDescription))
    ensures (GapLine(YearsFromText(ToLower(jobDescription)), YearsFromText(ToLower(resumeText)))
               in StrictFeedback(resumeText, jobDescription, score)) <==>
      YearsFromText(ToLower(jobDescription)) != 0 && ExperienceMatch(ToLower(resumeText), ToLower(jobDescription)) < 20
  {
    var r, j := ToLower(resumeText), ToLower(jobDescription);
    GapLineOnlyInItsSection(score, MissingSkills(r, j), YearsFromText(j), YearsFromText(r),
      RoleGaps(r, j), Roles(j), Roles(r));
    ExperienceTierRange(YearsFromText(j), YearsFromText(r));
  }

  /**
   * The role section is shown exactly when a role word of the job is
   * missing from the resume, which is exactly when the role sub-score
   * falls short of its 20 points.
   */
  lemma FeedbackFlagsRoleGap(resumeText: string, jobDescription: string, score: int)
    ensures RoleHeading in StrictFeedback(resumeText, jobDescription, score) <==>
      exists t :: t in Roles(ToLower(jobDescription)) && !Contains(ToLower(resumeText), t)
    ensures RoleHeading in StrictFeedback(resumeText, jobDescription, score) <==>
      Roles(ToLower(jobDescription)) != [] && RoleMatch(ToLower(resumeText), ToLower(jobDescription)) < 20
  {
    var r, j := ToLower(resumeText), ToLower(jobDescription);
    var gaps := RoleGaps(r, j);
    RoleHeadingOnlyInItsSection(score, MissingSkills(r, j), YearsFromText(j), YearsFromText(r),
      gaps, Roles(j), Roles(r));
    var except := Except(Roles(j), Roles(r));
    assert gaps != [] <==> except != [];
    if except != [] {
      assert except[0] in except;
    }
    RoleMatchRange(r, j);
  }
}
