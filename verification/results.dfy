/**
 * The two records of the analysis: the result shown to the user and the
 * object the provider's JSON reply is decoded into, each with the values
 * its fields start with.
 */
module Results {
  import opened Wrappers

  /** The analysis shown on the result page (the creation date is not modelled). */
  datatype ResumeAnalysisResult = ResumeAnalysisResult(
    score: int,
    matchPercentage: int,
    feedback: seq<string>,
    keywordMatches: seq<string>,
    strengths: seq<string>,
    improvements: seq<string>,
    assessment: string,
    isAIEnhanced: bool,
    fileName: string,
    jobDescription: string,
    analysisSource: string)

  const DefaultFileName: string := "Resume"
  const DefaultSource: string := "AI Analysis"

  /** `new ResumeAnalysisResult()`: every field at its initializer. */
  function NewResult(): (r: ResumeAnalysisResult)
    ensures r.feedback == [] && r.keywordMatches == [] && r.strengths == [] && r.improvements == []
    ensures r.assessment == ""
    ensures r.score == 0 && r.matchPercentage == 0
    ensures !r.isAIEnhanced
    ensures r.fileName == DefaultFileName && r.jobDescription == "" && r.analysisSource == DefaultSource
  {
    ResumeAnalysisResult(0, 0, [], [], [], [], "", false, DefaultFileName, "", DefaultSource)
  }

  /**
   * The decoded reply. The list and string members are references that a
   * JSON `null` sets to null, written here as `None`; the two integers
   * cannot hold null.
   */
  datatype OpenRouterAnalysis = OpenRouterAnalysis(
    score: int,
    matchPercentage: int,
    feedback: Option<seq<string>>,
    missingKeywords: Option<seq<string>>,
    strengths: Option<seq<string>>,
    improvements: Option<seq<string>>,
    assessment: Option<string>)

  /** `new OpenRouterAnalysis()`: zero scores, empty lists, empty assessment. */
  function NewOpenRouterAnalysis(): (a: OpenRouterAnalysis)
    ensures a.score == 0 && a.matchPercentage == 0
    ensures a.feedback == Some([]) && a.missingKeywords == Some([])
    ensures a.strengths == Some([]) && a.improvements == Some([])
    ensures a.assessment == Some("")
  {
    OpenRouterAnalysis(0, 0, Some([]), Some([]), Some([]), Some([]), Some(""))
  }

  /** One member of the JSON object being decoded: left out, an explicit `null`, or a value. */
  datatype Member<T> = Absent | Null | Given(value: T)

  /** The members of the reply object that name fields of OpenRouterAnalysis. */
  datatype ReplyObject = ReplyObject(
    score: Member<int>,
    matchPercentage: Member<int>,
    feedback: Member<seq<string>>,
    missingKeywords: Member<seq<string>>,
    strengths: Member<seq<string>>,
    improvements: Member<seq<string>>,
    assessment: Member<string>)

  /**
   * The value a reference field ends up with: its initializer when the
   * member is left out, null for `null`, otherwise the member's value.
   */
  function Assign<T>(m: Member<T>, initial: T): (r: Option<T>)
    ensures m.Absent? ==> r == Some(initial)
    ensures m.Null? ==> r.None?
    ensures m.Given? ==> r == Some(m.value)
  {
    match m
    case Absent => Some(initial)
    case Null => None
    case Given(v) => Some(v)
  }

  /** The value an integer field ends up with; `null` cannot be stored and fails the decoding. */
  function AssignInt(m: Member<int>, initial: int): (r: Option<int>)
    ensures r.None? <==> m.Null?
    ensures m.Absent? ==> r == Some(initial)
    ensures m.Given? ==> r == Some(m.value)
  {
    match m
    case Absent => Some(initial)
    case Null => None
    case Given(v) => Some(v)
  }

  /**
   * Deserializing a reply object: start from `new OpenRouterAnalysis()` and
   * set each member the object carries. `None` when an integer member is
   * `null`, which the serializer rejects.
   */
  function Populate(o: ReplyObject): (r: Option<OpenRouterAnalysis>)
    ensures r.Some? <==> !o.score.Null? && !o.matchPercentage.Null?
  {
    var init := NewOpenRouterAnalysis();
    match (AssignInt(o.score, init.score), AssignInt(o.matchPercentage, init.matchPercentage))
    case (Some(s), Some(m)) =>
      Some(OpenRouterAnalysis(s, m,
        Assign(o.feedback, init.feedback.value),
        Assign(o.missingKeywords, init.missingKeywords.value),
        Assign(o.strengths, init.strengths.value),
        Assign(o.improvements, init.improvements.value),
        Assign(o.assessment, init.assessment.value)))
    case _ => None
  }

  /** A member left out of the reply keeps the initializer of its field. */
  lemma MissingMembersKeepInitializers(o: ReplyObject)
    requires Populate(o).Some?
    ensures o.score.Absent? ==> Populate(o).value.score == 0
    ensures o.matchPercentage.Absent? ==> Populate(o).value.matchPercentage == 0
    ensures o.feedback.Absent? ==> Populate(o).value.feedback == Some([])
    ensures o.missingKeywords.Absent? ==> Populate(o).value.missingKeywords == Some([])
    ensures o.strengths.Absent? ==> Populate(o).value.strengths == Some([])
    ensures o.improvements.Absent? ==> Populate(o).value.improvements == Some([])
    ensures o.assessment.Absent? ==> Populate(o).value.assessment == Some("")
  {
  }

  /** A member the reply carries is copied as it is, and `null` leaves a null reference. */
  lemma GivenMembersAreCopied(o: ReplyObject)
    requires Populate(o).Some?
    ensures o.score.Given? ==> Populate(o).value.score == o.score.value
    ensures o.matchPercentage.Given? ==> Populate(o).value.matchPercentage == o.matchPercentage.value
    ensures o.feedback.Given? ==> Populate(o).value.feedback == Some(o.feedback.value)
    ensures o.feedback.Null? ==> Populate(o).value.feedback.None?
    ensures o.missingKeywords.Given? ==> Populate(o).value.missingKeywords == Some(o.missingKeywords.value)
    ensures o.missingKeywords.Null? ==> Populate(o).value.missingKeywords.None?
    ensures o.strengths.Given? ==> Populate(o).value.strengths == Some(o.strengths.value)
    ensures o.strengths.Null? ==> Populate(o).value.strengths.None?
    ensures o.improvements.Given? ==> Populate(o).value.improvements == Some(o.improvements.value)
    ensures o.improvements.Null? ==> Populate(o).value.improvements.None?
    ensures o.assessment.Given? ==> Populate(o).value.assessment == Some(o.assessment.value)
    ensures o.assessment.Null? ==> Populate(o).value.assessment.None?
  {
  }

  /** An empty reply object `{}` decodes to exactly `new OpenRouterAnalysis()`. */
  lemma EmptyObjectIsNewAnalysis()
    ensures Populate(ReplyObject(Absent, Absent, Absent, Absent, Absent, Absent, Absent))
      == Some(NewOpenRouterAnalysis())
  {
  }
}
