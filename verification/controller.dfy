/**
 * The analysis request: validation of the upload and the job description,
 * cleaning of the resume text, and the choice between the provider's
 * analysis and the local rule-based one. The upload, the form, the
 * provider call and the JSON decoder are inputs of the model.
 */
module Controller {
  import opened Wrappers
  import opened Text
  import Cleaner
  import opened Extractors
  import opened Years
  import opened Scorer
  import opened Feedback
  import opened Results
  import opened Adapter

  const LocalLabel: string := "Strict Local Analysis"
  const FailedLabel: string := "Strict Local Analysis (API Failed)"
  const AILabel: string := "OpenRouter AI (Critical Analysis)"

  // ---------------------------------------------------------------------
  // AnalyzeWithStrictLocalAI

  /** The record the local analysis returns for a resume text and a job description. */
  function LocalAnalysis(resumeText: string, jobDescription: string): (r: ResumeAnalysisResult)
    ensures r.matchPercentage == r.score && BaseScore <= r.score <= MaxScore
    ensures !r.isAIEnhanced && r.analysisSource == LocalLabel
  {
    var score := StrictScore(ToLower(resumeText), ToLower(jobDescription));
    NewResult().(
      score := score,
      matchPercentage := score,
      feedback := StrictFeedback(resumeText, jobDescription, score),
      keywordMatches := CriticalMissing(ToLower(resumeText), ToLower(jobDescription)),
      assessment := GetStrictAssessment(score),
      analysisSource := LocalLabel)
  }

  /** AnalyzeWithStrictLocalAI: score, feedback and critical missing terms, in that order. */
  method AnalyzeWithStrictLocalAI(resumeText: string, jobDescription: string)
    returns (result: ResumeAnalysisResult)
    ensures result == LocalAnalysis(resumeText, jobDescription)
    ensures result.matchPercentage == result.score
    ensures BaseScore <= result.score <= MaxScore
    ensures result.assessment == GetStrictAssessment(result.score)
  {
    var score := CalculateStrictScore(resumeText, jobDescription);
    var feedback := GenerateStrictFeedback(resumeText, jobDescription, score);
    var missingKeywords := FindCriticalMissingKeywords(resumeText, jobDescription);
    result := NewResult().(
      score := score,
      matchPercentage := score,
      feedback := feedback,
      keywordMatches := missingKeywords,
      assessment := GetStrictAssessment(score),
      analysisSource := LocalLabel);
  }

  /**
   * The local record: the match percentage is the score, the assessment is
   * the sentence of the score's band, the score lies in [30, 95], the
   * feedback opens with the five header lines and ends with the
   * recommendation, and the keyword list holds at most eight distinct
   * important terms, in vocabulary order, that the job contains and the
   * resume lacks.
   */
  lemma LocalAnalysisFacts(resumeText: string, jobDescription: string)
    ensures var r := LocalAnalysis(resumeText, jobDescription);
      && r.matchPercentage == r.score
      && r.assessment == AssessmentText(BandOf(r.score))
      && BaseScore <= r.score <= MaxScore
      && 6 <= |r.feedback| <= 19
      && r.feedback[..5] == Opening(r.score)
      && r.feedback[|r.feedback| - 1] == Recommendation
      && |r.keywordMatches| <= 8
      && NoDuplicates(r.keywordMatches)
      && IsSubsequence(r.keywordMatches, HardSkillVocabulary[..24])
      && (forall t :: t in r.keywordMatches ==>
            Contains(ToLower(jobDescription), t) && !Contains(ToLower(resumeText), t))
      && r.strengths == [] && r.improvements == []
      && !r.isAIEnhanced && r.analysisSource == LocalLabel
  {
    var score := StrictScore(ToLower(resumeText), ToLower(jobDescription));
    FeedbackLength(resumeText, jobDescription, score);
    CriticalMissingSound(ToLower(resumeText), ToLower(jobDescription));
    CriticalMissingInVocabularyOrder(ToLower(resumeText), ToLower(jobDescription));
    ImportantTermsAreHardSkills();
  }

  // ---------------------------------------------------------------------
  // Path.GetExtension

  predicate IsPathSeparator(c: char) {
    c == '/' || c == '\\'
  }

  /** Scanning `name[..i]` from the end: the index of the first '.' met before a separator, or -1. */
  function DotBefore(name: string, i: nat): (k: int)
    requires i <= |name|
    ensures -1 <= k < i
    ensures 0 <= k ==> name[k] == '.' && forall j :: k < j < i ==> name[j] != '.' && !IsPathSeparator(name[j])
    ensures k == -1 ==> forall d :: 0 <= d < i && name[d] == '.' ==>
      exists m :: d < m < i && IsPathSeparator(name[m])
  {
    if i == 0 then -1
    else if name[i - 1] == '.' then i - 1
    else if IsPathSeparator(name[i - 1]) then
      assert forall d :: 0 <= d < i && name[d] == '.' ==> d < i - 1 && IsPathSeparator(name[i - 1]);
      -1
    else
      DotBefore(name, i - 1)
  }

  /** The name has an extension: a '.' followed by at least one character, none a '.' or a separator. */
  predicate HasExtension(name: string) {
    exists k :: 0 <= k < |name| - 1 && name[k] == '.' && NoDotOrSeparatorAfter(name, k)
  }

  predicate NoDotOrSeparatorAfter(name: string, k: nat) {
    forall j :: k < j < |name| ==> name[j] != '.' && !IsPathSeparator(name[j])
  }

  /**
   * Path.GetExtension: the name's tail from its last '.', when that '.' is
   * not the final character and no separator follows it; otherwise empty.
   */
  function Extension(name: string): (e: string)
    ensures e != [] <==> HasExtension(name)
    ensures e != [] ==>
      && 2 <= |e| <= |name| && e[0] == '.'
      && e == name[|name| - |e|..]
      && forall j :: 1 <= j < |e| ==> e[j] != '.' && !IsPathSeparator(e[j])
  {
    var k := DotBefore(name, |name|);
    if k < 0 || k == |name| - 1 then
      assert !HasExtension(name) by {
        forall d | 0 <= d < |name| - 1 && name[d] == '.'
          ensures !NoDotOrSeparatorAfter(name, d)
        {
          if k < 0 {
            var m :| d < m < |name| && IsPathSeparator(name[m]);
          } else {
            assert name[|name| - 1] == '.';
          }
        }
      }
      []
    else
      assert NoDotOrSeparatorAfter(name, k);
      var e := name[k..];
      assert forall j :: 1 <= j < |e| ==> e[j] == name[k + j];
      e
  }

  const AllowedExtensions: seq<string> := [".pdf", ".doc", ".docx", ".txt"]

  // ---------------------------------------------------------------------
  // AnalyzeResume

  /** What reading the uploaded file gives: its text, or the message of the exception it throws. */
  datatype FileContent = Read(text: string) | ReadFails(message: string)

  /** The uploaded file: its name, its length in bytes and what reading it gives. */
  datatype Upload = Upload(fileName: string, length: nat, content: FileContent)

  /** The provider call: it fails (network, timeout, error status), or it answers with some message content. */
  datatype ProviderReply = Unreachable | Replied(content: Option<string>)

  /**
   * One request: the upload (absent when none was posted), the job
   * description (absent when null), the browser-extracted text of the
   * hidden form field, whether a provider key is configured, and what the
   * provider would answer.
   */
  datatype Request = Request(
    file: Option<Upload>,
    jobDescription: Option<string>,
    formText: string,
    keyConfigured: bool,
    reply: ProviderReply)

  /** The action's answer: back to the form with an error, or the result page. */
  datatype Outcome = Redirect(error: string) | Shown(result: ResumeAnalysisResult)

  const NoFileMessage: string := "Please select a resume file to analyze."
  const NoJobMessage: string := "Please provide a job description for targeted analysis."
  const FileTypeMessage: string := "Please upload PDF, Word, or Text files only."
  const EmptyTextMessage: string := "Resume file appears to be empty or too short. Please try a different file."
  const ErrorPrefix: string := "Error analyzing resume: "

  /** AnalyzeWithOpenRouter: `None` when it throws, else the parsed reply relabelled. */
  function ProviderAnalysis(reply: ProviderReply, read: string -> JsonReading): (r: Option<ResumeAnalysisResult>)
    ensures r.Some? <==> reply.Replied?
    ensures r.Some? ==> r.value.analysisSource == AILabel
  {
    match reply
    case Unreachable => None
    case Replied(content) => Some(ParseOpenRouterResponse(content, read).(analysisSource := AILabel))
  }

  /** The resume text before cleaning: the form field, or the file's text when the field is empty. */
  function RawResumeText(formText: string, file: Upload): (c: FileContent)
    ensures formText != [] ==> c == Read(formText)
    ensures formText == [] ==> c == file.content
  {
    if formText != [] then Read(formText) else file.content
  }

  /** The three-way choice between the provider and the local analysis, for a cleaned text. */
  function ChooseAnalysis(resumeText: string, jobDescription: string, keyConfigured: bool,
                          provider: Option<ResumeAnalysisResult>): (r: ResumeAnalysisResult)
    ensures r.isAIEnhanced <==> keyConfigured && provider.Some?
    ensures keyConfigured && provider.Some? ==> r == provider.value.(isAIEnhanced := true)
    ensures !keyConfigured ==> r.analysisSource == LocalLabel
    ensures keyConfigured && provider.None? ==> r.analysisSource == FailedLabel
  {
    if keyConfigured then
      match provider
      case Some(r) => r.(isAIEnhanced := true)
      case None => LocalAnalysis(resumeText, jobDescription).(isAIEnhanced := false, analysisSource := FailedLabel)
    else
      LocalAnalysis(resumeText, jobDescription).(isAIEnhanced := false, analysisSource := LocalLabel)
  }

  predicate NoFile(req: Request) {
    req.file.None? || req.file.value.length == 0
  }

  predicate NoJob(req: Request) {
    req.jobDescription.None? || req.jobDescription.value == []
  }

  predicate TypeAccepted(file: Upload) {
    ToLower(Extension(file.fileName)) in AllowedExtensions
  }

  /** AnalyzeResume, as a decision over the request. */
  function AnalyzeResume(req: Request, read: string -> JsonReading): (o: Outcome)
    ensures NoFile(req) ==> o == Redirect(NoFileMessage)
    ensures o.Shown? ==> !NoFile(req) && !NoJob(req) && TypeAccepted(req.file.value)
    ensures o.Shown? ==>
      o.result.fileName == req.file.value.fileName && o.result.jobDescription == req.jobDescription.value
  {
    if NoFile(req) then Redirect(NoFileMessage)
    else if NoJob(req) then Redirect(NoJobMessage)
    else
      var file := req.file.value;
      var job := req.jobDescription.value;
      if !TypeAccepted(file) then Redirect(FileTypeMessage)
      else
        match RawResumeText(req.formText, file)
        case ReadFails(message) => Redirect(ErrorPrefix + message)
        case Read(raw) =>
          var resumeText := Cleaner.CleanResumeText(raw);
          if IsNullOrWhiteSpace(resumeText) then Redirect(EmptyTextMessage)
          else
            var analysis := ChooseAnalysis(resumeText, job, req.keyConfigured,
              ProviderAnalysis(req.reply, read));
            Shown(analysis.(fileName := file.fileName, jobDescription := job))
  }

  // ---------------------------------------------------------------------
  // Properties of the decision

  /**
   * The checks run in order: missing file, missing job description, file
   * type, unreadable file, blank cleaned text; the result page is shown
   * exactly when all of them pass, and the cleaned text is blank exactly
   * when it is empty.
   */
  lemma ValidationOrder(req: Request, read: string -> JsonReading)
    ensures NoFile(req) ==> AnalyzeResume(req, read) == Redirect(NoFileMessage)
    ensures !NoFile(req) && NoJob(req) ==> AnalyzeResume(req, read) == Redirect(NoJobMessage)
    ensures !NoFile(req) && !NoJob(req) && !TypeAccepted(req.file.value) ==>
      AnalyzeResume(req, read) == Redirect(FileTypeMessage)
    ensures (!NoFile(req) && !NoJob(req) && TypeAccepted(req.file.value)
      && RawResumeText(req.formText, req.file.value).Read?
      && Cleaner.CleanResumeText(RawResumeText(req.formText, req.file.value).text) == []) ==>
      AnalyzeResume(req, read) == Redirect(EmptyTextMessage)
    ensures AnalyzeResume(req, read).Shown? <==>
      && !NoFile(req) && !NoJob(req) && TypeAccepted(req.file.value)
      && RawResumeText(req.formText, req.file.value).Read?
      && Cleaner.CleanResumeText(RawResumeText(req.formText, req.file.value).text) != []
  {
    if !NoFile(req) && !NoJob(req) && TypeAccepted(req.file.value) {
      var c := RawResumeText(req.formText, req.file.value);
      if c.Read? {
        Cleaner.CleanedBlankIffEmpty(c.text);
      }
    }
  }

  /** The request passed every check and the page shows the chosen analysis, stamped with the request. */
  predicate ShowsChosen(req: Request, read: string -> JsonReading, r: ResumeAnalysisResult) {
    && !NoFile(req) && !NoJob(req)
    && RawResumeText(req.formText, req.file.value).Read?
    && r == ChooseAnalysis(Cleaner.CleanResumeText(RawResumeText(req.formText, req.file.value).text),
         req.jobDescription.value, req.keyConfigured, ProviderAnalysis(req.reply, read))
         .(fileName := req.file.value.fileName, jobDescription := req.jobDescription.value)
  }

  lemma ShownIsChosen(req: Request, read: string -> JsonReading)
    requires AnalyzeResume(req, read).Shown?
    ensures ShowsChosen(req, read, AnalyzeResume(req, read).result)
  {
  }

  /** The label and the AI flag of the chosen analysis follow the key and the provider's outcome. */
  lemma ChoiceLabels(resumeText: string, jobDescription: string, keyConfigured: bool, reply: ProviderReply,
                     read: string -> JsonReading)
    ensures var r := ChooseAnalysis(resumeText, jobDescription, keyConfigured, ProviderAnalysis(reply, read));
      && (keyConfigured && reply.Replied? ==> r.analysisSource == AILabel && r.isAIEnhanced)
      && (keyConfigured && reply.Unreachable? ==> r.analysisSource == FailedLabel && !r.isAIEnhanced)
      && (!keyConfigured ==> r.analysisSource == LocalLabel && !r.isAIEnhanced)
  {
  }

  lemma LabelsDistinct()
    ensures AILabel != FailedLabel && AILabel != LocalLabel && FailedLabel != LocalLabel
    ensures FallbackSource != AILabel && FallbackSource != FailedLabel && FallbackSource != LocalLabel
  {
  }

  /**
   * A shown result carries exactly one of the three labels, determined by
   * the key and the provider's outcome.
   */
  lemma ExactlyOneLabel(req: Request, read: string -> JsonReading)
    ensures AnalyzeResume(req, read).Shown? ==>
      var r := AnalyzeResume(req, read).result;
      && (r.analysisSource == AILabel <==> req.keyConfigured && req.reply.Replied?)
      && (r.analysisSource == FailedLabel <==> req.keyConfigured && req.reply.Unreachable?)
      && (r.analysisSource == LocalLabel <==> !req.keyConfigured)
  {
    if AnalyzeResume(req, read).Shown? {
      ShownIsChosen(req, read);
      var raw := RawResumeText(req.formText, req.file.value).text;
      ChoiceLabels(Cleaner.CleanResumeText(raw), req.jobDescription.value, req.keyConfigured, req.reply, read);
      LabelsDistinct();
    }
  }

  /**
   * A shown result is AI-enhanced exactly under the provider's label, and
   * the parser's fallback label never reaches the page.
   */
  lemma FallbackLabelNeverShown(req: Request, read: string -> JsonReading)
    ensures AnalyzeResume(req, read).Shown? ==>
      var r := AnalyzeResume(req, read).result;
      && (r.isAIEnhanced <==> r.analysisSource == AILabel)
      && r.analysisSource != FallbackSource
  {
    if AnalyzeResume(req, read).Shown? {
      ShownIsChosen(req, read);
      var raw := RawResumeText(req.formText, req.file.value).text;
      ChoiceLabels(Cleaner.CleanResumeText(raw), req.jobDescription.value, req.keyConfigured, req.reply, read);
      LabelsDistinct();
    }
  }

  /** A shown result names the uploaded file and carries the job description. */
  lemma ShownCarriesRequest(req: Request, read: string -> JsonReading)
    ensures AnalyzeResume(req, read).Shown? ==>
      && AnalyzeResume(req, read).result.fileName == req.file.value.fileName
      && AnalyzeResume(req, read).result.jobDescription == req.jobDescription.value
  {
    if AnalyzeResume(req, read).Shown? {
      ShownIsChosen(req, read);
    }
  }

  /**
   * Without the provider's answer the page shows the local analysis of the
   * CLEANED resume text against the raw job description, with a score in
   * [30, 95].
   */
  lemma LocalPathUsesCleanedText(req: Request, read: string -> JsonReading)
    requires AnalyzeResume(req, read).Shown?
    requires !AnalyzeResume(req, read).result.isAIEnhanced
    ensures var raw := RawResumeText(req.formText, req.file.value).text;
      var clean := Cleaner.CleanResumeText(raw);
      var r := AnalyzeResume(req, read).result;
      && r.score == StrictScore(ToLower(clean), ToLower(req.jobDescription.value))
      && BaseScore <= r.score <= MaxScore
      && r.feedback == LocalAnalysis(clean, req.jobDescription.value).feedback
      && r.keywordMatches == LocalAnalysis(clean, req.jobDescription.value).keywordMatches
  {
    ShownIsChosen(req, read);
    var raw := RawResumeText(req.formText, req.file.value).text;
    var clean := Cleaner.CleanResumeText(raw);
    ChoiceLabels(clean, req.jobDescription.value, req.keyConfigured, req.reply, read);
    assert !(req.keyConfigured && req.reply.Replied?);
  }

  /**
   * When the provider answers but its reply cannot be parsed, the page shows
   * the parser's fallback record (score 45) marked AI-enhanced and labelled
   * as the provider's analysis.
   */
  lemma UnparsedReplyShownAsAI(req: Request, read: string -> JsonReading)
    requires AnalyzeResume(req, read).Shown?
    requires req.keyConfigured && req.reply.Replied?
    requires DecodeContent(req.reply.content, read).Throws?
    ensures var r := AnalyzeResume(req, read).result;
      && r.score == 45 && r.matchPercentage == 45
      && r.feedback == FallbackLines
      && r.assessment == FallbackAssessment
      && r.isAIEnhanced && r.analysisSource == AILabel
  {
    ShownIsChosen(req, read);
    assert ParseOpenRouterResponse(req.reply.content, read) == Fallback();
  }
}
