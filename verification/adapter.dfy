/**
 * ParseOpenRouterResponse: cut the JSON object out of the provider's message
 * text (first `{` to last `}`), decode it, and fall back to a fixed record
 * when anything goes wrong. Reading the reply envelope and the JSON decoder
 * itself are parameters of the model.
 */
module Adapter {
  import opened Wrappers
  import opened Results
  import Feedback

  // ---------------------------------------------------------------------
  // String.IndexOf / String.LastIndexOf for one character

  /** The first index holding `c`, or -1 when `c` does not occur. */
  function IndexOf(s: string, c: char): (i: int)
    ensures -1 <= i < |s|
    ensures i == -1 ==> forall j :: 0 <= j < |s| ==> s[j] != c
    ensures 0 <= i ==> s[i] == c && forall j :: 0 <= j < i ==> s[j] != c
  {
    if s == [] then -1
    else if s[0] == c then 0
    else
      var k := IndexOf(s[1..], c);
      assert forall j :: 0 < j < |s| ==> s[j] == s[1..][j - 1];
      if k == -1 then -1 else k + 1
  }

  /** The last index holding `c`, or -1 when `c` does not occur. */
  function LastIndexOf(s: string, c: char): (i: int)
    ensures -1 <= i < |s|
    ensures i == -1 ==> forall j :: 0 <= j < |s| ==> s[j] != c
    ensures 0 <= i ==> s[i] == c && forall j :: i < j < |s| ==> s[j] != c
  {
    if s == [] then -1
    else if s[|s| - 1] == c then |s| - 1
    else
      var k := LastIndexOf(s[..|s| - 1], c);
      assert forall j :: 0 <= j < |s| - 1 ==> s[j] == s[..|s| - 1][j];
      k
  }

  /** The first `{` comes before the last `}` exactly when some `{` comes before some `}`. */
  lemma BracePairExists(s: string)
    ensures (IndexOf(s, '{') >= 0 && LastIndexOf(s, '}') + 1 > IndexOf(s, '{'))
      <==> exists i, j :: 0 <= i < j < |s| && s[i] == '{' && s[j] == '}'
  {
    var start := IndexOf(s, '{');
    var last := LastIndexOf(s, '}');
    if start >= 0 && last + 1 > start {
      assert s[start] != s[last];
    }
  }

  /** `t` is the part of `s` starting at `i`, with no `{` before it and no `}` after it. */
  predicate SliceAt(s: string, t: string, i: int) {
    && 0 <= i <= |s| - |t| && t == s[i..i + |t|]
    && (forall j :: 0 <= j < i ==> s[j] != '{')
    && (forall j :: i + |t| <= j < |s| ==> s[j] != '}')
  }

  /**
   * The text handed to the decoder: from the first `{` through the last `}`,
   * when the last `}` lies after the first `{`; otherwise nothing is decoded.
   */
  function JsonSlice(s: string): (r: Option<string>)
    ensures r.Some? <==> exists i, j :: 0 <= i < j < |s| && s[i] == '{' && s[j] == '}'
    ensures r.Some? ==>
      && 2 <= |r.value|
      && r.value[0] == '{' && r.value[|r.value| - 1] == '}'
      && exists i :: SliceAt(s, r.value, i)
  {
    var start := IndexOf(s, '{');
    var end := LastIndexOf(s, '}') + 1;
    BracePairExists(s);
    if start >= 0 && end > start then
      assert s[start] != s[end - 1];
      assert s[start..end][0] == s[start];
      assert s[start..end][end - start - 1] == s[end - 1];
      assert SliceAt(s, s[start..end], start);
      Some(s[start..end])
    else
      None
  }

  // ---------------------------------------------------------------------
  // The decoder

  /** What the JSON decoder makes of a text: malformed, the literal `null`, or an object. */
  datatype JsonReading = Malformed | NullLiteral | Object(members: ReplyObject)

  /** `JsonSerializer.Deserialize<OpenRouterAnalysis>`: throws, yields null, or yields a record. */
  datatype Decoded = Throws | NullResult | Analysis(analysis: OpenRouterAnalysis)

  function Deserialize(reading: JsonReading): (d: Decoded)
    ensures d.NullResult? <==> reading.NullLiteral?
    ensures reading.Object? && Populate(reading.members).Some? ==> d == Analysis(Populate(reading.members).value)
    ensures reading.Malformed? ==> d.Throws?
  {
    match reading
    case Malformed => Throws
    case NullLiteral => NullResult
    case Object(o) =>
      match Populate(o)
      case None => Throws
      case Some(a) => Analysis(a)
  }

  /** A decoder that follows the JSON grammar: a text opening with `{` is never the literal `null`. */
  ghost predicate FollowsJsonGrammar(read: string -> JsonReading) {
    forall t :: 0 < |t| && t[0] == '{' ==> read(t) != NullLiteral
  }

  /**
   * What the decoding step yields for the message content: `None` when the
   * content is missing or empty or holds no slice, else the decoder's verdict.
   */
  function DecodeContent(content: Option<string>, read: string -> JsonReading): (d: Decoded)
    ensures content.None? || content.value == [] || JsonSlice(content.value).None? ==> d.Throws?
    ensures content.Some? && JsonSlice(content.value).Some? ==> d == Deserialize(read(JsonSlice(content.value).value))
  {
    if content.None? || content.value == [] then Throws
    else
      match JsonSlice(content.value)
      case None => Throws
      case Some(slice) => Deserialize(read(slice))
  }

  // ---------------------------------------------------------------------
  // The records it returns

  const RobotMark: string := "\U{F8FF}\U{FC}\U{A7}\U{F1}"
  const FallbackLines: seq<string> := [
    RobotMark + " **AI Analysis Completed**",
    Feedback.WarningMark + " **API Response Parse Issue**",
    Feedback.BulbMark + " Using fallback analysis method" ]
  const FallbackAssessment: string := "Analysis completed with fallback method"
  const FallbackSource: string := "OpenRouter (Fallback)"

  /** The record returned when the reply cannot be used. */
  function Fallback(): (r: ResumeAnalysisResult)
    ensures r.score == 45 && r.matchPercentage == 45
    ensures |r.feedback| == 3
    ensures r.assessment == FallbackAssessment
    ensures r.analysisSource == FallbackSource
  {
    NewResult().(score := 45, matchPercentage := 45, feedback := FallbackLines,
      assessment := FallbackAssessment, analysisSource := FallbackSource)
  }

  const DefaultFeedback: seq<string> := ["AI analysis completed"]
  const DefaultAssessment: string := "Analysis completed"

  /**
   * The record built from the decoded value `data` (null when `None`): each
   * field from the decoded one, or its `??` default when that is null.
   */
  function FromDecoded(data: Option<OpenRouterAnalysis>): (r: ResumeAnalysisResult)
    ensures data.Some? ==> r.score == data.value.score && r.matchPercentage == data.value.matchPercentage
    ensures data.None? ==> r.score == 50 && r.matchPercentage == 50
    ensures data.None? ==> r.feedback == DefaultFeedback && r.assessment == DefaultAssessment
    ensures data.None? ==> r.keywordMatches == [] && r.strengths == [] && r.improvements == []
    ensures data.Some? ==> r.feedback == (if data.value.feedback.Some? then data.value.feedback.value else DefaultFeedback)
    ensures data.Some? ==> r.keywordMatches == (if data.value.missingKeywords.Some? then data.value.missingKeywords.value else [])
    ensures data.Some? ==> r.assessment == (if data.value.assessment.Some? then data.value.assessment.value else DefaultAssessment)
    ensures data.Some? ==> r.strengths == (if data.value.strengths.Some? then data.value.strengths.value else [])
    ensures data.Some? ==> r.improvements == (if data.value.improvements.Some? then data.value.improvements.value else [])
    ensures r.analysisSource == DefaultSource && !r.isAIEnhanced
  {
    var init := NewResult();
    match data
    case None =>
      init.(score := 50, matchPercentage := 50, feedback := DefaultFeedback,
        keywordMatches := [], assessment := DefaultAssessment, strengths := [], improvements := [])
    case Some(a) =>
      init.(score := a.score, matchPercentage := a.matchPercentage,
        feedback := a.feedback.GetOr(DefaultFeedback),
        keywordMatches := a.missingKeywords.GetOr([]),
        assessment := a.assessment.GetOr(DefaultAssessment),
        strengths := a.strengths.GetOr([]),
        improvements := a.improvements.GetOr([]))
  }

  /** ParseOpenRouterResponse, given the message content read from the reply envelope. */
  function ParseOpenRouterResponse(content: Option<string>, read: string -> JsonReading): (r: ResumeAnalysisResult)
    ensures !r.isAIEnhanced
    ensures r.analysisSource == FallbackSource <==> DecodeContent(content, read).Throws?
    ensures r.analysisSource != FallbackSource ==> r.analysisSource == DefaultSource
  {
    match DecodeContent(content, read)
    case Throws => Fallback()
    case NullResult => FromDecoded(None)
    case Analysis(a) => FromDecoded(Some(a))
  }

  // ---------------------------------------------------------------------
  // Properties

  /** With no usable slice, or when decoding throws, the answer is exactly the fallback record. */
  lemma NoSliceGivesFallback(content: Option<string>, read: string -> JsonReading)
    requires content.None? || content.value == []
      || !(exists i, j :: 0 <= i < j < |content.value| && content.value[i] == '{' && content.value[j] == '}')
      || DecodeContent(content, read).Throws?
    ensures ParseOpenRouterResponse(content, read) == Fallback()
  {
  }

  /** The fallback sets five fields; the lists it leaves alone stay empty and it is not AI-enhanced. */
  lemma FallbackKeepsDefaults()
    ensures Fallback().keywordMatches == [] && Fallback().strengths == [] && Fallback().improvements == []
    ensures Fallback() == NewResult().(score := Fallback().score, matchPercentage := Fallback().matchPercentage,
      feedback := Fallback().feedback, assessment := Fallback().assessment,
      analysisSource := Fallback().analysisSource)
    ensures !Fallback().isAIEnhanced && Fallback().fileName == DefaultFileName
  {
  }

  /**
   * With a decoder that follows the JSON grammar the decoded value is never
   * null, so the `?? 50` defaults are never used: the answer is the fallback
   * or the record built from a decoded value.
   */
  lemma NullDefaultsUnreachable(content: Option<string>, read: string -> JsonReading)
    requires FollowsJsonGrammar(read)
    ensures !DecodeContent(content, read).NullResult?
    ensures DecodeContent(content, read).Analysis? ==>
      ParseOpenRouterResponse(content, read) == FromDecoded(Some(DecodeContent(content, read).analysis))
    ensures DecodeContent(content, read).Throws? ==> ParseOpenRouterResponse(content, read) == Fallback()
  {
    if content.Some? && content.value != [] {
      var sl := JsonSlice(content.value);
      if sl.Some? {
        assert 0 < |sl.value| && sl.value[0] == '{';
      }
    }
  }

  /**
   * A reply object whose score members are left out scores 0, the
   * initializer, and not the 50 of the `??` default.
   */
  lemma MissingScoreIsZero(content: Option<string>, read: string -> JsonReading)
    requires content.Some? && JsonSlice(content.value).Some?
    requires read(JsonSlice(content.value).value).Object?
    requires read(JsonSlice(content.value).value).members.score.Absent?
    requires read(JsonSlice(content.value).value).members.matchPercentage.Absent?
    ensures ParseOpenRouterResponse(content, read).score == 0
    ensures ParseOpenRouterResponse(content, read).matchPercentage == 0
  {
    var o := read(JsonSlice(content.value).value).members;
    MissingMembersKeepInitializers(o);
  }

  /**
   * How each member of a decodable reply object reaches the result: a
   * member left out keeps the initializer of its field, an explicit `null`
   * takes the `??` default, and a given member is copied, `missingKeywords`
   * into the keyword matches.
   */
  lemma ReplyMembersReachResult(content: Option<string>, read: string -> JsonReading)
    requires content.Some? && JsonSlice(content.value).Some?
    requires read(JsonSlice(content.value).value).Object?
    requires !read(JsonSlice(content.value).value).members.score.Null?
    requires !read(JsonSlice(content.value).value).members.matchPercentage.Null?
    ensures var o := read(JsonSlice(content.value).value).members;
      var r := ParseOpenRouterResponse(content, read);
      && (o.score.Given? ==> r.score == o.score.value)
      && (o.matchPercentage.Given? ==> r.matchPercentage == o.matchPercentage.value)
      && (o.feedback.Absent? ==> r.feedback == [])
      && (o.feedback.Null? ==> r.feedback == DefaultFeedback)
      && (o.feedback.Given? ==> r.feedback == o.feedback.value)
      && (o.missingKeywords.Absent? || o.missingKeywords.Null? ==> r.keywordMatches == [])
      && (o.missingKeywords.Given? ==> r.keywordMatches == o.missingKeywords.value)
      && (o.assessment.Absent? ==> r.assessment == "")
      && (o.assessment.Null? ==> r.assessment == DefaultAssessment)
      && (o.assessment.Given? ==> r.assessment == o.assessment.value)
      && (o.strengths.Absent? || o.strengths.Null? ==> r.strengths == [])
      && (o.strengths.Given? ==> r.strengths == o.strengths.value)
      && (o.improvements.Absent? || o.improvements.Null? ==> r.improvements == [])
      && (o.improvements.Given? ==> r.improvements == o.improvements.value)
      && r.analysisSource == DefaultSource && !r.isAIEnhanced
  {
    var o := read(JsonSlice(content.value).value).members;
    MissingMembersKeepInitializers(o);
    GivenMembersAreCopied(o);
  }
}
