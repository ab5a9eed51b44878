# Resume matcher — verified model

This project models the analysis core of the AI resume builder, an ASP.NET
application. A user uploads a resume and pastes a job description. The
`AIAnalysisController` then:

- checks the request;
- cleans the resume text;
- asks the OpenRouter provider for an analysis when an API key is configured;
- otherwise, or when that call fails, runs its own rule-based matcher, the "strict local analysis".

The local matcher works in these steps:

- It extracts roles, hard skills, education levels, required years and keywords from both texts.
- It adds five sub-scores to a base of 30 and clamps the total to [10, 95].
- It writes a feedback list: header, band banner, missing skills, experience gap, role alignment and recommendation.
- It lists up to eight critical missing terms.
- It gives the score one of four assessment sentences.

The provider's reply is processed as follows:

- The JSON object is cut out of the reply, from the first `{` to the last `}`.
- The object is decoded.
- Any failure gives a fixed fallback record.

Modules, one per file:

- `Wrappers` (`wrappers.dfy`): `Option`.
- `Text` (`text.dfy`): characters, ASCII lower-casing, containment, `Distinct`, `Take`, subsequences, number formatting.
- `Cleaner` (`cleaner.dfy`): `CleanResumeText` as three character-level rewrites and a trim.
- `Extractors` (`extractors.dfy`): role, hard-skill and education extraction, and job keywords.
- `Years`, `YearMatching`, `YearCases` (`years.dfy`, `year_matching.dfy`, `year_cases.dfy`):
  - the five year patterns and `ExtractYearsFromText`;
  - what the patterns yield on a range and on a cleaned resume.
- `Scorer` (`scorer.dfy`): the five sub-scores and `CalculateStrictScore`.
- `Feedback` (`feedback.dfy`): the assessment bands, `GenerateStrictFeedback`, `FindCriticalMissingKeywords`.
- `Results` (`results.dfy`): the `ResumeAnalysisResult` and `OpenRouterAnalysis` records with their initializers, and how a decoded JSON object fills them.
- `Adapter` (`adapter.dfy`): `ParseOpenRouterResponse`. The message content and the JSON decoder are parameters.
- `Controller` (`controller.dfy`):
  - `AnalyzeWithStrictLocalAI`;
  - `AnalyzeResume`, as a decision over an abstract request (upload, job description, form text, key configured, provider outcome).

The methods follow the source's loops:

- `CalculateStrictScore` accumulates the score;
- the extractors and `FindCriticalMissingKeywords` walk their vocabularies;
- `ExtractYearsFromText` tries the patterns in turn;
- `GenerateStrictFeedback` appends lines.

Each method is proved equal to a specification function. The properties are proved about those functions.

Behaviour of the code worth knowing:

- The scorer and the feedback receive the *cleaned* resume text (`Controllers/AIAnalysisController.cs:80`, 103, 111). The cleaner removes every number with non-word characters on both sides. So in a resume, only `N years` with the digits glued to a preceding letter or underscore can give a year count (`YearCases.CleanedResumeYears`). The job text is not cleaned.
- The education sub-score can reach 15 (three levels × 5). The comment at `Controllers/AIAnalysisController.cs:310` says 10.
- The `?? 50` defaults of `ParseOpenRouterResponse` are never used. The decoded text always starts with `{`, so it never decodes to null (`Adapter.NullDefaultsUnreachable`).
- A reply that cannot be parsed still reaches the page. It gets the provider's label and `IsAIEnhanced = true`, with score 45 (`Controller.UnparsedReplyShownAsAI`). The fallback's own label "OpenRouter (Fallback)" is never shown.

Modelling assumptions:

- `\s`, `\d`, `\w` and `ToLower` are ASCII. Other characters are neither word characters nor spaces. A string is a sequence of Unicode scalar values, while .NET's `string.Length` counts UTF-16 code units; so the `Length > 4` keyword filter (`Controllers/AIAnalysisController.cs:367`) differs on characters outside the Basic Multilingual Plane: `ab😀c` has length 5 in .NET and is kept, and length 4 in the model and is dropped.
- The three ratio sub-scores `(int)((double)m / n * K)` are modelled as the integer `m * K / n`. Here 0 ≤ m ≤ n and K ∈ {20, 30}. This is the one place where floating point is replaced.
- `int.TryParse` rejects values above 2147483647. That pattern then counts as not matched.
- `Path.GetExtension` is modelled as on Windows, where both `/` and `\` are directory separators. On Linux and macOS .NET treats only `/` as one, so there a name such as `a.b\c` has the extension `.b\c`, while the model gives none. A name ending in `.` has no extension.
- The emoji prefixes of the feedback lines are kept as opaque character constants, exactly as they appear in the source's (mis-encoded) literals.

## Model

| member | source | states |
|---|---|---|
| Cleaner.CleanResumeText | Controllers/AIAnalysisController.cs:129-141 | empty input is returned unchanged; the output is no longer than the input; every output character is a letter, digit, `_`, space, `.`, `@` or `-`; no leading or trailing space |
| Cleaner.CleanKeepsSurvivors | Controllers/AIAnalysisController.cs:129-141 | every letter, `_`, `.`, `@` and `-` of the input reaches the cleaned text, in order, and no other such character appears |
| Cleaner.CollapseWhitespace | Controllers/AIAnalysisController.cs:134 | no whitespace other than `' '` remains, no two spaces are adjacent, and the non-space characters are kept in order |
| Cleaner.CollapseKeepsSurvivors | Controllers/AIAnalysisController.cs:134 | collapsing keeps every letter, `_`, `.`, `@` and `-`, in order |
| Cleaner.CollapseSplit | Controllers/AIAnalysisController.cs:134 | a text ending in a non-space character collapses independently of what follows it |
| Cleaner.CollapseRun | Controllers/AIAnalysisController.cs:134 | a whitespace run in front of a non-space character or the end becomes exactly one space |
| Cleaner.CollapseKeepsWord | Controllers/AIAnalysisController.cs:134 | text without whitespace is left unchanged |
| Cleaner.CollapseBetweenWords | Controllers/AIAnalysisController.cs:134 | a whitespace run between two non-space characters becomes exactly one space, and each side collapses on its own |
| Cleaner.StripFrom | Controllers/AIAnalysisController.cs:137 | never lengthens the text, adds no whitespace other than `' '`, and keeps a leading non-digit; the removal of every standalone run is stated by `CleanedHasNoStandaloneNumber` |
| Cleaner.StripKeepsSurvivors | Controllers/AIAnalysisController.cs:137 | number stripping keeps every letter, `_`, `.`, `@` and `-`, in order |
| Cleaner.StripKeepsRunAfterWord | Controllers/AIAnalysisController.cs:137 | a digit run right after a word character is copied unchanged |
| Cleaner.StripDigitRun | Controllers/AIAnalysisController.cs:137 | a maximal digit run is kept when a word character stands on either side of it, and becomes one space otherwise |
| Cleaner.ReplaceDisallowed | Controllers/AIAnalysisController.cs:138 | each character outside word characters, spaces, `.`, `@`, `-` becomes a space, length kept |
| Cleaner.ScrubKeepsSurvivors | Controllers/AIAnalysisController.cs:138 | the replacement keeps every letter, `_`, `.`, `@` and `-`, in order |
| Cleaner.Trim | Controllers/AIAnalysisController.cs:140 | the result is the part of the input after its leading whitespace, followed only by whitespace, with no whitespace at either end |
| Cleaner.TrimKeepsSurvivors | Controllers/AIAnalysisController.cs:140 | trimming keeps every letter, `_`, `.`, `@` and `-` |
| Cleaner.CleanedBlankIffEmpty | Controllers/AIAnalysisController.cs:80-86 | a cleaned text is whitespace-only exactly when it is empty |
| Cleaner.CleanIsStripped | Controllers/AIAnalysisController.cs:129-141 | cleaning is a fixed point of number stripping: the later rewrites and the trim never create a new standalone number |
| Cleaner.CleanedHasNoStandaloneNumber | Controllers/AIAnalysisController.cs:137 | no maximal digit run in a cleaned text, or in its lower-cased form, has non-word characters or the text's ends on both sides |
| Cleaner.CleanedLacksSharpAndPlus | Controllers/AIAnalysisController.cs:138 | a lower-cased cleaned resume never contains `c#` or `c++`, so those two skills are always reported missing |
| Extractors.Present | Controllers/AIAnalysisController.cs:457-461 | exactly the vocabulary terms the text contains, as a subsequence of the vocabulary |
| Extractors.PresentNoDuplicates | Controllers/AIAnalysisController.cs:457-462 | a duplicate-free vocabulary gives a duplicate-free result |
| Extractors.CollectPresent | Controllers/AIAnalysisController.cs:457-461 | the vocabulary loop collects exactly `Present` |
| Extractors.ExtractRoles | Controllers/AIAnalysisController.cs:452-475 | returns `Roles(text)`: a role is returned iff it is in the 7-word vocabulary and contained in the text |
| Extractors.ExtractHardSkills | Controllers/AIAnalysisController.cs:478-494 | returns `HardSkills(text)`: a skill is returned iff it is in the 31-term vocabulary and contained in the text |
| Extractors.RolesInVocabularyOrder | Controllers/AIAnalysisController.cs:452-475 | the roles found are duplicate-free and in vocabulary order |
| Extractors.HardSkillsInVocabularyOrder | Controllers/AIAnalysisController.cs:478-494 | the skills found are duplicate-free and in vocabulary order |
| Extractors.EducationRequirements | Controllers/AIAnalysisController.cs:497-503 | bachelor iff "bachelor" or "degree", master iff "master", phd iff "phd" or "doctorate"; no repeats |
| Extractors.EducationFromResume | Controllers/AIAnalysisController.cs:506-512 | bachelor iff "bachelor" (not "degree"), master iff "master", phd iff "phd" or "doctorate" |
| Extractors.EducationSidesDiffer | Controllers/AIAnalysisController.cs:497-512 | on one text the resume side is contained in the job side, and they differ iff the text has "degree" but not "bachelor" |
| Extractors.SplitTokens | Controllers/AIAnalysisController.cs:366 | the tokens are non-empty, hold no separator, and each occurs in the text |
| Extractors.SplitKeepsNonSeparators | Controllers/AIAnalysisController.cs:366 | the concatenated tokens are the text with its separators removed |
| Extractors.TokenRunStopsAtSeparator | Controllers/AIAnalysisController.cs:366 | a token ends at the first separator, whatever follows it |
| Extractors.SplitWholeWord | Controllers/AIAnalysisController.cs:366 | a non-empty separator-free text is exactly one token |
| Extractors.SplitAtSeparator | Controllers/AIAnalysisController.cs:366 | splitting at a separator gives the tokens of the left side followed by those of the right side; no token spans a separator |
| Extractors.JobKeywords | Controllers/AIAnalysisController.cs:366-369 | duplicate-free; exactly the tokens longer than 4 characters |
| Years.MatchAt | Controllers/AIAnalysisController.cs:517-523 | a pattern match captures a non-empty run of digits |
| Years.FirstMatchFrom | Controllers/AIAnalysisController.cs:528 | `Regex.Match`: a successful match captures a non-empty run of digits; `FirstMatchIsLeftmost` states that it is the leftmost match |
| Years.FirstMatchIsLeftmost | Controllers/AIAnalysisController.cs:528 | the match found from position j is `g` iff `g` is the group at the first position at or after j where the pattern matches |
| Years.TryParseInt32 | Controllers/AIAnalysisController.cs:529 | a non-empty digit group parses iff its value is at most 2147483647, and then to that value |
| Years.ParseReadsRendering | Controllers/AIAnalysisController.cs:529 | the decimal rendering of n parses back to n exactly when n fits in 32 bits |
| Years.ExtractYearsFromText | Controllers/AIAnalysisController.cs:515-535 | returns `YearsFromText(text)`, at most 2147483647 |
| Years.YearsIsFirstParsed | Controllers/AIAnalysisController.cs:526-534 | 0 when no pattern's leftmost match parses; otherwise the value of the first pattern, in order, whose match parses |
| Years.LaterPatternsImplyPlain | Controllers/AIAnalysisController.cs:520-522 | a text matching `minimum N years` or `at least N years` also matches `N years` |
| YearCases.RangeGivesLowerBound | Controllers/AIAnalysisController.cs:519 | in `pre N-M years post` (no digit in `pre`, no `+` around) the years are N |
| YearCases.CleanedResumeYears | Controllers/AIAnalysisController.cs:517-523 | on a cleaned, lower-cased resume only `N years` can match; the other four patterns never do |
| Scorer.Share | Controllers/AIAnalysisController.cs:319-375 | the ratio score `m*K/n` never exceeds K |
| Scorer.ShareFull | Controllers/AIAnalysisController.cs:319-375 | the ratio score is K iff every item matched, 0 when none did, at least 1 once `m*K ≥ n` |
| Scorer.ShareMonotone | Controllers/AIAnalysisController.cs:319-375 | more matches never give a lower ratio score |
| Scorer.RoleMatch | Controllers/AIAnalysisController.cs:319-328 | the role sub-score is at most 20; `RoleMatchRange` states when it is 5, 20 and 0 |
| Scorer.SkillsMatch | Controllers/AIAnalysisController.cs:330-337 | the hard-skill sub-score is at most 30; `SkillsMatchRange` states when it is 10, 30 and 0 |
| Scorer.ExperienceMatch | Controllers/AIAnalysisController.cs:339-351 | the experience sub-score is at most 20; `ExperienceTierRange`, `ExperienceTierByShortfall` and `ExperienceTierMonotone` state the tiers |
| Scorer.EducationMatch | Controllers/AIAnalysisController.cs:353-362 | the education sub-score is at most 15; `EducationMatchRange` states that it is 5 per held level and when it is full or 0 |
| Scorer.KeywordMatch | Controllers/AIAnalysisController.cs:364-375 | the keyword sub-score is at most 20; `KeywordMatchRange` states when it is 5 and 20 |
| Scorer.RoleMatchRange | Controllers/AIAnalysisController.cs:319-328 | 5 with no job roles; else at most 20, 20 iff every job role is in the resume, 0 iff none is |
| Scorer.SkillsMatchRange | Controllers/AIAnalysisController.cs:330-337 | 10 with no required skills; else at most 30, 30 iff all are in the resume, 0 when none is |
| Scorer.ExperienceTierRange | Controllers/AIAnalysisController.cs:339-351 | the tier is in {0,5,10,15,20}, 5 when the job asks for 0 years, else 20 iff the resume's years reach the job's |
| Scorer.ExperienceTierByShortfall | Controllers/AIAnalysisController.cs:346-350 | the tier is 5 × (4 − shortfall), with the shortfall clamped to [0, 4] |
| Scorer.ExperienceTierMonotone | Controllers/AIAnalysisController.cs:339-351 | more resume years never lower the tier |
| Scorer.EducationMatchRange | Controllers/AIAnalysisController.cs:353-362 | 5 with no requirement; always a multiple of 5 and at most 15; full marks iff every required level is in the resume, 0 iff none is |
| Scorer.KeywordMatchRange | Controllers/AIAnalysisController.cs:364-375 | 5 with no keyword; else at most 20, and 20 iff the resume contains every keyword |
| Scorer.StrictScore | Controllers/AIAnalysisController.cs:294-317 | the final score lies in [30, 95] |
| Scorer.CalculateStrictScore | Controllers/AIAnalysisController.cs:294-317 | the accumulated score equals `StrictScore` of the lower-cased texts and lies in [30, 95] |
| Scorer.LowerClampUnused | Controllers/AIAnalysisController.cs:316 | the raw sum is at least 30, so the clamp to 10 never applies and the score is `min(raw, 95)` |
| Scorer.DegenerateJobScoresSixty | Controllers/AIAnalysisController.cs:294-375 | a job text with no role, skill, years, education or long token scores exactly 60 |
| Feedback.BandOf | Controllers/AIAnalysisController.cs:390-405 | the bands are ≥75, 60–74, 40–59 and <40, each as an if-and-only-if |
| Feedback.BandMonotone | Controllers/AIAnalysisController.cs:390-405 | a higher score never falls into a lower band |
| Feedback.GetStrictAssessment | Controllers/AIAnalysisController.cs:559-568 | the sentence of the score's band |
| Feedback.AssessmentIdentifiesBand | Controllers/AIAnalysisController.cs:559-568 | two scores get the same sentence iff they are in the same band |
| Feedback.Bullets | Controllers/AIAnalysisController.cs:418-421 | one bullet line per item, in order |
| Feedback.Absent | Controllers/AIAnalysisController.cs:410-411 | the items the resume does not contain, as a subsequence of the items |
| Feedback.Except | Controllers/AIAnalysisController.cs:437 | exactly the elements of the first list that are not in the second, without repeats |
| Feedback.MissingSkills | Controllers/AIAnalysisController.cs:410-413 | at most five hard skills of the job that the resume lacks |
| Feedback.MissingSkillsInVocabularyOrder | Controllers/AIAnalysisController.cs:410-413 | the missing skills follow the hard-skill vocabulary order |
| Feedback.AbsentFromPresent | Controllers/AIAnalysisController.cs:410-411 | the job's vocabulary terms that the resume lacks are the vocabulary terms the job contains and the resume lacks, in vocabulary order |
| Feedback.MissingSkillsAreFirstFive | Controllers/AIAnalysisController.cs:410-413 | the first five hard-skill terms the job contains and the resume lacks; all of them when at most five qualify, exactly five otherwise |
| Feedback.RoleGaps | Controllers/AIAnalysisController.cs:437 | at most three job roles that are not resume roles |
| Feedback.StrictFeedback | Controllers/AIAnalysisController.cs:377-449 | at least six lines, the five opening lines first and the recommendation last; `FeedbackLength` adds the upper bound 19 and the `FeedbackFlags` lemmas say when each gap section appears |
| Feedback.GenerateStrictFeedback | Controllers/AIAnalysisController.cs:377-449 | the appended lines equal `StrictFeedback` of the texts and the score |
| Feedback.AddBand | Controllers/AIAnalysisController.cs:390-407 | appends the banner of the score's band and a blank line |
| Feedback.AddMissingSkills | Controllers/AIAnalysisController.cs:415-423 | appends the heading, one bullet per missing skill and a blank line, or nothing when none is missing |
| Feedback.AddExperienceGap | Controllers/AIAnalysisController.cs:428-432 | appends the gap line and a blank line exactly when the job's years are positive and above the resume's |
| Feedback.AddRoleAlignment | Controllers/AIAnalysisController.cs:438-444 | appends the role section exactly when some job role is missing |
| Feedback.AssembleLength | Controllers/AIAnalysisController.cs:379-448 | 6 to 19 lines, beginning with the five header lines and ending with the recommendation |
| Feedback.FeedbackLength | Controllers/AIAnalysisController.cs:377-449 | the feedback for any texts has 6 to 19 lines, starts with title, score line, blank, banner, blank, and ends with the recommendation |
| Feedback.SkillsHeadingOnlyInItsSection | Controllers/AIAnalysisController.cs:415-423 | the missing-skills heading appears iff the missing list is non-empty |
| Feedback.GapLineOnlyInItsSection | Controllers/AIAnalysisController.cs:428-432 | the gap line appears iff jobYears > 0 and resumeYears < jobYears |
| Feedback.RoleHeadingOnlyInItsSection | Controllers/AIAnalysisController.cs:438-444 | the role heading appears iff there are role gaps |
| Feedback.FeedbackFlagsMissingSkills | Controllers/AIAnalysisController.cs:410-423 | the skills section appears iff some required skill is absent, iff the skills sub-score is below 30 with skills required |
| Feedback.FeedbackFlagsExperienceGap | Controllers/AIAnalysisController.cs:425-432 | the gap line appears iff jobYears > 0 and resumeYears < jobYears, iff the experience sub-score is below 20 with years required |
| Feedback.FeedbackFlagsRoleGap | Controllers/AIAnalysisController.cs:435-444 | the role section appears iff some job role is not in the resume, iff the role sub-score is below 20 with roles present |
| Feedback.ImportantTermsAreHardSkills | Controllers/AIAnalysisController.cs:543-548 | the 24 important terms are the first 24 hard-skill terms |
| Feedback.MissingFrom | Controllers/AIAnalysisController.cs:550-554 | exactly the terms the job contains and the resume lacks, in term order |
| Feedback.CriticalMissing | Controllers/AIAnalysisController.cs:537-557 | at most 8 terms, each an important term that the job contains and the resume does not; `CriticalMissingSound` adds no repeats and completeness |
| Feedback.FindCriticalMissingKeywords | Controllers/AIAnalysisController.cs:537-557 | the loop's result equals `CriticalMissing` of the lower-cased texts |
| Feedback.CriticalMissingSound | Controllers/AIAnalysisController.cs:537-557 | at most 8 terms, no repeats, each important, in the job and not in the resume; all such terms when at most 8 qualify |
| Feedback.CriticalMissingInVocabularyOrder | Controllers/AIAnalysisController.cs:550-556 | the critical terms keep the important-term order |
| Feedback.CriticalMissingAreMissingSkills | Controllers/AIAnalysisController.cs:537-557 | every critical missing term is a job hard skill that the resume lacks |
| Results.NewResult | Models/ResumeAnalysisResult.cs:5-16 | a new result has empty lists, assessment "", not AI-enhanced, file name "Resume", job description "" and source "AI Analysis" |
| Results.NewOpenRouterAnalysis | Models/ResumeAnalysisResult.cs:20-29 | a new decoded reply has scores 0, empty lists and assessment "" |
| Results.Populate | Models/ResumeAnalysisResult.cs:22-28 | decoding succeeds iff neither integer member is `null` |
| Results.MissingMembersKeepInitializers | Models/ResumeAnalysisResult.cs:22-28 | a member missing from the reply keeps its field's initializer (0, empty list, "") |
| Results.GivenMembersAreCopied | Models/ResumeAnalysisResult.cs:22-28 | each of the seven members present in the reply is copied, and `null` leaves a null list or string field |
| Results.EmptyObjectIsNewAnalysis | Models/ResumeAnalysisResult.cs:20-29 | `{}` decodes to a fresh `OpenRouterAnalysis` |
| Adapter.IndexOf | Controllers/AIAnalysisController.cs:234 | the first index of the character, or -1 iff it is absent |
| Adapter.LastIndexOf | Controllers/AIAnalysisController.cs:235 | the last index of the character, or -1 iff it is absent |
| Adapter.JsonSlice | Controllers/AIAnalysisController.cs:234-239 | a slice is taken iff some `{` precedes some `}`; it then starts with `{`, ends with `}`, with no `{` before it and no `}` after it |
| Adapter.Deserialize | Controllers/AIAnalysisController.cs:240 | null only for the literal `null`; an object with acceptable members gives its populated record; malformed text throws |
| Adapter.DecodeContent | Controllers/AIAnalysisController.cs:228-254 | missing or empty content, or no slice, ends in the exception path; otherwise the outcome is the decoder's verdict on exactly that slice |
| Adapter.Fallback | Controllers/AIAnalysisController.cs:259-270 | score and match 45, three feedback lines, assessment "Analysis completed with fallback method", source "OpenRouter (Fallback)" |
| Adapter.FromDecoded | Controllers/AIAnalysisController.cs:242-251 | the scores come from the decoded reply, 50 only when it is null; each list and the assessment is the decoded member, or its `??` default when that member is null; `missingKeywords` becomes the keyword matches; the source stays "AI Analysis" |
| Adapter.ParseOpenRouterResponse | Controllers/AIAnalysisController.cs:220-272 | never AI-enhanced; labelled as the fallback exactly when decoding throws, otherwise with the default label; `NoSliceGivesFallback` states the fallback record, `ReplyMembersReachResult` and `MissingScoreIsZero` the fields of a decoded reply |
| Adapter.NoSliceGivesFallback | Controllers/AIAnalysisController.cs:228-270 | no content, no slice or a decoding failure gives exactly the fallback record |
| Adapter.FallbackKeepsDefaults | Controllers/AIAnalysisController.cs:259-270 | the fallback changes only score, match, feedback, assessment and source; keyword matches, strengths and improvements stay empty |
| Adapter.NullDefaultsUnreachable | Controllers/AIAnalysisController.cs:237-251 | with a grammar-following decoder the decoded value is never null: the result is the fallback or the record built from a decoded value |
| Adapter.MissingScoreIsZero | Controllers/AIAnalysisController.cs:244-245 | a reply object without score members scores 0, not 50 |
| Adapter.ReplyMembersReachResult | Controllers/AIAnalysisController.cs:240-251 | for a decodable reply object, per member: left out keeps the initializer (`[]` or `""`), `null` takes the `??` default, a given value is copied, `missingKeywords` into the keyword matches |
| Controller.LocalAnalysis | Controllers/AIAnalysisController.cs:275-292 | the match percentage is the score, the score is in [30, 95], not AI-enhanced, labelled as the local analysis; `LocalAnalysisFacts` adds the assessment, feedback and keyword lists |
| Controller.AnalyzeWithStrictLocalAI | Controllers/AIAnalysisController.cs:275-292 | equals `LocalAnalysis`; the match percentage is the score, the score is in [30, 95], the assessment is the score's sentence |
| Controller.LocalAnalysisFacts | Controllers/AIAnalysisController.cs:275-292 | local result: match = score ∈ [30, 95], band sentence, feedback shape; at most 8 distinct keyword matches in vocabulary order, each in the job and not in the resume; no strengths, no improvements, not AI-enhanced |
| Controller.Extension | Controllers/AIAnalysisController.cs:59 | non-empty iff the name has a `.` followed by at least one character and no later `.` or separator; it is then that tail |
| Controller.ProviderAnalysis | Controllers/AIAnalysisController.cs:199-215 | a result exactly when the provider replied, always labelled "OpenRouter AI (Critical Analysis)" |
| Controller.RawResumeText | Controllers/AIAnalysisController.cs:68-77 | the form text when it is non-empty, otherwise the file's content |
| Controller.ChooseAnalysis | Controllers/AIAnalysisController.cs:92-114 | AI-enhanced iff a key is configured and the provider gave a result, which is then shown with only the flag set; otherwise the local result labelled as local (no key) or as failed (key but no result); `ExactlyOneLabel` and `FallbackLabelNeverShown` lift this to the whole request |
| Controller.AnalyzeResume | Controllers/AIAnalysisController.cs:41-127 | a missing file redirects with its message; a shown result had a file, a job text and an accepted file type, and carries the upload's name and the job text; `ValidationOrder` states the order of the checks, `ExactlyOneLabel` the label |
| Controller.ValidationOrder | Controllers/AIAnalysisController.cs:43-87 | errors in order: missing file, missing job description, file type, blank cleaned text; the page is shown iff every check passes |
| Controller.ExactlyOneLabel | Controllers/AIAnalysisController.cs:92-114 | a shown result has exactly one label, fixed by whether a key is configured and whether the provider replied |
| Controller.FallbackLabelNeverShown | Controllers/AIAnalysisController.cs:92-117 | the result is AI-enhanced iff it has the provider label, and "OpenRouter (Fallback)" is never shown |
| Controller.ShownCarriesRequest | Controllers/AIAnalysisController.cs:116-117 | the shown result carries the uploaded file's name and the job description |
| Controller.LocalPathUsesCleanedText | Controllers/AIAnalysisController.cs:80-113 | without the provider, score, feedback and keyword matches are those of the cleaned resume text against the raw job text |
| Controller.UnparsedReplyShownAsAI | Controllers/AIAnalysisController.cs:199-270 | an unparsable reply is shown with score 45, the fallback lines, the provider label, and AI-enhanced set |

## Left out

- The HTTP call to OpenRouter (`Controllers/AIAnalysisController.cs:143-216`): prompt, headers, 45-second timeout and status handling. It is network I/O, modelled as the outcome `Unreachable | Replied(content)`.
- Reading the reply envelope (`choices[0].message.content`) and `JsonSerializer.Deserialize`. They are a foreign library. The message content is an input, and the decoder is a function parameter (`string -> JsonReading`).
- Form access, file streams, TempData, views, redirects and logging. These are framework I/O. The upload's text, or the message of the exception reading it throws, is an input.
- `Task.Delay(300)` and `AnalysisDate = DateTime.Now`. These are the clock.
- Controllers/ResumeController.cs, Controllers/ClassicResumeController.cs, Controllers/HomeController.cs, Services/AIService.cs, Program.cs, the data context and the entity models. They are persistence and framework plumbing, outside the analysis core.
- Unicode character classes and culture-sensitive lower-casing. These are replaced by ASCII classes.
- Floating-point division in the ratio sub-scores. It is replaced by integer floor division, as described above.
- The feedback lines' emoji prefixes. They are opaque constants, not decoded text.
- `Adapter.NullDefaultsUnreachable`: the JSON grammar of the decoder is a precondition (`FollowsJsonGrammar`) rather than a derived fact, because the JSON parser is not modelled.
- `Controller.ValidationOrder`: the redirect for an unreadable file, "Error analyzing resume: " followed by the exception's message, is modelled but not proved distinct from the four fixed messages.
