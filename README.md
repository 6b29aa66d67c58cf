# AI Lab Question System — verified model of the response gateway and the classroom bookkeeping

The AI Lab Question System is a single-page classroom application. A teacher
writes a lab question and asks a hosted language model for equivalent
variations, hands questions out to students, bundles them into assignments
and has student answers scored by the model. This project models the two
deterministic parts of it in Dafny and proves what they promise.

- **The LLM response gateway** (`lib/ai-service.ts`), in modules `JsText`,
  `CodeFence`, `Interrogatives` and `AiService`:
  - the envelope check on the completion reply;
  - the code-fence unwrapping of the model's text;
  - the `||` defaults and the clamps applied to parsed replies;
  - the deterministic fallbacks, including the whole-word interrogative rewrite;
  - the uniqueness check, with its numbered-list prompt and its
    `parseInt`-and-clamp reading of the reply.

  All of it is pure, so it is modelled as datatypes, functions and lemmas.
  The regular expression `/```(?:json)?\s*([\s\S]*?)\s*```/` is modelled
  twice:
  - as a leftmost, lazy matching engine (`CodeFence.ExtractJson`);
  - as a declarative reference (`FencedBody`: the trimmed text between the
    first fence and the first fence after it).

  `CodeFence.ExtractJsonSpec` proves the two agree. The global
  `replace(/\b(what|how|why|when|where)\b/gi, …)` is likewise modelled as
  the regex scan (`Interrogatives.Substitute`) and as a word-by-word
  rewrite (`Interrogatives.Reworded`), proved equal.
- **The in-memory bookkeeping of the page** (`app/page.tsx`, handlers only),
  in modules `Classroom`, `BulkGeneration` and `Analytics`:
  - the students, questions, allocations, assignments and submissions;
  - the handlers that add and remove entries;
  - the case-insensitive lookup of a student's questions;
  - the form guards;
  - the tag parsing;
  - the dashboard's average score and per-subject counts.

  Each handler is a pure function from the old lists to the new ones,
  because React state is replaced rather than mutated. The three places
  where the source runs a loop over a mutable array are methods with loop
  invariants, each proved against a specification function:
  - the batch loop of bulk generation;
  - the auto-allocation `forEach`;
  - the counting loop of the allocation dialog.

The AI service calls are parameters:
- `send: ChatRequest -> Transport` stands for the network and the model;
- `parse: string -> Parsed<F>` stands for `JSON.parse`, reduced to the
  optional fields the code reads;
- `r` stands for `Math.random()`;
- in bulk mode, `send(k)` answers the k-th batch;
- clock readings (`Date.now()`) are the `stamp` parameter.

Where the specification and the code disagree, the model follows the code:
- The specification says the variation `uniquenessScore` is always clamped
  into [0, 100]. The code clamps only the evaluation score and the
  uniqueness check, not the variation score (`AiService.GenerateQuestionVariations`).
- The specification expects a bulk request to yield exactly the count asked
  for. The code keeps whatever the batches returned, cut to that count
  (`BulkGeneration.BulkVariations`). It is short when the model returns
  fewer. Exactly the count is proved when every batch returns at least what
  it asked for, which includes the fallback case.
- `Number.parseInt` without a radix also reads `0x…` hexadecimal. The model
  includes that prefix rather than restricting the reply to decimal digits.

## Model

| member | source | states |
|---|---|---|
| AiService.MakeRequest | lib/ai-service.ts:63-76 | the request succeeds exactly when the status is 2xx and `choices[0].message` is present, and then yields that message's content |
| AiService.ReplyText | lib/ai-service.ts:72-76 | the reply text is present exactly when the envelope check passed and the message has content |
| AiService.NumberOr | lib/ai-service.ts:155-156 | `x \|\| d` on a number: the value when present and non-zero, else the default |
| AiService.TextOr | lib/ai-service.ts:227-228 | `x \|\| d` on text: the value when present and non-empty, else the default |
| AiService.Clamp | lib/ai-service.ts:226 | `max(lo, min(hi, x))` lies in [lo, hi], is x inside the range and the nearer bound outside it |
| AiService.VariationCount | lib/ai-service.ts:107 | the requested count, or 4 when it is absent or 0; never 0 |
| AiService.VariationPromptFields | lib/ai-service.ts:109-135 | the prompt contains the question, the subject, the comma-joined tags and the decimal count |
| AiService.VariationReply | lib/ai-service.ts:149-153 | there are parsed fields exactly when the transport yields text whose unwrapped form parses to an object, and then they are that object's fields |
| AiService.ShapeVariations | lib/ai-service.ts:154-157 | the variations are the reply's list, or none when it is missing; the score is the reply's when present and non-zero, else 75, so never 0 |
| AiService.VariationOutcome | lib/ai-service.ts:149-178 | without a reply, the four fallback variations with score 70; with one, the shaped reply |
| AiService.FencedReplyParsesLikeBare | lib/ai-service.ts:94-97 | a reply wrapped in a ```json fence is parsed exactly as the bare payload |
| AiService.GenerateQuestionVariations | lib/ai-service.ts:106-179 | on failure the fallback with score 70; on success the reply's variations (or none) and its score, or 75 when that is missing or 0, unclamped; the score is never 0 |
| AiService.VariationSuccess | lib/ai-service.ts:149-157 | a 2xx reply whose message text, once unwrapped, parses to a list and a non-zero score returns both as they are |
| AiService.VariationFailure | lib/ai-service.ts:158-178 | a failed request gives the four fallback variations and score 70 |
| AiService.FallbackVariations | lib/ai-service.ts:160-176 | the fallback has exactly four variations |
| AiService.FallbackShape | lib/ai-service.ts:160-177 | variation 1 is "Modified version: " plus the reworded question; variations 2-4 end in the lower-cased question and mention the subject or the difficulty |
| AiService.EvaluationPromptFields | lib/ai-service.ts:182-207 | the evaluation prompt contains the question and the student's answer |
| AiService.EvaluationReply | lib/ai-service.ts:221-223 | there are parsed fields exactly when the transport yields text whose unwrapped form parses to an object, and then they are that object's fields |
| AiService.ShapeEvaluation | lib/ai-service.ts:225-231 | the score is `clamp(score \|\| 75)`, in [0, 100], with 0 or missing becoming 75; empty or missing feedback and missing lists take the fixed non-empty defaults |
| AiService.RandomScore | lib/ai-service.ts:236 | `floor(r * 40) + 60` for r in [0, 1) lies in [60, 99] |
| AiService.EvaluationOutcome | lib/ai-service.ts:221-241 | with a reply, the shaped evaluation; without one, the random score with the fixed fallback feedback, strengths and improvements; the score is always in [0, 100] |
| AiService.EvaluationSuccess | lib/ai-service.ts:221-231 | a 2xx reply whose message text, once unwrapped, parses to an object is shaped from that object's fields |
| AiService.EvaluateAnswer | lib/ai-service.ts:181-242 | the score is in [0, 100] and the feedback non-empty; a parsed reply is shaped, a failure gives the random score and the fixed fallback texts |
| AiService.UniquenessChat | lib/ai-service.ts:244-270 | a request is built exactly when there are at least two questions |
| AiService.NumberedListRoundTrip | lib/ai-service.ts:249 | the prompt's list splits back on newlines into the lines "i. q_i" when no question holds a newline |
| AiService.NumberedLineNumber | lib/ai-service.ts:249 | line i of the list reads back under parseInt as i + 1 |
| AiService.ScoreOfReply | lib/ai-service.ts:274-278 | a missing or non-numeric reply gives 75, a numeric one its clamped integer prefix; always in [0, 100] |
| AiService.CheckQuestionUniqueness | lib/ai-service.ts:244-280 | fewer than two questions give 100; otherwise the score of the reply to the numbered-list request; always in [0, 100] |
| AiService.FewQuestionsIgnoreNetwork | lib/ai-service.ts:245 | with fewer than two questions the result is 100 whatever the network does |
| AiService.NumericReply | lib/ai-service.ts:274-275 | a number from 0 to 100, padded with whitespace, is read back as itself |
| AiService.NumberThenText | lib/ai-service.ts:274-275 | a reply that starts with a number and goes on with text scores the clamped number |
| AiService.NonNumericReply | lib/ai-service.ts:274-275 | a reply whose trimmed form does not start with a digit or a sign scores 75 |
| CodeFence.ExtractJsonSpec | lib/ai-service.ts:83-92 | the regex matches exactly when the text has a fence pair; the result is the trimmed body of the first pair, or else the trimmed text |
| CodeFence.JsonTagSkipped | lib/ai-service.ts:85 | a ```json tag is dropped from the fenced payload |
| CodeFence.OtherTagKept | lib/ai-service.ts:85 | any other tag, e.g. `javascript`, stays in the payload |
| CodeFence.ExtractJsonShape | lib/ai-service.ts:85-91 | the result has no surrounding whitespace and no fence pair |
| CodeFence.ExtractJsonIdempotent | lib/ai-service.ts:85-91 | unwrapping an unwrapped text returns it unchanged |
| CodeFence.LazyCloseIff | lib/ai-service.ts:85 | the lazy body finds a closing fence exactly when one occurs after it |
| Interrogatives.Replacement | lib/ai-service.ts:163-170 | a keyword in any letter case maps to its alternative; any other text is kept |
| Interrogatives.MatchIsWholeWord | lib/ai-service.ts:162 | a match is a whole word that equals the keyword ignoring case |
| Interrogatives.KeywordFromSpec | lib/ai-service.ts:162 | the alternation yields the first keyword that matches at the position, and none when no keyword matches |
| Interrogatives.SubstituteIsReworded | lib/ai-service.ts:162-171 | the global replace equals replacing each maximal word by its alternative and copying everything else |
| Interrogatives.ReplaceIsMapWords | lib/ai-service.ts:162-171 | for any lower-case keyword list and any callback that keeps non-keywords, the regex scan equals the word-by-word map |
| Interrogatives.NoMatchUnchanged | lib/ai-service.ts:162 | text where the pattern never matches is unchanged |
| Interrogatives.ReplacementCases | lib/ai-service.ts:162-171 | only keywords change, and every alternative is lower case |
| Interrogatives.LeadingWhat | lib/ai-service.ts:162-171 | "What" as a leading word becomes "which" |
| Interrogatives.WordKept | lib/ai-service.ts:170 | a whole word that is no keyword in any letter case is kept as it is |
| Interrogatives.KeywordInsideWord | lib/ai-service.ts:162 | a keyword inside a longer word ("somewhat") is not replaced |
| JsText.TrimSpec | lib/ai-service.ts:88-91 | `trim` removes exactly the surrounding whitespace and leaves a trimmed slice |
| JsText.TrimIdempotent | lib/ai-service.ts:88-91 | trimming twice is trimming once |
| JsText.SplitJoin | app/page.tsx:768-769 | splitting a join on a separator absent from the parts gives the parts back |
| JsText.JoinSplit | app/page.tsx:768-769 | joining the pieces of a split gives the original text |
| JsText.ParseIntDecimal | lib/ai-service.ts:274 | parseInt reads back the decimal form of any integer |
| JsText.ParseIntNoDigits | lib/ai-service.ts:274-275 | text that does not start with a sign or a digit parses to NaN |
| JsText.ToLowerIsLowerCase | lib/ai-service.ts:170 | `toLowerCase` leaves no upper-case letter |
| JsText.Filter | app/page.tsx:123-124 | `filter` keeps the passing elements in order with their multiplicity and drops the others |
| JsText.FilterAppend | app/page.tsx:771 | filtering a concatenation is concatenating the filtered parts |
| Classroom.InitialNamesValid | app/page.tsx:102-106 | the starting roster's names are trimmed and non-blank |
| Classroom.AddStudent | app/page.tsx:110-120 | a blank input changes nothing; otherwise one student with the trimmed name is appended and the input cleared |
| Classroom.AddStudentKeepsNamesValid | app/page.tsx:110-120 | adding keeps every roster name trimmed and non-blank, keeps the old roster as a prefix and grows it by at most one |
| Classroom.RemoveStudent | app/page.tsx:122-125 | removes every student with that id and every allocation to it; the rest keep their order and multiplicity |
| Classroom.RemoveAbsentStudent | app/page.tsx:122-125 | removing an id that occurs nowhere changes nothing |
| Classroom.NewAllocations | app/page.tsx:128-134 | one uncompleted allocation of the question per student id, in input order |
| Classroom.AllocateQuestion | app/page.tsx:127-136 | appends exactly one allocation per student id after the unchanged old allocations |
| Classroom.RemoveAllocation | app/page.tsx:138-140 | removes the allocations with that id and keeps the others in order |
| Classroom.FindStudentByName | app/page.tsx:144 | the first student whose name equals the given one ignoring case, or none if there is no such student |
| Classroom.GetAllocatedQuestionsForStudent | app/page.tsx:142-151 | empty when no name matches; otherwise the in-order subsequence of questions with an allocation to the first matching student, each with its own multiplicity |
| Classroom.AllocatedQuestionIsListed | app/page.tsx:127-151 | a question allocated to a student is listed for that student under any letter case of the name |
| Classroom.AllocatedQuestionsDistinct | app/page.tsx:148 | a question listed once among the questions is listed at most once for the student |
| Classroom.DeleteQuestion | app/page.tsx:255-257 | removes the questions with that id, keeps the rest in order, and leaves allocations alone |
| Classroom.ToggleQuestionStatus | app/page.tsx:259-261 | flips `isActive` of the questions with that id and changes nothing else |
| Classroom.ToggleTwice | app/page.tsx:259-261 | toggling twice restores the list |
| Classroom.CreateAssignment | app/page.tsx:263-274 | a new active assignment goes in front of the unchanged others |
| Classroom.SubmitAssignmentForm | app/page.tsx:1259-1269 | an assignment is created exactly when the trimmed title is non-empty, a question is selected and a due date is set |
| Classroom.FindQuestion | app/page.tsx:282 | the first question with that id, or none |
| Classroom.SubmitAnswer | app/page.tsx:276-329 | an unknown question is an error; otherwise the submission goes in front, carrying the evaluation and no teacher review, or, when the evaluator throws, score 75 and the fixed fallback texts |
| Classroom.SubmittedScoreInRange | app/page.tsx:276-329 | every recorded score lies in [0, 100] |
| Classroom.SubmissionNamesExistingQuestion | app/page.tsx:282-283 | a recorded submission is always about an existing question |
| Classroom.ParseTags | app/page.tsx:768-771 | tags are non-empty, trimmed and comma-free, and are the non-empty trimmed pieces in order with their multiplicity |
| Classroom.ParseTagsJoin | app/page.tsx:768-771 | tags joined with ", " parse back to themselves |
| Classroom.ParseTagsOfEmpty | app/page.tsx:768-771 | an empty box gives no tags |
| Classroom.SubmitGeneratorForm | app/page.tsx:765-784 | generation starts exactly when the question and the subject are not blank; the call carries the question, subject, difficulty and category unchanged and the parsed tags, plus the bulk count and the auto-allocate flag exactly in bulk mode; the question, subject, category and tags boxes are cleared |
| BulkGeneration.BatchSize | app/page.tsx:168 | between 2 and 4 and at most the bulk count |
| BulkGeneration.BatchCount | app/page.tsx:169 | the fewest batches of that size that hold the bulk count |
| BulkGeneration.CollectVariations | app/page.tsx:171-181 | the loop's variations are those of the batch specification after all batches |
| BulkGeneration.CollectedExact | app/page.tsx:171-181 | with exact replies, k batches hold min(n, k * batchSize) variations |
| BulkGeneration.ExactBatchesGatherN | app/page.tsx:168-184 | with exact replies the requested counts add up to n |
| BulkGeneration.ExactRequests | app/page.tsx:178 | with exact replies batch k asks for min(batchSize, n - k * batchSize) > 0 |
| BulkGeneration.CollectedGenerous | app/page.tsx:171-181 | when replies are at least as long as asked, at least min(n, k * batchSize) variations are gathered |
| BulkGeneration.FailingIsGenerous | app/page.tsx:171-181 | batches that all fall back always return at least what they ask for |
| BulkGeneration.FallbackBatch | app/page.tsx:174-178 | a batch whose call fails comes back with the four fallback variations |
| BulkGeneration.BulkVariations | app/page.tsx:184 | at most n variations are kept |
| BulkGeneration.Slice | app/page.tsx:184 | `slice(0, n)` keeps the first min(n, length) elements |
| BulkGeneration.BulkVariationsFull | app/page.tsx:168-184 | exactly n variations are kept when every batch gets at least what it asks for, and in particular when every batch fails |
| BulkGeneration.NewQuestions | app/page.tsx:184-194 | one active question per kept variation, carrying only that variation and the form's fields |
| BulkGeneration.BulkIdsDistinct | app/page.tsx:185 | the questions of one run have distinct ids |
| BulkGeneration.Available | app/page.tsx:200 | the first min(n, students) students |
| BulkGeneration.AutoAllocations | app/page.tsx:199-215 | question i goes to available student i, for min(questions, students) pairs |
| BulkGeneration.AutoAllocate | app/page.tsx:203-213 | the forEach builds exactly those pairs |
| BulkGeneration.AutoAllocatedIsListed | app/page.tsx:142-151 | after auto-allocation, new question i is listed for the student at position i |
| BulkGeneration.GenerateQuestions | app/page.tsx:153-253 | bulk mode prepends the new questions (exactly n with generous replies) and allocates them only when asked and the roster is non-empty; single mode prepends one question with the four-variation reply |
| BulkGeneration.AllNewLength | app/page.tsx:950-953 | the dialog makes one allocation per selected question and student |
| BulkGeneration.AllNewCovers | app/page.tsx:950-953 | every selected pair of a question and a student is allocated |
| BulkGeneration.HandleAllocate | app/page.tsx:946-965 | with both selections non-empty, every pair is allocated and the total is questions × students; otherwise nothing changes |
| BulkGeneration.HandleAllocateAsWritten | app/page.tsx:946-965 | as the page runs it, only the last question's allocations are kept, while the reported total is still questions × students |
| BulkGeneration.StaleAllocationsLost | app/page.tsx:135 | with two questions and one student, the first question gets no allocation, though the intended result contains one |
| Analytics.AverageScore | app/page.tsx:1770-1772 | 0 without submissions; otherwise the integer nearest the mean score, halves rounded up |
| Analytics.TotalWithin | app/page.tsx:1772 | the total lies between n * lo and n * hi when every score does |
| Analytics.AverageWithin | app/page.tsx:1770-1772 | the average lies within any bounds all scores lie within, e.g. [0, 100] |
| Analytics.AverageOfEqualScores | app/page.tsx:1770-1772 | equal scores average to that score |
| Analytics.SubjectStats | app/page.tsx:1775-1781 | the keys are exactly the subjects that occur, each mapped to its number of questions |
| Analytics.SubjectStatsOrderFree | app/page.tsx:1775-1781 | the counts do not depend on the order of the questions |
| Analytics.SubjectStatsAdd | app/page.tsx:1775-1781 | adding a question raises its subject's count by one and leaves the others alone |

## Left out

- HTTP transport, headers, logging and `console.*`: these are the `send` parameter, and only the envelope check is modelled.
- The temperature and max-token values: they are provider parameters with no logic.
- `JSON.parse` is the abstract `parse` parameter. It is assumed to return fields of the declared types: a list of strings for `variations`, `strengths` and `improvements`, an integer for each score, a string for the feedback. Ill-typed fields (a number, an object or a string where a list is expected, a string where a score is expected) are not modelled. A non-object JSON value carries no fields.
- `Math.random()` is the parameter `r` in [0, 1). Floating-point rounding of `sum / n` is assumed exact, and non-integer model scores are not modelled.
- The long instruction texts and system messages of the prompts are abbreviated constants. Only the embedded fields and the numbered list are modelled exactly.
- `toLowerCase`, `\b`, `\w` and `\s` are modelled on ASCII letters and the JavaScript whitespace set. Unicode case mapping of non-ASCII letters is not modelled.
- The hard-coded API key and the service singleton carry no logic.
- JSX, rendering, dialogs, `alert`, `useEffect`, `Date` values and the `isGenerating` flag are not modelled. Clock-based ids take the `stamp` parameter, and the due date is the form's text.
- The `async`/`await` sequencing is not modelled. Each handler is a function of explicit state, and the bulk loop's batches run in order.
- Subjects that coincide with `Object.prototype` members (e.g. `constructor`, `__proto__`) are not modelled: `Analytics.SubjectStats` uses a map, not a plain object.
- The `catch` of `generateQuestions` (app/page.tsx:247-249) is not modelled. `generateQuestionVariations` itself never throws. The catch is reached only when an ill-typed reply reaches `allVariations.push(...response.variations)` (app/page.tsx:180). For example, `{"variations": 5}` or `{"variations": {}}` makes the spread throw, and a string `variations` is spread into single characters. The typed `parse` parameter rules these replies out.
- AiService.ShapeEvaluation: the [0, 100] bound on the score holds only for numeric scores. In the source, a string score such as `"high"` makes `Math.max(0, Math.min(100, "high"))` NaN (lib/ai-service.ts:226). The typed `parse` parameter cannot produce that case.
- The submit handler of the student answer form is not modelled: it is UI around `submitAnswer`.
- Classroom.SubmitAnswer: whether `evaluateAnswer` throws is an input, because the modelled `evaluateAnswer` always resolves and the page's fallback is reached only through an error outside the model.

## Findings

| source | as written | input that shows it | evidently intended | confidence | as-written member | corrected member |
|---|---|---|---|---|---|---|
| app/page.tsx:135, 950-953 | `handleAllocate` calls `allocateQuestion` once per selected question. Each call sets the allocations to `[...allocations, ...new]` from the same render's `allocations`, so every update replaces the previous one | questions ["q1", "q2"] and student ["s1"]: only the allocation of q2 is stored, while the alert reports 2 assignments | every selected question is allocated to every selected student, and the stored allocations grow by the reported total | not executed; high, from the React update semantics of a non-functional state setter | BulkGeneration.HandleAllocateAsWritten, BulkGeneration.StaleAllocationsLost | BulkGeneration.HandleAllocate |
