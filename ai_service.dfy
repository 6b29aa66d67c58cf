/** The deterministic parts of AIService: the envelope check of makeRequest,
    the shaping of parsed replies with JavaScript's || defaults and the
    Math.max/Math.min clamps, the fallbacks taken on any failure, and the
    uniqueness score. The network is a parameter send from chat request to
    transport result, JSON.parse is a parameter parse from text to an optional
    record, and Math.random is a parameter r in [0, 1). */
module AiService {
  import opened JsText
  import opened CodeFence
  import opened Interrogatives

  // ---------------------------------------------------------------------------
  // Transport and the envelope check
  // ---------------------------------------------------------------------------

  datatype ApiMessage = ApiMessage(content: Option<string>)
  datatype Choice = Choice(message: Option<ApiMessage>)
  /** The decoded body: choices absent, or a list whose entries may be null. */
  datatype Envelope = Envelope(choices: Option<seq<Option<Choice>>>)
  /** Unreachable: fetch rejected. Answered: an HTTP status and the body,
      None when the body is not JSON. */
  datatype Transport = Unreachable | Answered(status: int, body: Option<Envelope>)

  datatype Outcome<T> = Ok(value: T) | Fail

  /** The chat messages sent: the system instruction and the user prompt. */
  datatype ChatRequest = ChatRequest(system: string, user: string)

  /** The status counts as success (response.ok): it lies in 200..299. */
  predicate StatusOk(status: int) {
    200 <= status <= 299
  }

  /** makeRequest: fails unless the status is 2xx, the body is JSON and
      choices[0].message is present; otherwise yields that message's content,
      which may itself be absent. */
  function MakeRequest(t: Transport): (r: Outcome<Option<string>>)
    ensures r.Ok? <==>
              t.Answered? && StatusOk(t.status) && t.body.Some?
              && t.body.value.choices.Some? && |t.body.value.choices.value| > 0
              && t.body.value.choices.value[0].Some?
              && t.body.value.choices.value[0].value.message.Some?
    ensures r.Ok? ==> r.value == t.body.value.choices.value[0].value.message.value.content
  {
    match t
    case Unreachable => Fail
    case Answered(status, body) =>
      if !StatusOk(status) then Fail
      else match body
        case None => Fail
        case Some(env) =>
          match env.choices
          case None => Fail
          case Some(cs) =>
            if |cs| == 0 then Fail
            else match cs[0]
              case None => Fail
              case Some(choice) =>
                match choice.message
                case None => Fail
                case Some(msg) => Ok(msg.content)
  }

  /** The reply text the callers go on with. An absent content makes their
      next string operation throw, which lands in the same catch as a failed
      request. */
  function ReplyText(t: Transport): (r: Option<string>)
    ensures r.Some? <==> MakeRequest(t).Ok? && MakeRequest(t).value.Some?
    ensures r.Some? ==> MakeRequest(t) == Ok(Some(r.value))
  {
    match MakeRequest(t)
    case Ok(Some(text)) => Some(text)
    case _ => None
  }

  // ---------------------------------------------------------------------------
  // JavaScript defaults
  // ---------------------------------------------------------------------------

  /** What JSON.parse gave: a syntax error, null (whose fields cannot be read),
      or a value whose fields are read; a non-object value has none of them. */
  datatype Parsed<F> = Unparseable | JsonNull | JsonValue(fields: F)

  /** n || d on a number: a missing value and 0 both give d. */
  function NumberOr(n: Option<int>, d: int): (r: int)
    ensures n.Some? && n.value != 0 ==> r == n.value
    ensures n.None? || n == Some(0) ==> r == d
  {
    match n
    case Some(v) => if v != 0 then v else d
    case None => d
  }

  /** s || d on a string: a missing value and "" both give d. */
  function TextOr(s: Option<string>, d: string): (r: string)
    ensures s.Some? && s.value != "" ==> r == s.value
    ensures s.None? || s == Some("") ==> r == d
  {
    match s
    case Some(v) => if v != "" then v else d
    case None => d
  }

  /** x limited to [lo, hi] by Math.max and Math.min: the nearer bound when x lies outside. */
  function Clamp(lo: int, hi: int, x: int): (r: int)
    requires lo <= hi
    ensures lo <= r <= hi
    ensures lo <= x <= hi ==> r == x
    ensures x < lo ==> r == lo
    ensures x > hi ==> r == hi
  {
    if x < lo then lo else if x > hi then hi else x
  }

  // ---------------------------------------------------------------------------
  // generateQuestionVariations
  // ---------------------------------------------------------------------------

  datatype GenerationRequest = GenerationRequest(
    originalQuestion: string,
    subject: string,
    difficulty: string,
    category: string,
    tags: seq<string>,
    variationCount: Option<int>)

  datatype GenerationResponse = GenerationResponse(variations: seq<string>, uniquenessScore: int)

  /** The fields read from the parsed reply. */
  datatype VariationFields = VariationFields(variations: Option<seq<string>>, uniquenessScore: Option<int>)

  /** How many variations to ask for: the request's count, or 4 when it is missing or 0. */
  function VariationCount(req: GenerationRequest): (n: int)
    ensures n != 0
    ensures req.variationCount.Some? && req.variationCount.value != 0 ==> n == req.variationCount.value
    ensures req.variationCount.None? || req.variationCount == Some(0) ==> n == 4
  {
    NumberOr(req.variationCount, 4)
  }

  const VariationSystem: string :=
    "You are an expert educational content creator. Always respond with valid JSON only."

  /** The user prompt: the fixed instructions around the request's fields and
      the number of variations asked for (instruction text abbreviated). */
  function VariationPromptParts(req: GenerationRequest): seq<string> {
    [ "You are an expert educator creating equivalent but unique variations of lab questions.\n\n"
      + "Original Question: \"", req.originalQuestion,
      "\"\nSubject: ", req.subject,
      "\nDifficulty: ", req.difficulty,
      "\nCategory: ", req.category,
      "\nTags: ", Join(req.tags, ", "),
      "\n\nGenerate ", IntToString(VariationCount(req)),
      " unique but equivalent variations of this question. Be appropriate for ", req.subject,
      " students. Respond with ONLY valid JSON." ]
  }

  function VariationPrompt(req: GenerationRequest): string {
    Concat(VariationPromptParts(req))
  }

  function VariationChat(req: GenerationRequest): ChatRequest {
    ChatRequest(VariationSystem, VariationPrompt(req))
  }

  /** The four variations written without the model. */
  function FallbackVariations(req: GenerationRequest): (v: seq<string>)
    ensures |v| == 4
  {
    var q := req.originalQuestion;
    var lower := ToLower(q);
    [ "Modified version: " + Substitute(q),
      "Alternative approach: Considering " + req.subject + " principles, " + lower,
      "Practical application: In a real-world " + req.subject + " scenario, " + lower,
      "Analytical perspective: From a " + req.difficulty + " level understanding, " + lower ]
  }

  const FallbackUniqueness: int := 70

  /** The fields of the unwrapped reply text when it parses to an object;
      None when there is no text or it parses to anything else. */
  function ParsedReply<F>(reply: Option<string>, parse: string -> Parsed<F>): (r: Option<F>)
    ensures r.Some? <==> reply.Some? && parse(ExtractJson(reply.value)).JsonValue?
    ensures r.Some? ==> r.value == parse(ExtractJson(reply.value)).fields
  {
    match reply
    case None => None
    case Some(text) =>
      match parse(ExtractJson(text))
      case JsonValue(f) => Some(f)
      case _ => None
  }

  /** The reply's fields, or None when the request, the content or the parse
      failed; every such failure ends in the catch. */
  function VariationReply(req: GenerationRequest, send: ChatRequest -> Transport,
                          parse: string -> Parsed<VariationFields>): (r: Option<VariationFields>)
    ensures r.Some? ==> exists text :: ReplyText(send(VariationChat(req))) == Some(text)
                                       && parse(ExtractJson(text)) == JsonValue(r.value)
    ensures forall text :: ReplyText(send(VariationChat(req))) == Some(text) && parse(ExtractJson(text)).JsonValue? ==>
              r == Some(parse(ExtractJson(text)).fields)
  {
    ParsedReply(ReplyText(send(VariationChat(req))), parse)
  }

  /** The response built from the parsed fields. */
  function ShapeVariations(f: VariationFields): (r: GenerationResponse)
    ensures r.uniquenessScore != 0
    ensures r.variations == f.variations.GetOr([])
    ensures f.uniquenessScore.Some? && f.uniquenessScore.value != 0 ==> r.uniquenessScore == f.uniquenessScore.value
    ensures f.uniquenessScore.None? || f.uniquenessScore == Some(0) ==> r.uniquenessScore == 75
  {
    GenerationResponse(f.variations.GetOr([]), NumberOr(f.uniquenessScore, 75))
  }

  function GenerateQuestionVariations(req: GenerationRequest, send: ChatRequest -> Transport,
                                      parse: string -> Parsed<VariationFields>): (r: GenerationResponse)
    ensures r.uniquenessScore != 0
    ensures VariationReply(req, send, parse).None? ==>
              r == GenerationResponse(FallbackVariations(req), FallbackUniqueness)
    ensures VariationReply(req, send, parse).Some? ==>
              r == ShapeVariations(VariationReply(req, send, parse).value)
  {
    VariationOutcome(req, VariationReply(req, send, parse))
  }

  /** The catch's fallback when there is no reply, the shaped fields otherwise. */
  function VariationOutcome(req: GenerationRequest, reply: Option<VariationFields>): (r: GenerationResponse)
    ensures r.uniquenessScore != 0
    ensures reply.None? ==> r == GenerationResponse(FallbackVariations(req), FallbackUniqueness)
    ensures reply.Some? ==> r == ShapeVariations(reply.value)
  {
    match reply
    case None => GenerationResponse(FallbackVariations(req), FallbackUniqueness)
    case Some(f) => ShapeVariations(f)
  }

  // ---------------------------------------------------------------------------
  // evaluateAnswer
  // ---------------------------------------------------------------------------

  datatype EvaluationRequest = EvaluationRequest(question: string, studentAnswer: string, subject: string)

  datatype EvaluationResponse = EvaluationResponse(
    score: int, feedback: string, strengths: seq<string>, improvements: seq<string>)

  datatype EvaluationFields = EvaluationFields(
    score: Option<int>, feedback: Option<string>,
    strengths: Option<seq<string>>, improvements: Option<seq<string>>)

  const DefaultFeedback: string :=
    "Good effort demonstrated. Continue to develop your understanding of the key concepts."
  const DefaultStrengths: seq<string> := ["Shows understanding of basic concepts"]
  const DefaultImprovements: seq<string> := ["Consider providing more detailed explanations"]

  const FallbackFeedback: string := "Good understanding demonstrated. Consider expanding on key concepts."
  const FallbackStrengths: seq<string> := ["Shows grasp of fundamental principles"]
  const FallbackImprovements: seq<string> := ["Provide more detailed explanations", "Include specific examples"]

  const EvaluationSystem: string :=
    "You are an expert educator providing fair, constructive, and bias-free evaluation of student work."

  function EvaluationPromptParts(req: EvaluationRequest): seq<string> {
    [ "You are an expert educator evaluating a student's answer to a lab question.\n\n"
      + "Question: \"", req.question,
      "\"\nSubject: ", req.subject,
      "\nStudent Answer: \"", req.studentAnswer,
      "\"\n\nEvaluate this answer: a score from 0-100, feedback, strengths and improvements."
      + " Respond with ONLY valid JSON." ]
  }

  function EvaluationPrompt(req: EvaluationRequest): string {
    Concat(EvaluationPromptParts(req))
  }

  function EvaluationChat(req: EvaluationRequest): ChatRequest {
    ChatRequest(EvaluationSystem, EvaluationPrompt(req))
  }

  /** The score invented when the evaluation fails: r in [0, 1) scaled to a whole number from 60 to 99. */
  function RandomScore(r: real): (score: int)
    requires 0.0 <= r < 1.0
    ensures 60 <= score <= 99
  {
    (r * 40.0).Floor + 60
  }

  function EvaluationReply(req: EvaluationRequest, send: ChatRequest -> Transport,
                           parse: string -> Parsed<EvaluationFields>): (r: Option<EvaluationFields>)
    ensures r.Some? ==> exists text :: ReplyText(send(EvaluationChat(req))) == Some(text)
                                       && parse(ExtractJson(text)) == JsonValue(r.value)
    ensures forall text :: ReplyText(send(EvaluationChat(req))) == Some(text) && parse(ExtractJson(text)).JsonValue? ==>
              r == Some(parse(ExtractJson(text)).fields)
  {
    ParsedReply(ReplyText(send(EvaluationChat(req))), parse)
  }

  /** The evaluation built from the parsed fields. An array is truthy even when
      empty, so only a missing list takes its default. */
  function ShapeEvaluation(f: EvaluationFields): (e: EvaluationResponse)
    ensures 0 <= e.score <= 100 && e.feedback != []
    ensures f.score.None? || f.score == Some(0) ==> e.score == 75
    ensures f.score.Some? && 0 < f.score.value <= 100 ==> e.score == f.score.value
    ensures f.score.Some? && f.score.value < 0 ==> e.score == 0
    ensures f.score.Some? && f.score.value > 100 ==> e.score == 100
    ensures f.feedback.Some? && f.feedback.value != "" ==> e.feedback == f.feedback.value
    ensures f.feedback.None? || f.feedback == Some("") ==> e.feedback == DefaultFeedback
    ensures e.strengths == f.strengths.GetOr(DefaultStrengths)
    ensures e.improvements == f.improvements.GetOr(DefaultImprovements)
  {
    EvaluationResponse(
      Clamp(0, 100, NumberOr(f.score, 75)),
      TextOr(f.feedback, DefaultFeedback),
      f.strengths.GetOr(DefaultStrengths),
      f.improvements.GetOr(DefaultImprovements))
  }

  function EvaluateAnswer(req: EvaluationRequest, send: ChatRequest -> Transport,
                          parse: string -> Parsed<EvaluationFields>, r: real): (e: EvaluationResponse)
    requires 0.0 <= r < 1.0
    ensures 0 <= e.score <= 100 && e.feedback != []
    ensures EvaluationReply(req, send, parse).Some? ==>
              e == ShapeEvaluation(EvaluationReply(req, send, parse).value)
    ensures EvaluationReply(req, send, parse).None? ==>
              60 <= e.score <= 99 && e.feedback == FallbackFeedback
              && e.strengths == FallbackStrengths && e.improvements == FallbackImprovements
  {
    EvaluationOutcome(EvaluationReply(req, send, parse), r)
  }

  /** The shaped fields when there is a reply, the catch's fallback otherwise. */
  function EvaluationOutcome(reply: Option<EvaluationFields>, r: real): (e: EvaluationResponse)
    requires 0.0 <= r < 1.0
    ensures 0 <= e.score <= 100 && e.feedback != []
    ensures reply.Some? ==> e == ShapeEvaluation(reply.value)
    ensures reply.None? ==>
              e == EvaluationResponse(RandomScore(r), FallbackFeedback, FallbackStrengths, FallbackImprovements)
  {
    match reply
    case Some(f) => ShapeEvaluation(f)
    case None => EvaluationResponse(RandomScore(r), FallbackFeedback, FallbackStrengths, FallbackImprovements)
  }

  // ---------------------------------------------------------------------------
  // checkQuestionUniqueness
  // ---------------------------------------------------------------------------

  /** Line i of the list: "{i+1}. {q_i}". */
  function NumberedLines(questions: seq<string>): (lines: seq<string>)
    ensures |lines| == |questions|
  {
    seq(|questions|, i requires 0 <= i < |questions| => Decimal(i + 1) + ". " + questions[i])
  }

  function NumberedList(questions: seq<string>): string {
    Join(NumberedLines(questions), "\n")
  }

  const UniquenessSystem: string :=
    "You are an expert at analyzing question uniqueness and similarity. Respond with only a number between 0-100."

  /** The chat request, or None when fewer than two questions mean no request is made. */
  function UniquenessChat(questions: seq<string>): (c: Option<ChatRequest>)
    ensures c.Some? <==> |questions| >= 2
  {
    if |questions| < 2 then None
    else Some(ChatRequest(UniquenessSystem,
      "Analyze these questions for uniqueness and similarity:\n\n"
      + NumberedList(questions)
      + "\n\nRate the overall uniqueness of these questions on a scale of 0-100."
      + " Respond with just the numerical score (0-100)."))
  }

  /** The score read from a reply: parseInt of the trimmed text, 75 when it is
      not a number, otherwise clamped to [0, 100]. */
  function ScoreOfReply(text: Option<string>): (score: int)
    ensures 0 <= score <= 100
    ensures text.None? ==> score == 75
    ensures text.Some? && ParseInt(Trim(text.value)).None? ==> score == 75
    ensures text.Some? && ParseInt(Trim(text.value)).Some? ==>
              score == Clamp(0, 100, ParseInt(Trim(text.value)).value)
  {
    match text
    case None => 75
    case Some(t) =>
      match ParseInt(Trim(t))
      case None => 75
      case Some(v) => Clamp(0, 100, v)
  }

  function CheckQuestionUniqueness(questions: seq<string>, send: ChatRequest -> Transport): (score: int)
    ensures 0 <= score <= 100
    ensures |questions| < 2 ==> score == 100
    ensures |questions| >= 2 ==> score == ScoreOfReply(ReplyText(send(UniquenessChat(questions).value)))
  {
    match UniquenessChat(questions)
    case None => 100
    case Some(chat) => ScoreOfReply(ReplyText(send(chat)))
  }

  // ---------------------------------------------------------------------------
  // Lemmas
  // ---------------------------------------------------------------------------

  /** With fewer than two questions the score does not depend on the network. */
  lemma FewQuestionsIgnoreNetwork(questions: seq<string>, send1: ChatRequest -> Transport,
                                  send2: ChatRequest -> Transport)
    requires |questions| < 2
    ensures CheckQuestionUniqueness(questions, send1) == CheckQuestionUniqueness(questions, send2) == 100
  {
  }

  /** A bare number in the reply, with any surrounding whitespace, is the score
      when it lies in [0, 100]. */
  lemma NumericReply(w1: string, n: nat, w2: string)
    requires AllSpace(w1) && AllSpace(w2) && n <= 100
    ensures ScoreOfReply(Some(w1 + Decimal(n) + w2)) == n
  {
    var d := Decimal(n);
    DigitsTrimmed(d);
    TrimAround(w1, d, w2);
    ParseIntDecimal(n);
    assert IntToString(n) == d;
    ScoreOfTrimmed(w1 + d + w2, d, n);
  }

  lemma DigitsTrimmed(d: string)
    requires d != [] && forall i :: 0 <= i < |d| ==> IsDecimalDigit(d[i])
    ensures Trimmed(d)
  {
    assert IsDecimalDigit(d[0]) && IsDecimalDigit(d[|d| - 1]);
  }

  /** A reply whose trimmed text parses to a score in [0, 100] scores exactly that. */
  lemma ScoreOfTrimmed(t: string, d: string, n: int)
    requires Trim(t) == d && ParseInt(d) == Some(n) && 0 <= n <= 100
    ensures ScoreOfReply(Some(t)) == n
  {
  }

  /** A number followed by other text ("85 out of 100") still counts, as
      parseInt reads the longest integer prefix. */
  lemma NumberThenText(n: nat, rest: string)
    requires EndsNumber(rest) && Trimmed(Decimal(n) + rest)
    ensures ScoreOfReply(Some(Decimal(n) + rest)) == Clamp(0, 100, n)
  {
    var t := Decimal(n) + rest;
    TrimOfTrimmed(t);
    ParsedPrefix(n, rest);
  }

  lemma ParsedPrefix(n: nat, rest: string)
    requires EndsNumber(rest)
    ensures ParseInt(Decimal(n) + rest) == Some(n as int)
  {
    assert IntToString(n) == Decimal(n);
    ParseIntDecimalPrefix(n, rest);
  }

  /** A reply that does not start with a digit or a sign scores 75. */
  lemma NonNumericReply(t: string)
    requires Trim(t) == [] || !(IsDecimalDigit(Trim(t)[0]) || Trim(t)[0] == '-' || Trim(t)[0] == '+')
    ensures ScoreOfReply(Some(t)) == 75
  {
    var u := Trim(t);
    TrimSpec(t);
    TrimOfTrimmed(u);
    assert TrimStart(u) == u;
    ParseIntNoDigits(u);
  }

  /** The numbered list splits back into its lines when no question holds a
      line break, and each line's number reads back as its position plus one. */
  lemma NumberedListRoundTrip(questions: seq<string>)
    requires |questions| >= 1
    requires forall i :: 0 <= i < |questions| ==> '\n' !in questions[i]
    ensures Split(NumberedList(questions), '\n') == NumberedLines(questions)
  {
    var lines := NumberedLines(questions);
    forall i | 0 <= i < |lines|
      ensures '\n' !in lines[i]
    {
      var d := Decimal(i + 1);
      assert lines[i] == d + ". " + questions[i];
      assert forall k :: 0 <= k < |d| ==> d[k] != '\n';
    }
    SplitJoin(lines, '\n');
  }

  lemma NumberedLineNumber(questions: seq<string>, i: nat)
    requires i < |questions|
    ensures ParseInt(NumberedLines(questions)[i]) == Some(i + 1)
  {
    var rest := ". " + questions[i];
    assert NumberedLines(questions)[i] == Decimal(i + 1) + rest;
    assert IntToString(i + 1) == Decimal(i + 1);
    ParseIntDecimalPrefix(i + 1, rest);
  }

  /** The fallback variations: the first rewrites the interrogatives, the other
      three are the lower-cased question after a fixed lead-in naming the
      subject or the difficulty. */
  lemma FallbackShape(req: GenerationRequest)
    ensures var v := FallbackVariations(req);
            |v| == 4
            && v[0] == "Modified version: " + Reworded(req.originalQuestion)
            && (forall i :: 1 <= i < 4 ==> EndsWith(v[i], ToLower(req.originalQuestion)))
            && Contains(v[1], req.subject) && Contains(v[2], req.subject)
            && Contains(v[3], req.difficulty)
  {
    var q := req.originalQuestion;
    var lower := ToLower(q);
    var v := FallbackVariations(req);
    SubstituteIsReworded(q);
    LeadIn(v[1], "Alternative approach: Considering ", req.subject, " principles, ", lower);
    LeadIn(v[2], "Practical application: In a real-world ", req.subject, " scenario, ", lower);
    LeadIn(v[3], "Analytical perspective: From a ", req.difficulty, " level understanding, ", lower);
  }

  /** A line made of a lead-in, a field, a connective and a tail ends with
      the tail and contains the field. */
  lemma LeadIn(s: string, a: string, x: string, mid: string, tail: string)
    requires s == a + x + mid + tail
    ensures EndsWith(s, tail) && Contains(s, x)
  {
    assert s == a + x + (mid + tail);
    ContainsAt(a, x, mid + tail);
    assert s == (a + x + mid) + tail;
  }

  predicate EndsWith(s: string, suffix: string) {
    |suffix| <= |s| && s[|s| - |suffix|..] == suffix
  }

  predicate OccursAt(s: string, part: string, i: nat) {
    i + |part| <= |s| && s[i..i + |part|] == part
  }

  ghost predicate Contains(s: string, part: string) {
    exists i :: OccursAt(s, part, i)
  }

  lemma ContainsAt(a: string, part: string, b: string)
    ensures Contains(a + part + b, part)
  {
    var s := a + part + b;
    assert OccursAt(s, part, |a|);
  }

  lemma SliceAfterPrefix(a: string, t: string, i: nat, n: nat)
    requires i + n <= |t|
    ensures (a + t)[|a| + i..|a| + i + n] == t[i..i + n]
  {
    var u := (a + t)[|a| + i..|a| + i + n];
    var v := t[i..i + n];
    assert forall j :: 0 <= j < n ==> u[j] == v[j];
  }

  /** Template literals: the pieces written one after another. */
  function Concat(parts: seq<string>): string {
    if parts == [] then [] else parts[0] + Concat(parts[1..])
  }

  lemma {:induction false} ConcatContains(parts: seq<string>, k: nat)
    requires k < |parts|
    ensures Contains(Concat(parts), parts[k])
  {
    var s := Concat(parts);
    if k == 0 {
      assert OccursAt(s, parts[0], 0);
    } else {
      ConcatContains(parts[1..], k - 1);
      var t := Concat(parts[1..]);
      var i: nat :| OccursAt(t, parts[k], i);
      assert s == parts[0] + t;
      SliceAfterPrefix(parts[0], t, i, |parts[k]|);
      assert OccursAt(s, parts[k], |parts[0]| + i);
    }
  }

  /** The prompt carries the question, the subject, the tags joined by ", "
      and the requested count. */
  lemma VariationPromptFields(req: GenerationRequest)
    ensures Contains(VariationPrompt(req), req.originalQuestion)
    ensures Contains(VariationPrompt(req), req.subject)
    ensures Contains(VariationPrompt(req), Join(req.tags, ", "))
    ensures Contains(VariationPrompt(req), IntToString(VariationCount(req)))
  {
    var parts := VariationPromptParts(req);
    ConcatContains(parts, 1);
    ConcatContains(parts, 3);
    ConcatContains(parts, 9);
    ConcatContains(parts, 11);
  }

  /** The evaluation prompt carries the question and the student's answer. */
  lemma EvaluationPromptFields(req: EvaluationRequest)
    ensures Contains(EvaluationPrompt(req), req.question)
    ensures Contains(EvaluationPrompt(req), req.studentAnswer)
  {
    var parts := EvaluationPromptParts(req);
    ConcatContains(parts, 1);
    ConcatContains(parts, 5);
  }

  /** A reply wrapped in a ```json fence is read as the same fields as its
      bare contents. */
  lemma FencedReplyParsesLikeBare(t: string, parse: string -> Parsed<VariationFields>)
    requires NoBacktick(t)
    ensures parse(ExtractJson("```json" + t + "```")) == parse(Trim(t))
  {
    JsonTagSkipped(t, "```json" + t + "```");
  }

  /** The success path: a 2xx reply whose JSON has a positive score and a list
      keeps both as they are, without clamping. */
  lemma VariationSuccess(req: GenerationRequest, send: ChatRequest -> Transport,
                         parse: string -> Parsed<VariationFields>, text: string, vs: seq<string>, score: int)
    requires MakeRequest(send(VariationChat(req))) == Ok(Some(text))
    requires parse(ExtractJson(text)) == JsonValue(VariationFields(Some(vs), Some(score)))
    requires score != 0
    ensures GenerateQuestionVariations(req, send, parse) == GenerationResponse(vs, score)
  {
    assert ReplyText(send(VariationChat(req))) == Some(text);
  }

  /** The evaluation's success path: a 2xx reply whose unwrapped text parses
      to an object is shaped from that object's fields. */
  lemma EvaluationSuccess(req: EvaluationRequest, send: ChatRequest -> Transport,
                          parse: string -> Parsed<EvaluationFields>, text: string, f: EvaluationFields, r: real)
    requires 0.0 <= r < 1.0
    requires MakeRequest(send(EvaluationChat(req))) == Ok(Some(text))
    requires parse(ExtractJson(text)) == JsonValue(f)
    ensures EvaluateAnswer(req, send, parse, r) == ShapeEvaluation(f)
  {
    assert ReplyText(send(EvaluationChat(req))) == Some(text);
  }

  /** A transport failure in any form gives the fixed fallback. */
  lemma VariationFailure(req: GenerationRequest, send: ChatRequest -> Transport,
                         parse: string -> Parsed<VariationFields>)
    requires MakeRequest(send(VariationChat(req))).Fail?
    ensures GenerateQuestionVariations(req, send, parse)
            == GenerationResponse(FallbackVariations(req), 70)
  {
  }
}
