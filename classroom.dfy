/** The in-memory bookkeeping of the lab page: students, questions,
    allocations of questions to students, assignments and submissions. Each
    handler is a function from the old lists to the new ones; ids built from
    the clock take the clock reading as a parameter stamp. */
module Classroom {
  import opened JsText
  import opened AiService

  datatype Student = Student(id: string, name: string)

  datatype Question = Question(
    id: string,
    originalQuestion: string,
    generatedVariations: seq<string>,
    subject: string,
    difficulty: string,
    category: string,
    tags: seq<string>,
    isActive: bool)

  datatype Allocation = Allocation(id: string, questionId: string, studentId: string, isCompleted: bool)

  datatype Assignment = Assignment(
    id: string, title: string, description: string, questionIds: seq<string>, dueDate: string, isActive: bool)

  datatype Submission = Submission(
    id: string,
    questionId: string,
    assignmentId: Option<string>,
    studentName: string,
    answer: string,
    aiScore: Option<int>,
    feedback: Option<string>,
    strengths: Option<seq<string>>,
    improvements: Option<seq<string>>,
    teacherReview: Option<string>)

  // ---------------------------------------------------------------------------
  // Students
  // ---------------------------------------------------------------------------

  /** The roster the page starts with. */
  const InitialStudents: seq<Student> :=
    [Student("1", "Alice Johnson"), Student("2", "Bob Smith"), Student("3", "Carol Davis")]

  /** Every name on the roster is trimmed and not blank. */
  predicate NamesValid(students: seq<Student>) {
    forall i :: 0 <= i < |students| ==> students[i].name != [] && Trimmed(students[i].name)
  }

  /** addStudent: the roster and the input box after the click. A blank input
      changes nothing; otherwise one student carrying the trimmed name is
      appended and the box is cleared. */
  function AddStudent(students: seq<Student>, input: string, stamp: string): (r: (seq<Student>, string))
    ensures Trim(input) == [] ==> r == (students, input)
    ensures Trim(input) != [] ==> r.0 == students + [Student(stamp, Trim(input))] && r.1 == ""
  {
    var name := Trim(input);
    if name == [] then (students, input) else (students + [Student(stamp, name)], "")
  }

  lemma InitialNamesValid()
    ensures NamesValid(InitialStudents)
  {
    assert Trimmed(InitialStudents[0].name) && Trimmed(InitialStudents[1].name) && Trimmed(InitialStudents[2].name);
  }

  /** Adding keeps every name trimmed and non-blank, and the old roster is a
      prefix of the new one. */
  lemma AddStudentKeepsNamesValid(students: seq<Student>, input: string, stamp: string)
    requires NamesValid(students)
    ensures NamesValid(AddStudent(students, input, stamp).0)
    ensures AddStudent(students, input, stamp).0[..|students|] == students
    ensures |AddStudent(students, input, stamp).0| == |students| + (if Trim(input) == [] then 0 else 1)
  {
    TrimSpec(input);
    var r := AddStudent(students, input, stamp).0;
    assert r[..|students|] == students;
  }

  /** removeStudent: the roster and the allocations without that student. */
  function RemoveStudent(students: seq<Student>, allocations: seq<Allocation>, studentId: string)
    : (r: (seq<Student>, seq<Allocation>))
    ensures IsSubsequence(r.0, students) && IsSubsequence(r.1, allocations)
    ensures forall i :: 0 <= i < |r.0| ==> r.0[i].id != studentId
    ensures forall i :: 0 <= i < |r.1| ==> r.1[i].studentId != studentId
    ensures forall s :: multiset(r.0)[s] == if s.id != studentId then multiset(students)[s] else 0
    ensures forall a :: multiset(r.1)[a] == if a.studentId != studentId then multiset(allocations)[a] else 0
  {
    (Filter(students, (s: Student) => s.id != studentId), Filter(allocations, (a: Allocation) => a.studentId != studentId))
  }

  /** Removing a student that is not on the roster and has no allocations
      changes nothing. */
  lemma RemoveAbsentStudent(students: seq<Student>, allocations: seq<Allocation>, studentId: string)
    requires forall i :: 0 <= i < |students| ==> students[i].id != studentId
    requires forall i :: 0 <= i < |allocations| ==> allocations[i].studentId != studentId
    ensures RemoveStudent(students, allocations, studentId) == (students, allocations)
  {
    FilterAll(students, (s: Student) => s.id != studentId);
    FilterAll(allocations, (a: Allocation) => a.studentId != studentId);
  }

  // ---------------------------------------------------------------------------
  // Allocations
  // ---------------------------------------------------------------------------

  /** The allocations of one question to each listed student, in list order. */
  function NewAllocations(questionId: string, studentIds: seq<string>, stamp: string): (r: seq<Allocation>)
    ensures |r| == |studentIds|
    ensures forall i :: 0 <= i < |r| ==>
              r[i].questionId == questionId && r[i].studentId == studentIds[i] && !r[i].isCompleted
  {
    seq(|studentIds|, i requires 0 <= i < |studentIds| =>
      Allocation(questionId + "-" + studentIds[i] + "-" + stamp, questionId, studentIds[i], false))
  }

  /** allocateQuestion: the old allocations, then one new one per student id. */
  function AllocateQuestion(allocations: seq<Allocation>, questionId: string, studentIds: seq<string>,
                            stamp: string): (r: seq<Allocation>)
    ensures |r| == |allocations| + |studentIds|
    ensures r[..|allocations|] == allocations
    ensures forall i :: 0 <= i < |studentIds| ==>
              r[|allocations| + i].questionId == questionId && r[|allocations| + i].studentId == studentIds[i]
              && !r[|allocations| + i].isCompleted
  {
    var added := NewAllocations(questionId, studentIds, stamp);
    assert forall i :: 0 <= i < |studentIds| ==> (allocations + added)[|allocations| + i] == added[i];
    allocations + added
  }

  /** removeAllocation: drops every allocation with that id and keeps the rest in order. */
  function RemoveAllocation(allocations: seq<Allocation>, allocationId: string): (r: seq<Allocation>)
    ensures IsSubsequence(r, allocations)
    ensures forall i :: 0 <= i < |r| ==> r[i].id != allocationId
    ensures forall a :: multiset(r)[a] == if a.id != allocationId then multiset(allocations)[a] else 0
  {
    Filter(allocations, (a: Allocation) => a.id != allocationId)
  }

  /** students.find by case-insensitive name: the first match. */
  function FindStudentByName(students: seq<Student>, name: string): (r: Option<nat>)
    ensures r.Some? ==> r.value < |students| && ToLower(students[r.value].name) == ToLower(name)
    ensures r.Some? ==> forall j :: 0 <= j < r.value ==> ToLower(students[j].name) != ToLower(name)
    ensures r.None? ==> forall j :: 0 <= j < |students| ==> ToLower(students[j].name) != ToLower(name)
  {
    if students == [] then None
    else if ToLower(students[0].name) == ToLower(name) then Some(0)
    else match FindStudentByName(students[1..], name)
      case None => None
      case Some(k) => Some(k + 1)
  }

  /** Some allocation in the list is for the question with this id. */
  predicate AnyFor(allocations: seq<Allocation>, questionId: string) {
    exists a :: a in allocations && a.questionId == questionId
  }

  /** getAllocatedQuestionsForStudent: the questions, in order and with their own
      multiplicity, that have an allocation to the first student with that name. */
  function GetAllocatedQuestionsForStudent(students: seq<Student>, allocations: seq<Allocation>,
                                           questions: seq<Question>, name: string): (r: seq<Question>)
    ensures FindStudentByName(students, name).None? ==> r == []
    ensures IsSubsequence(r, questions)
    ensures FindStudentByName(students, name).Some? ==>
              var sid := students[FindStudentByName(students, name).value].id;
              forall q :: multiset(r)[q] ==
                if (exists a :: a in allocations && a.studentId == sid && a.questionId == q.id)
                then multiset(questions)[q] else 0
  {
    match FindStudentByName(students, name)
    case None => []
    case Some(k) =>
      var mine := Filter(allocations, (a: Allocation) => a.studentId == students[k].id);
      assert forall a :: a in mine <==> a in allocations && a.studentId == students[k].id by {
        forall a
          ensures a in mine <==> a in allocations && a.studentId == students[k].id
        {
          assert a in mine <==> multiset(mine)[a] > 0;
        }
      }
      Filter(questions, (q: Question) => AnyFor(mine, q.id))
  }

  /** A question allocated to a student becomes one of that student's
      questions, looked up by any spelling of the name. */
  lemma AllocatedQuestionIsListed(students: seq<Student>, allocations: seq<Allocation>,
                                  questions: seq<Question>, q: Question, studentIds: seq<string>,
                                  stamp: string, name: string)
    requires q in questions
    requires FindStudentByName(students, name).Some?
    requires students[FindStudentByName(students, name).value].id in studentIds
    ensures q in GetAllocatedQuestionsForStudent(students, AllocateQuestion(allocations, q.id, studentIds, stamp),
                                                 questions, name)
  {
    var sid := students[FindStudentByName(students, name).value].id;
    var after := AllocateQuestion(allocations, q.id, studentIds, stamp);
    var i :| 0 <= i < |studentIds| && studentIds[i] == sid;
    var a := after[|allocations| + i];
    assert a in after && a.studentId == sid && a.questionId == q.id;
    var r := GetAllocatedQuestionsForStudent(students, after, questions, name);
    assert multiset(r)[q] == multiset(questions)[q];
  }

  /** With distinct questions the lookup lists each question at most once,
      however many allocations point at it. */
  lemma AllocatedQuestionsDistinct(students: seq<Student>, allocations: seq<Allocation>,
                                   questions: seq<Question>, name: string, q: Question)
    requires multiset(questions)[q] <= 1
    ensures multiset(GetAllocatedQuestionsForStudent(students, allocations, questions, name))[q] <= 1
  {
  }

  // ---------------------------------------------------------------------------
  // Questions and assignments
  // ---------------------------------------------------------------------------

  /** deleteQuestion: the question goes; its allocations are not touched. */
  function DeleteQuestion(questions: seq<Question>, questionId: string): (r: seq<Question>)
    ensures IsSubsequence(r, questions)
    ensures forall i :: 0 <= i < |r| ==> r[i].id != questionId
    ensures forall q :: multiset(r)[q] == if q.id != questionId then multiset(questions)[q] else 0
  {
    Filter(questions, (q: Question) => q.id != questionId)
  }

  /** toggleQuestionStatus: flips isActive of the questions with that id and
      leaves every other field and question as it was. */
  function ToggleQuestionStatus(questions: seq<Question>, questionId: string): (r: seq<Question>)
    ensures |r| == |questions|
    ensures forall i :: 0 <= i < |r| ==> r[i].id == questions[i].id
    ensures forall i :: 0 <= i < |r| && questions[i].id == questionId ==>
              r[i] == questions[i].(isActive := !questions[i].isActive)
    ensures forall i :: 0 <= i < |r| && questions[i].id != questionId ==> r[i] == questions[i]
  {
    seq(|questions|, i requires 0 <= i < |questions| =>
      if questions[i].id == questionId then questions[i].(isActive := !questions[i].isActive) else questions[i])
  }

  /** Toggling twice restores the list. */
  lemma ToggleTwice(questions: seq<Question>, questionId: string)
    ensures ToggleQuestionStatus(ToggleQuestionStatus(questions, questionId), questionId) == questions
  {
    var once := ToggleQuestionStatus(questions, questionId);
    var twice := ToggleQuestionStatus(once, questionId);
    forall i | 0 <= i < |questions|
      ensures twice[i] == questions[i]
    {
    }
  }

  /** The create-assignment form submits only with a title, at least one
      question and a due date. */
  predicate AssignmentFormReady(title: string, selectedQuestions: seq<string>, dueDate: string) {
    Trim(title) != [] && |selectedQuestions| > 0 && dueDate != ""
  }

  /** createAssignment: a new active assignment in front of the others. */
  function CreateAssignment(assignments: seq<Assignment>, title: string, description: string,
                            questionIds: seq<string>, dueDate: string, stamp: string): (r: seq<Assignment>)
    ensures |r| == |assignments| + 1 && r[1..] == assignments
    ensures r[0] == Assignment(stamp, title, description, questionIds, dueDate, true)
  {
    [Assignment(stamp, title, description, questionIds, dueDate, true)] + assignments
  }

  /** The form's submit: the assignments after it, and whether the form was
      accepted (and so cleared). The title is passed untrimmed, as typed. */
  function SubmitAssignmentForm(assignments: seq<Assignment>, title: string, description: string,
                                selectedQuestions: seq<string>, dueDate: string, stamp: string)
    : (r: (seq<Assignment>, bool))
    ensures r.1 <==> AssignmentFormReady(title, selectedQuestions, dueDate)
    ensures !r.1 ==> r.0 == assignments
    ensures r.1 ==> r.0 == CreateAssignment(assignments, title, description, selectedQuestions, dueDate, stamp)
  {
    if AssignmentFormReady(title, selectedQuestions, dueDate)
    then (CreateAssignment(assignments, title, description, selectedQuestions, dueDate, stamp), true)
    else (assignments, false)
  }

  // ---------------------------------------------------------------------------
  // Submissions
  // ---------------------------------------------------------------------------

  datatype SubmitResult = QuestionNotFound | Submitted(submission: Submission, submissions: seq<Submission>)

  const FallbackSubmissionFeedback: string :=
    "Answer submitted successfully. AI evaluation temporarily unavailable - manual review may be required."

  function FindQuestion(questions: seq<Question>, questionId: string): (r: Option<nat>)
    ensures r.Some? ==> r.value < |questions| && questions[r.value].id == questionId
    ensures r.None? ==> forall j :: 0 <= j < |questions| ==> questions[j].id != questionId
  {
    if questions == [] then None
    else if questions[0].id == questionId then Some(0)
    else match FindQuestion(questions[1..], questionId)
      case None => None
      case Some(k) => Some(k + 1)
  }

  /** What evaluateAnswer is asked about a question and an answer. */
  function EvaluationFor(q: Question, answer: string): EvaluationRequest {
    EvaluationRequest(q.originalQuestion, answer, q.subject)
  }

  /** submitAnswer. evaluate(req) is what evaluateAnswer resolves to on req,
      None when it throws; the new submission goes in front. */
  function SubmitAnswer(questions: seq<Question>, submissions: seq<Submission>, questionId: string,
                        studentName: string, answer: string, assignmentId: Option<string>,
                        evaluate: EvaluationRequest -> Option<EvaluationResponse>, stamp: string): (r: SubmitResult)
    ensures FindQuestion(questions, questionId).None? <==> r.QuestionNotFound?
    ensures r.Submitted? ==> r.submissions == [r.submission] + submissions
    ensures r.Submitted? ==> r.submission.questionId == questionId && r.submission.studentName == studentName
                             && r.submission.answer == answer && r.submission.assignmentId == assignmentId
                             && r.submission.id == stamp
    ensures r.Submitted? ==>
              var evaluation := evaluate(EvaluationFor(questions[FindQuestion(questions, questionId).value], answer));
              (evaluation.Some? ==>
                 r.submission.aiScore == Some(evaluation.value.score)
                 && r.submission.feedback == Some(evaluation.value.feedback)
                 && r.submission.strengths == Some(evaluation.value.strengths)
                 && r.submission.improvements == Some(evaluation.value.improvements)
                 && r.submission.teacherReview.None?)
              && (evaluation.None? ==>
                 r.submission.aiScore == Some(75) && r.submission.teacherReview == Some("AI evaluation unavailable")
                 && r.submission.feedback == Some(FallbackSubmissionFeedback)
                 && r.submission.strengths == Some(["Answer submitted completely"])
                 && r.submission.improvements == Some(["AI feedback unavailable - please check with instructor"]))
  {
    match FindQuestion(questions, questionId)
    case None => QuestionNotFound
    case Some(k) =>
      var s := match evaluate(EvaluationFor(questions[k], answer))
        case Some(e) =>
          Submission(stamp, questionId, assignmentId, studentName, answer, Some(e.score), Some(e.feedback),
                     Some(e.strengths), Some(e.improvements), None)
        case None =>
          Submission(stamp, questionId, assignmentId, studentName, answer, Some(75),
                     Some(FallbackSubmissionFeedback), Some(["Answer submitted completely"]),
                     Some(["AI feedback unavailable - please check with instructor"]),
                     Some("AI evaluation unavailable"));
      Submitted(s, [s] + submissions)
  }

  /** Every recorded score lies in [0, 100]: the evaluator clamps, the
      fallback is 75. threw says whether evaluateAnswer throws. */
  lemma SubmittedScoreInRange(questions: seq<Question>, submissions: seq<Submission>, questionId: string,
                              studentName: string, answer: string, assignmentId: Option<string>,
                              send: ChatRequest -> Transport, parse: string -> Parsed<EvaluationFields>,
                              rnd: real, threw: bool, stamp: string)
    requires 0.0 <= rnd < 1.0
    ensures var evaluate := (req: EvaluationRequest) =>
              if threw then None else Some(EvaluateAnswer(req, send, parse, rnd));
            var r := SubmitAnswer(questions, submissions, questionId, studentName, answer, assignmentId,
                                  evaluate, stamp);
            r.Submitted? ==> r.submission.aiScore.Some? && 0 <= r.submission.aiScore.value <= 100
  {
    var evaluate := (req: EvaluationRequest) =>
      if threw then None else Some(EvaluateAnswer(req, send, parse, rnd));
    forall req | evaluate(req).Some?
      ensures 0 <= evaluate(req).value.score <= 100
    {
      var e := EvaluateAnswer(req, send, parse, rnd);
      assert evaluate(req) == Some(e);
    }
    SubmittedScoreBounded(questions, submissions, questionId, studentName, answer, assignmentId,
                          evaluate, stamp);
  }

  /** An evaluator whose scores lie in [0, 100] leaves every recorded score there. */
  lemma SubmittedScoreBounded(questions: seq<Question>, submissions: seq<Submission>, questionId: string,
                              studentName: string, answer: string, assignmentId: Option<string>,
                              evaluate: EvaluationRequest -> Option<EvaluationResponse>, stamp: string)
    requires forall req :: evaluate(req).Some? ==> 0 <= evaluate(req).value.score <= 100
    ensures var r := SubmitAnswer(questions, submissions, questionId, studentName, answer, assignmentId,
                                  evaluate, stamp);
            r.Submitted? ==> r.submission.aiScore.Some? && 0 <= r.submission.aiScore.value <= 100
  {
  }

  /** Every submission SubmitAnswer records is about a question that exists. */
  lemma SubmissionNamesExistingQuestion(questions: seq<Question>, submissions: seq<Submission>, questionId: string,
                                        studentName: string, answer: string, assignmentId: Option<string>,
                                        evaluate: EvaluationRequest -> Option<EvaluationResponse>, stamp: string)
    ensures var r := SubmitAnswer(questions, submissions, questionId, studentName, answer, assignmentId,
                                  evaluate, stamp);
            r.Submitted? ==> exists i :: 0 <= i < |questions| && questions[i].id == r.submission.questionId
  {
    var r := SubmitAnswer(questions, submissions, questionId, studentName, answer, assignmentId, evaluate, stamp);
    if r.Submitted? {
      var k := FindQuestion(questions, questionId).value;
      assert questions[k].id == r.submission.questionId;
    }
  }

  // ---------------------------------------------------------------------------
  // The question generator form
  // ---------------------------------------------------------------------------

  /** Each piece trimmed. */
  function TrimAll(pieces: seq<string>): (r: seq<string>)
    ensures |r| == |pieces| && forall i :: 0 <= i < |r| ==> r[i] == Trim(pieces[i])
  {
    seq(|pieces|, i requires 0 <= i < |pieces| => Trim(pieces[i]))
  }

  /** A trimmed piece holds no character its untrimmed piece does not. */
  lemma TrimKeepsOut(t: string, c: char)
    requires c !in t
    ensures c !in Trim(t)
  {
    var a, b := TrimBounds(t);
    assert forall k :: 0 <= k < |Trim(t)| ==> Trim(t)[k] == t[a + k];
  }

  predicate NonEmpty(t: string) { |t| > 0 }

  /** The tags box: split on commas, trim each piece, drop the empty ones. */
  function ParseTags(text: string): (tags: seq<string>)
    ensures forall i :: 0 <= i < |tags| ==> tags[i] != [] && Trimmed(tags[i]) && ',' !in tags[i]
    ensures IsSubsequence(tags, TrimAll(Split(text, ',')))
    ensures forall t :: multiset(tags)[t] == if t != [] then multiset(TrimAll(Split(text, ',')))[t] else 0
  {
    var pieces := Split(text, ',');
    var trimmed := TrimAll(pieces);
    forall t | t in trimmed
      ensures Trimmed(t) && ',' !in t
    {
      var i :| 0 <= i < |trimmed| && trimmed[i] == t;
      TrimSpec(pieces[i]);
      TrimKeepsOut(pieces[i], ',');
    }
    FilterMembers(trimmed, NonEmpty);
    Filter(trimmed, NonEmpty)
  }

  /** Tags joined with ", " parse back to themselves. */
  lemma ParseTagsJoin(tags: seq<string>)
    requires forall i :: 0 <= i < |tags| ==> tags[i] != [] && Trimmed(tags[i]) && ',' !in tags[i]
    ensures ParseTags(Join(tags, ", ")) == tags
  {
    if tags == [] {
      ParseTagsOfEmpty();
    } else {
      var text := Join(tags, ", ");
      SplitSpaced(tags);
      TrimSpaced(tags);
      assert TrimAll(Split(text, ',')) == tags;
      FilterAll(tags, NonEmpty);
      assert ParseTags(text) == Filter(tags, NonEmpty);
    }
  }

  /** An empty tags box gives no tags. */
  lemma ParseTagsOfEmpty()
    ensures ParseTags("") == []
  {
    assert Split([], ',') == [[]];
    assert TrimAll([[]]) == [[]];
    assert Filter([[]], NonEmpty) == [];
  }

  lemma TrimSpaced(tags: seq<string>)
    requires |tags| >= 1
    requires forall i :: 0 <= i < |tags| ==> Trimmed(tags[i])
    ensures TrimAll(Spaced(tags)) == tags
  {
    var pieces := Spaced(tags);
    forall i | 0 <= i < |pieces|
      ensures Trim(pieces[i]) == tags[i]
    {
      if i == 0 {
        TrimOfTrimmed(tags[0]);
      } else {
        TrimAround(" ", tags[i], []);
        assert " " + tags[i] + [] == pieces[i];
      }
    }
  }

  /** Splitting Join(tags, ", ") on commas gives the tags, all but the first
      with the space of the separator in front. */
  lemma SplitSpaced(tags: seq<string>)
    requires |tags| >= 1
    requires forall i :: 0 <= i < |tags| ==> ',' !in tags[i]
    ensures Split(Join(tags, ", "), ',') == Spaced(tags)
  {
    var spaced := Spaced(tags);
    JoinSpaced(tags);
    forall i | 0 <= i < |spaced|
      ensures ',' !in spaced[i]
    {
      if i > 0 {
        assert spaced[i] == " " + tags[i];
      }
    }
    SplitJoin(spaced, ',');
  }

  /** Each part with a leading space. */
  function AllSpaced(parts: seq<string>): (r: seq<string>)
    ensures |r| == |parts| && forall i :: 0 <= i < |r| ==> r[i] == " " + parts[i]
  {
    seq(|parts|, i requires 0 <= i < |parts| => " " + parts[i])
  }

  /** The pieces between the commas of Join(tags, ", "). */
  function Spaced(tags: seq<string>): (r: seq<string>)
    requires |tags| >= 1
    ensures |r| == |tags|
    ensures r[0] == tags[0] && forall i :: 1 <= i < |r| ==> r[i] == " " + tags[i]
  {
    [tags[0]] + AllSpaced(tags[1..])
  }

  lemma {:induction false} JoinAllSpaced(parts: seq<string>)
    requires |parts| >= 1
    ensures " " + Join(parts, ", ") == Join(AllSpaced(parts), ",")
    decreases |parts|
  {
    if |parts| >= 2 {
      var rest := parts[1..];
      JoinAllSpaced(rest);
      var sp := AllSpaced(parts);
      assert sp[1..] == AllSpaced(rest);
      var tail := Join(rest, ", ");
      Regroup(parts[0], tail);
      calc {
        " " + Join(parts, ", ");
        " " + (parts[0] + ", " + tail);
        " " + (parts[0] + "," + (" " + tail));
        (" " + parts[0]) + "," + (" " + tail);
        sp[0] + "," + Join(sp[1..], ",");
        Join(sp, ",");
      }
    } else {
      assert AllSpaced(parts) == [" " + parts[0]];
    }
  }

  lemma Regroup(x: string, y: string)
    ensures x + ", " + y == x + "," + (" " + y)
  {
  }

  lemma JoinSpaced(tags: seq<string>)
    requires |tags| >= 1
    ensures Join(tags, ", ") == Join(Spaced(tags), ",")
  {
    var sp := Spaced(tags);
    if |tags| >= 2 {
      JoinAllSpaced(tags[1..]);
      assert sp[1..] == AllSpaced(tags[1..]);
      var tail := Join(tags[1..], ", ");
      Regroup(tags[0], tail);
      calc {
        Join(tags, ", ");
        tags[0] + ", " + tail;
        tags[0] + "," + (" " + tail);
        sp[0] + "," + Join(sp[1..], ",");
        Join(sp, ",");
      }
    } else {
      assert sp == [tags[0]];
    }
  }

  /** The generator form as submitted. */
  datatype GeneratorForm = GeneratorForm(
    question: string, subject: string, difficulty: string, category: string, tags: string,
    bulkMode: bool, bulkCount: int, autoAllocate: bool)

  /** The arguments handed to generateQuestions. */
  datatype GenerateCall = GenerateCall(
    question: string, subject: string, difficulty: string, category: string, tags: seq<string>,
    bulkCount: Option<int>, autoAllocate: Option<bool>)

  /** handleSubmit of the generator form: nothing unless the question and the
      subject are not blank; then the call (with the bulk options only in bulk
      mode) and the form with its text boxes cleared. */
  function SubmitGeneratorForm(f: GeneratorForm): (r: Option<(GenerateCall, GeneratorForm)>)
    ensures r.Some? <==> Trim(f.question) != [] && Trim(f.subject) != []
    ensures r.Some? ==> r.value.0 == GenerateCall(f.question, f.subject, f.difficulty, f.category, ParseTags(f.tags),
                                                 if f.bulkMode then Some(f.bulkCount) else None,
                                                 if f.bulkMode then Some(f.autoAllocate) else None)
    ensures r.Some? ==> r.value.1 == f.(question := "", subject := "", category := "", tags := "")
  {
    if Trim(f.question) != [] && Trim(f.subject) != [] then
      var call := GenerateCall(f.question, f.subject, f.difficulty, f.category, ParseTags(f.tags),
                               if f.bulkMode then Some(f.bulkCount) else None,
                               if f.bulkMode then Some(f.autoAllocate) else None);
      Some((call, f.(question := "", subject := "", category := "", tags := "")))
    else None
  }
}
