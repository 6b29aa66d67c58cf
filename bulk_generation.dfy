/** Question generation from the page: bulk mode asks the AI service for
    variations in batches of at most four, turns each variation into a
    question of its own and may hand them out to the students, one each;
    single mode makes one question carrying all the variations. Also the
    allocation dialog, which allocates every selected question to every
    selected student. */
module BulkGeneration {
  import opened JsText
  import opened AiService
  import opened Classroom

  function Min(a: int, b: int): (m: int)
    ensures m <= a && m <= b && (m == a || m == b)
  {
    if a <= b then a else b
  }

  /** Bulk mode is on when a bulk count is given and asks for more than one question. */
  predicate IsBulk(bulkCount: Option<int>) {
    bulkCount.Some? && bulkCount.value > 1
  }

  /** The size of a batch: four, or the bulk count when that is smaller. */
  function BatchSize(n: int): (bs: int)
    requires n > 1
    ensures 2 <= bs <= 4 && bs <= n
  {
    Min(4, n)
  }

  /** Math.ceil(bulkCount / batchSize): the fewest batches that hold n. */
  function BatchCount(n: int): (c: nat)
    requires n > 1
    ensures c >= 1
    ensures BatchSize(n) * (c - 1) < n <= BatchSize(n) * c
  {
    var bs := BatchSize(n);
    var c := (n + bs - 1) / bs;
    assert bs * c <= n + bs - 1 < bs * (c + 1);
    c
  }

  /** How many variations the next batch asks for: a batch's worth, or what is still missing when that is less. */
  function Requested(n: int, have: nat): int
    requires n > 1
  {
    Min(BatchSize(n), n - have)
  }

  /** The service gets the form's fields and the count; its own default for a
      count of 0 applies. */
  function BatchRequest(base: GenerationRequest, count: int): GenerationRequest {
    base.(variationCount := Some(count))
  }

  /** The variations batch k comes back with when it asks for count; send(k)
      is how the network and the model answered that batch. */
  function BatchReply(base: GenerationRequest, send: nat -> ChatRequest -> Transport,
                      parse: string -> Parsed<VariationFields>, k: nat, count: int): seq<string>
  {
    GenerateQuestionVariations(BatchRequest(base, count), send(k), parse).variations
  }

  /** The batch replies as one function of the batch index and the count. */
  function Reply(base: GenerationRequest, send: nat -> ChatRequest -> Transport,
                 parse: string -> Parsed<VariationFields>): (nat, int) -> seq<string>
  {
    (k: nat, c: int) => BatchReply(base, send, parse, k, c)
  }

  /** The variations gathered after the first k batches, reply(k, c) being
      what batch k returns when it asks for c. */
  function Collected(reply: (nat, int) -> seq<string>, n: int, k: nat): seq<string>
    requires n > 1
  {
    if k == 0 then []
    else
      var prev := Collected(reply, n, k - 1);
      prev + reply(k - 1, Requested(n, |prev|))
  }

  lemma CollectedStep(reply: (nat, int) -> seq<string>, n: int, i: nat)
    requires n > 1
    ensures Collected(reply, n, i + 1) == Collected(reply, n, i) + reply(i, Requested(n, |Collected(reply, n, i)|))
  {
  }

  /** The batching loop: one service call per batch, each asking for what is
      still missing (at most a batch), the replies appended in order. */
  method CollectVariations(base: GenerationRequest, n: int, send: nat -> ChatRequest -> Transport,
                           parse: string -> Parsed<VariationFields>) returns (all: seq<string>)
    requires n > 1
    ensures all == Collected(Reply(base, send, parse), n, BatchCount(n))
  {
    all := [];
    var batches := BatchCount(n);
    for i := 0 to batches
      invariant all == Collected(Reply(base, send, parse), n, i)
    {
      var count := Requested(n, |all|);
      var variations := BatchReply(base, send, parse, i, count);
      CollectedStep(Reply(base, send, parse), n, i);
      all := all + variations;
    }
  }

  /** Every batch returns exactly the (positive) count it asks for. */
  ghost predicate Exact(reply: (nat, int) -> seq<string>) {
    forall k: nat, c: int :: 0 < c <= 4 ==> |reply(k, c)| == c
  }

  /** Every batch returns at least the (positive) count it asks for. */
  ghost predicate Generous(reply: (nat, int) -> seq<string>) {
    forall k: nat, c: int :: 0 < c <= 4 ==> |reply(k, c)| >= c
  }

  /** Every batch ends in the service's fallback. */
  ghost predicate AllFail(base: GenerationRequest, send: nat -> ChatRequest -> Transport,
                          parse: string -> Parsed<VariationFields>) {
    forall k: nat, c: int :: VariationReply(BatchRequest(base, c), send(k), parse).None?
  }

  /** With exact replies, k batches hold min(n, k * batchSize) variations:
      every batch but the last is full and nothing is fetched twice. */
  lemma {:induction false} CollectedExact(reply: (nat, int) -> seq<string>, n: int, k: nat)
    requires n > 1 && Exact(reply) && k <= BatchCount(n)
    ensures |Collected(reply, n, k)| == Min(n, k * BatchSize(n))
  {
    if k > 0 {
      CollectedExact(reply, n, k - 1);
      var bs := BatchSize(n);
      var prev := Collected(reply, n, k - 1);
      EarlierBatchesShort(n, k - 1);
      var c := Requested(n, |prev|);
      assert |prev| == (k - 1) * bs && c == Min(bs, n - |prev|);
      assert |reply(k - 1, c)| == c;
      assert k * bs == (k - 1) * bs + bs;
    }
  }

  /** With exact replies the requested counts add up to n: the batches
      gather exactly n variations, so slice(0, n) keeps them all. */
  lemma ExactBatchesGatherN(reply: (nat, int) -> seq<string>, n: int)
    requires n > 1 && Exact(reply)
    ensures |Collected(reply, n, BatchCount(n))| == n
  {
    CollectedExact(reply, n, BatchCount(n));
  }

  /** Before the last batch the batches so far hold fewer than n. */
  lemma EarlierBatchesShort(n: int, j: nat)
    requires n > 1 && j < BatchCount(n)
    ensures j * BatchSize(n) < n
  {
    var bs, c := BatchSize(n), BatchCount(n);
    MulMono(j, c - 1, bs);
  }

  lemma MulMono(a: int, b: int, m: nat)
    requires a <= b
    ensures a * m <= b * m
  {
  }

  /** With exact replies, batch k (of the BatchCount(n)) asks for
      min(batchSize, n - k * batchSize), which is positive. */
  lemma ExactRequests(reply: (nat, int) -> seq<string>, n: int, k: nat)
    requires n > 1 && Exact(reply) && k < BatchCount(n)
    ensures Requested(n, |Collected(reply, n, k)|) == Min(BatchSize(n), n - k * BatchSize(n)) > 0
  {
    CollectedExact(reply, n, k);
    EarlierBatchesShort(n, k);
  }

  /** With replies at least as long as asked, the batches gather at least n
      variations in all. */
  lemma {:induction false} CollectedGenerous(reply: (nat, int) -> seq<string>, n: int, k: nat)
    requires n > 1 && Generous(reply) && k <= BatchCount(n)
    ensures |Collected(reply, n, k)| >= Min(n, k * BatchSize(n))
  {
    if k > 0 {
      CollectedGenerous(reply, n, k - 1);
      var bs := BatchSize(n);
      var prev := Collected(reply, n, k - 1);
      EarlierBatchesShort(n, k - 1);
      assert k * bs == (k - 1) * bs + bs;
      if |prev| < n {
        var c := Requested(n, |prev|);
        assert |reply(k - 1, c)| >= c;
      }
    }
  }

  /** The fallback's four variations are at least as many as any batch asks
      for, so an unreachable service still fills every bulk request. */
  lemma FailingIsGenerous(base: GenerationRequest, send: nat -> ChatRequest -> Transport,
                          parse: string -> Parsed<VariationFields>)
    requires AllFail(base, send, parse)
    ensures Generous(Reply(base, send, parse))
  {
    forall k: nat, c: int | 0 < c <= 4
      ensures |Reply(base, send, parse)(k, c)| >= c
    {
      FallbackBatch(base, send, parse, k, c);
    }
  }

  /** A batch whose call fails comes back with the four fallback variations. */
  lemma FallbackBatch(base: GenerationRequest, send: nat -> ChatRequest -> Transport,
                      parse: string -> Parsed<VariationFields>, k: nat, c: int)
    requires VariationReply(BatchRequest(base, c), send(k), parse).None?
    ensures |Reply(base, send, parse)(k, c)| == 4
  {
    var req := BatchRequest(base, c);
    assert GenerateQuestionVariations(req, send(k), parse).variations == FallbackVariations(req);
    assert Reply(base, send, parse)(k, c) == BatchReply(base, send, parse, k, c);
  }

  /** The gathered variations cut to the bulk count. */
  function BulkVariations(base: GenerationRequest, n: int, send: nat -> ChatRequest -> Transport,
                          parse: string -> Parsed<VariationFields>): (vs: seq<string>)
    requires n > 1
    ensures |vs| <= n
  {
    Slice(Collected(Reply(base, send, parse), n, BatchCount(n)), n)
  }

  /** s.slice(0, n) for n >= 0: the first n elements, or all of a shorter s. */
  function Slice(s: seq<string>, n: int): (r: seq<string>)
    requires n >= 0
    ensures |r| == Min(n, |s|) && r == s[..|r|]
  {
    s[..Min(n, |s|)]
  }

  /** A bulk run yields exactly bulkCount questions whenever every batch gets
      at least what it asks for, the fallback included. */
  lemma BulkVariationsFull(base: GenerationRequest, n: int, send: nat -> ChatRequest -> Transport,
                           parse: string -> Parsed<VariationFields>)
    requires n > 1
    ensures Generous(Reply(base, send, parse)) ==> |BulkVariations(base, n, send, parse)| == n
    ensures AllFail(base, send, parse) ==> |BulkVariations(base, n, send, parse)| == n
  {
    if AllFail(base, send, parse) {
      FailingIsGenerous(base, send, parse);
    }
    if Generous(Reply(base, send, parse)) {
      CollectedGenerous(Reply(base, send, parse), n, BatchCount(n));
    }
  }

  /** The id of the index-th question of a bulk run. */
  function BulkId(stamp: string, index: nat): string {
    stamp + "-" + IntToString(index)
  }

  /** One active question per variation, carrying just that variation. */
  function NewQuestions(base: GenerationRequest, vs: seq<string>, stamp: string): (qs: seq<Question>)
    ensures |qs| == |vs|
    ensures forall i :: 0 <= i < |qs| ==>
              qs[i] == Question(BulkId(stamp, i), base.originalQuestion, [vs[i]], base.subject, base.difficulty,
                                base.category, base.tags, true)
  {
    seq(|vs|, i requires 0 <= i < |vs| =>
      Question(BulkId(stamp, i), base.originalQuestion, [vs[i]], base.subject, base.difficulty,
               base.category, base.tags, true))
  }

  /** The questions of one bulk run have distinct ids. */
  lemma BulkIdsDistinct(stamp: string, i: nat, j: nat)
    requires i != j
    ensures BulkId(stamp, i) != BulkId(stamp, j)
  {
    if BulkId(stamp, i) == BulkId(stamp, j) {
      var p := stamp + "-";
      assert BulkId(stamp, i)[|p|..] == IntToString(i);
      assert BulkId(stamp, j)[|p|..] == IntToString(j);
      ParseIntDecimal(i);
      ParseIntDecimal(j);
      assert false;
    }
  }

  /** The students that receive a question: the first n of the roster, or all of a smaller one. */
  function Available(students: seq<Student>, n: nat): (a: seq<Student>)
    ensures |a| == Min(n, |students|) && a == students[..|a|]
  {
    students[..Min(n, |students|)]
  }

  /** Question i goes to available student i, as far as both lists reach. */
  function AutoAllocations(newQs: seq<Question>, available: seq<Student>, stamp: string): (r: seq<Allocation>)
    ensures |r| == Min(|newQs|, |available|)
    ensures forall i :: 0 <= i < |r| ==>
              r[i] == Allocation(newQs[i].id + "-" + available[i].id + "-" + stamp, newQs[i].id, available[i].id, false)
  {
    var m := Min(|newQs|, |available|);
    seq(m, i requires 0 <= i < m =>
      Allocation(newQs[i].id + "-" + available[i].id + "-" + stamp, newQs[i].id, available[i].id, false))
  }

  /** The forEach that pushes an allocation for every question that has a
      student at the same position. */
  method AutoAllocate(newQs: seq<Question>, available: seq<Student>, stamp: string) returns (added: seq<Allocation>)
    ensures added == AutoAllocations(newQs, available, stamp)
  {
    added := [];
    for index := 0 to |newQs|
      invariant added == AutoAllocations(newQs[..index], available, stamp)
    {
      if index < |available| {
        var q := newQs[index];
        added := added + [Allocation(q.id + "-" + available[index].id + "-" + stamp, q.id, available[index].id, false)];
      }
      assert newQs[..index + 1][..index] == newQs[..index];
    }
    assert newQs[..|newQs|] == newQs;
  }

  /** After auto-allocation, the student whose name finds position i on the
      roster sees new question i, if there was one for that position. */
  lemma AutoAllocatedIsListed(students: seq<Student>, allocations: seq<Allocation>, questions: seq<Question>,
                              newQs: seq<Question>, n: nat, stamp: string, name: string, i: nat)
    requires FindStudentByName(students, name) == Some(i)
    requires i < |newQs| && i < n
    requires newQs[i] in questions
    ensures newQs[i] in GetAllocatedQuestionsForStudent(
              students, allocations + AutoAllocations(newQs, Available(students, n), stamp), questions, name)
  {
    var added := AutoAllocations(newQs, Available(students, n), stamp);
    var after := allocations + added;
    var a := added[i];
    assert a == after[|allocations| + i];
    assert a in after && a.studentId == students[i].id && a.questionId == newQs[i].id;
    var r := GetAllocatedQuestionsForStudent(students, after, questions, name);
    assert multiset(r)[newQs[i]] == multiset(questions)[newQs[i]];
  }

  /** generateQuestions: the question list and the allocations afterwards.
      bulkCount and autoAllocate are the optional arguments; send(k) answers
      the k-th request of the run. */
  method GenerateQuestions(questions: seq<Question>, allocations: seq<Allocation>, students: seq<Student>,
                           base: GenerationRequest, bulkCount: Option<int>, autoAllocate: Option<bool>,
                           send: nat -> ChatRequest -> Transport, parse: string -> Parsed<VariationFields>,
                           stamp: string)
    returns (questions': seq<Question>, allocations': seq<Allocation>)
    ensures IsBulk(bulkCount) ==>
              var vs := BulkVariations(base, bulkCount.value, send, parse);
              questions' == NewQuestions(base, vs, stamp) + questions
    ensures IsBulk(bulkCount) && Generous(Reply(base, send, parse)) ==> |questions'| == |questions| + bulkCount.value
    ensures IsBulk(bulkCount) && autoAllocate == Some(true) && |students| > 0 ==>
              var newQs := NewQuestions(base, BulkVariations(base, bulkCount.value, send, parse), stamp);
              allocations' == allocations + AutoAllocations(newQs, Available(students, bulkCount.value), stamp)
    ensures !(IsBulk(bulkCount) && autoAllocate == Some(true) && |students| > 0) ==> allocations' == allocations
    ensures !IsBulk(bulkCount) ==>
              questions' == [Question(stamp, base.originalQuestion,
                                      BatchReply(base, send, parse, 0, 4),
                                      base.subject, base.difficulty, base.category, base.tags, true)] + questions
  {
    allocations' := allocations;
    if IsBulk(bulkCount) {
      var n := bulkCount.value;
      BulkVariationsFull(base, n, send, parse);
      var all := CollectVariations(base, n, send, parse);
      var newQs := NewQuestions(base, all[..Min(n, |all|)], stamp);
      questions' := newQs + questions;
      if autoAllocate == Some(true) && |students| > 0 {
        var added := AutoAllocate(newQs, Available(students, n), stamp);
        allocations' := allocations + added;
      }
    } else {
      var response := GenerateQuestionVariations(BatchRequest(base, 4), send(0), parse);
      var q := Question(stamp, base.originalQuestion, response.variations, base.subject, base.difficulty,
                        base.category, base.tags, true);
      questions' := [q] + questions;
    }
  }

  // ---------------------------------------------------------------------------
  // The allocation dialog
  // ---------------------------------------------------------------------------

  /** The allocations of every selected question to every selected student,
      question by question. */
  function AllNew(questionIds: seq<string>, studentIds: seq<string>, stamp: string): (r: seq<Allocation>)
    decreases |questionIds|
  {
    if questionIds == [] then []
    else AllNew(questionIds[..|questionIds| - 1], studentIds, stamp)
         + NewAllocations(questionIds[|questionIds| - 1], studentIds, stamp)
  }

  /** One allocation per pair of a selected question and a selected student. */
  lemma {:induction false} AllNewLength(questionIds: seq<string>, studentIds: seq<string>, stamp: string)
    ensures |AllNew(questionIds, studentIds, stamp)| == |questionIds| * |studentIds|
    decreases |questionIds|
  {
    if questionIds != [] {
      AllNewLength(questionIds[..|questionIds| - 1], studentIds, stamp);
      assert (|questionIds| - 1) * |studentIds| + |studentIds| == |questionIds| * |studentIds|;
    }
  }

  /** Every selected pair is allocated. */
  lemma {:induction false} AllNewCovers(questionIds: seq<string>, studentIds: seq<string>, stamp: string,
                                        i: nat, j: nat)
    requires i < |questionIds| && j < |studentIds|
    ensures exists a :: a in AllNew(questionIds, studentIds, stamp)
                        && a.questionId == questionIds[i] && a.studentId == studentIds[j]
    decreases |questionIds|
  {
    var init := questionIds[..|questionIds| - 1];
    var last := NewAllocations(questionIds[|questionIds| - 1], studentIds, stamp);
    var r := AllNew(questionIds, studentIds, stamp);
    assert r == AllNew(init, studentIds, stamp) + last;
    if i == |questionIds| - 1 {
      assert last[j] in r;
    } else {
      AllNewCovers(init, studentIds, stamp, i, j);
      var a :| a in AllNew(init, studentIds, stamp) && a.questionId == init[i] && a.studentId == studentIds[j];
      assert a in r;
    }
  }

  /** handleAllocate, with every allocateQuestion call building on the
      previous one: the dialog's result when both selections are non-empty
      (else nothing changes), and the total it reports. */
  method HandleAllocate(allocations: seq<Allocation>, questionIds: seq<string>, studentIds: seq<string>,
                        stamp: string)
    returns (allocations': seq<Allocation>, total: nat, accepted: bool)
    ensures accepted <==> |questionIds| > 0 && |studentIds| > 0
    ensures !accepted ==> allocations' == allocations && total == 0
    ensures accepted ==> allocations' == allocations + AllNew(questionIds, studentIds, stamp)
                         && total == |questionIds| * |studentIds|
    ensures |allocations'| == |allocations| + total
  {
    allocations' := allocations;
    total := 0;
    accepted := |questionIds| > 0 && |studentIds| > 0;
    if accepted {
      for i := 0 to |questionIds|
        invariant allocations' == allocations + AllNew(questionIds[..i], studentIds, stamp)
        invariant total == i * |studentIds|
      {
        assert questionIds[..i + 1][..i] == questionIds[..i];
        allocations' := AllocateQuestion(allocations', questionIds[i], studentIds, stamp);
        total := total + |studentIds|;
      }
      assert questionIds[..|questionIds|] == questionIds;
      AllNewLength(questionIds, studentIds, stamp);
    }
  }

  /** handleAllocate as the page runs it: every onAllocate call computes
      [...allocations, ...new] from the allocations of the same render, so
      each state update replaces the previous one and only the last takes
      effect. */
  method HandleAllocateAsWritten(allocations: seq<Allocation>, questionIds: seq<string>, studentIds: seq<string>,
                                 stamp: string)
    returns (allocations': seq<Allocation>, total: nat, accepted: bool)
    ensures accepted <==> |questionIds| > 0 && |studentIds| > 0
    ensures !accepted ==> allocations' == allocations && total == 0
    ensures accepted ==> allocations' == AllocateQuestion(allocations, questionIds[|questionIds| - 1], studentIds, stamp)
                         && total == |questionIds| * |studentIds|
  {
    allocations' := allocations;
    total := 0;
    accepted := |questionIds| > 0 && |studentIds| > 0;
    if accepted {
      for i := 0 to |questionIds|
        invariant i > 0 ==> allocations' == AllocateQuestion(allocations, questionIds[i - 1], studentIds, stamp)
        invariant total == i * |studentIds|
      {
        allocations' := AllocateQuestion(allocations, questionIds[i], studentIds, stamp);
        total := total + |studentIds|;
      }
    }
  }

  /** Allocating two questions to one student keeps only the second
      question's allocation, though the dialog reports two. */
  lemma StaleAllocationsLost(allocations: seq<Allocation>, stamp: string)
    requires forall k :: 0 <= k < |allocations| ==> allocations[k].questionId != "q1"
    ensures var kept := AllocateQuestion(allocations, "q2", ["s1"], stamp);
            |kept| == |allocations| + 1
            && forall k :: 0 <= k < |kept| ==> kept[k].questionId != "q1"
    ensures exists a :: a in allocations + AllNew(["q1", "q2"], ["s1"], stamp) && a.questionId == "q1"
  {
    var kept := AllocateQuestion(allocations, "q2", ["s1"], stamp);
    assert kept[|allocations|].questionId == "q2";
    assert forall k :: 0 <= k < |kept| ==> kept[k].questionId != "q1" by {
      forall k | 0 <= k < |kept|
        ensures kept[k].questionId != "q1"
      {
        if k < |allocations| {
          assert kept[k] == allocations[k];
        }
      }
    }
    AllNewCovers(["q1", "q2"], ["s1"], stamp, 0, 0);
    var a :| a in AllNew(["q1", "q2"], ["s1"], stamp) && a.questionId == "q1" && a.studentId == "s1";
    assert a in allocations + AllNew(["q1", "q2"], ["s1"], stamp);
  }
}
