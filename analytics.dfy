/** The two numbers the analytics dashboard derives: the average AI score
    of the submissions and how many questions each subject has. */
module Analytics {
  import opened JsText
  import opened Classroom

  /** sub.aiScore || 0: a missing score counts as 0. */
  function ScoreOf(sub: Submission): int {
    if sub.aiScore.Some? then sub.aiScore.value else 0
  }

  /** The reduce that adds up every submission's score. */
  function TotalScore(subs: seq<Submission>): int {
    if subs == [] then 0 else TotalScore(subs[..|subs| - 1]) + ScoreOf(subs[|subs| - 1])
  }

  /** Math.round(total / count), 0 without submissions: the integer nearest
      the mean, halves rounded up. */
  function AverageScore(subs: seq<Submission>): (avg: int)
    ensures subs == [] ==> avg == 0
    ensures subs != [] ==> 2 * |subs| * avg - |subs| <= 2 * TotalScore(subs) < 2 * |subs| * avg + |subs|
  {
    if subs == [] then 0
    else
      var n := |subs|;
      var t := TotalScore(subs);
      var avg := (2 * t + n) / (2 * n);
      assert 2 * n * avg <= 2 * t + n < 2 * n * avg + 2 * n;
      avg
  }

  predicate ScoresWithin(subs: seq<Submission>, lo: int, hi: int) {
    forall i :: 0 <= i < |subs| ==> lo <= ScoreOf(subs[i]) <= hi
  }

  lemma {:induction false} TotalWithin(subs: seq<Submission>, lo: int, hi: int)
    requires ScoresWithin(subs, lo, hi)
    ensures |subs| * lo <= TotalScore(subs) <= |subs| * hi
    decreases |subs|
  {
    if subs != [] {
      var init := subs[..|subs| - 1];
      assert ScoresWithin(init, lo, hi) by {
        forall i | 0 <= i < |init|
          ensures lo <= ScoreOf(init[i]) <= hi
        {
          assert init[i] == subs[i];
        }
      }
      TotalWithin(init, lo, hi);
      assert |subs| * lo == |init| * lo + lo && |subs| * hi == |init| * hi + hi;
    }
  }

  /** The average lies within the bounds every score lies within: with the
      evaluator's clamped scores, within 0..100. */
  lemma AverageWithin(subs: seq<Submission>, lo: int, hi: int)
    requires ScoresWithin(subs, lo, hi)
    ensures subs != [] ==> lo <= AverageScore(subs) <= hi
  {
    if subs != [] {
      TotalWithin(subs, lo, hi);
      RoundedWithin(|subs|, TotalScore(subs), AverageScore(subs), lo, hi);
    }
  }

  /** A total between n * lo and n * hi rounds, over n, to a value between lo and hi. */
  lemma RoundedWithin(n: nat, t: int, avg: int, lo: int, hi: int)
    requires n > 0 && n * lo <= t <= n * hi
    requires 2 * n * avg - n <= 2 * t < 2 * n * avg + n
    ensures lo <= avg <= hi
  {
    assert 2 * n * (avg + 1) == 2 * n * avg + 2 * n;
    assert 2 * n * (hi + 1) == 2 * n * hi + 2 * n;
    MulCancel(2 * n, lo, avg + 1);
    MulCancel(2 * n, avg, hi + 1);
  }

  lemma MulCancel(m: nat, a: int, b: int)
    requires m * a < m * b
    ensures a < b
  {
  }

  /** When every submission has the same score, that is the average. */
  lemma AverageOfEqualScores(subs: seq<Submission>, v: int)
    requires subs != [] && ScoresWithin(subs, v, v)
    ensures AverageScore(subs) == v
  {
    AverageWithin(subs, v, v);
  }

  /** The subject of each question, in order. */
  function Subjects(questions: seq<Question>): seq<string> {
    if questions == [] then [] else [questions[0].subject] + Subjects(questions[1..])
  }

  lemma {:induction false} SubjectsAppend(a: seq<Question>, b: seq<Question>)
    ensures Subjects(a + b) == Subjects(a) + Subjects(b)
    decreases |a|
  {
    if a != [] {
      assert (a + b)[1..] == a[1..] + b;
      SubjectsAppend(a[1..], b);
    } else {
      assert a + b == b;
    }
  }

  /** The reduce into an object counting questions per subject: exactly the
      subjects that occur are keys, each mapped to how often it occurs. */
  function SubjectStats(questions: seq<Question>): (stats: map<string, nat>)
    ensures forall s :: s in stats <==> multiset(Subjects(questions))[s] > 0
    ensures forall s :: s in stats ==> stats[s] == multiset(Subjects(questions))[s]
  {
    if questions == [] then map[]
    else
      var init := questions[..|questions| - 1];
      var subject := questions[|questions| - 1].subject;
      var acc := SubjectStats(init);
      assert questions == init + [questions[|questions| - 1]];
      SubjectsAppend(init, [questions[|questions| - 1]]);
      assert multiset(Subjects(questions)) == multiset(Subjects(init)) + multiset{subject};
      CountStep(acc, multiset(Subjects(init)), subject);
      acc[subject := (if subject in acc then acc[subject] else 0) + 1]
  }

  /** Counting one more occurrence of subject keeps a map of counts exact. */
  lemma CountStep(acc: map<string, nat>, m: multiset<string>, subject: string)
    requires forall s :: s in acc <==> m[s] > 0
    requires forall s :: s in acc ==> acc[s] == m[s]
    ensures var next := acc[subject := (if subject in acc then acc[subject] else 0) + 1];
            (forall s :: s in next <==> (m + multiset{subject})[s] > 0)
            && (forall s :: s in next ==> next[s] == (m + multiset{subject})[s])
  {
  }

  /** The dashboard's counts do not depend on the order of the questions. */
  lemma SubjectStatsOrderFree(a: seq<Question>, b: seq<Question>)
    requires multiset(a) == multiset(b)
    ensures SubjectStats(a) == SubjectStats(b)
  {
    SubjectsPermute(a, b);
  }

  lemma SubjectsPermute(a: seq<Question>, b: seq<Question>)
    requires multiset(a) == multiset(b)
    ensures multiset(Subjects(a)) == multiset(Subjects(b))
    decreases |a|
  {
    if a != [] {
      var x := a[0];
      assert x in multiset(b);
      var j :| 0 <= j < |b| && b[j] == x;
      var rest := b[..j] + b[j + 1..];
      RemoveMatched(a, b, j);
      SubjectsPermute(a[1..], rest);
      SubjectsRemoved(a, b, j);
    }
  }

  /** Taking the matching element out of two equal multisets leaves equal ones. */
  lemma RemoveMatched(a: seq<Question>, b: seq<Question>, j: nat)
    requires multiset(a) == multiset(b) && a != [] && j < |b| && b[j] == a[0]
    ensures multiset(a[1..]) == multiset(b[..j] + b[j + 1..])
  {
    MultisetAt(b, j);
    MultisetAt(a, 0);
    assert a[..0] + a[1..] == a[1..];
    CancelOne(a[0], multiset(a[1..]), multiset(b[..j] + b[j + 1..]));
  }

  lemma CancelOne<T>(x: T, m: multiset<T>, n: multiset<T>)
    requires multiset{x} + m == multiset{x} + n
    ensures m == n
  {
    assert m == (multiset{x} + m) - multiset{x};
    assert n == (multiset{x} + n) - multiset{x};
  }

  /** A sequence's multiset is the element at j and the multiset of the rest. */
  lemma MultisetAt(s: seq<Question>, j: nat)
    requires j < |s|
    ensures multiset(s) == multiset{s[j]} + multiset(s[..j] + s[j + 1..])
  {
    SplitAt(s, j);
    MultisetMiddle(s[..j], s[j], s[j + 1..]);
  }

  lemma SubjectsRemoved(a: seq<Question>, b: seq<Question>, j: nat)
    requires a != [] && j < |b| && b[j] == a[0]
    requires multiset(Subjects(a[1..])) == multiset(Subjects(b[..j] + b[j + 1..]))
    ensures multiset(Subjects(a)) == multiset(Subjects(b))
  {
    SubjectsAt(b, j);
    SubjectsHead(a);
  }

  lemma SubjectsHead(s: seq<Question>)
    requires s != []
    ensures multiset(Subjects(s)) == multiset{s[0].subject} + multiset(Subjects(s[1..]))
  {
    assert Subjects(s) == [s[0].subject] + Subjects(s[1..]);
  }

  /** The subjects of a sequence are the subject at j and the subjects of the rest. */
  lemma SubjectsAt(s: seq<Question>, j: nat)
    requires j < |s|
    ensures multiset(Subjects(s)) == multiset{s[j].subject} + multiset(Subjects(s[..j] + s[j + 1..]))
  {
    SplitAt(s, j);
    SubjectsSplit(s, s[..j], s[j], s[j + 1..]);
  }

  lemma SplitAt<T>(s: seq<T>, j: nat)
    requires j < |s|
    ensures s == s[..j] + ([s[j]] + s[j + 1..])
  {
  }

  lemma SubjectsSplit(s: seq<Question>, front: seq<Question>, x: Question, back: seq<Question>)
    requires s == front + ([x] + back)
    ensures multiset(Subjects(s)) == multiset{x.subject} + multiset(Subjects(front + back))
  {
    SubjectsAppend(front, [x] + back);
    SubjectsCons(x, back);
    SubjectsAppend(front, back);
    MultisetMiddle(Subjects(front), x.subject, Subjects(back));
  }

  lemma SubjectsCons(x: Question, back: seq<Question>)
    ensures Subjects([x] + back) == [x.subject] + Subjects(back)
  {
    assert ([x] + back)[1..] == back;
  }

  lemma MultisetMiddle<T>(front: seq<T>, x: T, back: seq<T>)
    ensures multiset(front + ([x] + back)) == multiset{x} + multiset(front + back)
  {
  }

  /** Adding a question raises its subject's count by one and leaves every
      other subject's count alone. */
  lemma SubjectStatsAdd(questions: seq<Question>, q: Question)
    ensures q.subject in SubjectStats([q] + questions)
    ensures SubjectStats([q] + questions)[q.subject] ==
              (if q.subject in SubjectStats(questions) then SubjectStats(questions)[q.subject] else 0) + 1
    ensures forall s :: s != q.subject ==>
              (s in SubjectStats([q] + questions) <==> s in SubjectStats(questions))
    ensures forall s :: s != q.subject && s in SubjectStats(questions) ==>
              SubjectStats([q] + questions)[s] == SubjectStats(questions)[s]
  {
    var before := SubjectStats(questions);
    var after := SubjectStats([q] + questions);
    var m := multiset(Subjects(questions));
    assert multiset(Subjects([q] + questions)) == multiset{q.subject} + m;
    assert q.subject in after;
    assert q.subject in before ==> before[q.subject] == m[q.subject];
    assert q.subject !in before ==> m[q.subject] == 0;
  }
}
