/** Properties of sequences of answer requests on one attempt: later answers
    overwrite earlier ones, coverage only grows, and answering every question
    of the quiz completes it. */
module AttemptRuns {
  import opened Wrappers
  import opened Quizzes
  import opened AttemptModels
  import opened AttemptSerializers
  import opened AttemptViews

  /** One answer request: the question in the URL and the request body. */
  datatype Request = Request(question: Id, data: Payload)

  /** The store after the caller sends `reqs` to `attempt`, one after another. */
  function Replay(s: Store, user: Id, attempt: Id, reqs: seq<Request>): (r: Store)
    ensures r.catalog == s.catalog && r.attempts == s.attempts && r.nextAttemptId == s.nextAttemptId
    ensures AnsweredSet(s.answers, attempt) <= AnsweredSet(r.answers, attempt)
    decreases |reqs|
  {
    if reqs == [] then s
    else Replay(SubmitAnswer(s, user, attempt, reqs[0].question, reqs[0].data).store, user, attempt, reqs[1..])
  }

  lemma {:induction false} ReplayKeepsInvariant(s: Store, user: Id, attempt: Id, reqs: seq<Request>)
    requires StoreInvariant(s)
    ensures StoreInvariant(Replay(s, user, attempt, reqs))
    decreases |reqs|
  {
    if reqs != [] {
      SubmitKeepsInvariant(s, user, attempt, reqs[0].question, reqs[0].data);
      ReplayKeepsInvariant(SubmitAnswer(s, user, attempt, reqs[0].question, reqs[0].data).store, user, attempt, reqs[1..]);
    }
  }

  /** Every question whose request was accepted ends up answered. */
  lemma {:induction false} ReplayAnswersAccepted(s: Store, user: Id, attempt: Id, reqs: seq<Request>)
    ensures forall k :: 0 <= k < |reqs| && Accepted(s, user, attempt, reqs[k].question, reqs[k].data) ==>
      reqs[k].question in AnsweredSet(Replay(s, user, attempt, reqs).answers, attempt)
    decreases |reqs|
  {
    if reqs != [] {
      var s1 := SubmitAnswer(s, user, attempt, reqs[0].question, reqs[0].data).store;
      var r := Replay(s1, user, attempt, reqs[1..]);
      assert Replay(s, user, attempt, reqs) == r;
      ReplayAnswersAccepted(s1, user, attempt, reqs[1..]);
      if Accepted(s, user, attempt, reqs[0].question, reqs[0].data) {
        SubmitAnsweredSetGrows(s, user, attempt, reqs[0].question, reqs[0].data);
        assert reqs[0].question in AnsweredSet(s1.answers, attempt);
      }
      forall k | 1 <= k < |reqs| && Accepted(s, user, attempt, reqs[k].question, reqs[k].data)
        ensures reqs[k].question in AnsweredSet(r.answers, attempt)
      {
        assert reqs[k] == reqs[1..][k - 1];
        assert Accepted(s1, user, attempt, reqs[1..][k - 1].question, reqs[1..][k - 1].data);
      }
    }
  }

  /** Requests that are not accepted for `question` leave its row as it was. */
  lemma {:induction false} ReplayKeepsOtherRows(s: Store, user: Id, attempt: Id, reqs: seq<Request>, question: Id)
    requires forall j :: 0 <= j < |reqs| && reqs[j].question == question ==>
      !Accepted(s, user, attempt, reqs[j].question, reqs[j].data)
    ensures Lookup(Replay(s, user, attempt, reqs).answers, attempt, question) == Lookup(s.answers, attempt, question)
    decreases |reqs|
  {
    if reqs != [] {
      var r := reqs[0];
      var s1 := SubmitAnswer(s, user, attempt, r.question, r.data).store;
      if Accepted(s, user, attempt, r.question, r.data) {
        SubmitAcceptedWritesUpsert(s, user, attempt, r.question, r.data);
        UpsertFrame(s.answers, attempt, r.question, r.data["answer_id"]);
      } else {
        SubmitSucceedsIffAccepted(s, user, attempt, r.question, r.data);
      }
      assert Lookup(s1.answers, attempt, question) == Lookup(s.answers, attempt, question);
      forall j | 0 <= j < |reqs[1..]| && reqs[1..][j].question == question
        ensures !Accepted(s1, user, attempt, reqs[1..][j].question, reqs[1..][j].data)
      {
        assert reqs[1..][j] == reqs[j + 1];
      }
      ReplayKeepsOtherRows(s1, user, attempt, reqs[1..], question);
    }
  }

  /** The row for a question holds the option of the last accepted request for
      it, and it is the only row of that pair: repeated answers overwrite. */
  lemma {:induction false} LastAcceptedAnswerWins(s: Store, user: Id, attempt: Id, reqs: seq<Request>, k: nat)
    requires StoreInvariant(s)
    requires k < |reqs| && Accepted(s, user, attempt, reqs[k].question, reqs[k].data)
    requires forall j :: k < j < |reqs| && reqs[j].question == reqs[k].question ==>
      !Accepted(s, user, attempt, reqs[j].question, reqs[j].data)
    ensures var r := Replay(s, user, attempt, reqs);
      && UniquePerAttemptQuestion(r.answers)
      && Lookup(r.answers, attempt, reqs[k].question) ==
         Some(AttemptAnswer(attempt, reqs[k].question, reqs[k].data["answer_id"], None))
    decreases |reqs|
  {
    ReplayKeepsInvariant(s, user, attempt, reqs);
    var s1 := SubmitAnswer(s, user, attempt, reqs[0].question, reqs[0].data).store;
    assert Replay(s, user, attempt, reqs) == Replay(s1, user, attempt, reqs[1..]);
    if k == 0 {
      FirstAcceptedAnswerStays(s, user, attempt, reqs);
    } else {
      SubmitKeepsInvariant(s, user, attempt, reqs[0].question, reqs[0].data);
      assert reqs[1..][k - 1] == reqs[k];
      forall j | k - 1 < j < |reqs[1..]| && reqs[1..][j].question == reqs[k].question
        ensures !Accepted(s1, user, attempt, reqs[1..][j].question, reqs[1..][j].data)
      {
        assert reqs[1..][j] == reqs[j + 1];
      }
      LastAcceptedAnswerWins(s1, user, attempt, reqs[1..], k - 1);
    }
  }

  lemma FirstAcceptedAnswerStays(s: Store, user: Id, attempt: Id, reqs: seq<Request>)
    requires StoreInvariant(s)
    requires 0 < |reqs| && Accepted(s, user, attempt, reqs[0].question, reqs[0].data)
    requires forall j :: 0 < j < |reqs| && reqs[j].question == reqs[0].question ==>
      !Accepted(s, user, attempt, reqs[j].question, reqs[j].data)
    ensures Lookup(Replay(s, user, attempt, reqs).answers, attempt, reqs[0].question) ==
      Some(AttemptAnswer(attempt, reqs[0].question, reqs[0].data["answer_id"], None))
  {
    var s1 := SubmitAnswer(s, user, attempt, reqs[0].question, reqs[0].data).store;
    var rest := reqs[1..];
    forall j | 0 <= j < |rest| && rest[j].question == reqs[0].question
      ensures !Accepted(s1, user, attempt, rest[j].question, rest[j].data)
    {
      assert rest[j] == reqs[j + 1];
    }
    assert Replay(s, user, attempt, reqs) == Replay(s1, user, attempt, rest);
    SubmitRecordsAnswer(s, user, attempt, reqs[0].question, reqs[0].data);
    ReplayKeepsOtherRows(s1, user, attempt, rest, reqs[0].question);
  }

  /** Once accepted requests have covered every question of the quiz, the last
      of them is answered with "Quiz completed", never with a question. Rejected
      requests may be interleaved anywhere in the run. */
  lemma QuizCompletesOnceCovered(s: Store, user: Id, attempt: Id, reqs: seq<Request>, last: Request)
    requires StoreInvariant(s)
    requires Accepted(s, user, attempt, last.question, last.data)
    requires forall q :: q in s.catalog.questions && q.quiz == s.attempts[attempt].quiz ==>
      q.id == last.question ||
      exists k :: 0 <= k < |reqs| && reqs[k].question == q.id && Accepted(s, user, attempt, reqs[k].question, reqs[k].data)
    ensures SubmitAnswer(Replay(s, user, attempt, reqs), user, attempt, last.question, last.data).response == Completed
  {
    var r := Replay(s, user, attempt, reqs);
    ReplayKeepsInvariant(s, user, attempt, reqs);
    ReplayAnswersAccepted(s, user, attempt, reqs);
    SubmitAnsweredSetGrows(r, user, attempt, last.question, last.data);
    SubmitServesFirstUnanswered(r, user, attempt, last.question, last.data);
  }

  /** The questions the requests are for. */
  function QuestionsAsked(reqs: seq<Request>): (r: set<Id>)
    ensures forall q :: q in r <==> exists k :: 0 <= k < |reqs| && reqs[k].question == q
  {
    if reqs == [] then {}
    else
      var rest := QuestionsAsked(reqs[1..]);
      assert forall k :: 1 <= k < |reqs| ==> reqs[k] == reqs[1..][k - 1];
      {reqs[0].question} + rest
  }

  /** When no question repeats, a run names as many questions as it has requests. */
  lemma {:induction false} QuestionsAskedDistinctCount(reqs: seq<Request>)
    requires forall i, j :: 0 <= i < j < |reqs| ==> reqs[i].question != reqs[j].question
    ensures |QuestionsAsked(reqs)| == |reqs|
  {
    if reqs != [] {
      var tail := reqs[1..];
      forall i, j | 0 <= i < j < |tail|
        ensures tail[i].question != tail[j].question
      {
        assert tail[i] == reqs[i + 1] && tail[j] == reqs[j + 1];
      }
      QuestionsAskedDistinctCount(tail);
      HeadQuestionFresh(reqs);
      assert QuestionsAsked(reqs) == {reqs[0].question} + QuestionsAsked(tail);
    }
  }

  /** Without repeats the first request's question is not asked again later. */
  lemma HeadQuestionFresh(reqs: seq<Request>)
    requires forall i, j :: 0 <= i < j < |reqs| ==> reqs[i].question != reqs[j].question
    requires reqs != []
    ensures reqs[0].question !in QuestionsAsked(reqs[1..])
  {
  }

  /** A quiz with N questions admits at most N accepted requests for distinct
      questions on one attempt. */
  lemma DistinctAcceptedAtMostQuizSize(s: Store, user: Id, attempt: Id, reqs: seq<Request>)
    requires attempt in s.attempts
    requires forall k :: 0 <= k < |reqs| ==> Accepted(s, user, attempt, reqs[k].question, reqs[k].data)
    requires forall i, j :: 0 <= i < j < |reqs| ==> reqs[i].question != reqs[j].question
    ensures |reqs| <= |QuestionsOf(s.catalog.questions, s.attempts[attempt].quiz)|
  {
    var quiz := s.attempts[attempt].quiz;
    var ids := IdsOf(QuestionsOf(s.catalog.questions, quiz));
    var asked := QuestionsAsked(reqs);
    QuestionsAskedDistinctCount(reqs);
    forall q | q in asked
      ensures q in ids
    {
      var k :| 0 <= k < |reqs| && reqs[k].question == q;
      AcceptedQuestionInQuiz(s, user, attempt, reqs[k]);
    }
    SubsetNoLarger(asked, ids);
  }

  lemma SubsetNoLarger(a: set<Id>, b: set<Id>)
    requires a <= b
    ensures |a| <= |b|
  {
    assert b == a + (b - a);
  }

  /** A quiz with N questions is completed by the N-th accepted answer when
      the N answers are for distinct questions: the reply to it is
      "Quiz completed". */
  lemma NthDistinctAnswerCompletes(s: Store, user: Id, attempt: Id, reqs: seq<Request>, last: Request)
    requires StoreInvariant(s)
    requires forall k :: 0 <= k < |reqs| ==> Accepted(s, user, attempt, reqs[k].question, reqs[k].data)
    requires Accepted(s, user, attempt, last.question, last.data)
    requires forall i, j :: 0 <= i < j < |reqs| ==> reqs[i].question != reqs[j].question
    requires forall k :: 0 <= k < |reqs| ==> reqs[k].question != last.question
    requires |reqs| + 1 == |QuestionsOf(s.catalog.questions, s.attempts[attempt].quiz)|
    ensures SubmitAnswer(Replay(s, user, attempt, reqs), user, attempt, last.question, last.data).response == Completed
  {
    DistinctRunCoversQuiz(s, user, attempt, reqs, last);
    QuizCompletesOnceCovered(s, user, attempt, reqs, last);
  }

  /** The accepted requests of such a run, with the last one, name every question of the quiz. */
  lemma DistinctRunCoversQuiz(s: Store, user: Id, attempt: Id, reqs: seq<Request>, last: Request)
    requires WellFormed(s.catalog)
    requires forall k :: 0 <= k < |reqs| ==> Accepted(s, user, attempt, reqs[k].question, reqs[k].data)
    requires Accepted(s, user, attempt, last.question, last.data)
    requires forall i, j :: 0 <= i < j < |reqs| ==> reqs[i].question != reqs[j].question
    requires forall k :: 0 <= k < |reqs| ==> reqs[k].question != last.question
    requires |reqs| + 1 == |QuestionsOf(s.catalog.questions, s.attempts[attempt].quiz)|
    ensures forall q :: q in s.catalog.questions && q.quiz == s.attempts[attempt].quiz ==>
      q.id == last.question ||
      exists k :: 0 <= k < |reqs| && reqs[k].question == q.id && Accepted(s, user, attempt, reqs[k].question, reqs[k].data)
  {
    var qs := QuestionsOf(s.catalog.questions, s.attempts[attempt].quiz);
    QuestionsOfAscending(s.catalog.questions, s.attempts[attempt].quiz);
    forall k | 0 <= k < |reqs|
      ensures reqs[k].question in IdsOf(qs)
    {
      AcceptedQuestionInQuiz(s, user, attempt, reqs[k]);
    }
    AcceptedQuestionInQuiz(s, user, attempt, last);
    RunIdsCoverQuestions(qs, reqs, last);
    forall q | q in s.catalog.questions && q.quiz == s.attempts[attempt].quiz
      ensures q.id == last.question || exists k :: 0 <= k < |reqs| && reqs[k].question == q.id
    {
      assert q in qs;
    }
  }

  /** Requests for distinct questions of `qs` that, with `last`, are as many
      as the questions name every one of them. */
  lemma RunIdsCoverQuestions(qs: seq<Question>, reqs: seq<Request>, last: Request)
    requires QuestionIdsAscending(qs)
    requires forall k :: 0 <= k < |reqs| ==> reqs[k].question in IdsOf(qs)
    requires last.question in IdsOf(qs)
    requires forall i, j :: 0 <= i < j < |reqs| ==> reqs[i].question != reqs[j].question
    requires forall k :: 0 <= k < |reqs| ==> reqs[k].question != last.question
    requires |reqs| + 1 == |qs|
    ensures forall q :: q in qs ==> q.id == last.question || exists k :: 0 <= k < |reqs| && reqs[k].question == q.id
  {
    var ids := IdsOf(qs);
    var asked := QuestionsAsked(reqs) + {last.question};
    AskedWithinIds(qs, reqs, last);
    AskedCount(reqs, last);
    IdsOfAscendingCount(qs);
    SubsetSameSize(asked, ids);
    forall q | q in qs
      ensures q.id == last.question || exists k :: 0 <= k < |reqs| && reqs[k].question == q.id
    {
      assert q.id in asked;
    }
  }

  /** Every question a run and its last request name is a question of `qs`. */
  lemma AskedWithinIds(qs: seq<Question>, reqs: seq<Request>, last: Request)
    requires forall k :: 0 <= k < |reqs| ==> reqs[k].question in IdsOf(qs)
    requires last.question in IdsOf(qs)
    ensures QuestionsAsked(reqs) + {last.question} <= IdsOf(qs)
  {
    forall id | id in QuestionsAsked(reqs)
      ensures id in IdsOf(qs)
    {
      var k :| 0 <= k < |reqs| && reqs[k].question == id;
    }
  }

  /** A run without repeats, and a last request for a new question, name one question per request. */
  lemma AskedCount(reqs: seq<Request>, last: Request)
    requires forall i, j :: 0 <= i < j < |reqs| ==> reqs[i].question != reqs[j].question
    requires forall k :: 0 <= k < |reqs| ==> reqs[k].question != last.question
    ensures |QuestionsAsked(reqs) + {last.question}| == |reqs| + 1
  {
    var prior := QuestionsAsked(reqs);
    QuestionsAskedDistinctCount(reqs);
    assert last.question !in prior;
    assert |prior + {last.question}| == |prior| + 1;
  }

  /** A subset as large as its superset is the whole superset. */
  lemma SubsetSameSize<T>(a: set<T>, b: set<T>)
    requires a <= b && |a| == |b|
    ensures a == b
  {
    assert b == a + (b - a);
  }

  lemma AcceptedQuestionInQuiz(s: Store, user: Id, attempt: Id, req: Request)
    requires Accepted(s, user, attempt, req.question, req.data)
    ensures req.question in IdsOf(QuestionsOf(s.catalog.questions, s.attempts[attempt].quiz))
  {
  }
}
