/** The attempt progression engine (attempts/views.py): starting an attempt
    and recording an answer, each a pure function from the store and the
    request to the new store and the response. The acting user is an explicit
    parameter. */
module AttemptViews {
  import opened Wrappers
  import opened Quizzes
  import opened AttemptModels
  import opened AttemptSerializers

  /** What the engine answers. `NoQuestion` is the blank body sent when a quiz
      without questions is started; `Completed` is "Quiz completed". */
  datatype Response =
    | NotFound
    | Forbidden
    | ValidationError
    | NextQuestion(view: StudentQuestionView)
    | NoQuestion
    | Completed
  {
    predicate IsError() {
      NotFound? || Forbidden? || ValidationError?
    }
  }

  datatype Outcome = Outcome(store: Store, response: Response)

  /** `StartAttemptView.post`. */
  function StartAttempt(s: Store, user: Id, data: Payload): (o: Outcome)
    ensures o.response.IsError() <==> ValidateStart(data, s.catalog.quizzes).None?
    ensures o.response.IsError() ==> o.response == ValidationError && o.store == s
    ensures !o.response.IsError() ==> o.store.attempts.Keys == s.attempts.Keys + {s.nextAttemptId}
    ensures o.store.catalog == s.catalog && o.store.answers == s.answers
  {
    match ValidateStart(data, s.catalog.quizzes)
    case None => Outcome(s, ValidationError)
    case Some(quiz) =>
      var attempt := NewAttempt(s.nextAttemptId, user, quiz.id);
      var s' := s.(attempts := s.attempts[attempt.id := attempt], nextAttemptId := s.nextAttemptId + 1);
      var first := FirstQuestion(s.catalog.questions, quiz.id);
      if first.None? then Outcome(s', NoQuestion)
      else Outcome(s', NextQuestion(StudentQuestion(s.catalog, first.value, Some(attempt))))
  }

  /** `AttemptAnswerView.put` for the answer to `question` within `attempt`. */
  function SubmitAnswer(s: Store, user: Id, attempt: Id, question: Id, data: Payload): (o: Outcome)
    ensures o.response.IsError() ==> o.store == s
    ensures o.store.catalog == s.catalog && o.store.attempts == s.attempts
    ensures o.store.nextAttemptId == s.nextAttemptId
    ensures AnsweredSet(s.answers, attempt) <= AnsweredSet(o.store.answers, attempt)
    ensures o.response != NoQuestion
  {
    if attempt !in s.attempts || s.attempts[attempt].user != user then Outcome(s, NotFound)
    else
      var a := s.attempts[attempt];
      if a.status == Submitted then Outcome(s, Forbidden)
      else match FindQuestion(s.catalog.questions, question, a.quiz)
        case None => Outcome(s, NotFound)
        case Some(q) =>
          match ValidateAnswer(data)
          case None => Outcome(s, ValidationError)
          case Some(answerId) =>
            match FindChoice(s.catalog.choices, answerId, q.id)
            case None => Outcome(s, NotFound)
            case Some(choice) =>
              var answers := Upsert(s.answers, attempt, q.id, choice.id);
              var next := FirstUnanswered(s.catalog.questions, a.quiz, AnsweredSet(answers, attempt));
              Outcome(s.(answers := answers),
                      if next.None? then Completed
                      else NextQuestion(StudentQuestion(s.catalog, s.catalog.questions[next.value], Some(a))))
  }

  // ----- StartAttempt -----

  /** Starting adds exactly one attempt, under a fresh id, owned by the caller,
      for the requested quiz, in progress and ungraded; no other attempt and no
      answer changes. */
  lemma StartAttemptCreatesOneAttempt(s: Store, user: Id, data: Payload)
    requires StoreInvariant(s)
    requires ValidateStart(data, s.catalog.quizzes).Some?
    ensures var o := StartAttempt(s, user, data);
      var id := s.nextAttemptId;
      && id !in s.attempts
      && o.store.attempts == s.attempts[id := o.store.attempts[id]]
      && o.store.attempts[id].user == user
      && o.store.attempts[id].quiz == data["quiz_id"]
      && o.store.attempts[id].status == InProgress
      && o.store.attempts[id].score.None? && o.store.attempts[id].submittedAt.None?
      && o.store.answers == s.answers
      && id < o.store.nextAttemptId
  {
  }

  /** Starting serves the quiz's question with the least id, tagged with the new
      attempt's id, or the blank body when the quiz has no question. */
  lemma StartAttemptServesFirstQuestion(s: Store, user: Id, data: Payload)
    requires StoreInvariant(s)
    requires ValidateStart(data, s.catalog.quizzes).Some?
    ensures var o := StartAttempt(s, user, data);
      var quiz := data["quiz_id"];
      && (o.response == NoQuestion <==> forall q :: q in s.catalog.questions ==> q.quiz != quiz)
      && (o.response.NextQuestion? ==>
            && o.response.view.attemptId == Some(s.nextAttemptId)
            && (exists q :: q in s.catalog.questions && q.quiz == quiz && q.id == o.response.view.id)
            && forall q :: q in s.catalog.questions && q.quiz == quiz ==> o.response.view.id <= q.id)
      && (o.response.NoQuestion? || o.response.NextQuestion?)
      && forall q :: IsLeastUnanswered(s.catalog.questions, quiz, {}, q) ==>
           o.response == NextQuestion(StudentQuestion(s.catalog, q, Some(o.store.attempts[s.nextAttemptId])))
  {
    var quiz := data["quiz_id"];
    var first := FirstQuestion(s.catalog.questions, quiz);
    forall q | IsLeastUnanswered(s.catalog.questions, quiz, {}, q)
      ensures first == Some(q)
    {
      SameIdSameQuestion(s.catalog.questions, q, first.value);
    }
  }

  lemma StartAttemptKeepsInvariant(s: Store, user: Id, data: Payload)
    requires StoreInvariant(s)
    ensures StoreInvariant(StartAttempt(s, user, data).store)
  {
    match ValidateStart(data, s.catalog.quizzes)
    case None =>
    case Some(quiz) =>
      AddAttemptKeepsInvariant(s, NewAttempt(s.nextAttemptId, user, quiz.id));
  }

  // ----- SubmitAnswer -----

  /** Every guard of `AttemptAnswerView.put` passes. */
  predicate Accepted(s: Store, user: Id, attempt: Id, question: Id, data: Payload) {
    && attempt in s.attempts
    && s.attempts[attempt].user == user
    && s.attempts[attempt].status == InProgress
    && FindQuestion(s.catalog.questions, question, s.attempts[attempt].quiz).Some?
    && "answer_id" in data
    && FindChoice(s.catalog.choices, data["answer_id"], question).Some?
  }

  /** A successful request writes exactly the upsert of the submitted option. */
  lemma SubmitAcceptedWritesUpsert(s: Store, user: Id, attempt: Id, question: Id, data: Payload)
    requires Accepted(s, user, attempt, question, data)
    ensures SubmitAnswer(s, user, attempt, question, data).store ==
      s.(answers := Upsert(s.answers, attempt, question, data["answer_id"]))
  {
    var q := FindQuestion(s.catalog.questions, question, s.attempts[attempt].quiz).value;
    assert q.id == question;
    assert ValidateAnswer(data) == Some(data["answer_id"]);
    assert FindChoice(s.catalog.choices, data["answer_id"], q.id).value.id == data["answer_id"];
  }

  /** An attempt that does not exist, or exists but is someone else's, is not
      found, whatever else the request says. */
  lemma SubmitToForeignAttempt(s: Store, user: Id, attempt: Id, question: Id, data: Payload)
    requires attempt !in s.attempts || s.attempts[attempt].user != user
    ensures SubmitAnswer(s, user, attempt, question, data) == Outcome(s, NotFound)
  {
  }

  /** A submitted attempt is frozen: every answer request on it is forbidden
      and changes nothing, before the question or the option is even looked up. */
  lemma SubmittedAttemptIsFrozen(s: Store, user: Id, attempt: Id, question: Id, data: Payload)
    requires attempt in s.attempts && s.attempts[attempt].user == user
    requires s.attempts[attempt].status == Submitted
    ensures SubmitAnswer(s, user, attempt, question, data) == Outcome(s, Forbidden)
  {
  }

  /** The remaining guards, in order: a question outside the attempt's quiz is
      not found; then a missing `answer_id` is a validation error; then an
      option outside the question is not found. None of them writes. */
  lemma SubmitGuardOrder(s: Store, user: Id, attempt: Id, question: Id, data: Payload)
    requires attempt in s.attempts && s.attempts[attempt].user == user
    requires s.attempts[attempt].status == InProgress
    ensures var o := SubmitAnswer(s, user, attempt, question, data);
      var quiz := s.attempts[attempt].quiz;
      && (FindQuestion(s.catalog.questions, question, quiz).None? ==> o == Outcome(s, NotFound))
      && (FindQuestion(s.catalog.questions, question, quiz).Some? && "answer_id" !in data ==>
            o == Outcome(s, ValidationError))
      && (&& FindQuestion(s.catalog.questions, question, quiz).Some?
          && "answer_id" in data
          && FindChoice(s.catalog.choices, data["answer_id"], question).None?
          ==> o == Outcome(s, NotFound))
  {
  }

  /** The request succeeds exactly when every guard passes. */
  lemma SubmitSucceedsIffAccepted(s: Store, user: Id, attempt: Id, question: Id, data: Payload)
    ensures !SubmitAnswer(s, user, attempt, question, data).response.IsError() <==> Accepted(s, user, attempt, question, data)
  {
  }

  /** On success exactly one row exists for (attempt, question) and it holds
      the submitted option, ungraded; every other pair keeps its row or its
      absence of one; a row is added only when the pair had none. */
  lemma SubmitRecordsAnswer(s: Store, user: Id, attempt: Id, question: Id, data: Payload)
    requires StoreInvariant(s)
    requires Accepted(s, user, attempt, question, data)
    ensures var answers := SubmitAnswer(s, user, attempt, question, data).store.answers;
      && UniquePerAttemptQuestion(answers)
      && Lookup(answers, attempt, question) == Some(AttemptAnswer(attempt, question, data["answer_id"], None))
      && (forall a: Id, q: Id :: (a, q) != (attempt, question) ==> Lookup(answers, a, q) == Lookup(s.answers, a, q))
      && |answers| == if (attempt, question) in Keys(s.answers) then |s.answers| else |s.answers| + 1
  {
    SubmitAcceptedWritesUpsert(s, user, attempt, question, data);
    UpsertRecords(s.answers, attempt, question, data["answer_id"]);
  }

  /** On success the attempt's answered set gains exactly the submitted
      question, and no attempt (its status included) changes. */
  lemma SubmitAnsweredSetGrows(s: Store, user: Id, attempt: Id, question: Id, data: Payload)
    requires Accepted(s, user, attempt, question, data)
    ensures var o := SubmitAnswer(s, user, attempt, question, data);
      && AnsweredSet(o.store.answers, attempt) == AnsweredSet(s.answers, attempt) + {question}
      && (forall a: Id :: a != attempt ==> AnsweredSet(o.store.answers, a) == AnsweredSet(s.answers, a))
      && o.store.attempts == s.attempts
  {
    SubmitAcceptedWritesUpsert(s, user, attempt, question, data);
    UpsertAnsweredSet(s.answers, attempt, question, data["answer_id"]);
  }

  /** The reply after a successful answer is the first question of the quiz,
      in id order, that has no answer yet, tagged with the attempt id; the quiz
      is reported completed exactly when every question of it has an answer. A
      question already answered is never served. */
  lemma SubmitServesFirstUnanswered(s: Store, user: Id, attempt: Id, question: Id, data: Payload)
    requires StoreInvariant(s)
    requires Accepted(s, user, attempt, question, data)
    ensures var o := SubmitAnswer(s, user, attempt, question, data);
      var quiz := s.attempts[attempt].quiz;
      var answered := AnsweredSet(o.store.answers, attempt);
      && (o.response == Completed <==> forall q :: q in s.catalog.questions && q.quiz == quiz ==> q.id in answered)
      && (o.response.NextQuestion? ==>
            && o.response.view.attemptId == Some(attempt)
            && o.response.view.id !in answered
            && o.response.view.id != question
            && (exists q :: q in s.catalog.questions && q.quiz == quiz && q.id == o.response.view.id)
            && forall q :: q in s.catalog.questions && q.quiz == quiz && q.id !in answered ==> o.response.view.id <= q.id)
      && (o.response.Completed? || o.response.NextQuestion?)
      && forall q :: IsLeastUnanswered(s.catalog.questions, quiz, answered, q) ==>
           o.response == NextQuestion(StudentQuestion(s.catalog, q, Some(s.attempts[attempt])))
  {
    var o := SubmitAnswer(s, user, attempt, question, data);
    var quiz := s.attempts[attempt].quiz;
    var answered := AnsweredSet(o.store.answers, attempt);
    FirstUnansweredHasLeastId(s.catalog.questions, quiz, answered);
    var next := FirstUnanswered(s.catalog.questions, quiz, answered);
    if o.response == Completed {
      forall q | q in s.catalog.questions && q.quiz == quiz
        ensures q.id in answered
      {
        var i :| 0 <= i < |s.catalog.questions| && s.catalog.questions[i] == q;
      }
    }
    if next.Some? {
      forall q | q in s.catalog.questions && q.quiz == quiz && q.id !in answered
        ensures s.catalog.questions[next.value].id <= q.id
      {
        var i :| 0 <= i < |s.catalog.questions| && s.catalog.questions[i] == q;
      }
      var served := s.catalog.questions[next.value];
      forall q | IsLeastUnanswered(s.catalog.questions, quiz, answered, q)
        ensures q == served
      {
        SameIdSameQuestion(s.catalog.questions, q, served);
      }
    }
  }

  lemma SubmitKeepsInvariant(s: Store, user: Id, attempt: Id, question: Id, data: Payload)
    requires StoreInvariant(s)
    ensures StoreInvariant(SubmitAnswer(s, user, attempt, question, data).store)
  {
    if Accepted(s, user, attempt, question, data) {
      SubmitAcceptedWritesUpsert(s, user, attempt, question, data);
      UpsertKeepsInvariant(s, attempt, question, data["answer_id"]);
    } else {
      SubmitSucceedsIffAccepted(s, user, attempt, question, data);
    }
  }
}
