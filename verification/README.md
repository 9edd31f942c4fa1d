# Quiz attempt progression engine — a Dafny model

This project models the attempt progression engine of a quiz-taking backend.
A student starts an attempt against a quiz and is shown the quiz's first
question. The student then answers one question at a time and is shown the
next unanswered question after each answer. When every question has an
answer, the reply is "Quiz completed". A later answer to the same question
overwrites the earlier one. An attempt whose status is `submitted` accepts no
more answers.

The model is functional. The database is an immutable `Store`. It holds the
quiz catalog, the attempt table, the answer table (a sequence of rows) and
the id the next attempt will get. Each HTTP operation is a pure function
from the store, the acting user and the request to an `Outcome`: the new
store plus a tagged `Response` (`NotFound`, `Forbidden`, `ValidationError`,
`NextQuestion(view)`, `NoQuestion`, `Completed`).

Modules (one per core source file, plus a shared `Option` module, a module for
runs of requests and worked examples):

- `Wrappers` (wrappers.dfy): the `Option` datatype.
- `Quizzes` (quizzes_models.dfy): the catalog of quizzes, questions and
  options, and the lookups the engine makes in it. The source's `Option`
  model is called `Choice` here, so that it does not clash with
  `Wrappers.Option`.
- `AttemptModels` (attempts_models.dfy): the attempt status, attempts, answer
  rows, the `(attempt, question)` uniqueness constraint, the answer upsert,
  the store invariant and the cascade delete of an attempt.
- `AttemptSerializers` (attempts_serializers.dfy): the student view of a
  question, and validation of the two request bodies.
- `AttemptViews` (attempts_views.dfy): `StartAttempt` and `SubmitAnswer`,
  with one lemma per property of a single call.
- `AttemptRuns` (attempt_runs.dfy): properties of a run of answer requests on
  one attempt: the last answer wins, covering every question completes the quiz,
  and on a quiz of N questions the N-th accepted answer to distinct questions
  is answered with "Quiz completed".
- `Scenarios` (scenarios.dfy): starting a two-question quiz and an empty quiz,
  computed on concrete data.

Questions and options are sequences kept in ascending id order
(`WellFormed`). The models declare no ordering, so `.first()` orders by
primary key. `FirstQuestion` and `FirstUnansweredHasLeastId` show that the
question picked in sequence order has the least id. The options a student
view lists come from `question.options.all()`, which has no ordering at all;
the model lists them in id order, one of the orders the database may use.

Three behaviours of the code shape the model:

- Starting an attempt with a missing or unknown `quiz_id` fails validation
  in `StartAttemptSerializer`. That is a `ValidationError`, not `NotFound`.
- The answer guard chain checks the request body between the question
  lookup and the option lookup. A missing `answer_id` is therefore a
  `ValidationError`, reported after a bad question and before a bad option.
- Starting a quiz with no questions serialises `None`. The response body then
  holds the serializer's blank initial values and no `attempt_id`. It is
  modelled as `NoQuestion`, with no attempt id. The attempt is still created.

## Model

| member | source | states |
|---|---|---|
| Quizzes.ParseQuestionType | quizzes/models.py:9-15 | only the codes `OBJ` and `MCQ` are question types, and each one reads back to the code it came from |
| Quizzes.QuestionTypeRoundTrip | quizzes/models.py:9-15 | writing a question type as its code and reading it back gives the same type |
| Quizzes.NewChoice | quizzes/models.py:19-22 | a new option is correct only when the flag is given as true; an omitted flag means false |
| Quizzes.QuestionsOf | quizzes/models.py:14 | `quiz.questions` holds exactly the catalog questions whose quiz is that quiz |
| Quizzes.QuestionsOfAscending | quizzes/models.py:14 | with the catalog in id order, `quiz.questions` is in id order too, and its first element has the least id in the quiz |
| Quizzes.ChoicesOf | quizzes/models.py:20 | `question.options` holds exactly the catalog options whose question is that question |
| Quizzes.ChoicesOfAscending | quizzes/models.py:20 | with the catalog options in id order, `question.options` is in id order too (the source query itself fixes no order) |
| Quizzes.QuestionInOneQuiz | quizzes/models.py:14 | a question is listed under one quiz only, the one its foreign key names |
| Quizzes.ChoiceInOneQuestion | quizzes/models.py:20 | an option is listed under one question only, the one its foreign key names |
| Quizzes.FindQuestion | attempts/views.py:44-48 | the question lookup succeeds iff a question with that id belongs to the attempt's quiz, and returns that question |
| Quizzes.FindChoice | attempts/views.py:53-57 | the option lookup succeeds iff an option with that id belongs to that question, and returns that option |
| Quizzes.FirstUnanswered | attempts/views.py:69-70 | the selected question belongs to the quiz and is unanswered, every quiz question before it is answered, and there is none iff every quiz question is answered |
| Quizzes.FirstUnansweredHasLeastId | attempts/views.py:70 | with ids in ascending order, the selected question has the least id among the quiz's unanswered questions |
| Quizzes.FirstQuestion | attempts/views.py:22 | `quiz.questions.first()` is absent iff the quiz has no question; otherwise it is a question of the quiz with the least id |
| Quizzes.IdsOf | quizzes/models.py:8-17 | the id set of a list of questions holds exactly their ids and is no larger than the list |
| Quizzes.IdsOfAscendingCount | quizzes/models.py:8-17 | with ids in ascending order every question has its own id: there are exactly as many ids as questions |
| Quizzes.SameIdSameQuestion | quizzes/models.py:8-17 | with ids in ascending order one id names at most one question, so the question with the least id is unique |
| AttemptModels.ParseStatus | attempts/models.py:7-10 | only `in_progress` and `submitted` are statuses, and each one reads back to its code |
| AttemptModels.StatusRoundTrip | attempts/models.py:7-10 | writing a status as its code and reading it back gives the same status |
| AttemptModels.NewAttempt | attempts/models.py:24-32 | a new attempt is `in_progress`, with no score and no submission time |
| AttemptModels.Keys | attempts/models.py:49-50 | a pair has a row iff some row of the table carries that (attempt, question) |
| AttemptModels.Lookup | attempts/views.py:59-63 | the lookup finds a row iff the pair has one, and the row it finds belongs to that pair |
| AttemptModels.AnsweredSet | attempts/views.py:69 | a question is in an attempt's answered set iff the table has a row for (attempt, question) |
| AttemptModels.Upsert | attempts/views.py:59-67 | after the upsert the pair has a row and it holds the new option; the key set gains only that pair |
| AttemptModels.UpsertKeepsFlag | attempts/views.py:59-67 | an existing row keeps its correctness flag when its option is rewritten; a created row has none |
| AttemptModels.UpsertLeavesOtherPair | attempts/views.py:59-67 | the row of every other (attempt, question) pair, or its absence, is unchanged |
| AttemptModels.UpsertFrame | attempts/views.py:59-67 | the flag rule and the frame for all other pairs at once |
| AttemptModels.UpsertKeepsUnique | attempts/models.py:49-50 | an upsert on a table with at most one row per pair leaves at most one row per pair |
| AttemptModels.UpsertLength | attempts/views.py:59-67 | the upsert adds a row only when the pair had none, so a repeated answer does not add a second row |
| AttemptModels.UpsertRowOrigin | attempts/views.py:59-67 | every row after the upsert was already in the table, or is the pair's row holding the submitted option |
| AttemptModels.UpsertKeepsUngraded | attempts/views.py:59-67 | the upsert never sets `is_correct`: an ungraded table stays ungraded |
| AttemptModels.UpsertRecords | attempts/views.py:59-67 | on a unique, ungraded table the pair ends with exactly one row, ungraded and holding the new option; every other pair keeps its row; a row is added only when the pair had none |
| AttemptModels.UpsertKeepsInvariant | attempts/views.py:59-67 | recording a row whose attempt, question and option resolve keeps every store constraint |
| AttemptModels.UpsertKeepsResolving | attempts/models.py:34-45 | when every row and the new row resolve to an attempt, a question of its quiz and an option of that question, every row after the upsert does |
| AttemptModels.RowsFromResolvingKeepResolving | attempts/models.py:34-45 | a table made of resolving rows and rows for one resolving (attempt, question, option) resolves entirely |
| AttemptModels.UpsertAnsweredSet | attempts/views.py:59-67 | an upsert adds its question to its attempt's answered set and leaves every other attempt's answered set unchanged |
| AttemptModels.RowsNotOf | attempts/models.py:36-40 | the cascade keeps exactly the rows of other attempts |
| AttemptModels.RowsNotOfKeepsUnique | attempts/models.py:36-40 | the rows the cascade keeps still have at most one row per (attempt, question) pair |
| AttemptModels.DeleteAttempt | attempts/models.py:36-40 | deleting an attempt removes it and exactly its answer rows; every other attempt keeps its value, every other row stays, and the id counter and catalog are unchanged |
| AttemptModels.DeleteAttemptKeepsInvariant | attempts/models.py:36-40 | after the cascade every store constraint holds, and the deleted attempt has no answers left |
| AttemptModels.DeleteAttemptKeepsResolving | attempts/models.py:36-40 | every row the cascade keeps is still ungraded and still references an existing attempt, a question of its quiz and an option of that question |
| AttemptModels.AddAttemptKeepsInvariant | attempts/views.py:17-21 | inserting an attempt of a catalog quiz under the next id keeps every store constraint |
| AttemptModels.AddAttemptKeepsResolving | attempts/views.py:17-21 | inserting an attempt under a fresh id leaves every existing row resolving |
| AttemptSerializers.StudentChoices | attempts/serializers.py:16-20 | the option views match the options one-to-one and in order, with id and text only |
| AttemptSerializers.AttemptIdField | attempts/serializers.py:36-40 | `attempt_id` is the context attempt's id when one is given, and null otherwise |
| AttemptSerializers.StudentQuestion | attempts/serializers.py:22-34 | the view shows the question's id, type and text, its options one-to-one and in order, and the attempt id |
| AttemptSerializers.ChoicesOfRedact | attempts/serializers.py:16-20 | hiding correctness flags and then listing a question's options gives the same result as listing them and then hiding the flags |
| AttemptSerializers.StudentViewHidesAnswers | attempts/serializers.py:16-34 | two catalogs that differ only in option correctness and question explanations give identical student views |
| AttemptSerializers.ValidateStart | attempts/serializers.py:5-8 | the start body is valid iff `quiz_id` is present and names an existing quiz, which it yields |
| AttemptSerializers.ValidateAnswer | attempts/serializers.py:42-43 | the answer body is valid iff it carries `answer_id`, which it yields |
| AttemptViews.StartAttempt | attempts/views.py:11-32 | starting fails iff the body is invalid, and then writes nothing; otherwise it adds exactly the next attempt id and leaves the catalog and answers alone |
| AttemptViews.StartAttemptCreatesOneAttempt | attempts/views.py:17-21 | the new attempt has a fresh id and is owned by the caller, for the requested quiz, in progress, unscored; no other attempt and no answer changes |
| AttemptViews.StartAttemptServesFirstQuestion | attempts/views.py:22-32 | the reply is blank or a question, and blank iff the quiz has no question; otherwise it is exactly the student rendering of the quiz's question with the least id, in the context of the new attempt |
| AttemptViews.StartAttemptKeepsInvariant | attempts/views.py:17-21 | starting an attempt keeps every store constraint |
| AttemptViews.SubmitAnswer | attempts/views.py:35-76 | a failed request writes nothing; no request changes the catalog, any attempt or the id counter; an attempt's answered set never shrinks; the blank reply never occurs |
| AttemptViews.SubmitAcceptedWritesUpsert | attempts/views.py:59-67 | an accepted request writes exactly the upsert of the submitted option for (attempt, question) |
| AttemptViews.SubmitToForeignAttempt | attempts/views.py:36 | a missing attempt, or another user's attempt, gives NotFound and no change, whatever the question and body |
| AttemptViews.SubmittedAttemptIsFrozen | attempts/views.py:38-42 | on the caller's submitted attempt every request gives Forbidden and no change, whatever the question and body |
| AttemptViews.SubmitGuardOrder | attempts/views.py:44-57 | on the caller's in-progress attempt: a foreign question gives NotFound, then a missing `answer_id` gives ValidationError, then a foreign option gives NotFound, and none writes |
| AttemptViews.SubmitSucceedsIffAccepted | attempts/views.py:36-57 | a request succeeds iff all five guards pass |
| AttemptViews.SubmitRecordsAnswer | attempts/views.py:59-67 | on success the pair has exactly one row, holding the submitted option and ungraded; every other pair's row is unchanged; a row is added only if the pair had none |
| AttemptViews.SubmitAnsweredSetGrows | attempts/views.py:59-70 | on success the attempt's answered set becomes the old set plus the question; other attempts' sets and every attempt's status are unchanged |
| AttemptViews.SubmitServesFirstUnanswered | attempts/views.py:69-76 | on success the reply is Completed or a question, and Completed iff every quiz question is answered; otherwise it is exactly the student rendering of the unanswered quiz question with the least id, in the context of the attempt, and never the question just answered |
| AttemptViews.SubmitKeepsInvariant | attempts/views.py:36-67 | every answer request keeps every store constraint |
| AttemptRuns.Replay | attempts/views.py:59-69 | a run of answer requests changes no attempt and no catalog entry, and never shrinks the attempt's answered set |
| AttemptRuns.ReplayKeepsInvariant | attempts/views.py:36-67 | a run of answer requests keeps every store constraint |
| AttemptRuns.ReplayAnswersAccepted | attempts/views.py:59-69 | every question whose request was accepted during a run is answered at the end of it |
| AttemptRuns.ReplayKeepsOtherRows | attempts/views.py:59-67 | a run with no accepted request for a question leaves that question's row as it was |
| AttemptRuns.LastAcceptedAnswerWins | attempts/views.py:59-67 | after a run the question has exactly one row, and it holds the option of the last accepted request for that question |
| AttemptRuns.FirstAcceptedAnswerStays | attempts/views.py:59-67 | an answer recorded first in a run survives when no later request for that question is accepted |
| AttemptRuns.QuizCompletesOnceCovered | attempts/views.py:36-73 | once accepted requests cover every question of the quiz, the last of them is answered with Completed and never with a question, whatever rejected requests are mixed into the run |
| AttemptRuns.QuestionsAsked | attempts/views.py:35 | a question is named by the run exactly when some request's URL names it |
| AttemptRuns.QuestionsAskedDistinctCount | attempts/views.py:35 | when no question repeats, a run names as many questions as it has requests |
| AttemptRuns.AcceptedQuestionInQuiz | attempts/views.py:44-48 | an accepted request names a question of the attempt's quiz |
| AttemptRuns.DistinctAcceptedAtMostQuizSize | attempts/views.py:44-48 | a quiz with N questions admits at most N accepted requests for distinct questions on one attempt, so a covering run of distinct questions has at most N calls |
| AttemptRuns.NthDistinctAnswerCompletes | attempts/views.py:44-73 | on a quiz with N questions, after N-1 accepted answers to distinct questions the N-th accepted answer, to a further question, is answered with Completed |
| AttemptRuns.DistinctRunCoversQuiz | attempts/views.py:44-48 | N accepted requests for distinct questions of an N-question quiz name every question of it |
| AttemptRuns.RunIdsCoverQuestions | quizzes/models.py:8-17 | N distinct ids of questions of an N-question list name every question in it |
| Scenarios.StartMath | attempts/views.py:10-32 | starting a two-question quiz creates attempt 1 for the caller and shows question 1 with both options, without correctness flags |
| Scenarios.FirstMathView | attempts/serializers.py:22-34 | the student view of that first question lists exactly its two options, in order |
| Scenarios.MathOptionsOfFirst | quizzes/models.py:20 | the options of question 1 of that catalog are options 1 and 2, in that order |
| Scenarios.StartEmptyQuiz | attempts/views.py:22-32 | starting a quiz with no questions still creates the attempt and replies with the blank body |

## Left out

- Framework plumbing: ORM queries, `get_object_or_404`, `Response` objects,
  HTTP status codes and messages. Each becomes a `Response` constructor and a
  sequence or map lookup.
- Timestamps (`started_at`, `submitted_at`, `answered_at`, `created_at`,
  `updated_at`) are wall-clock values. They are not modelled, except that a
  new attempt has no `submitted_at`.
- Concurrency: the race between parallel `get_or_create` calls is not
  modelled. Requests run one after another.
- The answer column is a `TextField` that is assigned an `Option` object. The
  model stores the option's id.
- `answer_id` is declared as a UUID while option ids are integers. The model
  treats `answer_id` as an integer that is present or absent. Malformed
  request values are not modelled.
- The `django.cnf` import typo in attempts/models.py is not modelled.
- Grading and the `in_progress` to `submitted` transition: no code computes
  `score` or changes `status`. The model keeps both as fields that a store
  may already hold, and adds no finish operation.
- Quiz authoring (nested creation in quizzes/serializers.py, the viewsets in
  quizzes/views.py), users and routing are plumbing around the engine and are
  not modelled. The routes in quizzes/urls.py name views that do not exist.
- Cascade deletes of quizzes, questions and users are not modelled. Only the
  deletion of an attempt with its answers is modelled.
- A table holding two rows for one pair (which would make `get_or_create`
  raise) is not modelled. The store invariant excludes it, and every
  operation keeps that invariant.
- AttemptSerializers.StudentQuestion: lists a question's options in id order.
  The source iterates `question.options.all()` without `ORDER BY`, so its
  order is whatever the database returns; the model fixes one such order.
- Scenarios: only starting an attempt is computed on concrete data; the answer
  steps are stated for all inputs by the lemmas in `AttemptViews` and
  `AttemptRuns`.
