/** The read-only quiz catalog: quizzes, their questions and each question's
    answer options (quizzes/models.py). Questions are kept in ascending id
    order, the order `.first()` uses when the models declare no ordering of
    their own. Options are kept in ascending id order too; an unordered query
    over them has no fixed order, and this is one the database may return. */
module Quizzes {
  import opened Wrappers

  type Id = nat

  /** The two question kinds the `question_type` column admits. */
  datatype QuestionType = Objective | MultipleChoice

  /** The code stored in the `question_type` column. */
  function QuestionTypeCode(t: QuestionType): (code: string)
    ensures |code| == 3
  {
    match t
    case Objective => "OBJ"
    case MultipleChoice => "MCQ"
  }

  /** Reads a `question_type` column value; anything but the two codes is rejected. */
  function ParseQuestionType(code: string): (r: Option<QuestionType>)
    ensures r.Some? <==> code == "OBJ" || code == "MCQ"
    ensures r.Some? ==> QuestionTypeCode(r.value) == code
  {
    if code == "OBJ" then Some(Objective)
    else if code == "MCQ" then Some(MultipleChoice)
    else None
  }

  lemma QuestionTypeRoundTrip(t: QuestionType)
    ensures ParseQuestionType(QuestionTypeCode(t)) == Some(t)
  {
  }

  datatype Quiz = Quiz(id: Id, name: string)

  /** A question belongs to the single quiz named by its `quiz` field. */
  datatype Question = Question(id: Id, quiz: Id, qtype: QuestionType, text: string, explanation: string)

  /** An answer option (the `Option` model) of the single question named by its `question` field. */
  datatype Choice = Choice(id: Id, question: Id, text: string, isCorrect: bool)

  datatype Catalog = Catalog(quizzes: map<Id, Quiz>, questions: seq<Question>, choices: seq<Choice>)

  /** Creates an option; an omitted correctness flag means "not correct". */
  function NewChoice(id: Id, question: Id, text: string, isCorrect: Option<bool>): (c: Choice)
    ensures c.id == id && c.question == question && c.text == text
    ensures c.isCorrect <==> isCorrect == Some(true)
  {
    Choice(id, question, text, if isCorrect.Some? then isCorrect.value else false)
  }

  predicate QuestionIdsAscending(qs: seq<Question>) {
    forall i, j :: 0 <= i < j < |qs| ==> qs[i].id < qs[j].id
  }

  predicate ChoiceIdsAscending(cs: seq<Choice>) {
    forall i, j :: 0 <= i < j < |cs| ==> cs[i].id < cs[j].id
  }

  predicate QuestionExists(qs: seq<Question>, id: Id) {
    exists i :: 0 <= i < |qs| && qs[i].id == id
  }

  /** The foreign keys of the catalog resolve and the id orders hold. */
  predicate WellFormed(c: Catalog) {
    && (forall k :: k in c.quizzes ==> c.quizzes[k].id == k)
    && QuestionIdsAscending(c.questions)
    && (forall i :: 0 <= i < |c.questions| ==> c.questions[i].quiz in c.quizzes)
    && ChoiceIdsAscending(c.choices)
    && (forall i :: 0 <= i < |c.choices| ==> QuestionExists(c.questions, c.choices[i].question))
  }

  /** `quiz.questions`: the questions of one quiz, in catalog order. */
  function QuestionsOf(qs: seq<Question>, quiz: Id): (r: seq<Question>)
    ensures forall q :: q in r <==> q in qs && q.quiz == quiz
  {
    if qs == [] then []
    else
      var rest := QuestionsOf(qs[1..], quiz);
      assert forall q :: q in qs <==> q == qs[0] || q in qs[1..];
      if qs[0].quiz == quiz then [qs[0]] + rest else rest
  }

  /** Selecting a quiz's questions keeps them in ascending id order, so the
      first of them has the least id in the quiz. */
  lemma {:induction false} QuestionsOfAscending(qs: seq<Question>, quiz: Id)
    requires QuestionIdsAscending(qs)
    ensures QuestionIdsAscending(QuestionsOf(qs, quiz))
    ensures QuestionsOf(qs, quiz) != [] ==>
      forall q :: q in qs && q.quiz == quiz ==> QuestionsOf(qs, quiz)[0].id <= q.id
  {
    if qs != [] {
      var tail := qs[1..];
      assert QuestionIdsAscending(tail) by {
        forall i, j | 0 <= i < j < |tail|
          ensures tail[i].id < tail[j].id
        {
          assert tail[i] == qs[i + 1] && tail[j] == qs[j + 1];
        }
      }
      QuestionsOfAscending(tail, quiz);
    }
  }

  /** `question.options`: the options of one question, in catalog order. */
  function ChoicesOf(cs: seq<Choice>, question: Id): (r: seq<Choice>)
    ensures forall c :: c in r <==> c in cs && c.question == question
  {
    if cs == [] then []
    else
      var rest := ChoicesOf(cs[1..], question);
      assert forall c :: c in cs <==> c == cs[0] || c in cs[1..];
      if cs[0].question == question then [cs[0]] + rest else rest
  }

  /** Selecting a question's options keeps them in ascending id order. */
  lemma {:induction false} ChoicesOfAscending(cs: seq<Choice>, question: Id)
    requires ChoiceIdsAscending(cs)
    ensures ChoiceIdsAscending(ChoicesOf(cs, question))
  {
    if cs != [] {
      var tail := cs[1..];
      assert ChoiceIdsAscending(tail) by {
        forall i, j | 0 <= i < j < |tail|
          ensures tail[i].id < tail[j].id
        {
          assert tail[i] == cs[i + 1] && tail[j] == cs[j + 1];
        }
      }
      ChoicesOfAscending(tail, question);
    }
  }

  /** The ids of the questions in `qs`; there are no more of them than questions. */
  function IdsOf(qs: seq<Question>): (r: set<Id>)
    ensures forall id :: id in r <==> exists q :: q in qs && q.id == id
    ensures |r| <= |qs|
  {
    if qs == [] then {}
    else
      assert forall q :: q in qs <==> q == qs[0] || q in qs[1..];
      {qs[0].id} + IdsOf(qs[1..])
  }

  /** Under ascending ids every question has its own id: there are exactly as
      many ids as questions. */
  lemma {:induction false} IdsOfAscendingCount(qs: seq<Question>)
    requires QuestionIdsAscending(qs)
    ensures |IdsOf(qs)| == |qs|
  {
    if qs != [] {
      var tail := qs[1..];
      assert QuestionIdsAscending(tail) by {
        forall i, j | 0 <= i < j < |tail|
          ensures tail[i].id < tail[j].id
        {
          assert tail[i] == qs[i + 1] && tail[j] == qs[j + 1];
        }
      }
      IdsOfAscendingCount(tail);
      HeadIdFresh(qs);
      assert IdsOf(qs) == {qs[0].id} + IdsOf(tail);
    }
  }

  /** Under ascending ids the first question's id is not among the others'. */
  lemma HeadIdFresh(qs: seq<Question>)
    requires QuestionIdsAscending(qs) && qs != []
    ensures qs[0].id !in IdsOf(qs[1..])
  {
  }

  /** Looks a question up by id, succeeding only when it belongs to `quiz`. */
  function FindQuestion(qs: seq<Question>, id: Id, quiz: Id): (r: Option<Question>)
    ensures r.Some? <==> exists i :: 0 <= i < |qs| && qs[i].id == id && qs[i].quiz == quiz
    ensures r.Some? ==> r.value in qs && r.value.id == id && r.value.quiz == quiz
  {
    if qs == [] then None
    else if qs[0].id == id && qs[0].quiz == quiz then Some(qs[0])
    else
      var r := FindQuestion(qs[1..], id, quiz);
      assert forall i :: 1 <= i < |qs| ==> qs[i] == qs[1..][i - 1];
      r
  }

  /** Looks an option up by id, succeeding only when it belongs to `question`. */
  function FindChoice(cs: seq<Choice>, id: Id, question: Id): (r: Option<Choice>)
    ensures r.Some? <==> exists i :: 0 <= i < |cs| && cs[i].id == id && cs[i].question == question
    ensures r.Some? ==> r.value in cs && r.value.id == id && r.value.question == question
  {
    if cs == [] then None
    else if cs[0].id == id && cs[0].question == question then Some(cs[0])
    else
      var r := FindChoice(cs[1..], id, question);
      assert forall i :: 1 <= i < |cs| ==> cs[i] == cs[1..][i - 1];
      r
  }

  /** The first question of `quiz`, in catalog order, whose id is not in `answered`:
      every quiz question before it has been answered, and there is none exactly
      when every question of the quiz has been answered. */
  function FirstUnanswered(qs: seq<Question>, quiz: Id, answered: set<Id>): (r: Option<nat>)
    ensures r.None? <==> forall i :: 0 <= i < |qs| && qs[i].quiz == quiz ==> qs[i].id in answered
    ensures r.Some? ==> r.value < |qs| && qs[r.value].quiz == quiz && qs[r.value].id !in answered
    ensures r.Some? ==> forall i :: 0 <= i < r.value && qs[i].quiz == quiz ==> qs[i].id in answered
  {
    if qs == [] then None
    else if qs[0].quiz == quiz && qs[0].id !in answered then Some(0)
    else
      var r := FirstUnanswered(qs[1..], quiz, answered);
      assert forall i :: 1 <= i < |qs| ==> qs[i] == qs[1..][i - 1];
      if r.None? then None else Some(r.value + 1)
  }

  /** `quiz.questions.first()`: the quiz's question with the least id, absent
      exactly when the quiz has no question. */
  function FirstQuestion(qs: seq<Question>, quiz: Id): (r: Option<Question>)
    ensures r.None? <==> forall q :: q in qs ==> q.quiz != quiz
    ensures r.Some? ==> r.value in qs && r.value.quiz == quiz
    ensures r.Some? && QuestionIdsAscending(qs) ==> forall q :: q in qs && q.quiz == quiz ==> r.value.id <= q.id
  {
    var k := FirstUnanswered(qs, quiz, {});
    if k.None? then None
    else
      assert forall i :: 0 <= i < |qs| && qs[i].quiz == quiz ==> k.value <= i;
      Some(qs[k.value])
  }

  /** Scanning in catalog order is scanning in id order: the selected question
      has the least id among the quiz's unanswered questions. */
  lemma FirstUnansweredHasLeastId(qs: seq<Question>, quiz: Id, answered: set<Id>)
    requires QuestionIdsAscending(qs)
    ensures var r := FirstUnanswered(qs, quiz, answered);
      r.Some? ==> forall j :: 0 <= j < |qs| && qs[j].quiz == quiz && qs[j].id !in answered ==> qs[r.value].id <= qs[j].id
  {
  }

  /** `q` is the question of `quiz` with the least id among those not in `answered`. */
  predicate IsLeastUnanswered(qs: seq<Question>, quiz: Id, answered: set<Id>, q: Question) {
    && q in qs && q.quiz == quiz && q.id !in answered
    && forall q2 :: q2 in qs && q2.quiz == quiz && q2.id !in answered ==> q.id <= q2.id
  }

  /** Under ascending ids an id names at most one question. */
  lemma SameIdSameQuestion(qs: seq<Question>, a: Question, b: Question)
    requires QuestionIdsAscending(qs) && a in qs && b in qs && a.id == b.id
    ensures a == b
  {
    var i :| 0 <= i < |qs| && qs[i] == a;
    var j :| 0 <= j < |qs| && qs[j] == b;
    assert i == j;
  }

  /** A question is listed under exactly one quiz: the one its `quiz` field names. */
  lemma QuestionInOneQuiz(qs: seq<Question>, q: Question, a: Id, b: Id)
    requires q in QuestionsOf(qs, a) && q in QuestionsOf(qs, b)
    ensures a == b == q.quiz
  {
  }

  /** An option is listed under exactly one question: the one its `question` field names. */
  lemma ChoiceInOneQuestion(cs: seq<Choice>, c: Choice, a: Id, b: Id)
    requires c in ChoicesOf(cs, a) && c in ChoicesOf(cs, b)
    ensures a == b == c.question
  {
  }
}
