/** What a student is shown of a question, and the validation of the two
    request payloads (attempts/serializers.py). The student view carries no
    option correctness flag and no explanation. */
module AttemptSerializers {
  import opened Wrappers
  import opened Quizzes
  import opened AttemptModels

  /** A request body: field name to integer value. */
  type Payload = map<string, Id>

  /** `StudentOptionSerializer`: an option's id and text only. */
  datatype StudentChoiceView = StudentChoiceView(id: Id, text: string)

  /** `StudentQuestionSerializer`: id, type, text, the options and the attempt id. */
  datatype StudentQuestionView = StudentQuestionView(
    id: Id, qtype: QuestionType, text: string, choices: seq<StudentChoiceView>, attemptId: Option<Id>)

  /** The options rendered one-to-one and in order. */
  function StudentChoices(cs: seq<Choice>): (r: seq<StudentChoiceView>)
    ensures |r| == |cs|
    ensures forall i :: 0 <= i < |r| ==> r[i].id == cs[i].id && r[i].text == cs[i].text
  {
    if cs == [] then []
    else [StudentChoiceView(cs[0].id, cs[0].text)] + StudentChoices(cs[1..])
  }

  /** `get_attempt_id`: the context attempt's id, or null without one. */
  function AttemptIdField(context: Option<Attempt>): (r: Option<Id>)
    ensures r.Some? <==> context.Some?
    ensures r.Some? ==> r.value == context.value.id
  {
    match context
    case None => None
    case Some(a) => Some(a.id)
  }

  /** Renders question `q` of catalog `c` for a student. */
  function StudentQuestion(c: Catalog, q: Question, context: Option<Attempt>): (v: StudentQuestionView)
    ensures v.id == q.id && v.qtype == q.qtype && v.text == q.text
    ensures |v.choices| == |ChoicesOf(c.choices, q.id)|
    ensures forall i :: 0 <= i < |v.choices| ==>
      v.choices[i].id == ChoicesOf(c.choices, q.id)[i].id && v.choices[i].text == ChoicesOf(c.choices, q.id)[i].text
    ensures forall i :: 0 <= i < |v.choices| ==> ChoicesOf(c.choices, q.id)[i] in c.choices
    ensures v.attemptId == AttemptIdField(context)
  {
    StudentQuestionView(q.id, q.qtype, q.text, StudentChoices(ChoicesOf(c.choices, q.id)), AttemptIdField(context))
  }

  /** Clears every instructor-only field: option correctness and explanations. */
  function RedactChoices(cs: seq<Choice>): (r: seq<Choice>)
    ensures |r| == |cs|
    ensures forall i :: 0 <= i < |r| ==> r[i] == cs[i].(isCorrect := false)
  {
    if cs == [] then [] else [cs[0].(isCorrect := false)] + RedactChoices(cs[1..])
  }

  function RedactQuestion(q: Question): Question {
    q.(explanation := "")
  }

  function Redact(c: Catalog): Catalog {
    c.(questions := seq(|c.questions|, i requires 0 <= i < |c.questions| => RedactQuestion(c.questions[i])),
       choices := RedactChoices(c.choices))
  }

  lemma {:induction false} ChoicesOfRedact(cs: seq<Choice>, question: Id)
    ensures ChoicesOf(RedactChoices(cs), question) == RedactChoices(ChoicesOf(cs, question))
  {
    if cs != [] {
      ChoicesOfRedact(cs[1..], question);
      assert RedactChoices(cs)[1..] == RedactChoices(cs[1..]);
    }
  }

  /** The rendered options do not show correctness: clearing it first changes nothing. */
  lemma {:induction false} StudentChoicesIgnoreFlag(cs: seq<Choice>)
    ensures StudentChoices(RedactChoices(cs)) == StudentChoices(cs)
  {
    if cs != [] {
      StudentChoicesIgnoreFlag(cs[1..]);
      assert RedactChoices(cs)[1..] == RedactChoices(cs[1..]);
    }
  }

  /** The student view of a question does not depend on which options are
      correct or on the explanation: two catalogs that differ only there
      render every question identically. */
  lemma StudentViewHidesAnswers(c1: Catalog, c2: Catalog, q1: Question, q2: Question, context: Option<Attempt>)
    requires Redact(c1) == Redact(c2) && RedactQuestion(q1) == RedactQuestion(q2)
    ensures StudentQuestion(c1, q1, context) == StudentQuestion(c2, q2, context)
  {
    assert q1.id == q2.id;
    var o1 := ChoicesOf(c1.choices, q1.id);
    var o2 := ChoicesOf(c2.choices, q2.id);
    ChoicesOfRedact(c1.choices, q1.id);
    ChoicesOfRedact(c2.choices, q2.id);
    assert RedactChoices(o1) == RedactChoices(o2) by {
      assert RedactChoices(c1.choices) == Redact(c1).choices == Redact(c2).choices == RedactChoices(c2.choices);
    }
    StudentChoicesIgnoreFlag(o1);
    StudentChoicesIgnoreFlag(o2);
  }

  /** `StartAttemptSerializer`: `quiz_id` must be present and name an existing quiz. */
  function ValidateStart(data: Payload, quizzes: map<Id, Quiz>): (r: Option<Quiz>)
    ensures r.Some? <==> "quiz_id" in data && data["quiz_id"] in quizzes
    ensures r.Some? ==> r.value == quizzes[data["quiz_id"]]
  {
    if "quiz_id" in data && data["quiz_id"] in quizzes then Some(quizzes[data["quiz_id"]]) else None
  }

  /** `AttemptAnswerSerializer`: `answer_id` is required. */
  function ValidateAnswer(data: Payload): (r: Option<Id>)
    ensures r.Some? <==> "answer_id" in data
    ensures r.Some? ==> r.value == data["answer_id"]
  {
    if "answer_id" in data then Some(data["answer_id"]) else None
  }
}
