/** Worked examples: starting a two-question quiz and an empty quiz. */
module Scenarios {
  import opened Wrappers
  import opened Quizzes
  import opened AttemptModels
  import opened AttemptSerializers
  import opened AttemptViews

  /** Quiz 1 "Math": question 1 with options 1 (correct) and 2 (flag omitted),
      question 2 with options 3 and 4 (correct). Quiz 2 "Empty" has no question. */
  function MathCatalog(): Catalog {
    Catalog(
      map[1 := Quiz(1, "Math"), 2 := Quiz(2, "Empty")],
      [Question(1, 1, MultipleChoice, "Q1", "E1"), Question(2, 1, MultipleChoice, "Q2", "E2")],
      [NewChoice(1, 1, "O1", Some(true)), NewChoice(2, 1, "O2", None),
       NewChoice(3, 2, "O3", Some(false)), NewChoice(4, 2, "O4", Some(true))])
  }

  function Student(): Attempt {
    Attempt(1, 7, 1, InProgress, None, None)
  }

  /** Starting quiz "Math" creates attempt 1 for user 7 and serves question 1
      with its two options, correctness hidden. */
  lemma StartMath()
    ensures StartAttempt(Store(MathCatalog(), map[], [], 1), 7, map["quiz_id" := 1]) ==
      Outcome(Store(MathCatalog(), map[1 := Student()], [], 2), NextQuestion(StudentQuestionView(1, MultipleChoice, "Q1",
        [StudentChoiceView(1, "O1"), StudentChoiceView(2, "O2")], Some(1))))
  {
    var c := MathCatalog();
    assert ValidateStart(map["quiz_id" := 1], c.quizzes) == Some(Quiz(1, "Math"));
    assert FirstQuestion(c.questions, 1) == Some(c.questions[0]) by {
      assert FirstUnanswered(c.questions, 1, {}) == Some(0);
    }
    assert NewAttempt(1, 7, 1) == Student();
    FirstMathView();
  }

  lemma FirstMathView()
    ensures StudentQuestion(MathCatalog(), MathCatalog().questions[0], Some(Student())) ==
      StudentQuestionView(1, MultipleChoice, "Q1", [StudentChoiceView(1, "O1"), StudentChoiceView(2, "O2")], Some(1))
  {
    var o1, o2 := Choice(1, 1, "O1", true), Choice(2, 1, "O2", false);
    MathOptionsOfFirst();
    assert StudentChoices([o1, o2]) == [StudentChoiceView(1, "O1"), StudentChoiceView(2, "O2")] by {
      assert [o1, o2][1..] == [o2];
    }
  }

  /** Question 1 of the catalog has options 1 and 2, in that order. */
  lemma MathOptionsOfFirst()
    ensures ChoicesOf(MathCatalog().choices, 1) == [Choice(1, 1, "O1", true), Choice(2, 1, "O2", false)]
  {
    var o1, o2 := Choice(1, 1, "O1", true), Choice(2, 1, "O2", false);
    var o3, o4 := Choice(3, 2, "O3", false), Choice(4, 2, "O4", true);
    assert MathCatalog().choices == [o1, o2, o3, o4];
    assert ChoicesOf([o4], 1) == [] by { assert [o4][1..] == []; }
    assert ChoicesOf([o3, o4], 1) == [] by { assert [o3, o4][1..] == [o4]; }
    assert ChoicesOf([o2, o3, o4], 1) == [o2] by { assert [o2, o3, o4][1..] == [o3, o4]; }
    assert ChoicesOf([o1, o2, o3, o4], 1) == [o1, o2] by { assert [o1, o2, o3, o4][1..] == [o2, o3, o4]; }
  }

  /** Starting the empty quiz creates the attempt and answers with the blank body. */
  lemma StartEmptyQuiz()
    ensures var o := StartAttempt(Store(MathCatalog(), map[], [], 1), 7, map["quiz_id" := 2]);
      o.response == NoQuestion && 1 in o.store.attempts
  {
  }
}
