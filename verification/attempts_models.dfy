/** Attempts and their recorded answers (attempts/models.py), and the store the
    attempt engine reads and writes: the catalog, the attempt table and the
    answer table. Of the wall-clock columns only `submitted_at` is kept, as an
    opaque optional number; `started_at` and `answered_at` are left out. */
module AttemptModels {
  import opened Wrappers
  import opened Quizzes

  type Timestamp = nat

  /** The two values the `status` column admits. */
  datatype Status = InProgress | Submitted

  function StatusCode(s: Status): (code: string)
    ensures |code| > 0
  {
    match s
    case InProgress => "in_progress"
    case Submitted => "submitted"
  }

  /** Reads a `status` column value; anything but the two codes is rejected. */
  function ParseStatus(code: string): (r: Option<Status>)
    ensures r.Some? <==> code == "in_progress" || code == "submitted"
    ensures r.Some? ==> StatusCode(r.value) == code
  {
    if code == "in_progress" then Some(InProgress)
    else if code == "submitted" then Some(Submitted)
    else None
  }

  lemma StatusRoundTrip(s: Status)
    ensures ParseStatus(StatusCode(s)) == Some(s)
  {
  }

  datatype Attempt = Attempt(id: Id, user: Id, quiz: Id, status: Status, score: Option<int>, submittedAt: Option<Timestamp>)

  /** A freshly created attempt: in progress, ungraded, not submitted. */
  function NewAttempt(id: Id, user: Id, quiz: Id): (a: Attempt)
    ensures a.id == id && a.user == user && a.quiz == quiz
    ensures a.status == InProgress && StatusCode(a.status) == "in_progress"
    ensures a.score.None? && a.submittedAt.None?
  {
    Attempt(id, user, quiz, InProgress, None, None)
  }

  /** One row of the answer table: the option chosen for one question of one attempt. */
  datatype AttemptAnswer = AttemptAnswer(attempt: Id, question: Id, answer: Id, isCorrect: Option<bool>)

  function Key(row: AttemptAnswer): (Id, Id) {
    (row.attempt, row.question)
  }

  /** The (attempt, question) pairs that have a row. */
  function Keys(rows: seq<AttemptAnswer>): (r: set<(Id, Id)>)
    ensures forall p :: p in r <==> exists i :: 0 <= i < |rows| && Key(rows[i]) == p
  {
    if rows == [] then {}
    else
      assert forall i :: 1 <= i < |rows| ==> rows[i] == rows[1..][i - 1];
      {Key(rows[0])} + Keys(rows[1..])
  }

  /** The table constraint `unique_together = ('attempt', 'question')`. */
  predicate UniquePerAttemptQuestion(rows: seq<AttemptAnswer>) {
    forall i, j :: 0 <= i < j < |rows| ==> Key(rows[i]) != Key(rows[j])
  }

  /** No row has been graded: nothing in the engine sets `is_correct`. */
  predicate Ungraded(rows: seq<AttemptAnswer>) {
    forall i :: 0 <= i < |rows| ==> rows[i].isCorrect.None?
  }

  /** The row recorded for (attempt, question), if any. */
  function Lookup(rows: seq<AttemptAnswer>, attempt: Id, question: Id): (r: Option<AttemptAnswer>)
    ensures r.Some? <==> (attempt, question) in Keys(rows)
    ensures r.Some? ==> r.value in rows && Key(r.value) == (attempt, question)
  {
    if rows == [] then None
    else if Key(rows[0]) == (attempt, question) then Some(rows[0])
    else Lookup(rows[1..], attempt, question)
  }

  /** `attempt.answers.values_list('question_id')`: the questions answered in one attempt. */
  function AnsweredSet(rows: seq<AttemptAnswer>, attempt: Id): (r: set<Id>)
    ensures forall q :: q in r <==> (attempt, q) in Keys(rows)
  {
    set p | p in Keys(rows) && p.0 == attempt :: p.1
  }

  /** `get_or_create` followed by an update of `answer`: records `choice` for
      (attempt, question), rewriting the row that pair already has instead of
      adding a second one, and leaving every other pair's row as it was. A new
      row is ungraded; a rewritten row keeps its correctness flag. */
  function Upsert(rows: seq<AttemptAnswer>, attempt: Id, question: Id, choice: Id): (r: seq<AttemptAnswer>)
    ensures Keys(r) == Keys(rows) + {(attempt, question)}
    ensures Lookup(r, attempt, question).Some?
    ensures Lookup(r, attempt, question).value.answer == choice
  {
    if rows == [] then
      [AttemptAnswer(attempt, question, choice, None)]
    else if Key(rows[0]) == (attempt, question) then
      var r := [rows[0].(answer := choice)] + rows[1..];
      assert r[1..] == rows[1..];
      r
    else
      var rest := Upsert(rows[1..], attempt, question, choice);
      var r := [rows[0]] + rest;
      assert r[1..] == rest;
      r
  }

  /** An upsert adds its question to its attempt's answered set and leaves
      every other attempt's answered set alone. */
  lemma UpsertAnsweredSet(rows: seq<AttemptAnswer>, attempt: Id, question: Id, choice: Id)
    ensures AnsweredSet(Upsert(rows, attempt, question, choice), attempt) == AnsweredSet(rows, attempt) + {question}
    ensures forall a: Id :: a != attempt ==>
      AnsweredSet(Upsert(rows, attempt, question, choice), a) == AnsweredSet(rows, a)
  {
    var r := Upsert(rows, attempt, question, choice);
    forall q | q in AnsweredSet(r, attempt)
      ensures q in AnsweredSet(rows, attempt) + {question}
    {
      assert (attempt, q) in Keys(rows) + {(attempt, question)};
    }
  }

  /** A rewritten row keeps its correctness flag; a new row is ungraded. */
  lemma {:induction false} UpsertKeepsFlag(rows: seq<AttemptAnswer>, attempt: Id, question: Id, choice: Id)
    ensures Lookup(Upsert(rows, attempt, question, choice), attempt, question).value.isCorrect ==
      (if (attempt, question) in Keys(rows) then Lookup(rows, attempt, question).value.isCorrect else None)
  {
    if rows != [] && Key(rows[0]) != (attempt, question) {
      var r := Upsert(rows, attempt, question, choice);
      UpsertKeepsFlag(rows[1..], attempt, question, choice);
      assert r[1..] == Upsert(rows[1..], attempt, question, choice);
      assert (attempt, question) in Keys(rows) <==> (attempt, question) in Keys(rows[1..]);
    }
  }

  /** Every pair other than the upserted one keeps its row, or its absence of one. */
  lemma {:induction false} UpsertLeavesOtherPair(rows: seq<AttemptAnswer>, attempt: Id, question: Id, choice: Id, a: Id, q: Id)
    requires (a, q) != (attempt, question)
    ensures Lookup(Upsert(rows, attempt, question, choice), a, q) == Lookup(rows, a, q)
  {
    var r := Upsert(rows, attempt, question, choice);
    if rows == [] {
      assert r[1..] == [];
    } else if Key(rows[0]) == (attempt, question) {
      assert r[1..] == rows[1..];
    } else {
      UpsertLeavesOtherPair(rows[1..], attempt, question, choice, a, q);
      assert r[1..] == Upsert(rows[1..], attempt, question, choice);
    }
  }

  /** The upsert's effect on lookups: the flag rule and the frame together. */
  lemma UpsertFrame(rows: seq<AttemptAnswer>, attempt: Id, question: Id, choice: Id)
    ensures var r := Upsert(rows, attempt, question, choice);
      && Lookup(r, attempt, question).value.isCorrect ==
         (if (attempt, question) in Keys(rows) then Lookup(rows, attempt, question).value.isCorrect else None)
      && forall a: Id, q: Id :: (a, q) != (attempt, question) ==> Lookup(r, a, q) == Lookup(rows, a, q)
  {
    UpsertKeepsFlag(rows, attempt, question, choice);
    forall a: Id, q: Id | (a, q) != (attempt, question)
      ensures Lookup(Upsert(rows, attempt, question, choice), a, q) == Lookup(rows, a, q)
    {
      UpsertLeavesOtherPair(rows, attempt, question, choice, a, q);
    }
  }

  /** An upsert never breaks the uniqueness constraint. */
  lemma {:induction false} UpsertKeepsUnique(rows: seq<AttemptAnswer>, attempt: Id, question: Id, choice: Id)
    requires UniquePerAttemptQuestion(rows)
    ensures UniquePerAttemptQuestion(Upsert(rows, attempt, question, choice))
  {
    if rows == [] {
    } else if Key(rows[0]) == (attempt, question) {
      var r := Upsert(rows, attempt, question, choice);
      assert forall i :: 0 <= i < |r| ==> Key(r[i]) == Key(rows[i]);
    } else {
      UpsertKeepsUnique(rows[1..], attempt, question, choice);
      assert Key(rows[0]) !in Keys(rows[1..]);
      PrependUnique(rows[0], Upsert(rows[1..], attempt, question, choice));
    }
  }

  lemma PrependUnique(row: AttemptAnswer, rest: seq<AttemptAnswer>)
    requires UniquePerAttemptQuestion(rest) && Key(row) !in Keys(rest)
    ensures UniquePerAttemptQuestion([row] + rest)
  {
  }

  /** An upsert adds a row only for a pair that had none. */
  lemma {:induction false} UpsertLength(rows: seq<AttemptAnswer>, attempt: Id, question: Id, choice: Id)
    ensures |Upsert(rows, attempt, question, choice)| == if (attempt, question) in Keys(rows) then |rows| else |rows| + 1
  {
    if rows != [] && Key(rows[0]) != (attempt, question) {
      UpsertLength(rows[1..], attempt, question, choice);
      assert (attempt, question) in Keys(rows) <==> (attempt, question) in Keys(rows[1..]);
    }
  }

  /** Every row after an upsert was there before, or is the row for the upserted
      pair holding the upserted option. */
  lemma {:induction false} UpsertRowOrigin(rows: seq<AttemptAnswer>, attempt: Id, question: Id, choice: Id)
    ensures forall row :: row in Upsert(rows, attempt, question, choice) ==>
      row in rows || (Key(row) == (attempt, question) && row.answer == choice)
  {
    if rows != [] && Key(rows[0]) != (attempt, question) {
      UpsertRowOrigin(rows[1..], attempt, question, choice);
      assert forall row :: row in Upsert(rows, attempt, question, choice) ==>
        row == rows[0] || row in Upsert(rows[1..], attempt, question, choice);
    }
  }

  /** An upsert never grades: if no row was graded before, none is after. */
  lemma {:induction false} UpsertKeepsUngraded(rows: seq<AttemptAnswer>, attempt: Id, question: Id, choice: Id)
    requires Ungraded(rows)
    ensures Ungraded(Upsert(rows, attempt, question, choice))
  {
    if rows != [] && Key(rows[0]) != (attempt, question) {
      UpsertKeepsUngraded(rows[1..], attempt, question, choice);
    }
  }

  /** On a unique, ungraded table the upserted pair ends with exactly one row,
      ungraded and holding the new option; no other pair's row changes. */
  lemma UpsertRecords(rows: seq<AttemptAnswer>, attempt: Id, question: Id, choice: Id)
    requires UniquePerAttemptQuestion(rows) && Ungraded(rows)
    ensures var r := Upsert(rows, attempt, question, choice);
      && UniquePerAttemptQuestion(r)
      && Lookup(r, attempt, question) == Some(AttemptAnswer(attempt, question, choice, None))
      && (forall a: Id, q: Id :: (a, q) != (attempt, question) ==> Lookup(r, a, q) == Lookup(rows, a, q))
      && |r| == if (attempt, question) in Keys(rows) then |rows| else |rows| + 1
  {
    UpsertKeepsUnique(rows, attempt, question, choice);
    UpsertLength(rows, attempt, question, choice);
    UpsertFrame(rows, attempt, question, choice);
    var prev := Lookup(rows, attempt, question);
    if prev.Some? {
      var i :| 0 <= i < |rows| && rows[i] == prev.value;
    }
  }

  /** The whole persistent state the engine sees. `nextAttemptId` is the id the
      database will hand the next attempt it creates. */
  datatype Store = Store(catalog: Catalog, attempts: map<Id, Attempt>, answers: seq<AttemptAnswer>, nextAttemptId: Id)

  /** The foreign keys and constraints that hold of every reachable store. */
  predicate StoreInvariant(s: Store) {
    && WellFormed(s.catalog)
    && (forall k :: k in s.attempts ==> s.attempts[k].id == k && k < s.nextAttemptId)
    && (forall k :: k in s.attempts ==> s.attempts[k].quiz in s.catalog.quizzes)
    && UniquePerAttemptQuestion(s.answers)
    && Ungraded(s.answers)
    && (forall i :: 0 <= i < |s.answers| ==> AnswerResolves(s, s.answers[i]))
  }

  /** A row names an existing attempt, a question of that attempt's quiz and an
      option of that question. */
  predicate AnswerResolves(s: Store, row: AttemptAnswer) {
    && row.attempt in s.attempts
    && FindQuestion(s.catalog.questions, row.question, s.attempts[row.attempt].quiz).Some?
    && FindChoice(s.catalog.choices, row.answer, row.question).Some?
  }

  /** Recording a row whose references resolve keeps every constraint. */
  lemma UpsertKeepsInvariant(s: Store, attempt: Id, question: Id, choice: Id)
    requires StoreInvariant(s)
    requires AnswerResolves(s, AttemptAnswer(attempt, question, choice, None))
    ensures StoreInvariant(s.(answers := Upsert(s.answers, attempt, question, choice)))
  {
    UpsertKeepsUnique(s.answers, attempt, question, choice);
    UpsertKeepsUngraded(s.answers, attempt, question, choice);
    UpsertKeepsResolving(s, attempt, question, choice);
  }

  /** Every row after an upsert resolves when every row before did and the new one does. */
  lemma UpsertKeepsResolving(s: Store, attempt: Id, question: Id, choice: Id)
    requires forall i :: 0 <= i < |s.answers| ==> AnswerResolves(s, s.answers[i])
    requires AnswerResolves(s, AttemptAnswer(attempt, question, choice, None))
    ensures var s' := s.(answers := Upsert(s.answers, attempt, question, choice));
      forall i :: 0 <= i < |s'.answers| ==> AnswerResolves(s', s'.answers[i])
  {
    UpsertRowOrigin(s.answers, attempt, question, choice);
    RowsFromResolvingKeepResolving(s, Upsert(s.answers, attempt, question, choice), attempt, question, choice);
  }

  /** A table whose rows are old rows or rows for one resolving pair and option
      resolves entirely. */
  lemma RowsFromResolvingKeepResolving(s: Store, rows: seq<AttemptAnswer>, attempt: Id, question: Id, choice: Id)
    requires forall i :: 0 <= i < |s.answers| ==> AnswerResolves(s, s.answers[i])
    requires AnswerResolves(s, AttemptAnswer(attempt, question, choice, None))
    requires forall row :: row in rows ==>
      row in s.answers || (Key(row) == (attempt, question) && row.answer == choice)
    ensures forall i :: 0 <= i < |rows| ==> AnswerResolves(s.(answers := rows), rows[i])
  {
    var s' := s.(answers := rows);
    forall i | 0 <= i < |rows|
      ensures AnswerResolves(s', rows[i])
    {
      var row := rows[i];
      if row in s.answers {
        var j :| 0 <= j < |s.answers| && s.answers[j] == row;
        assert AnswerResolves(s, s.answers[j]);
      } else {
        assert row.attempt == attempt && row.question == question && row.answer == choice;
      }
    }
  }

  /** The rows that do not belong to `attempt`, in their original order. */
  function RowsNotOf(rows: seq<AttemptAnswer>, attempt: Id): (r: seq<AttemptAnswer>)
    ensures forall row :: row in r <==> row in rows && row.attempt != attempt
  {
    if rows == [] then []
    else
      var rest := RowsNotOf(rows[1..], attempt);
      assert forall row :: row in rows <==> row == rows[0] || row in rows[1..];
      if rows[0].attempt == attempt then rest else [rows[0]] + rest
  }

  /** Dropping rows keeps the remaining (attempt, question) pairs distinct. */
  lemma {:induction false} RowsNotOfKeepsUnique(rows: seq<AttemptAnswer>, attempt: Id)
    requires UniquePerAttemptQuestion(rows)
    ensures UniquePerAttemptQuestion(RowsNotOf(rows, attempt))
  {
    if rows != [] {
      var tail := rows[1..];
      forall i, j | 0 <= i < j < |tail|
        ensures Key(tail[i]) != Key(tail[j])
      {
        assert tail[i] == rows[i + 1] && tail[j] == rows[j + 1];
      }
      RowsNotOfKeepsUnique(tail, attempt);
    }
  }

  /** Inserting an attempt of a catalog quiz under the next id keeps every
      store constraint, and the counter moves past it. */
  lemma AddAttemptKeepsInvariant(s: Store, a: Attempt)
    requires StoreInvariant(s)
    requires a.id == s.nextAttemptId && a.quiz in s.catalog.quizzes
    ensures StoreInvariant(s.(attempts := s.attempts[a.id := a], nextAttemptId := s.nextAttemptId + 1))
  {
    AddAttemptKeepsResolving(s, a);
  }

  /** Inserting an attempt under a fresh id leaves every existing row resolving:
      the attempts the rows name keep their quiz. */
  lemma AddAttemptKeepsResolving(s: Store, a: Attempt)
    requires a.id !in s.attempts
    requires forall i :: 0 <= i < |s.answers| ==> AnswerResolves(s, s.answers[i])
    ensures forall i :: 0 <= i < |s.answers| ==>
      AnswerResolves(s.(attempts := s.attempts[a.id := a]), s.answers[i])
  {
    var t := s.(attempts := s.attempts[a.id := a]);
    forall i | 0 <= i < |s.answers|
      ensures AnswerResolves(t, s.answers[i])
    {
      assert AnswerResolves(s, s.answers[i]);
      assert t.attempts[s.answers[i].attempt] == s.attempts[s.answers[i].attempt];
    }
  }

  /** Deleting an attempt deletes its answers with it (`on_delete=CASCADE`). */
  function DeleteAttempt(s: Store, attempt: Id): (r: Store)
    ensures attempt !in r.attempts
    ensures forall k :: k in r.attempts <==> k in s.attempts && k != attempt
    ensures forall k :: k in r.attempts ==> r.attempts[k] == s.attempts[k]
    ensures r.nextAttemptId == s.nextAttemptId
    ensures forall row :: row in r.answers <==> row in s.answers && row.attempt != attempt
    ensures r.catalog == s.catalog
  {
    s.(attempts := s.attempts - {attempt}, answers := RowsNotOf(s.answers, attempt))
  }

  /** The cascade leaves no answer pointing at a deleted attempt. */
  lemma DeleteAttemptKeepsInvariant(s: Store, attempt: Id)
    requires StoreInvariant(s)
    ensures StoreInvariant(DeleteAttempt(s, attempt))
    ensures AnsweredSet(DeleteAttempt(s, attempt).answers, attempt) == {}
  {
    RowsNotOfKeepsUnique(s.answers, attempt);
    DeleteAttemptKeepsResolving(s, attempt);
  }

  /** Every row the cascade keeps is one that resolved before, and it still
      resolves: its attempt survives and the catalog is untouched. */
  lemma DeleteAttemptKeepsResolving(s: Store, attempt: Id)
    requires Ungraded(s.answers)
    requires forall i :: 0 <= i < |s.answers| ==> AnswerResolves(s, s.answers[i])
    ensures Ungraded(DeleteAttempt(s, attempt).answers)
    ensures forall i :: 0 <= i < |DeleteAttempt(s, attempt).answers| ==>
      AnswerResolves(DeleteAttempt(s, attempt), DeleteAttempt(s, attempt).answers[i])
  {
    var t := DeleteAttempt(s, attempt);
    forall i | 0 <= i < |t.answers|
      ensures t.answers[i].isCorrect.None? && AnswerResolves(t, t.answers[i])
    {
      var row := t.answers[i];
      assert row in s.answers && row.attempt != attempt;
      var j :| 0 <= j < |s.answers| && s.answers[j] == row;
      assert AnswerResolves(s, s.answers[j]);
    }
  }
}
