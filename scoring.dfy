/**
 * Scoring a submitted test (the POST branch of the take_test route): every
 * question of the test is looked up in the form, the submitted choice id is
 * looked up in the whole choice table, and a question earns a point when
 * that choice exists and is flagged correct. The submitted ids are recorded
 * as they were sent, one per question.
 */
module Scoring {
  import opened Tables

  /**
   * The submitted form: for each answered question id, the choice id sent
   * for it. A question id absent from the map was left unanswered.
   */
  type Form = map<int, int>

  /** A question's (question id, selected choice id) pair; None stands for NULL. */
  type Selection = (int, Option<int>)

  /** `request.form.get(f"question-{id}")` for one question. */
  function Submitted(form: Form, q: QuestionRow): Option<int>
  {
    if q.id in form then Some(form[q.id]) else None
  }

  /**
   * A question earns a point when an id was submitted for it and the choice
   * row with that id exists and is flagged correct. The choice is looked up
   * by id alone: it need not belong to this question, nor to this test.
   */
  predicate Credited(q: QuestionRow, choices: seq<ChoiceRow>, form: Form)
    ensures Credited(q, choices, form)
      <==> q.id in form
           && exists i :: 0 <= i < |choices| && choices[i].id == form[q.id] && choices[i].isCorrect
                          && forall k :: 0 <= k < i ==> choices[k].id != form[q.id]
  {
    q.id in form && ChoiceById(choices, form[q.id]).Some? && ChoiceById(choices, form[q.id]).value.isCorrect
  }

  /** The score of a submission: one point per credited question, counted in question order. */
  function Score(questions: seq<QuestionRow>, choices: seq<ChoiceRow>, form: Form): (n: nat)
    ensures n <= |questions|
  {
    if questions == [] then 0
    else
      var last := questions[|questions| - 1];
      Score(questions[..|questions| - 1], choices, form) + (if Credited(last, choices, form) then 1 else 0)
  }

  /** The answers the route records: one per question, in question order, with the id exactly as submitted. */
  function Selections(questions: seq<QuestionRow>, form: Form): (s: seq<Selection>)
    ensures |s| == |questions|
    ensures forall i :: 0 <= i < |questions| ==> s[i].0 == questions[i].id
    ensures forall i :: 0 <= i < |questions| ==> (s[i].1.Some? <==> questions[i].id in form)
    ensures forall i :: 0 <= i < |questions| && questions[i].id in form ==> s[i].1 == Some(form[questions[i].id])
  {
    if questions == [] then []
    else
      var last := questions[|questions| - 1];
      Selections(questions[..|questions| - 1], form) + [(last.id, Submitted(form, last))]
  }

  /**
   * The scoring loop of take_test: `total` is the number of questions of the
   * test, whatever the form holds, `score` the number of credited questions,
   * and `userAnswers` the pairs the answer rows are made from.
   */
  method ScoreSubmission(questions: seq<QuestionRow>, choices: seq<ChoiceRow>, form: Form)
    returns (score: nat, total: nat, userAnswers: seq<Selection>)
    ensures total == |questions|
    ensures score == Score(questions, choices, form)
    ensures userAnswers == Selections(questions, form)
  {
    score := 0;
    total := |questions|;
    userAnswers := [];
    var i := 0;
    while i < |questions|
      invariant 0 <= i <= |questions|
      invariant score == Score(questions[..i], choices, form)
      invariant userAnswers == Selections(questions[..i], form)
    {
      var q := questions[i];
      assert questions[..i + 1][..i] == questions[..i];
      if q.id in form {
        var selected := form[q.id];
        var row := ChoiceById(choices, selected);
        if row.Some? && row.value.isCorrect {
          score := score + 1;
        }
        userAnswers := userAnswers + [(q.id, Some(selected))];
      } else {
        userAnswers := userAnswers + [(q.id, None)];
      }
      i := i + 1;
    }
    assert questions[..i] == questions;
  }

  /** The answer rows of one result: one per selection, in order, with consecutive fresh ids. */
  function AnswerRows(resultId: int, firstId: int, selections: seq<Selection>): (r: seq<AnswerRow>)
    ensures |r| == |selections|
    ensures forall i :: 0 <= i < |r| ==> r[i].id == firstId + i && r[i].resultId == resultId
    ensures forall i :: 0 <= i < |r| ==> r[i].questionId == selections[i].0 && r[i].selectedChoiceId == selections[i].1
  {
    seq(|selections|, i requires 0 <= i < |selections| => AnswerRow(firstId + i, resultId, selections[i].0, selections[i].1))
  }

  /** The score is the number of credited questions, counted independently of question order. */
  lemma {:induction false} ScoreCountsCredited(questions: seq<QuestionRow>, choices: seq<ChoiceRow>, form: Form)
    ensures Score(questions, choices, form) == |Where(questions, (q: QuestionRow) => Credited(q, choices, form))|
  {
    var p := (q: QuestionRow) => Credited(q, choices, form);
    if questions != [] {
      var n := |questions| - 1;
      assert questions == questions[..n] + [questions[n]];
      WhereAppend(questions[..n], [questions[n]], p);
      ScoreCountsCredited(questions[..n], choices, form);
    }
  }

  /** Full marks exactly when every question is credited. */
  lemma {:induction false} ScoreFullIff(questions: seq<QuestionRow>, choices: seq<ChoiceRow>, form: Form)
    ensures Score(questions, choices, form) == |questions| <==> forall q :: q in questions ==> Credited(q, choices, form)
  {
    if questions != [] {
      var n := |questions| - 1;
      var init := questions[..n];
      var last := questions[n];
      ScoreFullIff(init, choices, form);
      assert questions == init + [last];
      if Score(questions, choices, form) == |questions| {
        assert Score(init, choices, form) == n && Credited(last, choices, form);
        forall q | q in questions ensures Credited(q, choices, form) {
          if q != last {
            assert q in init;
          }
        }
      } else if Score(init, choices, form) != n {
        var q :| q in init && !Credited(q, choices, form);
        assert q in questions;
      } else {
        assert !Credited(last, choices, form) && last in questions;
      }
    }
  }

  /** Zero exactly when no question is credited. */
  lemma {:induction false} ScoreZeroIff(questions: seq<QuestionRow>, choices: seq<ChoiceRow>, form: Form)
    ensures Score(questions, choices, form) == 0 <==> forall q :: q in questions ==> !Credited(q, choices, form)
  {
    if questions != [] {
      var n := |questions| - 1;
      var init := questions[..n];
      ScoreZeroIff(init, choices, form);
      assert Score(questions, choices, form) == 0
        <==> Score(init, choices, form) == 0 && !Credited(questions[n], choices, form);
      assert forall q :: q in questions <==> q in init || q == questions[n] by {
        assert questions == init + [questions[n]];
      }
    }
  }

  /**
   * Only the questions of the test are scored: two forms that agree on the
   * test's question ids get the same score, however many other entries
   * either holds.
   */
  lemma {:induction false} ScoreIgnoresOtherEntries(questions: seq<QuestionRow>, choices: seq<ChoiceRow>, form: Form, form': Form)
    requires forall q :: q in questions ==> (q.id in form <==> q.id in form') && (q.id in form ==> form[q.id] == form'[q.id])
    ensures Score(questions, choices, form) == Score(questions, choices, form')
    ensures Selections(questions, form) == Selections(questions, form')
  {
    if questions != [] {
      var n := |questions| - 1;
      assert questions[n] in questions;
      assert forall q :: q in questions[..n] ==> q in questions;
      ScoreIgnoresOtherEntries(questions[..n], choices, form, form');
    }
  }

  /** An empty submission scores zero and records every question as unanswered. */
  lemma EmptyFormScoresZero(questions: seq<QuestionRow>, choices: seq<ChoiceRow>)
    ensures Score(questions, choices, map[]) == 0
    ensures forall i :: 0 <= i < |questions| ==> Selections(questions, map[])[i].1.None?
  {
    ScoreZeroIff(questions, choices, map[]);
  }

  /** Within a table whose ids are 1..n in order, the row with id `k` is the k-th. */
  lemma ChoiceByIdDense(choices: seq<ChoiceRow>, c: ChoiceRow)
    requires forall i :: 0 <= i < |choices| ==> choices[i].id == i + 1
    requires c in choices
    ensures ChoiceById(choices, c.id) == Some(c)
  {
    var k :| 0 <= k < |choices| && choices[k] == c;
    var f := ChoiceById(choices, c.id);
    var i :| 0 <= i < |choices| && choices[i] == f.value && forall j :: 0 <= j < i ==> choices[j].id != c.id;
  }

  /**
   * Selecting, for every question, a correct choice of that question earns
   * full marks.
   */
  lemma AllCorrectScoresTotal(questions: seq<QuestionRow>, choices: seq<ChoiceRow>, form: Form)
    requires forall i :: 0 <= i < |choices| ==> choices[i].id == i + 1
    requires forall q :: q in questions ==> (q.id in form
      && exists c :: c in choices && c.id == form[q.id] && c.questionId == q.id && c.isCorrect)
    ensures Score(questions, choices, form) == |questions|
  {
    forall q | q in questions ensures Credited(q, choices, form) {
      var c :| c in choices && c.id == form[q.id] && c.questionId == q.id && c.isCorrect;
      ChoiceByIdDense(choices, c);
    }
    ScoreFullIff(questions, choices, form);
  }

  /**
   * A correct choice of a different question, even of a different test,
   * earns the point: the submitted id is looked up among all choices, not
   * among the question's own.
   */
  lemma ForeignCorrectChoiceEarnsPoint(q: QuestionRow, c: ChoiceRow, choices: seq<ChoiceRow>, form: Form)
    requires forall i :: 0 <= i < |choices| ==> choices[i].id == i + 1
    requires c in choices && c.isCorrect && c.questionId != q.id
    requires q.id in form && form[q.id] == c.id
    ensures Credited(q, choices, form)
  {
    ChoiceByIdDense(choices, c);
  }

  /**
   * An id that names no choice earns nothing, yet it is recorded as sent:
   * the answer row keeps the submitted id.
   */
  lemma UnknownChoiceRecordedAsSent(qs: seq<QuestionRow>, i: nat, choices: seq<ChoiceRow>, form: Form)
    requires i < |qs| && qs[i].id in form
    requires forall c :: c in choices ==> c.id != form[qs[i].id]
    ensures !Credited(qs[i], choices, form)
    ensures Selections(qs, form)[i] == (qs[i].id, Some(form[qs[i].id]))
  {
  }
}
