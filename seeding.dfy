/**
 * The catalog that `init_db` seeds into an empty test table: two tests with
 * two questions each, every question with four choices of which exactly one
 * is correct. The texts are placeholders; only the shape is modelled.
 */
module Seeding {
  import opened Tables

  /** One seeded question: the index of its test among the seeded tests, its prompt, and its (label, correct) choices. */
  datatype SeedQuestion = SeedQuestion(test: nat, prompt: string, choices: seq<(string, bool)>)

  /** The (title, description) of each seeded test, in insertion order. */
  const SeedTests: seq<(string, string)> := [
    ("professional skills", "communication, time management and teamwork"),
    ("agile project management", "Scrum, Kanban and agile metrics")
  ]

  /** The seeded questions, in insertion order; the second choice is correct except in the last question, where the third is. */
  const SeedQuestions: seq<SeedQuestion> := [
    SeedQuestion(0, "first step to resolve a team conflict", [("c1", false), ("c2", true), ("c3", false), ("c4", false)]),
    SeedQuestion(0, "tool to prioritise urgent and important tasks", [("c1", false), ("c2", true), ("c3", false), ("c4", false)]),
    SeedQuestion(1, "recommended length of a Daily Scrum", [("c1", false), ("c2", true), ("c3", false), ("c4", false)]),
    SeedQuestion(1, "visual board associated with Kanban", [("c1", false), ("c2", false), ("c3", true), ("c4", false)])
  ]

  /** The number of choices flagged correct. */
  function CorrectCount(specs: seq<(string, bool)>): (n: nat)
    ensures n <= |specs|
  {
    if specs == [] then 0 else (if specs[0].1 then 1 else 0) + CorrectCount(specs[1..])
  }

  /**
   * `insert_question`'s `executemany`: one choice row per (label, correct)
   * pair, in order, with consecutive ids from `firstId`, correctness stored
   * as given.
   */
  function ChoiceRows(questionId: int, firstId: int, specs: seq<(string, bool)>): (r: seq<ChoiceRow>)
    ensures |r| == |specs|
    decreases specs
  {
    if specs == [] then []
    else [ChoiceRow(firstId, questionId, specs[0].0, specs[0].1)] + ChoiceRows(questionId, firstId + 1, specs[1..])
  }

  /** Row `i` has id `firstId + i`, belongs to the question, and carries the i-th label and flag unchanged. */
  lemma {:induction false} ChoiceRowsShape(questionId: int, firstId: int, specs: seq<(string, bool)>)
    ensures var r := ChoiceRows(questionId, firstId, specs);
      && (forall i :: 0 <= i < |r| ==> r[i].id == firstId + i && r[i].questionId == questionId)
      && (forall i :: 0 <= i < |r| ==> r[i].labelText == specs[i].0 && r[i].isCorrect == specs[i].1)
    decreases specs
  {
    if specs != [] {
      ChoiceRowsShape(questionId, firstId + 1, specs[1..]);
    }
  }

  /** The rows made for a question hold as many correct labels for it as its specification has correct choices. */
  lemma {:induction false} ChoiceRowsCorrectLabels(questionId: int, firstId: int, specs: seq<(string, bool)>)
    ensures |CorrectLabels(ChoiceRows(questionId, firstId, specs), questionId)| == CorrectCount(specs)
    decreases specs
  {
    if specs != [] {
      ChoiceRowsCorrectLabels(questionId, firstId + 1, specs[1..]);
      assert ChoiceRows(questionId, firstId, specs)[1..] == ChoiceRows(questionId, firstId + 1, specs[1..]);
    }
  }

  /** Every seeded question has exactly one correct choice, and belongs to a seeded test. */
  lemma SeedQuestionsWellFormed()
    ensures |SeedQuestions| == 4 && |SeedTests| == 2
    ensures forall i :: 0 <= i < |SeedQuestions| ==> CorrectCount(SeedQuestions[i].choices) == 1 && SeedQuestions[i].test < |SeedTests|
  {
    var cs1 := [("c1", false), ("c2", true), ("c3", false), ("c4", false)];
    var cs2 := [("c1", false), ("c2", false), ("c3", true), ("c4", false)];
    assert cs1[1..][1..][1..][1..] == [];
    assert cs2[1..][1..][1..][1..] == [];
    assert CorrectCount(cs1) == 1;
    assert CorrectCount(cs2) == 1;
  }
}
