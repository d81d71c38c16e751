/**
 * The rows of the quiz store's six tables (user, test, question, choice,
 * result, answer), the wrappers the routes use for missing rows and errors,
 * and the generic lookups the routes' SELECT statements perform.
 *
 * Timestamps are whole seconds; a day is 86400 of them.
 */
module Tables {

  datatype Option<T> = None | Some(value: T)

  datatype Result<T, E> = Ok(value: T) | Err(error: E)

  /** Length of one day in timestamp units (seconds). */
  const Day: int := 86400

  /**
   * A salted password hash. The hash is modelled as an ideal one: checking a
   * candidate password against it succeeds exactly for the password it was
   * generated from, whatever the salt.
   */
  datatype PasswordHash = PasswordHash(salt: nat, secret: string)

  function GeneratePasswordHash(password: string, salt: nat): (h: PasswordHash)
    ensures forall candidate :: CheckPasswordHash(h, candidate) <==> candidate == password
  {
    PasswordHash(salt, password)
  }

  /** `check_password_hash`: the candidate, hashed with the stored salt, gives the stored hash. */
  function CheckPasswordHash(h: PasswordHash, password: string): (ok: bool)
    ensures ok <==> h == PasswordHash(h.salt, password)
  {
    h.secret == password
  }

  /** A row of `user`; `is_subscribed` (stored as 1/0) is a bool here. */
  datatype UserRow = UserRow(
    id: int,
    email: string,
    passwordHash: PasswordHash,
    fullName: string,
    isSubscribed: bool,
    subscriptionPlan: Option<string>,
    subscriptionStart: Option<int>,
    subscriptionEnd: Option<int>)

  datatype TestRow = TestRow(id: int, title: string, description: string)

  datatype QuestionRow = QuestionRow(id: int, testId: int, prompt: string)

  /** A row of `choice`; `is_correct` (stored as 1/0) is a bool here. */
  datatype ChoiceRow = ChoiceRow(id: int, questionId: int, labelText: string, isCorrect: bool)

  /** A row of `result`: one scored attempt. */
  datatype ResultRow = ResultRow(id: int, userId: int, testId: int, score: int, totalQuestions: int, takenAt: int)

  /** A row of `answer`; `selectedChoiceId` is NULL for an unanswered question. */
  datatype AnswerRow = AnswerRow(id: int, resultId: int, questionId: int, selectedChoiceId: Option<int>)

  /** `SELECT ... WHERE <p> ... fetchone()`: the first row, in table order, satisfying `p`. */
  function FirstWhere<T(==,!new)>(rows: seq<T>, p: T -> bool): (r: Option<T>)
    ensures r.Some? ==> r.value in rows && p(r.value)
    ensures r.None? <==> forall x :: x in rows ==> !p(x)
    ensures r.Some? ==> exists i :: 0 <= i < |rows| && rows[i] == r.value && forall j :: 0 <= j < i ==> !p(rows[j])
  {
    if rows == [] then None
    else if p(rows[0]) then
      assert 0 < |rows| && rows[0] == rows[0];
      Some(rows[0])
    else
      var r := FirstWhere(rows[1..], p);
      if r.Some? then
        var i :| 0 <= i < |rows[1..]| && rows[1..][i] == r.value && forall j :: 0 <= j < i ==> !p(rows[1..][j]);
        assert rows[i + 1] == r.value && forall j :: 0 <= j < i + 1 ==> !p(rows[j]);
        r
      else
        assert forall x :: x in rows ==> x == rows[0] || x in rows[1..];
        r
  }

  /**
   * `SELECT ... WHERE <p>` without ORDER BY on a table read in row order.
   * `WhereCounts` gives the multiplicity of each kept row; `WhereSingle`
   * and `WhereAppend` give the order, which is table order.
   */
  function Where<T(==,!new)>(rows: seq<T>, p: T -> bool): (r: seq<T>)
    ensures |r| <= |rows|
    ensures forall x :: x in r <==> x in rows && p(x)
  {
    if rows == [] then []
    else
      var rest := Where(rows[1..], p);
      assert forall x :: x in rows <==> x == rows[0] || x in rows[1..];
      if p(rows[0]) then [rows[0]] + rest else rest
  }

  /** Every row satisfying the condition is kept as often as the table holds it; every other row is dropped. */
  lemma {:induction false} WhereCounts<T(!new)>(rows: seq<T>, p: T -> bool)
    ensures forall x :: multiset(Where(rows, p))[x] == if p(x) then multiset(rows)[x] else 0
  {
    if rows != [] {
      WhereCounts(rows[1..], p);
      assert rows == [rows[0]] + rows[1..];
    }
  }

  /** A single row is kept exactly when it satisfies the condition. */
  lemma WhereSingle<T(!new)>(x: T, p: T -> bool)
    ensures Where([x], p) == if p(x) then [x] else []
  {
    assert [x][1..] == [];
  }

  /** Filtering a table that is two parts one after the other filters each part, keeping the parts' order. */
  lemma {:induction false} WhereAppend<T(!new)>(rows: seq<T>, extra: seq<T>, p: T -> bool)
    ensures Where(rows + extra, p) == Where(rows, p) + Where(extra, p)
  {
    if rows == [] {
      assert rows + extra == extra;
    } else {
      assert (rows + extra)[1..] == rows[1..] + extra;
      WhereAppend(rows[1..], extra, p);
    }
  }

  /** `SELECT * FROM user WHERE id = ?`: FirstWhere's contract says what it finds. */
  function UserById(users: seq<UserRow>, id: int): Option<UserRow>
  {
    FirstWhere(users, (u: UserRow) => u.id == id)
  }

  function TestById(tests: seq<TestRow>, id: int): (r: Option<TestRow>)
    ensures r.Some? ==> r.value in tests && r.value.id == id
    ensures r.None? <==> forall t :: t in tests ==> t.id != id
  {
    FirstWhere(tests, (t: TestRow) => t.id == id)
  }

  function ChoiceById(choices: seq<ChoiceRow>, id: int): (r: Option<ChoiceRow>)
    ensures r.Some? ==> r.value in choices && r.value.id == id
    ensures r.None? <==> forall c :: c in choices ==> c.id != id
  {
    FirstWhere(choices, (c: ChoiceRow) => c.id == id)
  }

  /** `SELECT * FROM question WHERE test_id = ? ORDER BY id`, for a table kept in id order. */
  function QuestionsOf(questions: seq<QuestionRow>, testId: int): (r: seq<QuestionRow>)
    ensures forall q :: q in r <==> q in questions && q.testId == testId
    ensures IdsIncreasing(questions) ==> IdsIncreasing(r)
  {
    var p := (q: QuestionRow) => q.testId == testId;
    WhereKeepsOrder(questions, p);
    Where(questions, p)
  }

  predicate IdsIncreasing(questions: seq<QuestionRow>)
  {
    forall i, j :: 0 <= i < j < |questions| ==> questions[i].id < questions[j].id
  }

  lemma {:induction false} WhereKeepsOrder(questions: seq<QuestionRow>, p: QuestionRow -> bool)
    ensures IdsIncreasing(questions) ==> IdsIncreasing(Where(questions, p))
  {
    if questions != [] && IdsIncreasing(questions) {
      WhereKeepsOrder(questions[1..], p);
      var rest := Where(questions[1..], p);
      forall x | x in rest ensures questions[0].id < x.id {
        var k :| 0 <= k < |questions[1..]| && questions[1..][k] == x;
        assert questions[k + 1] == x;
      }
    }
  }

  /** The labels of the choices of question `q` that are flagged correct, in table order. */
  function CorrectLabels(choices: seq<ChoiceRow>, q: int): (r: seq<string>)
    ensures |r| <= |choices|
  {
    if choices == [] then []
    else
      (if choices[0].questionId == q && choices[0].isCorrect then [choices[0].labelText] else [])
      + CorrectLabels(choices[1..], q)
  }

  /** Appending rows of other questions leaves a question's correct labels as they were. */
  lemma {:induction false} CorrectLabelsAppendOther(choices: seq<ChoiceRow>, extra: seq<ChoiceRow>, q: int)
    requires forall c :: c in extra ==> c.questionId != q
    ensures CorrectLabels(choices + extra, q) == CorrectLabels(choices, q)
  {
    if choices == [] {
      assert choices + extra == extra;
      CorrectLabelsOfOthers(extra, q);
    } else {
      assert (choices + extra)[1..] == choices[1..] + extra;
      CorrectLabelsAppendOther(choices[1..], extra, q);
    }
  }

  /** Appending rows to a table none of whose rows is of question `q` gives `q` the labels of the new rows. */
  lemma {:induction false} CorrectLabelsAppendNew(choices: seq<ChoiceRow>, extra: seq<ChoiceRow>, q: int)
    requires forall c :: c in choices ==> c.questionId != q
    ensures CorrectLabels(choices + extra, q) == CorrectLabels(extra, q)
  {
    if choices == [] {
      assert choices + extra == extra;
    } else {
      assert choices[0] in choices;
      assert forall c :: c in choices[1..] ==> c in choices;
      assert (choices + extra)[1..] == choices[1..] + extra;
      CorrectLabelsAppendNew(choices[1..], extra, q);
    }
  }

  lemma {:induction false} CorrectLabelsOfOthers(choices: seq<ChoiceRow>, q: int)
    requires forall c :: c in choices ==> c.questionId != q
    ensures CorrectLabels(choices, q) == []
  {
    if choices != [] {
      assert choices[0] in choices;
      assert forall c :: c in choices[1..] ==> c in choices;
      CorrectLabelsOfOthers(choices[1..], q);
    }
  }

  /** `UPDATE user SET ... WHERE id = ?`: `f` rewrites every row with that id; no other row changes. */
  function UpdateUser(users: seq<UserRow>, id: int, f: UserRow -> UserRow): (r: seq<UserRow>)
    ensures |r| == |users|
    ensures forall i :: 0 <= i < |users| ==> r[i] == if users[i].id == id then f(users[i]) else users[i]
  {
    if users == [] then []
    else [if users[0].id == id then f(users[0]) else users[0]] + UpdateUser(users[1..], id, f)
  }

  /** After an update, looking the user up by id finds the rewritten row. */
  lemma {:induction false} UserByIdAfterUpdate(users: seq<UserRow>, id: int, f: UserRow -> UserRow)
    requires UserById(users, id).Some?
    requires f(UserById(users, id).value).id == id
    ensures UserById(UpdateUser(users, id, f), id) == Some(f(UserById(users, id).value))
  {
    if users[0].id != id {
      assert UpdateUser(users, id, f)[1..] == UpdateUser(users[1..], id, f);
      UserByIdAfterUpdate(users[1..], id, f);
    }
  }

  /** Looking up any other id is not affected by an update that keeps ids. */
  lemma {:induction false} UserByIdOtherAfterUpdate(users: seq<UserRow>, id: int, other: int, f: UserRow -> UserRow)
    requires other != id
    requires forall u :: f(u).id == u.id
    ensures UserById(UpdateUser(users, id, f), other) == UserById(users, other)
  {
    if users != [] {
      assert UpdateUser(users, id, f)[1..] == UpdateUser(users[1..], id, f);
      UserByIdOtherAfterUpdate(users[1..], id, other, f);
    }
  }
}
