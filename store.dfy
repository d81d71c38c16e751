/**
 * The quiz store: the six tables as sequences of rows kept in id order, and
 * the route bodies of the web application as methods that read and update
 * them. Every table's ids are 1, 2, 3, ... in row order, which is what
 * AUTOINCREMENT gives a table that is only ever appended to.
 */
module Store {
  import opened Tables
  import opened Text
  import opened Accounts
  import opened Scoring
  import opened Views
  import opened Seeding

  datatype SubscribeOutcome =
    | LoginFirst
    | UnknownUser
    | Refused(error: SubscribeError)
    | Activated(user: UserRow)

  datatype TakeOutcome =
    | Denied(access: Access)
    | TestNotFound
    | Recorded(resultId: int)

  /** What the result page is rendered from. */
  datatype ResultView = ResultView(
    result: ResultRow,
    title: string,
    questions: seq<QuestionRow>,
    answers: map<int, AnswerView>,
    correctAnswers: map<int, seq<string>>)

  class Db {
    var users: seq<UserRow>
    var tests: seq<TestRow>
    var questions: seq<QuestionRow>
    var choices: seq<ChoiceRow>
    var results: seq<ResultRow>
    var answers: seq<AnswerRow>

    /**
     * Ids are 1..n in row order in every table, emails are unique, a set
     * subscription flag comes with an end date, every question, choice and
     * result refers to existing parent rows, and so does every answer, to
     * both its result and its question.
     */
    ghost predicate Valid()
      reads this
    {
      && UsersValid(users)
      && TestsValid(tests)
      && QuestionsValid(questions, |tests|)
      && ChoicesValid(choices, |questions|)
      && ResultsValid(results, |users|, |tests|)
      && AnswersValid(answers, |results|, |questions|)
    }

    /** A freshly created database: every table exists and is empty. */
    constructor ()
      ensures Valid()
      ensures users == [] && tests == [] && questions == [] && choices == [] && results == [] && answers == []
    {
      users, tests, questions, choices, results, answers := [], [], [], [], [], [];
    }

    /** `INSERT INTO test`: appends a test with the next id and returns that id. */
    method InsertTest(title: string, description: string) returns (id: int)
      requires Valid()
      modifies this
      ensures Valid()
      ensures id == |old(tests)| + 1 && tests == old(tests) + [TestRow(id, title, description)]
      ensures users == old(users) && questions == old(questions) && choices == old(choices)
      ensures results == old(results) && answers == old(answers)
    {
      id := |tests| + 1;
      tests := tests + [TestRow(id, title, description)];
    }

    /**
     * `insert_question`: appends the question with the next id and one
     * choice row per (label, correct) pair. The new question has as many
     * correct labels as pairs flagged correct; no other question's change.
     */
    method InsertQuestion(testId: int, prompt: string, specs: seq<(string, bool)>) returns (id: int)
      requires Valid() && 1 <= testId <= |tests|
      modifies this
      ensures Valid()
      ensures id == |old(questions)| + 1
      ensures questions == old(questions) + [QuestionRow(id, testId, prompt)]
      ensures choices == old(choices) + ChoiceRows(id, |old(choices)| + 1, specs)
      ensures |CorrectLabels(choices, id)| == CorrectCount(specs)
      ensures forall q :: q != id ==> CorrectLabels(choices, q) == CorrectLabels(old(choices), q)
      ensures users == old(users) && tests == old(tests) && results == old(results) && answers == old(answers)
    {
      id := |questions| + 1;
      questions := questions + [QuestionRow(id, testId, prompt)];
      assert QuestionsValid(questions, |tests|);
      assert ChoicesValid(choices, |questions|);
      assert AnswersValid(answers, |results|, |questions|);
      InsertChoices(id, specs);
    }

    /**
     * The choice rows of `insert_question`: one per (label, correct) pair,
     * with the next ids, for an existing question. That question gains as
     * many correct labels as pairs flagged correct; no other question's change.
     */
    method InsertChoices(questionId: int, specs: seq<(string, bool)>)
      requires Valid() && 1 <= questionId <= |questions|
      requires forall i :: 0 <= i < |choices| ==> choices[i].questionId != questionId
      modifies this
      ensures Valid()
      ensures choices == old(choices) + ChoiceRows(questionId, |old(choices)| + 1, specs)
      ensures |CorrectLabels(choices, questionId)| == CorrectCount(specs)
      ensures forall q :: q != questionId ==> CorrectLabels(choices, q) == CorrectLabels(old(choices), q)
      ensures users == old(users) && tests == old(tests) && questions == old(questions)
      ensures results == old(results) && answers == old(answers)
    {
      var added := ChoiceRows(questionId, |choices| + 1, specs);
      assert forall c :: c in choices ==> c.questionId != questionId;
      ChoiceRowsShape(questionId, |choices| + 1, specs);
      CorrectLabelsAppendNew(choices, added, questionId);
      ChoiceRowsCorrectLabels(questionId, |choices| + 1, specs);
      forall q | q != questionId ensures CorrectLabels(choices + added, q) == CorrectLabels(choices, q) {
        CorrectLabelsAppendOther(choices, added, q);
      }
      var grown := choices + added;
      forall i | 0 <= i < |grown| ensures grown[i].id == i + 1 && 1 <= grown[i].questionId <= |questions| {
        if i >= |choices| {
          assert grown[i] == added[i - |choices|];
        }
      }
      choices := grown;
    }

    /**
     * `seed_tests`: the two seeded tests and their four questions. Every
     * seeded question has exactly one correct choice.
     */
    method SeedTests()
      requires Valid()
      modifies this
      ensures Valid()
      ensures |tests| == |old(tests)| + |Seeding.SeedTests| && old(tests) <= tests
      ensures |questions| == |old(questions)| + |SeedQuestions| && old(questions) <= questions
      ensures forall id :: |old(questions)| < id <= |questions| ==> |CorrectLabels(choices, id)| == 1
      ensures users == old(users) && results == old(results) && answers == old(answers)
    {
      SeedQuestionsWellFormed();
      var first := InsertTest(Seeding.SeedTests[0].0, Seeding.SeedTests[0].1);
      var second := InsertTest(Seeding.SeedTests[1].0, Seeding.SeedTests[1].1);
      SeedQuestionPair(first, 0);
      SeedQuestionPair(second, 2);
    }

    /** The seeded questions `k` and `k + 1`, inserted for the test `testId`; each gets exactly one correct choice. */
    method SeedQuestionPair(testId: int, k: nat)
      requires Valid() && 1 <= testId <= |tests| && k + 1 < |SeedQuestions|
      modifies this
      ensures Valid()
      ensures |questions| == |old(questions)| + 2 && old(questions) <= questions
      ensures forall id :: |old(questions)| < id <= |questions| ==> |CorrectLabels(choices, id)| == 1
      ensures forall id :: id <= |old(questions)| ==> CorrectLabels(choices, id) == CorrectLabels(old(choices), id)
      ensures users == old(users) && tests == old(tests) && results == old(results) && answers == old(answers)
    {
      SeedQuestionsWellFormed();
      var a := InsertQuestion(testId, SeedQuestions[k].prompt, SeedQuestions[k].choices);
      ghost var la := CorrectLabels(choices, a);
      var b := InsertQuestion(testId, SeedQuestions[k + 1].prompt, SeedQuestions[k + 1].choices);
      assert CorrectLabels(choices, a) == la;
      forall id | |old(questions)| < id <= |questions| ensures |CorrectLabels(choices, id)| == 1 {
        assert id == a || id == b;
      }
    }

    /** `init_db`: seeds the catalog only when the test table is empty. */
    method InitDb()
      requires Valid()
      modifies this
      ensures Valid()
      ensures old(tests) != [] ==> tests == old(tests) && questions == old(questions) && choices == old(choices)
      ensures old(tests) == [] ==> (
        && |tests| == |Seeding.SeedTests| && |questions| == |SeedQuestions|
        && forall i :: 0 <= i < |questions| ==> |CorrectLabels(choices, questions[i].id)| == 1)
      ensures users == old(users) && results == old(results) && answers == old(answers)
    {
      if |tests| == 0 {
        ParentsExist(questions, |tests|);
        SeedTests();
      }
    }

    /**
     * The register route: inserts the row `Accounts.Register` describes and
     * returns its id, or reports why and inserts nothing.
     */
    method Register(rawEmail: string, password: string, rawFullName: string, salt: nat)
      returns (r: Result<int, RegisterError>)
      requires Valid()
      modifies this
      ensures Valid()
      ensures var row := Accounts.Register(old(users), rawEmail, password, rawFullName, salt);
        && (row.Ok? ==> r == Ok(row.value.id) && users == old(users) + [row.value])
        && (row.Err? ==> r == Err(row.error) && users == old(users))
      ensures tests == old(tests) && questions == old(questions) && choices == old(choices)
      ensures results == old(results) && answers == old(answers)
    {
      var row := Accounts.Register(users, rawEmail, password, rawFullName, salt);
      match row
      case Err(e) =>
        r := Err(e);
      case Ok(u) =>
        RegisterKeepsEmailsUnique(users, rawEmail, password, rawFullName, salt);
        users := users + [u];
        r := Ok(u.id);
    }

    /**
     * The login route: the new session holds the id of the user with the
     * normalised email when the password checks against its hash; otherwise
     * the session is left as it was.
     */
    method Login(session: Option<int>, rawEmail: string, password: string) returns (s: Option<int>)
      requires UniqueEmails(users)
      ensures forall u :: u in users && u.email == NormalizeEmail(rawEmail) ==>
        s == (if CheckPasswordHash(u.passwordHash, password) then Some(u.id) else session)
      ensures !EmailTaken(users, NormalizeEmail(rawEmail)) ==> s == session
    {
      s := Accounts.Login(session, users, rawEmail, password);
      forall u | u in users && u.email == NormalizeEmail(rawEmail)
        ensures s == (if CheckPasswordHash(u.passwordHash, password) then Some(u.id) else session)
      {
        LoginSucceedsIff(users, rawEmail, password, u);
      }
    }

    /**
     * `subscription_required`: decides access and, for an expired
     * subscription, clears that user's flag. No other row changes.
     */
    method SubscriptionGate(session: Option<int>, now: int) returns (a: Access)
      requires Valid()
      modifies this
      ensures Valid()
      ensures a == SubscriptionAccess(session, old(users), now)
      ensures users == AfterAccess(a, old(users))
      ensures tests == old(tests) && questions == old(questions) && choices == old(choices)
      ensures results == old(results) && answers == old(answers)
    {
      a := SubscriptionAccess(session, users, now);
      if a.Expired? {
        UpdateKeepsUsersValid(users, a.user.id, ClearFlag);
        users := UpdateUser(users, a.user.id, ClearFlag);
        assert UsersValid(users) && TestsValid(tests) && QuestionsValid(questions, |tests|);
        assert ChoicesValid(choices, |questions|) && ResultsValid(results, |users|, |tests|) && AnswersValid(answers, |results|, |questions|);
      }
    }

    /**
     * The subscribe route (behind `login_required`): refused while the
     * stored flag is set or for an unknown plan; otherwise the user's row is
     * rewritten as `Accounts.Subscribe` says. No other row changes.
     */
    method Subscribe(session: Option<int>, plan: Option<string>, now: int) returns (o: SubscribeOutcome)
      requires Valid()
      modifies this
      ensures Valid()
      ensures !LoggedIn(session) ==> o == LoginFirst && users == old(users)
      ensures LoggedIn(session) && UserById(old(users), session.value).None? ==> o == UnknownUser && users == old(users)
      ensures LoggedIn(session) && UserById(old(users), session.value).Some? ==>
        var r := Accounts.Subscribe(UserById(old(users), session.value).value, plan, now);
        && (r.Err? ==> o == Refused(r.error) && users == old(users))
        && (r.Ok? ==> (
              && o == Activated(r.value) && |users| == |old(users)|
              && forall i :: 0 <= i < |users| ==>
                   (users[i] == if old(users)[i].id == session.value then r.value else old(users)[i])))
      ensures tests == old(tests) && questions == old(questions) && choices == old(choices)
      ensures results == old(results) && answers == old(answers)
    {
      if !LoggedIn(session) {
        return LoginFirst;
      }
      var current := UserById(users, session.value);
      if current.None? {
        return UnknownUser;
      }
      var r := Accounts.Subscribe(current.value, plan, now);
      match r
      case Err(e) =>
        o := Refused(e);
      case Ok(v) =>
        Activate(session.value, v);
        o := Activated(v);
    }

    /** The UPDATE of an accepted subscription: every row with id `id` becomes `v`, which keeps that row's id and email. */
    method Activate(id: int, v: UserRow)
      requires Valid()
      requires forall i :: 0 <= i < |users| && users[i].id == id ==> v.id == id && v.email == users[i].email
      requires v.isSubscribed ==> v.subscriptionEnd.Some?
      modifies this
      ensures Valid()
      ensures |users| == |old(users)|
      ensures forall i :: 0 <= i < |users| ==> users[i] == if old(users)[i].id == id then v else old(users)[i]
      ensures tests == old(tests) && questions == old(questions) && choices == old(choices)
      ensures results == old(results) && answers == old(answers)
    {
      UpdateKeepsUsersValid(users, id, SetRow(v));
      users := UpdateUser(users, id, SetRow(v));
      assert UsersValid(users) && TestsValid(tests) && QuestionsValid(questions, |tests|);
      assert ChoicesValid(choices, |questions|) && ResultsValid(results, |users|, |tests|) && AnswersValid(answers, |results|, |questions|);
    }

    /**
     * The POST branch of take_test once the gate has let `userId` through:
     * an unknown test changes nothing; otherwise one result row with a fresh
     * id and one answer row per question of the test are appended, and the
     * new result's id is returned.
     */
    method SubmitTest(userId: int, testId: int, form: Form, now: int) returns (r: Option<int>)
      requires Valid() && 1 <= userId <= |users|
      modifies this
      ensures Valid()
      ensures TestById(old(tests), testId).None? ==> r.None? && results == old(results) && answers == old(answers)
      ensures TestById(old(tests), testId).Some? ==>
        var qs := QuestionsOf(old(questions), testId);
        var id := |old(results)| + 1;
        && r == Some(id)
        && results == old(results) + [ScoredResult(id, userId, testId, qs, old(choices), form, now)]
        && answers == old(answers) + SubmittedAnswers(id, |old(answers)| + 1, qs, form)
      ensures users == old(users) && tests == old(tests) && questions == old(questions) && choices == old(choices)
    {
      if TestById(tests, testId).None? {
        return None;
      }
      TestFoundInRange(tests, testId);
      var qs := QuestionsOf(questions, testId);
      QuestionIdsInRange(questions, testId);
      var id := RecordSubmission(userId, testId, qs, form, now);
      r := Some(id);
    }

    /**
     * The two inserts of a submission by an existing user for an existing
     * test: the scored result row, then one answer row per question.
     */
    method RecordSubmission(userId: int, testId: int, qs: seq<QuestionRow>, form: Form, now: int) returns (id: int)
      requires Valid() && 1 <= userId <= |users| && 1 <= testId <= |tests|
      requires forall i :: 0 <= i < |qs| ==> 1 <= qs[i].id <= |questions|
      modifies this
      ensures Valid()
      ensures id == |old(results)| + 1
      ensures results == old(results) + [ScoredResult(id, userId, testId, qs, choices, form, now)]
      ensures answers == old(answers) + SubmittedAnswers(id, |old(answers)| + 1, qs, form)
      ensures users == old(users) && tests == old(tests) && questions == old(questions) && choices == old(choices)
    {
      var score, total, userAnswers := ScoreSubmission(qs, choices, form);
      id := |results| + 1;
      var row := ResultRow(id, userId, testId, score, total, now);
      var added := AnswerRows(id, |answers| + 1, userAnswers);
      AppendKeepsAnswersValid(answers, |results|, |questions|, userAnswers);
      AppendKeepsResultsValid(results, |users|, |tests|, userId, testId, score, total, now);
      results := results + [row];
      answers := answers + added;
      assert ResultsValid(results, |users|, |tests|) && AnswersValid(answers, |results|, |questions|);
      assert UsersValid(users) && TestsValid(tests) && QuestionsValid(questions, |tests|) && ChoicesValid(choices, |questions|);
    }

    /** The take_test route for a submission: the subscription gate, then the submission. */
    method TakeTest(session: Option<int>, testId: int, form: Form, now: int) returns (o: TakeOutcome)
      requires Valid()
      modifies this
      ensures Valid()
      ensures var a := SubscriptionAccess(session, old(users), now);
        && users == AfterAccess(a, old(users))
        && (!a.Granted? ==> o == Denied(a) && results == old(results) && answers == old(answers))
        && (a.Granted? && TestById(old(tests), testId).None? ==>
              o == TestNotFound && results == old(results) && answers == old(answers))
        && (a.Granted? && TestById(old(tests), testId).Some? ==>
              var qs := QuestionsOf(old(questions), testId);
              var id := |old(results)| + 1;
              && o == Recorded(id)
              && results == old(results) + [ScoredResult(id, a.user.id, testId, qs, old(choices), form, now)]
              && answers == old(answers) + SubmittedAnswers(id, |old(answers)| + 1, qs, form))
      ensures tests == old(tests) && questions == old(questions) && choices == old(choices)
    {
      var a := SubscriptionGate(session, now);
      if !a.Granted? {
        return Denied(a);
      }
      assert users == old(users) && results == old(results) && answers == old(answers);
      assert tests == old(tests) && questions == old(questions) && choices == old(choices);
      RowIdInRange(users, a.user);
      var r := SubmitTest(a.user.id, testId, form, now);
      o := if r.Some? then Recorded(r.value) else TestNotFound;
    }

    /**
     * view_result once the gate has let `userId` through: "not found" unless
     * the three-way match succeeds; otherwise the result, the test's
     * questions, the result's answers by question, and for each question of
     * the test the labels of its correct choices.
     */
    method ViewResult(userId: int, testId: int, resultId: int) returns (v: Option<ResultView>)
      ensures v.None? <==> FindResult(results, tests, resultId, userId, testId).None?
      ensures v.Some? ==> (
        && (v.value.result, v.value.title) == FindResult(results, tests, resultId, userId, testId).value
        && v.value.questions == QuestionsOf(questions, testId)
        && v.value.answers == ByQuestion(AnswerViews(answers, choices, resultId))
        && (forall q :: q in v.value.questions ==>
              && (q.id in v.value.correctAnswers <==> CorrectLabels(choices, q.id) != [])
              && (q.id in v.value.correctAnswers ==> v.value.correctAnswers[q.id] == CorrectLabels(choices, q.id)))
        && (forall k :: k in v.value.correctAnswers ==> exists q :: q in v.value.questions && q.id == k))
    {
      var found := FindResult(results, tests, resultId, userId, testId);
      if found.None? {
        return None;
      }
      var qs := QuestionsOf(questions, testId);
      var byQuestion := ByQuestion(AnswerViews(answers, choices, resultId));
      var ids := set q | q in qs :: q.id;
      var rows := CorrectChoiceRows(choices, ids);
      var correct := GroupLabels(rows);
      forall q | q in qs
        ensures LabelsFor(rows, q.id) == CorrectLabels(choices, q.id)
        ensures LabelsFor(rows, q.id) != [] <==> exists i :: 0 <= i < |rows| && rows[i].0 == q.id
      {
        CorrectRowsPerQuestion(choices, ids, q.id);
        LabelsForNonEmpty(rows, q.id);
      }
      v := Some(ResultView(found.value.0, found.value.1, qs, byQuestion, correct));
    }

    /** The view_result route: the subscription gate, then the result view for the session's user. */
    method ViewResultRoute(session: Option<int>, testId: int, resultId: int, now: int)
      returns (a: Access, v: Option<ResultView>)
      requires Valid()
      modifies this
      ensures Valid()
      ensures a == SubscriptionAccess(session, old(users), now)
      ensures users == AfterAccess(a, old(users))
      ensures !a.Granted? ==> v.None?
      ensures a.Granted? ==> (v.None? <==> FindResult(results, tests, resultId, a.user.id, testId).None?)
      ensures v.Some? ==> (
        && v.value.result.userId == a.user.id && v.value.result.id == resultId
        && v.value.result.testId == testId)
      ensures tests == old(tests) && questions == old(questions) && choices == old(choices)
      ensures results == old(results) && answers == old(answers)
    {
      a := SubscriptionGate(session, now);
      if !a.Granted? {
        return a, None;
      }
      v := ViewResult(a.user.id, testId, resultId);
    }

    /**
     * The dashboard route (behind `login_required`): the session user's
     * latest results, copied row by row into the list the page shows. None
     * without a session, and None for a session whose user row is gone,
     * where the route fails on indexing the missing user.
     */
    method Dashboard(session: Option<int>) returns (recent: Option<seq<RecentRow>>)
      ensures !LoggedIn(session) ==> recent.None?
      ensures recent.None? <==> !LoggedIn(session) || UserById(users, session.value).None?
      ensures recent.Some? ==> recent.value == RecentResults(results, tests, session.value)
    {
      if !LoggedIn(session) || UserById(users, session.value).None? {
        return None;
      }
      var rows := RecentResults(results, tests, session.value);
      var list := CopyRows(rows);
      recent := Some(list);
    }
  }

  /** The dashboard's loop over the fetched rows: each row is appended, in order, to the list the page shows. */
  method CopyRows(rows: seq<RecentRow>) returns (list: seq<RecentRow>)
    ensures list == rows
  {
    list := [];
    var i := 0;
    while i < |rows|
      invariant 0 <= i <= |rows|
      invariant list == rows[..i]
    {
      assert rows[..i + 1] == rows[..i] + [rows[i]];
      list := list + [rows[i]];
      i := i + 1;
    }
    assert rows[..i] == rows;
  }

  /** The result row recorded for a submission: the score over `qs` and the number of questions asked. */
  function ScoredResult(id: int, userId: int, testId: int, qs: seq<QuestionRow>, choices: seq<ChoiceRow>,
                        form: Form, now: int): ResultRow
  {
    ResultRow(id, userId, testId, Score(qs, choices, form), |qs|, now)
  }

  /** The recorded result row belongs to the user and test, and scores the credited questions out of all of them. */
  lemma ScoredResultShape(id: int, userId: int, testId: int, qs: seq<QuestionRow>, choices: seq<ChoiceRow>,
                          form: Form, now: int)
    ensures var r := ScoredResult(id, userId, testId, qs, choices, form, now);
      && r.id == id && r.userId == userId && r.testId == testId && r.takenAt == now
      && r.totalQuestions == |qs| && 0 <= r.score <= r.totalQuestions
      && r.score == |Where(qs, (q: QuestionRow) => Credited(q, choices, form))|
  {
    ScoreCountsCredited(qs, choices, form);
  }

  /** The answer rows recorded for a submission: one per question of `qs`, in order, with the id submitted for it. */
  function SubmittedAnswers(resultId: int, firstId: int, qs: seq<QuestionRow>, form: Form): seq<AnswerRow>
  {
    AnswerRows(resultId, firstId, Selections(qs, form))
  }

  /** One answer row per question, in question order, with consecutive ids, the result's id and the submitted id or NULL. */
  lemma SubmittedAnswersShape(resultId: int, firstId: int, qs: seq<QuestionRow>, form: Form)
    ensures var r := SubmittedAnswers(resultId, firstId, qs, form);
      && |r| == |qs|
      && (forall i :: 0 <= i < |r| ==> r[i].id == firstId + i && r[i].resultId == resultId)
      && (forall i :: 0 <= i < |r| ==> r[i].questionId == qs[i].id && r[i].selectedChoiceId == Submitted(form, qs[i]))
  {
  }

  /** The user table's ids are 1..n in row order, its emails are unique, and a set flag has an end date. */
  ghost predicate UsersValid(users: seq<UserRow>)
  {
    && (forall i :: 0 <= i < |users| ==> users[i].id == i + 1)
    && UniqueEmails(users)
    && (forall i :: 0 <= i < |users| && users[i].isSubscribed ==> users[i].subscriptionEnd.Some?)
  }

  /** The test table's ids are 1..n in row order. */
  ghost predicate TestsValid(tests: seq<TestRow>)
  {
    forall i :: 0 <= i < |tests| ==> tests[i].id == i + 1
  }

  /** The question table's ids are 1..n in row order and each question belongs to one of `testCount` tests. */
  ghost predicate QuestionsValid(questions: seq<QuestionRow>, testCount: int)
  {
    && (forall i :: 0 <= i < |questions| ==> questions[i].id == i + 1)
    && (forall i :: 0 <= i < |questions| ==> 1 <= questions[i].testId <= testCount)
  }

  /** The choice table's ids are 1..n in row order and each choice belongs to one of `questionCount` questions. */
  ghost predicate ChoicesValid(choices: seq<ChoiceRow>, questionCount: int)
  {
    && (forall i :: 0 <= i < |choices| ==> choices[i].id == i + 1)
    && (forall i :: 0 <= i < |choices| ==> 1 <= choices[i].questionId <= questionCount)
  }

  /** The result table's ids are 1..n in row order and each result is of one of the users, for one of the tests. */
  ghost predicate ResultsValid(results: seq<ResultRow>, userCount: int, testCount: int)
  {
    && (forall i :: 0 <= i < |results| ==> results[i].id == i + 1)
    && (forall i :: 0 <= i < |results| ==> 1 <= results[i].userId <= userCount && 1 <= results[i].testId <= testCount)
  }

  /** Appending a result row with the next id, an existing user and an existing test keeps the result table valid. */
  lemma AppendKeepsResultsValid(results: seq<ResultRow>, userCount: int, testCount: int,
                                userId: int, testId: int, score: int, total: int, now: int)
    requires ResultsValid(results, userCount, testCount)
    requires 1 <= userId <= userCount && 1 <= testId <= testCount
    ensures ResultsValid(results + [ResultRow(|results| + 1, userId, testId, score, total, now)], userCount, testCount)
  {
  }

  /**
   * The answer table's ids are 1..n in row order and each answer belongs to
   * one of `resultCount` results and names one of `questionCount` questions.
   */
  ghost predicate AnswersValid(answers: seq<AnswerRow>, resultCount: int, questionCount: int)
  {
    && (forall i :: 0 <= i < |answers| ==> answers[i].id == i + 1)
    && (forall i :: 0 <= i < |answers| ==> 1 <= answers[i].resultId <= resultCount)
    && (forall i :: 0 <= i < |answers| ==> 1 <= answers[i].questionId <= questionCount)
  }

  /** A table of questions that all point into a test table of `n` rows is empty when `n` is 0. */
  lemma ParentsExist(questions: seq<QuestionRow>, n: int)
    requires forall q :: q in questions ==> 1 <= q.testId <= n
    ensures questions != [] ==> n >= 1
  {
    if questions != [] {
      assert questions[0] in questions;
    }
  }

  /**
   * Rewriting one user's row without touching its id or email, and without
   * setting the flag without an end date, keeps the user table valid.
   */
  lemma UpdateKeepsUsersValid(users: seq<UserRow>, id: int, f: UserRow -> UserRow)
    requires UsersValid(users)
    requires forall i :: 0 <= i < |users| && users[i].id == id ==>
      && f(users[i]).id == users[i].id && f(users[i]).email == users[i].email
      && (f(users[i]).isSubscribed ==> f(users[i]).subscriptionEnd.Some?)
    ensures UsersValid(UpdateUser(users, id, f))
  {
    var r := UpdateUser(users, id, f);
    assert forall i :: 0 <= i < |r| ==> r[i].id == users[i].id && r[i].email == users[i].email;
  }

  /** The gate grants only a user whose subscription has an end date that has not passed. */
  lemma GrantedHasEnd(session: Option<int>, users: seq<UserRow>, now: int)
    requires UsersValid(users)
    requires SubscriptionAccess(session, users, now).Granted?
    ensures var u := SubscriptionAccess(session, users, now).user;
      u.subscriptionEnd.Some? && now <= u.subscriptionEnd.value
  {
    var u := SubscriptionAccess(session, users, now).user;
    assert u in users;
    var i :| 0 <= i < |users| && users[i] == u;
  }

  /** In a table with ids 1..n in order, a row's id is between 1 and n. */
  lemma RowIdInRange(users: seq<UserRow>, u: UserRow)
    requires forall i :: 0 <= i < |users| ==> users[i].id == i + 1
    requires u in users
    ensures 1 <= u.id <= |users|
  {
  }

  /** In a table with ids 1..n in order, a test is found exactly by an id between 1 and n. */
  lemma TestFoundInRange(tests: seq<TestRow>, id: int)
    requires TestsValid(tests)
    ensures TestById(tests, id).Some? ==> 1 <= id <= |tests|
  {
  }

  /** The questions of a test, taken from a table with ids 1..n, have ids between 1 and n. */
  lemma QuestionIdsInRange(questions: seq<QuestionRow>, testId: int)
    requires forall i :: 0 <= i < |questions| ==> questions[i].id == i + 1
    ensures var qs := QuestionsOf(questions, testId);
      forall i :: 0 <= i < |qs| ==> 1 <= qs[i].id <= |questions|
  {
    var qs := QuestionsOf(questions, testId);
    forall i | 0 <= i < |qs| ensures 1 <= qs[i].id <= |questions| {
      assert qs[i] in questions;
    }
  }

  /**
   * Appending the answer rows of a new result, each naming an existing
   * question, keeps the answer table valid for one more result.
   */
  lemma AppendKeepsAnswersValid(answers: seq<AnswerRow>, resultCount: nat, questionCount: int, selections: seq<Selection>)
    requires AnswersValid(answers, resultCount, questionCount)
    requires forall i :: 0 <= i < |selections| ==> 1 <= selections[i].0 <= questionCount
    ensures AnswersValid(answers + AnswerRows(resultCount + 1, |answers| + 1, selections), resultCount + 1, questionCount)
  {
    var added := AnswerRows(resultCount + 1, |answers| + 1, selections);
    var t := answers + added;
    forall i | 0 <= i < |t|
      ensures t[i].id == i + 1 && 1 <= t[i].resultId <= resultCount + 1 && 1 <= t[i].questionId <= questionCount
    {
      if i >= |answers| {
        assert t[i] == added[i - |answers|];
      }
    }
  }

  /**
   * The views of a freshly recorded result: exactly its own answer rows,
   * one per question in question order, each showing the id as submitted.
   */
  lemma {:induction false} NewResultViews(answers: seq<AnswerRow>, resultCount: nat, choices: seq<ChoiceRow>,
                       qs: seq<QuestionRow>, form: Form, firstId: int)
    requires forall a :: a in answers ==> a.resultId <= resultCount
    ensures var views := AnswerViews(answers + AnswerRows(resultCount + 1, firstId, Selections(qs, form)),
                                     choices, resultCount + 1);
      && |views| == |qs|
      && forall i :: 0 <= i < |qs| ==> views[i].questionId == qs[i].id && views[i].selectedChoiceId == Submitted(form, qs[i])
  {
    var rid := resultCount + 1;
    var sel := Selections(qs, form);
    var added := AnswerRows(rid, firstId, sel);
    AnswerViewsAppend(answers, added, choices, rid);
    AnswerViewsOfOthers(answers, choices, rid);
    AnswerViewsOfOwn(added, choices, rid);
    var own := AnswerViews(added, choices, rid);
    assert AnswerViews(answers + added, choices, rid) == own;
    forall i | 0 <= i < |qs|
      ensures own[i].questionId == qs[i].id && own[i].selectedChoiceId == Submitted(form, qs[i])
    {
      assert own[i] == JoinChoice(added[i], choices);
      assert added[i].questionId == sel[i].0 && added[i].selectedChoiceId == sel[i].1;
    }
  }

  /**
   * Keying views that follow questions with increasing ids by question id
   * keeps one entry per question, the view made for it, and nothing else.
   */
  lemma {:induction false} ByQuestionOfQuestions(views: seq<AnswerView>, qs: seq<QuestionRow>, form: Form)
    requires IdsIncreasing(qs) && |views| == |qs|
    requires forall i :: 0 <= i < |qs| ==> views[i].questionId == qs[i].id && views[i].selectedChoiceId == Submitted(form, qs[i])
    ensures var m := ByQuestion(views);
      && (forall q :: q in qs ==> q.id in m && m[q.id].selectedChoiceId == Submitted(form, q))
      && (forall k :: k in m ==> exists q :: q in qs && q.id == k)
  {
    var m := ByQuestion(views);
    forall q | q in qs ensures q.id in m && m[q.id].selectedChoiceId == Submitted(form, q) {
      var i :| 0 <= i < |qs| && qs[i] == q;
      assert views[i].questionId == q.id;
      assert forall k :: 0 <= k < |qs| && k != i ==> qs[k].id != q.id;
      var j :| 0 <= j < |views| && views[j] == m[q.id] && m[q.id].questionId == q.id
        && forall k :: j < k < |views| ==> views[k].questionId != q.id;
      assert j == i;
    }
    forall k | k in m ensures exists q :: q in qs && q.id == k {
      var i :| 0 <= i < |views| && views[i].questionId == k;
      assert qs[i] in qs;
    }
  }

  /**
   * Submitting and then viewing: the answers the view shows for the new
   * result are exactly the ones submitted, one per question of the test,
   * and older answer rows do not leak into it.
   */
  lemma {:induction false} SubmittedAnswersReadBack(answers: seq<AnswerRow>, resultCount: nat, choices: seq<ChoiceRow>,
                                 qs: seq<QuestionRow>, form: Form, firstId: int)
    requires forall a :: a in answers ==> a.resultId <= resultCount
    requires IdsIncreasing(qs)
    ensures var m := ByQuestion(AnswerViews(answers + AnswerRows(resultCount + 1, firstId, Selections(qs, form)),
                                            choices, resultCount + 1));
      && (forall q :: q in qs ==> q.id in m && m[q.id].selectedChoiceId == Submitted(form, q))
      && (forall k :: k in m ==> exists q :: q in qs && q.id == k)
  {
    NewResultViews(answers, resultCount, choices, qs, form, firstId);
    var views := AnswerViews(answers + AnswerRows(resultCount + 1, firstId, Selections(qs, form)), choices, resultCount + 1);
    ByQuestionOfQuestions(views, qs, form);
  }
}
