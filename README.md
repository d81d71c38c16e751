# Quiz platform store — a Dafny model

This project models the data core of a small Flask quiz platform (`app.py`).
The platform has:

- users who register, log in and buy a monthly ("mensual", 30 days) or yearly
  ("anual", 365 days) subscription;
- a seeded catalog of tests, questions and choices;
- an append-only record of submitted tests (`result`) and their answers
  (`answer`).

The sqlite database becomes the class `Store.Db`. Its six tables are sequences
of rows, and the route bodies are its methods:

- register and login;
- the `subscription_required` gate, which clears an expired user's flag
  when it sees them;
- subscribe;
- the scoring and recording of a submitted test;
- the result page;
- the dashboard's latest five results;
- `init_db` / `seed_tests` / `insert_question`.

Each table's ids are 1, 2, 3, … in row order. That is what AUTOINCREMENT gives
a table that is never deleted from, and `Db.Valid()` keeps it as an invariant,
together with unique emails and a set subscription flag always coming with an
end date. Every question, choice and result, and every answer, refers to parent
rows that exist: an answer to both its result and its question.

The logic below the routes is written as pure functions with lemmas:

| Module | What it holds |
|---|---|
| `Tables` | Rows, the `fetchone`/`WHERE` lookups and the row UPDATE |
| `Text` | Python's `strip()` and `lower()` |
| `Accounts` | Validation, registration, login, the gate and subscription rules |
| `Scoring` | The take_test scoring loop and the specification it meets |
| `Views` | The result page queries, the `correct_by_question` loop and the dashboard query |
| `Seeding` | The shape of the seeded catalog |

Scoring follows the code, not the obvious intent:

- The submitted choice id is looked up in the whole choice table. A correct
  choice of another question, or of another test, therefore earns the point
  (`Scoring.ForeignCorrectChoiceEarnsPoint`).
- The id is stored as sent even when no choice has it
  (`Scoring.UnknownChoiceRecordedAsSent`).

Clocks, the password salt and the session are parameters: `now` is an integer
number of seconds, and `Day` is 86400.

## Model

| member | source | states |
|---|---|---|
| Text.Strip | app.py:248-250 | Result is the input with a whitespace-only prefix and a whitespace-only suffix cut off; it is empty iff the input is all whitespace, and otherwise it starts and ends with a non-whitespace character |
| Text.StripIdempotent | app.py:248-250 | Stripping twice is stripping once |
| Text.Lower | app.py:248 | Result has the input's length; each character is lowered |
| Text.LowerIdempotent | app.py:248 | Lowering twice is lowering once |
| Text.NormalizeEmail | app.py:248 | `email.strip().lower()`: no longer than the input, empty iff the input is all whitespace, otherwise starting and ending with a non-whitespace character, and holding no upper-case ASCII letter |
| Text.NormalizeEmailIdempotent | app.py:248 | A normalised email normalises to itself, so a stored email matches its own login |
| Text.NormalizeEmailIgnoresCase | app.py:282 | Two emails that lower alike normalise alike, so login ignores letter case |
| Tables.GeneratePasswordHash | app.py:265 | The stored hash checks exactly the registered password and no other |
| Tables.CheckPasswordHash | app.py:288 | The check accepts a candidate iff hashing it with the stored salt gives the stored hash |
| Tables.FirstWhere | app.py:285 | `fetchone`: the first row satisfying the condition, or none iff no row does |
| Tables.Where | app.py:394-396 | The filtered rows: exactly those satisfying the condition, no more of them than the table holds |
| Tables.WhereCounts | app.py:394-396 | Each row satisfying the condition is kept as many times as the table holds it; every other row is dropped |
| Tables.WhereSingle | app.py:394-396 | A single row is kept iff it satisfies the condition |
| Tables.WhereAppend | app.py:394-396 | Filtering appended tables is filtering each part and appending, so kept rows stay in table order |
| Tables.UserById | app.py:237 | `get_current_user`'s `SELECT * FROM user WHERE id = ?`: `FirstWhere` on the id, so the first row with that id, or none iff no row has it |
| Tables.TestById | app.py:389 | `SELECT * FROM test WHERE id = ?`: a found row is in the table and has that id; none is found iff no row has it |
| Tables.ChoiceById | app.py:412-415 | `SELECT id, is_correct FROM choice WHERE id = ?`: a found row is in the table and has that id; none is found iff no row has it. The lookup does not restrict the question |
| Tables.QuestionsOf | app.py:394-396 | The test's questions are exactly the questions with that test id, and stay in increasing id order |
| Tables.CorrectLabels | app.py:175-182 | The labels of a question's choices flagged correct, in table order; never more of them than choices |
| Tables.CorrectLabelsAppendOther | app.py:175-182 | Adding choices of another question leaves a question's correct labels unchanged |
| Tables.CorrectLabelsAppendNew | app.py:175-182 | Adding choices of a new question gives it exactly the added choices' correct labels |
| Tables.CorrectLabelsOfOthers | app.py:175-182 | A question none of whose choices is in the table has no correct labels |
| Tables.UpdateUser | app.py:216-218 | `UPDATE user … WHERE id = ?`: rows with that id are rewritten; every other row is unchanged |
| Tables.UserByIdAfterUpdate | app.py:216-218 | After rewriting a user's row without changing its id, looking that id up finds the rewritten row |
| Tables.UserByIdOtherAfterUpdate | app.py:216-218 | Rewriting one user's row does not change what any other id looks up |
| Accounts.ValidationError | app.py:252-258 | An empty name, then an empty email, then a password shorter than 6: the first failing check is reported, and none iff all pass |
| Accounts.Register | app.py:248-272 | Validation errors come first, then "account exists" for a taken normalised email. Success yields the next id, the normalised email, the stripped name, a hash of exactly the password, no subscription |
| Accounts.EmailTaken | app.py:263-269 | The insert hits the UNIQUE constraint exactly when the `WHERE email = ?` lookup finds a row |
| Accounts.RegisterKeepsEmailsUnique | app.py:48-57 | A successful registration keeps the UNIQUE email constraint |
| Accounts.RegisterTwiceFails | app.py:263-269 | Registering again under an email that normalises alike is refused: with the validation error if the new form fails validation, otherwise with "account exists" |
| Accounts.Authenticate | app.py:282-289 | A login result names a user with the normalised email whose hash checks the password |
| Accounts.Login | app.py:287-293 | On success the session holds exactly the authenticated id; on failure it is unchanged |
| Accounts.LoginSucceedsIff | app.py:285-293 | With unique emails, login as the user with that email succeeds iff the password checks against that user's hash |
| Accounts.LoginUnknownEmailFails | app.py:285-289 | An email that no user has never logs in |
| Accounts.RegisterThenLogin | app.py:260-293 | A new account logs in with its password under any equivalent spelling of the email, and with no other password |
| Accounts.SubscriptionAccess | app.py:196-227 | No session or an unknown user must log in. An end in the past means expired, checked before the flag. Access is granted iff the flag is set and the end has not passed |
| Accounts.ClearFlag | app.py:216-219 | `SET is_subscribed = 0`: the flag is cleared and every other column is kept |
| Accounts.AfterAccess | app.py:215-218 | The gate clears the flag of the expired user only; any other decision leaves the table unchanged |
| Accounts.ExpiredStaysExpired | app.py:209-222 | Once expired, the same user is reported expired again at every later time, with the flag now cleared |
| Accounts.LoggedIn | app.py:185-192 | Definition of `login_required`'s test: the session holds a user id; the user is not looked up. `Store.Db.Subscribe` and `Store.Db.Dashboard` state their outcome when it fails, and `Accounts.GrantedIsLoggedIn` relates it to the subscription gate |
| Accounts.GrantedIsLoggedIn | app.py:185-200 | Whatever the subscription gate lets through, the login gate would also let through |
| Accounts.PlanDays | app.py:351-355 | Only "mensual" (30 days) and "anual" (365 days) are plans |
| Accounts.Subscribe | app.py:344-368 | Refused while the stored flag is set, then refused for any other plan. Otherwise it sets the flag, plan, start = now and end = now + the plan's days, keeping identity fields |
| Accounts.SubscriptionLength | app.py:353-366 | A monthly subscription lasts 30·86400 seconds, a yearly one 365·86400 |
| Accounts.StaleFlagBlocksRenewal | app.py:344-348 | A set flag refuses renewal even when the end has passed, since expiry is not re-checked there |
| Accounts.SubscribeThenAccess | app.py:198-227 | After subscribing, the gate grants access at every time up to the end and reports expiry after it |
| Accounts.ExpiredCanResubscribe | app.py:215-218 | After the gate clears an expired flag, the stored row is the cleared one and subscribing again succeeds |
| Scoring.Submitted | app.py:410 | Definition of `request.form.get` for one question: the form's entry for it, or none. `Store.SubmittedAnswersShape` states the recorded ids and `Store.SubmittedAnswersReadBack` the viewed ids in terms of it |
| Scoring.Credited | app.py:411-417 | A question earns the point iff an id was sent for it and the first choice row with that id is flagged correct, whichever question that choice belongs to |
| Scoring.Score | app.py:405-417 | The score never exceeds the number of questions |
| Scoring.Selections | app.py:409-420 | One pair per question in order: the question's id and the id as submitted, or none when unanswered |
| Scoring.ScoreSubmission | app.py:405-420 | The loop computes total = number of the test's questions, score = `Score` and the answer pairs = `Selections` |
| Scoring.AnswerRows | app.py:428-431 | One answer row per pair, in order, with consecutive ids, the result id and the pair's values |
| Scoring.ScoreCountsCredited | app.py:409-417 | The score is the number of questions whose submitted id names an existing correct choice |
| Scoring.ScoreFullIff | app.py:405-417 | Full marks iff every question is credited |
| Scoring.ScoreZeroIff | app.py:405-417 | Zero iff no question is credited |
| Scoring.ScoreIgnoresOtherEntries | app.py:409-410 | Form entries for other questions change neither the score nor the recorded answers |
| Scoring.EmptyFormScoresZero | app.py:419-420 | An empty form scores 0 and records every question as unanswered |
| Scoring.ChoiceByIdDense | app.py:412-415 | With ids 1..n, looking a choice's id up finds that choice |
| Scoring.AllCorrectScoresTotal | app.py:409-417 | Choosing a correct choice of each question earns full marks |
| Scoring.ForeignCorrectChoiceEarnsPoint | app.py:412-417 | For any question and any correct choice of a different question, in a choice table with ids 1..n, submitting that choice's id credits the question |
| Scoring.UnknownChoiceRecordedAsSent | app.py:412-418 | For any question list and form, a submitted id that no choice has earns nothing for its question, and its answer pair holds that id as sent |
| Views.FindResult | app.py:450-462 | The result is found iff a row matches id, owner and test at once and its test exists; the row and title returned are that match |
| Views.OnlyOwnerSeesResult | app.py:450-462 | With unique result ids, a result is shown only to its owner and only under its own test |
| Views.JoinChoice | app.py:469-474 | LEFT JOIN: label and correctness come from the choice the stored id names, or are empty when none does |
| Views.AnswerViews | app.py:469-478 | No more views than answer rows |
| Views.AnswerViewsAppend | app.py:469-478 | The answer query over appended rows is the query over each part, in order |
| Views.AnswerViewsOfOthers | app.py:475 | Answer rows of other results contribute nothing |
| Views.AnswerViewsOfOwn | app.py:469-478 | Rows of the result are each joined, in order |
| Views.ByQuestion | app.py:479 | Keys are exactly the answered question ids, and each maps to the last row for it |
| Views.ByQuestionStep | app.py:479 | One more row updates the map to the last row per question: keys and last-row property are kept |
| Views.CorrectChoiceRows | app.py:481-490 | Every row is for one of the given questions, and there are no more rows than choices |
| Views.LabelsForNonEmpty | app.py:491-493 | A question has labels iff some correct row is for it |
| Views.GroupLabels | app.py:491-493 | The `setdefault(…).append` loop: keys are the question ids present, each mapped to its labels in query order |
| Views.CorrectRowsPerQuestion | app.py:481-493 | For a question of the test, its group holds every correct label of that question, in table order |
| Views.UserResults | app.py:315-325 | Each row is one of the user's results, with its id, score, total and time |
| Views.UserResultsDistinct | app.py:315-325 | With unique result ids, no result appears twice in the join: its rows have pairwise distinct ids |
| Views.UserResultsExact | app.py:315-325 | A row is in the join iff it is `RecentRowOf` a result of the user whose test exists, with that test's title; how often each appears is given by `Views.UserResultsIsJoin` and `Views.UserResultsDistinct` |
| Views.UserResultsIsJoin | app.py:315-325 | The join is exactly the user's results whose test exists, filtered in table order, each turned into its row with the test's title: every such result appears once and nothing else appears |
| Views.NewestFirstOrder | app.py:322 | A newest-first permutation of the rows |
| Views.InsertNewestFirst | app.py:322 | Inserting into a newest-first list keeps it newest-first |
| Views.InsertPermutes | app.py:322 | Inserting adds exactly the element |
| Views.RecentResults | app.py:315-325 | At most 5 rows |
| Views.RecentResultsAreLatest | app.py:315-325 | Newest first, min(5, all) rows drawn from the user's results with no row shown more often than the join holds it (multiset inclusion), and none left out is newer than one shown |
| Views.PrefixInMultiset | app.py:322 | The first k rows hold no row more often than the whole list |
| Views.NewestFirstPrefix | app.py:321-322 | The first k rows of a newest-first list are newest first, and no row after them is newer than one of them |
| Seeding.CorrectCount | app.py:175-182 | The number of correct flags is at most the number of choices |
| Seeding.ChoiceRows | app.py:179-182 | `insert_question`'s `executemany` list: one choice row per (label, correct) pair |
| Seeding.ChoiceRowsShape | app.py:179-182 | One choice row per (label, correct) pair, in order, with consecutive ids and the flag as given |
| Seeding.ChoiceRowsCorrectLabels | app.py:175-182 | The rows for a question hold as many correct labels as the pairs flagged correct |
| Seeding.SeedQuestionsWellFormed | app.py:126-172 | Four seeded questions over two tests, each with exactly one correct choice |
| Store.Db.constructor | app.py:44-101 | A new database holds six empty tables |
| Store.Db.InsertTest | app.py:110-124 | Appends the test with the next id and returns the id; nothing else changes |
| Store.Db.InsertQuestion | app.py:175-182 | Appends the question with the next id and its choice rows. The question gets as many correct labels as pairs flagged correct, and no other question's labels change |
| Store.Db.InsertChoices | app.py:179-182 | Appends one choice row per pair, with the next ids, to a question that has none yet; it gains as many correct labels as pairs flagged correct, and the other tables do not change |
| Store.Db.SeedTests | app.py:109-172 | Appends two tests and four questions, each new question with exactly one correct label |
| Store.Db.SeedQuestionPair | app.py:126-148 | Appends two seeded questions to one test, each with exactly one correct label, and leaves the labels of every earlier question unchanged |
| Store.Db.InitDb | app.py:103-105 | Seeds only an empty catalog, which then holds 2 tests and 4 questions each with one correct label; a non-empty catalog is untouched |
| Store.Db.Register | app.py:260-272 | Appends the row `Accounts.Register` yields and returns its id, or returns the error and leaves the table unchanged |
| Store.Db.Login | app.py:282-296 | For the user with the normalised email the session becomes that id iff the password checks, else it is unchanged; an unknown email leaves it unchanged |
| Store.Db.SubscriptionGate | app.py:196-227 | Returns the gate's decision and clears only the expired user's flag |
| Store.Db.Subscribe | app.py:341-368 | Without a session it returns `LoginFirst` and changes nothing. Refusals change nothing. Activation rewrites only the session user's row as `Accounts.Subscribe` says |
| Store.Db.Activate | app.py:357-367 | Rewrites exactly the rows with the given id, keeps ids dense, emails unique and every set flag with an end date, and changes no other table |
| Store.Db.SubmitTest | app.py:389-431 | For an existing user: an unknown test records nothing. Otherwise it appends one result row (next id, user, test, score, number of questions, now) and one answer row per question in id order |
| Store.Db.RecordSubmission | app.py:421-432 | For an existing user, test and questions: appends the result row carrying the score and question count, then one answer row per question in order with consecutive ids; the catalog and users are unchanged |
| Store.Db.TakeTest | app.py:385-435 | The gate first: when it denies, nothing is recorded. Granted: the submission as above, for the gate's user |
| Store.Db.ViewResult | app.py:449-500 | Not found iff the three-way match fails. Otherwise the test's questions, the answers by question, and for each question the labels of its correct choices when it has any |
| Store.Db.ViewResultRoute | app.py:446-462 | The gate first; a shown result belongs to the gate's user, has the requested id and is for the requested test |
| Store.Db.Dashboard | app.py:313-337 | None when `login_required` fails, and None iff that happens or the session's user row is missing; otherwise the copy loop yields exactly the user's latest results |
| Store.CopyRows | app.py:326-337 | The page list holds the fetched rows, all of them, in fetch order |
| Store.UpdateKeepsUsersValid | app.py:357-367 | Rewriting a row without changing its id or email, and without setting its flag unless it has an end date, keeps ids dense, emails unique and every set flag with an end date |
| Store.AppendKeepsAnswersValid | app.py:428-431 | The new answer rows continue the ids and refer to the new result and to existing questions |
| Store.AppendKeepsResultsValid | app.py:422-426 | The new result row continues the ids and refers to an existing user and test |
| Store.GrantedHasEnd | app.py:203-227 | In a valid user table, a user the gate grants has a subscription end, and it has not passed |
| Store.ScoredResultShape | app.py:422-425 | The recorded result row has the user, the test and the time, `total_questions` = the number of questions, and the score is the number of credited questions, at most that total |
| Store.SubmittedAnswersShape | app.py:428-431 | One answer row per question, in question order, with consecutive ids, the new result's id, the question's id and the id submitted for it or NULL |
| Store.NewResultViews | app.py:422-478 | The new result's answer query yields one view per question of the test, in order, each with the id as submitted |
| Store.ByQuestionOfQuestions | app.py:479 | Keying those views by question gives one entry per question of the test, and no other key |
| Store.SubmittedAnswersReadBack | app.py:405-479 | Submitting then viewing: the page shows, for each question, exactly the id submitted for it, and no other question |

## Left out

- Flask routing, templates, `flash`, `redirect`/`url_for` and the `next` parameter are presentation and transport. The session is an `Option<int>` parameter and result.
- The sqlite connection, its teardown, SQL DDL, foreign-key cascades and transactions are replaced by the in-memory tables. Ids are never reused because nothing is deleted.
- werkzeug's `generate_password_hash` / `check_password_hash` are replaced by an ideal hash whose check accepts exactly the hashed password. The random salt is a parameter.
- `datetime.utcnow()`, `fromisoformat` and `strftime` are left out. Time is an integer `now` parameter, so an end date that does not parse (and so counts as "no end") is not modelled. The dashboard's formatted date is not modelled either.
- Tables.Where: its own contract states only which rows are kept and a length bound. How many times each kept row appears is stated by Tables.WhereCounts, and their order, which is table order, by Tables.WhereSingle with Tables.WhereAppend.
- Text.Lower: lower-cases ASCII letters only, whereas Python's `str.lower()` also folds non-ASCII letters.
- Form values are modelled as integers. A non-numeric `question-<id>` value, which the code would store as text, is not modelled.
- Logout, the index page, the test list and the GET rendering of take_test only read or clear state for display, and are not modelled.
- Store.Db.Subscribe: with a session naming no user, the source raises an error when it reads the missing row. The model returns `UnknownUser` instead, with nothing changed.
- Views.RecentResults: SQL leaves the order of results with equal `taken_at` unspecified. The model orders ties by insertion, so only newest-first is claimed.
- Seeding.SeedQuestionsWellFormed: the seeded texts are placeholders; only the number of tests, questions and choices and which choice is correct are modelled.
- Store.Db.Dashboard: when the session names no user, the source raises an error on the missing row. The model returns None instead.
