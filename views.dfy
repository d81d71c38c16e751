/**
 * Reading results back: the view_result route's three-way lookup and the
 * data it assembles (answers by question, correct labels by question), and
 * the dashboard's query for a user's five latest results.
 */
module Views {
  import opened Tables

  /**
   * view_result's lookup: the result with this id, owned by this user and
   * taken on this test, joined with the test for its title. Any mismatch,
   * including a result of another user, is "not found".
   */
  function FindResult(results: seq<ResultRow>, tests: seq<TestRow>, resultId: int, userId: int, testId: int)
    : (r: Option<(ResultRow, string)>)
    ensures r.Some? ==> (
      && r.value.0 in results
      && r.value.0.id == resultId && r.value.0.userId == userId && r.value.0.testId == testId
      && TestById(tests, testId).Some? && r.value.1 == TestById(tests, testId).value.title)
    ensures r.None? <==>
      TestById(tests, testId).None?
      || forall x :: x in results ==> !(x.id == resultId && x.userId == userId && x.testId == testId)
  {
    match FirstWhere(results, (x: ResultRow) => x.id == resultId && x.userId == userId && x.testId == testId)
    case None => None
    case Some(x) =>
      match TestById(tests, x.testId)
      case None => None
      case Some(t) => Some((x, t.title))
  }

  /** A result is never shown to anyone but its owner, nor under another test's id. */
  lemma OnlyOwnerSeesResult(results: seq<ResultRow>, tests: seq<TestRow>, x: ResultRow, userId: int, testId: int)
    requires forall i, j :: 0 <= i < j < |results| ==> results[i].id != results[j].id
    requires x in results
    requires x.userId != userId || x.testId != testId
    ensures FindResult(results, tests, x.id, userId, testId).None?
  {
    forall y | y in results ensures !(y.id == x.id && y.userId == userId && y.testId == testId) {
      if y.id == x.id {
        var i :| 0 <= i < |results| && results[i] == x;
        var j :| 0 <= j < |results| && results[j] == y;
        assert i == j;
      }
    }
  }

  /** A row of view_result's answer query: the answer LEFT JOINed with the choice it names. */
  datatype AnswerView = AnswerView(
    questionId: int,
    selectedChoiceId: Option<int>,
    selectedLabel: Option<string>,
    selectedIsCorrect: Option<bool>)

  function JoinChoice(a: AnswerRow, choices: seq<ChoiceRow>): (v: AnswerView)
    ensures v.questionId == a.questionId && v.selectedChoiceId == a.selectedChoiceId
    ensures v.selectedLabel.Some? <==> a.selectedChoiceId.Some? && ChoiceById(choices, a.selectedChoiceId.value).Some?
    ensures v.selectedLabel.Some? ==> (
      var c := ChoiceById(choices, a.selectedChoiceId.value).value;
      v.selectedLabel == Some(c.labelText) && v.selectedIsCorrect == Some(c.isCorrect))
    ensures v.selectedLabel.None? ==> v.selectedIsCorrect.None?
  {
    var c := if a.selectedChoiceId.Some? then ChoiceById(choices, a.selectedChoiceId.value) else None;
    match c
    case None => AnswerView(a.questionId, a.selectedChoiceId, None, None)
    case Some(row) => AnswerView(a.questionId, a.selectedChoiceId, Some(row.labelText), Some(row.isCorrect))
  }

  /** The answer query of view_result: the result's answer rows, in table order, joined with their choices. */
  function AnswerViews(answers: seq<AnswerRow>, choices: seq<ChoiceRow>, resultId: int): (r: seq<AnswerView>)
    ensures |r| <= |answers|
  {
    if answers == [] then []
    else
      (if answers[0].resultId == resultId then [JoinChoice(answers[0], choices)] else [])
      + AnswerViews(answers[1..], choices, resultId)
  }

  lemma {:induction false} AnswerViewsAppend(answers: seq<AnswerRow>, extra: seq<AnswerRow>, choices: seq<ChoiceRow>, resultId: int)
    ensures AnswerViews(answers + extra, choices, resultId) == AnswerViews(answers, choices, resultId) + AnswerViews(extra, choices, resultId)
  {
    if answers == [] {
      assert answers + extra == extra;
    } else {
      var head := if answers[0].resultId == resultId then [JoinChoice(answers[0], choices)] else [];
      assert (answers + extra)[0] == answers[0];
      assert (answers + extra)[1..] == answers[1..] + extra;
      assert AnswerViews(answers + extra, choices, resultId) == head + AnswerViews(answers[1..] + extra, choices, resultId);
      AnswerViewsAppend(answers[1..], extra, choices, resultId);
      assert AnswerViews(answers, choices, resultId) == head + AnswerViews(answers[1..], choices, resultId);
    }
  }

  /** Answer rows of other results contribute nothing to a result's answer query. */
  lemma {:induction false} AnswerViewsOfOthers(answers: seq<AnswerRow>, choices: seq<ChoiceRow>, resultId: int)
    requires forall a :: a in answers ==> a.resultId != resultId
    ensures AnswerViews(answers, choices, resultId) == []
  {
    if answers != [] {
      assert answers[0] in answers;
      assert forall a :: a in answers[1..] ==> a in answers;
      AnswerViewsOfOthers(answers[1..], choices, resultId);
    }
  }

  /** When every row belongs to the result, the query joins each row, in order. */
  lemma {:induction false} AnswerViewsOfOwn(answers: seq<AnswerRow>, choices: seq<ChoiceRow>, resultId: int)
    requires forall i :: 0 <= i < |answers| ==> answers[i].resultId == resultId
    ensures |AnswerViews(answers, choices, resultId)| == |answers|
    ensures forall i :: 0 <= i < |answers| ==> AnswerViews(answers, choices, resultId)[i] == JoinChoice(answers[i], choices)
  {
    if answers != [] {
      AnswerViewsOfOwn(answers[1..], choices, resultId);
    }
  }

  /**
   * `{answer["question_id"]: answer for answer in answers}`: each question id
   * of the rows maps to the last row for it.
   */
  function ByQuestion(views: seq<AnswerView>): (m: map<int, AnswerView>)
    ensures forall q :: q in m <==> exists i :: 0 <= i < |views| && views[i].questionId == q
    ensures forall q :: q in m ==> exists i :: (0 <= i < |views| && views[i] == m[q]
      && m[q].questionId == q && forall j :: i < j < |views| ==> views[j].questionId != q)
  {
    if views == [] then map[]
    else
      var n := |views| - 1;
      var prev := ByQuestion(views[..n]);
      ByQuestionStep(prev, views);
      prev[views[n].questionId := views[n]]
  }

  /** Adding the last row to the last-row map of the rows before it gives the last-row map of all rows. */
  lemma ByQuestionStep(prev: map<int, AnswerView>, views: seq<AnswerView>)
    requires views != []
    requires var init := views[..|views| - 1];
      forall q :: q in prev <==> exists i :: 0 <= i < |init| && init[i].questionId == q
    requires var init := views[..|views| - 1];
      forall q :: q in prev ==> exists i :: (0 <= i < |init| && init[i] == prev[q]
      && prev[q].questionId == q && forall j :: i < j < |init| ==> init[j].questionId != q)
    ensures var m := prev[views[|views| - 1].questionId := views[|views| - 1]];
      && (forall q :: q in m <==> exists i :: 0 <= i < |views| && views[i].questionId == q)
      && (forall q :: q in m ==> exists i :: (0 <= i < |views| && views[i] == m[q]
        && m[q].questionId == q && forall j :: i < j < |views| ==> views[j].questionId != q))
  {
    var n := |views| - 1;
    var init, v := views[..n], views[n];
    var m := prev[v.questionId := v];
    forall q | q in m ensures exists i :: 0 <= i < |views| && views[i].questionId == q {
      if q == v.questionId {
        assert views[n].questionId == q;
      } else {
        var i :| 0 <= i < n && init[i].questionId == q;
        assert views[i].questionId == q;
      }
    }
    forall q | exists i :: 0 <= i < |views| && views[i].questionId == q ensures q in m {
      var i :| 0 <= i < |views| && views[i].questionId == q;
      if i < n {
        assert init[i].questionId == q;
      }
    }
    forall q | q in m ensures exists i :: (0 <= i < |views| && views[i] == m[q]
      && m[q].questionId == q && forall j :: i < j < |views| ==> views[j].questionId != q)
    {
      if q == v.questionId {
        assert views[n] == m[q];
      } else {
        var i :| 0 <= i < n && init[i] == prev[q] && prev[q].questionId == q
          && forall j :: i < j < n ==> init[j].questionId != q;
        assert views[i] == m[q];
        assert forall j :: i < j < |views| ==> views[j].questionId != q;
      }
    }
  }

  /**
   * The correct-choices query of view_result: (question id, label) of every
   * choice flagged correct whose question is one of `questionIds`, in table
   * order.
   */
  function CorrectChoiceRows(choices: seq<ChoiceRow>, questionIds: set<int>): (r: seq<(int, string)>)
    ensures |r| <= |choices|
    ensures forall i :: 0 <= i < |r| ==> r[i].0 in questionIds
  {
    if choices == [] then []
    else
      var c := choices[0];
      (if c.questionId in questionIds && c.isCorrect then [(c.questionId, c.labelText)] else [])
      + CorrectChoiceRows(choices[1..], questionIds)
  }

  /** The labels of the rows for question `q`, in row order. */
  function LabelsFor(rows: seq<(int, string)>, q: int): (r: seq<string>)
    ensures |r| <= |rows|
  {
    if rows == [] then []
    else (if rows[0].0 == q then [rows[0].1] else []) + LabelsFor(rows[1..], q)
  }

  lemma {:induction false} LabelsForAppend(rows: seq<(int, string)>, extra: seq<(int, string)>, q: int)
    ensures LabelsFor(rows + extra, q) == LabelsFor(rows, q) + LabelsFor(extra, q)
  {
    if rows == [] {
      assert rows + extra == extra;
    } else {
      var head := if rows[0].0 == q then [rows[0].1] else [];
      assert (rows + extra)[0] == rows[0];
      assert (rows + extra)[1..] == rows[1..] + extra;
      LabelsForAppend(rows[1..], extra, q);
      assert LabelsFor(rows + extra, q) == head + (LabelsFor(rows[1..], q) + LabelsFor(extra, q));
      assert LabelsFor(rows, q) == head + LabelsFor(rows[1..], q);
      assert head + (LabelsFor(rows[1..], q) + LabelsFor(extra, q)) == (head + LabelsFor(rows[1..], q)) + LabelsFor(extra, q);
    }
  }

  /** Extending the rows by one row extends the labels of that row's question only. */
  lemma LabelsForSnoc(rows: seq<(int, string)>, i: nat, q: int)
    requires i < |rows|
    ensures LabelsFor(rows[..i + 1], q) == LabelsFor(rows[..i], q) + (if rows[i].0 == q then [rows[i].1] else [])
  {
    assert rows[..i + 1] == rows[..i] + [rows[i]];
    LabelsForAppend(rows[..i], [rows[i]], q);
  }

  /** A question has labels exactly when some row names it. */
  lemma {:induction false} LabelsForNonEmpty(rows: seq<(int, string)>, q: int)
    ensures LabelsFor(rows, q) != [] <==> exists i :: 0 <= i < |rows| && rows[i].0 == q
  {
    if rows != [] {
      LabelsForNonEmpty(rows[1..], q);
      if rows[0].0 != q {
        assert (exists i :: 0 <= i < |rows| && rows[i].0 == q) ==> exists i :: 0 <= i < |rows[1..]| && rows[1..][i].0 == q by {
          if exists i :: 0 <= i < |rows| && rows[i].0 == q {
            var i :| 0 <= i < |rows| && rows[i].0 == q;
            assert rows[1..][i - 1].0 == q;
          }
        }
      }
    }
  }

  /** `m` maps exactly the question ids named by `rows`, each to the labels of its rows in row order. */
  ghost predicate Grouped(m: map<int, seq<string>>, rows: seq<(int, string)>)
  {
    forall q :: (q in m <==> LabelsFor(rows, q) != []) && (q in m ==> m[q] == LabelsFor(rows, q))
  }

  /** Appending the label of one more row to its question's list keeps the map grouped. */
  lemma GroupedStep(m: map<int, seq<string>>, rows: seq<(int, string)>, i: nat)
    requires i < |rows| && Grouped(m, rows[..i])
    ensures var (q, labelText) := rows[i];
      Grouped(m[q := (if q in m then m[q] else []) + [labelText]], rows[..i + 1])
  {
    forall q' ensures LabelsFor(rows[..i + 1], q') == LabelsFor(rows[..i], q') + (if rows[i].0 == q' then [rows[i].1] else []) {
      LabelsForSnoc(rows, i, q');
    }
  }

  /**
   * The `setdefault(...).append` loop of view_result: a question id is a key
   * exactly when some row names it, and maps to the labels of its rows in
   * row order.
   */
  method GroupLabels(rows: seq<(int, string)>) returns (m: map<int, seq<string>>)
    ensures forall q :: q in m <==> exists i :: 0 <= i < |rows| && rows[i].0 == q
    ensures forall q :: q in m ==> m[q] == LabelsFor(rows, q)
  {
    m := map[];
    var i := 0;
    while i < |rows|
      invariant 0 <= i <= |rows|
      invariant Grouped(m, rows[..i])
    {
      var (q, labelText) := rows[i];
      GroupedStep(m, rows, i);
      if q in m {
        m := m[q := m[q] + [labelText]];
      } else {
        m := m[q := [labelText]];
      }
      i := i + 1;
    }
    assert rows[..i] == rows;
    forall q ensures LabelsFor(rows, q) != [] <==> exists k :: 0 <= k < |rows| && rows[k].0 == q {
      LabelsForNonEmpty(rows, q);
    }
  }

  /**
   * For a question of the test, the grouped query rows hold every label of
   * that question's correct choices, in table order: none, one or several.
   */
  lemma {:induction false} CorrectRowsPerQuestion(choices: seq<ChoiceRow>, questionIds: set<int>, q: int)
    requires q in questionIds
    ensures LabelsFor(CorrectChoiceRows(choices, questionIds), q) == CorrectLabels(choices, q)
  {
    if choices != [] {
      var c := choices[0];
      var head := if c.questionId in questionIds && c.isCorrect then [(c.questionId, c.labelText)] else [];
      LabelsForAppend(head, CorrectChoiceRows(choices[1..], questionIds), q);
      CorrectRowsPerQuestion(choices[1..], questionIds, q);
    }
  }

  /** A row of the dashboard query. */
  datatype RecentRow = RecentRow(id: int, score: int, totalQuestions: int, takenAt: int, title: string)

  /** The user's results joined with their tests, in table order (before ORDER BY). */
  function UserResults(results: seq<ResultRow>, tests: seq<TestRow>, userId: int): (r: seq<RecentRow>)
    ensures |r| <= |results|
    ensures forall x :: x in r ==> exists res :: (res in results && res.userId == userId && res.id == x.id
      && res.score == x.score && res.totalQuestions == x.totalQuestions && res.takenAt == x.takenAt)
  {
    if results == [] then []
    else
      var res := results[0];
      var rest := UserResults(results[1..], tests, userId);
      var t := TestById(tests, res.testId);
      if res.userId == userId && t.Some? then
        [RecentRowOf(res, t.value.title)] + rest
      else rest
  }

  /** The dashboard row of a result, as the join with its test gives it. */
  function RecentRowOf(res: ResultRow, title: string): RecentRow
  {
    RecentRow(res.id, res.score, res.totalQuestions, res.takenAt, title)
  }

  /**
   * The join holds exactly the user's results whose test exists, each with
   * that test's title: nothing else, and none of them missing.
   */
  lemma {:induction false} UserResultsExact(results: seq<ResultRow>, tests: seq<TestRow>, userId: int)
    ensures forall x :: x in UserResults(results, tests, userId) <==>
      exists res :: res in results && res.userId == userId && TestById(tests, res.testId).Some?
        && x == RecentRowOf(res, TestById(tests, res.testId).value.title)
  {
    if results != [] {
      var head, tail := results[0], results[1..];
      UserResultsExact(tail, tests, userId);
      assert results == [head] + tail;
      assert forall res :: res in results <==> res == head || res in tail;
    }
  }

  /** A result joined with its test; the title is only ever read for a result whose test exists. */
  function JoinedRow(res: ResultRow, tests: seq<TestRow>): RecentRow
  {
    var t := TestById(tests, res.testId);
    RecentRowOf(res, if t.Some? then t.value.title else "")
  }

  /**
   * The join is exactly `WHERE r.user_id = ?` over the result table, in
   * table order, with each kept result turned into its row with its test's
   * title: every such result appears once, and nothing else does.
   */
  lemma {:induction false} UserResultsIsJoin(results: seq<ResultRow>, tests: seq<TestRow>, userId: int)
    ensures var w := Where(results, (x: ResultRow) => x.userId == userId && TestById(tests, x.testId).Some?);
      UserResults(results, tests, userId)
        == seq(|w|, i requires 0 <= i < |w| => JoinedRow(w[i], tests))
  {
    var p := (x: ResultRow) => x.userId == userId && TestById(tests, x.testId).Some?;
    if results != [] {
      var head, tail := results[0], results[1..];
      UserResultsIsJoin(tail, tests, userId);
      var wt := Where(tail, p);
      var w := Where(results, p);
      var rest := UserResults(tail, tests, userId);
      assert rest == seq(|wt|, i requires 0 <= i < |wt| => JoinedRow(wt[i], tests));
      if p(head) {
        assert w == [head] + wt;
        forall i | 0 < i < |w|
          ensures JoinedRow(w[i], tests) == rest[i - 1]
        {
          assert w[i] == wt[i - 1];
        }
      } else {
        assert w == wt;
      }
    }
  }

  /** No two rows carry the same result id. */
  predicate DistinctIds(rows: seq<RecentRow>)
  {
    forall i, j :: 0 <= i < j < |rows| ==> rows[i].id != rows[j].id
  }

  /** With unique result ids, no result appears twice in the join: its rows have pairwise distinct ids. */
  lemma {:induction false} UserResultsDistinct(results: seq<ResultRow>, tests: seq<TestRow>, userId: int)
    requires forall i, j :: 0 <= i < j < |results| ==> results[i].id != results[j].id
    ensures DistinctIds(UserResults(results, tests, userId))
  {
    if results != [] {
      var head, tail := results[0], results[1..];
      UserResultsDistinct(tail, tests, userId);
      var rest := UserResults(tail, tests, userId);
      HeadIdNotInRest(results, tests, userId);
      var r := UserResults(results, tests, userId);
      var t := TestById(tests, head.testId);
      if head.userId == userId && t.Some? {
        assert r == [RecentRowOf(head, t.value.title)] + rest;
        assert DistinctIds(rest);
        forall i, j | 0 <= i < j < |r| ensures r[i].id != r[j].id {
          assert r[j] == rest[j - 1];
          if i > 0 {
            assert r[i] == rest[i - 1];
            assert rest[i - 1].id != rest[j - 1].id;
          } else {
            assert r[j] in rest;
            assert r[0].id == head.id;
          }
        }
      }
    }
  }

  lemma HeadIdNotInRest(results: seq<ResultRow>, tests: seq<TestRow>, userId: int)
    requires results != []
    requires forall i, j :: 0 <= i < j < |results| ==> results[i].id != results[j].id
    ensures forall x :: x in UserResults(results[1..], tests, userId) ==> x.id != results[0].id
  {
    var tail := results[1..];
    forall x | x in UserResults(tail, tests, userId) ensures x.id != results[0].id {
      var res :| res in tail && res.id == x.id;
      var k :| 0 <= k < |tail| && tail[k] == res;
      assert results[k + 1] == res;
    }
  }

  predicate NewestFirst(rows: seq<RecentRow>)
  {
    forall i, j :: 0 <= i < j < |rows| ==> rows[i].takenAt >= rows[j].takenAt
  }

  /** Places `x` before the first row that is not newer than it. */
  function Insert(x: RecentRow, rows: seq<RecentRow>): (r: seq<RecentRow>)
    ensures |r| == |rows| + 1
    ensures forall y :: y in r <==> y in rows || y == x
  {
    if rows == [] || x.takenAt >= rows[0].takenAt then [x] + rows
    else [rows[0]] + Insert(x, rows[1..])
  }

  lemma {:induction false} InsertNewestFirst(x: RecentRow, rows: seq<RecentRow>)
    requires NewestFirst(rows)
    ensures NewestFirst(Insert(x, rows))
  {
    if rows != [] {
      if x.takenAt >= rows[0].takenAt {
        var r := Insert(x, rows);
        forall i, j | 0 <= i < j < |r| ensures r[i].takenAt >= r[j].takenAt {
          if i == 0 && j > 1 {
            assert r[j] == rows[j - 1];
          }
        }
      } else {
        InsertNewestFirst(x, rows[1..]);
        var rest := Insert(x, rows[1..]);
        var r := [rows[0]] + rest;
        forall j | 0 < j < |r| ensures rows[0].takenAt >= r[j].takenAt {
          assert r[j] in rest;
          if r[j] != x {
            var k :| 0 <= k < |rows[1..]| && rows[1..][k] == r[j];
            assert rows[k + 1] == r[j];
          }
        }
      }
    }
  }

  lemma {:induction false} InsertPermutes(x: RecentRow, rows: seq<RecentRow>)
    ensures multiset(Insert(x, rows)) == multiset(rows) + multiset{x}
  {
    if rows != [] && x.takenAt < rows[0].takenAt {
      InsertPermutes(x, rows[1..]);
      assert rows == [rows[0]] + rows[1..];
    }
  }

  /** `ORDER BY taken_at DESC`, with equal timestamps kept in table order. */
  function NewestFirstOrder(rows: seq<RecentRow>): (r: seq<RecentRow>)
    ensures |r| == |rows|
    ensures forall y :: y in r <==> y in rows
    ensures NewestFirst(r)
    ensures multiset(r) == multiset(rows)
  {
    if rows == [] then []
    else
      var rest := NewestFirstOrder(rows[1..]);
      InsertNewestFirst(rows[0], rest);
      InsertPermutes(rows[0], rest);
      assert rows == [rows[0]] + rows[1..];
      Insert(rows[0], rest)
  }

  /** Most results the dashboard shows. */
  const RecentLimit: nat := 5

  /** The dashboard query: the user's results with their test titles, newest first, at most five. */
  function RecentResults(results: seq<ResultRow>, tests: seq<TestRow>, userId: int): (r: seq<RecentRow>)
    ensures |r| <= RecentLimit
  {
    var sorted := NewestFirstOrder(UserResults(results, tests, userId));
    if |sorted| <= RecentLimit then sorted else sorted[..RecentLimit]
  }

  /**
   * What the dashboard shows: every row is one of the user's results, none
   * shown more often than the join holds it, the rows are newest first, there are five of them or all the user's results
   * if fewer, and no result left out is newer than a result shown.
   */
  lemma RecentResultsAreLatest(results: seq<ResultRow>, tests: seq<TestRow>, userId: int)
    ensures var r := RecentResults(results, tests, userId);
      var all := UserResults(results, tests, userId);
      && NewestFirst(r)
      && |r| == (if |all| < RecentLimit then |all| else RecentLimit)
      && (forall x :: x in r ==> x in all)
      && multiset(r) <= multiset(all)
      && (forall x :: x in all && x !in r ==> forall y :: y in r ==> y.takenAt >= x.takenAt)
  {
    var all := UserResults(results, tests, userId);
    var sorted := NewestFirstOrder(all);
    var r := RecentResults(results, tests, userId);
    assert r == sorted[..|r|];
    NewestFirstPrefix(sorted, |r|);
    PrefixInMultiset(sorted, |r|);
    forall x | x in r ensures x in all {
      var i :| 0 <= i < |r| && r[i] == x;
      assert sorted[i] == x;
    }
  }

  /** A prefix holds no row more often than the whole list does. */
  lemma PrefixInMultiset(rows: seq<RecentRow>, k: nat)
    requires k <= |rows|
    ensures multiset(rows[..k]) <= multiset(rows)
  {
    assert rows == rows[..k] + rows[k..];
    assert multiset(rows) == multiset(rows[..k]) + multiset(rows[k..]);
  }

  /** A prefix of a newest-first list is newest first, and nothing after it is newer than anything in it. */
  lemma NewestFirstPrefix(sorted: seq<RecentRow>, k: nat)
    requires NewestFirst(sorted) && k <= |sorted|
    ensures NewestFirst(sorted[..k])
    ensures forall x :: x in sorted && x !in sorted[..k] ==> forall y :: y in sorted[..k] ==> y.takenAt >= x.takenAt
  {
    var r := sorted[..k];
    forall x | x in sorted && x !in r ensures forall y :: y in r ==> y.takenAt >= x.takenAt {
      var j :| 0 <= j < |sorted| && sorted[j] == x;
      assert j >= k;
      forall y | y in r ensures y.takenAt >= x.takenAt {
        var i :| 0 <= i < |r| && r[i] == y;
        assert sorted[i] == y;
      }
    }
  }
}
