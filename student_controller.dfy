/** The student side of the exam session: the dashboard, beginning a session
    (`scheduled` to `inprogress`, handing out the questions without their
    answer keys) and submitting it (grading, answer rows, `completed`). */
module StudentController {
  import opened Wrappers
  import opened Table
  import opened Schema
  import opened Grading

  datatype TestSummary = TestSummary(id: nat, title: string, durationMinutes: int, scheduledAt: int)
  datatype ScoreSummary = ScoreSummary(title: string, score: Option<nat>, submittedAt: Option<int>)
  datatype Dashboard = Dashboard(greeting: string, scheduledTests: seq<TestSummary>, pastScores: seq<ScoreSummary>)

  /** The test row with that id belongs to the given college (`t.college_id = ?`). */
  predicate TestInCollege(tests: seq<Row<Test>>, testId: int, college: Option<nat>) {
    exists i | 0 <= i < |tests| :: tests[i].id == testId && SqlEq(Some(tests[i].rec.collegeId), college)
  }

  /** `t.id = st.test_id AND t.college_id = ?`. */
  function TestOf(testId: int, college: Option<nat>): Row<Test> -> bool {
    (t: Row<Test>) => t.id == testId && SqlEq(Some(t.rec.collegeId), college)
  }

  /** The join of the dashboard queries: this student's sessions in `status`
      whose test belongs to the student's college, in table order. */
  function SessionsIn(sts: seq<Row<StudentTest>>, tests: seq<Row<Test>>, user: Principal, status: SessionStatus)
    : (r: seq<(Row<StudentTest>, Row<Test>)>)
    ensures forall k :: 0 <= k < |r| ==>
      r[k].0 in sts && r[k].0.rec.studentId == user.id && r[k].0.rec.status == status
      && r[k].1 in tests && r[k].1.id == r[k].0.rec.testId && SqlEq(Some(r[k].1.rec.collegeId), user.collegeId)
  {
    if sts == [] then []
    else
      var st := sts[0];
      var t := Find(tests, TestOf(st.rec.testId, user.collegeId));
      var here := if st.rec.studentId == user.id && st.rec.status == status && t.Some? then [(st, t.value)] else [];
      here + SessionsIn(sts[1..], tests, user, status)
  }

  /** Every session of the student in `status` whose test is in the
      student's college is joined with that test. */
  lemma {:induction false} SessionsInComplete(sts: seq<Row<StudentTest>>, tests: seq<Row<Test>>, user: Principal,
                                              status: SessionStatus, i: nat, j: nat)
    requires IdsAscending(tests) && i < |sts| && j < |tests|
    requires sts[i].rec.studentId == user.id && sts[i].rec.status == status
    requires TestOf(sts[i].rec.testId, user.collegeId)(tests[j])
    ensures (sts[i], tests[j]) in SessionsIn(sts, tests, user, status)
  {
    var st := sts[0];
    var t := Find(tests, TestOf(st.rec.testId, user.collegeId));
    var here := if st.rec.studentId == user.id && st.rec.status == status && t.Some? then [(st, t.value)] else [];
    var rest := SessionsIn(sts[1..], tests, user, status);
    assert SessionsIn(sts, tests, user, status) == here + rest;
    if i > 0 {
      assert sts[1..][i - 1] == sts[i];
      SessionsInComplete(sts[1..], tests, user, status, i - 1, j);
      assert (sts[i], tests[j]) in rest;
    } else {
      var k :| 0 <= k < |tests| && tests[k] == t.value && TestOf(st.rec.testId, user.collegeId)(t.value);
      AscendingIdsUnique(tests, j, k);
      assert here == [(sts[i], tests[j])];
    }
  }

  /** Join entries whose sessions have strictly ascending ids. */
  predicate SessionIdsAscending(r: seq<(Row<StudentTest>, Row<Test>)>) {
    forall a, b :: 0 <= a < b < |r| ==> r[a].0.id < r[b].0.id
  }

  /** With ascending session ids the join lists sessions in ascending id
      order, so no session appears twice. */
  lemma {:induction false} SessionsInOncePerSession(sts: seq<Row<StudentTest>>, tests: seq<Row<Test>>, user: Principal,
                                                    status: SessionStatus)
    requires IdsAscending(sts)
    ensures SessionIdsAscending(SessionsIn(sts, tests, user, status))
  {
    if sts != [] {
      var st := sts[0];
      var t := Find(tests, TestOf(st.rec.testId, user.collegeId));
      var rest := SessionsIn(sts[1..], tests, user, status);
      SessionsInOncePerSession(sts[1..], tests, user, status);
      if st.rec.studentId == user.id && st.rec.status == status && t.Some? {
        forall x | x in rest ensures st.id < x.0.id {
          assert x.0 in sts[1..];
        }
        SessionIdsCons((st, t.value), rest);
      } else {
        assert SessionsIn(sts, tests, user, status) == [] + rest;
        assert [] + rest == rest;
      }
    }
  }

  lemma SessionIdsCons(e: (Row<StudentTest>, Row<Test>), rest: seq<(Row<StudentTest>, Row<Test>)>)
    requires SessionIdsAscending(rest) && forall x :: x in rest ==> e.0.id < x.0.id
    ensures SessionIdsAscending([e] + rest)
  {
    var r := [e] + rest;
    forall a, b | 0 <= a < b < |r| ensures r[a].0.id < r[b].0.id {
      assert r[b] == rest[b - 1];
      if a > 0 {
        assert r[a] == rest[a - 1];
      }
    }
  }

  /** The dashboard entry of an upcoming test. */
  function Upcoming(e: (Row<StudentTest>, Row<Test>)): TestSummary {
    TestSummary(e.1.id, e.1.rec.title, e.1.rec.durationMinutes, e.1.rec.scheduledAt)
  }

  /** The dashboard entry of a completed test. */
  function Past(e: (Row<StudentTest>, Row<Test>)): ScoreSummary {
    ScoreSummary(e.1.rec.title, e.0.rec.score, e.0.rec.submittedAt)
  }

  /** `getDashboard`: the student's scheduled tests and past scores, limited
      to tests of the student's own college; no college, no entries. */
  function GetDashboard(sts: seq<Row<StudentTest>>, tests: seq<Row<Test>>, user: Principal): (d: Dashboard)
    ensures d.greeting == "Hello, " + user.name
    ensures !Truthy(user.collegeId) ==> d.scheduledTests == [] && d.pastScores == []
    ensures Truthy(user.collegeId) ==>
      var sched := SessionsIn(sts, tests, user, Scheduled);
      |d.scheduledTests| == |sched| && forall k :: 0 <= k < |sched| ==> d.scheduledTests[k] == Upcoming(sched[k])
    ensures Truthy(user.collegeId) ==>
      var done := SessionsIn(sts, tests, user, Completed);
      |d.pastScores| == |done| && forall k :: 0 <= k < |done| ==> d.pastScores[k] == Past(done[k])
  {
    if !Truthy(user.collegeId) then Dashboard("Hello, " + user.name, [], [])
    else
      var sched := SessionsIn(sts, tests, user, Scheduled);
      var done := SessionsIn(sts, tests, user, Completed);
      Dashboard(
        "Hello, " + user.name,
        seq(|sched|, k requires 0 <= k < |sched| => Upcoming(sched[k])),
        seq(|done|, k requires 0 <= k < |done| => Past(done[k])))
  }

  /** A completed session of the student for a test of the student's
      college shows among the past scores with its title, score and
      submission time. */
  lemma CompletedScoreShown(sts: seq<Row<StudentTest>>, tests: seq<Row<Test>>, user: Principal, i: nat, j: nat)
    requires Truthy(user.collegeId) && IdsAscending(tests) && i < |sts| && j < |tests|
    requires sts[i].rec.studentId == user.id && sts[i].rec.status == Completed
    requires tests[j].id == sts[i].rec.testId && tests[j].rec.collegeId == user.collegeId.value
    ensures ScoreSummary(tests[j].rec.title, sts[i].rec.score, sts[i].rec.submittedAt)
            in GetDashboard(sts, tests, user).pastScores
  {
    var done := SessionsIn(sts, tests, user, Completed);
    SessionsInComplete(sts, tests, user, Completed, i, j);
    var k :| 0 <= k < |done| && done[k] == (sts[i], tests[j]);
    assert GetDashboard(sts, tests, user).pastScores[k] == Past(done[k]);
  }

  /** A scheduled session of the student for a test of the student's
      college shows among the upcoming tests. */
  lemma ScheduledTestShown(sts: seq<Row<StudentTest>>, tests: seq<Row<Test>>, user: Principal, i: nat, j: nat)
    requires Truthy(user.collegeId) && IdsAscending(tests) && i < |sts| && j < |tests|
    requires sts[i].rec.studentId == user.id && sts[i].rec.status == Scheduled
    requires tests[j].id == sts[i].rec.testId && tests[j].rec.collegeId == user.collegeId.value
    ensures TestSummary(tests[j].id, tests[j].rec.title, tests[j].rec.durationMinutes, tests[j].rec.scheduledAt)
            in GetDashboard(sts, tests, user).scheduledTests
  {
    var sched := SessionsIn(sts, tests, user, Scheduled);
    SessionsInComplete(sts, tests, user, Scheduled, i, j);
    var k :| 0 <= k < |sched| && sched[k] == (sts[i], tests[j]);
    assert GetDashboard(sts, tests, user).scheduledTests[k] == Upcoming(sched[k]);
  }

  /** What a student sees of a question: no `correct_option`, no `solution`. */
  datatype QuestionView = QuestionView(
    id: nat, text: string, kind: Option<string>, language: Option<string>,
    options: Option<seq<string>>, expectedOutput: Option<string>)

  function View(q: Row<Question>): QuestionView {
    QuestionView(q.id, q.rec.text, q.rec.kind, q.rec.language, q.rec.options, q.rec.expectedOutput)
  }

  /** `questions JOIN test_questions WHERE test_id = ?`: one entry per link of
      the test whose question still exists, in link order. */
  function QuestionsOfTest(links: seq<TestQuestion>, questions: seq<Row<Question>>, testId: int): (r: seq<QuestionView>)
    ensures |r| <= |links|
    ensures forall v :: v in r ==>
      exists l, q :: l in links && q in questions && l.testId == testId
        && l.questionId == q.id && v == View(q)
  {
    if links == [] then []
    else
      var l := links[0];
      var q := Lookup(questions, l.questionId);
      var rest := QuestionsOfTest(links[1..], questions, testId);
      assert forall x :: x in links[1..] ==> x in links;
      if l.testId == testId && q.Some? then
        [View(q.value)] + rest
      else rest
  }

  /** Every question linked to the test that still exists is handed out. */
  lemma {:induction false} LinkedQuestionsServed(links: seq<TestQuestion>, questions: seq<Row<Question>>, testId: int, i: nat, j: nat)
    requires i < |links| && j < |questions| && links[i].testId == testId
    requires links[i].questionId == questions[j].id && IdsAscending(questions)
    ensures View(questions[j]) in QuestionsOfTest(links, questions, testId)
  {
    if i > 0 {
      LinkedQuestionsServed(links[1..], questions, testId, i - 1, j);
    } else {
      var q := Lookup(questions, links[0].questionId);
      var k :| 0 <= k < |questions| && questions[k] == q.value;
      AscendingIdsUnique(questions, j, k);
    }
  }

  datatype BeginResponse =
    | Forbidden
    | Started(questions: seq<QuestionView>, studentTestId: nat)

  /** The session the student may begin: for this test and student, still
      `scheduled`, with the test in the student's college. */
  predicate Eligible(st: Row<StudentTest>, tests: seq<Row<Test>>, user: Principal, testId: int) {
    st.rec.testId == testId && st.rec.studentId == user.id && st.rec.status == Scheduled
    && TestInCollege(tests, testId, user.collegeId)
  }

  function EligibleFor(tests: seq<Row<Test>>, user: Principal, testId: int): Row<StudentTest> -> bool {
    (st: Row<StudentTest>) => Eligible(st, tests, user, testId)
  }

  function MarkInProgress(now: int): StudentTest -> StudentTest {
    (rec: StudentTest) => rec.(status := InProgress, startedAt := Some(now))
  }

  /** `getTestQuestions` on the tables: begin the first eligible session or
      answer 403 with nothing changed. */
  function BeginSession(sts: seq<Row<StudentTest>>, tests: seq<Row<Test>>, links: seq<TestQuestion>,
                        questions: seq<Row<Question>>, user: Principal, testId: int, now: int)
    : (r: (BeginResponse, seq<Row<StudentTest>>))
    ensures r.0.Forbidden? <==> forall i :: 0 <= i < |sts| ==> !Eligible(sts[i], tests, user, testId)
    ensures r.0.Forbidden? ==> r.1 == sts
    ensures r.0.Started? ==>
      r.0.questions == QuestionsOfTest(links, questions, testId)
      && exists i :: 0 <= i < |sts| && sts[i].id == r.0.studentTestId && Eligible(sts[i], tests, user, testId)
    ensures |r.1| == |sts|
  {
    var found := Find(sts, EligibleFor(tests, user, testId));
    if found.None? then (Forbidden, sts)
    else
      var id := found.value.id;
      (Started(QuestionsOfTest(links, questions, testId), id),
       Update(sts, IdIs(id), MarkInProgress(now)))
  }

  /** After a successful begin, the begun row is `inprogress` with its start
      time and every other row is as it was. */
  lemma BeginMarksInProgress(sts: seq<Row<StudentTest>>, tests: seq<Row<Test>>, links: seq<TestQuestion>,
                             questions: seq<Row<Question>>, user: Principal, testId: int, now: int)
    requires IdsAscending(sts)
    ensures var r := BeginSession(sts, tests, links, questions, user, testId, now);
      r.0.Started? ==> forall i :: 0 <= i < |sts| ==>
        r.1[i] == (if sts[i].id == r.0.studentTestId
                   then Row(sts[i].id, sts[i].rec.(status := InProgress, startedAt := Some(now)))
                   else sts[i])
  {
  }

  /** A session can be begun at most once: with one row per (student, test),
      a second begin of the same test by the same student is refused. */
  lemma BeginTwiceFails(sts: seq<Row<StudentTest>>, tests: seq<Row<Test>>, links: seq<TestQuestion>,
                        questions: seq<Row<Question>>, user: Principal, testId: int, now: int, later: int)
    requires IdsAscending(sts) && OneSessionPerPair(sts)
    requires BeginSession(sts, tests, links, questions, user, testId, now).0.Started?
    ensures var after := BeginSession(sts, tests, links, questions, user, testId, now).1;
      BeginSession(after, tests, links, questions, user, testId, later).0.Forbidden?
  {
    var r := BeginSession(sts, tests, links, questions, user, testId, now);
    var i :| 0 <= i < |sts| && sts[i].id == r.0.studentTestId && Eligible(sts[i], tests, user, testId);
    forall k | 0 <= k < |sts| && Eligible(sts[k], tests, user, testId) ensures k == i {
    }
    BeginMarksInProgress(sts, tests, links, questions, user, testId, now);
    var after := r.1;
    assert |after| == |sts|;
    forall k | 0 <= k < |after| ensures !Eligible(after[k], tests, user, testId) {
      if sts[k].id == r.0.studentTestId {
        assert after[k].rec.status == InProgress;
      } else {
        assert k != i && after[k] == sts[k];
      }
    }
  }

  /** A session already `inprogress` or `completed` cannot be begun. */
  lemma BeginRequiresScheduled(sts: seq<Row<StudentTest>>, tests: seq<Row<Test>>, links: seq<TestQuestion>,
                               questions: seq<Row<Question>>, user: Principal, testId: int, now: int)
    requires forall i :: 0 <= i < |sts| && sts[i].rec.studentId == user.id && sts[i].rec.testId == testId
                         ==> sts[i].rec.status != Scheduled
    ensures BeginSession(sts, tests, links, questions, user, testId, now) == (Forbidden, sts)
  {
  }

  /** Tenant isolation: a test of another college can never be begun. */
  lemma BeginOtherCollegeForbidden(sts: seq<Row<StudentTest>>, tests: seq<Row<Test>>, links: seq<TestQuestion>,
                                   questions: seq<Row<Question>>, user: Principal, testId: int, now: int)
    requires !TestInCollege(tests, testId, user.collegeId)
    ensures BeginSession(sts, tests, links, questions, user, testId, now) == (Forbidden, sts)
  {
  }

  /** `getTestQuestions`: look the eligible session up, fetch the test's
      questions, and mark the session `inprogress`. */
  method GetTestQuestions(db: Database, user: Principal, testId: int, now: int) returns (r: BeginResponse)
    requires db.Valid()
    modifies db`studentTests
    ensures db.Valid()
    ensures (r, db.studentTests) == BeginSession(old(db.studentTests), db.tests, db.testQuestions, db.questions, user, testId, now)
  {
    var found := Find(db.studentTests, EligibleFor(db.tests, user, testId));
    if found.None? {
      return Forbidden;
    }
    var questions := QuestionsOfTest(db.testQuestions, db.questions, testId);
    var id := found.value.id;
    BeginValid(db.studentTests, id, now, db.nextStudentTestId, db.nextTestId);
    db.studentTests := Update(db.studentTests, IdIs(id), MarkInProgress(now));
    r := Started(questions, id);
  }

  /** Marking a session `inprogress` keeps ids, test references and the
      one-session-per-pair rule. */
  lemma BeginValid(sts: seq<Row<StudentTest>>, id: int, now: int, next: nat, nextTestId: nat)
    requires TableValid(sts, next) && SessionsWellFormed(sts, nextTestId)
    ensures TableValid(Update(sts, IdIs(id), MarkInProgress(now)), next)
    ensures SessionsWellFormed(Update(sts, IdIs(id), MarkInProgress(now)), nextTestId)
  {
    UpdateAscending(sts, IdIs(id), MarkInProgress(now));
    UpdateBelow(sts, IdIs(id), MarkInProgress(now), next);
    var r := Update(sts, IdIs(id), MarkInProgress(now));
    assert forall i :: 0 <= i < |sts| ==> r[i].rec.studentId == sts[i].rec.studentId && r[i].rec.testId == sts[i].rec.testId;
  }

  function MarkCompleted(score: nat, now: int): StudentTest -> StudentTest {
    (rec: StudentTest) => rec.(score := Some(score), status := Completed, submittedAt := Some(now))
  }

  /** The completing `UPDATE student_tests ... WHERE id = ? AND student_id = ?`;
      it does not look at the current status. */
  function SessionOf(studentTestId: int, studentId: nat): Row<StudentTest> -> bool {
    (st: Row<StudentTest>) => st.id == studentTestId && st.rec.studentId == studentId
  }

  /** The session row of that id and student becomes `completed` with the
      score and submission time; its student, test and start time are kept,
      and every other row is as it was. */
  function Complete(sts: seq<Row<StudentTest>>, studentTestId: int, studentId: nat, score: nat, now: int)
    : (r: seq<Row<StudentTest>>)
    ensures |r| == |sts|
    ensures forall i :: 0 <= i < |sts| ==>
      if sts[i].id == studentTestId && sts[i].rec.studentId == studentId
      then r[i] == Row(sts[i].id, sts[i].rec.(status := Completed, score := Some(score), submittedAt := Some(now)))
      else r[i] == sts[i]
  {
    Update(sts, SessionOf(studentTestId, studentId), MarkCompleted(score, now))
  }

  /** Resubmission is not refused: submitting again overwrites the first
      score and submission time with the second. */
  lemma ResubmitOverwrites(sts: seq<Row<StudentTest>>, studentTestId: int, studentId: nat,
                           first: nat, second: nat, t1: int, t2: int)
    ensures Complete(Complete(sts, studentTestId, studentId, first, t1), studentTestId, studentId, second, t2)
         == Complete(sts, studentTestId, studentId, second, t2)
  {
    var a := Complete(Complete(sts, studentTestId, studentId, first, t1), studentTestId, studentId, second, t2);
    var b := Complete(sts, studentTestId, studentId, second, t2);
    assert |a| == |b|;
    forall i | 0 <= i < |a| ensures a[i] == b[i] {
    }
  }

  /** A session id that belongs to another student is left untouched. */
  lemma CompleteOthersUntouched(sts: seq<Row<StudentTest>>, studentTestId: int, studentId: nat, score: nat, now: int)
    requires forall i :: 0 <= i < |sts| && sts[i].id == studentTestId ==> sts[i].rec.studentId != studentId
    ensures Complete(sts, studentTestId, studentId, score, now) == sts
  {
  }

  datatype SubmitResponse = Submitted(score: nat) | ServerError

  function AnswerRecords(studentTestId: int, g: seq<GradedAnswer>, college: Option<nat>): (r: seq<StudentAnswer>)
    ensures |r| == |g|
    ensures forall k :: 0 <= k < |g| ==>
      r[k] == StudentAnswer(studentTestId, g[k].questionId, g[k].answerText, g[k].isCorrect, college)
  {
    seq(|g|, k requires 0 <= k < |g| => StudentAnswer(studentTestId, g[k].questionId, g[k].answerText, g[k].isCorrect, college))
  }

  predicate NoAnswers(answers: Option<seq<SubmittedAnswer>>) {
    answers.None? || answers.value == []
  }

  /** The closing `UPDATE student_tests SET status = 'completed', score = ?`
      of `submitTest`. */
  method CompleteSession(db: Database, studentTestId: int, studentId: nat, score: nat, now: int)
    requires db.Valid()
    modifies db`studentTests
    ensures db.Valid()
    ensures db.studentTests == Complete(old(db.studentTests), studentTestId, studentId, score, now)
  {
    CompleteValid(db.studentTests, studentTestId, studentId, score, now, db.nextStudentTestId, db.nextTestId);
    db.studentTests := Complete(db.studentTests, studentTestId, studentId, score, now);
  }

  /** The last statement of `submitTest`'s transaction: it completes the
      session, or it fails and the whole transaction, answer rows included,
      is rolled back to `saved`. */
  method FinishSubmission(db: Database, saved: seq<Row<StudentAnswer>>, savedNext: nat,
                          studentTestId: int, studentId: nat, score: nat, now: int, fails: bool)
    returns (completed: bool)
    requires db.Valid() && TableValid(saved, savedNext)
    modifies db`studentTests, db`studentAnswers, db`nextAnswerId
    ensures db.Valid()
    ensures completed == !fails
    ensures fails ==> db.studentTests == old(db.studentTests)
                      && db.studentAnswers == saved && db.nextAnswerId == savedNext
    ensures !fails ==> db.studentTests == Complete(old(db.studentTests), studentTestId, studentId, score, now)
                       && db.studentAnswers == old(db.studentAnswers) && db.nextAnswerId == old(db.nextAnswerId)
  {
    if fails {
      db.studentAnswers, db.nextAnswerId := saved, savedNext;
      return false;
    }
    CompleteSession(db, studentTestId, studentId, score, now);
    completed := true;
  }

  /** The answer-row inserts of `submitTest`, statements 1 .. |recs| of its
      transaction; a failing statement rolls the answer table back. */
  method InsertAnswers(db: Database, recs: seq<StudentAnswer>, failAt: Option<nat>) returns (ok: bool)
    requires db.Valid() && !Aborts(failAt, 1)
    modifies db`studentAnswers, db`nextAnswerId
    ensures db.Valid()
    ensures ok <==> !Aborts(failAt, |recs| + 1)
    ensures ok ==> db.studentAnswers == InsertAll(old(db.studentAnswers), old(db.nextAnswerId), recs)
                   && db.nextAnswerId == old(db.nextAnswerId) + |recs|
    ensures !ok ==> db.studentAnswers == old(db.studentAnswers) && db.nextAnswerId == old(db.nextAnswerId)
  {
    var savedAnswers, savedNext := db.studentAnswers, db.nextAnswerId;
    var k := 0;
    while k < |recs|
      invariant 0 <= k <= |recs|
      invariant !Aborts(failAt, k + 1)
      invariant db.studentAnswers == InsertAll(savedAnswers, savedNext, recs[..k])
      invariant db.nextAnswerId == savedNext + k
    {
      if failAt == Some(k + 1) {
        db.studentAnswers, db.nextAnswerId := savedAnswers, savedNext;
        return false;
      }
      assert recs[..k + 1][..k] == recs[..k];
      db.studentAnswers := Insert(db.studentAnswers, db.nextAnswerId, recs[k]);
      db.nextAnswerId := db.nextAnswerId + 1;
      k := k + 1;
    }
    assert recs[..k] == recs;
    InsertAllAscending(savedAnswers, savedNext, recs);
    ok := true;
  }

  /** `submitTest`: grade the answers, insert one answer row per answer to a
      known question, then record the score and complete the session, all in
      one transaction; statement `failAt` failing, or grading throwing,
      rolls everything back. */
  method SubmitTest(db: Database, user: Principal, studentTestId: int, answers: Option<seq<SubmittedAnswer>>,
                    now: int, failAt: Option<nat>) returns (r: SubmitResponse)
    requires db.Valid()
    modifies db`studentTests, db`studentAnswers, db`nextAnswerId
    ensures db.Valid()
    ensures NoAnswers(answers) ==>
      && db.studentAnswers == old(db.studentAnswers) && db.nextAnswerId == old(db.nextAnswerId)
      && if Aborts(failAt, 1) then r == ServerError && db.studentTests == old(db.studentTests)
         else r == Submitted(0) && db.studentTests == Complete(old(db.studentTests), studentTestId, user.id, 0, now)
    ensures !NoAnswers(answers) ==>
      var g := Graded(db.questions, answers.value);
      if g.Failure? || Aborts(failAt, |g.value| + 2) then
        r == ServerError && db.studentTests == old(db.studentTests)
        && db.studentAnswers == old(db.studentAnswers) && db.nextAnswerId == old(db.nextAnswerId)
      else
        r == Submitted(Score(g.value))
        && db.studentAnswers == InsertAll(old(db.studentAnswers), old(db.nextAnswerId),
                                          AnswerRecords(studentTestId, g.value, user.collegeId))
        && db.studentTests == Complete(old(db.studentTests), studentTestId, user.id, Score(g.value), now)
  {
    if NoAnswers(answers) {
      // the only statement is the closing update
      if Aborts(failAt, 1) {
        return ServerError;
      }
      CompleteSession(db, studentTestId, user.id, 0, now);
      return Submitted(0);
    }
    r := SubmitGraded(db, user, studentTestId, answers.value, now, failAt);
  }

  /** `submitTest` with at least one answer. */
  method SubmitGraded(db: Database, user: Principal, studentTestId: int, answers: seq<SubmittedAnswer>,
                      now: int, failAt: Option<nat>) returns (r: SubmitResponse)
    requires db.Valid()
    modifies db`studentTests, db`studentAnswers, db`nextAnswerId
    ensures db.Valid()
    ensures var g := Graded(db.questions, answers);
      if g.Failure? || Aborts(failAt, |g.value| + 2) then
        r == ServerError && db.studentTests == old(db.studentTests)
        && db.studentAnswers == old(db.studentAnswers) && db.nextAnswerId == old(db.nextAnswerId)
      else
        r == Submitted(Score(g.value))
        && db.studentAnswers == InsertAll(old(db.studentAnswers), old(db.nextAnswerId),
                                          AnswerRecords(studentTestId, g.value, user.collegeId))
        && db.studentTests == Complete(old(db.studentTests), studentTestId, user.id, Score(g.value), now)
  {
    ghost var g := Graded(db.questions, answers);
    // statement 0 loads the answered questions
    if Aborts(failAt, 1) {
      assert g.Failure? || Aborts(failAt, |g.value| + 2);
      r := ServerError;
    } else {
      var graded := GradeAnswers(db.questions, answers);
      if graded.Failure? {
        r := ServerError;
      } else {
        assert graded.value.0 == g.value;
        r := RecordGraded(db, user, studentTestId, graded.value.0, graded.value.1, now, failAt);
      }
    }
  }

  /** Statements 1 .. |rows| + 1 of `submitTest`'s transaction: the answer
      rows, then the completed session; any failure leaves all three
      fields as they were. */
  method RecordGraded(db: Database, user: Principal, studentTestId: int, rows: seq<GradedAnswer>, score: nat,
                      now: int, failAt: Option<nat>) returns (r: SubmitResponse)
    requires db.Valid() && !Aborts(failAt, 1) && score == Score(rows)
    modifies db`studentTests, db`studentAnswers, db`nextAnswerId
    ensures db.Valid()
    ensures Aborts(failAt, |rows| + 2) ==>
      r == ServerError && db.studentTests == old(db.studentTests)
      && db.studentAnswers == old(db.studentAnswers) && db.nextAnswerId == old(db.nextAnswerId)
    ensures !Aborts(failAt, |rows| + 2) ==>
      r == Submitted(score)
      && db.studentAnswers == InsertAll(old(db.studentAnswers), old(db.nextAnswerId),
                                        AnswerRecords(studentTestId, rows, user.collegeId))
      && db.studentTests == Complete(old(db.studentTests), studentTestId, user.id, score, now)
  {
    var savedAnswers, savedNext := db.studentAnswers, db.nextAnswerId;
    var recs := AnswerRecords(studentTestId, rows, user.collegeId);
    // statements 1 .. |rows| insert the answer rows
    var inserted := InsertAnswers(db, recs, failAt);
    if !inserted {
      assert Aborts(failAt, |rows| + 2);
      r := ServerError;
    } else {
      // statement |rows| + 1 completes the session
      var completed := FinishSubmission(db, savedAnswers, savedNext, studentTestId, user.id, score, now,
                                        failAt == Some(|rows| + 1));
      r := if completed then Submitted(score) else ServerError;
    }
  }

  lemma CompleteValid(sts: seq<Row<StudentTest>>, studentTestId: int, studentId: nat, score: nat, now: int,
                      next: nat, nextTestId: nat)
    requires TableValid(sts, next) && SessionsWellFormed(sts, nextTestId)
    ensures TableValid(Complete(sts, studentTestId, studentId, score, now), next)
    ensures SessionsWellFormed(Complete(sts, studentTestId, studentId, score, now), nextTestId)
  {
  }

  /** An empty submission completes the session with score 0: it never
      stays `inprogress`. */
  lemma EmptySubmissionCompletes(sts: seq<Row<StudentTest>>, studentTestId: int, studentId: nat, now: int, i: nat)
    requires i < |sts| && sts[i].id == studentTestId && sts[i].rec.studentId == studentId
    ensures var after := Complete(sts, studentTestId, studentId, 0, now);
      after[i].rec.status == Completed && after[i].rec.score == Some(0)
  {
  }
}
