/** The admin side of the server: question management, scheduling a test
    for the admin's college, the results queries and student approval. Every
    statement is scoped to the calling admin's `college_id`. */
module AdminController {
  import opened Wrappers
  import opened Table
  import opened Schema
  import opened Http
  import StudentController

  /** The question columns of a request body; absent fields are `None`. */
  datatype QuestionBody = QuestionBody(
    text: string, kind: Option<string>, language: Option<string>, options: Option<seq<string>>,
    correctOption: Option<string>, solution: Option<string>, expectedOutput: Option<string>)

  /** A question row with the body's seven columns as sent. */
  function Stored(b: QuestionBody, createdBy: nat, college: nat): Question {
    Question(b.text, b.kind, b.language, b.options, b.correctOption, b.solution, b.expectedOutput, createdBy, college)
  }

  // ---------------------------------------------------------------- questions

  /** `addQuestion`: one row, owned by the admin and the admin's college. */
  method AddQuestion(db: Database, user: Principal, body: QuestionBody) returns (r: Reply)
    requires db.Valid()
    modifies db`questions, db`nextQuestionId
    ensures db.Valid()
    ensures !Truthy(user.collegeId) ==>
      r == BadRequest && db.questions == old(db.questions) && db.nextQuestionId == old(db.nextQuestionId)
    ensures Truthy(user.collegeId) ==>
      && r == Created(old(db.nextQuestionId))
      && db.questions == Insert(old(db.questions), old(db.nextQuestionId), Stored(body, user.id, user.collegeId.value))
      && db.nextQuestionId == old(db.nextQuestionId) + 1
  {
    if !Truthy(user.collegeId) {
      return BadRequest;
    }
    var q := Stored(body, user.id, user.collegeId.value);
    InsertAscending(db.questions, db.nextQuestionId, q);
    r := Created(db.nextQuestionId);
    db.questions := Insert(db.questions, db.nextQuestionId, q);
    db.nextQuestionId := db.nextQuestionId + 1;
  }

  /** `x || null` on an optional text column: an empty string is stored as NULL. */
  function OrNull(s: Option<string>): (r: Option<string>)
    ensures r.Some? <==> Given(s)
    ensures r.Some? ==> r == s
  {
    if Given(s) then s else None
  }

  /** The rows of `addQuestionsBulk`, one per body and in order: text, type
      and options as sent, empty optional texts as NULL, and the admin and
      college on every row. */
  function BulkRecords(bodies: seq<QuestionBody>, createdBy: nat, college: nat): (r: seq<Question>)
    ensures |r| == |bodies|
    ensures forall k :: 0 <= k < |bodies| ==>
      && r[k].createdBy == createdBy && r[k].collegeId == college
      && r[k].text == bodies[k].text && r[k].kind == bodies[k].kind && r[k].options == bodies[k].options
    ensures forall k :: 0 <= k < |bodies| ==>
      && (r[k].language.Some? <==> Given(bodies[k].language))
      && (r[k].correctOption.Some? <==> Given(bodies[k].correctOption))
      && (r[k].solution.Some? <==> Given(bodies[k].solution))
      && (r[k].expectedOutput.Some? <==> Given(bodies[k].expectedOutput))
    ensures forall k :: 0 <= k < |bodies| ==>
      r[k].language != Some("") && r[k].correctOption != Some("")
      && r[k].solution != Some("") && r[k].expectedOutput != Some("")
  {
    seq(|bodies|, k requires 0 <= k < |bodies| =>
      var b := bodies[k];
      Question(b.text, b.kind, OrNull(b.language), b.options, OrNull(b.correctOption),
               OrNull(b.solution), OrNull(b.expectedOutput), createdBy, college))
  }

  /** `addQuestionsBulk`: no college, then no (or an empty) list, is a 400;
      otherwise one multi-row insert in a transaction, all rows or none. */
  method AddQuestionsBulk(db: Database, user: Principal, questions: Option<seq<QuestionBody>>, failAt: Option<nat>)
    returns (r: Reply)
    requires db.Valid()
    modifies db`questions, db`nextQuestionId
    ensures db.Valid()
    ensures !Truthy(user.collegeId) ==> r == BadRequest
    ensures Truthy(user.collegeId) && (questions.None? || questions.value == []) ==> r == BadRequest
    ensures r != Added(|questions.GetOr([])|) ==>
      db.questions == old(db.questions) && db.nextQuestionId == old(db.nextQuestionId)
    ensures Truthy(user.collegeId) && questions.Some? && questions.value != [] ==>
      if Aborts(failAt, 1) then r == ServerError
      else
        && r == Added(|questions.value|)
        && db.questions == InsertAll(old(db.questions), old(db.nextQuestionId),
                                     BulkRecords(questions.value, user.id, user.collegeId.value))
        && db.nextQuestionId == old(db.nextQuestionId) + |questions.value|
  {
    if !Truthy(user.collegeId) {
      return BadRequest;
    }
    if questions.None? || questions.value == [] {
      return BadRequest;
    }
    if Aborts(failAt, 1) {
      return ServerError;
    }
    var recs := BulkRecords(questions.value, user.id, user.collegeId.value);
    InsertAllAscending(db.questions, db.nextQuestionId, recs);
    db.questions := InsertAll(db.questions, db.nextQuestionId, recs);
    db.nextQuestionId := db.nextQuestionId + |recs|;
    r := Added(|recs|);
  }

  /** `ORDER BY id DESC`. */
  function RowId<T>(): Row<T> -> int {
    (x: Row<T>) => x.id
  }

  function InCollege(college: nat): Row<Question> -> bool {
    (q: Row<Question>) => q.rec.collegeId == college
  }

  /** `getQuestions`: exactly the college's questions, newest first; an admin
      without a college gets `[]`. */
  function GetQuestions(questions: seq<Row<Question>>, user: Principal): (r: seq<Row<Question>>)
    ensures !Truthy(user.collegeId) ==> r == []
    ensures forall x :: x in r <==> Truthy(user.collegeId) && x in questions && x.rec.collegeId == user.collegeId.value
    ensures Truthy(user.collegeId) ==> multiset(r) == multiset(Select(questions, InCollege(user.collegeId.value)))
    ensures SortedDesc(r, RowId())
  {
    if !Truthy(user.collegeId) then []
    else
      var own := Select(questions, InCollege(user.collegeId.value));
      var r := SortDesc(own, RowId());
      assert forall x :: x in r <==> x in multiset(r);
      assert forall x :: x in own <==> x in multiset(own);
      r
  }

  /** `WHERE id = ? AND college_id = ?` on `questions`. */
  function OwnQuestion(id: int, college: Option<nat>): Row<Question> -> bool {
    (q: Row<Question>) => q.id == id && SqlEq(Some(q.rec.collegeId), college)
  }

  function Overwrite(b: QuestionBody): Question -> Question {
    (q: Question) => Stored(b, q.createdBy, q.collegeId)
  }

  /** The `UPDATE` of `updateQuestion`: all seven columns of the admin's row
      with that id are overwritten from the body, absent fields included;
      rows of other colleges and other ids are untouched. */
  function EditQuestion(questions: seq<Row<Question>>, id: int, college: Option<nat>, b: QuestionBody)
    : (r: seq<Row<Question>>)
    ensures |r| == |questions|
    ensures forall i :: 0 <= i < |questions| ==>
      r[i].id == questions[i].id && r[i].rec.collegeId == questions[i].rec.collegeId
      && r[i].rec.createdBy == questions[i].rec.createdBy
    ensures forall i :: 0 <= i < |questions| && !SqlEq(Some(questions[i].rec.collegeId), college) ==>
      r[i] == questions[i]
    ensures forall i :: 0 <= i < |questions| && questions[i].id != id ==> r[i] == questions[i]
    ensures forall i :: 0 <= i < |questions| && OwnQuestion(id, college)(questions[i]) ==>
      r[i].rec == Stored(b, questions[i].rec.createdBy, questions[i].rec.collegeId)
    ensures Count(questions, OwnQuestion(id, college)) == 0 ==> r == questions
  {
    Update(questions, OwnQuestion(id, college), Overwrite(b))
  }

  /** `updateQuestion`: 404 when no row of the admin's college has that id. */
  method UpdateQuestion(db: Database, user: Principal, id: int, body: QuestionBody) returns (r: Reply)
    requires db.Valid()
    modifies db`questions
    ensures db.Valid()
    ensures r == (if Count(old(db.questions), OwnQuestion(id, user.collegeId)) == 0 then NotFound else Ok)
    ensures db.questions == EditQuestion(old(db.questions), id, user.collegeId, body)
  {
    var affected := Count(db.questions, OwnQuestion(id, user.collegeId));
    UpdateAscending(db.questions, OwnQuestion(id, user.collegeId), Overwrite(body));
    UpdateBelow(db.questions, OwnQuestion(id, user.collegeId), Overwrite(body), db.nextQuestionId);
    db.questions := EditQuestion(db.questions, id, user.collegeId, body);
    r := if affected == 0 then NotFound else Ok;
  }

  /** The `DELETE` of `deleteQuestion`: only the admin's row with that id goes. */
  function DropQuestion(questions: seq<Row<Question>>, id: int, college: Option<nat>): (r: seq<Row<Question>>)
    ensures forall x :: x in r <==> x in questions && !(x.id == id && SqlEq(Some(x.rec.collegeId), college))
    ensures |r| == |questions| - Count(questions, OwnQuestion(id, college))
  {
    Delete(questions, OwnQuestion(id, college))
  }

  /** `deleteQuestion`: 404 when no row of the admin's college has that id. */
  method DeleteQuestion(db: Database, user: Principal, id: int) returns (r: Reply)
    requires db.Valid()
    modifies db`questions
    ensures db.Valid()
    ensures r == (if Count(old(db.questions), OwnQuestion(id, user.collegeId)) == 0 then NotFound else Ok)
    ensures db.questions == DropQuestion(old(db.questions), id, user.collegeId)
  {
    var affected := Count(db.questions, OwnQuestion(id, user.collegeId));
    DeleteAscending(db.questions, OwnQuestion(id, user.collegeId));
    DeleteBelow(db.questions, OwnQuestion(id, user.collegeId), db.nextQuestionId);
    db.questions := DropQuestion(db.questions, id, user.collegeId);
    r := if affected == 0 then NotFound else Ok;
  }

  /** A question just added is listed for its college. */
  lemma AddedQuestionListed(questions: seq<Row<Question>>, next: nat, body: QuestionBody, user: Principal)
    requires Truthy(user.collegeId)
    ensures Row(next, Stored(body, user.id, user.collegeId.value))
            in GetQuestions(Insert(questions, next, Stored(body, user.id, user.collegeId.value)), user)
  {
    var t := Insert(questions, next, Stored(body, user.id, user.collegeId.value));
    assert t[|questions|] in t;
  }

  /** After a delete that found the row, no listed question has that id. */
  lemma DeletedQuestionUnlisted(questions: seq<Row<Question>>, id: int, user: Principal)
    requires Truthy(user.collegeId)
    ensures forall x :: x in GetQuestions(DropQuestion(questions, id, user.collegeId), user) ==> x.id != id
  {
  }

  /** An edit by one college leaves another college's question list as it was. */
  lemma EditInvisibleToOtherColleges(questions: seq<Row<Question>>, id: int, admin: Principal,
                                     b: QuestionBody, other: Principal)
    requires admin.collegeId != other.collegeId
    ensures GetQuestions(EditQuestion(questions, id, admin.collegeId, b), other) == GetQuestions(questions, other)
  {
    var edited := EditQuestion(questions, id, admin.collegeId, b);
    if Truthy(other.collegeId) {
      var c := other.collegeId.value;
      SelectUnchanged(questions, edited, InCollege(c));
    }
  }

  /** Rows the filter keeps are the same in both tables, position by position,
      so the filter selects the same rows. */
  lemma {:induction false} SelectUnchanged(t: seq<Row<Question>>, u: seq<Row<Question>>, p: Row<Question> -> bool)
    requires |t| == |u|
    requires forall i :: 0 <= i < |t| ==> p(t[i]) == p(u[i])
    requires forall i :: 0 <= i < |t| && p(t[i]) ==> t[i] == u[i]
    ensures Select(t, p) == Select(u, p)
  {
    if t != [] {
      SelectUnchanged(t[1..], u[1..], p);
    }
  }

  // -------------------------------------------------------------- scheduling

  /** `WHERE role = 'student' AND status = 'approved' AND college_id = ?`. */
  function ApprovedIn(college: nat): Row<User> -> bool {
    (u: Row<User>) => u.rec.role == Student && u.rec.status == Approved && SqlEq(u.rec.collegeId, Some(college))
  }

  /** The sessions `scheduleTest` creates: one `scheduled` session of the new
      test for every student approved in the college at that moment, and for
      no one else. */
  function FanOut(users: seq<Row<User>>, college: nat, testId: nat): (r: seq<StudentTest>)
    ensures |r| <= |users|
    ensures forall k :: 0 <= k < |r| ==> r[k] == StudentTest(r[k].studentId, testId, Scheduled, None, None, None)
  {
    var s := Select(users, ApprovedIn(college));
    seq(|s|, k requires 0 <= k < |s| => StudentTest(s[k].id, testId, Scheduled, None, None, None))
  }

  /** Every session `scheduleTest` creates belongs to a student approved in
      the college. */
  lemma FanOutOnlyApproved(users: seq<Row<User>>, college: nat, testId: nat, k: int)
    requires 0 <= k < |FanOut(users, college, testId)|
    ensures exists u :: u in users && u.id == FanOut(users, college, testId)[k].studentId && ApprovedIn(college)(u)
  {
    var s := Select(users, ApprovedIn(college));
    var u := s[k];
    assert u in s;
    assert u in users && ApprovedIn(college)(u);
    assert FanOut(users, college, testId)[k].studentId == u.id;
  }

  /** Every student approved in the college gets a session. */
  lemma FanOutReachesApproved(users: seq<Row<User>>, college: nat, testId: nat, u: Row<User>)
    requires u in users && ApprovedIn(college)(u)
    ensures exists k :: 0 <= k < |FanOut(users, college, testId)| && FanOut(users, college, testId)[k].studentId == u.id
  {
    var s := Select(users, ApprovedIn(college));
    assert u in s;
    var k :| 0 <= k < |s| && s[k] == u;
    assert FanOut(users, college, testId)[k].studentId == u.id;
  }

  /** Users have ascending ids, so no student gets two sessions of the test. */
  lemma FanOutOnePerStudent(users: seq<Row<User>>, college: nat, testId: nat)
    requires IdsAscending(users)
    ensures var r := FanOut(users, college, testId);
      forall i, j :: 0 <= i < j < |r| ==> r[i].studentId != r[j].studentId
  {
    SelectAscending(users, ApprovedIn(college));
  }

  /** One `test_questions` link per supplied id, in order. */
  function QuestionLinks(testId: nat, ids: Option<seq<int>>): (r: seq<TestQuestion>)
    ensures |r| == |ids.GetOr([])|
    ensures forall k :: 0 <= k < |r| ==> r[k].testId == testId && r[k].questionId == ids.value[k]
  {
    if ids.None? then []
    else seq(|ids.value|, k requires 0 <= k < |ids.value| => TestQuestion(testId, ids.value[k]))
  }

  /** The statements of the `scheduleTest` transaction: the test insert, the
      link insert when there are ids, the student query, and the session
      insert when there are students. */
  function ScheduleStatements(links: nat, sessions: nat): nat {
    2 + (if links > 0 then 1 else 0) + (if sessions > 0 then 1 else 0)
  }

  datatype ScheduleBody = ScheduleBody(title: string, durationMinutes: int, scheduledAt: int, questionIds: Option<seq<int>>)

  /** The new sessions keep one session per (student, test) and refer only to
      handed-out test ids. */
  lemma ScheduleKeepsSessionsWellFormed(sts: seq<Row<StudentTest>>, nextSt: nat, users: seq<Row<User>>,
                                        college: nat, testId: nat)
    requires SessionsWellFormed(sts, testId) && IdsAscending(users)
    ensures SessionsWellFormed(InsertAll(sts, nextSt, FanOut(users, college, testId)), testId + 1)
  {
    var fan := FanOut(users, college, testId);
    var r := InsertAll(sts, nextSt, fan);
    FanOutOnePerStudent(users, college, testId);
    forall i | 0 <= i < |r| ensures r[i].rec.testId < testId + 1 {
      if i >= |sts| {
        assert r[i] == Row(nextSt + (i - |sts|), fan[i - |sts|]);
      } else {
        assert r[i] == r[..|sts|][i];
      }
    }
    forall i, j | 0 <= i < j < |r|
      ensures r[i].rec.studentId != r[j].rec.studentId || r[i].rec.testId != r[j].rec.testId
    {
      if j >= |sts| {
        assert r[j] == Row(nextSt + (j - |sts|), fan[j - |sts|]);
        if i >= |sts| {
          assert r[i] == Row(nextSt + (i - |sts|), fan[i - |sts|]);
        } else {
          assert r[i] == r[..|sts|][i];
        }
      } else {
        assert r[i] == r[..|sts|][i] && r[j] == r[..|sts|][j];
      }
    }
  }

  /** `scheduleTest`: the test row, its question links and the sessions of
      the approved students of the admin's college, in one transaction. */
  method ScheduleTest(db: Database, user: Principal, body: ScheduleBody, failAt: Option<nat>) returns (r: Reply)
    requires db.Valid()
    modifies db`tests, db`nextTestId, db`testQuestions, db`studentTests, db`nextStudentTestId
    ensures db.Valid()
    ensures r.Created? || r == BadRequest || r == ServerError
    ensures !r.Created? ==>
      && db.tests == old(db.tests) && db.nextTestId == old(db.nextTestId)
      && db.testQuestions == old(db.testQuestions)
      && db.studentTests == old(db.studentTests) && db.nextStudentTestId == old(db.nextStudentTestId)
    ensures r == BadRequest <==> !Truthy(user.collegeId)
    ensures Truthy(user.collegeId) ==>
      var links := QuestionLinks(old(db.nextTestId), body.questionIds);
      var fan := FanOut(old(db.users), user.collegeId.value, old(db.nextTestId));
      (r == ServerError <==> Aborts(failAt, ScheduleStatements(|links|, |fan|)))
      && (r.Created? ==>
        && r.id == old(db.nextTestId)
        && db.tests == Insert(old(db.tests), old(db.nextTestId),
                              Test(body.title, body.durationMinutes, body.scheduledAt, user.id, user.collegeId.value))
        && db.nextTestId == old(db.nextTestId) + 1
        && db.testQuestions == old(db.testQuestions) + links
        && db.studentTests == InsertAll(old(db.studentTests), old(db.nextStudentTestId), fan)
        && db.nextStudentTestId == old(db.nextStudentTestId) + |fan|)
  {
    if !Truthy(user.collegeId) {
      return BadRequest;
    }
    var testId := db.nextTestId;
    var t := Test(body.title, body.durationMinutes, body.scheduledAt, user.id, user.collegeId.value);
    var created := ScheduleInCollege(db, t, body.questionIds, failAt);
    r := if created then Created(testId) else ServerError;
  }

  /** The transaction of `scheduleTest` for an admin with a college. */
  method ScheduleInCollege(db: Database, t: Test, ids: Option<seq<int>>, failAt: Option<nat>) returns (created: bool)
    requires db.Valid()
    modifies db`tests, db`nextTestId, db`testQuestions, db`studentTests, db`nextStudentTestId
    ensures db.Valid()
    ensures var links := QuestionLinks(old(db.nextTestId), ids);
      var fan := FanOut(old(db.users), t.collegeId, old(db.nextTestId));
      created == !Aborts(failAt, ScheduleStatements(|links|, |fan|))
    ensures !created ==>
      && db.tests == old(db.tests) && db.nextTestId == old(db.nextTestId)
      && db.testQuestions == old(db.testQuestions)
      && db.studentTests == old(db.studentTests) && db.nextStudentTestId == old(db.nextStudentTestId)
    ensures created ==>
      && db.tests == Insert(old(db.tests), old(db.nextTestId), t)
      && db.nextTestId == old(db.nextTestId) + 1
      && db.testQuestions == old(db.testQuestions) + QuestionLinks(old(db.nextTestId), ids)
      && db.studentTests == InsertAll(old(db.studentTests), old(db.nextStudentTestId),
                                      FanOut(old(db.users), t.collegeId, old(db.nextTestId)))
      && db.nextStudentTestId == old(db.nextStudentTestId) + |FanOut(old(db.users), t.collegeId, old(db.nextTestId))|
  {
    // The statements work on the transaction's own view of the tables;
    // `commit` publishes it, a failing statement discards it.
    var testId := db.nextTestId;
    var links := QuestionLinks(testId, ids);
    var fan := FanOut(db.users, t.collegeId, testId);
    ghost var n := ScheduleStatements(|links|, |fan|);
    // statement 0: the test row
    if failAt == Some(0) {
      assert Aborts(failAt, n);
      return false;
    }
    var stmt := 1;
    // the question links, when ids were sent
    if |links| > 0 {
      if failAt == Some(stmt) {
        assert Aborts(failAt, n);
        return false;
      }
      stmt := stmt + 1;
    }
    // the approved students of the college
    if failAt == Some(stmt) {
      assert Aborts(failAt, n);
      return false;
    }
    stmt := stmt + 1;
    // their sessions, when there are any
    if |fan| > 0 {
      if failAt == Some(stmt) {
        assert Aborts(failAt, n);
        return false;
      }
      stmt := stmt + 1;
    }
    assert stmt == n && !Aborts(failAt, n);
    CommitSchedule(db, t, links, fan);
    created := true;
  }

  /** The commit of `scheduleTest`: the test, its links and its sessions
      become visible together. */
  method CommitSchedule(db: Database, t: Test, links: seq<TestQuestion>, fan: seq<StudentTest>)
    requires db.Valid() && fan == FanOut(db.users, t.collegeId, db.nextTestId)
    modifies db`tests, db`nextTestId, db`testQuestions, db`studentTests, db`nextStudentTestId
    ensures db.Valid()
    ensures db.tests == Insert(old(db.tests), old(db.nextTestId), t) && db.nextTestId == old(db.nextTestId) + 1
    ensures db.testQuestions == old(db.testQuestions) + links
    ensures db.studentTests == InsertAll(old(db.studentTests), old(db.nextStudentTestId), fan)
    ensures db.nextStudentTestId == old(db.nextStudentTestId) + |fan|
  {
    var testId := db.nextTestId;
    ScheduleValid(db.tests, testId, db.studentTests, db.nextStudentTestId, db.users, t, fan);
    db.tests, db.nextTestId := Insert(db.tests, testId, t), testId + 1;
    db.testQuestions := db.testQuestions + links;
    db.studentTests, db.nextStudentTestId := InsertAll(db.studentTests, db.nextStudentTestId, fan), db.nextStudentTestId + |fan|;
  }

  /** The new test row and its sessions keep both tables valid. */
  lemma ScheduleValid(tests: seq<Row<Test>>, nextTestId: nat, sts: seq<Row<StudentTest>>, nextSt: nat,
                      users: seq<Row<User>>, t: Test, fan: seq<StudentTest>)
    requires TableValid(tests, nextTestId) && TableValid(sts, nextSt) && SessionsWellFormed(sts, nextTestId)
    requires IdsAscending(users) && fan == FanOut(users, t.collegeId, nextTestId)
    ensures TableValid(Insert(tests, nextTestId, t), nextTestId + 1)
    ensures TableValid(InsertAll(sts, nextSt, fan), nextSt + |fan|)
    ensures SessionsWellFormed(InsertAll(sts, nextSt, fan), nextTestId + 1)
  {
    InsertAscending(tests, nextTestId, t);
    InsertAllAscending(sts, nextSt, fan);
    ScheduleKeepsSessionsWellFormed(sts, nextSt, users, t.collegeId, nextTestId);
  }

  // ----------------------------------------------------------------- results

  /** One row of `getTestResults`. */
  datatype ResultRow = ResultRow(
    sessionId: nat, studentId: nat, name: string, email: string,
    score: Option<nat>, status: SessionStatus, submittedAt: Option<int>)

  /** `ORDER BY st.score DESC`; MySQL puts NULL last in descending order. */
  function ScoreKey(): ResultRow -> int {
    (x: ResultRow) => if x.score.Some? then x.score.value else -1
  }

  predicate Reported(st: Row<StudentTest>, users: seq<Row<User>>, tests: seq<Row<Test>>, testId: int, college: Option<nat>) {
    st.rec.testId == testId && st.rec.status == Completed
    && HasId(users, st.rec.studentId) && StudentController.TestInCollege(tests, testId, college)
  }

  /** The join of `getTestResults`, in table order: the completed sessions of
      the test, when the test belongs to the admin's college. */
  function CompletedIn(sts: seq<Row<StudentTest>>, users: seq<Row<User>>, tests: seq<Row<Test>>,
                       testId: int, college: Option<nat>): seq<ResultRow>
  {
    if sts == [] then []
    else
      var st := sts[0];
      var u := FindById(users, st.rec.studentId);
      var rest := CompletedIn(sts[1..], users, tests, testId, college);
      if Reported(st, users, tests, testId, college) && u.Some? then
        [ResultRow(st.id, st.rec.studentId, u.value.rec.name, u.value.rec.email, st.rec.score, st.rec.status, st.rec.submittedAt)]
        + rest
      else rest
  }

  /** Each result row is a reported session joined with its student. */
  lemma {:induction false} CompletedInSound(sts: seq<Row<StudentTest>>, users: seq<Row<User>>, tests: seq<Row<Test>>,
                                            testId: int, college: Option<nat>)
    ensures forall x :: x in CompletedIn(sts, users, tests, testId, college) ==> exists st, u :: (st in sts && u in users
      && Reported(st, users, tests, testId, college) && u.id == st.rec.studentId
      && x == ResultRow(st.id, st.rec.studentId, u.rec.name, u.rec.email, st.rec.score, st.rec.status, st.rec.submittedAt))
  {
    if sts != [] {
      CompletedInSound(sts[1..], users, tests, testId, college);
      assert forall x :: x in sts[1..] ==> x in sts;
      var u := FindById(users, sts[0].rec.studentId);
      if u.Some? {
        assert u.value in users;
      }
    }
  }

  /** The rows of the later sessions follow the first session's row, if any. */
  lemma CompletedInTail(sts: seq<Row<StudentTest>>, users: seq<Row<User>>, tests: seq<Row<Test>>,
                        testId: int, college: Option<nat>)
    requires sts != []
    ensures var r, rest := CompletedIn(sts, users, tests, testId, college), CompletedIn(sts[1..], users, tests, testId, college);
      r == rest || (r != [] && r[1..] == rest)
  {
  }

  /** Every completed session of a test of the admin's college is reported. */
  lemma {:induction false} CompletedSessionReported(sts: seq<Row<StudentTest>>, users: seq<Row<User>>,
                                                    tests: seq<Row<Test>>, testId: int, college: Option<nat>, i: nat)
    requires i < |sts| && Reported(sts[i], users, tests, testId, college)
    ensures exists x :: x in CompletedIn(sts, users, tests, testId, college) && x.sessionId == sts[i].id
  {
    var r := CompletedIn(sts, users, tests, testId, college);
    if i > 0 {
      assert sts[1..][i - 1] == sts[i];
      CompletedSessionReported(sts[1..], users, tests, testId, college, i - 1);
      var rest := CompletedIn(sts[1..], users, tests, testId, college);
      var x :| x in rest && x.sessionId == sts[i].id;
      CompletedInTail(sts, users, tests, testId, college);
      var k :| 0 <= k < |rest| && rest[k] == x;
      if r != rest {
        assert r[k + 1] == x;
      }
      assert x in r;
    } else {
      assert r[0].sessionId == sts[0].id;
    }
  }

  /** `getTestResults`: only completed sessions, only for a test of the
      admin's college, highest score first. */
  function GetTestResults(sts: seq<Row<StudentTest>>, users: seq<Row<User>>, tests: seq<Row<Test>>,
                          testId: int, college: Option<nat>): (r: seq<ResultRow>)
    ensures SortedDesc(r, ScoreKey())
    ensures forall x :: x in r ==> x.status == Completed && exists st :: (st in sts
      && st.id == x.sessionId && st.rec.studentId == x.studentId && st.rec.score == x.score
      && Reported(st, users, tests, testId, college))
    ensures !StudentController.TestInCollege(tests, testId, college) ==> r == []
    ensures multiset(r) == multiset(CompletedIn(sts, users, tests, testId, college))
  {
    var rows := CompletedIn(sts, users, tests, testId, college);
    CompletedInSound(sts, users, tests, testId, college);
    var r := SortDesc(rows, ScoreKey());
    assert forall x :: x in r <==> x in multiset(r);
    assert forall x :: x in rows <==> x in multiset(rows);
    assert !StudentController.TestInCollege(tests, testId, college) ==> rows == [] by {
      if rows != [] {
        assert rows[0] in rows;
      }
    }
    r
  }

  /** An admin of another college never sees results of this college's test. */
  lemma ResultsInvisibleToOtherColleges(sts: seq<Row<StudentTest>>, users: seq<Row<User>>, tests: seq<Row<Test>>,
                                        testId: int, college: Option<nat>, i: nat)
    requires IdsAscending(tests) && i < |tests| && tests[i].id == testId
    requires college != Some(tests[i].rec.collegeId)
    ensures GetTestResults(sts, users, tests, testId, college) == []
  {
    forall j | 0 <= j < |tests| && tests[j].id == testId ensures !SqlEq(Some(tests[j].rec.collegeId), college) {
      AscendingIdsUnique(tests, i, j);
    }
  }

  datatype StudentInfo = StudentInfo(name: string, email: string, title: string, score: Option<nat>)

  /** One answer row of the details view: the question with its key, and the
      answer; NULL options are shown as `[]`. */
  datatype AnswerDetail = AnswerDetail(
    questionId: nat, text: string, kind: Option<string>, options: seq<string>,
    correctOption: Option<string>, solution: Option<string>, answerText: string, isCorrect: bool)

  datatype Details = DetailsNotFound | Details(info: StudentInfo, answers: seq<AnswerDetail>)

  /** `WHERE st.test_id = ? AND st.student_id = ?`. */
  function PairIs(testId: int, studentId: int): Row<StudentTest> -> bool {
    (st: Row<StudentTest>) => st.rec.testId == testId && st.rec.studentId == studentId
  }

  /** `JOIN tests t ON st.test_id = t.id ... AND t.college_id = ?`. */
  function TestOfCollege(testId: int, college: Option<nat>): Row<Test> -> bool {
    (t: Row<Test>) => t.id == testId && SqlEq(Some(t.rec.collegeId), college)
  }

  /** The columns of one details row: the question with its key, and the
      answer. */
  function Detail(q: Row<Question>, sa: Row<StudentAnswer>): AnswerDetail {
    AnswerDetail(q.id, q.rec.text, q.rec.kind, q.rec.options.GetOr([]), q.rec.correctOption, q.rec.solution,
                 sa.rec.answerText, sa.rec.isCorrect)
  }

  /** The second details query, in `student_answers` order: the answers of
      the student's sessions of the test whose question still exists. It has
      no college filter of its own. */
  function AnswersOf(sas: seq<Row<StudentAnswer>>, sts: seq<Row<StudentTest>>, questions: seq<Row<Question>>,
                     testId: int, studentId: int): seq<AnswerDetail>
  {
    if sas == [] then []
    else
      var sa := sas[0];
      var st := FindById(sts, sa.rec.studentTestId);
      var q := FindById(questions, sa.rec.questionId);
      var rest := AnswersOf(sas[1..], sts, questions, testId, studentId);
      if st.Some? && st.value.rec.testId == testId && st.value.rec.studentId == studentId && q.Some? then
        [Detail(q.value, sa)] + rest
      else rest
  }

  /** Detail row `x` shows answer row `sa` of session `st`, a session of the
      student for the test, joined with its question `q`. */
  predicate ShowsAnswer(x: AnswerDetail, sa: Row<StudentAnswer>, st: Row<StudentTest>, q: Row<Question>,
                        testId: int, studentId: int) {
    && sa.rec.studentTestId == st.id && st.rec.testId == testId && st.rec.studentId == studentId
    && sa.rec.questionId == q.id && x == Detail(q, sa)
  }

  /** At most one detail row per answer row, and each is an answer of one of
      that student's sessions of the test, with its question's columns. */
  lemma {:induction false} AnswersOfSound(sas: seq<Row<StudentAnswer>>, sts: seq<Row<StudentTest>>,
                                          questions: seq<Row<Question>>, testId: int, studentId: int)
    ensures |AnswersOf(sas, sts, questions, testId, studentId)| <= |sas|
    ensures forall x :: x in AnswersOf(sas, sts, questions, testId, studentId) ==>
      exists sa, st, q :: sa in sas && st in sts && q in questions && ShowsAnswer(x, sa, st, q, testId, studentId)
  {
    if sas != [] {
      var r, rest := AnswersOf(sas, sts, questions, testId, studentId), AnswersOf(sas[1..], sts, questions, testId, studentId);
      AnswersOfSound(sas[1..], sts, questions, testId, studentId);
      forall x | x in r
        ensures exists sa, st, q :: sa in sas && st in sts && q in questions && ShowsAnswer(x, sa, st, q, testId, studentId)
      {
        if x in rest {
          var sa, st, q :| sa in sas[1..] && st in sts && q in questions && ShowsAnswer(x, sa, st, q, testId, studentId);
          assert sa in sas;
        } else {
          var st := FindById(sts, sas[0].rec.studentTestId);
          var q := FindById(questions, sas[0].rec.questionId);
          assert st.Some? && q.Some? && x == r[0];
          assert sas[0] in sas && ShowsAnswer(x, sas[0], st.value, q.value, testId, studentId);
        }
      }
    }
  }

  /** Every answer row of the student's session of the test whose question
      still exists is shown, with that question's columns. */
  lemma {:induction false} AnswersOfComplete(sas: seq<Row<StudentAnswer>>, sts: seq<Row<StudentTest>>,
                                             questions: seq<Row<Question>>, testId: int, studentId: int,
                                             i: nat, j: nat, k: nat)
    requires IdsAscending(sts) && IdsAscending(questions)
    requires i < |sas| && j < |sts| && k < |questions|
    requires sas[i].rec.studentTestId == sts[j].id && PairIs(testId, studentId)(sts[j])
    requires sas[i].rec.questionId == questions[k].id
    ensures Detail(questions[k], sas[i]) in AnswersOf(sas, sts, questions, testId, studentId)
  {
    var rest := AnswersOf(sas[1..], sts, questions, testId, studentId);
    if i > 0 {
      assert sas[1..][i - 1] == sas[i];
      AnswersOfComplete(sas[1..], sts, questions, testId, studentId, i - 1, j, k);
      assert Detail(questions[k], sas[i]) in rest;
    } else {
      var st := FindById(sts, sas[0].rec.studentTestId);
      var q := FindById(questions, sas[0].rec.questionId);
      assert HasId(sts, sas[0].rec.studentTestId) && HasId(questions, sas[0].rec.questionId);
      var j' :| 0 <= j' < |sts| && sts[j'] == st.value;
      var k' :| 0 <= k' < |questions| && questions[k'] == q.value;
      AscendingIdsUnique(sts, j, j');
      AscendingIdsUnique(questions, k, k');
      assert AnswersOf(sas, sts, questions, testId, studentId) == [Detail(questions[k], sas[0])] + rest;
    }
  }

  /** `getStudentTestDetails`: 404 unless the student has a session of a test
      of the admin's college. */
  function GetStudentTestDetails(sts: seq<Row<StudentTest>>, users: seq<Row<User>>, tests: seq<Row<Test>>,
                                 questions: seq<Row<Question>>, sas: seq<Row<StudentAnswer>>,
                                 testId: int, studentId: int, college: Option<nat>): (r: Details)
    ensures r.DetailsNotFound? <==>
      || !HasId(users, studentId)
      || !StudentController.TestInCollege(tests, testId, college)
      || forall i :: 0 <= i < |sts| ==> !PairIs(testId, studentId)(sts[i])
    ensures r.Details? ==> exists st :: st in sts && PairIs(testId, studentId)(st) && r.info.score == st.rec.score
    ensures r.Details? ==> exists u :: (u in users && u.id == studentId
      && r.info.name == u.rec.name && r.info.email == u.rec.email)
    ensures r.Details? ==> exists t :: t in tests && TestOfCollege(testId, college)(t) && r.info.title == t.rec.title
    ensures r.Details? ==> r.answers == AnswersOf(sas, sts, questions, testId, studentId)
  {
    var found := Find(sts, PairIs(testId, studentId));
    var u := FindById(users, studentId);
    var t := Find(tests, TestOfCollege(testId, college));
    assert t.None? <==> !StudentController.TestInCollege(tests, testId, college);
    if found.None? || u.None? || t.None? then DetailsNotFound
    else
      assert found.value in sts && t.value in tests by {
        var i :| 0 <= i < |sts| && sts[i] == found.value && PairIs(testId, studentId)(found.value);
        var j :| 0 <= j < |tests| && tests[j] == t.value && TestOfCollege(testId, college)(t.value);
      }
      Details(StudentInfo(u.value.rec.name, u.value.rec.email, t.value.rec.title, found.value.rec.score),
              AnswersOf(sas, sts, questions, testId, studentId))
  }

  // ---------------------------------------------------------------- students

  /** `WHERE id = ? AND role = 'student' AND college_id = ?` on `users`. */
  function StudentOf(id: int, college: Option<nat>): Row<User> -> bool {
    (u: Row<User>) => u.id == id && u.rec.role == Student && SqlEq(u.rec.collegeId, college)
  }

  function SetApproved(): User -> User {
    (u: User) => u.(status := Approved)
  }

  /** The `UPDATE` of `approveStudent`: only the status of the college's
      student with that id changes, to `approved`. */
  function ApproveIn(users: seq<Row<User>>, id: int, college: Option<nat>): (r: seq<Row<User>>)
    ensures |r| == |users|
    ensures forall i :: 0 <= i < |users| ==>
      r[i].id == users[i].id && r[i].rec == users[i].rec.(status := r[i].rec.status)
    ensures forall i :: 0 <= i < |users| ==>
      if StudentOf(id, college)(users[i]) then r[i].rec.status == Approved else r[i] == users[i]
  {
    Update(users, StudentOf(id, college), SetApproved())
  }

  /** The `DELETE` of `deleteStudent`: only the college's student with that id goes. */
  function RemoveStudent(users: seq<Row<User>>, id: int, college: Option<nat>): (r: seq<Row<User>>)
    ensures forall x :: x in r <==> x in users && !StudentOf(id, college)(x)
    ensures |r| == |users| - Count(users, StudentOf(id, college))
  {
    Delete(users, StudentOf(id, college))
  }

  /** `approveStudent`: 404 when the college has no student with that id. */
  method ApproveStudent(db: Database, user: Principal, id: int) returns (r: Reply)
    requires db.Valid()
    modifies db`users
    ensures db.Valid()
    ensures r == (if Count(old(db.users), StudentOf(id, user.collegeId)) == 0 then NotFound else Ok)
    ensures db.users == ApproveIn(old(db.users), id, user.collegeId)
  {
    var affected := Count(db.users, StudentOf(id, user.collegeId));
    UpdateAscending(db.users, StudentOf(id, user.collegeId), SetApproved());
    UpdateBelow(db.users, StudentOf(id, user.collegeId), SetApproved(), db.nextUserId);
    db.users := ApproveIn(db.users, id, user.collegeId);
    r := if affected == 0 then NotFound else Ok;
  }

  /** `deleteStudent`: 404 when the college has no student with that id. */
  method DeleteStudent(db: Database, user: Principal, id: int) returns (r: Reply)
    requires db.Valid()
    modifies db`users
    ensures db.Valid()
    ensures r == (if Count(old(db.users), StudentOf(id, user.collegeId)) == 0 then NotFound else Ok)
    ensures db.users == RemoveStudent(old(db.users), id, user.collegeId)
  {
    var affected := Count(db.users, StudentOf(id, user.collegeId));
    DeleteAscending(db.users, StudentOf(id, user.collegeId));
    DeleteBelow(db.users, StudentOf(id, user.collegeId), db.nextUserId);
    db.users := RemoveStudent(db.users, id, user.collegeId);
    r := if affected == 0 then NotFound else Ok;
  }

  /** A student approved before a test is scheduled gets a session of it. */
  lemma ApprovedStudentAssigned(users: seq<Row<User>>, id: int, college: nat, testId: nat, i: nat)
    requires i < |users| && StudentOf(id, Some(college))(users[i])
    ensures exists k :: (0 <= k < |FanOut(ApproveIn(users, id, Some(college)), college, testId)|
      && FanOut(ApproveIn(users, id, Some(college)), college, testId)[k].studentId == id)
  {
    var approved := ApproveIn(users, id, Some(college));
    assert approved[i] in approved && ApprovedIn(college)(approved[i]);
    FanOutReachesApproved(approved, college, testId, approved[i]);
  }

  /** A student still pending when the test is scheduled gets no session of
      it: the fan-out is a snapshot. */
  lemma PendingStudentNotAssigned(users: seq<Row<User>>, college: nat, testId: nat, i: nat)
    requires IdsAscending(users) && i < |users| && users[i].rec.status == Pending
    ensures forall k :: 0 <= k < |FanOut(users, college, testId)| ==>
      FanOut(users, college, testId)[k].studentId != users[i].id
  {
    var r := FanOut(users, college, testId);
    forall k | 0 <= k < |r| ensures r[k].studentId != users[i].id {
      FanOutOnlyApproved(users, college, testId, k);
      var u :| u in users && u.id == r[k].studentId && ApprovedIn(college)(u);
      var j :| 0 <= j < |users| && users[j] == u;
      if u.id == users[i].id {
        AscendingIdsUnique(users, i, j);
      }
    }
  }

  /** A deleted student is in no later fan-out of the college. */
  lemma DeletedStudentNotAssigned(users: seq<Row<User>>, id: int, college: nat, testId: nat)
    ensures forall k :: 0 <= k < |FanOut(RemoveStudent(users, id, Some(college)), college, testId)| ==>
      FanOut(RemoveStudent(users, id, Some(college)), college, testId)[k].studentId != id
  {
    var left := RemoveStudent(users, id, Some(college));
    forall k | 0 <= k < |FanOut(left, college, testId)| ensures FanOut(left, college, testId)[k].studentId != id {
      FanOutOnlyApproved(left, college, testId, k);
    }
  }
}
