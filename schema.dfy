/** The relational state of the server: the tables `colleges`, `users`,
    `questions`, `tests`, `test_questions`, `student_tests` and
    `student_answers`, held by one `Database` object whose fields the
    controllers update statement by statement. */
module Schema {
  import opened Wrappers
  import opened Table

  datatype Role = Master | Admin | Student

  /** `users.status`; `Unset` is the NULL that admin and master rows carry. */
  datatype AccountStatus = Pending | Approved | Unset

  /** `student_tests.status`: the exam-session state machine. */
  datatype SessionStatus = Scheduled | InProgress | Completed

  datatype College = College(name: string)

  datatype User = User(
    name: string, email: string, passwordHash: string, role: Role,
    status: AccountStatus, collegeId: Option<nat>, createdBy: Option<nat>)

  /** A question row; `kind` is the `type` column, stored as the text the
      client sent (NULL when the request had none), and `options` the
      (already decoded) JSON option list. */
  datatype Question = Question(
    text: string, kind: Option<string>, language: Option<string>,
    options: Option<seq<string>>, correctOption: Option<string>,
    solution: Option<string>, expectedOutput: Option<string>,
    createdBy: nat, collegeId: nat)

  datatype Test = Test(title: string, durationMinutes: int, scheduledAt: int, createdBy: nat, collegeId: nat)

  datatype TestQuestion = TestQuestion(testId: nat, questionId: int)

  datatype StudentTest = StudentTest(
    studentId: nat, testId: nat, status: SessionStatus,
    startedAt: Option<int>, submittedAt: Option<int>, score: Option<nat>)

  datatype StudentAnswer = StudentAnswer(
    studentTestId: int, questionId: int, answerText: string, isCorrect: bool, collegeId: Option<nat>)

  /** `req.user`: the caller as the authentication middleware reloads it from
      `users` on every request (so its college is always the current one). */
  datatype Principal = Principal(id: nat, name: string, email: string, role: Role, collegeId: Option<nat>)

  /** SQL `col = ?`: never true when either side is NULL. */
  predicate SqlEq(col: Option<nat>, param: Option<nat>) {
    col.Some? && param.Some? && col.value == param.value
  }

  /** JavaScript truthiness of an optional id (`null`, `undefined` and `0` are falsy). */
  predicate Truthy(id: Option<int>) {
    id.Some? && id.value != 0
  }

  /** JavaScript truthiness of an optional string (`""` is falsy). */
  predicate Given(s: Option<string>) {
    s.Some? && s.value != ""
  }

  predicate TableValid<T(!new)>(t: seq<Row<T>>, next: nat) {
    IdsAscending(t) && IdsBelow(t, next)
  }

  /** One session per (student, test). */
  predicate OneSessionPerPair(st: seq<Row<StudentTest>>) {
    forall i, j :: 0 <= i < j < |st| ==>
      st[i].rec.studentId != st[j].rec.studentId || st[i].rec.testId != st[j].rec.testId
  }

  /** Sessions refer only to test ids already handed out, and there is one
      session per (student, test). */
  predicate SessionsWellFormed(st: seq<Row<StudentTest>>, nextTestId: nat) {
    && (forall i :: 0 <= i < |st| ==> st[i].rec.testId < nextTestId)
    && OneSessionPerPair(st)
  }

  /** A transaction whose statement number `failAt` fails, out of the `n`
      statements a run would otherwise execute, is rolled back. */
  predicate Aborts(failAt: Option<nat>, n: nat) {
    failAt.Some? && failAt.value < n
  }

  class Database {
    var colleges: seq<Row<College>>
    var users: seq<Row<User>>
    var questions: seq<Row<Question>>
    var tests: seq<Row<Test>>
    var testQuestions: seq<TestQuestion>
    var studentTests: seq<Row<StudentTest>>
    var studentAnswers: seq<Row<StudentAnswer>>
    var nextCollegeId: nat
    var nextUserId: nat
    var nextQuestionId: nat
    var nextTestId: nat
    var nextStudentTestId: nat
    var nextAnswerId: nat

    ghost predicate Valid()
      reads this
    {
      && TableValid(colleges, nextCollegeId)
      && TableValid(users, nextUserId)
      && TableValid(questions, nextQuestionId)
      && TableValid(tests, nextTestId)
      && TableValid(studentTests, nextStudentTestId)
      && TableValid(studentAnswers, nextAnswerId)
      && SessionsWellFormed(studentTests, nextTestId)
    }

    /** An empty database; MySQL's auto-increment ids start at 1. */
    constructor ()
      ensures Valid()
      ensures colleges == [] && users == [] && questions == [] && tests == []
      ensures testQuestions == [] && studentTests == [] && studentAnswers == []
    {
      colleges, users, questions, tests := [], [], [], [];
      testQuestions, studentTests, studentAnswers := [], [], [];
      nextCollegeId, nextUserId, nextQuestionId := 1, 1, 1;
      nextTestId, nextStudentTestId, nextAnswerId := 1, 1, 1;
    }
  }
}
