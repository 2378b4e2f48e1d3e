# Multi-college exam platform — a Dafny model

This project models the core of a multi-tenant online examination platform.
A master account creates colleges and their admins. Admins manage a college's
question bank, schedule tests for the college's approved students and read
the results. Students register, are approved, begin a test (an exam session
goes `scheduled` → `inprogress` → `completed`) and submit answers, which the
server grades.

The model covers the Express controllers and the client code that feeds them:

- **Server state.** The MySQL tables are one `Schema.Database` object with a
  `seq<Row<T>>` field per table and an auto-increment counter per table.
  The controller handlers are methods that update those fields statement by
  statement. Each one carries a `Valid()` invariant: ids ascend, and there is
  one session per (student, test).
- **SQL statements.** The statements the handlers issue are pure functions
  in `Table` with SQL's meaning (`Select`, `Update`, `Delete`, `Insert`,
  `Count` of affected rows, `ORDER BY ... DESC`). `NULL = x` is never true
  (`Schema.SqlEq`). JavaScript truthiness is written out (`Truthy`, `Given`).
- **Transactions.** A transaction takes a `failAt` parameter that names the
  statement that fails, if any. A failing statement leaves every table as it
  was, and the handler answers 500. Otherwise all statements become visible
  together.
- **Grading.** `Grading` holds the MCQ and code rules exactly as `submitTest`
  evaluates them. That includes JavaScript `===` on possibly-`undefined`
  values, and the `TypeError` thrown on a NULL `options` or `correct_option`,
  which rolls the submission back.
- **Client screens.** The client screens are classes whose fields are the
  React state. Their methods are the event handlers. Server replies and user
  choices (a confirmation dialog, an accepted request) arrive as parameters.
- **Anti-cheating hook.** `useAntiCheating` is a key-blocking function plus a
  `Document` object whose listener set the hook's effect and cleanup change.

Some behaviours of the code that the model keeps as they are:

- A login with no college chosen and no master account of that email is a 400
  ("Please select a college.").
- Submitting with a session id of another student is not refused.
  - The session is left untouched (`StudentController.CompleteOthersUntouched`).
  - The answer rows are still inserted, and the computed score is returned.
- An MCQ key is not limited to A–D. A key past the options points at
  `undefined` (`Grading.McqMissingAnswerOutOfRange`).
- Resubmission is not guarded (`StudentController.ResubmitOverwrites`).

## Model

| member | source | states |
|---|---|---|
| Schema.Database.constructor | server/controllers/adminController.js:17 | An empty database satisfies the table invariant; auto-increment ids start at 1 |
| Text.TrimShape | server/controllers/studentController.js:136 | `trim` returns the infix that neither starts nor ends with whitespace, with only whitespace cut off on each side |
| Text.TrimPadded | server/controllers/studentController.js:136 | Whitespace added around a text never changes its trimmed form |
| Text.TrimIdempotent | server/controllers/studentController.js:136 | Trimming twice is trimming once |
| Text.LowerUpper | client/src/components/admin/QuestionList.jsx:31 | Lower-casing after upper-casing equals lower-casing (ASCII case mapping) |
| Text.UpperIdempotent | client/src/components/admin/AddQuestion.jsx:142 | `toUpperCase` is idempotent |
| Text.CrlfRoundTrip | client/src/components/admin/AddQuestion.jsx:200 | Replacing CRLF by LF undoes writing every LF as CRLF |
| Text.ReplaceCrlfNoCr | client/src/components/admin/AddQuestion.jsx:200 | Text without a carriage return is left unchanged by the CRLF replacement |
| Text.ReplaceCrlfAppend | client/src/components/admin/AddQuestion.jsx:200 | The CRLF replacement distributes over concatenation when the first piece does not end in CR |
| Text.NatToString | client/src/components/admin/AddQuestion.jsx:125-127 | A row number prints as a non-empty string of decimal digits, with a leading 0 only for zero |
| Table.Select | server/controllers/adminController.js:78-83 | `SELECT ... WHERE` returns exactly the rows that satisfy the filter, no more rows than the table |
| Table.Find | server/controllers/authController.js:57-64 | `rows[0]` is the first matching row, and there is none iff no row matches |
| Table.Update | server/controllers/adminController.js:98-101 | `UPDATE ... WHERE` rewrites every matching row's columns, keeps its id, and leaves every other row as it was |
| Table.Count | server/controllers/adminController.js:102-104 | `affectedRows` is zero iff no row matches the filter |
| Table.Delete | server/controllers/adminController.js:118-121 | `DELETE ... WHERE` keeps exactly the rows that do not match; the table shrinks by the number that do |
| Table.InsertAll | server/controllers/adminController.js:49-62 | A multi-row `INSERT` appends the records in order with consecutive fresh ids and keeps the existing rows |
| Table.SortDesc | server/controllers/adminController.js:231 | `ORDER BY ... DESC` returns a permutation of the rows with non-increasing keys |
| Grading.OptionAt | server/controllers/studentController.js:130 | Indexing the option array yields the option inside the array and `undefined` outside it |
| Grading.McqVerdict | server/controllers/studentController.js:126-134 | Grading throws iff `options` or `correct_option` is NULL; otherwise the answer is correct iff it equals the upper-cased key or the option text that key's first letter points at |
| Grading.Verdict | server/controllers/studentController.js:125-140 | Only an MCQ can throw; a question whose type is neither `mcq` nor `code` never scores |
| Grading.Lookup | server/controllers/studentController.js:118-122 | The question found for an answer is a row with that id, and none is found iff no row has it |
| Grading.Score | server/controllers/studentController.js:133 | The score counts correct rows and never exceeds the number of rows |
| Grading.GradedPrefixFailure | server/controllers/studentController.js:121-149 | A throw on any prefix of the answers fails the whole grading pass |
| Grading.GradedRows | server/controllers/studentController.js:121-146 | One row per answer to an existing question, in order, carrying that answer's text (`''` when absent) and its verdict; unknown ids are skipped |
| Grading.ScoreAtMostAnswers | server/controllers/studentController.js:117-154 | The score never exceeds the number of submitted answers |
| Grading.AllUnknownScoresZero | server/controllers/studentController.js:122-123 | Answers that all name unknown questions produce no row and no point |
| Grading.GradeAnswers | server/controllers/studentController.js:105-149 | The grading loop fails iff the reference grading fails; otherwise it returns exactly the reference rows and a running score equal to their count of correct rows |
| Grading.McqLetterOrText | server/controllers/studentController.js:126-134 | With key `B`, both `"B"` and the second option's text are correct, and another answer is not |
| Grading.McqKeyUpperCased | server/controllers/studentController.js:128 | A stored lower-case key `c` accepts `"C"` and the third option, and accepts `"c"` only if that is the third option's text |
| Grading.McqMissingAnswerOutOfRange | server/controllers/studentController.js:129-131 | An absent answer is graded correct when the key points past the options (`undefined === undefined`) |
| Grading.CodeIgnoresSurroundingWhitespace | server/controllers/studentController.js:136 | The solution with any surrounding whitespace is graded correct |
| Grading.CodePaddedExample | server/controllers/studentController.js:136 | The solution `print(1)` accepts `" print(1) \n"` |
| Grading.CodeSemicolonExample | server/controllers/studentController.js:136 | The solution `print(1)` rejects `"print(1);"`: equality is strict |
| Grading.CodeEmptyAnswerWrong | server/controllers/studentController.js:136 | An empty or absent code answer never scores |
| StudentController.SessionsIn | server/controllers/studentController.js:22-38 | Each dashboard entry joins the student's own session in the requested status with its test, and that test belongs to the student's college |
| StudentController.SessionsInComplete | server/controllers/studentController.js:22-38 | Every session of the student in the requested status whose test is in the student's college is joined with that test |
| StudentController.SessionsInOncePerSession | server/controllers/studentController.js:32-38 | The join lists sessions in ascending id order, so each session appears at most once |
| StudentController.GetDashboard | server/controllers/studentController.js:6-44 | The greeting names the student; without a college both lists are empty. Otherwise the scheduled list is the title, duration and time of each scheduled join entry, and the past scores are the title, score and submission time of each completed one, in order |
| StudentController.CompletedScoreShown | server/controllers/studentController.js:32-43 | A completed session of a test of the student's college shows among the past scores with its title, score and submission time |
| StudentController.ScheduledTestShown | server/controllers/studentController.js:22-43 | A scheduled session of a test of the student's college shows among the upcoming tests |
| StudentController.QuestionsOfTest | server/controllers/studentController.js:73-79 | Every handed-out question is linked to the test, and its view is the question without `correct_option` and `solution` |
| StudentController.LinkedQuestionsServed | server/controllers/studentController.js:73-79 | Every existing question linked to the test is handed out |
| StudentController.BeginSession | server/controllers/studentController.js:61-87 | Answers 403 with nothing changed iff no session is eligible (this test, this student, status `scheduled`, test in the student's college); otherwise it begins an eligible session and hands out the test's questions |
| StudentController.BeginMarksInProgress | server/controllers/studentController.js:82-85 | After a begin, that session is `inprogress` with its start time, and every other session is unchanged |
| StudentController.BeginTwiceFails | server/controllers/studentController.js:64 | With one session per (student, test), a second begin of the same test by the same student is refused |
| StudentController.BeginRequiresScheduled | server/controllers/studentController.js:64-70 | A session already `inprogress` or `completed` cannot be begun, and nothing changes |
| StudentController.BeginOtherCollegeForbidden | server/controllers/studentController.js:61-70 | A test of another college can never be begun |
| StudentController.GetTestQuestions | server/controllers/studentController.js:54-93 | The handler's reply and new session table are those of `BeginSession`, and the database invariant holds |
| StudentController.Complete | server/controllers/studentController.js:151-154 | Only the row matching both the session id and the student changes: it becomes `completed` with the score and submission time, keeping its student, test and start time. The current status is not checked |
| StudentController.ResubmitOverwrites | server/controllers/studentController.js:151-154 | A second submission overwrites the first score and submission time |
| StudentController.CompleteOthersUntouched | server/controllers/studentController.js:151-154 | A session id that belongs to another student leaves the sessions untouched |
| StudentController.AnswerRecords | server/controllers/studentController.js:143-146 | One answer row per graded answer, carrying the session id and the student's college |
| StudentController.CompleteSession | server/controllers/studentController.js:151-154 | The closing update sets the sessions to `Complete(...)` and keeps the invariant |
| StudentController.FinishSubmission | server/controllers/studentController.js:151-160 | If the completing update fails, the answer rows already inserted are rolled back too |
| StudentController.InsertAnswers | server/controllers/studentController.js:143-149 | The inserts succeed iff none of their statements fails; on success all answer rows are appended in order, otherwise the table is as before |
| StudentController.SubmitTest | server/controllers/studentController.js:98-166 | No answers: score 0 and `completed`. Otherwise the graded rows are inserted, the session is completed with their score, and the reply is that score. A throw or a failing statement is a 500 with every table unchanged |
| StudentController.SubmitGraded | server/controllers/studentController.js:117-157 | The non-empty submission path with the same all-or-nothing outcome |
| StudentController.RecordGraded | server/controllers/studentController.js:143-157 | After grading, the answer rows and the completed session are written together, or on any failing statement none of the three fields changes |
| StudentController.CompleteValid | server/controllers/studentController.js:151-154 | Completing a session keeps the table invariant and one session per (student, test) |
| StudentController.EmptySubmissionCompletes | server/controllers/studentController.js:107-115 | An empty submission leaves the session `completed` with score 0, never `inprogress` |
| AdminController.AddQuestion | server/controllers/adminController.js:7-25 | No college: 400 and nothing written. Otherwise one row with the body's seven columns, the admin and the college, answered 201 with its id |
| AdminController.OrNull | server/controllers/adminController.js:52-56 | `x \|\| null` stores an empty text as NULL and keeps any other text |
| AdminController.BulkRecords | server/controllers/adminController.js:49-59 | One row per body, in order, each with the admin and the college; empty optional texts become NULL |
| AdminController.AddQuestionsBulk | server/controllers/adminController.js:29-72 | No college, or a missing or empty list: 400. Otherwise every row is inserted or none is |
| AdminController.GetQuestions | server/controllers/adminController.js:76-89 | Exactly the college's questions, each as often as in the table, ordered by descending id; `[]` without a college |
| AdminController.EditQuestion | server/controllers/adminController.js:98-101 | Only the row with that id and the admin's college changes, and all seven columns are overwritten from the body |
| AdminController.UpdateQuestion | server/controllers/adminController.js:93-110 | 404 iff no row matches the id and the college; the table becomes `EditQuestion(...)` |
| AdminController.DropQuestion | server/controllers/adminController.js:118-121 | Only the row with that id and the admin's college is removed |
| AdminController.DeleteQuestion | server/controllers/adminController.js:114-130 | 404 iff no row matches the id and the college; the table becomes `DropQuestion(...)` |
| AdminController.AddedQuestionListed | server/controllers/adminController.js:17-20 | A question just added is listed for its college |
| AdminController.DeletedQuestionUnlisted | server/controllers/adminController.js:118-121 | After a delete, no listed question of the college has that id |
| AdminController.EditInvisibleToOtherColleges | server/controllers/adminController.js:98-101 | An edit by one college leaves every other college's question list unchanged |
| AdminController.SelectUnchanged | server/controllers/adminController.js:81 | Tables that agree on the rows a filter keeps give the same filtered result |
| AdminController.FanOut | server/controllers/adminController.js:167-175 | Each new session is a `scheduled` session of the new test with no start time, submission time or score |
| AdminController.FanOutOnlyApproved | server/controllers/adminController.js:167-175 | Every new session belongs to a student approved in the college at that moment |
| AdminController.FanOutReachesApproved | server/controllers/adminController.js:167-175 | Every student approved in the college at that moment gets a session |
| AdminController.FanOutOnePerStudent | server/controllers/adminController.js:173-175 | No student gets two sessions of the test |
| AdminController.QuestionLinks | server/controllers/adminController.js:161-164 | One link per supplied question id, in order; none when no ids are sent |
| AdminController.ScheduleKeepsSessionsWellFormed | server/controllers/adminController.js:172-175 | The new sessions keep one session per (student, test) and refer only to existing tests |
| AdminController.ScheduleTest | server/controllers/adminController.js:138-188 | 400 iff the admin has no college. A failing statement is a 500 with all three tables unchanged. Otherwise the test, its links and its sessions are all inserted and the reply is the new test id |
| AdminController.ScheduleInCollege | server/controllers/adminController.js:148-184 | The transaction commits iff none of its statements fails; it inserts all three kinds of row or none |
| AdminController.CommitSchedule | server/controllers/adminController.js:154-178 | The commit makes the test, its links and its sessions visible together and keeps the invariant |
| AdminController.CompletedInSound | server/controllers/adminController.js:225-233 | Each result row is a completed session of the test joined with its student, and the test belongs to the admin's college |
| AdminController.CompletedSessionReported | server/controllers/adminController.js:225-233 | Every completed session of a test of the admin's college with an existing student is reported |
| AdminController.GetTestResults | server/controllers/adminController.js:218-239 | Only completed sessions of a test of the admin's college, highest score first (NULL last), as a permutation of the join |
| AdminController.ResultsInvisibleToOtherColleges | server/controllers/adminController.js:229-230 | An admin of another college gets no results for the test |
| AdminController.AnswersOfSound | server/controllers/adminController.js:264-271 | At most one detail row per answer row; each is an answer of one of that student's sessions of the test, with its question's id, text, type, options (`[]` for NULL), key and solution |
| AdminController.AnswersOfComplete | server/controllers/adminController.js:264-276 | Every answer row of the student's session of the test whose question exists is shown, with that question's columns |
| AdminController.GetStudentTestDetails | server/controllers/adminController.js:245-282 | 404 iff the student, a session of the pair, or the test in the admin's college is missing; otherwise the student's name, email and score, the test's title and the answers |
| AdminController.ApproveIn | server/controllers/adminController.js:311-314 | Only the status of the college's student with that id changes, and it becomes `approved` |
| AdminController.RemoveStudent | server/controllers/adminController.js:348-351 | Only the college's student with that id is removed |
| AdminController.ApproveStudent | server/controllers/adminController.js:307-323 | 404 iff the college has no student with that id; the table becomes `ApproveIn(...)` |
| AdminController.DeleteStudent | server/controllers/adminController.js:344-360 | 404 iff the college has no student with that id; the table becomes `RemoveStudent(...)` |
| AdminController.ApprovedStudentAssigned | server/controllers/adminController.js:167-175 | A student approved before a test is scheduled gets a session of it |
| AdminController.PendingStudentNotAssigned | server/controllers/adminController.js:167-170 | A student still pending when the test is scheduled gets no session of it |
| AdminController.DeletedStudentNotAssigned | server/controllers/adminController.js:348-351 | A deleted student gets no session of a later test |
| AuthController.RegisterUser | server/controllers/authController.js:17-38 | A missing field, or an existing (email, college), is a 400 with nothing written. Otherwise the reply is 201 and a pending student is inserted |
| AuthController.RegisterTwiceRefused | server/controllers/authController.js:23-26 | After a registration, a second one with the same email at the same college finds a match and is refused |
| AuthController.GenerateToken | server/controllers/authController.js:6-12 | The token payload is the user's id, name and role |
| AuthController.TokenIgnoresCollege | server/controllers/authController.js:8 | Users that differ only in college, email, status or password get the same payload |
| AuthController.LoginCandidate | server/controllers/authController.js:48-58 | A master with that email wins regardless of college; otherwise a candidate exists iff a college is given and an account has that email there |
| AuthController.Login | server/controllers/authController.js:41-79 | 400 iff there is no master and no college. Otherwise, for the account checked: none is 401; a wrong password is 401; a matching password of a student not approved is 403; any other match logs in with that account's id, name, email, role and token |
| AuthController.MasterLoginIgnoresCollege | server/controllers/authController.js:48-51 | A master's login outcome does not depend on the chosen college |
| AuthController.WrongPasswordUnauthorized | server/controllers/authController.js:65-74 | A wrong password for the account checked is a 401 (or the 400 for a missing college), never success or the pending-approval answer |
| AuthController.RegisteredStudentPending | server/controllers/authController.js:29-32 | A freshly registered student with the right password gets the pending-approval answer |
| MasterController.CreateAdmin | server/controllers/masterController.js:7-40 | A missing field, or an existing (email, college), is a 400 with nothing written. Otherwise the reply is 201 with the new id, and an admin of that college created by the calling master is inserted |
| MasterController.CollegeName | server/controllers/masterController.js:52 | The left join gives the college's name, or NULL when there is no such college |
| MasterController.GetAdmins | server/controllers/masterController.js:45-61 | As many entries as admins created by this master, each the id, name, email and college name of one of them |
| MasterController.GetAdminsExactlyOwn | server/controllers/masterController.js:45-61 | Every admin created by this master is listed, and with ascending user ids no admin is listed twice |
| MasterController.RemoveAdmin | server/controllers/masterController.js:70-73 | Only an admin with that id created by this master is removed |
| MasterController.DeleteAdmin | server/controllers/masterController.js:66-82 | 404 iff this master created no admin with that id; the table becomes `RemoveAdmin(...)` |
| MasterController.DeleteAdminSparesOthers | server/controllers/masterController.js:71 | Students, and admins of other masters, survive any admin deletion |
| MasterController.CreatedAdminListed | server/controllers/masterController.js:30-33 | An admin the master just created is listed for that master under its new id, and the listing grows by that one entry |
| MasterController.CreateCollege | server/controllers/masterController.js:87-103 | A missing name, or a name already used, is a 400 with nothing written. Otherwise the reply is 201 with the new id and the college is inserted |
| MasterController.CollegeNamesStayUnique | server/controllers/masterController.js:93-97 | When no two colleges share a name, accepting a new college keeps it that way |
| AddQuestionForm.AfterLastDot | client/src/components/admin/AddQuestion.jsx:66 | The extension is the dot-free suffix after the last dot, or the whole name when there is no dot |
| AddQuestionForm.ExtensionAfterStem | client/src/components/admin/AddQuestion.jsx:66 | The extension of `stem.ext` is the lower-cased `ext` |
| AddQuestionForm.RouteFile | client/src/components/admin/AddQuestion.jsx:62-117 | A file is refused with the template hint iff its extension is pdf, doc or docx, processed iff it is xlsx or xls, and an invalid type otherwise |
| AddQuestionForm.RouteByLastExtension | client/src/components/admin/AddQuestion.jsx:66 | Only the text after the last dot decides the route |
| AddQuestionForm.RouteIgnoresCase | client/src/components/admin/AddQuestion.jsx:66 | Upper-case extensions are routed like lower-case ones |
| AddQuestionForm.ParseRow | client/src/components/admin/AddQuestion.jsx:124-155 | A missing text or type is reported first. A row yields a body iff it is an MCQ with all options and a key, or a code question with language, solution and expected output. MCQ options go in A–D order with the key upper-cased; every error line starts with `Row n+2: ` |
| AddQuestionForm.NatToStringInjective | client/src/components/admin/AddQuestion.jsx:125 | Distinct numbers print differently |
| AddQuestionForm.RowLabelsDistinct | client/src/components/admin/AddQuestion.jsx:125 | Distinct rows get distinct row labels in error messages |
| AddQuestionForm.ImportedMcqGradable | client/src/components/admin/AddQuestion.jsx:141-142 | An imported MCQ never makes grading throw. Its upper-cased key is graded correct, and so is the option text that key names when it is A–D |
| AddQuestionForm.ImportedSolutionScores | client/src/components/admin/AddQuestion.jsx:148-150 | An imported code question's own solution scores |
| AddQuestionForm.OneOutcomePerRow | client/src/components/admin/AddQuestion.jsx:124-156 | Every row contributes exactly one body or one error line |
| AddQuestionForm.NoErrorsAllPayloads | client/src/components/admin/AddQuestion.jsx:155-158 | There is no error line iff every row yielded a body, and then the bodies correspond to the rows one for one |
| AddQuestionForm.BulkVerdict | client/src/components/admin/AddQuestion.jsx:158-165 | Some row fails iff an error line is collected; otherwise the bodies are the rows' bodies in row order |
| AddQuestionForm.ParseAndSubmitBulk | client/src/components/admin/AddQuestion.jsx:120-172 | Rejected, with every error listed and nothing posted, iff some row fails; otherwise exactly the rows' bodies are posted in order |
| AddQuestionForm.ReplacePadded | client/src/components/admin/AddQuestion.jsx:200 | CRLF output with padding free of carriage returns normalises to its LF form |
| AddQuestionForm.VerifyIgnoresCrlfAndPadding | client/src/components/admin/AddQuestion.jsx:200-211 | Output in CRLF form with whitespace padding verifies against the padded expected text |
| AddQuestionForm.CleanOutputsCompareExactly | client/src/components/admin/AddQuestion.jsx:208-211 | Two different outputs that are already normalised never match |
| AddQuestionForm.MissingOutputMatchesBlank | client/src/components/admin/AddQuestion.jsx:200-211 | A run with no output verifies against a blank expected output |
| AddQuestionForm.FormPayload | client/src/components/admin/AddQuestion.jsx:235-247 | The code fields are sent iff the type is code, and options with the key iff the type is MCQ |
| AddQuestionForm.QuestionEditor.constructor | client/src/components/admin/AddQuestion.jsx:48-57 | The initial form: empty text, MCQ, four empty options, key A, Python with its stub, not verified |
| AddQuestionForm.QuestionEditor.EditQuestionText | client/src/components/admin/AddQuestion.jsx:325-328 | Typing the question text changes only the text |
| AddQuestionForm.QuestionEditor.SetKind | client/src/components/admin/AddQuestion.jsx:302-310 | Switching the type keeps the verification flag |
| AddQuestionForm.QuestionEditor.EditOption | client/src/components/admin/AddQuestion.jsx:343 | Typing into an option replaces that option only |
| AddQuestionForm.QuestionEditor.SelectCorrectOption | client/src/components/admin/AddQuestion.jsx:351-353 | The select changes only the correct letter |
| AddQuestionForm.QuestionEditor.ChangeLanguage | client/src/components/admin/AddQuestion.jsx:373-377 | Choosing a language loads its stub and clears verification |
| AddQuestionForm.QuestionEditor.EditSolution | client/src/components/admin/AddQuestion.jsx:393-394 | Editing the solution clears verification |
| AddQuestionForm.QuestionEditor.EditExpectedOutput | client/src/components/admin/AddQuestion.jsx:406-408 | Editing the expected output clears verification |
| AddQuestionForm.QuestionEditor.StartRun | client/src/components/admin/AddQuestion.jsx:196-206 | Starting a run (only when none is pending) sends the current language and program and keeps them, with the expected output, for the reply |
| AddQuestionForm.QuestionEditor.FinishRunAsWritten | client/src/components/admin/AddQuestion.jsx:207-223 | The flag is set iff the runner answered and the normalised output equals the normalised expected output captured at the start, whatever was edited meanwhile |
| AddQuestionForm.QuestionEditor.FinishRun | client/src/components/admin/AddQuestion.jsx:207-223 | As above, but a reply for a program, language or expected output no longer in the form leaves the form unverified, so the flag always vouches for what is on screen |
| AddQuestionForm.QuestionEditor.Submit | client/src/components/admin/AddQuestion.jsx:226-258 | An empty text, an empty option of an MCQ or an empty expected output of a code question is refused by the browser; an unverified code question by the handler; neither sends a request. Otherwise the current body is posted, and a posted code question passed a matching run, of this very program while the flag vouches for the form. A successful post resets the form |
| AddQuestionForm.StaleReplyPostsUnrunProgram | client/src/components/admin/AddQuestion.jsx:196-258 | From any filled-in code question: run, change the program while the run is pending, receive a reply that matches the expected output; the changed program, which never ran, is posted |
| AddQuestionForm.StaleReplyIgnored | client/src/components/admin/AddQuestion.jsx:196-258 | The same steps with the stale reply ignored leave the question unverified, and nothing is posted |
| TestScreen.OptionKey | client/src/pages/student/TestScreen.jsx:164 | Option `i` is stored as the letter with code `65 + i` |
| TestScreen.OptionKeyPointsAtOption | client/src/pages/student/TestScreen.jsx:164 | The letter stored for an option is the letter the server's grading maps back to that option |
| TestScreen.ChosenCorrectOptionScores | client/src/pages/student/TestScreen.jsx:172-174 | Picking the option whose letter is the key scores |
| TestScreen.AnsweredIds | client/src/pages/student/TestScreen.jsx:99 | `Object.keys` of the answer map lists each answered id once, in ascending order |
| TestScreen.FormatAnswers | client/src/pages/student/TestScreen.jsx:99-102 | One entry per answered question, carrying the answer last written for it, in ascending id order |
| TestScreen.QuestionIds | client/src/pages/student/TestScreen.jsx:145 | The set of loaded question ids has no more elements than there are questions |
| TestScreen.RemainingNonNegative | client/src/pages/student/TestScreen.jsx:133 | With answers only to loaded questions, the remaining count lies between 0 and the number of questions |
| TestScreen.CodeOf | client/src/pages/student/TestScreen.jsx:73 | The editor text is empty iff the question has no answer or an empty one |
| TestScreen.ExamScreen.constructor | client/src/pages/student/TestScreen.jsx:13-22 | Not ready, loading, no questions, no answers, index 0 |
| TestScreen.ExamScreen.PrepareTest | client/src/pages/student/TestScreen.jsx:36-42 | Fullscreen is requested iff the permissions were granted; the screen becomes ready only if both were granted |
| TestScreen.ExamScreen.FetchQuestions | client/src/pages/student/TestScreen.jsx:44-58 | Nothing is requested (so no session is begun) until the screen is ready; then the reply fills the screen or shows the error |
| TestScreen.ExamScreen.AnswerCurrent | client/src/pages/student/TestScreen.jsx:60-62 | Only the current question's answer is replaced; every other answer is kept |
| TestScreen.ExamScreen.Next | client/src/pages/student/TestScreen.jsx:64-69 | The index moves on, clearing the run output, only while a later question exists; it stays in bounds |
| TestScreen.ExamScreen.GoTo | client/src/pages/student/TestScreen.jsx:146 | A sidebar click jumps to that question |
| TestScreen.ExamScreen.RunCode | client/src/pages/student/TestScreen.jsx:71-94 | Offered on a coding question only. An empty editor is refused without a request; otherwise the code and the question's language are sent and the reply shown |
| TestScreen.ExamScreen.Progress | client/src/pages/student/TestScreen.jsx:131-133 | Attempted is the number of answer keys; remaining is the rest of the questions and is never negative |
| TestScreen.ExamScreen.Submit | client/src/pages/student/TestScreen.jsx:96-113 | Offered on the last question only. Nothing is sent without confirmation. Otherwise every answer is sent once under its question id, with the session id. An accepted submission goes to the dashboard |
| TestScreen.ExamScreen.Leave | client/src/pages/student/TestScreen.jsx:24-32 | A violation or device failure goes to the dashboard without submitting or changing the answers |
| AntiCheating.KeyDown | client/src/hooks/useAntiCheating.js:23-49 | A key press is cancelled iff it is F12, Ctrl+Shift+I/i, Cmd+Option+i, or Ctrl/Cmd with a lower-case c, v or x. Each blocked kind alerts its message, at most five alerts, developer-tools alerts first |
| AntiCheating.PlainTypingAllowed | client/src/hooks/useAntiCheating.js:23-49 | Without Ctrl or Cmd, every key but F12 reaches the page |
| AntiCheating.CtrlCopyBlocked | client/src/hooks/useAntiCheating.js:40-43 | Ctrl+C is cancelled whatever other modifiers are held |
| AntiCheating.UpperCaseLettersPass | client/src/hooks/useAntiCheating.js:35-48 | Cmd+Option+`I` and Cmd with an upper-case C, V or X are not cancelled by the key handler |
| AntiCheating.RulesAccumulate | client/src/hooks/useAntiCheating.js:25-33 | F12 as key code 123 with Ctrl+Shift+`i` fires two rules and alerts twice |
| AntiCheating.ContextMenu | client/src/hooks/useAntiCheating.js:8-20 | A right-click's menu is always cancelled, and the target is clicked iff it is an element with `click` |
| AntiCheating.Clipboard | client/src/hooks/useAntiCheating.js:52-55 | Copy, paste and cut are always cancelled with the clipboard alert |
| AntiCheating.HookListeners | client/src/hooks/useAntiCheating.js:57-61 | One active run registers five distinct listeners, all of that run |
| AntiCheating.Document.constructor | client/src/hooks/useAntiCheating.js:57 | A document starts without listeners |
| AntiCheating.Document.AddEventListener | client/src/hooks/useAntiCheating.js:57-61 | Adding a listener adds exactly that listener |
| AntiCheating.Document.RemoveEventListener | client/src/hooks/useAntiCheating.js:65-69 | Removing a listener removes exactly that listener |
| AntiCheating.RunEffect | client/src/hooks/useAntiCheating.js:4-71 | Inactive: nothing registered and no cleanup. Active: exactly the five listeners of the run are added |
| AntiCheating.Cleanup | client/src/hooks/useAntiCheating.js:64-70 | The cleanup removes exactly the run's five listeners |
| AntiCheating.CleanupRestores | client/src/hooks/useAntiCheating.js:57-70 | Registering and then cleaning up restores the previous listener set |
| AntiCheating.CleanupSparesOtherRun | client/src/hooks/useAntiCheating.js:64-71 | One run's cleanup leaves another run's listeners in place |
| AntiCheating.ActiveHookBlocksClipboard | client/src/hooks/useAntiCheating.js:59-61 | With the hook active, copy, paste and cut are cancelled whatever else is registered |
| AntiCheating.HookKeyDownExactly | client/src/hooks/useAntiCheating.js:58 | With the hook's listeners, a key press is cancelled iff it is a blocked shortcut |
| AntiCheating.HookContextMenu | client/src/hooks/useAntiCheating.js:57 | With the hook active, every right-click is cancelled, and the target is clicked iff it is clickable |
| AntiCheating.UpperCaseCopyStillCancelled | client/src/hooks/useAntiCheating.js:45-59 | Cmd with an upper-case C passes the key handler, but the copy it triggers is still cancelled |
| AntiCheating.NothingAfterCleanup | client/src/hooks/useAntiCheating.js:64-70 | After mount and cleanup on a page with no other listeners, nothing is cancelled |
| ScheduleTestForm.Without | client/src/pages/admin/ScheduleTest.jsx:31 | Dropping an id removes all its occurrences and keeps every other element |
| ScheduleTestForm.ToggleFlips | client/src/pages/admin/ScheduleTest.jsx:29-33 | A toggle flips the membership of that id and of no other |
| ScheduleTestForm.WithoutNoDuplicates | client/src/pages/admin/ScheduleTest.jsx:31 | Dropping an id keeps a list free of repeats |
| ScheduleTestForm.ToggleNoDuplicates | client/src/pages/admin/ScheduleTest.jsx:29-33 | Toggling never selects an id twice |
| ScheduleTestForm.WithoutAbsent | client/src/pages/admin/ScheduleTest.jsx:31 | Dropping an absent id changes nothing |
| ScheduleTestForm.ToggleTwiceRestores | client/src/pages/admin/ScheduleTest.jsx:29-33 | Ticking and then unticking a box restores the selection exactly |
| ScheduleTestForm.WithoutAppend | client/src/pages/admin/ScheduleTest.jsx:31 | Dropping an id distributes over concatenation, so order is kept |
| ScheduleTestForm.ToggleTwiceMovesLast | client/src/pages/admin/ScheduleTest.jsx:29-33 | Unticking and then ticking a box keeps the same ids, with that one moved to the end |
| ScheduleTestForm.ValidateReports | client/src/pages/admin/ScheduleTest.jsx:38-48 | Checks in order (blank trimmed title, then empty selection, then a missing or past time); the first failure is reported, and the form passes iff all three hold |
| ScheduleTestForm.StartingNowAccepted | client/src/pages/admin/ScheduleTest.jsx:46 | A start time equal to now is accepted |
| Text.TrimEmptyIffAllWhitespace | client/src/pages/admin/ScheduleTest.jsx:38 | `title.trim()` is empty exactly when the title is all whitespace |
| ScheduleTestForm.ScheduleForm.constructor | client/src/pages/admin/ScheduleTest.jsx:7-12 | Empty title, duration 60, no time, no selection, no banner |
| ScheduleTestForm.ScheduleForm.Toggle | client/src/pages/admin/ScheduleTest.jsx:29-33 | A checkbox click toggles that id and keeps the selection free of repeats |
| ScheduleTestForm.ScheduleForm.Submit | client/src/pages/admin/ScheduleTest.jsx:35-118 | A form the browser refuses (empty title, duration below 1, no time, a time before the field's `min`) changes nothing. A failed check of the handler shows its error and sends nothing. Otherwise the form is posted as typed, with exactly the selection. Only an accepted post resets the form (title `''`, duration 60, no time, no selection) |
| ScheduleTestForm.PostedSelectionLinked | client/src/pages/admin/ScheduleTest.jsx:55 | The server links the new test to exactly the selected ids, in selection order |
| ScheduleTestForm.ClicksGiveDistinctLinks | client/src/pages/admin/ScheduleTest.jsx:29-33 | A selection built from clicks has no repeats, so the test gets no duplicate link |
| QuestionList.Filtered | client/src/components/admin/QuestionList.jsx:30-32 | The filter keeps exactly the questions whose lower-cased text contains the lower-cased term |
| QuestionList.FilteredAppend | client/src/components/admin/QuestionList.jsx:30-32 | The filter keeps list order |
| QuestionList.EmptyTermKeepsAll | client/src/components/admin/QuestionList.jsx:30-32 | An empty search shows every question |
| QuestionList.TermCaseIgnored | client/src/components/admin/QuestionList.jsx:31 | The search ignores the case of the term |
| QuestionList.WithoutId | client/src/components/admin/QuestionList.jsx:39 | Delete drops exactly the entries with that id |
| QuestionList.WithoutIdAppend | client/src/components/admin/QuestionList.jsx:39 | Delete keeps the other entries in their order |
| QuestionList.LocalDeleteMatchesServer | client/src/components/admin/QuestionList.jsx:38-39 | After the server deletes the question, the list shows the same questions a reload would |
| QuestionList.WithText | client/src/components/admin/QuestionList.jsx:62-64 | Only the entry with that id gets the new text, and it keeps every other column |
| QuestionList.TextOnlyBody | client/src/components/admin/QuestionList.jsx:61 | The body as written carries the text alone |
| QuestionList.TextEditBody | client/src/components/admin/QuestionList.jsx:61 | The corrected body, once stored, is the question with only its text replaced |
| QuestionList.TextOnlySaveWipesQuestion | client/src/components/admin/QuestionList.jsx:61 | As written, a save clears type, language, options, key, solution and expected output on the server, so no answer is graded correct, while the list still shows the old type |
| QuestionList.TextOnlySaveBreaksGrading | client/src/components/admin/QuestionList.jsx:61 | As written, a code question's solution that scored before the save scores zero after it |
| QuestionList.TextEditChangesOnlyText | client/src/components/admin/QuestionList.jsx:61-64 | With the corrected body, the server's rows of the college equal the list's own update, and other colleges are untouched |
| QuestionList.QuestionListPage.constructor | client/src/components/admin/QuestionList.jsx:6-12 | Empty list, loading, no search, modal closed |
| QuestionList.QuestionListPage.Loaded | client/src/components/admin/QuestionList.jsx:15-27 | The list is the reply on success and unchanged on failure; loading stops either way |
| QuestionList.QuestionListPage.Visible | client/src/components/admin/QuestionList.jsx:30-32 | The rows on screen are the listed questions that match the search |
| QuestionList.QuestionListPage.Search | client/src/components/admin/QuestionList.jsx:107 | Typing sets the search term |
| QuestionList.QuestionListPage.Delete | client/src/components/admin/QuestionList.jsx:34-45 | Without confirmation nothing happens. Otherwise the request is sent, and on success the entries with that id leave the list |
| QuestionList.QuestionListPage.OpenEditModal | client/src/components/admin/QuestionList.jsx:47-51 | Opening the modal sets its id and text from the chosen question |
| QuestionList.QuestionListPage.EditText | client/src/components/admin/QuestionList.jsx:175 | Typing in the modal sets the edited text |
| QuestionList.QuestionListPage.CloseModal | client/src/components/admin/QuestionList.jsx:53-57 | Closing clears the open flag, the id and the text |
| QuestionList.QuestionListPage.Save | client/src/components/admin/QuestionList.jsx:59-69 | Sends the corrected body for the edited question. On success only that entry's text changes and the modal closes; on failure nothing changes |

## Left out

- The code-execution proxy (`server/routes/exam.js`) is not part of this model. A run's output arrives as a parameter.
- Proctoring (`useProctoring`) is represented only by the two booleans `prepareTest` receives, and by the violation and device-failure callbacks (`Leave`).
- bcrypt hashing and comparison, JWT signing and the authentication middleware are not modelled.
  - Registration receives the hash; login receives the comparison as a function parameter.
  - The caller is a `Principal` as the middleware reloads it.
- JSON `parse`/`stringify` of the options is not modelled: options are a decoded `seq<string>`. Reading a stored non-array value is not modelled.
- Dates are integers on one clock.
  - `toISOString`, the `datetime-local` string and `new Date()` are not modelled.
  - An unparseable time, which compares as NaN and passes the client check, is not modelled.
- XLSX and FileReader decoding are not modelled: rows arrive decoded, with each cell an optional string. The file-read failure path and `downloadTemplate` are not modelled.
- Case mapping is ASCII only. JavaScript's full Unicode `toLowerCase`/`toUpperCase` is not modelled.
- Connections acquired before an early 400 and never released (`addQuestionsBulk`, `scheduleTest`) are not modelled.
- `Promise.all` runs the answer inserts concurrently; the model runs them in submission order.
- A 500 from a single-statement handler (a failing `SELECT`/`UPDATE`/`DELETE` outside a transaction) is not modelled. Only transactions carry a failing statement.
- `getTests`, `getPendingStudents`, `getApprovedStudents` and the public college list are not modelled: they are plain listing queries.
- The storage layer's foreign keys and cascades are not modelled: deleting a student removes their sessions and answers, and a link may name a missing question.
- MySQL's case-insensitive email collation is not modelled: emails compare exactly.
- The model does not fix SQL row order beyond the `ORDER BY` clauses, and it does not fix the relative order of equal scores.
- `affectedRows` is modelled as the number of matched rows (for `approveStudent`, approving an approved student still counts).
- Question ids sent to `scheduleTest` are not checked against the college, as in the source.
- JavaScript object keys are modelled as natural-number question ids, so `parseInt` of a key gives the id back.
- Alert and message texts are not modelled, nor the `isSubmitting` spinner flag of the question forms. The duration field becoming a string after an edit is not modelled either.
- The modal's outside-click listener is not modelled: it is the same as `CloseModal`.
- AdminController.GetTestResults: states the order by score and the set of rows (as a multiset), not the order of rows with equal scores, which SQL leaves open.
- QuestionList.QuestionListPage.Delete: requires the edit modal to be closed. The open modal covers the list, so no delete button can be pressed.
- TestScreen.ExamScreen.AnswerCurrent: requires a loaded question on screen. The screen renders no answer field before the questions arrive.
- QuestionList.QuestionListPage.Save: models the corrected request body (see Findings). The as-written body is modelled by `QuestionList.TextOnlyBody`.
- AddQuestionForm.QuestionEditor.StartRun: requires that no run is pending. The "Run & Verify" button is disabled while one is.
- AddQuestionForm.QuestionEditor.FinishRun: models the corrected handling of a stale reply (see Findings). The as-written handling is `FinishRunAsWritten`.
- AddQuestionForm.QuestionEditor.Submit: promises that a posted code question is the program of the matching run only while the flag vouches for the form (`Vouched`). Every method except `FinishRunAsWritten` keeps that.
- ScheduleTestForm.ScheduleForm.Submit: an emptied duration field, which the browser also refuses, is not represented, because the duration is an integer. The time field's `min` (the time of the last render) is a parameter.
- TestScreen.ExamScreen.RunCode: requires a coding question on screen. Only a coding question renders the "Run Code" button.
- TestScreen.ExamScreen.Submit: requires the last question on screen. Only the last question renders "Submit Test".

## Findings

| source | as written | input that shows it | evidently intended | confidence | as-written member | corrected member |
|---|---|---|---|---|---|---|
| client/src/components/admin/QuestionList.jsx:61 | The edit modal sends `PUT /admin/questions/:id` with only `{question_text}`. `updateQuestion` (server/controllers/adminController.js:96-101) overwrites all seven columns from the body, so type, language, options, correct_option, solution and expected_output become NULL | Any saved edit. For example, a code question with solution `print(1)`, saved with new text, then graded against the answer `print(1)`: correct before the save and wrong after it. An MCQ makes no answer correct | Only the text changes. The list's local update `{...q, question_text: editText}` (lines 62-64) keeps every other field | not executed | QuestionList.TextOnlySaveWipesQuestion | QuestionList.TextEditChangesOnlyText |
| client/src/components/admin/AddQuestion.jsx:196-224 | `handleRunCode` awaits `/exam/run`, and only the Run button is disabled meanwhile. Edits clear `codeVerified` (lines 376, 394, 408), but a reply that arrives after an edit sets it again (line 212) for the program that was run. `handleSubmit` (line 229) then posts a program that never ran | Run the starter program against expected output `1`, change the program to `x` while the run is pending, and receive output `1`: the question is posted with solution `x` | A reply for a program, language or expected output no longer in the form does not verify it | not executed | AddQuestionForm.StaleReplyPostsUnrunProgram | AddQuestionForm.QuestionEditor.FinishRun |
