/** The admin's "Add question" screen: routing of an imported file by its
    extension, the spreadsheet-row validator behind the bulk import, the
    output comparison that verifies a coding question's solution, and the
    form whose verification flag gates submission. Spreadsheet decoding
    (XLSX, FileReader) is not modelled: rows arrive already decoded, with
    every cell an optional string. */
module AddQuestionForm {
  import opened Wrappers
  import opened Text
  import opened Schema
  import AdminController
  import Grading

  // ------------------------------------------------------------ file routing

  /** `name.split('.').pop()`: the text after the last dot, or the whole
      name when it has no dot. */
  function AfterLastDot(name: string): (r: string)
    ensures '.' !in r
    ensures |r| <= |name| && r == name[|name| - |r|..]
    ensures |r| < |name| ==> name[|name| - |r| - 1] == '.'
  {
    if name == [] then []
    else if name[|name| - 1] == '.' then []
    else
      var r := AfterLastDot(name[..|name| - 1]);
      assert name[..|name| - 1][|name| - 1 - |r|..] == name[|name| - 1 - |r|..|name| - 1];
      r + [name[|name| - 1]]
  }

  /** The lower-cased file extension. */
  function Extension(name: string): string {
    Lower(AfterLastDot(name))
  }

  /** Whatever precedes the last dot is irrelevant: the extension of
      `stem.ext` is the lower-cased `ext`. */
  lemma ExtensionAfterStem(stem: string, ext: string)
    requires '.' !in ext
    ensures Extension(stem + "." + ext) == Lower(ext)
  {
    var name := stem + "." + ext;
    var r := AfterLastDot(name);
    assert name[|stem|] == '.';
    assert name[|stem| + 1..] == ext;
  }

  /** What `handleFileImport` does with a chosen file. */
  datatype FileRoute =
    | PdfOrWordRefused    // "Unsupported File Type", with the hint to use the template
    | Spreadsheet         // read and handed to the row validator
    | InvalidType         // "Invalid file type. Please select an Excel (.xlsx, .xls) file."

  predicate RefusedExtension(ext: string) {
    ext == "pdf" || ext == "doc" || ext == "docx"
  }

  predicate ExcelExtension(ext: string) {
    ext == "xlsx" || ext == "xls"
  }

  /** PDF and Word documents are refused with a hint, Excel workbooks are
      processed, and every other extension is an invalid type. */
  function RouteFile(name: string): (r: FileRoute)
    ensures r == PdfOrWordRefused <==> RefusedExtension(Extension(name))
    ensures r == Spreadsheet <==> ExcelExtension(Extension(name))
  {
    var ext := Extension(name);
    if RefusedExtension(ext) then PdfOrWordRefused
    else if ExcelExtension(ext) then Spreadsheet
    else InvalidType
  }

  /** The route is decided by the text after the last dot alone:
      `answers.xlsx.pdf` is routed as a PDF, and a name without a dot is its
      own extension. */
  lemma RouteByLastExtension(stem: string, ext: string)
    requires '.' !in ext
    ensures RouteFile(stem + "." + ext) == RouteFile(ext)
  {
    ExtensionAfterStem(stem, ext);
    assert AfterLastDot(ext) == ext;
    assert Extension(stem + "." + ext) == Extension(ext);
  }

  /** Letter case does not matter: `Questions.XLSX` is read like
      `Questions.xlsx`. */
  lemma RouteIgnoresCase(stem: string, ext: string)
    requires '.' !in ext
    ensures RouteFile(stem + "." + Upper(ext)) == RouteFile(stem + "." + ext)
  {
    assert '.' !in Upper(ext) by {
      forall i | 0 <= i < |ext| ensures Upper(ext)[i] != '.' {
        assert ext[i] != '.';
      }
    }
    ExtensionAfterStem(stem, ext);
    ExtensionAfterStem(stem, Upper(ext));
    LowerUpper(ext);
  }

  // ------------------------------------------------------------ row validation

  /** One decoded spreadsheet row; an empty or missing cell is `None` or
      `Some("")`, both falsy. */
  datatype SheetRow = SheetRow(
    questionText: Option<string>, kind: Option<string>,
    optionA: Option<string>, optionB: Option<string>, optionC: Option<string>, optionD: Option<string>,
    correctOption: Option<string>, language: Option<string>, solution: Option<string>,
    expectedOutput: Option<string>)

  /** Each row yields a request body or an error line. */
  datatype RowOutcome = Payload(body: AdminController.QuestionBody) | RowError(message: string)

  /** The row number shown to the admin: the header is spreadsheet row 1,
      so the row at index `i` is row `i + 2`. */
  function RowLabel(index: nat): string {
    "Row " + NatToString(index + 2)
  }

  /** An error line: the row label, a colon, and the complaint. */
  function RowMessage(index: nat, complaint: string): string {
    RowLabel(index) + ": " + complaint
  }

  predicate McqComplete(q: SheetRow) {
    Given(q.optionA) && Given(q.optionB) && Given(q.optionC) && Given(q.optionD) && Given(q.correctOption)
  }

  predicate CodeComplete(q: SheetRow) {
    Given(q.language) && Given(q.solution) && Given(q.expectedOutput)
  }

  /** The complaints of `parseAndSubmitBulkQuestions`, as it words them. */
  const MissingFields: string := "Missing required fields 'QuestionText' or 'Type'."
  const McqIncomplete: string := "MCQ questions require all Option fields and a CorrectOption."
  const CodeIncomplete: string := "Code questions require Language, Solution, and ExpectedOutput."
  const InvalidTypePrefix: string := "Invalid question type '"
  const InvalidTypeSuffix: string := "'. Use 'mcq' or 'code'."

  /** The check of one row in `parseAndSubmitBulkQuestions`: text and type
      first, then the fields the lower-cased type needs; an MCQ row sends its
      four options in A to D order and the upper-cased letter, a coding row
      its language, solution and expected output, and any other type is an
      error naming the type as written. */
  function ParseRow(q: SheetRow, index: nat): (r: RowOutcome)
    ensures r.RowError? ==> RowLabel(index) + ": " <= r.message
    ensures !Given(q.questionText) || !Given(q.kind) ==>
      r == RowError(RowMessage(index, MissingFields))
    ensures r.Payload? <==>
      && Given(q.questionText) && Given(q.kind)
      && ((Lower(q.kind.value) == "mcq" && McqComplete(q)) || (Lower(q.kind.value) == "code" && CodeComplete(q)))
    ensures r.Payload? ==> r.body.text == q.questionText.value && r.body.kind == Some(Lower(q.kind.value))
    ensures r.Payload? && r.body.kind == Some("mcq") ==>
      && r.body.options == Some([q.optionA.value, q.optionB.value, q.optionC.value, q.optionD.value])
      && r.body.correctOption == Some(Upper(q.correctOption.value))
      && r.body.language.None? && r.body.solution.None? && r.body.expectedOutput.None?
    ensures r.Payload? && r.body.kind == Some("code") ==>
      && r.body.language == q.language && r.body.solution == q.solution
      && r.body.expectedOutput == q.expectedOutput
      && r.body.options.None? && r.body.correctOption.None?
  {
    if !Given(q.questionText) || !Given(q.kind) then
      RowError(RowMessage(index, MissingFields))
    else
      var kind := Lower(q.kind.value);
      if kind == "mcq" then
        if !McqComplete(q) then RowError(RowMessage(index, McqIncomplete))
        else Payload(AdminController.QuestionBody(
          q.questionText.value, Some(kind), None,
          Some([q.optionA.value, q.optionB.value, q.optionC.value, q.optionD.value]),
          Some(Upper(q.correctOption.value)), None, None))
      else if kind == "code" then
        if !CodeComplete(q) then RowError(RowMessage(index, CodeIncomplete))
        else Payload(AdminController.QuestionBody(
          q.questionText.value, Some(kind), q.language, None, None, q.solution, q.expectedOutput))
      else RowError(RowMessage(index, InvalidTypePrefix + q.kind.value + InvalidTypeSuffix))
  }

  /** Distinct rows are reported under distinct row numbers. */
  lemma {:induction false} NatToStringInjective(m: nat, n: nat)
    requires NatToString(m) == NatToString(n)
    ensures m == n
  {
    var a, b := NatToString(m), NatToString(n);
    if m >= 10 && n >= 10 {
      assert a[..|a| - 1] == NatToString(m / 10);
      assert b[..|b| - 1] == NatToString(n / 10);
      NatToStringInjective(m / 10, n / 10);
      assert a[|a| - 1] == DigitChar(m % 10) && b[|b| - 1] == DigitChar(n % 10);
    }
  }

  lemma RowLabelsDistinct(i: nat, j: nat)
    requires i != j
    ensures RowLabel(i) != RowLabel(j)
  {
    if RowLabel(i) == RowLabel(j) {
      assert NatToString(i + 2) == RowLabel(i)[4..];
      NatToStringInjective(i + 2, j + 2);
    }
  }

  /** An imported MCQ never makes grading throw; the upper-cased letter from
      the sheet is graded correct, and so is the text of the option that
      letter names when it is one of A to D. */
  lemma ImportedMcqGradable(q: SheetRow, index: nat, createdBy: nat, college: nat, answer: Option<string>)
    requires ParseRow(q, index).Payload? && Lower(q.kind.value) == "mcq"
    ensures var stored := AdminController.BulkRecords([ParseRow(q, index).body], createdBy, college)[0];
      && Grading.Verdict(stored, answer).Success?
      && Grading.Verdict(stored, Some(Upper(q.correctOption.value))) == Success(true)
    ensures var key := Upper(q.correctOption.value);
      var stored := AdminController.BulkRecords([ParseRow(q, index).body], createdBy, college)[0];
      'A' <= key[0] <= 'D' ==>
        Grading.Verdict(stored, Some([q.optionA.value, q.optionB.value, q.optionC.value, q.optionD.value][key[0] as int - 65]))
          == Success(true)
  {
    var body := ParseRow(q, index).body;
    var stored := AdminController.BulkRecords([body], createdBy, college)[0];
    var key := Upper(q.correctOption.value);
    assert |key| == |q.correctOption.value| > 0;
    assert stored.kind == Some("mcq");
    assert stored.options == body.options;
    assert stored.correctOption == Some(key);
    UpperIdempotent(q.correctOption.value);
  }

  /** An imported coding question's own solution scores. */
  lemma ImportedSolutionScores(q: SheetRow, index: nat, createdBy: nat, college: nat)
    requires ParseRow(q, index).Payload? && Lower(q.kind.value) == "code"
    ensures var stored := AdminController.BulkRecords([ParseRow(q, index).body], createdBy, college)[0];
      Grading.Verdict(stored, q.solution) == Success(true)
  {
    var stored := AdminController.BulkRecords([ParseRow(q, index).body], createdBy, college)[0];
    assert stored.kind == Some("code");
    assert stored.solution == q.solution;
  }

  // ------------------------------------------------------------ the bulk pass

  /** The outcome of every row, in row order. */
  function Outcomes(rows: seq<SheetRow>): seq<RowOutcome> {
    seq(|rows|, i requires 0 <= i < |rows| => ParseRow(rows[i], i))
  }

  /** The request bodies among the outcomes, in order. */
  function PayloadsOf(o: seq<RowOutcome>): seq<AdminController.QuestionBody> {
    if o == [] then []
    else PayloadsOf(o[..|o| - 1]) + (if o[|o| - 1].Payload? then [o[|o| - 1].body] else [])
  }

  /** The error lines among the outcomes, in order. */
  function ErrorsOf(o: seq<RowOutcome>): seq<string> {
    if o == [] then []
    else ErrorsOf(o[..|o| - 1]) + (if o[|o| - 1].RowError? then [o[|o| - 1].message] else [])
  }

  /** One more outcome adds its body or its error line at the end. */
  lemma OutcomesStep(o: seq<RowOutcome>, i: nat)
    requires i < |o|
    ensures PayloadsOf(o[..i + 1]) == PayloadsOf(o[..i]) + (if o[i].Payload? then [o[i].body] else [])
    ensures ErrorsOf(o[..i + 1]) == ErrorsOf(o[..i]) + (if o[i].RowError? then [o[i].message] else [])
  {
    assert o[..i + 1][..i] == o[..i];
  }

  /** Every row contributes exactly one body or one error. */
  lemma {:induction false} OneOutcomePerRow(o: seq<RowOutcome>)
    ensures |PayloadsOf(o)| + |ErrorsOf(o)| == |o|
  {
    if o != [] {
      OneOutcomePerRow(o[..|o| - 1]);
    }
  }

  /** No error line exactly when every row produced a body, and then the
      bodies are the rows' bodies one for one. */
  lemma {:induction false} NoErrorsAllPayloads(o: seq<RowOutcome>)
    ensures ErrorsOf(o) == [] <==> forall i :: 0 <= i < |o| ==> o[i].Payload?
    ensures ErrorsOf(o) == [] ==> |PayloadsOf(o)| == |o| && forall i :: 0 <= i < |o| ==> PayloadsOf(o)[i] == o[i].body
  {
    if o != [] {
      var init, last := o[..|o| - 1], o[|o| - 1];
      NoErrorsAllPayloads(init);
      assert forall i :: 0 <= i < |init| ==> init[i] == o[i];
      if ErrorsOf(o) == [] {
        assert ErrorsOf(init) == [] && last.Payload?;
        assert PayloadsOf(o) == PayloadsOf(init) + [last.body];
      } else if ErrorsOf(init) == [] {
        assert !last.Payload?;
      } else {
        var i :| 0 <= i < |init| && !init[i].Payload?;
        assert !o[i].Payload?;
      }
    }
  }

  /** Over a whole sheet: some row fails exactly when an error line is
      collected, and otherwise the bodies are the rows' bodies one for one. */
  lemma BulkVerdict(rows: seq<SheetRow>)
    ensures ErrorsOf(Outcomes(rows)) != [] <==> exists i :: 0 <= i < |rows| && ParseRow(rows[i], i).RowError?
    ensures ErrorsOf(Outcomes(rows)) == [] ==>
      |PayloadsOf(Outcomes(rows))| == |rows|
      && forall i :: 0 <= i < |rows| ==> ParseRow(rows[i], i) == Payload(PayloadsOf(Outcomes(rows))[i])
  {
    var o := Outcomes(rows);
    NoErrorsAllPayloads(o);
    if ErrorsOf(o) != [] {
      var i :| 0 <= i < |o| && !o[i].Payload?;
      assert ParseRow(rows[i], i).RowError?;
    } else {
      forall i | 0 <= i < |rows| ensures ParseRow(rows[i], i).Payload? {
        assert o[i] == ParseRow(rows[i], i);
      }
    }
  }

  /** What the import does after validation. */
  datatype BulkUpload =
    | Rejected(details: seq<string>)                          // "File parsing failed...", nothing posted
    | Posted(questions: seq<AdminController.QuestionBody>)    // `POST /admin/questions-bulk`

  /** `parseAndSubmitBulkQuestions`: one pass over the rows collecting bodies
      and error lines; a single error means nothing is posted and every
      error is listed, otherwise all bodies are posted in row order. */
  method ParseAndSubmitBulk(rows: seq<SheetRow>) returns (r: BulkUpload)
    ensures r.Rejected? <==> exists i :: 0 <= i < |rows| && ParseRow(rows[i], i).RowError?
    ensures r.Rejected? ==> r.details == ErrorsOf(Outcomes(rows)) && |r.details| >= 1
    ensures r.Posted? ==>
      |r.questions| == |rows| && forall i :: 0 <= i < |rows| ==> ParseRow(rows[i], i) == Payload(r.questions[i])
  {
    var payloads: seq<AdminController.QuestionBody> := [];
    var errors: seq<string> := [];
    ghost var o := Outcomes(rows);
    var i := 0;
    while i < |rows|
      invariant 0 <= i <= |rows|
      invariant payloads == PayloadsOf(o[..i]) && errors == ErrorsOf(o[..i])
    {
      var outcome := ParseRow(rows[i], i);
      assert outcome == o[i];
      OutcomesStep(o, i);
      if outcome.Payload? {
        payloads := payloads + [outcome.body];
      } else {
        errors := errors + [outcome.message];
      }
      i := i + 1;
    }
    assert o[..|rows|] == o;
    BulkVerdict(rows);
    if |errors| > 0 {
      r := Rejected(errors);
    } else {
      r := Posted(payloads);
    }
  }

  // ------------------------------------------------------------ verification

  /** `normalize`: a missing output counts as empty; CRLF becomes LF and the
      result is trimmed. */
  function Normalize(text: Option<string>): string {
    Trim(ReplaceCrlf(text.GetOr("")))
  }

  /** The comparison in `handleRunCode`. */
  predicate OutputMatches(output: Option<string>, expected: string) {
    Normalize(output) == Normalize(Some(expected))
  }

  /** Converted text followed by text without carriage returns converts
      back to the original followed by that text. */
  lemma CrlfTail(s: string, post: string)
    requires NoCr(s) && NoCr(post)
    ensures ReplaceCrlf(ToCrlf(s) + post) == s + post
  {
    CrlfRoundTrip(s);
    ToCrlfEndsClean(s);
    ReplaceCrlfAppend(ToCrlf(s), post);
    ReplaceCrlfNoCr(post);
  }

  /** Padding without carriage returns survives the CRLF replacement. */
  lemma ReplacePadded(pre: string, s: string, post: string)
    requires NoCr(pre) && NoCr(s) && NoCr(post)
    ensures ReplaceCrlf(pre + ToCrlf(s) + post) == pre + s + post
  {
    AppendAssociative(pre, ToCrlf(s), post);
    AppendAssociative(pre, s, post);
    ReplaceCrlfNoCrPrefix(pre, ToCrlf(s) + post);
    CrlfTail(s, post);
  }

  /** Verification is blind to Windows line endings and to whitespace around
      the output or the expected text: a program whose output is the expected
      text with CRLF line endings and extra blank padding is verified. */
  lemma VerifyIgnoresCrlfAndPadding(s: string, pre: string, post: string, pre2: string, post2: string)
    requires NoCr(s)
    requires AllWhitespace(pre) && AllWhitespace(post) && NoCr(pre) && NoCr(post)
    requires AllWhitespace(pre2) && AllWhitespace(post2) && NoCr(pre2) && NoCr(post2)
    ensures OutputMatches(Some(pre + ToCrlf(s) + post), pre2 + s + post2)
  {
    var output, expected := pre + ToCrlf(s) + post, pre2 + s + post2;
    assert Normalize(Some(output)) == Trim(s) by {
      ReplacePadded(pre, s, post);
      TrimPadded(pre, s, post);
    }
    assert Normalize(Some(expected)) == Trim(s) by {
      assert NoCr(expected);
      ReplaceCrlfNoCr(expected);
      TrimPadded(pre2, s, post2);
    }
  }

  /** Text already free of carriage returns and padding is compared
      exactly: two different such outputs never match (the comparison is,
      for instance, case-sensitive). */
  lemma CleanOutputsCompareExactly(output: string, expected: string)
    requires NoCr(output) && NoCr(expected) && Trim(output) == output && Trim(expected) == expected
    requires output != expected
    ensures !OutputMatches(Some(output), expected)
  {
    ReplaceCrlfNoCr(output);
    ReplaceCrlfNoCr(expected);
  }

  /** A run that returns no output at all is verified against a blank
      expected output. */
  lemma MissingOutputMatchesBlank(expected: string)
    requires AllWhitespace(expected) && NoCr(expected)
    ensures OutputMatches(None, expected)
  {
    assert Normalize(None) == "" by {
      assert ReplaceCrlf("") == "";
      assert TrimStart("") == "";
    }
    assert Normalize(Some(expected)) == "" by {
      ReplaceCrlfNoCr(expected);
      TrimPadded(expected, "", "");
      assert expected + "" + "" == expected;
      assert TrimStart("") == "";
    }
  }

  // ------------------------------------------------------------ the form

  datatype QuestionKind = Mcq | Code

  datatype Language = Python3 | JavaScript | Java | Cpp17 {
    /** The language name sent to the code runner and stored. */
    function ApiValue(): string {
      match this
      case Python3 => "python3"
      case JavaScript => "javascript"
      case Java => "java"
      case Cpp17 => "cpp17"
    }

    /** The starter program put in the editor when the language is chosen. */
    function Stub(): string {
      match this
      case Python3 => Python3Stub
      case JavaScript => JavaScriptStub
      case Java => JavaStub
      case Cpp17 => Cpp17Stub
    }
  }

  const Python3Stub: string := "def solution():\n  print(\"Hello from Python\")\n\nsolution()"
  const JavaScriptStub: string := "function solution() {\n  console.log(\"Hello from JavaScript\");\n}\n\nsolution();"
  const JavaStub: string := "public class Main {\n  public static void main(String[] args) {\n    System.out.println(\"Hello from Java\");\n  }\n}"
  const Cpp17Stub: string := "#include <iostream>\n\nint main() {\n  std::cout << \"Hello from C++\";\n  return 0;\n}"

  /** The body `handleSubmit` posts: code fields only for a coding question,
      options (A to D) and the correct letter only for a multiple-choice one. */
  function FormPayload(text: string, kind: QuestionKind, options: seq<string>, correctOption: string,
                       language: Language, solution: string, expectedOutput: string): (p: AdminController.QuestionBody)
    ensures p.text == text
    ensures p.kind == Some("code") <==> kind == Code
    ensures p.kind == Some("mcq") <==> kind == Mcq
    ensures kind == Code <==> p.language.Some? && p.solution.Some? && p.expectedOutput.Some?
    ensures kind == Mcq <==> p.options.Some? && p.correctOption.Some?
    ensures kind == Code ==> p.language == Some(language.ApiValue()) && p.solution == Some(solution)
                             && p.expectedOutput == Some(expectedOutput)
    ensures kind == Mcq ==> p.options == Some(options) && p.correctOption == Some(correctOption)
  {
    match kind
    case Code => AdminController.QuestionBody(text, Some("code"), Some(language.ApiValue()), None, None,
                                              Some(solution), Some(expectedOutput))
    case Mcq => AdminController.QuestionBody(text, Some("mcq"), None, Some(options), Some(correctOption), None, None)
  }

  /** The outcome of `POST /exam/run`. */
  datatype RunResponse = RunFailed | RunOutput(output: Option<string>)

  /** The body of `POST /exam/run`. */
  datatype RunRequest = RunRequest(language: string, code: string)

  /** What pressing "Add question" does: the browser refuses a form with an
      empty required field, `handleSubmit` refuses an unverified coding
      question, and otherwise the body is posted. */
  datatype SubmitResult = Incomplete | Unverified | Sent(body: AdminController.QuestionBody)

  /** The form state of the single-question editor. */
  class QuestionEditor {
    var questionText: string
    var kind: QuestionKind
    var options: seq<string>
    var correctOption: string
    var language: Language
    var solution: string
    var expectedOutput: string
    var codeVerified: bool
    /** `isRunningCode`, and the language, program and expected output the
        pending `handleRunCode` call captured when the run was started. */
    var running: bool
    var runLanguage: Language
    var runSolution: string
    var runExpected: string
    /** The last run whose reply was applied: its program, the expected
        output it was compared with, and whether the comparison succeeded;
        kept to state what `codeVerified` vouches for. */
    ghost var ranLanguage: Language
    ghost var ranSolution: string
    ghost var ranExpected: string
    ghost var ranMatched: bool

    /** Four option fields, and a set verification flag comes from a run
        whose output matched. */
    ghost predicate Valid()
      reads this
    {
      && |options| == 4
      && (codeVerified ==> ranMatched)
    }

    /** A set verification flag vouches for the program and expected output
        now in the form. */
    ghost predicate Vouched()
      reads this
    {
      codeVerified ==> ranLanguage == language && ranSolution == solution && ranExpected == expectedOutput
    }

    predicate Blank()
      reads this
    {
      && questionText == "" && kind == Mcq && options == ["", "", "", ""] && correctOption == "A"
      && language == Python3 && solution == Python3.Stub() && expectedOutput == "" && !codeVerified
    }

    /** The initial state, which `resetForm` restores. */
    constructor()
      ensures Valid() && Vouched() && Blank() && !running
    {
      questionText := "";
      kind := Mcq;
      options := ["", "", "", ""];
      correctOption := "A";
      language := Python3;
      solution := Python3.Stub();
      expectedOutput := "";
      codeVerified := false;
      running := false;
      runLanguage := Python3;
      runSolution := "";
      runExpected := "";
      ranLanguage := Python3;
      ranSolution := "";
      ranExpected := "";
      ranMatched := false;
    }

    /** The body the form would post now. */
    function Current(): AdminController.QuestionBody
      reads this
    {
      FormPayload(questionText, kind, options, correctOption, language, solution, expectedOutput)
    }

    /** A field the browser requires is empty: the question text; the four
        options of a multiple-choice question; the expected output of a
        coding question. Only the fields of the chosen type are on screen. */
    predicate MissingRequired()
      reads this
    {
      || questionText == ""
      || (kind == Mcq && exists i :: 0 <= i < |options| && options[i] == "")
      || (kind == Code && expectedOutput == "")
    }

    /** Typing the question text. */
    method EditQuestionText(text: string)
      requires Valid()
      modifies this`questionText
      ensures Valid() && questionText == text
      ensures Vouched() <==> old(Vouched())
    {
      questionText := text;
    }

    /** The type buttons: the verification flag is kept. */
    method SetKind(k: QuestionKind)
      requires Valid()
      modifies this`kind
      ensures Valid() && kind == k
      ensures Vouched() <==> old(Vouched())
    {
      kind := k;
    }

    /** Typing into option field `i` (A is 0) replaces that option only. */
    method EditOption(i: nat, value: string)
      requires Valid() && i < 4
      modifies this`options
      ensures Valid() && options == old(options)[i := value]
      ensures Vouched() <==> old(Vouched())
    {
      options := options[i := value];
    }

    /** The correct-option select. */
    method SelectCorrectOption(letter: string)
      requires Valid()
      modifies this`correctOption
      ensures Valid() && correctOption == letter
      ensures Vouched() <==> old(Vouched())
    {
      correctOption := letter;
    }

    /** Choosing a language loads its starter program and clears verification. */
    method ChangeLanguage(l: Language)
      requires Valid()
      modifies this`language, this`solution, this`codeVerified
      ensures Valid() && Vouched() && language == l && solution == l.Stub() && !codeVerified
    {
      language := l;
      solution := l.Stub();
      codeVerified := false;
    }

    /** Editing the solution clears verification. */
    method EditSolution(code: string)
      requires Valid()
      modifies this`solution, this`codeVerified
      ensures Valid() && Vouched() && solution == code && !codeVerified
    {
      solution := code;
      codeVerified := false;
    }

    /** Editing the expected output clears verification. */
    method EditExpectedOutput(text: string)
      requires Valid()
      modifies this`expectedOutput, this`codeVerified
      ensures Valid() && Vouched() && expectedOutput == text && !codeVerified
    {
      expectedOutput := text;
      codeVerified := false;
    }

    /** Pressing "Run & Verify" (disabled while a run is pending): the
        current language and program are sent, and the call keeps the values
        it will compare against. The flag is left as it is until the reply. */
    method StartRun() returns (req: RunRequest)
      requires Valid() && !running
      modifies this`running, this`runLanguage, this`runSolution, this`runExpected
      ensures Valid() && running
      ensures req == RunRequest(language.ApiValue(), solution)
      ensures runLanguage == language && runSolution == solution && runExpected == expectedOutput
      ensures Vouched() <==> old(Vouched())
    {
      running := true;
      runLanguage := language;
      runSolution := solution;
      runExpected := expectedOutput;
      req := RunRequest(language.ApiValue(), solution);
    }

    /** The reply of the pending run as `handleRunCode` applies it: the flag
        is set exactly when the runner answered and its normalised output
        equals the normalised expected output captured at the start, even
        when the program or the expected output was edited meanwhile. */
    method FinishRunAsWritten(response: RunResponse)
      requires Valid() && running
      modifies this`running, this`codeVerified, this`ranLanguage, this`ranSolution, this`ranExpected, this`ranMatched
      ensures Valid() && !running
      ensures codeVerified <==> response.RunOutput? && OutputMatches(response.output, runExpected)
      ensures ranLanguage == runLanguage && ranSolution == runSolution && ranExpected == runExpected
    {
      ranLanguage := runLanguage;
      ranSolution := runSolution;
      ranExpected := runExpected;
      codeVerified := response.RunOutput? && OutputMatches(response.output, runExpected);
      ranMatched := codeVerified;
      running := false;
    }

    /** The reply of the pending run with a stale reply ignored: it verifies
        the form only when the language, the program and the expected output
        are still the ones that were run, so the flag always vouches for
        what is on screen. */
    method FinishRun(response: RunResponse)
      requires Valid() && running
      modifies this`running, this`codeVerified, this`ranLanguage, this`ranSolution, this`ranExpected, this`ranMatched
      ensures Valid() && Vouched() && !running
      ensures codeVerified <==>
        && response.RunOutput? && OutputMatches(response.output, expectedOutput)
        && runLanguage == language && runSolution == solution && runExpected == expectedOutput
    {
      running := false;
      if runLanguage == language && runSolution == solution && runExpected == expectedOutput {
        ranLanguage := runLanguage;
        ranSolution := runSolution;
        ranExpected := runExpected;
        codeVerified := response.RunOutput? && OutputMatches(response.output, runExpected);
        ranMatched := codeVerified;
      } else {
        codeVerified := false;
      }
    }

    /** Pressing "Add question": a form with an empty required field is
        refused by the browser, an unverified coding question by
        `handleSubmit`, both without a request; otherwise the current body
        is posted, and a successful post (`saved`) resets the form. A posted
        coding question passed a matching run, and while the flag vouches
        for the form it is the program and expected output of that run. */
    method Submit(saved: bool) returns (r: SubmitResult)
      requires Valid()
      modifies this`questionText, this`kind, this`options, this`correctOption, this`language, this`solution,
               this`expectedOutput, this`codeVerified
      ensures Valid()
      ensures old(Vouched()) ==> Vouched()
      ensures r == Incomplete <==> old(MissingRequired())
      ensures r == Unverified <==> !old(MissingRequired()) && old(kind) == Code && !old(codeVerified)
      ensures r.Sent? ==> r.body == old(Current())
      ensures r.Sent? && old(kind) == Code ==> old(ranMatched)
      ensures r.Sent? && old(kind) == Code && old(Vouched()) ==>
        && r.body.solution == Some(old(ranSolution))
        && r.body.language == Some(old(ranLanguage).ApiValue())
        && r.body.expectedOutput == Some(old(ranExpected))
      ensures r.Sent? && saved ==> Blank()
      ensures !(r.Sent? && saved) ==>
        && questionText == old(questionText) && kind == old(kind) && options == old(options)
        && correctOption == old(correctOption) && language == old(language) && solution == old(solution)
        && expectedOutput == old(expectedOutput) && codeVerified == old(codeVerified)
    {
      if MissingRequired() {
        return Incomplete;
      }
      if kind == Code && !codeVerified {
        return Unverified;
      }
      r := Sent(Current());
      if saved {
        questionText := "";
        kind := Mcq;
        options := ["", "", "", ""];
        correctOption := "A";
        language := Python3;
        solution := Python3.Stub();
        expectedOutput := "";
        codeVerified := false;
      }
    }
  }

  /** A reply that arrives after the program was edited still verifies the
      form as written: from any filled-in coding question, the program is
      run, changed to `edited` while the run is pending, the reply matches
      the expected output, and `edited`, which never ran, is posted. */
  method StaleReplyPostsUnrunProgram(e: QuestionEditor, edited: string) returns (ran: RunRequest, sent: SubmitResult)
    requires e.Valid() && !e.running && e.kind == Code && e.questionText != "" && e.expectedOutput != ""
    requires edited != e.solution
    modifies e
    ensures ran.code != edited
    ensures sent.Sent? && sent.body.solution == Some(edited)
  {
    ran := e.StartRun();
    e.EditSolution(edited);
    e.FinishRunAsWritten(RunOutput(Some(e.expectedOutput)));
    assert e.codeVerified && !e.MissingRequired();
    sent := e.Submit(false);
  }

  /** With stale replies ignored, the same steps leave the form unverified
      and nothing is posted. */
  method StaleReplyIgnored(e: QuestionEditor, edited: string) returns (ran: RunRequest, sent: SubmitResult)
    requires e.Valid() && !e.running && e.kind == Code && e.questionText != "" && e.expectedOutput != ""
    requires edited != e.solution
    modifies e
    ensures ran.code != edited
    ensures sent == Unverified
  {
    ran := e.StartRun();
    e.EditSolution(edited);
    e.FinishRun(RunOutput(Some(e.expectedOutput)));
    assert !e.codeVerified && !e.MissingRequired();
    sent := e.Submit(false);
  }
}
