/** How `submitTest` marks answers: whether one submitted answer is correct
    for its question, and the pass over all submitted answers that counts
    the score and builds the `student_answers` rows. */
module Grading {
  import opened Wrappers
  import opened Text
  import opened Table
  import opened Schema

  /** One `{question_id, answer_text}` element of the request body;
      `answerText` is `None` when the field is absent (`undefined`). */
  datatype SubmittedAnswer = SubmittedAnswer(questionId: int, answerText: Option<string>)

  /** The JavaScript `TypeError` grading raises on a question whose
      `options` or `correct_option` column is NULL. */
  datatype Thrown = TypeError

  /** `optionsArray[i]`: `undefined` outside the array. */
  function OptionAt(options: seq<string>, i: int): (r: Option<string>)
    ensures r.Some? <==> 0 <= i < |options|
    ensures r.Some? ==> r.value == options[i]
  {
    if 0 <= i < |options| then Some(options[i]) else None
  }

  /** `optionsArray[key.charCodeAt(0) - 65]`; an empty key gives `NaN`,
      which indexes nothing. */
  function KeyedOption(options: seq<string>, key: string): Option<string> {
    if key == [] then None else OptionAt(options, key[0] as int - 65)
  }

  /** MCQ rule: the answer equals the upper-cased correct letter or the
      option text that letter points at. Comparisons are JavaScript `===`
      on possibly-`undefined` values. */
  function McqVerdict(q: Question, answer: Option<string>): (r: Result<bool, Thrown>)
    ensures r.Failure? <==> q.options.None? || q.correctOption.None?
    ensures r.Success? ==>
      (r.value <==> answer == Some(Upper(q.correctOption.value))
                    || answer == KeyedOption(q.options.value, Upper(q.correctOption.value)))
  {
    if q.correctOption.None? then Failure(TypeError)
    else
      var key := Upper(q.correctOption.value);
      if q.options.None? then Failure(TypeError)
      else Success(answer == Some(key) || answer == KeyedOption(q.options.value, key))
  }

  /** Code rule: both texts present and non-empty, and equal once trimmed. */
  predicate CodeVerdict(q: Question, answer: Option<string>) {
    Given(answer) && Given(q.solution) && Trim(answer.value) == Trim(q.solution.value)
  }

  /** The verdict for one answer: by `type`, any other type never scores. */
  function Verdict(q: Question, answer: Option<string>): (r: Result<bool, Thrown>)
    ensures r.Failure? ==> q.kind == Some("mcq")
    ensures q.kind != Some("mcq") && q.kind != Some("code") ==> r == Success(false)
  {
    if q.kind == Some("mcq") then McqVerdict(q, answer)
    else if q.kind == Some("code") then Success(CodeVerdict(q, answer))
    else Success(false)
  }

  /** `questionsMap.get(id)`: the question row with that id, if any. */
  function Lookup(questions: seq<Row<Question>>, qid: int): (r: Option<Row<Question>>)
    ensures r.Some? ==> r.value in questions && r.value.id == qid
    ensures r.None? <==> !HasId(questions, qid)
  {
    FindById(questions, qid)
  }

  /** One inserted `student_answers` row, before it gets its session and college. */
  datatype GradedAnswer = GradedAnswer(questionId: int, answerText: string, isCorrect: bool)

  /** Grading of the answers in submission order: answers to unknown
      questions produce no row; a thrown error aborts the whole pass. */
  function Graded(questions: seq<Row<Question>>, answers: seq<SubmittedAnswer>): Result<seq<GradedAnswer>, Thrown>
  {
    if answers == [] then Success([])
    else GradeNext(questions, Graded(questions, answers[..|answers| - 1]), answers[|answers| - 1])
  }

  /** One step of the pass: grade `a` after the rows graded so far. */
  function GradeNext(questions: seq<Row<Question>>, prior: Result<seq<GradedAnswer>, Thrown>, a: SubmittedAnswer)
    : Result<seq<GradedAnswer>, Thrown>
  {
    var q := Lookup(questions, a.questionId);
    if prior.Failure? || q.None? then prior
    else
      var v := Verdict(q.value.rec, a.answerText);
      if v.Failure? then Failure(v.error)
      else Success(prior.value + [GradedAnswer(a.questionId, a.answerText.GetOr(""), v.value)])
  }

  lemma GradedStep(questions: seq<Row<Question>>, answers: seq<SubmittedAnswer>, i: nat)
    requires i < |answers|
    ensures Graded(questions, answers[..i + 1]) == GradeNext(questions, Graded(questions, answers[..i]), answers[i])
  {
    assert answers[..i + 1][..i] == answers[..i];
  }

  /** The number of correct rows. */
  function Score(g: seq<GradedAnswer>): (n: nat)
    ensures n <= |g|
  {
    if g == [] then 0
    else Score(g[..|g| - 1]) + (if g[|g| - 1].isCorrect then 1 else 0)
  }

  /** The answers whose question id names an existing question. */
  function Known(questions: seq<Row<Question>>, answers: seq<SubmittedAnswer>): seq<SubmittedAnswer> {
    if answers == [] then []
    else
      var a := answers[|answers| - 1];
      Known(questions, answers[..|answers| - 1]) + (if HasId(questions, a.questionId) then [a] else [])
  }

  /** A pass that already failed on a prefix fails on the whole list. */
  lemma {:induction false} GradedPrefixFailure(questions: seq<Row<Question>>, answers: seq<SubmittedAnswer>, k: nat)
    requires k <= |answers| && Graded(questions, answers[..k]).Failure?
    ensures Graded(questions, answers).Failure?
    decreases |answers| - k
  {
    if k < |answers| {
      var next := answers[..k + 1];
      assert next[..k] == answers[..k];
      assert Graded(questions, next).Failure?;
      GradedPrefixFailure(questions, answers, k + 1);
    } else {
      assert answers[..k] == answers;
    }
  }

  /** Every row belongs to a known answer, in order and one for one, and
      carries that answer's verdict: unknown question ids are skipped. */
  lemma {:induction false} GradedRows(questions: seq<Row<Question>>, answers: seq<SubmittedAnswer>)
    requires Graded(questions, answers).Success?
    ensures var g := Graded(questions, answers).value;
      var k := Known(questions, answers);
      |g| == |k| <= |answers|
      && forall i :: 0 <= i < |g| ==>
           g[i].questionId == k[i].questionId
           && g[i].answerText == k[i].answerText.GetOr("")
           && Lookup(questions, k[i].questionId).Some?
           && Verdict(Lookup(questions, k[i].questionId).value.rec, k[i].answerText) == Success(g[i].isCorrect)
  {
    if answers != [] {
      var pre, a := answers[..|answers| - 1], answers[|answers| - 1];
      assert Graded(questions, pre).Success?;
      GradedRows(questions, pre);
      var g0, k0 := Graded(questions, pre).value, Known(questions, pre);
      var g, k := Graded(questions, answers).value, Known(questions, answers);
      if Lookup(questions, a.questionId).None? {
        assert g == g0 && k == k0;
      } else {
        assert g == g0 + [GradedAnswer(a.questionId, a.answerText.GetOr(""), g[|g| - 1].isCorrect)];
        assert k == k0 + [a];
        forall i | 0 <= i < |g0| ensures g[i] == g0[i] && k[i] == k0[i] {
        }
      }
    }
  }

  /** The score counts correct answers, so it never exceeds the number of
      submitted answers. */
  lemma ScoreAtMostAnswers(questions: seq<Row<Question>>, answers: seq<SubmittedAnswer>)
    requires Graded(questions, answers).Success?
    ensures Score(Graded(questions, answers).value) <= |answers|
  {
    GradedRows(questions, answers);
  }

  /** Answers that all name unknown questions produce no rows and no points. */
  lemma {:induction false} AllUnknownScoresZero(questions: seq<Row<Question>>, answers: seq<SubmittedAnswer>)
    requires forall i :: 0 <= i < |answers| ==> !HasId(questions, answers[i].questionId)
    ensures Graded(questions, answers) == Success([])
  {
    if answers != [] {
      AllUnknownScoresZero(questions, answers[..|answers| - 1]);
    }
  }

  /** The grading loop of `submitTest`: one pass over the answers that keeps
      a running score and the rows to insert, stopping at the first throw. */
  method GradeAnswers(questions: seq<Row<Question>>, answers: seq<SubmittedAnswer>)
    returns (r: Result<(seq<GradedAnswer>, nat), Thrown>)
    ensures r.Failure? <==> Graded(questions, answers).Failure?
    ensures r.Success? ==> r.value.0 == Graded(questions, answers).value && r.value.1 == Score(r.value.0)
  {
    var rows: seq<GradedAnswer> := [];
    var score: nat := 0;
    var i := 0;
    while i < |answers|
      invariant 0 <= i <= |answers|
      invariant Graded(questions, answers[..i]) == Success(rows)
      invariant score == Score(rows)
    {
      var a := answers[i];
      GradedStep(questions, answers, i);
      var q := Lookup(questions, a.questionId);
      if q.Some? {
        var v := Verdict(q.value.rec, a.answerText);
        if v.Failure? {
          GradedPrefixFailure(questions, answers, i + 1);
          return Failure(v.error);
        }
        var row := GradedAnswer(a.questionId, a.answerText.GetOr(""), v.value);
        assert (rows + [row])[..|rows|] == rows;
        if v.value {
          score := score + 1;
        }
        rows := rows + [row];
      }
      i := i + 1;
    }
    assert answers[..i] == answers;
    r := Success((rows, score));
  }

  /** An MCQ question whose options are `[o0, o1, o2, o3]` and whose key is
      `'B'` accepts `"B"` and `o1`, and rejects `o0` when `o0` is neither. */
  lemma McqLetterOrText(q: Question, o0: string, o1: string, o2: string, o3: string)
    requires q.kind == Some("mcq") && q.options == Some([o0, o1, o2, o3]) && q.correctOption == Some("B")
    ensures Verdict(q, Some("B")) == Success(true)
    ensures Verdict(q, Some(o1)) == Success(true)
    ensures o0 != "B" && o0 != o1 ==> Verdict(q, Some(o0)) == Success(false)
  {
    assert Upper("B") == "B";
  }

  /** A lower-case stored key is compared upper-cased, so `"c"` in the column
      accepts the answer `"C"` and the third option text. */
  lemma McqKeyUpperCased(q: Question, opts: seq<string>)
    requires q.kind == Some("mcq") && q.options == Some(opts) && |opts| == 4 && q.correctOption == Some("c")
    ensures Verdict(q, Some("C")) == Success(true)
    ensures Verdict(q, Some(opts[2])) == Success(true)
    ensures Verdict(q, Some("c")) == Success("c" == opts[2])
  {
    assert Upper("c") == "C";
  }

  /** As written, an answer without `answer_text` (`undefined`) is graded
      correct when the stored letter points past the options, because
      `undefined === optionsArray[outOfRange]`. */
  lemma McqMissingAnswerOutOfRange(q: Question)
    requires q.kind == Some("mcq") && q.options.Some? && |q.options.value| == 4 && q.correctOption == Some("E")
    ensures Verdict(q, None) == Success(true)
  {
    assert Upper("E") == "E";
  }

  /** Whitespace around a code answer never matters: the solution with any
      surrounding whitespace grades correct. */
  lemma CodeIgnoresSurroundingWhitespace(q: Question, pre: string, post: string)
    requires q.kind == Some("code") && q.solution.Some? && q.solution.value != ""
    requires AllWhitespace(pre) && AllWhitespace(post)
    ensures Verdict(q, Some(pre + q.solution.value + post)) == Success(true)
  {
    TrimPadded(pre, q.solution.value, post);
  }

  /** The solution `print(1)` accepts `" print(1) \n"`. */
  lemma CodePaddedExample(q: Question)
    requires q.kind == Some("code") && q.solution == Some("print(1)")
    ensures Verdict(q, Some(" print(1) \n")) == Success(true)
  {
    assert " print(1) \n" == " " + "print(1)" + " \n";
    CodeIgnoresSurroundingWhitespace(q, " ", " \n");
  }

  /** The solution `print(1)` rejects `"print(1);"`. */
  lemma CodeSemicolonExample(q: Question)
    requires q.kind == Some("code") && q.solution == Some("print(1)")
    ensures Verdict(q, Some("print(1);")) == Success(false)
  {
    var a := "print(1);";
    var sol := "print(1)";
    assert !IsWhitespace(a[0]) && !IsWhitespace(a[|a| - 1]);
    assert !IsWhitespace(sol[0]) && !IsWhitespace(sol[|sol| - 1]);
    assert TrimStart(a) == a && TrimEnd(a) == a;
    assert TrimStart(sol) == sol && TrimEnd(sol) == sol;
    assert |Trim(a)| != |Trim(sol)|;
  }

  /** An empty or absent code answer never scores, whatever the solution. */
  lemma CodeEmptyAnswerWrong(q: Question, answer: Option<string>)
    requires q.kind == Some("code") && !Given(answer)
    ensures Verdict(q, answer) == Success(false)
  {
  }
}
