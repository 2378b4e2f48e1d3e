/** The student's exam screen: the ready gate (device permissions, then
    fullscreen), loading the questions (which begins the session on the
    server), the answer map, navigation, running code, and formatting the
    answers for submission. The proctoring hook is represented by the two
    booleans it reports, and server replies arrive as parameters. */
module TestScreen {
  import opened Wrappers
  import opened Schema
  import opened Text
  import opened Grading
  import StudentController

  /** `String.fromCharCode(65 + index)`: the letter stored for option
      `index` of a multiple-choice question. */
  function OptionKey(index: nat): (c: char)
    requires 65 + index < 0xD800
    ensures c as int == 65 + index
  {
    (65 + index) as char
  }

  /** The letter the screen stores for an option is the letter grading maps
      back to that same option. */
  lemma OptionKeyPointsAtOption(options: seq<string>, index: nat)
    requires index < |options| && 65 + index < 0xD800
    ensures KeyedOption(options, [OptionKey(index)]) == Some(options[index])
  {
  }

  /** Picking the option whose letter is the correct one scores. */
  lemma ChosenCorrectOptionScores(q: Question, index: nat)
    requires q.options.Some? && q.correctOption.Some? && 65 + index < 0xD800
    requires Upper(q.correctOption.value) == [OptionKey(index)]
    ensures McqVerdict(q, Some([OptionKey(index)])) == Success(true)
  {
  }

  /** The smallest element of a non-empty set of ids. */
  lemma {:induction false} Smallest(s: set<nat>) returns (m: nat)
    requires s != {}
    ensures m in s && forall k :: k in s ==> m <= k
    decreases |s|
  {
    var x :| x in s;
    if s == {x} {
      m := x;
    } else {
      var rest := Smallest(s - {x});
      m := if x < rest then x else rest;
      forall k | k in s ensures m <= k {
        if k != x {
          assert k in s - {x};
        }
      }
    }
  }

  /** `Object.keys(answers)` for keys that are question ids: JavaScript
      lists such integer keys once each, in ascending order. */
  method AnsweredIds(answers: map<nat, string>) returns (ids: seq<nat>)
    ensures |ids| == |answers|
    ensures forall k :: k in ids <==> k in answers
    ensures forall i, j :: 0 <= i < j < |ids| ==> ids[i] < ids[j]
  {
    var rest := answers.Keys;
    ids := [];
    while rest != {}
      invariant rest <= answers.Keys
      invariant |ids| + |rest| == |answers.Keys|
      invariant forall k :: k in ids <==> k in answers && k !in rest
      invariant forall i, j :: 0 <= i < j < |ids| ==> ids[i] < ids[j]
      invariant forall i, k :: 0 <= i < |ids| && k in rest ==> ids[i] < k
      decreases |rest|
    {
      ghost var m := Smallest(rest);
      var k :| k in rest && forall j :: j in rest ==> k <= j;
      ids := ids + [k];
      rest := rest - {k};
    }
    assert |answers.Keys| == |answers|;
  }

  /** `Object.keys(answers).map(...)`: one `{question_id, answer_text}` per
      answered question, with the answer last written for it, in ascending
      id order (`parseInt` of a key gives back the id). */
  method FormatAnswers(answers: map<nat, string>) returns (r: seq<SubmittedAnswer>)
    ensures |r| == |answers|
    ensures forall i :: 0 <= i < |r| ==>
      r[i].questionId >= 0 && r[i].questionId as nat in answers && r[i].answerText == Some(answers[r[i].questionId as nat])
    ensures forall k :: k in answers ==> exists i :: 0 <= i < |r| && r[i] == SubmittedAnswer(k, Some(answers[k]))
    ensures forall i, j :: 0 <= i < j < |r| ==> r[i].questionId < r[j].questionId
  {
    var ids := AnsweredIds(answers);
    r := seq(|ids|, i requires 0 <= i < |ids| => SubmittedAnswer(ids[i], Some(answers[ids[i]])));
    forall k | k in answers ensures exists i :: 0 <= i < |r| && r[i] == SubmittedAnswer(k, Some(answers[k])) {
      var i :| 0 <= i < |ids| && ids[i] == k;
      assert r[i] == SubmittedAnswer(k, Some(answers[k]));
    }
  }

  /** The ids of the loaded questions. */
  function QuestionIds(questions: seq<StudentController.QuestionView>): (s: set<nat>)
    ensures |s| <= |questions|
    ensures forall k :: k in s <==> exists i :: 0 <= i < |questions| && questions[i].id == k
  {
    if questions == [] then {}
    else
      var rest := QuestionIds(questions[1..]);
      assert forall i :: 0 <= i < |questions| - 1 ==> questions[1..][i] == questions[i + 1];
      {questions[0].id} + rest
  }

  /** Answers are only ever recorded for loaded questions, so the
      "Remaining" counter never goes negative. */
  lemma RemainingNonNegative(questions: seq<StudentController.QuestionView>, answers: map<nat, string>)
    requires answers.Keys <= QuestionIds(questions)
    ensures 0 <= |questions| - |answers| <= |questions|
  {
    assert |answers| == |answers.Keys|;
    var ids := QuestionIds(questions);
    assert |answers.Keys| <= |ids| by {
      SubsetCardinality(answers.Keys, ids);
    }
  }

  lemma {:induction false} SubsetCardinality(a: set<nat>, b: set<nat>)
    requires a <= b
    ensures |a| <= |b|
    decreases |b|
  {
    if a != {} {
      var x :| x in a;
      SubsetCardinality(a - {x}, b - {x});
    }
  }

  /** What `POST /exam/run` is sent. */
  datatype RunRequest = RunRequest(language: Option<string>, code: string)

  /** What `POST /student/test/submit` is sent. */
  datatype SubmitRequest = SubmitRequest(studentTestId: Option<nat>, answers: seq<SubmittedAnswer>)

  /** The text in the editor for a question: its answer, or `''`. */
  function CodeOf(answers: map<nat, string>, id: nat): (code: string)
    ensures code == "" <==> id !in answers || answers[id] == ""
  {
    if id in answers then answers[id] else ""
  }

  class ExamScreen {
    var ready: bool
    var loading: bool
    var loadFailed: bool
    var questions: seq<StudentController.QuestionView>
    var studentTestId: Option<nat>
    var currentIndex: nat
    var answers: map<nat, string>
    var runOutput: Option<string>
    var onDashboard: bool

    /** Nothing is answered or navigated before the questions arrive, the
        index stays on a loaded question, and only loaded questions are
        answered. */
    ghost predicate Valid()
      reads this
    {
      && (loading ==> currentIndex == 0 && answers == map[] && !loadFailed)
      && (currentIndex == 0 || currentIndex < |questions|)
      && answers.Keys <= QuestionIds(questions)
    }

    constructor()
      ensures Valid() && !ready && loading && !loadFailed && questions == [] && studentTestId.None?
      ensures currentIndex == 0 && answers == map[] && runOutput.None? && !onDashboard
    {
      ready := false;
      loading := true;
      loadFailed := false;
      questions := [];
      studentTestId := None;
      currentIndex := 0;
      answers := map[];
      runOutput := None;
      onDashboard := false;
    }

    /** `prepareTest`: fullscreen is requested only once the permissions are
        granted, and the screen becomes ready only when both are granted. */
    method PrepareTest(permissionsGranted: bool, fullscreenGranted: bool) returns (fullscreenRequested: bool)
      requires Valid()
      modifies this`ready
      ensures Valid()
      ensures fullscreenRequested == permissionsGranted
      ensures ready == (old(ready) || (permissionsGranted && fullscreenGranted))
    {
      fullscreenRequested := permissionsGranted;
      if !permissionsGranted {
        return;
      }
      if !fullscreenGranted {
        return;
      }
      ready := true;
    }

    /** The loading effect: nothing is requested (so no session is begun)
        until the screen is ready; then the reply either fills the screen or
        shows an error. */
    method FetchQuestions(response: StudentController.BeginResponse) returns (requested: bool)
      requires Valid() && loading
      modifies this`questions, this`studentTestId, this`loading, this`loadFailed
      ensures Valid()
      ensures requested == ready
      ensures !ready ==> questions == old(questions) && studentTestId == old(studentTestId) && loading && loadFailed == old(loadFailed)
      ensures ready && response.Started? ==>
        questions == response.questions && studentTestId == Some(response.studentTestId) && !loading && !loadFailed
      ensures ready && response.Forbidden? ==>
        questions == old(questions) && studentTestId == old(studentTestId) && !loading && loadFailed
    {
      if !ready {
        return false;
      }
      requested := true;
      match response
      case Started(qs, id) =>
        assert answers.Keys == {};
        questions := qs;
        studentTestId := Some(id);
        loading := false;
      case Forbidden =>
        loadFailed := true;
        loading := false;
    }

    /** `handleAnswerChange` for the question on screen: that question's
        answer is replaced and every other answer is kept. */
    method AnswerCurrent(answer: string)
      requires Valid() && !loading && currentIndex < |questions|
      modifies this`answers
      ensures Valid()
      ensures answers == old(answers)[questions[currentIndex].id := answer]
      ensures forall k :: k in old(answers) && k != questions[currentIndex].id ==> k in answers && answers[k] == old(answers)[k]
    {
      answers := answers[questions[currentIndex].id := answer];
    }

    /** `handleNext`: moves on only while a later question exists, clearing
        the run output; on the last question nothing happens. */
    method Next()
      requires Valid() && !loading
      modifies this`currentIndex, this`runOutput
      ensures Valid()
      ensures old(currentIndex) + 1 < |questions| ==> currentIndex == old(currentIndex) + 1 && runOutput.None?
      ensures old(currentIndex) + 1 >= |questions| ==> currentIndex == old(currentIndex) && runOutput == old(runOutput)
      ensures questions != [] ==> currentIndex < |questions|
    {
      if currentIndex < |questions| - 1 {
        runOutput := None;
        currentIndex := currentIndex + 1;
      }
    }

    /** Clicking a question in the sidebar jumps to it; the run output is
        kept. */
    method GoTo(index: nat)
      requires Valid() && !loading && index < |questions|
      modifies this`currentIndex
      ensures Valid() && currentIndex == index
    {
      currentIndex := index;
    }

    /** `handleRunCode`, behind the "Run Code" button that only a coding
        question shows: an empty editor is refused without a request;
        otherwise the code and the question's language are sent and the
        reply is shown. */
    method RunCode(reply: string) returns (sent: Option<RunRequest>)
      requires Valid() && !loading && currentIndex < |questions| && questions[currentIndex].kind == Some("code")
      modifies this`runOutput
      ensures Valid()
      ensures var q := questions[currentIndex];
        && (sent.None? <==> CodeOf(answers, q.id) == "")
        && (sent.Some? ==> sent.value == RunRequest(q.language, CodeOf(answers, q.id)) && runOutput == Some(reply))
        && (sent.None? ==> runOutput == old(runOutput))
    {
      var q := questions[currentIndex];
      var code := CodeOf(answers, q.id);
      if code == "" {
        return None;
      }
      sent := Some(RunRequest(q.language, code));
      runOutput := Some(reply);
    }

    /** "Attempted" and "Remaining" in the sidebar. */
    function Progress(): (counts: (nat, int))
      reads this
      ensures counts.0 == |answers.Keys|
      ensures Valid() ==> 0 <= counts.1 <= |questions| && counts.0 + counts.1 == |questions|
    {
      assert |answers| == |answers.Keys|;
      assert Valid() ==> 0 <= |questions| - |answers| by {
        if Valid() {
          RemainingNonNegative(questions, answers);
        }
      }
      (|answers|, |questions| - |answers|)
    }

    /** `handleSubmit`, behind the "Submit Test" button that only the last
        question shows: after the confirmation, every answer is sent once,
        keyed by its question id; an accepted submission returns to the
        dashboard. */
    method Submit(confirmed: bool, accepted: bool) returns (request: Option<SubmitRequest>)
      requires Valid() && !loading && currentIndex + 1 == |questions|
      modifies this`onDashboard
      ensures Valid()
      ensures request.None? <==> !confirmed
      ensures request.Some? ==>
        && request.value.studentTestId == studentTestId
        && |request.value.answers| == |answers|
        && (forall k :: k in answers ==>
              exists i :: 0 <= i < |request.value.answers| && request.value.answers[i] == SubmittedAnswer(k, Some(answers[k])))
        && (forall i :: 0 <= i < |request.value.answers| ==>
              var a := request.value.answers[i];
              a.questionId >= 0 && a.questionId as nat in answers && a.answerText == Some(answers[a.questionId as nat]))
      ensures onDashboard == (old(onDashboard) || (confirmed && accepted))
    {
      if !confirmed {
        return None;
      }
      var formatted := FormatAnswers(answers);
      request := Some(SubmitRequest(studentTestId, formatted));
      if accepted {
        onDashboard := true;
      }
    }

    /** `handleViolation` and `handleDeviceFailure`: back to the dashboard
        without submitting; the answers are neither sent nor changed. */
    method Leave()
      requires Valid()
      modifies this`onDashboard
      ensures Valid() && onDashboard
    {
      onDashboard := true;
    }
  }
}
