/** The admin's question list: the college's questions as the server lists
    them, a case-insensitive search over their text, delete, and a modal
    that edits a question's text. */
module QuestionList {
  import opened Wrappers
  import opened Text
  import opened Table
  import opened Schema
  import AdminController
  import Grading

  // ------------------------------------------------------------ search

  /** The search's test: the lower-cased text contains the lower-cased term. */
  predicate TextMatches(q: Row<Question>, term: string) {
    Contains(Lower(q.rec.text), Lower(term))
  }

  /** `filteredQuestions`: the questions whose text matches, in list order. */
  function Filtered(questions: seq<Row<Question>>, term: string): (r: seq<Row<Question>>)
    ensures |r| <= |questions|
    ensures forall x :: x in r <==> x in questions && TextMatches(x, term)
  {
    if questions == [] then []
    else if TextMatches(questions[0], term) then [questions[0]] + Filtered(questions[1..], term)
    else Filtered(questions[1..], term)
  }

  /** The filter keeps list order: filtering two parts of a list and joining
      them is filtering the whole list. */
  lemma {:induction false} FilteredAppend(a: seq<Row<Question>>, b: seq<Row<Question>>, term: string)
    ensures Filtered(a + b, term) == Filtered(a, term) + Filtered(b, term)
  {
    if a == [] {
      assert a + b == b;
    } else {
      assert (a + b)[1..] == a[1..] + b;
      FilteredAppend(a[1..], b, term);
    }
  }

  /** An empty search box shows every question. */
  lemma {:induction false} EmptyTermKeepsAll(questions: seq<Row<Question>>)
    ensures Filtered(questions, "") == questions
  {
    if questions != [] {
      ContainsEmpty(Lower(questions[0].rec.text));
      EmptyTermKeepsAll(questions[1..]);
    }
  }

  /** The search ignores the case of the term (for ASCII letters). */
  lemma {:induction false} TermCaseIgnored(questions: seq<Row<Question>>, term: string)
    ensures Filtered(questions, Upper(term)) == Filtered(questions, term)
  {
    LowerUpper(term);
    if questions != [] {
      TermCaseIgnored(questions[1..], term);
    }
  }

  // ------------------------------------------------------------ delete

  /** `prev.filter(q => q.id !== id)`. */
  function WithoutId(questions: seq<Row<Question>>, id: int): (r: seq<Row<Question>>)
    ensures forall x :: x in r <==> x in questions && x.id != id
    ensures |r| <= |questions|
  {
    if questions == [] then []
    else if questions[0].id == id then WithoutId(questions[1..], id)
    else [questions[0]] + WithoutId(questions[1..], id)
  }

  /** Delete keeps the other entries in their order. */
  lemma {:induction false} WithoutIdAppend(a: seq<Row<Question>>, b: seq<Row<Question>>, id: int)
    ensures WithoutId(a + b, id) == WithoutId(a, id) + WithoutId(b, id)
  {
    if a == [] {
      assert a + b == b;
    } else {
      assert (a + b)[1..] == a[1..] + b;
      WithoutIdAppend(a[1..], b, id);
    }
  }

  /** After the server deleted the question, the list shows the same
      questions as a fresh `GET /admin/questions` would. */
  lemma LocalDeleteMatchesServer(table: seq<Row<Question>>, id: int, user: Principal)
    requires Truthy(user.collegeId)
    ensures forall x ::
      x in WithoutId(AdminController.GetQuestions(table, user), id)
      <==> x in AdminController.GetQuestions(AdminController.DropQuestion(table, id, user.collegeId), user)
  {
  }

  // ------------------------------------------------------------ edit

  /** The list after a save: the entry with that id gets the new text and
      keeps every other column; the other entries are untouched. */
  function WithText(questions: seq<Row<Question>>, id: int, text: string): (r: seq<Row<Question>>)
    ensures |r| == |questions|
    ensures forall i :: 0 <= i < |questions| ==>
      r[i] == (if questions[i].id == id then Row(id, questions[i].rec.(text := text)) else questions[i])
  {
    seq(|questions|, i requires 0 <= i < |questions| =>
      if questions[i].id == id then Row(id, questions[i].rec.(text := text)) else questions[i])
  }

  /** The body `handleSave` sends as written: the text alone, so every other
      column of the body is absent. */
  function TextOnlyBody(text: string): (b: AdminController.QuestionBody)
    ensures b.text == text
    ensures b.kind.None? && b.language.None? && b.options.None? && b.correctOption.None?
    ensures b.solution.None? && b.expectedOutput.None?
  {
    AdminController.QuestionBody(text, None, None, None, None, None, None)
  }

  /** The body a text edit needs: the question's own columns with only the
      text replaced. */
  function TextEditBody(q: Question, text: string): (b: AdminController.QuestionBody)
    ensures AdminController.Stored(b, q.createdBy, q.collegeId) == q.(text := text)
  {
    AdminController.QuestionBody(text, q.kind, q.language, q.options, q.correctOption, q.solution, q.expectedOutput)
  }

  /** As written, saving a new text through the list clears the question's
      type, language, options, key, solution and expected output on the
      server, so no answer to it can be graded correct any more; the list
      meanwhile still shows the old type. */
  lemma TextOnlySaveWipesQuestion(table: seq<Row<Question>>, id: int, college: Option<nat>, text: string,
                                  i: nat, answer: Option<string>)
    requires i < |table| && AdminController.OwnQuestion(id, college)(table[i])
    ensures var stored := AdminController.EditQuestion(table, id, college, TextOnlyBody(text))[i].rec;
      && stored.text == text
      && stored.kind.None? && stored.language.None? && stored.options.None?
      && stored.correctOption.None? && stored.solution.None? && stored.expectedOutput.None?
      && Grading.Verdict(stored, answer) == Success(false)
    ensures WithText(table, id, text)[i].rec.kind == table[i].rec.kind
  {
  }

  /** A coding question whose solution was graded correct before the edit is
      graded wrong after a text-only save. */
  lemma TextOnlySaveBreaksGrading(table: seq<Row<Question>>, id: int, college: Option<nat>, i: nat)
    requires i < |table| && AdminController.OwnQuestion(id, college)(table[i])
    requires table[i].rec.kind == Some("code") && Given(table[i].rec.solution)
    ensures Grading.Verdict(table[i].rec, table[i].rec.solution) == Success(true)
    ensures Grading.Verdict(AdminController.EditQuestion(table, id, college, TextOnlyBody(table[i].rec.text))[i].rec,
                            table[i].rec.solution) == Success(false)
  {
    var q := table[i].rec;
    assert Grading.CodeVerdict(q, q.solution);
    TextOnlySaveWipesQuestion(table, id, college, q.text, i, q.solution);
  }

  /** With the full body, the server changes the text of that question and
      nothing else, and its rows of the college then agree with the list's
      own update. */
  lemma TextEditChangesOnlyText(table: seq<Row<Question>>, id: int, college: nat, text: string, i: nat)
    requires IdsAscending(table)
    requires i < |table| && table[i].id == id && table[i].rec.collegeId == college
    ensures var edited := AdminController.EditQuestion(table, id, Some(college), TextEditBody(table[i].rec, text));
      forall j :: 0 <= j < |table| && table[j].rec.collegeId == college ==> edited[j] == WithText(table, id, text)[j]
    ensures var edited := AdminController.EditQuestion(table, id, Some(college), TextEditBody(table[i].rec, text));
      forall j :: 0 <= j < |table| && table[j].rec.collegeId != college ==> edited[j] == table[j]
  {
    var b := TextEditBody(table[i].rec, text);
    var edited := AdminController.EditQuestion(table, id, Some(college), b);
    forall j | 0 <= j < |table| && table[j].rec.collegeId == college
      ensures edited[j] == WithText(table, id, text)[j]
    {
      if table[j].id == id {
        AscendingIdsUnique(table, i, j);
        assert AdminController.OwnQuestion(id, Some(college))(table[j]);
      }
    }
  }

  // ------------------------------------------------------------ the page

  /** The list page's state: the listed questions, the search box, the id
      being deleted, and the edit modal with the id and text it edits. */
  class QuestionListPage {
    var questions: seq<Row<Question>>
    var loading: bool
    var deletingId: Option<int>
    var searchTerm: string
    var modalOpen: bool
    var editId: Option<int>
    var editText: string

    /** The modal is open exactly while it edits a listed question. */
    predicate Valid()
      reads this
    {
      && (modalOpen <==> editId.Some?)
      && (editId.Some? ==> HasId(questions, editId.value))
      && deletingId.None?
    }

    constructor ()
      ensures Valid()
      ensures questions == [] && loading && deletingId.None? && searchTerm == ""
      ensures !modalOpen && editId.None? && editText == ""
    {
      questions, loading, deletingId, searchTerm := [], true, None, "";
      modalOpen, editId, editText := false, None, "";
    }

    /** The first `GET /admin/questions`: the list on success, the list unchanged
      on failure; the spinner stops either way. */
    method Loaded(response: Option<seq<Row<Question>>>)
      requires Valid() && !modalOpen
      modifies this`questions, this`loading
      ensures Valid()
      ensures questions == (if response.Some? then response.value else old(questions)) && !loading
    {
      if response.Some? {
        questions := response.value;
      }
      loading := false;
    }

    /** The rows on screen. */
    function Visible(): (r: seq<Row<Question>>)
      reads this
      ensures forall x :: x in r <==> x in questions && TextMatches(x, searchTerm)
    {
      Filtered(questions, searchTerm)
    }

    method Search(term: string)
      modifies this`searchTerm
      ensures searchTerm == term
    {
      searchTerm := term;
    }

    /** `handleDelete`: nothing without confirmation; otherwise the request
      is sent and, when it succeeds, every entry with that id leaves the
      list. The open modal covers the list, so no delete happens while it
      is open. */
    method Delete(id: int, confirmed: bool, accepted: bool) returns (sent: bool)
      requires Valid() && !modalOpen
      modifies this`questions, this`deletingId
      ensures Valid()
      ensures sent == confirmed
      ensures questions == (if confirmed && accepted then WithoutId(old(questions), id) else old(questions))
    {
      if !confirmed {
        return false;
      }
      deletingId := Some(id);
      sent := true;
      if accepted {
        questions := WithoutId(questions, id);
      }
      deletingId := None;
    }

    /** `openEditModal`. */
    method OpenEditModal(q: Row<Question>)
      requires Valid() && q in questions
      modifies this`modalOpen, this`editId, this`editText
      ensures Valid()
      ensures modalOpen && editId == Some(q.id) && editText == q.rec.text
    {
      editId := Some(q.id);
      editText := q.rec.text;
      modalOpen := true;
    }

    method EditText(text: string)
      modifies this`editText
      ensures editText == text
    {
      editText := text;
    }

    /** `closeModal`, also run on a click outside the modal. */
    method CloseModal()
      requires Valid()
      modifies this`modalOpen, this`editId, this`editText
      ensures Valid()
      ensures !modalOpen && editId.None? && editText == ""
    {
      modalOpen := false;
      editId := None;
      editText := "";
    }

    /** `handleSave`, with the request carrying the edited question's own
      columns and the new text. When the server accepts it, the entry with
      that id shows the new text and the modal closes; otherwise nothing
      changes. */
    method Save(accepted: bool) returns (target: int, body: AdminController.QuestionBody)
      requires Valid() && modalOpen
      modifies this`questions, this`modalOpen, this`editId, this`editText
      ensures Valid()
      ensures target == old(editId).value
      ensures exists q :: q in old(questions) && q.id == target && body == TextEditBody(q.rec, old(editText))
      ensures accepted ==>
        questions == WithText(old(questions), target, old(editText)) && !modalOpen && editId.None? && editText == ""
      ensures !accepted ==>
        questions == old(questions) && modalOpen && editId == old(editId) && editText == old(editText)
    {
      target := editId.value;
      var q := Find(questions, IdIs(target)).value;
      body := TextEditBody(q.rec, editText);
      if accepted {
        questions := WithText(questions, target, editText);
        modalOpen := false;
        editId := None;
        editText := "";
      }
    }
  }
}
