/** The admin's "schedule a test" form: a title, a duration, a start time
    and a selection of question ids toggled one checkbox at a time. Submit
    validates in order, posts the form as it stands, and clears it once the
    server accepted it. Times are integers on one clock; the current time
    is a parameter. */
module ScheduleTestForm {
  import opened Wrappers
  import opened Text
  import opened Schema
  import AdminController

  // ------------------------------------------------------------ the selection

  /** `prev.filter(qId => qId !== id)`: every occurrence of `id` dropped,
      the rest in order. */
  function Without(s: seq<int>, id: int): (r: seq<int>)
    ensures |r| <= |s|
    ensures forall x :: x in r <==> x in s && x != id
  {
    if s == [] then []
    else if s[0] == id then Without(s[1..], id)
    else [s[0]] + Without(s[1..], id)
  }

  /** `handleQuestionToggle`: a selected id is removed, any other id is
      appended at the end. */
  function Toggled(s: seq<int>, id: int): seq<int> {
    if id in s then Without(s, id) else s + [id]
  }

  predicate NoDuplicates(s: seq<int>) {
    forall i, j :: 0 <= i < j < |s| ==> s[i] != s[j]
  }

  /** Toggling flips the membership of that id and of no other. */
  lemma ToggleFlips(s: seq<int>, id: int)
    ensures id in Toggled(s, id) <==> id !in s
    ensures forall x :: x != id ==> (x in Toggled(s, id) <==> x in s)
  {
  }

  /** Dropping an id keeps the remaining ids in their order, so a list
      without repeats stays without repeats. */
  lemma {:induction false} WithoutNoDuplicates(s: seq<int>, id: int)
    requires NoDuplicates(s)
    ensures NoDuplicates(Without(s, id))
  {
    if s != [] {
      WithoutNoDuplicates(s[1..], id);
      if s[0] != id {
        assert s[0] !in s[1..];
      }
    }
  }

  /** Checkbox clicks never select an id twice. */
  lemma ToggleNoDuplicates(s: seq<int>, id: int)
    requires NoDuplicates(s)
    ensures NoDuplicates(Toggled(s, id))
  {
    if id in s {
      WithoutNoDuplicates(s, id);
    }
  }

  /** An id absent from a list has nothing to drop. */
  lemma {:induction false} WithoutAbsent(s: seq<int>, id: int)
    requires id !in s
    ensures Without(s, id) == s
  {
    if s != [] {
      WithoutAbsent(s[1..], id);
      assert [s[0]] + s[1..] == s;
    }
  }

  /** Ticking an unselected box and unticking it again restores the
      selection exactly. */
  lemma ToggleTwiceRestores(s: seq<int>, id: int)
    requires id !in s
    ensures Toggled(Toggled(s, id), id) == s
  {
    WithoutAbsent(s, id);
    WithoutAppend(s, [id], id);
    assert Without([id], id) == [];
    assert s + [] == s;
  }

  lemma {:induction false} WithoutAppend(a: seq<int>, b: seq<int>, id: int)
    ensures Without(a + b, id) == Without(a, id) + Without(b, id)
  {
    if a == [] {
      assert a + b == b;
    } else {
      assert (a + b)[1..] == a[1..] + b;
      WithoutAppend(a[1..], b, id);
    }
  }

  /** Unticking a selected box and ticking it again keeps the same ids, with
      that id moved to the end. */
  lemma ToggleTwiceMovesLast(s: seq<int>, id: int)
    requires id in s
    ensures Toggled(Toggled(s, id), id) == Without(s, id) + [id]
    ensures forall x :: x in Toggled(Toggled(s, id), id) <==> x in s
  {
  }

  // ------------------------------------------------------------ validation

  datatype FormError =
    | NoTitle        // "Please provide a test title."
    | NoQuestions    // "Please select at least one question."
    | NoFutureTime   // "Please choose a valid future time."

  /** The checks of `handleSubmit`, in order: a title that is blank after
      trimming, then an empty selection, then a start time that is missing
      or earlier than now. A title is blank after trimming exactly when it
      is all whitespace (`Text.TrimEmptyIffAllWhitespace`). */
  function Validate(title: string, selected: seq<int>, scheduledAt: Option<int>, now: int): Option<FormError> {
    if AllWhitespace(title) then Some(NoTitle)
    else if |selected| == 0 then Some(NoQuestions)
    else if scheduledAt.None? || scheduledAt.value < now then Some(NoFutureTime)
    else None
  }

  /** The first check that fails is the one reported, and the form passes
      exactly when all three hold. */
  lemma ValidateReports(title: string, selected: seq<int>, scheduledAt: Option<int>, now: int)
    ensures var r := Validate(title, selected, scheduledAt, now);
      && (r == Some(NoTitle) <==> Trim(title) == "")
      && (r == Some(NoQuestions) <==> Trim(title) != "" && selected == [])
      && (r == Some(NoFutureTime) <==> Trim(title) != "" && selected != [] && (scheduledAt.None? || scheduledAt.value < now))
      && (r.None? <==> Trim(title) != "" && selected != [] && scheduledAt.Some? && scheduledAt.value >= now)
  {
    TrimEmptyIffAllWhitespace(title);
  }

  /** A start time equal to the current time is accepted: the comparison is
      strict. */
  lemma StartingNowAccepted(title: string, selected: seq<int>, now: int)
    requires Trim(title) != "" && selected != []
    ensures Validate(title, selected, Some(now), now).None?
  {
    TrimEmptyIffAllWhitespace(title);
  }

  // ------------------------------------------------------------ the form

  /** The banner above the form. */
  datatype Banner = NoBanner | Invalid(error: FormError) | TestScheduled | ScheduleFailed

  /** The form's state. The duration field holds 60 until edited; an
      emptied duration field is not represented. */
  class ScheduleForm {
    var title: string
    var duration: int
    var scheduledAt: Option<int>
    var selected: seq<int>
    var banner: Banner

    predicate Valid()
      reads this
    {
      NoDuplicates(selected)
    }

    /** The initial state of the page. */
    constructor ()
      ensures Valid()
      ensures title == "" && duration == 60 && scheduledAt.None? && selected == [] && banner == NoBanner
    {
      title, duration, scheduledAt, selected, banner := "", 60, None, [], NoBanner;
    }

    /** A checkbox click. */
    method Toggle(id: int)
      requires Valid()
      modifies this`selected
      ensures Valid()
      ensures selected == Toggled(old(selected), id)
    {
      ToggleNoDuplicates(selected, id);
      selected := Toggled(selected, id);
    }

    /** The browser's own checks, made before `handleSubmit` runs: the
        title, the duration and the start time are required, the duration
        is at least 1, and the start time is not before `minShown`, the
        `min` the time field was last rendered with. */
    predicate Refused(minShown: int)
      reads this
    {
      title == "" || duration < 1 || scheduledAt.None? || scheduledAt.value < minShown
    }

    /** Pressing "Schedule" at time `now`; `accepted` is whether the server
      answered the post with success. A form the browser refuses changes
      nothing. Otherwise `handleSubmit` runs: the request is sent only when
      its checks pass and carries the title as typed (not trimmed) and
      exactly the current selection; only an accepted request clears the
      form. */
    method Submit(now: int, minShown: int, accepted: bool) returns (request: Option<AdminController.ScheduleBody>)
      requires Valid()
      modifies this
      ensures Valid()
      ensures old(Refused(minShown)) ==>
        && request.None? && banner == old(banner)
        && title == old(title) && duration == old(duration)
        && scheduledAt == old(scheduledAt) && selected == old(selected)
      ensures !old(Refused(minShown)) && Validate(old(title), old(selected), old(scheduledAt), now).Some? ==>
        && request.None?
        && banner == Invalid(Validate(old(title), old(selected), old(scheduledAt), now).value)
        && title == old(title) && duration == old(duration)
        && scheduledAt == old(scheduledAt) && selected == old(selected)
      ensures !old(Refused(minShown)) && Validate(old(title), old(selected), old(scheduledAt), now).None? ==>
        request == Some(AdminController.ScheduleBody(old(title), old(duration), old(scheduledAt).value, Some(old(selected))))
      ensures !old(Refused(minShown)) && Validate(old(title), old(selected), old(scheduledAt), now).None? && accepted ==>
        banner == TestScheduled && title == "" && duration == 60 && scheduledAt.None? && selected == []
      ensures !old(Refused(minShown)) && Validate(old(title), old(selected), old(scheduledAt), now).None? && !accepted ==>
        && banner == ScheduleFailed
        && title == old(title) && duration == old(duration)
        && scheduledAt == old(scheduledAt) && selected == old(selected)
    {
      if Refused(minShown) {
        return None;
      }
      var e := Validate(title, selected, scheduledAt, now);
      if e.Some? {
        request := None;
        banner := Invalid(e.value);
      } else {
        request := Some(AdminController.ScheduleBody(title, duration, scheduledAt.value, Some(selected)));
        if accepted {
          banner := TestScheduled;
          title, duration, scheduledAt, selected := "", 60, None, [];
        } else {
          banner := ScheduleFailed;
        }
      }
    }
  }

  /** The server links the new test to exactly the selected questions, in
      the order they were ticked. */
  lemma PostedSelectionLinked(title: string, duration: int, at: int, selected: seq<int>, testId: nat)
    ensures var links := AdminController.QuestionLinks(testId, AdminController.ScheduleBody(title, duration, at, Some(selected)).questionIds);
      |links| == |selected| && forall k :: 0 <= k < |links| ==> links[k] == TestQuestion(testId, selected[k])
  {
  }

  /** A selection made only of checkbox clicks has no repeated id, so the
      test gets no duplicate link. */
  lemma {:induction false} ClicksGiveDistinctLinks(clicks: seq<int>, testId: nat)
    ensures NoDuplicates(Clicked(clicks))
    ensures var links := AdminController.QuestionLinks(testId, Some(Clicked(clicks)));
      forall i, j :: 0 <= i < j < |links| ==> links[i] != links[j]
  {
    if clicks != [] {
      ClicksGiveDistinctLinks(clicks[..|clicks| - 1], testId);
      ToggleNoDuplicates(Clicked(clicks[..|clicks| - 1]), clicks[|clicks| - 1]);
    }
  }

  /** The selection after a sequence of checkbox clicks from an empty one. */
  function Clicked(clicks: seq<int>): seq<int> {
    if clicks == [] then [] else Toggled(Clicked(clicks[..|clicks| - 1]), clicks[|clicks| - 1])
  }
}
