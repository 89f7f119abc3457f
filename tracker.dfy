/** The application state of the tracker and the handlers that change it:
    the task store (`tasks`), the filter criteria (`currentFilters`) and the
    subject drop-down that `updateSubjectFilter` rebuilds. Rendering is
    modelled up to the list it would draw and the empty-state message. */
module Tracker {
  import opened Tasks
  import opened Filter
  import opened Store
  import opened Sorting

  /** The two empty-state messages of `renderTasks`. */
  datatype Placeholder = NoTasksYet | NoMatches

  /** No message while something is shown; otherwise "No tasks yet" for an
      empty store and "No tasks match your filters" for a non-empty one. */
  function EmptyState(all: seq<Task>, shown: seq<Task>): (p: Option<Placeholder>)
    ensures p.None? <==> shown != []
    ensures p == Some(NoTasksYet) <==> shown == [] && all == []
  {
    if shown != [] then None
    else if all == [] then Some(NoTasksYet)
    else Some(NoMatches)
  }

  /** With no active criterion the "no matches" message never appears. */
  lemma NoMatchesNeedsActiveFilter(tasks: seq<Task>, c: Criteria, clock: Clock)
    requires !HasActiveFilters(c)
    ensures EmptyState(tasks, FilterTasks(tasks, c, clock)) != Some(NoMatches)
  {
    InactiveFiltersKeepAll(tasks, c, clock);
  }

  class Tracker {
    var tasks: seq<Task>
    var filters: Criteria
    /** The subject options of the drop-down, after "All Subjects". */
    var subjectOptions: seq<string>
    /** The value the subject drop-down shows. */
    var subjectChoice: string

    /** Start-up: the saved task list, or an empty store when nothing is
        saved; default criteria; the drop-down built from the loaded tasks. */
    constructor (saved: Option<seq<Task>>)
      ensures tasks == (if saved.Some? then saved.value else [])
      ensures filters == DefaultCriteria
      ensures subjectOptions == SubjectList(tasks)
      ensures subjectChoice == AllSubjects
    {
      tasks := if saved.Some? then saved.value else [];
      filters := DefaultCriteria;
      subjectOptions := SubjectList(if saved.Some? then saved.value else []);
      subjectChoice := AllSubjects;
    }

    /** `updateSubjectFilter`: rebuilds the options and keeps the shown value
        only while it is still an option. `filters` is left as it was. */
    method RefreshSubjects()
      modifies this
      ensures subjectOptions == SubjectList(tasks)
      ensures subjectChoice == KeptSelection(subjectOptions, old(subjectChoice))
      ensures tasks == old(tasks) && filters == old(filters)
    {
      subjectOptions := SubjectList(tasks);
      subjectChoice := KeptSelection(subjectOptions, subjectChoice);
    }

    /** `handleTaskSubmit`: a valid form prepends a new open task and rebuilds
        the subject options; an invalid one changes nothing. The id and the
        creation instant are supplied by the caller. */
    method Submit(form: TaskForm, id: string, createdAt: int) returns (created: bool)
      modifies this
      ensures created <==> NewTask(form, id, createdAt).Some?
      ensures created ==>
        && |tasks| == |old(tasks)| + 1
        && tasks[0] == NewTask(form, id, createdAt).value
        && tasks[1..] == old(tasks)
        && subjectOptions == SubjectList(tasks)
        && subjectChoice == KeptSelection(subjectOptions, old(subjectChoice))
      ensures !created ==>
        tasks == old(tasks) && subjectOptions == old(subjectOptions) && subjectChoice == old(subjectChoice)
      ensures created && UniqueIds(old(tasks)) && !HasId(old(tasks), id) ==> UniqueIds(tasks)
      ensures filters == old(filters)
    {
      var t := NewTask(form, id, createdAt);
      if t.None? {
        return false;
      }
      if UniqueIds(tasks) && !HasId(tasks, id) {
        PrependFreshId(t.value, tasks);
      }
      tasks := [t.value] + tasks;
      RefreshSubjects();
      created := true;
    }

    /** `toggleTaskComplete`. */
    method ToggleComplete(id: string)
      modifies this
      ensures tasks == Toggle(old(tasks), id)
      ensures UniqueIds(old(tasks)) ==> UniqueIds(tasks)
      ensures filters == old(filters)
      ensures subjectOptions == old(subjectOptions) && subjectChoice == old(subjectChoice)
    {
      if UniqueIds(tasks) {
        ToggleKeepsUniqueIds(tasks, id);
      }
      tasks := Toggle(tasks, id);
    }

    /** `deleteTask`: removes the tasks with this id and rebuilds the subject
        options. */
    method Delete(id: string)
      modifies this
      ensures tasks == Remove(old(tasks), id)
      ensures UniqueIds(old(tasks)) ==> UniqueIds(tasks)
      ensures subjectOptions == SubjectList(tasks)
      ensures subjectChoice == KeptSelection(subjectOptions, old(subjectChoice))
      ensures filters == old(filters)
    {
      if UniqueIds(tasks) {
        RemoveKeepsUniqueIds(tasks, id);
      }
      tasks := Remove(tasks, id);
      RefreshSubjects();
    }

    /** `handleSearch`. */
    method SetSearch(search: string)
      modifies this`filters
      ensures filters == old(filters).(search := search)
    {
      filters := filters.(search := search);
    }

    /** `handleStatusFilter`. */
    method SetStatus(status: StatusSelector)
      modifies this`filters
      ensures filters == old(filters).(status := status)
    {
      filters := filters.(status := status);
    }

    /** `handleSubjectFilter`: the picked option becomes both the shown value
        and the criterion. */
    method SetSubject(subject: string)
      modifies this`filters, this`subjectChoice
      ensures filters == old(filters).(subject := subject)
      ensures subjectChoice == subject
    {
      filters := filters.(subject := subject);
      subjectChoice := subject;
    }

    /** `handleResetFilters`. */
    method ResetFilters()
      modifies this`filters, this`subjectChoice
      ensures filters == DefaultCriteria && !HasActiveFilters(filters)
      ensures subjectChoice == AllSubjects
    {
      filters := DefaultCriteria;
      subjectChoice := AllSubjects;
    }

    /** `updateResetButton`: whether the reset button is shown. */
    function ResetButtonVisible(): (visible: bool)
      reads this
      ensures visible <==> filters != DefaultCriteria
    {
      HasActiveFilters(filters)
    }

    /** `renderTasks` up to drawing: the filtered tasks sorted by the
        comparator at one instant, and the empty-state message. */
    method Render(clock: Clock) returns (shown: seq<Task>, placeholder: Option<Placeholder>)
      ensures multiset(shown) == multiset(FilterTasks(tasks, filters, clock))
      ensures Sorted(shown, clock)
      ensures forall i :: 0 <= i < |shown| ==> Passes(shown[i], filters, clock)
      ensures placeholder == EmptyState(tasks, shown)
    {
      var filtered := FilterTasks(tasks, filters, clock);
      var a := new Task[|filtered|](i requires 0 <= i < |filtered| => filtered[i]);
      assert a[..] == filtered;
      SortTasks(a, clock);
      shown := a[..];
      forall i | 0 <= i < |shown| ensures Passes(shown[i], filters, clock) {
        assert shown[i] in multiset(filtered);
      }
      placeholder := EmptyState(tasks, shown);
    }
  }

  /** The drop-down and the criterion can disagree: once the last task of the
      selected subject is deleted, the drop-down falls back to "All Subjects"
      while the criterion keeps the vanished subject, so a task added later
      under another subject is filtered out. */
  lemma StaleSubjectCriterion()
    ensures var math := Task("t1", "Essay", "Math", 0, "", false, 0);
      var art := Task("t2", "Sketch", "Art", 0, "", false, 0);
      var clock := Clock(0, (t: int) => 0);
      var afterDelete := Remove([math], "t1");
      && KeptSelection(SubjectList(afterDelete), "Math") == AllSubjects
      && FilterTasks([art] + afterDelete, Criteria("", AllStatuses, "Math"), clock) == []
  {
    var math := Task("t1", "Essay", "Math", 0, "", false, 0);
    var art := Task("t2", "Sketch", "Art", 0, "", false, 0);
    RemoveOnlyTask(math);
    assert [art] + Remove([math], "t1") == [art];
  }
}
