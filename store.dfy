/** The operations on the task sequence: building a task from the submitted
    form, `toggleTaskComplete`, `deleteTask`, and the subject list of
    `updateSubjectFilter`. */
module Store {
  import opened Tasks
  import opened Seqs
  import Text

  const DefaultSubject: string := "Other"

  /** The raw values of the task form. `deadline` is None when the deadline
      field is empty and otherwise the instant it denotes. */
  datatype TaskForm = TaskForm(title: string, subject: string, deadline: Option<int>, description: string)

  /** The validation and record construction of `handleTaskSubmit`: no task
      when the title is blank or the deadline empty; otherwise an open task
      with the trimmed title and description, and "Other" for a missing
      subject. */
  function NewTask(form: TaskForm, id: string, createdAt: int): (r: Option<Task>)
    ensures r.None? <==> Text.AllSpace(form.title) || form.deadline.None?
    ensures r.Some? ==>
      && r.value.id == id && r.value.createdAt == createdAt
      && r.value.title != [] && r.value.title == Text.Trim(form.title)
      && !Text.IsSpace(r.value.title[0]) && !Text.IsSpace(r.value.title[|r.value.title| - 1])
      && r.value.subject == (if form.subject == "" then DefaultSubject else form.subject)
      && r.value.deadline == form.deadline.value
      && r.value.description == Text.Trim(form.description)
      && !r.value.completed
  {
    var title := Text.Trim(form.title);
    var subject := if form.subject == "" then DefaultSubject else form.subject;
    var description := Text.Trim(form.description);
    Text.TrimEmptyIff(form.title);
    if title == [] || form.deadline.None? then None
    else Some(Task(id, title, subject, form.deadline.value, description, false, createdAt))
  }

  /** No two tasks share an id. */
  predicate UniqueIds(tasks: seq<Task>) {
    forall i, j :: 0 <= i < j < |tasks| ==> tasks[i].id != tasks[j].id
  }

  predicate HasId(tasks: seq<Task>, id: string) {
    exists i :: 0 <= i < |tasks| && tasks[i].id == id
  }

  /** A task prepended with an id not yet in use keeps ids unique. */
  lemma PrependFreshId(t: Task, tasks: seq<Task>)
    requires UniqueIds(tasks) && !HasId(tasks, t.id)
    ensures UniqueIds([t] + tasks)
  {
    var r := [t] + tasks;
    forall i, j | 0 <= i < j < |r| ensures r[i].id != r[j].id {
      assert r[j] == tasks[j - 1];
      if 0 < i {
        assert r[i] == tasks[i - 1];
      }
    }
  }

  /** `tasks.find(t => t.id === id)`: the position of the first task with
      this id. */
  function FirstIndex(tasks: seq<Task>, id: string): (r: Option<nat>)
    ensures r.None? <==> !HasId(tasks, id)
    ensures r.Some? ==>
      r.value < |tasks| && tasks[r.value].id == id &&
      forall j :: 0 <= j < r.value ==> tasks[j].id != id
  {
    if tasks == [] then None
    else if tasks[0].id == id then Some(0)
    else
      match FirstIndex(tasks[1..], id)
      case None => None
      case Some(k) => Some(k + 1)
  }

  /** `toggleTaskComplete`: flips the completed flag of the first task with
      this id. */
  function Toggle(tasks: seq<Task>, id: string): (r: seq<Task>)
    ensures |r| == |tasks|
    ensures forall i :: 0 <= i < |tasks| ==>
      r[i] == tasks[i].(completed := r[i].completed) &&
      (r[i].completed != tasks[i].completed <==>
         tasks[i].id == id && forall j :: 0 <= j < i ==> tasks[j].id != id)
  {
    match FirstIndex(tasks, id)
    case None => tasks
    case Some(i) => tasks[i := tasks[i].(completed := !tasks[i].completed)]
  }

  /** Toggling an unknown id changes nothing. */
  lemma ToggleUnknownId(tasks: seq<Task>, id: string)
    requires !HasId(tasks, id)
    ensures Toggle(tasks, id) == tasks
  {
  }

  /** Toggling the same id twice restores the store. */
  lemma ToggleTwice(tasks: seq<Task>, id: string)
    ensures Toggle(Toggle(tasks, id), id) == tasks
  {
    var once := Toggle(tasks, id);
    var twice := Toggle(once, id);
    forall i | 0 <= i < |tasks| ensures twice[i] == tasks[i] {
      assert forall j :: 0 <= j < |tasks| ==> once[j].id == tasks[j].id;
    }
  }

  /** Toggling keeps ids unique. */
  lemma ToggleKeepsUniqueIds(tasks: seq<Task>, id: string)
    requires UniqueIds(tasks)
    ensures UniqueIds(Toggle(tasks, id))
  {
    var r := Toggle(tasks, id);
    assert forall j :: 0 <= j < |tasks| ==> r[j].id == tasks[j].id;
  }

  /** `deleteTask`: the tasks whose id differs, in their order. */
  function Remove(tasks: seq<Task>, id: string): (r: seq<Task>)
    ensures IsSubsequence(r, tasks)
    ensures !HasId(r, id)
    ensures forall t: Task :: t.id != id ==> multiset(r)[t] == multiset(tasks)[t]
  {
    Keep(tasks, (t: Task) => t.id != id)
  }

  /** Deleting an unknown id changes nothing. */
  lemma RemoveUnknownId(tasks: seq<Task>, id: string)
    requires !HasId(tasks, id)
    ensures Remove(tasks, id) == tasks
  {
    KeepAll(tasks, (t: Task) => t.id != id);
  }

  /** Deleting the only task leaves the store empty. */
  lemma RemoveOnlyTask(t: Task)
    ensures Remove([t], t.id) == []
  {
  }

  lemma {:induction false} SubsequenceKeepsUniqueIds(xs: seq<Task>, ys: seq<Task>)
    requires IsSubsequence(xs, ys) && UniqueIds(ys)
    ensures UniqueIds(xs)
    decreases |ys|
  {
    if xs != [] {
      assert UniqueIds(ys[1..]) by {
        forall i, j | 0 <= i < j < |ys[1..]| ensures ys[1..][i].id != ys[1..][j].id {
          assert ys[1..][i] == ys[i + 1] && ys[1..][j] == ys[j + 1];
        }
      }
      if xs[0] == ys[0] && IsSubsequence(xs[1..], ys[1..]) {
        SubsequenceKeepsUniqueIds(xs[1..], ys[1..]);
        SubsequenceMembers(xs[1..], ys[1..]);
        forall i, j | 0 <= i < j < |xs| ensures xs[i].id != xs[j].id {
          assert xs[j] == xs[1..][j - 1];
          assert xs[j] in ys[1..];
          if 0 < i {
            assert xs[i] == xs[1..][i - 1];
          }
        }
      } else {
        SubsequenceKeepsUniqueIds(xs, ys[1..]);
      }
    }
  }

  /** Deleting keeps ids unique; with unique ids, deleting a present id
      removes exactly one task. */
  lemma RemoveKeepsUniqueIds(tasks: seq<Task>, id: string)
    requires UniqueIds(tasks)
    ensures UniqueIds(Remove(tasks, id))
    ensures HasId(tasks, id) ==> |Remove(tasks, id)| == |tasks| - 1
  {
    SubsequenceKeepsUniqueIds(Remove(tasks, id), tasks);
    if HasId(tasks, id) {
      RemoveUniquePresent(tasks, id);
    }
  }

  lemma {:induction false} RemoveUniquePresent(tasks: seq<Task>, id: string)
    requires UniqueIds(tasks) && HasId(tasks, id)
    ensures |Remove(tasks, id)| == |tasks| - 1
  {
    var rest := tasks[1..];
    assert UniqueIds(rest) by {
      forall i, j | 0 <= i < j < |rest| ensures rest[i].id != rest[j].id {
        assert rest[i] == tasks[i + 1] && rest[j] == tasks[j + 1];
      }
    }
    if tasks[0].id == id {
      assert !HasId(rest, id) by {
        forall i | 0 <= i < |rest| ensures rest[i].id != id {
          assert rest[i] == tasks[i + 1];
        }
      }
      RemoveUnknownId(rest, id);
    } else {
      var k :| 0 <= k < |tasks| && tasks[k].id == id;
      assert rest[k - 1].id == id;
      RemoveUniquePresent(rest, id);
    }
  }

  // The subject list of `updateSubjectFilter`.

  /** Strictly ascending in the string order of the default sort, hence
      without duplicates. */
  predicate StrictlyAscending(xs: seq<string>) {
    forall i, j :: 0 <= i < j < |xs| ==> Text.StrLess(xs[i], xs[j])
  }

  /** `s` added to a strictly ascending list at its place. */
  function InsertSorted(xs: seq<string>, s: string): (r: seq<string>)
    requires StrictlyAscending(xs)
    ensures StrictlyAscending(r)
    ensures forall x :: x in r <==> x in xs || x == s
  {
    if xs == [] then [s]
    else if s == xs[0] then xs
    else if Text.StrLess(s, xs[0]) then
      InsertBefore(xs, s);
      [s] + xs
    else
      Text.StrLessTotal(s, xs[0]);
      var rest := InsertSorted(xs[1..], s);
      HeadBelowAll(xs, rest, s);
      [xs[0]] + rest
  }

  lemma InsertBefore(xs: seq<string>, s: string)
    requires StrictlyAscending(xs) && xs != [] && Text.StrLess(s, xs[0])
    ensures StrictlyAscending([s] + xs)
  {
    var r := [s] + xs;
    forall i, j | 0 <= i < j < |r| ensures Text.StrLess(r[i], r[j]) {
      if i == 0 && 1 < j {
        Text.StrLessTransitive(s, xs[0], xs[j - 1]);
      }
    }
  }

  lemma HeadBelowAll(xs: seq<string>, rest: seq<string>, s: string)
    requires StrictlyAscending(xs) && xs != [] && Text.StrLess(xs[0], s)
    requires StrictlyAscending(rest)
    requires forall x :: x in rest <==> x in xs[1..] || x == s
    ensures StrictlyAscending([xs[0]] + rest)
  {
    var r := [xs[0]] + rest;
    forall i, j | 0 <= i < j < |r| ensures Text.StrLess(r[i], r[j]) {
      if i == 0 {
        assert r[j] in rest;
        if r[j] != s {
          var k :| 0 <= k < |xs[1..]| && xs[1..][k] == r[j];
          assert xs[k + 1] == r[j];
        }
      } else {
        assert r[i] == rest[i - 1] && r[j] == rest[j - 1];
      }
    }
  }

  /** The subjects that occur in the store. */
  ghost predicate InUse(tasks: seq<Task>, subject: string) {
    exists i :: 0 <= i < |tasks| && tasks[i].subject == subject
  }

  /** `[...new Set(tasks.map(task => task.subject))].sort()`: every subject in
      use exactly once, in ascending order. */
  function SubjectList(tasks: seq<Task>): (r: seq<string>)
    ensures StrictlyAscending(r)
    ensures forall s :: s in r <==> InUse(tasks, s)
  {
    if tasks == [] then []
    else
      var rest := SubjectList(tasks[1..]);
      var r := InsertSorted(rest, tasks[0].subject);
      assert forall s :: InUse(tasks, s) <==> InUse(tasks[1..], s) || s == tasks[0].subject by {
        forall s ensures InUse(tasks, s) <==> InUse(tasks[1..], s) || s == tasks[0].subject {
          if InUse(tasks, s) && s != tasks[0].subject {
            var i :| 0 <= i < |tasks| && tasks[i].subject == s;
            assert tasks[1..][i - 1].subject == s;
          }
          if InUse(tasks[1..], s) {
            var i :| 0 <= i < |tasks[1..]| && tasks[1..][i].subject == s;
            assert tasks[i + 1].subject == s;
          }
        }
      }
      r
  }

  /** A strictly ascending list is determined by its elements, so the subject
      list does not depend on the order in which the set is enumerated. */
  lemma {:induction false} AscendingUnique(xs: seq<string>, ys: seq<string>)
    requires StrictlyAscending(xs) && StrictlyAscending(ys)
    requires forall s :: s in xs <==> s in ys
    ensures xs == ys
    decreases |xs| + |ys|, if xs == [] then 1 else 0
  {
    if xs != [] {
      assert xs[0] in ys;
      if xs[0] != ys[0] {
        Text.StrLessTotal(xs[0], ys[0]);
        if Text.StrLess(xs[0], ys[0]) {
          MinimumOf(ys, xs[0]);
        } else {
          MinimumOf(xs, ys[0]);
        }
      } else {
        forall s ensures s in xs[1..] <==> s in ys[1..] {
          if s in xs[1..] {
            var k :| 0 <= k < |xs[1..]| && xs[1..][k] == s;
            assert Text.StrLess(xs[0], xs[k + 1]);
            Text.StrLessIrreflexive(s);
            assert s in ys;
          }
          if s in ys[1..] {
            var k :| 0 <= k < |ys[1..]| && ys[1..][k] == s;
            assert Text.StrLess(ys[0], ys[k + 1]);
            Text.StrLessIrreflexive(s);
            assert s in xs;
          }
        }
        assert StrictlyAscending(xs[1..]) by {
          forall i, j | 0 <= i < j < |xs[1..]| ensures Text.StrLess(xs[1..][i], xs[1..][j]) {
            assert xs[1..][i] == xs[i + 1] && xs[1..][j] == xs[j + 1];
          }
        }
        assert StrictlyAscending(ys[1..]) by {
          forall i, j | 0 <= i < j < |ys[1..]| ensures Text.StrLess(ys[1..][i], ys[1..][j]) {
            assert ys[1..][i] == ys[i + 1] && ys[1..][j] == ys[j + 1];
          }
        }
        AscendingUnique(xs[1..], ys[1..]);
        assert xs == [xs[0]] + xs[1..] && ys == [ys[0]] + ys[1..];
      }
    } else {
      if ys != [] {
        AscendingUnique(ys, xs);
      }
    }
  }

  /** A value below the head of a strictly ascending list is not in it. */
  lemma MinimumOf(xs: seq<string>, s: string)
    requires StrictlyAscending(xs) && xs != [] && Text.StrLess(s, xs[0])
    ensures s !in xs
  {
    if s in xs {
      var k :| 0 <= k < |xs| && xs[k] == s;
      if k == 0 {
        Text.StrLessIrreflexive(s);
      } else {
        Text.StrLessTransitive(s, xs[0], xs[k]);
        Text.StrLessIrreflexive(s);
      }
    }
  }

  /** The drop-down's value after the options are rebuilt: the previous
      selection when it is still a subject in use, "All Subjects" otherwise. */
  function KeptSelection(subjects: seq<string>, current: string): (r: string)
    ensures r == current || r == "all"
    ensures r == current <==> current in subjects || current == "all"
  {
    if current in subjects then current else "all"
  }
}
