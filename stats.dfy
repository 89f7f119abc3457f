/** The counting half of `updateStats`: four counts over the whole store,
    recomputed from scratch at one instant. */
module Stats {
  import opened Tasks
  import opened Seqs
  import opened Filter

  datatype Counts = Counts(total: nat, completed: nat, dueToday: nat, overdue: nat)

  /** The open tasks, the population the due-today and overdue counts draw from. */
  function Pending(tasks: seq<Task>): seq<Task> {
    Keep(tasks, (t: Task) => !t.completed)
  }

  lemma CompletedPlusPending(tasks: seq<Task>)
    ensures |Keep(tasks, (t: Task) => t.completed)| + |Pending(tasks)| == |tasks|
  {
    KeepSplit(tasks, (t: Task) => true, (t: Task) => t.completed, (t: Task) => !t.completed);
    KeepAll(tasks, (t: Task) => true);
  }

  /** `updateStats`. The due-today and overdue counts only see open tasks,
      so neither exceeds the number of open tasks. */
  function ComputeStats(tasks: seq<Task>, clock: Clock): (c: Counts)
    ensures c.total == |tasks|
    ensures c.completed <= c.total
    ensures c.dueToday <= c.total - c.completed
    ensures c.overdue <= c.total - c.completed
  {
    var completed := Keep(tasks, (t: Task) => t.completed);
    var dueToday := Keep(tasks, (t: Task) => IsDueToday(t, clock));
    var overdue := Keep(tasks, (t: Task) => IsOverdue(t, clock));
    CompletedPlusPending(tasks);
    KeepMonotone(tasks, (t: Task) => IsDueToday(t, clock), (t: Task) => !t.completed);
    KeepMonotone(tasks, (t: Task) => IsOverdue(t, clock), (t: Task) => !t.completed);
    Counts(|tasks|, |completed|, |dueToday|, |overdue|)
  }

  /** The overdue count is the length of the list the 'overdue' selector shows. */
  lemma OverdueCountMatchesFilter(tasks: seq<Task>, clock: Clock)
    ensures ComputeStats(tasks, clock).overdue ==
            |FilterTasks(tasks, Criteria("", OverdueOnly, AllSubjects), clock)|
  {
    KeepCongruent(tasks, (t: Task) => IsOverdue(t, clock),
                  (t: Task) => Passes(t, Criteria("", OverdueOnly, AllSubjects), clock));
  }

  /** The due-today count is the length of the list the 'due-today' selector shows. */
  lemma DueTodayCountMatchesFilter(tasks: seq<Task>, clock: Clock)
    ensures ComputeStats(tasks, clock).dueToday ==
            |FilterTasks(tasks, Criteria("", DueTodayOnly, AllSubjects), clock)|
  {
    KeepCongruent(tasks, (t: Task) => IsDueToday(t, clock),
                  (t: Task) => Passes(t, Criteria("", DueTodayOnly, AllSubjects), clock));
  }

  /** The completed count and the 'pending' list add up to the total. */
  lemma CompletedPlusPendingFilter(tasks: seq<Task>, clock: Clock)
    ensures ComputeStats(tasks, clock).completed +
            |FilterTasks(tasks, Criteria("", PendingOnly, AllSubjects), clock)| ==
            ComputeStats(tasks, clock).total
  {
    CompletedPlusPending(tasks);
    KeepCongruent(tasks, (t: Task) => !t.completed,
                  (t: Task) => Passes(t, Criteria("", PendingOnly, AllSubjects), clock));
  }

  /** An open task whose deadline passed earlier today counts as both due
      today and overdue, so the two counts can overlap. */
  lemma OverdueAndDueTodayOverlap(t: Task, clock: Clock)
    requires !t.completed && t.deadline < clock.now && SameDay(t.deadline, clock)
    ensures var c := ComputeStats([t], clock);
      c.dueToday == 1 && c.overdue == 1 && c.dueToday + c.overdue > c.total - c.completed
  {
  }

  /** Prepending a task (as task creation does) adds its own contribution to
      each count and leaves the rest as it was. */
  lemma StatsOfPrepend(t: Task, tasks: seq<Task>, clock: Clock)
    ensures var before := ComputeStats(tasks, clock);
      var after := ComputeStats([t] + tasks, clock);
      && after.total == before.total + 1
      && after.completed == before.completed + (if t.completed then 1 else 0)
      && after.dueToday == before.dueToday + (if IsDueToday(t, clock) then 1 else 0)
      && after.overdue == before.overdue + (if IsOverdue(t, clock) then 1 else 0)
  {
    assert ([t] + tasks)[1..] == tasks;
  }
}
