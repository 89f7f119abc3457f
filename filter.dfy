/** The filter engine: `filterTasks` keeps the tasks that match the search
    text, the status selector and the subject selector at once. */
module Filter {
  import opened Tasks
  import opened Seqs
  import Text

  /** The choices of the status drop-down ('all', 'completed', 'pending',
      'overdue', 'due-today'). */
  datatype StatusSelector = AllStatuses | CompletedOnly | PendingOnly | OverdueOnly | DueTodayOnly

  /** `currentFilters`. The subject selector is a subject name or "all". */
  datatype Criteria = Criteria(search: string, status: StatusSelector, subject: string)

  const AllSubjects: string := "all"

  const DefaultCriteria: Criteria := Criteria("", AllStatuses, AllSubjects)

  /** `updateResetButton`: the reset button shows exactly when some
      criterion differs from its default. */
  function HasActiveFilters(c: Criteria): (active: bool)
    ensures active <==> c != DefaultCriteria
  {
    c.search != "" || c.status != AllStatuses || c.subject != AllSubjects
  }

  /** Case-insensitive substring search over title, description and subject;
      an empty search matches everything. */
  predicate MatchesSearch(t: Task, search: string) {
    var needle := Text.Lower(search);
    search == "" ||
    Text.Includes(Text.Lower(t.title), needle) ||
    Text.Includes(Text.Lower(t.description), needle) ||
    Text.Includes(Text.Lower(t.subject), needle)
  }

  predicate MatchesStatus(t: Task, status: StatusSelector, clock: Clock) {
    match status
    case AllStatuses => true
    case CompletedOnly => t.completed
    case PendingOnly => !t.completed
    case OverdueOnly => IsOverdue(t, clock)
    case DueTodayOnly => IsDueToday(t, clock)
  }

  predicate MatchesSubject(t: Task, subject: string) {
    subject == AllSubjects || t.subject == subject
  }

  /** The three criteria joined by AND. */
  predicate Passes(t: Task, c: Criteria, clock: Clock) {
    MatchesSearch(t, c.search) && MatchesStatus(t, c.status, clock) && MatchesSubject(t, c.subject)
  }

  /** `filterTasks`: the tasks that pass, in store order, each as often as
      it occurs in the store. */
  function FilterTasks(tasks: seq<Task>, c: Criteria, clock: Clock): (r: seq<Task>)
    ensures IsSubsequence(r, tasks)
    ensures forall i :: 0 <= i < |r| ==> Passes(r[i], c, clock)
    ensures forall t :: multiset(r)[t] == if Passes(t, c, clock) then multiset(tasks)[t] else 0
  {
    Keep(tasks, t => Passes(t, c, clock))
  }

  /** Search text is compared without regard to ASCII letter case. */
  lemma SearchIgnoresCase(t: Task, search: string, other: string)
    requires Text.Lower(search) == Text.Lower(other)
    ensures MatchesSearch(t, search) == MatchesSearch(t, other)
  {
  }

  /** A search text matches the same tasks as any other spelling of it that
      differs only in the case of ASCII letters ("MATH", "math", "Math"). */
  lemma SearchIgnoresLetterCase(t: Task, search: string, other: string)
    requires Text.EqualIgnoringCase(search, other)
    ensures MatchesSearch(t, search) == MatchesSearch(t, other)
  {
    assert Text.Lower(search) == Text.Lower(other);
    SearchIgnoresCase(t, search, other);
  }

  /** With no active criterion the filter returns the store unchanged. */
  lemma InactiveFiltersKeepAll(tasks: seq<Task>, c: Criteria, clock: Clock)
    requires !HasActiveFilters(c)
    ensures FilterTasks(tasks, c, clock) == tasks
  {
    KeepAll(tasks, t => Passes(t, c, clock));
  }

  /** Under the same search and subject, every task passes exactly one of the
      'completed' and 'pending' selectors. */
  lemma CompletedPendingPartition(tasks: seq<Task>, search: string, subject: string, clock: Clock)
    ensures |FilterTasks(tasks, Criteria(search, CompletedOnly, subject), clock)| +
            |FilterTasks(tasks, Criteria(search, PendingOnly, subject), clock)| ==
            |FilterTasks(tasks, Criteria(search, AllStatuses, subject), clock)|
  {
    KeepSplit(tasks,
      t => Passes(t, Criteria(search, AllStatuses, subject), clock),
      t => Passes(t, Criteria(search, CompletedOnly, subject), clock),
      t => Passes(t, Criteria(search, PendingOnly, subject), clock));
  }

  /** With the default search and subject, the 'completed' and 'pending'
      results together are as long as the store. */
  lemma CompletedPendingCover(tasks: seq<Task>, clock: Clock)
    ensures |FilterTasks(tasks, Criteria("", CompletedOnly, AllSubjects), clock)| +
            |FilterTasks(tasks, Criteria("", PendingOnly, AllSubjects), clock)| == |tasks|
  {
    CompletedPendingPartition(tasks, "", AllSubjects, clock);
    InactiveFiltersKeepAll(tasks, DefaultCriteria, clock);
  }
}
