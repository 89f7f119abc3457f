/** The deadline status classifier: the flags `createTaskHTML` derives from
    a task and the current instant, and `getDeadlineStatus`, which turns them
    into the badge shown on the task. */
module Deadline {
  import opened Tasks
  import Text

  const MsPerDay: int := 1000 * 60 * 60 * 24

  /** `Math.ceil((deadline - now) / MsPerDay)`: whole days until the deadline,
      rounded up. */
  function DaysUntil(deadline: int, now: int): (d: int)
    ensures (d - 1) * MsPerDay < deadline - now <= d * MsPerDay
  {
    -((now - deadline) / MsPerDay)
  }

  /** The badge styles of the UI. */
  datatype Variant = Default | Destructive | Secondary | Outline

  datatype Status =
    | Completed
    | Overdue
    | DueToday
    | DueTomorrow
    | DaysLeft(days: int, variant: Variant)

  /** `getDeadlineStatus`: the first flag that holds decides. The badge is
      plain exactly for completed tasks and red exactly for open ones whose
      overdue or due-today flag is set; only a day count of one says
      "tomorrow", and any other count is shown as it is. */
  function GetDeadlineStatus(task: Task, isOverdue: bool, isDueToday: bool, daysUntil: int): (s: Status)
    ensures task.completed ==> s == Completed
    ensures !task.completed && isOverdue ==> s == Overdue
    ensures !task.completed && !isOverdue && isDueToday ==> s == DueToday
    ensures VariantOf(s) == Default <==> task.completed
    ensures VariantOf(s) == Destructive <==> !task.completed && (isOverdue || isDueToday)
    ensures s.DueTomorrow? <==> !task.completed && !isOverdue && !isDueToday && daysUntil == 1
    ensures s.DaysLeft? ==> s.days == daysUntil && s.days != 1
    ensures s.DaysLeft? ==> (VariantOf(s) == Secondary <==> s.days <= 7)
  {
    if task.completed then Completed
    else if isOverdue then Overdue
    else if isDueToday then DueToday
    else if daysUntil == 1 then DueTomorrow
    else if daysUntil <= 7 then DaysLeft(daysUntil, Secondary)
    else DaysLeft(daysUntil, Outline)
  }

  /** The status of `task` at `clock`, with the flags as `createTaskHTML`
      computes them: completion beats everything, a passed deadline beats a
      deadline on today's date, and only then do the days left count. */
  function Classify(task: Task, clock: Clock): (s: Status)
    ensures task.completed ==> s == Completed
    ensures !task.completed && task.deadline < clock.now ==> s == Overdue
    ensures !task.completed && clock.now <= task.deadline && SameDay(task.deadline, clock) ==> s == DueToday
    ensures !task.completed && clock.now <= task.deadline && !SameDay(task.deadline, clock) ==>
      && clock.now < task.deadline
      && (s.DueTomorrow? || s.DaysLeft?)
      && (s.DueTomorrow? <==> task.deadline - clock.now <= MsPerDay)
      && (s.DaysLeft? ==>
            && 2 <= s.days
            && (s.days - 1) * MsPerDay < task.deadline - clock.now <= s.days * MsPerDay
            && (s.variant == Secondary <==> s.days <= 7)
            && (s.variant == Outline <==> 7 < s.days))
  {
    var isOverdue := IsOverdue(task, clock);
    var isDueToday := SameDay(task.deadline, clock);
    var daysUntil := DaysUntil(task.deadline, clock.now);
    GetDeadlineStatus(task, isOverdue, isDueToday, daysUntil)
  }

  /** The badge style of a status. */
  function VariantOf(s: Status): Variant {
    match s
    case Completed => Default
    case Overdue => Destructive
    case DueToday => Destructive
    case DueTomorrow => Secondary
    case DaysLeft(_, v) => v
  }

  /** The badge text of a status. */
  function Label(s: Status): string {
    match s
    case Completed => "Completed"
    case Overdue => "Overdue"
    case DueToday => "Due Today"
    case DueTomorrow => "Due Tomorrow"
    case DaysLeft(n, _) => Text.IntToDecimal(n) + " days left"
  }

  /** Every status but Completed carries an icon. */
  function HasIcon(s: Status): bool {
    !s.Completed?
  }

  /** The badge of a task has an icon exactly while the task is open. */
  lemma IconUnlessCompleted(task: Task, clock: Clock)
    ensures HasIcon(Classify(task, clock)) <==> !task.completed
  {
  }

  /** The red badge marks exactly the open tasks whose deadline has passed or
      falls on today's date. */
  lemma DestructiveBadge(task: Task, clock: Clock)
    ensures VariantOf(Classify(task, clock)) == Destructive <==>
      !task.completed && (task.deadline < clock.now || SameDay(task.deadline, clock))
  {
  }

  /** A deadline exactly at the current instant is due today, not overdue. */
  lemma DeadlineNowIsDueToday(task: Task, clock: Clock)
    requires !task.completed && task.deadline == clock.now
    ensures Classify(task, clock) == DueToday
  {
  }

  /** The "n days left" text is the day count in decimal, without sign or
      leading zero, followed by " days left". */
  lemma DaysLeftText(task: Task, clock: Clock)
    requires Classify(task, clock).DaysLeft?
    ensures var s := Classify(task, clock);
      var text := Label(s);
      && |text| > 10 && text[|text| - 10..] == " days left"
      && (forall i :: 0 <= i < |text| - 10 ==> Text.IsDigit(text[i]))
      && text[0] != '0'
      && Text.DecimalValue(text[..|text| - 10]) == s.days
  {
    var s := Classify(task, clock);
    var digits := Text.IntToDecimal(s.days);
    assert Label(s) == digits + " days left";
    assert Label(s)[..|Label(s)| - 10] == digits;
  }
}
