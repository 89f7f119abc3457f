/** The entities every part of the tracker shares: a task record and the
    instant the tracker evaluates deadlines against. */
module Tasks {

  datatype Option<T> = None | Some(value: T)

  /** One assignment in the store. Timestamps are milliseconds since the
      epoch; `deadline` is the value the deadline field parses to. */
  datatype Task = Task(
    id: string,
    title: string,
    subject: string,
    deadline: int,
    description: string,
    completed: bool,
    createdAt: int)

  /** The current instant and the local calendar: `dayOf` numbers the local
      calendar day an instant falls on, so two instants lie on the same local
      date (`toDateString()` equality) exactly when `dayOf` agrees on them. */
  datatype Clock = Clock(now: int, dayOf: int -> int)

  /** The deadline falls on today's local calendar date. */
  predicate SameDay(deadline: int, clock: Clock) {
    clock.dayOf(deadline) == clock.dayOf(clock.now)
  }

  /** The deadline has passed and the task is still open. */
  predicate IsOverdue(t: Task, clock: Clock) {
    t.deadline < clock.now && !t.completed
  }

  /** A still-open task whose deadline is on today's date, passed or not. */
  predicate IsDueToday(t: Task, clock: Clock) {
    SameDay(t.deadline, clock) && !t.completed
  }

  /** Later instants never fall on earlier calendar days. */
  ghost predicate MonotoneCalendar(clock: Clock) {
    forall x: int, y: int :: x <= y ==> clock.dayOf(x) <= clock.dayOf(y)
  }
}
