/** The sort engine: `sortTasks` orders the filtered tasks in place with a
    comparator that ranks open before completed, overdue before the rest,
    due-today before the rest, and then by deadline. The instant is fixed
    once for the whole sort. */
module Sorting {
  import opened Tasks

  /** The comparator of `sortTasks`: negative when `a` goes first, positive
      when `b` does. It reports a tie only for tasks that agree on every key:
      completion, the overdue flag, the due-today flag and the deadline. */
  function Compare(a: Task, b: Task, clock: Clock): (r: int)
    ensures r == 0 <==>
      && a.completed == b.completed
      && IsOverdue(a, clock) == IsOverdue(b, clock)
      && SameDay(a.deadline, clock) == SameDay(b.deadline, clock)
      && a.deadline == b.deadline
  {
    if a.completed != b.completed then (if a.completed then 1 else -1)
    else
      var aIsOverdue := IsOverdue(a, clock);
      var bIsOverdue := IsOverdue(b, clock);
      var aIsDueToday := SameDay(a.deadline, clock);
      var bIsDueToday := SameDay(b.deadline, clock);
      if aIsOverdue != bIsOverdue then (if aIsOverdue then -1 else 1)
      else if aIsDueToday != bIsDueToday then (if aIsDueToday then -1 else 1)
      else a.deadline - b.deadline
  }

  /** `a` may precede `b`. */
  predicate Leq(a: Task, b: Task, clock: Clock) {
    Compare(a, b, clock) <= 0
  }

  /** Swapping the arguments negates the comparison. */
  lemma CompareAntisymmetric(a: Task, b: Task, clock: Clock)
    ensures Compare(a, b, clock) == -Compare(b, a, clock)
  {
  }

  /** Any two tasks are ordered one way or the other. */
  lemma LeqTotal(a: Task, b: Task, clock: Clock)
    ensures Leq(a, b, clock) || Leq(b, a, clock)
  {
  }

  /** The comparator is consistent: its order is transitive. */
  lemma LeqTransitive(a: Task, b: Task, c: Task, clock: Clock)
    requires Leq(a, b, clock) && Leq(b, c, clock)
    ensures Leq(a, c, clock)
  {
  }

  /** Every earlier task may precede every later one. */
  predicate Sorted(s: seq<Task>, clock: Clock) {
    forall i, j :: 0 <= i < j < |s| ==> Leq(s[i], s[j], clock)
  }

  predicate AdjacentSorted(s: seq<Task>, clock: Clock) {
    forall k :: 0 < k < |s| ==> Leq(s[k - 1], s[k], clock)
  }

  lemma {:induction false} AdjacentSortedIsSorted(s: seq<Task>, clock: Clock)
    requires AdjacentSorted(s, clock)
    ensures Sorted(s, clock)
  {
    if |s| > 1 {
      var t := s[1..];
      assert AdjacentSorted(t, clock) by {
        forall k | 0 < k < |t| ensures Leq(t[k - 1], t[k], clock) {
          assert t[k - 1] == s[k] && t[k] == s[k + 1];
        }
      }
      AdjacentSortedIsSorted(t, clock);
      forall i, j | 0 <= i < j < |s| ensures Leq(s[i], s[j], clock) {
        if 0 < i {
          assert s[i] == t[i - 1] && s[j] == t[j - 1];
        } else if 1 < j {
          assert s[j] == t[j - 1] && s[1] == t[0];
          LeqTransitive(s[0], s[1], s[j], clock);
        }
      }
    }
  }

  /** What the order promises: no completed task before an open one; among
      open tasks no non-overdue one before an overdue one; within equal
      completion and overdue flags no task off today's date before one on it;
      and within a group of equal (completed, overdue, due-today) flags,
      ascending deadlines. */
  lemma SortedOrder(s: seq<Task>, clock: Clock)
    requires Sorted(s, clock)
    ensures forall i, j :: 0 <= i < j < |s| ==> !(s[i].completed && !s[j].completed)
    ensures forall i, j :: 0 <= i < j < |s| && !s[i].completed && !s[j].completed ==>
      !(!IsOverdue(s[i], clock) && IsOverdue(s[j], clock))
    ensures forall i, j ::
      (&& 0 <= i < j < |s|
       && s[i].completed == s[j].completed
       && IsOverdue(s[i], clock) == IsOverdue(s[j], clock))
      ==> !(!SameDay(s[i].deadline, clock) && SameDay(s[j].deadline, clock))
    ensures forall i, j ::
      (&& 0 <= i < j < |s|
       && s[i].completed == s[j].completed
       && IsOverdue(s[i], clock) == IsOverdue(s[j], clock)
       && SameDay(s[i].deadline, clock) == SameDay(s[j].deadline, clock))
      ==> s[i].deadline <= s[j].deadline
  {
  }

  /** With a calendar that never runs backwards, open tasks that are not yet
      overdue come out in plain deadline order. */
  lemma UpcomingOrderIsDeadlineOrder(a: Task, b: Task, clock: Clock)
    requires MonotoneCalendar(clock)
    requires !a.completed && !b.completed && !IsOverdue(a, clock) && !IsOverdue(b, clock)
    ensures Leq(a, b, clock) <==> a.deadline <= b.deadline
  {
    assert clock.dayOf(clock.now) <= clock.dayOf(a.deadline);
    assert clock.dayOf(clock.now) <= clock.dayOf(b.deadline);
    if a.deadline <= b.deadline {
      assert clock.dayOf(a.deadline) <= clock.dayOf(b.deadline);
    } else {
      assert clock.dayOf(b.deadline) <= clock.dayOf(a.deadline);
    }
  }

  /** Inside the overdue group the due-today rule still applies: a task that
      fell overdue earlier today precedes one overdue since yesterday, although
      its deadline is later. */
  lemma OverdueTodayBeforeOlderOverdue()
    ensures var clock := Clock(3 * 86400000 + 43200000, (t: int) => t / 86400000);
      var sinceYesterday := Task("a", "A", "Other", 3 * 86400000 - 1, "", false, 0);
      var earlierToday := Task("b", "B", "Other", 3 * 86400000 + 1, "", false, 0);
      && IsOverdue(sinceYesterday, clock) && IsOverdue(earlierToday, clock)
      && sinceYesterday.deadline < earlierToday.deadline
      && Leq(earlierToday, sinceYesterday, clock) && !Leq(sinceYesterday, earlierToday, clock)
  {
  }

  method Swap(a: array<Task>, i: int, j: int)
    requires 0 <= i < a.Length && 0 <= j < a.Length
    modifies a
    ensures a[..] == old(a[..])[i := old(a[j])][j := old(a[i])]
    ensures multiset(a[..]) == old(multiset(a[..]))
  {
    a[i], a[j] := a[j], a[i];
  }

  /** `sortTasks`: insertion sort by adjacent swaps. The result is ordered by
      the comparator and is a permutation of the input. */
  method SortTasks(a: array<Task>, clock: Clock)
    modifies a
    ensures Sorted(a[..], clock)
    ensures multiset(a[..]) == old(multiset(a[..]))
  {
    var i := 0;
    while i < a.Length
      invariant 0 <= i <= a.Length
      invariant AdjacentSorted(a[..i], clock)
      invariant multiset(a[..]) == old(multiset(a[..]))
    {
      var j := i;
      while 0 < j && !Leq(a[j - 1], a[j], clock)
        invariant 0 <= j <= i
        invariant forall k :: 0 < k <= i && k != j ==> Leq(a[k - 1], a[k], clock)
        invariant 0 < j < i ==> Leq(a[j - 1], a[j + 1], clock)
        invariant multiset(a[..]) == old(multiset(a[..]))
      {
        LeqTotal(a[j - 1], a[j], clock);
        Swap(a, j - 1, j);
        j := j - 1;
      }
      i := i + 1;
    }
    assert a[..a.Length] == a[..];
    AdjacentSortedIsSorted(a[..], clock);
  }
}
