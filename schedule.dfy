/**
 * Properties of a list of scheduled entries, stated without the occupancy
 * tables: where an entry may lie, room and lecturer exclusivity, daily caps.
 */
module Schedule {
  import opened Wrappers
  import opened Config
  import opened Model
  import opened Constraints

  /** No slot of [start, end) lies in a break period. */
  predicate AvoidsBreaks(start: int, end: int)
  {
    forall t :: start <= t < end && IsSlot(t) ==> !InBreak(t)
  }

  /**
   * An entry sits where the allocator may put it: on a candidate day of its
   * lecturer, in a roster room, starting on a slot, lasting 50 minutes per
   * SKS, ending by 22:00, clear of the breaks and inside the lecturer's
   * time windows.
   */
  predicate WellPlaced(e: Entry, rules: map<string, Rule>)
  {
    var rule := RuleFor(rules, e.lecturer);
    && e.day in CandidateDays(rule)
    && e.room in ROOMS
    && IsSlot(e.start)
    && e.sks >= 1
    && e.end == e.start + MINUTES_PER_SKS * e.sks
    && e.end <= DAY_END
    && AvoidsBreaks(e.start, e.end)
    && InWindow(rule, e.start, e.end)
  }

  /** The half-open intervals of two entries share a minute. */
  predicate Overlap(a: Entry, b: Entry)
  {
    a.start < b.end && b.start < a.end
  }

  /** Two entries on the same day and in the same room never overlap. */
  predicate RoomsExclusive(sched: seq<Entry>)
  {
    forall i, j :: 0 <= i < j < |sched| && sched[i].day == sched[j].day && sched[i].room == sched[j].room
      ==> !Overlap(sched[i], sched[j])
  }

  /** Two entries on the same day for the same assigned lecturer never overlap. */
  predicate LecturersExclusive(sched: seq<Entry>)
  {
    forall i, j :: 0 <= i < j < |sched| && sched[i].day == sched[j].day
      && sched[i].lecturer == sched[j].lecturer && sched[i].lecturer != UNASSIGNED_NAME
      ==> !Overlap(sched[i], sched[j])
  }

  /** The SKS placed on a day for a lecturer identity. */
  function SumSks(sched: seq<Entry>, day: string, id: string): int
  {
    if sched == [] then 0
    else
      var last := sched[|sched| - 1];
      SumSks(sched[..|sched| - 1], day, id) + (if last.day == day && last.lecturer == id then last.sks else 0)
  }

  /** For every lecturer identity with an entry on a day, that day's SKS is within its cap. */
  predicate WithinCaps(sched: seq<Entry>, rules: map<string, Rule>)
  {
    forall i :: 0 <= i < |sched| ==>
      SumSks(sched, sched[i].day, sched[i].lecturer) <= Cap(RuleFor(rules, sched[i].lecturer))
  }

  /** Everything the allocator promises of its list of scheduled entries. */
  predicate ScheduleSound(sched: seq<Entry>, rules: map<string, Rule>)
  {
    && (forall i :: 0 <= i < |sched| ==> WellPlaced(sched[i], rules))
    && RoomsExclusive(sched)
    && LecturersExclusive(sched)
    && WithinCaps(sched, rules)
  }

  /**
   * A well-placed entry's day is a processing day and, when the lecturer's
   * rule lists days, one of the listed days.
   */
  lemma PlacedDayAllowed(e: Entry, rules: map<string, Rule>)
    requires WellPlaced(e, rules)
    ensures e.day in DAYS
    ensures RuleFor(rules, e.lecturer).days.Some? ==> e.day in RuleFor(rules, e.lecturer).days.value
  {
  }

  /**
   * A well-placed entry's whole interval is disjoint from every break period
   * (each break starts on a slot, so a shared minute would mean a shared slot).
   */
  lemma EntryClearOfBreaks(e: Entry, rules: map<string, Rule>, b: Period)
    requires WellPlaced(e, rules)
    requires b in BREAK_PERIODS
    ensures e.end <= b.from || b.to <= e.start
  {
    if !(e.end <= b.from || b.to <= e.start) {
      BreaksStartOnSlots(b);
      var t := if e.start <= b.from then b.from else e.start;
      assert IsSlot(t) && e.start <= t < e.end && b.from <= t < b.to;
      assert InBreak(t);
      assert false;
    }
  }

  lemma BreaksStartOnSlots(b: Period)
    requires b in BREAK_PERIODS
    ensures IsSlot(b.from) && b.from < b.to
  {
    assert b == Period(720, 780) || b == Period(1080, 1140);
  }

  /** The placed SKS of a day appends one term per matching entry. */
  lemma SumSksAppend(sched: seq<Entry>, e: Entry, day: string, id: string)
    ensures SumSks(sched + [e], day, id)
         == SumSks(sched, day, id) + (if e.day == day && e.lecturer == id then e.sks else 0)
  {
    assert (sched + [e])[..|sched|] == sched;
  }

  /** Positive SKS on every entry make a day's sum at least any two matching entries. */
  lemma {:induction false} SumSksCoversPair(sched: seq<Entry>, i: nat, j: nat)
    requires forall m :: 0 <= m < |sched| ==> sched[m].sks >= 0
    requires i < j < |sched|
    requires sched[i].day == sched[j].day && sched[i].lecturer == sched[j].lecturer
    ensures sched[i].sks + sched[j].sks <= SumSks(sched, sched[j].day, sched[j].lecturer)
  {
    var n := |sched| - 1;
    var prefix := sched[..n];
    if j == n {
      SumSksCoversOne(prefix, i);
    } else {
      SumSksCoversPair(prefix, i, j);
    }
  }

  /** With non-negative SKS, a day's sum is at least any one matching entry. */
  lemma {:induction false} SumSksCoversOne(sched: seq<Entry>, i: nat)
    requires forall m :: 0 <= m < |sched| ==> sched[m].sks >= 0
    requires i < |sched|
    ensures sched[i].sks <= SumSks(sched, sched[i].day, sched[i].lecturer)
  {
    var n := |sched| - 1;
    SumSksNonNegative(sched[..n], sched[i].day, sched[i].lecturer);
    if i < n {
      SumSksCoversOne(sched[..n], i);
    }
  }

  lemma {:induction false} SumSksNonNegative(sched: seq<Entry>, day: string, id: string)
    requires forall m :: 0 <= m < |sched| ==> sched[m].sks >= 0
    ensures SumSks(sched, day, id) >= 0
  {
    if sched != [] {
      SumSksNonNegative(sched[..|sched| - 1], day, id);
    }
  }

  /**
   * Under the daily cap, two sections of one lecturer on one day together
   * stay within the cap: with a cap of 4, two 3-SKS sections never share a day.
   */
  lemma SameDayPairWithinCap(sched: seq<Entry>, rules: map<string, Rule>, i: nat, j: nat)
    requires ScheduleSound(sched, rules)
    requires i < |sched| && j < |sched| && i != j
    requires sched[i].day == sched[j].day && sched[i].lecturer == sched[j].lecturer
    ensures sched[i].sks + sched[j].sks <= Cap(RuleFor(rules, sched[i].lecturer))
  {
    assert forall m :: 0 <= m < |sched| ==> sched[m].sks >= 0 by {
      forall m | 0 <= m < |sched| ensures sched[m].sks >= 0 {
        assert WellPlaced(sched[m], rules);
      }
    }
    if i < j {
      SumSksCoversPair(sched, i, j);
    } else {
      SumSksCoversPair(sched, j, i);
    }
  }
}
