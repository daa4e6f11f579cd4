/**
 * The greedy allocator: one pass over the courses in the caller's order,
 * first-fit search over (candidate day, room, start slot) per course, and an
 * in-place commit of each success into the three tables.
 */
module Allocator {
  import opened Wrappers
  import opened Config
  import opened Model
  import opened Constraints
  import opened Schedule
  import opened Grid
  import opened Partition

  /**
   * A room order handed to the search: a rearrangement of the roster, that
   * is as many rooms as the roster, none twice, each a roster room.
   */
  predicate IsRoomOrder(rooms: seq<string>)
  {
    && |rooms| == |ROOMS|
    && (forall i, j :: 0 <= i < j < |rooms| ==> rooms[i] != rooms[j])
    && (forall i :: 0 <= i < |rooms| ==> rooms[i] in ROOMS)
  }

  /** The entry the search would commit for a course at a day, room and start time. */
  function CandidateEntry(c: Course, sks: int, day: string, room: string, start: int): (e: Entry)
    ensures c.sks == Some(sks) ==> MadeFrom(e, c)
    ensures e.day == day && e.room == room && e.start == start && e.end - e.start == MINUTES_PER_SKS * sks
  {
    Entry(day, start, start + MINUTES_PER_SKS * sks, c.title, sks, c.semester, c.classLabel,
          Identity(c.lecturer), room)
  }

  /** (p', q', k') comes before (p, q, k) in the search order: by day, then room, then slot. */
  predicate Earlier(p': nat, q': nat, k': nat, p: nat, q: nat, k: nat)
  {
    p' < p || (p' == p && (q' < q || (q' == q && k' < k)))
  }

  /**
   * The run of 10-minute slots booked by a candidate: start, start + 10, ...
   * while before end.
   */
  method SlotsToBook(start: int, end: int) returns (slots: seq<int>)
    ensures forall m :: 0 <= m < |slots| ==> slots[m] == start + SLOT_MINUTES * m && slots[m] < end
    ensures start + SLOT_MINUTES * |slots| >= end
  {
    slots := [];
    var temp := start;
    while temp < end
      invariant temp == start + SLOT_MINUTES * |slots|
      invariant forall m :: 0 <= m < |slots| ==> slots[m] == start + SLOT_MINUTES * m && slots[m] < end
      decreases end - temp
    {
      slots := slots + [temp];
      temp := temp + SLOT_MINUTES;
    }
  }

  /** The booked run of a slot start holds exactly the slots of [start, end). */
  lemma RunMembers(start: int, end: int, slots: seq<int>, t: int)
    requires forall m :: 0 <= m < |slots| ==> slots[m] == start + SLOT_MINUTES * m && slots[m] < end
    requires start + SLOT_MINUTES * |slots| >= end
    requires IsSlot(start) && IsSlot(t)
    ensures t in slots <==> start <= t < end
  {
    if start <= t < end {
      var m := (t - start) / SLOT_MINUTES;
      assert slots[m] == t;
    }
  }

  /** Every booked time of a run that ends by 22:00 is a slot. */
  lemma RunIsSlots(start: int, end: int, slots: seq<int>)
    requires forall m :: 0 <= m < |slots| ==> slots[m] == start + SLOT_MINUTES * m && slots[m] < end
    requires IsSlot(start) && end <= DAY_END
    ensures forall s :: s in slots ==> IsSlot(s)
  {
    forall s | s in slots ensures IsSlot(s) {
      var m :| 0 <= m < |slots| && slots[m] == s;
      assert s - DAY_START == (start - DAY_START) + SLOT_MINUTES * m;
    }
  }

  /**
   * The script's time-axis test: every booked time is one of the day's
   * slots exactly when the candidate ends by 22:00.
   */
  lemma FitsIffEndsByClose(start: int, end: int, slots: seq<int>, timeSlots: seq<int>)
    requires forall m :: 0 <= m < |slots| ==> slots[m] == start + SLOT_MINUTES * m && slots[m] < end
    requires start + SLOT_MINUTES * |slots| >= end
    requires IsSlot(start) && start < end
    requires IsTimeAxis(timeSlots)
    ensures (forall s :: s in slots ==> s in timeSlots) <==> end <= DAY_END
  {
    if end <= DAY_END {
      RunIsSlots(start, end, slots);
      forall s | s in slots ensures s in timeSlots {
        TimeAxisMembers(timeSlots, s);
      }
    } else {
      var m := (DAY_END - start) / SLOT_MINUTES;
      assert slots[m] == DAY_END;
      TimeAxisMembers(timeSlots, DAY_END);
    }
  }

  /** The room grid with the cells of the first n slots of a run marked, in run order. */
  function MarkRoomRun(g: RoomGrid, day: string, room: string, run: seq<int>, n: nat): RoomGrid
    requires n <= |run|
  {
    if n == 0 then g else MarkRoomRun(g, day, room, run, n - 1)[(day, room, run[n - 1]) := true]
  }

  /** A lecturer cell read as a set, empty when the cell is missing. */
  function CellOf(g: LecturerGrid, day: string, t: int): set<string>
  {
    if (day, t) in g then g[(day, t)] else {}
  }

  /** The lecturer grid with an identity added to the cells of the first n slots of a run. */
  function AddLecturerRun(g: LecturerGrid, day: string, id: string, run: seq<int>, n: nat): LecturerGrid
    requires n <= |run|
  {
    if n == 0 then g
    else
      var h := AddLecturerRun(g, day, id, run, n - 1);
      h[(day, run[n - 1]) := CellOf(h, day, run[n - 1]) + {id}]
  }

  /**
   * Marking a run whose cells exist keeps the grid's cells, and leaves a
   * cell marked exactly when it was marked or lies in the run.
   */
  lemma {:induction false} MarkRoomRunCells(g: RoomGrid, day: string, room: string, run: seq<int>, n: nat)
    requires n <= |run|
    requires forall t :: t in run ==> (day, room, t) in g
    ensures forall d, r, t :: (d, r, t) in MarkRoomRun(g, day, room, run, n) <==> (d, r, t) in g
    ensures forall d, r, t :: (d, r, t) in g ==>
      MarkRoomRun(g, day, room, run, n)[(d, r, t)] == (g[(d, r, t)] || (d == day && r == room && t in run[..n]))
  {
    if n > 0 {
      MarkRoomRunCells(g, day, room, run, n - 1);
      assert run[..n] == run[..n - 1] + [run[n - 1]];
    }
  }

  /**
   * Adding an identity over a run whose cells exist keeps the grid's cells,
   * and adds the identity to exactly the cells of the run.
   */
  lemma {:induction false} AddLecturerRunCells(g: LecturerGrid, day: string, id: string, run: seq<int>, n: nat)
    requires n <= |run|
    requires forall t :: t in run ==> (day, t) in g
    ensures forall d, t :: (d, t) in AddLecturerRun(g, day, id, run, n) <==> (d, t) in g
    ensures forall d, t :: (d, t) in g ==>
      AddLecturerRun(g, day, id, run, n)[(d, t)] == if d == day && t in run[..n] then g[(d, t)] + {id} else g[(d, t)]
  {
    if n > 0 {
      AddLecturerRunCells(g, day, id, run, n - 1);
      assert run[..n] == run[..n - 1] + [run[n - 1]];
    }
  }

  /** Marking the booked run is the room part of the commit step of the interval. */
  lemma RoomRunIsCommitRooms(g: RoomGrid, e: Entry, toBook: seq<int>)
    requires RoomGridShape(g)
    requires IsSlot(e.start)
    requires forall m :: 0 <= m < |toBook| ==> toBook[m] == e.start + SLOT_MINUTES * m && toBook[m] < e.end
    requires e.start + SLOT_MINUTES * |toBook| >= e.end
    requires forall t :: t in toBook ==> (e.day, e.room, t) in g
    ensures forall d, r, t :: (d, r, t) in MarkRoomRun(g, e.day, e.room, toBook, |toBook|) <==> (d, r, t) in g
    ensures forall d, r, t :: (d, r, t) in g ==>
      MarkRoomRun(g, e.day, e.room, toBook, |toBook|)[(d, r, t)]
        == (g[(d, r, t)] || (d == e.day && r == e.room && e.start <= t < e.end))
  {
    assert toBook[..|toBook|] == toBook;
    MarkRoomRunCells(g, e.day, e.room, toBook, |toBook|);
    forall d, r, t | (d, r, t) in g && d == e.day && r == e.room
      ensures t in toBook <==> e.start <= t < e.end
    {
      RunMembers(e.start, e.end, toBook, t);
    }
  }

  /** Adding an assigned lecturer over the booked run is the lecturer part of the commit step. */
  lemma LecturerRunIsCommitLecturers(g: LecturerGrid, e: Entry, toBook: seq<int>)
    requires LecturerGridShape(g)
    requires IsSlot(e.start)
    requires forall m :: 0 <= m < |toBook| ==> toBook[m] == e.start + SLOT_MINUTES * m && toBook[m] < e.end
    requires e.start + SLOT_MINUTES * |toBook| >= e.end
    requires forall t :: t in toBook ==> (e.day, t) in g
    ensures forall d, t :: (d, t) in AddLecturerRun(g, e.day, e.lecturer, toBook, |toBook|) <==> (d, t) in g
    ensures forall d, t :: (d, t) in g ==>
      AddLecturerRun(g, e.day, e.lecturer, toBook, |toBook|)[(d, t)]
        == if d == e.day && e.start <= t < e.end then g[(d, t)] + {e.lecturer} else g[(d, t)]
  {
    assert toBook[..|toBook|] == toBook;
    AddLecturerRunCells(g, e.day, e.lecturer, toBook, |toBook|);
    forall d, t | (d, t) in g && d == e.day
      ensures t in toBook <==> e.start <= t < e.end
    {
      RunMembers(e.start, e.end, toBook, t);
    }
  }

  /**
   * The booking loop of a commit: for each slot of the run, marks the room
   * cell and, for an assigned lecturer, adds the identity to the lecturer cell.
   */
  method BookRun(g: RoomGrid, lg: LecturerGrid, day: string, room: string, id: string, run: seq<int>)
    returns (g': RoomGrid, lg': LecturerGrid)
    requires forall t :: t in run ==> (day, t) in lg
    ensures g' == MarkRoomRun(g, day, room, run, |run|)
    ensures lg' == if id != UNASSIGNED_NAME then AddLecturerRun(lg, day, id, run, |run|) else lg
  {
    g', lg' := g, lg;
    var i := 0;
    while i < |run|
      invariant 0 <= i <= |run|
      invariant g' == MarkRoomRun(g, day, room, run, i)
      invariant lg' == if id != UNASSIGNED_NAME then AddLecturerRun(lg, day, id, run, i) else lg
    {
      var s := run[i];
      AddLecturerRunCells(lg, day, id, run, i);
      g' := g'[(day, room, s) := true];
      if id != UNASSIGNED_NAME {
        lg' := lg'[(day, s) := lg'[(day, s)] + {id}];
      }
      i := i + 1;
    }
  }

  /**
   * Marking the cells of the booked run, adding the SKS and appending the
   * entry is the commit step of the entry's whole interval.
   */
  lemma BookedRunIsCommitStep(s: State, s': State, e: Entry, toBook: seq<int>)
    requires RoomGridShape(s.roomBusy) && LecturerGridShape(s.lecturerBusy)
    requires IsSlot(e.start)
    requires forall m :: 0 <= m < |toBook| ==> toBook[m] == e.start + SLOT_MINUTES * m && toBook[m] < e.end
    requires e.start + SLOT_MINUTES * |toBook| >= e.end
    requires forall t :: t in toBook ==> (e.day, e.room, t) in s.roomBusy && (e.day, t) in s.lecturerBusy
    requires s'.roomBusy == MarkRoomRun(s.roomBusy, e.day, e.room, toBook, |toBook|)
    requires s'.lecturerBusy ==
      if e.lecturer != UNASSIGNED_NAME then AddLecturerRun(s.lecturerBusy, e.day, e.lecturer, toBook, |toBook|)
      else s.lecturerBusy
    requires s'.dailySks == s.dailySks[(e.day, e.lecturer) := SksGet(s.dailySks, e.day, e.lecturer) + e.sks]
    requires s'.scheduled == s.scheduled + [e]
    ensures CommitStep(s, s', e)
  {
    RoomRunIsCommitRooms(s.roomBusy, e, toBook);
    LecturerRunIsCommitLecturers(s.lecturerBusy, e, toBook);
  }

  /**
   * For a candidate on a candidate day, in a roster room, on a slot, with
   * room under the day's cap, the remaining filters are the time axis, the
   * windows, the breaks and the two freedom tests.
   */
  lemma CandidateFilters(s: State, rules: map<string, Rule>, c: Course, sks: int, day: string, room: string, start: int)
    requires day in CandidateDays(RuleFor(rules, Identity(c.lecturer)))
    requires room in ROOMS && IsSlot(start) && sks >= 1
    requires SksGet(s.dailySks, day, Identity(c.lecturer)) + sks <= Cap(RuleFor(rules, Identity(c.lecturer)))
    ensures var e := CandidateEntry(c, sks, day, room, start);
      CanCommit(s, e, rules) <==>
        && e.end <= DAY_END
        && InWindow(RuleFor(rules, e.lecturer), e.start, e.end)
        && AvoidsBreaks(e.start, e.end)
        && LecturerFree(s.lecturerBusy, day, e.lecturer, e.start, e.end)
        && RoomFree(s.roomBusy, day, room, e.start, e.end)
  {
  }

  /** The break test over the booked run is the break test over the interval. */
  lemma BreakTestMatches(start: int, end: int, toBook: seq<int>)
    requires forall m :: 0 <= m < |toBook| ==> toBook[m] == start + SLOT_MINUTES * m && toBook[m] < end
    requires start + SLOT_MINUTES * |toBook| >= end
    requires IsSlot(start)
    requires forall s :: s in toBook ==> IsSlot(s)
    ensures (exists s, b :: s in toBook && b in BREAK_PERIODS && b.from <= s < b.to) <==> !AvoidsBreaks(start, end)
  {
    forall t | IsSlot(t) ensures t in toBook <==> start <= t < end {
      RunMembers(start, end, toBook, t);
    }
  }

  /** The lecturer and room tests over the booked run are the freedom tests over the interval. */
  lemma FreeTestsMatch(s: State, day: string, room: string, id: string, start: int, end: int, toBook: seq<int>)
    requires RoomGridShape(s.roomBusy) && LecturerGridShape(s.lecturerBusy)
    requires day in DAYS && room in ROOMS
    requires forall m :: 0 <= m < |toBook| ==> toBook[m] == start + SLOT_MINUTES * m && toBook[m] < end
    requires start + SLOT_MINUTES * |toBook| >= end
    requires IsSlot(start)
    requires forall t :: t in toBook ==> IsSlot(t)
    ensures (id == UNASSIGNED_NAME || forall t :: t in toBook ==> id !in s.lecturerBusy[(day, t)])
        <==> LecturerFree(s.lecturerBusy, day, id, start, end)
    ensures (forall t :: t in toBook ==> !s.roomBusy[(day, room, t)])
        <==> RoomFree(s.roomBusy, day, room, start, end)
  {
    forall t | IsSlot(t) ensures t in toBook <==> start <= t < end {
      RunMembers(start, end, toBook, t);
    }
  }

  /**
   * In state s, the candidate with day position p, room position q and slot
   * index k passes every filter of the search.
   */
  ghost predicate Feasible(s: State, rules: map<string, Rule>, c: Course, sks: int,
                           roomsFor: nat -> seq<string>, p: nat, q: nat, k: nat)
  {
    var days := CandidateDays(RuleFor(rules, Identity(c.lecturer)));
    && p < |days|
    && q < |roomsFor(p)|
    && k < SLOT_COUNT
    && CanCommit(s, CandidateEntry(c, sks, days[p], roomsFor(p)[q], SlotTime(k)), rules)
  }

  /** No candidate before (p, q, k) in search order is feasible. */
  ghost predicate NoneBefore(s: State, rules: map<string, Rule>, c: Course, sks: int,
                             roomsFor: nat -> seq<string>, p: nat, q: nat, k: nat)
  {
    forall p': nat, q': nat, k': nat :: Earlier(p', q', k', p, q, k) ==>
      !Feasible(s, rules, c, sks, roomsFor, p', q', k')
  }

  /** e is the first feasible candidate in search order. */
  ghost predicate ChosenBy(s: State, rules: map<string, Rule>, c: Course, sks: int,
                           roomsFor: nat -> seq<string>, e: Entry)
  {
    exists p: nat, q: nat, k: nat ::
      && Feasible(s, rules, c, sks, roomsFor, p, q, k)
      && e == CandidateEntry(c, sks, CandidateDays(RuleFor(rules, Identity(c.lecturer)))[p],
                             roomsFor(p)[q], SlotTime(k))
      && NoneBefore(s, rules, c, sks, roomsFor, p, q, k)
  }

  /** No candidate is feasible. */
  ghost predicate NoneFits(s: State, rules: map<string, Rule>, c: Course, sks: int, roomsFor: nat -> seq<string>)
  {
    forall p: nat, q: nat, k: nat :: !Feasible(s, rules, c, sks, roomsFor, p, q, k)
  }

  /** A rejected start slot moves the search on to the next one. */
  lemma NextSlot(s: State, rules: map<string, Rule>, c: Course, sks: int, roomsFor: nat -> seq<string>,
                 p: nat, q: nat, k: nat)
    requires NoneBefore(s, rules, c, sks, roomsFor, p, q, k)
    requires !Feasible(s, rules, c, sks, roomsFor, p, q, k)
    ensures NoneBefore(s, rules, c, sks, roomsFor, p, q, k + 1)
  {
    forall p': nat, q': nat, k': nat | Earlier(p', q', k', p, q, k + 1)
      ensures !Feasible(s, rules, c, sks, roomsFor, p', q', k')
    {
      if !Earlier(p', q', k', p, q, k) {
        assert p' == p && q' == q && k' == k;
      }
    }
  }

  /** After the last slot of a room the search moves on to the next room. */
  lemma NextRoom(s: State, rules: map<string, Rule>, c: Course, sks: int, roomsFor: nat -> seq<string>,
                 p: nat, q: nat)
    requires NoneBefore(s, rules, c, sks, roomsFor, p, q, SLOT_COUNT)
    ensures NoneBefore(s, rules, c, sks, roomsFor, p, q + 1, 0)
  {
    forall p': nat, q': nat, k': nat | Earlier(p', q', k', p, q + 1, 0)
      ensures !Feasible(s, rules, c, sks, roomsFor, p', q', k')
    {
      if p' == p && q' == q && k' >= SLOT_COUNT {
      } else {
        assert Earlier(p', q', k', p, q, SLOT_COUNT);
      }
    }
  }

  /** After the last room of a day the search moves on to the next day. */
  lemma NextDay(s: State, rules: map<string, Rule>, c: Course, sks: int, roomsFor: nat -> seq<string>, p: nat)
    requires NoneBefore(s, rules, c, sks, roomsFor, p, |roomsFor(p)|, 0)
    ensures NoneBefore(s, rules, c, sks, roomsFor, p + 1, 0, 0)
  {
    forall p': nat, q': nat, k': nat | Earlier(p', q', k', p + 1, 0, 0)
      ensures !Feasible(s, rules, c, sks, roomsFor, p', q', k')
    {
      if p' == p && q' >= |roomsFor(p)| {
      } else {
        assert Earlier(p', q', k', p, |roomsFor(p)|, 0);
      }
    }
  }

  /** A day whose SKS would pass the lecturer's cap is skipped whole. */
  lemma SkipFullDay(s: State, rules: map<string, Rule>, c: Course, sks: int, roomsFor: nat -> seq<string>, p: nat)
    requires NoneBefore(s, rules, c, sks, roomsFor, p, 0, 0)
    requires p < |CandidateDays(RuleFor(rules, Identity(c.lecturer)))|
    requires SksGet(s.dailySks, CandidateDays(RuleFor(rules, Identity(c.lecturer)))[p], Identity(c.lecturer)) + sks
             > Cap(RuleFor(rules, Identity(c.lecturer)))
    ensures NoneBefore(s, rules, c, sks, roomsFor, p + 1, 0, 0)
  {
    forall p': nat, q': nat, k': nat | Earlier(p', q', k', p + 1, 0, 0)
      ensures !Feasible(s, rules, c, sks, roomsFor, p', q', k')
    {
      if p' < p {
        assert Earlier(p', q', k', p, 0, 0);
      }
    }
  }

  /** Past the last candidate day, nothing before is everything. */
  lemma NoDayLeft(s: State, rules: map<string, Rule>, c: Course, sks: int, roomsFor: nat -> seq<string>)
    requires NoneBefore(s, rules, c, sks, roomsFor, |CandidateDays(RuleFor(rules, Identity(c.lecturer)))|, 0, 0)
    ensures NoneFits(s, rules, c, sks, roomsFor)
  {
    var n := |CandidateDays(RuleFor(rules, Identity(c.lecturer)))|;
    forall p: nat, q: nat, k: nat ensures !Feasible(s, rules, c, sks, roomsFor, p, q, k) {
      if p < n {
        assert Earlier(p, q, k, n, 0, 0);
      }
    }
  }

  /** The room orders of processing position j, one per candidate-day position. */
  function RoomsAt(roomOrder: (nat, nat) -> seq<string>, j: nat): nat -> seq<string>
  {
    (p: nat) => roomOrder(j, p)
  }

  /**
   * What settling one course does to the tables, by its outcome: a placed
   * course commits the first feasible candidate of the search; an unplaced
   * course changes nothing and, when its SKS parsed, had no feasible
   * candidate; a dropped course changes nothing.
   */
  ghost predicate CourseStep(s: State, s': State, rules: map<string, Rule>, c: Course,
                             roomsFor: nat -> seq<string>, r: Fate)
  {
    match r
    case Pending => false
    case Dropped => s' == s
    case Unplaced(_) => s' == s && (c.sks.Some? ==> NoneFits(s, rules, c, c.sks.value, roomsFor))
    case Placed(_) =>
      && c.sks.Some?
      && |s'.scheduled| == |s.scheduled| + 1
      && ChosenBy(s, rules, c, c.sks.value, roomsFor, s'.scheduled[|s.scheduled|])
      && CommitStep(s, s', s'.scheduled[|s.scheduled|])
  }

  /**
   * The first n processing positions of a run are described by the trace
   * `states`: the step from states[i] to states[i + 1] is the course at
   * position i, settled with outcome fate[order[i]].
   */
  ghost predicate Traced(states: seq<State>, fate: seq<Fate>, rules: map<string, Rule>, courses: seq<Course>,
                         order: seq<nat>, roomOrder: (nat, nat) -> seq<string>, n: nat)
  {
    && n < |states| && n <= |order| && |fate| == |courses|
    && (forall i :: 0 <= i < |order| ==> order[i] < |courses|)
    && (forall i :: 0 <= i < n ==>
          CourseStep(states[i], states[i + 1], rules, courses[order[i]], RoomsAt(roomOrder, i), fate[order[i]]))
  }

  /**
   * Settling the course at processing position j extends the trace: the
   * earlier steps keep their states and, the order being duplicate-free,
   * their outcomes.
   */
  lemma TraceStep(states: seq<State>, s': State, fate: seq<Fate>, rules: map<string, Rule>, courses: seq<Course>,
                  order: seq<nat>, roomOrder: (nat, nat) -> seq<string>, j: nat, r: Fate)
    requires Traced(states, fate, rules, courses, order, roomOrder, j)
    requires j < |order| && |states| == j + 1
    requires forall i, i' :: 0 <= i < i' < |order| ==> order[i] != order[i']
    requires CourseStep(states[j], s', rules, courses[order[j]], RoomsAt(roomOrder, j), r)
    ensures Traced(states + [s'], fate[order[j] := r], rules, courses, order, roomOrder, j + 1)
  {
    var P := (i: nat, a: State, b: State, f: Fate) =>
      i < |order| && order[i] < |courses| && CourseStep(a, b, rules, courses[order[i]], RoomsAt(roomOrder, i), f);
    ExtendTrace(states, s', fate, order, j, r, P);
  }

  /** A trace whose step at each position holds keeps them all when one more step is appended. */
  lemma ExtendTrace<S, F>(states: seq<S>, s': S, fate: seq<F>, order: seq<nat>, j: nat, r: F,
                          P: (nat, S, S, F) -> bool)
    requires j < |order| && |states| == j + 1
    requires forall i :: 0 <= i < |order| ==> order[i] < |fate|
    requires forall i, i' :: 0 <= i < i' < |order| ==> order[i] != order[i']
    requires forall i :: 0 <= i < j ==> P(i, states[i], states[i + 1], fate[order[i]])
    requires P(j, states[j], s', r)
    ensures forall i :: 0 <= i < j + 1 ==>
      P(i, (states + [s'])[i], (states + [s'])[i + 1], fate[order[j] := r][order[i]])
  {
    var states', fate' := states + [s'], fate[order[j] := r];
    forall i | 0 <= i < j + 1
      ensures P(i, states'[i], states'[i + 1], fate'[order[i]])
    {
      if i < j {
        assert states'[i] == states[i] && states'[i + 1] == states[i + 1];
        assert fate'[order[i]] == fate[order[i]];
      }
    }
  }

  /** The three tables of one run and the two result lists. */
  class Timetable {
    const rules: map<string, Rule>
    var roomBusy: RoomGrid
    var lecturerBusy: LecturerGrid
    var dailySks: SksCounters
    var scheduled: seq<Entry>
    var unscheduled: seq<Course>

    ghost function Snapshot(): State
      reads this
    {
      State(roomBusy, lecturerBusy, dailySks, scheduled)
    }

    ghost predicate Valid()
      reads this
    {
      Inv(Snapshot(), rules)
    }

    /** The tables have their cells: all the search needs to read them. */
    ghost predicate Shaped()
      reads this
    {
      RoomGridShape(roomBusy) && LecturerGridShape(lecturerBusy)
    }

    /**
     * Empty tables: every room cell free, every lecturer cell empty, a zero
     * counter for each named lecturer of the input on each day.
     */
    constructor (courses: seq<Course>, rules: map<string, Rule>, timeSlots: seq<int>)
      requires IsTimeAxis(timeSlots)
      ensures Valid() && this.rules == rules
      ensures scheduled == [] && unscheduled == [] && Fresh(Snapshot())
      ensures forall d, id :: (d, id) in dailySks <==>
        d in DAYS && exists k :: 0 <= k < |courses| && courses[k].lecturer == Assigned(id)
    {
      this.rules := rules;
      var names := set k | 0 <= k < |courses| && courses[k].lecturer.Assigned? :: courses[k].lecturer.name;
      roomBusy := EmptyRoomGrid(timeSlots);
      lecturerBusy := EmptyLecturerGrid(timeSlots);
      dailySks := ZeroCounters(names);
      scheduled := [];
      unscheduled := [];
      new;
      forall t ensures t in timeSlots <==> IsSlot(t) {
        TimeAxisMembers(timeSlots, t);
      }
      forall d, id | d in DAYS && exists k :: 0 <= k < |courses| && courses[k].lecturer == Assigned(id)
        ensures id in names
      {
        var k :| 0 <= k < |courses| && courses[k].lecturer == Assigned(id);
      }
      FreshSatisfiesInv(Snapshot(), rules);
    }

    /**
     * All filters for one start slot of one room on an open day: inside the
     * time axis, inside the lecturer's windows, clear of breaks, lecturer
     * free, room free.
     */
    method CheckCandidate(c: Course, sks: int, day: string, room: string, start: int, timeSlots: seq<int>)
      returns (ok: bool)
      requires Shaped() && IsTimeAxis(timeSlots)
      requires day in CandidateDays(RuleFor(rules, Identity(c.lecturer)))
      requires room in ROOMS && IsSlot(start) && sks >= 1
      requires SksGet(dailySks, day, Identity(c.lecturer)) + sks <= Cap(RuleFor(rules, Identity(c.lecturer)))
      ensures ok <==> CanCommit(Snapshot(), CandidateEntry(c, sks, day, room, start), rules)
    {
      var id := Identity(c.lecturer);
      var rule := RuleFor(rules, id);
      var end := start + MINUTES_PER_SKS * sks;
      CandidateFilters(Snapshot(), rules, c, sks, day, room, start);
      var toBook := SlotsToBook(start, end);
      FitsIffEndsByClose(start, end, toBook, timeSlots);
      if !(forall s :: s in toBook ==> s in timeSlots) {
        assert !(end <= DAY_END);
        return false;
      }
      RunIsSlots(start, end, toBook);

      var inRange := WithinTimeRanges(rule, start, end);
      if !inRange {
        assert !InWindow(rule, start, end);
        return false;
      }

      var breakConflict := exists s, b :: s in toBook && b in BREAK_PERIODS && b.from <= s < b.to;
      BreakTestMatches(start, end, toBook);
      if breakConflict {
        assert !AvoidsBreaks(start, end);
        return false;
      }

      var lecturerFree := id == UNASSIGNED_NAME || forall s :: s in toBook ==> id !in lecturerBusy[(day, s)];
      var roomFree := forall s :: s in toBook ==> !roomBusy[(day, room, s)];
      FreeTestsMatch(Snapshot(), day, room, id, start, end, toBook);
      ok := lecturerFree && roomFree;
    }

    /**
     * One room of one open day: start slots in chronological order, until
     * the first that passes every filter.
     */
    method SearchRoom(c: Course, sks: int, roomsFor: nat -> seq<string>, p: nat, q: nat, timeSlots: seq<int>)
      returns (found: Option<Entry>, ghost k: nat)
      requires Shaped() && IsTimeAxis(timeSlots) && sks >= 1
      requires p < |CandidateDays(RuleFor(rules, Identity(c.lecturer)))|
      requires q < |roomsFor(p)| && roomsFor(p)[q] in ROOMS
      requires SksGet(dailySks, CandidateDays(RuleFor(rules, Identity(c.lecturer)))[p], Identity(c.lecturer)) + sks
               <= Cap(RuleFor(rules, Identity(c.lecturer)))
      requires NoneBefore(Snapshot(), rules, c, sks, roomsFor, p, q, 0)
      ensures found.Some? ==>
        && Feasible(Snapshot(), rules, c, sks, roomsFor, p, q, k)
        && found.value == CandidateEntry(c, sks, CandidateDays(RuleFor(rules, Identity(c.lecturer)))[p],
                                         roomsFor(p)[q], SlotTime(k))
        && NoneBefore(Snapshot(), rules, c, sks, roomsFor, p, q, k)
      ensures found.None? ==> NoneBefore(Snapshot(), rules, c, sks, roomsFor, p, q + 1, 0)
    {
      var day := CandidateDays(RuleFor(rules, Identity(c.lecturer)))[p];
      var room := roomsFor(p)[q];
      k := 0;
      var slotPos := 0;
      while slotPos < |timeSlots|
        invariant 0 <= slotPos <= |timeSlots|
        invariant NoneBefore(Snapshot(), rules, c, sks, roomsFor, p, q, slotPos)
      {
        var start := timeSlots[slotPos];
        SlotTimeIsSlot(slotPos);
        var ok := CheckCandidate(c, sks, day, room, start, timeSlots);
        if ok {
          k := slotPos;
          return Some(CandidateEntry(c, sks, day, room, start)), k;
        }
        NextSlot(Snapshot(), rules, c, sks, roomsFor, p, q, slotPos);
        slotPos := slotPos + 1;
      }
      NextRoom(Snapshot(), rules, c, sks, roomsFor, p, q);
      return None, k;
    }

    /**
     * One candidate day: skipped whole when the lecturer's SKS for it would
     * pass the cap, otherwise its rooms in the given order.
     */
    method SearchDay(c: Course, sks: int, roomsFor: nat -> seq<string>, p: nat, timeSlots: seq<int>)
      returns (found: Option<Entry>, ghost q: nat, ghost k: nat)
      requires Shaped() && IsTimeAxis(timeSlots) && sks >= 1
      requires p < |CandidateDays(RuleFor(rules, Identity(c.lecturer)))|
      requires IsRoomOrder(roomsFor(p))
      requires NoneBefore(Snapshot(), rules, c, sks, roomsFor, p, 0, 0)
      ensures found.Some? ==>
        && Feasible(Snapshot(), rules, c, sks, roomsFor, p, q, k)
        && found.value == CandidateEntry(c, sks, CandidateDays(RuleFor(rules, Identity(c.lecturer)))[p],
                                         roomsFor(p)[q], SlotTime(k))
        && NoneBefore(Snapshot(), rules, c, sks, roomsFor, p, q, k)
      ensures found.None? ==> NoneBefore(Snapshot(), rules, c, sks, roomsFor, p + 1, 0, 0)
    {
      var id := Identity(c.lecturer);
      var rule := RuleFor(rules, id);
      var day := CandidateDays(rule)[p];
      q, k := 0, 0;
      var limit := Cap(rule);
      var current := SksGet(dailySks, day, id);
      if current + sks > limit {
        SkipFullDay(Snapshot(), rules, c, sks, roomsFor, p);
        return None, q, k;
      }
      var rooms := roomsFor(p);
      var roomPos := 0;
      while roomPos < |rooms|
        invariant 0 <= roomPos <= |rooms|
        invariant NoneBefore(Snapshot(), rules, c, sks, roomsFor, p, roomPos, 0)
      {
        var r;
        r, k := SearchRoom(c, sks, roomsFor, p, roomPos, timeSlots);
        if r.Some? {
          q := roomPos;
          return r, q, k;
        }
        roomPos := roomPos + 1;
      }
      NextDay(Snapshot(), rules, c, sks, roomsFor, p);
      return None, q, k;
    }

    /**
     * The search for one course: days in candidate order, rooms in the given
     * order for that day, start slots chronologically; the first candidate
     * passing every filter wins.
     */
    method FindPlacement(c: Course, sks: int, roomsFor: nat -> seq<string>, timeSlots: seq<int>)
      returns (found: Option<Entry>, ghost p: nat, ghost q: nat, ghost k: nat)
      requires Shaped() && IsTimeAxis(timeSlots) && sks >= 1
      requires forall i :: IsRoomOrder(roomsFor(i))
      ensures found.Some? ==>
        && Feasible(Snapshot(), rules, c, sks, roomsFor, p, q, k)
        && found.value == CandidateEntry(c, sks, CandidateDays(RuleFor(rules, Identity(c.lecturer)))[p],
                                         roomsFor(p)[q], SlotTime(k))
        && NoneBefore(Snapshot(), rules, c, sks, roomsFor, p, q, k)
      ensures found.None? ==> NoneFits(Snapshot(), rules, c, sks, roomsFor)
    {
      var days := CandidateDays(RuleFor(rules, Identity(c.lecturer)));
      p, q, k := 0, 0, 0;
      var dayPos := 0;
      while dayPos < |days|
        invariant 0 <= dayPos <= |days|
        invariant NoneBefore(Snapshot(), rules, c, sks, roomsFor, dayPos, 0, 0)
      {
        var r;
        r, q, k := SearchDay(c, sks, roomsFor, dayPos, timeSlots);
        if r.Some? {
          p := dayPos;
          return r, p, q, k;
        }
        dayPos := dayPos + 1;
      }
      NoDayLeft(Snapshot(), rules, c, sks, roomsFor);
      return None, p, q, k;
    }

    /**
     * Books an entry: marks its room cells, adds an assigned lecturer to its
     * lecturer cells, adds its SKS to the day counter and appends it.
     */
    method Commit(e: Entry)
      requires Shaped() && e.day in DAYS && e.room in ROOMS && IsSlot(e.start) && e.end <= DAY_END
      modifies this
      ensures CommitStep(old(Snapshot()), Snapshot(), e)
      ensures unscheduled == old(unscheduled)
    {
      ghost var s0 := Snapshot();
      var current := SksGet(dailySks, e.day, e.lecturer);
      var toBook := SlotsToBook(e.start, e.end);
      RunIsSlots(e.start, e.end, toBook);
      assert forall t :: t in toBook ==> (e.day, e.room, t) in s0.roomBusy && (e.day, t) in s0.lecturerBusy;
      var rooms, lecturers := BookRun(roomBusy, lecturerBusy, e.day, e.room, e.lecturer, toBook);
      roomBusy, lecturerBusy := rooms, lecturers;
      dailySks := dailySks[(e.day, e.lecturer) := current + e.sks];
      scheduled := scheduled + [e];
      BookedRunIsCommitStep(s0, Snapshot(), e, toBook);
    }

    /**
     * One course with positive SKS: search, then commit the first feasible
     * candidate, or record the course as unscheduled and change no table.
     */
    method Allocate(c: Course, sks: int, roomsFor: nat -> seq<string>, timeSlots: seq<int>)
      returns (placed: bool)
      requires Valid() && IsTimeAxis(timeSlots)
      requires c.sks == Some(sks) && sks >= 1
      requires forall i :: IsRoomOrder(roomsFor(i))
      modifies this
      ensures Valid()
      ensures placed ==>
        && unscheduled == old(unscheduled)
        && |scheduled| == |old(scheduled)| + 1
        && MadeFrom(scheduled[|scheduled| - 1], c)
        && ChosenBy(old(Snapshot()), rules, c, sks, roomsFor, scheduled[|scheduled| - 1])
        && CommitStep(old(Snapshot()), Snapshot(), scheduled[|scheduled| - 1])
      ensures !placed ==>
        && unscheduled == old(unscheduled) + [c]
        && Snapshot() == old(Snapshot())
        && NoneFits(old(Snapshot()), rules, c, sks, roomsFor)
    {
      var found, p, q, k := FindPlacement(c, sks, roomsFor, timeSlots);
      if found.Some? {
        var e := found.value;
        ghost var s0 := Snapshot();
        assert ChosenBy(s0, rules, c, sks, roomsFor, e);
        Commit(e);
        CommitPreservesInv(s0, Snapshot(), e, rules);
        placed := true;
      } else {
        unscheduled := unscheduled + [c];
        placed := false;
      }
    }

    /**
     * The loop body of the allocator for one course row: unparsable SKS go to
     * the unscheduled list, non-positive SKS are dropped without a trace,
     * the rest are allocated. The result tells which, and where the course
     * or its entry now sits.
     */
    method ProcessCourse(c: Course, roomsFor: nat -> seq<string>, timeSlots: seq<int>)
      returns (r: Fate)
      requires Valid() && IsTimeAxis(timeSlots)
      requires forall i :: IsRoomOrder(roomsFor(i))
      modifies this
      ensures Valid()
      ensures !r.Pending?
      ensures r.Dropped? <==> NonPositive(c)
      ensures c.sks.None? ==> r.Unplaced?
      ensures r.Dropped? ==> scheduled == old(scheduled) && unscheduled == old(unscheduled)
      ensures r.Placed? ==>
        && r.at == |old(scheduled)| && |scheduled| == r.at + 1
        && scheduled[..r.at] == old(scheduled) && MadeFrom(scheduled[r.at], c)
        && unscheduled == old(unscheduled)
      ensures r.Unplaced? ==>
        && r.at == |old(unscheduled)| && unscheduled == old(unscheduled) + [c]
        && scheduled == old(scheduled)
      ensures !r.Placed? ==> Snapshot() == old(Snapshot())
      ensures CourseStep(old(Snapshot()), Snapshot(), rules, c, roomsFor, r)
    {
      match c.sks {
        case None =>
          unscheduled := unscheduled + [c];
          r := Unplaced(|unscheduled| - 1);
        case Some(sks) =>
          if sks * MINUTES_PER_SKS <= 0 {
            r := Dropped;
          } else {
            var placed := Allocate(c, sks, roomsFor, timeSlots);
            if placed {
              assert scheduled[..|scheduled| - 1] == old(scheduled);
              r := Placed(|scheduled| - 1);
            } else {
              r := Unplaced(|unscheduled| - 1);
            }
          }
      }
    }

    /**
     * The main loop of the allocator: every course row once, in the given
     * order, each with the room orders of its processing position.
     */
    method ProcessAll(courses: seq<Course>, order: seq<nat>, roomOrder: (nat, nat) -> seq<string>, timeSlots: seq<int>)
      returns (ghost fate: seq<Fate>, ghost placedFrom: seq<nat>, ghost unplacedFrom: seq<nat>,
               ghost states: seq<State>)
      requires Valid() && IsTimeAxis(timeSlots) && scheduled == [] && unscheduled == []
      requires forall j, p :: IsRoomOrder(roomOrder(j, p))
      requires forall j :: 0 <= j < |order| ==> order[j] < |courses|
      requires forall i, j :: 0 <= i < j < |order| ==> order[i] != order[j]
      modifies this
      ensures Valid()
      ensures Accounted(courses, order, fate, scheduled, unscheduled, placedFrom, unplacedFrom)
      ensures |states| == |order| + 1 && states[0] == old(Snapshot()) && states[|order|] == Snapshot()
      ensures forall j :: 0 <= j < |order| ==>
        CourseStep(states[j], states[j + 1], rules, courses[order[j]], RoomsAt(roomOrder, j), fate[order[j]])
    {
      fate := seq(|courses|, _ => Pending);
      placedFrom, unplacedFrom := [], [];
      states := [Snapshot()];
      AccountedAtStart(courses);
      var j := 0;
      while j < |order|
        invariant 0 <= j <= |order|
        invariant Valid()
        invariant Accounted(courses, order[..j], fate, scheduled, unscheduled, placedFrom, unplacedFrom)
        invariant |states| == j + 1 && states[0] == old(Snapshot()) && states[j] == Snapshot()
        invariant Traced(states, fate, rules, courses, order, roomOrder, j)
      {
        var k0 := order[j];
        assert order[..j + 1] == order[..j] + [k0];
        assert k0 !in order[..j];
        ghost var scheduled0, unscheduled0 := scheduled, unscheduled;
        var r := ProcessCourse(courses[k0], RoomsAt(roomOrder, j), timeSlots);
        TraceStep(states, Snapshot(), fate, rules, courses, order, roomOrder, j, r);
        placedFrom, unplacedFrom := AccountedStep(courses, order[..j], fate, scheduled0, unscheduled0,
                                                  placedFrom, unplacedFrom, k0, r, scheduled, unscheduled);
        fate := fate[k0 := r];
        states := states + [Snapshot()];
        j := j + 1;
      }
      assert order[..|order|] == order;
    }
  }

  /**
   * The allocator: the courses in the given order, a room order for every
   * (processing position, candidate-day position). Returns the scheduled
   * entries and the unscheduled courses; `fate` tells, per input position,
   * what became of each course.
   */
  method GenerateSchedule(
    courses: seq<Course>, rules: map<string, Rule>, order: seq<nat>, roomOrder: (nat, nat) -> seq<string>)
    returns (scheduled: seq<Entry>, unscheduled: seq<Course>, ghost fate: seq<Fate>, ghost states: seq<State>)
    requires IsPermutation(order, |courses|)
    requires forall j, p :: IsRoomOrder(roomOrder(j, p))
    ensures ScheduleSound(scheduled, rules)
    ensures |fate| == |courses|
    ensures forall k :: 0 <= k < |courses| ==> !fate[k].Pending?
    ensures forall k :: 0 <= k < |courses| ==> (fate[k].Dropped? <==> NonPositive(courses[k]))
    ensures forall k :: 0 <= k < |courses| && courses[k].sks.None? ==> fate[k].Unplaced?
    ensures forall k :: 0 <= k < |courses| && fate[k].Placed? ==>
      fate[k].at < |scheduled| && MadeFrom(scheduled[fate[k].at], courses[k])
    ensures forall k :: 0 <= k < |courses| && fate[k].Unplaced? ==>
      fate[k].at < |unscheduled| && unscheduled[fate[k].at] == courses[k]
    ensures forall k1, k2 :: 0 <= k1 < k2 < |courses| && !fate[k1].Dropped? ==> fate[k1] != fate[k2]
    ensures forall i :: 0 <= i < |scheduled| ==> Placed(i) in fate
    ensures forall i :: 0 <= i < |unscheduled| ==> Unplaced(i) in fate
    ensures |states| == |courses| + 1 && Fresh(states[0]) && states[|courses|].scheduled == scheduled
    ensures forall j :: 0 <= j < |courses| ==>
      CourseStep(states[j], states[j + 1], rules, courses[order[j]], RoomsAt(roomOrder, j), fate[order[j]])
  {
    var timeSlots := BuildTimeSlots();
    var t := new Timetable(courses, rules, timeSlots);
    ghost var placedFrom, unplacedFrom;
    fate, placedFrom, unplacedFrom, states := t.ProcessAll(courses, order, roomOrder, timeSlots);
    AccountedPartition(courses, order, fate, t.scheduled, t.unscheduled, placedFrom, unplacedFrom);
    scheduled, unscheduled := t.scheduled, t.unscheduled;
  }
}
