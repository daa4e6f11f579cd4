/**
 * The occupancy tables of a run, as values: the room grid, the lecturer grid
 * and the per-day SKS counters, together with the entries placed so far.
 * States how they agree with the entries and what one commit does to them.
 */
module Grid {
  import opened Wrappers
  import opened Config
  import opened Model
  import opened Constraints
  import opened Schedule

  /** room grid: (day, room, slot) -> occupied */
  type RoomGrid = map<(string, string, int), bool>
  /** lecturer grid: (day, slot) -> the identities teaching then */
  type LecturerGrid = map<(string, int), set<string>>
  /** daily counters: (day, lecturer identity) -> SKS placed that day */
  type SksCounters = map<(string, string), int>

  datatype State = State(
    roomBusy: RoomGrid,
    lecturerBusy: LecturerGrid,
    dailySks: SksCounters,
    scheduled: seq<Entry>)

  /** A counter read: its value when the day and lecturer have one, 0 otherwise. */
  function SksGet(m: SksCounters, day: string, id: string): (n: int)
    ensures (day, id) in m ==> n == m[(day, id)]
    ensures (day, id) !in m ==> n == 0
  {
    if (day, id) in m then m[(day, id)] else 0
  }

  /** The room grid has a cell for every processing day, roster room and slot, and no other. */
  ghost predicate RoomGridShape(g: RoomGrid)
  {
    forall d, r, t :: (d, r, t) in g <==> d in DAYS && r in ROOMS && IsSlot(t)
  }

  /** The lecturer grid has a cell for every processing day and slot, and no other. */
  ghost predicate LecturerGridShape(g: LecturerGrid)
  {
    forall d, t :: (d, t) in g <==> d in DAYS && IsSlot(t)
  }

  /** Some entry occupies the room on that day at minute t. */
  ghost predicate RoomTaken(sched: seq<Entry>, d: string, r: string, t: int)
  {
    exists i :: 0 <= i < |sched| && sched[i].day == d && sched[i].room == r && sched[i].start <= t < sched[i].end
  }

  /** Some entry of that lecturer identity runs on that day at minute t. */
  ghost predicate LecturerTaken(sched: seq<Entry>, d: string, id: string, t: int)
  {
    exists i :: 0 <= i < |sched| && sched[i].day == d && sched[i].lecturer == id && sched[i].start <= t < sched[i].end
  }

  /** A room cell is marked exactly when a scheduled entry covers it. */
  ghost predicate RoomGridMatches(g: RoomGrid, sched: seq<Entry>)
  {
    forall d, r, t :: (d, r, t) in g ==> (g[(d, r, t)] <==> RoomTaken(sched, d, r, t))
  }

  /**
   * A lecturer cell holds exactly the assigned identities with an entry
   * covering it; the unassigned identity is never recorded.
   */
  ghost predicate LecturerGridMatches(g: LecturerGrid, sched: seq<Entry>)
  {
    forall d, t, id :: (d, t) in g ==>
      (id in g[(d, t)] <==> id != UNASSIGNED_NAME && LecturerTaken(sched, d, id, t))
  }

  /** Each counter equals the SKS placed that day for that identity. */
  ghost predicate CountersMatch(m: SksCounters, sched: seq<Entry>)
  {
    forall d, id :: SksGet(m, d, id) == SumSks(sched, d, id)
  }

  /** The tables describe the entries, and the entries are sound. */
  ghost predicate Inv(s: State, rules: map<string, Rule>)
  {
    && RoomGridShape(s.roomBusy)
    && LecturerGridShape(s.lecturerBusy)
    && RoomGridMatches(s.roomBusy, s.scheduled)
    && LecturerGridMatches(s.lecturerBusy, s.scheduled)
    && CountersMatch(s.dailySks, s.scheduled)
    && ScheduleSound(s.scheduled, rules)
  }

  /** No room cell of [start, end) is marked. */
  ghost predicate RoomFree(g: RoomGrid, day: string, room: string, start: int, end: int)
  {
    forall t :: start <= t < end && (day, room, t) in g ==> !g[(day, room, t)]
  }

  /** The unassigned identity, or an identity absent from every cell of [start, end). */
  ghost predicate LecturerFree(g: LecturerGrid, day: string, id: string, start: int, end: int)
  {
    id == UNASSIGNED_NAME || forall t :: start <= t < end && (day, t) in g ==> id !in g[(day, t)]
  }

  /**
   * Every filter of the search passes for this entry: it is well placed,
   * its room and lecturer are free, and its SKS fit under the day's cap.
   */
  ghost predicate CanCommit(s: State, e: Entry, rules: map<string, Rule>)
  {
    && WellPlaced(e, rules)
    && SksGet(s.dailySks, e.day, e.lecturer) + e.sks <= Cap(RuleFor(rules, e.lecturer))
    && LecturerFree(s.lecturerBusy, e.day, e.lecturer, e.start, e.end)
    && RoomFree(s.roomBusy, e.day, e.room, e.start, e.end)
  }

  /**
   * What a commit of e does: marks e's room cells, adds an assigned lecturer
   * to e's lecturer cells, adds e's SKS to its day counter, appends e.
   */
  ghost predicate CommitStep(s: State, s': State, e: Entry)
  {
    && (forall d, r, t :: (d, r, t) in s'.roomBusy <==> (d, r, t) in s.roomBusy)
    && (forall d, r, t :: (d, r, t) in s.roomBusy ==>
          s'.roomBusy[(d, r, t)] == (s.roomBusy[(d, r, t)] || (d == e.day && r == e.room && e.start <= t < e.end)))
    && (forall d, t :: (d, t) in s'.lecturerBusy <==> (d, t) in s.lecturerBusy)
    && (forall d, t :: (d, t) in s.lecturerBusy ==>
          s'.lecturerBusy[(d, t)] ==
            if e.lecturer != UNASSIGNED_NAME && d == e.day && e.start <= t < e.end
            then s.lecturerBusy[(d, t)] + {e.lecturer}
            else s.lecturerBusy[(d, t)])
    && s'.dailySks == s.dailySks[(e.day, e.lecturer) := SksGet(s.dailySks, e.day, e.lecturer) + e.sks]
    && s'.scheduled == s.scheduled + [e]
  }

  lemma RoomTakenAppend(sched: seq<Entry>, e: Entry, d: string, r: string, t: int)
    ensures RoomTaken(sched + [e], d, r, t)
        <==> RoomTaken(sched, d, r, t) || (d == e.day && r == e.room && e.start <= t < e.end)
  {
    var sched' := sched + [e];
    if RoomTaken(sched', d, r, t) {
      var i :| 0 <= i < |sched'| && sched'[i].day == d && sched'[i].room == r && sched'[i].start <= t < sched'[i].end;
      if i < |sched| {
        assert sched[i] == sched'[i];
      }
    }
    if RoomTaken(sched, d, r, t) {
      var i :| 0 <= i < |sched| && sched[i].day == d && sched[i].room == r && sched[i].start <= t < sched[i].end;
      assert sched'[i] == sched[i];
    }
    if d == e.day && r == e.room && e.start <= t < e.end {
      assert sched'[|sched|] == e;
    }
  }

  lemma LecturerTakenAppend(sched: seq<Entry>, e: Entry, d: string, id: string, t: int)
    ensures LecturerTaken(sched + [e], d, id, t)
        <==> LecturerTaken(sched, d, id, t) || (d == e.day && id == e.lecturer && e.start <= t < e.end)
  {
    var sched' := sched + [e];
    if LecturerTaken(sched', d, id, t) {
      var i :| 0 <= i < |sched'| && sched'[i].day == d && sched'[i].lecturer == id && sched'[i].start <= t < sched'[i].end;
      if i < |sched| {
        assert sched[i] == sched'[i];
      }
    }
    if LecturerTaken(sched, d, id, t) {
      var i :| 0 <= i < |sched| && sched[i].day == d && sched[i].lecturer == id && sched[i].start <= t < sched[i].end;
      assert sched'[i] == sched[i];
    }
    if d == e.day && id == e.lecturer && e.start <= t < e.end {
      assert sched'[|sched|] == e;
    }
  }

  /** A free room on commit means no earlier entry in that room and day overlaps e. */
  lemma FreeRoomMeansNoOverlap(s: State, e: Entry, rules: map<string, Rule>, i: nat)
    requires Inv(s, rules) && CanCommit(s, e, rules)
    requires i < |s.scheduled|
    requires s.scheduled[i].day == e.day && s.scheduled[i].room == e.room
    ensures !Overlap(s.scheduled[i], e)
  {
    var a := s.scheduled[i];
    assert WellPlaced(a, rules);
    var t := if a.start <= e.start then e.start else a.start;
    if e.start <= t < e.end {
      assert (e.day, e.room, t) in s.roomBusy;
      assert !RoomTaken(s.scheduled, e.day, e.room, t);
    }
    assert !(a.start <= t < a.end && e.start <= t < e.end);
  }

  /** A free assigned lecturer on commit means no earlier entry of theirs that day overlaps e. */
  lemma FreeLecturerMeansNoOverlap(s: State, e: Entry, rules: map<string, Rule>, i: nat)
    requires Inv(s, rules) && CanCommit(s, e, rules)
    requires i < |s.scheduled|
    requires s.scheduled[i].day == e.day && s.scheduled[i].lecturer == e.lecturer
    requires e.lecturer != UNASSIGNED_NAME
    ensures !Overlap(s.scheduled[i], e)
  {
    var a := s.scheduled[i];
    assert WellPlaced(a, rules);
    var t := if a.start <= e.start then e.start else a.start;
    if e.start <= t < e.end {
      assert (e.day, t) in s.lecturerBusy;
      assert !LecturerTaken(s.scheduled, e.day, e.lecturer, t);
    }
    assert !(a.start <= t < a.end && e.start <= t < e.end);
  }

  lemma AppendKeepsRoomsExclusive(sched: seq<Entry>, e: Entry)
    requires RoomsExclusive(sched)
    requires forall i :: 0 <= i < |sched| && sched[i].day == e.day && sched[i].room == e.room
               ==> !Overlap(sched[i], e)
    ensures RoomsExclusive(sched + [e])
  {
    var sched' := sched + [e];
    forall i, j | 0 <= i < j < |sched'| && sched'[i].day == sched'[j].day && sched'[i].room == sched'[j].room
      ensures !Overlap(sched'[i], sched'[j])
    {
      if j < |sched| {
        assert sched'[i] == sched[i] && sched'[j] == sched[j];
      } else {
        assert sched'[i] == sched[i] && sched'[j] == e;
      }
    }
  }

  lemma AppendKeepsLecturersExclusive(sched: seq<Entry>, e: Entry)
    requires LecturersExclusive(sched)
    requires e.lecturer != UNASSIGNED_NAME ==>
      forall i :: 0 <= i < |sched| && sched[i].day == e.day && sched[i].lecturer == e.lecturer
        ==> !Overlap(sched[i], e)
    ensures LecturersExclusive(sched + [e])
  {
    var sched' := sched + [e];
    forall i, j | 0 <= i < j < |sched'| && sched'[i].day == sched'[j].day
      && sched'[i].lecturer == sched'[j].lecturer && sched'[i].lecturer != UNASSIGNED_NAME
      ensures !Overlap(sched'[i], sched'[j])
    {
      if j < |sched| {
        assert sched'[i] == sched[i] && sched'[j] == sched[j];
      } else {
        assert sched'[i] == sched[i] && sched'[j] == e;
      }
    }
  }

  lemma AppendKeepsCaps(sched: seq<Entry>, e: Entry, rules: map<string, Rule>)
    requires WithinCaps(sched, rules)
    requires SumSks(sched, e.day, e.lecturer) + e.sks <= Cap(RuleFor(rules, e.lecturer))
    ensures WithinCaps(sched + [e], rules)
  {
    var sched' := sched + [e];
    forall i | 0 <= i < |sched'|
      ensures SumSks(sched', sched'[i].day, sched'[i].lecturer) <= Cap(RuleFor(rules, sched'[i].lecturer))
    {
      var a := sched'[i];
      SumSksAppend(sched, e, a.day, a.lecturer);
      if i < |sched| {
        assert a == sched[i];
      }
    }
  }

  lemma FreeRoomNoOverlaps(s: State, e: Entry, rules: map<string, Rule>)
    requires Inv(s, rules) && CanCommit(s, e, rules)
    ensures forall i :: 0 <= i < |s.scheduled| && s.scheduled[i].day == e.day && s.scheduled[i].room == e.room
              ==> !Overlap(s.scheduled[i], e)
  {
    forall i | 0 <= i < |s.scheduled| && s.scheduled[i].day == e.day && s.scheduled[i].room == e.room {
      FreeRoomMeansNoOverlap(s, e, rules, i);
    }
  }

  lemma FreeLecturerNoOverlaps(s: State, e: Entry, rules: map<string, Rule>)
    requires Inv(s, rules) && CanCommit(s, e, rules)
    ensures e.lecturer != UNASSIGNED_NAME ==>
      forall i :: 0 <= i < |s.scheduled| && s.scheduled[i].day == e.day && s.scheduled[i].lecturer == e.lecturer
        ==> !Overlap(s.scheduled[i], e)
  {
    if e.lecturer != UNASSIGNED_NAME {
      forall i | 0 <= i < |s.scheduled| && s.scheduled[i].day == e.day && s.scheduled[i].lecturer == e.lecturer {
        FreeLecturerMeansNoOverlap(s, e, rules, i);
      }
    }
  }

  lemma AppendKeepsSound(sched: seq<Entry>, e: Entry, rules: map<string, Rule>)
    requires ScheduleSound(sched, rules) && WellPlaced(e, rules)
    requires forall i :: 0 <= i < |sched| && sched[i].day == e.day && sched[i].room == e.room
               ==> !Overlap(sched[i], e)
    requires e.lecturer != UNASSIGNED_NAME ==>
      forall i :: 0 <= i < |sched| && sched[i].day == e.day && sched[i].lecturer == e.lecturer
        ==> !Overlap(sched[i], e)
    requires SumSks(sched, e.day, e.lecturer) + e.sks <= Cap(RuleFor(rules, e.lecturer))
    ensures ScheduleSound(sched + [e], rules)
  {
    AppendKeepsRoomsExclusive(sched, e);
    AppendKeepsLecturersExclusive(sched, e);
    AppendKeepsCaps(sched, e, rules);
    AppendKeepsWellPlaced(sched, e, rules);
  }

  lemma AppendKeepsWellPlaced(sched: seq<Entry>, e: Entry, rules: map<string, Rule>)
    requires forall i :: 0 <= i < |sched| ==> WellPlaced(sched[i], rules)
    requires WellPlaced(e, rules)
    ensures forall i :: 0 <= i < |sched + [e]| ==> WellPlaced((sched + [e])[i], rules)
  {
    AppendKeepsAll(sched, e, x => WellPlaced(x, rules));
  }

  /** A property of every element and of one more holds of every element of the extension. */
  lemma AppendKeepsAll<T>(sched: seq<T>, e: T, P: T -> bool)
    requires forall i :: 0 <= i < |sched| ==> P(sched[i])
    requires P(e)
    ensures forall i :: 0 <= i < |sched + [e]| ==> P((sched + [e])[i])
  {
    var sched' := sched + [e];
    forall i | 0 <= i < |sched'| ensures P(sched'[i]) {
      if i < |sched| {
        assert sched'[i] == sched[i];
      }
    }
  }

  lemma CommitKeepsTables(s: State, s': State, e: Entry)
    requires RoomGridShape(s.roomBusy) && LecturerGridShape(s.lecturerBusy)
    requires RoomGridMatches(s.roomBusy, s.scheduled)
    requires LecturerGridMatches(s.lecturerBusy, s.scheduled)
    requires CountersMatch(s.dailySks, s.scheduled)
    requires CommitStep(s, s', e)
    ensures RoomGridShape(s'.roomBusy) && LecturerGridShape(s'.lecturerBusy)
    ensures RoomGridMatches(s'.roomBusy, s'.scheduled)
    ensures LecturerGridMatches(s'.lecturerBusy, s'.scheduled)
    ensures CountersMatch(s'.dailySks, s'.scheduled)
  {
    forall d, r, t | (d, r, t) in s'.roomBusy
      ensures s'.roomBusy[(d, r, t)] <==> RoomTaken(s'.scheduled, d, r, t)
    {
      RoomTakenAppend(s.scheduled, e, d, r, t);
    }
    forall d, t, id | (d, t) in s'.lecturerBusy
      ensures id in s'.lecturerBusy[(d, t)] <==> id != UNASSIGNED_NAME && LecturerTaken(s'.scheduled, d, id, t)
    {
      LecturerTakenAppend(s.scheduled, e, d, id, t);
    }
    forall d, id ensures SksGet(s'.dailySks, d, id) == SumSks(s'.scheduled, d, id) {
      SumSksAppend(s.scheduled, e, d, id);
    }
  }

  /** Committing an entry that passes every filter keeps the invariant. */
  lemma CommitPreservesInv(s: State, s': State, e: Entry, rules: map<string, Rule>)
    requires Inv(s, rules) && CanCommit(s, e, rules) && CommitStep(s, s', e)
    ensures Inv(s', rules)
  {
    CommitKeepsTables(s, s', e);
    FreeRoomNoOverlaps(s, e, rules);
    FreeLecturerNoOverlaps(s, e, rules);
    assert SksGet(s.dailySks, e.day, e.lecturer) == SumSks(s.scheduled, e.day, e.lecturer);
    AppendKeepsSound(s.scheduled, e, rules);
  }

  /** The room grid of a fresh run: a free cell for every day, room and listed slot. */
  function EmptyRoomGrid(slots: seq<int>): (g: RoomGrid)
    ensures forall d, r, t :: (d, r, t) in g <==> d in DAYS && r in ROOMS && t in slots
    ensures forall key :: key in g ==> !g[key]
  {
    map d, r, t | d in DAYS && r in ROOMS && t in slots :: (d, r, t) := false
  }

  /** The lecturer grid of a fresh run: an empty cell for every day and listed slot. */
  function EmptyLecturerGrid(slots: seq<int>): (g: LecturerGrid)
    ensures forall d, t :: (d, t) in g <==> d in DAYS && t in slots
    ensures forall key :: key in g ==> g[key] == {}
  {
    map d, t | d in DAYS && t in slots :: (d, t) := {}
  }

  /** The counters of a fresh run: zero for every day and every listed identity. */
  function ZeroCounters(names: set<string>): (m: SksCounters)
    ensures forall d, id :: (d, id) in m <==> d in DAYS && id in names
    ensures forall key :: key in m ==> m[key] == 0
  {
    map d, id | d in DAYS && id in names :: (d, id) := 0
  }

  /** The tables before any placement: every cell free, every counter zero. */
  ghost predicate Fresh(s: State)
  {
    && RoomGridShape(s.roomBusy)
    && LecturerGridShape(s.lecturerBusy)
    && (forall k :: k in s.roomBusy ==> !s.roomBusy[k])
    && (forall k :: k in s.lecturerBusy ==> s.lecturerBusy[k] == {})
    && (forall k :: k in s.dailySks ==> s.dailySks[k] == 0)
    && s.scheduled == []
  }

  /** Empty tables satisfy the invariant. */
  lemma FreshSatisfiesInv(s: State, rules: map<string, Rule>)
    requires Fresh(s)
    ensures Inv(s, rules)
  {
  }
}
