/**
 * Process-wide constants of the allocator and the daily time axis.
 *
 * Times of day are integer minutes since midnight: 07:00 is 420, 22:00 is 1320.
 */
module Config {

  /** The days the allocator fills, in their global order. */
  const DAYS: seq<string> := ["Senin", "Selasa", "Rabu", "Kamis", "Jumat"]

  /** The room roster (names only; the floor attribute plays no part in allocation). */
  const ROOMS: seq<string> := [
    "B3G", "B3A", "B3B", "B3H",
    "B4A", "B4B", "B4C", "B4D", "B4E", "B4F", "B4G", "B4H",
    "A4A", "A4B", "A4C", "A4D",
    "B5A", "B5B", "B5C", "B5D", "B5E", "B5F"
  ]

  /** Start (inclusive) and end (exclusive) of the daily operating window. */
  const DAY_START: int := 420
  const DAY_END: int := 1320

  /** Slot granularity and the length of one credit unit (SKS). */
  const SLOT_MINUTES: int := 10
  const MINUTES_PER_SKS: int := 50

  /** Number of slots in a day: 07:00, 07:10, ..., 21:50. */
  const SLOT_COUNT: nat := 90

  /** Daily SKS cap of a lecturer whose rule does not set one. */
  const DEFAULT_MAX_SKS_DAILY: int := 99

  /** The identity the allocator gives a course without a lecturer. */
  const UNASSIGNED_NAME: string := "DOSEN BELUM ADA"

  /** A closed-open interval of minutes, [from, to) for breaks. */
  datatype Period = Period(from: int, to: int)

  /** The break periods 12:00-13:00 and 18:00-19:00. */
  const BREAK_PERIODS: seq<Period> := [Period(720, 780), Period(1080, 1140)]

  /** The time of the k-th slot of the day. */
  function SlotTime(k: nat): int
  {
    DAY_START + SLOT_MINUTES * k
  }

  /** A start time of one of the day's slots. */
  predicate IsSlot(t: int)
  {
    DAY_START <= t < DAY_END && (t - DAY_START) % SLOT_MINUTES == 0
  }

  /** A time that lies inside a break period. */
  predicate InBreak(s: int)
  {
    exists b :: b in BREAK_PERIODS && b.from <= s < b.to
  }

  /** The slot sequence of a day: every slot time, chronologically, and nothing else. */
  ghost predicate IsTimeAxis(slots: seq<int>)
  {
    && |slots| == SLOT_COUNT
    && forall k :: 0 <= k < |slots| ==> slots[k] == SlotTime(k)
  }

  lemma SlotTimeIsSlot(k: nat)
    requires k < SLOT_COUNT
    ensures IsSlot(SlotTime(k))
  {
    assert SlotTime(k) - DAY_START == SLOT_MINUTES * k;
  }

  /** Every slot time is the k-th slot for k = (t - 07:00) / 10. */
  lemma SlotIndex(t: int) returns (k: nat)
    requires IsSlot(t)
    ensures k < SLOT_COUNT && SlotTime(k) == t
  {
    k := (t - DAY_START) / SLOT_MINUTES;
  }

  /** A time is in the slot sequence exactly when it is a slot. */
  lemma {:induction false} TimeAxisMembers(slots: seq<int>, t: int)
    requires IsTimeAxis(slots)
    ensures t in slots <==> IsSlot(t)
  {
    if t in slots {
      var k :| 0 <= k < |slots| && slots[k] == t;
      SlotTimeIsSlot(k);
    }
    if IsSlot(t) {
      var k := SlotIndex(t);
      assert slots[k] == t;
    }
  }

  /**
   * Builds the slot sequence by stepping ten minutes at a time from 07:00
   * while the time is before 22:00.
   */
  method BuildTimeSlots() returns (slots: seq<int>)
    ensures IsTimeAxis(slots)
    ensures forall i, j :: 0 <= i < j < |slots| ==> slots[i] < slots[j]
    ensures forall k :: 0 <= k < |slots| ==> IsSlot(slots[k])
  {
    slots := [];
    var current := DAY_START;
    while current < DAY_END
      invariant current == SlotTime(|slots|) && |slots| <= SLOT_COUNT
      invariant forall k :: 0 <= k < |slots| ==> slots[k] == SlotTime(k)
      decreases DAY_END - current
    {
      slots := slots + [current];
      current := current + SLOT_MINUTES;
    }
    forall k | 0 <= k < |slots| ensures IsSlot(slots[k]) {
      SlotTimeIsSlot(k);
    }
  }
}
