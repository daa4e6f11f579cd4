/**
 * The bookkeeping of one run: what became of each course row, and the
 * course order handed to the allocator.
 */
module Partition {
  import opened Wrappers
  import opened Model

  /** The outcome of a course row, by input position. */
  datatype Fate = Pending | Dropped | Placed(at: nat) | Unplaced(at: nat)

  /** The course order handed to the allocator: each input position exactly once. */
  predicate IsPermutation(order: seq<nat>, n: nat)
  {
    && |order| == n
    && (forall j :: 0 <= j < |order| ==> order[j] < n)
    && (forall i, j :: 0 <= i < j < |order| ==> order[i] != order[j])
  }

  /** The values listed in a sequence. */
  function Elements(s: seq<nat>): set<nat>
  {
    if s == [] then {} else Elements(s[..|s| - 1]) + {s[|s| - 1]}
  }

  /** The positions 0..n-1. */
  function Below(n: nat): (r: set<nat>)
    ensures forall x: nat :: x in r <==> x < n
  {
    if n == 0 then {} else Below(n - 1) + {n - 1}
  }

  /** A value is among the elements exactly when the sequence lists it. */
  lemma {:induction false} ElementsMembers(s: seq<nat>)
    ensures forall x: nat :: x in Elements(s) <==> x in s
  {
    if s != [] {
      var n := |s| - 1;
      ElementsMembers(s[..n]);
      assert s == s[..n] + [s[n]];
    }
  }

  /** A sequence without repetitions has as many elements as entries. */
  lemma {:induction false} DistinctElementsSize(s: seq<nat>)
    requires forall i, j :: 0 <= i < j < |s| ==> s[i] != s[j]
    ensures |Elements(s)| == |s|
  {
    if s != [] {
      var n := |s| - 1;
      var init := s[..n];
      DistinctElementsSize(init);
      ElementsMembers(init);
      assert s[n] !in init;
    }
  }

  lemma {:induction false} BelowSize(n: nat)
    ensures |Below(n)| == n
  {
    if n > 0 {
      BelowSize(n - 1);
    }
  }

  /** A permutation of 0..n-1 lists every position. */
  lemma PermutationCovers(order: seq<nat>, n: nat, k: nat)
    requires IsPermutation(order, n)
    requires k < n
    ensures k in order
  {
    DistinctElementsSize(order);
    ElementsMembers(order);
    BelowSize(n);
    if k !in order {
      assert Elements(order) <= Below(n) - {k};
      assert |Below(n) - {k}| == n - 1;
      SubsetSize(Elements(order), Below(n) - {k});
      assert false;
    }
  }

  lemma SubsetSize(a: set<nat>, b: set<nat>)
    requires a <= b
    ensures |a| <= |b|
  {
    assert b == a + (b - a);
  }

  /**
   * The outcome of every row agrees with the result lists: exactly the rows
   * listed in `done` are settled, each placed row has its entry, each
   * unplaced row its copy, and each entry and copy remembers the one row it
   * came from.
   */
  ghost predicate Accounted(courses: seq<Course>, done: seq<nat>, fate: seq<Fate>, scheduled: seq<Entry>,
                            unscheduled: seq<Course>, placedFrom: seq<nat>, unplacedFrom: seq<nat>)
  {
    && |fate| == |courses|
    && |placedFrom| == |scheduled| && |unplacedFrom| == |unscheduled|
    && (forall k :: 0 <= k < |fate| ==> (fate[k].Pending? <==> k !in done))
    && (forall k :: 0 <= k < |fate| && !fate[k].Pending? ==> (fate[k].Dropped? <==> NonPositive(courses[k])))
    && (forall k :: 0 <= k < |fate| && !fate[k].Pending? && courses[k].sks.None? ==> fate[k].Unplaced?)
    && (forall k :: 0 <= k < |fate| && fate[k].Placed? ==>
          fate[k].at < |scheduled| && placedFrom[fate[k].at] == k && MadeFrom(scheduled[fate[k].at], courses[k]))
    && (forall k :: 0 <= k < |fate| && fate[k].Unplaced? ==>
          fate[k].at < |unscheduled| && unplacedFrom[fate[k].at] == k && unscheduled[fate[k].at] == courses[k])
    && (forall i :: 0 <= i < |placedFrom| ==> placedFrom[i] < |fate| && fate[placedFrom[i]] == Placed(i))
    && (forall i :: 0 <= i < |unplacedFrom| ==> unplacedFrom[i] < |fate| && fate[unplacedFrom[i]] == Unplaced(i))
  }

  /** Before any row is processed, nothing is placed or unplaced. */
  lemma AccountedAtStart(courses: seq<Course>)
    ensures Accounted(courses, [], seq(|courses|, _ => Pending), [], [], [], [])
  {
  }

  /**
   * Settling one pending row keeps the accounts: a placed row's entry is
   * appended and earlier entries stay, an unplaced row's copy is appended,
   * a dropped row leaves both lists alone.
   */
  lemma AccountedStep(courses: seq<Course>, done: seq<nat>, fate: seq<Fate>,
                      scheduled: seq<Entry>, unscheduled: seq<Course>,
                      placedFrom: seq<nat>, unplacedFrom: seq<nat>, k0: nat, r: Fate,
                      scheduled': seq<Entry>, unscheduled': seq<Course>)
    returns (placedFrom': seq<nat>, unplacedFrom': seq<nat>)
    requires Accounted(courses, done, fate, scheduled, unscheduled, placedFrom, unplacedFrom)
    requires k0 < |fate| && k0 !in done && !r.Pending?
    requires r.Dropped? <==> NonPositive(courses[k0])
    requires courses[k0].sks.None? ==> r.Unplaced?
    requires r.Dropped? ==> scheduled' == scheduled && unscheduled' == unscheduled
    requires r.Placed? ==>
      && r.at == |scheduled| && |scheduled'| == r.at + 1
      && scheduled'[..r.at] == scheduled && MadeFrom(scheduled'[r.at], courses[k0])
      && unscheduled' == unscheduled
    requires r.Unplaced? ==>
      r.at == |unscheduled| && unscheduled' == unscheduled + [courses[k0]] && scheduled' == scheduled
    ensures Accounted(courses, done + [k0], fate[k0 := r], scheduled', unscheduled', placedFrom', unplacedFrom')
  {
    placedFrom' := if r.Placed? then placedFrom + [k0] else placedFrom;
    unplacedFrom' := if r.Unplaced? then unplacedFrom + [k0] else unplacedFrom;
    var fate' := fate[k0 := r];
    forall k | 0 <= k < |fate'| && fate'[k].Placed?
      ensures fate'[k].at < |scheduled'| && placedFrom'[fate'[k].at] == k
           && MadeFrom(scheduled'[fate'[k].at], courses[k])
    {
      if k != k0 && r.Placed? {
        assert scheduled'[fate[k].at] == scheduled[fate[k].at];
      }
    }
  }

  /**
   * When the processed rows are a permutation of all rows, the outcomes
   * partition the input: no row is pending, no two rows share an entry or
   * an unscheduled copy, and every entry and copy comes from some row.
   */
  lemma AccountedPartition(courses: seq<Course>, done: seq<nat>, fate: seq<Fate>,
                           scheduled: seq<Entry>, unscheduled: seq<Course>,
                           placedFrom: seq<nat>, unplacedFrom: seq<nat>)
    requires Accounted(courses, done, fate, scheduled, unscheduled, placedFrom, unplacedFrom)
    requires IsPermutation(done, |courses|)
    ensures forall k :: 0 <= k < |fate| ==> !fate[k].Pending?
    ensures forall k1, k2 :: 0 <= k1 < k2 < |fate| && !fate[k1].Dropped? ==> fate[k1] != fate[k2]
    ensures forall i :: 0 <= i < |scheduled| ==> Placed(i) in fate
    ensures forall i :: 0 <= i < |unscheduled| ==> Unplaced(i) in fate
  {
    forall k | 0 <= k < |fate| ensures !fate[k].Pending? {
      PermutationCovers(done, |courses|, k);
    }
    forall i | 0 <= i < |scheduled| ensures Placed(i) in fate {
      assert fate[placedFrom[i]] == Placed(i);
    }
    forall i | 0 <= i < |unscheduled| ensures Unplaced(i) in fate {
      assert fate[unplacedFrom[i]] == Unplaced(i);
    }
  }
}
