/**
 * The constraint resolver: from a lecturer identity to the days the search
 * tries, the time windows it must respect and the daily SKS cap.
 */
module Constraints {
  import opened Wrappers
  import opened Config
  import opened Model

  /** The lecturer's rule, or the empty rule when none was recorded. */
  function RuleFor(rules: map<string, Rule>, id: string): (r: Rule)
    ensures id in rules ==> r == rules[id]
    ensures id !in rules ==> r.days.None? && r.timeRanges.None? && r.maxSksDaily.None?
  {
    if id in rules then rules[id] else NO_RULE
  }

  /** The listed days kept in their listed order, dropping those not processed. */
  function FilterDays(listed: seq<string>): (days: seq<string>)
    ensures forall d :: d in days <==> d in listed && d in DAYS
    ensures |days| <= |listed|
  {
    if listed == [] then []
    else if listed[0] in DAYS then [listed[0]] + FilterDays(listed[1..])
    else FilterDays(listed[1..])
  }

  /**
   * The days tried for a lecturer, in the order they are tried: the rule's
   * listed days that are processing days, in their listed order, else all
   * processing days in the global order.
   */
  function CandidateDays(rule: Rule): (days: seq<string>)
    ensures forall d :: d in days <==> d in DAYS && (rule.days.None? || d in rule.days.value)
    ensures rule.days.None? ==> days == DAYS
    ensures rule.days.Some? ==> days == FilterDays(rule.days.value)
  {
    FilterKeepsListedOrder(DAYS);
    FilterDays(rule.days.GetOr(DAYS))
  }

  /** The daily SKS cap of a rule, 99 when the rule sets none. */
  function Cap(rule: Rule): (cap: int)
    ensures rule.maxSksDaily.Some? ==> cap == rule.maxSksDaily.value
    ensures rule.maxSksDaily.None? ==> cap == 99
  {
    rule.maxSksDaily.GetOr(DEFAULT_MAX_SKS_DAILY)
  }

  /**
   * A start and end are within the lecturer's time windows: always when the
   * rule has no windows, otherwise when some window contains both, with
   * inclusive bounds at both ends.
   */
  predicate InWindow(rule: Rule, start: int, end: int)
  {
    match rule.timeRanges
    case None => true
    case Some(ranges) =>
      exists i :: 0 <= i < |ranges| && ranges[i].from <= start && end <= ranges[i].to
  }

  /** Candidate days keep the rule's listed order, not the global processing order. */
  lemma {:induction false} FilterKeepsListedOrder(listed: seq<string>)
    requires forall i :: 0 <= i < |listed| ==> listed[i] in DAYS
    ensures FilterDays(listed) == listed
  {
    if listed != [] {
      FilterKeepsListedOrder(listed[1..]);
    }
  }

  /** The i-th candidate day comes from a position of the listed days no earlier than i. */
  lemma {:induction false} FilterIsSubsequence(listed: seq<string>, i: nat)
    requires i < |FilterDays(listed)|
    ensures exists j :: i <= j < |listed| && listed[j] == FilterDays(listed)[i]
  {
    if listed[0] in DAYS {
      if i > 0 {
        FilterIsSubsequence(listed[1..], i - 1);
        var j :| i - 1 <= j < |listed[1..]| && listed[1..][j] == FilterDays(listed[1..])[i - 1];
        assert listed[j + 1] == FilterDays(listed)[i];
      } else {
        assert listed[0] == FilterDays(listed)[0];
      }
    } else {
      FilterIsSubsequence(listed[1..], i);
      var j :| i <= j < |listed[1..]| && listed[1..][j] == FilterDays(listed[1..])[i];
      assert listed[j + 1] == FilterDays(listed)[i];
    }
  }

  /**
   * Filtering works piece by piece: the kept days of a concatenation are the
   * kept days of the first part followed by those of the second, so the
   * listed order survives whatever names are mixed in.
   */
  lemma {:induction false} FilterDaysAppend(a: seq<string>, b: seq<string>)
    ensures FilterDays(a + b) == FilterDays(a) + FilterDays(b)
  {
    if a != [] {
      assert (a + b)[0] == a[0];
      assert (a + b)[1..] == a[1..] + b;
      FilterDaysAppend(a[1..], b);
    } else {
      assert a + b == b;
    }
  }

  /**
   * A days rule naming only processing days is tried exactly in its listed
   * order, even where that order differs from the global one.
   */
  lemma ListedDaysKeepTheirOrder(rule: Rule)
    requires rule.days.Some?
    requires forall i :: 0 <= i < |rule.days.value| ==> rule.days.value[i] in DAYS
    ensures CandidateDays(rule) == rule.days.value
  {
    FilterKeepsListedOrder(rule.days.value);
  }

  /**
   * The window test of one candidate: walks the windows in order and stops
   * at the first that contains [start, end].
   */
  method WithinTimeRanges(rule: Rule, start: int, end: int) returns (ok: bool)
    ensures ok <==> InWindow(rule, start, end)
  {
    ok := true;
    if rule.timeRanges.Some? {
      var ranges := rule.timeRanges.value;
      var inAny := false;
      var i := 0;
      while i < |ranges|
        invariant 0 <= i <= |ranges|
        invariant !inAny
        invariant forall m :: 0 <= m < i ==> !(ranges[m].from <= start && end <= ranges[m].to)
      {
        if ranges[i].from <= start && end <= ranges[i].to {
          inAny := true;
          break;
        }
        i := i + 1;
      }
      if !inAny {
        ok := false;
      }
    }
  }
}
