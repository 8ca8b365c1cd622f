/**
 The retry discipline: exponential backoff with a ceiling, a failure budget over a window, and
 parking. Times and durations are whole ticks of the clock.
 */
module Retry {
  import opened Options
  import opened Arithmetic

  datatype Policy = Policy(maxFailures: nat, window: int, initial: nat, ceiling: nat, maxFailing: int)

  /** The state of one work item; 0 is the clock's epoch, which stands for unset. */
  datatype Item = Item(
    recent: seq<int>,
    backoff: nat,
    due: int,
    firstFailure: int,
    lastFailure: int,
    failingSince: int,
    consecutive: nat,
    total: nat)

  const NEW_ITEM := Item([], 0, 0, 0, 0, 0, 0, 0)

  /** Without the failures at the front that have left the window. */
  function Trimmed(recent: seq<int>, now: int, window: int): seq<int>
  {
    if recent != [] && now - recent[0] > window then Trimmed(recent[1..], now, window) else recent
  }

  function Noted(p: Policy, r: Item, now: int): Item
  {
    Item(Trimmed(r.recent + [now], now, p.window), r.backoff, r.due,
         if r.firstFailure == 0 then now else r.firstFailure, now,
         if r.consecutive == 0 then now else r.failingSince, r.consecutive + 1, r.total + 1)
  }

  /** The budget is exhausted. */
  predicate Parks(p: Policy, r: Item, now: int)
  {
    var noted := Noted(p, r, now);
    |noted.recent| > p.maxFailures || (p.maxFailing > 0 && now - noted.failingSince > p.maxFailing)
  }

  function NextBackoff(p: Policy, backoff: nat): nat
  {
    if backoff == 0 then p.initial else if p.ceiling <= backoff * 2 then p.ceiling else backoff * 2
  }

  function AfterFailure(p: Policy, r: Item, now: int): Item
  {
    var noted := Noted(p, r, now);
    if Parks(p, r, now) then noted
    else noted.(backoff := NextBackoff(p, r.backoff), due := now + NextBackoff(p, r.backoff))
  }

  function AfterSuccess(r: Item): Item { r.(consecutive := 0, failingSince := 0, backoff := 0, due := 0) }

  predicate Due(r: Item, now: int) { now >= r.due }

  class RetryState {
    var recent: seq<int>
    var backoff: nat
    var due: int
    var firstFailure: int
    var lastFailure: int
    var failingSince: int
    var consecutive: nat
    var total: nat

    function State(): Item
      reads this
    {
      Item(recent, backoff, due, firstFailure, lastFailure, failingSince, consecutive, total)
    }

    constructor ()
      ensures State() == NEW_ITEM
    {
      recent, backoff, due, firstFailure, lastFailure, failingSince, consecutive, total := [], 0, 0, 0, 0, 0, 0, 0;
    }

    method Trim(now: int, window: int)
      modifies this`recent
      ensures recent == Trimmed(old(recent), now, window)
    {
      while recent != [] && now - recent[0] > window
        invariant Trimmed(recent, now, window) == Trimmed(old(recent), now, window)
        decreases |recent|
      {
        recent := recent[1..];
      }
    }

    method Note(p: Policy, now: int)
      modifies this
      ensures State() == Noted(p, old(State()), now)
    {
      if consecutive == 0 {
        failingSince := now;
      }
      consecutive := consecutive + 1;
      total := total + 1;
      if firstFailure == 0 {
        firstFailure := now;
      }
      lastFailure := now;
      recent := recent + [now];
      Trim(now, p.window);
    }

    /** The delay before the next attempt, or none when the item must be parked. */
    method Failed(p: Policy, now: int) returns (delay: Option<nat>)
      modifies this
      ensures State() == AfterFailure(p, old(State()), now)
      ensures delay == if Parks(p, old(State()), now) then None else Some(backoff)
    {
      hide Trimmed;
      Note(p, now);
      if |recent| > p.maxFailures {
        return None;
      }
      if p.maxFailing > 0 && now - failingSince > p.maxFailing {
        return None;
      }
      if backoff == 0 {
        backoff := p.initial;
      } else {
        backoff := if p.ceiling <= backoff * 2 then p.ceiling else backoff * 2;
      }
      due := now + backoff;
      return Some(backoff);
    }

    method Succeeded()
      modifies this
      ensures State() == AfterSuccess(old(State()))
    {
      consecutive := 0;
      failingSince := 0;
      backoff := 0;
      due := 0;
    }

    method Reset()
      modifies this
      ensures State() == NEW_ITEM
    {
      recent, backoff, due, firstFailure, lastFailure, failingSince, consecutive, total := [], 0, 0, 0, 0, 0, 0, 0;
    }
  }

  // Runs

  datatype Event = Fail(now: int) | Succeed | Clear

  function Apply(p: Policy, r: Item, e: Event): Item
  {
    match e
    case Fail(now) => AfterFailure(p, r, now)
    case Succeed => AfterSuccess(r)
    case Clear => NEW_ITEM
  }

  function Run(p: Policy, events: seq<Event>): Item
  {
    if events == [] then NEW_ITEM else Apply(p, Run(p, events[..|events| - 1]), events[|events| - 1])
  }

  /** The failures since the item was last reset, successes or not. */
  function Failures(events: seq<Event>): seq<int>
  {
    if events == [] then []
    else
      match events[|events| - 1]
      case Fail(now) => Failures(events[..|events| - 1]) + [now]
      case Succeed => Failures(events[..|events| - 1])
      case Clear => []
  }

  /** Those within the window at a time. */
  function Within(times: seq<int>, now: int, window: int): seq<int>
  {
    if times == [] then []
    else
      var n := |times| - 1;
      if now - times[n] <= window then Within(times[..n], now, window) + [times[n]] else Within(times[..n], now, window)
  }

  predicate NonDecreasing(times: seq<int>) { forall i, j | 0 <= i < j < |times| :: times[i] <= times[j] }

  lemma {:induction false} TrimmedIsWithin(times: seq<int>, now: int, window: int)
    requires NonDecreasing(times)
    ensures Trimmed(times, now, window) == Within(times, now, window)
  {
    if times != [] {
      if now - times[0] > window {
        WithinDropsFirst(times, now, window);
        TrimmedIsWithin(times[1..], now, window);
      } else {
        WithinAll(times, now, window);
      }
    }
  }

  lemma {:induction false} WithinDropsFirst(times: seq<int>, now: int, window: int)
    requires times != [] && now - times[0] > window
    ensures Within(times, now, window) == Within(times[1..], now, window)
  {
    var n := |times| - 1;
    if n > 0 {
      WithinDropsFirst(times[..n], now, window);
      assert times[..n][1..] == times[1..][..n - 1];
    }
  }

  lemma {:induction false} WithinAll(times: seq<int>, now: int, window: int)
    requires forall i | 0 <= i < |times| :: now - times[i] <= window
    ensures Within(times, now, window) == times
  {
    if times != [] {
      WithinAll(times[..|times| - 1], now, window);
    }
  }

  /** What has left the window by one time has left it by a later one. */
  lemma {:induction false} WithinTwice(times: seq<int>, then_: int, now: int, window: int)
    requires then_ <= now
    ensures Within(Within(times, then_, window), now, window) == Within(times, now, window)
  {
    if times != [] {
      var n := |times| - 1;
      WithinTwice(times[..n], then_, now, window);
      if then_ - times[n] <= window {
        var kept := Within(times[..n], then_, window);
        assert (kept + [times[n]])[..|kept|] == kept;
      }
    }
  }

  lemma {:induction false} WithinNonDecreasing(times: seq<int>, now: int, window: int)
    requires NonDecreasing(times)
    ensures NonDecreasing(Within(times, now, window))
    ensures forall t | t in Within(times, now, window) :: t in times
  {
    if times != [] {
      var n := |times| - 1;
      WithinNonDecreasing(times[..n], now, window);
      var kept := Within(times[..n], now, window);
      forall i | 0 <= i < |kept|
        ensures kept[i] <= times[n]
      {
        assert kept[i] in kept && kept[i] in times[..n];
      }
      assert forall i, j | 0 <= i < j < |kept| :: kept[i] <= kept[j];
      assert NonDecreasing(kept + [times[n]]);
    }
  }

  lemma WithinOneMore(times: seq<int>, now: int, window: int)
    ensures Within(times + [now], now, window) ==
            if 0 <= window then Within(times, now, window) + [now] else Within(times, now, window)
  {
    assert (times + [now])[..|times|] == times;
  }

  /** The window holds exactly the failures within it at the last one, through any successes. */
  lemma {:induction false} WindowExact(p: Policy, events: seq<Event>)
    requires NonDecreasing(Failures(events))
    ensures var times := Failures(events);
            Run(p, events).recent == if times == [] then [] else Within(times, times[|times| - 1], p.window)
  {
    if events != [] {
      var before, e := events[..|events| - 1], events[|events| - 1];
      if e.Succeed? {
        WindowExact(p, before);
      } else if e.Fail? {
        var times := Failures(before);
        assert Failures(events) == times + [e.now];
        assert NonDecreasing(times) by {
          assert forall i | 0 <= i < |times| :: times[i] == Failures(events)[i];
        }
        WindowExact(p, before);
        var kept := Run(p, before).recent;
        if times == [] {
          TrimmedIsWithin(kept + [e.now], e.now, p.window);
        } else {
          WindowStep(p, times, kept, e.now);
        }
      }
    }
  }

  lemma WindowStep(p: Policy, times: seq<int>, kept: seq<int>, now: int)
    requires times != [] && NonDecreasing(times + [now]) && kept == Within(times, times[|times| - 1], p.window)
    ensures Trimmed(kept + [now], now, p.window) == Within(times + [now], now, p.window)
  {
    var all := times + [now];
    assert forall i | 0 <= i < |times| :: times[i] == all[i];
    assert all[|times|] == now;
    WithinNonDecreasing(times, times[|times| - 1], p.window);
    assert NonDecreasing(kept + [now]) by {
      forall i | 0 <= i < |kept|
        ensures kept[i] <= now
      {
        assert kept[i] in times;
      }
    }
    TrimmedIsWithin(kept + [now], now, p.window);
    WithinTwice(times, times[|times| - 1], now, p.window);
    WithinOneMore(kept, now, p.window);
    WithinOneMore(times, now, p.window);
  }

  /** The failures since the last success or reset. */
  function Streak(events: seq<Event>): seq<int>
  {
    if events == [] || !events[|events| - 1].Fail? then [] else Streak(events[..|events| - 1]) + [events[|events| - 1].now]
  }

  /** The counts are those of the failures since the last reset and in the current streak, which is timed from its first. */
  lemma {:induction false} CountsExact(p: Policy, events: seq<Event>)
    ensures var r, all, streak := Run(p, events), Failures(events), Streak(events);
            && r.total == |all| && r.consecutive == |streak|
            && (all != [] ==> r.lastFailure == all[|all| - 1])
            && (streak != [] ==> r.failingSince == streak[0])
  {
    hide Trimmed;
    if events != [] {
      CountsExact(p, events[..|events| - 1]);
    }
  }

  /**
   A failure exhausts the budget exactly when too many, itself included, are within the window, or the
   current streak has gone on for too long.
   */
  lemma ParksExactly(p: Policy, events: seq<Event>, now: int)
    requires NonDecreasing(Failures(events) + [now])
    ensures var all, streak := Failures(events) + [now], Streak(events) + [now];
            Parks(p, Run(p, events), now) <==>
            |Within(all, now, p.window)| > p.maxFailures || (p.maxFailing > 0 && now - streak[0] > p.maxFailing)
  {
    var more := events + [Fail(now)];
    assert more[..|events|] == events && Failures(more) == Failures(events) + [now];
    WindowExact(p, more);
    CountsExact(p, events);
    hide Trimmed, Within;
  }

  // Delays

  /** Unparked failures since the last success or reset. */
  function Unparked(p: Policy, events: seq<Event>): nat
  {
    if events == [] then 0
    else
      var before, e := events[..|events| - 1], events[|events| - 1];
      if !e.Fail? then 0
      else if Parks(p, Run(p, before), e.now) then Unparked(p, before)
      else Unparked(p, before) + 1
  }

  /** The delay after the k-th of them; with no ceiling at all every other one is none. */
  function Delay(p: Policy, k: nat): nat
  {
    if k == 0 then 0
    else if p.ceiling == 0 then if k % 2 == 1 then p.initial else 0
    else if k == 1 then p.initial
    else if p.ceiling <= p.initial * Pow2(k - 1) then p.ceiling
    else p.initial * Pow2(k - 1)
  }

  lemma DelayStep(p: Policy, k: nat)
    ensures NextBackoff(p, Delay(p, k)) == Delay(p, k + 1)
  {
    if p.ceiling == 0 {
    } else if k == 1 {
      assert Pow2(1) == 2;
    } else if k > 1 {
      assert Pow2(k) == 2 * Pow2(k - 1);
      assert p.initial * Pow2(k) == 2 * (p.initial * Pow2(k - 1));
      if p.initial > 0 {
        Positive(p.initial, Pow2(k - 1));
      }
    }
  }

  lemma Positive(a: nat, b: nat)
    requires a > 0 && b > 0
    ensures a * b > 0
  {
  }

  /** The first delay is the initial one, the k-th twice the one before up to the ceiling. */
  lemma {:induction false} BackoffExact(p: Policy, events: seq<Event>)
    ensures Run(p, events).backoff == Delay(p, Unparked(p, events))
  {
    if events != [] {
      BackoffExact(p, events[..|events| - 1]);
      DelayStep(p, Unparked(p, events[..|events| - 1]));
    }
  }

  /** So with 0 < initial <= ceiling the k-th delay is min(ceiling, initial * 2^(k-1)) from the first on. */
  lemma DelayClosedForm(p: Policy, k: nat)
    requires 0 < p.initial <= p.ceiling && k >= 1
    ensures Delay(p, k) == if p.ceiling <= p.initial * Pow2(k - 1) then p.ceiling else p.initial * Pow2(k - 1)
    ensures p.initial <= Delay(p, k) <= p.ceiling
  {
    Scale(1, Pow2(k - 1), p.initial);
  }

  /** After a failure that does not park it an item is due from its delay on, and after a success from the epoch on. */
  lemma DueExactly(p: Policy, events: seq<Event>, failed: int, now: int)
    requires !Parks(p, Run(p, events), failed)
    ensures Due(Run(p, events + [Fail(failed)]), now) <==> now >= failed + Delay(p, Unparked(p, events) + 1)
    ensures Due(Run(p, events + [Succeed]), now) <==> now >= 0
  {
    assert (events + [Fail(failed)])[..|events|] == events && (events + [Succeed])[..|events|] == events;
    BackoffExact(p, events);
    DelayStep(p, Unparked(p, events));
    hide Parks, Delay, Unparked, Noted;
  }

  // Parking

  /** Failures in a row at these times, each tried only when due, up to the first that parks. */
  predicate TriedWhenDue(p: Policy, r: Item, times: seq<int>)
    decreases |times|
  {
    times != [] ==>
      && Due(r, times[0])
      && (!Parks(p, r, times[0]) ==> TriedWhenDue(p, AfterFailure(p, r, times[0]), times[1..]))
  }

  /** One of the failures parks the item. */
  predicate Parked(p: Policy, r: Item, times: seq<int>)
    decreases |times|
  {
    times != [] && (Parks(p, r, times[0]) || Parked(p, AfterFailure(p, r, times[0]), times[1..]))
  }

  /** After n unparked failures in a row the item has been failing for at least n - 1 initial delays. */
  lemma {:induction false} ParkedFrom(p: Policy, r: Item, times: seq<int>, n: nat)
    requires 0 < p.initial <= p.ceiling && p.maxFailing > 0 && n >= 1
    requires r.consecutive == n && r.backoff >= p.initial && r.due >= r.failingSince + n * p.initial
    requires TriedWhenDue(p, r, times) && (n + |times| - 1) * p.initial > p.maxFailing && |times| >= 1
    ensures Parked(p, r, times)
    decreases |times|
  {
    if !Parks(p, r, times[0]) {
      var after := AfterFailure(p, r, times[0]);
      assert times[0] - r.failingSince <= p.maxFailing;
      assert times[0] >= r.failingSince + n * p.initial;
      if |times| > 1 {
        assert (n + 1) * p.initial == n * p.initial + p.initial;
        assert n + 1 + |times[1..]| - 1 == n + |times| - 1;
        ParkedFrom(p, after, times[1..], n + 1);
      }
    }
  }

  /** An item retried only when due and failing every time is parked within maxFailing / initial + 2 failures. */
  lemma ParkedWithin(p: Policy, r: Item, times: seq<int>)
    requires 0 < p.initial <= p.ceiling && p.maxFailing > 0
    requires r.consecutive == 0 && r.backoff == 0
    requires TriedWhenDue(p, r, times) && |times| == p.maxFailing / p.initial + 2
    ensures Parked(p, r, times)
  {
    if !Parks(p, r, times[0]) {
      var after := AfterFailure(p, r, times[0]);
      assert after.failingSince == times[0] && after.due == times[0] + p.initial;
      PastLimit(p.maxFailing, p.initial);
      hide Noted;
      ParkedFrom(p, after, times[1..], 1);
    }
  }

  lemma PastLimit(limit: nat, step: nat)
    requires step > 0
    ensures (limit / step + 1) * step > limit
  {
    var q := limit / step;
    assert limit == q * step + limit % step && (q + 1) * step == q * step + step;
  }

  // Restarts of a supervised thread

  const RESTART_INITIAL: nat := 1000
  const RESTART_CEILING: nat := 60000

  /** After n failures in a row: doubled for each after the first, up to the ceiling. */
  method SupervisedRestartDelay(consecutive: nat) returns (delay: nat)
    ensures consecutive >= 1 ==>
              var grown := 1000 * Pow2(consecutive - 1);
              delay == if grown <= 60000 then grown else 60000
    ensures consecutive == 0 ==> delay == 1000
  {
    delay := RESTART_INITIAL;
    var i := 1;
    while i < consecutive && delay < RESTART_CEILING
      invariant 1 <= i && (i <= consecutive || i == 1)
      invariant delay == RESTART_INITIAL * Pow2(i - 1)
      decreases consecutive - i
    {
      delay := delay * 2;
      i := i + 1;
    }
    if i < consecutive {
      Pow2Monotone(i - 1, consecutive - 1);
    }
    delay := if delay <= RESTART_CEILING then delay else RESTART_CEILING;
  }
}
