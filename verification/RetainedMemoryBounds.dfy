/**
 How much may be restored. The byte laws hold over all runs that restore at most `budget` bytes
 exactly when capacity and budget together stay below 2^64; at that point a restore can bring the
 count of used bytes round to zero.
 */
module RetainedMemoryBounds {
  import opened RetainedMemory
  import opened RetainedMemoryTotals
  import opened RetainedMemoryRuns
  import opened RetainedMemoryLaws
  import opened Words

  /** The run restores no more than the budget. */
  predicate Within(limits: Limits, events: seq<Event>, budget: nat) { Run(limits, events).restoredTotal <= budget }

  lemma WithinNoWrap(limits: Limits, events: seq<Event>, budget: nat)
    requires Within(limits, events, budget) && limits.capacity + budget < U64
    ensures NoWrap(Run(limits, events))
  {
    RunKeepsBooks(limits, events);
  }

  // The state the failing runs share

  function Lease(c: WorkClass, bytes: nat): Allocation { Allocation(c, Cache, bytes, false, false) }

  /** The capacity is used up: non-control work has all it may have and control its reserve. */
  ghost predicate Filled(limits: Limits, s: System)
  {
    && s.ledger.limits == limits && s.ledger.used == limits.capacity && !s.ledger.stopping && s.ledger.nextId == 3
    && s.ledger.allocations == map[1 := Lease(Viewer, limits.capacity - limits.control), 2 := Lease(Control, limits.control)]
    && s.ledger.waiters == multiset{} && s.threads == map[] && s.restored == {} && s.restoredTotal == 0
  }

  lemma FillsUp(limits: Limits) returns (events: seq<Event>)
    ensures Filled(limits, Run(limits, events))
  {
    hide Run, Apply, Filled;
    var first := TryAcquire(Viewer, Cache, limits.capacity - limits.control, false, false);
    var second := TryAcquire(Control, Cache, limits.control, false, false);
    RunStarts(limits);
    RunExtend(limits, [], first);
    RunExtend(limits, [] + [first], second);
    FillsHalf(limits);
    FillsRest(limits, Apply(Start(limits), first));
    events := [] + [first] + [second];
  }

  ghost predicate HalfFilled(limits: Limits, s: System)
  {
    var used := limits.capacity - limits.control;
    && s.ledger.limits == limits && s.ledger.used == used && !s.ledger.stopping && s.ledger.nextId == 2
    && s.ledger.allocations == map[1 := Lease(Viewer, used)]
    && s.ledger.waiters == multiset{} && s.threads == map[] && s.restored == {} && s.restoredTotal == 0
  }

  lemma FillsHalf(limits: Limits)
    ensures HalfFilled(limits, Apply(Start(limits), TryAcquire(Viewer, Cache, limits.capacity - limits.control, false, false)))
  {
  }

  lemma FillsRest(limits: Limits, s: System)
    requires HalfFilled(limits, s)
    ensures Filled(limits, Apply(s, TryAcquire(Control, Cache, limits.control, false, false)))
  {
  }

  lemma RunStarts(limits: Limits)
    ensures Run(limits, []) == Start(limits)
  {
  }

  const SHORT: Event := TryAcquire(Viewer, Cache, 1, false, false)

  function Filler(limits: Limits): Event { Restore(Viewer, Cache, U64 - limits.capacity) }

  /** The restore that brings the count of used bytes to zero. */
  lemma RestoreWraps(limits: Limits, s: System)
    requires s.ledger.limits == limits && s.ledger.used == limits.capacity
    ensures var after := Apply(s, Filler(limits));
            && after.ledger.used == 0 && after.restoredTotal == s.restoredTotal + (U64 - limits.capacity)
            && after.ledger.allocations == s.ledger.allocations[s.ledger.nextId := Lease(Viewer, U64 - limits.capacity)]
            && after.ledger.nextId == s.ledger.nextId + 1 && after.restored == s.restored + {s.ledger.nextId}
            && after.threads == s.threads && after.ledger.waiters == s.ledger.waiters
            && after.ledger.limits == limits && after.ledger.stopping == s.ledger.stopping
  {
  }

  /** After it, one byte more than non-control work may have is granted. */
  ghost predicate Overgranted(limits: Limits, s: System)
  {
    && s.ledger.limits == limits && s.ledger.used == 1 && s.ledger.nextId == 5 && s.restored == {3}
    && s.restoredTotal == U64 - limits.capacity && !s.ledger.stopping
    && s.ledger.allocations ==
       map[1 := Lease(Viewer, limits.capacity - limits.control), 2 := Lease(Control, limits.control),
           3 := Lease(Viewer, U64 - limits.capacity), 4 := Lease(Viewer, 1)]
  }

  lemma Overgrants(limits: Limits) returns (events: seq<Event>)
    ensures Overgranted(limits, Run(limits, events))
  {
    hide Run, Apply;
    events := FillsUp(limits);
    var s := Run(limits, events);
    RestoreWraps(limits, s);
    RunExtend(limits, events, Filler(limits));
    RunExtend(limits, events + [Filler(limits)], SHORT);
    ShortGranted(Apply(s, Filler(limits)));
    events := events + [Filler(limits)] + [SHORT];
  }

  lemma ShortGranted(s: System)
    requires s.ledger.used == 0 && !s.ledger.stopping
    ensures var after := Apply(s, SHORT);
            && after.ledger.used == 1 && after.ledger.allocations == s.ledger.allocations[s.ledger.nextId := Lease(Viewer, 1)]
            && after.ledger.nextId == s.ledger.nextId + 1 && after.ledger.limits == s.ledger.limits
            && after.restored == s.restored && after.restoredTotal == s.restoredTotal && !after.ledger.stopping
  {
  }

  /** What giving a lease back does to what is tracked here. */
  lemma GivesBack(s: System, id: nat)
    requires id in s.ledger.allocations
    ensures var after, l := Apply(s, Release(id)), s.ledger;
            && after.ledger.allocations == l.allocations - {id} && after.ledger.used == Sub64(l.used, l.allocations[id].bytes)
            && after.ledger.nextId == l.nextId && after.ledger.limits == l.limits && after.ledger.waiters == l.waiters
            && after.ledger.stopping == l.stopping && after.restored == s.restored && after.restoredTotal == s.restoredTotal
  {
  }

  // Law 1

  ghost predicate HeadroomHolds(limits: Limits, budget: nat)
  {
    forall events :: Within(limits, events, budget) ==>
      GrantedBytes(Run(limits, events), NonControl) <= limits.capacity - limits.control
  }

  lemma OvergrantedBytes(limits: Limits, s: System)
    requires Overgranted(limits, s)
    ensures GrantedBytes(s, NonControl) > limits.capacity - limits.control
  {
    var m := map[1 := Lease(Viewer, limits.capacity - limits.control), 2 := Lease(Control, limits.control), 4 := Lease(Viewer, 1)];
    assert GrantedLive(s) == m;
    assert Total(m, 2, NonControl) >= limits.capacity - limits.control;
    assert Total(m, 4, NonControl) >= Total(m, 3, NonControl) >= Total(m, 2, NonControl);
    assert Total(m, 5, NonControl) == Total(m, 4, NonControl) + 1;
  }

  /** Grants to non-control classes stay inside capacity less the control reserve exactly for such budgets. */
  lemma HeadroomExactly(limits: Limits, budget: nat)
    ensures HeadroomHolds(limits, budget) <==> limits.capacity + budget < U64
  {
    hide Run, GrantedBytes;
    if limits.capacity + budget < U64 {
      forall events | Within(limits, events, budget)
        ensures GrantedBytes(Run(limits, events), NonControl) <= limits.capacity - limits.control
      {
        WithinNoWrap(limits, events, budget);
        ControlHeadroom(limits, events);
      }
    } else {
      var events := Overgrants(limits);
      OvergrantedBytes(limits, Run(limits, events));
      assert Within(limits, events, budget);
    }
  }

  // Accounting

  ghost predicate CountersHold(limits: Limits, budget: nat)
  {
    forall events :: Within(limits, events, budget) ==> Accounted(Run(limits, events).ledger)
  }

  lemma OvergrantedCount(limits: Limits, s: System)
    requires Overgranted(limits, s)
    ensures !Accounted(s.ledger)
  {
    var m := s.ledger.allocations;
    assert Total(m, 2, All) >= limits.capacity - limits.control >= 1;
    assert Total(m, 4, All) >= Total(m, 3, All) >= Total(m, 2, All);
    assert Total(m, 5, All) == Total(m, 4, All) + 1;
  }

  /** Every counter is the sum it stands for exactly for such budgets. */
  lemma CountersExactly(limits: Limits, budget: nat)
    ensures CountersHold(limits, budget) <==> limits.capacity + budget < U64
  {
    hide Run, Accounted;
    if limits.capacity + budget < U64 {
      forall events | Within(limits, events, budget)
        ensures Accounted(Run(limits, events).ledger)
      {
        WithinNoWrap(limits, events, budget);
        CountersExact(limits, events, 0);
      }
    } else {
      var events := Overgrants(limits);
      OvergrantedCount(limits, Run(limits, events));
      assert Within(limits, events, budget);
    }
  }

  // Control is served

  ghost predicate ControlServed(limits: Limits, s: System)
  {
    s.ledger.allocations.Keys !! s.restored ==>
      forall owner, bytes: nat, reclaimable ::
        bytes + Total(s.ledger.allocations, s.ledger.nextId, ControlOnly) <= limits.control ==>
          Available(s.ledger, Request(Control, owner, bytes, reclaimable))
  }

  ghost predicate ControlServedHolds(limits: Limits, budget: nat)
  {
    forall events :: Within(limits, events, budget) ==> ControlServed(limits, Run(limits, events))
  }

  lemma ControlStarves(limits: Limits) returns (events: seq<Event>)
    ensures Run(limits, events).restoredTotal == U64 - limits.capacity && !ControlServed(limits, Run(limits, events))
  {
    hide Run, ControlServed;
    events := Overgrants(limits);
    var s := Run(limits, events);
    RunExtend(limits, events, Release(3));
    RunExtend(limits, events + [Release(3)], Release(2));
    Starved(limits, s);
    events := events + [Release(3)] + [Release(2)];
  }

  lemma Starved(limits: Limits, s: System)
    requires Overgranted(limits, s)
    ensures var after := Apply(Apply(s, Release(3)), Release(2));
            after.restoredTotal == s.restoredTotal && !ControlServed(limits, after)
  {
    hide Apply;
    GivesBack(s, 3);
    GivesBack(Apply(s, Release(3)), 2);
    var after := Apply(Apply(s, Release(3)), Release(2));
    var m := map[1 := Lease(Viewer, limits.capacity - limits.control), 4 := Lease(Viewer, 1)];
    assert after.ledger.allocations == m && after.ledger.nextId == 5 && after.restored == {3};
    assert after.ledger.used == limits.capacity - limits.control + 1;
    NoControl(m, 5);
    assert !Available(after.ledger, Request(Control, Cache, limits.control, false));
  }

  lemma {:induction false} NoControl(m: map<nat, Allocation>, n: nat)
    requires forall id | id in m :: !m[id].cls.Control?
    ensures Total(m, n, ControlOnly) == 0
  {
    if n > 0 {
      NoControl(m, n - 1);
    }
  }

  /** With nothing restored live, control inside its reserve is admitted at once exactly for such budgets. */
  lemma ControlServedExactly(limits: Limits, budget: nat)
    ensures ControlServedHolds(limits, budget) <==> limits.capacity + budget < U64
  {
    hide Run;
    if limits.capacity + budget < U64 {
      forall events | Within(limits, events, budget)
        ensures ControlServed(limits, Run(limits, events))
      {
        WithinNoWrap(limits, events, budget);
        ServedWithoutWrap(limits, events);
      }
    } else {
      var events := ControlStarves(limits);
      assert Within(limits, events, budget);
    }
  }

  lemma ServedWithoutWrap(limits: Limits, events: seq<Event>)
    requires NoWrap(Run(limits, events))
    ensures ControlServed(limits, Run(limits, events))
  {
    hide Run, Available;
    var s := Run(limits, events);
    if s.ledger.allocations.Keys !! s.restored {
      forall owner, bytes: nat, reclaimable | bytes + Total(s.ledger.allocations, s.ledger.nextId, ControlOnly) <= limits.control
        ensures Available(s.ledger, Request(Control, owner, bytes, reclaimable))
      {
        ControlAdmittedAtOnce(limits, events, owner, bytes, reclaimable);
      }
    }
  }

  // Wakeups

  /** Every admissible sleeper is held up by a lease that was granted to a waiter that gated it. */
  ghost predicate SleepersHeld(s: System)
  {
    forall t | t in s.threads && s.threads[t].Asleep? && Available(s.ledger, s.threads[t].request) ::
      exists id :: GatingLease(s, id, s.threads[t].since, s.threads[t].request.cls)
  }

  ghost predicate WakeupsHold(limits: Limits, budget: nat)
  {
    forall events :: Within(limits, events, budget) ==> SleepersHeld(Run(limits, events))
  }

  lemma ViewerLeftAsleep(limits: Limits) returns (events: seq<Event>)
    ensures Run(limits, events).restoredTotal == U64 - limits.capacity && !SleepersHeld(Run(limits, events))
  {
    hide Run, SleepersHeld;
    events := FillsUp(limits);
    var s, enter := Run(limits, events), Enter(0, Viewer, Cache, 1, false, false);
    RunExtend(limits, events, enter);
    RunExtend(limits, events + [enter], TakePass(0, false));
    RunExtend(limits, events + [enter] + [TakePass(0, false)], Filler(limits));
    FallsAsleep(limits, s);
    LeftAsleep(limits, Apply(Apply(s, enter), TakePass(0, false)));
    events := events + [enter] + [TakePass(0, false)] + [Filler(limits)];
  }

  ghost predicate ViewerAsleep(limits: Limits, s: System)
  {
    && s.ledger.limits == limits && s.ledger.used == limits.capacity && s.restoredTotal == 0
    && s.threads == map[0 := Asleep(Request(Viewer, Cache, 1, false), 3)]
  }

  lemma FallsAsleep(limits: Limits, s: System)
    requires Filled(limits, s)
    ensures ViewerAsleep(limits, Apply(Apply(s, Enter(0, Viewer, Cache, 1, false, false)), TakePass(0, false)))
  {
    var m := s.ledger.allocations;
    NothingReclaimable(m, 3, Viewer);
  }

  lemma {:induction false} NothingReclaimable(m: map<nat, Allocation>, n: nat, c: WorkClass)
    requires forall id | id in m :: !m[id].reclaimable
    ensures ShedIds(m, n, c) == []
  {
    if n > 0 {
      NothingReclaimable(m, n - 1, c);
    }
  }

  lemma LeftAsleep(limits: Limits, s: System)
    requires ViewerAsleep(limits, s)
    ensures var after := Apply(s, Filler(limits));
            after.restoredTotal == U64 - limits.capacity && !SleepersHeld(after)
  {
    RestoreWraps(limits, s);
    var after := Apply(s, Filler(limits));
    assert Available(after.ledger, after.threads[0].request);
    assert forall id :: !GatingLease(after, id, 3, Viewer);
  }

  /** No wakeup is lost for good exactly for such budgets. */
  lemma WakeupsExactly(limits: Limits, budget: nat)
    ensures WakeupsHold(limits, budget) <==> limits.capacity + budget < U64
  {
    hide Run;
    if limits.capacity + budget < U64 {
      forall events | Within(limits, events, budget)
        ensures SleepersHeld(Run(limits, events))
      {
        WithinNoWrap(limits, events, budget);
        HeldWithoutWrap(limits, events);
      }
    } else {
      var events := ViewerLeftAsleep(limits);
      assert Within(limits, events, budget);
    }
  }

  lemma HeldWithoutWrap(limits: Limits, events: seq<Event>)
    requires NoWrap(Run(limits, events))
    ensures SleepersHeld(Run(limits, events))
  {
    hide Run, Available, GatingLease;
    var s := Run(limits, events);
    forall t | t in s.threads && s.threads[t].Asleep? && Available(s.ledger, s.threads[t].request)
      ensures exists id :: GatingLease(s, id, s.threads[t].since, s.threads[t].request.cls)
    {
      NoLostWakeup(limits, events, t);
    }
  }
}
