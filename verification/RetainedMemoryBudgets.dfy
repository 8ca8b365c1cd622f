/**
 The same bound for the lower classes' durable budgets and for the viewer. Here the count of
 durable lower-class bytes has to come round as well, which takes as many RPC frames as control
 has reserved bytes, each let in as a control byte is given back.
 */
module RetainedMemoryBudgets {
  import opened RetainedMemory
  import opened RetainedMemoryTotals
  import opened RetainedMemoryRuns
  import opened RetainedMemoryLaws
  import opened RetainedMemoryBounds
  import opened Words

  function Frame(bytes: nat): Allocation { Allocation(Loader, RpcFrame, bytes, false, false) }

  const ASK_FRAME: Event := TryAcquire(Loader, RpcFrame, 1, false, false)

  const ASK_CONTROL: Event := TryAcquire(Control, Cache, 1, false, false)

  const ASK_LOADER: Event := TryAcquire(Loader, Cache, 1, false, false)

  predicate Calm(limits: Limits, s: System)
  {
    s.ledger.limits == limits && !s.ledger.stopping && s.ledger.waiters == multiset{}
  }

  /** The lower classes have their budget and an RPC frame the viewer's part; k control bytes are out. */
  ghost predicate Loaded(limits: Limits, s: System, k: nat)
  {
    && Calm(limits, s) && s.restored == {} && s.restoredTotal == 0
    && s.ledger.used == NonControlCapacity(limits) + k && s.ledger.lowerDurable == NonControlCapacity(limits)
    && s.ledger.nextId == 3 + k
    && 1 in s.ledger.allocations && s.ledger.allocations[1] == Lease(Loader, DurableLowerCapacity(limits))
    && 2 in s.ledger.allocations && s.ledger.allocations[2] == Frame(limits.viewer)
    && (forall id | 3 <= id < 3 + k :: id in s.ledger.allocations && s.ledger.allocations[id] == Lease(Control, 1))
    && (forall id | id in s.ledger.allocations :: 1 <= id < 3 + k)
  }

  lemma Loads(limits: Limits) returns (events: seq<Event>)
    ensures Loaded(limits, Run(limits, events), 0)
  {
    hide Run, Apply, Loaded;
    var first := TryAcquire(Loader, Cache, DurableLowerCapacity(limits), false, false);
    var second := TryAcquire(Loader, RpcFrame, limits.viewer, false, false);
    RunStarts(limits);
    RunExtend(limits, [], first);
    RunExtend(limits, [] + [first], second);
    LoadsFirst(limits);
    LoadsSecond(limits, Apply(Start(limits), first));
    events := [] + [first] + [second];
  }

  ghost predicate HalfLoaded(limits: Limits, s: System)
  {
    && Calm(limits, s) && s.restored == {} && s.restoredTotal == 0
    && s.ledger.used == s.ledger.lowerDurable == DurableLowerCapacity(limits) && s.ledger.nextId == 2
    && s.ledger.allocations == map[1 := Lease(Loader, DurableLowerCapacity(limits))]
  }

  lemma LoadsFirst(limits: Limits)
    ensures HalfLoaded(limits, Apply(Start(limits), TryAcquire(Loader, Cache, DurableLowerCapacity(limits), false, false)))
  {
  }

  lemma LoadsSecond(limits: Limits, s: System)
    requires HalfLoaded(limits, s)
    ensures Loaded(limits, Apply(s, TryAcquire(Loader, RpcFrame, limits.viewer, false, false)), 0)
  {
  }

  lemma {:induction false} TakesControl(limits: Limits, k: nat) returns (events: seq<Event>)
    requires k <= limits.control
    ensures Loaded(limits, Run(limits, events), k)
  {
    if k == 0 {
      events := Loads(limits);
    } else {
      hide Run, Apply, Loaded;
      events := TakesControl(limits, k - 1);
      RunExtend(limits, events, ASK_CONTROL);
      TakesOne(limits, Run(limits, events), k - 1);
      events := events + [ASK_CONTROL];
    }
  }

  lemma TakesOne(limits: Limits, s: System, k: nat)
    requires Loaded(limits, s, k) && k < limits.control
    ensures Loaded(limits, Apply(s, ASK_CONTROL), k + 1)
  {
  }

  /** After the restore: i of the control bytes have been given back and i frames let in for them. */
  ghost predicate Swapped(limits: Limits, s: System, i: nat)
  {
    var c := limits.control;
    && Calm(limits, s) && i <= c && s.restored == {3 + c} && s.restoredTotal == U64 - limits.capacity
    && s.ledger.used == 0 && s.ledger.lowerDurable == (if i == c then 0 else U64 - c + i)
    && s.ledger.nextId == 4 + c + i
    && SwappedLeases(limits, s.ledger.allocations, i)
  }

  ghost predicate SwappedLeases(limits: Limits, m: map<nat, Allocation>, i: nat)
  {
    var c := limits.control;
    && 1 in m && m[1] == Lease(Loader, DurableLowerCapacity(limits))
    && 2 in m && m[2] == Frame(limits.viewer)
    && 3 + c in m && m[3 + c] == Lease(Loader, U64 - limits.capacity)
    && (forall id | 3 + i <= id < 3 + c :: id in m && m[id] == Lease(Control, 1))
    && (forall id | 4 + c <= id < 4 + c + i :: id in m && m[id] == Frame(1))
    && (forall id | id in m :: id == 1 || id == 2 || 3 + i <= id < 4 + c + i)
  }

  lemma RestoreSwaps(limits: Limits, s: System)
    requires Loaded(limits, s, limits.control)
    ensures Swapped(limits, Apply(s, Restore(Loader, Cache, U64 - limits.capacity)), 0)
  {
  }

  lemma SwapsOne(limits: Limits, s: System, i: nat)
    requires Swapped(limits, s, i) && i < limits.control
    ensures Swapped(limits, Apply(Apply(s, ASK_FRAME), Release(3 + i)), i + 1)
  {
    hide SwappedLeases;
    var c, m := limits.control, s.ledger.allocations;
    var admitted := Apply(s, ASK_FRAME);
    assert admitted.ledger.used == 1 && admitted.ledger.allocations == m[4 + c + i := Frame(1)];
    LeasesSwap(limits, m, i);
  }

  lemma LeasesSwap(limits: Limits, m: map<nat, Allocation>, i: nat)
    requires SwappedLeases(limits, m, i) && i < limits.control
    ensures var c := limits.control;
            && 3 + i in m && m[3 + i] == Lease(Control, 1) && 4 + c + i !in m
            && SwappedLeases(limits, m[4 + c + i := Frame(1)] - {3 + i}, i + 1)
  {
  }

  lemma {:induction false} Swaps(limits: Limits, i: nat) returns (events: seq<Event>)
    requires i <= limits.control
    ensures Swapped(limits, Run(limits, events), i)
  {
    hide Run, Apply, Loaded, Swapped;
    if i == 0 {
      events := TakesControl(limits, limits.control);
      var restore := Restore(Loader, Cache, U64 - limits.capacity);
      RunExtend(limits, events, restore);
      RestoreSwaps(limits, Run(limits, events));
      events := events + [restore];
    } else {
      events := Swaps(limits, i - 1);
      RunExtend(limits, events, ASK_FRAME);
      RunExtend(limits, events + [ASK_FRAME], Release(3 + (i - 1)));
      SwapsOne(limits, Run(limits, events), i - 1);
      events := events + [ASK_FRAME] + [Release(3 + (i - 1))];
    }
  }

  /** One durable loader byte beyond the budget. */
  ghost predicate Beyond(limits: Limits, s: System)
  {
    var c := limits.control;
    && Calm(limits, s) && s.restored == {3 + c} && s.restoredTotal == U64 - limits.capacity
    && s.ledger.used == 1 && s.ledger.nextId == 5 + 2 * c && BeyondLeases(limits, s.ledger.allocations)
  }

  ghost predicate BeyondLeases(limits: Limits, m: map<nat, Allocation>)
  {
    var c := limits.control;
    && 1 in m && m[1] == Lease(Loader, DurableLowerCapacity(limits))
    && 2 in m && m[2] == Frame(limits.viewer)
    && 3 + c in m && m[3 + c] == Lease(Loader, U64 - limits.capacity)
    && (forall id | 4 + c <= id < 4 + 2 * c :: id in m && m[id] == Frame(1))
    && 4 + 2 * c in m && m[4 + 2 * c] == Lease(Loader, 1)
    && (forall id | id in m :: id == 1 || id == 2 || 3 + c <= id <= 4 + 2 * c)
  }

  lemma GoesBeyond(limits: Limits) returns (events: seq<Event>)
    ensures Beyond(limits, Run(limits, events))
  {
    hide Run, Apply, Swapped, Beyond;
    events := Swaps(limits, limits.control);
    RunExtend(limits, events, ASK_LOADER);
    OneBeyond(limits, Run(limits, events));
    events := events + [ASK_LOADER];
  }

  lemma OneBeyond(limits: Limits, s: System)
    requires Swapped(limits, s, limits.control)
    ensures Beyond(limits, Apply(s, ASK_LOADER))
  {
    hide SwappedLeases, BeyondLeases;
    LeasesBeyond(limits, s.ledger.allocations);
  }

  lemma LeasesBeyond(limits: Limits, m: map<nat, Allocation>)
    requires SwappedLeases(limits, m, limits.control)
    ensures BeyondLeases(limits, m[4 + 2 * limits.control := Lease(Loader, 1)])
  {
  }

  // The durable budgets

  ghost predicate BudgetsKept(limits: Limits, s: System)
  {
    && GrantedBytes(s, LowerBudget) <= DurableLowerCapacity(limits)
    && GrantedBytes(s, SpeculativeBudget) <= SpeculativeCapacity(limits)
  }

  ghost predicate BudgetsHold(limits: Limits, budget: nat)
  {
    forall events :: Within(limits, events, budget) ==> BudgetsKept(limits, Run(limits, events))
  }

  lemma TwoWeigh(m: map<nat, Allocation>, n: nat, i: nat, j: nat, k: Kind)
    requires i in m && j in m && i < n && j < n && i != j
    ensures Total(m, n, k) >= Weight(m[i], k) + Weight(m[j], k)
  {
    TotalRemove(m, n, i, k);
    TotalRemove(m - {i}, n, j, k);
  }

  lemma BeyondBudget(limits: Limits, s: System)
    requires Beyond(limits, s)
    ensures !BudgetsKept(limits, s)
  {
    TwoWeigh(GrantedLive(s), s.ledger.nextId, 1, 4 + 2 * limits.control, LowerBudget);
  }

  /** The lower classes' durable budgets hold over all runs exactly for budgets that cannot wrap the ledger. */
  lemma BudgetsExactly(limits: Limits, budget: nat)
    ensures BudgetsHold(limits, budget) <==> limits.capacity + budget < U64
  {
    hide Run, GrantedBytes;
    if limits.capacity + budget < U64 {
      forall events | Within(limits, events, budget)
        ensures BudgetsKept(limits, Run(limits, events))
      {
        WithinNoWrap(limits, events, budget);
        LowerBudgets(limits, events);
      }
    } else {
      var events := GoesBeyond(limits);
      BeyondBudget(limits, Run(limits, events));
      assert Within(limits, events, budget);
    }
  }

  // The viewer is served

  ghost predicate ViewerServed(limits: Limits, s: System)
  {
    s.ledger.allocations.Keys !! s.restored ==>
      forall owner, bytes: nat, reclaimable ::
        bytes + Total(s.ledger.allocations, s.ledger.nextId, OutsideLowerBudget) <= limits.viewer ==>
          Available(s.ledger, Request(Viewer, owner, bytes, reclaimable))
  }

  ghost predicate ViewerServedHolds(limits: Limits, budget: nat)
  {
    forall events :: Within(limits, events, budget) ==> ViewerServed(limits, Run(limits, events))
  }

  /** Everything outside the lower budget is given back but the last frames, from the j-th on. */
  ghost predicate Emptied(limits: Limits, s: System, j: nat)
  {
    var c := limits.control;
    && Calm(limits, s) && j <= c && s.restored == {3 + c} && s.restoredTotal == U64 - limits.capacity
    && s.ledger.used == limits.capacity + 1 - limits.viewer - j && s.ledger.nextId == 5 + 2 * c
    && EmptiedLeases(limits, s.ledger.allocations, j)
  }

  ghost predicate EmptiedLeases(limits: Limits, m: map<nat, Allocation>, j: nat)
  {
    var c := limits.control;
    && 1 in m && m[1] == Lease(Loader, DurableLowerCapacity(limits))
    && (forall id | 4 + c + j <= id < 4 + 2 * c :: id in m && m[id] == Frame(1))
    && 4 + 2 * c in m && m[4 + 2 * c] == Lease(Loader, 1)
    && (forall id | id in m :: id == 1 || 4 + c + j <= id <= 4 + 2 * c)
  }

  lemma RestoredGone(limits: Limits, s: System)
    requires Beyond(limits, s)
    ensures Emptied(limits, Apply(Apply(s, Release(3 + limits.control)), Release(2)), 0)
  {
    hide Apply, EmptiedLeases;
    var c, m := limits.control, s.ledger.allocations;
    GivesBack(s, 3 + c);
    GivesBack(Apply(s, Release(3 + c)), 2);
    LeasesGone(limits, m);
  }

  lemma LeasesGone(limits: Limits, m: map<nat, Allocation>)
    requires BeyondLeases(limits, m)
    ensures EmptiedLeases(limits, m - {3 + limits.control} - {2}, 0)
  {
  }

  lemma FrameGone(limits: Limits, s: System, j: nat)
    requires Emptied(limits, s, j) && j < limits.control
    ensures Emptied(limits, Apply(s, Release(4 + limits.control + j)), j + 1)
  {
    hide Apply;
    GivesBack(s, 4 + limits.control + j);
  }

  lemma {:induction false} Empties(limits: Limits, j: nat) returns (events: seq<Event>)
    requires j <= limits.control
    ensures Emptied(limits, Run(limits, events), j)
  {
    hide Run, Apply, Beyond, Emptied;
    var c := limits.control;
    if j == 0 {
      events := GoesBeyond(limits);
      RunExtend(limits, events, Release(3 + c));
      RunExtend(limits, events + [Release(3 + c)], Release(2));
      RestoredGone(limits, Run(limits, events));
      events := events + [Release(3 + c)] + [Release(2)];
    } else {
      events := Empties(limits, j - 1);
      RunExtend(limits, events, Release(4 + c + (j - 1)));
      FrameGone(limits, Run(limits, events), j - 1);
      events := events + [Release(4 + c + (j - 1))];
    }
  }

  lemma {:induction false} NothingOutside(m: map<nat, Allocation>, n: nat)
    requires forall id | id in m :: Belongs(m[id], LowerBudget)
    ensures Total(m, n, OutsideLowerBudget) == 0
  {
    if n > 0 {
      NothingOutside(m, n - 1);
    }
  }

  lemma ViewerStarves(limits: Limits, s: System)
    requires Emptied(limits, s, limits.control)
    ensures !ViewerServed(limits, s)
  {
    NothingOutside(s.ledger.allocations, s.ledger.nextId);
    assert !Available(s.ledger, Request(Viewer, Cache, limits.viewer, false));
  }

  /** With nothing restored live, a viewer inside its reserve is admitted at once exactly for the same budgets. */
  lemma ViewerServedExactly(limits: Limits, budget: nat)
    ensures ViewerServedHolds(limits, budget) <==> limits.capacity + budget < U64
  {
    hide Run, ViewerServed, Emptied;
    if limits.capacity + budget < U64 {
      forall events | Within(limits, events, budget)
        ensures ViewerServed(limits, Run(limits, events))
      {
        WithinNoWrap(limits, events, budget);
        ServedInReserve(limits, events);
      }
    } else {
      var events := Empties(limits, limits.control);
      ViewerStarves(limits, Run(limits, events));
      EmptiedRestored(limits, Run(limits, events));
      assert Within(limits, events, budget);
    }
  }

  lemma EmptiedRestored(limits: Limits, s: System)
    requires Emptied(limits, s, limits.control)
    ensures s.restoredTotal == U64 - limits.capacity
  {
  }

  lemma ServedInReserve(limits: Limits, events: seq<Event>)
    requires NoWrap(Run(limits, events))
    ensures ViewerServed(limits, Run(limits, events))
  {
    hide Run, Available;
    var s := Run(limits, events);
    if s.ledger.allocations.Keys !! s.restored {
      forall owner, bytes: nat, reclaimable | bytes + Total(s.ledger.allocations, s.ledger.nextId, OutsideLowerBudget) <= limits.viewer
        ensures Available(s.ledger, Request(Viewer, owner, bytes, reclaimable))
      {
        ViewerAdmittedAtOnce(limits, events, owner, bytes, reclaimable);
      }
    }
  }
}
