/**
 The ledger under concurrent callers: a thread inside `acquire` is Ready (about to take the
 lock for a pass) or Asleep on the condition variable, and every other operation is one
 step. A run is any sequence of events; an event that does not apply changes nothing.
 */
module RetainedMemoryRuns {
  import opened RetainedMemory
  import opened RetainedMemoryTotals
  import opened Words

  /** `since` is the id the next lease had when the thread fell asleep. */
  datatype Thread =
    | Ready(request: Request, counted: bool)
    | Asleep(request: Request, since: nat)

  /** One shed callback handed out: what was asked back, as it stood, and for which class. */
  datatype Ask = Ask(id: nat, allocation: Allocation, incoming: WorkClass)

  /** The ledger, its callers, and a history of how leases and callbacks came about. */
  datatype System = System(
    ledger: Ledger,
    threads: map<nat, Thread>,
    restored: set<nat>,    // ids entered by restore
    promoted: set<nat>,    // ids granted to a thread that had been counted as waiting
    asks: seq<Ask>,
    restoredTotal: nat)    // bytes ever restored, unbounded

  datatype Event =
    | Enter(thread: nat, cls: WorkClass, owner: MemoryOwner, requested: nat, reclaimable: bool, hasShed: bool)
    | TakePass(thread: nat, expired: bool)
    | Wake(thread: nat)
    | TryAcquire(cls: WorkClass, owner: MemoryOwner, requested: nat, reclaimable: bool, hasShed: bool)
    | Restore(cls: WorkClass, owner: MemoryOwner, requested: nat)
    | Release(id: nat)
    | Stop

  // Steps

  function Start(limits: Limits): System
  {
    System(Fresh(limits), map[], {}, {}, [], 0)
  }

  /** `notify_all`: every sleeper will take another pass. */
  function Notified(threads: map<nat, Thread>): map<nat, Thread>
  {
    map t | t in threads ::
      if threads[t].Asleep? then Ready(threads[t].request, true) else threads[t]
  }

  function Asks(m: map<nat, Allocation>, n: nat, incoming: WorkClass): seq<Ask>
  {
    if n == 0 then []
    else
      Asks(m, n - 1, incoming) +
      if n - 1 in m && Sheddable(m[n - 1], incoming) then [Ask(n - 1, m[n - 1], incoming)] else []
  }

  function AfterTakePass(s: System, t: nat, expired: bool): System
    requires t in s.threads && s.threads[t].Ready?
  {
    var Ready(r, counted) := s.threads[t];
    var (l, pass) := AfterPass(s.ledger, r, counted, expired);
    match pass
    case GaveUp => s.(ledger := l, threads := Notified(s.threads - {t}))
    case Admitted(id) =>
      s.(ledger := l, threads := s.threads - {t},
         promoted := if counted then s.promoted + {id} else s.promoted)
    case RunCallbacks(_) =>
      s.(ledger := l, threads := s.threads[t := Ready(r, true)],
         asks := s.asks + Asks(s.ledger.allocations, s.ledger.nextId, r.cls))
    case Wait => s.(ledger := l, threads := s.threads[t := Asleep(r, l.nextId)])
  }

  function Apply(s: System, e: Event): System
  {
    match e
    case Enter(t, c, o, requested, reclaimable, hasShed) =>
      if t in s.threads || (reclaimable && !hasShed) || Charge(requested) > ClassCapacity(s.ledger.limits, c) then s
      else s.(threads := s.threads[t := Ready(Request(c, o, Charge(requested), reclaimable), false)])
    case TakePass(t, expired) =>
      if t in s.threads && s.threads[t].Ready? then AfterTakePass(s, t, expired) else s
    case Wake(t) =>
      if t in s.threads && s.threads[t].Asleep? then
        s.(threads := s.threads[t := Ready(s.threads[t].request, true)])
      else s
    case TryAcquire(c, o, requested, reclaimable, hasShed) =>
      var r := Request(c, o, Charge(requested), reclaimable);
      if (reclaimable && !hasShed) || s.ledger.stopping || !Available(s.ledger, r) then s
      else s.(ledger := Granted(s.ledger, r))
    case Restore(c, o, requested) =>
      s.(ledger := Restored(s.ledger, c, o, requested),
         restored := s.restored + {s.ledger.nextId},
         restoredTotal := s.restoredTotal + Charge(requested))
    case Release(id) =>
      if id in s.ledger.allocations then
        s.(ledger := Released(s.ledger, id), threads := Notified(s.threads))
      else s
    case Stop => s.(ledger := Stopped(s.ledger), threads := Notified(s.threads))
  }

  function Run(limits: Limits, events: seq<Event>): System
  {
    if events == [] then Start(limits)
    else Apply(Run(limits, events[..|events| - 1]), events[|events| - 1])
  }

  /**
   Capacity plus everything ever restored stays below 2^64, so no 64-bit counter wraps.
   A caller can check it: restoring is the only way past capacity.
   */
  predicate NoWrap(s: System)
  {
    s.ledger.limits.capacity + s.restoredTotal < U64
  }

  // What every step keeps

  ghost predicate IdsBelowNext(s: System)
  {
    && (forall id | id in s.ledger.allocations :: id < s.ledger.nextId)
    && (forall id | id in s.restored :: id < s.ledger.nextId)
    && (forall id | id in s.promoted :: id < s.ledger.nextId)
  }

  /** Every byte counter is the sum over the live allocations it stands for. */
  ghost predicate Accounted(l: Ledger)
  {
    var m, n := l.allocations, l.nextId;
    && l.used == Total(m, n, All)
    && (forall o :: l.ownerBytes[o] == Total(m, n, OwnedBy(o)))
    && l.reclaimable == Total(m, n, Reclaimable)
    && l.lowerDurable == Total(m, n, LowerDurable)
    && l.speculativeDurable == Total(m, n, SpeculativeDurable)
  }

  /** Live leases that came from acquire or try_acquire. */
  function GrantedLive(s: System): map<nat, Allocation> { s.ledger.allocations - s.restored }

  function RestoredLive(s: System): map<nat, Allocation>
  {
    s.ledger.allocations - (s.ledger.allocations.Keys - s.restored)
  }

  function GrantedBytes(s: System, k: Kind): nat { Total(GrantedLive(s), s.ledger.nextId, k) }

  function NonControlCapacity(limits: Limits): nat { limits.capacity - limits.control }

  function DurableLowerCapacity(limits: Limits): nat { limits.capacity - limits.control - limits.viewer }

  function SpeculativeCapacity(limits: Limits): nat
  {
    limits.capacity - limits.control - limits.viewer - limits.loader
  }

  ghost predicate WithinBudgets(s: System)
  {
    && GrantedBytes(s, All) <= s.ledger.limits.capacity
    && GrantedBytes(s, NonControl) <= NonControlCapacity(s.ledger.limits)
    && GrantedBytes(s, LowerBudget) <= DurableLowerCapacity(s.ledger.limits)
    && GrantedBytes(s, SpeculativeBudget) <= SpeculativeCapacity(s.ledger.limits)
    && Total(RestoredLive(s), s.ledger.nextId, All) <= s.restoredTotal
  }

  predicate IsWaiting(t: Thread) { t.Asleep? || t.counted }

  /** The threads of a class that are inside `acquire` and past their first failed check. */
  function Waiting(threads: map<nat, Thread>, c: WorkClass): set<nat>
  {
    set t | t in threads && IsWaiting(threads[t]) && threads[t].request.cls == c
  }

  ghost predicate WaitersCounted(s: System)
  {
    && (forall c :: s.ledger.waiters[c] == |Waiting(s.threads, c)|)
    && (forall t | t in s.threads ::
          1 <= s.threads[t].request.bytes <= ClassCapacity(s.ledger.limits, s.threads[t].request.cls))
  }

  /** A live lease that went, after `since`, to a waiting thread whose class gates `c`. */
  ghost predicate GatingLease(s: System, id: nat, since: nat, c: WorkClass)
  {
    id in s.ledger.allocations && since <= id && id in s.promoted && Gates(s.ledger.allocations[id].cls, c)
  }

  ghost predicate SleeperJustified(s: System, r: Request, since: nat)
  {
    Available(s.ledger, r) ==> exists id :: GatingLease(s, id, since, r.cls)
  }

  ghost predicate SleepersJustified(s: System)
  {
    forall t | t in s.threads && s.threads[t].Asleep? ::
      && s.threads[t].since <= s.ledger.nextId
      && SleeperJustified(s, s.threads[t].request, s.threads[t].since)
  }

  ghost predicate AsksDistinct(asks: seq<Ask>)
  {
    forall i, j | 0 <= i < j < |asks| :: asks[i].id != asks[j].id
  }

  predicate AskedOf(asks: seq<Ask>, id: nat) { exists i | 0 <= i < |asks| :: asks[i].id == id }

  /** Callbacks were owed, went out once each, and are what `shed_requests_` counts. */
  ghost predicate AsksExact(s: System)
  {
    && |s.asks| == s.ledger.shedRequests
    && AsksDistinct(s.asks)
    && (forall i | 0 <= i < |s.asks| ::
          && s.asks[i].id < s.ledger.nextId
          && s.asks[i].allocation.reclaimable
          && Priority(s.asks[i].allocation.cls) < Priority(s.asks[i].incoming))
    && (forall id | id in s.ledger.allocations ::
          s.ledger.allocations[id].shedRequested <==> AskedOf(s.asks, id))
  }

  ghost predicate Inv(s: System)
  {
    && IdsBelowNext(s)
    && Accounted(s.ledger)
    && WithinBudgets(s)
    && WaitersCounted(s)
    && SleepersJustified(s)
    && AsksExact(s)
  }

  // Accounting

  lemma PartsAtMostUsed(l: Ledger)
    requires Accounted(l)
    ensures forall o :: l.ownerBytes[o] <= l.used
    ensures l.reclaimable <= l.used && l.lowerDurable <= l.used && l.speculativeDurable <= l.used
  {
    var m, n := l.allocations, l.nextId;
    forall o ensures l.ownerBytes[o] <= l.used { TotalAtMost(m, m, n, OwnedBy(o), All); }
    TotalAtMost(m, m, n, Reclaimable, All);
    TotalAtMost(m, m, n, LowerDurable, All);
    TotalAtMost(m, m, n, SpeculativeDurable, All);
  }

  lemma ChargedOwners(l: Ledger, a: Allocation, o: MemoryOwner)
    requires l.ownerBytes[o] == Total(l.allocations, l.nextId, OwnedBy(o)) && l.ownerBytes[o] + a.bytes < U64
    ensures Charged(l, a).ownerBytes[o] == Total(l.allocations[l.nextId := a], l.nextId + 1, OwnedBy(o))
  {
    TotalEnter(l.allocations, l.nextId, a, OwnedBy(o));
  }

  lemma ChargedAccounted(l: Ledger, a: Allocation)
    requires Accounted(l) && l.used + a.bytes < U64
    ensures Accounted(Charged(l, a))
    ensures Charged(l, a).used == l.used + a.bytes
  {
    PartsAtMostUsed(l);
    forall o ensures Charged(l, a).ownerBytes[o] == Total(l.allocations[l.nextId := a], l.nextId + 1, OwnedBy(o)) {
      ChargedOwners(l, a, o);
    }
    TotalEnter(l.allocations, l.nextId, a, All);
    TotalEnter(l.allocations, l.nextId, a, Reclaimable);
    TotalEnter(l.allocations, l.nextId, a, LowerDurable);
    TotalEnter(l.allocations, l.nextId, a, SpeculativeDurable);
  }

  lemma ReleasedOwners(l: Ledger, id: nat, o: MemoryOwner)
    requires l.ownerBytes[o] == Total(l.allocations, l.nextId, OwnedBy(o)) && id in l.allocations && id < l.nextId
    ensures Released(l, id).ownerBytes[o] == Total(l.allocations - {id}, l.nextId, OwnedBy(o))
  {
    TotalRemove(l.allocations, l.nextId, id, OwnedBy(o));
  }

  lemma ReleasedAccounted(l: Ledger, id: nat)
    requires Accounted(l) && id in l.allocations && id < l.nextId
    ensures Accounted(Released(l, id))
    ensures Released(l, id).used == l.used - l.allocations[id].bytes
  {
    forall o ensures Released(l, id).ownerBytes[o] == Total(l.allocations - {id}, l.nextId, OwnedBy(o)) {
      ReleasedOwners(l, id, o);
    }
    TotalRemove(l.allocations, l.nextId, id, All);
    TotalRemove(l.allocations, l.nextId, id, Reclaimable);
    TotalRemove(l.allocations, l.nextId, id, LowerDurable);
    TotalRemove(l.allocations, l.nextId, id, SpeculativeDurable);
  }

  lemma ShedAccounted(l: Ledger, incoming: WorkClass)
    requires Accounted(l)
    ensures Accounted(Shed(l, incoming))
  {
    var m, n := l.allocations, l.nextId;
    forall k ensures Total(ShedMarks(m, n, incoming), n, k) == Total(m, n, k) {
      TotalAgree(m, ShedMarks(m, n, incoming), n, k);
    }
  }

  lemma LiveBytesBounded(s: System)
    requires Accounted(s.ledger) && WithinBudgets(s)
    ensures s.ledger.used <= s.ledger.limits.capacity + s.restoredTotal
  {
    TotalDisjoint(s.ledger.allocations, s.restored, s.ledger.nextId, All);
  }

  // Budgets

  /** What passing admission says about each counter. */
  lemma AvailableBounds(l: Ledger, r: Request)
    requires Available(l, r)
    ensures l.used + r.bytes <= l.limits.capacity
    ensures !r.cls.Control? ==> l.used + r.bytes <= NonControlCapacity(l.limits)
    ensures !r.reclaimable && Lower(r.cls) && !r.owner.RpcFrame? ==>
              l.lowerDurable + r.bytes <= DurableLowerCapacity(l.limits)
    ensures !r.reclaimable && r.cls.Speculative? && !r.owner.RpcFrame? ==>
              l.speculativeDurable + r.bytes <= SpeculativeCapacity(l.limits)
  {
  }

  /** A granted sum of kind `k`, bounded by the counter of kind `cover`, after one more grant. */
  lemma GrantedAfter(m: map<nat, Allocation>, restored: set<nat>, n: nat, a: Allocation, k: Kind, cover: Kind)
    requires forall x :: Weight(x, k) <= Weight(x, cover)
    requires n !in restored
    ensures Total(m[n := a] - restored, n + 1, k) == Total(m - restored, n, k) + Weight(a, k)
    ensures Total(m - restored, n, k) <= Total(m, n, cover)
  {
    assert m[n := a] - restored == (m - restored)[n := a];
    TotalEnter(m - restored, n, a, k);
    TotalAtMost(m - restored, m, n, k, cover);
  }

  lemma BudgetsAfterGrant(s: System, s': System, r: Request, a: Allocation)
    requires IdsBelowNext(s) && Accounted(s.ledger) && WithinBudgets(s) && Available(s.ledger, r)
    requires a == Allocation(r.cls, r.owner, r.bytes, r.reclaimable, false)
    requires s'.ledger.limits == s.ledger.limits
    requires s'.ledger.allocations == s.ledger.allocations[s.ledger.nextId := a]
    requires s'.ledger.nextId == s.ledger.nextId + 1
    requires s'.restored == s.restored && s'.restoredTotal == s.restoredTotal
    ensures WithinBudgets(s')
  {
    var m, n := s.ledger.allocations, s.ledger.nextId;
    AvailableBounds(s.ledger, r);
    hide Available, Total;
    GrantedAfter(m, s.restored, n, a, All, All);
    GrantedAfter(m, s.restored, n, a, NonControl, All);
    GrantedAfter(m, s.restored, n, a, LowerBudget, LowerDurable);
    GrantedAfter(m, s.restored, n, a, SpeculativeBudget, SpeculativeDurable);
    assert RestoredLive(s') == RestoredLive(s);
  }

  lemma BudgetsAfterRestore(s: System, s': System, a: Allocation)
    requires IdsBelowNext(s) && WithinBudgets(s)
    requires s'.ledger.limits == s.ledger.limits
    requires s'.ledger.allocations == s.ledger.allocations[s.ledger.nextId := a]
    requires s'.ledger.nextId == s.ledger.nextId + 1
    requires s'.restored == s.restored + {s.ledger.nextId}
    requires s'.restoredTotal == s.restoredTotal + a.bytes
    ensures WithinBudgets(s')
  {
    assert GrantedLive(s') == GrantedLive(s);
    assert RestoredLive(s') == RestoredLive(s)[s.ledger.nextId := a];
    TotalEnter(RestoredLive(s), s.ledger.nextId, a, All);
  }

  /** Releasing and marking only take allocations away or leave their bytes alone. */
  lemma BudgetsShrink(s: System, s': System)
    requires WithinBudgets(s)
    requires s'.ledger.limits == s.ledger.limits && s'.ledger.nextId == s.ledger.nextId
    requires s'.restored == s.restored && s'.restoredTotal == s.restoredTotal
    requires forall id | id in s'.ledger.allocations ::
               && id in s.ledger.allocations
               && s'.ledger.allocations[id].(shedRequested := false) == s.ledger.allocations[id].(shedRequested := false)
    ensures WithinBudgets(s')
  {
    var n, g, g' := s.ledger.nextId, GrantedLive(s), GrantedLive(s');
    TotalAtMost(g', g, n, All, All);
    TotalAtMost(g', g, n, NonControl, NonControl);
    TotalAtMost(g', g, n, LowerBudget, LowerBudget);
    TotalAtMost(g', g, n, SpeculativeBudget, SpeculativeBudget);
    TotalAtMost(RestoredLive(s'), RestoredLive(s), n, All, All);
  }

  // Waiter counts

  lemma WaitingNotified(threads: map<nat, Thread>, c: WorkClass)
    ensures Waiting(Notified(threads), c) == Waiting(threads, c)
  {
  }

  lemma WaitingRemove(threads: map<nat, Thread>, t: nat, c: WorkClass)
    requires t in threads
    ensures |Waiting(threads - {t}, c)| ==
            |Waiting(threads, c)| - if IsWaiting(threads[t]) && threads[t].request.cls == c then 1 else 0
  {
    assert Waiting(threads - {t}, c) == Waiting(threads, c) - {t};
  }

  lemma WaitingUpdate(threads: map<nat, Thread>, t: nat, th: Thread, c: WorkClass)
    requires t in threads && IsWaiting(th) && th.request == threads[t].request
    ensures |Waiting(threads[t := th], c)| ==
            |Waiting(threads, c)| + if !IsWaiting(threads[t]) && th.request.cls == c then 1 else 0
  {
    if th.request.cls == c {
      assert Waiting(threads[t := th], c) == Waiting(threads, c) + {t};
    } else {
      assert Waiting(threads[t := th], c) == Waiting(threads, c);
    }
  }

  // Sleepers

  /** Every counter and every gating waiter count is at least what it was. */
  ghost predicate NoRoomier(l: Ledger, l': Ledger, c: WorkClass)
  {
    && l'.limits == l.limits
    && l.used <= l'.used
    && l.ownerBytes[RpcFrame] <= l'.ownerBytes[RpcFrame]
    && l.lowerDurable <= l'.lowerDurable
    && l.speculativeDurable <= l'.speculativeDurable
    && forall w | Gates(w, c) :: l.waiters[w] <= l'.waiters[w]
  }

  /** Admission is antitone: what passes a fuller ledger passes an emptier one. */
  lemma AvailableAntitone(l: Ledger, l': Ledger, r: Request)
    requires NoRoomier(l, l', r.cls) && l'.ownerBytes[RpcFrame] <= l'.used
    requires Available(l', r)
    ensures Available(l, r)
  {
    if Lower(r.cls) {
      assert Gates(Control, r.cls) && Gates(Viewer, r.cls);
      assert r.cls.Speculative? ==> Gates(Loader, r.cls);
    }
  }

  lemma JustifiedStays(s: System, s': System, r: Request, since: nat)
    requires SleeperJustified(s, r, since) && Accounted(s'.ledger)
    requires NoRoomier(s.ledger, s'.ledger, r.cls)
    requires s.promoted <= s'.promoted
    requires forall id | id in s.ledger.allocations ::
               id in s'.ledger.allocations && s'.ledger.allocations[id].cls == s.ledger.allocations[id].cls
    ensures SleeperJustified(s', r, since)
  {
    if Available(s'.ledger, r) {
      PartsAtMostUsed(s'.ledger);
      AvailableAntitone(s.ledger, s'.ledger, r);
      var id :| GatingLease(s, id, since, r.cls);
      assert GatingLease(s', id, since, r.cls);
    }
  }

  // Shed callbacks

  lemma {:induction false} AsksAreOwed(m: map<nat, Allocation>, n: nat, incoming: WorkClass)
    ensures |Asks(m, n, incoming)| == |ShedIds(m, n, incoming)|
    ensures AsksDistinct(Asks(m, n, incoming))
    ensures forall i | 0 <= i < |Asks(m, n, incoming)| ::
              var a := Asks(m, n, incoming)[i];
              a.id < n && a.id in m && a == Ask(a.id, m[a.id], incoming) && Sheddable(m[a.id], incoming)
  {
    if n != 0 { AsksAreOwed(m, n - 1, incoming); }
  }

  lemma {:induction false} OwedAreAsked(m: map<nat, Allocation>, n: nat, incoming: WorkClass, id: nat)
    requires id < n && id in m && Sheddable(m[id], incoming)
    ensures AskedOf(Asks(m, n, incoming), id)
  {
    var before, now := Asks(m, n - 1, incoming), Asks(m, n, incoming);
    if id < n - 1 {
      OwedAreAsked(m, n - 1, incoming, id);
      var i :| 0 <= i < |before| && before[i].id == id;
      assert now[i].id == id;
    } else {
      assert now[|before|].id == id;
    }
  }

  // Every step keeps the invariant

  /** The bookkeeping of a grant, whether or not the thread had been counted as waiting. */
  lemma GrantBooks(s: System, s': System, r: Request)
    requires Inv(s) && Available(s.ledger, r)
    requires exists w :: s'.ledger == Granted(s.ledger.(waiters := w), r)
    requires s'.restored == s.restored && s'.restoredTotal == s.restoredTotal && s'.asks == s.asks
    requires s'.promoted <= s.promoted + {s.ledger.nextId}
    ensures IdsBelowNext(s') && Accounted(s'.ledger) && WithinBudgets(s') && AsksExact(s')
    ensures s'.ledger.used == s.ledger.used + r.bytes
  {
    var a := Allocation(r.cls, r.owner, r.bytes, r.reclaimable, false);
    AvailableBounds(s.ledger, r);
    ChargedAccounted(s.ledger, a);
    var charged := Charged(s.ledger, a);
    assert s'.ledger == charged.(waiters := s'.ledger.waiters, admissions := s'.ledger.admissions);
    BudgetsAfterGrant(s, s', r, a);
  }

  lemma GrantLeavesNoMoreRoom(s: System, s': System, r: Request, c: WorkClass)
    requires Inv(s) && Available(s.ledger, r)
    requires s'.ledger == Granted(s.ledger.(waiters := s'.ledger.waiters), r)
    requires forall w | Gates(w, c) :: s.ledger.waiters[w] <= s'.ledger.waiters[w]
    ensures NoRoomier(s.ledger, s'.ledger, c)
  {
    AvailableBounds(s.ledger, r);
    PartsAtMostUsed(s.ledger);
  }

  /** A grant that never waited leaves every sleeper as it was. */
  lemma TryAcquireKeeps(s: System, r: Request)
    requires Inv(s) && Available(s.ledger, r)
    ensures Inv(s.(ledger := Granted(s.ledger, r)))
  {
    var s' := s.(ledger := Granted(s.ledger, r));
    assert s'.ledger == Granted(s.ledger.(waiters := s.ledger.waiters), r);
    GrantBooks(s, s', r);
    forall t | t in s'.threads && s'.threads[t].Asleep?
      ensures SleeperJustified(s', s'.threads[t].request, s'.threads[t].since)
    {
      GrantLeavesNoMoreRoom(s, s', r, s.threads[t].request.cls);
      JustifiedStays(s, s', s.threads[t].request, s.threads[t].since);
    }
  }

  lemma AdmittedSleeper(s: System, s': System, t: nat, u: nat)
    requires Inv(s) && Accounted(s'.ledger)
    requires t in s.threads && s.threads[t].Ready? && Available(s.ledger, s.threads[t].request)
    requires !s.ledger.stopping && s' == AfterTakePass(s, t, false)
    requires u in s.threads && s.threads[u].Asleep?
    ensures SleeperJustified(s', s.threads[u].request, s.threads[u].since)
  {
    var Ready(r, counted) := s.threads[t];
    var c := s.threads[u].request.cls;
    if counted && Gates(r.cls, c) {
      assert GatingLease(s', s.ledger.nextId, s.threads[u].since, c);
    } else {
      assert s'.ledger == Granted(s.ledger.(waiters := s'.ledger.waiters), r);
      GrantLeavesNoMoreRoom(s, s', r, c);
      JustifiedStays(s, s', s.threads[u].request, s.threads[u].since);
    }
  }

  lemma WaiterLeaves(s: System, t: nat, c: WorkClass)
    requires WaitersCounted(s) && t in s.threads && s.threads[t].Ready?
    ensures var l := if s.threads[t].counted then Uncounted(s.ledger, s.threads[t].request.cls) else s.ledger;
            l.waiters[c] == |Waiting(s.threads - {t}, c)|
  {
    WaitingRemove(s.threads, t, c);
    if s.threads[t].counted { assert t in Waiting(s.threads, s.threads[t].request.cls); }
  }

  lemma AdmittedKeeps(s: System, t: nat)
    requires Inv(s) && t in s.threads && s.threads[t].Ready?
    requires !s.ledger.stopping && Available(s.ledger, s.threads[t].request)
    ensures Inv(AfterTakePass(s, t, false))
  {
    var s' := AfterTakePass(s, t, false);
    assert s'.ledger == Granted(s.ledger.(waiters := s'.ledger.waiters), s.threads[t].request);
    GrantBooks(s, s', s.threads[t].request);
    forall c ensures s'.ledger.waiters[c] == |Waiting(s'.threads, c)| { WaiterLeaves(s, t, c); }
    forall u | u in s'.threads && s'.threads[u].Asleep?
      ensures SleeperJustified(s', s'.threads[u].request, s'.threads[u].since)
    {
      AdmittedSleeper(s, s', t, u);
    }
  }

  lemma GaveUpKeeps(s: System, t: nat, expired: bool)
    requires Inv(s) && t in s.threads && s.threads[t].Ready? && (s.ledger.stopping || expired)
    ensures Inv(AfterTakePass(s, t, expired))
  {
    var s' := AfterTakePass(s, t, expired);
    BudgetsShrink(s, s');
    forall c ensures s'.ledger.waiters[c] == |Waiting(s'.threads, c)| {
      WaiterLeaves(s, t, c);
      WaitingNotified(s.threads - {t}, c);
    }
  }

  /** Asking for memory back, and the history of asks. */
  lemma ShedKeepsAsks(s: System, s': System, incoming: WorkClass)
    requires AsksExact(s) && IdsBelowNext(s)
    requires s'.ledger.allocations == ShedMarks(s.ledger.allocations, s.ledger.nextId, incoming)
    requires s'.ledger.nextId == s.ledger.nextId
    requires s'.ledger.shedRequests ==
             s.ledger.shedRequests + |ShedIds(s.ledger.allocations, s.ledger.nextId, incoming)|
    requires s'.asks == s.asks + Asks(s.ledger.allocations, s.ledger.nextId, incoming)
    ensures AsksExact(s')
  {
    var m, n := s.ledger.allocations, s.ledger.nextId;
    var added := Asks(m, n, incoming);
    AsksAreOwed(m, n, incoming);
    forall i, j | 0 <= i < j < |s'.asks| ensures s'.asks[i].id != s'.asks[j].id {
      if i < |s.asks| <= j {
        assert s'.asks[j] == added[j - |s.asks|];
        assert AskedOf(s.asks, s.asks[i].id);
      }
    }
    forall id | id in m ensures s'.ledger.allocations[id].shedRequested <==> AskedOf(s'.asks, id) {
      ShedMarkIffAsked(s, s', incoming, id);
    }
  }

  lemma ShedMarkIffAsked(s: System, s': System, incoming: WorkClass, id: nat)
    requires AsksExact(s) && IdsBelowNext(s) && id in s.ledger.allocations
    requires s'.ledger.allocations == ShedMarks(s.ledger.allocations, s.ledger.nextId, incoming)
    requires s'.asks == s.asks + Asks(s.ledger.allocations, s.ledger.nextId, incoming)
    ensures s'.ledger.allocations[id].shedRequested <==> AskedOf(s'.asks, id)
  {
    hide Asks;
    var m, n := s.ledger.allocations, s.ledger.nextId;
    var added := Asks(m, n, incoming);
    AsksAreOwed(m, n, incoming);
    if AskedOf(s.asks, id) {
      var i :| 0 <= i < |s.asks| && s.asks[i].id == id;
      assert s'.asks[i].id == id;
    } else if Sheddable(m[id], incoming) {
      OwedAreAsked(m, n, incoming, id);
      var i :| 0 <= i < |added| && added[i].id == id;
      assert s'.asks[|s.asks| + i].id == id;
    }
  }

  /** A pass that is refused: counted, asks for memory back, and sleeps if there is none to ask. */
  ghost predicate Refused(s: System, t: nat, s': System)
    requires t in s.threads && s.threads[t].Ready?
  {
    var Ready(r, counted) := s.threads[t];
    && !Available(s.ledger, r)
    && s'.ledger == Shed(if counted then s.ledger else Counted(s.ledger, r.cls), r.cls)
    && s'.asks == s.asks + Asks(s.ledger.allocations, s.ledger.nextId, r.cls)
    && s'.restored == s.restored && s'.restoredTotal == s.restoredTotal && s'.promoted == s.promoted
    && (s'.threads == s.threads[t := Ready(r, true)] || s'.threads == s.threads[t := Asleep(r, s.ledger.nextId)])
  }

  lemma RefusedShape(s: System, t: nat)
    requires t in s.threads && s.threads[t].Ready?
    requires !s.ledger.stopping && !Available(s.ledger, s.threads[t].request)
    ensures Refused(s, t, AfterTakePass(s, t, false))
  {
    AsksAreOwed(s.ledger.allocations, s.ledger.nextId, s.threads[t].request.cls);
  }

  lemma RefusedAccounts(s: System, t: nat, s': System)
    requires Inv(s) && t in s.threads && s.threads[t].Ready? && Refused(s, t, s')
    ensures IdsBelowNext(s') && Accounted(s'.ledger) && WithinBudgets(s') && AsksExact(s')
  {
    var Ready(r, counted) := s.threads[t];
    ShedAccounted(if counted then s.ledger else Counted(s.ledger, r.cls), r.cls);
    BudgetsShrink(s, s');
    ShedKeepsAsks(s, s', r.cls);
  }

  lemma RefusedWaiters(s: System, t: nat, s': System)
    requires WaitersCounted(s) && t in s.threads && s.threads[t].Ready? && Refused(s, t, s')
    ensures WaitersCounted(s')
  {
    forall c ensures s'.ledger.waiters[c] == |Waiting(s'.threads, c)| {
      WaitingUpdate(s.threads, t, s'.threads[t], c);
    }
  }

  lemma RefusedSleepers(s: System, t: nat, s': System)
    requires Inv(s) && t in s.threads && s.threads[t].Ready? && Refused(s, t, s') && Accounted(s'.ledger)
    ensures SleepersJustified(s')
  {
    forall u | u in s'.threads && s'.threads[u].Asleep?
      ensures SleeperJustified(s', s'.threads[u].request, s'.threads[u].since)
    {
      assert SleeperJustified(s, s'.threads[u].request, s'.threads[u].since);
      JustifiedStays(s, s', s'.threads[u].request, s'.threads[u].since);
    }
  }

  lemma RefusedKeeps(s: System, t: nat)
    requires Inv(s) && t in s.threads && s.threads[t].Ready?
    requires !s.ledger.stopping && !Available(s.ledger, s.threads[t].request)
    ensures Inv(AfterTakePass(s, t, false))
  {
    var s' := AfterTakePass(s, t, false);
    RefusedShape(s, t);
    RefusedAccounts(s, t, s');
    RefusedWaiters(s, t, s');
    RefusedSleepers(s, t, s');
  }

  lemma RestoreKeeps(s: System, c: WorkClass, o: MemoryOwner, requested: nat)
    requires Inv(s) && NoWrap(Apply(s, Restore(c, o, requested)))
    ensures Inv(Apply(s, Restore(c, o, requested)))
  {
    hide Available, WithinBudgets, SleeperJustified, Total;
    var s' := Apply(s, Restore(c, o, requested));
    var a := Allocation(c, o, Charge(requested), false, false);
    LiveBytesBounded(s);
    PartsAtMostUsed(s.ledger);
    ChargedAccounted(s.ledger, a);
    assert s'.ledger == Charged(s.ledger, a).(restoredBytes := s'.ledger.restoredBytes);
    BudgetsAfterRestore(s, s', a);
    SleepersAfterRestore(s, s', a);
    hide Accounted, SleepersJustified, Charged;
  }

  lemma SleepersAfterRestore(s: System, s': System, a: Allocation)
    requires IdsBelowNext(s) && Accounted(s'.ledger) && SleepersJustified(s) && s.ledger.used + a.bytes < U64
    requires Accounted(s.ledger) && s'.threads == s.threads && s'.promoted == s.promoted
    requires s'.ledger == Charged(s.ledger, a).(restoredBytes := s'.ledger.restoredBytes)
    ensures SleepersJustified(s')
  {
    hide SleeperJustified, Total;
    PartsAtMostUsed(s.ledger);
    forall u | u in s'.threads && s'.threads[u].Asleep?
      ensures SleeperJustified(s', s'.threads[u].request, s'.threads[u].since)
    {
      JustifiedStays(s, s', s.threads[u].request, s.threads[u].since);
    }
  }

  lemma ReleaseKeeps(s: System, id: nat)
    requires Inv(s) && id in s.ledger.allocations
    ensures Inv(Apply(s, Release(id)))
  {
    var s' := Apply(s, Release(id));
    ReleasedAccounted(s.ledger, id);
    BudgetsShrink(s, s');
    forall c ensures s'.ledger.waiters[c] == |Waiting(s'.threads, c)| { WaitingNotified(s.threads, c); }
  }

  lemma EnterKeeps(s: System, t: nat, r: Request)
    requires Inv(s) && t !in s.threads && 1 <= r.bytes <= ClassCapacity(s.ledger.limits, r.cls)
    ensures Inv(s.(threads := s.threads[t := Ready(r, false)]))
  {
    var s' := s.(threads := s.threads[t := Ready(r, false)]);
    forall c ensures s'.ledger.waiters[c] == |Waiting(s'.threads, c)| {
      assert Waiting(s'.threads, c) == Waiting(s.threads, c);
    }
    SleepersCarryOver(s, s');
  }

  lemma SleepersCarryOver(s: System, s': System)
    requires SleepersJustified(s) && s'.ledger == s.ledger && s'.promoted == s.promoted
    requires forall t | t in s'.threads && s'.threads[t].Asleep? :: t in s.threads && s.threads[t] == s'.threads[t]
    ensures SleepersJustified(s')
  {
    forall t | t in s'.threads && s'.threads[t].Asleep?
      ensures SleeperJustified(s', s'.threads[t].request, s'.threads[t].since)
    {
      if Available(s.ledger, s.threads[t].request) {
        var id :| GatingLease(s, id, s.threads[t].since, s.threads[t].request.cls);
        assert GatingLease(s', id, s.threads[t].since, s.threads[t].request.cls);
      }
    }
  }

  lemma WakeKeeps(s: System, t: nat)
    requires Inv(s) && t in s.threads && s.threads[t].Asleep?
    ensures Inv(Apply(s, Wake(t)))
  {
    var s' := Apply(s, Wake(t));
    forall c ensures s'.ledger.waiters[c] == |Waiting(s'.threads, c)| {
      assert Waiting(s'.threads, c) == Waiting(s.threads, c);
    }
    SleepersCarryOver(s, s');
  }

  lemma StopKeeps(s: System)
    requires Inv(s)
    ensures Inv(Apply(s, Stop))
  {
    var s' := Apply(s, Stop);
    BudgetsShrink(s, s');
    forall c ensures s'.ledger.waiters[c] == |Waiting(s'.threads, c)| { WaitingNotified(s.threads, c); }
  }

  lemma StepKeeps(s: System, e: Event)
    requires Inv(s) && NoWrap(Apply(s, e))
    ensures Inv(Apply(s, e))
  {
    match e
    case Enter(t, c, o, requested, reclaimable, hasShed) =>
      if Apply(s, e) != s { EnterKeeps(s, t, Request(c, o, Charge(requested), reclaimable)); }
    case TakePass(t, expired) =>
      if t in s.threads && s.threads[t].Ready? { PassKeeps(s, t, expired); }
    case Wake(t) =>
      if t in s.threads && s.threads[t].Asleep? { WakeKeeps(s, t); }
    case TryAcquire(c, o, requested, reclaimable, hasShed) =>
      if Apply(s, e) != s { TryAcquireKeeps(s, Request(c, o, Charge(requested), reclaimable)); }
    case Restore(c, o, requested) => RestoreKeeps(s, c, o, requested);
    case Release(id) =>
      if id in s.ledger.allocations { ReleaseKeeps(s, id); }
    case Stop => StopKeeps(s);
  }

  lemma PassKeeps(s: System, t: nat, expired: bool)
    requires Inv(s) && t in s.threads && s.threads[t].Ready?
    ensures Inv(AfterTakePass(s, t, expired))
  {
    if s.ledger.stopping || expired {
      GaveUpKeeps(s, t, expired);
    } else if Available(s.ledger, s.threads[t].request) {
      AdmittedKeeps(s, t);
    } else {
      RefusedKeeps(s, t);
    }
  }

  lemma StepFrame(s: System, e: Event)
    ensures Apply(s, e).ledger.limits == s.ledger.limits
    ensures s.restoredTotal <= Apply(s, e).restoredTotal
  {
  }

  lemma StartKeeps(limits: Limits)
    ensures Inv(Start(limits))
  {
    var s := Start(limits);
    assert GrantedLive(s) == map[] && RestoredLive(s) == map[];
    forall c ensures s.ledger.waiters[c] == |Waiting(s.threads, c)| { assert Waiting(s.threads, c) == {}; }
  }

  /** The invariant holds after every run. */
  lemma {:induction false} RunKeeps(limits: Limits, events: seq<Event>)
    requires NoWrap(Run(limits, events))
    ensures Inv(Run(limits, events)) && Run(limits, events).ledger.limits == limits
  {
    if events == [] {
      StartKeeps(limits);
    } else {
      var before := Run(limits, events[..|events| - 1]);
      StepFrame(before, events[|events| - 1]);
      RunKeeps(limits, events[..|events| - 1]);
      StepKeeps(before, events[|events| - 1]);
    }
  }

  // What every step keeps even where byte counters wrap

  /** Ids, waiter counts and asks; none of them rests on the byte counters. */
  ghost predicate Books(s: System) { IdsBelowNext(s) && WaitersCounted(s) && AsksExact(s) }

  lemma EntryKeepsBooks(s: System, s': System, a: Allocation)
    requires IdsBelowNext(s) && AsksExact(s) && !a.shedRequested
    requires s'.ledger.allocations == s.ledger.allocations[s.ledger.nextId := a] && s'.ledger.nextId == s.ledger.nextId + 1
    requires s'.ledger.shedRequests == s.ledger.shedRequests && s'.asks == s.asks
    requires s'.restored <= s.restored + {s.ledger.nextId} && s'.promoted <= s.promoted + {s.ledger.nextId}
    ensures IdsBelowNext(s') && AsksExact(s')
  {
  }

  lemma GaveUpKeepsBooks(s: System, t: nat, expired: bool)
    requires Books(s) && t in s.threads && s.threads[t].Ready? && (s.ledger.stopping || expired)
    ensures Books(AfterTakePass(s, t, expired))
  {
    var s' := AfterTakePass(s, t, expired);
    forall c ensures s'.ledger.waiters[c] == |Waiting(s'.threads, c)| {
      WaiterLeaves(s, t, c);
      WaitingNotified(s.threads - {t}, c);
    }
  }

  lemma AdmittedKeepsBooks(s: System, t: nat)
    requires Books(s) && t in s.threads && s.threads[t].Ready?
    requires !s.ledger.stopping && Available(s.ledger, s.threads[t].request)
    ensures Books(AfterTakePass(s, t, false))
  {
    hide Available, AsksExact;
    var s', r := AfterTakePass(s, t, false), s.threads[t].request;
    EntryKeepsBooks(s, s', Allocation(r.cls, r.owner, r.bytes, r.reclaimable, false));
    forall c ensures s'.ledger.waiters[c] == |Waiting(s'.threads, c)| { WaiterLeaves(s, t, c); }
  }

  lemma PassKeepsBooks(s: System, t: nat, expired: bool)
    requires Books(s) && t in s.threads && s.threads[t].Ready?
    ensures Books(AfterTakePass(s, t, expired))
  {
    hide Books, Available, AfterTakePass;
    if s.ledger.stopping || expired {
      GaveUpKeepsBooks(s, t, expired);
    } else if Available(s.ledger, s.threads[t].request) {
      AdmittedKeepsBooks(s, t);
    } else {
      RefusedShape(s, t);
      RefusedKeepsBooks(s, t, AfterTakePass(s, t, false));
    }
  }

  lemma RefusedKeepsBooks(s: System, t: nat, s': System)
    requires Books(s) && t in s.threads && s.threads[t].Ready? && Refused(s, t, s')
    ensures Books(s')
  {
    hide Available;
    ShedKeepsAsks(s, s', s.threads[t].request.cls);
    RefusedWaiters(s, t, s');
  }

  /** Entries by try_acquire and restore. */
  lemma OtherEntryKeepsBooks(s: System, e: Event)
    requires Books(s) && (e.TryAcquire? || e.Restore?)
    ensures Books(Apply(s, e))
  {
    hide Available, AsksExact, IdsBelowNext;
    var s' := Apply(s, e);
    if s' != s {
      EntryKeepsBooks(s, s', Allocation(e.cls, e.owner, Charge(e.requested), e.TryAcquire? && e.reclaimable, false));
    }
  }

  lemma OtherStepKeepsBooks(s: System, e: Event)
    requires Books(s) && (e.Enter? || e.Wake? || e.Release? || e.Stop?)
    ensures Books(Apply(s, e))
  {
    hide WaitersCounted, AsksExact, IdsBelowNext, Waiting, Available, AfterTakePass;
    var s' := Apply(s, e);
    assert s'.ledger.waiters == s.ledger.waiters && s'.ledger.limits == s.ledger.limits;
    SameWaiting(s, s');
    FewerLeases(s, s');
  }

  /** Nothing is asked and no lease is new. */
  lemma FewerLeases(s: System, s': System)
    requires IdsBelowNext(s) && AsksExact(s)
    requires s'.ledger.nextId == s.ledger.nextId && s'.ledger.shedRequests == s.ledger.shedRequests && s'.asks == s.asks
    requires s'.restored == s.restored && s'.promoted == s.promoted
    requires forall id | id in s'.ledger.allocations ::
      id in s.ledger.allocations && s'.ledger.allocations[id] == s.ledger.allocations[id]
    ensures IdsBelowNext(s') && AsksExact(s')
  {
  }

  lemma StepKeepsBooks(s: System, e: Event)
    requires Books(s)
    ensures Books(Apply(s, e))
  {
    hide Books, Available, AfterTakePass;
    if e.TakePass? {
      if e.thread in s.threads && s.threads[e.thread].Ready? {
        PassKeepsBooks(s, e.thread, e.expired);
      }
    } else if e.TryAcquire? || e.Restore? {
      OtherEntryKeepsBooks(s, e);
    } else {
      OtherStepKeepsBooks(s, e);
    }
  }

  /** Entering, waking and notifying change no thread's count. */
  lemma SameWaiting(s: System, s': System)
    requires WaitersCounted(s) && s'.ledger.waiters == s.ledger.waiters && s'.ledger.limits == s.ledger.limits
    requires forall t | t in s.threads ::
      t in s'.threads && s'.threads[t].request == s.threads[t].request && IsWaiting(s'.threads[t]) == IsWaiting(s.threads[t])
    requires forall t | t in s'.threads && t !in s.threads ::
      && !IsWaiting(s'.threads[t])
      && 1 <= s'.threads[t].request.bytes <= ClassCapacity(s.ledger.limits, s'.threads[t].request.cls)
    ensures WaitersCounted(s')
  {
    forall c ensures s'.ledger.waiters[c] == |Waiting(s'.threads, c)| {
      assert Waiting(s'.threads, c) == Waiting(s.threads, c);
    }
  }

  lemma {:induction false} RunKeepsBooks(limits: Limits, events: seq<Event>)
    ensures Books(Run(limits, events)) && Run(limits, events).ledger.limits == limits
  {
    hide Apply, Books;
    if events == [] {
      StartKeepsBooks(limits);
    } else {
      var before := Run(limits, events[..|events| - 1]);
      StepFrame(before, events[|events| - 1]);
      RunKeepsBooks(limits, events[..|events| - 1]);
      StepKeepsBooks(before, events[|events| - 1]);
    }
  }

  lemma StartKeepsBooks(limits: Limits)
    ensures Books(Start(limits))
  {
    StartKeeps(limits);
  }
}
