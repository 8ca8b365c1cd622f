/** The promises of the retained-memory ledger, for every run of `RetainedMemoryRuns`. */
module RetainedMemoryLaws {
  import opened RetainedMemory
  import opened RetainedMemoryTotals
  import opened RetainedMemoryRuns
  import opened Words

  // Wakeups

  /**
   No wakeup is lost for good. A sleeper whose request would now pass is of a lower class, and
   it is asleep only while a lease is live that was granted, after it fell asleep, to a waiter
   of a class that gates it; giving that lease back wakes it.
   */
  lemma NoLostWakeup(limits: Limits, events: seq<Event>, t: nat)
    requires NoWrap(Run(limits, events))
    ensures var s := Run(limits, events);
            t in s.threads && s.threads[t].Asleep? && Available(s.ledger, s.threads[t].request) ==>
              && Lower(s.threads[t].request.cls)
              && exists id ::
                   && GatingLease(s, id, s.threads[t].since, s.threads[t].request.cls)
                   && Apply(s, Release(id)).threads[t] == Ready(s.threads[t].request, true)
  {
    var s := Run(limits, events);
    RunKeeps(limits, events);
    if t in s.threads && s.threads[t].Asleep? && Available(s.ledger, s.threads[t].request) {
      var id :| GatingLease(s, id, s.threads[t].since, s.threads[t].request.cls);
      assert Apply(s, Release(id)).threads[t] == Ready(s.threads[t].request, true);
    }
  }

  /** No run ever has a sleeper of class `c` whose request would pass. */
  ghost predicate NeverAdmissibleAsleep(c: WorkClass)
  {
    forall limits: Limits, events: seq<Event>, t: nat ::
      var s := Run(limits, events);
      NoWrap(s) && t in s.threads && s.threads[t].Asleep? && s.threads[t].request.cls == c ==>
        !Available(s.ledger, s.threads[t].request)
  }

  /** A sleeper is never admissible exactly for the classes that no waiter gates. */
  lemma NeverAdmissibleAsleepIff(c: WorkClass)
    ensures NeverAdmissibleAsleep(c) <==> !Lower(c)
  {
    if Lower(c) {
      var limits, events := AdmissibleSleeper(c);
      assert Run(limits, events).threads[1].Asleep?;
    } else {
      forall limits: Limits, events: seq<Event>, t: nat
        ensures var s := Run(limits, events);
                NoWrap(s) && t in s.threads && s.threads[t].Asleep? && s.threads[t].request.cls == c ==>
                  !Available(s.ledger, s.threads[t].request)
      {
        if NoWrap(Run(limits, events)) { NoLostWakeup(limits, events, t); }
      }
    }
  }

  lemma RunExtend(limits: Limits, events: seq<Event>, e: Event)
    ensures Run(limits, events + [e]) == Apply(Run(limits, events), e)
  {
    assert (events + [e])[..|events|] == events;
  }

  /**
   A run that leaves an admissible sleeper: thread 1 takes its pass while the viewer, thread 0,
   still counts as waiting, sleeps, and is not notified when thread 0 is then admitted.
   */
  lemma AdmissibleSleeper(c: WorkClass) returns (limits: Limits, events: seq<Event>)
    requires Lower(c)
    ensures var s := Run(limits, events);
            && NoWrap(s) && 1 in s.threads && s.threads[1].Asleep? && s.threads[1].request.cls == c
            && Available(s.ledger, s.threads[1].request)
  {
    limits := Sizes(10, 1, 1, 1, 1);
    events := [TryAcquire(Viewer, Cache, 9, false, false)];
    RunExtend(limits, [], events[0]);
    events := ViewerQueues(limits, events);
    events := LowerQueues(limits, events, c);
    events := LeaseReturned(limits, events, c);
    events := ViewerOvertakes(limits, events, c);
  }

  const VIEWER_ASKS := Request(Viewer, Cache, 5, false)

  function LowerAsks(c: WorkClass): Request { Request(c, Cache, 1, false) }

  /** The first lease fills what non-control classes may use. */
  function Full(limits: Limits): Ledger { Granted(Fresh(limits), Request(Viewer, Cache, 9, false)) }

  lemma NothingToShed(c: WorkClass)
    ensures var m := map[1 := Allocation(Viewer, Cache, 9, false, false)];
            ShedIds(m, 2, c) == [] && ShedMarks(m, 2, c) == m
  {
    assert ShedIds(map[1 := Allocation(Viewer, Cache, 9, false, false)], 1, c) == [];
  }

  lemma ViewerQueues(limits: Limits, before: seq<Event>) returns (events: seq<Event>)
    requires limits == Sizes(10, 1, 1, 1, 1) && Run(limits, before) == Start(limits).(ledger := Full(limits))
    ensures Run(limits, events) ==
            Start(limits).(ledger := Counted(Full(limits), Viewer), threads := map[0 := Asleep(VIEWER_ASKS, 2)])
  {
    NothingToShed(Viewer);
    RunExtend(limits, before, Enter(0, Viewer, Cache, 5, false, false));
    events := before + [Enter(0, Viewer, Cache, 5, false, false)];
    RunExtend(limits, events, TakePass(0, false));
    events := events + [TakePass(0, false)];
  }

  lemma LowerQueues(limits: Limits, before: seq<Event>, c: WorkClass) returns (events: seq<Event>)
    requires limits == Sizes(10, 1, 1, 1, 1) && Lower(c)
    requires Run(limits, before) ==
             Start(limits).(ledger := Counted(Full(limits), Viewer), threads := map[0 := Asleep(VIEWER_ASKS, 2)])
    ensures Run(limits, events) ==
            Start(limits).(ledger := Counted(Counted(Full(limits), Viewer), c),
                           threads := map[0 := Asleep(VIEWER_ASKS, 2), 1 := Asleep(LowerAsks(c), 2)])
  {
    NothingToShed(c);
    RunExtend(limits, before, Enter(1, c, Cache, 1, false, false));
    events := before + [Enter(1, c, Cache, 1, false, false)];
    RunExtend(limits, events, TakePass(1, false));
    events := events + [TakePass(1, false)];
  }

  lemma LeaseReturned(limits: Limits, before: seq<Event>, c: WorkClass) returns (events: seq<Event>)
    requires limits == Sizes(10, 1, 1, 1, 1) && Lower(c)
    requires Run(limits, before) ==
             Start(limits).(ledger := Counted(Counted(Full(limits), Viewer), c),
                            threads := map[0 := Asleep(VIEWER_ASKS, 2), 1 := Asleep(LowerAsks(c), 2)])
    ensures Freed(Run(limits, events), c)
  {
    hide Run;
    RunExtend(limits, before, Release(1));
    events := before + [Release(1)];
    var free := Run(limits, events);
    assert free.threads == map[0 := Ready(VIEWER_ASKS, true), 1 := Ready(LowerAsks(c), true)];
    assert free.ledger.used == 0 && free.ledger.allocations == map[];
  }

  lemma ViewerOvertakes(limits: Limits, before: seq<Event>, c: WorkClass) returns (events: seq<Event>)
    requires Lower(c) && Freed(Run(limits, before), c)
    ensures var s := Run(limits, events);
            && NoWrap(s) && 1 in s.threads && s.threads[1] == Asleep(LowerAsks(c), 2)
            && Available(s.ledger, LowerAsks(c))
  {
    hide Run, Available, AfterTakePass;
    var free := Run(limits, before);
    RunExtend(limits, before, TakePass(1, false));
    SleepsAgain(free, c);
    RunExtend(limits, before + [TakePass(1, false)], TakePass(0, false));
    Overtaken(free, c);
    events := before + [TakePass(1, false)] + [TakePass(0, false)];
  }

  ghost predicate Freed(s: System, c: WorkClass)
  {
    && s.ledger.limits == Sizes(10, 1, 1, 1, 1) && s.restoredTotal == 0
    && s.threads == map[0 := Ready(VIEWER_ASKS, true), 1 := Ready(LowerAsks(c), true)]
    && s.ledger.used == 0 && s.ledger.allocations == map[] && s.ledger.nextId == 2
    && s.ledger.lowerDurable == 0 && s.ledger.speculativeDurable == 0 && !s.ledger.stopping
    && s.ledger.waiters == multiset{Viewer, c}
  }

  lemma SleepsAgain(s: System, c: WorkClass)
    requires Lower(c) && Freed(s, c)
    ensures var s' := AfterTakePass(s, 1, false);
            && s'.threads == map[0 := Ready(VIEWER_ASKS, true), 1 := Asleep(LowerAsks(c), 2)]
            && s'.ledger == s.ledger && s'.restoredTotal == 0
  {
    assert ShedIds(map[], 2, c) == [] && ShedIds(map[], 1, c) == [];
    assert ShedMarks(map[], 2, c) == map[];
  }

  lemma Overtaken(s: System, c: WorkClass)
    requires Lower(c) && Freed(s, c)
    ensures var s' := AfterTakePass(AfterTakePass(s, 1, false), 0, false);
            && s'.threads == map[1 := Asleep(LowerAsks(c), 2)] && NoWrap(s') && Available(s'.ledger, LowerAsks(c))
  {
    SleepsAgain(s, c);
  }

  /** A durable lower-class request larger than everything its class may durably hold. */
  predicate Oversized(limits: Limits, r: Request)
  {
    && Lower(r.cls) && !r.reclaimable && !r.owner.RpcFrame?
    && r.bytes > if r.cls.Loader? then DurableLowerCapacity(limits) else SpeculativeCapacity(limits)
  }

  predicate Quiet(s: System)
  {
    s.ledger.allocations == map[] && forall u | u in s.threads :: s.threads[u].Asleep?
  }

  /**
   With every lease given back and every caller asleep, the callers left are those whose
   request no lease stands in the way of but their own size, or speculative ones behind such a
   loader. No control or viewer caller is ever among them.
   */
  lemma QuietMeansOversized(limits: Limits, events: seq<Event>, t: nat)
    requires NoWrap(Run(limits, events)) && Quiet(Run(limits, events)) && t in Run(limits, events).threads
    ensures var s := Run(limits, events);
            || Oversized(limits, s.threads[t].request)
            || (&& s.threads[t].request.cls.Speculative?
                && exists u :: u in s.threads && s.threads[u].request.cls.Loader? && Oversized(limits, s.threads[u].request))
  {
    var s := Run(limits, events);
    RunKeeps(limits, events);
    forall k ensures Total(s.ledger.allocations, s.ledger.nextId, k) == 0 { TotalEmpty(s.ledger.nextId, k); }
    forall u | u in s.threads ensures !Available(s.ledger, s.threads[u].request) {
      assert SleeperJustified(s, s.threads[u].request, s.threads[u].since);
    }
    assert Waiting(s.threads, Control) == {} && Waiting(s.threads, Viewer) == {};
    if s.ledger.waiters[Loader] != 0 {
      assert Waiting(s.threads, Loader) != {};
      var u :| u in Waiting(s.threads, Loader);
      assert Oversized(limits, s.threads[u].request);
    }
  }

  // Headroom

  /**
   Law 1 over all runs: what acquire and try_acquire have granted to non-control classes never
   exceeds capacity less the control reserve, whatever has been restored.
   */
  lemma ControlHeadroom(limits: Limits, events: seq<Event>)
    requires NoWrap(Run(limits, events))
    ensures GrantedBytes(Run(limits, events), NonControl) <= limits.capacity - limits.control
  {
    RunKeeps(limits, events);
  }

  /** With nothing restored live, control is admitted at once while it stays inside its reserve. */
  lemma ControlAdmittedAtOnce(limits: Limits, events: seq<Event>, owner: MemoryOwner, bytes: nat, reclaimable: bool)
    requires var s := Run(limits, events);
             && NoWrap(s) && s.ledger.allocations.Keys !! s.restored
             && bytes + Total(s.ledger.allocations, s.ledger.nextId, ControlOnly) <= limits.control
    ensures Available(Run(limits, events).ledger, Request(Control, owner, bytes, reclaimable))
  {
    var s := Run(limits, events);
    RunKeeps(limits, events);
    UsedWithoutRestores(s);
  }

  lemma UsedWithoutRestores(s: System)
    requires Accounted(s.ledger) && WithinBudgets(s) && s.ledger.allocations.Keys !! s.restored
    ensures var m, n := s.ledger.allocations, s.ledger.nextId;
            && s.ledger.used <= Total(m, n, ControlOnly) + NonControlCapacity(s.ledger.limits)
            && s.ledger.used <= Total(m, n, OutsideLowerBudget) + DurableLowerCapacity(s.ledger.limits)
  {
    assert GrantedLive(s) == s.ledger.allocations;
    TotalSplit(s.ledger.allocations, s.ledger.nextId, All, ControlOnly, NonControl);
    TotalSplit(s.ledger.allocations, s.ledger.nextId, All, OutsideLowerBudget, LowerBudget);
  }

  /**
   Law 2: with nothing restored live, a viewer is admitted at once while it fits the viewer
   reserve together with control, viewer, and the lower classes' reclaimable and RPC-frame bytes.
   */
  lemma ViewerAdmittedAtOnce(limits: Limits, events: seq<Event>, owner: MemoryOwner, bytes: nat, reclaimable: bool)
    requires var s := Run(limits, events);
             && NoWrap(s) && s.ledger.allocations.Keys !! s.restored
             && bytes + Total(s.ledger.allocations, s.ledger.nextId, OutsideLowerBudget) <= limits.viewer
    ensures Available(Run(limits, events).ledger, Request(Viewer, owner, bytes, reclaimable))
  {
    var s := Run(limits, events);
    RunKeeps(limits, events);
    UsedWithoutRestores(s);
  }

  /** The lower classes' durable budgets, over all runs. */
  lemma LowerBudgets(limits: Limits, events: seq<Event>)
    requires NoWrap(Run(limits, events))
    ensures GrantedBytes(Run(limits, events), LowerBudget) <= limits.capacity - limits.control - limits.viewer
    ensures GrantedBytes(Run(limits, events), SpeculativeBudget) <=
            limits.capacity - limits.control - limits.viewer - limits.loader
  {
    RunKeeps(limits, events);
  }

  // Priority

  /** `waiters_` is the number of threads waiting, through cancel, deadline, stop and grant. */
  lemma WaitersExact(limits: Limits, events: seq<Event>, c: WorkClass)
    ensures Run(limits, events).ledger.waiters[c] == |Waiting(Run(limits, events).threads, c)|
  {
    RunKeepsBooks(limits, events);
  }

  /** The step enters a new lease by acquire or try_acquire. */
  predicate Grants(s: System, e: Event)
  {
    !e.Restore? && s.ledger.nextId in Apply(s, e).ledger.allocations
  }

  /**
   The gate: no lower-class lease is granted while a control or viewer caller waits, and no
   speculative one while a loader waits, an RPC frame inside the reassembly reserve apart.
   */
  lemma PriorityGate(limits: Limits, events: seq<Event>, e: Event)
    requires Grants(Run(limits, events), e)
    ensures var s := Run(limits, events);
            var a := Apply(s, e).ledger.allocations[s.ledger.nextId];
            && (Lower(a.cls) ==> Waiting(s.threads, Control) == {} && Waiting(s.threads, Viewer) == {})
            && (a.cls.Speculative? && Waiting(s.threads, Loader) != {} ==>
                  a.owner.RpcFrame? && Add64(s.ledger.ownerBytes[RpcFrame], a.bytes) <= limits.reassembly)
  {
    var s := Run(limits, events);
    RunKeepsBooks(limits, events);
    var a := Apply(s, e).ledger.allocations[s.ledger.nextId];
    GrantWasAvailable(s, e);
    GateOfAvailable(s.ledger, Request(a.cls, a.owner, a.bytes, a.reclaimable));
  }

  /**
   Reassembly is never held up by what waits for it: inside its reserve an RPC frame passes whatever
   loaders wait and whatever durable work holds, once it fits and no control or viewer caller waits.
   */
  lemma ReassemblyAdmitted(limits: Limits, events: seq<Event>, c: WorkClass, bytes: nat, reclaimable: bool)
    requires var s := Run(limits, events);
             && NoWrap(s) && Lower(c) && Waiting(s.threads, Control) == {} && Waiting(s.threads, Viewer) == {}
             && bytes + Total(s.ledger.allocations, s.ledger.nextId, OwnedBy(RpcFrame)) <= limits.reassembly
             && bytes + Total(s.ledger.allocations, s.ledger.nextId, All) <= limits.capacity - limits.control
    ensures Available(Run(limits, events).ledger, Request(c, RpcFrame, bytes, reclaimable))
  {
    RunKeeps(limits, events);
  }

  lemma GrantWasAvailable(s: System, e: Event)
    requires IdsBelowNext(s) && Grants(s, e)
    ensures var a := Apply(s, e).ledger.allocations[s.ledger.nextId];
            Available(s.ledger, Request(a.cls, a.owner, a.bytes, a.reclaimable))
  {
    if e.TakePass? && e.thread in s.threads && s.threads[e.thread].Ready? {
      RefusalGrantsNothing(s, e.thread, e.expired);
    }
  }

  lemma RefusalGrantsNothing(s: System, t: nat, expired: bool)
    requires IdsBelowNext(s) && t in s.threads && s.threads[t].Ready?
    ensures s.ledger.nextId in AfterTakePass(s, t, expired).ledger.allocations ==>
              Available(s.ledger, s.threads[t].request) && !s.ledger.stopping && !expired
  {
  }

  lemma GateOfAvailable(l: Ledger, r: Request)
    requires Available(l, r)
    ensures Lower(r.cls) ==> l.waiters[Control] == 0 && l.waiters[Viewer] == 0
    ensures r.cls.Speculative? && l.waiters[Loader] != 0 ==>
              r.owner.RpcFrame? && Add64(l.ownerBytes[RpcFrame], r.bytes) <= l.limits.reassembly
  {
  }

  // Accounting

  /** Every counter is the sum it stands for, so giving back any live lease underflows none. */
  lemma CountersExact(limits: Limits, events: seq<Event>, id: nat)
    requires NoWrap(Run(limits, events))
    ensures Accounted(Run(limits, events).ledger)
    ensures id in Run(limits, events).ledger.allocations ==> CoversLease(Run(limits, events).ledger, id)
  {
    RunKeeps(limits, events);
    if id in Run(limits, events).ledger.allocations { AccountedCovers(Run(limits, events).ledger, id); }
  }

  /** Each counter the lease was charged to still holds at least its bytes. */
  predicate CoversLease(l: Ledger, id: nat)
    requires id in l.allocations
  {
    var a := l.allocations[id];
    && a.bytes <= l.used && a.bytes <= l.ownerBytes[a.owner]
    && (a.reclaimable ==> a.bytes <= l.reclaimable)
    && (!a.reclaimable && Lower(a.cls) ==> a.bytes <= l.lowerDurable)
    && (!a.reclaimable && a.cls.Speculative? ==> a.bytes <= l.speculativeDurable)
  }

  lemma AccountedCovers(l: Ledger, id: nat)
    requires Accounted(l) && id in l.allocations && id < l.nextId
    ensures CoversLease(l, id)
  {
    TotalRemove(l.allocations, l.nextId, id, All);
    TotalRemove(l.allocations, l.nextId, id, OwnedBy(l.allocations[id].owner));
    TotalRemove(l.allocations, l.nextId, id, Reclaimable);
    TotalRemove(l.allocations, l.nextId, id, LowerDurable);
    TotalRemove(l.allocations, l.nextId, id, SpeculativeDurable);
  }

  /** Control comes before the rest, a viewer before the lower classes, a loader before speculative work. */
  predicate Outranks(higher: WorkClass, lower: WorkClass)
  {
    match higher
    case Control => lower != Control
    case Viewer => lower == Loader || lower == Speculative
    case Loader => lower == Speculative
    case Speculative => false
  }

  lemma PriorityIsRank(a: WorkClass, b: WorkClass)
    ensures Priority(a) < Priority(b) <==> Outranks(b, a)
  {
  }

  /**
   Shedding over all runs: `shed_requests_` counts the callbacks handed out, no allocation is
   asked twice, and each was reclaimable and of a class the asking one outranks.
   */
  lemma ShedOncePerAllocation(limits: Limits, events: seq<Event>)
    ensures var s := Run(limits, events);
            && s.ledger.shedRequests == |s.asks|
            && AsksDistinct(s.asks)
            && forall i | 0 <= i < |s.asks| ::
                 s.asks[i].allocation.reclaimable && Outranks(s.asks[i].incoming, s.asks[i].allocation.cls)
  {
    hide Run;
    RunKeepsBooks(limits, events);
    forall a, b ensures Priority(a) < Priority(b) <==> Outranks(b, a) { PriorityIsRank(a, b); }
    hide Priority, Outranks;
  }
}
