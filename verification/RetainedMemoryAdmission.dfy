/**
 What the ledger admits and what it asks back, exactly and over every run: stated in sums over the
 live leases, in the threads that wait and in the order of the classes, apart from the counters and
 branches that decide it.
 */
module RetainedMemoryAdmission {
  import opened Options
  import opened RetainedMemory
  import opened RetainedMemoryTotals
  import opened RetainedMemoryRuns
  import opened RetainedMemoryLaws

  // Admission

  /** Bytes live of one kind. */
  function Live(s: System, k: Kind): nat { Total(s.ledger.allocations, s.ledger.nextId, k) }

  predicate NoneWaiting(s: System, c: WorkClass) { Waiting(s.threads, c) == {} }

  /** An RPC frame that fits the reserve for reassembly. */
  predicate InReassemblyReserve(s: System, r: Request)
  {
    r.owner == RpcFrame && r.bytes + Live(s, OwnedBy(RpcFrame)) <= s.ledger.limits.reassembly
  }

  /** Durable work that fits what the lower classes may hold, and speculative work its part of that. */
  predicate InDurableBudgets(s: System, r: Request)
  {
    var limits := s.ledger.limits;
    && r.bytes + Live(s, LowerDurable) <= limits.capacity - limits.control - limits.viewer
    && (r.cls == Speculative ==>
          r.bytes + Live(s, SpeculativeDurable) <= limits.capacity - limits.control - limits.viewer - limits.loader)
  }

  /** A lower class passes behind no control or viewer caller; beyond the reassembly reserve a budget and a loader count too. */
  predicate LowerPasses(s: System, r: Request)
  {
    && NoneWaiting(s, Control) && NoneWaiting(s, Viewer)
    && (|| InReassemblyReserve(s, r)
        || (&& (r.cls == Speculative ==> NoneWaiting(s, Loader))
            && (r.reclaimable || r.owner == RpcFrame || InDurableBudgets(s, r))))
  }

  predicate Admissible(s: System, r: Request)
  {
    var limits := s.ledger.limits;
    && r.bytes + Live(s, All) <= (if r.cls == Control then limits.capacity else limits.capacity - limits.control)
    && (r.cls in {Loader, Speculative} ==> LowerPasses(s, r))
  }

  lemma RpcWithinAll(m: map<nat, Allocation>, n: nat, o: MemoryOwner)
    ensures Total(m, n, OwnedBy(o)) <= Total(m, n, All)
  {
    TotalAtMost(m, m, n, OwnedBy(o), All);
  }

  lemma WaitingNone(s: System, c: WorkClass)
    requires WaitersCounted(s)
    ensures s.ledger.waiters[c] == 0 <==> NoneWaiting(s, c)
  {
  }

  /** The rule is what it says in sums and waiting threads, for every request after every run. */
  lemma AdmissionExact(limits: Limits, events: seq<Event>, r: Request)
    requires NoWrap(Run(limits, events))
    ensures Available(Run(limits, events).ledger, r) <==> Admissible(Run(limits, events), r)
  {
    hide Run;
    var s := Run(limits, events);
    RunKeeps(limits, events);
    AdmissionInSums(s, r);
  }

  lemma AdmissionInSums(s: System, r: Request)
    requires Accounted(s.ledger) && WaitersCounted(s)
    ensures Available(s.ledger, r) <==> Admissible(s, r)
  {
    RpcWithinAll(s.ledger.allocations, s.ledger.nextId, RpcFrame);
    WaitingNone(s, Control);
    WaitingNone(s, Viewer);
    WaitingNone(s, Loader);
    hide Total, Waiting;
  }

  // Who comes in

  /** A caller comes to its first pass, with at least one byte asked for, exactly when its class could ever be given as much. */
  lemma EnterExact(s: System, e: Event)
    requires e.Enter? && e.thread !in s.threads
    ensures var limits, bytes := s.ledger.limits, if e.requested == 0 then 1 else e.requested;
            Apply(s, e) ==
            if (e.hasShed || !e.reclaimable) && bytes <= (if e.cls == Control then limits.capacity else limits.capacity - limits.control)
            then s.(threads := s.threads[e.thread := Ready(Request(e.cls, e.owner, bytes, e.reclaimable), false)])
            else s
  {
  }

  // Who is granted a lease

  /** The request an event decides on, if it decides on one. */
  function Decision(s: System, e: Event): Option<Request>
  {
    if e.TryAcquire? && (e.hasShed || !e.reclaimable) then
      Some(Request(e.cls, e.owner, if e.requested == 0 then 1 else e.requested, e.reclaimable))
    else if e.TakePass? && !e.expired && e.thread in s.threads && s.threads[e.thread].Ready? then
      Some(s.threads[e.thread].request)
    else None
  }

  /** The lease of a request. */
  function LeaseOf(r: Request): Allocation { Allocation(r.cls, r.owner, r.bytes, r.reclaimable, false) }

  lemma DecisionOutcome(s: System, e: Event)
    ensures var after, decided := Apply(s, e).ledger, Decision(s, e);
            if decided.Some? && !s.ledger.stopping && Available(s.ledger, decided.value)
            then after.allocations == s.ledger.allocations[s.ledger.nextId := LeaseOf(decided.value)]
            else !e.Restore? ==> after.allocations.Keys <= s.ledger.allocations.Keys
  {
    hide Available;
    if e.TakePass? && e.thread in s.threads && s.threads[e.thread].Ready? {
      PassOutcome(s, e.thread, e.expired);
      hide AfterTakePass;
    }
  }

  lemma PassOutcome(s: System, t: nat, expired: bool)
    requires t in s.threads && s.threads[t].Ready?
    ensures var after, r := AfterTakePass(s, t, expired).ledger, s.threads[t].request;
            if !expired && !s.ledger.stopping && Available(s.ledger, r)
            then after.allocations == s.ledger.allocations[s.ledger.nextId := LeaseOf(r)]
            else after.allocations.Keys == s.ledger.allocations.Keys
  {
    hide Available, ShedIds;
  }

  /** A lease is granted exactly to a decided request that is admissible while the ledger is not stopping, and is the one asked for. */
  lemma GrantExact(limits: Limits, events: seq<Event>, e: Event)
    requires NoWrap(Run(limits, events)) && !e.Restore?
    ensures var s := Run(limits, events);
            var after, decided := Apply(s, e).ledger, Decision(s, e);
            if decided.Some? && !s.ledger.stopping && Admissible(s, decided.value)
            then after.allocations == s.ledger.allocations[s.ledger.nextId := LeaseOf(decided.value)]
            else after.allocations.Keys <= s.ledger.allocations.Keys
  {
    hide Run, Apply, Available, Admissible;
    var s := Run(limits, events);
    RunKeeps(limits, events);
    DecisionOutcome(s, e);
    if Decision(s, e).Some? {
      AdmissionInSums(s, Decision(s, e).value);
    }
  }

  // Shedding

  /** A lease the class may ask back. */
  predicate Owed(a: Allocation, c: WorkClass) { a.reclaimable && Outranks(c, a.cls) }

  /** Every lease the thread's class may ask back has then been asked back, and it sleeps when that was so before. */
  ghost predicate AsksAll(s: System, t: nat, after: System)
    requires t in s.threads
  {
    var m, c := s.ledger.allocations, s.threads[t].request.cls;
    && after.ledger.allocations.Keys == m.Keys && t in after.threads
    && s.asks <= after.asks
    && (forall i | |s.asks| <= i < |after.asks| :: after.asks[i].incoming == c)
    && (forall id | id in m :: AskedOf(after.asks, id) <==> AskedOf(s.asks, id) || Owed(m[id], c))
    && (after.threads[t].Asleep? <==> forall id | id in m && Owed(m[id], c) :: AskedOf(s.asks, id))
  }

  /** A pass that is refused asks back every lease its class may, each of them once, and no other. */
  lemma RefusedPassAsksAll(limits: Limits, events: seq<Event>, t: nat)
    requires var s := Run(limits, events);
             && NoWrap(s) && t in s.threads && s.threads[t].Ready? && !s.ledger.stopping
             && !Admissible(s, s.threads[t].request)
    ensures AsksAll(Run(limits, events), t, Apply(Run(limits, events), TakePass(t, false)))
  {
    hide Run;
    var s := Run(limits, events);
    RunKeeps(limits, events);
    AdmissionInSums(s, s.threads[t].request);
    RefusedAsks(s, t);
  }

  lemma {:induction false} AsksOf(m: map<nat, Allocation>, n: nat, c: WorkClass)
    ensures forall i | 0 <= i < |Asks(m, n, c)| :: Asks(m, n, c)[i].incoming == c
    ensures forall id: nat :: AskedOf(Asks(m, n, c), id) <==> id < n && id in m && Sheddable(m[id], c)
    ensures |Asks(m, n, c)| == |ShedIds(m, n, c)|
  {
    hide Sheddable;
    if n > 0 {
      AsksOf(m, n - 1, c);
      var before := Asks(m, n - 1, c);
      forall id: nat
        ensures AskedOf(Asks(m, n, c), id) <==> id < n && id in m && Sheddable(m[id], c)
      {
        if AskedOf(before, id) {
          var i :| 0 <= i < |before| && before[i].id == id;
          assert Asks(m, n, c)[i].id == id;
        }
        if id == n - 1 && id in m && Sheddable(m[id], c) {
          assert Asks(m, n, c)[|before|].id == id;
        }
      }
    }
  }

  lemma AskedTogether(a: seq<Ask>, b: seq<Ask>, id: nat)
    ensures AskedOf(a + b, id) <==> AskedOf(a, id) || AskedOf(b, id)
  {
    if AskedOf(a, id) {
      var i :| 0 <= i < |a| && a[i].id == id;
      assert (a + b)[i].id == id;
    }
    if AskedOf(b, id) {
      var i :| 0 <= i < |b| && b[i].id == id;
      assert (a + b)[|a| + i].id == id;
    }
  }

  lemma NothingAsked(asks: seq<Ask>)
    ensures asks == [] <==> forall id :: !AskedOf(asks, id)
  {
    if asks != [] {
      assert AskedOf(asks, asks[0].id);
    }
  }

  lemma SheddableIsOwed(a: Allocation, c: WorkClass)
    ensures Sheddable(a, c) <==> Owed(a, c) && !a.shedRequested
  {
    PriorityIsRank(a.cls, c);
  }

  lemma RefusedAsks(s: System, t: nat)
    requires IdsBelowNext(s) && AsksExact(s) && t in s.threads && s.threads[t].Ready?
    requires !s.ledger.stopping && !Available(s.ledger, s.threads[t].request)
    ensures AsksAll(s, t, Apply(s, TakePass(t, false)))
  {
    var m, n, c := s.ledger.allocations, s.ledger.nextId, s.threads[t].request.cls;
    var after := Apply(s, TakePass(t, false));
    RefusedShape(s, t);
    SleepsOrAsks(s, t);
    hide Apply, AfterTakePass, Available, Asks, ShedIds, Sheddable;
    AsksOf(m, n, c);
    NothingAsked(Asks(m, n, c));
    forall id | id in m
      ensures AskedOf(after.asks, id) <==> AskedOf(s.asks, id) || Owed(m[id], c)
      ensures AskedOf(Asks(m, n, c), id) <==> Owed(m[id], c) && !AskedOf(s.asks, id)
    {
      AskedTogether(s.asks, Asks(m, n, c), id);
      SheddableIsOwed(m[id], c);
    }
  }

  lemma SleepsOrAsks(s: System, t: nat)
    requires t in s.threads && s.threads[t].Ready?
    requires !s.ledger.stopping && !Available(s.ledger, s.threads[t].request)
    ensures var after, c := AfterTakePass(s, t, false), s.threads[t].request.cls;
            after.threads[t].Asleep? <==> ShedIds(s.ledger.allocations, s.ledger.nextId, c) == []
  {
    hide Available, ShedIds, Asks, ShedMarks;
  }

  // Sleepers have asked for all they may

  /** Every lease older than its sleep that a sleeper may ask back has been asked back. */
  ghost predicate SleeperAsked(s: System, t: nat)
    requires t in s.threads && s.threads[t].Asleep?
  {
    var m, thread := s.ledger.allocations, s.threads[t];
    forall id | id in m && id < thread.since && Owed(m[id], thread.request.cls) :: m[id].shedRequested
  }

  ghost predicate SleepersAsked(s: System)
  {
    forall t | t in s.threads && s.threads[t].Asleep? :: s.threads[t].since <= s.ledger.nextId && SleeperAsked(s, t)
  }

  /** Leases below the number are only given back or marked. */
  ghost predicate OldLeasesKept(m: map<nat, Allocation>, n: nat, after: map<nat, Allocation>)
  {
    forall id | id in after && id < n ::
      && id in m && after[id].cls == m[id].cls && after[id].reclaimable == m[id].reclaimable
      && (m[id].shedRequested ==> after[id].shedRequested)
  }

  lemma StepKeepsLeases(s: System, e: Event)
    ensures s.ledger.nextId <= Apply(s, e).ledger.nextId
    ensures OldLeasesKept(s.ledger.allocations, s.ledger.nextId, Apply(s, e).ledger.allocations)
  {
    hide Available, OldLeasesKept;
    var m, n := s.ledger.allocations, s.ledger.nextId;
    var after := Apply(s, e).ledger;
    if e.TakePass? && e.thread in s.threads && s.threads[e.thread].Ready? {
      PassKeepsLeases(s, e.thread, e.expired);
      hide AfterTakePass;
    } else {
      NoneChanged(m, n, after.allocations);
    }
  }

  lemma NoneChanged(m: map<nat, Allocation>, n: nat, after: map<nat, Allocation>)
    requires forall id | id in after && id != n :: id in m && after[id] == m[id]
    ensures OldLeasesKept(m, n, after)
  {
  }

  lemma MarkedKept(m: map<nat, Allocation>, n: nat, c: WorkClass)
    ensures OldLeasesKept(m, n, ShedMarks(m, n, c))
  {
    hide Sheddable;
  }

  lemma PassKeepsLeases(s: System, t: nat, expired: bool)
    requires t in s.threads && s.threads[t].Ready?
    ensures s.ledger.nextId <= AfterTakePass(s, t, expired).ledger.nextId
    ensures OldLeasesKept(s.ledger.allocations, s.ledger.nextId, AfterTakePass(s, t, expired).ledger.allocations)
  {
    hide Available, ShedIds, ShedMarks, Asks, OldLeasesKept;
    var m, n := s.ledger.allocations, s.ledger.nextId;
    NoneChanged(m, n, m);
    NoneChanged(m, n, m[n := LeaseOf(s.threads[t].request)]);
    MarkedKept(m, n, s.threads[t].request.cls);
  }

  /** Only a refused pass with nothing left to ask puts its thread to sleep. */
  lemma StepSleeps(s: System, e: Event, t: nat)
    requires t in Apply(s, e).threads && Apply(s, e).threads[t].Asleep?
    ensures (t in s.threads && Apply(s, e).threads[t] == s.threads[t]) ||
            (&& t in s.threads && s.threads[t].Ready? && e == TakePass(t, false) && !s.ledger.stopping
             && Apply(s, e).threads[t] == Asleep(s.threads[t].request, s.ledger.nextId)
             && !Available(s.ledger, s.threads[t].request)
             && ShedIds(s.ledger.allocations, s.ledger.nextId, s.threads[t].request.cls) == [])
  {
    hide Available;
  }

  lemma {:induction false} NoneShed(m: map<nat, Allocation>, n: nat, c: WorkClass, id: nat)
    requires ShedIds(m, n, c) == [] && id < n && id in m
    ensures !Sheddable(m[id], c)
    decreases n
  {
    hide Sheddable;
    if id < n - 1 {
      NoneShed(m, n - 1, c, id);
    }
  }

  lemma StepKeepsAsked(s: System, e: Event)
    requires SleepersAsked(s)
    ensures SleepersAsked(Apply(s, e))
  {
    var after := Apply(s, e);
    StepKeepsLeases(s, e);
    forall t | t in after.threads && after.threads[t].Asleep?
      ensures after.threads[t].since <= after.ledger.nextId && SleeperAsked(after, t)
    {
      StepSleeps(s, e, t);
      hide Apply, Available;
      if t in s.threads && after.threads[t] == s.threads[t] {
        assert SleeperAsked(s, t);
      } else {
        FallsAsleepAsked(s, after, t);
      }
    }
  }

  lemma FallsAsleepAsked(s: System, after: System, t: nat)
    requires OldLeasesKept(s.ledger.allocations, s.ledger.nextId, after.ledger.allocations)
    requires t in s.threads && t in after.threads
    requires after.threads[t] == Asleep(s.threads[t].request, s.ledger.nextId)
    requires ShedIds(s.ledger.allocations, s.ledger.nextId, s.threads[t].request.cls) == []
    ensures SleeperAsked(after, t)
  {
    var c := s.threads[t].request.cls;
    forall id | id in after.ledger.allocations && id < s.ledger.nextId && Owed(after.ledger.allocations[id], c)
      ensures after.ledger.allocations[id].shedRequested
    {
      NoneShed(s.ledger.allocations, s.ledger.nextId, c, id);
      SheddableIsOwed(s.ledger.allocations[id], c);
    }
  }

  lemma {:induction false} RunKeepsAsked(limits: Limits, events: seq<Event>)
    ensures SleepersAsked(Run(limits, events))
  {
    hide Apply, SleepersAsked;
    if events == [] {
      NobodySleeps(limits);
    } else {
      RunKeepsAsked(limits, events[..|events| - 1]);
      StepKeepsAsked(Run(limits, events[..|events| - 1]), events[|events| - 1]);
    }
  }

  lemma NobodySleeps(limits: Limits)
    ensures SleepersAsked(Start(limits))
  {
  }

  /** After every run, no sleeper waits for a lease older than its sleep that it could have asked back and did not. */
  lemma NoSleeperHeldUnasked(limits: Limits, events: seq<Event>, t: nat, id: nat)
    requires var s := Run(limits, events);
             t in s.threads && s.threads[t].Asleep? && id in s.ledger.allocations && id < s.threads[t].since
    ensures var s := Run(limits, events);
            Owed(s.ledger.allocations[id], s.threads[t].request.cls) ==> AskedOf(s.asks, id)
  {
    hide Run;
    RunKeepsAsked(limits, events);
    RunKeepsBooks(limits, events);
    assert SleeperAsked(Run(limits, events), t);
  }
}
