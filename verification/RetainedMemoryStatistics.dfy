/**
 The ledger's statistics, against what happened in the run.
 */
module RetainedMemoryStatistics {
  import opened RetainedMemory
  import opened RetainedMemoryRuns
  import opened RetainedMemoryLaws
  import opened Words

  // What happened

  predicate GrantsTo(s: System, e: Event, c: WorkClass)
  {
    Grants(s, e) && Apply(s, e).ledger.allocations[s.ledger.nextId].cls == c
  }

  /** A caller that was not waiting yet is refused. */
  predicate BeginsToWait(s: System, e: Event, c: WorkClass)
  {
    var after := Apply(s, e);
    && e.TakePass? && e.thread in s.threads && !IsWaiting(s.threads[e.thread])
    && e.thread in after.threads && IsWaiting(after.threads[e.thread]) && s.threads[e.thread].request.cls == c
  }

  /** A caller leaves with nothing. */
  predicate GivesUp(s: System, e: Event)
  {
    e.TakePass? && e.thread in s.threads && e.thread !in Apply(s, e).threads && !Grants(s, e)
  }

  function One(b: bool): nat { if b then 1 else 0 }

  function Admissions(limits: Limits, events: seq<Event>, c: WorkClass): nat
  {
    if events == [] then 0
    else
      var before := events[..|events| - 1];
      Admissions(limits, before, c) + One(GrantsTo(Run(limits, before), events[|events| - 1], c))
  }

  function Waits(limits: Limits, events: seq<Event>, c: WorkClass): nat
  {
    if events == [] then 0
    else
      var before := events[..|events| - 1];
      Waits(limits, before, c) + One(BeginsToWait(Run(limits, before), events[|events| - 1], c))
  }

  function GivenUp(limits: Limits, events: seq<Event>): nat
  {
    if events == [] then 0
    else
      var before := events[..|events| - 1];
      GivenUp(limits, before) + One(GivesUp(Run(limits, before), events[|events| - 1]))
  }

  /** The most bytes in use at any point. */
  function Peak(limits: Limits, events: seq<Event>): nat
  {
    if events == [] then 0 else Max(Peak(limits, events[..|events| - 1]), Run(limits, events).ledger.used)
  }

  // And what is reported

  ghost predicate StatisticsHold(limits: Limits, events: seq<Event>, l: Ledger, restored: nat)
  {
    && (forall c :: l.admissions[c] == Admissions(limits, events, c))
    && (forall c :: l.waits[c] == Waits(limits, events, c))
    && l.cancelledWaits == GivenUp(limits, events)
    && l.peak == Peak(limits, events) >= l.used
    && l.restoredBytes == restored
  }

  /** What one step adds. */
  ghost predicate StepAdds(s: System, e: Event, l: Ledger)
  {
    && (forall c :: l.admissions[c] == s.ledger.admissions[c] + One(GrantsTo(s, e, c)))
    && (forall c :: l.waits[c] == s.ledger.waits[c] + One(BeginsToWait(s, e, c)))
    && l.cancelledWaits == s.ledger.cancelledWaits + One(GivesUp(s, e))
    && l.peak == Max(s.ledger.peak, l.used)
    && l.restoredBytes + s.restoredTotal == s.ledger.restoredBytes + Apply(s, e).restoredTotal
  }

  lemma OtherStepAdds(s: System, e: Event)
    requires Inv(s) && NoWrap(Apply(s, e)) && !e.TakePass?
    requires s.ledger.used <= s.ledger.peak && s.ledger.restoredBytes == s.restoredTotal
    ensures StepAdds(s, e, Apply(s, e).ledger)
  {
    hide WithinBudgets, SleepersJustified, AsksExact, WaitersCounted, StepAdds;
    if e.Release? && e.id in s.ledger.allocations {
      AccountedCovers(s.ledger, e.id);
      ReleaseAdds(s, e.id);
    } else if e.Restore? {
      RestoreAdds(s, e);
    } else if e.TryAcquire? {
      TryAdds(s, e);
    } else {
      QuietAdds(s, e);
    }
  }

  lemma ReleaseAdds(s: System, id: nat)
    requires IdsBelowNext(s) && id in s.ledger.allocations && s.ledger.allocations[id].bytes <= s.ledger.used
    requires s.ledger.used <= s.ledger.peak
    ensures StepAdds(s, Release(id), Apply(s, Release(id)).ledger)
  {
  }

  lemma RestoreAdds(s: System, e: Event)
    requires IdsBelowNext(s) && e.Restore? && NoWrap(Apply(s, e)) && s.ledger.restoredBytes == s.restoredTotal
    ensures StepAdds(s, e, Apply(s, e).ledger)
  {
  }

  lemma TryAdds(s: System, e: Event)
    requires IdsBelowNext(s) && e.TryAcquire? && s.ledger.used <= s.ledger.peak
    ensures StepAdds(s, e, Apply(s, e).ledger)
  {
    hide Available;
  }

  lemma QuietAdds(s: System, e: Event)
    requires IdsBelowNext(s) && s.ledger.used <= s.ledger.peak
    requires e.Enter? || e.Wake? || e.Stop? || (e.Release? && e.id !in s.ledger.allocations)
    ensures StepAdds(s, e, Apply(s, e).ledger)
  {
    hide Available, Notified, AfterTakePass;
  }

  lemma PassAdds(s: System, t: nat, expired: bool)
    requires IdsBelowNext(s) && t in s.threads && s.threads[t].Ready? && s.ledger.used <= s.ledger.peak
    ensures StepAdds(s, TakePass(t, expired), Apply(s, TakePass(t, expired)).ledger)
  {
    hide Available;
    if s.ledger.stopping || expired {
      LeavingAdds(s, t, expired);
    } else if Available(s.ledger, s.threads[t].request) {
      AdmittedAdds(s, t);
    } else {
      RefusedShape(s, t);
      RefusedAdds(s, t, AfterTakePass(s, t, false));
    }
    hide AfterTakePass;
  }

  lemma LeavingAdds(s: System, t: nat, expired: bool)
    requires IdsBelowNext(s) && t in s.threads && s.threads[t].Ready? && (s.ledger.stopping || expired)
    requires s.ledger.used <= s.ledger.peak
    ensures StepAdds(s, TakePass(t, expired), AfterTakePass(s, t, expired).ledger)
  {
    hide Available, ShedIds, Asks;
  }

  lemma AdmittedAdds(s: System, t: nat)
    requires IdsBelowNext(s) && t in s.threads && s.threads[t].Ready?
    requires !s.ledger.stopping && Available(s.ledger, s.threads[t].request)
    ensures StepAdds(s, TakePass(t, false), AfterTakePass(s, t, false).ledger)
  {
    hide Available, ShedIds, Asks;
  }

  lemma RefusedAdds(s: System, t: nat, after: System)
    requires IdsBelowNext(s) && t in s.threads && s.threads[t].Ready? && Refused(s, t, after)
    requires after == AfterTakePass(s, t, false) && s.ledger.used <= s.ledger.peak
    ensures StepAdds(s, TakePass(t, false), after.ledger)
  {
    assert after == Apply(s, TakePass(t, false));
    hide Apply, AfterTakePass, Available, ShedIds, Asks, Sheddable;
  }

  lemma StepStatistics(limits: Limits, events: seq<Event>, e: Event)
    requires var s := Run(limits, events);
             StatisticsHold(limits, events, s.ledger, s.restoredTotal) && StepAdds(s, e, Apply(s, e).ledger)
    ensures var s := Run(limits, events + [e]); StatisticsHold(limits, events + [e], s.ledger, s.restoredTotal)
  {
    CountsStep(limits, events, e);
    RunExtend(limits, events, e);
    hide Run, Apply, GrantsTo, BeginsToWait, GivesUp, Admissions, Waits, GivenUp, Peak;
  }

  lemma CountsStep(limits: Limits, events: seq<Event>, e: Event)
    ensures var s, more := Run(limits, events), events + [e];
            && (forall c :: Admissions(limits, more, c) == Admissions(limits, events, c) + One(GrantsTo(s, e, c)))
            && (forall c :: Waits(limits, more, c) == Waits(limits, events, c) + One(BeginsToWait(s, e, c)))
            && GivenUp(limits, more) == GivenUp(limits, events) + One(GivesUp(s, e))
            && Peak(limits, more) == Max(Peak(limits, events), Run(limits, more).ledger.used)
  {
    hide Run, Apply, GrantsTo, BeginsToWait, GivesUp;
    var more := events + [e];
    assert more[..|events|] == events && more[|events|] == e;
  }

  /** After every run the statistics are its grants, first refusals and departures, the most bytes ever in use, and those restored. */
  lemma {:induction false} StatisticsExact(limits: Limits, events: seq<Event>)
    requires NoWrap(Run(limits, events))
    ensures StatisticsHold(limits, events, Run(limits, events).ledger, Run(limits, events).restoredTotal)
  {
    if events == [] {
      NothingHappened(limits);
    } else {
      var before, e := events[..|events| - 1], events[|events| - 1];
      assert before + [e] == events;
      RunExtend(limits, before, e);
      hide Run;
      StepFrame(Run(limits, before), e);
      StatisticsExact(limits, before);
      RunKeeps(limits, before);
      StepIsCounted(limits, before, e);
      StepStatistics(limits, before, e);
    }
  }

  lemma StepIsCounted(limits: Limits, before: seq<Event>, e: Event)
    requires var s := Run(limits, before);
             Inv(s) && NoWrap(Apply(s, e)) && StatisticsHold(limits, before, s.ledger, s.restoredTotal)
    ensures StepAdds(Run(limits, before), e, Apply(Run(limits, before), e).ledger)
  {
    hide Run, Admissions, Waits, GivenUp, Peak, Available;
    var s := Run(limits, before);
    if !e.TakePass? {
      hide Inv, Apply, StepAdds;
      OtherStepAdds(s, e);
    } else if e.thread in s.threads && s.threads[e.thread].Ready? {
      hide Apply, StepAdds;
      PassAdds(s, e.thread, e.expired);
    } else {
      NothingAdded(s, e);
    }
  }

  lemma NothingAdded(s: System, e: Event)
    requires IdsBelowNext(s) && e.TakePass? && !(e.thread in s.threads && s.threads[e.thread].Ready?)
    requires s.ledger.used <= s.ledger.peak
    ensures StepAdds(s, e, Apply(s, e).ledger)
  {
  }

  lemma NothingHappened(limits: Limits)
    ensures StatisticsHold(limits, [], Start(limits).ledger, 0)
  {
  }
}
