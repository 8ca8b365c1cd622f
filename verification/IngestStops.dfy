/**
 How long a pause or cancel of a whole job stands: exactly until a store that does not look at the
 stored state, and for good exactly when no worker is at work on the job.
 */
module IngestStops {
  import opened IngestJobs
  import opened IngestRuns
  import opened IngestLaws

  /** The stores that do not look at the stored state write the state of the copy. */
  predicate Overrides(s: System, e: Event, id: Id)
    requires id in s.jobs
  {
    e.StoreUnchecked? && AtWork(s, e.w) && s.workers[e.w].id == id && s.workers[e.w].copy.state != s.jobs[id].state
  }

  /** A worker's step leaves a pause or cancel standing exactly when it is not such a store of another state. */
  lemma WorkerLeavesStop(s: System, e: Event, id: Id)
    requires Inv(s) && !ByUser(e) && id in s.jobs && Stopped(s.jobs[id].state)
    ensures id in Apply(s, e).jobs
    ensures Apply(s, e).jobs[id].state == s.jobs[id].state <==> !Overrides(s, e, id)
  {
    hide KeepControls;
    if Storing(e) && AtWork(s, e.w) && s.workers[e.w].id != id {
      StoreEffect(s, e);
      hide StoreStep;
    }
  }

  /** A user or the catalogue thread acts on the job. */
  predicate ActsOn(e: Event, id: Id) { ByUser(e) && e.id == id }

  ghost predicate LeftAlone(events: seq<Event>, id: Id) { forall k | 0 <= k < |events| :: !ActsOn(events[k], id) }

  lemma StopStep(s: System, e: Event, id: Id)
    requires Inv(s) && !ActsOn(e, id) && id in s.jobs && Stopped(s.jobs[id].state)
    ensures id in Apply(s, e).jobs
    ensures Apply(s, e).jobs[id].state == s.jobs[id].state <==> !Overrides(s, e, id)
  {
    hide StoreStep, WorkerStep;
    if !ByUser(e) {
      WorkerLeavesStop(s, e, id);
    }
  }

  /** The job is there with that state in every state of the run. */
  ghost predicate Stands(s: System, events: seq<Event>, id: Id, state: JobState)
    decreases |events|
  {
    && id in s.jobs && s.jobs[id].state == state
    && (events != [] ==> Stands(Apply(s, events[0]), events[1..], id, state))
  }

  /** Some step of the run is a store of another state over that of the job. */
  ghost predicate Overridden(s: System, events: seq<Event>, id: Id)
    decreases |events|
  {
    events != [] && ((id in s.jobs && Overrides(s, events[0], id)) || Overridden(Apply(s, events[0]), events[1..], id))
  }

  lemma {:induction false} StandsExactly(s: System, events: seq<Event>, id: Id)
    requires Inv(s) && LeftAlone(events, id) && id in s.jobs && Stopped(s.jobs[id].state)
    ensures Stands(s, events, id, s.jobs[id].state) <==> !Overridden(s, events, id)
    decreases |events|
  {
    hide Apply, Inv, Overrides, ActsOn;
    if events != [] {
      var t := Apply(s, events[0]);
      assert !ActsOn(events[0], id);
      StopStep(s, events[0], id);
      StepKeeps(s, events[0]);
      if !Overrides(s, events[0], id) {
        StandsExactly(t, events[1..], id);
      }
    }
  }

  /** However workers and other users interleave, a pause or cancel stands exactly until such a store. */
  lemma StopStands(s: System, events: seq<Event>, id: Id)
    requires Reachable(s) && LeftAlone(events, id) && id in s.jobs && Stopped(s.jobs[id].state)
    ensures Stands(s, events, id, s.jobs[id].state) <==> !Overridden(s, events, id)
  {
    ReachableHolds(s);
    StandsExactly(s, events, id);
  }

  // For good

  predicate WorkedOn(s: System, id: Id) { exists w | 0 <= w < |s.workers| :: AtWork(s, w) && s.workers[w].id == id }

  /** No worker comes to be at work on a stopped job. */
  lemma NoneTakesStopped(s: System, e: Event, id: Id)
    requires Inv(s) && !ActsOn(e, id) && id in s.jobs && Stopped(s.jobs[id].state) && !WorkedOn(s, id)
    ensures !WorkedOn(Apply(s, e), id)
  {
    if Storing(e) {
      if AtWork(s, e.w) {
        StoreEffect(s, e);
      } else {
        NotAtWork(s, e);
      }
      hide StoreStep;
    }
  }

  lemma {:induction false} StopKept(s: System, events: seq<Event>, id: Id)
    requires Inv(s) && LeftAlone(events, id) && id in s.jobs && Stopped(s.jobs[id].state) && !WorkedOn(s, id)
    ensures Stands(s, events, id, s.jobs[id].state)
    decreases |events|
  {
    hide Apply, Inv, WorkedOn, ActsOn;
    if events != [] {
      assert !ActsOn(events[0], id);
      NoneAtWork(s, events[0], id);
      StopStep(s, events[0], id);
      NoneTakesStopped(s, events[0], id);
      StepKeeps(s, events[0]);
      StopKept(Apply(s, events[0]), events[1..], id);
    }
  }

  lemma NoneAtWork(s: System, e: Event, id: Id)
    requires id in s.jobs && !WorkedOn(s, id)
    ensures !Overrides(s, e, id)
  {
  }

  /** What a worker at work on the job can do to it. */
  function WriteImporting(s: System, w: nat): seq<Event>
    requires AtWork(s, w)
  {
    [Change(w, s.workers[w].copy.(state := Importing)), StoreUnchecked(w)]
  }

  lemma ImportingWritten(s: System, w: nat)
    requires AtWork(s, w) && s.workers[w].id in s.jobs && Stopped(s.jobs[s.workers[w].id].state)
    ensures var events := WriteImporting(s, w);
            && LeftAlone(events, s.workers[w].id)
            && Overridden(s, events, s.workers[w].id)
  {
    var id, events := s.workers[w].id, WriteImporting(s, w);
    var t := Apply(s, events[0]);
    assert AtWork(t, w) && t.jobs == s.jobs && Overrides(t, events[1], id);
    assert events[1..][0] == events[1];
    hide Apply;
  }

  /** A pause or cancel stands in every interleaving exactly when no worker is at work on the job as it is made. */
  lemma StopStandsForGood(s: System, id: Id)
    requires Reachable(s) && id in s.jobs && Stopped(s.jobs[id].state)
    ensures (forall events | LeftAlone(events, id) :: Stands(s, events, id, s.jobs[id].state)) <==> !WorkedOn(s, id)
  {
    hide Apply, Run, Stands;
    ReachableHolds(s);
    if WorkedOn(s, id) {
      var w :| 0 <= w < |s.workers| && AtWork(s, w) && s.workers[w].id == id;
      ImportingWritten(s, w);
      StandsExactly(s, WriteImporting(s, w), id);
    } else {
      forall events | LeftAlone(events, id)
        ensures Stands(s, events, id, s.jobs[id].state)
      {
        StopKept(s, events, id);
      }
    }
  }

  // A run that loses a pause

  /** A run of a fresh pool to t by the events. */
  ghost predicate Leads(workers: nat, events: seq<Event>, t: System) { Run(Start(workers), events) == t }

  lemma {:induction false} RunStep(s: System, events: seq<Event>, e: Event)
    ensures Run(s, events + [e]) == Apply(Run(s, events), e)
    decreases |events|
  {
    hide Apply;
    if events == [] {
      assert ([] + [e])[1..] == [];
    } else {
      assert (events + [e])[1..] == events[1..] + [e];
      RunStep(Apply(s, events[0]), events[1..], e);
    }
  }

  lemma Then(workers: nat, events: seq<Event>, s: System, e: Event, t: System)
    requires Leads(workers, events, s) && t == Apply(s, e)
    ensures Leads(workers, events + [e], t)
  {
    hide Apply;
    RunStep(Start(workers), events, e);
  }

  lemma StartsIdle(workers: nat)
    ensures Leads(workers, [], Start(workers))
  {
  }

  /** A job submitted, claimed and taken. */
  lemma Taken(workers: nat, w: nat, id: Id, job: Job) returns (events: seq<Event>, s: System)
    requires w < workers && job.state.Queued? && job.files == []
    ensures Leads(workers, events, s)
    ensures s == System(map[id := job], {id}, Start(workers).workers[w := Working(id, job, true)], {id})
  {
    hide Run;
    StartsIdle(workers);
    var idle := Start(workers).workers;
    var s1 := System(map[id := job], {}, idle, {id});
    Then(workers, [], Start(workers), Submit(id, job), s1);
    events := [] + [Submit(id, job)];
    var s2 := System(map[id := job], {id}, idle[w := Claiming(id)], {id});
    Then(workers, events, s1, Claim(w, id, 0, 0), s2);
    events := events + [Claim(w, id, 0, 0)];
    s := s2.(workers := idle[w := Working(id, job, true)]);
    assert s2.workers[w := Working(id, job, true)] == s.workers;
    Then(workers, events, s2, Take(w), s);
    events := events + [Take(w)];
  }

  /** And planned, with any files. */
  lemma Planned(workers: nat, w: nat, id: Id, plan: Job) returns (events: seq<Event>, s: System)
    requires w < workers && plan.state.Importing?
    ensures Leads(workers, events, s)
    ensures s == System(map[id := plan], {id}, Start(workers).workers[w := Working(id, plan, plan.files == [])], {id})
  {
    hide Run;
    var job := Job(Queued, false, [], 0);
    events, s := Taken(workers, w, id, job);
    var idle := Start(workers).workers;
    var s1 := s.(workers := idle[w := Working(id, plan, true)]);
    assert s.workers[w := Working(id, plan, true)] == s1.workers;
    Then(workers, events, s, Change(w, plan), s1);
    events := events + [Change(w, plan)];
    StoredAlone(plan, job);
    hide StoreOver;
    s := System(map[id := plan], {id}, idle[w := Working(id, plan, plan.files == [])], {id});
    assert s1.workers[w := Working(id, plan, plan.files == [])] == s.workers;
    Then(workers, events, s1, StoreChecked(w), s);
    events := events + [StoreChecked(w)];
  }

  lemma StoredAlone(plan: Job, stored: Job)
    requires stored.files == []
    ensures StoreOver(plan, stored) == plan
  {
  }

  /** A worker told to stop while importing writes that state back over a pause made since its copy. */
  lemma ImportWrittenBack(s: System, w: nat, now: nat)
    requires AtWork(s, w) && s.workers[w].copy.state.Importing?
    requires s.workers[w].id in s.jobs && Pause(s.jobs[s.workers[w].id], now).Some?
    ensures var id := s.workers[w].id;
            var paused := Apply(s, AskPause(id, now));
            var after := Apply(paused, StoreUnchecked(w));
            && id in paused.jobs && paused.jobs[id].state == Paused
            && id in after.jobs && after.jobs[id].state == Importing
  {
    hide KeepControls;
    var id := s.workers[w].id;
    var paused := Apply(s, AskPause(id, now));
    assert paused.workers == s.workers && paused.jobs[id].state == Paused;
    assert StoreStep(paused, StoreUnchecked(w)).jobs[id] == StoreOver(s.workers[w].copy, paused.jobs[id]);
  }

  /** So whatever the plan, some run of any pool accepts a pause of the job and then loses it. */
  lemma PauseLost(workers: nat, w: nat, id: Id, plan: Job, now: nat) returns (events: seq<Event>)
    requires w < workers && plan.state.Importing?
    ensures var paused := Run(Start(workers), events + [AskPause(id, now)]);
            var after := Run(Start(workers), events + [AskPause(id, now)] + [StoreUnchecked(w)]);
            && id in paused.jobs && paused.jobs[id].state == Paused
            && id in after.jobs && after.jobs[id].state == Importing
  {
    hide Run, Apply;
    var s;
    events, s := Planned(workers, w, id, plan);
    ImportWrittenBack(s, w, now);
    var paused := Apply(s, AskPause(id, now));
    Then(workers, events, s, AskPause(id, now), paused);
    Then(workers, events + [AskPause(id, now)], paused, StoreUnchecked(w), Apply(paused, StoreUnchecked(w)));
  }
}
