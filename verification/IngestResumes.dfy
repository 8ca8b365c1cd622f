/**
 How long a resume of a whole job stands: exactly until a worker stores a pause or cancel it saw
 before, and until the job is taken again exactly when no worker was still at work on it.
 */
module IngestResumes {
  import opened IngestJobs
  import opened IngestRuns
  import opened IngestLaws
  import opened IngestStops

  /** A store of a copy that is paused or cancelled. */
  predicate StopsAgain(s: System, e: Event, id: Id)
  {
    Storing(e) && !e.Look? && AtWork(s, e.w) && s.workers[e.w].id == id && Stopped(s.workers[e.w].copy.state)
  }

  lemma StopsAgainStep(s: System, e: Event, id: Id)
    requires Inv(s) && !ActsOn(e, id) && id in s.jobs && !Stopped(s.jobs[id].state)
    ensures id in Apply(s, e).jobs
    ensures Stopped(Apply(s, e).jobs[id].state) <==> StopsAgain(s, e, id)
  {
    hide KeepControls;
    if Storing(e) && AtWork(s, e.w) && s.workers[e.w].id != id {
      StoreEffect(s, e);
      hide StoreStep;
    }
  }

  /** The job is there, neither paused nor cancelled, in every state of the run. */
  ghost predicate NeverStopped(s: System, events: seq<Event>, id: Id)
    decreases |events|
  {
    && id in s.jobs && !Stopped(s.jobs[id].state)
    && (events != [] ==> NeverStopped(Apply(s, events[0]), events[1..], id))
  }

  ghost predicate StoppedAgain(s: System, events: seq<Event>, id: Id)
    decreases |events|
  {
    events != [] && (StopsAgain(s, events[0], id) || StoppedAgain(Apply(s, events[0]), events[1..], id))
  }

  lemma {:induction false} ResumedExactly(s: System, events: seq<Event>, id: Id)
    requires Inv(s) && LeftAlone(events, id) && id in s.jobs && !Stopped(s.jobs[id].state)
    ensures NeverStopped(s, events, id) <==> !StoppedAgain(s, events, id)
    decreases |events|
  {
    hide Apply, Inv, StopsAgain, ActsOn;
    if events != [] {
      assert !ActsOn(events[0], id);
      StopsAgainStep(s, events[0], id);
      StepKeeps(s, events[0]);
      if !StopsAgain(s, events[0], id) {
        ResumedExactly(Apply(s, events[0]), events[1..], id);
      }
    }
  }

  /** However workers and other users interleave, a job that runs is stopped exactly by such a store. */
  lemma ResumeStands(s: System, events: seq<Event>, id: Id)
    requires Reachable(s) && LeftAlone(events, id) && id in s.jobs && !Stopped(s.jobs[id].state)
    ensures NeverStopped(s, events, id) <==> !StoppedAgain(s, events, id)
  {
    ReachableHolds(s);
    ResumedExactly(s, events, id);
  }

  // Until it is taken again

  predicate Takes(s: System, e: Event, id: Id)
  {
    e.Take? && e.w < |s.workers| && s.workers[e.w].Claiming? && s.workers[e.w].id == id
  }

  ghost predicate NotTaken(s: System, events: seq<Event>, id: Id)
    decreases |events|
  {
    events != [] ==> !Takes(s, events[0], id) && NotTaken(Apply(s, events[0]), events[1..], id)
  }

  /** A job no worker is at work on changes only by its users, and no worker comes to be at work on it but by taking it. */
  lemma UntouchedStep(s: System, e: Event, id: Id)
    requires Inv(s) && !ActsOn(e, id) && !Takes(s, e, id) && id in s.jobs && !WorkedOn(s, id)
    ensures id in Apply(s, e).jobs && Apply(s, e).jobs[id] == s.jobs[id] && !WorkedOn(Apply(s, e), id)
  {
    if Storing(e) {
      if AtWork(s, e.w) {
        StoreEffect(s, e);
      } else {
        NotAtWork(s, e);
      }
      hide StoreStep;
    }
  }

  lemma {:induction false} Untouched(s: System, events: seq<Event>, id: Id)
    requires Inv(s) && LeftAlone(events, id) && NotTaken(s, events, id) && id in s.jobs && !WorkedOn(s, id)
    ensures Stands(s, events, id, s.jobs[id].state)
    decreases |events|
  {
    hide Apply, Inv, WorkedOn, ActsOn, Takes;
    if events != [] {
      assert !ActsOn(events[0], id);
      UntouchedStep(s, events[0], id);
      StepKeeps(s, events[0]);
      Untouched(Apply(s, events[0]), events[1..], id);
    }
  }

  /** What a worker at work on the job that saw a pause does. */
  function WritePaused(s: System, w: nat): seq<Event>
    requires AtWork(s, w)
  {
    [Change(w, s.workers[w].copy.(state := Paused)), StoreUnchecked(w)]
  }

  lemma PausedWritten(s: System, w: nat)
    requires AtWork(s, w) && s.workers[w].id in s.jobs && s.jobs[s.workers[w].id].state.Queued?
    ensures var events, id := WritePaused(s, w), s.workers[w].id;
            LeftAlone(events, id) && NotTaken(s, events, id) && !Stands(s, events, id, Queued)
  {
    hide KeepControls;
    var id, events := s.workers[w].id, WritePaused(s, w);
    var t := Apply(s, events[0]);
    assert events[1..][0] == events[1] && events[1..][1..] == [];
    assert AtWork(t, w) && t.jobs == s.jobs && t.workers[w].copy.state.Paused?;
    var u := Apply(t, events[1]);
    assert u.jobs[id].state.Paused?;
    hide Apply;
    assert !Stands(u, [], id, Queued) && NotTaken(u, [], id);
    assert !Stands(t, events[1..], id, Queued) && NotTaken(t, events[1..], id);
  }

  /** A resumed job stays queued until it is taken, in every interleaving, exactly when no worker is at work on it. */
  lemma ResumeStandsForGood(s: System, id: Id)
    requires Reachable(s) && id in s.jobs && s.jobs[id].state.Queued?
    ensures (forall events | LeftAlone(events, id) && NotTaken(s, events, id) :: Stands(s, events, id, Queued)) <==>
            !WorkedOn(s, id)
  {
    hide Apply, Run, Stands, NotTaken;
    ReachableHolds(s);
    if WorkedOn(s, id) {
      var w :| 0 <= w < |s.workers| && AtWork(s, w) && s.workers[w].id == id;
      PausedWritten(s, w);
    } else {
      forall events | LeftAlone(events, id) && NotTaken(s, events, id)
        ensures Stands(s, events, id, Queued)
      {
        Untouched(s, events, id);
      }
    }
  }

  // A run that loses a resume

  lemma PauseWrittenBack(s: System, w: nat, now: nat)
    requires AtWork(s, w) && s.workers[w].copy.state.Paused?
    requires s.workers[w].id in s.jobs && Resume(s.jobs[s.workers[w].id], now).Some?
    ensures var id := s.workers[w].id;
            var resumed := Apply(s, AskResume(id, now));
            var after := Apply(resumed, StoreUnchecked(w));
            && id in resumed.jobs && resumed.jobs[id].state == Queued
            && id in after.jobs && after.jobs[id].state == Paused
  {
    hide KeepControls, ResumedFiles;
    var id := s.workers[w].id;
    var resumed := Apply(s, AskResume(id, now));
    assert resumed.workers == s.workers && resumed.jobs[id].state == Queued;
    assert StoreStep(resumed, StoreUnchecked(w)).jobs[id] == StoreOver(s.workers[w].copy, resumed.jobs[id]);
  }

  /** The job paused, and the worker's copy with it. */
  lemma SeesPause(workers: nat, w: nat, id: Id, plan: Job, now: nat) returns (events: seq<Event>, s: System)
    requires w < workers && plan.state.Importing?
    ensures Leads(workers, events, s) && AtWork(s, w) && s.workers[w].id == id && s.workers[w].copy.state.Paused?
    ensures id in s.jobs && s.jobs[id].state.Paused?
  {
    hide Run;
    var planned;
    events, planned := Planned(workers, w, id, plan);
    var paused := Apply(planned, AskPause(id, now));
    Then(workers, events, planned, AskPause(id, now), paused);
    events := events + [AskPause(id, now)];
    var seen := plan.(state := Paused);
    s := Apply(paused, Change(w, seen));
    Then(workers, events, paused, Change(w, seen), s);
    events := events + [Change(w, seen)];
  }

  /** Whatever the plan, some run of any pool accepts a pause and then a resume of the job, and is left with the pause. */
  lemma ResumeLost(workers: nat, w: nat, id: Id, plan: Job, now: nat) returns (events: seq<Event>)
    requires w < workers && plan.state.Importing?
    ensures var resumed := Run(Start(workers), events + [AskResume(id, now)]);
            var after := Run(Start(workers), events + [AskResume(id, now)] + [StoreUnchecked(w)]);
            && id in resumed.jobs && resumed.jobs[id].state == Queued
            && id in after.jobs && after.jobs[id].state == Paused
  {
    hide Run, Apply;
    var s;
    events, s := SeesPause(workers, w, id, plan, now);
    PauseWrittenBack(s, w, now);
    var resumed := Apply(s, AskResume(id, now));
    Then(workers, events, s, AskResume(id, now), resumed);
    Then(workers, events + [AskResume(id, now)], resumed, StoreUnchecked(w), Apply(resumed, StoreUnchecked(w)));
  }
}
