/**
 What users asked is not lost to a worker's stale copy, in every interleaving.
 */
module IngestLaws {
  import opened IngestJobs
  import opened IngestRuns

  /** A state some run of a pool of workers reaches. */
  ghost predicate Reachable(s: System) { exists workers, events :: s == Run(Start(workers), events) }

  lemma ReachableHolds(s: System)
    requires Reachable(s)
    ensures Inv(s)
  {
    var workers, events :| s == Run(Start(workers), events);
    StartHolds(workers);
    RunKeeps(Start(workers), events);
  }

  /** No job is held by two workers, and none held can be claimed. */
  lemma OneHolder(s: System, v: nat, w: nat)
    requires Reachable(s) && v < |s.workers| && w < |s.workers| && v != w
    requires !s.workers[v].Idle? && !s.workers[w].Idle?
    ensures s.workers[v].id != s.workers[w].id
    ensures forall now, retry :: !Claimable(s.jobs, s.active, s.workers[v].id, now, retry)
  {
    ReachableHolds(s);
    var x, y := if v < w then v else w, if v < w then w else v;
    assert s.workers[x].id != s.workers[y].id;
  }

  // Cleared jobs

  lemma UsedKept(s: System, e: Event)
    requires Inv(s)
    ensures s.used <= Apply(s, e).used
    ensures forall id | id in s.used && id !in s.jobs :: id !in Apply(s, e).jobs
  {
    if Storing(e) {
      if AtWork(s, e.w) {
        StoreEffect(s, e);
      } else {
        NotAtWork(s, e);
      }
      hide StoreStep;
    }
  }

  /** A job that is gone stays gone, whatever copies workers still hold. */
  lemma {:induction false} ClearedStaysCleared(s: System, events: seq<Event>, id: Id)
    requires Inv(s) && id in s.used && id !in s.jobs
    ensures id !in Run(s, events).jobs
    decreases |events|
  {
    hide Apply, Inv;
    if events != [] {
      UsedKept(s, events[0]);
      StepKeeps(s, events[0]);
      ClearedStaysCleared(Apply(s, events[0]), events[1..], id);
    }
  }

  lemma NeverResurrected(s: System, events: seq<Event>, id: Id)
    requires Reachable(s) && id in s.used && id !in s.jobs
    ensures id !in Run(s, events).jobs
  {
    ReachableHolds(s);
    ClearedStaysCleared(s, events, id);
  }

  // File controls

  /** The requests that may change a file's control, from what and to what: none once the file is left out. */
  predicate Requests(e: Event, id: Id, i: nat, was: Control, is_: Control)
  {
    match was
    case Active =>
      || (e.AskFile? && e.id == id && e.index == i && e.action == PauseFile && is_ == Held)
      || (e.AskFile? && e.id == id && e.index == i && e.action == CancelFile && is_ == LeftOut)
    case Held =>
      || (e.AskResume? && e.id == id && is_ == Active)
      || (e.AskFile? && e.id == id && e.index == i && e.action == ResumeFile && is_ == Active)
      || (e.AskFile? && e.id == id && e.index == i && e.action == CancelFile && is_ == LeftOut)
    case LeftOut => false
  }

  lemma UserControls(s: System, e: Event, id: Id, i: nat)
    requires ByUser(e) && id in s.jobs && i < |s.jobs[id].files| && s.jobs.Keys <= s.used
    ensures id in Apply(s, e).jobs ==>
              && |Apply(s, e).jobs[id].files| == |s.jobs[id].files|
              && var was, is_ := s.jobs[id].files[i].control, Apply(s, e).jobs[id].files[i].control;
              is_ == was || Requests(e, id, i, was, is_)
  {
  }

  lemma StoredControls(copy: Job, stored: Job, i: nat)
    requires |copy.files| == |stored.files| && i < |stored.files|
    ensures StoreOver(copy, stored).files[i].control == stored.files[i].control
    ensures StoreUnder(copy, stored).files[i].control == stored.files[i].control
  {
  }

  lemma OwnStoreControls(s: System, e: Event, i: nat)
    requires CopiesFit(s) && Storing(e) && AtWork(s, e.w) && s.workers[e.w].id in s.jobs
    requires i < |s.jobs[s.workers[e.w].id].files|
    ensures var id, t := s.workers[e.w].id, StoreStep(s, e);
            && id in t.jobs && |t.jobs[id].files| == |s.jobs[id].files|
            && t.jobs[id].files[i].control == s.jobs[id].files[i].control
  {
    hide KeepControls;
    var copy, stored := s.workers[e.w].copy, s.jobs[s.workers[e.w].id];
    assert CopyFits(s.workers[e.w], stored);
    SizesKept(copy, stored);
    StoredControls(copy, stored, i);
    hide StoreOver, StoreUnder, CopiesFit;
  }

  lemma StoreControls(s: System, e: Event, id: Id, i: nat)
    requires Inv(s) && Storing(e) && id in s.jobs && i < |s.jobs[id].files|
    ensures id in Apply(s, e).jobs && |Apply(s, e).jobs[id].files| == |s.jobs[id].files|
    ensures Apply(s, e).jobs[id].files[i].control == s.jobs[id].files[i].control
  {
    hide StoreStep;
    if AtWork(s, e.w) && s.workers[e.w].id == id {
      OwnStoreControls(s, e, i);
    } else if AtWork(s, e.w) {
      StoreEffect(s, e);
    } else {
      NotAtWork(s, e);
    }
  }

  /** A step changes a file's control only at a user's request, from what and to what the request says. */
  lemma ControlStep(s: System, e: Event, id: Id, i: nat)
    requires Inv(s) && id in s.jobs && i < |s.jobs[id].files| && id in Apply(s, e).jobs
    ensures |Apply(s, e).jobs[id].files| == |s.jobs[id].files|
    ensures var was, is_ := s.jobs[id].files[i].control, Apply(s, e).jobs[id].files[i].control;
            is_ == was || Requests(e, id, i, was, is_)
  {
    if ByUser(e) {
      UserControls(s, e, id, i);
    } else if Storing(e) {
      StoreControls(s, e, id, i);
    }
  }

  predicate Asks(e: Event, id: Id, i: nat) { (e.AskResume? && e.id == id) || (e.AskFile? && e.id == id && e.index == i) }

  lemma {:induction false} ControlsKept(s: System, events: seq<Event>, id: Id, i: nat)
    requires Inv(s) && id in s.jobs && i < |s.jobs[id].files| && id in Run(s, events).jobs
    requires forall k | 0 <= k < |events| :: !Asks(events[k], id, i)
    ensures |Run(s, events).jobs[id].files| == |s.jobs[id].files|
    ensures Run(s, events).jobs[id].files[i].control == s.jobs[id].files[i].control
    decreases |events|
  {
    hide Apply, Inv;
    if events != [] {
      var t := Apply(s, events[0]);
      StepKeeps(s, events[0]);
      UsedKept(s, events[0]);
      if id !in t.jobs {
        InUse(s, id);
        ClearedStaysCleared(t, events[1..], id);
      } else {
        ControlStep(s, events[0], id, i);
        assert !Asks(events[0], id, i);
        ControlsKept(t, events[1..], id, i);
      }
    }
  }

  lemma InUse(s: System, id: Id)
    requires Inv(s) && id in s.jobs
    ensures id in s.used
  {
  }

  /** However workers and users interleave, a file keeps its control until a request for that file or that job. */
  lemma RequestStands(s: System, events: seq<Event>, id: Id, i: nat)
    requires Reachable(s) && id in s.jobs && i < |s.jobs[id].files| && id in Run(s, events).jobs
    requires forall k | 0 <= k < |events| :: !Asks(events[k], id, i)
    ensures |Run(s, events).jobs[id].files| == |s.jobs[id].files|
    ensures Run(s, events).jobs[id].files[i].control == s.jobs[id].files[i].control
  {
    ReachableHolds(s);
    ControlsKept(s, events, id, i);
  }

  lemma {:induction false} LeftOutKept(s: System, events: seq<Event>, id: Id, i: nat)
    requires Inv(s) && id in s.jobs && i < |s.jobs[id].files| && s.jobs[id].files[i].control == LeftOut
    requires id in Run(s, events).jobs
    ensures |Run(s, events).jobs[id].files| == |s.jobs[id].files|
    ensures Run(s, events).jobs[id].files[i].control == LeftOut
    decreases |events|
  {
    hide Apply, Inv;
    if events != [] {
      var t := Apply(s, events[0]);
      StepKeeps(s, events[0]);
      UsedKept(s, events[0]);
      if id !in t.jobs {
        InUse(s, id);
        ClearedStaysCleared(t, events[1..], id);
      } else {
        ControlStep(s, events[0], id, i);
        LeftOutKept(t, events[1..], id, i);
      }
    }
  }

  /** Whatever users ask and workers store, a file once left out stays left out. */
  lemma LeftOutForGood(s: System, events: seq<Event>, id: Id, i: nat)
    requires Reachable(s) && id in s.jobs && i < |s.jobs[id].files| && s.jobs[id].files[i].control == LeftOut
    requires id in Run(s, events).jobs
    ensures |Run(s, events).jobs[id].files| == |s.jobs[id].files|
    ensures Run(s, events).jobs[id].files[i].control == LeftOut
  {
    ReachableHolds(s);
    LeftOutKept(s, events, id, i);
  }
}
