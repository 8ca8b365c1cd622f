/**
 Every interleaving of workers and users. A worker claims a job, takes a copy, changes the copy
 with the lock released and writes it back; users act on the stored job meanwhile.
 */
module IngestRuns {
  import opened Options
  import opened IngestJobs

  /**
   A worker: idle, with a claim, at work on a copy, or done and about to let go. `planning` while
   the job it took had no files and it has stored none.
   */
  datatype Worker = Idle | Claiming(id: Id) | Working(id: Id, copy: Job, planning: bool) | Leaving(id: Id)

  /** `used` holds every id ever submitted; ids are random, so none is used twice. */
  datatype System = System(jobs: map<Id, Job>, active: set<Id>, workers: seq<Worker>, used: set<Id>)

  datatype Event =
    // users
    | Submit(id: Id, job: Job)
    | AskPause(id: Id, now: nat)
    | AskResume(id: Id, now: nat)
    | AskCancel(id: Id, now: nat)
    | AskFile(id: Id, index: nat, action: FileAction, now: nat)
    | DropCopied(id: Id, index: nat)
    | Clear(id: Id)
    // the catalogue thread
    | Catalogued(id: Id)
    // workers
    | Claim(w: nat, id: Id, now: nat, retry: nat)
    | Take(w: nat)
    | Change(w: nat, copy: Job)
    | Look(w: nat)
    | StoreChecked(w: nat)
    | Checkpoint(w: nat)
    | Record(w: nat)
    | StoreUnchecked(w: nat)
    | Leave(w: nat)
    | Release(w: nat)

  function Start(workers: nat): System { System(map[], {}, seq(workers, _ => Idle), {}) }

  function SetJob(s: System, id: Id, change: Option<Job>): System
  {
    if change.Some? then s.(jobs := s.jobs[id := change.value]) else s
  }

  function SetWorker(s: System, w: nat, worker: Worker): System
    requires w < |s.workers|
  {
    s.(workers := s.workers[w := worker])
  }

  /** The copy stored, and the worker with the copy as stored. */
  function Stores(s: System, w: nat, stored: Job): System
    requires w < |s.workers| && s.workers[w].Working?
  {
    var worker := s.workers[w];
    SetWorker(s.(jobs := s.jobs[worker.id := stored]), w, Working(worker.id, stored, stored.files == []))
  }

  function Leaves(s: System, w: nat): System
    requires w < |s.workers| && !s.workers[w].Idle?
  {
    SetWorker(s, w, Leaving(s.workers[w].id))
  }

  predicate AtWork(s: System, w: nat) { w < |s.workers| && s.workers[w].Working? }

  function UserStep(s: System, e: Event): System
  {
    match e
    case Submit(id, job) =>
      if id in s.used || job.files != [] then s else s.(jobs := s.jobs[id := job], used := s.used + {id})
    case AskPause(id, now) => if id in s.jobs then SetJob(s, id, Pause(s.jobs[id], now)) else s
    case AskResume(id, now) => if id in s.jobs then SetJob(s, id, Resume(s.jobs[id], now)) else s
    case AskCancel(id, now) => if id in s.jobs then SetJob(s, id, Cancel(s.jobs[id], now)) else s
    case AskFile(id, index, action, now) =>
      if id in s.jobs then SetJob(s, id, ActOnFile(s.jobs[id], index, action, now)) else s
    case DropCopied(id, index) =>
      if id in s.jobs && index < |s.jobs[id].files|
      then SetJob(s, id, Some(s.jobs[id].(files := s.jobs[id].files[index := s.jobs[id].files[index].(copied := 0)])))
      else s
    case Clear(id) => if id in s.jobs && Terminal(s.jobs[id].state) then s.(jobs := s.jobs - {id}) else s
    case Catalogued(id) =>
      if id in s.jobs && s.jobs[id].state.Cataloguing? then SetJob(s, id, Some(s.jobs[id].(state := Completed))) else s
    case _ => s
  }

  function WorkerStep(s: System, e: Event): System
  {
    match e
    case Claim(w, id, now, retry) =>
      if w < |s.workers| && s.workers[w].Idle? && Claimable(s.jobs, s.active, id, now, retry)
      then SetWorker(s.(active := s.active + {id}), w, Claiming(id)) else s
    case Take(w) =>
      if w < |s.workers| && s.workers[w].Claiming? then
        var id := s.workers[w].id;
        if id !in s.jobs || Stopped(s.jobs[id].state) || s.jobs[id].state.Cataloguing? then Leaves(s, w)
        else SetWorker(s, w, Working(id, s.jobs[id], s.jobs[id].files == []))
      else s
    case Change(w, copy) =>
      if AtWork(s, w) && (s.workers[w].planning || |copy.files| == |s.workers[w].copy.files|)
      then SetWorker(s, w, s.workers[w].(copy := copy)) else s
    case Leave(w) => if AtWork(s, w) then Leaves(s, w) else s
    case Release(w) =>
      if w < |s.workers| && s.workers[w].Leaving?
      then SetWorker(s.(active := s.active - {s.workers[w].id}), w, Idle) else s
    case _ => s
  }

  /** The five ways a worker at work meets the stored job under the lock. */
  function StoreStep(s: System, e: Event): System
  {
    if !e.Look? && !e.StoreChecked? && !e.Checkpoint? && !e.Record? && !e.StoreUnchecked? then s
    else if !AtWork(s, e.w) then s
    else if s.workers[e.w].id !in s.jobs then Leaves(s, e.w)
    else
      var copy, stored := s.workers[e.w].copy, s.jobs[s.workers[e.w].id];
      match e
      // import_job between files: the worker sees what was asked of them
      case Look(w) =>
        if Stopped(stored.state) then Leaves(s, w)
        else SetWorker(s, w, s.workers[w].(copy := StoreOver(copy, stored)))
      // plan_job and import_job
      case StoreChecked(w) => if Stopped(stored.state) then Leaves(s, w) else Stores(s, w, StoreOver(copy, stored))
      // copy_file after a checkpoint's worth of bytes
      case Checkpoint(w) =>
        var after := Stores(s, w, StoreUnder(copy, stored));
        if after.workers[w].copy.state.Importing? then after else Leaves(after, w)
      // record_progress
      case Record(w) =>
        var after := Stores(s, w, StoreUnder(copy, stored));
        if Stopped(stored.state) then Leaves(after, w) else after
      // a worker told to stop, or that saw a pause or cancel while copying
      case StoreUnchecked(w) => Leaves(Stores(s, w, StoreOver(copy, stored)), w)
  }

  predicate ByUser(e: Event)
  {
    e.Submit? || e.AskPause? || e.AskResume? || e.AskCancel? || e.AskFile? || e.DropCopied? || e.Clear? || e.Catalogued?
  }

  predicate Storing(e: Event) { e.Look? || e.StoreChecked? || e.Checkpoint? || e.Record? || e.StoreUnchecked? }

  function Apply(s: System, e: Event): System
  {
    if ByUser(e) then UserStep(s, e) else if Storing(e) then StoreStep(s, e) else WorkerStep(s, e)
  }

  function Run(s: System, events: seq<Event>): System
    decreases |events|
  {
    if events == [] then s else Run(Apply(s, events[0]), events[1..])
  }

  // What every step keeps

  predicate Holds(worker: Worker, id: Id) { !worker.Idle? && worker.id == id }

  /** A worker's copy has the stored job's files one for one, unless it is planning files it has none of. */
  predicate CopyFits(worker: Worker, stored: Job)
    requires worker.Working?
  {
    if worker.planning then stored.files == [] else |worker.copy.files| == |stored.files|
  }

  /** Claims are those of the workers, each id by one worker. */
  ghost predicate Exclusive(s: System)
  {
    && (forall w | 0 <= w < |s.workers| && !s.workers[w].Idle? :: s.workers[w].id in s.active)
    && (forall v, w | 0 <= v < w < |s.workers| && !s.workers[v].Idle? && !s.workers[w].Idle? ::
          s.workers[v].id != s.workers[w].id)
    && (forall id | id in s.active :: exists w | 0 <= w < |s.workers| :: Holds(s.workers[w], id))
  }

  ghost predicate KnownIds(s: System) { s.jobs.Keys <= s.used && s.active <= s.used }

  ghost predicate CopiesFit(s: System)
  {
    forall w | 0 <= w < |s.workers| && s.workers[w].Working? && s.workers[w].id in s.jobs ::
      CopyFits(s.workers[w], s.jobs[s.workers[w].id])
  }

  ghost predicate Inv(s: System) { Exclusive(s) && KnownIds(s) && CopiesFit(s) }

  lemma UserFits(s: System, e: Event)
    requires Inv(s) && ByUser(e)
    ensures Inv(Apply(s, e))
  {
    var t := Apply(s, e);
    assert t.workers == s.workers && t.active == s.active;
    forall w | 0 <= w < |t.workers| && t.workers[w].Working? && t.workers[w].id in t.jobs
      ensures CopyFits(t.workers[w], t.jobs[t.workers[w].id])
    {
      var id := t.workers[w].id;
      assert id in s.used;
      assert |t.jobs[id].files| == |s.jobs[id].files|;
    }
  }

  /** Only worker w changes, and it stays with its job. */
  ghost predicate SameClaims(s: System, t: System, w: nat)
  {
    && t.active == s.active && |t.workers| == |s.workers| && w < |s.workers|
    && (forall v | 0 <= v < |s.workers| && v != w :: t.workers[v] == s.workers[v])
    && !s.workers[w].Idle? && !t.workers[w].Idle? && t.workers[w].id == s.workers[w].id
  }

  lemma ClaimsKept(s: System, t: System, w: nat)
    requires Exclusive(s) && SameClaims(s, t, w)
    ensures Exclusive(t)
  {
    forall x | x in t.active
      ensures exists v | 0 <= v < |t.workers| :: Holds(t.workers[v], x)
    {
      var v :| 0 <= v < |s.workers| && Holds(s.workers[v], x);
      assert Holds(t.workers[v], x);
    }
  }

  lemma OthersFit(s: System, t: System, w: nat)
    requires Exclusive(s) && CopiesFit(s) && SameClaims(s, t, w)
    requires forall id | id in t.jobs && id != s.workers[w].id :: id in s.jobs && t.jobs[id] == s.jobs[id]
    requires t.workers[w].Working? && t.workers[w].id in t.jobs ==> CopyFits(t.workers[w], t.jobs[t.workers[w].id])
    ensures CopiesFit(t)
  {
    forall v | 0 <= v < |t.workers| && t.workers[v].Working? && t.workers[v].id in t.jobs
      ensures CopyFits(t.workers[v], t.jobs[t.workers[v].id])
    {
      if v != w {
        assert t.workers[v] == s.workers[v] && s.workers[v].id != s.workers[w].id;
      }
    }
  }

  /** What a store may do: at most one stored job changes, the worker's own, file for file or from none. */
  lemma StoreEffect(s: System, e: Event)
    requires Storing(e) && AtWork(s, e.w) && CopiesFit(s)
    ensures var t, id := StoreStep(s, e), s.workers[e.w].id;
            && SameClaims(s, t, e.w) && t.used == s.used && t.jobs.Keys == s.jobs.Keys
            && (forall x | x in t.jobs && x != id :: t.jobs[x] == s.jobs[x])
            && (t.workers[e.w].Working? && id in t.jobs ==> CopyFits(t.workers[e.w], t.jobs[id]))
  {
    hide KeepControls;
    var id := s.workers[e.w].id;
    if id in s.jobs {
      var copy, stored := s.workers[e.w].copy, s.jobs[id];
      SizesKept(copy, stored);
      hide StoreOver, StoreUnder;
    }
  }

  lemma SizesKept(copy: Job, stored: Job)
    ensures |StoreOver(copy, stored).files| == |StoreUnder(copy, stored).files| == |copy.files|
  {
  }

  lemma StoreFits(s: System, e: Event)
    requires Inv(s) && Storing(e)
    ensures Inv(Apply(s, e))
  {
    hide StoreStep;
    if AtWork(s, e.w) {
      StoreEffect(s, e);
      ClaimsKept(s, Apply(s, e), e.w);
      OthersFit(s, Apply(s, e), e.w);
    } else {
      NotAtWork(s, e);
    }
  }

  lemma NotAtWork(s: System, e: Event)
    requires Storing(e) && !AtWork(s, e.w)
    ensures StoreStep(s, e) == s
  {
  }

  lemma WorkerFits(s: System, e: Event)
    requires Inv(s) && !ByUser(e) && !Storing(e)
    ensures Inv(Apply(s, e))
  {
    var t := Apply(s, e);
    if t != s {
      if e.Claim? {
        ClaimFits(s, e);
      } else if e.Release? {
        ReleaseFits(s, e);
      } else {
        ClaimsKept(s, t, e.w);
        OthersFit(s, t, e.w);
      }
    }
  }

  lemma ClaimFits(s: System, e: Event)
    requires Inv(s) && e.Claim? && Apply(s, e) != s
    ensures Inv(Apply(s, e))
  {
    var t := Apply(s, e);
    forall x | x in t.active
      ensures exists v | 0 <= v < |t.workers| :: Holds(t.workers[v], x)
    {
      if x in s.active {
        var v :| 0 <= v < |s.workers| && Holds(s.workers[v], x);
        assert Holds(t.workers[v], x);
      } else {
        assert Holds(t.workers[e.w], x);
      }
    }
  }

  lemma ReleaseFits(s: System, e: Event)
    requires Inv(s) && e.Release? && Apply(s, e) != s
    ensures Inv(Apply(s, e))
  {
    var t := Apply(s, e);
    forall x | x in t.active
      ensures exists v | 0 <= v < |t.workers| :: Holds(t.workers[v], x)
    {
      var v :| 0 <= v < |s.workers| && Holds(s.workers[v], x);
      assert Holds(t.workers[v], x);
    }
  }

  lemma StepKeeps(s: System, e: Event)
    requires Inv(s)
    ensures Inv(Apply(s, e))
  {
    if ByUser(e) {
      UserFits(s, e);
    } else if Storing(e) {
      StoreFits(s, e);
    } else {
      WorkerFits(s, e);
    }
  }

  lemma {:induction false} RunKeeps(s: System, events: seq<Event>)
    requires Inv(s)
    ensures Inv(Run(s, events))
    decreases |events|
  {
    if events != [] {
      StepKeeps(s, events[0]);
      RunKeeps(Apply(s, events[0]), events[1..]);
    }
  }

  lemma StartHolds(workers: nat)
    ensures Inv(Start(workers))
  {
  }
}
