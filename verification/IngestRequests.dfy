/**
 Which requests are accepted in which states and what each of them then changes, against the
 states and controls themselves.
 */
module IngestRequests {
  import opened IngestJobs
  import opened IngestRuns

  // Files

  /** A file action is accepted. */
  predicate MayAct(job: Job, f: File, action: FileAction)
  {
    && job.state !in {Completed, Cancelled, Cataloguing}
    && !f.completed && !f.skipped
    && match action
       case PauseFile => f.control == Active && !f.failed
       case ResumeFile => f.control == Held && !f.failed
       case CancelFile => f.control == Active || f.control == Held
  }

  function ControlAfter(action: FileAction): Control
  {
    match action
    case PauseFile => Held
    case ResumeFile => Active
    case CancelFile => LeftOut
  }

  /** The job waits for paused files, and this was the last of them or one of them is to go on. */
  predicate SetsGoing(job: Job, i: nat, action: FileAction)
  {
    && job.state == Paused && job.heldByFiles
    && (|| action == ResumeFile
        || (&& action == CancelFile
            && forall k | 0 <= k < |job.files| && k != i && job.files[k].control == Held ::
                 job.files[k].completed || job.files[k].failed))
  }

  /** The job after an accepted action: that file's control, perhaps its own state, and nothing else. */
  ghost predicate Acted(job: Job, i: nat, action: FileAction, now: nat, after: Job)
    requires i < |job.files|
  {
    && after.files == job.files[i := job.files[i].(control := ControlAfter(action))]
    && after.updated == now
    && (if SetsGoing(job, i, action) then after.state == Queued && !after.heldByFiles
        else after.state == job.state && after.heldByFiles == job.heldByFiles)
  }

  lemma StillAwaited(files: seq<File>, i: nat)
    requires i < |files| && files[i].control == LeftOut
    ensures AwaitsFile(files) <==>
            exists k | 0 <= k < |files| :: k != i && files[k].control == Held && !files[k].completed && !files[k].failed
  {
    if AwaitsFile(files) {
      var k :| 0 <= k < |files| && !files[k].completed && !files[k].failed && files[k].control.Held?;
      assert k != i;
    }
  }

  /** An action is accepted exactly where it may be, and does what it says to that file of that job alone. */
  lemma FileRequestExact(s: System, id: Id, i: nat, action: FileAction, now: nat)
    requires id in s.jobs
    ensures var job, after := s.jobs[id], Apply(s, AskFile(id, i, action, now));
            if i < |job.files| && MayAct(job, job.files[i], action)
            then id in after.jobs && Acted(job, i, action, now, after.jobs[id]) && after == s.(jobs := s.jobs[id := after.jobs[id]])
            else after == s
  {
    var job := s.jobs[id];
    if i < |job.files| && MayAct(job, job.files[i], action) && action.CancelFile? {
      var files := job.files[i := job.files[i].(control := LeftOut)];
      StillAwaited(files, i);
      assert forall k | 0 <= k < |files| && k != i :: files[k] == job.files[k];
    }
  }

  /** A file neither done nor failed, in a job that may still run, can always be held, let go and left out. */
  lemma FileAlwaysAnswers(s: System, id: Id, i: nat, now: nat)
    requires id in s.jobs && i < |s.jobs[id].files| && s.jobs[id].state !in {Completed, Cancelled, Cataloguing}
    requires var f := s.jobs[id].files[i]; !f.completed && !f.skipped && !f.failed
    ensures var was := s.jobs[id].files[i].control;
            && (was == Held ==> Apply(s, AskFile(id, i, ResumeFile, now)).jobs[id].files[i].control == Active)
            && (was == Active ==> Apply(s, AskFile(id, i, PauseFile, now)).jobs[id].files[i].control == Held)
            && (was != LeftOut ==> Apply(s, AskFile(id, i, CancelFile, now)).jobs[id].files[i].control == LeftOut)
  {
    hide Apply;
    FileRequestExact(s, id, i, ResumeFile, now);
    FileRequestExact(s, id, i, PauseFile, now);
    FileRequestExact(s, id, i, CancelFile, now);
  }

  // Jobs

  /** A pause is accepted of a job that still has to run, a resume of one that stopped, a cancel of one not at its end. */
  lemma JobRequestsExact(s: System, id: Id, now: nat)
    requires id in s.jobs
    ensures var job := s.jobs[id];
            Apply(s, AskPause(id, now)) ==
            if job.state in {Queued, Scanning, Importing, Paused, Blocked}
            then s.(jobs := s.jobs[id := Job(Paused, false, job.files, now)]) else s
    ensures var job := s.jobs[id];
            Apply(s, AskCancel(id, now)) ==
            if job.state !in {Completed, Cancelled}
            then s.(jobs := s.jobs[id := Job(Cancelled, job.heldByFiles, job.files, now)]) else s
    ensures var job, after := s.jobs[id], Apply(s, AskResume(id, now));
            if job.state in {Paused, Blocked, Failed}
            then && after == s.(jobs := s.jobs[id := Job(Queued, false, after.jobs[id].files, now)])
                 && |after.jobs[id].files| == |job.files|
                 && forall i | 0 <= i < |job.files| ::
                      after.jobs[id].files[i] ==
                      job.files[i].(control := if job.files[i].control == Held then Active else job.files[i].control)
            else after == s
    ensures Apply(s, Clear(id)) ==
            if s.jobs[id].state in {Completed, Cancelled, Failed} then s.(jobs := s.jobs - {id}) else s
  {
  }

  /** A worker is given a job exactly when it is idle and the job is queued, or blocked long enough, and nobody has it. */
  lemma ClaimExact(s: System, w: nat, id: Id, now: nat, retry: nat)
    requires w < |s.workers|
    ensures Apply(s, Claim(w, id, now, retry)) ==
            if && s.workers[w] == Idle && id in s.jobs && id !in s.active
               && (s.jobs[id].state == Queued || (s.jobs[id].state == Blocked && s.jobs[id].updated + retry <= now))
            then s.(active := s.active + {id}, workers := s.workers[w := Claiming(id)]) else s
  {
  }

  /** And keeps it exactly unless it is gone, paused, cancelled or being catalogued by then. */
  lemma TakeExact(s: System, w: nat)
    requires w < |s.workers| && s.workers[w].Claiming?
    ensures var id := s.workers[w].id;
            Apply(s, Take(w)) ==
            if id in s.jobs && s.jobs[id].state !in {Paused, Cancelled, Cataloguing}
            then s.(workers := s.workers[w := Working(id, s.jobs[id], s.jobs[id].files == [])])
            else s.(workers := s.workers[w := Leaving(id)])
  {
  }

  // What a worker stores

  /** The stored job with a copy's work: the copy's files under the stored controls, and the state given. */
  ghost predicate Holds(after: Job, copy: Job, stored: Job, state: JobState)
  {
    && after.state == state && after.heldByFiles == copy.heldByFiles && after.updated == copy.updated
    && |after.files| == |copy.files|
    && (|copy.files| == |stored.files| ==>
          forall i | 0 <= i < |copy.files| :: after.files[i] == copy.files[i].(control := stored.files[i].control))
    && (|copy.files| != |stored.files| ==> after.files == copy.files)
  }

  lemma CopyStored(copy: Job, stored: Job)
    ensures Holds(StoreOver(copy, stored), copy, stored, copy.state)
    ensures Holds(StoreUnder(copy, stored), copy, stored,
                  if stored.state in {Paused, Cancelled} then stored.state else copy.state)
  {
  }

  /** A worker stores its copy: not over a stop when it checks, under a stop's state when it keeps that, and anyhow otherwise. */
  lemma StoresExact(s: System, e: Event)
    requires (e.StoreChecked? || e.Checkpoint? || e.Record? || e.StoreUnchecked?) && AtWork(s, e.w)
    requires s.workers[e.w].id in s.jobs
    ensures var id, copy := s.workers[e.w].id, s.workers[e.w].copy;
            var stored, after := s.jobs[id], Apply(s, e);
            var stopped := stored.state in {Paused, Cancelled};
            && after.active == s.active && after.used == s.used
            && (if e.StoreChecked? && stopped then after.jobs == s.jobs
                else && id in after.jobs && after.jobs == s.jobs[id := after.jobs[id]]
                     && Holds(after.jobs[id], copy, stored,
                              if (e.Checkpoint? || e.Record?) && stopped then stored.state else copy.state))
  {
    var copy, stored := s.workers[e.w].copy, s.jobs[s.workers[e.w].id];
    CopyStored(copy, stored);
    hide StoreOver, StoreUnder, Holds;
  }

  /** And goes on with what is then stored, exactly unless it has seen a stop, is no longer importing, or was told to stop. */
  lemma StoreGoesOn(s: System, e: Event)
    requires (e.StoreChecked? || e.Checkpoint? || e.Record? || e.StoreUnchecked?) && AtWork(s, e.w)
    requires s.workers[e.w].id in s.jobs
    ensures var id, copy := s.workers[e.w].id, s.workers[e.w].copy;
            var stored, after := s.jobs[id], Apply(s, e);
            var stopped := stored.state in {Paused, Cancelled};
            var leaves := match e
                          case StoreChecked(_) => stopped
                          case Checkpoint(_) => stopped || copy.state != Importing
                          case Record(_) => stopped
                          case StoreUnchecked(_) => true;
            && id in after.jobs
            && after.workers == s.workers[e.w := if leaves then Leaving(id)
                                                 else Working(id, after.jobs[id], after.jobs[id].files == [])]
  {
    var copy, stored := s.workers[e.w].copy, s.jobs[s.workers[e.w].id];
    CopyStored(copy, stored);
    assert StoreUnder(copy, stored).state == if stored.state in {Paused, Cancelled} then stored.state else copy.state;
    hide StoreOver, StoreUnder, Holds;
  }

  /** Between files a worker that is not told to stop sees what was asked of them; nothing is stored. */
  lemma LookExact(s: System, w: nat)
    requires AtWork(s, w) && s.workers[w].id in s.jobs
    ensures var worker, stored, after := s.workers[w], s.jobs[s.workers[w].id], Apply(s, Look(w));
            && after == s.(workers := s.workers[w := after.workers[w]])
            && (if stored.state in {Paused, Cancelled} then after.workers[w] == Leaving(worker.id)
                else && after.workers[w] == Working(worker.id, after.workers[w].copy, worker.planning)
                     && Holds(after.workers[w].copy, worker.copy, stored, worker.copy.state))
  {
    var copy, stored := s.workers[w].copy, s.jobs[s.workers[w].id];
    CopyStored(copy, stored);
    hide StoreOver, StoreUnder, Holds;
  }

  // The rest of what is done to stored jobs

  /** A catalogued job is completed, and only one being catalogued is. */
  lemma CataloguedExact(s: System, id: Id)
    ensures Apply(s, Catalogued(id)) ==
            if id in s.jobs && s.jobs[id].state == Cataloguing
            then s.(jobs := s.jobs[id := Job(Completed, s.jobs[id].heldByFiles, s.jobs[id].files, s.jobs[id].updated)])
            else s
  {
  }

  /** A file whose partial is dropped has nothing copied, and nothing else of the job changes. */
  lemma DropCopiedExact(s: System, id: Id, i: nat)
    ensures var after := Apply(s, DropCopied(id, i));
            if id in s.jobs && i < |s.jobs[id].files|
            then after == s.(jobs := s.jobs[id := s.jobs[id].(files := s.jobs[id].files[i := s.jobs[id].files[i].(copied := 0)])])
            else after == s
  {
  }

  /** A job is new exactly when its id never was one, and comes without files. */
  lemma SubmitExact(s: System, id: Id, job: Job)
    ensures Apply(s, Submit(id, job)) ==
            if id !in s.used && job.files == [] then s.(jobs := s.jobs[id := job], used := s.used + {id}) else s
  {
  }
}
