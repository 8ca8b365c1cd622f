/**
 Ingest jobs and their files: what users may ask of a stored job, and how a worker's copy is
 written back over it.
 */
module IngestJobs {
  import opened Options

  type Id = string

  /** What the user asked of one file: active, paused or cancelled in the source. */
  datatype Control = Active | Held | LeftOut

  datatype JobState = Queued | Scanning | Importing | Cataloguing | Paused | Blocked | Completed | Cancelled | Failed

  datatype File = File(
    destination: string,
    temporary: string,
    size: nat,
    copied: nat,
    completed: bool,
    skipped: bool,
    failed: bool,
    control: Control)

  datatype Job = Job(state: JobState, heldByFiles: bool, files: seq<File>, updated: nat)

  predicate Stopped(state: JobState) { state.Paused? || state.Cancelled? }

  predicate Terminal(state: JobState) { state.Completed? || state.Cancelled? || state.Failed? }

  // What users ask

  function Pause(job: Job, now: nat): Option<Job>
  {
    if job.state.Cataloguing? || Terminal(job.state) then None
    else Some(job.(state := Paused, heldByFiles := false, updated := now))
  }

  function ResumedFile(f: File): File { if f.control.Held? then f.(control := Active) else f }

  function ResumedFiles(files: seq<File>): (r: seq<File>)
    ensures |r| == |files|
    ensures forall i | 0 <= i < |files| :: r[i] == ResumedFile(files[i])
  {
    if files == [] then [] else [ResumedFile(files[0])] + ResumedFiles(files[1..])
  }

  function Resume(job: Job, now: nat): Option<Job>
  {
    if !job.state.Paused? && !job.state.Blocked? && !job.state.Failed? then None
    else Some(job.(state := Queued, heldByFiles := false, files := ResumedFiles(job.files), updated := now))
  }

  function Cancel(job: Job, now: nat): Option<Job>
  {
    if job.state.Completed? || job.state.Cancelled? then None else Some(job.(state := Cancelled, updated := now))
  }

  datatype FileAction = PauseFile | ResumeFile | CancelFile

  predicate AwaitsFile(files: seq<File>)
  {
    exists i | 0 <= i < |files| :: !files[i].completed && !files[i].failed && files[i].control.Held?
  }

  /** The control a file action gives a file, if it may have it. */
  function NewControl(job: Job, f: File, action: FileAction): Option<Control>
  {
    if job.state.Completed? || job.state.Cancelled? || job.state.Cataloguing? || f.completed || f.skipped then None
    else if f.failed && !action.CancelFile? then None
    else
      match action
      case PauseFile => if f.control.Active? then Some(Held) else None
      case ResumeFile => if f.control.Held? then Some(Active) else None
      case CancelFile => if f.control.LeftOut? then None else Some(LeftOut)
  }

  function ActOnFile(job: Job, index: nat, action: FileAction, now: nat): Option<Job>
  {
    if index >= |job.files| then None else
    var control := NewControl(job, job.files[index], action);
    if control.None? then None else
    var files := job.files[index := job.files[index].(control := control.value)];
    var waits := job.state.Paused? && job.heldByFiles;
    var released := waits && (action.ResumeFile? || (action.CancelFile? && !AwaitsFile(files)));
    Some(Job(if released then Queued else job.state, job.heldByFiles && !released, files, now))
  }

  // Worker copies

  /** keep_file_controls: the stored job's controls on the worker's files, when there are as many. */
  function KeepControls(worker: seq<File>, stored: seq<File>): (r: seq<File>)
    ensures |r| == |worker|
    ensures |worker| == |stored| ==> forall i | 0 <= i < |r| :: r[i] == worker[i].(control := stored[i].control)
    ensures |worker| != |stored| ==> r == worker
  {
    if |worker| != |stored| then worker
    else if worker == [] then []
    else [worker[0].(control := stored[0].control)] + KeepControls(worker[1..], stored[1..])
  }

  /** A store that does not look at the stored state. */
  function StoreOver(copy: Job, stored: Job): Job { copy.(files := KeepControls(copy.files, stored.files)) }

  /** A store under which an accepted pause or cancel stands. */
  function StoreUnder(copy: Job, stored: Job): Job
  {
    StoreOver(if Stopped(stored.state) then copy.(state := stored.state) else copy, stored)
  }

  method KeepFileControls(worker: seq<File>, stored: seq<File>) returns (r: seq<File>)
    ensures r == KeepControls(worker, stored)
  {
    r := worker;
    if |worker| != |stored| {
      return;
    }
    for i := 0 to |worker|
      invariant |r| == |worker|
      invariant forall k | 0 <= k < i :: r[k] == worker[k].(control := stored[k].control)
      invariant forall k | i <= k < |r| :: r[k] == worker[k]
    {
      r := r[i := r[i].(control := stored[i].control)];
    }
  }

  // The manager's part of it, under its lock

  predicate Ready(job: Job, now: nat, retry: nat)
  {
    job.state.Queued? || (job.state.Blocked? && now >= job.updated + retry)
  }

  predicate Claimable(jobs: map<Id, Job>, active: set<Id>, id: Id, now: nat, retry: nat)
  {
    id in jobs && id !in active && Ready(jobs[id], now, retry)
  }

  /** std::less: the order in which the jobs are kept. */
  predicate IdLess(a: Id, b: Id)
  {
    b != "" && (a == "" || a[0] < b[0] || (a[0] == b[0] && IdLess(a[1..], b[1..])))
  }

  lemma {:induction false} IdLessTotal(a: Id, b: Id)
    ensures a == b || IdLess(a, b) || IdLess(b, a)
  {
    if a != "" && b != "" && a[0] == b[0] {
      IdLessTotal(a[1..], b[1..]);
      assert a == [a[0]] + a[1..] && b == [b[0]] + b[1..];
    }
  }

  lemma {:induction false} IdLessTransitive(a: Id, b: Id, c: Id)
    requires IdLess(a, b) && IdLess(b, c)
    ensures IdLess(a, c)
  {
    if a != "" && a[0] == b[0] == c[0] {
      IdLessTransitive(a[1..], b[1..], c[1..]);
    }
  }

  /** Ids are in the order of their first different characters, or of their lengths where one begins the other. */
  lemma {:induction false} IdOrderExact(a: Id, b: Id)
    ensures IdLess(a, b) <==> exists k | 0 <= k <= |a| && k < |b| :: a[..k] == b[..k] && (k == |a| || a[k] < b[k])
    decreases |b|
  {
    if a == "" {
      if b != "" {
        assert a[..0] == b[..0];
      }
    } else if b != "" {
      IdOrderExact(a[1..], b[1..]);
      if IdLess(a, b) {
        if a[0] != b[0] {
          assert a[..0] == b[..0];
        } else {
          var k :| 0 <= k <= |a| - 1 && k < |b| - 1 && a[1..][..k] == b[1..][..k] && (k == |a| - 1 || a[1..][k] < b[1..][k]);
          assert a[..k + 1] == [a[0]] + a[1..][..k] && b[..k + 1] == [b[0]] + b[1..][..k];
        }
      }
      if k :| 0 <= k <= |a| && k < |b| && a[..k] == b[..k] && (k == |a| || a[k] < b[k]) {
        if k > 0 {
          assert a[..k][0] == b[..k][0];
          assert a[1..][..k - 1] == a[..k][1..] && b[1..][..k - 1] == b[..k][1..];
        }
      }
    }
  }

  predicate IsFirst(id: Id, ids: set<Id>) { id in ids && forall other | other in ids :: other == id || IdLess(id, other) }

  lemma {:induction false} HasFirst(ids: set<Id>)
    requires ids != {}
    ensures exists id :: IsFirst(id, ids)
    decreases |ids|
  {
    var x :| x in ids;
    var rest := ids - {x};
    if rest == {} {
      assert ids == {x};
      assert IsFirst(x, ids);
    } else {
      HasFirst(rest);
      var y :| IsFirst(y, rest);
      IdLessTotal(x, y);
      forall other | other in ids && IdLess(x, y)
        ensures other == x || IdLess(x, other)
      {
        if other != x && other != y {
          IdLessTransitive(x, y, other);
        }
      }
      assert IsFirst(x, ids) || IsFirst(y, ids);
    }
  }

  class IngestManager {
    var jobs: map<Id, Job>
    var active: set<Id>

    constructor ()
      ensures jobs == map[] && active == {}
    {
      jobs, active := map[], {};
    }

    method PauseJob(id: Id, now: nat) returns (accepted: bool)
      modifies this
      ensures accepted == (id in old(jobs) && Pause(old(jobs)[id], now).Some?)
      ensures active == old(active)
      ensures jobs == if accepted then old(jobs)[id := Pause(old(jobs)[id], now).value] else old(jobs)
    {
      if id !in jobs {
        return false;
      }
      var job := jobs[id];
      if job.state.Cataloguing? || Terminal(job.state) {
        return false;
      }
      jobs := jobs[id := job.(state := Paused, heldByFiles := false, updated := now)];
      return true;
    }

    method ResumeJob(id: Id, now: nat) returns (accepted: bool)
      modifies this
      ensures accepted == (id in old(jobs) && Resume(old(jobs)[id], now).Some?)
      ensures active == old(active)
      ensures jobs == if accepted then old(jobs)[id := Resume(old(jobs)[id], now).value] else old(jobs)
    {
      if id !in jobs {
        return false;
      }
      var job := jobs[id];
      if !job.state.Paused? && !job.state.Blocked? && !job.state.Failed? {
        return false;
      }
      var files := job.files;
      for i := 0 to |files|
        invariant |files| == |job.files|
        invariant forall k | 0 <= k < i :: files[k] == ResumedFile(job.files[k])
        invariant forall k | i <= k < |files| :: files[k] == job.files[k]
      {
        if files[i].control.Held? {
          files := files[i := files[i].(control := Active)];
        }
      }
      assert files == ResumedFiles(job.files);
      jobs := jobs[id := job.(state := Queued, heldByFiles := false, files := files, updated := now)];
      return true;
    }

    method CancelJob(id: Id, now: nat) returns (accepted: bool)
      modifies this
      ensures accepted == (id in old(jobs) && Cancel(old(jobs)[id], now).Some?)
      ensures active == old(active)
      ensures jobs == if accepted then old(jobs)[id := Cancel(old(jobs)[id], now).value] else old(jobs)
    {
      if id !in jobs || jobs[id].state.Completed? || jobs[id].state.Cancelled? {
        return false;
      }
      jobs := jobs[id := jobs[id].(state := Cancelled, updated := now)];
      return true;
    }

    method ActOn(id: Id, index: nat, action: FileAction, now: nat) returns (accepted: bool)
      modifies this
      ensures accepted == (id in old(jobs) && ActOnFile(old(jobs)[id], index, action, now).Some?)
      ensures active == old(active)
      ensures jobs == if accepted then old(jobs)[id := ActOnFile(old(jobs)[id], index, action, now).value] else old(jobs)
    {
      if id !in jobs || index >= |jobs[id].files| {
        return false;
      }
      var job := jobs[id];
      var control := NewControl(job, job.files[index], action);
      if control.None? {
        return false;
      }
      job := job.(files := job.files[index := job.files[index].(control := control.value)]);
      if job.state.Paused? && job.heldByFiles && (action.ResumeFile? || (action.CancelFile? && !AwaitsFile(job.files))) {
        job := job.(state := Queued, heldByFiles := false);
      }
      jobs := jobs[id := job.(updated := now)];
      return true;
    }

    /** The last part of `clear`, with the state its first part saw. */
    method Erase(id: Id, seen: JobState) returns (accepted: bool)
      modifies this
      ensures accepted == (id in old(jobs) && old(jobs)[id].state == seen)
      ensures active == old(active) && jobs == if accepted then old(jobs) - {id} else old(jobs)
    {
      if id !in jobs || jobs[id].state != seen {
        return false;
      }
      jobs := jobs - {id};
      return true;
    }

    /** The first job to claim in the order of the ids: none is found only when there is none. */
    method SelectJob(now: nat, retry: nat) returns (found: Option<Id>)
      ensures found.Some? ==>
                && Claimable(jobs, active, found.value, now, retry)
                && forall id | Claimable(jobs, active, id, now, retry) :: id == found.value || IdLess(found.value, id)
      ensures found.None? ==> forall id :: !Claimable(jobs, active, id, now, retry)
    {
      var rest := jobs.Keys;
      while rest != {}
        invariant rest <= jobs.Keys
        invariant forall id | id in jobs.Keys - rest :: !Claimable(jobs, active, id, now, retry)
        decreases |rest|
      {
        HasFirst(rest);
        var id :| id in rest && IsFirst(id, rest);
        if id !in active && Ready(jobs[id], now, retry) {
          return Some(id);
        }
        rest := rest - {id};
      }
      return None;
    }

    method Claim(now: nat, retry: nat) returns (claimed: Option<Id>)
      modifies this
      ensures jobs == old(jobs)
      ensures claimed.Some? ==>
                && active == old(active) + {claimed.value} && Claimable(jobs, old(active), claimed.value, now, retry)
                && forall id | Claimable(jobs, old(active), id, now, retry) ::
                     id == claimed.value || IdLess(claimed.value, id)
      ensures claimed.None? ==> active == old(active) && forall id :: !Claimable(jobs, active, id, now, retry)
    {
      claimed := SelectJob(now, retry);
      if claimed.Some? {
        active := active + {claimed.value};
      }
    }

    method Release(id: Id)
      modifies this
      ensures jobs == old(jobs) && active == old(active) - {id}
    {
      active := active - {id};
    }

    /** record_progress: the copy as stored, and whether the worker may go on. */
    method RecordProgress(id: Id, copy: Job) returns (after: Job, recorded: bool)
      modifies this
      ensures active == old(active)
      ensures recorded == (id in old(jobs) && !Stopped(old(jobs)[id].state))
      ensures after == if id in old(jobs) then StoreUnder(copy, old(jobs)[id]) else copy
      ensures jobs == if id in old(jobs) then old(jobs)[id := after] else old(jobs)
    {
      after := copy;
      if id !in jobs {
        return after, false;
      }
      var held := jobs[id].state;
      if Stopped(held) {
        after := after.(state := held);
      }
      var files := KeepFileControls(after.files, jobs[id].files);
      after := after.(files := files);
      jobs := jobs[id := after];
      return after, !Stopped(held);
    }

    /** The stores of a stopping worker, which write whatever it holds. */
    method WriteBack(id: Id, copy: Job)
      modifies this
      ensures active == old(active)
      ensures jobs == if id in old(jobs) then old(jobs)[id := StoreOver(copy, old(jobs)[id])] else old(jobs)
    {
      if id in jobs {
        var files := KeepFileControls(copy.files, jobs[id].files);
        jobs := jobs[id := copy.(files := files)];
      }
    }

    /** The stores of planning and of a job's start, which give way to a pause, cancel or clear. */
    method StoreUnlessStopped(id: Id, copy: Job) returns (stored: bool)
      modifies this
      ensures active == old(active)
      ensures stored == (id in old(jobs) && !Stopped(old(jobs)[id].state))
      ensures jobs == if stored then old(jobs)[id := StoreOver(copy, old(jobs)[id])] else old(jobs)
    {
      if id !in jobs || Stopped(jobs[id].state) {
        return false;
      }
      var files := KeepFileControls(copy.files, jobs[id].files);
      jobs := jobs[id := copy.(files := files)];
      return true;
    }
  }
}
