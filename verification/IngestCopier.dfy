/**
 The copy as the source runs it: fields a worker changes step by step, one method for each step,
 and the loop over them with merges falling in between.
 */
module IngestCopier {
  import opened Options
  import opened IngestCopy
  import opened Words

  /** A merge is all that can come from elsewhere. */
  predicate OwnStep(e: Event) { e.DoLook? || e.DoOpen? || e.DoWrite? || e.DoCommit? || e.DoRename? || e.DoRollBack? }

  /** Nothing is there but the partial, or the finished file in its place. */
  predicate Clear(src: Bytes, disk: Disk)
  {
    disk.destination.Some? ==> disk.partial.None? && |disk.destination.value| == |src|
  }

  lemma WriteReaches(content: Bytes, at: nat, bytes: Bytes)
    ensures |WriteAt(content, at, bytes)| >= at + |bytes|
  {
  }

  lemma {:induction false} RunOn(src: Bytes, c: Copy, trace: seq<Event>, more: seq<Event>)
    ensures Run(src, c, trace + more) == Run(src, Run(src, c, trace), more)
    decreases |trace|
  {
    hide Apply;
    if trace == [] {
      assert trace + more == more;
    } else {
      assert (trace + more)[1..] == trace[1..] + more;
      RunOn(src, Apply(src, c, trace[0]), trace[1..], more);
    }
  }

  /** How far the handle is from the entry as it is. */
  function Stale(c: Copy): nat { if c.phase.Copying? && Current(c) then 0 else 1 }

  /** With no merges, a round of the loop ends it, re-bases, or gets on. */
  lemma RoundProgress(src: Bytes, c: Copy, chunk: nat, commits: bool)
    requires c.phase.Copying? && c.copied < |src| && c.phase.input <= |src|
    ensures var w := WriteChunk(src, c, chunk);
            var t := if commits then Checkpoint(w) else w;
            t.phase.Copying? ==> Stale(t) < Stale(c) || (Stale(t) == Stale(c) && t.copied > c.copied)
  {
    var got := Min(Min(chunk, |src| - c.copied), |src| - c.phase.input);
    WriteReaches(c.phase.content, c.copied, src[c.phase.input..c.phase.input + got]);
    hide WriteAt;
  }

  lemma WriteKeepsWithin(src: Bytes, c: Copy, chunk: nat)
    requires c.phase.Copying? && c.copied < |src| && c.phase.input <= |src|
    ensures var w := WriteChunk(src, c, chunk);
            !w.phase.Looked? && (w.phase.Copying? ==> w.phase.dirty && w.copied <= |src| && w.phase.input <= |src|)
  {
    hide WriteAt;
  }

  lemma CommitKeepsWithin(src: Bytes, c: Copy)
    requires c.phase.Copying? && c.phase.dirty && c.copied <= |src| && c.phase.input <= |src|
    ensures var t := CommitProgress(c);
            !t.phase.Looked? && (t.phase.Copying? ==> !t.phase.dirty && t.phase.input <= |src|)
  {
  }

  /** In step with the entry, and nothing at the destination. */
  ghost predicate Alongside(src: Bytes, c: Copy)
  {
    && Right(src, c) && c.phase.Copying? && Current(c) && |c.phase.content| == c.copied
    && (!c.phase.dirty ==> c.phase.basis == c.phase.content)
    && c.disk.destination.None? && !c.completed
  }

  lemma BeginsAlongside(src: Bytes, c: Copy)
    requires Right(src, c) && Clear(src, c.disk) && c.phase.Away? && !c.completed
    ensures var l := Look(src, c);
            if l.completed then l.phase.Away? && l.disk.destination == Some(src)
            else l.phase.Looked? && Alongside(src, Open(l))
  {
    if c.disk.destination.Some? {
      WholeIsSource(c.disk.destination.value, src);
    }
  }

  lemma AlongsideWrites(src: Bytes, c: Copy, chunk: nat)
    requires Alongside(src, c) && chunk > 0 && c.copied < |src|
    ensures var w := WriteChunk(src, c, chunk); Alongside(src, w) && w.phase.dirty && Alongside(src, Checkpoint(w))
  {
    var got := Min(Min(chunk, |src| - c.copied), |src| - c.phase.input);
    assert |WriteAt(c.phase.content, c.copied, src[c.copied..c.copied + got])| == c.copied + got;
    WriteRight(src, c, chunk);
    hide WriteAt;
  }

  lemma AlongsideRenames(src: Bytes, c: Copy)
    requires Alongside(src, c) && Whole(src, c)
    ensures Rename(src, c).completed && Rename(src, c).disk.destination == Some(src)
  {
    WholeIsSource(c.phase.content, src);
  }

  class FileCopier {
    const src: Bytes
    var disk: Disk
    var phase: Phase
    var copied: nat
    var completed: bool

    function State(): Copy
      reads this
    {
      Copy(disk, phase, copied, completed)
    }

    constructor (src: Bytes, disk: Disk)
      ensures this.src == src && State() == Copy(disk, Away, 0, false)
    {
      this.src, this.disk, phase, copied, completed := src, disk, Away, 0, false;
    }

    method LookForPartial()
      modifies this
      ensures State() == Look(src, old(State()))
    {
      if !phase.Away? || completed {
        return;
      }
      if disk.partial.Some? {
        copied := Min(|disk.partial.value|, |src|);
        phase := Looked;
      } else if disk.destination.Some? {
        if |disk.destination.value| == |src| {
          copied := |src|;
          completed := true;
        }
      } else {
        disk := disk.(partial := Some([]), states := disk.states + [[]]);
        copied := 0;
        phase := Looked;
      }
    }

    method OpenPartial()
      modifies this
      ensures State() == Open(old(State()))
    {
      if phase.Looked? {
        phase := if disk.partial.None? then Away else Copying(disk.partial.value, disk.partial.value, copied, 0, false);
      }
    }

    method Commit()
      modifies this
      ensures State() == CommitProgress(old(State()))
    {
      if !phase.Copying? {
        return;
      }
      if !phase.dirty {
        phase := phase.(rebases := 0);
        copied := |phase.content|;
      } else if disk.partial.None? {
        phase := Away;
      } else if disk.partial.value == phase.basis {
        disk := disk.(partial := Some(phase.content), states := disk.states + [phase.content]);
        phase := phase.(basis := phase.content, rebases := 0, dirty := false);
        copied := |phase.content|;
      } else if phase.rebases >= MAX_REBASES {
        phase := Away;
      } else {
        var now := disk.partial.value;
        copied := Min(|now|, copied);
        phase := Copying(now, now, copied, phase.rebases + 1, false);
      }
    }

    method Leave()
      modifies this
      ensures State() == LeaveOff(old(State()))
    {
      Commit();
      phase := Away;
    }

    method CopyChunk(chunk: nat)
      modifies this
      ensures State() == WriteChunk(src, old(State()), chunk)
    {
      if !phase.Copying? || copied >= |src| || phase.input > |src| {
        return;
      }
      var wanted := Min(chunk, |src| - copied);
      var got := Min(wanted, |src| - phase.input);
      if got == 0 {
        Leave();
        return;
      }
      var bytes := src[phase.input..phase.input + got];
      phase := phase.(content := WriteAt(phase.content, copied, bytes), input := phase.input + got, dirty := true);
      copied := copied + got;
    }

    method FinishAndRename()
      modifies this
      ensures State() == Rename(src, old(State()))
    {
      if !phase.Copying? || phase.dirty || copied < |src| {
        return;
      }
      Commit();
      phase := Away;
      if copied == |src| && disk.partial.Some? && disk.destination.None? {
        disk := Disk(None, [], disk.partial);
        completed := true;
      }
    }

    /** The next merge on the list, if there is one. */
    method Merge(merges: seq<Option<nat>>) returns (rest: seq<Option<nat>>, event: seq<Event>)
      modifies this
      ensures rest == if merges == [] then [] else merges[1..]
      ensures event == if merges != [] && merges[0].Some? then [DoRollBack(merges[0].value)] else []
      ensures State() == Run(src, old(State()), event)
      ensures phase == old(phase) && copied == old(copied) && completed == old(completed)
    {
      rest, event := [], [];
      if merges != [] {
        rest := merges[1..];
        if merges[0].Some? {
          var state := merges[0].value;
          event := [DoRollBack(state)];
          if disk.partial.Some? && state < |disk.states| {
            disk := disk.(partial := Some(disk.states[state]));
          }
        }
      }
    }

    /** The look and the open, with a merge in between. */
    method Begin(merges: seq<Option<nat>>) returns (left: seq<Option<nat>>, trace: seq<Event>)
      requires phase.Away? && !completed
      modifies this
      ensures State() == Run(src, old(State()), trace) && forall e | e in trace :: OwnStep(e)
      ensures !phase.Looked? && |left| <= |merges|
      ensures phase.Copying? ==> !phase.dirty && phase.input <= |src|
      ensures merges == [] && Right(src, old(State())) && Clear(src, old(disk)) ==>
                if completed then phase.Away? && disk.destination == Some(src) else Alongside(src, State())
    {
      ghost var was := State();
      LookForPartial();
      trace := [DoLook];
      if Right(src, was) && Clear(src, was.disk) {
        BeginsAlongside(src, was);
      }
      if !phase.Looked? {
        return merges, trace;
      }
      var event;
      left, event := Merge(merges);
      RunOn(src, was, trace, event);
      trace := trace + event;
      RunStep(src, was, trace, DoOpen);
      OpenPartial();
      trace := trace + [DoOpen];
    }

    /** A merge and then a write. */
    method MergeAndWrite(chunk: nat, merges: seq<Option<nat>>) returns (left: seq<Option<nat>>, trace: seq<Event>)
      requires phase.Copying? && copied < |src| && phase.input <= |src|
      modifies this
      ensures State() == Run(src, old(State()), trace) && forall e | e in trace :: OwnStep(e)
      ensures left == if merges == [] then [] else merges[1..]
      ensures !phase.Looked? && (phase.Copying? ==> phase.dirty && copied <= |src| && phase.input <= |src|)
      ensures merges == [] ==> State() == WriteChunk(src, old(State()), chunk)
    {
      ghost var was := State();
      left, trace := Merge(merges);
      RunStep(src, was, trace, DoWrite(chunk));
      WriteKeepsWithin(src, State(), chunk);
      hide WriteChunk;
      CopyChunk(chunk);
      trace := trace + [DoWrite(chunk)];
    }

    /** A merge and then a commit. */
    method MergeAndCommit(merges: seq<Option<nat>>) returns (left: seq<Option<nat>>, trace: seq<Event>)
      requires phase.Copying? && phase.dirty && copied <= |src| && phase.input <= |src|
      modifies this
      ensures State() == Run(src, old(State()), trace) && forall e | e in trace :: OwnStep(e)
      ensures left == if merges == [] then [] else merges[1..]
      ensures !phase.Looked? && (phase.Copying? ==> !phase.dirty && phase.input <= |src|)
      ensures merges == [] ==> State() == Checkpoint(old(State()))
    {
      ghost var was := State();
      left, trace := Merge(merges);
      RunStep(src, was, trace, DoCommit);
      CommitKeepsWithin(src, State());
      hide CommitProgress;
      Commit();
      trace := trace + [DoCommit];
    }

    /** One round of the loop. */
    method Round(chunk: nat, committing: int, merges: seq<Option<nat>>) returns (left: seq<Option<nat>>, trace: seq<Event>)
      requires phase.Copying? && copied < |src| && phase.input <= |src|
      modifies this
      ensures State() == Run(src, old(State()), trace) && forall e | e in trace :: OwnStep(e)
      ensures !phase.Looked? && |left| <= |merges| && (merges != [] ==> |left| < |merges|)
      ensures phase.Copying? ==> phase.input <= |src| && (copied >= |src| ==> !phase.dirty)
      ensures merges == [] && phase.Copying? ==>
                Stale(State()) < Stale(old(State())) || (Stale(State()) == Stale(old(State())) && copied > old(copied))
      ensures merges == [] && chunk > 0 && Alongside(src, old(State())) ==> left == [] && Alongside(src, State())
    {
      ghost var was := State();
      RoundProgress(src, was, chunk, true);
      RoundProgress(src, was, chunk, false);
      if chunk > 0 && Alongside(src, was) {
        AlongsideWrites(src, was, chunk);
      }
      hide Run, WriteChunk, Checkpoint, Stale, Alongside;
      left, trace := MergeAndWrite(chunk, merges);
      if phase.Copying? && (copied >= committing || copied == |src|) {
        var more;
        left, more := MergeAndCommit(left);
        RunOn(src, was, trace, more);
        trace := trace + more;
      }
    }

    /**
     The whole of it, with merges falling before its steps: whatever they are it ends, and what it did
     is a run. Left alone it ends with the destination holding the source.
     */
    method CopyFile(chunk: nat, checkpoint: nat, merges: seq<Option<nat>>) returns (trace: seq<Event>)
      requires phase.Away? && !completed
      modifies this
      ensures phase.Away? && State() == Run(src, old(State()), trace) && forall e | e in trace :: OwnStep(e)
      ensures Right(src, old(State())) && UndisturbedRun(src, old(State()), trace) ==> Right(src, State())
      ensures merges == [] && chunk > 0 && Right(src, old(State())) && Clear(src, old(disk)) ==>
                completed && disk.destination == Some(src)
    {
      ghost var was := State();
      ghost var alone := merges == [] && chunk > 0 && Right(src, was) && Clear(src, disk);
      var left, more;
      left, trace := Begin(merges);
      var start := copied;
      while phase.Copying? && copied < |src|
        invariant State() == Run(src, was, trace) && forall e | e in trace :: OwnStep(e)
        invariant !phase.Looked?
        invariant phase.Copying? ==> phase.input <= |src| && (copied >= |src| ==> !phase.dirty)
        invariant alone ==> if completed then phase.Away? && disk.destination == Some(src)
                            else left == [] && Alongside(src, State())
        decreases phase.Copying?, |left|, Stale(State()), |src| - copied
      {
        left, more := Round(chunk, start + checkpoint, left);
        RunOn(src, was, trace, more);
        trace := trace + more;
        if phase.Copying? && !phase.dirty {
          start := copied;
        }
      }
      if phase.Copying? {
        if Alongside(src, State()) {
          AlongsideRenames(src, State());
        }
        left, more := Merge(left);
        RunOn(src, was, trace, more);
        trace := trace + more;
        RunStep(src, was, trace, DoRename);
        FinishAndRename();
        trace := trace + [DoRename];
      }
      if Right(src, was) && UndisturbedRun(src, was, trace) {
        RunRight(src, was, trace);
      }
    }
  }
}
