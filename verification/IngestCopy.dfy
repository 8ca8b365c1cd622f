/**
 Copying one file into the namespace through a partial, with crashes, pauses and merges that roll
 the partial's committed state back to an earlier one. The partial and the planned destination
 are this job's alone.
 */
module IngestCopy {
  import opened Options
  import opened Words

  type Bytes = seq<nat>

  /** The namespace: `states` are the contents the partial has been committed with. */
  datatype Disk = Disk(partial: Option<Bytes>, states: seq<Bytes>, destination: Option<Bytes>)

  /**
   A worker: away, between looking at the partial and opening it, or copying through a handle opened
   on `basis`. `input` is its place in the source, and `dirty` a handle written to since its last
   commit or its opening.
   */
  datatype Phase =
    | Away
    | Looked
    | Copying(content: Bytes, basis: Bytes, input: nat, rebases: nat, dirty: bool)

  datatype Copy = Copy(disk: Disk, phase: Phase, copied: nat, completed: bool)

  const FRESH := Copy(Disk(None, [], None), Away, 0, false)

  const MAX_REBASES: nat := 3

  /** A positioned write; a gap before it reads as zeros. */
  function WriteAt(content: Bytes, at: nat, bytes: Bytes): Bytes
  {
    if at <= |content| then
      content[..at] + bytes + if at + |bytes| <= |content| then content[at + |bytes|..] else []
    else content + seq(at - |content|, _ => 0) + bytes
  }

  /** The entry's content is the basis of the handle. */
  predicate Current(c: Copy)
    requires c.phase.Copying?
  {
    c.disk.partial == Some(c.phase.basis)
  }

  function CommitTo(disk: Disk, content: Bytes): Disk
  {
    disk.(partial := Some(content), states := disk.states + [content])
  }

  /** What a worker finds when it comes to the file. */
  function Look(src: Bytes, c: Copy): Copy
  {
    if !c.phase.Away? || c.completed then c
    else if c.disk.partial.Some? then c.(phase := Looked, copied := Min(|c.disk.partial.value|, |src|))
    else if c.disk.destination.Some? then
      if |c.disk.destination.value| == |src| then c.(copied := |src|, completed := true) else c
    else c.(disk := CommitTo(c.disk, []), phase := Looked, copied := 0)
  }

  function Open(c: Copy): Copy
  {
    if !c.phase.Looked? then c
    else if c.disk.partial.None? then c.(phase := Away)
    else c.(phase := Copying(c.disk.partial.value, c.disk.partial.value, c.copied, 0, false))
  }

  /** commit_progress: a clean handle looks at nothing; a dirty one commits, or re-bases on the entry as it is now. */
  function CommitProgress(c: Copy): Copy
  {
    if !c.phase.Copying? then c
    else if !c.phase.dirty then c.(phase := c.phase.(rebases := 0), copied := |c.phase.content|)
    else if c.disk.partial.None? then c.(phase := Away)
    else if Current(c) then
      c.(disk := CommitTo(c.disk, c.phase.content),
         phase := c.phase.(basis := c.phase.content, rebases := 0, dirty := false),
         copied := |c.phase.content|)
    else if c.phase.rebases >= MAX_REBASES then c.(phase := Away)
    else
      var now := c.disk.partial.value;
      var at := Min(|now|, c.copied);
      c.(phase := Copying(now, now, at, c.phase.rebases + 1, false), copied := at)
  }

  /** In the loop there is a commit only after a write. */
  function Checkpoint(c: Copy): Copy { if c.phase.Copying? && c.phase.dirty then CommitProgress(c) else c }

  /** A pause, a stop, a file held or a short read: what is written is committed and the handle goes. */
  function LeaveOff(c: Copy): Copy { CommitProgress(c).(phase := Away) }

  /** One round of the loop: up to `chunk` bytes read at the input's place and written at `copied`. */
  function WriteChunk(src: Bytes, c: Copy, chunk: nat): Copy
  {
    if !c.phase.Copying? || c.copied >= |src| || c.phase.input > |src| then c
    else
      var got := Min(Min(chunk, |src| - c.copied), |src| - c.phase.input);
      if got == 0 then LeaveOff(c)
      else
        var bytes := src[c.phase.input..c.phase.input + got];
        var content := WriteAt(c.phase.content, c.copied, bytes);
        c.(phase := c.phase.(content := content, input := c.phase.input + got, dirty := true), copied := c.copied + got)
  }

  /** The loop has ended: the copy is as long as the source and all of it committed. */
  predicate Whole(src: Bytes, c: Copy) { c.phase.Copying? && !c.phase.dirty && c.copied >= |src| }

  /** The last commit, of a clean handle, the size check and the rename, atomic and refused over a destination. */
  function Rename(src: Bytes, c: Copy): Copy
  {
    if !Whole(src, c) then c
    else
      var done := c.(phase := Away, copied := |c.phase.content|);
      if done.copied != |src| || c.disk.partial.None? || c.disk.destination.Some? then done
      else done.(disk := Disk(None, [], c.disk.partial), completed := true)
  }

  function DropPartial(c: Copy): Copy { c.(disk := c.disk.(partial := None, states := []), phase := Away, copied := 0) }

  /** A crash: the handle goes, and with `forget` so does an unsaved completion. */
  function Crash(c: Copy, forget: bool): Copy { c.(phase := Away, completed := c.completed && !forget) }

  /** A merge puts the partial back to an earlier committed state of it. */
  function RollBack(c: Copy, state: nat): Copy
  {
    if c.disk.partial.None? || state >= |c.disk.states| then c
    else c.(disk := c.disk.(partial := Some(c.disk.states[state])))
  }

  datatype Event =
    | DoLook
    | DoOpen
    | DoWrite(chunk: nat)
    | DoCommit
    | DoLeave
    | DoRename
    | DoDrop
    | DoCrash(forget: bool)
    | DoRollBack(state: nat)

  function Apply(src: Bytes, c: Copy, e: Event): Copy
  {
    match e
    case DoLook => Look(src, c)
    case DoOpen => Open(c)
    case DoWrite(chunk) => WriteChunk(src, c, chunk)
    case DoCommit => Checkpoint(c)
    case DoLeave => LeaveOff(c)
    case DoRename => Rename(src, c)
    case DoDrop => if c.completed then c else DropPartial(c)
    case DoCrash(forget) => Crash(c, forget)
    case DoRollBack(state) => RollBack(c, state)
  }

  function Run(src: Bytes, c: Copy, events: seq<Event>): Copy
    decreases |events|
  {
    if events == [] then c else Run(src, Apply(src, c, events[0]), events[1..])
  }

  lemma {:induction false} RunStep(src: Bytes, c: Copy, events: seq<Event>, e: Event)
    ensures Run(src, c, events + [e]) == Apply(src, Run(src, c, events), e)
    decreases |events|
  {
    hide Apply;
    if events == [] {
      assert ([] + [e])[1..] == [];
    } else {
      assert (events + [e])[1..] == events[1..] + [e];
      RunStep(src, Apply(src, c, events[0]), events[1..], e);
    }
  }

  // Safety

  ghost predicate DiskRight(src: Bytes, disk: Disk)
  {
    && (forall i | 0 <= i < |disk.states| :: disk.states[i] <= src)
    && (disk.partial.Some? ==> disk.partial.value <= src)
    && (disk.destination.Some? ==> disk.destination.value <= src)
  }

  /**
   The handle holds a prefix of the source at least as far as the copy has come, and the input is
   there too, unless there is nothing left to write.
   */
  ghost predicate PhaseRight(src: Bytes, c: Copy)
  {
    c.phase.Copying? ==>
      && c.phase.content <= src && c.phase.basis <= src
      && (c.phase.input == c.copied <= |c.phase.content| || (c.copied == |src| && !c.phase.dirty))
  }

  ghost predicate Right(src: Bytes, c: Copy)
  {
    && DiskRight(src, c.disk) && PhaseRight(src, c)
    && (c.completed ==> c.disk.destination == Some(src))
  }

  /** What is promised: the partial is a prefix of the source, and a completed file is the source. */
  predicate Safe(src: Bytes, c: Copy)
  {
    && (c.disk.partial.Some? ==> c.disk.partial.value <= src)
    && (c.completed ==> c.disk.destination == Some(src))
  }

  /**
   The three places where a rollback can do harm: an open must find what was looked at, a commit
   must find the handle as long as the copy, a rename must find the whole file. At the first two
   there is no harm when nothing is left to write.
   */
  predicate Undisturbed(src: Bytes, c: Copy, e: Event)
  {
    && (e.DoOpen? && c.phase.Looked? && c.disk.partial.Some? ==>
          |c.disk.partial.value| >= c.copied || c.copied == |src|)
    && (e.DoCommit? && c.phase.Copying? && c.phase.dirty && Current(c) ==>
          |c.phase.content| == c.copied || |c.phase.content| == |src|)
    && (e.DoRename? && Whole(src, c) && |c.phase.content| == |src| && c.disk.partial.Some? && c.disk.destination.None? ==>
          |c.disk.partial.value| == |src|)
  }

  ghost predicate UndisturbedRun(src: Bytes, c: Copy, events: seq<Event>)
    decreases |events|
  {
    events != [] ==> Undisturbed(src, c, events[0]) && UndisturbedRun(src, Apply(src, c, events[0]), events[1..])
  }

  lemma WriteKeepsPrefix(src: Bytes, content: Bytes, at: nat, n: nat)
    requires content <= src && at <= |content| && at + n <= |src|
    ensures WriteAt(content, at, src[at..at + n]) <= src
    ensures |WriteAt(content, at, src[at..at + n])| >= at + n
  {
  }

  lemma WholeIsSource(content: Bytes, src: Bytes)
    requires content <= src && |content| == |src|
    ensures content == src
  {
  }

  lemma StepRight(src: Bytes, c: Copy, e: Event)
    requires Right(src, c) && Undisturbed(src, c, e)
    ensures Right(src, Apply(src, c, e))
  {
    hide WriteAt;
    match e
    case DoWrite(chunk) => WriteRight(src, c, chunk);
    case DoLook =>
      if c.disk.destination.Some? && |c.disk.destination.value| == |src| {
        WholeIsSource(c.disk.destination.value, src);
      }
    case DoRename =>
      if c.disk.partial.Some? && |c.disk.partial.value| == |src| {
        WholeIsSource(c.disk.partial.value, src);
      }
    case _ =>
  }

  lemma WriteRight(src: Bytes, c: Copy, chunk: nat)
    requires Right(src, c)
    ensures Right(src, WriteChunk(src, c, chunk))
  {
    hide WriteAt;
    if c.phase.Copying? && c.copied < |src| {
      var got := Min(Min(chunk, |src| - c.copied), |src| - c.phase.input);
      WriteKeepsPrefix(src, c.phase.content, c.copied, got);
    }
  }

  lemma {:induction false} RunRight(src: Bytes, c: Copy, events: seq<Event>)
    requires Right(src, c) && UndisturbedRun(src, c, events)
    ensures Right(src, Run(src, c, events))
    decreases |events|
  {
    hide Apply, Right, Undisturbed;
    if events != [] {
      StepRight(src, c, events[0]);
      RunRight(src, Apply(src, c, events[0]), events[1..]);
    }
  }
}
