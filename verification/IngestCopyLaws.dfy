/**
 When a crash-safe copy is one: the exact condition at each of the three steps a merge can disturb,
 what follows where it fails, and a theorem for merges that keep to certain restrictions.
 */
module IngestCopyLaws {
  import opened Options
  import opened IngestCopy
  import opened Words

  /** In every run undisturbed at the three steps, the partial is a prefix of the source and a completed file is it. */
  lemma CrashSafe(src: Bytes, events: seq<Event>)
    requires UndisturbedRun(src, FRESH, events)
    ensures Safe(src, Run(src, FRESH, events))
  {
    RunRight(src, FRESH, events);
  }

  // The three steps, exactly

  /** A step keeps everything right exactly when it is undisturbed. */
  lemma StepExact(src: Bytes, c: Copy, e: Event)
    requires Right(src, c)
    ensures Right(src, Apply(src, c, e)) <==> Undisturbed(src, c, e)
  {
    if Undisturbed(src, c, e) {
      StepRight(src, c, e);
    }
    hide WriteAt, DiskRight;
  }

  /** An open goes on from the right place exactly when the entry still has what was looked at, or that was all. */
  lemma OpenExact(src: Bytes, c: Copy)
    requires Right(src, c) && c.phase.Looked? && c.disk.partial.Some?
    ensures PhaseRight(src, Open(c)) <==> |c.disk.partial.value| >= c.copied || c.copied == |src|
  {
  }

  /** A commit leaves the input where the copy is exactly when the handle is no longer than the copy, or the source. */
  lemma CommitExact(src: Bytes, c: Copy)
    requires Right(src, c) && c.phase.Copying? && c.phase.dirty && Current(c)
    ensures PhaseRight(src, CommitProgress(c)) <==> |c.phase.content| == c.copied || |c.phase.content| == |src|
  {
  }

  /** A rename completes the file with the source exactly when the entry is still whole. */
  lemma RenameExact(src: Bytes, c: Copy)
    requires Right(src, c) && Whole(src, c) && |c.phase.content| == |src|
    requires c.disk.partial.Some? && c.disk.destination.None?
    ensures Rename(src, c).completed
    ensures Rename(src, c).disk.destination == Some(src) <==> |c.disk.partial.value| == |src|
  {
    if |c.disk.partial.value| == |src| {
      WholeIsSource(c.disk.partial.value, src);
    }
  }

  /** A stale commit re-bases three times in a row; the next gives up. Re-basing on an entry no longer than the copy puts all in step. */
  lemma RebaseExact(src: Bytes, c: Copy)
    requires Right(src, c) && c.phase.Copying? && c.phase.dirty && c.disk.partial.Some? && !Current(c)
    ensures var r := CommitProgress(c);
            if c.phase.rebases < 3 then
              && PhaseRight(src, r) && r.phase.Copying? && r.phase.rebases == c.phase.rebases + 1
              && (|r.phase.content| == r.copied <==> |c.disk.partial.value| <= c.copied)
            else r == c.(phase := Away)
  {
  }

  /** A file left out loses its partial and what was copied of it, never a destination; the next look starts from nothing. */
  lemma DropStartsOver(src: Bytes, c: Copy)
    requires !c.completed && c.disk.destination.None?
    ensures var dropped := Apply(src, c, DoDrop);
            && dropped == Copy(Disk(None, [], None), Away, 0, false)
            && Look(src, dropped) == Copy(Disk(Some([]), [[]], None), Looked, 0, false)
    ensures forall done: Copy | done.completed :: Apply(src, done, DoDrop) == done
  {
    var none: seq<Bytes> := [];
    assert none + [[]] == [[]];
  }

  // Where they fail

  function Zeros(n: nat): Bytes { seq(n, _ => 0) }

  /**
   An open that finds less than was looked at writes beyond the end, and the next commit fills the
   gap with zeros: the partial stays a prefix exactly when the skipped source bytes are zeros.
   */
  lemma ShortOpenCorrupts(src: Bytes, c: Copy, n: nat)
    requires Right(src, c) && c.phase.Looked? && c.disk.partial.Some? && |c.disk.partial.value| < c.copied
    requires 0 < n && c.copied + n <= |src|
    ensures var had := c.disk.partial.value;
            var after := CommitProgress(WriteChunk(src, Open(c), n));
            && after.disk.partial == Some(had + Zeros(c.copied - |had|) + src[c.copied..c.copied + n])
            && (after.disk.partial.value <= src <==> src[|had|..c.copied] == Zeros(c.copied - |had|))
  {
    var had, at := c.disk.partial.value, c.copied;
    var gap, piece := Zeros(at - |had|), src[at..at + n];
    var written := had + gap + piece;
    var after := CommitProgress(WriteChunk(src, Open(c), n));
    assert WriteAt(had, at, piece) == written;
    assert after.disk.partial == Some(written);
    assert src[..at + n] == had + src[|had|..at] + piece;
    if written <= src {
      assert written == src[..at + n];
      assert written[|had|..at] == gap && src[..at + n][|had|..at] == src[|had|..at];
    }
  }

  lemma CommitAhead(src: Bytes, c: Copy, n: nat)
    requires c.phase.Copying? && c.phase.dirty && Current(c)
    requires c.phase.input == c.copied < |c.phase.content|
    requires 0 < n && |c.phase.content| + n <= |src|
    ensures CommitProgress(WriteChunk(src, CommitProgress(c), n)).disk.partial ==
            Some(c.phase.content + src[c.copied..c.copied + n])
  {
    var piece := src[c.copied..c.copied + n];
    assert WriteAt(c.phase.content, |c.phase.content|, piece) == c.phase.content + piece;
    hide WriteAt;
  }

  /**
   A commit through a handle longer than the copy and shorter than the source moves the copy ahead
   of the input, so what is written next comes from the wrong place and the partial stays a prefix
   only by coincidence.
   */
  lemma CommitAheadCorrupts(src: Bytes, c: Copy, n: nat)
    requires Right(src, c) && c.phase.Copying? && c.phase.dirty && Current(c) && |c.phase.content| > c.copied
    requires 0 < n && |c.phase.content| + n <= |src|
    ensures var after := CommitProgress(WriteChunk(src, CommitProgress(c), n));
            && after.disk.partial == Some(c.phase.content + src[c.copied..c.copied + n])
            && (after.disk.partial.value <= src <==>
                  src[c.copied..c.copied + n] == src[|c.phase.content|..|c.phase.content| + n])
  {
    var at, from := |c.phase.content|, c.copied;
    var piece, place := src[from..from + n], src[at..at + n];
    var written := c.phase.content + piece;
    CommitAhead(src, c, n);
    hide CommitProgress, WriteChunk, WriteAt, Right;
    assert src[..at + n] == c.phase.content + place;
    if written <= src {
      assert written == src[..at + n];
      assert written[at..] == piece && src[..at + n][at..] == place;
    }
  }

  // Merges that keep to restrictions

  /** Which merges there may be: any that lengthen the partial, between look and open, once the copy is whole. */
  datatype Merges = Merges(lengthening: bool, beforeOpen: bool, beforeRename: bool)

  const CALM := Merges(false, false, false)

  predicate Allowed(m: Merges, src: Bytes, c: Copy, e: Event)
  {
    e.DoRollBack? && c.disk.partial.Some? && e.state < |c.disk.states| ==>
      && (|c.disk.states[e.state]| > |c.disk.partial.value| ==> m.lengthening)
      && (c.phase.Looked? ==> m.beforeOpen)
      && (Whole(src, c) ==> m.beforeRename)
  }

  ghost predicate AllowedRun(m: Merges, src: Bytes, c: Copy, events: seq<Event>)
    decreases |events|
  {
    events != [] ==> Allowed(m, src, c, events[0]) && AllowedRun(m, src, Apply(src, c, events[0]), events[1..])
  }

  /** What calm runs keep: the handle ends where the copy is, the entry no further, and once whole they are the same. */
  ghost predicate InStep(src: Bytes, c: Copy)
  {
    && (c.phase.Looked? ==> c.disk.partial.Some? && c.copied == |c.disk.partial.value|)
    && (c.phase.Copying? ==>
          |c.phase.content| == c.copied && (c.disk.partial.Some? ==> |c.disk.partial.value| <= c.copied))
    && (Whole(src, c) && c.disk.partial.Some? ==> c.disk.partial.value == c.phase.content)
  }

  lemma InStepUndisturbed(src: Bytes, c: Copy, e: Event)
    requires Right(src, c) && InStep(src, c)
    ensures Undisturbed(src, c, e)
  {
  }

  lemma WriteLength(src: Bytes, content: Bytes, n: nat)
    requires |content| + n <= |src|
    ensures |WriteAt(content, |content|, src[|content|..|content| + n])| == |content| + n
  {
  }

  lemma CalmStep(src: Bytes, c: Copy, e: Event)
    requires Right(src, c) && InStep(src, c) && Allowed(CALM, src, c, e)
    ensures InStep(src, Apply(src, c, e))
  {
    hide WriteAt;
    if e.DoWrite? && c.phase.Copying? && c.copied < |src| {
      var got := Min(Min(e.chunk, |src| - c.copied), |src| - c.phase.input);
      WriteLength(src, c.phase.content, got);
    }
  }

  lemma {:induction false} CalmIsUndisturbed(src: Bytes, c: Copy, events: seq<Event>)
    requires Right(src, c) && InStep(src, c) && AllowedRun(CALM, src, c, events)
    ensures UndisturbedRun(src, c, events)
    decreases |events|
  {
    hide Apply, Right, Allowed, InStep, Undisturbed;
    if events != [] {
      InStepUndisturbed(src, c, events[0]);
      StepRight(src, c, events[0]);
      CalmStep(src, c, events[0]);
      CalmIsUndisturbed(src, Apply(src, c, events[0]), events[1..]);
    }
  }

  /** Merges that only shorten the partial, outside the two gaps, do no harm. */
  lemma CalmRunsAreSafe(src: Bytes, events: seq<Event>)
    requires AllowedRun(CALM, src, FRESH, events)
    ensures Safe(src, Run(src, FRESH, events))
  {
    CalmIsUndisturbed(src, FRESH, events);
    CrashSafe(src, events);
  }

  // Runs that break one restriction each

  /** A run to t by the events, with no other merges than those. */
  ghost predicate Leads(m: Merges, src: Bytes, events: seq<Event>, t: Copy)
  {
    Run(src, FRESH, events) == t && AllowedRun(m, src, FRESH, events)
  }

  lemma {:induction false} AllowedStep(m: Merges, src: Bytes, c: Copy, events: seq<Event>, e: Event)
    requires AllowedRun(m, src, c, events) && Allowed(m, src, Run(src, c, events), e)
    ensures AllowedRun(m, src, c, events + [e])
    decreases |events|
  {
    hide Apply, Allowed;
    if events == [] {
      assert ([] + [e])[1..] == [];
    } else {
      assert (events + [e])[1..] == events[1..] + [e];
      AllowedStep(m, src, Apply(src, c, events[0]), events[1..], e);
    }
  }

  lemma Then(m: Merges, src: Bytes, events: seq<Event>, c: Copy, e: Event, t: Copy)
    requires Leads(m, src, events, c) && t == Apply(src, c, e) && Allowed(m, src, c, e)
    ensures Leads(m, src, events + [e], t)
  {
    hide Apply, Allowed;
    RunStep(src, FRESH, events, e);
    AllowedStep(m, src, FRESH, events, e);
  }

  function Prefixes(src: Bytes, k: nat): seq<Bytes>
    requires k <= |src|
  {
    seq(k + 1, i requires 0 <= i <= k => src[..i])
  }

  /** Some of the source committed, a byte at a time. */
  function Committed(src: Bytes, k: nat): Copy
    requires k <= |src|
  {
    Copy(Disk(Some(src[..k]), Prefixes(src, k), None), Copying(src[..k], src[..k], k, 0, false), k, false)
  }

  lemma {:induction false} Rounds(m: Merges, src: Bytes, k: nat) returns (events: seq<Event>)
    requires k <= |src|
    ensures Leads(m, src, events, Committed(src, k))
  {
    if k == 0 {
      assert Leads(m, src, [], FRESH);
      hide Run, AllowedRun;
      var c := Copy(Disk(Some([]), [[]], None), Looked, 0, false);
      Then(m, src, [], FRESH, DoLook, c);
      events := [] + [DoLook];
      assert Prefixes(src, 0) == [[]];
      Then(m, src, events, c, DoOpen, Committed(src, 0));
      events := events + [DoOpen];
    } else {
      hide Run, AllowedRun;
      events := Rounds(m, src, k - 1);
      var c := Committed(src, k - 1);
      assert WriteAt(src[..k - 1], k - 1, src[k - 1..k]) == src[..k];
      var c1 := c.(phase := Copying(src[..k], src[..k - 1], k, 0, true), copied := k);
      Then(m, src, events, c, DoWrite(1), c1);
      events := events + [DoWrite(1)];
      assert Prefixes(src, k) == Prefixes(src, k - 1) + [src[..k]];
      Then(m, src, events, c1, DoCommit, Committed(src, k));
      events := events + [DoCommit];
    }
  }

  /** Then a crash, and a merge back to nothing between the next look and its open. */
  lemma OpensShort(m: Merges, src: Bytes, k: nat) returns (events: seq<Event>, c: Copy)
    requires m.beforeOpen && 0 < k < |src|
    ensures Leads(m, src, events, c)
    ensures c == Copy(Disk(Some([]), Prefixes(src, k), None), Copying([], [], k, 0, false), k, false)
  {
    hide Run, AllowedRun;
    events := Rounds(m, src, k);
    var c1 := Committed(src, k).(phase := Away);
    Then(m, src, events, Committed(src, k), DoCrash(false), c1);
    events := events + [DoCrash(false)];
    var c2 := c1.(phase := Looked);
    Then(m, src, events, c1, DoLook, c2);
    events := events + [DoLook];
    var c3 := c2.(disk := c2.disk.(partial := Some([])));
    Then(m, src, events, c2, DoRollBack(0), c3);
    events := events + [DoRollBack(0)];
    c := c3.(phase := Copying([], [], k, 0, false));
    Then(m, src, events, c3, DoOpen, c);
    events := events + [DoOpen];
  }

  /**
   So a merge between a look and its open can complete the file with any proper part of its beginning
   replaced by zeros; such a file is the source only where the source had zeros there.
   */
  lemma EarlyRollbackZeroes(m: Merges, src: Bytes, k: nat) returns (events: seq<Event>)
    requires m.beforeOpen && 0 < k < |src|
    ensures AllowedRun(m, src, FRESH, events)
    ensures var c := Run(src, FRESH, events);
            && c.completed && c.disk.destination == Some(Zeros(k) + src[k..])
            && (Safe(src, c) <==> src[..k] == Zeros(k))
  {
    hide Run, AllowedRun;
    var c;
    events, c := OpensShort(m, src, k);
    var left, file := |src| - k, Zeros(k) + src[k..];
    assert src[k..k + left] == src[k..];
    assert WriteAt([], k, src[k..]) == file;
    var c1 := c.(phase := Copying(file, [], |src|, 0, true), copied := |src|);
    Then(m, src, events, c, DoWrite(left), c1);
    events := events + [DoWrite(left)];
    var c2 := c1.(disk := CommitTo(c1.disk, file), phase := Copying(file, file, |src|, 0, false));
    Then(m, src, events, c1, DoCommit, c2);
    events := events + [DoCommit];
    var c3 := Copy(Disk(None, [], Some(file)), Away, |src|, true);
    Then(m, src, events, c2, DoRename, c3);
    events := events + [DoRename];
    assert file[..k] == Zeros(k) && src == src[..k] + src[k..];
  }

  /** A merge once the copy is whole goes unseen, since nothing more is written, and the file is completed with less. */
  lemma LateRollbackTruncates(m: Merges, src: Bytes, k: nat) returns (events: seq<Event>)
    requires m.beforeRename && k < |src|
    ensures AllowedRun(m, src, FRESH, events)
    ensures var c := Run(src, FRESH, events); c.completed && c.disk.destination == Some(src[..k]) && !Safe(src, c)
  {
    hide Run, AllowedRun;
    events := Rounds(m, src, |src|);
    var c := Committed(src, |src|);
    var c1 := c.(disk := c.disk.(partial := Some(src[..k])));
    Then(m, src, events, c, DoRollBack(k), c1);
    events := events + [DoRollBack(k)];
    var c2 := Copy(Disk(None, [], Some(src[..k])), Away, |src|, true);
    Then(m, src, events, c1, DoRename, c2);
    events := events + [DoRename];
  }

  /** Four bytes of five committed, and a merge back to one, which the next commit finds and re-bases on. */
  lemma BackToOne(m: Merges, src: Bytes) returns (events: seq<Event>, c: Copy)
    requires |src| == 5
    ensures Leads(m, src, events, c)
    ensures c == Copy(Disk(Some(src[..1]), Prefixes(src, 4), None), Copying(src[..1], src[..1], 1, 1, false), 1, false)
  {
    hide Run, AllowedRun;
    events := Rounds(m, src, 4);
    var d := Committed(src, 4);
    var d1 := d.(disk := d.disk.(partial := Some(src[..1])));
    Then(m, src, events, d, DoRollBack(1), d1);
    events := events + [DoRollBack(1)];
    assert WriteAt(src[..4], 4, src[4..5]) == src;
    var d2 := d1.(phase := Copying(src, src[..4], 5, 0, true), copied := 5);
    Then(m, src, events, d1, DoWrite(1), d2);
    events := events + [DoWrite(1)];
    assert |src[..1]| != |src[..4]|;
    c := d2.(phase := Copying(src[..1], src[..1], 1, 1, false), copied := 1);
    Then(m, src, events, d2, DoCommit, c);
    events := events + [DoCommit];
  }

  /** A merge on to four, found in the same way: the handle is then longer than the copy. */
  lemma HandleAhead(m: Merges, src: Bytes) returns (events: seq<Event>, c: Copy)
    requires m.lengthening && |src| == 5
    ensures Leads(m, src, events, c)
    ensures c == Copy(Disk(Some(src[..4]), Prefixes(src, 4), None), Copying(src[..4], src[..4], 3, 2, true), 3, false)
  {
    hide Run, AllowedRun;
    events, c := BackToOne(m, src);
    var d1 := c.(disk := c.disk.(partial := Some(src[..4])));
    Then(m, src, events, c, DoRollBack(4), d1);
    events := events + [DoRollBack(4)];
    assert WriteAt(src[..1], 1, src[1..2]) == src[..2];
    var d2 := d1.(phase := Copying(src[..2], src[..1], 2, 1, true), copied := 2);
    Then(m, src, events, d1, DoWrite(1), d2);
    events := events + [DoWrite(1)];
    assert |src[..1]| != |src[..4]|;
    var d3 := d2.(phase := Copying(src[..4], src[..4], 2, 2, false));
    Then(m, src, events, d2, DoCommit, d3);
    events := events + [DoCommit];
    assert WriteAt(src[..4], 2, src[2..3]) == src[..4];
    c := d3.(phase := Copying(src[..4], src[..4], 3, 2, true), copied := 3);
    Then(m, src, events, d3, DoWrite(1), c);
    events := events + [DoWrite(1)];
  }

  /** So merges to a shorter and then a longer state can complete a file of five bytes with its fourth twice. */
  lemma LongerRollbackCorrupts(m: Merges, src: Bytes) returns (events: seq<Event>)
    requires m.lengthening && |src| == 5
    ensures AllowedRun(m, src, FRESH, events)
    ensures var c := Run(src, FRESH, events);
            && c.completed && c.disk.destination == Some(src[..4] + [src[3]])
            && (Safe(src, c) <==> src[3] == src[4])
  {
    hide Run, AllowedRun;
    var c;
    events, c := HandleAhead(m, src);
    var file := src[..4] + [src[3]];
    var c1 := c.(disk := CommitTo(c.disk, src[..4]), phase := Copying(src[..4], src[..4], 3, 0, false), copied := 4);
    Then(m, src, events, c, DoCommit, c1);
    events := events + [DoCommit];
    assert src[3..4] == [src[3]] && WriteAt(src[..4], 4, [src[3]]) == file;
    var c2 := c1.(phase := Copying(file, src[..4], 4, 0, true), copied := 5);
    Then(m, src, events, c1, DoWrite(1), c2);
    events := events + [DoWrite(1)];
    var c3 := c2.(disk := CommitTo(c2.disk, file), phase := Copying(file, file, 4, 0, false));
    Then(m, src, events, c2, DoCommit, c3);
    events := events + [DoCommit];
    var c4 := Copy(Disk(None, [], Some(file)), Away, 5, true);
    Then(m, src, events, c3, DoRename, c4);
    events := events + [DoRename];
    assert file[4] == src[3] && src == src[..4] + [src[4]];
  }

  ghost predicate SafeUnder(m: Merges)
  {
    forall src, events | AllowedRun(m, src, FRESH, events) :: Safe(src, Run(src, FRESH, events))
  }

  /** Every run of every source is safe exactly when merges keep to all three restrictions. */
  lemma SafeExactly(m: Merges)
    ensures SafeUnder(m) <==> m == CALM
  {
    hide Run, AllowedRun;
    if m == CALM {
      forall src, events | AllowedRun(m, src, FRESH, events)
        ensures Safe(src, Run(src, FRESH, events))
      {
        CalmRunsAreSafe(src, events);
      }
    } else if m.lengthening {
      var src := [0, 1, 2, 3, 4];
      var events := LongerRollbackCorrupts(m, src);
      assert !Safe(src, Run(src, FRESH, events));
    } else if m.beforeOpen {
      var events := EarlyRollbackZeroes(m, [1, 2], 1);
      assert [1, 2][..1][0] != Zeros(1)[0];
      assert !Safe([1, 2], Run([1, 2], FRESH, events));
    } else {
      var events := LateRollbackTruncates(m, [1], 0);
      assert !Safe([1], Run([1], FRESH, events));
    }
  }
}
