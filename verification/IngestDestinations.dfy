/**
 resolve_duplicate_destinations: before a job runs, every file still to import is given a
 destination no other file of the job has.
 */
module IngestDestinations {
  import opened Arithmetic
  import opened Options
  import opened IngestJobs
  import opened IngestPaths

  /** What getattr says of a path: names that exist, names it fails for; any other is missing. */
  datatype Namespace = Namespace(present: set<string>, failing: set<string>)

  /** Still to import: neither completed nor failed. */
  predicate ToImport(f: File) { !f.completed && !f.failed }

  function TemporaryFor(destination: string, id: Id): string
  {
    destination + ".macha-ingest-" + (if |id| <= 12 then id else id[..12]) + ".part"
  }

  /** The partial is beside the destination, marked with the first twelve characters of the job's id or all of a shorter one. */
  lemma TemporaryExact(destination: string, id: Id)
    ensures exists mark: string ::
              && mark <= id && |mark| == (if |id| < 12 then |id| else 12)
              && TemporaryFor(destination, id) == destination + ".macha-ingest-" + mark + ".part"
  {
    var mark := if |id| < 12 then id else id[..12];
    assert mark <= id && TemporaryFor(destination, id) == destination + ".macha-ingest-" + mark + ".part";
  }

  /** A file before and after: as it was, or under a suffixed name with nothing copied. */
  ghost predicate Replanned(before: File, after: File, id: Id, ns: Namespace)
  {
    || after == before
    || (&& ToImport(before)
        && after == before.(destination := after.destination, temporary := TemporaryFor(after.destination, id), copied := 0)
        && after.destination !in ns.present
        && exists suffix: nat :: suffix >= 2 && after.destination == AppendCollisionSuffix(before.destination, suffix))
  }

  function CompletedDestinations(files: seq<File>): set<string>
  {
    set i | 0 <= i < |files| && files[i].completed :: files[i].destination
  }

  /** Every file to import has a destination of its own, apart from those completed. */
  ghost predicate Separate(files: seq<File>)
  {
    && (forall i, j | 0 <= i < j < |files| && ToImport(files[i]) && ToImport(files[j]) ::
          files[i].destination != files[j].destination)
    && (forall i, j | 0 <= i < |files| && 0 <= j < |files| && ToImport(files[i]) && files[j].completed ::
          files[i].destination != files[j].destination)
  }

  // The search for a free name ends

  function Tried(base: string, suffix: nat): set<string>
  {
    set k | 2 <= k < suffix :: AppendCollisionSuffix(base, k)
  }

  lemma {:induction false} TriedCount(base: string, suffix: nat)
    requires suffix >= 2
    ensures |Tried(base, suffix)| == suffix - 2
    decreases suffix
  {
    if suffix > 2 {
      TriedCount(base, suffix - 1);
      var last := AppendCollisionSuffix(base, suffix - 1);
      assert last !in Tried(base, suffix - 1) by {
        forall k | 2 <= k < suffix - 1
          ensures AppendCollisionSuffix(base, k) != last
        {
          if AppendCollisionSuffix(base, k) == last {
            SuffixesDistinct(base, k, suffix - 1);
          }
        }
      }
      assert Tried(base, suffix) == Tried(base, suffix - 1) + {last};
    } else {
      assert Tried(base, suffix) == {};
    }
  }

  /** No more suffixes are passed over than there are names taken. */
  lemma SearchBounded(base: string, suffix: nat, taken: set<string>)
    requires suffix >= 2 && Tried(base, suffix) <= taken
    ensures suffix - 2 <= |taken|
  {
    TriedCount(base, suffix);
    SubsetCount(Tried(base, suffix), taken);
  }

  /** The first suffixed name neither used by the job nor present, unless getattr fails on the way. */
  method FreeName(base: string, used: set<string>, ns: Namespace) returns (found: Option<string>)
    ensures found.Some? ==>
              && found.value !in used && found.value !in ns.present
              && exists suffix: nat ::
                   && suffix >= 2 && found.value == AppendCollisionSuffix(base, suffix)
                   && forall k | 2 <= k < suffix :: AppendCollisionSuffix(base, k) in used + ns.present
    ensures found.None? ==> exists suffix: nat :: suffix >= 2 && AppendCollisionSuffix(base, suffix) in ns.failing
  {
    var suffix := 2;
    ghost var taken := used + ns.present;
    while true
      invariant suffix >= 2 && Tried(base, suffix) <= taken
      invariant forall k | 2 <= k < suffix :: AppendCollisionSuffix(base, k) in taken
      decreases |taken| + 2 - suffix
    {
      var candidate := AppendCollisionSuffix(base, suffix);
      if candidate !in used {
        if candidate in ns.failing {
          return None;
        }
        if candidate !in ns.present {
          return Some(candidate);
        }
      }
      assert Tried(base, suffix + 1) == Tried(base, suffix) + {candidate};
      SearchBounded(base, suffix + 1, taken);
      suffix := suffix + 1;
    }
  }

  /** The loop's state: the first n files are settled, and `used` holds their names and the completed ones. */
  ghost predicate Settled(files: seq<File>, used: set<string>, n: nat)
    requires n <= |files|
  {
    && CompletedDestinations(files) <= used
    && (forall i | 0 <= i < n && ToImport(files[i]) :: files[i].destination in used)
    && (forall i, j | 0 <= i < j < n && ToImport(files[i]) && ToImport(files[j]) ::
          files[i].destination != files[j].destination)
    && (forall i, j | 0 <= i < n && 0 <= j < |files| && ToImport(files[i]) && files[j].completed ::
          files[i].destination != files[j].destination)
  }

  lemma SettleNext(files: seq<File>, used: set<string>, n: nat, f: File)
    requires n < |files| && Settled(files, used, n) && ToImport(files[n]) && ToImport(f) && f.destination !in used
    ensures Settled(files[n := f], used + {f.destination}, n + 1)
  {
    var after := files[n := f];
    assert CompletedDestinations(after) == CompletedDestinations(files) by {
      assert forall i | 0 <= i < |files| :: after[i].completed == files[i].completed;
    }
    forall j | 0 <= j < |files| && after[j].completed
      ensures f.destination != after[j].destination
    {
      assert files[j].destination in CompletedDestinations(files);
    }
  }

  lemma SettleSkipped(files: seq<File>, used: set<string>, n: nat)
    requires n < |files| && Settled(files, used, n) && !ToImport(files[n])
    ensures Settled(files, used, n + 1)
  {
  }

  /**
   Files still to import end up apart, completed and failed ones untouched, and a name is changed
   only where it was taken. Refused only when getattr fails for some suffixed name.
   */
  method ResolveDuplicateDestinations(files: seq<File>, id: Id, ns: Namespace) returns (resolved: Option<seq<File>>)
    ensures resolved.Some? ==>
              && |resolved.value| == |files| && Separate(resolved.value)
              && (forall i | 0 <= i < |files| :: Replanned(files[i], resolved.value[i], id, ns))
              && (forall i | 0 <= i < |files| && resolved.value[i] != files[i] ::
                    files[i].destination in CompletedDestinations(files) + Imported(resolved.value, i))
    ensures resolved.None? ==>
              exists i, suffix: nat :: 0 <= i < |files| && AppendCollisionSuffix(files[i].destination, suffix) in ns.failing
  {
    hide Settled, Separate, AppendCollisionSuffix, CompletedDestinations, Imported, Replanned;
    var used := CollectCompleted(files);
    var out := files;
    SettledFirst(files, used);
    for i := 0 to |files|
      invariant |out| == |files| && Settled(out, used, i)
      invariant forall k | 0 <= k < i :: Replanned(files[k], out[k], id, ns)
      invariant forall k | i <= k < |files| :: out[k] == files[k]
      invariant used == CompletedDestinations(files) + Imported(out, i)
      invariant forall k | 0 <= k < i && out[k] != files[k] ::
          files[k].destination in CompletedDestinations(files) + Imported(out, k)
    {
      ImportedStep(out, i);
      if !ToImport(out[i]) {
        SettleSkipped(out, used, i);
        Unplanned(files[i], id, ns);
      } else if out[i].destination !in used {
        SettleNext(out, used, i, out[i]);
        Unplanned(files[i], id, ns);
        assert out[i := out[i]] == out;
        used := used + {out[i].destination};
      } else {
        var candidate := FreeName(out[i].destination, used, ns);
        if candidate.None? {
          return None;
        }
        var f := out[i].(destination := candidate.value, temporary := TemporaryFor(candidate.value, id), copied := 0);
        SettleNext(out, used, i, f);
        Planned(files[i], f, id, ns);
        ImportedBefore(out, i, f);
        out := out[i := f];
        ImportedStep(out, i);
        used := used + {candidate.value};
      }
    }
    SettledLast(out, used);
    return Some(out);
  }

  method CollectCompleted(files: seq<File>) returns (used: set<string>)
    ensures used == CompletedDestinations(files)
  {
    used := {};
    for i := 0 to |files|
      invariant used == CompletedDestinations(files[..i])
    {
      if files[i].completed {
        used := used + {files[i].destination};
      }
      assert files[..i + 1] == files[..i] + [files[i]];
      CompletedStep(files[..i], files[i]);
    }
    assert files[..|files|] == files;
  }

  lemma SettledFirst(files: seq<File>, used: set<string>)
    requires used == CompletedDestinations(files)
    ensures Settled(files, used, 0) && used == CompletedDestinations(files) + Imported(files, 0)
  {
  }

  lemma SettledLast(files: seq<File>, used: set<string>)
    requires Settled(files, used, |files|)
    ensures Separate(files)
  {
  }

  lemma Unplanned(f: File, id: Id, ns: Namespace)
    ensures Replanned(f, f, id, ns)
  {
  }

  lemma Planned(before: File, after: File, id: Id, ns: Namespace)
    requires ToImport(before) && after.destination !in ns.present
    requires after == before.(destination := after.destination, temporary := TemporaryFor(after.destination, id), copied := 0)
    requires exists suffix: nat :: suffix >= 2 && after.destination == AppendCollisionSuffix(before.destination, suffix)
    ensures Replanned(before, after, id, ns)
  {
  }

  lemma CompletedStep(files: seq<File>, f: File)
    ensures CompletedDestinations(files + [f]) ==
            CompletedDestinations(files) + if f.completed then {f.destination} else {}
  {
    var all := files + [f];
    assert forall i | 0 <= i < |files| :: all[i] == files[i];
    assert all[|files|] == f;
  }

  /** Destinations of the files to import among the first n. */
  function Imported(files: seq<File>, n: nat): set<string>
    requires n <= |files|
  {
    set i | 0 <= i < n && ToImport(files[i]) :: files[i].destination
  }

  lemma ImportedStep(files: seq<File>, n: nat)
    requires n < |files|
    ensures Imported(files, n + 1) == Imported(files, n) + if ToImport(files[n]) then {files[n].destination} else {}
  {
  }

  lemma ImportedBefore(files: seq<File>, n: nat, f: File)
    requires n < |files|
    ensures forall k | 0 <= k <= n :: Imported(files[n := f], k) == Imported(files, k)
  {
    var after := files[n := f];
    forall k | 0 <= k <= n
      ensures Imported(after, k) == Imported(files, k)
    {
      assert forall i | 0 <= i < k :: after[i] == files[i];
    }
  }
}
