/**
 What the log holds after any run: windows that tile it, each exact about what landed in it, and
 events in order with the missing ones counted.
 */
module ObservationLaws {
  import opened ObservationBuckets
  import opened ObservationHistogram
  import opened ObservationRegistry
  import opened ObservationWindows
  import opened Words

  // Windows as differences of moments

  datatype Window = Window(from: nat, to: nat, moment: Moment)

  function Windows(log: seq<Line>): seq<Window>
  {
    if log == [] then []
    else
      var last := log[|log| - 1];
      if last.WindowLine? then Windows(log[..|log| - 1]) + [Window(last.from, last.to, last.window)]
      else Windows(log[..|log| - 1])
  }

  lemma {:induction false} WindowsConcat(log: seq<Line>, more: seq<Line>)
    ensures Windows(log + more) == Windows(log) + Windows(more)
    decreases |more|
  {
    if more == [] {
      assert log + more == log;
    } else {
      WindowsConcat(log, more[..|more| - 1]);
      assert (log + more)[..|log + more| - 1] == log + more[..|more| - 1];
    }
  }

  lemma {:induction false} EventLinesNoWindows(lines: seq<Line>)
    requires forall i | 0 <= i < |lines| :: lines[i].EventLine?
    ensures Windows(lines) == []
  {
    if lines != [] {
      EventLinesNoWindows(lines[..|lines| - 1]);
    }
  }

  /** The registry as of the first n steps, as a moment. */
  function MomentAt(bounds: Bounds, actions: seq<Action>, n: nat): (m: Moment)
    requires n <= |actions|
    ensures MomentSized(m)
  {
    MomentOfSized(Run(bounds, actions[..n]).registry);
    MomentOf(Run(bounds, actions[..n]).registry)
  }

  /** The moment a window starts from. */
  function Opening(bounds: Bounds, actions: seq<Action>, first: bool, n: nat): (m: Moment)
    requires n <= |actions|
    ensures MomentSized(m)
  {
    if first then NO_MOMENT else MomentAt(bounds, actions, n)
  }

  /** The i-th window starts where the one before ended and is the difference over its steps. */
  ghost predicate Tiles(bounds: Bounds, actions: seq<Action>, ws: seq<Window>, i: nat)
    requires i < |ws|
  {
    var w := ws[i];
    && w.from == (if i == 0 then 0 else ws[i - 1].to)
    && w.from <= w.to <= |actions|
    && w.moment == MomentSince(MomentAt(bounds, actions, w.to), Opening(bounds, actions, i == 0, w.from))
  }

  ghost predicate LogHolds(bounds: Bounds, actions: seq<Action>, s: System)
  {
    var ws := Windows(s.log);
    && s.now == |actions|
    && s.from <= |actions|
    && s.from == (if ws == [] then 0 else ws[|ws| - 1].to)
    && s.previous == Opening(bounds, actions, ws == [], s.from)
    && (!s.phase.Idle? ==> s.from <= s.phase.at <= |actions| && s.phase.current == MomentAt(bounds, actions, s.phase.at))
    && forall i | 0 <= i < |ws| :: Tiles(bounds, actions, ws, i)
  }

  lemma MomentKept(bounds: Bounds, before: seq<Action>, actions: seq<Action>, n: nat)
    requires before <= actions && n <= |before|
    ensures MomentAt(bounds, actions, n) == MomentAt(bounds, before, n)
  {
    assert actions[..n] == before[..n];
  }

  lemma TilesKept(bounds: Bounds, before: seq<Action>, actions: seq<Action>, ws: seq<Window>, i: nat)
    requires before <= actions && i < |ws| && Tiles(bounds, before, ws, i)
    ensures Tiles(bounds, actions, ws, i)
  {
    hide MomentAt, MomentSince;
    MomentKept(bounds, before, actions, ws[i].to);
    MomentKept(bounds, before, actions, ws[i].from);
  }

  /** A step that leaves the recorder and its windows alone. */
  lemma LogUntouched(bounds: Bounds, before: seq<Action>, actions: seq<Action>, s: System, after: System)
    requires LogHolds(bounds, before, s) && before <= actions
    requires after.now == |actions| && Windows(after.log) == Windows(s.log) && after.from == s.from
    requires after.previous == s.previous
    requires !after.phase.Idle? ==>
      || (!s.phase.Idle? && after.phase.at == s.phase.at && after.phase.current == s.phase.current)
      || (after.phase.at == |before| && after.phase.current == MomentAt(bounds, before, |before|))
    ensures LogHolds(bounds, actions, after)
  {
    hide MomentAt, MomentSince, Tiles;
    var ws := Windows(s.log);
    MomentKept(bounds, before, actions, s.from);
    if !after.phase.Idle? {
      MomentKept(bounds, before, actions, after.phase.at);
    }
    forall i | 0 <= i < |ws|
      ensures Tiles(bounds, actions, ws, i)
    {
      TilesKept(bounds, before, actions, ws, i);
    }
  }

  lemma LogWritten(bounds: Bounds, before: seq<Action>, actions: seq<Action>, s: System)
    requires WellSized(s) && LogHolds(bounds, before, s) && s.phase.Drained?
    requires actions == before + [Write]
    ensures LogHolds(bounds, actions, Apply(bounds, s, Write))
  {
    hide MomentAt, MomentSince;
    var after := Apply(bounds, s, Write);
    var line := WindowLine(s.from, s.phase.at, MomentSince(s.phase.current, s.previous));
    var ws, all := Windows(s.log), Windows(after.log);
    WindowsConcat(s.log, [line]);
    assert Windows([line]) == [Window(line.from, line.to, line.window)];
    assert all == ws + [Window(line.from, line.to, line.window)];
    MomentKept(bounds, before, actions, s.from);
    MomentKept(bounds, before, actions, s.phase.at);
    forall i | 0 <= i < |all|
      ensures Tiles(bounds, actions, all, i)
    {
      if i < |ws| {
        TilesKept(bounds, before, actions, ws, i);
      }
    }
  }

  lemma {:induction false} RunLog(bounds: Bounds, actions: seq<Action>)
    ensures LogHolds(bounds, actions, Run(bounds, actions))
  {
    if actions != [] {
      var before, a := actions[..|actions| - 1], actions[|actions| - 1];
      var s := Run(bounds, before);
      assert actions == before + [a];
      RunLog(bounds, before);
      if a.Write? && s.phase.Drained? {
        LogWritten(bounds, before, actions, s);
      } else {
        StepKeepsLog(bounds, before, a, s);
        LogUntouched(bounds, before, actions, s, Apply(bounds, s, a));
      }
    }
  }

  lemma StepKeepsLog(bounds: Bounds, before: seq<Action>, a: Action, s: System)
    requires s == Run(bounds, before) && LogHolds(bounds, before, s)
    requires !(a.Write? && s.phase.Drained?)
    ensures var after := Apply(bounds, s, a);
            && after.now == |before| + 1 && Windows(after.log) == Windows(s.log) && after.from == s.from
            && after.previous == s.previous
            && (!after.phase.Idle? ==>
                  || (!s.phase.Idle? && after.phase.at == s.phase.at && after.phase.current == s.phase.current)
                  || (after.phase.at == |before| && after.phase.current == MomentAt(bounds, before, |before|)))
  {
    hide Recording, Adding, Noting, Run, MomentOf, MomentSince;
    assert before[..|before|] == before;
    if a.Drain? && s.phase.Snapped? {
      var lines := EventLines(s.registry.events);
      WindowsConcat(s.log, lines);
      EventLinesNoWindows(lines);
    }
  }

  // What landed only grows

  lemma {:induction false} LandedGrows(max: nat, kind: Kind, actions: seq<Action>, n: nat, name: string)
    requires n <= |actions|
    ensures Landed(max, kind, actions[..n], name) <= Landed(max, kind, actions, name)
    decreases |actions|
  {
    if n < |actions| {
      var before := actions[..|actions| - 1];
      LandedGrows(max, kind, before, n, name);
      assert before[..n] == actions[..n];
    } else {
      assert actions[..n] == actions;
    }
  }

  lemma {:induction false} SpilledGrows(max: nat, kind: Kind, actions: seq<Action>, n: nat)
    requires n <= |actions|
    ensures Spilled(max, kind, actions[..n]) <= Spilled(max, kind, actions)
    decreases |actions|
  {
    if n < |actions| {
      var before := actions[..|actions| - 1];
      SpilledGrows(max, kind, before, n);
      assert before[..n] == actions[..n];
    } else {
      assert actions[..n] == actions;
    }
  }

  /** Series are never removed, and once the bound is reached none is added. */
  lemma {:induction false} TrackedGrows(max: nat, kind: Kind, actions: seq<Action>, n: nat)
    requires n <= |actions|
    ensures Tracked(max, kind, actions[..n]) <= Tracked(max, kind, actions)
    ensures |Tracked(max, kind, actions[..n])| >= max ==> Tracked(max, kind, actions) == Tracked(max, kind, actions[..n])
    decreases |actions|
  {
    if n < |actions| {
      var before := actions[..|actions| - 1];
      TrackedGrows(max, kind, before, n);
      assert before[..n] == actions[..n];
    } else {
      assert actions[..n] == actions;
    }
  }

  // Histograms

  /** What a window subtracts for a series is a histogram of what had landed in it by then. */
  lemma EarlierHolds(bounds: Bounds, actions: seq<Action>, first: bool, n: nat, name: string) returns (h: Histogram)
    requires |actions| < U64 && n <= |actions| && (first ==> n == 0)
    requires name in Tracked(bounds.maxSeries, Timing, actions)
    ensures Earlier(Opening(bounds, actions, first, n), name) == SnapshotOf(h)
    ensures Holds(h, Landed(bounds.maxSeries, Timing, actions[..n], name))
  {
    hide Run, Tracked, Landed, Spilled, Holds, SnapshotOf;
    var max, past := bounds.maxSeries, actions[..n];
    RegistryTimings(bounds, past);
    LandedShort(max, Timing, past, name);
    SpilledShort(max, Timing, past);
    TrackedGrows(max, Timing, actions, n);
    EmptyHolds();
    var r := Run(bounds, past).registry;
    if first {
      NothingLanded(max, name);
      h := EMPTY;
    } else if name in r.histograms {
      h := r.histograms[name];
    } else if name == OVERFLOW {
      h := r.overflowHistogram;
    } else {
      h := EMPTY;
    }
  }

  lemma NothingLanded(max: nat, name: string)
    ensures Landed(max, Timing, [], name) == []
  {
  }

  lemma WindowOfMoments(current: Moment, earlier: Moment, name: string, c: Histogram, e: Histogram)
    requires MomentSized(current) && MomentSized(earlier) && Sized(c.buckets) && Sized(e.buckets)
    requires name in current.histograms && current.histograms[name] == SnapshotOf(c)
    requires Earlier(earlier, name) == SnapshotOf(e)
    ensures name in MomentSince(current, earlier).histograms
    ensures MomentSince(current, earlier).histograms[name] == Since(SnapshotOf(c), SnapshotOf(e))
  {
    hide Since, SnapshotOf, Earlier;
  }

  /** The window that a run wrote as its i-th. */
  ghost function WindowAt(bounds: Bounds, actions: seq<Action>, i: nat): (w: Window)
    requires i < |Windows(Run(bounds, actions).log)|
    ensures w.from <= w.to <= |actions|
  {
    RunLog(bounds, actions);
    assert Tiles(bounds, actions, Windows(Run(bounds, actions).log), i);
    Windows(Run(bounds, actions).log)[i]
  }

  /** Values of a series between two points of a run. */
  function LandedBetween(max: nat, kind: Kind, actions: seq<Action>, from: nat, to: nat, name: string): seq<u64>
    requires from <= to <= |actions|
  {
    LandedGrows(max, kind, actions[..to], from, name);
    assert actions[..to][..from] == actions[..from];
    Landed(max, kind, actions[..to], name)[|Landed(max, kind, actions[..from], name)|..]
  }

  /** The window is right about a series: its counts exact, its max right to an eighth, its sum right unless it wraps. */
  ghost predicate RightAbout(s: Snapshot, before: seq<u64>, since: seq<u64>)
  {
    && Exact(s, since)
    && (s.sum == SumOf(since) <==> Wrap(SumOf(before)) + SumOf(since) < U64)
  }

  ghost predicate SeriesRight(max: nat, actions: seq<Action>, w: Window, name: string)
  {
    && w.from <= w.to <= |actions| && name in w.moment.histograms
    && RightAbout(w.moment.histograms[name], Landed(max, Timing, actions[..w.from], name),
                  LandedBetween(max, Timing, actions, w.from, w.to, name))
  }

  /** Every window of every run is right about every series there is when it is taken. */
  lemma SeriesWindowExact(bounds: Bounds, actions: seq<Action>, i: nat, name: string)
    requires |actions| < U64 && i < |Windows(Run(bounds, actions).log)|
    requires name in Tracked(bounds.maxSeries, Timing, actions[..WindowAt(bounds, actions, i).to])
    ensures SeriesRight(bounds.maxSeries, actions, WindowAt(bounds, actions, i), name)
  {
    hide Run, Tracked, Landed, RightAbout, MomentSince, LandedBetween;
    RunLog(bounds, actions);
    var w := WindowAt(bounds, actions, i);
    assert Tiles(bounds, actions, Windows(Run(bounds, actions).log), i);
    var now := actions[..w.to];
    MomentKept(bounds, now, actions, w.to);
    MomentKept(bounds, now, actions, w.from);
    BetweenKept(bounds.maxSeries, Timing, actions, w.from, w.to, name);
    SeriesDifference(bounds, now, i == 0, w.from, name);
  }

  lemma BetweenKept(max: nat, kind: Kind, actions: seq<Action>, from: nat, to: nat, name: string)
    requires from <= to <= |actions|
    ensures actions[..to][..from] == actions[..from]
    ensures LandedBetween(max, kind, actions[..to], from, to, name) == LandedBetween(max, kind, actions, from, to, name)
  {
    hide Landed;
    assert actions[..to][..to] == actions[..to];
    assert actions[..to][..from] == actions[..from];
  }

  lemma SeriesDifference(bounds: Bounds, actions: seq<Action>, first: bool, n: nat, name: string)
    requires |actions| < U64 && n <= |actions| && (first ==> n == 0)
    requires name in Tracked(bounds.maxSeries, Timing, actions)
    ensures var m := MomentSince(MomentAt(bounds, actions, |actions|), Opening(bounds, actions, first, n));
            && name in m.histograms
            && RightAbout(m.histograms[name], Landed(bounds.maxSeries, Timing, actions[..n], name),
                          LandedBetween(bounds.maxSeries, Timing, actions, n, |actions|, name))
  {
    hide Run, Tracked, Landed, LandedBetween, Exact, SnapshotOf, Since, Wrap, SumOf, CountIn, MaxOf;
    var max := bounds.maxSeries;
    assert actions[..|actions|] == actions;
    RegistryTimings(bounds, actions);
    var current := Run(bounds, actions).registry.histograms[name];
    var earlier := EarlierHolds(bounds, actions, first, n, name);
    var before, since := BetweenSplits(max, Timing, actions, n, name);
    WindowOfMoments(MomentAt(bounds, actions, |actions|), Opening(bounds, actions, first, n), name, current, earlier);
    WindowExact(current, earlier, before, since);
  }

  lemma BetweenSplits(max: nat, kind: Kind, actions: seq<Action>, n: nat, name: string) returns (before: seq<u64>, since: seq<u64>)
    requires n <= |actions|
    ensures before == Landed(max, kind, actions[..n], name)
    ensures since == LandedBetween(max, kind, actions, n, |actions|, name)
    ensures before + since == Landed(max, kind, actions, name)
  {
    hide Landed;
    assert actions[..|actions|] == actions;
    LandedGrows(max, kind, actions, n, name);
    before, since := Landed(max, kind, actions[..n], name), LandedBetween(max, kind, actions, n, |actions|, name);
  }

  /** How often one window counts a bucket of a series. */
  function CountedIn(m: Moment, name: string, b: nat): nat
  {
    if name in m.histograms && b < |m.histograms[name].buckets| then m.histograms[name].buckets[b] else 0
  }

  /** How often the windows count a bucket of a series. */
  function TimesCounted(ws: seq<Window>, name: string, b: nat): nat
  {
    if ws == [] then 0
    else
      var m := ws[|ws| - 1].moment;
      TimesCounted(ws[..|ws| - 1], name, b) + CountedIn(m, name, b)
  }

  /** What the series of a name has to report: the values without room as long as no series has taken their name. */
  function Reported(max: nat, actions: seq<Action>, name: string): seq<u64>
  {
    if name == OVERFLOW && OVERFLOW !in Tracked(max, Timing, actions) then Spilled(max, Timing, actions)
    else Landed(max, Timing, actions, name)
  }

  /** Across all windows of a run, each value a series has to report by the last of them is counted once. */
  lemma EachValueOnce(bounds: Bounds, actions: seq<Action>, name: string, b: nat)
    requires |actions| < U64 && b < BUCKETS
    ensures var s := Run(bounds, actions);
            && s.from <= |actions|
            && TimesCounted(Windows(s.log), name, b) == CountIn(Reported(bounds.maxSeries, actions[..s.from], name), b)
  {
    hide Reported, CountIn;
    RunLog(bounds, actions);
    var s := Run(bounds, actions);
    var ws := Windows(s.log);
    assert ws[..|ws|] == ws;
    CountedUpTo(bounds, actions, ws, |ws|, name, b);
    if ws == [] {
      assert actions[..0] == [];
      NothingReported(bounds.maxSeries, name, b);
    }
  }

  lemma NothingReported(max: nat, name: string, b: nat)
    ensures CountIn(Reported(max, [], name), b) == 0
  {
  }

  lemma {:induction false} CountedUpTo(bounds: Bounds, actions: seq<Action>, ws: seq<Window>, n: nat, name: string, b: nat)
    requires |actions| < U64 && b < BUCKETS && n <= |ws|
    requires forall i | 0 <= i < |ws| :: Tiles(bounds, actions, ws, i)
    ensures n > 0 ==> ws[n - 1].to <= |actions|
    ensures TimesCounted(ws[..n], name, b) ==
            if n == 0 then 0 else CountIn(Reported(bounds.maxSeries, actions[..ws[n - 1].to], name), b)
    decreases n
  {
    hide CountIn, Reported, Run, MomentSince;
    if n > 0 {
      CountedUpTo(bounds, actions, ws, n - 1, name, b);
      assert Tiles(bounds, actions, ws, n - 1);
      assert ws[..n][..n - 1] == ws[..n - 1];
      CountedInWindow(bounds, actions, n == 1, ws[n - 1], name, b);
    }
  }

  lemma CountedInWindow(bounds: Bounds, actions: seq<Action>, first: bool, w: Window, name: string, b: nat)
    requires |actions| < U64 && b < BUCKETS
    requires w.from <= w.to <= |actions| && (first ==> w.from == 0)
    requires w.moment == MomentSince(MomentAt(bounds, actions, w.to), Opening(bounds, actions, first, w.from))
    ensures CountIn(Reported(bounds.maxSeries, actions[..w.to], name), b) ==
            (if first then 0 else CountIn(Reported(bounds.maxSeries, actions[..w.from], name), b)) + CountedIn(w.moment, name, b)
  {
    hide CountIn, Landed, Spilled, Tracked, Run, MomentSince;
    var max, now := bounds.maxSeries, actions[..w.to];
    assert now[..w.from] == actions[..w.from];
    MomentKept(bounds, now, actions, w.to);
    MomentKept(bounds, now, actions, w.from);
    if first {
      assert actions[..0] == [];
      NothingReported(max, name, b);
    }
    hide Reported;
    CountedSince(bounds, now, first, w.from, name, b);
  }

  lemma CountedSince(bounds: Bounds, now: seq<Action>, first: bool, from: nat, name: string, b: nat)
    requires |now| < U64 && b < BUCKETS && from <= |now| && (first ==> from == 0)
    ensures var m := MomentSince(MomentAt(bounds, now, |now|), Opening(bounds, now, first, from));
            CountIn(Reported(bounds.maxSeries, now, name), b) ==
            CountIn(Reported(bounds.maxSeries, now[..from], name), b) + CountedIn(m, name, b)
  {
    var max := bounds.maxSeries;
    NoneCounted(b);
    TrackedGrows(max, Timing, now, from);
    if name in Tracked(max, Timing, now) {
      CountedTracked(bounds, now, first, from, name, b);
    } else if name == OVERFLOW {
      CountedOverflow(bounds, now, first, from, b);
    } else {
      CountedNowhere(bounds, now, first, from, name);
    }
  }

  lemma CountedTracked(bounds: Bounds, now: seq<Action>, first: bool, from: nat, name: string, b: nat)
    requires |now| < U64 && b < BUCKETS && from <= |now| && (first ==> from == 0)
    requires name in Tracked(bounds.maxSeries, Timing, now)
    ensures var m := MomentSince(MomentAt(bounds, now, |now|), Opening(bounds, now, first, from));
            CountIn(Reported(bounds.maxSeries, now, name), b) ==
            CountIn(Reported(bounds.maxSeries, now[..from], name), b) + CountedIn(m, name, b)
  {
    hide CountIn, Landed, Spilled, Tracked, Run, MomentSince;
    var max, past := bounds.maxSeries, now[..from];
    var before, since := BetweenSplits(max, Timing, now, from, name);
    CountInConcat(before, since, b);
    SeriesDifference(bounds, now, first, from, name);
    LandedShort(max, Timing, past, name);
    SpilledShort(max, Timing, past);
    TrackedGrows(max, Timing, now, from);
  }

  lemma CountedOverflow(bounds: Bounds, now: seq<Action>, first: bool, from: nat, b: nat)
    requires |now| < U64 && b < BUCKETS && from <= |now| && (first ==> from == 0)
    requires OVERFLOW !in Tracked(bounds.maxSeries, Timing, now)
    ensures var m := MomentSince(MomentAt(bounds, now, |now|), Opening(bounds, now, first, from));
            CountIn(Reported(bounds.maxSeries, now, OVERFLOW), b) ==
            CountIn(Reported(bounds.maxSeries, now[..from], OVERFLOW), b) + CountedIn(m, OVERFLOW, b)
  {
    hide CountIn, Landed, Spilled, Tracked, Run, MomentSince;
    var max := bounds.maxSeries;
    TrackedGrows(max, Timing, now, from);
    OverflowDifference(bounds, now, first, from);
    var before, after := Spilled(max, Timing, now[..from]), Spilled(max, Timing, now);
    CountInConcat(before, after[|before|..], b);
    assert before + after[|before|..] == after;
  }

  lemma CountedNowhere(bounds: Bounds, now: seq<Action>, first: bool, from: nat, name: string)
    requires |now| < U64 && from <= |now| && name != OVERFLOW && name !in Tracked(bounds.maxSeries, Timing, now)
    ensures name !in MomentSince(MomentAt(bounds, now, |now|), Opening(bounds, now, first, from)).histograms
    ensures Reported(bounds.maxSeries, now, name) == Reported(bounds.maxSeries, now[..from], name) == []
  {
    hide Landed, Spilled, Tracked, Run, Since;
    assert now[..|now|] == now;
    RegistryTimings(bounds, now);
    LandedShort(bounds.maxSeries, Timing, now, name);
    TrackedGrows(bounds.maxSeries, Timing, now, from);
    LandedShort(bounds.maxSeries, Timing, now[..from], name);
  }

  /** Every value recorded by then, landed or without room, is counted once, the latter under the overflow series. */
  ghost predicate AllCounted(ws: seq<Window>, max: nat, past: seq<Action>)
  {
    forall name, b | 0 <= b < BUCKETS ::
      TimesCounted(ws, name, b) ==
      CountIn(Landed(max, Timing, past, name), b) + if name == OVERFLOW then CountIn(Spilled(max, Timing, past), b) else 0
  }

  /** So it is exactly when no series has taken the overflow series' name, or nothing was ever without room. */
  lemma AllCountedExactly(bounds: Bounds, actions: seq<Action>)
    requires |actions| < U64
    ensures var s, max := Run(bounds, actions), bounds.maxSeries;
            && s.from <= |actions|
            && (AllCounted(Windows(s.log), max, actions[..s.from]) <==>
                  OVERFLOW !in Tracked(max, Timing, actions[..s.from]) || Spilled(max, Timing, actions[..s.from]) == [])
  {
    hide Run, TimesCounted, Landed, Tracked, Spilled, CountIn;
    RunLog(bounds, actions);
    var s, max := Run(bounds, actions), bounds.maxSeries;
    var ws, past := Windows(s.log), actions[..s.from];
    forall name, b | 0 <= b < BUCKETS
      ensures TimesCounted(ws, name, b) == CountIn(Reported(max, past, name), b)
    {
      EachValueOnce(bounds, actions, name, b);
    }
    CountedOrHidden(ws, max, past);
  }

  lemma CountedOrHidden(ws: seq<Window>, max: nat, past: seq<Action>)
    requires forall name, b | 0 <= b < BUCKETS :: TimesCounted(ws, name, b) == CountIn(Reported(max, past, name), b)
    ensures AllCounted(ws, max, past) <==> OVERFLOW !in Tracked(max, Timing, past) || Spilled(max, Timing, past) == []
  {
    hide TimesCounted, Landed, Tracked, Spilled, CountIn;
    LandedShort(max, Timing, past, OVERFLOW);
    var spilled := Spilled(max, Timing, past);
    forall b
      ensures CountIn([], b) == 0
    {
      NoneCounted(b);
    }
    if OVERFLOW in Tracked(max, Timing, past) && spilled != [] {
      BucketInRange(spilled[0]);
      CountedBucket(spilled, 0);
      var b := Bucket(spilled[0]);
      assert TimesCounted(ws, OVERFLOW, b) != CountIn(Landed(max, Timing, past, OVERFLOW), b) + CountIn(spilled, b);
    }
  }

  lemma NoneCounted(b: nat)
    ensures CountIn([], b) == 0
  {
  }

  // The overflow series

  /** Unless a series has taken its name, the overflow series is right about the values without room. */
  lemma OverflowWindowExact(bounds: Bounds, actions: seq<Action>, i: nat)
    requires |actions| < U64 && i < |Windows(Run(bounds, actions).log)|
    requires OVERFLOW !in Tracked(bounds.maxSeries, Timing, actions[..WindowAt(bounds, actions, i).to])
    ensures var w, max := WindowAt(bounds, actions, i), bounds.maxSeries;
            var before, after := Spilled(max, Timing, actions[..w.from]), Spilled(max, Timing, actions[..w.to]);
            && OVERFLOW in w.moment.histograms && before <= after
            && RightAbout(w.moment.histograms[OVERFLOW], before, after[|before|..])
  {
    hide Run, Tracked, Spilled, RightAbout, MomentSince;
    RunLog(bounds, actions);
    var w := WindowAt(bounds, actions, i);
    assert Tiles(bounds, actions, Windows(Run(bounds, actions).log), i);
    var now := actions[..w.to];
    assert now[..w.from] == actions[..w.from];
    MomentKept(bounds, now, actions, w.to);
    MomentKept(bounds, now, actions, w.from);
    OverflowDifference(bounds, now, i == 0, w.from);
  }

  lemma OverflowDifference(bounds: Bounds, actions: seq<Action>, first: bool, n: nat)
    requires |actions| < U64 && n <= |actions| && (first ==> n == 0)
    requires OVERFLOW !in Tracked(bounds.maxSeries, Timing, actions)
    ensures var m := MomentSince(MomentAt(bounds, actions, |actions|), Opening(bounds, actions, first, n));
            var before, after := Spilled(bounds.maxSeries, Timing, actions[..n]), Spilled(bounds.maxSeries, Timing, actions);
            && OVERFLOW in m.histograms && before <= after && RightAbout(m.histograms[OVERFLOW], before, after[|before|..])
  {
    hide Run, Tracked, Spilled, Exact, SnapshotOf, Since, Wrap, SumOf, CountIn, MaxOf;
    var max, past := bounds.maxSeries, actions[..n];
    assert actions[..|actions|] == actions;
    RegistryTimings(bounds, actions);
    RegistryTimings(bounds, past);
    TrackedGrows(max, Timing, actions, n);
    SpilledGrows(max, Timing, actions, n);
    EmptyHolds();
    var current := Run(bounds, actions).registry.overflowHistogram;
    var earlier := if first then EMPTY else Run(bounds, past).registry.overflowHistogram;
    var before, after := Spilled(max, Timing, past), Spilled(max, Timing, actions);
    if first {
      NothingSpilled(max);
    }
    assert before + after[|before|..] == after;
    WindowOfMoments(MomentAt(bounds, actions, |actions|), Opening(bounds, actions, first, n), OVERFLOW, current, earlier);
    WindowExact(current, earlier, before, after[|before|..]);
  }

  lemma NothingSpilled(max: nat)
    ensures Spilled(max, Timing, []) == []
  {
  }
}
