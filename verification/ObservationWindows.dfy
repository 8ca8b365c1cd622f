/**
 Every run of probes and ticks. A tick takes a moment, drains the events and writes the window,
 with probes landing in between; the laws say what the log then holds.
 */
module ObservationWindows {
  import opened ObservationBuckets
  import opened ObservationHistogram
  import opened ObservationRegistry
  import opened Words

  datatype Action =
    | Record(name: string, value: u64)
    | Add(name: string, amount: u64)
    | Emit(notice: Notice)
    | Snap
    | Drain
    | Write

  /** How far the tick in progress is; `at` is when its moment was taken. */
  datatype Phase = Idle | Snapped(current: Moment, at: nat) | Drained(current: Moment, at: nat)

  datatype System = System(
    registry: Registry,
    previous: Moment,
    from: nat,
    phase: Phase,
    log: seq<Line>,
    now: nat,
    drained: nat)

  const START := System(NEW_REGISTRY, NO_MOMENT, 0, Idle, [], 0, 0)

  predicate WellSized(s: System)
  {
    && Sound(s.registry) && MomentSized(s.previous)
    && (!s.phase.Idle? ==> MomentSized(s.phase.current))
  }

  /** One step; a step of a tick out of turn does nothing. */
  function Apply(bounds: Bounds, s: System, a: Action): (after: System)
    requires WellSized(s)
    ensures WellSized(after)
  {
    MomentOfSized(s.registry);
    var s := s.(now := s.now + 1);
    match a
    case Record(name, value) => s.(registry := Recording(bounds, s.registry, name, value))
    case Add(name, amount) => s.(registry := Adding(bounds, s.registry, name, amount))
    case Emit(notice) => s.(registry := Noting(bounds, s.registry, notice))
    case Snap => if s.phase.Idle? then s.(phase := Snapped(MomentOf(s.registry), s.now - 1)) else s
    case Drain =>
      if !s.phase.Snapped? then s
      else
        s.(registry := s.registry.(events := []), log := s.log + EventLines(s.registry.events),
           phase := Drained(s.phase.current, s.phase.at), drained := s.now)
    case Write =>
      if !s.phase.Drained? then s
      else
        s.(log := s.log + [WindowLine(s.from, s.phase.at, MomentSince(s.phase.current, s.previous))],
           previous := s.phase.current, from := s.phase.at, phase := Idle)
  }

  function Run(bounds: Bounds, actions: seq<Action>): (s: System)
    ensures WellSized(s)
  {
    if actions == [] then START
    else Apply(bounds, Run(bounds, actions[..|actions| - 1]), actions[|actions| - 1])
  }

  // What the probes asked for, apart from any registry

  datatype Kind = Timing | Count

  datatype Probe = Probe(name: string, value: u64) | NoProbe

  function ProbeOf(kind: Kind, a: Action): Probe
  {
    if kind.Timing? && a.Record? then Probe(a.name, a.value)
    else if kind.Count? && a.Add? then Probe(a.name, a.amount)
    else NoProbe
  }

  /** The names that have a series: the first maxSeries different ones. */
  function Tracked(max: nat, kind: Kind, actions: seq<Action>): set<string>
  {
    if actions == [] then {}
    else
      var before := Tracked(max, kind, actions[..|actions| - 1]);
      var p := ProbeOf(kind, actions[|actions| - 1]);
      if p.Probe? && |before| < max then before + {p.name} else before
  }

  predicate HasRoom(max: nat, kind: Kind, actions: seq<Action>, name: string)
  {
    name in Tracked(max, kind, actions) || |Tracked(max, kind, actions)| < max
  }

  /** The values that went to the series of a name. */
  function Landed(max: nat, kind: Kind, actions: seq<Action>, name: string): seq<u64>
  {
    if actions == [] then []
    else
      var before := actions[..|actions| - 1];
      var p := ProbeOf(kind, actions[|actions| - 1]);
      if p.Probe? && p.name == name && HasRoom(max, kind, before, name)
      then Landed(max, kind, before, name) + [p.value]
      else Landed(max, kind, before, name)
  }

  /** The values that found no room for their name. */
  function Spilled(max: nat, kind: Kind, actions: seq<Action>): seq<u64>
  {
    if actions == [] then []
    else
      var before := actions[..|actions| - 1];
      var p := ProbeOf(kind, actions[|actions| - 1]);
      if p.Probe? && !HasRoom(max, kind, before, p.name)
      then Spilled(max, kind, before) + [p.value]
      else Spilled(max, kind, before)
  }

  // A registry after a run

  ghost predicate TimingsHold(max: nat, actions: seq<Action>, r: Registry)
  {
    && r.histograms.Keys == Tracked(max, Timing, actions)
    && (forall name | name in r.histograms :: Holds(r.histograms[name], Landed(max, Timing, actions, name)))
    && Holds(r.overflowHistogram, Spilled(max, Timing, actions))
  }

  ghost predicate CountsHold(max: nat, actions: seq<Action>, r: Registry)
  {
    && r.counters.Keys == Tracked(max, Count, actions)
    && (forall name | name in r.counters :: r.counters[name] == Wrap(SumOf(Landed(max, Count, actions, name))))
  }

  lemma {:induction false} LandedShort(max: nat, kind: Kind, actions: seq<Action>, name: string)
    ensures |Landed(max, kind, actions, name)| <= |actions|
    ensures name !in Tracked(max, kind, actions) ==> Landed(max, kind, actions, name) == []
  {
    if actions != [] {
      LandedShort(max, kind, actions[..|actions| - 1], name);
    }
  }

  lemma {:induction false} SpilledShort(max: nat, kind: Kind, actions: seq<Action>)
    ensures |Spilled(max, kind, actions)| <= |actions|
    ensures Spilled(max, kind, actions) != [] ==> |Tracked(max, kind, actions)| >= max
  {
    if actions != [] {
      SpilledShort(max, kind, actions[..|actions| - 1]);
    }
  }

  lemma EmptyHolds()
    ensures Holds(EMPTY, []) && SnapshotOf(EMPTY) == NOTHING
  {
    SeenNone(BUCKETS);
  }

  lemma {:induction false} SeenNone(n: nat)
    requires n <= BUCKETS
    ensures Seen(NoCounts(), n) == 0
  {
    if n > 0 {
      SeenNone(n - 1);
    }
  }

  /** An action of another kind changes nothing of this one. */
  lemma NoProbeNoChange(max: nat, kind: Kind, actions: seq<Action>)
    requires actions != [] && ProbeOf(kind, actions[|actions| - 1]).NoProbe?
    ensures var before := actions[..|actions| - 1];
            && Tracked(max, kind, actions) == Tracked(max, kind, before)
            && Spilled(max, kind, actions) == Spilled(max, kind, before)
            && forall name :: Landed(max, kind, actions, name) == Landed(max, kind, before, name)
  {
  }

  lemma {:induction false} RegistryTimings(bounds: Bounds, actions: seq<Action>)
    requires |actions| < U64
    ensures TimingsHold(bounds.maxSeries, actions, Run(bounds, actions).registry)
  {
    hide Holds, Tracked, Landed, Spilled, Recording, Adding, Noting;
    if actions == [] {
      StartTimings(bounds.maxSeries);
    } else {
      var before, a := actions[..|actions| - 1], actions[|actions| - 1];
      RegistryTimings(bounds, before);
      var s := Run(bounds, before);
      if a.Record? {
        assert actions == before + [a];
        TimingStep(bounds, before, a, s.registry, actions);
      } else {
        NoProbeNoChange(bounds.maxSeries, Timing, actions);
        TimingsApart(bounds, s, a);
      }
    }
  }

  lemma StartTimings(max: nat)
    ensures TimingsHold(max, [], NEW_REGISTRY)
  {
    hide Holds;
    EmptyHolds();
  }

  lemma TimingsApart(bounds: Bounds, s: System, a: Action)
    requires WellSized(s) && !a.Record?
    ensures var r := Apply(bounds, s, a).registry;
            r.histograms == s.registry.histograms && r.overflowHistogram == s.registry.overflowHistogram
  {
  }

  /** Where one probe goes. */
  lemma ProbeStep(max: nat, kind: Kind, before: seq<Action>, a: Action, actions: seq<Action>)
    requires actions == before + [a] && ProbeOf(kind, a).Probe?
    ensures var p, tracked := ProbeOf(kind, a), Tracked(max, kind, before);
            && Tracked(max, kind, actions) == (if HasRoom(max, kind, before, p.name) then tracked + {p.name} else tracked)
            && Spilled(max, kind, actions) ==
               (if HasRoom(max, kind, before, p.name) then Spilled(max, kind, before) else Spilled(max, kind, before) + [p.value])
            && (HasRoom(max, kind, before, p.name) ==>
                  Landed(max, kind, actions, p.name) == Landed(max, kind, before, p.name) + [p.value])
            && forall name :: name != p.name || !HasRoom(max, kind, before, p.name) ==>
                 Landed(max, kind, actions, name) == Landed(max, kind, before, name)
  {
    assert actions[..|actions| - 1] == before;
  }

  lemma TimingStep(bounds: Bounds, before: seq<Action>, a: Action, r: Registry, actions: seq<Action>)
    requires TimingsHold(bounds.maxSeries, before, r) && Sound(r) && a.Record?
    requires actions == before + [a] && |actions| < U64
    ensures TimingsHold(bounds.maxSeries, actions, Recording(bounds, r, a.name, a.value))
  {
    hide Holds, Recorded, Tracked, Landed, Spilled;
    var max := bounds.maxSeries;
    assert |r.histograms| == |r.histograms.Keys|;
    ProbeStep(max, Timing, before, a, actions);
    LandedShort(max, Timing, before, a.name);
    SpilledShort(max, Timing, before);
    if a.name in r.histograms {
      RecordedHolds(r.histograms[a.name], Landed(max, Timing, before, a.name), a.value);
    } else if |r.histograms| >= max {
      RecordedHolds(r.overflowHistogram, Spilled(max, Timing, before), a.value);
    } else {
      EmptyHolds();
      RecordedHolds(EMPTY, [], a.value);
    }
  }

  lemma {:induction false} RegistryCounts(bounds: Bounds, actions: seq<Action>)
    ensures CountsHold(bounds.maxSeries, actions, Run(bounds, actions).registry)
  {
    hide Tracked, Landed, Spilled, Recording, Adding, Noting, Wrap, SumOf;
    if actions == [] {
      StartCounts(bounds.maxSeries);
    } else {
      var before, a := actions[..|actions| - 1], actions[|actions| - 1];
      RegistryCounts(bounds, before);
      var s := Run(bounds, before);
      if a.Add? {
        assert actions == before + [a];
        CountStep(bounds, before, a, s.registry, actions);
      } else {
        NoProbeNoChange(bounds.maxSeries, Count, actions);
        CountsApart(bounds, s, a);
      }
    }
  }

  lemma StartCounts(max: nat)
    ensures CountsHold(max, [], NEW_REGISTRY)
  {
  }

  lemma CountsApart(bounds: Bounds, s: System, a: Action)
    requires WellSized(s) && !a.Add?
    ensures Apply(bounds, s, a).registry.counters == s.registry.counters
  {
  }

  lemma CountStep(bounds: Bounds, before: seq<Action>, a: Action, r: Registry, actions: seq<Action>)
    requires CountsHold(bounds.maxSeries, before, r) && a.Add? && actions == before + [a]
    ensures CountsHold(bounds.maxSeries, actions, Adding(bounds, r, a.name, a.amount))
  {
    hide Tracked, Landed, Spilled, Wrap, SumOf;
    var max := bounds.maxSeries;
    assert |r.counters| == |r.counters.Keys|;
    ProbeStep(max, Count, before, a, actions);
    LandedShort(max, Count, before, a.name);
    SumOfOneMore(Landed(max, Count, before, a.name), a.amount);
  }

  lemma SumOfOneMore(values: seq<u64>, amount: u64)
    ensures Wrap(SumOf(values + [amount])) == Add64(Wrap(SumOf(values)), amount)
    ensures values == [] ==> Wrap(SumOf(values + [amount])) == amount
  {
    assert (values + [amount])[..|values|] == values;
    WrappedSum(SumOf(values), amount);
  }
}
