/**
 The retained-memory ledger: the value it keeps under its lock, and one function per
 critical section. `RetainedMemoryLedger` (the class) updates its fields to exactly these
 values, and `RetainedMemoryRuns` proves what every interleaving of them keeps.
 */
module RetainedMemory {
  import opened Words

  datatype WorkClass = Control | Viewer | Loader | Speculative

  datatype MemoryOwner =
    | FuseRequest | FuseOperation | Publication | RpcFrame | ObjectPayload | Durability
    | Metadata | Catalogue | MediaProfile | PlaybackSegment | Cache

  /** The five sizes the constructor is given. */
  datatype Sizes = Sizes(capacity: nat, control: nat, viewer: nat, loader: nat, reassembly: nat)

  /** What the constructor accepts: every subtraction it and admission make stays non-negative. */
  predicate Accepted(s: Sizes)
  {
    && s.capacity < U64 && s.reassembly < U64
    && s.capacity != 0 && s.control != 0 && s.viewer != 0 && s.loader != 0 && s.reassembly != 0
    && s.control <= s.capacity
    && s.viewer <= s.capacity - s.control
    && s.loader <= s.capacity - s.control - s.viewer
  }

  type Limits = s: Sizes | Accepted(s) witness Sizes(4, 1, 1, 1, 1)

  datatype Allocation =
    Allocation(cls: WorkClass, owner: MemoryOwner, bytes: nat, reclaimable: bool, shedRequested: bool)

  datatype Request = Request(cls: WorkClass, owner: MemoryOwner, bytes: nat, reclaimable: bool)

  /**
   The ledger's fields. A multiset is used where the source has an array indexed by class or
   by owner: `waiters[Viewer]` is the count at that index.
   */
  datatype Ledger = Ledger(
    limits: Limits,
    allocations: map<nat, Allocation>,
    nextId: nat,
    used: nat,
    reclaimable: nat,
    lowerDurable: nat,
    speculativeDurable: nat,
    peak: nat,
    ownerBytes: multiset<MemoryOwner>,
    admissions: multiset<WorkClass>,
    waits: multiset<WorkClass>,
    waiters: multiset<WorkClass>,
    shedRequests: nat,
    cancelledWaits: nat,
    restoredBytes: nat,
    stopping: bool)

  function Fresh(limits: Limits): Ledger
  {
    Ledger(limits, map[], 1, 0, 0, 0, 0, 0,
           multiset{}, multiset{}, multiset{}, multiset{}, 0, 0, 0, false)
  }

  /** Subtraction of 64-bit unsigned operands, which wraps. */
  function Sub64(a: nat, b: nat): nat { if b <= a then a - b else if b < U64 then a + U64 - b else 0 }

  function Charge(bytes: nat): nat { Max(1, bytes) }

  predicate Lower(c: WorkClass) { c.Loader? || c.Speculative? }

  function Priority(c: WorkClass): int
  {
    match c
    case Control => 3
    case Viewer => 2
    case Loader => 1
    case Speculative => 0
  }

  /** A request of class `c` may not be admitted while one of class `w` waits. */
  predicate Gates(w: WorkClass, c: WorkClass)
  {
    || (Lower(c) && (w.Control? || w.Viewer?))
    || (c.Speculative? && w.Loader?)
  }

  /** The most a class could ever be given. */
  function ClassCapacity(limits: Limits, c: WorkClass): nat
  {
    if c.Control? then limits.capacity else limits.capacity - limits.control
  }

  /** The admission rule, branch by branch. */
  predicate Available(l: Ledger, r: Request)
  {
    var nonControl: nat := l.limits.capacity - l.limits.control;
    var durableLower: nat := nonControl - l.limits.viewer;
    var speculative: nat := durableLower - l.limits.loader;
    if r.bytes > l.limits.capacity || l.used > l.limits.capacity - r.bytes then false
    else if r.cls.Control? then true
    else if r.bytes > nonControl || l.used > nonControl - r.bytes then false
    else if r.cls.Viewer? then true
    else if l.waiters[Control] != 0 || l.waiters[Viewer] != 0 then false
    else if r.owner.RpcFrame? && Add64(l.ownerBytes[RpcFrame], r.bytes) <= l.limits.reassembly then true
    else if r.cls.Speculative? && l.waiters[Loader] != 0 then false
    else if r.reclaimable then true
    else if r.owner.RpcFrame? then true
    else if r.bytes > durableLower || l.lowerDurable > durableLower - r.bytes then false
    else if r.cls.Loader? then true
    else r.bytes <= speculative && l.speculativeDurable <= speculative - r.bytes
  }

  /** Enters an allocation under the next id and charges every counter it belongs to. */
  function Charged(l: Ledger, a: Allocation): Ledger
  {
    var lower := !a.reclaimable && Lower(a.cls);
    var used := Add64(l.used, a.bytes);
    l.(allocations := l.allocations[l.nextId := a],
       nextId := l.nextId + 1,
       used := used,
       ownerBytes := l.ownerBytes[a.owner := Add64(l.ownerBytes[a.owner], a.bytes)],
       reclaimable := if a.reclaimable then Add64(l.reclaimable, a.bytes) else l.reclaimable,
       lowerDurable := if lower then Add64(l.lowerDurable, a.bytes) else l.lowerDurable,
       speculativeDurable :=
         if lower && a.cls.Speculative? then Add64(l.speculativeDurable, a.bytes) else l.speculativeDurable,
       peak := Max(l.peak, used))
  }

  function Granted(l: Ledger, r: Request): Ledger
  {
    Charged(l, Allocation(r.cls, r.owner, r.bytes, r.reclaimable, false))
      .(admissions := l.admissions[r.cls := l.admissions[r.cls] + 1])
  }

  function Restored(l: Ledger, c: WorkClass, o: MemoryOwner, requested: nat): Ledger
  {
    var bytes := Charge(requested);
    Charged(l, Allocation(c, o, bytes, false, false)).(restoredBytes := Add64(l.restoredBytes, bytes))
  }

  function Released(l: Ledger, id: nat): Ledger
  {
    if id !in l.allocations then l else
    var a := l.allocations[id];
    var lower := !a.reclaimable && Lower(a.cls);
    l.(allocations := l.allocations - {id},
       used := Sub64(l.used, a.bytes),
       ownerBytes := l.ownerBytes[a.owner := Sub64(l.ownerBytes[a.owner], a.bytes)],
       reclaimable := if a.reclaimable then Sub64(l.reclaimable, a.bytes) else l.reclaimable,
       lowerDurable := if lower then Sub64(l.lowerDurable, a.bytes) else l.lowerDurable,
       speculativeDurable :=
         if lower && a.cls.Speculative? then Sub64(l.speculativeDurable, a.bytes) else l.speculativeDurable)
  }

  // Shedding: the allocations a request of class `incoming` asks back.

  predicate Sheddable(a: Allocation, incoming: WorkClass)
  {
    a.reclaimable && !a.shedRequested && Priority(a.cls) < Priority(incoming)
  }

  /** The ids below `n` to ask, in ascending order. */
  function ShedIds(m: map<nat, Allocation>, n: nat, incoming: WorkClass): seq<nat>
  {
    if n == 0 then []
    else
      ShedIds(m, n - 1, incoming) + if n - 1 in m && Sheddable(m[n - 1], incoming) then [n - 1] else []
  }

  /** The allocations once every one below `n` that is to be asked is marked. */
  function ShedMarks(m: map<nat, Allocation>, n: nat, incoming: WorkClass): map<nat, Allocation>
  {
    map id | id in m ::
      if id < n && Sheddable(m[id], incoming) then m[id].(shedRequested := true) else m[id]
  }

  function Shed(l: Ledger, incoming: WorkClass): Ledger
  {
    l.(allocations := ShedMarks(l.allocations, l.nextId, incoming),
       shedRequests := l.shedRequests + |ShedIds(l.allocations, l.nextId, incoming)|)
  }

  // One pass of the loop in `acquire`, with the lock held throughout.

  datatype Pass =
    | GaveUp
    | Admitted(id: nat)
    | RunCallbacks(ids: seq<nat>)
    | Wait

  function Counted(l: Ledger, c: WorkClass): Ledger
  {
    l.(waiters := l.waiters[c := l.waiters[c] + 1], waits := l.waits[c := l.waits[c] + 1])
  }

  function Uncounted(l: Ledger, c: WorkClass): Ledger
  {
    l.(waiters := l.waiters[c := Sub64(l.waiters[c], 1)])
  }

  /** `expired` is whether the caller's cancel flag or its deadline has passed. */
  function AfterPass(l: Ledger, r: Request, counted: bool, expired: bool): (Ledger, Pass)
  {
    if l.stopping || expired then
      var left := if counted then Uncounted(l, r.cls) else l;
      (left.(cancelledWaits := left.cancelledWaits + 1), GaveUp)
    else if Available(l, r) then
      (Granted(if counted then Uncounted(l, r.cls) else l, r), Admitted(l.nextId))
    else
      var waiting := if counted then l else Counted(l, r.cls);
      var ids := ShedIds(waiting.allocations, waiting.nextId, r.cls);
      (Shed(waiting, r.cls), if ids != [] then RunCallbacks(ids) else Wait)
  }

  function Stopped(l: Ledger): Ledger { l.(stopping := true) }
}
