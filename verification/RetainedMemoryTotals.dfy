/** Sums over live allocations, which the ledger's counters are meant to equal. */
module RetainedMemoryTotals {
  import opened RetainedMemory

  /** The groups of allocations whose bytes matter to some counter or law. */
  datatype Kind =
    | All
    | NonControl
    | ControlOnly
    | OwnedBy(owner: MemoryOwner)
    | Reclaimable
    | LowerDurable
    | SpeculativeDurable
    | LowerBudget         // lower class, neither reclaimable nor an RPC frame
    | SpeculativeBudget
    | OutsideLowerBudget  // everything else

  predicate Belongs(a: Allocation, k: Kind)
  {
    match k
    case All => true
    case NonControl => !a.cls.Control?
    case ControlOnly => a.cls.Control?
    case OwnedBy(o) => a.owner == o
    case Reclaimable => a.reclaimable
    case LowerDurable => !a.reclaimable && (a.cls.Loader? || a.cls.Speculative?)
    case SpeculativeDurable => !a.reclaimable && a.cls.Speculative?
    case LowerBudget => !a.reclaimable && (a.cls.Loader? || a.cls.Speculative?) && !a.owner.RpcFrame?
    case SpeculativeBudget => !a.reclaimable && a.cls.Speculative? && !a.owner.RpcFrame?
    case OutsideLowerBudget => a.reclaimable || a.cls.Control? || a.cls.Viewer? || a.owner.RpcFrame?
  }

  function Weight(a: Allocation, k: Kind): nat { if Belongs(a, k) then a.bytes else 0 }

  /** Bytes of the allocations of one kind with an id below `n`. */
  function Total(m: map<nat, Allocation>, n: nat, k: Kind): nat
  {
    if n == 0 then 0
    else Total(m, n - 1, k) + if n - 1 in m then Weight(m[n - 1], k) else 0
  }

  lemma {:induction false} TotalAgree(m: map<nat, Allocation>, m': map<nat, Allocation>, n: nat, k: Kind)
    requires forall id | 0 <= id < n :: id in m <==> id in m'
    requires forall id | 0 <= id < n && id in m :: Weight(m[id], k) == Weight(m'[id], k)
    ensures Total(m, n, k) == Total(m', n, k)
  {
    if n != 0 { TotalAgree(m, m', n - 1, k); }
  }

  lemma {:induction false} TotalAtMost(m: map<nat, Allocation>, m': map<nat, Allocation>, n: nat, k: Kind, k': Kind)
    requires forall id | 0 <= id < n && id in m :: id in m' && Weight(m[id], k) <= Weight(m'[id], k')
    ensures Total(m, n, k) <= Total(m', n, k')
  {
    if n != 0 { TotalAtMost(m, m', n - 1, k, k'); }
  }

  lemma {:induction false} TotalSplit(m: map<nat, Allocation>, n: nat, whole: Kind, part: Kind, rest: Kind)
    requires forall a :: Weight(a, whole) == Weight(a, part) + Weight(a, rest)
    ensures Total(m, n, whole) == Total(m, n, part) + Total(m, n, rest)
  {
    if n != 0 { TotalSplit(m, n - 1, whole, part, rest); }
  }

  lemma {:induction false} TotalDisjoint(m: map<nat, Allocation>, marked: set<nat>, n: nat, k: Kind)
    ensures Total(m, n, k) == Total(m - marked, n, k) + Total(m - (m.Keys - marked), n, k)
  {
    if n != 0 { TotalDisjoint(m, marked, n - 1, k); }
  }

  lemma {:induction false} TotalRemove(m: map<nat, Allocation>, n: nat, id: nat, k: Kind)
    requires id in m && id < n
    ensures Total(m, n, k) == Total(m - {id}, n, k) + Weight(m[id], k)
  {
    if id == n - 1 {
      TotalAgree(m, m - {id}, n - 1, k);
    } else {
      TotalRemove(m, n - 1, id, k);
    }
  }

  /** Entering the next id adds exactly the newcomer's bytes. */
  lemma TotalEnter(m: map<nat, Allocation>, n: nat, a: Allocation, k: Kind)
    ensures Total(m[n := a], n + 1, k) == Total(m, n, k) + Weight(a, k)
  {
    TotalAgree(m, m[n := a], n, k);
  }

  lemma {:induction false} TotalEmpty(n: nat, k: Kind)
    ensures Total(map[], n, k) == 0
  {
    if n != 0 { TotalEmpty(n - 1, k); }
  }
}
