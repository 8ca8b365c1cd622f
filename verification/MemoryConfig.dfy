/**
 The memory part of configuration validation: parts that exceed the node's limit are shrunk by
 one fraction, then the in-flight reserves must fit their capacity. Sizes are uint64.
 */
module MemoryConfig {
  import opened Arithmetic
  import opened RetainedMemory
  import opened Words

  const MIB: nat := 0x10_0000

  /** The sizes validation reads and rewrites. */
  datatype Memory = Memory(
    limit: nat,
    metadataCache: nat,
    ledgerCache: nat,
    retained: nat,
    control: nat,
    viewer: nat,
    loader: nat,
    reassembly: nat)

  predicate Sized(m: Memory)
  {
    && m.limit < U64 && m.metadataCache < U64 && m.ledgerCache < U64 && m.retained < U64
    && m.control < U64 && m.viewer < U64 && m.loader < U64 && m.reassembly < U64
  }

  function Total(m: Memory): nat { m.metadataCache + m.ledgerCache + m.retained }

  /** The sum as the source computes it. */
  function WrappedTotal(m: Memory): nat { Total(m) % U64 }

  /** The share of a part before the floor: the source multiplies in 128 bits. */
  function Scaled(part: nat, limit: nat, total: nat): nat
    requires total > 0
  {
    part * limit / total
  }

  function ShrunkPart(part: nat, limit: nat, total: nat): nat
    requires total > 0
  {
    if Scaled(part, limit, total) < MIB then MIB else Scaled(part, limit, total)
  }

  predicate OverLimit(m: Memory) { m.limit != 0 && WrappedTotal(m) > m.limit }

  function Shrunk(m: Memory): Memory
  {
    if !OverLimit(m) then m
    else
      var total := WrappedTotal(m);
      Memory(m.limit,
             ShrunkPart(m.metadataCache, m.limit, total), ShrunkPart(m.ledgerCache, m.limit, total),
             ShrunkPart(m.retained, m.limit, total),
             ShrunkPart(m.control, m.limit, total), ShrunkPart(m.viewer, m.limit, total),
             ShrunkPart(m.loader, m.limit, total), ShrunkPart(m.reassembly, m.limit, total))
  }

  /** Nothing is zero and the reserves fit the capacity together. */
  predicate Fits(m: Memory)
  {
    && m.retained > 0 && m.control > 0 && m.viewer > 0 && m.loader > 0 && m.reassembly > 0
    && m.control + m.viewer + m.loader + m.reassembly <= m.retained
  }

  /** Subtraction of uint64s. */
  function Minus64(a: nat, b: nat): nat
    requires a < U64 && b < U64
  {
    if b <= a then a - b else a + U64 - b
  }

  /** The configuration's fields, validated in place. */
  class Config {
    var memory: Memory

    constructor (memory: Memory)
      ensures this.memory == memory
    {
      this.memory := memory;
    }

    method Shrink()
      requires Sized(memory)
      modifies this
      ensures memory == Shrunk(old(memory)) && Sized(memory)
    {
      ShrunkSized(memory);
      var limit := memory.limit;
      if limit != 0 {
        var total := (memory.metadataCache + memory.ledgerCache + memory.retained) % U64;
        if total > limit {
          memory := memory.(metadataCache := ShrunkPart(memory.metadataCache, limit, total));
          memory := memory.(ledgerCache := ShrunkPart(memory.ledgerCache, limit, total));
          memory := memory.(retained := ShrunkPart(memory.retained, limit, total));
          memory := memory.(control := ShrunkPart(memory.control, limit, total));
          memory := memory.(viewer := ShrunkPart(memory.viewer, limit, total));
          memory := memory.(loader := ShrunkPart(memory.loader, limit, total));
          memory := memory.(reassembly := ShrunkPart(memory.reassembly, limit, total));
        }
      }
    }

    /** Accepted exactly when the reserves fit, however large the numbers: no subtraction wraps. */
    method CheckReserves() returns (accepted: bool)
      requires Sized(memory)
      ensures accepted == Fits(memory)
    {
      var m := memory;
      if m.retained == 0 || m.control == 0 || m.viewer == 0 || m.loader == 0 {
        return false;
      }
      if m.control > m.retained {
        return false;
      }
      if m.viewer > Minus64(m.retained, m.control) {
        return false;
      }
      if m.loader > Minus64(Minus64(m.retained, m.control), m.viewer) {
        return false;
      }
      if m.reassembly == 0 || m.reassembly > Minus64(Minus64(Minus64(m.retained, m.control), m.viewer), m.loader) {
        return false;
      }
      return true;
    }

    /** What it accepts, the ledger's constructor accepts. */
    method Validate() returns (accepted: bool)
      requires Sized(memory)
      modifies this
      ensures memory == Shrunk(old(memory)) && Sized(memory)
      ensures accepted == Fits(memory)
      ensures accepted ==> Accepted(LedgerSizes(memory))
    {
      Shrink();
      accepted := CheckReserves();
    }
  }

  /** What the ledger is constructed with. */
  function LedgerSizes(m: Memory): Sizes { Sizes(m.retained, m.control, m.viewer, m.loader, m.reassembly) }

  // Shares

  lemma ScaledBounds(part: nat, limit: nat, total: nat)
    requires total > 0
    ensures Scaled(part, limit, total) * total <= part * limit < Scaled(part, limit, total) * total + total
  {
    var n := part * limit;
    assert n == n / total * total + n % total;
  }

  /** A part that shrinks becomes its share of the limit rounded down, and never less than 2^20. */
  lemma ShareExact(part: nat, limit: nat, total: nat, share: nat)
    requires total > 0 && share * total <= part * limit < share * total + total
    ensures ShrunkPart(part, limit, total) == Max(share, 1048576)
  {
    Quotient(part * limit, share, total);
  }

  /** Scaling down makes nothing larger. */
  lemma ScaledSmaller(part: nat, limit: nat, total: nat)
    requires 0 < total && limit <= total
    ensures Scaled(part, limit, total) <= part
  {
    ScaledBounds(part, limit, total);
    assert part * total == part * limit + part * (total - limit);
    Compare(Scaled(part, limit, total), part, total);
  }

  lemma ShrunkSized(m: Memory)
    requires Sized(m)
    ensures Sized(Shrunk(m))
  {
    if OverLimit(m) {
      var limit, total := m.limit, WrappedTotal(m);
      ScaledSmaller(m.metadataCache, limit, total);
      ScaledSmaller(m.ledgerCache, limit, total);
      ScaledSmaller(m.retained, limit, total);
      ScaledSmaller(m.control, limit, total);
      ScaledSmaller(m.viewer, limit, total);
      ScaledSmaller(m.loader, limit, total);
      ScaledSmaller(m.reassembly, limit, total);
      hide Scaled;
    }
  }

  // What shrinking achieves

  /** How many of the three parts stop at the floor. */
  function Floored(m: Memory): nat
    requires OverLimit(m)
  {
    var total := WrappedTotal(m);
    (if Scaled(m.metadataCache, m.limit, total) < MIB then 1 else 0) +
    (if Scaled(m.ledgerCache, m.limit, total) < MIB then 1 else 0) +
    if Scaled(m.retained, m.limit, total) < MIB then 1 else 0
  }

  /** Rounding down apart gives no more than rounding down together. */
  lemma ScaledTogether(a: nat, b: nat, limit: nat, total: nat)
    requires total > 0
    ensures Scaled(a, limit, total) + Scaled(b, limit, total) <= Scaled(a + b, limit, total)
  {
    ScaledBounds(a, limit, total);
    ScaledBounds(b, limit, total);
    ScaledBounds(a + b, limit, total);
    hide Scaled;
    var x, y, z := Scaled(a, limit, total), Scaled(b, limit, total), Scaled(a + b, limit, total);
    assert (a + b) * limit == a * limit + b * limit;
    assert (x + y) * total == x * total + y * total;
    assert (z + 1) * total == z * total + total;
    Below(x + y, z + 1, total);
  }

  lemma ScaledMonotone(a: nat, b: nat, limit: nat, total: nat)
    requires total > 0 && a <= b
    ensures Scaled(a, limit, total) <= Scaled(b, limit, total)
  {
    ScaledTogether(a, b - a, limit, total);
  }

  lemma SharesWithinLimit(a: nat, b: nat, c: nat, limit: nat, total: nat)
    requires total > 0 && a + b + c == total
    ensures Scaled(a, limit, total) + Scaled(b, limit, total) + Scaled(c, limit, total) <= limit
  {
    ScaledTogether(a, b, limit, total);
    ScaledTogether(a + b, c, limit, total);
    ScaledWhole(limit, total);
    hide Scaled;
  }

  lemma ScaledWhole(limit: nat, total: nat)
    requires total > 0
    ensures Scaled(total, limit, total) == limit
  {
    ScaledBounds(total, limit, total);
    hide Scaled;
    var x := Scaled(total, limit, total);
    assert total * limit == limit * total;
    Compare(x, limit, total);
    assert (x + 1) * total == x * total + total;
    Below(limit, x + 1, total);
  }

  /** The shrunk parts total at most the limit, but for a MiB at most for each one at the floor. */
  lemma ShrunkWithinLimit(m: Memory)
    requires Sized(m) && OverLimit(m) && Total(m) < U64
    ensures Total(Shrunk(m)) <= m.limit + Floored(m) * MIB
  {
    var total := WrappedTotal(m);
    assert total == Total(m);
    SharesWithinLimit(m.metadataCache, m.ledgerCache, m.retained, m.limit, total);
    hide Scaled;
  }

  lemma ReservesWithin(a: nat, b: nat, c: nat, d: nat, whole: nat, limit: nat, total: nat)
    requires total > 0 && a + b + c + d <= whole
    ensures Scaled(a, limit, total) + Scaled(b, limit, total) + Scaled(c, limit, total) + Scaled(d, limit, total)
            <= Scaled(whole, limit, total)
  {
    ScaledTogether(a, b, limit, total);
    ScaledTogether(a + b, c, limit, total);
    ScaledTogether(a + b + c, d, limit, total);
    ScaledMonotone(a + b + c + d, whole, limit, total);
    hide Scaled;
  }

  /** Whether a reserve stops at the floor. */
  predicate ReserveFloored(m: Memory)
    requires OverLimit(m)
  {
    var total := WrappedTotal(m);
    || Scaled(m.control, m.limit, total) < MIB || Scaled(m.viewer, m.limit, total) < MIB
    || Scaled(m.loader, m.limit, total) < MIB || Scaled(m.reassembly, m.limit, total) < MIB
  }

  /** Reserves that fitted before still fit, when none of them stops at the floor. */
  lemma ReservesStillFit(m: Memory)
    requires Sized(m) && OverLimit(m) && Fits(m) && !ReserveFloored(m)
    ensures Fits(Shrunk(m)) && Accepted(LedgerSizes(Shrunk(m)))
  {
    ShrunkSized(m);
    ReservesWithin(m.control, m.viewer, m.loader, m.reassembly, m.retained, m.limit, WrappedTotal(m));
    hide Scaled;
  }

  /** What the floor adds to the reserves, and the room their shares leave in the shrunk capacity. */
  function LiftOfReserves(m: Memory): nat
    requires OverLimit(m)
  {
    var total := WrappedTotal(m);
    Lift(m.control, m.limit, total) + Lift(m.viewer, m.limit, total) + Lift(m.loader, m.limit, total) +
    Lift(m.reassembly, m.limit, total)
  }

  function SlackOfReserves(m: Memory): int
    requires OverLimit(m)
  {
    var total := WrappedTotal(m);
    ShrunkPart(m.retained, m.limit, total) - Scaled(m.control, m.limit, total) - Scaled(m.viewer, m.limit, total) -
    Scaled(m.loader, m.limit, total) - Scaled(m.reassembly, m.limit, total)
  }

  /** In general they still fit exactly when what the floor adds fits the room the shares leave, which is never negative. */
  lemma ReservesFitExactly(m: Memory)
    requires Sized(m) && OverLimit(m) && Fits(m)
    ensures SlackOfReserves(m) >= 0
    ensures Fits(Shrunk(m)) <==> LiftOfReserves(m) <= SlackOfReserves(m)
  {
    ReservesWithin(m.control, m.viewer, m.loader, m.reassembly, m.retained, m.limit, WrappedTotal(m));
    hide Scaled;
  }

  /** At the floor they may not: four reserves of a MiB in four, halved, are refused. */
  lemma FlooredReservesRefused()
    ensures var m := Memory(4 * MIB, 2 * MIB, 2 * MIB, 4 * MIB, MIB, MIB, MIB, MIB);
            Sized(m) && OverLimit(m) && Fits(m) && !Fits(Shrunk(m))
  {
    var m := Memory(4 * MIB, 2 * MIB, 2 * MIB, 4 * MIB, MIB, MIB, MIB, MIB);
    assert WrappedTotal(m) == 8 * MIB;
    assert Scaled(4 * MIB, 4 * MIB, 8 * MIB) == 2 * MIB;
  }

  /** What the floor adds to a share. */
  function Lift(part: nat, limit: nat, total: nat): (l: nat)
    requires total > 0
    ensures ShrunkPart(part, limit, total) == Scaled(part, limit, total) + l
  {
    if Scaled(part, limit, total) < MIB then MIB - Scaled(part, limit, total) else 0
  }

  /** What the floor adds to the three parts, and the room their shares leave under the limit. */
  function LiftOfParts(m: Memory): nat
    requires OverLimit(m)
  {
    var total := WrappedTotal(m);
    Lift(m.metadataCache, m.limit, total) + Lift(m.ledgerCache, m.limit, total) + Lift(m.retained, m.limit, total)
  }

  function SlackOfParts(m: Memory): int
    requires OverLimit(m)
  {
    var total := WrappedTotal(m);
    m.limit - Scaled(m.metadataCache, m.limit, total) - Scaled(m.ledgerCache, m.limit, total) - Scaled(m.retained, m.limit, total)
  }

  /** A total that wraps is compared wrapped: parts beyond the limit are left as they are exactly when it wraps to within it. */
  lemma WrappedTotalUnshrunk(m: Memory)
    requires Sized(m) && 0 < m.limit < Total(m)
    ensures !OverLimit(m) <==> Total(m) >= U64 && Total(m) % U64 <= m.limit
    ensures !OverLimit(m) ==> Shrunk(m) == m && Total(Shrunk(m)) > m.limit
  {
  }

  lemma SharesBeyondLimit(a: nat, b: nat, c: nat, limit: nat, total: nat)
    requires 3 <= limit < total < U64 && a + b + c >= U64 + total
    ensures Scaled(a, limit, total) + Scaled(b, limit, total) + Scaled(c, limit, total) > limit
  {
    ScaledBounds(a, limit, total);
    ScaledBounds(b, limit, total);
    ScaledBounds(c, limit, total);
    hide Scaled;
    var x, y, z := Scaled(a, limit, total), Scaled(b, limit, total), Scaled(c, limit, total);
    var sum := x + y + z;
    assert sum * total == x * total + y * total + z * total;
    assert a * limit + b * limit + c * limit == (a + b + c) * limit;
    Product(a + b + c, U64 + total, limit);
    Product(limit, 3, U64);
    assert (U64 + total) * limit == limit * U64 + limit * total;
    Below(limit, sum, total);
  }

  /** A total that wraps is never brought within the limit, shrunk or not. */
  lemma WrappedTotalExceeds(m: Memory)
    requires Sized(m) && m.limit > 0 && Total(m) >= U64
    ensures Total(Shrunk(m)) > m.limit
  {
    if OverLimit(m) && m.limit >= 3 {
      assert Total(m) >= U64 + Total(m) % U64;
      SharesBeyondLimit(m.metadataCache, m.ledgerCache, m.retained, m.limit, WrappedTotal(m));
    }
    hide Scaled;
  }

  /**
   Validation brings the parts within the limit exactly when they were already, or their total
   does not wrap and what the floor adds fits the room the shares leave.
   */
  lemma LimitKeptExactly(m: Memory)
    requires Sized(m) && m.limit > 0
    ensures Total(Shrunk(m)) <= m.limit <==>
            Total(m) <= m.limit || (Total(m) < U64 && LiftOfParts(m) <= SlackOfParts(m))
    ensures Total(m) < U64 && Total(m) > m.limit ==> SlackOfParts(m) >= 0
  {
    if Total(m) >= U64 {
      WrappedTotalExceeds(m);
    } else if Total(m) > m.limit {
      SharesWithinLimit(m.metadataCache, m.ledgerCache, m.retained, m.limit, Total(m));
    }
    hide Scaled;
  }

  /** So with no part at the floor, parts over the limit are brought within it exactly when their total does not wrap. */
  lemma LimitKeptUnlessWrapped(m: Memory)
    requires Sized(m) && 0 < m.limit < Total(m) && (OverLimit(m) ==> Floored(m) == 0)
    ensures Total(Shrunk(m)) <= m.limit <==> Total(m) < U64
  {
    LimitKeptExactly(m);
    hide Scaled;
  }

  /** Totals that wrap: one shrunk and still far over the limit, and one in the second band that is left as it is. */
  lemma WrappedTotals()
    ensures var m := Memory(8 * MIB, U64 - 1, 16 * MIB + 1, 0, MIB, MIB, MIB, MIB);
            Sized(m) && OverLimit(m) && Total(Shrunk(m)) > m.limit
    ensures var m := Memory(8 * MIB, U64 - 1, U64 - 1, 2, MIB, MIB, MIB, MIB);
            Sized(m) && !OverLimit(m) && Shrunk(m) == m && Total(m) > m.limit
  {
    var m := Memory(8 * MIB, U64 - 1, 16 * MIB + 1, 0, MIB, MIB, MIB, MIB);
    assert Total(m) == U64 + 16 * MIB;
    WrappedTotalExceeds(m);
    var n := Memory(8 * MIB, U64 - 1, U64 - 1, 2, MIB, MIB, MIB, MIB);
    assert Total(n) == 2 * U64;
  }
}
