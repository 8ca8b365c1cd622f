/**
 The ledger as the source writes it: one method per critical section, updating in place the
 fields the mutex guards (kept together in `books`). Each method's new state is the value
 `RetainedMemory` gives, so the laws proved of runs there are laws of these bodies.
 */
module RetainedMemoryLedgers {
  import opened RetainedMemory
  import opened Words

  /** A request answered: refused, or a lease on `id`; InvalidArgument is the source's exception. */
  datatype Answer = InvalidArgument | Refused | Leased(id: nat, bytes: nat)

  class RetainedMemoryLedger {
    var books: Ledger

    /** Ids are handed out in order, so the next one is free. */
    ghost predicate Valid()
      reads this
    {
      forall id | id in books.allocations :: id < books.nextId
    }

    constructor (limits: Limits)
      ensures Valid() && books == Fresh(limits)
    {
      books := Fresh(limits);
    }

    /** The charges `acquire`, `try_acquire` and `restore` share. */
    method Enter(a: Allocation)
      requires Valid()
      modifies this
      ensures Valid()
      ensures books == Charged(old(books), a)
    {
      books := books.(allocations := books.allocations[books.nextId := a]);
      books := books.(nextId := books.nextId + 1);
      books := books.(used := Add64(books.used, a.bytes));
      books := books.(ownerBytes := books.ownerBytes[a.owner := Add64(books.ownerBytes[a.owner], a.bytes)]);
      if a.reclaimable {
        books := books.(reclaimable := Add64(books.reclaimable, a.bytes));
      } else if Lower(a.cls) {
        books := books.(lowerDurable := Add64(books.lowerDurable, a.bytes));
        if a.cls.Speculative? {
          books := books.(speculativeDurable := Add64(books.speculativeDurable, a.bytes));
        }
      }
      books := books.(peak := Max(books.peak, books.used));
    }

    method TryAcquire(c: WorkClass, o: MemoryOwner, requested: nat, reclaimable: bool, hasShed: bool)
      returns (answer: Answer)
      requires Valid()
      modifies this
      ensures Valid()
      ensures var was := old(books);
              var r := Request(c, o, Charge(requested), reclaimable);
              if reclaimable && !hasShed then answer == InvalidArgument && books == was
              else if was.stopping || !Available(was, r) then answer == Refused && books == was
              else answer == Leased(was.nextId, r.bytes) && books == Granted(was, r)
    {
      if reclaimable && !hasShed {
        return InvalidArgument;
      }
      var bytes := Charge(requested);
      if books.stopping || !Available(books, Request(c, o, bytes, reclaimable)) {
        return Refused;
      }
      var id := books.nextId;
      Enter(Allocation(c, o, bytes, reclaimable, false));
      books := books.(admissions := books.admissions[c := books.admissions[c] + 1]);
      return Leased(id, bytes);
    }

    method Restore(c: WorkClass, o: MemoryOwner, requested: nat) returns (answer: Answer)
      requires Valid()
      modifies this
      ensures Valid()
      ensures answer == Leased(old(books.nextId), Charge(requested))
      ensures books == Restored(old(books), c, o, requested)
    {
      var bytes, id := Charge(requested), books.nextId;
      Enter(Allocation(c, o, bytes, false, false));
      books := books.(restoredBytes := Add64(books.restoredBytes, bytes));
      return Leased(id, bytes);
    }

    /** `notify` is whether the condition variable is signalled. */
    method Release(id: nat) returns (notify: bool)
      requires Valid()
      modifies this
      ensures Valid()
      ensures books == Released(old(books), id) && notify == (id in old(books.allocations))
    {
      if id !in books.allocations {
        return false;
      }
      var a := books.allocations[id];
      books := books.(allocations := books.allocations - {id});
      books := books.(used := Sub64(books.used, a.bytes));
      books := books.(ownerBytes := books.ownerBytes[a.owner := Sub64(books.ownerBytes[a.owner], a.bytes)]);
      if a.reclaimable {
        books := books.(reclaimable := Sub64(books.reclaimable, a.bytes));
      } else if Lower(a.cls) {
        books := books.(lowerDurable := Sub64(books.lowerDurable, a.bytes));
        if a.cls.Speculative? {
          books := books.(speculativeDurable := Sub64(books.speculativeDurable, a.bytes));
        }
      }
      return true;
    }

    /** Walks the allocations in id order, marking and counting each one it will ask. */
    method RequestShedding(incoming: WorkClass) returns (callbacks: seq<nat>)
      requires Valid()
      modifies this
      ensures Valid()
      ensures books == Shed(old(books), incoming)
      ensures callbacks == ShedIds(old(books.allocations), books.nextId, incoming)
    {
      callbacks := [];
      var id := 0;
      ghost var was := books.allocations;
      while id < books.nextId
        invariant 0 <= id <= books.nextId
        invariant callbacks == ShedIds(was, id, incoming)
        invariant books.allocations == ShedMarks(was, id, incoming)
        invariant Valid()
        invariant books == old(books).(allocations := books.allocations,
                                       shedRequests := old(books.shedRequests) + |callbacks|)
      {
        ShedMarksStep(was, id, incoming);
        if id in books.allocations {
          var a := books.allocations[id];
          if a.reclaimable && !a.shedRequested && Priority(a.cls) < Priority(incoming) {
            books := books.(allocations := books.allocations[id := a.(shedRequested := true)]);
            books := books.(shedRequests := books.shedRequests + 1);
            callbacks := callbacks + [id];
          }
        }
        id := id + 1;
      }
    }

    /** One turn of the loop in `acquire`, up to where it returns, unlocks or sleeps. */
    method AcquirePass(r: Request, counted: bool, expired: bool) returns (pass: Pass)
      requires Valid()
      modifies this
      ensures Valid()
      ensures (books, pass) == AfterPass(old(books), r, counted, expired)
    {
      if books.stopping || expired {
        if counted {
          books := books.(waiters := books.waiters[r.cls := Sub64(books.waiters[r.cls], 1)]);
        }
        books := books.(cancelledWaits := books.cancelledWaits + 1);
        return GaveUp;
      }
      if !Available(books, r) {
        if !counted {
          books := books.(waiters := books.waiters[r.cls := books.waiters[r.cls] + 1]);
          books := books.(waits := books.waits[r.cls := books.waits[r.cls] + 1]);
        }
        var callbacks := RequestShedding(r.cls);
        return if callbacks != [] then RunCallbacks(callbacks) else Wait;
      }
      if counted {
        books := books.(waiters := books.waiters[r.cls := Sub64(books.waiters[r.cls], 1)]);
      }
      var id := books.nextId;
      Enter(Allocation(r.cls, r.owner, r.bytes, r.reclaimable, false));
      books := books.(admissions := books.admissions[r.cls := books.admissions[r.cls] + 1]);
      return Admitted(id);
    }

    method Stop()
      requires Valid()
      modifies this
      ensures Valid()
      ensures books == Stopped(old(books))
    {
      books := books.(stopping := true);
    }
  }

  lemma ShedMarksStep(m: map<nat, Allocation>, id: nat, incoming: WorkClass)
    ensures ShedMarks(m, id + 1, incoming) ==
            if id in m && Sheddable(m[id], incoming) then
              ShedMarks(m, id, incoming)[id := m[id].(shedRequested := true)]
            else ShedMarks(m, id, incoming)
    ensures id in m ==> ShedMarks(m, id, incoming)[id] == m[id]
  {
  }

  /** The constructor's check; its exception is `made == null`. */
  method Create(sizes: Sizes) returns (made: RetainedMemoryLedger?)
    requires sizes.capacity < U64 && sizes.reassembly < U64
    ensures made != null <==>
            && sizes.capacity > 0 && sizes.control > 0 && sizes.viewer > 0 && sizes.loader > 0 && sizes.reassembly > 0
            && sizes.control + sizes.viewer + sizes.loader <= sizes.capacity
    ensures made != null ==> fresh(made) && made.Valid() && Accepted(sizes) && made.books == Fresh(sizes)
  {
    if sizes.capacity == 0 || sizes.control == 0 || sizes.viewer == 0 || sizes.loader == 0 || sizes.reassembly == 0 {
      return null;
    }
    if || sizes.control > sizes.capacity
       || sizes.viewer > sizes.capacity - sizes.control
       || sizes.loader > sizes.capacity - sizes.control - sizes.viewer
    {
      return null;
    }
    made := new RetainedMemoryLedger(sizes);
  }
}
