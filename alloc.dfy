/** The native allocator behind the off-heap memory (the IAllocator interface,
    implemented in the repository by a JNA malloc/free allocator and an Unsafe
    allocator, neither of which is part of this model). The interface promises
    an address, or 0 when the memory cannot be had; `free` gives a region back;
    getTotalAllocated reports the bytes outstanding. This class is a stand-in
    with a fixed byte budget: it hands out addresses that are not outstanding
    and fails when the budget is exceeded or the request is negative. */
module Alloc {

  class Allocator {
    /** Outstanding allocations: address -> requested bytes. */
    var live: map<int, int>
    /** Bytes the native heap can still hand out. */
    var available: int
    /** Bytes requested by outstanding allocations (getTotalAllocated). */
    var total: int
    /** Every address handed out so far lies below this one. */
    var next: int

    ghost predicate Valid()
      reads this
    {
      next > 0 && available >= 0 && forall a :: a in live ==> 0 < a < next && live[a] >= 0
    }

    constructor (budget: nat)
      ensures Valid() && live == map[] && available == budget && total == 0
    {
      live := map[];
      available := budget;
      total := 0;
      next := 1;
    }

    /** IAllocator.allocate: 0 on failure, otherwise a new address that is now
        outstanding with the requested size. */
    method Allocate(bytes: int) returns (address: int)
      requires Valid()
      modifies this
      ensures Valid()
      ensures address == 0 <==> bytes < 0 || bytes > old(available)
      ensures address == 0 ==> live == old(live) && available == old(available) && total == old(total)
      ensures address != 0 ==> address > 0 && address !in old(live)
      ensures address != 0 ==> live == old(live)[address := bytes]
      ensures address != 0 ==> available == old(available) - bytes && total == old(total) + bytes
    {
      if bytes < 0 || bytes > available {
        return 0;
      }
      address := next;
      next := next + bytes + 1;
      live := live[address := bytes];
      available := available - bytes;
      total := total + bytes;
    }

    /** IAllocator.free: the region at the address is no longer outstanding. */
    method Free(address: int)
      requires Valid()
      modifies this
      ensures Valid()
      ensures live == old(live) - {address}
      ensures address in old(live) ==> total == old(total) - old(live)[address]
      ensures address in old(live) ==> available == old(available) + old(live)[address]
      ensures address !in old(live) ==> total == old(total) && available == old(available)
    {
      if address in live {
        var bytes := live[address];
        available := available + bytes;
        total := total - bytes;
        live := live - {address};
      }
    }

    /** IAllocator.getTotalAllocated. */
    function TotalAllocated(): int
      reads this
    {
      total
    }
  }

  /** Freeing what was just allocated gives back the map from before. */
  lemma AllocateThenFree(live: map<int, int>, address: int, bytes: int)
    requires address !in live
    ensures live[address := bytes] - {address} == live
  {
  }
}
