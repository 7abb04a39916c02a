/**
 * The growable heap of src/heap.c and of its older copy heap.c. A heap owns
 * an allocator (TLSF) and a chain of pool records, one per OS reservation
 * added when the allocator ran out of space. The allocator and the OS are
 * not modelled: every answer they give (an address, or 0 for NULL) is a
 * parameter of the operation that asks for it.
 *
 * The two files differ only in the layout of the pool record (the newer one
 * carries a 32-frame backtrace), which changes sizeof(object_t); `Variant`
 * selects it.
 */
module Heap {
  import opened CInt

  /** A memory address; 0 is NULL. */
  type Addr = nat

  /** Current is src/heap.c, Legacy is heap.c. */
  datatype Variant = Current | Legacy

  /**
   * sizeof(object_t) on 64-bit Windows. src/heap.c: next, marked (padded),
   * size, backtrace[32], backtrace_frames (padded), data, pool = 304 bytes;
   * heap.c: next, marked (padded), size, data, pool = 40 bytes.
   */
  function RecordSize(v: Variant): nat {
    match v
    case Current => 304
    case Legacy => 40
  }

  function Max(a: int, b: int): int { if a > b then a else b }

  /**
   * A pool record: the OS reservation at `addr` of `reserved` bytes, whose
   * header is the record itself; the pool handed to the allocator starts
   * right after the header and is `poolSize` bytes long.
   */
  datatype PoolRecord = PoolRecord(addr: Addr, reserved: nat, poolSize: nat)

  /** One step of heapDestroy: the allocator itself, one pool reservation, or the heap's own reservation. */
  datatype Release = DestroyAllocator | ReleasePool(addr: Addr) | ReleaseHeap(addr: Addr)

  /**
   * object_size = __max(grow_increment, size * 2) + sizeof(object_t), in
   * size_t arithmetic (64-bit, wrapping).
   */
  function GrowthPoolSize(v: Variant, growIncrement: nat, size: nat): (r: nat)
    ensures r < TWO_64
  {
    Wrap64(Max(growIncrement, Wrap64(size * 2)) + RecordSize(v))
  }

  /** Without overflow, the new pool holds at least twice the request and at least the grow increment, plus one record. */
  lemma GrowthPoolSizeCovers(v: Variant, growIncrement: nat, size: nat)
    requires growIncrement < TWO_64 / 2 && size < TWO_64 / 4
    ensures GrowthPoolSize(v, growIncrement, size) == Max(growIncrement, 2 * size) + RecordSize(v)
    ensures GrowthPoolSize(v, growIncrement, size) >= 2 * size + RecordSize(v)
    ensures GrowthPoolSize(v, growIncrement, size) >= growIncrement + RecordSize(v)
  {
  }

  /** src/heap.c: each new pool is max(grow_increment, 2 * size) + 304 bytes. */
  lemma CurrentGrowthPoolSize(growIncrement: nat, size: nat)
    requires growIncrement < TWO_64 / 2 && size < TWO_64 / 4
    ensures GrowthPoolSize(Current, growIncrement, size) == Max(growIncrement, 2 * size) + 304
  {
    GrowthPoolSizeCovers(Current, growIncrement, size);
  }

  /** heap.c: each new pool is max(grow_increment, 2 * size) + 40 bytes. */
  lemma LegacyGrowthPoolSize(growIncrement: nat, size: nat)
    requires growIncrement < TWO_64 / 2 && size < TWO_64 / 4
    ensures GrowthPoolSize(Legacy, growIncrement, size) == Max(growIncrement, 2 * size) + 40
  {
    GrowthPoolSizeCovers(Legacy, growIncrement, size);
  }

  /**
   * The record heapAlloc builds when it grows: VirtualAlloc of object_size +
   * tlsf_pool_overhead() bytes, then tlsf_add_pool(object + 1, object_size).
   */
  function GrownRecord(v: Variant, addr: Addr, growIncrement: nat, size: nat, overhead: nat): (p: PoolRecord)
    ensures p.addr == addr && p.poolSize == GrowthPoolSize(v, growIncrement, size)
  {
    var objectSize := GrowthPoolSize(v, growIncrement, size);
    PoolRecord(addr, Wrap64(objectSize + overhead), objectSize)
  }

  /** Where a record's pool ends, counted from the start of its reservation. */
  function PoolEnd(v: Variant, p: PoolRecord): nat { RecordSize(v) + p.poolSize }

  /**
   * The pool registered with the allocator runs past the reservation by
   * sizeof(object_t) - tlsf_pool_overhead() bytes: it starts after the
   * record header but is given the full object_size, header included.
   */
  lemma GrownPoolOverrunsReservation(v: Variant, addr: Addr, growIncrement: nat, size: nat, overhead: nat)
    requires growIncrement < TWO_64 / 2 && size < TWO_64 / 4 && overhead < TWO_64 / 4
    ensures PoolEnd(v, GrownRecord(v, addr, growIncrement, size, overhead))
            - GrownRecord(v, addr, growIncrement, size, overhead).reserved == RecordSize(v) - overhead
  {
    GrowthPoolSizeCovers(v, growIncrement, size);
  }

  /** The input that shows it: a one-page reservation (3776 + 304 + 16 = 4096 bytes) whose pool ends at byte 4384. */
  lemma GrownPoolOverrunExample()
    ensures GrownRecord(Current, 0x10000, 3776, 16, 16).reserved == 4096
    ensures PoolEnd(Current, GrownRecord(Current, 0x10000, 3776, 16, 16)) == 4384
  {
    GrowthPoolSizeCovers(Current, 3776, 16);
  }

  /**
   * The evidently intended record: the same reservation, with the pool given
   * only the bytes that follow the header.
   */
  function GrownRecordFixed(v: Variant, addr: Addr, growIncrement: nat, size: nat, overhead: nat): (p: PoolRecord)
    requires growIncrement < TWO_64 / 2 && size < TWO_64 / 4 && overhead < TWO_64 / 4
    ensures p.addr == addr
    ensures PoolEnd(v, p) == p.reserved
    ensures p.poolSize == Max(growIncrement, 2 * size) + overhead
  {
    GrowthPoolSizeCovers(v, growIncrement, size);
    var objectSize := GrowthPoolSize(v, growIncrement, size);
    PoolRecord(addr, objectSize + overhead, objectSize + overhead - RecordSize(v))
  }

  /**
   * heapAlloc's answer as written: `first` is the first allocator attempt,
   * `os` the OS reservation for a new pool, `retry` the attempt after growth.
   * A successful first attempt falls into the error branch and yields NULL.
   */
  function AllocResult(first: Addr, os: Addr, retry: Addr): (r: Addr)
    ensures first != 0 ==> r == 0
    ensures first == 0 && os == 0 ==> r == 0
    ensures first == 0 && os != 0 ==> r == retry
  {
    if first == 0 then (if os == 0 then 0 else retry) else 0
  }

  /** The evidently intended answer: the first attempt's block when there is one, otherwise the retry after growth. */
  function AllocResultFixed(first: Addr, os: Addr, retry: Addr): (r: Addr)
    ensures first != 0 ==> r == first
    ensures first == 0 && os == 0 ==> r == 0
    ensures first == 0 && os != 0 ==> r == retry
  {
    if first != 0 then first else if os == 0 then 0 else retry
  }

  /** The written and the intended answers differ exactly when the first attempt succeeds. */
  lemma AllocResultDiffersOnFirstSuccess(first: Addr, os: Addr, retry: Addr)
    ensures AllocResult(first, os, retry) != AllocResultFixed(first, os, retry) <==> first != 0
  {
  }

  /** The input that shows it: the allocator finds a block at 0x1000 straight away, and heapAlloc returns NULL. */
  lemma AllocFirstSuccessExample()
    ensures AllocResult(0x1000, 0, 0) == 0 && AllocResultFixed(0x1000, 0, 0) == 0x1000
  {
  }

  /** The addresses of a chain's records, in chain order. */
  function ChainAddrs(pools: seq<PoolRecord>): (r: seq<Addr>)
    ensures |r| == |pools|
    ensures forall i :: 0 <= i < |pools| ==> r[i] == pools[i].addr
  {
    seq(|pools|, i requires 0 <= i < |pools| => pools[i].addr)
  }

  class Heap {
    const variant: Variant
    const base: Addr             // the heap's own OS reservation
    const growIncrement: nat
    const poolOverhead: nat      // tlsf_pool_overhead()
    var pools: seq<PoolRecord>   // the pool-record chain, most recent first
    var live: set<Addr>          // blocks the allocator has handed out and not taken back

    /** Records and the heap itself are distinct, non-NULL reservations. */
    ghost predicate Valid()
      reads this
    {
      && base != 0 && 0 !in live
      && growIncrement < TWO_64
      && (forall i :: 0 <= i < |pools| ==> pools[i].addr != 0 && pools[i].addr != base)
      && (forall i, j :: 0 <= i < j < |pools| ==> pools[i].addr != pools[j].addr)
    }

    constructor Init(variant: Variant, base: Addr, growIncrement: nat, poolOverhead: nat)
      requires base != 0 && growIncrement < TWO_64
      ensures Valid() && this.variant == variant && this.base == base
      ensures this.growIncrement == growIncrement && this.poolOverhead == poolOverhead
      ensures pools == [] && live == {}
    {
      this.variant := variant;
      this.base := base;
      this.growIncrement := growIncrement;
      this.poolOverhead := poolOverhead;
      pools := [];
      live := {};
    }

    /**
     * heapCreate: `reservation` is what VirtualAlloc returned for the heap
     * and the allocator's control block; NULL there means NULL here.
     */
    static method Create(variant: Variant, growIncrement: nat, poolOverhead: nat, reservation: Addr) returns (h: Heap?)
      requires growIncrement < TWO_64
      ensures reservation == 0 ==> h == null
      ensures reservation != 0 ==> h != null && fresh(h) && h.Valid() && h.base == reservation
      ensures h != null ==> h.variant == variant && h.growIncrement == growIncrement
      ensures h != null ==> h.pools == [] && h.live == {}
    {
      if reservation == 0 {
        return null;
      }
      h := new Heap.Init(variant, reservation, growIncrement, poolOverhead);
    }

    /**
     * heapAlloc as written. The allocator's answers `first` and `retry` are
     * never blocks it has already handed out; the OS's answer `os` is never a
     * reservation that is still held.
     */
    method Alloc(size: nat, alignment: nat, first: Addr, os: Addr, retry: Addr) returns (r: Addr)
      requires Valid() && size < TWO_64
      requires first !in live && retry !in live
      requires os != base && os !in ChainAddrs(pools)
      modifies this
      ensures Valid()
      ensures r == AllocResult(first, os, retry)
      ensures first != 0 ==> pools == old(pools) && live == old(live) + {first}
      ensures first == 0 && os == 0 ==> pools == old(pools) && live == old(live)
      ensures first == 0 && os != 0 ==>
                pools == [GrownRecord(variant, os, growIncrement, size, poolOverhead)] + old(pools)
                && live == old(live) + (if retry != 0 then {retry} else {})
    {
      var address := first;
      if address == 0 {
        var objectSize := GrowthPoolSize(variant, growIncrement, size);
        if os == 0 {
          return 0;
        }
        var record := PoolRecord(os, Wrap64(objectSize + poolOverhead), objectSize);
        pools := [record] + pools;
        address := retry;
        if address != 0 {
          live := live + {address};
        }
      } else {
        live := live + {address};
        return 0;
      }
      r := address;
    }

    /** heapFree: hands the block back to the allocator (NULL is ignored); the pool chain is untouched. */
    method Free(address: Addr)
      requires Valid() && (address == 0 || address in live)
      modifies this
      ensures Valid() && pools == old(pools)
      ensures live == old(live) - {address}
    {
      live := live - {address};
    }

    /**
     * heapDestroy: destroys the allocator, walks the chain from its head
     * releasing each record's reservation, then releases the heap's own.
     * The result lists those releases in order.
     */
    method Destroy() returns (log: seq<Release>)
      requires Valid()
      ensures |log| == |pools| + 2
      ensures log[0] == DestroyAllocator && log[|log| - 1] == ReleaseHeap(base)
      ensures forall i :: 0 <= i < |pools| ==> log[i + 1] == ReleasePool(pools[i].addr)
      ensures forall i, j :: 0 <= i < j < |log| ==> log[i] != log[j]
    {
      log := [DestroyAllocator];
      var i := 0;
      while i < |pools|
        invariant 0 <= i <= |pools|
        invariant |log| == i + 1 && log[0] == DestroyAllocator
        invariant forall k :: 0 <= k < i ==> log[k + 1] == ReleasePool(pools[k].addr)
      {
        log := log + [ReleasePool(pools[i].addr)];
        i := i + 1;
      }
      log := log + [ReleaseHeap(base)];
      forall i, j | 0 <= i < j < |log|
        ensures log[i] != log[j]
      {
        if j == |log| - 1 {
          assert log[j] == ReleaseHeap(base);
          if 1 <= i {
            assert log[i] == ReleasePool(pools[i - 1].addr);
          }
        } else {
          assert log[j] == ReleasePool(pools[j - 1].addr);
          if 1 <= i {
            assert log[i] == ReleasePool(pools[i - 1].addr);
            assert pools[i - 1].addr != pools[j - 1].addr;
          }
        }
      }
    }
  }
}
