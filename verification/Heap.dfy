/** The growing heap of src/heap.c on top of the allocator.

    What the operating system returns is a parameter: the address of a new region, or nothing. */
module Heap {
  import opened Wrappers
  import Bits
  import opened TlsfMapping
  import opened TlsfLists
  import opened TlsfTiling
  import opened TlsfState
  import opened TlsfAlign
  import opened TlsfPools
  import opened Tlsf

  /** sizeof(arena_t): two pointers, ten stack slots, a symbol pointer and ten names. */
  const ARENA_HEADER := 184

  /** The doubling wraps around in 64 bits, and so does the sum. */
  function ArenaSize(grow: nat, size: nat): nat {
    var double := (2 * size) % SIZE_T;
    ((if grow > double then grow else double) + ARENA_HEADER) % SIZE_T
  }

  /** Behind the header an arena holds the increment and twice the request and is no larger than it has to be,
      so that many small requests share one; both conditions fail exactly where the arithmetic wraps around. */
  lemma ArenaHoldsBoth(grow: nat, size: nat)
    requires grow < SIZE_T - ARENA_HEADER && size < SIZE_T
    ensures var payload := ArenaSize(grow, size) - ARENA_HEADER;
      && (2 * size <= payload <==> 2 * size < SIZE_T - ARENA_HEADER)
      && (grow <= payload <==> size < SIZE_T / 2 - ARENA_HEADER / 2 || SIZE_T / 2 <= size < SIZE_T - ARENA_HEADER / 2)
      && (2 * size <= payload ==> payload == grow || payload == 2 * size)
  {
    var lost := if size < SIZE_T / 2 then 0 else 1;
    Bits.ModUnique(2 * size, SIZE_T, lost, 2 * size - lost * SIZE_T);
  }

  /** So does its pool, less what a pool costs. */
  lemma PoolHoldsBoth(grow: nat, size: nat)
    requires grow < SIZE_T - ARENA_HEADER && 2 * size < SIZE_T - ARENA_HEADER
    ensures ArenaSize(grow, size) < SIZE_T
    ensures var pool := PoolSize(ArenaSize(grow, size));
      && grow + 161 <= pool && 2 * size + 161 <= pool && (pool <= grow + 168 || pool <= 2 * size + 168)
  {
    ArenaHoldsBoth(grow, size);
    PoolSizeIs(ArenaSize(grow, size));
  }

  /** For ordinary alignments the search finds the new pool: twice the request covers the rounding to its
      class and the overhead of a pool. */
  lemma GrowthSuffices(grow: nat, size: nat, k: nat)
    requires 1 <= size <= BLOCK_SIZE_MAX - 8 && grow < SIZE_T - ARENA_HEADER && k <= 3
    requires PoolSize(ArenaSize(grow, size)) < BLOCK_SIZE_MAX
    ensures var total := AlignedSize(AdjustRequestSize(size, ALIGN_SIZE), Bits.Pow2(k));
      0 < total && RoundUp(total) <= PoolSize(ArenaSize(grow, size))
  {
    SmallPowers();
    ArenaIsLarge(grow, size);
    AdjustBounds(size);
    RoundingIsSmall(AdjustRequestSize(size, ALIGN_SIZE));
  }

  lemma AdjustBounds(size: nat)
    requires 1 <= size <= BLOCK_SIZE_MAX - 8
    ensures 0 < AdjustRequestSize(size, ALIGN_SIZE) <= size + 23
  {
    AdjustIsZero(size);
    AdjustedIsLegal(size);
  }

  lemma ArenaIsLarge(grow: nat, size: nat)
    requires 1 <= size <= BLOCK_SIZE_MAX - 8 && grow < SIZE_T - ARENA_HEADER
    requires PoolSize(ArenaSize(grow, size)) < BLOCK_SIZE_MAX
    ensures 2 * size + 161 <= PoolSize(ArenaSize(grow, size)) && size < BLOCK_SIZE_MAX / 2
  {
    PoolHoldsBoth(grow, size);
  }

  lemma PoolSizeIs(bytes: nat)
    requires POOL_OVERHEAD <= bytes < SIZE_T
    ensures bytes - POOL_OVERHEAD - 7 <= PoolSize(bytes) <= bytes - POOL_OVERHEAD
  {
    Bits.ModUnique(bytes + SIZE_T - 16, SIZE_T, 1, bytes - 16);
    AlignDownIsLargest(bytes - 16, 8);
  }

  /** A pool is found by the search exactly when its class is not below the one searched. */
  predicate PoolIsFound(total: nat, pool: nat) {
    BLOCK_SIZE_MIN <= pool < BLOCK_SIZE_MAX && MappingSearch(total).Index() <= MappingInsert(pool).Index()
  }

  lemma GrownRoom(g: Shape, b: nat, n: nat, total: nat)
    requires !HasRoom(g, total) && b !in g.span && b + 1 + n !in g.span && g.free <= g.span.Keys
    requires BLOCK_SIZE_MIN <= 8 * n < BLOCK_SIZE_MAX
    ensures HasRoom(PoolAdded(g, b, n), total) <==> PoolIsFound(total, 8 * n)
  {
    var g' := PoolAdded(g, b, n);
    if PoolIsFound(total, 8 * n) { assert InSearchedList(g', total, b); }
    forall x | x != b ensures !InSearchedList(g', total, x) { assert !InSearchedList(g, total, x); }
  }

  /** Whatever rounds up to at most `n` bytes can be allocated. */
  ghost predicate Serves(g: Shape, n: nat) {
    forall total :: 0 < total && total % 8 == 0 && RoundUp(total) <= n ==> HasRoom(g, total)
  }

  lemma NewPoolServes(g: Shape, b: nat, n: nat, least: nat)
    requires b + 1 + n != b && BLOCK_SIZE_MIN <= 8 * n < BLOCK_SIZE_MAX && least <= 8 * n
    ensures Serves(PoolAdded(g, b, n), least)
  {
    var g' := PoolAdded(g, b, n);
    forall total | 0 < total && total % 8 == 0 && RoundUp(total) <= least ensures HasRoom(g', total) {
      RoundedIsFound(total, 8 * n);
      assert InSearchedList(g', total, b);
    }
  }

  /** The sizes the search rounds up to are found, and so are all others of their class. */
  lemma RoundedIsFound(total: nat, pool: nat)
    requires total % 8 == 0 && RoundUp(total) <= pool && BLOCK_SIZE_MIN <= pool < BLOCK_SIZE_MAX
    ensures PoolIsFound(total, pool)
  {
    GoodFit(total, pool);
  }

  lemma SmallerIsMissed(total: nat, pool: nat)
    requires total % 8 == 0 && pool < total
    ensures !PoolIsFound(total, pool)
  {
    GoodFit(total, pool);
  }

  /** An arena without room for the reserve of a larger alignment is in no class that is searched. */
  lemma SmallArenaIsMissed(grow: nat, size: nat, k: nat)
    requires size < SIZE_T && 3 < k < 64 && Bits.Pow2(k) < ALIGN_MAX
    requires PoolSize(ArenaSize(grow, size)) < AdjustRequestSize(size, ALIGN_SIZE) + Bits.Pow2(k) + GAP_MINIMUM
    ensures 0 < Bits.Pow2(k)
    ensures var total := AlignedSize(AdjustRequestSize(size, ALIGN_SIZE), Bits.Pow2(k));
      total == 0 || !PoolIsFound(total, PoolSize(ArenaSize(grow, size)))
  {
    var adjust := AdjustRequestSize(size, ALIGN_SIZE);
    AdjustedIsLegal(size);
    AlignedSizeFits(adjust, k);
    var total := AlignedSize(adjust, Bits.Pow2(k));
    if total > 0 { SmallerIsMissed(total, PoolSize(ArenaSize(grow, size))); }
  }

  lemma LeastArena()
    ensures ArenaSize(0, 1) == 186 && PoolSize(186) <= 170 && Bits.Pow2(7) == 128
  {
    PoolSizeIs(186);
    assert Bits.Pow2(3) == 8;
  }

  /** What a new arena's pool adds to a heap without room for `total`. */
  lemma NewArena(g: Shape, b: nat, grow: nat, size: nat, total: nat)
    requires grow < SIZE_T - ARENA_HEADER && size < SIZE_T
    requires BLOCK_SIZE_MIN <= PoolSize(ArenaSize(grow, size)) < BLOCK_SIZE_MAX
    requires var n := PoolSize(ArenaSize(grow, size)) / 8; b !in g.span && b + 1 + n !in g.span && g.free <= g.span.Keys
    requires total > 0 ==> !HasRoom(g, total)
    ensures var pool := PoolSize(ArenaSize(grow, size));
      && (total > 0 ==> (HasRoom(PoolAdded(g, b, pool / 8), total) <==> PoolIsFound(total, pool)))
      && (2 * size < SIZE_T - ARENA_HEADER ==> Serves(PoolAdded(g, b, pool / 8), grow + 161))
  {
    var n := PoolSize(ArenaSize(grow, size)) / 8;
    PoolSizeWords(ArenaSize(grow, size));
    if total > 0 { GrownRoom(g, b, n, total); }
    if 2 * size < SIZE_T - ARENA_HEADER {
      PoolHoldsBoth(grow, size);
      NewPoolServes(g, b, n, grow + 161);
    }
  }

  /** What an allocation does to the live blocks. */
  ghost predicate Allocated(g: Shape, g': Shape, p: nat, size: nat, alignment: nat)
    requires alignment > 0
  {
    if p == NULL then Live(g') == Live(g)
    else
      && OneMore(g, g', p)
      && ((8 * p) % alignment == 0 <==> alignment < ALIGN_MAX)
      && (alignment < ALIGN_MAX ==> AdjustRequestSize(size, ALIGN_SIZE) <= 8 * g'.span[p - 2])
  }

  class GrowingHeap {
    const tlsf: Allocator
    const growIncrement: nat
    /** The pools of the arenas, latest first; NULL where the allocator refused the region. */
    var arenas: seq<nat>

    ghost predicate Valid()
      reads this, tlsf, tlsf.mem
    {
      && tlsf.Valid() && 8 * tlsf.mem.Length <= ADDRESS_LIMIT && growIncrement < SIZE_T - ARENA_HEADER
      && forall a :: a in arenas && a != NULL ==> a - 1 in tlsf.g.pools
    }

    constructor (allocator: Allocator, grow: nat)
      requires allocator.Valid() && 8 * allocator.mem.Length <= ADDRESS_LIMIT && grow < SIZE_T - ARENA_HEADER
      ensures Valid() && tlsf == allocator && growIncrement == grow && arenas == []
    {
      tlsf, growIncrement, arenas := allocator, grow, [];
    }

    /** The operating system hands out page-aligned memory that nobody uses. */
    ghost predicate Fresh(region: Option<nat>, size: nat)
      reads this, tlsf, tlsf.mem
    {
      region.Some? ==>
        && region.value % ALIGN_SIZE == 0
        && (AcceptsPool(region.value + ARENA_HEADER, ArenaSize(growIncrement, size)) ==>
              && PoolSize(ArenaSize(growIncrement, size)) < BLOCK_SIZE_MAX
              && Vacant(tlsf.g, tlsf.mem.Length, (region.value + ARENA_HEADER) / 8, ArenaSize(growIncrement, size) / 8))
    }

    /** Allocates, growing the heap by an arena and trying once more if there is no room.  It succeeds
        exactly if there was room, or the new pool is in a class that is searched, which for ordinary
        alignments it always is. */
    method Alloc(size: nat, alignment: nat, ghost k: nat, region: Option<nat>) returns (p: nat)
      requires Valid() && size < SIZE_T && k < 64 && alignment == Bits.Pow2(k) && Fresh(region, size)
      modifies this`arenas, tlsf.mem, tlsf`ctl, tlsf`links, tlsf`g
      ensures Valid() && alignment > 0
      ensures Allocated(old(tlsf.g), tlsf.g, p, size, alignment)
      ensures Kept(old(tlsf.mem[..]), tlsf.mem[..], Live(old(tlsf.g)))
      ensures
        var total := AlignedSize(AdjustRequestSize(size, ALIGN_SIZE), alignment);
        var pool := PoolSize(ArenaSize(growIncrement, size));
        p != NULL <==> 0 < total && (HasRoom(old(tlsf.g), total) || (region.Some? && PoolIsFound(total, pool)))
      ensures
        var total := AlignedSize(AdjustRequestSize(size, ALIGN_SIZE), alignment);
        if region.None? || (0 < total && HasRoom(old(tlsf.g), total))
        then arenas == old(arenas) && tlsf.g.pools == old(tlsf.g).pools
        else |arenas| == |old(arenas)| + 1 && arenas[1..] == old(arenas)
      ensures var pool := PoolSize(ArenaSize(growIncrement, size));
        region.Some? && k <= 3 && 1 <= size <= BLOCK_SIZE_MAX - 8 && pool < BLOCK_SIZE_MAX ==> p != NULL
    {
      OrdinaryIsFound(size, k);
      p := tlsf.Memalign(alignment, size, k);
      if p == NULL && region.Some? {
        p := GrowAndRetry(size, alignment, k, region.value);
      }
    }

    lemma OrdinaryIsFound(size: nat, k: nat)
      requires growIncrement < SIZE_T - ARENA_HEADER && k < 64 && size < SIZE_T
      ensures 0 < Bits.Pow2(k)
      ensures
        var total := AlignedSize(AdjustRequestSize(size, ALIGN_SIZE), Bits.Pow2(k));
        var pool := PoolSize(ArenaSize(growIncrement, size));
        k <= 3 && 1 <= size <= BLOCK_SIZE_MAX - 8 && pool < BLOCK_SIZE_MAX ==> 0 < total && PoolIsFound(total, pool)
    {
      var q := Alignments(k);
      if k <= 3 && 1 <= size <= BLOCK_SIZE_MAX - 8 && PoolSize(ArenaSize(growIncrement, size)) < BLOCK_SIZE_MAX {
        AdjustedIsLegal(size);
        AlignedSizeFits(AdjustRequestSize(size, ALIGN_SIZE), k);
        GrowthSuffices(growIncrement, size, k);
        ArenaIsLarge(growIncrement, size);
        var total := AlignedSize(AdjustRequestSize(size, ALIGN_SIZE), Bits.Pow2(k));
        RoundedIsFound(total, PoolSize(ArenaSize(growIncrement, size)));
      }
    }

    /** Adds an arena to the list, and its memory to the allocator. */
    method Grow(size: nat, arena: nat, ghost total: nat)
      requires Valid() && size < SIZE_T && Fresh(Some(arena), size) && (total > 0 ==> !HasRoom(tlsf.g, total))
      modifies this`arenas, tlsf.mem, tlsf`ctl, tlsf`links, tlsf`g
      ensures Valid() && Live(tlsf.g) == Live(old(tlsf.g)) && Kept(old(tlsf.mem[..]), tlsf.mem[..], Live(tlsf.g))
      ensures var n := PoolSize(ArenaSize(growIncrement, size));
        tlsf.g == if BLOCK_SIZE_MIN <= n < BLOCK_SIZE_MAX
          then PoolAdded(old(tlsf.g), (arena + ARENA_HEADER) / 8 - 1, n / 8) else old(tlsf.g)
      ensures total > 0 ==> (HasRoom(tlsf.g, total) <==> PoolIsFound(total, PoolSize(ArenaSize(growIncrement, size))))
      ensures var n := PoolSize(ArenaSize(growIncrement, size));
        arenas == [if BLOCK_SIZE_MIN <= n < BLOCK_SIZE_MAX then (arena + ARENA_HEADER) / 8 else NULL] + old(arenas)
      ensures tlsf.g != old(tlsf.g) && 2 * size < SIZE_T - ARENA_HEADER ==> Serves(tlsf.g, growIncrement + 161)
    {
      var arenaSize := ArenaSize(growIncrement, size);
      ghost var g0 := tlsf.g;
      var pool := tlsf.AddPool(arena + ARENA_HEADER, arenaSize);
      arenas := [pool] + arenas;
      if AcceptsPool(arena + ARENA_HEADER, arenaSize) {
        NewArena(g0, pool - 1, growIncrement, size, total);
      }
    }

    method GrowAndRetry(size: nat, alignment: nat, ghost k: nat, arena: nat) returns (p: nat)
      requires Valid() && size < SIZE_T && k < 64 && alignment == Bits.Pow2(k) && Fresh(Some(arena), size)
      requires alignment > 0
      requires var total := AlignedSize(AdjustRequestSize(size, ALIGN_SIZE), alignment);
        total > 0 ==> !HasRoom(tlsf.g, total)
      modifies this`arenas, tlsf.mem, tlsf`ctl, tlsf`links, tlsf`g
      ensures Valid() && Allocated(old(tlsf.g), tlsf.g, p, size, alignment)
      ensures Kept(old(tlsf.mem[..]), tlsf.mem[..], Live(old(tlsf.g)))
      ensures var total := AlignedSize(AdjustRequestSize(size, ALIGN_SIZE), alignment);
        p != NULL <==> 0 < total && PoolIsFound(total, PoolSize(ArenaSize(growIncrement, size)))
      ensures |arenas| == |old(arenas)| + 1 && arenas[1..] == old(arenas)
    {
      Grow(size, arena, AlignedSize(AdjustRequestSize(size, ALIGN_SIZE), alignment));
      p := tlsf.Memalign(alignment, size, k);
    }

    method Free(p: nat)
      requires Valid() && (p != NULL ==> 2 <= p && p - 2 in Live(tlsf.g))
      modifies tlsf.mem, tlsf`ctl, tlsf`links, tlsf`g
      ensures Valid() && Kept(old(tlsf.mem[..]), tlsf.mem[..], Live(tlsf.g))
      ensures Live(tlsf.g) == if p == NULL then Live(old(tlsf.g)) else Live(old(tlsf.g)) - {p - 2}
    {
      tlsf.Free(p);
    }
  }

  /** An allocation that fails although the system has memory: one byte at the alignment 128, on a heap
      without a free block that grows by no more than it is asked for. */
  method AllocationFails(heap: GrowingHeap, k: nat) returns (p: nat)
    requires heap.Valid() && heap.growIncrement == 0 && heap.tlsf.g.span == map[] && heap.tlsf.mem.Length == 100
    requires k == 7
    modifies heap`arenas, heap.tlsf.mem, heap.tlsf`ctl, heap.tlsf`links, heap.tlsf`g
    ensures p == NULL
  {
    LeastArena();
    SmallArenaIsMissed(0, 1, k);
    var region := Some(64);
    assert heap.Fresh(region, 1);
    forall total, b: nat ensures !InSearchedList(heap.tlsf.g, total, b) { }
    p := heap.Alloc(1, Bits.Pow2(k), k, region);
  }

  /** There is such a heap. */
  method FailingAllocation() returns (p: nat)
    ensures p == NULL
  {
    var memory := new nat[100];
    var allocator := new Allocator(memory);
    var heap := new GrowingHeap(allocator, 0);
    p := AllocationFails(heap, 7);
  }
}
