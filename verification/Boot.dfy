/**
  Physical memory over a boot: `EarlyFrameAllocator` (kernel/src/bootinfo.rs) cuts frames off the
  memory map, then `Pmm::new` (kernel/src/pmm/mod.rs) frees what is left of the map into a buddy
  allocator, which serves the rest of the run.
*/
module Boot {
  import opened Numbers
  import opened Options
  import opened Blocks
  import opened BuddyBins
  import opened BuddyAllocation

  datatype MemoryType =
    | Usable
    | Reserved
    | AcpiReclaimable
    | AcpiNvs
    | UefiRuntimeServices
    | DeviceTree
    | Kernel
    | LoadedImage
    | Framebuffer
    | Scratch

  datatype MemoryEntry = MemoryEntry(base: nat, length: nat, typ: MemoryType)

  predicate InEntry(e: MemoryEntry, a: nat) {
    e.typ.Usable? && e.base <= a < e.base + e.length
  }

  /** Address `a` lies in a usable entry of the map. */
  ghost predicate InMap(m: seq<MemoryEntry>, a: nat) {
    exists i | 0 <= i < |m| :: InEntry(m[i], a)
  }

  /** Usable entries are whole frames (their bounds are made into frames) and do not overlap. */
  ghost predicate ValidMap(m: seq<MemoryEntry>) {
    && (forall i | 0 <= i < |m| && m[i].typ.Usable? :: m[i].base % FRAME == 0 && m[i].length % FRAME == 0)
    && (forall i, j, a | 0 <= i < |m| && 0 <= j < |m| && InEntry(m[i], a) && InEntry(m[j], a) :: i == j)
  }

  predicate InRange(a: nat, base: nat, n: nat) {
    base <= a < base + n * FRAME
  }

  /** Cutting `n` frames off the end of entry `i` removes exactly those addresses from the map. */
  lemma ShrinkEntry(m: seq<MemoryEntry>, i: nat, n: nat)
    requires ValidMap(m) && i < |m| && m[i].typ.Usable? && n * FRAME <= m[i].length
    ensures var cut := m[i].length - n * FRAME;
            var after := m[i := m[i].(length := cut)];
            && ValidMap(after)
            && (m[i].base + cut) % FRAME == 0
            && (forall a: nat :: InMap(after, a) <==> InMap(m, a) && !InRange(a, m[i].base + cut, n))
            && (forall a: nat | InRange(a, m[i].base + cut, n) :: InMap(m, a))
  {
    var cut := m[i].length - n * FRAME;
    var after := m[i := m[i].(length := cut)];
    assert forall a: nat :: InEntry(after[i], a) <==> InEntry(m[i], a) && !InRange(a, m[i].base + cut, n);
    assert forall a: nat | InRange(a, m[i].base + cut, n) :: InEntry(m[i], a);
    forall a: nat
      ensures InMap(after, a) <==> InMap(m, a) && !InRange(a, m[i].base + cut, n)
    {
      if InMap(m, a) && !InRange(a, m[i].base + cut, n) {
        var j :| 0 <= j < |m| && InEntry(m[j], a);
        assert InEntry(after[j], a);
      }
      if InMap(after, a) {
        var j :| 0 <= j < |after| && InEntry(after[j], a);
        assert InEntry(m[j], a);
      }
    }
  }

  predicate LongEnough(e: MemoryEntry, n: nat) {
    e.typ.Usable? && n * FRAME <= e.length
  }

  /** Entry `i` is the first usable one of at least `n` frames, and `n` frames from `base` on reach its end. */
  ghost predicate EndsFirstLongEnough(m: seq<MemoryEntry>, i: nat, n: nat, base: nat)
    requires i < |m|
  {
    && LongEnough(m[i], n) && (forall j | 0 <= j < i :: !LongEnough(m[j], n))
    && base + n * FRAME == m[i].base + m[i].length
  }

  /** `EarlyFrameAllocator`, on the memory map it edits. */
  class EarlyFrameAllocator {
    var memoryMap: seq<MemoryEntry>

    constructor (memoryMap: seq<MemoryEntry>)
      ensures this.memoryMap == memoryMap
    {
      this.memoryMap := memoryMap;
    }

    /**
      `allocate_n`: the last `n` frames of the first usable entry long enough, or nothing (the source
      panics) when there is none.
    */
    method AllocateN(n: nat) returns (r: Option<nat>)
      requires ValidMap(memoryMap)
      modifies this
      ensures ValidMap(memoryMap) && |memoryMap| == |old(memoryMap)|
      ensures r.None? <==> forall i | 0 <= i < |old(memoryMap)| :: !LongEnough(old(memoryMap)[i], n)
      ensures r.None? ==> memoryMap == old(memoryMap)
      ensures r.Some? ==> r.value % FRAME == 0
      ensures r.Some? ==> exists i | 0 <= i < |old(memoryMap)| :: EndsFirstLongEnough(old(memoryMap), i, n, r.value)
      ensures r.Some? ==> forall a: nat | InRange(a, r.value, n) :: InMap(old(memoryMap), a)
      ensures r.Some? ==>
                forall a: nat :: InMap(memoryMap, a) <==> InMap(old(memoryMap), a) && !InRange(a, r.value, n)
    {
      for i := 0 to |memoryMap|
        invariant memoryMap == old(memoryMap)
        invariant forall j | 0 <= j < i :: !LongEnough(memoryMap[j], n)
      {
        if memoryMap[i].typ == Usable && memoryMap[i].length >= n * FRAME {
          ShrinkEntry(memoryMap, i, n);
          var base := memoryMap[i].base + memoryMap[i].length - n * FRAME;
          assert EndsFirstLongEnough(memoryMap, i, n, base);
          memoryMap := memoryMap[i := memoryMap[i].(length := memoryMap[i].length - n * FRAME)];
          return Some(base);
        }
      }
      r := None;
    }
  }

  /** `Pmm`: the buddy allocator fed from the memory map. */
  class Pmm {
    const buddy: BuddyAllocator

    ghost predicate Valid()
      reads this, buddy
    {
      buddy.Valid()
    }

    /** `Pmm::new`: afterwards exactly the usable memory is free. */
    constructor (memoryMap: seq<MemoryEntry>)
      requires ValidMap(memoryMap)
      ensures Valid() && fresh(buddy)
      ensures forall a: nat :: IsFree(buddy.bins, a) <==> InMap(memoryMap, a)
    {
      buddy := new BuddyAllocator();
      new;
      for i := 0 to |memoryMap|
        invariant fresh(buddy) && buddy.Valid()
        invariant forall a: nat :: IsFree(buddy.bins, a) <==> InMap(memoryMap[..i], a)
      {
        PrefixGrows(memoryMap, i);
        if memoryMap[i].typ == Usable {
          buddy.FreeRange(memoryMap[i].base, memoryMap[i].base + memoryMap[i].length);
        }
      }
      assert memoryMap[..|memoryMap|] == memoryMap;
    }

    method Alloc(count: nat) returns (r: Option<nat>)
      requires Valid()
      modifies buddy
      ensures Valid()
      ensures r.None? <==> !HasRun(old(buddy.bins), OrderFor(count))
      ensures r.None? ==> buddy.bins == old(buddy.bins)
      ensures r.Some? ==> AllFree(old(buddy.bins), r.value, OrderFor(count))
      ensures r.Some? ==> Aligned(r.value, OrderFor(count))
      ensures r.Some? ==> Taken(old(buddy.bins), buddy.bins, r.value, OrderFor(count))
    {
      r := buddy.Alloc(count);
    }

    method Free(base: nat, count: nat)
      requires Valid() && count == Pow2(OrderFor(count)) && OrderFor(count) <= MAX_ORDER
      requires Aligned(base, OrderFor(count)) && NoneFree(buddy.bins, base, OrderFor(count))
      modifies buddy
      ensures Valid()
      ensures Freed(old(buddy.bins), buddy.bins, base, OrderFor(count))
    {
      buddy.Free(base, count);
    }
  }

  lemma PrefixGrows(m: seq<MemoryEntry>, i: nat)
    requires i < |m| && ValidMap(m)
    ensures forall a: nat :: InMap(m[..i + 1], a) <==> InMap(m[..i], a) || InEntry(m[i], a)
    ensures forall a: nat | InEntry(m[i], a) :: !InMap(m[..i], a)
  {
    forall a: nat
      ensures InMap(m[..i + 1], a) <==> InMap(m[..i], a) || InEntry(m[i], a)
    {
      if InEntry(m[i], a) {
        assert InEntry(m[..i + 1][i], a);
      }
      if InMap(m[..i], a) {
        var j :| 0 <= j < i && InEntry(m[..i][j], a);
        assert InEntry(m[..i + 1][j], a);
      }
    }
  }

  // ---------------------------------------------------------------------------------------------
  // The whole boot
  // ---------------------------------------------------------------------------------------------

  ghost predicate IsFrame(f: nat) {
    f % FRAME == 0
  }

  /** Freeness does not change inside a frame. */
  lemma FreeByFrame(bins: Bins, a: nat)
    ensures IsFree(bins, a) <==> IsFree(bins, BlockOf(a, 0))
  {
    forall k | 0 <= k < |bins|
      ensures BlockOf(BlockOf(a, 0), k) == BlockOf(a, k)
    {
      Nested(a, 0, k);
    }
  }

  /** The frames of physical memory, split by who has them. */
  ghost predicate Partition(all: set<nat>, early: set<nat>, held: set<nat>, free: set<nat>) {
    && all == early + held + free
    && early !! held && early !! free && held !! free
  }

  ghost function MapFrames(m: seq<MemoryEntry>): set<nat> {
    set i, f | 0 <= i < |m| && f in EntryFrames(m[i]) :: f
  }

  ghost function EntryFrames(e: MemoryEntry): set<nat> {
    set f: nat | e.base <= f < e.base + e.length && e.typ.Usable? && f % FRAME == 0
  }

  ghost function RangeFrames(base: nat, n: nat): set<nat> {
    set f: nat | base <= f < base + n * FRAME && f % FRAME == 0
  }

  lemma MapFramesMember(m: seq<MemoryEntry>, f: nat)
    ensures f in MapFrames(m) <==> IsFrame(f) && InMap(m, f)
  {
    if IsFrame(f) && InMap(m, f) {
      var i :| 0 <= i < |m| && InEntry(m[i], f);
      assert f in EntryFrames(m[i]);
    }
    if f in MapFrames(m) {
      var i :| 0 <= i < |m| && f in EntryFrames(m[i]);
      assert InEntry(m[i], f);
    }
  }

  /**
    The two allocators in the order the kernel uses them. At every point the frames given out early,
    the frames allocated and not yet freed, and the frames still available are a partition of the
    memory the boot loader called usable.
  */
  class Machine {
    var early: EarlyFrameAllocator
    var pmm: Pmm?
    ghost var usable: set<nat>
    ghost var given: set<nat>
    ghost var held: set<nat>

    ghost predicate Valid()
      reads this, early, pmm, if pmm != null then {pmm.buddy} else {}
    {
      && (pmm == null ==>
            ValidMap(early.memoryMap) && held == {} && Partition(usable, given, held, MapFrames(early.memoryMap)))
      && (pmm != null ==> pmm.Valid() && Partition(usable, given, held, FreeFrames(pmm.buddy.bins)))
    }

    constructor (memoryMap: seq<MemoryEntry>)
      requires ValidMap(memoryMap)
      ensures Valid() && pmm == null && fresh(early)
      ensures usable == MapFrames(memoryMap) && given == {} && held == {}
    {
      early := new EarlyFrameAllocator(memoryMap);
      pmm := null;
      usable := MapFrames(memoryMap);
      given := {};
      held := {};
    }

    method AllocateEarly(n: nat) returns (r: Option<nat>)
      requires Valid() && pmm == null
      modifies this`given, early
      ensures Valid() && usable == old(usable)
      ensures given == old(given) + if r.Some? then RangeFrames(r.value, n) else {}
      ensures r.Some? ==> old(given) !! RangeFrames(r.value, n)
      ensures r.None? <==> forall i | 0 <= i < |old(early.memoryMap)| ::
                             !old(early.memoryMap)[i].typ.Usable? || old(early.memoryMap)[i].length < n * FRAME
    {
      ghost var before := early.memoryMap;
      r := early.AllocateN(n);
      if r.Some? {
        given := given + RangeFrames(r.value, n);
        forall f: nat
          ensures f in MapFrames(before) <==> f in MapFrames(early.memoryMap) || f in RangeFrames(r.value, n)
          ensures f in RangeFrames(r.value, n) ==> f !in MapFrames(early.memoryMap)
        {
          MapFramesMember(before, f);
          MapFramesMember(early.memoryMap, f);
          assert f in RangeFrames(r.value, n) <==> IsFrame(f) && InRange(f, r.value, n);
        }
        assert MapFrames(before) == MapFrames(early.memoryMap) + RangeFrames(r.value, n);
      }
    }

    method StartPmm()
      requires Valid() && pmm == null
      modifies this`pmm
      ensures Valid() && pmm != null && fresh(pmm) && fresh(pmm.buddy)
    {
      pmm := new Pmm(early.memoryMap);
      forall f: nat
        ensures f in MapFrames(early.memoryMap) <==> f in FreeFrames(pmm.buddy.bins)
      {
        MapFramesMember(early.memoryMap, f);
        FreeFramesAreFree(pmm.buddy.bins, f);
      }
      assert MapFrames(early.memoryMap) == FreeFrames(pmm.buddy.bins);
    }

    method Alloc(count: nat) returns (r: Option<nat>)
      requires Valid() && pmm != null
      modifies this`held, pmm.buddy
      ensures Valid() && pmm == old(pmm) && usable == old(usable) && given == old(given)
      ensures held == old(held) + if r.Some? then BlockFrames(r.value, OrderFor(count)) else {}
      ensures r.Some? ==> old(held) !! BlockFrames(r.value, OrderFor(count))
      ensures r.None? <==> !HasRun(old(pmm.buddy.bins), OrderFor(count))
    {
      ghost var before := pmm.buddy.bins;
      r := pmm.Alloc(count);
      if r.Some? {
        TakenFrames(before, pmm.buddy.bins, r.value, OrderFor(count));
        held := held + BlockFrames(r.value, OrderFor(count));
      }
    }

    /** Frees any aligned run of frames that are held; how they were allocated does not matter. */
    method Free(base: nat, count: nat)
      requires Valid() && pmm != null
      requires count == Pow2(OrderFor(count)) && OrderFor(count) <= MAX_ORDER && Aligned(base, OrderFor(count))
      requires BlockFrames(base, OrderFor(count)) <= held
      modifies this`held, pmm.buddy
      ensures Valid() && pmm == old(pmm) && usable == old(usable) && given == old(given)
      ensures held == old(held) - BlockFrames(base, OrderFor(count))
    {
      ghost var before := pmm.buddy.bins;
      HeldIsNotFree(before, base, OrderFor(count), held);
      pmm.Free(base, count);
      FreedFrames(before, pmm.buddy.bins, base, OrderFor(count));
      held := held - BlockFrames(base, OrderFor(count));
    }

    /** The allocator's own account of free memory is what the partition leaves for it. */
    method AvailableBytes() returns (bytes: nat)
      requires Valid() && pmm != null
      ensures bytes == FRAME * |usable - given - held|
    {
      bytes := pmm.buddy.AvailableBytes();
      assert usable - given - held == FreeFrames(pmm.buddy.bins);
    }
  }

  lemma TakenFrames(x: Bins, y: Bins, b: nat, k: nat)
    requires WellFormed(x) && Aligned(b, k) && AllFree(x, b, k) && Taken(x, y, b, k)
    ensures FreeFrames(x) == FreeFrames(y) + BlockFrames(b, k)
    ensures FreeFrames(y) !! BlockFrames(b, k)
  {
    forall f: nat
      ensures f in FreeFrames(x) <==> f in FreeFrames(y) || f in BlockFrames(b, k)
      ensures f in BlockFrames(b, k) ==> f !in FreeFrames(y)
    {
      FreeFramesAreFree(x, f);
      FreeFramesAreFree(y, f);
      assert f in BlockFrames(b, k) <==> InBlock(f, b, k) && IsFrame(f);
    }
  }

  lemma FreedFrames(x: Bins, y: Bins, b: nat, k: nat)
    requires WellFormed(x) && Freed(x, y, b, k)
    ensures FreeFrames(y) == FreeFrames(x) + BlockFrames(b, k)
  {
    forall f: nat
      ensures f in FreeFrames(y) <==> f in FreeFrames(x) || f in BlockFrames(b, k)
    {
      FreeFramesAreFree(x, f);
      FreeFramesAreFree(y, f);
      assert f in BlockFrames(b, k) <==> InBlock(f, b, k) && IsFrame(f);
    }
  }

  lemma HeldIsNotFree(x: Bins, b: nat, k: nat, held: set<nat>)
    requires WellFormed(x) && Aligned(b, k) && BlockFrames(b, k) <= held && held !! FreeFrames(x)
    ensures NoneFree(x, b, k)
  {
    forall a | InBlock(a, b, k)
      ensures !IsFree(x, a)
    {
      var f := BlockOf(a, 0);
      assert Size(0) == FRAME;
      BlockOfContains(a, 0);
      BlockOfUnique(a, b, k);
      Nested(a, 0, k);
      BlockOfContains(f, k);
      assert f in BlockFrames(b, k);
      FreeFramesAreFree(x, f);
      FreeByFrame(x, a);
    }
  }
}
