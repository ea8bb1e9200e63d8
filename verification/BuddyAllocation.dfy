/**
  `BuddyAllocator` (kernel/src/pmm/buddy.rs): the bins, updated in place by recursive splitting and
  coalescing. Every operation keeps the bins well formed, hence canonical (`BuddyBins`).
*/
module BuddyAllocation {
  import opened Numbers
  import opened Options
  import opened Blocks
  import opened BuddyBins

  /** The order of `count.next_power_of_two()`. */
  function OrderFor(count: nat): (k: nat)
    ensures count <= Pow2(k) && (k > 0 ==> Pow2(k - 1) < count)
  {
    OrderFrom(count, 0)
  }

  function OrderFrom(count: nat, k: nat): (r: nat)
    requires k > 0 ==> Pow2(k - 1) < count
    ensures count <= Pow2(r) && (r > 0 ==> Pow2(r - 1) < count)
    decreases count - Pow2(k)
  {
    if count <= Pow2(k) then k else OrderFrom(count, k + 1)
  }

  lemma OrderUnique(k: nat, r: nat)
    requires Pow2(k) <= Pow2(r) && (r > 0 ==> Pow2(r - 1) < Pow2(k))
    ensures r == k
  {
    if r < k {
      Pow2Grows(r, k);
    } else if k + 1 < r {
      Pow2Grows(k, r - 1);
    }
  }

  /** A power of two is its own next power of two. */
  lemma OrderOfPow2(k: nat)
    ensures OrderFor(Pow2(k)) == k
  {
    OrderUnique(k, OrderFor(Pow2(k)));
  }

  /** The lowest block of the smallest order, from `order` up, that has any block. */
  ghost predicate SmallestFit(bins: Bins, order: nat, b: nat) {
    exists j | order <= j < |bins| ::
      && (forall i | order <= i < j :: bins[i] == {})
      && b in bins[j]
      && (forall c | c in bins[j] :: b <= c)
  }

  ghost predicate HasRun(bins: Bins, order: nat) {
    order <= MAX_ORDER && exists b :: Aligned(b, order) && AllFree(bins, b, order)
  }

  /** A block of the next order up can be split; and if there is none, the bin itself had to have one. */
  lemma RunAbove(bins: Bins, order: nat)
    requires WellFormed(bins) && order <= MAX_ORDER && bins[order] == {}
    ensures HasRun(bins, order) <==> HasRun(bins, order + 1)
  {
    if HasRun(bins, order) {
      var b :| Aligned(b, order) && AllFree(bins, b, order);
      var j := FreeRunIsInABin(bins, b, order);
      BlockIsFree(bins, BlockOf(b, j), j);
      Nested(b, order + 1, j);
      Inside(b, order + 1, j);
      BlockOfContains(b, order + 1);
      assert AllFree(bins, BlockOf(b, order + 1), order + 1);
    }
    if HasRun(bins, order + 1) {
      var b :| Aligned(b, order + 1) && AllFree(bins, b, order + 1);
      AlignedBelow(b, order, order + 1);
      BuddyHalves(b, order);
      BlockOfAligned(b, order + 1);
      assert AllFree(bins, b, order);
    }
  }

  /** Taking a block and giving its upper half back takes its lower half. */
  lemma SplitTakesLowerHalf(x: Bins, y: Bins, z: Bins, b: nat, k: nat)
    requires Aligned(b, k + 1) && AllFree(x, b, k + 1)
    requires Taken(x, y, b, k + 1) && Freed(y, z, b + Size(k), k)
    ensures Aligned(b, k) && AllFree(x, b, k) && Taken(x, z, b, k)
  {
    AlignedBelow(b, k, k + 1);
    BuddyHalves(b, k);
  }

  lemma UpperHalf(b: nat, k: nat)
    requires Aligned(b, k + 1)
    ensures Aligned(b, k) && BuddyOf(b, k) == b + Size(k) && Aligned(b + Size(k), k)
    ensures Size(k + 1) == 2 * Size(k)
  {
    AlignedBelow(b, k, k + 1);
    BuddyHalves(b, k);
    BlockOfAligned(b, k + 1);
  }

  /** Coalescing a block with its free buddy and freeing the result frees the block. */
  lemma CoalesceFrees(x: Bins, y: Bins, z: Bins, b: nat, k: nat)
    requires WellFormed(x) && k < MAX_ORDER && Aligned(b, k) && BuddyOf(b, k) in x[k]
    requires Taken(x, y, BuddyOf(b, k), k) && Freed(y, z, BlockOf(b, k + 1), k + 1)
    ensures Freed(x, z, b, k)
  {
    BuddyHalves(b, k);
    BlockIsFree(x, BuddyOf(b, k), k);
  }

  lemma {:induction false} MinExists(s: set<nat>) returns (m: nat)
    requires s != {}
    ensures m in s && forall x | x in s :: m <= x
  {
    m :| m in s;
    if s != {m} {
      assert s - {m} != {};
      var least := MinExists(s - {m});
      assert forall x | x in s :: x == m || x in s - {m};
      if least < m {
        m := least;
      }
    }
  }

  /** A frame is a block of order 0, and frame addresses are a frame apart. */
  lemma FrameStep(frame: nat, end: nat)
    requires frame % FRAME == 0 && end % FRAME == 0 && frame < end
    ensures Aligned(frame, 0) && frame + FRAME <= end && (frame + FRAME) % FRAME == 0
    ensures forall a: nat :: InBlock(a, frame, 0) <==> frame <= a < frame + FRAME
  {
    assert Size(0) == FRAME;
  }

  class BuddyAllocator {
    var bins: Bins

    ghost predicate Valid()
      reads this
    {
      WellFormed(bins)
    }

    constructor ()
      ensures Valid()
      ensures forall a: nat :: !IsFree(bins, a)
    {
      bins := seq(MAX_ORDER + 1, _ => {});
    }

    /** `free_range`: frees the 4KiB frames from `start` up to `end`, coalescing as it goes. */
    method FreeRange(start: nat, end: nat)
      requires Valid() && start % FRAME == 0 && end % FRAME == 0
      requires forall a | start <= a < end :: !IsFree(bins, a)
      modifies this
      ensures Valid()
      ensures forall a: nat :: IsFree(bins, a) <==> old(IsFree(bins, a)) || start <= a < end
    {
      var frame := start;
      while frame < end
        invariant Valid() && start <= frame && frame % FRAME == 0
        invariant if start <= end then frame <= end else frame == start
        invariant forall a: nat :: IsFree(bins, a) <==> old(IsFree(bins, a)) || start <= a < frame
      {
        FrameStep(frame, end);
        FreeBlock(frame, 0);
        frame := frame + FRAME;
      }
    }

    /** `available_bytes`: 4096 bytes for each free frame. */
    method AvailableBytes() returns (bytes: nat)
      requires Valid()
      ensures bytes == FRAME * |FreeFrames(bins)|
    {
      bytes := 0;
      for i := 0 to MAX_ORDER + 1
        invariant bytes == BytesBelow(bins, i)
      {
        bytes := bytes + |bins[i]| * Size(i);
      }
      CountBelow(bins, MAX_ORDER + 1);
    }

    /**
      `alloc`: fails if and only if no aligned run of `next_power_of_two(count)` free frames exists
      (up to the top order); otherwise removes exactly such a run from the free memory.
    */
    method Alloc(count: nat) returns (r: Option<nat>)
      requires Valid()
      modifies this
      ensures r.None? <==> !HasRun(old(bins), OrderFor(count))
      ensures r.None? ==> bins == old(bins)
      ensures r.Some? ==> Aligned(r.value, OrderFor(count)) && AllFree(old(bins), r.value, OrderFor(count))
      ensures r.Some? ==> Taken(old(bins), bins, r.value, OrderFor(count))
      ensures r.Some? ==> SmallestFit(old(bins), OrderFor(count), r.value)
      ensures Valid()
    {
      r := AllocateBlock(OrderFor(count));
    }

    /** `free`: gives back a run of `count` frames, `count` a power of two, none of them free already. */
    method Free(base: nat, count: nat)
      requires Valid() && count == Pow2(OrderFor(count)) && OrderFor(count) <= MAX_ORDER
      requires Aligned(base, OrderFor(count)) && NoneFree(bins, base, OrderFor(count))
      modifies this
      ensures Freed(old(bins), bins, base, OrderFor(count))
      ensures Valid()
    {
      FreeBlock(base, OrderFor(count));
    }

    /** `allocate_block`: takes the lowest block of the smallest sufficient order, splitting on the way down. */
    method AllocateBlock(order: nat) returns (r: Option<nat>)
      requires Valid()
      modifies this
      ensures r.None? <==> !HasRun(old(bins), order)
      ensures r.None? ==> bins == old(bins)
      ensures r.Some? ==> Aligned(r.value, order) && AllFree(old(bins), r.value, order)
      ensures r.Some? ==> Taken(old(bins), bins, r.value, order)
      ensures r.Some? ==> SmallestFit(old(bins), order, r.value)
      ensures Valid()
      decreases MAX_ORDER + 1 - order
    {
      if order > MAX_ORDER {
        return None;
      }
      if bins[order] != {} {
        ghost var least := MinExists(bins[order]);
        var block :| block in bins[order] && forall x | x in bins[order] :: block <= x;
        BlockIsFree(bins, block, order);
        RemoveBlock(bins, block, order);
        bins := bins[order := bins[order] - {block}];
        return Some(block);
      }
      RunAbove(bins, order);
      r := AllocateBlock(order + 1);
      if r.Some? {
        ghost var between := bins;
        UpperHalf(r.value, order);
        FreeBlock(BuddyOf(r.value, order), order);
        SplitTakesLowerHalf(old(bins), between, bins, r.value, order);
      }
    }

    /** `free_block`: coalesces upwards until the buddy is not free. */
    method FreeBlock(start: nat, order: nat)
      requires Valid() && order <= MAX_ORDER && Aligned(start, order) && NoneFree(bins, start, order)
      modifies this
      ensures Freed(old(bins), bins, start, order)
      ensures Valid()
      decreases MAX_ORDER - order
    {
      if order == MAX_ORDER {
        InsertBlock(bins, start, order);
        assert start !in bins[order];
        bins := bins[order := bins[order] + {start}];
      } else {
        var buddy := BuddyOf(start, order);
        if buddy in bins[order] {
          RemoveBlock(bins, buddy, order);
          bins := bins[order := bins[order] - {buddy}];
          ghost var between := bins;
          BuddyHalves(start, order);
          FreeBlock(if start < buddy then start else buddy, order + 1);
          CoalesceFrees(old(bins), between, bins, start, order);
        } else {
          InsertBlock(bins, start, order);
          assert start !in bins[order];
          bins := bins[order := bins[order] + {start}];
        }
      }
    }

    /** Allocating and freeing what was allocated leaves the very same bins. */
    method AllocThenFree(count: nat) returns (r: Option<nat>)
      requires Valid()
      modifies this
      ensures bins == old(bins)
    {
      r := Alloc(count);
      if r.Some? {
        ghost var between := bins;
        OrderOfPow2(OrderFor(count));
        Free(r.value, Pow2(OrderFor(count)));
        TakeThenFreeRestores(old(bins), between, bins, r.value, OrderFor(count));
      }
    }
  }
}
