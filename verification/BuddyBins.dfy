/**
  The bins of the buddy allocator (kernel/src/pmm/buddy.rs): bin `k` holds the start addresses of the
  free blocks of order `k`. Everything here is about the bins as values; `BuddyAllocator` updates them
  in place.

  The central fact is that well-formed bins are a canonical form: they are determined by which
  addresses are free, and by nothing else.
*/
module BuddyBins {
  import opened Numbers
  import opened Blocks

  type Bins = seq<set<nat>>

  /** Address `a` lies in some free block. */
  ghost predicate IsFree(bins: Bins, a: nat) {
    exists k | 0 <= k < |bins| :: BlockOf(a, k) in bins[k]
  }

  ghost predicate AllFree(bins: Bins, start: nat, k: nat) {
    forall a | InBlock(a, start, k) :: IsFree(bins, a)
  }

  ghost predicate NoneFree(bins: Bins, start: nat, k: nat) {
    forall a | InBlock(a, start, k) :: !IsFree(bins, a)
  }

  ghost predicate AlignedBins(bins: Bins) {
    forall k, b | 0 <= k < |bins| && b in bins[k] :: Aligned(b, k)
  }

  /** No free block lies inside another one. */
  ghost predicate DisjointBins(bins: Bins) {
    forall j, k, c | 0 <= j < k < |bins| && c in bins[j] :: BlockOf(c, k) !in bins[k]
  }

  /** No two free buddies: below the top order they would have been merged. */
  ghost predicate CoalescedBins(bins: Bins) {
    forall k, b | 0 <= k < MAX_ORDER && k < |bins| && b in bins[k] :: BuddyOf(b, k) !in bins[k]
  }

  ghost predicate WellFormed(bins: Bins) {
    |bins| == MAX_ORDER + 1 && AlignedBins(bins) && DisjointBins(bins) && CoalescedBins(bins)
  }

  lemma BlockIsFree(bins: Bins, b: nat, k: nat)
    requires WellFormed(bins) && k <= MAX_ORDER && b in bins[k]
    ensures AllFree(bins, b, k)
  {
    forall a | InBlock(a, b, k)
      ensures IsFree(bins, a)
    {
      BlockOfUnique(a, b, k);
    }
  }

  /** An address lies in free blocks of one order only. */
  lemma OneOrder(bins: Bins, a: nat, j: nat, k: nat)
    requires WellFormed(bins) && j <= MAX_ORDER && k <= MAX_ORDER
    requires BlockOf(a, j) in bins[j] && BlockOf(a, k) in bins[k]
    ensures j == k
  {
    if j < k {
      Nested(a, j, k);
    } else if k < j {
      Nested(a, k, j);
    }
  }

  // ---------------------------------------------------------------------------------------------
  // Taking a block out and putting a block in
  // ---------------------------------------------------------------------------------------------

  /** `after` frees exactly the block of order `k` at `start` on top of what `before` has free. */
  ghost predicate Freed(before: Bins, after: Bins, start: nat, k: nat) {
    && WellFormed(after)
    && forall a: nat :: IsFree(after, a) <==> IsFree(before, a) || InBlock(a, start, k)
  }

  /** `after` has exactly the block of order `k` at `start` taken out of what `before` has free. */
  ghost predicate Taken(before: Bins, after: Bins, start: nat, k: nat) {
    && WellFormed(after)
    && forall a: nat :: IsFree(after, a) <==> IsFree(before, a) && !InBlock(a, start, k)
  }

  lemma InBlockIsBlockOf(a: nat, b: nat, k: nat)
    requires Aligned(b, k)
    ensures InBlock(a, b, k) <==> BlockOf(a, k) == b
  {
    BlockOfContains(a, k);
    if InBlock(a, b, k) {
      BlockOfUnique(a, b, k);
    }
  }

  lemma RemoveBlock(bins: Bins, b: nat, k: nat)
    requires WellFormed(bins) && k <= MAX_ORDER && b in bins[k]
    ensures Taken(bins, bins[k := bins[k] - {b}], b, k)
  {
    var after := bins[k := bins[k] - {b}];
    forall a: nat
      ensures IsFree(after, a) <==> IsFree(bins, a) && !InBlock(a, b, k)
    {
      InBlockIsBlockOf(a, b, k);
      if IsFree(after, a) {
        var j :| 0 <= j < |after| && BlockOf(a, j) in after[j];
        assert BlockOf(a, j) in bins[j];
        if InBlock(a, b, k) {
          OneOrder(bins, a, j, k);
        }
      }
      if IsFree(bins, a) && !InBlock(a, b, k) {
        var j :| 0 <= j < |bins| && BlockOf(a, j) in bins[j];
        assert BlockOf(a, j) in after[j];
      }
    }
  }

  lemma InsertKeepsDisjoint(bins: Bins, b: nat, k: nat)
    requires WellFormed(bins) && k <= MAX_ORDER && Aligned(b, k) && NoneFree(bins, b, k)
    ensures DisjointBins(bins[k := bins[k] + {b}])
  {
    var after := bins[k := bins[k] + {b}];
    forall i, j, c | 0 <= i < j < |after| && c in after[i]
      ensures BlockOf(c, j) !in after[j]
    {
      if i == k && c == b {
        assert InBlock(b, b, k);
        assert !IsFree(bins, b);
      } else {
        BlockOfAligned(c, i);
        assert IsFree(bins, c);
        if j == k && BlockOf(c, k) == b {
          BlockOfContains(c, k);
        }
      }
    }
  }

  lemma InsertBlock(bins: Bins, b: nat, k: nat)
    requires WellFormed(bins) && k <= MAX_ORDER && Aligned(b, k) && NoneFree(bins, b, k)
    requires k == MAX_ORDER || BuddyOf(b, k) !in bins[k]
    ensures b !in bins[k]
    ensures Freed(bins, bins[k := bins[k] + {b}], b, k)
  {
    var after := bins[k := bins[k] + {b}];
    assert b !in bins[k] by {
      assert InBlock(b, b, k);
      BlockOfAligned(b, k);
    }
    InsertKeepsDisjoint(bins, b, k);
    BuddyHalves(b, k);
    forall j, c | 0 <= j < MAX_ORDER && c in after[j]
      ensures BuddyOf(c, j) !in after[j]
    {
      BuddyHalves(c, j);
    }
    forall a: nat
      ensures IsFree(after, a) <==> IsFree(bins, a) || InBlock(a, b, k)
    {
      InBlockIsBlockOf(a, b, k);
      if IsFree(bins, a) {
        var j :| 0 <= j < |bins| && BlockOf(a, j) in bins[j];
        assert BlockOf(a, j) in after[j];
      }
      if InBlock(a, b, k) {
        assert BlockOf(a, k) in after[k];
      }
    }
  }

  // ---------------------------------------------------------------------------------------------
  // Canonical form
  // ---------------------------------------------------------------------------------------------

  /** A wholly free aligned run of order `k` lies inside one block of a bin, of order at least `k`. */
  lemma {:induction false} FreeRunIsInABin(bins: Bins, b: nat, k: nat) returns (j: nat)
    requires WellFormed(bins) && k <= MAX_ORDER && Aligned(b, k) && AllFree(bins, b, k)
    ensures k <= j <= MAX_ORDER && BlockOf(b, j) in bins[j]
    decreases k
  {
    if k == 0 {
      assert InBlock(b, b, 0);
      j :| 0 <= j < |bins| && BlockOf(b, j) in bins[j];
    } else {
      AlignedBelow(b, k - 1, k);
      BlockOfAligned(b, k);
      BuddyHalves(b, k - 1);
      var c := BuddyOf(b, k - 1);
      assert c == b + Size(k - 1);
      j := FreeRunIsInABin(bins, b, k - 1);
      var i := FreeRunIsInABin(bins, c, k - 1);
      if j < k {
        if i < k {
          BlockOfAligned(b, k - 1);
          BlockOfAligned(c, k - 1);
          assert false;
        }
        j := i;
        InBlockIsBlockOf(c, b, k);
        Nested(c, k, j);
      }
    }
  }

  /** `b` starts a free run of order `k` that is part of no larger one (up to the top order). */
  ghost predicate MaximalRun(bins: Bins, b: nat, k: nat) {
    && Aligned(b, k) && AllFree(bins, b, k)
    && (k == MAX_ORDER || !AllFree(bins, BlockOf(b, k + 1), k + 1))
  }

  /** The bins hold exactly the maximal naturally aligned free runs of order at most 12. */
  lemma BinsAreTheMaximalRuns(bins: Bins, b: nat, k: nat)
    requires WellFormed(bins) && k <= MAX_ORDER
    ensures b in bins[k] <==> MaximalRun(bins, b, k)
  {
    if b in bins[k] {
      BlockIsFree(bins, b, k);
      BlockOfAligned(b, k);
      if k < MAX_ORDER && AllFree(bins, BlockOf(b, k + 1), k + 1) {
        BlockOfContains(b, k + 1);
        var j := FreeRunIsInABin(bins, BlockOf(b, k + 1), k + 1);
        Nested(b, k + 1, j);
        OneOrder(bins, b, k, j);
      }
    }
    if MaximalRun(bins, b, k) {
      var j := FreeRunIsInABin(bins, b, k);
      BlockOfAligned(b, k);
      if k < j {
        BlockIsFree(bins, BlockOf(b, j), j);
        Nested(b, k + 1, j);
        Inside(b, k + 1, j);
      }
    }
  }

  ghost predicate SameFree(x: Bins, y: Bins) {
    forall a: nat :: IsFree(x, a) <==> IsFree(y, a)
  }

  lemma MaximalRunsAgree(x: Bins, y: Bins, b: nat, k: nat)
    requires SameFree(x, y)
    ensures MaximalRun(x, b, k) <==> MaximalRun(y, b, k)
  {
  }

  /** Bins are a function of the set of free addresses. */
  lemma BinsAreCanonical(x: Bins, y: Bins)
    requires WellFormed(x) && WellFormed(y) && SameFree(x, y)
    ensures x == y
  {
    forall k | 0 <= k <= MAX_ORDER
      ensures x[k] == y[k]
    {
      forall b: nat
        ensures b in x[k] <==> b in y[k]
      {
        BinsAreTheMaximalRuns(x, b, k);
        BinsAreTheMaximalRuns(y, b, k);
        MaximalRunsAgree(x, y, b, k);
      }
    }
  }

  /** Taking a free block out and freeing it again restores the very same bins. */
  lemma TakeThenFreeRestores(x: Bins, y: Bins, z: Bins, b: nat, k: nat)
    requires WellFormed(x) && AllFree(x, b, k)
    requires Taken(x, y, b, k) && Freed(y, z, b, k)
    ensures z == x
  {
    BinsAreCanonical(x, z);
  }

  datatype Block = Block(start: nat, order: nat)

  /** Freeing `blocks` one after the other leads from `x` to `y`. */
  ghost predicate FreedInTurn(x: Bins, blocks: seq<Block>, y: Bins)
    decreases |blocks|
  {
    if blocks == [] then y == x
    else exists m :: Freed(x, m, blocks[0].start, blocks[0].order) && FreedInTurn(m, blocks[1..], y)
  }

  ghost predicate InSome(a: nat, blocks: seq<Block>) {
    exists b | b in blocks :: InBlock(a, b.start, b.order)
  }

  lemma {:induction false} FreedInTurnFrees(x: Bins, blocks: seq<Block>, y: Bins)
    requires WellFormed(x) && FreedInTurn(x, blocks, y)
    ensures WellFormed(y)
    ensures forall a: nat :: IsFree(y, a) <==> IsFree(x, a) || InSome(a, blocks)
    decreases |blocks|
  {
    if blocks != [] {
      var m :| Freed(x, m, blocks[0].start, blocks[0].order) && FreedInTurn(m, blocks[1..], y);
      FreedInTurnFrees(m, blocks[1..], y);
      forall a: nat
        ensures InSome(a, blocks) <==> InBlock(a, blocks[0].start, blocks[0].order) || InSome(a, blocks[1..])
      {
        assert blocks == [blocks[0]] + blocks[1..];
      }
    }
  }

  /** Freeing the same blocks in any order ends in the same bins. */
  lemma FreeOrderIsIrrelevant(x: Bins, blocks: seq<Block>, y: Bins, shuffled: seq<Block>, z: Bins)
    requires WellFormed(x) && multiset(blocks) == multiset(shuffled)
    requires FreedInTurn(x, blocks, y) && FreedInTurn(x, shuffled, z)
    ensures y == z
  {
    FreedInTurnFrees(x, blocks, y);
    FreedInTurnFrees(x, shuffled, z);
    assert forall b :: b in blocks <==> b in multiset(blocks);
    assert forall b :: b in shuffled <==> b in multiset(shuffled);
    BinsAreCanonical(y, z);
  }

  // ---------------------------------------------------------------------------------------------
  // Counting frames
  // ---------------------------------------------------------------------------------------------

  /** The frames of a block, by start address. */
  ghost function BlockFrames(b: nat, k: nat): set<nat> {
    set f: nat | b <= f < b + Size(k) && f % FRAME == 0
  }

  /** The frames of the blocks of order `k` in `starts`. */
  ghost function BinFrames(starts: set<nat>, k: nat): set<nat> {
    set b, f | b in starts && f in BlockFrames(b, k) :: f
  }

  /** The frames in the first `n` bins. */
  ghost function FramesBelow(bins: Bins, n: nat): set<nat>
    requires n <= |bins|
  {
    if n == 0 then {} else FramesBelow(bins, n - 1) + BinFrames(bins[n - 1], n - 1)
  }

  ghost function FreeFrames(bins: Bins): set<nat> {
    FramesBelow(bins, |bins|)
  }

  lemma {:induction false} FramesBelowMember(bins: Bins, n: nat, f: nat)
    requires n <= |bins|
    ensures f in FramesBelow(bins, n) <==> exists k | 0 <= k < n :: f in BinFrames(bins[k], k)
  {
    if n > 0 {
      FramesBelowMember(bins, n - 1, f);
    }
  }

  lemma BinFramesMember(starts: set<nat>, k: nat, f: nat)
    requires forall b | b in starts :: Aligned(b, k)
    ensures f in BinFrames(starts, k) <==> f % FRAME == 0 && BlockOf(f, k) in starts
  {
    BlockOfContains(f, k);
    if f in BinFrames(starts, k) {
      var b :| b in starts && f in BlockFrames(b, k);
      BlockOfUnique(f, b, k);
    }
    if f % FRAME == 0 && BlockOf(f, k) in starts {
      assert f in BlockFrames(BlockOf(f, k), k);
    }
  }

  /** The frames counted are exactly the free frames. */
  lemma FreeFramesAreFree(bins: Bins, f: nat)
    requires WellFormed(bins)
    ensures f in FreeFrames(bins) <==> f % FRAME == 0 && IsFree(bins, f)
  {
    FramesBelowMember(bins, |bins|, f);
    forall k | 0 <= k < |bins|
      ensures f in BinFrames(bins[k], k) <==> f % FRAME == 0 && BlockOf(f, k) in bins[k]
    {
      BinFramesMember(bins[k], k, f);
    }
  }

  lemma {:induction false} CountBlock(b: nat, k: nat)
    requires b % FRAME == 0
    ensures |BlockFrames(b, k)| == Pow2(k)
    decreases k
  {
    if k == 0 {
      assert BlockFrames(b, 0) == {b};
    } else {
      var c := b + Size(k - 1);
      assert c % FRAME == 0 by {
        assert c == b + FRAME * Pow2(k - 1);
      }
      CountBlock(b, k - 1);
      CountBlock(c, k - 1);
      assert Size(k) == 2 * Size(k - 1);
      assert BlockFrames(b, k) == BlockFrames(b, k - 1) + BlockFrames(c, k - 1);
      assert BlockFrames(b, k - 1) !! BlockFrames(c, k - 1);
    }
  }

  lemma {:induction false} CountBin(starts: set<nat>, k: nat)
    requires forall b | b in starts :: Aligned(b, k)
    ensures |BinFrames(starts, k)| == |starts| * Pow2(k)
  {
    if starts == {} {
      assert BinFrames(starts, k) == {};
    } else {
      var b :| b in starts;
      var rest := starts - {b};
      CountBin(rest, k);
      AlignedBelow(b, 0, k);
      CountBlock(b, k);
      BinFramesSplit(starts, b, k);
      Distribute(|rest|, Pow2(k));
    }
  }

  lemma Distribute(n: nat, m: nat)
    ensures (n + 1) * m == n * m + m
  {
  }

  lemma BinFramesSplit(starts: set<nat>, b: nat, k: nat)
    requires b in starts && forall c | c in starts :: Aligned(c, k)
    ensures |BinFrames(starts, k)| == |BinFrames(starts - {b}, k)| + |BlockFrames(b, k)|
  {
    var rest := starts - {b};
    assert BinFrames(starts, k) == BinFrames(rest, k) + BlockFrames(b, k);
    forall f | f in BlockFrames(b, k)
      ensures f !in BinFrames(rest, k)
    {
      BlockOfUnique(f, b, k);
      BinFramesMember(rest, k, f);
    }
  }

  /** The number of bytes in the first `n` bins, as `available_bytes` adds them up. */
  function BytesBelow(bins: Bins, n: nat): nat
    requires n <= |bins|
  {
    if n == 0 then 0 else BytesBelow(bins, n - 1) + |bins[n - 1]| * Size(n - 1)
  }

  lemma {:induction false} CountBelow(bins: Bins, n: nat)
    requires WellFormed(bins) && n <= |bins|
    ensures BytesBelow(bins, n) == FRAME * |FramesBelow(bins, n)|
  {
    if n > 0 {
      var k := n - 1;
      CountBelow(bins, k);
      CountBin(bins[k], k);
      forall f | f in FramesBelow(bins, k)
        ensures f !in BinFrames(bins[k], k)
      {
        FramesBelowMember(bins, k, f);
        var j :| 0 <= j < k && f in BinFrames(bins[j], j);
        BinFramesMember(bins[j], j, f);
        BinFramesMember(bins[k], k, f);
        if f in BinFrames(bins[k], k) {
          OneOrder(bins, f, j, k);
        }
      }
      assert |FramesBelow(bins, n)| == |FramesBelow(bins, k)| + |bins[k]| * Pow2(k);
      BytesOfBin(|bins[k]|, k);
    }
  }

  lemma BytesOfBin(n: nat, k: nat)
    ensures n * Size(k) == FRAME * (n * Pow2(k))
  {
  }
}
