/**
  How `map_area` (lib/hal_x86_64/src/paging.rs, lib/hal_riscv/src/paging.rs) cuts an area into runs of
  equally sized pages. `align_down` and `align_up` are those of lib/mulch/src/math.rs.
*/
module MapPlan {
  import opened Numbers
  import opened Blocks
  import opened PageEntries

  const MIB2: nat := 0x20_0000
  const GIB1: nat := 0x4000_0000

  /**
    `align_down`, as rounding down to a multiple; `AlignDownIsMask` proves it equal to the source's masking.
    Alignment 0 asks for nothing.
  */
  function AlignDown(value: nat, align: nat): nat {
    if align == 0 then value else FloorTo(value, align)
  }

  lemma AlignDownIsMask(value: nat, k: nat)
    requires value < Pow2(64) && k <= 64
    ensures Pow2(k) <= Pow2(64) && AlignDown(value, Pow2(k)) == And(value, Not(Pow2(k) - 1, 64))
  {
    MaskRoundsDown(value, k, 64);
  }

  function AlignUp(value: nat, align: nat): (r: nat)
    ensures if align == 0 then r == value else value <= r < value + align && r % align == 0
  {
    if align == 0 then value
    else
      DivUnique(FloorTo(value + align - 1, align), align, (value + align - 1) / align);
      AlignDown(value + align - 1, align)
  }

  function AbsDifference(a: nat, b: nat): nat {
    if a > b then a - b else b - a
  }

  /** A run of pages of one level: `bytes` from virtual address `start` on. */
  datatype Run = Run(level: nat, start: nat, bytes: nat)

  /** One turn of the loop: what to map at the cursor, with `left` bytes to go. */
  function NextRun(cursor: nat, physical: nat, left: nat): Run {
    if cursor % GIB1 == 0 && physical % GIB1 == 0 && left >= GIB1 then
      Run(3, cursor, AlignDown(left, GIB1))
    else if cursor % MIB2 == 0 && physical % MIB2 == 0 && left >= MIB2 then
      Run(2, cursor, AlignDown(left, MIB2))
    else
      Run(1, cursor, Min(AlignUp(cursor + 1, MIB2) - cursor, left))
  }

  lemma FloorIsMultiple(a: nat, m: nat)
    requires 0 < m
    ensures FloorTo(a, m) % m == 0
    ensures m <= a ==> m <= FloorTo(a, m)
  {
    DivUnique(FloorTo(a, m), m, a / m);
    if m <= a {
      if a / m < 1 {
        ProductGap(a / m, 1, m);
      }
      assert 1 * m <= a / m * m;
    }
  }

  ghost predicate PageAligned(cursor: nat, physical: nat, left: nat) {
    cursor % FRAME == 0 && physical % FRAME == 0 && left % FRAME == 0
  }

  lemma LargeMultiples(a: nat)
    ensures a % GIB1 == 0 ==> a % FRAME == 0
    ensures a % GIB1 == 0 ==> a % MIB2 == 0
    ensures a % MIB2 == 0 ==> a % FRAME == 0
  {
    if a % GIB1 == 0 {
      CoarserMultiple(a, FRAME, 0x4_0000);
      CoarserMultiple(a, MIB2, 0x200);
    }
    if a % MIB2 == 0 {
      CoarserMultiple(a, FRAME, 0x200);
    }
  }

  /** Every run makes progress, stays inside the area and is aligned for its page size on both sides. */
  lemma NextRunFits(cursor: nat, physical: nat, left: nat)
    requires PageAligned(cursor, physical, left) && 0 < left
    ensures var r := NextRun(cursor, physical, left);
            && 1 <= r.level <= 3 && r.start == cursor && 0 < r.bytes <= left
            && r.bytes % PageSize(r.level) == 0
            && cursor % PageSize(r.level) == 0 && physical % PageSize(r.level) == 0
            && PageAligned(cursor + r.bytes, physical + r.bytes, left - r.bytes)
  {
    var r := NextRun(cursor, physical, left);
    if r.level == 3 {
      FloorIsMultiple(left, GIB1);
    } else if r.level == 2 {
      FloorIsMultiple(left, MIB2);
    } else {
      LargeMultiples(AlignUp(cursor + 1, MIB2));
      SumOfMultiples(AlignUp(cursor + 1, MIB2), cursor, FRAME);
    }
    LargeMultiples(r.bytes);
    SumOfMultiples(cursor, r.bytes, FRAME);
    SumOfMultiples(physical, r.bytes, FRAME);
    SumOfMultiples(left, r.bytes, FRAME);
  }

  /** The runs of the whole loop. */
  function Loop(cursor: nat, physical: nat, left: nat): seq<Run>
    requires PageAligned(cursor, physical, left)
    decreases left
  {
    if left == 0 then [] else
    var r := NextRun(cursor, physical, left);
    NextRunFits(cursor, physical, left);
    [r] + Loop(cursor + r.bytes, physical + r.bytes, left - r.bytes)
  }

  /** One turn of the loop moves the next run from what is to come to what has been mapped. */
  lemma PlanAdvances(runs: seq<Run>, cursor: nat, physical: nat, left: nat)
    requires PageAligned(cursor, physical, left) && 0 < left
    ensures var r := NextRun(cursor, physical, left);
            && r.bytes <= left && PageAligned(cursor + r.bytes, physical + r.bytes, left - r.bytes)
            && (runs + [r]) + Loop(cursor + r.bytes, physical + r.bytes, left - r.bytes)
               == runs + Loop(cursor, physical, left)
  {
    NextRunFits(cursor, physical, left);
  }

  /** The area is too small, or virtual and physical start too far out of step, for large pages. */
  predicate SmallPagesOnly(start: nat, physical: nat, size: nat) {
    size < MIB2 || AbsDifference(physical, start) % MIB2 != 0
  }

  /** All the runs `map_area` maps, in order. */
  function Plan(start: nat, physical: nat, size: nat): seq<Run>
    requires PageAligned(start, physical, size)
  {
    if SmallPagesOnly(start, physical, size) then [Run(1, start, size)] else Loop(start, physical, size)
  }

  // ---------------------------------------------------------------------------------------------
  // The plan is a partition
  // ---------------------------------------------------------------------------------------------

  /** The runs follow each other without gap from `start` for `size` bytes, each aligned on both sides. */
  ghost predicate Tiles(runs: seq<Run>, start: nat, physical: nat, size: nat)
    decreases |runs|
  {
    if runs == [] then size == 0
    else
      var r := runs[0];
      && r.start == start && r.bytes <= size && 1 <= r.level <= 3
      && start % PageSize(r.level) == 0 && physical % PageSize(r.level) == 0 && r.bytes % PageSize(r.level) == 0
      && Tiles(runs[1..], start + r.bytes, physical + r.bytes, size - r.bytes)
  }

  lemma {:induction false} LoopTiles(cursor: nat, physical: nat, left: nat)
    requires PageAligned(cursor, physical, left)
    ensures Tiles(Loop(cursor, physical, left), cursor, physical, left)
    decreases left
  {
    if left > 0 {
      var r := NextRun(cursor, physical, left);
      NextRunFits(cursor, physical, left);
      LoopTiles(cursor + r.bytes, physical + r.bytes, left - r.bytes);
    }
  }

  lemma PlanTiles(start: nat, physical: nat, size: nat)
    requires PageAligned(start, physical, size)
    ensures Tiles(Plan(start, physical, size), start, physical, size)
  {
    if SmallPagesOnly(start, physical, size) {
      assert [Run(1, start, size)][1..] == [];
    } else {
      LoopTiles(start, physical, size);
    }
  }

  // ---------------------------------------------------------------------------------------------
  // The plan uses the largest pages
  // ---------------------------------------------------------------------------------------------

  /** A page of that level at `x` would be aligned on both sides and inside the area. */
  predicate PageFits(level: nat, x: nat, start: nat, physical: nat, size: nat)
    requires 1 <= level <= 3 && start <= x
  {
    && x % PageSize(level) == 0 && (physical + (x - start)) % PageSize(level) == 0
    && x + PageSize(level) <= start + size
  }

  /**
    Where the run holds 4KiB pages no larger page fits; where it starts with 2MiB pages no 1GiB page fits;
    and it leaves no room for another page of its size.
  */
  ghost predicate UsesLargest(r: Run, start: nat, physical: nat, size: nat)
    requires 1 <= r.level <= 3 && start <= r.start
  {
    && (r.level == 1 ==> forall x | r.start <= x < r.start + r.bytes ::
         !PageFits(2, x, start, physical, size) && !PageFits(3, x, start, physical, size))
    && (r.level == 2 ==> !PageFits(3, r.start, start, physical, size))
    && (r.level > 1 ==> start + size < r.start + r.bytes + PageSize(r.level))
  }

  lemma LargerNeedsSmaller(x: nat, start: nat, physical: nat, size: nat)
    requires start <= x
    ensures PageFits(3, x, start, physical, size) ==> PageFits(2, x, start, physical, size)
  {
    LargeMultiples(x);
    LargeMultiples(physical + (x - start));
  }

  /** Two multiples of 2MiB less than 2MiB apart are the same. */
  lemma OneBoundary(a: nat, b: nat)
    ensures a % MIB2 == 0 && b % MIB2 == 0 && a <= b < a + MIB2 ==> a == b
  {
    if a % MIB2 == 0 && b % MIB2 == 0 && a <= b < a + MIB2 {
      SumOfMultiples(b, a, MIB2);
      DivUnique(b - a, MIB2, 0);
    }
  }

  /** Between an address and the next 2MiB boundary there is no other. */
  lemma NoBoundaryBetween(cursor: nat, x: nat)
    requires cursor < x < AlignUp(cursor + 1, MIB2)
    ensures x % MIB2 != 0
  {
    OneBoundary(x, AlignUp(cursor + 1, MIB2));
  }

  lemma SmallRunIsNeeded(cursor: nat, physical: nat, left: nat, x: nat)
    requires PageAligned(cursor, physical, left) && 0 < left && NextRun(cursor, physical, left).level == 1
    requires cursor <= x < cursor + NextRun(cursor, physical, left).bytes
    ensures !PageFits(2, x, cursor, physical, left)
  {
    if cursor < x {
      NoBoundaryBetween(cursor, x);
    }
  }

  lemma FirstRunIsLargest(cursor: nat, physical: nat, left: nat)
    requires PageAligned(cursor, physical, left) && 0 < left
    ensures var r := NextRun(cursor, physical, left);
            1 <= r.level <= 3 && r.start == cursor && UsesLargest(r, cursor, physical, left)
  {
    var r := NextRun(cursor, physical, left);
    NextRunFits(cursor, physical, left);
    if r.level == 1 {
      forall x | cursor <= x < cursor + r.bytes
        ensures !PageFits(2, x, cursor, physical, left) && !PageFits(3, x, cursor, physical, left)
      {
        SmallRunIsNeeded(cursor, physical, left, x);
        LargerNeedsSmaller(x, cursor, physical, left);
      }
    }
  }

  lemma LargestFromHere(r: Run, start: nat, physical: nat, size: nat, bytes: nat)
    requires 1 <= r.level <= 3 && bytes <= size && start + bytes <= r.start
    requires UsesLargest(r, start + bytes, physical + bytes, size - bytes)
    ensures UsesLargest(r, start, physical, size)
  {
    forall x, level | r.start <= x && 2 <= level <= 3
      ensures PageFits(level, x, start, physical, size) ==
              PageFits(level, x, start + bytes, physical + bytes, size - bytes)
    {
      assert physical + bytes + (x - (start + bytes)) == physical + (x - start);
    }
  }

  lemma {:induction false} LoopUsesLargest(cursor: nat, physical: nat, left: nat, i: nat)
    requires PageAligned(cursor, physical, left) && i < |Loop(cursor, physical, left)|
    ensures var r := Loop(cursor, physical, left)[i];
            1 <= r.level <= 3 && cursor <= r.start && UsesLargest(r, cursor, physical, left)
    decreases left
  {
    var first := NextRun(cursor, physical, left);
    NextRunFits(cursor, physical, left);
    if i == 0 {
      FirstRunIsLargest(cursor, physical, left);
    } else {
      LoopUsesLargest(cursor + first.bytes, physical + first.bytes, left - first.bytes, i - 1);
      LargestFromHere(Loop(cursor, physical, left)[i], cursor, physical, left, first.bytes);
    }
  }

  /** An area cut into small pages only has no place for a large one. */
  lemma NoLargePageFits(start: nat, physical: nat, size: nat, x: nat)
    requires start <= x
    ensures SmallPagesOnly(start, physical, size) ==> !PageFits(2, x, start, physical, size)
  {
    if PageFits(2, x, start, physical, size) {
      if physical > start {
        SumOfMultiples(physical + (x - start), x, MIB2);
      } else {
        SumOfMultiples(x, physical + (x - start), MIB2);
      }
    }
  }

  /** Every run of the plan uses the largest pages it can. */
  lemma PlanUsesLargest(start: nat, physical: nat, size: nat, i: nat)
    requires PageAligned(start, physical, size) && i < |Plan(start, physical, size)|
    ensures var r := Plan(start, physical, size)[i];
            1 <= r.level <= 3 && start <= r.start && UsesLargest(r, start, physical, size)
  {
    if SmallPagesOnly(start, physical, size) {
      forall x | start <= x < start + size
        ensures !PageFits(2, x, start, physical, size) && !PageFits(3, x, start, physical, size)
      {
        NoLargePageFits(start, physical, size, x);
        LargerNeedsSmaller(x, start, physical, size);
      }
    } else {
      LoopUsesLargest(start, physical, size, i);
    }
  }

  /** The 4KiB pages in a sequence of runs. */
  function SmallPages(runs: seq<Run>): nat {
    if runs == [] then 0
    else (if runs[0].level <= 1 then runs[0].bytes / FRAME else 0) + SmallPages(runs[1..])
  }

  /** The last stretch: less than 2MiB left, from a 2MiB boundary. */
  lemma TailRun(cursor: nat, physical: nat, left: nat)
    requires PageAligned(cursor, physical, left) && cursor % MIB2 == 0 && left < MIB2
    ensures |Loop(cursor, physical, left)| <= 1 && SmallPages(Loop(cursor, physical, left)) <= 511
  {
    if left > 0 {
      var r := NextRun(cursor, physical, left);
      NextRunFits(cursor, physical, left);
      assert r == Run(1, cursor, left);
      assert Loop(cursor + left, physical + left, 0) == [];
      assert Loop(cursor, physical, left) == [r];
      assert [r][1..] == [];
    }
  }

  lemma Boundaries(a: nat, b: nat)
    requires a % MIB2 == 0 && (b % MIB2 == 0 || b % GIB1 == 0)
    ensures (a + b) % MIB2 == 0
  {
    LargeMultiples(b);
    SumOfMultiples(a, b, MIB2);
  }

  /** From a 2MiB boundary with less than 1GiB left, or with no common 1GiB alignment: 2MiB pages, then the tail. */
  lemma MiddleRuns(cursor: nat, physical: nat, left: nat)
    requires PageAligned(cursor, physical, left) && cursor % MIB2 == 0 && physical % MIB2 == 0
    requires left < GIB1 || cursor % GIB1 != 0 || physical % GIB1 != 0
    ensures |Loop(cursor, physical, left)| <= 2 && SmallPages(Loop(cursor, physical, left)) <= 511
  {
    if left < MIB2 {
      TailRun(cursor, physical, left);
    } else {
      var r := NextRun(cursor, physical, left);
      NextRunFits(cursor, physical, left);
      assert r == Run(2, cursor, AlignDown(left, MIB2));
      Boundaries(cursor, r.bytes);
      var rest := Loop(cursor + r.bytes, physical + r.bytes, left - r.bytes);
      TailRun(cursor + r.bytes, physical + r.bytes, left - r.bytes);
      assert Loop(cursor, physical, left) == [r] + rest;
      assert ([r] + rest)[1..] == rest;
    }
  }

  /** From a 2MiB boundary: at most one run of each size, the small pages last. */
  lemma AlignedRuns(cursor: nat, physical: nat, left: nat)
    requires PageAligned(cursor, physical, left) && cursor % MIB2 == 0 && physical % MIB2 == 0
    ensures |Loop(cursor, physical, left)| <= 3 && SmallPages(Loop(cursor, physical, left)) <= 511
  {
    if left >= GIB1 && cursor % GIB1 == 0 && physical % GIB1 == 0 {
      var r := NextRun(cursor, physical, left);
      NextRunFits(cursor, physical, left);
      assert r == Run(3, cursor, AlignDown(left, GIB1));
      Boundaries(cursor, r.bytes);
      Boundaries(physical, r.bytes);
      var rest := Loop(cursor + r.bytes, physical + r.bytes, left - r.bytes);
      MiddleRuns(cursor + r.bytes, physical + r.bytes, left - r.bytes);
      assert Loop(cursor, physical, left) == [r] + rest;
      assert ([r] + rest)[1..] == rest;
    } else {
      MiddleRuns(cursor, physical, left);
    }
  }

  /**
    When virtual and physical start agree modulo 2MiB and the area is at least 2MiB long, the loop
    takes at most four turns and installs at most 1022 small pages.
  */
  lemma FewRuns(start: nat, physical: nat, size: nat)
    requires PageAligned(start, physical, size) && !SmallPagesOnly(start, physical, size)
    ensures |Plan(start, physical, size)| <= 4
    ensures SmallPages(Plan(start, physical, size)) <= 1022
  {
    InPhase(start, physical);
    if start % MIB2 == 0 {
      AlignedRuns(start, physical, size);
    } else {
      HeadRuns(start, physical, size);
    }
  }

  /** Not at a 2MiB boundary: small pages up to the next one, and what follows from there. */
  lemma HeadRuns(start: nat, physical: nat, size: nat)
    requires PageAligned(start, physical, size) && MIB2 <= size
    requires physical % MIB2 == start % MIB2 && start % MIB2 != 0
    ensures |Loop(start, physical, size)| <= 4
    ensures SmallPages(Loop(start, physical, size)) <= 1022
  {
    var r := NextRun(start, physical, size);
    NextRunFits(start, physical, size);
    NotAligned(start);
    var bytes := AlignUp(start + 1, MIB2) - start;
    assert r == Run(1, start, bytes);
    HeadRun(start, physical, bytes);
    var rest := Loop(start + bytes, physical + bytes, size - bytes);
    AlignedRuns(start + bytes, physical + bytes, size - bytes);
    assert Loop(start, physical, size) == [r] + rest;
    assert ([r] + rest)[1..] == rest;
  }

  lemma NotAligned(start: nat)
    requires start % MIB2 != 0
    ensures start % GIB1 != 0
  {
    LargeMultiples(start);
  }

  lemma InPhase(start: nat, physical: nat)
    requires AbsDifference(physical, start) % MIB2 == 0
    ensures physical % MIB2 == start % MIB2
  {
    var lesser := Min(start, physical);
    var d := AbsDifference(physical, start);
    assert lesser + d == lesser / MIB2 * MIB2 + d / MIB2 * MIB2 + lesser % MIB2;
    DivUnique(lesser + d, MIB2, lesser / MIB2 + d / MIB2);
  }

  /** The first run ends at the next 2MiB boundary on both sides. */
  lemma HeadRun(start: nat, physical: nat, bytes: nat)
    requires physical % MIB2 == start % MIB2 && start % MIB2 != 0 && start % FRAME == 0
    requires bytes == AlignUp(start + 1, MIB2) - start
    ensures (start + bytes) % MIB2 == 0 && (physical + bytes) % MIB2 == 0
    ensures bytes / FRAME <= 511
  {
    var offset := start % MIB2;
    DivUnique(start + bytes, MIB2, start / MIB2 + 1);
    assert bytes == MIB2 - offset;
    DivUnique(physical + bytes, MIB2, physical / MIB2 + 1);
    LargeMultiples(start + bytes);
    SumOfMultiples(start + bytes, start, FRAME);
  }

  // ---------------------------------------------------------------------------------------------
  // When 1GiB pages are used
  // ---------------------------------------------------------------------------------------------

  ghost predicate HasGiB(runs: seq<Run>) {
    exists i | 0 <= i < |runs| :: runs[i].level == 3
  }

  lemma HasGiBIn(r: Run, rest: seq<Run>)
    ensures HasGiB([r] + rest) <==> r.level == 3 || HasGiB(rest)
  {
    var runs := [r] + rest;
    assert runs[0] == r;
    if HasGiB(rest) {
      var i :| 0 <= i < |rest| && rest[i].level == 3;
      assert runs[i + 1].level == 3;
    }
    if HasGiB(runs) && r.level != 3 {
      var i :| 0 <= i < |runs| && runs[i].level == 3;
      assert rest[i - 1].level == 3;
    }
  }

  /** The loop's runs as the next one and the rest. */
  lemma LoopIs(cursor: nat, physical: nat, left: nat)
    requires PageAligned(cursor, physical, left) && 0 < left
    ensures var r := NextRun(cursor, physical, left);
            && r.bytes <= left && PageAligned(cursor + r.bytes, physical + r.bytes, left - r.bytes)
            && (HasGiB(Loop(cursor, physical, left)) <==>
                r.level == 3 || HasGiB(Loop(cursor + r.bytes, physical + r.bytes, left - r.bytes)))
  {
    var r := NextRun(cursor, physical, left);
    NextRunFits(cursor, physical, left);
    HasGiBIn(r, Loop(cursor + r.bytes, physical + r.bytes, left - r.bytes));
  }

  /** With less than 1GiB left there are none. */
  lemma {:induction false} NoGiBLeft(cursor: nat, physical: nat, left: nat)
    requires PageAligned(cursor, physical, left) && left < GIB1
    ensures !HasGiB(Loop(cursor, physical, left))
    decreases left
  {
    if left > 0 {
      var r := NextRun(cursor, physical, left);
      NextRunFits(cursor, physical, left);
      LoopIs(cursor, physical, left);
      NoGiBLeft(cursor + r.bytes, physical + r.bytes, left - r.bytes);
    }
  }

  /** From a 2MiB boundary the first turn decides. */
  lemma BoundaryDecides(cursor: nat, physical: nat, left: nat)
    requires PageAligned(cursor, physical, left) && cursor % MIB2 == 0 && physical % MIB2 == 0 && GIB1 <= left
    ensures HasGiB(Loop(cursor, physical, left)) <==> cursor % GIB1 == 0 && physical % GIB1 == 0
  {
    LoopIs(cursor, physical, left);
    var r := NextRun(cursor, physical, left);
    if r.level == 2 {
      NoGiBLeft(cursor + r.bytes, physical + r.bytes, left - r.bytes);
    }
  }

  /** Small pages lead to the first boundary. */
  lemma ToFirstBoundary(start: nat, physical: nat, size: nat, b: nat)
    requires PageAligned(start, physical, size) && start % MIB2 != 0 && b == AlignUp(start, MIB2) && b < start + size
    ensures PageAligned(b, physical + (b - start), size - (b - start))
    ensures HasGiB(Loop(start, physical, size)) <==> HasGiB(Loop(b, physical + (b - start), size - (b - start)))
  {
    var next := AlignUp(start + 1, MIB2);
    OneBoundary(b, next);
    OneBoundary(next, b);
    NotAligned(start);
    LoopIs(start, physical, size);
  }

  lemma BoundaryBefore(start: nat, x: nat)
    requires start <= x && x % MIB2 == 0
    ensures AlignUp(start, MIB2) <= x
  {
    OneBoundary(x, AlignUp(start, MIB2));
  }

  /** The address at which the plan first tries large pages, and the physical address that goes with it. */
  lemma FirstBoundary(start: nat, physical: nat, size: nat, x: nat)
    requires start <= x && PageFits(3, x, start, physical, size)
    ensures var b := AlignUp(start, MIB2);
            && b <= x && (physical + (b - start)) % MIB2 == 0
            && (b % GIB1 == 0 ==> (physical + (b - start)) % GIB1 == 0)
  {
    var b := AlignUp(start, MIB2);
    LargeMultiples(x);
    LargeMultiples(physical + (x - start));
    BoundaryBefore(start, x);
    SumOfMultiples(x, b, MIB2);
    SumOfMultiples(physical + (x - start), x - b, MIB2);
    if b % GIB1 == 0 {
      SumOfMultiples(x, b, GIB1);
      SumOfMultiples(physical + (x - start), x - b, GIB1);
    }
  }

  /**
    Where a 1GiB page fits somewhere, the plan holds 1GiB pages exactly if the first 2MiB boundary is a 1GiB
    boundary: once it has begun with 2MiB pages it does not go over to larger ones.
  */
  lemma GiBPagesUsed(start: nat, physical: nat, size: nat, x: nat)
    requires PageAligned(start, physical, size) && start <= x && PageFits(3, x, start, physical, size)
    ensures HasGiB(Plan(start, physical, size)) <==> AlignUp(start, MIB2) % GIB1 == 0
  {
    var b := AlignUp(start, MIB2);
    LargerNeedsSmaller(x, start, physical, size);
    FirstBoundary(start, physical, size, x);
    NoLargePageFits(start, physical, size, x);
    if start % MIB2 == 0 {
      OneBoundary(start, b);
      BoundaryDecides(start, physical, size);
    } else {
      ToFirstBoundary(start, physical, size, b);
      BoundaryDecides(b, physical + (b - start), size - (b - start));
    }
  }
}
