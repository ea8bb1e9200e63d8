/**
  The bootloader's map of physical memory (seed/seed_riscv/src/memory.rs) on half-open ranges
  (lib/mulch/src/ranges.rs). Whatever was added in whatever order, an address has the type of the last
  region added that covers it.
*/
module MemoryMap {
  import opened Numbers
  import opened Options

  // ---------------------------------------------------------------------------------------------
  // Ranges
  // ---------------------------------------------------------------------------------------------

  datatype Range = Range(start: nat, end: nat)

  predicate In(a: nat, r: Range) {
    r.start <= a < r.end
  }

  predicate InOption(a: nat, r: Option<Range>) {
    r.Some? && In(a, r.value)
  }

  predicate Encompasses(r: Range, other: Range) {
    other.start >= r.start && other.end <= r.end
  }

  predicate Intersects(r: Range, other: Range) {
    r.start < other.end && r.end > other.start
  }

  function Intersection(r: Range, other: Range): Option<Range> {
    if Intersects(r, other) then Some(Range(Max(r.start, other.start), Min(r.end, other.end))) else None
  }

  function Split(r: Range, other: Range): (Option<Range>, Option<Range>, Option<Range>) {
    var before := if r.start >= other.start then None else Some(Range(r.start, other.start));
    var after := if r.end <= other.end then None else Some(Range(other.end, r.end));
    (before, Intersection(r, other), after)
  }

  /** Nonempty ranges intersect exactly if they share an address. */
  lemma IntersectsIffShared(r: Range, other: Range)
    requires r.start < r.end && other.start < other.end
    ensures Intersects(r, other) <==> exists a: nat :: In(a, r) && In(a, other)
  {
    if Intersects(r, other) {
      assert In(Max(r.start, other.start), r) && In(Max(r.start, other.start), other);
    }
  }

  /** Where the ranges intersect, the three parts are `r` before, inside and after `other`. */
  lemma SplitPartitions(r: Range, other: Range, a: nat)
    requires r.start <= r.end && other.start <= other.end && Intersects(r, other)
    ensures var (before, middle, after) := Split(r, other);
            && (InOption(a, before) <==> In(a, r) && a < other.start)
            && (InOption(a, middle) <==> In(a, r) && In(a, other))
            && (InOption(a, after) <==> In(a, r) && other.end <= a)
  {
  }

  // ---------------------------------------------------------------------------------------------
  // Regions
  // ---------------------------------------------------------------------------------------------

  const MAX_REGIONS: nat := 32

  datatype Usage = Firmware | DeviceTree | Seed | Ramdisk | Unknown

  datatype RegionType = Usable | Reserved(usage: Usage)

  datatype Region = Region(typ: RegionType, address: nat, size: nat)

  function RangeOf(r: Region): Range {
    Range(r.address, r.address + r.size)
  }

  predicate Contains(r: Region, a: nat) {
    In(a, RangeOf(r))
  }

  /** The entries of that type, taken together, contain the address. */
  ghost predicate Covers(rs: seq<Region>, typ: RegionType, a: nat) {
    exists i | 0 <= i < |rs| :: rs[i].typ == typ && Contains(rs[i], a)
  }

  /** The type of the last region of a history that covers the address. */
  ghost function TypeAt(history: seq<Region>, a: nat): Option<RegionType> {
    if history == [] then None
    else
      var last := history[|history| - 1];
      if Contains(last, a) then Some(last.typ) else TypeAt(history[..|history| - 1], a)
  }

  /** Whether an existing entry takes the new region in. */
  predicate TakesIn(existing: Region, region: Region) {
    existing.typ == region.typ
    && (|| Encompasses(RangeOf(existing), RangeOf(region))
        || region.address + region.size == existing.address
        || existing.address + existing.size == region.address)
  }

  /** An existing entry after the new region has been merged onto its front or its end. */
  function Merge(existing: Region, region: Region): Region {
    if existing.typ != region.typ || Encompasses(RangeOf(existing), RangeOf(region)) then existing
    else if region.address + region.size == existing.address then
      existing.(address := region.address, size := existing.size + region.size)
    else if existing.address + existing.size == region.address then
      existing.(size := existing.size + region.size)
    else existing
  }

  function PieceOf(typ: RegionType, r: Option<Range>): seq<Region>
    requires r.Some? ==> r.value.start <= r.value.end
  {
    if r.Some? then [Region(typ, r.value.start, r.value.end - r.value.start)] else []
  }

  /** What is left of an existing entry of another type. */
  function Pieces(existing: Region, region: Region): seq<Region> {
    if existing.typ == region.typ then [existing]
    else
      var (before, middle, after) := Split(RangeOf(existing), RangeOf(region));
      if middle.None? then [existing] else PieceOf(existing.typ, before) + PieceOf(existing.typ, after)
  }

  predicate WholePages(rs: seq<Region>) {
    forall i | 0 <= i < |rs| :: rs[i].size % FRAME == 0
  }

  function MergeAll(rs: seq<Region>, region: Region): (r: seq<Region>)
    ensures |r| == |rs|
  {
    seq(|rs|, i requires 0 <= i < |rs| => Merge(rs[i], region))
  }

  predicate AnyTakesIn(rs: seq<Region>, region: Region) {
    exists i | 0 <= i < |rs| :: TakesIn(rs[i], region)
  }

  function SplitAll(rs: seq<Region>, region: Region): seq<Region> {
    if rs == [] then [] else SplitAll(rs[..|rs| - 1], region) + Pieces(rs[|rs| - 1], region)
  }

  /** The entries after the region has been added. */
  function Adding(rs: seq<Region>, region: Region): seq<Region> {
    SplitAll(MergeAll(rs, region), region) + if AnyTakesIn(rs, region) then [] else [region]
  }

  // ---------------------------------------------------------------------------------------------
  // Coverage
  // ---------------------------------------------------------------------------------------------

  lemma CoversConcat(xs: seq<Region>, ys: seq<Region>, typ: RegionType, a: nat)
    ensures Covers(xs + ys, typ, a) <==> Covers(xs, typ, a) || Covers(ys, typ, a)
  {
    var all := xs + ys;
    if Covers(xs, typ, a) {
      var i :| 0 <= i < |xs| && xs[i].typ == typ && Contains(xs[i], a);
      assert all[i] == xs[i];
    }
    if Covers(ys, typ, a) {
      var i :| 0 <= i < |ys| && ys[i].typ == typ && Contains(ys[i], a);
      assert all[|xs| + i] == ys[i];
    }
    if Covers(all, typ, a) {
      var i :| 0 <= i < |all| && all[i].typ == typ && Contains(all[i], a);
      if i < |xs| {
        assert all[i] == xs[i];
      } else {
        assert all[i] == ys[i - |xs|];
      }
    }
  }

  lemma CoversOne(r: Region, typ: RegionType, a: nat)
    ensures Covers([r], typ, a) <==> r.typ == typ && Contains(r, a)
  {
    assert [r][0] == r;
  }

  /** The pieces of an entry of another type are the entry without the region. */
  lemma PiecesCover(existing: Region, region: Region, typ: RegionType, a: nat)
    ensures Covers(Pieces(existing, region), typ, a)
       <==> existing.typ == typ && Contains(existing, a) && (typ == region.typ || !Contains(region, a))
  {
    CoversOne(existing, typ, a);
    if existing.typ != region.typ && Intersects(RangeOf(existing), RangeOf(region)) {
      var (before, _, after) := Split(RangeOf(existing), RangeOf(region));
      SplitPartitions(RangeOf(existing), RangeOf(region), a);
      PieceCovers(existing.typ, before, typ, a);
      PieceCovers(existing.typ, after, typ, a);
      CoversConcat(PieceOf(existing.typ, before), PieceOf(existing.typ, after), typ, a);
    }
  }

  lemma PieceCovers(t: RegionType, r: Option<Range>, typ: RegionType, a: nat)
    requires r.Some? ==> r.value.start <= r.value.end
    ensures Covers(PieceOf(t, r), typ, a) <==> t == typ && InOption(a, r)
  {
    if PieceOf(t, r) != [] {
      CoversOne(PieceOf(t, r)[0], typ, a);
    }
  }

  lemma {:induction false} SplitAllCovers(rs: seq<Region>, region: Region, typ: RegionType, a: nat)
    ensures Covers(SplitAll(rs, region), typ, a)
       <==> Covers(rs, typ, a) && (typ == region.typ || !Contains(region, a))
    decreases |rs|
  {
    if rs != [] {
      var init, last := rs[..|rs| - 1], rs[|rs| - 1];
      assert rs == init + [last];
      SplitAllCovers(init, region, typ, a);
      PiecesCover(last, region, typ, a);
      CoversOne(last, typ, a);
      CoversConcat(init, [last], typ, a);
      CoversConcat(SplitAll(init, region), Pieces(last, region), typ, a);
    }
  }

  /** Merging adds addresses of the region only, and all of them if some entry takes it in. */
  lemma MergeContains(existing: Region, region: Region, a: nat)
    ensures Contains(existing, a) ==> Contains(Merge(existing, region), a)
    ensures Contains(Merge(existing, region), a) ==> Contains(existing, a) || (existing.typ == region.typ && Contains(region, a))
    ensures TakesIn(existing, region) && Contains(region, a) ==> Contains(Merge(existing, region), a)
  {
  }

  lemma MergeAllCovers(rs: seq<Region>, region: Region, typ: RegionType, a: nat)
    ensures Covers(rs, typ, a) ==> Covers(MergeAll(rs, region), typ, a)
    ensures Covers(MergeAll(rs, region), typ, a) ==> Covers(rs, typ, a) || (typ == region.typ && Contains(region, a))
    ensures AnyTakesIn(rs, region) && Contains(region, a) ==> Covers(MergeAll(rs, region), region.typ, a)
  {
    var merged := MergeAll(rs, region);
    if Covers(rs, typ, a) {
      var i :| 0 <= i < |rs| && rs[i].typ == typ && Contains(rs[i], a);
      MergeContains(rs[i], region, a);
      assert merged[i].typ == typ && Contains(merged[i], a);
    }
    if Covers(merged, typ, a) {
      var i :| 0 <= i < |merged| && merged[i].typ == typ && Contains(merged[i], a);
      MergeContains(rs[i], region, a);
      assert rs[i].typ == typ;
    }
    if AnyTakesIn(rs, region) && Contains(region, a) {
      var i :| 0 <= i < |rs| && TakesIn(rs[i], region);
      MergeContains(rs[i], region, a);
      assert merged[i].typ == region.typ && Contains(merged[i], a);
    }
  }

  /** The new region's type gains exactly the region; every other type loses exactly the region. */
  lemma AddingCovers(rs: seq<Region>, region: Region, typ: RegionType, a: nat)
    ensures Covers(Adding(rs, region), typ, a)
       <==> if typ == region.typ then Covers(rs, typ, a) || Contains(region, a)
            else Covers(rs, typ, a) && !Contains(region, a)
  {
    var merged := MergeAll(rs, region);
    MergeAllCovers(rs, region, typ, a);
    SplitAllCovers(merged, region, typ, a);
    CoversOne(region, typ, a);
    CoversConcat(SplitAll(merged, region), if AnyTakesIn(rs, region) then [] else [region], typ, a);
  }

  /** The map agrees with its history: each type covers exactly the addresses last given to it. */
  ghost predicate Classifies(rs: seq<Region>, history: seq<Region>) {
    forall typ, a: nat :: Covers(rs, typ, a) <==> TypeAt(history, a) == Some(typ)
  }

  lemma AddingClassifies(rs: seq<Region>, history: seq<Region>, region: Region)
    requires Classifies(rs, history)
    ensures Classifies(Adding(rs, region), history + [region])
  {
    forall typ, a: nat
      ensures Covers(Adding(rs, region), typ, a) <==> TypeAt(history + [region], a) == Some(typ)
    {
      AddingCovers(rs, region, typ, a);
      assert (history + [region])[..|history|] == history;
      assert Covers(rs, typ, a) <==> TypeAt(history, a) == Some(typ);
    }
  }

  /** Entries of different types never overlap. */
  lemma TypesAreDisjoint(rs: seq<Region>, history: seq<Region>, i: nat, j: nat, a: nat)
    requires Classifies(rs, history) && i < |rs| && j < |rs| && rs[i].typ != rs[j].typ
    ensures !(Contains(rs[i], a) && Contains(rs[j], a))
  {
    assert Contains(rs[i], a) ==> Covers(rs, rs[i].typ, a);
    assert Contains(rs[j], a) ==> Covers(rs, rs[j].typ, a);
  }

  // ---------------------------------------------------------------------------------------------
  // How many entries
  // ---------------------------------------------------------------------------------------------

  /** The entries of a type. */
  function Count(rs: seq<Region>, typ: RegionType): nat {
    if rs == [] then 0 else Count(rs[..|rs| - 1], typ) + if rs[|rs| - 1].typ == typ then 1 else 0
  }

  lemma {:induction false} CountConcat(xs: seq<Region>, ys: seq<Region>, typ: RegionType)
    ensures Count(xs + ys, typ) == Count(xs, typ) + Count(ys, typ)
    decreases |ys|
  {
    if ys == [] {
      assert xs + ys == xs;
    } else {
      assert (xs + ys)[..|xs + ys| - 1] == xs + ys[..|ys| - 1];
      CountConcat(xs, ys[..|ys| - 1], typ);
    }
  }

  lemma {:induction false} CountMerged(rs: seq<Region>, region: Region, typ: RegionType)
    ensures Count(MergeAll(rs, region), typ) == Count(rs, typ)
    decreases |rs|
  {
    if rs != [] {
      assert MergeAll(rs, region)[..|rs| - 1] == MergeAll(rs[..|rs| - 1], region);
      CountMerged(rs[..|rs| - 1], region, typ);
    }
  }

  /** An entry of the region's type stays one; an entry of another type leaves at most two, of its own type. */
  lemma CountPieces(existing: Region, region: Region, typ: RegionType)
    ensures typ != existing.typ ==> Count(Pieces(existing, region), typ) == 0
    ensures existing.typ == region.typ ==> Count(Pieces(existing, region), existing.typ) == 1
    ensures Count(Pieces(existing, region), existing.typ) <= 2
  {
    var (before, _, after) := Split(RangeOf(existing), RangeOf(region));
    if existing.typ != region.typ && Intersects(RangeOf(existing), RangeOf(region)) {
      CountConcat(PieceOf(existing.typ, before), PieceOf(existing.typ, after), typ);
      CountConcat(PieceOf(existing.typ, before), PieceOf(existing.typ, after), existing.typ);
    }
  }

  lemma {:induction false} CountSplit(rs: seq<Region>, region: Region, typ: RegionType)
    ensures typ == region.typ ==> Count(SplitAll(rs, region), typ) == Count(rs, typ)
    ensures Count(SplitAll(rs, region), typ) <= 2 * Count(rs, typ)
    decreases |rs|
  {
    if rs != [] {
      var init, last := rs[..|rs| - 1], rs[|rs| - 1];
      CountSplit(init, region, typ);
      CountPieces(last, region, typ);
      CountConcat(SplitAll(init, region), Pieces(last, region), typ);
    }
  }

  /** Some entry of the region's type holds the region, or ends where it starts, or starts where it ends. */
  ghost predicate HeldOrTouched(rs: seq<Region>, region: Region) {
    exists i | 0 <= i < |rs| ::
      && rs[i].typ == region.typ
      && (|| (rs[i].address <= region.address && region.address + region.size <= rs[i].address + rs[i].size)
          || rs[i].address + rs[i].size == region.address
          || region.address + region.size == rs[i].address)
  }

  /**
    A region held or touched by an entry of its type makes no new entry, any other region makes one; and an
    entry of another type leaves at most two.
  */
  lemma AddingCounts(rs: seq<Region>, region: Region, typ: RegionType)
    ensures HeldOrTouched(rs, region) ==> Count(Adding(rs, region), region.typ) == Count(rs, region.typ)
    ensures !HeldOrTouched(rs, region) ==> Count(Adding(rs, region), region.typ) == Count(rs, region.typ) + 1
    ensures typ != region.typ ==> Count(Adding(rs, region), typ) <= 2 * Count(rs, typ)
  {
    var merged, more := MergeAll(rs, region), if AnyTakesIn(rs, region) then [] else [region];
    HeldIsTaken(rs, region);
    CountMerged(rs, region, region.typ);
    CountMerged(rs, region, typ);
    CountSplit(merged, region, region.typ);
    CountSplit(merged, region, typ);
    CountConcat(SplitAll(merged, region), more, region.typ);
    CountConcat(SplitAll(merged, region), more, typ);
  }

  lemma HeldIsTaken(rs: seq<Region>, region: Region)
    ensures AnyTakesIn(rs, region) <==> HeldOrTouched(rs, region)
  {
    if AnyTakesIn(rs, region) {
      var i :| 0 <= i < |rs| && TakesIn(rs[i], region);
      assert rs[i].typ == region.typ;
    }
    if HeldOrTouched(rs, region) {
      var i :| && 0 <= i < |rs| && rs[i].typ == region.typ
               && (|| (rs[i].address <= region.address && region.address + region.size <= rs[i].address + rs[i].size)
                   || rs[i].address + rs[i].size == region.address
                   || region.address + region.size == rs[i].address);
      assert TakesIn(rs[i], region);
    }
  }

  /** Where no entry of another type overlaps the region, no entry is cut. */
  lemma {:induction false} NothingCut(rs: seq<Region>, region: Region)
    requires forall i | 0 <= i < |rs| :: rs[i].typ == region.typ || !Intersects(RangeOf(rs[i]), RangeOf(region))
    ensures SplitAll(rs, region) == rs
    decreases |rs|
  {
    if rs != [] {
      var init, last := rs[..|rs| - 1], rs[|rs| - 1];
      NothingCut(init, region);
      assert Pieces(last, region) == [last];
      assert init + [last] == rs;
    }
  }

  /** There the map grows by one entry or not at all, and a region held or touched is always accepted. */
  lemma AddingLength(rs: seq<Region>, region: Region)
    requires forall i | 0 <= i < |rs| :: rs[i].typ == region.typ || !Intersects(RangeOf(rs[i]), RangeOf(region))
    ensures HeldOrTouched(rs, region) ==> |Adding(rs, region)| == |rs|
    ensures !HeldOrTouched(rs, region) ==> |Adding(rs, region)| == |rs| + 1
  {
    var merged := MergeAll(rs, region);
    forall i | 0 <= i < |merged|
      ensures merged[i].typ == region.typ || !Intersects(RangeOf(merged[i]), RangeOf(region))
    {
      assert merged[i].typ == region.typ || merged[i] == rs[i];
    }
    NothingCut(merged, region);
    HeldIsTaken(rs, region);
  }

  // ---------------------------------------------------------------------------------------------
  // Alignment
  // ---------------------------------------------------------------------------------------------

  predicate PageAligned(r: Region) {
    r.address % FRAME == 0 && r.size % FRAME == 0
  }

  lemma BoundsAligned(r: Region)
    requires PageAligned(r)
    ensures (r.address + r.size) % FRAME == 0
  {
    var k, m := r.address / FRAME, r.size / FRAME;
    assert r.address == FRAME * k && r.size == FRAME * m;
    assert r.address + r.size == FRAME * (k + m);
  }

  lemma PieceAligned(typ: RegionType, start: nat, end: nat)
    requires start % FRAME == 0 && end % FRAME == 0 && start <= end
    ensures PageAligned(Region(typ, start, end - start))
  {
  }

  lemma PiecesAligned(existing: Region, region: Region)
    requires PageAligned(existing) && PageAligned(region)
    ensures forall r | r in Pieces(existing, region) :: PageAligned(r)
  {
    BoundsAligned(existing);
    BoundsAligned(region);
    if existing.address < region.address {
      PieceAligned(existing.typ, existing.address, region.address);
    }
    if region.address + region.size < existing.address + existing.size {
      PieceAligned(existing.typ, region.address + region.size, existing.address + existing.size);
    }
  }

  lemma MergeAligned(existing: Region, region: Region)
    requires PageAligned(existing) && PageAligned(region)
    ensures PageAligned(Merge(existing, region))
  {
  }

  /** Adding page-aligned regions keeps entries page-aligned, so no assertion about sizes can fail. */
  lemma {:induction false} SplitAllAligned(rs: seq<Region>, region: Region)
    requires PageAligned(region) && forall r | r in rs :: PageAligned(r)
    ensures forall r | r in SplitAll(rs, region) :: PageAligned(r)
    decreases |rs|
  {
    if rs != [] {
      SplitAllAligned(rs[..|rs| - 1], region);
      PiecesAligned(rs[|rs| - 1], region);
    }
  }

  lemma AddingAligned(rs: seq<Region>, region: Region)
    requires PageAligned(region) && forall r | r in rs :: PageAligned(r)
    ensures forall r | r in Adding(rs, region) :: PageAligned(r)
    ensures WholePages(SplitAll(MergeAll(rs, region), region))
  {
    var merged := MergeAll(rs, region);
    forall i | 0 <= i < |merged|
      ensures PageAligned(merged[i])
    {
      MergeAligned(rs[i], region);
    }
    SplitAllAligned(merged, region);
    var split := SplitAll(merged, region);
    forall i | 0 <= i < |split|
      ensures split[i].size % FRAME == 0
    {
      assert PageAligned(split[i]);
    }
  }

  // ---------------------------------------------------------------------------------------------
  // The object
  // ---------------------------------------------------------------------------------------------

  class MemoryRegions {
    var regions: seq<Region>
    ghost var history: seq<Region>

    ghost predicate Valid()
      reads this
    {
      |regions| <= MAX_REGIONS && Classifies(regions, history)
    }

    constructor ()
      ensures Valid() && regions == [] && history == []
    {
      regions, history := [], [];
    }

    /**
      Fails, as the source panics, if a piece left over is not a whole number of pages or if there is
      no room for all entries.
    */
    method AddRegion(region: Region) returns (ok: bool)
      requires Valid() && region.size % FRAME == 0
      modifies this
      ensures ok <==> WholePages(SplitAll(MergeAll(old(regions), region), region))
                      && |Adding(old(regions), region)| <= MAX_REGIONS
      ensures ok ==> Valid() && regions == Adding(old(regions), region) && history == old(history) + [region]
      ensures ok ==> Count(regions, region.typ) ==
                     Count(old(regions), region.typ) + if HeldOrTouched(old(regions), region) then 0 else 1
    {
      AddingCounts(regions, region, region.typ);
      ok := Rebuild(region);
      if ok {
        history := history + [region];
        AddingClassifies(old(regions), old(history), region);
      }
    }

    method Rebuild(region: Region) returns (ok: bool)
      modifies this`regions
      ensures ok <==> WholePages(SplitAll(MergeAll(old(regions), region), region))
                      && |Adding(old(regions), region)| <= MAX_REGIONS
      ensures ok ==> regions == Adding(old(regions), region)
    {
      var added := MergeLoop(region);
      var aligned, rebuilt := SplitLoop(region);
      if !aligned || |rebuilt| > MAX_REGIONS {
        return false;
      }
      regions := rebuilt;
      if !added {
        if |regions| == MAX_REGIONS {
          return false;
        }
        regions := regions + [region];
      }
      ok := true;
    }

    /** Cut the region out of every entry of another type. */
    method SplitLoop(region: Region) returns (aligned: bool, rebuilt: seq<Region>)
      ensures aligned <==> WholePages(SplitAll(regions, region))
      ensures aligned ==> rebuilt == SplitAll(regions, region)
    {
      rebuilt := [];
      for i := 0 to |regions|
        invariant rebuilt == SplitAll(regions[..i], region) && WholePages(rebuilt)
      {
        var pieces := Pieces(regions[i], region);
        assert regions[..i + 1][..i] == regions[..i];
        if !WholePages(pieces) {
          MisalignedStays(regions, region, i);
          return false, [];
        }
        rebuilt := rebuilt + pieces;
      }
      assert regions[..|regions|] == regions;
      aligned := true;
    }

    /** Let every entry of the same type take the region in; says whether one did. */
    method MergeLoop(region: Region) returns (added: bool)
      modifies this`regions
      ensures regions == MergeAll(old(regions), region) && added == AnyTakesIn(old(regions), region)
      ensures added <==> HeldOrTouched(old(regions), region)
    {
      HeldIsTaken(regions, region);
      added := false;
      for i := 0 to |regions|
        invariant |regions| == |old(regions)|
        invariant forall k | 0 <= k < i :: regions[k] == Merge(old(regions)[k], region)
        invariant forall k | i <= k < |regions| :: regions[k] == old(regions)[k]
        invariant added <==> exists k | 0 <= k < i :: TakesIn(old(regions)[k], region)
      {
        var existing := regions[i];
        if region.typ == existing.typ {
          if Encompasses(RangeOf(existing), RangeOf(region)) {
            added := true;
          } else if region.address + region.size == existing.address {
            existing := existing.(address := region.address, size := existing.size + region.size);
            added := true;
          } else if existing.address + existing.size == region.address {
            existing := existing.(size := existing.size + region.size);
            added := true;
          }
        }
        regions := regions[i := existing];
      }
    }
  }

  /** A piece that is not a whole number of pages stays one, however many entries follow. */
  lemma {:induction false} MisalignedStays(rs: seq<Region>, region: Region, i: nat)
    requires i < |rs| && !WholePages(Pieces(rs[i], region))
    ensures !WholePages(SplitAll(rs, region))
    decreases |rs|
  {
    var init := rs[..|rs| - 1];
    if i < |rs| - 1 {
      MisalignedStays(init, region, i);
    }
    WholePagesParts(SplitAll(init, region), Pieces(rs[|rs| - 1], region));
  }

  lemma WholePagesParts(left: seq<Region>, right: seq<Region>)
    ensures WholePages(left + right) ==> WholePages(left) && WholePages(right)
  {
    var all := left + right;
    if WholePages(all) {
      forall k | 0 <= k < |left|
        ensures left[k].size % FRAME == 0
      {
        assert all[k] == left[k];
      }
      forall k | 0 <= k < |right|
        ensures right[k].size % FRAME == 0
      {
        assert all[|left| + k] == right[k];
      }
    }
  }
}
