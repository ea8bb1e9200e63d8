/**
  `PageTableImpl` (lib/hal_x86_64/src/paging.rs, lib/hal_riscv/src/paging.rs): mapping pages and areas
  in tables that live in physical memory and are created on the way. The three implementations differ
  in the number of levels and in the entry format, which the `arch` field selects.

  Results are stated by the processor's walk of every virtual address, `HardwareWalk`.
*/
module PageTable {
  import opened Numbers
  import opened Options
  import opened PageEntries
  import opened PageTrees
  import opened Blocks
  import opened MapPlan

  datatype MapResult = Mapped | AlreadyMapped | OutOfFrames

  datatype TableResult = Next(table: nat) | Occupied | Exhausted

  predicate InPage(va: nat, start: nat, size: nat) {
    start <= va < start + size
  }

  // ---------------------------------------------------------------------------------------------
  // Virtual addresses
  // ---------------------------------------------------------------------------------------------

  function Half(arch: Arch): nat {
    PageSize(Top(arch) + 1) / 2
  }

  /** How far the upper half of the address space is moved down by dropping the repeated bits. */
  function UpperShift(arch: Arch): nat {
    0x1_0000_0000_0000_0000 - 2 * Half(arch)
  }

  lemma LowOfCanonical(arch: Arch, va: nat)
    requires Canonical(arch, va)
    ensures Low(arch, va) == if va < Half(arch) then va else va - UpperShift(arch)
    ensures va < Half(arch) <==> Low(arch, va) < Half(arch)
    ensures Low(arch, va) < PageSize(Top(arch) + 1)
  {
    var h := Half(arch);
    HalfIsExact(arch);
    if va < h {
      DivUnique(va, 2 * h, 0);
    } else {
      DivUnique(va, 2 * h, UpperBlocks(arch));
    }
  }

  /** How many times the translated range fits below the upper half. */
  function UpperBlocks(arch: Arch): nat {
    if arch.Sv39? then 0x1FF_FFFF else 0xFFFF
  }

  lemma HalfIsExact(arch: Arch)
    ensures PageSize(Top(arch) + 1) == 2 * Half(arch) && Half(arch) > 0
    ensures UpperBlocks(arch) * (2 * Half(arch)) == UpperShift(arch)
  {
    assert Half(arch) == if arch.Sv39? then 0x40_0000_0000 else 0x8000_0000_0000;
  }

  /** A page of size `m` is a class of addresses with the same quotient by `m`. */
  lemma SamePage(m: nat, page: nat, a: nat)
    requires 0 < m && page % m == 0
    ensures InPage(a, page, m) <==> a / m == page / m
    ensures InPage(a, page, m) ==> a % m == a - page
  {
    assert page == page / m * m;
    if InPage(a, page, m) {
      DivUnique(a, m, page / m);
    } else {
      assert a == a / m * m + a % m;
    }
  }

  /** Subtracting a multiple of `m` keeps the remainder, and multiples of `m` are at least `m` apart. */
  lemma Multiples(m: nat, a: nat, b: nat)
    requires 0 < m && b % m == 0
    ensures b <= a ==> (a - b) % m == a % m
    ensures a % m == 0 && a < b ==> a + m <= b
  {
    var p, q, r := a / m, b / m, a % m;
    assert b == q * m && a == p * m + r;
    if b <= a {
      MinusMultiple(a, p, r, q, m);
    } else if r == 0 {
      if q <= p {
        ProductUp(q, p, m);
      }
      ProductGap(p, q, m);
    }
  }

  lemma ProductOrder(p: nat, q: nat, m: nat)
    ensures p <= q ==> p * m <= q * m
  {
  }

  lemma ProductUp(p: nat, q: nat, m: nat)
    requires p <= q
    ensures p * m <= q * m
  {
  }

  lemma MinusMultiple(a: nat, p: nat, r: nat, q: nat, m: nat)
    requires r < m && a == p * m + r && q * m <= a
    ensures (a - q * m) % m == r
  {
    if p < q {
      ProductGap(p, q, m);
    }
    var d := p - q;
    assert d * m == p * m - q * m;
    DivUnique(a - q * m, m, d);
  }

  /** Halves and shifts of the address space are whole pages of every size. */
  lemma WholePages(arch: Arch, level: nat)
    requires 1 <= level <= 3
    ensures Half(arch) % PageSize(level) == 0 && UpperShift(arch) % PageSize(level) == 0
  {
    var half, shift := Half(arch), UpperShift(arch);
    assert half == if arch.Sv39? then 0x40_0000_0000 else 0x8000_0000_0000;
    assert shift == if arch.Sv39? then 0xFFFF_FF80_0000_0000 else 0xFFFF_0000_0000_0000;
    if level == 2 {
      CoarserMultiple(half, MIB2, 0x200);
      CoarserMultiple(shift, MIB2, 0x200);
    } else if level == 1 {
      CoarserMultiple(half, FRAME, 0x4_0000);
      CoarserMultiple(shift, FRAME, 0x4_0000);
    }
  }

  /** Canonical addresses of one page are those whose translated bits agree above the page offset. */
  lemma PageOfCanonical(arch: Arch, level: nat, page: nat, va: nat)
    requires 1 <= level <= 3 && Canonical(arch, page) && Canonical(arch, va) && page % PageSize(level) == 0
    ensures Low(arch, page) % PageSize(level) == 0
    ensures InPage(va, page, PageSize(level)) <==>
              Low(arch, va) / PageSize(level) == Low(arch, page) / PageSize(level)
    ensures InPage(va, page, PageSize(level)) ==> Low(arch, va) % PageSize(level) == va - page
  {
    LowOfCanonical(arch, page);
    LowOfCanonical(arch, va);
    WholePages(arch, level);
    Multiples(PageSize(level), page, UpperShift(arch));
    Multiples(PageSize(level), page, Half(arch));
    Multiples(PageSize(level), Low(arch, page), Half(arch));
    SamePage(PageSize(level), Low(arch, page), Low(arch, va));
  }

  lemma PageIsCanonical(arch: Arch, level: nat, page: nat, va: nat)
    requires 1 <= level <= 3 && Canonical(arch, page) && page % PageSize(level) == 0
    requires InPage(va, page, PageSize(level))
    ensures Canonical(arch, va)
  {
    WholePages(arch, level);
    AllPages(level);
    Multiples(PageSize(level), page, Half(arch));
    Multiples(PageSize(level), page, 0x1_0000_0000_0000_0000);
  }

  lemma AllPages(level: nat)
    requires 1 <= level <= 3
    ensures 0x1_0000_0000_0000_0000 % PageSize(level) == 0
  {
  }

  // ---------------------------------------------------------------------------------------------
  // The object
  // ---------------------------------------------------------------------------------------------

  /** The frames the allocator will hand out are distinct, and none of them holds a table. */
  ghost predicate FreshPool(place: Place, pool: seq<nat>) {
    && (forall i, j | 0 <= i < j < |pool| :: pool[i] != pool[j])
    && (forall i, k | 0 <= i < |pool| && k in place :: place[k] != pool[i])
  }

  ghost predicate Built(arch: Arch, mem: Memory, place: Place, root: nat, pool: seq<nat>) {
    Tree(arch, mem, place, root) && FreshPool(place, pool)
  }

  lemma EntryWalk(arch: Arch, mem: Memory, place: Place, root: nat, k: Key, i: nat, va: nat)
    requires Tree(arch, mem, place, root) && k in place && i < 512
    requires NoTableThere(arch, mem, place, k, i)
    requires Canonical(arch, va) && OnSlot(k, i, Low(arch, va))
    ensures HardwareWalk(arch, mem, root, va) == None <==> mem[place[k]][i] == Unused(arch)
  {
    SlotWalk(arch, mem, place, root, k, i, Low(arch, va));
  }

  /** Every address translates in `mem'` as it does in `mem`. */
  ghost predicate SameWalks(arch: Arch, root: nat, mem: Memory, mem': Memory) {
    forall va: nat :: HardwareWalk(arch, mem', root, va) == HardwareWalk(arch, mem, root, va)
  }

  /** The addresses of one area had no translation in `mem` and have the asked-for one in `mem'`; no other changed. */
  ghost predicate Maps(arch: Arch, root: nat, mem: Memory, mem': Memory, start: nat, size: nat, physical: nat,
                       flags: Flags) {
    forall va: nat ::
      if InPage(va, start, size) then
        && HardwareWalk(arch, mem, root, va) == None
        && HardwareWalk(arch, mem', root, va) == Some(Translation(physical + (va - start), Granted(arch, flags)))
      else
        HardwareWalk(arch, mem', root, va) == HardwareWalk(arch, mem, root, va)
  }

  /** Translations have only been added, only in the area, and only the asked-for ones. */
  ghost predicate Adds(arch: Arch, root: nat, mem: Memory, mem': Memory, start: nat, size: nat, physical: nat,
                       flags: Flags) {
    forall va: nat ::
      || HardwareWalk(arch, mem', root, va) == HardwareWalk(arch, mem, root, va)
      || (&& InPage(va, start, size) && HardwareWalk(arch, mem, root, va) == None
          && HardwareWalk(arch, mem', root, va) == Some(Translation(physical + (va - start), Granted(arch, flags))))
  }

  lemma MapsThenMaps(arch: Arch, root: nat, m0: Memory, m1: Memory, m2: Memory,
                     start: nat, size: nat, more: nat, physical: nat, flags: Flags)
    requires Maps(arch, root, m0, m1, start, size, physical, flags)
    requires Maps(arch, root, m1, m2, start + size, more, physical + size, flags)
    ensures Maps(arch, root, m0, m2, start, size + more, physical, flags)
  {
  }

  lemma MapsThenAdds(arch: Arch, root: nat, m0: Memory, m1: Memory, m2: Memory,
                     start: nat, size: nat, more: nat, whole: nat, physical: nat, flags: Flags)
    requires Maps(arch, root, m0, m1, start, size, physical, flags)
    requires Adds(arch, root, m1, m2, start + size, more, physical + size, flags)
    requires size + more <= whole
    ensures Adds(arch, root, m0, m2, start, whole, physical, flags)
  {
    forall va: nat
      ensures || HardwareWalk(arch, m2, root, va) == HardwareWalk(arch, m0, root, va)
              || (&& InPage(va, start, whole) && HardwareWalk(arch, m0, root, va) == None
                  && HardwareWalk(arch, m2, root, va) == Some(Translation(physical + (va - start), Granted(arch, flags))))
    {
      if InPage(va, start, size) {
        assert !InPage(va, start + size, more);
        assert HardwareWalk(arch, m2, root, va) == HardwareWalk(arch, m1, root, va);
      } else {
        assert HardwareWalk(arch, m1, root, va) == HardwareWalk(arch, m0, root, va);
      }
    }
  }

  /** The area ends before the address space does, and does not reach from one half into the other. */
  predicate InOneHalf(arch: Arch, start: nat, size: nat) {
    || start + size <= Half(arch)
    || (0x1_0000_0000_0000_0000 - Half(arch) <= start && start + size < 0x1_0000_0000_0000_0000)
  }

  /** `VAddr::canonicalise`: the upper bits become copies of the highest translated bit. */
  function Canonicalise(arch: Arch, a: nat): nat {
    var low := a % (2 * Half(arch));
    if low < Half(arch) then low else low + UpperShift(arch)
  }

  /**
    The end of an area is an address of its own and is canonicalised. It stays where it is unless the
    area reaches up to the end of the lower half: then it lands at the start of the upper half, and the
    loop of `map_area` takes the whole gap for bytes left to map.
  */
  lemma EndIsExactIff(arch: Arch, start: nat, size: nat)
    requires InOneHalf(arch, start, size)
    ensures Canonicalise(arch, start + size) == start + size <==> start + size != Half(arch)
    ensures start + size == Half(arch) ==> Canonicalise(arch, start + size) == Half(arch) + UpperShift(arch)
  {
    var h, end := Half(arch), start + size;
    HalfIsExact(arch);
    if end <= h {
      DivUnique(end, 2 * h, 0);
    } else {
      DivUnique(end, 2 * h, UpperBlocks(arch));
    }
  }

  /** All addresses whose walk goes through the slot are translated, or none of them is. */
  ghost predicate SlotTranslates(arch: Arch, root: nat, mem: Memory, k: Key, i: nat, yes: bool) {
    forall va: nat | Canonical(arch, va) && OnSlot(k, i, Low(arch, va)) ::
      (HardwareWalk(arch, mem, root, va) != None <==> yes)
  }

  /** The table below `level` on the way to `a` is missing, because of a large page or of lack of frames. */
  ghost predicate Blocked(arch: Arch, root: nat, mem: Memory, place: Place, level: nat, a: nat, page: bool) {
    && SlotTranslates(arch, root, mem, KeyOf(level, a), Index(level, a), page)
    && (0 < level ==> KeyOf(level - 1, a) !in place)
  }

  /** Only tables of the given level and above have been added. */
  ghost predicate Grows(before: Place, after: Place, level: nat) {
    && (forall k | k in after :: k in before || k.level >= level)
    && (forall k | k in before :: k in after)
  }

  lemma SlotTranslatesByEntry(arch: Arch, mem: Memory, place: Place, root: nat, k: Key, i: nat)
    requires Tree(arch, mem, place, root) && k in place && i < 512
    requires NoTableThere(arch, mem, place, k, i)
    ensures SlotTranslates(arch, root, mem, k, i, mem[place[k]][i] != Unused(arch))
  {
    forall va: nat | Canonical(arch, va) && OnSlot(k, i, Low(arch, va))
      ensures HardwareWalk(arch, mem, root, va) != None <==> mem[place[k]][i] != Unused(arch)
    {
      EntryWalk(arch, mem, place, root, k, i, va);
    }
  }

  lemma HangTable(arch: Arch, mem: Memory, place: Place, root: nat, pool: seq<nat>, k: Key, i: nat)
    requires Built(arch, mem, place, root, pool) && k in place && k.level > 1 && i < 512 && pool != []
    requires mem[place[k]][i] == Unused(arch)
    ensures Child(k, i) !in place && pool[0] != place[k]
    ensures Built(arch, WithTable(arch, mem, place[k], i, pool[0]), place[Child(k, i) := pool[0]], root, pool[1..])
    ensures SameWalks(arch, root, mem, WithTable(arch, mem, place[k], i, pool[0]))
  {
    var f := pool[0];
    AddTableKeepsTree(arch, mem, place, root, k, i, f);
    forall va: nat
      ensures HardwareWalk(arch, WithTable(arch, mem, place[k], i, f), root, va) == HardwareWalk(arch, mem, root, va)
    {
      if Canonical(arch, va) {
        LowOfCanonical(arch, va);
        AddTableWalk(arch, mem, place, root, k, i, f, Low(arch, va));
      }
    }
  }

  lemma FrameOfPhysical(level: nat, physical: nat)
    requires 1 <= level <= 3 && physical % PageSize(level) == 0
    ensures physical / FRAME * FRAME == physical && FrameAligned(level, physical / FRAME)
  {
    LargeMultiples(physical);
  }

  lemma WritePageAt(arch: Arch, mem: Memory, place: Place, root: nat, level: nat,
                    page: nat, physical: nat, flags: Flags, va: nat)
    requires Tree(arch, mem, place, root) && 1 <= level <= 3 && Canonical(arch, page)
    requires page % PageSize(level) == 0 && physical % PageSize(level) == 0
    requires KeyOf(level, Low(arch, page)) in place
    requires mem[place[KeyOf(level, Low(arch, page))]][Index(level, Low(arch, page))] == Unused(arch)
    ensures var mem' := SetEntry(mem, place[KeyOf(level, Low(arch, page))], Index(level, Low(arch, page)),
                                 PageEntry(arch, level, physical / FRAME, flags));
            if InPage(va, page, PageSize(level)) then
              && HardwareWalk(arch, mem, root, va) == None
              && HardwareWalk(arch, mem', root, va) == Some(Translation(physical + (va - page), Granted(arch, flags)))
            else
              HardwareWalk(arch, mem', root, va) == HardwareWalk(arch, mem, root, va)
  {
    if InPage(va, page, PageSize(level)) {
      PageIsCanonical(arch, level, page, va);
      WasUnmapped(arch, mem, place, root, level, page, va);
    }
    if Canonical(arch, va) {
      PageSlot(arch, level, page, va);
      WrittenWalk(arch, mem, place, root, level, Low(arch, page), physical, flags, Low(arch, va),
                  PageEntry(arch, level, physical / FRAME, flags));
    }
  }

  lemma WasUnmapped(arch: Arch, mem: Memory, place: Place, root: nat, level: nat, page: nat, va: nat)
    requires Tree(arch, mem, place, root) && 1 <= level <= 3 && Canonical(arch, page) && Canonical(arch, va)
    requires page % PageSize(level) == 0 && KeyOf(level, Low(arch, page)) in place
    requires mem[place[KeyOf(level, Low(arch, page))]][Index(level, Low(arch, page))] == Unused(arch)
    requires InPage(va, page, PageSize(level))
    ensures HardwareWalk(arch, mem, root, va) == None
  {
    PageSlot(arch, level, page, va);
    EntryWalk(arch, mem, place, root, KeyOf(level, Low(arch, page)), Index(level, Low(arch, page)), va);
  }

  /** Every walk after the entry of a page has been written. */
  lemma WrittenWalk(arch: Arch, mem: Memory, place: Place, root: nat, level: nat, a: nat, physical: nat, flags: Flags,
                    b: nat, e: Entry)
    requires Tree(arch, mem, place, root) && 1 <= level <= 3 && physical % PageSize(level) == 0
    requires KeyOf(level, a) in place && mem[place[KeyOf(level, a)]][Index(level, a)] == Unused(arch)
    requires e == PageEntry(arch, level, physical / FRAME, flags) && b < PageSize(Top(arch) + 1)
    ensures var mem' := SetEntry(mem, place[KeyOf(level, a)], Index(level, a), e);
            Whole(arch, mem', root, b)
            == if OnSlot(KeyOf(level, a), Index(level, a), b)
               then Some(Translation(physical + b % PageSize(level), Granted(arch, flags)))
               else Whole(arch, mem, root, b)
  {
    FrameOfPhysical(level, physical);
    ReadPage(arch, level, physical / FRAME, flags);
    ReplaceWalk(arch, mem, place, root, KeyOf(level, a), Index(level, a), e, b);
  }

  /** A canonical address lies in a page if and only if its walk goes through the page's slot. */
  lemma PageSlot(arch: Arch, level: nat, page: nat, va: nat)
    requires 1 <= level <= 3 && Canonical(arch, page) && Canonical(arch, va) && page % PageSize(level) == 0
    ensures var a := Low(arch, page);
            InPage(va, page, PageSize(level)) <==> OnSlot(KeyOf(level, a), Index(level, a), Low(arch, va))
    ensures InPage(va, page, PageSize(level)) ==> Low(arch, va) % PageSize(level) == va - page
    ensures Low(arch, va) < PageSize(Top(arch) + 1)
  {
    LowOfCanonical(arch, va);
    PageOfCanonical(arch, level, page, va);
    SameSlot(level, Low(arch, page), Low(arch, va));
  }

  /** Writing a page entry into an unused slot maps exactly that page. */
  lemma WritePage(arch: Arch, mem: Memory, place: Place, root: nat, pool: seq<nat>, level: nat,
                  page: nat, physical: nat, flags: Flags)
    requires Built(arch, mem, place, root, pool) && 1 <= level <= 3 && Canonical(arch, page)
    requires page % PageSize(level) == 0 && physical % PageSize(level) == 0
    requires KeyOf(level, Low(arch, page)) in place
    requires mem[place[KeyOf(level, Low(arch, page))]][Index(level, Low(arch, page))] == Unused(arch)
    ensures var mem' := SetEntry(mem, place[KeyOf(level, Low(arch, page))], Index(level, Low(arch, page)),
                                 PageEntry(arch, level, physical / FRAME, flags));
            && Built(arch, mem', place, root, pool)
            && Maps(arch, root, mem, mem', page, PageSize(level), physical, flags)
  {
    var a := Low(arch, page);
    var k := KeyOf(level, a);
    var i := Index(level, a);
    var e := PageEntry(arch, level, physical / FRAME, flags);
    FrameOfPhysical(level, physical);
    ReadPage(arch, level, physical / FRAME, flags);
    ReplaceKeepsTree(arch, mem, place, root, k, i, e);
    forall va: nat
      ensures if InPage(va, page, PageSize(level)) then
                && HardwareWalk(arch, mem, root, va) == None
                && HardwareWalk(arch, SetEntry(mem, place[k], i, e), root, va)
                   == Some(Translation(physical + (va - page), Granted(arch, flags)))
              else
                HardwareWalk(arch, SetEntry(mem, place[k], i, e), root, va) == HardwareWalk(arch, mem, root, va)
    {
      WritePageAt(arch, mem, place, root, level, page, physical, flags, va);
    }
  }

  /** An occupied slot either translates its page or holds a table. */
  lemma TakenSlot(arch: Arch, mem: Memory, place: Place, root: nat, level: nat, page: nat)
    requires Tree(arch, mem, place, root) && 1 <= level <= 3 && Canonical(arch, page)
    requires KeyOf(level, Low(arch, page)) in place
    ensures mem[place[KeyOf(level, Low(arch, page))]][Index(level, Low(arch, page))] != Unused(arch)
            <==> HardwareWalk(arch, mem, root, page) != None || KeyOf(level - 1, Low(arch, page)) in place
  {
    var a := Low(arch, page);
    var k := KeyOf(level, a);
    LowOfCanonical(arch, page);
    assert EntryInTree(arch, mem, place, k, Index(level, a));
    ChildKey(level, a);
    if !LeadsToTable(arch, level, mem[place[k]][Index(level, a)]) {
      EntryWalk(arch, mem, place, root, k, Index(level, a), page);
    }
  }

  /** Where a table is missing, the tables below it are missing too. */
  lemma NoPathBelow(arch: Arch, mem: Memory, place: Place, root: nat, level: nat, missing: nat, a: nat)
    requires Tree(arch, mem, place, root)
    requires 1 <= level <= missing <= Top(arch) && KeyOf(missing, a) !in place
    ensures KeyOf(level - 1, a) !in place
  {
    if level > 1 && KeyOf(level - 1, a) in place {
      WalkReaches(arch, mem, place, root, missing, level - 1, a);
    }
  }

  // ---------------------------------------------------------------------------------------------
  // Software translation and unmapping
  // ---------------------------------------------------------------------------------------------

  /** `next_table`: the address in the entry, if it has one, whatever the entry is. */
  function NextTable(mem: Memory, table: nat, i: nat): Option<nat> {
    if IsTable(mem, table) && i < 512 && HasAddress(mem[table][i]) then Some(mem[table][i].frame) else None
  }

  /** The table of the given level that repeated `next_table` steps reach from the top. */
  function SoftTable(arch: Arch, mem: Memory, root: nat, level: nat, a: nat): Option<nat>
    requires 1 <= level <= Top(arch)
    decreases Top(arch) - level
  {
    if level == Top(arch) then Some(root)
    else
      var above := SoftTable(arch, mem, root, level + 1, a);
      if above.None? then None else NextTable(mem, above.value, Index(level + 1, a))
  }

  /** `translate`: knows 2MiB and 4KiB pages. */
  function Translate(arch: Arch, mem: Memory, root: nat, va: nat): Option<nat> {
    var a := Low(arch, va);
    var p2 := SoftTable(arch, mem, root, 2, a);
    if p2.None? then None else TranslateIn(mem, p2.value, a, va)
  }

  /** The rest of `translate`, from the table of 2MiB pages on. */
  function TranslateIn(mem: Memory, p2: nat, a: nat, va: nat): Option<nat> {
    if !IsTable(mem, p2) then None else
    var e2 := mem[p2][Index(2, a)];
    if IsLargePage(e2) then
      if HasAddress(e2) then Some(e2.frame * FRAME + va % PageSize(2)) else None
    else
      var p1 := NextTable(mem, p2, Index(2, a));
      if p1.None? || !IsTable(mem, p1.value) then None else
      var e1 := mem[p1.value][Index(1, a)];
      if HasAddress(e1) then Some(e1.frame * FRAME + va % PageSize(1)) else None
  }

  function AddressOf(t: Option<Translation>): Option<nat> {
    if t.Some? then Some(t.value.address) else None
  }

  /** The walk of `a` ends in a page of the given level. */
  ghost predicate PageAt(arch: Arch, mem: Memory, place: Place, level: nat, a: nat) {
    && KeyOf(level, a) in place && IsTable(mem, place[KeyOf(level, a)])
    && Read(level, mem[place[KeyOf(level, a)]][Index(level, a)]).Final?
  }

  ghost predicate LargePageCovers(arch: Arch, mem: Memory, place: Place, a: nat) {
    PageAt(arch, mem, place, 2, a) || PageAt(arch, mem, place, 3, a)
  }

  /** The page offset is among the translated bits. */
  lemma LowOffset(arch: Arch, level: nat, va: nat)
    requires 1 <= level <= 3 && Canonical(arch, va)
    ensures Low(arch, va) % PageSize(level) == va % PageSize(level)
  {
    LowOfCanonical(arch, va);
    WholePages(arch, level);
    Multiples(PageSize(level), va, UpperShift(arch));
  }

  /** `next_table` at a table of the tree: a table below, a page, or nothing. */
  lemma NextTableInTree(arch: Arch, mem: Memory, place: Place, root: nat, level: nat, a: nat)
    requires Tree(arch, mem, place, root) && 1 <= level <= Top(arch) && KeyOf(level, a) in place
    ensures IsTable(mem, place[KeyOf(level, a)])
    ensures var e := mem[place[KeyOf(level, a)]][Index(level, a)];
            && (HasAddress(e) <==> e != Unused(arch))
            && (level > 1 ==> (IsLargePage(e) <==> PageAt(arch, mem, place, level, a)))
            && (e != Unused(arch) && !PageAt(arch, mem, place, level, a) ==>
                  level > 1 && KeyOf(level - 1, a) in place && place[KeyOf(level - 1, a)] == e.frame
                  && WalkFrom(mem, place, level, a) == WalkFrom(mem, place, level - 1, a))
            && (e == Unused(arch) ==> WalkFrom(mem, place, level, a) == None)
            && (PageAt(arch, mem, place, level, a) ==>
                  AddressOf(WalkFrom(mem, place, level, a)) == Some(e.frame * FRAME + a % PageSize(level)))
  {
    var k := KeyOf(level, a);
    var i := Index(level, a);
    assert EntryInTree(arch, mem, place, k, i);
    ReadBuilt(arch, level, mem[place[k]][i]);
    ChildKey(level, a);
    WalkStep(arch, mem, place, root, level, a);
  }

  /** No page is mapped in a table of level 4. */
  lemma NoPageAtTop(arch: Arch, mem: Memory, place: Place, root: nat, a: nat)
    requires Tree(arch, mem, place, root)
    ensures Top(arch) == 4 ==> !PageAt(arch, mem, place, 4, a)
  {
    if Top(arch) == 4 && KeyOf(4, a) in place {
      assert EntryInTree(arch, mem, place, KeyOf(4, a), Index(4, a));
      ReadBuilt(arch, 4, mem[place[KeyOf(4, a)]][Index(4, a)]);
    }
  }

  /** One `next_table` step that does not pass a page follows the tree. */
  lemma SoftStep(arch: Arch, mem: Memory, place: Place, root: nat, level: nat, a: nat)
    requires Tree(arch, mem, place, root) && 1 <= level < Top(arch) && KeyOf(level + 1, a) in place
    requires !PageAt(arch, mem, place, level + 1, a)
    ensures var t := NextTable(mem, place[KeyOf(level + 1, a)], Index(level + 1, a));
            if t.None? then WalkFrom(mem, place, level + 1, a) == None
            else
              && KeyOf(level, a) in place && place[KeyOf(level, a)] == t.value
              && WalkFrom(mem, place, level + 1, a) == WalkFrom(mem, place, level, a)
  {
    NextTableInTree(arch, mem, place, root, level + 1, a);
  }

  /** As long as no page is passed on the way, the `next_table` steps follow the tree. */
  lemma {:induction false} SoftTableInTree(arch: Arch, mem: Memory, place: Place, root: nat, level: nat, a: nat)
    requires Tree(arch, mem, place, root) && a < PageSize(Top(arch) + 1) && 1 <= level <= Top(arch)
    requires forall l | level < l <= Top(arch) :: !PageAt(arch, mem, place, l, a)
    ensures var t := SoftTable(arch, mem, root, level, a);
            if t.None? then Whole(arch, mem, root, a) == None
            else
              && KeyOf(level, a) in place && place[KeyOf(level, a)] == t.value
              && Whole(arch, mem, root, a) == WalkFrom(mem, place, level, a)
    decreases Top(arch) - level
  {
    if level == Top(arch) {
      WholeIsWalkFrom(arch, mem, place, root, a);
      RootKey(arch, a);
    } else {
      SoftTableInTree(arch, mem, place, root, level + 1, a);
      if SoftTable(arch, mem, root, level + 1, a).Some? {
        SoftStep(arch, mem, place, root, level, a);
      }
    }
  }

  /** `translate` agrees with the processor wherever no 1GiB page is involved. */
  lemma TranslateAgrees(arch: Arch, mem: Memory, place: Place, root: nat, va: nat)
    requires Tree(arch, mem, place, root) && Canonical(arch, va)
    requires !PageAt(arch, mem, place, 3, Low(arch, va))
    ensures Translate(arch, mem, root, va) == AddressOf(HardwareWalk(arch, mem, root, va))
  {
    var a := Low(arch, va);
    LowOfCanonical(arch, va);
    LowOffset(arch, 1, va);
    LowOffset(arch, 2, va);
    NoPageAtTop(arch, mem, place, root, a);
    SoftTableInTree(arch, mem, place, root, 2, a);
    if SoftTable(arch, mem, root, 2, a).Some? {
      TranslateInAgrees(arch, mem, place, root, a, va);
    }
  }

  /**
    Why large pages are left out: the `next_table` steps of `translate` (past a 1GiB page) and of
    `unmap` (past any large page) take the page itself, memory of the mapped area, for the next table.
  */
  lemma LargePageTakenForTable(arch: Arch, mem: Memory, place: Place, root: nat, level: nat, va: nat)
    requires Tree(arch, mem, place, root) && Canonical(arch, va) && 2 <= level <= 3
    requires PageAt(arch, mem, place, level, Low(arch, va)) && (level == 2 ==> !PageAt(arch, mem, place, 3, Low(arch, va)))
    ensures exists frame: nat ::
              && SoftTable(arch, mem, root, level - 1, Low(arch, va)) == Some(frame)
              && AddressOf(HardwareWalk(arch, mem, root, va)) == Some(frame * FRAME + va % PageSize(level))
  {
    var a := Low(arch, va);
    LowOfCanonical(arch, va);
    LowOffset(arch, level, va);
    NoPageAtTop(arch, mem, place, root, a);
    SoftTableInTree(arch, mem, place, root, level, a);
    NextTableInTree(arch, mem, place, root, level, a);
    WholeIsWalkFrom(arch, mem, place, root, a);
    WalkReaches(arch, mem, place, root, Top(arch), level, a);
    var e := mem[place[KeyOf(level, a)]][Index(level, a)];
    assert SoftTable(arch, mem, root, level - 1, a) == Some(e.frame);
  }

  /**
    So `translate` and the processor can disagree: with nothing but zeroes in the first frame of a 1GiB
    page, every address of the page translates, and `translate` finds nothing.
  */
  lemma TranslateMissesLargePage(arch: Arch, mem: Memory, place: Place, root: nat, va: nat)
    requires Tree(arch, mem, place, root) && Canonical(arch, va) && PageAt(arch, mem, place, 3, Low(arch, va))
    requires var f := mem[place[KeyOf(3, Low(arch, va))]][Index(3, Low(arch, va))].frame;
             f in mem && mem[f] == ZeroTable(arch)
    ensures Translate(arch, mem, root, va) == None && HardwareWalk(arch, mem, root, va).Some?
  {
    var a := Low(arch, va);
    var e := mem[place[KeyOf(3, a)]][Index(3, a)];
    LowOfCanonical(arch, va);
    LargePageTakenForTable(arch, mem, place, root, 3, va);
    SoftTableAtPage(arch, mem, place, root, va, e);
    assert mem[e.frame][Index(2, a)] == Unused(arch);
  }

  lemma SoftTableAtPage(arch: Arch, mem: Memory, place: Place, root: nat, va: nat, e: Entry)
    requires Tree(arch, mem, place, root) && Canonical(arch, va) && PageAt(arch, mem, place, 3, Low(arch, va))
    requires e == mem[place[KeyOf(3, Low(arch, va))]][Index(3, Low(arch, va))]
    ensures SoftTable(arch, mem, root, 2, Low(arch, va)) == Some(e.frame)
  {
    var a := Low(arch, va);
    LowOfCanonical(arch, va);
    NoPageAtTop(arch, mem, place, root, a);
    SoftTableInTree(arch, mem, place, root, 3, a);
    NextTableInTree(arch, mem, place, root, 3, a);
    WholeIsWalkFrom(arch, mem, place, root, a);
    WalkReaches(arch, mem, place, root, Top(arch), 3, a);
  }

  /** Such tables exist: one 1GiB page at address 0, mapped to the second gigabyte. */
  lemma TranslateMissesAnInput(flags: Flags)
    ensures var mem := map[0 := ZeroTable(Sv39)[0 := PageEntry(Sv39, 3, 0x4_0000, flags)], 0x4_0000 := ZeroTable(Sv39)];
            && Tree(Sv39, mem, map[Key(3, 0) := 0], 0)
            && Translate(Sv39, mem, 0, 0) == None
            && AddressOf(HardwareWalk(Sv39, mem, 0, 0)) == Some(0x4000_0000)
  {
    var mem: Memory := map[0 := ZeroTable(Sv39)[0 := PageEntry(Sv39, 3, 0x4_0000, flags)], 0x4_0000 := ZeroTable(Sv39)];
    var place: Place := map[Key(3, 0) := 0];
    assert Canonical(Sv39, 0) && Low(Sv39, 0) == 0 && Index(3, 0) == 0 && KeyOf(3, 0) == Key(3, 0);
    assert Tree(Sv39, mem, place, 0);
    TranslateMissesLargePage(Sv39, mem, place, 0, 0);
  }

  lemma TranslateInAgrees(arch: Arch, mem: Memory, place: Place, root: nat, a: nat, va: nat)
    requires Tree(arch, mem, place, root) && KeyOf(2, a) in place
    requires a % PageSize(1) == va % PageSize(1) && a % PageSize(2) == va % PageSize(2)
    ensures TranslateIn(mem, place[KeyOf(2, a)], a, va) == AddressOf(WalkFrom(mem, place, 2, a))
  {
    NextTableInTree(arch, mem, place, root, 2, a);
    if KeyOf(1, a) in place {
      LastTable(arch, mem, place, root, a);
    }
  }

  /** A table of level 1 decides its pages: an entry with an address is a page. */
  lemma LastTable(arch: Arch, mem: Memory, place: Place, root: nat, a: nat)
    requires Tree(arch, mem, place, root) && KeyOf(1, a) in place
    ensures IsTable(mem, place[KeyOf(1, a)])
    ensures var e := mem[place[KeyOf(1, a)]][Index(1, a)];
            && (HasAddress(e) <==> e != Unused(arch))
            && AddressOf(WalkFrom(mem, place, 1, a))
               == if e == Unused(arch) then None else Some(e.frame * FRAME + a % PageSize(1))
  {
    NextTableInTree(arch, mem, place, root, 1, a);
  }

  /** Where the tables reach down to level 1, no large page covers the address. */
  lemma TablePathIsSmall(arch: Arch, mem: Memory, place: Place, root: nat, a: nat)
    requires Tree(arch, mem, place, root) && KeyOf(1, a) in place
    ensures !LargePageCovers(arch, mem, place, a)
  {
    WalkReaches(arch, mem, place, root, 2, 1, a);
    ChildKey(2, a);
    ChildKey(3, a);
    assert Parent(KeyOf(2, a)) in place;
    assert EntryInTree(arch, mem, place, KeyOf(2, a), Index(2, a));
    assert EntryInTree(arch, mem, place, KeyOf(3, a), Index(3, a));
    ReadBuilt(arch, 2, mem[place[KeyOf(2, a)]][Index(2, a)]);
    ReadBuilt(arch, 3, mem[place[KeyOf(3, a)]][Index(3, a)]);
  }

  /** The addresses of one page have lost their translation; no other address changed. */
  ghost predicate Unmaps(arch: Arch, root: nat, mem: Memory, mem': Memory, page: nat, size: nat) {
    forall va: nat ::
      HardwareWalk(arch, mem', root, va) == if InPage(va, page, size) then None else HardwareWalk(arch, mem, root, va)
  }

  /** The `next_table` steps of `unmap` lead to the slot that decides the page, or the page is not mapped. */
  lemma SmallPathDecides(arch: Arch, mem: Memory, place: Place, root: nat, page: nat)
    requires Tree(arch, mem, place, root) && Canonical(arch, page) && page % FRAME == 0
    requires !LargePageCovers(arch, mem, place, Low(arch, page))
    ensures var a := Low(arch, page);
            var t := SoftTable(arch, mem, root, 1, a);
            if t.None? then HardwareWalk(arch, mem, root, page) == None
            else
              && KeyOf(1, a) in place && place[KeyOf(1, a)] == t.value && IsTable(mem, t.value)
              && var e := mem[t.value][Index(1, a)];
                 && (HasAddress(e) <==> e != Unused(arch))
                 && AddressOf(HardwareWalk(arch, mem, root, page)) == if e == Unused(arch) then None else Some(e.frame * FRAME)
  {
    var a := Low(arch, page);
    LowOfCanonical(arch, page);
    LowOffset(arch, 1, page);
    NoPageAtTop(arch, mem, place, root, a);
    SoftTableInTree(arch, mem, place, root, 1, a);
    if KeyOf(1, a) in place {
      LastTable(arch, mem, place, root, a);
    }
  }

  /** A 4KiB page is translated as a whole or not at all. */
  lemma UnmappedWhole(arch: Arch, mem: Memory, place: Place, root: nat, page: nat)
    requires Tree(arch, mem, place, root) && Canonical(arch, page) && page % FRAME == 0
    requires HardwareWalk(arch, mem, root, page) == None
    ensures Unmaps(arch, root, mem, mem, page, FRAME)
  {
    var a := Low(arch, page);
    LowOfCanonical(arch, page);
    WholeIsWalkFrom(arch, mem, place, root, a);
    forall va: nat | InPage(va, page, FRAME)
      ensures HardwareWalk(arch, mem, root, va) == None
    {
      if Canonical(arch, va) {
        LowOfCanonical(arch, va);
        PageOfCanonical(arch, 1, page, va);
        WholeIsWalkFrom(arch, mem, place, root, Low(arch, va));
        WalkOfPage(arch, mem, place, root, Top(arch), a, Low(arch, va));
      }
    }
  }

  /** Addresses of one 4KiB page are translated or not translated together. */
  lemma {:induction false} WalkOfPage(arch: Arch, mem: Memory, place: Place, root: nat, level: nat, a: nat, b: nat)
    requires Tree(arch, mem, place, root) && 1 <= level <= Top(arch) && a / FRAME == b / FRAME
    requires KeyOf(level, a) in place && WalkFrom(mem, place, level, a) == None
    ensures KeyOf(level, b) == KeyOf(level, a) && WalkFrom(mem, place, level, b) == None
    decreases level
  {
    SamePath(level, a, b);
    WalkStep(arch, mem, place, root, level, a);
    WalkStep(arch, mem, place, root, level, b);
    if LeadsToTable(arch, level, mem[place[KeyOf(level, a)]][Index(level, a)]) {
      WalkOfPage(arch, mem, place, root, level - 1, a, b);
    }
  }

  lemma SamePath(level: nat, a: nat, b: nat)
    requires 1 <= level <= 4 && a / FRAME == b / FRAME
    ensures KeyOf(level, a) == KeyOf(level, b) && Index(level, a) == Index(level, b)
    decreases level
  {
    Digit(level, a);
    Digit(level, b);
    if level > 1 {
      Digit(level - 1, a);
      Digit(level - 1, b);
      SamePath(level - 1, a, b);
    }
  }

  lemma ClearPage(arch: Arch, mem: Memory, place: Place, root: nat, page: nat)
    requires Tree(arch, mem, place, root) && Canonical(arch, page) && page % FRAME == 0
    requires KeyOf(1, Low(arch, page)) in place
    ensures var a := Low(arch, page);
            var mem' := SetEntry(mem, place[KeyOf(1, a)], Index(1, a), Unused(arch));
            Tree(arch, mem', place, root) && Unmaps(arch, root, mem, mem', page, FRAME)
  {
    var a := Low(arch, page);
    var k := KeyOf(1, a);
    var i := Index(1, a);
    var mem' := SetEntry(mem, place[k], i, Unused(arch));
    assert EntryInTree(arch, mem, place, k, i);
    ReplaceKeepsTree(arch, mem, place, root, k, i, Unused(arch));
    forall va: nat
      ensures HardwareWalk(arch, mem', root, va)
              == if InPage(va, page, FRAME) then None else HardwareWalk(arch, mem, root, va)
    {
      if Canonical(arch, va) {
        PageSlot(arch, 1, page, va);
        ReplaceWalk(arch, mem, place, root, k, i, Unused(arch), Low(arch, va));
      }
    }
  }

  /** The pages of a range are aligned, and the last one ends where the range does. */
  lemma PageInRange(level: nat, start: nat, done: nat, bytes: nat)
    requires 1 <= level <= 3 && start % PageSize(level) == 0
    requires done % PageSize(level) == 0 && bytes % PageSize(level) == 0 && done < bytes
    ensures (start + done) % PageSize(level) == 0
    ensures done + PageSize(level) <= bytes && (done + PageSize(level)) % PageSize(level) == 0
  {
    var m := PageSize(level);
    Multiples(m, done, bytes);
    Multiples(m, start + done, done);
    Multiples(m, done + m, m);
  }

  /** The most frames for tables that mapping `bytes` bytes with pages of one level can take. */
  function Demand(arch: Arch, level: nat, bytes: nat): nat
    requires 1 <= level <= 3
  {
    bytes / PageSize(level) * (Top(arch) - level)
  }

  predicate OfPages(runs: seq<Run>) {
    forall i | 0 <= i < |runs| :: 1 <= runs[i].level <= 3
  }

  /** The most frames for tables that all the runs can take. */
  function DemandOf(arch: Arch, runs: seq<Run>): nat
    requires OfPages(runs)
  {
    if runs == [] then 0
    else DemandOf(arch, runs[..|runs| - 1]) + Demand(arch, runs[|runs| - 1].level, runs[|runs| - 1].bytes)
  }

  lemma DemandAdds(arch: Arch, runs: seq<Run>, run: Run)
    requires OfPages(runs) && 1 <= run.level <= 3
    ensures OfPages(runs + [run])
    ensures DemandOf(arch, runs + [run]) == DemandOf(arch, runs) + Demand(arch, run.level, run.bytes)
  {
    assert (runs + [run])[..|runs|] == runs;
  }

  lemma DemandGrows(arch: Arch, level: nat, done: nat, bytes: nat)
    requires 1 <= level <= 3 && done < bytes && done % PageSize(level) == 0 && bytes % PageSize(level) == 0
    ensures Demand(arch, level, done) + Top(arch) - level == Demand(arch, level, done + PageSize(level))
    ensures Demand(arch, level, done + PageSize(level)) <= Demand(arch, level, bytes)
  {
    var m, d, b := PageSize(level), done / PageSize(level), bytes / PageSize(level);
    assert done == d * m && bytes == b * m;
    DivUnique(done + m, m, d + 1);
    ProductOrder(b, d, m);
    ProductUp(d + 1, b, Top(arch) - level);
  }

  class PageTableImpl {
    const arch: Arch
    const root: nat
    // Physical memory, as far as it holds tables
    var mem: Memory
    // The frames the allocator passed to `map` and `map_area` will hand out, in order
    var pool: seq<nat>
    ghost var place: Place

    /** `Built`, phrased so that the verifier looks inside only where the tree is taken apart. */
    ghost predicate Valid()
      reads this
    {
      forall m | m == mem :: Built(arch, m, place, root, pool)
    }

    /** What the processor makes of `va` with these tables installed. */
    ghost function Hw(va: nat): Option<Translation>
      reads this
    {
      HardwareWalk(arch, mem, root, va)
    }

    /** `PageTableImpl::new`: zeroes the top-level table in `frame`, so that nothing is mapped. */
    constructor (arch: Arch, frame: nat, mem: Memory, pool: seq<nat>)
      requires FreshPool(map[Key(Top(arch), 0) := frame], pool)
      ensures Valid() && this.arch == arch && root == frame && this.pool == pool
      ensures forall va: nat :: Hw(va) == None
    {
      this.arch := arch;
      root := frame;
      this.mem := mem[frame := ZeroTable(arch)];
      this.pool := pool;
      place := map[Key(Top(arch), 0) := frame];
      new;
      assert Tree(arch, this.mem, place, root);
      forall va: nat
        ensures Hw(va) == None
      {
        if Canonical(arch, va) {
          LowOfCanonical(arch, va);
          RootKey(arch, Low(arch, va));
          EntryWalk(arch, this.mem, place, root, Key(Top(arch), 0), Index(Top(arch), Low(arch, va)), va);
        }
      }
    }

    /**
      `next_table_create`: the table behind entry `index` of `table`, created empty if there was
      nothing there. Creating it changes no translation; a large page in the way is reported.
    */
    method NextTableCreate(table: nat, index: nat, ghost k: Key) returns (r: TableResult)
      requires Valid() && k in place && place[k] == table && k.level > 1 && index < 512
      modifies this`mem, this`pool, this`place
      ensures Valid()
      ensures SameWalks(arch, root, old(mem), mem)
      ensures r.Next? ==> place == old(place)[Child(k, index) := r.table]
      ensures r.Next? && Child(k, index) in old(place) ==> place == old(place)
      ensures !r.Next? ==> place == old(place) && Child(k, index) !in place
      ensures !r.Next? ==> SlotTranslates(arch, root, mem, k, index, r.Occupied?)
      ensures |old(pool)| <= |pool| + 1 && (r.Exhausted? ==> old(pool) == [])
    {
      assert Built(arch, mem, place, root, pool);
      var e := mem[table][index];
      assert EntryInTree(arch, mem, place, k, index);
      ReadBuilt(arch, k.level, e);
      if !HasAddress(e) {
        if pool == [] {
          SlotTranslatesByEntry(arch, mem, place, root, k, index);
          return Exhausted;
        }
        HangTable(arch, mem, place, root, pool, k, index);
        var f := pool[0];
        pool := pool[1..];
        mem := SetEntry(mem, table, index, TableEntry(arch, f));
        mem := mem[f := ZeroTable(arch)];
        place := place[Child(k, index) := f];
        r := Next(f);
      } else if IsLargePage(e) {
        SlotTranslatesByEntry(arch, mem, place, root, k, index);
        r := Occupied;
      } else {
        assert place == place[Child(k, index) := e.frame];
        r := Next(e.frame);
      }
    }

    /** One call of the chain, told by the address on whose behalf it is made. */
    method StepDown(table: nat, level: nat, a: nat) returns (r: TableResult)
      requires Valid() && 2 <= level <= 4 && KeyOf(level, a) in place && place[KeyOf(level, a)] == table
      modifies this`mem, this`pool, this`place
      ensures Valid()
      ensures SameWalks(arch, root, old(mem), mem)
      ensures Grows(old(place), place, level - 1)
      ensures r.Next? ==> KeyOf(level - 1, a) in place && place[KeyOf(level - 1, a)] == r.table
      ensures !r.Next? ==> Blocked(arch, root, mem, place, level, a, r.Occupied?)
      ensures |old(pool)| <= |pool| + 1 && (r.Exhausted? ==> old(pool) == [])
    {
      ChildKey(level, a);
      r := NextTableCreate(table, Index(level, a), KeyOf(level, a));
    }

    /** The chain of `next_table_create` calls of `map`: the table of the given level on the way to `a`. */
    method TableFor(level: nat, a: nat) returns (r: TableResult)
      requires Valid() && 1 <= level <= 3 && a < PageSize(Top(arch) + 1)
      modifies this`mem, this`pool, this`place
      ensures Valid()
      ensures SameWalks(arch, root, old(mem), mem)
      ensures Grows(old(place), place, level)
      ensures r.Next? ==> KeyOf(level, a) in place && place[KeyOf(level, a)] == r.table
      ensures !r.Next? ==> exists l | level < l <= 4 :: Blocked(arch, root, mem, place, l, a, r.Occupied?)
      ensures |old(pool)| <= |pool| + Top(arch) - level && (r.Exhausted? ==> |old(pool)| < Top(arch) - level)
    {
      assert KeyOf(Top(arch), a) in place && place[KeyOf(Top(arch), a)] == root by {
        assert Built(arch, mem, place, root, pool);
        RootKey(arch, a);
      }
      r := Next(root);
      if Top(arch) == 4 {
        r := StepDown(r.table, 4, a);
        if !r.Next? {
          return;
        }
      }
      if level <= 2 {
        r := StepDown(r.table, 3, a);
        if !r.Next? {
          return;
        }
      }
      if level == 1 {
        r := StepDown(r.table, 2, a);
      }
    }

    /**
      `map` for a page of the given level (4KiB, 2MiB or 1GiB). On success exactly the addresses of
      the page translate differently, to the frame and with the permissions asked for, and none of
      them was translated before. A failed call changes no translation. `AlreadyMapped` is reported
      exactly when the page was translated or a table for smaller pages sat in its slot.
    */
    method Map(level: nat, page: nat, physical: nat, flags: Flags) returns (r: MapResult)
      requires Valid() && 1 <= level <= 3 && Canonical(arch, page)
      requires page % PageSize(level) == 0 && physical % PageSize(level) == 0
      modifies this`mem, this`pool, this`place
      ensures Valid()
      ensures r.Mapped? ==> Maps(arch, root, old(mem), mem, page, PageSize(level), physical, flags)
      ensures !r.Mapped? ==> SameWalks(arch, root, old(mem), mem)
      ensures r.AlreadyMapped? <==> old(Hw(page)) != None || KeyOf(level - 1, Low(arch, page)) in old(place)
      ensures r.Mapped? ==> KeyOf(level, Low(arch, page)) in place
      ensures |old(pool)| <= |pool| + Top(arch) - level && (r.OutOfFrames? ==> |old(pool)| < Top(arch) - level)
    {
      LowOfCanonical(arch, page);
      var a := Low(arch, page);
      var t := TableFor(level, a);
      assert Hw(page) == old(Hw(page));
      if !t.Next? {
        ghost var l :| level < l <= 4 && Blocked(arch, root, mem, place, l, a, t.Occupied?);
        MissingBelow(level, l - 1, a);
        return if t.Occupied? then AlreadyMapped else OutOfFrames;
      }
      var i := Index(level, a);
      SlotState(level, page);
      if IsTaken(mem[t.table][i]) {
        return AlreadyMapped;
      }
      WriteSlot(level, page, physical, flags);
      mem := SetEntry(mem, t.table, i, PageEntry(arch, level, physical / FRAME, flags));
      r := Mapped;
    }

    /** `map_range`: maps `bytes` bytes with pages of one size, stopping at the first page that fails. */
    method MapRange(level: nat, start: nat, physical: nat, bytes: nat, flags: Flags) returns (r: MapResult)
      requires Valid() && 1 <= level <= 3 && InOneHalf(arch, start, bytes)
      requires start % PageSize(level) == 0 && physical % PageSize(level) == 0 && bytes % PageSize(level) == 0
      modifies this`mem, this`pool, this`place
      ensures Valid()
      ensures r.Mapped? ==> Maps(arch, root, old(mem), mem, start, bytes, physical, flags)
      ensures !r.Mapped? ==> Adds(arch, root, old(mem), mem, start, bytes, physical, flags)
      ensures r.Mapped? ==> |old(pool)| <= |pool| + Demand(arch, level, bytes)
      ensures r.OutOfFrames? ==> |old(pool)| < Demand(arch, level, bytes)
    {
      var done := 0;
      while done < bytes
        invariant Valid() && done <= bytes && done % PageSize(level) == 0
        invariant Maps(arch, root, old(mem), mem, start, done, physical, flags)
        invariant |old(pool)| <= |pool| + Demand(arch, level, done)
      {
        ghost var before := mem;
        DemandGrows(arch, level, done, bytes);
        PageInRange(level, start, done, bytes);
        PageInRange(level, physical, done, bytes);
        r := Map(level, start + done, physical + done, flags);
        if !r.Mapped? {
          MapsThenAdds(arch, root, old(mem), before, mem, start, done, bytes - done, bytes, physical, flags);
          return;
        }
        MapsThenMaps(arch, root, old(mem), before, mem, start, done, PageSize(level), physical, flags);
        done := done + PageSize(level);
      }
      r := Mapped;
    }

    /**
      `map_area`: on success the whole area was untranslated before, translates to the physical area
      with the permissions asked for now, and no other address changed. When it stops part-way, no
      translation that existed before has been touched. The runs it maps are those of `Plan`.
    */
    method MapArea(start: nat, physical: nat, size: nat, flags: Flags) returns (r: MapResult, ghost runs: seq<Run>)
      requires Valid() && InOneHalf(arch, start, size) && PageAligned(start, physical, size)
      requires SmallPagesOnly(start, physical, size) || start + size != Half(arch)
      modifies this`mem, this`pool, this`place
      ensures Valid()
      ensures r.Mapped? ==> Maps(arch, root, old(mem), mem, start, size, physical, flags)
      ensures !r.Mapped? ==> Adds(arch, root, old(mem), mem, start, size, physical, flags)
      ensures runs <= Plan(start, physical, size)
      ensures r.Mapped? ==> runs == Plan(start, physical, size)
      ensures OfPages(runs) && (r.OutOfFrames? ==> |old(pool)| < DemandOf(arch, runs))
    {
      if size < MIB2 || AbsDifference(physical, start) % MIB2 != 0 {
        runs := [Run(1, start, size)];
        DemandAdds(arch, [], Run(1, start, size));
        r := MapRange(1, start, physical, size, flags);
        return;
      }
      r, runs := MapLoop(start, physical, size, flags);
    }

    /** The loop of `map_area`. */
    method MapLoop(start: nat, physical: nat, size: nat, flags: Flags) returns (r: MapResult, ghost runs: seq<Run>)
      requires Valid() && InOneHalf(arch, start, size) && PageAligned(start, physical, size)
      requires start + size != Half(arch)
      modifies this`mem, this`pool, this`place
      ensures Valid()
      ensures r.Mapped? ==> Maps(arch, root, old(mem), mem, start, size, physical, flags)
      ensures !r.Mapped? ==> Adds(arch, root, old(mem), mem, start, size, physical, flags)
      ensures runs <= Loop(start, physical, size)
      ensures r.Mapped? ==> runs == Loop(start, physical, size)
      ensures OfPages(runs) && (r.OutOfFrames? ==> |old(pool)| < DemandOf(arch, runs))
    {
      var cursor: nat, cursorPhysical: nat, left: nat := start, physical, size;
      runs := [];
      ghost var plan := Loop(start, physical, size);
      r := Mapped;
      while left > 0
        invariant Valid() && r == Mapped && left <= size
        invariant cursor + left == start + size && cursorPhysical + left == physical + size
        invariant PageAligned(cursor, cursorPhysical, left)
        invariant Maps(arch, root, old(mem), mem, start, size - left, physical, flags)
        invariant runs + Loop(cursor, cursorPhysical, left) == plan
        invariant OfPages(runs) && |old(pool)| <= |pool| + DemandOf(arch, runs)
        decreases left
      {
        PlanAdvances(runs, cursor, cursorPhysical, left);
        var run := NextRun(cursor, cursorPhysical, left);
        r := MapNext(cursor, cursorPhysical, left, run, flags, start, physical, size, old(mem), runs, |old(pool)|);
        runs := runs + [run];
        cursor, cursorPhysical, left := cursor + run.bytes, cursorPhysical + run.bytes, left - run.bytes;
        if !r.Mapped? {
          return;
        }
      }
    }

    /**
      One turn of the loop of `map_area`, with `left` bytes to go since the tables were `first` and the
      allocator had `frames` frames, and with `runs` mapped so far.
    */
    method MapNext(cursor: nat, cursorPhysical: nat, left: nat, run: Run, flags: Flags,
                   ghost start: nat, ghost physical: nat, ghost size: nat, ghost first: Memory, ghost runs: seq<Run>,
                   ghost frames: nat) returns (r: MapResult)
      requires Valid() && InOneHalf(arch, start, size) && 0 < left <= size
      requires cursor + left == start + size && cursorPhysical + left == physical + size
      requires PageAligned(cursor, cursorPhysical, left) && run == NextRun(cursor, cursorPhysical, left)
      requires Maps(arch, root, first, mem, start, size - left, physical, flags)
      requires OfPages(runs) && frames <= |pool| + DemandOf(arch, runs)
      modifies this`mem, this`pool, this`place
      ensures Valid() && 0 < run.bytes <= left
      ensures r.Mapped? ==> Maps(arch, root, first, mem, start, size - left + run.bytes, physical, flags)
      ensures !r.Mapped? ==> Adds(arch, root, first, mem, start, size, physical, flags)
      ensures OfPages(runs + [run])
      ensures r.Mapped? ==> frames <= |pool| + DemandOf(arch, runs + [run])
      ensures r.OutOfFrames? ==> frames < DemandOf(arch, runs + [run])
    {
      ghost var before := mem;
      NextRunFits(cursor, cursorPhysical, left);
      DemandAdds(arch, runs, run);
      r := MapRange(run.level, cursor, cursorPhysical, run.bytes, flags);
      if r.Mapped? {
        MapsThenMaps(arch, root, first, before, mem, start, size - left, run.bytes, physical, flags);
      } else {
        MapsThenAdds(arch, root, first, before, mem, start, size - left, run.bytes, size, physical, flags);
      }
    }

    /**
      `unmap` of a 4KiB page. It follows addresses without looking for large pages, so none may cover
      the page. Then it returns the frame the page was mapped to, if it was, and afterwards exactly the
      addresses of that page have lost their translation.
    */
    method Unmap(page: nat) returns (r: Option<nat>)
      requires Valid() && Canonical(arch, page) && page % FRAME == 0
      requires !LargePageCovers(arch, mem, place, Low(arch, page))
      modifies this`mem
      ensures Valid()
      ensures r == AddressOf(old(Hw(page)))
      ensures Unmaps(arch, root, old(mem), mem, page, FRAME)
    {
      var a := Low(arch, page);
      assert Built(arch, mem, place, root, pool);
      SmallPathDecides(arch, mem, place, root, page);
      var p1 := SoftTable(arch, mem, root, 1, a);
      if p1.None? {
        UnmappedWhole(arch, mem, place, root, page);
        return None;
      }
      var e := mem[p1.value][Index(1, a)];
      if !HasAddress(e) {
        UnmappedWhole(arch, mem, place, root, page);
        return None;
      }
      ClearPage(arch, mem, place, root, page);
      mem := SetEntry(mem, p1.value, Index(1, a), Unused(arch));
      assert Built(arch, mem, place, root, pool);
      r := Some(e.frame * FRAME);
    }

    /** Mapping a 4KiB page and unmapping it again returns its frame and restores every translation. */
    method MapThenUnmap(page: nat, physical: nat, flags: Flags) returns (m: MapResult, u: Option<nat>)
      requires Valid() && Canonical(arch, page) && page % FRAME == 0 && physical % FRAME == 0
      modifies this`mem, this`pool, this`place
      ensures Valid() && SameWalks(arch, root, old(mem), mem)
      ensures m.Mapped? ==> u == Some(physical)
    {
      u := None;
      m := Map(1, page, physical, flags);
      if m.Mapped? {
        assert Built(arch, mem, place, root, pool);
        TablePathIsSmall(arch, mem, place, root, Low(arch, page));
        u := Unmap(page);
      }
    }

    lemma MissingBelow(level: nat, missing: nat, a: nat)
      requires Valid() && 1 <= level <= missing <= Top(arch) && KeyOf(missing, a) !in place
      ensures KeyOf(level - 1, a) !in place
    {
      assert Built(arch, mem, place, root, pool);
      NoPathBelow(arch, mem, place, root, level, missing, a);
    }

    lemma SlotState(level: nat, page: nat)
      requires Valid() && 1 <= level <= 3 && Canonical(arch, page) && KeyOf(level, Low(arch, page)) in place
      ensures var table := place[KeyOf(level, Low(arch, page))];
              && IsTable(mem, table)
              && (IsTaken(mem[table][Index(level, Low(arch, page))])
                  <==> Hw(page) != None || KeyOf(level - 1, Low(arch, page)) in place)
              && (!IsTaken(mem[table][Index(level, Low(arch, page))])
                  ==> mem[table][Index(level, Low(arch, page))] == Unused(arch))
    {
      var a := Low(arch, page);
      assert Built(arch, mem, place, root, pool);
      assert EntryInTree(arch, mem, place, KeyOf(level, a), Index(level, a));
      ReadBuilt(arch, level, mem[place[KeyOf(level, a)]][Index(level, a)]);
      TakenSlot(arch, mem, place, root, level, page);
    }

    lemma WriteSlot(level: nat, page: nat, physical: nat, flags: Flags)
      requires Valid() && 1 <= level <= 3 && Canonical(arch, page)
      requires page % PageSize(level) == 0 && physical % PageSize(level) == 0
      requires KeyOf(level, Low(arch, page)) in place && IsTable(mem, place[KeyOf(level, Low(arch, page))])
      requires mem[place[KeyOf(level, Low(arch, page))]][Index(level, Low(arch, page))] == Unused(arch)
      ensures var mem' := SetEntry(mem, place[KeyOf(level, Low(arch, page))], Index(level, Low(arch, page)),
                                   PageEntry(arch, level, physical / FRAME, flags));
              && (forall m | m == mem' :: Built(arch, m, place, root, pool))
              && Maps(arch, root, mem, mem', page, PageSize(level), physical, flags)
    {
      assert Built(arch, mem, place, root, pool);
      WritePage(arch, mem, place, root, pool, level, page, physical, flags);
    }
  }
}
