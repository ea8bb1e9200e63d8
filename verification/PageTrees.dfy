/**
  The shape of the page tables in physical memory. Each table has a place in the tree, named by its
  level and by the address bits above the ones it translates; no two places share a frame. The lemmas
  say what changing one entry of such a tree does to the processor's walk of every address.
*/
module PageTrees {
  import opened Numbers
  import opened Options
  import opened PageEntries

  /** The place of a table: it translates the addresses `a` with `a / PageSize(level + 1) == prefix`. */
  datatype Key = Key(level: nat, prefix: nat)

  type Place = map<Key, nat>

  function KeyOf(level: nat, a: nat): Key {
    Key(level, a / PageSize(level + 1))
  }

  function Child(k: Key, i: nat): Key
    requires 0 < k.level
  {
    Key(k.level - 1, k.prefix * 512 + i)
  }

  function Parent(k: Key): Key {
    Key(k.level + 1, k.prefix / 512)
  }

  /** Entry `i` of the table at `k` has a form this code writes, and points where the tree says. */
  ghost predicate EntryInTree(arch: Arch, mem: Memory, place: Place, k: Key, i: nat)
    requires k in place && IsTable(mem, place[k]) && 1 <= k.level && i < 512
  {
    var e := mem[place[k]][i];
    && BuiltEntry(arch, k.level, e)
    && (k.level > 1 ==> (LeadsToTable(arch, k.level, e) <==> Child(k, i) in place))
    && (LeadsToTable(arch, k.level, e) ==> place[Child(k, i)] == e.frame)
  }

  ghost predicate Places(arch: Arch, mem: Memory, place: Place, root: nat) {
    && Key(Top(arch), 0) in place && place[Key(Top(arch), 0)] == root
    && (forall k | k in place :: 1 <= k.level <= Top(arch) && IsTable(mem, place[k]))
    && (forall j, k | j in place && k in place && place[j] == place[k] :: j == k)
    && (forall k | k in place && k.level < Top(arch) :: Parent(k) in place)
  }

  ghost predicate Tree(arch: Arch, mem: Memory, place: Place, root: nat) {
    && Places(arch, mem, place, root)
    && forall k, i | k in place && 0 <= i < 512 :: EntryInTree(arch, mem, place, k, i)
  }

  // ---------------------------------------------------------------------------------------------
  // Addresses and places
  // ---------------------------------------------------------------------------------------------

  lemma Digit(level: nat, a: nat)
    requires 1 <= level <= 4
    ensures a / PageSize(level) / 512 == a / PageSize(level + 1)
    ensures a / PageSize(level) == a / PageSize(level + 1) * 512 + Index(level, a)
  {
  }

  lemma ChildKey(level: nat, a: nat)
    requires 1 <= level <= 4
    ensures KeyOf(level - 1, a).prefix == Child(KeyOf(level, a), Index(level, a)).prefix == a / PageSize(level)
    ensures level > 1 ==> KeyOf(level - 1, a) == Child(KeyOf(level, a), Index(level, a))
    ensures level < 4 ==> Parent(KeyOf(level, a)) == KeyOf(level + 1, a)
  {
    Digit(level, a);
    if level < 4 {
      Digit(level + 1, a);
    }
  }

  lemma RootKey(arch: Arch, a: nat)
    requires a < PageSize(Top(arch) + 1)
    ensures KeyOf(Top(arch), a) == Key(Top(arch), 0)
  {
  }

  /** The walk of `a` passes through entry `i` of the table at `k`, if it gets that far. */
  predicate OnSlot(k: Key, i: nat, a: nat) {
    KeyOf(k.level, a) == k && Index(k.level, a) == i
  }

  /** Two addresses go through the same slot exactly when they lie in the same page of its level. */
  lemma SameSlot(level: nat, a: nat, b: nat)
    requires 1 <= level <= 4
    ensures OnSlot(KeyOf(level, a), Index(level, a), b) <==> a / PageSize(level) == b / PageSize(level)
  {
    Digit(level, a);
    Digit(level, b);
  }

  // ---------------------------------------------------------------------------------------------
  // Walks
  // ---------------------------------------------------------------------------------------------

  function WalkFrom(mem: Memory, place: Place, level: nat, a: nat): Option<Translation>
    requires KeyOf(level, a) in place
  {
    Walk(mem, level, place[KeyOf(level, a)], a, FULL)
  }

  function PagePerm(level: nat, e: Entry): Perm {
    if Read(level, e).Final? then Read(level, e).perm else FULL
  }

  /** One step of the walk, told by places. */
  lemma WalkStep(arch: Arch, mem: Memory, place: Place, root: nat, level: nat, a: nat)
    requires Tree(arch, mem, place, root) && 1 <= level <= Top(arch) && KeyOf(level, a) in place
    ensures var e := mem[place[KeyOf(level, a)]][Index(level, a)];
            if LeadsToTable(arch, level, e) then
              KeyOf(level - 1, a) in place && WalkFrom(mem, place, level, a) == WalkFrom(mem, place, level - 1, a)
            else
              && (level > 1 ==> KeyOf(level - 1, a) !in place)
              && WalkFrom(mem, place, level, a)
                 == if e == Unused(arch) then None
                    else Some(Translation(e.frame * FRAME + a % PageSize(level), PagePerm(level, e)))
  {
    var k := KeyOf(level, a);
    var i := Index(level, a);
    assert EntryInTree(arch, mem, place, k, i);
    ReadBuilt(arch, level, mem[place[k]][i]);
    ChildKey(level, a);
  }

  /** Every table is reached by the walk of the addresses it translates. */
  lemma {:induction false} WalkReaches(arch: Arch, mem: Memory, place: Place, root: nat, level: nat, low: nat, a: nat)
    requires Tree(arch, mem, place, root) && 1 <= low <= level <= Top(arch) && KeyOf(low, a) in place
    ensures KeyOf(level, a) in place
    ensures WalkFrom(mem, place, level, a) == WalkFrom(mem, place, low, a)
    decreases level - low
  {
    if low < level {
      ChildKey(low, a);
      ChildKey(low + 1, a);
      assert Parent(KeyOf(low, a)) in place;
      WalkReaches(arch, mem, place, root, level, low + 1, a);
      WalkStep(arch, mem, place, root, low + 1, a);
    }
  }

  /** The two memories agree on every entry of every table, except perhaps entry `i` at `k`. */
  ghost predicate AgreeExcept(mem: Memory, mem': Memory, place: Place, k: Key, i: nat) {
    forall j | j in place ::
      && IsTable(mem, place[j]) && IsTable(mem', place[j])
      && forall n | 0 <= n < 512 && !(j == k && n == i) :: mem'[place[j]][n] == mem[place[j]][n]
  }

  /** Changing one slot changes the walk of no address that does not go through it. */
  lemma {:induction false} WalkOffSlot(arch: Arch, mem: Memory, mem': Memory, place: Place, root: nat,
                                       k: Key, i: nat, level: nat, a: nat)
    requires Tree(arch, mem, place, root) && AgreeExcept(mem, mem', place, k, i)
    requires 1 <= level <= Top(arch) && KeyOf(level, a) in place && !OnSlot(k, i, a)
    ensures WalkFrom(mem', place, level, a) == WalkFrom(mem, place, level, a)
    decreases level
  {
    var t := place[KeyOf(level, a)];
    var n := Index(level, a);
    assert mem'[t][n] == mem[t][n];
    WalkStep(arch, mem, place, root, level, a);
    var e := mem[t][n];
    ReadBuilt(arch, level, e) by { assert EntryInTree(arch, mem, place, KeyOf(level, a), n); }
    if LeadsToTable(arch, level, e) {
      WalkOffSlot(arch, mem, mem', place, root, k, i, level - 1, a);
      assert EntryInTree(arch, mem, place, KeyOf(level, a), n);
      ChildKey(level, a);
    }
  }

  /** The whole walk of a canonical address. */
  ghost function Whole(arch: Arch, mem: Memory, root: nat, a: nat): Option<Translation> {
    Walk(mem, Top(arch), root, a, FULL)
  }

  lemma WholeIsWalkFrom(arch: Arch, mem: Memory, place: Place, root: nat, a: nat)
    requires Places(arch, mem, place, root) && a < PageSize(Top(arch) + 1)
    ensures KeyOf(Top(arch), a) in place
    ensures Whole(arch, mem, root, a) == WalkFrom(mem, place, Top(arch), a)
  {
    RootKey(arch, a);
  }

  // ---------------------------------------------------------------------------------------------
  // Changing one entry
  // ---------------------------------------------------------------------------------------------

  function SetEntry(mem: Memory, table: nat, i: nat, e: Entry): Memory
    requires IsTable(mem, table) && i < 512
  {
    mem[table := mem[table][i := e]]
  }

  function ZeroTable(arch: Arch): seq<Entry> {
    seq(512, _ => Unused(arch))
  }

  /** Entry `i` at `k` holds no table, before or after. */
  ghost predicate NoTableThere(arch: Arch, mem: Memory, place: Place, k: Key, i: nat)
    requires k in place && IsTable(mem, place[k]) && 1 <= k.level && i < 512
  {
    BuiltEntry(arch, k.level, mem[place[k]][i]) && !LeadsToTable(arch, k.level, mem[place[k]][i])
  }

  /** Replacing one entry that is not a table pointer by another one keeps the tree. */
  lemma ReplaceKeepsTree(arch: Arch, mem: Memory, place: Place, root: nat, k: Key, i: nat, e: Entry)
    requires Tree(arch, mem, place, root) && k in place && i < 512
    requires NoTableThere(arch, mem, place, k, i)
    requires BuiltEntry(arch, k.level, e) && !LeadsToTable(arch, k.level, e)
    ensures Tree(arch, SetEntry(mem, place[k], i, e), place, root)
    ensures AgreeExcept(mem, SetEntry(mem, place[k], i, e), place, k, i)
  {
    var mem' := SetEntry(mem, place[k], i, e);
    forall j, n | j in place && 0 <= n < 512
      ensures EntryInTree(arch, mem', place, j, n)
    {
      assert EntryInTree(arch, mem, place, j, n);
    }
  }

  /** After writing a page into a slot, exactly the addresses of that page translate differently. */
  lemma ReplaceWalk(arch: Arch, mem: Memory, place: Place, root: nat, k: Key, i: nat, e: Entry, a: nat)
    requires Tree(arch, mem, place, root) && k in place && i < 512
    requires NoTableThere(arch, mem, place, k, i)
    requires BuiltEntry(arch, k.level, e) && !LeadsToTable(arch, k.level, e)
    requires a < PageSize(Top(arch) + 1)
    ensures var mem' := SetEntry(mem, place[k], i, e);
            Whole(arch, mem', root, a)
            == if !OnSlot(k, i, a) then Whole(arch, mem, root, a)
               else if e == Unused(arch) then None
               else Some(Translation(e.frame * FRAME + a % PageSize(k.level), PagePerm(k.level, e)))
  {
    var mem' := SetEntry(mem, place[k], i, e);
    ReplaceKeepsTree(arch, mem, place, root, k, i, e);
    WholeIsWalkFrom(arch, mem, place, root, a);
    WholeIsWalkFrom(arch, mem', place, root, a);
    if OnSlot(k, i, a) {
      SlotWalk(arch, mem', place, root, k, i, a);
    } else {
      WalkOffSlot(arch, mem, mem', place, root, k, i, Top(arch), a);
    }
  }

  /** What an address translates to, read off the slot its walk ends in. */
  lemma SlotWalk(arch: Arch, mem: Memory, place: Place, root: nat, k: Key, i: nat, a: nat)
    requires Tree(arch, mem, place, root) && k in place && i < 512 && OnSlot(k, i, a)
    requires NoTableThere(arch, mem, place, k, i)
    requires a < PageSize(Top(arch) + 1)
    ensures Whole(arch, mem, root, a)
            == var e := mem[place[k]][i];
               if e == Unused(arch) then None
               else Some(Translation(e.frame * FRAME + a % PageSize(k.level), PagePerm(k.level, e)))
  {
    WholeIsWalkFrom(arch, mem, place, root, a);
    WalkReaches(arch, mem, place, root, Top(arch), k.level, a);
    SlotStep(arch, mem, place, root, k, i, a);
  }

  lemma SlotStep(arch: Arch, mem: Memory, place: Place, root: nat, k: Key, i: nat, a: nat)
    requires Tree(arch, mem, place, root) && k in place && i < 512 && OnSlot(k, i, a)
    requires NoTableThere(arch, mem, place, k, i)
    ensures WalkFrom(mem, place, k.level, a)
            == var e := mem[place[k]][i];
               if e == Unused(arch) then None
               else Some(Translation(e.frame * FRAME + a % PageSize(k.level), PagePerm(k.level, e)))
  {
    WalkStep(arch, mem, place, root, k.level, a);
  }

  /** The memory after `next_table_create` put a zeroed table in frame `f` behind entry `i` at `k`. */
  function WithTable(arch: Arch, mem: Memory, table: nat, i: nat, f: nat): Memory
    requires IsTable(mem, table) && i < 512 && f != table
  {
    SetEntry(mem, table, i, TableEntry(arch, f))[f := ZeroTable(arch)]
  }

  /** Entry `i` of the table at `k` is unused, and `f` is a frame that holds no table yet. */
  ghost predicate CanHang(arch: Arch, mem: Memory, place: Place, root: nat, k: Key, i: nat, f: nat) {
    && Tree(arch, mem, place, root) && k in place && k.level > 1 && i < 512
    && mem[place[k]][i] == Unused(arch)
    && (forall j | j in place :: place[j] != f)
  }

  lemma AddTablePlaces(arch: Arch, mem: Memory, place: Place, root: nat, k: Key, i: nat, f: nat)
    requires CanHang(arch, mem, place, root, k, i, f)
    ensures Child(k, i) !in place
    ensures Places(arch, WithTable(arch, mem, place[k], i, f), place[Child(k, i) := f], root)
    ensures AgreeExcept(mem, WithTable(arch, mem, place[k], i, f), place, k, i)
  {
    assert EntryInTree(arch, mem, place, k, i);
    assert Parent(Child(k, i)) == k;
  }

  lemma ChildInjective(j: Key, n: nat, k: Key, i: nat)
    requires 0 < j.level && 0 < k.level && n < 512 && i < 512
    ensures Child(j, n) == Child(k, i) <==> j == k && n == i
  {
  }

  lemma AddTableOldEntry(arch: Arch, mem: Memory, place: Place, root: nat, k: Key, i: nat, f: nat, j: Key, n: nat)
    requires CanHang(arch, mem, place, root, k, i, f) && j in place && n < 512
    requires var mem' := WithTable(arch, mem, place[k], i, f);
             IsTable(mem', place[j]) && (!(j == k && n == i) ==> mem'[place[j]][n] == mem[place[j]][n])
    requires Child(k, i) !in place
    ensures EntryInTree(arch, WithTable(arch, mem, place[k], i, f), place[Child(k, i) := f], j, n)
  {
    assert EntryInTree(arch, mem, place, j, n);
    ChildInjective(j, n, k, i);
  }

  lemma AddTableNewEntry(arch: Arch, mem: Memory, place: Place, root: nat, k: Key, i: nat, f: nat, n: nat)
    requires CanHang(arch, mem, place, root, k, i, f) && n < 512 && Child(k, i) !in place
    ensures EntryInTree(arch, WithTable(arch, mem, place[k], i, f), place[Child(k, i) := f], Child(k, i), n)
  {
    var c := Child(k, i);
    if c.level > 1 {
      assert Parent(Child(c, n)) == c;
    }
  }

  /** Hanging an empty table into an unused slot keeps the tree. */
  lemma AddTableKeepsTree(arch: Arch, mem: Memory, place: Place, root: nat, k: Key, i: nat, f: nat)
    requires CanHang(arch, mem, place, root, k, i, f)
    ensures Child(k, i) !in place
    ensures Tree(arch, WithTable(arch, mem, place[k], i, f), place[Child(k, i) := f], root)
  {
    var mem' := WithTable(arch, mem, place[k], i, f);
    var c := Child(k, i);
    var place' := place[c := f];
    AddTablePlaces(arch, mem, place, root, k, i, f);
    forall j, n | j in place' && 0 <= n < 512
      ensures EntryInTree(arch, mem', place', j, n)
    {
      if j == c {
        AddTableNewEntry(arch, mem, place, root, k, i, f, n);
      } else {
        AddTableOldEntry(arch, mem, place, root, k, i, f, j, n);
      }
    }
  }

  /** Addresses that go through the new table were not translated before, and are not now. */
  lemma AddTableOnSlot(arch: Arch, mem: Memory, place: Place, root: nat, k: Key, i: nat, f: nat, a: nat)
    requires CanHang(arch, mem, place, root, k, i, f)
    requires a < PageSize(Top(arch) + 1) && OnSlot(k, i, a)
    ensures Whole(arch, WithTable(arch, mem, place[k], i, f), root, a) == None
  {
    AddTableKeepsTree(arch, mem, place, root, k, i, f);
    var mem' := WithTable(arch, mem, place[k], i, f);
    var place' := place[Child(k, i) := f];
    ChildKey(k.level, a);
    var n := Index(k.level - 1, a);
    assert mem'[f][n] == Unused(arch);
    SlotWalk(arch, mem', place', root, Child(k, i), n, a);
  }

  /** Hanging an empty table into an unused slot changes no translation. */
  lemma AddTableWalk(arch: Arch, mem: Memory, place: Place, root: nat, k: Key, i: nat, f: nat, a: nat)
    requires CanHang(arch, mem, place, root, k, i, f)
    requires a < PageSize(Top(arch) + 1)
    ensures Whole(arch, WithTable(arch, mem, place[k], i, f), root, a) == Whole(arch, mem, root, a)
  {
    if OnSlot(k, i, a) {
      AddTableOnSlot(arch, mem, place, root, k, i, f, a);
      SlotWalk(arch, mem, place, root, k, i, a);
    } else {
      AddTablePlaces(arch, mem, place, root, k, i, f);
      RootKey(arch, a);
      WalkOffSlot(arch, mem, WithTable(arch, mem, place[k], i, f), place, root, k, i, Top(arch), a);
    }
  }
}
