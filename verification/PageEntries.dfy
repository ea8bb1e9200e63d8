/**
  Page-table entries of the three formats the kernel builds (lib/hal_x86_64/src/paging.rs and
  lib/hal_riscv/src/paging.rs), and how the processor reads them: section 4.5 of the Intel SDM,
  Volume 3A, for x86_64, and sections 4.3.2, 4.4 and 4.5 of the RISC-V Privileged Architecture
  (20211203) for Sv39 and Sv48.

  An entry is its flag bits and its address field (as a frame number); `EntryWords` relates this to
  the 64-bit words.
*/
module PageEntries {
  import opened Numbers
  import opened Options
  import opened Blocks

  datatype Arch = X86_64 | Sv48 | Sv39

  /** Levels of tables: the tables of level 1 hold the 4KiB pages. */
  function Top(arch: Arch): nat {
    if arch.Sv39? then 3 else 4
  }

  /** The bytes one entry of a table of the given level covers: 4KiB, 2MiB, 1GiB, 512GiB. */
  function PageSize(level: nat): nat {
    if level <= 1 then 0x1000
    else if level == 2 then 0x20_0000
    else if level == 3 then 0x4000_0000
    else if level == 4 then 0x80_0000_0000
    else 0x1_0000_0000_0000
  }

  /** `p1_index` to `p4_index`: nine bits of the address for each level. */
  function Index(level: nat, a: nat): nat {
    a / PageSize(level) % 512
  }

  /** The indices are the digits of the address: together with the offset in the page they give it back. */
  lemma IndicesAreDigits(a: nat)
    ensures a % PageSize(5) ==
            Index(4, a) * PageSize(4) + Index(3, a) * PageSize(3) + Index(2, a) * PageSize(2) + Index(1, a) * PageSize(1)
            + a % PageSize(1)
  {
    OneDigit(a, PageSize(1));
    OneDigit(a, PageSize(2));
    OneDigit(a, PageSize(3));
    OneDigit(a, PageSize(4));
  }

  lemma OneDigit(a: nat, m: nat)
    requires m > 0
    ensures a % (512 * m) == a / m % 512 * m + a % m
  {
    var page, rest := a / m, a % m;
    var k, digit := page / 512, page % 512;
    assert a == page * m + rest;
    Distribute(k, digit, m);
    ProductGap(digit, 512, m);
    DivUnique(a, 512 * m, k);
  }

  lemma Distribute(k: nat, digit: nat, m: nat)
    ensures (k * 512 + digit) * m == k * (512 * m) + digit * m
  {
  }

  /** The permissions of a mapping, as the kernel asks for them (`hal::memory::Flags`). */
  datatype Flags = Flags(writable: bool, executable: bool, userAccessible: bool, cached: bool)

  datatype Entry =
    | X86Entry(present: bool, writable: bool, user: bool, noCache: bool, huge: bool, noExecute: bool, frame: nat)
    | RvEntry(valid: bool, readable: bool, writable: bool, executable: bool, user: bool,
              accessed: bool, dirty: bool, frame: nat)

  // ---------------------------------------------------------------------------------------------
  // What the kernel writes and tests
  // ---------------------------------------------------------------------------------------------

  /** The all-zero word. */
  function Unused(arch: Arch): Entry {
    if arch.X86_64? then X86Entry(false, false, false, false, false, false, 0)
    else RvEntry(false, false, false, false, false, false, false, 0)
  }

  /** The entry `next_table_create` writes for a new table. */
  function TableEntry(arch: Arch, frame: nat): Entry {
    if arch.X86_64? then X86Entry(true, true, true, false, false, false, frame)
    else RvEntry(true, false, false, false, false, false, false, frame)
  }

  /** The entry `map` writes for a page in a table of the given level. */
  function PageEntry(arch: Arch, level: nat, frame: nat, flags: Flags): Entry {
    if arch.X86_64? then
      X86Entry(true, flags.writable, flags.userAccessible, !flags.cached, level > 1, !flags.executable, frame)
    else
      RvEntry(true, true, flags.writable, flags.executable, flags.userAccessible, true, true, frame)
  }

  /** `address()` returns something: the entry is present (x86_64) or valid (RISC-V). */
  predicate HasAddress(e: Entry) {
    match e
    case X86Entry(present, _, _, _, _, _, _) => present
    case RvEntry(valid, _, _, _, _, _, _, _) => valid
  }

  /** The test that stops `next_table_create` from descending into a large page. */
  predicate IsLargePage(e: Entry) {
    match e
    case X86Entry(_, _, _, _, huge, _, _) => huge
    case RvEntry(valid, r, w, x, _, _, _, _) => valid && (r || w || x)
  }

  /** The test that makes `map` report `AlreadyMapped`: `!is_unused()` or `is_valid()`. */
  predicate IsTaken(e: Entry) {
    match e
    case X86Entry(_, _, _, _, _, _, _) => e != Unused(X86_64)
    case RvEntry(valid, _, _, _, _, _, _, _) => valid
  }

  // ---------------------------------------------------------------------------------------------
  // What the processor reads
  // ---------------------------------------------------------------------------------------------

  datatype Perm = Perm(readable: bool, writable: bool, executable: bool, user: bool, cached: bool)

  const FULL: Perm := Perm(true, true, true, true, true)

  function Meet(p: Perm, q: Perm): Perm {
    Perm(p.readable && q.readable, p.writable && q.writable, p.executable && q.executable,
         p.user && q.user, p.cached && q.cached)
  }

  datatype Reading = Fault | Descend(frame: nat, allow: Perm) | Final(frame: nat, perm: Perm)

  /** A large page must start at a multiple of its size. */
  predicate FrameAligned(level: nat, frame: nat) {
    frame * FRAME % PageSize(level) == 0
  }

  /** How the processor takes an entry of a table of the given level. */
  function Read(level: nat, e: Entry): Reading {
    match e
    case X86Entry(present, writable, user, noCache, huge, noExecute, frame) =>
      var allow := Perm(true, writable, !noExecute, user, true);
      if !present then Fault
      else if level == 1 then Final(frame, allow.(cached := !noCache))
      else if !huge then Descend(frame, allow)
      else if level < 4 && FrameAligned(level, frame) then Final(frame, allow.(cached := !noCache))
      else Fault
    case RvEntry(valid, readable, writable, executable, user, accessed, dirty, frame) =>
      if !valid || (writable && !readable) then Fault
      else if readable || executable then
        if accessed && FrameAligned(level, frame) then
          Final(frame, Perm(readable, writable && dirty, executable, user, true))
        else Fault
      else if level == 1 then Fault
      else Descend(frame, FULL)
  }

  type Memory = map<nat, seq<Entry>>

  predicate IsTable(mem: Memory, frame: nat) {
    frame in mem && |mem[frame]| == 512
  }

  datatype Translation = Translation(address: nat, perm: Perm)

  /** The walk from a table of the given level: what is translated to where, under which permissions. */
  function Walk(mem: Memory, level: nat, table: nat, a: nat, acc: Perm): Option<Translation>
    decreases level
  {
    if level == 0 || !IsTable(mem, table) then None
    else
      match Read(level, mem[table][Index(level, a)])
      case Fault => None
      case Descend(frame, allow) => Walk(mem, level - 1, frame, a, Meet(acc, allow))
      case Final(frame, perm) => Some(Translation(frame * FRAME + a % PageSize(level), Meet(acc, perm)))
  }

  /** The bits above the translated ones repeat the highest translated bit. */
  predicate Canonical(arch: Arch, va: nat) {
    var half := PageSize(Top(arch) + 1) / 2;
    va < half || 0x1_0000_0000_0000_0000 - half <= va < 0x1_0000_0000_0000_0000
  }

  /** The translated bits of an address. */
  function Low(arch: Arch, va: nat): nat {
    va % PageSize(Top(arch) + 1)
  }

  /** What the processor makes of a virtual address, with the table in frame `root` installed. */
  function HardwareWalk(arch: Arch, mem: Memory, root: nat, va: nat): Option<Translation> {
    if !Canonical(arch, va) then None else Walk(mem, Top(arch), root, Low(arch, va), FULL)
  }

  /** The permissions the processor grants for flags the kernel asked for. RISC-V has no cache bit. */
  function Granted(arch: Arch, flags: Flags): Perm {
    Perm(true, flags.writable, flags.executable, flags.userAccessible, flags.cached || !arch.X86_64?)
  }

  // ---------------------------------------------------------------------------------------------
  // The two sides agree
  // ---------------------------------------------------------------------------------------------

  /** The only forms an entry of a table of the given level takes in the trees this code builds. */
  ghost predicate BuiltEntry(arch: Arch, level: nat, e: Entry) {
    || e == Unused(arch)
    || (level > 1 && e == TableEntry(arch, e.frame))
    || (level <= 3 && FrameAligned(level, e.frame) && exists flags :: e == PageEntry(arch, level, e.frame, flags))
  }

  predicate LeadsToTable(arch: Arch, level: nat, e: Entry) {
    level > 1 && e == TableEntry(arch, e.frame)
  }

  /** The processor's reading of each form, and the kernel's own tests on it. */
  lemma ReadBuilt(arch: Arch, level: nat, e: Entry)
    requires 1 <= level <= Top(arch) && BuiltEntry(arch, level, e)
    ensures !HasAddress(e) <==> e == Unused(arch)
    ensures IsTaken(e) <==> e != Unused(arch)
    ensures Read(level, e).Fault? <==> e == Unused(arch)
    ensures Read(level, e).Descend? <==> LeadsToTable(arch, level, e)
    ensures Read(level, e).Descend? ==> Read(level, e) == Descend(e.frame, FULL)
    ensures level > 1 ==> (IsLargePage(e) <==> Read(level, e).Final?)
    ensures Read(level, e).Final? ==> Read(level, e).frame == e.frame
  {
  }

  lemma ReadPage(arch: Arch, level: nat, frame: nat, flags: Flags)
    requires 1 <= level <= 3 && FrameAligned(level, frame)
    ensures Read(level, PageEntry(arch, level, frame, flags)) == Final(frame, Granted(arch, flags))
    ensures BuiltEntry(arch, level, PageEntry(arch, level, frame, flags))
  {
  }
}
