/**
  The 64-bit words behind the entries of `PageEntries`: the flag constants, `EntryFlags::from`,
  `Entry::set`, `Entry::flags` and `Entry::address` of lib/hal_x86_64/src/paging.rs and
  lib/hal_riscv/src/paging.rs, bit by bit. What `set` writes carries exactly the flags of the entry the
  model uses and gives the address back, so no flag is lost and no address bit reaches into the flags.
*/
module EntryWords {
  import opened PageEntries

  // ---------------------------------------------------------------------------------------------
  // x86_64
  // ---------------------------------------------------------------------------------------------

  const PRESENT: bv64 := 0x1
  const WRITABLE: bv64 := 0x2
  const USER_ACCESSIBLE: bv64 := 0x4
  const NO_CACHE: bv64 := 0x10
  const HUGE_PAGE: bv64 := 0x80
  const NO_EXECUTE: bv64 := 0x8000_0000_0000_0000
  const NON_TERMINAL_FLAGS: bv64 := PRESENT | WRITABLE | USER_ACCESSIBLE
  const ADDRESS_MASK: bv64 := 0x000F_FFFF_FFFF_F000

  function X86Flags(flags: Flags): bv64 {
    PRESENT
    | (if flags.writable then WRITABLE else 0)
    | (if flags.executable then 0 else NO_EXECUTE)
    | (if flags.userAccessible then USER_ACCESSIBLE else 0)
    | (if flags.cached then 0 else NO_CACHE)
  }

  function X86Set(address: bv64, flags: bv64): bv64 {
    address | (flags | PRESENT)
  }

  /** The number of the frame that starts at the address. */
  function FrameOf(address: bv64): nat {
    (address >> 12) as nat
  }

  /** The flag bits of `w` are those of `e`. */
  predicate X86Bits(w: bv64, e: Entry) {
    && e.X86Entry?
    && e.present == (w & PRESENT != 0) && e.writable == (w & WRITABLE != 0)
    && e.user == (w & USER_ACCESSIBLE != 0) && e.noCache == (w & NO_CACHE != 0)
    && e.huge == (w & HUGE_PAGE != 0) && e.noExecute == (w & NO_EXECUTE != 0)
  }

  /** `w` stands for `e`: the same flags, and the frame that `address()` names. */
  predicate X86Represents(w: bv64, e: Entry) {
    X86Bits(w, e) && e.frame == FrameOf(w & ADDRESS_MASK)
  }

  function X86PageWordOf(address: bv64, level: nat, flags: Flags): bv64 {
    X86Set(address, X86Flags(flags) | if level > 1 then HUGE_PAGE else 0)
  }

  lemma X86PageBits(address: bv64, level: nat, frame: nat, flags: Flags)
    requires address & ADDRESS_MASK == address
    ensures var w := X86PageWordOf(address, level, flags);
            w != 0 && X86Bits(w, PageEntry(X86_64, level, frame, flags))
  {
  }

  lemma FlagsOffAddress(level: nat, flags: Flags)
    ensures ((X86Flags(flags) | if level > 1 then HUGE_PAGE else 0) | PRESENT) & ADDRESS_MASK == 0
  {
  }

  lemma AddressKept(address: bv64, bits: bv64)
    requires address & ADDRESS_MASK == address && bits & ADDRESS_MASK == 0
    ensures (address | bits) & ADDRESS_MASK == address
  {
  }

  lemma X86PageAddress(address: bv64, level: nat, flags: Flags)
    requires address & ADDRESS_MASK == address
    ensures X86PageWordOf(address, level, flags) & ADDRESS_MASK == address
  {
    FlagsOffAddress(level, flags);
    AddressKept(address, (X86Flags(flags) | if level > 1 then HUGE_PAGE else 0) | PRESENT);
  }

  /** The word `map` writes, for any frame-aligned address below 2^52. */
  lemma X86PageWord(address: bv64, level: nat, flags: Flags)
    requires address & ADDRESS_MASK == address
    ensures var w := X86PageWordOf(address, level, flags);
            && w != 0 && w & ADDRESS_MASK == address
            && X86Represents(w, PageEntry(X86_64, level, FrameOf(address), flags))
  {
    X86PageBits(address, level, FrameOf(address), flags);
    X86PageAddress(address, level, flags);
  }

  lemma X86TableBits(address: bv64, frame: nat)
    requires address & ADDRESS_MASK == address
    ensures var w := X86Set(address, NON_TERMINAL_FLAGS);
            w != 0 && X86Bits(w, TableEntry(X86_64, frame)) && w & ADDRESS_MASK == address
  {
  }

  /** The word `next_table_create` writes. */
  lemma X86TableWord(address: bv64)
    requires address & ADDRESS_MASK == address
    ensures var w := X86Set(address, NON_TERMINAL_FLAGS);
            && w != 0 && w & ADDRESS_MASK == address
            && X86Represents(w, TableEntry(X86_64, FrameOf(address)))
  {
    X86TableBits(address, FrameOf(address));
  }

  // ---------------------------------------------------------------------------------------------
  // RISC-V
  // ---------------------------------------------------------------------------------------------

  const RV_VALID: bv64 := 0x1
  const RV_READABLE: bv64 := 0x2
  const RV_WRITABLE: bv64 := 0x4
  const RV_EXECUTABLE: bv64 := 0x8
  const RV_USER_ACCESSIBLE: bv64 := 0x10
  const RV_ACCESSED: bv64 := 0x40
  const RV_DIRTY: bv64 := 0x80
  // Bits 10..54 of the word hold the frame number
  const RV_FRAME_MASK: bv64 := 0xFFF_FFFF_FFFF
  // Frame-aligned physical addresses of 56 bits
  const RV_ADDRESS_MASK: bv64 := 0x00FF_FFFF_FFFF_F000

  function RvFlags(flags: Flags): bv64 {
    RV_VALID
    | (if flags.writable then RV_READABLE | RV_WRITABLE else RV_READABLE)
    | (if flags.executable then RV_EXECUTABLE else 0)
    | (if flags.userAccessible then RV_USER_ACCESSIBLE else 0)
  }

  function RvSet(address: bv64, flags: bv64, isLeaf: bool): bv64 {
    (address >> 2) | (flags | RV_VALID | if isLeaf then RV_ACCESSED | RV_DIRTY else 0)
  }

  function RvAddress(w: bv64): bv64 {
    ((w >> 10) & RV_FRAME_MASK) << 12
  }

  predicate RvBits(w: bv64, e: Entry) {
    && e.RvEntry?
    && e.valid == (w & RV_VALID != 0) && e.readable == (w & RV_READABLE != 0)
    && e.writable == (w & RV_WRITABLE != 0) && e.executable == (w & RV_EXECUTABLE != 0)
    && e.user == (w & RV_USER_ACCESSIBLE != 0)
    && e.accessed == (w & RV_ACCESSED != 0) && e.dirty == (w & RV_DIRTY != 0)
  }

  /** `w` stands for `e`: the same flags, and the frame that `address()` names. */
  predicate RvRepresents(w: bv64, e: Entry) {
    RvBits(w, e) && e.frame == FrameOf(RvAddress(w))
  }

  lemma RvPageBits(arch: Arch, address: bv64, level: nat, frame: nat, flags: Flags)
    requires !arch.X86_64? && address & RV_ADDRESS_MASK == address
    ensures var w := RvSet(address, RvFlags(flags), true);
            w != 0 && RvBits(w, PageEntry(arch, level, frame, flags)) && RvAddress(w) == address
  {
  }

  /** The word `map` writes, for any frame-aligned address below 2^56. */
  lemma RvPageWord(arch: Arch, address: bv64, level: nat, flags: Flags)
    requires !arch.X86_64? && address & RV_ADDRESS_MASK == address
    ensures var w := RvSet(address, RvFlags(flags), true);
            && w != 0 && RvAddress(w) == address
            && RvRepresents(w, PageEntry(arch, level, FrameOf(address), flags))
  {
    RvPageBits(arch, address, level, FrameOf(address), flags);
  }

  lemma RvTableBits(arch: Arch, address: bv64, frame: nat)
    requires !arch.X86_64? && address & RV_ADDRESS_MASK == address
    ensures var w := RvSet(address, RV_VALID, false);
            w != 0 && RvBits(w, TableEntry(arch, frame)) && RvAddress(w) == address
  {
  }

  /** The word `next_table_create` writes. */
  lemma RvTableWord(arch: Arch, address: bv64)
    requires !arch.X86_64? && address & RV_ADDRESS_MASK == address
    ensures var w := RvSet(address, RV_VALID, false);
            && w != 0 && RvAddress(w) == address
            && RvRepresents(w, TableEntry(arch, FrameOf(address)))
  {
    RvTableBits(arch, address, FrameOf(address));
  }

  lemma ZeroBits(arch: Arch)
    ensures if arch.X86_64? then X86Bits(0, Unused(arch)) else RvBits(0, Unused(arch))
    ensures FrameOf(0 & ADDRESS_MASK) == 0 && FrameOf(RvAddress(0)) == 0
  {
  }

  /** The zero word is the unused entry, in both formats. */
  lemma ZeroWord(arch: Arch)
    ensures if arch.X86_64? then X86Represents(0, Unused(arch)) else RvRepresents(0, Unused(arch))
  {
    ZeroBits(arch);
  }
}
