/**
 * Two-level x86 paging as the kernel sets it up: one page directory, a kernel page
 * table for the first 4 MB (it holds the video pages) and a user page table
 * reached through the directory slot of virtual 132 MB. An entry is a physical
 * frame address OR-ed with flag bits; the model keeps the two parts side by side.
 */
module Paging {
  import opened Common

  const MAX_ENTRIES: int := 1024

  const GLOBAL: bv32 := 0x100
  const PAGE_4MB: bv32 := 0x80
  const PAGE_CACHE_DISABLE: bv32 := 0x10
  const USER_LEVEL: bv32 := 0x4
  const READ_WRITE: bv32 := 0x2
  const PRESENT: bv32 := 0x1

  const KERNEL_ADDR: Word := 0x40_0000
  const VIDEO_ADDR: Word := 0xB8000
  const VIDEO_ADDR1: Word := 0xB9000
  const VIDEO_ADDR2: Word := 0xBA000
  const VIDEO_ADDR3: Word := 0xBB000
  const PROG_VADDR: Word := 0x0800_0000
  /** Start of the user-visible video pages (132 MB). */
  const VIRT_VIDEO_ADDR: Word := 0x0840_0000

  /** Flags of a kernel video page: cache disabled, writable, present. */
  const KERNEL_VIDEO_FLAGS: bv32 := PAGE_CACHE_DISABLE | READ_WRITE | PRESENT
  /** Flags of a user video page: the kernel flags plus user access. */
  const USER_VIDEO_FLAGS: bv32 := READ_WRITE | PRESENT | USER_LEVEL | PAGE_CACHE_DISABLE
  /** Flags of a program page before the present bit is decided. */
  const PROGRAM_FLAGS: bv32 := USER_LEVEL | PAGE_4MB | READ_WRITE

  /**
   * A directory or table entry, `frame | flags` in the hardware word. Every frame
   * the kernel maps is 4 KB-aligned, so the two parts never overlap.
   */
  datatype Entry = Entry(frame: Word, flags: bv32)

  /** A cleared entry: the all-zero word. */
  const CLEARED: Entry := Entry(0, 0)

  /** A page directory or page table: 1024 entries. */
  type Table = s: seq<Entry> | |s| == MAX_ENTRIES witness seq(1024, i => CLEARED)

  /**
   * The paging state: the directory, the two tables, how many times CR3 has been
   * reloaded (each reload flushes the TLB) and whether paging is switched on.
   */
  datatype Tables = Tables(dir: Table, kernelTable: Table, userTable: Table, flushes: nat, enabled: bool)

  function EmptyTable(): (t: Table)
    ensures forall j :: 0 <= j < MAX_ENTRIES ==> t[j] == CLEARED
  {
    seq(1024, i => CLEARED)
  }

  /** Directory index of a virtual address: its top ten bits. */
  function PdIdx(vaddr: Word): (i: nat)
    ensures i < MAX_ENTRIES
    ensures i * 0x40_0000 <= vaddr < (i + 1) * 0x40_0000
  {
    vaddr / 0x40_0000
  }

  /** Table index of a virtual address: its middle ten bits. */
  function PtIdx(vaddr: Word): (i: nat)
    ensures i < MAX_ENTRIES
    ensures i * 0x1000 <= vaddr % 0x40_0000 < (i + 1) * 0x1000
  {
    (vaddr / 0x1000) % 1024
  }

  /** The two indices and the page offset together determine the address. */
  lemma IndicesDetermineAddress(a: Word, b: Word)
    requires PdIdx(a) == PdIdx(b) && PtIdx(a) == PtIdx(b) && a % 0x1000 == b % 0x1000
    ensures a == b
  {
  }

  /**
   * Writes `phys | flags` into the directory slot of `vaddr`; a NULL physical
   * address leaves the directory untouched.
   */
  function AddDirEntry(dir: Table, phys: Word, vaddr: Word, flags: bv32): (d: Table)
    ensures phys == 0 ==> d == dir
    ensures phys != 0 ==> d[PdIdx(vaddr)] == Entry(phys, flags)
    ensures forall j :: 0 <= j < MAX_ENTRIES && j != PdIdx(vaddr) ==> d[j] == dir[j]
  {
    if phys == 0 then dir else dir[PdIdx(vaddr) := Entry(phys, flags)]
  }

  /**
   * Writes `phys | flags` into the slot of `vaddr` in one page table; a NULL
   * physical address leaves the table untouched.
   */
  function AddTableEntry(table: Table, phys: Word, vaddr: Word, flags: bv32): (t: Table)
    ensures phys == 0 ==> t == table
    ensures phys != 0 ==> t[PtIdx(vaddr)] == Entry(phys, flags)
    ensures forall j :: 0 <= j < MAX_ENTRIES && j != PtIdx(vaddr) ==> t[j] == table[j]
  {
    if phys == 0 then table else table[PtIdx(vaddr) := Entry(phys, flags)]
  }

  /** Reloading CR3 flushes the TLB. */
  function FlushTlb(t: Tables): (r: Tables)
    ensures r.flushes == t.flushes + 1
    ensures r.dir == t.dir && r.kernelTable == t.kernelTable && r.userTable == t.userTable
    ensures r.enabled == t.enabled
  {
    t.(flushes := t.flushes + 1)
  }

  /** Virtual address through which user programs see terminal `term`'s screen. */
  function TermVaddr(term: int): (a: Word)
    requires 0 <= term < MAX_TERMS
    ensures PdIdx(a) == 33 && PtIdx(a) == term && a % 0x1000 == 0
  {
    VIRT_VIDEO_ADDR + 0x1000 * term
  }

  /** Physical page that backs terminal `term`'s screen while it is not visible. */
  function BackingPage(term: int): (a: Word)
    requires 0 <= term < MAX_TERMS
    ensures PdIdx(a) == 0 && PtIdx(a) == 0xB9 + term && a % 0x1000 == 0
  {
    VIDEO_ADDR1 + 0x1000 * term
  }

  /**
   * The boot layout. `pt1` and `pt2` are the addresses of the kernel and user page
   * tables; they are static, 4 KB-aligned arrays, hence nonzero and aligned.
   */
  function PageInit(pt1: Word, pt2: Word): (t: Tables)
    requires pt1 != 0 && pt2 != 0
    ensures t.enabled && t.flushes == 0
    ensures t.dir[0] == Entry(pt1, READ_WRITE | PRESENT)
    ensures t.dir[1] == Entry(KERNEL_ADDR, GLOBAL | PAGE_4MB | READ_WRITE | PRESENT)
    ensures t.dir[33] == Entry(pt2, USER_VIDEO_FLAGS)
    ensures forall j :: 0 <= j < MAX_ENTRIES && j != 0 && j != 1 && j != 33 ==> t.dir[j] == CLEARED
    ensures t.kernelTable[0xB8] == Entry(VIDEO_ADDR, KERNEL_VIDEO_FLAGS)
    ensures t.kernelTable[0xB9] == Entry(VIDEO_ADDR, KERNEL_VIDEO_FLAGS)
    ensures t.kernelTable[0xBA] == Entry(VIDEO_ADDR2, KERNEL_VIDEO_FLAGS)
    ensures t.kernelTable[0xBB] == Entry(VIDEO_ADDR3, KERNEL_VIDEO_FLAGS)
    ensures forall j :: 0 <= j < MAX_ENTRIES && !(0xB8 <= j <= 0xBB) ==> t.kernelTable[j] == CLEARED
    ensures t.userTable[0] == Entry(VIDEO_ADDR, USER_VIDEO_FLAGS)
    ensures t.userTable[1] == Entry(VIDEO_ADDR2, USER_VIDEO_FLAGS)
    ensures t.userTable[2] == Entry(VIDEO_ADDR3, USER_VIDEO_FLAGS)
    ensures forall j :: 3 <= j < MAX_ENTRIES ==> t.userTable[j] == CLEARED
  {
    var dir := AddDirEntry(EmptyTable(), pt1, 0, READ_WRITE | PRESENT);
    var dir := AddDirEntry(dir, KERNEL_ADDR, KERNEL_ADDR, GLOBAL | PAGE_4MB | READ_WRITE | PRESENT);
    var dir := AddDirEntry(dir, pt2, VIRT_VIDEO_ADDR, USER_VIDEO_FLAGS);
    var kt := AddTableEntry(EmptyTable(), VIDEO_ADDR, VIDEO_ADDR, KERNEL_VIDEO_FLAGS);
    var kt := AddTableEntry(kt, VIDEO_ADDR, VIDEO_ADDR1, KERNEL_VIDEO_FLAGS);
    var kt := AddTableEntry(kt, VIDEO_ADDR2, VIDEO_ADDR2, KERNEL_VIDEO_FLAGS);
    var kt := AddTableEntry(kt, VIDEO_ADDR3, VIDEO_ADDR3, KERNEL_VIDEO_FLAGS);
    var ut := AddTableEntry(EmptyTable(), VIDEO_ADDR, TermVaddr(0), USER_VIDEO_FLAGS);
    var ut := AddTableEntry(ut, VIDEO_ADDR2, TermVaddr(1), USER_VIDEO_FLAGS);
    var ut := AddTableEntry(ut, VIDEO_ADDR3, TermVaddr(2), USER_VIDEO_FLAGS);
    Tables(dir, kt, ut, 0, true)
  }

  /**
   * Maps (adding != 0) or unmaps the 4 MB program page at virtual 128 MB onto
   * `phys`, then flushes the TLB. Unmapping keeps the address but clears PRESENT.
   */
  function AddProgramPage(t: Tables, phys: Word, adding: int): (r: Tables)
    ensures PdIdx(PROG_VADDR) == 32
    ensures phys != 0 ==> r.dir[32] == Entry(phys, PROGRAM_FLAGS | (if adding != 0 then PRESENT else 0))
    ensures phys != 0 ==> (r.dir[32].flags & PRESENT != 0 <==> adding != 0)
    ensures phys == 0 ==> r.dir == t.dir
    ensures forall j :: 0 <= j < MAX_ENTRIES && j != 32 ==> r.dir[j] == t.dir[j]
    ensures r.kernelTable == t.kernelTable && r.userTable == t.userTable && r.enabled == t.enabled
    ensures r.flushes == t.flushes + 1
  {
    var flags := if adding != 0 then PROGRAM_FLAGS | PRESENT else PROGRAM_FLAGS;
    FlushTlb(t.(dir := AddDirEntry(t.dir, phys, PROG_VADDR, flags)))
  }

  /** Mapping the same program page twice leaves the same directory as mapping it once. */
  lemma AddProgramPageIdempotent(t: Tables, phys: Word, adding: int)
    ensures AddProgramPage(AddProgramPage(t, phys, adding), phys, adding).dir == AddProgramPage(t, phys, adding).dir
  {
    var once := AddProgramPage(t, phys, adding);
    var twice := AddProgramPage(once, phys, adding);
    forall j | 0 <= j < MAX_ENTRIES
      ensures twice.dir[j] == once.dir[j]
    {
    }
  }

  /** Terminal `term`'s mapping is the screen when it is visible and its own page otherwise. */
  predicate TermMapped(t: Tables, term: int, visible: int)
    requires 0 <= term < MAX_TERMS
  {
    var frame := if term == visible then VIDEO_ADDR else BackingPage(term);
    t.kernelTable[PtIdx(BackingPage(term))] == Entry(frame, KERNEL_VIDEO_FLAGS)
    && t.userTable[PtIdx(TermVaddr(term))] == Entry(frame, USER_VIDEO_FLAGS)
  }

  /**
   * The video invariant: the kernel's own video page is the identity, the visible
   * terminal's two addresses reach the physical screen and every other terminal's
   * addresses reach its backing page.
   */
  predicate VideoConsistent(t: Tables, visible: int)
  {
    0 <= visible < MAX_TERMS
    && t.kernelTable[PtIdx(VIDEO_ADDR)] == Entry(VIDEO_ADDR, KERNEL_VIDEO_FLAGS)
    && TermMapped(t, 0, visible) && TermMapped(t, 1, visible) && TermMapped(t, 2, visible)
  }

  /** Result of a video page switch: the C return value and the new tables. */
  datatype Switched = Switched(status: int, tables: Tables)

  /**
   * Moves the physical screen from terminal `from` to terminal `to`: `from`'s two
   * addresses go back to its backing page and `to`'s two addresses are pointed at
   * the screen. Equal terminals succeed without change; an out-of-range terminal
   * fails (the destination is checked first). Copying the screen contents between
   * the pages is not modelled.
   */
  function SwitchVideoPage(t: Tables, to: int, from: int): (r: Switched)
    ensures to == from ==> r == Switched(0, t)
    ensures to != from && !(0 <= to < MAX_TERMS && 0 <= from < MAX_TERMS) ==> r == Switched(-1, t)
    ensures to != from && 0 <= to < MAX_TERMS && 0 <= from < MAX_TERMS ==>
      r.status == 0 && r.tables.dir == t.dir && r.tables.flushes == t.flushes + 1
      && (forall j :: 0 <= j < MAX_ENTRIES && j != PtIdx(BackingPage(to)) && j != PtIdx(BackingPage(from))
            ==> r.tables.kernelTable[j] == t.kernelTable[j])
      && (forall j :: 0 <= j < MAX_ENTRIES && j != to && j != from ==> r.tables.userTable[j] == t.userTable[j])
  {
    if to == from then Switched(0, t)
    else if !(0 <= to < MAX_TERMS) then Switched(-1, t)
    else if !(0 <= from < MAX_TERMS) then Switched(-1, t)
    else
      var toPage := BackingPage(to);
      var fromPage := BackingPage(from);
      var kt := AddTableEntry(t.kernelTable, fromPage, fromPage, KERNEL_VIDEO_FLAGS);
      var ut := AddTableEntry(t.userTable, fromPage, TermVaddr(from), USER_VIDEO_FLAGS);
      var kt := AddTableEntry(kt, VIDEO_ADDR, toPage, KERNEL_VIDEO_FLAGS);
      var ut := AddTableEntry(ut, VIDEO_ADDR, TermVaddr(to), USER_VIDEO_FLAGS);
      Switched(0, FlushTlb(t.(kernelTable := kt, userTable := ut)))
  }

  /** The boot layout satisfies the video invariant with terminal 0 visible. */
  lemma PageInitVideoConsistent(pt1: Word, pt2: Word)
    requires pt1 != 0 && pt2 != 0
    ensures VideoConsistent(PageInit(pt1, pt2), 0)
  {
  }

  /** Switching away from the visible terminal keeps the invariant, with `to` now visible. */
  lemma SwitchVideoPagePreservesConsistency(t: Tables, to: int, from: int)
    requires VideoConsistent(t, from)
    requires 0 <= to < MAX_TERMS && to != from
    ensures SwitchVideoPage(t, to, from).status == 0
    ensures VideoConsistent(SwitchVideoPage(t, to, from).tables, to)
  {
    var r := SwitchVideoPage(t, to, from).tables;
    forall term | 0 <= term < MAX_TERMS
      ensures TermMapped(r, term, to)
    {
      if term != to && term != from {
        assert PtIdx(BackingPage(term)) != PtIdx(BackingPage(to));
        assert PtIdx(BackingPage(term)) != PtIdx(BackingPage(from));
      }
    }
  }

  /**
   * The user pointer to terminal `term`'s screen, or 0 (NULL) for a bad index. A
   * returned pointer lies in the user video table (directory slot 33) at slot `term`.
   */
  function RequestUserVideo(term: int): (p: Word)
    ensures p != 0 <==> 0 <= term < MAX_TERMS
    ensures p != 0 ==> p == TermVaddr(term) && PdIdx(p) == 33 && PtIdx(p) == term
  {
    if 0 <= term < MAX_TERMS then TermVaddr(term) else 0
  }

  /** A user pointer handed out for the visible terminal reaches the physical screen. */
  lemma UserVideoReachesScreen(t: Tables, visible: int, term: int)
    requires VideoConsistent(t, visible) && 0 <= term < MAX_TERMS
    ensures RequestUserVideo(term) != 0
    ensures t.userTable[PtIdx(RequestUserVideo(term))]
              == Entry(if term == visible then VIDEO_ADDR else BackingPage(term), USER_VIDEO_FLAGS)
  {
    var p := RequestUserVideo(term);
    assert PtIdx(p) == term;
    var frame := if term == visible then VIDEO_ADDR else BackingPage(term);
    assert TermMapped(t, term, visible) by {
      if term == 0 {} else if term == 1 {} else {}
    }
    assert t.userTable[PtIdx(TermVaddr(term))] == Entry(frame, USER_VIDEO_FLAGS);
  }

  /**
   * The boot self-test: the number of checked entries that differ from what it
   * expects, where an entry with the accessed or dirty bit also counts as equal.
   * It expects virtual 0xB9000 to be mapped to itself.
   */
  function PagingTester(t: Tables, pt1: Word): (failures: nat)
    ensures failures <= 3
    ensures failures == 0 <==>
      Accepts(t.dir[0], Entry(pt1, READ_WRITE | PRESENT))
      && Accepts(t.dir[1], Entry(KERNEL_ADDR, GLOBAL | PAGE_4MB | READ_WRITE | PRESENT))
      && Accepts(t.kernelTable[PtIdx(VIDEO_ADDR1)], Entry(VIDEO_ADDR1, KERNEL_VIDEO_FLAGS))
  {
    (if Accepts(t.dir[0], Entry(pt1, READ_WRITE | PRESENT)) then 0 else 1)
    + (if Accepts(t.dir[1], Entry(KERNEL_ADDR, GLOBAL | PAGE_4MB | READ_WRITE | PRESENT)) then 0 else 1)
    + (if Accepts(t.kernelTable[PtIdx(VIDEO_ADDR1)], Entry(VIDEO_ADDR1, KERNEL_VIDEO_FLAGS)) then 0 else 1)
  }

  /** `actual` equals `expected`, possibly with the accessed (0x20) and dirty (0x40) bits set. */
  predicate Accepts(actual: Entry, expected: Entry)
  {
    actual.frame == expected.frame
    && (actual.flags == expected.flags || actual.flags == expected.flags | 0x60
        || actual.flags == expected.flags | 0x40 || actual.flags == expected.flags | 0x20)
  }

  /** The self-test reports one failure on the layout the boot code itself builds. */
  lemma PagingTesterRejectsBootLayout(pt1: Word, pt2: Word)
    requires pt1 != 0 && pt2 != 0
    ensures PagingTester(PageInit(pt1, pt2), pt1) == 1
  {
  }

  /**
   * The self-test as it evidently should read: virtual 0xB9000 is terminal 0's
   * page, which the boot layout points at the physical screen.
   */
  function PagingTesterCorrected(t: Tables, pt1: Word): (failures: nat)
    ensures failures <= 3
    ensures failures == 0 <==>
      Accepts(t.dir[0], Entry(pt1, READ_WRITE | PRESENT))
      && Accepts(t.dir[1], Entry(KERNEL_ADDR, GLOBAL | PAGE_4MB | READ_WRITE | PRESENT))
      && Accepts(t.kernelTable[PtIdx(VIDEO_ADDR1)], Entry(VIDEO_ADDR, KERNEL_VIDEO_FLAGS))
  {
    (if Accepts(t.dir[0], Entry(pt1, READ_WRITE | PRESENT)) then 0 else 1)
    + (if Accepts(t.dir[1], Entry(KERNEL_ADDR, GLOBAL | PAGE_4MB | READ_WRITE | PRESENT)) then 0 else 1)
    + (if Accepts(t.kernelTable[PtIdx(VIDEO_ADDR1)], Entry(VIDEO_ADDR, KERNEL_VIDEO_FLAGS)) then 0 else 1)
  }

  /** The corrected self-test passes on the boot layout. */
  lemma PagingTesterCorrectedAcceptsBootLayout(pt1: Word, pt2: Word)
    requires pt1 != 0 && pt2 != 0
    ensures PagingTesterCorrected(PageInit(pt1, pt2), pt1) == 0
  {
  }
}
