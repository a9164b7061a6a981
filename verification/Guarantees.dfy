/**
  What callers of the virtual memory manager get, stated on translations: for each service, what
  every page of the address space means to the kernel and to the processor afterwards.
 */
module Guarantees {
  import opened Bits
  import opened Rounding
  import opened Options
  import opened PageTables
  import opened TableEdits
  import opened Growth
  import opened Mapping
  import opened Entries
  import opened Limine
  import opened Virt
  import Boot
  import Contexts
  import DirectMap
  import Hardware
  import Phys
  import Rights
  import Runs

  /**
    `virt_map` is a finite-map update: the pages of the range get consecutive frames, every other page
    keeps its entry.
   */
  lemma MapIsUpdate(s: State, s': State, root: nat, first: nat, physAddr: u64, n: nat, flags: u64, fl: u64,
                    data: set<nat>, q: nat)
    requires IsRoot(s, root) && first < PAGES && n <= PAGES && q < PAGES
    requires Maps(s, s', root, first, MapWords(physAddr, n, flags), fl, data)
    ensures var k := (q - first) % PAGES;
            Leaf(s'.mem, root, q) == if k < n then EntryWord(Wrap(physAddr + 4096 * k), flags) else Leaf(s.mem, root, q)
  {
    hide Sound, Grows, PathsExist, Translates, MapWords, LastWrite;
    var words := MapWords(physAddr, n, flags);
    DirectMap.WordsLength(physAddr, n, flags);
    Contexts.OwnTranslation(s, s', root, first, words, q);
    LastWriteExact(q, first, words);
    if (q - first) % PAGES < n {
      MapWordsAt(physAddr, n, flags, (q - first) % PAGES);
    }
  }

  /** An entry made of an aligned address and flags is read back as that frame and those flags. */
  lemma EntryReadsBack(addr: u64, flags: u64, k: nat)
    requires addr % 4096 == 0 && addr < Phys.MAX_PHYS && flags < 4096 && k < 12
    ensures FrameOf(EntryWord(addr, flags)) * 4096 == addr == Hardware.HwFrame(EntryWord(addr, flags)) * 4096
    ensures TestBit(EntryWord(addr, flags), k) == TestBit(flags, k)
  {
    EntryIsSum(addr, flags);
    EntryFields(addr / 4096, flags);
    Hardware.SmallFrame(EntryWord(addr, flags));
  }

  /**
    After `virt_map` of an aligned range, the processor takes byte `i` of the range to byte `i` of the frames,
    with the rights the flags give; user mode gets in only if the page already had an open path.
   */
  lemma MapReachesFrames(s: State, s': State, root: nat, virtAddr: u64, physAddr: u64, size: u64, flags: u64, i: nat,
                         va: u64)
    requires Sound(s) && IsRoot(s, root) && virtAddr % 4096 == 0 && physAddr % 4096 == 0
    requires flags < 4096 && TestBit(flags, 0)
    requires physAddr + size <= Phys.MAX_PHYS && size <= 0x1_0000_0000_0000 && i < size
    requires Maps(s, s', root, PageOf(virtAddr), MapWords(physAddr, Ceil(size, 4096), flags), LinkFlags(false), {})
    requires va == Wrap(virtAddr + i) && Hardware.IsCanonical(va)
    ensures var a := Hardware.Translate(s'.mem, root, va);
            && a.Mapped? && a.addr == physAddr + i && a.writable == TestBit(flags, 1)
            && (a.user <==> TestBit(flags, 2) && Node(s.mem, root, PageOf(va), 1).Some?
                            && Hardware.PathOpen(s.mem, root, PageOf(va)))
  {
    hide Maps, MapWords, PageOf, TestBit, Hardware.Translate, Hardware.HwFrame, Hardware.IsCanonical, EntryWord, Sound;
    hide Hardware.PathOpen, Node;
    var k, n := i / 4096, Ceil(size, 4096);
    RangePage(virtAddr, physAddr, size, i, k);
    DirectMap.WordsLength(physAddr, n, flags);
    Contexts.MappedAt(s, s', root, PageOf(virtAddr), MapWords(physAddr, n, flags), LinkFlags(false), {}, k);
    MapWordsAt(physAddr, n, flags, k);
    EntryReadsBack(physAddr + 4096 * k, flags, 0);
    EntryReadsBack(physAddr + 4096 * k, flags, 1);
    EntryReadsBack(physAddr + 4096 * k, flags, 2);
    Rights.MapsRoot(s, s', root, PageOf(virtAddr), MapWords(physAddr, n, flags), LinkFlags(false), {});
    Hardware.TranslateIsLeaf(s', root, va);
    MappedPathIff(s, s', root, PageOf(virtAddr), MapWords(physAddr, n, flags), k);
  }

  /** A page that a kernel mapping has reached is on an open path exactly if it had a complete open path before. */
  lemma MappedPathIff(s: State, s': State, root: nat, first: nat, words: seq<u64>, k: nat)
    requires Sound(s) && IsRoot(s, root) && first < PAGES && k < |words|
    requires Maps(s, s', root, first, words, LinkFlags(false), {})
    ensures var p := PageAt(first, k);
            Hardware.PathOpen(s'.mem, root, p)
            <==> Node(s.mem, root, p, 1).Some? && Hardware.PathOpen(s.mem, root, p)
  {
    hide Sound, Translates, Grows, Hardware.PathOpen, Node;
    LinkFlagValues(false);
    DirectMap.InRangeAt(first, |words|, k);
    Rights.KernelPathOpenIff(s, s', root, RangePages(first, |words|), {}, PageAt(first, k));
  }

  /** For the processor, nothing outside a mapped range changes, in any context: neither the frame nor the rights. */
  lemma MapLeavesOthers(s: State, s': State, root: nat, first: nat, words: seq<u64>, fl: u64, data: set<nat>,
                        r: nat, va: u64)
    requires Sound(s) && Maps(s, s', root, first, words, fl, data)
    requires IsRoot(s, r) && PageOf(va) !in RangePages(first, |words|)
    ensures Hardware.Translate(s'.mem, r, va) == Hardware.Translate(s.mem, r, va)
  {
    hide Sound, PathsExist, Takes, OnlyTables, NewLinks, NewTables, Leaf, Hardware.Translate, PageOf, Keeps;
    WrittenInRange(PageOf(va), first, words);
    assert Leaf(s'.mem, r, PageOf(va)) == NewLeaf(s, s', root, first, words, r, PageOf(va));
    Rights.SameAccess(s, s', r, va);
  }

  /** Isolation for the processor: through any PML4 slot but the last, a mapping changes no other context's access. */
  lemma IsolatedAccess(s: State, s': State, root: nat, first: nat, words: seq<u64>, fl: u64, data: set<nat>,
                       r: nat, va: u64)
    requires Sound(s) && IsRoot(s, root) && first < PAGES && Maps(s, s', root, first, words, fl, data)
    requires IsRoot(s, r) && r != root && Index(PageOf(va), 4) != 511
    ensures Hardware.Translate(s'.mem, r, va) == Hardware.Translate(s.mem, r, va)
  {
    Contexts.Isolation(s, s', root, first, words, fl, data, r, PageOf(va));
    hide Sound, PathsExist, Takes, OnlyTables, NewLinks, NewTables, Leaf, Hardware.Translate, PageOf, Keeps, Translates;
    Rights.SameAccess(s, s', r, va);
  }

  /**
    For the processor, unmapping closes exactly the pages of the range, in exactly the contexts that share
    their PDPT; every other access of every context stays what it was, rights included.
   */
  lemma UnmapAccess(s: State, s': State, root: nat, first: nat, n: nat, r: nat, va: u64)
    requires Sound(s) && IsRoot(s, root) && Unmaps(s, s', root, first, n) && IsRoot(s, r)
    ensures Hardware.Translate(s'.mem, r, va)
            == if PageOf(va) in RangePages(first, n) && Joined(s.mem, r, root, PageOf(va)) then Hardware.Fault
               else Hardware.Translate(s.mem, r, va)
  {
    ZeroTest(0);
    hide Sound, SameTables, SameNodes, Leaf, Hardware.Translate, PageOf, TestBit, Keeps, Joined;
    SameTablesKeep(s, s');
    if PageOf(va) in RangePages(first, n) && Joined(s.mem, r, root, PageOf(va)) {
      assert Leaf(s'.mem, r, PageOf(va)) == 0;
      KeepsRoot(s, s', r);
      Unmapped(s', r, va);
    } else {
      Rights.SameAccess(s, s', r, va);
    }
  }

  /**
    Contexts that share the kernel slot access its pages alike: the same frame with the same right to write,
    and the same right of user mode if their PML4 entries give it alike.
   */
  lemma SharedAccess(s: State, r: nat, r': nat, va: u64)
    requires Sound(s) && Contexts.SharesKernelSlot(s, r) && Contexts.SharesKernelSlot(s, r')
    requires Index(PageOf(va), 4) == 511
    ensures var a, a' := Hardware.Translate(s.mem, r, va), Hardware.Translate(s.mem, r', va);
            && (a.Mapped? <==> a'.Mapped?)
            && (a.Mapped? ==> a.addr == a'.addr && a.writable == a'.writable)
            && (Hardware.User(s.mem[r][511]) == Hardware.User(s.mem[r'][511]) ==> a == a')
  {
    if Hardware.IsCanonical(va) {
      SharedPath(s, r, r', PageOf(va));
      Contexts.KernelSlotJoined(s, r, r', PageOf(va));
      hide Sound, Hardware.Translate, PageOf, TestBit, Hardware.PathOpen, Hardware.HwFrame, Leaf, Index;
      Hardware.TranslateIsLeaf(s, r, va);
      Hardware.TranslateIsLeaf(s, r', va);
    }
  }

  lemma SharedPath(s: State, r: nat, r': nat, p: nat)
    requires Sound(s) && Contexts.SharesKernelSlot(s, r) && Contexts.SharesKernelSlot(s, r')
    requires p < PAGES && Index(p, 4) == 511
    ensures Hardware.User(s.mem[r][511]) == Hardware.User(s.mem[r'][511]) ==>
              Hardware.PathOpen(s.mem, r, p) == Hardware.PathOpen(s.mem, r', p)
  {
    Contexts.KernelSlotJoined(s, r, r', p);
    RootIsNode(s, r, p);
    RootIsNode(s, r', p);
    hide Sound, Hardware.User, Index, Node;
    if Hardware.User(s.mem[r][511]) == Hardware.User(s.mem[r'][511]) {
      forall level | 2 <= level <= 4
        ensures Hardware.LinkOpen(s.mem, r, p, level) == Hardware.LinkOpen(s.mem, r', p, level)
      {
        if level < 4 {
          JoinedWalk(s.mem, r, r', p, level);
        }
      }
    }
  }

  lemma Unmapped(s: State, root: nat, va: u64)
    requires Sound(s) && IsRoot(s, root) && !TestBit(Leaf(s.mem, root, PageOf(va)), 0)
    ensures Hardware.Translate(s.mem, root, va) == Hardware.Fault
  {
    if Hardware.IsCanonical(va) {
      Hardware.TranslateIsLeaf(s, root, va);
    }
  }

  lemma RangePage(virtAddr: u64, physAddr: u64, size: u64, i: nat, k: nat)
    requires virtAddr % 4096 == 0 && physAddr % 4096 == 0 && i < size && k == i / 4096
    requires physAddr + size <= Phys.MAX_PHYS && size <= 0x1_0000_0000_0000
    ensures PageOf(Wrap(virtAddr + i)) == PageAt(PageOf(virtAddr), k) && Wrap(virtAddr + i) % 4096 == i % 4096
    ensures k < Ceil(size, 4096) <= PAGES && Wrap(physAddr + 4096 * k) == physAddr + 4096 * k < Phys.MAX_PHYS
    ensures (physAddr + 4096 * k) % 4096 == 0 && physAddr + 4096 * k + i % 4096 == physAddr + i
  {
    hide PageAt, PageOf, Wrap, Ceil;
    PageSteps(virtAddr, 4096 * k, k);
    PageOfWrapped(virtAddr + i);
    PageOfWrapped(virtAddr + 4096 * k);
    SamePageBytes(virtAddr, i, k);
    WrapOffset(virtAddr + i);
    FramesOfRange(physAddr, size, i, k);
  }

  lemma FramesOfRange(physAddr: u64, size: u64, i: nat, k: nat)
    requires physAddr % 4096 == 0 && i < size && k == i / 4096
    requires physAddr + size <= Phys.MAX_PHYS && size <= 0x1_0000_0000_0000
    ensures k < Ceil(size, 4096) <= PAGES && Wrap(physAddr + 4096 * k) == physAddr + 4096 * k < Phys.MAX_PHYS
    ensures (physAddr + 4096 * k) % 4096 == 0 && physAddr + 4096 * k + i % 4096 == physAddr + i
  {}

  lemma SamePageBytes(virtAddr: u64, i: nat, k: nat)
    requires virtAddr % 4096 == 0 && k == i / 4096
    ensures PageOf(virtAddr + i) == PageOf(virtAddr + 4096 * k)
  {
    assert (virtAddr + i) / 4096 == virtAddr / 4096 + k == (virtAddr + 4096 * k) / 4096;
  }

  /**
    `virt_unmap` is removal from the finite map: the pages of the range become unmapped, every other
    page keeps its entry.
   */
  lemma UnmapIsRemoval(s: State, s': State, root: nat, first: nat, n: nat, q: nat)
    requires IsRoot(s, root) && first < PAGES && n <= PAGES && q < PAGES && Unmaps(s, s', root, first, n)
    ensures Leaf(s'.mem, root, q) == if (q - first) % PAGES < n then 0 else Leaf(s.mem, root, q)
    ensures s'.used == s.used && s'.tags == s.tags
  {
    hide SameNodes, Sound;
    assert Joined(s.mem, root, root, q);
    InRange(q, first, n);
  }

  /** `virt_map_user` updates the finite map too: every page of the range gets the entry of the first frame. */
  lemma MapUserIsUpdate(s: State, s': State, root: nat, first: nat, physAddr: u64, n: nat, flags: u64, fl: u64,
                        data: set<nat>, q: nat)
    requires IsRoot(s, root) && first < PAGES && n <= PAGES && q < PAGES
    requires Maps(s, s', root, first, SameWords(physAddr, n, flags), fl, data)
    ensures Leaf(s'.mem, root, q)
            == if (q - first) % PAGES < n then EntryWord(physAddr, flags) else Leaf(s.mem, root, q)
  {
    hide Sound, Grows, PathsExist, Translates, LastWrite, Leaf, EntryWord;
    var words := SameWords(physAddr, n, flags);
    Contexts.OwnTranslation(s, s', root, first, words, q);
    LastWriteExact(q, first, words);
  }

  /**
    `virt_map_user` maps every page to the first frame, so it maps the range as `virt_map` would
    exactly if it is one page.
   */
  lemma MapUserIff(physAddr: u64, n: nat, flags: u64)
    requires physAddr % 4096 == 0 && flags < 4096 && physAddr + 4096 * n <= Phys.MAX_PHYS
    ensures SameWords(physAddr, n, flags) == MapWords(physAddr, n, flags) <==> n <= 1
  {
    if n > 1 {
      EntryIsSum(physAddr, flags);
      EntryIsSum(physAddr + 4096, flags);
      MapWordsAt(physAddr, n, flags, 1);
      assert SameWords(physAddr, n, flags)[1] == EntryWord(physAddr, flags);
    } else {
      assert n == 1 ==> Wrap(physAddr + 4096 * 0) == physAddr;
    }
  }

  /**
    `virt_alloc` and `virt_user_alloc`: page `k` of the range is backed by its own frame, which was free
    before and holds no table, and no two pages share one.
   */
  lemma AllocBacksPages(s: State, s': State, root: nat, start: nat, limit: nat, addr: u64, backing: seq<nat>,
                        flags: u64, fl: u64, k: nat)
    requires IsRoot(s, root) && Distinct(backing) && SmallFrames(backing) && |backing| <= PAGES && k < |backing|
    requires addr != 0
    requires FillsLowestHole(s, s', root, start, limit, addr, |backing|, BackedWords(backing, flags), fl,
                             Elements(backing))
    ensures Leaf(s.mem, root, PageAt(PageOf(addr), k)) == 0
    ensures Leaf(s'.mem, root, PageAt(PageOf(addr), k)) == EntryWord(backing[k] * 4096, flags)
    ensures backing[k] !in s.used && backing[k] !in s'.tags
    ensures forall j | 0 <= j < |backing| && j != k :: backing[j] != backing[k]
  {
    hide Sound, NoHoleBelow, PageOf, Keeps, NewLinks, NewTables, OnlyTables;
    Contexts.MappedAt(s, s', root, PageOf(addr), BackedWords(backing, flags), fl, Elements(backing), k);
    assert backing[k] in Elements(backing);
    forall j | 0 <= j < |backing| && j != k ensures backing[j] != backing[k] {
      if j < k { assert Distinct(backing); }
    }
  }

  /** Through the processor: byte `off` of page `k` is byte `off` of its frame, with the right the flags give. */
  lemma AllocReaches(s: State, s': State, root: nat, start: nat, limit: nat, addr: u64, backing: seq<nat>,
                     flags: u64, fl: u64, k: nat, off: nat, va: u64)
    requires IsRoot(s, root) && SmallFrames(backing) && k < |backing| <= PAGES && addr != 0 && off < 4096
    requires FillsLowestHole(s, s', root, start, limit, addr, |backing|, BackedWords(backing, flags), fl,
                             Elements(backing))
    requires flags < 4096 && TestBit(flags, 0) && va == Wrap(addr + (4096 * k + off)) && Hardware.IsCanonical(va)
    ensures var a := Hardware.Translate(s'.mem, root, va);
            && a.Mapped? && a.addr == backing[k] * 4096 + off && a.writable == TestBit(flags, 1)
            && (a.user ==> TestBit(flags, 2))
  {
    hide Maps, PageOf, TestBit, Hardware.Translate, Hardware.HwFrame, Hardware.IsCanonical, EntryWord, Sound, IsHole;
    hide Hardware.PathOpen, NoHoleBelow, BackedWords, Leaf;
    BackedAt(backing, flags, k);
    Contexts.MappedAt(s, s', root, PageOf(addr), BackedWords(backing, flags), fl, Elements(backing), k);
    RangeByte(addr, k, off);
    EntryReadsBack(backing[k] * 4096, flags, 0);
    EntryReadsBack(backing[k] * 4096, flags, 1);
    EntryReadsBack(backing[k] * 4096, flags, 2);
    Rights.MapsRoot(s, s', root, PageOf(addr), BackedWords(backing, flags), fl, Elements(backing));
    Hardware.TranslateIsLeaf(s', root, va);
  }

  lemma BackedAt(backing: seq<nat>, flags: u64, k: nat)
    requires SmallFrames(backing) && k < |backing|
    ensures |BackedWords(backing, flags)| == |backing|
    ensures BackedWords(backing, flags)[k] == EntryWord(backing[k] * 4096, flags)
  {}

  lemma RangeByte(addr: u64, k: nat, off: nat)
    requires addr % 4096 == 0 && off < 4096
    ensures PageOf(Wrap(addr + (4096 * k + off))) == PageAt(PageOf(addr), k)
    ensures Wrap(addr + (4096 * k + off)) % 4096 == off
  {
    hide PageOf, PageAt, Wrap;
    PageSteps(addr, 4096 * k, k);
    PageOfWrapped(addr + (4096 * k + off));
    PageOfWrapped(addr + 4096 * k);
    SamePageBytes(addr, 4096 * k + off, k);
    WrapOffset(addr + (4096 * k + off));
  }

  /**
    The search, said outright: below the address that is returned, or below the limit if there is none, every
    page-aligned address from `start` on has some page of the range already mapped.
   */
  lemma AllocIsLowest(s: State, s': State, root: nat, start: nat, limit: nat, addr: u64, n: nat, words: seq<u64>,
                      fl: u64, data: set<nat>, a: u64)
    requires FillsLowestHole(s, s', root, start, limit, addr, n, words, fl, data)
    requires start <= a < (if addr != 0 then addr else limit) && a % 4096 == 0
    ensures exists k: nat :: k < n && Leaf(s.mem, root, PageOf(Wrap(a + 4096 * k))) != 0
  {
    hide Maps, PageOf, Leaf, Wrap;
    assert !IsHole(s.mem, root, PageOf(a), n);
    var k: nat :| k < n && Leaf(s.mem, root, PageAt(PageOf(a), k)) != 0;
    PageSteps(a, 4096 * k, k);
  }

  /** The first user allocation of a context whose lower half is empty is put at 1 MiB. */
  lemma FirstUserAllocation(s: State, s': State, root: nat, limit: nat, addr: u64, n: nat, words: seq<u64>, fl: u64,
                            data: set<nat>)
    requires Sound(s) && IsRoot(s, root) && Rights.KernelOnly(s, root) && limit > 0x10_0000
    requires FillsLowestHole(s, s', root, 0x10_0000, limit, addr, n, words, fl, data)
    requires 0x10_0000 + 4096 * n <= 0x8000_0000_0000
    ensures addr == 0x10_0000
  {
    hide Sound, Maps, Rights.KernelOnly, Leaf;
    var first := PageOf(0x10_0000);
    forall k: nat | k < n ensures Leaf(s.mem, root, PageAt(first, k)) == 0 {
      NoWrap(first, k);
      EmptyLower(s, root, first + k);
    }
    assert IsHole(s.mem, root, first, n);
  }

  lemma EmptyLower(s: State, root: nat, p: nat)
    requires Sound(s) && IsRoot(s, root) && Rights.KernelOnly(s, root) && p < UPPER_HALF
    ensures Leaf(s.mem, root, p) == 0
  {
    hide Sound, Leaf, Index;
    Rights.HalfSlots(p);
    Rights.EmptySlot(s, root, p);
  }

  /** It also leaves every context's access to every other page as it was, rights included. */
  lemma AllocLeavesOthers(s: State, s': State, root: nat, start: nat, limit: nat, addr: u64, n: nat, words: seq<u64>,
                          fl: u64, data: set<nat>, r: nat, va: u64)
    requires Sound(s) && FillsLowestHole(s, s', root, start, limit, addr, n, words, fl, data)
    requires IsRoot(s, r) && (addr != 0 ==> PageOf(va) !in RangePages(PageOf(addr), n))
    ensures Hardware.Translate(s'.mem, r, va) == Hardware.Translate(s.mem, r, va)
  {
    hide Sound, NoHoleBelow, PageOf, Maps, IsHole, Hardware.Translate, RangePages;
    if addr != 0 {
      MapLeavesOthers(s, s', root, PageOf(addr), words, fl, data, r, va);
    }
  }

  /**
    `virt_get_physical_address` gives where an access to a mapped address goes exactly if the address
    is page-aligned, as the offset is not added, and bit 52 of the entry is clear, as the processor ignores it.
   */
  lemma PhysicalAddressIff(s: State, root: nat, va: u64)
    requires Sound(s) && IsRoot(s, root) && Hardware.IsCanonical(va) && TestBit(Leaf(s.mem, root, PageOf(va)), 0)
    ensures var leaf, a := Leaf(s.mem, root, PageOf(va)), Hardware.Translate(s.mem, root, va);
            a.Mapped? && (FrameOf(leaf) * 4096 == a.addr <==> va % 4096 == 0 && leaf / 0x10_0000_0000_0000 % 2 == 0)
  {
    hide TestBit, Hardware.Translate, PageOf, Sound, Hardware.PathOpen;
    Hardware.TranslateIsLeaf(s, root, va);
    Hardware.MaskBit52(Leaf(s.mem, root, PageOf(va)));
  }

  // ---------------------------------------------------------------- from boot on

  /**
    After boot every byte of a page-aligned region of the six mapped kinds is where the direct map says, readable
    and writable; so is every byte of an unaligned one whose rounded length makes up for its offset.
   */
  lemma RegionBytes(s: State, root: nat, hhdm: u64, entries: seq<MemmapEntry>, fb: Framebuffer, exe: Executable,
                    j: nat, p: nat)
    requires Sound(s) && IsRoot(s, root) && Boot.BootLayout(hhdm, entries, fb, exe)
    requires Boot.BootMap(s, root, hhdm, entries, fb, exe)
    requires hhdm % 4096 == 0 && hhdm >= Rights.UPPER_START && j < |entries|
    requires entries[j].kind.Usable? || entries[j].kind.BootloaderReclaimable? || entries[j].kind.ExecutableAndModules?
             || entries[j].kind.ReservedMapped? || entries[j].kind.AcpiReclaimable? || entries[j].kind.AcpiNvs?
    requires var e := entries[j]; e.base % 4096 == 0 || e.base % 4096 + e.length <= 4096 * Ceil(e.length, 4096)
    requires entries[j].base <= p < entries[j].base + entries[j].length
    ensures var a := Hardware.Translate(s.mem, root, hhdm + p); a.Mapped? && a.addr == p && a.writable
  {
    hide Sound, PageOf, DirectMap.DirectMapped, DirectMap.Covered, DirectMap.EntryFrames, Hardware.Translate;
    DirectMap.RegionCoveredIff(entries[j]);
    DirectMap.EntryCovered(entries, |entries|, j);
    assert hhdm + entries[j].base + entries[j].length <= exe.virtualBase by { assert entries[j] in entries; }
    var f := p / 4096;
    assert f in DirectMap.EntryFrames(entries[j]);
    DirectMap.DirectAccess(s, root, hhdm, Boot.BootFrames(hhdm, entries, fb), f, p % 4096, hhdm + p);
  }

  /**
    After boot no other byte of physical memory can be accessed through the direct map: not those of reserved or bad
    memory, or of any other memory that no mapped region, nor the framebuffer, nor the kernel window reaches.
   */
  lemma NothingElseMapped(s: State, root: nat, hhdm: u64, entries: seq<MemmapEntry>, fb: Framebuffer, exe: Executable,
                          p: nat, f: nat, va: u64)
    requires Sound(s) && IsRoot(s, root) && Boot.BootLayout(hhdm, entries, fb, exe)
    requires Boot.BootMap(s, root, hhdm, entries, fb, exe)
    requires hhdm % 4096 == 0 && hhdm >= Rights.UPPER_START && va == hhdm + p && f == p / 4096
    requires forall j | 0 <= j < |entries|
                        && (entries[j].kind.Usable? || entries[j].kind.BootloaderReclaimable?
                            || entries[j].kind.ExecutableAndModules? || entries[j].kind.ReservedMapped?
                            || entries[j].kind.AcpiReclaimable? || entries[j].kind.AcpiNvs?) ::
               !(entries[j].base / 4096 <= f < entries[j].base / 4096 + Ceil(entries[j].length, 4096))
    requires var screen := (fb.address - hhdm) / 4096; !(screen <= f < screen + Ceil(Boot.FbSize(fb), 4096))
    requires !(exe.virtualBase <= va < exe.virtualBase + 4096 * Ceil(exe.size, 4096))
    ensures Hardware.Translate(s.mem, root, va) == Hardware.Fault
  {
    hide Sound, Boot.BootMap, Hardware.Translate, Boot.BootFrames, Boot.FbSize, Boot.BootLayout, Ceil, IsRoot;
    ScreenAbove(hhdm, entries, fb, exe);
    NotCovered(hhdm, entries, fb, f);
    UnreachedFaults(s, root, hhdm, entries, fb, exe, p, va);
  }

  lemma UnreachedFaults(s: State, root: nat, hhdm: u64, entries: seq<MemmapEntry>, fb: Framebuffer, exe: Executable,
                        p: nat, va: u64)
    requires Sound(s) && IsRoot(s, root) && Boot.BootLayout(hhdm, entries, fb, exe)
    requires Boot.BootMap(s, root, hhdm, entries, fb, exe)
    requires hhdm % 4096 == 0 && hhdm >= Rights.UPPER_START && va == hhdm + p
    requires p / 4096 !in Boot.BootFrames(hhdm, entries, fb)
    requires !(exe.virtualBase <= va < exe.virtualBase + 4096 * Ceil(exe.size, 4096))
    ensures Hardware.Translate(s.mem, root, va) == Hardware.Fault
  {
    hide *;
    ScreenAbove(hhdm, entries, fb, exe);
    NotReached(hhdm, entries, fb, exe, p);
    ElseUnmapped(s, root, hhdm, entries, fb, exe, PageOf(va));
    UnmappedFaults(s, root, va);
  }

  lemma UnmappedFaults(s: State, root: nat, va: u64)
    requires Sound(s) && IsRoot(s, root) && Leaf(s.mem, root, PageOf(va)) == 0
    ensures Hardware.Translate(s.mem, root, va) == Hardware.Fault
  {
    ZeroTest(0);
    hide Sound, Leaf, PageOf, Hardware.Translate, TestBit;
    Unmapped(s, root, va);
  }

  lemma ElseUnmapped(s: State, root: nat, hhdm: u64, entries: seq<MemmapEntry>, fb: Framebuffer, exe: Executable,
                     q: nat)
    requires hhdm <= fb.address && Boot.BootMap(s, root, hhdm, entries, fb, exe) && q < PAGES
    requires q !in DirectMap.DirectPages(PageOf(hhdm), Boot.BootFrames(hhdm, entries, fb))
    requires q !in RangePages(PageOf(exe.virtualBase), Ceil(exe.size, 4096))
    ensures Leaf(s.mem, root, q) == 0
  {
    hide Leaf, PageOf, RangePages, DirectMap.DirectPages, Boot.BootFrames, DirectMap.DirectMapped;
  }

  lemma NotReached(hhdm: u64, entries: seq<MemmapEntry>, fb: Framebuffer, exe: Executable, p: nat)
    requires Boot.BootLayout(hhdm, entries, fb, exe) && hhdm % 4096 == 0 && hhdm >= Rights.UPPER_START
    requires hhdm + p < TWO_64 && p / 4096 !in Boot.BootFrames(hhdm, entries, fb)
    requires !(exe.virtualBase <= hhdm + p < exe.virtualBase + 4096 * Ceil(exe.size, 4096))
    ensures PageOf(hhdm + p) !in DirectMap.DirectPages(PageOf(hhdm), Boot.BootFrames(hhdm, entries, fb))
    ensures PageOf(hhdm + p) !in RangePages(PageOf(exe.virtualBase), Ceil(exe.size, 4096))
  {
    hide Boot.BootFrames, PageOf, RangePages, DirectMap.DirectPages, DirectMap.Below, Ceil, Boot.FbSize;
    Boot.BootBelow(hhdm, entries, fb, exe);
    Boot.WindowFits(hhdm, entries, fb, exe);
    NotInDirectMap(hhdm, Boot.BootFrames(hhdm, entries, fb), exe.virtualBase, p);
    NotInWindow(hhdm, exe, p);
  }

  lemma ScreenAbove(hhdm: u64, entries: seq<MemmapEntry>, fb: Framebuffer, exe: Executable)
    requires Boot.BootLayout(hhdm, entries, fb, exe)
    ensures hhdm <= fb.address
  {}

  lemma NotCovered(hhdm: u64, entries: seq<MemmapEntry>, fb: Framebuffer, f: nat)
    requires hhdm <= fb.address
    requires forall j | 0 <= j < |entries|
                        && (entries[j].kind.Usable? || entries[j].kind.BootloaderReclaimable?
                            || entries[j].kind.ExecutableAndModules? || entries[j].kind.ReservedMapped?
                            || entries[j].kind.AcpiReclaimable? || entries[j].kind.AcpiNvs?) ::
               !(entries[j].base / 4096 <= f < entries[j].base / 4096 + Ceil(entries[j].length, 4096))
    requires var screen := (fb.address - hhdm) / 4096; !(screen <= f < screen + Ceil(Boot.FbSize(fb), 4096))
    ensures f !in Boot.BootFrames(hhdm, entries, fb)
  {
    hide DirectMap.Covered, Boot.FbSize;
    DirectMap.CoveredIff(entries, |entries|, f);
  }

  /** A byte of a frame outside the set is not at the place of any frame of it. */
  lemma NotInDirectMap(hhdm: u64, frames: set<nat>, top: int, p: nat)
    requires hhdm % 4096 == 0 && hhdm >= Rights.UPPER_START && hhdm + p < TWO_64 && p / 4096 !in frames
    requires DirectMap.Below(hhdm, frames, top) && top <= TWO_64
    ensures PageOf(hhdm + p) !in DirectMap.DirectPages(PageOf(hhdm), frames)
  {
    hide PageOf;
    UpperPage(hhdm);
    UpperPage(hhdm + p);
    assert (hhdm + p) / 4096 == hhdm / 4096 + p / 4096;
    forall f | f in frames ensures PageAt(PageOf(hhdm), f) != PageOf(hhdm + p) {
      assert hhdm + f * 4096 < top;
      NoWrap(PageOf(hhdm), f);
    }
  }

  lemma NotInWindow(hhdm: u64, exe: Executable, p: nat)
    requires hhdm >= Rights.UPPER_START && hhdm <= exe.virtualBase && exe.virtualBase % 4096 == 0
    requires hhdm + p < TWO_64 && exe.virtualBase + 4096 * Ceil(exe.size, 4096) <= TWO_64
    requires !(exe.virtualBase <= hhdm + p < exe.virtualBase + 4096 * Ceil(exe.size, 4096))
    ensures PageOf(hhdm + p) !in RangePages(PageOf(exe.virtualBase), Ceil(exe.size, 4096))
  {
    hide PageOf, Ceil;
    UpperPage(exe.virtualBase);
    UpperPage(hhdm + p);
    if PageOf(hhdm + p) in RangePages(PageOf(exe.virtualBase), Ceil(exe.size, 4096)) {
      RangeBounds(PageOf(exe.virtualBase), Ceil(exe.size, 4096), PageOf(hhdm + p));
    }
  }

  /** After boot every byte of the kernel is at its place in the kernel window. */
  lemma WindowBytes(s: State, root: nat, hhdm: u64, entries: seq<MemmapEntry>, fb: Framebuffer, exe: Executable, i: nat,
                    va: u64)
    requires Sound(s) && IsRoot(s, root) && Boot.BootLayout(hhdm, entries, fb, exe) && hhdm >= Rights.UPPER_START
    requires Boot.BootMap(s, root, hhdm, entries, fb, exe)
    requires exe.physicalBase % 4096 == 0 && exe.physicalBase + exe.size <= Phys.MAX_PHYS
    requires i < exe.size && va == exe.virtualBase + i
    ensures var a := Hardware.Translate(s.mem, root, va);
            a.Mapped? && a.addr == exe.physicalBase + i && a.writable && !a.user
  {
    hide Sound, Hardware.Translate, PageOf, EntryWord, Hardware.PathOpen, Leaf, Boot.BootMap, Hardware.HwFrame, Ceil;
    hide TestBit, Boot.BootLayout;
    WindowPlace(hhdm, entries, fb, exe);
    WindowPage(exe, i, i / 4096);
    WindowEntry(s, root, hhdm, entries, fb, exe, i / 4096);
    KernelFlags(exe.physicalBase + 4096 * (i / 4096));
    Hardware.TranslateIsLeaf(s, root, va);
  }

  lemma WindowPlace(hhdm: u64, entries: seq<MemmapEntry>, fb: Framebuffer, exe: Executable)
    requires Boot.BootLayout(hhdm, entries, fb, exe) && hhdm >= Rights.UPPER_START
    ensures hhdm <= fb.address && exe.virtualBase % 4096 == 0 && exe.virtualBase >= Rights.UPPER_START
    ensures exe.virtualBase + exe.size <= MAX_SIZE - 4096
  {}

  lemma WindowEntry(s: State, root: nat, hhdm: u64, entries: seq<MemmapEntry>, fb: Framebuffer, exe: Executable, k: nat)
    requires hhdm <= fb.address && Boot.BootMap(s, root, hhdm, entries, fb, exe) && k < Ceil(exe.size, 4096)
    ensures Leaf(s.mem, root, PageAt(PageOf(exe.virtualBase), k)) == EntryWord(Wrap(exe.physicalBase + 4096 * k), 3)
  {
    hide Leaf, PageOf, EntryWord, Ceil, Wrap, Boot.BootFrames, DirectMap.DirectMapped, DirectMap.DirectPages;
  }

  lemma KernelFlags(addr: u64)
    requires addr % 4096 == 0 && addr < Phys.MAX_PHYS
    ensures var e := EntryWord(addr, 3);
            && Hardware.HwFrame(e) * 4096 == addr
            && Hardware.Present(e) && Hardware.Writable(e) && !Hardware.User(e)
  {
    Contexts.ThreeBits();
    EntryReadsBack(addr, 3, 0);
    EntryReadsBack(addr, 3, 1);
    EntryReadsBack(addr, 3, 2);
  }

  lemma WindowPage(exe: Executable, i: nat, k: nat)
    requires exe.virtualBase % 4096 == 0 && exe.virtualBase >= Rights.UPPER_START
    requires exe.virtualBase + exe.size <= MAX_SIZE - 4096 && i < exe.size && k == i / 4096
    requires exe.physicalBase % 4096 == 0 && exe.physicalBase + exe.size <= Phys.MAX_PHYS
    ensures k < Ceil(exe.size, 4096) && PageOf(exe.virtualBase + i) == PageAt(PageOf(exe.virtualBase), k)
    ensures (exe.virtualBase + i) % 4096 == i % 4096 && exe.physicalBase + 4096 * k + i % 4096 == exe.physicalBase + i
    ensures Wrap(exe.physicalBase + 4096 * k) == exe.physicalBase + 4096 * k < Phys.MAX_PHYS
    ensures (exe.physicalBase + 4096 * k) % 4096 == 0
  {
    hide PageOf, PageAt;
    UpperPage(exe.virtualBase);
    UpperPage(exe.virtualBase + i);
    assert (exe.virtualBase + i) / 4096 == exe.virtualBase / 4096 + k;
    NoWrap(PageOf(exe.virtualBase), k);
  }

  /** After boot every byte of `bits / 8` bytes of framebuffer is where the boot loader said. */
  lemma FramebufferBytes(s: State, root: nat, hhdm: u64, entries: seq<MemmapEntry>, fb: Framebuffer, exe: Executable,
                         bits: nat, i: nat, va: u64)
    requires Sound(s) && IsRoot(s, root) && Boot.BootLayout(hhdm, entries, fb, exe)
    requires Boot.BootMap(s, root, hhdm, entries, fb, exe) && hhdm % 4096 == 0 && hhdm >= Rights.UPPER_START
    requires fb.address % 4096 == 0 && bits == fb.width * fb.height * fb.bpp && bits < TWO_64
    requires i < bits / 8 && va == fb.address + i
    ensures var a := Hardware.Translate(s.mem, root, va); a.Mapped? && a.addr == va - hhdm && a.writable
  {
    hide *;
    ScreenSize(fb, bits);
    ScreenBytes(s, root, hhdm, entries, fb, exe, i, va);
  }

  lemma ScreenBytes(s: State, root: nat, hhdm: u64, entries: seq<MemmapEntry>, fb: Framebuffer, exe: Executable,
                    i: nat, va: u64)
    requires Sound(s) && IsRoot(s, root) && Boot.BootLayout(hhdm, entries, fb, exe)
    requires Boot.BootMap(s, root, hhdm, entries, fb, exe) && hhdm % 4096 == 0 && hhdm >= Rights.UPPER_START
    requires fb.address % 4096 == 0 && i < Boot.FbSize(fb) && va == fb.address + i
    ensures var a := Hardware.Translate(s.mem, root, va); a.Mapped? && a.addr == va - hhdm && a.writable
  {
    hide Sound, DirectMap.DirectMapped, Hardware.Translate, PageOf, DirectMap.Covered, Boot.FbSize, Boot.RunFrames;
    var p := va - hhdm;
    ScreenFrame(fb.address - hhdm, Boot.FbSize(fb), i);
    DirectMap.DirectAccess(s, root, hhdm, Boot.BootFrames(hhdm, entries, fb), p / 4096, p % 4096, va);
  }

  lemma ScreenSize(fb: Framebuffer, bits: nat)
    requires bits == fb.width * fb.height * fb.bpp && bits < TWO_64
    ensures Boot.FbSize(fb) == bits / 8
  {}

  lemma ScreenFrame(base: u64, size: u64, i: nat)
    requires base % 4096 == 0 && i < size
    ensures (base + i) / 4096 in Boot.RunFrames(base, size)
  {}

  /**
    The size takes no account of the pitch: all rows, `pitch` bytes apart, are mapped for the framebuffer exactly if
    the last one ends within its size rounded up to a page.
   */
  lemma FramebufferRowsIff(base: u64, size: u64, rows: nat, pitch: nat, rowBytes: nat)
    requires base % 4096 == 0 && rows > 0 && rowBytes > 0
    ensures (forall y: nat, x: nat | y < rows && x < rowBytes :: RowByteMapped(base, size, pitch, y, x))
            <==> (rows - 1) * pitch + rowBytes <= 4096 * Ceil(size, 4096)
  {
    var y', x' := rows - 1, rowBytes - 1;
    ByteMappedIff(base, size, y' * pitch + x');
    assert RowByteMapped(base, size, pitch, y', x') <==> y' * pitch + x' < 4096 * Ceil(size, 4096);
    if y' * pitch + x' < 4096 * Ceil(size, 4096) {
      forall y: nat, x: nat | y < rows && x < rowBytes ensures RowByteMapped(base, size, pitch, y, x) {
        MulMonotone(y, pitch, y', pitch);
        ByteMappedIff(base, size, y * pitch + x);
      }
    }
  }

  /** Byte `x` of row `y` lies in a frame that is mapped for the framebuffer. */
  ghost predicate RowByteMapped(base: u64, size: u64, pitch: nat, y: nat, x: nat) {
    (base + (y * pitch + x)) / 4096 in Boot.RunFrames(base, size)
  }

  lemma ByteMappedIff(base: u64, size: u64, i: nat)
    requires base % 4096 == 0
    ensures (base + i) / 4096 in Boot.RunFrames(base, size) <==> i < 4096 * Ceil(size, 4096)
  {}

  /** The tables as `virt_init` leaves them satisfy what the theorems about runs start from. */
  lemma BootStartsRuns(s: State, s': State, root: nat, hhdm: u64, entries: seq<MemmapEntry>, fb: Framebuffer,
                       exe: Executable)
    requires Sound(s') && Boot.FreshBoot(s, s', root) && Boot.BootLayout(hhdm, entries, fb, exe)
    requires Boot.BootMap(s', root, hhdm, entries, fb, exe)
    requires Boot.FreeWithin(s, Boot.BootFrames(hhdm, entries, fb))
    ensures Runs.Kept(Runs.Moment(s', {}, {}), root, PageOf(hhdm), Boot.BootFrames(hhdm, entries, fb))
    ensures Runs.AllSeparated(s') && Contexts.KernelPdptUnused(s', root)
  {
    hide Sound, PageOf, Boot.BootMap, Boot.BootFrames, Boot.FreeWithin, Rights.KernelOnly, Rights.Separated;
    Boot.BootIsKept(s, s', root, hhdm, entries, fb, exe);
    Rights.KernelOnlySeparated(s', root);
  }

  /**
    From boot on, over every run: all tables of all contexts stay within the kernel's reach; the kernel PDPT stays
    empty if no other context maps in its last slot; and if the run respects the halves, user mode can
    access, in every context, exactly what is mapped below bit 47.
   */
  lemma BootThenRun(s: State, boot: nat, hhdm: u64, entries: seq<MemmapEntry>, fb: Framebuffer, exe: Executable,
                    moments: seq<Runs.Moment>, events: seq<Runs.Event>, k: nat, r: nat, va: u64)
    requires Runs.IsRun(moments, events) && k < |moments| && moments[0] == Runs.Moment(moments[0].state, {}, {})
    requires Sound(moments[0].state) && Boot.FreshBoot(s, moments[0].state, boot)
    requires Boot.BootLayout(hhdm, entries, fb, exe) && Boot.BootMap(moments[0].state, boot, hhdm, entries, fb, exe)
    requires Boot.FreeWithin(s, Boot.BootFrames(hhdm, entries, fb))
    ensures Runs.Kept(moments[k], boot, PageOf(hhdm), Boot.BootFrames(hhdm, entries, fb))
    ensures (forall e | e in events :: Runs.AvoidsLastSlot(e, boot)) ==>
              Contexts.KernelPdptUnused(moments[k].state, boot)
    ensures (forall e | e in events :: Runs.RespectsHalves(e)) && IsRoot(moments[k].state, r) ==>
              var a := Hardware.Translate(moments[k].state.mem, r, va);
              a.Mapped? ==> (a.user <==> va < Rights.LOWER_END) && (va < Rights.LOWER_END ==> a.writable)
  {
    hide Sound, PageOf, Boot.BootMap, Boot.BootFrames, Boot.FreeWithin, Boot.FreshBoot, Runs.AllSeparated;
    hide Runs.Kept, Runs.Step, Contexts.KernelPdptUnused, Runs.RespectsHalves, Runs.AvoidsLastSlot;
    hide Hardware.Translate;
    var frames := Boot.BootFrames(hhdm, entries, fb);
    BootStartsRuns(s, moments[0].state, boot, hhdm, entries, fb, exe);
    Runs.RunKeeps(moments, events, boot, PageOf(hhdm), frames, k);
    if forall e | e in events :: Runs.AvoidsLastSlot(e, boot) {
      Runs.RunStaysUnused(moments, events, boot, PageOf(hhdm), frames, k);
    }
    if (forall e | e in events :: Runs.RespectsHalves(e)) && IsRoot(moments[k].state, r) {
      Runs.RunKeepsHalves(moments, events, boot, PageOf(hhdm), frames, k, r, va);
    }
  }

  /**
    Boot, then `virt_ctx_new`: the new tables are sound, all older contexts are still there, and in the new
    one every access faults, also to the kernel itself.
   */
  lemma BootThenNewContext(s0: State, s: State, boot: nat, start: nat, limit: nat, c: Contexts.Creation, root: nat,
                           s': State, va: u64)
    requires Sound(s) && Boot.FreshBoot(s0, s, boot) && Contexts.FreeFramesZero(s0)
    requires Contexts.CreatesContext(s, boot, start, limit, c, root, s')
    ensures Sound(s') && IsRoot(s', root) && IsRoot(s', boot)
    ensures Hardware.Translate(s'.mem, root, va) == Hardware.Fault
  {
    hide Sound, Hardware.Translate, Contexts.CreatesContext, Contexts.KernelPdptUnused, PageOf, Leaf;
    hide Contexts.FreeFramesZero, Contexts.ZeroBelowLast;
    Contexts.CreationKeeps(s, boot, start, limit, c, root, s');
    Contexts.FreshRootIsZero(s, boot, start, limit, c, root, s');
    Contexts.AgreesWithBootIff(s, boot, start, limit, c, root, s', PageOf(va));
    ZeroTest(0);
    Unmapped(s', root, va);
  }

  /**
    Making a context changes no access of an older one except at the structure's page: the new PML4 is not part of
    their tables, whatever its frame held.
   */
  lemma CreationKeepsAccess(s: State, current: nat, start: nat, limit: nat, c: Contexts.Creation, root: nat, s': State,
                            r: nat, va: u64)
    requires Sound(s) && Contexts.CreatesContext(s, current, start, limit, c, root, s') && IsRoot(s, r)
    ensures Hardware.Translate(s'.mem, r, va) == Hardware.Translate(c.filled.mem, r, va)
    ensures (c.addr != 0 ==> PageOf(va) != PageOf(c.addr)) ==>
              Hardware.Translate(s'.mem, r, va) == Hardware.Translate(s.mem, r, va)
  {
    Contexts.FilledKeeps(s, current, start, limit, c, r);
    OutsideTables(c, root, r, va);
    hide Sound, Maps, NoHoleBelow, IsHole, PageOf, Hardware.Translate, Contexts.NewContext, Contexts.CanBeContext;
    if c.addr != 0 && PageOf(va) != PageOf(c.addr) {
      OnePage(PageOf(c.addr), Contexts.StructureEntry(c));
      MapLeavesOthers(s, c.filled, current, PageOf(c.addr), [Contexts.StructureEntry(c)], LinkFlags(false),
                      {c.frame}, r, va);
    }
  }

  /** To the older contexts, the write of the new PML4's last slot is a write outside their tables. */
  lemma OutsideTables(c: Contexts.Creation, root: nat, r: nat, va: u64)
    requires Sound(c.filled) && IsRoot(c.filled, r) && c.before == c.filled.(used := c.filled.used + {root})
    requires Contexts.CanBeContext(c.before, root) && c.before.kernelPdpt < MAX_FRAMES
    ensures Hardware.Translate(Contexts.NewContext(c.before, root).mem, r, va)
            == Hardware.Translate(c.filled.mem, r, va)
  {
    hide Sound, PageOf, Leaf, Keeps, Hardware.Translate;
    DirectMap.WriteAccess(c.before, root, 511, c.before.kernelPdpt * 4096 + 3, r, PageOf(va));
    var w := c.before.kernelPdpt * 4096 + 3;
    Rights.SameAccess(c.before, c.before.(mem := Store(c.before.mem, root, 511, w)), r, va);
  }

  /**
    The structure of a new context lies in a frame of its own: the processor's access to its page in the current
    context reaches a frame that was free before, holds no table and is not the new PML4, and may write there.
   */
  lemma StructureAccess(s: State, current: nat, start: nat, limit: nat, c: Contexts.Creation, root: nat, s': State,
                        off: nat)
    requires Sound(s) && IsRoot(s, current) && start >= Rights.UPPER_START && limit <= MAX_SIZE
    requires Contexts.CreatesContext(s, current, start, limit, c, root, s') && c.addr != 0 && off < 4096
    ensures c.frame !in s.used && c.frame in s'.used && c.frame !in s'.tags && c.frame != root
    ensures var a := Hardware.Translate(s'.mem, current, c.addr + off);
            a.Mapped? && a.addr == c.frame * 4096 + off && a.writable
  {
    hide Sound, Maps, NoHoleBelow, IsHole, PageOf, Hardware.Translate, Contexts.NewContext, Contexts.CanBeContext;
    hide EntryWord;
    Contexts.StructureFresh(s, current, start, limit, c, root, s');
    CreationKeepsAccess(s, current, start, limit, c, root, s', current, c.addr + off);
    FilledAccess(s, c.filled, current, start, limit, c.addr, c.frame, off);
  }

  lemma FilledAccess(s: State, s': State, current: nat, start: nat, limit: nat, addr: u64, frame: FrameNumber, off: nat)
    requires Sound(s) && IsRoot(s, current) && start >= Rights.UPPER_START && limit <= MAX_SIZE
    requires FillsLowestHole(s, s', current, start, limit, addr, 1, [EntryWord(frame * 4096, 3)], LinkFlags(false),
                             {frame})
    requires addr != 0 && off < 4096
    ensures var a := Hardware.Translate(s'.mem, current, addr + off);
            a.Mapped? && a.addr == frame * 4096 + off && a.writable
  {
    Contexts.ThreeBits();
    hide Sound, Maps, NoHoleBelow, IsHole, PageOf, Hardware.Translate, TestBit, EntryWord, LinkFlags;
    assert BackedWords([frame], ALLOC_FLAGS) == [EntryWord(frame * 4096, 3)];
    OneElement(frame);
    AllocReaches(s, s', current, start, limit, addr, [frame], ALLOC_FLAGS, LinkFlags(false), 0, off, addr + off);
  }

  /**
    What `virt_alloc` and `virt_map_anywhere` do respects the halves if the range does not run past the
    last address.
   */
  lemma KernelFillRespects(root: nat, addr: u64, words: seq<u64>, data: set<nat>)
    requires addr >= Rights.UPPER_START && addr + 4096 * |words| <= TWO_64
    ensures Runs.RespectsHalves(Runs.Fill(root, PageOf(addr), words, LinkFlags(false), data))
  {
    LinkFlagValues(false);
    Rights.PagesOfUpper(addr, |words|);
  }

  /** What `virt_user_alloc` does respects them if the range ends at or below bit 47. */
  lemma UserFillRespects(root: nat, addr: u64, backing: seq<nat>, data: set<nat>)
    requires SmallFrames(backing) && addr + 4096 * |backing| <= Rights.LOWER_END
    ensures Runs.RespectsHalves(Runs.Fill(root, PageOf(addr), BackedWords(backing, USER_FLAGS), LinkFlags(true), data))
  {
    LinkFlagValues(true);
    Rights.PagesOfLower(addr, |backing|);
    var words := BackedWords(backing, USER_FLAGS);
    forall w | w in words ensures Rights.UserEntry(w) {
      var k :| 0 <= k < |backing| && words[k] == w;
      UserWord(backing[k]);
    }
  }

  lemma UserWord(f: nat)
    requires f < MAX_FRAMES
    ensures Rights.UserEntry(EntryWord(f * 4096, USER_FLAGS))
  {
    Contexts.ThreeBits();
    EntryOfAny(f * 4096, USER_FLAGS, 0);
    EntryOfAny(f * 4096, USER_FLAGS, 1);
    EntryOfAny(f * 4096, USER_FLAGS, 2);
  }
}
