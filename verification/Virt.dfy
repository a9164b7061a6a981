/**
  The kernel's virtual memory manager: page tables in physical frames, edited in place and
  allocated from the frame allocator.

  A pointer to a table is modelled by the number of the frame it points to; that a table is
  reachable through the direct map at that address is proved separately (DirectMap).
  Running out of frames halts the kernel: such a call returns `ok == false`.
 */
module Virt {
  import opened Bits
  import opened Rounding
  import opened Options
  import opened PageTables
  import opened TableEdits
  import opened Growth
  import opened Mapping
  import opened Entries
  import opened Limine
  import Contexts
  import opened Boot
  import DirectMap
  import Phys
  import Runs

  const VIRT_PAGE_SIZE: u64 := 4096
  const SCAN_LIMIT: u64 := 0xffff_ffff_ffff_0000

  /** A context argument: null stands for the tables CR3 points to. */
  datatype VirtCtx = Current | Ctx(phys: u64)

  datatype EntryPtr = Null | Entry(table: nat, index: nat)

  /** The entry the lookup of a page yields, by the reference walk. */
  ghost function EntryOf(m: Memory, root: nat, page: nat): EntryPtr {
    match Node(m, root, page, 1)
    case None => Null
    case Some(f) => Entry(f, Index(page, 1))
  }

  ghost predicate BitsClear(frame: Frame, n: nat)
    requires n <= 64 * ENTRIES
  {
    forall b | 0 <= b < n :: !TestBit(frame[b / 64], b % 64)
  }

  lemma ClearByte(frame: Frame, i: nat)
    requires i < 4096 && BitsClear(frame, 8 * i)
    ensures BitsClear(frame[i / 8 := StoreByte(frame[i / 8], i % 8, 0)], 8 * i + 8)
  {
    var frame' := frame[i / 8 := StoreByte(frame[i / 8], i % 8, 0)];
    forall b | 0 <= b < 8 * i + 8 ensures !TestBit(frame'[b / 64], b % 64) {
      if b / 64 == i / 8 {
        StoreByteBits(frame[i / 8], i % 8, 0, b % 64);
        ZeroTest(b % 64 % 8);
      }
    }
  }

  lemma AllClear(frame: Frame)
    requires BitsClear(frame, 64 * ENTRIES)
    ensures frame == ZeroFrame()
  {
    PowersOfTwo();
    forall i | 0 <= i < ENTRIES ensures frame[i] == 0 {
      forall k | 0 <= k < 64 ensures TestBit(frame[i], k) == TestBit(0, k) {
        assert !TestBit(frame[(64 * i + k) / 64], (64 * i + k) % 64);
        ZeroTest(k);
      }
      SameBits(frame[i], 0, 64);
    }
  }

  const USER_START: u64 := 0x10_0000

  lemma AllocFlagBits()
    ensures !TestBit(ALLOC_FLAGS, 7) && !TestBit(USER_FLAGS, 7)
  {
    LinkFlagValues(false);
    LinkFlagValues(true);
  }

  ghost predicate Distinct(frames: seq<nat>) {
    forall i, j | 0 <= i < j < |frames| :: frames[i] != frames[j]
  }

  ghost predicate SmallFrames(frames: seq<nat>) {
    forall i | 0 <= i < |frames| :: frames[i] < MAX_FRAMES
  }

  ghost function Elements(frames: seq<nat>): set<nat> {
    set i | 0 <= i < |frames| :: frames[i]
  }

  /** The entries of pages backed by the given frames. */
  ghost function BackedWords(frames: seq<nat>, flags: u64): seq<u64>
    requires SmallFrames(frames)
  {
    seq(|frames|, (k: nat) requires k < |frames| => EntryWord(frames[k] * 4096, flags))
  }

  lemma NoBacking(flags: u64)
    ensures Distinct([]) && SmallFrames([]) && BackedWords([], flags) == [] && Elements([]) == {}
  {}

  lemma BackedNext(frames: seq<nat>, f: nat, flags: u64)
    requires SmallFrames(frames) && f < MAX_FRAMES
    ensures BackedWords(frames + [f], flags) == BackedWords(frames, flags) + [EntryWord(f * 4096, flags)]
  {}

  /** A page-aligned address has one entry word, whether mapped for the kernel or for user mode. */
  lemma OneWord(phys: u64, flags: u64)
    ensures MapWords(phys, Ceil(4096, 4096), flags) == [EntryWord(phys, flags)]
    ensures SameWords(phys, Ceil(4096, 4096), flags) == [EntryWord(phys, flags)]
  {}

  /** The frame just taken was not among those already backing the range. */
  lemma FreshBacking(s: State, before: State, root: nat, first: nat, words: seq<u64>, fl: u64, backing: seq<nat>,
                     f: nat)
    requires Sound(s) && IsRoot(s, root) && Distinct(backing) && SmallFrames(backing) && f < MAX_FRAMES
    requires Maps(s, before, root, first, words, fl, Elements(backing)) && f !in before.used
    ensures Distinct(backing + [f]) && SmallFrames(backing + [f]) && Elements(backing + [f]) == Elements(backing) + {f}
    ensures Maps(s, before.(used := before.used + {f}), root, first, words, fl, Elements(backing + [f]))
  {
    TakeData(s, before, root, first, words, fl, Elements(backing), f);
    forall i | 0 <= i < |backing| ensures backing[i] != f {
      assert backing[i] in Elements(backing);
    }
    ElementsNext(backing, f);
  }

  lemma OneElement(f: nat)
    ensures Elements([f]) == {f}
  {
    assert [f][0] == f;
  }

  lemma ElementsNext(frames: seq<nat>, f: nat)
    ensures Elements(frames + [f]) == Elements(frames) + {f}
  {
    var more := frames + [f];
    forall g | g in Elements(frames) + {f} ensures g in Elements(more) {
      if g == f {
        assert more[|frames|] == f;
      } else {
        var i :| 0 <= i < |frames| && frames[i] == g;
        assert more[i] == g;
      }
    }
  }

  class AddressSpaces {
    const phys: Phys.FrameAllocator
    const frames: array<Frame>
    var hhdmOffset: u64
    var cr3: u64
    var kernelPdpt: nat
    ghost var tags: map<nat, Tag>

    constructor (phys: Phys.FrameAllocator, frames: array<Frame>, hhdmOffset: u64)
      requires phys.Valid() && phys.bitmap as object != frames as object && frames.Length <= MAX_FRAMES
      requires 0 in phys.Used() && frames.Length <= phys.Capacity()
      requires hhdmOffset % 4096 == 0 && 0xffff_8000_0000_0000 <= hhdmOffset < SCAN_LIMIT
      ensures Valid() && Now() == State(frames[..], map[], phys.Used(), 0)
      ensures this.phys == phys && this.frames == frames && this.hhdmOffset == hhdmOffset
    {
      this.phys := phys;
      this.frames := frames;
      this.hhdmOffset := hhdmOffset;
      cr3 := 0;
      kernelPdpt := 0;
      tags := map[];
    }

    ghost function Now(): State
      reads this, phys, phys.bitmap, frames
    {
      State(frames[..], tags, phys.Used(), kernelPdpt)
    }

    /** Frame 0 is never handed out, and the bitmap covers all of memory; it may have bits past the end. */
    ghost predicate Valid()
      reads this, phys, phys.bitmap, frames
    {
      && phys.Valid() && phys.bitmap as object != frames as object
      && 0 in phys.Used()
      && frames.Length <= phys.Capacity()
      && hhdmOffset % 4096 == 0 && 0xffff_8000_0000_0000 <= hhdmOffset < SCAN_LIMIT
      && Sound(Now())
    }

    /** Every frame of memory is used. */
    ghost predicate OutOfMemory()
      reads this, phys, phys.bitmap
    {
      Phys.AllUsed(phys.Used(), 0, frames.Length)
    }

    function RootOf(ctx: VirtCtx): nat
      reads this
    {
      match ctx
      case Current => cr3 / 4096
      case Ctx(phys) => phys / 4096
    }

    /**
      The lowest free frame of memory, or 0 when there is none. The allocator may then still hand out a
      frame past the end of memory; nothing can be done with it, so it counts as none.
     */
    method TakeFrame() returns (addr: u64)
      requires Valid()
      modifies phys.bitmap
      ensures Valid()
      ensures addr == 0 ==> OutOfMemory() && Now() == old(Now()).(used := phys.Used())
      ensures addr != 0 ==> addr % 4096 == 0 && addr / 4096 == Phys.FirstFree(old(phys.Used()), 0, frames.Length)
                            && addr / 4096 < frames.Length && addr / 4096 !in old(phys.Used())
                            && Now() == old(Now()).(used := old(phys.Used()) + {addr / 4096})
    {
      hide Sound;
      ghost var before := Now();
      Phys.FirstFreeIsLowest(phys.Used(), 0, phys.Capacity());
      Phys.FirstFreeWithin(phys.Used(), frames.Length, phys.Capacity());
      addr := phys.Alloc();
      TakeSound(before, addr / 4096);
      if addr / 4096 >= frames.Length {
        addr := 0;
      }
    }

    /** `memset(frame, 0, VIRT_PAGE_SIZE)`, byte by byte. */
    method ClearFrame(f: nat)
      requires f < frames.Length
      modifies frames
      ensures frames[..] == old(frames[..])[f := ZeroFrame()]
    {
      var i := 0;
      while i < VIRT_PAGE_SIZE
        invariant 0 <= i <= 4096
        invariant BitsClear(frames[f], 8 * i)
        invariant frames[..] == old(frames[..])[f := frames[f]]
      {
        ClearByte(frames[f], i);
        frames[f] := frames[f][i / 8 := StoreByte(frames[f][i / 8], i % 8, 0)];
        i := i + 1;
      }
      AllClear(frames[f]);
    }

    /** The slot of a table, or null when it is empty. */
    method GetEntryPtr(table: nat, index: nat) returns (p: EntryPtr)
      requires table < frames.Length && index < ENTRIES
      ensures p == if frames[table][index] == 0 then Null else Entry(table, index)
    {
      var entry := frames[table][index];
      if entry == 0 {
        return Null;
      }
      return Entry(table, index);
    }

    /** The slot of a table, after a cleared table has been linked into it if it was empty. */
    method GetOrCreateEntryPtr(table: nat, index: nat, flags: u64) returns (ok: bool, p: EntryPtr)
      requires Valid() && table in tags && tags[table].level > 1 && table < frames.Length && index < ENTRIES
      requires TableFlags(flags)
      modifies this`tags, frames, phys.bitmap
      ensures Valid()
      ensures ok ==> p == Entry(table, index) && SlotFilled(old(Now()), Now(), table, index, flags)
      ensures !ok ==> OutOfMemory()
    {
      var entry := frames[table][index];
      if entry == 0 {
        ghost var before := Now();
        var addr := TakeFrame();
        if addr == 0 {
          return false, Null;
        }
        ghost var g := addr / 4096;
        TagsUsed(before);
        ClearFrame(addr / 4096);
        LinkWord(g, flags);
        frames[table] := frames[table][index := EntryWord(EntryWord(addr, flags), VF_PRESENT)];
        tags := tags[g := ChildTag(before, table, index)];
        assert CanLink(before, table, index, g);
        LinkTableSound(before, table, index, g, flags);
        assert Now().mem == LinkTable(before, table, index, g, flags).mem;
        assert Now() == LinkTable(before, table, index, g, flags);
      }
      return true, Entry(table, index);
    }

    /** `s_virt_entry_ptr_to_table_ptr`. */
    method TablePtr(p: EntryPtr) returns (table: nat)
      requires p.Entry? && p.table < frames.Length && p.index < ENTRIES
      ensures table == FrameOf(frames[p.table][p.index])
    {
      MaskedEntry(frames[p.table][p.index]);
      table := TableOf(frames[p.table][p.index]);
    }

    /** The lookup without creation yields the entry the reference walk yields. */
    method GetPte(ctx: VirtCtx, addr: u64) returns (p: EntryPtr)
      requires Valid() && IsRoot(Now(), RootOf(ctx))
      ensures p == EntryOf(frames[..], RootOf(ctx), PageOf(addr))
    {
      ghost var root, page, s := RootOf(ctx), PageOf(addr), Now();
      TableIndices(addr);
      assert GoodTag(s, root, s.tags[root]);

      var pml4 := RootOf(ctx);
      var pml4e := GetEntryPtr(pml4, TableIndex(addr, VIRT_PML4_INDEX_OFFSET));
      WalkStep(s, root, page, 4);
      if pml4e == Null {
        NoPath(s.mem, root, page, 3);
        return Null;
      }

      var pdpt := TablePtr(pml4e);
      var pdpte := GetEntryPtr(pdpt, TableIndex(addr, VIRT_PDPT_INDEX_OFFSET));
      WalkStep(s, root, page, 3);
      if pdpte == Null {
        NoPath(s.mem, root, page, 2);
        return Null;
      }

      var pd := TablePtr(pdpte);
      var pde := GetEntryPtr(pd, TableIndex(addr, VIRT_PD_INDEX_OFFSET));
      WalkStep(s, root, page, 2);
      if pde == Null {
        return Null;
      }

      var big := IsBigPage(pde);
      if big {
        assert false;
      }
      var pt := TablePtr(pde);
      return Entry(pt, TableIndex(addr, VIRT_PT_INDEX_OFFSET));
    }

    /** One step down the path of a page: fill the slot if it is empty, then follow it. */
    method NextTable(table: nat, index: nat, flags: u64, ghost s0: State, ghost root: nat, ghost page: nat,
                     ghost level: nat)
      returns (ok: bool, next: nat)
      requires Valid() && Sound(s0) && IsRoot(s0, root) && page < PAGES && 2 <= level <= 4 && TableFlags(flags)
      requires PathTo(s0, Now(), root, page, level, flags)
      requires Node(frames[..], root, page, level) == Some(table) && index == Index(page, level)
      modifies this`tags, frames, phys.bitmap
      ensures Valid()
      ensures ok ==> PathTo(s0, Now(), root, page, level - 1, flags)
      ensures ok ==> Node(frames[..], root, page, level - 1) == Some(next)
      ensures ok ==> table < frames.Length && !TestBit(frames[table][index], 7)
      ensures ok && old(Node(frames[..], root, page, level - 1)).Some? ==> Now() == old(Now())
      ensures !ok ==> OutOfMemory()
    {
      hide Sound, SameTranslation, NewLinks, NewTables, OnlyTables, Takes;
      ghost var s1 := Now();
      NodeTag(s1, root, page, level);
      var p;
      ok, p := GetOrCreateEntryPtr(table, index, flags);
      next := 0;
      if ok {
        PathNext(s0, s1, Now(), root, page, level, flags);
        next := TablePtr(p);
      }
    }

    /** The step from a page directory; in sound tables its entry never maps a big page. */
    method LastTable(pd: nat, pdi: nat, flags: u64, ghost s0: State, ghost root: nat,
                     ghost page: nat) returns (ok: bool, pt: nat)
      requires Valid() && Sound(s0) && IsRoot(s0, root) && page < PAGES && TableFlags(flags)
      requires PathTo(s0, Now(), root, page, 2, flags)
      requires Node(frames[..], root, page, 2) == Some(pd) && pdi == Index(page, 2)
      modifies this`tags, frames, phys.bitmap
      ensures Valid()
      ensures ok ==> PathTo(s0, Now(), root, page, 1, flags)
      ensures ok ==> Node(frames[..], root, page, 1) == Some(pt)
      ensures ok && old(Node(frames[..], root, page, 1)).Some? ==> Now() == old(Now())
      ensures !ok ==> OutOfMemory()
    {
      hide Sound, Grows, SameTranslation;
      ok, pt := NextTable(pd, pdi, flags, s0, root, page, 2);
      if ok {
        var big := IsBigPage(Entry(pd, pdi));
        if big {
          assert false;
        }
      }
    }

    /**
      The lookup with creation: afterwards the lookup without creation finds the same entry,
      and if it found one before, nothing has changed.
     */
    method GetOrCreatePte(ctx: VirtCtx, addr: u64, isUser: bool) returns (ok: bool, p: EntryPtr)
      requires Valid() && IsRoot(Now(), RootOf(ctx))
      modifies this`tags, frames, phys.bitmap
      ensures Valid()
      ensures ok ==> p.Entry? && p == EntryOf(frames[..], RootOf(ctx), PageOf(addr))
      ensures ok ==> PathTo(old(Now()), Now(), RootOf(ctx), PageOf(addr), 1, LinkFlags(isUser))
      ensures ok && old(EntryOf(frames[..], RootOf(ctx), PageOf(addr))) != Null ==> Now() == old(Now())
      ensures !ok ==> OutOfMemory()
    {
      var flags := LinkFlags(isUser);
      LinkFlagValues(isUser);
      TableIndices(addr);
      var pt;
      ok, pt := CreatePath(RootOf(ctx), TableIndex(addr, VIRT_PML4_INDEX_OFFSET),
                           TableIndex(addr, VIRT_PDPT_INDEX_OFFSET), TableIndex(addr, VIRT_PD_INDEX_OFFSET), flags,
                           PageOf(addr));
      return ok, Entry(pt, TableIndex(addr, VIRT_PT_INDEX_OFFSET));
    }

    /** The three steps from the PML4 to the page table of a page. */
    method CreatePath(pml4: nat, pml4i: nat, pdpti: nat, pdi: nat, flags: u64, ghost page: nat) returns (ok: bool,
                      pt: nat)
      requires Valid() && IsRoot(Now(), pml4) && page < PAGES && TableFlags(flags)
      requires pml4i == Index(page, 4) && pdpti == Index(page, 3) && pdi == Index(page, 2)
      modifies this`tags, frames, phys.bitmap
      ensures Valid()
      ensures ok ==> Node(frames[..], pml4, page, 1) == Some(pt)
      ensures ok ==> PathTo(old(Now()), Now(), pml4, page, 1, flags)
      ensures ok && old(Node(frames[..], pml4, page, 1)).Some? ==> Now() == old(Now())
      ensures !ok ==> OutOfMemory()
    {
      hide Sound, Grows, SameTranslation;
      ghost var s := Now();
      PathStart(s, pml4, page, flags);
      Reachable(s.mem, pml4, page);
      pt := 0;
      var pdpt, pd;
      ok, pdpt := NextTable(pml4, pml4i, flags, s, pml4, page, 4);
      if ok {
        ok, pd := NextTable(pdpt, pdpti, flags, s, pml4, page, 3);
        if ok {
          ok, pt := LastTable(pd, pdi, flags, s, pml4, page);
        }
      }
    }

    method IsBigPage(p: EntryPtr) returns (big: bool)
      requires p.Entry? && p.table < frames.Length && p.index < ENTRIES
      ensures big == TestBit(frames[p.table][p.index], 7)
    {
      PowersOfTwo();
      AndPow(frames[p.table][p.index], 7);
      big := BitAnd(frames[p.table][p.index], VF_BIG_PAGE) != 0;
    }

    /** `*entry = w` through the entry of a page. */
    method StoreEntry(p: EntryPtr, w: u64, ghost root: nat, ghost page: nat)
      requires Valid() && IsRoot(Now(), root) && page < PAGES
      requires p.Entry? && p == EntryOf(frames[..], root, page)
      modifies frames
      ensures Valid()
      ensures old(Node(frames[..], root, page, 1)).Some? && Now() == SetLeaf(old(Now()), root, page, w)
    {
      SetLeafSound(Now(), root, page, w);
      frames[p.table] := frames[p.table][p.index := w];
      assert Now() == SetLeaf(old(Now()), root, page, w);
    }

    /** `entry = get_or_create(addr); *entry = w`: maps one page. */
    method MapPage(ctx: VirtCtx, addr: u64, w: u64, isUser: bool) returns (ok: bool)
      requires Valid() && IsRoot(Now(), RootOf(ctx))
      modifies this`tags, frames, phys.bitmap
      ensures Valid()
      ensures ok ==> Maps(old(Now()), Now(), RootOf(ctx), PageOf(addr), [w], LinkFlags(isUser), {})
      ensures !ok ==> OutOfMemory()
    {
      ghost var s, root, page := Now(), RootOf(ctx), PageOf(addr);
      var entry;
      ok, entry := GetOrCreatePte(ctx, addr, isUser);
      if ok {
        ghost var mid := Now();
        StoreEntry(entry, w, root, page);
        MapOne(s, mid, root, page, w, LinkFlags(isUser));
      }
    }

    /** One turn of a mapping loop: the page after those already mapped from `first`. */
    method MapNext(ctx: VirtCtx, addr: u64, w: u64, isUser: bool, ghost s: State, ghost first: nat,
                   ghost words: seq<u64>, ghost data: set<nat>)
      returns (ok: bool)
      requires Valid() && Sound(s) && IsRoot(s, RootOf(ctx))
      requires Maps(s, Now(), RootOf(ctx), first, words, LinkFlags(isUser), data)
      requires first < PAGES && PageOf(addr) == PageAt(first, |words|)
      modifies this`tags, frames, phys.bitmap
      ensures Valid()
      ensures ok ==> Maps(s, Now(), RootOf(ctx), first, words + [w], LinkFlags(isUser), data)
      ensures !ok ==> OutOfMemory()
    {
      ghost var mid := Now();
      ok := MapPage(ctx, addr, w, isUser);
      if ok {
        MapsAppend(s, mid, Now(), RootOf(ctx), first, words, w, LinkFlags(isUser), data);
      }
    }

    /** The loop of `Map` and `MapAnywhere`: consecutive pages to consecutive frames. */
    method MapRange(ctx: VirtCtx, physAddr: u64, virtAddr: u64, size: u64, flags: u64) returns (ok: bool)
      requires Valid() && IsRoot(Now(), RootOf(ctx)) && size <= MAX_SIZE
      modifies this`tags, frames, phys.bitmap
      ensures Valid()
      ensures ok ==> Maps(old(Now()), Now(), RootOf(ctx), PageOf(virtAddr),
                          MapWords(physAddr, Ceil(size, 4096), flags), LinkFlags(false), {})
      ensures !ok ==> OutOfMemory()
    {
      hide Maps, Sound;
      ghost var s, first, words := Now(), PageOf(virtAddr), [];
      MapsNothing(s, RootOf(ctx), first, LinkFlags(false));
      var i: u64 := 0;
      ok := true;
      while i < size && ok
        invariant Valid() && (!ok ==> OutOfMemory())
        invariant ok ==>
            && i == 4096 * |words| && |words| <= Ceil(size, 4096)
            && words == MapWords(physAddr, |words|, flags)
        invariant ok ==> Maps(s, Now(), RootOf(ctx), first, words, LinkFlags(false), {})
        decreases size - i
      {
        PageCount(size, i, |words|);
        PageSteps(virtAddr, i, |words|);
        ghost var w := EntryWord(Wrap(physAddr + i), flags);
        ok := MapNext(ctx, Wrap(virtAddr + i), EntryWord(Wrap(physAddr + i), flags), false, s, first, words, {});
        MapWordsNext(physAddr, |words|, flags);
        words := words + [w];
        i := i + VIRT_PAGE_SIZE;
      }
      if ok {
        PageCount(size, i, |words|);
      }
    }

    /** Maps the pages of [virtAddr, virtAddr + size) to consecutive frames from `physAddr`. */
    method Map(ctx: VirtCtx, physAddr: u64, virtAddr: u64, size: u64, flags: u64) returns (ok: bool)
      requires Valid() && IsRoot(Now(), RootOf(ctx))
      requires size <= MAX_SIZE && !TestBit(flags, 7)
      modifies this`tags, frames, phys.bitmap
      ensures Valid()
      ensures ok ==> Maps(old(Now()), Now(), RootOf(ctx), PageOf(virtAddr),
                          MapWords(physAddr, Ceil(size, 4096), flags), LinkFlags(false), {})
      ensures !ok ==> OutOfMemory()
    {
      ok := MapRange(ctx, physAddr, virtAddr, size, flags);
    }

    /** As `Map` for user pages, except that every page is mapped to the frame at `physAddr`. */
    method MapUser(ctx: VirtCtx, physAddr: u64, virtAddr: u64, size: u64, flags: u64) returns (ok: bool)
      requires Valid() && IsRoot(Now(), RootOf(ctx))
      requires size <= MAX_SIZE && !TestBit(flags, 7)
      modifies this`tags, frames, phys.bitmap
      ensures Valid()
      ensures ok ==> Maps(old(Now()), Now(), RootOf(ctx), PageOf(virtAddr),
                          SameWords(physAddr, Ceil(size, 4096), flags), LinkFlags(true), {})
      ensures !ok ==> OutOfMemory()
    {
      hide Maps, Sound;
      ghost var s, first, words := Now(), PageOf(virtAddr), [];
      MapsNothing(s, RootOf(ctx), first, LinkFlags(true));
      var i: u64 := 0;
      ok := true;
      while i < size && ok
        invariant Valid() && (!ok ==> OutOfMemory())
        invariant ok ==>
            && i == 4096 * |words| && |words| <= Ceil(size, 4096)
            && words == SameWords(physAddr, |words|, flags)
        invariant ok ==> Maps(s, Now(), RootOf(ctx), first, words, LinkFlags(true), {})
        decreases size - i
      {
        PageCount(size, i, |words|);
        PageSteps(virtAddr, i, |words|);
        ok := MapNext(ctx, Wrap(virtAddr + i), EntryWord(physAddr, flags), true, s, first, words, {});
        words := words + [EntryWord(physAddr, flags)];
        i := i + VIRT_PAGE_SIZE;
      }
      if ok {
        PageCount(size, i, |words|);
      }
    }

    method Unmap(ctx: VirtCtx, addr: u64, size: u64)
      requires Valid() && IsRoot(Now(), RootOf(ctx)) && size <= MAX_SIZE
      modifies frames
      ensures Valid()
      ensures Unmaps(old(Now()), Now(), RootOf(ctx), PageOf(addr), Ceil(size, 4096))
    {
      hide Unmaps, Sound;
      ghost var s, first, n := Now(), PageOf(addr), 0;
      UnmapsNothing(s, RootOf(ctx), first);
      var i: u64 := 0;
      while i < size
        invariant Valid() && i == 4096 * n && n <= Ceil(size, 4096)
        invariant Unmaps(s, Now(), RootOf(ctx), first, n)
        decreases size - i
      {
        PageCount(size, i, n);
        PageSteps(addr, i, n);
        UnmapNext(ctx, Wrap(addr + i), s, first, n);
        i := i + VIRT_PAGE_SIZE;
        n := n + 1;
      }
      PageCount(size, i, n);
    }

    method UnmapNext(ctx: VirtCtx, addr: u64, ghost s: State, ghost first: nat, ghost n: nat)
      requires Valid() && IsRoot(s, RootOf(ctx)) && Unmaps(s, Now(), RootOf(ctx), first, n)
      requires first < PAGES && PageOf(addr) == PageAt(first, n)
      modifies frames
      ensures Valid() && Unmaps(s, Now(), RootOf(ctx), first, n + 1)
    {
      ghost var mid := Now();
      var entry := GetPte(ctx, addr);
      if entry != Null {
        UnmapOne(Now(), RootOf(ctx), PageOf(addr));
        StoreEntry(entry, 0, RootOf(ctx), PageOf(addr));
      } else {
        UnmapMissing(Now(), RootOf(ctx), PageOf(addr));
      }
      UnmapsAppend(s, mid, Now(), RootOf(ctx), first, n);
    }

    method IsAddressMapped(ctx: VirtCtx, addr: u64) returns (mapped: bool)
      requires Valid() && IsRoot(Now(), RootOf(ctx))
      ensures mapped <==> Leaf(frames[..], RootOf(ctx), PageOf(addr)) != 0
    {
      var entry := GetPte(ctx, addr);
      if entry == Null {
        return false;
      }
      return frames[entry.table][entry.index] != 0;
    }

    /** Is the whole range at `addr` unmapped? */
    method ScanHole(ctx: VirtCtx, addr: u64, size: u64) returns (found: bool)
      requires Valid() && IsRoot(Now(), RootOf(ctx)) && size <= MAX_SIZE
      ensures found <==> IsHole(frames[..], RootOf(ctx), PageOf(addr), Ceil(size, 4096))
    {
      ghost var m, root, first, n := frames[..], RootOf(ctx), PageOf(addr), 0;
      var i: u64 := 0;
      found := true;
      while i < size && found
        invariant found ==> i == 4096 * n && n <= Ceil(size, 4096) && IsHole(m, root, first, n)
        invariant !found ==> !IsHole(m, root, first, Ceil(size, 4096))
        decreases size - i
      {
        PageCount(size, i, n);
        PageSteps(addr, i, n);
        var mapped := IsAddressMapped(ctx, Wrap(addr + i));
        if mapped {
          found := false;
        } else {
          HoleStep(m, root, first, n);
        }
        i := i + VIRT_PAGE_SIZE;
        n := n + 1;
      }
      if found {
        PageCount(size, i, n);
      }
    }

    /** The lowest page-aligned address in [start, limit) at which the range fits in a hole. */
    method FindHole(ctx: VirtCtx, start: u64, limit: u64, size: u64) returns (found: bool, addr: u64)
      requires Valid() && IsRoot(Now(), RootOf(ctx)) && size <= MAX_SIZE
      requires start % 4096 == 0 && limit <= MAX_SIZE
      ensures found ==> start <= addr < limit && addr % 4096 == 0
                        && IsHole(frames[..], RootOf(ctx), PageOf(addr), Ceil(size, 4096))
                        && NoHoleBelow(frames[..], RootOf(ctx), start, addr, Ceil(size, 4096))
      ensures !found ==> NoHoleBelow(frames[..], RootOf(ctx), start, limit, Ceil(size, 4096))
    {
      hide Sound, IsHole, NoHoleBelow, PageOf, Ceil;
      NoneBelow(frames[..], RootOf(ctx), start, Ceil(size, 4096));
      addr := start;
      while addr < limit
        invariant start <= addr && addr % 4096 == 0
        invariant NoHoleBelow(frames[..], RootOf(ctx), start, addr, Ceil(size, 4096))
        decreases limit - addr
      {
        found := ScanHole(ctx, addr, size);
        if found {
          return true, addr;
        }
        NoneBelowNext(frames[..], RootOf(ctx), start, addr, Ceil(size, 4096));
        addr := addr + VIRT_PAGE_SIZE;
      }
      NoneBelowLimit(frames[..], RootOf(ctx), start, limit, addr, Ceil(size, 4096));
      return false, addr;
    }

    /** Maps a physical range at the lowest hole above the direct map's base; 0 if there is none. */
    method MapAnywhere(ctx: VirtCtx, physAddr: u64, size: u64, flags: u64) returns (ok: bool, addr: u64)
      requires Valid() && IsRoot(Now(), RootOf(ctx)) && size <= MAX_SIZE
      modifies this`tags, frames, phys.bitmap
      ensures Valid()
      ensures ok ==> FillsLowestHole(old(Now()), Now(), RootOf(ctx), hhdmOffset + 4096, 0xffff_ffff_ffff_0000, addr,
                                     Ceil(size, 4096), MapWords(physAddr, Ceil(size, 4096), flags),
                                     LinkFlags(false), {})
      ensures !ok ==> OutOfMemory()
    {
      hide Maps, Sound, IsHole, NoHoleBelow;
      var found;
      found, addr := FindHole(ctx, hhdmOffset + VIRT_PAGE_SIZE, SCAN_LIMIT, size);
      ok := true;
      if found {
        ok := MapRange(ctx, physAddr, addr, size, flags);
      } else {
        addr := 0;
      }
    }

    /** Maps the page after those already mapped from `first`, for the kernel or for user mode. */
    method MapFrame(ctx: VirtCtx, phys: u64, addr: u64, isUser: bool, flags: u64,
                    ghost s: State, ghost first: nat, ghost words: seq<u64>, ghost data: set<nat>) returns (ok: bool)
      requires Valid() && Sound(s) && IsRoot(s, RootOf(ctx)) && !TestBit(flags, 7)
      requires first < PAGES && PageOf(addr) == PageAt(first, |words|)
      requires Maps(s, Now(), RootOf(ctx), first, words, LinkFlags(isUser), data)
      modifies this`tags, frames, this.phys.bitmap
      ensures Valid()
      ensures ok ==> Maps(s, Now(), RootOf(ctx), first, words + [EntryWord(phys, flags)], LinkFlags(isUser), data)
      ensures !ok ==> OutOfMemory()
    {
      hide Maps, Sound, Ceil, MapWords, SameWords;
      ghost var before := Now();
      OneWord(phys, flags);
      MapsKeeps(s, before, RootOf(ctx), first, words, LinkFlags(isUser), data);
      if isUser {
        ok := MapUser(ctx, phys, addr, VIRT_PAGE_SIZE, flags);
      } else {
        ok := Map(ctx, phys, addr, VIRT_PAGE_SIZE, flags);
      }
      if ok {
        MapsAppend(s, before, Now(), RootOf(ctx), first, words, EntryWord(phys, flags), LinkFlags(isUser), data);
      }
    }

    /** Takes a frame that is none of those already backing the range. */
    method TakeBacking(ghost s: State, ghost root: nat, ghost first: nat, ghost words: seq<u64>, ghost fl: u64,
                       ghost backing: seq<nat>)
      returns (addr: u64)
      requires Valid() && Sound(s) && IsRoot(s, root) && Distinct(backing) && SmallFrames(backing)
      requires Maps(s, Now(), root, first, words, fl, Elements(backing))
      modifies phys.bitmap
      ensures Valid()
      ensures addr == 0 ==> OutOfMemory()
      ensures addr != 0 ==>
          && addr % 4096 == 0 && Distinct(backing + [addr / 4096])
          && SmallFrames(backing + [addr / 4096])
          && Maps(s, Now(), root, first, words, fl, Elements(backing + [addr / 4096]))
    {
      hide Maps, Distinct, Phys.UsedFrames;
      ghost var before := Now();
      addr := TakeFrame();
      if addr != 0 {
        FreshBacking(s, before, root, first, words, fl, backing, addr / 4096);
      }
    }

    /** One turn of an allocation loop: a frame is taken and mapped at the next page. */
    method AllocNext(ctx: VirtCtx, addr: u64, isUser: bool, flags: u64, ghost s: State, ghost first: nat,
                     ghost backing: seq<nat>)
      returns (ok: bool, ghost backing': seq<nat>)
      requires Valid() && Sound(s) && IsRoot(s, RootOf(ctx)) && !TestBit(flags, 7)
      requires first < PAGES && PageOf(addr) == PageAt(first, |backing|) && Distinct(backing) && SmallFrames(backing)
      requires Maps(s, Now(), RootOf(ctx), first, BackedWords(backing, flags), LinkFlags(isUser), Elements(backing))
      modifies this`tags, frames, phys.bitmap
      ensures Valid()
      ensures ok ==> |backing'| == |backing| + 1 && Distinct(backing') && SmallFrames(backing')
      ensures ok
              ==> Maps(s, Now(), RootOf(ctx), first, BackedWords(backing', flags), LinkFlags(isUser),
                       Elements(backing'))
      ensures !ok ==> OutOfMemory()
    {
      hide Maps, Sound, Distinct;
      var phys := TakeBacking(s, RootOf(ctx), first, BackedWords(backing, flags), LinkFlags(isUser), backing);
      backing' := backing + [phys / 4096];
      ok := phys != 0;
      if ok {
        assert backing'[|backing|] == phys / 4096;
        BackedNext(backing, phys / 4096, flags);
        ok := MapFrame(ctx, phys, addr, isUser, flags, s, first, BackedWords(backing, flags), Elements(backing'));
      }
    }

    /** Backs the pages of a range with frames from the allocator, page by page. */
    method AllocRange(ctx: VirtCtx, addr: u64, size: u64, isUser: bool, flags: u64) returns (ok: bool,
                      ghost backing: seq<nat>)
      requires Valid() && IsRoot(Now(), RootOf(ctx)) && size <= MAX_SIZE && !TestBit(flags, 7)
      modifies this`tags, frames, phys.bitmap
      ensures Valid()
      ensures ok ==> |backing| == Ceil(size, 4096) && Distinct(backing) && SmallFrames(backing)
      ensures ok
              ==> Maps(old(Now()), Now(), RootOf(ctx), PageOf(addr), BackedWords(backing, flags), LinkFlags(isUser),
                       Elements(backing))
      ensures !ok ==> OutOfMemory()
    {
      hide Maps, Sound, Distinct;
      ghost var s, first := Now(), PageOf(addr);
      backing := [];
      NoBacking(flags);
      MapsNothing(s, RootOf(ctx), first, LinkFlags(isUser));
      var i: u64 := 0;
      ok := true;
      while i < size && ok
        invariant Valid() && (!ok ==> OutOfMemory())
        invariant ok ==>
            && i == 4096 * |backing| && |backing| <= Ceil(size, 4096) && Distinct(backing)
            && SmallFrames(backing)
        invariant ok
                  ==> Maps(s, Now(), RootOf(ctx), first, BackedWords(backing, flags), LinkFlags(isUser),
                           Elements(backing))
        decreases size - i
      {
        PageCount(size, i, |backing|);
        PageSteps(addr, i, |backing|);
        ok, backing := AllocNext(ctx, Wrap(addr + i), isUser, flags, s, first, backing);
        i := i + VIRT_PAGE_SIZE;
      }
      if ok {
        PageCount(size, i, |backing|);
      }
    }

    /** `virt_alloc`: a hole above the direct map's base, backed by fresh frames. */
    method Alloc(ctx: VirtCtx, size: u64) returns (ok: bool, addr: u64, ghost backing: seq<nat>)
      requires Valid() && IsRoot(Now(), RootOf(ctx)) && size <= MAX_SIZE
      modifies this`tags, frames, phys.bitmap
      ensures Valid()
      ensures ok ==> Distinct(backing) && SmallFrames(backing)
                     && FillsLowestHole(old(Now()), Now(), RootOf(ctx), hhdmOffset + 4096, 0xffff_ffff_ffff_0000, addr,
                                        Ceil(size, 4096), BackedWords(backing, 3), LinkFlags(false),
                                        Elements(backing))
      ensures !ok ==> OutOfMemory()
    {
      hide Maps, Sound, IsHole, NoHoleBelow, Distinct;
      var found;
      found, addr := FindHole(ctx, hhdmOffset + VIRT_PAGE_SIZE, SCAN_LIMIT, size);
      ok := true;
      AllocFlagBits();
      if found {
        ok, backing := AllocRange(ctx, addr, size, false, ALLOC_FLAGS);
      } else {
        addr, backing := 0, [];
        NoBacking(ALLOC_FLAGS);
      }
    }

    /** `virt_user_alloc`: a hole from 1 MiB up, backed by fresh frames and open to user mode. */
    method UserAlloc(ctx: VirtCtx, size: u64) returns (ok: bool, addr: u64, ghost backing: seq<nat>)
      requires Valid() && IsRoot(Now(), RootOf(ctx)) && size <= MAX_SIZE
      modifies this`tags, frames, phys.bitmap
      ensures Valid()
      ensures ok ==> Distinct(backing) && SmallFrames(backing)
                     && FillsLowestHole(old(Now()), Now(), RootOf(ctx), 0x10_0000, hhdmOffset, addr, Ceil(size, 4096),
                                        BackedWords(backing, 7), LinkFlags(true), Elements(backing))
      ensures !ok ==> OutOfMemory()
    {
      hide Maps, Sound, IsHole, NoHoleBelow, Distinct;
      var found;
      found, addr := FindHole(ctx, USER_START, hhdmOffset, size);
      ok := true;
      AllocFlagBits();
      if found {
        ok, backing := AllocRange(ctx, addr, size, true, USER_FLAGS);
      } else {
        addr, backing := 0, [];
        NoBacking(USER_FLAGS);
      }
    }

    /** The frame address a page is mapped to, or 0; the offset within the page is not added. */
    method GetPhysicalAddress(ctx: VirtCtx, virtAddr: u64) returns (r: u64)
      requires Valid() && IsRoot(Now(), RootOf(ctx))
      ensures var leaf := Leaf(frames[..], RootOf(ctx), PageOf(virtAddr));
              r == if TestBit(leaf, 0) then FrameOf(leaf) * 4096 else 0
    {
      var entry := GetPte(ctx, virtAddr);
      ZeroTest(0);
      if entry == Null {
        return 0;
      }
      var word := frames[entry.table][entry.index];
      AndPow(word, 0);
      MaskedEntry(word);
      if BitAnd(word, VF_PRESENT) == 0 {
        return 0;
      }
      return BitAnd(word, ENTRY_PHYS_ADDR_MASK);
    }

    /** Loads CR3. */
    method CtxUse(ctx: VirtCtx)
      requires ctx.Ctx?
      modifies this`cr3
      ensures cr3 == ctx.phys && RootOf(Current) == RootOf(ctx)
    {
      cr3 := ctx.phys;
    }

    /**
      `virt_ctx_new`: a page for the structure, a frame for the PML4, and the kernel PDPT in the last
      slot; `c` holds the states in between. The frame is not cleared, so the result is valid exactly
      if the frame was zero below the last slot.
     */
    method CtxNew() returns (ok: bool, ctx: VirtCtx, ghost c: Contexts.Creation)
      requires Valid() && IsRoot(Now(), RootOf(Current)) && Contexts.HasKernelPdpt(Now())
      modifies this`tags, frames, phys.bitmap
      ensures ok ==> ctx.Ctx? && Contexts.CreatesContext(old(Now()), RootOf(Current), hhdmOffset + 4096,
                                                         0xffff_ffff_ffff_0000, c, RootOf(ctx), Now())
      ensures ok ==> IsRoot(Now(), RootOf(Current)) && IsRoot(Now(), RootOf(ctx)) && old(phys.Used()) <= phys.Used()
      ensures ok && c.addr != 0 ==> c.frame !in old(phys.Used()) && c.frame in phys.Used()
                                    && c.frame !in tags && c.frame != RootOf(ctx)
      ensures ok ==> RootOf(ctx) < |c.before.mem|
                     && (Valid() <==> Contexts.ZeroBelowLast(c.before.mem[RootOf(ctx)]))
      ensures !ok ==> Valid() && OutOfMemory()
    {
      hide Sound, FillsLowestHole, Contexts.ZeroBelowLast, Contexts.NewContext;
      ghost var s := Now();
      var addr, frame;
      ghost var backing;
      ctx, c := Current, Contexts.Creation(s, 0, 0, s);
      ok, addr, backing := Alloc(Current, VIRT_PAGE_SIZE);
      if ok {
        ghost var filled := Now();
        ghost var structure: FrameNumber := OneBacking(s, filled, RootOf(Current), hhdmOffset + 4096, SCAN_LIMIT, addr,
                                                       backing);
        KernelPdptKept(s, Now(), RootOf(Current), hhdmOffset + 4096, SCAN_LIMIT, addr, 1,
                       [EntryWord(structure * 4096, 3)], LinkFlags(false), {structure});
        ok, frame := TakeRoot();
        if ok {
          c := Contexts.Creation(filled, addr, structure, Now());
          ctx := Ctx(frame);
          InstallKernelSlot(frame / 4096);
          Contexts.CreationKeeps(s, RootOf(Current), hhdmOffset + 4096, SCAN_LIMIT, c, RootOf(ctx), Now());
          if addr != 0 {
            Contexts.StructureFresh(s, RootOf(Current), hhdmOffset + 4096, SCAN_LIMIT, c, RootOf(ctx), Now());
          }
        }
      }
    }

    /** A frame for a PML4, which is not a table yet. */
    method TakeRoot() returns (ok: bool, frame: u64)
      requires Valid() && Contexts.HasKernelPdpt(Now())
      modifies phys.bitmap
      ensures Valid()
      ensures ok ==> frame % 4096 == 0 && Contexts.CanBeContext(Now(), frame / 4096)
                     && frame / 4096 !in old(phys.Used())
                     && Now() == old(Now()).(used := old(phys.Used()) + {frame / 4096})
      ensures !ok ==> OutOfMemory()
    {
      ghost var before := Now();
      frame := TakeFrame();
      ok := frame != 0;
      if ok {
        TagsUsed(before);
      }
    }

    /** `ctx->virt[511] = kernel PDPT | WRITABLE | PRESENT`. */
    method InstallKernelSlot(root: nat)
      requires Valid() && Contexts.CanBeContext(Now(), root)
      modifies this`tags, frames
      ensures old(Now()).kernelPdpt < MAX_FRAMES && Now() == Contexts.NewContext(old(Now()), root)
      ensures root < |old(frames[..])| && (Valid() <==> Contexts.ZeroBelowLast(old(frames[..])[root]))
    {
      hide Sound;
      ghost var mid := Now();
      Contexts.NewContextSoundIff(mid, root);
      KernelSlotWord(kernelPdpt);
      frames[root] := frames[root][ENTRIES - 1 := EntryWord(EntryWord(kernelPdpt * 4096, VF_WRITABLE), VF_PRESENT)];
      tags := tags[root := Tag(Context(root), 4, 0)];
      assert Now().mem == Contexts.NewContext(mid, root).mem;
      assert Now() == Contexts.NewContext(mid, root);
    }

    /** Maps the frames of [base, base + size) at their place in the direct map. */
    method MapDirect(ctx: VirtCtx, base: u64, size: u64, ghost s: State, ghost mapped: set<nat>) returns (ok: bool)
      requires Valid() && Sound(s) && hhdmOffset + base + size <= MAX_SIZE
      requires DirectFrom(s, Now(), RootOf(ctx), PageOf(hhdmOffset), mapped)
      modifies this`tags, frames, phys.bitmap
      ensures Valid()
      ensures ok ==> DirectFrom(s, Now(), RootOf(ctx), PageOf(hhdmOffset), mapped + RunFrames(base, size))
      ensures !ok ==> OutOfMemory()
    {
      hide Sound, DirectFrom, PageOf, Maps, MapWords, RunFrames;
      ghost var s1 := Now();
      DirectFromRoot(s, s1, RootOf(ctx), PageOf(hhdmOffset), mapped);
      DirectRunFits(hhdmOffset, base, size);
      AllocFlagBits();
      ok := Map(ctx, base, Wrap(base + hhdmOffset), size, ALLOC_FLAGS);
      if ok {
        DirectFromMore(s, s1, Now(), RootOf(ctx), hhdmOffset, mapped, base, size);
      }
    }

    /** The memory-map loop of `virt_init`. */
    method MapMemmap(ctx: VirtCtx, entries: seq<MemmapEntry>, ghost top: int) returns (ok: bool)
      requires Valid() && IsRoot(Now(), RootOf(ctx)) && top <= MAX_SIZE - 4096
      requires forall e | e in entries && IsDirectMapped(e.kind) :: EntryFits(e, hhdmOffset, top)
      modifies this`tags, frames, phys.bitmap
      ensures Valid()
      ensures ok ==> DirectFrom(old(Now()), Now(), RootOf(ctx), PageOf(hhdmOffset),
                                DirectMap.Covered(entries, |entries|))
      ensures !ok ==> OutOfMemory()
    {
      hide Sound, DirectFrom, PageOf;
      ghost var s, root := Now(), RootOf(ctx);
      DirectFromNothing(s, root, PageOf(hhdmOffset));
      ok := true;
      var i := 0;
      while i < |entries| && ok
        invariant i <= |entries| && Valid() && (!ok ==> OutOfMemory())
        invariant ok ==> DirectFrom(s, Now(), root, PageOf(hhdmOffset), DirectMap.Covered(entries, i))
      {
        var entry := entries[i];
        if IsDirectMapped(entry.kind) {
          EntrySize(entry, hhdmOffset, top);
          var size := CeilChunk(entry.length, VIRT_PAGE_SIZE);
          ok := MapDirect(ctx, entry.base, size, s, DirectMap.Covered(entries, i));
        } else {
          assert DirectMap.Covered(entries, i) + {} == DirectMap.Covered(entries, i);
        }
        assert DirectMap.Covered(entries, i + 1) == DirectMap.Covered(entries, i) + DirectMap.EntryFrames(entries[i]);
        i := i + 1;
      }
    }

    /** The three frames `virt_init` takes: the kernel PDPT, the context structure and the PML4. None is cleared. */
    method TakeBootFrames() returns (ok: bool, root: u64, ghost structure: nat)
      requires Valid() && tags == map[] && TableFramesZero(Now())
      modifies this`tags, this`kernelPdpt, phys.bitmap
      ensures Valid()
      ensures !ok ==> OutOfMemory()
      ensures ok ==> root % 4096 == 0 && FreshBoot(old(Now()), Now(), root / 4096) && NothingMapped(Now(), root / 4096)
      ensures ok ==> BootTakes(old(Now()), Now(), structure)
    {
      hide Sound, FreshBoot, NothingMapped, Phys.FirstFree;
      ghost var s := Now();
      root, structure := 0, 0;
      AtMostMaxFrames(s);
      var pdpt := TakeFrame();
      ok := pdpt != 0;
      if ok {
        kernelPdpt := pdpt / 4096;
        NoTables(Now());
        var context := TakeFrame();
        structure := context / 4096;
        ok := context != 0;
        if ok {
          root := TakeFrame();
          ok := root != 0;
          if ok {
            TagBoot(s, root / 4096);
          }
        }
      }
    }

    /** From here on the two frames are the tables of the boot context. */
    ghost method TagBoot(s: State, root: nat)
      requires Valid() && s.tags == map[] == tags
      requires Now().mem == s.mem && s.used + {kernelPdpt, root} <= phys.Used() && kernelPdpt != root
      requires kernelPdpt < frames.Length && root < frames.Length && kernelPdpt !in s.used && root !in s.used
      requires frames[kernelPdpt] == ZeroFrame() == frames[root]
      modifies this`tags
      ensures Valid() && FreshBoot(s, Now(), root) && NothingMapped(Now(), root)
      ensures tags.Keys == {kernelPdpt, root}
    {
      hide Sound, FreshBoot, NothingMapped;
      ghost var t := Now();
      AtMostMaxFrames(t);
      MakeBoot(s, t, kernelPdpt, root);
      tags := map[kernelPdpt := Tag(Kernel, 3, 511), root := Tag(Context(root), 4, 0)];
      assert Now() == DirectMap.BootState(t, kernelPdpt, root);
    }

    /**
      `virt_init`: the boot context. Afterwards every frame of the direct-mapped memory and of the
      framebuffer is at its place in the direct map, and the kernel window is mapped. If all free
      memory belongs to the direct map, so do all tables, now and in every run that follows.
     */
    method Init(entries: seq<MemmapEntry>, fb: Framebuffer, exe: Executable)
      returns (ok: bool, ctx: VirtCtx, ghost structure: nat)
      requires Valid() && tags == map[] && TableFramesZero(Now())
      requires BootLayout(hhdmOffset, entries, fb, exe)
      modifies this, frames, phys.bitmap
      ensures hhdmOffset == old(hhdmOffset) && Valid()
      ensures ok ==> ctx.Ctx? && cr3 == ctx.phys && RootOf(ctx) == RootOf(Current)
      ensures ok ==> structure !in old(phys.Used()) && structure !in tags
                     && phys.Used() == old(phys.Used()) + tags.Keys + {structure}
      ensures ok ==> FreshBoot(old(Now()), Now(), RootOf(ctx))
                     && BootMap(Now(), RootOf(ctx), hhdmOffset, entries, fb, exe)
      ensures ok && FreeWithin(old(Now()), BootFrames(hhdmOffset, entries, fb))
              ==> Runs.Kept(Runs.Moment(Now(), {}, {}), RootOf(ctx), PageOf(hhdmOffset),
                            BootFrames(hhdmOffset, entries, fb))
      ensures !ok ==> OutOfMemory()
    {
      hide Sound, FreshBoot, BootMap, BootLayout, FreeWithin, BootFrames, NothingMapped;
      hide TableFramesZero, Runs.Kept, PageOf;
      ghost var s := Now();
      var root;
      ok, root, structure := TakeBootFrames();
      ctx := Ctx(root);
      if ok {
        ok := MapBoot(ctx, s, structure, entries, fb, exe);
        if ok {
          BootIsKept(s, Now(), root / 4096, hhdmOffset, entries, fb, exe);
          CtxUse(ctx);
        }
      }
    }

    /** Everything `virt_init` maps: the direct map, then the kernel window. */
    method MapBoot(ctx: VirtCtx, ghost s: State, ghost structure: nat, entries: seq<MemmapEntry>, fb: Framebuffer,
                   exe: Executable)
      returns (ok: bool)
      requires BootTakes(s, Now(), structure)
      requires Valid() && FreshBoot(s, Now(), RootOf(ctx)) && NothingMapped(Now(), RootOf(ctx))
      requires BootLayout(hhdmOffset, entries, fb, exe)
      modifies this`tags, frames, phys.bitmap
      ensures Valid()
      ensures ok ==> FreshBoot(s, Now(), RootOf(ctx)) && BootMap(Now(), RootOf(ctx), hhdmOffset, entries, fb, exe)
      ensures ok ==> BootTakes(s, Now(), structure)
      ensures !ok ==> OutOfMemory()
    {
      hide Sound, DirectFrom, PageOf, Maps, MapWords, BootMap, BootFrames, StaysBoot, FreshBoot, NothingMapped;
      hide BootTakes;
      ghost var s0 := Now();
      IsBoot(s, s0, RootOf(ctx));
      ok := MapBootMemory(ctx, entries, fb, exe.virtualBase);
      if ok {
        ghost var s1 := Now();
        AllocFlagBits();
        DirectFromRoot(s0, s1, RootOf(ctx), PageOf(hhdmOffset), BootFrames(hhdmOffset, entries, fb));
        ok := Map(ctx, exe.physicalBase, exe.virtualBase, exe.size, ALLOC_FLAGS);
        if ok {
          KernelWindow(s0, s1, Now(), RootOf(ctx), hhdmOffset, entries, fb, exe);
          StillFreshBoot(s, s0, Now(), RootOf(ctx));
          StillBootTakes(s, s0, Now(), RootOf(ctx), structure);
        }
      }
    }

    /** The direct map: the memory map's regions, then the framebuffer. */
    method MapBootMemory(ctx: VirtCtx, entries: seq<MemmapEntry>, fb: Framebuffer, ghost top: int) returns (ok: bool)
      requires Valid() && IsRoot(Now(), RootOf(ctx)) && top <= MAX_SIZE - 4096
      requires forall e | e in entries && IsDirectMapped(e.kind) :: EntryFits(e, hhdmOffset, top)
      requires hhdmOffset <= fb.address && fb.address + FbSize(fb) <= top
      modifies this`tags, frames, phys.bitmap
      ensures Valid()
      ensures ok ==> DirectFrom(old(Now()), Now(), RootOf(ctx), PageOf(hhdmOffset),
                                BootFrames(hhdmOffset, entries, fb))
      ensures !ok ==> OutOfMemory()
    {
      hide Sound, DirectFrom, PageOf, FbSize;
      ghost var s := Now();
      ok := MapMemmap(ctx, entries, top);
      if ok {
        ok := MapDirect(ctx, fb.address - hhdmOffset, FbSize(fb), s, DirectMap.Covered(entries, |entries|));
      }
    }
  }

  lemma KernelSlotWord(pdpt: nat)
    requires pdpt < MAX_FRAMES
    ensures EntryWord(EntryWord(pdpt * 4096, VF_WRITABLE), VF_PRESENT) == pdpt * 4096 + 3
  {
    hide BitOr;
    EntryIsSum(pdpt * 4096, 2);
    OrBit0(pdpt * 2048 + 1);
  }

  lemma OrBit0(h: nat)
    ensures BitOr(2 * h, 1) == 2 * h + 1
  {
    OrZero(h);
  }

  /** A page backed by one new frame. */
  lemma OneBacking(s: State, s': State, root: nat, start: nat, limit: nat, addr: u64, backing: seq<nat>)
    returns (f: FrameNumber)
    requires SmallFrames(backing)
    requires FillsLowestHole(s, s', root, start, limit, addr, 1, BackedWords(backing, ALLOC_FLAGS), LinkFlags(false),
                             Elements(backing))
    ensures FillsLowestHole(s, s', root, start, limit, addr, 1, [EntryWord(f * 4096, 3)], LinkFlags(false), {f})
  {
    hide Maps, NoHoleBelow, IsHole, EntryWord;
    f := 0;
    if addr != 0 {
      f := backing[0];
      assert backing == [f];
      assert BackedWords(backing, ALLOC_FLAGS) == [EntryWord(f * 4096, 3)];
      OneElement(f);
    }
  }

  lemma KernelPdptKept(s: State, s': State, root: nat, start: nat, limit: nat, addr: u64, n: nat, words: seq<u64>,
                       fl: u64, data: set<nat>)
    requires FillsLowestHole(s, s', root, start, limit, addr, n, words, fl, data) && Contexts.HasKernelPdpt(s)
    ensures Contexts.HasKernelPdpt(s') && s.used <= s'.used
  {}

  lemma MapsKeeps(s: State, s': State, root: nat, first: nat, words: seq<u64>, fl: u64, data: set<nat>)
    requires Maps(s, s', root, first, words, fl, data)
    ensures Keeps(s, s')
  {}

  lemma NoTables(s: State)
    requires s.tags == map[] && |s.mem| <= MAX_FRAMES
    ensures Sound(s)
  {}

  lemma Reachable(m: Memory, root: nat, page: nat)
    ensures Node(m, root, page, 1).Some? ==> Node(m, root, page, 2).Some? && Node(m, root, page, 3).Some?
  {}

  lemma {:induction false} NoPath(m: Memory, root: nat, page: nat, level: nat)
    requires 1 <= level <= 4 && Node(m, root, page, level) == None
    ensures Node(m, root, page, 1) == None
  {
    if level > 1 {
      NoPath(m, root, page, level - 1);
    }
  }
}
