/**
  What `virt_init` builds: the boot context with the direct map and the kernel window, and what that
  gives to everything that runs afterwards.
 */
module Boot {
  import opened Bits
  import opened Rounding
  import opened PageTables
  import opened Growth
  import opened Mapping
  import opened Entries
  import opened Limine
  import opened Phys
  import opened Contexts
  import opened DirectMap
  import opened Rights
  import opened Runs

  ghost predicate OneRoot(s: State, root: nat) {
    forall r | IsRoot(s, r) :: r == root
  }

  /** What holds of the boot context from the moment its two tables exist: see the predicates it is made of. */
  ghost predicate FreshBoot(s: State, s': State, root: nat) {
    && IsRoot(s', root) && OneRoot(s', root) && KernelPdptUnused(s', root) && KernelOnly(s', root)
    && s.tags == map[] && FromFree(s, s') && (FreeFramesZero(s) ==> FreeFramesZero(s'))
  }

  /**
    The frames that the first and the third allocation take read as zero: `virt_init` makes tables of
    them without clearing them. The second one is for the context structure.
   */
  ghost predicate TableFramesZero(s: State) {
    var n := |s.mem|;
    var pdpt := FirstFree(s.used, 0, n);
    var structure := FirstFree(s.used + {pdpt}, 0, n);
    var root := FirstFree(s.used + {pdpt} + {structure}, 0, n);
    && (pdpt < n ==> s.mem[pdpt] == ZeroFrame())
    && (root < n ==> s.mem[root] == ZeroFrame())
  }

  /** Bits past the end of memory make no difference to it. */
  lemma SameTableFrames(s: State, t: State)
    requires s.mem == t.mem && TableFramesZero(s)
    requires forall f: nat | f < |s.mem| :: f in s.used <==> f in t.used
    ensures TableFramesZero(t)
  {
    var n := |s.mem|;
    var pdpt := FirstFree(s.used, 0, n);
    var structure := FirstFree(s.used + {pdpt}, 0, n);
    FirstFreeAgrees(s.used, t.used, 0, n);
    FirstFreeAgrees(s.used + {pdpt}, t.used + {pdpt}, 0, n);
    FirstFreeAgrees(s.used + {pdpt} + {structure}, t.used + {pdpt} + {structure}, 0, n);
  }

  lemma IsBoot(s: State, s': State, root: nat)
    requires FreshBoot(s, s', root)
    ensures IsRoot(s', root)
  {}

  /** Frames are only taken, tables are made in frames that were free, and free frames keep their contents. */
  ghost predicate FromFree(s: State, s': State) {
    && |s'.mem| == |s.mem| && s.used <= s'.used && (s'.tags.Keys - s.tags.Keys) !! s.used
    && forall f: nat | f < |s'.mem| && f !in s'.used :: s'.mem[f] == s.mem[f]
  }

  lemma FromFreeTrans(s0: State, s1: State, s2: State)
    requires FromFree(s0, s1) && FromFree(s1, s2)
    ensures FromFree(s0, s2)
  {
    forall f | f in s2.tags.Keys - s0.tags.Keys ensures f !in s0.used {
      if f in s1.tags {
        assert f in s1.tags.Keys - s0.tags.Keys;
      } else {
        assert f in s2.tags.Keys - s1.tags.Keys;
      }
    }
  }

  /** The frames boot takes: one for each table, and one for the context structure. */
  ghost predicate BootTakes(s: State, s': State, structure: nat) {
    && structure !in s.used && structure !in s'.tags
    && s'.used == s.used + s'.tags.Keys + {structure}
  }

  lemma StillBootTakes(s: State, s0: State, s1: State, root: nat, structure: nat)
    requires BootTakes(s, s0, structure) && StaysBoot(s0, s1, root)
    ensures BootTakes(s, s1, structure)
  {
    assert s0.tags.Keys <= s1.tags.Keys;
    forall f | f in s1.tags ensures f != structure {
      if f !in s0.tags {
        assert f in s1.tags.Keys - s0.tags.Keys;
      }
    }
  }

  lemma StillFreshBoot(s: State, s0: State, s1: State, root: nat)
    requires FreshBoot(s, s0, root) && StaysBoot(s0, s1, root)
    ensures FreshBoot(s, s1, root)
  {
    FromFreeTrans(s, s0, s1);
  }

  lemma AtMostMaxFrames(s: State)
    requires Sound(s)
    ensures |s.mem| <= MAX_FRAMES
  {}

  /** Two frames that read as zero become the kernel PDPT and the PML4 of the boot context. */
  lemma MakeBoot(s: State, t: State, pdpt: nat, root: nat)
    requires s.tags == map[] && t.mem == s.mem && |s.mem| <= MAX_FRAMES
    requires pdpt < |s.mem| && root < |s.mem| && pdpt !in s.used && root !in s.used && pdpt != root
    requires s.mem[pdpt] == ZeroFrame() == s.mem[root] && s.used + {pdpt, root} <= t.used
    ensures Sound(BootState(t, pdpt, root)) && FreshBoot(s, BootState(t, pdpt, root), root)
    ensures NothingMapped(BootState(t, pdpt, root), root)
  {
    BootSound(t, pdpt, root);
    var b := BootState(t, pdpt, root);
    forall q | 0 <= q < PAGES ensures Leaf(b.mem, root, q) == 0 {
      EmptySlot(b, root, q);
    }
  }

  /** All memory that no one uses lies among the frames. */
  ghost predicate FreeWithin(s: State, frames: set<nat>) {
    forall f: nat | f < |s.mem| && f !in s.used :: f in frames
  }

  /**
    If all memory that was free before boot belongs to the direct map, the tables made at boot are in
    reach through it, and so will be those that any run makes from what is left.
   */
  lemma BootIsKept(s: State, s': State, root: nat, hhdm: u64, entries: seq<MemmapEntry>, fb: Framebuffer,
                   exe: Executable)
    requires Sound(s') && FreshBoot(s, s', root) && BootLayout(hhdm, entries, fb, exe)
    requires BootMap(s', root, hhdm, entries, fb, exe)
    ensures FreeWithin(s, BootFrames(hhdm, entries, fb))
            ==> Kept(Moment(s', {}, {}), root, PageOf(hhdm), BootFrames(hhdm, entries, fb))
  {
    hide Sound, PageOf, BootFrames, DirectMapped, KernelPdptUnused, KernelOnly;
    if FreeWithin(s, BootFrames(hhdm, entries, fb)) {
      TagsUsed(s');
    }
  }

  /** `phys_init` leaves free only frames of usable regions, all of which are in the direct map. */
  lemma PhysInitWithin(s: State, hhdm: u64, entries: seq<MemmapEntry>, fb: Framebuffer, limit: nat)
    requires hhdm <= fb.address && |s.mem| <= limit && MemmapLayout(entries)
    requires forall f: nat | f < limit && f !in s.used ::
               exists j :: 0 <= j < |entries| && entries[j].kind.Usable?
                           && entries[j].base <= 4096 * f < entries[j].base + entries[j].length
    ensures FreeWithin(s, BootFrames(hhdm, entries, fb))
  {
    hide Covered;
    forall f: nat | f < |s.mem| && f !in s.used ensures f in BootFrames(hhdm, entries, fb) {
      var j :| 0 <= j < |entries| && entries[j].kind.Usable?
               && entries[j].base <= 4096 * f < entries[j].base + entries[j].length;
      assert entries[j] in entries;
      UsableFrame(entries[j], f);
      EntryCovered(entries, |entries|, j);
    }
  }

  lemma UsableFrame(e: MemmapEntry, f: nat)
    requires e.kind.Usable? && e.base % 4096 == 0 && e.base <= 4096 * f < e.base + e.length
    ensures f in EntryFrames(e)
  {
    RegionFrames(e.base, e.length, f);
  }

  /** `width * height * bpp / BITS_PER_BYTE`, in 64-bit arithmetic. */
  function FbSize(fb: Framebuffer): u64 {
    Wrap(fb.width * fb.height * fb.bpp) / 8
  }

  /** What the boot loader guarantees: all of it fits the address space, the kernel window above the direct map. */
  ghost predicate BootLayout(hhdm: u64, entries: seq<MemmapEntry>, fb: Framebuffer, exe: Executable) {
    && exe.virtualBase % 4096 == 0 && hhdm <= exe.virtualBase && exe.virtualBase + exe.size <= MAX_SIZE - 4096
    && (forall e | e in entries
                   && (e.kind.Usable? || e.kind.BootloaderReclaimable? || e.kind.ExecutableAndModules?
                       || e.kind.ReservedMapped? || e.kind.AcpiReclaimable? || e.kind.AcpiNvs?) ::
          hhdm + e.base + e.length <= exe.virtualBase)
    && hhdm <= fb.address && fb.address + FbSize(fb) <= exe.virtualBase
  }

  /** The frames `virt_init` puts into the direct map. */
  ghost function BootFrames(hhdm: u64, entries: seq<MemmapEntry>, fb: Framebuffer): set<nat>
    requires hhdm <= fb.address
  {
    Covered(entries, |entries|) + RunFrames(fb.address - hhdm, FbSize(fb))
  }

  lemma WindowFits(hhdm: u64, entries: seq<MemmapEntry>, fb: Framebuffer, exe: Executable)
    requires BootLayout(hhdm, entries, fb, exe) && hhdm >= 0xffff_8000_0000_0000
    ensures exe.virtualBase >= 0xffff_8000_0000_0000
    ensures exe.virtualBase + 4096 * Ceil(exe.size, 4096) <= TWO_64 && Ceil(exe.size, 4096) <= PAGES
  {}

  lemma BootBelow(hhdm: u64, entries: seq<MemmapEntry>, fb: Framebuffer, exe: Executable)
    requires BootLayout(hhdm, entries, fb, exe)
    ensures Below(hhdm, BootFrames(hhdm, entries, fb), exe.virtualBase)
  {
    CoveredBelow(hhdm, entries, |entries|, exe.virtualBase);
  }

  lemma {:induction false} CoveredBelow(hhdm: u64, entries: seq<MemmapEntry>, i: nat, top: int)
    requires i <= |entries| && forall e | e in entries && IsDirectMapped(e.kind) :: EntryFits(e, hhdm, top)
    ensures Below(hhdm, Covered(entries, i), top)
  {
    if i > 0 {
      CoveredBelow(hhdm, entries, i - 1, top);
      if IsDirectMapped(entries[i - 1].kind) {
        assert EntryFits(entries[i - 1], hhdm, top);
      }
    }
  }

  /** What every mapping of the boot context keeps: all it touches is the upper half of its own tables. */
  ghost predicate StaysBoot(s: State, s': State, root: nat) {
    && Keeps(s, s') && FromFree(s, s') && s'.used == s.used + s'.tags.Keys
    && (KernelPdptUnused(s, root) ==> KernelPdptUnused(s', root))
    && (KernelOnly(s, root) ==> KernelOnly(s', root))
    && (OneRoot(s, root) ==> OneRoot(s', root))
    && (FreeFramesZero(s) ==> FreeFramesZero(s'))
  }

  lemma MapsStayBoot(s: State, s': State, root: nat, addr: u64, words: seq<u64>)
    requires Sound(s) && IsRoot(s, root) && Maps(s, s', root, PageOf(addr), words, LinkFlags(false), {})
    requires addr >= 0xffff_8000_0000_0000 && addr + 4096 * |words| <= TWO_64
    ensures StaysBoot(s, s', root)
  {
    hide Sound, Translates, KernelPdptUnused, KernelOnly, PageOf, PathsExist, Grows, FromFree, Keeps;
    var pages := RangePages(PageOf(addr), |words|);
    PagesOfUpper(addr, |words|);
    LinkFlagValues(false);
    GrowsFromFree(s, s', root, pages, LinkFlags(false));
    if KernelPdptUnused(s, root) {
      StaysUnused(s, s', root, pages, LinkFlags(false), {});
    }
    if KernelOnly(s, root) {
      StaysKernelOnly(s, s', root, pages, {});
    }
  }

  lemma GrowsFromFree(s: State, s': State, root: nat, pages: set<nat>, fl: u64)
    requires Sound(s) && Sound(s') && Grows(s, s', root, pages, fl, {})
    ensures Keeps(s, s') && FromFree(s, s') && s'.used == s.used + s'.tags.Keys
    ensures FreeFramesZero(s) ==> FreeFramesZero(s')
    ensures OneRoot(s, root) ==> OneRoot(s', root)
  {
    TagsUsed(s');
    GrowsRoots(s, s', root, pages, fl, {});
  }

  /** A memory-map entry, aligned or not, ends at or below `top` in the direct map. */
  ghost predicate EntryFits(e: MemmapEntry, hhdm: u64, top: int) {
    hhdm + e.base + e.length <= top
  }

  lemma EntrySize(e: MemmapEntry, hhdm: u64, top: int)
    requires EntryFits(e, hhdm, top) && top <= MAX_SIZE - 4096
    ensures var size := Wrap(Ceil(e.length, 4096) * 4096);
            Ceil(size, 4096) == Ceil(e.length, 4096) && hhdm + e.base + size <= MAX_SIZE
  {}

  lemma DirectRunFits(hhdm: u64, base: u64, size: u64)
    requires hhdm >= 0xffff_8000_0000_0000 && hhdm + base + size <= MAX_SIZE
    ensures base / 4096 + Ceil(size, 4096) <= PAGES && hhdm + base + 4096 * Ceil(size, 4096) <= TWO_64
    ensures Wrap(base + hhdm) == base + hhdm && base == base / 4096 * 4096 + base % 4096
  {}

  /** The pages outside the set have the entries they had. */
  ghost predicate OnlyAt(s: State, s': State, root: nat, pages: set<nat>) {
    forall q | 0 <= q < PAGES && q !in pages :: Leaf(s'.mem, root, q) == Leaf(s.mem, root, q)
  }

  ghost predicate NothingMapped(s: State, root: nat) {
    forall q | 0 <= q < PAGES :: Leaf(s.mem, root, q) == 0
  }

  /** The frames `base / 4096`, ... that mapping [base, base + size) reaches. */
  ghost function RunFrames(base: u64, size: u64): set<nat> {
    FrameRange(base / 4096, Ceil(size, 4096))
  }

  /** From `s` on, the frames have been put at their place in the direct map, and nothing else has been mapped. */
  ghost predicate DirectFrom(s: State, s': State, root: nat, base: nat, frames: set<nat>) {
    && StaysBoot(s, s', root) && IsRoot(s', root)
    && DirectMapped(s', root, base, frames) && OnlyAt(s, s', root, DirectPages(base, frames))
  }

  lemma DirectFromNothing(s: State, root: nat, base: nat)
    requires Sound(s) && IsRoot(s, root)
    ensures DirectFrom(s, s, root, base, {})
  {
    TagsUsed(s);
  }

  lemma DirectFromRoot(s: State, s': State, root: nat, base: nat, frames: set<nat>)
    requires DirectFrom(s, s', root, base, frames)
    ensures IsRoot(s', root)
  {}

  /** Mapping one more run adds its frames, and only them. */
  lemma DirectFromMore(s: State, s1: State, s2: State, root: nat, hhdm: u64, mapped: set<nat>, base: u64, size: u64)
    requires Sound(s) && Sound(s1) && DirectFrom(s, s1, root, PageOf(hhdm), mapped)
    requires hhdm % 4096 == 0 && hhdm >= 0xffff_8000_0000_0000 && hhdm + base + size <= MAX_SIZE
    requires Maps(s1, s2, root, PageOf(base + hhdm), MapWords(base, Ceil(size, 4096), 3), LinkFlags(false), {})
    ensures DirectFrom(s, s2, root, PageOf(hhdm), mapped + RunFrames(base, size))
  {
    hide Sound, DirectMapped, PageOf, Maps, MapWords, PageAt, StaysBoot, OnlyAt, RunFrames, DirectPages, Ceil;
    var b, n := base / 4096, Ceil(size, 4096);
    DirectRunFits(hhdm, base, size);
    DirectPage(hhdm, b, base % 4096);
    assert hhdm + b * 4096 + base % 4096 == base + hhdm;
    WordsLength(base, n, 3);
    MapsStayBoot(s1, s2, root, base + hhdm, MapWords(base, n, 3));
    KeepsTogether(s, s1, s2, root);
    RunInPlace(s1, s2, root, PageOf(hhdm), mapped, base, n, LinkFlags(false));
    RunOnlyAt(s, s1, s2, root, PageOf(hhdm), mapped, base, n, size);
  }

  lemma RunOnlyAt(s: State, s1: State, s2: State, root: nat, first: nat, mapped: set<nat>, base: u64, n: nat, size: u64)
    requires OnlyAt(s, s1, root, DirectPages(first, mapped)) && IsRoot(s1, root) && first < PAGES
    requires Maps(s1, s2, root, PageAt(first, base / 4096), MapWords(base, n, 3), LinkFlags(false), {})
    requires n == Ceil(size, 4096)
    ensures RunFrames(base, size) == FrameRange(base / 4096, n)
    ensures OnlyAt(s, s2, root, DirectPages(first, mapped + RunFrames(base, size)))
  {
    hide Sound, Maps, MapWords, PageAt, Leaf, Ceil;
    var b, words := base / 4096, MapWords(base, n, 3);
    WordsLength(base, n, 3);
    forall q | 0 <= q < PAGES && q !in DirectPages(first, mapped + RunFrames(base, size))
      ensures Leaf(s2.mem, root, q) == Leaf(s.mem, root, q)
    {
      if q in RangePages(PageAt(first, b), n) {
        RunIsDirect(first, b, n, q);
      }
      NotWritten(s1, s2, root, PageAt(first, b), words, LinkFlags(false), q);
    }
  }

  /** A page that a mapping does not write keeps its entry. */
  lemma NotWritten(s: State, s': State, root: nat, first: nat, words: seq<u64>, fl: u64, q: nat)
    requires IsRoot(s, root) && Maps(s, s', root, first, words, fl, {})
    requires q < PAGES && q !in RangePages(first, |words|)
    ensures Leaf(s'.mem, root, q) == Leaf(s.mem, root, q)
  {
    hide Sound, Grows, PathsExist, Translates, Leaf;
    WrittenInRange(q, first, words);
    OwnTranslation(s, s', root, first, words, q);
  }

  /** The pages of a run are the places of its frames. */
  lemma {:induction false} RunIsDirect(first: nat, b: nat, n: nat, q: nat)
    requires q in RangePages(PageAt(first, b), n)
    ensures q in DirectPages(first, FrameRange(b, n))
  {
    PageAtSum(first, b, n - 1);
    if q == PageAt(PageAt(first, b), n - 1) {
      assert b + n - 1 in FrameRange(b, n);
    } else {
      RunIsDirect(first, b, n - 1, q);
    }
  }

  /**
    The boot context's map: every frame that belongs in the direct map is in place, the kernel
    window maps the kernel's frames, and nothing else is mapped.
   */
  ghost predicate BootMap(s: State, root: nat, hhdm: u64, entries: seq<MemmapEntry>, fb: Framebuffer, exe: Executable)
    requires hhdm <= fb.address
  {
    && DirectMapped(s, root, PageOf(hhdm), BootFrames(hhdm, entries, fb))
    && (forall k: nat | k < Ceil(exe.size, 4096) ::
          Leaf(s.mem, root, PageAt(PageOf(exe.virtualBase), k))
          == EntryWord(Wrap(exe.physicalBase + 4096 * k), 3))
    && (forall q | 0 <= q < PAGES && q !in DirectPages(PageOf(hhdm), BootFrames(hhdm, entries, fb))
                   && q !in RangePages(PageOf(exe.virtualBase), Ceil(exe.size, 4096)) :: Leaf(s.mem, root, q) == 0)
  }

  /** The mapping of the kernel window. */
  ghost predicate MapsWindow(s: State, s': State, root: nat, exe: Executable) {
    Maps(s, s', root, PageOf(exe.virtualBase), MapWords(exe.physicalBase, Ceil(exe.size, 4096), ALLOC_FLAGS),
         LinkFlags(false), {})
  }

  /** Mapping the kernel window completes the map. */
  lemma KernelWindow(s0: State, s: State, s': State, root: nat, hhdm: u64, entries: seq<MemmapEntry>, fb: Framebuffer,
                     exe: Executable)
    requires BootLayout(hhdm, entries, fb, exe) && hhdm % 4096 == 0 && hhdm >= 0xffff_8000_0000_0000
    requires Sound(s0) && Sound(s) && NothingMapped(s0, root)
    requires DirectFrom(s0, s, root, PageOf(hhdm), BootFrames(hhdm, entries, fb)) && MapsWindow(s, s', root, exe)
    ensures BootMap(s', root, hhdm, entries, fb, exe) && StaysBoot(s0, s', root)
  {
    hide Sound, Maps, PageOf, MapWords, DirectMapped, BootFrames, Ceil, StaysBoot, PageAt, Leaf, EntryWord;
    hide DirectPages, RangePages;
    var n, words := Ceil(exe.size, 4096), MapWords(exe.physicalBase, Ceil(exe.size, 4096), ALLOC_FLAGS);
    WindowFits(hhdm, entries, fb, exe);
    WordsLength(exe.physicalBase, n, ALLOC_FLAGS);
    MapsStayBoot(s, s', root, exe.virtualBase, words);
    KeepsTogether(s0, s, s', root);
    WindowKeepsDirect(s, s', root, hhdm, entries, fb, exe);
    forall k: nat | k < n
      ensures Leaf(s'.mem, root, PageAt(PageOf(exe.virtualBase), k))
              == EntryWord(Wrap(exe.physicalBase + 4096 * k), ALLOC_FLAGS)
    {
      MapWordsAt(exe.physicalBase, n, ALLOC_FLAGS, k);
      MappedAt(s, s', root, PageOf(exe.virtualBase), words, LinkFlags(false), {}, k);
    }
    forall q | 0 <= q < PAGES && q !in DirectPages(PageOf(hhdm), BootFrames(hhdm, entries, fb))
               && q !in RangePages(PageOf(exe.virtualBase), n)
      ensures Leaf(s'.mem, root, q) == 0
    {
      NotWritten(s, s', root, PageOf(exe.virtualBase), words, LinkFlags(false), q);
    }
  }

  lemma WindowKeepsDirect(s: State, s': State, root: nat, hhdm: u64, entries: seq<MemmapEntry>, fb: Framebuffer,
                          exe: Executable)
    requires BootLayout(hhdm, entries, fb, exe) && hhdm % 4096 == 0 && hhdm >= 0xffff_8000_0000_0000 && IsRoot(s, root)
    requires DirectMapped(s, root, PageOf(hhdm), BootFrames(hhdm, entries, fb)) && MapsWindow(s, s', root, exe)
    ensures DirectMapped(s', root, PageOf(hhdm), BootFrames(hhdm, entries, fb))
  {
    hide Maps, PageOf, MapWords, DirectMapped, BootFrames, Ceil;
    var n, mapped := Ceil(exe.size, 4096), BootFrames(hhdm, entries, fb);
    BootBelow(hhdm, entries, fb, exe);
    WindowFits(hhdm, entries, fb, exe);
    WordsLength(exe.physicalBase, n, ALLOC_FLAGS);
    WindowApart(hhdm, mapped, exe.virtualBase, n);
    UntouchedStays(s, s', root, PageOf(hhdm), PageOf(exe.virtualBase), MapWords(exe.physicalBase, n, ALLOC_FLAGS),
                   LinkFlags(false), {}, mapped);
  }

  lemma KeepsTogether(s0: State, s1: State, s2: State, root: nat)
    requires Sound(s0) && StaysBoot(s0, s1, root) && StaysBoot(s1, s2, root) && IsRoot(s1, root)
    ensures StaysBoot(s0, s2, root) && IsRoot(s2, root)
  {
    hide Sound, KernelPdptUnused, KernelOnly, FreeFramesZero;
    KeepsTrans(s0, s1, s2);
    FromFreeTrans(s0, s1, s2);
  }
}
