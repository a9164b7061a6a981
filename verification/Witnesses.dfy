/**
  Inputs on which the code does not do what one would expect, one for each of the failures whose
  exact conditions are proved elsewhere, and inputs that meet the premises of the main theorems.

  Most of them are states of the page tables. `Tree` builds such states: a context with every table it can
  have, in which page `q` has the entry `leaf(q)`.
 */
module Witnesses {
  import opened Bits
  import opened Options
  import opened PageTables
  import opened TableEdits
  import opened Growth
  import opened Mapping
  import opened Entries
  import opened Contexts
  import opened Limine
  import Boot
  import DirectMap
  import Guarantees
  import Hardware
  import KernelApi
  import Phys
  import Rights
  import Runs
  import Startup
  import Symbols
  import Virt

  // ---------------------------------------------------------------- a context with all its tables

  /** Frame 1 is the PML4; then come the 512 PDPTs, the page directories and the page tables. */
  const FIRST_PD: nat := 514
  const FIRST_PT: nat := 0x4_0202
  const KERNEL_PDPT: nat := 0x804_0202

  /** A used frame that holds no table. */
  const SPARE: nat := KERNEL_PDPT + 1

  /** A free frame. */
  const FREE: nat := KERNEL_PDPT + 2

  const FRAMES: nat := KERNEL_PDPT + 3

  function LevelAt(f: nat): nat {
    if f < 2 then 4 else if f < FIRST_PD then 3 else if f < FIRST_PT then 2 else 1
  }

  function PrefixAt(f: nat): nat {
    if f < 2 then 0 else if f < FIRST_PD then f - 2 else if f < FIRST_PT then f - FIRST_PD else f - FIRST_PT
  }

  function TableAt(level: nat, prefix: nat): nat {
    if level >= 4 then 1
    else if level == 3 then 2 + prefix
    else if level == 2 then FIRST_PD + prefix
    else FIRST_PT + prefix
  }

  predicate IsTree(f: nat) {
    1 <= f < KERNEL_PDPT
  }

  /** The table that slot `i` of table `f` leads to. */
  function ChildAt(f: nat, i: nat): nat {
    TableAt(LevelAt(f) - 1, PrefixAt(f) * 512 + i)
  }

  lemma Child(f: nat, i: nat)
    requires IsTree(f) && LevelAt(f) > 1 && i < ENTRIES
    ensures IsTree(ChildAt(f, i)) && ChildAt(f, i) != 1
    ensures LevelAt(ChildAt(f, i)) == LevelAt(f) - 1 && PrefixAt(ChildAt(f, i)) == PrefixAt(f) * 512 + i
  {}

  lemma TableOf(level: nat, prefix: nat)
    requires 1 <= level <= 4 && (level == 4 ==> prefix == 0) && (level == 3 ==> prefix < 512)
    requires (level == 2 ==> prefix < 0x4_0000) && (level == 1 ==> prefix < 0x800_0000)
    ensures IsTree(TableAt(level, prefix))
    ensures LevelAt(TableAt(level, prefix)) == level && PrefixAt(TableAt(level, prefix)) == prefix
  {}

  function Word(leaf: nat -> u64, fl: u64, f: nat, i: nat): u64
    requires fl < 4096
  {
    if !IsTree(f) || i >= ENTRIES then 0
    else if LevelAt(f) == 1 then leaf(PrefixAt(f) * 512 + i)
    else ChildAt(f, i) * 4096 + fl
  }

  function FrameAt(leaf: nat -> u64, fl: u64, stale: Frame, f: nat): Frame
    requires fl < 4096
  {
    if f == SPARE then stale else seq(ENTRIES, (i: nat) => Word(leaf, fl, f, i))
  }

  ghost function TreeTags(): map<nat, Tag> {
    map f: nat | f <= KERNEL_PDPT && IsTable(f) :: TagAt(f)
  }

  predicate IsTable(f: nat) {
    1 <= f <= KERNEL_PDPT
  }

  function TagAt(f: nat): Tag {
    if f == KERNEL_PDPT then Tag(Kernel, 3, 511) else Tag(Context(1), LevelAt(f), PrefixAt(f))
  }

  ghost function TreeUsed(): set<nat> {
    set f: nat | f <= SPARE && IsUsed(f)
  }

  /** Links carry the flags `fl`; the spare frame reads as `stale`, and the kernel PDPT is empty. */
  ghost function Tree(leaf: nat -> u64, fl: u64, stale: Frame): State
    requires fl < 4096
  {
    State(seq(FRAMES, (f: nat) => FrameAt(leaf, fl, stale, f)), TreeTags(), TreeUsed(), KERNEL_PDPT)
  }

  predicate IsUsed(f: nat) {
    f <= SPARE
  }

  lemma TreeWord(leaf: nat -> u64, fl: u64, stale: Frame, f: nat, i: nat)
    requires fl < 4096 && f < FRAMES && f != SPARE && i < ENTRIES
    ensures |Tree(leaf, fl, stale).mem| == FRAMES && Tree(leaf, fl, stale).mem[f][i] == Word(leaf, fl, f, i)
    ensures Tree(leaf, fl, stale).mem[SPARE] == stale
  {}

  lemma TreeSound(leaf: nat -> u64, fl: u64, stale: Frame)
    requires TableFlags(fl)
    ensures Sound(Tree(leaf, fl, stale)) && IsRoot(Tree(leaf, fl, stale), 1)
  {
    var s := Tree(leaf, fl, stale);
    forall f | f in s.tags ensures GoodTag(s, f, s.tags[f]) {}
    forall f | f in s.tags && s.tags[f].level > 1 ensures GoodLinks(s, f) {
      forall i | 0 <= i < ENTRIES && s.mem[f][i] != 0 ensures GoodLink(s.tags, s.tags[f], i, s.mem[f][i]) {
        TreeWord(leaf, fl, stale, f, i);
        TreeLink(leaf, fl, f, i);
      }
    }
  }

  lemma TreeLink(leaf: nat -> u64, fl: u64, f: nat, i: nat)
    requires TableFlags(fl) && IsTable(f) && TagAt(f).level > 1 && i < ENTRIES && Word(leaf, fl, f, i) != 0
    ensures GoodLink(TreeTags(), TagAt(f), i, Word(leaf, fl, f, i))
  {
    Child(f, i);
    EntryFields(ChildAt(f, i), fl);
    hide TestBit, LevelAt, PrefixAt, ChildAt;
    assert ChildAt(f, i) in TreeTags();
  }

  /** The table of a level on a page's path. */
  predicate OnPathOf(f: nat, q: nat, level: nat) {
    IsTree(f) && LevelAt(f) == level && PrefixAt(f) == Prefix(q, level)
  }

  lemma {:induction false} TreeNode(leaf: nat -> u64, fl: u64, stale: Frame, q: nat, level: nat) returns (f: nat)
    requires TableFlags(fl) && q < PAGES && 1 <= level <= 4
    ensures Node(Tree(leaf, fl, stale).mem, 1, q, level) == Some(f) && OnPathOf(f, q, level)
    decreases 4 - level
  {
    hide Tree, Prefix, Index, TestBit;
    if level == 4 {
      f := 1;
      PrefixTop(q);
      TreeWord(leaf, fl, stale, 1, 0);
    } else {
      var above := TreeNode(leaf, fl, stale, q, level + 1);
      f := ChildAt(above, Index(q, level + 1));
      Child(above, Index(q, level + 1));
      PrefixStep(q, level + 1);
      TreeStep(leaf, fl, stale, q, level, above);
    }
  }

  lemma TreeStep(leaf: nat -> u64, fl: u64, stale: Frame, q: nat, level: nat, above: nat)
    requires TableFlags(fl) && 1 <= level < 4 && Node(Tree(leaf, fl, stale).mem, 1, q, level + 1) == Some(above)
    requires IsTree(above) && LevelAt(above) == level + 1
    ensures Node(Tree(leaf, fl, stale).mem, 1, q, level) == Some(ChildAt(above, Index(q, level + 1)))
  {
    var i := Index(q, level + 1);
    TreeWord(leaf, fl, stale, above, i);
    Child(above, i);
    PackedFrame(ChildAt(above, i), fl);
    LinkNotZero(fl);
    hide Tree, LevelAt, PrefixAt, ChildAt, Index, FrameOf, TableFlags;
  }

  lemma LinkNotZero(fl: u64)
    requires TableFlags(fl)
    ensures fl > 0
  {
    ZeroTest(0);
  }

  lemma TreeLeaf(leaf: nat -> u64, fl: u64, stale: Frame, q: nat)
    requires TableFlags(fl) && q < PAGES
    ensures Leaf(Tree(leaf, fl, stale).mem, 1, q) == leaf(q)
  {
    var f := TreeNode(leaf, fl, stale, q, 1);
    TreeWord(leaf, fl, stale, f, Index(q, 1));
    PrefixStep(q, 1);
    assert Prefix(q, 0) == q;
  }

  /** The entries after `words` are written to the pages from `first`. */
  function Written(leaf: nat -> u64, first: nat, words: seq<u64>): nat -> u64 {
    (q: nat) => match LastWrite(q, first, words) case None => leaf(q) case Some(w) => w
  }

  /** In a context that has all its tables, a mapping changes entries and nothing else. */
  lemma TreeMaps(leaf: nat -> u64, fl: u64, stale: Frame, first: nat, words: seq<u64>, linkFlags: u64)
    requires TableFlags(fl) && first < PAGES
    ensures Maps(Tree(leaf, fl, stale), Tree(Written(leaf, first, words), fl, stale), 1, first, words, linkFlags, {})
  {
    var leaf' := Written(leaf, first, words);
    var s, s' := Tree(leaf, fl, stale), Tree(leaf', fl, stale);
    TreeSound(leaf', fl, stale);
    TreeGrows(leaf, leaf', fl, stale, RangePages(first, |words|), linkFlags);
    hide Tree, Grows, Sound, TreeTags;
    forall q | q in RangePages(first, |words|) ensures Node(s'.mem, 1, q, 1).Some? {
      RangeBelow(first, |words|, q);
      var f := TreeNode(leaf', fl, stale, q, 1);
    }
    forall r, q | IsRoot(s, r) && 0 <= q < PAGES ensures Leaf(s'.mem, r, q) == NewLeaf(s, s', 1, first, words, r, q) {
      OnlyRoot(leaf, fl, stale, r);
      TreeLeaf(leaf, fl, stale, q);
      TreeLeaf(leaf', fl, stale, q);
    }
  }

  lemma OnlyRoot(leaf: nat -> u64, fl: u64, stale: Frame, r: nat)
    requires fl < 4096 && IsRoot(Tree(leaf, fl, stale), r)
    ensures r == 1
  {}

  lemma TreeGrows(leaf: nat -> u64, leaf': nat -> u64, fl: u64, stale: Frame, pages: set<nat>, linkFlags: u64)
    requires TableFlags(fl)
    ensures Grows(Tree(leaf, fl, stale), Tree(leaf', fl, stale), 1, pages, linkFlags, {})
  {
    var s, s' := Tree(leaf, fl, stale), Tree(leaf', fl, stale);
    forall f: nat | f < FRAMES && !(IsTable(f) && TagAt(f).level == 1) ensures s'.mem[f] == s.mem[f] {
      forall i | 0 <= i < ENTRIES ensures s'.mem[f][i] == s.mem[f][i] {
        if f != SPARE {
          TreeWord(leaf, fl, stale, f, i);
          TreeWord(leaf', fl, stale, f, i);
        }
      }
    }
  }

  lemma KernelFlags()
    ensures TableFlags(3) && TableFlags(7)
  {
    ThreeBits();
  }

  // ---------------------------------------------------------------- halves

  const HHDM: u64 := 0xffff_8000_0000_0000

  /** The upper half is full but for its last 17 pages, the lower half is empty. */
  function NearlyFull(q: nat): u64 {
    if UPPER_HALF <= q < PAGES - 17 then 3 else 0
  }

  /** Then a mapping of 18 pages is put at the last of them, and runs into the lower half. */
  lemma UpperRangeOverruns() returns (s: State, s': State, addr: u64)
    ensures Sound(s) && IsRoot(s, 1)
    ensures FillsLowestHole(s, s', 1, HHDM + 4096, Virt.SCAN_LIMIT, addr, 18, MapWords(0, 18, ALLOC_FLAGS),
                            LinkFlags(false), {})
    ensures addr != 0 && !Rights.InUpperHalf(addr, 18)
  {
    hide Maps, Sound, MapWords, IsHole, PageOf, Rights.InUpperHalf, NoHoleBelow;
    addr := 0xffff_ffff_fffe_f000;
    var words := MapWords(0, 18, ALLOC_FLAGS);
    DirectMap.WordsLength(0, 18, ALLOC_FLAGS);
    UpperPage(addr);
    forall k: nat | k < 18 ensures NearlyFull(PageAt(PageOf(addr), k)) == 0 {
      PageAtIs(PageOf(addr), k);
    }
    forall a: u64 | HHDM + 4096 <= a < addr && a % 4096 == 0 ensures NearlyFull(PageOf(a)) != 0 {
      UpperPage(a);
    }
    KernelFlags();
    s, s' := TreeFills(NearlyFull, HHDM + 4096, Virt.SCAN_LIMIT, addr, words, LinkFlags(false));
    Rights.UpperBytes(addr, 18);
  }

  /** A range of pages in a hole is filled there if no lower address has an unmapped page. */
  lemma TreeFills(leaf: nat -> u64, start: nat, limit: nat, addr: u64, words: seq<u64>, linkFlags: u64)
    returns (s: State, s': State)
    requires addr != 0 && addr % 4096 == 0 && start <= addr < limit && |words| > 0
    requires forall k: nat | k < |words| :: leaf(PageAt(PageOf(addr), k)) == 0
    requires forall a: u64 | start <= a < addr && a % 4096 == 0 :: leaf(PageOf(a)) != 0
    ensures s == Tree(leaf, 3, ZeroFrame()) && Sound(s) && IsRoot(s, 1) && s'.used == s.used
    ensures FillsLowestHole(s, s', 1, start, limit, addr, |words|, words, linkFlags, {})
  {
    hide Tree, Maps, Sound, Written, TableFlags, PageOf, IsRoot, IsHole;
    KernelFlags();
    s, s' := Tree(leaf, 3, ZeroFrame()), Tree(Written(leaf, PageOf(addr), words), 3, ZeroFrame());
    SameUsed(leaf, Written(leaf, PageOf(addr), words));
    TreeSound(leaf, 3, ZeroFrame());
    TreeMaps(leaf, 3, ZeroFrame(), PageOf(addr), words, linkFlags);
    HoleIn(leaf, PageOf(addr), |words|);
    forall a | start <= a < addr && a % 4096 == 0 ensures !IsHole(s.mem, 1, PageOf(a), |words|) {
      MappedFirst(leaf, 3, a, |words|);
    }
  }

  lemma SameUsed(leaf: nat -> u64, leaf': nat -> u64)
    ensures Tree(leaf', 3, ZeroFrame()).used == Tree(leaf, 3, ZeroFrame()).used
  {}

  lemma HoleIn(leaf: nat -> u64, first: nat, n: nat)
    requires first < PAGES && forall k: nat | k < n :: leaf(PageAt(first, k)) == 0
    ensures IsHole(Tree(leaf, 3, ZeroFrame()).mem, 1, first, n)
  {
    hide Tree, Leaf, TableFlags;
    KernelFlags();
    forall k: nat | k < n ensures Leaf(Tree(leaf, 3, ZeroFrame()).mem, 1, PageAt(first, k)) == 0 {
      TreeLeaf(leaf, 3, ZeroFrame(), PageAt(first, k));
    }
  }

  /** No hole begins at a mapped page. */
  lemma MappedFirst(leaf: nat -> u64, fl: u64, a: u64, n: nat)
    requires TableFlags(fl) && n > 0 && leaf(PageOf(a)) != 0
    ensures !IsHole(Tree(leaf, fl, ZeroFrame()).mem, 1, PageOf(a), n)
  {
    TreeLeaf(leaf, fl, ZeroFrame(), PageOf(a));
    assert PageAt(PageOf(a), 0) == PageOf(a);
  }

  /** The lower half is full. */
  function LowerFull(q: nat): u64 {
    if q < UPPER_HALF then 3 else 0
  }

  /** Then `virt_user_alloc` of one page returns bit 47, which is no address at all. */
  lemma LowerRangeOverruns() returns (s: State, s': State)
    ensures Sound(s) && IsRoot(s, 1) && FREE !in s.used
    ensures FillsLowestHole(s, s', 1, Virt.USER_START, HHDM, Rights.LOWER_END, 1, [EntryWord(FREE * 4096, USER_FLAGS)],
                            LinkFlags(true), {FREE})
    ensures !Rights.InLowerHalf(Rights.LOWER_END, 1) && !Hardware.IsCanonical(Rights.LOWER_END)
  {
    hide EntryWord, IsHole, NoHoleBelow;
    s, s' := TreeAllocates(LowerFull, Virt.USER_START, HHDM, Rights.LOWER_END, USER_FLAGS, LinkFlags(true));
    Rights.LowerBytes(Rights.LOWER_END, 1);
  }

  /** An allocation of one page, which takes the free frame. */
  lemma TreeAllocates(leaf: nat -> u64, start: nat, limit: nat, addr: u64, flags: u64, linkFlags: u64)
    returns (s: State, s': State)
    requires addr != 0 && addr % 4096 == 0 && start <= addr < limit
    requires leaf(PageOf(addr)) == 0
    requires forall a: u64 | start <= a < addr && a % 4096 == 0 :: leaf(PageOf(a)) != 0
    ensures s == Tree(leaf, 3, ZeroFrame()) && Sound(s) && IsRoot(s, 1) && FREE !in s.used
    ensures FillsLowestHole(s, s', 1, start, limit, addr, 1, [EntryWord(FREE * 4096, flags)], linkFlags, {FREE})
  {
    hide EntryWord, IsHole, NoHoleBelow, Maps, Sound, PageOf;
    assert PageAt(PageOf(addr), 0) == PageOf(addr);
    var s1;
    s, s1 := TreeFills(leaf, start, limit, addr, [EntryWord(FREE * 4096, flags)], linkFlags);
    TakeData(s, s1, 1, PageOf(addr), [EntryWord(FREE * 4096, flags)], linkFlags, {}, FREE);
    assert {} + {FREE} == {FREE};
    s' := s1.(used := s1.used + {FREE});
  }

  // ---------------------------------------------------------------- rights

  function Unmapped(q: nat): u64 {
    0
  }

  /** Tables that kernel mappings have left behind in the lower half keep a user allocation closed to user mode. */
  lemma UserPageIsClosed() returns (s: State, s': State)
    ensures Sound(s) && IsRoot(s, 1)
    ensures FillsLowestHole(s, s', 1, Virt.USER_START, HHDM, Virt.USER_START, 1, [EntryWord(FREE * 4096, USER_FLAGS)],
                            LinkFlags(true), {FREE})
    ensures var a := Hardware.Translate(s'.mem, 1, Virt.USER_START); a.Mapped? && !a.user
  {
    hide EntryWord, IsHole, NoHoleBelow, Maps, Sound, PageOf, Hardware.Translate, Hardware.PathOpen, Rights.UserEntry;
    s, s' := TreeAllocates(Unmapped, Virt.USER_START, HHDM, Virt.USER_START, USER_FLAGS, LinkFlags(true));
    var w := EntryWord(FREE * 4096, USER_FLAGS);
    LastWriteOne(PageOf(Virt.USER_START), PageOf(Virt.USER_START), w);
    Guarantees.UserWord(FREE);
    LinkFlagValues(true);
    Rights.UserAccessIff(s, s', 1, PageOf(Virt.USER_START), [w], {FREE}, Virt.USER_START, w);
    ClosedTree(Unmapped, PageOf(Virt.USER_START));
  }

  lemma ClosedTree(leaf: nat -> u64, q: nat)
    requires q < PAGES
    ensures !Hardware.PathOpen(Tree(leaf, 3, ZeroFrame()).mem, 1, q)
  {
    KernelFlags();
    var f := TreeNode(leaf, 3, ZeroFrame(), q, 4);
    TreeWord(leaf, 3, ZeroFrame(), f, Index(q, 4));
    EntryFields(ChildAt(f, Index(q, 4)), 3);
    ThreeBits();
    hide Tree, Index, Node, TestBit;
    assert !Hardware.LinkOpen(Tree(leaf, 3, ZeroFrame()).mem, 1, q, 4);
  }

  // ---------------------------------------------------------------- translations

  function AllAt(w: u64): nat -> u64 {
    (q: nat) => w
  }

  /** Frame 1, mapped with bit 52 of the entry clear or set. */
  const PLAIN: u64 := 0x1003
  const BIT_52: u64 := 0x10_0000_0000_1003

  /**
    `virt_get_physical_address` is off by the offset of address 1 in its page, and by bit 52 of the
    entry of address 0.
   */
  lemma PhysicalAddressIsOff() returns (s: State, t: State)
    ensures Sound(s) && IsRoot(s, 1) && Sound(t) && IsRoot(t, 1)
    ensures FrameOf(Leaf(s.mem, 1, 0)) * 4096 == 0x1000
    ensures var a := Hardware.Translate(s.mem, 1, 1); a.Mapped? && a.addr == 0x1001
    ensures FrameOf(Leaf(t.mem, 1, 0)) * 4096 == 0x10_0000_0000_1000
    ensures var a := Hardware.Translate(t.mem, 1, 0); a.Mapped? && a.addr == 0x1000
  {
    hide Leaf, Sound, Tree, Hardware.Translate, TestBit;
    assert Hardware.Present(PLAIN) && Hardware.Present(BIT_52) by { OddIsPresent(PLAIN / 2); OddIsPresent(BIT_52 / 2); }
    s := AllMapped(PLAIN, 1);
    t := AllMapped(BIT_52, 0);
  }

  lemma OddIsPresent(h: nat)
    requires 2 * h + 1 < TWO_64
    ensures Hardware.Present(2 * h + 1)
  {}

  /** Every page of the first context has the entry `w`. */
  lemma AllMapped(w: u64, va: u64) returns (s: State)
    requires Hardware.Present(w) && va < 4096
    ensures Sound(s) && IsRoot(s, 1) && Leaf(s.mem, 1, 0) == w
    ensures var a := Hardware.Translate(s.mem, 1, va); a.Mapped? && a.addr == Hardware.HwFrame(w) * 4096 + va
  {
    KernelFlags();
    s := Tree(AllAt(w), 3, ZeroFrame());
    TreeSound(AllAt(w), 3, ZeroFrame());
    TreeLeaf(AllAt(w), 3, ZeroFrame(), 0);
    PageZero(va);
    hide Tree, Sound, Hardware.Translate, Hardware.PathOpen, Leaf, TestBit, TableFlags, PageOf, Hardware.HwFrame;
    Hardware.TranslateIsLeaf(s, 1, va);
  }

  lemma PageZero(va: u64)
    requires va < 4096
    ensures PageOf(va) == 0 && va % 4096 == va
  {}

  /** `virt_map_user` of two pages from frame 1 maps the second page to frame 1 as well. */
  lemma SecondPageIsFirst()
    ensures SameWords(0x1000, 2, USER_FLAGS)[1] == 0x1007 && MapWords(0x1000, 2, USER_FLAGS)[1] == 0x2007
  {
    EntryIsSum(0x1000, USER_FLAGS);
    EntryIsSum(0x2000, USER_FLAGS);
    MapWordsAt(0x1000, 2, USER_FLAGS, 1);
    assert SameWords(0x1000, 2, USER_FLAGS)[1] == EntryWord(0x1000, USER_FLAGS);
  }

  /** Where the upper half is full, `uacpi_kernel_map` of one byte at address 1 fails, and returns the pointer 1. */
  lemma FailureIsNotNull() returns (s: State)
    ensures Sound(s) && IsRoot(s, 1)
    ensures FillsLowestHole(s, s, 1, HHDM + 4096, Virt.SCAN_LIMIT, 0, KernelApi.PagesFor(1, 1),
                            KernelApi.RangeWords(1, 1), LinkFlags(false), {})
    ensures Wrap(0 + 1 % 4096) == 1
  {
    KernelFlags();
    s := Tree(AllAt(PLAIN), 3, ZeroFrame());
    TreeSound(AllAt(PLAIN), 3, ZeroFrame());
    hide Tree, Sound, IsHole, PageOf, TableFlags;
    forall a | HHDM + 4096 <= a < Virt.SCAN_LIMIT && a % 4096 == 0 ensures !IsHole(s.mem, 1, PageOf(a), 1) {
      MappedFirst(AllAt(PLAIN), 3, a, 1);
    }
  }

  // ---------------------------------------------------------------- new contexts

  /** The spare frame still holds a link to the first PDPT of context 1. */
  function StaleFrame(): Frame {
    seq(ENTRIES, (i: nat) => if i == 0 then 2 * 4096 + 3 else 0)
  }

  lemma SpareCanBeContext(leaf: nat -> u64, stale: Frame)
    ensures CanBeContext(Tree(leaf, 3, stale), SPARE) && Tree(leaf, 3, stale).kernelPdpt < MAX_FRAMES
    ensures Tree(leaf, 3, stale).mem[SPARE] == stale
  {
    KernelFlags();
    TreeSound(leaf, 3, stale);
    TreeWord(leaf, 3, stale, 0, 0);
    hide Sound;
  }

  /** A context made from it translates address 0 as context 1 does: the two share tables below slot 0. */
  lemma StaleFrameJoinsContexts() returns (s: State)
    ensures CanBeContext(s, SPARE) && IsRoot(s, 1) && s.kernelPdpt < MAX_FRAMES
    ensures Leaf(NewContext(s, SPARE).mem, SPARE, 0) == Leaf(s.mem, 1, 0) == PLAIN
    ensures !Sound(NewContext(s, SPARE))
  {
    var leaf, stale := AllAt(PLAIN), StaleFrame();
    s := Tree(leaf, 3, stale);
    SpareCanBeContext(leaf, stale);
    KernelFlags();
    TreeSound(leaf, 3, stale);
    TreeLeaf(leaf, 3, stale, 0);
    hide Tree, Sound, TestBit, NewContext, CanBeContext;
    NewContextSoundIff(s, SPARE);
    assert !ZeroBelowLast(stale) by { assert stale[0] != 0; }
    StaleJoin(leaf, stale);
    OtherContexts(s, SPARE, 1, 0, 1);
    JoinedWalk(NewContext(s, SPARE).mem, SPARE, 1, 0, 1);
  }

  lemma StaleJoin(leaf: nat -> u64, stale: Frame)
    requires stale == StaleFrame()
    ensures var s := Tree(leaf, 3, stale);
            && CanBeContext(s, SPARE) && s.kernelPdpt < MAX_FRAMES
            && Joined(NewContext(s, SPARE).mem, SPARE, 1, 0)
  {
    var s := Tree(leaf, 3, stale);
    KernelFlags();
    SpareCanBeContext(leaf, stale);
    TreeSound(leaf, 3, stale);
    var f := TreeNode(leaf, 3, stale, 0, 3);
    TopSlot();
    TreeWord(leaf, 3, stale, 0, 0);
    hide Tree, Sound, TestBit, CanBeContext, Node, NewContext, Index, TableFlags, Prefix;
    assert f == 2;
    NewContextPaths(s, SPARE, 0);
    OtherContexts(s, SPARE, 1, 0, 3);
    assert !LeadsNowhere(s.mem, stale[0]) && FrameOf(stale[0]) == 2;
  }

  lemma TopSlot()
    ensures Index(0, 4) == 0 && Prefix(0, 3) == 0
  {}

  /** Right after boot the kernel window is mapped, but not in a new context. */
  lemma KernelIsMissing(q: nat) returns (s: State)
    requires q < PAGES
    ensures CanBeContext(s, SPARE) && KernelPdptUnused(s, 1) && s.kernelPdpt < MAX_FRAMES
    ensures Leaf(NewContext(s, SPARE).mem, 1, q) == PLAIN && Leaf(NewContext(s, SPARE).mem, SPARE, q) == 0
  {
    var leaf := AllAt(PLAIN);
    s := Tree(leaf, 3, ZeroFrame());
    KernelFlags();
    SpareCanBeContext(leaf, ZeroFrame());
    TreeSound(leaf, 3, ZeroFrame());
    TreeLeaf(leaf, 3, ZeroFrame(), q);
    TreeUnused(leaf);
    hide Tree, Sound, NewContext, CanBeContext, KernelPdptUnused, Leaf;
    NewContextIsEmpty(s, SPARE, 1, q);
    OtherContexts(s, SPARE, 1, q, 1);
  }

  lemma TreeUnused(leaf: nat -> u64)
    ensures KernelPdptUnused(Tree(leaf, 3, ZeroFrame()), 1)
  {
    var s := Tree(leaf, 3, ZeroFrame());
    KernelFlags();
    TreeSound(leaf, 3, ZeroFrame());
    TreeWord(leaf, 3, ZeroFrame(), 1, 511);
    Child(1, 511);
    PackedFrame(ChildAt(1, 511), 3);
    forall i | 0 <= i < ENTRIES ensures s.mem[KERNEL_PDPT][i] == 0 {
      TreeWord(leaf, 3, ZeroFrame(), KERNEL_PDPT, i);
    }
    hide Sound, Word;
    assert s.mem[KERNEL_PDPT] == ZeroFrame();
  }

  // ---------------------------------------------------------------- the premises of the theorems

  /** A small machine: memory from 1 MiB on, a framebuffer, and the kernel 2 GiB below the end of the address space. */
  const MEMORY: MemmapEntry := MemmapEntry(0x10_0000, 0x4000_0000, Usable)
  const SCREEN: Framebuffer := Framebuffer(HHDM + 0xfd00_0000, 1024, 768, 32)
  const KERNEL: Executable := Executable(0x20_0000, 0xffff_ffff_8000_0000, 0x10_0000)

  lemma BootIsPossible()
    ensures Boot.BootLayout(HHDM, [MEMORY], SCREEN, KERNEL) && Phys.MemmapLayout([MEMORY])
  {
    assert Boot.FbSize(SCREEN) == 0x30_0000;
  }

  lemma StartIsPossible(memory: Memory)
    requires |memory| == 0x4_0100 && forall f | 0 <= f < |memory| :: memory[f] == ZeroFrame()
    ensures Phys.MemmapLayout([MEMORY]) && Boot.BootLayout(HHDM, [MEMORY], SCREEN, KERNEL)
    ensures Startup.MemoryFits(memory, [MEMORY]) && Phys.IsStorage([MEMORY], 0)
  {
    BootIsPossible();
    assert Phys.SpaceSize([MEMORY]) == 0x4010_0000;
  }

  /** Every frame at its place in the direct map, and nothing else mapped. */
  function DirectEntries(q: nat): u64 {
    if UPPER_HALF <= q < UPPER_HALF + FRAMES then (q - UPPER_HALF) * 4096 + 3 else 0
  }

  ghost function AllFrames(): set<nat> {
    Phys.FrameRange(0, FRAMES)
  }

  /** Tables that map themselves: all of them lie in the direct map that they define. */
  lemma RunsCanStart() returns (s: State)
    ensures Runs.Kept(Runs.Moment(s, {}, {}), 1, UPPER_HALF, AllFrames()) && UPPER_HALF == PageOf(HHDM)
  {
    UpperPage(HHDM);
    hide PageOf;
    KernelFlags();
    s := Tree(DirectEntries, 3, ZeroFrame());
    TreeSound(DirectEntries, 3, ZeroFrame());
    InMemory(s);
    hide Sound, TableFlags, AllFrames, DirectMap.InPlace, IsRoot, Tree;
    forall f | f in AllFrames() ensures DirectMap.InPlace(s, 1, UPPER_HALF, f) {
      InMemoryBound(f);
      EntryInPlace(s, f);
    }
  }

  lemma InMemory(s: State)
    requires s == Tree(DirectEntries, 3, ZeroFrame())
    ensures s.tags.Keys <= AllFrames() && forall f: nat | f < |s.mem| :: f in AllFrames()
  {
    TreeWord(DirectEntries, 3, ZeroFrame(), 0, 0);
  }

  lemma InMemoryBound(f: nat)
    requires f in AllFrames()
    ensures f < FRAMES
  {}

  lemma EntryInPlace(s: State, f: nat)
    requires s == Tree(DirectEntries, 3, ZeroFrame()) && f < FRAMES
    ensures DirectMap.InPlace(s, 1, UPPER_HALF, f)
  {
    hide Tree, Leaf, PageAt, EntryWord, DirectMap.ForFrame, TableFlags;
    KernelFlags();
    NoWrap(UPPER_HALF, f);
    TreeLeaf(DirectEntries, 3, ZeroFrame(), UPPER_HALF + f);
    EntryForFrame(f);
  }

  lemma EntryForFrame(f: nat)
    requires f < FRAMES
    ensures DirectMap.ForFrame(DirectEntries(UPPER_HALF + f), f)
  {
    hide EntryWord;
    EntryIsSum(f * 4096, 3);
    DirectMap.KernelEntry(f * 4096);
  }

  // ---------------------------------------------------------------- frames, regions and names

  /** Eight real frames, all used, and a bitmap of one word whose other bits are clear: frame 8 is handed out. */
  lemma PhantomFrame()
    ensures Phys.GrantFrame({0, 1, 2, 3, 4, 5, 6, 7}, 64).0 == 8 * 4096
  {
    Phys.FirstFreeIsLowest({0, 1, 2, 3, 4, 5, 6, 7}, 0, 64);
  }

  /** A region of half a page at address 0: leaving out frame 0 makes its length wrap, and the bitmap goes past it. */
  const STUB: MemmapEntry := MemmapEntry(0, 0x800, Usable)

  lemma BitmapOutsideRegion()
    ensures Phys.MemmapLayout([STUB, MEMORY]) && Phys.IsStorage([STUB, MEMORY], 0)
    ensures Phys.StorageBase(STUB) >= STUB.base + STUB.length
  {
    assert Phys.SpaceSize([STUB, MEMORY]) == 0x4010_0000;
  }

  /** Eight real frames, the last of them free: a region of two frames begins with it and runs past the end. */
  lemma PhantomRun()
    ensures Phys.GrantRegion({0, 1, 2, 3, 4, 5, 6}, 8, 2) == (7 * 4096, {0, 1, 2, 3, 4, 5, 6, 7, 8})
  {
    var used: set<nat> := {0, 1, 2, 3, 4, 5, 6};
    assert Phys.FrameRange(7, 2) == {7, 8};
    forall g: nat | g < 7 ensures !(Phys.FrameRange(g, 2) !! used) {
      assert g in Phys.FrameRange(g, 2) && g in used;
    }
    Phys.FirstFitIsLowest(used, 0, 8, 2);
    assert Phys.FirstFit(used, 0, 8, 2) == 7;
    assert used + {7, 8} == {0, 1, 2, 3, 4, 5, 6, 7, 8};
    assert Phys.GrantRegion(used, 8, 2) == (7 * 4096, used + Phys.FrameRange(7, 2));
  }

  /** Two rows of a page each, two pages apart: the second lies past the end of what is mapped. */
  lemma SecondRowUnmapped()
    ensures !Guarantees.RowByteMapped(0xfd00_0000, 2 * 4096, 2 * 4096, 1, 0)
  {}

  /** No bytes at address 0x1001, in an empty context: a page is mapped. */
  lemma NoBytesOnePage() returns (s: State, s': State)
    ensures Sound(s) && IsRoot(s, 1)
    ensures FillsLowestHole(s, s', 1, HHDM + 4096, Virt.SCAN_LIMIT, HHDM + 4096, KernelApi.PagesFor(1, 0),
                            KernelApi.RangeWords(0x1001, 0), LinkFlags(false), {})
    ensures Leaf(s'.mem, 1, PageOf(HHDM + 4096)) != Leaf(s.mem, 1, PageOf(HHDM + 4096))
  {
    hide Maps, Sound, IsHole, NoHoleBelow, PageOf, Leaf, KernelApi.RangeWords, KernelApi.PagesFor;
    KernelApi.EmptyWords(0x1001);
    s, s' := TreeFills(Unmapped, HHDM + 4096, Virt.SCAN_LIMIT, HHDM + 4096, KernelApi.RangeWords(0x1001, 0),
                       LinkFlags(false));
    KernelApi.EmptyRangeIff(s, s', 1, HHDM + 4096, Virt.SCAN_LIMIT, HHDM + 4096, 0x1001);
  }

  /** An ACPI region of one page's length in the middle of a page. */
  const UNALIGNED: MemmapEntry := MemmapEntry(0x804, 0x1000, AcpiNvs)

  /** Its last byte is not direct-mapped, and its base leaks the user flag into the entry that is made. */
  lemma UnalignedRegion()
    ensures IsDirectMapped(UNALIGNED.kind) && (0x804 + 0x1000 - 1) / 4096 !in DirectMap.EntryFrames(UNALIGNED)
    ensures Hardware.User(EntryWord(0x804, ALLOC_FLAGS))
  {
    EntryOfAny(0x804, ALLOC_FLAGS, 2);
    assert TestBit(0x804, 2) == TestBit(0x402, 1) == TestBit(0x201, 0);
  }

  /** A lookup of address 0 in a map whose first symbol is at address 1 reports the name found before. */
  lemma EarlierNameReported(line: string)
    requires line == "0000000000000001 f"
    ensures Symbols.AreEntries([line]) && Symbols.Found([line], 0, "g") == Symbols.Lookup([line], 0, "g") == "g"
  {
    assert Symbols.IsLine(line) by {
      assert Symbols.NUL !in line && Symbols.NEWLINE !in line;
    }
    assert Symbols.AreEntries([line]);
    var digits := line[..16];
    assert digits[15] == '1' && digits[..15] == line[..15];
    assert Symbols.Value(digits) == 16 * Symbols.Value(digits[..15]) + 1;
    Symbols.FoundIsLookup([line], 0, "g");
  }
}
