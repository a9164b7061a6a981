/**
  Who may access what: the two halves of the address space, the rights of mapped pages, and what
  stays the same for the processor.
 */
module Rights {
  import opened Bits
  import opened Options
  import opened PageTables
  import opened TableEdits
  import opened Growth
  import opened Mapping
  import opened Entries
  import opened DirectMap
  import opened Hardware
  import Contexts

  // ---------------------------------------------------------------- halves

  const LOWER_END: u64 := 0x8000_0000_0000
  const UPPER_START: u64 := 0xffff_8000_0000_0000

  predicate ByteInUpper(addr: u64, i: nat) {
    Wrap(addr + i) >= UPPER_START
  }

  predicate ByteInLower(addr: u64, i: nat) {
    Wrap(addr + i) < LOWER_END
  }

  /** Every byte of the `n` pages from `addr` is at an address of the upper half. */
  ghost predicate InUpperHalf(addr: u64, n: nat) {
    forall i: nat | i < 4096 * n :: ByteInUpper(addr, i)
  }

  ghost predicate InLowerHalf(addr: u64, n: nat) {
    forall i: nat | i < 4096 * n :: ByteInLower(addr, i)
  }

  /** Some hole of `n` pages that the search from `start` to `limit` covers ends at or below `top`. */
  ghost predicate HoleFits(m: Memory, root: nat, start: nat, limit: nat, n: nat, top: nat) {
    exists a :: start <= a < limit && a % 4096 == 0 && a + 4096 * n <= top && IsHole(m, root, PageOf(a), n)
  }

  /** The lowest hole ends at or below `top` exactly if some hole does. */
  lemma LowestFitsIff(m: Memory, root: nat, start: nat, limit: nat, addr: nat, n: nat, top: nat)
    requires start <= addr < limit && addr % 4096 == 0
    requires IsHole(m, root, PageOf(addr), n) && NoHoleBelow(m, root, start, addr, n)
    ensures addr + 4096 * n <= top <==> HoleFits(m, root, start, limit, n, top)
  {
    hide IsHole, PageOf;
    if HoleFits(m, root, start, limit, n, top) {
      var a :| start <= a < limit && a % 4096 == 0 && a + 4096 * n <= top && IsHole(m, root, PageOf(a), n);
      assert a >= addr;
    }
  }

  /**
    `virt_alloc` and `virt_map_anywhere` return a range that stays in the upper half if and only if,
    before the call, the tables had a hole of that size which does not run past the last address.
   */
  lemma UpperRangeIff(s: State, s': State, root: nat, start: nat, limit: nat, addr: u64, n: nat, words: seq<u64>,
                      fl: u64, data: set<nat>)
    requires FillsLowestHole(s, s', root, start, limit, addr, n, words, fl, data)
    requires addr != 0 && start >= UPPER_START
    ensures InUpperHalf(addr, n) <==> HoleFits(s.mem, root, start, limit, n, TWO_64)
  {
    hide IsHole, PageOf, NoHoleBelow, Maps, HoleFits;
    LowestFitsIff(s.mem, root, start, limit, addr, n, TWO_64);
    UpperBytes(addr, n);
  }

  lemma UpperBytes(addr: u64, n: nat)
    requires addr >= UPPER_START
    ensures InUpperHalf(addr, n) <==> addr + 4096 * n <= TWO_64
  {
    if addr + 4096 * n > TWO_64 {
      assert Wrap(TWO_64) == 0;
      assert !ByteInUpper(addr, TWO_64 - addr);
    }
  }

  /**
    `virt_user_alloc` returns a range of lower-half addresses if and only if, before the call, the
    tables had a hole of that size below bit 47; its search goes on above it.
   */
  lemma LowerRangeIff(s: State, s': State, root: nat, start: nat, limit: nat, addr: u64, n: nat, words: seq<u64>,
                      fl: u64, data: set<nat>)
    requires FillsLowestHole(s, s', root, start, limit, addr, n, words, fl, data)
    requires addr != 0 && n > 0 && limit <= UPPER_START
    ensures InLowerHalf(addr, n) <==> HoleFits(s.mem, root, start, limit, n, LOWER_END)
  {
    hide IsHole, PageOf, NoHoleBelow, Maps, HoleFits;
    LowestFitsIff(s.mem, root, start, limit, addr, n, LOWER_END);
    LowerBytes(addr, n);
  }

  lemma LowerBytes(addr: u64, n: nat)
    requires n > 0
    ensures InLowerHalf(addr, n) <==> addr + 4096 * n <= LOWER_END
  {
    if addr >= LOWER_END {
      assert !ByteInLower(addr, 0);
    } else if addr + 4096 * n > LOWER_END {
      assert !ByteInLower(addr, LOWER_END - addr);
    }
  }

  ghost predicate UpperPages(pages: set<nat>) {
    forall q | q in pages :: UPPER_HALF <= q < PAGES
  }

  ghost predicate LowerPages(pages: set<nat>) {
    forall q | q in pages :: q < UPPER_HALF
  }

  lemma PagesOfUpper(addr: u64, n: nat)
    requires addr >= UPPER_START && addr + 4096 * n <= TWO_64
    ensures UpperPages(RangePages(PageOf(addr), n))
  {
    hide PageOf;
    UpperPage(addr);
    forall q | q in RangePages(PageOf(addr), n) ensures UPPER_HALF <= q < PAGES {
      RangeBounds(PageOf(addr), n, q);
    }
  }

  lemma PagesOfLower(addr: u64, n: nat)
    requires addr + 4096 * n <= LOWER_END
    ensures LowerPages(RangePages(PageOf(addr), n))
  {
    LowerPage(addr, n);
    hide PageOf;
    forall q | q in RangePages(PageOf(addr), n) ensures q < UPPER_HALF {
      RangeBounds(PageOf(addr), n, q);
    }
  }

  lemma LowerPage(addr: u64, n: nat)
    requires addr + 4096 * n <= LOWER_END
    ensures PageOf(addr) + n <= UPPER_HALF
  {}

  lemma CanonicalHalf(va: u64)
    requires IsCanonical(va)
    ensures PageOf(va) < UPPER_HALF <==> va < LOWER_END
  {
    if va >= UPPER_START {
      UpperPage(va);
    }
  }

  // ---------------------------------------------------------------- slots

  /** The upper half is PML4 slots 256 to 511. */
  lemma HalfSlots(p: nat)
    requires p < PAGES
    ensures p >= UPPER_HALF <==> Index(p, 4) >= 256
  {
    TopPrefix(p);
  }

  lemma TopPrefix(p: nat)
    requires p < PAGES
    ensures Prefix(p, 3) == p / 0x800_0000 < 512
  {
    assert Prefix(p, 1) == p / 512;
    assert Prefix(p, 2) == p / 512 / 512;
    assert Prefix(p, 3) == p / 512 / 512 / 512;
  }

  /** A PML4 slot that a mapping changes was empty, and now holds a link with the mapping's flags for a page of it. */
  lemma SlotsOfRange(s: State, s': State, root: nat, pages: set<nat>, fl: u64, data: set<nat>, i: nat)
    requires Sound(s) && Sound(s') && IsRoot(s, root) && Grows(s, s', root, pages, fl, data)
    requires root < |s.mem| && i < ENTRIES && s'.mem[root][i] != s.mem[root][i]
    ensures s.mem[root][i] == 0 && s'.mem[root][i] % 4096 == fl
    ensures exists p :: p in pages && Index(p, 4) == i
  {
    assert GoodTag(s, root, s.tags[root]);
    hide Sound, Takes, NewTables, OnlyTables;
    assert KeepsLinks(s.mem[root], s'.mem[root]);
    assert IsNewLink(s, s', root, i);
    assert LinkFor(s, s', root, i, root, pages, fl);
    PrefixOfRoot(pages, i);
  }

  lemma PrefixOfRoot(pages: set<nat>, i: nat)
    requires OnPath(pages, i, 3) && i < ENTRIES
    ensures exists p :: p in pages && Index(p, 4) == i
  {
    var p :| p in pages && Prefix(p, 3) == i;
    assert Index(p, 4) == i;
  }

  /** The PML4 slots of one half, 256 to 511 or 0 to 255, are the same in both states. */
  ghost predicate SameSlots(s: State, s': State, root: nat, upper: bool)
    requires root < |s.mem| && root < |s'.mem|
  {
    forall i | 0 <= i < ENTRIES && (i >= 256 <==> upper) :: s'.mem[root][i] == s.mem[root][i]
  }

  ghost predicate InHalf(pages: set<nat>, upper: bool) {
    if upper then UpperPages(pages) else LowerPages(pages)
  }

  /** A mapping in one half leaves the PML4 slots of the other half as they were. */
  lemma HalfKeepsSlots(s: State, s': State, root: nat, pages: set<nat>, fl: u64, data: set<nat>, upper: bool)
    requires Sound(s) && Sound(s') && IsRoot(s, root) && Grows(s, s', root, pages, fl, data)
    requires InHalf(pages, upper)
    ensures root < |s.mem| && root < |s'.mem| && SameSlots(s, s', root, !upper)
  {
    hide Sound, Grows, Index;
    RootInMemory(s, s', root, pages, fl, data);
    forall i | 0 <= i < ENTRIES && (i >= 256 <==> !upper) ensures s'.mem[root][i] == s.mem[root][i] {
      if s'.mem[root][i] != s.mem[root][i] {
        SlotsOfRange(s, s', root, pages, fl, data, i);
        var p :| p in pages && Index(p, 4) == i;
        HalfSlots(p);
      }
    }
  }

  lemma RootInMemory(s: State, s': State, root: nat, pages: set<nat>, fl: u64, data: set<nat>)
    requires Sound(s) && IsRoot(s, root) && Grows(s, s', root, pages, fl, data)
    ensures root < |s.mem| == |s'.mem|
  {
    assert GoodTag(s, root, s.tags[root]);
  }

  /** A kernel range that stays in the upper half leaves PML4 slots 0 to 255 as they were. */
  lemma UpperRangeSlots(s: State, s': State, root: nat, addr: u64, words: seq<u64>, fl: u64, data: set<nat>)
    requires Sound(s) && IsRoot(s, root) && Maps(s, s', root, PageOf(addr), words, fl, data)
    requires addr >= UPPER_START && addr + 4096 * |words| <= TWO_64
    ensures root < |s.mem| && root < |s'.mem| && SameSlots(s, s', root, false)
  {
    hide PageOf, Sound, Translates, PathsExist, Grows, SameSlots;
    PagesOfUpper(addr, |words|);
    HalfKeepsSlots(s, s', root, RangePages(PageOf(addr), |words|), fl, data, true);
  }

  /** A user range that ends at or below bit 47 leaves slots 256 to 511 as they were. */
  lemma LowerRangeSlots(s: State, s': State, root: nat, addr: u64, words: seq<u64>, fl: u64, data: set<nat>)
    requires Sound(s) && IsRoot(s, root) && Maps(s, s', root, PageOf(addr), words, fl, data)
    requires addr + 4096 * |words| <= LOWER_END
    ensures root < |s.mem| && root < |s'.mem| && SameSlots(s, s', root, true)
  {
    hide PageOf, Sound, Translates, PathsExist, Grows, SameSlots;
    PagesOfLower(addr, |words|);
    HalfKeepsSlots(s, s', root, RangePages(PageOf(addr), |words|), fl, data, false);
  }

  // ---------------------------------------------------------------- rights

  lemma LinkBits(e: u64, fl: u64)
    requires e % 4096 == fl
    ensures TestBit(e, 2) == TestBit(fl, 2)
  {
    assert Pow2(12) == 4096;
    LowBits(e / 4096, fl, 12, 2);
  }

  /** Links made for user mappings are open to user mode, others are not. */
  lemma NewLinkUser(e: u64)
    ensures e % 4096 == USER_LINK ==> User(e)
    ensures e % 4096 == KERNEL_LINK ==> !User(e)
  {
    hide TestBit;
    Contexts.ThreeBits();
    LinkBits(e, e % 4096);
  }

  /** A link on the path of `p` after a mapping was there before, or it is new and carries the mapping's flags. */
  lemma LinkOrigin(s: State, s': State, root: nat, pages: set<nat>, fl: u64, p: nat, level: nat)
    requires Sound(s) && Sound(s') && IsRoot(s, root) && p < PAGES && 2 <= level <= 4
    requires Keeps(s, s') && NewLinks(s, s', root, pages, fl) && Node(s'.mem, root, p, level).Some?
    ensures var f := Node(s'.mem, root, p, level).value;
            var e := s'.mem[f][Index(p, level)];
            e != 0 ==>
              || (Node(s.mem, root, p, level) == Some(f) && f < |s.mem| && s.mem[f][Index(p, level)] == e)
              || (e % 4096 == fl && OnPath(pages, Prefix(p, level - 1), level - 1))
  {
    hide Sound, Keeps, NewLinks, GoodTag, OnPath, Index;
    var f, i := Node(s'.mem, root, p, level).value, Index(p, level);
    if Node(s.mem, root, p, level) == None {
      NewNodeIsNew(s, s', root, pages, fl, p, level);
    } else {
      KeptOrEmpty(s, s', root, p, level);
    }
    if s'.mem[f][i] != 0 && !(f in s.tags && f < |s.mem| && s.mem[f][i] != 0) {
      KeepsRoot(s, s', root);
      NewLinkOnPath(s, s', root, pages, fl, p, level);
    }
  }

  lemma NewLinkOnPath(s: State, s': State, root: nat, pages: set<nat>, fl: u64, p: nat, level: nat)
    requires Sound(s') && IsRoot(s', root) && p < PAGES && 2 <= level <= 4 && NewLinks(s, s', root, pages, fl)
    requires Node(s'.mem, root, p, level).Some?
    requires var f, i := Node(s'.mem, root, p, level).value, Index(p, level);
             s'.mem[f][i] != 0 && !(f in s.tags && f < |s.mem| && s.mem[f][i] != 0)
    ensures s'.mem[Node(s'.mem, root, p, level).value][Index(p, level)] % 4096 == fl
    ensures OnPath(pages, Prefix(p, level - 1), level - 1)
  {
    hide Sound, NewLinks, OnPath;
    NodeTag(s', root, p, level);
    PrefixStep(p, level);
    NewLinkTarget(s, s', Node(s'.mem, root, p, level).value, Index(p, level), root, pages, fl);
  }

  lemma KeptOrEmpty(s: State, s': State, root: nat, p: nat, level: nat)
    requires Sound(s) && IsRoot(s, root) && p < PAGES && 2 <= level <= 4 && Keeps(s, s')
    requires Node(s.mem, root, p, level).Some?
    ensures Node(s'.mem, root, p, level) == Node(s.mem, root, p, level)
    ensures var f, i := Node(s.mem, root, p, level).value, Index(p, level);
            f in s.tags && (s.mem[f][i] != 0 ==> s'.mem[f][i] == s.mem[f][i])
  {
    NodeKept(s, s', root, p, level);
    WalkStep(s, root, p, level);
    if s.mem[Node(s.mem, root, p, level).value][Index(p, level)] != 0 {
      KeptLink(s, s', Node(s.mem, root, p, level).value, Index(p, level));
    }
  }

  /** User mappings keep the path of every page as open as it was. */
  lemma UserMappingKeepsOpen(s: State, s': State, root: nat, pages: set<nat>, data: set<nat>, p: nat)
    requires Sound(s) && Sound(s') && IsRoot(s, root) && p < PAGES
    requires Grows(s, s', root, pages, USER_LINK, data) && PathOpen(s.mem, root, p)
    ensures PathOpen(s'.mem, root, p)
  {
    hide Sound, Keeps, Takes, OnlyTables, NewLinks, NewTables, User, OnPath, Index;
    forall level | 2 <= level <= 4 ensures LinkOpen(s'.mem, root, p, level) {
      assert LinkOpen(s.mem, root, p, level);
      if Node(s'.mem, root, p, level).Some? {
        LinkOrigin(s, s', root, pages, USER_LINK, p, level);
        NewLinkUser(s'.mem[Node(s'.mem, root, p, level).value][Index(p, level)]);
      }
    }
  }

  /** Mappings in the upper half leave the paths of the lower half as open as they were. */
  lemma UpperMappingKeepsOpen(s: State, s': State, root: nat, pages: set<nat>, fl: u64, data: set<nat>, p: nat)
    requires Sound(s) && Sound(s') && IsRoot(s, root) && p < UPPER_HALF
    requires Grows(s, s', root, pages, fl, data) && PathOpen(s.mem, root, p) && UpperPages(pages)
    ensures PathOpen(s'.mem, root, p)
  {
    hide Sound, Keeps, Takes, OnlyTables, NewLinks, NewTables, User, OnPath, Index;
    forall level | 2 <= level <= 4 ensures LinkOpen(s'.mem, root, p, level) {
      assert LinkOpen(s.mem, root, p, level);
      if Node(s'.mem, root, p, level).Some? {
        LinkOrigin(s, s', root, pages, fl, p, level);
        OtherHalf(pages, p, level - 1);
      }
    }
  }

  lemma OtherHalf(pages: set<nat>, p: nat, level: nat)
    requires p < UPPER_HALF && 1 <= level <= 3 && UpperPages(pages)
    ensures !OnPath(pages, Prefix(p, level), level)
  {
    forall q | q in pages ensures Prefix(q, level) != Prefix(p, level) {
      TopPrefix(q);
      TopPrefix(p);
      if Prefix(q, level) == Prefix(p, level) {
        PrefixesAbove(q, p, level, 3);
      }
    }
  }

  lemma {:induction false} PrefixesAbove(p: nat, q: nat, low: nat, high: nat)
    requires low <= high && Prefix(p, low) == Prefix(q, low)
    ensures Prefix(p, high) == Prefix(q, high)
  {
    if low < high {
      PrefixesAbove(p, q, low, high - 1);
    }
  }

  /** The links of a complete path are kept, and with them whether it is open. */
  lemma CompletePathKept(s: State, s': State, root: nat, p: nat)
    requires Sound(s) && IsRoot(s, root) && p < PAGES && Keeps(s, s') && Node(s.mem, root, p, 1).Some?
    ensures Node(s'.mem, root, p, 1) == Node(s.mem, root, p, 1)
    ensures PathOpen(s'.mem, root, p) == PathOpen(s.mem, root, p)
  {
    hide Sound, Keeps, User, Index;
    NodeKept(s, s', root, p, 1);
    forall level | 2 <= level <= 4 ensures LinkOpen(s'.mem, root, p, level) == LinkOpen(s.mem, root, p, level) {
      NodeAbove(s.mem, root, p, 1, level);
      NodeAbove(s.mem, root, p, 1, level - 1);
      WalkStep(s, root, p, level);
      KeptOrEmpty(s, s', root, p, level);
    }
  }

  /**
    Where the page-table entry is the same and the tables have only grown, the processor's access is
    the same, rights included: an entry that is present already had its whole path.
   */
  lemma SameAccess(s: State, s': State, root: nat, va: u64)
    requires Sound(s) && Sound(s') && IsRoot(s, root) && Keeps(s, s')
    requires Leaf(s'.mem, root, PageOf(va)) == Leaf(s.mem, root, PageOf(va))
    ensures Translate(s'.mem, root, va) == Translate(s.mem, root, va)
  {
    if IsCanonical(va) {
      assert IsRoot(s', root);
      ZeroTest(0);
      hide Sound, PathOpen, PageOf, Translate, Keeps, HwFrame, TestBit;
      TranslateIsLeaf(s, root, va);
      TranslateIsLeaf(s', root, va);
      if Present(Leaf(s.mem, root, PageOf(va))) {
        CompletePathKept(s, s', root, PageOf(va));
      }
    }
  }

  /** A page without a complete path gets links from the mapping; a kernel mapping's are closed to user mode. */
  lemma KernelPathOpenIff(s: State, s': State, root: nat, pages: set<nat>, data: set<nat>, p: nat)
    requires Sound(s) && Sound(s') && IsRoot(s, root) && p < PAGES && Node(s'.mem, root, p, 1).Some?
    requires Grows(s, s', root, pages, KERNEL_LINK, data)
    ensures PathOpen(s'.mem, root, p) <==> Node(s.mem, root, p, 1).Some? && PathOpen(s.mem, root, p)
  {
    hide Sound, Takes, OnlyTables, NewTables, PathOpen, Keeps, NewLinks;
    if Node(s.mem, root, p, 1).Some? {
      CompletePathKept(s, s', root, p);
    } else {
      var level := FirstMissing(s, root, p);
      NewLinkClosed(s, s', root, pages, p, level);
      assert 2 <= level <= 4 && !LinkOpen(s'.mem, root, p, level);
      ClosedPath(s'.mem, root, p, level);
    }
  }

  lemma ClosedPath(m: Memory, root: nat, p: nat, level: nat)
    requires 2 <= level <= 4 && !LinkOpen(m, root, p, level)
    ensures !PathOpen(m, root, p)
  {}

  /** The level at which an incomplete path ends. */
  lemma FirstMissing(s: State, root: nat, p: nat) returns (level: nat)
    requires Sound(s) && IsRoot(s, root) && Node(s.mem, root, p, 1) == None
    ensures 2 <= level <= 4 && Node(s.mem, root, p, level).Some? && Node(s.mem, root, p, level - 1) == None
  {
    hide Sound, Node;
    RootIsNode(s, root, p);
    level := if Node(s.mem, root, p, 3) == None then 4 else if Node(s.mem, root, p, 2) == None then 3 else 2;
  }

  lemma NewLinkClosed(s: State, s': State, root: nat, pages: set<nat>, p: nat, level: nat)
    requires Sound(s) && Sound(s') && IsRoot(s, root) && p < PAGES && 2 <= level <= 4
    requires Keeps(s, s') && NewLinks(s, s', root, pages, KERNEL_LINK)
    requires Node(s.mem, root, p, level).Some? && Node(s.mem, root, p, level - 1) == None
    requires Node(s'.mem, root, p, 1).Some?
    ensures !LinkOpen(s'.mem, root, p, level)
  {
    hide Sound, Keeps, NewLinks, User, Index, OnPath;
    KeptOrEmpty(s, s', root, p, level);
    WalkStep(s, root, p, level);
    assert IsRoot(s', root) by { KeepsRoot(s, s', root); }
    NodeAbove(s'.mem, root, p, 1, level - 1);
    WalkStep(s', root, p, level);
    NewLinkOnPath(s, s', root, pages, KERNEL_LINK, p, level);
    NewLinkUser(s'.mem[Node(s'.mem, root, p, level).value][Index(p, level)]);
  }

  /** The entry lets user mode read and write. */
  predicate UserEntry(w: u64) {
    Present(w) && Writable(w) && User(w)
  }

  /**
    A page mapped for user mode, in a range of any length, can be read and written there exactly if the
    links of its path that existed before were open: links are given their flags only when they are made.
   */
  lemma UserAccessIff(s: State, s': State, root: nat, first: nat, words: seq<u64>, data: set<nat>, va: u64, w: u64)
    requires Sound(s) && IsRoot(s, root) && IsCanonical(va)
    requires Maps(s, s', root, first, words, USER_LINK, data)
    requires LastWrite(PageOf(va), first, words) == Some(w) && UserEntry(w)
    ensures var a := Translate(s'.mem, root, va);
            a.Mapped? && a.writable && (a.user <==> PathOpen(s.mem, root, PageOf(va)))
  {
    hide PathsExist, TestBit, PathOpen, Sound, PageOf, Translate, Grows, HwFrame;
    var p := PageOf(va);
    Contexts.OwnTranslation(s, s', root, first, words, p);
    assert IsRoot(s', root) by { MapsRoot(s, s', root, first, words, USER_LINK, data); }
    TranslateIsLeaf(s', root, va);
    UserPathOpenIff(s, s', root, RangePages(first, |words|), data, p);
  }

  lemma MapsRoot(s: State, s': State, root: nat, first: nat, words: seq<u64>, fl: u64, data: set<nat>)
    requires IsRoot(s, root) && Maps(s, s', root, first, words, fl, data)
    ensures IsRoot(s', root) && Sound(s')
  {}

  lemma UserPathOpenIff(s: State, s': State, root: nat, pages: set<nat>, data: set<nat>, p: nat)
    requires Sound(s) && Sound(s') && IsRoot(s, root) && p < PAGES && Grows(s, s', root, pages, USER_LINK, data)
    ensures PathOpen(s'.mem, root, p) == PathOpen(s.mem, root, p)
  {
    hide Sound, Keeps, Takes, OnlyTables, NewLinks, NewTables, LinkOpen;
    if PathOpen(s.mem, root, p) {
      UserMappingKeepsOpen(s, s', root, pages, data, p);
    } else {
      var level :| 2 <= level <= 4 && !LinkOpen(s.mem, root, p, level);
      StillClosed(s, s', root, p, level);
    }
  }

  lemma StillClosed(s: State, s': State, root: nat, p: nat, level: nat)
    requires Sound(s) && IsRoot(s, root) && p < PAGES && 2 <= level <= 4 && Keeps(s, s')
    requires !LinkOpen(s.mem, root, p, level)
    ensures !LinkOpen(s'.mem, root, p, level)
  {
    hide Sound, Keeps, User, Index;
    KeptOrEmpty(s, s', root, p, level);
  }

  // ---------------------------------------------------------------- separated halves

  /** A PML4 link is open to user mode exactly if it belongs to the lower half. */
  ghost predicate SlotsSeparate(s: State, root: nat)
    requires root < |s.mem|
  {
    forall i | 0 <= i < ENTRIES && s.mem[root][i] != 0 :: User(s.mem[root][i]) <==> i < 256
  }

  /** Whatever the lower half maps is open to user mode, from the PML4 down to the page-table entry. */
  ghost predicate LowerOpen(s: State, root: nat) {
    forall p | 0 <= p < UPPER_HALF :: PageOpen(s.mem, root, p)
  }

  ghost predicate PageOpen(m: Memory, root: nat, p: nat) {
    PathOpen(m, root, p) && (Leaf(m, root, p) != 0 ==> UserEntry(Leaf(m, root, p)))
  }

  ghost predicate Separated(s: State, root: nat) {
    root < |s.mem| && SlotsSeparate(s, root) && LowerOpen(s, root)
  }

  /** A context that holds only upper-half kernel links, as the one made at boot: the lower half is empty. */
  ghost predicate KernelOnly(s: State, root: nat) {
    root < |s.mem| && forall i | 0 <= i < ENTRIES :: s.mem[root][i] != 0 ==> i >= 256 && !User(s.mem[root][i])
  }

  lemma KernelOnlySeparated(s: State, root: nat)
    requires Sound(s) && IsRoot(s, root) && KernelOnly(s, root)
    ensures Separated(s, root)
  {
    hide Sound, Node, Leaf, PathOpen, User;
    forall p | 0 <= p < UPPER_HALF ensures PageOpen(s.mem, root, p) {
      HalfSlots(p);
      EmptySlot(s, root, p);
    }
  }

  /** Below an empty slot nothing is mapped and no link is closed. */
  lemma EmptySlot(s: State, root: nat, p: nat)
    requires Sound(s) && IsRoot(s, root) && p < PAGES && root < |s.mem| && s.mem[root][Index(p, 4)] == 0
    ensures Leaf(s.mem, root, p) == 0 && PathOpen(s.mem, root, p)
  {
    hide Sound, User, Index;
    RootIsNode(s, root, p);
    WalkStep(s, root, p, 4);
    Contexts.NoPathBelow(s.mem, root, p);
    assert Node(s.mem, root, p, 2) == None;
  }

  /** Kernel mappings in the upper half keep a context kernel-only. */
  lemma StaysKernelOnly(s: State, s': State, root: nat, pages: set<nat>, data: set<nat>)
    requires Sound(s) && Sound(s') && IsRoot(s, root) && Grows(s, s', root, pages, KERNEL_LINK, data)
    requires KernelOnly(s, root) && UpperPages(pages)
    ensures KernelOnly(s', root)
  {
    hide Sound, Grows, User, Index;
    RootInMemory(s, s', root, pages, KERNEL_LINK, data);
    forall i | 0 <= i < ENTRIES && s'.mem[root][i] != 0 ensures i >= 256 && !User(s'.mem[root][i]) {
      if s'.mem[root][i] != s.mem[root][i] {
        SlotsOfRange(s, s', root, pages, KERNEL_LINK, data, i);
        NewLinkUser(s'.mem[root][i]);
        var p :| p in pages && Index(p, 4) == i;
        HalfSlots(p);
      }
    }
  }

  lemma FillSlots(s: State, s': State, root: nat, pages: set<nat>, fl: u64, data: set<nat>)
    requires Sound(s) && Sound(s') && IsRoot(s, root) && Grows(s, s', root, pages, fl, data)
    requires (fl == USER_LINK && LowerPages(pages)) || (fl == KERNEL_LINK && UpperPages(pages))
    requires root < |s.mem| && SlotsSeparate(s, root)
    ensures root < |s'.mem| && SlotsSeparate(s', root)
  {
    hide Sound, Grows, User, Index;
    RootInMemory(s, s', root, pages, fl, data);
    forall i | 0 <= i < ENTRIES && s'.mem[root][i] != 0 ensures User(s'.mem[root][i]) <==> i < 256 {
      if s'.mem[root][i] != s.mem[root][i] {
        SlotsOfRange(s, s', root, pages, fl, data, i);
        NewLinkUser(s'.mem[root][i]);
        var p :| p in pages && Index(p, 4) == i;
        HalfSlots(p);
      }
    }
  }

  lemma UnmapPage(s: State, s': State, root: nat, first: nat, n: nat, r: nat, p: nat)
    requires Sound(s) && IsRoot(s, r) && Unmaps(s, s', root, first, n) && p < PAGES && PageOpen(s.mem, r, p)
    ensures PageOpen(s'.mem, r, p)
  {
    forall level | 2 <= level <= 4 ensures LinkOpen(s'.mem, r, p, level) {
      assert LinkOpen(s.mem, r, p, level);
      assert Node(s'.mem, r, p, level) == Node(s.mem, r, p, level);
      NodeTag(s, r, p, level);
    }
  }

  lemma WritePage(s: State, root: nat, frame: nat, index: nat, word: u64, p: nat)
    requires Sound(s) && IsRoot(s, root) && frame < |s.mem| && frame !in s.tags && index < ENTRIES
    requires p < PAGES && PageOpen(s.mem, root, p)
    ensures PageOpen(Store(s.mem, frame, index, word), root, p)
  {
    var m := Store(s.mem, frame, index, word);
    DataWrite(s, frame, index, word, root, p);
    forall level | 2 <= level <= 4 ensures LinkOpen(m, root, p, level) {
      assert LinkOpen(s.mem, root, p, level);
      TagsUsed(s);
      NodeAgrees(s, m, root, p, level);
      NodeTag(s, root, p, level);
    }
  }

  /** In separated tables user mode can access exactly what is mapped below bit 47, and may write all of it. */
  lemma SeparatedAccess(s: State, root: nat, va: u64)
    requires Sound(s) && IsRoot(s, root) && Separated(s, root)
    ensures var a := Translate(s.mem, root, va);
            a.Mapped? ==> (a.user <==> va < LOWER_END) && (va < LOWER_END ==> a.writable)
  {
    if IsCanonical(va) {
      CanonicalHalf(va);
      ZeroTest(0);
      hide Sound, PathOpen, PageOf, Translate, HwFrame, TestBit, LowerOpen, SlotsSeparate, Leaf;
      TranslateIsLeaf(s, root, va);
      if va < LOWER_END {
        LowerOpenAt(s, root, PageOf(va));
      } else if Present(Leaf(s.mem, root, PageOf(va))) {
        UpperClosed(s, root, PageOf(va));
      }
    }
  }

  lemma LowerOpenAt(s: State, root: nat, p: nat)
    requires LowerOpen(s, root) && p < UPPER_HALF
    ensures PageOpen(s.mem, root, p)
  {}

  lemma UpperClosed(s: State, root: nat, p: nat)
    requires Sound(s) && IsRoot(s, root) && Separated(s, root) && UPPER_HALF <= p < PAGES
    requires Present(Leaf(s.mem, root, p))
    ensures !PathOpen(s.mem, root, p)
  {
    ZeroTest(0);
    hide Sound, TestBit, Index;
    HalfSlots(p);
    RootIsNode(s, root, p);
    NodeAbove(s.mem, root, p, 1, 3);
    WalkStep(s, root, p, 4);
    assert !LinkOpen(s.mem, root, p, 4);
  }
}
