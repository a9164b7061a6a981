/**
  The mapping services the ACPI library calls: byte ranges are widened to whole pages, mapped at
  a hole in the current context, and unmapped again.
 */
module KernelApi {
  import opened Bits
  import opened Rounding
  import opened Options
  import opened PageTables
  import opened TableEdits
  import opened Growth
  import opened Mapping
  import opened Entries
  import opened Virt
  import Contexts
  import Phys
  import DirectMap
  import Guarantees
  import Hardware
  import Rights

  /** The pages a byte range of length `len` takes up when it starts `offset` bytes into a page. */
  ghost function PagesFor(offset: nat, len: nat): nat {
    Ceil(len + offset, 4096)
  }

  /** The entries of those pages: consecutive frames from that of `addr`, writable for the kernel. */
  ghost function RangeWords(addr: u64, len: u64): seq<u64> {
    MapWords(addr / 4096 * 4096, PagesFor(addr % 4096, len), 3)
  }

  /** `uacpi_kernel_map`; `v` is the page the range was mapped at, 0 if no hole was found. */
  method KernelMap(vm: AddressSpaces, addr: u64, len: u64) returns (ok: bool, r: u64, ghost v: u64)
    requires vm.Valid() && IsRoot(vm.Now(), vm.RootOf(Current)) && addr + len <= Phys.MAX_PHYS
    modifies vm`tags, vm.frames, vm.phys.bitmap
    ensures vm.Valid()
    ensures ok ==> r == Wrap(v + addr % 4096)
                   && FillsLowestHole(old(vm.Now()), vm.Now(), vm.RootOf(Current), vm.hhdmOffset + 4096,
                                      0xffff_ffff_ffff_0000, v,
                                      PagesFor(addr % 4096, len), RangeWords(addr, len), LinkFlags(false), {})
    ensures ok && len > 0 ==>
              forall c: nat, va: u64 | IsRoot(old(vm.Now()), c) ::
                || Hardware.Translate(vm.Now().mem, c, va) == Hardware.Translate(old(vm.Now()).mem, c, va)
                || (v != 0 && exists b: u64 :: Wrap(b - r) < len && PageOf(b) == PageOf(va))
    ensures !ok ==> vm.OutOfMemory()
  {
    hide FillsLowestHole, PageOf, Hardware.Translate, IsRoot;
    ghost var s := vm.Now();
    var physBase := FloorChunk(addr, VIRT_PAGE_SIZE);
    var offsetWithinPage := addr - physBase;
    var actualLen := CeilChunk(len + offsetWithinPage, VIRT_PAGE_SIZE);
    WholeLength(len + offsetWithinPage);
    var virtAddr;
    ok, virtAddr := vm.MapAnywhere(Current, physBase, actualLen, ALLOC_FLAGS);
    v := virtAddr;
    r := Wrap(virtAddr + offsetWithinPage);
    if ok && len > 0 {
      forall c: nat, va: u64 | IsRoot(s, c)
        ensures Hardware.Translate(vm.Now().mem, c, va) == Hardware.Translate(s.mem, c, va)
                || (v != 0 && exists b: u64 :: Wrap(b - r) < len && PageOf(b) == PageOf(va))
      {
        MapTouchesOnly(s, vm.Now(), vm.RootOf(Current), vm.hhdmOffset + 4096, SCAN_LIMIT, v, addr, len, r, c, va);
      }
    }
  }

  /** `uacpi_kernel_unmap`. */
  method KernelUnmap(vm: AddressSpaces, addr: u64, len: u64)
    requires vm.Valid() && IsRoot(vm.Now(), vm.RootOf(Current)) && len <= Phys.MAX_PHYS
    modifies vm.frames
    ensures vm.Valid()
    ensures Unmaps(old(vm.Now()), vm.Now(), vm.RootOf(Current), PageOf(addr), PagesFor(addr % 4096, len))
    ensures forall b: u64 | Wrap(b - addr) < len ::
              Hardware.Translate(vm.Now().mem, vm.RootOf(Current), b) == Hardware.Fault
    ensures len > 0 ==>
              forall c: nat, va: u64 | IsRoot(old(vm.Now()), c) ::
                || Hardware.Translate(vm.Now().mem, c, va) == Hardware.Translate(old(vm.Now()).mem, c, va)
                || exists b: u64 :: Wrap(b - addr) < len && PageOf(b) == PageOf(va)
  {
    hide Unmaps, PageOf, Hardware.Translate, IsRoot, Wrap;
    ghost var s := vm.Now();
    var virtBase := FloorChunk(addr, VIRT_PAGE_SIZE);
    var offsetWithinPage := addr - virtBase;
    var actualLen := CeilChunk(len + offsetWithinPage, VIRT_PAGE_SIZE);
    WholeLength(len + offsetWithinPage);
    SamePage(addr);
    vm.Unmap(Current, virtBase, actualLen);
    forall b: u64 | Wrap(b - addr) < len
      ensures Hardware.Translate(vm.Now().mem, vm.RootOf(Current), b) == Hardware.Fault
    {
      UnmapTouches(s, vm.Now(), vm.RootOf(Current), addr, len, b);
    }
    if len > 0 {
      forall c: nat, va: u64 | IsRoot(s, c)
        ensures Hardware.Translate(vm.Now().mem, c, va) == Hardware.Translate(s.mem, c, va)
                || exists b: u64 :: Wrap(b - addr) < len && PageOf(b) == PageOf(va)
      {
        UnmapTouchesOnly(s, vm.Now(), vm.RootOf(Current), addr, len, c, va);
      }
    }
  }

  lemma {:induction false} RangeIndex(first: nat, n: nat, q: nat) returns (j: nat)
    requires q in RangePages(first, n)
    ensures j < n && PageAt(first, j) == q
  {
    if q == PageAt(first, n - 1) {
      j := n - 1;
    } else {
      j := RangeIndex(first, n - 1, q);
    }
  }

  /** Each page of a widened range holds a byte of the range itself, unless that is empty. */
  lemma TouchedPage(v: u64, addr: u64, len: u64, r: u64, q: nat) returns (b: u64)
    requires v % 4096 == 0 && r == Wrap(v + addr % 4096) && len > 0
    requires q in RangePages(PageOf(v), PagesFor(addr % 4096, len))
    ensures Wrap(b - r) < len && PageOf(b) == q
  {
    hide PageOf, PageAt, RangePages, Wrap, PagesFor;
    var j := RangeIndex(PageOf(v), PagesFor(addr % 4096, len), q);
    var k := ByteOfPage(addr % 4096, len, j);
    PageOfByte(v, addr, r, k, j, len);
    b := Wrap(r + k);
    ByteDistance(r, k);
  }

  lemma ByteDistance(r: u64, k: u64)
    ensures Wrap(Wrap(r + k) - r) == k
  {}

  lemma ByteAt(r: u64, b: u64)
    ensures b == Wrap(r + Wrap(b - r))
  {}

  lemma ByteOfPage(offset: nat, len: nat, j: nat) returns (k: nat)
    requires len > 0 && offset < 4096 && j < PagesFor(offset, len)
    ensures k < len && j == (offset + k) / 4096
  {
    k := if j == 0 then 0 else 4096 * j - offset;
  }

  /** For the processor, a map of a byte range changes only accesses to pages that its bytes lie in, in any context. */
  lemma MapTouchesOnly(s: State, s': State, root: nat, start: nat, limit: nat, v: u64, addr: u64, len: u64, r: u64,
                       c: nat, va: u64)
    requires Sound(s) && IsRoot(s, c) && len > 0 && r == Wrap(v + addr % 4096)
    requires FillsLowestHole(s, s', root, start, limit, v, PagesFor(addr % 4096, len), RangeWords(addr, len),
                             LinkFlags(false), {})
    ensures Hardware.Translate(s'.mem, c, va) == Hardware.Translate(s.mem, c, va)
            || (v != 0 && exists b: u64 :: Wrap(b - r) < len && PageOf(b) == PageOf(va))
  {
    hide Maps, PageOf, Hardware.Translate, RangePages, Wrap, IsHole, NoHoleBelow, PagesFor, RangeWords, Sound;
    var n := PagesFor(addr % 4096, len);
    if v != 0 && PageOf(va) in RangePages(PageOf(v), n) {
      var b := TouchedPage(v, addr, len, r, PageOf(va));
    } else {
      Guarantees.AllocLeavesOthers(s, s', root, start, limit, v, n, RangeWords(addr, len), LinkFlags(false), {}, c, va);
    }
  }

  /** A map of no bytes maps a page all the same exactly if the address is not page-aligned. */
  lemma EmptyRangeIff(s: State, s': State, root: nat, start: nat, limit: nat, v: u64, addr: u64)
    requires IsRoot(s, root) && v != 0
    requires FillsLowestHole(s, s', root, start, limit, v, PagesFor(addr % 4096, 0), RangeWords(addr, 0),
                             LinkFlags(false), {})
    ensures Leaf(s'.mem, root, PageOf(v)) == Leaf(s.mem, root, PageOf(v)) <==> addr % 4096 == 0
  {
    hide IsHole;
    hide Sound, PageOf, Leaf, Grows, PathsExist, Translates, NoHoleBelow, EntryWord, RangeWords, PagesFor;
    EmptyWords(addr);
    Contexts.OwnTranslation(s, s', root, PageOf(v), RangeWords(addr, 0), PageOf(v));
    LastWriteOne(PageOf(v), PageOf(v), EntryWord(addr / 4096 * 4096, ALLOC_FLAGS));
    if addr % 4096 != 0 {
      FirstOfHole(s.mem, root, PageOf(v), 1);
    }
  }

  lemma FirstOfHole(m: Memory, root: nat, first: nat, n: nat)
    requires IsHole(m, root, first, n) && n > 0
    ensures Leaf(m, root, first) == 0
  {
    assert PageAt(first, 0) == first;
  }

  lemma EmptyWords(addr: u64)
    ensures PagesFor(addr % 4096, 0) == if addr % 4096 == 0 then 0 else 1
    ensures RangeWords(addr, 0) == if addr % 4096 == 0 then [] else [EntryWord(addr / 4096 * 4096, ALLOC_FLAGS)]
    ensures EntryWord(addr / 4096 * 4096, ALLOC_FLAGS) != 0
  {
    EmptyPages(addr % 4096);
    AlignedEntry(addr / 4096);
    FewWords(addr / 4096 * 4096, ALLOC_FLAGS);
    hide EntryWord, MapWords, PagesFor;
  }

  lemma EmptyPages(offset: nat)
    requires offset < 4096
    ensures PagesFor(offset, 0) == if offset == 0 then 0 else 1
  {}

  lemma AlignedEntry(f: nat)
    requires f * 4096 < TWO_64
    ensures EntryWord(f * 4096, ALLOC_FLAGS) != 0
  {
    EntryIsSum(f * 4096, ALLOC_FLAGS);
  }

  lemma FewWords(addr: u64, flags: u64)
    ensures MapWords(addr, 0, flags) == [] && MapWords(addr, 1, flags) == [EntryWord(addr, flags)]
  {
    hide EntryWord;
    assert Wrap(addr + 4096 * 0) == addr;
  }

  /** An unmap of a byte range closes the pages that its bytes lie in. */
  lemma UnmapTouches(s: State, s': State, root: nat, addr: u64, len: u64, b: u64)
    requires Sound(s) && IsRoot(s, root) && Wrap(b - addr) < len
    requires Unmaps(s, s', root, PageOf(addr), PagesFor(addr % 4096, len))
    ensures Hardware.Translate(s'.mem, root, b) == Hardware.Fault
  {
    hide Unmaps, PageOf, Hardware.Translate, RangePages, Wrap, PagesFor, Sound;
    var k := Wrap(b - addr);
    var j := (addr % 4096 + k) / 4096;
    ByteAt(addr, b);
    PageStart(addr);
    PageOfByte(addr / 4096 * 4096, addr, addr, k, j, len);
    DirectMap.InRangeAt(PageOf(addr), PagesFor(addr % 4096, len), j);
    Guarantees.UnmapAccess(s, s', root, PageOf(addr), PagesFor(addr % 4096, len), root, b);
  }

  lemma PageStart(addr: u64)
    ensures PageOf(addr / 4096 * 4096) == PageOf(addr) && addr / 4096 * 4096 % 4096 == 0
    ensures addr == Wrap(addr / 4096 * 4096 + addr % 4096)
  {}

  /** It changes only accesses to those pages. */
  lemma UnmapTouchesOnly(s: State, s': State, root: nat, addr: u64, len: u64, c: nat, va: u64)
    requires Sound(s) && IsRoot(s, root) && IsRoot(s, c) && len > 0
    requires Unmaps(s, s', root, PageOf(addr), PagesFor(addr % 4096, len))
    ensures Hardware.Translate(s'.mem, c, va) == Hardware.Translate(s.mem, c, va)
            || exists b: u64 :: Wrap(b - addr) < len && PageOf(b) == PageOf(va)
  {
    hide Unmaps, PageOf, Hardware.Translate, RangePages, Wrap, PagesFor, Sound, Joined;
    var n := PagesFor(addr % 4096, len);
    Guarantees.UnmapAccess(s, s', root, PageOf(addr), n, c, va);
    if PageOf(va) in RangePages(PageOf(addr), n) {
      PageStart(addr);
      var b := TouchedPage(addr / 4096 * 4096, addr, len, addr, PageOf(va));
    }
  }

  lemma WholeLength(n: nat)
    requires n <= Phys.MAX_PHYS + 4096
    ensures Wrap(Ceil(n, 4096) * 4096) == Ceil(n, 4096) * 4096 <= MAX_SIZE
    ensures Ceil(Ceil(n, 4096) * 4096, 4096) == Ceil(n, 4096)
  {}

  lemma SamePage(addr: u64)
    ensures PageOf(addr / 4096 * 4096) == PageOf(addr) && addr - addr / 4096 * 4096 == addr % 4096
  {}

  /** A failed map is reported as a null pointer only for a page-aligned physical address. */
  lemma FailureIsNullIff(v: u64, addr: u64, r: u64)
    requires v % 4096 == 0 && v <= MAX_SIZE && r == Wrap(v + addr % 4096)
    ensures v == 0 ==> (r == 0 <==> addr % 4096 == 0)
    ensures v != 0 ==> r != 0
  {}

  /** The pointer returned for a hole lies in the hole's first page, so unmapping it finds the same range. */
  lemma SameRange(v: u64, addr: u64, r: u64)
    requires v % 4096 == 0 && v <= MAX_SIZE && r == Wrap(v + addr % 4096)
    ensures PageOf(r) == PageOf(v) && r % 4096 == addr % 4096
  {
    assert r / 4096 == v / 4096;
  }

  /** Some page of the context is mapped, as the direct map always is. */
  ghost predicate MapsSomething(m: Memory, root: nat) {
    exists q :: 0 <= q < PAGES && Leaf(m, root, q) != 0
  }

  lemma HoleIsShort(m: Memory, root: nat, first: nat, n: nat)
    requires IsHole(m, root, first, n) && MapsSomething(m, root) && first < PAGES
    ensures n < PAGES
  {
    var q :| 0 <= q < PAGES && Leaf(m, root, q) != 0;
    var k := (q - first) % PAGES;
    RingDistance(q, first, k);
  }

  /**
    After a successful map, the processor takes byte `k` of the result to byte `k` of the physical
    range, and may write it.
   */
  lemma MappedBytes(s: State, s': State, root: nat, start: nat, limit: nat, v: u64, addr: u64, len: u64, r: u64, k: nat,
                    va: u64)
    requires IsRoot(s, root) && MapsSomething(s.mem, root) && addr + len <= Phys.MAX_PHYS
    requires FillsLowestHole(s, s', root, start, limit, v, PagesFor(addr % 4096, len), RangeWords(addr, len),
                             LinkFlags(false), {})
    requires v != 0 && r == Wrap(v + addr % 4096) && k < len && va == Wrap(r + k) && Hardware.IsCanonical(va)
    ensures var a := Hardware.Translate(s'.mem, root, va); a.Mapped? && a.addr == addr + k && a.writable
  {
    hide Maps, IsHole, NoHoleBelow, MapWords, Ceil, PageOf, Sound, DirectMap.ForFrame, Hardware.Translate;
    hide Hardware.IsCanonical, Hardware.HwFrame, Hardware.PathOpen, Leaf;
    var n, j, words := PagesFor(addr % 4096, len), (addr % 4096 + k) / 4096, RangeWords(addr, len);
    HoleIsShort(s.mem, root, PageOf(v), n);
    PageOfByte(v, addr, r, k, j, len);
    DirectMap.WordsLength(addr / 4096 * 4096, n, ALLOC_FLAGS);
    Contexts.MappedAt(s, s', root, PageOf(v), words, LinkFlags(false), {}, j);
    MapWordsAt(addr / 4096 * 4096, n, ALLOC_FLAGS, j);
    ByteEntry(addr, k, j);
    Rights.MapsRoot(s, s', root, PageOf(v), words, LinkFlags(false), {});
    Hardware.TranslateIsLeaf(s', root, va);
  }

  lemma PageOfByte(v: u64, addr: u64, r: u64, k: nat, j: nat, len: u64)
    requires v % 4096 == 0 && r == Wrap(v + addr % 4096) && k < len && j == (addr % 4096 + k) / 4096
    ensures PageOf(Wrap(r + k)) == PageAt(PageOf(v), j) && Wrap(r + k) % 4096 == (addr + k) % 4096
    ensures j < PagesFor(addr % 4096, len)
  {
    var off := addr % 4096 + k;
    hide PageOf, Wrap, Ceil;
    WrapTwice(v + addr % 4096, k);
    PageSteps(v, 4096 * j, j);
    PageOfWrapped(v + off);
    PageOfWrapped(v + 4096 * j);
    WrapOffset(v + off);
    ByteOffset(v, addr, k, j);
    ByteInRange(addr, len, k, j);
  }

  lemma ByteOffset(v: u64, addr: u64, k: nat, j: nat)
    requires v % 4096 == 0 && j == (addr % 4096 + k) / 4096
    ensures PageOf(v + addr % 4096 + k) == PageOf(v + 4096 * j)
    ensures (v + addr % 4096 + k) % 4096 == (addr + k) % 4096
  {
    assert (v + addr % 4096 + k) / 4096 == v / 4096 + j == (v + 4096 * j) / 4096;
  }

  lemma ByteInRange(addr: u64, len: u64, k: nat, j: nat)
    requires j == (addr % 4096 + k) / 4096 && k < len
    ensures j < PagesFor(addr % 4096, len)
  {}

  lemma WrapTwice(x: nat, k: nat)
    ensures Wrap(Wrap(x) + k) == Wrap(x + k)
  {
    var y := x % TWO_64 + k;
    QuotientRemainder(x + k, TWO_64, x / TWO_64 + y / TWO_64, y % TWO_64);
  }

  /** The entry for byte `k` names that byte's frame. */
  lemma ByteEntry(addr: u64, k: nat, j: nat)
    requires addr + k < Phys.MAX_PHYS && j == (addr % 4096 + k) / 4096
    ensures var e := EntryWord(Wrap(addr / 4096 * 4096 + 4096 * j), ALLOC_FLAGS);
            && Hardware.Present(e) && Hardware.Writable(e)
            && Hardware.HwFrame(e) * 4096 + (addr + k) % 4096 == addr + k
  {
    hide EntryWord, TestBit;
    var f := (addr + k) / 4096;
    assert f == addr / 4096 + j;
    assert Wrap(addr / 4096 * 4096 + 4096 * j) == f * 4096;
    DirectMap.KernelEntry(f * 4096);
  }

  /** What a successful map of a byte range, followed by an unmap of the pointer it returned, has done. */
  ghost predicate MappedThenUnmapped(s: State, s1: State, s2: State, root: nat, start: nat, limit: nat, v: u64,
                                     addr: u64, len: u64, r: u64)
  {
    && FillsLowestHole(s, s1, root, start, limit, v, PagesFor(addr % 4096, len), RangeWords(addr, len),
                       LinkFlags(false), {})
    && v != 0 && v <= MAX_SIZE && r == Wrap(v + addr % 4096)
    && Unmaps(s1, s2, root, PageOf(r), PagesFor(r % 4096, len))
  }

  /**
    Round trip: unmapping the pointer that a successful map returned restores the translation of
    every page in every context.
   */
  lemma MapUnmapRestores(s: State, s1: State, s2: State, root: nat, start: nat, limit: nat, v: u64, addr: u64,
                         len: u64, r: u64)
    requires Sound(s) && IsRoot(s, root) && MappedThenUnmapped(s, s1, s2, root, start, limit, v, addr, len, r)
    ensures SameTranslation(s, s2)
  {
    hide Maps, Unmaps, NoHoleBelow, IsHole, MapWords, PageOf, Leaf;
    var n := PagesFor(addr % 4096, len);
    SameRange(v, addr, r);
    forall r', q | IsRoot(s, r') && 0 <= q < PAGES ensures Leaf(s2.mem, r', q) == Leaf(s.mem, r', q) {
      RestoredAt(s, s1, s2, root, PageOf(v), n, RangeWords(addr, len), LinkFlags(false), {}, r', q);
    }
  }

  /** For the processor as well, every access in every context is what it was, rights included. */
  lemma MapUnmapRestoresAccess(s: State, s1: State, s2: State, root: nat, start: nat, limit: nat, v: u64, addr: u64,
                               len: u64, r: u64, context: nat, va: u64)
    requires Sound(s) && IsRoot(s, root) && MappedThenUnmapped(s, s1, s2, root, start, limit, v, addr, len, r)
    requires IsRoot(s, context)
    ensures Hardware.Translate(s2.mem, context, va) == Hardware.Translate(s.mem, context, va)
  {
    MapUnmapRestores(s, s1, s2, root, start, limit, v, addr, len, r);
    hide Sound, Translates, NoHoleBelow, IsHole, MapWords, PageOf, Leaf, Hardware.Translate, Keeps, SameNodes;
    hide PathsExist, Takes, OnlyTables, NewLinks, NewTables;
    SameTablesKeep(s1, s2);
    KeepsTrans(s, s1, s2);
    Rights.SameAccess(s, s2, context, va);
  }

  /** At one page and in one context: what was mapped in a hole and unmapped again is as before. */
  lemma RestoredAt(s: State, s1: State, s2: State, root: nat, first: nat, n: nat, words: seq<u64>, fl: u64,
                   data: set<nat>, r: nat, q: nat)
    requires Sound(s) && IsRoot(s, root) && IsRoot(s, r) && q < PAGES && |words| == n && first < PAGES
    requires Maps(s, s1, root, first, words, fl, data) && IsHole(s.mem, root, first, n)
    requires Unmaps(s1, s2, root, first, n)
    ensures Leaf(s2.mem, r, q) == Leaf(s.mem, r, q)
  {
    hide Grows, NoHoleBelow, SameTables, SameNodes, PathsExist, Leaf, Joined, IsHole;
    assert IsRoot(s1, r) by { MapsKeeps(s, s1, root, first, words, fl, data); }
    WrittenInRange(q, first, words);
    assert Leaf(s1.mem, r, q) == NewLeaf(s, s1, root, first, words, r, q);
    if q in RangePages(first, n) && Joined(s1.mem, r, root, q) {
      WasUnmapped(s, s1, root, first, words, fl, data, r, q);
    }
  }

  /** A context joined at a page of the hole after the mapping had nothing there before. */
  lemma WasUnmapped(s: State, s1: State, root: nat, first: nat, words: seq<u64>, fl: u64, data: set<nat>, r: nat,
                    q: nat)
    requires Sound(s) && IsRoot(s, root) && IsRoot(s, r) && q < PAGES && first < PAGES
    requires Maps(s, s1, root, first, words, fl, data) && IsHole(s.mem, root, first, |words|)
    requires q in RangePages(first, |words|) && Joined(s1.mem, r, root, q)
    ensures Leaf(s.mem, r, q) == 0
  {
    hide PathsExist, Translates, IsHole, Grows, Sound;
    DirectMap.HoleUnmapped(s.mem, root, first, |words|, q);
    if Node(s.mem, root, q, 3).Some? {
      JoinStable(s, s1, root, RangePages(first, |words|), fl, data, r, q);
      JoinedWalk(s.mem, r, root, q, 1);
    } else if r != root {
      NewPdptIsPrivate(s, s1, root, RangePages(first, |words|), fl, data, r, q);
      Contexts.NoPathBelow(s.mem, r, q);
    }
  }

  /** A PDPT made for one context is reached by no other. */
  lemma NewPdptIsPrivate(s: State, s1: State, root: nat, pages: set<nat>, fl: u64, data: set<nat>, r: nat, q: nat)
    requires Sound(s) && Sound(s1) && IsRoot(s, root) && IsRoot(s, r) && r != root && q < PAGES
    requires Grows(s, s1, root, pages, fl, data) && Node(s.mem, root, q, 3) == None && Joined(s1.mem, r, root, q)
    ensures Node(s.mem, r, q, 3) == None
  {
    NoForeignLink(s, s1, root, pages, fl, data, r, q);
    assert GoodTag(s, root, s.tags[root]);
    var i := Index(q, 4);
    WalkStep(s, root, q, 4);
    if s1.mem[root][i] != 0 {
      assert IsNewLink(s, s1, root, i);
      assert LinkFor(s, s1, root, i, root, pages, fl);
      WalkStep(s1, root, q, 4);
      if Node(s.mem, r, q, 3).Some? {
        NodeTag(s, r, q, 3);
      }
    }
  }
}
