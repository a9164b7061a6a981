/**
  Several contexts at once: which translations they share, which they keep to themselves, and
  what a new context starts out with.
 */
module Contexts {
  import opened Bits
  import opened Options
  import opened PageTables
  import opened TableEdits
  import opened Growth
  import opened Mapping
  import opened Entries

  /** The PDPT of the shared kernel slot is in place. */
  ghost predicate HasKernelPdpt(s: State) {
    s.kernelPdpt in s.tags && s.tags[s.kernelPdpt] == Tag(Kernel, 3, 511)
  }

  /** Context `r` leads its last PML4 slot to the shared kernel PDPT. */
  ghost predicate SharesKernelSlot(s: State, r: nat) {
    IsRoot(s, r) && r < |s.mem| && HasKernelPdpt(s) && s.mem[r][511] != 0 && FrameOf(s.mem[r][511]) == s.kernelPdpt
  }

  /** Below every other slot, two contexts are never joined. */
  lemma NotJoined(s: State, root: nat, r: nat, q: nat)
    requires Sound(s) && IsRoot(s, root) && IsRoot(s, r) && r != root && q < PAGES
    requires Index(q, 4) != 511 && Node(s.mem, root, q, 3).Some?
    ensures !Joined(s.mem, r, root, q)
  {
    NodeTag(s, root, q, 3);
    NodeTag(s, r, q, 3);
  }

  /** Isolation: a mapping through any PML4 slot but the last leaves every other context's translation of it alone. */
  lemma Isolation(s: State, s': State, root: nat, first: nat, words: seq<u64>, fl: u64, data: set<nat>, r: nat, q: nat)
    requires Sound(s) && IsRoot(s, root) && first < PAGES && Maps(s, s', root, first, words, fl, data)
    requires IsRoot(s, r) && r != root && q < PAGES && Index(q, 4) != 511
    ensures Leaf(s'.mem, r, q) == Leaf(s.mem, r, q)
  {
    if LastWrite(q, first, words).Some? {
      WrittenInRange(q, first, words);
      NodeAbove(s'.mem, root, q, 1, 3);
      NotJoined(s', root, r, q);
    }
  }

  /** Contexts that share the kernel slot stay joined at all its pages, whatever is mapped and by whom. */
  lemma KernelSlotJoined(s: State, r: nat, r': nat, q: nat)
    requires Sound(s) && SharesKernelSlot(s, r) && SharesKernelSlot(s, r') && q < PAGES && Index(q, 4) == 511
    ensures Joined(s.mem, r, r', q) && Leaf(s.mem, r, q) == Leaf(s.mem, r', q)
  {
    assert GoodTag(s, r, s.tags[r]) && GoodTag(s, r', s.tags[r']);
    WalkStep(s, r, q, 4);
    WalkStep(s, r', q, 4);
    JoinedWalk(s.mem, r, r', q, 1);
  }

  /** Sharing the kernel slot survives every mapping. */
  lemma StaysShared(s: State, s': State, root: nat, pages: set<nat>, fl: u64, data: set<nat>, r: nat)
    requires Sound(s) && Grows(s, s', root, pages, fl, data) && SharesKernelSlot(s, r)
    ensures SharesKernelSlot(s', r)
  {
    assert GoodTag(s, r, s.tags[r]);
    assert KeepsLinks(s.mem[r], s'.mem[r]);
  }

  /**
    The shared slot: what one context maps at a page of its last PML4 slot, every context that shares
    the slot translates alike, before and after.
   */
  lemma SharedMapping(s: State, s': State, root: nat, first: nat, words: seq<u64>, fl: u64, data: set<nat>, r: nat,
                      q: nat)
    requires Sound(s) && first < PAGES && Maps(s, s', root, first, words, fl, data)
    requires SharesKernelSlot(s, root) && SharesKernelSlot(s, r) && q < PAGES && Index(q, 4) == 511
    ensures Leaf(s.mem, r, q) == Leaf(s.mem, root, q) && Leaf(s'.mem, r, q) == Leaf(s'.mem, root, q)
    ensures LastWrite(q, first, words).Some? ==> Leaf(s'.mem, r, q) == LastWrite(q, first, words).value
  {
    hide Translates, Sound;
    StaysShared(s, s', root, RangePages(first, |words|), fl, data, root);
    StaysShared(s, s', root, RangePages(first, |words|), fl, data, r);
    KernelSlotJoined(s, r, root, q);
    KernelSlotJoined(s', r, root, q);
    OwnTranslation(s, s', root, first, words, q);
  }

  /** In the mapping context itself, the written pages read back. */
  lemma OwnTranslation(s: State, s': State, root: nat, first: nat, words: seq<u64>, q: nat)
    requires Translates(s, s', root, first, words) && IsRoot(s, root) && q < PAGES
    ensures Leaf(s'.mem, root, q)
            == match LastWrite(q, first, words) case None => Leaf(s.mem, root, q) case Some(w) => w
  {
    assert Joined(s'.mem, root, root, q);
    assert Leaf(s'.mem, root, q) == NewLeaf(s, s', root, first, words, root, q);
  }

  /** Page `k` of a mapped range translates to its own entry. */
  lemma MappedAt(s: State, s': State, root: nat, first: nat, words: seq<u64>, fl: u64, data: set<nat>, k: nat)
    requires Maps(s, s', root, first, words, fl, data) && IsRoot(s, root)
    requires first < PAGES && k < |words| <= PAGES
    ensures Leaf(s'.mem, root, PageAt(first, k)) == words[k]
  {
    hide Grows, Sound, PathsExist, Translates, LastWrite, PageAt;
    OwnTranslation(s, s', root, first, words, PageAt(first, k));
    LastWriteExact(PageAt(first, k), first, words);
    RingDistance(PageAt(first, k), first, k);
  }

  // ---------------------------------------------------------------- a new context

  /** The state after a frame becomes a PML4 whose last slot leads to the kernel PDPT; nothing else in it is written. */
  ghost function NewContext(s: State, root: nat): State
    requires root < |s.mem| && s.kernelPdpt < MAX_FRAMES
  {
    State(Store(s.mem, root, 511, s.kernelPdpt * 4096 + 3), s.tags[root := Tag(Context(root), 4, 0)], s.used,
          s.kernelPdpt)
  }

  ghost predicate CanBeContext(s: State, root: nat) {
    && Sound(s) && HasKernelPdpt(s) && root < |s.mem| && root in s.used && root !in s.tags
  }

  lemma KernelLink(s: State)
    requires Sound(s) && HasKernelPdpt(s)
    ensures s.kernelPdpt < MAX_FRAMES && FrameOf(s.kernelPdpt * 4096 + 3) == s.kernelPdpt
    ensures TestBit(s.kernelPdpt * 4096 + 3, 0) && TestBit(s.kernelPdpt * 4096 + 3, 1)
    ensures !TestBit(s.kernelPdpt * 4096 + 3, 7)
  {
    assert GoodTag(s, s.kernelPdpt, s.tags[s.kernelPdpt]);
    EntryFields(s.kernelPdpt, 3);
    ThreeBits();
  }

  lemma ThreeBits()
    ensures TestBit(3, 0) && TestBit(3, 1) && !TestBit(3, 2) && !TestBit(3, 7)
    ensures TestBit(7, 0) && TestBit(7, 1) && TestBit(7, 2) && !TestBit(7, 7)
  {
    assert TestBit(3, 1) == TestBit(1, 0) && TestBit(3, 2) == TestBit(1, 1) == TestBit(0, 0);
    assert TestBit(3, 7) == TestBit(1, 6) == TestBit(0, 5);
    ZeroTest(5);
    assert TestBit(7, 1) == TestBit(3, 0) && TestBit(7, 2) == TestBit(3, 1);
    assert TestBit(7, 7) == TestBit(3, 6) == TestBit(1, 5) == TestBit(0, 4);
    ZeroTest(4);
  }

  ghost predicate ZeroBelowLast(frame: Frame) {
    forall i | 0 <= i < 511 :: frame[i] == 0
  }

  /** A stale word in a new PML4 is followed like a link: what the frame held decides where paths lead. */
  lemma NewContextPaths(s: State, root: nat, q: nat)
    requires CanBeContext(s, root) && q < PAGES && s.kernelPdpt < MAX_FRAMES
    ensures var w := s.mem[root][Index(q, 4)];
            Node(NewContext(s, root).mem, root, q, 3)
            == if Index(q, 4) == 511 then Some(s.kernelPdpt)
               else if LeadsNowhere(s.mem, w) then None
               else Some(FrameOf(w))
  {
    KernelLink(s);
    assert GoodTag(s, s.kernelPdpt, s.tags[s.kernelPdpt]);
    assert Node(NewContext(s, root).mem, root, q, 4) == Some(root);
  }

  /**
    The frame of a new PML4 is not cleared, so the new context has no paths outside the shared slot
    if and only if the frame held no word there that points into memory.
   */
  lemma NewContextPrivateIff(s: State, root: nat)
    requires CanBeContext(s, root)
    ensures s.kernelPdpt < MAX_FRAMES
    ensures (forall q | 0 <= q < PAGES && Index(q, 4) != 511 :: Node(NewContext(s, root).mem, root, q, 3) == None)
            <==> forall i | 0 <= i < 511 :: LeadsNowhere(s.mem, s.mem[root][i])
  {
    KernelLink(s);
    hide Sound, Node, LeadsNowhere, Index;
    var m := NewContext(s, root).mem;
    forall q | 0 <= q < PAGES && Index(q, 4) != 511
      ensures Node(m, root, q, 3) == None <==> LeadsNowhere(s.mem, s.mem[root][Index(q, 4)])
    {
      NewContextPaths(s, root, q);
    }
    if forall q | 0 <= q < PAGES && Index(q, 4) != 511 :: Node(m, root, q, 3) == None {
      forall i | 0 <= i < 511 ensures LeadsNowhere(s.mem, s.mem[root][i]) {
        SlotPage(i);
        assert Node(m, root, i * 0x800_0000, 3) == None;
      }
    }
  }

  /** The word is no link, or it points past the end of memory. */
  ghost predicate LeadsNowhere(m: Memory, w: u64) {
    w == 0 || FrameOf(w) >= |m|
  }

  /** The first page of a PML4 slot. */
  lemma SlotPage(i: nat)
    requires i < ENTRIES
    ensures Index(i * 0x800_0000, 4) == i && i * 0x800_0000 < PAGES
  {
    assert Prefix(i * 0x800_0000, 1) == i * 0x4_0000;
    assert Prefix(i * 0x800_0000, 2) == i * 512;
    assert Prefix(i * 0x800_0000, 3) == i;
  }

  /** The invariant holds for the new tables, tagged as a lone PML4, if and only if the frame was zero there. */
  lemma NewContextSoundIff(s: State, root: nat)
    requires CanBeContext(s, root)
    ensures s.kernelPdpt < MAX_FRAMES
    ensures Sound(NewContext(s, root)) <==> ZeroBelowLast(s.mem[root])
  {
    KernelLink(s);
    var s' := NewContext(s, root);
    if ZeroBelowLast(s.mem[root]) {
      NewContextSound(s, root);
    } else {
      var i :| 0 <= i < 511 && s.mem[root][i] != 0;
      if Sound(s') {
        StaleLink(s, root, i);
      }
    }
  }

  lemma NewContextSound(s: State, root: nat)
    requires CanBeContext(s, root) && s.kernelPdpt < MAX_FRAMES
    requires ZeroBelowLast(s.mem[root])
    ensures Sound(NewContext(s, root))
  {
    KernelLink(s);
    TagsUsed(s);
    var s' := NewContext(s, root);
    forall f | f in s'.tags ensures GoodTag(s', f, s'.tags[f]) {
      if f != root {
        assert GoodTag(s, f, s.tags[f]);
      }
    }
    forall f | f in s'.tags && s'.tags[f].level > 1 ensures GoodLinks(s', f) {
      if f != root {
        assert GoodLinks(s, f);
        OldLinks(s, root, f);
      }
    }
  }

  lemma OldLinks(s: State, root: nat, f: nat)
    requires CanBeContext(s, root) && s.kernelPdpt < MAX_FRAMES
    requires f in s.tags && f < |s.mem| && s.tags[f].level > 1 && GoodLinks(s, f)
    ensures GoodLinks(NewContext(s, root), f)
  {
    var s' := NewContext(s, root);
    forall i | 0 <= i < ENTRIES && s'.mem[f][i] != 0
      ensures GoodLink(s'.tags, s'.tags[f], i, s'.mem[f][i])
    {
      assert GoodLink(s.tags, s.tags[f], i, s.mem[f][i]);
    }
  }

  /** A stale word in a new PML4 cannot be a link to one of its tables: it has none. */
  lemma StaleLink(s: State, root: nat, i: nat)
    requires CanBeContext(s, root) && s.kernelPdpt < MAX_FRAMES && i < 511 && s.mem[root][i] != 0
    ensures !Sound(NewContext(s, root))
  {
    var s' := NewContext(s, root);
    var g := FrameOf(s.mem[root][i]);
    assert s'.mem[root][i] == s.mem[root][i];
    if g in s.tags {
      assert GoodTag(s, g, s.tags[g]);
    }
    assert !GoodLink(s'.tags, s'.tags[root], i, s.mem[root][i]);
    assert !GoodLinks(s', root);
  }

  /**
    A new context translates nothing of its own. In its last slot it translates what the shared
    kernel PDPT maps, so it has the kernel's mappings only if they were made through that PDPT.
   */
  lemma NewContextTranslation(s: State, root: nat, r: nat, q: nat)
    requires CanBeContext(s, root) && ZeroBelowLast(s.mem[root]) && q < PAGES
    requires SharesKernelSlot(s, r)
    ensures s.kernelPdpt < MAX_FRAMES
    ensures Leaf(NewContext(s, root).mem, root, q) == if Index(q, 4) == 511 then Leaf(s.mem, r, q) else 0
  {
    KernelLink(s);
    NewContextSound(s, root);
    var s' := NewContext(s, root);
    assert Node(s'.mem, root, q, 4) == Some(root);
    WalkStep(s', root, q, 4);
    if Index(q, 4) == 511 {
      assert s'.mem[r] == s.mem[r];
      KernelSlotJoined(s', root, r, q);
      OtherContexts(s, root, r, q, 1);
    } else {
      NoPathBelow(s'.mem, root, q);
    }
  }

  lemma NoPathBelow(m: Memory, root: nat, q: nat)
    requires Node(m, root, q, 3) == None
    ensures Leaf(m, root, q) == 0
  {
    assert Node(m, root, q, 2) == None;
    assert Node(m, root, q, 1) == None;
  }

  /** Making a context changes no other context's nodes or translations. */
  lemma {:induction false} OtherContexts(s: State, root: nat, r: nat, q: nat, level: nat)
    requires CanBeContext(s, root) && s.kernelPdpt < MAX_FRAMES && IsRoot(s, r) && q < PAGES && 1 <= level <= 4
    ensures Node(NewContext(s, root).mem, r, q, level) == Node(s.mem, r, q, level)
    ensures level == 1 ==> Leaf(NewContext(s, root).mem, r, q) == Leaf(s.mem, r, q)
  {
    NodeAgrees(s, NewContext(s, root).mem, r, q, level);
    NodeTag(s, r, q, level);
  }

  /** A new context shares the kernel slot, and contexts that shared it before still do. */
  lemma NewContextShares(s: State, root: nat, r: nat)
    requires CanBeContext(s, root) && s.kernelPdpt < MAX_FRAMES && (r == root || SharesKernelSlot(s, r))
    ensures SharesKernelSlot(NewContext(s, root), r)
  {
    KernelLink(s);
    TagsUsed(s);
  }

  // ---------------------------------------------------------------- the boot context

  /** The kernel PDPT holds nothing, and the context's own last slot does not lead to it. */
  ghost predicate KernelPdptUnused(s: State, boot: nat) {
    && IsRoot(s, boot) && HasKernelPdpt(s) && s.kernelPdpt < |s.mem| && boot < |s.mem|
    && s.mem[s.kernelPdpt] == ZeroFrame()
    && (s.mem[boot][511] != 0 ==> FrameOf(s.mem[boot][511]) != s.kernelPdpt)
  }

  lemma TopIndex(p: nat)
    requires p < PAGES
    ensures Prefix(p, 3) == Index(p, 4)
  {
    PrefixStep(p, 4);
    PrefixTop(p);
  }

  /** A context that does not share the kernel slot never puts anything into the kernel PDPT. */
  lemma StaysUnused(s: State, s': State, boot: nat, pages: set<nat>, fl: u64, data: set<nat>)
    requires Sound(s) && Sound(s') && KernelPdptUnused(s, boot) && Grows(s, s', boot, pages, fl, data)
    ensures KernelPdptUnused(s', boot)
  {
    hide Sound, Takes, NewTables, OnlyTables, OnPath;
    var k := s.kernelPdpt;
    LastSlot(s, s', boot, pages, fl);
    forall i | 0 <= i < ENTRIES ensures s'.mem[k][i] == 0 {
      if s'.mem[k][i] != 0 {
        NewLinkTarget(s, s', k, i, boot, pages, fl);
        var p :| p in pages && p < PAGES && Node(s'.mem, boot, p, 3) == Some(k);
        NodeFromSlot(s', boot, p);
      }
    }
    assert s'.mem[k] == ZeroFrame();
  }

  lemma LastSlot(s: State, s': State, boot: nat, pages: set<nat>, fl: u64)
    requires KernelPdptUnused(s, boot) && Keeps(s, s') && NewLinks(s, s', boot, pages, fl)
    ensures s'.mem[boot][511] != 0 ==> FrameOf(s'.mem[boot][511]) != s.kernelPdpt
  {
    if s.mem[boot][511] != 0 {
      KeptLink(s, s', boot, 511);
    } else if s'.mem[boot][511] != 0 {
      NewLinkTarget(s, s', boot, 511, boot, pages, fl);
    }
  }

  lemma NodeFromSlot(s: State, boot: nat, p: nat)
    requires Sound(s) && IsRoot(s, boot) && p < PAGES && HasKernelPdpt(s) && boot < |s.mem|
    requires Node(s.mem, boot, p, 3) == Some(s.kernelPdpt)
    ensures s.mem[boot][511] != 0 && FrameOf(s.mem[boot][511]) == s.kernelPdpt
  {
    NodeTag(s, boot, p, 3);
    TopIndex(p);
    WalkStep(s, boot, p, 4);
  }

  /**
    While the kernel PDPT is unused, a new context translates no address at all: the mappings of
    the boot context, its kernel window among them, are not part of it.
   */
  lemma NewContextIsEmpty(s: State, root: nat, boot: nat, q: nat)
    requires CanBeContext(s, root) && KernelPdptUnused(s, boot) && ZeroBelowLast(s.mem[root]) && q < PAGES
    ensures s.kernelPdpt < MAX_FRAMES && Leaf(NewContext(s, root).mem, root, q) == 0
  {
    KernelLink(s);
    NewContextSound(s, root);
    var s' := NewContext(s, root);
    RootIsNode(s', root, q);
    WalkStep(s', root, q, 4);
    if Node(s'.mem, root, q, 3).Some? {
      assert Node(s'.mem, root, q, 3) == Some(s.kernelPdpt);
      WalkStep(s', root, q, 3);
      assert Node(s'.mem, root, q, 1) == None;
    } else {
      NoPathBelow(s'.mem, root, q);
    }
  }

  // ---------------------------------------------------------------- creation

  /**
    How `virt_ctx_new` gets there: a page for the structure is mapped to a new frame at a hole of the
    current context, which leaves `filled`, and a frame is taken for the PML4, which leaves `before`.
   */
  datatype Creation = Creation(filled: State, addr: u64, frame: FrameNumber, before: State)

  /** The entry of the structure's page. */
  ghost function StructureEntry(c: Creation): u64 {
    EntryWord(c.frame * 4096, 3)
  }

  ghost predicate CreatesContext(s: State, current: nat, start: nat, limit: nat, c: Creation, root: nat, s': State) {
    && FillsLowestHole(s, c.filled, current, start, limit, c.addr, 1, [StructureEntry(c)], LinkFlags(false), {c.frame})
    && root !in c.filled.used && c.before == c.filled.(used := c.filled.used + {root})
    && CanBeContext(c.before, root) && c.before.kernelPdpt < MAX_FRAMES
    && s' == NewContext(c.before, root)
  }

  /** Every context survives, and translates every page but the structure's as before, stale words or not. */
  lemma CreationKeeps(s: State, current: nat, start: nat, limit: nat, c: Creation, root: nat, s': State)
    requires Sound(s) && CreatesContext(s, current, start, limit, c, root, s')
    ensures s.used <= s'.used && root !in s.used && IsRoot(s', root)
    ensures forall r | IsRoot(s, r) :: IsRoot(s', r)
    ensures forall r, q | IsRoot(s, r) && 0 <= q < PAGES && (c.addr != 0 ==> q != PageOf(c.addr)) ::
              Leaf(s'.mem, r, q) == Leaf(s.mem, r, q)
  {
    hide Sound, NoHoleBelow, IsHole, PathsExist, NewLinks, NewTables, OnlyTables, PageOf, Leaf, Node;
    forall r, q | IsRoot(s, r) && 0 <= q < PAGES && (c.addr != 0 ==> q != PageOf(c.addr))
      ensures Leaf(s'.mem, r, q) == Leaf(s.mem, r, q)
    {
      OtherContexts(c.before, root, r, q, 1);
      if c.addr != 0 {
        LastWriteOne(q, PageOf(c.addr), StructureEntry(c));
        assert Leaf(c.filled.mem, r, q) == NewLeaf(s, c.filled, current, PageOf(c.addr), [StructureEntry(c)], r, q);
      }
    }
  }

  /** The structure's frame was free, and is used for nothing else. */
  lemma StructureFresh(s: State, current: nat, start: nat, limit: nat, c: Creation, root: nat, s': State)
    requires Sound(s) && CreatesContext(s, current, start, limit, c, root, s') && c.addr != 0
    ensures c.frame !in s.used && c.frame in s'.used && c.frame !in s'.tags && c.frame != root
  {
    hide Sound, Keeps, NoHoleBelow, IsHole, PathsExist, NewLinks, NewTables, OnlyTables, PageOf, Leaf, Node, Translates;
    assert c.frame in c.filled.used;
  }

  /** The state after the structure's page is mapped. */
  lemma FilledKeeps(s: State, current: nat, start: nat, limit: nat, c: Creation, r: nat)
    requires Sound(s) && IsRoot(s, r)
    requires FillsLowestHole(s, c.filled, current, start, limit, c.addr, 1, [StructureEntry(c)], LinkFlags(false),
                             {c.frame})
    ensures Sound(c.filled) && IsRoot(c.filled, r)
  {
    hide Sound, NoHoleBelow, IsHole, PathsExist, NewLinks, NewTables, OnlyTables, PageOf, Leaf, Node, Translates;
  }

  /** The unused kernel PDPT is still unused when the frame for the new PML4 has been taken. */
  lemma CreationStaysUnused(s: State, boot: nat, start: nat, limit: nat, c: Creation, root: nat, s': State)
    requires Sound(s) && KernelPdptUnused(s, boot) && CreatesContext(s, boot, start, limit, c, root, s')
    ensures KernelPdptUnused(c.before, boot)
  {
    hide Grows, Translates, NoHoleBelow, IsHole, PathsExist;
    if c.addr != 0 {
      StaysUnused(s, c.filled, boot, RangePages(PageOf(c.addr), |[StructureEntry(c)]|), LinkFlags(false), {c.frame});
    }
  }

  /**
    Boot, then a new context: it translates nothing, so it agrees with the boot context at exactly
    the pages that the boot context does not map.
   */
  lemma AgreesWithBootIff(s: State, boot: nat, start: nat, limit: nat, c: Creation, root: nat, s': State, q: nat)
    requires Sound(s) && KernelPdptUnused(s, boot) && CreatesContext(s, boot, start, limit, c, root, s')
    requires ZeroBelowLast(c.before.mem[root]) && q < PAGES
    ensures Leaf(s'.mem, root, q) == 0
    ensures Leaf(s'.mem, root, q) == Leaf(s'.mem, boot, q)
            <==> Leaf(s.mem, boot, q) == 0 && !(c.addr != 0 && q == PageOf(c.addr))
  {
    hide Sound, NoHoleBelow, IsHole, PathsExist, Grows, PageOf, Leaf, Node, ZeroBelowLast;
    CreationStaysUnused(s, boot, start, limit, c, root, s');
    NewContextIsEmpty(c.before, root, boot, q);
    OtherContexts(c.before, root, boot, q, 1);
    if c.addr != 0 {
      StructurePage(s, boot, start, limit, c, q);
    }
  }

  /** The page of the structure gets its entry, and every other page of the current context keeps its own. */
  lemma StructurePage(s: State, current: nat, start: nat, limit: nat, c: Creation, q: nat)
    requires IsRoot(s, current) && q < PAGES && c.addr != 0
    requires FillsLowestHole(s, c.filled, current, start, limit, c.addr, 1, [StructureEntry(c)], LinkFlags(false),
                             {c.frame})
    ensures Leaf(c.filled.mem, current, q) == if q == PageOf(c.addr) then StructureEntry(c) else Leaf(s.mem, current, q)
    ensures StructureEntry(c) != 0
  {
    hide Sound, NoHoleBelow, IsHole, PathsExist, Grows, PageOf, Leaf, Node;
    LastWriteOne(q, PageOf(c.addr), StructureEntry(c));
    OwnTranslation(s, c.filled, current, PageOf(c.addr), [StructureEntry(c)], q);
    EntryIsSum(c.frame * 4096, 3);
  }

  /** A frame that reads as zero while it is free is still zero when it becomes a PML4. */
  lemma FreshRootIsZero(s: State, current: nat, start: nat, limit: nat, c: Creation, root: nat, s': State)
    requires Sound(s) && FreeFramesZero(s) && CreatesContext(s, current, start, limit, c, root, s')
    ensures ZeroBelowLast(c.before.mem[root]) && Sound(s')
  {
    NewContextSoundIff(c.before, root);
  }

  /** Memory that no one uses reads as zero. */
  ghost predicate FreeFramesZero(s: State) {
    forall f: nat | f < |s.mem| && f !in s.used :: s.mem[f] == ZeroFrame()
  }

  /**
    Against a context that shares the kernel slot, a new one agrees at the pages of that slot and
    where nothing is mapped.
   */
  lemma AgreesWithSharerIff(s: State, root: nat, r: nat, q: nat)
    requires CanBeContext(s, root) && ZeroBelowLast(s.mem[root]) && q < PAGES && SharesKernelSlot(s, r)
    ensures s.kernelPdpt < MAX_FRAMES
    ensures Leaf(NewContext(s, root).mem, root, q) == Leaf(NewContext(s, root).mem, r, q)
            <==> Index(q, 4) == 511 || Leaf(s.mem, r, q) == 0
  {
    hide Leaf, Node, Sound, ZeroBelowLast;
    KernelLink(s);
    NewContextTranslation(s, root, r, q);
    OtherContexts(s, root, r, q, 1);
  }
}
