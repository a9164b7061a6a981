/**
  4-level paging as the processor does it (section 4.5 of the Intel SDM, Volume 3A), with the
  access rights of section 4.6, and its agreement with the kernel's lookup in sound tables.
 */
module Hardware {
  import opened Bits
  import opened Options
  import opened PageTables

  /** Where an access goes and which rights all entries on its path grant. */
  datatype Access = Fault | Mapped(addr: nat, writable: bool, user: bool)

  predicate IsCanonical(va: u64) {
    va < 0x8000_0000_0000 || va >= 0xffff_8000_0000_0000
  }

  /** Bits 51:12 of an entry: the processor ignores bit 52. */
  function HwFrame(entry: u64): nat {
    entry / 4096 % 0x100_0000_0000
  }

  predicate Present(e: u64) { TestBit(e, 0) }

  predicate Writable(e: u64) { TestBit(e, 1) }

  predicate User(e: u64) { TestBit(e, 2) }

  /** Bit 7: PS above the page tables, PAT in a page table. */
  predicate PageSize(e: u64) { TestBit(e, 7) }

  /** The entry a page uses in the table of the given level at frame `f`. */
  function EntryAt(m: Memory, f: nat, page: nat, level: nat): u64
    requires level > 0
  {
    if f < |m| then m[f][Index(page, level)] else 0
  }

  /** The walk from the table at frame `f`; `w` and `u` are the rights granted so far. */
  function Walk(m: Memory, f: nat, va: u64, level: nat, w: bool, u: bool): Access
    requires 1 <= level <= 4
    decreases level
  {
    var e := EntryAt(m, f, PageOf(va), level);
    var w', u' := w && Writable(e), u && User(e);
    if !Present(e) then Fault
    else if level == 1 then Mapped(HwFrame(e) * 4096 + va % 4096, w', u')
    else if !PageSize(e) then Walk(m, HwFrame(e), va, level - 1, w', u')
    else if level == 2 then Mapped(HwFrame(e) / 0x200 * 0x20_0000 + va % 0x20_0000, w', u')
    else if level == 3 then Mapped(HwFrame(e) / 0x4_0000 * 0x4000_0000 + va % 0x4000_0000, w', u')
    else Fault
  }

  /** What an access to `va` does when CR3 holds the address of frame `root`. */
  function Translate(m: Memory, root: nat, va: u64): Access {
    if IsCanonical(va) then Walk(m, root, va, 4, true, true) else Fault
  }

  /** A link that exists on the page's path at this level is open to user mode. */
  ghost predicate LinkOpen(m: Memory, root: nat, page: nat, level: nat)
    requires level > 0
  {
    match Node(m, root, page, level)
    case None => true
    case Some(f) => m[f][Index(page, level)] != 0 ==> User(m[f][Index(page, level)])
  }

  /** Every link that exists on the page's path is open to user mode. */
  ghost predicate PathOpen(m: Memory, root: nat, page: nat) {
    forall level | 2 <= level <= 4 :: LinkOpen(m, root, page, level)
  }

  /** The links the walk has followed when it reaches `level` are open to user mode. */
  ghost predicate OpenTo(m: Memory, root: nat, page: nat, level: nat)
    decreases 4 - level
  {
    level < 4 ==> LinkOpen(m, root, page, level + 1) && OpenTo(m, root, page, level + 1)
  }

  lemma OpenToAll(m: Memory, root: nat, page: nat)
    ensures OpenTo(m, root, page, 1) == PathOpen(m, root, page)
  {
    hide LinkOpen;
    assert OpenTo(m, root, page, 4);
    assert OpenTo(m, root, page, 3) == LinkOpen(m, root, page, 4);
    assert OpenTo(m, root, page, 2) == (LinkOpen(m, root, page, 3) && OpenTo(m, root, page, 3));
    assert OpenTo(m, root, page, 1) == (LinkOpen(m, root, page, 2) && OpenTo(m, root, page, 2));
  }

  /** The processor and the kernel's masks read the same frame unless bit 52 is set. */
  lemma MaskBit52(e: u64)
    ensures FrameOf(e) == HwFrame(e) <==> e / 0x10_0000_0000_0000 % 2 == 0
  {
    var x := e / 4096;
    assert x % 0x200_0000_0000 == x / 0x100_0000_0000 % 2 * 0x100_0000_0000 + x % 0x100_0000_0000;
    assert e / 0x10_0000_0000_0000 == x / 0x100_0000_0000;
  }

  /** In sound tables the processor's walk goes through the kernel's nodes, all of whose links are writable. */
  lemma {:induction false} WalkFollowsNodes(s: State, root: nat, va: u64, level: nat)
    requires Sound(s) && IsRoot(s, root) && 1 <= level <= 4
    ensures match Node(s.mem, root, PageOf(va), level)
            case None => Walk(s.mem, root, va, 4, true, true) == Fault
            case Some(f) =>
              Walk(s.mem, root, va, 4, true, true)
              == Walk(s.mem, f, va, level, true, OpenTo(s.mem, root, PageOf(va), level))
    decreases 4 - level
  {
    hide Sound, TestBit, HwFrame, FrameOf, PageOf, Walk;
    if level == 4 {
      RootIsNode(s, root, PageOf(va));
    } else {
      WalkFollowsNodes(s, root, va, level + 1);
      if Node(s.mem, root, PageOf(va), level + 1).Some? {
        WalkStep(s, root, PageOf(va), level + 1);
        WalkDown(s, root, va, level + 1, OpenTo(s.mem, root, PageOf(va), level + 1));
      }
    }
  }

  /** One step of the processor's walk, from a node of sound tables. */
  lemma WalkDown(s: State, root: nat, va: u64, level: nat, u: bool)
    requires Sound(s) && IsRoot(s, root) && 2 <= level <= 4 && Node(s.mem, root, PageOf(va), level).Some?
    ensures var f := Node(s.mem, root, PageOf(va), level).value;
            var e := s.mem[f][Index(PageOf(va), level)];
            Walk(s.mem, f, va, level, true, u)
            == if e == 0 then Fault else Walk(s.mem, FrameOf(e), va, level - 1, true, u && User(e))
  {
    hide Sound, HwFrame, FrameOf, PageOf;
    LinkPresent(s, root, PageOf(va), level);
    ZeroTest(0);
  }

  lemma LinkPresent(s: State, root: nat, page: nat, level: nat)
    requires Sound(s) && IsRoot(s, root) && page < PAGES && 2 <= level <= 4
    requires Node(s.mem, root, page, level).Some?
    ensures var e := s.mem[Node(s.mem, root, page, level).value][Index(page, level)];
            e != 0 ==> Present(e) && Writable(e) && !PageSize(e) && HwFrame(e) == FrameOf(e)
  {
    hide FrameOf, HwFrame, TestBit, Prefix;
    WalkStep(s, root, page, level);
    var e := s.mem[Node(s.mem, root, page, level).value][Index(page, level)];
    if e != 0 {
      assert |s.mem| <= MAX_FRAMES;
      SmallFrame(e);
    }
  }

  lemma SmallFrame(e: u64)
    requires FrameOf(e) < MAX_FRAMES
    ensures HwFrame(e) == FrameOf(e)
  {
    MaskBit52(e);
  }

  /**
    The kernel's tables mean to the processor what the lookup says: a canonical address is
    mapped exactly when its page-table entry is present, to that entry's frame; it is writable
    exactly when that entry is, and open to user mode exactly when the whole path is.
   */
  lemma TranslateIsLeaf(s: State, root: nat, va: u64)
    requires Sound(s) && IsRoot(s, root) && IsCanonical(va)
    ensures var leaf := Leaf(s.mem, root, PageOf(va));
            Translate(s.mem, root, va)
            == if Present(leaf)
               then Mapped(HwFrame(leaf) * 4096 + va % 4096, Writable(leaf),
                           User(leaf) && PathOpen(s.mem, root, PageOf(va)))
               else Fault
  {
    hide Sound, HwFrame, FrameOf, PageOf, PathOpen;
    WalkFollowsNodes(s, root, va, 1);
    OpenToAll(s.mem, root, PageOf(va));
    ZeroTest(0);
  }
}
