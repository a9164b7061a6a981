/**
  Four-level page tables in physical memory, as plain values.

  Physical memory is a sequence of frames of 512 words. A page is named by bits 12-47 of
  its address. `Node` and `Leaf` follow the tables from a root exactly as the kernel's
  lookup does; `Sound` is the invariant that makes the tables a tree.
 */
module PageTables {
  import opened Bits
  import opened Options

  const ENTRIES: nat := 512
  const PAGES: nat := 0x10_0000_0000
  const MAX_FRAMES: nat := 0x100_0000_0000
  const ENTRY_PHYS_ADDR_MASK: u64 := 0x1f_ffff_ffff_f000

  const VF_PRESENT: u64 := 1
  const VF_WRITABLE: u64 := 2
  const VF_USER: u64 := 4
  const VF_BIG_PAGE: u64 := 0x80

  type Frame = s: seq<u64> | |s| == ENTRIES witness seq(ENTRIES, _ => 0)
  type Memory = seq<Frame>

  type FrameNumber = f: nat | f < MAX_FRAMES

  function ZeroFrame(): Frame {
    seq(ENTRIES, _ => 0)
  }

  /** The page an address lies in: address bits 48-63 are ignored. */
  function PageOf(va: int): (p: nat)
    ensures p < PAGES
  {
    va / 4096 % PAGES
  }

  /** The page number without its last `level` indices. */
  function Prefix(page: nat, level: nat): nat {
    if level == 0 then page else Prefix(page, level - 1) / 512
  }

  /** The index a page uses in its table of the given level (4 is the PML4, 1 the page table). */
  function Index(page: nat, level: nat): (i: nat)
    requires level > 0
    ensures i < ENTRIES
  {
    Prefix(page, level - 1) % 512
  }

  lemma PrefixStep(page: nat, level: nat)
    requires level > 0
    ensures Prefix(page, level - 1) == Prefix(page, level) * 512 + Index(page, level)
  {}

  lemma PrefixTop(page: nat)
    requires page < PAGES
    ensures Prefix(page, 4) == 0
  {
    assert Prefix(page, 1) < 0x800_0000;
    assert Prefix(page, 2) < 0x4_0000;
    assert Prefix(page, 3) < 512;
  }

  /** The frame an entry points to: the bits under ENTRY_PHYS_ADDR_MASK. */
  function FrameOf(entry: u64): nat {
    entry / 4096 % 0x200_0000_0000
  }

  /** Storing word `w` in slot `i` of frame `f`. */
  function Store(m: Memory, f: nat, i: nat, w: u64): (m': Memory)
    requires f < |m| && i < ENTRIES
    ensures |m'| == |m|
  {
    m[f := m[f][i := w]]
  }

  /** The table of the given level on a page's path from `root`, if it exists. */
  function Node(m: Memory, root: nat, page: nat, level: nat): (r: Option<nat>)
    ensures r.Some? ==> r.value < |m|
    decreases 4 - level
  {
    if level >= 4 then
      if root < |m| then Some(root) else None
    else
      match Node(m, root, page, level + 1)
      case None => None
      case Some(f) =>
        var e := m[f][Index(page, level + 1)];
        if e == 0 || FrameOf(e) >= |m| then None else Some(FrameOf(e))
  }

  /** The page-table entry of a page; 0 also when no page table exists for it. */
  function Leaf(m: Memory, root: nat, page: nat): u64 {
    match Node(m, root, page, 1)
    case None => 0
    case Some(f) => m[f][Index(page, 1)]
  }

  // ---------------------------------------------------------------- the tree invariant

  datatype Owner = Context(root: nat) | Kernel

  /** What a table frame is: which context it belongs to, its level, and the prefix of the pages below it. */
  datatype Tag = Tag(owner: Owner, level: nat, prefix: nat)

  /** Memory, the tags of its table frames, the used frames, and the PDPT shared by all new contexts. */
  datatype State = State(mem: Memory, tags: map<nat, Tag>, used: set<nat>, kernelPdpt: nat)

  ghost predicate IsChild(parent: Tag, i: nat, child: Tag) {
    && child.level + 1 == parent.level
    && child.prefix == parent.prefix * 512 + i
    && (child.owner == parent.owner || (child.owner == Kernel && parent.level == 4 && i == 511))
  }

  ghost predicate GoodTag(s: State, f: nat, tag: Tag) {
    && f < |s.mem| && f in s.used
    && 1 <= tag.level <= 4
    && (tag.level == 4 ==> tag == Tag(Context(f), 4, 0))
    && (tag.level == 3 && tag.owner == Kernel ==> f == s.kernelPdpt)
    && (tag.owner.Context? ==> tag.owner.root in s.tags)
  }

  ghost predicate GoodLink(tags: map<nat, Tag>, parent: Tag, i: nat, entry: u64) {
    && FrameOf(entry) in tags
    && IsChild(parent, i, tags[FrameOf(entry)])
    && TestBit(entry, 0) && TestBit(entry, 1) && !TestBit(entry, 7)
  }

  ghost predicate GoodLinks(s: State, f: nat)
    requires f in s.tags && f < |s.mem|
  {
    forall i | 0 <= i < ENTRIES && s.mem[f][i] != 0 :: GoodLink(s.tags, s.tags[f], i, s.mem[f][i])
  }

  /**
    Every nonzero entry above the page tables is present and writable, does not map a big page, and
    points to a used table frame tagged as its child. Tags fix level and prefix, so no table is reached by
    two paths of a context, and none is its own ancestor.
   */
  ghost predicate Sound(s: State) {
    && |s.mem| <= MAX_FRAMES
    && (forall f | f in s.tags :: GoodTag(s, f, s.tags[f]))
    && (forall f | f in s.tags && s.tags[f].level > 1 :: GoodLinks(s, f))
  }

  ghost predicate IsRoot(s: State, root: nat) {
    root in s.tags && s.tags[root].level == 4
  }

  /** The tables reached from a root carry the tag of the path they are reached by. */
  lemma {:induction false} NodeTag(s: State, root: nat, page: nat, level: nat)
    requires Sound(s) && IsRoot(s, root) && page < PAGES && 1 <= level <= 4
    ensures Node(s.mem, root, page, level).Some? ==>
              var f := Node(s.mem, root, page, level).value;
              && f in s.tags && s.tags[f].level == level && s.tags[f].prefix == Prefix(page, level)
              && (s.tags[f].owner == Context(root)
                  || (s.tags[f].owner == Kernel && level <= 3 && Index(page, 4) == 511
                      && Node(s.mem, root, page, 3) == Some(s.kernelPdpt)))
    decreases 4 - level
  {
    assert GoodTag(s, root, s.tags[root]);
    if level == 4 {
      PrefixTop(page);
    } else {
      NodeTag(s, root, page, level + 1);
      if Node(s.mem, root, page, level).Some? {
        var f := Node(s.mem, root, page, level + 1).value;
        assert GoodLinks(s, f);
        PrefixStep(page, level + 1);
        var e := s.mem[f][Index(page, level + 1)];
        assert GoodLink(s.tags, s.tags[f], Index(page, level + 1), e);
        assert GoodTag(s, FrameOf(e), s.tags[FrameOf(e)]);
      }
    }
  }

  /** One step of the walk in sound tables: the entry is empty, or it is a link to the next node. */
  lemma WalkStep(s: State, root: nat, page: nat, level: nat)
    requires Sound(s) && IsRoot(s, root) && page < PAGES && 2 <= level <= 4
    requires Node(s.mem, root, page, level).Some?
    ensures var f := Node(s.mem, root, page, level).value;
            var e := s.mem[f][Index(page, level)];
            && f in s.tags && s.tags[f].level == level
            && (e == 0 ==> Node(s.mem, root, page, level - 1) == None)
            && (e != 0 ==>
                  && Node(s.mem, root, page, level - 1) == Some(FrameOf(e)) && FrameOf(e) < |s.mem|
                  && TestBit(e, 0) && TestBit(e, 1) && !TestBit(e, 7))
  {
    NodeTag(s, root, page, level);
    var f := Node(s.mem, root, page, level).value;
    var e := s.mem[f][Index(page, level)];
    assert GoodLinks(s, f);
    if e != 0 {
      assert GoodLink(s.tags, s.tags[f], Index(page, level), e);
      assert GoodTag(s, FrameOf(e), s.tags[FrameOf(e)]);
    }
  }

  lemma RootIsNode(s: State, root: nat, page: nat)
    requires Sound(s) && IsRoot(s, root)
    ensures Node(s.mem, root, page, 4) == Some(root)
  {
    assert GoodTag(s, root, s.tags[root]);
  }
}
