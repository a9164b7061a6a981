/**
  The two ways the kernel edits page tables: storing a page-table entry, and linking a
  freshly cleared table into an empty slot. Each is described by what every context's
  translation is afterwards.
 */
module TableEdits {
  import opened Bits
  import opened Options
  import opened PageTables

  /** Nodes depend only on the tables above them. */
  lemma {:induction false} NodeAgrees(s: State, m: Memory, root: nat, page: nat, level: nat)
    requires Sound(s) && IsRoot(s, root) && page < PAGES && 1 <= level <= 4
    requires |m| == |s.mem|
    requires forall f | f in s.tags && s.tags[f].level > level :: f < |m| && m[f] == s.mem[f]
    ensures Node(m, root, page, level) == Node(s.mem, root, page, level)
    decreases 4 - level
  {
    hide Sound, Index;
    if level < 4 {
      NodeAgrees(s, m, root, page, level + 1);
      NodeTag(s, root, page, level + 1);
      SameStep(s.mem, m, root, page, level);
    } else {
      RootIsNode(s, root, page);
    }
  }

  /** In one context, a table slot belongs to one page only. */
  lemma SlotIsUnique(s: State, root: nat, root': nat, p: nat, q: nat)
    requires Sound(s) && IsRoot(s, root) && IsRoot(s, root') && p < PAGES && q < PAGES
    requires Node(s.mem, root, p, 1).Some? && Node(s.mem, root, p, 1) == Node(s.mem, root', q, 1)
    requires Index(p, 1) == Index(q, 1)
    ensures p == q
  {
    NodeTag(s, root, p, 1);
    NodeTag(s, root', q, 1);
    PrefixStep(p, 1);
    PrefixStep(q, 1);
    assert Prefix(p, 0) == p && Prefix(q, 0) == q;
  }

  /** Two contexts are joined at a page when its PML4 slot leads both to the same PDPT. */
  ghost predicate Joined(m: Memory, root: nat, root': nat, page: nat) {
    Node(m, root, page, 3) == Node(m, root', page, 3)
  }

  /** Joined contexts walk the same tables below, so they translate the page alike. */
  lemma {:induction false} JoinedWalk(m: Memory, root: nat, root': nat, page: nat, level: nat)
    requires 1 <= level <= 3 && Joined(m, root, root', page)
    ensures Node(m, root, page, level) == Node(m, root', page, level)
    ensures level == 1 ==> Leaf(m, root, page) == Leaf(m, root', page)
    decreases 3 - level
  {
    if level < 3 {
      JoinedWalk(m, root, root', page, level + 1);
    }
  }

  /** Contexts that reach the same page table are joined. */
  lemma SharedTableJoins(s: State, root: nat, root': nat, page: nat)
    requires Sound(s) && IsRoot(s, root) && IsRoot(s, root') && page < PAGES
    requires Node(s.mem, root, page, 1).Some? && Node(s.mem, root, page, 1) == Node(s.mem, root', page, 1)
    ensures Joined(s.mem, root, root', page)
  {
    NodeTag(s, root, page, 1);
    NodeTag(s, root', page, 1);
  }

  // ---------------------------------------------------------------- storing an entry

  /** The state after `*entry = w` through the slot of `page` in context `root`. */
  ghost function SetLeaf(s: State, root: nat, page: nat, w: u64): State
    requires Node(s.mem, root, page, 1).Some?
  {
    s.(mem := Store(s.mem, Node(s.mem, root, page, 1).value, Index(page, 1), w))
  }

  lemma SetLeafSound(s: State, root: nat, page: nat, w: u64)
    requires Sound(s) && IsRoot(s, root) && page < PAGES && Node(s.mem, root, page, 1).Some?
    ensures Sound(SetLeaf(s, root, page, w))
  {
    var s' := SetLeaf(s, root, page, w);
    NodeTag(s, root, page, 1);
    forall f | f in s'.tags ensures GoodTag(s', f, s'.tags[f]) {
      assert GoodTag(s, f, s.tags[f]);
    }
    forall f | f in s'.tags && s'.tags[f].level > 1 ensures GoodLinks(s', f) {
      assert GoodLinks(s, f);
    }
  }

  lemma SetLeafNodes(s: State, root: nat, page: nat, w: u64, r: nat, q: nat, level: nat)
    requires Sound(s) && IsRoot(s, root) && page < PAGES && Node(s.mem, root, page, 1).Some?
    requires IsRoot(s, r) && q < PAGES && 1 <= level <= 4
    ensures Node(SetLeaf(s, root, page, w).mem, r, q, level) == Node(s.mem, r, q, level)
  {
    NodeTag(s, root, page, 1);
    forall f | f in s.tags && s.tags[f].level > level
      ensures f < |s.mem| && SetLeaf(s, root, page, w).mem[f] == s.mem[f]
    {
      assert GoodTag(s, f, s.tags[f]);
    }
    NodeAgrees(s, SetLeaf(s, root, page, w).mem, r, q, level);
  }

  /**
    Storing an entry changes the translation of exactly one page, in exactly the contexts that
    share the page's PDPT.
   */
  lemma SetLeafEffect(s: State, root: nat, page: nat, w: u64, r: nat, q: nat)
    requires Sound(s) && IsRoot(s, root) && page < PAGES && Node(s.mem, root, page, 1).Some?
    requires IsRoot(s, r) && q < PAGES
    ensures Leaf(SetLeaf(s, root, page, w).mem, r, q)
            == if q == page && Joined(s.mem, r, root, page) then w else Leaf(s.mem, r, q)
  {
    SetLeafNodes(s, root, page, w, r, q, 1);
    if q == page && Joined(s.mem, r, root, page) {
      JoinedWalk(s.mem, r, root, page, 1);
    } else if Node(s.mem, r, q, 1) == Node(s.mem, root, page, 1) && Index(q, 1) == Index(page, 1) {
      SlotIsUnique(s, r, root, q, page);
      SharedTableJoins(s, r, root, page);
    }
  }

  // ---------------------------------------------------------------- linking a new table

  /** The tag of the table that slot `i` of table `f` leads to when it is created there. */
  ghost function ChildTag(s: State, f: nat, i: nat): Tag
    requires f in s.tags && s.tags[f].level > 0
  {
    Tag(s.tags[f].owner, s.tags[f].level - 1, s.tags[f].prefix * 512 + i)
  }

  /** Slot `i` of table `f` is empty and frame `g` is free for a new table. */
  ghost predicate CanLink(s: State, f: nat, i: nat, g: nat) {
    && f in s.tags && f < |s.mem| && s.tags[f].level > 1
    && i < ENTRIES && s.mem[f][i] == 0
    && g !in s.used && g < |s.mem| && g < MAX_FRAMES
  }

  ghost predicate TableFlags(fl: u64) {
    fl < 4096 && TestBit(fl, 0) && TestBit(fl, 1) && !TestBit(fl, 7)
  }

  /** The state after the cleared frame `g` is linked into slot `i` of table `f`. */
  ghost function LinkTable(s: State, f: nat, i: nat, g: nat, fl: u64): State
    requires CanLink(s, f, i, g) && fl < 4096
  {
    State(Store(s.mem[g := ZeroFrame()], f, i, g * 4096 + fl),
          s.tags[g := ChildTag(s, f, i)], s.used + {g}, s.kernelPdpt)
  }

  lemma PackedFrame(g: nat, fl: nat)
    requires g < MAX_FRAMES && fl < 4096
    ensures FrameOf(g * 4096 + fl) == g
  {}

  lemma EntryFields(g: nat, fl: nat)
    requires g < MAX_FRAMES && fl < 4096
    ensures FrameOf(g * 4096 + fl) == g
    ensures forall k | 0 <= k < 12 :: TestBit(g * 4096 + fl, k) == TestBit(fl, k)
  {
    forall k | 0 <= k < 12 ensures TestBit(g * 4096 + fl, k) == TestBit(fl, k) {
      LowBits(g, fl, 12, k);
    }
  }

  lemma {:induction false} LowBits(g: nat, fl: nat, n: nat, k: nat)
    requires k < n
    ensures TestBit(g * Pow2(n) + fl, k) == TestBit(fl, k)
    decreases n
  {
    Doubling(g, Pow2(n - 1));
    if k > 0 {
      LowBits(g, fl / 2, n - 1, k - 1);
      assert (g * Pow2(n) + fl) / 2 == g * Pow2(n - 1) + fl / 2;
    }
  }

  lemma LinkTableSound(s: State, f: nat, i: nat, g: nat, fl: u64)
    requires Sound(s) && CanLink(s, f, i, g) && TableFlags(fl)
    ensures Sound(LinkTable(s, f, i, g, fl))
  {
    var s' := LinkTable(s, f, i, g, fl);
    EntryFields(g, fl);
    assert GoodTag(s, f, s.tags[f]);
    forall h | h in s'.tags ensures GoodTag(s', h, s'.tags[h]) {
      if h != g {
        assert GoodTag(s, h, s.tags[h]);
      }
    }
    forall h | h in s'.tags && s'.tags[h].level > 1 ensures GoodLinks(s', h) {
      LinkTableLinks(s, f, i, g, fl, h);
    }
  }

  lemma LinkTableLinks(s: State, f: nat, i: nat, g: nat, fl: u64, h: nat)
    requires Sound(s) && CanLink(s, f, i, g) && TableFlags(fl)
    requires var s' := LinkTable(s, f, i, g, fl); h in s'.tags && s'.tags[h].level > 1 && h < |s'.mem|
    ensures GoodLinks(LinkTable(s, f, i, g, fl), h)
  {
    var s' := LinkTable(s, f, i, g, fl);
    if h != g {
      assert GoodTag(s, h, s.tags[h]);
      assert GoodLinks(s, h);
      forall j | 0 <= j < ENTRIES && s'.mem[h][j] != 0
        ensures GoodLink(s'.tags, s'.tags[h], j, s'.mem[h][j])
      {
        if h == f && j == i {
          EntryFields(g, fl);
        } else {
          var e := s.mem[h][j];
          assert GoodLink(s.tags, s.tags[h], j, e);
          assert GoodTag(s, FrameOf(e), s.tags[FrameOf(e)]);
        }
      }
    }
  }

  /** The slot (f, i) is the one page `q` uses at the level of `f` in context `r`. */
  ghost predicate Through(s: State, f: nat, i: nat, r: nat, q: nat)
    requires f in s.tags && s.tags[f].level > 0
  {
    Node(s.mem, r, q, s.tags[f].level) == Some(f) && Index(q, s.tags[f].level) == i
  }

  /**
    A linked table becomes the next node of the pages whose path ends at its slot; every
    other node of every page stays what it was.
   */
  lemma {:induction false} LinkTableNodes(s: State, f: nat, i: nat, g: nat, fl: u64, r: nat, q: nat, level: nat)
    requires Sound(s) && CanLink(s, f, i, g) && TableFlags(fl)
    requires IsRoot(s, r) && q < PAGES && 1 <= level <= 4
    ensures var s' := LinkTable(s, f, i, g, fl);
            if level == s.tags[f].level - 1 && Through(s, f, i, r, q)
            then Node(s.mem, r, q, level) == None && Node(s'.mem, r, q, level) == Some(g)
            else Node(s'.mem, r, q, level) == Node(s.mem, r, q, level)
    decreases 4 - level
  {
    assert GoodTag(s, f, s.tags[f]);
    hide Sound, Index, Node;
    if level >= s.tags[f].level {
      LinkTableAbove(s, f, i, g, fl, r, q, level);
    } else if level == s.tags[f].level - 1 {
      LinkTableChild(s, f, i, g, fl, r, q);
    } else {
      LinkTableNodes(s, f, i, g, fl, r, q, level + 1);
      LinkTableBelow(s, f, i, g, fl, r, q, level);
    }
  }

  lemma LinkTableBelow(s: State, f: nat, i: nat, g: nat, fl: u64, r: nat, q: nat, level: nat)
    requires Sound(s) && CanLink(s, f, i, g) && TableFlags(fl) && IsRoot(s, r) && q < PAGES
    requires 1 <= level <= 4 && level + 1 < s.tags[f].level
    requires var m := LinkTable(s, f, i, g, fl).mem;
             if level + 1 == s.tags[f].level - 1 && Through(s, f, i, r, q)
             then Node(s.mem, r, q, level + 1) == None && Node(m, r, q, level + 1) == Some(g)
             else Node(m, r, q, level + 1) == Node(s.mem, r, q, level + 1)
    ensures Node(LinkTable(s, f, i, g, fl).mem, r, q, level) == Node(s.mem, r, q, level)
  {
    var m := LinkTable(s, f, i, g, fl).mem;
    if level + 1 == s.tags[f].level - 1 && Through(s, f, i, r, q) {
      NewTableCleared(s, f, i, g, fl);
      ClearedNode(m, r, q, level, g);
    } else {
      if Node(s.mem, r, q, level + 1).Some? {
        NodeTag(s, r, q, level + 1);
        LinkTableWord(s, f, i, g, fl, Node(s.mem, r, q, level + 1).value, Index(q, level + 1));
      }
      hide Sound, Index, TableFlags, TestBit;
      SameStep(s.mem, m, r, q, level);
    }
  }

  lemma NewTableCleared(s: State, f: nat, i: nat, g: nat, fl: u64)
    requires Sound(s) && CanLink(s, f, i, g) && fl < 4096
    ensures g < |LinkTable(s, f, i, g, fl).mem| && LinkTable(s, f, i, g, fl).mem[g] == ZeroFrame()
  {
    assert GoodTag(s, f, s.tags[f]);
  }

  /** A step of the walk from the same table through the same word leads to the same node. */
  lemma SameStep(m: Memory, m': Memory, r: nat, q: nat, level: nat)
    requires 1 <= level < 4 && |m'| == |m| && Node(m', r, q, level + 1) == Node(m, r, q, level + 1)
    requires Node(m, r, q, level + 1).Some? ==>
               var f := Node(m, r, q, level + 1).value; m'[f][Index(q, level + 1)] == m[f][Index(q, level + 1)]
    ensures Node(m', r, q, level) == Node(m, r, q, level)
  {}

  /** Nothing is reached through a cleared table. */
  lemma ClearedNode(m: Memory, r: nat, q: nat, level: nat, g: nat)
    requires 1 <= level < 4 && Node(m, r, q, level + 1) == Some(g) && g < |m| && m[g] == ZeroFrame()
    ensures Node(m, r, q, level) == None && Node(m, r, q, level + 1).Some?
  {}

  lemma LinkTableChild(s: State, f: nat, i: nat, g: nat, fl: u64, r: nat, q: nat)
    requires Sound(s) && CanLink(s, f, i, g) && TableFlags(fl) && IsRoot(s, r) && q < PAGES
    ensures var s', level := LinkTable(s, f, i, g, fl), s.tags[f].level - 1;
            if Through(s, f, i, r, q)
            then Node(s.mem, r, q, level) == None && Node(s'.mem, r, q, level) == Some(g)
            else Node(s'.mem, r, q, level) == Node(s.mem, r, q, level)
  {
    var level := s.tags[f].level;
    assert GoodTag(s, f, s.tags[f]);
    LinkTableAbove(s, f, i, g, fl, r, q, level);
    if Node(s.mem, r, q, level).Some? {
      NodeTag(s, r, q, level);
      LinkTableWord(s, f, i, g, fl, Node(s.mem, r, q, level).value, Index(q, level));
    }
  }

  lemma LinkTableWord(s: State, f: nat, i: nat, g: nat, fl: u64, h: nat, j: nat)
    requires Sound(s) && CanLink(s, f, i, g) && TableFlags(fl) && h in s.tags && h < |s.mem| && j < ENTRIES
    ensures var w := LinkTable(s, f, i, g, fl).mem[h][j];
            if h == f && j == i then w != 0 && FrameOf(w) == g else w == s.mem[h][j]
  {
    assert GoodTag(s, h, s.tags[h]);
    PackedFrame(g, fl);
  }

  lemma LinkTableAbove(s: State, f: nat, i: nat, g: nat, fl: u64, r: nat, q: nat, level: nat)
    requires Sound(s) && CanLink(s, f, i, g) && fl < 4096
    requires IsRoot(s, r) && q < PAGES && s.tags[f].level <= level <= 4
    ensures Node(LinkTable(s, f, i, g, fl).mem, r, q, level) == Node(s.mem, r, q, level)
  {
    var m := LinkTable(s, f, i, g, fl).mem;
    forall h | h in s.tags && s.tags[h].level > level ensures h < |m| && m[h] == s.mem[h] {
      assert GoodTag(s, h, s.tags[h]);
    }
    NodeAgrees(s, m, r, q, level);
  }

  /** Linking a cleared table changes no translation of any context. */
  lemma LinkTableLeaves(s: State, f: nat, i: nat, g: nat, fl: u64, r: nat, q: nat)
    requires Sound(s) && CanLink(s, f, i, g) && TableFlags(fl)
    requires IsRoot(s, r) && q < PAGES
    ensures Leaf(LinkTable(s, f, i, g, fl).mem, r, q) == Leaf(s.mem, r, q)
  {
    LinkTableNodes(s, f, i, g, fl, r, q, 1);
    NodeTag(s, r, q, 1);
    assert GoodTag(s, f, s.tags[f]);
  }
}
