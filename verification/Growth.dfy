/**
  How the tables of a context grow while a set of pages is being mapped: what is kept, which
  frames are taken, and where new tables may appear.
 */
module Growth {
  import opened Bits
  import opened Options
  import opened PageTables
  import opened TableEdits

  /** Frames, tables and links that existed before are still there. */
  ghost predicate Keeps(s: State, s': State) {
    && |s'.mem| == |s.mem| && s'.kernelPdpt == s.kernelPdpt
    && (forall f | f in s.tags :: f in s'.tags && s'.tags[f] == s.tags[f])
    && (forall f | f in s.tags && s.tags[f].level > 1 && f < |s.mem| :: KeepsLinks(s.mem[f], s'.mem[f]))
  }

  ghost predicate KeepsLinks(before: Frame, after: Frame) {
    forall i | 0 <= i < ENTRIES && before[i] != 0 :: after[i] == before[i]
  }

  /** The frames taken from the allocator: one for each new table, and the given data frames. */
  ghost predicate Takes(s: State, s': State, data: set<nat>) {
    && s'.used == s.used + s'.tags.Keys + data
    && (s'.tags.Keys - s.tags.Keys) !! s.used
    && data !! s.used && data !! s'.tags.Keys
  }

  /** Frames that hold no table keep their contents. */
  ghost predicate OnlyTables(s: State, s': State)
    requires |s.mem| == |s'.mem|
  {
    forall f: nat | f < |s.mem| && f !in s'.tags :: s'.mem[f] == s.mem[f]
  }

  ghost predicate OnPath(pages: set<nat>, prefix: nat, level: nat) {
    exists p :: p in pages && Prefix(p, level) == prefix
  }

  /** Table `f` is the node of one of the pages at its level. */
  ghost predicate IsNodeOf(s: State, root: nat, pages: set<nat>, f: nat)
    requires f in s.tags
  {
    exists p :: p in pages && p < PAGES && Node(s.mem, root, p, s.tags[f].level) == Some(f)
  }

  /** Slot `i` of table `f` holds a link that was not there before. */
  ghost predicate IsNewLink(s: State, s': State, f: nat, i: nat) {
    && f in s'.tags && f < |s'.mem| && s'.tags[f].level > 1 && i < ENTRIES && s'.mem[f][i] != 0
    && !(f in s.tags && f < |s.mem| && s.mem[f][i] != 0)
  }

  ghost predicate NewLinks(s: State, s': State, root: nat, pages: set<nat>, fl: u64) {
    forall f, i | IsNewLink(s, s', f, i) :: LinkFor(s, s', f, i, root, pages, fl)
  }

  /**
    The link carries the flags `fl`, leads to a new table on the path of one of the pages, and is
    in a table on the path of one, which the context owns or shares.
   */
  ghost predicate LinkFor(s: State, s': State, f: nat, i: nat, root: nat, pages: set<nat>, fl: u64)
    requires IsNewLink(s, s', f, i)
  {
    && s'.mem[f][i] % 4096 == fl && FrameOf(s'.mem[f][i]) !in s.tags
    && OnPath(pages, s'.tags[f].prefix * 512 + i, s'.tags[f].level - 1)
    && IsNodeOf(s', root, pages, f)
    && (s'.tags[f].owner == Context(root) || s'.tags[f].owner == Kernel)
  }

  ghost predicate NewTables(s: State, s': State, root: nat, pages: set<nat>) {
    forall g | g in s'.tags && g !in s.tags :: TableFor(s', g, root, pages)
  }

  /** Table `g` is the node of one of the pages, below the root. */
  ghost predicate TableFor(s: State, g: nat, root: nat, pages: set<nat>)
    requires g in s.tags
  {
    s.tags[g].level <= 3 && IsNodeOf(s, root, pages, g)
  }

  /** The table side of mapping `pages` in context `root`. */
  ghost predicate Grows(s: State, s': State, root: nat, pages: set<nat>, fl: u64, data: set<nat>) {
    && Keeps(s, s') && Takes(s, s', data) && OnlyTables(s, s')
    && NewLinks(s, s', root, pages, fl) && NewTables(s, s', root, pages)
  }

  ghost predicate SameTranslation(s: State, s': State) {
    forall r, q | IsRoot(s, r) && 0 <= q < PAGES :: Leaf(s'.mem, r, q) == Leaf(s.mem, r, q)
  }

  lemma GrowsRefl(s: State, root: nat, pages: set<nat>, fl: u64)
    requires Sound(s)
    ensures Grows(s, s, root, pages, fl, {})
  {
    TagsUsed(s);
  }

  /** Nodes that exist are kept. */
  lemma {:induction false} NodeKept(s: State, s': State, root: nat, page: nat, level: nat)
    requires Sound(s) && IsRoot(s, root) && page < PAGES && 1 <= level <= 4
    requires Keeps(s, s') && Node(s.mem, root, page, level).Some?
    ensures Node(s'.mem, root, page, level) == Node(s.mem, root, page, level)
    decreases 4 - level
  {
    if level < 4 {
      NodeKept(s, s', root, page, level + 1);
      NodeTag(s, root, page, level + 1);
      var f := Node(s.mem, root, page, level + 1).value;
      assert KeepsLinks(s.mem[f], s'.mem[f]);
    }
  }

  lemma KeepsTrans(s0: State, s1: State, s2: State)
    requires Sound(s0) && Keeps(s0, s1) && Keeps(s1, s2)
    ensures Keeps(s0, s2)
  {
    forall f | f in s0.tags && s0.tags[f].level > 1 && f < |s0.mem|
      ensures KeepsLinks(s0.mem[f], s2.mem[f])
    {
      assert KeepsLinks(s0.mem[f], s1.mem[f]) && KeepsLinks(s1.mem[f], s2.mem[f]);
    }
  }

  lemma TakesTrans(s0: State, s1: State, s2: State, data1: set<nat>, data2: set<nat>)
    requires Keeps(s0, s1) && Keeps(s1, s2) && Takes(s0, s1, data1) && Takes(s1, s2, data2)
    ensures Takes(s0, s2, data1 + data2)
  {
    assert s0.tags.Keys <= s1.tags.Keys <= s2.tags.Keys;
  }

  lemma NodeOfKept(s: State, s': State, root: nat, pages: set<nat>, f: nat)
    requires Sound(s) && IsRoot(s, root) && Keeps(s, s') && f in s.tags && IsNodeOf(s, root, pages, f)
    ensures f in s'.tags && IsNodeOf(s', root, pages, f)
  {
    var p :| p in pages && p < PAGES && Node(s.mem, root, p, s.tags[f].level) == Some(f);
    assert GoodTag(s, f, s.tags[f]);
    NodeKept(s, s', root, p, s.tags[f].level);
  }

  lemma LinksTrans(s0: State, s1: State, s2: State, root: nat, pages: set<nat>, fl: u64)
    requires Sound(s1) && IsRoot(s1, root) && Keeps(s0, s1) && Keeps(s1, s2)
    requires NewLinks(s0, s1, root, pages, fl) && NewLinks(s1, s2, root, pages, fl)
    ensures NewLinks(s0, s2, root, pages, fl)
  {
    forall f: nat, i: nat | IsNewLink(s0, s2, f, i)
      ensures LinkFor(s0, s2, f, i, root, pages, fl)
    {
      if IsNewLink(s1, s2, f, i) {
        assert LinkFor(s1, s2, f, i, root, pages, fl);
      } else {
        assert GoodTag(s1, f, s1.tags[f]);
        assert KeepsLinks(s1.mem[f], s2.mem[f]);
        assert IsNewLink(s0, s1, f, i);
        assert LinkFor(s0, s1, f, i, root, pages, fl);
        NodeOfKept(s1, s2, root, pages, f);
      }
    }
  }

  lemma TablesTrans(s0: State, s1: State, s2: State, root: nat, pages: set<nat>)
    requires Sound(s1) && IsRoot(s1, root) && Keeps(s0, s1) && Keeps(s1, s2)
    requires NewTables(s0, s1, root, pages) && NewTables(s1, s2, root, pages)
    ensures NewTables(s0, s2, root, pages)
  {
    forall g | g in s2.tags && g !in s0.tags ensures TableFor(s2, g, root, pages) {
      if g in s1.tags {
        assert TableFor(s1, g, root, pages);
        NodeOfKept(s1, s2, root, pages, g);
      }
    }
  }

  /** Growth composes. */
  lemma GrowsTrans(s0: State, s1: State, s2: State, root: nat, pages: set<nat>, fl: u64, data1: set<nat>,
                   data2: set<nat>)
    requires Sound(s0) && Sound(s1) && IsRoot(s0, root)
    requires Grows(s0, s1, root, pages, fl, data1) && Grows(s1, s2, root, pages, fl, data2)
    ensures Grows(s0, s2, root, pages, fl, data1 + data2)
  {
    KeepsTrans(s0, s1, s2);
    TakesTrans(s0, s1, s2, data1, data2);
    LinksTrans(s0, s1, s2, root, pages, fl);
    TablesTrans(s0, s1, s2, root, pages);
  }

  /** Growth makes no PML4. */
  lemma GrowsRoots(s: State, s': State, root: nat, pages: set<nat>, fl: u64, data: set<nat>)
    requires Grows(s, s', root, pages, fl, data)
    ensures forall r | IsRoot(s', r) :: IsRoot(s, r)
  {
    forall r | IsRoot(s', r) ensures IsRoot(s, r) {
      NewTableLevel(s, s', root, pages, r);
    }
  }

  lemma NewTableLevel(s: State, s': State, root: nat, pages: set<nat>, g: nat)
    requires NewTables(s, s', root, pages) && Keeps(s, s') && g in s'.tags
    ensures if g in s.tags then s'.tags[g] == s.tags[g] else s'.tags[g].level <= 3
  {
    hide IsNodeOf;
  }

  lemma GrowsMore(s: State, s': State, root: nat, pages: set<nat>, more: set<nat>, fl: u64, data: set<nat>)
    requires Grows(s, s', root, pages, fl, data) && pages <= more
    ensures Grows(s, s', root, more, fl, data)
  {
    LinksMore(s, s', root, pages, more, fl);
    forall g | g in s'.tags && g !in s.tags ensures TableFor(s', g, root, more) {
      assert TableFor(s', g, root, pages);
    }
  }

  lemma LinksMore(s: State, s': State, root: nat, pages: set<nat>, more: set<nat>, fl: u64)
    requires NewLinks(s, s', root, pages, fl) && pages <= more
    ensures NewLinks(s, s', root, more, fl)
  {
    forall f: nat, i: nat | IsNewLink(s, s', f, i)
      ensures LinkFor(s, s', f, i, root, more, fl)
    {
      assert LinkFor(s, s', f, i, root, pages, fl);
    }
  }

  /** Storing a page-table entry grows nothing. */
  lemma SetLeafGrows(s: State, root: nat, page: nat, w: u64, pages: set<nat>, fl: u64)
    requires Sound(s) && IsRoot(s, root) && page < PAGES && Node(s.mem, root, page, 1).Some?
    ensures Grows(s, SetLeaf(s, root, page, w), root, pages, fl, {})
  {
    var s' := SetLeaf(s, root, page, w);
    NodeTag(s, root, page, 1);
    TagsUsed(s);
  }

  /** Linking a table at the end of a page's path is growth for that page, and translates nothing differently. */
  lemma LinkOnPath(s: State, root: nat, page: nat, level: nat, g: nat, fl: u64)
    requires Sound(s) && IsRoot(s, root) && page < PAGES && 2 <= level <= 4 && TableFlags(fl)
    requires Node(s.mem, root, page, level).Some?
    requires CanLink(s, Node(s.mem, root, page, level).value, Index(page, level), g)
    ensures var s' := LinkTable(s, Node(s.mem, root, page, level).value, Index(page, level), g, fl);
            && Sound(s') && Grows(s, s', root, {page}, fl, {}) && SameTranslation(s, s')
            && Node(s'.mem, root, page, level - 1) == Some(g)
  {
    var f, i := Node(s.mem, root, page, level).value, Index(page, level);
    var s' := LinkTable(s, f, i, g, fl);
    LinkTableSound(s, f, i, g, fl);
    NodeTag(s, root, page, level);
    LinkTableNodes(s, f, i, g, fl, root, page, level - 1);
    forall r, q | IsRoot(s, r) && 0 <= q < PAGES ensures Leaf(s'.mem, r, q) == Leaf(s.mem, r, q) {
      LinkTableLeaves(s, f, i, g, fl, r, q);
    }
    LinkGrows(s, root, page, level, g, fl);
  }

  lemma LinkGrows(s: State, root: nat, page: nat, level: nat, g: nat, fl: u64)
    requires Sound(s) && IsRoot(s, root) && page < PAGES && 2 <= level <= 4 && TableFlags(fl)
    requires Node(s.mem, root, page, level).Some?
    requires CanLink(s, Node(s.mem, root, page, level).value, Index(page, level), g)
    ensures var s' := LinkTable(s, Node(s.mem, root, page, level).value, Index(page, level), g, fl);
            Grows(s, s', root, {page}, fl, {})
  {
    var f, i := Node(s.mem, root, page, level).value, Index(page, level);
    NodeTag(s, root, page, level);
    PrefixStep(page, level);
    assert page in {page};
    assert OnPath({page}, s.tags[f].prefix * 512 + i, level - 1);
    LinkKeeps(s, f, i, g, fl);
    LinkTableNodes(s, f, i, g, fl, root, page, level);
    assert IsNodeOf(LinkTable(s, f, i, g, fl), root, {page}, f);
    LinkNewLinks(s, f, i, g, fl, root, {page});
    LinkNewTables(s, root, page, level, g, fl);
  }

  lemma LinkKeeps(s: State, f: nat, i: nat, g: nat, fl: u64)
    requires Sound(s) && CanLink(s, f, i, g) && fl < 4096
    ensures var s' := LinkTable(s, f, i, g, fl); Keeps(s, s') && Takes(s, s', {}) && OnlyTables(s, s')
  {
    TagsUsed(s);
  }

  lemma LinkNewLinks(s: State, f: nat, i: nat, g: nat, fl: u64, root: nat, pages: set<nat>)
    requires Sound(s) && CanLink(s, f, i, g) && TableFlags(fl)
    requires OnPath(pages, s.tags[f].prefix * 512 + i, s.tags[f].level - 1)
    requires s.tags[f].owner == Context(root) || s.tags[f].owner == Kernel
    requires var s' := LinkTable(s, f, i, g, fl); f in s'.tags && IsNodeOf(s', root, pages, f)
    ensures NewLinks(s, LinkTable(s, f, i, g, fl), root, pages, fl)
  {
    var s' := LinkTable(s, f, i, g, fl);
    TagsUsed(s);
    forall h: nat, j: nat | IsNewLink(s, s', h, j) ensures h == f && j == i {}
    assert s'.mem[f][i] == g * 4096 + fl;
    PackedFrame(g, fl);
  }

  lemma LinkNewTables(s: State, root: nat, page: nat, level: nat, g: nat, fl: u64)
    requires Sound(s) && IsRoot(s, root) && page < PAGES && 2 <= level <= 4 && TableFlags(fl)
    requires Node(s.mem, root, page, level).Some?
    requires CanLink(s, Node(s.mem, root, page, level).value, Index(page, level), g)
    ensures var s' := LinkTable(s, Node(s.mem, root, page, level).value, Index(page, level), g, fl);
            NewTables(s, s', root, {page})
  {
    var f, i := Node(s.mem, root, page, level).value, Index(page, level);
    NodeTag(s, root, page, level);
    LinkTableNodes(s, f, i, g, fl, root, page, level - 1);
    assert page in {page};
    assert TableFor(LinkTable(s, f, i, g, fl), g, root, {page});
  }

  lemma TagsUsed(s: State)
    requires Sound(s)
    ensures s.tags.Keys <= s.used
    ensures forall f | f in s.tags :: f < |s.mem|
  {
    forall f | f in s.tags ensures f in s.used && f < |s.mem| {
      assert GoodTag(s, f, s.tags[f]);
    }
  }
}
