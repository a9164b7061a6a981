/**
  What mapping and unmapping a range of pages mean: every context's translation afterwards,
  page by page.
 */
module Mapping {
  import opened Bits
  import opened Options
  import opened PageTables
  import opened TableEdits
  import opened Growth

  /** The page after `p`, in the ring of all pages. */
  function NextPage(p: nat): nat {
    if p == PAGES - 1 then 0 else p + 1
  }

  /** The page `k` steps after page `first`. */
  function PageAt(first: nat, k: nat): (p: nat)
    ensures first < PAGES ==> p < PAGES
  {
    if k == 0 then first else NextPage(PageAt(first, k - 1))
  }

  lemma {:induction false} PageAtIs(first: nat, k: nat)
    requires first < PAGES
    ensures PageAt(first, k) == (first + k) % PAGES
  {
    if k > 0 {
      PageAtIs(first, k - 1);
      NextIs(first + (k - 1));
    }
  }

  lemma NextIs(x: nat)
    ensures NextPage(x % PAGES) == (x + 1) % PAGES
  {
    var q, r := x / PAGES, x % PAGES;
    assert x == q * PAGES + r;
    if r == PAGES - 1 {
      QuotientRemainder(x + 1, PAGES, q + 1, 0);
    } else {
      QuotientRemainder(x + 1, PAGES, q, r + 1);
    }
  }

  function RangePages(first: nat, n: nat): set<nat> {
    if n == 0 then {} else RangePages(first, n - 1) + {PageAt(first, n - 1)}
  }

  /** The entry last written to page `q` when `words` are written to consecutive pages from `first`. */
  function LastWrite(q: nat, first: nat, words: seq<u64>): Option<u64> {
    if words == [] then None
    else if PageAt(first, |words| - 1) == q then Some(words[|words| - 1])
    else LastWrite(q, first, words[..|words| - 1])
  }

  /** Up to a whole address space, the range is the pages at ring distance below its length from `first`. */
  lemma {:induction false} LastWriteExact(q: nat, first: nat, words: seq<u64>)
    requires |words| <= PAGES && q < PAGES && first < PAGES
    ensures LastWrite(q, first, words)
            == if (q - first) % PAGES < |words| then Some(words[(q - first) % PAGES]) else None
  {
    if words != [] {
      var n := |words| - 1;
      LastWriteExact(q, first, words[..n]);
      RingDistance(q, first, n);
    }
  }

  lemma RingDistance(q: nat, first: nat, k: nat)
    requires q < PAGES && first < PAGES && k < PAGES
    ensures PageAt(first, k) == q <==> (q - first) % PAGES == k
  {
    PageAtIs(first, k);
  }

  lemma {:induction false} InRange(q: nat, first: nat, n: nat)
    requires n <= PAGES && q < PAGES && first < PAGES
    ensures q in RangePages(first, n) <==> (q - first) % PAGES < n
  {
    if n > 0 {
      InRange(q, first, n - 1);
      RingDistance(q, first, n - 1);
    }
  }

  lemma {:induction false} WrittenInRange(q: nat, first: nat, words: seq<u64>)
    ensures LastWrite(q, first, words).Some? <==> q in RangePages(first, |words|)
  {
    if words != [] {
      WrittenInRange(q, first, words[..|words| - 1]);
    }
  }

  lemma {:induction false} RangeBelow(first: nat, n: nat, q: nat)
    requires first < PAGES && q in RangePages(first, n)
    ensures q < PAGES
  {
    if n > 0 && q != PageAt(first, n - 1) {
      RangeBelow(first, n - 1, q);
    }
  }

  /** What context `r` has for page `q` after `words` were written in context `root`. */
  ghost function NewLeaf(s: State, s': State, root: nat, first: nat, words: seq<u64>, r: nat, q: nat): u64 {
    match LastWrite(q, first, words)
    case None => Leaf(s.mem, r, q)
    case Some(w) => if Joined(s'.mem, r, root, q) then w else Leaf(s.mem, r, q)
  }

  ghost predicate Translates(s: State, s': State, root: nat, first: nat, words: seq<u64>) {
    forall r, q | IsRoot(s, r) && 0 <= q < PAGES :: Leaf(s'.mem, r, q) == NewLeaf(s, s', root, first, words, r, q)
  }

  ghost predicate PathsExist(s: State, root: nat, pages: set<nat>) {
    forall q | q in pages :: Node(s.mem, root, q, 1).Some?
  }

  /**
    The effect of writing `words` to the consecutive pages from `first` in context `root`,
    creating tables with link flags `fl` on the way and taking `data` frames besides.
   */
  ghost predicate Maps(s: State, s': State, root: nat, first: nat, words: seq<u64>, fl: u64, data: set<nat>) {
    && Sound(s')
    && Grows(s, s', root, RangePages(first, |words|), fl, data)
    && PathsExist(s', root, RangePages(first, |words|))
    && Translates(s, s', root, first, words)
  }

  lemma MapsNothing(s: State, root: nat, first: nat, fl: u64)
    requires Sound(s)
    ensures Maps(s, s, root, first, [], fl, {})
  {
    GrowsRefl(s, root, RangePages(first, 0), fl);
  }

  /** Growth in one context joins no other context to it and parts none from it. */
  lemma JoinStable(s: State, s': State, root: nat, pages: set<nat>, fl: u64, data: set<nat>, r: nat, q: nat)
    requires Sound(s) && IsRoot(s, root) && IsRoot(s, r) && q < PAGES
    requires Grows(s, s', root, pages, fl, data) && Node(s.mem, root, q, 3).Some?
    ensures Joined(s'.mem, r, root, q) == Joined(s.mem, r, root, q)
  {
    NodeKept(s, s', root, q, 3);
    if Node(s.mem, r, q, 3).Some? {
      NodeKept(s, s', r, q, 3);
    } else {
      NoForeignLink(s, s', root, pages, fl, data, r, q);
    }
  }

  /** Only the mapping context's own PML4 can gain a link. */
  lemma NoForeignLink(s: State, s': State, root: nat, pages: set<nat>, fl: u64, data: set<nat>, r: nat, q: nat)
    requires Sound(s) && IsRoot(s, r) && r != root && q < PAGES
    requires Grows(s, s', root, pages, fl, data)
    ensures Node(s'.mem, r, q, 3) == Node(s.mem, r, q, 3)
  {
    assert GoodTag(s, r, s.tags[r]);
    var i := Index(q, 4);
    assert Node(s.mem, r, q, 4) == Some(r) == Node(s'.mem, r, q, 4);
    assert KeepsLinks(s.mem[r], s'.mem[r]);
    assert IsNewLink(s, s', r, i) ==> LinkFor(s, s', r, i, root, pages, fl);
  }

  /**
    What the creating lookup has done for page `p` when it has reached `level`: the path
    exists down to there, and no context translates anything differently.
   */
  ghost predicate PathTo(s: State, s': State, root: nat, p: nat, level: nat, fl: u64) {
    Sound(s') && Grows(s, s', root, {p}, fl, {}) && SameTranslation(s, s') && Node(s'.mem, root, p, level).Some?
  }

  lemma PathStart(s: State, root: nat, p: nat, fl: u64)
    requires Sound(s) && IsRoot(s, root)
    ensures PathTo(s, s, root, p, 4, fl)
  {
    GrowsRefl(s, root, {p}, fl);
    assert GoodTag(s, root, s.tags[root]);
  }

  /** The state after the lookup's step at a slot: unchanged if it holds a link, else a new table is linked. */
  ghost predicate SlotFilled(s: State, s': State, f: nat, i: nat, fl: u64)
    requires f < |s.mem| && i < ENTRIES
  {
    if s.mem[f][i] != 0 then s' == s
    else exists g :: CanLink(s, f, i, g) && fl < 4096 && s' == LinkTable(s, f, i, g, fl)
  }

  lemma PathNext(s0: State, s1: State, s2: State, root: nat, p: nat, level: nat, fl: u64)
    requires Sound(s0) && Sound(s1) && IsRoot(s0, root) && p < PAGES && 2 <= level <= 4 && TableFlags(fl)
    requires PathTo(s0, s1, root, p, level, fl)
    requires SlotFilled(s1, s2, Node(s1.mem, root, p, level).value, Index(p, level), fl)
    ensures PathTo(s0, s2, root, p, level - 1, fl)
    ensures Node(s1.mem, root, p, level - 1).Some? ==> s2 == s1
    ensures var f := Node(s1.mem, root, p, level).value;
            && f < |s2.mem| && Node(s2.mem, root, p, level) == Some(f)
            && Node(s2.mem, root, p, level - 1) == Some(FrameOf(s2.mem[f][Index(p, level)]))
            && !TestBit(s2.mem[f][Index(p, level)], 7)
  {
    var f, i := Node(s1.mem, root, p, level).value, Index(p, level);
    WalkStep(s1, root, p, level);
    if s1.mem[f][i] == 0 {
      var g :| CanLink(s1, f, i, g) && s2 == LinkTable(s1, f, i, g, fl);
      PathLink(s0, s1, root, p, level, g, fl);
    }
    WalkStep(s2, root, p, level);
  }

  lemma PathLink(s0: State, s1: State, root: nat, p: nat, level: nat, g: nat, fl: u64)
    requires Sound(s0) && Sound(s1) && IsRoot(s0, root) && p < PAGES && 2 <= level <= 4 && TableFlags(fl)
    requires PathTo(s0, s1, root, p, level, fl)
    requires CanLink(s1, Node(s1.mem, root, p, level).value, Index(p, level), g)
    ensures var s2 := LinkTable(s1, Node(s1.mem, root, p, level).value, Index(p, level), g, fl);
            PathTo(s0, s2, root, p, level - 1, fl) && Node(s2.mem, root, p, level) == Node(s1.mem, root, p, level)
  {
    var s2 := LinkTable(s1, Node(s1.mem, root, p, level).value, Index(p, level), g, fl);
    LinkOnPath(s1, root, p, level, g, fl);
    NodeKept(s1, s2, root, p, level);
    GrowsTrans(s0, s1, s2, root, {p}, fl, {}, {});
    TranslationTrans(s0, s1, s2);
  }

  lemma TranslationTrans(s0: State, s1: State, s2: State)
    requires Keeps(s0, s1) && SameTranslation(s0, s1) && SameTranslation(s1, s2)
    ensures SameTranslation(s0, s2)
  {
    forall r, q | IsRoot(s0, r) && 0 <= q < PAGES ensures Leaf(s2.mem, r, q) == Leaf(s0.mem, r, q) {
      assert IsRoot(s1, r);
      assert Leaf(s1.mem, r, q) == Leaf(s0.mem, r, q);
    }
  }

  /** Completing a page's path and storing its entry maps that page. */
  lemma MapOne(s1: State, s2: State, root: nat, p: nat, w: u64, fl: u64)
    requires Sound(s1) && IsRoot(s1, root) && p < PAGES && PathTo(s1, s2, root, p, 1, fl)
    ensures Maps(s1, SetLeaf(s2, root, p, w), root, p, [w], fl, {})
  {
    var s3 := SetLeaf(s2, root, p, w);
    SetLeafSound(s2, root, p, w);
    OnePage(p, w);
    SetLeafGrows(s2, root, p, w, {p}, fl);
    GrowsTrans(s1, s2, s3, root, {p}, fl, {}, {});
    SetLeafNodes(s2, root, p, w, root, p, 1);
    forall r, q | IsRoot(s1, r) && 0 <= q < PAGES
      ensures Leaf(s3.mem, r, q) == NewLeaf(s1, s3, root, p, [w], r, q)
    {
      SetLeafEffect(s2, root, p, w, r, q);
      JoinedAfterStore(s2, root, p, w, r, q);
      LastWriteOne(q, p, w);
    }
  }

  lemma OnePage(p: nat, w: u64)
    requires p < PAGES
    ensures RangePages(p, |[w]|) == {p} == RangePages(p, 1)
  {
    assert RangePages(p, 0) == {};
    assert PageAt(p, 0) == p;
  }

  lemma LastWriteOne(q: nat, p: nat, w: u64)
    requires p < PAGES
    ensures LastWrite(q, p, [w]) == if q == p then Some(w) else None
  {
    assert PageAt(p, 0) == p;
    assert LastWrite(q, p, [w][..0]) == None;
  }

  /** Mapping a range and then the page after it maps the longer range. */
  lemma MapsAppend(s0: State, s1: State, s2: State, root: nat, first: nat, words: seq<u64>, w: u64, fl: u64,
                   data: set<nat>)
    requires Sound(s0) && IsRoot(s0, root) && first < PAGES
    requires Maps(s0, s1, root, first, words, fl, data)
    requires Maps(s1, s2, root, PageAt(first, |words|), [w], fl, {})
    ensures Maps(s0, s2, root, first, words + [w], fl, data)
  {
    AppendGrows(s0, s1, s2, root, first, |words|, w, fl, data);
    forall q | q in RangePages(first, |words| + 1) ensures Node(s2.mem, root, q, 1).Some? {
      AppendPath(s1, s2, root, first, |words|, w, fl, q);
    }
    forall r, q | IsRoot(s0, r) && 0 <= q < PAGES
      ensures Leaf(s2.mem, r, q) == NewLeaf(s0, s2, root, first, words + [w], r, q)
    {
      AppendLeaf(s0, s1, s2, root, first, words, w, fl, data, r, q);
    }
  }

  lemma AppendGrows(s0: State, s1: State, s2: State, root: nat, first: nat, n: nat, w: u64, fl: u64, data: set<nat>)
    requires Sound(s0) && Sound(s1) && IsRoot(s0, root) && first < PAGES
    requires Grows(s0, s1, root, RangePages(first, n), fl, data)
    requires Grows(s1, s2, root, RangePages(PageAt(first, n), |[w]|), fl, {})
    ensures Grows(s0, s2, root, RangePages(first, n + 1), fl, data)
  {
    var pages := RangePages(first, n + 1);
    OnePage(PageAt(first, n), w);
    GrowsMore(s0, s1, root, RangePages(first, n), pages, fl, data);
    GrowsMore(s1, s2, root, {PageAt(first, n)}, pages, fl, {});
    GrowsTrans(s0, s1, s2, root, pages, fl, data, {});
    assert data + {} == data;
  }

  lemma AppendPath(s1: State, s2: State, root: nat, first: nat, n: nat, w: u64, fl: u64, q: nat)
    requires Sound(s1) && IsRoot(s1, root) && first < PAGES && Keeps(s1, s2)
    requires PathsExist(s1, root, RangePages(first, n))
    requires PathsExist(s2, root, RangePages(PageAt(first, n), |[w]|))
    requires q in RangePages(first, n + 1)
    ensures Node(s2.mem, root, q, 1).Some?
  {
    OnePage(PageAt(first, n), w);
    if q in RangePages(first, n) {
      RangeBelow(first, n, q);
      NodeKept(s1, s2, root, q, 1);
    }
  }

  lemma AppendLeaf(s0: State, s1: State, s2: State, root: nat, first: nat, words: seq<u64>, w: u64, fl: u64,
                   data: set<nat>, r: nat, q: nat)
    requires Sound(s0) && IsRoot(s0, root) && first < PAGES && Maps(s0, s1, root, first, words, fl, data)
    requires Maps(s1, s2, root, PageAt(first, |words|), [w], fl, {})
    requires IsRoot(s0, r) && q < PAGES
    ensures Leaf(s2.mem, r, q) == NewLeaf(s0, s2, root, first, words + [w], r, q)
  {
    var p := PageAt(first, |words|);
    LastWriteOne(q, p, w);
    if LastWrite(q, first, words).Some? {
      WrittenInRange(q, first, words);
      NodeAbove(s1.mem, root, q, 1, 3);
      OnePage(p, w);
      JoinStable(s1, s2, root, {p}, fl, {}, r, q);
    }
    assert IsRoot(s1, r);
    assert Leaf(s1.mem, r, q) == NewLeaf(s0, s1, root, first, words, r, q);
    assert Leaf(s2.mem, r, q) == NewLeaf(s1, s2, root, p, [w], r, q);
    NewLeafStep(s0, s1, s2, root, first, words, w, r, q);
  }

  lemma NewLeafStep(s0: State, s1: State, s2: State, root: nat, first: nat, words: seq<u64>, w: u64, r: nat, q: nat)
    requires LastWrite(q, first, words).Some? ==> Joined(s2.mem, r, root, q) == Joined(s1.mem, r, root, q)
    requires Leaf(s2.mem, r, q)
             == if q == PageAt(first, |words|) && Joined(s2.mem, r, root, q) then w
                else NewLeaf(s0, s1, root, first, words, r, q)
    ensures Leaf(s2.mem, r, q) == NewLeaf(s0, s2, root, first, words + [w], r, q)
  {
    assert (words + [w])[..|words|] == words;
  }

  /** Taking a free frame for data changes nothing but the used frames. */
  lemma TakeData(s0: State, s1: State, root: nat, first: nat, words: seq<u64>, fl: u64, data: set<nat>, f: nat)
    requires Sound(s0) && IsRoot(s0, root) && Maps(s0, s1, root, first, words, fl, data) && f !in s1.used
    ensures var s2 := s1.(used := s1.used + {f});
            Sound(s2) && Maps(s0, s2, root, first, words, fl, data + {f})
  {
    TakeSound(s1, f);
    TakeGrowth(s0, s1, root, RangePages(first, |words|), fl, data, f);
  }

  lemma TakeGrows(s: State, root: nat, pages: set<nat>, fl: u64, f: nat)
    requires Sound(s) && f !in s.used
    ensures Grows(s, s.(used := s.used + {f}), root, pages, fl, {f})
  {
    TagsUsed(s);
  }

  lemma TakeGrowth(s0: State, s1: State, root: nat, pages: set<nat>, fl: u64, data: set<nat>, f: nat)
    requires Sound(s0) && Sound(s1) && f !in s1.used && IsRoot(s0, root)
    requires Grows(s0, s1, root, pages, fl, data)
    ensures Grows(s0, s1.(used := s1.used + {f}), root, pages, fl, data + {f})
  {
    TakeGrows(s1, root, pages, fl, f);
    GrowsTrans(s0, s1, s1.(used := s1.used + {f}), root, pages, fl, data, {f});
  }

  lemma TakeSound(s: State, f: nat)
    requires Sound(s)
    ensures Sound(s.(used := s.used + {f}))
  {
    var s' := s.(used := s.used + {f});
    forall g | g in s'.tags ensures GoodTag(s', g, s'.tags[g]) {
      assert GoodTag(s, g, s.tags[g]);
    }
    forall g | g in s'.tags && s'.tags[g].level > 1 ensures GoodLinks(s', g) {
      assert GoodLinks(s, g);
    }
  }

  lemma JoinedAfterStore(s: State, root: nat, p: nat, w: u64, r: nat, q: nat)
    requires Sound(s) && IsRoot(s, root) && IsRoot(s, r) && p < PAGES && q < PAGES && Node(s.mem, root, p, 1).Some?
    ensures Joined(SetLeaf(s, root, p, w).mem, r, root, q) == Joined(s.mem, r, root, q)
  {
    SetLeafNodes(s, root, p, w, r, q, 3);
    SetLeafNodes(s, root, p, w, root, q, 3);
  }

  lemma {:induction false} NodeAbove(m: Memory, root: nat, page: nat, low: nat, level: nat)
    requires low <= level <= 4 && Node(m, root, page, low).Some?
    ensures Node(m, root, page, level).Some?
    decreases level - low
  {
    if low < level {
      NodeAbove(m, root, page, low + 1, level);
    }
  }

  /** A node that a mapping has made is a new table, and so is everything below it. */
  lemma {:induction false} NewNodeIsNew(s: State, s': State, root: nat, pages: set<nat>, fl: u64, p: nat, level: nat)
    requires Sound(s) && Sound(s') && IsRoot(s, root) && p < PAGES && 1 <= level <= 4
    requires Keeps(s, s') && NewLinks(s, s', root, pages, fl)
    requires Node(s.mem, root, p, level) == None && Node(s'.mem, root, p, level).Some?
    ensures Node(s'.mem, root, p, level).value !in s.tags
    decreases 4 - level
  {
    hide Sound, NewLinks, Keeps, Index, IsNewLink;
    RootIsNode(s, root, p);
    NodeBelow(s'.mem, root, p, level);
    assert IsRoot(s', root) by { KeepsRoot(s, s', root); }
    WalkStep(s', root, p, level + 1);
    var f, i := Node(s'.mem, root, p, level + 1).value, Index(p, level + 1);
    if Node(s.mem, root, p, level + 1) == None {
      NewNodeIsNew(s, s', root, pages, fl, p, level + 1);
    }
    NewSlot(s, s', root, p, level + 1);
    NewLinkTarget(s, s', f, i, root, pages, fl);
  }

  lemma KeepsRoot(s: State, s': State, root: nat)
    requires Keeps(s, s') && IsRoot(s, root)
    ensures IsRoot(s', root)
  {}

  lemma NodeBelow(m: Memory, root: nat, page: nat, level: nat)
    requires level < 4 && Node(m, root, page, level).Some?
    ensures Node(m, root, page, level + 1).Some?
  {}

  /** The slot through which a path goes on after a mapping and did not before. */
  lemma NewSlot(s: State, s': State, root: nat, p: nat, level: nat)
    requires Sound(s) && Sound(s') && IsRoot(s, root) && p < PAGES && 2 <= level <= 4 && Keeps(s, s')
    requires Node(s.mem, root, p, level - 1) == None && Node(s'.mem, root, p, level - 1).Some?
    requires Node(s'.mem, root, p, level).Some?
    requires Node(s.mem, root, p, level) == None ==> Node(s'.mem, root, p, level).value !in s.tags
    ensures IsNewLink(s, s', Node(s'.mem, root, p, level).value, Index(p, level))
  {
    WalkStep(s', root, p, level);
    if Node(s.mem, root, p, level).Some? {
      NodeKept(s, s', root, p, level);
      WalkStep(s, root, p, level);
    }
  }

  lemma NewLinkTarget(s: State, s': State, f: nat, i: nat, root: nat, pages: set<nat>, fl: u64)
    requires NewLinks(s, s', root, pages, fl) && IsNewLink(s, s', f, i)
    ensures LinkFor(s, s', f, i, root, pages, fl)
  {}

  lemma KeptLink(s: State, s': State, f: nat, i: nat)
    requires Keeps(s, s') && f in s.tags && f < |s.mem| && s.tags[f].level > 1 && i < ENTRIES && s.mem[f][i] != 0
    ensures s'.mem[f][i] == s.mem[f][i] && f in s'.tags && s'.tags[f] == s.tags[f]
  {
    assert KeepsLinks(s.mem[f], s'.mem[f]);
  }

  // ---------------------------------------------------------------- unmapping

  ghost predicate SameTables(s: State, s': State) {
    && |s'.mem| == |s.mem| && s'.tags == s.tags && s'.used == s.used && s'.kernelPdpt == s.kernelPdpt
    && forall f: nat | f < |s.mem| && !(f in s.tags && s.tags[f].level == 1) :: s'.mem[f] == s.mem[f]
  }

  /** Leaving all tables but the page tables alone is the least growth there is. */
  lemma SameTablesKeep(s: State, s': State)
    requires SameTables(s, s')
    ensures Keeps(s, s')
  {}

  ghost predicate SameNodes(s: State, s': State) {
    forall r, q, level | IsRoot(s, r) && 0 <= q < PAGES && 1 <= level <= 4 ::
      Node(s'.mem, r, q, level) == Node(s.mem, r, q, level)
  }

  /**
    The effect of unmapping `n` pages from `first` in context `root`: no table is created, freed
    or moved, and exactly those pages become unmapped, in the contexts that share their PDPT.
   */
  ghost predicate Unmaps(s: State, s': State, root: nat, first: nat, n: nat) {
    && Sound(s') && SameTables(s, s') && SameNodes(s, s')
    && forall r, q | IsRoot(s, r) && 0 <= q < PAGES ::
         Leaf(s'.mem, r, q)
         == if q in RangePages(first, n) && Joined(s.mem, r, root, q) then 0 else Leaf(s.mem, r, q)
  }

  lemma UnmapsNothing(s: State, root: nat, first: nat)
    requires Sound(s)
    ensures Unmaps(s, s, root, first, 0)
  {}

  /** Storing 0 unmaps one page. */
  lemma UnmapOne(s: State, root: nat, p: nat)
    requires Sound(s) && IsRoot(s, root) && p < PAGES && Node(s.mem, root, p, 1).Some?
    ensures Unmaps(s, SetLeaf(s, root, p, 0), root, p, 1)
  {
    var s' := SetLeaf(s, root, p, 0);
    SetLeafSound(s, root, p, 0);
    NodeTag(s, root, p, 1);
    OnePage(p, 0);
    forall r, q, level | IsRoot(s, r) && 0 <= q < PAGES && 1 <= level <= 4
      ensures Node(s'.mem, r, q, level) == Node(s.mem, r, q, level)
    {
      SetLeafNodes(s, root, p, 0, r, q, level);
    }
    forall r, q | IsRoot(s, r) && 0 <= q < PAGES
      ensures Leaf(s'.mem, r, q)
              == if q in RangePages(p, 1) && Joined(s.mem, r, root, q) then 0 else Leaf(s.mem, r, q)
    {
      SetLeafEffect(s, root, p, 0, r, q);
    }
  }

  /** A page without a page table is unmapped already, in every context that shares its PDPT. */
  lemma UnmapMissing(s: State, root: nat, p: nat)
    requires Sound(s) && IsRoot(s, root) && p < PAGES && Node(s.mem, root, p, 1) == None
    ensures Unmaps(s, s, root, p, 1)
  {
    OnePage(p, 0);
    forall r, q | IsRoot(s, r) && 0 <= q < PAGES
      ensures Leaf(s.mem, r, q)
              == if q in RangePages(p, 1) && Joined(s.mem, r, root, q) then 0 else Leaf(s.mem, r, q)
    {
      if q == p && Joined(s.mem, r, root, q) {
        JoinedWalk(s.mem, r, root, q, 1);
      }
    }
  }

  lemma UnmapsAppend(s0: State, s1: State, s2: State, root: nat, first: nat, n: nat)
    requires IsRoot(s0, root) && first < PAGES
    requires Unmaps(s0, s1, root, first, n) && Unmaps(s1, s2, root, PageAt(first, n), 1)
    ensures Unmaps(s0, s2, root, first, n + 1)
  {
    var p := PageAt(first, n);
    OnePage(p, 0);
    forall r, q, level | IsRoot(s0, r) && 0 <= q < PAGES && 1 <= level <= 4
      ensures Node(s2.mem, r, q, level) == Node(s0.mem, r, q, level)
    {
      assert IsRoot(s1, r);
      assert Node(s1.mem, r, q, level) == Node(s0.mem, r, q, level);
    }
    forall r, q | IsRoot(s0, r) && 0 <= q < PAGES
      ensures Leaf(s2.mem, r, q)
              == if q in RangePages(first, n + 1) && Joined(s0.mem, r, root, q) then 0 else Leaf(s0.mem, r, q)
    {
      assert IsRoot(s1, r) && IsRoot(s1, root);
      assert Joined(s1.mem, r, root, q) == Joined(s0.mem, r, root, q);
      assert Leaf(s1.mem, r, q)
             == if q in RangePages(first, n) && Joined(s0.mem, r, root, q) then 0 else Leaf(s0.mem, r, q);
    }
  }

  // ---------------------------------------------------------------- holes

  /** `n` consecutive pages from `first` are unmapped. */
  ghost predicate IsHole(m: Memory, root: nat, first: nat, n: nat) {
    forall k: nat | k < n :: Leaf(m, root, PageAt(first, k)) == 0
  }

  /** No page-aligned address below `addr`, counted from `start`, begins a hole. */
  ghost predicate NoHoleBelow(m: Memory, root: nat, start: nat, addr: nat, n: nat) {
    forall a | start <= a < addr && a % 4096 == 0 :: !IsHole(m, root, PageOf(a), n)
  }

  /**
    What a search for a hole of `|words|` pages in [start, limit) followed by filling it has done:
    the range begins at the lowest address that fits, or nothing has changed and 0 is returned.
   */
  ghost predicate FillsLowestHole(s: State, s': State, root: nat, start: nat, limit: nat, addr: u64, n: nat,
                                  words: seq<u64>, fl: u64, data: set<nat>) {
    if addr != 0 then
      && start <= addr < limit && addr % 4096 == 0 && |words| == n
      && IsHole(s.mem, root, PageOf(addr), n)
      && NoHoleBelow(s.mem, root, start, addr, n)
      && Maps(s, s', root, PageOf(addr), words, fl, data)
    else
      NoHoleBelow(s.mem, root, start, limit, n) && s' == s
  }

  lemma NoneBelow(m: Memory, root: nat, start: nat, n: nat)
    ensures NoHoleBelow(m, root, start, start, n)
  {}

  lemma NoneBelowNext(m: Memory, root: nat, start: nat, addr: nat, n: nat)
    requires NoHoleBelow(m, root, start, addr, n) && !IsHole(m, root, PageOf(addr), n) && addr % 4096 == 0
    ensures NoHoleBelow(m, root, start, addr + 4096, n)
  {
    hide IsHole, PageOf;
  }

  lemma NoneBelowLimit(m: Memory, root: nat, start: nat, limit: nat, addr: nat, n: nat)
    requires NoHoleBelow(m, root, start, addr, n) && limit <= addr
    ensures NoHoleBelow(m, root, start, limit, n)
  {
    hide IsHole, PageOf;
  }

  lemma HoleStep(m: Memory, root: nat, first: nat, n: nat)
    requires IsHole(m, root, first, n) && Leaf(m, root, PageAt(first, n)) == 0
    ensures IsHole(m, root, first, n + 1)
  {}

  /** Stepping `i = 4096 * k` bytes from an address steps `k` pages, also when the address wraps. */
  lemma PageSteps(va: u64, i: nat, k: nat)
    requires i == 4096 * k
    ensures PageOf(Wrap(va + i)) == PageAt(PageOf(va), k)
  {
    PageAtIs(PageOf(va), k);
    PageOfWrapped(va + i);
    WholePages(va, k);
    ModAdd(va / 4096, k);
  }

  lemma WholePages(va: nat, k: nat)
    ensures (va + 4096 * k) / 4096 == va / 4096 + k
  {}

  lemma ModAdd(x: nat, k: nat)
    ensures (x % PAGES + k) % PAGES == (x + k) % PAGES
  {
    var y := x % PAGES + k;
    QuotientRemainder(x + k, PAGES, x / PAGES + y / PAGES, y % PAGES);
  }

  lemma PageOfWrapped(x: nat)
    ensures PageOf(Wrap(x)) == PageOf(x)
  {
    var w, y := x / TWO_64, Wrap(x) / 4096;
    assert x / 4096 == w * 0x10_0000_0000_0000 + y;
    QuotientRemainder(x / 4096, PAGES, w * 0x1_0000 + y / PAGES, y % PAGES);
  }

  lemma WrapOffset(x: nat)
    ensures Wrap(x) % 4096 == x % 4096
  {
    assert x == x / TWO_64 * 0x10_0000_0000_0000 * 4096 + Wrap(x);
  }

  // ---------------------------------------------------------------- the two halves

  /** The first page of the upper half: bit 47 of the address set. */
  const UPPER_HALF: nat := 0x8_0000_0000

  /** In the upper half, pages follow addresses up to the end of the address space without wrapping. */
  lemma UpperPage(va: u64)
    requires va >= 0xffff_8000_0000_0000
    ensures PageOf(va) == va / 4096 - 0xf_fff0_0000_0000 && PageOf(va) >= UPPER_HALF
  {
    var y := va / 4096 - 0xf_fff0_0000_0000;
    assert 0xf_fff0_0000_0000 == 0xffff * PAGES;
    QuotientRemainder(va / 4096, PAGES, 0xffff, y);
  }

  /** A range that ends before the address space does has consecutive page numbers. */
  lemma {:induction false} NoWrap(first: nat, k: nat)
    requires first + k < PAGES
    ensures PageAt(first, k) == first + k
  {
    if k > 0 {
      NoWrap(first, k - 1);
    }
  }

  lemma {:induction false} RangeBounds(first: nat, n: nat, q: nat)
    requires first + n <= PAGES && q in RangePages(first, n)
    ensures first <= q < first + n
  {
    NoWrap(first, n - 1);
    if q != PageAt(first, n - 1) {
      RangeBounds(first, n - 1, q);
    }
  }
}
