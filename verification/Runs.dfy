/**
  Runs of the memory manager, in all its contexts at once: what every event keeps, and so what holds at
  every moment of every run.
 */
module Runs {
  import opened Bits
  import opened Options
  import opened PageTables
  import opened TableEdits
  import opened Growth
  import opened Mapping
  import opened Entries
  import opened Contexts
  import opened DirectMap
  import opened Hardware
  import opened Rights

  /**
    What can happen between boot and halt: pages of a context are mapped (by any of the services),
    pages that were mapped are unmapped, a context is made, frames are taken from the allocator
    and given back, or a word is written to a frame that holds no table.
   */
  datatype Event =
    | Fill(root: nat, first: nat, words: seq<u64>, fl: u64, data: set<nat>)
    | Unmap(root: nat, first: nat, n: nat)
    | Create(current: nat, start: nat, limit: nat, creation: Creation, root: nat)
    | Take(frames: set<nat>)
    | Give(frames: set<nat>)
    | Write(frame: nat, index: nat, word: u64)

  /**
    A moment of a run: the state, the pages of each context that were mapped in the run and not unmapped
    since, and the frames that were taken and not given back.
   */
  datatype Moment = Moment(state: State, live: set<(nat, nat)>, held: set<nat>)

  ghost function Pairs(root: nat, pages: set<nat>): set<(nat, nat)> {
    set p | p in pages :: (root, p)
  }

  /** The page is unmapped in the context, or was mapped there in this run. */
  ghost predicate MayMap(m: Moment, root: nat, p: nat) {
    Leaf(m.state.mem, root, p) == 0 || (root, p) in m.live
  }

  ghost predicate Step(m: Moment, e: Event, m': Moment) {
    match e
    case Fill(root, first, words, fl, data) => FillStep(m, e, m')
    case Unmap(root, first, n) =>
      && IsRoot(m.state, root) && first < PAGES && Pairs(root, RangePages(first, n)) <= m.live
      && Unmaps(m.state, m'.state, root, first, n)
      && m' == Moment(m'.state, m.live - Pairs(root, RangePages(first, n)), m.held)
    case Create(current, start, limit, creation, root) =>
      && IsRoot(m.state, current)
      && CreatesContext(m.state, current, start, limit, creation, root, m'.state)
      && root < |creation.before.mem| && ZeroBelowLast(creation.before.mem[root])
      && m' == m.(state := m'.state)
    case Take(frames) =>
      && frames !! m.state.used
      && m' == Moment(m.state.(used := m.state.used + frames), m.live, m.held + frames)
    case Give(frames) =>
      && frames <= m.held
      && m' == Moment(m.state.(used := m.state.used - frames), m.live, m.held - frames)
    case Write(frame, index, word) =>
      && frame < |m.state.mem| && frame !in m.state.tags && index < ENTRIES
      && m' == m.(state := m.state.(mem := Store(m.state.mem, frame, index, word)))
  }

  ghost predicate FillStep(m: Moment, e: Event, m': Moment)
    requires e.Fill?
  {
    var pages := RangePages(e.first, |e.words|);
    && IsRoot(m.state, e.root) && e.first < PAGES
    && Maps(m.state, m'.state, e.root, e.first, e.words, e.fl, e.data)
    && (forall p | p in pages :: MayMap(m, e.root, p))
    && m' == Moment(m'.state, m.live + Pairs(e.root, pages), m.held)
  }

  /** A run: a sequence of events, with the moments between them. */
  ghost predicate IsRun(moments: seq<Moment>, events: seq<Event>) {
    && |moments| == |events| + 1
    && forall k | 0 <= k < |events| :: Step(moments[k], events[k], moments[k + 1])
  }

  /** Filling the lowest hole is such an event, or changes nothing. */
  lemma FillIsStep(m: Moment, s': State, root: nat, start: nat, limit: nat, addr: u64, words: seq<u64>, fl: u64,
                   data: set<nat>)
    requires IsRoot(m.state, root)
    requires FillsLowestHole(m.state, s', root, start, limit, addr, |words|, words, fl, data)
    ensures if addr == 0 then s' == m.state
            else Step(m, Fill(root, PageOf(addr), words, fl, data),
                      Moment(s', m.live + Pairs(root, RangePages(PageOf(addr), |words|)), m.held))
  {
    hide Maps, PageOf, NoHoleBelow;
    if addr != 0 {
      forall p | p in RangePages(PageOf(addr), |words|) ensures MayMap(m, root, p) {
        HoleUnmapped(m.state.mem, root, PageOf(addr), |words|, p);
      }
    }
  }

  // ---------------------------------------------------------------- the direct map and the tables

  /**
    What every event keeps, for the direct map of context `boot` that starts at page `base`: sound tables in
    reach of it, its frames in place, no live page on it, and no way for held frames to become tables.
   */
  ghost predicate Kept(m: Moment, boot: nat, base: nat, frames: set<nat>) {
    && Sound(m.state) && IsRoot(m.state, boot) && DirectMapped(m.state, boot, base, frames)
    && LiveApart(m, boot, base, frames)
    && InReach(m.state, frames) && HeldApart(m, frames)
  }

  ghost predicate LiveApart(m: Moment, boot: nat, base: nat, frames: set<nat>) {
    forall r, q | (r, q) in m.live :: PageApart(m.state, boot, DirectPages(base, frames), r, q)
  }

  /** Unmapping page `q` of context `r` does not unmap a page of the direct map. */
  ghost predicate PageApart(s: State, boot: nat, direct: set<nat>, r: nat, q: nat) {
    IsRoot(s, r) && q < PAGES && (q in direct ==> !Joined(s.mem, boot, r, q))
  }

  /** All tables lie in the direct map, and all frames that may become tables. */
  ghost predicate InReach(s: State, frames: set<nat>) {
    s.tags.Keys <= frames && forall f: nat | f < |s.mem| && f !in s.used :: f in frames
  }

  ghost predicate HeldApart(m: Moment, frames: set<nat>) {
    && m.held <= m.state.used && m.held !! m.state.tags.Keys
    && forall f: nat | f < |m.state.mem| && f in m.held :: f in frames
  }

  lemma DirectIsMapped(s: State, boot: nat, base: nat, frames: set<nat>, q: nat)
    requires DirectMapped(s, boot, base, frames) && q in DirectPages(base, frames)
    ensures Leaf(s.mem, boot, q) != 0 && Node(s.mem, boot, q, 1).Some? && Node(s.mem, boot, q, 3).Some?
  {
    var f :| f in frames && PageAt(base, f) == q;
    assert InPlace(s, boot, base, f);
    ForFrameReads(Leaf(s.mem, boot, q), f);
    NodeAbove(s.mem, boot, q, 1, 3);
  }

  /** Contexts that are joined at a page of an existing PDPT after a mapping were joined there before. */
  lemma JoinedBefore(s: State, s': State, root: nat, pages: set<nat>, fl: u64, data: set<nat>, b: nat, r: nat, q: nat)
    requires Sound(s) && Sound(s') && IsRoot(s, root) && IsRoot(s, b) && IsRoot(s, r) && q < PAGES
    requires Grows(s, s', root, pages, fl, data) && Node(s.mem, b, q, 3).Some? && Joined(s'.mem, b, r, q)
    ensures Joined(s.mem, b, r, q)
  {
    hide Sound, Takes, OnlyTables, NewTables, Node;
    NodeKept(s, s', b, q, 3);
    NodeTag(s, b, q, 3);
    if Node(s.mem, r, q, 3).Some? {
      NodeKept(s, s', r, q, 3);
    } else if r == root {
      NewNodeIsNew(s, s', root, pages, fl, q, 3);
    } else {
      NoForeignLink(s, s', root, pages, fl, data, r, q);
    }
  }

  /** A page of the direct map that an event may map in a context is not the boot context's page. */
  lemma FillApart(m: Moment, e: Event, m': Moment, boot: nat, base: nat, frames: set<nat>, q: nat)
    requires Kept(m, boot, base, frames) && e.Fill? && FillStep(m, e, m') && q < PAGES
    requires q in RangePages(e.first, |e.words|) && q in DirectPages(base, frames)
    ensures !Joined(m'.state.mem, boot, e.root, q)
  {
    hide Sound, Grows, Translates, PathsExist, DirectMapped, DirectPages, Leaf, Node, InReach, HeldApart;
    DirectIsMapped(m.state, boot, base, frames, q);
    assert MayMap(m, e.root, q);
    assert (e.root, q) in m.live ==> PageApart(m.state, boot, DirectPages(base, frames), e.root, q);
    if Joined(m'.state.mem, boot, e.root, q) {
      JoinedBefore(m.state, m'.state, e.root, RangePages(e.first, |e.words|), e.fl, e.data, boot, e.root, q);
      JoinedWalk(m.state.mem, boot, e.root, q, 1);
    }
  }

  lemma FillDirect(m: Moment, e: Event, m': Moment, boot: nat, base: nat, frames: set<nat>)
    requires base < PAGES && Kept(m, boot, base, frames) && e.Fill? && FillStep(m, e, m')
    ensures DirectMapped(m'.state, boot, base, frames)
  {
    hide Sound, Grows, PathsExist, Leaf, Node, InReach, HeldApart, LiveApart;
    forall f | f in frames ensures InPlace(m'.state, boot, base, f) {
      var q := PageAt(base, f);
      assert InPlace(m.state, boot, base, f);
      assert q in DirectPages(base, frames);
      assert Leaf(m'.state.mem, boot, q) == NewLeaf(m.state, m'.state, e.root, e.first, e.words, boot, q);
      WrittenInRange(q, e.first, e.words);
      if q in RangePages(e.first, |e.words|) {
        FillApart(m, e, m', boot, base, frames, q);
      }
    }
  }

  lemma FillLive(m: Moment, e: Event, m': Moment, boot: nat, base: nat, frames: set<nat>)
    requires Kept(m, boot, base, frames) && e.Fill? && FillStep(m, e, m')
    ensures LiveApart(m', boot, base, frames)
  {
    hide Sound, Translates, PathsExist, Takes, OnlyTables, NewLinks, NewTables, DirectMapped, DirectPages, Leaf, Node;
    hide InReach, HeldApart;
    forall r, q | (r, q) in m'.live ensures PageApart(m'.state, boot, DirectPages(base, frames), r, q) {
      if (r, q) in m.live {
        FillOldLive(m, e, m', boot, base, frames, r, q);
      } else {
        assert r == e.root && q in RangePages(e.first, |e.words|);
        KeepsRoot(m.state, m'.state, r);
        RangeBelow(e.first, |e.words|, q);
        if q in DirectPages(base, frames) {
          FillApart(m, e, m', boot, base, frames, q);
        }
      }
    }
  }

  lemma FillOldLive(m: Moment, e: Event, m': Moment, boot: nat, base: nat, frames: set<nat>, r: nat, q: nat)
    requires Kept(m, boot, base, frames) && e.Fill? && FillStep(m, e, m') && (r, q) in m.live
    ensures PageApart(m'.state, boot, DirectPages(base, frames), r, q)
  {
    hide Sound, Translates, PathsExist, DirectMapped, DirectPages, Leaf, Node, InReach, HeldApart;
    hide Takes, OnlyTables, NewLinks, NewTables;
    assert PageApart(m.state, boot, DirectPages(base, frames), r, q);
    KeepsRoot(m.state, m'.state, r);
    if q in DirectPages(base, frames) && Joined(m'.state.mem, boot, r, q) {
      DirectIsMapped(m.state, boot, base, frames, q);
      JoinedBefore(m.state, m'.state, e.root, RangePages(e.first, |e.words|), e.fl, e.data, boot, r, q);
    }
  }

  /** New tables come from free frames. */
  lemma GrowthInReach(s: State, s': State, root: nat, pages: set<nat>, fl: u64, data: set<nat>, frames: set<nat>)
    requires Grows(s, s', root, pages, fl, data) && Sound(s') && InReach(s, frames)
    ensures InReach(s', frames)
  {
    hide NewLinks, NewTables, OnlyTables, KeepsLinks;
    TagsUsed(s');
    forall g | g in s'.tags ensures g in frames {
      if g !in s.tags {
        assert g in s'.tags.Keys - s.tags.Keys;
      }
    }
  }

  lemma GrowthHeld(m: Moment, m': Moment, root: nat, pages: set<nat>, fl: u64, data: set<nat>, frames: set<nat>)
    requires Grows(m.state, m'.state, root, pages, fl, data) && HeldApart(m, frames) && m'.held == m.held
    ensures HeldApart(m', frames)
  {
    hide NewLinks, NewTables, OnlyTables, KeepsLinks;
    forall g | g in m'.state.tags ensures g !in m.held {
      if g !in m.state.tags {
        assert g in m'.state.tags.Keys - m.state.tags.Keys;
      }
    }
  }

  lemma FillKeeps(m: Moment, e: Event, m': Moment, boot: nat, base: nat, frames: set<nat>)
    requires base < PAGES && Kept(m, boot, base, frames) && e.Fill? && FillStep(m, e, m')
    ensures Kept(m', boot, base, frames)
  {
    FillDirect(m, e, m', boot, base, frames);
    FillLive(m, e, m', boot, base, frames);
    hide Sound, Translates, PathsExist, Grows, DirectMapped, LiveApart, InReach, HeldApart;
    GrowthInReach(m.state, m'.state, e.root, RangePages(e.first, |e.words|), e.fl, e.data, frames);
    GrowthHeld(m, m', e.root, RangePages(e.first, |e.words|), e.fl, e.data, frames);
    MapsRoot(m.state, m'.state, boot, e);
  }

  lemma MapsRoot(s: State, s': State, r: nat, e: Event)
    requires e.Fill? && IsRoot(s, r) && Maps(s, s', e.root, e.first, e.words, e.fl, e.data)
    ensures IsRoot(s', r) && Sound(s')
  {}

  lemma UnmapKeeps(m: Moment, e: Event, m': Moment, boot: nat, base: nat, frames: set<nat>)
    requires base < PAGES && Kept(m, boot, base, frames) && e.Unmap? && Step(m, e, m')
    ensures Kept(m', boot, base, frames)
  {
    hide Sound, DirectMapped, LiveApart, Unmaps, IsRoot, Pairs;
    UnmapDirect(m, e, m', boot, base, frames);
    UnmapSame(m.state, m'.state, e.root, e.first, e.n);
    hide Node;
    SameLive(m, m', boot, base, frames);
  }

  lemma UnmapSame(s: State, s': State, root: nat, first: nat, n: nat)
    requires Unmaps(s, s', root, first, n)
    ensures Sound(s') && s'.tags == s.tags && s'.used == s.used && |s'.mem| == |s.mem|
    ensures forall r | IsRoot(s, r) :: IsRoot(s', r)
    ensures forall r, q | IsRoot(s, r) && 0 <= q < PAGES :: Node(s'.mem, r, q, 3) == Node(s.mem, r, q, 3)
  {
    hide Sound, Node, Leaf;
  }

  lemma UnmapDirect(m: Moment, e: Event, m': Moment, boot: nat, base: nat, frames: set<nat>)
    requires base < PAGES && Kept(m, boot, base, frames) && e.Unmap? && Step(m, e, m')
    ensures DirectMapped(m'.state, boot, base, frames)
  {
    hide Sound, SameTables, SameNodes, InReach, HeldApart, Leaf, Node;
    forall f | f in frames ensures InPlace(m'.state, boot, base, f) {
      var q := PageAt(base, f);
      assert InPlace(m.state, boot, base, f);
      assert q in DirectPages(base, frames);
      if q in RangePages(e.first, e.n) {
        assert (e.root, q) in Pairs(e.root, RangePages(e.first, e.n));
        assert PageApart(m.state, boot, DirectPages(base, frames), e.root, q);
      }
    }
  }

  /** What is used does not matter to the tables, as long as they are. */
  lemma UsedSound(s: State, used: set<nat>)
    requires Sound(s) && s.tags.Keys <= used
    ensures Sound(s.(used := used))
  {
    var s' := s.(used := used);
    forall f | f in s'.tags ensures GoodTag(s', f, s'.tags[f]) {
      assert GoodTag(s, f, s.tags[f]);
    }
    forall f | f in s'.tags && s'.tags[f].level > 1 ensures GoodLinks(s', f) {
      assert GoodLinks(s, f);
    }
  }

  /** Marking frames used or free, the tables' frames excepted, keeps what is kept. */
  lemma UsedKeeps(m: Moment, used: set<nat>, held: set<nat>, boot: nat, base: nat, frames: set<nat>)
    requires Kept(m, boot, base, frames) && m.state.tags.Keys <= used
    requires forall f: nat | f < |m.state.mem| && f !in used :: f in frames
    requires held <= used && held !! m.state.tags.Keys
    requires forall f: nat | f < |m.state.mem| && f in held :: f in frames
    ensures Kept(Moment(m.state.(used := used), m.live, held), boot, base, frames)
  {
    hide Sound, DirectMapped, LiveApart;
    var m' := Moment(m.state.(used := used), m.live, held);
    UsedSound(m.state, used);
    SameDirect(m.state, m'.state, boot, base, frames);
    SameLive(m, m', boot, base, frames);
  }

  /** Where no word of memory changes, neither does the direct map. */
  lemma SameDirect(s: State, s': State, boot: nat, base: nat, frames: set<nat>)
    requires s'.mem == s.mem && DirectMapped(s, boot, base, frames)
    ensures DirectMapped(s', boot, base, frames)
  {
    hide Leaf, ForFrame, PageAt;
    forall f | f in frames ensures InPlace(s', boot, base, f) {
      assert InPlace(s, boot, base, f);
    }
  }

  /** Live pages stay apart where the contexts and their third levels stay. */
  lemma SameLive(m: Moment, m': Moment, boot: nat, base: nat, frames: set<nat>)
    requires LiveApart(m, boot, base, frames) && m'.live <= m.live && IsRoot(m.state, boot)
    requires forall r, q | IsRoot(m.state, r) && 0 <= q < PAGES ::
               Node(m'.state.mem, r, q, 3) == Node(m.state.mem, r, q, 3)
    requires forall r | IsRoot(m.state, r) :: IsRoot(m'.state, r)
    ensures LiveApart(m', boot, base, frames)
  {
    hide Node, DirectPages, IsRoot;
    forall r, q | (r, q) in m'.live ensures PageApart(m'.state, boot, DirectPages(base, frames), r, q) {
      assert PageApart(m.state, boot, DirectPages(base, frames), r, q);
    }
  }

  lemma TakeKeeps(m: Moment, e: Event, m': Moment, boot: nat, base: nat, frames: set<nat>)
    requires Kept(m, boot, base, frames) && e.Take? && Step(m, e, m')
    ensures Kept(m', boot, base, frames)
  {
    TagsUsed(m.state);
    UsedKeeps(m, m.state.used + e.frames, m.held + e.frames, boot, base, frames);
  }

  lemma GiveKeeps(m: Moment, e: Event, m': Moment, boot: nat, base: nat, frames: set<nat>)
    requires Kept(m, boot, base, frames) && e.Give? && Step(m, e, m')
    ensures Kept(m', boot, base, frames)
  {
    TagsUsed(m.state);
    UsedKeeps(m, m.state.used - e.frames, m.held - e.frames, boot, base, frames);
  }

  lemma WriteKeeps(m: Moment, e: Event, m': Moment, boot: nat, base: nat, frames: set<nat>)
    requires base < PAGES && Kept(m, boot, base, frames) && e.Write? && Step(m, e, m')
    ensures Kept(m', boot, base, frames)
  {
    hide Sound, DirectMapped, LiveApart, Node;
    DataWriteSound(m.state, e.frame, e.index, e.word);
    WriteDirect(m.state, e.frame, e.index, e.word, boot, base, frames);
    forall r, q | IsRoot(m.state, r) && 0 <= q < PAGES
      ensures Node(m'.state.mem, r, q, 3) == Node(m.state.mem, r, q, 3)
    {
      DataWriteNode(m.state, e.frame, e.index, e.word, r, q, 3);
    }
    SameLive(m, m', boot, base, frames);
  }

  lemma WriteDirect(s: State, frame: nat, index: nat, word: u64, boot: nat, base: nat, frames: set<nat>)
    requires Sound(s) && IsRoot(s, boot) && base < PAGES && DirectMapped(s, boot, base, frames)
    requires frame < |s.mem| && frame !in s.tags && index < ENTRIES
    ensures DirectMapped(s.(mem := Store(s.mem, frame, index, word)), boot, base, frames)
  {
    hide Sound, Leaf, ForFrame, PageAt;
    forall f | f in frames ensures InPlace(s.(mem := Store(s.mem, frame, index, word)), boot, base, f) {
      assert InPlace(s, boot, base, f);
      PageAtBelow(base, f);
      DataWrite(s, frame, index, word, boot, PageAt(base, f));
    }
  }

  lemma PageAtBelow(base: nat, f: nat)
    requires base < PAGES
    ensures PageAt(base, f) < PAGES
  {}

  lemma DataWriteNode(s: State, frame: nat, index: nat, word: u64, r: nat, q: nat, level: nat)
    requires Sound(s) && IsRoot(s, r) && q < PAGES && 1 <= level <= 4
    requires frame < |s.mem| && frame !in s.tags && index < ENTRIES
    ensures Node(Store(s.mem, frame, index, word), r, q, level) == Node(s.mem, r, q, level)
  {
    TagsUsed(s);
    NodeAgrees(s, Store(s.mem, frame, index, word), r, q, level);
  }

  /** The new PML4 is a table in reach, and no other context notices it. */
  lemma NewContextKeeps(m: Moment, root: nat, boot: nat, base: nat, frames: set<nat>)
    requires base < PAGES && Kept(m, boot, base, frames) && CanBeContext(m.state, root) && root !in m.held
    requires m.state.kernelPdpt < MAX_FRAMES && ZeroBelowLast(m.state.mem[root]) && root in frames
    ensures Kept(m.(state := NewContext(m.state, root)), boot, base, frames)
  {
    hide Sound, DirectMapped, LiveApart, ZeroBelowLast, NewContext, InReach, HeldApart, IsRoot;
    NewContextSound(m.state, root);
    NewContextDirect(m, root, boot, base, frames);
    NewContextLive(m, root, boot, base, frames);
    NewContextReach(m, root, boot, frames);
  }

  lemma NewContextReach(m: Moment, root: nat, boot: nat, frames: set<nat>)
    requires CanBeContext(m.state, root) && root !in m.held && m.state.kernelPdpt < MAX_FRAMES && root in frames
    requires InReach(m.state, frames) && HeldApart(m, frames) && IsRoot(m.state, boot)
    ensures IsRoot(NewContext(m.state, root), boot) && InReach(NewContext(m.state, root), frames)
    ensures HeldApart(m.(state := NewContext(m.state, root)), frames)
  {
    hide Sound;
  }

  lemma NewContextDirect(m: Moment, root: nat, boot: nat, base: nat, frames: set<nat>)
    requires base < PAGES && DirectMapped(m.state, boot, base, frames) && CanBeContext(m.state, root)
    requires m.state.kernelPdpt < MAX_FRAMES && IsRoot(m.state, boot)
    ensures DirectMapped(NewContext(m.state, root), boot, base, frames)
  {
    hide Sound, Leaf, Node, NewContext, IsRoot;
    forall f | f in frames ensures InPlace(NewContext(m.state, root), boot, base, f) {
      assert InPlace(m.state, boot, base, f);
      OtherContexts(m.state, root, boot, PageAt(base, f), 1);
    }
  }

  lemma NewContextLive(m: Moment, root: nat, boot: nat, base: nat, frames: set<nat>)
    requires LiveApart(m, boot, base, frames) && CanBeContext(m.state, root)
    requires m.state.kernelPdpt < MAX_FRAMES && IsRoot(m.state, boot)
    ensures LiveApart(m.(state := NewContext(m.state, root)), boot, base, frames)
  {
    hide Sound, Node;
    var s' := NewContext(m.state, root);
    forall r, q | IsRoot(m.state, r) && 0 <= q < PAGES ensures Node(s'.mem, r, q, 3) == Node(m.state.mem, r, q, 3) {
      OtherContexts(m.state, root, r, q, 3);
    }
    SameLive(m, m.(state := s'), boot, base, frames);
  }

  /** The fill with which the creation of a context begins; nothing counts as mapped in the run by it. */
  lemma CreationFillKeeps(m: Moment, e: Event, boot: nat, base: nat, frames: set<nat>)
    requires base < PAGES && Kept(m, boot, base, frames) && e.Create? && IsRoot(m.state, e.current)
    requires var c := e.creation;
             FillsLowestHole(m.state, c.filled, e.current, e.start, e.limit, c.addr, 1, [StructureEntry(c)],
                             LinkFlags(false), {c.frame})
    ensures Kept(m.(state := e.creation.filled), boot, base, frames)
  {
    hide Maps, PageOf, NoHoleBelow, Kept, IsHole, Step;
    var c := e.creation;
    if c.addr != 0 {
      FillIsStep(m, c.filled, e.current, e.start, e.limit, c.addr, [StructureEntry(c)], LinkFlags(false), {c.frame});
      var f := Fill(e.current, PageOf(c.addr), [StructureEntry(c)], LinkFlags(false), {c.frame});
      var m' := Moment(c.filled, m.live + Pairs(e.current, RangePages(PageOf(c.addr), 1)), m.held);
      assert FillStep(m, f, m') by { assert Step(m, f, m'); IsFillStep(m, f, m'); }
      FillKeeps(m, f, m', boot, base, frames);
      FewerLive(m', m.live, boot, base, frames);
    }
  }

  lemma IsFillStep(m: Moment, e: Event, m': Moment)
    requires e.Fill? && Step(m, e, m')
    ensures FillStep(m, e, m')
  {}

  lemma FewerLive(m: Moment, live: set<(nat, nat)>, boot: nat, base: nat, frames: set<nat>)
    requires Kept(m, boot, base, frames) && live <= m.live
    ensures Kept(m.(live := live), boot, base, frames)
  {
    hide Sound, DirectMapped, InReach;
    forall r, q | (r, q) in live ensures PageApart(m.state, boot, DirectPages(base, frames), r, q) {
      assert (r, q) in m.live;
    }
  }

  lemma CreateKeeps(m: Moment, e: Event, m': Moment, boot: nat, base: nat, frames: set<nat>)
    requires base < PAGES && Kept(m, boot, base, frames) && e.Create? && Step(m, e, m')
    ensures Kept(m', boot, base, frames)
  {
    hide FillsLowestHole, Sound, DirectMapped, LiveApart, ZeroBelowLast, NewContext;
    var c := e.creation;
    CreationFillKeeps(m, e, boot, base, frames);
    TagsUsed(c.filled);
    var m1 := m.(state := c.filled);
    UsedKeeps(m1, c.filled.used + {e.root}, m.held, boot, base, frames);
    NewContextKeeps(m.(state := c.before), e.root, boot, base, frames);
  }

  lemma StepKeeps(m: Moment, e: Event, m': Moment, boot: nat, base: nat, frames: set<nat>)
    requires base < PAGES && Kept(m, boot, base, frames) && Step(m, e, m')
    ensures Kept(m', boot, base, frames)
  {
    hide Kept, FillStep;
    match e {
      case Fill(root, first, words, fl, data) => FillKeeps(m, e, m', boot, base, frames);
      case Unmap(root, first, n) => UnmapKeeps(m, e, m', boot, base, frames);
      case Create(current, start, limit, creation, root) => CreateKeeps(m, e, m', boot, base, frames);
      case Take(taken) => TakeKeeps(m, e, m', boot, base, frames);
      case Give(given) => GiveKeeps(m, e, m', boot, base, frames);
      case Write(frame, index, word) => WriteKeeps(m, e, m', boot, base, frames);
    }
  }

  /** Every run keeps the tables of all contexts sound, and the direct map in place. */
  lemma {:induction false} RunKeeps(moments: seq<Moment>, events: seq<Event>, boot: nat, base: nat, frames: set<nat>,
                                    k: nat)
    requires IsRun(moments, events) && k < |moments| && base < PAGES && Kept(moments[0], boot, base, frames)
    ensures Kept(moments[k], boot, base, frames)
  {
    hide Kept, Step;
    if k > 0 {
      RunKeeps(moments, events, boot, base, frames, k - 1);
      StepKeeps(moments[k - 1], events[k - 1], moments[k], boot, base, frames);
    }
  }

  /**
    At every moment of every run, each word of each page table of every context, including tables made
    during the run, is where the kernel looks for it: at its physical address plus the direct map's
    offset, where it can be read and written.
   */
  lemma TablesInReach(moments: seq<Moment>, events: seq<Event>, boot: nat, hhdm: u64, frames: set<nat>, k: nat,
                      table: nat, index: nat)
    requires IsRun(moments, events) && k < |moments| && hhdm % 4096 == 0 && hhdm >= 0xffff_8000_0000_0000
    requires Kept(moments[0], boot, PageOf(hhdm), frames)
    requires table in moments[k].state.tags && index < ENTRIES && hhdm + table * 4096 + 4096 <= TWO_64
    ensures var a := Translate(moments[k].state.mem, boot, hhdm + table * 4096 + 8 * index);
            a.Mapped? && a.addr == table * 4096 + 8 * index && a.writable
  {
    hide Kept, Step;
    RunKeeps(moments, events, boot, PageOf(hhdm), frames, k);
    KeptAccess(moments[k], boot, hhdm, frames, table, 8 * index, hhdm + table * 4096 + 8 * index);
  }

  lemma KeptAccess(m: Moment, boot: nat, hhdm: u64, frames: set<nat>, table: nat, offset: nat, va: u64)
    requires va == hhdm + table * 4096 + offset && hhdm % 4096 == 0 && hhdm >= 0xffff_8000_0000_0000 && offset < 4096
    requires Kept(m, boot, PageOf(hhdm), frames) && table in m.state.tags
    ensures var a := Translate(m.state.mem, boot, va); a.Mapped? && a.addr == table * 4096 + offset && a.writable
  {
    DirectAccess(m.state, boot, hhdm, frames, table, offset, va);
  }

  lemma KeptSound(m: Moment, boot: nat, base: nat, frames: set<nat>)
    requires Kept(m, boot, base, frames)
    ensures Sound(m.state) && IsRoot(m.state, boot)
  {}

  lemma FillRoots(s: State, s': State, e: Event)
    requires e.Fill? && Maps(s, s', e.root, e.first, e.words, e.fl, e.data)
    ensures forall r | IsRoot(s', r) :: IsRoot(s, r)
  {
    hide Sound, Grows, Translates, PathsExist;
    GrowsRoots(s, s', e.root, RangePages(e.first, |e.words|), e.fl, e.data);
  }

  // ---------------------------------------------------------------- the kernel PDPT

  /** What the event maps in contexts other than `boot` lies outside the last PML4 slot. */
  ghost predicate AvoidsLastSlot(e: Event, boot: nat) {
    match e
    case Fill(root, first, words, fl, data) =>
      root == boot || forall p | p in RangePages(first, |words|) :: Index(p, 4) != 511
    case Create(current, start, limit, creation, root) =>
      current == boot || creation.addr == 0 || Index(PageOf(creation.addr), 4) != 511
    case _ => true
  }

  /** What the boot context does itself is never in the way. */
  lemma OwnEventsAvoid(e: Event, boot: nat)
    requires match e
             case Fill(root, first, words, fl, data) => root == boot
             case Create(current, start, limit, creation, root) => current == boot
             case _ => true
    ensures AvoidsLastSlot(e, boot)
  {}

  /** A mapping of another context, outside the last slot, puts nothing into the kernel PDPT. */
  lemma ForeignStaysUnused(s: State, s': State, root: nat, pages: set<nat>, fl: u64, data: set<nat>, boot: nat)
    requires Sound(s) && Sound(s') && IsRoot(s, root) && root != boot && KernelPdptUnused(s, boot)
    requires Grows(s, s', root, pages, fl, data) && forall p | p in pages :: Index(p, 4) != 511
    ensures KernelPdptUnused(s', boot)
  {
    KeepsRoot(s, s', root);
    ForeignSlot(s, s', root, pages, fl, data, boot, 511);
    hide Sound, Takes, NewTables, OnlyTables, OnPath;
    var k := s.kernelPdpt;
    forall i | 0 <= i < ENTRIES ensures s'.mem[k][i] == 0 {
      if s'.mem[k][i] != 0 {
        NewLinkTarget(s, s', k, i, root, pages, fl);
        var p :| p in pages && p < PAGES && Node(s'.mem, root, p, 3) == Some(k);
        NodeTag(s', root, p, 3);
      }
    }
    assert s'.mem[k] == ZeroFrame();
  }

  /** A mapping leaves every slot of every other context's PML4 alone. */
  lemma ForeignSlot(s: State, s': State, root: nat, pages: set<nat>, fl: u64, data: set<nat>, r: nat, i: nat)
    requires Sound(s) && IsRoot(s, r) && root != r && Grows(s, s', root, pages, fl, data) && i < ENTRIES
    ensures r < |s.mem| == |s'.mem| && s'.mem[r][i] == s.mem[r][i]
  {
    assert GoodTag(s, r, s.tags[r]);
    hide Sound, Takes, NewTables, OnlyTables, OnPath;
    if s.mem[r][i] != 0 {
      KeptLink(s, s', r, i);
    } else if s'.mem[r][i] != 0 {
      NewLinkTarget(s, s', r, i, root, pages, fl);
    }
  }

  lemma FillStaysUnused(m: Moment, e: Event, m': Moment, boot: nat)
    requires Sound(m.state) && KernelPdptUnused(m.state, boot) && e.Fill? && FillStep(m, e, m')
    requires AvoidsLastSlot(e, boot)
    ensures KernelPdptUnused(m'.state, boot)
  {
    hide Sound, Grows, Translates, PathsExist, KernelPdptUnused, Index;
    if e.root == boot {
      StaysUnused(m.state, m'.state, boot, RangePages(e.first, |e.words|), e.fl, e.data);
    } else {
      ForeignStaysUnused(m.state, m'.state, e.root, RangePages(e.first, |e.words|), e.fl, e.data, boot);
    }
  }

  lemma CreateStaysUnused(m: Moment, e: Event, m': Moment, boot: nat)
    requires Sound(m.state) && KernelPdptUnused(m.state, boot) && e.Create? && Step(m, e, m')
    requires AvoidsLastSlot(e, boot)
    ensures KernelPdptUnused(m'.state, boot)
  {
    var c := e.creation;
    if c.addr != 0 {
      var pages := RangePages(PageOf(c.addr), |[StructureEntry(c)]|);
      StructurePages(c);
      hide Sound, Grows, Translates, PathsExist, KernelPdptUnused, Index, PageOf, NoHoleBelow, IsHole, ZeroBelowLast;
      if e.current == boot {
        StaysUnused(m.state, c.filled, boot, pages, LinkFlags(false), {c.frame});
      } else {
        ForeignStaysUnused(m.state, c.filled, e.current, pages, LinkFlags(false), {c.frame}, boot);
      }
    }
    NewContextUnused(c, e.root, m'.state, boot);
  }

  lemma StructurePages(c: Creation)
    ensures RangePages(PageOf(c.addr), |[StructureEntry(c)]|) == {PageOf(c.addr)}
  {
    OnePage(PageOf(c.addr), StructureEntry(c));
  }

  lemma NewContextUnused(c: Creation, root: nat, s': State, boot: nat)
    requires KernelPdptUnused(c.filled, boot) && c.before == c.filled.(used := c.filled.used + {root})
    requires CanBeContext(c.before, root) && c.before.kernelPdpt < MAX_FRAMES && s' == NewContext(c.before, root)
    ensures KernelPdptUnused(s', boot)
  {
    hide Sound;
  }

  lemma StepStaysUnused(m: Moment, e: Event, m': Moment, boot: nat)
    requires Sound(m.state) && KernelPdptUnused(m.state, boot) && Step(m, e, m') && AvoidsLastSlot(e, boot)
    ensures KernelPdptUnused(m'.state, boot)
  {
    hide Sound, FillStep, CreatesContext, SameNodes, AvoidsLastSlot, ZeroBelowLast;
    match e {
      case Fill(root, first, words, fl, data) => FillStaysUnused(m, e, m', boot);
      case Create(current, start, limit, creation, root) => CreateStaysUnused(m, e, m', boot);
      case Unmap(root, first, n) =>
      case Take(taken) =>
      case Give(given) =>
      case Write(frame, index, word) =>
    }
  }

  /**
    Unless another context maps something in its last slot, the kernel PDPT stays empty over every run,
    so no context made at any time has any mapping of the boot context.
   */
  lemma {:induction false} RunStaysUnused(moments: seq<Moment>, events: seq<Event>, boot: nat, base: nat,
                                          frames: set<nat>, k: nat)
    requires IsRun(moments, events) && k < |moments| && base < PAGES && Kept(moments[0], boot, base, frames)
    requires KernelPdptUnused(moments[0].state, boot) && forall e | e in events :: AvoidsLastSlot(e, boot)
    ensures KernelPdptUnused(moments[k].state, boot)
  {
    hide Step, KernelPdptUnused, Kept, AvoidsLastSlot;
    if k > 0 {
      RunStaysUnused(moments, events, boot, base, frames, k - 1);
      RunKeeps(moments, events, boot, base, frames, k - 1);
      KeptSound(moments[k - 1], boot, base, frames);
      assert AvoidsLastSlot(events[k - 1], boot);
      StepStaysUnused(moments[k - 1], events[k - 1], moments[k], boot);
    }
  }

  // ---------------------------------------------------------------- the two halves

  /** A fill for user mode in the lower half, or for the kernel in the upper half. */
  ghost predicate RespectsHalves(e: Event) {
    match e
    case Fill(root, first, words, fl, data) => UserFill(e) || KernelFill(e)
    case Create(current, start, limit, creation, root) => creation.addr != 0 ==> PageOf(creation.addr) >= UPPER_HALF
    case _ => true
  }

  ghost predicate UserFill(e: Event)
    requires e.Fill?
  {
    && e.fl == USER_LINK && LowerPages(RangePages(e.first, |e.words|))
    && forall w | w in e.words :: UserEntry(w)
  }

  ghost predicate KernelFill(e: Event)
    requires e.Fill?
  {
    e.fl == KERNEL_LINK && UpperPages(RangePages(e.first, |e.words|))
  }

  ghost predicate AllSeparated(s: State) {
    forall r | IsRoot(s, r) :: Separated(s, r)
  }

  lemma FillPage(s: State, s': State, e: Event, p: nat)
    requires Sound(s) && e.Fill? && IsRoot(s, e.root) && (UserFill(e) || KernelFill(e))
    requires Maps(s, s', e.root, e.first, e.words, e.fl, e.data)
    requires p < UPPER_HALF && PageOpen(s.mem, e.root, p)
    ensures PageOpen(s'.mem, e.root, p)
  {
    hide Sound, PathOpen, PathsExist, Grows, UserEntry, Translates, Leaf;
    var pages := RangePages(e.first, |e.words|);
    OwnTranslation(s, s', e.root, e.first, e.words, p);
    WrittenInRange(p, e.first, e.words);
    if UserFill(e) {
      UserMappingKeepsOpen(s, s', e.root, pages, e.data, p);
      if LastWrite(p, e.first, e.words).Some? {
        var k := LastWriteWhich(p, e.first, e.words);
      }
    } else {
      UpperMappingKeepsOpen(s, s', e.root, pages, e.fl, e.data, p);
    }
  }

  /** Below every slot but the last, a mapping leaves the paths of other contexts as they were. */
  lemma {:induction false} ForeignNode(s: State, s': State, root: nat, pages: set<nat>, fl: u64, r: nat, p: nat,
                                       level: nat)
    requires Sound(s) && Sound(s') && IsRoot(s, r) && r != root && p < PAGES && Index(p, 4) != 511 && 1 <= level <= 4
    requires Keeps(s, s') && NewLinks(s, s', root, pages, fl)
    ensures Node(s'.mem, r, p, level) == Node(s.mem, r, p, level)
    ensures level >= 2 && Node(s.mem, r, p, level).Some? ==>
              var f := Node(s.mem, r, p, level).value; s'.mem[f][Index(p, level)] == s.mem[f][Index(p, level)]
    decreases 4 - level
  {
    hide Sound, Keeps, NewLinks, Index;
    KeepsRoot(s, s', r);
    if level == 4 {
      RootIsNode(s, r, p);
      RootIsNode(s', r, p);
    } else {
      ForeignNode(s, s', root, pages, fl, r, p, level + 1);
      SameSize(s, s');
      SameStep(s.mem, s'.mem, r, p, level);
    }
    if level >= 2 && Node(s.mem, r, p, level).Some? {
      ForeignWord(s, s', root, pages, fl, r, p, level);
    }
  }

  lemma SameSize(s: State, s': State)
    requires Keeps(s, s')
    ensures |s'.mem| == |s.mem|
  {}

  lemma ForeignWord(s: State, s': State, root: nat, pages: set<nat>, fl: u64, r: nat, p: nat, level: nat)
    requires Sound(s) && IsRoot(s, r) && r != root && p < PAGES && Index(p, 4) != 511 && 2 <= level <= 4
    requires Keeps(s, s') && NewLinks(s, s', root, pages, fl) && Node(s.mem, r, p, level).Some?
    ensures var f := Node(s.mem, r, p, level).value;
            f < |s'.mem| && s'.mem[f][Index(p, level)] == s.mem[f][Index(p, level)]
  {
    hide Sound, NewLinks, OnPath, IsNodeOf;
    NodeTag(s, r, p, level);
    var f, i := Node(s.mem, r, p, level).value, Index(p, level);
    if s.mem[f][i] != 0 {
      KeptLink(s, s', f, i);
    } else if s'.mem[f][i] != 0 {
      NewLinkTarget(s, s', f, i, root, pages, fl);
    }
  }

  lemma ForeignPage(s: State, s': State, e: Event, r: nat, p: nat)
    requires Sound(s) && e.Fill? && e.first < PAGES && IsRoot(s, e.root) && IsRoot(s, r) && r != e.root
    requires Maps(s, s', e.root, e.first, e.words, e.fl, e.data)
    requires p < UPPER_HALF && PageOpen(s.mem, r, p)
    ensures PageOpen(s'.mem, r, p)
  {
    hide Sound, PathsExist, Translates, Leaf, Takes, OnlyTables, NewTables, NewLinks, Keeps, User, Index;
    HalfSlots(p);
    Isolation(s, s', e.root, e.first, e.words, e.fl, e.data, r, p);
    forall level | 2 <= level <= 4 ensures LinkOpen(s'.mem, r, p, level) {
      assert LinkOpen(s.mem, r, p, level);
      ForeignNode(s, s', e.root, RangePages(e.first, |e.words|), e.fl, r, p, level);
    }
  }

  lemma FillSeparates(s: State, s': State, e: Event)
    requires Sound(s) && AllSeparated(s) && e.Fill? && e.first < PAGES && IsRoot(s, e.root)
    requires UserFill(e) || KernelFill(e)
    requires Maps(s, s', e.root, e.first, e.words, e.fl, e.data)
    ensures AllSeparated(s')
  {
    FillRoots(s, s', e);
    hide Sound, Maps, UserFill, KernelFill, Separated;
    forall r | IsRoot(s', r) ensures Separated(s', r) {
      FillSeparatesAt(s, s', e, r);
    }
  }

  lemma FillSeparatesAt(s: State, s': State, e: Event, r: nat)
    requires Sound(s) && IsRoot(s, r) && Separated(s, r) && e.Fill? && e.first < PAGES && IsRoot(s, e.root)
    requires UserFill(e) || KernelFill(e)
    requires Maps(s, s', e.root, e.first, e.words, e.fl, e.data)
    ensures Separated(s', r)
  {
    FillSlotsAt(s, s', e, r);
    hide Sound, Maps, UserFill, KernelFill, PageOpen, SlotsSeparate;
    forall p | 0 <= p < UPPER_HALF ensures PageOpen(s'.mem, r, p) {
      assert PageOpen(s.mem, r, p);
      if r == e.root {
        FillPage(s, s', e, p);
      } else {
        ForeignPage(s, s', e, r, p);
      }
    }
  }

  lemma FillSlotsAt(s: State, s': State, e: Event, r: nat)
    requires Sound(s) && IsRoot(s, r) && r < |s.mem| && SlotsSeparate(s, r) && e.Fill? && IsRoot(s, e.root)
    requires UserFill(e) || KernelFill(e)
    requires Maps(s, s', e.root, e.first, e.words, e.fl, e.data)
    ensures r < |s'.mem| && SlotsSeparate(s', r)
  {
    hide Sound, Grows, Translates, PathsExist, User, LowerPages, UpperPages;
    var pages := RangePages(e.first, |e.words|);
    if r == e.root {
      FillSlots(s, s', r, pages, e.fl, e.data);
    } else {
      ForeignSlot(s, s', e.root, pages, e.fl, e.data, r, 0);
      forall i | 0 <= i < ENTRIES && s'.mem[r][i] != 0 ensures User(s'.mem[r][i]) <==> i < 256 {
        ForeignSlot(s, s', e.root, pages, e.fl, e.data, r, i);
      }
    }
  }

  lemma UnmapSeparates(s: State, s': State, root: nat, first: nat, n: nat)
    requires Sound(s) && AllSeparated(s) && Unmaps(s, s', root, first, n)
    ensures AllSeparated(s')
  {
    forall r | IsRoot(s', r) ensures Separated(s', r) {
      UnmapSlots(s, s', root, first, n, r);
      hide Sound, Unmaps, PageOpen, SlotsSeparate;
      forall p | 0 <= p < UPPER_HALF ensures PageOpen(s'.mem, r, p) {
        assert Separated(s, r) && PageOpen(s.mem, r, p);
        UnmapPage(s, s', root, first, n, r, p);
      }
    }
  }

  lemma UnmapSlots(s: State, s': State, root: nat, first: nat, n: nat, r: nat)
    requires Sound(s) && AllSeparated(s) && Unmaps(s, s', root, first, n) && IsRoot(s', r)
    ensures IsRoot(s, r) && r < |s'.mem| && SlotsSeparate(s', r)
  {
    hide Sound, SameNodes, LowerOpen;
    assert IsRoot(s, r);
    assert Separated(s, r);
  }

  lemma WriteSeparates(s: State, frame: nat, index: nat, word: u64)
    requires Sound(s) && AllSeparated(s) && frame < |s.mem| && frame !in s.tags && index < ENTRIES
    ensures AllSeparated(s.(mem := Store(s.mem, frame, index, word)))
  {
    var s' := s.(mem := Store(s.mem, frame, index, word));
    forall r | IsRoot(s', r) ensures Separated(s', r) {
      assert IsRoot(s, r) && Separated(s, r);
      hide Sound, PageOpen;
      forall p | 0 <= p < UPPER_HALF ensures PageOpen(s'.mem, r, p) {
        assert PageOpen(s.mem, r, p);
        WritePage(s, r, frame, index, word, p);
      }
    }
  }

  /** A new context has nothing but the kernel's slot, and changes no other. */
  lemma NewContextSeparates(s: State, root: nat)
    requires CanBeContext(s, root) && AllSeparated(s) && s.kernelPdpt < MAX_FRAMES && ZeroBelowLast(s.mem[root])
    ensures AllSeparated(NewContext(s, root))
  {
    var s' := NewContext(s, root);
    NewContextSound(s, root);
    NewKernelOnly(s, root);
    hide Sound, Separated, NewContext, ZeroBelowLast, KernelOnly;
    forall r | IsRoot(s', r) ensures Separated(s', r) {
      if r == root {
        KernelOnlySeparated(s', root);
      } else {
        OldSeparated(s, root, r);
      }
    }
  }

  lemma NewKernelOnly(s: State, root: nat)
    requires CanBeContext(s, root) && s.kernelPdpt < MAX_FRAMES && ZeroBelowLast(s.mem[root])
    ensures KernelOnly(NewContext(s, root), root)
  {
    EntryFields(s.kernelPdpt, 3);
    ThreeBits();
    hide Sound;
  }

  lemma OldSeparated(s: State, root: nat, r: nat)
    requires CanBeContext(s, root) && AllSeparated(s) && s.kernelPdpt < MAX_FRAMES && r != root
    requires IsRoot(NewContext(s, root), r)
    ensures Separated(NewContext(s, root), r)
  {
    var s' := NewContext(s, root);
    assert IsRoot(s, r) && Separated(s, r);
    hide Sound, PageOpen, User;
    forall p | 0 <= p < UPPER_HALF ensures PageOpen(s'.mem, r, p) {
      assert PageOpen(s.mem, r, p);
      OldPage(s, root, r, p);
    }
  }

  lemma OldPage(s: State, root: nat, r: nat, p: nat)
    requires CanBeContext(s, root) && s.kernelPdpt < MAX_FRAMES && IsRoot(s, r) && p < PAGES
    requires PageOpen(s.mem, r, p)
    ensures PageOpen(NewContext(s, root).mem, r, p)
  {
    hide Sound, User, Leaf, Index, Node;
    OtherContexts(s, root, r, p, 1);
    forall level | 2 <= level <= 4 ensures LinkOpen(NewContext(s, root).mem, r, p, level) {
      assert LinkOpen(s.mem, r, p, level);
      OtherContexts(s, root, r, p, level);
      NodeTag(s, r, p, level);
    }
  }

  lemma CreateSeparates(m: Moment, e: Event, m': Moment)
    requires Sound(m.state) && AllSeparated(m.state) && e.Create? && Step(m, e, m') && RespectsHalves(e)
    ensures AllSeparated(m'.state)
  {
    var c := e.creation;
    CreationFilled(m, e, m');
    hide Sound, FillsLowestHole, ZeroBelowLast, NewContext, Separated;
    assert AllSeparated(c.before) by {
      forall r | IsRoot(c.before, r) ensures Separated(c.before, r) {
        SeparatedUsed(c.filled, c.before, r);
      }
    }
    NewContextSeparates(c.before, e.root);
  }

  lemma SeparatedUsed(s: State, s': State, r: nat)
    requires AllSeparated(s) && s'.mem == s.mem && s'.tags == s.tags && IsRoot(s', r)
    ensures Separated(s', r)
  {
    hide User, PageOpen;
    assert IsRoot(s, r) && Separated(s, r);
  }

  lemma CreationFilled(m: Moment, e: Event, m': Moment)
    requires Sound(m.state) && AllSeparated(m.state) && e.Create? && Step(m, e, m') && RespectsHalves(e)
    ensures AllSeparated(e.creation.filled)
  {
    hide Sound, Maps, NoHoleBelow, IsHole, PageOf, AllSeparated, ZeroBelowLast, NewContext;
    var c := e.creation;
    if c.addr != 0 {
      var f := Fill(e.current, PageOf(c.addr), [StructureEntry(c)], LinkFlags(false), {c.frame});
      StructurePages(c);
      LinkFlagValues(false);
      FillSeparates(m.state, c.filled, f);
    }
  }

  lemma StepSeparates(m: Moment, e: Event, m': Moment)
    requires Sound(m.state) && AllSeparated(m.state) && Step(m, e, m') && RespectsHalves(e)
    ensures AllSeparated(m'.state)
  {
    hide Sound, Separated, UserFill, KernelFill, Maps, Unmaps, CreatesContext, MayMap, ZeroBelowLast;
    match e {
      case Fill(root, first, words, fl, data) => FillSeparates(m.state, m'.state, e);
      case Unmap(root, first, n) => UnmapSeparates(m.state, m'.state, root, first, n);
      case Create(current, start, limit, creation, root) => CreateSeparates(m, e, m');
      case Take(taken) =>
        forall r | IsRoot(m'.state, r) ensures Separated(m'.state, r) { SeparatedUsed(m.state, m'.state, r); }
      case Give(given) =>
        forall r | IsRoot(m'.state, r) ensures Separated(m'.state, r) { SeparatedUsed(m.state, m'.state, r); }
      case Write(frame, index, word) => WriteSeparates(m.state, frame, index, word);
    }
  }

  lemma {:induction false} RunSeparates(moments: seq<Moment>, events: seq<Event>, boot: nat, base: nat,
                                        frames: set<nat>, k: nat)
    requires IsRun(moments, events) && k < |moments| && base < PAGES && Kept(moments[0], boot, base, frames)
    requires AllSeparated(moments[0].state) && forall e | e in events :: RespectsHalves(e)
    ensures AllSeparated(moments[k].state)
  {
    hide Kept, Step, AllSeparated, RespectsHalves;
    if k > 0 {
      RunSeparates(moments, events, boot, base, frames, k - 1);
      RunKeeps(moments, events, boot, base, frames, k - 1);
      KeptSound(moments[k - 1], boot, base, frames);
      assert RespectsHalves(events[k - 1]);
      StepSeparates(moments[k - 1], events[k - 1], moments[k]);
    }
  }

  /**
    Over every run that respects the halves, in every context there is: user mode can read and write
    everything mapped in the lower half, all four levels granting it, and can access nothing in the
    upper half.
   */
  lemma RunKeepsHalves(moments: seq<Moment>, events: seq<Event>, boot: nat, base: nat, frames: set<nat>, k: nat,
                       r: nat, va: u64)
    requires IsRun(moments, events) && k < |moments| && base < PAGES && Kept(moments[0], boot, base, frames)
    requires AllSeparated(moments[0].state) && forall e | e in events :: RespectsHalves(e)
    requires IsRoot(moments[k].state, r)
    ensures var a := Translate(moments[k].state.mem, r, va);
            a.Mapped? ==> (a.user <==> va < LOWER_END) && (va < LOWER_END ==> a.writable)
  {
    hide Kept, Step, Separated, RespectsHalves, Translate;
    RunSeparates(moments, events, boot, base, frames, k);
    RunKeeps(moments, events, boot, base, frames, k);
    KeptSound(moments[k], boot, base, frames);
    SeparatedAccess(moments[k].state, r, va);
  }

  // ---------------------------------------------------------------- PML4 slots

  /** What the event maps in context `r` lies in the given half. */
  ghost predicate FillsOnly(e: Event, r: nat, upper: bool) {
    match e
    case Fill(root, first, words, fl, data) => root == r ==> InHalf(RangePages(first, |words|), upper)
    case Create(current, start, limit, creation, root) =>
      current == r && creation.addr != 0 ==> InHalf({PageOf(creation.addr)}, upper)
    case _ => true
  }

  lemma MapKeepsSlots(s: State, s': State, root: nat, pages: set<nat>, fl: u64, data: set<nat>, r: nat, upper: bool)
    requires Sound(s) && Sound(s') && IsRoot(s, root) && IsRoot(s, r) && Grows(s, s', root, pages, fl, data)
    requires root == r ==> InHalf(pages, upper)
    ensures r < |s.mem| && r < |s'.mem| && SameSlots(s, s', r, !upper)
  {
    hide Sound, Grows, InHalf;
    if root == r {
      HalfKeepsSlots(s, s', r, pages, fl, data, upper);
    } else {
      ForeignSlot(s, s', root, pages, fl, data, r, 0);
      forall i | 0 <= i < ENTRIES ensures s'.mem[r][i] == s.mem[r][i] {
        ForeignSlot(s, s', root, pages, fl, data, r, i);
      }
    }
  }

  lemma CreateKeepsSlots(m: Moment, e: Event, m': Moment, r: nat, upper: bool)
    requires Sound(m.state) && IsRoot(m.state, r) && e.Create? && Step(m, e, m') && FillsOnly(e, r, upper)
    ensures r < |m.state.mem| && r < |m'.state.mem| && SameSlots(m.state, m'.state, r, !upper)
  {
    assert GoodTag(m.state, r, m.state.tags[r]);
    var c := e.creation;
    if c.addr != 0 {
      StructurePages(c);
      hide Sound, Grows, Translates, PathsExist, NoHoleBelow, IsHole, PageOf, InHalf, ZeroBelowLast;
      MapKeepsSlots(m.state, c.filled, e.current, RangePages(PageOf(c.addr), |[StructureEntry(c)]|), LinkFlags(false),
                    {c.frame}, r, upper);
    }
    RootElsewhere(m, e, m', r);
  }

  lemma RootElsewhere(m: Moment, e: Event, m': Moment, r: nat)
    requires Sound(m.state) && IsRoot(m.state, r) && e.Create? && Step(m, e, m')
    ensures r < |e.creation.filled.mem| && r < |m'.state.mem| && m'.state.mem[r] == e.creation.filled.mem[r]
  {
    hide Translates, PathsExist, NoHoleBelow, IsHole, PageOf, ZeroBelowLast, NewLinks, NewTables, OnlyTables, Takes;
    assert GoodTag(m.state, r, m.state.tags[r]);
    TagsUsed(e.creation.filled);
  }

  lemma StepKeepsSlots(m: Moment, e: Event, m': Moment, r: nat, upper: bool)
    requires Sound(m.state) && IsRoot(m.state, r) && Step(m, e, m') && FillsOnly(e, r, upper)
    ensures r < |m.state.mem| && r < |m'.state.mem| && SameSlots(m.state, m'.state, r, !upper)
    ensures IsRoot(m'.state, r)
  {
    RootIsNode(m.state, r, 0);
    hide Sound, Grows, Translates, PathsExist, SameNodes, InHalf, CreatesContext, ZeroBelowLast, MayMap;
    match e {
      case Fill(root, first, words, fl, data) =>
        MapKeepsSlots(m.state, m'.state, root, RangePages(first, |words|), fl, data, r, upper);
        MapsRoot(m.state, m'.state, r, e);
      case Create(current, start, limit, creation, root) =>
        CreateKeepsSlots(m, e, m', r, upper);
        CreationKeeps(m.state, current, start, limit, creation, root, m'.state);
      case Unmap(root, first, n) =>
      case Take(taken) =>
      case Give(given) =>
      case Write(frame, index, word) =>
    }
  }

  /** While a context maps in one half only, no PML4 slot of its other half changes, whatever other contexts do. */
  lemma {:induction false} RunKeepsSlots(moments: seq<Moment>, events: seq<Event>, boot: nat, base: nat,
                                         frames: set<nat>, r: nat, upper: bool, k: nat)
    requires IsRun(moments, events) && k < |moments| && base < PAGES && Kept(moments[0], boot, base, frames)
    requires IsRoot(moments[0].state, r) && forall e | e in events :: FillsOnly(e, r, upper)
    ensures r < |moments[0].state.mem| && r < |moments[k].state.mem| && IsRoot(moments[k].state, r)
    ensures SameSlots(moments[0].state, moments[k].state, r, !upper)
  {
    hide Kept, Step, FillsOnly;
    if k == 0 {
      KeptSound(moments[0], boot, base, frames);
      RootIsNode(moments[0].state, r, 0);
    } else {
      RunKeepsSlots(moments, events, boot, base, frames, r, upper, k - 1);
      RunKeeps(moments, events, boot, base, frames, k - 1);
      assert FillsOnly(events[k - 1], r, upper);
      KeptSound(moments[k - 1], boot, base, frames);
      StepKeepsSlots(moments[k - 1], events[k - 1], moments[k], r, upper);
    }
  }
}
