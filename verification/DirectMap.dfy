/**
  The direct map: physical frame `f` appears at the page `f` steps above the direct map's first
  page. The kernel reaches its page tables through it, while those same tables define it.
 */
module DirectMap {
  import opened Bits
  import opened Rounding
  import opened Options
  import opened PageTables
  import opened TableEdits
  import opened Growth
  import opened Mapping
  import opened Entries
  import opened Contexts
  import opened Limine
  import opened Phys
  import Hardware

  /** The entry maps frame `f`, present and writable, whatever other flags it has. */
  ghost predicate ForFrame(w: u64, f: nat) {
    w / 4096 == f && TestBit(w, 0) && TestBit(w, 1)
  }

  lemma ForFrameReads(w: u64, f: nat)
    requires ForFrame(w, f) && f < PAGES
    ensures w != 0 && FrameOf(w) == f == Hardware.HwFrame(w)
    ensures Hardware.Present(w) && Hardware.Writable(w)
  {
    ZeroTest(0);
  }

  /** The entry the kernel writes for any address maps that address's frame. */
  lemma KernelEntry(addr: u64)
    ensures ForFrame(EntryWord(addr, 3), addr / 4096)
  {
    EntryOfAny(addr, 3, 0);
    EntryOfAny(addr, 3, 1);
    ThreeBits();
  }

  /** Every frame of the set is mapped at its place in the direct map that starts at page `base`. */
  ghost predicate DirectMapped(s: State, root: nat, base: nat, frames: set<nat>) {
    forall f | f in frames :: InPlace(s, root, base, f)
  }

  ghost predicate InPlace(s: State, root: nat, base: nat, f: nat) {
    f < PAGES && ForFrame(Leaf(s.mem, root, PageAt(base, f)), f)
  }

  ghost function DirectPages(base: nat, frames: set<nat>): set<nat> {
    set f | f in frames :: PageAt(base, f)
  }

  /** A context that is written only outside the direct map keeps it. */
  lemma UntouchedStays(s: State, s': State, root: nat, base: nat, first: nat, words: seq<u64>, fl: u64,
                       data: set<nat>, frames: set<nat>)
    requires IsRoot(s, root) && base < PAGES && Maps(s, s', root, first, words, fl, data)
    requires DirectMapped(s, root, base, frames) && RangePages(first, |words|) !! DirectPages(base, frames)
    ensures DirectMapped(s', root, base, frames)
  {
    forall f | f in frames ensures InPlace(s', root, base, f) {
      var q := PageAt(base, f);
      assert InPlace(s, root, base, f);
      assert q in DirectPages(base, frames);
      WrittenInRange(q, first, words);
      OwnTranslation(s, s', root, first, words, q);
    }
  }

  lemma {:induction false} HoleUnmapped(m: Memory, root: nat, first: nat, n: nat, q: nat)
    requires IsHole(m, root, first, n) && q in RangePages(first, n)
    ensures Leaf(m, root, q) == 0
  {
    if q != PageAt(first, n - 1) {
      HoleUnmapped(m, root, first, n - 1, q);
    }
  }

  /**
    Through the direct map, the processor's access at `hhdm + frame * 4096 + offset` reaches that
    physical address, and may write there. This is what makes `s_phys_to_virt` of a table a
    pointer to the table.
   */
  lemma DirectAccess(s: State, root: nat, hhdm: u64, frames: set<nat>, f: nat, offset: nat, va: u64)
    requires va == hhdm + f * 4096 + offset && hhdm % 4096 == 0 && hhdm >= 0xffff_8000_0000_0000 && offset < 4096
    requires Sound(s) && IsRoot(s, root) && DirectMapped(s, root, PageOf(hhdm), frames) && f in frames
    ensures var a := Hardware.Translate(s.mem, root, va); a.Mapped? && a.addr == f * 4096 + offset && a.writable
  {
    hide Sound, PageOf, Hardware.PathOpen, Hardware.Translate;
    assert InPlace(s, root, PageOf(hhdm), f);
    DirectPage(hhdm, f, offset);
    ForFrameReads(Leaf(s.mem, root, PageOf(va)), f);
    Hardware.TranslateIsLeaf(s, root, va);
  }

  lemma DirectPage(hhdm: u64, f: nat, offset: nat)
    requires hhdm % 4096 == 0 && offset < 4096 && hhdm + f * 4096 + offset < TWO_64
    ensures PageOf(hhdm + f * 4096 + offset) == PageAt(PageOf(hhdm), f)
    ensures (hhdm + f * 4096 + offset) % 4096 == offset
  {
    PageSteps(hhdm, 4096 * f, f);
    assert (hhdm + f * 4096 + offset) / 4096 == hhdm / 4096 + f == (hhdm + 4096 * f) / 4096;
  }

  // ---------------------------------------------------------------- construction

  lemma {:induction false} LastWriteWhich(q: nat, first: nat, words: seq<u64>) returns (k: nat)
    requires LastWrite(q, first, words).Some?
    ensures k < |words| && PageAt(first, k) == q && LastWrite(q, first, words) == Some(words[k])
  {
    if PageAt(first, |words| - 1) == q {
      k := |words| - 1;
    } else {
      k := LastWriteWhich(q, first, words[..|words| - 1]);
    }
  }

  lemma {:induction false} PageAtSum(base: nat, b: nat, k: nat)
    ensures PageAt(PageAt(base, b), k) == PageAt(base, b + k)
  {
    if k > 0 {
      PageAtSum(base, b, k - 1);
    }
  }

  lemma PageAtInjective(base: nat, f: nat, g: nat)
    requires base < PAGES && f < PAGES && g < PAGES && PageAt(base, f) == PageAt(base, g)
    ensures f == g
  {
    RingDistance(PageAt(base, f), base, f);
    RingDistance(PageAt(base, f), base, g);
  }

  lemma {:induction false} InRangeAt(first: nat, n: nat, k: nat)
    requires k < n
    ensures PageAt(first, k) in RangePages(first, n)
  {
    if k < n - 1 {
      InRangeAt(first, n - 1, k);
    }
  }

  /**
    Mapping the frames from that of `addr` on at their place in the direct map adds them, also where
    they overlap what is mapped, and also when `addr` is not page-aligned.
   */
  lemma RunInPlace(s: State, s': State, root: nat, base: nat, frames: set<nat>, addr: u64, n: nat, fl: u64)
    requires IsRoot(s, root) && base < PAGES && addr / 4096 + n <= PAGES
    requires DirectMapped(s, root, base, frames)
    requires Maps(s, s', root, PageAt(base, addr / 4096), MapWords(addr, n, 3), fl, {})
    ensures DirectMapped(s', root, base, frames + FrameRange(addr / 4096, n))
  {
    forall f | f in frames + FrameRange(addr / 4096, n) ensures InPlace(s', root, base, f) {
      FrameInPlace(s, s', root, base, frames, addr, n, fl, f);
    }
  }

  lemma FrameInPlace(s: State, s': State, root: nat, base: nat, frames: set<nat>, addr: u64, n: nat, fl: u64, f: nat)
    requires IsRoot(s, root) && base < PAGES && addr / 4096 + n <= PAGES
    requires DirectMapped(s, root, base, frames)
    requires Maps(s, s', root, PageAt(base, addr / 4096), MapWords(addr, n, 3), fl, {})
    requires f in frames + FrameRange(addr / 4096, n)
    ensures InPlace(s', root, base, f)
  {
    hide Sound, Grows, PathsExist, Translates, ForFrame, MapWords;
    if f in frames {
      assert InPlace(s, root, base, f);
    }
    OwnTranslation(s, s', root, PageAt(base, addr / 4096), MapWords(addr, n, 3), PageAt(base, f));
    PlaceWrite(base, addr, n, f);
  }

  /** What mapping a run of frames writes at the place of frame `f`: an entry for `f`, exactly if it is in the run. */
  lemma PlaceWrite(base: nat, addr: u64, n: nat, f: nat)
    requires base < PAGES && addr / 4096 + n <= PAGES && f < PAGES
    ensures match LastWrite(PageAt(base, f), PageAt(base, addr / 4096), MapWords(addr, n, 3))
            case None => f !in FrameRange(addr / 4096, n)
            case Some(w) => f in FrameRange(addr / 4096, n) && ForFrame(w, f)
  {
    hide ForFrame, MapWords, LastWrite, PageAt, RangePages;
    var b, words, q := addr / 4096, MapWords(addr, n, 3), PageAt(base, f);
    var first := PageAt(base, b);
    WordsLength(addr, n, 3);
    if LastWrite(q, first, words).Some? {
      var k := LastWriteWhich(q, first, words);
      PageAtSum(base, b, k);
      PageAtInjective(base, f, b + k);
      EntryOfRun(addr, n, k);
    } else if f in FrameRange(b, n) {
      WrittenInRange(q, first, words);
      PageAtSum(base, b, f - b);
      InRangeAt(first, n, f - b);
    }
  }

  lemma WordsLength(physAddr: u64, n: nat, flags: u64)
    ensures |MapWords(physAddr, n, flags)| == n
  {}

  lemma EntryOfRun(addr: u64, n: nat, k: nat)
    requires addr / 4096 + n <= PAGES && k < n
    ensures |MapWords(addr, n, 3)| == n && ForFrame(MapWords(addr, n, 3)[k], addr / 4096 + k)
  {
    hide ForFrame, EntryWord, Wrap;
    MapWordsAt(addr, n, 3, k);
    RunAddress(addr, n, k);
    KernelEntry(addr + 4096 * k);
  }

  lemma RunAddress(addr: u64, n: nat, k: nat)
    requires addr / 4096 + n <= PAGES && k < n
    ensures Wrap(addr + 4096 * k) == addr + 4096 * k && (addr + 4096 * k) / 4096 == addr / 4096 + k
  {
    WholePages(addr, k);
  }

  /** The frames of the first `i` memory-map entries that belong in the direct map. */
  ghost function Covered(entries: seq<MemmapEntry>, i: nat): set<nat>
    requires i <= |entries|
  {
    if i == 0 then {} else Covered(entries, i - 1) + EntryFrames(entries[i - 1])
  }

  ghost function EntryFrames(e: MemmapEntry): set<nat> {
    if IsDirectMapped(e.kind) then FrameRange(e.base / 4096, Ceil(e.length, 4096)) else {}
  }

  /**
    The mapped frames of a region hold all its bytes exactly if its length, rounded up, makes up for
    the offset of its base within a page: always if the base is aligned.
   */
  lemma RegionCoveredIff(e: MemmapEntry)
    requires IsDirectMapped(e.kind) && e.length > 0
    ensures (forall p | e.base <= p < e.base + e.length :: p / 4096 in EntryFrames(e))
            <==> e.base % 4096 + e.length <= 4096 * Ceil(e.length, 4096)
  {
    var b, n := e.base / 4096, Ceil(e.length, 4096);
    if e.base % 4096 + e.length > 4096 * n {
      var last := e.base + e.length - 1;
      assert last / 4096 >= b + n;
      assert last / 4096 !in EntryFrames(e);
    } else {
      forall p | e.base <= p < e.base + e.length ensures p / 4096 in EntryFrames(e) {
        assert b <= p / 4096 < b + n;
      }
    }
  }

  /** What one entry covers is part of what all cover. */
  lemma {:induction false} EntryCovered(entries: seq<MemmapEntry>, i: nat, j: nat)
    requires j < i <= |entries|
    ensures EntryFrames(entries[j]) <= Covered(entries, i)
  {
    if j < i - 1 {
      EntryCovered(entries, i - 1, j);
    }
  }

  /** A frame is covered exactly if some region of the six kinds reaches it. */
  lemma {:induction false} CoveredIff(entries: seq<MemmapEntry>, i: nat, f: nat)
    requires i <= |entries|
    ensures f in Covered(entries, i)
            <==> exists j :: 0 <= j < i
                             && (entries[j].kind.Usable? || entries[j].kind.BootloaderReclaimable?
                                 || entries[j].kind.ExecutableAndModules? || entries[j].kind.ReservedMapped?
                                 || entries[j].kind.AcpiReclaimable? || entries[j].kind.AcpiNvs?)
                             && entries[j].base / 4096 <= f < entries[j].base / 4096 + Ceil(entries[j].length, 4096)
  {
    if i > 0 {
      CoveredIff(entries, i - 1, f);
    }
  }

  /** Every frame of the set lies below `top` in the direct map. */
  ghost predicate Below(hhdm: u64, frames: set<nat>, top: int) {
    forall f | f in frames :: hhdm + f * 4096 < top
  }

  /** A window above the direct map shares no page with it. */
  lemma WindowApart(hhdm: u64, frames: set<nat>, window: u64, n: nat)
    requires hhdm % 4096 == 0 && hhdm >= 0xffff_8000_0000_0000 && window % 4096 == 0 && hhdm <= window
    requires Below(hhdm, frames, window) && window + 4096 * n <= TWO_64
    ensures RangePages(PageOf(window), n) !! DirectPages(PageOf(hhdm), frames)
  {
    hide PageOf;
    UpperPage(window);
    UpperPage(hhdm);
    forall q | q in RangePages(PageOf(window), n) ensures q !in DirectPages(PageOf(hhdm), frames) {
      RangeBounds(PageOf(window), n, q);
      forall f | f in frames ensures PageAt(PageOf(hhdm), f) != q {
        assert hhdm + f * 4096 < window;
        NoWrap(PageOf(hhdm), f);
      }
    }
  }

  /** The state in which `virt_init` starts mapping: an empty PML4 and an empty kernel PDPT. */
  ghost function BootState(s: State, pdpt: nat, root: nat): State {
    State(s.mem, map[pdpt := Tag(Kernel, 3, 511), root := Tag(Context(root), 4, 0)], s.used, pdpt)
  }

  /** Neither frame is cleared, so the boot tables are sound because both are zero to begin with. */
  lemma BootSound(s: State, pdpt: nat, root: nat)
    requires |s.mem| <= MAX_FRAMES && pdpt != root && pdpt < |s.mem| && root < |s.mem|
    requires pdpt in s.used && root in s.used && s.mem[pdpt] == ZeroFrame() && s.mem[root] == ZeroFrame()
    ensures Sound(BootState(s, pdpt, root)) && IsRoot(BootState(s, pdpt, root), root)
    ensures HasKernelPdpt(BootState(s, pdpt, root))
  {
    var b := BootState(s, pdpt, root);
    forall f | f in b.tags ensures GoodTag(b, f, b.tags[f]) && GoodLinks(b, f) {}
  }

  // ---------------------------------------------------------------- other writes

  /** Writing outside the tables changes no node and no translation of any context. */
  lemma DataWrite(s: State, frame: nat, index: nat, word: u64, r: nat, q: nat)
    requires Sound(s) && IsRoot(s, r) && q < PAGES && frame < |s.mem| && frame !in s.tags && index < ENTRIES
    ensures var s' := s.(mem := Store(s.mem, frame, index, word));
            Sound(s') && Leaf(s'.mem, r, q) == Leaf(s.mem, r, q)
  {
    var s' := s.(mem := Store(s.mem, frame, index, word));
    DataWriteSound(s, frame, index, word);
    NodeAgrees(s, s'.mem, r, q, 1);
    NodeTag(s, r, q, 1);
  }

  lemma DataWriteSound(s: State, frame: nat, index: nat, word: u64)
    requires Sound(s) && frame < |s.mem| && frame !in s.tags && index < ENTRIES
    ensures Sound(s.(mem := Store(s.mem, frame, index, word)))
  {
    var s' := s.(mem := Store(s.mem, frame, index, word));
    forall f | f in s'.tags ensures GoodTag(s', f, s'.tags[f]) {
      assert GoodTag(s, f, s.tags[f]);
    }
    forall f | f in s'.tags && s'.tags[f].level > 1 ensures GoodLinks(s', f) {
      assert GoodLinks(s, f);
    }
  }

  /** For what such a write leaves alone, it counts as growth. */
  lemma WriteAccess(s: State, frame: nat, index: nat, word: u64, r: nat, q: nat)
    requires Sound(s) && IsRoot(s, r) && q < PAGES && frame < |s.mem| && frame !in s.tags && index < ENTRIES
    ensures var s' := s.(mem := Store(s.mem, frame, index, word));
            Sound(s') && Keeps(s, s') && Leaf(s'.mem, r, q) == Leaf(s.mem, r, q)
  {
    hide Sound, Leaf;
    DataWrite(s, frame, index, word, r, q);
  }
}
