/**
  The physical frame allocator: a bitmap with one bit per 4 KiB frame, set when the
  frame is used.
 */
module Phys {
  import opened Bits
  import opened Limine
  import opened Rounding

  const PHYS_PAGE_SIZE: u64 := 4096
  /** Physical addresses have at most 52 bits. */
  const MAX_PHYS: u64 := 0x10_0000_0000_0000

  const FULLY_USED: u64 := TWO_64 - 1

  /** The frames a bitmap marks as used. */
  function UsedFrames(words: seq<u64>): set<nat> {
    set f: nat | f < 64 * |words| && TestBit(words[f / 64], f % 64)
  }

  /** The frames `base`, `base + 1`, ..., `base + n - 1`. */
  function FrameRange(base: nat, n: nat): set<nat> {
    set f: nat | base <= f < base + n && InRun(f, base, n)
  }

  predicate InRun(f: nat, base: nat, n: nat) {
    base <= f < base + n
  }

  /** The lowest frame in [from, limit) that is not used, or `limit`. */
  function FirstFree(used: set<nat>, from: nat, limit: nat): (f: nat)
    decreases (limit as int) - (from as int)
  {
    if from >= limit then limit
    else if from !in used then from
    else FirstFree(used, from + 1, limit)
  }

  /** The lowest base in [from, limit) with `n` frames free in a row, or `limit`. */
  function FirstFit(used: set<nat>, from: nat, limit: nat, n: nat): (f: nat)
    decreases (limit as int) - (from as int)
  {
    if from >= limit then limit
    else if FrameRange(from, n) !! used then from
    else FirstFit(used, from + 1, limit, n)
  }

  /** The address an allocation returns and the used frames it leaves; address 0 stands for failure. */
  function GrantFrame(used: set<nat>, capacity: nat): (nat, set<nat>) {
    var f := FirstFree(used, 0, capacity);
    if f < capacity then (f * 4096, used + {f}) else (0, used)
  }

  function GrantRegion(used: set<nat>, limit: nat, n: nat): (nat, set<nat>) {
    var f := FirstFit(used, 0, limit, n);
    if f < limit then (f * 4096, used + FrameRange(f, n)) else (0, used)
  }

  lemma {:induction false} FirstFreeIsLowest(used: set<nat>, from: nat, limit: nat)
    requires from <= limit
    ensures from <= FirstFree(used, from, limit) <= limit
    ensures FirstFree(used, from, limit) < limit ==> FirstFree(used, from, limit) !in used
    ensures AllUsed(used, from, FirstFree(used, from, limit))
    decreases (limit as int) - (from as int)
  {
    if from < limit && from in used {
      FirstFreeIsLowest(used, from + 1, limit);
    }
  }

  lemma {:induction false} FirstFitIsLowest(used: set<nat>, from: nat, limit: nat, n: nat)
    requires from <= limit
    ensures from <= FirstFit(used, from, limit, n) <= limit
    ensures FirstFit(used, from, limit, n) < limit ==> FrameRange(FirstFit(used, from, limit, n), n) !! used
    ensures forall g: nat | from <= g < FirstFit(used, from, limit, n) :: !(FrameRange(g, n) !! used)
    decreases (limit as int) - (from as int)
  {
    if from < limit && !(FrameRange(from, n) !! used) {
      FirstFitIsLowest(used, from + 1, limit, n);
    }
  }

  /** Below a limit that the bitmap covers, the whole bitmap's first free frame is the limit's. */
  lemma FirstFreeWithin(used: set<nat>, limit: nat, capacity: nat)
    requires limit <= capacity
    ensures var f := FirstFree(used, 0, capacity);
            FirstFree(used, 0, limit) == if f < limit then f else limit
  {
    FirstFreeIsLowest(used, 0, limit);
    FirstFreeIsLowest(used, 0, capacity);
  }

  /** The search depends only on the frames it looks at. */
  lemma {:induction false} FirstFreeAgrees(used: set<nat>, used': set<nat>, from: nat, limit: nat)
    requires forall f: nat | from <= f < limit :: f in used <==> f in used'
    ensures FirstFree(used, from, limit) == FirstFree(used', from, limit)
    decreases (limit as int) - (from as int)
  {
    if from < limit && from in used {
      FirstFreeAgrees(used, used', from + 1, limit);
    }
  }

  /** Skipping ahead: no run that contains a used frame fits, so the search may resume past it. */
  lemma {:induction false} SkipPast(used: set<nat>, from: nat, limit: nat, n: nat, block: nat)
    requires from <= block < from + n && block in used
    ensures FirstFit(used, from, limit, n) == FirstFit(used, block + 1, limit, n)
    decreases (block as int) - (from as int)
  {
    assert block in FrameRange(from, n);
    if from < limit && from < block {
      SkipPast(used, from + 1, limit, n, block);
    }
  }

  lemma Resume(used: set<nat>, addr: u64, i: u64, length: u64, limit: nat)
    requires addr % 4096 == 0 && i % 4096 == 0 && i < length && addr / 4096 + i / 4096 in used
    ensures var n := Ceil(length, 4096);
            FirstFit(used, addr / 4096, limit, n) == FirstFit(used, (addr + i + 4096) / 4096, limit, n)
  {
    SkipPast(used, addr / 4096, limit, Ceil(length, 4096), addr / 4096 + i / 4096);
  }

  lemma {:induction false} FirstFreeSkip(used: set<nat>, from: nat, to: nat, limit: nat)
    requires from <= to
    requires AllUsed(used, from, to)
    ensures FirstFree(used, from, limit) == FirstFree(used, to, limit)
    decreases (to as int) - (from as int)
  {
    if from < to {
      FirstFreeSkip(used, from + 1, to, limit);
    }
  }

  lemma {:induction false} FrameRangeSize(base: nat, n: nat)
    ensures |FrameRange(base, n)| == n
  {
    if n == 0 {
      assert FrameRange(base, n) == {};
    } else {
      FrameRangeSize(base, n - 1);
      assert FrameRange(base, n) == FrameRange(base, n - 1) + {base + n - 1};
    }
  }

  ghost predicate AllUsed(used: set<nat>, from: nat, to: nat) {
    forall g: nat | from <= g < to :: g in used
  }

  /** Setting a frame's bit adds exactly that frame to the used ones. */
  lemma SetBit(words: seq<u64>, f: nat, w: u64)
    requires f < 64 * |words| && w == BitOr(words[f / 64], Pow2(f % 64))
    ensures UsedFrames(words[f / 64 := w]) == UsedFrames(words) + {f}
  {
    var words' := words[f / 64 := w];
    forall g: nat | g < 64 * |words|
      ensures TestBit(words'[g / 64], g % 64) == (g == f || TestBit(words[g / 64], g % 64))
    {
      if g / 64 == f / 64 {
        OrTest(words[f / 64], Pow2(f % 64), g % 64);
        PowTest(f % 64, g % 64);
      }
    }
  }

  /** Clearing a frame's bit removes exactly that frame. */
  lemma ClearBit(words: seq<u64>, f: nat, w: u64)
    requires f < 64 * |words| && Pow2(f % 64) < TWO_64
    requires w == BitAnd(words[f / 64], BitNot64(Pow2(f % 64)))
    ensures UsedFrames(words[f / 64 := w]) == UsedFrames(words) - {f}
  {
    var words' := words[f / 64 := w];
    PowersOfTwo();
    forall g: nat | g < 64 * |words|
      ensures TestBit(words'[g / 64], g % 64) == (g != f && TestBit(words[g / 64], g % 64))
    {
      if g / 64 == f / 64 {
        AndTest(words[f / 64], BitNot64(Pow2(f % 64)), g % 64);
        NotTest(Pow2(f % 64), 64, g % 64);
        PowTest(f % 64, g % 64);
      }
    }
  }

  function BitmapIndex(addr: u64): nat { addr / PHYS_PAGE_SIZE / 64 }

  function BitmapBitPos(addr: u64): nat { addr / PHYS_PAGE_SIZE % 64 }

  function BitmapMask(addr: u64): u64 {
    MaskFits(BitmapBitPos(addr));
    Pow2(BitmapBitPos(addr))
  }

  /** The frames of the first `i` memory-map entries that are usable. */
  ghost function UsableFrames(entries: seq<MemmapEntry>, i: nat): set<nat>
    requires i <= |entries|
  {
    if i == 0 then {}
    else
      var e := entries[i - 1];
      UsableFrames(entries, i - 1) + if e.kind.Usable? then FrameRange(e.base / 4096, Ceil(e.length, 4096)) else {}
  }

  /** A frame is usable exactly if it lies in some region of the usable kind. */
  lemma {:induction false} UsableIff(entries: seq<MemmapEntry>, i: nat, f: nat)
    requires i <= |entries| && forall e | e in entries && e.kind.Usable? :: e.base % 4096 == 0
    ensures f in UsableFrames(entries, i)
            <==> exists j :: 0 <= j < i && entries[j].kind.Usable?
                             && entries[j].base <= 4096 * f < entries[j].base + entries[j].length
  {
    if i > 0 {
      UsableIff(entries, i - 1, f);
      var e := entries[i - 1];
      if e.kind.Usable? {
        assert e in entries;
        RegionFrames(e.base, e.length, f);
      }
    }
  }

  lemma RegionFrames(base: u64, length: u64, f: nat)
    requires base % 4096 == 0
    ensures f in FrameRange(base / 4096, Ceil(length, 4096)) <==> base <= 4096 * f < base + length
  {}

  /** The end of the last memory-map entry, taken as the size of the physical address space. */
  function SpaceSize(entries: seq<MemmapEntry>): int
    requires |entries| > 0
  {
    entries[|entries| - 1].base + entries[|entries| - 1].length
  }

  /** Usable regions are page-aligned and lie inside the address space, which fits the direct map. */
  ghost predicate MemmapLayout(entries: seq<MemmapEntry>) {
    && |entries| > 0 && 0 < SpaceSize(entries) <= 0x8000_0000_0000
    && forall e | e in entries && e.kind.Usable? :: e.base % 4096 == 0 && e.base + e.length <= SpaceSize(entries)
  }

  /** Where the bitmap goes in a region: frame 0 is left out. */
  function StorageBase(e: MemmapEntry): u64 {
    if e.base == 0 then 4096 else e.base
  }

  /** The region is usable and longer than the bitmap, in 64-bit arithmetic once frame 0 is left out. */
  predicate HoldsBitmap(e: MemmapEntry, size: int) {
    e.kind.Usable? && (if e.base == 0 then Wrap(e.length - 4096) else e.length) > size
  }

  /** The bytes the bitmap is filled with at first: one for eight frames. */
  function BitmapBytes(entries: seq<MemmapEntry>): nat
    requires MemmapLayout(entries)
  {
    Ceil(SpaceSize(entries), 0x8000)
  }

  /** Entry `at` is the first that can hold the bitmap. */
  ghost predicate IsStorage(entries: seq<MemmapEntry>, at: nat)
    requires MemmapLayout(entries)
  {
    && at < |entries| && HoldsBitmap(entries[at], BitmapBytes(entries))
    && forall j | 0 <= j < at :: !HoldsBitmap(entries[j], BitmapBytes(entries))
  }

  /** Byte `i` of the bitmap holds the bits of eight frames. */
  lemma FillByte(words: seq<u64>, i: nat)
    requires i < 8 * |words|
    ensures UsedFrames(words[i / 8 := StoreByte(words[i / 8], i % 8, 255)]) == UsedFrames(words) + FrameRange(8 * i, 8)
  {
    forall f: nat | f < 64 * |words|
      ensures TestBit(words[i / 8 := StoreByte(words[i / 8], i % 8, 255)][f / 64], f % 64)
              == (f in FrameRange(8 * i, 8) || TestBit(words[f / 64], f % 64))
    {
      FillByteBit(words, i, f);
    }
  }

  lemma FillByteBit(words: seq<u64>, i: nat, f: nat)
    requires i < 8 * |words| && f < 64 * |words|
    ensures TestBit(words[i / 8 := StoreByte(words[i / 8], i % 8, 255)][f / 64], f % 64)
            == (8 * i <= f < 8 * i + 8 || TestBit(words[f / 64], f % 64))
  {
    hide TestBit, StoreByte;
    if f / 64 == i / 8 {
      StoreByteBits(words[i / 8], i % 8, 255, f % 64);
      LowOnes(f % 64 % 8);
    }
  }

  class FrameAllocator {
    var bitmap: array<u64>
    var bitmapSize: nat
    var addrSpaceSize: u64

    ghost predicate Valid()
      reads this
    {
      && bitmap.Length == bitmapSize
      && bitmapSize * 64 * 4096 <= MAX_PHYS
    }

    /** The number of frames the bitmap has a bit for. */
    function Capacity(): nat
      reads this
    {
      64 * bitmapSize
    }

    ghost function Used(): set<nat>
      reads this, bitmap
    {
      UsedFrames(bitmap[..])
    }

    constructor ()
      ensures fresh(bitmap)
    {
      bitmap := new u64[0];
      bitmapSize := 0;
      addrSpaceSize := 0;
    }

    /** The first region that can hold the bitmap, leaving out frame 0. */
    method FindStorage(entries: seq<MemmapEntry>, size: u64) returns (found: bool, base: u64, ghost at: nat)
      requires MemmapLayout(entries)
      ensures found ==> at < |entries| && HoldsBitmap(entries[at], size) && base == StorageBase(entries[at])
      ensures found ==> base == if entries[at].base == 0 then 4096 else entries[at].base
      ensures found ==> entries[at].kind.Usable?
                        && size < if entries[at].base == 0 then Wrap(entries[at].length - 4096) else entries[at].length
      ensures forall j | 0 <= j < |entries| && (found ==> j < at) ::
                && !HoldsBitmap(entries[j], size)
                && !(entries[j].kind.Usable?
                     && (if entries[j].base == 0 then Wrap(entries[j].length - 4096) else entries[j].length) > size)
    {
      var i := 0;
      found, base, at := false, 0, 0;
      while i < |entries| && !found
        invariant i <= |entries|
        invariant found ==> at < |entries| && HoldsBitmap(entries[at], size) && base == StorageBase(entries[at])
                            && forall j | 0 <= j < at :: !HoldsBitmap(entries[j], size)
        invariant !found ==> forall j | 0 <= j < i :: !HoldsBitmap(entries[j], size)
      {
        var length;
        at := i;
        base, length := entries[i].base, entries[i].length;
        if base == 0 {
          base := base + PHYS_PAGE_SIZE;
          length := Wrap(length - PHYS_PAGE_SIZE);
        }
        found := entries[i].kind.Usable? && length > size;
        i := i + 1;
      }
    }

    /** `memset(s_phys_bitmap, 0xff, count)`. */
    method FillBitmap(count: nat)
      requires Valid() && count <= 8 * bitmapSize
      modifies bitmap
      ensures Used() == old(Used()) + FrameRange(0, 8 * count)
    {
      hide UsedFrames, FrameRange;
      NoFrames();
      var i := 0;
      while i < count
        invariant i <= count && Used() == old(Used()) + FrameRange(0, 8 * i)
      {
        FillByte(bitmap[..], i);
        ghost var before := bitmap[..];
        bitmap[i / 8] := StoreByte(bitmap[i / 8], i % 8, 255);
        assert bitmap[..] == before[i / 8 := bitmap[i / 8]];
        NextByte(i);
        i := i + 1;
      }
    }

    /**
      `phys_init`: afterwards a frame is free exactly if a usable region covers it, it is not in the
      range reserved for the bitmap, and it is not frame 0. The bitmap starts with whatever its
      memory held, and only `bitmapSize` bytes of it are filled, so nothing is said of frames past them.
     */
    method Init(entries: seq<MemmapEntry>) returns (ok: bool, base: u64, ghost at: nat)
      requires MemmapLayout(entries)
      modifies this
      ensures addrSpaceSize == entries[|entries| - 1].base + entries[|entries| - 1].length
      ensures bitmapSize == BitmapBytes(entries) == (addrSpaceSize + 0x7fff) / 0x8000
      ensures ok ==> IsStorage(entries, at) && base == StorageBase(entries[at])
      ensures !ok ==> forall j | 0 <= j < |entries| :: !HoldsBitmap(entries[j], bitmapSize)
      ensures ok ==> Valid() && fresh(bitmap) && base % 4096 == 0 && 0 < bitmapSize
      ensures ok ==> forall f: nat | f < 8 * bitmapSize ::
                f !in Used()
                <==> && (exists j :: 0 <= j < |entries| && entries[j].kind.Usable?
                                     && entries[j].base <= 4096 * f < entries[j].base + entries[j].length)
                     && (4096 * f + 4096 <= base || base + 8 * bitmapSize <= 4096 * f) && f != 0
    {
      addrSpaceSize := SpaceSize(entries);
      bitmapSize := CeilDiv(addrSpaceSize, PHYS_PAGE_SIZE * 8);
      BitmapSizes(addrSpaceSize, bitmapSize);
      ok, base, at := FindStorage(entries, bitmapSize);
      if ok {
        bitmap := new u64[bitmapSize];
        BitmapRoom(addrSpaceSize, bitmapSize, base);
        MarkAll(entries, base);
      }
    }

    /** Everything is used, then the usable regions are freed, then the bitmap and frame 0 are used. */
    method MarkAll(entries: seq<MemmapEntry>, base: u64)
      requires Valid() && MemmapLayout(entries) && SpaceSize(entries) <= 4096 * Capacity() && 0 < bitmapSize
      requires base % 4096 == 0 && base + bitmapSize * 8 <= 4096 * Capacity()
      modifies bitmap
      ensures forall f: nat | f < 8 * bitmapSize ::
                f !in Used()
                <==> && (exists j :: 0 <= j < |entries| && entries[j].kind.Usable?
                                     && entries[j].base <= 4096 * f < entries[j].base + entries[j].length)
                     && (4096 * f + 4096 <= base || base + 8 * bitmapSize <= 4096 * f) && f != 0
    {
      hide UsedFrames;
      FillBitmap(bitmapSize);
      ghost var filled := Used();
      MarkUsable(entries);
      ghost var usable := filled - Used();
      MarkRegionUsed(base, bitmapSize * 8);
      MarkUsed(0);
      InitExact(entries, filled, usable, base, bitmapSize, Used());
    }

    method MarkUsable(entries: seq<MemmapEntry>)
      requires Valid() && MemmapLayout(entries) && SpaceSize(entries) <= 4096 * Capacity()
      modifies bitmap
      ensures forall f: nat ::
                f in Used()
                <==> && f in old(Used())
                     && !exists j :: 0 <= j < |entries| && entries[j].kind.Usable?
                                     && entries[j].base <= 4096 * f < entries[j].base + entries[j].length
    {
      hide UsedFrames, FrameRange;
      ghost var before := Used();
      var i := 0;
      while i < |entries|
        invariant i <= |entries| && Used() == before - UsableFrames(entries, i)
      {
        if entries[i].kind.Usable? {
          MarkRegionUnused(entries[i].base, entries[i].length);
        }
        i := i + 1;
      }
      forall f: nat {
        UsableIff(entries, |entries|, f);
      }
    }

    /** The test `bitmap[index] & mask` of one frame. */
    predicate IsMarked(addr: u64)
      requires Valid() && addr / 4096 < Capacity()
      reads this, bitmap
      ensures IsMarked(addr) <==> addr / 4096 in Used()
    {
      AndPow(bitmap[BitmapIndex(addr)], BitmapBitPos(addr));
      BitAnd(bitmap[BitmapIndex(addr)], BitmapMask(addr)) != 0
    }

    method MarkUsed(addr: u64)
      requires Valid() && addr / 4096 < Capacity()
      modifies bitmap
      ensures Used() == old(Used()) + {addr / 4096}
    {
      var i := BitmapIndex(addr);
      Or64(bitmap[i], BitmapMask(addr));
      SetBit(bitmap[..], addr / 4096, BitOr(bitmap[i], BitmapMask(addr)));
      bitmap[i] := BitOr(bitmap[i], BitmapMask(addr));
      assert bitmap[..] == old(bitmap[..])[i := bitmap[i]];
    }

    method MarkUnused(addr: u64)
      requires Valid() && addr / 4096 < Capacity()
      modifies bitmap
      ensures Used() == old(Used()) - {addr / 4096}
    {
      var i := BitmapIndex(addr);
      AndBound(bitmap[i], BitNot64(BitmapMask(addr)));
      ClearBit(bitmap[..], addr / 4096, BitAnd(bitmap[i], BitNot64(BitmapMask(addr))));
      bitmap[i] := BitAnd(bitmap[i], BitNot64(BitmapMask(addr)));
      assert bitmap[..] == old(bitmap[..])[i := bitmap[i]];
    }

    method MarkRegionUsed(addr: u64, length: u64)
      requires Valid() && addr + length <= 4096 * Capacity()
      modifies bitmap
      ensures Used() == old(Used()) + FrameRange(addr / 4096, Ceil(length, 4096))
    {
      hide UsedFrames;
      var i: u64 := 0;
      ghost var n := 0;
      while i < length
        invariant i == 4096 * n && n <= Ceil(length, 4096)
        invariant Used() == old(Used()) + FrameRange(addr / 4096, n)
        decreases length - i
      {
        MarkUsed(addr + i);
        i := i + PHYS_PAGE_SIZE;
        n := n + 1;
        assert FrameRange(addr / 4096, n) == FrameRange(addr / 4096, n - 1) + {addr / 4096 + n - 1};
      }
    }

    method MarkRegionUnused(addr: u64, length: u64)
      requires Valid() && addr + length <= 4096 * Capacity()
      modifies bitmap
      ensures Used() == old(Used()) - FrameRange(addr / 4096, Ceil(length, 4096))
    {
      var i: u64 := 0;
      ghost var n := 0;
      while i < length
        invariant i == 4096 * n && n <= Ceil(length, 4096)
        invariant Used() == old(Used()) - FrameRange(addr / 4096, n)
        decreases length - i
      {
        MarkUnused(addr + i);
        i := i + PHYS_PAGE_SIZE;
        n := n + 1;
        assert FrameRange(addr / 4096, n) == FrameRange(addr / 4096, n - 1) + {addr / 4096 + n - 1};
      }
    }

    /**
      Takes the lowest free frame of the whole bitmap. The result 0 is shared by "none is
      free" and "frame 0 was the lowest free one".
     */
    method Alloc() returns (addr: u64)
      requires Valid()
      modifies bitmap
      ensures (addr, Used()) == GrantFrame(old(Used()), 64 * bitmap.Length)
    {
      var i := 0;
      while i < bitmapSize
        invariant i <= bitmapSize && bitmap[..] == old(bitmap[..])
        invariant AllUsed(Used(), 0, 64 * i)
      {
        var entry := bitmap[i];
        if entry == FULLY_USED {
          FullBits(bitmap[..], i);
          i := i + 1;
          continue;
        }
        var bit := 0;
        while bit < 64
          invariant bit <= 64 && bitmap[..] == old(bitmap[..])
          invariant forall k | 0 <= k < bit :: TestBit(entry, k)
        {
          MaskFits(bit);
          var mask := Pow2(bit);
          AndPow(entry, bit);
          if BitAnd(entry, mask) != 0 {
            bit := bit + 1;
            continue;
          }
          LowestClear(bitmap[..], i, bit);
          Or64(entry, mask);
          SetBit(bitmap[..], i * 64 + bit, BitOr(entry, mask));
          bitmap[i] := BitOr(entry, mask);
          assert bitmap[..] == old(bitmap[..])[i := bitmap[i]];
          return (i * 64 + bit) * PHYS_PAGE_SIZE;
        }
        FullWord(entry);
        assert false;
      }
      FirstFreeSkip(Used(), 0, Capacity(), Capacity());
      return 0;
    }

    /** The inner loop of `AllocRegion`: is the run at `addr` free, and if not, which offset blocks it? */
    method ScanRun(addr: u64, length: u64) returns (found: bool, i: u64)
      requires Valid() && addr % 4096 == 0 && addr + length <= 4096 * Capacity()
      ensures found ==> FrameRange(addr / 4096, Ceil(length, 4096)) !! Used()
      ensures !found ==> i < length && i % 4096 == 0 && addr / 4096 + i / 4096 in Used()
    {
      i := 0;
      ghost var n := 0;
      while i < length
        invariant i == 4096 * n && n <= Ceil(length, 4096)
        invariant FrameRange(addr / 4096, n) !! Used()
        decreases length - i
      {
        if IsMarked(addr + i) {
          return false, i;
        }
        i := i + PHYS_PAGE_SIZE;
        n := n + 1;
        assert FrameRange(addr / 4096, n) == FrameRange(addr / 4096, n - 1) + {addr / 4096 + n - 1};
      }
      found := true;
    }

    /**
      First fit over page-aligned bases, resuming past the frame that blocked the last try.
      The result 0 means that no base fits (or that the run fits at frame 0).
     */
    method AllocRegion(length: u64) returns (r: u64)
      requires Valid() && addrSpaceSize + length <= 4096 * Capacity()
      modifies bitmap
      ensures var n, limit := Ceil(length, 4096), Ceil(addrSpaceSize, 4096);
              (r, Used()) == GrantRegion(old(Used()), limit, n)
    {
      hide UsedFrames, FrameRange;
      ghost var n, limit := Ceil(length, 4096), Ceil(addrSpaceSize, 4096);
      ghost var used := Used();
      var addr: u64 := 0;
      while addr < addrSpaceSize
        invariant addr % 4096 == 0 && addr < addrSpaceSize + length + 4096
        invariant Used() == used
        invariant FirstFit(used, 0, limit, n) == FirstFit(used, addr / 4096, limit, n)
        decreases addrSpaceSize + length + 4096 - addr
      {
        var found, i := ScanRun(addr, length);
        if found {
          MarkRegionUsed(addr, length);
          return addr;
        }
        Resume(used, addr, i, length, limit);
        addr := addr + i + PHYS_PAGE_SIZE;
      }
      return 0;
    }

    method Free(addr: u64)
      requires Valid() && addr / 4096 < Capacity()
      modifies bitmap
      ensures Used() == old(Used()) - {addr / 4096}
    {
      var i := BitmapIndex(addr);
      AndBound(bitmap[i], BitNot64(BitmapMask(addr)));
      ClearBit(bitmap[..], addr / 4096, BitAnd(bitmap[i], BitNot64(BitmapMask(addr))));
      bitmap[i] := BitAnd(bitmap[i], BitNot64(BitmapMask(addr)));
      assert bitmap[..] == old(bitmap[..])[i := bitmap[i]];
    }

    method FreeRegion(addr: u64, length: u64)
      requires Valid() && addr + length <= 4096 * Capacity()
      modifies bitmap
      ensures Used() == old(Used()) - FrameRange(addr / 4096, Ceil(length, 4096))
    {
      var i: u64 := 0;
      ghost var n := 0;
      while i < length
        invariant i == 4096 * n && n <= Ceil(length, 4096)
        invariant Used() == old(Used()) - FrameRange(addr / 4096, n)
        decreases length - i
      {
        Free(addr + i);
        i := i + PHYS_PAGE_SIZE;
        n := n + 1;
        assert FrameRange(addr / 4096, n) == FrameRange(addr / 4096, n - 1) + {addr / 4096 + n - 1};
      }
    }
  }

  /** The frames `phys_init` reserves for the bitmap: eight times the bytes it fills. */
  ghost function ReservedFrames(base: u64, size: nat): set<nat> {
    FrameRange(base / 4096, Ceil(size * 8, 4096))
  }

  lemma NoFrames()
    ensures FrameRange(0, 0) == {}
  {}

  lemma NextByte(i: nat)
    ensures FrameRange(0, 8 * i) + FrameRange(8 * i, 8) == FrameRange(0, 8 * (i + 1))
  {}

  lemma BitmapSizes(space: u64, size: nat)
    requires 0 < space <= 0x8000_0000_0000 && size == Ceil(space, 0x8000)
    ensures 0 < size <= 0x1_0000_0000 && size * 64 * 4096 <= MAX_PHYS && space <= 0x8000 * size
  {}

  lemma BitmapRoom(space: u64, size: nat, base: u64)
    requires 0 < size && space <= 0x8000 * size && base <= space + 4096
    ensures base + size * 8 <= 4096 * (64 * size)
  {}

  /** Frame `f` has a byte in the range reserved for the bitmap. */
  lemma ReservedIff(base: u64, size: nat, f: nat)
    requires base % 4096 == 0
    ensures f in ReservedFrames(base, size) <==> base < 4096 * f + 4096 && 4096 * f < base + 8 * size
  {}

  lemma InitExact(entries: seq<MemmapEntry>, filled: set<nat>, usable: set<nat>, base: u64, size: nat, used: set<nat>)
    requires forall f: nat | f < 8 * size :: f in filled
    requires used == filled - usable + ReservedFrames(base, size) + {0} && base % 4096 == 0
    requires forall f: nat | f in filled ::
               f in usable <==> exists j :: 0 <= j < |entries| && entries[j].kind.Usable?
                                            && entries[j].base <= 4096 * f < entries[j].base + entries[j].length
    ensures forall f: nat | f < 8 * size ::
              f !in used
              <==> && (exists j :: 0 <= j < |entries| && entries[j].kind.Usable?
                                   && entries[j].base <= 4096 * f < entries[j].base + entries[j].length)
                   && (4096 * f + 4096 <= base || base + 8 * size <= 4096 * f) && f != 0
  {
    forall f: nat | f < 8 * size
      ensures f in ReservedFrames(base, size) <==> !(4096 * f + 4096 <= base || base + 8 * size <= 4096 * f)
    {
      ReservedIff(base, size, f);
    }
  }

  /**
    The bytes that are filled at first lie within the region they were put in, unless that region
    begins at 0 and is shorter than a page: then leaving out frame 0 makes its length wrap around.
   */
  lemma BitmapFitsIff(entries: seq<MemmapEntry>, at: nat)
    requires MemmapLayout(entries) && IsStorage(entries, at)
    ensures var e, base, size := entries[at], StorageBase(entries[at]), BitmapBytes(entries);
            && e.kind.Usable? && base % 4096 == 0 && base > 0
            && (e.base <= base && base + size <= e.base + e.length <==> e.base != 0 || e.length >= 4096)
  {
    assert entries[at] in entries;
  }

  /** The reserved range holds the bitmap word of every real frame, so no word of it is ever handed out. */
  lemma BitmapIsReserved(space: u64, base: u64, size: nat, f: nat, byte: nat)
    requires size == Ceil(space, 0x8000) && f < Ceil(space, 4096) && base % 4096 == 0 && byte < 8
    ensures (base + 8 * (f / 64) + byte) / 4096 in ReservedFrames(base, size)
    ensures f < 8 * size
  {
    var offset := 8 * (f / 64) + byte;
    assert offset < size * 8;
    assert (base + offset) / 4096 == base / 4096 + offset / 4096;
    assert offset / 4096 < Ceil(size * 8, 4096);
  }

  /** A full word can be skipped: all its 64 frames are used. */
  lemma FullBits(words: seq<u64>, i: nat)
    requires i < |words| && words[i] == FULLY_USED
    ensures AllUsed(UsedFrames(words), 64 * i, 64 * i + 64)
  {
    PowersOfTwo();
    hide TestBit, Pow2;
    forall g: nat | 64 * i <= g < 64 * i + 64 ensures g in UsedFrames(words) {
      assert g / 64 == i;
      OnesTest(64, g % 64);
    }
  }

  lemma LowestClear(words: seq<u64>, i: nat, bit: nat)
    requires i < |words| && bit < 64 && !TestBit(words[i], bit)
    requires AllUsed(UsedFrames(words), 0, 64 * i)
    requires forall k | 0 <= k < bit :: TestBit(words[i], k)
    ensures FirstFree(UsedFrames(words), 0, 64 * |words|) == i * 64 + bit
  {
    forall g: nat | g < i * 64 + bit ensures g in UsedFrames(words) {
      if g >= 64 * i {
        assert TestBit(words[i], g - 64 * i);
      }
    }
    FirstFreeSkip(UsedFrames(words), 0, i * 64 + bit, 64 * |words|);
  }
}
