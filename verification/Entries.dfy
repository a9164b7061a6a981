/**
  The bit expressions of the paging code and what they compute: table indices from an
  address, frames from an entry, and entries from an address and flags.
 */
module Entries {
  import opened Bits
  import opened PageTables

  const VIRT_PML4_INDEX_OFFSET: nat := 39
  const VIRT_PDPT_INDEX_OFFSET: nat := 30
  const VIRT_PD_INDEX_OFFSET: nat := 21
  const VIRT_PT_INDEX_OFFSET: nat := 12
  const VIRT_INDEX_MASK: u64 := 0x1ff

  /** `addr >> n`. */
  function Shr(addr: u64, n: nat): nat {
    High(addr, n)
  }

  function TableIndex(addr: u64, offset: nat): nat {
    BitAnd(Shr(addr, offset), VIRT_INDEX_MASK)
  }

  /** The four index expressions pick the page's indices of the four levels: nine address bits each, from bit 12 up. */
  lemma TableIndices(addr: u64)
    ensures TableIndex(addr, VIRT_PML4_INDEX_OFFSET) == Index(PageOf(addr), 4) == addr / 0x80_0000_0000 % 512
    ensures TableIndex(addr, VIRT_PDPT_INDEX_OFFSET) == Index(PageOf(addr), 3) == addr / 0x4000_0000 % 512
    ensures TableIndex(addr, VIRT_PD_INDEX_OFFSET) == Index(PageOf(addr), 2) == addr / 0x20_0000 % 512
    ensures TableIndex(addr, VIRT_PT_INDEX_OFFSET) == Index(PageOf(addr), 1) == addr / 0x1000 % 512
  {
    TableIndexIs(addr, 39, 0x80_0000_0000);
    TableIndexIs(addr, 30, 0x4000_0000);
    TableIndexIs(addr, 21, 0x20_0000);
    TableIndexIs(addr, 12, 0x1000);
    Shifts();
    Prefixes(addr);
  }

  lemma Shifts()
    ensures Pow2(12) == 0x1000 && Pow2(21) == 0x20_0000 && Pow2(30) == 0x4000_0000 && Pow2(39) == 0x80_0000_0000
  {
    PowersOfTwo();
    PowSum(12, 9);
    PowSum(21, 9);
    PowSum(30, 9);
  }

  lemma TableIndexIs(addr: u64, n: nat, p: nat)
    ensures Pow2(n) == p ==> TableIndex(addr, n) == addr / p % 512
  {
    PowersOfTwo();
    Split(addr, n);
    AndLow(Shr(addr, n), 9);
    Split(Shr(addr, n), 9);
  }

  lemma Prefixes(addr: u64)
    ensures Prefix(PageOf(addr), 0) % 512 == addr / 0x1000 % 512
    ensures Prefix(PageOf(addr), 1) % 512 == addr / 0x20_0000 % 512
    ensures Prefix(PageOf(addr), 2) % 512 == addr / 0x4000_0000 % 512
    ensures Prefix(PageOf(addr), 3) % 512 == addr / 0x80_0000_0000 % 512
  {
    var p := addr / 4096;
    assert p == p / PAGES * PAGES + PageOf(addr);
    assert addr / 0x20_0000 == p / 512;
    assert addr / 0x4000_0000 == p / 512 / 512;
    assert addr / 0x80_0000_0000 == p / 512 / 512 / 512;
    assert p / 512 == p / PAGES * 0x800_0000 + Prefix(PageOf(addr), 1);
    assert p / 512 / 512 == p / PAGES * 0x4_0000 + Prefix(PageOf(addr), 2);
    assert p / 512 / 512 / 512 == p / PAGES * 512 + Prefix(PageOf(addr), 3);
  }

  /** The four indices agree exactly when address bits 12-47 agree. */
  lemma SameIndices(a: u64, b: u64)
    ensures PageOf(a) == PageOf(b)
            <==> forall level | 1 <= level <= 4 :: Index(PageOf(a), level) == Index(PageOf(b), level)
  {
    if forall level | 1 <= level <= 4 :: Index(PageOf(a), level) == Index(PageOf(b), level) {
      PrefixTop(PageOf(a));
      PrefixTop(PageOf(b));
      SamePrefix(PageOf(a), PageOf(b), 3);
      SamePrefix(PageOf(a), PageOf(b), 2);
      SamePrefix(PageOf(a), PageOf(b), 1);
      SamePrefix(PageOf(a), PageOf(b), 0);
      assert Prefix(PageOf(a), 0) == PageOf(a) && Prefix(PageOf(b), 0) == PageOf(b);
    }
  }

  lemma SamePrefix(p: nat, q: nat, level: nat)
    requires Prefix(p, level + 1) == Prefix(q, level + 1)
    requires Index(p, level + 1) == Index(q, level + 1)
    ensures Prefix(p, level) == Prefix(q, level)
  {
    PrefixStep(p, level + 1);
    PrefixStep(q, level + 1);
  }

  /** `entry & ENTRY_PHYS_ADDR_MASK`, as a frame number. */
  function TableOf(entry: u64): nat {
    BitAnd(entry, ENTRY_PHYS_ADDR_MASK) / 4096
  }

  lemma MaskedEntry(entry: u64)
    ensures BitAnd(entry, ENTRY_PHYS_ADDR_MASK) == FrameOf(entry) * 4096
    ensures TableOf(entry) == FrameOf(entry)
  {
    PowersOfTwo();
    AndShifted(entry, Pow2(41) - 1, 12);
    AndLow(High(entry, 12), 41);
    Split(entry, 12);
    Split(High(entry, 12), 41);
  }

  /** `(addr) | flags`, the entry for a page. */
  function EntryWord(addr: u64, flags: u64): u64 {
    Or64(addr, flags);
    BitOr(addr, flags)
  }

  /** For a page-aligned address the entry is their sum, so both can be read back. */
  lemma EntryIsSum(addr: u64, flags: u64)
    requires addr % 4096 == 0 && flags < 4096
    ensures EntryWord(addr, flags) == addr + flags
  {
    PowersOfTwo();
    Split(addr, 12);
    OrDisjoint(addr, flags, 12);
  }

  /**
    For any address the entry names the address's frame, and its flags are the given ones and
    whatever low bits the address has: those of an unaligned address leak into the entry.
   */
  lemma EntryOfAny(addr: u64, flags: u64, k: nat)
    requires flags < 4096
    ensures EntryWord(addr, flags) / 4096 == addr / 4096
    ensures TestBit(EntryWord(addr, flags), k) == (TestBit(addr, k) || TestBit(flags, k))
  {
    PowersOfTwo();
    OrHigh(addr, flags, 12);
    Split(EntryWord(addr, flags), 12);
    Split(addr, 12);
    Split(flags, 12);
    OrZero(High(addr, 12));
    OrTest(addr, flags, k);
  }

  /** `phys | flags | VF_PD_PRESENT` for a flag set that includes PRESENT. */
  lemma LinkWord(g: nat, fl: u64)
    requires g < MAX_FRAMES && fl < 4096 && TestBit(fl, 0)
    ensures EntryWord(EntryWord(g * 4096, fl), VF_PRESENT) == g * 4096 + fl
  {
    EntryIsSum(g * 4096, fl);
    OrOne(g * 4096 + fl);
  }

  lemma OrOne(w: nat)
    requires w % 2 == 1
    ensures BitOr(w, 1) == w
  {
    OrZero(w / 2);
  }

  /** The flags of the entries that `virt_alloc` and `virt_user_alloc` write. */
  const ALLOC_FLAGS: u64 := 3
  const USER_FLAGS: u64 := 7

  const KERNEL_LINK: u64 := 3
  const USER_LINK: u64 := 7

  /** The link flags of `s_virt_get_or_create_pte`: PRESENT and WRITABLE, and USER for user mappings. */
  function LinkFlags(isUser: bool): u64 {
    EntryWord(EntryWord(if isUser then VF_USER else 0, VF_PRESENT), VF_WRITABLE)
  }

  lemma LinkFlagValues(isUser: bool)
    ensures LinkFlags(isUser) == if isUser then USER_LINK else KERNEL_LINK
    ensures LinkFlags(isUser) < 4096 && TestBit(LinkFlags(isUser), 0) && TestBit(LinkFlags(isUser), 1)
    ensures !TestBit(LinkFlags(isUser), 7)
  {
    assert BitOr(4, 1) == 5 by { assert BitOr(1, 0) == 1; assert BitOr(2, 0) == 2 + BitOr(0, 0); }
    assert BitOr(5, 2) == 7 by { assert BitOr(1, 0) == 1; assert BitOr(2, 1) == 3; }
    assert BitOr(0, 1) == 1;
    assert BitOr(1, 2) == 3 by { assert BitOr(0, 1) == 1; }
    ZeroTest(5);
    assert !TestBit(7, 7) by { assert TestBit(7, 7) == TestBit(3, 6) == TestBit(1, 5) == TestBit(0, 4); ZeroTest(4); }
    assert !TestBit(3, 7) by { assert TestBit(3, 7) == TestBit(1, 6) == TestBit(0, 5); }
  }

  /** The entries of `n` pages mapped to consecutive frames from `physAddr`. */
  ghost function MapWords(physAddr: u64, n: nat, flags: u64): seq<u64> {
    seq(n, (k: nat) => EntryWord(Wrap(physAddr + 4096 * k), flags))
  }

  lemma MapWordsNext(physAddr: u64, n: nat, flags: u64)
    ensures MapWords(physAddr, n + 1, flags)
            == MapWords(physAddr, n, flags) + [EntryWord(Wrap(physAddr + 4096 * n), flags)]
  {}

  /** The entries of `n` pages all mapped to the frame at `physAddr`. */
  ghost function SameWords(physAddr: u64, n: nat, flags: u64): seq<u64> {
    seq(n, (k: nat) => EntryWord(physAddr, flags))
  }

  lemma MapWordsAt(physAddr: u64, n: nat, flags: u64, k: nat)
    requires k < n
    ensures |MapWords(physAddr, n, flags)| == n
    ensures MapWords(physAddr, n, flags)[k] == EntryWord(Wrap(physAddr + 4096 * k), flags)
  {}
}
