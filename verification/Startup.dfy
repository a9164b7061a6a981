/**
  The start of the kernel: the frame allocator and then the memory manager, over the memory map that the boot
  loader reports.
 */
module Startup {
  import opened Bits
  import opened Rounding
  import opened PageTables
  import opened Limine
  import opened Virt
  import Boot
  import Contexts
  import Guarantees
  import Phys
  import Runs

  /** The frames that `phys_init` leaves free when the bitmap goes into entry `at`. */
  ghost predicate IsFree(entries: seq<MemmapEntry>, at: nat, f: nat)
    requires Phys.MemmapLayout(entries) && at < |entries|
  {
    var base := Phys.StorageBase(entries[at]);
    && (exists j :: 0 <= j < |entries| && entries[j].kind.Usable?
                    && entries[j].base <= 4096 * f < entries[j].base + entries[j].length)
    && (4096 * f + 4096 <= base || base + 8 * Phys.BitmapBytes(entries) <= 4096 * f) && f != 0
  }

  /** Memory as `virt_init` finds it. */
  ghost function AtStart(memory: Memory, entries: seq<MemmapEntry>, at: nat): State
    requires Phys.MemmapLayout(entries) && at < |entries|
  {
    State(memory, map[], set f: nat | f < |memory| && !IsFree(entries, at, f), 0)
  }

  /** The memory holds no more frames than the address space, and the two frames that are not cleared read as zero. */
  ghost predicate MemoryFits(memory: Memory, entries: seq<MemmapEntry>)
    requires Phys.MemmapLayout(entries)
  {
    && |memory| <= Ceil(Phys.SpaceSize(entries), 4096)
    && forall at: nat | Phys.IsStorage(entries, at) :: Boot.TableFramesZero(AtStart(memory, entries, at))
  }

  /**
    `phys_init`, then `virt_init`, with whatever the bitmap's memory held: if both succeed, the invariant of
    every run holds, and the lower half is empty. They fail only if no region can hold the bitmap or
    memory runs out.
   */
  method Start(memory: array<Frame>, entries: seq<MemmapEntry>, hhdm: u64, fb: Framebuffer, exe: Executable)
    returns (ok: bool, vm: AddressSpaces?, ctx: VirtCtx)
    requires Phys.MemmapLayout(entries) && Boot.BootLayout(hhdm, entries, fb, exe)
    requires MemoryFits(memory[..], entries)
    requires hhdm % 4096 == 0 && 0xffff_8000_0000_0000 <= hhdm < SCAN_LIMIT
    modifies memory
    ensures vm == null || (vm.Valid() && vm.frames == memory && vm.hhdmOffset == hhdm)
    ensures ok ==>
        && vm != null && vm.RootOf(ctx) == vm.RootOf(Current)
        && Runs.Kept(Runs.Moment(vm.Now(), {}, {}), vm.RootOf(ctx), PageOf(hhdm), Boot.BootFrames(hhdm, entries, fb))
        && Runs.AllSeparated(vm.Now()) && Contexts.KernelPdptUnused(vm.Now(), vm.RootOf(ctx))
        && Boot.BootMap(vm.Now(), vm.RootOf(ctx), hhdm, entries, fb, exe)
    ensures !ok ==>
        || (vm == null && forall at: nat :: !Phys.IsStorage(entries, at))
        || (vm != null && forall f: nat | f < memory.Length :: f in vm.phys.Used())
  {
    vm, ctx := null, Current;
    var phys := new Phys.FrameAllocator();
    var found, base;
    ghost var at;
    found, base, at := phys.Init(entries);
    ok := found;
    if found {
      Room(memory[..], entries);
      ReadyToStart(State(memory[..], map[], phys.Used(), 0), hhdm, entries, at, base, fb);
      ok, vm, ctx := Launch(phys, memory, entries, hhdm, fb, exe);
    }
  }

  /** `virt_init` over an allocator whose free frames belong to the direct map. */
  method Launch(phys: Phys.FrameAllocator, memory: array<Frame>, entries: seq<MemmapEntry>, hhdm: u64, fb: Framebuffer,
                exe: Executable)
    returns (ok: bool, vm: AddressSpaces, ctx: VirtCtx)
    requires phys.Valid() && phys.bitmap as object != memory as object && memory.Length <= MAX_FRAMES
    requires 0 in phys.Used() && memory.Length <= phys.Capacity()
    requires hhdm % 4096 == 0 && 0xffff_8000_0000_0000 <= hhdm < SCAN_LIMIT
    requires Boot.BootLayout(hhdm, entries, fb, exe)
    requires Boot.TableFramesZero(State(memory[..], map[], phys.Used(), 0))
    requires Boot.FreeWithin(State(memory[..], map[], phys.Used(), 0), Boot.BootFrames(hhdm, entries, fb))
    modifies phys.bitmap, memory
    ensures vm.Valid() && vm.frames == memory && vm.hhdmOffset == hhdm
    ensures ok ==>
        && vm.RootOf(ctx) == vm.RootOf(Current)
        && Runs.Kept(Runs.Moment(vm.Now(), {}, {}), vm.RootOf(ctx), PageOf(hhdm), Boot.BootFrames(hhdm, entries, fb))
        && Runs.AllSeparated(vm.Now()) && Contexts.KernelPdptUnused(vm.Now(), vm.RootOf(ctx))
        && Boot.BootMap(vm.Now(), vm.RootOf(ctx), hhdm, entries, fb, exe)
    ensures !ok ==> vm.OutOfMemory()
  {
    hide Boot.BootLayout, Boot.BootMap, Boot.TableFramesZero, Boot.FreeWithin, Boot.BootFrames, PageOf;
    hide Boot.FreshBoot, Sound, Runs.Kept, Runs.AllSeparated, Contexts.KernelPdptUnused;
    vm := new AddressSpaces(phys, memory, hhdm);
    ghost var s := vm.Now();
    ghost var structure;
    ok, ctx, structure := vm.Init(entries, fb, exe);
    if ok {
      Guarantees.BootStartsRuns(s, vm.Now(), vm.RootOf(ctx), hhdm, entries, fb, exe);
    }
  }

  lemma Room(memory: Memory, entries: seq<MemmapEntry>)
    requires Phys.MemmapLayout(entries) && MemoryFits(memory, entries)
    ensures |memory| <= 8 * Phys.BitmapBytes(entries) && |memory| <= MAX_FRAMES
  {}

  /** The allocator's bits past the end of memory do not matter. */
  lemma ReadyToStart(s: State, hhdm: u64, entries: seq<MemmapEntry>, at: nat, base: u64, fb: Framebuffer)
    requires Phys.MemmapLayout(entries) && MemoryFits(s.mem, entries) && Phys.IsStorage(entries, at)
    requires base == Phys.StorageBase(entries[at]) && |s.mem| <= 8 * Phys.BitmapBytes(entries) && hhdm <= fb.address
    requires var size := Phys.BitmapBytes(entries);
             forall f: nat | f < 8 * size ::
               f !in s.used
               <==> && (exists j :: 0 <= j < |entries| && entries[j].kind.Usable?
                                    && entries[j].base <= 4096 * f < entries[j].base + entries[j].length)
                    && (4096 * f + 4096 <= base || base + 8 * size <= 4096 * f) && f != 0
    ensures Boot.TableFramesZero(s) && Boot.FreeWithin(s, Boot.BootFrames(hhdm, entries, fb))
  {
    Boot.SameTableFrames(AtStart(s.mem, entries, at), s);
    hide Boot.BootFrames, Boot.TableFramesZero;
    Boot.PhysInitWithin(s, hhdm, entries, fb, 8 * Phys.BitmapBytes(entries));
  }
}
