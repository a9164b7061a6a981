/** What the boot loader reports: the memory map, the framebuffer and where the kernel lies. */
module Limine {
  import opened Bits

  datatype MemmapType =
    | Usable | Reserved | AcpiReclaimable | AcpiNvs | BadMemory
    | BootloaderReclaimable | ExecutableAndModules | FramebufferMemory | ReservedMapped

  datatype MemmapEntry = MemmapEntry(base: u64, length: u64, kind: MemmapType)

  datatype Framebuffer = Framebuffer(address: u64, width: u64, height: u64, bpp: u64)

  /** `kernel_end - kernel_start` is given as `size`. */
  datatype Executable = Executable(physicalBase: u64, virtualBase: u64, size: u64)

  /** The kinds of memory `virt_init` puts into the direct map. */
  predicate IsDirectMapped(kind: MemmapType) {
    kind.Usable? || kind.BootloaderReclaimable? || kind.ExecutableAndModules?
    || kind.ReservedMapped? || kind.AcpiReclaimable? || kind.AcpiNvs?
  }
}
