// Linux kernel and DRM conventions the driver files share: error numbers,
// the page size, and the fixed-width unsigned arithmetic of `u32`/`u64`
// values, whose wrap-around is written out here because Dafny's integers
// are unbounded.

module Kernel {

  const ENOENT: int := 2
  const EIO: int := 5
  const EAGAIN: int := 11
  const ENOMEM: int := 12
  const EINVAL: int := 22
  /** Kernel-internal "restart the system call"; never seen by user space. */
  const ERESTARTSYS: int := 512

  /** `PAGE_SIZE` of the 4 KiB-page architectures the driver targets. */
  const PageSize: nat := 4096

  const Two32: nat := 0x1_0000_0000
  const Two64: nat := 0x1_0000_0000_0000_0000

  /** The value an unsigned 32-bit variable holds after storing `x`. */
  function U32(x: int): (r: nat)
    ensures r < Two32
    ensures 0 <= x < Two32 ==> r == x
    ensures (r - x) % Two32 == 0
  {
    x % Two32
  }

  /**
   * `ALIGN(x, PAGE_SIZE)` (and `roundup(x, PAGE_SIZE)`) on an unsigned
   * variable of `bits` bits: add `PAGE_SIZE - 1`, wrapping at `2^bits`, then
   * clear the low twelve bits.  Without wrap-around the result is the least
   * multiple of the page size not below `x`; with it, the result is 0.
   */
  function PageAlign(x: nat, modulus: nat): (r: nat)
    requires modulus == Two32 || modulus == Two64
    requires x < modulus
    ensures r < modulus && r % PageSize == 0
    ensures x + PageSize - 1 < modulus ==> x <= r < x + PageSize
    ensures x + PageSize - 1 >= modulus ==> r == 0
  {
    (x + PageSize - 1) % modulus / PageSize * PageSize
  }

  /**
   * `DIV_ROUND_UP(bpp, 8)` and `(bpp + 7) / 8` on a `u32`: bytes per pixel,
   * the bit count rounded up to whole bytes.
   */
  function BytesPerPixel(bpp: nat): (r: nat)
    requires bpp < Two32
    ensures bpp + 7 < Two32 ==> bpp <= 8 * r < bpp + 8
  {
    U32(bpp + 7) / 8
  }

  /** `width * DIV_ROUND_UP(bpp, 8)` computed in `u32`: a line's length in bytes. */
  function Pitch(width: nat, bpp: nat): (r: nat)
    requires width < Two32 && bpp < Two32
    ensures r < Two32
    ensures width * BytesPerPixel(bpp) < Two32 ==> r == width * BytesPerPixel(bpp)
  {
    U32(width * BytesPerPixel(bpp))
  }
}
