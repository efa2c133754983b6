// Values that cross the plugin boundary (src/types.rs) and the machine
// arithmetic the plugin performs on them.
module Abi {

  datatype Option<+T> = None | Some(value: T)

  datatype Result<+T, +E> = Ok(value: T) | Err(error: E)

  datatype IGStatus =
    | StatusOk
    | Unsupported
    | Canceled
    | InvalidArg
    | DecodeFailed
    | OutOfMemory
    | Internal
    | NotImplemented
    | IoError
    | EncodeFailed

  type byte = x: int | 0 <= x < 256

  // Addresses of heap blocks. Address 0 is the null pointer.
  type Addr = int
  const NULL: Addr := 0

  // The fields of the host's pixel-buffer struct.
  datatype PixelBuffer = PixelBuffer(
    data: Addr, width: int, height: int, stride: int, pixelFormat: int, releaseContext: Addr)

  // ---------- Fixed-width integers ----------

  const I32_MIN: int := -0x8000_0000
  const I32_MAX: int := 0x7FFF_FFFF

  // The width of usize on the platform the plugin is built for.
  datatype Arch = Bits32 | Bits64 {
    function Modulus(): nat {
      if Bits32? then 0x1_0000_0000 else 0x1_0000_0000_0000_0000
    }

    function UsizeMax(): nat {
      Modulus() - 1
    }

    // isize::MAX: the largest object size malloc ever grants.
    function SignedMax(): nat {
      Modulus() / 2 - 1
    }
  }

  lemma LimitsWrittenOut()
    ensures Bits32.UsizeMax() == 4_294_967_295 && Bits32.SignedMax() == 2_147_483_647
    ensures Bits64.UsizeMax() == 18_446_744_073_709_551_615 && Bits64.SignedMax() == 9_223_372_036_854_775_807
    ensures Bits32.Modulus() == 4_294_967_296 && Bits64.Modulus() == 18_446_744_073_709_551_616
  {
  }

  // An `as i32` cast of an unsigned value: keep the low 32 bits.
  function AsI32(n: int): (r: int)
    ensures I32_MIN <= r <= I32_MAX
    ensures (n - r) % 0x1_0000_0000 == 0
    ensures I32_MIN <= n <= I32_MAX ==> r == n
  {
    var low := n % 0x1_0000_0000;
    if low > I32_MAX then low - 0x1_0000_0000 else low
  }

  // An `as usize` cast of an i32: sign-extend, then reinterpret as unsigned.
  function AsUsize(arch: Arch, v: int): (r: nat)
    requires I32_MIN <= v <= I32_MAX
    ensures r <= arch.UsizeMax()
    ensures r == v || (v < 0 && r == v + arch.Modulus())
  {
    if v < 0 then v + arch.Modulus() else v
  }

  function CheckedMulI32(a: int, b: int): Option<int> {
    if I32_MIN <= a * b <= I32_MAX then Some(a * b) else None
  }

  function CheckedMulUsize(arch: Arch, a: nat, b: nat): Option<nat> {
    if a * b <= arch.UsizeMax() then Some(a * b) else None
  }
}
