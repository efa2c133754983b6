// The size computation between decoding and allocating (src/decode.rs:86-110).
module BufferSize {
  import opened Abi

  datatype Layout = Layout(width: int, height: int, stride: int, size: nat)

  datatype RawImage = RawImage(width: nat, height: nat, data: seq<byte>)

  // What the decoder hands over: four bytes per pixel.
  type Image = i: RawImage | |i.data| == 4 * (i.width * i.height) witness RawImage(0, 0, [])

  // What the copy and the host rely on: the size is the exact product of the
  // published fields, and the source holds that many bytes.
  ghost predicate Fits(l: Layout, available: nat) {
    l.size == l.height * l.stride && l.size <= available
  }

  // Wrapping casts to i32, then two checked multiplications. None stands for
  // the two OutOfMemory returns.
  function Plan(arch: Arch, width: nat, height: nat): Option<Layout> {
    var w := AsI32(width);
    var h := AsI32(height);
    match CheckedMulI32(w, 4)
    case None => None
    case Some(stride) =>
      match CheckedMulUsize(arch, AsUsize(arch, h), AsUsize(arch, stride))
      case None => None
      case Some(size) => Some(Layout(w, h, stride, size))
  }

  // The plan exists and asks for no more than malloc can ever grant.
  predicate Allocatable(arch: Arch, width: nat, height: nat) {
    var plan := Plan(arch, width, height);
    plan.Some? && plan.value.size <= arch.SignedMax()
  }

  // ---------- Multiplication facts ----------

  lemma MulAtLeast(a: nat, b: nat, lowA: nat, lowB: nat)
    requires lowA <= a && lowB <= b
    ensures lowA * lowB <= a * b
  {
    assert lowA * lowB <= a * lowB;
    assert a * lowB <= a * b;
  }

  lemma SmallerProduct(a: nat, b: nat, lowA: nat, lowB: nat)
    requires 0 < a && 0 < b && lowA <= a && lowB <= b && (lowA < a || lowB < b)
    ensures lowA * lowB < a * b
  {
    MulAtLeast(a, b, lowA, lowB);
    if lowB < b {
      assert lowA * lowB <= a * lowB < a * b;
    } else {
      assert lowA * b < a * b;
    }
  }

  lemma ZeroProduct(a: int, b: int)
    requires a * b == 0
    ensures a == 0 || b == 0
  {
  }

  // A negative i32 becomes a usize of at least half the range, so it can only
  // be multiplied by 0 or 1 without overflow.
  lemma NegativeFactor(arch: Arch, v: int, k: nat)
    requires I32_MIN <= v < 0
    requires AsUsize(arch, v) * k <= arch.SignedMax()
    ensures k == 0
  {
    if k > 0 {
      MulAtLeast(AsUsize(arch, v), k, arch.Modulus() / 2, 1);
    }
  }

  // An accepted unsigned product is the signed product of the two factors.
  lemma SignedProduct(arch: Arch, h: int, s: int)
    requires I32_MIN <= h <= I32_MAX && I32_MIN <= s <= I32_MAX
    requires AsUsize(arch, h) * AsUsize(arch, s) <= arch.SignedMax()
    ensures AsUsize(arch, h) * AsUsize(arch, s) == h * s
    ensures h < 0 || s < 0 ==> h * s == 0
  {
    var uh, us := AsUsize(arch, h), AsUsize(arch, s);
    if h < 0 {
      NegativeFactor(arch, h, us);
    } else if s < 0 {
      assert us * uh == uh * us;
      NegativeFactor(arch, s, uh);
    }
  }

  lemma FourTimes(a: int, b: int)
    ensures a * (4 * b) == 4 * (b * a)
  {
  }

  // ---------- Results ----------

  // Any layout that reaches the copy fits the decoder's data, and a dimension
  // that wrapped to a negative value leaves nothing to copy.
  lemma CopyFits(arch: Arch, width: nat, height: nat)
    requires Allocatable(arch, width, height)
    ensures var l := Plan(arch, width, height).value;
            && l.stride == 4 * l.width
            && Fits(l, 4 * (width * height))
            && (l.width < 0 || l.height < 0 ==> l.size == 0)
  {
    var l := Plan(arch, width, height).value;
    SignedProduct(arch, l.height, l.stride);
    if l.width >= 0 && l.height >= 0 {
      assert l.width <= width && l.height <= height;
      MulAtLeast(width, height, l.width, l.height);
      FourTimes(l.height, l.width);
    }
  }

  // Which dimensions survive, stated on the wrapped values alone.
  ghost predicate Survives(arch: Arch, w: int, h: int) {
    && I32_MIN <= 4 * w <= I32_MAX
    && (w == 0 || h == 0 || (w > 0 && h > 0 && 4 * (w * h) <= arch.SignedMax()))
  }

  lemma OnlySurvivorsAllocate(arch: Arch, width: nat, height: nat)
    requires Allocatable(arch, width, height)
    ensures Survives(arch, AsI32(width), AsI32(height))
  {
    CopyFits(arch, width, height);
    var l := Plan(arch, width, height).value;
    assert l.size == 4 * (l.width * l.height);
    if l.width < 0 || l.height < 0 {
      ZeroProduct(l.width, l.height);
    }
  }

  lemma SurvivorsAllocate(arch: Arch, width: nat, height: nat)
    requires Survives(arch, AsI32(width), AsI32(height))
    ensures Allocatable(arch, width, height)
  {
    var w, h := AsI32(width), AsI32(height);
    var uh, us := AsUsize(arch, h), AsUsize(arch, 4 * w);
    if w == 0 || h == 0 {
      assert uh * us == 0;
    } else {
      assert uh * us == h * (4 * w) == 4 * (w * h);
    }
  }

  lemma AllocatableExactly(arch: Arch, width: nat, height: nat)
    ensures Allocatable(arch, width, height) <==> Survives(arch, AsI32(width), AsI32(height))
  {
    if Allocatable(arch, width, height) {
      OnlySurvivorsAllocate(arch, width, height);
    } else if Survives(arch, AsI32(width), AsI32(height)) {
      SurvivorsAllocate(arch, width, height);
    }
  }

  function WithSize(w: int, h: int, stride: int, size: Option<nat>): Option<Layout> {
    if size.None? then None else Some(Layout(w, h, stride, size.value))
  }

  lemma PlanInRange(arch: Arch, width: nat, height: nat)
    requires width <= I32_MAX / 4 && height <= I32_MAX
    ensures Plan(arch, width, height) ==
            WithSize(width, height, width * 4, CheckedMulUsize(arch, height, width * 4))
  {
  }

  // On 64-bit platforms no pair of in-range dimensions is ever refused, and the
  // size is four bytes per pixel.
  lemma InRangeDimensions(arch: Arch, width: nat, height: nat)
    requires width <= I32_MAX / 4 && height <= I32_MAX
    ensures Allocatable(arch, width, height) <==> 4 * (width * height) <= arch.SignedMax()
    ensures arch.Bits64? ==> Allocatable(arch, width, height)
    ensures Allocatable(arch, width, height) ==>
              Plan(arch, width, height) == Some(Layout(width, height, 4 * width, 4 * (width * height)))
  {
    PlanInRange(arch, width, height);
    FourTimes(height, width);
    MulAtLeast(I32_MAX / 4, I32_MAX, width, height);
  }

  lemma CopyIsWhole(arch: Arch, width: nat, height: nat)
    requires Allocatable(arch, width, height)
    requires width == 0 || height == 0 || (width <= I32_MAX && height <= I32_MAX)
    ensures Plan(arch, width, height).value.size == 4 * (width * height)
  {
    CopyFits(arch, width, height);
    var l := Plan(arch, width, height).value;
    if width == 0 || height == 0 {
      assert width * height == 0;
    } else {
      FourTimes(l.height, l.width);
    }
  }

  lemma CopyIsPart(arch: Arch, width: nat, height: nat)
    requires Allocatable(arch, width, height)
    requires width != 0 && height != 0 && (width > I32_MAX || height > I32_MAX)
    ensures Plan(arch, width, height).value.size < 4 * (width * height)
  {
    CopyFits(arch, width, height);
    MulAtLeast(width, height, 1, 1);
    var l := Plan(arch, width, height).value;
    if l.width >= 0 && l.height >= 0 {
      SmallerProduct(width, height, l.width, l.height);
      FourTimes(l.height, l.width);
    }
  }

  // The source comments that the decoder's data holds exactly the copied size.
  // That is so precisely when no dimension was changed by its cast, or the
  // image is empty.
  lemma CopyIsWholeImageIff(arch: Arch, width: nat, height: nat)
    requires Allocatable(arch, width, height)
    ensures Plan(arch, width, height).value.size == 4 * (width * height)
            <==> width == 0 || height == 0 || (width <= I32_MAX && height <= I32_MAX)
  {
    if width == 0 || height == 0 || (width <= I32_MAX && height <= I32_MAX) {
      CopyIsWhole(arch, width, height);
    } else {
      CopyIsPart(arch, width, height);
    }
  }

  // Were the decoder's fields 32 bits wide, the copy would always be the whole
  // image: a dimension above i32::MAX then wraps to a negative value, and a
  // negative value leaves nothing to copy.
  lemma NarrowFieldsCopyWholeImage(arch: Arch, width: nat, height: nat)
    requires width < 0x1_0000_0000 && height < 0x1_0000_0000
    requires Allocatable(arch, width, height)
    ensures Plan(arch, width, height).value.size == 4 * (width * height)
  {
    var l := Plan(arch, width, height).value;
    CopyFits(arch, width, height);
    OnlySurvivorsAllocate(arch, width, height);
    assert width > I32_MAX ==> l.width < 0;
    assert height > I32_MAX ==> l.height < 0;
    if width == 0 || height == 0 {
      assert width * height == 0;
    }
    CopyIsWholeImageIff(arch, width, height);
  }

  // With fields as wide as 64 bits the copy can be a strict part of the data.
  lemma CopyCanBePartial()
    ensures Plan(Bits64, 0x1_0000_0001, 1) == Some(Layout(1, 1, 4, 4))
    ensures 4 < 4 * 0x1_0000_0001 * 1
  {
  }
}
