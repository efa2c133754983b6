// Image metadata from the four-byte prefix: device profiles first, then the
// built-in database (src/codec.rs:170-242).
module Metadata {
  import opened Abi
  import opened Dimensions
  import opened FileIo
  import opened Utf16

  // The two tables of the image library, which are not part of this model.
  type I32 = v: int | I32_MIN <= v <= I32_MAX

  datatype Profile = Profile(displayWidth: I32, displayHeight: I32)

  datatype Catalogue = Catalogue(
    files: seq<Scalar> -> Node,
    formatsById: int -> seq<Str>,
    builtin: Option<map<int, Profile>>)

  // i32::from_be_bytes.
  function FromBeBytes(b: seq<byte>): int
    requires |b| == 4
  {
    AsI32(BigEndian(b[0], b[1], b[2], b[3]))
  }

  function BigEndian(b0: int, b1: int, b2: int, b3: int): int {
    ((b0 * 0x100 + b1) * 0x100 + b2) * 0x100 + b3
  }

  lemma WordInjective(a: int, b: int)
    requires 0 <= a < 0x1_0000_0000 && 0 <= b < 0x1_0000_0000 && AsI32(a) == AsI32(b)
    ensures a == b
  {
  }

  lemma LastByte(high: int, b: int, high': int, b': int)
    requires 0 <= b < 0x100 && 0 <= b' < 0x100 && high * 0x100 + b == high' * 0x100 + b'
    ensures high == high' && b == b'
  {
  }

  lemma BigEndianInjective(a0: int, a1: int, a2: int, a3: int, b0: int, b1: int, b2: int, b3: int)
    requires 0 <= a1 < 0x100 && 0 <= a2 < 0x100 && 0 <= a3 < 0x100
    requires 0 <= b1 < 0x100 && 0 <= b2 < 0x100 && 0 <= b3 < 0x100
    requires BigEndian(a0, a1, a2, a3) == BigEndian(b0, b1, b2, b3)
    ensures a0 == b0 && a1 == b1 && a2 == b2 && a3 == b3
  {
    LastByte((a0 * 0x100 + a1) * 0x100 + a2, a3, (b0 * 0x100 + b1) * 0x100 + b2, b3);
    LastByte(a0 * 0x100 + a1, a2, b0 * 0x100 + b1, b2);
    LastByte(a0, a1, b0, b1);
  }

  // Different prefixes are different format numbers.
  lemma PrefixesDiffer(a: seq<byte>, b: seq<byte>)
    requires |a| == 4 && |b| == 4 && FromBeBytes(a) == FromBeBytes(b)
    ensures a == b
  {
    WordInjective(BigEndian(a[0], a[1], a[2], a[3]), BigEndian(b[0], b[1], b[2], b[3]));
    BigEndianInjective(a[0], a[1], a[2], a[3], b[0], b[1], b[2], b[3]);
  }

  // The most significant byte first, in two's complement.
  function ToBeBytes(v: I32): (b: seq<byte>)
    ensures |b| == 4
  {
    var u := if v < 0 then v + 0x1_0000_0000 else v;
    [u / 0x100_0000, u / 0x1_0000 % 0x100, u / 0x100 % 0x100, u % 0x100]
  }

  // Every i32 is the format number of its own four bytes; with PrefixesDiffer,
  // of no others.
  lemma FormatNumberRoundTrip(v: I32)
    ensures FromBeBytes(ToBeBytes(v)) == v
  {
    var u := if v < 0 then v + 0x1_0000_0000 else v;
    assert u / 0x100 == u / 0x100_0000 * 0x1_0000 + u / 0x1_0000 % 0x100 * 0x100 + u / 0x100 % 0x100;
  }

  // The same number by the weights of its bytes.
  lemma FormatNumberValue(b: seq<byte>)
    requires |b| == 4
    ensures FromBeBytes(b) == 16_777_216 * (b[0] as int) + 65_536 * (b[1] as int) + 256 * (b[2] as int) + b[3]
                              - (if b[0] >= 128 then 4_294_967_296 else 0)
  {
  }

  // ---------- The two-tier lookup ----------

  function DimensionsOf(arch: Arch, desc: Str): Option<(nat, nat)> {
    var parsed := ParseDimensions(arch, desc);
    if parsed.Returns? then parsed.dimensions else None
  }

  // find_map: the dimensions of the first description that has any.
  function FirstDimensions(arch: Arch, descs: seq<Str>): Option<(nat, nat)> {
    if descs == [] then None
    else
      var d := DimensionsOf(arch, descs[0]);
      if d.Some? then d else FirstDimensions(arch, descs[1..])
  }

  ghost predicate IsFirst(arch: Arch, descs: seq<Str>, k: nat) {
    k < |descs| && DimensionsOf(arch, descs[k]).Some? && forall j | 0 <= j < k :: DimensionsOf(arch, descs[j]).None?
  }

  lemma {:induction false} FirstDimensionsIff(arch: Arch, descs: seq<Str>, w: nat, h: nat)
    ensures FirstDimensions(arch, descs) == Some((w, h))
            <==> exists k: nat :: IsFirst(arch, descs, k) && DimensionsOf(arch, descs[k]) == Some((w, h))
  {
    if descs != [] {
      var here := DimensionsOf(arch, descs[0]);
      FirstDimensionsIff(arch, descs[1..], w, h);
      if here.Some? {
        assert IsFirst(arch, descs, 0);
      } else {
        if k: nat :| IsFirst(arch, descs[1..], k) && DimensionsOf(arch, descs[1..][k]) == Some((w, h)) {
          assert IsFirst(arch, descs, k + 1) && descs[k + 1] == descs[1..][k];
        }
        if k: nat :| IsFirst(arch, descs, k) && DimensionsOf(arch, descs[k]) == Some((w, h)) {
          assert k > 0 && descs[1..][k - 1] == descs[k];
          forall j | 0 <= j < k - 1 ensures DimensionsOf(arch, descs[1..][j]).None? {
            assert descs[1..][j] == descs[j + 1];
          }
          assert IsFirst(arch, descs[1..], k - 1);
        }
      }
    }
  }

  function Lookup(arch: Arch, prefix: int, catalogue: Catalogue): Result<(nat, nat), IGStatus> {
    match FirstDimensions(arch, catalogue.formatsById(prefix))
    case Some(d) => Ok(d)
    case None =>
      if catalogue.builtin.None? then Err(Internal)
      else if prefix !in catalogue.builtin.value then Err(NotImplemented)
      else
        var p := catalogue.builtin.value[prefix];
        Ok((AsUsize(arch, p.displayWidth), AsUsize(arch, p.displayHeight)))
  }

  // ---------- The entry point ----------

  datatype Info = Info(width: int, height: int, pixelFormat: int, hasAlpha: int, hdrTransferFn: int,
                       colorSpace: int, orientation: int, frameCount: int, fileSizeBytes: int,
                       iccProfileData: Addr, iccProfileSize: int)

  // The struct after a successful query.
  function InfoFor(dimensions: (nat, nat), fileSize: int): Info {
    Info(AsI32(dimensions.0), AsI32(dimensions.1), 1, 1, 0, 1, 0, 1, fileSize, NULL, 0)
  }

  class ImageInfo {
    var width: int
    var height: int
    var pixelFormat: int
    var hasAlpha: int
    var hdrTransferFn: int
    var colorSpace: int
    var orientation: int
    var frameCount: int
    var fileSizeBytes: int
    var iccProfileData: Addr
    var iccProfileSize: int

    constructor (i: Info)
      ensures Value() == i
    {
      width, height, pixelFormat, hasAlpha := i.width, i.height, i.pixelFormat, i.hasAlpha;
      hdrTransferFn, colorSpace, orientation := i.hdrTransferFn, i.colorSpace, i.orientation;
      frameCount, fileSizeBytes := i.frameCount, i.fileSizeBytes;
      iccProfileData, iccProfileSize := i.iccProfileData, i.iccProfileSize;
    }

    function Value(): Info
      reads this
    {
      Info(width, height, pixelFormat, hasAlpha, hdrTransferFn, colorSpace, orientation, frameCount,
           fileSizeBytes, iccProfileData, iccProfileSize)
    }

    method Fill(w: nat, h: nat, fileSize: int)
      modifies this
      ensures Value() == InfoFor((w, h), fileSize)
    {
      width := AsI32(w);
      height := AsI32(h);
      pixelFormat := 1; // Bgra8Unorm
      hasAlpha := 1;
      hdrTransferFn := 0;
      colorSpace := 1; // Srgb
      orientation := 0;
      frameCount := 1;
      fileSizeBytes := fileSize;
      iccProfileData := NULL;
      iccProfileSize := 0;
    }
  }

  // A profile's signed dimensions survive the way through usize and back, on
  // both platforms.
  lemma ThroughUsize(arch: Arch, v: I32)
    ensures AsI32(AsUsize(arch, v)) == v
  {
  }

  lemma LookupByTier(arch: Arch, prefix: int, catalogue: Catalogue)
    ensures var descs := catalogue.formatsById(prefix);
            var found := Lookup(arch, prefix, catalogue);
            && (forall k | 0 <= k < |descs| && DimensionsOf(arch, descs[k]).Some?
                           && (forall j | 0 <= j < k :: DimensionsOf(arch, descs[j]).None?) ::
                  found == Ok(DimensionsOf(arch, descs[k]).value))
            && ((forall k | 0 <= k < |descs| :: DimensionsOf(arch, descs[k]).None?) ==>
                  && (catalogue.builtin.None? ==> found == Err(Internal))
                  && (catalogue.builtin.Some? && prefix !in catalogue.builtin.value ==> found == Err(NotImplemented))
                  && (catalogue.builtin.Some? && prefix in catalogue.builtin.value ==>
                        && found.Ok?
                        && AsI32(found.value.0) == catalogue.builtin.value[prefix].displayWidth
                        && AsI32(found.value.1) == catalogue.builtin.value[prefix].displayHeight))
  {
    var descs := catalogue.formatsById(prefix);
    forall k | 0 <= k < |descs| && DimensionsOf(arch, descs[k]).Some?
               && (forall j | 0 <= j < k :: DimensionsOf(arch, descs[j]).None?)
      ensures Lookup(arch, prefix, catalogue) == Ok(DimensionsOf(arch, descs[k]).value)
    {
      var d := DimensionsOf(arch, descs[k]).value;
      assert IsFirst(arch, descs, k);
      FirstDimensionsIff(arch, descs, d.0, d.1);
    }
    if forall k | 0 <= k < |descs| :: DimensionsOf(arch, descs[k]).None? {
      NoneAtAll(arch, descs);
      if catalogue.builtin.Some? && prefix in catalogue.builtin.value {
        ThroughUsize(arch, catalogue.builtin.value[prefix].displayWidth);
        ThroughUsize(arch, catalogue.builtin.value[prefix].displayHeight);
      }
    }
  }

  lemma NoneAtAll(arch: Arch, descs: seq<Str>)
    requires forall k | 0 <= k < |descs| :: DimensionsOf(arch, descs[k]).None?
    ensures FirstDimensions(arch, descs).None?
  {
    if FirstDimensions(arch, descs).Some? {
      var d := FirstDimensions(arch, descs).value;
      FirstDimensionsIff(arch, descs, d.0, d.1);
    }
  }

  // No error is reported as Ok.
  lemma NoErrorIsOk(arch: Arch, node: Node, catalogue: Catalogue)
    ensures PrefixOf(node).Err? ==> !PrefixOf(node).error.StatusOk?
    ensures forall p :: Lookup(arch, p, catalogue).Err? ==> !Lookup(arch, p, catalogue).error.StatusOk?
  {
  }

  // The exact status for every input; the whole struct on Ok, and no change on
  // any other status. The struct's file size is the length of the content.
  method LoadMetadata(arch: Arch, path: StringRef, info: ImageInfo?, catalogue: Catalogue)
    returns (status: IGStatus)
    requires Readable(path)
    modifies info
    ensures info == null || Utf16ToString(path).None? ==> status == InvalidArg
    ensures info != null && Utf16ToString(path).Some? ==>
              var read := PrefixOf(catalogue.files(Utf16ToString(path).value));
              && status == (if read.Err? then read.error
                            else StatusOf(Lookup(arch, FromBeBytes(read.value.0), catalogue)))
              && (status.StatusOk? ==>
                    && read.Ok?
                    && var found := Lookup(arch, FromBeBytes(read.value.0), catalogue);
                    found.Ok? && info.Value() == InfoFor(found.value, read.value.1))
    ensures status.StatusOk? ==>
              && info != null && Utf16ToString(path).Some?
              && var node := catalogue.files(Utf16ToString(path).value);
              && (node.Plain() ==> ReadIthmbFile(node).Ok? && info.fileSizeBytes == |ReadIthmbFile(node).value|)
    ensures !status.StatusOk? && info != null ==> info.Value() == old(info.Value())
    // The two tiers in their order, device descriptions before the database.
    ensures info != null && path.data.Some? && path.length > 0 ==>
              var read := PrefixOf(catalogue.files(Lossy(path.data.value[..path.length])));
              && (read.Err? ==> status == read.error)
              && (read.Ok? ==>
                    var prefix := FromBeBytes(read.value.0);
                    var descs := catalogue.formatsById(prefix);
                    && (forall k | 0 <= k < |descs| && DimensionsOf(arch, descs[k]).Some?
                                   && (forall j | 0 <= j < k :: DimensionsOf(arch, descs[j]).None?) ::
                          && status == StatusOk
                          && info.width == AsI32(DimensionsOf(arch, descs[k]).value.0)
                          && info.height == AsI32(DimensionsOf(arch, descs[k]).value.1))
                    && ((forall k | 0 <= k < |descs| :: DimensionsOf(arch, descs[k]).None?) ==>
                          if catalogue.builtin.None? then status == Internal
                          else if prefix !in catalogue.builtin.value then status == NotImplemented
                          else
                            && status == StatusOk
                            && info.width == catalogue.builtin.value[prefix].displayWidth
                            && info.height == catalogue.builtin.value[prefix].displayHeight)
                    && (status == StatusOk ==>
                          && info.fileSizeBytes == read.value.1
                          && info.pixelFormat == 1 && info.hasAlpha == 1 && info.hdrTransferFn == 0
                          && info.colorSpace == 1 && info.orientation == 0 && info.frameCount == 1
                          && info.iccProfileData == 0 && info.iccProfileSize == 0))
    ensures info == null || path.data.None? || path.length <= 0 ==> status == InvalidArg
  {
    if info == null {
      return InvalidArg;
    }
    var name := Utf16ToString(path);
    if name.None? {
      return InvalidArg;
    }
    var node := catalogue.files(name.value);
    var read := ReadIthmbPrefix(node);
    if node.Plain() {
      ReadsExactly(node);
    }
    NoErrorIsOk(arch, node, catalogue);
    if read.Err? {
      return read.error;
    }
    var (prefixBytes, fileSize) := read.value;
    var prefix := FromBeBytes(prefixBytes);
    LookupByTier(arch, prefix, catalogue);
    var formats := catalogue.formatsById(prefix);
    var known := FirstDimensions(arch, formats);
    if known.Some? {
      info.Fill(known.value.0, known.value.1, fileSize);
      return StatusOk;
    }
    if catalogue.builtin.None? {
      return Internal;
    }
    if prefix !in catalogue.builtin.value {
      return NotImplemented;
    }
    var profile := catalogue.builtin.value[prefix];
    info.Fill(AsUsize(arch, profile.displayWidth), AsUsize(arch, profile.displayHeight), fileSize);
    return StatusOk;
  }
}
