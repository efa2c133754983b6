// The decode and free entry points as one thread runs them: the registry, the
// C heap and the host's struct updated in place (src/decode.rs:35-185,
// src/allocator.rs).
module Decode {
  import opened Abi
  import opened BufferSize
  import opened FileIo
  import opened Lifecycle
  import opened Registry
  import opened Utf16

  // ---------- Everything before the allocation ----------

  datatype DecodeError =
    | Io | Jpeg | Profile | InvalidFormat | BufferTooShort | UnsupportedFormat | CanceledByFlag | OtherError

  function StatusFromDecodeError(e: DecodeError): IGStatus {
    match e
    case Io => IoError
    case Jpeg => DecodeFailed
    case Profile => DecodeFailed
    case InvalidFormat => InvalidArg
    case BufferTooShort => InvalidArg
    case UnsupportedFormat => Unsupported
    case CanceledByFlag => Canceled
    case OtherError => Internal
  }

  // What lies outside the plugin: the files, the image decoder, and what
  // malloc will offer.
  datatype Environment = Environment(
    files: seq<Scalar> -> Node,
    decoder: seq<byte> -> Result<Image, DecodeError>,
    offer: Addr,
    junk: int -> byte)

  // decode.rs:43-84, for a host that passed a struct or a null pointer.
  function Input(path: StringRef, frameIndex: int, hasBuffer: bool, env: Environment): Result<Image, IGStatus>
    requires Readable(path)
  {
    if !hasBuffer then Err(InvalidArg)
    else
      match Utf16ToString(path)
      case None => Err(InvalidArg)
      case Some(name) =>
        if frameIndex != 0 then Err(InvalidArg)
        else
          match ReadIthmbFile(env.files(name))
          case Err(status) => Err(status)
          case Ok(content) =>
            match env.decoder(content)
            case Err(e) => Err(StatusFromDecodeError(e))
            case Ok(image) => Ok(image)
  }

  // ---------- The memory the two entry points share ----------

  datatype Memory = Memory(heap: map<Addr, Block>, entries: Entries, poisoned: bool)

  // Between calls: the registry lists exactly the live blocks, truthfully.
  ghost predicate WellKept(m: Memory) {
    && m.heap.Keys == m.entries.Keys && NULL !in m.heap
    && forall a | a in m.heap ::
         m.entries[a] == BufferEntry(a, m.heap[a].size, false) && |m.heap[a].bytes| == m.heap[a].size
  }

  // Whether an image ends up published, and where.
  function Placement(arch: Arch, m: Memory, image: Image, offer: Addr): Result<(Layout, Addr), IGStatus> {
    match Plan(arch, image.width, image.height)
    case None => Err(OutOfMemory)
    case Some(layout) =>
      var ptr := MallocAnswer(arch, m.heap, layout.size, offer);
      if ptr == NULL then Err(OutOfMemory)
      else if m.poisoned then Err(Internal)
      else Ok((layout, ptr))
  }

  function Placed(m: Memory, image: Image, layout: Layout, ptr: Addr): Memory
    requires layout.size <= |image.data|
  {
    Memory(m.heap[ptr := Block(layout.size, image.data[..layout.size])],
           m.entries[ptr := BufferEntry(ptr, layout.size, false)], m.poisoned)
  }

  function Filled(layout: Layout, ptr: Addr): PixelBuffer {
    PixelBuffer(ptr, layout.width, layout.height, layout.stride, 1, NULL)
  }

  function Cleared(pb: PixelBuffer): PixelBuffer {
    pb.(data := NULL, width := 0, height := 0, stride := 0)
  }

  predicate Frees(m: Memory, ptr: Addr) {
    ptr != NULL && !m.poisoned && ptr in m.entries
  }

  function AfterFree(m: Memory, ptr: Addr): Memory {
    if Frees(m, ptr) then Memory(m.heap - {ptr}, m.entries - {ptr}, m.poisoned) else m
  }

  lemma PlacementFits(arch: Arch, m: Memory, image: Image, offer: Addr)
    requires Placement(arch, m, image, offer).Ok?
    ensures var (layout, ptr) := Placement(arch, m, image, offer).value;
            && Fits(layout, |image.data|) && layout.size <= |image.data|
            && ptr !in m.heap && ptr != NULL
  {
    CopyFits(arch, image.width, image.height);
  }

  // ---------- What the answers mean, in terms of the inputs ----------

  // A decode gets to its image exactly when the host passed a struct and a
  // non-empty path, asked for frame 0, and the file reads and decodes.
  lemma InputIff(path: StringRef, frameIndex: int, hasBuffer: bool, env: Environment, image: Image)
    requires Readable(path)
    ensures Input(path, frameIndex, hasBuffer, env) == Ok(image)
            <==> && hasBuffer && path.data.Some? && path.length > 0 && frameIndex == 0
                 && var node := env.files(Lossy(path.data.value[..path.length]));
                 && node.Open? && !node.broken && node.len <= 8_388_608 && 4 <= |node.bytes|
                 && env.decoder(node.bytes) == Ok(image)
  {
    if path.data.Some? && path.length > 0 {
      AnswersWrittenOut(env.files(Lossy(path.data.value[..path.length])));
    }
  }

  // Anything else the host asks is refused whatever the file holds; then come
  // the errors of the read, and then those of the decoder.
  lemma InputErrors(path: StringRef, frameIndex: int, hasBuffer: bool, env: Environment)
    requires Readable(path)
    ensures !hasBuffer || path.data.None? || path.length <= 0 || frameIndex != 0 ==>
              Input(path, frameIndex, hasBuffer, env) == Err(InvalidArg)
    ensures hasBuffer && path.data.Some? && path.length > 0 && frameIndex == 0 ==>
              var node := env.files(Lossy(path.data.value[..path.length]));
              var input := Input(path, frameIndex, hasBuffer, env);
              && (node.Absent? || (node.len <= 8_388_608 && (node.Closed? || node.broken)) ==> input == Err(IoError))
              && (!node.Absent? && node.len > 8_388_608 ==> input == Err(DecodeFailed))
              && (node.Open? && node.len <= 8_388_608 && !node.broken ==>
                    if |node.bytes| < 4 then input == Err(DecodeFailed)
                    else env.decoder(node.bytes).Err? ==>
                      input == Err(StatusFromDecodeError(env.decoder(node.bytes).error)))
  {
    if path.data.Some? && path.length > 0 {
      AnswersWrittenOut(env.files(Lossy(path.data.value[..path.length])));
    }
  }

  // What each status tells the host about the decoder's error.
  lemma DecodeErrorStatuses(e: DecodeError)
    ensures var status := StatusFromDecodeError(e);
            && (status == IoError <==> e.Io?)
            && (status == DecodeFailed <==> e.Jpeg? || e.Profile?)
            && (status == InvalidArg <==> e.InvalidFormat? || e.BufferTooShort?)
            && (status == Unsupported <==> e.UnsupportedFormat?)
            && (status == Canceled <==> e.CanceledByFlag?)
            && (status == Internal <==> e.OtherError?)
            && status != StatusOk
  {
  }

  // An image whose four bytes per pixel malloc can grant is placed at the
  // offered address, unless malloc offers none or the mutex is poisoned.
  lemma PlacementOfInRangeImage(arch: Arch, m: Memory, image: Image, offer: Addr)
    requires InRange(arch, image)
    ensures Placement(arch, m, image, offer) ==
            if offer == 0 || offer in m.heap then Err(OutOfMemory)
            else if m.poisoned then Err(Internal)
            else Ok((Layout(image.width, image.height, 4 * image.width, 4 * (image.width * image.height)), offer))
  {
    InRangeDimensions(arch, image.width, image.height);
  }

  // Four bytes per pixel fit in what malloc may grant.
  ghost predicate InRange(arch: Arch, image: Image) {
    && image.width <= 0x1FFF_FFFF && image.height <= 0x7FFF_FFFF
    && (arch.Bits32? ==> 4 * (image.width * image.height) <= 2_147_483_647)
  }

  // ---------- The objects ----------

  class Allocator {
    const arch: Arch
    var blocks: map<Addr, Block>

    constructor (arch: Arch)
      ensures this.arch == arch && blocks == map[]
    {
      this.arch := arch;
      blocks := map[];
    }

    method Alloc(size: nat, env: Environment) returns (ptr: Addr)
      modifies this
      ensures ptr == MallocAnswer(arch, old(blocks), size, env.offer)
      ensures ptr == NULL ==> blocks == old(blocks)
      ensures ptr != NULL ==> ptr !in old(blocks) && ptr in blocks && blocks[ptr].size == size
                              && |blocks[ptr].bytes| == size && blocks - {ptr} == old(blocks)
    {
      ptr := MallocAnswer(arch, blocks, size, env.offer);
      if ptr != NULL {
        ghost var before := blocks;
        blocks := blocks[ptr := Block(size, seq(size, i => env.junk(i)))];
        assert blocks - {ptr} == before;
      }
    }

    // The source promises a live block of at least that many bytes.
    method CopyIn(ptr: Addr, source: seq<byte>)
      requires ptr in blocks && |source| == blocks[ptr].size
      modifies this
      ensures blocks == old(blocks)[ptr := Block(|source|, source)]
    {
      blocks := blocks[ptr := Block(|source|, source)];
    }

    // The source promises a live block, not yet freed.
    method Free(ptr: Addr)
      requires ptr in blocks
      modifies this
      ensures blocks == old(blocks) - {ptr}
    {
      blocks := blocks - {ptr};
    }
  }

  // The host's IGPixelBuffer, which the plugin writes field by field.
  class HostBuffer {
    var data: Addr
    var width: int
    var height: int
    var stride: int
    var pixelFormat: int
    var releaseContext: Addr

    constructor ()
      ensures Value() == PixelBuffer(NULL, 0, 0, 0, 0, NULL)
    {
      data, width, height, stride, pixelFormat, releaseContext := NULL, 0, 0, 0, 0, NULL;
    }

    function Value(): PixelBuffer
      reads this
    {
      PixelBuffer(data, width, height, stride, pixelFormat, releaseContext)
    }
  }

  class Plugin {
    const arch: Arch
    const allocator: Allocator
    const registry: BufferRegistry

    constructor (arch: Arch)
      ensures Valid() && fresh(allocator) && fresh(registry)
      ensures this.arch == arch && Snapshot() == Memory(map[], map[], false)
    {
      this.arch := arch;
      allocator := new Allocator(arch);
      registry := new BufferRegistry();
    }

    ghost function Snapshot(): Memory
      reads allocator, registry
    {
      Memory(allocator.blocks, registry.entries, registry.poisoned)
    }

    ghost predicate Valid()
      reads allocator, registry
    {
      allocator.arch == arch && WellKept(Snapshot())
    }

    // Success publishes exactly the placed buffer; every other answer leaves
    // heap, registry and struct as they were, the undo branch included.
    method DecodeStaticRaster(path: StringRef, frameIndex: int, buffer: HostBuffer?, env: Environment)
      returns (status: IGStatus)
      requires Valid() && Readable(path)
      modifies allocator, registry`entries, buffer
      ensures Valid() && registry.poisoned == old(registry.poisoned)
      ensures var input := Input(path, frameIndex, buffer != null, env);
              if input.Err? then status == input.error
              else status == StatusOf(old(Placement(arch, Snapshot(), input.value, env.offer)))
      ensures status.StatusOk? ==>
                && var image := Input(path, frameIndex, buffer != null, env).value;
                && var (layout, ptr) := old(Placement(arch, Snapshot(), image, env.offer)).value;
                && layout.size <= |image.data|
                && Snapshot() == Placed(old(Snapshot()), image, layout, ptr)
                && buffer.Value() == Filled(layout, ptr)
                && buffer.width == AsI32(image.width) && buffer.height == AsI32(image.height)
                && buffer.stride == 4 * buffer.width
                && buffer.height * buffer.stride == registry.entries[buffer.data].size
                && allocator.blocks[buffer.data].bytes == image.data[..registry.entries[buffer.data].size]
      ensures !status.StatusOk? ==>
                Snapshot() == old(Snapshot()) && (buffer != null ==> buffer.Value() == old(buffer.Value()))
      // What Ok tells the host about its request.
      ensures status.StatusOk? ==>
                && buffer != null && path.data.Some? && path.length > 0 && frameIndex == 0
                && var node := env.files(Lossy(path.data.value[..path.length]));
                && node.Open? && !node.broken && node.len <= 8_388_608 && 4 <= |node.bytes|
                && env.decoder(node.bytes).Ok?
                && var image := env.decoder(node.bytes).value;
                && buffer.width == AsI32(image.width) && buffer.height == AsI32(image.height)
                && buffer.pixelFormat == 1 && buffer.releaseContext == 0
                && buffer.data in registry.entries && registry.entries[buffer.data].size <= |image.data|
                && allocator.blocks[buffer.data].bytes == image.data[..registry.entries[buffer.data].size]
      // What is refused whatever the file holds.
      ensures buffer == null || path.data.None? || path.length <= 0 || frameIndex != 0 ==> status == InvalidArg
      // What is answered otherwise, the image being one malloc can hold.
      ensures buffer != null && path.data.Some? && path.length > 0 && frameIndex == 0 ==>
                var node := env.files(Lossy(path.data.value[..path.length]));
                && (node.Absent? || (node.len <= 8_388_608 && (node.Closed? || node.broken)) ==> status == IoError)
                && (!node.Absent? && node.len > 8_388_608 ==> status == DecodeFailed)
                && (node.Open? && node.len <= 8_388_608 && !node.broken ==>
                      if |node.bytes| < 4 then status == DecodeFailed
                      else if env.decoder(node.bytes).Err? then
                        status == StatusFromDecodeError(env.decoder(node.bytes).error)
                      else
                        var image := env.decoder(node.bytes).value;
                        InRange(arch, image) ==>
                          status == if env.offer == 0 || env.offer in old(allocator.blocks) then OutOfMemory
                                    else if registry.poisoned then Internal else StatusOk)
    {
      InputErrors(path, frameIndex, buffer != null, env);
      if buffer == null {
        return InvalidArg;
      }
      var name := Utf16ToString(path);
      if name.None? {
        return InvalidArg;
      }
      if frameIndex != 0 {
        return InvalidArg;
      }
      var file := ReadIthmbFile(env.files(name.value));
      if file.Err? {
        ReadErrorsAreErrors(env.files(name.value));
        return file.error;
      }
      var decoded := env.decoder(file.value);
      if decoded.Err? {
        DecodeErrorStatuses(decoded.error);
        return StatusFromDecodeError(decoded.error);
      }
      InputIff(path, frameIndex, true, env, decoded.value);
      if InRange(arch, decoded.value) {
        PlacementOfInRangeImage(arch, Snapshot(), decoded.value, env.offer);
      }
      status := Place(decoded.value, buffer, env);
      if status.StatusOk? {
        CopyFits(arch, decoded.value.width, decoded.value.height);
      }
    }

    // decode.rs:86-135.
    method Place(image: Image, buffer: HostBuffer, env: Environment) returns (status: IGStatus)
      requires Valid()
      modifies allocator, registry`entries, buffer
      ensures Valid() && registry.poisoned == old(registry.poisoned)
      ensures status == StatusOf(old(Placement(arch, Snapshot(), image, env.offer)))
      ensures status.StatusOk? ==>
                && var (layout, ptr) := old(Placement(arch, Snapshot(), image, env.offer)).value;
                && Fits(layout, |image.data|)
                && Snapshot() == Placed(old(Snapshot()), image, layout, ptr)
                && buffer.Value() == Filled(layout, ptr)
      ensures !status.StatusOk? ==> Snapshot() == old(Snapshot()) && buffer.Value() == old(buffer.Value())
    {
      ghost var before := Snapshot();
      var plan := Plan(arch, image.width, image.height);
      if plan.None? {
        return OutOfMemory;
      }
      var layout := plan.value;
      var dataPtr := allocator.Alloc(layout.size, env);
      if dataPtr == NULL {
        return OutOfMemory;
      }
      CopyFits(arch, image.width, image.height);
      allocator.CopyIn(dataPtr, image.data[..layout.size]);
      assert allocator.blocks - {dataPtr} == before.heap;
      var registered := registry.Register(dataPtr, layout.size);
      if registered.Err? {
        allocator.Free(dataPtr);
        return Internal;
      }
      assert allocator.blocks == before.heap[dataPtr := Block(layout.size, image.data[..layout.size])];
      buffer.data := dataPtr;
      buffer.width := layout.width;
      buffer.height := layout.height;
      buffer.stride := layout.stride;
      buffer.pixelFormat := 1; // Bgra8Unorm
      buffer.releaseContext := NULL;
      return StatusOk;
    }

    // The struct is always cleared; a block is released exactly when the
    // struct's address was registered and the mutex is sound.
    method FreePixelBuffer(buffer: HostBuffer?)
      requires Valid()
      modifies allocator, registry`entries, buffer
      ensures Valid() && registry.poisoned == old(registry.poisoned)
      ensures buffer == null ==> Snapshot() == old(Snapshot())
      ensures buffer != null ==> buffer.Value() == Cleared(old(buffer.Value()))
      ensures buffer != null ==>
                && buffer.data == 0 && buffer.width == 0 && buffer.height == 0 && buffer.stride == 0
                && buffer.pixelFormat == old(buffer.pixelFormat)
                && buffer.releaseContext == old(buffer.releaseContext)
      ensures buffer != null ==> Snapshot() == AfterFree(old(Snapshot()), old(buffer.data))
      ensures buffer != null && old(buffer.data != 0 && !registry.poisoned && buffer.data in registry.entries) ==>
                && allocator.blocks == old(allocator.blocks) - {old(buffer.data)}
                && registry.entries == old(registry.entries) - {old(buffer.data)}
      ensures buffer != null && !old(buffer.data != 0 && !registry.poisoned && buffer.data in registry.entries) ==>
                Snapshot() == old(Snapshot())
    {
      if buffer == null {
        return;
      }
      var dataPtr := buffer.data;
      buffer.data := NULL;
      buffer.width := 0;
      buffer.height := 0;
      buffer.stride := 0;
      if dataPtr == NULL {
        return;
      }
      var unregistered := registry.Unregister(dataPtr);
      if unregistered.Err? {
        return;
      }
      allocator.Free(dataPtr);
    }
  }

  lemma ReadErrorsAreErrors(node: Node)
    requires ReadIthmbFile(node).Err?
    ensures ReadIthmbFile(node).error in {IoError, DecodeFailed}
  {
  }

  // ---------- Whole histories of calls ----------

  function Without(m: Memory, gone: set<Addr>): Memory {
    Memory(m.heap - gone, m.entries - gone, m.poisoned)
  }

  lemma WithoutTwice(m: Memory, a: set<Addr>, b: set<Addr>)
    ensures Without(Without(m, a), b) == Without(m, a + b)
    ensures Without(m, {}) == m
  {
    assert (m.heap - a) - b == m.heap - (a + b);
    assert (m.entries - a) - b == m.entries - (a + b);
    assert m.heap - {} == m.heap && m.entries - {} == m.entries;
  }

  function Addresses(ptrs: seq<Addr>): set<Addr> {
    set p | p in ptrs
  }

  lemma AddressesStep(ptrs: seq<Addr>)
    requires ptrs != []
    ensures Addresses(ptrs) == {ptrs[0]} + Addresses(ptrs[1..])
  {
    assert ptrs == [ptrs[0]] + ptrs[1..];
  }

  // Freeing any sequence of addresses, in any order, repeated, null or unknown.
  function FreeAll(m: Memory, ptrs: seq<Addr>): Memory
    decreases |ptrs|
  {
    if ptrs == [] then m else FreeAll(AfterFree(m, ptrs[0]), ptrs[1..])
  }

  lemma AfterFreeIsWithout(m: Memory, ptr: Addr)
    requires WellKept(m)
    ensures WellKept(AfterFree(m, ptr))
    ensures AfterFree(m, ptr) == if m.poisoned then m else Without(m, {ptr})
  {
    if !Frees(m, ptr) {
      assert !m.poisoned ==> ptr !in m.heap && ptr !in m.entries;
      assert !m.poisoned ==> m.heap - {ptr} == m.heap && m.entries - {ptr} == m.entries;
    }
  }

  // What is left does not depend on the order or on repetitions: exactly the
  // named registered blocks are gone; behind a poisoned mutex, none.
  lemma {:induction false} FreeAllRemoves(m: Memory, ptrs: seq<Addr>)
    requires WellKept(m)
    ensures WellKept(FreeAll(m, ptrs))
    ensures FreeAll(m, ptrs) == if m.poisoned then m else Without(m, Addresses(ptrs))
    decreases |ptrs|
  {
    if ptrs == [] {
      WithoutTwice(m, {}, {});
    } else {
      AfterFreeIsWithout(m, ptrs[0]);
      FreeAllRemoves(AfterFree(m, ptrs[0]), ptrs[1..]);
      AddressesStep(ptrs);
      WithoutTwice(m, {ptrs[0]}, Addresses(ptrs[1..]));
    }
  }

  datatype Request = Request(image: Image, offer: Addr)

  // A sequence of decodes that all answer Ok, and the addresses they publish.
  predicate AllPlaced(arch: Arch, m: Memory, requests: seq<Request>)
    decreases |requests|
  {
    requests == [] ||
    var placement := Placement(arch, m, requests[0].image, requests[0].offer);
    && placement.Ok?
    && placement.value.0.size <= |requests[0].image.data|
    && AllPlaced(arch, Placed(m, requests[0].image, placement.value.0, placement.value.1), requests[1..])
  }

  function PlaceAll(arch: Arch, m: Memory, requests: seq<Request>): (Memory, seq<Addr>)
    requires AllPlaced(arch, m, requests)
    decreases |requests|
  {
    if requests == [] then (m, [])
    else
      var (layout, ptr) := Placement(arch, m, requests[0].image, requests[0].offer).value;
      var (m', ptrs) := PlaceAll(arch, Placed(m, requests[0].image, layout, ptr), requests[1..]);
      (m', [ptr] + ptrs)
  }

  lemma PlacedIsOneMore(arch: Arch, m: Memory, image: Image, offer: Addr)
    requires WellKept(m) && Placement(arch, m, image, offer).Ok?
    ensures var (layout, ptr) := Placement(arch, m, image, offer).value;
            && layout.size <= |image.data|
            && var m1 := Placed(m, image, layout, ptr);
            WellKept(m1) && m1.poisoned == m.poisoned && Without(m1, {ptr}) == m
  {
    PlacementFits(arch, m, image, offer);
    var (layout, ptr) := Placement(arch, m, image, offer).value;
    var m1 := Placed(m, image, layout, ptr);
    assert m1.heap - {ptr} == m.heap;
    assert m1.entries - {ptr} == m.entries;
  }

  lemma {:induction false} PlaceAllAdds(arch: Arch, m: Memory, requests: seq<Request>)
    requires WellKept(m) && AllPlaced(arch, m, requests)
    ensures var (m', ptrs) := PlaceAll(arch, m, requests);
            WellKept(m') && m'.poisoned == m.poisoned && Without(m', Addresses(ptrs)) == m
    decreases |requests|
  {
    if requests == [] {
      WithoutTwice(m, {}, {});
    } else {
      PlacedIsOneMore(arch, m, requests[0].image, requests[0].offer);
      var (layout, ptr) := Placement(arch, m, requests[0].image, requests[0].offer).value;
      var m1 := Placed(m, requests[0].image, layout, ptr);
      PlaceAllAdds(arch, m1, requests[1..]);
      var (m', rest) := PlaceAll(arch, m1, requests[1..]);
      AddressesStep([ptr] + rest);
      assert ([ptr] + rest)[1..] == rest;
      WithoutTwice(m', Addresses(rest), {ptr});
      assert Addresses([ptr] + rest) == Addresses(rest) + {ptr};
    }
  }

  // Any number of successful decodes, followed by frees of those buffers in any
  // order and with any repetitions, gives back the memory there was before; so
  // from an empty plugin both registry and heap end empty.
  lemma DecodesThenFreesRestore(arch: Arch, m: Memory, requests: seq<Request>, frees: seq<Addr>)
    requires WellKept(m) && !m.poisoned && AllPlaced(arch, m, requests)
    requires Addresses(frees) == Addresses(PlaceAll(arch, m, requests).1)
    ensures FreeAll(PlaceAll(arch, m, requests).0, frees) == m
  {
    PlaceAllAdds(arch, m, requests);
    FreeAllRemoves(PlaceAll(arch, m, requests).0, frees);
  }

  // Decoded addresses are distinct, so the registry grows by one per decode.
  lemma {:induction false} DecodesGrowRegistry(arch: Arch, m: Memory, requests: seq<Request>)
    requires WellKept(m) && AllPlaced(arch, m, requests)
    ensures |PlaceAll(arch, m, requests).0.entries| == |m.entries| + |requests|
    decreases |requests|
  {
    if requests != [] {
      PlacementFits(arch, m, requests[0].image, requests[0].offer);
      PlacedIsOneMore(arch, m, requests[0].image, requests[0].offer);
      var (layout, ptr) := Placement(arch, m, requests[0].image, requests[0].offer).value;
      var m1 := Placed(m, requests[0].image, layout, ptr);
      assert m1.entries.Keys == m.entries.Keys + {ptr};
      assert |m1.entries.Keys| == |m.entries.Keys| + 1;
      DecodesGrowRegistry(arch, m1, requests[1..]);
    }
  }
}
