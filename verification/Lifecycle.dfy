// The pixel-buffer protocol as an interleaving of atomic steps.
//
// Any number of threads run decode (src/decode.rs:100-135) and free
// (src/decode.rs:151-183) at once. Only the two registry calls hold the mutex;
// every raw memory access is a step of its own. The allocator may hand out any
// address that is not live, the host may copy or overwrite its structs at any
// moment, and the mutex may become poisoned at any moment.
module Lifecycle {
  import opened Abi
  import opened BufferSize
  import opened Registry

  type Tid = int
  type Slot = int
  type Gen = int

  // A live heap block. `size` is what malloc was asked for.
  datatype Block = Block(size: nat, bytes: seq<byte>)

  // Where a thread stands inside its call, with the locals it still needs.
  datatype Thread =
    | Idle
      // decode
    | Sized(slot: Slot, data: seq<byte>, layout: Layout)
    | Allocated(slot: Slot, data: seq<byte>, layout: Layout, ptr: Addr)
    | Copied(slot: Slot, data: seq<byte>, layout: Layout, ptr: Addr)
    | Undoing(ptr: Addr, cause: IGStatus)
    | Publishing(slot: Slot, layout: Layout, ptr: Addr, written: nat)
      // free
    | Reading(slot: Slot)
    | Clearing(slot: Slot, ptr: Addr, cleared: nat)
    | Unregistering(ptr: Addr)
    | Releasing(ptr: Addr)

  // History. Each allocation gets a generation of its own, so two blocks that
  // reuse one address are told apart.
  datatype Event =
    | Alloc(t: Tid, gen: Gen, ptr: Addr)
    | Reg(t: Tid, gen: Gen, ptr: Addr, pixels: seq<byte>)
    | Unreg(t: Tid, gen: Gen, ptr: Addr)
    | Release(t: Tid, gen: Gen, ptr: Addr)
    | Undo(t: Tid, gen: Gen, ptr: Addr)
    | Return(t: Tid, status: IGStatus)

  // `gens`, `nextGen`, `trace` and `fault` are bookkeeping: no step reads them
  // to decide what to do. `fault` is raised by a write outside a live block
  // and by a free of a block that is not live.
  datatype State = State(
    arch: Arch,
    heap: map<Addr, Block>,
    registry: Entries,
    poisoned: bool,
    slots: map<Slot, PixelBuffer>,
    threads: map<Tid, Thread>,
    gens: map<Addr, Gen>,
    nextGen: Gen,
    trace: seq<Event>,
    fault: bool)

  datatype Label =
    | BeginDecode(t: Tid, slot: Slot, image: Image)
    | BeginFree(t: Tid, slot: Slot)
      // malloc: the environment offers an address and the block's first contents
    | Malloc(t: Tid, offer: Addr, junk: seq<byte>)
    | Advance(t: Tid)
    | HostCopy(source: Slot, target: Slot)
    | HostWrite(target: Slot, value: PixelBuffer)
    | Poison

  ghost predicate Init(s: State) {
    && s.heap == map[] && s.registry == map[] && !s.poisoned
    && (forall t | t in s.threads :: s.threads[t].Idle?)
    && s.gens == map[] && s.nextGen == 0 && s.trace == [] && !s.fault
  }

  predicate Enabled(s: State, l: Label) {
    match l
    case BeginDecode(t, slot, image) => t in s.threads && s.threads[t].Idle? && slot in s.slots
    case BeginFree(t, slot) => t in s.threads && s.threads[t].Idle? && slot in s.slots
    case Malloc(t, offer, junk) =>
      t in s.threads && s.threads[t].Sized? && |junk| == s.threads[t].layout.size
    case Advance(t) => t in s.threads && !s.threads[t].Idle? && !s.threads[t].Sized?
    case HostCopy(source, target) => source in s.slots && target in s.slots
    case HostWrite(target, value) => target in s.slots
    case Poison => true
  }

  // Whose call a label belongs to.
  predicate ActsFor(l: Label, t: Tid) {
    (l.BeginDecode? || l.BeginFree? || l.Malloc? || l.Advance?) && l.t == t
  }

  // ---------- Pieces of a step ----------

  function Goto(s: State, t: Tid, th: Thread): State {
    s.(threads := s.threads[t := th])
  }

  function Log(s: State, e: Event): State {
    s.(trace := s.trace + [e])
  }

  function GenOf(s: State, a: Addr): Gen {
    if a in s.gens then s.gens[a] else 0
  }

  // malloc answers null or an address that is not live; it answers null when
  // asked for more than the signed maximum. Every such answer is the answer to
  // some offer.
  function MallocAnswer(arch: Arch, heap: map<Addr, Block>, size: nat, offer: Addr): Addr {
    if offer in heap || size > arch.SignedMax() then NULL else offer
  }

  // copy_nonoverlapping of the first `size` decoded bytes into the block.
  function CopyInto(s: State, ptr: Addr, data: seq<byte>, size: nat): State {
    if ptr in s.heap && size <= s.heap[ptr].size && size <= |data| && size <= |s.heap[ptr].bytes| then
      var block := s.heap[ptr];
      s.(heap := s.heap[ptr := block.(bytes := data[..size] + block.bytes[size..])])
    else
      s.(fault := true)
  }

  function FreeBlock(s: State, ptr: Addr): State {
    if ptr in s.heap then s.(heap := s.heap - {ptr}, gens := s.gens - {ptr})
    else s.(fault := true)
  }

  const PUBLISHED_FIELDS: nat := 6
  const CLEARED_FIELDS: nat := 4

  // The k-th store of decode.rs:127-132.
  function WriteField(pb: PixelBuffer, k: nat, ptr: Addr, l: Layout): PixelBuffer {
    match k
    case 0 => pb.(data := ptr)
    case 1 => pb.(width := l.width)
    case 2 => pb.(height := l.height)
    case 3 => pb.(stride := l.stride)
    case 4 => pb.(pixelFormat := 1)
    case _ => pb.(releaseContext := NULL)
  }

  // The k-th store of decode.rs:163-166.
  function ClearField(pb: PixelBuffer, k: nat): PixelBuffer {
    match k
    case 0 => pb.(data := NULL)
    case 1 => pb.(width := 0)
    case 2 => pb.(height := 0)
    case _ => pb.(stride := 0)
  }

  function SlotAt(s: State, slot: Slot): PixelBuffer {
    if slot in s.slots then s.slots[slot] else PixelBuffer(NULL, 0, 0, 0, 0, NULL)
  }

  // ---------- Steps of decode ----------

  function DoBeginDecode(s: State, t: Tid, slot: Slot, image: Image): State {
    Planned(s, t, slot, image.data, Plan(s.arch, image.width, image.height))
  }

  function Planned(s: State, t: Tid, slot: Slot, data: seq<byte>, plan: Option<Layout>): State {
    match plan
    case None => Log(Goto(s, t, Idle), Return(t, OutOfMemory))
    case Some(layout) => Goto(s, t, Sized(slot, data, layout))
  }

  function DoMalloc(s: State, t: Tid, offer: Addr, junk: seq<byte>): State
    requires Enabled(s, Malloc(t, offer, junk))
  {
    var th := s.threads[t];
    var ptr := MallocAnswer(s.arch, s.heap, th.layout.size, offer);
    if ptr == NULL then
      Log(Goto(s, t, Idle), Return(t, OutOfMemory))
    else
      var s1 := Log(Goto(s, t, Allocated(th.slot, th.data, th.layout, ptr)), Alloc(t, s.nextGen, ptr));
      s1.(heap := s.heap[ptr := Block(th.layout.size, junk)],
          gens := s.gens[ptr := s.nextGen],
          nextGen := s.nextGen + 1)
  }

  function DoCopy(s: State, t: Tid): State
    requires t in s.threads && s.threads[t].Allocated?
  {
    var th := s.threads[t];
    CopyInto(Goto(s, t, Copied(th.slot, th.data, th.layout, th.ptr)), th.ptr, th.data, th.layout.size)
  }

  function DoRegister(s: State, t: Tid): State
    requires t in s.threads && s.threads[t].Copied?
  {
    var th := s.threads[t];
    match RegisterAnswer(s.registry, s.poisoned, th.ptr)
    case Err(status) => Goto(s, t, Undoing(th.ptr, status))
    case Ok(_) =>
      var pixels := if th.layout.size <= |th.data| then th.data[..th.layout.size] else [];
      Log(Goto(s, t, Publishing(th.slot, th.layout, th.ptr, 0)), Reg(t, GenOf(s, th.ptr), th.ptr, pixels))
      .(registry := AfterRegister(s.registry, s.poisoned, th.ptr, th.layout.size))
  }

  function DoUndo(s: State, t: Tid): State
    requires t in s.threads && s.threads[t].Undoing?
  {
    var ptr := s.threads[t].ptr;
    Log(Log(FreeBlock(Goto(s, t, Idle), ptr), Undo(t, GenOf(s, ptr), ptr)), Return(t, Internal))
  }

  function DoPublish(s: State, t: Tid): State
    requires t in s.threads && s.threads[t].Publishing?
  {
    var th := s.threads[t];
    var s1 := s.(slots := s.slots[th.slot := WriteField(SlotAt(s, th.slot), th.written, th.ptr, th.layout)]);
    if th.written + 1 < PUBLISHED_FIELDS then Goto(s1, t, th.(written := th.written + 1))
    else Log(Goto(s1, t, Idle), Return(t, StatusOk))
  }

  // ---------- Steps of free ----------

  function DoRead(s: State, t: Tid): State
    requires t in s.threads && s.threads[t].Reading?
  {
    var slot := s.threads[t].slot;
    Goto(s, t, Clearing(slot, SlotAt(s, slot).data, 0))
  }

  function DoClear(s: State, t: Tid): State
    requires t in s.threads && s.threads[t].Clearing?
  {
    var th := s.threads[t];
    Goto(s.(slots := s.slots[th.slot := ClearField(SlotAt(s, th.slot), th.cleared)]), t, AfterClear(th))
  }

  function AfterClear(th: Thread): Thread
    requires th.Clearing?
  {
    if th.cleared + 1 < CLEARED_FIELDS then th.(cleared := th.cleared + 1)
    else if th.ptr == NULL then Idle
    else Unregistering(th.ptr)
  }

  function DoUnregister(s: State, t: Tid): State
    requires t in s.threads && s.threads[t].Unregistering?
  {
    var ptr := s.threads[t].ptr;
    match UnregisterAnswer(s.registry, s.poisoned, ptr)
    case Err(_) => Goto(s, t, Idle)
    case Ok(_) =>
      Log(Goto(s, t, Releasing(ptr)), Unreg(t, GenOf(s, ptr), ptr))
      .(registry := AfterUnregister(s.registry, s.poisoned, ptr))
  }

  function DoRelease(s: State, t: Tid): State
    requires t in s.threads && s.threads[t].Releasing?
  {
    var ptr := s.threads[t].ptr;
    Log(FreeBlock(Goto(s, t, Idle), ptr), Release(t, GenOf(s, ptr), ptr))
  }

  // ---------- All steps ----------

  function DoAdvance(s: State, t: Tid): State
    requires Enabled(s, Advance(t))
  {
    match s.threads[t]
    case Allocated(_, _, _, _) => DoCopy(s, t)
    case Copied(_, _, _, _) => DoRegister(s, t)
    case Undoing(_, _) => DoUndo(s, t)
    case Publishing(_, _, _, _) => DoPublish(s, t)
    case Reading(_) => DoRead(s, t)
    case Clearing(_, _, _) => DoClear(s, t)
    case Unregistering(_) => DoUnregister(s, t)
    case Releasing(_) => DoRelease(s, t)
  }

  function Do(s: State, l: Label): State
    requires Enabled(s, l)
  {
    match l
    case BeginDecode(t, slot, image) => DoBeginDecode(s, t, slot, image)
    case BeginFree(t, slot) => Goto(s, t, Reading(slot))
    case Malloc(t, offer, junk) => DoMalloc(s, t, offer, junk)
    case Advance(t) => DoAdvance(s, t)
    case HostCopy(source, target) => s.(slots := s.slots[target := s.slots[source]])
    case HostWrite(target, value) => s.(slots := s.slots[target := value])
    case Poison => s.(poisoned := true)
  }

  // ---------- Runs ----------

  predicate Runs(s: State, ls: seq<Label>)
    decreases |ls|
  {
    ls == [] || (Enabled(s, ls[0]) && Runs(Do(s, ls[0]), ls[1..]))
  }

  function Exec(s: State, ls: seq<Label>): State
    requires Runs(s, ls)
    decreases |ls|
  {
    if ls == [] then s else Exec(Do(s, ls[0]), ls[1..])
  }

  lemma {:induction false} RunsInSequence(s: State, a: seq<Label>, b: seq<Label>)
    requires Runs(s, a) && Runs(Exec(s, a), b)
    ensures Runs(s, a + b) && Exec(s, a + b) == Exec(Exec(s, a), b)
    decreases |a|
  {
    if a == [] {
      assert a + b == b;
    } else {
      RunsInSequence(Do(s, a[0]), a[1..], b);
      assert (a + b)[1..] == a[1..] + b;
    }
  }

  // ---------- What malloc's block holds ----------

  // Between malloc and the copy the block may hold any bytes at all.
  lemma FreshBlockIsArbitrary(s: State, t: Tid, slot: Slot, image: Image, l: Layout, offer: Addr, junk: seq<byte>)
    requires t in s.threads && s.threads[t].Idle? && slot in s.slots
    requires Plan(s.arch, image.width, image.height) == Some(l) && |junk| == l.size
    requires MallocAnswer(s.arch, s.heap, l.size, offer) != NULL
    ensures var ls := [BeginDecode(t, slot, image), Malloc(t, offer, junk)];
            && Runs(s, ls)
            && Exec(s, ls).threads == s.threads[t := Allocated(slot, image.data, l, offer)]
            && Exec(s, ls).heap == s.heap[offer := Block(l.size, junk)]
  {
    var begin, malloc := BeginDecode(t, slot, image), Malloc(t, offer, junk);
    var s1 := Do(s, begin);
    assert s1 == Goto(s, t, Sized(slot, image.data, l));
    var s2 := Do(s1, malloc);
    assert [begin, malloc][1..] == [malloc] && [malloc][1..] == [];
    assert Runs(s2, []) && Exec(s2, []) == s2;
    assert Runs(s1, [malloc]) && Exec(s1, [malloc]) == s2;
    assert s2.threads == s.threads[t := Allocated(slot, image.data, l, offer)];
  }

  // The source calls the fresh block zero-initialised; in this run it is not.
  lemma FreshBlockNotZeroed() returns (s0: State, ls: seq<Label>, a: Addr)
    ensures Init(s0) && Runs(s0, ls) && a in Exec(s0, ls).heap
    ensures 0 in Exec(s0, ls).threads && Exec(s0, ls).threads[0].Allocated? && Exec(s0, ls).threads[0].ptr == a
    ensures Exec(s0, ls).heap[a].bytes == [1, 2, 3, 4]
  {
    var image: Image := RawImage(1, 1, [5, 6, 7, 8]);
    s0 := State(Bits64, map[], map[], false, map[0 := PixelBuffer(NULL, 0, 0, 0, 0, NULL)],
                map[0 := Idle], map[], 0, [], false);
    a := 16;
    FreshBlockIsArbitrary(s0, 0, 0, image, Layout(1, 1, 4, 4), a, [1, 2, 3, 4]);
    ls := [BeginDecode(0, 0, image), Malloc(0, a, [1, 2, 3, 4])];
  }
}
