// One thread running a whole call without interruption does to the shared
// state what the sequential entry points do (src/decode.rs:86-184).
module Refinement {
  import opened Abi
  import opened BufferSize
  import opened Decode
  import opened FileIo
  import opened Lifecycle
  import opened Ownership
  import opened Registry

  // s leads to s' by enabled steps of thread t alone.
  ghost predicate Leads(s: State, s': State, t: Tid) {
    exists ls :: OwnRun(s, s', t, ls)
  }

  ghost predicate OwnRun(s: State, s': State, t: Tid, ls: seq<Label>) {
    && (forall l | l in ls :: ActsFor(l, t))
    && Runs(s, ls) && Exec(s, ls) == s'
  }

  lemma OneStep(s: State, l: Label, t: Tid)
    requires Enabled(s, l) && ActsFor(l, t)
    ensures Leads(s, Do(s, l), t)
  {
    assert [l][1..] == [];
    assert Runs(Do(s, l), []) && Exec(Do(s, l), []) == Do(s, l);
    assert OwnRun(s, Do(s, l), t, [l]);
  }

  lemma Chain(s: State, s1: State, s2: State, t: Tid)
    requires Leads(s, s1, t) && Leads(s1, s2, t)
    ensures Leads(s, s2, t)
  {
    var a :| OwnRun(s, s1, t, a);
    var b :| OwnRun(s1, s2, t, b);
    RunsInSequence(s, a, b);
    assert OwnRun(s, s2, t, a + b);
  }

  // ---------- What the two levels share ----------

  function MemoryOf(s: State): Memory {
    Memory(s.heap, s.registry, s.poisoned)
  }

  // The outcome of a call as the host sees it: memory and struct changed as
  // told, every other struct and thread untouched, the caller idle again.
  ghost predicate Outcome(s: State, s': State, m: Memory, slot: Slot, pb: PixelBuffer) {
    && MemoryOf(s') == m && s'.threads == s.threads
    && s'.slots == s.slots[slot := pb]
  }

  // The last thing that happened is thread t answering with this status.
  ghost predicate Answers(s': State, t: Tid, status: IGStatus) {
    s'.trace != [] && s'.trace[|s'.trace| - 1] == Return(t, status)
  }

  // ---------- Publishing and clearing, field by field ----------

  // The struct after the first k stores of a publication.
  function PartlyFilled(pb: PixelBuffer, k: nat, ptr: Addr, l: Layout): PixelBuffer {
    if k == 0 then pb else WriteField(PartlyFilled(pb, k - 1, ptr, l), k - 1, ptr, l)
  }

  function PartlyCleared(pb: PixelBuffer, k: nat): PixelBuffer {
    if k == 0 then pb else ClearField(PartlyCleared(pb, k - 1), k - 1)
  }

  lemma FullyFilled(pb: PixelBuffer, ptr: Addr, l: Layout)
    ensures PartlyFilled(pb, PUBLISHED_FIELDS, ptr, l) == Filled(l, ptr)
  {
    var p2 := pb.(data := ptr, width := l.width);
    assert PartlyFilled(pb, 1, ptr, l) == pb.(data := ptr);
    assert PartlyFilled(pb, 2, ptr, l) == p2;
    assert PartlyFilled(pb, 3, ptr, l) == p2.(height := l.height);
    assert PartlyFilled(pb, 4, ptr, l) == p2.(height := l.height, stride := l.stride);
    assert PartlyFilled(pb, 5, ptr, l) == p2.(height := l.height, stride := l.stride, pixelFormat := 1);
  }

  lemma FullyCleared(pb: PixelBuffer)
    ensures PartlyCleared(pb, CLEARED_FIELDS) == Cleared(pb)
  {
    assert PartlyCleared(pb, 1) == pb.(data := NULL);
    assert PartlyCleared(pb, 2) == pb.(data := NULL, width := 0);
    assert PartlyCleared(pb, 3) == pb.(data := NULL, width := 0, height := 0);
  }

  // The state with thread t parked at th and one struct changed.
  ghost predicate Parked(s: State, s': State, t: Tid, th: Thread, slot: Slot, pb: PixelBuffer) {
    && MemoryOf(s') == MemoryOf(s) && s'.arch == s.arch
    && s'.threads == s.threads[t := th] && s'.slots == s.slots[slot := pb]
  }

  lemma PublishOnce(s: State, t: Tid)
    requires t in s.threads && s.threads[t].Publishing? && s.threads[t].slot in s.slots
    ensures var th, s' := s.threads[t], DoPublish(s, t);
            && Leads(s, s', t)
            && Parked(s, s', t,
                      if th.written + 1 < PUBLISHED_FIELDS then th.(written := th.written + 1) else Idle,
                      th.slot, WriteField(s.slots[th.slot], th.written, th.ptr, th.layout))
            && (th.written + 1 >= PUBLISHED_FIELDS ==> Answers(s', t, StatusOk))
  {
    assert Do(s, Advance(t)) == DoPublish(s, t);
    OneStep(s, Advance(t), t);
  }

  lemma {:induction false} PublishToEnd(s: State, t: Tid, pb: PixelBuffer) returns (s': State)
    requires t in s.threads && s.threads[t].Publishing? && s.threads[t].slot in s.slots
    requires s.threads[t].written < PUBLISHED_FIELDS
    requires var th := s.threads[t];
             s.slots[th.slot] == PartlyFilled(pb, th.written, th.ptr, th.layout)
    ensures Leads(s, s', t) && Answers(s', t, StatusOk)
    ensures var th := s.threads[t];
            Parked(s, s', t, Idle, th.slot, Filled(th.layout, th.ptr))
    decreases PUBLISHED_FIELDS - s.threads[t].written
  {
    var th, s1 := s.threads[t], DoPublish(s, t);
    PublishOnce(s, t);
    assert s1.slots[th.slot] == PartlyFilled(pb, th.written + 1, th.ptr, th.layout);
    if th.written + 1 < PUBLISHED_FIELDS {
      s' := PublishToEnd(s1, t, pb);
      Chain(s, s1, s', t);
    } else {
      s' := s1;
      FullyFilled(pb, th.ptr, th.layout);
    }
  }

  lemma ClearOnce(s: State, t: Tid)
    requires t in s.threads && s.threads[t].Clearing? && s.threads[t].slot in s.slots
    ensures var th, s' := s.threads[t], DoClear(s, t);
            && Leads(s, s', t)
            && Parked(s, s', t, AfterClear(th), th.slot, ClearField(s.slots[th.slot], th.cleared))
  {
    assert Do(s, Advance(t)) == DoClear(s, t);
    OneStep(s, Advance(t), t);
  }

  lemma {:induction false} ClearToEnd(s: State, t: Tid, pb: PixelBuffer) returns (s': State)
    requires t in s.threads && s.threads[t].Clearing? && s.threads[t].slot in s.slots
    requires s.threads[t].cleared < CLEARED_FIELDS
    requires s.slots[s.threads[t].slot] == PartlyCleared(pb, s.threads[t].cleared)
    ensures Leads(s, s', t)
    ensures var th := s.threads[t];
            Parked(s, s', t, if th.ptr == NULL then Idle else Unregistering(th.ptr), th.slot, Cleared(pb))
    decreases CLEARED_FIELDS - s.threads[t].cleared
  {
    var th, s1 := s.threads[t], DoClear(s, t);
    ClearOnce(s, t);
    assert s1.slots[th.slot] == PartlyCleared(pb, th.cleared + 1);
    if th.cleared + 1 < CLEARED_FIELDS {
      s' := ClearToEnd(s1, t, pb);
      Chain(s, s1, s', t);
    } else {
      s' := s1;
      FullyCleared(pb);
    }
  }

  // ---------- Free ----------

  lemma UnregisterRefused(s: State, t: Tid)
    requires t in s.threads && s.threads[t].Unregistering?
    requires UnregisterAnswer(s.registry, s.poisoned, s.threads[t].ptr).Err?
    ensures Leads(s, DoUnregister(s, t), t)
    ensures DoUnregister(s, t).threads == s.threads[t := Idle]
    ensures MemoryOf(DoUnregister(s, t)) == MemoryOf(s) && DoUnregister(s, t).slots == s.slots
  {
    assert Do(s, Advance(t)) == DoUnregister(s, t);
    OneStep(s, Advance(t), t);
  }

  lemma UnregisterAndRelease(s: State, t: Tid) returns (s': State)
    requires t in s.threads && s.threads[t].Unregistering? && s.threads[t].ptr in s.heap
    requires UnregisterAnswer(s.registry, s.poisoned, s.threads[t].ptr).Ok?
    ensures Leads(s, s', t)
    ensures s'.threads == s.threads[t := Idle] && s'.slots == s.slots
    ensures var ptr := s.threads[t].ptr;
            MemoryOf(s') == Memory(s.heap - {ptr}, s.registry - {ptr}, s.poisoned)
  {
    var s1 := DoUnregister(s, t);
    assert Do(s, Advance(t)) == s1;
    OneStep(s, Advance(t), t);
    assert s1.threads[t] == Releasing(s.threads[t].ptr);
    s' := DoRelease(s1, t);
    assert Do(s1, Advance(t)) == s';
    OneStep(s1, Advance(t), t);
    Chain(s, s1, s', t);
  }

  // From any reachable state, an idle thread can run a whole free that ends
  // exactly as FreePixelBuffer's contract says.
  lemma FreeRefines(s: State, t: Tid, slot: Slot) returns (s': State)
    requires Inv(s) && t in s.threads && s.threads[t].Idle? && slot in s.slots
    ensures Leads(s, s', t)
    ensures Outcome(s, s', AfterFree(MemoryOf(s), s.slots[slot].data), slot, Cleared(s.slots[slot]))
  {
    var pb := s.slots[slot];
    var s1 := Do(s, BeginFree(t, slot));
    OneStep(s, BeginFree(t, slot), t);
    var s2 := DoRead(s1, t);
    assert Do(s1, Advance(t)) == s2;
    OneStep(s1, Advance(t), t);
    Chain(s, s1, s2, t);
    assert s2.threads == s.threads[t := Clearing(slot, pb.data, 0)];
    var s3 := ClearToEnd(s2, t, pb);
    Chain(s, s2, s3, t);
    if pb.data == NULL {
      s' := s3;
      assert s'.threads == s.threads;
    } else {
      s' := FinishFree(s, s3, t, slot);
      Chain(s, s3, s', t);
    }
  }

  lemma FinishFree(s: State, s3: State, t: Tid, slot: Slot) returns (s': State)
    requires Inv(s) && t in s.threads && s.threads[t].Idle? && slot in s.slots && s.slots[slot].data != NULL
    requires MemoryOf(s3) == MemoryOf(s) && s3.slots == s.slots[slot := Cleared(s.slots[slot])]
    requires s3.threads == s.threads[t := Unregistering(s.slots[slot].data)]
    ensures Leads(s3, s', t)
    ensures Outcome(s, s', AfterFree(MemoryOf(s), s.slots[slot].data), slot, Cleared(s.slots[slot]))
  {
    var ptr := s.slots[slot].data;
    if UnregisterAnswer(s.registry, s.poisoned, ptr).Err? {
      UnregisterRefused(s3, t);
      s' := DoUnregister(s3, t);
    } else {
      s' := UnregisterAndRelease(s3, t);
    }
    assert s'.threads == s.threads;
  }

  // ---------- Decode ----------

  // The steps from the size computation to a filled, unregistered block.
  lemma AllocateAndCopy(s: State, t: Tid, slot: Slot, data: seq<byte>, l: Layout, offer: Addr) returns (s': State)
    requires Inv(s) && t in s.threads && s.threads[t] == Sized(slot, data, l)
    requires MallocAnswer(s.arch, s.heap, l.size, offer) != NULL
    ensures Leads(s, s', t)
    ensures s'.threads == s.threads[t := Copied(slot, data, l, offer)] && s'.slots == s.slots && s'.arch == s.arch
    ensures l.size <= |data| && MemoryOf(s') == MemoryOf(s).(heap := s.heap[offer := Block(l.size, data[..l.size])])
  {
    assert ThreadOk(s, s.threads[t]);
    var junk := seq(l.size, i => 0);
    var s1 := DoMalloc(s, t, offer, junk);
    assert Do(s, Malloc(t, offer, junk)) == s1;
    OneStep(s, Malloc(t, offer, junk), t);
    assert s1.threads == s.threads[t := Allocated(slot, data, l, offer)];
    s' := DoCopy(s1, t);
    assert Do(s1, Advance(t)) == s';
    OneStep(s1, Advance(t), t);
    Chain(s, s1, s', t);
    assert data[..l.size] + junk[l.size..] == data[..l.size];
  }

  lemma RegisterAndPublish(s: State, t: Tid) returns (s': State)
    requires t in s.threads && s.threads[t].Copied? && s.threads[t].slot in s.slots
    requires RegisterAnswer(s.registry, s.poisoned, s.threads[t].ptr).Ok?
    ensures Leads(s, s', t) && Answers(s', t, StatusOk)
    ensures var th := s.threads[t];
            && s'.threads == s.threads[t := Idle]
            && s'.slots == s.slots[th.slot := Filled(th.layout, th.ptr)]
            && MemoryOf(s') == MemoryOf(s).(entries := s.registry[th.ptr := BufferEntry(th.ptr, th.layout.size, false)])
  {
    var th, s1 := s.threads[t], DoRegister(s, t);
    assert Do(s, Advance(t)) == s1;
    OneStep(s, Advance(t), t);
    assert s1.threads == s.threads[t := Publishing(th.slot, th.layout, th.ptr, 0)];
    s' := PublishToEnd(s1, t, s.slots[th.slot]);
    Chain(s, s1, s', t);
  }

  lemma RegisterAndUndo(s: State, t: Tid) returns (s': State)
    requires t in s.threads && s.threads[t].Copied? && s.threads[t].ptr in s.heap
    requires RegisterAnswer(s.registry, s.poisoned, s.threads[t].ptr).Err?
    ensures Leads(s, s', t) && Answers(s', t, Internal)
    ensures s'.threads == s.threads[t := Idle] && s'.slots == s.slots
    ensures MemoryOf(s') == MemoryOf(s).(heap := s.heap - {s.threads[t].ptr})
  {
    var th, s1 := s.threads[t], DoRegister(s, t);
    assert Do(s, Advance(t)) == s1;
    OneStep(s, Advance(t), t);
    assert s1.threads == s.threads[t := Undoing(th.ptr, RegisterAnswer(s.registry, s.poisoned, th.ptr).error)];
    s' := DoUndo(s1, t);
    assert Do(s1, Advance(t)) == s';
    OneStep(s1, Advance(t), t);
    Chain(s, s1, s', t);
  }

  // How a decode's outcome reads, for a placement that succeeded or did not.
  ghost predicate DecodeOutcome(s: State, s': State, slot: Slot, image: Image,
                                placement: Result<(Layout, Addr), IGStatus>)
    requires slot in s.slots
  {
    match placement
    case Ok((layout, ptr)) =>
      && layout.size <= |image.data|
      && Outcome(s, s', Placed(MemoryOf(s), image, layout, ptr), slot, Filled(layout, ptr))
    case Err(_) => Outcome(s, s', MemoryOf(s), slot, s.slots[slot])
  }

  // From any reachable state, an idle thread can run a whole decode that ends
  // exactly as DecodeStaticRaster's contract says, the status included, for every image and every
  // answer malloc may give.
  lemma DecodeRefines(s: State, t: Tid, slot: Slot, image: Image, offer: Addr) returns (s': State)
    requires Inv(s) && t in s.threads && s.threads[t].Idle? && slot in s.slots
    ensures Leads(s, s', t)
    ensures Answers(s', t, StatusOf(Placement(s.arch, MemoryOf(s), image, offer)))
    ensures DecodeOutcome(s, s', slot, image, Placement(s.arch, MemoryOf(s), image, offer))
  {
    var plan := Plan(s.arch, image.width, image.height);
    if plan.None? {
      s' := PlanRefused(s, t, slot, image);
    } else {
      s' := PlanAccepted(s, t, slot, image, plan.value, offer);
    }
  }

  lemma PlanRefused(s: State, t: Tid, slot: Slot, image: Image) returns (s': State)
    requires t in s.threads && s.threads[t].Idle? && slot in s.slots
    requires Plan(s.arch, image.width, image.height).None?
    ensures Leads(s, s', t) && Answers(s', t, OutOfMemory)
    ensures Outcome(s, s', MemoryOf(s), slot, s.slots[slot])
  {
    s' := Do(s, BeginDecode(t, slot, image));
    OneStep(s, BeginDecode(t, slot, image), t);
    assert s'.threads == s.threads && s.slots[slot := s.slots[slot]] == s.slots;
  }

  lemma PlanAccepted(s: State, t: Tid, slot: Slot, image: Image, l: Layout, offer: Addr) returns (s': State)
    requires Inv(s) && t in s.threads && s.threads[t].Idle? && slot in s.slots
    requires Plan(s.arch, image.width, image.height) == Some(l)
    ensures Leads(s, s', t)
    ensures Answers(s', t, StatusOf(Placement(s.arch, MemoryOf(s), image, offer)))
    ensures DecodeOutcome(s, s', slot, image, Placement(s.arch, MemoryOf(s), image, offer))
  {
    var s1 := Do(s, BeginDecode(t, slot, image));
    OneStep(s, BeginDecode(t, slot, image), t);
    StepKeepsInv(s, BeginDecode(t, slot, image));
    assert s1 == Goto(s, t, Sized(slot, image.data, l));
    s' := FinishDecode(s, s1, t, slot, image.data, l, offer);
    Chain(s, s1, s', t);
  }

  lemma FinishDecode(s: State, s1: State, t: Tid, slot: Slot, data: seq<byte>, l: Layout, offer: Addr)
    returns (s': State)
    requires Inv(s) && Inv(s1) && t in s.threads && s.threads[t].Idle? && slot in s.slots
    requires s1.threads == s.threads[t := Sized(slot, data, l)]
    requires MemoryOf(s1) == MemoryOf(s) && s1.slots == s.slots && s1.arch == s.arch
    ensures Leads(s1, s', t)
    ensures Answers(s', t, if MallocAnswer(s.arch, s.heap, l.size, offer) == NULL then OutOfMemory
                           else if s.poisoned then Internal else StatusOk)
    ensures if MallocAnswer(s.arch, s.heap, l.size, offer) != NULL && !s.poisoned then
              && l.size <= |data|
              && Outcome(s, s', Memory(s.heap[offer := Block(l.size, data[..l.size])],
                                       s.registry[offer := BufferEntry(offer, l.size, false)], s.poisoned),
                         slot, Filled(l, offer))
            else Outcome(s, s', MemoryOf(s), slot, s.slots[slot])
  {
    assert s.slots[slot := s.slots[slot]] == s.slots;
    if MallocAnswer(s.arch, s.heap, l.size, offer) == NULL {
      s' := MallocRefused(s1, t, offer);
      assert s'.threads == s.threads;
    } else {
      assert offer !in s.registry;
      var s2 := AllocateAndCopy(s1, t, slot, data, l, offer);
      if s.poisoned {
        s' := RegisterAndUndo(s2, t);
        assert s2.heap - {offer} == s.heap;
      } else {
        s' := RegisterAndPublish(s2, t);
      }
      Chain(s1, s2, s', t);
      assert s'.threads == s.threads;
    }
  }

  lemma MallocRefused(s: State, t: Tid, offer: Addr) returns (s': State)
    requires t in s.threads && s.threads[t].Sized?
    requires MallocAnswer(s.arch, s.heap, s.threads[t].layout.size, offer) == NULL
    ensures Leads(s, s', t) && Answers(s', t, OutOfMemory)
    ensures s'.threads == s.threads[t := Idle] && s'.slots == s.slots && MemoryOf(s') == MemoryOf(s)
  {
    var junk := seq(s.threads[t].layout.size, i => 0);
    s' := DoMalloc(s, t, offer, junk);
    assert Do(s, Malloc(t, offer, junk)) == s';
    OneStep(s, Malloc(t, offer, junk), t);
  }
}
