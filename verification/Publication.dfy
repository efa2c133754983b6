// A decode that answers Ok: what the host's struct and the registry hold from
// then on, under any interleaving (src/decode.rs:86-139).
module Publication {
  import opened Abi
  import opened BufferSize
  import opened Registry
  import opened Lifecycle
  import opened Ownership
  import opened History
  import opened Accounting
  import opened Atomicity
  import opened Decode

  // Nobody but thread t changes this struct.
  ghost predicate Undisturbed(s: State, ls: seq<Label>, t: Tid, slot: Slot)
    requires Runs(s, ls)
    decreases |ls|
  {
    ls == [] ||
    var s1 := Do(s, ls[0]);
    && (!ActsFor(ls[0], t) && slot in s.slots ==> slot in s1.slots && s1.slots[slot] == s.slots[slot])
    && Undisturbed(s1, ls[1..], t, slot)
  }

  // ---------- A registered buffer stays as it was registered ----------

  // Until some free unregisters that very buffer, its address is registered, its
  // entry gives its size, and it holds the registered pixels.
  lemma RegisteredUntilUnregistered(s0: State, ls: seq<Label>, i: nat)
    requires Init(s0) && Runs(s0, ls) && i < |Exec(s0, ls).trace| && Exec(s0, ls).trace[i].Reg?
    requires var trace := Exec(s0, ls).trace;
             forall j | 0 <= j < |trace| :: trace[j].Unreg? ==> trace[j].gen != trace[i].gen
    ensures var s := Exec(s0, ls);
            var e := s.trace[i];
            && e.ptr in s.registry && s.registry[e.ptr] == BufferEntry(e.ptr, |e.pixels|, false)
            && e.ptr in s.heap && s.heap[e.ptr] == Block(|e.pixels|, e.pixels)
  {
    RunKeepsTales(s0, ls);
    var s := Exec(s0, ls);
    var e, g := s.trace[i], s.trace[i].gen;
    var st := Story(s.trace, g);
    EveryBufferLivesOneLife(s0, ls, g);
    var p := StoryHolds(s.trace, g, i);
    if |st| >= 3 {
      var j := StoryComesFrom(s.trace, g, 2);
    } else {
      assert st[1] == e;
      var b := PublishedIsRegistered(s, g);
      assert st[1] == Reg(st[0].t, g, b, s.heap[b].bytes);
    }
  }

  lemma PublishedIsRegistered(s: State, g: Gen) returns (b: Addr)
    requires Inv(s) && Tales(s) && |Story(s.trace, g)| == 2 && Story(s.trace, g)[1].Reg?
    ensures b in s.registry && b in s.heap && b in s.gens && s.gens[b] == g
    ensures Published(Story(s.trace, g), g, b, s.heap[b].bytes)
  {
    assert !Retired(s, g);
    b :| b in s.gens && s.gens[b] == g;
    if b !in s.registry {
      assert HeldBySomeone(s, b);
      var u :| u in s.threads && Holds(s.threads[u]) && s.threads[u].ptr == b;
      assert false;
    } else {
      assert RegisteredStory(s, b);
    }
  }

  // ---------- Only a published buffer is answered with Ok ----------

  ghost predicate LogsNoOk(s: State, s1: State, t: Tid) {
    s.trace <= s1.trace && forall i | |s.trace| <= i < |s1.trace| :: s1.trace[i] != Return(t, StatusOk)
  }

  lemma MallocLogsNoOk(s: State, t: Tid, offer: Addr, junk: seq<byte>)
    requires Enabled(s, Malloc(t, offer, junk))
    ensures LogsNoOk(s, DoMalloc(s, t, offer, junk), t)
  {
    var s1, th := DoMalloc(s, t, offer, junk), s.threads[t];
    if MallocAnswer(s.arch, s.heap, th.layout.size, offer) == NULL {
      assert s1.trace == s.trace + [Return(t, OutOfMemory)];
    } else {
      assert s1.trace == s.trace + [Alloc(t, s.nextGen, offer)];
    }
  }

  lemma RegisterLogsNoOk(s: State, t: Tid)
    requires t in s.threads && s.threads[t].Copied?
    ensures LogsNoOk(s, DoRegister(s, t), t)
  {
  }

  lemma UndoLogsNoOk(s: State, t: Tid)
    requires t in s.threads && s.threads[t].Undoing?
    ensures LogsNoOk(s, DoUndo(s, t), t)
  {
  }

  lemma CopyLogsNoOk(s: State, t: Tid)
    requires t in s.threads && s.threads[t].Allocated?
    ensures LogsNoOk(s, DoCopy(s, t), t)
  {
  }

  lemma NotOkYet(s: State, l: Label, t: Tid)
    requires Enabled(s, l) && t in s.threads && !Begins(l, t)
    requires s.threads[t].Idle? || Deciding(s.threads[t])
    ensures LogsNoOk(s, Do(s, l), t)
  {
    StepLogsOwn(s, l);
    if ActsFor(l, t) {
      match l
      case Malloc(_, offer, junk) => MallocLogsNoOk(s, t, offer, junk);
      case Advance(_) =>
        match s.threads[t]
        case Allocated(_, _, _, _) => CopyLogsNoOk(s, t);
        case Copied(_, _, _, _) => RegisterLogsNoOk(s, t);
        case Undoing(_, _) => UndoLogsNoOk(s, t);
    }
  }

  lemma OkComesLater(s: State, s1: State, s': State, t: Tid)
    requires LogsNoOk(s, s1, t) && s1.trace <= s'.trace && Since(s, s', Return(t, StatusOk))
    ensures Since(s1, s', Return(t, StatusOk))
  {
    var i :| |s.trace| <= i < |s'.trace| && s'.trace[i] == Return(t, StatusOk);
    if i < |s1.trace| {
      assert false;
    }
  }

  // A call that has returned, or is undoing its block, will not answer Ok.
  lemma {:induction false} NeverOk(s: State, ls: seq<Label>, t: Tid)
    requires Runs(s, ls) && t in s.threads && (s.threads[t].Idle? || s.threads[t].Undoing?)
    requires forall l | l in ls :: !Begins(l, t)
    ensures !Since(s, Exec(s, ls), Return(t, StatusOk))
    decreases |ls|
  {
    if ls != [] {
      var l, s1 := ls[0], Do(s, ls[0]);
      assert !Begins(l, t);
      CallsFinish(s, l, t);
      if l == Advance(t) {
        NextThreadIsNext(s, t);
      }
      NotOkYet(s, l, t);
      RunExtendsTrace(s1, ls[1..]);
      NeverOk(s1, ls[1..], t);
      if Since(s, Exec(s, ls), Return(t, StatusOk)) {
        OkComesLater(s, s1, Exec(s, ls), t);
      }
    }
  }

  // ---------- The six stores ----------

  // The first k fields are published.
  predicate Written(pb: PixelBuffer, k: nat, ptr: Addr, l: Layout) {
    && (k > 0 ==> pb.data == ptr) && (k > 1 ==> pb.width == l.width)
    && (k > 2 ==> pb.height == l.height) && (k > 3 ==> pb.stride == l.stride)
    && (k > 4 ==> pb.pixelFormat == 1) && (k > 5 ==> pb.releaseContext == NULL)
  }

  lemma OneMoreField(pb: PixelBuffer, k: nat, ptr: Addr, l: Layout)
    requires Written(pb, k, ptr, l) && k < PUBLISHED_FIELDS
    ensures Written(WriteField(pb, k, ptr, l), k + 1, ptr, l)
  {
  }

  ghost predicate PublishedSoFar(s: State, t: Tid) {
    && t in s.threads && s.threads[t].Publishing?
    && var th := s.threads[t];
    && th.slot in s.slots && th.written < PUBLISHED_FIELDS
    && Written(s.slots[th.slot], th.written, th.ptr, th.layout)
  }

  lemma StoreNext(s: State, t: Tid)
    requires PublishedSoFar(s, t)
    ensures var th, s1 := s.threads[t], DoPublish(s, t);
            && th.slot in s1.slots
            && Written(s1.slots[th.slot], th.written + 1, th.ptr, th.layout)
            && s1.threads == s.threads[t := if th.written + 1 < PUBLISHED_FIELDS
                                            then th.(written := th.written + 1) else Idle]
  {
    var th := s.threads[t];
    OneMoreField(s.slots[th.slot], th.written, th.ptr, th.layout);
  }

  lemma {:induction false} IdleLeavesSlot(s: State, ls: seq<Label>, t: Tid, slot: Slot)
    requires Runs(s, ls) && t in s.threads && s.threads[t].Idle? && slot in s.slots
    requires forall l | l in ls :: !Begins(l, t)
    requires Undisturbed(s, ls, t, slot)
    ensures slot in Exec(s, ls).slots && Exec(s, ls).slots[slot] == s.slots[slot]
    decreases |ls|
  {
    if ls != [] {
      assert !Begins(ls[0], t);
      CallsFinish(s, ls[0], t);
      IdleLeavesSlot(Do(s, ls[0]), ls[1..], t, slot);
    }
  }

  lemma StoreOrWait(s: State, l: Label, t: Tid)
    requires PublishedSoFar(s, t) && Enabled(s, l) && !Begins(l, t)
    requires var slot := s.threads[t].slot;
             !ActsFor(l, t) ==> slot in Do(s, l).slots && Do(s, l).slots[slot] == s.slots[slot]
    ensures var th, s1 := s.threads[t], Do(s, l);
            && t in s1.threads && th.slot in s1.slots
            && if s1.threads[t].Idle? then s1.slots[th.slot] == Filled(th.layout, th.ptr)
               else PublishedSoFar(s1, t) && s1.threads[t] == th.(written := s1.threads[t].written)
  {
    CallsFinish(s, l, t);
    if l == Advance(t) {
      StoreNext(s, t);
      assert Do(s, l) == DoPublish(s, t);
    }
  }

  lemma {:induction false} PublishesAll(s: State, ls: seq<Label>, t: Tid)
    requires PublishedSoFar(s, t) && Runs(s, ls)
    requires forall l | l in ls :: !Begins(l, t)
    requires Undisturbed(s, ls, t, s.threads[t].slot)
    requires t in Exec(s, ls).threads && Exec(s, ls).threads[t].Idle?
    ensures var th, s' := s.threads[t], Exec(s, ls);
            th.slot in s'.slots && s'.slots[th.slot] == Filled(th.layout, th.ptr)
    decreases |ls|
  {
    var s1 := Do(s, ls[0]);
    assert !Begins(ls[0], t);
    StoreOrWait(s, ls[0], t);
    if s1.threads[t].Idle? {
      IdleLeavesSlot(s1, ls[1..], t, s.threads[t].slot);
    } else {
      PublishesAll(s1, ls[1..], t);
    }
  }

  // ---------- From the size to the answer ----------

  // A decode of this data and layout that has not registered its block yet.
  predicate Carries(th: Thread, slot: Slot, data: seq<byte>, l: Layout) {
    (th.Sized? || th.Allocated? || th.Copied?) && th.slot == slot && th.data == data && th.layout == l
  }

  // The decode's buffer is registered with these pixels, and the struct says so.
  ghost predicate IsPublished(s: State, s': State, t: Tid, slot: Slot, data: seq<byte>, l: Layout, ptr: Addr, g: Gen) {
    && Fits(l, |data|) && l.size <= |data|
    && Since(s, s', Reg(t, g, ptr, data[..l.size]))
    && slot in s'.slots && s'.slots[slot] == Filled(l, ptr)
  }

  lemma CarriesOn(s: State, l: Label, t: Tid)
    requires Enabled(s, l) && t in s.threads && !Begins(l, t)
    requires s.threads[t].Sized? || s.threads[t].Allocated?
    ensures var th, s1 := s.threads[t], Do(s, l);
            && t in s1.threads
            && (s1.threads[t].Idle? || Carries(s1.threads[t], th.slot, th.data, th.layout))
  {
    CallsFinish(s, l, t);
    if l == Advance(t) {
      NextThreadIsNext(s, t);
    } else if l.Malloc? && l.t == t {
      var th, s1 := s.threads[t], DoMalloc(s, t, l.offer, l.junk);
      if MallocAnswer(s.arch, s.heap, th.layout.size, l.offer) == NULL {
        assert s1.threads[t] == Idle;
      } else {
        assert s1.threads[t] == Allocated(th.slot, th.data, th.layout, l.offer);
      }
    }
  }

  lemma RegistersNow(s: State, t: Tid)
    requires t in s.threads && s.threads[t].Copied? && ThreadOk(s, s.threads[t])
    ensures var th, s1 := s.threads[t], DoRegister(s, t);
            && s1.slots == s.slots && t in s1.threads
            && (s1.threads[t].Undoing? ||
                (s1.threads[t] == Publishing(th.slot, th.layout, th.ptr, 0)
                 && s1.trace == s.trace + [Reg(t, GenOf(s, th.ptr), th.ptr, th.data[..th.layout.size])]))
  {
  }

  lemma RegisteredThenPublished(s: State, ls: seq<Label>, t: Tid) returns (ptr: Addr, g: Gen)
    requires Inv(s) && Runs(s, ls) && ls != [] && ls[0] == Advance(t)
    requires t in s.threads && s.threads[t].Copied? && s.threads[t].slot in s.slots
    requires forall l | l in ls :: !Begins(l, t)
    requires Undisturbed(s, ls, t, s.threads[t].slot)
    requires t in Exec(s, ls).threads && Exec(s, ls).threads[t].Idle?
    requires Since(s, Exec(s, ls), Return(t, StatusOk))
    ensures var th := s.threads[t];
            IsPublished(s, Exec(s, ls), t, th.slot, th.data, th.layout, ptr, g)
  {
    var th, s1, s' := s.threads[t], DoRegister(s, t), Exec(s, ls);
    assert Do(s, ls[0]) == s1;
    assert ThreadOk(s, th);
    RegistersNow(s, t);
    RunExtendsTrace(s1, ls[1..]);
    ptr, g := th.ptr, GenOf(s, th.ptr);
    if s1.threads[t].Undoing? {
      NeverOk(s1, ls[1..], t);
      RegisterLogsNoOk(s, t);
      OkComesLater(s, s1, s', t);
    } else {
      PublishesAll(s1, ls[1..], t);
      assert s'.trace[|s.trace|] == s1.trace[|s.trace|];
    }
  }

  lemma {:induction false} OkMeansPublished(s: State, ls: seq<Label>, t: Tid) returns (ptr: Addr, g: Gen)
    requires Inv(s) && Runs(s, ls) && t in s.threads
    requires s.threads[t].Sized? || s.threads[t].Allocated? || s.threads[t].Copied?
    requires s.threads[t].slot in s.slots
    requires forall l | l in ls :: !Begins(l, t)
    requires Undisturbed(s, ls, t, s.threads[t].slot)
    requires t in Exec(s, ls).threads && Exec(s, ls).threads[t].Idle?
    requires Since(s, Exec(s, ls), Return(t, StatusOk))
    ensures var th := s.threads[t];
            IsPublished(s, Exec(s, ls), t, th.slot, th.data, th.layout, ptr, g)
    decreases |ls|
  {
    var th, l, s1, s' := s.threads[t], ls[0], Do(s, ls[0]), Exec(s, ls);
    assert !Begins(l, t);
    if th.Copied? && l == Advance(t) {
      ptr, g := RegisteredThenPublished(s, ls, t);
    } else {
      StepToCarry(s, l, t);
      StepKeepsInv(s, l);
      NotOkYet(s, l, t);
      RunExtendsTrace(s1, ls[1..]);
      OkComesLater(s, s1, s', t);
      if s1.threads[t].Idle? {
        NeverOk(s1, ls[1..], t);
      }
      ptr, g := OkMeansPublished(s1, ls[1..], t);
      SinceEarlier(s, s1, s', Reg(t, g, ptr, th.data[..th.layout.size]));
    }
  }

  lemma StepToCarry(s: State, l: Label, t: Tid)
    requires Enabled(s, l) && t in s.threads && !Begins(l, t)
    requires s.threads[t].Sized? || s.threads[t].Allocated? || (s.threads[t].Copied? && l != Advance(t))
    requires s.threads[t].slot in s.slots
    ensures var th, s1 := s.threads[t], Do(s, l);
            && t in s1.threads && s1.slots.Keys >= s.slots.Keys
            && (s1.threads[t].Idle? || Carries(s1.threads[t], th.slot, th.data, th.layout))
  {
    CallsFinish(s, l, t);
    if !s.threads[t].Copied? {
      CarriesOn(s, l, t);
    }
    SlotsStay(s, l);
  }

  lemma SlotsStay(s: State, l: Label)
    requires Enabled(s, l)
    ensures Do(s, l).slots.Keys >= s.slots.Keys
  {
    match l
    case Malloc(t, offer, junk) => assert Do(s, l) == DoMalloc(s, t, offer, junk);
    case BeginDecode(t, slot, image) => assert Do(s, l) == DoBeginDecode(s, t, slot, image);
    case Advance(t) => AdvanceKeepsSlots(s, t);
    case _ =>
  }

  lemma RegistryCallsKeepSlots(s: State, t: Tid)
    requires t in s.threads
    ensures s.threads[t].Copied? ==> DoRegister(s, t).slots == s.slots
    ensures s.threads[t].Unregistering? ==> DoUnregister(s, t).slots == s.slots
  {
  }

  lemma FreesKeepSlots(s: State, t: Tid)
    requires t in s.threads
    ensures s.threads[t].Undoing? ==> DoUndo(s, t).slots == s.slots
    ensures s.threads[t].Releasing? ==> DoRelease(s, t).slots == s.slots
  {
  }

  lemma StoresKeepSlots(s: State, t: Tid)
    requires t in s.threads
    ensures s.threads[t].Publishing? ==> DoPublish(s, t).slots.Keys >= s.slots.Keys
    ensures s.threads[t].Clearing? ==> DoClear(s, t).slots.Keys >= s.slots.Keys
  {
  }

  lemma AdvanceKeepsSlots(s: State, t: Tid)
    requires Enabled(s, Advance(t))
    ensures DoAdvance(s, t).slots.Keys >= s.slots.Keys
  {
    match s.threads[t]
    case Copied(_, _, _, _) => RegistryCallsKeepSlots(s, t);
    case Unregistering(_) => RegistryCallsKeepSlots(s, t);
    case Undoing(_, _) => FreesKeepSlots(s, t);
    case Releasing(_) => FreesKeepSlots(s, t);
    case Publishing(_, _, _, _) => StoresKeepSlots(s, t);
    case Clearing(_, _, _) => StoresKeepSlots(s, t);
    case _ =>
  }

  // ---------- Main result ----------

  // A decode that answered Ok, in any run with any other calls interleaved that
  // did not store to its struct meanwhile, published one registered buffer: the
  // struct holds that buffer's address and the image's layout. Whatever happens
  // afterwards, until that very buffer is unregistered its entry's size is the
  // published height times stride and the block holds the decoded bytes.
  lemma AcceptedDecodePublishes(s0: State, before: seq<Label>, call: Label, during: seq<Label>, after: seq<Label>)
    returns (l: Layout, ptr: Addr, g: Gen)
    requires Init(s0) && Runs(s0, before) && Runs(Exec(s0, before), [call] + during)
    requires Runs(Exec(Exec(s0, before), [call] + during), after)
    requires call.BeginDecode? && forall l | l in during :: !Begins(l, call.t)
    requires Undisturbed(Exec(s0, before), [call] + during, call.t, call.slot)
    requires var s, s' := Exec(s0, before), Exec(Exec(s0, before), [call] + during);
             call.t in s'.threads && s'.threads[call.t].Idle? && Since(s, s', Return(call.t, StatusOk))
    ensures Plan(Exec(s0, before).arch, call.image.width, call.image.height) == Some(l)
    ensures var s, s' := Exec(s0, before), Exec(Exec(s0, before), [call] + during);
            IsPublished(s, s', call.t, call.slot, call.image.data, l, ptr, g)
    ensures var pixels := call.image.data[..l.size];
            var s'' := Exec(Exec(Exec(s0, before), [call] + during), after);
            (forall j | 0 <= j < |s''.trace| :: s''.trace[j].Unreg? ==> s''.trace[j].gen != g) ==>
              && ptr in s''.registry && s''.registry[ptr] == BufferEntry(ptr, l.height * l.stride, false)
              && ptr in s''.heap && s''.heap[ptr] == Block(l.height * l.stride, pixels)
  {
    var t, s, ls := call.t, Exec(s0, before), [call] + during;
    var s1, s' := Do(s, call), Exec(s, ls);
    assert ls[0] == call && ls[1..] == during;
    RunKeepsTales(s0, before);
    StepKeepsInv(s, call);
    RunExtendsTrace(s1, during);
    l := BegunWell(s, call, during);
    ptr, g := OkMeansPublished(s1, during, t);
    var e := Reg(t, g, ptr, call.image.data[..l.size]);
    SinceEarlier(s, s1, s', e);
    var i :| |s.trace| <= i < |s'.trace| && s'.trace[i] == e;
    var s'' := Exec(s', after);
    RunExtendsTrace(s', after);
    RunsInSequence(s0, before, ls);
    RunsInSequence(s0, before + ls, after);
    if forall j | 0 <= j < |s''.trace| :: s''.trace[j].Unreg? ==> s''.trace[j].gen != g {
      assert s''.trace[i] == e;
      RegisteredUntilUnregistered(s0, before + ls + after, i);
    }
  }

  // The first step of a decode that will answer Ok accepts the plan.
  lemma BegunWell(s: State, call: Label, during: seq<Label>) returns (l: Layout)
    requires Enabled(s, call) && call.BeginDecode? && Runs(Do(s, call), during)
    requires forall l | l in during :: !Begins(l, call.t)
    requires Since(s, Exec(Do(s, call), during), Return(call.t, StatusOk))
    ensures Plan(s.arch, call.image.width, call.image.height) == Some(l)
    ensures Do(s, call).threads == s.threads[call.t := Sized(call.slot, call.image.data, l)]
    ensures Do(s, call).slots == s.slots
    ensures Since(Do(s, call), Exec(Do(s, call), during), Return(call.t, StatusOk))
  {
    var t, s1 := call.t, Do(s, call);
    var plan := Plan(s.arch, call.image.width, call.image.height);
    assert s1 == Planned(s, t, call.slot, call.image.data, plan);
    RunExtendsTrace(s1, during);
    if plan.None? {
      assert s1.trace == s.trace + [Return(t, OutOfMemory)];
      NeverOk(s1, during, t);
    }
    OkComesLater(s, s1, Exec(s1, during), t);
    l := plan.value;
  }
}
