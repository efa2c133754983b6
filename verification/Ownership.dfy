// Who owns each live block: the registry, a decode that has not registered it
// yet, or a free that has already unregistered it.
module Ownership {
  import opened Abi
  import opened BufferSize
  import opened Registry
  import opened Lifecycle

  predicate DecodeHolds(th: Thread) {
    th.Allocated? || th.Copied? || th.Undoing?
  }

  predicate FreeHolds(th: Thread) {
    th.Releasing?
  }

  predicate Holds(th: Thread) {
    DecodeHolds(th) || FreeHolds(th)
  }

  // ---------- The invariant, one concern at a time ----------

  // A held block is live, unregistered, and held by one thread only.
  ghost predicate HeldOk(s: State) {
    && (forall t | t in s.threads && Holds(s.threads[t]) ::
          s.threads[t].ptr in s.heap && s.threads[t].ptr !in s.registry && s.threads[t].ptr != NULL)
    && (forall t, u | t in s.threads && u in s.threads && t != u
                      && Holds(s.threads[t]) && Holds(s.threads[u]) ::
          s.threads[t].ptr != s.threads[u].ptr)
  }

  // A registered block is live, and its entry tells the truth about it.
  ghost predicate RegisteredOk(s: State) {
    forall a | a in s.registry ::
      a in s.heap && a != NULL && s.registry[a] == BufferEntry(a, s.heap[a].size, false)
  }

  ghost predicate HeldBySomeone(s: State, a: Addr) {
    exists t :: t in s.threads && Holds(s.threads[t]) && s.threads[t].ptr == a
  }

  // No live block is forgotten.
  ghost predicate NoLeak(s: State) {
    forall a | a in s.heap && a !in s.registry :: HeldBySomeone(s, a)
  }

  ghost predicate BlocksOk(s: State) {
    forall a | a in s.heap :: |s.heap[a].bytes| == s.heap[a].size
  }

  // What each program point knows.
  ghost predicate ThreadOk(s: State, th: Thread) {
    match th
    case Sized(_, data, layout) => layout.size <= s.arch.SignedMax() ==> Fits(layout, |data|)
    case Allocated(_, data, layout, ptr) =>
      Fits(layout, |data|) && ptr in s.heap && s.heap[ptr].size == layout.size
    case Copied(_, data, layout, ptr) =>
      Fits(layout, |data|) && ptr in s.heap && s.heap[ptr] == Block(layout.size, data[..layout.size])
    case Undoing(_, cause) => s.poisoned && cause == Internal
    case Publishing(_, layout, _, written) =>
      written < PUBLISHED_FIELDS && Fits(layout, layout.size)
    case Clearing(_, _, cleared) => cleared < CLEARED_FIELDS
    case _ => true
  }

  ghost predicate ThreadsOk(s: State) {
    forall t | t in s.threads :: ThreadOk(s, s.threads[t])
  }

  ghost predicate Inv(s: State) {
    HeldOk(s) && RegisteredOk(s) && NoLeak(s) && BlocksOk(s) && ThreadsOk(s) && !s.fault
  }

  // ---------- Every effect keeps it ----------

  // The fields the invariant talks about, apart from the threads, are the same.
  ghost predicate SameMemory(s: State, s': State) {
    && s'.arch == s.arch && s'.heap == s.heap && s'.registry == s.registry
    && s'.fault == s.fault && (s.poisoned ==> s'.poisoned)
  }

  // A held block stays held when its thread does not let go of it.
  lemma StillHeld(s: State, s': State, a: Addr, t: Tid)
    requires HeldBySomeone(s, a) && t in s.threads && t in s'.threads
    requires s'.threads == s.threads[t := s'.threads[t]]
    requires Holds(s.threads[t]) && s.threads[t].ptr == a ==> Holds(s'.threads[t]) && s'.threads[t].ptr == a
    ensures HeldBySomeone(s', a)
  {
    var u :| u in s.threads && Holds(s.threads[u]) && s.threads[u].ptr == a;
    assert u in s'.threads && Holds(s'.threads[u]) && s'.threads[u].ptr == a;
  }

  // A step that touches neither heap nor registry and keeps hold of whatever
  // its thread was holding.
  lemma LocalEffect(s: State, s': State, t: Tid, th: Thread)
    requires Inv(s) && t in s.threads && SameMemory(s, s')
    requires s'.threads == s.threads[t := th] && ThreadOk(s', th)
    requires Holds(th) <==> Holds(s.threads[t])
    requires Holds(th) ==> th.ptr == s.threads[t].ptr
    ensures Inv(s')
  {
    forall a | a in s'.heap && a !in s'.registry ensures HeldBySomeone(s', a) {
      StillHeld(s, s', a, t);
    }
  }

  lemma HostEffect(s: State, s': State)
    requires Inv(s) && SameMemory(s, s') && s'.threads == s.threads
    ensures Inv(s')
  {
    forall a | a in s'.heap && a !in s'.registry ensures HeldBySomeone(s', a) {
      assert HeldBySomeone(s, a);
    }
  }

  // A new block appears in the hands of the thread that allocated it.
  lemma AcquireEffect(s: State, s': State, t: Tid, th: Thread, block: Block)
    requires Inv(s) && t in s.threads && !Holds(s.threads[t]) && DecodeHolds(th)
    requires th.ptr !in s.heap && th.ptr != NULL && |block.bytes| == block.size
    requires s'.arch == s.arch && s'.registry == s.registry && s'.poisoned == s.poisoned && !s'.fault
    requires s'.heap == s.heap[th.ptr := block] && s'.threads == s.threads[t := th]
    requires ThreadOk(s', th)
    ensures Inv(s')
  {
    forall a | a in s'.heap && a !in s'.registry ensures HeldBySomeone(s', a) {
      if a in s.heap {
        StillHeld(s, s', a, t);
      } else {
        assert s'.threads[t].ptr == a;
      }
    }
    forall u | u in s'.threads && u != t ensures ThreadOk(s', s'.threads[u]) {
      assert ThreadOk(s, s.threads[u]);
    }
  }

  // A thread overwrites the contents of the block it holds.
  lemma FillEffect(s: State, s': State, t: Tid, th: Thread, bytes: seq<byte>)
    requires Inv(s) && t in s.threads && DecodeHolds(s.threads[t]) && DecodeHolds(th)
    requires th.ptr == s.threads[t].ptr && |bytes| == s.heap[th.ptr].size
    requires s'.arch == s.arch && s'.registry == s.registry && s'.poisoned == s.poisoned && !s'.fault
    requires s'.heap == s.heap[th.ptr := Block(s.heap[th.ptr].size, bytes)]
    requires s'.threads == s.threads[t := th] && ThreadOk(s', th)
    ensures Inv(s')
  {
    forall a | a in s'.heap && a !in s'.registry ensures HeldBySomeone(s', a) {
      StillHeld(s, s', a, t);
    }
    forall u | u in s'.threads && u != t ensures ThreadOk(s', s'.threads[u]) {
      assert ThreadOk(s, s.threads[u]);
    }
  }

  // A held block passes to the registry.
  lemma RegisterEffect(s: State, s': State, t: Tid, th: Thread, ptr: Addr)
    requires Inv(s) && t in s.threads && DecodeHolds(s.threads[t]) && s.threads[t].ptr == ptr && !Holds(th)
    requires s'.arch == s.arch && s'.heap == s.heap && s'.poisoned == s.poisoned && !s'.fault
    requires s'.registry == s.registry[ptr := BufferEntry(ptr, s.heap[ptr].size, false)]
    requires s'.threads == s.threads[t := th] && ThreadOk(s', th)
    ensures Inv(s')
  {
    forall a | a in s'.heap && a !in s'.registry ensures HeldBySomeone(s', a) {
      StillHeld(s, s', a, t);
    }
    forall u | u in s'.threads && u != t ensures ThreadOk(s', s'.threads[u]) {
      assert ThreadOk(s, s.threads[u]);
    }
  }

  // A registered block passes to the thread that unregistered it.
  lemma UnregisterEffect(s: State, s': State, t: Tid, th: Thread)
    requires Inv(s) && t in s.threads && !Holds(s.threads[t]) && FreeHolds(th) && th.ptr in s.registry
    requires s'.arch == s.arch && s'.heap == s.heap && s'.poisoned == s.poisoned && !s'.fault
    requires s'.registry == s.registry - {th.ptr} && s'.threads == s.threads[t := th]
    ensures Inv(s')
  {
    forall a | a in s'.heap && a !in s'.registry ensures HeldBySomeone(s', a) {
      if a == th.ptr {
        assert s'.threads[t].ptr == a;
      } else {
        StillHeld(s, s', a, t);
      }
    }
    forall u | u in s'.threads && u != t ensures ThreadOk(s', s'.threads[u]) {
      assert ThreadOk(s, s.threads[u]);
    }
  }

  // A held block disappears together with its holder's claim.
  lemma ReleaseEffect(s: State, s': State, t: Tid, ptr: Addr)
    requires Inv(s) && t in s.threads && Holds(s.threads[t]) && s.threads[t].ptr == ptr
    requires s'.arch == s.arch && s'.registry == s.registry && s'.poisoned == s.poisoned && !s'.fault
    requires s'.heap == s.heap - {ptr} && s'.threads == s.threads[t := Idle]
    ensures Inv(s')
  {
    forall a | a in s'.heap && a !in s'.registry ensures HeldBySomeone(s', a) {
      StillHeld(s, s', a, t);
    }
    forall u | u in s'.threads && u != t ensures ThreadOk(s', s'.threads[u]) {
      assert ThreadOk(s, s.threads[u]);
    }
  }

  // ---------- Every step is one of these effects ----------

  lemma MallocKeepsInv(s: State, t: Tid, offer: Addr, junk: seq<byte>)
    requires Inv(s) && Enabled(s, Malloc(t, offer, junk))
    ensures Inv(DoMalloc(s, t, offer, junk))
  {
    var s', th := DoMalloc(s, t, offer, junk), s.threads[t];
    assert ThreadOk(s, th);
    var ptr := MallocAnswer(s.arch, s.heap, th.layout.size, offer);
    if ptr == NULL {
      LocalEffect(s, s', t, Idle);
    } else {
      AcquireEffect(s, s', t, Allocated(th.slot, th.data, th.layout, ptr), Block(th.layout.size, junk));
    }
  }

  lemma CopyKeepsInv(s: State, t: Tid)
    requires Inv(s) && t in s.threads && s.threads[t].Allocated?
    ensures Inv(DoCopy(s, t))
  {
    var s', th := DoCopy(s, t), s.threads[t];
    assert ThreadOk(s, th);
    var bytes := th.data[..th.layout.size];
    assert bytes + s.heap[th.ptr].bytes[th.layout.size..] == bytes;
    FillEffect(s, s', t, Copied(th.slot, th.data, th.layout, th.ptr), bytes);
  }

  lemma RegisterKeepsInv(s: State, t: Tid)
    requires Inv(s) && t in s.threads && s.threads[t].Copied?
    ensures Inv(DoRegister(s, t))
  {
    var s', th := DoRegister(s, t), s.threads[t];
    assert ThreadOk(s, th);
    if s.poisoned {
      LocalEffect(s, s', t, Undoing(th.ptr, Internal));
    } else {
      RegisterEffect(s, s', t, Publishing(th.slot, th.layout, th.ptr, 0), th.ptr);
    }
  }

  lemma UnregisterKeepsInv(s: State, t: Tid)
    requires Inv(s) && t in s.threads && s.threads[t].Unregistering?
    ensures Inv(DoUnregister(s, t))
  {
    var s', ptr := DoUnregister(s, t), s.threads[t].ptr;
    if UnregisterAnswer(s.registry, s.poisoned, ptr).Err? {
      LocalEffect(s, s', t, Idle);
    } else {
      UnregisterEffect(s, s', t, Releasing(ptr));
    }
  }

  lemma UndoKeepsInv(s: State, t: Tid)
    requires Inv(s) && t in s.threads && s.threads[t].Undoing?
    ensures Inv(DoUndo(s, t))
  {
    ReleaseEffect(s, DoUndo(s, t), t, s.threads[t].ptr);
  }

  lemma ReleaseKeepsInv(s: State, t: Tid)
    requires Inv(s) && t in s.threads && s.threads[t].Releasing?
    ensures Inv(DoRelease(s, t))
  {
    ReleaseEffect(s, DoRelease(s, t), t, s.threads[t].ptr);
  }

  lemma PublishKeepsInv(s: State, t: Tid)
    requires Inv(s) && t in s.threads && s.threads[t].Publishing?
    ensures Inv(DoPublish(s, t))
  {
    var th := s.threads[t];
    assert ThreadOk(s, th);
    LocalEffect(s, DoPublish(s, t), t,
                if th.written + 1 < PUBLISHED_FIELDS then th.(written := th.written + 1) else Idle);
  }

  lemma ReadKeepsInv(s: State, t: Tid)
    requires Inv(s) && t in s.threads && s.threads[t].Reading?
    ensures Inv(DoRead(s, t))
  {
    var slot := s.threads[t].slot;
    LocalEffect(s, DoRead(s, t), t, Clearing(slot, SlotAt(s, slot).data, 0));
  }

  lemma ClearKeepsInv(s: State, t: Tid)
    requires Inv(s) && t in s.threads && s.threads[t].Clearing?
    ensures Inv(DoClear(s, t))
  {
    var th := s.threads[t];
    assert ThreadOk(s, th);
    LocalEffect(s, DoClear(s, t), t, AfterClear(th));
  }

  lemma AdvanceKeepsInv(s: State, t: Tid)
    requires Inv(s) && Enabled(s, Advance(t))
    ensures Inv(DoAdvance(s, t))
  {
    match s.threads[t]
    case Allocated(_, _, _, _) => CopyKeepsInv(s, t);
    case Copied(_, _, _, _) => RegisterKeepsInv(s, t);
    case Unregistering(_) => UnregisterKeepsInv(s, t);
    case Undoing(_, _) => UndoKeepsInv(s, t);
    case Releasing(_) => ReleaseKeepsInv(s, t);
    case Publishing(_, _, _, _) => PublishKeepsInv(s, t);
    case Reading(_) => ReadKeepsInv(s, t);
    case Clearing(_, _, _) => ClearKeepsInv(s, t);
  }

  lemma BeginDecodeKeepsInv(s: State, t: Tid, slot: Slot, image: Image)
    requires Inv(s) && t in s.threads && s.threads[t].Idle?
    ensures Inv(DoBeginDecode(s, t, slot, image))
  {
    var s' := DoBeginDecode(s, t, slot, image);
    match Plan(s.arch, image.width, image.height)
    case None => LocalEffect(s, s', t, Idle);
    case Some(layout) =>
      if layout.size <= s.arch.SignedMax() {
        CopyFits(s.arch, image.width, image.height);
      }
      LocalEffect(s, s', t, Sized(slot, image.data, layout));
  }

  lemma HostStepKeepsInv(s: State, l: Label)
    requires Inv(s) && Enabled(s, l) && (l.HostCopy? || l.HostWrite? || l.Poison?)
    ensures Inv(Do(s, l))
  {
    HostEffect(s, Do(s, l));
  }

  lemma StepKeepsInv(s: State, l: Label)
    requires Inv(s) && Enabled(s, l)
    ensures Inv(Do(s, l))
  {
    match l
    case Malloc(t, offer, junk) => MallocKeepsInv(s, t, offer, junk);
    case Advance(t) => AdvanceKeepsInv(s, t);
    case BeginDecode(t, slot, image) => BeginDecodeKeepsInv(s, t, slot, image);
    case BeginFree(t, slot) => LocalEffect(s, Do(s, l), t, Reading(slot));
    case _ => HostStepKeepsInv(s, l);
  }

  lemma {:induction false} RunKeepsInv(s: State, ls: seq<Label>)
    requires Inv(s) && Runs(s, ls)
    ensures Inv(Exec(s, ls))
    decreases |ls|
  {
    if ls != [] {
      StepKeepsInv(s, ls[0]);
      RunKeepsInv(Do(s, ls[0]), ls[1..]);
    }
  }

  // ---------- Main results ----------

  ghost function DecodeBlocks(s: State): set<Addr> {
    set t | t in s.threads && DecodeHolds(s.threads[t]) :: s.threads[t].ptr
  }

  ghost function FreeBlocks(s: State): set<Addr> {
    set t | t in s.threads && FreeHolds(s.threads[t]) :: s.threads[t].ptr
  }

  // In every reachable state the live blocks are the disjoint union of the
  // registered ones, those held by decodes and those held by frees, and no two
  // threads hold the same block.
  lemma LiveBlocksPartition(s0: State, ls: seq<Label>)
    requires Init(s0) && Runs(s0, ls)
    ensures var s := Exec(s0, ls);
            && s.heap.Keys == s.registry.Keys + DecodeBlocks(s) + FreeBlocks(s)
            && s.registry.Keys !! DecodeBlocks(s) !! FreeBlocks(s)
            && (forall t, u | t in s.threads && u in s.threads && Holds(s.threads[t]) && Holds(s.threads[u]) ::
                  s.threads[t].ptr == s.threads[u].ptr ==> t == u)
  {
    RunKeepsInv(s0, ls);
    var s := Exec(s0, ls);
    forall a | a in s.heap.Keys ensures a in s.registry.Keys + DecodeBlocks(s) + FreeBlocks(s) {
      if a !in s.registry {
        assert HeldBySomeone(s, a);
        var u :| u in s.threads && Holds(s.threads[u]) && s.threads[u].ptr == a;
        assert DecodeHolds(s.threads[u]) || FreeHolds(s.threads[u]);
      }
    }
    forall a | a in s.registry.Keys + DecodeBlocks(s) + FreeBlocks(s) ensures a in s.heap.Keys {
    }
  }

  // No run ever frees a block that is not live or copies outside a live block.
  lemma NoInvalidAccess(s0: State, ls: seq<Label>)
    requires Init(s0) && Runs(s0, ls)
    ensures !Exec(s0, ls).fault
  {
    RunKeepsInv(s0, ls);
  }

  // When a decode reaches `register`, its address is never a key already, so
  // the answer depends on the mutex alone; and only a poisoned mutex ever puts
  // a decode on its undo branch.
  lemma RegisterFailsOnlyWhenPoisoned(s0: State, ls: seq<Label>, t: Tid)
    requires Init(s0) && Runs(s0, ls) && t in Exec(s0, ls).threads
    ensures var s := Exec(s0, ls);
            && (s.threads[t].Copied? ==>
                  RegisterAnswer(s.registry, s.poisoned, s.threads[t].ptr)
                  == if s.poisoned then Err(Internal) else Ok(()))
            && (s.threads[t].Undoing? ==> s.poisoned && s.threads[t].cause == Internal)
  {
    RunKeepsInv(s0, ls);
    var s := Exec(s0, ls);
    assert ThreadOk(s, s.threads[t]);
  }

  // The size a decode registers is the block's size and the exact product of the
  // height and stride it goes on to publish.
  lemma RegistrationIsExact(s0: State, ls: seq<Label>, t: Tid)
    requires Init(s0) && Runs(s0, ls) && t in Exec(s0, ls).threads
    requires Exec(s0, ls).threads[t].Copied? && !Exec(s0, ls).poisoned
    ensures var s := Exec(s0, ls);
            var th, s' := s.threads[t], Do(s, Advance(t));
            && th.ptr in s'.registry && th.ptr in s'.heap
            && s'.registry[th.ptr].size == s'.heap[th.ptr].size == th.layout.height * th.layout.stride
            && s'.threads[t] == Publishing(th.slot, th.layout, th.ptr, 0)
  {
    RunKeepsInv(s0, ls);
    RegisterFailsOnlyWhenPoisoned(s0, ls, t);
    var s := Exec(s0, ls);
    assert ThreadOk(s, s.threads[t]);
    assert Do(s, Advance(t)) == DoRegister(s, t);
  }

  // Every entry describes its block truthfully in every reachable state.
  lemma EntriesAreTruthful(s0: State, ls: seq<Label>, a: Addr)
    requires Init(s0) && Runs(s0, ls) && a in Exec(s0, ls).registry
    ensures var s := Exec(s0, ls);
            a in s.heap && s.registry[a] == BufferEntry(a, s.heap[a].size, false)
            && |s.heap[a].bytes| == s.heap[a].size
  {
    RunKeepsInv(s0, ls);
  }

  // With no call in flight, nothing is live but what the registry lists.
  lemma QuiescentMeansRegistered(s0: State, ls: seq<Label>)
    requires Init(s0) && Runs(s0, ls)
    requires forall t | t in Exec(s0, ls).threads :: Exec(s0, ls).threads[t].Idle?
    ensures Exec(s0, ls).heap.Keys == Exec(s0, ls).registry.Keys
  {
    LiveBlocksPartition(s0, ls);
    var s := Exec(s0, ls);
    assert DecodeBlocks(s) == {} && FreeBlocks(s) == {};
  }
}
