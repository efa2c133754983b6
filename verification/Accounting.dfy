// Counts over whole runs, the bound on each call's own steps, and where the
// addresses in the host's structs come from.
module Accounting {
  import opened Abi
  import opened BufferSize
  import opened Registry
  import opened Lifecycle
  import opened Ownership

  // ---------- Counting events ----------

  datatype Kind = Allocations | Registrations | Unregistrations | Releases | Undos | OkReturns | FailedReturns

  function KindOf(e: Event): Kind {
    match e
    case Alloc(_, _, _) => Allocations
    case Reg(_, _, _, _) => Registrations
    case Unreg(_, _, _) => Unregistrations
    case Release(_, _, _) => Releases
    case Undo(_, _, _) => Undos
    case Return(_, status) => if status.StatusOk? then OkReturns else FailedReturns
  }

  function Count(trace: seq<Event>, k: Kind): nat {
    if trace == [] then 0
    else Count(trace[..|trace| - 1], k) + if KindOf(trace[|trace| - 1]) == k then 1 else 0
  }

  lemma CountAppend(trace: seq<Event>, e: Event, k: Kind)
    ensures Count(trace + [e], k) == Count(trace, k) + if KindOf(e) == k then 1 else 0
  {
    assert (trace + [e])[..|trace|] == trace;
  }

  ghost function Publishers(s: State): set<Tid> {
    set t | t in s.threads && s.threads[t].Publishing?
  }

  // The three books: registry, heap, and successful decodes.
  ghost predicate Books(s: State) {
    && |s.registry.Keys| + Count(s.trace, Unregistrations) == Count(s.trace, Registrations)
    && |s.heap.Keys| + Count(s.trace, Releases) + Count(s.trace, Undos) == Count(s.trace, Allocations)
    && |Publishers(s)| + Count(s.trace, OkReturns) == Count(s.trace, Registrations)
  }

  // One logged event (or none) changes each book by what it stands for.
  lemma Entry(s: State, s': State, e: Event)
    requires Books(s) && s'.trace == s.trace + [e]
    requires |s'.registry.Keys| == |s.registry.Keys| + (if e.Reg? then 1 else if e.Unreg? then -1 else 0)
    requires |s'.heap.Keys| == |s.heap.Keys| + (if e.Alloc? then 1 else if e.Release? || e.Undo? then -1 else 0)
    requires |Publishers(s')| == |Publishers(s)|
                                 + (if e.Reg? then 1 else if e == Return(e.t, StatusOk) then -1 else 0)
    ensures Books(s')
  {
    forall k ensures Count(s'.trace, k) == Count(s.trace, k) + if KindOf(e) == k then 1 else 0 {
      CountAppend(s.trace, e, k);
    }
  }

  lemma SamePublishers(s: State, s': State, t: Tid, th: Thread)
    requires t in s.threads && s'.threads == s.threads[t := th]
    requires th.Publishing? <==> s.threads[t].Publishing?
    ensures Publishers(s') == Publishers(s)
  {
  }

  lemma OneMorePublisher(s: State, s': State, t: Tid, th: Thread)
    requires t in s.threads && s'.threads == s.threads[t := th]
    requires th.Publishing? && !s.threads[t].Publishing?
    ensures |Publishers(s')| == |Publishers(s)| + 1
  {
    assert Publishers(s') == Publishers(s) + {t};
  }

  lemma OnePublisherLess(s: State, s': State, t: Tid, th: Thread)
    requires t in s.threads && s'.threads == s.threads[t := th]
    requires !th.Publishing? && s.threads[t].Publishing?
    ensures |Publishers(s')| == |Publishers(s)| - 1
  {
    assert Publishers(s') == Publishers(s) - {t};
  }

  lemma MallocNullBooks(s: State, t: Tid, offer: Addr, junk: seq<byte>)
    requires Books(s) && Enabled(s, Malloc(t, offer, junk))
    requires MallocAnswer(s.arch, s.heap, s.threads[t].layout.size, offer) == NULL
    ensures Books(DoMalloc(s, t, offer, junk))
  {
    var s' := DoMalloc(s, t, offer, junk);
    SamePublishers(s, s', t, Idle);
    Entry(s, s', Return(t, OutOfMemory));
  }

  lemma OneMoreBlock(s: State, s': State, t: Tid, th: Thread, e: Event, block: Block)
    requires Books(s) && t in s.threads && !s.threads[t].Publishing? && !th.Publishing? && e.Alloc?
    requires s'.threads == s.threads[t := th] && s'.trace == s.trace + [e] && s'.registry == s.registry
    requires e.ptr !in s.heap && s'.heap == s.heap[e.ptr := block]
    ensures Books(s')
  {
    SamePublishers(s, s', t, th);
    assert s'.heap.Keys == s.heap.Keys + {e.ptr};
    Entry(s, s', e);
  }

  lemma MallocGrantedBooks(s: State, t: Tid, offer: Addr, junk: seq<byte>)
    requires Books(s) && Enabled(s, Malloc(t, offer, junk))
    requires MallocAnswer(s.arch, s.heap, s.threads[t].layout.size, offer) != NULL
    ensures Books(DoMalloc(s, t, offer, junk))
  {
    var s', th := DoMalloc(s, t, offer, junk), s.threads[t];
    OneMoreBlock(s, s', t, Allocated(th.slot, th.data, th.layout, offer), Alloc(t, s.nextGen, offer),
                 Block(th.layout.size, junk));
  }

  lemma CopyBooks(s: State, t: Tid)
    requires Books(s) && t in s.threads && s.threads[t].Allocated? && ThreadOk(s, s.threads[t]) && BlocksOk(s)
    ensures Books(DoCopy(s, t))
  {
    var s', th := DoCopy(s, t), s.threads[t];
    SamePublishers(s, s', t, Copied(th.slot, th.data, th.layout, th.ptr));
    assert s'.heap.Keys == s.heap.Keys;
  }

  lemma RegisterErrBooks(s: State, t: Tid)
    requires Books(s) && t in s.threads && s.threads[t].Copied?
    requires RegisterAnswer(s.registry, s.poisoned, s.threads[t].ptr).Err?
    ensures Books(DoRegister(s, t))
  {
    var th := s.threads[t];
    var answer := RegisterAnswer(s.registry, s.poisoned, th.ptr);
    SamePublishers(s, DoRegister(s, t), t, Undoing(th.ptr, answer.error));
  }

  lemma OneMoreEntry(s: State, s': State, t: Tid, th: Thread, e: Event, entry: BufferEntry)
    requires Books(s) && t in s.threads && !s.threads[t].Publishing? && th.Publishing? && e.Reg?
    requires s'.threads == s.threads[t := th] && s'.trace == s.trace + [e] && s'.heap == s.heap
    requires e.ptr !in s.registry && s'.registry == s.registry[e.ptr := entry]
    ensures Books(s')
  {
    OneMorePublisher(s, s', t, th);
    assert s'.registry.Keys == s.registry.Keys + {e.ptr};
    Entry(s, s', e);
  }

  lemma RegisterOkBooks(s: State, t: Tid)
    requires Books(s) && t in s.threads && s.threads[t].Copied?
    requires RegisterAnswer(s.registry, s.poisoned, s.threads[t].ptr).Ok?
    ensures Books(DoRegister(s, t))
  {
    var s', th := DoRegister(s, t), s.threads[t];
    var pixels := if th.layout.size <= |th.data| then th.data[..th.layout.size] else [];
    OneMoreEntry(s, s', t, Publishing(th.slot, th.layout, th.ptr, 0), Reg(t, GenOf(s, th.ptr), th.ptr, pixels),
                 BufferEntry(th.ptr, th.layout.size, false));
  }

  lemma UnregisterBooks(s: State, t: Tid)
    requires Books(s) && t in s.threads && s.threads[t].Unregistering?
    ensures Books(DoUnregister(s, t))
  {
    var s', ptr := DoUnregister(s, t), s.threads[t].ptr;
    if UnregisterAnswer(s.registry, s.poisoned, ptr).Err? {
      SamePublishers(s, s', t, Idle);
    } else {
      SamePublishers(s, s', t, Releasing(ptr));
      assert s'.registry.Keys == s.registry.Keys - {ptr};
      Entry(s, s', Unreg(t, GenOf(s, ptr), ptr));
    }
  }

  lemma UndoBooks(s: State, t: Tid)
    requires Books(s) && t in s.threads && s.threads[t].Undoing? && s.threads[t].ptr in s.heap
    ensures Books(DoUndo(s, t))
  {
    var s', ptr := DoUndo(s, t), s.threads[t].ptr;
    var e := Undo(t, GenOf(s, ptr), ptr);
    var freed := Log(FreeBlock(Goto(s, t, Idle), ptr), e);
    assert freed.heap.Keys == s.heap.Keys - {ptr};
    SamePublishers(s, freed, t, Idle);
    Entry(s, freed, e);
    SamePublishers(s, s', t, Idle);
    Entry(freed, s', Return(t, Internal));
  }

  lemma ReleaseBooks(s: State, t: Tid)
    requires Books(s) && t in s.threads && s.threads[t].Releasing? && s.threads[t].ptr in s.heap
    ensures Books(DoRelease(s, t))
  {
    var s', ptr := DoRelease(s, t), s.threads[t].ptr;
    assert s'.heap.Keys == s.heap.Keys - {ptr};
    SamePublishers(s, s', t, Idle);
    Entry(s, s', Release(t, GenOf(s, ptr), ptr));
  }

  lemma PublishMoreBooks(s: State, t: Tid)
    requires Books(s) && t in s.threads && s.threads[t].Publishing?
    requires s.threads[t].written + 1 < PUBLISHED_FIELDS
    ensures Books(DoPublish(s, t))
  {
    var th := s.threads[t];
    SamePublishers(s, DoPublish(s, t), t, th.(written := th.written + 1));
  }

  lemma PublishLastBooks(s: State, t: Tid)
    requires Books(s) && t in s.threads && s.threads[t].Publishing?
    requires s.threads[t].written + 1 >= PUBLISHED_FIELDS
    ensures Books(DoPublish(s, t))
  {
    var s' := DoPublish(s, t);
    OnePublisherLess(s, s', t, Idle);
    Entry(s, s', Return(t, StatusOk));
  }

  lemma PublishBooks(s: State, t: Tid)
    requires Books(s) && t in s.threads && s.threads[t].Publishing?
    ensures Books(DoPublish(s, t))
  {
    if s.threads[t].written + 1 < PUBLISHED_FIELDS {
      PublishMoreBooks(s, t);
    } else {
      PublishLastBooks(s, t);
    }
  }

  lemma PlannedBooks(s: State, t: Tid, slot: Slot, data: seq<byte>, plan: Option<Layout>)
    requires Books(s) && t in s.threads && s.threads[t].Idle?
    ensures Books(Planned(s, t, slot, data, plan))
  {
    var s' := Planned(s, t, slot, data, plan);
    if plan.None? {
      SamePublishers(s, s', t, Idle);
      Entry(s, s', Return(t, OutOfMemory));
    } else {
      SamePublishers(s, s', t, Sized(slot, data, plan.value));
    }
  }

  lemma RegisterBooks(s: State, t: Tid)
    requires Books(s) && t in s.threads && s.threads[t].Copied?
    ensures Books(DoRegister(s, t))
  {
    if RegisterAnswer(s.registry, s.poisoned, s.threads[t].ptr).Err? {
      RegisterErrBooks(s, t);
    } else {
      RegisterOkBooks(s, t);
    }
  }

  lemma ReadBooks(s: State, t: Tid)
    requires Books(s) && t in s.threads && s.threads[t].Reading?
    ensures Books(DoRead(s, t))
  {
    var slot := s.threads[t].slot;
    SamePublishers(s, DoRead(s, t), t, Clearing(slot, SlotAt(s, slot).data, 0));
  }

  lemma ClearBooks(s: State, t: Tid)
    requires Books(s) && t in s.threads && s.threads[t].Clearing?
    ensures Books(DoClear(s, t))
  {
    SamePublishers(s, DoClear(s, t), t, AfterClear(s.threads[t]));
  }

  lemma AdvanceBooks(s: State, t: Tid)
    requires Inv(s) && Books(s) && Enabled(s, Advance(t))
    ensures Books(DoAdvance(s, t))
  {
    assert ThreadOk(s, s.threads[t]);
    match s.threads[t]
    case Allocated(_, _, _, _) => CopyBooks(s, t);
    case Copied(_, _, _, _) => RegisterBooks(s, t);
    case Undoing(_, _) => UndoBooks(s, t);
    case Publishing(_, _, _, _) => PublishBooks(s, t);
    case Reading(_) => ReadBooks(s, t);
    case Clearing(_, _, _) => ClearBooks(s, t);
    case Unregistering(_) => UnregisterBooks(s, t);
    case Releasing(_) => ReleaseBooks(s, t);
  }

  lemma StepKeepsBooks(s: State, l: Label)
    requires Inv(s) && Books(s) && Enabled(s, l)
    ensures Books(Do(s, l))
  {
    match l
    case BeginDecode(t, slot, image) =>
      PlannedBooks(s, t, slot, image.data, Plan(s.arch, image.width, image.height));
    case BeginFree(t, slot) => SamePublishers(s, Do(s, l), t, Reading(slot));
    case Malloc(t, offer, junk) =>
      if MallocAnswer(s.arch, s.heap, s.threads[t].layout.size, offer) == NULL {
        MallocNullBooks(s, t, offer, junk);
      } else {
        MallocGrantedBooks(s, t, offer, junk);
      }
    case Advance(t) => AdvanceBooks(s, t);
    case _ => assert Publishers(Do(s, l)) == Publishers(s);
  }

  lemma {:induction false} RunKeepsBooks(s: State, ls: seq<Label>)
    requires Inv(s) && Books(s) && Runs(s, ls)
    ensures Books(Exec(s, ls))
    decreases |ls|
  {
    if ls != [] {
      StepKeepsInv(s, ls[0]);
      StepKeepsBooks(s, ls[0]);
      RunKeepsBooks(Do(s, ls[0]), ls[1..]);
    }
  }

  // Conservation in every reachable state; the second clause is what it comes
  // to when no call is in flight.
  lemma BooksBalance(s0: State, ls: seq<Label>)
    requires Init(s0) && Runs(s0, ls)
    ensures var s := Exec(s0, ls);
            && |s.registry| == Count(s.trace, Registrations) - Count(s.trace, Unregistrations)
            && |s.heap| == Count(s.trace, Allocations) - Count(s.trace, Releases) - Count(s.trace, Undos)
            && Count(s.trace, Registrations) == Count(s.trace, OkReturns) + |Publishers(s)|
            && ((forall t | t in s.threads :: s.threads[t].Idle?) ==>
                  |s.heap| == |s.registry| == Count(s.trace, OkReturns) - Count(s.trace, Unregistrations))
  {
    assert forall t | t in s0.threads :: !s0.threads[t].Publishing?;
    assert Publishers(s0) == {};
    RunKeepsBooks(s0, ls);
    var s := Exec(s0, ls);
    assert |s.registry| == |s.registry.Keys| && |s.heap| == |s.heap.Keys|;
    if forall t | t in s.threads :: s.threads[t].Idle? {
      QuiescentMeansRegistered(s0, ls);
      assert Publishers(s) == {};
    }
  }

  // ---------- Progress ----------

  // How many steps of its own a thread still needs at most.
  function Rank(th: Thread): nat {
    match th
    case Idle => 0
    case Sized(_, _, _) => PUBLISHED_FIELDS + 3
    case Allocated(_, _, _, _) => PUBLISHED_FIELDS + 2
    case Copied(_, _, _, _) => PUBLISHED_FIELDS + 1
    case Undoing(_, _) => 1
    case Publishing(_, _, _, written) => if written < PUBLISHED_FIELDS then PUBLISHED_FIELDS - written else 1
    case Reading(_) => CLEARED_FIELDS + 3
    case Clearing(_, _, cleared) => if cleared < CLEARED_FIELDS then CLEARED_FIELDS + 2 - cleared else 3
    case Unregistering(_) => 2
    case Releasing(_) => 1
  }

  lemma MallocDescends(s: State, t: Tid, offer: Addr, junk: seq<byte>)
    requires Enabled(s, Malloc(t, offer, junk))
    ensures exists next :: DoMalloc(s, t, offer, junk).threads == s.threads[t := next]
                           && Rank(next) < Rank(s.threads[t])
  {
    var th, s' := s.threads[t], DoMalloc(s, t, offer, junk);
    var next := if MallocAnswer(s.arch, s.heap, th.layout.size, offer) == NULL then Idle
                else Allocated(th.slot, th.data, th.layout, offer);
    assert s'.threads == s.threads[t := next] && Rank(next) < Rank(th);
  }

  lemma AdvanceDescends(s: State, t: Tid)
    requires Enabled(s, Advance(t))
    ensures exists next :: DoAdvance(s, t).threads == s.threads[t := next] && Rank(next) < Rank(s.threads[t])
  {
    NextThreadIsNext(s, t);
    NextThreadIsCloser(s, t);
    var next := NextThread(s, t);
    assert DoAdvance(s, t).threads == s.threads[t := next] && Rank(next) < Rank(s.threads[t]);
  }

  function NextThread(s: State, t: Tid): Thread
    requires Enabled(s, Advance(t))
  {
    match s.threads[t]
    case Allocated(slot, data, layout, ptr) => Copied(slot, data, layout, ptr)
    case Copied(slot, data, layout, ptr) =>
      var answer := RegisterAnswer(s.registry, s.poisoned, ptr);
      if answer.Ok? then Publishing(slot, layout, ptr, 0) else Undoing(ptr, answer.error)
    case Publishing(slot, layout, ptr, written) =>
      if written + 1 < PUBLISHED_FIELDS then Publishing(slot, layout, ptr, written + 1) else Idle
    case Reading(slot) => Clearing(slot, SlotAt(s, slot).data, 0)
    case Clearing(_, _, _) => AfterClear(s.threads[t])
    case Unregistering(ptr) => if UnregisterAnswer(s.registry, s.poisoned, ptr).Ok? then Releasing(ptr) else Idle
    case _ => Idle
  }

  lemma RegisterNext(s: State, t: Tid)
    requires t in s.threads && s.threads[t].Copied?
    ensures DoRegister(s, t).threads == s.threads[t := NextThread(s, t)]
  {
  }

  lemma PublishNext(s: State, t: Tid)
    requires t in s.threads && s.threads[t].Publishing?
    ensures DoPublish(s, t).threads == s.threads[t := NextThread(s, t)]
  {
  }

  lemma UnregisterNext(s: State, t: Tid)
    requires t in s.threads && s.threads[t].Unregistering?
    ensures DoUnregister(s, t).threads == s.threads[t := NextThread(s, t)]
  {
  }

  lemma CopyNext(s: State, t: Tid)
    requires t in s.threads && s.threads[t].Allocated?
    ensures DoCopy(s, t).threads == s.threads[t := NextThread(s, t)]
  {
  }

  lemma FreeNext(s: State, t: Tid)
    requires t in s.threads
    ensures s.threads[t].Undoing? ==> DoUndo(s, t).threads == s.threads[t := Idle]
    ensures s.threads[t].Releasing? ==> DoRelease(s, t).threads == s.threads[t := Idle]
  {
  }

  lemma NextThreadIsNext(s: State, t: Tid)
    requires Enabled(s, Advance(t))
    ensures DoAdvance(s, t).threads == s.threads[t := NextThread(s, t)]
  {
    match s.threads[t]
    case Allocated(_, _, _, _) => CopyNext(s, t);
    case Copied(_, _, _, _) => RegisterNext(s, t);
    case Undoing(_, _) => FreeNext(s, t);
    case Publishing(_, _, _, _) => PublishNext(s, t);
    case Reading(_) => assert DoAdvance(s, t) == DoRead(s, t);
    case Clearing(_, _, _) => assert DoAdvance(s, t) == DoClear(s, t);
    case Unregistering(_) => UnregisterNext(s, t);
    case Releasing(_) => FreeNext(s, t);
  }

  lemma NextThreadIsCloser(s: State, t: Tid)
    requires Enabled(s, Advance(t))
    ensures Rank(NextThread(s, t)) < Rank(s.threads[t])
  {
  }

  // A thread inside a call can always take a step; each step it takes brings
  // it closer to returning, and nobody else's step sets it back. A decode
  // therefore returns within 9 steps of its own and a free within 7, whatever
  // the other threads, the host and the mutex do meanwhile.
  lemma CallsFinish(s: State, l: Label, t: Tid)
    requires Enabled(s, l) && t in s.threads
    ensures t in Do(s, l).threads
    ensures (l.Malloc? || l.Advance?) && l.t == t ==> Rank(Do(s, l).threads[t]) < Rank(s.threads[t])
    ensures l.BeginDecode? && l.t == t ==> Rank(Do(s, l).threads[t]) <= 9
    ensures l.BeginFree? && l.t == t ==> Rank(Do(s, l).threads[t]) <= 7
    ensures !ActsFor(l, t) ==> Do(s, l).threads[t] == s.threads[t]
  {
    match l
    case Malloc(u, offer, junk) => MallocDescends(s, u, offer, junk);
    case Advance(u) => AdvanceDescends(s, u);
    case _ =>
  }

  lemma CallsNeverStall(s: State, t: Tid)
    requires t in s.threads && !s.threads[t].Idle?
    ensures exists l :: ActsFor(l, t) && Enabled(s, l)
  {
    var th := s.threads[t];
    if th.Sized? {
      var l := Malloc(t, NULL, seq(th.layout.size, i => 0));
      assert ActsFor(l, t) && Enabled(s, l);
    } else {
      var l := Advance(t);
      assert ActsFor(l, t) && Enabled(s, l);
    }
  }

  // ---------- Provenance ----------

  ghost predicate WasRegistered(trace: seq<Event>, a: Addr) {
    exists i :: 0 <= i < |trace| && trace[i].Reg? && trace[i].ptr == a
  }

  ghost predicate Vouched(trace: seq<Event>, a: Addr) {
    a == NULL || WasRegistered(trace, a)
  }

  // A thread that will put an address into a struct, or has taken it from one.
  predicate ShowsAddress(th: Thread) {
    th.Publishing? || th.Clearing? || th.Unregistering?
  }

  ghost predicate Provenance(s: State) {
    && (forall slot | slot in s.slots :: Vouched(s.trace, s.slots[slot].data))
    && (forall t | t in s.threads && ShowsAddress(s.threads[t]) :: Vouched(s.trace, s.threads[t].ptr))
  }

  lemma VouchedStays(trace: seq<Event>, longer: seq<Event>, a: Addr)
    requires trace <= longer && Vouched(trace, a)
    ensures Vouched(longer, a)
  {
    if a != NULL {
      var i :| 0 <= i < |trace| && trace[i].Reg? && trace[i].ptr == a;
      assert longer[i] == trace[i];
    }
  }

  // What a step may do to the addresses in view: extend the trace, change one
  // slot or one thread to vouched contents.
  ghost predicate VouchedStep(s: State, s': State) {
    && s.trace <= s'.trace
    && (forall slot | slot in s'.slots ::
          (slot in s.slots && s'.slots[slot].data == s.slots[slot].data) || Vouched(s'.trace, s'.slots[slot].data))
    && (forall t | t in s'.threads && ShowsAddress(s'.threads[t]) ::
          (t in s.threads && s'.threads[t] == s.threads[t]) || Vouched(s'.trace, s'.threads[t].ptr))
  }

  lemma VouchedStepKeeps(s: State, s': State)
    requires Provenance(s) && VouchedStep(s, s')
    ensures Provenance(s')
  {
    forall slot | slot in s'.slots ensures Vouched(s'.trace, s'.slots[slot].data) {
      if slot in s.slots && s'.slots[slot].data == s.slots[slot].data {
        VouchedStays(s.trace, s'.trace, s.slots[slot].data);
      }
    }
    forall t | t in s'.threads && ShowsAddress(s'.threads[t]) ensures Vouched(s'.trace, s'.threads[t].ptr) {
      if t in s.threads && s'.threads[t] == s.threads[t] {
        VouchedStays(s.trace, s'.trace, s.threads[t].ptr);
      }
    }
  }

  lemma RegisterVouches(s: State, t: Tid)
    requires t in s.threads && s.threads[t].Copied?
    requires RegisterAnswer(s.registry, s.poisoned, s.threads[t].ptr).Ok?
    ensures VouchedStep(s, DoRegister(s, t))
  {
    var s', th := DoRegister(s, t), s.threads[t];
    assert s'.trace[|s.trace|].Reg? && s'.trace[|s.trace|].ptr == th.ptr;
  }

  lemma RegisterErrVouches(s: State, t: Tid)
    requires t in s.threads && s.threads[t].Copied?
    requires RegisterAnswer(s.registry, s.poisoned, s.threads[t].ptr).Err?
    ensures VouchedStep(s, DoRegister(s, t))
  {
  }

  lemma PublishVouches(s: State, t: Tid)
    requires Provenance(s) && t in s.threads && s.threads[t].Publishing?
    ensures VouchedStep(s, DoPublish(s, t))
  {
    var s', th := DoPublish(s, t), s.threads[t];
    assert s'.slots == s.slots[th.slot := WriteField(SlotAt(s, th.slot), th.written, th.ptr, th.layout)];
    PublishNext(s, t);
    VouchedStays(s.trace, s'.trace, th.ptr);
  }

  lemma ReadVouches(s: State, t: Tid)
    requires Provenance(s) && t in s.threads && s.threads[t].Reading?
    ensures VouchedStep(s, DoRead(s, t))
  {
  }

  lemma ClearVouches(s: State, t: Tid)
    requires Provenance(s) && t in s.threads && s.threads[t].Clearing?
    ensures VouchedStep(s, DoClear(s, t))
  {
  }

  lemma UnregisterVouches(s: State, t: Tid)
    requires t in s.threads && s.threads[t].Unregistering?
    ensures VouchedStep(s, DoUnregister(s, t))
  {
  }

  lemma CopyVouches(s: State, t: Tid)
    requires t in s.threads && s.threads[t].Allocated?
    ensures VouchedStep(s, DoCopy(s, t))
  {
  }

  lemma UndoVouches(s: State, t: Tid)
    requires t in s.threads && s.threads[t].Undoing?
    ensures VouchedStep(s, DoUndo(s, t))
  {
  }

  lemma ReleaseVouches(s: State, t: Tid)
    requires t in s.threads && s.threads[t].Releasing?
    ensures VouchedStep(s, DoRelease(s, t))
  {
  }

  lemma MallocVouches(s: State, t: Tid, offer: Addr, junk: seq<byte>)
    requires Enabled(s, Malloc(t, offer, junk))
    ensures VouchedStep(s, DoMalloc(s, t, offer, junk))
  {
    var s', th := DoMalloc(s, t, offer, junk), s.threads[t];
    if MallocAnswer(s.arch, s.heap, th.layout.size, offer) == NULL {
      assert s'.threads == s.threads[t := Idle];
    } else {
      assert s'.threads == s.threads[t := Allocated(th.slot, th.data, th.layout, offer)];
    }
  }

  lemma PlannedVouches(s: State, t: Tid, slot: Slot, data: seq<byte>, plan: Option<Layout>)
    requires t in s.threads && s.threads[t].Idle?
    ensures VouchedStep(s, Planned(s, t, slot, data, plan))
  {
  }

  lemma AdvanceVouches(s: State, t: Tid)
    requires Provenance(s) && Enabled(s, Advance(t))
    ensures VouchedStep(s, DoAdvance(s, t))
  {
    match s.threads[t]
    case Allocated(_, _, _, _) => CopyVouches(s, t);
    case Copied(_, _, _, ptr) =>
      if RegisterAnswer(s.registry, s.poisoned, ptr).Ok? { RegisterVouches(s, t); } else { RegisterErrVouches(s, t); }
    case Undoing(_, _) => UndoVouches(s, t);
    case Publishing(_, _, _, _) => PublishVouches(s, t);
    case Reading(_) => ReadVouches(s, t);
    case Clearing(_, _, _) => ClearVouches(s, t);
    case Unregistering(_) => UnregisterVouches(s, t);
    case Releasing(_) => ReleaseVouches(s, t);
  }

  lemma StepKeepsProvenance(s: State, l: Label)
    requires Provenance(s) && Enabled(s, l) && !l.HostWrite?
    ensures Provenance(Do(s, l))
  {
    match l {
      case Malloc(t, offer, junk) => MallocVouches(s, t, offer, junk);
      case Advance(t) => AdvanceVouches(s, t);
      case BeginDecode(t, slot, image) =>
        PlannedVouches(s, t, slot, image.data, Plan(s.arch, image.width, image.height));
      case _ =>
    }
    VouchedStepKeeps(s, Do(s, l));
  }

  lemma {:induction false} RunKeepsProvenance(s: State, ls: seq<Label>)
    requires Provenance(s) && Runs(s, ls)
    requires forall l | l in ls :: !l.HostWrite?
    ensures Provenance(Exec(s, ls))
    decreases |ls|
  {
    if ls != [] {
      StepKeepsProvenance(s, ls[0]);
      RunKeepsProvenance(Do(s, ls[0]), ls[1..]);
    }
  }

  // When the host starts with empty structs and only copies them about, every
  // address visible in one was registered before it was written there.
  lemma PublishedAfterRegistered(s0: State, ls: seq<Label>, slot: Slot)
    requires Init(s0) && Runs(s0, ls) && slot in Exec(s0, ls).slots
    requires forall k | k in s0.slots :: s0.slots[k].data == NULL
    requires forall l | l in ls :: !l.HostWrite?
    ensures var pb := Exec(s0, ls).slots[slot];
            pb.data == NULL || WasRegistered(Exec(s0, ls).trace, pb.data)
  {
    RunKeepsProvenance(s0, ls);
  }
}
