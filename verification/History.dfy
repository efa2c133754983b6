// The life of every single buffer over whole runs, kept apart from the lives of
// other buffers that had the same address.
module History {
  import opened Abi
  import opened BufferSize
  import opened Registry
  import opened Lifecycle
  import opened Ownership

  // ---------- The events of one buffer ----------

  predicate Concerns(e: Event, g: Gen) {
    !e.Return? && e.gen == g
  }

  function Story(trace: seq<Event>, g: Gen): seq<Event> {
    if trace == [] then []
    else
      var e := trace[|trace| - 1];
      Story(trace[..|trace| - 1], g) + if Concerns(e, g) then [e] else []
  }

  lemma StoryAppend(trace: seq<Event>, e: Event, g: Gen)
    ensures Story(trace + [e], g) == Story(trace, g) + if Concerns(e, g) then [e] else []
  {
    assert (trace + [e])[..|trace|] == trace;
  }

  // The four stages of a life, and its two endings.

  ghost predicate Fresh(st: seq<Event>, t: Tid, g: Gen, a: Addr) {
    st == [Alloc(t, g, a)]
  }

  ghost predicate Published(st: seq<Event>, g: Gen, a: Addr, pixels: seq<byte>) {
    |st| == 2 && st[0] == Alloc(st[0].t, g, a) && st[1] == Reg(st[0].t, g, a, pixels)
  }

  ghost predicate Withdrawn(st: seq<Event>, t: Tid, g: Gen, a: Addr) {
    && |st| == 3 && st[0] == Alloc(st[0].t, g, a)
    && st[1].Reg? && st[1] == Reg(st[0].t, g, a, st[1].pixels)
    && st[2] == Unreg(t, g, a)
  }

  ghost predicate UndoneLife(st: seq<Event>, g: Gen) {
    && |st| == 2 && st[0].Alloc?
    && st[0] == Alloc(st[0].t, g, st[0].ptr) && st[1] == Undo(st[0].t, g, st[0].ptr)
  }

  ghost predicate FullLife(st: seq<Event>, g: Gen) {
    && |st| == 4 && st[3].Release?
    && Withdrawn(st[..3], st[3].t, g, st[3].ptr) && st[3] == Release(st[3].t, g, st[3].ptr)
  }

  ghost predicate Over(st: seq<Event>, g: Gen) {
    UndoneLife(st, g) || FullLife(st, g)
  }

  // ---------- The invariant on histories ----------

  ghost predicate GensOk(s: State) {
    && s.gens.Keys == s.heap.Keys
    && 0 <= s.nextGen && (forall a | a in s.gens :: 0 <= s.gens[a] < s.nextGen)
    && (forall a, b | a in s.gens && b in s.gens && s.gens[a] == s.gens[b] :: a == b)
  }

  ghost predicate Retired(s: State, g: Gen) {
    0 <= g < s.nextGen && forall a | a in s.gens :: s.gens[a] != g
  }

  ghost predicate RegisteredStory(s: State, a: Addr)
    requires a in s.gens && a in s.heap
  {
    Published(Story(s.trace, s.gens[a]), s.gens[a], a, s.heap[a].bytes)
  }

  ghost predicate RegisteredStories(s: State) {
    forall a | a in s.registry && a in s.heap && a in s.gens :: RegisteredStory(s, a)
  }

  ghost predicate HeldStory(s: State, t: Tid, th: Thread)
    requires Holds(th)
  {
    th.ptr in s.gens &&
    var g := s.gens[th.ptr];
    if DecodeHolds(th) then Fresh(Story(s.trace, g), t, g, th.ptr)
    else Withdrawn(Story(s.trace, g), t, g, th.ptr)
  }

  ghost predicate HeldStories(s: State) {
    forall t | t in s.threads && Holds(s.threads[t]) :: HeldStory(s, t, s.threads[t])
  }

  ghost predicate OtherStories(s: State) {
    && (forall g: Gen | Retired(s, g) :: Over(Story(s.trace, g), g))
    && (forall g: Gen | g < 0 || g >= s.nextGen :: Story(s.trace, g) == [])
  }

  ghost predicate Tales(s: State) {
    GensOk(s) && RegisteredStories(s) && HeldStories(s) && OtherStories(s)
  }

  // s' comes after s, one more event about a buffer having been logged.
  ghost predicate Logs(s: State, s': State, e: Event) {
    !e.Return? && forall g :: Story(s'.trace, g) == Story(s.trace, g) + if e.gen == g then [e] else []
  }

  lemma OneEvent(s: State, s': State, e: Event)
    requires !e.Return? && s'.trace == s.trace + [e]
    ensures Logs(s, s', e)
  {
    forall g ensures Story(s'.trace, g) == Story(s.trace, g) + if e.gen == g then [e] else [] {
      StoryAppend(s.trace, e, g);
    }
  }

  ghost predicate SameStories(s: State, s': State) {
    forall g :: Story(s'.trace, g) == Story(s.trace, g)
  }

  lemma ReturnIsQuiet(s: State, s': State, t: Tid, status: IGStatus)
    requires s'.trace == s.trace || s'.trace == s.trace + [Return(t, status)]
    ensures SameStories(s, s')
  {
    if s'.trace != s.trace {
      forall g ensures Story(s'.trace, g) == Story(s.trace, g) {
        StoryAppend(s.trace, Return(t, status), g);
      }
    }
  }

  // ---------- The five ways a step can touch blocks and their stories ----------

  // Nothing is allocated, handed over or freed.
  ghost predicate Quiet(s: State, s': State, t: Tid, th: Thread) {
    && t in s.threads && s'.threads == s.threads[t := th]
    && (DecodeHolds(th) <==> DecodeHolds(s.threads[t]))
    && (FreeHolds(th) <==> FreeHolds(s.threads[t]))
    && (Holds(th) ==> th.ptr == s.threads[t].ptr)
    && s'.heap.Keys == s.heap.Keys && s'.gens == s.gens && s'.nextGen == s.nextGen && s'.registry == s.registry
    && (forall a | a in s.registry && a in s.heap :: s'.heap[a] == s.heap[a])
    && SameStories(s, s')
  }

  ghost predicate Acquires(s: State, s': State, t: Tid, th: Thread) {
    && t in s.threads && !Holds(s.threads[t]) && DecodeHolds(th) && s'.threads == s.threads[t := th]
    && th.ptr !in s.heap && th.ptr !in s.registry
    && Logs(s, s', Alloc(t, s.nextGen, th.ptr))
    && s'.heap.Keys == s.heap.Keys + {th.ptr} && (forall a | a in s.heap :: s'.heap[a] == s.heap[a])
    && s'.gens == s.gens[th.ptr := s.nextGen] && s'.nextGen == s.nextGen + 1
    && s'.registry == s.registry
  }

  ghost predicate Registers(s: State, s': State, t: Tid, th: Thread, a: Addr) {
    && t in s.threads && DecodeHolds(s.threads[t]) && s.threads[t].ptr == a && !Holds(th)
    && s'.threads == s.threads[t := th]
    && a in s.gens && a in s.heap && Logs(s, s', Reg(t, s.gens[a], a, s.heap[a].bytes))
    && s'.heap == s.heap && s'.gens == s.gens && s'.nextGen == s.nextGen
    && s'.registry.Keys == s.registry.Keys + {a}
  }

  ghost predicate Unregisters(s: State, s': State, t: Tid, th: Thread) {
    && t in s.threads && !Holds(s.threads[t]) && FreeHolds(th) && s'.threads == s.threads[t := th]
    && th.ptr in s.registry && th.ptr in s.gens && th.ptr in s.heap
    && Logs(s, s', Unreg(t, s.gens[th.ptr], th.ptr))
    && s'.heap == s.heap && s'.gens == s.gens && s'.nextGen == s.nextGen
    && s'.registry == s.registry - {th.ptr}
  }

  ghost predicate Ends(s: State, s': State, t: Tid, a: Addr) {
    && t in s.threads && Holds(s.threads[t]) && s.threads[t].ptr == a && s'.threads == s.threads[t := Idle]
    && a in s.gens && a !in s.registry
    && Logs(s, s', if DecodeHolds(s.threads[t]) then Undo(t, s.gens[a], a) else Release(t, s.gens[a], a))
    && s'.heap == s.heap - {a} && s'.gens == s.gens - {a} && s'.registry == s.registry
    && s'.nextGen == s.nextGen
  }

  // ---------- Each of them keeps the stories ----------

  lemma QuietTales(s: State, s': State, t: Tid, th: Thread)
    requires Tales(s) && Quiet(s, s', t, th)
    ensures Tales(s')
  {
    forall u | u in s'.threads && Holds(s'.threads[u]) ensures HeldStory(s', u, s'.threads[u]) {
      assert HeldStory(s, u, s.threads[u]);
    }
    forall a | a in s'.registry && a in s'.heap && a in s'.gens ensures RegisteredStory(s', a) {
      assert RegisteredStory(s, a);
    }
    forall g | Retired(s', g) ensures Over(Story(s'.trace, g), g) {
      assert Retired(s, g);
    }
  }

  lemma AcquireTales(s: State, s': State, t: Tid, th: Thread)
    requires Tales(s) && HeldOk(s) && Acquires(s, s', t, th)
    ensures Tales(s')
  {
    forall u | u in s'.threads && Holds(s'.threads[u]) ensures HeldStory(s', u, s'.threads[u]) {
      if u == t {
        assert Story(s.trace, s.nextGen) == [];
      } else {
        assert HeldStory(s, u, s.threads[u]);
      }
    }
    forall a | a in s'.registry && a in s'.heap && a in s'.gens ensures RegisteredStory(s', a) {
      assert RegisteredStory(s, a);
    }
    forall g | Retired(s', g) ensures Over(Story(s'.trace, g), g) {
      assert th.ptr in s'.gens && s'.gens[th.ptr] == s.nextGen;
      forall a | a in s.gens ensures s.gens[a] != g {
        assert a in s'.gens && s'.gens[a] == s.gens[a];
      }
      assert Retired(s, g);
    }
  }

  lemma RegisterTales(s: State, s': State, t: Tid, th: Thread, a: Addr)
    requires Tales(s) && HeldOk(s) && Registers(s, s', t, th, a)
    ensures Tales(s')
  {
    assert HeldStory(s, t, s.threads[t]);
    forall u | u in s'.threads && Holds(s'.threads[u]) ensures HeldStory(s', u, s'.threads[u]) {
      assert u != t;
      assert HeldStory(s, u, s.threads[u]);
      assert s.gens[s.threads[u].ptr] != s.gens[a];
    }
    forall b | b in s'.registry && b in s'.heap && b in s'.gens ensures RegisteredStory(s', b) {
      if b != a {
        assert RegisteredStory(s, b);
      }
    }
    forall g | Retired(s', g) ensures Over(Story(s'.trace, g), g) {
      assert Retired(s, g);
    }
  }

  lemma UnregisterTales(s: State, s': State, t: Tid, th: Thread)
    requires Tales(s) && HeldOk(s) && Unregisters(s, s', t, th)
    ensures Tales(s')
  {
    forall u | u in s'.threads && Holds(s'.threads[u]) ensures HeldStory(s', u, s'.threads[u]) {
      if u == t {
        assert RegisteredStory(s, th.ptr);
      } else {
        assert HeldStory(s, u, s.threads[u]);
        assert s.threads[u].ptr != th.ptr;
      }
    }
    forall b | b in s'.registry && b in s'.heap && b in s'.gens ensures RegisteredStory(s', b) {
      assert RegisteredStory(s, b);
      assert s.gens[b] != s.gens[th.ptr];
    }
    forall g | Retired(s', g) ensures Over(Story(s'.trace, g), g) {
      assert Retired(s, g);
    }
  }

  lemma EndKeepsHeld(s: State, s': State, t: Tid, a: Addr)
    requires Tales(s) && HeldOk(s) && Ends(s, s', t, a)
    ensures HeldStories(s')
  {
    forall u | u in s'.threads && Holds(s'.threads[u]) ensures HeldStory(s', u, s'.threads[u]) {
      assert u != t;
      assert HeldStory(s, u, s.threads[u]);
      assert s.threads[u].ptr != a;
    }
  }

  lemma EndKeepsRegistered(s: State, s': State, t: Tid, a: Addr)
    requires Tales(s) && Ends(s, s', t, a)
    ensures RegisteredStories(s')
  {
    forall b | b in s'.registry && b in s'.heap && b in s'.gens ensures RegisteredStory(s', b) {
      assert RegisteredStory(s, b);
      assert s.gens[b] != s.gens[a];
    }
  }

  lemma LastEvent(s: State, s': State, t: Tid, a: Addr)
    requires Tales(s) && Ends(s, s', t, a)
    ensures Over(Story(s'.trace, s.gens[a]), s.gens[a])
  {
    assert HeldStory(s, t, s.threads[t]);
    var st, st' := Story(s.trace, s.gens[a]), Story(s'.trace, s.gens[a]);
    assert st'[..|st|] == st;
  }

  lemma EndKeepsOthers(s: State, s': State, t: Tid, a: Addr)
    requires Tales(s) && Ends(s, s', t, a)
    ensures OtherStories(s')
  {
    forall g | Retired(s', g) ensures Over(Story(s'.trace, g), g) {
      if g == s.gens[a] {
        LastEvent(s, s', t, a);
      } else {
        forall b | b in s.gens ensures s.gens[b] != g {
          assert b == a || b in s'.gens;
        }
        assert Retired(s, g);
      }
    }
  }

  lemma EndTales(s: State, s': State, t: Tid, a: Addr)
    requires Tales(s) && HeldOk(s) && Ends(s, s', t, a)
    ensures Tales(s')
  {
    EndKeepsHeld(s, s', t, a);
    EndKeepsRegistered(s, s', t, a);
    EndKeepsOthers(s, s', t, a);
  }

  lemma HostTales(s: State, s': State)
    requires Tales(s)
    requires s'.heap == s.heap && s'.registry == s.registry && s'.gens == s.gens && s'.nextGen == s.nextGen
    requires s'.threads == s.threads && s'.trace == s.trace
    ensures Tales(s')
  {
    forall u | u in s'.threads && Holds(s'.threads[u]) ensures HeldStory(s', u, s'.threads[u]) {
      assert HeldStory(s, u, s.threads[u]);
    }
    forall a | a in s'.registry && a in s'.heap && a in s'.gens ensures RegisteredStory(s', a) {
      assert RegisteredStory(s, a);
    }
    forall g | Retired(s', g) ensures Over(Story(s'.trace, g), g) {
      assert Retired(s, g);
    }
  }

  // ---------- Every step acts in one of these ways ----------

  lemma PlannedTales(s: State, t: Tid, slot: Slot, data: seq<byte>, plan: Option<Layout>)
    requires Tales(s) && t in s.threads && s.threads[t].Idle?
    ensures Tales(Planned(s, t, slot, data, plan))
  {
    var s' := Planned(s, t, slot, data, plan);
    ReturnIsQuiet(s, s', t, OutOfMemory);
    QuietTales(s, s', t, if plan.None? then Idle else Sized(slot, data, plan.value));
  }

  lemma MallocTales(s: State, t: Tid, offer: Addr, junk: seq<byte>)
    requires Tales(s) && HeldOk(s) && RegisteredOk(s) && Enabled(s, Malloc(t, offer, junk))
    ensures Tales(DoMalloc(s, t, offer, junk))
  {
    var s', th := DoMalloc(s, t, offer, junk), s.threads[t];
    var ptr := MallocAnswer(s.arch, s.heap, th.layout.size, offer);
    if ptr == NULL {
      ReturnIsQuiet(s, s', t, OutOfMemory);
      QuietTales(s, s', t, Idle);
    } else {
      OneEvent(s, s', Alloc(t, s.nextGen, ptr));
      AcquireTales(s, s', t, Allocated(th.slot, th.data, th.layout, ptr));
    }
  }

  lemma CopyActs(s: State, t: Tid)
    requires HeldOk(s) && t in s.threads && s.threads[t].Allocated?
    ensures var th := s.threads[t];
            Quiet(s, DoCopy(s, t), t, Copied(th.slot, th.data, th.layout, th.ptr))
  {
  }

  lemma CopyTales(s: State, t: Tid)
    requires Tales(s) && HeldOk(s) && t in s.threads && s.threads[t].Allocated?
    ensures Tales(DoCopy(s, t))
  {
    var th := s.threads[t];
    CopyActs(s, t);
    QuietTales(s, DoCopy(s, t), t, Copied(th.slot, th.data, th.layout, th.ptr));
  }

  lemma DoRegisterTales(s: State, t: Tid)
    requires Tales(s) && HeldOk(s) && t in s.threads && s.threads[t].Copied? && ThreadOk(s, s.threads[t])
    ensures Tales(DoRegister(s, t))
  {
    var s', th := DoRegister(s, t), s.threads[t];
    if s.poisoned {
      QuietTales(s, s', t, Undoing(th.ptr, Internal));
    } else {
      OneEvent(s, s', Reg(t, s.gens[th.ptr], th.ptr, th.data[..th.layout.size]));
      RegisterTales(s, s', t, Publishing(th.slot, th.layout, th.ptr, 0), th.ptr);
    }
  }

  lemma DoUndoTales(s: State, t: Tid)
    requires Tales(s) && HeldOk(s) && t in s.threads && s.threads[t].Undoing?
    ensures Tales(DoUndo(s, t))
  {
    var s', ptr := DoUndo(s, t), s.threads[t].ptr;
    var e := Undo(t, s.gens[ptr], ptr);
    var freed := Log(FreeBlock(Goto(s, t, Idle), ptr), e);
    OneEvent(s, freed, e);
    ReturnIsQuiet(freed, s', t, Internal);
    EndTales(s, s', t, ptr);
  }

  lemma DoPublishTales(s: State, t: Tid)
    requires Tales(s) && t in s.threads && s.threads[t].Publishing?
    ensures Tales(DoPublish(s, t))
  {
    var s', th := DoPublish(s, t), s.threads[t];
    ReturnIsQuiet(s, s', t, StatusOk);
    if th.written + 1 < PUBLISHED_FIELDS {
      QuietTales(s, s', t, th.(written := th.written + 1));
    } else {
      QuietTales(s, s', t, Idle);
    }
  }

  lemma DoUnregisterTales(s: State, t: Tid)
    requires Tales(s) && HeldOk(s) && RegisteredOk(s) && t in s.threads && s.threads[t].Unregistering?
    ensures Tales(DoUnregister(s, t))
  {
    var s', ptr := DoUnregister(s, t), s.threads[t].ptr;
    if UnregisterAnswer(s.registry, s.poisoned, ptr).Err? {
      QuietTales(s, s', t, Idle);
    } else {
      OneEvent(s, s', Unreg(t, s.gens[ptr], ptr));
      UnregisterTales(s, s', t, Releasing(ptr));
    }
  }

  lemma DoReleaseTales(s: State, t: Tid)
    requires Tales(s) && HeldOk(s) && t in s.threads && s.threads[t].Releasing?
    ensures Tales(DoRelease(s, t))
  {
    var ptr := s.threads[t].ptr;
    OneEvent(s, DoRelease(s, t), Release(t, s.gens[ptr], ptr));
    EndTales(s, DoRelease(s, t), t, ptr);
  }

  lemma AdvanceTales(s: State, t: Tid)
    requires Inv(s) && Tales(s) && Enabled(s, Advance(t))
    ensures Tales(DoAdvance(s, t))
  {
    match s.threads[t]
    case Allocated(_, _, _, _) => CopyTales(s, t);
    case Copied(_, _, _, _) => assert ThreadOk(s, s.threads[t]); DoRegisterTales(s, t);
    case Undoing(_, _) => DoUndoTales(s, t);
    case Publishing(_, _, _, _) => DoPublishTales(s, t);
    case Reading(slot) => QuietTales(s, DoRead(s, t), t, Clearing(slot, SlotAt(s, slot).data, 0));
    case Clearing(_, _, _) => QuietTales(s, DoClear(s, t), t, AfterClear(s.threads[t]));
    case Unregistering(_) => DoUnregisterTales(s, t);
    case Releasing(_) => DoReleaseTales(s, t);
  }

  lemma StepKeepsTales(s: State, l: Label)
    requires Inv(s) && Tales(s) && Enabled(s, l)
    ensures Tales(Do(s, l))
  {
    match l
    case BeginDecode(t, slot, image) =>
      PlannedTales(s, t, slot, image.data, Plan(s.arch, image.width, image.height));
    case BeginFree(t, slot) => QuietTales(s, Do(s, l), t, Reading(slot));
    case Malloc(t, offer, junk) => MallocTales(s, t, offer, junk);
    case Advance(t) => AdvanceTales(s, t);
    case _ => HostTales(s, Do(s, l));
  }

  lemma {:induction false} RunKeepsTales(s: State, ls: seq<Label>)
    requires Inv(s) && Tales(s) && Runs(s, ls)
    ensures Inv(Exec(s, ls)) && Tales(Exec(s, ls))
    decreases |ls|
  {
    if ls != [] {
      StepKeepsInv(s, ls[0]);
      StepKeepsTales(s, ls[0]);
      RunKeepsTales(Do(s, ls[0]), ls[1..]);
    }
  }

  // ---------- Main results on single buffers ----------

  ghost predicate LifeStory(st: seq<Event>, g: Gen) {
    || st == []
    || (|st| == 1 && st[0].Alloc? && Fresh(st, st[0].t, g, st[0].ptr))
    || (|st| == 2 && st[0].Alloc? && st[1].Reg? && Published(st, g, st[0].ptr, st[1].pixels))
    || (|st| == 3 && st[0].Alloc? && Withdrawn(st, st[2].t, g, st[0].ptr))
    || Over(st, g)
  }

  // Every allocation, whatever address it got, goes through (a prefix of)
  // exactly one of two lives: allocated, registered by the same decode,
  // unregistered and then released by one and the same free; or allocated and
  // undone by the same decode.
  lemma EveryBufferLivesOneLife(s0: State, ls: seq<Label>, g: Gen)
    requires Init(s0) && Runs(s0, ls)
    ensures LifeStory(Story(Exec(s0, ls).trace, g), g)
  {
    RunKeepsTales(s0, ls);
    var s := Exec(s0, ls);
    if 0 <= g < s.nextGen && !Retired(s, g) {
      var a :| a in s.gens && s.gens[a] == g;
      if a !in s.registry {
        assert HeldBySomeone(s, a);
        var u :| u in s.threads && Holds(s.threads[u]) && s.threads[u].ptr == a;
      }
    }
  }

  lemma {:induction false} StoryKeepsOrder(trace: seq<Event>, g: Gen, i: nat, j: nat) returns (p: nat, q: nat)
    requires i < j < |trace| && Concerns(trace[i], g) && Concerns(trace[j], g)
    ensures p < q < |Story(trace, g)|
    ensures Story(trace, g)[p] == trace[i] && Story(trace, g)[q] == trace[j]
  {
    var front := trace[..|trace| - 1];
    if j == |trace| - 1 {
      p := StoryHolds(front, g, i);
      q := |Story(front, g)|;
    } else {
      p, q := StoryKeepsOrder(front, g, i, j);
    }
  }

  lemma {:induction false} StoryHolds(trace: seq<Event>, g: Gen, i: nat) returns (p: nat)
    requires i < |trace| && Concerns(trace[i], g)
    ensures p < |Story(trace, g)| && Story(trace, g)[p] == trace[i]
  {
    var front := trace[..|trace| - 1];
    if i == |trace| - 1 {
      p := |Story(front, g)|;
    } else {
      p := StoryHolds(front, g, i);
    }
  }

  // However many threads race to free copies of one struct, one registration
  // lets at most one of them reach the allocator, and no decode undoes it too.
  lemma FreedAtMostOnce(s0: State, ls: seq<Label>, i: nat, j: nat)
    requires Init(s0) && Runs(s0, ls)
    requires i < j < |Exec(s0, ls).trace|
    requires Exec(s0, ls).trace[i].Release? || Exec(s0, ls).trace[i].Undo?
    requires Exec(s0, ls).trace[j].Release? || Exec(s0, ls).trace[j].Undo?
    ensures Exec(s0, ls).trace[i].gen != Exec(s0, ls).trace[j].gen
  {
    var trace := Exec(s0, ls).trace;
    var g := trace[i].gen;
    if trace[j].gen == g {
      EveryBufferLivesOneLife(s0, ls, g);
      var p, q := StoryKeepsOrder(trace, g, i, j);
    }
  }

  // From registration to unregistration a block holds the pixels its decode
  // put there, whatever the other threads and the allocator do.
  lemma RegisteredPixelsStay(s0: State, ls: seq<Label>, a: Addr)
    requires Init(s0) && Runs(s0, ls) && a in Exec(s0, ls).registry
    ensures var s := Exec(s0, ls);
            && a in s.heap && a in s.gens
            && Published(Story(s.trace, s.gens[a]), s.gens[a], a, s.heap[a].bytes)
  {
    RunKeepsTales(s0, ls);
  }
}
