// A decode that does not answer Ok leaves no mark, whatever other calls are
// interleaved with it (src/decode.rs:86-139).
module Atomicity {
  import opened Abi
  import opened BufferSize
  import opened Registry
  import opened Lifecycle
  import opened Ownership
  import opened History
  import opened Accounting

  // ---------- A call within a run ----------

  predicate Begins(l: Label, t: Tid) {
    (l.BeginDecode? || l.BeginFree?) && l.t == t
  }

  // A decode that has neither registered its block nor returned.
  predicate Deciding(th: Thread) {
    th.Sized? || th.Allocated? || th.Copied? || th.Undoing?
  }

  ghost predicate Since(s: State, s': State, e: Event) {
    exists i :: |s.trace| <= i < |s'.trace| && s'.trace[i] == e
  }

  // No step of thread t changes a struct or the registry.
  ghost predicate TouchesNothing(s: State, ls: seq<Label>, t: Tid)
    requires Runs(s, ls)
    decreases |ls|
  {
    ls == [] ||
    var s1 := Do(s, ls[0]);
    && (ActsFor(ls[0], t) ==> s1.slots == s.slots && s1.registry == s.registry)
    && TouchesNothing(s1, ls[1..], t)
  }

  // The events from s to s' say nothing of thread t registering a block.
  ghost predicate NoRegistration(s: State, s': State, t: Tid) {
    s.trace <= s'.trace && forall i | |s.trace| <= i < |s'.trace| :: s'.trace[i].t == t ==> !s'.trace[i].Reg?
  }

  // ---------- What a step logs ----------

  ghost predicate LogsOwn(s: State, s': State, t: Tid) {
    s.trace <= s'.trace && forall i | |s.trace| <= i < |s'.trace| :: s'.trace[i].t == t
  }

  lemma RegisterLogsOwn(s: State, t: Tid)
    requires t in s.threads && s.threads[t].Copied?
    ensures LogsOwn(s, DoRegister(s, t), t)
  {
  }

  lemma PublishLogsOwn(s: State, t: Tid)
    requires t in s.threads && s.threads[t].Publishing?
    ensures LogsOwn(s, DoPublish(s, t), t)
  {
  }

  lemma UnregisterLogsOwn(s: State, t: Tid)
    requires t in s.threads && s.threads[t].Unregistering?
    ensures LogsOwn(s, DoUnregister(s, t), t)
  {
  }

  lemma QuietLogsOwn(s: State, t: Tid)
    requires t in s.threads
    ensures s.threads[t].Allocated? ==> LogsOwn(s, DoCopy(s, t), t)
    ensures s.threads[t].Reading? ==> LogsOwn(s, DoRead(s, t), t)
    ensures s.threads[t].Clearing? ==> LogsOwn(s, DoClear(s, t), t)
  {
  }

  lemma ReleaseLogsOwn(s: State, t: Tid)
    requires t in s.threads && s.threads[t].Releasing?
    ensures LogsOwn(s, DoRelease(s, t), t)
  {
  }

  lemma UndoLogsOwn(s: State, t: Tid)
    requires t in s.threads && s.threads[t].Undoing?
    ensures LogsOwn(s, DoUndo(s, t), t)
  {
  }

  lemma AdvanceLogsOwn(s: State, t: Tid)
    requires Enabled(s, Advance(t))
    ensures LogsOwn(s, DoAdvance(s, t), t)
  {
    match s.threads[t]
    case Allocated(_, _, _, _) => QuietLogsOwn(s, t);
    case Copied(_, _, _, _) => RegisterLogsOwn(s, t);
    case Undoing(_, _) => UndoLogsOwn(s, t);
    case Publishing(_, _, _, _) => PublishLogsOwn(s, t);
    case Reading(_) => QuietLogsOwn(s, t);
    case Clearing(_, _, _) => QuietLogsOwn(s, t);
    case Unregistering(_) => UnregisterLogsOwn(s, t);
    case Releasing(_) => ReleaseLogsOwn(s, t);
  }

  lemma StepLogsOwn(s: State, l: Label)
    requires Enabled(s, l)
    ensures s.trace <= Do(s, l).trace
    ensures l.HostCopy? || l.HostWrite? || l.Poison? ==> Do(s, l).trace == s.trace
    ensures l.BeginDecode? || l.BeginFree? || l.Malloc? || l.Advance? ==> LogsOwn(s, Do(s, l), l.t)
  {
    match l
    case BeginDecode(t, slot, image) => assert LogsOwn(s, DoBeginDecode(s, t, slot, image), t);
    case Malloc(t, offer, junk) => assert LogsOwn(s, DoMalloc(s, t, offer, junk), t);
    case Advance(t) => AdvanceLogsOwn(s, t);
    case _ =>
  }

  lemma {:induction false} RunExtendsTrace(s: State, ls: seq<Label>)
    requires Runs(s, ls)
    ensures s.trace <= Exec(s, ls).trace
    decreases |ls|
  {
    if ls != [] {
      StepLogsOwn(s, ls[0]);
      RunExtendsTrace(Do(s, ls[0]), ls[1..]);
    }
  }

  lemma SinceEarlier(s: State, s1: State, s': State, e: Event)
    requires s.trace <= s1.trace && Since(s1, s', e)
    ensures Since(s, s', e)
  {
  }

  // ---------- Publishing can only end in Ok ----------

  // The next thing thread t logs after s is its answer.
  ghost predicate NextAnswer(s: State, s': State, t: Tid, status: IGStatus) {
    exists i :: |s.trace| <= i < |s'.trace| && s'.trace[i] == Return(t, status)
                && forall j | |s.trace| <= j < i :: s'.trace[j].t != t
  }

  // While it publishes, a thread logs nothing.
  lemma PublishingIsSilent(s: State, l: Label, t: Tid)
    requires Enabled(s, l) && t in s.threads && s.threads[t].Publishing?
    requires t in Do(s, l).threads && Do(s, l).threads[t].Publishing?
    ensures s.trace <= Do(s, l).trace
    ensures forall j | |s.trace| <= j < |Do(s, l).trace| :: Do(s, l).trace[j].t != t
  {
    StepLogsOwn(s, l);
    if ActsFor(l, t) {
      assert l == Advance(t);
      assert Do(s, l) == DoPublish(s, t);
    }
  }

  lemma NextAnswerEarlier(s: State, s1: State, s': State, t: Tid, status: IGStatus)
    requires s.trace <= s1.trace <= s'.trace && NextAnswer(s1, s', t, status)
    requires forall j | |s.trace| <= j < |s1.trace| :: s1.trace[j].t != t
    ensures NextAnswer(s, s', t, status)
  {
    var i :| |s1.trace| <= i < |s'.trace| && s'.trace[i] == Return(t, status)
             && forall j | |s1.trace| <= j < i :: s'.trace[j].t != t;
    forall j | |s.trace| <= j < i ensures s'.trace[j].t != t {
      if j < |s1.trace| {
        assert s'.trace[j] == s1.trace[j];
      }
    }
  }

  lemma {:induction false} PublishingReturnsOk(s: State, ls: seq<Label>, t: Tid)
    requires Runs(s, ls) && t in s.threads && s.threads[t].Publishing?
    requires t in Exec(s, ls).threads && Exec(s, ls).threads[t].Idle?
    ensures NextAnswer(s, Exec(s, ls), t, StatusOk)
    decreases |ls|
  {
    var l, rest := ls[0], ls[1..];
    var s1, s' := Do(s, l), Exec(s, ls);
    CallsFinish(s, l, t);
    StepLogsOwn(s, l);
    RunExtendsTrace(s1, rest);
    if s1.threads[t].Publishing? {
      PublishingReturnsOk(s1, rest, t);
      PublishingIsSilent(s, l, t);
      NextAnswerEarlier(s, s1, s', t, StatusOk);
    } else {
      LastStore(s, l, t);
      assert s'.trace[|s.trace|] == s1.trace[|s.trace|];
    }
  }

  lemma LastStore(s: State, l: Label, t: Tid)
    requires Enabled(s, l) && t in s.threads && s.threads[t].Publishing?
    requires t in Do(s, l).threads && !Do(s, l).threads[t].Publishing?
    ensures Do(s, l).trace == s.trace + [Return(t, StatusOk)]
  {
    CallsFinish(s, l, t);
    assert l == Advance(t);
    assert Do(s, l) == DoPublish(s, t);
  }

  // ---------- Up to then nothing is touched ----------

  ghost predicate StillUntouched(s: State, s1: State, t: Tid) {
    && t in s1.threads && (Deciding(s1.threads[t]) || s1.threads[t].Idle?)
    && s1.slots == s.slots && s1.registry == s.registry && NoRegistration(s, s1, t)
  }

  lemma PlanUntouched(s: State, t: Tid, slot: Slot, data: seq<byte>, plan: Option<Layout>)
    requires t in s.threads && s.threads[t].Idle?
    ensures StillUntouched(s, Planned(s, t, slot, data, plan), t)
  {
  }

  lemma MallocUntouched(s: State, t: Tid, offer: Addr, junk: seq<byte>)
    requires Enabled(s, Malloc(t, offer, junk))
    ensures StillUntouched(s, DoMalloc(s, t, offer, junk), t)
  {
    var s1, th := DoMalloc(s, t, offer, junk), s.threads[t];
    if MallocAnswer(s.arch, s.heap, th.layout.size, offer) == NULL {
      assert s1.threads[t] == Idle && s1.trace == s.trace + [Return(t, OutOfMemory)];
    } else {
      assert s1.threads[t] == Allocated(th.slot, th.data, th.layout, offer);
      assert s1.trace == s.trace + [Alloc(t, s.nextGen, offer)];
    }
  }

  lemma RegisterUntouched(s: State, t: Tid)
    requires t in s.threads && s.threads[t].Copied?
    ensures StillUntouched(s, DoRegister(s, t), t)
            || (DoRegister(s, t).threads[t].Publishing? && DoRegister(s, t).slots == s.slots)
  {
  }

  lemma UndoUntouched(s: State, t: Tid)
    requires t in s.threads && s.threads[t].Undoing?
    ensures StillUntouched(s, DoUndo(s, t), t)
  {
  }

  lemma CopyUntouched(s: State, t: Tid)
    requires t in s.threads && s.threads[t].Allocated?
    ensures StillUntouched(s, DoCopy(s, t), t)
  {
  }

  lemma AdvanceUntouched(s: State, t: Tid)
    requires Enabled(s, Advance(t)) && Deciding(s.threads[t])
    ensures var s1 := DoAdvance(s, t);
            StillUntouched(s, s1, t) || (t in s1.threads && s1.threads[t].Publishing? && s1.slots == s.slots)
  {
    match s.threads[t]
    case Allocated(_, _, _, _) => CopyUntouched(s, t);
    case Copied(_, _, _, _) => RegisterUntouched(s, t);
    case Undoing(_, _) => UndoUntouched(s, t);
  }

  // From the first step on: unless it answers Ok, thread t touches nothing.
  lemma {:induction false} UnlessOkNothing(s: State, ls: seq<Label>, t: Tid)
    requires Runs(s, ls) && t in s.threads && (Deciding(s.threads[t]) || s.threads[t].Idle?)
    requires forall l | l in ls :: !Begins(l, t)
    requires t in Exec(s, ls).threads && Exec(s, ls).threads[t].Idle?
    requires !Since(s, Exec(s, ls), Return(t, StatusOk))
    ensures TouchesNothing(s, ls, t) && NoRegistration(s, Exec(s, ls), t)
    decreases |ls|
  {
    if ls != [] {
      var l, rest := ls[0], ls[1..];
      var s1, s' := Do(s, l), Exec(s, ls);
      CallsFinish(s, l, t);
      StepLogsOwn(s, l);
      RunExtendsTrace(s1, rest);
      assert !Begins(l, t);
      match l {
        case Malloc(u, offer, junk) => if u == t { MallocUntouched(s, t, offer, junk); }
        case Advance(u) => if u == t { AdvanceUntouched(s, t); }
        case _ =>
      }
      if s1.threads[t].Publishing? {
        PublishingReturnsOk(s1, rest, t);
        SinceEarlier(s, s1, s', Return(t, StatusOk));
      } else {
        UnlessOkNothing(s1, rest, t);
        assert NoRegistration(s, s1, t);
      }
    }
  }

  // ---------- And no block is left behind ----------

  lemma {:induction false} StoryComesFrom(trace: seq<Event>, g: Gen, p: nat) returns (i: nat)
    requires p < |Story(trace, g)|
    ensures i < |trace| && trace[i] == Story(trace, g)[p] && Concerns(trace[i], g)
  {
    var front := trace[..|trace| - 1];
    if p < |Story(front, g)| {
      i := StoryComesFrom(front, g, p);
    } else {
      i := |trace| - 1;
    }
  }

  lemma {:induction false} StoryComesInOrder(trace: seq<Event>, g: Gen, p: nat, q: nat) returns (i: nat, j: nat)
    requires p < q < |Story(trace, g)|
    ensures i < j < |trace| && trace[i] == Story(trace, g)[p] && trace[j] == Story(trace, g)[q]
    ensures Concerns(trace[i], g) && Concerns(trace[j], g)
  {
    var front := trace[..|trace| - 1];
    if q < |Story(front, g)| {
      i, j := StoryComesInOrder(front, g, p, q);
    } else {
      i := StoryComesFrom(front, g, p);
      j := |trace| - 1;
    }
  }

  // A life begins with its only allocation, so what follows in it comes after.
  lemma NextInLife(trace: seq<Event>, g: Gen, i: nat) returns (j: nat)
    requires LifeStory(Story(trace, g), g) && |Story(trace, g)| >= 2
    requires i < |trace| && trace[i].Alloc? && Concerns(trace[i], g)
    ensures i < j < |trace| && trace[j] == Story(trace, g)[1] && trace[i] == Story(trace, g)[0]
  {
    var k;
    k, j := StoryComesInOrder(trace, g, 0, 1);
    if i < k {
      var p, q := StoryKeepsOrder(trace, g, i, k);
    } else if k < i {
      var p, q := StoryKeepsOrder(trace, g, k, i);
    }
  }

  // A block in the first stage of its life is in the hands of the decode that
  // allocated it.
  lemma FreshIsHeld(s: State, t: Tid, g: Gen, a: Addr)
    requires Inv(s) && Tales(s) && Fresh(Story(s.trace, g), t, g, a)
    ensures t in s.threads && DecodeHolds(s.threads[t])
  {
    assert !Retired(s, g);
    var b :| b in s.gens && s.gens[b] == g;
    assert b in s.heap;
    if b !in s.registry {
      assert HeldBySomeone(s, b);
      var u :| u in s.threads && Holds(s.threads[u]) && s.threads[u].ptr == b;
      assert HeldStory(s, u, s.threads[u]);
    }
  }

  // A block that an idle thread allocated and never registered is one it undid.
  lemma AllocatedMeansUndone(s: State, t: Tid, i: nat)
    requires Inv(s) && Tales(s) && t in s.threads && s.threads[t].Idle?
    requires i < |s.trace| && s.trace[i].Alloc? && s.trace[i].t == t
    requires LifeStory(Story(s.trace, s.trace[i].gen), s.trace[i].gen)
    requires forall j | i < j < |s.trace| :: s.trace[j].t == t ==> !s.trace[j].Reg?
    ensures exists j :: i < j < |s.trace| && s.trace[j] == Undo(t, s.trace[i].gen, s.trace[i].ptr)
  {
    var g := s.trace[i].gen;
    var st := Story(s.trace, g);
    var p := StoryHolds(s.trace, g, i);
    if |st| == 1 {
      FreshIsHeld(s, t, g, s.trace[i].ptr);
    } else {
      var j := NextInLife(s.trace, g, i);
      assert s.trace[j] == Undo(t, g, s.trace[i].ptr);
    }
  }

  // ---------- Main result ----------

  // A decode begun at s that has returned by s' without answering Ok changed no
  // struct and no entry, and undid every block it allocated, in any run and with
  // any calls of other threads interleaved.
  lemma RefusedDecodeLeavesNoMark(s0: State, before: seq<Label>, call: Label, during: seq<Label>)
    requires Init(s0) && Runs(s0, before) && Runs(Exec(s0, before), [call] + during)
    requires call.BeginDecode? && forall l | l in during :: !Begins(l, call.t)
    requires var s, s' := Exec(s0, before), Exec(Exec(s0, before), [call] + during);
             call.t in s'.threads && s'.threads[call.t].Idle? && !Since(s, s', Return(call.t, StatusOk))
    ensures var s, s' := Exec(s0, before), Exec(Exec(s0, before), [call] + during);
            && TouchesNothing(s, [call] + during, call.t)
            && forall i | |s.trace| <= i < |s'.trace| && s'.trace[i].Alloc? && s'.trace[i].t == call.t ::
                 exists j :: i < j < |s'.trace| && s'.trace[j] == Undo(call.t, s'.trace[i].gen, s'.trace[i].ptr)
  {
    var t, s, ls := call.t, Exec(s0, before), [call] + during;
    var s1, s' := Do(s, call), Exec(s, ls);
    assert ls[0] == call && ls[1..] == during;
    RunKeepsTales(s0, before);
    RunKeepsTales(s, ls);
    PlanUntouched(s, t, call.slot, call.image.data, Plan(s.arch, call.image.width, call.image.height));
    RunExtendsTrace(s1, during);
    if Since(s1, s', Return(t, StatusOk)) {
      SinceEarlier(s, s1, s', Return(t, StatusOk));
    }
    UnlessOkNothing(s1, during, t);
    forall i | |s.trace| <= i < |s'.trace| && s'.trace[i].Alloc? && s'.trace[i].t == t
      ensures exists j :: i < j < |s'.trace| && s'.trace[j] == Undo(t, s'.trace[i].gen, s'.trace[i].ptr)
    {
      RunsInSequence(s0, before, ls);
      EveryBufferLivesOneLife(s0, before + ls, s'.trace[i].gen);
      assert NoRegistration(s, s1, t);
      AllocatedMeansUndone(s', t, i);
    }
  }
}
