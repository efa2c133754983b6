// Racing calls of the entry point: version and size checks, the host pointer,
// and four write-once cells filled in a fixed order (src/lib.rs:208-244,
// src/state.rs:134-269).
module Startup {
  import opened Abi

  type Tid = int

  const IG_PLUGIN_ABI_VERSION: int := 1_000_000

  // ---------- The checks ----------

  // Division as the language does it: toward zero.
  function TruncDiv(a: int, b: int): int
    requires b > 0
  {
    if a >= 0 then a / b else -((-a) / b)
  }

  // What the host hands in: its table's address and the size it reports.
  datatype Host = Host(ptr: Addr, structSize: int)

  predicate Accepts(version: int, host: Host, hostApiSize: int) {
    && TruncDiv(version, 1_000_000) == TruncDiv(IG_PLUGIN_ABI_VERSION, 1_000_000)
    && host.ptr != NULL
    && host.structSize >= hostApiSize
  }

  lemma AcceptedVersions(version: int)
    ensures TruncDiv(version, 1_000_000) == TruncDiv(IG_PLUGIN_ABI_VERSION, 1_000_000)
            <==> 1_000_000 <= version <= 1_999_999
  {
  }

  // A host is accepted exactly with a version of the first million, a table, and
  // a table at least as large as the plugin's own.
  lemma AcceptsIff(version: int, host: Host, hostApiSize: int)
    ensures Accepts(version, host, hostApiSize)
            <==> 1_000_000 <= version <= 1_999_999 && host.ptr != 0 && hostApiSize <= host.structSize
  {
    AcceptedVersions(version);
  }

  // ---------- The cells ----------

  // The cells in the order ensure_initialized fills them.
  const EXTENSIONS: int := 0
  const PLUGIN_STATE: int := 1
  const CAPABILITY: int := 2
  const BUFFER_REGISTRY: int := 3
  const CELLS: int := 4

  // Heap addresses of the UTF-16 buffers the plugin state owns.
  datatype Buffers = Buffers(pluginId: Addr, pluginName: Addr, pluginVersion: Addr, capName: Addr)

  datatype Value =
    | ExtensionTable
    | StateBuffers(buffers: Buffers)
    | CodecCapability(codecId: Addr, codecName: Addr, extensions: Addr)
    | EmptyRegistry

  // A OnceLock. While one caller runs the closure, the others wait.
  datatype Cell = Empty | Filling(filler: Tid) | Filled(value: Value)

  // Addresses of the tables inside the static cells.
  datatype Statics = Statics(extensionTable: Addr, pluginApi: Addr, codecApi: Addr, capability: Addr)

  // Where a caller stands: at a cell, inside a cell's closure, or done. At the
  // position past the last cell it reads the plugin state and returns.
  datatype Caller =
    | Outside
    | StoringHost(host: Addr)
    | At(cell: int)
    | Inside(cell: int)
    | Returned(api: Addr)

  // `offered` is history: the hosts whose pointer was offered to HOST_API.
  datatype State = State(
    statics: Statics,
    hostApiSize: int,
    hostApi: Option<Addr>,
    cells: seq<Cell>,
    callers: map<Tid, Caller>,
    offered: seq<Addr>)

  datatype Label =
    | Call(t: Tid, version: int, host: Host)
      // `buffers` are the addresses the allocator gives the closure's strings
    | Step(t: Tid, buffers: Buffers)

  ghost predicate Init(s: State) {
    && s.statics.extensionTable != NULL && s.statics.pluginApi != NULL
    && s.statics.codecApi != NULL && s.statics.capability != NULL
    && s.hostApi == None && s.cells == [Empty, Empty, Empty, Empty] && s.offered == []
    && forall t | t in s.callers :: s.callers[t].Outside?
  }

  predicate WellSized(s: State) {
    |s.cells| == CELLS && forall t | t in s.callers :: CallerInRange(s.callers[t])
  }

  predicate CallerInRange(c: Caller) {
    match c
    case At(cell) => 0 <= cell <= CELLS
    case Inside(cell) => 0 <= cell < CELLS
    case _ => true
  }

  // A caller waits only in front of a cell another caller is filling.
  predicate Enabled(s: State, l: Label)
    requires WellSized(s)
  {
    match l
    case Call(t, _, _) => t in s.callers && (s.callers[t].Outside? || s.callers[t].Returned?)
    case Step(t, buffers) =>
      && t in s.callers
      && !s.callers[t].Outside? && !s.callers[t].Returned?
      && (s.callers[t].At? && s.callers[t].cell < CELLS ==> !s.cells[s.callers[t].cell].Filling?)
      && buffers.pluginId != NULL && buffers.capName != NULL
  }

  function Goto(s: State, t: Tid, c: Caller): State {
    s.(callers := s.callers[t := c])
  }

  function SetCell(s: State, i: int, c: Cell): State
    requires 0 <= i < |s.cells|
  {
    s.(cells := s.cells[i := c])
  }

  // build_capability, null fallbacks included.
  function BuildCapability(cells: seq<Cell>, statics: Statics): Value
    requires |cells| == CELLS
  {
    var extensions := if cells[EXTENSIONS].Filled? then statics.extensionTable else NULL;
    match cells[PLUGIN_STATE]
    case Filled(StateBuffers(b)) => CodecCapability(b.pluginId, b.capName, extensions)
    case _ => CodecCapability(NULL, NULL, extensions)
  }

  function ClosureValue(cells: seq<Cell>, statics: Statics, i: int, buffers: Buffers): Value
    requires |cells| == CELLS
  {
    if i == EXTENSIONS then ExtensionTable
    else if i == PLUGIN_STATE then StateBuffers(buffers)
    else if i == CAPABILITY then BuildCapability(cells, statics)
    else EmptyRegistry
  }

  function DoCall(s: State, t: Tid, version: int, host: Host): State {
    Goto(s, t, if Accepts(version, host, s.hostApiSize) then StoringHost(host.ptr) else Returned(NULL))
  }

  function DoStep(s: State, t: Tid, buffers: Buffers): State
    requires WellSized(s) && Enabled(s, Step(t, buffers))
  {
    match s.callers[t]
    case StoringHost(host) =>
      // set() on a filled cell changes nothing
      Goto(s, t, At(EXTENSIONS)).(hostApi := if s.hostApi.None? then Some(host) else s.hostApi,
                                  offered := s.offered + [host])
    case At(i) =>
      if i == CELLS then Goto(s, t, Returned(if s.cells[PLUGIN_STATE].Filled? then s.statics.pluginApi else NULL))
      else if s.cells[i].Filled? then Goto(s, t, At(i + 1))
      else SetCell(Goto(s, t, Inside(i)), i, Filling(t))
    case Inside(i) => SetCell(Goto(s, t, At(i + 1)), i, Filled(ClosureValue(s.cells, s.statics, i, buffers)))
    case _ => s
  }

  function Do(s: State, l: Label): (s': State)
    requires WellSized(s) && Enabled(s, l)
    ensures WellSized(s')
  {
    match l
    case Call(t, version, host) => DoCall(s, t, version, host)
    case Step(t, buffers) => DoStep(s, t, buffers)
  }

  predicate Runs(s: State, ls: seq<Label>)
    requires WellSized(s)
    decreases |ls|
  {
    ls == [] || (Enabled(s, ls[0]) && Runs(Do(s, ls[0]), ls[1..]))
  }

  function Exec(s: State, ls: seq<Label>): (s': State)
    requires WellSized(s) && Runs(s, ls)
    ensures WellSized(s')
    decreases |ls|
  {
    if ls == [] then s else Exec(Do(s, ls[0]), ls[1..])
  }

  // ---------- The other entry points ----------

  // plugin_get_codec with a slot to write: the status and the slot's content.
  function GetCodec(cells: seq<Cell>, statics: Statics, index: int): Result<Addr, IGStatus>
    requires |cells| == CELLS
  {
    if index != 0 then Ok(NULL)
    else if cells[PLUGIN_STATE].Filled? then Ok(statics.codecApi)
    else Err(Internal)
  }

  function GetCapability(cells: seq<Cell>, statics: Statics): Result<Addr, IGStatus>
    requires |cells| == CELLS
  {
    if cells[CAPABILITY].Filled? then Ok(statics.capability) else Err(Internal)
  }

  // ---------- The invariant ----------

  // How many cells a caller has seen filled.
  function Passed(c: Caller): int {
    match c
    case At(i) => i
    case Inside(i) => i
    case Returned(api) => if api == NULL then 0 else CELLS
    case _ => 0
  }

  ghost predicate FilledUpTo(s: State, n: int) {
    forall j | 0 <= j < n && j < |s.cells| :: s.cells[j].Filled?
  }

  ghost predicate CallerOk(s: State, t: Tid, c: Caller) {
    && CallerInRange(c) && FilledUpTo(s, Passed(c))
    && (c.Inside? && |s.cells| == CELLS ==> s.cells[c.cell] == Filling(t))
    && (c.At? || c.Inside? || (c.Returned? && c.api != NULL) ==> s.hostApi.Some?)
    && (c.StoringHost? ==> c.host != NULL)
    && (c.Returned? && c.api != NULL ==> c.api == s.statics.pluginApi)
  }

  // A cell is being filled by a caller inside its closure, and only once the
  // cells before it are filled.
  ghost predicate CellOk(s: State, i: int)
    requires 0 <= i < |s.cells|
  {
    match s.cells[i]
    case Empty => true
    case Filling(u) => FilledUpTo(s, i) && u in s.callers && s.callers[u] == Inside(i)
    case Filled(v) =>
      && FilledUpTo(s, i)
      && (i == PLUGIN_STATE ==> v.StateBuffers? && v.buffers.pluginId != NULL && v.buffers.capName != NULL)
      && (i == CAPABILITY && |s.cells| == CELLS ==> v == BuildCapability(s.cells, s.statics))
  }

  ghost predicate Inv(s: State) {
    && WellSized(s)
    && s.statics.extensionTable != NULL && s.statics.pluginApi != NULL
    && (forall t | t in s.callers :: CallerOk(s, t, s.callers[t]))
    && (forall i | 0 <= i < CELLS :: CellOk(s, i))
    && s.hostApi == (if s.offered == [] then None else Some(s.offered[0]))
    && (s.hostApi.Some? ==> s.hostApi.value != NULL)
  }

  // A step that changes one caller only.
  lemma MoveKeepsInv(s: State, t: Tid, c: Caller)
    requires Inv(s) && t in s.callers && !s.callers[t].Inside? && CallerOk(s, t, c) && !c.Inside?
    ensures Inv(Goto(s, t, c))
  {
    var s' := Goto(s, t, c);
    forall u | u in s'.callers ensures CallerOk(s', u, s'.callers[u]) {
      if u != t {
        assert CallerOk(s, u, s.callers[u]);
      }
    }
    forall i | 0 <= i < CELLS ensures CellOk(s', i) {
      assert CellOk(s, i);
    }
  }

  lemma StoreKeepsInv(s: State, t: Tid, buffers: Buffers)
    requires Inv(s) && Enabled(s, Step(t, buffers)) && s.callers[t].StoringHost?
    ensures Inv(DoStep(s, t, buffers))
  {
    var s' := DoStep(s, t, buffers);
    assert CallerOk(s, t, s.callers[t]);
    forall u | u in s'.callers ensures CallerOk(s', u, s'.callers[u]) {
      if u != t {
        assert CallerOk(s, u, s.callers[u]);
      }
    }
    forall i | 0 <= i < CELLS ensures CellOk(s', i) {
      assert CellOk(s, i);
    }
  }

  lemma EnterKeepsInv(s: State, t: Tid, i: int)
    requires Inv(s) && t in s.callers && s.callers[t] == At(i) && i < CELLS && s.cells[i].Empty?
    ensures Inv(SetCell(Goto(s, t, Inside(i)), i, Filling(t)))
  {
    var s' := SetCell(Goto(s, t, Inside(i)), i, Filling(t));
    assert CallerOk(s, t, s.callers[t]);
    forall j | 0 <= j < CELLS ensures CellOk(s', j) {
      assert CellOk(s, j);
    }
    forall u | u in s'.callers ensures CallerOk(s', u, s'.callers[u]) {
      if u != t {
        assert CallerOk(s, u, s.callers[u]);
      }
    }
  }

  lemma FillKeepsInv(s: State, t: Tid, i: int, buffers: Buffers)
    requires Inv(s) && t in s.callers && s.callers[t] == Inside(i)
    requires buffers.pluginId != NULL && buffers.capName != NULL
    ensures Inv(SetCell(Goto(s, t, At(i + 1)), i, Filled(ClosureValue(s.cells, s.statics, i, buffers))))
  {
    var s' := SetCell(Goto(s, t, At(i + 1)), i, Filled(ClosureValue(s.cells, s.statics, i, buffers)));
    assert CallerOk(s, t, s.callers[t]);
    assert CellOk(s, i);
    forall j | 0 <= j < CELLS ensures CellOk(s', j) {
      assert CellOk(s, j);
    }
    forall u | u in s'.callers ensures CallerOk(s', u, s'.callers[u]) {
      if u != t {
        assert CallerOk(s, u, s.callers[u]);
      }
    }
  }

  lemma StepKeepsInv(s: State, l: Label)
    requires Inv(s) && Enabled(s, l)
    ensures Inv(Do(s, l))
  {
    assert CallerOk(s, l.t, s.callers[l.t]);
    match l
    case Call(t, version, host) =>
      MoveKeepsInv(s, t, if Accepts(version, host, s.hostApiSize) then StoringHost(host.ptr) else Returned(NULL));
    case Step(t, buffers) =>
      match s.callers[t]
      case StoringHost(_) => StoreKeepsInv(s, t, buffers);
      case Inside(i) => FillKeepsInv(s, t, i, buffers);
      case At(i) =>
        if i == CELLS {
          MoveKeepsInv(s, t, Returned(if s.cells[PLUGIN_STATE].Filled? then s.statics.pluginApi else NULL));
        } else if s.cells[i].Filled? {
          assert CellOk(s, i);
          MoveKeepsInv(s, t, At(i + 1));
        } else {
          EnterKeepsInv(s, t, i);
        }
  }

  lemma InitIsInv(s: State)
    requires Init(s)
    ensures Inv(s)
  {
  }

  lemma {:induction false} RunKeepsInv(s: State, ls: seq<Label>)
    requires Inv(s) && Runs(s, ls)
    ensures Inv(Exec(s, ls))
    decreases |ls|
  {
    if ls != [] {
      StepKeepsInv(s, ls[0]);
      RunKeepsInv(Do(s, ls[0]), ls[1..]);
    }
  }

  // ---------- Main results ----------

  // However the callers race: a filled capability rests on a filled extension
  // table and plugin state and points into them, so its null fallback is never
  // taken; and whoever got a non-null API table finds every cell filled, the
  // buffer registry included.
  lemma FilledInOrder(s0: State, ls: seq<Label>, t: Tid)
    requires Init(s0) && Runs(s0, ls)
    ensures var s := Exec(s0, ls);
            && (s.cells[CAPABILITY].Filled? ==>
                  && s.cells[EXTENSIONS].Filled?
                  && s.cells[PLUGIN_STATE].Filled? && s.cells[PLUGIN_STATE].value.StateBuffers?
                  && var b := s.cells[PLUGIN_STATE].value.buffers;
                  && s.cells[CAPABILITY].value == CodecCapability(b.pluginId, b.capName, s.statics.extensionTable)
                  && b.pluginId != NULL && b.capName != NULL && s.statics.extensionTable != NULL)
            && (t in s.callers && s.callers[t].Returned? && s.callers[t].api != NULL ==>
                  && s.callers[t].api == s.statics.pluginApi
                  && (forall i | 0 <= i < CELLS :: s.cells[i].Filled?)
                  && GetCodec(s.cells, s.statics, 0) == Ok(s.statics.codecApi)
                  && GetCapability(s.cells, s.statics) == Ok(s.statics.capability))
  {
    InitIsInv(s0);
    RunKeepsInv(s0, ls);
    var s := Exec(s0, ls);
    assert CellOk(s, CAPABILITY) && CellOk(s, PLUGIN_STATE);
    if t in s.callers {
      assert CallerOk(s, t, s.callers[t]);
    }
  }

  // What an accepted call may have come to while its caller makes no other
  // call: it is on its way, or it has returned the table.
  ghost predicate OnItsWay(c: Caller, table: Addr) {
    c.StoringHost? || c.At? || c.Inside? || c == Returned(table)
  }

  predicate IsCallBy(l: Label, t: Tid) {
    l.Call? && l.t == t
  }

  lemma {:induction false} StaysOnItsWay(s: State, ls: seq<Label>, t: Tid)
    requires Inv(s) && Runs(s, ls) && t in s.callers && OnItsWay(s.callers[t], s.statics.pluginApi)
    requires forall l | l in ls :: !IsCallBy(l, t)
    ensures var s' := Exec(s, ls);
            t in s'.callers && OnItsWay(s'.callers[t], s.statics.pluginApi)
    decreases |ls|
  {
    if ls != [] {
      assert CallerOk(s, t, s.callers[t]);
      assert !IsCallBy(ls[0], t);
      StepKeepsInv(s, ls[0]);
      StaysOnItsWay(Do(s, ls[0]), ls[1..], t);
    }
  }

  // However the callers race, a call with an accepted version and host never
  // comes to return anything but the one table.
  lemma AcceptedCallsGetTheTable(s0: State, before: seq<Label>, call: Label, after: seq<Label>)
    requires Init(s0) && Runs(s0, before) && Runs(Exec(s0, before), [call] + after)
    requires call.Call? && Accepts(call.version, call.host, s0.hostApiSize)
    requires forall l | l in after :: !IsCallBy(l, call.t)
    ensures var s' := Exec(Exec(s0, before), [call] + after);
            && call.t in s'.callers
            && OnItsWay(s'.callers[call.t], s0.statics.pluginApi) && s0.statics.pluginApi != NULL
  {
    var s := Exec(s0, before);
    assert ([call] + after)[1..] == after;
    InitIsInv(s0);
    RunKeepsInv(s0, before);
    StaticsStay(s0, before);
    StepKeepsInv(s, call);
    StaysOnItsWay(Do(s, call), after, call.t);
  }

  lemma {:induction false} StaticsStay(s: State, ls: seq<Label>)
    requires WellSized(s) && Runs(s, ls)
    ensures Exec(s, ls).statics == s.statics && Exec(s, ls).hostApiSize == s.hostApiSize
    decreases |ls|
  {
    if ls != [] {
      StaticsStay(Do(s, ls[0]), ls[1..]);
    }
  }

  // What one step may never undo.
  ghost predicate Extends(s: State, s': State) {
    && |s.cells| == |s'.cells| == CELLS && s'.statics == s.statics
    && (forall i | 0 <= i < CELLS && s.cells[i].Filled? :: s'.cells[i] == s.cells[i])
    && (s.hostApi.Some? ==> s'.hostApi == s.hostApi)
    && s.offered <= s'.offered
  }

  lemma StepExtends(s: State, l: Label)
    requires Inv(s) && Enabled(s, l)
    ensures Extends(s, Do(s, l))
  {
    assert CallerOk(s, l.t, s.callers[l.t]);
  }

  lemma {:induction false} RunExtends(s: State, ls: seq<Label>)
    requires Inv(s) && Runs(s, ls)
    ensures Extends(s, Exec(s, ls))
    decreases |ls|
  {
    if ls != [] {
      StepExtends(s, ls[0]);
      StepKeepsInv(s, ls[0]);
      RunExtends(Do(s, ls[0]), ls[1..]);
    }
  }

  // ---------- Where the host pointer comes from ----------

  // A call among ls that passed the version, null and size checks offered it.
  ghost predicate CalledWith(ls: seq<Label>, hostApiSize: int, ptr: Addr) {
    exists i :: 0 <= i < |ls| && ls[i].Call? && Accepts(ls[i].version, ls[i].host, hostApiSize)
                && ls[i].host.ptr == ptr
  }

  // Every pointer stored, offered or about to be stored came from such a call.
  ghost predicate HostsCalled(s: State, past: seq<Label>) {
    && (forall t | t in s.callers && s.callers[t].StoringHost? ::
          CalledWith(past, s.hostApiSize, s.callers[t].host))
    && (forall i | 0 <= i < |s.offered| :: CalledWith(past, s.hostApiSize, s.offered[i]))
  }

  lemma CalledBefore(past: seq<Label>, l: Label, hostApiSize: int, ptr: Addr)
    requires CalledWith(past, hostApiSize, ptr)
    ensures CalledWith(past + [l], hostApiSize, ptr)
  {
    var i :| 0 <= i < |past| && past[i].Call? && Accepts(past[i].version, past[i].host, hostApiSize)
             && past[i].host.ptr == ptr;
    assert (past + [l])[i] == past[i];
  }

  lemma StepKeepsHostsCalled(s: State, past: seq<Label>, l: Label)
    requires WellSized(s) && Enabled(s, l) && HostsCalled(s, past)
    ensures HostsCalled(Do(s, l), past + [l])
  {
    var s', now := Do(s, l), past + [l];
    forall t | t in s'.callers && s'.callers[t].StoringHost?
      ensures CalledWith(now, s.hostApiSize, s'.callers[t].host)
    {
      if t == l.t {
        assert now[|past|] == l;
      } else {
        CalledBefore(past, l, s.hostApiSize, s.callers[t].host);
      }
    }
    forall i | 0 <= i < |s'.offered| ensures CalledWith(now, s.hostApiSize, s'.offered[i]) {
      if i < |s.offered| {
        CalledBefore(past, l, s.hostApiSize, s.offered[i]);
      } else {
        CalledBefore(past, l, s.hostApiSize, s.callers[l.t].host);
      }
    }
  }

  lemma {:induction false} RunKeepsHostsCalled(s: State, past: seq<Label>, ls: seq<Label>)
    requires WellSized(s) && Runs(s, ls) && HostsCalled(s, past)
    ensures HostsCalled(Exec(s, ls), past + ls)
    decreases |ls|
  {
    if ls == [] {
      assert past + ls == past;
    } else {
      StepKeepsHostsCalled(s, past, ls[0]);
      RunKeepsHostsCalled(Do(s, ls[0]), past + [ls[0]], ls[1..]);
      assert past + [ls[0]] + ls[1..] == past + ls;
    }
  }

  // Write-once: whatever happens later, filled cells keep their value, and the
  // host pointer is one that a call offered after passing the checks, the first
  // to reach the cell; get_codec and get_capability, once they answer Ok, answer
  // the same forever.
  lemma WriteOnce(s0: State, before: seq<Label>, after: seq<Label>)
    requires Init(s0) && Runs(s0, before) && Runs(Exec(s0, before), after)
    ensures var s, s' := Exec(s0, before), Exec(Exec(s0, before), after);
            && (forall i | 0 <= i < CELLS && s.cells[i].Filled? :: s'.cells[i] == s.cells[i])
            && (s.hostApi.Some? <==> s.offered != [])
            && (s.hostApi.Some? ==>
                  && s.hostApi == s'.hostApi == Some(s.offered[0]) && s.hostApi.value != NULL
                  && CalledWith(before, s0.hostApiSize, s.hostApi.value))
            && (forall index :: GetCodec(s.cells, s.statics, index).Ok? ==>
                  GetCodec(s'.cells, s'.statics, index) == GetCodec(s.cells, s.statics, index))
            && (GetCapability(s.cells, s.statics).Ok? ==>
                  GetCapability(s'.cells, s'.statics) == GetCapability(s.cells, s.statics))
  {
    InitIsInv(s0);
    RunKeepsInv(s0, before);
    RunExtends(Exec(s0, before), after);
    RunKeepsHostsCalled(s0, [], before);
    StaticsStay(s0, before);
    assert [] + before == before;
  }

  // No deadlock: while any call is unfinished, some caller can step.
  lemma SomeoneCanStep(s0: State, ls: seq<Label>, t: Tid)
    requires Init(s0) && Runs(s0, ls)
    requires var s := Exec(s0, ls); t in s.callers && !s.callers[t].Outside? && !s.callers[t].Returned?
    ensures exists u, buffers :: Enabled(Exec(s0, ls), Step(u, buffers))
  {
    InitIsInv(s0);
    RunKeepsInv(s0, ls);
    var s := Exec(s0, ls);
    var buffers := Buffers(1, 1, 1, 1);
    var c := s.callers[t];
    assert CallerOk(s, t, c);
    if c.At? && c.cell < CELLS && s.cells[c.cell].Filling? {
      assert CellOk(s, c.cell);
      assert Enabled(s, Step(s.cells[c.cell].filler, buffers));
    } else {
      assert Enabled(s, Step(t, buffers));
    }
  }

  // ---------- A call that nobody interrupts ----------

  // The cells once every empty one from i on has been filled, in order.
  function FillFrom(cells: seq<Cell>, statics: Statics, buffers: Buffers, i: nat): (filled: seq<Cell>)
    requires |cells| == CELLS && i <= CELLS
    ensures |filled| == CELLS
    decreases CELLS - i
  {
    if i == CELLS then cells
    else if cells[i].Filled? then FillFrom(cells, statics, buffers, i + 1)
    else FillFrom(cells[i := Filled(ClosureValue(cells, statics, i, buffers))], statics, buffers, i + 1)
  }

  ghost predicate OwnRun(s: State, s': State, t: Tid, ls: seq<Label>)
    requires WellSized(s)
  {
    (forall l | l in ls :: l.t == t) && Runs(s, ls) && Exec(s, ls) == s'
  }

  // s' is reached from s by steps of caller t alone, which touch no other caller.
  ghost predicate Leads(s: State, s': State, t: Tid)
    requires WellSized(s)
  {
    && (exists ls :: OwnRun(s, s', t, ls))
    && s'.statics == s.statics && t in s'.callers && s'.callers == s.callers[t := s'.callers[t]]
  }

  lemma StepFirst(s: State, l: Label, s': State, t: Tid)
    requires WellSized(s) && Enabled(s, l) && l.t == t && Leads(Do(s, l), s', t)
    ensures Leads(s, s', t)
  {
    var ls :| OwnRun(Do(s, l), s', t, ls);
    assert ([l] + ls)[1..] == ls;
    assert OwnRun(s, s', t, [l] + ls);
  }

  lemma {:induction false} SoloFill(s: State, t: Tid, buffers: Buffers) returns (s': State)
    requires Inv(s) && t in s.callers && s.callers[t].At?
    requires buffers.pluginId != NULL && buffers.capName != NULL
    requires forall i | 0 <= i < CELLS :: !s.cells[i].Filling?
    ensures Leads(s, s', t) && s'.callers[t] == Returned(s.statics.pluginApi)
    ensures s'.hostApi == s.hostApi && s'.cells == FillFrom(s.cells, s.statics, buffers, s.callers[t].cell)
    decreases CELLS - s.callers[t].cell
  {
    assert CallerOk(s, t, s.callers[t]);
    var i := s.callers[t].cell;
    var step := Step(t, buffers);
    var s1 := Do(s, step);
    StepKeepsInv(s, step);
    if i == CELLS {
      s' := s1;
      assert OwnRun(s1, s1, t, []);
      assert s1.cells[PLUGIN_STATE].Filled?;
    } else if s.cells[i].Filled? {
      s' := SoloFill(s1, t, buffers);
    } else {
      var s2 := Do(s1, step);
      StepKeepsInv(s1, step);
      var filled := s.cells[i := Filled(ClosureValue(s.cells, s.statics, i, buffers))];
      assert ClosureValue(s1.cells, s1.statics, i, buffers) == ClosureValue(s.cells, s.statics, i, buffers) by {
        if i == CAPABILITY {
          assert s1.cells[EXTENSIONS] == s.cells[EXTENSIONS] && s1.cells[PLUGIN_STATE] == s.cells[PLUGIN_STATE];
        }
      }
      assert s2.cells == filled;
      s' := SoloFill(s2, t, buffers);
      StepFirst(s1, step, s', t);
    }
    StepFirst(s, step, s', t);
  }

  // A caller that runs alone through an accepted call gets the table, stores
  // its host pointer if it is the first, and leaves all cells filled.
  lemma SoloCall(s: State, t: Tid, version: int, host: Host, buffers: Buffers) returns (s': State)
    requires Inv(s) && t in s.callers && (s.callers[t].Outside? || s.callers[t].Returned?)
    requires buffers.pluginId != NULL && buffers.capName != NULL
    requires forall i | 0 <= i < CELLS :: !s.cells[i].Filling?
    ensures Leads(s, s', t)
    ensures if Accepts(version, host, s.hostApiSize) then
              && s'.callers[t] == Returned(s.statics.pluginApi)
              && s'.hostApi == (if s.hostApi.Some? then s.hostApi else Some(host.ptr))
              && s'.cells == FillFrom(s.cells, s.statics, buffers, EXTENSIONS)
            else
              s'.callers[t] == Returned(NULL) && s'.hostApi == s.hostApi && s'.cells == s.cells
  {
    var call := Call(t, version, host);
    var s1 := Do(s, call);
    StepKeepsInv(s, call);
    if Accepts(version, host, s.hostApiSize) {
      var step := Step(t, buffers);
      var s2 := Do(s1, step);
      StepKeepsInv(s1, step);
      s' := SoloFill(s2, t, buffers);
      StepFirst(s1, step, s', t);
    } else {
      s' := s1;
      assert OwnRun(s1, s1, t, []);
    }
    StepFirst(s, call, s', t);
  }
}
