// The entry point and its statics as one thread updates them
// (src/lib.rs:87-113, src/lib.rs:208-244, src/state.rs:134-221,
// src/codec.rs:34-55).
module EntryPoint {
  import opened Abi
  import opened FileIo
  import opened Registry
  import opened Startup

  // A pointer-sized slot the host lets the plugin write.
  class Slot {
    var pointer: Addr

    constructor (pointer: Addr)
      ensures this.pointer == pointer
    {
      this.pointer := pointer;
    }
  }

  class PluginStatics {
    const statics: Statics
    const hostApiSize: int
    var hostApi: Option<Addr>
    var extensions: Option<Value>
    var pluginState: Option<Buffers>
    var capability: Option<Value>
    var bufferRegistry: Option<BufferRegistry>

    constructor (statics: Statics, hostApiSize: int)
      ensures this.statics == statics && this.hostApiSize == hostApiSize
      ensures hostApi.None? && Cells() == [Empty, Empty, Empty, Empty]
    {
      this.statics, this.hostApiSize := statics, hostApiSize;
      hostApi, extensions, pluginState, capability, bufferRegistry := None, None, None, None, None;
    }

    // The four cells as the concurrent model sees them.
    function Cells(): (cells: seq<Cell>)
      reads this
      ensures |cells| == CELLS
    {
      [if extensions.Some? then Filled(extensions.value) else Empty,
       if pluginState.Some? then Filled(StateBuffers(pluginState.value)) else Empty,
       if capability.Some? then Filled(capability.value) else Empty,
       if bufferRegistry.Some? then Filled(EmptyRegistry) else Empty]
    }

    // Filled cells keep their value and their identity; empty ones are filled
    // in the fixed order; a new registry tracks nothing.
    method EnsureInitialized(buffers: Buffers)
      modifies this
      ensures Cells() == FillFrom(old(Cells()), statics, buffers, EXTENSIONS)
      ensures hostApi == old(hostApi)
      ensures extensions.Some? && pluginState.Some? && capability.Some? && bufferRegistry.Some?
      ensures old(pluginState).Some? ==> pluginState == old(pluginState)
      ensures old(capability).Some? ==> capability == old(capability)
      ensures old(capability).None? ==>
                capability == Some(CodecCapability(pluginState.value.pluginId, pluginState.value.capName,
                                                   statics.extensionTable))
      ensures old(bufferRegistry).Some? ==> bufferRegistry == old(bufferRegistry)
      ensures old(bufferRegistry).None? ==> fresh(bufferRegistry.value) && bufferRegistry.value.entries == map[]
    {
      ghost var cells0 := Cells();
      if extensions.None? {
        extensions := Some(ExtensionTable);
      }
      ghost var cells1 := Cells();
      if pluginState.None? {
        pluginState := Some(buffers);
      }
      ghost var cells2 := Cells();
      if capability.None? {
        var state := pluginState;
        var table := if extensions.Some? then statics.extensionTable else NULL;
        capability := Some(match state
                           case Some(b) => CodecCapability(b.pluginId, b.capName, table)
                           case None => CodecCapability(NULL, NULL, table));
      }
      ghost var cells3 := Cells();
      if bufferRegistry.None? {
        var registry := new BufferRegistry();
        bufferRegistry := Some(registry);
      }
      assert FillFrom(cells0, statics, buffers, 0) == FillFrom(cells1, statics, buffers, 1) by {
        assert cells0[0].Empty? ==> cells1 == cells0[0 := Filled(ExtensionTable)];
      }
      assert FillFrom(cells1, statics, buffers, 1) == FillFrom(cells2, statics, buffers, 2) by {
        assert cells1[1].Empty? ==> cells2 == cells1[1 := Filled(StateBuffers(buffers))];
      }
      assert FillFrom(cells2, statics, buffers, 2) == FillFrom(cells3, statics, buffers, 3) by {
        assert cells2[2].Empty? ==> cells3 == cells2[2 := Filled(BuildCapability(cells2, statics))];
      }
      assert FillFrom(cells3, statics, buffers, 3) == FillFrom(Cells(), statics, buffers, 4) by {
        assert cells3[3].Empty? ==> Cells() == cells3[3 := Filled(EmptyRegistry)];
      }
    }

    // Null for a refused host, which changes nothing; otherwise the one table,
    // with everything initialised and the first host pointer kept.
    method GetApi(version: int, host: Host, buffers: Buffers) returns (api: Addr)
      modifies this
      ensures 1_000_000 <= version <= 1_999_999 && host.ptr != 0 && hostApiSize <= host.structSize ==>
                && api == statics.pluginApi
                && hostApi == (if old(hostApi).Some? then old(hostApi) else Some(host.ptr))
                && Cells() == FillFrom(old(Cells()), statics, buffers, EXTENSIONS)
                && bufferRegistry.Some?
                && (old(bufferRegistry).Some? ==> bufferRegistry == old(bufferRegistry))
      ensures !(1_000_000 <= version <= 1_999_999 && host.ptr != 0 && hostApiSize <= host.structSize) ==>
                api == 0 && unchanged(this)
    {
      AcceptsIff(version, host, hostApiSize);
      if TruncDiv(version, 1_000_000) != TruncDiv(IG_PLUGIN_ABI_VERSION, 1_000_000) {
        return NULL;
      }
      if host.ptr == NULL {
        return NULL;
      }
      if host.structSize < hostApiSize {
        return NULL;
      }
      if hostApi.None? {
        hostApi := Some(host.ptr);
      }
      EnsureInitialized(buffers);
      api := if pluginState.Some? then statics.pluginApi else NULL;
    }

    // The answer and the slot are those of the concurrent model's read of the
    // same cells; an error leaves the slot alone.
    method GetCodec(index: int, slot: Slot?) returns (status: IGStatus)
      modifies slot
      ensures slot == null ==> status == InvalidArg
      ensures slot != null && index != 0 ==> status == StatusOk && slot.pointer == 0
      ensures slot != null && index == 0 ==>
                if pluginState.Some? then status == StatusOk && slot.pointer == statics.codecApi
                else status == Internal && slot.pointer == old(slot.pointer)
      ensures slot != null ==>
                var answer := Startup.GetCodec(Cells(), statics, index);
                && status == StatusOf(answer)
                && slot.pointer == (if answer.Ok? then answer.value else old(slot.pointer))
    {
      if slot == null {
        return InvalidArg;
      }
      if index != 0 {
        slot.pointer := NULL;
        return StatusOk;
      }
      if pluginState.None? {
        return Internal;
      }
      slot.pointer := statics.codecApi;
      return StatusOk;
    }

    method GetCapability(slot: Slot?) returns (status: IGStatus)
      modifies slot
      ensures slot == null ==> status == InvalidArg
      ensures slot != null ==>
                if capability.Some? then status == StatusOk && slot.pointer == statics.capability
                else status == Internal && slot.pointer == old(slot.pointer)
      ensures slot != null ==>
                var answer := Startup.GetCapability(Cells(), statics);
                && status == StatusOf(answer)
                && slot.pointer == (if answer.Ok? then answer.value else old(slot.pointer))
    {
      if slot == null {
        return InvalidArg;
      }
      if capability.None? {
        return Internal;
      }
      slot.pointer := statics.capability;
      return StatusOk;
    }
  }
}
