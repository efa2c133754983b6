// The table of pixel buffers the host may free (src/buffer_registry.rs).
module Registry {
  import opened Abi

  datatype BufferEntry = BufferEntry(ptr: Addr, size: nat, freed: bool)

  type Entries = map<Addr, BufferEntry>

  // What `register` answers. A poisoned mutex is reported before the table is
  // looked at.
  function RegisterAnswer(entries: Entries, poisoned: bool, data: Addr): Result<(), IGStatus> {
    if poisoned then Err(Internal)
    else if data in entries then Err(InvalidArg)
    else Ok(())
  }

  function AfterRegister(entries: Entries, poisoned: bool, data: Addr, size: nat): Entries {
    if RegisterAnswer(entries, poisoned, data).Ok?
    then entries[data := BufferEntry(data, size, false)]
    else entries
  }

  function UnregisterAnswer(entries: Entries, poisoned: bool, data: Addr): Result<BufferEntry, IGStatus> {
    if poisoned then Err(Internal)
    else if data in entries then Ok(entries[data])
    else Err(InvalidArg)
  }

  function AfterUnregister(entries: Entries, poisoned: bool, data: Addr): Entries {
    if poisoned then entries else entries - {data}
  }

  // Registering and then unregistering gives the entry back and restores the
  // table; a second unregister is refused.
  lemma RegisterThenUnregister(entries: Entries, data: Addr, size: nat)
    requires data !in entries
    ensures var during := AfterRegister(entries, false, data, size);
            && UnregisterAnswer(during, false, data) == Ok(BufferEntry(data, size, false))
            && AfterUnregister(during, false, data) == entries
            && UnregisterAnswer(AfterUnregister(during, false, data), false, data) == Err(InvalidArg)
            && RegisterAnswer(during, false, data) == Err(InvalidArg)
    ensures RegisterAnswer(entries, false, data) == Ok(())
  {
    assert entries[data := BufferEntry(data, size, false)] - {data} == entries;
  }

  // Behind a poisoned mutex every update is refused as an internal error, tracked
  // or not, and the table stays as it is.
  lemma PoisonRefusesAll(entries: Entries, data: Addr, size: nat)
    ensures RegisterAnswer(entries, true, data) == Err(Internal)
    ensures UnregisterAnswer(entries, true, data) == Err(Internal)
    ensures AfterRegister(entries, true, data, size) == AfterUnregister(entries, true, data) == entries
  {
  }

  lemma EmptyTracksNothing(entries: Entries)
    ensures entries == map[] <==> forall data :: UnregisterAnswer(entries, false, data) == Err(InvalidArg)
  {
    if forall data :: UnregisterAnswer(entries, false, data) == Err(InvalidArg) {
      forall data ensures data !in entries {
        assert UnregisterAnswer(entries, false, data) == Err(InvalidArg);
      }
      assert entries.Keys == {};
    }
  }

  class BufferRegistry {
    var entries: Entries
    var poisoned: bool

    constructor ()
      ensures entries == map[] && !poisoned
    {
      entries := map[];
      poisoned := false;
    }

    method Register(data: Addr, size: nat) returns (answer: Result<(), IGStatus>)
      modifies this`entries
      ensures answer == RegisterAnswer(old(entries), poisoned, data)
      ensures poisoned ==> answer == Err(Internal)
      ensures !poisoned && data in old(entries) ==> answer == Err(InvalidArg)
      ensures !poisoned && data !in old(entries) ==> answer == Ok(())
      ensures answer.Ok? ==> entries == old(entries)[data := BufferEntry(data, size, false)]
      ensures answer.Err? ==> entries == old(entries)
    {
      if poisoned {
        return Err(Internal);
      }
      if data in entries {
        return Err(InvalidArg);
      }
      entries := entries[data := BufferEntry(data, size, false)];
      return Ok(());
    }

    method Unregister(data: Addr) returns (answer: Result<BufferEntry, IGStatus>)
      modifies this`entries
      ensures answer == UnregisterAnswer(old(entries), poisoned, data)
      ensures poisoned ==> answer == Err(Internal)
      ensures !poisoned && data !in old(entries) ==> answer == Err(InvalidArg)
      ensures !poisoned && data in old(entries) ==> answer == Ok(old(entries)[data])
      ensures answer.Ok? ==> entries == old(entries) - {data} && |entries| == |old(entries)| - 1
      ensures answer.Err? ==> entries == old(entries)
    {
      if poisoned {
        return Err(Internal);
      }
      if data !in entries {
        return Err(InvalidArg);
      }
      answer := Ok(entries[data]);
      assert entries.Keys == (entries - {data}).Keys + {data};
      entries := entries - {data};
    }

    // The three reads recover the table even when the mutex is poisoned: they
    // tell what the two updates would answer on a sound one.

    method Contains(data: Addr) returns (found: bool)
      ensures found <==> UnregisterAnswer(entries, false, data).Ok?
      ensures found <==> RegisterAnswer(entries, false, data) == Err(InvalidArg)
    {
      found := data in entries;
    }

    method Len() returns (count: nat)
      ensures count == |entries.Keys|
    {
      count := |entries|;
      assert |entries| == |entries.Keys|;
    }

    method IsEmpty() returns (empty: bool)
      ensures empty <==> forall data :: UnregisterAnswer(entries, false, data) == Err(InvalidArg)
    {
      empty := entries == map[];
      EmptyTracksNothing(entries);
    }
  }
}
