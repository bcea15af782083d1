/**
 * The A/B configuration adapter: stage a record in the inactive slot, verify
 * it, move the head, discard what is retired, migrate the legacy namespace,
 * and reset behind a durable tombstone.
 */
module ConfigStore {
  import opened Common
  import opened ConfigRecord
  import opened Nvs

  datatype Activation = Indeterminate | Committed | NotCommitted

  /** Only one namespace differs. */
  ghost predicate OnlyNs(d0: Durable, d: Durable, ns: Namespace) { d == d0.With(ns, d.At(ns)) }

  /** Every durable state added since `h0` differs from `d0` in one namespace only. */
  ghost predicate Within(h0: seq<Durable>, h: seq<Durable>, d0: Durable, ns: Namespace) {
    h0 <= h && forall i :: |h0| <= i < |h| ==> OnlyNs(d0, h[i], ns)
  }

  predicate ValidSuccessor(candidate: Record, expectedSlot: Slot, expectedRevision: U32) {
    || (expectedSlot == Legacy && candidate.slot == SlotA && candidate.revision == 1 && expectedRevision == 1)
    || (expectedSlot != Legacy && candidate.slot != expectedSlot && expectedRevision != U32_MAX &&
        candidate.revision == expectedRevision + 1)
  }

  predicate ExpectedHead(d: Durable, expectedSlot: Slot, expectedRevision: U32) {
    if expectedSlot == Legacy then Head !in d.meta
    else Head in d.meta && d.meta[Head] == U64v(EncodeHead(expectedSlot, expectedRevision))
  }

  function AfterCommit(d: Durable, candidate: Record): Durable {
    d.(meta := d.meta[Head := U64v(EncodeHead(candidate.slot, candidate.revision))])
  }

  class Store {
    const flash: Flash
    var storageLocked: bool
    var lifecycleLocked: bool

    constructor (flash: Flash)
      ensures this.flash == flash && !storageLocked && !lifecycleLocked
    {
      this.flash := flash;
      storageLocked, lifecycleLocked := false, false;
    }

    method ReadHead() returns (ret: Err, head: U64)
      requires flash.Valid()
      modifies flash`faults
      ensures flash.Valid() && flash.faults >= old(flash.faults)
      ensures ret in {Ok, NotFound, Io} && (ret == Io ==> flash.faults > old(flash.faults))
      ensures ret == Ok ==> Head in flash.d.meta && flash.d.meta[Head] == U64v(head) && DecodeHead(head).Some?
      ensures ret == NotFound ==> Head !in flash.d.meta
    {
      head := 0;
      ret := flash.OpenRead(MetaNs);
      if ret != Ok { return; }
      var value;
      ret, value := flash.Get(MetaNs, Head);
      if ret == Ok { head := value.q; }
    }

    method ResetIsPending() returns (ret: Err, pending: bool)
      requires flash.Valid()
      modifies flash`faults
      ensures flash.Valid() && flash.faults >= old(flash.faults)
      ensures ret in {Ok, Io} && (ret == Io ==> flash.faults > old(flash.faults))
      ensures ret == Ok ==> pending == Pending(flash.d)
    {
      pending := false;
      ret := flash.OpenRead(MetaNs);
      if ret == NotFound { return Ok, false; }
      if ret != Ok { return; }
      var value;
      ret, value := flash.Get(MetaNs, Reset);
      if ret == NotFound { return Ok, false; }
      if ret == Ok { pending := value.b != 0; }
    }

    method LoadSlotRecord(slot: Slot) returns (ret: Err, record: Option<Record>)
      requires flash.Valid() && slot != Legacy
      modifies flash`faults
      ensures flash.Valid() && flash.faults >= old(flash.faults)
      ensures ret == Ok ==> record.Some? && Decode(flash.rules, flash.d.At(SlotNs(slot)), slot) == record
      ensures ret != Ok ==> record.None? && ret != InvalidArg
      ensures ret != Ok ==>
        flash.faults > old(flash.faults) || Decode(flash.rules, flash.d.At(SlotNs(slot)), slot).None?
    {
      hide Decode, Inv, Chain, ReadUpTo;
      var ns := SlotNs(slot);
      record := None;
      ret := flash.OpenRead(ns);
      if ret != Ok {
        MissingKey(flash.rules, flash.d.At(ns), slot, Layout);
        return;
      }
      var fields: Space := map[];
      NothingRead(flash.d.At(ns));
      var i := 0;
      while i < |RECORD_KEYS|
        invariant 0 <= i <= |RECORD_KEYS|
        invariant flash.Valid() && flash.faults >= old(flash.faults)
        invariant ReadUpTo(fields, flash.d.At(ns), i)
      {
        var value;
        ret, value := flash.Get(ns, RECORD_KEYS[i]);
        if ret != Ok {
          KeyLists(RECORD_KEYS[i]);
          MissingKey(flash.rules, flash.d.At(ns), slot, RECORD_KEYS[i]);
          return;
        }
        OneMoreRead(fields, flash.d.At(ns), i);
        fields := fields[RECORD_KEYS[i] := value];
        i := i + 1;
      }
      AllKeysRead(flash.rules, fields, flash.d.At(ns), slot);
      record := Decode(flash.rules, fields, slot);
      ret := if record.Some? then Ok else InvalidState;
    }

    /** A read-back that finds exactly the expected record. */
    method VerifyRecord(slot: Slot, expected: Record) returns (ret: Err)
      requires flash.Valid()
      modifies flash`faults
      ensures flash.Valid() && flash.faults >= old(flash.faults)
      ensures ret == InvalidArg <==> slot == Legacy || expected.slot != slot
      ensures ret == Ok ==> Decode(flash.rules, flash.d.At(SlotNs(slot)), slot) == Some(expected)
      ensures ret !in {Ok, InvalidArg} && flash.faults == old(flash.faults) ==>
        Decode(flash.rules, flash.d.At(SlotNs(slot)), slot) != Some(expected)
    {
      hide Decode, Inv, Chain;
      if slot == Legacy || expected.slot != slot { return InvalidArg; }
      var actual;
      ret, actual := LoadSlotRecord(slot);
      if ret == Ok && actual.value != expected { ret := InvalidState; }
    }

    /** Writes the 20 fields of a record in order, stopping at the first failure. */
    method WriteRecordFields(record: Record) returns (ret: Err)
      requires flash.Valid() && record.slot != Legacy && !HeadNames(flash.d, record.slot)
      modifies flash`d, flash`history, flash`faults
      ensures flash.Valid() && flash.faults >= old(flash.faults)
      ensures ret == Ok || (ret == Io && flash.faults > old(flash.faults))
      ensures ret == Ok ==> Holds(flash.d.At(SlotNs(record.slot)), record)
      ensures Within(old(flash.history), flash.history, old(flash.d), SlotNs(record.slot))
      ensures OnlyNs(old(flash.d), flash.d, SlotNs(record.slot))
    {
      hide Decode, Inv, Chain, Allowed;
      var ns := SlotNs(record.slot);
      ghost var d0, h0 := flash.d, flash.history;
      ret := Ok;
      var i := 0;
      while i < |RECORD_KEYS| && ret == Ok
        invariant 0 <= i <= |RECORD_KEYS|
        invariant flash.Valid() && flash.faults >= old(flash.faults)
        invariant ret == Ok || (ret == Io && flash.faults > old(flash.faults))
        invariant Within(h0, flash.history, d0, ns) && OnlyNs(d0, flash.d, ns)
        invariant ret == Ok ==> WrittenUpTo(flash.d.At(ns), record, i)
      {
        var k := RECORD_KEYS[i];
        KeyLists(k);
        SlotWriteAllowed(flash.rules, d0, flash.d, record.slot, k, FieldValue(record, k));
        OneMoreWritten(flash.d.At(ns), record, i);
        ret := flash.Set(ns, k, FieldValue(record, k));
        i := i + 1;
      }
      if ret == Ok { AllWritten(flash.d.At(ns), record); }
    }

    /** Puts a whole record in a slot the head does not name; success means a read-back found exactly it. */
    method StageRecord(slot: Slot, record: Record) returns (ret: Err)
      requires flash.Valid()
      modifies this`storageLocked, flash`d, flash`history, flash`faults
      ensures flash.Valid() && flash.faults >= old(flash.faults) && storageLocked == old(storageLocked)
      ensures ret == Ok ==>
        && slot != Legacy && !old(storageLocked) && !HeadNames(old(flash.d), slot)
        && Decode(flash.rules, flash.d.At(SlotNs(slot)), slot) == Some(record)
      ensures Within(old(flash.history), flash.history, old(flash.d), SlotNs(slot))
      ensures OnlyNs(old(flash.d), flash.d, SlotNs(slot))
      ensures slot == Legacy || HeadNames(old(flash.d), slot) ==> flash.d == old(flash.d) && flash.history == old(flash.history)
      ensures (flash.faults == old(flash.faults) && slot != Legacy && record.slot == slot &&
               RecordValid(flash.rules, record) && !old(storageLocked) && !HeadNames(old(flash.d), slot)) ==> ret == Ok
    {
      hide Decode, Inv, Chain;
      if slot == Legacy || record.slot != slot || !RecordValid(flash.rules, record) { return InvalidArg; }
      if storageLocked { return InvalidState; }
      storageLocked := true;
      var head;
      ret, head := ReadHead();
      if ret == Ok {
        var id := DecodeHead(head);
        if id.None? || id.value.slot == slot {
          storageLocked := false;
          return InvalidState;
        }
      } else if ret != NotFound {
        storageLocked := false;
        return;
      }
      ret := RewriteSlot(record);
      var verify := VerifyRecord(slot, record);
      storageLocked := false;
      if verify == Ok { ret := Ok; } else if ret == Ok { ret := verify; }
    }

    /** Erases the slot, writes every field and commits. */
    method RewriteSlot(record: Record) returns (ret: Err)
      requires flash.Valid() && RecordValid(flash.rules, record)
      requires record.slot != Legacy && !HeadNames(flash.d, record.slot)
      modifies flash`d, flash`history, flash`faults
      ensures flash.Valid() && flash.faults >= old(flash.faults)
      ensures ret == Ok || flash.faults > old(flash.faults)
      ensures ret == Ok ==> Decode(flash.rules, flash.d.At(SlotNs(record.slot)), record.slot) == Some(record)
      ensures Within(old(flash.history), flash.history, old(flash.d), SlotNs(record.slot))
      ensures OnlyNs(old(flash.d), flash.d, SlotNs(record.slot))
    {
      hide Decode, Inv, Chain, Allowed, Holds, Sub;
      var ns := SlotNs(record.slot);
      ret := flash.OpenWrite(ns);
      if ret == Ok { ret := flash.EraseAll(ns); }
      if ret == Ok {
        assert HeadOf(flash.d) == HeadOf(old(flash.d));
        ret := WriteRecordFields(record);
        if ret == Ok { DecodeEncode(flash.rules, flash.d.At(ns), record); }
      }
      if ret == Ok { ret := flash.Commit(); }
    }

    /** Moves the head by compare-and-set and says which head is durable, if a read-back can prove it. */
    method ActivateRecord(candidate: Record, expectedSlot: Slot, expectedRevision: U32) returns (result: Activation)
      requires flash.Valid()
      modifies this`storageLocked, flash`d, flash`history, flash`faults
      ensures flash.Valid() && flash.faults >= old(flash.faults) && storageLocked == old(storageLocked)
      ensures result == NotCommitted ==> flash.d == old(flash.d)
      ensures result == Committed ==> flash.d == AfterCommit(old(flash.d), candidate)
      ensures flash.d == old(flash.d) || flash.d == AfterCommit(old(flash.d), candidate)
      ensures old(flash.history) <= flash.history
      ensures forall i :: |old(flash.history)| <= i < |flash.history| ==> flash.history[i] == flash.d
      ensures (candidate.slot != Legacy && candidate.revision != 0 && expectedRevision != 0 &&
               !ValidSuccessor(candidate, expectedSlot, expectedRevision)) ==> result == NotCommitted
      ensures flash.d != old(flash.d) || result == Committed ==>
        && !old(storageLocked) && candidate.slot != Legacy
        && ValidSuccessor(candidate, expectedSlot, expectedRevision)
        && ExpectedHead(old(flash.d), expectedSlot, expectedRevision)
        && Decode(flash.rules, old(flash.d).At(SlotNs(candidate.slot)), candidate.slot) == Some(candidate)
      ensures (flash.faults == old(flash.faults) && !old(storageLocked) && candidate.slot != Legacy &&
               ValidSuccessor(candidate, expectedSlot, expectedRevision) &&
               ExpectedHead(old(flash.d), expectedSlot, expectedRevision) &&
               Decode(flash.rules, old(flash.d).At(SlotNs(candidate.slot)), candidate.slot) == Some(candidate))
        ==> result == Committed
    {
      if candidate.slot == Legacy || candidate.revision == 0 || expectedRevision == 0 { return Indeterminate; }
      if !ValidSuccessor(candidate, expectedSlot, expectedRevision) || storageLocked { return NotCommitted; }
      storageLocked := true;
      var targetRet, target := LoadSlotRecord(candidate.slot);
      if targetRet != Ok || target.value != candidate {
        storageLocked := false;
        return NotCommitted;
      }
      var newHead := EncodeHead(candidate.slot, candidate.revision);
      var previousRet, previous := ReadHead();
      if previousRet != Ok && previousRet != NotFound {
        storageLocked := false;
        return Indeterminate;
      }
      if !((expectedSlot == Legacy && previousRet == NotFound) ||
           (expectedSlot != Legacy && previousRet == Ok && previous == EncodeHead(expectedSlot, expectedRevision))) {
        storageLocked := false;
        return NotCommitted;
      }
      CommitAllowed(flash.rules, flash.d, candidate, expectedSlot, expectedRevision);
      result := CommitHead(candidate, newHead, previousRet, previous);
      storageLocked := false;
    }

    method CommitHead(candidate: Record, newHead: U64, previousRet: Err, previous: U64) returns (result: Activation)
      requires flash.Valid() && Allowed(flash.rules, flash.d, AfterCommit(flash.d, candidate))
      requires newHead == EncodeHead(candidate.slot, candidate.revision)
      requires previousRet in {Ok, NotFound}
      requires previousRet == Ok ==> Head in flash.d.meta && flash.d.meta[Head] == U64v(previous) && previous != newHead
      requires previousRet == NotFound ==> Head !in flash.d.meta
      modifies flash`d, flash`history, flash`faults
      ensures flash.Valid() && flash.faults >= old(flash.faults)
      ensures result == NotCommitted ==> flash.d == old(flash.d)
      ensures result == Committed ==> flash.d == AfterCommit(old(flash.d), candidate)
      ensures flash.d == old(flash.d) || flash.d == AfterCommit(old(flash.d), candidate)
      ensures old(flash.history) <= flash.history
      ensures forall i :: |old(flash.history)| <= i < |flash.history| ==> flash.history[i] == flash.d
      ensures flash.faults == old(flash.faults) ==> result == Committed
    {
      hide Decode, Inv, Chain, Allowed;
      var ret := flash.OpenWrite(MetaNs);
      if ret == Ok { ret := flash.Set(MetaNs, Head, U64v(newHead)); }
      if ret == Ok { ret := flash.Commit(); }
      var durableRet, durable := ReadHead();
      if durableRet == Ok && durable == newHead { return Committed; }
      if (previousRet == NotFound && durableRet == NotFound) ||
         (previousRet == Ok && durableRet == Ok && durable == previous) {
        return NotCommitted;
      }
      return Indeterminate;
    }

    /** Makes a slot the head does not name unreadable, or removes the legacy record once a head exists. */
    method DiscardRecord(slot: Slot) returns (discarded: bool)
      requires flash.Valid()
      modifies this`storageLocked, flash`d, flash`history, flash`faults
      ensures flash.Valid() && flash.faults >= old(flash.faults) && storageLocked == old(storageLocked)
      ensures Within(old(flash.history), flash.history, old(flash.d), SlotNs(slot))
      ensures OnlyNs(old(flash.d), flash.d, SlotNs(slot))
      ensures discarded ==> !old(storageLocked) && !HeadNames(old(flash.d), slot)
      ensures discarded && slot != Legacy ==> flash.d.At(SlotNs(slot)) == map[]
      ensures discarded && slot == Legacy ==> HeadOf(flash.d).Some? && NoFields(flash.d.legacy)
      ensures flash.history != old(flash.history) || flash.d != old(flash.d) ==>
        !HeadNames(old(flash.d), slot) && (slot == Legacy ==> HeadOf(old(flash.d)).Some?)
      ensures (flash.faults == old(flash.faults) && !old(storageLocked) && !HeadNames(old(flash.d), slot) &&
               (slot == Legacy ==> HeadOf(old(flash.d)).Some?)) ==> discarded
    {
      hide Decode, Inv, Chain;
      if storageLocked { return false; }
      storageLocked := true;
      var headRet, head := ReadHead();
      if headRet == Ok {
        var id := DecodeHead(head);
        if id.None? || id.value.slot == slot {
          storageLocked := false;
          return false;
        }
      } else if headRet != NotFound || slot == Legacy {
        storageLocked := false;
        return false;
      }
      if slot == Legacy {
        var erased := EraseLegacyRecord();
        storageLocked := false;
        return erased == Ok;
      }
      var ns := SlotNs(slot);
      var ret := EraseNamespace(ns);
      if ret != Ok {
        storageLocked := false;
        return false;
      }
      ret := flash.OpenRead(ns);
      if ret == NotFound {
        storageLocked := false;
        return true;
      }
      if ret != Ok {
        storageLocked := false;
        return false;
      }
      var value;
      ret, value := flash.Get(ns, Layout);
      storageLocked := false;
      return ret == NotFound;
    }

    method EraseNamespace(ns: Namespace) returns (ret: Err)
      requires flash.Valid() && Erasable(flash.d, ns)
      modifies flash`d, flash`history, flash`faults
      ensures flash.Valid() && flash.faults >= old(flash.faults)
      ensures ret == Ok || flash.faults > old(flash.faults)
      ensures ret == Ok ==> flash.d.At(ns) == map[]
      ensures Shrunk(old(flash.d), flash.d, ns) && old(flash.history) <= flash.history
      ensures forall i :: |old(flash.history)| <= i < |flash.history| ==> Shrunk(old(flash.d), flash.history[i], ns)
    {
      hide Inv, Chain;
      ret := flash.OpenWrite(ns);
      if ret == Ok { ret := flash.EraseAll(ns); }
      if ret == Ok { ret := flash.Commit(); }
    }

    /** Erases the 18 legacy fields in order, then checks that no secret can be read any more. */
    method EraseLegacyRecord() returns (ret: Err)
      requires flash.Valid() && HeadOf(flash.d).Some?
      modifies flash`d, flash`history, flash`faults
      ensures flash.Valid() && flash.faults >= old(flash.faults)
      ensures Within(old(flash.history), flash.history, old(flash.d), LegacyNs)
      ensures OnlyNs(old(flash.d), flash.d, LegacyNs)
      ensures ret == Ok ==> NoFields(flash.d.legacy)
      ensures ret == Ok || flash.faults > old(flash.faults)
    {
      hide Decode, Inv, Chain, HeadCommit;
      ret := flash.OpenWrite(LegacyNs);
      if ret == NotFound { return Ok; }
      if ret != Ok { return; }
      var changed := false;
      var i := 0;
      while i < |FIELD_KEYS| && ret == Ok
        invariant 0 <= i <= |FIELD_KEYS|
        invariant flash.Valid() && flash.faults >= old(flash.faults)
        invariant ret == Ok || flash.faults > old(flash.faults)
        invariant Within(old(flash.history), flash.history, old(flash.d), LegacyNs)
        invariant OnlyNs(old(flash.d), flash.d, LegacyNs)
        invariant ret == Ok ==> forall j :: 0 <= j < i ==> FIELD_KEYS[j] !in flash.d.legacy
      {
        ghost var next := flash.d.With(LegacyNs, flash.d.At(LegacyNs) - {FIELD_KEYS[i]});
        assert HeadOf(flash.d) == HeadOf(old(flash.d));
        assert LegacyChange(flash.d, next);
        ret := flash.EraseKey(LegacyNs, FIELD_KEYS[i]);
        if ret == Ok { changed := true; } else if ret == NotFound { ret := Ok; }
        i := i + 1;
      }
      if ret == Ok && changed { ret := flash.Commit(); }
      if ret != Ok { return; }
      assert NoFields(flash.d.legacy) by {
        forall k | IsField(k) ensures k !in flash.d.legacy { KeyLists(k); }
      }
      ret := ConfirmSecretsGone();
    }

    method ConfirmSecretsGone() returns (ret: Err)
      requires flash.Valid()
      modifies flash`faults
      ensures flash.Valid() && flash.faults >= old(flash.faults)
      ensures ret == Ok ==> forall k | IsSecret(k) :: k !in flash.d.legacy
      ensures ret == Ok || flash.faults > old(flash.faults) || exists k | IsSecret(k) :: k in flash.d.legacy
    {
      hide Inv, Chain;
      ret := flash.OpenRead(LegacyNs);
      if ret == NotFound { return Ok; }
      if ret != Ok { return; }
      var secretKeys := [WifiSsid, WifiPass, ChatKey, AsrKey];
      var i := 0;
      while i < 4 && ret == Ok
        invariant 0 <= i <= 4
        invariant flash.Valid() && flash.faults >= old(flash.faults)
        invariant ret == Ok ==> forall j :: 0 <= j < i ==> secretKeys[j] !in flash.d.legacy
        invariant ret == Ok || flash.faults > old(flash.faults) || exists k | IsSecret(k) :: k in flash.d.legacy
      {
        var value;
        ret, value := flash.Get(LegacyNs, secretKeys[i]);
        if ret == NotFound { ret := Ok; } else if ret == Ok {
          assert IsSecret(secretKeys[i]);
          ret := InvalidState;
        }
        i := i + 1;
      }
      assert secretKeys[0] == WifiSsid && secretKeys[1] == WifiPass && secretKeys[2] == ChatKey && secretKeys[3] == AsrKey;
    }

    // ---- reset -----------------------------------------------------------

    /** Erases every namespace, the one holding head and tombstone last. */
    method CompletePendingResetLocked() returns (ret: Err)
      requires flash.Valid() && Pending(flash.d)
      modifies flash`d, flash`history, flash`faults
      ensures flash.Valid() && flash.faults >= old(flash.faults) && old(flash.history) <= flash.history
      ensures ret == Ok ==> flash.d == Durable(map[], map[], map[], map[])
      ensures ret == Ok || flash.faults > old(flash.faults)
      ensures ResetInProgress(flash.d)
      ensures forall i :: |old(flash.history)| <= i < |flash.history| ==> ResetInProgress(flash.history[i])
    {
      hide Inv, Chain, Sub;
      ret := EraseNamespace(LegacyNs);
      if ret == Ok { ret := EraseNamespace(SlotANs); }
      if ret == Ok { ret := EraseNamespace(SlotBNs); }
      if ret == Ok { ret := EraseNamespace(MetaNs); }
    }

    method CompletePendingReset() returns (ret: Err)
      requires flash.Valid() && Pending(flash.d)
      modifies this`storageLocked, flash`d, flash`history, flash`faults
      ensures flash.Valid() && flash.faults >= old(flash.faults) && old(flash.history) <= flash.history
      ensures storageLocked == old(storageLocked)
      ensures ret == Ok ==> flash.d == Durable(map[], map[], map[], map[])
      ensures ret == Ok || old(storageLocked) || flash.faults > old(flash.faults)
      ensures ResetInProgress(flash.d)
      ensures forall i :: |old(flash.history)| <= i < |flash.history| ==> ResetInProgress(flash.history[i])
    {
      if storageLocked { return InvalidState; }
      storageLocked := true;
      ret := CompletePendingResetLocked();
      storageLocked := false;
    }

    /** Success means the tombstone is durable: a read-back saw it. */
    method WriteResetTombstone() returns (ret: Err)
      requires flash.Valid()
      modifies flash`d, flash`history, flash`faults
      ensures flash.Valid() && flash.faults >= old(flash.faults)
      ensures ret == Ok ==> Pending(flash.d)
      ensures ret == Ok || flash.faults > old(flash.faults)
      ensures
        || (flash.d == old(flash.d) && flash.history == old(flash.history))
        || (flash.d == old(flash.d).(meta := old(flash.d).meta[Reset := U8(1)]) &&
            flash.history == old(flash.history) + [flash.d])
    {
      hide Inv, Chain;
      assert TombstoneWrite(flash.d, flash.d.With(MetaNs, flash.d.At(MetaNs)[Reset := U8(1)]));
      ret := flash.OpenWrite(MetaNs);
      if ret == Ok { ret := flash.Set(MetaNs, Reset, U8(1)); }
      if ret == Ok { ret := flash.Commit(); }
      if ret != Ok { return; }
      var pending;
      ret, pending := ResetIsPending();
      ret := if ret == Ok && pending then Ok else InvalidState;
    }

    /** The user's full reset: tombstone first, then every namespace. */
    method EraseEverything() returns (ret: Err)
      requires flash.Valid()
      modifies this`storageLocked, this`lifecycleLocked, flash`d, flash`history, flash`faults
      ensures flash.Valid() && flash.faults >= old(flash.faults) && old(flash.history) <= flash.history
      ensures storageLocked == old(storageLocked) && lifecycleLocked == old(lifecycleLocked)
      ensures ret == Ok ==> flash.d == Durable(map[], map[], map[], map[])
      ensures ret == Ok || old(storageLocked) || old(lifecycleLocked) || flash.faults > old(flash.faults)
      ensures flash.d == old(flash.d) || ResetInProgress(flash.d)
      ensures forall i :: |old(flash.history)| <= i < |flash.history| ==> ResetInProgress(flash.history[i])
    {
      if lifecycleLocked { return InvalidState; }
      lifecycleLocked := true;
      if storageLocked {
        lifecycleLocked := false;
        return InvalidState;
      }
      storageLocked := true;
      ret := WriteResetTombstone();
      if ret == Ok { ret := CompletePendingResetLocked(); }
      storageLocked := false;
      lifecycleLocked := false;
    }

    // ---- load and migration ----------------------------------------------

    method SlotMarkerExists(slot: Slot) returns (ret: Err, marked: bool)
      requires flash.Valid() && slot != Legacy
      modifies flash`faults
      ensures flash.Valid() && flash.faults >= old(flash.faults)
      ensures ret == Ok || (ret == Io && flash.faults > old(flash.faults))
      ensures ret == Ok ==> marked == (Layout in flash.d.At(SlotNs(slot)))
    {
      hide Inv, Chain;
      marked := false;
      ret := flash.OpenRead(SlotNs(slot));
      if ret == NotFound { return Ok, false; }
      if ret != Ok { return; }
      var value;
      ret, value := flash.Get(SlotNs(slot), Layout);
      if ret == NotFound { return Ok, false; }
      marked := ret == Ok;
    }

    /** Reads the optional legacy fields; a field of the wrong type or size fails the load. */
    method LoadLegacy() returns (ret: Err, legacy: Option<ConfigRecord.Record>)
      requires flash.Valid()
      modifies flash`faults
      ensures flash.Valid() && flash.faults >= old(flash.faults)
      ensures ret == Ok ==> legacy == LegacyRecord(flash.rules, flash.d.legacy)
      ensures ret == Ok ==> !ReadLegacy(flash.rules, flash.d.legacy).Unreadable?
      ensures ret != Ok ==>
        legacy == None && (flash.faults > old(flash.faults) || ReadLegacy(flash.rules, flash.d.legacy).Unreadable?)
    {
      hide Inv, Chain, ReadLegacy, FieldsReadUpTo;
      legacy := None;
      ret := flash.OpenRead(LegacyNs);
      if ret == NotFound {
        EmptyLegacy(flash.rules);
        return Ok, None;
      }
      if ret != Ok { return; }
      var fields: Space := map[];
      NoFieldRead(flash.d.legacy);
      var i := 0;
      while i < |FIELD_KEYS|
        invariant 0 <= i <= |FIELD_KEYS|
        invariant flash.Valid() && flash.faults >= old(flash.faults)
        invariant FieldsReadUpTo(fields, flash.d.legacy, i)
      {
        var value;
        ret, value := flash.Get(LegacyNs, FIELD_KEYS[i]);
        if ret == Io { return; }
        OneMoreField(fields, flash.d.legacy, i);
        if ret == Ok { fields := fields[FIELD_KEYS[i] := value]; }
        i := i + 1;
      }
      AllFieldsRead(fields, flash.d.legacy);
      LegacyAgrees(flash.rules, fields, flash.d.legacy);
      match ReadLegacy(flash.rules, fields)
      case Unreadable => ret := InvalidState;
      case Missing => ret := Ok;
      case Present(r) => ret, legacy := Ok, Some(r);
    }

    /** Copies a valid legacy record to slot A and retires it; until the head commits, loads fail closed. */
    method Migrate(legacy: ConfigRecord.Record) returns (ret: Err, record: Option<ConfigRecord.Record>)
      requires flash.Valid() && RecordValid(flash.rules, legacy)
      requires LegacyVisible(flash.rules, flash.d, legacy)
      modifies this`storageLocked, flash`d, flash`history, flash`faults
      ensures flash.Valid() && flash.faults >= old(flash.faults) && storageLocked == old(storageLocked)
      ensures record.Some? ==> ret == Ok && SameContent(record.value, legacy) && Visible(flash.rules, flash.d) == record
      ensures (flash.faults == old(flash.faults) && !old(storageLocked)) ==>
        record == Some(legacy.(slot := SlotA)) && NoFields(flash.d.legacy)
      ensures NeverMixed(flash.rules, legacy, old(flash.history), flash.history)
    {
      hide Decode, Inv, Chain, Allowed, Visible, ReadLegacy, HeadComplete, RecordValid, SecretsValid;
      ghost var d0 := flash.d;
      LegacyRecordIsOne(flash.rules, flash.d.legacy);
      var migrated := legacy.(slot := SlotA);
      assert RecordValid(flash.rules, migrated) by { SameValidity(flash.rules, legacy, migrated); }
      ret := StageRecord(SlotA, migrated);
      NoHeadHistory(flash.rules, d0, legacy, old(flash.history), flash.history);
      if ret == Ok {
        var activation := ActivateMigrated(migrated, d0, legacy);
        if activation != NotCommitted {
          record := if activation == Committed then Some(migrated) else None;
          ret := if activation == Committed then Ok else InvalidState;
          return;
        }
      }
      ghost var h1 := flash.history;
      var cleaned := DiscardRecord(SlotA);
      NoHeadHistory(flash.rules, d0, legacy, h1, flash.history);
      NoHead(flash.rules, d0, flash.d, legacy);
      if !cleaned { return InvalidState, None; }
      return Ok, Some(legacy);
    }

    /** The second half of a migration: commit head (A, 1), then retire the legacy record. */
    method ActivateMigrated(migrated: ConfigRecord.Record, ghost d0: Durable, ghost legacy: ConfigRecord.Record)
        returns (activation: Activation)
      requires flash.Valid() && LegacyVisible(flash.rules, d0, legacy) && OnlyNs(d0, flash.d, SlotANs)
      requires migrated == legacy.(slot := SlotA) && legacy.slot == Legacy && legacy.revision == 1
      requires Decode(flash.rules, flash.d.a, SlotA) == Some(migrated)
      modifies this`storageLocked, flash`d, flash`history, flash`faults
      ensures flash.Valid() && flash.faults >= old(flash.faults) && storageLocked == old(storageLocked)
      ensures activation == Committed ==> Visible(flash.rules, flash.d) == Some(migrated) && NoFields(flash.d.legacy)
      ensures activation == NotCommitted ==> flash.d == old(flash.d)
      ensures (flash.faults == old(flash.faults) && !old(storageLocked)) ==> activation == Committed
      ensures NeverMixed(flash.rules, legacy, old(flash.history), flash.history)
    {
      hide Decode, Inv, Chain, Allowed, Visible, ReadLegacy, HeadComplete, RecordValid, SecretsValid;
      activation := ActivateRecord(migrated, Legacy, 1);
      ghost var d2, h2 := flash.d, flash.history;
      if d2 != old(flash.d) || activation == Committed {
        VisibleAfterCommit(flash.rules, old(flash.d), migrated);
      } else {
        NoHead(flash.rules, d0, d2, legacy);
      }
      if activation == Committed {
        var discarded := DiscardRecord(Legacy);
        HeadHistory(flash.rules, d2, h2, flash.history, LegacyNs);
        HeadFrame(flash.rules, d2, flash.d, LegacyNs);
        // the caller treats a legacy record that cannot be removed as a failed load
        if !discarded { activation := Indeterminate; }
      }
    }

    /** With no head: refuse half-written slots, otherwise report and if possible migrate the legacy record. */
    method LoadWithoutHead() returns (ret: Err, record: Option<ConfigRecord.Record>)
      requires flash.Valid() && Head !in flash.d.meta && !Pending(flash.d)
      modifies this`storageLocked, flash`d, flash`history, flash`faults
      ensures flash.Valid() && flash.faults >= old(flash.faults) && storageLocked == old(storageLocked)
      ensures Reported(flash.rules, old(flash.d), flash.d, ret, record)
      ensures (flash.faults == old(flash.faults) && !old(storageLocked) && Visible(flash.rules, old(flash.d)).Some?)
        ==> record == Some(Migrated(flash.rules, Visible(flash.rules, old(flash.d)).value))
      ensures Layout in old(flash.d).a || Layout in old(flash.d).b ==>
        ret != Ok && record.None? && flash.d == old(flash.d)
      ensures Visible(flash.rules, old(flash.d)).Some? ==>
        NeverMixed(flash.rules, Visible(flash.rules, old(flash.d)).value, old(flash.history), flash.history)
      ensures Visible(flash.rules, old(flash.d)).None? ==> flash.d == old(flash.d) && flash.history == old(flash.history)
    {
      hide Decode, Inv, Chain, Allowed, ReadLegacy, HeadComplete, RecordValid;
      record := None;
      var markedA, markedB := false, false;
      ret, markedA := SlotMarkerExists(SlotA);
      if ret == Ok { ret, markedB := SlotMarkerExists(SlotB); }
      if ret != Ok { return; }
      if markedA || markedB { return InvalidState, None; }
      var legacy;
      ret, legacy := LoadLegacy();
      if ret != Ok || legacy.None? { return; }
      if RecordValid(flash.rules, legacy.value) {
        ret, record := Migrate(legacy.value);
      } else {
        record := legacy;
      }
    }

    /** With a head: the record it names, after making sure no legacy copy survives. */
    method LoadFromHead(head: U64) returns (ret: Err, record: Option<ConfigRecord.Record>)
      requires flash.Valid() && Head in flash.d.meta && flash.d.meta[Head] == U64v(head) && !Pending(flash.d)
      modifies this`storageLocked, flash`d, flash`history, flash`faults
      ensures flash.Valid() && flash.faults >= old(flash.faults) && storageLocked == old(storageLocked)
      ensures Reported(flash.rules, old(flash.d), flash.d, ret, record)
      ensures (flash.faults == old(flash.faults) && !old(storageLocked) && Visible(flash.rules, old(flash.d)).Some?)
        ==> record == Some(Migrated(flash.rules, Visible(flash.rules, old(flash.d)).value))
      ensures old(flash.history) <= flash.history
      ensures forall i :: |old(flash.history)| <= i < |flash.history| ==>
        Visible(flash.rules, flash.history[i]) == Visible(flash.rules, old(flash.d)) && flash.history[i].meta == old(flash.d).meta
    {
      hide Decode, Inv, Chain, Allowed, ReadLegacy, RecordValid;
      HeadDecodes(flash.rules, flash.d);
      ghost var d0, h0 := flash.d, flash.history;
      var id := DecodeHead(head);
      if id.None? { return InvalidState, None; }
      ret, record := LoadSlotRecord(id.value.slot);
      if ret != Ok { return; }
      DecodeIsComplete(flash.rules, flash.d.At(SlotNs(id.value.slot)), id.value.slot, Layout);
      if record.value.revision != id.value.revision { return InvalidState, None; }
      var discarded := DiscardRecord(Legacy);
      HeadHistory(flash.rules, d0, h0, flash.history, LegacyNs);
      HeadFrame(flash.rules, d0, flash.d, LegacyNs);
      if !discarded { return InvalidState, None; }
    }

    /** What the device does at boot: finish a pending reset, or report the active record. */
    method LoadActive() returns (ret: Err, record: Option<ConfigRecord.Record>)
      requires flash.Valid()
      modifies this`storageLocked, flash`d, flash`history, flash`faults
      ensures flash.Valid() && flash.faults >= old(flash.faults) && storageLocked == old(storageLocked)
      ensures old(flash.history) <= flash.history
      ensures Reported(flash.rules, old(flash.d), flash.d, ret, record)
      ensures (flash.faults == old(flash.faults) && !old(storageLocked) && Visible(flash.rules, old(flash.d)).Some?)
        ==> record == Some(Migrated(flash.rules, Visible(flash.rules, old(flash.d)).value))
      ensures flash.faults == old(flash.faults) && !old(storageLocked) ==>
        forall r :: LegacyDevice(flash.rules, old(flash.d), r) ==> record == Some(r.(slot := SlotA))
      ensures LoadSafe(flash.rules, old(flash.d), old(flash.history), flash.history)
      ensures Pending(old(flash.d)) ==> record.None? && ResetInProgress(flash.d)
      ensures Pending(old(flash.d)) && ret == Ok ==> flash.d == Durable(map[], map[], map[], map[])
      ensures !Pending(old(flash.d)) && Head !in old(flash.d).meta && (Layout in old(flash.d).a || Layout in old(flash.d).b)
        ==> ret != Ok && record.None? && flash.d == old(flash.d)
    {
      hide Decode, Inv, Chain, Allowed, ReadLegacy, RecordValid, HeadComplete, LoadKeeps;
      ghost var d0, h0 := flash.d, flash.history;
      LegacyDevicesShow(flash.rules, d0);
      hide LegacyDevice, Visible;
      record := None;
      var pending;
      ret, pending := ResetIsPending();
      if ret != Ok { return; }
      if pending {
        ret := CompletePendingReset();
        ResetIsSafe(flash.rules, d0, h0, flash.history);
        return;
      }
      var head;
      ret, head := ReadHead();
      if ret == NotFound {
        ret, record := LoadWithoutHead();
        LegacyLoadIsSafe(flash.rules, d0, h0, flash.history);
      } else if ret == Ok {
        ret, record := LoadFromHead(head);
        HeadLoadIsSafe(flash.rules, d0, h0, flash.history);
      }
    }

    /** The locked entry point. */
    method LoadActiveRecord() returns (ret: Err, record: Option<ConfigRecord.Record>)
      requires flash.Valid()
      modifies this`storageLocked, this`lifecycleLocked, flash`d, flash`history, flash`faults
      ensures flash.Valid() && flash.faults >= old(flash.faults)
      ensures storageLocked == old(storageLocked) && lifecycleLocked == old(lifecycleLocked)
      ensures old(lifecycleLocked) ==> ret == InvalidState && record.None? && flash.d == old(flash.d)
      ensures old(flash.history) <= flash.history
      ensures Reported(flash.rules, old(flash.d), flash.d, ret, record)
      ensures LoadSafe(flash.rules, old(flash.d), old(flash.history), flash.history)
      ensures (flash.faults == old(flash.faults) && !old(storageLocked) && !old(lifecycleLocked) &&
               Visible(flash.rules, old(flash.d)).Some?)
        ==> record == Some(Migrated(flash.rules, Visible(flash.rules, old(flash.d)).value))
      ensures flash.faults == old(flash.faults) && !old(storageLocked) && !old(lifecycleLocked) ==>
        forall r :: LegacyDevice(flash.rules, old(flash.d), r) ==> record == Some(r.(slot := SlotA))
    {
      if lifecycleLocked { return InvalidState, None; }
      lifecycleLocked := true;
      ret, record := LoadActive();
      lifecycleLocked := false;
    }
  }

  /** A reported record is the one that was visible before the call, and is what stays visible. */
  predicate Reported(rules: Rules, d0: Durable, d: Durable, ret: Err, record: Option<ConfigRecord.Record>) {
    record.Some? ==>
      && ret == Ok && Visible(rules, d0).Some?
      && SameContent(record.value, Visible(rules, d0).value)
      && Visible(rules, d) == record
  }

  lemma HeadDecodes(rules: Rules, d: Durable)
    requires Inv(rules, d)
    ensures Head in d.meta ==> HeadOf(d).Some? && HeadOf(d).value.slot != Legacy
  {
  }

  /** What a load without a fault reports: a valid legacy record has moved to slot A, any other one stays. */
  function Migrated(rules: Rules, r: ConfigRecord.Record): ConfigRecord.Record {
    if r.slot == Legacy && RecordValid(rules, r) then r.(slot := SlotA) else r
  }

  /** A device that was never migrated: its legacy namespace has every field of this valid record. */
  ghost predicate LegacyDevice(rules: Rules, d: Durable, r: ConfigRecord.Record) {
    && Head !in d.meta && !Pending(d) && Layout !in d.a && Layout !in d.b
    && AllPresent(d.legacy) && SaysAll(r, d.legacy)
    && RecordValid(rules, r) && r.slot == Legacy && r.revision == 1
  }

  lemma LegacyDevicesShow(rules: Rules, d: Durable)
    ensures forall r :: LegacyDevice(rules, d, r) ==>
      Visible(rules, d) == Some(r) && Migrated(rules, r) == r.(slot := SlotA)
  {
    hide ReadLegacy;
    forall r | LegacyDevice(rules, d, r) ensures Visible(rules, d) == Some(r) { LegacyOf(rules, d.legacy, r); }
  }

  predicate LegacyVisible(rules: Rules, d: Durable, legacy: ConfigRecord.Record) {
    && Head !in d.meta && Layout !in d.a && Layout !in d.b && !Pending(d)
    && ReadLegacy(rules, d.legacy) == Present(legacy)
  }

  ghost predicate NoFields(sp: Space) { forall k | IsField(k) :: k !in sp }

  /** The record the flash still holds, even while a half-written migration hides it from a load. */
  function Held(rules: Rules, d: Durable): Option<ConfigRecord.Record> {
    if Head in d.meta || Pending(d) then Visible(rules, d) else LegacyRecord(rules, d.legacy)
  }

  /** At each power cut since `h0` this record's content is held whole: a load would report it, or nothing. */
  ghost predicate NeverMixed(rules: Rules, r: ConfigRecord.Record, h0: seq<Durable>, h: seq<Durable>) {
    h0 <= h && forall i :: |h0| <= i < |h| ==> HoldsContent(rules, h[i], r)
  }

  predicate HoldsContent(rules: Rules, d: Durable, r: ConfigRecord.Record) {
    Held(rules, d).Some? && SameContent(Held(rules, d).value, r)
  }

  /** What a load reports is what the flash holds. */
  lemma VisibleIsHeld(rules: Rules, d: Durable)
    ensures Visible(rules, d).Some? ==> Held(rules, d) == Visible(rules, d)
  {
  }

  /** A durable state that a load beginning at `d0` may leave behind. */
  ghost predicate LoadKeeps(rules: Rules, d0: Durable, d: Durable) {
    && (Visible(rules, d0).Some? ==> HoldsContent(rules, d, Visible(rules, d0).value))
    && (Visible(rules, d0).Some? && Head in d0.meta ==> Visible(rules, d) == Visible(rules, d0))
    && (Visible(rules, d0).None? ==>
          Visible(rules, d).None? && (Held(rules, d).None? || Held(rules, d) == Held(rules, d0)))
  }

  /** At each power cut since `h0`. */
  ghost predicate LoadSafe(rules: Rules, d0: Durable, h0: seq<Durable>, h: seq<Durable>) {
    h0 <= h && forall i :: |h0| <= i < |h| ==> LoadKeeps(rules, d0, h[i])
  }

  lemma ResetHoldsNothing(rules: Rules, d: Durable)
    requires ResetInProgress(d)
    ensures Visible(rules, d).None? && Held(rules, d).None?
  {
    hide ReadConfig, ReadSecrets, ReadLegacy;
    EmptyLegacy(rules);
  }

  lemma ResetIsSafe(rules: Rules, d0: Durable, h0: seq<Durable>, h: seq<Durable>)
    requires Pending(d0) && h0 <= h && forall i :: |h0| <= i < |h| ==> ResetInProgress(h[i])
    ensures LoadSafe(rules, d0, h0, h)
  {
    hide Visible, Held;
    forall i | |h0| <= i < |h| ensures LoadKeeps(rules, d0, h[i]) {
      ResetHoldsNothing(rules, h[i]);
      assert Visible(rules, d0).None? by { ResetHoldsNothing(rules, d0); }
    }
  }

  lemma HeadLoadIsSafe(rules: Rules, d0: Durable, h0: seq<Durable>, h: seq<Durable>)
    requires Head in d0.meta && h0 <= h
    requires forall i :: |h0| <= i < |h| ==> h[i].meta == d0.meta && Visible(rules, h[i]) == Visible(rules, d0)
    ensures LoadSafe(rules, d0, h0, h)
  {
    hide Visible;
  }

  lemma LegacyLoadIsSafe(rules: Rules, d0: Durable, h0: seq<Durable>, h: seq<Durable>)
    requires Head !in d0.meta && !Pending(d0)
    requires Visible(rules, d0).Some? ==> NeverMixed(rules, Visible(rules, d0).value, h0, h)
    requires Visible(rules, d0).None? ==> h == h0
    ensures LoadSafe(rules, d0, h0, h)
  {
    hide Visible, HoldsContent;
  }

  lemma SameValidity(rules: Rules, r: ConfigRecord.Record, r': ConfigRecord.Record)
    requires r' == r.(slot := r'.slot)
    ensures RecordValid(rules, r') == RecordValid(rules, r)
  {
  }

  ghost predicate WrittenUpTo(sp: Space, r: Record, n: nat)
    requires n <= |RECORD_KEYS|
  {
    forall j :: 0 <= j < n ==> IsRecordKey(RECORD_KEYS[j]) && Stored(sp, r, RECORD_KEYS[j])
  }

  lemma OneMoreWritten(sp: Space, r: Record, n: nat)
    requires n < |RECORD_KEYS| && WrittenUpTo(sp, r, n)
    ensures IsRecordKey(RECORD_KEYS[n])
    ensures WrittenUpTo(sp[RECORD_KEYS[n] := FieldValue(r, RECORD_KEYS[n])], r, n + 1)
  {
    KeyLists(RECORD_KEYS[n]);
  }

  lemma AllWritten(sp: Space, r: Record)
    requires WrittenUpTo(sp, r, |RECORD_KEYS|)
    ensures Holds(sp, r)
  {
    forall k | IsRecordKey(k) ensures Stored(sp, r, k) { KeyLists(k); }
  }

  lemma SlotWriteAllowed(rules: Rules, d0: Durable, d: Durable, slot: Slot, k: Key, v: Value)
    requires slot != Legacy && !HeadNames(d0, slot) && OnlyNs(d0, d, SlotNs(slot))
    ensures Allowed(rules, d, d.With(SlotNs(slot), d.At(SlotNs(slot))[k := v]))
  {
    assert SlotChange(d, d.With(SlotNs(slot), d.At(SlotNs(slot))[k := v]), slot);
  }

  lemma MissingKey(rules: Rules, sp: Space, slot: Slot, k: Key)
    requires IsRecordKey(k)
    ensures k !in sp ==> Decode(rules, sp, slot).None?
  {
    if k !in sp && Decode(rules, sp, slot).Some? { DecodeIsComplete(rules, sp, slot, k); }
  }

  /** The first `n` record keys of `y` have been copied to `x`, and nothing that is not in `y`. */
  ghost predicate ReadUpTo(x: Space, y: Space, n: nat)
    requires n <= |RECORD_KEYS|
  {
    && (forall j :: 0 <= j < n ==> SameAt(x, y, RECORD_KEYS[j]))
    && (forall k :: k in x ==> k in y && x[k] == y[k])
  }

  /** The same for the optional legacy fields: absent ones stay absent. */
  ghost predicate FieldsReadUpTo(x: Space, y: Space, n: nat)
    requires n <= |FIELD_KEYS|
  {
    && (forall j :: 0 <= j < n ==> SameAt(x, y, FIELD_KEYS[j]))
    && (forall k :: k in x ==> k in y && x[k] == y[k])
  }

  lemma NoFieldRead(y: Space)
    ensures FieldsReadUpTo(map[], y, 0)
  {
  }

  lemma OneMoreField(x: Space, y: Space, n: nat)
    requires n < |FIELD_KEYS| && FieldsReadUpTo(x, y, n)
    ensures FIELD_KEYS[n] in y ==> FieldsReadUpTo(x[FIELD_KEYS[n] := y[FIELD_KEYS[n]]], y, n + 1)
    ensures FIELD_KEYS[n] !in y ==> FieldsReadUpTo(x, y, n + 1)
  {
  }

  lemma AllFieldsRead(x: Space, y: Space)
    requires FieldsReadUpTo(x, y, |FIELD_KEYS|)
    ensures SameFields(x, y)
  {
    forall k | IsField(k) ensures SameAt(x, y, k) { KeyLists(k); }
  }

  lemma NothingRead(y: Space)
    ensures ReadUpTo(map[], y, 0)
  {
  }

  lemma OneMoreRead(x: Space, y: Space, n: nat)
    requires n < |RECORD_KEYS| && ReadUpTo(x, y, n) && RECORD_KEYS[n] in y
    ensures ReadUpTo(x[RECORD_KEYS[n] := y[RECORD_KEYS[n]]], y, n + 1)
  {
  }

  lemma AllKeysRead(rules: Rules, x: Space, y: Space, slot: Slot)
    requires ReadUpTo(x, y, |RECORD_KEYS|)
    ensures Decode(rules, x, slot) == Decode(rules, y, slot)
  {
    forall k | IsRecordKey(k) ensures SameAt(x, y, k) { KeyLists(k); }
    DecodeAgrees(rules, x, y, slot);
  }

  lemma CommitAllowed(rules: Rules, d: Durable, candidate: Record, expectedSlot: Slot, expectedRevision: U32)
    requires Inv(rules, d) && candidate.slot != Legacy && expectedRevision != 0
    requires ValidSuccessor(candidate, expectedSlot, expectedRevision) && ExpectedHead(d, expectedSlot, expectedRevision)
    requires Decode(rules, d.At(SlotNs(candidate.slot)), candidate.slot) == Some(candidate)
    ensures Allowed(rules, d, AfterCommit(d, candidate))
    ensures Head in d.meta ==> d.meta[Head].q != EncodeHead(candidate.slot, candidate.revision)
  {
    hide Decode;
    HeadRoundTrip(candidate.slot, candidate.revision, 0);
    HeadRoundTrip(expectedSlot, expectedRevision, 0);
    var next := AfterCommit(d, candidate);
    assert HeadOf(next) == Some(HeadId(candidate.slot, candidate.revision));
    assert HeadCommit(rules, d, next);
  }

  /** A migrated record differs from the legacy one in its slot only. */
  predicate SameContent(r: ConfigRecord.Record, r0: ConfigRecord.Record) {
    r == r0 || (r0.slot == Legacy && r == r0.(slot := SlotA))
  }

  /** From here a load never reports a record, until all namespaces have been emptied. */
  predicate ResetInProgress(d: Durable) { Pending(d) || EmptyRecords(d) }

  function LegacyRecord(rules: Rules, sp: Space): Option<ConfigRecord.Record> {
    match ReadLegacy(rules, sp) case Present(r) => Some(r) case _ => None
  }

  lemma EmptyLegacy(rules: Rules)
    ensures ReadLegacy(rules, map[]) == Missing
  {
    assert LegacyDefaults(rules) + map[] == LegacyDefaults(rules);
    DefaultsReadable(rules);
  }

  lemma LegacyRecordIsOne(rules: Rules, sp: Space)
    ensures var v := ReadLegacy(rules, sp);
      v.Present? ==> v.record.revision == 1 && v.record.slot == Legacy && Version in sp
  {
  }

  /** While no head exists and slot A alone is written, a load sees the legacy record or nothing. */
  lemma NoHead(rules: Rules, d0: Durable, d: Durable, legacy: ConfigRecord.Record)
    requires LegacyVisible(rules, d0, legacy) && OnlyNs(d0, d, SlotANs)
    ensures Visible(rules, d) == if Layout in d.a then None else Some(legacy)
    ensures Held(rules, d) == Some(legacy)
  {
  }

  lemma NoHeadHistory(rules: Rules, d0: Durable, legacy: ConfigRecord.Record, h0: seq<Durable>, h: seq<Durable>)
    requires LegacyVisible(rules, d0, legacy)
    requires h0 <= h && forall i :: |h0| <= i < |h| ==> OnlyNs(d0, h[i], SlotANs)
    ensures NeverMixed(rules, legacy, h0, h)
  {
    forall i | |h0| <= i < |h| ensures HoldsContent(rules, h[i], legacy) {
      NoHead(rules, d0, h[i], legacy);
    }
  }

  /** Writing a namespace the head does not name does not change what a load reports. */
  lemma HeadFrame(rules: Rules, d0: Durable, d: Durable, ns: Namespace)
    requires HeadOf(d0).Some? && OnlyNs(d0, d, ns) && ns != MetaNs && ns != SlotNs(HeadOf(d0).value.slot)
    ensures Visible(rules, d) == Visible(rules, d0) && HeadOf(d) == HeadOf(d0)
  {
    hide Decode;
    assert d.At(SlotNs(HeadOf(d0).value.slot)) == d0.At(SlotNs(HeadOf(d0).value.slot));
  }

  lemma HeadHistory(rules: Rules, d0: Durable, h0: seq<Durable>, h: seq<Durable>, ns: Namespace)
    requires HeadOf(d0).Some? && ns != MetaNs && ns != SlotNs(HeadOf(d0).value.slot) && Within(h0, h, d0, ns)
    ensures forall i :: |h0| <= i < |h| ==> Visible(rules, h[i]) == Visible(rules, d0) && h[i].meta == d0.meta
  {
    forall i | |h0| <= i < |h| ensures Visible(rules, h[i]) == Visible(rules, d0) && h[i].meta == d0.meta {
      HeadFrame(rules, d0, h[i], ns);
    }
  }

  lemma VisibleAfterCommit(rules: Rules, d: Durable, candidate: ConfigRecord.Record)
    requires candidate.slot != Legacy && candidate.revision != 0 && !Pending(d)
    requires Decode(rules, d.At(SlotNs(candidate.slot)), candidate.slot) == Some(candidate)
    ensures Visible(rules, AfterCommit(d, candidate)) == Some(candidate)
    ensures HeadOf(AfterCommit(d, candidate)) == Some(HeadId(candidate.slot, candidate.revision))
  {
    hide Decode;
    HeadRoundTrip(candidate.slot, candidate.revision, 0);
  }
}
