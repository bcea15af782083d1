/**
 * Flash storage as the configuration adapter sees it: four namespaces of
 * key/value pairs, written one key at a time, where any call may fail.
 *
 * A failed write may or may not have reached the flash. Erasing a namespace
 * removes its keys one at a time in no promised order. Power may be lost
 * between any two writes; to the durable state that is the same as every
 * later call failing, so each element of `history` is a possible power cut.
 */
module Nvs {
  import opened Common
  import opened ConfigRecord

  datatype Namespace = LegacyNs | SlotANs | SlotBNs | MetaNs

  datatype Durable = Durable(legacy: Space, a: Space, b: Space, meta: Space) {
    function At(ns: Namespace): Space {
      match ns case LegacyNs => legacy case SlotANs => a case SlotBNs => b case MetaNs => meta
    }

    function With(ns: Namespace, sp: Space): Durable {
      match ns
      case LegacyNs => this.(legacy := sp)
      case SlotANs => this.(a := sp)
      case SlotBNs => this.(b := sp)
      case MetaNs => this.(meta := sp)
    }
  }

  function SlotNs(s: Slot): Namespace {
    match s case Legacy => LegacyNs case SlotA => SlotANs case SlotB => SlotBNs
  }

  function OtherSlot(s: Slot): Slot { if s == SlotA then SlotB else SlotA }

  // ---- the head ----------------------------------------------------------

  datatype HeadId = HeadId(slot: Slot, revision: U32)

  function EncodeHead(slot: Slot, revision: U32): U64 {
    2 * revision + if slot == SlotB then 1 else 0
  }

  function DecodeHead(head: U64): Option<HeadId> {
    var stored := head / 2;
    if stored == 0 || stored > U32_MAX then None
    else Some(HeadId(if head % 2 == 0 then SlotA else SlotB, stored))
  }

  /** Encoding and decoding a head are inverse to each other, and a higher revision makes a higher word. */
  lemma HeadRoundTrip(slot: Slot, revision: U32, head: U64)
    ensures slot != Legacy && revision != 0 ==> DecodeHead(EncodeHead(slot, revision)) == Some(HeadId(slot, revision))
    ensures DecodeHead(head).Some? ==>
      var id := DecodeHead(head).value;
      id.slot != Legacy && id.revision != 0 && EncodeHead(id.slot, id.revision) == head
    ensures DecodeHead(head).Some? && DecodeHead(head).value.revision < revision ==> head < EncodeHead(slot, revision)
  {
  }

  function HeadOf(d: Durable): Option<HeadId> {
    if Head in d.meta && d.meta[Head].U64v? then DecodeHead(d.meta[Head].q) else None
  }

  predicate HeadNames(d: Durable, s: Slot) { HeadOf(d).Some? && HeadOf(d).value.slot == s }

  predicate Pending(d: Durable) { Reset in d.meta && d.meta[Reset] != U8(0) }

  predicate EmptyRecords(d: Durable) { d.legacy == map[] && d.a == map[] && d.b == map[] }

  // ---- what the adapter may write ----------------------------------------

  ghost predicate Sub(x: Space, y: Space) { forall k | k in x :: k in y && x[k] == y[k] }

  /** A slot changes only while the head does not name it. */
  ghost predicate SlotChange(d: Durable, d': Durable, s: Slot) {
    s != Legacy && !HeadNames(d, s) && d' == d.With(SlotNs(s), d'.At(SlotNs(s)))
  }

  /** The head moves to a slot holding a complete record: first to (A, 1), then to the other slot, one revision up. */
  ghost predicate HeadCommit(rules: Rules, d: Durable, d': Durable) {
    && HeadOf(d').Some?
    && d' == d.(meta := d.meta[Head := d'.meta[Head]])
    && var id := HeadOf(d').value;
       var target := Decode(rules, d.At(SlotNs(id.slot)), id.slot);
    && target.Some? && target.value.revision == id.revision
    && if Head !in d.meta then id == HeadId(SlotA, 1)
       else HeadOf(d).Some? && id.slot == OtherSlot(HeadOf(d).value.slot)
            && id.revision == HeadOf(d).value.revision + 1
  }

  ghost predicate FieldsShrink(x: Space, y: Space) {
    forall k | IsField(k) && k in y :: k in x && y[k] == x[k]
  }

  /** Legacy record fields are never written, and go only once a head exists; preferences may change at any time. */
  ghost predicate LegacyChange(d: Durable, d': Durable) {
    && d' == d.(legacy := d'.legacy)
    && (SameFields(d.legacy, d'.legacy) || (HeadOf(d).Some? && FieldsShrink(d.legacy, d'.legacy)))
  }

  ghost predicate TombstoneWrite(d: Durable, d': Durable) { d' == d.(meta := d.meta[Reset := U8(1)]) }

  ghost predicate ResetErase(d: Durable, d': Durable) {
    Pending(d) && d'.meta == d.meta && Sub(d'.legacy, d.legacy) && Sub(d'.a, d.a) && Sub(d'.b, d.b)
  }

  /** Head and tombstone go last, when no record is left. */
  ghost predicate MetaErase(d: Durable, d': Durable) {
    EmptyRecords(d) && d' == d.(meta := d'.meta) && Sub(d'.meta, d.meta)
  }

  /** One durable write by this adapter. */
  ghost predicate Allowed(rules: Rules, d: Durable, d': Durable) {
    || SlotChange(d, d', SlotA) || SlotChange(d, d', SlotB)
    || HeadCommit(rules, d, d') || LegacyChange(d, d')
    || TombstoneWrite(d, d') || ResetErase(d, d') || MetaErase(d, d')
  }

  // ---- what every durable state keeps ------------------------------------

  predicate SlotForRevision(id: HeadId) { id.slot == if id.revision % 2 == 1 then SlotA else SlotB }

  predicate HeadComplete(rules: Rules, d: Durable)
    requires HeadOf(d).Some?
  {
    var id := HeadOf(d).value;
    var r := Decode(rules, d.At(SlotNs(id.slot)), id.slot);
    r.Some? && r.value.revision == id.revision
  }

  ghost predicate Inv(rules: Rules, d: Durable) {
    && (forall k | k in d.meta :: k == Head || k == Reset)
    && (Reset in d.meta ==> d.meta[Reset] == U8(1))
    && (Head in d.meta ==>
        && HeadOf(d).Some? && SlotForRevision(HeadOf(d).value)
        && (Pending(d) || HeadComplete(rules, d) || d.At(SlotNs(HeadOf(d).value.slot)) == map[]))
  }

  /** The record a load may report from this state: the head's record, or the legacy one before any slot was touched. */
  function Visible(rules: Rules, d: Durable): Option<Record> {
    if Pending(d) then None
    else if Head in d.meta then
      if HeadOf(d).Some? && HeadComplete(rules, d)
      then Decode(rules, d.At(SlotNs(HeadOf(d).value.slot)), HeadOf(d).value.slot)
      else None
    else if Layout in d.a || Layout in d.b then None
    else
      var legacy := ReadLegacy(rules, d.legacy);
      if legacy.Present? then Some(legacy.record) else None
  }

  lemma InvKeepsHead(rules: Rules, d: Durable, d': Durable)
    requires Inv(rules, d) && d'.meta == d.meta
    requires Head in d.meta ==>
      var ns := SlotNs(HeadOf(d).value.slot); Pending(d) || d'.At(ns) == d.At(ns)
    ensures Inv(rules, d')
  {
  }

  lemma InvMetaErase(rules: Rules, d: Durable, d': Durable)
    requires Inv(rules, d) && MetaErase(d, d')
    ensures Inv(rules, d')
  {
    assert Head in d'.meta ==> d'.meta[Head] == d.meta[Head];
  }

  lemma InvHeadCommit(rules: Rules, d: Durable, d': Durable)
    requires Inv(rules, d) && HeadCommit(rules, d, d')
    ensures Inv(rules, d')
  {
    hide Decode;
    var ns := SlotNs(HeadOf(d').value.slot);
    assert d'.At(ns) == d.At(ns);
  }

  /** Every durable write keeps the invariant. */
  lemma InvStep(rules: Rules, d: Durable, d': Durable)
    requires Inv(rules, d) && Allowed(rules, d, d')
    ensures Inv(rules, d')
  {
    hide Decode;
    if HeadCommit(rules, d, d') {
      InvHeadCommit(rules, d, d');
    } else if MetaErase(d, d') {
      InvMetaErase(rules, d, d');
    } else if TombstoneWrite(d, d') {
      assert Pending(d') && HeadOf(d') == HeadOf(d);
    } else {
      InvKeepsHead(rules, d, d');
    }
  }

  // ---- the flash ---------------------------------------------------------

  datatype Err = Ok | NotFound | Io | InvalidState | InvalidArg

  /** Erasing this namespace key by key is allowed from here. */
  predicate Erasable(d: Durable, ns: Namespace) {
    match ns
    case LegacyNs => Pending(d)
    case SlotANs => Pending(d) || !HeadNames(d, SlotA)
    case SlotBNs => Pending(d) || !HeadNames(d, SlotB)
    case MetaNs => EmptyRecords(d)
  }

  /** `d'` is `d` with some keys of one namespace gone. */
  ghost predicate Shrunk(d: Durable, d': Durable, ns: Namespace) {
    d' == d.With(ns, d'.At(ns)) && Sub(d'.At(ns), d.At(ns))
  }

  ghost predicate Chain(rules: Rules, h: seq<Durable>) {
    forall i :: 0 <= i < |h| - 1 ==> Allowed(rules, h[i], h[i + 1])
  }

  class Flash {
    const rules: Rules
    var d: Durable
    ghost var history: seq<Durable>
    /** Counts injected failures, so that contracts can say what happens when nothing fails. */
    ghost var faults: nat

    ghost predicate Valid()
      reads this
    {
      && Inv(rules, d)
      && |history| > 0 && history[|history| - 1] == d
      && Inv(rules, history[0])
      && Chain(rules, history)
    }

    constructor (rules: Rules, initial: Durable)
      requires Inv(rules, initial)
      ensures Valid() && this.rules == rules && d == initial && history == [initial]
    {
      this.rules := rules;
      d := initial;
      history := [initial];
      faults := 0;
    }

    method Fail() returns (ret: Err)
      requires Valid()
      modifies this`faults
      ensures Valid() && ret == Io && faults == old(faults) + 1
    {
      faults := faults + 1;
      ret := Io;
    }

    /** One durable write; the caller owes that it is one this adapter may make. */
    method Write(next: Durable)
      requires Valid() && Allowed(rules, d, next)
      modifies this`d, this`history
      ensures Valid() && d == next && history == old(history) + [next]
    {
      InvStep(rules, d, next);
      d := next;
      history := history + [next];
    }

    /** Opening for reading may report a missing namespace only when nothing is stored in it. */
    method OpenRead(ns: Namespace) returns (ret: Err)
      requires Valid()
      modifies this`faults
      ensures Valid() && faults >= old(faults)
      ensures ret == Ok || (ret == NotFound && d.At(ns) == map[]) || (ret == Io && faults > old(faults))
    {
      if * {
        ret := Fail();
      } else {
        var exists_: bool := *;
        ret := if d.At(ns) == map[] && !exists_ then NotFound else Ok;
      }
    }

    method OpenWrite(ns: Namespace) returns (ret: Err)
      requires Valid()
      modifies this`faults
      ensures Valid() && faults >= old(faults)
      ensures ret == Ok || (ret in {NotFound, Io} && faults > old(faults))
      ensures ret == NotFound ==> d.At(ns) == map[]
    {
      if * {
        ret := Fail();
        var absent: bool := *;
        if d.At(ns) == map[] && absent { ret := NotFound; }
      } else {
        ret := Ok;
      }
    }

    /** Reads are honest or fail with a code of their own. */
    method Get(ns: Namespace, k: Key) returns (ret: Err, value: Value)
      requires Valid()
      modifies this`faults
      ensures Valid() && faults >= old(faults)
      ensures ret in {Ok, NotFound, Io} && (ret == Io ==> faults > old(faults))
      ensures ret == Ok ==> k in d.At(ns) && value == d.At(ns)[k]
      ensures ret == NotFound ==> k !in d.At(ns)
    {
      value := U8(0);
      if * {
        ret := Fail();
      } else if k in d.At(ns) {
        ret, value := Ok, d.At(ns)[k];
      } else {
        ret := NotFound;
      }
    }

    method Set(ns: Namespace, k: Key, value: Value) returns (ret: Err)
      requires Valid() && Allowed(rules, d, d.With(ns, d.At(ns)[k := value]))
      modifies this`d, this`history, this`faults
      ensures Valid() && faults >= old(faults)
      ensures ret == Ok || (ret == Io && faults > old(faults))
      ensures var next := old(d).With(ns, old(d).At(ns)[k := value]);
        || (d == next && history == old(history) + [next])
        || (d == old(d) && history == old(history) && ret == Io)
    {
      ret := Ok;
      if * { ret := Fail(); }
      var applied: bool := *;
      if ret == Ok || applied {
        Write(d.With(ns, d.At(ns)[k := value]));
      }
    }

    method Commit() returns (ret: Err)
      requires Valid()
      modifies this`faults
      ensures Valid() && faults >= old(faults)
      ensures ret == Ok || (ret == Io && faults > old(faults))
    {
      ret := Ok;
      if * { ret := Fail(); }
    }

    method EraseKey(ns: Namespace, k: Key) returns (ret: Err)
      requires Valid() && Allowed(rules, d, d.With(ns, d.At(ns) - {k}))
      modifies this`d, this`history, this`faults
      ensures Valid() && faults >= old(faults)
      ensures ret in {Ok, NotFound, Io} && (ret == Io ==> faults > old(faults))
      ensures ret != Io ==> d == old(d).With(ns, old(d).At(ns) - {k})
      ensures var next := old(d).With(ns, old(d).At(ns) - {k});
        || (d == next && history == old(history) + [next])
        || (d == old(d) && history == old(history))
    {
      if k !in d.At(ns) {
        ret := NotFound;
        assert d.At(ns) - {k} == d.At(ns);
        if * { ret := Fail(); }
        return;
      }
      ret := Ok;
      if * { ret := Fail(); }
      var applied: bool := *;
      if ret == Ok || applied {
        Write(d.With(ns, d.At(ns) - {k}));
      }
    }

    /** Erases a namespace one key at a time; on failure any part of it may be left. */
    method EraseAll(ns: Namespace) returns (ret: Err)
      requires Valid() && Erasable(d, ns)
      modifies this`d, this`history, this`faults
      ensures Valid() && faults >= old(faults)
      ensures ret == Ok || (ret == Io && faults > old(faults))
      ensures ret == Ok ==> d.At(ns) == map[]
      ensures Extends(old(history), history)
      ensures forall i :: |old(history)| <= i < |history| ==> Shrunk(old(d), history[i], ns)
      ensures Shrunk(old(d), d, ns)
    {
      hide Inv, Chain, Allowed;
      ret := Ok;
      ghost var d0, h0 := d, history;
      while d.At(ns) != map[] && ret == Ok
        invariant Valid() && Erasable(d, ns) && faults >= old(faults)
        invariant ret == Ok || (ret == Io && faults > old(faults))
        invariant Shrunk(d0, d, ns)
        invariant Extends(h0, history)
        invariant forall i :: |h0| <= i < |history| ==> Shrunk(d0, history[i], ns)
        decreases |d.At(ns)|, ret == Ok
      {
        var k :| k in d.At(ns);
        EraseAllowed(rules, d, ns, k);
        ShrinkMore(d0, d, ns, k);
        ret := EraseKey(ns, k);
        if ret == NotFound { ret := Ok; }
      }
    }
  }

  lemma ShrinkMore(d0: Durable, d: Durable, ns: Namespace, k: Key)
    requires Shrunk(d0, d, ns)
    ensures Shrunk(d0, d.With(ns, d.At(ns) - {k}), ns)
    ensures k in d.At(ns) ==> |d.At(ns) - {k}| < |d.At(ns)|
  {
    if k in d.At(ns) {
      assert (d.At(ns) - {k}).Keys == d.At(ns).Keys - {k};
      assert |(d.At(ns) - {k}).Keys| < |d.At(ns).Keys|;
    }
  }

  ghost predicate Extends(before: seq<Durable>, after: seq<Durable>) { before <= after }

  lemma EraseAllowed(rules: Rules, d: Durable, ns: Namespace, k: Key)
    requires Inv(rules, d) && Erasable(d, ns)
    ensures Allowed(rules, d, d.With(ns, d.At(ns) - {k}))
    ensures Erasable(d.With(ns, d.At(ns) - {k}), ns)
  {
    var next := d.With(ns, d.At(ns) - {k});
    assert Sub(next.At(ns), d.At(ns));
    match ns
    case LegacyNs => assert ResetErase(d, next);
    case SlotANs => if Pending(d) { assert ResetErase(d, next); } else { assert SlotChange(d, next, SlotA); }
    case SlotBNs => if Pending(d) { assert ResetErase(d, next); } else { assert SlotChange(d, next, SlotB); }
    case MetaNs => assert MetaErase(d, next);
  }
}
