/**
 * What holds over whole runs of the adapter: any sequence of durable writes,
 * across any number of power cuts and restarts, starting from any state that
 * satisfies the invariant. The run is the flash's own history; a power cut is
 * simply a position in it.
 */
module ConfigHistory {
  import opened Common
  import opened ConfigRecord
  import opened Nvs
  import opened ConfigStore

  ghost predicate Run(rules: Rules, h: seq<Durable>) {
    |h| > 0 && Inv(rules, h[0]) && Chain(rules, h)
  }

  lemma RunPrefix(rules: Rules, h: seq<Durable>)
    requires Run(rules, h) && |h| > 1
    ensures Run(rules, h[..|h| - 1]) && Allowed(rules, h[|h| - 2], h[|h| - 1])
  {
    var g := h[..|h| - 1];
    forall i | 0 <= i < |g| - 1 ensures Allowed(rules, g[i], g[i + 1]) {
      assert Allowed(rules, h[i], h[i + 1]);
    }
  }

  lemma RunGrows(rules: Rules, h: seq<Durable>, next: Durable)
    requires Run(rules, h) && Allowed(rules, h[|h| - 1], next)
    ensures Run(rules, h + [next])
  {
    hide Inv, Allowed;
    var g := h + [next];
    forall i | 0 <= i < |g| - 1 ensures Allowed(rules, g[i], g[i + 1]) {
      if i < |h| - 1 { assert Allowed(rules, h[i], h[i + 1]); }
    }
  }

  /** Every state of a run satisfies the invariant. */
  lemma {:induction false} RunInvariant(rules: Rules, h: seq<Durable>, i: nat)
    requires Run(rules, h) && i < |h|
    ensures Inv(rules, h[i])
  {
    hide Inv, Allowed;
    if i > 0 {
      RunInvariant(rules, h, i - 1);
      InvStep(rules, h[i - 1], h[i]);
    }
  }

  // ---- crash consistency ---------------------------------------------------

  /** The documented promise: a head that is not being reset names a complete record of exactly its revision. */
  predicate Promise(rules: Rules, d: Durable) {
    Head in d.meta && !Pending(d) ==> HeadOf(d).Some? && HeadComplete(rules, d)
  }

  /** A write that removes the tombstone while the head is still there. */
  predicate DropsTombstoneFirst(d: Durable, d': Durable) {
    Reset in d.meta && Reset !in d'.meta && Head in d'.meta
  }

  lemma PromiseMetaErase(rules: Rules, d: Durable, d': Durable)
    requires Inv(rules, d) && MetaErase(d, d') && Promise(rules, d)
    ensures Promise(rules, d') <==> !DropsTombstoneFirst(d, d')
  {
    hide Decode;
    if Head in d'.meta {
      assert HeadOf(d') == HeadOf(d);
      assert d.At(SlotNs(HeadOf(d).value.slot)) == map[];
      EmptySlot(rules, HeadOf(d).value.slot);
    }
  }

  lemma PromiseSameMeta(rules: Rules, d: Durable, d': Durable)
    requires Inv(rules, d) && d'.meta == d.meta && Promise(rules, d)
    requires SlotChange(d, d', SlotA) || SlotChange(d, d', SlotB) || LegacyChange(d, d') || ResetErase(d, d')
    ensures Promise(rules, d') && !DropsTombstoneFirst(d, d')
  {
    hide Decode, DecodeHead;
    assert HeadOf(d') == HeadOf(d);
  }

  lemma PromiseStep(rules: Rules, d: Durable, d': Durable)
    requires Inv(rules, d) && Allowed(rules, d, d') && Promise(rules, d)
    ensures Promise(rules, d') <==> !DropsTombstoneFirst(d, d')
  {
    hide Decode, DecodeHead, EncodeHead, HeadOf, HeadComplete, Inv;
    if MetaErase(d, d') {
      PromiseMetaErase(rules, d, d');
    } else if HeadCommit(rules, d, d') {
      PromiseHeadCommit(rules, d, d');
    } else if !TombstoneWrite(d, d') {
      PromiseSameMeta(rules, d, d');
    } else {
      assert Pending(d');
    }
  }

  lemma PromiseHeadCommit(rules: Rules, d: Durable, d': Durable)
    requires Inv(rules, d) && HeadCommit(rules, d, d')
    ensures Promise(rules, d') && !DropsTombstoneFirst(d, d')
  {
    hide Decode, DecodeHead, EncodeHead;
    assert d'.At(SlotNs(HeadOf(d').value.slot)) == d.At(SlotNs(HeadOf(d').value.slot));
  }

  lemma EmptySlot(rules: Rules, slot: Slot)
    ensures Decode(rules, map[], slot).None?
  {
  }

  /**
   * Over a whole run the promise holds at every power cut if and only if no write
   * removed the tombstone before the head: the one window is the last step of a reset.
   */
  lemma CrashConsistency(rules: Rules, h: seq<Durable>)
    requires Run(rules, h) && Promise(rules, h[0])
    ensures (forall i :: 0 <= i < |h| ==> Promise(rules, h[i]))
      <==> (forall i :: 0 <= i < |h| - 1 ==> !DropsTombstoneFirst(h[i], h[i + 1]))
  {
    hide Inv, Allowed, Promise, DropsTombstoneFirst;
    if forall i :: 0 <= i < |h| ==> Promise(rules, h[i]) {
      forall i | 0 <= i < |h| - 1 ensures !DropsTombstoneFirst(h[i], h[i + 1]) {
        RunInvariant(rules, h, i);
        PromiseStep(rules, h[i], h[i + 1]);
      }
    } else if forall i :: 0 <= i < |h| - 1 ==> !DropsTombstoneFirst(h[i], h[i + 1]) {
      forall i | 0 <= i < |h| ensures Promise(rules, h[i]) { PromiseUntil(rules, h, i); }
    }
  }

  lemma {:induction false} PromiseUntil(rules: Rules, h: seq<Durable>, n: nat)
    requires Run(rules, h) && Promise(rules, h[0]) && n < |h|
    requires forall i :: 0 <= i < n ==> !DropsTombstoneFirst(h[i], h[i + 1])
    ensures Promise(rules, h[n])
  {
    hide Inv, Allowed, Promise, DropsTombstoneFirst;
    if n > 0 {
      PromiseUntil(rules, h, n - 1);
      RunInvariant(rules, h, n - 1);
      PromiseStep(rules, h[n - 1], h[n]);
    }
  }

  /** Even in that window nothing wrong is reported: a stranded head names an empty slot and a load finds no record. */
  lemma StrandedHeadIsEmpty(rules: Rules, h: seq<Durable>, i: nat)
    requires Run(rules, h) && i < |h| && !Promise(rules, h[i])
    ensures HeadOf(h[i]).Some? && h[i].At(SlotNs(HeadOf(h[i]).value.slot)) == map[]
    ensures Visible(rules, h[i]).None?
  {
    hide Decode;
    RunInvariant(rules, h, i);
  }

  /** All the keys of a record, with its values. */
  function Encoded(r: Record): Space { map k | k in RECORD_KEYS && IsRecordKey(k) :: FieldValue(r, k) }

  lemma EncodedDecodes(rules: Rules, r: Record)
    requires RecordValid(rules, r)
    ensures Decode(rules, Encoded(r), r.slot) == Some(r) && Encoded(r) != map[]
  {
    hide Decode;
    KeyLists(Layout);
    assert Layout in Encoded(r);
    assert Holds(Encoded(r), r) by {
      forall k | IsRecordKey(k) ensures Stored(Encoded(r), r, k) { KeyLists(k); }
    }
    DecodeEncode(rules, Encoded(r), r);
  }

  /** A store holding one record in a slot, and nothing else. */
  function Provisioned(r: Record): Durable
    requires r.slot != Legacy
  {
    Stranded(r).With(SlotNs(r.slot), Encoded(r))
  }

  /** What is left of it when a reset is cut right after the tombstone key went. */
  function Stranded(r: Record): Durable {
    Durable(map[], map[], map[], map[Head := U64v(EncodeHead(r.slot, r.revision))])
  }

  ghost predicate OneKeyLess(d: Durable, d': Durable, ns: Namespace) {
    exists k :: k in d.At(ns) && d' == d.With(ns, d.At(ns) - {k})
  }

  lemma HeadShows(rules: Rules, d: Durable, r: Record)
    requires r.slot != Legacy && r.revision != 0 && SlotForRevision(HeadId(r.slot, r.revision))
    requires d.meta == map[Head := U64v(EncodeHead(r.slot, r.revision))]
    requires Decode(rules, d.At(SlotNs(r.slot)), r.slot) == Some(r)
    ensures Inv(rules, d) && Promise(rules, d) && Visible(rules, d) == Some(r)
  {
    hide Decode;
    HeadRoundTrip(r.slot, r.revision, 0);
  }

  lemma ProvisionedShows(rules: Rules, r: Record)
    requires RecordValid(rules, r) && r.slot != Legacy && SlotForRevision(HeadId(r.slot, r.revision))
    ensures Inv(rules, Provisioned(r)) && Promise(rules, Provisioned(r)) && Visible(rules, Provisioned(r)) == Some(r)
  {
    EncodedDecodes(rules, r);
    ProvisionedParts(rules, r);
    var d := Provisioned(r);
    assert d.meta == Stranded(r).meta && d.At(SlotNs(r.slot)) == Encoded(r);
    hide Provisioned, Encoded, RecordValid, Inv, Promise, Visible, Decode;
    HeadShows(rules, d, r);
  }

  lemma RunFrom(rules: Rules, d: Durable, h: seq<Durable>)
    requires Inv(rules, d) && Run(rules, h) && Allowed(rules, d, h[0])
    ensures Run(rules, [d] + h)
  {
    hide Inv, Allowed;
    var g := [d] + h;
    forall i | 0 <= i < |g| - 1 ensures Allowed(rules, g[i], g[i + 1]) {
      if i > 0 { assert g[i] == h[i - 1] && g[i + 1] == h[i - 1 + 1]; }
    }
  }

  /** Consecutive states differ by one key of this namespace. */
  ghost predicate KeyByKey(h: seq<Durable>, ns: Namespace) {
    forall i :: 0 <= i < |h| - 1 ==> OneKeyLess(h[i], h[i + 1], ns)
  }

  ghost predicate SameMeta(h: seq<Durable>, meta: Space) { forall i :: 0 <= i < |h| ==> h[i].meta == meta }

  lemma KeyByKeyFrom(d: Durable, h: seq<Durable>, ns: Namespace)
    requires |h| > 0 && KeyByKey(h, ns) && OneKeyLess(d, h[0], ns)
    ensures KeyByKey([d] + h, ns)
  {
    hide OneKeyLess;
    var g := [d] + h;
    forall i | 0 <= i < |g| - 1 ensures OneKeyLess(g[i], g[i + 1], ns) {
      if i > 0 { assert g[i] == h[i - 1] && g[i + 1] == h[i - 1 + 1]; }
    }
  }

  /** Erasing a namespace key by key is a run. */
  lemma {:induction false} EraseRun(rules: Rules, d: Durable, ns: Namespace) returns (h: seq<Durable>)
    requires Inv(rules, d) && Erasable(d, ns) && ns != MetaNs
    ensures Run(rules, h) && |h| > 0 && h[0] == d && h[|h| - 1] == d.With(ns, map[])
    ensures KeyByKey(h, ns) && SameMeta(h, d.meta)
    decreases |d.At(ns)|
  {
    hide Inv, Allowed, Erasable, Run, KeyByKey, OneKeyLess;
    if d.At(ns) == map[] {
      h := [d];
      OneState(rules, d, ns);
    } else {
      var k :| k in d.At(ns);
      var next := d.With(ns, d.At(ns) - {k});
      EraseAllowed(rules, d, ns, k);
      InvStep(rules, d, next);
      ShrinkMore(d, d, ns, k);
      LosesKey(d, ns, k);
      var rest := EraseRun(rules, next, ns);
      RunFrom(rules, d, rest);
      KeyByKeyFrom(d, rest, ns);
      h := [d] + rest;
    }
  }

  lemma OneState(rules: Rules, d: Durable, ns: Namespace)
    requires Inv(rules, d)
    ensures Run(rules, [d]) && KeyByKey([d], ns)
  {
  }

  lemma LosesKey(d: Durable, ns: Namespace, k: Key)
    requires k in d.At(ns)
    ensures OneKeyLess(d, d.With(ns, d.At(ns) - {k}), ns)
  {
  }

  /**
   * The writes of a full reset that is cut right after the tombstone key went: the tombstone, every key of
   * the one namespace that is not empty, the tombstone key. A head that was there is left behind.
   */
  ghost predicate CutReset(h: seq<Durable>, ns: Namespace) {
    && |h| > 3 && TombstoneWrite(h[0], h[1]) && KeyByKey(h[1..|h| - 1], ns)
    && SameMeta(h[1..|h| - 1], h[0].meta[Reset := U8(1)])
    && OneKeyLess(h[|h| - 2], h[|h| - 1], MetaNs) && DropsTombstoneFirst(h[|h| - 2], h[|h| - 1])
  }

  lemma CutResetRun(rules: Rules, d: Durable, ns: Namespace) returns (h: seq<Durable>)
    requires Inv(rules, d) && ns != MetaNs && d.At(ns) != map[] && Reset !in d.meta && Head in d.meta
    requires EmptyRecords(d.With(ns, map[]))
    ensures Run(rules, h) && h[0] == d && h[|h| - 1] == d.With(ns, map[]) && CutReset(h, ns)
  {
    var marked := d.(meta := d.meta[Reset := U8(1)]);
    var last := d.With(ns, map[]);
    assert TombstoneWrite(d, marked);
    InvStep(rules, d, marked);
    assert Erasable(marked, ns);
    hide Inv, Allowed, Run, KeyByKey, OneKeyLess;
    var erased := EraseRun(rules, marked, ns);
    var emptied := erased[|erased| - 1];
    assert last == emptied.With(MetaNs, emptied.meta - {Reset}) by { assert emptied.meta - {Reset} == d.meta; }
    assert emptied.meta == marked.meta && emptied.At(MetaNs) == emptied.meta;
    LosesKey(emptied, MetaNs, Reset);
    assert Inv(rules, emptied) by { RunInvariant(rules, erased, |erased| - 1); }
    EraseAllowed(rules, emptied, MetaNs, Reset);
    RunFrom(rules, d, erased);
    RunGrows(rules, [d] + erased, last);
    h := [d] + erased + [last];
    assert h[1..|h| - 1] == erased && |erased| > 1;
  }

  /** The window is real, for any store provisioned with one record. */
  lemma StrandedHeadReachable(rules: Rules, r: Record) returns (h: seq<Durable>)
    requires RecordValid(rules, r) && r.slot != Legacy && SlotForRevision(HeadId(r.slot, r.revision))
    ensures Run(rules, h) && h[0] == Provisioned(r) && Visible(rules, h[0]) == Some(r)
    ensures CutReset(h, SlotNs(r.slot))
    ensures h[|h| - 1] == Stranded(r) && !Promise(rules, h[|h| - 1])
  {
    ProvisionedShows(rules, r);
    ProvisionedParts(rules, r);
    StrandedIsEmpty(rules, r);
    hide Provisioned, Stranded, Promise, Visible, RecordValid, SlotForRevision, CutReset, Run, Inv;
    h := CutResetRun(rules, Provisioned(r), SlotNs(r.slot));
  }

  lemma ProvisionedParts(rules: Rules, r: Record)
    requires RecordValid(rules, r) && r.slot != Legacy
    ensures r.revision != 0
    ensures var d := Provisioned(r);
      && d.With(SlotNs(r.slot), map[]) == Stranded(r) && d.At(SlotNs(r.slot)) != map[]
      && Reset !in d.meta && Head in d.meta && EmptyRecords(Stranded(r))
  {
    EncodedDecodes(rules, r);
    hide Encoded;
  }

  lemma StrandedIsEmpty(rules: Rules, r: Record)
    requires r.slot != Legacy && r.revision != 0
    ensures HeadOf(Stranded(r)) == Some(HeadId(r.slot, r.revision)) && !Promise(rules, Stranded(r))
  {
    HeadRoundTrip(r.slot, r.revision, 0);
    EmptySlot(rules, r.slot);
  }

  // ---- head lineage ----------------------------------------------------------

  /** No write of the run removes a head. */
  ghost predicate KeepsHead(h: seq<Durable>) {
    forall i :: 0 <= i < |h| - 1 && Head in h[i].meta ==> Head in h[i + 1].meta
  }

  /** The heads committed by a run, in order. */
  ghost function Commits(h: seq<Durable>): seq<HeadId> {
    if |h| < 2 then []
    else
      var d, d' := h[|h| - 2], h[|h| - 1];
      Commits(h[..|h| - 1]) + if HeadOf(d').Some? && HeadOf(d') != HeadOf(d) then [HeadOf(d').value] else []
  }

  function HeadFor(revision: U32): HeadId {
    HeadId(if revision % 2 == 1 then SlotA else SlotB, revision)
  }

  lemma HeadStep(rules: Rules, d: Durable, d': Durable)
    requires Inv(rules, d) && Allowed(rules, d, d') && (Head in d.meta ==> Head in d'.meta)
    ensures HeadOf(d') == HeadOf(d) ||
      (HeadOf(d').Some? && HeadOf(d').value ==
       (if HeadOf(d).None? then HeadFor(1)
        else HeadId(OtherSlot(HeadOf(d).value.slot), HeadOf(d).value.revision + 1)))
  {
    hide Decode;
  }

  /**
   * Starting with no head and losing none, the committed heads are exactly
   * (A, 1), (B, 2), (A, 3) and so on, and the durable head is the last of them.
   */
  lemma {:induction false} HeadLineage(rules: Rules, h: seq<Durable>)
    requires Run(rules, h) && Head !in h[0].meta && KeepsHead(h)
    ensures |Commits(h)| <= U32_MAX
    ensures forall k :: 0 <= k < |Commits(h)| ==> Commits(h)[k] == HeadFor(k + 1)
    ensures HeadOf(h[|h| - 1]) == if Commits(h) == [] then None else Some(HeadFor(|Commits(h)|))
  {
    hide Inv, Allowed;
    if |h| > 1 {
      RunPrefix(rules, h);
      var g := h[..|h| - 1];
      assert KeepsHead(g) by {
        forall i | 0 <= i < |g| - 1 && Head in g[i].meta ensures Head in g[i + 1].meta {
          assert Head in h[i].meta && Head in h[i + 1].meta;
        }
      }
      HeadLineage(rules, g);
      RunInvariant(rules, h, |h| - 2);
      HeadStep(rules, h[|h| - 2], h[|h| - 1]);
    }
  }

  function HeadRank(d: Durable): nat { if HeadOf(d).Some? then HeadOf(d).value.revision else 0 }

  lemma {:induction false} RankGrows(rules: Rules, h: seq<Durable>, i: nat, j: nat)
    requires Run(rules, h) && KeepsHead(h) && i <= j < |h|
    ensures HeadRank(h[i]) <= HeadRank(h[j])
    decreases j - i
  {
    hide Inv, Allowed;
    if i < j {
      RankGrows(rules, h, i, j - 1);
      RunInvariant(rules, h, j - 1);
      HeadStep(rules, h[j - 1], h[j]);
    }
  }

  /**
   * Two commits never share a base: between resets the encoded head strictly grows,
   * so of all requests prepared against one revision at most one becomes durable,
   * whichever transaction object they came through.
   */
  lemma OneCommitPerBase(rules: Rules, h: seq<Durable>, i: nat, j: nat)
    requires Run(rules, h) && KeepsHead(h) && i < j < |h| - 1
    requires HeadOf(h[i + 1]) != HeadOf(h[i]) && HeadOf(h[j + 1]) != HeadOf(h[j])
    ensures HeadRank(h[i]) < HeadRank(h[j])
    ensures HeadOf(h[j]).Some? && HeadOf(h[j + 1]).Some?
      && EncodeHead(HeadOf(h[j + 1]).value.slot, HeadOf(h[j + 1]).value.revision)
         > EncodeHead(HeadOf(h[j]).value.slot, HeadOf(h[j]).value.revision)
  {
    hide Inv, Allowed;
    RunInvariant(rules, h, i);
    RunInvariant(rules, h, j);
    HeadStep(rules, h[i], h[i + 1]);
    HeadStep(rules, h[j], h[j + 1]);
    RankGrows(rules, h, i + 1, j);
  }

  /** The slot of any durable head is fixed by the parity of its revision, resets included. */
  lemma ParityFixesSlot(rules: Rules, h: seq<Durable>, i: nat)
    requires Run(rules, h) && i < |h| && HeadOf(h[i]).Some?
    ensures HeadOf(h[i]).value == HeadFor(HeadOf(h[i]).value.revision)
  {
    hide Decode;
    RunInvariant(rules, h, i);
  }

  // ---- reset -----------------------------------------------------------------

  /** Nothing a load could report is left, and nothing one could be made of except by moving the head. */
  predicate Forgotten(d: Durable) {
    || Pending(d)
    || (Version !in d.legacy && (Head in d.meta ==> HeadOf(d).Some? && d.At(SlotNs(HeadOf(d).value.slot)) == map[]))
  }

  /** A write that moves the head while no tombstone is durable. */
  predicate Unguarded(d: Durable, d': Durable) {
    !Pending(d) && HeadOf(d').Some? && HeadOf(d') != HeadOf(d)
  }

  lemma ForgottenShowsNothing(rules: Rules, d: Durable)
    requires Forgotten(d)
    ensures Visible(rules, d).None?
  {
    hide ReadConfig, ReadSecrets;
  }

  lemma ForgottenSlots(d: Durable, d': Durable)
    requires SlotChange(d, d', SlotA) || SlotChange(d, d', SlotB) || LegacyChange(d, d')
    requires Forgotten(d)
    ensures Forgotten(d')
  {
    assert HeadOf(d') == HeadOf(d);
    if LegacyChange(d, d') {
      assert IsField(Version);
      assert SameFields(d.legacy, d'.legacy) ==> SameAt(d.legacy, d'.legacy, Version);
    }
    if Head in d.meta && HeadOf(d).Some? {
      assert d'.At(SlotNs(HeadOf(d).value.slot)) == d.At(SlotNs(HeadOf(d).value.slot));
    }
  }

  lemma ForgottenMeta(rules: Rules, d: Durable, d': Durable)
    requires Inv(rules, d) && MetaErase(d, d')
    ensures Forgotten(d')
  {
    hide HeadComplete;
    assert Head in d'.meta ==> d'.meta[Head] == d.meta[Head];
  }

  lemma ForgottenStep(rules: Rules, d: Durable, d': Durable)
    requires Inv(rules, d) && Allowed(rules, d, d') && Forgotten(d) && !Unguarded(d, d')
    ensures Forgotten(d')
  {
    hide HeadCommit, SlotChange, LegacyChange, MetaErase, Inv, HeadOf;
    if HeadCommit(rules, d, d') {
      CommitMoves(rules, d, d');
    } else if MetaErase(d, d') {
      ForgottenMeta(rules, d, d');
    } else if !TombstoneWrite(d, d') && !ResetErase(d, d') {
      ForgottenSlots(d, d');
    }
  }

  lemma CommitMoves(rules: Rules, d: Durable, d': Durable)
    requires HeadCommit(rules, d, d')
    ensures HeadOf(d').Some? && HeadOf(d') != HeadOf(d) && Pending(d') == Pending(d)
  {
    hide Decode;
  }

  lemma UnguardedShows(rules: Rules, d: Durable, d': Durable)
    requires Inv(rules, d) && Allowed(rules, d, d') && Unguarded(d, d')
    ensures Visible(rules, d').Some?
  {
    hide Decode, DecodeHead;
    if HeadCommit(rules, d, d') {
      assert d'.At(SlotNs(HeadOf(d').value.slot)) == d.At(SlotNs(HeadOf(d').value.slot));
    }
  }

  lemma {:induction false} ForgottenUntil(rules: Rules, h: seq<Durable>, t: nat, j: nat)
    requires Run(rules, h) && t <= j < |h| && Pending(h[t])
    requires forall i :: t <= i < j ==> !Unguarded(h[i], h[i + 1])
    ensures Forgotten(h[j])
    decreases j - t
  {
    hide Inv, Allowed, Unguarded, Forgotten;
    if t < j {
      ForgottenUntil(rules, h, t, j - 1);
      RunInvariant(rules, h, j - 1);
      ForgottenStep(rules, h[j - 1], h[j]);
    } else {
      assert Forgotten(h[t]) by { PendingIsForgotten(h[t]); }
    }
  }

  lemma PendingIsForgotten(d: Durable)
    ensures Pending(d) ==> Forgotten(d)
  {
  }

  /**
   * Once a tombstone is durable no load, after any number of cuts and restarts, can report a record,
   * if and only if no later write moves the head while no tombstone is durable.
   */
  lemma ResetForgets(rules: Rules, h: seq<Durable>, t: nat)
    requires Run(rules, h) && t < |h| && Pending(h[t])
    ensures (forall j :: t <= j < |h| ==> Visible(rules, h[j]).None?)
      <==> (forall i :: t <= i < |h| - 1 ==> !Unguarded(h[i], h[i + 1]))
  {
    hide Run, Unguarded, Pending, Visible;
    forall i | t <= i < |h| - 1 && Unguarded(h[i], h[i + 1]) ensures Visible(rules, h[i + 1]).Some? {
      MovingShows(rules, h, i);
    }
    if forall i :: t <= i < |h| - 1 ==> !Unguarded(h[i], h[i + 1]) {
      forall j | t <= j < |h| ensures Visible(rules, h[j]).None? {
        ForgottenUntil(rules, h, t, j);
        ForgottenShowsNothing(rules, h[j]);
      }
    }
  }

  lemma MovingShows(rules: Rules, h: seq<Durable>, i: nat)
    requires Run(rules, h) && i < |h| - 1 && Unguarded(h[i], h[i + 1])
    ensures Visible(rules, h[i + 1]).Some?
  {
    hide Inv, Allowed, Unguarded, Visible;
    RunInvariant(rules, h, i);
    UnguardedShows(rules, h[i], h[i + 1]);
  }

  /** A head outside a reset, after a tombstone and with no head moved in between, was stranded by that reset. */
  lemma {:induction false} StrandedBefore(rules: Rules, h: seq<Durable>, t: nat, v: nat) returns (u: nat)
    requires Run(rules, h) && t <= v < |h| && Pending(h[t]) && !Pending(h[v]) && Head in h[v].meta
    requires forall i :: t <= i < v ==> !Unguarded(h[i], h[i + 1])
    ensures t <= u < v && DropsTombstoneFirst(h[u], h[u + 1])
    decreases v - t
  {
    hide Allowed, Decode, DecodeHead;
    RunInvariant(rules, h, v);
    RunInvariant(rules, h, v - 1);
    if Pending(h[v - 1]) {
      u := v - 1;
    } else {
      assert !Unguarded(h[v - 1], h[v - 1 + 1]);
      u := StrandedBefore(rules, h, t, v - 1);
    }
  }
}
