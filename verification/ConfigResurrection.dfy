/**
 * The one way in which a full reset is not final: a transaction that survives
 * in memory a reset cut between the tombstone key and the head key, and then
 * commits an update. `ConfigRuns.ResetSafety` proves that there is no other;
 * here it is shown to happen.
 */
module ConfigResurrection {
  import opened Common
  import opened ConfigRecord
  import opened Nvs
  import opened ConfigStore
  import opened ConfigTransaction
  import opened ConfigHistory
  import opened ConfigRuns

  /** An update outside a reset that leaves its candidate durable has put it on display. */
  lemma CommittedShows(rules: Rules, before: Record, candidate: Record, d0: Durable, d: Durable,
                       h0: seq<Durable>, h: seq<Durable>)
    requires Phases(rules, before, candidate, d0, h0, h) && |h0| > 0 && d0 == Last(h0) && d == Last(h)
    requires candidate.slot == InactiveSlot(before.slot) && HeadIs(d0, before) && !Pending(d0)
    requires CandidateDurable(rules, d, candidate)
    ensures Visible(rules, d) == Some(candidate)
  {
    hide Phases, Staging, Moved, CandidateDurable, Visible, HeadIs, Pending;
    PhasesEnd(rules, before, candidate, d0, d, h0, h);
    EndOf(rules, before, candidate, d0, d);
    MovedShows(rules, d0, d, before, candidate);
  }

  lemma StrandedDisagrees(rules: Rules, r: Record)
    ensures !Agrees(rules, Stranded(r), r)
  {
    EmptySlot(rules, r.slot);
  }

  /**
   * What `Resurrects` excludes does happen. A transaction in agreement with flash survives a reset that is
   * cut when only the head is left (`StrandedHeadReachable` gives the writes). If nothing fails after that,
   * its next accepted update succeeds and a load reports a record with the API keys from before the reset.
   */
  method SurvivorCommits(transaction: Transaction, request: WifiUpdate)
      returns (status: Status, ghost cut: Option<nat>, ghost quiet: bool)
    requires transaction.Valid() && transaction.initialized && !transaction.recoveryRequired && !transaction.locked
    requires !transaction.store.storageLocked && !transaction.store.lifecycleLocked
    requires Agrees(transaction.store.flash.rules, transaction.store.flash.d, transaction.active)
    requires Candidate(transaction.active, request).Some?
    modifies transaction, transaction.network, transaction.store
    modifies transaction.store.flash`d, transaction.store.flash`history, transaction.store.flash`faults
    ensures transaction.Valid()
    ensures cut.Some? ==> |old(transaction.store.flash.history)| <= cut.value < |transaction.store.flash.history|
    ensures cut.Some? ==> transaction.store.flash.history[cut.value] == Stranded(old(transaction.active))
    ensures cut.Some? && quiet ==>
      var before, c := old(transaction.active), Candidate(old(transaction.active), request).value;
      && status == Success && Visible(transaction.store.flash.rules, transaction.store.flash.d) == Some(c)
      && c.secrets.chatKey == before.secrets.chatKey && c.secrets.asrKey == before.secrets.asrKey
  {
    var flash := transaction.store.flash;
    var before := transaction.active;
    ValidRevision(flash.rules, before);
    StrandedIsEmpty(flash.rules, before);
    StrandedDisagrees(flash.rules, before);
    CandidateFacts(before, request);
    hide Inv, Chain, RecordValid, Candidate, Phases, Agrees, HeadOf, OldOrNew, Visible, Staging, Moved, CandidateDurable;
    ghost var n := |flash.history|;
    cut, quiet, status := None, false, Busy;
    var ret := transaction.store.EraseEverything();
    if flash.d != Stranded(before) { return; }
    cut := Some(|flash.history| - 1);
    ghost var d0, h0, faults, netFaults := flash.d, flash.history, flash.faults, transaction.network.faults;
    var view;
    status, view := transaction.ApplyWifi(request);
    quiet := flash.faults == faults && transaction.network.faults == netFaults;
    if quiet {
      ghost var c := Candidate(before, request).value;
      CommittedShows(flash.rules, before, c, d0, flash.d, h0, flash.history);
    }
  }

  /** The update's first writes put the candidate into the other slot. */
  lemma StagingWrites(rules: Rules, d0: Durable, before: Record, c: Record, sp: Space)
    requires Inv(rules, d0) && HeadIs(d0, before) && c.slot == InactiveSlot(before.slot)
    ensures var d1 := d0.With(SlotNs(c.slot), sp);
      Allowed(rules, d0, d1) && Staging(d0, d1, c) && Inv(rules, d1) && d1.meta == d0.meta
    ensures d0.With(SlotNs(c.slot), sp).At(SlotNs(before.slot)) == d0.At(SlotNs(before.slot))
    ensures d0.With(SlotNs(c.slot), sp).At(SlotNs(c.slot)) == sp
  {
    hide HeadComplete;
    assert SlotChange(d0, d0.With(SlotNs(c.slot), sp), c.slot);
    hide SlotChange, Inv;
    InvStep(rules, d0, d0.With(SlotNs(c.slot), sp));
  }

  /** Its last write moves the head. */
  lemma CommitWrite(rules: Rules, d0: Durable, d1: Durable, before: Record, c: Record)
    requires Inv(rules, d1) && HeadIs(d0, before) && Staging(d0, d1, c) && !Pending(d0) && before.revision != 0
    requires c.slot == InactiveSlot(before.slot) && c.revision == before.revision + 1
    requires Decode(rules, d1.At(SlotNs(c.slot)), c.slot) == Some(c)
    ensures Allowed(rules, d1, AfterCommit(d1, c)) && Moved(rules, d0, AfterCommit(d1, c), before, c)
    ensures Unguarded(d1, AfterCommit(d1, c))
  {
    hide Decode;
    HeadRoundTrip(c.slot, c.revision, 0);
    hide Inv, Allowed;
    CommittedFacts(rules, d0, d1, before, c);
    CommitAllowed(rules, d1, c, before.slot, before.revision);
  }

  // ---- a whole life ------------------------------------------------------------------------

  /** The calls of that life: the start, a load, a reset that fails, an update that succeeds. */
  function Began(before: Record): Moment { Moment(Booted, 1, Memory(false, false, before, 0, false)) }

  function LoadedIt(before: Record): Moment { Moment(Loaded(Some(before), true), 1, Memory(true, false, before, 0, true)) }

  function ResetFailed(before: Record, n: nat): Moment { Moment(ResetDone(Io), n, Memory(true, false, before, 0, false)) }

  function UpdatedIt(c: Record, request: WifiUpdate, n: nat): Moment {
    var view := Some(WifiView(c.revision, c.secrets.ssid, c.secrets.password != ""));
    Moment(Updated(request, Success, None, Some(CredentialsOf(c.secrets)), view, true), n, Memory(true, false, c, 0, false))
  }

  lemma LoadFits(rules: Rules, before: Record, d: Durable)
    requires RecordValid(rules, before) && before.slot != Legacy && Inv(rules, d) && Visible(rules, d) == Some(before)
    ensures Life(rules, [d], [Began(before)] + [LoadedIt(before)])
  {
    hide Visible, RecordValid, Inv;
    LifeGrows(rules, [d], [Began(before)], [d], LoadedIt(before));
  }

  lemma ResetFits(rules: Rules, before: Record, ms: seq<Moment>, h0: seq<Durable>, h: seq<Durable>)
    requires Life(rules, h0, ms) && |h0| == 1 && ms[|ms| - 1] == LoadedIt(before)
    requires Run(rules, h) && 1 < |h| && h0 <= h && forall i :: 1 <= i < |h| ==> ResetInProgress(h[i])
    ensures Life(rules, h, ms + [ResetFailed(before, |h|)])
  {
    hide ResetInProgress, Run, Life;
    LifeGrows(rules, h0, ms, h, ResetFailed(before, |h|));
  }

  lemma UpdateFits(rules: Rules, before: Record, request: WifiUpdate, c: Record, ms: seq<Moment>,
                   h0: seq<Durable>, h: seq<Durable>)
    requires Life(rules, h0, ms) && |h0| > 0 && |ms| > 0 && ms[|ms| - 1] == ResetFailed(before, |h0|)
    requires Candidate(before, request) == Some(c)
    requires Run(rules, h) && |h| == |h0| + 2 && h0 <= h && Staging(Last(h0), h[|h0|], c)
    requires Moved(rules, Last(h0), Last(h), before, c) && Last(h).At(SlotNs(before.slot)) == map[]
    ensures Life(rules, h, ms + [UpdatedIt(c, request, |h|)])
  {
    assert HeadIs(Last(h0), before) && CandidateDurable(rules, Last(h), c);
    hide Staging, Moved, Candidate, CandidateDurable, HeadOf, OnlyNs, Run, Life;
    assert Phases(rules, before, c, Last(h0), h0, h) by {
      forall i | |h0| <= i < |h|
        ensures Staging(Last(h0), h[i], c) || Moved(rules, Last(h0), h[i], before, c)
      {
        assert i == |h0| || i == |h0| + 1;
      }
    }
    hide Phases;
    LifeGrows(rules, h0, ms, h, UpdatedIt(c, request, |h|));
  }

  /** A reset cut after the tombstone key (`hs`), and an update over what it left (`h`). */
  ghost predicate Undoing(rules: Rules, before: Record, c: Record, hs: seq<Durable>, h: seq<Durable>) {
    && Run(rules, hs) && Run(rules, h) && |hs| > 3 && |h| == |hs| + 2 && hs <= h
    && Visible(rules, hs[0]) == Some(before) && Pending(hs[1]) && !Pending(Last(hs))
    && (forall i :: 1 <= i < |hs| ==> ResetInProgress(hs[i])) && DropsTombstoneFirst(hs[|hs| - 2], hs[|hs| - 1])
    && Staging(Last(hs), h[|hs|], c) && Moved(rules, Last(hs), Last(h), before, c)
    && Last(h).At(SlotNs(before.slot)) == map[] && Unguarded(h[|hs|], Last(h))
  }

  /** The states up to the cut are a reset in progress. */
  lemma CutResetStates(before: Record, h: seq<Durable>)
    requires CutReset(h, SlotNs(before.slot)) && h[|h| - 1] == Stranded(before)
    ensures |h| > 3 && Pending(h[1]) && !Pending(h[|h| - 1]) && DropsTombstoneFirst(h[|h| - 2], h[|h| - 1])
    ensures forall i :: 1 <= i < |h| ==> ResetInProgress(h[i])
  {
    hide KeyByKey, OneKeyLess, TombstoneWrite;
    forall i | 1 <= i < |h| - 1 ensures Pending(h[i]) { assert h[i] == h[1..|h| - 1][i - 1]; }
  }

  lemma UndoingRun(rules: Rules, before: Record, c: Record) returns (hs: seq<Durable>, h: seq<Durable>)
    requires RecordValid(rules, before) && before.slot != Legacy && SlotForRevision(HeadId(before.slot, before.revision))
    requires RecordValid(rules, c) && c.slot == InactiveSlot(before.slot) && c.revision == before.revision + 1
    ensures Undoing(rules, before, c, hs, h) && hs[0] == Provisioned(before)
  {
    assert before.revision != 0;
    hs := StrandedHeadReachable(rules, before);
    CutResetStates(before, hs);
    StrandedIsEmpty(rules, before);
    var d0 := Last(hs);
    assert HeadIs(d0, before) && d0.At(SlotNs(before.slot)) == map[];
    EncodedDecodes(rules, c);
    hide Run, Inv, Visible, RecordValid, CutReset, Promise, Provisioned, Stranded, Encoded, AfterCommit, Allowed, HeadIs,
         Staging, Moved, Unguarded, DropsTombstoneFirst, ResetInProgress, Pending, Decode;
    RunInvariant(rules, hs, |hs| - 1);
    h := UpdateRun(rules, hs, before, c, Encoded(c));
  }

  lemma UpdateRun(rules: Rules, hs: seq<Durable>, before: Record, c: Record, sp: Space) returns (h: seq<Durable>)
    requires Run(rules, hs) && |hs| > 0 && Inv(rules, Last(hs)) && HeadIs(Last(hs), before) && !Pending(Last(hs))
    requires before.revision != 0 && c.slot == InactiveSlot(before.slot) && c.revision == before.revision + 1
    requires Decode(rules, sp, c.slot) == Some(c) && Last(hs).At(SlotNs(before.slot)) == map[]
    ensures Run(rules, h) && |h| == |hs| + 2 && hs <= h
    ensures Staging(Last(hs), h[|hs|], c) && Moved(rules, Last(hs), Last(h), before, c)
    ensures Last(h).At(SlotNs(before.slot)) == map[] && Unguarded(h[|hs|], Last(h))
  {
    var d1 := Last(hs).With(SlotNs(c.slot), sp);
    var d2 := AfterCommit(d1, c);
    assert d2.At(SlotNs(before.slot)) == d1.At(SlotNs(before.slot)) by { assert before.slot != Legacy; }
    hide Run, Inv, Allowed, HeadIs, Staging, Moved, Unguarded, Pending, Decode, AfterCommit;
    StagingWrites(rules, Last(hs), before, c, sp);
    CommitWrite(rules, Last(hs), d1, before, c);
    RunGrows(rules, hs, d1);
    RunGrows(rules, hs + [d1], d2);
    h := hs + [d1] + [d2];
  }

  lemma UndoneLife(rules: Rules, before: Record, request: WifiUpdate, c: Record, hs: seq<Durable>, h: seq<Durable>)
      returns (ms: seq<Moment>)
    requires RecordValid(rules, before) && before.slot != Legacy && Candidate(before, request) == Some(c)
    requires Undoing(rules, before, c, hs, h)
    ensures Life(rules, h, ms)
    ensures ms == [Began(before), LoadedIt(before), ResetFailed(before, |hs|), UpdatedIt(c, request, |h|)]
  {
    hide Life, Run, Inv, Candidate, RecordValid, Visible, Staging, Moved, ResetInProgress, Began, LoadedIt, ResetFailed,
         UpdatedIt, Pending, DropsTombstoneFirst, Unguarded;
    RunInvariant(rules, hs, 0);
    LoadFits(rules, before, hs[0]);
    var start := [Began(before)] + [LoadedIt(before)];
    ResetFits(rules, before, start, [hs[0]], hs);
    UpdateFits(rules, before, request, c, start + [ResetFailed(before, |hs|)], hs, h);
    ms := start + [ResetFailed(before, |hs|)] + [UpdatedIt(c, request, |h|)];
  }

  /**
   * From every store provisioned with one record, for every update it would accept: a life in which the
   * tombstone becomes durable, and a load then reports the candidate with the old API keys.
   */
  lemma ResetIsUndone(rules: Rules, before: Record, request: WifiUpdate) returns (h: seq<Durable>, ms: seq<Moment>)
    requires RecordValid(rules, before) && before.slot != Legacy && SlotForRevision(HeadId(before.slot, before.revision))
    requires Candidate(before, request).Some?
    ensures Life(rules, h, ms) && h[0] == Provisioned(before) && ms[0].at == 1 < |h|
    ensures Pending(h[1]) && Resurrects(h, ms, 1)
    ensures var c := Candidate(before, request).value;
      && Visible(rules, Last(h)) == Some(c)
      && c.secrets.chatKey == before.secrets.chatKey && c.secrets.asrKey == before.secrets.asrKey
  {
    var c := Candidate(before, request).value;
    CandidateFacts(before, request);
    CandidateValid(rules, before, request);
    hide Life, Candidate, RecordValid, Visible, Provisioned, Undoing, Pending, Resurrects, UpdatedIt, ResetFailed, Began;
    var hs;
    hs, h := UndoingRun(rules, before, c);
    ms := UndoneLife(rules, before, request, c, hs, h);
    UndoneShows(rules, before, request, c, hs, h, ms);
  }

  lemma UndoneShows(rules: Rules, before: Record, request: WifiUpdate, c: Record, hs: seq<Durable>, h: seq<Durable>,
                    ms: seq<Moment>)
    requires Undoing(rules, before, c, hs, h)
    requires ms == [Began(before), LoadedIt(before), ResetFailed(before, |hs|), UpdatedIt(c, request, |h|)]
    ensures 1 < |h| && h[0] == hs[0] && ms[0].at == 1 && Pending(h[1]) && Resurrects(h, ms, 1)
    ensures Visible(rules, Last(h)) == Some(c)
  {
    hide Run, Visible, Staging, Moved, ResetInProgress, DropsTombstoneFirst, Unguarded, Pending;
    assert h[1] == hs[1] && h[|hs| - 2] == hs[|hs| - 2] && h[|hs| - 1] == hs[|hs| - 1];
    assert ResurrectedBy(h, ms, 2, |hs| - 2, |hs|);
    hide ResurrectedBy;
    MovedShows(rules, Last(hs), Last(h), before, c);
  }

  lemma CandidateValid(rules: Rules, before: Record, request: WifiUpdate)
    requires RecordValid(rules, before) && Candidate(before, request).Some?
    ensures RecordValid(rules, Candidate(before, request).value)
  {
    PreparedIsValid(before.secrets, before.revision, request);
  }
}
