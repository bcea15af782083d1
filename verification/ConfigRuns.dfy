/**
 * Whole lives of the device's configuration: boots, loads, Wi-Fi updates and
 * resets in any order, every flash and network call free to fail.
 *
 * `AnyLife` runs the real adapter and transaction and records what each call
 * did as a `Life`; everything else is proved about lives. A power cut is a boot
 * after which nothing but the flash is left.
 */
module ConfigRuns {
  import opened Common
  import opened ConfigRecord
  import opened Nvs
  import opened ConfigStore
  import opened ConfigTransaction
  import opened ConfigHistory

  // ---- what a life is ----------------------------------------------------------

  /** What the transaction remembers: `loadedAt` is the durable state its record was loaded from. */
  datatype Memory = Memory(initialized: bool, recovery: bool, active: Record, loadedAt: nat, undisturbed: bool)

  /**
   * A call and its outcome; `quiet` says that no flash or network call failed during it. `Booted` stands
   * for a restart and for a new transaction object alike: nothing is remembered.
   */
  datatype Entry =
    | Booted
    | Loaded(record: Option<Record>, quiet: bool)
    | Updated(request: WifiUpdate, status: Status, before: Option<Credentials>, after: Option<Credentials>,
              view: Option<WifiView>, quiet: bool)
    | ResetDone(ret: Err)
    | WasRead(read: Option<Record>)

  /** After a call there were `at` durable states so far, the last one current. */
  datatype Moment = Moment(entry: Entry, at: nat, memory: Memory)

  ghost predicate LoadStep(rules: Rules, h0: seq<Durable>, h: seq<Durable>, m: Memory, m': Memory,
                           record: Option<Record>, quiet: bool)
    requires |h0| > 0 && |h| > 0
  {
    && LoadSafe(rules, Last(h0), h0, h)
    && (record.Some? ==> Visible(rules, Last(h)) == record)
    && (quiet && Visible(rules, Last(h0)).Some? ==> record == Some(Migrated(rules, Visible(rules, Last(h0)).value)))
    && m' == if record.Some? && RecordValid(rules, record.value)
             then Memory(true, false, record.value, |h| - 1, true) else m
  }

  ghost predicate UpdateStep(rules: Rules, h0: seq<Durable>, h: seq<Durable>, m: Memory, m': Memory, e: Entry)
    requires |h0| > 0 && |h| > 0 && e.Updated?
  {
    var candidate := Candidate(m.active, e.request);
    if Untouched(e.status) then
      h == h0 && m' == m && e.after == e.before && (m.initialized && !m.recovery ==> !Acceptable(m.active.revision, e.request))
    else
      && m.initialized && !m.recovery && candidate.Some? && Asked(m.active, e.request, candidate.value)
      && m' == m.(active := m'.active, recovery := m'.recovery)
      && Phases(rules, m.active, candidate.value, Last(h0), h0, h)
      && Outcome(rules, e.status, m.active, candidate.value, Last(h0), e.before, m'.active, Last(h), e.after, m'.recovery, e.view)
      && (e.quiet ==> (e.status == Success <==> HeadIs(Last(h0), m.active)))
  }

  ghost predicate ResetStep(h0: seq<Durable>, h: seq<Durable>, m: Memory, m': Memory, ret: Err)
    requires |h0| > 0 && |h| > 0
  {
    && (forall i :: |h0| <= i < |h| ==> ResetInProgress(h[i]))
    && (ret == Ok ==> Last(h) == Durable(map[], map[], map[], map[]))
    && m' == m.(undisturbed := m.undisturbed && h == h0)
  }

  function Last(h: seq<Durable>): Durable
    requires |h| > 0
  {
    h[|h| - 1]
  }

  ghost predicate Step(rules: Rules, h0: seq<Durable>, h: seq<Durable>, m: Memory, m': Memory, e: Entry) {
    && |h0| > 0 && h0 <= h
    && match e
       case Booted => h == h0 && !m'.initialized
       case Loaded(record, quiet) => LoadStep(rules, h0, h, m, m', record, quiet)
       case Updated(_, _, _, _, _, _) => UpdateStep(rules, h0, h, m, m', e)
       case ResetDone(ret) => ResetStep(h0, h, m, m', ret)
       case WasRead(record) =>
         h == h0 && m' == m && record == if m.initialized && !m.recovery then Some(m.active) else None
  }

  ghost predicate StepAt(rules: Rules, h: seq<Durable>, m: Moment, m': Moment)
    requires m.at <= |h| && m'.at <= |h|
  {
    Step(rules, h[..m.at], h[..m'.at], m.memory, m'.memory, m'.entry)
  }

  /** The durable states of a device since it was first provisioned, and every call made on it. */
  ghost predicate Life(rules: Rules, h: seq<Durable>, ms: seq<Moment>) {
    && Run(rules, h)
    && |ms| > 0 && 0 < ms[0].at && !ms[0].memory.initialized && ms[|ms| - 1].at == |h|
    && (forall k :: 0 <= k < |ms| ==> ms[k].at <= |h|)
    && (forall k :: 0 <= k < |ms| - 1 ==> StepAt(rules, h, ms[k], ms[k + 1]))
  }

  /** One more call. */
  lemma LifeGrows(rules: Rules, h: seq<Durable>, ms: seq<Moment>, h': seq<Durable>, m': Moment)
    requires Life(rules, h, ms) && h <= h' && Run(rules, h') && m'.at == |h'|
    requires Step(rules, h, h', ms[|ms| - 1].memory, m'.memory, m'.entry)
    ensures Life(rules, h', ms + [m'])
  {
    hide Step, Run;
    var all := ms + [m'];
    forall k | 0 <= k < |all| - 1 ensures StepAt(rules, h', all[k], all[k + 1]) {
      if k < |ms| - 1 {
        assert StepAt(rules, h, ms[k], ms[k + 1]);
        assert h'[..ms[k].at] == h[..ms[k].at] && h'[..ms[k + 1].at] == h[..ms[k + 1].at];
      } else {
        assert h'[..|h|] == h[..|h|] == h && h'[..|h'|] == h';
      }
    }
  }

  /** Call by call, the number of durable states only grows. */
  lemma {:induction false} AtGrows(rules: Rules, h: seq<Durable>, ms: seq<Moment>, j: nat, k: nat)
    requires Life(rules, h, ms) && j <= k < |ms|
    ensures 0 < ms[j].at <= ms[k].at <= |h|
    decreases k
  {
    hide Run, LoadStep, UpdateStep, ResetStep;
    if k > 0 {
      assert StepAt(rules, h, ms[k - 1], ms[k]);
      AtGrows(rules, h, ms, if j == k then k - 1 else j, k - 1);
    }
  }

  /** The call that made a given durable state. */
  lemma {:induction false} CallOf(rules: Rules, h: seq<Durable>, ms: seq<Moment>, i: nat, n: nat) returns (k: nat)
    requires Life(rules, h, ms) && n < |ms| && ms[0].at <= i < ms[n].at
    ensures k < n && ms[k].at <= i < ms[k + 1].at
    decreases n
  {
    if ms[n - 1].at <= i { k := n - 1; } else { k := CallOf(rules, h, ms, i, n - 1); }
  }

  // ---- agreement -----------------------------------------------------------------

  /** Nothing unresolved, and no reset wrote anything since the record was loaded. */
  predicate Trusted(m: Memory) { m.initialized && !m.recovery && m.undisturbed && m.active.slot != Legacy }

  lemma CandidateFacts(before: Record, request: WifiUpdate)
    requires Candidate(before, request).Some?
    ensures var c := Candidate(before, request).value;
      && c.slot == InactiveSlot(before.slot) && c.slot != Legacy && c.slot != before.slot
      && c.revision == before.revision + 1
      && c.secrets.chatKey == before.secrets.chatKey && c.secrets.asrKey == before.secrets.asrKey
  {
  }

  /** Where an update ends: still in the first phase, or in the second with the candidate on display. */
  lemma PhasesEnd(rules: Rules, before: Record, candidate: Record, d0: Durable, d: Durable, h0: seq<Durable>, h: seq<Durable>)
    requires Phases(rules, before, candidate, d0, h0, h) && |h0| > 0 && d0 == Last(h0) && d == Last(h)
    ensures Staging(d0, d, candidate) || Moved(rules, d0, d, before, candidate)
  {
    hide Moved;
    if h == h0 { assert Staging(d0, d, candidate); }
  }

  lemma UpdateAgrees(rules: Rules, h0: seq<Durable>, h: seq<Durable>, m: Memory, m': Memory, e: Entry)
    requires |h0| > 0 && |h| > 0 && e.Updated? && UpdateStep(rules, h0, h, m, m', e)
    requires Inv(rules, Last(h0)) && Inv(rules, Last(h)) && Trusted(m) && Agrees(rules, Last(h0), m.active)
    ensures Trusted(m') ==> Agrees(rules, Last(h), m'.active)
    ensures !Untouched(e.status) ==>
      var c := Candidate(m.active, e.request).value;
      && OldOrNew(rules, m.active, c, h0, h)
      && (e.quiet ==> e.status == Success)
      && (e.status == Success ==> m'.active == c)
  {
    if !Untouched(e.status) {
      hide Inv, Agrees, Visible, Staging, Moved, CandidateDurable, Phases;
      var c := Candidate(m.active, e.request).value;
      var d0, d := Last(h0), Last(h);
      CandidateFacts(m.active, e.request);
      PhasesShow(rules, m.active, c, d0, h0, h);
      PhasesEnd(rules, m.active, c, d0, d, h0, h);
      PhaseShows(rules, m.active, c, d0, d);
      EndOf(rules, m.active, c, d0, d);
      AgreesIsVisible(rules, d, m'.active);
      assert HeadIs(d0, m.active) by { AgreesHead(rules, d0, m.active); }
    }
  }

  lemma AgreesHead(rules: Rules, d: Durable, active: Record)
    requires Agrees(rules, d, active)
    ensures HeadIs(d, active)
  {
  }

  /** The two phases cannot be taken for one another. */
  lemma EndOf(rules: Rules, before: Record, candidate: Record, d0: Durable, d: Durable)
    requires candidate.slot == InactiveSlot(before.slot)
    ensures Staging(d0, d, candidate) && HeadIs(d0, before) ==> !CandidateDurable(rules, d, candidate)
    ensures Moved(rules, d0, d, before, candidate) ==> !CandidateGone(d0, d, candidate.slot)
  {
    hide Decode, DecodeHead;
    if OnlyNs(d0, d, SlotNs(candidate.slot)) { assert HeadOf(d) == HeadOf(d0); }
  }

  lemma LoadAgrees(rules: Rules, h0: seq<Durable>, h: seq<Durable>, m: Memory, m': Memory,
                   record: Option<Record>, quiet: bool)
    requires |h0| > 0 && h0 <= h && LoadStep(rules, h0, h, m, m', record, quiet)
    requires Inv(rules, Last(h0)) && Inv(rules, Last(h))
    requires Trusted(m) ==> Agrees(rules, Last(h0), m.active)
    ensures Trusted(m') ==> Agrees(rules, Last(h), m'.active)
  {
    hide Inv, Agrees, Visible, HoldsContent;
    if record.Some? { AgreesIsVisible(rules, Last(h), record.value); }
    if Trusted(m) && m' == m {
      AgreesIsVisible(rules, Last(h0), m.active);
      AgreesIsVisible(rules, Last(h), m.active);
      assert Head in Last(h0).meta by { AgreesNeedsHead(rules, Last(h0), m.active); }
      assert Last(h) == Last(h0) || LoadKeeps(rules, Last(h0), h[|h| - 1]);
    }
  }

  lemma AgreesNeedsHead(rules: Rules, d: Durable, active: Record)
    requires Agrees(rules, d, active)
    ensures Head in d.meta
  {
  }

  lemma StepAgrees(rules: Rules, h0: seq<Durable>, h: seq<Durable>, m: Memory, m': Memory, e: Entry)
    requires Step(rules, h0, h, m, m', e) && Inv(rules, Last(h0)) && Inv(rules, Last(h))
    requires Trusted(m) ==> Agrees(rules, Last(h0), m.active)
    ensures Trusted(m') ==> Agrees(rules, Last(h), m'.active)
  {
    hide Inv, Agrees, LoadStep, UpdateStep;
    match e
    case Loaded(record, quiet) => LoadAgrees(rules, h0, h, m, m', record, quiet);
    case Updated(_, _, _, _, _, _) =>
      assert UpdateStep(rules, h0, h, m, m', e);
      if Trusted(m) { UpdateAgrees(rules, h0, h, m, m', e); } else { UpdateNeedsTrust(rules, h0, h, m, m', e); }
    case _ =>
  }

  lemma UpdateNeedsTrust(rules: Rules, h0: seq<Durable>, h: seq<Durable>, m: Memory, m': Memory, e: Entry)
    requires |h0| > 0 && |h| > 0 && e.Updated? && UpdateStep(rules, h0, h, m, m', e) && !Trusted(m)
    ensures !Trusted(m')
  {
    hide Phases, CandidateDurable;
  }

  lemma StepInv(rules: Rules, h: seq<Durable>, ms: seq<Moment>, k: nat)
    requires Life(rules, h, ms) && k < |ms|
    ensures 0 < ms[k].at <= |h| && Inv(rules, Last(h[..ms[k].at]))
    ensures Last(h[..ms[k].at]) == h[ms[k].at - 1]
  {
    hide Inv, Chain, StepAt;
    AtGrows(rules, h, ms, k, k);
    RunInvariant(rules, h, ms[k].at - 1);
  }

  /**
   * Memory and flash agree after every call of every life, from the load on and through every update, as
   * long as no recovery is required and no reset has written anything since the load.
   */
  lemma {:induction false} AlwaysAgrees(rules: Rules, h: seq<Durable>, ms: seq<Moment>, k: nat)
    requires Life(rules, h, ms) && k < |ms|
    ensures 0 < ms[k].at <= |h| && (Trusted(ms[k].memory) ==> Agrees(rules, h[ms[k].at - 1], ms[k].memory.active))
  {
    hide Inv, Agrees, Step;
    StepInv(rules, h, ms, k);
    if k > 0 {
      AlwaysAgrees(rules, h, ms, k - 1);
      StepInv(rules, h, ms, k - 1);
      assert StepAt(rules, h, ms[k - 1], ms[k]);
      StepAgrees(rules, h[..ms[k - 1].at], h[..ms[k].at], ms[k - 1].memory, ms[k].memory, ms[k].entry);
    }
  }

  /** So every accepted update of a trusted transaction is atomic under power cuts, and succeeds when nothing fails. */
  lemma UpdatesAreAtomic(rules: Rules, h: seq<Durable>, ms: seq<Moment>, k: nat)
    requires Life(rules, h, ms) && k < |ms| - 1 && ms[k + 1].entry.Updated?
    requires Trusted(ms[k].memory) && !Untouched(ms[k + 1].entry.status)
    ensures ms[k].at <= ms[k + 1].at <= |h| && Candidate(ms[k].memory.active, ms[k + 1].entry.request).Some?
    ensures OldOrNew(rules, ms[k].memory.active, Candidate(ms[k].memory.active, ms[k + 1].entry.request).value,
                     h[..ms[k].at], h[..ms[k + 1].at])
    ensures ms[k + 1].entry.quiet ==> ms[k + 1].entry.status == Success
  {
    hide Inv, Agrees, LoadStep, UpdateStep, OldOrNew;
    AlwaysAgrees(rules, h, ms, k);
    StepInv(rules, h, ms, k);
    StepInv(rules, h, ms, k + 1);
    assert StepAt(rules, h, ms[k], ms[k + 1]);
    UpdateAgrees(rules, h[..ms[k].at], h[..ms[k + 1].at], ms[k].memory, ms[k + 1].memory, ms[k + 1].entry);
    assert Candidate(ms[k].memory.active, ms[k + 1].entry.request).Some? by {
      UpdateCandidate(rules, h[..ms[k].at], h[..ms[k + 1].at], ms[k].memory, ms[k + 1].memory, ms[k + 1].entry);
    }
  }

  lemma UpdateCandidate(rules: Rules, h0: seq<Durable>, h: seq<Durable>, m: Memory, m': Memory, e: Entry)
    requires |h0| > 0 && |h| > 0 && e.Updated? && UpdateStep(rules, h0, h, m, m', e) && !Untouched(e.status)
    ensures m.initialized && Candidate(m.active, e.request).Some?
    ensures Phases(rules, m.active, Candidate(m.active, e.request).value, Last(h0), h0, h)
  {
    hide Phases, Outcome;
  }

  // ---- where a record can come from ------------------------------------------------

  /** An update asked for this record, and its head was committed at or before state `j`. */
  ghost predicate ByUpdate(h: seq<Durable>, ms: seq<Moment>, j: nat, r: Record) {
    exists k: nat, i: nat :: CommittedBy(h, ms, k, i, r) && i <= j
  }

  ghost predicate CommittedBy(h: seq<Durable>, ms: seq<Moment>, k: nat, i: nat, r: Record) {
    && k < |ms| - 1 && ms[k + 1].entry.Updated? && !Untouched(ms[k + 1].entry.status)
    && Candidate(ms[k].memory.active, ms[k + 1].entry.request) == Some(r)
    && 0 < ms[k].at <= i < ms[k + 1].at <= |h|
    && HeadOf(h[i]) == Some(HeadId(r.slot, r.revision)) != HeadOf(h[i - 1])
  }

  /** The record the device began with, or one an update committed. */
  ghost predicate Known(rules: Rules, h: seq<Durable>, ms: seq<Moment>, j: nat, r: Record)
    requires Life(rules, h, ms)
  {
    || (Visible(rules, h[ms[0].at - 1]).Some? && SameContent(r, Visible(rules, h[ms[0].at - 1]).value))
    || ByUpdate(h, ms, j, r)
  }

  /** What nothing showed at the beginning never shows. */
  lemma {:induction false} NothingFromNothing(rules: Rules, h: seq<Durable>, ms: seq<Moment>, k: nat)
    requires Life(rules, h, ms) && k < |ms| && Visible(rules, h[ms[0].at - 1]).None?
    ensures 0 < ms[k].at <= |h| && !ms[k].memory.initialized
    ensures forall j :: ms[0].at - 1 <= j < ms[k].at ==> Visible(rules, h[j]).None?
  {
    hide Inv, Run, Visible;
    AtGrows(rules, h, ms, k, k);
    if k > 0 {
      NothingFromNothing(rules, h, ms, k - 1);
      AtGrows(rules, h, ms, k - 1, k);
      assert StepAt(rules, h, ms[k - 1], ms[k]);
      AtGrows(rules, h, ms, 0, k - 1);
      assert Last(h[..ms[k - 1].at]) == h[ms[k - 1].at - 1];
      StepShowsNothing(rules, h[..ms[k - 1].at], h[..ms[k].at], ms[k - 1].memory, ms[k].memory, ms[k].entry);
      forall j | ms[k - 1].at <= j < ms[k].at ensures Visible(rules, h[j]).None? {
        assert h[j] == h[..ms[k].at][j];
      }
    }
  }

  lemma StepShowsNothing(rules: Rules, h0: seq<Durable>, h: seq<Durable>, m: Memory, m': Memory, e: Entry)
    requires Step(rules, h0, h, m, m', e) && Visible(rules, Last(h0)).None? && !m.initialized
    ensures !m'.initialized && forall j :: |h0| <= j < |h| ==> Visible(rules, h[j]).None?
  {
    hide Visible, Held, ResetInProgress, Outcome, Phases;
    if e.ResetDone? {
      forall j | |h0| <= j < |h| ensures Visible(rules, h[j]).None? { ResetHoldsNothing(rules, h[j]); }
    }
  }

  lemma SameContentChains(a: Record, b: Record, c: Record)
    requires SameContent(a, b)
    ensures SameContent(b, c) ==> SameContent(a, c)
    ensures b.slot != Legacy ==> a == b
  {
  }

  /** A record that was known stays known while only its slot changes. */
  lemma KnownStays(rules: Rules, h: seq<Durable>, ms: seq<Moment>, i: nat, j: nat, r: Record, r': Record)
    requires Life(rules, h, ms) && i <= j && Known(rules, h, ms, i, r) && SameContent(r', r)
    ensures Known(rules, h, ms, j, r')
  {
    hide Run, Step, Visible;
    if ByUpdate(h, ms, i, r) {
      var k: nat, n: nat :| CommittedBy(h, ms, k, n, r) && n <= i;
      CandidateFacts(ms[k].memory.active, ms[k + 1].entry.request);
      SameContentChains(r', r, r);
      assert CommittedBy(h, ms, k, n, r') && n <= j;
    } else {
      SameContentChains(r', r, Visible(rules, h[ms[0].at - 1]).value);
    }
  }

  /** The write that moved the head between two states. */
  lemma {:induction false} WhereMoved(h: seq<Durable>, a: nat, b: nat, id: HeadId) returns (i: nat)
    requires a < b < |h| && HeadOf(h[a]) != Some(id) && HeadOf(h[b]) == Some(id)
    ensures a < i <= b && HeadOf(h[i]) == Some(id) != HeadOf(h[i - 1])
    decreases b
  {
    hide HeadOf;
    if HeadOf(h[b - 1]) != Some(id) { i := b; } else { i := WhereMoved(h, a, b - 1, id); }
  }

  lemma StagingHolds(rules: Rules, d0: Durable, d: Durable, candidate: Record)
    requires Staging(d0, d, candidate) && candidate.slot != Legacy && Inv(rules, d0)
    ensures Held(rules, d) == Held(rules, d0)
  {
    hide Decode, DecodeHead;
    if Head in d0.meta && !HeadNames(d0, candidate.slot) {
      HeadFrame(rules, d0, d, SlotNs(candidate.slot));
    }
  }

  lemma MovedHolds(rules: Rules, d0: Durable, d: Durable, before: Record, candidate: Record)
    requires Moved(rules, d0, d, before, candidate)
    ensures Held(rules, d).Some? ==> Held(rules, d) == Some(candidate)
    ensures candidate.slot == InactiveSlot(before.slot) ==> HeadOf(d0) != HeadOf(d) == Some(HeadId(candidate.slot, candidate.revision))
  {
    hide Decode;
  }

  /** After each call, whatever record any state so far holds is known. */
  lemma {:induction false} HeldIsKnown(rules: Rules, h: seq<Durable>, ms: seq<Moment>, k: nat)
    requires Life(rules, h, ms) && k < |ms| && Visible(rules, h[ms[0].at - 1]).Some?
    ensures 0 < ms[k].at <= |h|
    ensures forall j :: ms[0].at - 1 <= j < ms[k].at && Held(rules, h[j]).Some? ==> Known(rules, h, ms, j, Held(rules, h[j]).value)
  {
    hide Inv, Run, Step, Visible, Held, ByUpdate;
    AtGrows(rules, h, ms, k, k);
    if k == 0 {
      VisibleIsHeld(rules, h[ms[0].at - 1]);
    } else {
      HeldIsKnown(rules, h, ms, k - 1);
      AtGrows(rules, h, ms, k - 1, k);
      forall j | ms[k - 1].at <= j < ms[k].at && Held(rules, h[j]).Some?
        ensures Known(rules, h, ms, j, Held(rules, h[j]).value)
      {
        AtGrows(rules, h, ms, 0, k - 1);
        StepHeldIsKnown(rules, h, ms, k - 1, j);
      }
    }
  }

  lemma StepHeldIsKnown(rules: Rules, h: seq<Durable>, ms: seq<Moment>, k: nat, j: nat)
    requires Life(rules, h, ms) && k < |ms| - 1 && 0 < ms[k].at <= j < ms[k + 1].at <= |h|
    requires ms[0].at <= ms[k].at && Visible(rules, h[ms[0].at - 1]).Some? && Held(rules, h[j]).Some?
    requires Held(rules, h[ms[k].at - 1]).Some? ==> Known(rules, h, ms, ms[k].at - 1, Held(rules, h[ms[k].at - 1]).value)
    ensures Known(rules, h, ms, j, Held(rules, h[j]).value)
  {
    hide Inv, Run, Visible, Held, Known, LoadStep, UpdateStep, ResetStep;
    var h0, h1 := h[..ms[k].at], h[..ms[k + 1].at];
    var d0, e := h[ms[k].at - 1], ms[k + 1].entry;
    assert StepAt(rules, h, ms[k], ms[k + 1]);
    assert Last(h0) == d0 && h1[j] == h[j];
    match e
    case Loaded(record, quiet) =>
      LoadHolds(rules, h0, h1, ms[k].memory, ms[k + 1].memory, record, quiet, j);
      KnownStays(rules, h, ms, ms[k].at - 1, j, Held(rules, d0).value, Held(rules, h[j]).value);
    case Updated(_, _, _, _, _, _) =>
      UpdateHolds(rules, h, ms, k, j);
    case ResetDone(ret) =>
      assert ResetInProgress(h1[j]) by { ResetStates(h0, h1, ms[k].memory, ms[k + 1].memory, ret, j); }
      ResetHoldsNothing(rules, h[j]);
    case _ => assert false;
  }

  lemma ResetStates(h0: seq<Durable>, h: seq<Durable>, m: Memory, m': Memory, ret: Err, j: nat)
    requires |h0| > 0 && |h| > 0 && ResetStep(h0, h, m, m', ret) && |h0| <= j < |h|
    ensures ResetInProgress(h[j])
  {
  }

  lemma LoadHolds(rules: Rules, h0: seq<Durable>, h: seq<Durable>, m: Memory, m': Memory, record: Option<Record>, quiet: bool, j: nat)
    requires |h0| > 0 && |h| > 0 && LoadStep(rules, h0, h, m, m', record, quiet) && |h0| <= j < |h|
    requires Held(rules, h[j]).Some?
    ensures Held(rules, Last(h0)).Some? && SameContent(Held(rules, h[j]).value, Held(rules, Last(h0)).value)
  {
    hide Visible, Held;
    VisibleIsHeld(rules, Last(h0));
    assert LoadKeeps(rules, Last(h0), h[j]);
  }

  lemma UpdateHolds(rules: Rules, h: seq<Durable>, ms: seq<Moment>, k: nat, j: nat)
    requires Life(rules, h, ms) && k < |ms| - 1 && 0 < ms[k].at <= j < ms[k + 1].at <= |h|
    requires ms[k + 1].entry.Updated? && Held(rules, h[j]).Some?
    requires Held(rules, h[ms[k].at - 1]).Some? ==> Known(rules, h, ms, ms[k].at - 1, Held(rules, h[ms[k].at - 1]).value)
    ensures Known(rules, h, ms, j, Held(rules, h[j]).value)
  {
    var before, e := ms[k].memory.active, ms[k + 1].entry;
    var h0, h1 := h[..ms[k].at], h[..ms[k + 1].at];
    var d0 := h[ms[k].at - 1];
    UpdateTouches(rules, h, ms, k);
    var c := Candidate(before, e.request).value;
    hide Run, Visible, Held, Step, Staging, Moved, HeadOf;
    CandidateFacts(before, e.request);
    StepInv(rules, h, ms, k);
    assert h1[j] == h[j] && Last(h0) == d0;
    if Staging(d0, h[j], c) {
      StagingHolds(rules, d0, h[j], c);
      KnownStays(rules, h, ms, ms[k].at - 1, j, Held(rules, d0).value, Held(rules, h[j]).value);
    } else {
      MovedHolds(rules, d0, h[j], before, c);
      var i := WhereMoved(h, ms[k].at - 1, j, HeadId(c.slot, c.revision));
      assert CommittedBy(h, ms, k, i, c) && i <= j;
    }
  }

  /** An update that wrote anything was accepted, and each of its states is in one of the two phases. */
  lemma UpdateTouches(rules: Rules, h: seq<Durable>, ms: seq<Moment>, k: nat)
    requires Life(rules, h, ms) && k < |ms| - 1 && 0 < ms[k].at < ms[k + 1].at && ms[k + 1].entry.Updated?
    ensures var before, e := ms[k].memory.active, ms[k + 1].entry;
      && ms[k].memory.initialized && !Untouched(e.status) && Candidate(before, e.request).Some?
      && Phases(rules, before, Candidate(before, e.request).value, h[ms[k].at - 1], h[..ms[k].at], h[..ms[k + 1].at])
  {
    hide Phases, Outcome, Run;
    assert StepAt(rules, h, ms[k], ms[k + 1]);
    assert Last(h[..ms[k].at]) == h[ms[k].at - 1];
    assert h[..ms[k].at] != h[..ms[k + 1].at];
  }

  /**
   * Every record that a load reports in any life, or that one could report at any power cut, is the one
   * visible at the beginning or the candidate of an update whose head was committed before.
   */
  lemma ReportsAreKnown(rules: Rules, h: seq<Durable>, ms: seq<Moment>, j: nat)
    requires Life(rules, h, ms) && ms[0].at - 1 <= j < |h| && Visible(rules, h[j]).Some?
    ensures Known(rules, h, ms, j, Visible(rules, h[j]).value)
  {
    hide Run, Step, Visible, Held, Known;
    if Visible(rules, h[ms[0].at - 1]).None? {
      NothingFromNothing(rules, h, ms, |ms| - 1);
    } else {
      HeldIsKnown(rules, h, ms, |ms| - 1);
      VisibleIsHeld(rules, h[j]);
    }
  }

  // ---- reset -----------------------------------------------------------------------

  /** A transaction's record was on display when it was loaded, in the same boot. */
  lemma {:induction false} LoadedWhenVisible(rules: Rules, h: seq<Durable>, ms: seq<Moment>, k: nat)
    requires Life(rules, h, ms) && k < |ms| && ms[k].memory.initialized
    ensures ms[k].memory.loadedAt < ms[k].at <= |h| && Visible(rules, h[ms[k].memory.loadedAt]).Some?
    decreases k
  {
    hide Run, Visible, Phases, Outcome, LoadSafe;
    AtGrows(rules, h, ms, k, k);
    if k > 0 {
      AtGrows(rules, h, ms, k - 1, k);
      assert StepAt(rules, h, ms[k - 1], ms[k]);
      if ms[k - 1].memory.initialized { LoadedWhenVisible(rules, h, ms, k - 1); }
      assert Last(h[..ms[k].at]) == h[ms[k].at - 1];
    }
  }

  /**
   * After the tombstone of state `t`, a reset was cut with its head stranded (`u`), and then an update by a
   * transaction loaded before that, with no boot in between, moved the head (`i`) outside any reset.
   */
  ghost predicate Resurrects(h: seq<Durable>, ms: seq<Moment>, t: nat) {
    exists k: nat, u: nat, i: nat :: t <= u < i && ResurrectedBy(h, ms, k, u, i)
  }

  ghost predicate ResurrectedBy(h: seq<Durable>, ms: seq<Moment>, k: nat, u: nat, i: nat) {
    && u < i && k < |ms| - 1 && ms[k + 1].entry.Updated? && ms[k].memory.initialized && ms[k].memory.loadedAt < u
    && 0 < ms[k].at <= i + 1 < ms[k + 1].at <= |h|
    && DropsTombstoneFirst(h[u], h[u + 1]) && Unguarded(h[i], h[i + 1])
  }

  /** An update's own states hold a tombstone exactly if it was there before. */
  lemma UpdateKeepsReset(rules: Rules, h: seq<Durable>, ms: seq<Moment>, k: nat, j: nat)
    requires Life(rules, h, ms) && k < |ms| - 1 && 0 < ms[k].at <= ms[k + 1].at <= |h| && ms[k + 1].entry.Updated?
    requires ms[k].at - 1 <= j < ms[k + 1].at
    ensures Reset in h[j].meta <==> Reset in h[ms[k].at - 1].meta
    ensures Pending(h[j]) == Pending(h[ms[k].at - 1])
  {
    if ms[k].at <= j {
      UpdateTouches(rules, h, ms, k);
      var c := Candidate(ms[k].memory.active, ms[k + 1].entry.request).value;
      hide Run, Step, Candidate, CandidateDurable;
      CandidateFacts(ms[k].memory.active, ms[k + 1].entry.request);
      assert h[..ms[k + 1].at][j] == h[j];
    }
  }

  /** When the head moves outside a reset between states of one update, it was there before. */
  lemma MoveNeedsHead(rules: Rules, before: Record, candidate: Record, d0: Durable, d: Durable, d': Durable)
    requires d == d0 || Staging(d0, d, candidate) || Moved(rules, d0, d, before, candidate)
    requires Staging(d0, d', candidate) || Moved(rules, d0, d', before, candidate)
    requires Unguarded(d, d') && candidate.slot != Legacy
    ensures Head in d.meta
  {
    hide DecodeHead, Decode;
    if Staging(d0, d', candidate) { assert HeadOf(d') == HeadOf(d0); }
  }

  lemma UpdateNeedsHead(rules: Rules, h: seq<Durable>, ms: seq<Moment>, k: nat, i: nat)
    requires Life(rules, h, ms) && k < |ms| - 1 && 0 < ms[k].at <= i + 1 < ms[k + 1].at <= |h|
    requires ms[k + 1].entry.Updated? && Unguarded(h[i], h[i + 1])
    ensures Head in h[i].meta && ms[k].memory.initialized
  {
    UpdateTouches(rules, h, ms, k);
    var before, c := ms[k].memory.active, Candidate(ms[k].memory.active, ms[k + 1].entry.request).value;
    CandidateFacts(before, ms[k + 1].entry.request);
    hide Run, Step, Candidate, Unguarded, Staging, Moved;
    assert h[..ms[k + 1].at][i + 1] == h[i + 1];
    if ms[k].at <= i { assert h[..ms[k + 1].at][i] == h[i]; }
    MoveNeedsHead(rules, before, c, h[ms[k].at - 1], h[i], h[i + 1]);
  }

  /** A load in which, or before which, a tombstone is durable shows nothing that was not shown before. */
  lemma LoadShowsNothing(rules: Rules, h0: seq<Durable>, h: seq<Durable>, t: nat, n: nat)
    requires 0 < |h0| <= n < |h| && LoadSafe(rules, Last(h0), h0, h) && t < n && Pending(h[t])
    requires t < |h0| ==> Visible(rules, h[|h0| - 1]).None?
    ensures Visible(rules, h[n]).None?
  {
    hide Visible, Held, SameContent;
    assert LoadKeeps(rules, Last(h0), h[n]) && Last(h0) == h[|h0| - 1];
    if |h0| <= t {
      assert LoadKeeps(rules, Last(h0), h[t]);
      ResetHoldsNothing(rules, h[t]);
    }
  }

  /** Only an update can move the head outside a reset once everything is forgotten. */
  lemma OnlyUpdatesMove(rules: Rules, h: seq<Durable>, ms: seq<Moment>, t: nat, k: nat, i: nat)
    requires Life(rules, h, ms) && k < |ms| - 1 && 0 < ms[k].at <= i + 1 < ms[k + 1].at <= |h|
    requires t <= i && Pending(h[t]) && Unguarded(h[i], h[i + 1])
    requires forall j :: t <= j <= i ==> Visible(rules, h[j]).None?
    ensures ms[k + 1].entry.Updated?
  {
    var h0, h1, e := h[..ms[k].at], h[..ms[k + 1].at], ms[k + 1].entry;
    hide Run, Visible, Unguarded, UpdateStep, LoadSafe, ResetInProgress, Pending;
    assert StepAt(rules, h, ms[k], ms[k + 1]);
    assert h1[i + 1] == h[i + 1] && h1[t] == h[t] && h1[|h0| - 1] == h[|h0| - 1];
    MovingShows(rules, h, i);
    if e.Loaded? {
      LoadShowsNothing(rules, h0, h1, t, i + 1);
    } else if e.ResetDone? {
      ResetHoldsNothing(rules, h1[i + 1]);
    }
  }

  /** The first head move after a tombstone that is outside a reset resurrects what was reset. */
  lemma FirstMoveResurrects(rules: Rules, h: seq<Durable>, ms: seq<Moment>, t: nat, i: nat)
    requires Life(rules, h, ms) && ms[0].at - 1 <= t <= i < |h| - 1 && Pending(h[t])
    requires Unguarded(h[i], h[i + 1]) && forall j :: t <= j < i ==> !Unguarded(h[j], h[j + 1])
    ensures Resurrects(h, ms, t)
  {
    hide Run, Visible, Step, Unguarded, Pending, DropsTombstoneFirst;
    var k := CallOf(rules, h, ms, i + 1, |ms| - 1);
    AtGrows(rules, h, ms, k, k + 1);
    forall j | t <= j <= i ensures Visible(rules, h[j]).None? {
      ForgottenUntil(rules, h, t, j);
      ForgottenShowsNothing(rules, h[j]);
    }
    OnlyUpdatesMove(rules, h, ms, t, k, i);
    UpdateNeedsHead(rules, h, ms, k, i);
    assert !Pending(h[i]) by { UnguardedIsOutside(h[i], h[i + 1]); }
    var u := StrandedBefore(rules, h, t, i);
    LoadedWhenVisible(rules, h, ms, k);
    if ms[k].at <= t {
      UpdateKeepsReset(rules, h, ms, k, t);
      UpdateKeepsReset(rules, h, ms, k, i);
    }
    assert ResurrectedBy(h, ms, k, u, i);
  }

  lemma UnguardedIsOutside(d: Durable, d': Durable)
    requires Unguarded(d, d')
    ensures !Pending(d)
  {
  }

  lemma {:induction false} FirstMove(h: seq<Durable>, t: nat, i: nat) returns (first: nat)
    requires t <= i < |h| - 1 && Unguarded(h[i], h[i + 1])
    ensures t <= first <= i && Unguarded(h[first], h[first + 1])
    ensures forall j :: t <= j < first ==> !Unguarded(h[j], h[j + 1])
    decreases i
  {
    hide Unguarded;
    if j :| t <= j < i && Unguarded(h[j], h[j + 1]) { first := FirstMove(h, t, j); } else { first := i; }
  }

  /**
   * Reset safety, exactly. From a durable tombstone on, in every life, no load can report a record, if and
   * only if no transaction that survived a reset cut between the tombstone key and the head key went on to
   * commit an update in the same boot. Then every load after the tombstone finds nothing.
   */
  lemma ResetSafety(rules: Rules, h: seq<Durable>, ms: seq<Moment>, t: nat)
    requires Life(rules, h, ms) && ms[0].at - 1 <= t < |h| && Pending(h[t])
    ensures (forall j :: t <= j < |h| ==> Visible(rules, h[j]).None?) <==> !Resurrects(h, ms, t)
    ensures !Resurrects(h, ms, t) ==>
      forall k :: 0 < k < |ms| && ms[k].at > t && ms[k].entry.Loaded? ==> ms[k].entry.record.None?
  {
    hide Run, Visible, Step, Unguarded, Pending, ResurrectedBy;
    if Resurrects(h, ms, t) {
      var k: nat, u: nat, i: nat :| t <= u < i && ResurrectedBy(h, ms, k, u, i);
      assert i + 1 < |h| && Unguarded(h[i], h[i + 1]) by { ResurrectingMove(h, ms, k, u, i); }
      MovingShows(rules, h, i);
    } else {
      forall i | t <= i < |h| - 1 ensures !Unguarded(h[i], h[i + 1]) {
        if Unguarded(h[i], h[i + 1]) {
          var first := FirstMove(h, t, i);
          FirstMoveResurrects(rules, h, ms, t, first);
        }
      }
      ResetForgets(rules, h, t);
      forall k | 0 < k < |ms| && ms[k].at > t && ms[k].entry.Loaded? ensures ms[k].entry.record.None? {
        LoadShows(rules, h, ms, k);
      }
    }
  }

  lemma ResurrectingMove(h: seq<Durable>, ms: seq<Moment>, k: nat, u: nat, i: nat)
    requires ResurrectedBy(h, ms, k, u, i)
    ensures i + 1 < |h| && Unguarded(h[i], h[i + 1])
  {
  }

  lemma LoadShows(rules: Rules, h: seq<Durable>, ms: seq<Moment>, k: nat)
    requires Life(rules, h, ms) && 0 < k < |ms| && ms[k].entry.Loaded?
    ensures 0 < ms[k].at <= |h| && (ms[k].entry.record.Some? ==> Visible(rules, h[ms[k].at - 1]) == ms[k].entry.record)
  {
    hide Run, Visible, LoadSafe;
    AtGrows(rules, h, ms, k, k);
    assert StepAt(rules, h, ms[k - 1], ms[k]);
    assert Last(h[..ms[k].at]) == h[ms[k].at - 1];
  }

  /** Every update runs on a record loaded from the current durable state, as the firmware's own jobs do. */
  predicate LoadsFirst(ms: seq<Moment>) {
    forall k :: 0 <= k < |ms| - 1 && ms[k + 1].entry.Updated? && ms[k].memory.initialized ==>
      ms[k].memory.loadedAt == ms[k].at - 1
  }

  /** Then a reset is final: the exception cannot occur. */
  lemma FreshTransactionsForget(rules: Rules, h: seq<Durable>, ms: seq<Moment>, t: nat)
    requires Life(rules, h, ms) && ms[0].at - 1 <= t < |h| && Pending(h[t]) && LoadsFirst(ms)
    ensures forall j :: t <= j < |h| ==> Visible(rules, h[j]).None?
  {
    hide Run, Visible, Step, Pending, Unguarded;
    ResetSafety(rules, h, ms, t);
    if Resurrects(h, ms, t) {
      var k: nat, u: nat, i: nat :| t <= u < i && ResurrectedBy(h, ms, k, u, i);
      assert ms[k].memory.loadedAt == ms[k].at - 1;
      UpdateKeepsReset(rules, h, ms, k, u);
      UpdateKeepsReset(rules, h, ms, k, u + 1);
      assert false;
    }
  }

  // ---- the calls ----------------------------------------------------------------------

  datatype Call = LoadCall | UpdateCall(request: WifiUpdate) | ResetCall | ReadCall

  /** The memory of the life is the transaction's own; no lock is held between calls. */
  ghost predicate Mirrors(transaction: Transaction, m: Memory)
    reads transaction, transaction.store
  {
    && m.initialized == transaction.initialized && m.recovery == transaction.recoveryRequired && m.active == transaction.active
    && !transaction.locked && !transaction.store.storageLocked && !transaction.store.lifecycleLocked
  }

  method Load(transaction: Transaction, ghost m: Memory) returns (record: Option<Record>, ghost m': Memory, ghost e: Entry)
    requires transaction.Valid() && Mirrors(transaction, m)
    modifies transaction, transaction.store
    modifies transaction.store.flash`d, transaction.store.flash`history, transaction.store.flash`faults
    ensures transaction.Valid() && Mirrors(transaction, m') && e.Loaded? && e.record == record
    ensures Step(transaction.store.flash.rules, old(transaction.store.flash.history), transaction.store.flash.history, m, m', e)
  {
    hide Inv, Chain, LoadKeeps, Visible, RecordValid;
    var flash := transaction.store.flash;
    ghost var h0, faults := flash.history, flash.faults;
    var ret;
    ret, record := transaction.store.LoadActiveRecord();
    e := Loaded(record, flash.faults == faults);
    m' := m;
    if record.Some? {
      var ok := transaction.Init(record.value);
      if ok { m' := Memory(true, false, record.value, |flash.history| - 1, true); }
    }
    assert LoadStep(flash.rules, h0, flash.history, m, m', record, e.quiet);
  }

  method Update(transaction: Transaction, ghost m: Memory, request: WifiUpdate) returns (ghost m': Memory, ghost e: Entry)
    requires transaction.Valid() && Mirrors(transaction, m)
    modifies transaction, transaction.network, transaction.store
    modifies transaction.store.flash`d, transaction.store.flash`history, transaction.store.flash`faults
    ensures transaction.Valid() && Mirrors(transaction, m') && e.Updated? && e.request == request
    ensures Step(transaction.store.flash.rules, old(transaction.store.flash.history), transaction.store.flash.history, m, m', e)
    ensures Untouched(e.status) ==> m' == m && transaction.store.flash.history == old(transaction.store.flash.history)
  {
    hide Inv, Chain, Phases, Outcome, OldOrNew, Agrees, HeadIs, RecordValid, Candidate;
    var flash := transaction.store.flash;
    ghost var h0, faults, netFaults, net := flash.history, flash.faults, transaction.network.faults, transaction.network.current;
    var status, view := transaction.ApplyWifi(request);
    e := Updated(request, status, net, transaction.network.current, view,
                 flash.faults == faults && transaction.network.faults == netFaults);
    m' := m.(active := transaction.active, recovery := transaction.recoveryRequired);
    assert UpdateStep(flash.rules, h0, flash.history, m, m', e);
  }

  method FullReset(transaction: Transaction, ghost m: Memory) returns (ret: Err, ghost m': Memory, ghost e: Entry)
    requires transaction.Valid() && Mirrors(transaction, m)
    modifies transaction.store
    modifies transaction.store.flash`d, transaction.store.flash`history, transaction.store.flash`faults
    ensures transaction.Valid() && Mirrors(transaction, m') && e == ResetDone(ret)
    ensures Step(transaction.store.flash.rules, old(transaction.store.flash.history), transaction.store.flash.history, m, m', e)
  {
    hide Inv, Chain, RecordValid, ResetInProgress;
    ghost var h0 := transaction.store.flash.history;
    ret := transaction.store.EraseEverything();
    e := ResetDone(ret);
    m' := m.(undisturbed := m.undisturbed && transaction.store.flash.history == h0);
  }

  method OneCall(transaction: Transaction, ghost m: Memory, call: Call) returns (ghost m': Memory, ghost e: Entry)
    requires transaction.Valid() && Mirrors(transaction, m)
    modifies transaction, transaction.network, transaction.store
    modifies transaction.store.flash`d, transaction.store.flash`history, transaction.store.flash`faults
    ensures transaction.Valid() && Mirrors(transaction, m')
    ensures Step(transaction.store.flash.rules, old(transaction.store.flash.history), transaction.store.flash.history, m, m', e)
  {
    hide Inv, Chain, RecordValid, LoadStep, UpdateStep, ResetStep;
    match call
    case LoadCall =>
      var record;
      record, m', e := Load(transaction, m);
    case UpdateCall(request) =>
      m', e := Update(transaction, m, request);
    case ResetCall =>
      var ret;
      ret, m', e := FullReset(transaction, m);
    case ReadCall =>
      var status, record := transaction.CopyActive();
      m', e := m, WasRead(record);
  }

  ghost function Fresh(transaction: Transaction): Memory
    reads transaction
  {
    Memory(false, transaction.recoveryRequired, transaction.active, 0, false)
  }

  /** Everything that is proved about lives, for one life. */
  ghost predicate Sound(rules: Rules, h: seq<Durable>, ms: seq<Moment>)
    requires Life(rules, h, ms)
  {
    && (forall k :: 0 <= k < |ms| && Trusted(ms[k].memory) ==> AgreesAt(rules, h, ms, k))
    && (forall j :: ms[0].at - 1 <= j < |h| && Visible(rules, h[j]).Some? ==> Known(rules, h, ms, j, Visible(rules, h[j]).value))
    && (forall t :: ms[0].at - 1 <= t < |h| && Pending(h[t]) ==>
          ((forall j :: t <= j < |h| ==> Visible(rules, h[j]).None?) <==> !Resurrects(h, ms, t)))
  }

  ghost predicate AgreesAt(rules: Rules, h: seq<Durable>, ms: seq<Moment>, k: nat)
    requires k < |ms|
  {
    0 < ms[k].at <= |h| && Agrees(rules, h[ms[k].at - 1], ms[k].memory.active)
  }

  lemma LivesAreSound(rules: Rules, h: seq<Durable>, ms: seq<Moment>)
    requires Life(rules, h, ms)
    ensures Sound(rules, h, ms)
  {
    hide Run, Step, Visible, Agrees, Known, Pending, Resurrects;
    forall k | 0 <= k < |ms| && Trusted(ms[k].memory) ensures AgreesAt(rules, h, ms, k) {
      AlwaysAgrees(rules, h, ms, k);
    }
    forall j | ms[0].at - 1 <= j < |h| && Visible(rules, h[j]).Some?
      ensures Known(rules, h, ms, j, Visible(rules, h[j]).value)
    {
      ReportsAreKnown(rules, h, ms, j);
    }
    forall t | ms[0].at - 1 <= t < |h| && Pending(h[t])
      ensures (forall j :: t <= j < |h| ==> Visible(rules, h[j]).None?) <==> !Resurrects(h, ms, t)
    {
      ResetSafety(rules, h, ms, t);
    }
  }

  /**
   * `boots[k]` are the calls after the k-th boot. A power cut is a boot in which every call from some
   * point on fails, followed by the next one; nothing but the flash outlives it.
   */
  method AnyLife(flash: Flash, network: Network, boots: seq<seq<Call>>) returns (ghost ms: seq<Moment>)
    requires flash.Valid()
    modifies flash`d, flash`history, flash`faults, network
    ensures flash.Valid() && old(flash.history) <= flash.history
    ensures Life(flash.rules, flash.history, ms) && ms[0].at == |old(flash.history)|
    ensures Sound(flash.rules, flash.history, ms)
  {
    hide Inv, Allowed, LoadStep, UpdateStep, ResetStep, RecordValid, Sound;
    var store := new Store(flash);
    var transaction := new Transaction(store, network);
    ms := [Moment(Booted, |flash.history|, Fresh(transaction))];
    for boot := 0 to |boots|
      invariant flash.Valid() && old(flash.history) <= flash.history
      invariant Life(flash.rules, flash.history, ms) && ms[0].at == |old(flash.history)|
    {
      store := new Store(flash);
      transaction := new Transaction(store, network);
      LifeGrows(flash.rules, flash.history, ms, flash.history, Moment(Booted, |flash.history|, Fresh(transaction)));
      ms := ms + [Moment(Booted, |flash.history|, Fresh(transaction))];
      for i := 0 to |boots[boot]|
        invariant flash.Valid() && old(flash.history) <= flash.history
        invariant Life(flash.rules, flash.history, ms) && ms[0].at == |old(flash.history)|
        invariant transaction.Valid() && transaction.store == store && store.flash == flash
        invariant transaction.network == network && fresh(store) && fresh(transaction)
        invariant Mirrors(transaction, ms[|ms| - 1].memory)
      {
        ghost var h0 := flash.history;
        ghost var m', e := OneCall(transaction, ms[|ms| - 1].memory, boots[boot][i]);
        LifeGrows(flash.rules, h0, ms, flash.history, Moment(e, |flash.history|, m'));
        ms := ms + [Moment(e, |flash.history|, m')];
      }
    }
    LivesAreSound(flash.rules, flash.history, ms);
  }

  // ---- the firmware's own use ------------------------------------------------------------

  datatype Job = WifiJob(request: WifiUpdate) | FactoryReset | Restart

  lemma LoadsFirstGrows(ms: seq<Moment>, m: Moment)
    requires |ms| > 0 && LoadsFirst(ms)
    requires m.entry.Updated? && ms[|ms| - 1].memory.initialized ==> ms[|ms| - 1].memory.loadedAt == ms[|ms| - 1].at - 1
    ensures LoadsFirst(ms + [m])
  {
    var all := ms + [m];
    forall k | 0 <= k < |all| - 1 && all[k + 1].entry.Updated? && all[k].memory.initialized
      ensures all[k].memory.loadedAt == all[k].at - 1
    {
      if k < |ms| - 1 { assert ms[k + 1] == all[k + 1]; }
    }
  }

  /** One job of the network task: load, set up a transaction of its own, apply. */
  method RunWifiJob(store: Store, network: Network, request: WifiUpdate, ghost ms: seq<Moment>) returns (ghost ms': seq<Moment>)
    requires store.flash.Valid() && !store.storageLocked && !store.lifecycleLocked
    requires Life(store.flash.rules, store.flash.history, ms) && LoadsFirst(ms)
    modifies store, network, store.flash`d, store.flash`history, store.flash`faults
    ensures store.flash.Valid() && !store.storageLocked && !store.lifecycleLocked
    ensures old(store.flash.history) <= store.flash.history && ms <= ms'
    ensures Life(store.flash.rules, store.flash.history, ms') && LoadsFirst(ms')
  {
    hide Inv, Allowed, LoadSafe, UpdateStep, ResetStep, RecordValid, Visible, LoadsFirst;
    var flash := store.flash;
    ghost var h0, h1 := flash.history, flash.history;
    var transaction := new Transaction(store, network);
    ms' := ms + [Moment(Booted, |h0|, Fresh(transaction))];
    LifeGrows(flash.rules, h0, ms, h0, Moment(Booted, |h0|, Fresh(transaction)));
    LoadsFirstGrows(ms, Moment(Booted, |h0|, Fresh(transaction)));
    ghost var m0 := Fresh(transaction);
    var record;
    ghost var m1, e1;
    record, m1, e1 := Load(transaction, m0);
    h1 := flash.history;
    LifeGrows(flash.rules, h0, ms', h1, Moment(e1, |h1|, m1));
    LoadsFirstGrows(ms', Moment(e1, |h1|, m1));
    ms' := ms' + [Moment(e1, |h1|, m1)];
    if record.None? || !transaction.initialized { return; }
    ghost var m2, e2 := Update(transaction, m1, request);
    LifeGrows(flash.rules, h1, ms', flash.history, Moment(e2, |flash.history|, m2));
    LoadsFirstGrows(ms', Moment(e2, |flash.history|, m2));
    ms' := ms' + [Moment(e2, |flash.history|, m2)];
  }

  method RunReset(store: Store, network: Network, ghost ms: seq<Moment>) returns (ghost ms': seq<Moment>)
    requires store.flash.Valid() && !store.storageLocked && !store.lifecycleLocked
    requires Life(store.flash.rules, store.flash.history, ms) && LoadsFirst(ms)
    modifies store, store.flash`d, store.flash`history, store.flash`faults
    ensures store.flash.Valid() && !store.storageLocked && !store.lifecycleLocked
    ensures old(store.flash.history) <= store.flash.history && ms <= ms'
    ensures Life(store.flash.rules, store.flash.history, ms') && LoadsFirst(ms')
  {
    hide Inv, Allowed, LoadStep, UpdateStep, ResetStep, RecordValid, LoadsFirst;
    var flash := store.flash;
    ghost var h0 := flash.history;
    var transaction := new Transaction(store, network);
    ghost var m0 := Fresh(transaction);
    LifeGrows(flash.rules, h0, ms, h0, Moment(Booted, |h0|, m0));
    LoadsFirstGrows(ms, Moment(Booted, |h0|, m0));
    ms' := ms + [Moment(Booted, |h0|, m0)];
    var ret;
    ghost var m1, e1;
    ret, m1, e1 := FullReset(transaction, m0);
    LifeGrows(flash.rules, h0, ms', flash.history, Moment(e1, |flash.history|, m1));
    LoadsFirstGrows(ms', Moment(e1, |flash.history|, m1));
    ms' := ms' + [Moment(e1, |flash.history|, m1)];
  }

  /**
   * The network task runs Wi-Fi jobs and resets one after another, each job on a transaction it has just
   * loaded. Used like that, a reset is final: from a durable tombstone on no record is ever reported again.
   */
  method FirmwareLife(flash: Flash, network: Network, jobs: seq<Job>) returns (ghost ms: seq<Moment>)
    requires flash.Valid()
    modifies flash`d, flash`history, flash`faults, network
    ensures flash.Valid() && old(flash.history) <= flash.history
    ensures Life(flash.rules, flash.history, ms) && ms[0].at == |old(flash.history)| && LoadsFirst(ms)
    ensures forall t, j :: |old(flash.history)| - 1 <= t <= j < |flash.history| && Pending(flash.history[t]) ==>
      Visible(flash.rules, flash.history[j]).None?
  {
    hide Inv, Allowed, LoadStep, UpdateStep, ResetStep, RecordValid, Visible, Pending;
    var store := new Store(flash);
    var first := new Transaction(store, network);
    ms := [Moment(Booted, |flash.history|, Fresh(first))];
    for i := 0 to |jobs|
      invariant flash.Valid() && old(flash.history) <= flash.history
      invariant fresh(store) && store.flash == flash && !store.storageLocked && !store.lifecycleLocked
      invariant Life(flash.rules, flash.history, ms) && ms[0].at == |old(flash.history)| && LoadsFirst(ms)
    {
      match jobs[i]
      case WifiJob(request) => ms := RunWifiJob(store, network, request, ms);
      case FactoryReset => ms := RunReset(store, network, ms);
      case Restart => store := new Store(flash);
    }
    forall t, j | |old(flash.history)| - 1 <= t <= j < |flash.history| && Pending(flash.history[t])
      ensures Visible(flash.rules, flash.history[j]).None?
    {
      FreshTransactionsForget(flash.rules, flash.history, ms, t);
    }
  }
}
