/**
 * A Wi-Fi update as one transaction over three things that must agree: the
 * record in memory, the durable head, and the credentials the network uses.
 */
module ConfigTransaction {
  import opened Common
  import opened ConfigRecord
  import opened Nvs
  import opened ConfigStore

  datatype Status =
    | Success
    | InvalidArgument
    | Busy
    | Rejected(error: UpdateError)
    | StageFailed
    | VerifyFailed
    | TrialFailedRolledBack
    | ActivateFailedRolledBack
    | NetworkRecoveryFailed
    | ActivationIndeterminate
    | CandidateCleanupFailed
    | RetiredSlotCleanupFailed
    | RecoveryRequired

  datatype ReadStatus = ReadOk | ReadInvalid | ReadBusy | ReadRecoveryRequired

  datatype WifiView = WifiView(revision: U32, ssid: string, hasPassword: bool)

  /** The Wi-Fi stack: which credentials are in use, if any. A failed connect leaves it anywhere. */
  class Network {
    var current: Option<Credentials>
    ghost var faults: nat

    constructor (initial: Option<Credentials>)
      ensures current == initial
    {
      current := initial;
      faults := 0;
    }

    method Connect(c: Credentials) returns (ok: bool)
      modifies this
      ensures ok ==> current == Some(c)
      ensures faults >= old(faults) && (!ok ==> faults > old(faults))
    {
      ok := *;
      if ok {
        current := Some(c);
      } else {
        current := *;
        faults := faults + 1;
      }
    }

    method Quarantine()
      modifies this
      ensures current == None && faults == old(faults)
    {
      current := None;
    }
  }

  /** The record an accepted request asks for. */
  function Candidate(active: Record, request: WifiUpdate): Option<Record> {
    match PrepareWifiUpdate(active.secrets, active.revision, request)
    case Prepared(secrets, revision) =>
      Some(Record(active.config, secrets, revision, InactiveSlot(active.slot)))
    case Refused(_) => None
  }

  /** The same configuration and API keys, one revision up in the other slot, with the SSID and password asked for. */
  predicate Asked(before: Record, request: WifiUpdate, c: Record) {
    && c.config == before.config && c.revision == before.revision + 1
    && c.slot == (if before.slot == SlotA then SlotB else SlotA)
    && c.secrets.ssid == request.ssid
    && c.secrets.password == (match request.action
                              case Keep => before.secrets.password
                              case Replace => request.password
                              case _ => "")
    && c.secrets.chatKey == before.secrets.chatKey && c.secrets.asrKey == before.secrets.asrKey
  }

  /** There is a candidate exactly for an acceptable request, and it is what was asked for. */
  lemma CandidateExactly(before: Record, request: WifiUpdate)
    ensures Candidate(before, request).Some? <==> Acceptable(before.revision, request)
    ensures Candidate(before, request).Some? ==> Asked(before, request, Candidate(before, request).value)
  {
    PreparedExactly(before.secrets, before.revision, request);
    PreparedIsValid(before.secrets, before.revision, request);
  }

  function InactiveSlot(active: Slot): Slot { if active == SlotA then SlotB else SlotA }

  /** Memory and flash agree: the head names exactly the record in memory. */
  predicate Agrees(rules: Rules, d: Durable, active: Record) {
    && active.slot != Legacy && !Pending(d)
    && HeadOf(d) == Some(HeadId(active.slot, active.revision))
    && Decode(rules, d.At(SlotNs(active.slot)), active.slot) == Some(active)
  }

  /** The old record is still the durable one, and nothing of the candidate can be read. */
  ghost predicate CandidateGone(d0: Durable, d: Durable, slot: Slot) {
    OnlyNs(d0, d, SlotNs(slot)) && d.At(SlotNs(slot)) == map[]
  }

  /** The candidate is durable: the head names it and the slot holds exactly it. */
  predicate CandidateDurable(rules: Rules, d: Durable, candidate: Record) {
    && HeadOf(d) == Some(HeadId(candidate.slot, candidate.revision))
    && Decode(rules, d.At(SlotNs(candidate.slot)), candidate.slot) == Some(candidate)
  }

  /** The head still names the record the update began with. */
  predicate HeadIs(d: Durable, active: Record) {
    active.slot != Legacy && HeadOf(d) == Some(HeadId(active.slot, active.revision))
  }

  /** Before the head moves: only the candidate's slot differs, and never a slot the head names. */
  ghost predicate Staging(d0: Durable, d: Durable, candidate: Record) {
    OnlyNs(d0, d, SlotNs(candidate.slot)) && (HeadNames(d0, candidate.slot) ==> d == d0)
  }

  /** After it: the head moved from exactly the old record's, and the candidate is whole. */
  ghost predicate Moved(rules: Rules, d0: Durable, d: Durable, before: Record, candidate: Record) {
    && HeadIs(d0, before) && CandidateDurable(rules, d, candidate)
    && d.legacy == d0.legacy && d.meta == d0.meta[Head := U64v(EncodeHead(candidate.slot, candidate.revision))]
  }

  /** Each power cut since `h0` is before or after the one write that moves the head. */
  ghost predicate Phases(rules: Rules, before: Record, candidate: Record, d0: Durable, h0: seq<Durable>, h: seq<Durable>) {
    h0 <= h && forall i :: |h0| <= i < |h| ==> Staging(d0, h[i], candidate) || Moved(rules, d0, h[i], before, candidate)
  }

  /** At each power cut since `h0` a load would report the old record or the candidate, whole. */
  ghost predicate OldOrNew(rules: Rules, old_: Record, new_: Record, h0: seq<Durable>, h: seq<Durable>) {
    h0 <= h && forall i :: |h0| <= i < |h| ==>
      Visible(rules, h[i]) == Some(old_) || Visible(rules, h[i]) == Some(new_)
  }

  /**
   * What each result says about memory (`now`), flash (`d`), network (`net`) and the recovery
   * flag, for an update that got past its checks with `before` in memory, `d0` in flash and
   * the network at `net0`.
   */
  ghost predicate Outcome(rules: Rules, status: Status, before: Record, candidate: Record, d0: Durable,
                          net0: Option<Credentials>, now: Record, d: Durable, net: Option<Credentials>,
                          recovery: bool, view: Option<WifiView>) {
    && !Untouched(status) && (recovery <==> NeedsRecovery(status))
    // the candidate won, over exactly the head it was prepared against
    && (status in {Success, RetiredSlotCleanupFailed} ==>
          && now == candidate && CandidateDurable(rules, d, candidate)
          && HeadOf(d0) == Some(HeadId(before.slot, before.revision))
          && net == Some(CredentialsOf(candidate.secrets))
          && view == Some(WifiView(candidate.revision, candidate.secrets.ssid, candidate.secrets.password != "")))
    && (status == Success ==> d.At(SlotNs(before.slot)) == map[])
    // otherwise memory keeps the old record
    && (status !in {Success, RetiredSlotCleanupFailed} ==> now == before && view.None?)
    // and a clean failure leaves flash and network on it too
    && (status in {StageFailed, VerifyFailed} ==> CandidateGone(d0, d, candidate.slot) && net == net0)
    && (status in {TrialFailedRolledBack, ActivateFailedRolledBack} ==>
          CandidateGone(d0, d, candidate.slot) && net == Some(CredentialsOf(before.secrets)))
    && (status == ActivationIndeterminate ==> net == None)
    && (status in {NetworkRecoveryFailed, CandidateCleanupFailed} ==> d.meta == d0.meta)
    // a legacy record cannot be superseded through this adapter
    && (before.slot == Legacy ==>
          status !in {Success, RetiredSlotCleanupFailed, ActivationIndeterminate} && d.meta == d0.meta)
  }

  class Transaction {
    const store: Store
    const network: Network
    var active: Record
    var initialized: bool
    var locked: bool
    var recoveryRequired: bool

    ghost predicate Valid()
      reads this, store.flash
    {
      && store.flash.Valid()
      && (initialized ==> RecordValid(store.flash.rules, active))
    }

    constructor (store: Store, network: Network)
      requires store.flash.Valid()
      ensures Valid() && !initialized && !locked && !recoveryRequired && this.store == store && this.network == network
    {
      this.store, this.network := store, network;
      active := Record(RawConfig(0, RawEndpoint("", "", ""), RawEndpoint("", "", ""), RawEndpoint("", "", ""), "", false, false, 0),
                       RawSecrets("", "", "", ""), 0, Legacy);
      initialized, locked, recoveryRequired := false, false, false;
    }

    method Init(record: Record) returns (ok: bool)
      requires store.flash.Valid() && Valid()
      modifies this
      ensures Valid()
      ensures ok <==> RecordValid(store.flash.rules, record)
      ensures ok ==> initialized && active == record && !locked && !recoveryRequired
      ensures !ok ==> (active == old(active) && initialized == old(initialized) &&
                       locked == old(locked) && recoveryRequired == old(recoveryRequired))
    {
      if record.revision == 0 || !store.flash.rules.configValid(record.config) { return false; }
      var status := CheckSecrets(record.secrets);
      if status != SecretsOk { return false; }
      initialized, active, recoveryRequired, locked := true, record, false, false;
      return true;
    }

    /** Reading is refused for ever once recovery is required. */
    method CopyActive() returns (status: ReadStatus, record: Option<Record>)
      modifies this`locked
      ensures locked == old(locked)
      ensures status == ReadOk <==> initialized && !locked && !recoveryRequired
      ensures record == if status == ReadOk then Some(active) else None
      ensures initialized && !locked && recoveryRequired ==> status == ReadRecoveryRequired
    {
      record := None;
      if !initialized { return ReadInvalid, None; }
      if locked { return ReadBusy, None; }
      locked := true;
      var available := !recoveryRequired;
      if available { record := Some(active); }
      locked := false;
      status := if available then ReadOk else ReadRecoveryRequired;
    }

    /** Applies one update: stage, verify, try the network, move the head, retire the old slot. */
    method ApplyWifi(request: WifiUpdate) returns (status: Status, view: Option<WifiView>)
      requires Valid()
      modifies this, network, store, store.flash`d, store.flash`history, store.flash`faults
      ensures Valid() && initialized == old(initialized) && locked == old(locked)
      ensures store.lifecycleLocked == old(store.lifecycleLocked) && store.storageLocked == old(store.storageLocked)
      ensures old(store.flash.history) <= store.flash.history
      // nothing happens unless the request is accepted
      ensures Untouched(status) ==>
        && active == old(active) && recoveryRequired == old(recoveryRequired)
        && store.flash.d == old(store.flash.d) && store.flash.history == old(store.flash.history)
        && network.current == old(network.current)
      ensures (status == Busy <==> old(initialized) && (old(locked) || old(store.lifecycleLocked)))
      ensures old(initialized) && !old(locked) && !old(store.lifecycleLocked) && !old(recoveryRequired) ==>
        && (Untouched(status) <==> !Acceptable(old(active).revision, request))
        && forall e :: status == Rejected(e) <==> RefusalFits(e, old(active).revision, request)
      ensures status == InvalidArgument <==> !old(initialized)
      // recovery is sticky and blocks every later update
      ensures old(recoveryRequired) ==> recoveryRequired && Untouched(status)
      ensures !Untouched(status) ==>
        && old(initialized) && Candidate(old(active), request).Some?
        && Asked(old(active), request, Candidate(old(active), request).value)
        && Outcome(store.flash.rules, status, old(active), Candidate(old(active), request).value, old(store.flash.d),
                   old(network.current), active, store.flash.d, network.current, recoveryRequired, view)
      // crash safety, and what happens when nothing fails: success exactly over the head in memory, so never from Legacy
      ensures !Untouched(status) ==>
        Phases(store.flash.rules, old(active), Candidate(old(active), request).value, old(store.flash.d),
               old(store.flash.history), store.flash.history)
      ensures !Untouched(status) && Agrees(store.flash.rules, old(store.flash.d), old(active)) ==>
        OldOrNew(store.flash.rules, old(active), Candidate(old(active), request).value,
                 old(store.flash.history), store.flash.history)
      ensures (!Untouched(status) && !old(store.storageLocked) &&
               store.flash.faults == old(store.flash.faults) && network.faults == old(network.faults))
        ==> (status == Success <==> HeadIs(old(store.flash.d), old(active)))
    {
      view := None;
      if !initialized { return InvalidArgument, None; }
      if locked { return Busy, None; }
      locked := true;
      if store.lifecycleLocked {
        locked := false;
        return Busy, None;
      }
      store.lifecycleLocked := true;
      if recoveryRequired {
        store.lifecycleLocked, locked := false, false;
        return RecoveryRequired, None;
      }
      var prepared := PrepareWifiUpdate(active.secrets, active.revision, request);
      PreparedExactly(active.secrets, active.revision, request);
      if prepared.Refused? {
        store.lifecycleLocked, locked := false, false;
        return Rejected(prepared.error), None;
      }
      PreparedIsValid(active.secrets, active.revision, request);
      var candidate := Record(active.config, prepared.secrets, prepared.revision, InactiveSlot(active.slot));
      ghost var d0, h0, before := store.flash.d, store.flash.history, active;
      status, view := Execute(candidate);
      PhasesShow(store.flash.rules, before, candidate, d0, h0, store.flash.history);
      store.lifecycleLocked, locked := false, false;
    }

    /** The part of an update that runs with both locks held. */
    method Execute(candidate: Record) returns (status: Status, view: Option<WifiView>)
      requires Valid() && initialized && !recoveryRequired && RecordValid(store.flash.rules, candidate)
      requires candidate.slot == InactiveSlot(active.slot) && candidate.revision == active.revision + 1
      modifies this`active, this`recoveryRequired, network, store`storageLocked
      modifies store.flash`d, store.flash`history, store.flash`faults
      ensures Valid() && store.storageLocked == old(store.storageLocked)
      ensures old(store.flash.history) <= store.flash.history
      ensures Outcome(store.flash.rules, status, old(active), candidate, old(store.flash.d), old(network.current),
                      active, store.flash.d, network.current, recoveryRequired, view)
      ensures Phases(store.flash.rules, old(active), candidate, old(store.flash.d),
                     old(store.flash.history), store.flash.history)
      ensures (HeadIs(old(store.flash.d), old(active)) && !old(store.storageLocked) &&
               store.flash.faults == old(store.flash.faults) && network.faults == old(network.faults))
        ==> status == Success
    {
      hide Decode, Inv, Chain, Allowed, RecordValid, HeadComplete, Visible, OldOrNew, CandidateDurable;
      view := None;
      ValidRevision(store.flash.rules, active);
      ghost var d0, h0 := store.flash.d, store.flash.history;
      status := StageVerified(candidate);
      SlotPhase(store.flash.rules, d0, active, candidate, h0, store.flash.history);
      if status != Success {
        status := CleanUp(candidate, d0, h0, status);
        return;
      }
      var connected := network.Connect(CredentialsOf(candidate.secrets));
      if !connected {
        status := RollBack(candidate, d0, h0, TrialFailedRolledBack);
        return;
      }
      status, view := CommitAndRetire(candidate, d0, h0, network.current);
    }

    /** Writes the candidate and reads it back. */
    method StageVerified(candidate: Record) returns (status: Status)
      requires Valid() && RecordValid(store.flash.rules, candidate) && candidate.slot != Legacy
      modifies store`storageLocked, store.flash`d, store.flash`history, store.flash`faults
      ensures Valid() && store.storageLocked == old(store.storageLocked)
      ensures store.flash.faults >= old(store.flash.faults)
      ensures Within(old(store.flash.history), store.flash.history, old(store.flash.d), SlotNs(candidate.slot))
      ensures Staging(old(store.flash.d), store.flash.d, candidate)
      ensures HeadNames(old(store.flash.d), candidate.slot) ==> store.flash.history == old(store.flash.history)
      ensures status in {Success, StageFailed, VerifyFailed}
      ensures status == Success ==>
        Decode(store.flash.rules, store.flash.d.At(SlotNs(candidate.slot)), candidate.slot) == Some(candidate)
      ensures (store.flash.faults == old(store.flash.faults) && !old(store.storageLocked) &&
               !HeadNames(old(store.flash.d), candidate.slot)) ==> status == Success
    {
      hide Decode, Inv, Chain, Allowed, RecordValid;
      var staged := store.StageRecord(candidate.slot, candidate);
      if staged != Ok { return StageFailed; }
      var verified := store.VerifyRecord(candidate.slot, candidate);
      status := if verified == Ok then Success else VerifyFailed;
    }

    /** The candidate is staged and reachable: move the head, then retire the old slot. */
    method CommitAndRetire(candidate: Record, ghost d0: Durable, ghost h0: seq<Durable>, ghost net0: Option<Credentials>)
        returns (status: Status, view: Option<WifiView>)
      requires Valid() && initialized && !recoveryRequired && RecordValid(store.flash.rules, candidate)
      requires candidate.slot == InactiveSlot(active.slot) && candidate.revision == active.revision + 1
      requires active.revision != 0
      requires Staging(d0, store.flash.d, candidate)
      requires Decode(store.flash.rules, store.flash.d.At(SlotNs(candidate.slot)), candidate.slot) == Some(candidate)
      requires network.current == Some(CredentialsOf(candidate.secrets))
      requires Phases(store.flash.rules, active, candidate, d0, h0, store.flash.history)
      modifies this`active, this`recoveryRequired, network, store`storageLocked
      modifies store.flash`d, store.flash`history, store.flash`faults
      ensures Valid() && store.storageLocked == old(store.storageLocked)
      ensures store.flash.faults >= old(store.flash.faults) && network.faults >= old(network.faults)
      ensures h0 <= store.flash.history
      ensures status !in {StageFailed, VerifyFailed}
      ensures Outcome(store.flash.rules, status, old(active), candidate, d0, net0,
                      active, store.flash.d, network.current, recoveryRequired, view)
      ensures Phases(store.flash.rules, old(active), candidate, d0, h0, store.flash.history)
      ensures (HeadIs(d0, old(active)) && !old(store.storageLocked) &&
               store.flash.faults == old(store.flash.faults) && network.faults == old(network.faults))
        ==> status == Success
    {
      hide Decode, Inv, Chain, Allowed, RecordValid, Visible, OldOrNew, Agrees, HeadOf, CandidateDurable,
           CandidateGone, OnlyNs;
      view := None;
      var activation := MoveHead(candidate, d0, h0);
      if activation == Indeterminate {
        network.Quarantine();
        recoveryRequired := true;
        return ActivationIndeterminate, None;
      }
      if activation == NotCommitted {
        status := RollBack(candidate, d0, h0, ActivateFailedRolledBack);
        return;
      }
      status, view := Retire(candidate, d0, h0);
    }

    /** Asks the adapter to commit the candidate's head over the one in memory. */
    method MoveHead(candidate: Record, ghost d0: Durable, ghost h0: seq<Durable>) returns (activation: Activation)
      requires Valid() && active.revision != 0
      requires candidate.slot == InactiveSlot(active.slot) && candidate.revision == active.revision + 1
      requires Staging(d0, store.flash.d, candidate)
      requires Decode(store.flash.rules, store.flash.d.At(SlotNs(candidate.slot)), candidate.slot) == Some(candidate)
      requires Phases(store.flash.rules, active, candidate, d0, h0, store.flash.history)
      modifies store`storageLocked, store.flash`d, store.flash`history, store.flash`faults
      ensures Valid() && store.storageLocked == old(store.storageLocked) && h0 <= store.flash.history
      ensures store.flash.faults >= old(store.flash.faults)
      ensures activation == NotCommitted ==> Staging(d0, store.flash.d, candidate)
      ensures activation != NotCommitted ==> active.slot != Legacy
      ensures activation == Committed ==> Moved(store.flash.rules, d0, store.flash.d, active, candidate)
      ensures Phases(store.flash.rules, active, candidate, d0, h0, store.flash.history)
      ensures (HeadIs(d0, active) && !old(store.storageLocked) &&
               store.flash.faults == old(store.flash.faults)) ==> activation == Committed
    {
      hide Decode, Inv, Chain, Allowed, RecordValid, Visible, OldOrNew, Agrees, CandidateDurable;
      ghost var d1, h1 := store.flash.d, store.flash.history;
      activation := store.ActivateRecord(candidate, active.slot, active.revision);
      CommittedFacts(store.flash.rules, d0, d1, active, candidate);
      CommitPhase(store.flash.rules, d0, d1, store.flash.d, active, candidate, h0, h1, store.flash.history);
    }

    /** The candidate is durable: adopt it in memory and make the retired slot unreadable. */
    method Retire(candidate: Record, ghost d0: Durable, ghost h0: seq<Durable>)
        returns (status: Status, view: Option<WifiView>)
      requires Valid() && RecordValid(store.flash.rules, candidate) && !recoveryRequired
      requires candidate.slot == InactiveSlot(active.slot) && active.slot != Legacy
      requires Moved(store.flash.rules, d0, store.flash.d, active, candidate)
      requires Phases(store.flash.rules, active, candidate, d0, h0, store.flash.history)
      modifies this`active, this`recoveryRequired, store`storageLocked
      modifies store.flash`d, store.flash`history, store.flash`faults
      ensures Valid() && store.storageLocked == old(store.storageLocked) && h0 <= store.flash.history
      ensures store.flash.faults >= old(store.flash.faults)
      ensures status in {Success, RetiredSlotCleanupFailed} && (recoveryRequired <==> status == RetiredSlotCleanupFailed)
      ensures active == candidate && CandidateDurable(store.flash.rules, store.flash.d, candidate)
      ensures view == Some(WifiView(candidate.revision, candidate.secrets.ssid, candidate.secrets.password != ""))
      ensures status == Success ==> store.flash.d.At(SlotNs(old(active).slot)) == map[]
      ensures Phases(store.flash.rules, old(active), candidate, d0, h0, store.flash.history)
      ensures store.flash.faults == old(store.flash.faults) && !old(store.storageLocked) ==> status == Success
    {
      hide Decode, Inv, Chain, Allowed, ReadLegacy, RecordValid, HeadComplete, Visible;
      var before := active;
      ghost var d2, h2 := store.flash.d, store.flash.history;
      active := candidate;
      view := Some(WifiView(active.revision, active.secrets.ssid, active.secrets.password != ""));
      var discarded := store.DiscardRecord(before.slot);
      RetirePhase(store.flash.rules, d0, d2, before, candidate, h0, h2, store.flash.history);
      status := Success;
      if !discarded {
        recoveryRequired := true;
        status := RetiredSlotCleanupFailed;
      }
    }

    /** After a failure before the network was touched: the candidate must become unreadable. */
    method CleanUp(candidate: Record, ghost d0: Durable, ghost h0: seq<Durable>, failure: Status) returns (status: Status)
      requires Valid() && failure in {StageFailed, VerifyFailed} && candidate.slot != Legacy
      requires Staging(d0, store.flash.d, candidate)
      requires Phases(store.flash.rules, active, candidate, d0, h0, store.flash.history)
      modifies this`recoveryRequired, store`storageLocked, store.flash`d, store.flash`history, store.flash`faults
      ensures Valid() && store.storageLocked == old(store.storageLocked)
      ensures store.flash.faults >= old(store.flash.faults)
      ensures status in {failure, CandidateCleanupFailed} && (recoveryRequired <==> status == CandidateCleanupFailed)
      ensures status == failure ==> CandidateGone(d0, store.flash.d, candidate.slot)
      ensures store.flash.d.meta == d0.meta && h0 <= store.flash.history
      ensures Phases(store.flash.rules, active, candidate, d0, h0, store.flash.history)
    {
      hide Decode, Inv, Chain, Allowed, ReadLegacy, RecordValid, HeadComplete, Visible;
      ghost var d1, h1 := store.flash.d, store.flash.history;
      var discarded := store.DiscardRecord(candidate.slot);
      MoreSlotWrites(store.flash.rules, d0, d1, active, candidate, h0, h1, store.flash.history);
      recoveryRequired := !discarded;
      status := if discarded then failure else CandidateCleanupFailed;
    }

    /** After the network was touched: reconnect with the old credentials, then clean up. */
    method RollBack(candidate: Record, ghost d0: Durable, ghost h0: seq<Durable>, failure: Status) returns (status: Status)
      requires Valid() && failure in {TrialFailedRolledBack, ActivateFailedRolledBack} && candidate.slot != Legacy
      requires Staging(d0, store.flash.d, candidate)
      requires Phases(store.flash.rules, active, candidate, d0, h0, store.flash.history)
      modifies this`recoveryRequired, network, store`storageLocked
      modifies store.flash`d, store.flash`history, store.flash`faults
      ensures Valid() && store.storageLocked == old(store.storageLocked)
      ensures store.flash.faults >= old(store.flash.faults) && network.faults >= old(network.faults)
      ensures status in {failure, CandidateCleanupFailed, NetworkRecoveryFailed}
      ensures recoveryRequired <==> status != failure
      ensures status == failure ==>
        CandidateGone(d0, store.flash.d, candidate.slot) && network.current == Some(CredentialsOf(active.secrets))
      ensures store.flash.d.meta == d0.meta && h0 <= store.flash.history
      ensures Phases(store.flash.rules, active, candidate, d0, h0, store.flash.history)
    {
      hide Decode, Inv, Chain, Allowed, ReadLegacy, RecordValid, HeadComplete, Visible;
      ghost var d1, h1 := store.flash.d, store.flash.history;
      var restored := network.Connect(CredentialsOf(active.secrets));
      var discarded := store.DiscardRecord(candidate.slot);
      MoreSlotWrites(store.flash.rules, d0, d1, active, candidate, h0, h1, store.flash.history);
      recoveryRequired := !restored || !discarded;
      status := if !restored then NetworkRecoveryFailed else if !discarded then CandidateCleanupFailed else failure;
    }
  }

  /** Results given before anything was written or connected. */
  predicate Untouched(s: Status) { s.InvalidArgument? || s.Busy? || s.Rejected? || s.RecoveryRequired? }

  predicate NeedsRecovery(s: Status) {
    || s.NetworkRecoveryFailed? || s.ActivationIndeterminate?
    || s.CandidateCleanupFailed? || s.RetiredSlotCleanupFailed?
  }

  lemma ValidRevision(rules: Rules, r: Record)
    requires RecordValid(rules, r)
    ensures r.revision != 0
  {
  }

  lemma AgreesVisible(rules: Rules, d: Durable, active: Record)
    requires Agrees(rules, d, active)
    ensures Visible(rules, d) == Some(active)
  {
    hide Decode;
  }

  /** Agreement is visibility: memory holds the record a load would report. */
  lemma AgreesIsVisible(rules: Rules, d: Durable, active: Record)
    requires Inv(rules, d)
    ensures Agrees(rules, d, active) <==> Visible(rules, d) == Some(active) && active.slot != Legacy
  {
    hide ReadConfig, ReadSecrets, RecordValid;
    if Head in d.meta && HeadOf(d).Some? { HeadRoundTrip(SlotA, 1, d.meta[Head].q); }
  }

  /** What the two phases mean for a load, when memory and flash agreed before. */
  lemma PhaseShows(rules: Rules, before: Record, candidate: Record, d0: Durable, d: Durable)
    requires Agrees(rules, d0, before) && candidate.slot == InactiveSlot(before.slot)
    ensures Staging(d0, d, candidate) ==> Visible(rules, d) == Some(before)
    ensures Moved(rules, d0, d, before, candidate) ==> Visible(rules, d) == Some(candidate)
  {
    hide Decode;
    AgreesVisible(rules, d0, before);
    if Staging(d0, d, candidate) { HeadFrame(rules, d0, d, SlotNs(candidate.slot)); }
  }

  lemma MovedShows(rules: Rules, d0: Durable, d: Durable, before: Record, candidate: Record)
    requires !Pending(d0) && Moved(rules, d0, d, before, candidate)
    ensures Visible(rules, d) == Some(candidate)
  {
    hide Decode;
  }

  lemma PhasesShow(rules: Rules, before: Record, candidate: Record, d0: Durable, h0: seq<Durable>, h: seq<Durable>)
    requires candidate.slot == InactiveSlot(before.slot) && Phases(rules, before, candidate, d0, h0, h)
    ensures Agrees(rules, d0, before) ==> OldOrNew(rules, before, candidate, h0, h)
  {
    hide Agrees, Staging, Moved, Visible;
    if Agrees(rules, d0, before) {
      forall i | |h0| <= i < |h|
        ensures Visible(rules, h[i]) == Some(before) || Visible(rules, h[i]) == Some(candidate)
      {
        PhaseShows(rules, before, candidate, d0, h[i]);
      }
    }
  }

  /** Writing the inactive slot is the first phase. */
  lemma SlotPhase(rules: Rules, d0: Durable, active: Record, candidate: Record, h0: seq<Durable>, h: seq<Durable>)
    requires Within(h0, h, d0, SlotNs(candidate.slot)) && (HeadNames(d0, candidate.slot) ==> h == h0)
    ensures Phases(rules, active, candidate, d0, h0, h)
  {
  }

  lemma MoreSlotWrites(rules: Rules, d0: Durable, d1: Durable, active: Record, candidate: Record,
                       h0: seq<Durable>, h1: seq<Durable>, h: seq<Durable>)
    requires candidate.slot != Legacy && Staging(d0, d1, candidate)
    requires Phases(rules, active, candidate, d0, h0, h1)
    requires Within(h1, h, d1, SlotNs(candidate.slot)) && (HeadNames(d1, candidate.slot) ==> h == h1)
    ensures Phases(rules, active, candidate, d0, h0, h)
  {
    hide CandidateDurable;
  }

  /** The head move is one write, from the first phase to the second. */
  lemma CommitPhase(rules: Rules, d0: Durable, d1: Durable, d2: Durable, active: Record, candidate: Record,
                    h0: seq<Durable>, h1: seq<Durable>, h2: seq<Durable>)
    requires Staging(d0, d1, candidate) && candidate.slot != Legacy
    requires d2 == d1 || (d2 == AfterCommit(d1, candidate) && HeadIs(d0, active))
    requires CandidateDurable(rules, AfterCommit(d1, candidate), candidate)
    requires h1 <= h2 && forall i :: |h1| <= i < |h2| ==> h2[i] == d2
    requires Phases(rules, active, candidate, d0, h0, h1)
    ensures Phases(rules, active, candidate, d0, h0, h2)
    ensures d2 == AfterCommit(d1, candidate) && HeadIs(d0, active) ==> Moved(rules, d0, d2, active, candidate)
  {
    hide CandidateDurable;
  }

  lemma CommittedFacts(rules: Rules, d0: Durable, d1: Durable, active: Record, candidate: Record)
    requires Staging(d0, d1, candidate) && candidate.slot != Legacy && active.revision != 0
    requires candidate.slot == InactiveSlot(active.slot) && candidate.revision == active.revision + 1
    requires Decode(rules, d1.At(SlotNs(candidate.slot)), candidate.slot) == Some(candidate)
    ensures active.slot == Legacy ==> !ValidSuccessor(candidate, active.slot, active.revision)
    ensures active.slot != Legacy && ExpectedHead(d1, active.slot, active.revision) ==> HeadIs(d0, active)
    ensures HeadIs(d0, active) ==>
      ValidSuccessor(candidate, active.slot, active.revision) && ExpectedHead(d1, active.slot, active.revision)
    ensures CandidateDurable(rules, AfterCommit(d1, candidate), candidate)
  {
    hide Decode;
    HeadRoundTrip(candidate.slot, candidate.revision, 0);
    HeadRoundTrip(active.slot, active.revision, 0);
    if HeadIs(d0, active) { HeadRoundTrip(SlotA, 1, d0.meta[Head].q); }
  }

  lemma RetirePhase(rules: Rules, d0: Durable, d2: Durable, active: Record, candidate: Record,
                    h0: seq<Durable>, h2: seq<Durable>, h: seq<Durable>)
    requires Moved(rules, d0, d2, active, candidate) && candidate.slot == InactiveSlot(active.slot)
    requires Within(h2, h, d2, SlotNs(active.slot))
    requires Phases(rules, active, candidate, d0, h0, h2)
    ensures Phases(rules, active, candidate, d0, h0, h)
  {
    hide Decode;
    forall i | |h2| <= i < |h| ensures Moved(rules, d0, h[i], active, candidate) {
      assert h[i].At(SlotNs(candidate.slot)) == d2.At(SlotNs(candidate.slot));
    }
  }
}
