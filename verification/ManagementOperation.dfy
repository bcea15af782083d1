/**
 * The management service's operation protocol: one reservation flag, one
 * completion flag and a sequence lock over the latest operation, used by any
 * number of submitters, completers and readers.
 *
 * Each atomic access is one step, and steps of different threads interleave
 * freely (sequential consistency). `log`, `seen`, `owner`, `completer` and
 * `rejecting` are bookkeeping for the proof; no step's outcome depends on
 * them except through the stated assumption about the submit port.
 */
module ManagementOperation {
  import opened Common

  datatype OpState = NoOperation | Pending | Succeeded | Failed

  /** Result code 0 is OK. */
  datatype Op = Op(id: U32, state: OpState, result: nat)

  const NO_OP := Op(0, NoOperation, 0)
  const READ_ATTEMPTS := 64

  predicate Terminal(op: Op) { op.state == Succeeded || op.state == Failed }

  /** The atomics. The sequence counter is unbounded here; the code's is 32 bits wide. */
  datatype Shared = Shared(id: U32, state: OpState, result: nat, sequence: nat,
                           nextId: U32, reserved: bool, completing: bool)

  datatype After = AfterPending | AfterReject | AfterComplete

  datatype Purpose = ForReader | ForCompleter(id: U32, result: nat)

  /** Where a thread is; each constructor names the atomic access it will do next. */
  datatype Thread =
    | Idle
    | Reserve
    | TakeId(second: bool)
    | Store(op: Op, phase: nat, after: After)
    | Submitting(id: U32, index: nat)
    | Unreserve
    | CheckReserved(id: U32, result: nat)
    | TryComplete(id: U32, result: nat)
    | Read(purpose: Purpose, attempt: nat, step: nat, before: nat, copy: Op)
    | ReleaseCompleting(done: bool)
    | ReleaseReserved

  /** A copy some reader accepted, and how far the log had got at that moment. */
  datatype Seen = Seen(op: Op, at: nat)

  datatype System = System(
    mem: Shared, threads: map<nat, Thread>,
    log: seq<Op>, seen: seq<Seen>,
    owner: Option<nat>, completer: Option<nat>, rejecting: Option<U32>)

  /** What a scheduler may ask of a thread. `Accept` and `Reject` are the submit port's answer. */
  datatype Event = BeginSubmit | BeginComplete(id: U32, result: nat) | BeginRead | Run | Accept | Reject

  function Initial(threads: set<nat>): System {
    System(Shared(0, NoOperation, 0, 0, 1, false, false), map t | t in threads :: Idle,
           [NO_OP], [], None, None, None)
  }

  function Latest(s: System): Op
    requires s.log != []
  {
    s.log[|s.log| - 1]
  }

  /** A thread inside `complete` for this id. */
  predicate CompletesId(th: Thread, id: U32) {
    match th
    case CheckReserved(i, _) => i == id
    case TryComplete(i, _) => i == id
    case Read(ForCompleter(i, _), _, _, _, _) => i == id
    case Store(op, _, AfterComplete) => op.id == id
    case _ => false
  }

  predicate NobodyCompletes(s: System, id: U32) {
    forall t | t in s.threads :: !CompletesId(s.threads[t], id)
  }

  function Move(s: System, t: nat, th: Thread): System { s.(threads := s.threads[t := th]) }

  function RunRead(s: System, t: nat, th: Thread): System
    requires th.Read? && s.log != []
  {
    var m := s.mem;
    if th.step == 0 then
      if m.sequence % 2 == 1 then Retry(s, t, th)
      else Move(s, t, th.(before := m.sequence, copy := NO_OP, step := 1))
    else if th.step == 1 then Move(s, t, th.(copy := th.copy.(id := m.id), step := 2))
    else if th.step == 2 then Move(s, t, th.(copy := th.copy.(state := m.state), step := 3))
    else if th.step == 3 then Move(s, t, th.(copy := th.copy.(result := m.result), step := 4))
    else if m.sequence != th.before then Retry(s, t, th)
    else FinishRead(s, t, th)
  }

  /** The copy is accepted: a reader returns it, a completer decides by it. */
  function FinishRead(s: System, t: nat, th: Thread): System
    requires th.Read? && s.log != []
  {
    match th.purpose
    case ForReader => Move(s, t, Idle).(seen := s.seen + [Seen(th.copy, |s.log| - 1)])
    case ForCompleter(id, result) =>
      if th.copy.state == Pending && th.copy.id == id
      then Move(s, t, Store(Op(id, if result == 0 then Succeeded else Failed, result), 0, AfterComplete))
           .(owner := Some(t))
      else Move(s, t, ReleaseCompleting(false))
  }

  /** Another attempt, or giving up after the last one. */
  function Retry(s: System, t: nat, th: Thread): System
    requires th.Read?
  {
    if th.attempt + 1 < READ_ATTEMPTS then Move(s, t, Read(th.purpose, th.attempt + 1, 0, 0, NO_OP))
    else Move(s, t, if th.purpose.ForReader? then Idle else ReleaseCompleting(false))
  }

  function RunStore(s: System, t: nat, th: Thread): System
    requires th.Store?
  {
    var m := s.mem;
    if th.phase == 0 then Move(s, t, th.(phase := 1)).(mem := m.(sequence := m.sequence + 1))
    else if th.phase == 1 then Move(s, t, th.(phase := 2)).(mem := m.(id := th.op.id))
    else if th.phase == 2 then Move(s, t, th.(phase := 3)).(mem := m.(result := th.op.result))
    else if th.phase == 3 then Move(s, t, th.(phase := 4)).(mem := m.(state := th.op.state))
    else
      var s' := s.(mem := m.(sequence := m.sequence + 1), log := s.log + [th.op]);
      match th.after
      case AfterPending => Move(s', t, Submitting(th.op.id, |s.log|)).(owner := None)
      case AfterReject => Move(s', t, Unreserve)
      case AfterComplete => Move(s', t, ReleaseCompleting(true))
  }

  function RunThread(s: System, t: nat, th: Thread): System
    requires s.log != []
  {
    var m := s.mem;
    match th
    case Reserve =>
      if m.reserved then Move(s, t, Idle)
      else Move(s, t, TakeId(false)).(mem := m.(reserved := true), owner := Some(t))
    case TakeId(second) =>
      var next := if m.nextId == U32_MAX then 0 else m.nextId + 1;
      if m.nextId == 0 && !second then Move(s, t, TakeId(true)).(mem := m.(nextId := next))
      else Move(s, t, Store(Op(m.nextId, Pending, 0), 0, AfterPending)).(mem := m.(nextId := next))
    case Store(_, _, _) => RunStore(s, t, th)
    case Unreserve => Move(s, t, Idle).(mem := m.(reserved := false), owner := None, rejecting := None)
    case CheckReserved(id, result) => Move(s, t, if m.reserved then TryComplete(id, result) else Idle)
    case TryComplete(id, result) =>
      if m.completing then Move(s, t, Idle)
      else Move(s, t, Read(ForCompleter(id, result), 0, 0, 0, NO_OP))
           .(mem := m.(completing := true), completer := Some(t))
    case Read(_, _, _, _, _) => RunRead(s, t, th)
    case ReleaseCompleting(done) =>
      Move(s, t, if done then ReleaseReserved else Idle).(mem := m.(completing := false), completer := None)
    case ReleaseReserved => Move(s, t, Idle).(mem := m.(reserved := false), owner := None)
    case _ => s
  }

  /**
   * One step. The port may refuse a submission only if nobody completes that operation: it is
   * still the pending one, no completer of its id is under way, and none starts until it is withdrawn.
   */
  function Step(s: System, t: nat, e: Event): (s': System)
    requires s.log != []
    ensures s'.log != []
  {
    if t !in s.threads then s else
    var th := s.threads[t];
    match e
    case BeginSubmit => if th.Idle? then Move(s, t, Reserve) else s
    case BeginComplete(id, result) =>
      if th.Idle? && id != 0 && s.rejecting != Some(id) then Move(s, t, CheckReserved(id, result)) else s
    case BeginRead => if th.Idle? then Move(s, t, Read(ForReader, 0, 0, 0, NO_OP)) else s
    case Accept => if th.Submitting? then Move(s, t, Idle) else s
    case Reject =>
      if th.Submitting? && |s.log| == th.index + 1 && s.owner.None? && NobodyCompletes(s, th.id)
      then Move(s, t, Store(NO_OP, 0, AfterReject)).(owner := Some(t), rejecting := Some(th.id))
      else s
    case Run => RunThread(s, t, th)
  }

  function Exec(s: System, schedule: seq<(nat, Event)>): (s': System)
    requires s.log != []
    ensures s'.log != []
  {
    if schedule == [] then s
    else
      var last := schedule[|schedule| - 1];
      Step(Exec(s, schedule[..|schedule| - 1]), last.0, last.1)
  }

  // ---- the invariant -------------------------------------------------------

  /** Threads with the sole right to change the operation. */
  predicate Owns(th: Thread) {
    th.TakeId? || th.Store? || th.Unreserve? || th.ReleaseReserved? || th == ReleaseCompleting(true)
  }

  predicate Completing(th: Thread) {
    (th.Read? && th.purpose.ForCompleter?) || (th.Store? && th.after == AfterComplete) || th.ReleaseCompleting?
  }

  predicate Writing(th: Thread) { th.Store? && th.phase > 0 }

  /**
   * What is ever published: an id goes from pending to one terminal result or is withdrawn,
   * and nothing else happens in between.
   */
  predicate MayFollow(before: Op, op: Op) {
    match op.state
    case Pending => op.id != 0 && op.result == 0 && before.state != Pending
    case NoOperation => op == NO_OP && before.state == Pending
    case _ => before == Op(op.id, Pending, 0) && (op.state == Succeeded <==> op.result == 0)
  }

  predicate LogOk(log: seq<Op>) {
    && log != [] && log[0] == NO_OP
    && forall k | 0 < k < |log| :: MayFollow(log[k - 1], log[k])
  }

  /** How many operations a log has admitted. */
  function Admitted(log: seq<Op>): nat {
    if log == [] then 0
    else Admitted(log[..|log| - 1]) + (if log[|log| - 1].state == Pending then 1 else 0)
  }

  /** Ids run 1, 2, ..., 2^32 - 1, 1, ...: zero is skipped at the wrap. */
  function IdAt(n: nat): (id: U32) { 1 + n % U32_MAX }

  predicate CounterOk(nextId: U32, n: nat) {
    nextId == IdAt(n) || (nextId == 0 && n % U32_MAX == 0)
  }

  predicate IdsOk(log: seq<Op>) {
    forall k | 0 <= k < |log| && log[k].state == Pending :: log[k].id == IdAt(Admitted(log[..k]))
  }

  lemma IdsGrow(log: seq<Op>, op: Op)
    requires IdsOk(log) && (op.state == Pending ==> op.id == IdAt(Admitted(log)))
    ensures IdsOk(log + [op])
    ensures Admitted(log + [op]) == Admitted(log) + (if op.state == Pending then 1 else 0)
  {
    var next := log + [op];
    assert next[..|log|] == log;
    forall k | 0 <= k < |next| && next[k].state == Pending ensures next[k].id == IdAt(Admitted(next[..k])) {
      if k < |log| { assert next[..k] == log[..k] && next[k] == log[k]; }
    }
  }

  lemma LogGrows(log: seq<Op>, op: Op)
    requires LogOk(log) && MayFollow(log[|log| - 1], op)
    ensures LogOk(log + [op])
  {
    var next := log + [op];
    forall k | 0 < k < |next| ensures MayFollow(next[k - 1], next[k]) {
      if k < |log| { assert next[k - 1] == log[k - 1] && next[k] == log[k]; }
    }
  }

  predicate MemIs(m: Shared, op: Op) { m.id == op.id && m.state == op.state && m.result == op.result }

  predicate StoreOk(s: System, th: Thread)
    requires th.Store? && s.log != []
  {
    && th.phase <= 4
    && (match th.after
        case AfterPending => th.op == Op(IdAt(Admitted(s.log)), Pending, 0) && Latest(s).state != Pending
        case AfterReject => th.op == NO_OP && Latest(s).state == Pending && s.rejecting == Some(Latest(s).id)
        case AfterComplete => Terminal(th.op) && Latest(s) == Op(th.op.id, Pending, 0)
                              && (th.op.state == Succeeded <==> th.op.result == 0))
    && (th.phase > 0 ==>
          && s.mem.sequence == 2 * |s.log| - 1
          && s.mem.id == (if th.phase > 1 then th.op.id else Latest(s).id)
          && s.mem.result == (if th.phase > 2 then th.op.result else Latest(s).result)
          && s.mem.state == (if th.phase > 3 then th.op.state else Latest(s).state))
  }

  /** A copy made while the sequence stood still is the latest published operation. */
  predicate ReadOk(s: System, th: Thread)
    requires th.Read? && s.log != []
  {
    && th.step <= 4 && th.attempt < READ_ATTEMPTS
    && (th.step > 0 ==>
          && th.before % 2 == 0 && th.before <= s.mem.sequence
          && (th.before == s.mem.sequence ==>
                && (th.step > 1 ==> th.copy.id == Latest(s).id)
                && (th.step > 2 ==> th.copy.state == Latest(s).state)
                && (th.step > 3 ==> th.copy.result == Latest(s).result)))
  }

  predicate ThreadOk(s: System, t: nat, th: Thread)
    requires s.log != []
  {
    && (Owns(th) <==> s.owner == Some(t))
    && (Completing(th) <==> s.completer == Some(t))
    && (s.rejecting.Some? ==> !CompletesId(th, s.rejecting.value))
    && match th
       case TakeId(second) => Latest(s).state != Pending && (second ==> s.mem.nextId == IdAt(Admitted(s.log)))
       case Store(_, _, _) => StoreOk(s, th)
       case Submitting(id, index) => index < |s.log| && s.log[index] == Op(id, Pending, 0)
       case Unreserve => Latest(s).state == NoOperation
       case Read(_, _, _, _, _) => ReadOk(s, th)
       case ReleaseCompleting(done) => done ==> Terminal(Latest(s))
       case ReleaseReserved => Terminal(Latest(s))
       case _ => true
  }

  predicate OwnerWriting(s: System) {
    s.owner.Some? && s.owner.value in s.threads && Writing(s.threads[s.owner.value])
  }

  /** An id is taken but its operation is not published yet. */
  predicate Admitting(s: System) {
    && s.owner.Some? && s.owner.value in s.threads
    && var th := s.threads[s.owner.value]; th.Store? && th.after == AfterPending
  }

  /** Every accepted copy is a published operation, and later acceptances never see earlier ones. */
  predicate SeenOk(log: seq<Op>, seen: seq<Seen>) {
    && (forall k | 0 <= k < |seen| :: seen[k].at < |log| && log[seen[k].at] == seen[k].op)
    && (forall j, k | 0 <= j < k < |seen| :: seen[j].at <= seen[k].at)
  }

  lemma SeenLasts(log: seq<Op>, op: Op, seen: seq<Seen>)
    requires SeenOk(log, seen)
    ensures SeenOk(log + [op], seen)
  {
  }

  lemma SeenGrows(log: seq<Op>, seen: seq<Seen>)
    requires SeenOk(log, seen) && log != []
    ensures SeenOk(log, seen + [Seen(log[|log| - 1], |log| - 1)])
  {
  }

  predicate Rejecting(th: Thread) { th.Unreserve? || (th.Store? && th.after == AfterReject) }

  predicate GlobalOk(s: System) {
    && LogOk(s.log) && IdsOk(s.log) && SeenOk(s.log, s.seen)
    && CounterOk(s.mem.nextId, Admitted(s.log) + (if Admitting(s) then 1 else 0))
    && (s.owner.Some? ==> s.owner.value in s.threads && s.mem.reserved)
    && (s.owner.None? ==> (s.mem.reserved <==> Latest(s).state == Pending))
    && (s.completer.Some? <==> s.mem.completing)
    && (s.completer.Some? ==> s.completer.value in s.threads)
    && (!OwnerWriting(s) ==> s.mem.sequence == 2 * |s.log| - 2 && MemIs(s.mem, Latest(s)))
    && (s.rejecting.Some? ==> s.owner.Some? && s.owner.value in s.threads && Rejecting(s.threads[s.owner.value]))
  }

  predicate Inv(s: System) {
    s.log != [] && GlobalOk(s) && forall t | t in s.threads :: ThreadOk(s, t, s.threads[t])
  }

  lemma InitialInv(threads: set<nat>)
    ensures Inv(Initial(threads))
  {
  }

  /** What a step of one thread may change under another one. */
  predicate Undisturbed(s: System, s': System, t: nat)
    requires s.log != [] && s'.log != []
  {
    && s.mem.sequence <= s'.mem.sequence && s.log <= s'.log
    && (s'.mem.sequence == s.mem.sequence && s.mem.sequence % 2 == 0 ==>
          s'.log == s.log && MemIs(s'.mem, Op(s.mem.id, s.mem.state, s.mem.result)))
    && (s.owner != Some(t) ==>
          && s'.log == s.log && s'.mem.sequence == s.mem.sequence && s'.mem.nextId == s.mem.nextId
          && MemIs(s'.mem, Op(s.mem.id, s.mem.state, s.mem.result)))
    && (s'.owner == s.owner || (s.owner.None? && s'.owner == Some(t)) || (s.owner == Some(t) && s'.owner.None?))
    && (s'.completer == s.completer || (s.completer.None? && s'.completer == Some(t))
        || (s.completer == Some(t) && s'.completer.None?))
    && (s'.rejecting == s.rejecting || s'.rejecting.None?
        || (s.owner.None? && s'.owner == Some(t) && NobodyCompletes(s, s'.rejecting.value)))
    && (s.owner.Some? && s.owner != Some(t) ==> s'.rejecting == s.rejecting)
  }

  lemma OthersKeep(s: System, s': System, t: nat, u: nat)
    requires Inv(s) && s'.log != [] && Undisturbed(s, s', t) && u in s.threads && u != t
    ensures ThreadOk(s', u, s.threads[u])
  {
    var th := s.threads[u];
    assert ThreadOk(s, u, th);
    if th.Read? && th.step > 0 && th.before == s'.mem.sequence {
      assert th.before == s.mem.sequence;
    }
  }

  /** What one step of thread `t` must establish. */
  predicate Good(s: System, s': System, t: nat) {
    && s.log != [] && s'.log != []
    && t in s'.threads && s'.threads == s.threads[t := s'.threads[t]]
    && GlobalOk(s') && ThreadOk(s', t, s'.threads[t]) && Undisturbed(s, s', t)
  }

  /** A step that only moves its own thread, without changing its rights. */
  lemma QuietKeeps(s: System, t: nat, th: Thread)
    requires Inv(s) && t in s.threads
    requires Owns(th) == Owns(s.threads[t]) && Completing(th) == Completing(s.threads[t])
    requires Rejecting(s.threads[t]) ==> Rejecting(th)
    requires !s.threads[t].Store? && !th.Store?
    ensures Move(s, t, th).log == s.log
    ensures GlobalOk(Move(s, t, th)) && Undisturbed(s, Move(s, t, th), t)
    ensures ThreadOk(Move(s, t, th), t, th) ==> Good(s, Move(s, t, th), t)
  {
    hide LogOk, IdsOk, SeenOk, Admitted, IdAt, CounterOk, MayFollow;
    assert ThreadOk(s, t, s.threads[t]);
  }

  lemma WriteKeeps(s: System, t: nat)
    requires Inv(s) && t in s.threads && s.threads[t].Store? && s.threads[t].phase < 4
    ensures Good(s, RunStore(s, t, s.threads[t]), t)
  {
    hide LogOk, IdsOk, SeenOk, Admitted, IdAt, CounterOk, MayFollow;
    assert ThreadOk(s, t, s.threads[t]);
  }

  lemma PublishedOk(s: System, t: nat)
    requires Inv(s) && t in s.threads && s.threads[t].Store?
    ensures var op := s.threads[t].op; var next := s.log + [op];
      && LogOk(next) && IdsOk(next) && SeenOk(next, s.seen)
      && Admitted(next) == Admitted(s.log) + (if op.state == Pending then 1 else 0)
  {
    var op := s.threads[t].op;
    assert ThreadOk(s, t, s.threads[t]);
    LogGrows(s.log, op);
    IdsGrow(s.log, op);
    SeenLasts(s.log, op, s.seen);
  }

  lemma PublishKeeps(s: System, t: nat)
    requires Inv(s) && t in s.threads && s.threads[t].Store? && s.threads[t].phase == 4
    ensures Good(s, RunStore(s, t, s.threads[t]), t)
  {
    hide LogOk, IdsOk, SeenOk, Admitted, IdAt, CounterOk, MayFollow;
    var th, s' := s.threads[t], RunStore(s, t, s.threads[t]);
    assert ThreadOk(s, t, th);
    PublishedOk(s, t);
    assert Latest(s') == th.op;
  }

  lemma StoreKeeps(s: System, t: nat)
    requires Inv(s) && t in s.threads && s.threads[t].Store?
    ensures Good(s, RunStore(s, t, s.threads[t]), t)
  {
    hide GlobalOk, Good, RunStore;
    assert ThreadOk(s, t, s.threads[t]);
    if s.threads[t].phase < 4 { WriteKeeps(s, t); } else { PublishKeeps(s, t); }
  }

  /** Linearization of a read: what it accepts is what was last published, at that very moment. */
  lemma AcceptedIsLatest(s: System, t: nat)
    requires Inv(s) && t in s.threads && s.threads[t].Read?
    requires s.threads[t].step == 4 && s.threads[t].before == s.mem.sequence
    ensures s.threads[t].copy == Latest(s)
  {
    assert ThreadOk(s, t, s.threads[t]);
  }

  lemma ReaderKeeps(s: System, t: nat)
    requires Inv(s) && t in s.threads && s.threads[t].Read? && s.threads[t].purpose.ForReader?
    requires s.threads[t].step == 4 && s.threads[t].before == s.mem.sequence
    ensures Good(s, FinishRead(s, t, s.threads[t]), t)
  {
    AcceptedIsLatest(s, t);
    SeenGrows(s.log, s.seen);
    hide LogOk, IdsOk, SeenOk, Admitted, IdAt, CounterOk, MayFollow;
    assert ThreadOk(s, t, s.threads[t]);
  }

  lemma DecideKeeps(s: System, t: nat)
    requires Inv(s) && t in s.threads && s.threads[t].Read? && s.threads[t].purpose.ForCompleter?
    requires s.threads[t].step == 4 && s.threads[t].before == s.mem.sequence
    ensures Good(s, FinishRead(s, t, s.threads[t]), t)
  {
    AcceptedIsLatest(s, t);
    LatestFacts(s);
    hide LogOk, IdsOk, SeenOk, Admitted, IdAt, CounterOk, MayFollow;
    assert ThreadOk(s, t, s.threads[t]);
    if s.owner.Some? && s.owner.value != t { assert ThreadOk(s, s.owner.value, s.threads[s.owner.value]); }
  }

  lemma LatestFacts(s: System)
    requires LogOk(s.log)
    ensures Latest(s).state == Pending ==> Latest(s) == Op(Latest(s).id, Pending, 0)
  {
    assert |s.log| > 1 ==> MayFollow(s.log[|s.log| - 2], s.log[|s.log| - 1]);
  }

  /** An even sequence number means that memory holds the latest published operation. */
  lemma EvenWhenQuiet(s: System)
    requires Inv(s) && s.mem.sequence % 2 == 0
    ensures MemIs(s.mem, Latest(s))
  {
    if s.owner.Some? {
      var th := s.threads[s.owner.value];
      assert ThreadOk(s, s.owner.value, th);
    }
  }

  lemma ReadKeeps(s: System, t: nat)
    requires Inv(s) && t in s.threads && s.threads[t].Read?
    ensures Good(s, RunRead(s, t, s.threads[t]), t)
  {
    hide LogOk, IdsOk, SeenOk, Admitted, FinishRead, GlobalOk, Undisturbed;
    var th, s' := s.threads[t], RunRead(s, t, s.threads[t]);
    assert ThreadOk(s, t, th);
    if th.step == 4 && th.before == s.mem.sequence {
      if th.purpose.ForReader? { ReaderKeeps(s, t); } else { DecideKeeps(s, t); }
    } else {
      if s.mem.sequence % 2 == 0 { EvenWhenQuiet(s); }
      QuietKeeps(s, t, s'.threads[t]);
    }
  }

  lemma ReserveKeeps(s: System, t: nat)
    requires Inv(s) && t in s.threads && (s.threads[t].Reserve? || s.threads[t].TakeId?)
    ensures Good(s, RunThread(s, t, s.threads[t]), t)
  {
    hide LogOk, IdsOk, SeenOk, Admitted, RunStore, RunRead;
    assert ThreadOk(s, t, s.threads[t]);
  }

  lemma FlagKeeps(s: System, t: nat)
    requires Inv(s) && t in s.threads
    requires var th := s.threads[t]; th.CheckReserved? || th.TryComplete? || th.ReleaseCompleting?
    ensures Good(s, RunThread(s, t, s.threads[t]), t)
  {
    hide LogOk, IdsOk, SeenOk, Admitted, IdAt, CounterOk, MayFollow, RunStore, RunRead;
    var th, s' := s.threads[t], RunThread(s, t, s.threads[t]);
    assert ThreadOk(s, t, th);
    if th.CheckReserved? { QuietKeeps(s, t, s'.threads[t]); }
  }

  lemma ReleaseKeeps(s: System, t: nat)
    requires Inv(s) && t in s.threads && (s.threads[t].Unreserve? || s.threads[t].ReleaseReserved?)
    ensures Good(s, RunThread(s, t, s.threads[t]), t)
  {
    hide LogOk, IdsOk, SeenOk, Admitted, RunStore, RunRead;
    assert ThreadOk(s, t, s.threads[t]);
  }

  lemma NothingKeeps(s: System, t: nat)
    requires Inv(s) && t in s.threads
    ensures Good(s, s, t)
  {
    hide GlobalOk, ThreadOk;
    assert s.threads == s.threads[t := s.threads[t]];
  }

  lemma RejectKeeps(s: System, t: nat)
    requires Inv(s) && t in s.threads && s.threads[t].Submitting?
    requires |s.log| == s.threads[t].index + 1 && s.owner.None? && NobodyCompletes(s, s.threads[t].id)
    ensures Good(s, Step(s, t, Reject), t)
  {
    hide LogOk, IdsOk, SeenOk, Admitted, IdAt, CounterOk, MayFollow;
    assert ThreadOk(s, t, s.threads[t]);
  }

  lemma BeginKeeps(s: System, t: nat, e: Event)
    requires Inv(s) && t in s.threads && !e.Run?
    ensures Good(s, Step(s, t, e), t)
  {
    hide LogOk, IdsOk, SeenOk, Admitted, IdAt, CounterOk, MayFollow, GlobalOk, Undisturbed;
    var s' := Step(s, t, e);
    assert ThreadOk(s, t, s.threads[t]);
    if s' == s {
      NothingKeeps(s, t);
    } else if e.Reject? {
      RejectKeeps(s, t);
    } else {
      QuietKeeps(s, t, s'.threads[t]);
    }
  }

  /** Every step of every thread keeps the invariant. */
  lemma StepKeeps(s: System, t: nat, e: Event)
    requires Inv(s)
    ensures Inv(Step(s, t, e))
  {
    if t !in s.threads { return; }
    hide GlobalOk, ThreadOk, Undisturbed, RunRead, RunStore;
    var th, s' := s.threads[t], Step(s, t, e);
    if !e.Run? {
      BeginKeeps(s, t, e);
    } else if th.Store? {
      StoreKeeps(s, t);
    } else if th.Read? {
      ReadKeeps(s, t);
    } else if th.Reserve? || th.TakeId? {
      ReserveKeeps(s, t);
    } else if th.Unreserve? || th.ReleaseReserved? {
      ReleaseKeeps(s, t);
    } else if th.Idle? || th.Submitting? {
      NothingKeeps(s, t);
    } else {
      FlagKeeps(s, t);
    }
    forall u | u in s'.threads ensures ThreadOk(s', u, s'.threads[u]) {
      if u != t { OthersKeep(s, s', t, u); }
    }
  }

  // ---- what every run keeps ------------------------------------------------

  /** Every interleaving of any number of submitters, completers and readers keeps the invariant. */
  lemma {:induction false} ExecKeeps(threads: set<nat>, schedule: seq<(nat, Event)>)
    ensures Inv(Exec(Initial(threads), schedule))
    decreases |schedule|
  {
    if schedule == [] {
      InitialInv(threads);
    } else {
      hide Inv;
      var n := |schedule| - 1;
      ExecKeeps(threads, schedule[..n]);
      StepKeeps(Exec(Initial(threads), schedule[..n]), schedule[n].0, schedule[n].1);
    }
  }

  /** Between its two increments of the sequence counter, a writer is alone, racing completers included. */
  lemma OneWriter(threads: set<nat>, schedule: seq<(nat, Event)>, t: nat, u: nat)
    requires t in Exec(Initial(threads), schedule).threads && u in Exec(Initial(threads), schedule).threads
    requires Writing(Exec(Initial(threads), schedule).threads[t])
    requires Writing(Exec(Initial(threads), schedule).threads[u])
    ensures t == u
  {
    var s := Exec(Initial(threads), schedule);
    ExecKeeps(threads, schedule);
    assert ThreadOk(s, t, s.threads[t]) && ThreadOk(s, u, s.threads[u]);
  }

  /** An accepted read is one whole published operation, and reads accepted later are never older. */
  lemma ReadsAreWholeAndMonotonic(threads: set<nat>, schedule: seq<(nat, Event)>, j: nat, k: nat)
    requires j <= k < |Exec(Initial(threads), schedule).seen|
    ensures var s := Exec(Initial(threads), schedule);
      && s.seen[j].at <= s.seen[k].at < |s.log|
      && s.seen[j].op == s.log[s.seen[j].at] && s.seen[k].op == s.log[s.seen[k].at]
  {
    ExecKeeps(threads, schedule);
  }

  /** The step that takes the reservation finds no operation pending and nobody else working on one. */
  lemma ReservesOnlyWhenIdle(threads: set<nat>, schedule: seq<(nat, Event)>, t: nat)
    requires var s := Exec(Initial(threads), schedule);
      t in s.threads && s.threads[t].Reserve? && Step(s, t, Run).threads[t].TakeId?
    ensures var s := Exec(Initial(threads), schedule);
      && Latest(s).state != Pending && s.mem.state != Pending
      && forall u | u in s.threads :: !Owns(s.threads[u])
  {
    var s := Exec(Initial(threads), schedule);
    ExecKeeps(threads, schedule);
    forall u | u in s.threads ensures !Owns(s.threads[u]) { assert ThreadOk(s, u, s.threads[u]); }
  }

  predicate Outcome(op: Op, id: U32) { Terminal(op) && op.id == id }

  /** How many entries of the log end the operation with this id. */
  function Outcomes(log: seq<Op>, id: U32): nat {
    if log == [] then 0
    else Outcomes(log[..|log| - 1], id) + (if Outcome(log[|log| - 1], id) then 1 else 0)
  }

  /** How many entries admit an operation under this id. */
  function Admissions(log: seq<Op>, id: U32): nat {
    if log == [] then 0
    else Admissions(log[..|log| - 1], id)
         + (if log[|log| - 1].state == Pending && log[|log| - 1].id == id then 1 else 0)
  }

  predicate OpenFor(op: Op, id: U32) { op.state == Pending && op.id == id }

  lemma {:induction false} LogBounds(log: seq<Op>, id: U32)
    requires LogOk(log)
    ensures Outcomes(log, id) + (if OpenFor(log[|log| - 1], id) then 1 else 0) <= Admissions(log, id)
    decreases |log|
  {
    var n := |log| - 1;
    if n == 0 {
      assert log[..0] == [];
    } else {
      var front := log[..n];
      assert forall k | 0 <= k < n :: front[k] == log[k];
      LogBounds(front, id);
      assert MayFollow(log[n - 1], log[n]);
    }
  }

  /** Each admission gets at most one terminal result, however many completers race for it. */
  lemma AtMostOneOutcome(threads: set<nat>, schedule: seq<(nat, Event)>, id: U32)
    ensures var log := Exec(Initial(threads), schedule).log; Outcomes(log, id) <= Admissions(log, id)
  {
    ExecKeeps(threads, schedule);
    LogBounds(Exec(Initial(threads), schedule).log, id);
  }

  lemma AdmittedPrefix(log: seq<Op>, j: nat, k: nat)
    requires j < k <= |log| && log[j].state == Pending
    ensures Admitted(log[..j]) < Admitted(log[..k])
    decreases k
  {
    assert log[..k][..k - 1] == log[..k - 1];
    if j < k - 1 { AdmittedPrefix(log, j, k - 1); }
  }

  lemma IdsDiffer(m: nat, n: nat)
    requires m < n < m + U32_MAX
    ensures IdAt(m) != IdAt(n)
  {
    assert n - m == U32_MAX * (n / U32_MAX - m / U32_MAX) + (n % U32_MAX - m % U32_MAX);
  }

  /** Ids are never zero and none is used again within 2^32 - 1 admissions. */
  lemma IdsAreFresh(threads: set<nat>, schedule: seq<(nat, Event)>, j: nat, k: nat)
    requires var log := Exec(Initial(threads), schedule).log;
      && j < k < |log| && log[j].state == Pending && log[k].state == Pending
      && Admitted(log[..k]) < Admitted(log[..j]) + U32_MAX
    ensures var log := Exec(Initial(threads), schedule).log;
      log[j].id != 0 && log[k].id != 0 && log[j].id != log[k].id
  {
    var log := Exec(Initial(threads), schedule).log;
    ExecKeeps(threads, schedule);
    AdmittedPrefix(log, j, k);
    IdsDiffer(Admitted(log[..j]), Admitted(log[..k]));
  }
}
