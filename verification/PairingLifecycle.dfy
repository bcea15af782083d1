/**
 * The pairing lifecycle: a seven-state machine with saturating deadlines, a
 * durable attempt counter and ports that may fail at every call.
 *
 * `View` is the abstract state each operation's contract speaks about. Every
 * operation first ages the view to the time it reads from the clock.
 */
module PairingLifecycle {
  import opened Common
  import opened PairingWorld

  const WINDOW_MS: U64 := 120000
  const STEP_MS: U64 := 15000
  const SESSION_IDLE_MS: U64 := 300000
  const SESSION_ABSOLUTE_MS: U64 := 1800000
  const DIGIT_REJECTION_LIMIT := 256

  datatype State = Inactive | Available | Handshake | WaitFinishedSent | Active | Locked | Fault

  datatype Result =
    | Ok | InvalidArgument | InvalidState | InvalidSession | PresenceRequired | LockedOut | Busy
    | RandomFailed | DisplayFailed | PersistenceError | ClockFailed | StartFailed | Faulted

  datatype Policy = Policy(windowMs: U64, stepMs: U64, idleMs: U64, absoluteMs: U64, maxAttempts: U32)

  predicate PolicyIsSafe(p: Policy) {
    && 0 < p.stepMs <= p.windowMs <= WINDOW_MS && p.stepMs <= STEP_MS
    && 0 < p.idleMs <= p.absoluteMs <= SESSION_ABSOLUTE_MS && p.idleMs <= SESSION_IDLE_MS
    && 0 < p.maxAttempts <= MAX_ATTEMPTS
  }

  function DeadlineAfter(now: U64, duration: U64): U64 {
    if now > U64_MAX - duration then U64_MAX else now + duration
  }

  function Earlier(a: U64, b: U64): U64 { if a < b then a else b }

  /** A deadline is the sum, or the end of time; the earlier of two is the one that passes first. */
  lemma DeadlineFacts(now: U64, duration: U64, a: U64, b: U64)
    ensures DeadlineAfter(now, duration) as int == (if now as int + duration as int <= U64_MAX then now + duration else U64_MAX)
    ensures Earlier(a, b) in {a, b} && Earlier(a, b) <= a && Earlier(a, b) <= b
  {
  }

  datatype View = View(state: State, attempts: U32, windowEnd: U64, stepEnd: U64, idleEnd: U64, absoluteEnd: U64,
                       connection: U64, handshake: U64)

  predicate InHandshake(s: State) { s.Handshake? || s.WaitFinishedSent? }

  /** States in which a connection is open. */
  predicate Live(s: State) { s.Available? || InHandshake(s) || s.Active? }

  predicate Expired(v: View, now: U64) {
    || (v.state.Available? && now >= v.windowEnd)
    || (InHandshake(v.state) && (now >= v.windowEnd || now >= v.stepEnd))
    || (v.state.Active? && (now >= v.idleEnd || now >= v.absoluteEnd))
  }

  function Settled(attempts: U32, p: Policy): State { if attempts >= p.maxAttempts then Locked else Inactive }

  function Closed(v: View, p: Policy): View { View(Settled(v.attempts, p), v.attempts, 0, 0, 0, 0, 0, 0) }

  function Broken(v: View): View { View(Fault, v.attempts, 0, 0, 0, 0, 0, 0) }

  function Aged(v: View, now: U64, p: Policy): View { if Expired(v, now) then Closed(v, p) else v }

  /**
   * What holds between any two calls. A failed start leaves old deadlines behind in Inactive and
   * Locked, so nothing is said about deadlines there.
   */
  predicate ViewOk(v: View, p: Policy, openedAt: U64, activeSince: U64) {
    && (v.connection != 0 <==> Live(v.state))
    && (v.handshake != 0 <==> InHandshake(v.state) || v.state.Active?)
    && (v.state.Inactive? || v.state.Available? ==> v.attempts < p.maxAttempts)
    && (v.state.Locked? ==> v.attempts == p.maxAttempts)
    && (InHandshake(v.state) ==> 0 < v.attempts <= p.maxAttempts && v.stepEnd <= v.windowEnd)
    && (v.state.Available? || InHandshake(v.state) ==> v.windowEnd == DeadlineAfter(openedAt, p.windowMs))
    && (v.state.Active? ==>
          v.attempts == 0 && v.idleEnd <= v.absoluteEnd && v.absoluteEnd == DeadlineAfter(activeSince, p.absoluteMs))
  }

  function Opening(v: View, id: U64, now: U64, p: Policy): View {
    v.(state := Available, windowEnd := DeadlineAfter(now, p.windowMs), connection := id)
  }

  /** Opening a window: it needs an idle, unlocked device; a clock or display failure breaks off whatever was open. */
  predicate OpenOutcome(before: View, after: View, r: Result, id: U64, now: U64, p: Policy) {
    var v := Aged(before, now, p);
    match r
    case Ok => v.state.Inactive? && after == Opening(v, id, now, p)
    case Faulted => v.state.Fault? && after == v
    case LockedOut => v.state.Locked? && after == v
    case InvalidState => Live(v.state) && after == v
    case PresenceRequired => v.state.Inactive? && after == v
    case RandomFailed => v.state.Inactive? && after == v
    case ClockFailed => !before.state.Fault? && after == Broken(before)
    case DisplayFailed => (Expired(before, now) || v.state.Inactive?) && after == Broken(before)
    case _ => false
  }

  function Starting(v: View, id: U64, now: U64, p: Policy): View
    requires v.attempts < U32_MAX
  {
    v.(state := Handshake, attempts := v.attempts + 1, handshake := id,
       stepEnd := Earlier(DeadlineAfter(now, p.stepMs), v.windowEnd))
  }

  /** A start that the consumer refused: the attempt is spent and the old deadlines stay behind. */
  function NotStarted(v: View, p: Policy): View { v.(state := Settled(v.attempts, p), connection := 0, handshake := 0) }

  predicate BeginOutcome(before: View, after: View, r: Result, connection: U64, id: U64, now: U64, p: Policy) {
    var v := Aged(before, now, p);
    var ready := v.state.Available? && v.connection == connection && v.attempts < U32_MAX;
    match r
    case Ok => ready && after == Starting(v, id, now, p)
    case StartFailed => ready && after == NotStarted(Starting(v, id, now, p), p)
    case PersistenceError => ready && after == Broken(v)
    case DisplayFailed =>
      (Expired(before, now) && after == Broken(before)) || (ready && after == Broken(Starting(v, id, now, p)))
    case ClockFailed => !before.state.Fault? && after == Broken(before)
    case Busy => (InHandshake(v.state) || v.state.Active?) && after == v
    case LockedOut => v.state.Locked? && after == v
    case InvalidState => (v.state.Inactive? || v.state.Fault?) && after == v
    case InvalidSession => v.state.Available? && v.connection != connection && after == v
    case _ => false
  }

  function Progressed(v: View, now: U64, p: Policy): View {
    v.(stepEnd := Earlier(DeadlineAfter(now, p.stepMs), v.windowEnd))
  }

  function Activated(v: View, now: U64, p: Policy): View {
    v.(state := Active, attempts := 0, idleEnd := DeadlineAfter(now, p.idleMs),
       absoluteEnd := DeadlineAfter(now, p.absoluteMs))
  }

  /** Activity moves the idle deadline only, and never past the absolute one. */
  function Renewed(v: View, now: U64, p: Policy): View {
    v.(idleEnd := Earlier(DeadlineAfter(now, p.idleMs), v.absoluteEnd))
  }

  /** An operation that needs `state` and these ids: it refuses, faults or moves to `next`. */
  predicate StepOutcome(v: View, before: View, after: View, r: Result, state: State, connection: U64, id: U64, next: View) {
    match r
    case Ok => v.state == state && v.connection == connection && v.handshake == id && after == next
    case InvalidState => v.state != state && after == v
    case InvalidSession => v.state == state && !(v.connection == connection && v.handshake == id) && after == v
    case PersistenceError => v.state == state && after == Broken(v)
    case ClockFailed => !before.state.Fault? && after == Broken(before)
    case DisplayFailed => Live(before.state) && after == Broken(before)
    case _ => false
  }

  // ---- what the ports said ---------------------------------------------------

  /** The clock failed, or ran backwards from `last`. */
  predicate BadClock(s: Reply, known: bool, last: U64) {
    s.ClockSaid? && (!s.ok || (known && s.now < last))
  }

  predicate ClockRefused(heard: set<Reply>, known: bool, last: U64) { exists s | s in heard :: BadClock(s, known, last) }

  predicate PresenceRefused(heard: set<Reply>) {
    PresenceSaid(StartPairing, false) in heard || PresenceSaid(ResetPairing, false) in heard
  }

  predicate DisplayRefused(heard: set<Reply>) { ShowSaid(false) in heard || ClearSaid(false) in heard }

  /**
   * A result blames a port exactly if that port refused: the clock first, then the record store, then the
   * display; a consumer that refused the code counts only if the display could be cleared after it.
   */
  predicate Blames(heard: set<Reply>, known: bool, last: U64, r: Result) {
    && (r == ClockFailed <==> ClockRefused(heard, known, last))
    && (r == PresenceRequired <==> PresenceRefused(heard))
    && (r == PersistenceError <==> StoreSaid(false) in heard)
    && (r == DisplayFailed <==>
          DisplayRefused(heard) && !ClockRefused(heard, known, last) && StoreSaid(false) !in heard)
    && (r == StartFailed <==> ConsumerSaid(false) in heard && !DisplayRefused(heard))
    && (RandomSaid(false) in heard ==> r == RandomFailed)
  }

  /** Only the clock and the display were asked. */
  predicate OnlyAged(heard: set<Reply>) { forall s | s in heard :: s.ClockSaid? || s.ClearSaid? }

  /** Nobody has refused so far, and only these ports were asked. */
  predicate Agreeable(heard: set<Reply>, known: bool, last: U64, stored: bool) {
    && !ClockRefused(heard, known, last) && !DisplayRefused(heard)
    && forall s | s in heard :: s.ClockSaid? || s.ClearSaid? || (stored && s == StoreSaid(true))
  }

  /** Results that blame no port. */
  predicate Blameless(r: Result) {
    r !in {ClockFailed, PresenceRequired, PersistenceError, DisplayFailed, StartFailed, RandomFailed}
  }

  /** Where nobody refused, any such result will do, and nobody else was asked. */
  lemma NobodyBlamed(heard: set<Reply>, known: bool, last: U64)
    requires OnlyAged(heard) && Blames(heard, known, last, Ok)
    ensures forall r | Blameless(r) :: Blames(heard, known, last, r)
    ensures PresenceSaid(StartPairing, true) !in heard && ShowSaid(false) !in heard
    ensures Agreeable(heard, known, last, false)
  {
  }

  /** Someone was there exactly for a new window, and the code on display is what was drawn for it. */
  predicate OpenAnswers(heard: set<Reply>, draws: seq<Byte>, code: Code, r: Result) {
    && (PresenceSaid(StartPairing, true) in heard <==> r in {Ok, RandomFailed} || ShowSaid(false) in heard)
    && (r == RandomFailed ==> RandomSaid(false) in heard || TooManyRejected(draws))
    && (r == Ok ==> ShowSaid(true) in heard && code == Digits(draws))
  }

  lemma NoOpening(heard: set<Reply>)
    requires OnlyAged(heard)
    ensures forall r, draws, code | r !in {Ok, RandomFailed} :: OpenAnswers(heard, draws, code, r)
  {
  }

  /** The blame when an open connection is closed after all. */
  lemma CloseBlames(heard: set<Reply>, more: set<Reply>, known: bool, last: U64, r: Result)
    requires OnlyAged(heard) && Blames(heard, known, last, Ok) && r in {Ok, DisplayFailed}
    requires heard <= more <= heard + {ClearSaid(r == Ok)} && (r == DisplayFailed ==> ClearSaid(false) in more)
    ensures OnlyAged(more) && Blames(more, known, last, r)
  {
    ClockStands(heard, more, known, last, false);
    hide ClockRefused;
  }

  /** Asking anyone but the clock leaves the clock's answer as it was. */
  lemma ClockStands(heard: set<Reply>, more: set<Reply>, known: bool, last: U64, stored: bool)
    requires Agreeable(heard, known, last, stored) && forall s | s in more :: s in heard || !s.ClockSaid?
    ensures !ClockRefused(more, known, last)
  {
  }

  lemma AgreeableFacts(heard: set<Reply>, known: bool, last: U64, stored: bool)
    requires Agreeable(heard, known, last, stored)
    ensures forall s | s in heard :: s.ClockSaid? || s == ClearSaid(true) || s == StoreSaid(true)
  {
  }

  /** The blame for opening a window. */
  lemma OpenBlames(heard: set<Reply>, more: set<Reply>, known: bool, last: U64, r: Result)
    requires Agreeable(heard, known, last, false) && heard <= more
    requires forall s | s in more ::
      s in heard || s == PresenceSaid(StartPairing, r != PresenceRequired) || s.RandomSaid? || s.ShowSaid? || s.ClearSaid?
    requires r in {Ok, PresenceRequired, RandomFailed, DisplayFailed}
    requires r != PresenceRequired <==> PresenceSaid(StartPairing, false) !in more
    requires r == DisplayFailed <==> ShowSaid(false) in more
    requires ClearSaid(false) in more ==> r == DisplayFailed
    requires RandomSaid(false) in more ==> r == RandomFailed
    ensures Blames(more, known, last, r)
  {
    ClockStands(heard, more, known, last, false);
    hide ClockRefused;
  }

  /** The blame for handing the code over: the display counts before the consumer. */
  lemma HandOverBlames(heard: set<Reply>, known: bool, last: U64, consumed: bool, cleared: bool)
    requires Agreeable(heard, known, last, true)
    ensures Blames(heard + {ConsumerSaid(consumed), ClearSaid(cleared)}, known, last,
                   if !cleared then DisplayFailed else if !consumed then StartFailed else Ok)
  {
    ClockStands(heard, heard + {ConsumerSaid(consumed), ClearSaid(cleared)}, known, last, true);
    hide ClockRefused;
  }

  /** The blame when the record store is asked: after a refusal the display is cleared, whatever it says. */
  lemma StoreBlames(heard: set<Reply>, more: set<Reply>, known: bool, last: U64)
    requires Agreeable(heard, known, last, false)
    ensures Agreeable(heard + {StoreSaid(true)}, known, last, true) && Blames(heard + {StoreSaid(true)}, known, last, Ok)
    ensures heard + {StoreSaid(false)} <= more
      && (forall s | s in more :: s in heard || s == StoreSaid(false) || s.ClearSaid?)
      ==> Blames(more, known, last, PersistenceError)
  {
    ClockStands(heard, heard + {StoreSaid(true)}, known, last, false);
    if heard + {StoreSaid(false)} <= more && forall s | s in more :: s in heard || s == StoreSaid(false) || s.ClearSaid? {
      ClockStands(heard, more, known, last, false);
    }
    hide ClockRefused;
  }

  /** The blame for a reset by someone at the device. */
  lemma ResetBlames(known: bool, last: U64, present: bool, visible: bool, cleared: bool, stored: bool)
    requires cleared || visible
    ensures Blames({PresenceSaid(ResetPairing, false)}, known, last, PresenceRequired)
    ensures var heard := {PresenceSaid(ResetPairing, true)} + if visible then {ClearSaid(cleared)} else {};
      if !cleared then Blames(heard, known, last, DisplayFailed)
      else Blames(heard + {StoreSaid(stored)}, known, last, if stored then Ok else PersistenceError)
  {
  }

  predicate IsDigits(code: Code) {
    |code| == CODE_SIZE && forall k | 0 <= k < |code| :: '0' as int <= code[k] <= '9' as int
  }

  /** The digits that a run of drawn bytes yields: bytes from 250 on are skipped. */
  function Digits(draws: seq<Byte>): (r: Code)
    ensures forall k | 0 <= k < |r| :: '0' as int <= r[k] <= '9' as int
  {
    if draws == [] then
      []
    else
      var value := draws[|draws| - 1];
      Digits(draws[..|draws| - 1]) + if value >= 250 then [] else ['0' as int + value % 10]
  }

  lemma NoDigits()
    ensures Digits([]) == []
  {
  }

  lemma DigitsNext(draws: seq<Byte>, value: Byte)
    ensures Digits(draws + [value]) == Digits(draws) + if value >= 250 then [] else ['0' as int + value % 10]
  {
    assert (draws + [value])[..|draws|] == draws;
  }

  lemma {:induction false} DigitsConcat(a: seq<Byte>, b: seq<Byte>)
    ensures Digits(a + b) == Digits(a) + Digits(b)
  {
    if b == [] {
      assert a + b == a;
    } else {
      var front := b[..|b| - 1];
      DigitsConcat(a, front);
      assert (a + b)[..|a + b| - 1] == a + front;
    }
  }

  lemma DigitsAreDigits(draws: seq<Byte>)
    ensures |Digits(draws)| == CODE_SIZE ==> IsDigits(Digits(draws))
  {
  }

  /** The limit of rejected bytes was reached before the code was complete. */
  predicate TooManyRejected(draws: seq<Byte>) {
    |Digits(draws)| < CODE_SIZE && |draws| - |Digits(draws)| >= DIGIT_REJECTION_LIMIT
  }

  predicate IsZeros(code: Code) { |code| == CODE_SIZE && forall k | 0 <= k < |code| :: code[k] == 0 }

  /** Among the accepted byte values below 250, every digit comes from equally many. */
  lemma {:induction false} DigitsAreEven(digit: nat, n: nat)
    requires digit < 10
    ensures |set v | 0 <= v < 10 * n && v % 10 == digit| == n
  {
    var all := set v | 0 <= v < 10 * n && v % 10 == digit;
    if n == 0 {
      assert all == {};
    } else {
      var fewer := set v | 0 <= v < 10 * (n - 1) && v % 10 == digit;
      DigitsAreEven(digit, n - 1);
      var last := 10 * (n - 1) + digit;
      assert all == fewer + {last};
    }
  }

  predicate Unreadable(d: Durable) { d.Stored? && DecodeRecord(d.word).None? }

  /** Ageing neither leads into a fault nor out of one, and spends no attempt. */
  lemma AgedFacts(v: View, now: U64, p: Policy)
    ensures Aged(v, now, p).state.Fault? <==> v.state.Fault?
    ensures Broken(Aged(v, now, p)) == Broken(v)
  {
  }

  lemma UsedOf(d: Durable)
    ensures d.NoNamespace? ==> Used(d) == 0
    ensures d.Stored? && DecodeRecord(d.word).Some? ==> Used(d) == DecodeRecord(d.word).value.attempts
  {
  }

  class Lifecycle {
    const policy: Policy
    const world: World
    const code: array<Byte>
    var attempts: U32
    var state: State
    var visible: bool
    var clockKnown: bool
    var lastNow: U64
    var windowEnd: U64
    var stepEnd: U64
    var idleEnd: U64
    var absoluteEnd: U64
    var connection: U64
    var handshake: U64
    /** When the window was opened and when the session became active. */
    ghost var openedAt: U64
    ghost var activeSince: U64

    function Snapshot(): View
      reads this
    {
      View(state, attempts, windowEnd, stepEnd, idleEnd, absoluteEnd, connection, handshake)
    }

    /** The world is safe, and knows of the same connection and display. */
    ghost predicate Synced()
      reads this, world, code
    {
      && world.Safe() && code.Length == CODE_SIZE && PolicyIsSafe(policy) && policy.maxAttempts == world.limit
      && (world.powered ==>
            && Replay(world.events).connection == connection
            && (!visible ==> !Replay(world.events).displayOn))
    }

    ghost predicate Valid()
      reads this, world, code
    {
      && Synced()
      && ViewOk(Snapshot(), policy, openedAt, activeSince)
      && (if state.Available? then IsDigits(code[..]) else IsZeros(code[..]))
      && (state.Available? ==> visible) && (visible ==> state.Available? || state.Fault?)
      && (state.Available? || InHandshake(state) ==> openedAt <= lastNow)
      && (state.Active? ==> activeSince <= lastNow)
      && (Live(state) ==> clockKnown) && (clockKnown || lastNow == 0)
      && (world.powered ==>
            && (state.Available? ==> Replay(world.events).inPlay == Some(code[..]))
            && (!state.Fault? ==> attempts == Used(world.durable)))
    }

    /**
     * Start-up from the durable record. An unreadable record, or one beyond the limit, is a fault.
     * An unsafe policy never gets this far: creation is refused.
     */
    constructor (p: Policy, w: World)
      requires w.Safe() && PolicyIsSafe(p) && p.maxAttempts == w.limit
      requires w.powered ==> Replay(w.events).connection == 0 && !Replay(w.events).displayOn
      modifies w`powered, w`heard, w`faults, w`events
      ensures Valid() && world == w && policy == p && fresh(code)
      ensures state.Inactive? || state.Locked? || state.Fault?
      // the durable counter decides between the two, and an unreadable one is never passed over
      ensures w.powered && !state.Fault? ==> state == Settled(Used(w.durable), p) && attempts == Used(w.durable)
      ensures w.powered && (w.durable.NoKey? || Unreadable(w.durable) || Used(w.durable) > p.maxAttempts) ==> state.Fault?
      ensures w.faults == old(w.faults) ==>
        (state.Fault? <==> w.durable.NoKey? || Unreadable(w.durable) || Used(w.durable) > p.maxAttempts)
      ensures w.powered ==> old(w.powered)
    {
      policy, world, code := p, w, new Byte[CODE_SIZE](_ => 0);
      attempts, state, visible, clockKnown := 0, Inactive, false, false;
      lastNow, windowEnd, stepEnd, idleEnd, absoluteEnd, connection, handshake := 0, 0, 0, 0, 0, 0, 0;
      new;
      hide Replay, DecodeRecord, EventsOk, Used, Unreadable;
      LoadRecord();
      if !state.Fault? {
        var clock := ReadClock();
      }
    }

    /** The attempts spent so far, or a fault if they cannot be known. */
    method LoadRecord()
      requires state.Inactive? && attempts == 0 && PolicyIsSafe(policy)
      modifies this`attempts, this`state, world`powered, world`faults
      ensures state.Fault? ==> attempts == 0
      ensures !state.Fault? ==> attempts <= policy.maxAttempts && state == Settled(attempts, policy)
      ensures world.powered && !state.Fault? ==> attempts == Used(world.durable)
      ensures world.powered && !state.Fault? ==>
        !(world.durable.NoKey? || Unreadable(world.durable) || Used(world.durable) > policy.maxAttempts)
      ensures world.faults >= old(world.faults)
      ensures world.faults == old(world.faults) ==>
        (state.Fault? <==> world.durable.NoKey? || Unreadable(world.durable) || Used(world.durable) > policy.maxAttempts)
      ensures world.powered ==> old(world.powered)
    {
      var loaded := world.Load();
      UsedOf(world.durable);
      if loaded.LoadError? || (loaded.Loaded? && loaded.record.attempts > policy.maxAttempts) {
        state := Fault;
      } else if loaded.Loaded? {
        attempts := loaded.record.attempts;
        Settle();
      }
    }

    /** A new call begins: nothing was heard yet. */
    ghost method Listen()
      requires Valid()
      modifies world`heard
      ensures Valid() && world.heard == {}
    {
      world.heard := {};
    }

    method RevokeConnection()
      requires Synced()
      modifies this`connection, this`handshake, world`powered, world`heard, world`faults, world`events
      ensures world.faults >= old(world.faults)
      ensures Synced() && connection == 0 && handshake == 0 && world.heard == old(world.heard)
      ensures world.powered ==> old(world.powered) && Replay(world.events).inPlay == old(Replay(world.events).inPlay)
    {
      if connection != 0 { world.Revoke(connection); }
      connection, handshake := 0, 0;
    }

    /** The code is wiped even when the display cannot be cleared. */
    method ClearCode() returns (cleared: bool)
      requires Synced()
      modifies this`visible, code, world`powered, world`heard, world`faults, world`events
      ensures world.faults >= old(world.faults)
      ensures Synced() && IsZeros(code[..])
      ensures visible == (old(visible) && !cleared)
      ensures cleared || old(visible)
      ensures world.heard == old(world.heard) + if old(visible) then {ClearSaid(cleared)} else {}
      ensures cleared && old(visible) ==> world.events == old(world.events) + [Cleared]
      ensures world.powered ==> old(world.powered)
    {
      cleared := true;
      if visible { cleared := world.Clear(); }
      WipeCode();
      if cleared { visible := false; }
    }

    method WipeCode()
      requires code.Length == CODE_SIZE
      modifies code
      ensures IsZeros(code[..])
    {
      for i := 0 to code.Length
        invariant forall k | 0 <= k < i :: code[k] == 0
      {
        code[i] := 0;
      }
    }

    method ClearTransient() returns (cleared: bool)
      requires Synced()
      modifies this`connection, this`handshake, this`windowEnd, this`stepEnd, this`idleEnd, this`absoluteEnd, this`visible,
               code, world`powered, world`heard, world`faults, world`events
      ensures world.faults >= old(world.faults)
      ensures Synced() && IsZeros(code[..])
      ensures connection == handshake == windowEnd == stepEnd == idleEnd == absoluteEnd == 0
      ensures visible == (old(visible) && !cleared) && (cleared || old(visible))
      ensures world.heard == old(world.heard) + if old(visible) then {ClearSaid(cleared)} else {}
      ensures world.powered ==> old(world.powered)
    {
      RevokeConnection();
      windowEnd, stepEnd, idleEnd, absoluteEnd := 0, 0, 0, 0;
      cleared := ClearCode();
    }

    method Settle()
      modifies this`state
      ensures state == Settled(attempts, policy)
    {
      state := if attempts >= policy.maxAttempts then Locked else Inactive;
    }

    method EnterFault()
      requires Synced() && (clockKnown || lastNow == 0)
      modifies this`state, this`connection, this`handshake, this`windowEnd, this`stepEnd, this`idleEnd, this`absoluteEnd,
               this`visible, code, world`powered, world`heard, world`faults, world`events
      ensures world.faults >= old(world.faults)
      ensures Valid() && Snapshot() == Broken(old(Snapshot()))
      ensures old(world.heard) <= world.heard && forall s | s in world.heard :: s in old(world.heard) || s.ClearSaid?
      ensures world.powered ==> old(world.powered)
    {
      hide Replay, EventsOk;
      var cleared := ClearTransient();
      state := Fault;
    }

    method FaultAfterClearFailure() returns (r: Result)
      requires Synced() && IsZeros(code[..]) && (clockKnown || lastNow == 0)
      modifies this`state, this`connection, this`handshake, this`windowEnd, this`stepEnd, this`idleEnd, this`absoluteEnd,
               world`powered, world`heard, world`faults, world`events
      ensures Valid() && Snapshot() == Broken(old(Snapshot())) && r == DisplayFailed && world.heard == old(world.heard)
      ensures world.powered ==> old(world.powered)
    {
      hide Replay, EventsOk;
      RevokeConnection();
      windowEnd, stepEnd, idleEnd, absoluteEnd := 0, 0, 0, 0;
      state := Fault;
      r := DisplayFailed;
    }

    /** A clock that fails or runs backwards is a fault. */
    method ReadClock() returns (r: Result)
      requires Synced() && (clockKnown || lastNow == 0) && (Valid() || (IsZeros(code[..]) && !visible))
      modifies this, code, world`powered, world`heard, world`faults, world`events
      ensures attempts == old(attempts) && openedAt == old(openedAt) && activeSince == old(activeSince)
      ensures r == Ok || r == ClockFailed
      ensures r == Ok ==> world.heard == old(world.heard) + {ClockSaid(true, lastNow)} && !(old(clockKnown) && lastNow < old(lastNow))
      ensures r == ClockFailed ==> ClockRefused(world.heard, old(clockKnown), old(lastNow))
      ensures r == ClockFailed ==> forall s | s in world.heard :: s in old(world.heard) || s.ClockSaid? || s.ClearSaid?
      ensures world.faults >= old(world.faults) && (r == ClockFailed ==> old(clockKnown) || world.faults > old(world.faults))
      ensures r == ClockFailed ==> Valid() && Snapshot() == Broken(old(Snapshot()))
      ensures r == Ok ==> Snapshot() == old(Snapshot()) && clockKnown && visible == old(visible) && code[..] == old(code[..])
      ensures r == Ok ==> old(lastNow) <= lastNow && world.events == old(world.events)
      ensures world.powered ==> old(world.powered)
    {
      var ok, now := world.Clock();
      if !ok || (clockKnown && now < lastNow) {
        assert BadClock(ClockSaid(ok, now), clockKnown, lastNow);
        EnterFault();
        assert ClockSaid(ok, now) in world.heard;
        return ClockFailed;
      }
      clockKnown, lastNow := true, now;
      r := Ok;
    }
  
    method ExpireIfNeeded() returns (r: Result)
      requires Valid()
      modifies this`state, this`connection, this`handshake, this`windowEnd, this`stepEnd, this`idleEnd, this`absoluteEnd,
               this`visible, code, world`powered, world`heard, world`faults, world`events
      ensures Valid() && (r == Ok || r == DisplayFailed)
      ensures Snapshot() == if r == Ok then Aged(old(Snapshot()), lastNow, policy) else Broken(old(Snapshot()))
      ensures r != Ok ==> Expired(old(Snapshot()), lastNow)
      ensures old(world.heard) <= world.heard <= old(world.heard) + {ClearSaid(r == Ok)}
      ensures r == DisplayFailed ==> ClearSaid(false) in world.heard
      ensures !Expired(old(Snapshot()), lastNow) ==>
        code[..] == old(code[..]) && visible == old(visible) && world.events == old(world.events)
      ensures world.powered ==> old(world.powered)
    {
      hide Replay, EventsOk;
      var expired := false;
      if state.Available? {
        expired := lastNow >= windowEnd;
      } else if InHandshake(state) {
        expired := lastNow >= windowEnd || lastNow >= stepEnd;
      } else if state.Active? {
        expired := lastNow >= idleEnd || lastNow >= absoluteEnd;
      }
      r := Ok;
      if expired {
        var cleared := ClearTransient();
        if !cleared { r := FaultAfterClearFailure(); return; }
        Settle();
      }
    }

    /** Brings the state up to the present. In Fault the clock is not even read. */
    method Refresh() returns (r: Result)
      requires Valid() && world.heard == {}
      modifies this, code, world`powered, world`heard, world`faults, world`events
      ensures Valid() && (r == Ok || r == ClockFailed || r == DisplayFailed)
      ensures openedAt == old(openedAt) && activeSince == old(activeSince)
      ensures r != Ok ==> Snapshot() == Broken(old(Snapshot())) && !old(state).Fault?
      ensures r == DisplayFailed ==> Expired(old(Snapshot()), lastNow)
      ensures OnlyAged(world.heard) && Blames(world.heard, old(clockKnown), old(lastNow), r)
      ensures if old(state).Fault? then world.heard == {} else r == ClockFailed || ClockSaid(true, lastNow) in world.heard
      ensures r == Ok ==> !DisplayRefused(world.heard) && !ClockRefused(world.heard, old(clockKnown), old(lastNow))
      ensures r == Ok ==> Snapshot() == Aged(old(Snapshot()), lastNow, policy) && old(lastNow) <= lastNow
      ensures r == Ok && !Expired(old(Snapshot()), lastNow) ==>
        code[..] == old(code[..]) && visible == old(visible) && world.events == old(world.events)
      ensures old(state).Fault? ==> r == Ok && lastNow == old(lastNow)
      ensures r == Ok && !old(state).Fault? ==> clockKnown
      ensures world.powered ==> old(world.powered)
    {
      hide Replay, EventsOk;
      if state.Fault? { return Ok; }
      r := ReadClock();
      if r != Ok { return; }
      r := ExpireIfNeeded();
    }

    /** Bounded rejection sampling: at most 256 bytes are rejected over all eight digits. */
    method GenerateCode() returns (ok: bool)
      requires code.Length == CODE_SIZE
      modifies code, world`powered, world`heard, world`faults, world`drawn
      ensures if ok then IsDigits(code[..]) else IsZeros(code[..])
      ensures old(world.drawn) <= world.drawn
      ensures |world.drawn| - |old(world.drawn)| <= CODE_SIZE + DIGIT_REJECTION_LIMIT
      ensures ok ==> code[..] == Digits(world.drawn[|old(world.drawn)|..])
      ensures old(world.heard) <= world.heard <= old(world.heard) + {RandomSaid(true), RandomSaid(false)}
      ensures RandomSaid(false) !in old(world.heard) ==>
        (ok <==> RandomSaid(false) !in world.heard && !TooManyRejected(world.drawn[|old(world.drawn)|..]))
      ensures world.powered ==> old(world.powered)
    {
      hide Digits, IsDigits;
      var rejected := 0;
      ghost var draws: seq<Byte> := [];
      NoDigits();
      for index := 0 to CODE_SIZE
        invariant rejected <= DIGIT_REJECTION_LIMIT && |draws| == index + rejected
        invariant world.drawn == old(world.drawn) + draws && code[..index] == Digits(draws)
        invariant old(world.heard) <= world.heard <= old(world.heard) + {RandomSaid(true)}
        invariant world.powered ==> old(world.powered)
      {
        var drawn, value;
        ghost var more;
        drawn, value, rejected, more := DrawDigit(rejected);
        DigitsConcat(draws, more);
        draws := draws + more;
        if !drawn {
          assert |Digits(draws)| == index && world.drawn[|old(world.drawn)|..] == draws;
          WipeCode();
          return false;
        }
        code[index] := '0' as int + value % 10;
        assert code[..index + 1] == code[..index] + [code[index]];
      }
      ok := true;
      assert code[..] == code[..CODE_SIZE] && world.drawn[|old(world.drawn)|..] == draws;
      assert IsDigits(code[..]) by { DigitsAreDigits(draws); }
    }

    /** Draws until a byte below 250 comes; bytes from 250 on count against the limit. */
    method DrawDigit(before: nat) returns (ok: bool, value: Byte, rejected: nat, ghost draws: seq<Byte>)
      requires before <= DIGIT_REJECTION_LIMIT
      modifies world`powered, world`heard, world`faults, world`drawn
      ensures before <= rejected <= DIGIT_REJECTION_LIMIT && world.drawn == old(world.drawn) + draws
      ensures |draws| == rejected - before + (if ok then 1 else 0)
      ensures value < 250 <==> ok
      ensures Digits(draws) == if ok then ['0' as int + value % 10] else []
      ensures old(world.heard) <= world.heard
        && world.heard <= old(world.heard) + {RandomSaid(true)} + if ok then {} else {RandomSaid(false)}
      ensures !ok ==> RandomSaid(false) in world.heard || rejected == DIGIT_REJECTION_LIMIT
      ensures ok && RandomSaid(false) !in old(world.heard) ==> RandomSaid(false) !in world.heard
      ensures world.powered ==> old(world.powered)
    {
      hide Digits;
      value, rejected, draws := 255, before, [];
      NoDigits();
      while value >= 250
        invariant before <= rejected <= DIGIT_REJECTION_LIMIT && world.drawn == old(world.drawn) + draws
        invariant |draws| == rejected - before + (if value >= 250 then 0 else 1)
        invariant Digits(draws) == if value >= 250 then [] else ['0' as int + value % 10]
        invariant old(world.heard) <= world.heard <= old(world.heard) + {RandomSaid(true)}
        invariant world.powered ==> old(world.powered)
        decreases DIGIT_REJECTION_LIMIT - rejected, value
      {
        if rejected >= DIGIT_REJECTION_LIMIT { return false, 255, rejected, draws; }
        var drawn;
        drawn, value := world.Random();
        if !drawn { return false, 255, rejected, draws; }
        DigitsNext(draws, value);
        draws := draws + [value];
        if value >= 250 { rejected := rejected + 1; }
      }
      ok := true;
    }

    /** From here on the connection counts as open, and the display as lit even if showing the code failed. */
    method DisplayCode(id: U64) returns (shown: bool)
      requires Synced() && connection == 0 && id != 0
      modifies this`visible, this`connection, world`powered, world`heard, world`faults, world`events
      ensures Synced() && visible && connection == id && world.heard == old(world.heard) + {ShowSaid(shown)}
      ensures shown && world.powered ==> Replay(world.events).inPlay == Some(code[..])
      ensures world.powered ==> old(world.powered)
    {
      hide Replay, EventsOk;
      visible, connection := true, id;
      world.Open(id);
      shown := world.Show(code[..]);
    }

    /** After a refresh that went well: presence, a fresh code, the display. */
    method OpenWindow(id: U64, ghost known: bool, ghost last: U64) returns (r: Result)
      requires Valid() && id != 0 && state.Inactive? && clockKnown
      requires Agreeable(world.heard, known, last, false)
      modifies this`state, this`windowEnd, this`stepEnd, this`idleEnd, this`absoluteEnd, this`connection, this`handshake,
               this`visible, this`openedAt, code, world`powered, world`heard, world`faults, world`events, world`drawn
      ensures Valid()
      ensures r == Ok || r == PresenceRequired || r == RandomFailed || r == DisplayFailed
      ensures r == Ok ==> openedAt == lastNow && Snapshot() == Opening(old(Snapshot()), id, lastNow, policy)
      ensures r == DisplayFailed ==> Snapshot() == Broken(old(Snapshot()))
      ensures r == PresenceRequired || r == RandomFailed ==> Snapshot() == old(Snapshot())
      ensures Blames(world.heard, known, last, r) && old(world.heard) <= world.heard && old(world.drawn) <= world.drawn
      ensures OpenAnswers(world.heard, world.drawn[|old(world.drawn)|..], code[..], r)
    {
      hide Replay, EventsOk, DecodeRecord, Digits, TooManyRejected;
      AgreeableFacts(world.heard, known, last, false);
      hide ClockRefused, Agreeable, Blames, DisplayRefused, PresenceRefused, BadClock;
      ghost var heard0 := world.heard;
      var present := world.Presence(StartPairing);
      if !present {
        OpenBlames(heard0, world.heard, known, last, PresenceRequired);
        return PresenceRequired;
      }
      var generated := GenerateCode();
      if !generated {
        OpenBlames(heard0, world.heard, known, last, RandomFailed);
        return RandomFailed;
      }
      r := StartWindow(id);
      OpenBlames(heard0, world.heard, known, last, r);
    }

    /** The code goes on display, and the window's deadline is set. */
    method StartWindow(id: U64) returns (r: Result)
      requires Synced() && ViewOk(Snapshot(), policy, openedAt, activeSince) && state.Inactive? && !visible
      requires id != 0 && clockKnown && IsDigits(code[..]) && (world.powered ==> attempts == Used(world.durable))
      modifies this`state, this`windowEnd, this`stepEnd, this`idleEnd, this`absoluteEnd, this`connection, this`handshake,
               this`visible, this`openedAt, code, world`powered, world`heard, world`faults, world`events
      ensures Valid() && (r == Ok || r == DisplayFailed)
      ensures r == Ok ==> openedAt == lastNow && Snapshot() == Opening(old(Snapshot()), id, lastNow, policy)
      ensures r == Ok ==> code[..] == old(code[..])
      ensures r == DisplayFailed ==> Snapshot() == Broken(old(Snapshot()))
      ensures old(world.heard) + {ShowSaid(r == Ok)} <= world.heard
      ensures forall s | s in world.heard :: s in old(world.heard) || s == ShowSaid(r == Ok) || (r != Ok && s.ClearSaid?)
    {
      hide Replay, EventsOk, DecodeRecord;
      var shown := DisplayCode(id);
      if !shown {
        EnterFault();
        return DisplayFailed;
      }
      windowEnd, openedAt := DeadlineAfter(lastNow, policy.windowMs), lastNow;
      state := Available;
      r := Ok;
    }

    /** Someone at the device opens a pairing window: a fresh code goes on display. */
    method LocalOpen(id: U64) returns (r: Result)
      requires Valid()
      modifies this, code, world
      ensures Valid()
      ensures id == 0 ==> r == InvalidArgument && Snapshot() == old(Snapshot())
      ensures id != 0 ==> OpenOutcome(old(Snapshot()), Snapshot(), r, id, lastNow, policy)
      ensures r == Ok ==> openedAt == lastNow
      ensures world.durable == old(world.durable)
      ensures id != 0 ==> Blames(world.heard, old(clockKnown), old(lastNow), r)
      ensures old(world.drawn) <= world.drawn
        && OpenAnswers(world.heard, world.drawn[|old(world.drawn)|..], code[..], r)
    {
      hide Replay, EventsOk, DecodeRecord, Agreeable, Digits, TooManyRejected, Blames, Opening, ClockRefused,
           ViewOk, Synced, DisplayRefused, PresenceRefused, OpenAnswers, Aged, Broken, Expired, Closed, Settled, IsDigits, IsZeros,
           PolicyIsSafe;
      Listen();
      NoOpening(world.heard);
      if id == 0 { return InvalidArgument; }
      r := Refresh();
      AgedFacts(old(Snapshot()), lastNow, policy);
      NoOpening(world.heard);
      if r != Ok { return; }
      NobodyBlamed(world.heard, old(clockKnown), old(lastNow));
      if state.Fault? { return Faulted; }
      if state.Locked? { return LockedOut; }
      if !state.Inactive? { return InvalidState; }
      r := OpenWindow(id, old(clockKnown), old(lastNow));
    }
  
    /** The attempt is made durable, then the code is handed over, then it is wiped. */
    method Start(id: U64, ghost known: bool, ghost last: U64) returns (r: Result)
      requires Valid() && state.Available? && id != 0
      requires Agreeable(world.heard, known, last, false)
      modifies this`state, this`attempts, this`windowEnd, this`stepEnd, this`idleEnd, this`absoluteEnd, this`connection,
               this`handshake, this`visible, code, world
      ensures Valid()
      ensures r == Ok || r == StartFailed || r == PersistenceError || r == DisplayFailed
      ensures r == Ok ==> Snapshot() == Starting(old(Snapshot()), id, lastNow, policy)
      ensures r == Ok ==> world.events == old(world.events) + [Released(old(code[..])), Cleared]
      ensures r == StartFailed ==> Snapshot() == NotStarted(Starting(old(Snapshot()), id, lastNow, policy), policy)
      ensures r == PersistenceError ==> Snapshot() == Broken(old(Snapshot()))
      ensures r == DisplayFailed ==> Snapshot() == Broken(Starting(old(Snapshot()), id, lastNow, policy))
      ensures Blames(world.heard, known, last, r)
      ensures r == Ok ==> {StoreSaid(true), ConsumerSaid(true), ClearSaid(true)} <= world.heard
      ensures r == StartFailed ==> StoreSaid(true) in world.heard
    {
      hide Replay, EventsOk, DecodeRecord, EncodeRecord, ClockRefused, Agreeable, Blames;
      ghost var heard0 := world.heard;
      var stored := world.Store(LockRecord(RECORD_VERSION, attempts + 1));
      if !stored {
        EnterFault();
        StoreBlames(heard0, world.heard, known, last);
        return PersistenceError;
      }
      StoreBlames(heard0, {}, known, last);
      r := HandOver(id, known, last);
    }

    method HandOver(id: U64, ghost known: bool, ghost last: U64) returns (r: Result)
      requires Synced() && state.Available? && visible && clockKnown && id != 0 && connection != 0 && openedAt <= lastNow
      requires attempts < policy.maxAttempts && handshake == 0 && windowEnd == DeadlineAfter(openedAt, policy.windowMs)
      requires world.powered && Used(world.durable) == attempts + 1
      requires Replay(world.events).inPlay == Some(code[..]) && Replay(world.events).sinceZero <= attempts
      requires Agreeable(world.heard, known, last, true)
      modifies this`state, this`attempts, this`windowEnd, this`stepEnd, this`idleEnd, this`absoluteEnd, this`connection,
               this`handshake, this`visible, code, world`powered, world`heard, world`faults, world`events
      ensures Valid()
      ensures r == Ok || r == StartFailed || r == DisplayFailed
      ensures r == Ok ==> Snapshot() == Starting(old(Snapshot()), id, lastNow, policy)
      ensures r == Ok ==> world.events == old(world.events) + [Released(old(code[..])), Cleared]
      ensures r == StartFailed ==> Snapshot() == NotStarted(Starting(old(Snapshot()), id, lastNow, policy), policy)
      ensures r == DisplayFailed ==> Snapshot() == Broken(Starting(old(Snapshot()), id, lastNow, policy))
      ensures Blames(world.heard, known, last, r) && old(world.heard) <= world.heard
      ensures r == Ok ==> {ConsumerSaid(true), ClearSaid(true)} <= world.heard
    {
      hide Replay, EventsOk, ClockRefused, Agreeable, Blames;
      ghost var heard0 := world.heard;
      attempts, handshake := attempts + 1, id;
      stepEnd := Earlier(DeadlineAfter(lastNow, policy.stepMs), windowEnd);
      state := Handshake;
      var consumed := world.Release(code[..]);
      r := FinishStart(consumed);
      HandOverBlames(heard0, known, last, consumed, r != DisplayFailed);
      assert world.heard == heard0 + {ConsumerSaid(consumed), ClearSaid(r != DisplayFailed)};
    }

    /** The code is wiped before the consumer's answer is looked at. */
    method FinishStart(consumed: bool) returns (r: Result)
      requires Synced() && visible && clockKnown && ViewOk(Snapshot(), policy, openedAt, activeSince) && openedAt <= lastNow
      requires state.Handshake? && (world.powered ==> Used(world.durable) == attempts)
      modifies this`state, this`windowEnd, this`stepEnd, this`idleEnd, this`absoluteEnd, this`connection,
               this`handshake, this`visible, code, world`powered, world`heard, world`faults, world`events
      ensures Valid()
      ensures r == if !visible && consumed then Ok else if !visible then StartFailed else DisplayFailed
      ensures world.heard == old(world.heard) + {ClearSaid(r != DisplayFailed)}
      ensures r == Ok ==> Snapshot() == old(Snapshot()) && world.events == old(world.events) + [Cleared]
      ensures r == StartFailed ==> Snapshot() == NotStarted(old(Snapshot()), policy)
      ensures r == DisplayFailed ==> Snapshot() == Broken(old(Snapshot()))
    {
      hide Replay, EventsOk;
      var cleared := ClearCode();
      if !cleared { r := FaultAfterClearFailure(); return; }
      if !consumed {
        RevokeConnection();
        Settle();
        return StartFailed;
      }
      r := Ok;
    }

    /** A remote peer starts a handshake on the open connection. */
    method Begin(peer: U64, id: U64) returns (r: Result)
      requires Valid()
      modifies this, code, world
      ensures Valid()
      ensures peer == 0 || id == 0 ==> r == InvalidArgument && Snapshot() == old(Snapshot())
      ensures peer != 0 && id != 0 ==> BeginOutcome(old(Snapshot()), Snapshot(), r, peer, id, lastNow, policy)
      ensures r == Ok ==> world.events == old(world.events) + [Released(old(code[..])), Cleared]
      ensures peer != 0 && id != 0 ==> Blames(world.heard, old(clockKnown), old(lastNow), r)
      ensures r == Ok ==> {StoreSaid(true), ConsumerSaid(true), ClearSaid(true)} <= world.heard
    {
      hide Replay, EventsOk, DecodeRecord, EncodeRecord, Agreeable, Blames, ClockRefused, DisplayRefused,
           PresenceRefused, OnlyAged, Starting, NotStarted, Broken, Synced;
      Listen();
      if peer == 0 || id == 0 { return InvalidArgument; }
      r := Refresh();
      if r != Ok { return; }
      NobodyBlamed(world.heard, old(clockKnown), old(lastNow));
      if InHandshake(state) || state.Active? { return Busy; }
      if !state.Available? { return if state.Locked? then LockedOut else InvalidState; }
      if connection != peer { return InvalidSession; }
      r := Start(id, old(clockKnown), old(lastNow));
    }

    method HandshakeProgress(peer: U64, id: U64) returns (r: Result)
      requires Valid()
      modifies this, code, world`powered, world`heard, world`faults, world`events
      ensures Valid() && OnlyAged(world.heard) && Blames(world.heard, old(clockKnown), old(lastNow), r)
      ensures Valid() && r != PersistenceError
      ensures var v := Aged(old(Snapshot()), lastNow, policy);
        StepOutcome(v, old(Snapshot()), Snapshot(), r, Handshake, peer, id, Progressed(v, lastNow, policy))
    {
      hide Replay, EventsOk;
      Listen();
      r := Refresh();
      if r != Ok { return; }
      if !state.Handshake? { return InvalidState; }
      if connection != peer || handshake != id { return InvalidSession; }
      stepEnd := Earlier(DeadlineAfter(lastNow, policy.stepMs), windowEnd);
    }

    method ClientFinishedVerified(peer: U64, id: U64) returns (r: Result)
      requires Valid()
      modifies this, code, world`powered, world`heard, world`faults, world`events
      ensures Valid() && OnlyAged(world.heard) && Blames(world.heard, old(clockKnown), old(lastNow), r)
      ensures Valid() && r != PersistenceError
      ensures var v := Aged(old(Snapshot()), lastNow, policy);
        StepOutcome(v, old(Snapshot()), Snapshot(), r, Handshake, peer, id,
                    Progressed(v, lastNow, policy).(state := WaitFinishedSent))
    {
      hide Replay, EventsOk;
      r := HandshakeProgress(peer, id);
      if r != Ok { return; }
      state := WaitFinishedSent;
    }

    /** The session becomes active, and the spent attempts are forgiven. */
    method DeviceFinishedSent(peer: U64, id: U64) returns (r: Result)
      requires Valid()
      modifies this, code, world
      ensures Valid()
      ensures var v := Aged(old(Snapshot()), lastNow, policy);
        StepOutcome(v, old(Snapshot()), Snapshot(), r, WaitFinishedSent, peer, id, Activated(v, lastNow, policy))
      ensures r == Ok ==> activeSince == lastNow && Used(world.durable) == 0
      ensures Blames(world.heard, old(clockKnown), old(lastNow), r) && (r == Ok ==> StoreSaid(true) in world.heard)
    {
      hide Replay, EventsOk, DecodeRecord, EncodeRecord, ClockRefused, Agreeable;
      Listen();
      r := Refresh();
      if r != Ok { return; }
      if !state.WaitFinishedSent? { return InvalidState; }
      if connection != peer || handshake != id { return InvalidSession; }
      NobodyBlamed(world.heard, old(clockKnown), old(lastNow));
      r := Activate(old(clockKnown), old(lastNow));
    }

    method ZeroRecord() returns (stored: bool)
      requires Synced()
      modifies world
      ensures Synced() && (world.powered ==> old(world.powered))
      ensures stored ==> Used(world.durable) == 0
      ensures world.heard == old(world.heard) + {StoreSaid(stored)}
    {
      hide Replay, EventsOk, DecodeRecord, EncodeRecord;
      stored := world.Store(LockRecord(RECORD_VERSION, 0));
    }

    method Activate(ghost known: bool, ghost last: U64) returns (r: Result)
      requires Valid() && state.WaitFinishedSent?
      requires Agreeable(world.heard, known, last, false)
      modifies this`state, this`attempts, this`windowEnd, this`stepEnd, this`idleEnd, this`absoluteEnd, this`connection,
               this`handshake, this`visible, this`activeSince, code, world
      ensures Valid() && (r == Ok || r == PersistenceError)
      ensures Snapshot() == if r == Ok then Activated(old(Snapshot()), lastNow, policy) else Broken(old(Snapshot()))
      ensures r == Ok ==> activeSince == lastNow && Used(world.durable) == 0
      ensures Blames(world.heard, known, last, r) && (r == Ok ==> StoreSaid(true) in world.heard)
    {
      hide Replay, EventsOk, DecodeRecord, EncodeRecord, Used, ClockRefused, Agreeable, Blames;
      ghost var heard0 := world.heard;
      var stored := ZeroRecord();
      if !stored {
        EnterFault();
        StoreBlames(heard0, world.heard, known, last);
        return PersistenceError;
      }
      StoreBlames(heard0, {}, known, last);
      attempts, activeSince := 0, lastNow;
      idleEnd, absoluteEnd := DeadlineAfter(lastNow, policy.idleMs), DeadlineAfter(lastNow, policy.absoluteMs);
      state := Active;
      r := Ok;
    }

    /** Keeps an active session from going idle; its absolute end stays where it was. */
    method AuthenticatedActivity(peer: U64) returns (r: Result)
      requires Valid()
      modifies this, code, world`powered, world`heard, world`faults, world`events
      ensures Valid() && OnlyAged(world.heard) && Blames(world.heard, old(clockKnown), old(lastNow), r)
      ensures Valid() && r != PersistenceError && activeSince == old(activeSince)
      ensures var v := Aged(old(Snapshot()), lastNow, policy);
        StepOutcome(v, old(Snapshot()), Snapshot(), r, Active, peer, v.handshake, Renewed(v, lastNow, policy))
    {
      hide Replay, EventsOk;
      Listen();
      r := Refresh();
      if r != Ok { return; }
      if !state.Active? { return InvalidState; }
      if connection != peer { return InvalidSession; }
      idleEnd := Earlier(DeadlineAfter(lastNow, policy.idleMs), absoluteEnd);
    }

    /** Ends whatever is going on, as an expired deadline would. */
    method Close() returns (r: Result)
      requires Valid() && Live(state)
      modifies this, code, world`powered, world`heard, world`faults, world`events
      ensures Valid() && (r == Ok || r == DisplayFailed)
      ensures Snapshot() == if r == Ok then Closed(old(Snapshot()), policy) else Broken(old(Snapshot()))
      ensures lastNow == old(lastNow)
      ensures old(world.heard) <= world.heard <= old(world.heard) + {ClearSaid(r == Ok)}
      ensures r == DisplayFailed ==> ClearSaid(false) in world.heard
    {
      hide Replay, EventsOk;
      r := Ok;
      var cleared := ClearTransient();
      if !cleared { r := FaultAfterClearFailure(); return; }
      Settle();
    }

    method ProtocolFailed(peer: U64, id: U64) returns (r: Result)
      requires Valid()
      modifies this, code, world`powered, world`heard, world`faults, world`events
      ensures Valid() && OnlyAged(world.heard) && Blames(world.heard, old(clockKnown), old(lastNow), r)
      ensures var v := Aged(old(Snapshot()), lastNow, policy);
        var mine := InHandshake(v.state) && v.connection == peer && v.handshake == id;
        match r
        case Ok => mine && Snapshot() == Closed(v, policy)
        case InvalidSession => !mine && Snapshot() == v
        case ClockFailed => !old(state).Fault? && Snapshot() == Broken(old(Snapshot()))
        case DisplayFailed => Live(old(state)) && Snapshot() == Broken(old(Snapshot()))
        case _ => false
    {
      hide Replay, EventsOk, ViewOk, Synced, ClockRefused, Blames, OnlyAged;
      Listen();
      r := Refresh();
      if r != Ok { return; }
      NobodyBlamed(world.heard, old(clockKnown), old(lastNow));
      if !InHandshake(state) || connection != peer || handshake != id { return InvalidSession; }
      ghost var heard0 := world.heard;
      r := Close();
      CloseBlames(heard0, world.heard, old(clockKnown), old(lastNow), r);
    }

    method Disconnect(peer: U64) returns (r: Result)
      requires Valid()
      modifies this, code, world`powered, world`heard, world`faults, world`events
      ensures Valid() && OnlyAged(world.heard) && Blames(world.heard, old(clockKnown), old(lastNow), r)
      ensures var v := Aged(old(Snapshot()), lastNow, policy);
        match r
        case Ok => Live(v.state) && v.connection == peer && Snapshot() == Closed(v, policy)
        case InvalidSession => (v.connection == 0 || v.connection != peer) && Snapshot() == v
        case ClockFailed => !old(state).Fault? && Snapshot() == Broken(old(Snapshot()))
        case DisplayFailed => Live(old(state)) && Snapshot() == Broken(old(Snapshot()))
        case _ => false
    {
      hide Replay, EventsOk, Synced, ClockRefused, Blames, OnlyAged;
      Listen();
      r := Refresh();
      if r != Ok { return; }
      NobodyBlamed(world.heard, old(clockKnown), old(lastNow));
      if connection == 0 || connection != peer { return InvalidSession; }
      ghost var heard0 := world.heard;
      r := Close();
      CloseBlames(heard0, world.heard, old(clockKnown), old(lastNow), r);
    }

    /** The only way out of Fault: someone at the device asks for it and every port obeys. */
    method LocalReset() returns (r: Result)
      requires Valid()
      modifies this, code, world
      ensures Valid() && lastNow == old(lastNow)
      ensures Blames(world.heard, old(clockKnown), old(lastNow), r)
      ensures r != PresenceRequired <==> PresenceSaid(ResetPairing, true) in world.heard
      ensures r == Ok ==> StoreSaid(true) in world.heard
      ensures match r
        case Ok => Snapshot() == View(Inactive, 0, 0, 0, 0, 0, 0, 0) && Used(world.durable) == 0
        case PresenceRequired => Snapshot() == old(Snapshot()) && world.durable == old(world.durable)
        case DisplayFailed => Snapshot() == Broken(old(Snapshot())) && world.durable == old(world.durable)
        case PersistenceError => Snapshot() == Broken(old(Snapshot()))
        case _ => false
    {
      hide Replay, EventsOk, DecodeRecord, EncodeRecord, Used, Blames, ClockRefused, DisplayRefused, PresenceRefused;
      Listen();
      ghost var lit := visible;
      var present := world.Presence(ResetPairing);
      assert world.heard == {PresenceSaid(ResetPairing, present)};
      if !present {
        ResetBlames(old(clockKnown), old(lastNow), false, lit, true, true);
        return PresenceRequired;
      }
      var cleared := ClearTransient();
      if !cleared {
        ResetBlames(old(clockKnown), old(lastNow), true, lit, false, true);
        r := FaultAfterClearFailure();
        return;
      }
      r := Forgive();
      ResetBlames(old(clockKnown), old(lastNow), true, lit, true, r == Ok);
    }

    /** The spent attempts are forgiven, and a fault with them. */
    method Forgive() returns (r: Result)
      requires Synced() && IsZeros(code[..]) && !visible && (clockKnown || lastNow == 0)
      requires connection == handshake == windowEnd == stepEnd == idleEnd == absoluteEnd == 0
      modifies this`attempts, this`state, world
      ensures Valid() && (r == Ok || r == PersistenceError)
      ensures Snapshot() == if r == Ok then View(Inactive, 0, 0, 0, 0, 0, 0, 0) else Broken(old(Snapshot()))
      ensures r == Ok ==> Used(world.durable) == 0
      ensures world.heard == old(world.heard) + {StoreSaid(r == Ok)}
    {
      hide Replay, EventsOk, DecodeRecord, EncodeRecord, Used;
      var stored := ZeroRecord();
      if !stored {
        state := Fault;
        return PersistenceError;
      }
      attempts, state := 0, Inactive;
      r := Ok;
    }

    method Tick() returns (r: Result)
      requires Valid()
      modifies this, code, world`powered, world`heard, world`faults, world`events
      ensures Valid() && OnlyAged(world.heard) && Blames(world.heard, old(clockKnown), old(lastNow), r)
      ensures Snapshot() == if r == Ok then Aged(old(Snapshot()), lastNow, policy) else Broken(old(Snapshot()))
      ensures r != Ok ==> !old(state).Fault? && (r == ClockFailed || Expired(old(Snapshot()), lastNow))
    {
      hide Replay, EventsOk, ViewOk, Synced, ClockRefused;
      Listen();
      r := Refresh();
    }

    /** What is left of the attempts and of the current deadline. */
    method GetStatus() returns (r: Result, attemptsLeft: nat, remainingMs: U64)
      requires Valid()
      modifies this, code, world`powered, world`heard, world`faults, world`events
      ensures Valid() && OnlyAged(world.heard) && Blames(world.heard, old(clockKnown), old(lastNow), r)
      ensures Snapshot() == if r == Ok then Aged(old(Snapshot()), lastNow, policy) else Broken(old(Snapshot()))
      ensures r != Ok ==> !old(state).Fault? && attemptsLeft == remainingMs == 0
      ensures r == Ok && !state.Fault? ==> attemptsLeft + attempts == policy.maxAttempts
      ensures r == Ok && state.Locked? ==> attemptsLeft == 0
      ensures r == Ok && (state.Inactive? || state.Available?) ==> attemptsLeft > 0
      ensures r == Ok ==> (remainingMs > 0 <==> Live(state)) && lastNow + remainingMs <= U64_MAX
      ensures r == Ok && remainingMs > 0 ==> Expired(Snapshot(), lastNow + remainingMs)
      ensures r == Ok && remainingMs > 0 ==> !Expired(Snapshot(), lastNow + remainingMs - 1)
    {
      hide Replay, EventsOk, Synced, ClockRefused;
      Listen();
      attemptsLeft, remainingMs := 0, 0;
      r := Refresh();
      if r != Ok { return; }
      var deadline: U64 := 0;
      if state.Available? {
        deadline := windowEnd;
      } else if InHandshake(state) {
        deadline := Earlier(windowEnd, stepEnd);
      } else if state.Active? {
        deadline := Earlier(idleEnd, absoluteEnd);
      }
      attemptsLeft := if attempts >= policy.maxAttempts then 0 else policy.maxAttempts - attempts;
      remainingMs := if deadline > lastNow then deadline - lastNow else 0;
    }

    method Destroy()
      requires Valid()
      modifies this, code, world`powered, world`heard, world`faults, world`events
      ensures world.Safe() && (world.powered ==> old(world.powered) && Replay(world.events).connection == 0)
    {
      hide Replay, EventsOk;
      var cleared := ClearTransient();
    }
  }

  /** Any call a caller may make, with any arguments and any answers from the ports. */
  method AnyCall(l: Lifecycle)
    requires l.Valid()
    modifies l, l.code, l.world
    ensures l.Valid()
    ensures old(l.state).Fault? ==> l.state.Fault? || l.state.Inactive?
  {
    hide Replay, EventsOk, ViewOk;
    var peer: U64 := *;
    var id: U64 := *;
    var choice: nat := *;
    var r: Result;
    match choice
    case 0 => r := l.LocalOpen(peer);
    case 1 => r := l.Begin(peer, id);
    case 2 => r := l.HandshakeProgress(peer, id);
    case 3 => r := l.ClientFinishedVerified(peer, id);
    case 4 => r := l.DeviceFinishedSent(peer, id);
    case 5 => r := l.AuthenticatedActivity(peer);
    case 6 => r := l.ProtocolFailed(peer, id);
    case 7 => r := l.Disconnect(peer);
    case 8 => r := l.LocalReset();
    case 9 =>
      var attemptsLeft, remainingMs;
      r, attemptsLeft, remainingMs := l.GetStatus();
    case _ => r := l.Tick();
  }

  /**
   * Any run: `calls[k]` calls after the k-th boot, power cuts at any port call, and any number of restarts from the durable
   * record, with or without an orderly destruction. What the outside world saw stays within the rules
   * throughout, so between two requests to zero the record no more codes are released than the policy allows.
   */
  method AnyRun(p: Policy, w: World, calls: seq<nat>)
    requires w.Safe() && PolicyIsSafe(p) && p.maxAttempts == w.limit
    modifies w
    ensures w.Safe() && EventsOk(w.events, p.maxAttempts)
    ensures forall i, j :: 0 <= i <= j <= |w.events| && NoZeroRequest(w.events, i, j) ==>
      Count(w.events[i..j]) <= p.maxAttempts
  {
    hide Replay, EventsOk, ViewOk, Used;
    for boot := 0 to |calls|
      invariant w.Safe()
      modifies w
    {
      w.Restart();
      var l := new Lifecycle(p, w);
      for call := 0 to calls[boot]
        invariant l.Valid() && l.world == w && fresh(l) && fresh(l.code)
        modifies l, l.code, w
      {
        AnyCall(l);
      }
      if * { l.Destroy(); }
    }
    forall i, j | 0 <= i <= j <= |w.events| && NoZeroRequest(w.events, i, j)
      ensures Count(w.events[i..j]) <= p.maxAttempts
    {
      AttemptBound(w.events, p.maxAttempts, i, j);
    }
  }

  /** The state after activity at each of these times, oldest last. */
  function AfterActivity(v: View, times: seq<U64>, p: Policy): View {
    if times == [] then v
    else
      var aged := Aged(AfterActivity(v, times[1..], p), times[0], p);
      if aged.state.Active? then Renewed(aged, times[0], p) else aged
  }

  /** Real-time bounds: no window outlives two minutes, no step fifteen seconds, no session half an hour. */
  lemma PolicyBounds(v: View, p: Policy, openedAt: U64, activeSince: U64, now: U64)
    requires PolicyIsSafe(p) && ViewOk(v, p, openedAt, activeSince) && !Expired(v, now)
    ensures v.state.Available? || InHandshake(v.state) ==> now as int < openedAt as int + 120000
    ensures v.state.Active? ==> now as int < activeSince as int + 1800000
  {
  }

  /** However busy a session is, its absolute end stays where it was fixed when it became active. */
  lemma {:induction false} ActivityNeverExtends(v: View, times: seq<U64>, p: Policy, now: U64)
    requires v.state.Active? && v.idleEnd <= v.absoluteEnd
    ensures var after := AfterActivity(v, times, p);
      after.state.Active? ==>
        && after.idleEnd <= after.absoluteEnd == v.absoluteEnd
        && (!Expired(after, now) ==> now < v.absoluteEnd)
  {
    if times != [] { ActivityNeverExtends(v, times[1..], p, now); }
  }

  /** Why nothing is promised about deadlines in Inactive: a refused start keeps the old ones. */
  lemma RefusedStartKeepsDeadlines(v: View, id: U64, now: U64, p: Policy)
    requires v.state.Available? && v.attempts + 1 < p.maxAttempts && now < v.windowEnd && PolicyIsSafe(p)
    ensures var after := NotStarted(Starting(v, id, now, p), p);
      after.state.Inactive? && after.windowEnd == v.windowEnd > 0 && after.stepEnd > 0
  {
  }
}
