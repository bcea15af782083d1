/**
 * What the management service's calls achieve when nobody interferes: from any
 * reachable state, a thread that runs its call alone gets the answer the call
 * is for. Safety under interference is proved in `ManagementOperation`.
 */
module ManagementProgress {
  import opened Common
  import opened ManagementOperation

  /** Thread `t` takes the next `n` steps. */
  function Alone(s: System, t: nat, n: nat): (s': System)
    requires s.log != []
    ensures s'.log != []
  {
    if n == 0 then s else Step(Alone(s, t, n - 1), t, Run)
  }

  lemma {:induction false} AloneMore(s: System, t: nat, m: nat, n: nat)
    requires s.log != []
    ensures Alone(s, t, m + n) == Alone(Alone(s, t, m), t, n)
  {
    hide Step;
    if n > 0 {
      AloneMore(s, t, m, n - 1);
      assert m + (n - 1) == m + n - 1;
    }
  }

  /** Thread `t` gets from one state to the other by itself. */
  ghost predicate Reaches(s: System, t: nat, s': System)
    requires s.log != []
  {
    exists n :: Alone(s, t, n) == s'
  }

  lemma ReachStep(s: System, t: nat)
    requires s.log != []
    ensures Reaches(s, t, Step(s, t, Run))
  {
    hide Step;
    assert Alone(s, t, 0) == s;
    assert Alone(s, t, 1) == Step(s, t, Run);
  }

  lemma ReachFour(s: System, t: nat)
    requires s.log != []
    ensures Reaches(s, t, Alone(s, t, 4))
  {
    hide Alone;
  }

  lemma ReachOn(s: System, t: nat, s1: System, s2: System)
    requires s.log != [] && s1.log != [] && Reaches(s, t, s1) && Reaches(s1, t, s2)
    ensures Reaches(s, t, s2)
  {
    hide Alone;
    var m :| Alone(s, t, m) == s1;
    var n :| Alone(s1, t, n) == s2;
    AloneMore(s, t, m, n);
  }

  /** Only the thread and what is named changes when a thread moves twice. */
  lemma MoveTwice(s: System, t: nat, a: Thread, b: Thread)
    ensures Move(Move(s, t, a), t, b) == Move(s, t, b)
  {
    assert s.threads[t := a][t := b] == s.threads[t := b];
  }

  /** A state of some run in which nobody holds a right to change the operation. */
  predicate Quiet(s: System) { s.log != [] && GlobalOk(s) && s.owner.None? && s.completer.None? }

  lemma QuietFacts(s: System)
    requires Quiet(s)
    ensures s.mem.sequence % 2 == 0 && Held(s.mem) == Latest(s) && s.rejecting.None? && !s.mem.completing
    ensures s.mem.reserved <==> Latest(s).state == Pending
    ensures Latest(s).state == Pending ==> Latest(s) == Op(Latest(s).id, Pending, 0)
    ensures CounterOk(s.mem.nextId, Admitted(s.log))
  {
    hide LogOk, IdsOk, SeenOk, Admitted, IdAt, CounterOk;
    LatestFacts(s);
  }

  /** The operation in memory. */
  function Held(m: Shared): Op { Op(m.id, m.state, m.result) }

  // ---- the two inner loops -------------------------------------------------

  /** A reading attempt while nobody writes: four steps, and the copy is what memory holds. */
  lemma LoneAttempt(s: System, t: nat)
    requires s.log != [] && t in s.threads && s.threads[t].Read? && s.threads[t].step == 0 && s.mem.sequence % 2 == 0
    ensures var th := s.threads[t];
      Alone(s, t, 4) == Move(s, t, Read(th.purpose, th.attempt, 4, s.mem.sequence, Held(s.mem)))
  {
    var th := s.threads[t];
    var s1 := Move(s, t, Read(th.purpose, th.attempt, 1, s.mem.sequence, NO_OP));
    var s2 := Move(s, t, Read(th.purpose, th.attempt, 2, s.mem.sequence, NO_OP.(id := s.mem.id)));
    var s3 := Move(s, t, Read(th.purpose, th.attempt, 3, s.mem.sequence, NO_OP.(id := s.mem.id, state := s.mem.state)));
    var s4 := Move(s, t, Read(th.purpose, th.attempt, 4, s.mem.sequence, Held(s.mem)));
    assert Step(s, t, Run) == s1 && Step(s1, t, Run).threads == s2.threads && Step(s2, t, Run).threads == s3.threads;
    assert Step(s3, t, Run).threads == s4.threads;
    FourSteps(s, t, s1, s2, s3, s4);
  }

  lemma FourSteps(s: System, t: nat, s1: System, s2: System, s3: System, s4: System)
    requires s.log != [] && s1.log != [] && s2.log != [] && s3.log != []
    requires Step(s, t, Run) == s1 && Step(s1, t, Run) == s2 && Step(s2, t, Run) == s3 && Step(s3, t, Run) == s4
    ensures Alone(s, t, 4) == s4
  {
    hide Step;
    assert Alone(s, t, 0) == s && Alone(s, t, 1) == s1 && Alone(s, t, 2) == s2 && Alone(s, t, 3) == s3;
  }

  /** Writing an operation: the sequence goes odd, three fields, and it is ready to be published. */
  lemma LoneWrite(s: System, t: nat)
    requires s.log != [] && t in s.threads && s.threads[t].Store? && s.threads[t].phase == 0
    ensures var th := s.threads[t];
      Alone(s, t, 4) == At(s, t, th.(phase := 4), s.mem.(sequence := s.mem.sequence + 1, id := th.op.id,
                                                         state := th.op.state, result := th.op.result))
  {
    var op, after := s.threads[t].op, s.threads[t].after;
    var m1 := s.mem.(sequence := s.mem.sequence + 1);
    var m2 := m1.(id := op.id);
    var m3 := m2.(result := op.result);
    var m4 := m3.(state := op.state);
    var s1, s2 := At(s, t, Store(op, 1, after), m1), At(s, t, Store(op, 2, after), m2);
    var s3, s4 := At(s, t, Store(op, 3, after), m3), At(s, t, Store(op, 4, after), m4);
    StoreStep(s, s, t, op, 0, after, m1);
    StoreStep(s, s1, t, op, 1, after, m2);
    StoreStep(s, s2, t, op, 2, after, m3);
    StoreStep(s, s3, t, op, 3, after, m4);
    hide Step, At;
    FourSteps(s, t, s1, s2, s3, s4);
  }

  function At(s: System, t: nat, th: Thread, m: Shared): System { Move(s, t, th).(mem := m) }

  lemma StoreStep(s0: System, s: System, t: nat, op: Op, phase: nat, after: After, m: Shared)
    requires s0.log != [] && t in s0.threads && phase < 4
    requires s == if phase == 0 then s0 else At(s0, t, Store(op, phase, after), s.mem)
    requires s.threads[t] == Store(op, phase, after)
    requires m == match phase
                  case 0 => s.mem.(sequence := s.mem.sequence + 1)
                  case 1 => s.mem.(id := op.id)
                  case 2 => s.mem.(result := op.result)
                  case _ => s.mem.(state := op.state)
    ensures Step(s, t, Run) == At(s0, t, Store(op, phase + 1, after), m)
  {
    var next := Store(op, phase + 1, after);
    assert Step(s, t, Run) == At(s, t, next, m);
    assert s.threads[t := next] == s0.threads[t := next];
  }

  // ---- publishing and deciding ------------------------------------------------

  /** The state after thread `t` published an operation: as before, with the log one longer. */
  function Published(s: System, t: nat, op: Op, th: Thread): System {
    Move(s, t, th).(mem := s.mem.(sequence := s.mem.sequence + 2, id := op.id, state := op.state, result := op.result),
                    log := s.log + [op])
  }

  lemma LonePublish(s: System, t: nat)
    requires s.log != [] && t in s.threads && s.threads[t].Store? && s.threads[t].phase == 0
    ensures var th := s.threads[t]; var op := th.op;
      Reaches(s, t, match th.after
        case AfterPending => Published(s, t, op, Submitting(op.id, |s.log|)).(owner := None)
        case AfterReject => Published(s, t, op, Unreserve)
        case AfterComplete => Published(s, t, op, ReleaseCompleting(true)))
  {
    hide Alone, Reaches;
    var s1 := Alone(s, t, 4);
    LoneWrite(s, t);
    ReachFour(s, t);
    ReachStep(s1, t);
    ReachOn(s, t, s1, Step(s1, t, Run));
    PublishStep(s, s1, t);
  }

  lemma PublishStep(s: System, s1: System, t: nat)
    requires s.log != [] && t in s.threads && s.threads[t].Store?
    requires s1 == At(s, t, s.threads[t].(phase := 4), s.mem.(sequence := s.mem.sequence + 1, id := s.threads[t].op.id,
                                                             state := s.threads[t].op.state, result := s.threads[t].op.result))
    ensures var th := s.threads[t]; var op := th.op;
      Step(s1, t, Run) == match th.after
        case AfterPending => Published(s, t, op, Submitting(op.id, |s.log|)).(owner := None)
        case AfterReject => Published(s, t, op, Unreserve)
        case AfterComplete => Published(s, t, op, ReleaseCompleting(true))
  {
    var th := s.threads[t];
    var next := match th.after
      case AfterPending => Submitting(th.op.id, |s.log|)
      case AfterReject => Unreserve
      case AfterComplete => ReleaseCompleting(true);
    assert s.threads[t := th.(phase := 4)][t := next] == s.threads[t := next];
  }

  lemma LoneRead(s: System, t: nat)
    requires s.log != [] && t in s.threads && s.threads[t].Read? && s.threads[t].step == 0 && s.mem.sequence % 2 == 0
    ensures var th := s.threads[t];
      Reaches(s, t, FinishRead(s, t, Read(th.purpose, th.attempt, 4, s.mem.sequence, Held(s.mem))))
  {
    hide Alone, Reaches;
    var th := s.threads[t];
    var s1, full := Alone(s, t, 4), Read(th.purpose, th.attempt, 4, s.mem.sequence, Held(s.mem));
    LoneAttempt(s, t);
    ReachFour(s, t);
    ReachStep(s1, t);
    ReachOn(s, t, s1, Step(s1, t, Run));
    assert Step(s1, t, Run) == FinishRead(s1, t, full);
    FinishFrom(s, s1, t, full);
  }

  lemma FinishFrom(s: System, s1: System, t: nat, th: Thread)
    requires s.log != [] && th.Read? && s1 == Move(s, t, th)
    ensures FinishRead(s1, t, th) == FinishRead(s, t, th)
  {
    forall b ensures Move(s1, t, b) == Move(s, t, b) { MoveTwice(s, t, th, b); }
  }

  // ---- the calls, undisturbed ------------------------------------------------------

  /** The pending operation this completion is for. */
  predicate IsFor(op: Op, id: U32) { op == Op(id, Pending, 0) }

  function OutcomeOp(id: U32, result: nat): Op { Op(id, if result == 0 then Succeeded else Failed, result) }

  /** Both flags down again and the outcome published. */
  function Completed(s: System, t: nat, op: Op): System {
    var p := Published(s, t, op, Idle);
    p.(mem := p.mem.(reserved := false))
  }

  /** The completer has decided: to publish the outcome, or that there is nothing to do. */
  function Decided(s: System, t: nat, id: U32, result: nat): System
    requires s.log != []
  {
    var holding := s.(mem := s.mem.(completing := true), completer := Some(t));
    if IsFor(Latest(s), id) then Move(holding, t, Store(OutcomeOp(id, result), 0, AfterComplete)).(owner := Some(t))
    else Move(holding, t, ReleaseCompleting(false))
  }

  /** The completion's way to its decision. */
  lemma LoneDecision(s: System, t: nat, id: U32, result: nat)
    requires Quiet(s) && t in s.threads && s.mem.reserved
    ensures Reaches(Move(s, t, CheckReserved(id, result)), t, Decided(s, t, id, result))
  {
    QuietFacts(s);
    hide Reaches, GlobalOk;
    var reading := Read(ForCompleter(id, result), 0, 0, 0, NO_OP);
    var s0, s1 := Move(s, t, CheckReserved(id, result)), Move(s, t, TryComplete(id, result));
    var s2 := Move(s, t, reading).(mem := s.mem.(completing := true), completer := Some(t));
    MoveTwice(s, t, CheckReserved(id, result), TryComplete(id, result));
    MoveTwice(s, t, TryComplete(id, result), reading);
    assert Step(s0, t, Run) == s1 && Step(s1, t, Run) == s2;
    var s3 := FinishRead(s2, t, Read(ForCompleter(id, result), 0, 4, s.mem.sequence, Held(s.mem)));
    MoveTwice(s, t, reading, Store(OutcomeOp(id, result), 0, AfterComplete));
    MoveTwice(s, t, reading, ReleaseCompleting(false));
    assert s3 == Decided(s, t, id, result);
    ReachStep(s0, t);
    ReachStep(s1, t);
    LoneRead(s2, t);
    hide Step, FinishRead, Decided;
    ReachOn(s0, t, s1, s2);
    ReachOn(s0, t, s2, s3);
  }

  lemma BacksOut(s: System, t: nat, id: U32, result: nat)
    requires Quiet(s) && t in s.threads && s.threads[t].Idle? && !IsFor(Latest(s), id)
    ensures Reaches(Decided(s, t, id, result), t, s)
  {
    QuietFacts(s);
    hide Reaches, GlobalOk;
    ReachStep(Decided(s, t, id, result), t);
    MoveTwice(s, t, ReleaseCompleting(false), Idle);
    assert s.threads[t := Idle] == s.threads;
  }

  /** The two flags go down, completion first. */
  lemma LoneRelease(s: System, t: nat, op: Op) returns (s': System)
    requires Quiet(s) && t in s.threads
    requires s.mem.reserved
    ensures var from := Published(s, t, op, ReleaseCompleting(true));
      Reaches(from.(mem := from.mem.(completing := true), owner := Some(t), completer := Some(t)), t, s')
    ensures s' == Completed(s, t, op)
  {
    QuietFacts(s);
    hide Reaches, GlobalOk;
    var p := Published(s, t, op, ReleaseCompleting(true));
    var s1 := p.(mem := p.mem.(completing := true), owner := Some(t), completer := Some(t));
    var s2 := Published(s, t, op, ReleaseReserved).(owner := Some(t));
    MoveTwice(s, t, ReleaseCompleting(true), ReleaseReserved);
    MoveTwice(s, t, ReleaseReserved, Idle);
    assert Step(s1, t, Run) == s2;
    s' := Step(s2, t, Run);
    ReachStep(s1, t);
    ReachStep(s2, t);
    hide Step;
    ReachOn(s1, t, s2, s');
  }

  /**
   * A completion that runs alone ends the pending operation it is for with the result it was given, and the
   * service is free again; any other one changes nothing.
   */
  lemma LoneCompletion(s: System, t: nat, id: U32, result: nat) returns (s': System)
    requires Quiet(s) && t in s.threads && s.threads[t].Idle? && id != 0
    ensures Reaches(Step(s, t, BeginComplete(id, result)), t, s') && s'.threads == s.threads && s'.threads[t].Idle?
    ensures IsFor(Latest(s), id) ==>
      s'.log == s.log + [Op(id, if result == 0 then Succeeded else Failed, result)] && Held(s'.mem) == Latest(s')
    ensures IsFor(Latest(s), id) ==> !s'.mem.reserved && !s'.mem.completing && s'.owner.None? && s'.completer.None?
    ensures !IsFor(Latest(s), id) ==> s' == s
  {
    QuietFacts(s);
    hide Reaches;
    var s1 := Step(s, t, BeginComplete(id, result));
    assert s1 == Move(s, t, CheckReserved(id, result));
    assert s.threads[t := Idle] == s.threads;
    if s.mem.reserved {
      LoneDecision(s, t, id, result);
      if IsFor(Latest(s), id) {
        s' := PublishOutcome(s, Decided(s, t, id, result), t, OutcomeOp(id, result));
      } else {
        s' := s;
        BacksOut(s, t, id, result);
      }
      hide Step, Decided, Quiet;
      ReachOn(s1, t, Decided(s, t, id, result), s');
    } else {
      s' := Step(s1, t, Run);
      ReachStep(s1, t);
      MoveTwice(s, t, CheckReserved(id, result), Idle);
    }
  }

  lemma PublishOutcome(s: System, s2: System, t: nat, op: Op) returns (s': System)
    requires Quiet(s) && t in s.threads && s.mem.reserved
    requires s2 == Move(s, t, Store(op, 0, AfterComplete))
                   .(mem := s.mem.(completing := true), owner := Some(t), completer := Some(t))
    ensures s'.log != [] && Reaches(s2, t, s') && s' == Completed(s, t, op)
  {
    hide Reaches, GlobalOk;
    LonePublish(s2, t);
    var s3 := Published(s2, t, op, ReleaseCompleting(true));
    MoveTwice(s, t, Store(op, 0, AfterComplete), ReleaseCompleting(true));
    s' := LoneRelease(s, t, op);
    ReachOn(s2, t, s3, s');
  }

  /**
   * A submission that runs alone on a free service publishes the next id as pending and reserves the
   * service; on a reserved one it comes back at once with nothing changed.
   */
  lemma LoneSubmission(s: System, t: nat) returns (s': System)
    requires Quiet(s) && t in s.threads && s.threads[t].Idle?
    ensures Reaches(Step(s, t, BeginSubmit), t, s')
    ensures Latest(s).state == Pending ==> s' == s
    ensures Latest(s).state != Pending ==>
      var op := Op(IdAt(Admitted(s.log)), Pending, 0);
      && s'.log == s.log + [op] && Held(s'.mem) == op && s'.mem.reserved && s'.owner.None? && s'.seen == s.seen
      && s'.threads == s.threads[t := Submitting(op.id, |s.log|)]
  {
    QuietFacts(s);
    hide Reaches, GlobalOk, Admitted, IdAt;
    var s1 := Move(s, t, Reserve);
    assert Step(s, t, BeginSubmit) == s1 && s.threads[t := Idle] == s.threads;
    ReachStep(s1, t);
    if s.mem.reserved {
      s' := Step(s1, t, Run);
      MoveTwice(s, t, Reserve, Idle);
    } else {
      var s2 := Step(s1, t, Run);
      MoveTwice(s, t, Reserve, TakeId(false));
      var s3 := LoneId(s, s2, t);
      LonePublish(s3, t);
      var op := s3.threads[t].op;
      s' := Published(s3, t, op, Submitting(op.id, |s.log|)).(owner := None);
      hide Step;
      ReachOn(s1, t, s2, s3);
      ReachOn(s1, t, s3, s');
      assert s'.threads == s.threads[t := Submitting(op.id, |s.log|)];
    }
  }

  /** Taking an id: zero is skipped, so one or two steps. */
  lemma LoneId(s: System, s2: System, t: nat) returns (s3: System)
    requires s.log != [] && t in s.threads && CounterOk(s.mem.nextId, Admitted(s.log))
    requires s2 == Move(s, t, TakeId(false)).(mem := s.mem.(reserved := true), owner := Some(t))
    ensures s3.log == s.log && Reaches(s2, t, s3) && s3.mem.reserved && s3.seen == s.seen
    ensures s3.threads == s.threads[t := Store(Op(IdAt(Admitted(s.log)), Pending, 0), 0, AfterPending)]
  {
    hide Reaches, Admitted;
    var s' := Step(s2, t, Run);
    ReachStep(s2, t);
    if s.mem.nextId == 0 {
      s3 := Step(s', t, Run);
      ReachStep(s', t);
      ReachOn(s2, t, s', s3);
    } else {
      s3 := s';
    }
    assert s3.threads == s.threads[t := s3.threads[t]];
  }

  /** The port's answer: an accepted submission stays pending, a refused one is withdrawn and the service is free. */
  lemma LoneAnswer(s: System, t: nat) returns (s': System)
    requires Quiet(s) && t in s.threads && s.threads[t].Submitting? && Latest(s).state == Pending
    requires |s.log| == s.threads[t].index + 1 && NobodyCompletes(s, s.threads[t].id)
    ensures Step(s, t, Accept) == Move(s, t, Idle)
    ensures Reaches(Step(s, t, Reject), t, s')
    ensures s'.log == s.log + [NO_OP] && Held(s'.mem) == NO_OP && !s'.mem.reserved && s'.owner.None? && s'.rejecting.None?
    ensures s'.threads == s.threads[t := Idle]
  {
    hide Reaches, GlobalOk;
    var s1 := Step(s, t, Reject);
    LonePublish(s1, t);
    var s2 := Published(s1, t, NO_OP, Unreserve);
    s' := Step(s2, t, Run);
    ReachStep(s2, t);
    ReachOn(s1, t, s2, s');
    assert s'.threads == s.threads[t := Idle];
  }

  /**
   * A reader that runs alone accepts the latest published operation, unless a writer was stopped half way;
   * then it gives up, after all its attempts, with nothing read.
   */
  lemma LoneReader(s: System, t: nat) returns (s': System)
    requires Inv(s) && t in s.threads && s.threads[t].Idle?
    ensures Reaches(Step(s, t, BeginRead), t, s')
    ensures s' == if OwnerWriting(s) then s else s.(seen := s.seen + [Seen(Latest(s), |s.log| - 1)])
  {
    hide Reaches, GlobalOk;
    var reading := Read(ForReader, 0, 0, 0, NO_OP);
    var s1 := Move(s, t, reading);
    assert Step(s, t, BeginRead) == s1 && s.threads[t := Idle] == s.threads;
    MoveTwice(s, t, reading, Idle);
    SequenceTells(s);
    if OwnerWriting(s) {
      GivesUp(s, t, 0);
      s' := s;
    } else {
      LoneRead(s1, t);
      s' := FinishRead(s1, t, Read(ForReader, 0, 4, s.mem.sequence, Held(s.mem)));
    }
  }

  lemma SequenceTells(s: System)
    requires Inv(s)
    ensures OwnerWriting(s) <==> s.mem.sequence % 2 == 1
    ensures !OwnerWriting(s) ==> Held(s.mem) == Latest(s)
  {
    if OwnerWriting(s) { assert ThreadOk(s, s.owner.value, s.threads[s.owner.value]); }
  }

  lemma {:induction false} GivesUp(s: System, t: nat, attempt: nat)
    requires s.log != [] && t in s.threads && s.threads[t].Idle? && s.mem.sequence % 2 == 1 && attempt < READ_ATTEMPTS
    ensures Reaches(Move(s, t, Read(ForReader, attempt, 0, 0, NO_OP)), t, s)
    decreases READ_ATTEMPTS - attempt
  {
    hide Reaches;
    var reading, next := Read(ForReader, attempt, 0, 0, NO_OP), Read(ForReader, attempt + 1, 0, 0, NO_OP);
    var s1 := Move(s, t, reading);
    ReachStep(s1, t);
    MoveTwice(s, t, reading, next);
    MoveTwice(s, t, reading, Idle);
    assert s.threads[t := Idle] == s.threads;
    if attempt + 1 < READ_ATTEMPTS {
      GivesUp(s, t, attempt + 1);
      ReachOn(s1, t, Move(s, t, next), s);
    }
  }

  // ---- the same as runs ----------------------------------------------------------------

  /** The next `n` steps of the schedule all go to thread `t`. */
  function Turns(t: nat, n: nat): seq<(nat, Event)> { seq(n, i => (t, Run)) }

  /** A call of thread `t`, and then its steps only. */
  function AndThen(schedule: seq<(nat, Event)>, t: nat, call: Event, n: nat): seq<(nat, Event)> {
    schedule + [(t, call)] + Turns(t, n)
  }

  lemma {:induction false} ExecAlone(s0: System, schedule: seq<(nat, Event)>, t: nat, call: Event, n: nat)
    requires s0.log != []
    ensures Exec(s0, AndThen(schedule, t, call, n)) == Alone(Step(Exec(s0, schedule), t, call), t, n)
  {
    hide Step;
    var all := AndThen(schedule, t, call, n);
    if n == 0 {
      assert all == schedule + [(t, call)] && all[..|all| - 1] == schedule;
    } else {
      ExecAlone(s0, schedule, t, call, n - 1);
      assert all[..|all| - 1] == AndThen(schedule, t, call, n - 1) && all[|all| - 1] == (t, Run);
    }
  }

  lemma Turn(s: System, t: nat, s': System) returns (n: nat)
    requires s.log != [] && Reaches(s, t, s')
    ensures Alone(s, t, n) == s'
  {
    n :| Alone(s, t, n) == s';
  }

  lemma QuietRun(threads: set<nat>, schedule: seq<(nat, Event)>)
    requires var s := Exec(Initial(threads), schedule); s.owner.None? && s.completer.None?
    ensures Quiet(Exec(Initial(threads), schedule))
  {
    ExecKeeps(threads, schedule);
  }

  /**
   * From any reachable state with nobody at work, `complete(id, result)` run to its end by one thread ends the
   * pending operation with that id as the result says and frees the service; with any other id it changes nothing.
   */
  lemma CompletionRun(threads: set<nat>, schedule: seq<(nat, Event)>, t: nat, id: U32, result: nat) returns (n: nat)
    requires var s := Exec(Initial(threads), schedule);
      && s.owner.None? && s.completer.None? && t in s.threads && s.threads[t].Idle? && id != 0
    ensures var s := Exec(Initial(threads), schedule);
      var s' := Exec(Initial(threads), AndThen(schedule, t, BeginComplete(id, result), n));
      && s'.threads == s.threads
      && if IsFor(Latest(s), id) then
           && s'.log == s.log + [Op(id, if result == 0 then Succeeded else Failed, result)]
           && !s'.mem.reserved && !s'.mem.completing && s'.owner.None? && s'.completer.None?
         else s' == s
  {
    var s := Exec(Initial(threads), schedule);
    QuietRun(threads, schedule);
    var s' := LoneCompletion(s, t, id, result);
    hide Quiet, Step, Exec, Alone, Reaches;
    n := Turn(Step(s, t, BeginComplete(id, result)), t, s');
    ExecAlone(Initial(threads), schedule, t, BeginComplete(id, result), n);
  }

  /**
   * From any reachable state with nobody at work, `submit` run to the port by one thread publishes the next id
   * as pending and reserves the service, unless an operation is pending already; then it changes nothing.
   */
  lemma SubmissionRun(threads: set<nat>, schedule: seq<(nat, Event)>, t: nat) returns (n: nat)
    requires var s := Exec(Initial(threads), schedule);
      && s.owner.None? && s.completer.None? && t in s.threads && s.threads[t].Idle?
    ensures var s := Exec(Initial(threads), schedule);
      var s' := Exec(Initial(threads), AndThen(schedule, t, BeginSubmit, n));
      var op := Op(IdAt(Admitted(s.log)), Pending, 0);
      if Latest(s).state == Pending then s' == s
      else s'.log == s.log + [op] && s'.mem.reserved && s'.owner.None?
           && s'.threads == s.threads[t := Submitting(op.id, |s.log|)]
  {
    var s := Exec(Initial(threads), schedule);
    QuietRun(threads, schedule);
    var s' := LoneSubmission(s, t);
    hide Quiet, Step, Exec, Alone, Reaches, IdAt, Admitted;
    n := Turn(Step(s, t, BeginSubmit), t, s');
    ExecAlone(Initial(threads), schedule, t, BeginSubmit, n);
  }

  /** A refused submission run to its end withdraws the operation and frees the service. */
  lemma RefusalRun(threads: set<nat>, schedule: seq<(nat, Event)>, t: nat) returns (n: nat)
    requires var s := Exec(Initial(threads), schedule);
      && s.owner.None? && s.completer.None? && t in s.threads && s.threads[t].Submitting?
      && Latest(s).state == Pending && |s.log| == s.threads[t].index + 1 && NobodyCompletes(s, s.threads[t].id)
    ensures var s := Exec(Initial(threads), schedule);
      var s' := Exec(Initial(threads), AndThen(schedule, t, Reject, n));
      s'.log == s.log + [NO_OP] && !s'.mem.reserved && s'.owner.None? && s'.threads == s.threads[t := Idle]
  {
    var s := Exec(Initial(threads), schedule);
    QuietRun(threads, schedule);
    var s' := LoneAnswer(s, t);
    hide Quiet, Step, Exec, Alone, Reaches;
    n := Turn(Step(s, t, Reject), t, s');
    ExecAlone(Initial(threads), schedule, t, Reject, n);
  }

  /**
   * From any reachable state, a read run to its end by one thread accepts the latest published operation, unless
   * a writer was stopped half way; then it gives up with nothing read.
   */
  lemma ReadRun(threads: set<nat>, schedule: seq<(nat, Event)>, t: nat) returns (n: nat)
    requires var s := Exec(Initial(threads), schedule); t in s.threads && s.threads[t].Idle?
    ensures var s := Exec(Initial(threads), schedule);
      var s' := Exec(Initial(threads), AndThen(schedule, t, BeginRead, n));
      s' == if OwnerWriting(s) then s else s.(seen := s.seen + [Seen(Latest(s), |s.log| - 1)])
  {
    var s := Exec(Initial(threads), schedule);
    ExecKeeps(threads, schedule);
    var s' := LoneReader(s, t);
    hide Inv, Step, Exec, Alone, Reaches;
    n := Turn(Step(s, t, BeginRead), t, s');
    ExecAlone(Initial(threads), schedule, t, BeginRead, n);
  }
}
