/**
 * The playback pool gets somewhere: a failure is only ever raised for a cause,
 * the two sides never wait for each other, and whatever the synthesizer
 * delivers can be played to its end.
 */
module TtsProgress {
  import opened Common
  import opened TtsPool
  import opened TtsOutput

  // ---- what a producer's step does, seen from the other side ------------------------

  /** Where a step that moves a slot leads. */
  function NextPlace(p: Pool): Producer
    requires !QuietProducer(p)
  {
    match p.producer
    case Take(rest) => Held(rest, p.freeQueue[0])
    case Fill(rest, slot) => Add(rest, slot)
    case Add(rest, slot) => Send(rest, slot)
    case Send(rest, slot) => Next(rest[ChunkSize(rest)..])
    case GiveBack(_) => GivenBack
    case SendFinal => AwaitDone
    case _ => p.producer
  }

  /** The consumer's side, its slot included, is as it was. */
  predicate Beside(p: Pool, q: Pool) {
    && SameSide(p, q) && q.status == p.status && q.current == p.current && q.done == p.done && q.asked == p.asked
    && SameSlots(ConsumerSlots(p.consumer), p, q)
  }

  lemma PushTakes(p: Pool, expired: bool)
    requires p.producer.Take? && p.freeQueue != []
    ensures var q := StepProducer(p, expired);
      q == p.(freeQueue := p.freeQueue[1..], producer := NextPlace(p)) && Beside(p, q)
  {
    hide ConsumerSlots;
  }

  lemma PushFills(p: Pool, expired: bool)
    requires Inv(p) && p.producer.Fill?
    ensures var q := StepProducer(p, expired);
      q == p.(pcm := q.pcm, producer := NextPlace(p)) && Beside(p, q)
  {
    hide ConsumerOk, ProducerOk, Places, Account, QueueOk, Slots;
    var slot, rest := p.producer.slot, p.producer.rest;
    OnePlace(p, slot);
    assert forall other | other in ConsumerSlots(p.consumer) :: other != slot;
    hide ConsumerSlots, ProducerSlots;
  }

  lemma PushAdds(p: Pool, expired: bool)
    requires p.producer.Add?
    ensures var q := StepProducer(p, expired);
      q == p.(queued := q.queued, producer := NextPlace(p)) && Beside(p, q)
  {
    hide ConsumerSlots;
  }

  lemma PushSends(p: Pool, expired: bool)
    requires |p.playQueue| < PLAY_QUEUE_DEPTH && (p.producer.Send? || p.producer.SendFinal?)
    ensures var q := StepProducer(p, expired); var last := if p.producer.Send? then Some(p.producer.slot) else None;
      q == p.(playQueue := p.playQueue + [last], producer := NextPlace(p), produced := q.produced) && Beside(p, q)
  {
    hide ConsumerSlots;
  }

  lemma PushGivesBack(p: Pool, expired: bool)
    requires Inv(p) && p.producer.GiveBack?
    ensures var q := StepProducer(p, expired);
      q == p.(pcm := q.pcm, freeQueue := q.freeQueue, producer := NextPlace(p)) && Beside(p, q)
  {
    hide ConsumerOk, ProducerOk, Places, Account, QueueOk, Slots;
    var slot := p.producer.slot;
    OnePlace(p, slot);
    assert forall other | other in ConsumerSlots(p.consumer) :: other != slot;
    hide ConsumerSlots, ProducerSlots;
  }

  lemma PushQuiet(p: Pool, expired: bool)
    requires QuietProducer(p)
    ensures StepProducer(p, expired) == WithFailure(p, Decide(p, expired).1).(producer := Decide(p, expired).0)
  {
    hide Decide;
  }

  /** A step that moves a slot leads to the next place and leaves the consumer's side alone. */
  lemma Push(p: Pool, expired: bool)
    requires Inv(p) && !QuietProducer(p)
    ensures var q := StepProducer(p, expired);
      && q.producer == NextPlace(p) && Beside(p, q)
      && q.playQueue == (if p.producer.Send? then p.playQueue + [Some(p.producer.slot)]
                         else if p.producer.SendFinal? then p.playQueue + [None] else p.playQueue)
      && (!p.producer.Add? ==> q.queued == p.queued)
  {
    if p.producer.Send? || p.producer.SendFinal? { SendFits(p); }
    NeverUndoes(p);
    hide Inv, StepProducer, Beside;
    match p.producer
    case Take(_) => PushTakes(p, expired);
    case Fill(_, _) => PushFills(p, expired);
    case Add(_, _) => PushAdds(p, expired);
    case Send(_, _) => PushSends(p, expired);
    case SendFinal => PushSends(p, expired);
    case _ => PushGivesBack(p, expired);
  }

  lemma NeverUndoes(p: Pool)
    requires Inv(p)
    ensures !p.producer.Undo? && !p.producer.UndoRelease?
  {
    hide ConsumerOk, Places, Account, QueueOk;
  }

  // ---- failures have causes ------------------------------------------------------

  /**
   * What can make a run fail: the turn is superseded, a callback delivers half a sample, the producer's wait
   * for a slot or for the end times out, or the hardware refuses.
   */
  predicate Cause(p: Pool, e: Event) {
    match e
    case Supersede => true
    case Callback(pcm) => |pcm| % 2 != 0
    case Finish => false
    case ProducerStep(expired) => expired && ((p.producer.Take? && p.freeQueue == []) || (p.producer.AwaitDone? && !p.done))
    case ConsumerStep(_, _, code) => code != 0 && (p.consumer.Start? || p.consumer.WriteOut? || p.consumer.StopOutput?)
  }

  /** Nothing has gone wrong so far. */
  predicate Healthy(p: Pool) {
    && p.status == 0 && p.ret == 0 && p.current && !p.producer.Fail?
    && (p.producer.Enter? || p.producer.EnterCurrent? ==> |p.producer.rest| % 2 == 0)
  }

  lemma HealthyDecision(p: Pool, expired: bool)
    requires ProducerOk(p) && Healthy(p) && QuietProducer(p) && !Cause(p, ProducerStep(expired))
    ensures Decide(p, expired).1 == 0 && Healthy(p.(producer := Decide(p, expired).0))
  {
  }

  lemma HealthyPush(p: Pool)
    requires ProducerOk(p) && Healthy(p) && !QuietProducer(p)
    ensures Healthy(p.(producer := NextPlace(p)))
  {
    hide ChunkSize;
  }

  lemma HealthyProducer(p: Pool, expired: bool)
    requires Inv(p) && Healthy(p) && !Cause(p, ProducerStep(expired))
    ensures Healthy(StepProducer(p, expired))
  {
    hide Decide, NextPlace, QuietProducer, ProducerOk, ConsumerOk, Places, Account, QueueOk, StepProducer, Cause;
    if QuietProducer(p) {
      PushQuiet(p, expired);
      HealthyDecision(p, expired);
    } else {
      Push(p, expired);
      HealthyPush(p);
    }
  }

  // the consumer

  lemma HealthyJudged(p: Pool, expired: bool, rebuffer: bool, code: int)
    requires ConsumerOk(p) && Healthy(p) && QuietConsumer(p, expired, rebuffer, code)
    requires !Cause(p, ConsumerStep(expired, rebuffer, code))
    ensures Judge(p, expired, rebuffer, code).1 == 0
  {
    hide Slots, Contents;
  }

  /** What health is about, apart from the consumer's own judgement, does not change. */
  predicate AsHealthy(p: Pool, q: Pool) {
    q.status == p.status && q.ret == p.ret && q.current == p.current && q.producer == p.producer
  }

  lemma MovesHealthy(p: Pool)
    ensures p.playQueue != [] && (p.consumer.Poll? || p.consumer.Drain?) ==> AsHealthy(p, Receive(p))
    ensures p.consumer.RemoveSwap? || p.consumer.DrainSwap? ==> AsHealthy(p, Remove(p, p.consumer.slot))
    ensures Releases(p.consumer) ==> AsHealthy(p, Recycled(p, p.consumer.slot).(consumer := AfterRelease(p.consumer)))
  {
  }

  lemma ClosesHealthy(p: Pool, code: int)
    requires Closes(p.consumer) && p.status == 0 && p.ret == 0 && (p.consumer.StopOutput? ==> code == 0)
    ensures AsHealthy(p, Close(p, code))
  {
  }

  lemma HealthyConsumer(p: Pool, expired: bool, rebuffer: bool, code: int)
    requires Inv(p) && Healthy(p) && !Cause(p, ConsumerStep(expired, rebuffer, code))
    ensures Healthy(StepConsumer(p, expired, rebuffer, code))
  {
    hide Judge, ConsumerOk, ProducerOk, Places, Account, QueueOk, Swaps, Receive, Remove, Recycled, Close, AfterRelease;
    var c := p.consumer;
    if (c.Poll? || c.Drain?) && p.playQueue != [] {
      MovesHealthy(p);
    } else if (c.RemoveSwap? || c.DrainSwap?) && Swaps(p, c.slot, c.loaded, expired) {
      MovesHealthy(p);
    } else if c.WriteOut? && Judge(p, expired, rebuffer, code).0.Write? {
    } else if Releases(c) {
      MovesHealthy(p);
    } else if Closes(c) {
      ClosesHealthy(p, code);
    } else {
      HealthyJudged(p, expired, rebuffer, code);
    }
  }

  /** Without a cause nothing fails, in any interleaving. */
  lemma {:induction false} FailsOnlyForCause(states: seq<Pool>, events: seq<Event>, k: nat)
    requires IsRun(states, events) && k < |states|
    requires forall i | 0 <= i < k :: !Cause(states[i], events[i])
    ensures Healthy(states[k])
    decreases k
  {
    hide Inv, Step, Healthy, Cause;
    if k == 0 {
      HealthyStart();
    } else {
      FailsOnlyForCause(states, events, k - 1);
      RunKeeps(states, events, k - 1);
      assert Follows(states, events, k - 1);
      HealthyStep(states[k - 1], events[k - 1]);
    }
  }

  lemma HealthyStart()
    ensures Healthy(Initial())
  {
  }

  lemma HealthyStep(p: Pool, e: Event)
    requires Inv(p) && Healthy(p) && !Cause(p, e)
    ensures Healthy(Step(p, e))
  {
    hide Inv, StepProducer, StepConsumer;
    match e
    case ProducerStep(expired) => HealthyProducer(p, expired);
    case ConsumerStep(expired, rebuffer, code) => HealthyConsumer(p, expired, rebuffer, code);
    case _ =>
  }

  // ---- the consumer gets on --------------------------------------------------------

  /** More than the consumer ever does between two receptions. */
  const ROUND := 4000

  /** A compare-and-swap that will fail because the count has moved since it was loaded. */
  function Stale(p: Pool, loaded: nat): nat { if loaded == p.queued then 0 else 1 }

  /** What is left to write of the slot, in bytes. */
  function Rest(p: Pool, slot: nat, offset: nat): nat { if offset <= |At(p, slot)| then |At(p, slot)| - offset else 0 }

  /** How far the consumer is from its next reception, or from its end. */
  function Rank(p: Pool): nat {
    match p.consumer
    case Ended => 0
    case GiveDone => 1
    case StopOutput => 2
    case Drain => 3
    case DrainRelease(_) => 4
    case DrainSwap(_, loaded) => 5 + Stale(p, loaded)
    case DrainLoad(_) => 7
    case Stopping => 8
    case Discard(_) => 9
    case Poll => 10
    case PollCurrent => 11
    case PollStatus => 12
    case Head => 13
    case Released(_) => 14
    case Release(_, _) => 15
    case Write(slot, offset) => 18 + 3 * Rest(p, slot, offset)
    case WriteCurrent(slot, offset) => 17 + 3 * Rest(p, slot, offset)
    case WriteOut(slot, offset) => 16 + 3 * Rest(p, slot, offset)
    case Start(_) => 3091
    case PrebufferedCurrent(_) => 3092
    case Prebuffered(_) => 3093
    case Received(_) => 3094
    case RemoveSwap(_, loaded) => 3095 + Stale(p, loaded)
    case RemoveLoad(_) => 3097
  }

  function ConsumerWork(p: Pool): nat { |p.playQueue| * ROUND + Rank(p) }

  /** The consumer has something to do now: it does not just wait for a slot to play. */
  predicate Busy(p: Pool) { !p.consumer.Ended? && !(p.consumer.Poll? && p.playQueue == []) }

  lemma ReceiveWorks(p: Pool)
    requires p.playQueue != [] && (p.consumer.Poll? || p.consumer.Drain?)
    ensures ConsumerWork(Receive(p)) < ConsumerWork(p) && Receive(p).producer == p.producer && Receive(p).asked == p.asked
  {
  }

  lemma RemoveWorks(p: Pool)
    requires p.consumer.RemoveSwap? || p.consumer.DrainSwap?
    ensures var q := Remove(p, p.consumer.slot); ConsumerWork(q) < ConsumerWork(p) && q.producer == p.producer && q.asked == p.asked
  {
    hide Rest;
  }

  lemma OutputWorks(p: Pool, end: nat)
    requires p.consumer.WriteOut? && p.consumer.offset < end <= |At(p, p.consumer.slot)|
    ensures var q := Output(p, p.consumer.slot, p.consumer.offset, end);
      ConsumerWork(q) < ConsumerWork(p) && q.producer == p.producer && q.asked == p.asked
  {
  }

  lemma ReleaseWorks(p: Pool)
    requires Releases(p.consumer)
    ensures var q := Recycled(p, p.consumer.slot).(consumer := AfterRelease(p.consumer));
      ConsumerWork(q) < ConsumerWork(p) && q.producer == p.producer && q.asked == p.asked
  {
    hide Rest;
  }

  lemma CloseWorks(p: Pool, code: int)
    requires Closes(p.consumer)
    ensures ConsumerWork(Close(p, code)) < ConsumerWork(p) && Close(p, code).producer == p.producer && Close(p, code).asked == p.asked
  {
    hide Rest;
  }

  lemma JudgeWorks(p: Pool, rebuffer: bool, code: int)
    requires ConsumerOk(p) && QuietConsumer(p, false, rebuffer, code) && Busy(p)
    ensures Rank(p.(consumer := Judge(p, false, rebuffer, code).0)) < Rank(p)
  {
    hide Slots, Contents;
  }

  lemma ConsumerWorks(p: Pool, rebuffer: bool, code: int)
    requires Inv(p) && Busy(p)
    ensures var q := StepConsumer(p, false, rebuffer, code); ConsumerWork(q) < ConsumerWork(p) && q.producer == p.producer && q.asked == p.asked
  {
    var c := p.consumer;
    hide ConsumerOk, ProducerOk, Places, Account, QueueOk, Judge, Swaps, Receive, Remove, Output, Recycled, Close, Rank, Rest;
    if (c.Poll? || c.Drain?) && p.playQueue != [] {
      ReceiveWorks(p);
    } else if (c.RemoveSwap? || c.DrainSwap?) && Swaps(p, c.slot, c.loaded, false) {
      RemoveWorks(p);
    } else if c.WriteOut? && Judge(p, false, rebuffer, code).0.Write? {
      OutputAdvances(p, rebuffer, code);
      OutputWorks(p, Judge(p, false, rebuffer, code).0.offset);
    } else if Releases(c) {
      ReleaseWorks(p);
    } else if Closes(c) {
      CloseWorks(p, code);
    } else {
      JudgeWorks(p, rebuffer, code);
      JudgedRank(p, Judge(p, false, rebuffer, code).0, Judge(p, false, rebuffer, code).1, p.started || (c.Start? && code == 0));
    }
  }

  lemma JudgedRank(p: Pool, next: Consumer, ret: int, started: bool)
    ensures Rank(p.(consumer := next, ret := ret, started := started)) == Rank(p.(consumer := next))
  {
  }

  lemma OutputAdvances(p: Pool, rebuffer: bool, code: int)
    requires ConsumerOk(p) && p.consumer.WriteOut? && Judge(p, false, rebuffer, code).0.Write?
    ensures p.consumer.offset < Judge(p, false, rebuffer, code).0.offset <= |At(p, p.consumer.slot)|
  {
    hide Slots, Contents;
  }

  // ---- neither side waits for ever ---------------------------------------------------

  /** The consumer has emptied the play queue for the last time. */
  predicate Drained(c: Consumer) { c.StopOutput? || c.GiveDone? || c.Ended? }

  /** The producer has passed its test of the status for the next slot. */
  predicate Committed(p: Producer) {
    p.NextCurrent? || p.Take? || p.Held? || p.HeldCurrent? || p.Fill? || p.Add? || p.Send?
  }

  /**
   * Once the final marker is sent it stays in the queue until the consumer leaves its loop for it; and when
   * the consumer is through with the queue, a producer that is still to send finds it empty.
   */
  predicate MarkerOk(p: Pool) {
    && (FinalSent(p.producer) && !Over(p.consumer) ==> p.playQueue != [] && p.playQueue[|p.playQueue| - 1].None?)
    && (Drained(p.consumer) && Committed(p.producer) ==> p.playQueue == [])
  }

  lemma DecisionMarker(p: Pool, expired: bool)
    requires QuietProducer(p) && ConsumerOk(p)
    ensures var next := Decide(p, expired).0;
      && (FinalSent(next) <==> FinalSent(p.producer))
      && (Drained(p.consumer) && Committed(next) ==> Committed(p.producer))
  {
    hide Slots, Contents;
  }

  lemma MarkerProducer(p: Pool, expired: bool)
    requires Inv(p) && MarkerOk(p)
    ensures MarkerOk(StepProducer(p, expired))
  {
    hide Decide, ProducerOk, ConsumerOk, Places, Account, QueueOk, StepProducer, Over;
    if QuietProducer(p) {
      PushQuiet(p, expired);
      DecisionMarker(p, expired);
    } else {
      Push(p, expired);
    }
  }

  lemma JudgedMarker(p: Pool, expired: bool, rebuffer: bool, code: int)
    requires QuietConsumer(p, expired, rebuffer, code)
    ensures var next := Judge(p, expired, rebuffer, code).0;
      && (Over(p.consumer) ==> Over(next)) && (Drained(next) ==> p.playQueue == [] || Drained(p.consumer))
  {
    hide At, ChunkSize, Swaps;
  }

  /** A step that leaves the queue alone and does not go back into the loop, or finds the queue empty. */
  predicate Onward(p: Pool, q: Pool) {
    && q.playQueue == p.playQueue && q.producer == p.producer && (Over(p.consumer) ==> Over(q.consumer))
    && (Drained(q.consumer) ==> p.playQueue == [] || Drained(p.consumer))
  }

  lemma MovesOnward(p: Pool, code: int)
    ensures p.consumer.RemoveSwap? || p.consumer.DrainSwap? ==> Onward(p, Remove(p, p.consumer.slot))
    ensures Releases(p.consumer) ==> Onward(p, Recycled(p, p.consumer.slot).(consumer := AfterRelease(p.consumer)))
    ensures Closes(p.consumer) ==> Onward(p, Close(p, code))
  {
    if p.consumer.RemoveSwap? || p.consumer.DrainSwap? || Releases(p.consumer) { UncountedQueue(p, p.consumer.slot); }
    hide Uncounted, Recycled;
  }

  lemma OnwardKeeps(p: Pool, q: Pool)
    requires MarkerOk(p) && Onward(p, q)
    ensures MarkerOk(q)
  {
  }

  lemma MarkerConsumer(p: Pool, expired: bool, rebuffer: bool, code: int)
    requires Inv(p) && MarkerOk(p)
    ensures MarkerOk(StepConsumer(p, expired, rebuffer, code))
  {
    var c, q := p.consumer, StepConsumer(p, expired, rebuffer, code);
    hide Inv, MarkerOk, Judge, Swaps, Receive, Remove, Recycled, Close, AfterRelease;
    if (c.Poll? || c.Drain?) && p.playQueue != [] {
      MarkerReceived(p);
    } else {
      if (c.RemoveSwap? || c.DrainSwap?) && Swaps(p, c.slot, c.loaded, expired) {
        MovesOnward(p, code);
      } else if Releases(c) {
        MovesOnward(p, code);
      } else if Closes(c) {
        MovesOnward(p, code);
      } else if !(c.WriteOut? && Judge(p, expired, rebuffer, code).0.Write?) {
        JudgedMarker(p, expired, rebuffer, code);
      }
      OnwardKeeps(p, q);
    }
  }

  lemma UncountedQueue(p: Pool, slot: nat)
    ensures Uncounted(p, slot).playQueue == p.playQueue && Uncounted(p, slot).producer == p.producer
    ensures Recycled(p, slot).playQueue == p.playQueue && Recycled(p, slot).producer == p.producer
  {
  }

  lemma MarkerReceived(p: Pool)
    requires Inv(p) && MarkerOk(p) && p.playQueue != [] && (p.consumer.Poll? || p.consumer.Drain?)
    ensures MarkerOk(Receive(p))
  {
    hide ConsumerOk, ProducerOk, Places, Account, Slots, ChunkOk;
  }

  lemma {:induction false} MarkerKept(states: seq<Pool>, events: seq<Event>, k: nat)
    requires IsRun(states, events) && k < |states|
    ensures MarkerOk(states[k])
    decreases k
  {
    hide Inv, StepProducer, StepConsumer;
    if k > 0 {
      MarkerKept(states, events, k - 1);
      RunKeeps(states, events, k - 1);
      assert Follows(states, events, k - 1);
      match events[k - 1]
      case ProducerStep(expired) => MarkerProducer(states[k - 1], expired);
      case ConsumerStep(expired, rebuffer, code) => MarkerConsumer(states[k - 1], expired, rebuffer, code);
      case _ =>
    }
  }

  /** The producer waits: for a free slot, or for the consumer's end. */
  predicate Blocked(p: Pool) { (p.producer.Take? && p.freeQueue == []) || (p.producer.AwaitDone? && !p.done) }

  /** Whenever the producer waits the consumer has something to do: the two never wait for each other. */
  lemma NoDeadlock(p: Pool)
    requires Inv(p) && MarkerOk(p) && Blocked(p)
    ensures Busy(p)
  {
    if p.producer.Take? {
      PlacesFacts(p);
      NothingQueued(p);
      hide ConsumerOk, ProducerOk, Places, Account, QueueOk, Slots;
    } else {
      hide ConsumerOk, ProducerOk, Places, Account, QueueOk, Slots;
    }
  }

  lemma NothingQueued(p: Pool)
    ensures p.playQueue == [] ==> Slots(p.playQueue) == []
  {
  }

  // ---- both get on -------------------------------------------------------------------

  /** More work per byte than handing it over can cause on the other side. */
  const PER_BYTE := 10000

  /** How far the producer is from the end of its callback, or from its own end. */
  function ProducerWork(p: Producer): nat {
    match p
    case Ready => 0
    case Finished => 0
    case AwaitDone => 1
    case SendFinal => ROUND + 2
    case Fail(_) => 1
    case GivenBack => 2
    case GiveBack(_) => 3
    case UndoRelease(_) => 2
    case Undo(_) => 3
    case Send(rest, _) => PER_BYTE * |rest| + 3
    case Add(rest, _) => PER_BYTE * |rest| + 6
    case Fill(rest, _) => PER_BYTE * |rest| + 7
    case HeldCurrent(rest, _) => PER_BYTE * |rest| + 8
    case Held(rest, _) => PER_BYTE * |rest| + 9
    case Take(rest) => PER_BYTE * |rest| + 10
    case NextCurrent(rest) => PER_BYTE * |rest| + 11
    case Next(rest) => PER_BYTE * |rest| + 12
    case EnterCurrent(rest) => PER_BYTE * |rest| + 13
    case Enter(rest) => PER_BYTE * |rest| + 14
  }

  function Work(p: Pool): nat { ProducerWork(p.producer) + ConsumerWork(p) }

  /** The producer has a callback, or the end, to see through. */
  predicate Underway(p: Producer) { !p.Ready? && !p.Finished? }

  lemma DecisionWorks(p: Pool)
    requires ProducerOk(p) && QuietProducer(p) && Underway(p.producer) && !Blocked(p)
    ensures ProducerWork(Decide(p, false).0) < ProducerWork(p.producer)
  {
    hide ChunkSize;
  }

  lemma PushWorks(p: Pool)
    requires ProducerOk(p) && !QuietProducer(p) && !p.producer.Undo? && !p.producer.UndoRelease?
    ensures var more := if p.producer.Send? || p.producer.SendFinal? then ROUND else 0;
      ProducerWork(NextPlace(p)) + more + (if p.producer.Add? then 1 else 0) < ProducerWork(p.producer)
  {
  }

  /** A producer's step can make the consumer's work longer only by the slot it sends, or by one stale count. */
  lemma RankBeside(p: Pool, q: Pool)
    requires Beside(p, q)
    ensures Rank(q) <= Rank(p) + 1 && (q.queued == p.queued ==> Rank(q) == Rank(p))
  {
    hide Rest;
    forall slot: nat, offset: nat | slot in ConsumerSlots(p.consumer) ensures Rest(q, slot, offset) == Rest(p, slot, offset) {
      RestBeside(p, q, slot, offset);
    }
  }

  lemma RestBeside(p: Pool, q: Pool, slot: nat, offset: nat)
    requires At(q, slot) == At(p, slot)
    ensures Rest(q, slot, offset) == Rest(p, slot, offset)
  {
  }

  lemma ProducerWorks(p: Pool)
    requires Inv(p) && Underway(p.producer) && !Blocked(p)
    ensures Work(StepProducer(p, false)) < Work(p)
  {
    hide Decide, NextPlace, QuietProducer, ProducerOk, ConsumerOk, Places, Account, QueueOk, StepProducer, Rank, ProducerWork,
         ConsumerSlots;
    var q := StepProducer(p, false);
    NeverUndoes(p);
    if QuietProducer(p) {
      PushQuiet(p, false);
      DecisionWorks(p);
      QuietRank(p, q);
    } else {
      Push(p, false);
      PushWorks(p);
      RankBeside(p, q);
    }
  }

  lemma QuietRank(p: Pool, q: Pool)
    requires q == p.(status := q.status, producer := q.producer)
    ensures Rank(q) == Rank(p)
  {
  }

  /** The step that helps: the producer's own, unless it waits; then the consumer's. */
  function Helpful(p: Pool): Event {
    if Blocked(p) then ConsumerStep(false, false, 0) else ProducerStep(false)
  }

  /** From any state of any run, failed or not, a step that helps brings the callback, or the end, nearer. */
  lemma HelpfulWorks(p: Pool)
    requires Inv(p) && MarkerOk(p) && Underway(p.producer)
    ensures Work(Step(p, Helpful(p))) < Work(p) && !Cause(p, Helpful(p))
  {
    hide Inv, MarkerOk, StepProducer, StepConsumer, Rank, ProducerWork, Blocked;
    if Blocked(p) {
      NoDeadlock(p);
      ConsumerWorks(p, false, 0);
    } else {
      ProducerWorks(p);
    }
  }

  // ---- as runs -------------------------------------------------------------------------

  predicate Blameless(states: seq<Pool>, events: seq<Event>) {
    IsRun(states, events) && forall i | 0 <= i < |events| :: !Cause(states[i], events[i])
  }

  function LastOf(states: seq<Pool>): Pool
    requires |states| > 0
  {
    states[|states| - 1]
  }

  lemma RunOn(states: seq<Pool>, events: seq<Event>, e: Event)
    requires IsRun(states, events)
    ensures var longer := states + [Step(LastOf(states), e)];
      IsRun(longer, events + [e]) && (Blameless(states, events) && !Cause(LastOf(states), e) ==> Blameless(longer, events + [e]))
  {
    hide Step, Cause;
    var longer, more := states + [Step(LastOf(states), e)], events + [e];
    forall i | 0 <= i < |more| ensures Follows(longer, more, i) {
      if i < |events| { assert Follows(states, events, i); }
    }
  }

  /** Any run can be continued until the producer is through with its callback, or with everything. */
  lemma {:induction false} GetsThrough(states: seq<Pool>, events: seq<Event>) returns (longer: seq<Pool>, more: seq<Event>)
    requires IsRun(states, events)
    ensures IsRun(longer, more) && states <= longer && events <= more && !Underway(LastOf(longer).producer)
    ensures Blameless(states, events) ==> Blameless(longer, more)
    ensures LastOf(longer).asked == LastOf(states).asked
    ensures LastOf(longer).producer.Finished? <==> Ending(LastOf(states).producer)
    decreases Work(LastOf(states))
  {
    hide Step, Cause, Work, Helpful, Inv, MarkerOk;
    var p := LastOf(states);
    if !Underway(p.producer) {
      longer, more := states, events;
    } else {
      var e := Helpful(p);
      RunKeeps(states, events, |states| - 1);
      MarkerKept(states, events, |states| - 1);
      HelpfulWorks(p);
      if Blocked(p) { NoDeadlock(p); }
      HelpfulKeeps(p);
      RunOn(states, events, e);
      longer, more := GetsThrough(states + [Step(p, e)], events + [e]);
    }
  }

  predicate Ending(p: Producer) { FinalSent(p) || p.SendFinal? }

  lemma DecisionEnds(p: Pool)
    requires QuietProducer(p)
    ensures Ending(Decide(p, false).0) <==> Ending(p.producer)
  {
    hide ChunkSize;
  }

  lemma HelpfulKeeps(p: Pool)
    requires Inv(p) && (Blocked(p) ==> Busy(p))
    ensures var q := Step(p, Helpful(p)); q.asked == p.asked && (Ending(q.producer) <==> Ending(p.producer))
  {
    hide Inv, StepProducer, StepConsumer, Decide, QuietProducer, Blocked, Busy;
    if Blocked(p) {
      ConsumerWorks(p, false, 0);
    } else if QuietProducer(p) {
      PushQuiet(p, false);
      DecisionEnds(p);
    } else {
      Push(p, false);
      NeverUndoes(p);
      PushEnds(p);
    }
  }

  lemma PushEnds(p: Pool)
    requires !QuietProducer(p)
    ensures Ending(NextPlace(p)) <==> Ending(p.producer)
  {
    hide ChunkSize;
  }

  // ---- everything can be played -------------------------------------------------------

  /** A run in which the synthesizer delivers this PCM next, and the producer is through with it. */
  lemma PlaysOne(states: seq<Pool>, events: seq<Event>, pcm: Pcm) returns (longer: seq<Pool>, more: seq<Event>)
    requires Blameless(states, events) && LastOf(states).producer.Ready? && pcm != [] && |pcm| % 2 == 0
    ensures Blameless(longer, more) && LastOf(longer).producer.Ready? && LastOf(longer).asked == LastOf(states).asked + pcm
  {
    hide Cause;
    var p := LastOf(states);
    assert !Cause(p, Callback(pcm)) by { CallbackIsFine(p, pcm); }
    RunOn(states, events, Callback(pcm));
    var next := Step(p, Callback(pcm));
    assert next == p.(producer := Enter(pcm), asked := p.asked + pcm);
    longer, more := GetsThrough(states + [next], events + [Callback(pcm)]);
  }

  lemma CallbackIsFine(p: Pool, pcm: Pcm)
    requires |pcm| % 2 == 0
    ensures !Cause(p, Callback(pcm)) && !Cause(p, Finish)
  {
  }

  function Together(pcms: seq<Pcm>): Pcm { if pcms == [] then [] else Together(pcms[..|pcms| - 1]) + pcms[|pcms| - 1] }

  lemma {:induction false} PlaysSome(pcms: seq<Pcm>) returns (states: seq<Pool>, events: seq<Event>)
    requires forall pcm | pcm in pcms :: pcm != [] && |pcm| % 2 == 0
    ensures Blameless(states, events) && LastOf(states).producer.Ready? && LastOf(states).asked == Together(pcms)
    decreases |pcms|
  {
    if pcms == [] {
      states, events := [Initial()], [];
    } else {
      states, events := PlaysSome(pcms[..|pcms| - 1]);
      states, events := PlaysOne(states, events, pcms[|pcms| - 1]);
    }
  }

  /**
   * For all callbacks of whole samples there is a run, without any timeout or failure, in which both sides
   * come to their end with success and exactly what the synthesizer delivered was written to the speaker.
   */
  lemma PlaysEverything(pcms: seq<Pcm>) returns (states: seq<Pool>, events: seq<Event>)
    requires forall pcm | pcm in pcms :: pcm != [] && |pcm| % 2 == 0
    ensures IsRun(states, events) && LastOf(states).producer.Finished? && LastOf(states).consumer.Ended?
    ensures LastOf(states).status == 0 && LastOf(states).played == Together(pcms)
  {
    hide Cause, Inv;
    states, events := PlaysSome(pcms);
    var p := LastOf(states);
    CallbackIsFine(p, []);
    RunOn(states, events, Finish);
    var next := Step(p, Finish);
    assert next == p.(producerDone := true, producer := SendFinal);
    states, events := GetsThrough(states + [next], events + [Finish]);
    FailsOnlyForCause(states, events, |states| - 1);
    CleanFinishPlaysAll(states, events, |states| - 1);
  }
}
