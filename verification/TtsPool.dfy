/**
 * The TTS playback pool: one producer (the synthesis callback), one consumer
 * (the playback task), two queues of slots between them and an atomic count
 * of queued bytes.
 *
 * Every atomic access, queue operation and hardware call is one step; the
 * steps of the two sides interleave freely (sequential consistency). `asked`,
 * `produced` and `played` record the PCM the synthesizer delivered, the PCM put
 * into the play queue and the PCM written to the speaker.
 */
module TtsPool {
  import opened Common

  const SLOT_COUNT := 96
  const PLAY_QUEUE_DEPTH := SLOT_COUNT + 1
  const CHUNK_BYTES := 1024

  /** Status codes; 0 is success. Only these three are raised by the pool itself. */
  const INVALID_STATE := 0x103
  const INVALID_SIZE := 0x104
  const TIMEOUT := 0x107

  type Pcm = seq<bv8>

  /** The producer between two steps. `rest` is what the current callback still has to hand over. */
  datatype Producer =
    | Ready
    | Enter(rest: Pcm) | EnterCurrent(rest: Pcm)
    | Next(rest: Pcm) | NextCurrent(rest: Pcm)
    | Take(rest: Pcm)
    | Held(rest: Pcm, slot: nat) | HeldCurrent(rest: Pcm, slot: nat)
    | Fill(rest: Pcm, slot: nat)
    | Add(rest: Pcm, slot: nat)
    | Send(rest: Pcm, slot: nat)
    | Undo(slot: nat) | UndoRelease(slot: nat)
    | GiveBack(slot: nat) | GivenBack
    | Fail(code: int)
    | SendFinal | AwaitDone | Finished

  /** The consumer between two steps. `offset` counts the bytes of the slot already written. */
  datatype Consumer =
    | Head
    | Poll | PollStatus | PollCurrent
    | RemoveLoad(slot: nat) | RemoveSwap(slot: nat, loaded: nat)
    | Received(slot: nat)
    | Prebuffered(slot: nat) | PrebufferedCurrent(slot: nat)
    | Start(slot: nat)
    | Write(slot: nat, offset: nat) | WriteCurrent(slot: nat, offset: nat) | WriteOut(slot: nat, offset: nat)
    | Release(slot: nat, whole: bool)
    | Discard(slot: nat)
    | Released(whole: bool)
    | Stopping
    | Drain | DrainLoad(slot: nat) | DrainSwap(slot: nat, loaded: nat) | DrainRelease(slot: nat)
    | StopOutput | GiveDone | Ended

  datatype Pool = Pool(
    freeQueue: seq<nat>, playQueue: seq<Option<nat>>, pcm: seq<Pcm>, queued: nat,
    status: int, producerDone: bool, current: bool, done: bool,
    producer: Producer, consumer: Consumer, started: bool, ret: int,
    asked: Pcm, produced: Pcm, played: Pcm)

  /**
   * What may happen next. `expired` lets a wait on a queue or semaphore time out and the weak
   * compare-and-swap fail; `rebuffer` says that the queue starved; `code` is the hardware's answer.
   */
  datatype Event =
    | Callback(pcm: Pcm) | Finish | Supersede
    | ProducerStep(expired: bool)
    | ConsumerStep(expired: bool, rebuffer: bool, code: int)

  function Initial(): Pool {
    Pool(seq(SLOT_COUNT, i => i), [], seq(SLOT_COUNT, i => []), 0, 0, false, true, false,
         Ready, Head, false, 0, [], [], [])
  }

  /** The first failure is kept; code 0 raises none. */
  function WithFailure(p: Pool, code: int): Pool { p.(status := if p.status == 0 then code else p.status) }

  function At(p: Pool, slot: nat): Pcm { if slot < |p.pcm| then p.pcm[slot] else [] }

  /** The slot is wiped and goes back to the free queue, or is lost if that queue is full. */
  function Recycled(p: Pool, slot: nat): Pool {
    var wiped := if slot < |p.pcm| then p.(pcm := p.pcm[slot := []]) else p;
    if |p.freeQueue| < SLOT_COUNT then wiped.(freeQueue := p.freeQueue + [slot]) else wiped
  }

  /** The slot's bytes leave the count, which never goes below zero. */
  function Uncounted(p: Pool, slot: nat): Pool {
    p.(queued := if p.queued >= |At(p, slot)| then p.queued - |At(p, slot)| else p.queued)
  }

  function ChunkSize(rest: Pcm): nat {
    var n := if |rest| > CHUNK_BYTES then CHUNK_BYTES else |rest|;
    n - n % 2
  }

  /** The producer's tests: where it goes next, and the failure it raises (0: none). */
  function Decide(p: Pool, expired: bool): (Producer, int) {
    match p.producer
    case Enter(rest) => if p.status != 0 then (Ready, 0) else (EnterCurrent(rest), 0)
    case EnterCurrent(rest) =>
      if !p.current then (Fail(INVALID_STATE), 0)
      else if |rest| % 2 != 0 then (Fail(INVALID_SIZE), 0)
      else (Next(rest), 0)
    case Next(rest) => if rest == [] || p.status != 0 then (Ready, 0) else (NextCurrent(rest), 0)
    case NextCurrent(rest) =>
      if !p.current then (Fail(INVALID_STATE), 0)
      else if ChunkSize(rest) == 0 then (Fail(INVALID_SIZE), 0)
      else (Take(rest), 0)
    case Take(_) => if expired then (Fail(TIMEOUT), 0) else (p.producer, 0)
    case Held(rest, slot) => if p.status != 0 then (GiveBack(slot), 0) else (HeldCurrent(rest, slot), 0)
    case HeldCurrent(rest, slot) => if !p.current then (GiveBack(slot), 0) else (Fill(rest, slot), 0)
    case Send(_, slot) => if expired then (Undo(slot), 0) else (p.producer, 0)
    case GivenBack => if !p.current then (Fail(INVALID_STATE), 0) else (Ready, 0)
    case Fail(code) => (Ready, code)
    case SendFinal => if expired then (AwaitDone, TIMEOUT) else (SendFinal, 0)
    case AwaitDone => if p.done then (Finished, 0) else if expired then (AwaitDone, TIMEOUT) else (AwaitDone, 0)
    case _ => (p.producer, 0)
  }

  function StepProducer(p: Pool, expired: bool): Pool {
    if p.producer.Take? && p.freeQueue != [] then
      p.(freeQueue := p.freeQueue[1..], producer := Held(p.producer.rest, p.freeQueue[0]))
    else if p.producer.Fill? then
      var (rest, slot) := (p.producer.rest, p.producer.slot);
      (if slot < |p.pcm| then p.(pcm := p.pcm[slot := rest[..ChunkSize(rest)]]) else p).(producer := Add(rest, slot))
    else if p.producer.Add? then
      p.(queued := p.queued + |At(p, p.producer.slot)|, producer := Send(p.producer.rest, p.producer.slot))
    else if p.producer.Send? && |p.playQueue| < PLAY_QUEUE_DEPTH then
      var (rest, slot) := (p.producer.rest, p.producer.slot);
      p.(playQueue := p.playQueue + [Some(slot)], producer := Next(rest[ChunkSize(rest)..]),
         produced := p.produced + At(p, slot))
    else if p.producer.Undo? then
      Uncounted(p, p.producer.slot).(producer := UndoRelease(p.producer.slot))
    else if p.producer.UndoRelease? then Recycled(p, p.producer.slot).(producer := Fail(TIMEOUT))
    else if p.producer.GiveBack? then Recycled(p, p.producer.slot).(producer := GivenBack)
    else if p.producer.SendFinal? && |p.playQueue| < PLAY_QUEUE_DEPTH then
      p.(playQueue := p.playQueue + [None], producer := AwaitDone)
    else
      WithFailure(p, Decide(p, expired).1).(producer := Decide(p, expired).0)
  }

  /** The consumer's tests: where it goes next, and its own result code. */
  function Judge(p: Pool, expired: bool, rebuffer: bool, code: int): (Consumer, int) {
    match p.consumer
    case Head => if p.status != 0 then (Stopping, p.ret) else (Poll, p.ret)
    case Poll => if expired then (PollStatus, p.ret) else (Poll, p.ret)
    case PollStatus => if p.status != 0 then (Stopping, p.status) else (PollCurrent, p.ret)
    case PollCurrent => if !p.current then (Stopping, INVALID_STATE) else (Poll, p.ret)
    case RemoveLoad(slot) =>
      if At(p, slot) == [] then (Discard(slot), INVALID_STATE) else (RemoveSwap(slot, p.queued), p.ret)
    case RemoveSwap(slot, loaded) =>
      if loaded < |At(p, slot)| then (Discard(slot), INVALID_STATE) else (RemoveSwap(slot, p.queued), p.ret)
    case Received(slot) =>
      if !p.current then (Discard(slot), INVALID_STATE)
      else if !p.started || rebuffer then (Prebuffered(slot), p.ret)
      else (Write(slot, 0), p.ret)
    case Prebuffered(slot) =>
      if p.status != 0 then (Discard(slot), p.status) else (PrebufferedCurrent(slot), p.ret)
    case PrebufferedCurrent(slot) =>
      if !p.current then (Discard(slot), INVALID_STATE)
      else if p.started then (Write(slot, 0), p.ret)
      else (Start(slot), p.ret)
    case Start(slot) => if code != 0 then (Discard(slot), code) else (Write(slot, 0), p.ret)
    case Write(slot, offset) =>
      if offset >= |At(p, slot)| then (Release(slot, true), p.ret)
      else if p.status != 0 then (Release(slot, false), p.ret)
      else (WriteCurrent(slot, offset), p.ret)
    case WriteCurrent(slot, offset) =>
      if !p.current then (Release(slot, false), p.ret) else (WriteOut(slot, offset), p.ret)
    case WriteOut(slot, offset) =>
      if offset > |At(p, slot)| then (p.consumer, p.ret)
      else if ChunkSize(At(p, slot)[offset..]) == 0 then (Release(slot, false), INVALID_SIZE)
      else if code != 0 then (Release(slot, false), code)
      else (Write(slot, offset + ChunkSize(At(p, slot)[offset..])), p.ret)
    case Released(_) =>
      if p.ret != 0 then (Stopping, p.ret)
      else if !p.current then (Stopping, INVALID_STATE)
      else (Head, p.ret)
    case Drain => (StopOutput, p.ret)
    case DrainLoad(slot) =>
      if At(p, slot) == [] then (DrainRelease(slot), p.ret) else (DrainSwap(slot, p.queued), p.ret)
    case DrainSwap(slot, loaded) =>
      if loaded < |At(p, slot)| then (DrainRelease(slot), p.ret) else (DrainSwap(slot, p.queued), p.ret)
    case _ => (p.consumer, p.ret)
  }

  /** The compare-and-swap succeeds. */
  predicate Swaps(p: Pool, slot: nat, loaded: nat, expired: bool) {
    loaded >= |At(p, slot)| && p.queued == loaded && !expired
  }

  /** The head of the play queue goes to the consumer. */
  function Receive(p: Pool): Pool
    requires p.playQueue != []
  {
    var (head, polling) := (p.playQueue[0], p.consumer.Poll?);
    p.(playQueue := p.playQueue[1..],
       consumer := if head.None? then (if polling then Stopping else Drain)
                   else if polling then RemoveLoad(head.value)
                   else DrainLoad(head.value))
  }

  function Remove(p: Pool, slot: nat): Pool {
    Uncounted(p, slot).(consumer := if p.consumer.RemoveSwap? then Received(slot) else DrainRelease(slot))
  }

  /** The bytes from `offset` up to `end` of the slot go to the speaker. */
  function Output(p: Pool, slot: nat, offset: nat, end: nat): Pool {
    p.(played := p.played + (if offset <= end <= |At(p, slot)| then At(p, slot)[offset..end] else []),
       consumer := Write(slot, end))
  }

  /** Where the consumer goes after giving a slot back. */
  function AfterRelease(c: Consumer): Consumer {
    if c.Release? then Released(c.whole) else if c.Discard? then Stopping else Drain
  }

  /** The last steps: report the result, stop the output, tell the producer. */
  function Close(p: Pool, code: int): Pool {
    if p.consumer.Stopping? then WithFailure(p, p.ret).(consumer := Drain)
    else if p.consumer.StopOutput? then WithFailure(p, if p.started then code else 0).(consumer := GiveDone)
    else p.(done := true, consumer := Ended)
  }

  predicate Releases(c: Consumer) { c.Release? || c.Discard? || c.DrainRelease? }

  predicate Closes(c: Consumer) { c.Stopping? || c.StopOutput? || c.GiveDone? }

  function StepConsumer(p: Pool, expired: bool, rebuffer: bool, code: int): Pool {
    var c, judged := p.consumer, Judge(p, expired, rebuffer, code);
    if (c.Poll? || c.Drain?) && p.playQueue != [] then Receive(p)
    else if (c.RemoveSwap? || c.DrainSwap?) && Swaps(p, c.slot, c.loaded, expired) then Remove(p, c.slot)
    else if c.WriteOut? && judged.0.Write? then Output(p, c.slot, c.offset, judged.0.offset)
    else if Releases(c) then Recycled(p, c.slot).(consumer := AfterRelease(c))
    else if Closes(c) then Close(p, code)
    else p.(consumer := judged.0, ret := judged.1, started := p.started || (c.Start? && code == 0))
  }

  function Step(p: Pool, e: Event): Pool {
    match e
    case Callback(pcm) => if p.producer.Ready? && pcm != [] then p.(producer := Enter(pcm), asked := p.asked + pcm) else p
    case Finish => if p.producer.Ready? then p.(producerDone := true, producer := SendFinal) else p
    case Supersede => p.(current := false)
    case ProducerStep(expired) => StepProducer(p, expired)
    case ConsumerStep(expired, rebuffer, code) => StepConsumer(p, expired, rebuffer, code)
  }

  /** The i-th event takes the i-th state to the next one. */
  predicate Follows(states: seq<Pool>, events: seq<Event>, i: nat)
    requires i < |events| && |states| == |events| + 1
  {
    states[i + 1] == Step(states[i], events[i])
  }

  /** A run: any interleaving of the two sides' steps, callbacks, cancellation and timeouts. */
  predicate IsRun(states: seq<Pool>, events: seq<Event>) {
    && |states| == |events| + 1 && states[0] == Initial()
    && forall i {:trigger Follows(states, events, i)} | 0 <= i < |events| :: Follows(states, events, i)
  }

  // ---- what the queues hold ------------------------------------------------

  function Slots(queue: seq<Option<nat>>): seq<nat> {
    if queue == [] then []
    else (if queue[0].Some? then [queue[0].value] else []) + Slots(queue[1..])
  }

  function Contents(slots: seq<nat>, pcm: seq<Pcm>): Pcm {
    if slots == [] then []
    else (if slots[0] < |pcm| then pcm[slots[0]] else []) + Contents(slots[1..], pcm)
  }

  lemma {:induction false} SlotsAppend(queue: seq<Option<nat>>, last: Option<nat>)
    ensures Slots(queue + [last]) == Slots(queue) + (if last.Some? then [last.value] else [])
  {
    if queue == [] {
      assert (queue + [last])[1..] == [];
    } else {
      SlotsAppend(queue[1..], last);
      assert (queue + [last])[1..] == queue[1..] + [last];
    }
  }

  lemma {:induction false} ContentsAppend(slots: seq<nat>, last: nat, pcm: seq<Pcm>)
    requires last < |pcm|
    ensures Contents(slots + [last], pcm) == Contents(slots, pcm) + pcm[last]
  {
    if slots == [] {
      assert (slots + [last])[1..] == [];
    } else {
      ContentsAppend(slots[1..], last, pcm);
      assert (slots + [last])[1..] == slots[1..] + [last];
    }
  }

  lemma {:induction false} ContentsFrame(slots: seq<nat>, slot: nat, pcm: seq<Pcm>, chunk: Pcm)
    requires slot < |pcm| && slot !in slots
    ensures Contents(slots, pcm[slot := chunk]) == Contents(slots, pcm)
  {
    if slots != [] { ContentsFrame(slots[1..], slot, pcm, chunk); }
  }

  // ---- the invariant -------------------------------------------------------

  /** The slot a side holds outside both queues, if any. */
  function ProducerSlots(p: Producer): seq<nat> {
    match p
    case Held(_, slot) => [slot]
    case HeldCurrent(_, slot) => [slot]
    case Fill(_, slot) => [slot]
    case Add(_, slot) => [slot]
    case Send(_, slot) => [slot]
    case Undo(slot) => [slot]
    case UndoRelease(slot) => [slot]
    case GiveBack(slot) => [slot]
    case _ => []
  }

  function ConsumerSlots(c: Consumer): seq<nat> {
    match c
    case RemoveLoad(slot) => [slot]
    case RemoveSwap(slot, _) => [slot]
    case Received(slot) => [slot]
    case Prebuffered(slot) => [slot]
    case PrebufferedCurrent(slot) => [slot]
    case Start(slot) => [slot]
    case Write(slot, _) => [slot]
    case WriteCurrent(slot, _) => [slot]
    case WriteOut(slot, _) => [slot]
    case Release(slot, _) => [slot]
    case Discard(slot) => [slot]
    case DrainLoad(slot) => [slot]
    case DrainSwap(slot, _) => [slot]
    case DrainRelease(slot) => [slot]
    case _ => []
  }

  function Everywhere(p: Pool): seq<nat> {
    p.freeQueue + Slots(p.playQueue) + ProducerSlots(p.producer) + ConsumerSlots(p.consumer)
  }

  function Upto(n: nat): seq<nat> { seq(n, i => i) }

  /** No slot is lost and none is in two places. */
  ghost predicate Places(p: Pool) { multiset(Everywhere(p)) == multiset(Upto(SLOT_COUNT)) }

  predicate ChunkOk(chunk: Pcm) { 0 < |chunk| <= CHUNK_BYTES && |chunk| % 2 == 0 }

  /** The one count that is added before its slot is queued. */
  function PendingAdd(p: Pool): nat { if p.producer.Send? then |At(p, p.producer.slot)| else 0 }

  /** A received slot whose bytes are still counted. */
  function PendingRemove(p: Pool): nat {
    match p.consumer
    case RemoveLoad(slot) => |At(p, slot)|
    case RemoveSwap(slot, _) => |At(p, slot)|
    case DrainLoad(slot) => |At(p, slot)|
    case DrainSwap(slot, _) => |At(p, slot)|
    case _ => 0
  }

  predicate Account(p: Pool) {
    p.queued == |Contents(Slots(p.playQueue), p.pcm)| + PendingAdd(p) + PendingRemove(p)
  }

  predicate FinalSent(p: Producer) { p.AwaitDone? || p.Finished? }

  predicate QueueOk(p: Pool) {
    && |p.pcm| == SLOT_COUNT
    && (forall i | 0 <= i < |p.playQueue| && p.playQueue[i].None? :: i == |p.playQueue| - 1 && FinalSent(p.producer))
    && (forall slot | slot in Slots(p.playQueue) :: ChunkOk(At(p, slot)))
  }

  /** The producer hands over exactly what it was given, unless something failed. */
  predicate ProducerOk(p: Pool) {
    match p.producer
    case Ready => p.status == 0 ==> p.produced == p.asked
    case Enter(rest) => rest != [] && (p.status == 0 ==> p.produced + rest == p.asked)
    case EnterCurrent(rest) => rest != [] && (p.status == 0 ==> p.produced + rest == p.asked)
    case Next(rest) => |rest| % 2 == 0 && (p.status == 0 ==> p.produced + rest == p.asked)
    case NextCurrent(rest) => rest != [] && |rest| % 2 == 0 && (p.status == 0 ==> p.produced + rest == p.asked)
    case Take(rest) => rest != [] && |rest| % 2 == 0 && (p.status == 0 ==> p.produced + rest == p.asked)
    case Held(rest, _) => rest != [] && |rest| % 2 == 0 && (p.status == 0 ==> p.produced + rest == p.asked)
    case HeldCurrent(rest, _) => rest != [] && |rest| % 2 == 0 && (p.status == 0 ==> p.produced + rest == p.asked)
    case Fill(rest, _) => rest != [] && |rest| % 2 == 0 && (p.status == 0 ==> p.produced + rest == p.asked)
    case Add(rest, slot) =>
      && rest != [] && |rest| % 2 == 0 && (p.status == 0 ==> p.produced + rest == p.asked)
      && At(p, slot) == rest[..ChunkSize(rest)]
    case Send(rest, slot) =>
      && rest != [] && |rest| % 2 == 0 && (p.status == 0 ==> p.produced + rest == p.asked)
      && At(p, slot) == rest[..ChunkSize(rest)]
    case Undo(_) => false
    case UndoRelease(_) => false
    case GiveBack(_) => p.status != 0 || !p.current
    case GivenBack => p.status != 0 || !p.current
    case Fail(code) => code != 0
    case SendFinal => p.status == 0 ==> p.produced == p.asked
    case AwaitDone => p.status == 0 ==> p.produced == p.asked
    case Finished => p.done && (p.status == 0 ==> p.produced == p.asked)
  }

  /** What the consumer holds and has not written yet. */
  function Remaining(p: Pool): Pcm {
    match p.consumer
    case Write(slot, offset) => if offset <= |At(p, slot)| then At(p, slot)[offset..] else []
    case WriteCurrent(slot, offset) => if offset <= |At(p, slot)| then At(p, slot)[offset..] else []
    case WriteOut(slot, offset) => if offset <= |At(p, slot)| then At(p, slot)[offset..] else []
    case RemoveLoad(slot) => At(p, slot)
    case RemoveSwap(slot, _) => At(p, slot)
    case Received(slot) => At(p, slot)
    case Prebuffered(slot) => At(p, slot)
    case PrebufferedCurrent(slot) => At(p, slot)
    case Start(slot) => At(p, slot)
    case _ => []
  }

  /** Nothing was dropped so far: written, held and queued bytes make up what was produced. */
  predicate Intact(p: Pool) {
    p.produced == p.played + Remaining(p) + Contents(Slots(p.playQueue), p.pcm)
  }

  /** The final marker was received and everything before it was written. */
  predicate Clean(p: Pool) { p.playQueue == [] && p.played == p.produced && FinalSent(p.producer) }

  predicate WriteOk(p: Pool, slot: nat, offset: nat) {
    p.ret == 0 && Intact(p) && ChunkOk(At(p, slot)) && offset <= |At(p, slot)| && offset % 2 == 0
  }

  predicate ConsumerOk(p: Pool) {
    match p.consumer
    case Head => p.ret == 0 && (p.status == 0 ==> Intact(p))
    case Poll => p.ret == 0 && Intact(p)
    case PollStatus => p.ret == 0 && Intact(p)
    case PollCurrent => p.ret == 0 && Intact(p)
    case RemoveLoad(slot) => WriteOk(p, slot, 0)
    case RemoveSwap(slot, loaded) => WriteOk(p, slot, 0) && loaded >= |At(p, slot)|
    case Received(slot) => WriteOk(p, slot, 0)
    case Prebuffered(slot) => WriteOk(p, slot, 0)
    case PrebufferedCurrent(slot) => WriteOk(p, slot, 0)
    case Start(slot) => WriteOk(p, slot, 0)
    case Write(slot, offset) => WriteOk(p, slot, offset)
    case WriteCurrent(slot, offset) => WriteOk(p, slot, offset) && offset < |At(p, slot)|
    case WriteOut(slot, offset) => WriteOk(p, slot, offset) && offset < |At(p, slot)|
    case Release(_, whole) => if whole then p.ret == 0 && Intact(p) else p.status != 0 || !p.current || p.ret != 0
    case Released(whole) => if whole then p.ret == 0 && Intact(p) else p.status != 0 || !p.current || p.ret != 0
    case Discard(_) => p.ret != 0
    case Stopping => p.ret == 0 && p.status == 0 ==> Clean(p)
    case DrainLoad(slot) => ChunkOk(At(p, slot)) && (p.status == 0 ==> Clean(p))
    case DrainSwap(slot, loaded) =>
      ChunkOk(At(p, slot)) && loaded >= |At(p, slot)| && (p.status == 0 ==> Clean(p))
    case _ => p.status == 0 ==> Clean(p)
  }

  ghost predicate Inv(p: Pool) {
    && Places(p) && Account(p) && QueueOk(p) && (p.done <==> p.consumer.Ended?)
    && p.played <= p.produced && ProducerOk(p) && ConsumerOk(p)
  }

  // ---- counting slots ------------------------------------------------------

  lemma {:induction false} UptoOnce(n: nat, x: nat)
    ensures multiset(Upto(n))[x] == if x < n then 1 else 0
  {
    if n > 0 {
      UptoOnce(n - 1, x);
      assert Upto(n) == Upto(n - 1) + [n - 1];
    }
  }

  /** All 96 slots are accounted for, so neither queue can be full when a slot is put into it. */
  lemma PlacesFacts(p: Pool)
    requires Places(p)
    ensures |p.freeQueue| + |Slots(p.playQueue)| + |ProducerSlots(p.producer)| + |ConsumerSlots(p.consumer)| == SLOT_COUNT
    ensures forall slot | slot in Everywhere(p) :: slot < SLOT_COUNT
  {
    assert |Everywhere(p)| == |multiset(Everywhere(p))| == |multiset(Upto(SLOT_COUNT))| == SLOT_COUNT;
    forall slot | slot in Everywhere(p) ensures slot < SLOT_COUNT {
      UptoOnce(SLOT_COUNT, slot);
      assert slot in multiset(Everywhere(p));
    }
  }

  /** No slot is in two places. */
  lemma OnePlace(p: Pool, slot: nat)
    requires Places(p)
    ensures slot in ProducerSlots(p.producer) ==>
      slot < SLOT_COUNT && slot !in Slots(p.playQueue) && slot !in ConsumerSlots(p.consumer) && slot !in p.freeQueue
    ensures slot in ConsumerSlots(p.consumer) ==>
      slot < SLOT_COUNT && slot !in Slots(p.playQueue) && slot !in p.freeQueue
    ensures slot in p.freeQueue ==> slot < SLOT_COUNT && slot !in Slots(p.playQueue)
    ensures slot in Slots(p.playQueue) ==> slot < SLOT_COUNT
  {
    var free, play := multiset(p.freeQueue), multiset(Slots(p.playQueue));
    var prod, cons := multiset(ProducerSlots(p.producer)), multiset(ConsumerSlots(p.consumer));
    assert multiset(Everywhere(p)) == free + play + prod + cons;
    UptoOnce(SLOT_COUNT, slot);
    assert free[slot] + play[slot] + prod[slot] + cons[slot] == if slot < SLOT_COUNT then 1 else 0;
    hide ProducerSlots, ConsumerSlots;
    assert slot in ProducerSlots(p.producer) <==> prod[slot] > 0;
    assert slot in ConsumerSlots(p.consumer) <==> cons[slot] > 0;
    assert slot in Slots(p.playQueue) <==> play[slot] > 0;
    assert slot in p.freeQueue <==> free[slot] > 0;
  }

  lemma {:induction false} SlotsLength(queue: seq<Option<nat>>)
    requires forall i | 0 <= i < |queue| && queue[i].None? :: i == |queue| - 1
    ensures |Slots(queue)| <= |queue| <= |Slots(queue)| + 1
    ensures (forall i | 0 <= i < |queue| :: queue[i].Some?) ==> |queue| == |Slots(queue)|
  {
    if queue != [] {
      SlotsLength(queue[1..]);
      if queue[0].None? { assert |queue| == 1; }
    }
  }

  lemma InitialInv()
    ensures Inv(Initial())
  {
    assert Initial().freeQueue == Upto(SLOT_COUNT);
    assert Everywhere(Initial()) == Upto(SLOT_COUNT);
  }

  // ---- every step keeps it -------------------------------------------------

  predicate StatusGrows(p: Pool, q: Pool) { q.status == p.status || q.status != 0 }

  predicate SameSlots(slots: seq<nat>, p: Pool, q: Pool) {
    forall slot | slot in slots :: At(q, slot) == At(p, slot)
  }

  /** A step of the producer leaves the consumer's side of the invariant standing. */
  lemma ConsumerStands(p: Pool, q: Pool)
    requires ConsumerOk(p)
    requires q.consumer == p.consumer && q.ret == p.ret && q.played == p.played
    requires StatusGrows(p, q) && (q.current ==> p.current)
    requires SameSlots(ConsumerSlots(p.consumer), p, q)
    requires Intact(p) ==> Intact(q)
    requires Clean(p) && q.status == 0 ==> Clean(q)
    ensures ConsumerOk(q)
    ensures PendingRemove(q) == PendingRemove(p)
  {
    hide Intact, Clean;
  }

  /** A step of the consumer leaves the producer's side standing. */
  lemma ProducerStands(p: Pool, q: Pool)
    requires ProducerOk(p)
    requires q.producer == p.producer && q.asked == p.asked && q.produced == p.produced
    requires StatusGrows(p, q) && (q.current ==> p.current) && (p.done ==> q.done)
    requires SameSlots(ProducerSlots(p.producer), p, q)
    ensures ProducerOk(q)
    ensures PendingAdd(q) == PendingAdd(p)
  {
    hide ChunkSize;
  }

  /** The producer's steps that move no slot and change no count. */
  predicate QuietProducer(p: Pool) {
    !p.producer.Fill? && !p.producer.Add? && !p.producer.Undo? && !p.producer.UndoRelease? && !p.producer.GiveBack?
    && (p.producer.Take? ==> p.freeQueue == []) && !p.producer.Send? && !p.producer.SendFinal?
  }

  lemma DecideOk(p: Pool, expired: bool)
    requires ProducerOk(p) && QuietProducer(p) && (p.done <==> p.consumer.Ended?)
    ensures var (next, code) := Decide(p, expired);
      && ProducerOk(WithFailure(p, code).(producer := next)) && ProducerSlots(next) == ProducerSlots(p.producer)
      && !next.Send? && (FinalSent(p.producer) ==> FinalSent(next))
  {
  }

  /** Only the two sides' positions and the status moved. */
  predicate SameQueues(p: Pool, q: Pool) {
    && q.freeQueue == p.freeQueue && q.playQueue == p.playQueue && q.pcm == p.pcm && q.queued == p.queued
    && ProducerSlots(q.producer) == ProducerSlots(p.producer) && ConsumerSlots(q.consumer) == ConsumerSlots(p.consumer)
  }

  lemma SamePlaces(p: Pool, q: Pool)
    requires Places(p) && SameQueues(p, q)
    ensures Places(q)
  {
    hide ProducerSlots, ConsumerSlots, Slots;
  }

  lemma SameAccount(p: Pool, q: Pool)
    requires Account(p) && SameQueues(p, q) && PendingAdd(p) == PendingAdd(q) && PendingRemove(p) == PendingRemove(q)
    ensures Account(q)
  {
    hide PendingAdd, PendingRemove, Contents, Slots, ProducerSlots, ConsumerSlots;
  }

  lemma SameIntact(p: Pool, q: Pool)
    requires SameQueues(p, q) && q.consumer == p.consumer && q.played == p.played && q.produced == p.produced
    ensures Intact(q) <==> Intact(p)
  {
    hide Contents, Slots, ProducerSlots, ConsumerSlots;
  }

  lemma SameQueue(p: Pool, q: Pool)
    requires QueueOk(p) && q.playQueue == p.playQueue && q.pcm == p.pcm
    requires FinalSent(p.producer) ==> FinalSent(q.producer)
    ensures QueueOk(q)
  {
    hide Slots, ChunkOk;
  }

  lemma ProducerQuietKeeps(p: Pool, expired: bool)
    requires Inv(p) && QuietProducer(p)
    ensures Inv(StepProducer(p, expired))
  {
    hide Decide, ProducerOk, ConsumerOk, Places, Account, QueueOk, Intact, Clean, ProducerSlots, ConsumerSlots, PendingRemove;
    var q := StepProducer(p, expired);
    DecideOk(p, expired);
    SameIntact(p, q);
    CleanStands(p, q);
    ConsumerStands(p, q);
    SamePlaces(p, q);
    SameAccount(p, q);
    SameQueue(p, q);
  }

  lemma CleanStands(p: Pool, q: Pool)
    requires q.playQueue == p.playQueue && q.played == p.played && q.produced == p.produced
    requires FinalSent(p.producer) ==> FinalSent(q.producer)
    ensures Clean(p) ==> Clean(q)
  {
  }

  lemma MovedPlaces(p: Pool, q: Pool)
    requires Places(p) && multiset(Everywhere(q)) == multiset(Everywhere(p))
    ensures Places(q)
  {
  }

  lemma AccountStands(p: Pool, q: Pool)
    requires Account(p) && q.queued + PendingAdd(p) + PendingRemove(p) == p.queued + PendingAdd(q) + PendingRemove(q)
    requires q.playQueue == p.playQueue && Contents(Slots(p.playQueue), q.pcm) == Contents(Slots(p.playQueue), p.pcm)
    ensures Account(q)
  {
  }

  lemma RemainingFrame(p: Pool, q: Pool)
    requires q.consumer == p.consumer && SameSlots(ConsumerSlots(p.consumer), p, q)
    ensures Remaining(q) == Remaining(p)
  {
  }

  /** The play queue and what it holds are untouched. */
  predicate QueueStands(p: Pool, q: Pool) {
    && q.playQueue == p.playQueue && Contents(Slots(p.playQueue), q.pcm) == Contents(Slots(p.playQueue), p.pcm)
    && q.produced == p.produced && q.status == p.status && q.current == p.current
  }

  lemma ConsumerUndisturbed(p: Pool, q: Pool)
    requires ConsumerOk(p) && QueueStands(p, q)
    requires q.consumer == p.consumer && q.ret == p.ret && q.played == p.played
    requires SameSlots(ConsumerSlots(p.consumer), p, q)
    requires FinalSent(p.producer) ==> FinalSent(q.producer)
    ensures ConsumerOk(q) && PendingRemove(q) == PendingRemove(p)
  {
    RemainingFrame(p, q);
    hide ConsumerOk, ConsumerSlots, Remaining, PendingRemove, Slots, Contents;
    ConsumerStands(p, q);
  }

  /** A producer step that leaves the play queue alone. */
  lemma ProducerMoves(p: Pool, q: Pool)
    requires Inv(p) && QueueStands(p, q) && QueueOk(q) && ProducerOk(q)
    requires q.consumer == p.consumer && q.ret == p.ret && q.played == p.played && q.done == p.done
    requires SameSlots(ConsumerSlots(p.consumer), p, q)
    requires FinalSent(p.producer) ==> FinalSent(q.producer)
    requires multiset(Everywhere(q)) == multiset(Everywhere(p))
    requires q.queued + PendingAdd(p) == p.queued + PendingAdd(q)
    ensures Inv(q)
  {
    hide ConsumerOk, ConsumerSlots, ProducerOk, PendingAdd, PendingRemove, Slots, Contents, QueueOk, Places, Account, Everywhere;
    MovedPlaces(p, q);
    ConsumerUndisturbed(p, q);
    AccountStands(p, q);
  }

  lemma TakeKeeps(p: Pool, expired: bool)
    requires Inv(p) && p.producer.Take? && p.freeQueue != []
    ensures Inv(StepProducer(p, expired))
  {
    hide Decide, ConsumerOk, Account, ConsumerSlots, PendingRemove, Slots, Contents, ChunkSize;
    var q := StepProducer(p, expired);
    assert p.freeQueue == [p.freeQueue[0]] + q.freeQueue;
    ProducerMoves(p, q);
  }

  lemma AddOk(p: Pool, expired: bool)
    requires ProducerOk(p) && p.producer.Add?
    ensures ProducerOk(StepProducer(p, expired))
  {
    hide Decide;
  }

  lemma AddKeeps(p: Pool, expired: bool)
    requires Inv(p) && p.producer.Add?
    ensures Inv(StepProducer(p, expired))
  {
    hide Decide, ProducerOk, ConsumerOk, Account, ConsumerSlots, PendingRemove, Slots, Contents, ChunkSize;
    var q := StepProducer(p, expired);
    AddOk(p, expired);
    assert Everywhere(q) == Everywhere(p);
    SameQueue(p, q);
    ProducerMoves(p, q);
  }

  lemma OtherSlots(p: Pool, slot: nat, chunk: Pcm)
    requires slot < |p.pcm| && slot !in Slots(p.playQueue) && QueueOk(p)
    ensures QueueOk(p.(pcm := p.pcm[slot := chunk]))
    ensures Contents(Slots(p.playQueue), p.pcm[slot := chunk]) == Contents(Slots(p.playQueue), p.pcm)
  {
    ContentsFrame(Slots(p.playQueue), slot, p.pcm, chunk);
    hide Slots, Contents, ChunkOk;
  }

  lemma FillKeeps(p: Pool, expired: bool)
    requires Inv(p) && p.producer.Fill?
    ensures Inv(StepProducer(p, expired))
  {
    hide Decide, ConsumerOk, Account, ConsumerSlots, PendingRemove, Slots, Contents;
    var q, slot := StepProducer(p, expired), p.producer.slot;
    OnePlace(p, slot);
    OtherSlots(p, slot, p.producer.rest[..ChunkSize(p.producer.rest)]);
    assert Everywhere(q) == Everywhere(p);
    ProducerMoves(p, q);
  }

  lemma GiveBackKeeps(p: Pool, expired: bool)
    requires Inv(p) && p.producer.GiveBack?
    ensures |p.freeQueue| < SLOT_COUNT && Inv(StepProducer(p, expired))
  {
    hide Decide, ConsumerOk, Account, ConsumerSlots, PendingRemove, Slots, Contents, ChunkSize;
    var q, slot := StepProducer(p, expired), p.producer.slot;
    OnePlace(p, slot);
    PlacesFacts(p);
    OtherSlots(p, slot, []);
    ProducerMoves(p, q);
  }

  lemma QueueGrows(p: Pool, last: Option<nat>, next: Producer)
    requires QueueOk(p) && !FinalSent(p.producer)
    requires if last.Some? then ChunkOk(At(p, last.value)) else FinalSent(next)
    ensures QueueOk(p.(playQueue := p.playQueue + [last], producer := next))
  {
    SlotsAppend(p.playQueue, last);
    hide Slots, ChunkOk;
  }

  lemma SendFits(p: Pool)
    requires Inv(p) && (p.producer.Send? || p.producer.SendFinal?)
    ensures |p.playQueue| < PLAY_QUEUE_DEPTH
  {
    PlacesFacts(p);
    hide Slots, ProducerOk, ConsumerOk, Places, Account;
    SlotsLength(p.playQueue);
  }

  lemma SendContents(p: Pool, slot: nat, next: Producer)
    requires slot < |p.pcm|
    ensures var q := p.(playQueue := p.playQueue + [Some(slot)], producer := next, produced := p.produced + At(p, slot));
      && Slots(q.playQueue) == Slots(p.playQueue) + [slot]
      && Contents(Slots(q.playQueue), q.pcm) == Contents(Slots(p.playQueue), p.pcm) + At(p, slot)
      && (Intact(p) ==> Intact(q))
  {
    SlotsAppend(p.playQueue, Some(slot));
    ContentsAppend(Slots(p.playQueue), slot, p.pcm);
  }

  lemma SentConsumer(p: Pool, slot: nat, next: Producer)
    requires ConsumerOk(p) && slot < |p.pcm| && !FinalSent(p.producer)
    ensures var q := p.(playQueue := p.playQueue + [Some(slot)], producer := next, produced := p.produced + At(p, slot));
      ConsumerOk(q) && PendingRemove(q) == PendingRemove(p)
  {
    SendContents(p, slot, next);
    hide ConsumerOk, ConsumerSlots, PendingRemove, Slots, Contents, Intact;
    ConsumerStands(p, p.(playQueue := p.playQueue + [Some(slot)], producer := next, produced := p.produced + At(p, slot)));
  }

  lemma SendOk(p: Pool, expired: bool)
    requires ProducerOk(p) && p.producer.Send? && |p.playQueue| < PLAY_QUEUE_DEPTH
    ensures ProducerOk(StepProducer(p, expired)) && ChunkOk(At(p, p.producer.slot))
  {
    hide Decide;
    assert p.producer.rest == At(p, p.producer.slot) + p.producer.rest[ChunkSize(p.producer.rest)..];
  }

  lemma SendPlaces(p: Pool, q: Pool)
    requires Places(p) && p.producer.Send? && q.producer.Next? && q.consumer == p.consumer
    requires q.freeQueue == p.freeQueue && Slots(q.playQueue) == Slots(p.playQueue) + [p.producer.slot]
    ensures Places(q)
  {
    hide ConsumerSlots, Slots;
    assert multiset(Everywhere(q)) == multiset(Everywhere(p));
  }

  lemma SendKeeps(p: Pool, expired: bool)
    requires Inv(p) && p.producer.Send?
    ensures Inv(StepProducer(p, expired))
  {
    hide Decide, ProducerOk, ConsumerOk, ConsumerSlots, PendingRemove, Slots, Contents, ChunkOk, ChunkSize;
    var q, slot := StepProducer(p, expired), p.producer.slot;
    OnePlace(p, slot);
    SendFits(p);
    SendOk(p, expired);
    SendContents(p, slot, q.producer);
    SentConsumer(p, slot, q.producer);
    QueueGrows(p, Some(slot), q.producer);
    SendPlaces(p, q);
  }

  lemma SendFinalConsumer(p: Pool)
    requires ConsumerOk(p) && !FinalSent(p.producer)
    ensures var q := p.(playQueue := p.playQueue + [None], producer := AwaitDone);
      && Slots(q.playQueue) == Slots(p.playQueue) && ConsumerOk(q) && PendingRemove(q) == PendingRemove(p)
  {
    var q := p.(playQueue := p.playQueue + [None], producer := AwaitDone);
    SlotsAppend(p.playQueue, None);
    assert Slots(q.playQueue) == Slots(p.playQueue);
    RemainingFrame(p, q);
    hide ConsumerOk, ConsumerSlots, PendingRemove, Remaining, Slots, Contents;
    ConsumerStands(p, q);
  }

  lemma SendFinalKeeps(p: Pool, expired: bool)
    requires Inv(p) && p.producer.SendFinal?
    ensures Inv(StepProducer(p, expired))
  {
    hide Decide, ConsumerOk, ConsumerSlots, PendingRemove, Slots, Contents, ChunkOk, ChunkSize;
    var q := StepProducer(p, expired);
    SendFits(p);
    SendFinalConsumer(p);
    QueueGrows(p, None, q.producer);
    assert Everywhere(q) == Everywhere(p);
    MovedPlaces(p, q);
  }

  lemma ProducerKeeps(p: Pool, expired: bool)
    requires Inv(p)
    ensures Inv(StepProducer(p, expired))
  {
    assert !p.producer.Undo? && !p.producer.UndoRelease?;
    hide Inv, StepProducer;
    match p.producer
    case Take(_) => if p.freeQueue != [] { TakeKeeps(p, expired); } else { ProducerQuietKeeps(p, expired); }
    case Fill(_, _) => FillKeeps(p, expired);
    case Add(_, _) => AddKeeps(p, expired);
    case Send(_, _) => SendKeeps(p, expired);
    case GiveBack(_) => GiveBackKeeps(p, expired);
    case SendFinal => SendFinalKeeps(p, expired);
    case _ => ProducerQuietKeeps(p, expired);
  }

  // The consumer's steps.

  /** The consumer's steps that move no slot, write nothing and raise no failure. */
  predicate QuietConsumer(p: Pool, expired: bool, rebuffer: bool, code: int) {
    var c := p.consumer;
    && ((c.Poll? || c.Drain?) ==> p.playQueue == [])
    && ((c.RemoveSwap? || c.DrainSwap?) ==> !Swaps(p, c.slot, c.loaded, expired))
    && (c.WriteOut? ==> !Judge(p, expired, rebuffer, code).0.Write?)
    && !Releases(c) && !Closes(c)
  }

  /** What a quiet step must establish. */
  predicate JudgedOk(p: Pool, next: Consumer, ret: int, started: bool) {
    var q := p.(consumer := next, ret := ret, started := started);
    && ConsumerOk(q) && ConsumerSlots(next) == ConsumerSlots(p.consumer) && PendingRemove(q) == PendingRemove(p)
    && (p.consumer.Ended? <==> next.Ended?)
  }

  predicate Writes(c: Consumer) { c.Write? || c.WriteCurrent? || c.WriteOut? || c.Start? || c.PrebufferedCurrent? }

  predicate Receives(c: Consumer) { c.RemoveLoad? || c.RemoveSwap? || c.Received? || c.Prebuffered? }

  lemma JudgeWrites(p: Pool, expired: bool, rebuffer: bool, code: int, started: bool)
    requires ConsumerOk(p) && QuietConsumer(p, expired, rebuffer, code) && Writes(p.consumer)
    ensures var (next, ret) := Judge(p, expired, rebuffer, code); JudgedOk(p, next, ret, started)
  {
    hide Slots, Contents;
  }

  lemma JudgeReceives(p: Pool, expired: bool, rebuffer: bool, code: int, started: bool)
    requires ConsumerOk(p) && QuietConsumer(p, expired, rebuffer, code) && PendingRemove(p) <= p.queued
    requires Receives(p.consumer)
    ensures var (next, ret) := Judge(p, expired, rebuffer, code); JudgedOk(p, next, ret, started)
  {
    hide Slots, Contents;
  }

  lemma JudgeRest(p: Pool, expired: bool, rebuffer: bool, code: int, started: bool)
    requires ConsumerOk(p) && QuietConsumer(p, expired, rebuffer, code) && PendingRemove(p) <= p.queued
    requires !Writes(p.consumer) && !Receives(p.consumer)
    ensures var (next, ret) := Judge(p, expired, rebuffer, code); JudgedOk(p, next, ret, started)
  {
    hide Slots, Contents, ChunkSize;
  }

  lemma JudgeOk(p: Pool, expired: bool, rebuffer: bool, code: int, started: bool)
    requires ConsumerOk(p) && QuietConsumer(p, expired, rebuffer, code) && PendingRemove(p) <= p.queued
    ensures var (next, ret) := Judge(p, expired, rebuffer, code); JudgedOk(p, next, ret, started)
  {
    hide Judge, JudgedOk, ConsumerOk, PendingRemove, QuietConsumer;
    if Writes(p.consumer) {
      JudgeWrites(p, expired, rebuffer, code, started);
    } else if Receives(p.consumer) {
      JudgeReceives(p, expired, rebuffer, code, started);
    } else {
      JudgeRest(p, expired, rebuffer, code, started);
    }
  }

  lemma ConsumerQuietKeeps(p: Pool, expired: bool, rebuffer: bool, code: int)
    requires Inv(p) && QuietConsumer(p, expired, rebuffer, code)
    ensures Inv(StepConsumer(p, expired, rebuffer, code))
  {
    hide Judge, ProducerOk, ConsumerOk, Places, QueueOk, ProducerSlots, ConsumerSlots, PendingAdd, PendingRemove, Swaps,
         Slots, Contents;
    var q := StepConsumer(p, expired, rebuffer, code);
    JudgeOk(p, expired, rebuffer, code, q.started);
    ProducerStands(p, q);
    SamePlaces(p, q);
    SameAccount(p, q);
    SameQueue(p, q);
  }

  /** A consumer step: what it must establish besides its own side. */
  lemma ConsumerMoves(p: Pool, q: Pool)
    requires Inv(p) && QueueOk(q) && ConsumerOk(q) && Account(q)
    requires q.producer == p.producer && q.asked == p.asked && q.produced == p.produced && q.played <= q.produced
    requires StatusGrows(p, q) && q.current == p.current && (q.done <==> q.consumer.Ended?) && (p.done ==> q.done)
    requires SameSlots(ProducerSlots(p.producer), p, q)
    requires multiset(Everywhere(q)) == multiset(Everywhere(p))
    ensures Inv(q)
  {
    hide ConsumerOk, ConsumerSlots, ProducerSlots, ProducerOk, PendingAdd, PendingRemove, Slots, Contents, QueueOk,
         Places, Account, Everywhere;
    MovedPlaces(p, q);
    ProducerStands(p, q);
  }

  lemma FirstQueued(queue: seq<Option<nat>>, pcm: seq<Pcm>)
    requires queue != [] && queue[0].Some? && queue[0].value < |pcm|
    ensures Slots(queue) == [queue[0].value] + Slots(queue[1..])
    ensures Contents(Slots(queue), pcm) == pcm[queue[0].value] + Contents(Slots(queue[1..]), pcm)
  {
    assert Slots(queue)[1..] == Slots(queue[1..]);
  }

  lemma PendingAddStands(p: Pool, q: Pool)
    requires q.producer == p.producer && SameSlots(ProducerSlots(p.producer), p, q)
    ensures PendingAdd(q) == PendingAdd(p)
  {
  }

  lemma ReceiveConsumer(p: Pool)
    requires ConsumerOk(p) && (p.consumer.Poll? || p.consumer.Drain?) && p.playQueue != [] && p.playQueue[0].Some?
    requires p.playQueue[0].value < |p.pcm| && ChunkOk(At(p, p.playQueue[0].value))
    ensures ConsumerOk(Receive(p)) && (Account(p) ==> Account(Receive(p)))
  {
    FirstQueued(p.playQueue, p.pcm);
    hide Slots, Contents, ChunkOk;
  }

  lemma FinalConsumer(p: Pool)
    requires ConsumerOk(p) && (p.consumer.Poll? || p.consumer.Drain?) && p.playQueue == [None] && FinalSent(p.producer)
    ensures ConsumerOk(Receive(p)) && (Account(p) ==> Account(Receive(p)))
  {
    assert Slots(p.playQueue) == [];
  }

  /** Moving some slots from one of the four places to another changes no count. */
  lemma Shuffle(a: seq<nat>, b: seq<nat>, c: seq<nat>, x: seq<nat>)
    ensures multiset(a + (x + b) + c + []) == multiset(a + b + c + x)
    ensures multiset((a + x) + b + c + []) == multiset(a + b + c + x)
  {
  }

  lemma ReceivePlaces(p: Pool)
    requires (p.consumer.Poll? || p.consumer.Drain?) && p.playQueue != []
    ensures multiset(Everywhere(Receive(p))) == multiset(Everywhere(p))
  {
    var q := Receive(p);
    var x := ConsumerSlots(q.consumer);
    assert Slots(p.playQueue) == x + Slots(q.playQueue) && ConsumerSlots(p.consumer) == [];
    hide ConsumerSlots, ProducerSlots, Slots;
    Shuffle(p.freeQueue, Slots(q.playQueue), ProducerSlots(p.producer), x);
  }

  lemma QueueShrinks(p: Pool)
    requires QueueOk(p) && p.playQueue != []
    ensures QueueOk(Receive(p))
  {
    hide ChunkOk;
    assert forall slot | slot in Slots(Receive(p).playQueue) :: slot in Slots(p.playQueue);
  }

  /** Receiving touches the play queue and the consumer, nothing else. */
  lemma ReceiveLeaves(p: Pool)
    requires (p.consumer.Poll? || p.consumer.Drain?) && p.playQueue != []
    ensures var q := Receive(p);
      && q == p.(playQueue := q.playQueue, consumer := q.consumer) && !q.consumer.Ended? && StatusGrows(p, q)
      && SameSlots(ProducerSlots(p.producer), p, q)
  {
  }

  lemma ReceiveHead(p: Pool)
    requires Inv(p) && (p.consumer.Poll? || p.consumer.Drain?) && p.playQueue != []
    ensures ConsumerOk(Receive(p)) && (Account(p) ==> Account(Receive(p)))
  {
    if p.playQueue[0].Some? {
      hide ConsumerOk, ProducerOk, Account, Receive;
      assert p.playQueue[0].value in Slots(p.playQueue);
      OnePlace(p, p.playQueue[0].value);
      ReceiveConsumer(p);
    } else {
      hide ConsumerOk, Account, Receive;
      assert p.playQueue == [None];
      FinalConsumer(p);
    }
  }

  /**
   * Taking a slot off the play queue moves it, its bytes and its count to the consumer. Only the
   * final marker ends a run cleanly: it is last, and everything before it was written.
   */
  lemma ReceiveKeeps(p: Pool)
    requires Inv(p) && (p.consumer.Poll? || p.consumer.Drain?) && p.playQueue != []
    ensures Inv(Receive(p))
  {
    hide ProducerOk, ConsumerOk, ProducerSlots, Slots, QueueOk, Account, Everywhere, Places, SameSlots, Receive;
    ReceiveHead(p);
    QueueShrinks(p);
    ReceivePlaces(p);
    ReceiveLeaves(p);
    ConsumerMoves(p, Receive(p));
  }

  lemma RemoveConsumer(p: Pool)
    requires ConsumerOk(p) && (p.consumer.RemoveSwap? || p.consumer.DrainSwap?)
    ensures ConsumerOk(Remove(p, p.consumer.slot))
    ensures ConsumerSlots(Remove(p, p.consumer.slot).consumer) == ConsumerSlots(p.consumer)
    ensures PendingRemove(p) == |At(p, p.consumer.slot)| && PendingRemove(Remove(p, p.consumer.slot)) == 0
  {
    hide Slots, Contents;
  }

  lemma RemoveKeeps(p: Pool, expired: bool)
    requires Inv(p) && (p.consumer.RemoveSwap? || p.consumer.DrainSwap?)
    requires Swaps(p, p.consumer.slot, p.consumer.loaded, expired)
    ensures Inv(Remove(p, p.consumer.slot))
  {
    RemoveConsumer(p);
    hide ProducerOk, ConsumerOk, ProducerSlots, ConsumerSlots, PendingAdd, PendingRemove, Slots, Contents, QueueOk;
    var q := Remove(p, p.consumer.slot);
    assert Everywhere(q) == Everywhere(p);
    SameQueue(p, q);
    PendingAddStands(p, q);
    AccountStands(p, q);
    ConsumerMoves(p, q);
  }

  lemma Written(produced: Pcm, played: Pcm, chunk: Pcm, offset: nat, end: nat, queue: Pcm)
    requires offset <= end <= |chunk| && produced == played + chunk[offset..] + queue
    ensures produced == (played + chunk[offset..end]) + chunk[end..] + queue
    ensures played + chunk[offset..end] <= produced
  {
    assert chunk[offset..] == chunk[offset..end] + chunk[end..];
  }

  lemma OutputConsumer(p: Pool, end: nat)
    requires ConsumerOk(p) && p.consumer.WriteOut? && p.consumer.offset <= end <= |At(p, p.consumer.slot)| && end % 2 == 0
    ensures var q := Output(p, p.consumer.slot, p.consumer.offset, end); ConsumerOk(q) && q.played <= q.produced
  {
    hide Slots, Contents, ChunkOk;
    Written(p.produced, p.played, At(p, p.consumer.slot), p.consumer.offset, end, Contents(Slots(p.playQueue), p.pcm));
  }

  lemma OutputKeeps(p: Pool, end: nat)
    requires Inv(p) && p.consumer.WriteOut? && p.consumer.offset <= end <= |At(p, p.consumer.slot)| && end % 2 == 0
    ensures Inv(Output(p, p.consumer.slot, p.consumer.offset, end))
  {
    OutputConsumer(p, end);
    hide ProducerOk, ConsumerOk, ProducerSlots, PendingAdd, Slots, Contents, QueueOk;
    var q := Output(p, p.consumer.slot, p.consumer.offset, end);
    assert Everywhere(q) == Everywhere(p);
    SameQueue(p, q);
    PendingAddStands(p, q);
    AccountStands(p, q);
    ConsumerMoves(p, q);
  }

  lemma ReleaseConsumer(p: Pool, q: Pool)
    requires ConsumerOk(p) && Releases(p.consumer)
    requires q.consumer == AfterRelease(p.consumer) && q.ret == p.ret && q.played == p.played
    requires QueueStands(p, q) && q.producer == p.producer
    ensures ConsumerOk(q) && PendingRemove(p) == 0 == PendingRemove(q)
    ensures ConsumerSlots(p.consumer) == [p.consumer.slot]
  {
    hide Slots, Contents;
  }

  lemma ReleasePlaces(p: Pool, q: Pool)
    requires Releases(p.consumer) && q.consumer == AfterRelease(p.consumer) && q.producer == p.producer
    requires q.playQueue == p.playQueue && q.freeQueue == p.freeQueue + [p.consumer.slot]
    ensures multiset(Everywhere(q)) == multiset(Everywhere(p))
  {
    var x := ConsumerSlots(p.consumer);
    assert x == [p.consumer.slot] && ConsumerSlots(q.consumer) == [];
    hide ConsumerSlots, ProducerSlots, Slots;
    Shuffle(p.freeQueue, Slots(p.playQueue), ProducerSlots(p.producer), x);
  }

  lemma ReleaseKeeps(p: Pool)
    requires Inv(p) && Releases(p.consumer)
    ensures |p.freeQueue| < SLOT_COUNT && Inv(Recycled(p, p.consumer.slot).(consumer := AfterRelease(p.consumer)))
  {
    hide ProducerOk, ConsumerOk, ProducerSlots, ConsumerSlots, PendingAdd, PendingRemove, Slots, Contents, ChunkOk,
         Everywhere, Places;
    var slot := p.consumer.slot;
    var q := Recycled(p, slot).(consumer := AfterRelease(p.consumer));
    ReleaseHeld(p.consumer);
    OnePlace(p, slot);
    PlacesFacts(p);
    OtherSlots(p, slot, []);
    SameQueue(p.(pcm := p.pcm[slot := []]), q);
    ReleaseConsumer(p, q);
    ReleasePlaces(p, q);
    PendingAddStands(p, q);
    AccountStands(p, q);
    ConsumerMoves(p, q);
  }

  lemma ReleaseHeld(c: Consumer)
    requires Releases(c)
    ensures ConsumerSlots(c) == [c.slot]
  {
  }

  lemma CloseConsumer(p: Pool, code: int)
    requires ConsumerOk(p) && Closes(p.consumer)
    ensures ConsumerOk(Close(p, code))
    ensures ConsumerSlots(Close(p, code).consumer) == ConsumerSlots(p.consumer) == []
    ensures PendingRemove(p) == 0 == PendingRemove(Close(p, code))
    ensures var q := Close(p, code);
      q == p.(status := q.status, consumer := q.consumer, done := q.done)
      && StatusGrows(p, q) && (q.done <==> p.done || q.consumer.Ended?) && (q.consumer.Ended? <==> p.consumer.GiveDone?)
  {
    hide Slots, Contents;
  }

  lemma CloseEverywhere(p: Pool, q: Pool)
    requires SameQueues(p, q)
    ensures Everywhere(q) == Everywhere(p)
  {
  }

  lemma CloseKeeps(p: Pool, code: int)
    requires Inv(p) && Closes(p.consumer)
    ensures Inv(Close(p, code))
  {
    CloseConsumer(p, code);
    hide Close, Everywhere, Places, ProducerOk, ConsumerOk, ProducerSlots, ConsumerSlots, PendingAdd, PendingRemove, Slots, Contents, QueueOk;
    var q := Close(p, code);
    CloseEverywhere(p, q);
    SameQueue(p, q);
    PendingAddStands(p, q);
    AccountStands(p, q);
    ConsumerMoves(p, q);
  }

  lemma OutputEnd(p: Pool, expired: bool, rebuffer: bool, code: int)
    requires ConsumerOk(p) && p.consumer.WriteOut? && Judge(p, expired, rebuffer, code).0.Write?
    ensures var end := Judge(p, expired, rebuffer, code).0.offset;
      p.consumer.offset < end <= |At(p, p.consumer.slot)| && end % 2 == 0
  {
    hide Intact;
  }

  lemma ConsumerKeeps(p: Pool, expired: bool, rebuffer: bool, code: int)
    requires Inv(p)
    ensures Inv(StepConsumer(p, expired, rebuffer, code))
  {
    hide ConsumerOk, ProducerOk, Places, Account, QueueOk, Judge, Swaps, Receive, Remove, Output, Recycled, Close;
    var c := p.consumer;
    if (c.Poll? || c.Drain?) && p.playQueue != [] {
      ReceiveKeeps(p);
    } else if (c.RemoveSwap? || c.DrainSwap?) && Swaps(p, c.slot, c.loaded, expired) {
      RemoveKeeps(p, expired);
    } else if c.WriteOut? && Judge(p, expired, rebuffer, code).0.Write? {
      OutputEnd(p, expired, rebuffer, code);
      OutputKeeps(p, Judge(p, expired, rebuffer, code).0.offset);
    } else if Releases(c) {
      ReleaseKeeps(p);
    } else if Closes(c) {
      CloseKeeps(p, code);
    } else {
      ConsumerQuietKeeps(p, expired, rebuffer, code);
    }
  }

  lemma CallOk(p: Pool, e: Event)
    requires ProducerOk(p) && (e.Callback? || e.Finish? || e.Supersede?)
    ensures ProducerOk(Step(p, e)) && PendingAdd(Step(p, e)) == PendingAdd(p)
    ensures ProducerSlots(Step(p, e).producer) == ProducerSlots(p.producer)
    ensures var q := Step(p, e);
      && q == p.(producer := q.producer, asked := q.asked, producerDone := q.producerDone, current := q.current)
      && (FinalSent(p.producer) ==> FinalSent(q.producer)) && (q.current ==> p.current)
  {
    hide StepProducer, StepConsumer;
    var q := Step(p, e);
    if q.producer == p.producer { ProducerStands(p, q); }
  }

  lemma CallKeeps(p: Pool, e: Event)
    requires Inv(p) && (e.Callback? || e.Finish? || e.Supersede?)
    ensures Inv(Step(p, e))
  {
    CallOk(p, e);
    hide Step, ProducerOk, ProducerSlots, ConsumerOk, ConsumerSlots, PendingAdd, PendingRemove, Slots, Contents,
         QueueOk, Places, Account, Intact, Clean, FinalSent;
    var q := Step(p, e);
    CleanStands(p, q);
    SamePlaces(p, q);
    SameQueue(p, q);
    SameIntact(p, q);
    ConsumerStands(p, q);
    SameAccount(p, q);
  }

  lemma StepKeeps(p: Pool, e: Event)
    requires Inv(p)
    ensures Inv(Step(p, e))
  {
    hide Inv, StepProducer, StepConsumer;
    match e
    case ProducerStep(expired) => ProducerKeeps(p, expired);
    case ConsumerStep(expired, rebuffer, code) => ConsumerKeeps(p, expired, rebuffer, code);
    case _ => CallKeeps(p, e);
  }

  /** Every state of every run satisfies the invariant. */
  lemma {:induction false} RunKeeps(states: seq<Pool>, events: seq<Event>, k: nat)
    requires IsRun(states, events) && k < |states|
    ensures Inv(states[k])
    decreases k
  {
    hide Inv, Step;
    if k == 0 {
      InitialInv();
    } else {
      RunKeeps(states, events, k - 1);
      assert Follows(states, events, k - 1);
      StepKeeps(states[k - 1], events[k - 1]);
    }
  }

  // ---- what every run keeps ------------------------------------------------

  /** How often a slot occurs in the free queue, the play queue, with the producer or with the consumer. */
  function Occurrences(p: Pool, slot: nat): nat {
    multiset(p.freeQueue)[slot] + multiset(Slots(p.playQueue))[slot]
    + multiset(ProducerSlots(p.producer))[slot] + multiset(ConsumerSlots(p.consumer))[slot]
  }

  /** No slot is ever lost or in two places. */
  lemma EverySlotInOnePlace(states: seq<Pool>, events: seq<Event>, k: nat, slot: nat)
    requires IsRun(states, events) && k < |states| && slot < SLOT_COUNT
    ensures Occurrences(states[k], slot) == 1
  {
    var p := states[k];
    RunKeeps(states, events, k);
    hide ProducerSlots, ConsumerSlots, Slots, ProducerOk, ConsumerOk, Account, QueueOk;
    assert multiset(Everywhere(p)) == multiset(p.freeQueue) + multiset(Slots(p.playQueue))
                                      + multiset(ProducerSlots(p.producer)) + multiset(ConsumerSlots(p.consumer));
    UptoOnce(SLOT_COUNT, slot);
  }

  /**
   * The count is what is queued, plus the producer's one pending add, plus the slot the consumer
   * received but has not subtracted yet.
   */
  lemma CountIsExact(states: seq<Pool>, events: seq<Event>, k: nat)
    requires IsRun(states, events) && k < |states|
    ensures var p := states[k];
      p.queued == |Contents(Slots(p.playQueue), p.pcm)| + PendingAdd(p) + PendingRemove(p)
  {
    RunKeeps(states, events, k);
  }

  /** Removing a received slot's bytes never underflows: the swap is tried with a large enough count, always. */
  lemma RemovalNeverFails(states: seq<Pool>, events: seq<Event>, k: nat)
    requires IsRun(states, events) && k < |states| && (states[k].consumer.RemoveSwap? || states[k].consumer.DrainSwap?)
    ensures var p := states[k];
      0 < |At(p, p.consumer.slot)| <= p.consumer.loaded && |At(p, p.consumer.slot)| <= p.queued
  {
    RunKeeps(states, events, k);
    hide ProducerOk, Places, QueueOk, Slots, Contents;
  }

  lemma ReleaseFits(p: Pool)
    requires Inv(p) && (p.producer.GiveBack? || Releases(p.consumer))
    ensures |p.freeQueue| < SLOT_COUNT
  {
    hide ProducerOk, ConsumerOk, Slots;
    PlacesFacts(p);
  }

  /** No queue is ever full when something is put into it, so no send times out and no slot is lost. */
  lemma QueuesNeverFull(states: seq<Pool>, events: seq<Event>, k: nat)
    requires IsRun(states, events) && k < |states|
    ensures var p := states[k];
      && ((p.producer.Send? || p.producer.SendFinal?) ==> |p.playQueue| < PLAY_QUEUE_DEPTH)
      && ((p.producer.GiveBack? || Releases(p.consumer)) ==> |p.freeQueue| < SLOT_COUNT)
      && !p.producer.Undo? && !p.producer.UndoRelease?
  {
    var p := states[k];
    RunKeeps(states, events, k);
    hide ConsumerOk, Places, Account, QueueOk;
    if p.producer.Send? || p.producer.SendFinal? { SendFits(p); }
    if p.producer.GiveBack? || Releases(p.consumer) { ReleaseFits(p); }
  }

  /** At any moment, failure or not, what was played is a prefix of what was produced. */
  lemma PlayedIsPrefix(states: seq<Pool>, events: seq<Event>, k: nat)
    requires IsRun(states, events) && k < |states|
    ensures states[k].played <= states[k].produced
  {
    RunKeeps(states, events, k);
  }

  /** When both sides have finished without a failure, everything the synthesizer delivered was played. */
  lemma CleanFinishPlaysAll(states: seq<Pool>, events: seq<Event>, k: nat)
    requires IsRun(states, events) && k < |states| && states[k].producer.Finished? && states[k].status == 0
    ensures var p := states[k];
      p.played == p.asked && p.queued == 0 && p.consumer.Ended? && p.playQueue == []
  {
    RunKeeps(states, events, k);
    hide Places, QueueOk;
    assert Clean(states[k]);
  }

  lemma NothingMoves(p: Pool, e: Event)
    requires p.producer.Finished? && p.consumer.Ended?
    ensures Step(p, e) == p.(current := Step(p, e).current)
  {
  }

  lemma EndedByThen(p: Pool)
    requires Inv(p) && p.producer.Finished?
    ensures p.consumer.Ended? && p.done
  {
    hide Places, Account, QueueOk, ConsumerOk;
  }

  /**
   * A producer that has finished, whatever the status, has waited for the consumer's last step, and from then
   * on neither side touches the pool: it can be freed. Only the turn itself may still be superseded.
   */
  lemma {:induction false} UntouchedOnceFinished(states: seq<Pool>, events: seq<Event>, k: nat, j: nat)
    requires IsRun(states, events) && k <= j < |states| && states[k].producer.Finished?
    ensures states[k].consumer.Ended? && states[k].done
    ensures states[j] == states[k].(current := states[j].current)
    decreases j - k
  {
    hide Inv, Step;
    RunKeeps(states, events, k);
    EndedByThen(states[k]);
    if k < j {
      UntouchedOnceFinished(states, events, k, j - 1);
      assert Follows(states, events, j - 1);
      NothingMoves(states[j - 1], events[j - 1]);
    }
  }
}
