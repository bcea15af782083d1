/**
 * The playback pool and the audio output: when the output is started, what may
 * be written to it, and that it is stopped. The queues and slots themselves
 * are the subject of `TtsPool`.
 */
module TtsOutput {
  import opened Common
  import opened TtsPool

  predicate Writing(c: Consumer) { c.Write? || c.WriteCurrent? || c.WriteOut? }

  /** Nothing is written to an output that was not started, and a started one is not started again. */
  predicate OutputOk(p: Pool) {
    && (p.played != [] || Writing(p.consumer) ==> p.started)
    && (p.consumer.Start? ==> !p.started)
  }

  /** The consumer has left its playing loop. */
  predicate Over(c: Consumer) {
    || c.Discard? || c.Stopping? || c.Drain? || c.DrainLoad? || c.DrainSwap? || c.DrainRelease?
    || c.StopOutput? || c.GiveDone? || c.Ended?
  }

  /** What this module looks at: the consumer, its result, the output, and the status. */
  predicate SameSide(p: Pool, q: Pool) {
    q.consumer == p.consumer && q.started == p.started && q.played == p.played && q.ret == p.ret
  }

  lemma Aside(p: Pool, slot: nat)
    ensures SameSide(p, Recycled(p, slot)) && Recycled(p, slot).status == p.status
    ensures SameSide(p, Uncounted(p, slot)) && Uncounted(p, slot).status == p.status
  {
  }

  /** What a step may do to the output; `asked` says that it asks the hardware to start, and `code` is the answer. */
  predicate Fair(p: Pool, q: Pool, asked: bool, code: int) {
    && OutputOk(q) && (p.started ==> q.started) && p.played <= q.played
    && (q.played != p.played ==> p.started && p.consumer.WriteOut?)
    && (q.started != p.started ==> asked && code == 0)
    && (Over(p.consumer) ==> Over(q.consumer) && q.played == p.played && q.started == p.started)
    && (asked ==> if code == 0 then q.started else q.consumer.Discard? && q.ret == code)
  }

  lemma MovesOutput(p: Pool)
    requires OutputOk(p)
    ensures p.playQueue != [] && (p.consumer.Poll? || p.consumer.Drain?) ==> Fair(p, Receive(p), false, 0)
    ensures p.consumer.RemoveSwap? || p.consumer.DrainSwap? ==> Fair(p, Remove(p, p.consumer.slot), false, 0)
  {
    if p.consumer.RemoveSwap? || p.consumer.DrainSwap? { Aside(p, p.consumer.slot); }
    hide Uncounted, Recycled;
  }

  lemma EndsOutput(p: Pool, code: int)
    requires OutputOk(p)
    ensures Releases(p.consumer) ==>
      Fair(p, Recycled(p, p.consumer.slot).(consumer := AfterRelease(p.consumer)), false, 0)
    ensures Closes(p.consumer) ==> Fair(p, Close(p, code), false, 0)
  {
    if Releases(p.consumer) { Aside(p, p.consumer.slot); }
    hide Uncounted, Recycled;
  }

  lemma WritesOutput(p: Pool, end: nat)
    requires OutputOk(p) && p.consumer.WriteOut?
    ensures Fair(p, Output(p, p.consumer.slot, p.consumer.offset, end), false, 0)
  {
  }

  lemma JudgedOutput(p: Pool, expired: bool, rebuffer: bool, code: int)
    requires OutputOk(p) && QuietConsumer(p, expired, rebuffer, code)
    ensures var (next, ret) := Judge(p, expired, rebuffer, code);
      Fair(p, p.(consumer := next, ret := ret, started := p.started || (p.consumer.Start? && code == 0)), p.consumer.Start?, code)
  {
    hide ChunkSize, At, Swaps;
  }

  lemma ConsumerOutput(p: Pool, expired: bool, rebuffer: bool, code: int)
    requires OutputOk(p)
    ensures Fair(p, StepConsumer(p, expired, rebuffer, code), p.consumer.Start?, code)
  {
    hide OutputOk, Over, Judge, Swaps, Receive, Remove, Output, Recycled, Close, Fair;
    var c := p.consumer;
    if (c.Poll? || c.Drain?) && p.playQueue != [] {
      MovesOutput(p);
      FairAnyhow(p, Receive(p), code);
    } else if (c.RemoveSwap? || c.DrainSwap?) && Swaps(p, c.slot, c.loaded, expired) {
      MovesOutput(p);
      FairAnyhow(p, Remove(p, c.slot), code);
    } else if c.WriteOut? && Judge(p, expired, rebuffer, code).0.Write? {
      WritesOutput(p, Judge(p, expired, rebuffer, code).0.offset);
      FairAnyhow(p, Output(p, c.slot, c.offset, Judge(p, expired, rebuffer, code).0.offset), code);
    } else if Releases(c) {
      EndsOutput(p, code);
      FairAnyhow(p, Recycled(p, c.slot).(consumer := AfterRelease(c)), code);
    } else if Closes(c) {
      EndsOutput(p, code);
      FairAnyhow(p, Close(p, code), code);
    } else {
      JudgedOutput(p, expired, rebuffer, code);
    }
  }

  /** Without an attempt the hardware's answer does not matter. */
  lemma FairAnyhow(p: Pool, q: Pool, code: int)
    requires Fair(p, q, false, 0)
    ensures Fair(p, q, false, code)
  {
  }

  lemma ProducerOutput(p: Pool, expired: bool)
    ensures SameSide(p, StepProducer(p, expired))
  {
    forall slot ensures SameSide(p, Recycled(p, slot)) && SameSide(p, Uncounted(p, slot)) { Aside(p, slot); }
    hide Decide, ChunkSize, Uncounted, Recycled, At;
    match p.producer
    case Take(_) =>
    case Fill(_, _) =>
    case Add(_, _) =>
    case Send(_, _) =>
    case Undo(_) =>
    case UndoRelease(_) =>
    case GiveBack(_) =>
    case SendFinal =>
    case _ =>
  }

  lemma StepOutput(p: Pool, e: Event)
    requires OutputOk(p)
    ensures Fair(p, Step(p, e), Attempt(p, e), if e.ConsumerStep? then e.code else 0)
  {
    hide StepProducer, StepConsumer;
    match e
    case ProducerStep(expired) => ProducerOutput(p, expired);
    case ConsumerStep(expired, rebuffer, code) =>
      hide OutputOk, Fair;
      ConsumerOutput(p, expired, rebuffer, code);
    case _ =>
  }

  lemma InitialOutput()
    ensures OutputOk(Initial())
  {
  }

  /** In every state of every run the output was started before anything was written to it. */
  lemma {:induction false} PlaysOnlyWhenStarted(states: seq<Pool>, events: seq<Event>, k: nat)
    requires IsRun(states, events) && k < |states|
    ensures OutputOk(states[k])
    ensures k > 0 && states[k].played != states[k - 1].played ==> states[k - 1].started
    decreases k
  {
    hide Step, OutputOk;
    if k == 0 {
      InitialOutput();
    } else {
      PlaysOnlyWhenStarted(states, events, k - 1);
      assert Follows(states, events, k - 1);
      StepOutput(states[k - 1], events[k - 1]);
    }
  }

  /** The consumer asks the hardware to start; `e.code` is its answer. */
  predicate Attempt(p: Pool, e: Event) { p.consumer.Start? && e.ConsumerStep? }

  lemma {:induction false} StaysStarted(states: seq<Pool>, events: seq<Event>, i: nat, j: nat)
    requires IsRun(states, events) && i <= j < |states|
    ensures states[i].started ==> states[j].started
    ensures Over(states[i].consumer) ==>
      Over(states[j].consumer) && states[j].played == states[i].played && states[j].started == states[i].started
    decreases j
  {
    hide Step, Over;
    if i < j {
      StaysStarted(states, events, i, j - 1);
      PlaysOnlyWhenStarted(states, events, j - 1);
      assert Follows(states, events, j - 1);
      StepOutput(states[j - 1], events[j - 1]);
    }
  }

  /** The output is asked to start at most once in a run. */
  lemma StartsOnce(states: seq<Pool>, events: seq<Event>, i: nat, j: nat)
    requires IsRun(states, events) && i <= j < |events| && Attempt(states[i], events[i]) && Attempt(states[j], events[j])
    ensures i == j
  {
    if i < j {
      hide Step;
      PlaysOnlyWhenStarted(states, events, i);
      PlaysOnlyWhenStarted(states, events, j);
      assert Follows(states, events, i);
      StepOutput(states[i], events[i]);
      StaysStarted(states, events, i + 1, j);
    }
  }

  /** An output is started exactly when an attempt has been answered with success. */
  lemma {:induction false} StartedExactly(states: seq<Pool>, events: seq<Event>, k: nat)
    requires IsRun(states, events) && k < |states|
    ensures states[k].started <==> exists i :: 0 <= i < k && Attempt(states[i], events[i]) && events[i].code == 0
    decreases k
  {
    hide Step;
    if k > 0 {
      StartedExactly(states, events, k - 1);
      PlaysOnlyWhenStarted(states, events, k - 1);
      assert Follows(states, events, k - 1);
      StepOutput(states[k - 1], events[k - 1]);
    }
  }

  /** What a consumer that gave up for good reason still owes: its result becomes the status. */
  predicate Blamed(p: Pool) {
    Over(p.consumer) && if p.consumer.Discard? || p.consumer.Stopping? then p.ret != 0 else p.status != 0
  }

  lemma StepBlamed(p: Pool, e: Event)
    requires Blamed(p)
    ensures Blamed(Step(p, e))
  {
    hide StepProducer, StepConsumer;
    match e
    case ProducerStep(expired) =>
      ProducerOutput(p, expired);
      StatusLasts(p, expired);
    case ConsumerStep(expired, rebuffer, code) => ConsumerBlamed(p, expired, rebuffer, code);
    case _ =>
  }

  lemma StatusLasts(p: Pool, expired: bool)
    ensures p.status != 0 ==> StepProducer(p, expired).status != 0
  {
    forall slot ensures Recycled(p, slot).status == p.status && Uncounted(p, slot).status == p.status { Aside(p, slot); }
    hide Decide, ChunkSize, Uncounted, Recycled, At;
  }

  lemma ConsumerBlamed(p: Pool, expired: bool, rebuffer: bool, code: int)
    requires Blamed(p)
    ensures Blamed(StepConsumer(p, expired, rebuffer, code))
  {
    forall slot ensures Recycled(p, slot).status == p.status && Uncounted(p, slot).status == p.status { Aside(p, slot); }
    forall slot ensures SameSide(p, Recycled(p, slot)) && SameSide(p, Uncounted(p, slot)) { Aside(p, slot); }
    hide Swaps, Uncounted, Recycled, ChunkSize, At;
  }

  /** After a failed start nothing is ever played, and the run ends with a failure. */
  lemma {:induction false} FailedStartPlaysNothing(states: seq<Pool>, events: seq<Event>, i: nat, j: nat)
    requires IsRun(states, events) && i < j < |states| && Attempt(states[i], events[i]) && events[i].code != 0
    ensures states[j].played == [] && !states[j].started
    ensures Blamed(states[j])
    decreases j
  {
    hide Step, Blamed;
    assert Follows(states, events, j - 1);
    PlaysOnlyWhenStarted(states, events, j - 1);
    StepOutput(states[j - 1], events[j - 1]);
    if i == j - 1 {
      assert states[j].ret != 0 && states[j].consumer.Discard?;
      assert Blamed(states[j]) by { BlamedNow(states[j]); }
    } else {
      FailedStartPlaysNothing(states, events, i, j - 1);
      StepBlamed(states[j - 1], events[j - 1]);
      BlamedIsOver(states[j - 1]);
    }
  }

  lemma BlamedNow(p: Pool)
    requires p.consumer.Discard? && p.ret != 0
    ensures Blamed(p)
  {
  }

  lemma BlamedIsOver(p: Pool)
    requires Blamed(p)
    ensures Over(p.consumer)
  {
  }

  /** A consumer that ended has gone through the step that stops a started output. */
  lemma {:induction false} StopsBeforeDone(states: seq<Pool>, events: seq<Event>, k: nat) returns (i: nat)
    requires IsRun(states, events) && k < |states| && (states[k].consumer.GiveDone? || states[k].consumer.Ended?)
    ensures i < k && states[i].consumer.StopOutput? && events[i].ConsumerStep?
    ensures states[i].started == states[k].started && states[i].played == states[k].played
    ensures states[i].started && events[i].code != 0 ==> states[i + 1].status != 0
    decreases k
  {
    assert k > 0 by { assert states[0] == Initial(); }
    hide Step, OutputOk, Over;
    assert Follows(states, events, k - 1);
    ComesFromStop(states[k - 1], events[k - 1]);
    PlaysOnlyWhenStarted(states, events, k - 1);
    StepOutput(states[k - 1], events[k - 1]);
    if states[k - 1].consumer.StopOutput? && events[k - 1].ConsumerStep? {
      i := k - 1;
    } else {
      i := StopsBeforeDone(states, events, k - 1);
    }
  }

  lemma ComesFromStop(p: Pool, e: Event)
    requires Step(p, e).consumer.GiveDone? || Step(p, e).consumer.Ended?
    ensures p.consumer.GiveDone? || p.consumer.Ended? || (p.consumer.StopOutput? && e.ConsumerStep?)
    ensures p.consumer.StopOutput? && e.ConsumerStep? && p.started && e.code != 0 ==> Step(p, e).status != 0
  {
    hide StepProducer, StepConsumer;
    match e
    case ProducerStep(expired) => ProducerOutput(p, expired);
    case ConsumerStep(expired, rebuffer, code) => ConsumerEnds(p, expired, rebuffer, code);
    case _ =>
  }

  lemma ConsumerEnds(p: Pool, expired: bool, rebuffer: bool, code: int)
    ensures var q := StepConsumer(p, expired, rebuffer, code);
      && (q.consumer.GiveDone? || q.consumer.Ended? ==>
            p.consumer.GiveDone? || p.consumer.Ended? || p.consumer.StopOutput?)
      && (p.consumer.StopOutput? && p.started && code != 0 ==> q.status != 0)
  {
    var c := p.consumer;
    if Closes(c) {
      assert StepConsumer(p, expired, rebuffer, code) == Close(p, code);
    } else if Releases(c) {
      assert StepConsumer(p, expired, rebuffer, code).consumer == AfterRelease(c);
    } else if (c.Poll? || c.Drain?) && p.playQueue != [] {
      assert StepConsumer(p, expired, rebuffer, code) == Receive(p);
    } else if (c.RemoveSwap? || c.DrainSwap?) && Swaps(p, c.slot, c.loaded, expired) {
      assert StepConsumer(p, expired, rebuffer, code) == Remove(p, c.slot);
    } else {
      hide Swaps, ChunkSize, At, Receive, Remove, Close, Recycled;
      var next := Judge(p, expired, rebuffer, code).0;
      assert next.GiveDone? || next.Ended? ==> c.GiveDone? || c.Ended? || c.StopOutput?;
      hide Judge;
    }
  }
}
