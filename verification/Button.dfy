/**
 * The push-to-talk button and the boot gesture counted on top of it. Time is a
 * 32-bit millisecond counter that wraps around.
 */
module Button {
  import opened Common

  const GAP_MS := 500

  datatype Policy = Policy(debounceMs: U32, longPressMs: U32, pollMs: U32, maxRecordMs: U32)

  predicate PolicyIsSafe(p: Policy) {
    && 10 <= p.debounceMs <= 200 && 300 <= p.longPressMs <= 3000 && p.debounceMs < p.longPressMs
    && 0 < p.pollMs <= p.debounceMs && 1000 <= p.maxRecordMs <= 20000 && p.longPressMs < p.maxRecordMs
  }

  function Elapsed(now: U32, earlier: U32): U32 { (now - earlier) % (U32_MAX + 1) }

  /** The checks one after the other. */
  method CheckPolicy(p: Policy) returns (safe: bool)
    ensures safe == PolicyIsSafe(p)
  {
    if p.debounceMs < 10 || p.debounceMs > 200 { return false; }
    if p.longPressMs < 300 || p.longPressMs > 3000 { return false; }
    if p.longPressMs <= p.debounceMs { return false; }
    if p.pollMs == 0 || p.pollMs > p.debounceMs { return false; }
    if p.maxRecordMs < 1000 || p.maxRecordMs > 20000 { return false; }
    safe := p.maxRecordMs > p.longPressMs;
  }

  /** The time that has passed, also over the wrap of the counter. */
  lemma ElapsedIsModular(now: U32, earlier: U32)
    ensures (earlier + Elapsed(now, earlier)) % 0x1_0000_0000 == now
  {
  }

  datatype Output = NoOutput | PressStart | PressEnd | TooLong

  datatype Action = NoAction | Pairing | Reset

  // ---- what a run looks like from outside ------------------------------------------

  /** Debounced edges, outputs and actions in the order they happen. `Lapse` drops taps that mean nothing. */
  datatype Event = Down | Up(at: U32) | Start | End | Expire | PairingAt(at: U32) | ResetAt(at: U32) | Lapse(at: U32)

  /** What the events so far amount to. A tap is a press that ends without having started a recording. */
  datatype Story = Story(pressed: bool, started: bool, open: bool, taps: nat, lastTap: U32)

  function After(s: Story, e: Event): Story {
    match e
    case Down => s.(pressed := true, started := false)
    case Up(at) => if s.started then s.(pressed := false) else s.(pressed := false, taps := s.taps + 1, lastTap := at)
    case Start => s.(started := true, open := true, taps := 0)
    case End => s.(open := false)
    case Expire => s.(open := false, taps := 0)
    case PairingAt(_) => s.(taps := 0)
    case ResetAt(_) => s.(taps := 0)
    case Lapse(_) => s.(taps := 0)
  }

  function Replay(log: seq<Event>): Story {
    if log == [] then Story(false, false, false, 0, 0) else After(Replay(log[..|log| - 1]), log[|log| - 1])
  }

  predicate GapOver(s: Story, at: U32) { !s.pressed && Elapsed(at, s.lastTap) >= GAP_MS }

  /** When each event may happen. */
  predicate MayHappen(s: Story, e: Event) {
    match e
    case Down => !s.pressed && !s.open
    case Up(_) => s.pressed
    case Start => s.pressed && !s.started && !s.open
    case End => !s.pressed && s.open
    case Expire => s.pressed && s.open
    case PairingAt(at) => s.taps == 3 && GapOver(s, at) && !s.open
    case ResetAt(at) => s.taps == 5 && GapOver(s, at) && !s.open
    case Lapse(at) => s.taps != 0 && s.taps != 3 && s.taps != 5 && GapOver(s, at) && !s.open
  }

  predicate LogOk(log: seq<Event>) {
    forall k | 0 <= k < |log| :: MayHappen(Replay(log[..k]), log[k])
  }

  lemma LogGrows(log: seq<Event>, e: Event)
    requires LogOk(log) && MayHappen(Replay(log), e)
    ensures LogOk(log + [e]) && Replay(log + [e]) == After(Replay(log), e)
  {
    var next := log + [e];
    assert next[..|log|] == log;
    forall k | 0 <= k < |next| ensures MayHappen(Replay(next[..k]), next[k]) {
      if k < |log| { assert next[..k] == log[..k] && next[k] == log[k]; }
    }
  }

  lemma LogFront(log: seq<Event>, n: nat)
    requires LogOk(log) && n <= |log|
    ensures LogOk(log[..n])
  {
    forall k | 0 <= k < n ensures MayHappen(Replay(log[..n][..k]), log[..n][k]) { assert log[..n][..k] == log[..k]; }
  }

  function OutputOf(e: Event): seq<Output> {
    match e case Start => [PressStart] case End => [PressEnd] case Expire => [TooLong] case _ => []
  }

  function Outputs(log: seq<Event>): seq<Output> {
    if log == [] then []
    else
      Outputs(log[..|log| - 1]) + OutputOf(log[|log| - 1])
  }

  lemma OutputsGrow(log: seq<Event>, e: Event)
    ensures Outputs(log + [e]) == Outputs(log) + OutputOf(e)
  {
    assert (log + [e])[..|log|] == log;
  }

  /** Starts stand at the even places, the outputs that end a recording at the odd ones. */
  predicate Alternates(outputs: seq<Output>) {
    forall n | 0 <= n < |outputs| :: outputs[n] != NoOutput && (outputs[n] == PressStart <==> n % 2 == 0)
  }

  lemma AlternatesOn(outputs: seq<Output>, e: Event, open: bool)
    requires Alternates(outputs) && (open <==> |outputs| % 2 == 1)
    requires (e.Start? ==> !open) && (e.End? || e.Expire? ==> open)
    ensures Alternates(outputs + OutputOf(e))
    ensures |outputs + OutputOf(e)| % 2 == 1 <==> if e.Start? then true else if e.End? || e.Expire? then false else open
  {
  }

  /** The recording outputs have the form (START (END | TOO_LONG))*, with at most one START open. */
  lemma {:induction false} OutputsAlternate(log: seq<Event>)
    requires LogOk(log)
    ensures Alternates(Outputs(log)) && (Replay(log).open <==> |Outputs(log)| % 2 == 1)
    decreases |log|
  {
    if log != [] {
      var front, last := log[..|log| - 1], log[|log| - 1];
      LogFront(log, |log| - 1);
      OutputsAlternate(front);
      assert MayHappen(Replay(front), last);
      hide LogOk, Alternates, OutputOf;
      AlternatesOn(Outputs(front), last, Replay(front).open);
    }
  }

  /** After a recording was cut off, another one starts only after a release. */
  lemma {:induction false} StartNeedsRelease(log: seq<Event>, i: nat, j: nat)
    requires LogOk(log) && i < j <= |log| && log[i].Expire?
    requires forall k | i < k < j :: !log[k].Up?
    ensures Replay(log[..j]).pressed && Replay(log[..j]).started
    ensures j < |log| ==> !log[j].Start?
    decreases j
  {
    if i == j - 1 {
      StartedWhileOpen(log, i);
    } else {
      StartNeedsRelease(log, i, j - 1);
    }
    ReplayStep(log, j);
    assert MayHappen(Replay(log[..j - 1]), log[j - 1]);
    assert j < |log| ==> MayHappen(Replay(log[..j]), log[j]);
    hide Replay, LogOk;
  }

  /** An open recording was started by the press it belongs to. */
  lemma {:induction false} StartedWhileOpen(log: seq<Event>, n: nat)
    requires LogOk(log) && n <= |log|
    ensures Replay(log[..n]).open && Replay(log[..n]).pressed ==> Replay(log[..n]).started
    ensures n < |log| && log[n].Expire? ==> Replay(log[..n]).started
    decreases n
  {
    if n > 0 {
      StartedWhileOpen(log, n - 1);
      assert log[..n][..n - 1] == log[..n - 1];
      assert MayHappen(Replay(log[..n - 1]), log[n - 1]);
    }
    assert n < |log| ==> MayHappen(Replay(log[..n]), log[n]);
  }

  // ---- the button ---------------------------------------------------------------------

  class PttButton {
    var initialized: bool
    var raw: bool
    var stable: bool
    var recording: bool
    var timedOut: bool
    var rawChangedAt: U32
    var pressedSince: U32
    var recordStartedAt: U32

    predicate Valid()
      reads this
    {
      && (recording ==> stable && !timedOut) && (timedOut ==> stable)
      && (!initialized ==> !raw && !stable)
    }

    constructor ()
      ensures Valid() && !initialized && !stable && !recording && !timedOut
    {
      initialized, raw, stable, recording, timedOut := false, false, false, false, false;
      rawChangedAt, pressedSince, recordStartedAt := 0, 0, 0;
    }

    /** One sample: debounce, then at most one output. */
    method Update(p: Policy, pressed: bool, now: U32) returns (out: Output)
      requires Valid()
      modifies this
      ensures Valid()
      ensures !PolicyIsSafe(p) ==> out == NoOutput && stable == old(stable) && recording == old(recording)
                                   && timedOut == old(timedOut) && initialized == old(initialized) && raw == old(raw)
                                   && rawChangedAt == old(rawChangedAt) && pressedSince == old(pressedSince)
                                   && recordStartedAt == old(recordStartedAt)
      ensures PolicyIsSafe(p) ==> initialized && raw == pressed
      // Times: when the raw level last changed, when the stable press began, when the recording did.
      ensures PolicyIsSafe(p) ==>
        rawChangedAt == if !old(initialized) || pressed != old(raw) then now else old(rawChangedAt)
      ensures old(initialized) && (stable ==> old(stable)) ==> pressedSince == old(pressedSince)
      ensures out != PressStart ==> recordStartedAt == old(recordStartedAt)
      ensures PolicyIsSafe(p) && !old(initialized) ==>
        stable == pressed && !recording && !timedOut && out == NoOutput && (pressed ==> pressedSince == now)
      // Debounce: the stable level follows the raw one exactly when that has not changed for long enough.
      ensures PolicyIsSafe(p) && old(initialized) && stable != old(stable) ==>
        stable == raw && Elapsed(now, rawChangedAt) >= p.debounceMs && (stable ==> pressedSince == rawChangedAt)
      ensures PolicyIsSafe(p) && stable != raw ==> Elapsed(now, rawChangedAt) < p.debounceMs
      // Outputs.
      ensures out == PressStart ==>
        stable && recording && !old(recording) && (old(stable) ==> !old(timedOut))
        && recordStartedAt == now && Elapsed(now, pressedSince) >= p.longPressMs
      ensures out == TooLong ==>
        old(recording) && stable && timedOut && Elapsed(now, recordStartedAt) >= p.maxRecordMs
      ensures out == PressEnd <==> old(recording) && !stable
      ensures out == NoOutput ==> (recording <==> old(recording) && stable)
      ensures out == NoOutput && stable ==> (timedOut <==> old(timedOut) && old(stable))
      // Nothing is overdue.
      ensures PolicyIsSafe(p) && old(initialized) && stable && !recording && !timedOut ==>
        Elapsed(now, pressedSince) < p.longPressMs
      ensures PolicyIsSafe(p) && recording && out != PressStart ==> Elapsed(now, recordStartedAt) < p.maxRecordMs
    {
      var safe := CheckPolicy(p);
      if !safe { return NoOutput; }
      if !initialized {
        initialized, raw, stable, rawChangedAt := true, pressed, pressed, now;
        pressedSince := if pressed then now else 0;
        return NoOutput;
      }
      if pressed != raw { raw, rawChangedAt := pressed, now; }
      if stable != raw && Elapsed(now, rawChangedAt) >= p.debounceMs {
        stable := raw;
        if stable { pressedSince, timedOut := rawChangedAt, false; }
      }
      if stable && !recording && !timedOut && Elapsed(now, pressedSince) >= p.longPressMs {
        recording, recordStartedAt := true, now;
        return PressStart;
      }
      if stable && recording && !timedOut && Elapsed(now, recordStartedAt) >= p.maxRecordMs {
        recording, timedOut := false, true;
        return TooLong;
      }
      if !stable {
        if recording {
          recording := false;
          return PressEnd;
        }
        timedOut := false;
      }
      out := NoOutput;
    }
  }

  /** The action that the events of one sample at `now` stand for. */
  function ActionIn(events: seq<Event>, now: U32): Action {
    if events != [] && events[|events| - 1] == PairingAt(now) then Pairing
    else if events != [] && events[|events| - 1] == ResetAt(now) then Reset
    else NoAction
  }

  // ---- the gesture -------------------------------------------------------------------------

  class BootGesture {
    const button: PttButton
    var taps: Byte
    var lastRelease: U32
    ghost var log: seq<Event>

    ghost predicate Valid()
      reads this, button
    {
      && button.Valid() && LogOk(log)
      && var s := Replay(log);
        && s.pressed == button.stable && s.open == button.recording
        && (button.stable ==> (s.started <==> button.recording || button.timedOut))
        && taps == (if s.taps > 255 then 255 else s.taps) && (taps > 0 ==> lastRelease == s.lastTap)
        && (button.recording ==> taps == 0)
    }

    constructor ()
      ensures Valid() && fresh(button) && log == []
    {
      button := new PttButton();
      taps, lastRelease, log := 0, 0, [];
    }

    method Note(e: Event)
      requires LogOk(log) && MayHappen(Replay(log), e)
      modifies this`log
      ensures LogOk(log) && log == old(log) + [e] && Replay(log) == After(Replay(old(log)), e)
      ensures Outputs(log) == Outputs(old(log)) + OutputOf(e)
    {
      LogGrows(log, e);
      OutputsGrow(log, e);
      log := log + [e];
    }

    /** One sample of the button: an output, or an action, never both. */
    method Update(p: Policy, pressed: bool, now: U32) returns (out: Output, action: Action)
      requires Valid()
      modifies this, button
      ensures Valid() && old(log) <= log
      ensures Outputs(log) == Outputs(old(log)) + (if out == NoOutput then [] else [out])
      ensures out == NoOutput || action == NoAction
      ensures button.recording ==> taps == 0
      ensures !PolicyIsSafe(p) ==> out == NoOutput && action == NoAction && log == old(log)
      ensures action == ActionIn(log[|old(log)|..], now)
      ensures taps > 0 && !button.stable && PolicyIsSafe(p) ==> Elapsed(now, lastRelease) < GAP_MS
    {
      hide Replay, LogOk, Outputs;
      action := NoAction;
      var safe := CheckPolicy(p);
      if !safe { return NoOutput, NoAction; }
      var wasStable, wasLong := button.stable, button.recording || button.timedOut;
      ghost var wasRecording := button.recording;
      out := button.Update(p, pressed, now);
      NoteOutput(out, wasStable, wasRecording, now);
      if out == PressStart || out == TooLong { taps, lastRelease := 0, 0; }
      if wasStable && !button.stable && !wasLong && out == NoOutput {
        if taps < 255 { taps := taps + 1; }
        lastRelease := now;
      }
      if !button.stable && taps > 0 && Elapsed(now, lastRelease) >= GAP_MS {
        if taps == 3 {
          action := Pairing;
          Note(PairingAt(now));
        } else if taps == 5 {
          action := Reset;
          Note(ResetAt(now));
        } else {
          Note(Lapse(now));
        }
        taps, lastRelease := 0, 0;
      }
    }

    /** Writes down the edge and the output of one sample. */
    method NoteOutput(out: Output, wasStable: bool, ghost wasRecording: bool, now: U32)
      requires LogOk(log) && button.Valid()
      requires Replay(log).pressed == wasStable && Replay(log).open == wasRecording && (wasRecording ==> wasStable)
      requires out == PressStart ==> button.stable && button.recording && !wasRecording && (wasStable ==> !Replay(log).started)
      requires out == TooLong ==> wasRecording && button.stable
      requires out == PressEnd <==> wasRecording && !button.stable
      modifies this`log
      ensures LogOk(log) && old(log) <= log && ActionIn(log[|old(log)|..], now) == NoAction
      ensures Outputs(log) == Outputs(old(log)) + (if out == NoOutput then [] else [out])
      ensures var s, t := Replay(old(log)), Replay(log);
        && t.pressed == button.stable
        && t.open == (if out == PressStart then true else if out == TooLong || out == PressEnd then false else wasRecording)
        && t.started == (if out == PressStart then true else if button.stable && !wasStable then false else s.started)
        && t.taps == (if out == PressStart || out == TooLong then 0
                      else if wasStable && !button.stable && !s.started then s.taps + 1 else s.taps)
        && t.lastTap == (if wasStable && !button.stable && !s.started then now else s.lastTap)
    {
      hide Replay, LogOk, Outputs;
      if button.stable && !wasStable { Note(Down); }
      if !button.stable && wasStable { Note(Up(now)); }
      if out == PressStart {
        Note(Start);
      } else if out == TooLong {
        Note(Expire);
      } else if out == PressEnd {
        Note(End);
      }
    }
  }

  /** Any samples at any times: the outputs a caller sees have the form (START (END | TOO_LONG))*. */
  method AnySamples(p: Policy, samples: seq<(bool, U32)>) returns (outputs: seq<Output>, ghost log: seq<Event>)
    ensures LogOk(log) && outputs == Outputs(log) && Alternates(outputs)
  {
    var gesture := new BootGesture();
    outputs := [];
    for i := 0 to |samples|
      invariant gesture.Valid() && fresh(gesture) && fresh(gesture.button)
      invariant outputs == Outputs(gesture.log)
    {
      var out, action := gesture.Update(p, samples[i].0, samples[i].1);
      if out != NoOutput { outputs := outputs + [out]; }
    }
    log := gesture.log;
    OutputsAlternate(log);
  }

  /** A release whose press started no recording. */
  predicate TapAt(log: seq<Event>, k: nat)
    requires k < |log|
  {
    log[k].Up? && !Replay(log[..k]).started
  }

  function CountTaps(log: seq<Event>, i: nat, j: nat): nat
    requires i <= j <= |log|
    decreases j
  {
    if i == j then 0 else CountTaps(log, i, j - 1) + (if TapAt(log, j - 1) then 1 else 0)
  }

  predicate Clears(e: Event) { e.Start? || e.Expire? || e.PairingAt? || e.ResetAt? || e.Lapse? }

  /** The running count is the number of taps since the last event that clears it. */
  lemma {:induction false} TapsSince(log: seq<Event>, i: nat, j: nat)
    requires LogOk(log) && i <= j <= |log| && (i == 0 || Clears(log[i - 1]))
    requires forall k | i <= k < j :: !Clears(log[k])
    ensures Replay(log[..j]).taps == CountTaps(log, i, j)
    decreases j
  {
    if j == 0 {
      assert log[..0] == [];
    } else {
      ReplayStep(log, j);
      hide Replay, LogOk;
      if i < j { TapsSince(log, i, j - 1); }
    }
  }

  lemma ReplayStep(log: seq<Event>, j: nat)
    requires 0 < j <= |log|
    ensures Replay(log[..j]) == After(Replay(log[..j - 1]), log[j - 1])
  {
    assert log[..j][..j - 1] == log[..j - 1];
  }

  /** Pairing means exactly three taps since the last clearing event, and reset exactly five. */
  lemma ActionsNeedTaps(log: seq<Event>, i: nat, j: nat)
    requires LogOk(log) && i <= j < |log| && (i == 0 || Clears(log[i - 1]))
    requires forall k | i <= k < j :: !Clears(log[k])
    ensures log[j].PairingAt? ==> CountTaps(log, i, j) == 3
    ensures log[j].ResetAt? ==> CountTaps(log, i, j) == 5
    ensures log[j].Lapse? ==> CountTaps(log, i, j) !in {0, 3, 5}
  {
    TapsSince(log, i, j);
    assert MayHappen(Replay(log[..j]), log[j]);
  }
}
