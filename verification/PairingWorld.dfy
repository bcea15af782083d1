/**
 * What the pairing lifecycle talks to: the durable attempt record, the display,
 * the clock, the random source and the connections it opens and revokes.
 *
 * Power may fail at any port call: from then on no call has an effect and every
 * call reports failure, until the device restarts. `events` is a record of what
 * the outside world saw; it outlives restarts and nothing reads it.
 */
module PairingWorld {
  import opened Common

  const RECORD_VERSION: U32 := 1
  const MAX_ATTEMPTS: U32 := 5
  const CODE_SIZE := 8

  datatype LockRecord = LockRecord(version: U32, attempts: U32)

  type Code = seq<Byte>

  // ---- the durable record --------------------------------------------------

  function EncodeRecord(r: LockRecord): (q: U64) {
    r.version * (U32_MAX + 1) + r.attempts
  }

  function DecodeRecord(q: U64): Option<LockRecord> {
    var r := LockRecord(q / (U32_MAX + 1), q % (U32_MAX + 1));
    if r.version != RECORD_VERSION || r.attempts > MAX_ATTEMPTS then None else Some(r)
  }

  predicate Storable(r: LockRecord) { r.version == RECORD_VERSION && r.attempts <= MAX_ATTEMPTS }

  lemma RecordRoundTrip(r: LockRecord)
    ensures DecodeRecord(EncodeRecord(r)) == if Storable(r) then Some(r) else None
  {
    assert EncodeRecord(r) / (U32_MAX + 1) == r.version;
    assert EncodeRecord(r) % (U32_MAX + 1) == r.attempts;
  }

  /** Only one stored word stands for a record. */
  lemma RecordIsUnique(q: U64, r: LockRecord)
    requires DecodeRecord(q) == Some(r)
    ensures q == EncodeRecord(r)
  {
    assert q == q / (U32_MAX + 1) * (U32_MAX + 1) + q % (U32_MAX + 1);
  }

  datatype Durable = NoNamespace | NoKey | Stored(word: U64)

  /** The attempts a durable state accounts for. */
  function Used(d: Durable): nat {
    if d.Stored? && DecodeRecord(d.word).Some? then DecodeRecord(d.word).value.attempts else 0
  }

  // ---- what the outside world saw --------------------------------------------

  datatype Event =
    | Opened(id: U64) | Revoked(id: U64)
    | Shown(code: Code) | Cleared
    | Released(code: Code)
    | ZeroRequested
    | Restarted

  /**
   * What the events so far add up to: codes released since the record was last asked to go back to
   * zero, the connection that is open (0: none), the code on display that was not released or
   * cleared yet, and whether the display still shows one.
   */
  datatype Outside = Outside(sinceZero: nat, connection: U64, inPlay: Option<Code>, displayOn: bool)

  function After(o: Outside, e: Event): Outside {
    match e
    case Opened(id) => o.(connection := id)
    case Revoked(_) => o.(connection := 0)
    case Shown(code) => o.(inPlay := Some(code), displayOn := true)
    case Cleared => o.(inPlay := None, displayOn := false)
    case Released(_) => o.(inPlay := None, sinceZero := o.sinceZero + 1)
    case ZeroRequested => o.(sinceZero := 0)
    case Restarted => o.(connection := 0, inPlay := None, displayOn := false)
  }

  function Replay(events: seq<Event>): Outside {
    if events == [] then Outside(0, 0, None, false)
    else After(Replay(events[..|events| - 1]), events[|events| - 1])
  }

  /**
   * Connections open one at a time and are revoked exactly once; a code is released at most once,
   * only while it is on display, and never beyond the attempt limit.
   */
  predicate MayHappen(o: Outside, e: Event, limit: nat) {
    match e
    case Opened(id) => id != 0 && o.connection == 0
    case Revoked(id) => id != 0 && o.connection == id
    case Released(code) => o.inPlay == Some(code) && o.connection != 0 && o.sinceZero < limit
    case _ => true
  }

  predicate EventsOk(events: seq<Event>, limit: nat) {
    forall k | 0 <= k < |events| :: MayHappen(Replay(events[..k]), events[k], limit)
  }

  lemma EventsGrow(events: seq<Event>, e: Event, limit: nat)
    requires EventsOk(events, limit) && MayHappen(Replay(events), e, limit)
    ensures EventsOk(events + [e], limit)
    ensures Replay(events + [e]) == After(Replay(events), e)
  {
    var next := events + [e];
    assert next[..|events|] == events;
    forall k | 0 <= k < |next| ensures MayHappen(Replay(next[..k]), next[k], limit) {
      if k < |events| { assert next[..k] == events[..k] && next[k] == events[k]; }
    }
  }

  function Count(events: seq<Event>): nat {
    if events == [] then 0 else Count(events[..|events| - 1]) + (if events[|events| - 1].Released? then 1 else 0)
  }

  lemma {:induction false} CountSinceZero(events: seq<Event>, i: nat)
    requires i <= |events| && forall k | i <= k < |events| :: !events[k].ZeroRequested?
    ensures Count(events[i..]) <= Replay(events).sinceZero
    decreases |events|
  {
    if i < |events| {
      var n := |events| - 1;
      assert events[i..][..n - i] == events[..n][i..];
      CountSinceZero(events[..n], i);
    }
  }

  lemma {:induction false} SinceZeroBounded(events: seq<Event>, limit: nat)
    requires EventsOk(events, limit)
    ensures Replay(events).sinceZero <= limit
    decreases |events|
  {
    if events != [] {
      var n := |events| - 1;
      assert MayHappen(Replay(events[..n]), events[n], limit);
      assert EventsOk(events[..n], limit) by {
        forall k | 0 <= k < n ensures MayHappen(Replay(events[..n][..k]), events[..n][k], limit) {
          assert events[..n][..k] == events[..k];
        }
      }
      SinceZeroBounded(events[..n], limit);
    }
  }

  /** No request to zero the record between the two. */
  predicate NoZeroRequest(events: seq<Event>, i: nat, j: nat)
    requires j <= |events|
  {
    forall k | i <= k < j :: !events[k].ZeroRequested?
  }

  /** Between two requests to zero the record at most `limit` codes are released, restarts or not. */
  lemma AttemptBound(events: seq<Event>, limit: nat, i: nat, j: nat)
    requires EventsOk(events, limit) && i <= j <= |events| && NoZeroRequest(events, i, j)
    ensures Count(events[i..j]) <= limit
  {
    var front := events[..j];
    assert EventsOk(front, limit) by {
      forall k | 0 <= k < j ensures MayHappen(Replay(front[..k]), front[k], limit) { assert front[..k] == events[..k]; }
    }
    SinceZeroBounded(front, limit);
    CountSinceZero(front, i);
    assert front[i..] == events[i..j];
  }

  predicate OnlyRevocation(events: seq<Event>, i: nat, j: nat, k: nat)
    requires i < k < j <= |events| && events[i].Opened?
  {
    events[k] == Revoked(events[i].id) && (forall m | i < m < j && m != k :: !events[m].Revoked?)
  }

  /** Within one power cycle, a connection is revoked exactly once before another one opens. */
  lemma RevokedOnce(events: seq<Event>, limit: nat, i: nat, j: nat) returns (k: nat)
    requires EventsOk(events, limit) && i < j < |events| && events[i].Opened? && events[j].Opened?
    requires forall m | i < m < j :: !events[m].Opened? && !events[m].Restarted?
    ensures i < k < j && OnlyRevocation(events, i, j, k)
  {
    assert MayHappen(Replay(events[..j]), events[j], limit);
    k := FirstClose(events, limit, i, j);
    forall m | i < m < j && m != k ensures !events[m].Revoked? {
      if m > k { ClosedStays(events, limit, k, m); assert MayHappen(Replay(events[..m]), events[m], limit); }
    }
  }

  lemma {:induction false} StaysOpen(events: seq<Event>, i: nat, k: nat)
    requires i < k <= |events| && events[i].Opened?
    requires forall m | i < m < k :: !events[m].Opened? && !events[m].Revoked? && !events[m].Restarted?
    ensures Replay(events[..k]).connection == events[i].id
    decreases k
  {
    assert events[..k][..k - 1] == events[..k - 1];
    if i < k - 1 { StaysOpen(events, i, k - 1); }
  }

  /** The first event that ends the connection opened at `i`. */
  lemma FirstClose(events: seq<Event>, limit: nat, i: nat, j: nat) returns (k: nat)
    requires EventsOk(events, limit) && i < j <= |events| && events[i].Opened?
    requires forall m | i < m < j :: !events[m].Opened? && !events[m].Restarted?
    requires Replay(events[..j]).connection == 0
    ensures i < k < j && events[k] == Revoked(events[i].id)
    ensures forall m | i < m < k :: !events[m].Revoked?
  {
    hide Replay;
    assert MayHappen(Replay(events[..i]), events[i], limit);
    k := i + 1;
    while k < j && !events[k].Revoked?
      invariant i < k <= j
      invariant forall m | i < m < k :: !events[m].Revoked?
    {
      k := k + 1;
    }
    StaysOpen(events, i, k);
    if k < j { assert MayHappen(Replay(events[..k]), events[k], limit); }
  }

  lemma {:induction false} ClosedStays(events: seq<Event>, limit: nat, k: nat, m: nat)
    requires k < m <= |events| && (events[k].Revoked? || events[k].Restarted?)
    requires forall n | k < n < m :: !events[n].Opened?
    ensures Replay(events[..m]).connection == 0
    decreases m
  {
    assert events[..m][..m - 1] == events[..m - 1];
    if k < m - 1 { ClosedStays(events, limit, k, m - 1); }
  }

  /** One event was added, or power failed and perhaps none was. */
  ghost predicate Happened(before: seq<Event>, after: seq<Event>, powered: bool, e: Event) {
    && (after == before || (after == before + [e] && Replay(after) == After(Replay(before), e)))
    && (powered ==> after == before + [e])
  }

  // ---- the ports -----------------------------------------------------------

  /** What someone at the device asks for. */
  datatype LocalAction = StartPairing | ResetPairing

  /** What a port said when it was asked. */
  datatype Reply =
    | ClockSaid(ok: bool, now: U64) | PresenceSaid(action: LocalAction, ok: bool) | RandomSaid(ok: bool)
    | ShowSaid(ok: bool) | ClearSaid(ok: bool) | StoreSaid(ok: bool) | ConsumerSaid(ok: bool)

  datatype LoadResult = Loaded(record: LockRecord) | Missing | LoadError

  class World {
    var durable: Durable
    var powered: bool
    ghost var events: seq<Event>
    /** Every random byte handed out so far. */
    ghost var drawn: seq<Byte>
    /** What the ports said since the current call began, and how often anything has failed at all. */
    ghost var heard: set<Reply>
    ghost var faults: nat
    /** The attempt limit every lifecycle on this device is created with. */
    ghost const limit: nat

    /** Holds at every moment, so at every moment power may be cut. */
    ghost predicate Safe()
      reads this
    {
      EventsOk(events, limit) && Replay(events).sinceZero <= Used(durable)
    }

    constructor (initial: Durable, attemptLimit: nat)
      ensures Safe() && durable == initial && events == [] && limit == attemptLimit && powered
    {
      durable, powered, limit, events, drawn, heard, faults := initial, true, attemptLimit, [], [], {}, 0;
    }

    method Restart()
      requires Safe()
      modifies this
      ensures Safe() && powered && durable == old(durable) && Happened(old(events), events, true, Restarted)
    {
      EventsGrow(events, Restarted, limit);
      powered, events := true, events + [Restarted];
    }

    /** A port call during which power may fail. */
    method Answer() returns (ok: bool)
      modifies this`powered, this`faults
      ensures powered ==> old(powered)
      ensures ok ==> powered
      ensures if ok then faults == old(faults) else faults > old(faults)
    {
      ok := *;
      if * { powered := false; }
      ok := ok && powered;
      if !ok { faults := faults + 1; }
    }

    method Clock() returns (ok: bool, now: U64)
      modifies this`powered, this`faults, this`heard
      ensures powered ==> old(powered)
      ensures ok ==> powered
      ensures if ok then faults == old(faults) else faults > old(faults)
      ensures heard == old(heard) + {ClockSaid(ok, now)}
    {
      now := *;
      ok := Answer();
      heard := heard + {ClockSaid(ok, now)};
    }

    method Random() returns (ok: bool, value: Byte)
      modifies this`powered, this`faults, this`heard, this`drawn
      ensures faults >= old(faults)
      ensures powered ==> old(powered)
      ensures ok ==> powered
      ensures heard == old(heard) + {RandomSaid(ok)}
      ensures drawn == if ok then old(drawn) + [value] else old(drawn)
    {
      value := *;
      ok := Answer();
      heard := heard + {RandomSaid(ok)};
      if ok { drawn := drawn + [value]; }
    }

    /** A successful write is durable; a failed one may have reached the flash all the same. */
    method Write(d: Durable) returns (ok: bool)
      modifies this`powered, this`faults, this`durable
      ensures powered ==> old(powered)
      ensures if ok then faults == old(faults) else faults > old(faults)
      ensures ok ==> powered && durable == d
      ensures durable == old(durable) || durable == d
    {
      if !powered {
        faults := faults + 1;
        return false;
      }
      var applied := *;
      ok := Answer();
      if ok || applied { durable := d; }
    }

    /** Loads the record; only a missing namespace means that there never was one. */
    method Load() returns (r: LoadResult)
      modifies this`powered, this`faults
      ensures powered ==> old(powered)
      ensures faults >= old(faults)
      ensures faults == old(faults) ==>
        r == if durable.NoNamespace? then Missing
             else if durable.Stored? && DecodeRecord(durable.word).Some? then Loaded(DecodeRecord(durable.word).value)
             else LoadError
      ensures r.Loaded? ==> powered && durable.Stored? && DecodeRecord(durable.word) == Some(r.record)
      ensures r.Missing? ==> powered && durable.NoNamespace?
    {
      var mounted := Answer();
      if !mounted { return LoadError; }
      if durable.NoNamespace? { return Missing; }
      var found := Answer();
      if !found || durable.NoKey? || DecodeRecord(durable.word).None? { return LoadError; }
      return Loaded(DecodeRecord(durable.word).value);
    }

    /** Stores the record and reads it back; success means that exactly this record is durable. */
    method Store(record: LockRecord) returns (ok: bool)
      requires Safe() && (record.attempts == 0 || (powered ==> Used(durable) <= record.attempts))
      modifies this
      ensures Safe() && (powered ==> old(powered))
      ensures ok ==> powered && Storable(record) && durable == Stored(EncodeRecord(record)) && Used(durable) == record.attempts
      ensures durable == old(durable) || (durable.NoKey? && old(durable).NoNamespace?)
              || durable == Stored(EncodeRecord(record))
      ensures if record.attempts == 0 then Happened(old(events), events, ok, ZeroRequested) else events == old(events)
      ensures faults >= old(faults) && (Storable(record) && faults == old(faults) ==> ok)
      ensures heard == old(heard) + {StoreSaid(ok)}
    {
      ok := TryStore(record);
      heard := heard + {StoreSaid(ok)};
    }

    method TryStore(record: LockRecord) returns (ok: bool)
      requires Safe() && (record.attempts == 0 || (powered ==> Used(durable) <= record.attempts))
      modifies this
      ensures Safe() && (powered ==> old(powered)) && heard == old(heard)
      ensures ok ==> powered && Storable(record) && durable == Stored(EncodeRecord(record)) && Used(durable) == record.attempts
      ensures durable == old(durable) || (durable.NoKey? && old(durable).NoNamespace?)
              || durable == Stored(EncodeRecord(record))
      ensures if record.attempts == 0 then Happened(old(events), events, ok, ZeroRequested) else events == old(events)
      ensures faults >= old(faults) && (Storable(record) && faults == old(faults) ==> ok)
    {
      RecordRoundTrip(record);
      if !Storable(record) { return false; }
      assert Used(Stored(EncodeRecord(record))) == record.attempts && Used(NoKey) == 0;
      hide Replay, EventsOk, DecodeRecord, EncodeRecord, Used;
      if record.attempts == 0 && powered {
        EventsGrow(events, ZeroRequested, limit);
        events := events + [ZeroRequested];
      }
      var created := Write(if durable.NoNamespace? then NoKey else durable);
      if !created { return false; }
      var written := Write(Stored(EncodeRecord(record)));
      if !written { return false; }
      var committed := Answer();
      if !committed { return false; }
      var back := Load();
      ok := back.Loaded? && EncodeRecord(back.record) == EncodeRecord(record);
    }

    method Show(code: Code) returns (ok: bool)
      requires Safe()
      modifies this`powered, this`faults, this`heard, this`events
      ensures faults >= old(faults)
      ensures heard == old(heard) + {ShowSaid(ok)}
      ensures Safe() && (powered ==> old(powered)) && (ok ==> powered)
      ensures Happened(old(events), events, powered, Shown(code))
    {
      if * { powered := false; }
      if powered {
        EventsGrow(events, Shown(code), limit);
        events := events + [Shown(code)];
      }
      ok := Answer();
      heard := heard + {ShowSaid(ok)};
    }

    method Clear() returns (ok: bool)
      requires Safe()
      modifies this`powered, this`faults, this`heard, this`events
      ensures faults >= old(faults)
      ensures heard == old(heard) + {ClearSaid(ok)}
      ensures Safe() && (powered ==> old(powered)) && (ok ==> powered)
      ensures if ok then Happened(old(events), events, true, Cleared) else events == old(events)
    {
      ok := Answer();
      if ok {
        EventsGrow(events, Cleared, limit);
        events := events + [Cleared];
      }
      heard := heard + {ClearSaid(ok)};
    }

    /** Whether someone at the device has just asked for this. */
    method Presence(action: LocalAction) returns (ok: bool)
      modifies this`powered, this`faults, this`heard
      ensures faults >= old(faults)
      ensures powered ==> old(powered)
      ensures ok ==> powered
      ensures heard == old(heard) + {PresenceSaid(action, ok)}
    {
      ok := Answer();
      heard := heard + {PresenceSaid(action, ok)};
    }

    /** The owner starts tracking a connection; this is not a port call. */
    method Open(id: U64)
      requires Safe() && id != 0 && (powered ==> Replay(events).connection == 0)
      modifies this`events
      ensures Safe() && Happened(old(events), events, powered, Opened(id))
    {
      if powered {
        EventsGrow(events, Opened(id), limit);
        events := events + [Opened(id)];
      }
    }

    /** Infallible while there is power. */
    method Revoke(id: U64)
      requires Safe() && id != 0 && (powered ==> Replay(events).connection == id)
      modifies this`powered, this`faults, this`events
      ensures faults >= old(faults)
      ensures Safe() && (powered ==> old(powered))
      ensures Happened(old(events), events, powered, Revoked(id))
    {
      if * { powered := false; }
      if powered {
        EventsGrow(events, Revoked(id), limit);
        events := events + [Revoked(id)];
      }
      var survived := Answer();
    }

    /** The code leaves the lifecycle; the attempt must be durable by then. */
    method Release(code: Code) returns (consumed: bool)
      requires Safe()
      requires powered ==> Replay(events).inPlay == Some(code) && Replay(events).connection != 0
      requires powered ==> Replay(events).sinceZero < limit && Replay(events).sinceZero < Used(durable)
      modifies this`powered, this`faults, this`heard, this`events
      ensures faults >= old(faults)
      ensures heard == old(heard) + {ConsumerSaid(consumed)}
      ensures Safe() && (powered ==> old(powered)) && (consumed ==> powered)
      ensures Happened(old(events), events, powered, Released(code))
    {
      if * { powered := false; }
      if powered {
        EventsGrow(events, Released(code), limit);
        events := events + [Released(code)];
      }
      consumed := Answer();
      heard := heard + {ConsumerSaid(consumed)};
    }
  }
}
