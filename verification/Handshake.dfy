/**
 * The pairing handshake: the transcript string, the order of rounds and
 * Finished proofs on both ends, and the keys a channel is made of.
 *
 * EC-JPAKE, HKDF, SHA-256 and HMAC are ideal: a secret, key or proof is the
 * symbolic term of what went into it, so two are equal only if their inputs
 * are. Every call into the crypto library may fail.
 */
module Handshake {
  import opened Common
  import opened Bytes
  import opened PairingRoles

  const NONCE_SIZE := 32
  const DEVICE_ID_MAX := 32
  const ROUND_MAX := 512
  const CODE_SIZE := 8
  /** "AIQA-MGMT-ECJPAKE-v1" and "usb-serial-jtag" in ASCII. */
  const DOMAIN: Bytes := [65, 73, 81, 65, 45, 77, 71, 77, 84, 45, 69, 67, 74, 80, 65, 75, 69, 45, 118, 49]
  const TRANSPORT: Bytes := [117, 115, 98, 45, 115, 101, 114, 105, 97, 108, 45, 106, 116, 97, 103]

  /** What both ends must agree on. */
  datatype Facts = Facts(credential: U32, handshake: U64, deviceId: Bytes, clientNonce: Bytes, deviceNonce: Bytes)

  /** The four round messages; an empty one was not seen yet. */
  datatype Rounds = Rounds(clientOne: Bytes, deviceOne: Bytes, clientTwo: Bytes, deviceTwo: Bytes)

  predicate FactsOk(f: Facts) {
    f.credential != 0 && f.handshake != 0 && 0 < |f.deviceId| <= DEVICE_ID_MAX
    && |f.clientNonce| == NONCE_SIZE && |f.deviceNonce| == NONCE_SIZE
  }

  predicate RoundsOk(r: Rounds) {
    && |r.clientOne| <= ROUND_MAX && |r.deviceOne| <= ROUND_MAX && |r.clientTwo| <= ROUND_MAX && |r.deviceTwo| <= ROUND_MAX
  }

  // ---- the transcript -----------------------------------------------------------

  function Field(value: Bytes): Bytes { Put(|value|, 2) + value }

  function Metadata(f: Facts): Bytes { [1, 1, 1, 2] + Put(f.credential, 4) + Put(f.handshake, 8) }

  /** The byte string that is hashed, in the order it is fed to the hash. */
  function Transcript(f: Facts, r: Rounds): Bytes {
    Field(DOMAIN) + (Metadata(f) + (Field(f.deviceId) + (Field(TRANSPORT) + (f.clientNonce + (f.deviceNonce
      + (Field(r.clientOne) + (Field(r.deviceOne) + (Field(r.clientTwo) + Field(r.deviceTwo)))))))))
  }

  lemma SplitFixed(a: Bytes, x: Bytes, b: Bytes, y: Bytes)
    requires |a| == |b| && a + x == b + y
    ensures a == b && x == y
  {
    assert a == (a + x)[..|a|] && b == (b + y)[..|b|];
    assert x == (a + x)[|a|..] && y == (b + y)[|b|..];
  }

  /** A length-prefixed field can only be read one way. */
  lemma SplitField(a: Bytes, x: Bytes, b: Bytes, y: Bytes)
    requires |a| < 0x1_0000 && |b| < 0x1_0000 && Field(a) + x == Field(b) + y
    ensures a == b && x == y
  {
    assert Put(|a|, 2) + (a + x) == Field(a) + x && Put(|b|, 2) + (b + y) == Field(b) + y;
    SplitFixed(Put(|a|, 2), a + x, Put(|b|, 2), b + y);
    Powers();
    PutInjective(|a|, |b|, 2);
    SplitFixed(a, x, b, y);
  }

  lemma MetadataIsInjective(f: Facts, g: Facts)
    requires Metadata(f) == Metadata(g)
    ensures f.credential == g.credential && f.handshake == g.handshake
  {
    var h: Bytes := [1, 1, 1, 2];
    assert Metadata(f) == h + (Put(f.credential, 4) + Put(f.handshake, 8));
    assert Metadata(g) == h + (Put(g.credential, 4) + Put(g.handshake, 8));
    SplitFixed(h, Put(f.credential, 4) + Put(f.handshake, 8), h, Put(g.credential, 4) + Put(g.handshake, 8));
    SplitFixed(Put(f.credential, 4), Put(f.handshake, 8), Put(g.credential, 4), Put(g.handshake, 8));
    Powers();
    PutInjective(f.credential, g.credential, 4);
    PutInjective(f.handshake, g.handshake, 8);
  }

  lemma RoundsSplit(r: Rounds, s: Rounds)
    requires RoundsOk(r) && RoundsOk(s)
    requires Field(r.clientOne) + (Field(r.deviceOne) + (Field(r.clientTwo) + Field(r.deviceTwo)))
          == Field(s.clientOne) + (Field(s.deviceOne) + (Field(s.clientTwo) + Field(s.deviceTwo)))
    ensures r == s
  {
    SplitField(r.clientOne, Field(r.deviceOne) + (Field(r.clientTwo) + Field(r.deviceTwo)),
               s.clientOne, Field(s.deviceOne) + (Field(s.clientTwo) + Field(s.deviceTwo)));
    SplitField(r.deviceOne, Field(r.clientTwo) + Field(r.deviceTwo), s.deviceOne, Field(s.clientTwo) + Field(s.deviceTwo));
    SplitField(r.clientTwo, Field(r.deviceTwo), s.clientTwo, Field(s.deviceTwo));
    assert Field(r.deviceTwo) + [] == Field(r.deviceTwo) && Field(s.deviceTwo) + [] == Field(s.deviceTwo);
    SplitField(r.deviceTwo, [], s.deviceTwo, []);
  }

  /** Equal transcripts mean equal ids, device id, nonces and all four messages. */
  lemma TranscriptIsInjective(f: Facts, r: Rounds, g: Facts, s: Rounds)
    requires FactsOk(f) && FactsOk(g) && RoundsOk(r) && RoundsOk(s) && Transcript(f, r) == Transcript(g, s)
    ensures f == g && r == s
  {
    var rr := Field(r.clientOne) + (Field(r.deviceOne) + (Field(r.clientTwo) + Field(r.deviceTwo)));
    var ss := Field(s.clientOne) + (Field(s.deviceOne) + (Field(s.clientTwo) + Field(s.deviceTwo)));
    hide Field, Metadata;
    var x5, y5 := f.deviceNonce + rr, g.deviceNonce + ss;
    var x4, y4 := f.clientNonce + x5, g.clientNonce + y5;
    var x3, y3 := Field(TRANSPORT) + x4, Field(TRANSPORT) + y4;
    var x2, y2 := Field(f.deviceId) + x3, Field(g.deviceId) + y3;
    var x1, y1 := Metadata(f) + x2, Metadata(g) + y2;
    assert Transcript(f, r) == Field(DOMAIN) + x1 && Transcript(g, s) == Field(DOMAIN) + y1;
    SplitField(DOMAIN, x1, DOMAIN, y1);
    MetadataSize(f);
    MetadataSize(g);
    SplitFixed(Metadata(f), x2, Metadata(g), y2);
    MetadataIsInjective(f, g);
    SplitField(f.deviceId, x3, g.deviceId, y3);
    SplitField(TRANSPORT, x4, TRANSPORT, y4);
    SplitFixed(f.clientNonce, x5, g.clientNonce, y5);
    SplitFixed(f.deviceNonce, rr, g.deviceNonce, ss);
    RoundsSplit(r, s);
  }

  lemma MetadataSize(f: Facts)
    ensures |Metadata(f)| == 16
  {
  }

  // ---- ideal crypto -----------------------------------------------------------------

  /** What EC-JPAKE agrees on: the same secret for the same code and the same messages only. */
  datatype Secret = Secret(code: Bytes, rounds: Rounds)

  datatype Label = ClientToDeviceKey | DeviceToClientKey | ClientToDevicePrefix | DeviceToClientPrefix | SessionId

  datatype Key = Derived(secret: Secret, transcript: Bytes, purpose: Label)

  /** A Finished proof names its sender; anything else on the wire is noise. */
  datatype Proof = Finished(sender: Role, secret: Secret, transcript: Bytes) | Noise(n: nat)

  datatype ChannelKeys = ChannelKeys(role: Role, sendKey: Key, receiveKey: Key, sendPrefix: Key, receivePrefix: Key, session: Key)

  /** The key direction of a channel end. */
  function KeysFor(role: Role, secret: Secret, transcript: Bytes): ChannelKeys {
    var up, down := Derived(secret, transcript, ClientToDeviceKey), Derived(secret, transcript, DeviceToClientKey);
    var upPrefix, downPrefix := Derived(secret, transcript, ClientToDevicePrefix), Derived(secret, transcript, DeviceToClientPrefix);
    var session := Derived(secret, transcript, SessionId);
    if role.Client? then ChannelKeys(role, up, down, upPrefix, downPrefix, session)
    else ChannelKeys(role, down, up, downPrefix, upPrefix, session)
  }

  /** The client sends with the client-to-device key and prefix and receives with the other two; the device mirrors it. */
  predicate Directed(k: ChannelKeys, secret: Secret, transcript: Bytes) {
    && k.sendKey == Derived(secret, transcript, if k.role == Client then ClientToDeviceKey else DeviceToClientKey)
    && k.receiveKey == Derived(secret, transcript, if k.role == Client then DeviceToClientKey else ClientToDeviceKey)
    && k.sendPrefix == Derived(secret, transcript, if k.role == Client then ClientToDevicePrefix else DeviceToClientPrefix)
    && k.receivePrefix == Derived(secret, transcript, if k.role == Client then DeviceToClientPrefix else ClientToDevicePrefix)
    && k.session == Derived(secret, transcript, SessionId)
  }

  predicate Mirrored(a: ChannelKeys, b: ChannelKeys) {
    && a.role != b.role && a.session == b.session && a.sendKey != a.receiveKey
    && a.sendKey == b.receiveKey && a.receiveKey == b.sendKey
    && a.sendPrefix == b.receivePrefix && a.receivePrefix == b.sendPrefix
  }

  /** The crypto library: any call may fail, and failures are counted so that contracts can say what follows without one. */
  class Library {
    ghost var faults: nat

    constructor () { faults := 0; }

    method Works() returns (ok: bool)
      modifies this
      ensures if ok then faults == old(faults) else faults > old(faults)
    {
      ok := *;
      if !ok { faults := faults + 1; }
    }

    /** A round message; an empty or oversized one counts as a failure. */
    method WriteMessage() returns (ok: bool, message: Bytes)
      modifies this
      ensures if ok && 0 < |message| <= ROUND_MAX then faults == old(faults) else faults > old(faults)
    {
      ok, message := *, *;
      if !ok || message == [] || |message| > ROUND_MAX { faults := faults + 1; }
    }
  }

  // ---- one end's context -----------------------------------------------------------------

  /** The message stored for a sender's first or second round. */
  function RoundOf(r: Rounds, sender: Role, second: bool): Bytes {
    match (sender, second)
    case (Client, false) => r.clientOne
    case (Client, true) => r.clientTwo
    case (Device, false) => r.deviceOne
    case (Device, true) => r.deviceTwo
  }

  /** `message` reads back as this round, and the other three are untouched. */
  ghost predicate Placed(before: Rounds, after: Rounds, sender: Role, second: bool, message: Bytes) {
    && RoundOf(after, sender, second) == message
    && forall s: Role, t: bool :: s != sender || t != second ==> RoundOf(after, s, t) == RoundOf(before, s, t)
  }

  /** The four messages are all there is to `Rounds`. */
  lemma SameRounds(r: Rounds, s: Rounds)
    requires forall e: Role, t: bool :: RoundOf(r, e, t) == RoundOf(s, e, t)
    ensures r == s
  {
    assert RoundOf(r, Client, false) == RoundOf(s, Client, false) && RoundOf(r, Client, true) == RoundOf(s, Client, true);
    assert RoundOf(r, Device, false) == RoundOf(s, Device, false) && RoundOf(r, Device, true) == RoundOf(s, Device, true);
  }

  /** Two ends that place the same message in the same round stay equal. */
  lemma PlacedAlike(before: Rounds, a: Rounds, b: Rounds, sender: Role, second: bool, message: Bytes)
    requires Placed(before, a, sender, second, message) && Placed(before, b, sender, second, message)
    ensures a == b
  {
    SameRounds(a, b);
  }

  /** What a context has done so far. */
  datatype Progress = Progress(ownOne: bool, peerOne: bool, ownTwo: bool, peerTwo: bool, derived: bool, failed: bool)

  const NOTHING_DONE := Progress(false, false, false, false, false, false)

  predicate MayWrite(p: Progress, second: bool) {
    !p.failed && if second then p.ownOne && p.peerOne && !p.ownTwo else !p.ownOne
  }

  predicate MayRead(p: Progress, second: bool) {
    !p.failed && if second then p.ownOne && p.peerOne && !p.peerTwo else !p.peerOne
  }

  predicate MayDerive(p: Progress) { !p.failed && p.ownTwo && p.peerTwo && !p.derived }

  class Context {
    const library: Library
    const role: Role
    const facts: Facts
    const code: Bytes
    var rounds: Rounds
    var ownOne: bool
    var peerOne: bool
    var ownTwo: bool
    var peerTwo: bool
    var derived: bool
    var failed: bool

    predicate Valid()
      reads this
    {
      && FactsOk(facts) && RoundsOk(rounds)
      && (ownTwo ==> ownOne && peerOne) && (peerTwo ==> ownOne && peerOne)
      && (derived ==> ownTwo && peerTwo)
    }

    function Done(): Progress
      reads this
    {
      Progress(ownOne, peerOne, ownTwo, peerTwo, derived, failed)
    }

    constructor (l: Library, r: Role, pairingCode: Bytes, f: Facts)
      requires FactsOk(f)
      ensures Valid() && library == l && role == r && facts == f && code == pairingCode
      ensures rounds == Rounds([], [], [], []) && Done() == NOTHING_DONE
    {
      library, role, facts, code, rounds := l, r, f, pairingCode, Rounds([], [], [], []);
      ownOne, peerOne, ownTwo, peerTwo, derived, failed := false, false, false, false, false, false;
    }

    /** The message goes where the transcript expects its sender's. */
    method StoreRound(sender: Role, second: bool, message: Bytes)
      modifies this`rounds
      ensures Placed(old(rounds), rounds, sender, second, message)
    {
      if sender.Client? {
        rounds := if second then rounds.(clientTwo := message) else rounds.(clientOne := message);
      } else {
        rounds := if second then rounds.(deviceTwo := message) else rounds.(deviceOne := message);
      }
    }

    method WriteRound(second: bool, capacity: nat) returns (r: Result, message: Bytes)
      requires Valid()
      modifies this, library
      ensures Valid() && library.faults >= old(library.faults)
      ensures r == Ok ==>
        && Placed(old(rounds), rounds, role, second, message) && 0 < |message| <= ROUND_MAX
        && Done() == (if second then old(Done()).(ownTwo := true) else old(Done()).(ownOne := true))
      ensures r != Ok ==> rounds == old(rounds) && message == []
      ensures r == InvalidState <==> !MayWrite(old(Done()), second)
      ensures r == BufferTooSmall <==> MayWrite(old(Done()), second) && capacity < ROUND_MAX
      ensures r == InvalidState || r == BufferTooSmall ==> Done() == old(Done())
      ensures r == CryptoError ==> Done() == old(Done()).(failed := true) && library.faults > old(library.faults)
      ensures r in {Ok, InvalidState, BufferTooSmall, CryptoError}
    {
      message := [];
      if failed || (if second then !ownOne || !peerOne || ownTwo else ownOne) { return InvalidState, []; }
      if capacity < ROUND_MAX { return BufferTooSmall, []; }
      var works, written := library.WriteMessage();
      if !works || written == [] || |written| > ROUND_MAX {
        failed := true;
        return CryptoError, [];
      }
      StoreRound(role, second, written);
      RoundsFit(old(rounds), rounds, role, second, written);
      if second { ownTwo := true; } else { ownOne := true; }
      r, message := Ok, written;
    }

    method ReadRound(second: bool, message: Bytes) returns (r: Result)
      requires Valid()
      modifies this, library
      ensures Valid() && library.faults >= old(library.faults)
      ensures r == Ok ==>
        && Placed(old(rounds), rounds, Peer(role), second, message)
        && Done() == (if second then old(Done()).(peerTwo := true) else old(Done()).(peerOne := true))
      ensures r != Ok ==> rounds == old(rounds)
      ensures r == InvalidArgument <==> message == [] || |message| > ROUND_MAX
      ensures r == InvalidState <==> 0 < |message| <= ROUND_MAX && !MayRead(old(Done()), second)
      ensures r == InvalidArgument || r == InvalidState ==> Done() == old(Done())
      ensures r == CryptoError ==> Done() == old(Done()).(failed := true) && library.faults > old(library.faults)
      ensures r in {Ok, InvalidArgument, InvalidState, CryptoError}
    {
      if message == [] || |message| > ROUND_MAX { return InvalidArgument; }
      if failed || (if second then !ownOne || !peerOne || peerTwo else peerOne) { return InvalidState; }
      var works := library.Works();
      if !works {
        failed := true;
        return CryptoError;
      }
      StoreRound(Peer(role), second, message);
      RoundsFit(old(rounds), rounds, Peer(role), second, message);
      if second { peerTwo := true; } else { peerOne := true; }
      r := Ok;
    }

    /** The hash is fed the protocol's name, the facts and the messages, in this order and with these lengths. */
    method FeedField(fed: Bytes, value: Bytes) returns (ok: bool, more: Bytes)
      modifies library
      ensures library.faults >= old(library.faults) && (!ok && |value| < 0x1_0000 ==> library.faults > old(library.faults))
      ensures ok ==> |value| < 0x1_0000 && more == fed + Field(value)
    {
      if |value| > 0xFFFF { return false, fed; }
      ok := library.Works();
      more := fed + [|value| / 256, |value| % 256];
      assert [|value| / 256, |value| % 256] == Put(|value|, 2) by {
        assert Put(|value|, 2) == Put(|value| / 256, 1) + [|value| % 256];
        assert Put(|value| / 256, 1) == Put(|value| / 256 / 256, 0) + [|value| / 256 % 256];
      }
      if ok && |value| > 0 { ok := library.Works(); }
      more := more + value;
      assert more == fed + Field(value);
    }

    method FeedPlain(fed: Bytes, value: Bytes) returns (ok: bool, more: Bytes)
      modifies library
      ensures library.faults >= old(library.faults) && (!ok ==> library.faults > old(library.faults))
      ensures more == fed + value
    {
      ok := library.Works();
      more := fed + value;
    }

    /** Success means that exactly the transcript was hashed. */
    method FeedTranscript() returns (ok: bool, fed: Bytes)
      requires Valid()
      modifies library
      ensures library.faults >= old(library.faults) && (!ok ==> library.faults > old(library.faults))
      ensures ok ==> fed == Transcript(facts, rounds)
    {
      hide Field, Metadata;
      ok, fed := FeedField([], DOMAIN);
      if ok { ok, fed := FeedPlain(fed, Metadata(facts)); }
      if ok { ok, fed := FeedField(fed, facts.deviceId); }
      if ok { ok, fed := FeedField(fed, TRANSPORT); }
      if ok { ok, fed := FeedPlain(fed, facts.clientNonce); }
      if ok { ok, fed := FeedPlain(fed, facts.deviceNonce); }
      if ok { ok, fed := FeedField(fed, rounds.clientOne); }
      if ok { ok, fed := FeedField(fed, rounds.deviceOne); }
      if ok { ok, fed := FeedField(fed, rounds.clientTwo); }
      if ok { ok, fed := FeedField(fed, rounds.deviceTwo); }
      if ok { Regroup(); }
    }

    /** The same fields, one after the other. */
    lemma Regroup()
      ensures [] + Field(DOMAIN) + Metadata(facts) + Field(facts.deviceId) + Field(TRANSPORT) + facts.clientNonce
        + facts.deviceNonce + Field(rounds.clientOne) + Field(rounds.deviceOne) + Field(rounds.clientTwo)
        + Field(rounds.deviceTwo) == Transcript(facts, rounds)
    {
      hide Field, Metadata;
    }

    /** Keys exist exactly when all four messages are there, once per context, unless the library fails. */
    method DeriveKeys() returns (r: Result, keys: PairingKeys?)
      requires Valid()
      modifies this`derived, this`failed, library
      ensures Valid() && library.faults >= old(library.faults)
      ensures r == Ok <==> keys != null
      ensures keys != null ==>
        && fresh(keys) && MayDerive(old(Done())) && Done() == old(Done()).(derived := true)
        && keys.library == library
        && keys.role == role && keys.secret == Secret(code, rounds) && keys.transcript == Transcript(facts, rounds)
        && !keys.localFinished && !keys.peerFinished && !keys.failed
      ensures r == InvalidState <==> !MayDerive(old(Done()))
      ensures r == InvalidState ==> Done() == old(Done())
      ensures r == CryptoError ==> Done() == old(Done()).(failed := true) && library.faults > old(library.faults)
      ensures r in {Ok, InvalidState, CryptoError}
    {
      if failed || !ownTwo || !peerTwo || derived { return InvalidState, null; }
      var works, transcript := FeedTranscript();
      if works { works := library.Works(); }
      if !works {
        failed := true;
        return CryptoError, null;
      }
      keys := new PairingKeys(library, role, Secret(code, rounds), transcript);
      derived := true;
      r := Ok;
    }
  }

  lemma RoundsFit(before: Rounds, after: Rounds, sender: Role, second: bool, message: Bytes)
    requires RoundsOk(before) && Placed(before, after, sender, second, message) && |message| <= ROUND_MAX
    ensures RoundsOk(after)
  {
    forall s: Role, t: bool ensures |RoundOf(after, s, t)| <= ROUND_MAX {
      if s != sender || t != second { assert RoundOf(after, s, t) == RoundOf(before, s, t); }
    }
    assert |RoundOf(after, Client, false)| <= ROUND_MAX && |RoundOf(after, Client, true)| <= ROUND_MAX;
    assert |RoundOf(after, Device, false)| <= ROUND_MAX && |RoundOf(after, Device, true)| <= ROUND_MAX;
  }

  class PairingKeys {
    const library: Library
    const role: Role
    const secret: Secret
    const transcript: Bytes
    var localFinished: bool
    var peerFinished: bool
    var failed: bool

    constructor (l: Library, r: Role, s: Secret, t: Bytes)
      ensures library == l && role == r && secret == s && transcript == t && !localFinished && !peerFinished && !failed
    {
      library, role, secret, transcript := l, r, s, t;
      localFinished, peerFinished, failed := false, false, false;
    }

    /** The first request for the own role gets the proof, unless the library fails. */
    method CreateFinished(sender: Role) returns (r: Result, proof: Proof)
      modifies this`localFinished, library
      ensures library.faults >= old(library.faults)
      ensures r == Ok ==> localFinished && proof == Finished(role, secret, transcript)
      ensures r != Ok ==> localFinished == old(localFinished) && proof.Noise?
      ensures r == InvalidState <==> failed || sender != role || old(localFinished)
      ensures r == CryptoError ==> library.faults > old(library.faults)
      ensures r in {Ok, InvalidState, CryptoError}
    {
      proof := Noise(0);
      if failed || sender != role || localFinished { return InvalidState, proof; }
      var works := library.Works();
      if !works { return CryptoError, proof; }
      localFinished := true;
      r, proof := Ok, Finished(sender, secret, transcript);
    }

    /** The first proof asked about passes exactly if it is the peer's; a wrong one spoils the keys for good. */
    method VerifyFinished(sender: Role, proof: Proof) returns (r: Result)
      modifies this`peerFinished, this`failed, library
      ensures library.faults >= old(library.faults)
      ensures r == InvalidState <==> old(failed) || sender != Peer(role) || old(peerFinished)
      ensures r == Ok ==> proof == Finished(Peer(role), secret, transcript) && peerFinished
      ensures r == AuthFailed ==> proof != Finished(Peer(role), secret, transcript)
      ensures r != Ok ==> peerFinished == old(peerFinished)
      ensures failed == (old(failed) || r == AuthFailed)
      ensures r == CryptoError ==> library.faults > old(library.faults)
      ensures r in {Ok, InvalidState, CryptoError, AuthFailed}
    {
      if failed || sender != Peer(role) || peerFinished { return InvalidState; }
      var works := library.Works();
      if !works { return CryptoError; }
      if proof != Finished(sender, secret, transcript) {
        failed := true;
        return AuthFailed;
      }
      peerFinished := true;
      r := Ok;
    }

    /** The only way to a channel. */
    method MakeChannel() returns (r: Result, channel: Option<ChannelKeys>)
      modifies library
      ensures library.faults >= old(library.faults)
      ensures channel == (if r == Ok then Some(KeysFor(role, secret, transcript)) else None)
      ensures r == Ok ==> channel.value.role == role && Directed(channel.value, secret, transcript)
      ensures r == InvalidState <==> failed || !localFinished || !peerFinished
      ensures r == CryptoError ==> library.faults > old(library.faults)
      ensures r in {Ok, InvalidState, CryptoError}
    {
      if failed || !localFinished || !peerFinished { return InvalidState, None; }
      var works := library.Works();
      if !works { return CryptoError, None; }
      r, channel := Ok, Some(KeysFor(role, secret, transcript));
    }
  }

  // ---- the device's session --------------------------------------------------------------

  /** The keys in hand are those of this context's finished transcript. */
  predicate KeysOf(k: PairingKeys, c: Context)
    reads k, c
  {
    && k.library == c.library && k.role == c.role
    && k.secret == Secret(c.code, c.rounds) && k.transcript == Transcript(c.facts, c.rounds)
  }

  /** The proof a context's end makes over its own finished transcript. */
  function OwnProof(c: Context, sender: Role): Proof
    reads c
  {
    Finished(sender, Secret(c.code, c.rounds), Transcript(c.facts, c.rounds))
  }

  class DeviceSession {
    const pairing: Context
    var keys: PairingKeys?
    var channel: Option<ChannelKeys>
    var confirmed: bool
    /** Every channel this session ever made, and the proof it accepted for it. */
    ghost var made: seq<ChannelKeys>
    ghost var accepted: Option<Proof>
    ghost var sentProof: Option<Proof>

    ghost predicate Valid()
      reads this, pairing, keys
    {
      && pairing.Valid() && pairing.role.Device?
      && (keys != null ==>
            && KeysOf(keys, pairing) && pairing.derived && made == []
            && !keys.failed && !keys.localFinished && !keys.peerFinished)
      && |made| <= 1 && (channel.Some? ==> confirmed && made == [channel.value])
      && (made != [] ==>
            && pairing.derived && made[0] == KeysFor(Device, Secret(pairing.code, pairing.rounds), Transcript(pairing.facts, pairing.rounds))
            && accepted == Some(OwnProof(pairing, Client)) && sentProof == Some(OwnProof(pairing, Device)))
    }

    /** Still exchanging rounds. */
    predicate Open()
      reads this
    {
      keys == null && channel.None?
    }

    constructor (library: Library, code: Bytes, facts: Facts)
      requires FactsOk(facts)
      ensures Valid() && fresh(pairing) && made == [] && Open() && !confirmed
      ensures pairing.library == library && pairing.code == code && pairing.facts == facts
      ensures pairing.rounds == Rounds([], [], [], []) && pairing.Done() == NOTHING_DONE
    {
      pairing := new Context(library, Device, code, facts);
      keys, channel, confirmed, made, accepted, sentProof := null, None, false, [], None, None;
    }

    method WriteRoundOne(capacity: nat) returns (r: Result, message: Bytes)
      requires Valid()
      modifies pairing, pairing.library
      ensures Valid() && pairing.library.faults >= old(pairing.library.faults)
      ensures r == Ok ==>
        && Placed(old(pairing.rounds), pairing.rounds, Device, false, message) && 0 < |message| <= ROUND_MAX
        && pairing.Done() == old(pairing.Done()).(ownOne := true)
      ensures r != Ok ==> pairing.rounds == old(pairing.rounds)
      ensures Open() && MayWrite(old(pairing.Done()), false) && capacity >= ROUND_MAX ==>
        r == Ok || pairing.library.faults > old(pairing.library.faults)
    {
      if keys != null || channel.Some? { return InvalidState, []; }
      r, message := pairing.WriteRound(false, capacity);
    }

    method ReadRoundOne(message: Bytes) returns (r: Result)
      requires Valid()
      modifies pairing, pairing.library
      ensures Valid() && pairing.library.faults >= old(pairing.library.faults)
      ensures r == Ok ==>
        && Placed(old(pairing.rounds), pairing.rounds, Client, false, message)
        && pairing.Done() == old(pairing.Done()).(peerOne := true)
      ensures r != Ok ==> pairing.rounds == old(pairing.rounds)
      ensures Open() && MayRead(old(pairing.Done()), false) && 0 < |message| <= ROUND_MAX ==>
        r == Ok || pairing.library.faults > old(pairing.library.faults)
    {
      if keys != null || channel.Some? { return InvalidState; }
      r := pairing.ReadRound(false, message);
    }

    method CompleteRoundTwo(message: Bytes, capacity: nat) returns (r: Result, answer: Bytes)
      requires Valid()
      modifies this`keys, pairing, pairing.library
      ensures Valid() && (keys == old(keys) || fresh(keys)) && pairing.library.faults >= old(pairing.library.faults)
      ensures r == Ok ==>
        && keys != null && old(keys) == null && 0 < |answer| <= ROUND_MAX
        && pairing.rounds == old(pairing.rounds).(clientTwo := message, deviceTwo := answer)
        && pairing.Done() == old(pairing.Done()).(peerTwo := true, ownTwo := true, derived := true)
      ensures (old(Open()) && MayRead(old(pairing.Done()), true) && MayWrite(old(pairing.Done()), true) &&
               !old(pairing.derived) && 0 < |message| <= ROUND_MAX && capacity >= ROUND_MAX)
        ==> r == Ok || pairing.library.faults > old(pairing.library.faults)
    {
      hide Transcript, RoundsOk;
      answer := [];
      if keys != null || channel.Some? { return InvalidState, []; }
      r := pairing.ReadRound(true, message);
      if r != Ok { return; }
      ghost var half := pairing.rounds;
      r, answer := pairing.WriteRound(true, capacity);
      if r != Ok { return; }
      PlacedTwice(old(pairing.rounds), half, pairing.rounds, message, answer);
      r, keys := pairing.DeriveKeys();
    }

    /**
     * The client's proof first, then our own, then the channel. Past the first check the keys are gone
     * whatever happens; without a library failure the channel comes up exactly for the right proof.
     */
    method Confirm(clientProof: Proof) returns (r: Result, deviceProof: Proof)
      requires Valid()
      modifies this`keys, this`channel, this`confirmed, this`made, this`accepted, this`sentProof, keys, pairing.library
      ensures Valid() && pairing.library.faults >= old(pairing.library.faults)
      ensures r == Ok ==>
        && channel.Some? && confirmed && made == [channel.value] && old(made) == []
        && accepted == Some(clientProof) && sentProof == Some(deviceProof)
      ensures r != Ok ==> made == old(made) && deviceProof.Noise? && channel == old(channel) && confirmed == old(confirmed)
      ensures old(keys == null || channel.Some? || confirmed) ==> r == InvalidState && keys == old(keys)
      ensures old(keys != null && channel.None? && !confirmed) ==>
        && keys == null
        && (r == Ok ==> clientProof == OwnProof(pairing, Client))
        && (pairing.library.faults == old(pairing.library.faults) ==>
              r == if clientProof == OwnProof(pairing, Client) then Ok else AuthFailed)
    {
      hide Transcript;
      deviceProof := Noise(0);
      if keys == null || channel.Some? || confirmed { return InvalidState, deviceProof; }
      r := keys.VerifyFinished(Client, clientProof);
      if r == Ok { r, deviceProof := keys.CreateFinished(Device); }
      if r == Ok {
        var c;
        r, c := keys.MakeChannel();
        if r == Ok {
          channel, confirmed, made, accepted, sentProof := c, true, [c.value], Some(clientProof), Some(deviceProof);
        }
      }
      if r != Ok { deviceProof := Noise(0); }
      keys := null;
    }

    /** The channel changes hands once. */
    method TakeChannel() returns (r: Result, taken: Option<ChannelKeys>)
      requires Valid()
      modifies this`channel, this`confirmed
      ensures Valid() && (r == Ok <==> taken.Some?)
      ensures taken.Some? <==> old(confirmed && channel.Some?)
      ensures taken.Some? ==> old(channel) == taken && channel.None? && !confirmed && made == [taken.value]
      ensures taken.None? ==> channel == old(channel) && confirmed == old(confirmed)
    {
      if !confirmed || channel.None? { return InvalidArgument, None; }
      r, taken := Ok, channel;
      channel, confirmed := None, false;
    }
  }

  lemma PlacedTwice(before: Rounds, half: Rounds, after: Rounds, message: Bytes, answer: Bytes)
    requires Placed(before, half, Client, true, message) && Placed(half, after, Device, true, answer)
    ensures after == before.(clientTwo := message, deviceTwo := answer)
  {
    var both := before.(clientTwo := message, deviceTwo := answer);
    forall s: Role, t: bool ensures RoundOf(after, s, t) == RoundOf(both, s, t) {
      assert t || RoundOf(half, s, t) == RoundOf(before, s, t);
      assert RoundOf(half, Client, true) == message;
    }
    SameRounds(after, both);
  }

  // ---- the client's session --------------------------------------------------------------

  class ClientSession {
    const pairing: Context
    var keys: PairingKeys?
    var channel: Option<ChannelKeys>
    var finishedCreated: bool
    ghost var made: seq<ChannelKeys>
    ghost var accepted: Option<Proof>
    ghost var sentProof: Option<Proof>

    ghost predicate Valid()
      reads this, pairing, keys
    {
      && pairing.Valid() && pairing.role.Client?
      && (keys != null ==>
            && KeysOf(keys, pairing) && pairing.derived && made == [] && !keys.failed
            && (finishedCreated ==> keys.localFinished))
      && |made| <= 1 && (channel.Some? ==> made == [channel.value])
      && (sentProof.Some? ==> pairing.derived && sentProof == Some(OwnProof(pairing, Client)))
      && (finishedCreated ==> sentProof.Some?)
      && (made != [] ==>
            && finishedCreated
            && made[0] == KeysFor(Client, Secret(pairing.code, pairing.rounds), Transcript(pairing.facts, pairing.rounds))
            && accepted == Some(OwnProof(pairing, Device)))
    }

    /** Still exchanging rounds. */
    predicate Open()
      reads this
    {
      keys == null && channel.None?
    }

    constructor (library: Library, code: Bytes, facts: Facts)
      requires FactsOk(facts)
      ensures Valid() && fresh(pairing) && made == [] && Open() && sentProof.None? && !finishedCreated
      ensures pairing.library == library && pairing.code == code && pairing.facts == facts
      ensures pairing.rounds == Rounds([], [], [], []) && pairing.Done() == NOTHING_DONE
    {
      pairing := new Context(library, Client, code, facts);
      keys, channel, finishedCreated, made, accepted, sentProof := null, None, false, [], None, None;
    }

    method WriteRound(second: bool, capacity: nat) returns (r: Result, message: Bytes)
      requires Valid()
      modifies pairing, pairing.library
      ensures Valid() && pairing.library.faults >= old(pairing.library.faults)
      ensures r == Ok ==>
        && Placed(old(pairing.rounds), pairing.rounds, Client, second, message) && 0 < |message| <= ROUND_MAX
        && pairing.Done() == (if second then old(pairing.Done()).(ownTwo := true) else old(pairing.Done()).(ownOne := true))
      ensures r != Ok ==> pairing.rounds == old(pairing.rounds)
      ensures Open() && MayWrite(old(pairing.Done()), second) && capacity >= ROUND_MAX ==>
        r == Ok || pairing.library.faults > old(pairing.library.faults)
    {
      if keys != null || channel.Some? { return InvalidState, []; }
      r, message := pairing.WriteRound(second, capacity);
    }

    method ReadRound(second: bool, message: Bytes) returns (r: Result)
      requires Valid()
      modifies pairing, pairing.library
      ensures Valid() && pairing.library.faults >= old(pairing.library.faults)
      ensures r == Ok ==>
        && Placed(old(pairing.rounds), pairing.rounds, Device, second, message)
        && pairing.Done() == (if second then old(pairing.Done()).(peerTwo := true) else old(pairing.Done()).(peerOne := true))
      ensures r != Ok ==> pairing.rounds == old(pairing.rounds)
      ensures Open() && MayRead(old(pairing.Done()), second) && 0 < |message| <= ROUND_MAX ==>
        r == Ok || pairing.library.faults > old(pairing.library.faults)
    {
      if keys != null || channel.Some? { return InvalidState; }
      r := pairing.ReadRound(second, message);
    }

    /** One proof, over the own finished transcript, as soon as all four messages are there. */
    method CreateFinished() returns (r: Result, proof: Proof)
      requires Valid()
      modifies this`keys, this`finishedCreated, this`sentProof, pairing, pairing.library
      ensures Valid() && (keys == old(keys) || fresh(keys)) && pairing.rounds == old(pairing.rounds)
      ensures pairing.library.faults >= old(pairing.library.faults)
      ensures r == Ok ==>
        && !old(finishedCreated) && old(Open()) && MayDerive(old(pairing.Done()))
        && finishedCreated && sentProof == Some(proof) && proof == OwnProof(pairing, Client)
        && keys != null && !keys.peerFinished
      ensures r != Ok ==> proof.Noise? && finishedCreated == old(finishedCreated)
      ensures old(Open()) && !old(finishedCreated) && MayDerive(old(pairing.Done())) ==>
        r == Ok || pairing.library.faults > old(pairing.library.faults)
    {
      hide Transcript;
      proof := Noise(0);
      if keys != null || channel.Some? || finishedCreated { return InvalidState, proof; }
      r, keys := pairing.DeriveKeys();
      if r != Ok { return; }
      r, proof := keys.CreateFinished(Client);
      if r == Ok { finishedCreated, sentProof := true, Some(proof); }
    }

    /** The channel comes up exactly for the device's proof, unless the library fails. */
    method VerifyFinished(proof: Proof) returns (r: Result)
      requires Valid()
      modifies this`keys, this`channel, this`made, this`accepted, keys, pairing.library
      ensures Valid() && (keys == old(keys) || keys == null) && pairing.library.faults >= old(pairing.library.faults)
      ensures r == Ok ==>
        && old(finishedCreated) && channel.Some? && made == [channel.value] && old(made) == [] && accepted == Some(proof)
        && proof == OwnProof(pairing, Device)
      ensures r != Ok ==> made == old(made) && channel == old(channel)
      ensures old(keys == null || channel.Some? || !finishedCreated) ==> r == InvalidState && keys == old(keys)
      ensures old(keys != null && channel.None? && finishedCreated && !keys.peerFinished) ==>
        && (r == AuthFailed ==> keys == null)
        && (pairing.library.faults == old(pairing.library.faults) ==>
              r == if proof == OwnProof(pairing, Device) then Ok else AuthFailed)
    {
      hide Transcript;
      if keys == null || channel.Some? || !finishedCreated { return InvalidState; }
      r := keys.VerifyFinished(Device, proof);
      if r != Ok {
        keys := null;
        return;
      }
      var c;
      r, c := keys.MakeChannel();
      var consumed := *;
      if r == Ok || consumed { keys := null; }
      if r == Ok { channel, made, accepted := c, [c.value], Some(proof); }
    }
  }

  // ---- agreement ----------------------------------------------------------------------------

  /**
   * If the device's channel rests on the proof this client made, both ends agree on the code, on
   * every id and nonce and on all four messages, and the two channels fit together.
   */
  lemma Agreement(d: DeviceSession, c: ClientSession)
    requires d.Valid() && c.Valid() && d.made != [] && c.made != [] && d.accepted == c.sentProof
    ensures d.pairing.code == c.pairing.code && d.pairing.facts == c.pairing.facts && d.pairing.rounds == c.pairing.rounds
    ensures Mirrored(c.made[0], d.made[0])
  {
    TranscriptIsInjective(d.pairing.facts, d.pairing.rounds, c.pairing.facts, c.pairing.rounds);
  }

  /** What the device's acceptance of this client's proof says about the two sessions. */
  lemma AcceptedMeansSame(d: DeviceSession, c: ClientSession)
    requires d.Valid() && c.Valid() && d.made != [] && d.accepted == c.sentProof
    ensures d.pairing.code == c.pairing.code && d.pairing.facts == c.pairing.facts && d.pairing.rounds == c.pairing.rounds
  {
    TranscriptIsInjective(d.pairing.facts, d.pairing.rounds, c.pairing.facts, c.pairing.rounds);
  }

  /** The client's message to the device and the device's answer: the two ends stay equal. */
  method FirstRound(c: ClientSession, d: DeviceSession) returns (r: Result)
    requires c.Valid() && d.Valid() && c.Open() && d.Open()
    requires c.pairing.rounds == d.pairing.rounds == Rounds([], [], [], [])
    requires c.pairing.Done() == d.pairing.Done() == NOTHING_DONE
    modifies c.pairing, d.pairing, c.pairing.library, d.pairing.library
    ensures c.Valid() && d.Valid() && c.Open() && d.Open()
    ensures c.pairing.library.faults >= old(c.pairing.library.faults) && d.pairing.library.faults >= old(d.pairing.library.faults)
    ensures r == Ok ==>
      && c.pairing.rounds == d.pairing.rounds
      && c.pairing.Done() == d.pairing.Done() == NOTHING_DONE.(ownOne := true, peerOne := true)
    ensures c.pairing.library.faults == old(c.pairing.library.faults) && d.pairing.library.faults == old(d.pairing.library.faults)
      ==> r == Ok
  {
    hide Transcript, Placed, RoundsOk, RoundOf;
    ghost var start, half := c.pairing.rounds, c.pairing.rounds;
    var c1, d1;
    r, c1 := c.WriteRound(false, ROUND_MAX);
    if r != Ok { return; }
    half := c.pairing.rounds;
    r := d.ReadRoundOne(c1);
    if r != Ok { return; }
    PlacedAlike(start, half, d.pairing.rounds, Client, false, c1);
    r, d1 := d.WriteRoundOne(ROUND_MAX);
    if r != Ok { return; }
    r := c.ReadRound(false, d1);
    if r == Ok { PlacedAlike(half, c.pairing.rounds, d.pairing.rounds, Device, false, d1); }
  }

  method SecondRound(c: ClientSession, d: DeviceSession) returns (r: Result)
    requires c.Valid() && d.Valid() && c.Open() && d.Open() && c.pairing.rounds == d.pairing.rounds
    requires c.pairing.Done() == d.pairing.Done() == NOTHING_DONE.(ownOne := true, peerOne := true)
    modifies c.pairing, d.pairing, d`keys, c.pairing.library, d.pairing.library
    ensures c.Valid() && d.Valid() && c.Open() && (d.keys == null || fresh(d.keys)) && d.channel.None?
    ensures c.pairing.library.faults >= old(c.pairing.library.faults) && d.pairing.library.faults >= old(d.pairing.library.faults)
    ensures r == Ok ==> c.pairing.rounds == d.pairing.rounds && d.keys != null && MayDerive(c.pairing.Done())
    ensures c.pairing.library.faults == old(c.pairing.library.faults) && d.pairing.library.faults == old(d.pairing.library.faults)
      ==> r == Ok
  {
    hide Transcript, Placed, RoundsOk, RoundOf;
    ghost var start, half := c.pairing.rounds, c.pairing.rounds;
    var c2, d2;
    r, c2 := c.WriteRound(true, ROUND_MAX);
    if r != Ok { return; }
    half := c.pairing.rounds;
    r, d2 := d.CompleteRoundTwo(c2, ROUND_MAX);
    if r != Ok { return; }
    r := c.ReadRound(true, d2);
    if r == Ok { PlacedTwice(start, half, c.pairing.rounds, c2, d2); }
  }

  /** The two Finished proofs, delivered as sent: the device checks first. */
  method ExchangeProofs(c: ClientSession, d: DeviceSession) returns (r: Result)
    requires c.Valid() && d.Valid() && c.Open() && !c.finishedCreated && MayDerive(c.pairing.Done())
    requires d.keys != null && d.channel.None? && !d.confirmed && c.pairing.rounds == d.pairing.rounds
    modifies c, d, c.pairing, d.keys, c.pairing.library, d.pairing.library
    ensures c.Valid() && d.Valid()
    ensures c.pairing.library.faults >= old(c.pairing.library.faults) && d.pairing.library.faults >= old(d.pairing.library.faults)
    ensures r == Ok ==> c.channel.Some? && d.channel.Some? && Mirrored(c.channel.value, d.channel.value)
    ensures c.channel.Some? || d.channel.Some? ==> c.pairing.code == d.pairing.code && c.pairing.facts == d.pairing.facts
    ensures c.pairing.library.faults == old(c.pairing.library.faults) && d.pairing.library.faults == old(d.pairing.library.faults)
      ==> (r == Ok <==> c.pairing.code == d.pairing.code && c.pairing.facts == d.pairing.facts)
  {
    hide Transcript, Mirrored, RoundsOk, FactsOk, KeysFor;
    var clientProof, deviceProof;
    r, clientProof := c.CreateFinished();
    if r != Ok { return; }
    r, deviceProof := d.Confirm(clientProof);
    if r != Ok { return; }
    AcceptedMeansSame(d, c);
    r := c.VerifyFinished(deviceProof);
    if r == Ok { Agreement(d, c); }
  }

  /**
   * Any two sessions, every message delivered as sent, the library failing where it likes: no channel
   * comes up unless both ends had the same code and the same facts, and if both come up they fit. If
   * nothing fails, both come up exactly when code and facts are the same.
   */
  method HonestDelivery(clientLibrary: Library, deviceLibrary: Library,
                        clientCode: Bytes, clientFacts: Facts, deviceCode: Bytes, deviceFacts: Facts)
    returns (c: ClientSession, d: DeviceSession, r: Result)
    requires FactsOk(clientFacts) && FactsOk(deviceFacts)
    modifies clientLibrary, deviceLibrary
    ensures c.Valid() && d.Valid()
    ensures r == Ok ==> c.channel.Some? && d.channel.Some? && Mirrored(c.channel.value, d.channel.value)
    ensures c.channel.Some? || d.channel.Some? ==> clientCode == deviceCode && clientFacts == deviceFacts
    ensures clientLibrary.faults == old(clientLibrary.faults) && deviceLibrary.faults == old(deviceLibrary.faults)
      ==> (r == Ok <==> clientCode == deviceCode && clientFacts == deviceFacts)
  {
    hide Transcript, Mirrored, Placed, RoundsOk, RoundOf, KeysFor, FactsOk;
    c := new ClientSession(clientLibrary, clientCode, clientFacts);
    d := new DeviceSession(deviceLibrary, deviceCode, deviceFacts);
    r := FirstRound(c, d);
    if r != Ok { return; }
    r := SecondRound(c, d);
    if r != Ok { return; }
    r := ExchangeProofs(c, d);
  }
}
