/**
 * The AEAD record channel: headers, nonces and counters on both ends, over an
 * ideal AEAD and a network that delivers whatever it likes.
 */
module SecureChannel {
  import opened Common
  import opened Bytes
  import opened PairingRoles
  import WireFraming

  const HEADER_SIZE := 28
  const TAG_SIZE := 16
  const RECORD_MAX := 4096
  const PLAINTEXT_MAX := RECORD_MAX - HEADER_SIZE - TAG_SIZE
  const REQUEST: Byte := 1
  const RESPONSE: Byte := 2
  const EVENT: Byte := 3
  const RECORD_MAGIC: Bytes := [0x41, 0x51, 0x53, 0x45]
  const OUTER_MAGIC: Bytes := [0x41, 0x51, 0x4D, 0x47]

  function RoleByte(role: Role): Byte { if role.Client? then 1 else 2 }

  predicate KindIsValid(kind: Byte) { REQUEST <= kind <= EVENT }

  /** Clients send requests; devices send responses and events. */
  predicate SendKindIsValid(role: Role, kind: Byte) {
    if role.Client? then kind == REQUEST else kind == RESPONSE || kind == EVENT
  }

  predicate ReceiveKindIsValid(role: Role, kind: Byte) { SendKindIsValid(Peer(role), kind) }

  function Nonce(prefix: Bytes, counter: U64): Bytes { prefix + Put(counter, 8) }

  function OuterHeader(kind: Byte, length: nat): Bytes { OUTER_MAGIC + [1, kind, 0, 0] + Put(length, 4) }

  /** What is authenticated as the outer header is the header the frame has on the wire. */
  lemma OuterIsWireHeader(kind: Byte, length: nat)
    ensures OuterHeader(kind, length) == WireFraming.Header(kind, length)
    ensures KindIsValid(kind) <==> WireFraming.KindIsValid(kind)
    ensures HEADER_SIZE + TAG_SIZE + PLAINTEXT_MAX == WireFraming.MAX_PAYLOAD
  {
    assert OUTER_MAGIC + [1, kind, 0, 0] == WireFraming.MAGIC + [WireFraming.VERSION, kind, 0, 0];
  }

  function RecordHeader(role: Role, session: Bytes, counter: U64, length: nat): Bytes {
    RECORD_MAGIC + [1, RoleByte(role), 0, 0] + session + Put(counter, 8) + Put(length, 4)
  }

  lemma NonceIsInjective(prefix: Bytes, c: U64, d: U64)
    requires Nonce(prefix, c) == Nonce(prefix, d)
    ensures c == d
  {
    Powers();
    assert Nonce(prefix, c)[|prefix|..] == Put(c, 8) && Nonce(prefix, d)[|prefix|..] == Put(d, 8);
    PutInjective(c, d, 8);
  }

  /** The nonce is the direction's prefix followed by the big-endian counter. */
  lemma NonceParts(prefix: Bytes, c: U64)
    ensures var n := Nonce(prefix, c);
      |n| == |prefix| + 8 && n[..|prefix|] == prefix && Get(n[|prefix|..]) == c
  {
    Powers();
    GetPut(c, 8);
    assert Nonce(prefix, c)[|prefix|..] == Put(c, 8);
  }

  /** Each valid kind is sent by one role and received by the other: requests by clients, the rest by devices. */
  lemma KindsHaveOneSender(kind: Byte, role: Role)
    ensures SendKindIsValid(role, kind) <==> ReceiveKindIsValid(Peer(role), kind)
    ensures KindIsValid(kind) <==> SendKindIsValid(Client, kind) || SendKindIsValid(Device, kind)
    ensures SendKindIsValid(Client, kind) <==> kind == 1
    ensures !(SendKindIsValid(Client, kind) && SendKindIsValid(Device, kind))
  {
  }

  /** Reading a header field by field gives back what was written. */
  lemma HeaderRoundTrip(role: Role, session: Bytes, counter: U64, length: nat)
    requires |session| == 8 && length <= U32_MAX
    ensures var h := RecordHeader(role, session, counter, length);
      && |h| == HEADER_SIZE && h[..4] == RECORD_MAGIC && h[4..8] == [1, if role == Client then 1 else 2, 0, 0]
      && h[8..16] == session && Get(h[16..24]) == counter && Get(h[24..28]) == length
  {
    Powers();
    GetPut(counter, 8);
    GetPut(length, 4);
    var h := RecordHeader(role, session, counter, length);
    assert h[16..24] == Put(counter, 8) && h[24..28] == Put(length, 4);
  }

  predicate Fits(record: Bytes, role: Role, session: Bytes)
    requires HEADER_SIZE + TAG_SIZE <= |record|
  {
    && record[..4] == RECORD_MAGIC && record[4] == 1 && record[6] == 0 && record[7] == 0
    && record[5] == RoleByte(Peer(role)) && record[8..16] == session
    && Get(record[24..28]) <= PLAINTEXT_MAX && Get(record[24..28]) + HEADER_SIZE + TAG_SIZE == |record|
  }

  lemma HeaderPieces(h: Bytes)
    requires |h| == HEADER_SIZE
    ensures h == h[..4] + h[4..8] + h[8..16] + h[16..24] + h[24..28]
  {
  }

  /** A header that passes the checks is the one the peer writes for this counter and length. */
  lemma CheckedHeader(record: Bytes, role: Role, session: Bytes)
    requires HEADER_SIZE + TAG_SIZE <= |record| && |session| == 8 && Fits(record, role, session)
    ensures Get(record[16..24]) <= U64_MAX
    ensures record[..HEADER_SIZE] ==
      RecordHeader(Peer(role), session, Get(record[16..24]), |record| - HEADER_SIZE - TAG_SIZE)
  {
    Powers();
    PutGet(record[16..24]);
    PutGet(record[24..28]);
    hide Put, Get, Power;
    var h := record[..HEADER_SIZE];
    HeaderPieces(h);
    assert h[..4] == RECORD_MAGIC && h[8..16] == session;
    assert h[4..8] == [1, RoleByte(Peer(role)), 0, 0];
    assert h[16..24] == record[16..24] && h[24..28] == record[24..28];
  }

  /** The additional data tells the kinds apart. */
  lemma KindIsBound(k: Byte, l: nat, h: Bytes, k': Byte, l': nat, h': Bytes)
    requires OuterHeader(k, l) + h == OuterHeader(k', l') + h'
    ensures k == k' && h == h'
  {
    assert (OuterHeader(k, l) + h)[5] == k && (OuterHeader(k', l') + h')[5] == k';
    assert (OuterHeader(k, l) + h)[12..] == h && (OuterHeader(k', l') + h')[12..] == h';
  }

  // ---- the ideal AEAD --------------------------------------------------------

  datatype Sealing = Sealing(key: Bytes, nonce: Bytes, aad: Bytes, plaintext: Bytes, sealedText: Bytes)

  /**
   * AES-GCM idealised: sealing picks any bytes of the right length and remembers the whole call;
   * only what was sealed under this key, nonce and additional data opens. Either call may fail.
   */
  class Aead {
    var table: seq<Sealing>

    /** Sealing adds a tag and keeps the length. */
    ghost predicate Valid()
      reads this
    {
      forall k | 0 <= k < |table| :: |table[k].sealedText| == |table[k].plaintext| + TAG_SIZE
    }

    constructor ()
      ensures table == [] && Valid()
    {
      table := [];
    }

    method Seal(key: Bytes, nonce: Bytes, aad: Bytes, plaintext: Bytes) returns (sealedText: Option<Bytes>)
      requires Valid()
      modifies this
      ensures Valid()
      ensures sealedText.None? ==> table == old(table)
      ensures sealedText.Some? ==>
        && |sealedText.value| == |plaintext| + TAG_SIZE
        && table == old(table) + [Sealing(key, nonce, aad, plaintext, sealedText.value)]
    {
      if * { return None; }
      var text: Bytes := [];
      for i := 0 to |plaintext| + TAG_SIZE
        invariant |text| == i
      {
        var b: Byte := *;
        text := text + [b];
      }
      table := table + [Sealing(key, nonce, aad, plaintext, text)];
      sealedText := Some(text);
    }

    /** `broke` says that the library failed for a reason of its own. */
    method Open(key: Bytes, nonce: Bytes, aad: Bytes, sealedText: Bytes)
      returns (plaintext: Option<Bytes>, ghost broke: bool)
      ensures plaintext.Some? ==> exists k | 0 <= k < |table| ::
        table[k] == Sealing(key, nonce, aad, plaintext.value, sealedText)
      ensures plaintext.None? && !broke ==> forall k | 0 <= k < |table| ::
        !(table[k].key == key && table[k].nonce == nonce && table[k].aad == aad && table[k].sealedText == sealedText)
    {
      broke := false;
      if * { return None, true; }
      for i := 0 to |table|
        invariant forall k | 0 <= k < i ::
          !(table[k].key == key && table[k].nonce == nonce && table[k].aad == aad && table[k].sealedText == sealedText)
      {
        var s := table[i];
        if s.key == key && s.nonce == nonce && s.aad == aad && s.sealedText == sealedText {
          return Some(s.plaintext), false;
        }
      }
      plaintext := None;
    }
  }

  // ---- one end ---------------------------------------------------------------

  datatype Message = Message(kind: Byte, plaintext: Bytes)

  datatype Keys = Keys(sendKey: Bytes, receiveKey: Bytes, sendPrefix: Bytes, receivePrefix: Bytes, session: Bytes)

  /** The sealing that sending `m` with this counter makes. */
  predicate Seals(s: Sealing, role: Role, key: Bytes, prefix: Bytes, session: Bytes, counter: U64, m: Message) {
    && s.key == key && s.nonce == Nonce(prefix, counter) && s.plaintext == m.plaintext
    && |s.sealedText| == |m.plaintext| + TAG_SIZE && |m.plaintext| <= PLAINTEXT_MAX
    && s.aad == OuterHeader(m.kind, HEADER_SIZE + |s.sealedText|) + RecordHeader(role, session, counter, |m.plaintext|)
  }

  /** What `record` looks like to a receiver before it is opened. */
  function Opening(record: Bytes, kind: Byte): (Bytes, Bytes)
    requires |record| >= HEADER_SIZE
  {
    (OuterHeader(kind, |record|) + record[..HEADER_SIZE], record[HEADER_SIZE..])
  }

  /** A record of the right kind, origin, session and lengths. */
  predicate Shaped(record: Bytes, kind: Byte, capacity: nat, role: Role, session: Bytes) {
    && ReceiveKindIsValid(role, kind)
    && HEADER_SIZE + TAG_SIZE <= |record| <= RECORD_MAX && Fits(record, role, session)
    && Get(record[24..28]) <= capacity
  }

  /** The tests a record must pass before the AEAD is asked. */
  predicate Admissible(record: Bytes, kind: Byte, capacity: nat, role: Role, session: Bytes, counter: U64) {
    Shaped(record, kind, capacity, role, session) && Get(record[16..24]) == counter != U64_MAX
  }

  class Channel {
    const role: Role
    const keys: Keys
    const aead: Aead
    var sendCounter: U64
    var receiveCounter: U64
    /** Every message sent and every message accepted so far. */
    ghost var sent: seq<Message>
    ghost var accepted: seq<Message>

    ghost predicate Valid()
      reads this
    {
      && |keys.session| == 8
      && sendCounter == |sent| + 1 && receiveCounter == |accepted| + 1
    }

    constructor (localRole: Role, material: Keys, oracle: Aead)
      requires |material.session| == 8
      ensures Valid() && role == localRole && keys == material && aead == oracle && sent == [] && accepted == []
    {
      role, keys, aead := localRole, material, oracle;
      sendCounter, receiveCounter, sent, accepted := 1, 1, [], [];
    }

    /** On success the output starts with the next record; the counter value is then used up. */
    method Encrypt(kind: Byte, plaintext: Bytes, output: array<Byte>) returns (r: Result, length: nat)
      requires Valid() && aead.Valid()
      modifies this`sendCounter, this`sent, aead, output
      ensures Valid() && aead.Valid() && accepted == old(accepted) && old(aead.table) <= aead.table
      ensures r == Ok ==>
        && SendKindIsValid(role, kind) && length == HEADER_SIZE + |plaintext| + TAG_SIZE <= output.Length
        && old(sendCounter) < U64_MAX && sent == old(sent) + [Message(kind, plaintext)]
        && |aead.table| == |old(aead.table)| + 1
        && Seals(aead.table[|old(aead.table)|], role, keys.sendKey, keys.sendPrefix, keys.session, old(sendCounter),
                 Message(kind, plaintext))
        && output[..length] == RecordHeader(role, keys.session, old(sendCounter), |plaintext|)
                               + aead.table[|old(aead.table)|].sealedText
      ensures r != Ok ==> length == 0 && sent == old(sent) && aead.table == old(aead.table)
      ensures r == InvalidArgument <==> !SendKindIsValid(role, kind) || |plaintext| > PLAINTEXT_MAX
      ensures r == BufferTooSmall <==> SendKindIsValid(role, kind) && |plaintext| <= PLAINTEXT_MAX
                                       && output.Length < HEADER_SIZE + |plaintext| + TAG_SIZE
      ensures r == InvalidState <==> SendKindIsValid(role, kind) && |plaintext| <= PLAINTEXT_MAX
                                     && HEADER_SIZE + |plaintext| + TAG_SIZE <= output.Length && old(sendCounter) == U64_MAX
    {
      length := 0;
      if !KindIsValid(kind) || !SendKindIsValid(role, kind) || |plaintext| > PLAINTEXT_MAX {
        return InvalidArgument, 0;
      }
      var size := HEADER_SIZE + |plaintext| + TAG_SIZE;
      if output.Length < size { return BufferTooSmall, 0; }
      if sendCounter == U64_MAX { return InvalidState, 0; }
      var header := RecordHeader(role, keys.session, sendCounter, |plaintext|);
      CopyInto(output, 0, header);
      var text := aead.Seal(keys.sendKey, Nonce(keys.sendPrefix, sendCounter), OuterHeader(kind, size) + header, plaintext);
      if text.None? {
        Wipe(output, size);
        return CryptoError, 0;
      }
      CopyInto(output, HEADER_SIZE, text.value);
      assert output[..size] == output[..HEADER_SIZE] + output[HEADER_SIZE..size];
      sendCounter, sent := sendCounter + 1, sent + [Message(kind, plaintext)];
      r, length := Ok, size;
    }

    /** Accepts the record with the expected counter if it opens; anything else changes nothing. */
    method Decrypt(kind: Byte, record: Bytes, plaintext: array<Byte>) returns (r: Result, length: nat, ghost broke: bool)
      requires Valid() && aead.Valid()
      modifies this`receiveCounter, this`accepted, plaintext
      ensures Valid()
      ensures r == Ok ==>
        && Admissible(record, kind, plaintext.Length, role, keys.session, old(receiveCounter))
        && length + HEADER_SIZE + TAG_SIZE == |record| && length <= plaintext.Length
        && accepted == old(accepted) + [Message(kind, plaintext[..length])]
        && exists k | 0 <= k < |aead.table| ::
             aead.table[k] == Sealing(keys.receiveKey, Nonce(keys.receivePrefix, old(receiveCounter)),
                                      Opening(record, kind).0, plaintext[..length], Opening(record, kind).1)
      ensures r != Ok ==>
        && length == 0 && accepted == old(accepted)
        && forall i | 0 <= i < plaintext.Length :: plaintext[i] == 0
      ensures r == InvalidArgument <==> !KindIsValid(kind)
      // a well-shaped record is a replay exactly when its counter is not the next one; the rest fails authentication
      ensures r == Replay <==>
        && Shaped(record, kind, plaintext.Length, role, keys.session)
        && !Admissible(record, kind, plaintext.Length, role, keys.session, old(receiveCounter))
      ensures r == Ok || r == InvalidArgument || r == Replay || r == AuthFailed
      ensures r != Ok && KindIsValid(kind) && !broke
              && Admissible(record, kind, plaintext.Length, role, keys.session, old(receiveCounter)) ==>
        !exists k | 0 <= k < |aead.table| ::
          && aead.table[k].key == keys.receiveKey && aead.table[k].nonce == Nonce(keys.receivePrefix, old(receiveCounter))
          && aead.table[k].aad == Opening(record, kind).0 && aead.table[k].sealedText == Opening(record, kind).1
    {
      length, broke := 0, false;
      Wipe(plaintext, plaintext.Length);
      if !KindIsValid(kind) { return InvalidArgument, 0, false; }
      if !ReceiveKindIsValid(role, kind) { return AuthFailed, 0, false; }
      if !(HEADER_SIZE + TAG_SIZE <= |record| <= RECORD_MAX) || !Fits(record, role, keys.session)
         || Get(record[24..28]) > plaintext.Length {
        return AuthFailed, 0, false;
      }
      var counter := Get(record[16..24]);
      CheckedHeader(record, role, keys.session);
      if counter != receiveCounter || counter == U64_MAX { return Replay, 0, false; }
      var found;
      found, broke := aead.Open(keys.receiveKey, Nonce(keys.receivePrefix, counter),
                                 OuterHeader(kind, |record|) + record[..HEADER_SIZE], record[HEADER_SIZE..]);
      if found.None? { return AuthFailed, 0, broke; }
      length := Get(record[24..28]);
      CopyInto(plaintext, 0, found.value);
      receiveCounter, accepted := receiveCounter + 1, accepted + [Message(kind, found.value)];
      r := Ok;
    }
  }

  method CopyInto(a: array<Byte>, at: nat, b: Bytes)
    requires at + |b| <= a.Length
    modifies a
    ensures a[at..at + |b|] == b && a[..at] == old(a[..at])
  {
    for i := 0 to |b|
      invariant a[at..at + i] == b[..i] && a[..at] == old(a[..at])
    {
      a[at + i] := b[i];
    }
  }

  method Wipe(a: array<Byte>, n: nat)
    requires n <= a.Length
    modifies a
    ensures forall i | 0 <= i < n :: a[i] == 0
  {
    for i := 0 to n
      invariant forall k | 0 <= k < i :: a[k] == 0
    {
      a[i] := 0;
    }
  }

  // ---- both ends, and a network in between --------------------------------------

  /** The sealings made under one key, oldest first. */
  function OfKey(table: seq<Sealing>, key: Bytes): seq<Sealing> {
    if table == [] then []
    else
      OfKey(table[..|table| - 1], key)
      + (if table[|table| - 1].key == key then [table[|table| - 1]] else [])
  }

  /** What was sealed under the key is what was sent, message by message, with counters 1, 2, 3, ... */
  predicate Ledger(table: seq<Sealing>, role: Role, key: Bytes, prefix: Bytes, session: Bytes, sent: seq<Message>) {
    && |OfKey(table, key)| == |sent| < U64_MAX
    && forall i | 0 <= i < |sent| :: Seals(OfKey(table, key)[i], role, key, prefix, session, i + 1, sent[i])
  }

  lemma {:induction false} RankOf(table: seq<Sealing>, key: Bytes, k: nat)
    requires k < |table| && table[k].key == key
    ensures |OfKey(table[..k], key)| < |OfKey(table, key)|
    ensures OfKey(table, key)[|OfKey(table[..k], key)|] == table[k]
    decreases |table|
  {
    var n := |table| - 1;
    if k < n {
      RankOf(table[..n], key, k);
      assert table[..n][..k] == table[..k];
    }
  }

  /**
   * The heart of the matter: whatever the network hands over, what opens under the receiver's next
   * counter is the sender's next message.
   */
  lemma AcceptedIsNext(table: seq<Sealing>, role: Role, key: Bytes, prefix: Bytes, session: Bytes,
                       sent: seq<Message>, accepted: seq<Message>,
                       record: Bytes, kind: Byte, capacity: nat, plaintext: Bytes, k: nat)
    requires |session| == 8 && Ledger(table, Peer(role), key, prefix, session, sent) && accepted <= sent
    requires |accepted| < U64_MAX && Admissible(record, kind, capacity, role, session, |accepted| + 1)
    requires k < |table|
    requires table[k] == Sealing(key, Nonce(prefix, |accepted| + 1), Opening(record, kind).0, plaintext,
                                 Opening(record, kind).1)
    ensures accepted + [Message(kind, plaintext)] <= sent
  {
    hide Nonce, OuterHeader, RecordHeader, Fits, Put, Get;
    RankOf(table, key, k);
    var i := |OfKey(table[..k], key)|;
    var s := OfKey(table, key)[i];
    assert Seals(s, Peer(role), key, prefix, session, i + 1, sent[i]);
    NonceIsInjective(prefix, i + 1, |accepted| + 1);
    KindIsBound(kind, |record|, record[..HEADER_SIZE], sent[i].kind, HEADER_SIZE + |s.sealedText|,
                RecordHeader(Peer(role), session, i + 1, |sent[i].plaintext|));
    assert sent[i] == Message(kind, plaintext);
    assert sent[..i + 1] == sent[..i] + [sent[i]];
  }

  /** The sender's next record, delivered as it is, passes every test of the receiver. */
  lemma NextIsAdmissible(table: seq<Sealing>, role: Role, key: Bytes, prefix: Bytes, session: Bytes,
                         sent: seq<Message>, i: nat, capacity: nat)
    requires |session| == 8 && Ledger(table, Peer(role), key, prefix, session, sent)
    requires i < |sent| && SendKindIsValid(Peer(role), sent[i].kind) && |sent[i].plaintext| <= capacity
    ensures var s := OfKey(table, key)[i];
      var record := RecordHeader(Peer(role), session, i + 1, |sent[i].plaintext|) + s.sealedText;
      && Admissible(record, sent[i].kind, capacity, role, session, i + 1)
      && Opening(record, sent[i].kind) == (s.aad, s.sealedText)
  {
    var s := OfKey(table, key)[i];
    assert Seals(s, Peer(role), key, prefix, session, i + 1, sent[i]);
    HeaderRoundTrip(Peer(role), session, i + 1, |sent[i].plaintext|);
    var h := RecordHeader(Peer(role), session, i + 1, |sent[i].plaintext|);
    var record := h + s.sealedText;
    assert record[..HEADER_SIZE] == h && record[HEADER_SIZE..] == s.sealedText;
    assert record[..4] == h[..4] && record[8..16] == h[8..16] && record[16..24] == h[16..24] && record[24..28] == h[24..28];
    assert record[4..8] == h[4..8] == [1, RoleByte(Peer(role)), 0, 0];
    assert record[4] == record[4..8][0] && record[5] == record[4..8][1];
    assert record[6] == record[4..8][2] && record[7] == record[4..8][3];
  }

  predicate SameUse(s: Sealing, t: Sealing) { s.key == t.key && s.nonce == t.nonce }

  /** No key is ever used twice with the same nonce. */
  predicate NoncesUnique(table: seq<Sealing>) {
    forall j, k | 0 <= j < k < |table| :: !SameUse(table[j], table[k])
  }

  ghost predicate Connected(client: Channel, device: Channel)
    reads client, device, client.aead
  {
    && client.Valid() && device.Valid() && client.aead == device.aead && client.aead.Valid()
    && client.role.Client? && device.role.Device?
    && client.keys.session == device.keys.session
    && client.keys.sendKey == device.keys.receiveKey && client.keys.receiveKey == device.keys.sendKey
    && client.keys.sendPrefix == device.keys.receivePrefix && client.keys.receivePrefix == device.keys.sendPrefix
    && client.keys.sendKey != device.keys.sendKey
  }

  /** The safety statement for both directions at once. */
  ghost predicate Agreement(client: Channel, device: Channel)
    reads client, device, client.aead
  {
    && Connected(client, device)
    && var table := client.aead.table;
      && Ledger(table, Client, client.keys.sendKey, client.keys.sendPrefix, client.keys.session, client.sent)
      && Ledger(table, Device, device.keys.sendKey, device.keys.sendPrefix, device.keys.session, device.sent)
      && (forall k | 0 <= k < |table| :: table[k].key == client.keys.sendKey || table[k].key == device.keys.sendKey)
      && device.accepted <= client.sent && client.accepted <= device.sent
  }

  lemma SealedNonce(table: seq<Sealing>, role: Role, key: Bytes, prefix: Bytes, session: Bytes, sent: seq<Message>, i: nat)
    requires Ledger(table, role, key, prefix, session, sent) && i < |sent|
    ensures OfKey(table, key)[i].nonce == Nonce(prefix, i + 1)
  {
    assert Seals(OfKey(table, key)[i], role, key, prefix, session, i + 1, sent[i]);
  }

  lemma UsesDiffer(table: seq<Sealing>, role: Role, key: Bytes, prefix: Bytes, session: Bytes, sent: seq<Message>, j: nat, k: nat)
    requires Ledger(table, role, key, prefix, session, sent) && j < k < |table|
    requires table[j].key == key && table[k].key == key
    ensures table[j].nonce != table[k].nonce
  {
    hide Seals, Nonce;
    RankOf(table, key, j);
    RankOf(table, key, k);
    RankOf(table[..k], key, j);
    assert table[..k][..j] == table[..j];
    var m, n := |OfKey(table[..j], key)|, |OfKey(table[..k], key)|;
    SealedNonce(table, role, key, prefix, session, sent, m);
    SealedNonce(table, role, key, prefix, session, sent, n);
    if table[j].nonce == table[k].nonce { NonceIsInjective(prefix, m + 1, n + 1); }
  }

  /** Agreement leaves no room for a repeated (key, nonce) pair, as section 8.2.1 of NIST SP 800-38D demands. */
  lemma NoncesNeverRepeat(client: Channel, device: Channel)
    requires Agreement(client, device)
    ensures NoncesUnique(client.aead.table)
  {
    var table := client.aead.table;
    forall j, k | 0 <= j < k < |table| ensures !SameUse(table[j], table[k]) {
      if table[j].key == table[k].key {
        if table[j].key == client.keys.sendKey {
          UsesDiffer(table, Client, client.keys.sendKey, client.keys.sendPrefix, client.keys.session, client.sent, j, k);
        } else {
          UsesDiffer(table, Device, device.keys.sendKey, device.keys.sendPrefix, device.keys.session, device.sent, j, k);
        }
      }
    }
  }

  lemma LedgerGrows(table: seq<Sealing>, s: Sealing, role: Role, key: Bytes, prefix: Bytes, session: Bytes,
                    sent: seq<Message>, m: Message)
    requires Ledger(table, role, key, prefix, session, sent) && |sent| + 1 < U64_MAX
    requires Seals(s, role, key, prefix, session, |sent| + 1, m)
    ensures Ledger(table + [s], role, key, prefix, session, sent + [m])
  {
    assert (table + [s])[..|table|] == table;
    assert OfKey(table + [s], key) == OfKey(table, key) + [s];
  }

  lemma OtherLedger(table: seq<Sealing>, s: Sealing, role: Role, key: Bytes, prefix: Bytes, session: Bytes, sent: seq<Message>)
    requires Ledger(table, role, key, prefix, session, sent) && s.key != key
    ensures Ledger(table + [s], role, key, prefix, session, sent)
  {
    assert (table + [s])[..|table|] == table;
  }

  /** One end sends; the other end's ledger is not touched. */
  method Send(client: Channel, device: Channel, fromClient: bool, kind: Byte, plaintext: Bytes, output: array<Byte>)
    returns (r: Result, length: nat)
    requires Agreement(client, device)
    modifies client`sendCounter, client`sent, device`sendCounter, device`sent, client.aead, output
    ensures Agreement(client, device)
    ensures r == Ok ==>
      if fromClient then client.sent == old(client.sent) + [Message(kind, plaintext)] && device.sent == old(device.sent)
      else device.sent == old(device.sent) + [Message(kind, plaintext)] && client.sent == old(client.sent)
    ensures r != Ok ==> client.sent == old(client.sent) && device.sent == old(device.sent)
  {
    hide Seals, Admissible, Shaped;
    ghost var table, m := client.aead.table, Message(kind, plaintext);
    ghost var (up, down) := (client.sent, device.sent);
    if fromClient {
      r, length := client.Encrypt(kind, plaintext, output);
      if r == Ok {
        ghost var s := client.aead.table[|table|];
        assert client.aead.table == table + [s];
        SealedUnder(s, Client, client.keys.sendKey, client.keys.sendPrefix, client.keys.session, |up| + 1, m);
        LedgerGrows(table, s, Client, client.keys.sendKey, client.keys.sendPrefix, client.keys.session, up, m);
        OtherLedger(table, s, Device, device.keys.sendKey, device.keys.sendPrefix, device.keys.session, down);
      }
    } else {
      r, length := device.Encrypt(kind, plaintext, output);
      if r == Ok {
        ghost var s := client.aead.table[|table|];
        assert client.aead.table == table + [s];
        SealedUnder(s, Device, device.keys.sendKey, device.keys.sendPrefix, device.keys.session, |down| + 1, m);
        LedgerGrows(table, s, Device, device.keys.sendKey, device.keys.sendPrefix, device.keys.session, down, m);
        OtherLedger(table, s, Client, client.keys.sendKey, client.keys.sendPrefix, client.keys.session, up);
      }
    }
  }

  lemma SealedUnder(s: Sealing, role: Role, key: Bytes, prefix: Bytes, session: Bytes, counter: U64, m: Message)
    requires Seals(s, role, key, prefix, session, counter, m)
    ensures s.key == key
  {
  }

  /** The network hands any bytes, under any frame kind, to one end. */
  method Deliver(client: Channel, device: Channel, toClient: bool, kind: Byte, record: Bytes, plaintext: array<Byte>)
    returns (r: Result, length: nat, ghost broke: bool)
    requires Agreement(client, device)
    modifies client`receiveCounter, client`accepted, device`receiveCounter, device`accepted, plaintext
    ensures Agreement(client, device)
    ensures r != Ok ==> client.accepted == old(client.accepted) && device.accepted == old(device.accepted)
  {
    hide Seals, Admissible, Shaped, Ledger, Opening;
    if toClient {
      ghost var (before, counter) := (client.accepted, client.receiveCounter);
      r, length, broke := client.Decrypt(kind, record, plaintext);
      if r == Ok {
        ghost var k :| 0 <= k < |client.aead.table| && client.aead.table[k] ==
          Sealing(client.keys.receiveKey, Nonce(client.keys.receivePrefix, counter),
                  Opening(record, kind).0, plaintext[..length], Opening(record, kind).1);
        AcceptedIsNext(client.aead.table, Client, device.keys.sendKey, device.keys.sendPrefix, device.keys.session,
                       device.sent, before, record, kind, plaintext.Length, plaintext[..length], k);
      }
    } else {
      ghost var (before, counter) := (device.accepted, device.receiveCounter);
      r, length, broke := device.Decrypt(kind, record, plaintext);
      if r == Ok {
        ghost var k :| 0 <= k < |client.aead.table| && client.aead.table[k] ==
          Sealing(device.keys.receiveKey, Nonce(device.keys.receivePrefix, counter),
                  Opening(record, kind).0, plaintext[..length], Opening(record, kind).1);
        AcceptedIsNext(client.aead.table, Device, client.keys.sendKey, client.keys.sendPrefix, client.keys.session,
                       client.sent, before, record, kind, plaintext.Length, plaintext[..length], k);
      }
    }
  }

  /** What the two users and the network may do, in any order. */
  datatype Action =
    | SendAction(fromClient: bool, kind: Byte, plaintext: Bytes, capacity: nat)
    | DeliverAction(toClient: bool, kind: Byte, record: Bytes, capacity: nat)

  /** Any run of any length: both ends only ever accept a prefix of what the other one sent. */
  method AnyTraffic(up: Keys, down: Keys, actions: seq<Action>) returns (client: Channel, device: Channel)
    requires |up.session| == 8 && down == Keys(up.receiveKey, up.sendKey, up.receivePrefix, up.sendPrefix, up.session)
    requires up.sendKey != up.receiveKey
    ensures device.accepted <= client.sent && client.accepted <= device.sent
    ensures client.aead == device.aead && NoncesUnique(client.aead.table)
  {
    hide Ledger;
    var aead := new Aead();
    client := new Channel(Client, up, aead);
    device := new Channel(Device, down, aead);
    EmptyLedger(Client, up.sendKey, up.sendPrefix, up.session);
    EmptyLedger(Device, up.receiveKey, up.receivePrefix, up.session);
    for i := 0 to |actions|
      invariant Agreement(client, device)
      invariant fresh(client) && fresh(device) && fresh(client.aead)
    {
      match actions[i]
      case SendAction(fromClient, kind, plaintext, capacity) =>
        var output := new Byte[capacity];
        var r, length := Send(client, device, fromClient, kind, plaintext, output);
      case DeliverAction(toClient, kind, record, capacity) =>
        var buffer := new Byte[capacity];
        var r, length, broke := Deliver(client, device, toClient, kind, record, buffer);
    }
    NoncesNeverRepeat(client, device);
  }

  lemma EmptyLedger(role: Role, key: Bytes, prefix: Bytes, session: Bytes)
    ensures Ledger([], role, key, prefix, session, [])
  {
  }
}
