/**
 * The configuration record: its fields, what makes it valid, how it is laid
 * out as NVS keys, and how a Wi-Fi update edits it.
 */
module ConfigRecord {
  import opened Common

  datatype Slot = Legacy | SlotA | SlotB

  /** The C arrays that hold these strings have a fixed size, NUL included. */
  const PROVIDER_CAPACITY := 32
  const MODEL_CAPACITY := 64
  const URL_CAPACITY := 160
  const VOICE_CAPACITY := 32
  const SSID_CAPACITY := 33
  const PASSWORD_CAPACITY := 65
  const API_KEY_CAPACITY := 192

  /** The three services a record configures. */
  datatype Role = Chat | Asr | Tts

  datatype RawEndpoint = RawEndpoint(provider: string, model: string, baseUrl: string)

  type Endpoint = e: RawEndpoint
    | |e.provider| < PROVIDER_CAPACITY && |e.model| < MODEL_CAPACITY && |e.baseUrl| < URL_CAPACITY
    witness RawEndpoint("", "", "")

  datatype RawConfig = RawConfig(version: U32, chat: Endpoint, asr: Endpoint, tts: Endpoint,
                                 ttsVoice: string, stream: bool, hideReasoning: bool, maxTokens: I32)

  type Config = c: RawConfig | |c.ttsVoice| < VOICE_CAPACITY
    witness RawConfig(0, RawEndpoint("", "", ""), RawEndpoint("", "", ""), RawEndpoint("", "", ""), "", false, false, 0)

  datatype RawSecrets = RawSecrets(ssid: string, password: string, chatKey: string, asrKey: string)

  type Secrets = s: RawSecrets
    | && |s.ssid| < SSID_CAPACITY && |s.password| < PASSWORD_CAPACITY
      && |s.chatKey| < API_KEY_CAPACITY && |s.asrKey| < API_KEY_CAPACITY
    witness RawSecrets("", "", "", "")

  datatype Record = Record(config: Config, secrets: Secrets, revision: U32, slot: Slot)

  /**
   * What this model leaves open: the provider allow-lists behind the configuration
   * validator and the built-in defaults. Everything is proved for every choice.
   */
  datatype Rules = Rules(configValid: Config -> bool, defaults: Config)

  predicate PasswordOk(password: string) { password == "" || 8 <= |password| <= 63 }

  predicate SecretsValid(s: Secrets) {
    && s.ssid != ""
    && PasswordOk(s.password)
    && 6 <= |s.chatKey|
    && (s.asrKey == "" || 6 <= |s.asrKey|)
  }

  datatype SecretStatus = SecretsOk | BadWifiSsid | BadWifiPassword | BadApiKey

  /** The first fault found, in the order SSID, password, API keys. */
  method CheckSecrets(s: Secrets) returns (status: SecretStatus)
    ensures status == SecretsOk <==> SecretsValid(s)
    ensures status == BadWifiSsid <==> s.ssid == ""
    ensures status == BadWifiPassword <==> s.ssid != "" && !PasswordOk(s.password)
  {
    if s.ssid == "" { return BadWifiSsid; }
    if |s.ssid| >= SSID_CAPACITY { return BadWifiSsid; }
    if (0 < |s.password| < 8) || |s.password| > 63 { return BadWifiPassword; }
    if |s.chatKey| < 6 || |s.chatKey| >= API_KEY_CAPACITY { return BadApiKey; }
    if s.asrKey != "" && (|s.asrKey| < 6 || |s.asrKey| >= API_KEY_CAPACITY) { return BadApiKey; }
    status := SecretsOk;
  }

  predicate RecordValid(rules: Rules, r: Record) {
    r.revision != 0 && rules.configValid(r.config) && SecretsValid(r.secrets)
  }

  // ---- Wi-Fi updates -----------------------------------------------------

  datatype Credentials = Credentials(ssid: string, password: string)

  function CredentialsOf(s: Secrets): Credentials { Credentials(s.ssid, s.password) }

  datatype PasswordAction = Keep | Replace | Clear | UnknownAction

  datatype WifiUpdate = WifiUpdate(baseRevision: U32, ssid: string, action: PasswordAction, password: string)

  datatype UpdateError = RevisionConflict | RevisionExhausted | BadSsid | BadPassword | BadPasswordAction

  datatype Prepared = Prepared(secrets: Secrets, revision: U32) | Refused(error: UpdateError)

  function PrepareWifiUpdate(current: Secrets, revision: U32, request: WifiUpdate): (p: Prepared) {
    if request.baseRevision != revision then Refused(RevisionConflict)
    else if revision == U32_MAX then Refused(RevisionExhausted)
    else if !(0 < |request.ssid| < SSID_CAPACITY) then Refused(BadSsid)
    else match request.action
      case Keep =>
        if request.password != "" then Refused(BadPasswordAction)
        else Prepared(current.(ssid := request.ssid), revision + 1)
      case Replace =>
        if !(8 <= |request.password| <= 63) then Refused(BadPassword)
        else Prepared(current.(ssid := request.ssid, password := request.password), revision + 1)
      case Clear =>
        if request.password != "" then Refused(BadPasswordAction)
        else Prepared(current.(ssid := request.ssid, password := ""), revision + 1)
      case UnknownAction => Refused(BadPasswordAction)
  }

  /** The password that comes with the request suits what it asks for. */
  predicate PasswordFits(request: WifiUpdate) {
    || (request.action in {Keep, Clear} && request.password == "")
    || (request.action == Replace && 8 <= |request.password| <= 63)
  }

  /** The requests that are accepted over this revision. */
  predicate Acceptable(revision: U32, request: WifiUpdate) {
    request.baseRevision == revision < U32_MAX && 0 < |request.ssid| < SSID_CAPACITY && PasswordFits(request)
  }

  /** What each refusal means; a request with several faults is refused for the first in this order. */
  predicate RefusalFits(error: UpdateError, revision: U32, request: WifiUpdate) {
    var current, named := request.baseRevision == revision, 0 < |request.ssid| < SSID_CAPACITY;
    match error
    case RevisionConflict => !current
    case RevisionExhausted => current && revision == U32_MAX
    case BadSsid => current && revision < U32_MAX && !named
    case BadPassword => current && revision < U32_MAX && named && request.action == Replace && !PasswordFits(request)
    case BadPasswordAction => current && revision < U32_MAX && named && request.action != Replace && !PasswordFits(request)
  }

  /** An update is prepared exactly for an acceptable request, and refused with the error that fits. */
  lemma PreparedExactly(current: Secrets, revision: U32, request: WifiUpdate)
    ensures var p := PrepareWifiUpdate(current, revision, request);
      && (p.Prepared? <==> Acceptable(revision, request))
      && forall e: UpdateError :: p == Refused(e) <==> RefusalFits(e, revision, request)
  {
  }

  /** A prepared update never leaves the valid secrets, touches no API key and takes the next revision. */
  lemma PreparedIsValid(current: Secrets, revision: U32, request: WifiUpdate)
    ensures var p := PrepareWifiUpdate(current, revision, request);
      p.Prepared? ==>
        && (SecretsValid(current) ==> SecretsValid(p.secrets))
        && p.revision == request.baseRevision + 1 == revision + 1
        && p.secrets.ssid == request.ssid
        && p.secrets.chatKey == current.chatKey && p.secrets.asrKey == current.asrKey
        && p.secrets.password ==
           (if request.action.Keep? then current.password
            else if request.action.Replace? then request.password else "")
  {
  }

  // ---- NVS layout --------------------------------------------------------

  datatype Key =
    | Layout | Revision | Head | Reset
    | Version | Provider(role: Role) | Model(role: Role) | BaseUrl(role: Role)
    | TtsVoice | Stream | HideReason | MaxTokens
    | WifiSsid | WifiPass | ChatKey | AsrKey
    | Preference(id: nat)

  datatype Value = U8(b: Byte) | U32v(w: U32) | U64v(q: U64) | I32v(i: I32) | Str(s: string)

  type Space = map<Key, Value>

  const LAYOUT_VERSION: U32 := 1

  /** The 18 configuration and secret keys, in the order they are written and erased. */
  const FIELD_KEYS: seq<Key> := [
    Version, Provider(Chat), Model(Chat), BaseUrl(Chat), Provider(Asr), Model(Asr), BaseUrl(Asr),
    Provider(Tts), Model(Tts), BaseUrl(Tts), TtsVoice, Stream, HideReason, MaxTokens,
    WifiSsid, WifiPass, ChatKey, AsrKey]

  /** A slot record also carries the layout marker, written first, and its revision. */
  const RECORD_KEYS: seq<Key> := [Layout, Revision] + FIELD_KEYS

  predicate IsField(k: Key) {
    !k.Layout? && !k.Revision? && !k.Head? && !k.Reset? && !k.Preference?
  }

  predicate IsRecordKey(k: Key) { k.Layout? || k.Revision? || IsField(k) }

  function FieldIndex(k: Key): int {
    match k
    case Version => 0
    case Provider(r) => (match r case Chat => 1 case Asr => 4 case Tts => 7)
    case Model(r) => (match r case Chat => 2 case Asr => 5 case Tts => 8)
    case BaseUrl(r) => (match r case Chat => 3 case Asr => 6 case Tts => 9)
    case TtsVoice => 10 case Stream => 11 case HideReason => 12 case MaxTokens => 13
    case WifiSsid => 14 case WifiPass => 15 case ChatKey => 16 case AsrKey => 17
    case _ => -1
  }

  /** The two key lists name exactly the field keys and the record keys. */
  lemma KeyLists(k: Key)
    ensures k in FIELD_KEYS <==> IsField(k)
    ensures k in RECORD_KEYS <==> IsRecordKey(k)
  {
    var i := FieldIndex(k);
    assert IsField(k) ==> FIELD_KEYS[i] == k && RECORD_KEYS[i + 2] == k;
    assert k.Layout? ==> RECORD_KEYS[0] == k;
    assert k.Revision? ==> RECORD_KEYS[1] == k;
  }

  predicate IsSecret(k: Key) { k.WifiSsid? || k.WifiPass? || k.ChatKey? || k.AsrKey? }

  function BoolValue(b: bool): Value { U8(if b then 1 else 0) }

  function EndpointOf(c: Config, role: Role): Endpoint {
    match role case Chat => c.chat case Asr => c.asr case Tts => c.tts
  }

  /** The value a record stores under one of its keys. */
  function FieldValue(r: Record, k: Key): Value
    requires IsRecordKey(k)
  {
    match k
    case Layout => U32v(LAYOUT_VERSION)
    case Revision => U32v(r.revision)
    case Version => U32v(r.config.version)
    case Provider(role) => Str(EndpointOf(r.config, role).provider)
    case Model(role) => Str(EndpointOf(r.config, role).model)
    case BaseUrl(role) => Str(EndpointOf(r.config, role).baseUrl)
    case TtsVoice => Str(r.config.ttsVoice)
    case Stream => BoolValue(r.config.stream)
    case HideReason => BoolValue(r.config.hideReasoning)
    case MaxTokens => I32v(r.config.maxTokens)
    case WifiSsid => Str(r.secrets.ssid)
    case WifiPass => Str(r.secrets.password)
    case ChatKey => Str(r.secrets.chatKey)
    case AsrKey => Str(r.secrets.asrKey)
  }

  predicate Stored(sp: Space, r: Record, k: Key)
    requires IsRecordKey(k)
  {
    k in sp && sp[k] == FieldValue(r, k)
  }

  /** The namespace holds every key of the record. */
  ghost predicate Holds(sp: Space, r: Record) {
    forall k {:trigger Stored(sp, r, k)} | IsRecordKey(k) :: Stored(sp, r, k)
  }

  predicate U32At(sp: Space, k: Key) { k in sp && sp[k].U32v? }

  predicate I32At(sp: Space, k: Key) { k in sp && sp[k].I32v? }

  predicate BoolAt(sp: Space, k: Key) { k in sp && sp[k].U8? }

  /** A stored string is readable when it fits the destination array with its NUL. */
  predicate StrAt(sp: Space, k: Key, capacity: nat) { k in sp && sp[k].Str? && |sp[k].s| < capacity }

  function ReadEndpoint(sp: Space, role: Role): Option<Endpoint> {
    if && StrAt(sp, Provider(role), PROVIDER_CAPACITY)
       && StrAt(sp, Model(role), MODEL_CAPACITY)
       && StrAt(sp, BaseUrl(role), URL_CAPACITY)
    then Some(RawEndpoint(sp[Provider(role)].s, sp[Model(role)].s, sp[BaseUrl(role)].s))
    else None
  }

  function ReadConfig(sp: Space): Option<Config> {
    var chat, asr, tts := ReadEndpoint(sp, Chat), ReadEndpoint(sp, Asr), ReadEndpoint(sp, Tts);
    if && chat.Some? && asr.Some? && tts.Some?
       && U32At(sp, Version)
       && StrAt(sp, TtsVoice, VOICE_CAPACITY)
       && BoolAt(sp, Stream)
       && BoolAt(sp, HideReason)
       && I32At(sp, MaxTokens)
    then Some(RawConfig(sp[Version].w, chat.value, asr.value, tts.value, sp[TtsVoice].s,
                        sp[Stream].b != 0, sp[HideReason].b != 0, sp[MaxTokens].i))
    else None
  }

  function ReadSecrets(sp: Space): Option<Secrets> {
    if && StrAt(sp, WifiSsid, SSID_CAPACITY)
       && StrAt(sp, WifiPass, PASSWORD_CAPACITY)
       && StrAt(sp, ChatKey, API_KEY_CAPACITY)
       && StrAt(sp, AsrKey, API_KEY_CAPACITY)
    then Some(RawSecrets(sp[WifiSsid].s, sp[WifiPass].s, sp[ChatKey].s, sp[AsrKey].s))
    else None
  }

  /** The record a slot namespace holds, if it holds a complete valid one. */
  function Decode(rules: Rules, sp: Space, slot: Slot): Option<Record> {
    if !U32At(sp, Layout) || sp[Layout].w != LAYOUT_VERSION || !U32At(sp, Revision) then None
    else if ReadConfig(sp).None? || ReadSecrets(sp).None? then None
    else
      var r := Record(ReadConfig(sp).value, ReadSecrets(sp).value, sp[Revision].w, slot);
      if RecordValid(rules, r) then Some(r) else None
  }

  lemma EndpointRead(sp: Space, r: Record, role: Role)
    requires Stored(sp, r, Provider(role)) && Stored(sp, r, Model(role)) && Stored(sp, r, BaseUrl(role))
    ensures ReadEndpoint(sp, role) == Some(EndpointOf(r.config, role))
  {
  }

  lemma ScalarsRead(sp: Space, r: Record)
    requires Stored(sp, r, Version) && Stored(sp, r, TtsVoice) && Stored(sp, r, Stream)
    requires Stored(sp, r, HideReason) && Stored(sp, r, MaxTokens)
    ensures U32At(sp, Version) && sp[Version].w == r.config.version
    ensures StrAt(sp, TtsVoice, VOICE_CAPACITY) && sp[TtsVoice].s == r.config.ttsVoice
    ensures BoolAt(sp, Stream) && (sp[Stream].b != 0) == r.config.stream
    ensures BoolAt(sp, HideReason) && (sp[HideReason].b != 0) == r.config.hideReasoning
    ensures I32At(sp, MaxTokens) && sp[MaxTokens].i == r.config.maxTokens
  {
  }

  lemma ConfigFromParts(sp: Space, c: Config)
    requires ReadEndpoint(sp, Chat) == Some(c.chat)
    requires ReadEndpoint(sp, Asr) == Some(c.asr)
    requires ReadEndpoint(sp, Tts) == Some(c.tts)
    requires U32At(sp, Version) && sp[Version].w == c.version
    requires StrAt(sp, TtsVoice, VOICE_CAPACITY) && sp[TtsVoice].s == c.ttsVoice
    requires BoolAt(sp, Stream) && (sp[Stream].b != 0) == c.stream
    requires BoolAt(sp, HideReason) && (sp[HideReason].b != 0) == c.hideReasoning
    requires I32At(sp, MaxTokens) && sp[MaxTokens].i == c.maxTokens
    ensures ReadConfig(sp) == Some(c)
  {
  }

  predicate EndpointStored(sp: Space, r: Record, role: Role) {
    Stored(sp, r, Provider(role)) && Stored(sp, r, Model(role)) && Stored(sp, r, BaseUrl(role))
  }

  lemma ConfigRead(sp: Space, r: Record)
    requires Stored(sp, r, Version) && Stored(sp, r, TtsVoice) && Stored(sp, r, Stream)
    requires Stored(sp, r, HideReason) && Stored(sp, r, MaxTokens)
    requires EndpointStored(sp, r, Chat) && EndpointStored(sp, r, Asr) && EndpointStored(sp, r, Tts)
    ensures ReadConfig(sp) == Some(r.config)
  {
    EndpointRead(sp, r, Chat);
    EndpointRead(sp, r, Asr);
    EndpointRead(sp, r, Tts);
    ScalarsRead(sp, r);
    ConfigFromParts(sp, r.config);
  }

  lemma SecretsRead(sp: Space, r: Record)
    requires forall k {:trigger Stored(sp, r, k)} | IsSecret(k) :: Stored(sp, r, k)
    ensures ReadSecrets(sp) == Some(r.secrets)
  {
    assert Stored(sp, r, WifiSsid) && Stored(sp, r, WifiPass) && Stored(sp, r, ChatKey) && Stored(sp, r, AsrKey);
  }

  /** Writing every field of a valid record and reading it back is the identity. */
  lemma DecodeEncode(rules: Rules, sp: Space, r: Record)
    requires RecordValid(rules, r) && Holds(sp, r)
    ensures Decode(rules, sp, r.slot) == Some(r)
  {
    hide ReadConfig, ReadSecrets, RecordValid;
    HoldsKeys(sp, r);
    ConfigRead(sp, r);
    SecretsRead(sp, r);
  }

  lemma HoldsKeys(sp: Space, r: Record)
    requires Holds(sp, r)
    ensures Stored(sp, r, Layout) && Stored(sp, r, Revision) && Stored(sp, r, Version) && Stored(sp, r, TtsVoice)
    ensures Stored(sp, r, Stream) && Stored(sp, r, HideReason) && Stored(sp, r, MaxTokens)
    ensures EndpointStored(sp, r, Chat) && EndpointStored(sp, r, Asr) && EndpointStored(sp, r, Tts)
    ensures forall k {:trigger Stored(sp, r, k)} | IsSecret(k) :: Stored(sp, r, k)
  {
  }

  /** A readable record is complete: a namespace missing any of the 20 keys decodes to nothing. */
  lemma DecodeIsComplete(rules: Rules, sp: Space, slot: Slot, k: Key)
    requires Decode(rules, sp, slot).Some? && IsRecordKey(k)
    ensures k in sp
    ensures RecordValid(rules, Decode(rules, sp, slot).value)
    ensures Decode(rules, sp, slot).value.slot == slot
  {
    if k.Provider? || k.Model? || k.BaseUrl? {
      assert ReadEndpoint(sp, Chat).Some? && ReadEndpoint(sp, Asr).Some? && ReadEndpoint(sp, Tts).Some?;
      assert k.role == Chat || k.role == Asr || k.role == Tts;
    }
  }

  predicate SameAt(x: Space, y: Space, k: Key) {
    (k in x <==> k in y) && (k in x ==> x[k] == y[k])
  }

  ghost predicate SameFields(x: Space, y: Space) {
    forall k {:trigger SameAt(x, y, k)} | IsField(k) :: SameAt(x, y, k)
  }

  lemma EndpointAgrees(x: Space, y: Space, role: Role)
    requires SameAt(x, y, Provider(role)) && SameAt(x, y, Model(role)) && SameAt(x, y, BaseUrl(role))
    ensures ReadEndpoint(x, role) == ReadEndpoint(y, role)
  {
  }

  lemma ConfigAgrees(x: Space, y: Space)
    requires forall k {:trigger SameAt(x, y, k)} | IsField(k) && !IsSecret(k) :: SameAt(x, y, k)
    ensures ReadConfig(x) == ReadConfig(y)
  {
    EndpointAgrees(x, y, Chat);
    EndpointAgrees(x, y, Asr);
    EndpointAgrees(x, y, Tts);
    assert SameAt(x, y, Version) && SameAt(x, y, TtsVoice) && SameAt(x, y, Stream);
    assert SameAt(x, y, HideReason) && SameAt(x, y, MaxTokens);
  }

  lemma SecretsAgree(x: Space, y: Space)
    requires forall k {:trigger SameAt(x, y, k)} | IsSecret(k) :: SameAt(x, y, k)
    ensures ReadSecrets(x) == ReadSecrets(y)
  {
    assert SameAt(x, y, WifiSsid) && SameAt(x, y, WifiPass) && SameAt(x, y, ChatKey) && SameAt(x, y, AsrKey);
  }

  lemma LegacyAgrees(rules: Rules, x: Space, y: Space)
    requires SameFields(x, y)
    ensures ReadLegacy(rules, x) == ReadLegacy(rules, y)
  {
    var d := LegacyDefaults(rules);
    assert SameFields(d + x, d + y) by {
      forall k | IsField(k) ensures SameAt(d + x, d + y, k) { assert SameAt(x, y, k); }
    }
    ConfigAgrees(d + x, d + y);
    SecretsAgree(d + x, d + y);
    assert SameAt(x, y, Version);
  }

  /** Decoding looks at the 20 record keys only. */
  lemma DecodeAgrees(rules: Rules, x: Space, y: Space, slot: Slot)
    requires SameFields(x, y) && SameAt(x, y, Layout) && SameAt(x, y, Revision)
    ensures Decode(rules, x, slot) == Decode(rules, y, slot)
  {
    ConfigAgrees(x, y);
    SecretsAgree(x, y);
  }

  // ---- the legacy namespace ----------------------------------------------

  /** Every legacy field is optional; a missing one keeps the built-in default. */
  function LegacyDefaults(rules: Rules): Space {
    map k | k in FIELD_KEYS && IsField(k) :: FieldValue(Blank(rules), k)
  }

  function Blank(rules: Rules): Record { Record(rules.defaults, RawSecrets("", "", "", ""), 1, Legacy) }

  lemma DefaultStored(rules: Rules, k: Key)
    requires IsField(k)
    ensures Stored(LegacyDefaults(rules), Blank(rules), k)
  {
    KeyLists(k);
  }

  lemma DefaultsReadable(rules: Rules)
    ensures ReadConfig(LegacyDefaults(rules)).Some? && ReadSecrets(LegacyDefaults(rules)).Some?
  {
    hide LegacyDefaults, FieldValue, Blank;
    var d, blank := LegacyDefaults(rules), Blank(rules);
    forall role ensures EndpointStored(d, blank, role) {
      DefaultStored(rules, Provider(role));
      DefaultStored(rules, Model(role));
      DefaultStored(rules, BaseUrl(role));
    }
    DefaultStored(rules, Version);
    DefaultStored(rules, TtsVoice);
    DefaultStored(rules, Stream);
    DefaultStored(rules, HideReason);
    DefaultStored(rules, MaxTokens);
    ConfigRead(d, blank);
    forall k | IsSecret(k) ensures Stored(d, blank, k) { DefaultStored(rules, k); }
    SecretsRead(d, blank);
  }

  datatype LegacyView = Unreadable | Missing | Present(record: Record)

  /** What the legacy namespace offers; the version key alone decides whether a record is there. */
  function ReadLegacy(rules: Rules, sp: Space): LegacyView {
    var filled := LegacyDefaults(rules) + sp;
    if ReadConfig(filled).None? || ReadSecrets(filled).None? then Unreadable
    else if Version !in sp then Missing
    else Present(Record(ReadConfig(filled).value, ReadSecrets(filled).value, 1, Legacy))
  }

  // ---- what reading means, key by key --------------------------------------

  /** A value the source can read for this key: of the key's type, and short enough for its array. */
  predicate Fits(k: Key, v: Value)
    requires IsField(k)
  {
    match k
    case Version => v.U32v?
    case Provider(_) => v.Str? && |v.s| < PROVIDER_CAPACITY
    case Model(_) => v.Str? && |v.s| < MODEL_CAPACITY
    case BaseUrl(_) => v.Str? && |v.s| < URL_CAPACITY
    case TtsVoice => v.Str? && |v.s| < VOICE_CAPACITY
    case Stream => v.U8?
    case HideReason => v.U8?
    case MaxTokens => v.I32v?
    case WifiSsid => v.Str? && |v.s| < SSID_CAPACITY
    case WifiPass => v.Str? && |v.s| < PASSWORD_CAPACITY
    case ChatKey => v.Str? && |v.s| < API_KEY_CAPACITY
    case AsrKey => v.Str? && |v.s| < API_KEY_CAPACITY
  }

  /** The record has, in the field that belongs to this key, what this value says. */
  predicate Says(r: Record, k: Key, v: Value)
    requires IsField(k)
  {
    match k
    case Version => v == U32v(r.config.version)
    case Provider(Chat) => v == Str(r.config.chat.provider)
    case Model(Chat) => v == Str(r.config.chat.model)
    case BaseUrl(Chat) => v == Str(r.config.chat.baseUrl)
    case Provider(Asr) => v == Str(r.config.asr.provider)
    case Model(Asr) => v == Str(r.config.asr.model)
    case BaseUrl(Asr) => v == Str(r.config.asr.baseUrl)
    case Provider(Tts) => v == Str(r.config.tts.provider)
    case Model(Tts) => v == Str(r.config.tts.model)
    case BaseUrl(Tts) => v == Str(r.config.tts.baseUrl)
    case TtsVoice => v == Str(r.config.ttsVoice)
    case Stream => v.U8? && (r.config.stream <==> v.b != 0)
    case HideReason => v.U8? && (r.config.hideReasoning <==> v.b != 0)
    case MaxTokens => v == I32v(r.config.maxTokens)
    case WifiSsid => v == Str(r.secrets.ssid)
    case WifiPass => v == Str(r.secrets.password)
    case ChatKey => v == Str(r.secrets.chatKey)
    case AsrKey => v == Str(r.secrets.asrKey)
  }

  /** Every field is readable. */
  ghost predicate AllFit(sp: Space) {
    forall k {:trigger Fits(k, sp[k])} | IsField(k) && k in sp :: Fits(k, sp[k])
  }

  ghost predicate AllPresent(sp: Space) { forall k | IsField(k) :: k in sp }

  /** The record says, field by field, what these keys hold. */
  ghost predicate SaysAll(r: Record, sp: Space) {
    forall k {:trigger Says(r, k, sp[k])} | IsField(k) && k in sp :: Says(r, k, sp[k])
  }

  lemma EndpointReadable(sp: Space, role: Role)
    requires AllPresent(sp)
    ensures ReadEndpoint(sp, role).Some? <==>
      Fits(Provider(role), sp[Provider(role)]) && Fits(Model(role), sp[Model(role)]) && Fits(BaseUrl(role), sp[BaseUrl(role)])
  {
  }

  lemma ReadFits(sp: Space, k: Key)
    requires AllPresent(sp) && ReadConfig(sp).Some? && ReadSecrets(sp).Some? && IsField(k)
    ensures Fits(k, sp[k])
  {
    hide AllPresent;
    if k.Provider? || k.Model? || k.BaseUrl? {
      assert k.role == Chat || k.role == Asr || k.role == Tts;
      hide ReadEndpoint;
      EndpointReadable(sp, k.role);
    }
  }

  lemma FitsRead(sp: Space)
    requires AllPresent(sp) && AllFit(sp)
    ensures ReadConfig(sp).Some? && ReadSecrets(sp).Some?
  {
    forall role: Role ensures ReadEndpoint(sp, role).Some? {
      EndpointReadable(sp, role);
      assert Fits(Provider(role), sp[Provider(role)]) && Fits(Model(role), sp[Model(role)]);
      assert Fits(BaseUrl(role), sp[BaseUrl(role)]);
    }
    assert Fits(Version, sp[Version]) && Fits(TtsVoice, sp[TtsVoice]) && Fits(Stream, sp[Stream]);
    assert Fits(HideReason, sp[HideReason]) && Fits(MaxTokens, sp[MaxTokens]);
    assert Fits(WifiSsid, sp[WifiSsid]) && Fits(WifiPass, sp[WifiPass]);
    assert Fits(ChatKey, sp[ChatKey]) && Fits(AsrKey, sp[AsrKey]);
    hide ReadEndpoint, AllFit, AllPresent;
  }

  /** A full set of keys is readable exactly if every one of them fits. */
  lemma ReadableExactly(sp: Space)
    requires AllPresent(sp)
    ensures ReadConfig(sp).Some? && ReadSecrets(sp).Some? <==> AllFit(sp)
  {
    hide ReadConfig, ReadSecrets, Fits, AllPresent;
    if ReadConfig(sp).Some? && ReadSecrets(sp).Some? {
      forall k | IsField(k) && k in sp ensures Fits(k, sp[k]) { ReadFits(sp, k); }
    }
    if AllFit(sp) { FitsRead(sp); }
  }

  /** What is read says what is stored, key by key. */
  lemma ReadSays(sp: Space, r: Record)
    requires AllPresent(sp) && ReadConfig(sp) == Some(r.config) && ReadSecrets(sp) == Some(r.secrets)
    ensures SaysAll(r, sp)
  {
    forall k | IsField(k) ensures Says(r, k, sp[k]) {
      if k.Provider? || k.Model? || k.BaseUrl? {
        assert ReadEndpoint(sp, k.role).Some? && ReadEndpoint(sp, k.role).value == EndpointOf(r.config, k.role) by {
          assert k.role == Chat || k.role == Asr || k.role == Tts;
        }
      }
    }
  }

  lemma SaidEndpoint(sp: Space, r: Record, s: Record, role: Role)
    requires AllPresent(sp) && SaysAll(r, sp) && SaysAll(s, sp)
    ensures EndpointOf(r.config, role) == EndpointOf(s.config, role)
  {
    assert Says(r, Provider(role), sp[Provider(role)]) && Says(s, Provider(role), sp[Provider(role)]);
    assert Says(r, Model(role), sp[Model(role)]) && Says(s, Model(role), sp[Model(role)]);
    assert Says(r, BaseUrl(role), sp[BaseUrl(role)]) && Says(s, BaseUrl(role), sp[BaseUrl(role)]);
  }

  predicate BothSay(sp: Space, r: Record, s: Record, k: Key)
    requires IsField(k)
  {
    k in sp && Says(r, k, sp[k]) && Says(s, k, sp[k])
  }

  /** Two records that say the same are the same, up to revision and slot. */
  lemma SaidOnce(sp: Space, r: Record, s: Record)
    requires AllPresent(sp) && SaysAll(r, sp) && SaysAll(s, sp)
    ensures r.config == s.config && r.secrets == s.secrets
  {
    SaidEndpoint(sp, r, s, Chat);
    SaidEndpoint(sp, r, s, Asr);
    SaidEndpoint(sp, r, s, Tts);
    forall k | IsField(k) ensures BothSay(sp, r, s, k) {}
    hide SaysAll, AllPresent;
    assert BothSay(sp, r, s, Version) && BothSay(sp, r, s, TtsVoice) && BothSay(sp, r, s, Stream);
    assert BothSay(sp, r, s, HideReason) && BothSay(sp, r, s, MaxTokens);
    assert BothSay(sp, r, s, WifiSsid) && BothSay(sp, r, s, WifiPass) && BothSay(sp, r, s, ChatKey) && BothSay(sp, r, s, AsrKey);
  }

  lemma SaidFits(sp: Space, r: Record)
    requires AllPresent(sp) && SaysAll(r, sp)
    ensures AllFit(sp)
  {
    forall k | IsField(k) ensures Fits(k, sp[k]) { assert Says(r, k, sp[k]); }
  }

  /** A namespace that holds this record under its own keys. */
  ghost predicate HoldsRecord(sp: Space, r: Record) {
    && Layout in sp && sp[Layout] == U32v(LAYOUT_VERSION) && Revision in sp && sp[Revision] == U32v(r.revision)
    && AllPresent(sp) && SaysAll(r, sp)
  }

  /** A slot decodes to exactly the valid record that it holds, key by key. */
  lemma DecodeExactly(rules: Rules, sp: Space, slot: Slot, r: Record)
    ensures Decode(rules, sp, slot) == Some(r) <==> r.slot == slot && RecordValid(rules, r) && HoldsRecord(sp, r)
  {
    if Decode(rules, sp, slot) == Some(r) {
      forall k | IsField(k) ensures k in sp { DecodeIsComplete(rules, sp, slot, k); }
      ReadSays(sp, r);
    } else if r.slot == slot && RecordValid(rules, r) && HoldsRecord(sp, r) {
      SaidFits(sp, r);
      ReadableExactly(sp);
      var found := Record(ReadConfig(sp).value, ReadSecrets(sp).value, r.revision, slot);
      ReadSays(sp, found);
      SaidOnce(sp, found, r);
    }
  }

  lemma FilledIn(rules: Rules, sp: Space)
    ensures var filled := LegacyDefaults(rules) + sp;
      && AllPresent(filled) && (AllFit(filled) <==> AllFit(sp))
      && (forall k | IsField(k) && k in sp :: filled[k] == sp[k])
      && (forall k | IsField(k) && k !in sp :: filled[k] == FieldValue(Blank(rules), k))
  {
    var filled := LegacyDefaults(rules) + sp;
    forall k | IsField(k) ensures k in filled && (k !in sp ==> filled[k] == FieldValue(Blank(rules), k) && Fits(k, filled[k])) {
      DefaultStored(rules, k);
    }
    if AllFit(sp) {
      forall k | IsField(k) ensures Fits(k, filled[k]) { if k in sp { assert Fits(k, sp[k]); } }
    } else {
      var k :| IsField(k) && k in sp && !Fits(k, sp[k]);
      assert !Fits(k, filled[k]);
    }
  }

  /** Two records agree in the field that belongs to this key. */
  ghost predicate SameField(r: Record, s: Record, k: Key)
    requires IsField(k)
  {
    forall v :: Says(r, k, v) <==> Says(s, k, v)
  }

  lemma DefaultSays(r: Record, s: Record, k: Key)
    requires IsField(k) && Says(r, k, FieldValue(s, k))
    ensures SameField(r, s, k)
  {
  }

  /**
   * The legacy namespace, key by key: it is unreadable exactly if some present field does not fit,
   * otherwise there is a record exactly if the version is there, and then each present field says what is
   * stored and each absent one is the built-in default.
   */
  lemma LegacyExactly(rules: Rules, sp: Space)
    ensures ReadLegacy(rules, sp).Unreadable? <==> !AllFit(sp)
    ensures ReadLegacy(rules, sp).Present? <==> AllFit(sp) && Version in sp
    ensures ReadLegacy(rules, sp).Present? ==>
      var r := ReadLegacy(rules, sp).record;
      && r.revision == 1 && r.slot == Legacy && SaysAll(r, sp)
      && forall k | IsField(k) && k !in sp :: SameField(r, Blank(rules), k)
  {
    hide AllFit, ReadConfig, ReadSecrets, LegacyDefaults, FieldValue, Says;
    var filled := LegacyDefaults(rules) + sp;
    FilledIn(rules, sp);
    ReadableExactly(filled);
    if ReadLegacy(rules, sp).Present? {
      var r := ReadLegacy(rules, sp).record;
      ReadSays(filled, r);
      forall k | IsField(k) && k in sp ensures Says(r, k, sp[k]) { assert Says(r, k, filled[k]); }
      forall k | IsField(k) && k !in sp ensures SameField(r, Blank(rules), k) {
        assert Says(r, k, filled[k]);
        DefaultSays(r, Blank(rules), k);
      }
    }
  }

  /** A legacy namespace with every field of a record reads as exactly that record. */
  lemma LegacyOf(rules: Rules, sp: Space, r: Record)
    requires AllPresent(sp) && SaysAll(r, sp) && r.revision == 1 && r.slot == Legacy
    ensures ReadLegacy(rules, sp) == Present(r)
  {
    hide AllFit, ReadLegacy, Says;
    SaidFits(sp, r);
    LegacyExactly(rules, sp);
    SaidOnce(sp, ReadLegacy(rules, sp).record, r);
  }
}
