/** The secured message channel of the client: signing, metadata encryption, the two-sided
    hash chain, and the checks on receipt.  Sends and receives run to completion one by one. */
module Channel {
  import opened Texts
  import opened Json
  import opened JsonText
  import opened Nonces

  // ---------------------------------------------------------------------------------------
  // The signed text
  // ---------------------------------------------------------------------------------------

  datatype Fields = Fields(
    kind: string, threadId: string, sessionId: string, timestamp: int, nonce: string,
    payload: Json, prev: string, meta: Json, encoding: string)

  function FieldAt(f: Fields, i: nat): Member {
    match i
    case 0 => Member("type", Str(f.kind))
    case 1 => Member("thread_id", Str(f.threadId))
    case 2 => Member("session_id", Str(f.sessionId))
    case 3 => Member("timestamp", Num(DecimalInt(f.timestamp)))
    case 4 => Member("nonce", Str(f.nonce))
    case 5 => Member("payload", f.payload)
    case 6 => Member("prev_message_hash", Str(f.prev))
    case 7 => Member("meta", f.meta)
    case _ => Member("content_encoding", Str(f.encoding))
  }

  function FieldsJson(f: Fields): Json { Obj(seq(9, i requires 0 <= i < 9 => FieldAt(f, i))) }

  function SerializeCanonical(f: Fields): string { CanonText(JsOrder, FieldsJson(f)) }

  /** `hashEnvelope` leaves `meta` and `content_encoding` out. */
  function Commitment(f: Fields): Fields { f.(meta := Obj([]), encoding := []) }

  /** Equal field for field, up to recursive key order inside payload and meta. */
  ghost predicate SameFields(f: Fields, g: Fields) {
    && f.kind == g.kind && f.threadId == g.threadId && f.sessionId == g.sessionId && f.timestamp == g.timestamp
    && f.nonce == g.nonce && f.prev == g.prev && f.encoding == g.encoding
    && Meaning(f.payload) == Meaning(g.payload) && Meaning(f.meta) == Meaning(g.meta)
  }

  /** The fields without the members "__proto__" that canonicalisation loses. */
  function KeptFields(f: Fields): Fields {
    f.(payload := Surviving(JsOrder, f.payload), meta := Surviving(JsOrder, f.meta))
  }

  /** No object inside payload or meta has a key "__proto__". */
  ghost predicate Plain(f: Fields) { AllKept(JsOrder, f.payload) && AllKept(JsOrder, f.meta) }

  predicate Clean(f: Fields) { WellFormed(f.payload) && WellFormed(f.meta) }

  lemma PlainKept(f: Fields)
    requires Plain(f)
    ensures KeptFields(f) == f
  {
    AllKeptSurvives(JsOrder, f.payload);
    AllKeptSurvives(JsOrder, f.meta);
  }

  lemma NumeralOfInt(n: int)
    ensures Numeral(DecimalInt(n))
  {
    DecimalRoundTrip(if n < 0 then -n else n);
    var digits := Decimal(if n < 0 then -n else n);
    assert forall i | 0 <= i < |digits| :: IsDigit(digits[i]);
  }

  lemma FieldsWellFormed(f: Fields)
    requires Clean(f)
    ensures WellFormed(FieldsJson(f))
  {
    NumeralOfInt(f.timestamp);
  }

  lemma RecordKeys(f: Fields, g: Fields)
    ensures forall i, j | 0 <= i < j < 9 :: FieldAt(f, i).key != FieldAt(f, j).key
    ensures forall i | 0 <= i < 9 :: FieldAt(f, i).key == FieldAt(g, i).key && Kept(JsOrder, FieldAt(f, i).key)
  {
  }

  /** Of the record itself nothing is lost, only inside payload and meta. */
  lemma RecordSurvives(f: Fields)
    ensures Surviving(JsOrder, FieldsJson(f)) == FieldsJson(KeptFields(f))
  {
    var ms := FieldsJson(f).members;
    RecordKeys(f, f);
    SurvivingMemberAt(JsOrder, ms);
    forall i | 0 <= i < 9 ensures SurvivingMembers(JsOrder, ms)[i] == FieldAt(KeptFields(f), i) {
      assert ms[i] == FieldAt(f, i);
    }
  }

  lemma RecordMeaning(f: Fields, g: Fields)
    ensures Meaning(FieldsJson(f)) == Meaning(FieldsJson(g)) <==> SameFields(f, g)
  {
    var ms, ns := FieldsJson(f).members, FieldsJson(g).members;
    RecordKeys(f, g);
    RecordsEqual(ms, ns);
    if Table(ms) == Table(ns) {
      forall i | 0 <= i < 9 ensures SameValue(f, g, i) { assert ms[i] == FieldAt(f, i) && ns[i] == FieldAt(g, i); }
      RecordValues(f, g);
    }
  }

  lemma RecordValues(f: Fields, g: Fields)
    requires forall i | 0 <= i < 9 :: SameValue(f, g, i)
    ensures SameFields(f, g)
  {
    DecimalIntInjective(f.timestamp, g.timestamp);
    assert SameValue(f, g, 0) && SameValue(f, g, 1) && SameValue(f, g, 2) && SameValue(f, g, 3) && SameValue(f, g, 4);
    assert SameValue(f, g, 5) && SameValue(f, g, 6) && SameValue(f, g, 7) && SameValue(f, g, 8);
  }

  ghost predicate SameValue(f: Fields, g: Fields, i: nat) { Meaning(FieldAt(f, i).value) == Meaning(FieldAt(g, i).value) }

  /** Two messages are signed over the same text exactly when all their fields agree, up to key
      order and but for members "__proto__" inside payload and meta. */
  lemma SerializeExact(f: Fields, g: Fields)
    requires Clean(f) && Clean(g)
    ensures SerializeCanonical(f) == SerializeCanonical(g) <==> SameFields(KeptFields(f), KeptFields(g))
  {
    FieldsWellFormed(f);
    FieldsWellFormed(g);
    CanonTextExact(JsOrder, FieldsJson(f), FieldsJson(g));
    RecordSurvives(f);
    RecordSurvives(g);
    RecordMeaning(KeptFields(f), KeptFields(g));
  }

  /** Without such members the signed text determines every field up to key order. */
  lemma SerializeExactWhenPlain(f: Fields, g: Fields)
    requires Clean(f) && Clean(g) && Plain(f) && Plain(g)
    ensures SerializeCanonical(f) == SerializeCanonical(g) <==> SameFields(f, g)
  {
    PlainKept(f);
    PlainKept(g);
    SerializeExact(f, g);
  }

  /** Of two messages with the same signed text, one of them plain, the other is the same message
      exactly if it is plain too. */
  lemma SameTextSameFields(f: Fields, g: Fields)
    requires SameFields(KeptFields(f), KeptFields(g)) && Plain(g) && DistinctKeys(f.payload) && DistinctKeys(f.meta)
    ensures SameFields(f, g) <==> Plain(f)
  {
    PlainKept(g);
    LossVisible(f.payload);
    LossVisible(f.meta);
  }

  /** The payload with one more member "__proto__". */
  function Forged(f: Fields, ms: seq<Member>, x: Json): Fields { f.(payload := Obj(ms + [Member("__proto__", x)])) }

  /** Such a member can be added to any object payload: the signed text stays the same although
      the message does not. */
  lemma ForgedPayload(f: Fields, ms: seq<Member>, x: Json)
    requires f.payload == Obj(ms)
    ensures SerializeCanonical(Forged(f, ms, x)) == SerializeCanonical(f)
    ensures (forall m | m in ms :: m.key != "__proto__") ==> !SameFields(Forged(f, ms, x), f)
  {
    ProtoLeavesNoTrace(ms, x);
    SameKept(Forged(f, ms, x), f);
  }

  lemma SameKept(f: Fields, g: Fields)
    requires KeptFields(f) == KeptFields(g)
    ensures SerializeCanonical(f) == SerializeCanonical(g)
  {
    RecordSurvives(f);
    RecordSurvives(g);
    CanonExact(JsOrder, FieldsJson(f), FieldsJson(g));
  }

  // ---------------------------------------------------------------------------------------
  // Endpoints
  // ---------------------------------------------------------------------------------------

  /** The library calls: SHA-256 and HMAC-SHA256 in hexadecimal, AES-GCM (`seal` gives
      ciphertext and tag for a key, a plaintext and an iv), and JSON.parse. */
  datatype Suite = Suite(
    sha: string -> string,
    hmac: (string, string) -> string,
    seal: (string, string, string) -> (string, string),
    open: (string, string, string, string) -> Option<string>,
    parse: string -> Option<Json>)

  /** An empty string stands for an absent key, as in the source's `||` tests. */
  datatype Config = Config(
    clientId: string, sessionMacKey: string, secretKey: string, encryptionKey: string,
    encryptMetadata: bool, requireSignatures: bool, maxMessageAge: int)

  datatype Endpoint = Endpoint(
    config: Config, connected: bool, seen: Cache, lastSent: string, lastReceived: string)

  datatype Envelope = Envelope(
    kind: string, threadId: Option<string>, sessionId: Option<string>, timestamp: Option<int>,
    nonce: Option<string>, payload: Option<Json>, prev: Option<string>, meta: Option<Json>,
    encoding: Option<string>, signature: Option<string>, encrypted: Option<string>)

  datatype Message = Message(
    kind: string, threadId: string, sessionId: string, timestamp: int, payload: Json,
    meta: Option<Json>, encoding: Option<string>)

  /** What `send` reads from the clock and the random source. */
  datatype Tick = Tick(now: nat, randomHex: string, iv: string)

  function MacKey(c: Config): string {
    if c.sessionMacKey != [] then c.sessionMacKey else c.secretKey
  }

  function Present(s: string): Option<string> { if s == [] then None else Some(s) }

  function OrEmpty(s: Option<string>): string { if s.Some? then s.value else [] }

  function Or(a: string, b: string): string { if a != [] then a else b }

  function MetaOrEmpty(m: Option<Json>): Json { if m.Some? then m.value else Obj([]) }

  // ---------------------------------------------------------------------------------------
  // Metadata encryption
  // ---------------------------------------------------------------------------------------

  datatype Metadata = Metadata(threadId: string, sessionId: string, timestamp: int)

  function MetadataJson(m: Metadata): Json {
    Obj([Member("thread_id", Str(m.threadId)), Member("session_id", Str(m.sessionId)),
         Member("timestamp", Num(DecimalInt(m.timestamp)))])
  }

  function EncryptMetadata(su: Suite, m: Metadata, key: string, iv: string): string {
    var sealed := su.seal(key, Print(MetadataJson(m)), iv);
    sealed.0 + ":" + iv + ":" + sealed.1
  }

  function Lookup(ms: seq<Member>, key: string): Option<Json> {
    if ms == [] then None
    else if ms[|ms| - 1].key == key then Some(ms[|ms| - 1].value)
    else Lookup(ms[..|ms| - 1], key)
  }

  function IntegerOf(lexeme: string): Option<int> {
    if AllDigits(lexeme) || (lexeme != [] && lexeme[0] == '-' && AllDigits(lexeme[1..]))
    then Some(IntValue(lexeme)) else None
  }

  function ReadMetadata(v: Json): Option<Metadata> {
    if !v.Obj? then None
    else
      match (Lookup(v.members, "thread_id"), Lookup(v.members, "session_id"), Lookup(v.members, "timestamp"))
      case (Some(Str(t)), Some(Str(s)), Some(Num(l))) =>
        if t == [] || s == [] || IntegerOf(l).None? then None else Some(Metadata(t, s, IntegerOf(l).value))
      case _ => None
  }

  function DecryptMetadata(su: Suite, blob: string, key: string): Option<Metadata> {
    var parts := Split(blob, ':');
    if |parts| != 3 || parts[0] == [] || parts[1] == [] || parts[2] == [] then None
    else
      match su.open(key, parts[0], parts[1], parts[2])
      case None => None
      case Some(text) => match su.parse(text) case None => None case Some(v) => ReadMetadata(v)
  }

  // ---------------------------------------------------------------------------------------
  // Sending
  // ---------------------------------------------------------------------------------------

  function NonceFor(su: Suite, c: Config, tick: Tick): string {
    if MacKey(c) != [] then HmacNonce(su.hmac(MacKey(c), Decimal(tick.now) + "-" + tick.randomHex), tick.now)
    else LegacyNonce(c.clientId, tick.now, tick.randomHex)
  }

  /** The fields that `send` signs. */
  function SignedFields(su: Suite, ep: Endpoint, m: Message, tick: Tick): Fields {
    Fields(m.kind, m.threadId, m.sessionId, m.timestamp, NonceFor(su, ep.config, tick), m.payload, ep.lastSent,
           MetaOrEmpty(m.meta), OrEmpty(m.encoding))
  }

  predicate Encrypts(c: Config) { c.encryptMetadata && c.encryptionKey != [] && c.sessionMacKey != [] }

  predicate CanSend(ep: Endpoint) { ep.connected && (MacKey(ep.config) != [] || !ep.config.requireSignatures) }

  function Signature(su: Suite, c: Config, f: Fields): string {
    if MacKey(c) == [] then "v0-placeholder" else su.hmac(MacKey(c), SerializeCanonical(f))
  }

  /** The envelope that goes on the wire. */
  function Wire(su: Suite, ep: Endpoint, m: Message, tick: Tick): Envelope {
    var f := SignedFields(su, ep, m, tick);
    var plain := Envelope(m.kind, Some(m.threadId), Some(m.sessionId), Some(m.timestamp), Some(f.nonce), Some(m.payload),
                          Present(ep.lastSent), m.meta, m.encoding, Some(Signature(su, ep.config, f)), None);
    if !Encrypts(ep.config) then plain
    else
      var blob := EncryptMetadata(su, Metadata(m.threadId, m.sessionId, m.timestamp), ep.config.encryptionKey, tick.iv);
      plain.(threadId := Some([]), sessionId := Some([]), timestamp := Some(0), encrypted := Some(blob))
  }

  function AfterSend(su: Suite, ep: Endpoint, m: Message, tick: Tick): Endpoint {
    if !CanSend(ep) then ep
    else ep.(lastSent := su.sha(SerializeCanonical(Commitment(SignedFields(su, ep, m, tick)))))
  }

  // ---------------------------------------------------------------------------------------
  // Receiving
  // ---------------------------------------------------------------------------------------

  datatype Outcome =
    | Accepted
    | Unverified  // passed on without any check
    | Rejected(why: Refusal)

  datatype Refusal =
    | InvalidMessage | MissingSignature | InvalidSignature | MessageTooOld | InvalidTimestamp
    | InvalidNonce | HashChainMismatch

  /** `decryptMetadataIfNeeded`: a blob that cannot be decrypted leaves the envelope alone. */
  function Restore(su: Suite, c: Config, e: Envelope): Envelope {
    if OrEmpty(e.encrypted) == [] || c.encryptionKey == [] then e
    else
      match DecryptMetadata(su, e.encrypted.value, c.encryptionKey)
      case None => e
      case Some(m) => e.(threadId := Some(m.threadId), sessionId := Some(m.sessionId), timestamp := Some(m.timestamp))
  }

  predicate IsHandshake(kind: string) { kind == "handshake_ack" || kind == "handshake_reject" }

  predicate Verifies(c: Config, e: Envelope) {
    c.requireSignatures && MacKey(c) != [] && !IsHandshake(e.kind)
  }

  predicate Complete(e: Envelope) {
    e.threadId.Some? && e.timestamp.Some? && OrEmpty(e.nonce) != [] && e.payload.Some?
  }

  function ReceivedFields(e: Envelope): Fields
    requires Complete(e)
  {
    Fields(e.kind, e.threadId.value, OrEmpty(e.sessionId), e.timestamp.value, e.nonce.value, e.payload.value,
           OrEmpty(e.prev), MetaOrEmpty(e.meta), OrEmpty(e.encoding))
  }

  function ClientIdOf(meta: Option<Json>): Option<string> {
    if meta.Some? && meta.value.Obj? then
      match Lookup(meta.value.members, "client_id") case Some(Str(id)) => Some(id) case _ => None
    else None
  }

  /** The signature, timestamp and nonce checks on a restored envelope; None is a pass. */
  function Refuses(su: Suite, ep: Endpoint, r: Envelope, now: int): Option<Refusal> {
    var limit := AgeLimit(ep.config.maxMessageAge);
    if !Complete(r) then Some(InvalidMessage)
    else if OrEmpty(r.signature) == [] then Some(MissingSignature)
    else if su.hmac(MacKey(ep.config), SerializeCanonical(ReceivedFields(r))) != r.signature.value then Some(InvalidSignature)
    else if now - r.timestamp.value > limit then Some(MessageTooOld)
    else if now - r.timestamp.value < -SKEW then Some(InvalidTimestamp)
    else if Nonces.Verdict(ep.seen, r.nonce.value, ClientIdOf(r.meta), now, limit).Some? then Some(InvalidNonce)
    else None
  }

  predicate OffChain(ep: Endpoint, r: Envelope) {
    ep.lastReceived != [] && r.prev != Some(ep.lastReceived)
  }

  function Judge(su: Suite, ep: Endpoint, e: Envelope, now: int): Outcome {
    var r := Restore(su, ep.config, e);
    if !Verifies(ep.config, r) then Unverified
    else if Refuses(su, ep, r, now).Some? then Rejected(Refuses(su, ep, r, now).value)
    else if OffChain(ep, r) then Rejected(HashChainMismatch)
    else Accepted
  }

  /** The nonce is recorded before the chain is checked. */
  function AfterReceive(su: Suite, ep: Endpoint, e: Envelope, now: int): Endpoint {
    var r := Restore(su, ep.config, e);
    match Judge(su, ep, e, now)
    case Unverified => if e.kind == "handshake_ack" then ep.(connected := true, lastSent := [], lastReceived := []) else ep
    case Rejected(HashChainMismatch) => ep.(seen := ep.seen[r.nonce.value := now])
    case Rejected(_) => ep
    case Accepted =>
      ep.(seen := ep.seen[r.nonce.value := now], lastReceived := su.sha(SerializeCanonical(Commitment(ReceivedFields(r)))))
  }

  // What the checks amount to, in terms of the configuration and of what is on the wire.

  /** What goes on the wire: the metadata is hidden exactly if encryption is switched on and both
      session keys are there; the rest and the signature do not depend on it. */
  lemma WireExact(su: Suite, ep: Endpoint, m: Message, tick: Tick)
    ensures var c, w := ep.config, Wire(su, ep, m, tick);
            var key := if c.sessionMacKey != [] then c.sessionMacKey else c.secretKey;
            var mac := su.hmac(key, Decimal(tick.now) + "-" + tick.randomHex);
            var nonce := if key == [] then c.clientId + "-" + Decimal(tick.now) + "-" + tick.randomHex
                         else "hmac-" + (if |mac| < 32 then mac else mac[..32]) + "-" + Decimal(tick.now);
            var meta := if m.meta.Some? then m.meta.value else Obj([]);
            var encoding := if m.encoding.Some? then m.encoding.value else [];
            var signed := Fields(m.kind, m.threadId, m.sessionId, m.timestamp, nonce, m.payload, ep.lastSent, meta, encoding);
            && w.kind == m.kind && w.nonce == Some(nonce) && w.payload == Some(m.payload)
            && w.prev == (if ep.lastSent == [] then None else Some(ep.lastSent)) && w.meta == m.meta && w.encoding == m.encoding
            && w.signature == Some(if key == [] then "v0-placeholder" else su.hmac(key, SerializeCanonical(signed)))
            && (if c.encryptMetadata && c.encryptionKey != [] && c.sessionMacKey != [] then
                  var record := Obj([Member("thread_id", Str(m.threadId)), Member("session_id", Str(m.sessionId)),
                                     Member("timestamp", Num(DecimalInt(m.timestamp)))]);
                  var (cipher, tag) := su.seal(c.encryptionKey, Print(record), tick.iv);
                  && w.threadId == Some([]) && w.sessionId == Some([]) && w.timestamp == Some(0)
                  && w.encrypted == Some(cipher + ":" + tick.iv + ":" + tag)
                else
                  && w.threadId == Some(m.threadId) && w.sessionId == Some(m.sessionId) && w.timestamp == Some(m.timestamp)
                  && w.encrypted == None)
  {
  }

  /** Which messages are passed on without any check. */
  lemma UnverifiedExact(su: Suite, ep: Endpoint, e: Envelope, now: int)
    ensures Judge(su, ep, e, now).Unverified? <==>
            || !ep.config.requireSignatures
            || (ep.config.sessionMacKey == [] && ep.config.secretKey == [])
            || e.kind == "handshake_ack" || e.kind == "handshake_reject"
  {
  }

  /** A complete message of any other kind without a signature is rejected for that. */
  lemma UnsignedRejected(su: Suite, ep: Endpoint, e: Envelope, now: int)
    requires ep.config.requireSignatures && (ep.config.sessionMacKey != [] || ep.config.secretKey != [])
    requires e.kind != "handshake_ack" && e.kind != "handshake_reject" && e.signature in {None, Some([])}
    requires e.threadId.Some? && e.timestamp.Some? && e.nonce.Some? && e.nonce.value != [] && e.payload.Some?
    ensures Judge(su, ep, e, now) == Rejected(MissingSignature)
  {
  }

  /** What an accepted message has passed, and that this is enough. */
  lemma AcceptedExact(su: Suite, ep: Endpoint, e: Envelope, now: int)
    ensures var c, r := ep.config, Restore(su, ep.config, e);
            var key := if c.sessionMacKey != [] then c.sessionMacKey else c.secretKey;
            var limit := if c.maxMessageAge == 0 then 60000 else c.maxMessageAge;
            Judge(su, ep, e, now).Accepted? <==>
              && c.requireSignatures && key != [] && e.kind != "handshake_ack" && e.kind != "handshake_reject"
              && r.threadId.Some? && r.timestamp.Some? && r.nonce.Some? && r.payload.Some? && r.signature.Some?
              && r.nonce.value != [] && r.signature.value != []
              && r.signature.value == su.hmac(key, SerializeCanonical(
                   Fields(e.kind, r.threadId.value, OrEmpty(r.sessionId), r.timestamp.value, r.nonce.value, r.payload.value,
                          OrEmpty(r.prev), MetaOrEmpty(r.meta), OrEmpty(r.encoding))))
              && -5000 <= now - r.timestamp.value <= limit
              && r.nonce.value !in ep.seen && ReadNonce(r.nonce.value, ClientIdOf(r.meta)).Stamped?
              && -5000 <= now - ReadNonce(r.nonce.value, ClientIdOf(r.meta)).timestamp <= limit
              && (ep.lastReceived == [] || r.prev == Some(ep.lastReceived))
  {
  }

  /** Restoring touches nothing where there is no blob or no key for it, or it cannot be read. */
  lemma RestoreLeaves(su: Suite, c: Config, e: Envelope)
    requires e.encrypted in {None, Some([])} || c.encryptionKey == []
             || DecryptMetadata(su, e.encrypted.value, c.encryptionKey) == None
    ensures Restore(su, c, e) == e
  {
  }

  lemma {:induction false} LookupExact(ms: seq<Member>, key: string)
    ensures Lookup(ms, key) == None <==> forall m | m in ms :: m.key != key
  {
    if ms != [] { LookupExact(ms[..|ms| - 1], key); }
  }

  /** The last member with a key is the one that counts. */
  lemma {:induction false} LookupLast(ms: seq<Member>, i: nat)
    requires i < |ms| && forall j | i < j < |ms| :: ms[j].key != ms[i].key
    ensures Lookup(ms, ms[i].key) == Some(ms[i].value)
  {
    if i < |ms| - 1 { LookupLast(ms[..|ms| - 1], i); }
  }

  /** The client id a nonce is held against: the text under "client_id" in the metadata. */
  lemma ClientIdReads(ms: seq<Member>, i: nat)
    requires forall j | i < j < |ms| :: ms[j].key != "client_id"
    ensures i < |ms| && ms[i].key == "client_id" ==>
              ClientIdOf(Some(Obj(ms))) == if ms[i].value.Str? then Some(ms[i].value.s) else None
    ensures (forall m | m in ms :: m.key != "client_id") ==> ClientIdOf(Some(Obj(ms))) == None
  {
    LookupExact(ms, "client_id");
    if i < |ms| && ms[i].key == "client_id" { LookupLast(ms, i); }
  }

  /** The commitment of the chain covers every field but `meta` and `content_encoding`. */
  lemma CommitmentExact(f: Fields, g: Fields)
    requires Clean(f) && Clean(g)
    ensures SerializeCanonical(Commitment(f)) == SerializeCanonical(Commitment(g)) <==>
            && f.kind == g.kind && f.threadId == g.threadId && f.sessionId == g.sessionId && f.timestamp == g.timestamp
            && f.nonce == g.nonce && f.prev == g.prev
            && Meaning(Surviving(JsOrder, f.payload)) == Meaning(Surviving(JsOrder, g.payload))
  {
    SerializeExact(Commitment(f), Commitment(g));
  }

  /** The record that is signed, key by key. */
  lemma SignedRecord(f: Fields)
    ensures Meaning(FieldsJson(f)) == SObj(map[
              "type" := SStr(f.kind), "thread_id" := SStr(f.threadId), "session_id" := SStr(f.sessionId),
              "timestamp" := SNum(DecimalInt(f.timestamp)), "nonce" := SStr(f.nonce), "payload" := Meaning(f.payload),
              "prev_message_hash" := SStr(f.prev), "meta" := Meaning(f.meta), "content_encoding" := SStr(f.encoding)])
  {
    var t0: seq<Member> := [];
    var t1 := t0 + [FieldAt(f, 0)];
    var t2 := t1 + [FieldAt(f, 1)];
    var t3 := t2 + [FieldAt(f, 2)];
    var t4 := t3 + [FieldAt(f, 3)];
    var t5 := t4 + [FieldAt(f, 4)];
    var t6 := t5 + [FieldAt(f, 5)];
    var t7 := t6 + [FieldAt(f, 6)];
    var t8 := t7 + [FieldAt(f, 7)];
    assert FieldsJson(f).members == t8 + [FieldAt(f, 8)];
    TableSnoc(t0, FieldAt(f, 0));
    TableSnoc(t1, FieldAt(f, 1));
    TableSnoc(t2, FieldAt(f, 2));
    TableSnoc(t3, FieldAt(f, 3));
    TableSnoc(t4, FieldAt(f, 4));
    TableSnoc(t5, FieldAt(f, 5));
    TableSnoc(t6, FieldAt(f, 6));
    TableSnoc(t7, FieldAt(f, 7));
    TableSnoc(t8, FieldAt(f, 8));
  }

  /** Both chains start afresh; the nonces seen so far are kept. */
  function AfterLinkLoss(ep: Endpoint): Endpoint { ep.(connected := false, lastSent := [], lastReceived := []) }

  class LtpClient {
    const su: Suite
    const config: Config
    var connected: bool
    var seenNonces: Cache
    var lastSentHash: string
    var lastReceivedHash: string

    ghost function View(): Endpoint
      reads this
    {
      Endpoint(config, connected, seenNonces, lastSentHash, lastReceivedHash)
    }

    constructor (su: Suite, config: Config)
      ensures this.su == su && View() == Endpoint(config, false, map[], [], [])
    {
      this.su, this.config := su, config;
      connected, seenNonces, lastSentHash, lastReceivedHash := false, map[], [], [];
    }

    method Send(message: Message, tick: Tick) returns (sent: Option<Envelope>)
      modifies this
      ensures View() == AfterSend(su, old(View()), message, tick)
      ensures sent == if CanSend(old(View())) then Some(Wire(su, old(View()), message, tick)) else None
      ensures sent.Some? <==>
              old(connected) && (config.sessionMacKey != [] || config.secretKey != [] || !config.requireSignatures)
      ensures sent.Some? && config.encryptMetadata && config.encryptionKey != [] && config.sessionMacKey != [] ==>
                && sent.value.threadId == Some([]) && sent.value.sessionId == Some([]) && sent.value.timestamp == Some(0)
                && sent.value.encrypted.Some?
      ensures sent.Some? && !(config.encryptMetadata && config.encryptionKey != [] && config.sessionMacKey != []) ==>
                && sent.value.threadId == Some(message.threadId) && sent.value.sessionId == Some(message.sessionId)
                && sent.value.timestamp == Some(message.timestamp) && sent.value.encrypted == None
    {
      if !connected { return None; }
      var macKey := MacKey(config);
      var nonce := NonceFor(su, config, tick);
      var prev := lastSentHash;
      if macKey == [] && config.requireSignatures { return None; }
      var toSign := Fields(message.kind, message.threadId, message.sessionId, message.timestamp, nonce, message.payload, prev,
                           MetaOrEmpty(message.meta), OrEmpty(message.encoding));
      var signature := if macKey == [] then "v0-placeholder" else su.hmac(macKey, SerializeCanonical(toSign));
      var envelope := Envelope(message.kind, Some(message.threadId), Some(message.sessionId), Some(message.timestamp),
                               Some(nonce), Some(message.payload), Present(prev), message.meta, message.encoding,
                               Some(signature), None);
      if config.encryptMetadata && config.encryptionKey != [] && config.sessionMacKey != [] {
        var metadata := Metadata(message.threadId, message.sessionId, message.timestamp);
        var blob := EncryptMetadata(su, metadata, config.encryptionKey, tick.iv);
        envelope := envelope.(threadId := Some([]), sessionId := Some([]), timestamp := Some(0), encrypted := Some(blob));
      }
      var timestamp := if envelope.timestamp.value != 0 then envelope.timestamp.value else message.timestamp;
      lastSentHash := su.sha(SerializeCanonical(
        Fields(message.kind, Or(envelope.threadId.value, message.threadId), Or(envelope.sessionId.value, message.sessionId),
               timestamp, nonce, message.payload, prev, Obj([]), [])));
      return Some(envelope);
    }

    method HandleDisconnect()
      modifies this
      ensures View() == AfterLinkLoss(old(View()))
    {
      connected, lastSentHash, lastReceivedHash := false, [], [];
    }

    method Receive(envelope: Envelope, now: int) returns (outcome: Outcome)
      modifies this
      ensures outcome == Judge(su, old(View()), envelope, now)
      ensures outcome == Unverified <==>
              || !config.requireSignatures || (config.sessionMacKey == [] && config.secretKey == [])
              || envelope.kind in {"handshake_ack", "handshake_reject"}
      ensures View() == AfterReceive(su, old(View()), envelope, now)
    {
      var r := Restore(su, config, envelope);
      var macKey := MacKey(config);
      if !(config.requireSignatures && macKey != [] && !IsHandshake(r.kind)) {
        if envelope.kind == "handshake_ack" {
          connected, lastSentHash, lastReceivedHash := true, [], [];
        }
        return Unverified;
      }
      if !Complete(r) { return Rejected(InvalidMessage); }
      if OrEmpty(r.signature) == [] { return Rejected(MissingSignature); }
      var fields := ReceivedFields(r);
      if su.hmac(macKey, SerializeCanonical(fields)) != r.signature.value { return Rejected(InvalidSignature); }
      var messageAge := now - r.timestamp.value;
      if messageAge > AgeLimit(config.maxMessageAge) { return Rejected(MessageTooOld); }
      if messageAge < -SKEW { return Rejected(InvalidTimestamp); }
      var nonceError := Nonces.Verdict(seenNonces, r.nonce.value, ClientIdOf(r.meta), now, AgeLimit(config.maxMessageAge));
      if nonceError.Some? { return Rejected(InvalidNonce); }
      seenNonces := seenNonces[r.nonce.value := now];
      if lastReceivedHash != [] && r.prev != Some(lastReceivedHash) { return Rejected(HashChainMismatch); }
      lastReceivedHash := su.sha(SerializeCanonical(Commitment(fields)));
      return Accepted;
    }
  }

}
