/** Whole runs of the secured channel: what a receiver accepts while envelopes arrive in any
    order, handshakes are acknowledged, the link is lost and nonces are cleaned up. */
module ChannelRuns {
  import opened Texts
  import opened Json
  import opened JsonText
  import opened Nonces
  import opened Channel

  // ---------------------------------------------------------------------------------------
  // Sending
  // ---------------------------------------------------------------------------------------

  datatype Request = Request(message: Message, tick: Tick)

  function SendAll(su: Suite, ep: Endpoint, rs: seq<Request>): Endpoint {
    if rs == [] then ep
    else AfterSend(su, SendAll(su, ep, rs[..|rs| - 1]), rs[|rs| - 1].message, rs[|rs| - 1].tick)
  }

  /** The fields signed by a sequence of sends. */
  function SentFields(su: Suite, ep: Endpoint, rs: seq<Request>): seq<Fields> {
    if rs == [] then []
    else SentFields(su, ep, rs[..|rs| - 1])
         + [SignedFields(su, SendAll(su, ep, rs[..|rs| - 1]), rs[|rs| - 1].message, rs[|rs| - 1].tick)]
  }

  function Digest(su: Suite, f: Fields): string { su.sha(SerializeCanonical(Commitment(f))) }

  function DigestOf(su: Suite): Fields -> string { f => Digest(su, f) }

  /** Each message commits to the one before it; the first carries `start`. */
  ghost predicate Linked(digest: Fields -> string, start: string, fs: seq<Fields>) {
    forall k | 0 <= k < |fs| :: LinkAt(digest, start, fs, k)
  }

  ghost predicate LinkAt(digest: Fields -> string, start: string, fs: seq<Fields>, k: nat)
    requires k < |fs|
  {
    fs[k].prev == if k == 0 then start else digest(fs[k - 1])
  }

  lemma LinkedSnoc(digest: Fields -> string, start: string, fs: seq<Fields>, f: Fields)
    requires Linked(digest, start, fs) && f.prev == if fs == [] then start else digest(fs[|fs| - 1])
    ensures Linked(digest, start, fs + [f])
  {
    forall k | 0 <= k < |fs| ensures LinkAt(digest, start, fs + [f], k) { assert LinkAt(digest, start, fs, k); }
  }

  lemma {:induction false} SenderLinks(su: Suite, ep: Endpoint, rs: seq<Request>)
    requires CanSend(ep)
    ensures Linked(DigestOf(su), ep.lastSent, SentFields(su, ep, rs)) && |SentFields(su, ep, rs)| == |rs|
    ensures SendAll(su, ep, rs) == ep.(lastSent := if rs == [] then ep.lastSent else DigestOf(su)(SentFields(su, ep, rs)[|rs| - 1]))
  {
    if rs != [] {
      var n := |rs| - 1;
      var fs, s := SentFields(su, ep, rs[..n]), SendAll(su, ep, rs[..n]);
      SenderLinks(su, ep, rs[..n]);
      LinkedSnoc(DigestOf(su), ep.lastSent, fs, SignedFields(su, s, rs[n].message, rs[n].tick));
    }
  }

  // ---------------------------------------------------------------------------------------
  // Receiving
  // ---------------------------------------------------------------------------------------

  /** What can happen to a receiver. */
  datatype Happening = Arrives(envelope: Envelope, now: int) | Cleanup(now: int) | LinkLost

  function AfterHappening(su: Suite, ep: Endpoint, h: Happening): Endpoint {
    match h
    case Arrives(e, now) => AfterReceive(su, ep, e, now)
    case Cleanup(now) => ep.(seen := Nonces.Expired(ep.seen, now, AgeLimit(ep.config.maxMessageAge)))
    case LinkLost => AfterLinkLoss(ep)
  }

  function Watch(su: Suite, ep: Endpoint, hs: seq<Happening>): Endpoint {
    if hs == [] then ep else AfterHappening(su, Watch(su, ep, hs[..|hs| - 1]), hs[|hs| - 1])
  }

  predicate Takes(su: Suite, ep: Endpoint, h: Happening) { h.Arrives? && Judge(su, ep, h.envelope, h.now).Accepted? }

  function FieldsOf(su: Suite, c: Config, h: Happening): Fields
    requires h.Arrives? && Complete(Restore(su, c, h.envelope))
  {
    ReceivedFields(Restore(su, c, h.envelope))
  }

  /** The fields of all envelopes that pass every check, in the order of acceptance. */
  ghost function AcceptedFields(su: Suite, ep: Endpoint, hs: seq<Happening>): seq<Fields> {
    if hs == [] then []
    else
      var before, h := Watch(su, ep, hs[..|hs| - 1]), hs[|hs| - 1];
      AcceptedFields(su, ep, hs[..|hs| - 1]) + if Takes(su, before, h) then [FieldsOf(su, before.config, h)] else []
  }

  /** The chains start afresh.  An acknowledged handshake carries no checked signature. */
  predicate Resets(h: Happening) { h.LinkLost? || (h.Arrives? && h.envelope.kind == "handshake_ack") }

  /** What has been accepted since the last reset. */
  ghost function SinceReset(su: Suite, ep: Endpoint, hs: seq<Happening>): seq<Fields> {
    if hs == [] then []
    else
      var before, h := Watch(su, ep, hs[..|hs| - 1]), hs[|hs| - 1];
      if Resets(h) then []
      else SinceReset(su, ep, hs[..|hs| - 1]) + if Takes(su, before, h) then [FieldsOf(su, before.config, h)] else []
  }

  lemma {:induction false} NoResetNoLoss(su: Suite, ep: Endpoint, hs: seq<Happening>)
    requires forall h | h in hs :: !Resets(h)
    ensures SinceReset(su, ep, hs) == AcceptedFields(su, ep, hs)
  {
    if hs != [] {
      assert hs[|hs| - 1] in hs && forall h | h in hs[..|hs| - 1] :: h in hs;
      NoResetNoLoss(su, ep, hs[..|hs| - 1]);
    }
  }

  lemma TakesEffect(su: Suite, ep: Endpoint, h: Happening)
    ensures AfterHappening(su, ep, h).config == ep.config
    ensures Resets(h) ==> AfterHappening(su, ep, h).lastReceived == []
    ensures Takes(su, ep, h) ==>
              var f := FieldsOf(su, ep.config, h);
              AfterHappening(su, ep, h).lastReceived == DigestOf(su)(f) && (ep.lastReceived != [] ==> f.prev == ep.lastReceived)
    ensures !Takes(su, ep, h) && !Resets(h) ==> AfterHappening(su, ep, h).lastReceived == ep.lastReceived
  {
  }

  lemma {:induction false} WatchKeepsConfig(su: Suite, ep: Endpoint, hs: seq<Happening>)
    ensures Watch(su, ep, hs).config == ep.config
  {
    if hs != [] {
      WatchKeepsConfig(su, ep, hs[..|hs| - 1]);
      TakesEffect(su, Watch(su, ep, hs[..|hs| - 1]), hs[|hs| - 1]);
    }
  }

  // ---------------------------------------------------------------------------------------
  // Soundness
  // ---------------------------------------------------------------------------------------

  /** Every envelope that carries a valid signature carries a text the peer signed. */
  ghost predicate Unforged(su: Suite, c: Config, hs: seq<Happening>, sent: seq<Fields>) {
    forall h | h in hs && h.Arrives? :: Authentic(su, c, Restore(su, c, h.envelope), sent)
  }

  ghost predicate Authentic(su: Suite, c: Config, r: Envelope, sent: seq<Fields>) {
    Complete(r) && Some(su.hmac(MacKey(c), SerializeCanonical(ReceivedFields(r)))) == r.signature ==>
      exists k | 0 <= k < |sent| :: SerializeCanonical(sent[k]) == SerializeCanonical(ReceivedFields(r))
  }

  /** What arrives was parsed from JSON. */
  ghost predicate Parsed(su: Suite, c: Config, hs: seq<Happening>) {
    forall h | h in hs && h.Arrives? ::
      var r := Restore(su, c, h.envelope);
      (r.payload.Some? ==> WellFormed(r.payload.value)) && WellFormed(MetaOrEmpty(r.meta))
  }

  /** Each message starts a chain or commits to the message before it. */
  ghost predicate Rooted(digest: Fields -> string, sent: seq<Fields>) {
    forall k | 0 <= k < |sent| :: RootAt(digest, sent, k)
  }

  ghost predicate RootAt(digest: Fields -> string, sent: seq<Fields>, k: nat)
    requires k < |sent|
  {
    sent[k].prev == [] || (k > 0 && sent[k].prev == digest(sent[k - 1]))
  }

  /** The peer's messages under the key, in all its sessions: chains one after the other, distinct
      nonces, and the hash keeps their commitments apart. */
  ghost predicate GoodHistory(su: Suite, sent: seq<Fields>) {
    Rooted(DigestOf(su), sent) && DistinctMessages(su, sent)
  }

  ghost predicate DistinctMessages(su: Suite, sent: seq<Fields>) {
    && (forall k | 0 <= k < |sent| :: Clean(sent[k]))
    && (forall j, k | 0 <= j < k < |sent| :: sent[j].nonce != sent[k].nonce)
    && (forall j, k | 0 <= j < |sent| && 0 <= k < |sent| && Digest(su, sent[j]) == Digest(su, sent[k]) ::
          SerializeCanonical(Commitment(sent[j])) == SerializeCanonical(Commitment(sent[k])))
  }

  /** The fields agree, up to key order and but for members "__proto__"; the rest is signed. */
  ghost predicate SameSigned(f: Fields, g: Fields) { SameFields(KeptFields(f), KeptFields(g)) }

  /** acc is, message for message, a stretch of what was sent.  Where neither message has a
      member "__proto__" the two agree field for field. */
  ghost predicate RunOf(acc: seq<Fields>, sent: seq<Fields>, start: nat) {
    && start + |acc| <= |sent|
    && (forall j | 0 <= j < |acc| :: SameSigned(acc[j], sent[start + j]))
    && (forall j | 0 <= j < |acc| && Plain(acc[j]) && Plain(sent[start + j]) :: SameFields(acc[j], sent[start + j]))
  }

  /** f agrees with a message of the peer, digest included. */
  ghost predicate Stems(digest: Fields -> string, f: Fields, sent: seq<Fields>, k: nat) {
    k < |sent| && SameSigned(f, sent[k]) && digest(f) == digest(sent[k])
  }

  ghost predicate Apart(digest: Fields -> string, sent: seq<Fields>) {
    && (forall k | 0 <= k < |sent| :: digest(sent[k]) != [])
    && (forall j, k | 0 <= j < k < |sent| :: digest(sent[j]) != digest(sent[k]))
  }

  /** Messages that form a chain of their own and stem from the peer's chains. */
  ghost predicate Traced(digest: Fields -> string, acc: seq<Fields>, first: string, sent: seq<Fields>, pos: seq<nat>) {
    && Rooted(digest, sent) && Linked(digest, first, acc) && |pos| == |acc|
    && forall i | 0 <= i < |acc| :: Stems(digest, acc[i], sent, pos[i])
  }

  /** The one message of the peer that can follow its message k. */
  lemma Follows(digest: Fields -> string, sent: seq<Fields>, f: Fields, i: nat, k: nat)
    requires Apart(digest, sent) && Rooted(digest, sent) && Stems(digest, f, sent, i)
    requires k < |sent| && f.prev == digest(sent[k])
    ensures i == k + 1
  {
    assert RootAt(digest, sent, i);
  }

  /** A message that follows another stems from the next message of the peer. */
  lemma NextPosition(digest: Fields -> string, acc: seq<Fields>, first: string, sent: seq<Fields>, pos: seq<nat>, j: nat)
    requires Apart(digest, sent) && Traced(digest, acc, first, sent, pos) && 0 < j < |acc|
    ensures pos[j] == pos[j - 1] + 1
  {
    assert Stems(digest, acc[j - 1], sent, pos[j - 1]) && Stems(digest, acc[j], sent, pos[j]);
    assert LinkAt(digest, first, acc, j);
    Follows(digest, sent, acc[j], pos[j], pos[j - 1]);
  }

  lemma {:induction false} Contiguous(digest: Fields -> string, acc: seq<Fields>, first: string, sent: seq<Fields>, pos: seq<nat>, j: nat)
    requires Apart(digest, sent) && Traced(digest, acc, first, sent, pos) && j < |acc|
    ensures pos[j] == pos[0] + j
  {
    if j > 0 {
      Contiguous(digest, acc, first, sent, pos, j - 1);
      NextPosition(digest, acc, first, sent, pos, j);
    }
  }

  lemma ContiguousRun(digest: Fields -> string, acc: seq<Fields>, first: string, sent: seq<Fields>, pos: seq<nat>) returns (start: nat)
    requires Apart(digest, sent) && Traced(digest, acc, first, sent, pos)
    ensures RunOf(acc, sent, start)
  {
    start := if acc == [] then 0 else pos[0];
    if acc != [] {
      Contiguous(digest, acc, first, sent, pos, |acc| - 1);
      assert Stems(digest, acc[|acc| - 1], sent, pos[|acc| - 1]);
    }
    forall j | 0 <= j < |acc|
      ensures start + j < |sent| && SameSigned(acc[j], sent[start + j])
      ensures Plain(acc[j]) && Plain(sent[start + j]) ==> SameFields(acc[j], sent[start + j])
    {
      Contiguous(digest, acc, first, sent, pos, j);
      assert Stems(digest, acc[j], sent, pos[j]);
      if Plain(acc[j]) && Plain(sent[start + j]) {
        PlainKept(acc[j]);
        PlainKept(sent[start + j]);
      }
    }
  }

  lemma SameDigest(su: Suite, f: Fields, g: Fields)
    requires SameSigned(f, g) && Clean(f) && Clean(g)
    ensures Digest(su, f) == Digest(su, g)
  {
    SerializeExact(Commitment(f), Commitment(g));
  }

  lemma DigestsApart(su: Suite, sent: seq<Fields>)
    requires GoodHistory(su, sent) && forall x :: su.sha(x) != []
    ensures Apart(DigestOf(su), sent)
  {
    forall j, k | 0 <= j < k < |sent| ensures DigestOf(su)(sent[j]) != DigestOf(su)(sent[k]) {
      assert Clean(sent[j]) && Clean(sent[k]);
      SerializeExact(Commitment(sent[j]), Commitment(sent[k]));
    }
  }

  /** The messages accepted since the reset and what the receiver remembers of them. */
  ghost predicate OwnChain(digest: Fields -> string, first: string, acc: seq<Fields>, last: string) {
    Linked(digest, first, acc) && last == if acc == [] then [] else digest(acc[|acc| - 1])
  }

  lemma OwnChainStep(digest: Fields -> string, first: string, acc: seq<Fields>, last: string, f: Fields) returns (first': string)
    requires (forall g :: digest(g) != []) && OwnChain(digest, first, acc, last) && (last != [] ==> f.prev == last)
    ensures OwnChain(digest, first', acc + [f], digest(f))
  {
    first' := if acc == [] then f.prev else first;
    LinkedSnoc(digest, first', acc, f);
  }

  /** The messages accepted since the last reset form a chain of their own. */
  lemma {:induction false} AcceptedLinks(su: Suite, ep: Endpoint, hs: seq<Happening>) returns (first: string)
    requires ep.lastReceived == [] && forall x :: su.sha(x) != []
    ensures OwnChain(DigestOf(su), first, SinceReset(su, ep, hs), Watch(su, ep, hs).lastReceived)
  {
    if hs == [] { return []; }
    var init, h := hs[..|hs| - 1], hs[|hs| - 1];
    first := AcceptedLinks(su, ep, init);
    var before, acc := Watch(su, ep, init), SinceReset(su, ep, init);
    TakesEffect(su, before, h);
    if !Resets(h) {
      if Takes(su, before, h) {
        first := OwnChainStep(DigestOf(su), first, acc, before.lastReceived, FieldsOf(su, before.config, h));
      } else {
        assert acc + [] == acc;
      }
    }
  }

  lemma {:induction false} AcceptedStem(su: Suite, ep: Endpoint, hs: seq<Happening>, sent: seq<Fields>) returns (pos: seq<nat>)
    requires GoodHistory(su, sent) && Unforged(su, ep.config, hs, sent) && Parsed(su, ep.config, hs)
    ensures var acc := SinceReset(su, ep, hs);
            |pos| == |acc| && forall i | 0 <= i < |acc| :: Stems(DigestOf(su), acc[i], sent, pos[i])
  {
    if hs == [] { return []; }
    var init, h := hs[..|hs| - 1], hs[|hs| - 1];
    assert h in hs && forall x | x in init :: x in hs;
    pos := AcceptedStem(su, ep, init, sent);
    WatchKeepsConfig(su, ep, init);
    var before := Watch(su, ep, init);
    if Resets(h) {
      pos := [];
    } else if Takes(su, before, h) {
      var k := Source(su, before, h, sent);
      pos := pos + [k];
    }
  }

  /** The message of the peer behind an accepted envelope. */
  lemma Source(su: Suite, ep: Endpoint, h: Happening, sent: seq<Fields>) returns (k: nat)
    requires GoodHistory(su, sent) && Takes(su, ep, h)
    requires var r := Restore(su, ep.config, h.envelope);
             Authentic(su, ep.config, r, sent) && WellFormed(MetaOrEmpty(r.meta)) && (r.payload.Some? ==> WellFormed(r.payload.value))
    ensures Stems(DigestOf(su), FieldsOf(su, ep.config, h), sent, k)
  {
    var f := FieldsOf(su, ep.config, h);
    k :| 0 <= k < |sent| && SerializeCanonical(sent[k]) == SerializeCanonical(f);
    assert Clean(sent[k]);
    SerializeExact(sent[k], f);
    SameDigest(su, f, sent[k]);
  }

  /** Chain soundness: whatever the network drops, repeats, reorders or injects, handshake
      acknowledgements included, and whenever the link is lost or nonces are cleaned up: what has
      been accepted since the last reset is a contiguous run of what the peer sent, in order. */
  lemma ChainSoundness(su: Suite, ep: Endpoint, hs: seq<Happening>, sent: seq<Fields>) returns (start: nat)
    requires ep.lastReceived == [] && forall x :: su.sha(x) != []
    requires GoodHistory(su, sent) && Unforged(su, ep.config, hs, sent) && Parsed(su, ep.config, hs)
    ensures RunOf(SinceReset(su, ep, hs), sent, start)
  {
    var first := AcceptedLinks(su, ep, hs);
    var pos := AcceptedStem(su, ep, hs, sent);
    DigestsApart(su, sent);
    start := ContiguousRun(DigestOf(su), SinceReset(su, ep, hs), first, sent, pos);
  }

  // A peer that sends, loses its link and shakes hands again.

  datatype Outgoing = Post(request: Request) | Down | Up

  /** `Up` is the peer's own acknowledged handshake. */
  function AfterOutgoing(su: Suite, ep: Endpoint, o: Outgoing): Endpoint {
    match o
    case Post(r) => AfterSend(su, ep, r.message, r.tick)
    case Down => AfterLinkLoss(ep)
    case Up => ep.(connected := true, lastSent := [], lastReceived := [])
  }

  function Peer(su: Suite, ep: Endpoint, os: seq<Outgoing>): Endpoint {
    if os == [] then ep else AfterOutgoing(su, Peer(su, ep, os[..|os| - 1]), os[|os| - 1])
  }

  /** What the peer signs; without a connection `send` does nothing. */
  function Posted(su: Suite, ep: Endpoint, os: seq<Outgoing>): seq<Fields> {
    if os == [] then []
    else
      var before, o := Peer(su, ep, os[..|os| - 1]), os[|os| - 1];
      Posted(su, ep, os[..|os| - 1]) + if o.Post? && CanSend(before) then [SignedFields(su, before, o.request.message, o.request.tick)] else []
  }

  lemma RootedSnoc(digest: Fields -> string, sent: seq<Fields>, f: Fields)
    requires Rooted(digest, sent) && (f.prev == [] || (sent != [] && f.prev == digest(sent[|sent| - 1])))
    ensures Rooted(digest, sent + [f])
  {
    forall k | 0 <= k < |sent| ensures RootAt(digest, sent + [f], k) { assert RootAt(digest, sent, k); }
  }

  /** What a peer signs in any run of sends, lost links and handshakes is such a history. */
  lemma {:induction false} PostedRooted(su: Suite, ep: Endpoint, os: seq<Outgoing>)
    requires ep.lastSent == []
    ensures var sent, last := Posted(su, ep, os), Peer(su, ep, os).lastSent;
            Rooted(DigestOf(su), sent) && (last == [] || (sent != [] && last == DigestOf(su)(sent[|sent| - 1])))
  {
    if os != [] {
      var init, o := os[..|os| - 1], os[|os| - 1];
      var before, sent := Peer(su, ep, init), Posted(su, ep, init);
      PostedRooted(su, ep, init);
      if o.Post? && CanSend(before) {
        RootedSnoc(DigestOf(su), sent, SignedFields(su, before, o.request.message, o.request.tick));
      } else {
        assert sent + [] == sent;
      }
    }
  }

  /** The same for a peer that sends, loses its link and shakes hands again as it likes: replays
      from its earlier sessions under the same key included, what the receiver has accepted since
      its own last reset is a contiguous run of what the peer has signed. */
  lemma SessionSoundness(su: Suite, sender: Endpoint, os: seq<Outgoing>, receiver: Endpoint, hs: seq<Happening>) returns (start: nat)
    requires sender.lastSent == [] && receiver.lastReceived == [] && forall x :: su.sha(x) != []
    requires var sent := Posted(su, sender, os);
             DistinctMessages(su, sent) && Unforged(su, receiver.config, hs, sent) && Parsed(su, receiver.config, hs)
    ensures RunOf(SinceReset(su, receiver, hs), Posted(su, sender, os), start)
  {
    PostedRooted(su, sender, os);
    start := ChainSoundness(su, receiver, hs, Posted(su, sender, os));
  }

  /** Between two resets of the receiver nothing is left out of this account. */
  lemma OneSession(su: Suite, ep: Endpoint, hs: seq<Happening>, sent: seq<Fields>) returns (start: nat)
    requires ep.lastReceived == [] && (forall x :: su.sha(x) != []) && forall h | h in hs :: !Resets(h)
    requires GoodHistory(su, sent) && Unforged(su, ep.config, hs, sent) && Parsed(su, ep.config, hs)
    ensures RunOf(AcceptedFields(su, ep, hs), sent, start)
  {
    NoResetNoLoss(su, ep, hs);
    start := ChainSoundness(su, ep, hs, sent);
  }

  // ---------------------------------------------------------------------------------------
  // No message twice
  // ---------------------------------------------------------------------------------------

  /** The envelope passes every check up to that of the nonce. */
  predicate ReachesNonce(su: Suite, c: Config, r: Envelope, now: int) {
    && Verifies(c, r) && Complete(r) && OrEmpty(r.signature) != []
    && su.hmac(MacKey(c), SerializeCanonical(ReceivedFields(r))) == r.signature.value
    && -SKEW <= now - r.timestamp.value <= AgeLimit(c.maxMessageAge)
  }

  /** What a happening asks of the nonce cache. */
  function NonceOp(su: Suite, c: Config, h: Happening): seq<Op> {
    match h
    case Arrives(e, now) =>
      var r := Restore(su, c, e);
      if ReachesNonce(su, c, r, now) then [Validate(r.nonce.value, ClientIdOf(r.meta), now)] else []
    case Cleanup(now) => [Nonces.Cleanup(now)]
    case LinkLost => []
  }

  function NonceOps(su: Suite, c: Config, hs: seq<Happening>): seq<Op> {
    if hs == [] then [] else NonceOps(su, c, hs[..|hs| - 1]) + NonceOp(su, c, hs[|hs| - 1])
  }

  function NonceOf(su: Suite, c: Config, h: Happening): string {
    if h.Arrives? then OrEmpty(Restore(su, c, h.envelope).nonce) else []
  }

  /** The nonce is recorded: the envelope is accepted, or refused only by the chain. */
  predicate Burns(su: Suite, ep: Endpoint, h: Happening) {
    h.Arrives? && Judge(su, ep, h.envelope, h.now) in {Accepted, Rejected(HashChainMismatch)}
  }

  lemma NonceStep(su: Suite, ep: Endpoint, h: Happening)
    ensures var limit, ops := AgeLimit(ep.config.maxMessageAge), NonceOp(su, ep.config, h);
            AfterHappening(su, ep, h).seen == if ops == [] then ep.seen else Nonces.Apply(limit, ep.seen, ops[0])
  {
    if h.Arrives? { ReceiveNonce(su, ep, h.envelope, h.now); }
  }

  lemma ReceiveNonce(su: Suite, ep: Endpoint, e: Envelope, now: int)
    ensures var limit, r := AgeLimit(ep.config.maxMessageAge), Restore(su, ep.config, e);
            AfterReceive(su, ep, e, now).seen ==
              if ReachesNonce(su, ep.config, r, now) then Nonces.Record(ep.seen, r.nonce.value, ClientIdOf(r.meta), now, limit) else ep.seen
  {
    var r := Restore(su, ep.config, e);
    if Verifies(ep.config, r) { RefusesNonce(su, ep, r, now); }
  }

  lemma RefusesNonce(su: Suite, ep: Endpoint, r: Envelope, now: int)
    requires Verifies(ep.config, r)
    ensures ReachesNonce(su, ep.config, r, now) ==>
              (Refuses(su, ep, r, now).Some? <==>
               Nonces.Verdict(ep.seen, r.nonce.value, ClientIdOf(r.meta), now, AgeLimit(ep.config.maxMessageAge)).Some?)
    ensures !ReachesNonce(su, ep.config, r, now) ==> Refuses(su, ep, r, now).Some?
    ensures Refuses(su, ep, r, now) != Some(HashChainMismatch)
  {
  }

  lemma BurnStep(su: Suite, ep: Endpoint, h: Happening) returns (op: Op)
    requires Burns(su, ep, h)
    ensures NonceOp(su, ep.config, h) == [op] && op.Validate? && op.nonce == NonceOf(su, ep.config, h)
    ensures Nonces.Verdict(ep.seen, op.nonce, op.clientId, op.now, AgeLimit(ep.config.maxMessageAge)).None?
    ensures Complete(Restore(su, ep.config, h.envelope)) && FieldsOf(su, ep.config, h).nonce == NonceOf(su, ep.config, h)
  {
    var r := Restore(su, ep.config, h.envelope);
    op := Validate(r.nonce.value, ClientIdOf(r.meta), h.now);
  }

  lemma {:induction false} SeenTracks(su: Suite, ep: Endpoint, hs: seq<Happening>)
    requires ep.seen == map[]
    ensures Watch(su, ep, hs).seen == Nonces.After(AgeLimit(ep.config.maxMessageAge), NonceOps(su, ep.config, hs))
  {
    if hs != [] {
      var init, h := hs[..|hs| - 1], hs[|hs| - 1];
      SeenTracks(su, ep, init);
      WatchKeepsConfig(su, ep, init);
      NonceStep(su, Watch(su, ep, init), h);
      var ops, more := NonceOps(su, ep.config, init), NonceOp(su, ep.config, h);
      if more == [] {
        assert ops + more == ops;
      } else {
        assert (ops + more)[..|ops|] == ops;
      }
    }
  }

  lemma {:induction false} OpsPrefix(su: Suite, c: Config, hs: seq<Happening>, k: nat)
    requires k <= |hs|
    ensures NonceOps(su, c, hs[..k]) <= NonceOps(su, c, hs)
  {
    if k < |hs| {
      OpsPrefix(su, c, hs[..|hs| - 1], k);
      assert hs[..|hs| - 1][..k] == hs[..k];
    } else {
      assert hs[..k] == hs;
    }
  }

  /** No clock reading is before an earlier one. */
  ghost predicate Forward(hs: seq<Happening>) {
    forall i, j | 0 <= i < j < |hs| && !hs[i].LinkLost? && !hs[j].LinkLost? :: hs[i].now <= hs[j].now
  }

  ghost predicate TimeOf(hs: seq<Happening>, t: int) { exists i | 0 <= i < |hs| :: !hs[i].LinkLost? && hs[i].now == t }

  lemma {:induction false} OpsForward(su: Suite, c: Config, hs: seq<Happening>)
    requires Forward(hs)
    ensures Nonces.ClockRuns(NonceOps(su, c, hs)) && forall op | op in NonceOps(su, c, hs) :: TimeOf(hs, op.now)
  {
    if hs != [] {
      var init, h := hs[..|hs| - 1], hs[|hs| - 1];
      OpsForward(su, c, init);
      var ops, more := NonceOps(su, c, init), NonceOp(su, c, h);
      forall op | op in ops ensures TimeOf(hs, op.now) && (!h.LinkLost? ==> op.now <= h.now) {
        var i :| 0 <= i < |init| && !init[i].LinkLost? && init[i].now == op.now;
        assert hs[i] == init[i];
      }
      assert more != [] ==> hs[|hs| - 1] == h && more[0].now == h.now;
    }
  }

  lemma OpAt(su: Suite, c: Config, hs: seq<Happening>, k: nat, op: Op)
    requires k < |hs| && NonceOp(su, c, hs[k]) == [op]
    ensures var p, ops := |NonceOps(su, c, hs[..k])|, NonceOps(su, c, hs);
            p < |ops| && ops[p] == op && ops[..p] == NonceOps(su, c, hs[..k]) && ops[..p + 1] == NonceOps(su, c, hs[..k + 1])
  {
    OpsPrefix(su, c, hs, k + 1);
    OpsSnoc(su, c, hs, k, op);
    AtEnd(NonceOps(su, c, hs[..k]), op, NonceOps(su, c, hs));
  }

  lemma OpsSnoc(su: Suite, c: Config, hs: seq<Happening>, k: nat, op: Op)
    requires k < |hs| && NonceOp(su, c, hs[k]) == [op]
    ensures NonceOps(su, c, hs[..k + 1]) == NonceOps(su, c, hs[..k]) + [op]
  {
    assert hs[..k + 1][..k] == hs[..k];
  }

  lemma AtEnd(before: seq<Op>, op: Op, all: seq<Op>)
    requires before + [op] <= all
    ensures |before| < |all| && all[|before|] == op && all[..|before|] == before && all[..|before| + 1] == before + [op]
  {
    assert all[|before|] == (before + [op])[|before|];
  }

  /** A happening that burns a nonce is an accepted validation of the cache's run. */
  lemma BurnIsValidation(su: Suite, ep: Endpoint, hs: seq<Happening>, k: nat) returns (p: nat)
    requires ep.seen == map[] && k < |hs| && Burns(su, Watch(su, ep, hs[..k]), hs[k])
    ensures var ops := NonceOps(su, ep.config, hs);
            && p < |ops| && Nonces.AcceptedAt(AgeLimit(ep.config.maxMessageAge), ops, p)
            && ops[p].nonce == NonceOf(su, ep.config, hs[k])
            && |NonceOps(su, ep.config, hs[..k])| == p && |NonceOps(su, ep.config, hs[..k + 1])| == p + 1
  {
    var op := BurnStep(su, Watch(su, ep, hs[..k]), hs[k]);
    WatchKeepsConfig(su, ep, hs[..k]);
    SeenTracks(su, ep, hs[..k]);
    OpAt(su, ep.config, hs, k, op);
    p := |NonceOps(su, ep.config, hs[..k])|;
  }

  lemma NotTwice(su: Suite, ep: Endpoint, hs: seq<Happening>, j: nat, k: nat)
    requires SafeLimit(AgeLimit(ep.config.maxMessageAge)) && Forward(hs) && ep.seen == map[] && j < k < |hs|
    requires BurnsAt(su, ep, hs, j) && TakesAt(su, ep, hs, k)
    ensures NonceOf(su, ep.config, hs[j]) != NonceOf(su, ep.config, hs[k])
  {
    var p := BurnIsValidation(su, ep, hs, j);
    var q := BurnIsValidation(su, ep, hs, k);
    LaterOp(su, ep.config, hs, j, k);
    OpsForward(su, ep.config, hs);
    SafeLimitSuffices(AgeLimit(ep.config.maxMessageAge), NonceOps(su, ep.config, hs));
  }

  ghost predicate BurnsAt(su: Suite, ep: Endpoint, hs: seq<Happening>, i: nat)
    requires i < |hs|
  {
    Burns(su, Watch(su, ep, hs[..i]), hs[i])
  }

  ghost predicate TakesAt(su: Suite, ep: Endpoint, hs: seq<Happening>, i: nat)
    requires i < |hs|
  {
    Takes(su, Watch(su, ep, hs[..i]), hs[i])
  }

  /** No message twice: with a safe age limit and a clock that does not go back, a nonce that was
      accepted once, or refused only by the chain, is never accepted again, through handshakes,
      lost links and cleanups. */
  lemma OnceOnly(su: Suite, ep: Endpoint, hs: seq<Happening>)
    requires SafeLimit(AgeLimit(ep.config.maxMessageAge)) && Forward(hs) && ep.seen == map[]
    ensures forall j: nat, k: nat | j < k < |hs| && BurnsAt(su, ep, hs, j) && TakesAt(su, ep, hs, k) ::
              NonceOf(su, ep.config, hs[j]) != NonceOf(su, ep.config, hs[k])
  {
    forall j: nat, k: nat | j < k < |hs| && BurnsAt(su, ep, hs, j) && TakesAt(su, ep, hs, k)
      ensures NonceOf(su, ep.config, hs[j]) != NonceOf(su, ep.config, hs[k])
    {
      NotTwice(su, ep, hs, j, k);
    }
  }

  lemma LaterOp(su: Suite, c: Config, hs: seq<Happening>, j: nat, k: nat)
    requires j < k < |hs|
    ensures |NonceOps(su, c, hs[..j + 1])| <= |NonceOps(su, c, hs[..k])|
  {
    OpsPrefix(su, c, hs[..k], j + 1);
    assert hs[..k][..j + 1] == hs[..j + 1];
  }

  // ---------------------------------------------------------------------------------------
  // What a message out of order costs
  // ---------------------------------------------------------------------------------------

  /** A run that may follow the first n happenings. */
  ghost predicate NoResetFrom(hs: seq<Happening>, n: nat) { forall m | n <= m < |hs| :: !Resets(hs[m]) }

  lemma WatchSnoc(su: Suite, ep: Endpoint, hs: seq<Happening>, m: nat)
    requires m < |hs|
    ensures Watch(su, ep, hs[..m + 1]) == AfterHappening(su, Watch(su, ep, hs[..m]), hs[m])
  {
    assert hs[..m + 1][..m] == hs[..m];
  }

  /** The peer's message k was the last one accepted, and its message k + 1 came too early. */
  ghost predicate Stalled(su: Suite, ep: Endpoint, hs: seq<Happening>, sent: seq<Fields>, n: nat, k: nat, j: nat) {
    && j < n <= |hs| && k + 1 < |sent| && Watch(su, ep, hs[..n]).lastReceived == DigestOf(su)(sent[k])
    && Burns(su, Watch(su, ep, hs[..j]), hs[j]) && NonceOf(su, ep.config, hs[j]) == sent[k + 1].nonce
  }

  lemma CannotTake(su: Suite, ep: Endpoint, hs: seq<Happening>, sent: seq<Fields>, k: nat, j: nat, m: nat)
    requires SafeLimit(AgeLimit(ep.config.maxMessageAge)) && Forward(hs) && ep.seen == map[] && forall x :: su.sha(x) != []
    requires GoodHistory(su, sent) && Unforged(su, ep.config, hs, sent) && Parsed(su, ep.config, hs)
    requires j < m < |hs| && k + 1 < |sent| && Watch(su, ep, hs[..m]).lastReceived == DigestOf(su)(sent[k])
    requires Burns(su, Watch(su, ep, hs[..j]), hs[j]) && NonceOf(su, ep.config, hs[j]) == sent[k + 1].nonce
    ensures !Takes(su, Watch(su, ep, hs[..m]), hs[m])
  {
    if Takes(su, Watch(su, ep, hs[..m]), hs[m]) {
      NextTaken(su, ep, hs, sent, k, m);
      NotTwice(su, ep, hs, j, m);
    }
  }

  lemma Unmoved(su: Suite, ep: Endpoint, hs: seq<Happening>, m: nat, last: string)
    requires m < |hs| && !Resets(hs[m]) && !Takes(su, Watch(su, ep, hs[..m]), hs[m]) && Watch(su, ep, hs[..m]).lastReceived == last
    ensures Watch(su, ep, hs[..m + 1]).lastReceived == last
  {
    WatchSnoc(su, ep, hs, m);
    TakesEffect(su, Watch(su, ep, hs[..m]), hs[m]);
  }

  /** A message that arrives before its predecessor loses its nonce.  Once its predecessor is the
      last one accepted, nothing is accepted any more until the next reset. */
  lemma StallsUntilReset(su: Suite, ep: Endpoint, hs: seq<Happening>, sent: seq<Fields>, n: nat, k: nat, j: nat, m: nat)
    requires SafeLimit(AgeLimit(ep.config.maxMessageAge)) && Forward(hs) && ep.seen == map[] && forall x :: su.sha(x) != []
    requires GoodHistory(su, sent) && Unforged(su, ep.config, hs, sent) && Parsed(su, ep.config, hs)
    requires Stalled(su, ep, hs, sent, n, k, j) && NoResetFrom(hs, n) && n <= m < |hs|
    ensures LastAt(su, ep, hs, m) == DigestOf(su)(sent[k]) && !TakesAt(su, ep, hs, m)
  {
    forall i: nat | n <= i < |hs| && LastAt(su, ep, hs, i) == DigestOf(su)(sent[k]) ensures !TakesAt(su, ep, hs, i) {
      CannotTake(su, ep, hs, sent, k, j, i);
    }
    Frozen(su, ep, hs, n, m, DigestOf(su)(sent[k]));
  }

  ghost function LastAt(su: Suite, ep: Endpoint, hs: seq<Happening>, i: nat): string
    requires i <= |hs|
  {
    Watch(su, ep, hs[..i]).lastReceived
  }

  lemma {:induction false} Frozen(su: Suite, ep: Endpoint, hs: seq<Happening>, n: nat, m: nat, last: string)
    requires n <= m < |hs| && NoResetFrom(hs, n) && LastAt(su, ep, hs, n) == last
    requires forall i: nat | n <= i < |hs| && LastAt(su, ep, hs, i) == last :: !TakesAt(su, ep, hs, i)
    ensures LastAt(su, ep, hs, m) == last && !TakesAt(su, ep, hs, m)
  {
    if n < m {
      Frozen(su, ep, hs, n, m - 1, last);
      Unmoved(su, ep, hs, m - 1, last);
    }
  }

  /** The only message that can be accepted after k is k + 1. */
  lemma NextTaken(su: Suite, ep: Endpoint, hs: seq<Happening>, sent: seq<Fields>, k: nat, m: nat)
    requires GoodHistory(su, sent) && Unforged(su, ep.config, hs, sent) && Parsed(su, ep.config, hs) && forall x :: su.sha(x) != []
    requires m < |hs| && k < |sent| && Watch(su, ep, hs[..m]).lastReceived == DigestOf(su)(sent[k])
    requires Takes(su, Watch(su, ep, hs[..m]), hs[m])
    ensures k + 1 < |sent| && NonceOf(su, ep.config, hs[m]) == sent[k + 1].nonce
  {
    var before := Watch(su, ep, hs[..m]);
    assert hs[m] in hs;
    WatchKeepsConfig(su, ep, hs[..m]);
    TakesEffect(su, before, hs[m]);
    var i := Source(su, before, hs[m], sent);
    DigestsApart(su, sent);
    Follows(DigestOf(su), sent, FieldsOf(su, before.config, hs[m]), i, k);
  }

  // ---------------------------------------------------------------------------------------
  // What an unsigned acknowledgement and a lost member let through
  // ---------------------------------------------------------------------------------------

  /** An acknowledgement, which anyone can inject, turns every refusal for being off the chain
      into an acceptance. */
  lemma AckForgivesGap(su: Suite, ep: Endpoint, ack: Envelope, t: int, e: Envelope, now: int)
    requires ack.kind == "handshake_ack" && Judge(su, ep, e, now) == Rejected(HashChainMismatch)
    ensures Judge(su, AfterReceive(su, ep, ack, t), e, now).Accepted?
  {
    var after := AfterReceive(su, ep, ack, t);
    assert after == ep.(connected := true, lastSent := [], lastReceived := []);
    assert Refuses(su, after, Restore(su, ep.config, e), now) == Refuses(su, ep, Restore(su, ep.config, e), now);
  }

  /** An accepted envelope is accepted just as well with one more member "__proto__" in its
      payload. */
  lemma ForgedPayloadAccepted(su: Suite, ep: Endpoint, e: Envelope, now: int, ms: seq<Member>, x: Json)
    requires e.payload == Some(Obj(ms)) && Judge(su, ep, e, now).Accepted?
    ensures Judge(su, ep, e.(payload := Some(Obj(ms + [Member("__proto__", x)]))), now).Accepted?
  {
    var forged := e.(payload := Some(Obj(ms + [Member("__proto__", x)])));
    var r, q := Restore(su, ep.config, e), Restore(su, ep.config, forged);
    assert q == r.(payload := forged.payload);
    ForgedPayload(ReceivedFields(r), ms, x);
    assert ReceivedFields(q) == Forged(ReceivedFields(r), ms, x);
    assert Refuses(su, ep, q, now) == Refuses(su, ep, r, now);
  }

  // ---------------------------------------------------------------------------------------
  // Completeness
  // ---------------------------------------------------------------------------------------

  /** The digests have the shape of hexadecimal SHA-256. */
  ghost predicate HexDigests(su: Suite, key: string) {
    && (forall x :: su.sha(x) != [])
    && (forall x :: |su.hmac(key, x)| == 64 && AllHex(su.hmac(key, x)))
  }

  function MetadataOf(m: Message): Metadata { Metadata(m.threadId, m.sessionId, m.timestamp) }

  /** Encryption and JSON.parse bring this one metadata record back. */
  ghost predicate Carries(su: Suite, key: string, m: Metadata, iv: string) {
    var text := Print(MetadataJson(m));
    var (c, tag) := su.seal(key, text, iv);
    && iv != [] && ':' !in iv && c != [] && tag != [] && ':' !in c && ':' !in tag
    && su.open(key, c, iv, tag) == Some(text) && su.parse(text) == Some(MetadataJson(m))
  }

  lemma {:induction false} LookupAt(ms: seq<Member>, i: nat)
    requires i < |ms| && KeysDistinct(ms)
    ensures Lookup(ms, ms[i].key) == Some(ms[i].value)
  {
    if i < |ms| - 1 { LookupAt(ms[..|ms| - 1], i); }
  }

  lemma IntegerReads(n: int)
    ensures IntegerOf(DecimalInt(n)) == Some(n)
  {
    ReadDecimalInt(n);
    DecimalRoundTrip(if n < 0 then -n else n);
    if n < 0 { assert DecimalInt(n)[1..] == Decimal(-n); }
  }

  lemma MetadataReads(m: Metadata)
    ensures ReadMetadata(MetadataJson(m)) == if m.threadId == [] || m.sessionId == [] then None else Some(m)
  {
    IntegerReads(m.timestamp);
    var ms := MetadataJson(m).members;
    LookupAt(ms, 0);
    LookupAt(ms, 1);
    LookupAt(ms, 2);
  }

  /** Decryption restores exactly what was encrypted. */
  lemma MetadataRoundTrip(su: Suite, m: Metadata, key: string, iv: string)
    requires Carries(su, key, m, iv) && m.threadId != [] && m.sessionId != []
    ensures DecryptMetadata(su, EncryptMetadata(su, m, key, iv), key) == Some(m)
  {
    var sealed := su.seal(key, Print(MetadataJson(m)), iv);
    SplitThree(sealed.0, iv, sealed.1, ':');
    MetadataReads(m);
  }

  /** What encryption hides on the wire the receiver reads out of the blob, exactly if neither the
      thread nor the session is empty. */
  lemma HiddenMetadataReads(su: Suite, ep: Endpoint, m: Message, tick: Tick)
    requires ep.config.encryptMetadata && ep.config.encryptionKey != [] && ep.config.sessionMacKey != []
    requires Carries(su, ep.config.encryptionKey, Metadata(m.threadId, m.sessionId, m.timestamp), tick.iv)
    ensures var w := Wire(su, ep, m, tick);
            && w.threadId == Some([]) && w.sessionId == Some([]) && w.timestamp == Some(0) && w.encrypted.Some?
            && DecryptMetadata(su, w.encrypted.value, ep.config.encryptionKey)
               == if m.threadId == [] || m.sessionId == [] then None
                  else Some(Metadata(m.threadId, m.sessionId, m.timestamp))
  {
    var data := Metadata(m.threadId, m.sessionId, m.timestamp);
    var sealed := su.seal(ep.config.encryptionKey, Print(MetadataJson(data)), tick.iv);
    SplitThree(sealed.0, tick.iv, sealed.1, ':');
    MetadataReads(data);
  }

  /** A message from `buildEnvelope`, sent within the receiver's window. */
  ghost predicate Deliverable(su: Suite, sender: Config, receiver: Config, r: Request, now: int) {
    var limit := AgeLimit(receiver.maxMessageAge);
    && !IsHandshake(r.message.kind) && r.message.threadId != [] && r.message.sessionId != []
    && (Encrypts(sender) ==> Carries(su, sender.encryptionKey, MetadataOf(r.message), r.tick.iv))
    && -SKEW <= now - r.message.timestamp <= limit
    && -SKEW <= now - r.tick.now <= limit
  }

  ghost predicate Paired(sender: Config, receiver: Config) {
    && MacKey(sender) == MacKey(receiver) != [] && receiver.requireSignatures
    && (Encrypts(sender) ==> receiver.encryptionKey == sender.encryptionKey)
  }

  lemma RestoredFields(su: Suite, sender: Endpoint, c: Config, r: Request)
    requires HexDigests(su, MacKey(c)) && Paired(sender.config, c) && r.message.threadId != [] && r.message.sessionId != []
    requires Encrypts(sender.config) ==> Carries(su, sender.config.encryptionKey, MetadataOf(r.message), r.tick.iv)
    ensures var w := Restore(su, c, Wire(su, sender, r.message, r.tick));
            var f := SignedFields(su, sender, r.message, r.tick);
            f.nonce != [] && Complete(w) && ReceivedFields(w) == f && w.prev == Present(sender.lastSent)
            && w.kind == r.message.kind && w.signature == Some(su.hmac(MacKey(c), SerializeCanonical(f)))
  {
    if Encrypts(sender.config) { MetadataRoundTrip(su, MetadataOf(r.message), c.encryptionKey, r.tick.iv); }
  }

  /** One message crosses a lossless link: it is accepted, restored field for field, and the two
      chains are in step.  The receiver is in step already or has just been reset. */
  lemma SendThenReceive(su: Suite, sender: Endpoint, receiver: Endpoint, r: Request, now: int)
    requires HexDigests(su, MacKey(receiver.config)) && Paired(sender.config, receiver.config) && CanSend(sender)
    requires receiver.lastReceived in {[], sender.lastSent} && Deliverable(su, sender.config, receiver.config, r, now)
    requires NonceFor(su, sender.config, r.tick) !in receiver.seen
    ensures var w := Wire(su, sender, r.message, r.tick);
            var after := AfterReceive(su, receiver, w, now);
            && Judge(su, receiver, w, now).Accepted?
            && ReceivedFields(Restore(su, receiver.config, w)) == SignedFields(su, sender, r.message, r.tick)
            && after.lastReceived == AfterSend(su, sender, r.message, r.tick).lastSent
            && after.config == receiver.config
            && after.seen == receiver.seen[NonceFor(su, sender.config, r.tick) := now]
  {
    RestoredFields(su, sender, receiver.config, r);
    var w := Restore(su, receiver.config, Wire(su, sender, r.message, r.tick));
    NonceReads(su, sender.config, r.tick, ClientIdOf(w.meta));
    assert |su.hmac(MacKey(receiver.config), SerializeCanonical(ReceivedFields(w)))| == 64;
    AcceptedThen(su, receiver, Wire(su, sender, r.message, r.tick), now);
  }

  lemma NonceReads(su: Suite, c: Config, tick: Tick, clientId: Option<string>)
    requires HexDigests(su, MacKey(c)) && MacKey(c) != []
    ensures ReadNonce(NonceFor(su, c, tick), clientId) == Stamped(tick.now)
  {
    var mac := su.hmac(MacKey(c), Decimal(tick.now) + "-" + tick.randomHex);
    assert |mac| == 64 && AllHex(mac);
    HmacNonceReads(mac, tick.now, clientId);
  }

  /** An envelope that passes the checks one by one is accepted. */
  lemma AcceptedThen(su: Suite, ep: Endpoint, e: Envelope, now: int)
    requires var r := Restore(su, ep.config, e);
             && ReachesNonce(su, ep.config, r, now) && !OffChain(ep, r)
             && Nonces.Verdict(ep.seen, r.nonce.value, ClientIdOf(r.meta), now, AgeLimit(ep.config.maxMessageAge)).None?
    ensures Judge(su, ep, e, now).Accepted?
    ensures var r := Restore(su, ep.config, e);
            AfterReceive(su, ep, e, now) ==
              ep.(seen := ep.seen[r.nonce.value := now], lastReceived := DigestOf(su)(ReceivedFields(r)))
  {
    RefusesNonce(su, ep, Restore(su, ep.config, e), now);
  }

  /** An injected acknowledgement lets a gap through: the second of three messages is lost, and
      first and third are accepted. */
  lemma GapRun(su: Suite, s0: Endpoint, receiver: Endpoint, r0: Request, r1: Request, r2: Request, ack: Envelope, t: int, now: int)
    requires HexDigests(su, MacKey(receiver.config)) && Paired(s0.config, receiver.config) && CanSend(s0)
    requires s0.lastSent == receiver.lastReceived && ack.kind == "handshake_ack" && receiver.seen == map[]
    requires Deliverable(su, s0.config, receiver.config, r0, now) && Deliverable(su, s0.config, receiver.config, r2, now)
    requires NonceFor(su, s0.config, r0.tick) != NonceFor(su, s0.config, r2.tick)
    ensures var s2 := AfterSend(su, AfterSend(su, s0, r0.message, r0.tick), r1.message, r1.tick);
            AcceptedFields(su, receiver, [Arrives(Wire(su, s0, r0.message, r0.tick), now), Arrives(ack, t),
                                          Arrives(Wire(su, s2, r2.message, r2.tick), now)])
              == [SignedFields(su, s0, r0.message, r0.tick), SignedFields(su, s2, r2.message, r2.tick)]
  {
    var s2 := AfterSend(su, AfterSend(su, s0, r0.message, r0.tick), r1.message, r1.tick);
    var h0, h1 := Arrives(Wire(su, s0, r0.message, r0.tick), now), Arrives(ack, t);
    var h2 := Arrives(Wire(su, s2, r2.message, r2.tick), now);
    FirstTaken(su, s0, receiver, r0, now, h0);
    var met := AfterHappening(su, receiver, h0);
    AckTaken(su, receiver, [h0], met, h1);
    assert [h0] + [h1] == [h0, h1] && [h0, h1] + [h2] == [h0, h1, h2];
    var renewed := met.(connected := true, lastSent := [], lastReceived := []);
    SendThenReceive(su, s2, renewed, r2, now);
    TakeOne(su, receiver, [h0, h1], h2);
  }

  lemma FirstTaken(su: Suite, s0: Endpoint, receiver: Endpoint, r0: Request, now: int, h0: Happening)
    requires HexDigests(su, MacKey(receiver.config)) && Paired(s0.config, receiver.config) && CanSend(s0)
    requires s0.lastSent == receiver.lastReceived && receiver.seen == map[] && Deliverable(su, s0.config, receiver.config, r0, now)
    requires h0 == Arrives(Wire(su, s0, r0.message, r0.tick), now)
    ensures AcceptedFields(su, receiver, [h0]) == [SignedFields(su, s0, r0.message, r0.tick)]
    ensures Watch(su, receiver, [h0]) == AfterHappening(su, receiver, h0)
    ensures AfterHappening(su, receiver, h0).seen == map[NonceFor(su, s0.config, r0.tick) := now]
    ensures AfterHappening(su, receiver, h0).config == receiver.config
  {
    SendThenReceive(su, s0, receiver, r0, now);
    TakeOne(su, receiver, [], h0);
    assert [] + [h0] == [h0];
  }

  lemma AckTaken(su: Suite, ep: Endpoint, hs: seq<Happening>, met: Endpoint, h: Happening)
    requires Watch(su, ep, hs) == met && h.Arrives? && h.envelope.kind == "handshake_ack"
    ensures Watch(su, ep, hs + [h]) == met.(connected := true, lastSent := [], lastReceived := [])
    ensures AcceptedFields(su, ep, hs + [h]) == AcceptedFields(su, ep, hs)
  {
    TakeOne(su, ep, hs, h);
    assert AcceptedFields(su, ep, hs) + [] == AcceptedFields(su, ep, hs);
  }

  lemma TakeOne(su: Suite, ep: Endpoint, hs: seq<Happening>, h: Happening)
    ensures var before := Watch(su, ep, hs);
            && Watch(su, ep, hs + [h]) == AfterHappening(su, before, h)
            && AcceptedFields(su, ep, hs + [h]) ==
               AcceptedFields(su, ep, hs) + if Takes(su, before, h) then [FieldsOf(su, before.config, h)] else []
  {
    assert (hs + [h])[..|hs|] == hs;
  }

  // A lossless FIFO link.

  /** A message is sent and arrives, or the receiver's cleanup timer fires. */
  datatype Turn = Passes(request: Request, now: int) | Cleans(now: int)

  function Requests(turns: seq<Turn>): seq<Request> {
    if turns == [] then []
    else Requests(turns[..|turns| - 1]) + if turns[|turns| - 1].Passes? then [turns[|turns| - 1].request] else []
  }

  /** What the turns are at the receiver. */
  function Traffic(su: Suite, sender: Endpoint, turns: seq<Turn>): seq<Happening> {
    if turns == [] then []
    else Traffic(su, sender, turns[..|turns| - 1])
         + [OnWire(su, SendAll(su, sender, Requests(turns[..|turns| - 1])), turns[|turns| - 1])]
  }

  function OnWire(su: Suite, s: Endpoint, t: Turn): Happening {
    match t
    case Passes(r, now) => Arrives(Wire(su, s, r.message, r.tick), now)
    case Cleans(now) => Happening.Cleanup(now)
  }

  /** The nonce of one of these sends. */
  ghost predicate Spent(su: Suite, c: Config, rs: seq<Request>, nonce: string) {
    exists i | 0 <= i < |rs| :: nonce == NonceFor(su, c, rs[i].tick)
  }

  /** Where the receiver is when it has taken in these sends. */
  ghost predicate InStep(su: Suite, sender: Endpoint, receiver: Endpoint, rs: seq<Request>, after: Endpoint) {
    && after.lastReceived == SendAll(su, sender, rs).lastSent && after.config == receiver.config
    && forall x | x in after.seen :: x in receiver.seen || Spent(su, sender.config, rs, x)
  }

  lemma SpentSnoc(su: Suite, c: Config, rs: seq<Request>, r: Request, nonce: string)
    ensures Spent(su, c, rs + [r], nonce) <==> Spent(su, c, rs, nonce) || nonce == NonceFor(su, c, r.tick)
  {
    assert (rs + [r])[|rs|] == r;
    if Spent(su, c, rs, nonce) {
      var i :| 0 <= i < |rs| && nonce == NonceFor(su, c, rs[i].tick);
      assert (rs + [r])[i] == rs[i];
    }
  }

  ghost predicate FreshNonces(su: Suite, sender: Endpoint, receiver: Endpoint, rs: seq<Request>) {
    && (forall i | 0 <= i < |rs| :: NonceFor(su, sender.config, rs[i].tick) !in receiver.seen)
    && (forall i, j | 0 <= i < j < |rs| :: NonceFor(su, sender.config, rs[i].tick) != NonceFor(su, sender.config, rs[j].tick))
  }

  lemma FreshPrefix(su: Suite, sender: Endpoint, receiver: Endpoint, rs: seq<Request>, r: Request)
    requires FreshNonces(su, sender, receiver, rs + [r])
    ensures FreshNonces(su, sender, receiver, rs) && NonceFor(su, sender.config, r.tick) !in receiver.seen
    ensures !Spent(su, sender.config, rs, NonceFor(su, sender.config, r.tick))
  {
    var all := rs + [r];
    assert all[|rs|] == r && forall i | 0 <= i < |rs| :: all[i] == rs[i];
  }

  lemma StayInStep(su: Suite, sender: Endpoint, receiver: Endpoint, rs: seq<Request>, r: Request, now: int, met: Endpoint)
    requires HexDigests(su, MacKey(receiver.config)) && Paired(sender.config, receiver.config) && CanSend(sender)
    requires FreshNonces(su, sender, receiver, rs + [r]) && InStep(su, sender, receiver, rs, met)
    requires Deliverable(su, sender.config, receiver.config, r, now)
    ensures var w := Wire(su, SendAll(su, sender, rs), r.message, r.tick);
            && Judge(su, met, w, now).Accepted? && met.config == receiver.config
            && ReceivedFields(Restore(su, receiver.config, w)) == SignedFields(su, SendAll(su, sender, rs), r.message, r.tick)
            && InStep(su, sender, receiver, rs + [r], AfterReceive(su, met, w, now))
  {
    var s := SendAll(su, sender, rs);
    SenderLinks(su, sender, rs);
    FreshPrefix(su, sender, receiver, rs, r);
    SendThenReceive(su, s, met, r, now);
    assert (rs + [r])[..|rs|] == rs;
    var after := AfterReceive(su, met, Wire(su, s, r.message, r.tick), now);
    forall x | x in after.seen ensures x in receiver.seen || Spent(su, sender.config, rs + [r], x) {
      SpentSnoc(su, sender.config, rs, r, x);
    }
  }

  /** Chain completeness: over a lossless FIFO link every message is accepted, with metadata
      encryption on or off and nonce cleanups at any time, and what is accepted is field for
      field what was signed. */
  lemma {:induction false} ChainCompleteness(su: Suite, sender: Endpoint, receiver: Endpoint, turns: seq<Turn>)
    requires HexDigests(su, MacKey(receiver.config)) && Paired(sender.config, receiver.config) && CanSend(sender)
    requires sender.lastSent == receiver.lastReceived && FreshNonces(su, sender, receiver, Requests(turns))
    requires forall t | t in turns && t.Passes? :: Deliverable(su, sender.config, receiver.config, t.request, t.now)
    ensures AcceptedFields(su, receiver, Traffic(su, sender, turns)) == SentFields(su, sender, Requests(turns))
    ensures InStep(su, sender, receiver, Requests(turns), Watch(su, receiver, Traffic(su, sender, turns)))
  {
    if turns != [] {
      var init, t := turns[..|turns| - 1], turns[|turns| - 1];
      var rs, prior := Requests(init), Traffic(su, sender, init);
      assert t in turns && forall x | x in init :: x in turns;
      if t.Passes? { FreshPrefix(su, sender, receiver, rs, t.request); } else { assert rs + [] == rs; }
      ChainCompleteness(su, sender, receiver, init);
      TakeOne(su, receiver, prior, OnWire(su, SendAll(su, sender, rs), t));
      if t.Passes? {
        StayInStep(su, sender, receiver, rs, t.request, t.now, Watch(su, receiver, prior));
        assert (rs + [t.request])[..|rs|] == rs;
      }
    }
  }
}
