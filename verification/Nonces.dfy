/** The client's nonce cache: formats, the acceptance window, expiry, and when a nonce can be
    accepted twice. */
module Nonces {
  import opened Texts

  datatype NonceError =
    | MissingNonce | AlreadyUsed | BadFormat | BadHmac | BadTimestamp | ClientMismatch | LowEntropy
    | TooOld | FromFuture

  datatype Reading = Stamped(timestamp: int) | Unreadable(error: NonceError)

  const SKEW := 5000

  /** `options.maxMessageAge || 60000` */
  function AgeLimit(maxMessageAge: int): int {
    if maxMessageAge == 0 then 60000 else maxMessageAge
  }

  // ---------------------------------------------------------------------------------------
  // Reading a nonce
  // ---------------------------------------------------------------------------------------

  predicate IsHexDigit(c: char) { IsDigit(c) || 'a' <= c <= 'f' || 'A' <= c <= 'F' }

  predicate AllHex(s: string) { forall i | 0 <= i < |s| :: IsHexDigit(s[i]) }

  function LeadingDigits(s: string): (d: string)
    ensures AllDigits(d) && d <= s
  {
    if s == [] || !IsDigit(s[0]) then [] else [s[0]] + LeadingDigits(s[1..])
  }

  /** `parseInt(s, 10)`; None is NaN. */
  function ParseInt(s: string): Option<int> {
    var t := TrimLeft(s);
    var signed := t != [] && (t[0] == '-' || t[0] == '+');
    var digits := LeadingDigits(if signed then t[1..] else t);
    if digits == [] then None
    else Some(if signed && t[0] == '-' then 0 - DigitsValue(digits) else DigitsValue(digits))
  }

  function WithTimestamp(text: string): Reading {
    match ParseInt(text) case None => Unreadable(BadTimestamp) case Some(n) => Stamped(n)
  }

  /** The format checks of `validateNonce` and the timestamp it extracts. */
  function ReadNonce(nonce: string, clientId: Option<string>): Reading {
    var parts := Split(nonce, '-');
    if "hmac-" <= nonce then
      if |parts| != 3 then Unreadable(BadFormat)
      else if |parts[1]| != 32 || !AllHex(parts[1]) then Unreadable(BadHmac)
      else if parts[2] == [] then Unreadable(BadFormat)
      else WithTimestamp(parts[2])
    else if |parts| != 3 then Unreadable(BadFormat)
    else if parts[0] == [] || parts[1] == [] || parts[2] == [] then Unreadable(BadFormat)
    else if clientId.Some? && clientId.value != [] && clientId.value != parts[0] then Unreadable(ClientMismatch)
    else if WithTimestamp(parts[1]).Unreadable? then Unreadable(BadTimestamp)
    else if |parts[2]| < 8 then Unreadable(LowEntropy)
    else WithTimestamp(parts[1])
  }

  // ---------------------------------------------------------------------------------------
  // Writing a nonce
  // ---------------------------------------------------------------------------------------

  /** The nonce of `generateNonce` when there is a MAC key. */
  function HmacNonce(mac: string, now: nat): string {
    "hmac-" + (if |mac| < 32 then mac else mac[..32]) + "-" + Decimal(now)
  }

  function LegacyNonce(clientId: string, now: nat, randomHex: string): string {
    clientId + "-" + Decimal(now) + "-" + randomHex
  }

  lemma {:induction false} LeadingDigitsAll(s: string)
    requires AllDigits(s)
    ensures LeadingDigits(s) == s
  {
    if s != [] {
      LeadingDigitsAll(s[1..]);
      assert s == [s[0]] + s[1..];
    }
  }

  lemma ParseIntDecimal(n: nat)
    ensures ParseInt(Decimal(n)) == Some(n)
  {
    DecimalRoundTrip(n);
    assert IsDigit(Decimal(n)[0]);
    LeadingDigitsAll(Decimal(n));
  }

  lemma DigitsHaveNoDash(s: string)
    requires AllDigits(s) || AllHex(s)
    ensures '-' !in s
  {
  }

  /** What `generateNonce` writes, `validateNonce` reads back. */
  lemma HmacNonceReads(mac: string, now: nat, clientId: Option<string>)
    requires |mac| >= 32 && AllHex(mac)
    ensures ReadNonce(HmacNonce(mac, now), clientId) == Stamped(now)
  {
    var hex, stamp := mac[..32], Decimal(now);
    DecimalRoundTrip(now);
    ParseIntDecimal(now);
    DigitsHaveNoDash(hex);
    DigitsHaveNoDash(stamp);
    assert "hmac-" + hex + "-" + stamp == "hmac" + ['-'] + hex + ['-'] + stamp;
    SplitThree("hmac", hex, stamp, '-');
    assert HmacNonce(mac, now)[..5] == "hmac-";
  }

  lemma {:induction false} SplitCounts(s: string, sep: char, rest: string)
    requires sep in s
    ensures |Split(s + [sep] + rest, sep)| > 1 + |Split(rest, sep)|
  {
    assert (s + [sep] + rest)[1..] == s[1..] + [sep] + rest;
    if s[0] == sep {
      SplitTail(s[1..], sep, rest);
    } else {
      SplitCounts(s[1..], sep, rest);
    }
  }

  lemma {:induction false} SplitTail(s: string, sep: char, rest: string)
    ensures |Split(s + [sep] + rest, sep)| >= 1 + |Split(rest, sep)|
  {
    if s == [] {
      assert (s + [sep] + rest)[1..] == rest;
    } else {
      assert (s + [sep] + rest)[1..] == s[1..] + [sep] + rest;
      SplitTail(s[1..], sep, rest);
    }
  }

  /** A legacy nonce is readable exactly when the client id contains no dash, so the generated
      UUID client ids never pass.  The client id "hmac" is taken for the other format, and its
      nonce passes only if the clock reading happens to look like a MAC and the random part like
      the clock reading. */
  lemma LegacyNonceReads(clientId: string, now: nat, randomHex: string)
    requires clientId != [] && |randomHex| >= 8 && AllHex(randomHex)
    ensures ReadNonce(LegacyNonce(clientId, now, randomHex), Some(clientId)) == Stamped(now) <==>
            '-' !in clientId && (clientId == "hmac" ==> |Decimal(now)| == 32 && ParseInt(randomHex) == Some(now))
  {
    var stamp := Decimal(now);
    var rest := stamp + ['-'] + randomHex;
    DecimalRoundTrip(now);
    DigitsHaveNoDash(randomHex);
    DigitsHaveNoDash(stamp);
    assert LegacyNonce(clientId, now, randomHex) == clientId + ['-'] + rest;
    if '-' in clientId {
      DashedIdUnreadable(clientId, stamp, randomHex);
    } else {
      SplitThree(clientId, stamp, randomHex, '-');
      assert clientId + ['-'] + rest == clientId + ['-'] + stamp + ['-'] + randomHex;
      if clientId == "hmac" {
        assert LegacyNonce(clientId, now, randomHex)[..5] == "hmac-";
      } else {
        ParseIntDecimal(now);
        NotHmac(clientId, rest);
      }
    }
  }

  lemma DashedIdUnreadable(clientId: string, stamp: string, randomHex: string)
    requires '-' in clientId && '-' !in stamp && '-' !in randomHex
    ensures ReadNonce(clientId + ['-'] + (stamp + ['-'] + randomHex), Some(clientId)) == Unreadable(BadFormat)
  {
    SplitFirst(stamp, '-', randomHex);
    SplitNone(randomHex, '-');
    SplitCounts(clientId, '-', stamp + ['-'] + randomHex);
  }

  lemma HmacFirst(nonce: string)
    requires "hmac-" <= nonce
    ensures Split(nonce, '-')[0] == "hmac"
  {
    assert nonce == "hmac" + ['-'] + nonce[5..];
    SplitFirst("hmac", '-', nonce[5..]);
  }

  lemma NotHmac(clientId: string, rest: string)
    requires '-' !in clientId && clientId != "hmac"
    ensures !("hmac-" <= clientId + ['-'] + rest)
  {
    var nonce := clientId + ['-'] + rest;
    SplitFirst(clientId, '-', rest);
    assert Split(nonce, '-')[0] == clientId;
    if "hmac-" <= nonce { HmacFirst(nonce); }
  }

  /** The nonces that are read and the timestamp read off them: "hmac-", 32 hexadecimal digits and
      a time, or the client's id, a time and at least eight more characters. */
  predicate Readable(a: string, b: string, c: string, clientId: Option<string>, t: int) {
    if a == "hmac" then |b| == 32 && (forall x | x in b :: x in "0123456789abcdefABCDEF") && ParseInt(c) == Some(t)
    else a != [] && clientId in {None, Some([]), Some(a)} && ParseInt(b) == Some(t) && |c| >= 8
  }

  ghost predicate ThreeParts(nonce: string, a: string, b: string, c: string) {
    '-' !in a && '-' !in b && '-' !in c && nonce == a + "-" + b + "-" + c
  }

  lemma ReadNonceExact(nonce: string, clientId: Option<string>, t: int)
    ensures ReadNonce(nonce, clientId) == Stamped(t) <==>
            exists a, b, c :: ThreeParts(nonce, a, b, c) && Readable(a, b, c, clientId, t)
  {
    forall a, b, c | ThreeParts(nonce, a, b, c)
      ensures ReadNonce(nonce, clientId) == Stamped(t) <==> Readable(a, b, c, clientId, t)
    {
      ReadParts(nonce, a, b, c, clientId, t);
    }
    var parts := Split(nonce, '-');
    if |parts| == 3 {
      SplitThreeExact(nonce, '-', parts[0], parts[1], parts[2]);
      assert parts == [parts[0], parts[1], parts[2]];
      assert ThreeParts(nonce, parts[0], parts[1], parts[2]);
    }
  }

  lemma HexExact(s: string)
    ensures AllHex(s) <==> forall x | x in s :: x in "0123456789abcdefABCDEF"
  {
    forall x: char ensures IsHexDigit(x) <==> x in "0123456789abcdefABCDEF" { }
  }

  lemma ReadParts(nonce: string, a: string, b: string, c: string, clientId: Option<string>, t: int)
    requires ThreeParts(nonce, a, b, c)
    ensures ReadNonce(nonce, clientId) == Stamped(t) <==> Readable(a, b, c, clientId, t)
  {
    SplitThreeExact(nonce, '-', a, b, c);
    HexExact(b);
    if a == "hmac" {
      assert nonce[..5] == "hmac-";
    } else {
      assert nonce == a + ['-'] + (b + "-" + c);
      NotHmac(a, b + "-" + c);
    }
  }

  // ---------------------------------------------------------------------------------------
  // The cache
  // ---------------------------------------------------------------------------------------

  type Cache = map<string, int>  // nonce -> the time it was accepted

  /** `validateNonce` apart from the cache update: None is acceptance. */
  function Verdict(seen: Cache, nonce: string, clientId: Option<string>, now: int, limit: int): Option<NonceError> {
    if nonce == [] then Some(MissingNonce)
    else if nonce in seen then Some(AlreadyUsed)
    else
      match ReadNonce(nonce, clientId)
      case Unreadable(e) => Some(e)
      case Stamped(t) => if now - t > limit then Some(TooOld) else if now - t < -SKEW then Some(FromFuture) else None
  }

  function Record(seen: Cache, nonce: string, clientId: Option<string>, now: int, limit: int): Cache {
    if Verdict(seen, nonce, clientId, now, limit).None? then seen[nonce := now] else seen
  }

  /** What `cleanupExpiredNonces` leaves. */
  function Expired(seen: Cache, now: int, limit: int): Cache {
    map n | n in seen && now - seen[n] <= 2 * limit :: seen[n]
  }

  class NonceCache {
    var seen: Cache
    const maxMessageAge: int

    constructor (maxMessageAge: int)
      ensures seen == map[] && this.maxMessageAge == maxMessageAge
    {
      seen := map[];
      this.maxMessageAge := maxMessageAge;
    }

    method ValidateNonce(nonce: string, clientId: Option<string>, now: int) returns (error: Option<NonceError>)
      modifies this
      ensures error == Verdict(old(seen), nonce, clientId, now, AgeLimit(maxMessageAge))
      ensures seen == Record(old(seen), nonce, clientId, now, AgeLimit(maxMessageAge))
      ensures error.None? <==>
              && nonce != [] && nonce !in old(seen) && ReadNonce(nonce, clientId).Stamped?
              && -5000 <= now - ReadNonce(nonce, clientId).timestamp <= if maxMessageAge == 0 then 60000 else maxMessageAge
      ensures seen == if error.None? then old(seen)[nonce := now] else old(seen)
    {
      if nonce == [] { return Some(MissingNonce); }
      if nonce in seen { return Some(AlreadyUsed); }
      var reading := ReadNonce(nonce, clientId);
      match reading
      case Unreadable(e) => return Some(e);
      case Stamped(timestamp) =>
        var nonceAge := now - timestamp;
        if nonceAge > AgeLimit(maxMessageAge) { return Some(TooOld); }
        if nonceAge < -SKEW { return Some(FromFuture); }
        seen := seen[nonce := now];
        return None;
    }

    method CleanupExpiredNonces(now: int)
      modifies this
      ensures seen == Expired(old(seen), now, AgeLimit(maxMessageAge))
    {
      var maxAge := AgeLimit(maxMessageAge) * 2;
      var todo := seen.Keys;
      while todo != {}
        invariant todo <= seen.Keys <= old(seen).Keys
        invariant forall n | n in seen :: seen[n] == old(seen)[n] && (n in todo || now - seen[n] <= maxAge)
        invariant forall n | n in old(seen) && n !in seen :: now - old(seen)[n] > maxAge
        decreases todo
      {
        var n :| n in todo;
        if now - seen[n] > maxAge { seen := seen - {n}; }
        todo := todo - {n};
      }
    }
  }

  // ---------------------------------------------------------------------------------------
  // Runs of validations and cleanups
  // ---------------------------------------------------------------------------------------

  datatype Op = Validate(nonce: string, clientId: Option<string>, now: int) | Cleanup(now: int)

  function Apply(limit: int, seen: Cache, op: Op): Cache {
    match op
    case Validate(n, c, now) => Record(seen, n, c, now, limit)
    case Cleanup(now) => Expired(seen, now, limit)
  }

  function After(limit: int, ops: seq<Op>): Cache {
    if ops == [] then map[] else Apply(limit, After(limit, ops[..|ops| - 1]), ops[|ops| - 1])
  }

  predicate AcceptedAt(limit: int, ops: seq<Op>, k: nat)
    requires k < |ops|
  {
    ops[k].Validate? && Verdict(After(limit, ops[..k]), ops[k].nonce, ops[k].clientId, ops[k].now, limit).None?
  }

  ghost predicate ClockRuns(ops: seq<Op>) {
    forall j, k | 0 <= j < k < |ops| :: ops[j].now <= ops[k].now
  }

  ghost predicate NoReplay(limit: int, ops: seq<Op>) {
    forall j, k | 0 <= j < k < |ops| && AcceptedAt(limit, ops, j) && AcceptedAt(limit, ops, k) ::
      ops[j].nonce != ops[k].nonce
  }

  /** The reading of a nonce that is accepted does not depend on the client id in force. */
  lemma SameReading(nonce: string, c: Option<string>, d: Option<string>)
    requires ReadNonce(nonce, c).Stamped? && ReadNonce(nonce, d).Stamped?
    ensures ReadNonce(nonce, c) == ReadNonce(nonce, d)
  {
  }

  lemma HeldStep(limit: int, seen: Cache, op: Op, nonce: string)
    requires nonce in seen
    ensures var next := Apply(limit, seen, op);
            (nonce in next && next[nonce] == seen[nonce]) || op.now > seen[nonce] + 2 * limit
  {
  }

  /** An accepted nonce stays in the cache until more than twice the age limit has passed. */
  lemma {:induction false} Remembers(limit: int, ops: seq<Op>, j: nat, p: nat)
    requires ClockRuns(ops) && j < p <= |ops| && AcceptedAt(limit, ops, j)
    ensures var seen, x := After(limit, ops[..p]), ops[j];
            (x.nonce in seen && seen[x.nonce] == x.now) || ops[p - 1].now > x.now + 2 * limit
  {
    assert ops[..p][..p - 1] == ops[..p - 1];
    if p > j + 1 {
      Remembers(limit, ops, j, p - 1);
      assert ops[p - 2].now <= ops[p - 1].now;
      if ops[p - 2].now <= ops[j].now + 2 * limit {
        HeldStep(limit, After(limit, ops[..p - 1]), ops[p - 1], ops[j].nonce);
      }
    }
  }

  lemma NotAgain(limit: int, ops: seq<Op>, j: nat, k: nat)
    requires ClockRuns(ops) && limit >= SKEW
    requires j < k < |ops| && AcceptedAt(limit, ops, j) && ops[k].Validate? && ops[k].nonce == ops[j].nonce
    requires var seen, x := After(limit, ops[..k]), ops[j];
             (x.nonce in seen && seen[x.nonce] == x.now) || ops[k - 1].now > x.now + 2 * limit
    ensures !AcceptedAt(limit, ops, k)
  {
    assert ops[k - 1].now <= ops[k].now;
    if ReadNonce(ops[k].nonce, ops[k].clientId).Stamped? {
      SameReading(ops[k].nonce, ops[j].clientId, ops[k].clientId);
    }
  }

  /** The age limits for which the cache never forgets a nonce that could still pass. */
  predicate SafeLimit(limit: int) { limit >= SKEW || limit < -SKEW }

  lemma SafeLimitSuffices(limit: int, ops: seq<Op>)
    requires SafeLimit(limit) && ClockRuns(ops)
    ensures NoReplay(limit, ops)
  {
    forall j, k | 0 <= j < k < |ops| && AcceptedAt(limit, ops, j) && AcceptedAt(limit, ops, k)
      ensures ops[j].nonce != ops[k].nonce
    {
      if limit >= SKEW && ops[j].nonce == ops[k].nonce {
        Remembers(limit, ops, j, k);
        NotAgain(limit, ops, j, k);
      }
    }
  }

  const ZEROS: string := "00000000000000000000000000000000"

  /** Otherwise a nonce stamped five seconds ahead outlives its cache entry. */
  function Replay(limit: int): seq<Op> {
    var x := HmacNonce(ZEROS, SKEW);
    var later := if limit < 0 then 0 else 2 * limit + 1;
    [Validate(x, None, 0), Cleanup(later), Validate(x, None, later)]
  }

  lemma ReplayWorks(limit: int)
    requires !SafeLimit(limit)
    ensures ClockRuns(Replay(limit)) && !NoReplay(limit, Replay(limit))
  {
    var ops := Replay(limit);
    var x := ops[0].nonce;
    HmacNonceReads(ZEROS, SKEW, None);
    assert ops[..0] == [] && ops[..1] == [ops[0]] && ops[..2] == [ops[0], ops[1]];
    assert [ops[0]][..0] == [] && [ops[0], ops[1]][..1] == [ops[0]];
    assert After(limit, ops[..1]) == map[x := 0];
    assert After(limit, ops[..2]) == map[];
    assert AcceptedAt(limit, ops, 0) && AcceptedAt(limit, ops, 2);
  }

  /** Replay safety with expiry, exactly: no nonce is accepted twice in any run with a clock
      that does not go back, if and only if the configured age is 0 (which means 60 s), at
      least the five seconds of future tolerance, or so negative that nothing is accepted. */
  lemma ReplaySafety(maxMessageAge: int)
    ensures (forall ops | ClockRuns(ops) :: NoReplay(AgeLimit(maxMessageAge), ops))
            <==> maxMessageAge == 0 || maxMessageAge >= SKEW || maxMessageAge < -SKEW
  {
    var limit := AgeLimit(maxMessageAge);
    if SafeLimit(limit) {
      forall ops | ClockRuns(ops) ensures NoReplay(limit, ops) { SafeLimitSuffices(limit, ops); }
    } else {
      ReplayWorks(limit);
    }
  }
}
