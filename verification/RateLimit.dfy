/** Token buckets and the per-IP limiter table with eviction.  Time is in seconds. */
module RateLimit {

  // ---------------------------------------------------------------------------------------
  // One bucket
  // ---------------------------------------------------------------------------------------

  datatype Bucket = Bucket(capacity: real, tokens: real, rps: real, last: real)

  function Max(a: real, b: real): real { if a < b then b else a }
  function Min(a: real, b: real): real { if a < b then a else b }

  function NewBucket(rps: real, burst: real, now: real): Bucket {
    var capacity := Max(burst, rps);
    Bucket(capacity, capacity, rps, now)
  }

  /** `duration_since` saturates at zero. */
  function Since(now: real, earlier: real): real { if now > earlier then now - earlier else 0.0 }

  function Elapsed(b: Bucket, now: real): real { Since(now, b.last) }

  function Refill(b: Bucket, now: real): Bucket {
    if Elapsed(b, now) > 0.0
    then b.(tokens := Min(b.tokens + Elapsed(b, now) * b.rps, b.capacity), last := now)
    else b
  }

  predicate Allows(b: Bucket, now: real) { Refill(b, now).tokens >= 1.0 }

  function AfterAllow(b: Bucket, now: real): Bucket {
    var r := Refill(b, now);
    if r.tokens >= 1.0 then r.(tokens := r.tokens - 1.0) else r
  }

  class TokenBucket {
    var capacity: real
    var tokens: real
    var refillPerSec: real
    var lastRefill: real

    ghost function View(): Bucket
      reads this
    {
      Bucket(capacity, tokens, refillPerSec, lastRefill)
    }

    constructor (rps: real, burst: real, now: real)
      ensures View() == NewBucket(rps, burst, now)
    {
      capacity := Max(burst, rps);
      tokens := Max(burst, rps);
      refillPerSec := rps;
      lastRefill := now;
    }

    method Allow(now: real) returns (allowed: bool)
      modifies this
      ensures allowed == Allows(old(View()), now) && View() == AfterAllow(old(View()), now)
    {
      var elapsed := Since(now, lastRefill);
      if elapsed > 0.0 {
        var newTokens := elapsed * refillPerSec;
        tokens := Min(tokens + newTokens, capacity);
        lastRefill := now;
      }
      if tokens >= 1.0 {
        tokens := tokens - 1.0;
        return true;
      }
      return false;
    }
  }

  ghost predicate Sound(b: Bucket) { 0.0 <= b.tokens <= b.capacity && 0.0 <= b.rps }

  lemma Product(a: real, b: real)
    requires 0.0 <= a && 0.0 <= b
    ensures 0.0 <= a * b
  {
  }

  lemma KeepsSound(b: Bucket, now: real)
    requires Sound(b)
    ensures Sound(AfterAllow(b, now)) && Sound(Refill(b, now))
  {
    Product(Elapsed(b, now), b.rps);
  }

  // ---------------------------------------------------------------------------------------
  // Runs of one bucket
  // ---------------------------------------------------------------------------------------

  function After(b: Bucket, calls: seq<real>): Bucket
    decreases |calls|
  {
    if calls == [] then b else After(AfterAllow(b, calls[0]), calls[1..])
  }

  function Count(allowed: bool): real { if allowed then 1.0 else 0.0 }

  /** The number of calls that are allowed. */
  function Allowed(b: Bucket, calls: seq<real>): real
    decreases |calls|
  {
    if calls == [] then 0.0 else Count(Allows(b, calls[0])) + Allowed(AfterAllow(b, calls[0]), calls[1..])
  }

  ghost predicate ClockRuns(calls: seq<real>) {
    forall i, j | 0 <= i < j < |calls| :: calls[i] <= calls[j]
  }

  lemma Split(a: real, b: real, c: real, rps: real)
    ensures Flow(a, b, rps) + Flow(b, c, rps) == Flow(a, c, rps)
  {
  }

  /** One call: what it takes and what it leaves was there or has flowed in. */
  lemma StepBound(b: Bucket, now: real, last: real, rps: real)
    requires Sound(b) && b.last == last <= now && b.rps == rps
    ensures var r := AfterAllow(b, now);
            && Sound(r) && r.last == now && r.rps == rps && r.capacity == b.capacity
            && Count(Allows(b, now)) + r.tokens == Level(b, now) <= b.tokens + Flow(last, now, rps)
            && Level(b, now) <= b.capacity
  {
    Product(now - last, rps);
  }

  /** What a bucket would hold at a later time. */
  function Level(b: Bucket, t: real): real { Refill(b, t).tokens }

  /** What flows in between two times. */
  function Flow(from: real, to: real, rps: real): real { (to - from) * rps }

  /** What flows in from time `last` to the last of the calls, call by call. */
  function Inflow(last: real, calls: seq<real>, rps: real): real
    decreases |calls|
  {
    if calls == [] then 0.0 else Flow(last, calls[0], rps) + Inflow(calls[0], calls[1..], rps)
  }

  /** Tokens are conserved: what is handed out was there at the start or has flowed in since. */
  lemma {:induction false} Conserved(b: Bucket, calls: seq<real>, last: real, rps: real)
    requires Sound(b) && b.last == last && b.rps == rps && ClockRuns([last] + calls)
    ensures Allowed(b, calls) <= b.tokens + Inflow(last, calls, rps)
    decreases |calls|
  {
    if calls != [] {
      assert ([last] + calls)[0] == last && ([last] + calls)[1] == calls[0];
      assert [calls[0]] + calls[1..] == ([last] + calls)[1..];
      StepBound(b, calls[0], last, rps);
      Conserved(AfterAllow(b, calls[0]), calls[1..], calls[0], rps);
    }
  }

  lemma FlowsForward(from: real, to: real, rps: real)
    requires from <= to && 0.0 <= rps
    ensures 0.0 <= Flow(from, to, rps)
  {
    Product(to - from, rps);
  }

  /** The inflow of a run telescopes. */
  lemma {:induction false} InflowBound(last: real, calls: seq<real>, t: real, rps: real)
    requires 0.0 <= rps && ClockRuns([last] + calls + [t])
    ensures 0.0 <= Inflow(last, calls, rps) <= Flow(last, t, rps)
    decreases |calls|
  {
    var all := [last] + calls + [t];
    assert all[0] == last && all[|calls| + 1] == t;
    if calls == [] {
      FlowsForward(last, t, rps);
    } else {
      assert all[1] == calls[0] && [calls[0]] + calls[1..] + [t] == all[1..];
      InflowBound(calls[0], calls[1..], t, rps);
      InflowStep(last, calls[0], t, rps, Inflow(calls[0], calls[1..], rps));
    }
  }

  lemma InflowStep(last: real, next: real, t: real, rps: real, rest: real)
    requires 0.0 <= rps && last <= next && 0.0 <= rest <= Flow(next, t, rps)
    ensures 0.0 <= Flow(last, next, rps) + rest <= Flow(last, t, rps)
  {
    Product(next - last, rps);
    Split(last, next, t, rps);
  }

  lemma {:induction false} ReachesBefore(b: Bucket, before: seq<real>, next: real)
    requires Sound(b) && ClockRuns([b.last] + before + [next])
    ensures var r := After(b, before); Sound(r) && r.last <= next && r.rps == b.rps && r.capacity == b.capacity
    decreases |before|
  {
    var all := [b.last] + before + [next];
    assert all[0] == b.last && all[|before| + 1] == next;
    if before != [] {
      assert all[1] == before[0];
      StepBound(b, before[0], b.last, b.rps);
      assert [before[0]] + before[1..] + [next] == all[1..];
      ReachesBefore(AfterAllow(b, before[0]), before[1..], next);
    }
  }

  /** The first call of an interval finds at most a full bucket. */
  lemma IntervalBound(b: Bucket, calls: seq<real>, rps: real, flow: real)
    requires Sound(b) && b.rps == rps && ClockRuns([b.last] + calls)
    requires 0.0 <= flow && (calls != [] ==> Inflow(calls[0], calls[1..], rps) <= flow)
    ensures Allowed(b, calls) <= b.capacity + flow
  {
    if calls != [] {
      assert ([b.last] + calls)[0] == b.last && ([b.last] + calls)[1] == calls[0];
      assert [calls[0]] + calls[1..] == ([b.last] + calls)[1..];
      StepBound(b, calls[0], b.last, rps);
      Conserved(AfterAllow(b, calls[0]), calls[1..], calls[0], rps);
    }
  }

  /** The clock readings of an interval and what follows the reading before it. */
  lemma Readings(last: real, s: real, calls: seq<real>, t: real)
    requires last <= s && ClockRuns([s] + calls + [t])
    ensures s <= t && ClockRuns([last] + calls)
    ensures calls != [] ==> s <= calls[0] && ClockRuns([calls[0]] + calls[1..] + [t])
  {
    var all := [s] + calls + [t];
    assert all[0] == s && all[|calls| + 1] == t;
    var later := [last] + calls;
    forall i, j | 0 <= i < j < |later| ensures later[i] <= later[j] {
      assert later[j] == all[j] && s <= all[j];
      assert i > 0 ==> later[i] == all[i];
    }
    if calls != [] {
      assert all[1] == calls[0] && [calls[0]] + calls[1..] + [t] == all[1..];
    }
  }

  /** Token-bucket bound: whatever happened before, the calls allowed in an interval [s, t]
      are at most the capacity plus what flows in during the interval. */
  lemma BurstBound(b: Bucket, before: seq<real>, calls: seq<real>, s: real, t: real, rps: real)
    requires Sound(b) && b.rps == rps && ClockRuns([b.last] + before + [s]) && ClockRuns([s] + calls + [t])
    ensures Allowed(After(b, before), calls) <= b.capacity + Flow(s, t, rps)
  {
    ReachesBefore(b, before, s);
    var mid := After(b, before);
    Readings(mid.last, s, calls, t);
    IntervalInflow(calls, s, t, rps);
    IntervalBound(mid, calls, rps, Flow(s, t, rps));
  }

  lemma IntervalInflow(calls: seq<real>, s: real, t: real, rps: real)
    requires 0.0 <= rps && s <= t && (calls != [] ==> s <= calls[0] && ClockRuns([calls[0]] + calls[1..] + [t]))
    ensures 0.0 <= Flow(s, t, rps)
    ensures calls != [] ==> Inflow(calls[0], calls[1..], rps) <= Flow(s, t, rps)
  {
    FlowsForward(s, t, rps);
    if calls != [] {
      InflowBound(calls[0], calls[1..], t, rps);
      Widen(s, calls[0], t, rps);
    }
  }

  lemma Widen(s: real, a: real, t: real, rps: real)
    requires s <= a && 0.0 <= rps
    ensures Flow(a, t, rps) <= Flow(s, t, rps)
  {
    Product(a - s, rps);
    Split(s, a, t, rps);
  }

  /** A caller that waits 1/rps after its last call is always served, whatever came before. */
  lemma SpacedCallsPass(b: Bucket, before: seq<real>, now: real)
    requires Sound(b) && b.capacity >= 1.0 && b.rps > 0.0
    requires ClockRuns([b.last] + before) && now - ([b.last] + before)[|before|] >= 1.0 / b.rps
    ensures Allows(After(b, before), now)
  {
    var previous := ([b.last] + before)[|before|];
    var all := [b.last] + before + [previous];
    forall i, j | 0 <= i < j < |all| ensures all[i] <= all[j] {
      assert j < |before| + 1 ==> all[j] == ([b.last] + before)[j];
      assert i < |before| + 1 ==> all[i] == ([b.last] + before)[i];
    }
    ReachesBefore(b, before, previous);
    WaitPays(After(b, before), now);
  }

  lemma WaitPays(b: Bucket, now: real)
    requires Sound(b) && b.capacity >= 1.0 && b.rps > 0.0 && now - b.last >= 1.0 / b.rps
    ensures Allows(b, now)
  {
    var wait := 1.0 / b.rps;
    assert wait * b.rps == 1.0;
    Product(now - b.last - wait, b.rps);
    assert (now - b.last) * b.rps == (now - b.last - wait) * b.rps + wait * b.rps;
  }

  // ---------------------------------------------------------------------------------------
  // The per-IP table
  // ---------------------------------------------------------------------------------------

  datatype Limits = Limits(rps: real, burst: real, ttl: real)

  datatype Limiter = Limiter(bucket: Bucket, lastSeen: real)

  type Table<!Ip> = map<Ip, Limiter>

  /** A request reads the clock more than once: `seen` is the later reading.  The cleanup goes
      through the table bit by bit while requests go on; `Sweep` is its look at one address, and
      `now` the one clock reading it took when it began. */
  datatype Event<Ip> = Request(ip: Ip, now: real, seen: real) | Sweep(ip: Ip, now: real)

  function BucketFor<Ip>(l: Limits, t: Table<Ip>, ip: Ip, now: real): Bucket {
    if ip in t then t[ip].bucket else NewBucket(l.rps, l.burst, now)
  }

  predicate Decision<Ip>(l: Limits, t: Table<Ip>, ip: Ip, now: real) { Allows(BucketFor(l, t, ip, now), now) }

  function AfterEvent<Ip>(l: Limits, t: Table<Ip>, e: Event<Ip>, evicting: bool): Table<Ip> {
    match e
    case Request(ip, now, seen) => t[ip := Limiter(AfterAllow(BucketFor(l, t, ip, now), now), seen)]
    case Sweep(ip, now) => if evicting && ip in t && Since(now, t[ip].lastSeen) >= l.ttl then t - {ip} else t
  }

  /** What a cleanup with one clock reading leaves if no request comes between. */
  function Kept<Ip>(l: Limits, t: Table<Ip>, now: real): Table<Ip> {
    map ip | ip in t && Since(now, t[ip].lastSeen) < l.ttl :: t[ip]
  }

  class IpLimiters<Ip(==)> {
    const l: Limits
    var table: Table<Ip>

    constructor (l: Limits)
      ensures this.l == l && table == map[]
    {
      this.l, table := l, map[];
    }

    method CheckIpRateLimit(ip: Ip, now: real, seen: real) returns (allow: bool)
      modifies this
      ensures allow == Decision(l, old(table), ip, now)
      ensures table == AfterEvent(l, old(table), Request(ip, now, seen), true)
    {
      if ip !in table {
        table := table[ip := Limiter(NewBucket(l.rps, l.burst, now), now)];
      }
      var bucket := table[ip].bucket;
      allow := Allows(bucket, now);
      table := table[ip := Limiter(AfterAllow(bucket, now), seen)];
    }

    method CleanupIpLimiters(now: real) returns (removed: nat)
      modifies this
      ensures table == Kept(l, old(table), now)
      ensures removed == |old(table).Keys| - |table.Keys|
    {
      removed := 0;
      var todo := table.Keys;
      while todo != {}
        invariant todo <= table.Keys <= old(table).Keys
        invariant forall ip | ip in table :: table[ip] == old(table)[ip] && (ip in todo || Since(now, table[ip].lastSeen) < l.ttl)
        invariant forall ip | ip in old(table) && ip !in table :: Since(now, old(table)[ip].lastSeen) >= l.ttl
        invariant removed == |old(table).Keys| - |table.Keys|
        decreases todo
      {
        var ip :| ip in todo;
        if Since(now, table[ip].lastSeen) >= l.ttl {
          var rest := table - {ip};
          assert rest.Keys == table.Keys - {ip};
          table := rest;
          removed := removed + 1;
        }
        todo := todo - {ip};
      }
    }
  }

  // ---------------------------------------------------------------------------------------
  // Eviction is invisible
  // ---------------------------------------------------------------------------------------

  function Run<Ip>(l: Limits, es: seq<Event<Ip>>, evicting: bool): Table<Ip> {
    if es == [] then map[] else AfterEvent(l, Run(l, es[..|es| - 1], evicting), es[|es| - 1], evicting)
  }

  /** The clock does not go back for a request.  A sweep's reading may be as old as it likes. */
  ghost predicate EventsInOrder<Ip>(es: seq<Event<Ip>>) {
    && (forall i, j | 0 <= i < j < |es| && es[j].Request? :: EndOf(es[i]) <= es[j].now)
    && (forall i | 0 <= i < |es| :: es[i].now <= EndOf(es[i]))
  }

  function EndOf<Ip>(e: Event<Ip>): real { if e.Request? then e.seen else e.now }

  /** Every request of the run gets the decision of a table that never evicts. */
  ghost predicate Invisible<Ip>(l: Limits, es: seq<Event<Ip>>) {
    forall k | 0 <= k < |es| && es[k].Request? ::
      Decision(l, Run(l, es[..k], true), es[k].ip, es[k].now) == Decision(l, Run(l, es[..k], false), es[k].ip, es[k].now)
  }

  /** b and c answer every request from `now` on alike: they hold the same, or both are full. */
  ghost predicate Alike(b: Bucket, c: Bucket, now: real) {
    && Sound(b) && Sound(c) && b.capacity == c.capacity && b.rps == c.rps && b.last <= now && c.last <= now
    && forall t | now <= t :: Level(b, t) == Level(c, t)
  }

  lemma LevelFull(b: Bucket, t: real, ttl: real)
    requires Sound(b) && t - b.last >= ttl >= 0.0 && ttl * b.rps >= b.capacity
    ensures Level(b, t) == b.capacity
  {
    Product(t - b.last - ttl, b.rps);
    assert (t - b.last - ttl) * b.rps == (t - b.last) * b.rps - ttl * b.rps;
  }

  lemma AlikeAfterAllow(b: Bucket, c: Bucket, now: real)
    requires Alike(b, c, now)
    ensures Allows(b, now) == Allows(c, now)
    ensures Alike(AfterAllow(b, now), AfterAllow(c, now), now)
  {
    assert Level(b, now) == Level(c, now);
    KeepsSound(b, now);
    KeepsSound(c, now);
  }

  lemma AlikeLater(b: Bucket, c: Bucket, now: real, later: real)
    requires Alike(b, c, now) && now <= later
    ensures Alike(b, c, later)
  {
  }

  predicate Proper(l: Limits) { 0.0 <= l.rps && 0.0 <= l.ttl }

  /** The simulation between the evicting and the never-evicting table at time `now`. */
  ghost predicate Simulates<Ip(!new)>(l: Limits, evicting: Table<Ip>, keeping: Table<Ip>, now: real) {
    && evicting.Keys <= keeping.Keys
    && (forall ip | ip in keeping :: SoundEntry(l, keeping[ip], now))
    && (forall ip | ip in evicting :: evicting[ip].lastSeen == keeping[ip].lastSeen
                                      && Alike(evicting[ip].bucket, keeping[ip].bucket, now))
    && (forall ip | ip in keeping && ip !in evicting :: Full(keeping[ip].bucket, now))
  }

  ghost predicate SoundEntry(l: Limits, e: Limiter, now: real) {
    Sound(e.bucket) && e.bucket.capacity == Max(l.burst, l.rps) && e.bucket.rps == l.rps && e.bucket.last <= e.lastSeen <= now
  }

  ghost predicate Full(b: Bucket, now: real) { forall t | now <= t :: Level(b, t) == b.capacity }

  lemma FreshAlike(l: Limits, b: Bucket, now: real)
    requires Proper(l) && Sound(b) && b.capacity == Max(l.burst, l.rps) && b.rps == l.rps && b.last <= now && Full(b, now)
    ensures Alike(NewBucket(l.rps, l.burst, now), b, now)
  {
    var f := NewBucket(l.rps, l.burst, now);
    forall t | now <= t ensures Level(f, t) == Level(b, t) {
      Product(Elapsed(f, t), f.rps);
    }
  }

  lemma SimulationRequest<Ip(!new)>(l: Limits, ev: Table<Ip>, kp: Table<Ip>, before: real, e: Event<Ip>)
    requires Proper(l) && Simulates(l, ev, kp, before) && e.Request? && before <= e.now <= e.seen
    ensures Decision(l, ev, e.ip, e.now) == Decision(l, kp, e.ip, e.now)
    ensures Simulates(l, AfterEvent(l, ev, e, true), AfterEvent(l, kp, e, false), e.seen)
  {
    var b, c := BucketFor(l, ev, e.ip, e.now), BucketFor(l, kp, e.ip, e.now);
    BucketsAlike(l, ev, kp, before, e);
    AlikeAfterAllow(b, c, e.now);
    KeepsSound(c, e.now);
    AlikeLater(AfterAllow(b, e.now), AfterAllow(c, e.now), e.now, e.seen);
  }

  lemma BucketsAlike<Ip(!new)>(l: Limits, ev: Table<Ip>, kp: Table<Ip>, before: real, e: Event<Ip>)
    requires Proper(l) && Simulates(l, ev, kp, before) && e.Request? && before <= e.now
    ensures var b, c := BucketFor(l, ev, e.ip, e.now), BucketFor(l, kp, e.ip, e.now);
            Alike(b, c, e.now) && c.capacity == Max(l.burst, l.rps) && c.rps == l.rps
  {
    if e.ip in ev {
      assert SoundEntry(l, kp[e.ip], before);
    } else if e.ip in kp {
      assert SoundEntry(l, kp[e.ip], before);
      FreshAlike(l, kp[e.ip].bucket, e.now);
    }
  }

  /** An address that the cleanup drops is full, even if its clock reading lies behind. */
  lemma SimulationSweep<Ip(!new)>(l: Limits, ev: Table<Ip>, kp: Table<Ip>, time: real, e: Event<Ip>)
    requires Proper(l) && l.ttl * l.rps >= Max(l.burst, l.rps) && Simulates(l, ev, kp, time) && e.Sweep? && e.now <= time
    ensures Simulates(l, AfterEvent(l, ev, e, true), AfterEvent(l, kp, e, false), time)
  {
    var ip := e.ip;
    if ip in ev && Since(e.now, ev[ip].lastSeen) >= l.ttl {
      assert SoundEntry(l, kp[ip], time);
      forall t | time <= t ensures Level(kp[ip].bucket, t) == kp[ip].bucket.capacity {
        LevelFull(kp[ip].bucket, t, l.ttl);
      }
      assert Full(kp[ip].bucket, time);
    }
  }

  lemma SimulatesLater<Ip(!new)>(l: Limits, ev: Table<Ip>, kp: Table<Ip>, time: real, later: real)
    requires Simulates(l, ev, kp, time) && time <= later
    ensures Simulates(l, ev, kp, later)
  {
    forall ip | ip in ev ensures Alike(ev[ip].bucket, kp[ip].bucket, later) {
      AlikeLater(ev[ip].bucket, kp[ip].bucket, time, later);
    }
  }

  lemma {:induction false} SimulationRun<Ip(!new)>(l: Limits, es: seq<Event<Ip>>, time: real)
    requires Proper(l) && l.ttl * l.rps >= Max(l.burst, l.rps) && EventsInOrder(es)
    requires forall i | 0 <= i < |es| :: EndOf(es[i]) <= time
    ensures Simulates(l, Run(l, es, true), Run(l, es, false), time)
  {
    if es != [] {
      var n := |es| - 1;
      var init, e := es[..n], es[n];
      var ev, kp := Run(l, init, true), Run(l, init, false);
      SimulationRun(l, init, if e.Request? then e.now else time);
      match e
      case Request(_, now, seen) =>
        SimulationRequest(l, ev, kp, now, e);
        SimulatesLater(l, AfterEvent(l, ev, e, true), AfterEvent(l, kp, e, false), seen, time);
      case Sweep(_, _) => SimulationSweep(l, ev, kp, time, e);
    }
  }

  /** Limiter eviction is invisible: for every timed sequence of requests from any addresses, with
      the cleanup's looks at single addresses anywhere between them, each decision is that of a
      table that never evicts. */
  lemma EvictionInvisible<Ip(!new)>(l: Limits, es: seq<Event<Ip>>)
    requires Proper(l) && l.ttl * l.rps >= Max(l.burst, l.rps) && EventsInOrder(es)
    ensures Invisible(l, es)
  {
    forall k | 0 <= k < |es| && es[k].Request?
      ensures Decision(l, Run(l, es[..k], true), es[k].ip, es[k].now) == Decision(l, Run(l, es[..k], false), es[k].ip, es[k].now)
    {
      SimulationRun(l, es[..k], es[k].now);
      SimulationRequest(l, Run(l, es[..k], true), Run(l, es[..k], false), es[k].now, es[k]);
    }
  }

  /** A cleanup that is not interrupted is a look at every address with the same reading. */
  lemma {:induction false} SweepsAddUp<Ip>(l: Limits, t: Table<Ip>, ips: seq<Ip>, now: real)
    requires t.Keys == (set ip | ip in ips)
    ensures SweepAll(l, t, ips, now) == Kept(l, t, now)
  {
    SweptSoFar(l, t, ips, now);
  }

  function SweepAll<Ip>(l: Limits, t: Table<Ip>, ips: seq<Ip>, now: real): Table<Ip> {
    if ips == [] then t else AfterEvent(l, SweepAll(l, t, ips[..|ips| - 1], now), Sweep(ips[|ips| - 1], now), true)
  }

  lemma {:induction false} SweptSoFar<Ip>(l: Limits, t: Table<Ip>, ips: seq<Ip>, now: real)
    ensures SweepAll(l, t, ips, now) == map ip | ip in t && (ip !in ips || Since(now, t[ip].lastSeen) < l.ttl) :: t[ip]
  {
    if ips != [] {
      var init, last := ips[..|ips| - 1], ips[|ips| - 1];
      SweptSoFar(l, t, init, now);
      assert forall ip :: ip in ips <==> ip in init || ip == last;
    }
  }

  // ---------------------------------------------------------------------------------------
  // Eviction shows otherwise
  // ---------------------------------------------------------------------------------------

  function Capacity(l: Limits): real { Max(l.burst, l.rps) }

  /** A table with one address, last seen at t with x tokens left. */
  function One<Ip>(l: Limits, ip: Ip, x: real, t: real): Table<Ip> {
    map[ip := Limiter(Bucket(Capacity(l), x, l.rps, t), t)]
  }

  function Call<Ip>(ip: Ip, t: real): Event<Ip> { Request(ip, t, t) }

  function Calls<Ip>(ip: Ip, t: real, n: nat): seq<Event<Ip>> { seq(n, _ => Call(ip, t)) }

  lemma RunSnoc<Ip>(l: Limits, es: seq<Event<Ip>>, e: Event<Ip>, evicting: bool)
    ensures Run(l, es + [e], evicting) == AfterEvent(l, Run(l, es, evicting), e, evicting)
  {
    assert (es + [e])[..|es|] == es;
  }

  lemma CallsSnoc<Ip>(es: seq<Event<Ip>>, ip: Ip, t: real, n: nat)
    ensures es + Calls(ip, t, n + 1) == es + Calls(ip, t, n) + [Call(ip, t)] && es + Calls(ip, t, 0) == es
  {
  }

  /** One call d after the last: `gain` has flowed in. */
  lemma OneCall<Ip>(l: Limits, ip: Ip, x: real, t: real, d: real, gain: real, evicting: bool)
    requires 0.0 <= x <= Capacity(l) && 0.0 <= d && gain == d * l.rps
    ensures var y := Min(x + gain, Capacity(l));
            && Decision(l, One(l, ip, x, t), ip, t + d) == (y >= 1.0)
            && AfterEvent(l, One(l, ip, x, t), Call(ip, t + d), evicting) == One(l, ip, if y >= 1.0 then y - 1.0 else y, t + d)
  {
    assert Elapsed(Bucket(Capacity(l), x, l.rps, t), t + d) == d;
  }

  lemma FirstCall<Ip>(l: Limits, ip: Ip, t: real, evicting: bool)
    requires Capacity(l) >= 1.0
    ensures Decision(l, map[], ip, t) && AfterEvent(l, map[], Call(ip, t), evicting) == One(l, ip, Capacity(l) - 1.0, t)
  {
  }

  ghost predicate ServedAt<Ip>(l: Limits, es: seq<Event<Ip>>, ip: Ip, t: real, k: nat, evicting: bool) {
    Decision(l, Run(l, es + Calls(ip, t, k), evicting), ip, t)
  }

  /** n calls at time t after the events es are all allowed. */
  ghost predicate Served<Ip>(l: Limits, es: seq<Event<Ip>>, ip: Ip, t: real, n: nat, evicting: bool) {
    forall k: nat | k < n :: ServedAt(l, es, ip, t, k, evicting)
  }

  lemma ServedSnoc<Ip>(l: Limits, es: seq<Event<Ip>>, ip: Ip, t: real, m: nat, evicting: bool)
    ensures Served(l, es, ip, t, m + 1, evicting) <==> Served(l, es, ip, t, m, evicting) && ServedAt(l, es, ip, t, m, evicting)
  {
  }

  /** A burst at time t is served exactly if there is a token for each call. */
  lemma {:induction false} Burst<Ip>(l: Limits, es: seq<Event<Ip>>, ip: Ip, x: real, t: real, n: nat, evicting: bool)
    requires Run(l, es, evicting) == One(l, ip, x, t) && 0.0 <= x <= Capacity(l)
    ensures Served(l, es, ip, t, n, evicting) <==> x >= n as real
    ensures x >= n as real ==> Run(l, es + Calls(ip, t, n), evicting) == One(l, ip, x - n as real, t)
  {
    CallsSnoc(es, ip, t, 0);
    if n > 0 {
      var m := n - 1;
      Burst(l, es, ip, x, t, m, evicting);
      ServedSnoc(l, es, ip, t, m, evicting);
      if x >= m as real { BurstStep(l, es, ip, x, t, m, evicting); }
    }
  }

  lemma BurstStep<Ip>(l: Limits, es: seq<Event<Ip>>, ip: Ip, x: real, t: real, m: nat, evicting: bool)
    requires m as real <= x <= Capacity(l) && Run(l, es + Calls(ip, t, m), evicting) == One(l, ip, x - m as real, t)
    ensures ServedAt(l, es, ip, t, m, evicting) <==> x >= (m + 1) as real
    ensures x >= (m + 1) as real ==> Run(l, es + Calls(ip, t, m + 1), evicting) == One(l, ip, x - (m + 1) as real, t)
  {
    CallsSnoc(es, ip, t, m);
    RunSnoc(l, es + Calls(ip, t, m), Call(ip, t), evicting);
    OneCall(l, ip, x - m as real, t, 0.0, 0.0, evicting);
  }

  /** The same from a table whose next call finds y tokens. */
  lemma BurstFrom<Ip>(l: Limits, es: seq<Event<Ip>>, ip: Ip, y: real, t: real, n: nat, evicting: bool)
    requires 0.0 <= y <= Capacity(l) && n >= 1
    requires Decision(l, Run(l, es, evicting), ip, t) == (y >= 1.0)
    requires y >= 1.0 ==> AfterEvent(l, Run(l, es, evicting), Call(ip, t), evicting) == One(l, ip, y - 1.0, t)
    ensures Served(l, es, ip, t, n, evicting) <==> y >= n as real
    ensures y >= n as real ==> Run(l, es + Calls(ip, t, n), evicting) == One(l, ip, y - n as real, t)
  {
    var start := es + [Call(ip, t)];
    CallsSnoc(es, ip, t, 0);
    assert ServedAt(l, es, ip, t, 0, evicting) <==> y >= 1.0;
    if y >= 1.0 {
      RunSnoc(l, es, Call(ip, t), evicting);
      Burst(l, start, ip, y - 1.0, t, n - 1, evicting);
      forall k: nat ensures es + Calls(ip, t, k + 1) == start + Calls(ip, t, k) { CallsCons(es, ip, t, k); }
      assert forall k: nat :: ServedAt(l, es, ip, t, k + 1, evicting) <==> ServedAt(l, start, ip, t, k, evicting);
      ServedCons(l, es, ip, t, n, evicting);
    }
  }

  lemma CallsCons<Ip>(es: seq<Event<Ip>>, ip: Ip, t: real, k: nat)
    ensures es + Calls(ip, t, k + 1) == es + [Call(ip, t)] + Calls(ip, t, k)
  {
    assert Calls(ip, t, k + 1) == [Call(ip, t)] + Calls(ip, t, k);
  }

  lemma ServedCons<Ip>(l: Limits, es: seq<Event<Ip>>, ip: Ip, t: real, n: nat, evicting: bool)
    requires n >= 1 && ServedAt(l, es, ip, t, 0, evicting)
    requires forall k: nat :: ServedAt(l, es, ip, t, k + 1, evicting) <==> ServedAt(l, es + [Call(ip, t)], ip, t, k, evicting)
    ensures Served(l, es, ip, t, n, evicting) <==> Served(l, es + [Call(ip, t)], ip, t, n - 1, evicting)
  {
    if Served(l, es, ip, t, n, evicting) {
      forall k: nat | k < n - 1 ensures ServedAt(l, es + [Call(ip, t)], ip, t, k, evicting) {
        assert ServedAt(l, es, ip, t, k + 1, evicting);
      }
    }
    if Served(l, es + [Call(ip, t)], ip, t, n - 1, evicting) {
      forall k: nat | k < n ensures ServedAt(l, es, ip, t, k, evicting) {
        if k > 0 { assert ServedAt(l, es + [Call(ip, t)], ip, t, k - 1, evicting); }
      }
    }
  }

  // Keeping events in order while a run is built.

  ghost predicate Until<Ip>(es: seq<Event<Ip>>, t: real) {
    EventsInOrder(es) && forall i | 0 <= i < |es| :: EndOf(es[i]) <= t
  }

  lemma UntilSnoc<Ip>(es: seq<Event<Ip>>, t: real, e: Event<Ip>)
    requires Until(es, t) && t <= e.now <= EndOf(e)
    ensures Until(es + [e], EndOf(e))
  {
    assert forall i | 0 <= i < |es| :: EndOf(es[i]) <= e.now;
  }

  lemma {:induction false} UntilCalls<Ip>(es: seq<Event<Ip>>, t: real, ip: Ip, u: real, n: nat)
    requires Until(es, t) && t <= u
    ensures Until(es + Calls(ip, u, n), u)
  {
    CallsSnoc(es, ip, u, 0);
    if n > 0 {
      UntilCalls(es, t, ip, u, n - 1);
      CallsSnoc(es, ip, u, n - 1);
      UntilSnoc(es + Calls(ip, u, n - 1), u, Call(ip, u));
    }
  }

  lemma Shows<Ip>(l: Limits, es: seq<Event<Ip>>, before: seq<Event<Ip>>, ip: Ip, t: real, after: seq<Event<Ip>>)
    requires es == before + [Call(ip, t)] + after
    requires Decision(l, Run(l, before, true), ip, t) != Decision(l, Run(l, before, false), ip, t)
    ensures !Invisible(l, es)
  {
    assert es[..|before|] == before && es[|before|] == Call(ip, t);
  }

  lemma SweepEvicts<Ip>(l: Limits, ip: Ip, x: real, t: real)
    requires 0.0 <= l.ttl
    ensures AfterEvent(l, One(l, ip, x, t), Sweep(ip, t + l.ttl), true) == map[]
    ensures AfterEvent(l, One(l, ip, x, t), Sweep(ip, t + l.ttl), false) == One(l, ip, x, t)
  {
  }

  lemma NothingBefore<Ip>(es: seq<Event<Ip>>)
    ensures [] + es == es
  {
  }

  lemma CallsInOrder<Ip>(ip: Ip, n: nat)
    ensures Until(Calls(ip, 0.0, n), 0.0)
  {
    UntilCalls([], 0.0, ip, 0.0, n);
    NothingBefore(Calls(ip, 0.0, n));
  }

  /** A full bucket is drained by n calls at time 0, in either table. */
  lemma Drained<Ip>(l: Limits, ip: Ip, n: nat, evicting: bool)
    requires n >= 1 && n as real <= Capacity(l)
    ensures Run(l, Calls(ip, 0.0, n), evicting) == One(l, ip, Capacity(l) - n as real, 0.0)
  {
    var none: seq<Event<Ip>> := [];
    assert none + Calls(ip, 0.0, n) == Calls(ip, 0.0, n) by { NothingBefore(Calls(ip, 0.0, n)); }
    FirstCall(l, ip, 0.0, evicting);
    BurstFrom(l, none, ip, Capacity(l), 0.0, n, evicting);
  }

  /** Without any refill a drained bucket comes back full once it is evicted. */
  lemma ShowsWithoutFlow<Ip>(l: Limits, ip: Ip) returns (es: seq<Event<Ip>>)
    requires l.rps == 0.0 && 0.0 <= l.ttl && Capacity(l) >= 1.0
    ensures EventsInOrder(es) && !Invisible(l, es)
  {
    var n, t := Capacity(l).Floor, l.ttl;
    var x := Capacity(l) - n as real;
    var first := Calls(ip, 0.0, n);
    var swept := first + [Sweep(ip, 0.0 + t)];
    Drained(l, ip, n, true);
    Drained(l, ip, n, false);
    SweepEvicts(l, ip, x, 0.0);
    RunSnoc(l, first, Sweep(ip, 0.0 + t), true);
    RunSnoc(l, first, Sweep(ip, 0.0 + t), false);
    FirstCall(l, ip, t, true);
    OneCall(l, ip, x, 0.0, t, 0.0, false);
    es := swept + [Call(ip, t)] + [];
    Shows(l, es, swept, ip, t, []);
    CallsInOrder(ip, n);
    UntilSnoc(first, 0.0, Sweep(ip, 0.0 + t));
    UntilSnoc(swept, t, Call(ip, t));
    assert es == swept + [Call(ip, t)];
  }

  /** The run that tells the tables apart: drain, wait d for one more token and take it, sweep
      after the time-to-live, drain again, wait d again. */
  function Prefix<Ip>(l: Limits, ip: Ip, n: nat, d: real): seq<Event<Ip>> {
    Calls(ip, 0.0, n) + [Call(ip, 0.0 + d)] + [Sweep(ip, 0.0 + d + l.ttl)]
  }

  /** n whole tokens fit, and waiting d brings the rest of a bucket up to one more. */
  ghost predicate Waits(l: Limits, n: nat, d: real) {
    && n >= 1 && n as real <= Capacity(l) < n as real + 1.0 && 0.0 <= d && 0.0 <= l.ttl && 0.0 <= l.rps
    && d * l.rps == 1.0 - (Capacity(l) - n as real)
  }

  lemma PrefixRun<Ip>(l: Limits, ip: Ip, n: nat, d: real, evicting: bool)
    requires Waits(l, n, d)
    ensures Run(l, Prefix(l, ip, n, d), evicting) == if evicting then map[] else One(l, ip, 0.0, d)
  {
    var first, x := Calls(ip, 0.0, n), Capacity(l) - n as real;
    var second := first + [Call(ip, 0.0 + d)];
    assert Run(l, second, evicting) == One(l, ip, 0.0, d) by {
      Drained(l, ip, n, evicting);
      OneCall(l, ip, x, 0.0, d, 1.0 - x, evicting);
      RunSnoc(l, first, Call(ip, 0.0 + d), evicting);
    }
    SweepEvicts(l, ip, 0.0, d);
    RunSnoc(l, second, Sweep(ip, 0.0 + d + l.ttl), evicting);
  }

  lemma PrefixInOrder<Ip>(l: Limits, ip: Ip, n: nat, d: real)
    requires 0.0 <= d && 0.0 <= l.ttl
    ensures Until(Prefix(l, ip, n, d), d + l.ttl)
  {
    var first := Calls(ip, 0.0, n);
    CallsInOrder(ip, n);
    UntilSnoc(first, 0.0, Call(ip, 0.0 + d));
    UntilSnoc(first + [Call(ip, 0.0 + d)], d, Sweep(ip, 0.0 + d + l.ttl));
  }

  lemma EvictedBurst<Ip>(l: Limits, ip: Ip, n: nat, d: real)
    requires Waits(l, n, d)
    ensures var prefix, t := Prefix(l, ip, n, d), d + l.ttl;
            && Served(l, prefix, ip, t, n, true)
            && Run(l, prefix + Calls(ip, t, n), true) == One(l, ip, Capacity(l) - n as real, t)
  {
    PrefixRun(l, ip, n, d, true);
    FirstCall(l, ip, d + l.ttl, true);
    BurstFrom(l, Prefix(l, ip, n, d), ip, Capacity(l), d + l.ttl, n, true);
  }

  lemma KeptBurst<Ip>(l: Limits, ip: Ip, n: nat, d: real, refilled: real)
    requires Waits(l, n, d) && refilled == l.ttl * l.rps && 0.0 <= refilled < Capacity(l)
    ensures var prefix, t := Prefix(l, ip, n, d), d + l.ttl;
            && (Served(l, prefix, ip, t, n, false) <==> refilled >= n as real)
            && (refilled >= n as real ==> Run(l, prefix + Calls(ip, t, n), false) == One(l, ip, refilled - n as real, t))
  {
    PrefixRun(l, ip, n, d, false);
    OneCall(l, ip, 0.0, d, l.ttl, refilled, false);
    BurstFrom(l, Prefix(l, ip, n, d), ip, refilled, d + l.ttl, n, false);
  }

  /** If both tables serve the second burst, the one that kept its bucket has less left. */
  lemma LastCallShows<Ip>(l: Limits, es: seq<Event<Ip>>, ip: Ip, n: nat, d: real, t: real, refilled: real)
    requires Waits(l, n, d) && n as real <= refilled < Capacity(l)
    requires Run(l, es, true) == One(l, ip, Capacity(l) - n as real, t) && Run(l, es, false) == One(l, ip, refilled - n as real, t)
    ensures !Invisible(l, es + [Call(ip, t + d)])
  {
    var x := Capacity(l) - n as real;
    OneCall(l, ip, x, t, d, 1.0 - x, true);
    OneCall(l, ip, refilled - n as real, t, d, 1.0 - x, false);
    assert es + [Call(ip, t + d)] == es + [Call(ip, t + d)] + [];
    Shows(l, es + [Call(ip, t + d)], es, ip, t + d, []);
  }

  lemma BurstShows<Ip>(l: Limits, es: seq<Event<Ip>>, ip: Ip, t: real, n: nat, e: Event<Ip>)
    requires Served(l, es, ip, t, n, true) && !Served(l, es, ip, t, n, false)
    ensures !Invisible(l, es + Calls(ip, t, n) + [e])
  {
    var k: nat :| k < n && !ServedAt(l, es, ip, t, k, false);
    assert ServedAt(l, es, ip, t, k, true);
    var rest := Calls(ip, t, n - k - 1) + [e];
    assert Calls(ip, t, n) == Calls(ip, t, k) + [Call(ip, t)] + Calls(ip, t, n - k - 1);
    assert es + Calls(ip, t, n) + [e] == es + Calls(ip, t, k) + [Call(ip, t)] + rest;
    Shows(l, es + Calls(ip, t, n) + [e], es + Calls(ip, t, k), ip, t, rest);
  }

  lemma ShowsWithFlow<Ip>(l: Limits, ip: Ip, n: nat, d: real) returns (es: seq<Event<Ip>>)
    requires Waits(l, n, d) && l.ttl * l.rps < Capacity(l)
    ensures EventsInOrder(es) && !Invisible(l, es)
  {
    var prefix, t, refilled := Prefix(l, ip, n, d), d + l.ttl, l.ttl * l.rps;
    Product(l.ttl, l.rps);
    EvictedBurst(l, ip, n, d);
    KeptBurst(l, ip, n, d, refilled);
    var drained := prefix + Calls(ip, t, n);
    es := drained + [Call(ip, t + d)];
    PrefixInOrder(l, ip, n, d);
    UntilCalls(prefix, t, ip, t, n);
    UntilSnoc(drained, t, Call(ip, t + d));
    if refilled >= n as real {
      LastCallShows(l, drained, ip, n, d, t, refilled);
    } else {
      BurstShows(l, prefix, ip, t, n, Call(ip, t + d));
    }
  }

  lemma {:induction false} SoundEntries<Ip>(l: Limits, es: seq<Event<Ip>>, evicting: bool)
    requires Proper(l)
    ensures forall ip | ip in Run(l, es, evicting) ::
              var b := Run(l, es, evicting)[ip].bucket; Sound(b) && b.capacity == Capacity(l)
  {
    if es != [] {
      SoundEntries(l, es[..|es| - 1], evicting);
      match es[|es| - 1]
      case Request(ip, now, _) => KeepsSound(BucketFor(l, Run(l, es[..|es| - 1], evicting), ip, now), now);
      case Sweep(_, _) =>
    }
  }

  lemma NeverAllows<Ip>(l: Limits, es: seq<Event<Ip>>, ip: Ip, now: real, evicting: bool)
    requires Proper(l) && Capacity(l) < 1.0
    ensures !Decision(l, Run(l, es, evicting), ip, now)
  {
    SoundEntries(l, es, evicting);
    KeepsSound(BucketFor(l, Run(l, es, evicting), ip, now), now);
  }

  /** Eviction is invisible in every run, exactly if the buckets can never hold a whole token or
      the time-to-live is long enough to fill one. */
  lemma EvictionExact<Ip(!new)>(l: Limits, ip: Ip)
    requires Proper(l)
    ensures (forall es: seq<Event<Ip>> | EventsInOrder(es) :: Invisible(l, es))
            <==> Capacity(l) < 1.0 || l.ttl * l.rps >= Capacity(l)
  {
    if Capacity(l) < 1.0 {
      forall es: seq<Event<Ip>> | EventsInOrder(es) ensures Invisible(l, es) {
        forall k | 0 <= k < |es| && es[k].Request? ensures
          Decision(l, Run(l, es[..k], true), es[k].ip, es[k].now) == Decision(l, Run(l, es[..k], false), es[k].ip, es[k].now)
        {
          NeverAllows(l, es[..k], es[k].ip, es[k].now, true);
          NeverAllows(l, es[..k], es[k].ip, es[k].now, false);
        }
      }
    } else if l.ttl * l.rps >= Capacity(l) {
      forall es: seq<Event<Ip>> | EventsInOrder(es) ensures Invisible(l, es) { EvictionInvisible(l, es); }
    } else if l.rps == 0.0 {
      var es := ShowsWithoutFlow(l, ip);
    } else {
      var n := Capacity(l).Floor;
      var need := 1.0 - (Capacity(l) - n as real);
      var d := need / l.rps;
      Wait(need, l.rps);
      var es := ShowsWithFlow(l, ip, n, d);
    }
  }

  lemma Wait(need: real, rps: real)
    requires need >= 0.0 && rps > 0.0
    ensures need / rps >= 0.0 && (need / rps) * rps == need
  {
  }
}
