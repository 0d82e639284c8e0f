/** The node's session table (state.rs): touching, updating, removing, and the idle sweep. */
module Sessions {
  import opened Texts

  datatype Session<P> = Session(lastSeen: int, focusMomentum: Option<real>, timeOrientation: Option<P>)

  datatype ExpireStats = ExpireStats(expired: nat, skippedLocks: nat, scanned: nat)

  /** `checked_duration_since(...).unwrap_or(ZERO)`. */
  function IdleTime(now: int, lastSeen: int): int { if now >= lastSeen then now - lastSeen else 0 }

  function NewSession<P>(now: int): Session<P> { Session(now, None, None) }

  function Touched<P>(s: Session<P>, now: int): Session<P> { s.(lastSeen := now) }

  function Oriented<P>(s: Session<P>, focus: Option<real>, orientation: Option<P>, now: int): Session<P> {
    Session(now, if focus.Some? then focus else s.focusMomentum, if orientation.Some? then orientation else s.timeOrientation)
  }

  /** The table after a touch; a session that is not there is created. */
  function AfterTouch<Id, P>(m: map<Id, Session<P>>, id: Id, now: int): map<Id, Session<P>> {
    m[id := if id in m then Touched(m[id], now) else NewSession(now)]
  }

  /** The keys one look at time `now` finds idle; `busy` are the sessions whose lock is held. */
  ghost function IdleKeys<Id, P>(m: map<Id, Session<P>>, busy: set<Id>, now: int, ttl: int): set<Id> {
    set id | id in m && id !in busy && IdleTime(now, m[id].lastSeen) >= ttl
  }

  /** A session is idle when the time-to-live has passed since it was last seen; a clock that runs
      behind `lastSeen` counts as no time at all. */
  lemma IdleKeysExact<Id, P>(m: map<Id, Session<P>>, busy: set<Id>, now: int, ttl: int, id: Id)
    ensures id in IdleKeys(m, busy, now, ttl) <==>
            id in m && id !in busy && (now - m[id].lastSeen >= ttl || ttl <= 0)
  {
  }

  /** The keys that two looks, one after the other, find idle. */
  ghost function TwiceIdle<Id, P>(m: map<Id, Session<P>>, busyFirst: set<Id>, firstNow: int, busyThen: set<Id>, confirmNow: int, ttl: int): set<Id> {
    IdleKeys(m, busyFirst, firstNow, ttl) * IdleKeys(m, busyThen, confirmNow, ttl)
  }

  lemma SubtractOne<K, V>(m: map<K, V>, gone: set<K>, k: K)
    ensures m - (gone + {k}) == (m - gone) - {k}
  {
  }

  /** One element of `todo` is dealt with. */
  lemma OneLess<K>(all: set<K>, todo: set<K>, k: K)
    requires k in todo
    ensures all - (todo - {k}) == if k in all then (all - todo) + {k} else all - todo
    ensures |all - (todo - {k})| == |all - todo| + if k in all then 1 else 0
  {
  }

  class LtpNodeState<Id(==), P> {
    var sessions: map<Id, Session<P>>

    constructor ()
      ensures sessions == map[]
    {
      sessions := map[];
    }

    /** `made` and `now` are the clock readings at creation and under the lock. */
    method TouchHeartbeat(id: Id, made: int, now: int) returns (created: bool)
      modifies this
      ensures created <==> id !in old(sessions)
      ensures sessions == AfterTouch(old(sessions), id, now)
      ensures sessions.Keys == old(sessions).Keys + {id} && sessions[id].lastSeen == now
      ensures created ==> sessions[id].focusMomentum == None && sessions[id].timeOrientation == None
      ensures !created ==> sessions[id].focusMomentum == old(sessions)[id].focusMomentum
                           && sessions[id].timeOrientation == old(sessions)[id].timeOrientation
    {
      created := false;
      if id !in sessions {
        created := true;
        sessions := sessions[id := NewSession(made)];
      }
      sessions := sessions[id := Touched(sessions[id], now)];
    }

    method UpdateOrientation(id: Id, focus: Option<real>, orientation: Option<P>, made: int, now: int)
      returns (created: bool)
      modifies this
      ensures created <==> id !in old(sessions)
      ensures sessions == old(sessions)[id :=
        if created then Session(now, focus, orientation) else Oriented(old(sessions)[id], focus, orientation, now)]
      ensures sessions[id].lastSeen == now
      ensures focus.Some? || created ==> sessions[id].focusMomentum == focus
      ensures orientation.Some? || created ==> sessions[id].timeOrientation == orientation
      ensures focus.None? && !created ==> sessions[id].focusMomentum == old(sessions)[id].focusMomentum
      ensures orientation.None? && !created ==> sessions[id].timeOrientation == old(sessions)[id].timeOrientation
    {
      created := false;
      if id !in sessions {
        created := true;
        sessions := sessions[id := NewSession(made)];
      }
      var guard := sessions[id];
      if focus.Some? { guard := guard.(focusMomentum := focus); }
      if orientation.Some? { guard := guard.(timeOrientation := orientation); }
      sessions := sessions[id := Touched(guard, now)];
    }

    method Remove(id: Id) returns (removed: bool)
      modifies this
      ensures removed <==> id in old(sessions)
      ensures sessions == old(sessions) - {id}
    {
      removed := id in sessions;
      sessions := sessions - {id};
    }

    /** The first pass: looks at every session that is not locked and collects the idle ones. */
    method FirstPass(now: int, ttl: int, busy: set<Id>) returns (keys: set<Id>, scanned: nat, skipped: nat)
      ensures keys == IdleKeys(sessions, busy, now, ttl)
      ensures scanned == |sessions| && skipped == |busy * sessions.Keys|
    {
      scanned, skipped, keys := 0, 0, {};
      var todo := sessions.Keys;
      ghost var idle, locked := IdleKeys(sessions, busy, now, ttl), busy * sessions.Keys;
      while todo != {}
        invariant todo <= sessions.Keys && scanned == |sessions.Keys| - |todo|
        invariant skipped == |locked - todo| && keys == idle - todo
        decreases todo
      {
        var id :| id in todo;
        OneLess(idle, todo, id);
        OneLess(locked, todo, id);
        scanned := scanned + 1;
        if id in busy {
          skipped := skipped + 1;
        } else if IdleTime(now, sessions[id].lastSeen) >= ttl {
          keys := keys + {id};
        }
        todo := todo - {id};
      }
      assert locked - todo == locked && idle - todo == idle;
    }

    /** The second pass: looks at each collected key again and removes it if it is still idle. */
    method ConfirmPass(candidates: set<Id>, now: int, ttl: int, busy: set<Id>) returns (expired: nat, skipped: nat)
      modifies this
      ensures var gone := candidates * IdleKeys(old(sessions), busy, now, ttl);
              sessions == old(sessions) - gone && expired == |gone|
      ensures skipped == |candidates * old(sessions).Keys * busy|
    {
      expired, skipped := 0, 0;
      var keys := candidates;
      ghost var idle, locked := candidates * IdleKeys(sessions, busy, now, ttl), candidates * sessions.Keys * busy;
      ghost var before := sessions;
      assert before - (idle - keys) == before;
      while keys != {}
        invariant keys <= candidates && sessions == before - (idle - keys)
        invariant expired == |idle - keys| && skipped == |locked - keys|
        decreases keys
      {
        var id :| id in keys;
        OneLess(idle, keys, id);
        OneLess(locked, keys, id);
        SubtractOne(before, idle - keys, id);
        assert id in sessions <==> id in before;
        if id in sessions {
          if id in busy {
            skipped := skipped + 1;
          } else if IdleTime(now, sessions[id].lastSeen) >= ttl {
            sessions := sessions - {id};
            expired := expired + 1;
          }
        }
        keys := keys - {id};
      }
      assert idle - keys == idle && locked - keys == locked;
    }

    /** The sweep with nothing in between its passes: exactly the sessions that both looks find
        idle and unlocked go, and `expired` is their number. */
    method ExpireIdle(firstNow: int, confirmNow: int, ttl: int, busyFirst: set<Id>, busyThen: set<Id>)
      returns (stats: ExpireStats)
      modifies this
      ensures var first := IdleKeys(old(sessions), busyFirst, firstNow, ttl);
              var gone := TwiceIdle(old(sessions), busyFirst, firstNow, busyThen, confirmNow, ttl);
              && sessions == old(sessions) - gone
              && stats.expired == |gone|
              && stats.scanned == |old(sessions)|
              && stats.skippedLocks == |busyFirst * old(sessions).Keys| + |first * busyThen|
    {
      var keys, scanned, skippedFirst := FirstPass(firstNow, ttl, busyFirst);
      assert keys * sessions.Keys * busyThen == keys * busyThen;
      var expired, skippedThen := ConfirmPass(keys, confirmNow, ttl, busyThen);
      stats := ExpireStats(expired, skippedFirst + skippedThen, scanned);
    }
  }
}
