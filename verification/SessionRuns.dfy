/** The session table's operations as uninterrupted runs of the node's steps: what the class of
    Sessions does in one call is what Admission's tasks and janitor do when nobody comes between. */
module SessionRuns {
  import opened Sessions
  import opened Admission

  function Iterate<S, E>(step: (S, E) -> S, s: S, es: seq<E>): S {
    if es == [] then s else step(Iterate(step, s, es[..|es| - 1]), es[|es| - 1])
  }

  lemma IterateSnoc<S, E>(step: (S, E) -> S, s: S, es: seq<E>, e: E)
    ensures Iterate(step, s, es + [e]) == step(Iterate(step, s, es), e)
  {
    assert (es + [e])[..|es|] == es;
  }

  lemma {:induction false} IterateJoin<S, E>(step: (S, E) -> S, s: S, es: seq<E>, fs: seq<E>)
    ensures Iterate(step, s, es + fs) == Iterate(step, Iterate(step, s, es), fs)
  {
    if fs == [] {
      assert es + fs == es;
    } else {
      var init, last := fs[..|fs| - 1], fs[|fs| - 1];
      IterateJoin(step, s, es, init);
      IterateSnoc(step, s, es + init, last);
      assert es + fs == es + init + [last];
    }
  }

  lemma IterateThree<S, E>(step: (S, E) -> S, s: S, a: E, b: E, d: E)
    ensures Iterate(step, s, [a, b, d]) == step(step(step(s, a), b), d)
  {
    IterateOne(step, s, a);
    IterateSnoc(step, s, [a], b);
    IterateSnoc(step, s, [a, b], d);
    assert [a] + [b] == [a, b] && [a, b] + [d] == [a, b, d];
  }

  lemma IterateOne<S, E>(step: (S, E) -> S, s: S, e: E)
    ensures Iterate(step, s, [e]) == step(s, e)
  {
    assert [e][..0] == [];
  }

  function Steps(c: Config): (Node, Event) -> Node { (s, e) => Step(c, s, e) }

  /** The node after a run from any state. */
  function RunFrom(c: Config, s: Node, es: seq<Event>): Node { Iterate(Steps(c), s, es) }

  lemma {:induction false} RunFromStart(c: Config, es: seq<Event>)
    ensures RunFrom(c, EMPTY, es) == Run(c, es)
  {
    if es != [] { RunFromStart(c, es[..|es| - 1]); }
  }

  /** Every session has an object of its own. */
  ghost predicate Sound(s: Node) {
    && (forall id | id in s.sessions :: s.sessions[id] < |s.cells|)
    && (forall a, b | a in s.sessions && b in s.sessions && a != b :: s.sessions[a] != s.sessions[b])
  }

  lemma TaskSound(c: Config, s: Node, id: Id, a: Act)
    requires Sound(s)
    ensures Sound(TaskStep(c, s, id, a))
  {
    TaskSessions(c, s, id, a);
  }

  lemma StepSound(c: Config, s: Node, e: Event)
    requires Sound(s)
    ensures Sound(Step(c, s, e))
  {
    match e
    case Tick(_) =>
    case Task(id, a) => TaskSound(c, s, id, a);
    case Sweep(m) => SweepIsLocal(c, s, m);
  }

  lemma {:induction false} RunSound(c: Config, es: seq<Event>)
    ensures Sound(Run(c, es))
  {
    if es != [] {
      RunSound(c, es[..|es| - 1]);
      StepSound(c, Run(c, es[..|es| - 1]), es[|es| - 1]);
    }
  }

  /** What the tasks put on a session has no part in admission. */
  type Payload = bool

  /** The node's table as the class has it. */
  ghost function Table(s: Node): map<Id, Session<Payload>>
    requires Sound(s)
  {
    map id | id in s.sessions :: NewSession(s.cells[s.sessions[id]])
  }

  ghost function Busy(s: Node): set<Id> { set id | id in s.sessions && Locked(s, s.sessions[id]) }

  // ---------------------------------------------------------------------------------------
  // Touching and removing
  // ---------------------------------------------------------------------------------------

  /** The object a task gets for its session, and the node then. */
  function CellFor(s: Node, id: Id): nat { if id in s.sessions then s.sessions[id] else |s.cells| }

  function EnteredNode(s: Node, id: Id): Node {
    if id in s.sessions then s else s.(sessions := s.sessions[id := |s.cells|], cells := s.cells + [s.clock])
  }

  lemma EnterIs(c: Config, s: Node, id: Id)
    requires PhaseOf(s, id).Ready?
    ensures Step(c, s, Task(id, Enter)) == At(EnteredNode(s, id), id, Entered(CellFor(s, id), id !in s.sessions))
  {
  }

  lemma AcquireIs(c: Config, s: Node, id: Id, cell: nat, created: bool)
    requires !Locked(s, cell)
    ensures Step(c, At(s, id, Entered(cell, created)), Task(id, Acquire)) == At(s, id, Holding(cell, created))
  {
    var t := At(s, id, Entered(cell, created));
    forall x | x in t.tasks ensures !(t.tasks[x].Holding? && t.tasks[x].cell == cell) {
      assert x != id ==> x in s.tasks && s.tasks[x] == t.tasks[x];
    }
    assert t.tasks[id := Holding(cell, created)] == s.tasks[id := Holding(cell, created)];
  }

  lemma BumpIs(c: Config, s: Node, id: Id, cell: nat, created: bool)
    requires cell < |s.cells|
    ensures Step(c, At(s, id, Holding(cell, created)), Task(id, Bump)) ==
            At(s, id, if created then Checking else Ready).(cells := s.cells[cell := s.clock])
  {
    var t, p := At(s, id, Holding(cell, created)), if created then Checking else Ready;
    assert t.tasks[id := p] == s.tasks[id := p];
  }

  lemma EnteredSound(s: Node, id: Id)
    requires Sound(s)
    ensures var t := EnteredNode(s, id); Sound(t) && id in t.sessions && t.sessions[id] == CellFor(s, id)
  {
  }

  lemma EnteredSeen(s: Node, id: Id)
    requires Sound(s) && Sound(EnteredNode(s, id))
    ensures AfterTouch(Table(EnteredNode(s, id)), id, s.clock) == AfterTouch(Table(s), id, s.clock)
  {
  }

  lemma BumpedSeen(s: Node, id: Id)
    requires Sound(s) && id in s.sessions
    ensures var t := s.(cells := s.cells[s.sessions[id] := s.clock]);
            Sound(t) && Table(t) == AfterTouch(Table(s), id, s.clock)
  {
  }

  /** `touch_heartbeat` without interruption: the session is seen now, and is checked for
      capacity exactly if it was created. */
  lemma TouchRefines(c: Config, s: Node, id: Id)
    requires Sound(s) && PhaseOf(s, id).Ready? && !Locked(s, CellFor(s, id))
    ensures var t := RunFrom(c, s, [Task(id, Enter), Task(id, Acquire), Task(id, Bump)]);
            && Sound(t) && Table(t) == AfterTouch(Table(s), id, s.clock)
            && PhaseOf(t, id) == if id in s.sessions then Ready else Checking
  {
    var e, cell, created := EnteredNode(s, id), CellFor(s, id), id !in s.sessions;
    IterateThree(Steps(c), s, Task(id, Enter), Task(id, Acquire), Task(id, Bump));
    EnterIs(c, s, id);
    EnteredSound(s, id);
    EnteredSeen(s, id);
    assert !Locked(e, cell) by { assert e.tasks == s.tasks && e.janitor == s.janitor; }
    AcquireIs(c, e, id, cell, created);
    BumpIs(c, e, id, cell, created);
    BumpedSeen(e, id);
    SameSeen(e.(cells := e.cells[cell := e.clock]), At(e, id, if created then Checking else Ready).(cells := e.cells[cell := e.clock]));
  }

  lemma SameSeen(s: Node, t: Node)
    requires Sound(s) && t.sessions == s.sessions && t.cells == s.cells
    ensures Sound(t) && Table(t) == Table(s)
  {
  }

  /** Disconnecting: the session is gone, and the gauge is owed a decrement exactly if it was
      there. */
  lemma RemoveRefines(c: Config, s: Node, id: Id)
    requires Sound(s) && PhaseOf(s, id).Ready?
    ensures var t := Step(c, s, Task(id, Remove));
            Sound(t) && Table(t) == Table(s) - {id} && (PhaseOf(t, id).Leaving? <==> id in s.sessions)
  {
    var t := Step(c, s, Task(id, Remove));
    assert t.sessions == s.sessions - {id} && t.cells == s.cells;
    WithoutSeen(s, t, id);
  }

  lemma WithoutSeen(s: Node, t: Node, id: Id)
    requires Sound(s) && t.sessions == s.sessions - {id} && t.cells == s.cells
    ensures Sound(t) && Table(t) == Table(s) - {id}
  {
  }

  // ---------------------------------------------------------------------------------------
  // Sweeping
  // ---------------------------------------------------------------------------------------

  function Scans(ids: seq<Id>): seq<Event> {
    if ids == [] then [] else Scans(ids[..|ids| - 1]) + [Sweep(Scan(ids[|ids| - 1]))]
  }

  function Elements(ids: seq<Id>): set<Id> { set id | id in ids }

  /** The janitor's look at a key finds it idle. */
  ghost predicate Idle(c: Config, s: Node, id: Id, now: int) { id in s.sessions && Stale(c, s, s.sessions[id], now) }

  /** Nothing the look depends on has changed but, perhaps, other keys. */
  lemma SameLook(c: Config, s: Node, t: Node, id: Id, now: int)
    requires t.cells == s.cells && t.tasks == s.tasks
    requires (forall cell :: !JanitorHolds(s.janitor, cell)) && (forall cell :: !JanitorHolds(t.janitor, cell))
    requires id in s.sessions <==> id in t.sessions
    requires id in s.sessions ==> t.sessions[id] == s.sessions[id]
    ensures Idle(c, t, id, now) == Idle(c, s, id, now)
  {
    if id in s.sessions { assert TaskHolds(t, s.sessions[id]) == TaskHolds(s, s.sessions[id]); }
  }

  lemma IdleIsIdle(c: Config, s: Node, now: int)
    requires Sound(s)
    ensures forall id :: Idle(c, s, id, now) <==> id in IdleKeys(Table(s), Busy(s), now, c.idleTtl)
  {
  }

  lemma ScanIs(c: Config, s: Node, id: Id)
    requires s.janitor.Scanning?
    ensures Step(c, s, Sweep(Scan(id))) ==
            if Idle(c, s, id, s.janitor.now) then s.(janitor := Scanning(s.janitor.now, s.janitor.keys + {id})) else s
  {
  }

  ghost function OnlyIdle(c: Config, s: Node, ids: set<Id>, now: int): set<Id> { set id | id in ids && Idle(c, s, id, now) }

  /** The first pass over any enumeration of keys. */
  lemma {:induction false} ScanPass(c: Config, s: Node, ids: seq<Id>)
    requires s.janitor.Scanning?
    ensures RunFrom(c, s, Scans(ids)) ==
            s.(janitor := Scanning(s.janitor.now, s.janitor.keys + OnlyIdle(c, s, Elements(ids), s.janitor.now)))
  {
    var now, keys := s.janitor.now, s.janitor.keys;
    if ids == [] {
      assert keys + OnlyIdle(c, s, Elements(ids), now) == keys;
    } else {
      var init, last := ids[..|ids| - 1], ids[|ids| - 1];
      ScanPass(c, s, init);
      IterateSnoc(Steps(c), s, Scans(init), Sweep(Scan(last)));
      var t := RunFrom(c, s, Scans(init));
      ScanIs(c, t, last);
      SameLook(c, s, t, last, now);
      assert Elements(ids) == Elements(init) + {last};
      assert OnlyIdle(c, s, Elements(ids), now) == OnlyIdle(c, s, Elements(init), now) + if Idle(c, s, last, now) then {last} else {};
      assert keys + OnlyIdle(c, s, Elements(ids), now)
             == keys + OnlyIdle(c, s, Elements(init), now) + if Idle(c, s, last, now) then {last} else {};
    }
  }

  function Visit(id: Id): seq<Event> { [Sweep(Fetch(id)), Sweep(Inspect), Sweep(Drop)] }

  function Visits(ids: seq<Id>): seq<Event> { if ids == [] then [] else Visits(ids[..|ids| - 1]) + Visit(ids[|ids| - 1]) }

  lemma FetchIs(c: Config, s: Node, id: Id)
    requires s.janitor.Confirming? && s.janitor.glance.Free? && id in s.janitor.keys
    ensures Step(c, s, Sweep(Fetch(id))) ==
            s.(janitor := s.janitor.(keys := s.janitor.keys - {id}, glance := if id in s.sessions then Fetched(id, s.sessions[id]) else Free))
  {
  }

  lemma InspectIs(c: Config, s: Node, id: Id)
    requires s.janitor.Confirming? && s.janitor.glance == if id in s.sessions then Fetched(id, s.sessions[id]) else Free
    ensures Step(c, s, Sweep(Inspect)) ==
            s.(janitor := s.janitor.(glance := if Idle(c, s, id, s.janitor.now) then Held(id, s.sessions[id]) else Free))
  {
  }

  lemma DropIs(c: Config, s: Node, id: Id)
    requires s.janitor.Confirming? && !s.janitor.glance.Fetched?
    requires s.janitor.glance.Held? ==> id in s.sessions && s.janitor.glance == Held(id, s.sessions[id])
    ensures Step(c, s, Sweep(Drop)) ==
            if s.janitor.glance.Held?
            then s.(sessions := s.sessions - {id}, janitor := s.janitor.(expired := s.janitor.expired + 1, glance := Free))
            else s
  {
  }

  /** The second pass, at one key: it goes exactly if it is idle. */
  lemma VisitOne(c: Config, s: Node, id: Id)
    requires s.janitor.Confirming? && s.janitor.glance.Free? && id in s.janitor.keys
    ensures var j := s.janitor;
            RunFrom(c, s, Visit(id)) ==
              if Idle(c, s, id, j.now)
              then s.(sessions := s.sessions - {id}, janitor := j.(keys := j.keys - {id}, expired := j.expired + 1))
              else s.(janitor := j.(keys := j.keys - {id}))
  {
    var j := s.janitor;
    IterateThree(Steps(c), s, Sweep(Fetch(id)), Sweep(Inspect), Sweep(Drop));
    FetchIs(c, s, id);
    var fetched := s.(janitor := j.(keys := j.keys - {id}, glance := if id in s.sessions then Fetched(id, s.sessions[id]) else Free));
    InspectIs(c, fetched, id);
    SameLook(c, s, fetched, id, j.now);
    var held := s.(janitor := j.(keys := j.keys - {id}, glance := if Idle(c, s, id, j.now) then Held(id, s.sessions[id]) else Free));
    DropIs(c, held, id);
  }

  /** What a visit to all of these keys makes of the node. */
  ghost function Visited(s: Node, ids: set<Id>, gone: set<Id>): Node
    requires s.janitor.Confirming?
  {
    s.(sessions := s.sessions - gone, janitor := s.janitor.(keys := s.janitor.keys - ids, expired := s.janitor.expired + |gone|))
  }

  lemma {:induction false} VisitPass(c: Config, s: Node, ids: seq<Id>)
    requires s.janitor.Confirming? && s.janitor.glance.Free? && Elements(ids) <= s.janitor.keys
    requires forall i, k | 0 <= i < k < |ids| :: ids[i] != ids[k]
    ensures RunFrom(c, s, Visits(ids)) == Visited(s, Elements(ids), OnlyIdle(c, s, Elements(ids), s.janitor.now))
  {
    var j := s.janitor;
    if ids == [] {
      VisitedNone(s);
      assert Elements(ids) == {} && OnlyIdle(c, s, Elements(ids), j.now) == {};
    } else {
      var init, last := ids[..|ids| - 1], ids[|ids| - 1];
      assert Elements(ids) == Elements(init) + {last} && last !in Elements(init);
      VisitPass(c, s, init);
      IterateJoin(Steps(c), s, Visits(init), Visit(last));
      VisitNext(c, s, Elements(init), last);
    }
  }

  lemma VisitNext(c: Config, s: Node, ids: set<Id>, id: Id)
    requires s.janitor.Confirming? && s.janitor.glance.Free? && ids + {id} <= s.janitor.keys && id !in ids
    ensures RunFrom(c, Visited(s, ids, OnlyIdle(c, s, ids, s.janitor.now)), Visit(id)) ==
            Visited(s, ids + {id}, OnlyIdle(c, s, ids + {id}, s.janitor.now))
  {
    var some := OnlyIdle(c, s, ids, s.janitor.now);
    var t := Visited(s, ids, some);
    VisitOne(c, t, id);
    SameLook(c, s, t, id, s.janitor.now);
    assert OnlyIdle(c, s, ids + {id}, s.janitor.now) == if Idle(c, s, id, s.janitor.now) then some + {id} else some;
    VisitedMore(s, ids, some, id);
  }

  lemma VisitedNone(s: Node)
    requires s.janitor.Confirming?
    ensures Visited(s, {}, {}) == s
  {
    assert s.sessions - {} == s.sessions && s.janitor.keys - {} == s.janitor.keys;
  }

  lemma VisitedMore(s: Node, ids: set<Id>, gone: set<Id>, id: Id)
    requires s.janitor.Confirming? && id !in gone
    ensures var t := Visited(s, ids, gone);
            var j := t.janitor;
            && Visited(s, ids + {id}, gone) == t.(janitor := Confirming(j.now, j.keys - {id}, j.expired, j.glance))
            && Visited(s, ids + {id}, gone + {id}) ==
               t.(sessions := t.sessions - {id}, janitor := Confirming(j.now, j.keys - {id}, j.expired + 1, j.glance))
  {
    assert s.janitor.keys - (ids + {id}) == s.janitor.keys - ids - {id};
    assert s.sessions - (gone + {id}) == (s.sessions - gone) - {id};
  }

  /** The whole sweep: start, a look at every key, the second clock reading, a visit to each key
      that was found. */
  function WholeSweep(ids: seq<Id>, later: int, found: seq<Id>): seq<Event> {
    [Sweep(Start)] + Scans(ids) + [Tick(later), Sweep(Turn)] + Visits(found)
  }

  /** `expire_idle` without interruption does to the node's table what the class's method promises
      for its own, and counts the same. */
  lemma SweepRefines(c: Config, s: Node, ids: seq<Id>, later: int, found: seq<Id>)
    requires Sound(s) && s.janitor.Resting? && s.clock <= later && s.sessions.Keys <= Elements(ids)
    requires Elements(found) == IdleKeys(Table(s), Busy(s), s.clock, c.idleTtl) && forall i, k | 0 <= i < k < |found| :: found[i] != found[k]
    ensures var t := RunFrom(c, s, WholeSweep(ids, later, found));
            var gone := TwiceIdle(Table(s), Busy(s), s.clock, Busy(s), later, c.idleTtl);
            Sound(t) && Table(t) == Table(s) - gone && t.janitor == Confirming(later, {}, |gone|, Free) && t.tasks == s.tasks
  {
    var first, start := Elements(found), [Sweep(Start)] + Scans(ids) + [Tick(later), Sweep(Turn)];
    var gone := TwiceIdle(Table(s), Busy(s), s.clock, Busy(s), later, c.idleTtl);
    var mid := s.(clock := later, janitor := Confirming(later, first, 0, Free));
    FirstHalf(c, s, ids, later);
    IterateJoin(Steps(c), s, start, Visits(found));
    VisitPass(c, mid, found);
    assert OnlyIdle(c, mid, first, later) == gone by {
      IdleIsIdle(c, s, later);
      forall id ensures Idle(c, mid, id, later) == Idle(c, s, id, later) { SameLook(c, s, mid, id, later); }
    }
    VisitedSeen(s, mid, first, gone);
  }

  lemma VisitedSeen(s: Node, mid: Node, ids: set<Id>, gone: set<Id>)
    requires Sound(s) && mid.sessions == s.sessions && mid.cells == s.cells && mid.janitor.Confirming? && mid.janitor.keys == ids
    ensures var t := Visited(mid, ids, gone);
            Sound(t) && Table(t) == Table(s) - gone && t.janitor.keys == {}
  {
    assert ids - ids == {};
  }

  lemma FirstHalf(c: Config, s: Node, ids: seq<Id>, later: int)
    requires Sound(s) && s.janitor.Resting? && s.clock <= later && s.sessions.Keys <= Elements(ids)
    ensures RunFrom(c, s, [Sweep(Start)] + Scans(ids) + [Tick(later), Sweep(Turn)]) ==
            s.(clock := later, janitor := Confirming(later, IdleKeys(Table(s), Busy(s), s.clock, c.idleTtl), 0, Free))
  {
    var first, t := IdleKeys(Table(s), Busy(s), s.clock, c.idleTtl), s.(janitor := Scanning(s.clock, {}));
    var start := [Sweep(Start)] + Scans(ids);
    assert RunFrom(c, s, start) == s.(janitor := Scanning(s.clock, first)) by {
      IterateOne(Steps(c), s, Sweep(Start));
      IterateJoin(Steps(c), s, [Sweep(Start)], Scans(ids));
      ScanPass(c, t, ids);
      AllScanned(c, s, t, ids);
    }
    IterateSnoc(Steps(c), s, start, Tick(later));
    IterateSnoc(Steps(c), s, start + [Tick(later)], Sweep(Turn));
    assert start + [Tick(later)] + [Sweep(Turn)] == start + [Tick(later), Sweep(Turn)];
  }

  lemma AllScanned(c: Config, s: Node, t: Node, ids: seq<Id>)
    requires Sound(s) && s.janitor.Resting? && s.sessions.Keys <= Elements(ids) && t == s.(janitor := Scanning(s.clock, {}))
    ensures {} + OnlyIdle(c, t, Elements(ids), s.clock) == IdleKeys(Table(s), Busy(s), s.clock, c.idleTtl)
  {
    IdleIsIdle(c, s, s.clock);
    forall id ensures Idle(c, t, id, s.clock) == Idle(c, s, id, s.clock) { SameLook(c, s, t, id, s.clock); }
  }
}
