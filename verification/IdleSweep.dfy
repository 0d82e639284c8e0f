/** What the janitor's sweep can remove, over every interleaving with the connection tasks. */
module IdleSweep {
  import opened Sessions
  import opened Admission

  // ---------------------------------------------------------------------------------------
  // Clocks
  // ---------------------------------------------------------------------------------------

  /** No reading of the clock lies in the future. */
  ghost predicate Timely(s: Node) {
    (forall i | 0 <= i < |s.cells| :: s.cells[i] <= s.clock) && (!s.janitor.Resting? ==> s.janitor.now <= s.clock)
  }

  lemma StepTimely(c: Config, s: Node, e: Event)
    requires Timely(s)
    ensures var t := Step(c, s, e);
            && Timely(t) && s.clock <= t.clock && |s.cells| <= |t.cells|
            && forall i | 0 <= i < |s.cells| :: s.cells[i] <= t.cells[i]
  {
    match e
    case Tick(_) =>
    case Task(_, _) =>
    case Sweep(_) =>
  }

  lemma {:induction false} RunTimely(c: Config, es: seq<Event>)
    ensures Timely(Run(c, es))
  {
    if es != [] {
      RunTimely(c, es[..|es| - 1]);
      StepTimely(c, Run(c, es[..|es| - 1]), es[|es| - 1]);
    }
  }

  lemma NextSeen(c: Config, es: seq<Event>, k: nat)
    requires k < |es|
    ensures var s, t := Run(c, es[..k]), Run(c, es[..k + 1]);
            |s.cells| <= |t.cells| && forall i | 0 <= i < |s.cells| :: s.cells[i] <= t.cells[i]
  {
    RunTo(c, es, k);
    RunTimely(c, es[..k]);
    StepTimely(c, Run(c, es[..k]), es[k]);
  }

  /** `last_seen` never goes back. */
  lemma {:induction false} SeenGrows(c: Config, es: seq<Event>, i: nat, j: nat, cell: nat)
    requires i <= j <= |es| && cell < |Run(c, es[..i]).cells|
    ensures var s, t := Run(c, es[..i]), Run(c, es[..j]); cell < |t.cells| && s.cells[cell] <= t.cells[cell]
    decreases j
  {
    if i < j {
      SeenGrows(c, es, i, j - 1, cell);
      NextSeen(c, es, j - 1);
    }
  }

  // ---------------------------------------------------------------------------------------
  // The object the janitor looks at
  // ---------------------------------------------------------------------------------------

  /** The key leads to the object the janitor fetched, or its task is leaving for good. */
  ghost predicate SameOrGone(s: Node, id: Id, cell: nat) {
    if id in s.sessions then s.sessions[id] == cell else PhaseOf(s, id).Leaving? || PhaseOf(s, id).Closed?
  }

  /** The object whose lock the janitor holds is idle, and stays so. */
  ghost predicate HeldIsIdle(c: Config, s: Node, cell: nat, now: int) {
    cell < |s.cells| && IdleTime(now, s.cells[cell]) >= c.idleTtl && !TaskHolds(s, cell)
  }

  ghost predicate Glances(c: Config, s: Node) {
    var j := s.janitor;
    j.Confirming? && !j.glance.Free? ==>
      SameOrGone(s, j.glance.id, j.glance.cell) && (j.glance.Held? ==> HeldIsIdle(c, s, j.glance.cell, j.now))
  }

  lemma HoldersElsewhere(s: Node, t: Node, id: Id, cell: nat)
    requires t.tasks - {id} == s.tasks - {id} && !TaskHolds(s, cell)
    requires PhaseOf(t, id).Holding? ==> PhaseOf(t, id).cell != cell
    ensures !TaskHolds(t, cell)
  {
    forall x | x in t.tasks ensures !(t.tasks[x].Holding? && t.tasks[x].cell == cell) {
      if x != id {
        assert x in t.tasks - {id};
        assert x in s.tasks - {id} && (s.tasks - {id})[x] == (t.tasks - {id})[x];
      }
    }
  }

  lemma PhaseAvoids(s: Node, id: Id, cell: nat)
    requires !TaskHolds(s, cell)
    ensures PhaseOf(s, id).Holding? ==> PhaseOf(s, id).cell != cell
  {
  }

  lemma TaskSparesCell(c: Config, s: Node, id: Id, a: Act, cell: nat)
    requires JanitorHolds(s.janitor, cell) && cell < |s.cells| && (PhaseOf(s, id).Holding? ==> PhaseOf(s, id).cell != cell)
    ensures var t := TaskStep(c, s, id, a);
            && cell < |t.cells| && t.cells[cell] == s.cells[cell]
            && (PhaseOf(t, id).Holding? ==> PhaseOf(t, id).cell != cell)
  {
  }

  /** A task leaves alone the object whose lock the janitor holds. */
  lemma TaskSparesHeld(c: Config, s: Node, id: Id, a: Act, cell: nat)
    requires JanitorHolds(s.janitor, cell) && HeldIsIdle(c, s, cell, s.janitor.now)
    ensures HeldIsIdle(c, TaskStep(c, s, id, a), cell, s.janitor.now)
  {
    var t := TaskStep(c, s, id, a);
    TaskIsLocal(c, s, id, a);
    PhaseAvoids(s, id, cell);
    TaskSparesCell(c, s, id, a, cell);
    HoldersElsewhere(s, t, id, cell);
  }

  /** A key that has lost its object never gets another one. */
  lemma TaskSameOrGone(c: Config, s: Node, id: Id, a: Act, key: Id, cell: nat)
    requires SameOrGone(s, key, cell)
    ensures SameOrGone(TaskStep(c, s, id, a), key, cell)
  {
  }

  lemma TaskGlances(c: Config, s: Node, id: Id, a: Act)
    requires Glances(c, s)
    ensures Glances(c, TaskStep(c, s, id, a))
  {
    var j := s.janitor;
    TaskLeavesJanitor(c, s, id, a);
    if j.Confirming? && !j.glance.Free? {
      TaskSameOrGone(c, s, id, a, j.glance.id, j.glance.cell);
      if j.glance.Held? { TaskSparesHeld(c, s, id, a, j.glance.cell); }
    }
  }

  lemma StepGlances(c: Config, s: Node, e: Event)
    requires Glances(c, s)
    ensures Glances(c, Step(c, s, e))
  {
    match e
    case Tick(_) =>
    case Task(id, a) => TaskGlances(c, s, id, a);
    case Sweep(_) =>
  }

  lemma {:induction false} RunGlances(c: Config, es: seq<Event>)
    ensures Glances(c, Run(c, es))
  {
    if es != [] {
      RunGlances(c, es[..|es| - 1]);
      StepGlances(c, Run(c, es[..|es| - 1]), es[|es| - 1]);
    }
  }

  // ---------------------------------------------------------------------------------------
  // Sweep safety
  // ---------------------------------------------------------------------------------------

  /** In every interleaving the key the janitor removes still leads to the object it has looked
      at, and that object is idle as of the second pass and not locked by any task. */
  lemma RemovesIdle(c: Config, es: seq<Event>)
    requires Removes(Run(c, es), Drop)
    ensures var s := Run(c, es);
            var cell := s.sessions[Target(s)];
            && cell == s.janitor.glance.cell && cell < |s.cells| && !TaskHolds(s, cell)
            && (c.idleTtl > 0 ==> s.janitor.now - s.cells[cell] >= c.idleTtl)
  {
    RunGlances(c, es);
  }

  /** A task that holds the lock records a touch of the session object `cell`. */
  predicate Touches(s: Node, e: Event, cell: nat) {
    e.Task? && e.act.Bump? && PhaseOf(s, e.id).Holding? && PhaseOf(s, e.id).cell == cell < |s.cells|
  }

  /** Sweep safety: every touch of the session that the janitor removes, wherever between or inside
      the two passes it came, lies at least the time-to-live before the second pass. */
  lemma SweepSafety(c: Config, es: seq<Event>, i: nat, j: nat)
    requires i < j <= |es| && Removes(Run(c, es[..j]), Drop)
    requires Touches(Run(c, es[..i]), es[i], Run(c, es[..j]).sessions[Target(Run(c, es[..j]))])
    ensures var s := Run(c, es[..j]);
            (c.idleTtl > 0 ==> Run(c, es[..i]).clock + c.idleTtl <= s.janitor.now) && s.janitor.now <= s.clock
  {
    var s := Run(c, es[..j]);
    RunTo(c, es, i);
    SeenGrows(c, es, i + 1, j, s.sessions[Target(s)]);
    RunTimely(c, es[..j]);
    RemovesIdle(c, es[..j]);
  }

  // ---------------------------------------------------------------------------------------
  // What the sweep reports
  // ---------------------------------------------------------------------------------------

  /** By how much the janitor's own steps have shrunk the map since its second pass began. */
  function RemovedNow(c: Config, es: seq<Event>): int {
    if es == [] then 0
    else
      var s, e := Run(c, es[..|es| - 1]), es[|es| - 1];
      if e == Sweep(Turn) && s.janitor.Scanning? then 0
      else RemovedNow(c, es[..|es| - 1]) + if e.Sweep? then |s.sessions| - |Step(c, s, e).sessions| else 0
  }

  lemma SweepCounts(c: Config, s: Node, m: Move)
    ensures var t := SweepStep(c, s, m);
            && (t.janitor.Confirming? && s.janitor.Confirming? ==> t.janitor.expired - s.janitor.expired == |s.sessions| - |t.sessions|)
            && (t.janitor.Confirming? && !s.janitor.Confirming? ==> m == Turn && s.janitor.Scanning? && t.janitor.expired == 0)
            && (m == Turn && s.janitor.Scanning? ==> t.janitor.Confirming?)
  {
    SweepIsLocal(c, s, m);
    if Removes(s, m) { MapWithout(s.sessions, Target(s)); }
  }

  /** The sweep reports exactly the keys that went from the map by its own hand, though others
      remove sessions meanwhile. */
  lemma {:induction false} ExpiredExact(c: Config, es: seq<Event>)
    ensures Run(c, es).janitor.Confirming? ==> Run(c, es).janitor.expired == RemovedNow(c, es)
  {
    if es != [] {
      var s, e := Run(c, es[..|es| - 1]), es[|es| - 1];
      ExpiredExact(c, es[..|es| - 1]);
      match e
      case Tick(_) =>
      case Task(id, a) => TaskLeavesJanitor(c, s, id, a);
      case Sweep(m) => SweepCounts(c, s, m);
    }
  }

  // ---------------------------------------------------------------------------------------
  // A run that goes wrong
  // ---------------------------------------------------------------------------------------

  lemma Extend(c: Config, es: seq<Event>, e: Event, s: Node, t: Node)
    requires Run(c, es) == s && Step(c, s, e) == t
    ensures Run(c, es + [e]) == t && Lost(c, es + [e]) == Lost(c, es) + Bit(Loses(s, e))
  {
    assert (es + [e])[..|es|] == es;
  }

  lemma Created(c: Config) returns (es: seq<Event>)
    ensures Run(c, es) == Node(1, map[0 := 0], [0], map[0 := Checking], 0, Resting) && Lost(c, es) == 0
  {
    var s0 := EMPTY;
    es := [];
    var s1 := Node(0, map[0 := 0], [0], map[0 := Entered(0, true)], 0, Resting);
    Extend(c, es, Task(0, Enter), s0, s1);
    es := es + [Task(0, Enter)];
    var s2 := s1.(tasks := map[0 := Holding(0, true)]);
    Extend(c, es, Task(0, Acquire), s1, s2);
    es := es + [Task(0, Acquire)];
    var s3 := s1.(tasks := map[0 := Checking]);
    Extend(c, es, Task(0, Bump), s2, s3);
    es := es + [Task(0, Bump)];
    var s4 := s3.(clock := 1);
    Extend(c, es, Tick(1), s3, s4);
    es := es + [Tick(1)];
  }

  lemma Collected(c: Config) returns (es: seq<Event>)
    requires c.idleTtl == 1
    ensures Run(c, es) == Node(1, map[0 := 0], [0], map[0 := Checking], 0, Confirming(1, {0}, 0, Free)) && Lost(c, es) == 0
  {
    es := Created(c);
    assert {} + {0} == {0};
    var s0 := Node(1, map[0 := 0], [0], map[0 := Checking], 0, Resting);
    var s1 := s0.(janitor := Scanning(1, {}));
    Extend(c, es, Sweep(Start), s0, s1);
    es := es + [Sweep(Start)];
    assert !Locked(s1, 0);
    var s2 := s0.(janitor := Scanning(1, {0}));
    Extend(c, es, Sweep(Scan(0)), s1, s2);
    es := es + [Sweep(Scan(0))];
    var s3 := s0.(janitor := Confirming(1, {0}, 0, Free));
    Extend(c, es, Sweep(Turn), s2, s3);
    es := es + [Sweep(Turn)];
  }

  lemma SweptBeforeCheck(c: Config) returns (es: seq<Event>)
    requires c.idleTtl == 1
    ensures Run(c, es) == Node(1, map[], [0], map[0 := Checking], -1, Resting) && Lost(c, es) == 0
  {
    es := Collected(c);
    assert {0} - {0} == {};
    var s0 := Node(1, map[0 := 0], [0], map[0 := Checking], 0, Confirming(1, {0}, 0, Free));
    var s1 := s0.(janitor := Confirming(1, {}, 0, Fetched(0, 0)));
    Extend(c, es, Sweep(Fetch(0)), s0, s1);
    es := es + [Sweep(Fetch(0))];
    assert !Locked(s1, 0);
    var s2 := s0.(janitor := Confirming(1, {}, 0, Held(0, 0)));
    Extend(c, es, Sweep(Inspect), s1, s2);
    es := es + [Sweep(Inspect)];
    var s3 := s0.(sessions := map[], janitor := Confirming(1, {}, 1, Free));
    Extend(c, es, Sweep(Drop), s2, s3);
    es := es + [Sweep(Drop)];
    var s4 := s0.(sessions := map[], gauge := -1, janitor := Resting);
    Extend(c, es, Sweep(Done), s3, s4);
    es := es + [Sweep(Done)];
  }

  lemma SecondEntered(c: Config) returns (es: seq<Event>)
    requires c == Config(1, 1)
    ensures Run(c, es) == Node(1, map[1 := 1], [0, 1], map[0 := Checking, 1 := Holding(1, true)], -1, Resting) && Lost(c, es) == 0
  {
    es := SweptBeforeCheck(c);
    var s0 := Node(1, map[], [0], map[0 := Checking], -1, Resting);
    var s1 := Node(1, map[1 := 1], [0, 1], map[0 := Checking, 1 := Entered(1, true)], -1, Resting);
    Extend(c, es, Task(1, Enter), s0, s1);
    es := es + [Task(1, Enter)];
    var s2 := At(s1, 1, Holding(1, true));
    Extend(c, es, Task(1, Acquire), s1, s2);
    es := es + [Task(1, Acquire)];
  }

  lemma SecondAdmitted(c: Config) returns (es: seq<Event>)
    requires c == Config(1, 1)
    ensures Run(c, es) == Node(1, map[1 := 1], [0, 1], map[0 := Checking, 1 := Ready], 0, Resting) && Lost(c, es) == 0
  {
    es := SecondEntered(c);
    var s1 := Node(1, map[1 := 1], [0, 1], map[0 := Checking, 1 := Entered(1, true)], -1, Resting);
    var s2 := At(s1, 1, Holding(1, true));
    assert [0, 1][1 := 1] == [0, 1];
    var s3 := At(s1, 1, Checking);
    Extend(c, es, Task(1, Bump), s2, s3);
    es := es + [Task(1, Bump)];
    var s4 := At(s1, 1, Passing);
    Extend(c, es, Task(1, ReadLen), s3, s4);
    es := es + [Task(1, ReadLen)];
    var s5 := Node(1, map[1 := 1], [0, 1], map[0 := Checking, 1 := Ready], 0, Resting);
    Extend(c, es, Task(1, Settle), s4, s5);
    es := es + [Task(1, Settle)];
  }

  lemma ThirdEntered(c: Config) returns (es: seq<Event>)
    requires c == Config(1, 1)
    ensures Run(c, es) == Node(1, map[1 := 1, 2 := 2], [0, 1, 1], map[0 := Rejecting, 1 := Ready, 2 := Entered(2, true)], 0, Resting) && Lost(c, es) == 0
  {
    es := SecondAdmitted(c);
    var s0 := Node(1, map[1 := 1], [0, 1], map[0 := Checking, 1 := Ready], 0, Resting);
    var s1 := Node(1, map[1 := 1, 2 := 2], [0, 1, 1], map[0 := Checking, 1 := Ready, 2 := Entered(2, true)], 0, Resting);
    Extend(c, es, Task(2, Enter), s0, s1);
    es := es + [Task(2, Enter)];
    assert |map[1 := 1, 2 := 2].Keys| == 2 by { assert map[1 := 1, 2 := 2].Keys == {1, 2}; }
    var s2 := Node(1, map[1 := 1, 2 := 2], [0, 1, 1], map[0 := Rejecting, 1 := Ready, 2 := Entered(2, true)], 0, Resting);
    Extend(c, es, Task(0, ReadLen), s1, s2);
    es := es + [Task(0, ReadLen)];
  }

  /** A session is swept between its creation and its check; a second one is admitted, a third
      one makes the node overfull, and the check then rejects the first: from now on the gauge
      does not count the admitted session. */
  lemma GaugeCanDrift() returns (c: Config, es: seq<Event>)
    ensures c.maxSessions == 1 && Lost(c, es) == 1 && Run(c, es).gauge == 0 && 1 in Admitted(Run(c, es))
  {
    c := Config(1, 1);
    es := ThirdEntered(c);
    var s0 := Node(1, map[1 := 1, 2 := 2], [0, 1, 1], map[0 := Rejecting, 1 := Ready, 2 := Entered(2, true)], 0, Resting);
    assert map[1 := 1, 2 := 2] - {0} == map[1 := 1, 2 := 2];
    var s1 := At(s0, 0, Closed);
    Extend(c, es, Task(0, Settle), s0, s1);
    es := es + [Task(0, Settle)];
  }
}
