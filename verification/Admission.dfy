/** Admission control: session map, capacity check, gauge and the two-pass idle sweep. */
module Admission {
  // Connection tasks and the janitor interleave freely; each step below is one access to the
  // shared map, one attempt at a session's lock with what is done under it, or one gauge update.

  import opened Sessions

  /** Session ids are version 4 UUIDs, here as the numbers they are. */
  type Id = nat

  /** A connection task between two accesses to shared state.  `cell` is the session object the
      task got from the map; it may have left the map since. */
  datatype Phase =
    | Ready
    | Entered(cell: nat, created: bool)
    | Holding(cell: nat, created: bool)
    | Checking
    | Rejecting
    | Passing
    | Leaving
    | Closed

  /** The janitor between two accesses of its second pass: the key it is at, the session object
      it found there, and whether it holds that object's lock. */
  datatype Glance = Free | Fetched(id: Id, cell: nat) | Held(id: Id, cell: nat)

  datatype Janitor =
    | Resting
    | Scanning(now: int, keys: set<Id>)
    | Confirming(now: int, keys: set<Id>, expired: nat, glance: Glance)

  /** `cells[c]` is the `last_seen` of session object c; `sessions` is the shared map. */
  datatype Node = Node(
    clock: int, sessions: map<Id, nat>, cells: seq<int>, tasks: map<Id, Phase>, gauge: int, janitor: Janitor)

  datatype Config = Config(maxSessions: nat, idleTtl: int)

  datatype Act = Enter | Acquire | Bump | ReadLen | Settle | Remove | Dec

  datatype Move = Start | Scan(id: Id) | Turn | Fetch(id: Id) | Inspect | Drop | Done

  datatype Event = Tick(now: int) | Task(id: Id, act: Act) | Sweep(move: Move)

  const EMPTY := Node(0, map[], [], map[], 0, Resting)

  function PhaseOf(s: Node, id: Id): Phase { if id in s.tasks then s.tasks[id] else Ready }

  predicate TaskHolds(s: Node, cell: nat) { exists id | id in s.tasks :: s.tasks[id].Holding? && s.tasks[id].cell == cell }

  predicate JanitorHolds(j: Janitor, cell: nat) { j.Confirming? && j.glance.Held? && j.glance.cell == cell }

  predicate Locked(s: Node, cell: nat) { TaskHolds(s, cell) || JanitorHolds(s.janitor, cell) }

  /** What a look at a session object takes for idle: its lock is free and it is old enough. */
  predicate Stale(c: Config, s: Node, cell: nat, now: int) {
    cell < |s.cells| && !Locked(s, cell) && IdleTime(now, s.cells[cell]) >= c.idleTtl
  }

  function At(s: Node, id: Id, p: Phase): Node { s.(tasks := s.tasks[id := p]) }

  /** A step of the connection task of session `id`: entering the map, taking and releasing the
      session's lock, reading the map's size, settling the check, removing, counting down.  A
      rejection ends the connection. */
  function TaskStep(c: Config, s: Node, id: Id, a: Act): Node {
    var p := PhaseOf(s, id);
    match a
    case Enter =>
      if !p.Ready? then s
      else if id in s.sessions then At(s, id, Entered(s.sessions[id], false))
      else At(s, id, Entered(|s.cells|, true)).(sessions := s.sessions[id := |s.cells|], cells := s.cells + [s.clock])
    case Acquire =>
      if p.Entered? && !Locked(s, p.cell) then At(s, id, Holding(p.cell, p.created)) else s
    case Bump =>
      if p.Holding? && p.cell < |s.cells|
      then At(s, id, if p.created then Checking else Ready).(cells := s.cells[p.cell := s.clock])
      else s
    case ReadLen =>
      if p.Checking? then At(s, id, if |s.sessions| > c.maxSessions then Rejecting else Passing) else s
    case Settle =>
      if p.Rejecting? then At(s, id, Closed).(sessions := s.sessions - {id})
      else if p.Passing? then At(s, id, Ready).(gauge := s.gauge + 1)
      else s
    case Remove =>
      if !p.Ready? then s
      else if id in s.sessions then At(s, id, Leaving).(sessions := s.sessions - {id})
      else At(s, id, Closed)
    case Dec => if p.Leaving? then At(s, id, Closed).(gauge := s.gauge - 1) else s
  }

  /** The key the janitor is about to remove. */
  function Target(s: Node): Id { if s.janitor.Confirming? && s.janitor.glance.Held? then s.janitor.glance.id else 0 }

  /** The janitor's removal finds something under its key. */
  predicate Removes(s: Node, m: Move) {
    m.Drop? && s.janitor.Confirming? && s.janitor.glance.Held? && s.janitor.glance.id in s.sessions
  }

  /** A step of the janitor: the first pass collects keys; the second fetches the object under a
      key, tries its lock and looks at it, and removes by key while it holds that lock. */
  function SweepStep(c: Config, s: Node, m: Move): Node {
    var j := s.janitor;
    match m
    case Start => if j.Resting? then s.(janitor := Scanning(s.clock, {})) else s
    case Scan(id) =>
      if j.Scanning? && id in s.sessions && Stale(c, s, s.sessions[id], j.now)
      then s.(janitor := Scanning(j.now, j.keys + {id}))
      else s
    case Turn => if j.Scanning? then s.(janitor := Confirming(s.clock, j.keys, 0, Free)) else s
    case Fetch(id) =>
      if j.Confirming? && j.glance.Free? && id in j.keys
      then s.(janitor := j.(keys := j.keys - {id}, glance := if id in s.sessions then Fetched(id, s.sessions[id]) else Free))
      else s
    case Inspect =>
      if j.Confirming? && j.glance.Fetched?
      then s.(janitor := j.(glance := if Stale(c, s, j.glance.cell, j.now) then Held(j.glance.id, j.glance.cell) else Free))
      else s
    case Drop =>
      if Removes(s, m)
      then s.(sessions := s.sessions - {j.glance.id}, janitor := j.(expired := j.expired + 1, glance := Free))
      else if j.Confirming? && j.glance.Held? then s.(janitor := j.(glance := Free))
      else s
    case Done =>
      if j.Confirming? && j.keys == {} && j.glance.Free? then s.(janitor := Resting, gauge := s.gauge - j.expired) else s
  }

  /** One step; an event that the task's or the janitor's position does not permit does nothing. */
  function Step(c: Config, s: Node, e: Event): Node {
    match e
    case Tick(now) => if s.clock <= now then s.(clock := now) else s
    case Task(id, a) => TaskStep(c, s, id, a)
    case Sweep(m) => SweepStep(c, s, m)
  }

  /** The node after any sequence of steps. */
  function Run(c: Config, es: seq<Event>): Node {
    if es == [] then EMPTY else Step(c, Run(c, es[..|es| - 1]), es[|es| - 1])
  }

  /** What a look finds idle, by the clock. */
  lemma StaleExact(c: Config, s: Node, cell: nat, now: int)
    ensures Stale(c, s, cell, now) <==>
            && cell < |s.cells| && (now - s.cells[cell] >= c.idleTtl || c.idleTtl <= 0) && !JanitorHolds(s.janitor, cell)
            && forall id | id in s.tasks && s.tasks[id].Holding? :: s.tasks[id].cell != cell
  {
  }

  // ---------------------------------------------------------------------------------------
  // Capacity
  // ---------------------------------------------------------------------------------------

  /** A connection that has created its session is turned away exactly if the map, its own session
      included, is over the limit when it reads the size; the session goes and the connection ends.
      Any other one counts as admitted. */
  lemma RejectedExact(c: Config, es: seq<Event>, id: Id)
    requires PhaseOf(Run(c, es), id).Checking?
    ensures var s, t := Run(c, es), Run(c, es + [Task(id, ReadLen)]);
            var u := Run(c, es + [Task(id, ReadLen)] + [Task(id, Settle)]);
            && t.sessions == s.sessions && t.gauge == s.gauge
            && (|s.sessions| > c.maxSessions ==>
                  PhaseOf(u, id) == Closed && u.sessions == s.sessions - {id} && u.gauge == s.gauge)
            && (|s.sessions| <= c.maxSessions ==>
                  PhaseOf(u, id) == Ready && u.sessions == s.sessions && u.gauge == s.gauge + 1)
  {
    var read := es + [Task(id, ReadLen)];
    assert read[..|es|] == es && (read + [Task(id, Settle)])[..|read|] == read;
  }


  /** The tasks that are in a phase of some kind. */
  ghost function Those(tasks: map<Id, Phase>, kind: Phase -> bool): set<Id> { set id | id in tasks && kind(tasks[id]) }

  /** The task has created its session and not yet passed the capacity check. */
  predicate Undecided(p: Phase) { ((p.Entered? || p.Holding?) && p.created) || p.Checking? || p.Rejecting? }

  ghost function Admitted(s: Node): set<Id> { s.sessions.Keys - Those(s.tasks, Undecided) }

  lemma Subset(a: set<Id>, b: set<Id>)
    requires a <= b
    ensures |a| <= |b|
  {
    assert b == a + (b - a);
  }

  lemma UpdateElsewhere<V>(m: map<Id, V>, id: Id, v: V)
    ensures m[id := v] - {id} == m - {id} == (m - {id}) - {id}
  {
  }

  /** t is s, but perhaps for one task's phase. */
  ghost predicate OnePhase(s: Node, t: Node, id: Id) {
    t.tasks == s.tasks || (id in t.tasks && t.tasks == s.tasks[id := t.tasks[id]])
  }

  lemma AtIsOnePhase(s: Node, t: Node, id: Id, p: Phase)
    requires t.tasks == At(s, id, p).tasks
    ensures OnePhase(s, t, id)
  {
  }

  lemma EnterPhases(c: Config, s: Node, id: Id, a: Act)
    requires a.Enter? || a.Acquire? || a.Bump?
    ensures OnePhase(s, TaskStep(c, s, id, a), id)
  {
    var t := TaskStep(c, s, id, a);
    if t != s { AtIsOnePhase(s, t, id, PhaseOf(t, id)); }
  }

  lemma CheckPhases(c: Config, s: Node, id: Id, a: Act)
    requires a.ReadLen? || a.Settle?
    ensures OnePhase(s, TaskStep(c, s, id, a), id)
  {
    var t := TaskStep(c, s, id, a);
    if t != s { AtIsOnePhase(s, t, id, PhaseOf(t, id)); }
  }

  lemma LeavePhases(c: Config, s: Node, id: Id, a: Act)
    requires a.Remove? || a.Dec?
    ensures OnePhase(s, TaskStep(c, s, id, a), id)
  {
    var t := TaskStep(c, s, id, a);
    if t != s { AtIsOnePhase(s, t, id, PhaseOf(t, id)); }
  }

  lemma TaskPhases(c: Config, s: Node, id: Id, a: Act)
    ensures OnePhase(s, TaskStep(c, s, id, a), id)
  {
    match a
    case Enter => EnterPhases(c, s, id, a);
    case Acquire => EnterPhases(c, s, id, a);
    case Bump => EnterPhases(c, s, id, a);
    case ReadLen => CheckPhases(c, s, id, a);
    case Settle => CheckPhases(c, s, id, a);
    case Remove => LeavePhases(c, s, id, a);
    case Dec => LeavePhases(c, s, id, a);
  }

  lemma TaskSessions(c: Config, s: Node, id: Id, a: Act)
    ensures var t := TaskStep(c, s, id, a);
            t.sessions == s.sessions || t.sessions == s.sessions - {id} || t.sessions == s.sessions[id := |s.cells|]
  {
  }

  /** A task's step changes nothing about the other sessions. */
  lemma TaskIsLocal(c: Config, s: Node, id: Id, a: Act)
    ensures var t := TaskStep(c, s, id, a);
            t.sessions - {id} == s.sessions - {id} && t.tasks - {id} == s.tasks - {id}
  {
    var t := TaskStep(c, s, id, a);
    TaskPhases(c, s, id, a);
    TaskSessions(c, s, id, a);
    ElsewhereSame(s, t.tasks, t.sessions, id);
  }

  lemma ElsewhereSame(s: Node, tasks: map<Id, Phase>, sessions: map<Id, nat>, id: Id)
    requires tasks == s.tasks || (id in tasks && tasks == s.tasks[id := tasks[id]])
    requires sessions == s.sessions || sessions == s.sessions - {id} || sessions == s.sessions[id := |s.cells|]
    ensures sessions - {id} == s.sessions - {id} && tasks - {id} == s.tasks - {id}
  {
    if id in tasks { UpdateElsewhere(s.tasks, id, tasks[id]); }
    UpdateElsewhere(s.sessions, id, |s.cells|);
  }

  lemma ThoseElsewhere(was: map<Id, Phase>, now: map<Id, Phase>, id: Id, kind: Phase -> bool)
    requires now - {id} == was - {id}
    ensures Those(now, kind) - {id} == Those(was, kind) - {id}
  {
    assert Those(now, kind) - {id} == Those(now - {id}, kind);
    assert Those(was, kind) - {id} == Those(was - {id}, kind);
  }

  lemma KeysElsewhere(was: map<Id, nat>, now: map<Id, nat>, id: Id)
    requires now - {id} == was - {id}
    ensures now.Keys - {id} == was.Keys - {id}
  {
    assert (now - {id}).Keys == now.Keys - {id} && (was - {id}).Keys == was.Keys - {id};
  }

  function Bit(b: bool): nat { if b then 1 else 0 }

  lemma Without(a: set<Id>, id: Id)
    ensures |a - {id}| == |a| - Bit(id in a)
  {
    if id !in a { assert a - {id} == a; }
  }

  /** Two differences of sets that agree but for one element. */
  lemma Differences(k: set<Id>, u: set<Id>, l: set<Id>, v: set<Id>, id: Id)
    requires l - {id} == k - {id} && v - {id} == u - {id}
    ensures |l - v| == |k - u| + Bit(id in l && id !in v) - Bit(id in k && id !in u)
  {
    assert (l - v) - {id} == (l - {id}) - (v - {id}) == (k - u) - {id};
    Without(l - v, id);
    Without(k - u, id);
  }

  /** Only a check that reads a size within the limit admits a session. */
  lemma TaskAdmits(c: Config, s: Node, id: Id, a: Act)
    requires !(a.ReadLen? && |s.sessions| <= c.maxSessions)
    ensures var t := TaskStep(c, s, id, a);
            id in t.sessions && !Undecided(PhaseOf(t, id)) ==> id in s.sessions && !Undecided(PhaseOf(s, id))
  {
  }

  lemma TaskKeepsCapacity(c: Config, s: Node, id: Id, a: Act)
    requires |Admitted(s)| <= c.maxSessions
    ensures |Admitted(TaskStep(c, s, id, a))| <= c.maxSessions
  {
    var t := TaskStep(c, s, id, a);
    if a.ReadLen? && |s.sessions| <= c.maxSessions {
      assert t.sessions.Keys == s.sessions.Keys && |s.sessions.Keys| == |s.sessions|;
      Subset(Admitted(t), s.sessions.Keys);
    } else {
      TaskIsLocal(c, s, id, a);
      TaskAdmits(c, s, id, a);
      AdmittedChange(s, t, id);
    }
  }

  lemma AdmittedChange(s: Node, t: Node, id: Id)
    requires t.sessions - {id} == s.sessions - {id} && t.tasks - {id} == s.tasks - {id}
    ensures |Admitted(t)| == |Admitted(s)| + Bit(id in t.sessions && !Undecided(PhaseOf(t, id)))
                             - Bit(id in s.sessions && !Undecided(PhaseOf(s, id)))
  {
    ThoseElsewhere(s.tasks, t.tasks, id, Undecided);
    KeysElsewhere(s.sessions, t.sessions, id);
    Differences(s.sessions.Keys, Those(s.tasks, Undecided), t.sessions.Keys, Those(t.tasks, Undecided), id);
  }

  lemma SweepIsLocal(c: Config, s: Node, m: Move)
    ensures var t := SweepStep(c, s, m);
            t.tasks == s.tasks && t.sessions == if Removes(s, m) then s.sessions - {Target(s)} else s.sessions
  {
  }

  lemma SweepKeepsCapacity(c: Config, s: Node, m: Move)
    ensures |Admitted(SweepStep(c, s, m))| <= |Admitted(s)|
  {
    SweepIsLocal(c, s, m);
    var t := SweepStep(c, s, m);
    assert t.sessions.Keys <= s.sessions.Keys;
    Subset(Admitted(t), Admitted(s));
  }

  lemma AdmittedSame(s: Node, t: Node)
    requires t.sessions == s.sessions && t.tasks == s.tasks
    ensures Admitted(t) == Admitted(s)
  {
  }

  lemma StepKeepsCapacity(c: Config, s: Node, e: Event)
    requires |Admitted(s)| <= c.maxSessions
    ensures |Admitted(Step(c, s, e))| <= c.maxSessions
  {
    match e
    case Tick(_) => AdmittedSame(s, Step(c, s, e));
    case Task(id, a) => TaskKeepsCapacity(c, s, id, a);
    case Sweep(m) => SweepKeepsCapacity(c, s, m);
  }

  /** Every interleaving keeps the number of admitted live sessions at most the limit. */
  lemma {:induction false} CapacityHolds(c: Config, es: seq<Event>)
    ensures |Admitted(Run(c, es))| <= c.maxSessions
  {
    if es != [] {
      CapacityHolds(c, es[..|es| - 1]);
      StepKeepsCapacity(c, Run(c, es[..|es| - 1]), es[|es| - 1]);
    } else {
      assert Admitted(EMPTY) == {};
    }
  }

  // ---------------------------------------------------------------------------------------
  // The gauge
  // ---------------------------------------------------------------------------------------

  /** The task's session is in the map and the gauge does not count it yet. */
  predicate Uncounted(p: Phase) { Undecided(p) || p.Passing? }

  predicate IsLeaving(p: Phase) { p.Leaving? }

  ghost function UncountedIds(s: Node): set<Id> { Those(s.tasks, Uncounted) }

  ghost function LeavingIds(s: Node): set<Id> { Those(s.tasks, IsLeaving) }

  ghost function OwedBy(j: Janitor): nat { if j.Confirming? then j.expired else 0 }

  /** Removals from the map that the gauge has not followed yet. */
  ghost function Owed(s: Node): nat { |LeavingIds(s)| + OwedBy(s.janitor) }

  /** A rejection that finds its session already swept. */
  predicate Loses(s: Node, e: Event) { e.Task? && e.act.Settle? && PhaseOf(s, e.id).Rejecting? && e.id !in s.sessions }

  function Lost(c: Config, es: seq<Event>): nat {
    if es == [] then 0
    else Lost(c, es[..|es| - 1]) + if Loses(Run(c, es[..|es| - 1]), es[|es| - 1]) then 1 else 0
  }

  /** The gauge minus what its plain formula predicts. */
  ghost function Drift(s: Node): int { s.gauge - (|s.sessions| - |UncountedIds(s)| + Owed(s)) }

  /** How one task's change of phase changes the number of tasks of a kind. */
  lemma PhaseChange(s: Node, t: Node, id: Id, kind: Phase -> bool)
    requires t.tasks - {id} == s.tasks - {id} && !kind(Ready)
    ensures |Those(t.tasks, kind)| == |Those(s.tasks, kind)| + Bit(kind(PhaseOf(t, id))) - Bit(kind(PhaseOf(s, id)))
  {
    ThoseElsewhere(s.tasks, t.tasks, id, kind);
    Without(Those(s.tasks, kind), id);
    Without(Those(t.tasks, kind), id);
  }

  lemma MapWithout(m: map<Id, nat>, id: Id)
    ensures |m - {id}| == |m| - Bit(id in m)
  {
    assert (m - {id}).Keys == m.Keys - {id};
    Without(m.Keys, id);
    assert |m| == |m.Keys| && |m - {id}| == |(m - {id}).Keys|;
  }

  lemma SizeChange(s: Node, t: Node, id: Id)
    requires t.sessions - {id} == s.sessions - {id}
    ensures |t.sessions| == |s.sessions| + Bit(id in t.sessions) - Bit(id in s.sessions)
  {
    MapWithout(s.sessions, id);
    MapWithout(t.sessions, id);
  }

  /** What one session weighs in the gauge's formula. */
  ghost function Weight(s: Node, id: Id): int {
    Bit(id in s.sessions) - Bit(Uncounted(PhaseOf(s, id))) + Bit(IsLeaving(PhaseOf(s, id)))
  }

  /** A task moves the gauge by what its session's weight changes, but for losses. */
  lemma TaskGauge(c: Config, s: Node, id: Id, a: Act)
    ensures var t := TaskStep(c, s, id, a);
            t.gauge - s.gauge == Weight(t, id) - Weight(s, id) - Bit(Loses(s, Task(id, a)))
  {
    match a
    case Enter =>
    case Acquire =>
    case Bump =>
    case ReadLen =>
    case Settle =>
    case Remove =>
    case Dec =>
  }

  lemma TaskLeavesJanitor(c: Config, s: Node, id: Id, a: Act)
    ensures TaskStep(c, s, id, a).janitor == s.janitor
  {
  }

  lemma TaskDrift(c: Config, s: Node, id: Id, a: Act)
    ensures Drift(TaskStep(c, s, id, a)) == Drift(s) - Bit(Loses(s, Task(id, a)))
  {
    var t := TaskStep(c, s, id, a);
    TaskIsLocal(c, s, id, a);
    PhaseChange(s, t, id, Uncounted);
    PhaseChange(s, t, id, IsLeaving);
    SizeChange(s, t, id);
    TaskGauge(c, s, id, a);
    TaskLeavesJanitor(c, s, id, a);
  }

  lemma SweepDrift(c: Config, s: Node, m: Move)
    ensures Drift(SweepStep(c, s, m)) == Drift(s)
  {
    SweepIsLocal(c, s, m);
    if Removes(s, m) { MapWithout(s.sessions, Target(s)); }
  }

  lemma StepDrift(c: Config, s: Node, e: Event)
    ensures Drift(Step(c, s, e)) == Drift(s) - Bit(Loses(s, e))
  {
    match e
    case Tick(_) =>
    case Task(id, a) => TaskDrift(c, s, id, a);
    case Sweep(m) => SweepDrift(c, s, m);
  }

  /** The exact gauge equation, over every interleaving. */
  lemma {:induction false} GaugeEquation(c: Config, es: seq<Event>)
    ensures var s := Run(c, es);
            s.gauge == |s.sessions| - |UncountedIds(s)| + Owed(s) - Lost(c, es)
  {
    if es != [] {
      GaugeEquation(c, es[..|es| - 1]);
      StepDrift(c, Run(c, es[..|es| - 1]), es[|es| - 1]);
    }
  }

  // ---------------------------------------------------------------------------------------
  // When the gauge is right
  // ---------------------------------------------------------------------------------------

  /** The sweep removes a session whose capacity check is still pending. */
  predicate Hastens(s: Node, e: Event) {
    e.Sweep? && Removes(s, e.move) && Uncounted(PhaseOf(s, Target(s)))
  }

  function SweptEarly(c: Config, es: seq<Event>): nat {
    if es == [] then 0
    else SweptEarly(c, es[..|es| - 1]) + Bit(Hastens(Run(c, es[..|es| - 1]), es[|es| - 1]))
  }

  ghost function Orphans(s: Node): set<Id> { UncountedIds(s) - s.sessions.Keys }

  lemma TaskOrphans(c: Config, s: Node, id: Id, a: Act)
    ensures |Orphans(TaskStep(c, s, id, a))| + Bit(Loses(s, Task(id, a))) <= |Orphans(s)|
  {
    var t := TaskStep(c, s, id, a);
    TaskIsLocal(c, s, id, a);
    TaskOrphan(c, s, id, a);
    OrphansChange(s, t, id);
  }

  lemma OrphansChange(s: Node, t: Node, id: Id)
    requires t.sessions - {id} == s.sessions - {id} && t.tasks - {id} == s.tasks - {id}
    ensures |Orphans(t)| == |Orphans(s)| + Bit(Uncounted(PhaseOf(t, id)) && id !in t.sessions)
                            - Bit(Uncounted(PhaseOf(s, id)) && id !in s.sessions)
  {
    ThoseElsewhere(s.tasks, t.tasks, id, Uncounted);
    KeysElsewhere(s.sessions, t.sessions, id);
    Differences(UncountedIds(s), s.sessions.Keys, UncountedIds(t), t.sessions.Keys, id);
  }

  lemma TaskOrphan(c: Config, s: Node, id: Id, a: Act)
    ensures var t := TaskStep(c, s, id, a);
            Uncounted(PhaseOf(t, id)) && id !in t.sessions ==>
              Uncounted(PhaseOf(s, id)) && id !in s.sessions && !Loses(s, Task(id, a))
  {
  }

  lemma SweepOrphans(c: Config, s: Node, m: Move)
    ensures |Orphans(SweepStep(c, s, m))| <= |Orphans(s)| + Bit(Hastens(s, Sweep(m)))
  {
    SweepIsLocal(c, s, m);
    if Removes(s, m) {
      UpdateElsewhere(s.sessions, Target(s), 0);
      OrphansChange(s, SweepStep(c, s, m), Target(s));
    }
  }

  lemma StepOrphans(c: Config, s: Node, e: Event)
    ensures |Orphans(Step(c, s, e))| + Bit(Loses(s, e)) <= |Orphans(s)| + Bit(Hastens(s, e))
  {
    match e
    case Tick(_) =>
    case Task(id, a) => TaskOrphans(c, s, id, a);
    case Sweep(m) => SweepOrphans(c, s, m);
  }

  lemma {:induction false} LossesComeFromSweeps(c: Config, es: seq<Event>)
    ensures Lost(c, es) + |Orphans(Run(c, es))| <= SweptEarly(c, es)
  {
    if es != [] {
      LossesComeFromSweeps(c, es[..|es| - 1]);
      StepOrphans(c, Run(c, es[..|es| - 1]), es[|es| - 1]);
    }
  }

  /** The plain formula for the gauge holds if and only if no rejection came after the sweep. */
  lemma GaugeExact(c: Config, es: seq<Event>)
    ensures var s := Run(c, es);
            s.gauge == |s.sessions| - |UncountedIds(s)| + Owed(s) <==> Lost(c, es) == 0
    ensures SweptEarly(c, es) == 0 ==> Lost(c, es) == 0
  {
    GaugeEquation(c, es);
    LossesComeFromSweeps(c, es);
  }

  lemma RunTo(c: Config, es: seq<Event>, k: nat)
    requires k < |es|
    ensures Run(c, es[..k + 1]) == Step(c, Run(c, es[..k]), es[k])
    ensures Lost(c, es[..k + 1]) == Lost(c, es[..k]) + Bit(Loses(Run(c, es[..k]), es[k]))
  {
    assert es[..k + 1][..k] == es[..k];
  }
}
