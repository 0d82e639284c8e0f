/** The life cycle of semantic threads. */
module ThreadLife {
  import opened Texts

  datatype Phase = Birth | Active | Weakening | Switching | Archived

  datatype Kind = GoalUpdated | StressIncrease | Relief | NewOpportunity | FamilyResonance | DropInAttention | Success | ShutdownRequest

  /** `resonance` is the payload's resonance level, if it is a number. */
  datatype Event = Event(kind: Kind, resonance: Option<real>)

  datatype Reason = ShutdownRequested | EnergyDepleted | Activated | AttentionDropped | StrongerResonance | Confirmed | RemainsArchived | NoTransition

  datatype Transition = Transition(from: Phase, to: Phase, reason: Reason)

  datatype Thread = Thread(id: string, phase: Phase, energy: real, resonance: real, updatedAt: string)

  const WEAKEN_BELOW := 0.3
  const ARCHIVE_BELOW := 0.1
  const SWITCH_DELTA := 0.05

  function Clamp(x: real): real { if x < 0.0 then 0.0 else if x > 1.0 then 1.0 else x }

  function ResonanceHint(e: Event, current: real): real {
    if e.resonance.Some? then Clamp(e.resonance.value) else Clamp(current + 0.1)
  }

  function NextPhase(t: Thread, e: Event): Transition {
    var energy, resonance := Clamp(t.energy), Clamp(t.resonance);
    if e.kind == ShutdownRequest then Transition(t.phase, Archived, ShutdownRequested)
    else if energy < ARCHIVE_BELOW then Transition(t.phase, Archived, EnergyDepleted)
    else
      match t.phase
      case Birth =>
        if e.kind == GoalUpdated || e.kind == NewOpportunity then Transition(Birth, Active, Activated)
        else Transition(Birth, Birth, NoTransition)
      case Active =>
        if e.kind == DropInAttention || energy < WEAKEN_BELOW then Transition(Active, Weakening, AttentionDropped)
        else Transition(Active, Active, NoTransition)
      case Weakening =>
        if (e.kind == NewOpportunity || e.kind == FamilyResonance) && ResonanceHint(e, resonance) > resonance + SWITCH_DELTA
        then Transition(Weakening, Switching, StrongerResonance)
        else Transition(Weakening, Weakening, NoTransition)
      case Switching =>
        if e.kind == GoalUpdated || e.kind == Success then Transition(Switching, Active, Confirmed)
        else Transition(Switching, Switching, NoTransition)
      case Archived => Transition(Archived, Archived, RemainsArchived)
  }

  function AdjustEnergy(to: Phase, energy: real): real {
    match to
    case Active => Clamp(energy + 0.05)
    case Weakening => Clamp(energy - 0.05)
    case Archived => 0.0
    case _ => energy
  }

  /** Only one reason's text mentions success. */
  function AdjustResonance(tr: Transition, resonance: real): real {
    match tr.to
    case Active => Clamp(resonance + 0.05)
    case Weakening => Clamp(resonance - 0.03)
    case Archived => Clamp(resonance - 0.1)
    case _ => if tr.reason == Confirmed then Clamp(resonance + 0.05) else resonance
  }

  function ApplyTransition(t: Thread, tr: Transition, at: string): Thread {
    t.(phase := tr.to, updatedAt := at, energy := AdjustEnergy(tr.to, t.energy), resonance := AdjustResonance(tr, t.resonance))
  }

  /** An event as it reaches one thread. */
  datatype Arrival = Arrival(event: Event, at: string)

  function Step(t: Thread, a: Arrival): Thread { ApplyTransition(t, NextPhase(t, a.event), a.at) }

  /** One thread through a run of events. */
  function Live(t: Thread, run: seq<Arrival>): Thread
    decreases |run|
  {
    if run == [] then t else Live(Step(t, run[0]), run[1..])
  }

  // ---------------------------------------------------------------------------------------
  // Levels, archiving, weakening
  // ---------------------------------------------------------------------------------------

  predicate Level(x: real) { 0.0 <= x <= 1.0 }

  predicate Levelled(t: Thread) { Level(t.energy) && Level(t.resonance) }

  lemma {:induction false} LevelsStay(t: Thread, run: seq<Arrival>)
    requires Levelled(t)
    ensures Levelled(Live(t, run)) && Live(t, run).id == t.id
    decreases |run|
  {
    if run != [] { LevelsStay(Step(t, run[0]), run[1..]); }
  }

  lemma {:induction false} LiveSplit(t: Thread, run: seq<Arrival>, rest: seq<Arrival>)
    ensures Live(t, run + rest) == Live(Live(t, run), rest)
    decreases |run|
  {
    if run == [] {
      assert run + rest == rest;
    } else {
      assert (run + rest)[1..] == run[1..] + rest;
      LiveSplit(Step(t, run[0]), run[1..], rest);
    }
  }

  lemma {:induction false} StaysArchived(t: Thread, run: seq<Arrival>)
    requires t.phase == Archived && t.energy == 0.0
    ensures Live(t, run).phase == Archived && Live(t, run).energy == 0.0
    decreases |run|
  {
    if run != [] { StaysArchived(Step(t, run[0]), run[1..]); }
  }

  /** Archived is absorbing, with energy 0 from the event that enters it on. */
  lemma ArchivedForever(t: Thread, run: seq<Arrival>, rest: seq<Arrival>)
    requires run != [] && Live(t, run).phase == Archived
    ensures Live(t, run + rest).phase == Archived && Live(t, run + rest).energy == 0.0
  {
    var n := |run| - 1;
    assert run == run[..n] + [run[n]];
    LiveSplit(t, run[..n], [run[n]]);
    assert Live(t, run) == Step(Live(t, run[..n]), run[n]);
    LiveSplit(t, run, rest);
    StaysArchived(Live(t, run), rest);
  }

  /** The edges of the life cycle and what takes a thread along each. */
  lemma LifeEdges(t: Thread, a: Arrival)
    requires Levelled(t)
    ensures var u, kind := Step(t, a), a.event.kind;
            var hint := if a.event.resonance.Some? then Clamp(a.event.resonance.value) else Clamp(t.resonance + 0.1);
            if t.phase == Archived || kind == ShutdownRequest || t.energy < 0.1 then u.phase == Archived
            else
              && (t.phase == Birth ==> u.phase == if kind in {GoalUpdated, NewOpportunity} then Active else Birth)
              && (t.phase == Active ==> u.phase == if kind == DropInAttention || t.energy < 0.3 then Weakening else Active)
              && (t.phase == Weakening ==>
                    u.phase == if kind in {NewOpportunity, FamilyResonance} && hint > t.resonance + 0.05
                               then Switching else Weakening)
              && (t.phase == Switching ==> u.phase == if kind in {GoalUpdated, Success} then Active else Switching)
  {
  }

  /** What each phase does to energy and resonance. */
  lemma LevelsExact(t: Thread, a: Arrival)
    requires Levelled(t)
    ensures var u, e, r := Step(t, a), t.energy, t.resonance;
            && u.id == t.id && u.updatedAt == a.at
            && (u.phase == Active ==> u.energy == (if e <= 0.95 then e + 0.05 else 1.0)
                                      && u.resonance == if r <= 0.95 then r + 0.05 else 1.0)
            && (u.phase == Weakening ==> u.energy == (if e >= 0.05 then e - 0.05 else 0.0)
                                         && u.resonance == if r >= 0.03 then r - 0.03 else 0.0)
            && (u.phase == Archived ==> u.energy == 0.0 && u.resonance == if r >= 0.1 then r - 0.1 else 0.0)
            && (u.phase in {Birth, Switching} ==> u.energy == e && u.resonance == r)
  {
  }

  /** The same for threads whose levels are out of range: which phases can follow which. */
  lemma Edges(t: Thread, a: Arrival)
    ensures var to := Step(t, a).phase;
            && (to != t.phase && to != Archived ==>
                  || (t.phase == Birth && to == Active) || (t.phase == Active && to == Weakening)
                  || (t.phase == Weakening && to == Switching) || (t.phase == Switching && to == Active))
            && (t.phase == Archived ==> to == Archived)
  {
  }

  /** A thread that was born and is weakening or switching has been active. */
  lemma {:induction false} ActiveFirst(t: Thread, run: seq<Arrival>) returns (k: nat)
    requires t.phase == Birth && Live(t, run).phase in {Weakening, Switching}
    ensures k < |run| && Live(t, run[..k]).phase == Active
    decreases |run|
  {
    var u := Step(t, run[0]);
    Edges(t, run[0]);
    if u.phase == Active {
      k := 1;
      assert run[..1][1..] == [];
    } else if u.phase == Archived {
      StaysArchived(u, run[1..]);
      assert false;
    } else {
      k := ActiveFirst(u, run[1..]);
      k := k + 1;
      assert run[..k][1..] == run[1..][..k - 1];
    }
  }

  /** After each event of the run the thread is in weakening. */
  ghost predicate StaysWeakening(t: Thread, run: seq<Arrival>) {
    forall k | 0 < k <= |run| :: Live(t, run[..k]).phase == Weakening
  }

  lemma StaysWeakeningStep(t: Thread, run: seq<Arrival>)
    requires run != []
    ensures StaysWeakening(t, run) <==> Step(t, run[0]).phase == Weakening && StaysWeakening(Step(t, run[0]), run[1..])
  {
    var u := Step(t, run[0]);
    forall k | 0 < k <= |run| ensures Live(t, run[..k]) == Live(u, run[1..][..k - 1]) {
      assert run[..k][1..] == run[1..][..k - 1];
    }
    if StaysWeakening(t, run) {
      assert Live(t, run[..1]) == Live(u, run[1..][..0]) == u;
      forall k | 0 < k <= |run[1..]| ensures Live(u, run[1..][..k]).phase == Weakening {
        assert Live(t, run[..k + 1]) == Live(u, run[1..][..k]);
      }
    }
    if u.phase == Weakening && StaysWeakening(u, run[1..]) {
      forall k | 0 < k <= |run| ensures Live(t, run[..k]).phase == Weakening {
        assert k > 1 ==> Live(u, run[1..][..k - 1]).phase == Weakening;
        assert k == 1 ==> Live(u, run[1..][..0]) == u;
      }
    }
  }

  /** Each event in weakening takes a step of 0.05 towards the archive. */
  lemma {:induction false} WeakeningDrains(t: Thread, run: seq<Arrival>)
    requires Levelled(t) && t.phase == Weakening && run != [] && StaysWeakening(t, run)
    ensures t.energy >= ARCHIVE_BELOW + 0.05 * (|run| - 1) as real
    decreases |run|
  {
    StaysWeakeningStep(t, run);
    if |run| > 1 { WeakeningDrains(Step(t, run[0]), run[1..]); }
  }

  /** A thread cannot stay in weakening for 20 events: the first event after which it is
      elsewhere finds it archived or switching. */
  lemma WeakeningEnds(t: Thread, run: seq<Arrival>)
    requires Levelled(t) && t.phase == Weakening && |run| >= 20
    ensures exists k :: FirstExit(t, run, k) && k <= 20
  {
    if StaysWeakening(t, run[..20]) {
      WeakeningDrains(t, run[..20]);
    } else {
      var j :| 0 < j <= 20 && Live(t, run[..20][..j]).phase != Weakening;
      assert run[..20][..j] == run[..j];
      var k := LeastExit(t, run, j);
      assert FirstExit(t, run, k);
    }
  }

  ghost predicate FirstExit(t: Thread, run: seq<Arrival>, k: nat) {
    && 0 < k <= |run| && StaysWeakening(t, run[..k - 1]) && Live(t, run[..k]).phase in {Archived, Switching}
  }

  lemma LeastExit(t: Thread, run: seq<Arrival>, j: nat) returns (k: nat)
    requires t.phase == Weakening && 0 < j <= |run| && Live(t, run[..j]).phase != Weakening
    ensures k <= j && FirstExit(t, run, k)
  {
    k := 1;
    while Live(t, run[..k]).phase == Weakening
      invariant 0 < k <= j && StaysWeakening(t, run[..k - 1])
      decreases j - k
    {
      forall i | 0 < i <= k ensures Live(t, run[..k][..i]).phase == Weakening {
        assert run[..k][..i] == run[..i];
        assert i < k ==> run[..k - 1][..i] == run[..i];
      }
      assert run[..k] == run[..k + 1 - 1];
      k := k + 1;
    }
    assert run[..k] == run[..k - 1] + [run[k - 1]];
    LiveSplit(t, run[..k - 1], [run[k - 1]]);
    assert k > 1 ==> run[..k - 1][..k - 1] == run[..k - 1];
  }

  /** An event that neither shuts down nor offers a switch. */
  predicate Quiet(e: Event) { e.kind !in {ShutdownRequest, NewOpportunity, FamilyResonance} }

  /** Under quiet events the bound is exact: the thread stays in weakening for n events if and
      only if its energy pays for them. */
  lemma {:induction false} WeakeningExact(t: Thread, run: seq<Arrival>)
    requires Levelled(t) && t.phase == Weakening && run != [] && forall i | 0 <= i < |run| :: Quiet(run[i].event)
    ensures StaysWeakening(t, run) <==> t.energy >= ARCHIVE_BELOW + 0.05 * (|run| - 1) as real
    decreases |run|
  {
    StaysWeakeningStep(t, run);
    if |run| > 1 && t.energy >= ARCHIVE_BELOW { WeakeningExact(Step(t, run[0]), run[1..]); }
  }

  // ---------------------------------------------------------------------------------------
  // The map of threads
  // ---------------------------------------------------------------------------------------

  datatype Op = Register(thread: Thread) | Update(id: string, arrival: Arrival)

  predicate HasId(m: seq<Thread>, id: string) { exists i | 0 <= i < |m| :: m[i].id == id }

  function UpdateThread(m: seq<Thread>, id: string, a: Arrival): seq<Thread> {
    seq(|m|, i requires 0 <= i < |m| => if m[i].id == id then Step(m[i], a) else m[i])
  }

  function ApplyOp(m: seq<Thread>, op: Op): seq<Thread> {
    match op
    case Register(t) => if HasId(m, t.id) then m else m + [t]
    case Update(id, a) => UpdateThread(m, id, a)
  }

  function RunOps(ops: seq<Op>): seq<Thread> {
    if ops == [] then [] else ApplyOp(RunOps(ops[..|ops| - 1]), ops[|ops| - 1])
  }

  ghost predicate UniqueIds(m: seq<Thread>) { forall i, j | 0 <= i < j < |m| :: m[i].id != m[j].id }

  /** What one id has been through: its registration, then its own events. */
  function History(ops: seq<Op>, id: string): Option<Thread> {
    if ops == [] then None
    else
      var before, op := History(ops[..|ops| - 1], id), ops[|ops| - 1];
      match op
      case Register(t) => if before.None? && t.id == id then Some(t) else before
      case Update(other, a) => if other == id && before.Some? then Some(Step(before.value, a)) else before
  }

  lemma {:induction false} IdsUnique(ops: seq<Op>)
    ensures UniqueIds(RunOps(ops))
  {
    if ops != [] { IdsUnique(ops[..|ops| - 1]); }
  }

  /** Levels stay in [0, 1] throughout the map. */
  lemma {:induction false} MapLevels(ops: seq<Op>)
    requires forall i | 0 <= i < |ops| && ops[i].Register? :: Levelled(ops[i].thread)
    ensures forall i | 0 <= i < |RunOps(ops)| :: Levelled(RunOps(ops)[i])
  {
    if ops != [] {
      var rest := ops[..|ops| - 1];
      MapLevels(rest);
      forall t: Thread, a | Levelled(t) ensures Levelled(Step(t, a)) { }
    }
  }

  /** Threads do not interfere: in every run the thread of an id is what its own registration
      and its own events make it, whatever happens to the others. */
  lemma {:induction false} NonInterference(ops: seq<Op>, id: string)
    ensures forall i | 0 <= i < |RunOps(ops)| && RunOps(ops)[i].id == id :: History(ops, id) == Some(RunOps(ops)[i])
    ensures HasId(RunOps(ops), id) <==> History(ops, id).Some?
  {
    if ops != [] {
      var rest, op := ops[..|ops| - 1], ops[|ops| - 1];
      NonInterference(rest, id);
      var m, n := RunOps(rest), RunOps(ops);
      if HasId(m, id) {
        var i :| 0 <= i < |m| && m[i].id == id;
        assert n[i].id == id;
      } else if op.Register? && op.thread.id == id {
        assert n[|m|].id == id;
      }
    }
  }
}
