/** The time weave: branches of nodes ordered by tick, and the momentum read off them. */
module TimeWeave {
  import opened StableSort

  /** `mark` stands for the node's id and phase. */
  datatype Node<M> = Node(tick: real, intensity: real, mark: M)

  datatype Branch<M> = Branch(threadId: string, nodes: seq<Node<M>>)

  type Weave<M> = seq<Branch<M>>

  function ClampIntensity(x: real): real { if x < 0.0 then 0.0 else if x > 1.0 then 1.0 else x }

  function Clamped<M>(n: Node<M>): Node<M> { n.(intensity := ClampIntensity(n.intensity)) }

  function ByTick<M>(): (Node<M>, Node<M>) -> bool { (a: Node<M>, b: Node<M>) => a.tick <= b.tick }

  lemma ByTickTotal<M(!new)>()
    ensures TotalPreorder<Node<M>>(ByTick())
  {
  }

  /** The first position with this thread id, or the length. */
  function FindIndex<M>(w: Weave<M>, id: string): (k: nat)
    ensures k <= |w| && (k < |w| ==> w[k].threadId == id) && (forall i | 0 <= i < k :: w[i].threadId != id)
  {
    if w == [] then 0 else if w[0].threadId == id then 0 else 1 + FindIndex(w[1..], id)
  }

  function UpsertBranch<M>(w: Weave<M>, b: Branch<M>): Weave<M> {
    var k := FindIndex(w, b.threadId);
    if k == |w| then w + [b] else w[k := b]
  }

  function AppendNode<M>(w: Weave<M>, id: string, node: Node<M>): Weave<M> {
    var k := FindIndex(w, id);
    if k == |w| then UpsertBranch(w, Branch(id, [Clamped(node)]))
    else UpsertBranch(w, Branch(id, Sort(ByTick(), w[k].nodes + [Clamped(node)])))
  }

  // ---------------------------------------------------------------------------------------
  // Runs of appends
  // ---------------------------------------------------------------------------------------

  datatype Append<M> = Append(id: string, node: Node<M>)

  function Run<M>(log: seq<Append<M>>): Weave<M> {
    if log == [] then [] else AppendNode(Run(log[..|log| - 1]), log[|log| - 1].id, log[|log| - 1].node)
  }

  /** The nodes appended for one thread, with their intensities brought into range. */
  function NodesFor<M>(log: seq<Append<M>>, id: string): seq<Node<M>> {
    if log == [] then []
    else NodesFor(log[..|log| - 1], id) + if log[|log| - 1].id == id then [Clamped(log[|log| - 1].node)] else []
  }

  ghost predicate UniqueThreads<M>(w: Weave<M>) { forall i, j | 0 <= i < j < |w| :: w[i].threadId != w[j].threadId }

  ghost predicate Woven<M>(w: Weave<M>, id: string) { FindIndex(w, id) < |w| }

  /** The branch holds exactly the nodes appended for its thread, in the order of a stable sort. */
  ghost predicate BranchExact<M>(b: Branch<M>, log: seq<Append<M>>) { b.nodes == Sort(ByTick(), NodesFor(log, b.threadId)) }

  ghost predicate Exact<M>(w: Weave<M>, log: seq<Append<M>>) {
    && UniqueThreads(w)
    && (forall i | 0 <= i < |w| :: BranchExact(w[i], log))
    && (forall id :: Woven(w, id) <==> NodesFor(log, id) != [])
  }

  lemma ResortSnoc<M(!new)>(s: seq<Node<M>>, x: Node<M>)
    ensures Sort(ByTick(), Sort(ByTick(), s) + [x]) == Sort(ByTick(), s + [x])
  {
    ByTickTotal<M>();
    var t := Sort(ByTick(), s);
    SortSorted(ByTick(), s);
    SortOfSorted(ByTick(), t);
    assert (t + [x])[..|t|] == t && (s + [x])[..|s|] == s;
  }

  lemma NodesForSnoc<M>(log: seq<Append<M>>, a: Append<M>, id: string)
    ensures NodesFor(log + [a], id) == NodesFor(log, id) + if a.id == id then [Clamped(a.node)] else []
  {
    assert (log + [a])[..|log|] == log;
  }

  lemma WovenAt<M>(w: Weave<M>, id: string, k: nat)
    requires k < |w| && w[k].threadId == id
    ensures Woven(w, id)
  {
  }

  lemma BranchOther<M>(b: Branch<M>, log: seq<Append<M>>, a: Append<M>)
    requires BranchExact(b, log) && b.threadId != a.id
    ensures BranchExact(b, log + [a])
  {
    NodesForSnoc(log, a, b.threadId);
    assert NodesFor(log, b.threadId) + [] == NodesFor(log, b.threadId);
  }

  lemma BranchGrown<M(!new)>(b: Branch<M>, log: seq<Append<M>>, a: Append<M>)
    requires BranchExact(b, log) && b.threadId == a.id
    ensures BranchExact(Branch(a.id, Sort(ByTick(), b.nodes + [Clamped(a.node)])), log + [a])
  {
    NodesForSnoc(log, a, a.id);
    ResortSnoc(NodesFor(log, a.id), Clamped(a.node));
  }

  lemma BranchBorn<M(!new)>(log: seq<Append<M>>, a: Append<M>)
    requires NodesFor(log, a.id) == []
    ensures BranchExact(Branch(a.id, [Clamped(a.node)]), log + [a])
  {
    NodesForSnoc(log, a, a.id);
    ResortSnoc([], Clamped(a.node));
    assert [] + [Clamped(a.node)] == [Clamped(a.node)];
  }

  lemma {:induction false} ThreadsSnoc<M>(w: Weave<M>, b: Branch<M>, id: string)
    ensures Woven(w + [b], id) <==> Woven(w, id) || b.threadId == id
  {
    var v := w + [b];
    if Woven(w, id) { WovenAt(v, id, FindIndex(w, id)); }
    if b.threadId == id { WovenAt(v, id, |w|); }
    if Woven(v, id) && FindIndex(v, id) < |w| { WovenAt(w, id, FindIndex(v, id)); }
  }

  lemma SameThreads<M>(w: Weave<M>, v: Weave<M>, id: string)
    requires |w| == |v| && forall i | 0 <= i < |w| :: w[i].threadId == v[i].threadId
    ensures Woven(w, id) <==> Woven(v, id)
  {
    if Woven(w, id) { WovenAt(v, id, FindIndex(w, id)); }
    if Woven(v, id) { WovenAt(w, id, FindIndex(v, id)); }
  }

  lemma ThreadBorn<M>(w: Weave<M>, b: Branch<M>, log: seq<Append<M>>, a: Append<M>, id: string)
    requires (Woven(w, id) <==> NodesFor(log, id) != []) && b.threadId == a.id
    ensures Woven(w + [b], id) <==> NodesFor(log + [a], id) != []
  {
    NodesForSnoc(log, a, id);
    ThreadsSnoc(w, b, id);
  }

  lemma ThreadKept<M>(w: Weave<M>, v: Weave<M>, log: seq<Append<M>>, a: Append<M>, id: string)
    requires (Woven(w, id) <==> NodesFor(log, id) != []) && Woven(w, a.id)
    requires |w| == |v| && forall i | 0 <= i < |w| :: w[i].threadId == v[i].threadId
    ensures Woven(v, id) <==> NodesFor(log + [a], id) != []
  {
    NodesForSnoc(log, a, id);
    SameThreads(w, v, id);
  }

  lemma {:induction false} BranchesBorn<M(!new)>(w: Weave<M>, b: Branch<M>, log: seq<Append<M>>, a: Append<M>)
    requires (forall i | 0 <= i < |w| :: BranchExact(w[i], log) && w[i].threadId != a.id) && NodesFor(log, a.id) == []
    requires b == Branch(a.id, [Clamped(a.node)])
    ensures forall i | 0 <= i < |w + [b]| :: BranchExact((w + [b])[i], log + [a])
  {
    BranchBorn(log, a);
    forall i | 0 <= i < |w + [b]| ensures BranchExact((w + [b])[i], log + [a]) {
      if i < |w| { BranchOther(w[i], log, a); }
    }
  }

  /** A thread that is new gets a branch of its own at the end. */
  lemma {:induction false} AppendNew<M(!new)>(w: Weave<M>, log: seq<Append<M>>, a: Append<M>)
    requires Exact(w, log) && FindIndex(w, a.id) == |w|
    ensures Exact(AppendNode(w, a.id, a.node), log + [a])
  {
    var b := Branch(a.id, [Clamped(a.node)]);
    assert AppendNode(w, a.id, a.node) == w + [b] && !Woven(w, a.id);
    BranchesBorn(w, b, log, a);
    forall id ensures Woven(w + [b], id) <==> NodesFor(log + [a], id) != [] { ThreadBorn(w, b, log, a, id); }
  }

  /** A thread that is known has its branch sorted anew. */
  lemma {:induction false} AppendOld<M(!new)>(w: Weave<M>, log: seq<Append<M>>, a: Append<M>)
    requires Exact(w, log) && FindIndex(w, a.id) < |w|
    ensures Exact(AppendNode(w, a.id, a.node), log + [a])
  {
    var k := FindIndex(w, a.id);
    var b := Branch(a.id, Sort(ByTick(), w[k].nodes + [Clamped(a.node)]));
    var v := w[k := b];
    assert v == AppendNode(w, a.id, a.node) && Woven(w, a.id);
    BranchGrown(w[k], log, a);
    forall i | 0 <= i < |v| ensures BranchExact(v[i], log + [a]) {
      if i != k { BranchOther(w[i], log, a); }
    }
    forall id ensures Woven(v, id) <==> NodesFor(log + [a], id) != [] { ThreadKept(w, v, log, a, id); }
  }

  lemma {:induction false} RunExact<M(!new)>(log: seq<Append<M>>)
    ensures Exact(Run(log), log)
  {
    if log == [] {
      assert forall id :: !Woven<M>([], id);
    } else {
      var rest, a := log[..|log| - 1], log[|log| - 1];
      RunExact(rest);
      Rebuild(log);
      var w := Run(rest);
      if FindIndex(w, a.id) == |w| { AppendNew(w, rest, a); } else { AppendOld(w, rest, a); }
    }
  }

  predicate InRange(x: real) { 0.0 <= x <= 1.0 }

  lemma {:induction false} NodesForInRange<M>(log: seq<Append<M>>, id: string)
    ensures forall n | n in NodesFor(log, id) :: InRange(n.intensity)
  {
    if log != [] { NodesForInRange(log[..|log| - 1], id); }
  }

  ghost predicate BoundedWeave<M>(w: Weave<M>) {
    forall i, k | 0 <= i < |w| && 0 <= k < |w[i].nodes| :: InRange(w[i].nodes[k].intensity)
  }

  /** Every weave reachable by appends: unique threads, branches sorted by tick, intensities in
      [0, 1], exactly the appended nodes, and nodes of equal tick in the order of their arrival. */
  lemma WeaveInvariants<M(!new)>(log: seq<Append<M>>)
    ensures var w := Run(log);
            && UniqueThreads(w) && BoundedWeave(w)
            && (forall i | 0 <= i < |w| ::
                  && Sorted(ByTick(), w[i].nodes)
                  && multiset(w[i].nodes) == multiset(NodesFor(log, w[i].threadId)) && w[i].nodes != [])
            && (forall i, n | 0 <= i < |w| :: Class(ByTick(), w[i].nodes, n) == Class(ByTick(), NodesFor(log, w[i].threadId), n))
  {
    RunExact(log);
    ByTickTotal<M>();
    var w := Run(log);
    forall i | 0 <= i < |w|
      ensures Sorted(ByTick(), w[i].nodes) && multiset(w[i].nodes) == multiset(NodesFor(log, w[i].threadId)) && w[i].nodes != []
      ensures forall k | 0 <= k < |w[i].nodes| :: InRange(w[i].nodes[k].intensity)
    {
      var ns := NodesFor(log, w[i].threadId);
      WovenAt(w, w[i].threadId, i);
      assert ns != [];
      SortSorted(ByTick(), ns);
      SortPermutes(ByTick(), ns);
      NodesForInRange(log, w[i].threadId);
      forall k | 0 <= k < |w[i].nodes| ensures InRange(w[i].nodes[k].intensity) {
        assert w[i].nodes[k] in multiset(ns);
      }
    }
    forall i, n | 0 <= i < |w| ensures Class(ByTick(), w[i].nodes, n) == Class(ByTick(), NodesFor(log, w[i].threadId), n) {
      SortIsStable(ByTick(), NodesFor(log, w[i].threadId), n);
    }
  }

  // ---------------------------------------------------------------------------------------
  // Momentum
  // ---------------------------------------------------------------------------------------

  const MOMENTUM_WINDOW: nat := 5

  function ClampMinus1To1(x: real): real { if x < -1.0 then -1.0 else if x > 1.0 then 1.0 else x }

  function Window<M>(nodes: seq<Node<M>>): seq<Node<M>> {
    if |nodes| <= MOMENTUM_WINDOW then nodes else nodes[|nodes| - MOMENTUM_WINDOW..]
  }

  function Deltas<M>(nodes: seq<Node<M>>): seq<real>
    requires nodes != []
  {
    seq(|nodes| - 1, i requires 0 <= i < |nodes| - 1 => nodes[i + 1].intensity - nodes[i].intensity)
  }

  function Sum(s: seq<real>): real { if s == [] then 0.0 else Sum(s[..|s| - 1]) + s[|s| - 1] }

  function AverageDelta<M>(nodes: seq<Node<M>>): real
    requires |nodes| >= 2
  {
    Sum(Deltas(nodes)) / (|nodes| - 1) as real
  }

  function BranchMomentum<M>(b: Branch<M>): real {
    var nodes := Window(b.nodes);
    if |nodes| < 2 then 0.0 else ClampMinus1To1(AverageDelta(nodes))
  }

  lemma {:induction false} DeltasTelescope<M>(nodes: seq<Node<M>>)
    requires nodes != []
    ensures Sum(Deltas(nodes)) == nodes[|nodes| - 1].intensity - nodes[0].intensity
  {
    if |nodes| > 1 {
      var rest := nodes[..|nodes| - 1];
      DeltasTelescope(rest);
      assert Deltas(nodes)[..|nodes| - 2] == Deltas(rest);
    }
  }

  lemma Product(a: real, b: real)
    requires a > 0.0 && b > 0.0
    ensures a * b > 0.0
  {
  }

  lemma Unscale(a: real, b: real, n: real)
    requires a * n <= b * n && n > 0.0
    ensures a <= b
  {
    if a > b {
      Product(a - b, n);
    }
  }

  lemma QuotientBetween(lo: real, x: real, hi: real, n: real)
    requires lo * n <= x <= hi * n && n > 0.0
    ensures lo <= x / n <= hi
  {
    var q := x / n;
    assert q * n == x;
    Unscale(lo, q, n);
    Unscale(q, hi, n);
  }

  /** The slope over the last five nodes, or over all if there are fewer. */
  function Slope<M>(b: Branch<M>): real {
    var n := if |b.nodes| < 5 then |b.nodes| else 5;
    if n < 2 then 0.0 else (b.nodes[|b.nodes| - 1].intensity - b.nodes[|b.nodes| - n].intensity) / (n - 1) as real
  }

  /** The momentum of a branch is the slope between the last node and the first of the last five,
      and the clamp never acts. */
  lemma MomentumIsSlope<M>(b: Branch<M>)
    requires forall k | 0 <= k < |b.nodes| :: InRange(b.nodes[k].intensity)
    ensures -1.0 <= BranchMomentum(b) <= 1.0
    ensures |b.nodes| < 2 ==> BranchMomentum(b) == 0.0
    ensures var n := if |b.nodes| < 5 then |b.nodes| else 5;
            n >= 2 ==> BranchMomentum(b)
                       == (b.nodes[|b.nodes| - 1].intensity - b.nodes[|b.nodes| - n].intensity) / (n - 1) as real
  {
    var ns := Window(b.nodes);
    if |ns| >= 2 {
      DeltasTelescope(ns);
      QuotientBetween(-1.0, ns[|ns| - 1].intensity - ns[0].intensity, 1.0, (|ns| - 1) as real);
    }
  }

  datatype Item = Item(momentum: real, weight: real)

  function ItemOf<M>(b: Branch<M>): Item
    requires |b.nodes| >= 2
  {
    var weight := ClampIntensity(b.nodes[|b.nodes| - 1].intensity);
    Item(BranchMomentum(b), if weight > 0.0 then weight else 1.0)
  }

  function Items<M>(w: Weave<M>): seq<Item> {
    if w == [] then []
    else Items(w[..|w| - 1]) + if |w[|w| - 1].nodes| < 2 then [] else [ItemOf(w[|w| - 1])]
  }

  function TotalWeight(items: seq<Item>): real {
    if items == [] then 0.0 else TotalWeight(items[..|items| - 1]) + items[|items| - 1].weight
  }

  function WeightedMomentum(items: seq<Item>): real {
    if items == [] then 0.0
    else WeightedMomentum(items[..|items| - 1]) + items[|items| - 1].momentum * items[|items| - 1].weight
  }

  function FocusMomentumScore<M>(w: Weave<M>): real {
    var items := Items(w);
    if items == [] then 0.0
    else if TotalWeight(items) == 0.0 then 0.0
    else ClampMinus1To1(WeightedMomentum(items) / TotalWeight(items))
  }

  ghost predicate Between(items: seq<Item>, lo: real, hi: real) {
    forall i | 0 <= i < |items| :: items[i].weight > 0.0 && lo <= items[i].momentum <= hi
  }

  lemma Scale(a: real, b: real, weight: real)
    requires a <= b && weight > 0.0
    ensures a * weight <= b * weight
  {
  }

  /** One more item keeps the sum between the bounds. */
  lemma OneMore(lo: real, m: real, hi: real, weight: real, sum: real, total: real)
    requires lo <= m <= hi && weight > 0.0 && lo * total <= sum <= hi * total
    ensures lo * (total + weight) <= sum + m * weight <= hi * (total + weight)
  {
    Scale(lo, m, weight);
    Scale(m, hi, weight);
    assert lo * (total + weight) == lo * total + lo * weight;
    assert hi * (total + weight) == hi * total + hi * weight;
  }

  lemma {:induction false} WeightedBetween(items: seq<Item>, lo: real, hi: real)
    requires Between(items, lo, hi)
    ensures lo * TotalWeight(items) <= WeightedMomentum(items) <= hi * TotalWeight(items)
    ensures TotalWeight(items) >= 0.0 && (items != [] ==> TotalWeight(items) > 0.0)
  {
    if items != [] {
      var rest, last := items[..|items| - 1], items[|items| - 1];
      WeightedBetween(rest, lo, hi);
      OneMore(lo, last.momentum, hi, last.weight, WeightedMomentum(rest), TotalWeight(rest));
    }
  }

  lemma MeanBetween(items: seq<Item>, lo: real, hi: real)
    requires Between(items, lo, hi) && items != []
    ensures TotalWeight(items) > 0.0 && lo <= WeightedMomentum(items) / TotalWeight(items) <= hi
  {
    WeightedBetween(items, lo, hi);
    QuotientBetween(lo, WeightedMomentum(items), hi, TotalWeight(items));
  }

  /** How much a branch counts: as much as its last intensity, or 1 if that is 0. */
  function Weight<M>(b: Branch<M>): real {
    if b.nodes == [] || b.nodes[|b.nodes| - 1].intensity == 0.0 then 1.0 else b.nodes[|b.nodes| - 1].intensity
  }

  function Slopes<M>(): Branch<M> -> real { b => Slope(b) }

  function Weights<M>(): Branch<M> -> real { b => Weight(b) }

  /** Sums over the branches with at least two nodes. */
  function SumOf<M>(w: Weave<M>, weight: Branch<M> -> real): real {
    if w == [] then 0.0
    else SumOf(w[..|w| - 1], weight) + if |w[|w| - 1].nodes| < 2 then 0.0 else weight(w[|w| - 1])
  }

  function WeightedSum<M>(w: Weave<M>, value: Branch<M> -> real, weight: Branch<M> -> real): real {
    if w == [] then 0.0
    else WeightedSum(w[..|w| - 1], value, weight)
         + if |w[|w| - 1].nodes| < 2 then 0.0 else value(w[|w| - 1]) * weight(w[|w| - 1])
  }

  /** Some branch has at least two nodes. */
  predicate Moves<M>(w: Weave<M>) { exists i | 0 <= i < |w| :: |w[i].nodes| >= 2 }

  ghost predicate SlopesBetween<M>(w: Weave<M>, lo: real, hi: real) {
    forall i | 0 <= i < |w| && |w[i].nodes| >= 2 :: lo <= Slope(w[i]) <= hi
  }

  lemma ItemReads<M>(b: Branch<M>)
    requires |b.nodes| >= 2 && forall k | 0 <= k < |b.nodes| :: InRange(b.nodes[k].intensity)
    ensures ItemOf(b) == Item(Slopes()(b), Weights()(b)) && Weights()(b) > 0.0
  {
    MomentumIsSlope(b);
    assert InRange(b.nodes[|b.nodes| - 1].intensity);
  }

  ghost predicate ItemsAre<M>(w: Weave<M>, value: Branch<M> -> real, weight: Branch<M> -> real) {
    forall i | 0 <= i < |w| && |w[i].nodes| >= 2 :: ItemOf(w[i]) == Item(value(w[i]), weight(w[i]))
  }

  lemma AddItem(items: seq<Item>, item: Item)
    ensures TotalWeight(items + [item]) == TotalWeight(items) + item.weight
    ensures WeightedMomentum(items + [item]) == WeightedMomentum(items) + item.momentum * item.weight
  {
    assert (items + [item])[..|items|] == items;
  }

  function Mapped<M>(w: Weave<M>, value: Branch<M> -> real, weight: Branch<M> -> real): seq<Item> {
    if w == [] then []
    else Mapped(w[..|w| - 1], value, weight)
         + if |w[|w| - 1].nodes| < 2 then [] else [Item(value(w[|w| - 1]), weight(w[|w| - 1]))]
  }

  lemma {:induction false} ItemsMapped<M>(w: Weave<M>, value: Branch<M> -> real, weight: Branch<M> -> real)
    requires ItemsAre(w, value, weight)
    ensures Items(w) == Mapped(w, value, weight)
  {
    if w != [] {
      ItemsMapped(w[..|w| - 1], value, weight);
      assert |w[|w| - 1].nodes| >= 2 ==> ItemOf(w[|w| - 1]) == Item(value(w[|w| - 1]), weight(w[|w| - 1]));
    }
  }

  lemma {:induction false} MappedAddUp<M>(w: Weave<M>, value: Branch<M> -> real, weight: Branch<M> -> real)
    ensures var items := Mapped(w, value, weight);
            TotalWeight(items) == SumOf(w, weight) && WeightedMomentum(items) == WeightedSum(w, value, weight)
  {
    if w != [] {
      var rest, last := w[..|w| - 1], w[|w| - 1];
      MappedAddUp(rest, value, weight);
      if |last.nodes| >= 2 {
        AddItem(Mapped(rest, value, weight), Item(value(last), weight(last)));
      } else {
        assert Mapped(w, value, weight) == Mapped(rest, value, weight);
      }
    }
  }

  lemma {:induction false} ItemsMove<M>(w: Weave<M>)
    ensures Items(w) != [] <==> Moves(w)
  {
    if w != [] {
      var rest, last := w[..|w| - 1], w[|w| - 1];
      ItemsMove(rest);
      if Moves(rest) {
        var i :| 0 <= i < |rest| && |rest[i].nodes| >= 2;
        assert |w[i].nodes| >= 2;
      }
    }
  }

  lemma {:induction false} ItemAt<M>(w: Weave<M>, k: nat) returns (i: nat)
    requires k < |Items(w)|
    ensures i < |w| && |w[i].nodes| >= 2 && Items(w)[k] == ItemOf(w[i])
  {
    if k < |Items(w[..|w| - 1])| { i := ItemAt(w[..|w| - 1], k); } else { i := |w| - 1; }
  }

  lemma ItemsRead<M>(w: Weave<M>, lo: real, hi: real)
    requires BoundedWeave(w) && SlopesBetween(w, lo, hi)
    ensures ItemsAre(w, Slopes(), Weights()) && Between(Items(w), lo, hi)
  {
    forall i | 0 <= i < |w| && |w[i].nodes| >= 2
      ensures ItemOf(w[i]) == Item(Slopes()(w[i]), Weights()(w[i])) && ItemOf(w[i]).weight > 0.0
    {
      ItemReads(w[i]);
    }
    forall k | 0 <= k < |Items(w)| ensures Items(w)[k].weight > 0.0 && lo <= Items(w)[k].momentum <= hi {
      var i := ItemAt(w, k);
      assert Slopes()(w[i]) == Slope(w[i]);
    }
  }

  lemma SlopesInRange<M>(w: Weave<M>)
    requires BoundedWeave(w)
    ensures SlopesBetween(w, -1.0, 1.0)
  {
    forall i | 0 <= i < |w| && |w[i].nodes| >= 2 ensures -1.0 <= Slope(w[i]) <= 1.0 { MomentumIsSlope(w[i]); }
  }

  /** The focus score is a true weighted mean of the slopes: it lies between the lowest and the
      highest of them, hence in [-1, 1], and neither the clamp nor the zero-weight case ever acts.
      It is 0 if no branch has two nodes. */
  lemma FocusIsWeightedMean<M>(w: Weave<M>, lo: real, hi: real)
    requires BoundedWeave(w) && SlopesBetween(w, lo, hi)
    ensures Moves(w) ==> SumOf(w, Weights()) > 0.0
                         && FocusMomentumScore(w) == WeightedSum(w, Slopes(), Weights()) / SumOf(w, Weights())
    ensures Moves(w) ==> lo <= FocusMomentumScore(w) <= hi && -1.0 <= FocusMomentumScore(w) <= 1.0
    ensures !Moves(w) ==> FocusMomentumScore(w) == 0.0
  {
    ItemsRead(w, lo, hi);
    ItemsMapped(w, Slopes(), Weights());
    MappedAddUp(w, Slopes(), Weights());
    ItemsMove(w);
    SlopesInRange(w);
    ItemsRead(w, -1.0, 1.0);
    if Moves(w) {
      MeanBetween(Items(w), lo, hi);
      MeanBetween(Items(w), -1.0, 1.0);
    }
  }
}
