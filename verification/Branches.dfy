/** Deterministic branch order of the trace inspector. */
module Branches {
  import opened Texts
  import opened StableSort

  /** `detail` stands for status, path, class, reason and constraints. */
  datatype Branch<D> = Branch(id: string, confidence: Option<real>, detail: D)

  /** A missing confidence scores minus infinity. */
  predicate Above(a: Option<real>, b: Option<real>) { a.Some? && (b.None? || a.value > b.value) }

  /** Collation of ids, such as `localeCompare`: negative or zero where a may stand before b. */
  type Collate = (string, string) -> int

  ghost predicate Collation(collate: Collate) {
    && (forall a, b :: collate(a, b) <= 0 || collate(b, a) <= 0)
    && (forall a, b, c :: collate(a, b) <= 0 && collate(b, c) <= 0 ==> collate(a, c) <= 0)
  }

  predicate Before<D>(collate: Collate, a: Branch<D>, b: Branch<D>) {
    if a.confidence == b.confidence then collate(a.id, b.id) <= 0 else Above(a.confidence, b.confidence)
  }

  function Order<D>(collate: Collate): (Branch<D>, Branch<D>) -> bool { (a, b) => Before(collate, a, b) }

  lemma OrderIsTotal<D(!new)>(collate: Collate)
    requires Collation(collate)
    ensures TotalPreorder<Branch<D>>(Order(collate))
  {
  }

  // ---------------------------------------------------------------------------------------
  // Duplicates
  // ---------------------------------------------------------------------------------------

  predicate HasId<D>(s: seq<Branch<D>>, id: string) { exists i | 0 <= i < |s| :: s[i].id == id }

  /** Keeps the first branch of every id. */
  function Firsts<D>(s: seq<Branch<D>>): seq<Branch<D>> {
    if s == [] then []
    else
      var rest, last := s[..|s| - 1], s[|s| - 1];
      if HasId(rest, last.id) then Firsts(rest) else Firsts(rest) + [last]
  }

  /** The ids of the branches that are dropped, one entry for each. */
  function Repeats<D>(s: seq<Branch<D>>): seq<string> {
    if s == [] then []
    else
      var rest, last := s[..|s| - 1], s[|s| - 1];
      if HasId(rest, last.id) then Repeats(rest) + [last.id] else Repeats(rest)
  }

  ghost predicate DistinctIds<D>(s: seq<Branch<D>>) { forall i, j | 0 <= i < j < |s| :: s[i].id != s[j].id }

  lemma HasIdSnoc<D>(s: seq<Branch<D>>, b: Branch<D>, id: string)
    ensures HasId(s + [b], id) <==> HasId(s, id) || b.id == id
  {
    assert (s + [b])[|s|] == b;
    if HasId(s, id) {
      var i :| 0 <= i < |s| && s[i].id == id;
      assert (s + [b])[i].id == id;
    }
  }

  /** Every id survives once. */
  lemma {:induction false} FirstsIds<D>(s: seq<Branch<D>>)
    ensures DistinctIds(Firsts(s)) && |Firsts(s)| + |Repeats(s)| == |s|
    ensures forall id :: HasId(Firsts(s), id) <==> HasId(s, id)
  {
    if s != [] {
      var rest, last := s[..|s| - 1], s[|s| - 1];
      FirstsIds(rest);
      Rebuild(s);
      forall id ensures HasId(Firsts(s), id) <==> HasId(s, id) {
        HasIdSnoc(rest, last, id);
        HasIdSnoc(Firsts(rest), last, id);
      }
      if !HasId(rest, last.id) { assert !HasId(Firsts(rest), last.id); }
    }
  }

  /** Branch i is the first with its id. */
  ghost predicate FirstOfId<D>(s: seq<Branch<D>>, i: nat)
    requires i < |s|
  {
    forall j | 0 <= j < i :: s[j].id != s[i].id
  }

  /** The positions of the branches that are kept. */
  ghost function Kept<D>(s: seq<Branch<D>>): seq<nat> {
    if s == [] then []
    else
      var n := |s| - 1;
      if HasId(s[..n], s[n].id) then Kept(s[..n]) else Kept(s[..n]) + [n]
  }

  /** The first branch of each id is kept and no other. */
  lemma {:induction false} KeptAreFirst<D>(s: seq<Branch<D>>)
    ensures forall i: nat :: i in Kept(s) <==> i < |s| && FirstOfId(s, i)
  {
    if s != [] {
      var n := |s| - 1;
      KeptAreFirst(s[..n]);
      assert FirstOfId(s, n) <==> !HasId(s[..n], s[n].id);
      forall i | 0 <= i < n ensures FirstOfId(s, i) <==> FirstOfId(s[..n], i) { }
    }
  }

  /** And their order is kept. */
  lemma {:induction false} FirstsInPlace<D>(s: seq<Branch<D>>)
    ensures |Kept(s)| == |Firsts(s)| && forall i, j | 0 <= i < j < |Kept(s)| :: Kept(s)[i] < Kept(s)[j]
    ensures forall k | 0 <= k < |Kept(s)| :: Kept(s)[k] < |s| && Firsts(s)[k] == s[Kept(s)[k]]
  {
    if s != [] { FirstsInPlace(s[..|s| - 1]); }
  }

  /** Of each id the first branch is kept, in its place. */
  lemma FirstsAt<D>(s: seq<Branch<D>>) returns (at: seq<nat>)
    ensures |at| == |Firsts(s)| && (forall i, j | 0 <= i < j < |at| :: at[i] < at[j])
    ensures forall k | 0 <= k < |at| :: at[k] < |s| && Firsts(s)[k] == s[at[k]]
    ensures forall i: nat :: i in at <==> i < |s| && forall j | 0 <= j < i :: s[j].id != s[i].id
  {
    at := Kept(s);
    KeptAreFirst(s);
    FirstsInPlace(s);
  }

  /** Without duplicates nothing is dropped. */
  lemma {:induction false} FirstsOfDistinct<D>(s: seq<Branch<D>>)
    requires DistinctIds(s)
    ensures Firsts(s) == s
  {
    if s != [] {
      FirstsOfDistinct(s[..|s| - 1]);
      Rebuild(s);
    }
  }

  ghost function Ids<D>(s: seq<Branch<D>>): set<string> { set b | b in s :: b.id }

  lemma {:induction false} DistinctByCount<D>(s: seq<Branch<D>>)
    ensures |Ids(s)| <= |s| && (|Ids(s)| == |s| <==> DistinctIds(s))
  {
    if s != [] {
      var rest, last := s[..|s| - 1], s[|s| - 1];
      DistinctByCount(rest);
      Rebuild(s);
      assert Ids(s) == Ids(rest) + {last.id};
      assert last.id in Ids(rest) <==> exists i | 0 <= i < |rest| :: rest[i].id == last.id;
      assert DistinctIds(s) ==> DistinctIds(rest);
    }
  }

  lemma PermutedDistinct<D>(s: seq<Branch<D>>, t: seq<Branch<D>>)
    requires DistinctIds(s) && multiset(s) == multiset(t)
    ensures DistinctIds(t)
  {
    DistinctByCount(s);
    DistinctByCount(t);
    assert |multiset(s)| == |s| && |multiset(t)| == |t|;
    assert forall b :: b in s <==> b in multiset(s);
    assert forall b :: b in t <==> b in multiset(t);
    assert Ids(s) == Ids(t);
  }

  // ---------------------------------------------------------------------------------------
  // Normalising
  // ---------------------------------------------------------------------------------------

  datatype Remark = Reordered | Unsorted

  datatype Normalized<D> = Normalized(
    branches: seq<Branch<D>>, duplicates: seq<string>, missing: seq<string>, outOfRange: seq<string>, normalizations: seq<Remark>)

  /** The normal order of a list of branches. */
  function Normal<D>(collate: Collate, s: seq<Branch<D>>): seq<Branch<D>> { Sort(Order(collate), Firsts(s)) }

  /** Some confidence is higher than one given before it. */
  ghost predicate Climbs<D>(s: seq<Branch<D>>) {
    exists i, j | 0 <= i < j < |s| :: Above(s[j].confidence, s[i].confidence) && s[i].confidence.Some?
  }

  ghost function LastConfidence<D>(s: seq<Branch<D>>): Option<real> {
    if s == [] then None
    else if s[|s| - 1].confidence.Some? then s[|s| - 1].confidence
    else LastConfidence(s[..|s| - 1])
  }

  lemma LastConfidenceSnoc<D>(s: seq<Branch<D>>, b: Branch<D>)
    ensures LastConfidence(s + [b]) == if b.confidence.Some? then b.confidence else LastConfidence(s)
  {
    assert (s + [b])[..|s|] == s;
  }

  lemma {:induction false} LastConfidenceLowest<D>(s: seq<Branch<D>>)
    requires !Climbs(s)
    ensures forall i | 0 <= i < |s| && s[i].confidence.Some? ::
              LastConfidence(s).Some? && LastConfidence(s).value <= s[i].confidence.value
    ensures LastConfidence(s).Some? ==> exists i | 0 <= i < |s| :: s[i].confidence == LastConfidence(s)
  {
    if s != [] {
      var rest, last := s[..|s| - 1], s[|s| - 1];
      assert !Climbs(rest);
      LastConfidenceLowest(rest);
      Rebuild(s);
      if last.confidence.Some? {
        forall i | 0 <= i < |s| - 1 && s[i].confidence.Some? ensures last.confidence.value <= s[i].confidence.value {
          assert !Above(s[|s| - 1].confidence, s[i].confidence);
        }
        assert s[|s| - 1].confidence == LastConfidence(s);
      } else if LastConfidence(rest).Some? {
        var i :| 0 <= i < |rest| && rest[i].confidence == LastConfidence(rest);
        assert s[i].confidence == LastConfidence(s);
      }
    }
  }

  /** Looking at the last confidence alone detects every climb. */
  lemma ClimbsSnoc<D>(s: seq<Branch<D>>, b: Branch<D>)
    ensures Climbs(s + [b]) <==>
            Climbs(s) || (b.confidence.Some? && LastConfidence(s).Some? && b.confidence.value > LastConfidence(s).value)
  {
    var t := s + [b];
    if Climbs(s) {
      var i, j :| 0 <= i < j < |s| && Above(s[j].confidence, s[i].confidence) && s[i].confidence.Some?;
      assert Above(t[j].confidence, t[i].confidence) && t[i].confidence.Some?;
    } else {
      LastConfidenceLowest(s);
      if b.confidence.Some? && LastConfidence(s).Some? && b.confidence.value > LastConfidence(s).value {
        var i :| 0 <= i < |s| && s[i].confidence == LastConfidence(s);
        assert t[i] == s[i] && t[|s|] == b;
        assert Above(t[|s|].confidence, t[i].confidence);
      } else {
        forall i, j | 0 <= i < j < |t| ensures !(Above(t[j].confidence, t[i].confidence) && t[i].confidence.Some?) {
          assert t[i] == s[i];
          assert t[j] == if j < |s| then s[j] else b;
        }
      }
    }
  }

  predicate Missing<D>(b: Branch<D>) { b.confidence.None? }

  predicate OutOfRange<D>(b: Branch<D>) { b.confidence.Some? && (b.confidence.value < 0.0 || b.confidence.value > 1.0) }

  /** The ids of the branches of some kind. */
  function NamesOf<D>(s: seq<Branch<D>>, kind: Branch<D> -> bool): seq<string> {
    if s == [] then [] else NamesOf(s[..|s| - 1], kind) + if kind(s[|s| - 1]) then [s[|s| - 1].id] else []
  }

  lemma NamesSnoc<D>(s: seq<Branch<D>>, b: Branch<D>, kind: Branch<D> -> bool)
    ensures NamesOf(s + [b], kind) == NamesOf(s, kind) + if kind(b) then [b.id] else []
  {
    assert (s + [b])[..|s|] == s;
  }

  lemma SameIdsSame<D>(s: seq<Branch<D>>, t: seq<Branch<D>>)
    requires DistinctIds(s) && multiset(s) == multiset(t) && |s| == |t| && forall k | 0 <= k < |s| :: s[k].id == t[k].id
    ensures s == t
  {
    forall k | 0 <= k < |s| ensures s[k] == t[k] {
      assert t[k] in multiset(s);
      var m :| 0 <= m < |s| && s[m] == t[k];
      assert m == k;
    }
  }

  lemma FirstsSnoc<D>(s: seq<Branch<D>>, b: Branch<D>)
    ensures Firsts(s + [b]) == if HasId(s, b.id) then Firsts(s) else Firsts(s) + [b]
    ensures Repeats(s + [b]) == if HasId(s, b.id) then Repeats(s) + [b.id] else Repeats(s)
  {
    assert (s + [b])[..|s|] == s;
  }

  ghost predicate SeenExact<D>(done: seq<Branch<D>>, seen: set<string>) { forall id :: id in seen <==> HasId(done, id) }

  lemma SeenSnoc<D>(done: seq<Branch<D>>, seen: set<string>, b: Branch<D>)
    requires SeenExact(done, seen)
    ensures SeenExact(done + [b], seen + {b.id})
  {
    forall id ensures id in seen + {b.id} <==> HasId(done + [b], id) { HasIdSnoc(done, b, id); }
  }

  /** What the loop notes about the branches it keeps. */
  datatype Tally = Tally(missing: seq<string>, outOfRange: seq<string>, unsorted: bool, last: Option<real>)

  ghost predicate TallyExact<D>(kept: seq<Branch<D>>, t: Tally) {
    && t.unsorted == Climbs(kept) && t.last == LastConfidence(kept)
    && t.missing == NamesOf(kept, Missing) && t.outOfRange == NamesOf(kept, OutOfRange)
  }

  method Note<D>(ghost kept: seq<Branch<D>>, entry: Branch<D>, t: Tally) returns (u: Tally)
    requires TallyExact(kept, t)
    ensures TallyExact(kept + [entry], u)
  {
    ClimbsSnoc(kept, entry);
    LastConfidenceSnoc(kept, entry);
    NamesSnoc(kept, entry, Missing);
    NamesSnoc(kept, entry, OutOfRange);
    u := t;
    if entry.confidence.None? {
      u := u.(missing := t.missing + [entry.id]);
    } else {
      var confidence := entry.confidence.value;
      if confidence < 0.0 || confidence > 1.0 { u := u.(outOfRange := t.outOfRange + [entry.id]); }
      if t.last.Some? && confidence > t.last.value { u := u.(unsorted := true); }
      u := u.(last := Some(confidence));
    }
  }

  /** The loop over the entries. */
  method Collect<D>(entries: seq<Branch<D>>) returns (kept: seq<Branch<D>>, duplicates: seq<string>, tally: Tally)
    ensures kept == Firsts(entries) && duplicates == Repeats(entries) && TallyExact(kept, tally)
  {
    kept, duplicates, tally := [], [], Tally([], [], false, None);
    var seen: set<string> := {};
    ghost var done: seq<Branch<D>> := [];
    for i := 0 to |entries|
      invariant done == entries[..i] && kept == Firsts(done) && duplicates == Repeats(done)
      invariant SeenExact(done, seen) && TallyExact(kept, tally)
    {
      var entry := entries[i];
      assert entries[..i + 1] == done + [entry];
      assert entry.id in seen <==> HasId(done, entry.id);
      FirstsSnoc(done, entry);
      SeenSnoc(done, seen, entry);
      if entry.id in seen {
        duplicates := duplicates + [entry.id];
      } else {
        tally := Note(kept, entry, tally);
        kept := kept + [entry];
      }
      seen := seen + {entry.id};
      done := done + [entry];
    }
    assert entries[..|entries|] == entries;
  }

  method NormalizeBranches<D>(entries: seq<Branch<D>>, collate: Collate) returns (r: Normalized<D>)
    ensures r.branches == Normal(collate, entries) && r.duplicates == Repeats(entries)
    ensures r.missing == NamesOf(Firsts(entries), Missing) && r.outOfRange == NamesOf(Firsts(entries), OutOfRange)
    ensures r.normalizations == if Normal(collate, entries) != Firsts(entries) then [Reordered]
                                else if Climbs(Firsts(entries)) then [Unsorted] else []
  {
    var kept, duplicates, tally := Collect(entries);
    var branches := Sort(Order(collate), kept);
    FirstsIds(entries);
    SortPermutes(Order(collate), kept);
    var reordered := exists k | 0 <= k < |kept| :: branches[k].id != kept[k].id;
    if !reordered { SameIdsSame(kept, branches); }
    var normalizations := [];
    if reordered { normalizations := [Reordered]; }
    if tally.unsorted && !reordered { normalizations := normalizations + [Unsorted]; }
    r := Normalized(branches, duplicates, tally.missing, tally.outOfRange, normalizations);
  }

  // ---------------------------------------------------------------------------------------
  // Determinism
  // ---------------------------------------------------------------------------------------

  lemma SortedNeverClimbs<D(!new)>(collate: Collate, s: seq<Branch<D>>)
    requires Sorted(Order(collate), s)
    ensures !Climbs(s)
  {
    forall i, j | 0 <= i < j < |s| ensures !(Above(s[j].confidence, s[i].confidence) && s[i].confidence.Some?) {
      assert Order<D>(collate)(s[i], s[j]);
    }
  }

  /** Descending confidence, branches without one last, and then by id. */
  ghost predicate InOrder<D>(collate: Collate, s: seq<Branch<D>>) {
    && (forall i, j | 0 <= i < j < |s| && s[j].confidence.Some? ::
          s[i].confidence.Some? && s[i].confidence.value >= s[j].confidence.value)
    && (forall i, j | 0 <= i < j < |s| && s[i].confidence == s[j].confidence :: collate(s[i].id, s[j].id) <= 0)
  }

  lemma SortedExact<D(!new)>(collate: Collate, s: seq<Branch<D>>)
    ensures Sorted(Order(collate), s) <==> InOrder(collate, s)
  {
    assert forall i, j | 0 <= i < j < |s| :: Order<D>(collate)(s[i], s[j]) <==> Before(collate, s[i], s[j]);
    if InOrder(collate, s) {
      forall i, j | 0 <= i < j < |s| ensures Before(collate, s[i], s[j]) {
        assert s[j].confidence.Some? ==> s[i].confidence.Some? && s[i].confidence.value >= s[j].confidence.value;
      }
    }
  }

  /** The output is the kept branches in descending confidence, then id; and the notes say
      whether they were not yet in that order.  The second note is never written. */
  lemma NormalOrder<D(!new)>(collate: Collate, s: seq<Branch<D>>)
    requires Collation(collate)
    ensures var out := Normal(collate, s);
            && multiset(out) == multiset(Firsts(s)) && DistinctIds(out)
            && (forall i, j | 0 <= i < j < |out| && out[j].confidence.Some? ::
                  out[i].confidence.Some? && out[i].confidence.value >= out[j].confidence.value)
            && (forall i, j | 0 <= i < j < |out| && out[i].confidence == out[j].confidence ::
                  collate(out[i].id, out[j].id) <= 0)
            && (out == Firsts(s) <==> InOrder(collate, Firsts(s)))
            && (out == Firsts(s) ==> !Climbs(Firsts(s)))
  {
    var kept := Firsts(s);
    OrderIsTotal<D>(collate);
    FirstsIds(s);
    SortPermutes(Order(collate), kept);
    SortSorted(Order(collate), kept);
    PermutedDistinct(kept, Normal(collate, s));
    SortedExact(collate, Normal(collate, s));
    SortedExact(collate, kept);
    if Sorted(Order(collate), kept) {
      SortOfSorted(Order(collate), kept);
      SortedNeverClimbs(collate, kept);
    }
  }

  /** Normalising a normal list changes nothing and records nothing. */
  lemma NormalTwice<D(!new)>(collate: Collate, s: seq<Branch<D>>)
    requires Collation(collate)
    ensures var out := Normal(collate, s);
            Normal(collate, out) == Firsts(out) == out && Repeats(out) == [] && !Climbs(out)
  {
    var out := Normal(collate, s);
    NormalOrder(collate, s);
    FirstsOfDistinct(out);
    FirstsIds(out);
    OrderIsTotal<D>(collate);
    SortSorted(Order(collate), Firsts(s));
    SortOfSorted(Order(collate), out);
    SortedNeverClimbs(collate, out);
  }

  /** Two branches the order cannot tell apart. */
  ghost predicate Twins<D>(collate: Collate, a: Branch<D>, b: Branch<D>) {
    a.confidence == b.confidence && collate(a.id, b.id) <= 0 && collate(b.id, a.id) <= 0
  }

  /** For branches with distinct ids the output is the same for every order of the input, exactly
      if no two of them have equal confidence and ids that collate alike. */
  lemma BranchDeterminism<D(!new)>(collate: Collate, s: seq<Branch<D>>)
    requires Collation(collate) && DistinctIds(s)
    ensures (forall t | multiset(t) == multiset(s) :: Normal(collate, t) == Normal(collate, s))
            <==> forall i, j | 0 <= i < j < |s| :: !Twins(collate, s[i], s[j])
  {
    OrderIsTotal<D>(collate);
    var le := Order<D>(collate);
    FirstsOfDistinct(s);
    forall t | multiset(t) == multiset(s) ensures Normal(collate, t) == Sort(le, t) {
      PermutedDistinct(s, t);
      FirstsOfDistinct(t);
    }
    DeterministicExact(le, s);
    TwinsTie(collate, s);
    assert Deterministic(le, s) <==> forall t | multiset(t) == multiset(s) :: Normal(collate, t) == Normal(collate, s);
  }

  lemma TwinsTie<D(!new)>(collate: Collate, s: seq<Branch<D>>)
    requires Collation(collate) && DistinctIds(s)
    ensures TieFree(Order(collate), s) <==> forall i, j | 0 <= i < j < |s| :: !Twins(collate, s[i], s[j])
  {
    var le := Order<D>(collate);
    assert forall a, b :: Ties(le, a, b) <==> Twins(collate, a, b);
    if !TieFree(le, s) {
      var a, b :| a in s && b in s && Ties(le, a, b) && a != b;
      var i, j :| 0 <= i < |s| && s[i] == a && 0 <= j < |s| && s[j] == b;
      assert Twins(collate, s[i], s[j]) && Twins(collate, s[j], s[i]);
    } else {
      forall i, j | 0 <= i < j < |s| ensures !Twins(collate, s[i], s[j]) {
        assert s[i] in s && s[j] in s && s[i] != s[j];
        assert !Ties(le, s[i], s[j]);
      }
    }
  }
}
