/** JavaScript's stable sort, for any consistent comparison: it sorts, permutes and keeps ties in
    order, nothing else does, and the result is independent of the input's order exactly if no two
    elements tie. */
module StableSort {

  ghost predicate TotalPreorder<T(!new)>(le: (T, T) -> bool) {
    && (forall a, b :: le(a, b) || le(b, a))
    && (forall a, b, c :: le(a, b) && le(b, c) ==> le(a, c))
  }

  predicate Ties<T>(le: (T, T) -> bool, a: T, b: T) { le(a, b) && le(b, a) }

  ghost predicate Sorted<T>(le: (T, T) -> bool, s: seq<T>) { forall i, j | 0 <= i < j < |s| :: le(s[i], s[j]) }

  /** Puts x behind everything that may stand before it. */
  function Insert<T>(le: (T, T) -> bool, s: seq<T>, x: T): seq<T> {
    if s == [] || le(s[|s| - 1], x) then s + [x] else Insert(le, s[..|s| - 1], x) + [s[|s| - 1]]
  }

  function Sort<T>(le: (T, T) -> bool, s: seq<T>): seq<T> {
    if s == [] then [] else Insert(le, Sort(le, s[..|s| - 1]), s[|s| - 1])
  }

  /** The elements that tie with x, in order. */
  function Class<T>(le: (T, T) -> bool, s: seq<T>, x: T): seq<T> {
    if s == [] then []
    else Class(le, s[..|s| - 1], x) + if Ties(le, s[|s| - 1], x) then [s[|s| - 1]] else []
  }

  lemma Rebuild<T>(s: seq<T>)
    requires s != []
    ensures s[..|s| - 1] + [s[|s| - 1]] == s
  {
  }

  lemma {:induction false} InsertPermutes<T>(le: (T, T) -> bool, s: seq<T>, x: T)
    ensures multiset(Insert(le, s, x)) == multiset(s) + multiset{x} && |Insert(le, s, x)| == |s| + 1
  {
    if !(s == [] || le(s[|s| - 1], x)) {
      InsertPermutes(le, s[..|s| - 1], x);
      Rebuild(s);
    }
  }

  lemma {:induction false} SortPermutes<T>(le: (T, T) -> bool, s: seq<T>)
    ensures multiset(Sort(le, s)) == multiset(s) && |Sort(le, s)| == |s|
  {
    if s != [] {
      SortPermutes(le, s[..|s| - 1]);
      InsertPermutes(le, Sort(le, s[..|s| - 1]), s[|s| - 1]);
      Rebuild(s);
    }
  }

  lemma SortedSnoc<T(!new)>(le: (T, T) -> bool, s: seq<T>, x: T)
    requires TotalPreorder(le) && Sorted(le, s) && (s == [] || le(s[|s| - 1], x))
    ensures Sorted(le, s + [x])
  {
    forall i | 0 <= i < |s| ensures le(s[i], x) {
      assert i < |s| - 1 ==> le(s[i], s[|s| - 1]);
    }
  }

  lemma {:induction false} InsertSorted<T(!new)>(le: (T, T) -> bool, s: seq<T>, x: T)
    requires TotalPreorder(le) && Sorted(le, s)
    ensures Sorted(le, Insert(le, s, x))
  {
    if s == [] || le(s[|s| - 1], x) {
      SortedSnoc(le, s, x);
    } else {
      var rest, last := s[..|s| - 1], s[|s| - 1];
      InsertSorted(le, rest, x);
      InsertPermutes(le, rest, x);
      var r := Insert(le, rest, x);
      assert r[|r| - 1] in multiset(r);
      assert le(r[|r| - 1], last) by {
        if r[|r| - 1] != x {
          assert r[|r| - 1] in multiset(rest);
          var k :| 0 <= k < |rest| && rest[k] == r[|r| - 1];
          assert le(s[k], s[|s| - 1]);
        }
      }
      SortedSnoc(le, r, last);
    }
  }

  lemma {:induction false} SortSorted<T(!new)>(le: (T, T) -> bool, s: seq<T>)
    requires TotalPreorder(le)
    ensures Sorted(le, Sort(le, s))
  {
    if s != [] {
      SortSorted(le, s[..|s| - 1]);
      InsertSorted(le, Sort(le, s[..|s| - 1]), s[|s| - 1]);
    }
  }

  lemma ClassSnoc<T>(le: (T, T) -> bool, s: seq<T>, x: T, y: T)
    ensures Class(le, s + [x], y) == Class(le, s, y) + if Ties(le, x, y) then [x] else []
  {
    assert (s + [x])[..|s|] == s;
  }

  lemma NotBoth<T(!new)>(le: (T, T) -> bool, a: T, b: T, y: T)
    requires TotalPreorder(le) && !le(a, b)
    ensures !(Ties(le, a, y) && Ties(le, b, y))
  {
  }

  lemma {:induction false} InsertStable<T(!new)>(le: (T, T) -> bool, s: seq<T>, x: T, y: T)
    requires TotalPreorder(le)
    ensures Class(le, Insert(le, s, x), y) == Class(le, s + [x], y)
  {
    if !(s == [] || le(s[|s| - 1], x)) {
      var rest, last := s[..|s| - 1], s[|s| - 1];
      Rebuild(s);
      InsertStable(le, rest, x, y);
      ClassSnoc(le, Insert(le, rest, x), last, y);
      ClassSnoc(le, rest, x, y);
      ClassSnoc(le, rest, last, y);
      ClassSnoc(le, s, x, y);
      NotBoth(le, last, x, y);
    }
  }

  /** Elements that tie keep their order. */
  lemma {:induction false} SortIsStable<T(!new)>(le: (T, T) -> bool, s: seq<T>, y: T)
    requires TotalPreorder(le)
    ensures Class(le, Sort(le, s), y) == Class(le, s, y)
  {
    if s != [] {
      var rest, last := s[..|s| - 1], s[|s| - 1];
      Rebuild(s);
      SortIsStable(le, rest, y);
      InsertStable(le, Sort(le, rest), last, y);
      ClassSnoc(le, Sort(le, rest), last, y);
      ClassSnoc(le, rest, last, y);
    }
  }

  lemma {:induction false} ClassMembers<T>(le: (T, T) -> bool, s: seq<T>, y: T, x: T)
    ensures x in Class(le, s, y) <==> x in s && Ties(le, x, y)
  {
    if s != [] {
      ClassMembers(le, s[..|s| - 1], y, x);
      Rebuild(s);
    }
  }

  lemma ClassPop<T>(le: (T, T) -> bool, p: seq<T>, a: T, q: seq<T>, x: T)
    requires Class(le, p + [a], x) == Class(le, q + [a], x)
    ensures Class(le, p, x) == Class(le, q, x)
  {
    ClassSnoc(le, p, a, x);
    ClassSnoc(le, q, a, x);
    var tail := if Ties(le, a, x) then [a] else [];
    assert Class(le, p, x) == (Class(le, p, x) + tail)[..|Class(le, p, x)|];
    assert Class(le, q, x) == (Class(le, q, x) + tail)[..|Class(le, q, x)|];
  }

  lemma LastAbove<T(!new)>(le: (T, T) -> bool, s: seq<T>, x: T)
    requires TotalPreorder(le) && Sorted(le, s) && x in s
    ensures le(x, s[|s| - 1])
  {
    var k :| 0 <= k < |s| && s[k] == x;
    assert k < |s| - 1 ==> le(s[k], s[|s| - 1]);
  }

  lemma SameMember<T(!new)>(le: (T, T) -> bool, s: seq<T>, t: seq<T>, x: T)
    requires TotalPreorder(le) && Class(le, s, x) == Class(le, t, x) && x in s
    ensures x in t
  {
    assert Ties(le, x, x);
    ClassMembers(le, s, x, x);
    ClassMembers(le, t, x, x);
  }

  /** Sorted sequences with the same classes end alike. */
  lemma SameLast<T(!new)>(le: (T, T) -> bool, s: seq<T>, t: seq<T>)
    requires TotalPreorder(le) && Sorted(le, s) && Sorted(le, t) && (forall x :: Class(le, s, x) == Class(le, t, x)) && s != []
    ensures t != [] && s[|s| - 1] == t[|t| - 1]
  {
    SameMember(le, s, t, s[|s| - 1]);
    var a, b := s[|s| - 1], t[|t| - 1];
    SameMember(le, t, s, b);
    LastAbove(le, s, b);
    LastAbove(le, t, a);
    Rebuild(s);
    Rebuild(t);
    assert Ties(le, a, a) && Class(le, s, a) == Class(le, t, a);
    ClassLast(le, s[..|s| - 1], a, a);
    ClassLast(le, t[..|t| - 1], b, a);
  }

  lemma SameClasses<T(!new)>(le: (T, T) -> bool, p: seq<T>, q: seq<T>, a: T)
    requires forall x :: Class(le, p + [a], x) == Class(le, q + [a], x)
    ensures forall x :: Class(le, p, x) == Class(le, q, x)
  {
    forall x ensures Class(le, p, x) == Class(le, q, x) {
      assert Class(le, p + [a], x) == Class(le, q + [a], x);
      ClassPop(le, p, a, q, x);
    }
  }

  /** A stable sort has one possible outcome, whatever the algorithm. */
  lemma {:induction false} StableSortUnique<T(!new)>(le: (T, T) -> bool, s: seq<T>, t: seq<T>)
    requires TotalPreorder(le) && Sorted(le, s) && Sorted(le, t) && (forall x :: Class(le, s, x) == Class(le, t, x))
    ensures s == t
  {
    if s == [] {
      if t != [] { SameMember(le, t, s, t[0]); }
    } else {
      SameLast(le, s, t);
      var p, q, a := s[..|s| - 1], t[..|t| - 1], s[|s| - 1];
      Rebuild(s);
      Rebuild(t);
      SameClasses(le, p, q, a);
      StableSortUnique(le, p, q);
    }
  }

  lemma SortOfSorted<T(!new)>(le: (T, T) -> bool, s: seq<T>)
    requires TotalPreorder(le) && Sorted(le, s)
    ensures Sort(le, s) == s
  {
    SortSorted(le, s);
    forall x ensures Class(le, Sort(le, s), x) == Class(le, s, x) { SortIsStable(le, s, x); }
    StableSortUnique(le, Sort(le, s), s);
  }

  /** Only equal elements tie. */
  ghost predicate TieFree<T>(le: (T, T) -> bool, s: seq<T>) { forall a, b | a in s && b in s && Ties(le, a, b) :: a == b }

  lemma PopSame<T>(p: seq<T>, q: seq<T>, a: T)
    requires multiset(p + [a]) == multiset(q + [a])
    ensures multiset(p) == multiset(q)
  {
    assert multiset(p + [a]) == multiset(p) + multiset{a} && multiset(q + [a]) == multiset(q) + multiset{a};
    assert multiset(p) + multiset{a} - multiset{a} == multiset(p);
    assert multiset(q) + multiset{a} - multiset{a} == multiset(q);
  }

  lemma {:induction false} SortedPermutationUnique<T(!new)>(le: (T, T) -> bool, s: seq<T>, t: seq<T>)
    requires TotalPreorder(le) && Sorted(le, s) && Sorted(le, t) && multiset(s) == multiset(t) && TieFree(le, s)
    ensures s == t
  {
    if s == [] {
      assert |multiset(s)| == |s| && |multiset(t)| == |t|;
    } else {
      assert s[|s| - 1] in multiset(t);
      var a, b := s[|s| - 1], t[|t| - 1];
      assert b in multiset(s);
      LastAbove(le, s, b);
      LastAbove(le, t, a);
      Rebuild(s);
      Rebuild(t);
      var p, q := s[..|s| - 1], t[..|t| - 1];
      assert a in s && b in s && Ties(le, a, b);
      PopSame(p, q, a);
      SortedPermutationUnique(le, p, q);
    }
  }

  /** Every permutation of s sorts to the same sequence. */
  ghost predicate Deterministic<T(!new)>(le: (T, T) -> bool, s: seq<T>) {
    forall t | multiset(t) == multiset(s) :: Sort(le, t) == Sort(le, s)
  }

  /** Sorting forgets the input's order exactly if distinct elements never tie. */
  lemma DeterministicExact<T(!new)>(le: (T, T) -> bool, s: seq<T>)
    requires TotalPreorder(le)
    ensures Deterministic(le, s) <==> TieFree(le, s)
  {
    if TieFree(le, s) {
      forall t | multiset(t) == multiset(s) ensures Sort(le, t) == Sort(le, s) {
        SortSorted(le, s);
        SortSorted(le, t);
        SortPermutes(le, s);
        SortPermutes(le, t);
        assert forall a | a in Sort(le, s) :: a in multiset(s);
        SortedPermutationUnique(le, Sort(le, s), Sort(le, t));
      }
    } else {
      var a, b :| a in s && b in s && Ties(le, a, b) && a != b;
      TieShows(le, s, a, b);
    }
  }

  lemma SwapTwo<T(!new)>(s: seq<T>, a: T, b: T) returns (t: seq<T>, u: seq<T>, rest: seq<T>)
    requires a in s && b in s && a != b
    ensures t == rest + [a] + [b] && u == rest + [b] + [a] && multiset(t) == multiset(s) == multiset(u)
  {
    var less := Remove(s, a);
    assert b in multiset(s) && b in multiset(less);
    rest := Remove(less, b);
    t, u := rest + [a] + [b], rest + [b] + [a];
    PutBack(multiset(s), a, b);
    TwoSnocs(rest, a, b);
    TwoSnocs(rest, b, a);
  }

  lemma PutBack<T>(m: multiset<T>, a: T, b: T)
    requires a in m && b in m && a != b
    ensures m - multiset{a} - multiset{b} + multiset{a} + multiset{b} == m
    ensures m - multiset{a} - multiset{b} + multiset{b} + multiset{a} == m
  {
  }

  lemma TwoSnocs<T>(s: seq<T>, a: T, b: T)
    ensures multiset(s + [a] + [b]) == multiset(s) + multiset{a} + multiset{b}
  {
  }

  lemma TieShows<T(!new)>(le: (T, T) -> bool, s: seq<T>, a: T, b: T)
    requires TotalPreorder(le) && a in s && b in s && Ties(le, a, b) && a != b
    ensures !Deterministic(le, s)
  {
    var t, u, rest := SwapTwo(s, a, b);
    assert Ties(le, a, a);
    ClassLast(le, rest + [a], b, a);
    ClassLast(le, rest + [b], a, a);
    SortIsStable(le, t, a);
    SortIsStable(le, u, a);
    Differ(le, Sort(le, t), Sort(le, u), a, a, b);
  }

  lemma ClassLast<T>(le: (T, T) -> bool, s: seq<T>, x: T, y: T)
    requires Ties(le, x, y)
    ensures var c := Class(le, s + [x], y); c != [] && c[|c| - 1] == x
  {
    ClassSnoc(le, s, x, y);
  }

  lemma Differ<T>(le: (T, T) -> bool, t: seq<T>, u: seq<T>, y: T, a: T, b: T)
    requires var c := Class(le, t, y); c != [] && c[|c| - 1] == b
    requires var c := Class(le, u, y); c != [] && c[|c| - 1] == a
    requires a != b
    ensures t != u
  {
  }

  ghost function Remove<T>(s: seq<T>, x: T): (r: seq<T>)
    requires x in s
    ensures multiset(r) == multiset(s) - multiset{x}
  {
    if s[0] == x then (assert s == [s[0]] + s[1..]; s[1..])
    else (assert s == [s[0]] + s[1..]; [s[0]] + Remove(s[1..], x))
  }
}
