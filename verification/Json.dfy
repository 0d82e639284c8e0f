/** JSON values and the key-sorting canonicalisation that trace log and signatures hash. */
module Json {

  // Text is UTF-8: a `string` holds one `char` per byte.  Objects keep their members in the
  // order in which they are enumerated.

  datatype Json =
    | Null
    | Bool(b: bool)
    | Num(lexeme: string)
    | Str(s: string)
    | Arr(items: seq<Json>)
    | Obj(members: seq<Member>)

  datatype Member = Member(key: string, value: Json)

  // ---------------------------------------------------------------------------------------
  // Key orders
  // ---------------------------------------------------------------------------------------

  /** The two enumeration orders in play: a Rust BTreeMap<String, _> sorts by bytes; a
      JavaScript object filled in `sort()` order enumerates array-index keys first, by number,
      and then the other keys by UTF-16 code unit. */
  datatype KeyOrder = ByteOrder | JsOrder

  /** The rank of one UTF-8 byte.  The lead bytes 0xEE and 0xEF (U+E000..U+FFFF) rank above
      the lead bytes of the supplementary planes when code units are compared. */
  function Rank(o: KeyOrder, c: char): int {
    if o.JsOrder? && (c as int == 0xEE || c as int == 0xEF) then c as int + 0x20_0000 else c as int
  }

  predicate LexLess(o: KeyOrder, a: string, b: string) {
    b != [] && (a == [] || Rank(o, a[0]) < Rank(o, b[0]) || (a[0] == b[0] && LexLess(o, a[1..], b[1..])))
  }

  /** An ECMAScript array index in its canonical spelling: 0 .. 2^32 - 2. */
  predicate IndexLike(k: string) {
    k == "0" ||
    (k != [] && k[0] != '0' && (forall i | 0 <= i < |k| :: '0' <= k[i] <= '9') &&
     (|k| < 10 || (|k| == 10 && !LexLess(ByteOrder, "4294967294", k))))
  }

  predicate Less(o: KeyOrder, a: string, b: string) {
    match o
    case ByteOrder => LexLess(o, a, b)
    case JsOrder =>
      if IndexLike(a) && IndexLike(b) then |a| < |b| || (|a| == |b| && LexLess(ByteOrder, a, b))
      else if IndexLike(a) || IndexLike(b) then IndexLike(a)
      else LexLess(o, a, b)
  }

  /** Assigning `acc["__proto__"]` on a plain object sets its prototype instead of adding a
      member, so the JavaScript canonicalisers lose that key. */
  predicate Kept(o: KeyOrder, key: string) {
    o.JsOrder? ==> key != "__proto__"
  }

  lemma {:induction false} LexTotal(o: KeyOrder, a: string, b: string)
    ensures LexLess(o, a, b) || LexLess(o, b, a) || a == b
    ensures !(LexLess(o, a, b) && LexLess(o, b, a))
  {
    if a != [] && b != [] {
      LexTotal(o, a[1..], b[1..]);
      assert a == [a[0]] + a[1..] && b == [b[0]] + b[1..];
    }
  }

  lemma {:induction false} LexTransitive(o: KeyOrder, a: string, b: string, c: string)
    requires LexLess(o, a, b) && LexLess(o, b, c)
    ensures LexLess(o, a, c)
  {
    if a != [] && a[0] == b[0] && b[0] == c[0] && LexLess(o, a[1..], b[1..]) && LexLess(o, b[1..], c[1..]) {
      LexTransitive(o, a[1..], b[1..], c[1..]);
    }
  }

  lemma LessTotal(o: KeyOrder, a: string, b: string)
    ensures Less(o, a, b) || Less(o, b, a) || a == b
    ensures !(Less(o, a, b) && Less(o, b, a))
  {
    LexTotal(o, a, b);
    LexTotal(ByteOrder, a, b);
  }

  lemma LessTransitive(o: KeyOrder, a: string, b: string, c: string)
    requires Less(o, a, b) && Less(o, b, c)
    ensures Less(o, a, c)
  {
    if LexLess(o, a, b) && LexLess(o, b, c) { LexTransitive(o, a, b, c); }
    if LexLess(ByteOrder, a, b) && LexLess(ByteOrder, b, c) { LexTransitive(ByteOrder, a, b, c); }
  }

  // ---------------------------------------------------------------------------------------
  // Canonicalisation
  // ---------------------------------------------------------------------------------------

  /** BTreeMap::insert and the ordered property table: a later value for a key replaces. */
  function Insert(o: KeyOrder, ms: seq<Member>, m: Member): seq<Member> {
    if ms == [] then [m]
    else if ms[0].key == m.key then [m] + ms[1..]
    else if Less(o, m.key, ms[0].key) then [m] + ms
    else [ms[0]] + Insert(o, ms[1..], m)
  }

  function Canon(o: KeyOrder, v: Json): Json
    decreases v, 1
  {
    match v
    case Arr(xs) => Arr(CanonItems(o, xs))
    case Obj(ms) => Obj(CanonMembers(o, ms))
    case _ => v
  }

  function CanonItems(o: KeyOrder, xs: seq<Json>): seq<Json>
    decreases xs, 0
  {
    if xs == [] then [] else CanonItems(o, xs[..|xs| - 1]) + [Canon(o, xs[|xs| - 1])]
  }

  function CanonMembers(o: KeyOrder, ms: seq<Member>): seq<Member>
    decreases ms, 0
  {
    if ms == [] then []
    else
      var last := ms[|ms| - 1];
      var rest := CanonMembers(o, ms[..|ms| - 1]);
      if Kept(o, last.key) then Insert(o, rest, Member(last.key, Canon(o, last.value))) else rest
  }

  // ---------------------------------------------------------------------------------------
  // What a canonicaliser drops
  // ---------------------------------------------------------------------------------------

  /** The value without the members that are not kept, at every depth, order untouched. */
  function Surviving(o: KeyOrder, v: Json): Json
    decreases v, 1
  {
    match v
    case Arr(xs) => Arr(SurvivingItems(o, xs))
    case Obj(ms) => Obj(SurvivingMembers(o, ms))
    case _ => v
  }

  function SurvivingItems(o: KeyOrder, xs: seq<Json>): seq<Json>
    decreases xs, 0
  {
    if xs == [] then [] else SurvivingItems(o, xs[..|xs| - 1]) + [Surviving(o, xs[|xs| - 1])]
  }

  function SurvivingMembers(o: KeyOrder, ms: seq<Member>): seq<Member>
    decreases ms, 0
  {
    if ms == [] then []
    else
      var last := ms[|ms| - 1];
      var rest := SurvivingMembers(o, ms[..|ms| - 1]);
      if Kept(o, last.key) then rest + [Member(last.key, Surviving(o, last.value))] else rest
  }

  /** No object, at any depth, has a member that is not kept. */
  ghost predicate AllKept(o: KeyOrder, v: Json) {
    match v
    case Arr(xs) => forall x | x in xs :: AllKept(o, x)
    case Obj(ms) => forall m | m in ms :: Kept(o, m.key) && AllKept(o, m.value)
    case _ => true
  }

  lemma {:induction false} AllKeptSurvives(o: KeyOrder, v: Json)
    requires AllKept(o, v)
    ensures Surviving(o, v) == v
    decreases v, 1
  {
    match v
    case Arr(xs) => ItemsSurvive(o, xs);
    case Obj(ms) => MembersSurvive(o, ms);
    case _ =>
  }

  lemma {:induction false} ItemsSurvive(o: KeyOrder, xs: seq<Json>)
    requires forall x | x in xs :: AllKept(o, x)
    ensures SurvivingItems(o, xs) == xs
    decreases xs, 0
  {
    forall i | 0 <= i < |xs| ensures Surviving(o, xs[i]) == xs[i] { AllKeptSurvives(o, xs[i]); }
    forall i | 0 <= i < |xs| ensures |SurvivingItems(o, xs)| == |xs| && SurvivingItems(o, xs)[i] == xs[i] {
      SurvivingItemAt(o, xs, i);
    }
  }

  lemma {:induction false} MembersSurvive(o: KeyOrder, ms: seq<Member>)
    requires forall m | m in ms :: Kept(o, m.key) && AllKept(o, m.value)
    ensures SurvivingMembers(o, ms) == ms
    decreases ms, 0
  {
    forall i | 0 <= i < |ms| ensures Surviving(o, ms[i].value) == ms[i].value {
      assert ms[i] in ms;
      AllKeptSurvives(o, ms[i].value);
    }
    SurvivingMemberAt(o, ms);
  }

  /** The Rust canonicaliser drops nothing. */
  lemma {:induction false} BytesKeepAll(v: Json)
    ensures AllKept(ByteOrder, v)
  {
    match v
    case Arr(xs) => forall x | x in xs ensures AllKept(ByteOrder, x) { BytesKeepAll(x); }
    case Obj(ms) => forall m | m in ms ensures AllKept(ByteOrder, m.value) { BytesKeepAll(m.value); }
    case _ =>
  }

  // ---------------------------------------------------------------------------------------
  // Meaning: an object is an unordered table
  // ---------------------------------------------------------------------------------------

  datatype Sem =
    | SNull
    | SBool(b: bool)
    | SNum(lexeme: string)
    | SStr(s: string)
    | SArr(items: seq<Sem>)
    | SObj(table: map<string, Sem>)

  /** What is left of a value when key order is forgotten, and nothing else: no member is
      dropped.  Two values are equal up to recursive key reordering exactly when they have the
      same meaning. */
  ghost function Meaning(v: Json): Sem
    decreases v, 1
  {
    match v
    case Null => SNull
    case Bool(b) => SBool(b)
    case Num(l) => SNum(l)
    case Str(s) => SStr(s)
    case Arr(xs) => SArr(MeaningItems(xs))
    case Obj(ms) => SObj(Table(ms))
  }

  ghost function MeaningItems(xs: seq<Json>): seq<Sem>
    decreases xs, 0
  {
    if xs == [] then [] else MeaningItems(xs[..|xs| - 1]) + [Meaning(xs[|xs| - 1])]
  }

  ghost function Table(ms: seq<Member>): map<string, Sem>
    decreases ms, 0
  {
    if ms == [] then map[]
    else
      var last := ms[|ms| - 1];
      var rest := Table(ms[..|ms| - 1]);
      rest[last.key := Meaning(last.value)]
  }

  // ---------------------------------------------------------------------------------------
  // Canonical values
  // ---------------------------------------------------------------------------------------

  ghost predicate Sorted(o: KeyOrder, ms: seq<Member>) {
    && (forall i, j | 0 <= i < j < |ms| :: Less(o, ms[i].key, ms[j].key))
    && (forall i | 0 <= i < |ms| :: Kept(o, ms[i].key))
  }

  /** Every object, at every depth, lists its keys strictly in order. */
  ghost predicate IsCanon(o: KeyOrder, v: Json) {
    match v
    case Arr(xs) => forall x | x in xs :: IsCanon(o, x)
    case Obj(ms) => Sorted(o, ms) && forall m | m in ms :: IsCanon(o, m.value)
    case _ => true
  }

  lemma {:induction false} InsertContents(o: KeyOrder, ms: seq<Member>, m: Member)
    ensures forall x | x in Insert(o, ms, m) :: x == m || x in ms
    ensures m in Insert(o, ms, m)
    ensures forall x | x in ms && x.key != m.key :: x in Insert(o, ms, m)
  {
    if ms != [] {
      InsertContents(o, ms[1..], m);
      assert ms == [ms[0]] + ms[1..];
    }
  }

  lemma {:induction false} InsertSorted(o: KeyOrder, ms: seq<Member>, m: Member)
    requires Sorted(o, ms) && Kept(o, m.key)
    ensures Sorted(o, Insert(o, ms, m))
  {
    if ms == [] {
    } else if ms[0].key == m.key {
      assert ms == [ms[0]] + ms[1..];
    } else if Less(o, m.key, ms[0].key) {
      forall j | 0 < j < |ms| ensures Less(o, m.key, ms[j].key) {
        LessTransitive(o, m.key, ms[0].key, ms[j].key);
      }
    } else {
      InsertSorted(o, ms[1..], m);
      InsertContents(o, ms[1..], m);
      LessTotal(o, m.key, ms[0].key);
      SortedCons(o, ms[0], Insert(o, ms[1..], m));
    }
  }

  lemma SortedCons(o: KeyOrder, m: Member, ms: seq<Member>)
    requires Sorted(o, ms) && Kept(o, m.key) && forall x | x in ms :: Less(o, m.key, x.key)
    ensures Sorted(o, [m] + ms)
  {
  }

  lemma {:induction false} CanonIsCanon(o: KeyOrder, v: Json)
    ensures IsCanon(o, Canon(o, v))
    decreases v, 1
  {
    match v
    case Arr(xs) => CanonItemsAreCanon(o, xs);
    case Obj(ms) => CanonMembersAreCanon(o, ms);
    case _ =>
  }

  lemma {:induction false} CanonItemsAreCanon(o: KeyOrder, xs: seq<Json>)
    ensures |CanonItems(o, xs)| == |xs|
    ensures forall x | x in CanonItems(o, xs) :: IsCanon(o, x)
    decreases xs, 0
  {
    if xs != [] {
      CanonItemsAreCanon(o, xs[..|xs| - 1]);
      CanonIsCanon(o, xs[|xs| - 1]);
    }
  }

  lemma {:induction false} CanonMembersAreCanon(o: KeyOrder, ms: seq<Member>)
    ensures Sorted(o, CanonMembers(o, ms))
    ensures forall m | m in CanonMembers(o, ms) :: IsCanon(o, m.value)
    decreases ms, 0
  {
    if ms != [] {
      var last := ms[|ms| - 1];
      CanonMembersAreCanon(o, ms[..|ms| - 1]);
      CanonIsCanon(o, last.value);
      if Kept(o, last.key) {
        InsertSorted(o, CanonMembers(o, ms[..|ms| - 1]), Member(last.key, Canon(o, last.value)));
        InsertContents(o, CanonMembers(o, ms[..|ms| - 1]), Member(last.key, Canon(o, last.value)));
      }
    }
  }

  // ---------------------------------------------------------------------------------------
  // Canonicalisation keeps the meaning
  // ---------------------------------------------------------------------------------------

  lemma {:induction false} TableCons(m: Member, ms: seq<Member>)
    requires forall x | x in ms :: x.key != m.key
    ensures Table([m] + ms) == Table(ms)[m.key := Meaning(m.value)]
  {
    if ms == [] {
      assert ([m] + ms)[..0] == [];
    } else {
      var init := ms[..|ms| - 1];
      assert ([m] + ms)[..|ms|] == [m] + init;
      TableCons(m, init);
    }
  }

  /** The keys of the table are the keys of the members. */
  lemma {:induction false} TableKeys(ms: seq<Member>)
    ensures forall k :: k in Table(ms) <==> exists m :: m in ms && m.key == k
  {
    if ms != [] {
      var last := ms[|ms| - 1];
      TableKeys(ms[..|ms| - 1]);
      assert ms == ms[..|ms| - 1] + [last];
      forall k ensures k in Table(ms) <==> exists m :: m in ms && m.key == k {
        if k == last.key { assert last in ms; }
        if m :| m in ms && m.key == k { assert m == last || m in ms[..|ms| - 1]; }
        if m :| m in ms[..|ms| - 1] && m.key == k { assert m in ms; }
      }
    }
  }

  lemma {:induction false} SortedKeysDistinct(o: KeyOrder, ms: seq<Member>)
    requires Sorted(o, ms)
    ensures forall i, j | 0 <= i < j < |ms| :: ms[i].key != ms[j].key
  {
    forall i, j | 0 <= i < j < |ms| ensures ms[i].key != ms[j].key {
      LessTotal(o, ms[i].key, ms[j].key);
    }
  }

  lemma LessThanFirst(o: KeyOrder, ms: seq<Member>, key: string)
    requires ms != [] && Sorted(o, ms) && Less(o, key, ms[0].key)
    ensures forall x | x in ms :: x.key != key
  {
    forall j | 0 <= j < |ms| ensures ms[j].key != key {
      if 0 < j { LessTransitive(o, key, ms[0].key, ms[j].key); }
      LessTotal(o, key, ms[j].key);
    }
  }

  lemma {:induction false} InsertTable(o: KeyOrder, ms: seq<Member>, m: Member)
    requires Sorted(o, ms) && Kept(o, m.key)
    ensures Table(Insert(o, ms, m)) == Table(ms)[m.key := Meaning(m.value)]
  {
    if ms == [] {
      TableCons(m, []);
      assert [m] + [] == [m];
    } else if ms[0].key == m.key {
      TableFirst(o, ms);
      SortedKeysDistinct(o, ms);
      TableCons(m, ms[1..]);
    } else if Less(o, m.key, ms[0].key) {
      LessThanFirst(o, ms, m.key);
      TableCons(m, ms);
    } else {
      TableFirst(o, ms);
      InsertTable(o, ms[1..], m);
      InsertAfterFirst(o, ms, m);
      TableCons(ms[0], Insert(o, ms[1..], m));
      UpdatesCommute(Table(ms[1..]), ms[0].key, Meaning(ms[0].value), m.key, Meaning(m.value));
    }
  }

  lemma UpdatesCommute<V>(t: map<string, V>, a: string, x: V, b: string, y: V)
    requires a != b
    ensures t[a := x][b := y] == t[b := y][a := x]
  {
  }

  lemma TableFirst(o: KeyOrder, ms: seq<Member>)
    requires ms != [] && Sorted(o, ms)
    ensures Table(ms) == Table(ms[1..])[ms[0].key := Meaning(ms[0].value)]
  {
    SortedKeysDistinct(o, ms);
    TableCons(ms[0], ms[1..]);
    assert ms == [ms[0]] + ms[1..];
  }

  lemma InsertAfterFirst(o: KeyOrder, ms: seq<Member>, m: Member)
    requires ms != [] && Sorted(o, ms) && Kept(o, m.key) && ms[0].key != m.key
    ensures forall x | x in Insert(o, ms[1..], m) :: x.key != ms[0].key
  {
    SortedKeysDistinct(o, ms);
    InsertContents(o, ms[1..], m);
  }

  /** Canonicalising changes key order and drops what is not kept, and does nothing else. */
  lemma {:induction false} CanonKeepsMeaning(o: KeyOrder, v: Json)
    ensures Meaning(Canon(o, v)) == Meaning(Surviving(o, v))
    decreases v, 1
  {
    match v
    case Arr(xs) => CanonItemsKeepMeaning(o, xs);
    case Obj(ms) => CanonMembersKeepMeaning(o, ms);
    case _ =>
  }

  lemma {:induction false} CanonItemsKeepMeaning(o: KeyOrder, xs: seq<Json>)
    ensures MeaningItems(CanonItems(o, xs)) == MeaningItems(SurvivingItems(o, xs))
    decreases xs, 0
  {
    if xs != [] {
      var init, kept := CanonItems(o, xs[..|xs| - 1]), SurvivingItems(o, xs[..|xs| - 1]);
      CanonItemsKeepMeaning(o, xs[..|xs| - 1]);
      CanonKeepsMeaning(o, xs[|xs| - 1]);
      assert (init + [Canon(o, xs[|xs| - 1])])[..|init|] == init;
      assert (kept + [Surviving(o, xs[|xs| - 1])])[..|kept|] == kept;
    }
  }

  lemma TableSnoc(ms: seq<Member>, m: Member)
    ensures Table(ms + [m]) == Table(ms)[m.key := Meaning(m.value)]
  {
    assert (ms + [m])[..|ms|] == ms;
  }

  lemma {:induction false} CanonMembersKeepMeaning(o: KeyOrder, ms: seq<Member>)
    ensures Table(CanonMembers(o, ms)) == Table(SurvivingMembers(o, ms))
    decreases ms, 0
  {
    if ms != [] {
      var last := ms[|ms| - 1];
      CanonMembersKeepMeaning(o, ms[..|ms| - 1]);
      if Kept(o, last.key) {
        CanonKeepsMeaning(o, last.value);
        CanonMembersAreCanon(o, ms[..|ms| - 1]);
        InsertTable(o, CanonMembers(o, ms[..|ms| - 1]), Member(last.key, Canon(o, last.value)));
        TableSnoc(SurvivingMembers(o, ms[..|ms| - 1]), Member(last.key, Surviving(o, last.value)));
      }
    }
  }

  // ---------------------------------------------------------------------------------------
  // A meaning has one canonical value
  // ---------------------------------------------------------------------------------------

  lemma {:induction false} CanonUnique(o: KeyOrder, a: Json, b: Json)
    requires IsCanon(o, a) && IsCanon(o, b) && Meaning(a) == Meaning(b)
    ensures a == b
    decreases a, 1
  {
    match a
    case Arr(xs) => CanonItemsUnique(o, xs, b.items);
    case Obj(ms) => CanonMembersUnique(o, ms, b.members);
    case _ =>
  }

  lemma {:induction false} CanonItemsUnique(o: KeyOrder, xs: seq<Json>, ys: seq<Json>)
    requires forall x | x in xs :: IsCanon(o, x)
    requires forall y | y in ys :: IsCanon(o, y)
    requires MeaningItems(xs) == MeaningItems(ys)
    ensures xs == ys
    decreases xs, 0
  {
    if xs != [] && ys != [] {
      var n, m := |xs| - 1, |ys| - 1;
      var p, q := MeaningItems(xs[..n]), MeaningItems(ys[..m]);
      assert |p| == |q|;
      assert p == (p + [Meaning(xs[n])])[..|p|];
      assert q == (q + [Meaning(ys[m])])[..|p|];
      assert Meaning(xs[n]) == (p + [Meaning(xs[n])])[|p|];
      CanonItemsUnique(o, xs[..n], ys[..m]);
      CanonUnique(o, xs[n], ys[m]);
      assert xs == xs[..n] + [xs[n]] && ys == ys[..m] + [ys[m]];
    }
  }

  lemma {:induction false} CanonMembersUnique(o: KeyOrder, ms: seq<Member>, ns: seq<Member>)
    requires Sorted(o, ms) && forall m | m in ms :: IsCanon(o, m.value)
    requires Sorted(o, ns) && forall m | m in ns :: IsCanon(o, m.value)
    requires Table(ms) == Table(ns)
    ensures ms == ns
    decreases ms, 0
  {
    if ms == [] || ns == [] {
      EmptyTable(o, ms);
      EmptyTable(o, ns);
    } else {
      var m, n := ms[|ms| - 1], ns[|ns| - 1];
      LastMembers(o, ms, ns);
      CanonPrefix(o, ms);
      CanonPrefix(o, ns);
      CanonMembersUnique(o, ms[..|ms| - 1], ns[..|ns| - 1]);
      CanonUnique(o, m.value, n.value);
      assert ms == ms[..|ms| - 1] + [m] && ns == ns[..|ns| - 1] + [n];
    }
  }

  lemma CanonPrefix(o: KeyOrder, ms: seq<Member>)
    requires ms != [] && Sorted(o, ms) && forall m | m in ms :: IsCanon(o, m.value)
    ensures Sorted(o, ms[..|ms| - 1]) && (forall m | m in ms[..|ms| - 1] :: IsCanon(o, m.value))
    ensures IsCanon(o, ms[|ms| - 1].value)
  {
    assert ms[|ms| - 1] in ms && forall m | m in ms[..|ms| - 1] :: m in ms;
  }

  lemma LastMembers(o: KeyOrder, ms: seq<Member>, ns: seq<Member>)
    requires ms != [] && ns != [] && Sorted(o, ms) && Sorted(o, ns) && Table(ms) == Table(ns)
    ensures Table(ms[..|ms| - 1]) == Table(ns[..|ns| - 1])
    ensures ms[|ms| - 1].key == ns[|ns| - 1].key && Meaning(ms[|ms| - 1].value) == Meaning(ns[|ns| - 1].value)
  {
    SameLastKey(o, ms, ns);
    TableInit(o, ms);
    TableInit(o, ns);
    assert Table(ms)[ms[|ms| - 1].key] == Table(ns)[ns[|ns| - 1].key];
  }

  lemma EmptyTable(o: KeyOrder, ms: seq<Member>)
    requires Sorted(o, ms)
    ensures Table(ms) == map[] <==> ms == []
  {
    if ms != [] { assert ms[|ms| - 1].key in Table(ms); }
  }

  lemma SameLastKey(o: KeyOrder, ms: seq<Member>, ns: seq<Member>)
    requires ms != [] && ns != [] && Sorted(o, ms) && Sorted(o, ns) && Table(ms) == Table(ns)
    ensures ms[|ms| - 1].key == ns[|ns| - 1].key
  {
    LastKeyIsGreatest(o, ms, ns);
    LastKeyIsGreatest(o, ns, ms);
    LessTotal(o, ms[|ms| - 1].key, ns[|ns| - 1].key);
  }

  lemma LastKeyIsGreatest(o: KeyOrder, ms: seq<Member>, ns: seq<Member>)
    requires ms != [] && ns != [] && Sorted(o, ms) && Sorted(o, ns) && Table(ms) == Table(ns)
    ensures !Less(o, ms[|ms| - 1].key, ns[|ns| - 1].key)
  {
    var key := ns[|ns| - 1].key;
    assert key in Table(ms);
    TableKeys(ms);
    var m :| m in ms && m.key == key;
    var j :| 0 <= j < |ms| && ms[j] == m;
    NotAfterLast(o, ms, j);
  }

  lemma NotAfterLast(o: KeyOrder, ms: seq<Member>, j: nat)
    requires j < |ms| && Sorted(o, ms)
    ensures !Less(o, ms[|ms| - 1].key, ms[j].key)
  {
    LessTotal(o, ms[|ms| - 1].key, ms[j].key);
  }

  lemma {:induction false} TableInit(o: KeyOrder, ms: seq<Member>)
    requires ms != [] && Sorted(o, ms)
    ensures Table(ms[..|ms| - 1]) == Table(ms) - {ms[|ms| - 1].key}
  {
    var init, last := ms[..|ms| - 1], ms[|ms| - 1];
    SortedKeysDistinct(o, ms);
    NotInTable(init, last.key);
    var table := Table(init);
    assert table[last.key := Meaning(last.value)] - {last.key} == table;
  }

  lemma {:induction false} NotInTable(ms: seq<Member>, key: string)
    requires forall m | m in ms :: m.key != key
    ensures key !in Table(ms)
  {
    if ms != [] { NotInTable(ms[..|ms| - 1], key); }
  }

  // ---------------------------------------------------------------------------------------
  // Exactness
  // ---------------------------------------------------------------------------------------

  /** Equal canonical forms mean equality up to recursive key reordering of what survives, and
      nothing else. */
  lemma CanonExact(o: KeyOrder, a: Json, b: Json)
    ensures Canon(o, a) == Canon(o, b) <==> Meaning(Surviving(o, a)) == Meaning(Surviving(o, b))
  {
    CanonKeepsMeaning(o, a);
    CanonKeepsMeaning(o, b);
    if Meaning(Surviving(o, a)) == Meaning(Surviving(o, b)) {
      CanonIsCanon(o, a);
      CanonIsCanon(o, b);
      CanonUnique(o, Canon(o, a), Canon(o, b));
    }
  }

  /** Where nothing is dropped, equality up to recursive key reordering is all there is: always
      on the Rust side, and for values without the key "__proto__" on the JavaScript side. */
  lemma CanonExactWhenKept(o: KeyOrder, a: Json, b: Json)
    requires o == ByteOrder || (AllKept(o, a) && AllKept(o, b))
    ensures Canon(o, a) == Canon(o, b) <==> Meaning(a) == Meaning(b)
  {
    BytesKeepAll(a);
    BytesKeepAll(b);
    AllKeptSurvives(o, a);
    AllKeptSurvives(o, b);
    CanonExact(o, a, b);
  }

  lemma {:induction false} CanonIsKept(o: KeyOrder, v: Json)
    requires IsCanon(o, v)
    ensures AllKept(o, v)
  {
    match v
    case Arr(xs) => forall x | x in xs ensures AllKept(o, x) { CanonIsKept(o, x); }
    case Obj(ms) =>
      forall m | m in ms ensures Kept(o, m.key) && AllKept(o, m.value) { CanonIsKept(o, m.value); }
    case _ =>
  }

  lemma CanonIdempotent(o: KeyOrder, v: Json)
    ensures Canon(o, Canon(o, v)) == Canon(o, v)
  {
    CanonKeepsMeaning(o, v);
    CanonIsCanon(o, v);
    CanonIsKept(o, Canon(o, v));
    AllKeptSurvives(o, Canon(o, v));
    CanonExact(o, Canon(o, v), v);
  }

  /** A member "__proto__" can be added to any object without a trace. */
  lemma ProtoLeavesNoTrace(ms: seq<Member>, x: Json)
    ensures Surviving(JsOrder, Obj(ms + [Member("__proto__", x)])) == Surviving(JsOrder, Obj(ms))
    ensures Canon(JsOrder, Obj(ms + [Member("__proto__", x)])) == Canon(JsOrder, Obj(ms))
    ensures (forall m | m in ms :: m.key != "__proto__") ==> Meaning(Obj(ms + [Member("__proto__", x)])) != Meaning(Obj(ms))
  {
    var m := Member("__proto__", x);
    assert (ms + [m])[..|ms|] == ms;
    TableSnoc(ms, m);
    if forall n | n in ms :: n.key != "__proto__" { NotInTable(ms, "__proto__"); }
  }

  /** What the JavaScript canonicaliser drops is visible in the meaning: for values with distinct
      keys, nothing is lost exactly if no key is "__proto__". */
  lemma {:induction false} LossVisible(v: Json)
    requires DistinctKeys(v)
    ensures Meaning(Surviving(JsOrder, v)) == Meaning(v) <==> AllKept(JsOrder, v)
    decreases v, 1
  {
    if AllKept(JsOrder, v) {
      AllKeptSurvives(JsOrder, v);
    } else {
      match v
      case Arr(xs) => LostItem(xs);
      case Obj(ms) => LostMember(ms);
    }
  }

  lemma {:induction false} MeaningItemAt(xs: seq<Json>, i: nat)
    requires i < |xs|
    ensures |MeaningItems(xs)| == |xs| && MeaningItems(xs)[i] == Meaning(xs[i])
  {
    if |xs| > 1 { MeaningItemAt(xs[..|xs| - 1], if i < |xs| - 1 then i else 0); }
  }

  lemma {:induction false} SurvivingItemAt(o: KeyOrder, xs: seq<Json>, i: nat)
    requires i < |xs|
    ensures |SurvivingItems(o, xs)| == |xs| && SurvivingItems(o, xs)[i] == Surviving(o, xs[i])
  {
    if |xs| > 1 { SurvivingItemAt(o, xs[..|xs| - 1], if i < |xs| - 1 then i else 0); }
  }

  lemma {:induction false} LostItem(xs: seq<Json>)
    requires DistinctKeys(Arr(xs)) && !AllKept(JsOrder, Arr(xs))
    ensures MeaningItems(SurvivingItems(JsOrder, xs)) != MeaningItems(xs)
    decreases xs, 0
  {
    var i :| 0 <= i < |xs| && !AllKept(JsOrder, xs[i]);
    LossVisible(xs[i]);
    MeaningItemAt(xs, i);
    SurvivingItemAt(JsOrder, xs, i);
    MeaningItemAt(SurvivingItems(JsOrder, xs), i);
  }

  /** Where all keys of an object are kept, its members survive one by one. */
  lemma {:induction false} SurvivingMemberAt(o: KeyOrder, ms: seq<Member>)
    requires forall m | m in ms :: Kept(o, m.key)
    ensures |SurvivingMembers(o, ms)| == |ms|
    ensures forall i | 0 <= i < |ms| :: SurvivingMembers(o, ms)[i] == Member(ms[i].key, Surviving(o, ms[i].value))
  {
    if ms != [] { SurvivingMemberAt(o, ms[..|ms| - 1]); }
  }

  lemma {:induction false} SurvivingKeys(o: KeyOrder, ms: seq<Member>)
    ensures forall m | m in SurvivingMembers(o, ms) :: Kept(o, m.key)
  {
    if ms != [] { SurvivingKeys(o, ms[..|ms| - 1]); }
  }

  lemma {:induction false} LostMember(ms: seq<Member>)
    requires DistinctKeys(Obj(ms)) && !AllKept(JsOrder, Obj(ms))
    ensures Table(SurvivingMembers(JsOrder, ms)) != Table(ms)
    decreases ms, 0
  {
    var kept := SurvivingMembers(JsOrder, ms);
    if i :| 0 <= i < |ms| && !Kept(JsOrder, ms[i].key) {
      SurvivingKeys(JsOrder, ms);
      NotInTable(kept, "__proto__");
      TableLookup(ms, i);
    } else {
      assert forall m | m in ms :: Kept(JsOrder, m.key);
      var i :| 0 <= i < |ms| && !AllKept(JsOrder, ms[i].value);
      LossVisible(ms[i].value);
      SurvivingMemberAt(JsOrder, ms);
      TableLookup(ms, i);
      TableLookup(kept, i);
    }
  }

  // ---------------------------------------------------------------------------------------
  // Objects with a fixed list of keys
  // ---------------------------------------------------------------------------------------

  lemma {:induction false} TableLookup(ms: seq<Member>, i: nat)
    requires i < |ms| && KeysDistinct(ms)
    ensures ms[i].key in Table(ms) && Table(ms)[ms[i].key] == Meaning(ms[i].value)
  {
    if i < |ms| - 1 { TableLookup(ms[..|ms| - 1], i); }
  }

  lemma {:induction false} TablesEqual(ms: seq<Member>, ns: seq<Member>)
    requires |ms| == |ns| && forall i | 0 <= i < |ms| :: ms[i].key == ns[i].key
    requires forall i | 0 <= i < |ms| :: Meaning(ms[i].value) == Meaning(ns[i].value)
    ensures Table(ms) == Table(ns)
  {
    if ms != [] { TablesEqual(ms[..|ms| - 1], ns[..|ns| - 1]); }
  }

  /** Two records with the same keys mean the same exactly when their fields do. */
  lemma RecordsEqual(ms: seq<Member>, ns: seq<Member>)
    requires |ms| == |ns| && forall i | 0 <= i < |ms| :: ms[i].key == ns[i].key
    requires KeysDistinct(ms)
    ensures Table(ms) == Table(ns) <==>
            forall i | 0 <= i < |ms| :: Meaning(ms[i].value) == Meaning(ns[i].value)
  {
    if Table(ms) == Table(ns) {
      forall i | 0 <= i < |ms| ensures Meaning(ms[i].value) == Meaning(ns[i].value) {
        TableLookup(ms, i);
        TableLookup(ns, i);
      }
    } else if forall i | 0 <= i < |ms| :: Meaning(ms[i].value) == Meaning(ns[i].value) {
      TablesEqual(ms, ns);
    }
  }

  // ---------------------------------------------------------------------------------------
  // When the Rust and the JavaScript canonicalisers agree
  // ---------------------------------------------------------------------------------------

  ghost predicate DistinctKeys(v: Json) {
    match v
    case Arr(xs) => forall x | x in xs :: DistinctKeys(x)
    case Obj(ms) => KeysDistinct(ms) && forall m | m in ms :: DistinctKeys(m.value)
    case _ => true
  }

  ghost predicate KeysDistinct(ms: seq<Member>) {
    forall i, j | 0 <= i < j < |ms| :: ms[i].key != ms[j].key
  }

  /** What JSON.parse and JSON.stringify make of a numeral: 1.0 becomes 1. */
  type Renumber = string -> string

  /** The value as JavaScript has it once it has read and is to print it again. */
  function Reread(renum: Renumber, v: Json): Json {
    match v
    case Num(l) => Num(renum(l))
    case Arr(xs) => Arr(seq(|xs|, i requires 0 <= i < |xs| => Reread(renum, xs[i])))
    case Obj(ms) => Obj(seq(|ms|, i requires 0 <= i < |ms| => Member(ms[i].key, Reread(renum, ms[i].value))))
    case _ => v
  }

  /** In every object no key is "__proto__" and the two orders rank any two keys alike, and every
      numeral is printed as it was written. */
  ghost predicate Portable(renum: Renumber, v: Json) {
    match v
    case Num(l) => renum(l) == l
    case Arr(xs) => forall x | x in xs :: Portable(renum, x)
    case Obj(ms) => PortableKeys(ms) && forall m | m in ms :: Portable(renum, m.value)
    case _ => true
  }

  ghost predicate PortableKeys(ms: seq<Member>) {
    && (forall m | m in ms :: m.key != "__proto__")
    && (forall m, n | m in ms && n in ms :: Less(ByteOrder, m.key, n.key) == Less(JsOrder, m.key, n.key))
  }

  lemma {:induction false} PortableRereads(renum: Renumber, v: Json)
    requires Portable(renum, v)
    ensures Reread(renum, v) == v
  {
    match v
    case Arr(xs) =>
      forall i | 0 <= i < |xs| ensures Reread(renum, xs[i]) == xs[i] {
        assert xs[i] in xs;
        PortableRereads(renum, xs[i]);
      }
      assert Reread(renum, v).items == xs;
    case Obj(ms) =>
      forall i | 0 <= i < |ms| ensures Reread(renum, ms[i].value) == ms[i].value {
        assert ms[i] in ms;
        PortableRereads(renum, ms[i].value);
      }
      assert Reread(renum, v).members == ms;
    case _ =>
  }

  lemma {:induction false} PortableSameOrder(renum: Renumber, v: Json)
    requires Portable(renum, v)
    ensures Canon(ByteOrder, v) == Canon(JsOrder, v)
    decreases v, 1
  {
    match v
    case Arr(xs) => PortableItems(renum, xs);
    case Obj(ms) => PortableMembers(renum, ms);
    case _ =>
  }

  lemma {:induction false} PortableItems(renum: Renumber, xs: seq<Json>)
    requires forall x | x in xs :: Portable(renum, x)
    ensures CanonItems(ByteOrder, xs) == CanonItems(JsOrder, xs)
    decreases xs, 0
  {
    if xs != [] {
      assert xs[|xs| - 1] in xs && forall x | x in xs[..|xs| - 1] :: x in xs;
      PortableItems(renum, xs[..|xs| - 1]);
      PortableSameOrder(renum, xs[|xs| - 1]);
    }
  }

  lemma {:induction false} PortableMembers(renum: Renumber, ms: seq<Member>)
    requires PortableKeys(ms) && forall m | m in ms :: Portable(renum, m.value)
    ensures CanonMembers(ByteOrder, ms) == CanonMembers(JsOrder, ms)
    decreases ms, 0
  {
    if ms != [] {
      var last, init := ms[|ms| - 1], ms[..|ms| - 1];
      assert last in ms && forall m | m in init :: m in ms;
      PortableMembers(renum, init);
      PortableSameOrder(renum, last.value);
      CanonKeysAreKeys(ByteOrder, init);
      InsertPortable(CanonMembers(ByteOrder, init), Member(last.key, Canon(ByteOrder, last.value)));
    }
  }

  lemma PortableSuffices(renum: Renumber, v: Json)
    requires Portable(renum, v)
    ensures Canon(ByteOrder, v) == Canon(JsOrder, Reread(renum, v))
  {
    PortableRereads(renum, v);
    PortableSameOrder(renum, v);
  }

  lemma {:induction false} InsertPortable(ms: seq<Member>, m: Member)
    requires forall x | x in ms :: Less(ByteOrder, m.key, x.key) == Less(JsOrder, m.key, x.key)
    ensures Insert(ByteOrder, ms, m) == Insert(JsOrder, ms, m)
  {
    if ms != [] {
      assert ms[0] in ms;
      InsertPortable(ms[1..], m);
    }
  }

  lemma {:induction false} CanonKeysAreKeys(o: KeyOrder, ms: seq<Member>)
    ensures forall x | x in CanonMembers(o, ms) :: exists m :: m in ms && m.key == x.key
  {
    if ms != [] {
      var init, last := ms[..|ms| - 1], ms[|ms| - 1];
      CanonKeysAreKeys(o, init);
      InsertContents(o, CanonMembers(o, init), Member(last.key, Canon(o, last.value)));
      assert last in ms && forall m | m in init :: m in ms;
    }
  }

  lemma {:induction false} MemberSurvives(o: KeyOrder, ms: seq<Member>, i: nat)
    requires i < |ms| && KeysDistinct(ms) && Kept(o, ms[i].key)
    ensures Member(ms[i].key, Canon(o, ms[i].value)) in CanonMembers(o, ms)
  {
    var n := |ms| - 1;
    var x := Member(ms[i].key, Canon(o, ms[i].value));
    if i < n {
      assert KeysDistinct(ms[..n]) && ms[..n][i] == ms[i];
      MemberSurvives(o, ms[..n], i);
    }
    assert i < n ==> x in CanonMembers(o, ms[..n]) && x.key != ms[n].key;
    if Kept(o, ms[n].key) {
      InsertKeeps(o, CanonMembers(o, ms[..n]), Member(ms[n].key, Canon(o, ms[n].value)), x);
    }
  }

  lemma InsertKeeps(o: KeyOrder, ms: seq<Member>, m: Member, x: Member)
    requires (x in ms && x.key != m.key) || x == m
    ensures x in Insert(o, ms, m)
  {
    InsertContents(o, ms, m);
  }

  lemma {:induction false} PortableNecessary(renum: Renumber, v: Json)
    requires DistinctKeys(v) && Canon(ByteOrder, v) == Canon(JsOrder, Reread(renum, v))
    ensures Portable(renum, v)
  {
    match v
    case Arr(xs) =>
      var ys := Reread(renum, v).items;
      forall i | 0 <= i < |xs| ensures Portable(renum, xs[i]) {
        CanonItemAt(ByteOrder, xs, i);
        CanonItemAt(JsOrder, ys, i);
        PortableNecessary(renum, xs[i]);
      }
    case Obj(ms) =>
      var ns := Reread(renum, v).members;
      NoProtoKey(ms, ns);
      forall m, n | m in ms && n in ms ensures Less(ByteOrder, m.key, n.key) == Less(JsOrder, m.key, n.key) {
        SameRanking(ms, ns, m, n);
      }
      forall i | 0 <= i < |ms| ensures Portable(renum, ms[i].value) {
        SameValues(ms, ns, i);
        PortableNecessary(renum, ms[i].value);
      }
    case _ =>
  }

  lemma {:induction false} CanonItemAt(o: KeyOrder, xs: seq<Json>, i: nat)
    requires i < |xs|
    ensures |CanonItems(o, xs)| == |xs| && CanonItems(o, xs)[i] == Canon(o, xs[i])
  {
    CanonItemsAreCanon(o, xs);
    CanonItemsAreCanon(o, xs[..|xs| - 1]);
    if i < |xs| - 1 { CanonItemAt(o, xs[..|xs| - 1], i); }
  }

  /** Two lists of members with the same keys, as a value and its rereading have them. */
  ghost predicate SameKeys(ms: seq<Member>, ns: seq<Member>) {
    |ms| == |ns| && forall i | 0 <= i < |ms| :: ms[i].key == ns[i].key
  }

  lemma NoProtoKey(ms: seq<Member>, ns: seq<Member>)
    requires KeysDistinct(ms) && CanonMembers(ByteOrder, ms) == CanonMembers(JsOrder, ns)
    ensures forall m | m in ms :: m.key != "__proto__"
  {
    CanonMembersAreCanon(JsOrder, ns);
    forall i | 0 <= i < |ms| ensures ms[i].key != "__proto__" {
      MemberSurvives(ByteOrder, ms, i);
      assert Kept(JsOrder, ms[i].key);
    }
  }

  lemma SameRanking(ms: seq<Member>, ns: seq<Member>, m: Member, n: Member)
    requires KeysDistinct(ms) && CanonMembers(ByteOrder, ms) == CanonMembers(JsOrder, ns) && m in ms && n in ms
    ensures Less(ByteOrder, m.key, n.key) == Less(JsOrder, m.key, n.key)
  {
    var c := CanonMembers(ByteOrder, ms);
    CanonMembersAreCanon(ByteOrder, ms);
    CanonMembersAreCanon(JsOrder, ns);
    var i :| 0 <= i < |ms| && ms[i] == m;
    var j :| 0 <= j < |ms| && ms[j] == n;
    MemberSurvives(ByteOrder, ms, i);
    MemberSurvives(ByteOrder, ms, j);
    var p :| 0 <= p < |c| && c[p].key == m.key;
    var q :| 0 <= q < |c| && c[q].key == n.key;
    SortedRanks(ByteOrder, c, p, q);
    SortedRanks(JsOrder, c, p, q);
  }

  lemma SortedRanks(o: KeyOrder, ms: seq<Member>, p: nat, q: nat)
    requires Sorted(o, ms) && p < |ms| && q < |ms|
    ensures Less(o, ms[p].key, ms[q].key) <==> p < q
  {
    LessTotal(o, ms[p].key, ms[q].key);
  }

  lemma SameValues(ms: seq<Member>, ns: seq<Member>, i: nat)
    requires KeysDistinct(ms) && SameKeys(ms, ns) && CanonMembers(ByteOrder, ms) == CanonMembers(JsOrder, ns) && i < |ms|
    ensures Canon(ByteOrder, ms[i].value) == Canon(JsOrder, ns[i].value)
  {
    var c := CanonMembers(ByteOrder, ms);
    NoProtoKey(ms, ns);
    assert ms[i] in ms;
    MemberSurvives(ByteOrder, ms, i);
    MemberSurvives(JsOrder, ns, i);
    CanonMembersAreCanon(ByteOrder, ms);
    SortedKeysDistinct(ByteOrder, c);
  }

  /** The exact condition under which the Rust side and a JavaScript reader hash the same text for
      a value. */
  lemma CanonicalisersAgree(renum: Renumber, v: Json)
    requires DistinctKeys(v)
    ensures Canon(ByteOrder, v) == Canon(JsOrder, Reread(renum, v)) <==> Portable(renum, v)
  {
    if Portable(renum, v) { PortableSuffices(renum, v); }
    if Canon(ByteOrder, v) == Canon(JsOrder, Reread(renum, v)) { PortableNecessary(renum, v); }
  }

  /** Array-index keys sort by number on the JavaScript side and as text on the Rust side. */
  lemma IndexKeysAreNotPortable(renum: Renumber)
    ensures var v := Obj([Member("10", Null), Member("9", Null)]);
            DistinctKeys(v) && Canon(ByteOrder, v) != Canon(JsOrder, Reread(renum, v))
  {
    var v := Obj([Member("10", Null), Member("9", Null)]);
    assert v.members[0] in v.members && v.members[1] in v.members;
    assert Less(ByteOrder, "10", "9") && !Less(JsOrder, "10", "9");
    assert !Portable(renum, v);
    CanonicalisersAgree(renum, v);
  }

  lemma OneKeyIsPortable(m: Member)
    requires m.key != "__proto__"
    ensures PortableKeys([m]) && DistinctKeys(Obj([m])) == DistinctKeys(m.value)
  {
    LessTotal(ByteOrder, m.key, m.key);
    LessTotal(JsOrder, m.key, m.key);
    assert [m][0] in [m];
  }

  lemma OneMemberNotPortable(renum: Renumber, m: Member)
    requires m.key != "__proto__" && DistinctKeys(m.value) && !Portable(renum, m.value)
    ensures PortableKeys([m]) && !Portable(renum, Obj([m])) && Canon(ByteOrder, Obj([m])) != Canon(JsOrder, Reread(renum, Obj([m])))
  {
    OneKeyIsPortable(m);
    assert [m][0] in [m];
    CanonicalisersAgree(renum, Obj([m]));
  }

  /** A whole number that Rust holds as a float is printed differently by the two sides, so even an
      ordinary frame such as this one is not portable. */
  lemma WholeFloatsAreNotPortable(renum: Renumber)
    requires renum("1.0") == "1"
    ensures var v := Obj([Member("focus_momentum", Num("1.0"))]);
            PortableKeys(v.members) && !Portable(renum, v) && Canon(ByteOrder, v) != Canon(JsOrder, Reread(renum, v))
  {
    OneMemberNotPortable(renum, Member("focus_momentum", Num("1.0")));
  }
}
