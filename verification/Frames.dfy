/** JavaScript values as the checkers see them, the frame schema of protocol 0.1 in the form the
    schema check has it, the lists of findings the checkers report, and the ledger of the ids each
    sender has used so far. */
module Frames {
  import opened Texts

  datatype Number = Finite(r: real) | NaN | PosInf | NegInf

  /** A field may be absent from an object or present with the value undefined. */
  datatype Value =
    | Undefined
    | Null
    | Bool(b: bool)
    | Num(n: Number)
    | Str(s: string)
    | Arr(items: seq<Value>)
    | Obj(fields: map<string, Value>)

  /** a < b; every comparison with NaN is false. */
  predicate Below(a: Number, b: Number) {
    match (a, b)
    case (Finite(x), Finite(y)) => x < y
    case (NegInf, Finite(_)) => true
    case (NegInf, PosInf) => true
    case (Finite(_), PosInf) => true
    case _ => false
  }

  predicate IsObject(v: Value) { v.Arr? || v.Obj? }

  predicate Has(v: Value, key: string) { v.Obj? && key in v.fields }

  function Field(v: Value, key: string): Value { if Has(v, key) then v.fields[key] else Undefined }

  const VERSION := "0.1"

  datatype Kind = Hello | Heartbeat | Orientation | RouteRequest | RouteResponse | FocusSnapshot | Unknown

  function KindOf(name: string): Kind {
    if name == "hello" then Hello
    else if name == "heartbeat" then Heartbeat
    else if name == "orientation" then Orientation
    else if name == "route_request" then RouteRequest
    else if name == "route_response" then RouteResponse
    else if name == "focus_snapshot" then FocusSnapshot
    else Unknown
  }

  predicate IsStringArray(v: Value) { v.Arr? && forall x | x in v.items :: x.Str? }

  /** In [0, 1] as two comparisons that must both be false, so NaN passes. */
  predicate UnitOrNaN(v: Value) { v.Num? && !Below(v.n, Finite(0.0)) && !Below(Finite(1.0), v.n) }

  predicate OptionalString(v: Value, key: string) { Has(v, key) ==> Field(v, key).Str? }

  predicate IsHelloPayload(p: Value) {
    && IsObject(p) && Field(p, "role") in {Str("client"), Str("server")}
    && Field(p, "message").Str? && Field(p, "message").s != ""
  }

  predicate IsHeartbeatPayload(p: Value) {
    && IsObject(p) && Field(p, "seq").Num? && OptionalString(p, "status")
    && (Field(p, "seq").n == Finite(0.0) || Below(Finite(0.0), Field(p, "seq").n))
  }

  predicate IsOrientationPayload(p: Value) {
    IsObject(p) && Field(p, "origin").Str? && Field(p, "destination").Str? && Field(p, "mode").Str?
  }

  predicate IsRouteRequestPayload(p: Value) {
    && IsObject(p) && Field(p, "goal").Str?
    && (Field(p, "context").Undefined? || IsStringArray(Field(p, "context")))
  }

  predicate IsRouteBranch(v: Value) {
    && IsObject(v) && IsStringArray(Field(v, "path")) && Field(v, "path").items != []
    && UnitOrNaN(Field(v, "confidence")) && OptionalString(v, "rationale")
  }

  predicate AllBranches(v: Value) {
    match v
    case Arr(items) => forall x | x in items :: IsRouteBranch(x)
    case Obj(fields) => forall key | key in fields :: IsRouteBranch(fields[key])
    case _ => false
  }

  predicate IsRouteResponsePayload(p: Value) {
    && IsObject(p) && AllBranches(Field(p, "branches"))
    && (Field(p, "selection").Undefined? || Field(p, "selection").Str?)
  }

  predicate IsFocusSnapshotPayload(p: Value) {
    IsObject(p) && Field(p, "focus").Str? && UnitOrNaN(Field(p, "signal")) && OptionalString(p, "rationale")
  }

  predicate IsPayload(kind: Kind, p: Value) {
    match kind
    case Hello => IsHelloPayload(p)
    case Heartbeat => IsHeartbeatPayload(p)
    case Orientation => IsOrientationPayload(p)
    case RouteRequest => IsRouteRequestPayload(p)
    case RouteResponse => IsRouteResponsePayload(p)
    case FocusSnapshot => IsFocusSnapshotPayload(p)
    case Unknown => false
  }

  predicate IsLtpFrame(f: Value) {
    && IsObject(f) && Field(f, "v") == Str(VERSION) && Field(f, "id").Str? && Field(f, "id").s != ""
    && Field(f, "ts").Num? && Field(f, "type").Str? && Has(f, "payload")
    && IsPayload(KindOf(Field(f, "type").s), Field(f, "payload"))
  }

  // ---------------------------------------------------------------------------------------
  // What the checkers report
  // ---------------------------------------------------------------------------------------

  /** A finding, at a frame or about the whole capture. */
  datatype Issue<C> = Issue(code: C, at: Option<nat>)

  function Tagged<C>(codes: seq<C>, at: Option<nat>): seq<Issue<C>> {
    seq(|codes|, i requires 0 <= i < |codes| => Issue(codes[i], at))
  }

  lemma TaggedHas<C(!new)>(codes: seq<C>, at: Option<nat>)
    ensures forall e :: e in Tagged(codes, at) <==> e.at == at && e.code in codes
  {
    forall e ensures e in Tagged(codes, at) <==> e.at == at && e.code in codes {
      if e.at == at && e.code in codes {
        var i :| 0 <= i < |codes| && codes[i] == e.code;
        assert Tagged(codes, at)[i] == e;
      }
    }
  }

  /** No element occurs twice. */
  ghost predicate NoRepeat<T>(s: seq<T>) { forall i, j | 0 <= i < j < |s| :: s[i] != s[j] }

  lemma JoinNoRepeat<T>(s: seq<T>, t: seq<T>)
    requires NoRepeat(s) && NoRepeat(t) && forall x | x in s :: x !in t
    ensures NoRepeat(s + t)
  {
    forall i, j | 0 <= i < j < |s + t| ensures (s + t)[i] != (s + t)[j] {
      if i < |s| <= j { assert s[i] in s && t[j - |s|] in t; }
    }
  }

  lemma TaggedNoRepeat<C>(codes: seq<C>, at: Option<nat>)
    requires NoRepeat(codes)
    ensures NoRepeat(Tagged(codes, at))
  {
  }

  /** The findings of one more frame repeat none of the earlier ones. */
  lemma TagNext<C(!new)>(found: seq<Issue<C>>, codes: seq<C>, n: nat)
    requires NoRepeat(found) && NoRepeat(codes) && forall e | e in found :: e.at.Some? && e.at.value < n
    ensures NoRepeat(found + Tagged(codes, Some(n)))
    ensures forall e | e in found + Tagged(codes, Some(n)) :: e.at.Some? && e.at.value < n + 1
  {
    TaggedHas(codes, Some(n));
    TaggedNoRepeat(codes, Some(n));
    JoinNoRepeat(found, Tagged(codes, Some(n)));
  }

  /** The list holds exactly the elements of the set, each once. */
  ghost predicate Lists<T(!new)>(s: seq<T>, all: set<T>) { NoRepeat(s) && forall x :: x in s <==> x in all }

  lemma {:induction false} ListsCount<T(!new)>(s: seq<T>, all: set<T>)
    requires Lists(s, all)
    ensures |s| == |all|
  {
    if s == [] {
      assert all == {};
    } else {
      var init, last := s[..|s| - 1], s[|s| - 1];
      assert s == init + [last] && last !in init;
      ListsCount(init, all - {last});
    }
  }

  // ---------------------------------------------------------------------------------------
  // Which sender has used which id
  // ---------------------------------------------------------------------------------------

  datatype Key = Key(sender: string, id: string)

  /** The key is among the first n; frames without one count for nothing. */
  ghost predicate KeyUsed(keys: seq<Option<Key>>, n: nat, k: Key)
    requires n <= |keys|
  {
    exists j | 0 <= j < n :: keys[j] == Some(k)
  }

  type Ledger = map<string, set<string>>

  function IdsOf(l: Ledger, sender: string): set<string> { if sender in l then l[sender] else {} }

  predicate Recorded(l: Ledger, k: Key) { k.id in IdsOf(l, k.sender) }

  function Record(l: Ledger, k: Key): Ledger { l[k.sender := IdsOf(l, k.sender) + {k.id}] }

  ghost predicate LedgerExact(keys: seq<Option<Key>>, n: nat, l: Ledger)
    requires n <= |keys|
  {
    forall k :: Recorded(l, k) <==> KeyUsed(keys, n, k)
  }

  lemma KeyUsedStep(keys: seq<Option<Key>>, n: nat, k: Key)
    requires n < |keys|
    ensures KeyUsed(keys, n + 1, k) <==> KeyUsed(keys, n, k) || keys[n] == Some(k)
  {
  }

  lemma LedgerNext(keys: seq<Option<Key>>, n: nat, l: Ledger)
    requires n < |keys| && LedgerExact(keys, n, l)
    ensures LedgerExact(keys, n + 1, if keys[n].Some? then Record(l, keys[n].value) else l)
  {
    var next := if keys[n].Some? then Record(l, keys[n].value) else l;
    forall k ensures Recorded(next, k) <==> KeyUsed(keys, n + 1, k) {
      KeyUsedStep(keys, n, k);
      assert Recorded(l, k) <==> KeyUsed(keys, n, k);
    }
  }
}
