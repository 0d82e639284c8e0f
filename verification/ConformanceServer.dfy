/** The server's conformance check, and how it relates to the kit's. */
module ConformanceServer {
  import opened Texts
  import opened Frames
  import Protocol
  import ConformanceKit

  datatype Code =
    | NotArray | NoFrames | TooMany
    | BadId | HelloFirst | BadVersion | BadTimestamp | BadType | BadSchema
    | DuplicateId | TimestampEarlier | UnknownType

  datatype Response = Response(
    ok: bool, score: real, errors: seq<Issue<Code>>, warnings: seq<Issue<Code>>, frameCount: nat, httpStatus: nat)

  const MAX_FRAMES: nat := 5000

  function KindField(f: Value): Kind { if Field(f, "type").Str? then KindOf(Field(f, "type").s) else Unknown }

  /** The errors one frame deserves; they do not depend on the other frames. */
  ghost predicate Fault(f: Value, i: nat, code: Code) {
    match code
    case BadId => !Field(f, "id").Str?
    case HelloFirst => i == 0 && Field(f, "type") != Str("hello")
    case BadVersion => Field(f, "v") != Str(VERSION)
    case BadTimestamp => !Field(f, "ts").Num?
    case BadType => !Field(f, "type").Str?
    case BadSchema => KindField(f) != Unknown && !IsLtpFrame(f)
    case _ => false
  }

  ghost predicate Faultless(f: Value, i: nat) { forall code :: !Fault(f, i, code) }

  ghost predicate Accepts(input: Value) {
    && input.Arr? && 1 <= |input.items| <= MAX_FRAMES
    && forall i | 0 <= i < |input.items| :: Faultless(input.items[i], i)
  }

  /** The last numeric timestamp among the first n frames, NaN included. */
  ghost function LastTs(frames: seq<Value>, n: nat): Option<Number>
    requires n <= |frames|
  {
    if n == 0 then None
    else if Field(frames[n - 1], "ts").Num? then Some(Field(frames[n - 1], "ts").n)
    else LastTs(frames, n - 1)
  }

  predicate AtLeast(a: Number, b: Number) { a != NaN && b != NaN && !Below(a, b) }

  /** Frame i's timestamp does not continue the ones before it. */
  ghost predicate Regresses(frames: seq<Value>, i: nat)
    requires i < |frames|
  {
    Field(frames[i], "ts").Num? && LastTs(frames, i).Some? && !AtLeast(Field(frames[i], "ts").n, LastTs(frames, i).value)
  }

  function KeyField(f: Value): Option<Key> {
    if Field(f, "id").Str?
    then Some(Key(if Field(f, "from").Str? then Field(f, "from").s else "global", Field(f, "id").s))
    else None
  }

  function Keys(frames: seq<Value>): seq<Option<Key>> { seq(|frames|, i requires 0 <= i < |frames| => KeyField(frames[i])) }

  /** The warnings frame i deserves. */
  ghost predicate Blemish(frames: seq<Value>, i: nat, code: Code)
    requires i < |frames|
  {
    match code
    case DuplicateId => KeyField(frames[i]).Some? && KeyUsed(Keys(frames), i, KeyField(frames[i]).value)
    case TimestampEarlier => Regresses(frames, i)
    case UnknownType => Field(frames[i], "type").Str? && KindField(frames[i]) == Unknown
    case _ => false
  }

  /** The errors and warnings a list of frames deserves. */
  ghost function DeservedErrors(frames: seq<Value>): set<Issue<Code>> {
    set i, code | 0 <= i < |frames| && Fault(frames[i], i, code) :: Issue(code, Some(i))
  }

  ghost function DeservedWarnings(frames: seq<Value>): set<Issue<Code>> {
    set i, code | 0 <= i < |frames| && Blemish(frames, i, code) :: Issue(code, Some(i))
  }

  /** The first n frames break the flow of a session. */
  ghost predicate Semantic(frames: seq<Value>, n: nat)
    requires n <= |frames|
  {
    exists i | 0 <= i < n :: (i == 0 && Field(frames[i], "type") != Str("hello")) || Regresses(frames, i)
  }

  /** The findings about the first n frames are exactly those deserved, each once. */
  ghost predicate ErrorsExact(frames: seq<Value>, n: nat, errors: seq<Issue<Code>>)
    requires n <= |frames|
  {
    && NoRepeat(errors) && (forall e | e in errors :: e.at.Some? && e.at.value < n)
    && (forall i, code | 0 <= i < n :: Issue(code, Some(i)) in errors <==> Fault(frames[i], i, code))
  }

  ghost predicate WarningsExact(frames: seq<Value>, n: nat, warnings: seq<Issue<Code>>)
    requires n <= |frames|
  {
    && NoRepeat(warnings) && (forall e | e in warnings :: e.at.Some? && e.at.value < n)
    && (forall i, code | 0 <= i < n :: Issue(code, Some(i)) in warnings <==> Blemish(frames, i, code))
  }

  lemma ErrorsNext(frames: seq<Value>, n: nat, errors: seq<Issue<Code>>, codes: seq<Code>)
    requires n < |frames| && ErrorsExact(frames, n, errors)
    requires NoRepeat(codes) && forall code :: code in codes <==> Fault(frames[n], n, code)
    ensures ErrorsExact(frames, n + 1, errors + Tagged(codes, Some(n)))
  {
    TaggedHas(codes, Some(n));
    TagNext(errors, codes, n);
  }

  lemma WarningsNext(frames: seq<Value>, n: nat, warnings: seq<Issue<Code>>, codes: seq<Code>)
    requires n < |frames| && WarningsExact(frames, n, warnings)
    requires NoRepeat(codes) && forall code :: code in codes <==> Blemish(frames, n, code)
    ensures WarningsExact(frames, n + 1, warnings + Tagged(codes, Some(n)))
  {
    TaggedHas(codes, Some(n));
    TagNext(warnings, codes, n);
  }

  predicate ContentCode(code: Code) { code.BadTimestamp? || code.BadType? || code.BadSchema? }

  method CheckContent(f: Value) returns (errors: seq<Code>)
    ensures NoRepeat(errors) && forall code :: code in errors <==> ContentCode(code) && Fault(f, 0, code)
  {
    errors := [];
    if !Field(f, "ts").Num? { errors := errors + [BadTimestamp]; }
    var known := KindField(f) != Unknown;
    if !known && !Field(f, "type").Str? { errors := errors + [BadType]; }
    if known && !IsLtpFrame(f) { errors := errors + [BadSchema]; }
  }

  /** One frame: exactly the errors it deserves. */
  method CheckFrame(f: Value, index: nat) returns (errors: seq<Code>)
    ensures NoRepeat(errors) && forall code :: code in errors <==> Fault(f, index, code)
  {
    errors := [];
    if !Field(f, "id").Str? { errors := errors + [BadId]; }
    if index == 0 && Field(f, "type") != Str("hello") { errors := errors + [HelloFirst]; }
    if Field(f, "v") != Str(VERSION) { errors := errors + [BadVersion]; }
    var content := CheckContent(f);
    assert forall code :: ContentCode(code) ==> (Fault(f, 0, code) <==> Fault(f, index, code));
    JoinNoRepeat(errors, content);
    errors := errors + content;
  }

  /** One frame against those before it: exactly the warnings it deserves. */
  method CompareFrame(ghost frames: seq<Value>, f: Value, index: nat, last: Option<Number>, used: Ledger)
    returns (warnings: seq<Code>, regressed: bool)
    requires index < |frames| && frames[index] == f && last == LastTs(frames, index) && LedgerExact(Keys(frames), index, used)
    ensures NoRepeat(warnings) && forall code :: code in warnings <==> Blemish(frames, index, code)
    ensures regressed == Regresses(frames, index)
  {
    warnings, regressed := [], false;
    var key := KeyField(f);
    if key.Some? {
      assert Recorded(used, key.value) <==> KeyUsed(Keys(frames), index, key.value);
      if Recorded(used, key.value) { warnings := warnings + [DuplicateId]; }
    }
    var ts := Field(f, "ts");
    if ts.Num? && last.Some? && !AtLeast(ts.n, last.value) {
      warnings, regressed := warnings + [TimestampEarlier], true;
    }
    if KindField(f) == Unknown && Field(f, "type").Str? { warnings := warnings + [UnknownType]; }
  }

  method CheckFrames(frames: seq<Value>) returns (errors: seq<Issue<Code>>, warnings: seq<Issue<Code>>, semantic: bool)
    ensures ErrorsExact(frames, |frames|, errors) && WarningsExact(frames, |frames|, warnings)
    ensures semantic == Semantic(frames, |frames|)
  {
    errors, warnings, semantic := [], [], false;
    var last: Option<Number>, used: Ledger := None, map[];
    for index := 0 to |frames|
      invariant ErrorsExact(frames, index, errors) && WarningsExact(frames, index, warnings)
      invariant semantic == Semantic(frames, index) && last == LastTs(frames, index) && LedgerExact(Keys(frames), index, used)
    {
      var f := frames[index];
      var codes := CheckFrame(f, index);
      var remarks, regressed := CompareFrame(frames, f, index, last, used);
      ErrorsNext(frames, index, errors, codes);
      WarningsNext(frames, index, warnings, remarks);
      LedgerNext(Keys(frames), index, used);
      SemanticNext(frames, index);
      errors, warnings := errors + Tagged(codes, Some(index)), warnings + Tagged(remarks, Some(index));
      if KeyField(f).Some? { used := Record(used, KeyField(f).value); }
      if (index == 0 && Field(f, "type") != Str("hello")) || regressed { semantic := true; }
      if Field(f, "ts").Num? { last := Some(Field(f, "ts").n); }
    }
  }

  lemma SemanticNext(frames: seq<Value>, n: nat)
    requires n < |frames|
    ensures Semantic(frames, n + 1) <==>
            Semantic(frames, n) || (n == 0 && Field(frames[n], "type") != Str("hello")) || Regresses(frames, n)
  {
  }

  lemma AllListed(frames: seq<Value>, errors: seq<Issue<Code>>, warnings: seq<Issue<Code>>)
    requires ErrorsExact(frames, |frames|, errors) && WarningsExact(frames, |frames|, warnings)
    ensures Lists(errors, DeservedErrors(frames)) && Lists(warnings, DeservedWarnings(frames))
  {
    forall e ensures (e in errors <==> e in DeservedErrors(frames)) && (e in warnings <==> e in DeservedWarnings(frames)) {
      if e.at.Some? { assert e == Issue(e.code, Some(e.at.value)); }
    }
  }

  lemma NoErrors(frames: seq<Value>)
    ensures DeservedErrors(frames) == {} <==> forall i | 0 <= i < |frames| :: Faultless(frames[i], i)
  {
    if DeservedErrors(frames) == {} {
      forall i, code | 0 <= i < |frames| ensures !Fault(frames[i], i, code) {
        assert Issue(code, Some(i)) !in DeservedErrors(frames);
      }
    }
  }

  /** What the server finds without fault, in terms of the raw frame. */
  lemma FaultlessReads(f: Value, i: nat)
    ensures Faultless(f, i) <==> Protocol.Admissible(f, i == 0)
  {
    Protocol.FrameAgrees(f);
    if Protocol.Text(f, "type") { Protocol.KindsAgree(f); }
    if Faultless(f, i) {
      assert !Fault(f, i, BadId) && !Fault(f, i, HelloFirst) && !Fault(f, i, BadVersion) && !Fault(f, i, BadTimestamp);
      assert !Fault(f, i, BadType) && !Fault(f, i, BadSchema);
    }
  }

  /** The schema error of the server, in terms of the raw frame. */
  lemma SchemaFaultReads(f: Value, i: nat)
    ensures Fault(f, i, BadSchema) <==>
            Protocol.Known(f)
            && !(Protocol.Text(f, "id") && Protocol.Named(f) && Protocol.Holds(f, "v") && f.fields["v"] == Str("0.1")
                 && Protocol.Number(f, "ts") && Protocol.Payload(f))
  {
    Protocol.FrameAgrees(f);
    if Protocol.Text(f, "type") { Protocol.KindsAgree(f); }
  }

  /** f's time comes after g's or is the same, as `>=` has it. */
  predicate Continues(f: Value, g: Value) {
    && Protocol.Number(f, "ts") && Protocol.Number(g, "ts")
    && match (f.fields["ts"].n, g.fields["ts"].n)
       case (Finite(x), Finite(y)) => x >= y
       case (PosInf, h) => h != NaN
       case (h, NegInf) => h != NaN
       case _ => false
  }

  /** j is the last frame with a time before frame i, and frame i goes back behind it. */
  ghost predicate GoesBack(frames: seq<Value>, j: nat, i: nat)
    requires j < i < |frames|
  {
    && Protocol.Number(frames[j], "ts") && Protocol.Number(frames[i], "ts")
    && (forall k | j < k < i :: !Protocol.Number(frames[k], "ts")) && !Continues(frames[i], frames[j])
  }

  lemma {:induction false} LastTsReads(frames: seq<Value>, n: nat)
    requires n <= |frames|
    ensures LastTs(frames, n).None? ==> forall k | 0 <= k < n :: !Protocol.Number(frames[k], "ts")
    ensures LastTs(frames, n).Some? ==>
              exists j | 0 <= j < n :: Protocol.Number(frames[j], "ts") && frames[j].fields["ts"].n == LastTs(frames, n).value
                                       && forall k | j < k < n :: !Protocol.Number(frames[k], "ts")
  {
    if n > 0 {
      LastTsReads(frames, n - 1);
      if Protocol.Number(frames[n - 1], "ts") { assert frames[n - 1].fields["ts"].n == LastTs(frames, n).value; }
    }
  }

  lemma RegressesReads(frames: seq<Value>, i: nat)
    requires i < |frames|
    ensures Regresses(frames, i) <==> exists j | 0 <= j < i :: GoesBack(frames, j, i)
  {
    LastTsReads(frames, i);
    if LastTs(frames, i).Some? && Protocol.Number(frames[i], "ts") {
      var j :| 0 <= j < i && Protocol.Number(frames[j], "ts") && frames[j].fields["ts"].n == LastTs(frames, i).value
               && forall k | j < k < i :: !Protocol.Number(frames[k], "ts");
      assert GoesBack(frames, j, i) <==> Regresses(frames, i);
      assert forall k | 0 <= k < i && GoesBack(frames, k, i) :: k == j;
    }
  }

  /** When a capture is a semantic error, in terms of the raw frames. */
  lemma SemanticReads(frames: seq<Value>)
    ensures Semantic(frames, |frames|) <==>
            || (frames != [] && !Protocol.Typed(frames[0], "hello"))
            || exists j, i | 0 <= j < i < |frames| :: GoesBack(frames, j, i)
  {
    forall i | 0 <= i < |frames| ensures Regresses(frames, i) <==> exists j | 0 <= j < i :: GoesBack(frames, j, i) {
      RegressesReads(frames, i);
    }
  }

  lemma AcceptsReads(input: Value)
    ensures Accepts(input) <==> Protocol.Taken(input)
  {
    if input.Arr? {
      forall i | 0 <= i < |input.items| ensures Faultless(input.items[i], i) <==> Protocol.Admissible(input.items[i], i == 0) {
        FaultlessReads(input.items[i], i);
      }
    }
  }

  function ClampScore(x: real): real { if x < 0.0 then 0.0 else if x > 1.0 then 1.0 else x }

  predicate InBounds(input: Value) { input.Arr? && 1 <= |input.items| <= MAX_FRAMES }

  method VerifyConformance(input: Value) returns (r: Response)
    ensures r.ok <==> Protocol.Taken(input)
    ensures r.httpStatus == (if Protocol.Taken(input) then 200 else if !input.Arr? || input.items == [] then 400
                             else if |input.items| > MAX_FRAMES then 413
                             else if Semantic(input.items, |input.items|) then 422 else 400)
    ensures InBounds(input) ==> Lists(r.errors, DeservedErrors(input.items)) && Lists(r.warnings, DeservedWarnings(input.items))
    ensures r.score == if !InBounds(input) then 0.0
                       else ClampScore(1.0 - |DeservedErrors(input.items)| as real * 0.25 - |DeservedWarnings(input.items)| as real * 0.05)
    ensures r.frameCount == if input.Arr? then |input.items| else 0
  {
    AcceptsReads(input);
    if !input.Arr? { return Response(false, 0.0, [Issue(NotArray, None)], [], 0, 400); }
    var frames := input.items;
    if |frames| == 0 { return Response(false, 0.0, [Issue(NoFrames, None)], [], 0, 400); }
    if |frames| > MAX_FRAMES { return Response(false, 0.0, [Issue(TooMany, None)], [], |frames|, 413); }
    var errors, warnings, semantic := CheckFrames(frames);
    AllListed(frames, errors, warnings);
    ListsCount(errors, DeservedErrors(frames));
    ListsCount(warnings, DeservedWarnings(frames));
    NoErrors(frames);
    var ok, httpStatus := errors == [], 200;
    if !ok && semantic { httpStatus := 422; }
    if !ok && httpStatus == 200 { httpStatus := 400; }
    var score := ClampScore(1.0 - |errors| as real * 0.25 - |warnings| as real * 0.05);
    r := Response(ok, score, errors, warnings, |frames|, httpStatus);
  }

  // ---------------------------------------------------------------------------------------
  // The kit refines the server
  // ---------------------------------------------------------------------------------------

  predicate StringFields(f: Value) {
    Protocol.Text(f, "id") && Protocol.Text(f, "v") && Protocol.Text(f, "type")
  }

  /** Checker refinement: of what the kit accepts the server accepts exactly the captures of at
      most 5000 frames whose ids, versions and types are strings. */
  lemma CheckerRefinement(frames: seq<Value>, text: Value -> string)
    ensures ConformanceKit.Conforms(ConformanceKit.Entries(frames, text)) ==>
              (Accepts(Arr(frames)) <==> |frames| <= MAX_FRAMES && forall i | 0 <= i < |frames| :: StringFields(frames[i]))
  {
    ConformanceKit.ConformsReads(frames, text);
    AcceptsReads(Arr(frames));
    if Protocol.Follows(frames, text) { Protocol.TakenExact(frames, text); }
  }
}
