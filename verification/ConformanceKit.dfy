/** The conformance kit: one pass over the frames with flags and id sets, against a declarative
    description of which frames are at fault. */
module ConformanceKit {
  import opened Texts
  import opened Frames
  import Protocol

  datatype Normalized = Normalized(v: string, id: string, ts: Number, name: string, payload: Value, from: Option<string>, to: Option<string>)

  function FromStr(v: Value): Option<string> { if v.Str? then Some(v.s) else None }

  /** `text` is JavaScript's `String(...)` on values that are not strings. */
  function NormalizeFrame(frame: Value, index: nat, text: Value -> string): Option<Normalized> {
    if !IsObject(frame) then None
    else
      var v, id, ts, name := Field(frame, "v"), Field(frame, "id"), Field(frame, "ts"), Field(frame, "type");
      Some(Normalized(
        if v.Str? then v.s else if v.Undefined? || v.Null? then "unknown" else text(v),
        if id.Str? then id.s else "frame-" + Decimal(index),
        if ts.Num? then ts.n else NaN,
        if name.Str? then name.s else "unknown",
        Field(frame, "payload"), FromStr(Field(frame, "from")), FromStr(Field(frame, "to"))))
  }

  function AsField(s: Option<string>): Value { if s.Some? then Str(s.value) else Undefined }

  /** The normalised frame as the object the schema check is given. */
  function AsValue(n: Normalized): Value {
    Obj(map["v" := Str(n.v), "id" := Str(n.id), "ts" := Num(n.ts), "type" := Str(n.name),
            "payload" := n.payload, "from" := AsField(n.from), "to" := AsField(n.to)])
  }

  function SenderOf(n: Normalized): string { if n.from.Some? then n.from.value else "global" }

  function CountBranches(payload: Value): nat {
    match Field(payload, "branches")
    case Arr(items) => |items|
    case Obj(fields) => |fields|
    case _ => 0
  }

  datatype Code =
    | FrameShape | VersionUnsupported | TimestampMissing | IdDuplicate | HelloFirst | HelloRedundant | BeforeHello
    | SchemaInvalid | HeartbeatOrder | OrientationOrder | RequestOrder | ResponseOrder | BranchesMissing
    | HelloMissing | HeartbeatMissing | OrientationMissing | RequestMissing | ResponseMissing
    | TimestampRegression | TypeUnknown | OrientationLate | BranchesSingle | FocusMissing

  datatype Status = FAIL | WARN | OK

  datatype Report = Report(ok: bool, status: Status, score: real, frameCount: nat, errors: seq<Issue<Code>>, warnings: seq<Issue<Code>>)

  // ---------------------------------------------------------------------------------------
  // What is at fault, frame by frame
  // ---------------------------------------------------------------------------------------

  /** What the rules look at in a normalised frame: `valid` is the schema's verdict on it. */
  datatype Entry = Entry(v: string, ts: Number, sender: string, id: string, kind: Kind, valid: bool, branches: nat)

  function EntryOf(n: Normalized): Entry {
    Entry(n.v, n.ts, SenderOf(n), n.id, KindOf(n.name), IsLtpFrame(AsValue(n)), CountBranches(n.payload))
  }

  /** A capture; None where a frame is not an object. */
  type Capture = seq<Option<Entry>>

  function EntryAt(frame: Value, index: nat, text: Value -> string): Option<Entry> {
    var n := NormalizeFrame(frame, index, text);
    if n.Some? then Some(EntryOf(n.value)) else None
  }

  function Entries(frames: seq<Value>, text: Value -> string): Capture {
    seq(|frames|, i requires 0 <= i < |frames| => EntryAt(frames[i], i, text))
  }

  function KindAt(c: Capture, i: nat): Kind
    requires i < |c|
  {
    if c[i].Some? then c[i].value.kind else Unknown
  }

  /** Among the first n frames there is one of this kind. */
  ghost predicate Seen(c: Capture, n: nat, kind: Kind)
    requires n <= |c|
  {
    exists j | 0 <= j < n :: KindAt(c, j) == kind
  }

  function KeyAt(c: Capture, i: nat): Option<Key>
    requires i < |c|
  {
    if c[i].Some? then Some(Key(c[i].value.sender, c[i].value.id)) else None
  }

  function Keys(c: Capture): seq<Option<Key>> { seq(|c|, i requires 0 <= i < |c| => KeyAt(c, i)) }

  /** Among the first n frames this sender used this id. */
  ghost predicate Used(c: Capture, n: nat, k: Key)
    requires n <= |c|
  {
    KeyUsed(Keys(c), n, k)
  }

  /** The last proper timestamp among the first n frames. */
  ghost function LastTs(c: Capture, n: nat): Option<Number>
    requires n <= |c|
  {
    if n == 0 then None
    else if c[n - 1].Some? && c[n - 1].value.ts != NaN then Some(c[n - 1].value.ts)
    else LastTs(c, n - 1)
  }

  /** The errors frame i deserves. */
  ghost predicate Fault(c: Capture, i: nat, code: Code)
    requires i < |c|
  {
    if c[i].None? then code == FrameShape
    else
      var n := c[i].value;
      match code
      case VersionUnsupported => n.v != VERSION
      case TimestampMissing => n.ts == NaN
      case IdDuplicate => Used(c, i, Key(n.sender, n.id))
      case SchemaInvalid => n.kind != Unknown && !n.valid
      case _ => FlowFault(c, i, code)
  }

  /** Errors of order and of kind. */
  ghost predicate FlowFault(c: Capture, i: nat, code: Code)
    requires i < |c| && c[i].Some?
  {
    var kind := KindAt(c, i);
    match code
    case HelloFirst => i == 0 && kind != Hello
    case HelloRedundant => i != 0 && kind == Hello
    case BeforeHello => kind != Hello && !Seen(c, i, Hello)
    case HeartbeatOrder => kind == Heartbeat && !Seen(c, i, Hello)
    case OrientationOrder => kind == Orientation && !Seen(c, i, Hello)
    case RequestOrder => kind == RouteRequest && !Seen(c, i, Hello)
    case ResponseOrder => kind == RouteResponse && !Seen(c, i, RouteRequest)
    case BranchesMissing => kind == RouteResponse && c[i].value.branches == 0
    case _ => false
  }

  /** The warnings frame i deserves. */
  ghost predicate Blemish(c: Capture, i: nat, code: Code)
    requires i < |c|
  {
    c[i].Some? &&
    var n := c[i].value;
    match code
    case TimestampRegression => n.ts != NaN && LastTs(c, i).Some? && Below(n.ts, LastTs(c, i).value)
    case TypeUnknown => n.kind == Unknown
    case _ => FlowBlemish(c, i, code)
  }

  ghost predicate FlowBlemish(c: Capture, i: nat, code: Code)
    requires i < |c| && c[i].Some?
  {
    match code
    case OrientationLate => KindAt(c, i) == RouteRequest && !Seen(c, i, Orientation)
    case BranchesSingle => KindAt(c, i) == RouteResponse && c[i].value.branches == 1
    case _ => false
  }

  ghost predicate MissingKind(c: Capture, code: Code) {
    match code
    case HelloMissing => !Seen(c, |c|, Hello)
    case HeartbeatMissing => !Seen(c, |c|, Heartbeat)
    case OrientationMissing => !Seen(c, |c|, Orientation)
    case RequestMissing => !Seen(c, |c|, RouteRequest)
    case ResponseMissing => !Seen(c, |c|, RouteResponse)
    case _ => false
  }

  /** The issues of the first n frames, and the capture's own when all are done. */
  ghost predicate ErrorsExact(c: Capture, n: nat, errors: seq<Issue<Code>>)
    requires n <= |c|
  {
    && (forall i, code | 0 <= i < n :: Issue(code, Some(i)) in errors <==> Fault(c, i, code))
    && (forall e | e in errors && e.at.Some? :: e.at.value < n)
  }

  ghost predicate WarningsExact(c: Capture, n: nat, warnings: seq<Issue<Code>>)
    requires n <= |c|
  {
    && (forall i, code | 0 <= i < n :: Issue(code, Some(i)) in warnings <==> Blemish(c, i, code))
    && (forall e | e in warnings && e.at.Some? :: e.at.value < n)
  }

  // ---------------------------------------------------------------------------------------
  // The pass
  // ---------------------------------------------------------------------------------------

  /** The variables the pass updates. */
  datatype Flags = Flags(hello: bool, heartbeat: bool, orientation: bool, requested: bool, responded: bool, focus: bool)

  datatype Progress = Progress(lastTs: Option<Number>, used: Ledger, flags: Flags)

  const START := Progress(None, map[], Flags(false, false, false, false, false, false))

  ghost predicate FlagsExact(c: Capture, n: nat, f: Flags)
    requires n <= |c|
  {
    && f.hello == Seen(c, n, Hello) && f.heartbeat == Seen(c, n, Heartbeat) && f.orientation == Seen(c, n, Orientation)
    && f.requested == Seen(c, n, RouteRequest) && f.responded == Seen(c, n, RouteResponse)
    && f.focus == Seen(c, n, FocusSnapshot)
  }

  ghost predicate Tracks(c: Capture, n: nat, p: Progress)
    requires n <= |c|
  {
    p.lastTs == LastTs(c, n) && LedgerExact(Keys(c), n, p.used) && FlagsExact(c, n, p.flags)
  }

  lemma SeenNext(c: Capture, n: nat)
    requires n < |c|
    ensures forall kind :: Seen(c, n + 1, kind) <==> Seen(c, n, kind) || KindAt(c, n) == kind
  {
    forall kind ensures Seen(c, n + 1, kind) <==> Seen(c, n, kind) || KindAt(c, n) == kind {
      if KindAt(c, n) == kind { assert Seen(c, n + 1, kind); }
    }
  }

  predicate HelloCode(code: Code) { code.HelloFirst? || code.HelloRedundant? || code.BeforeHello? }

  /** Only the first frame may be a hello, and it must be one. */
  method CheckHello(ghost c: Capture, n: Entry, index: nat, hello: bool) returns (errors: seq<Code>, now: bool)
    requires index < |c| && c[index] == Some(n) && hello == Seen(c, index, Hello)
    ensures now == (hello || (index == 0 && KindAt(c, index) == Hello))
    ensures NoRepeat(errors) && forall code :: code in errors <==> HelloCode(code) && FlowFault(c, index, code)
  {
    errors, now := [], hello;
    var kind := n.kind;
    if index == 0 {
      if kind != Hello { errors := errors + [HelloFirst]; } else { now := true; }
    }
    if kind == Hello && index != 0 { errors := errors + [HelloRedundant]; }
    if !now && kind != Hello { errors := errors + [BeforeHello]; }
  }

  function Raised(f: Flags, kind: Kind): Flags {
    match kind
    case Hello => f.(hello := true)
    case Heartbeat => f.(heartbeat := true)
    case Orientation => f.(orientation := true)
    case RouteRequest => f.(requested := true)
    case RouteResponse => f.(responded := true)
    case FocusSnapshot => f.(focus := true)
    case Unknown => f
  }

  lemma RaisedExact(c: Capture, n: nat, f: Flags, hello: bool)
    requires n < |c| && FlagsExact(c, n, f) && (f.hello ==> hello) && (hello ==> f.hello || KindAt(c, n) == Hello)
    ensures FlagsExact(c, n + 1, Raised(f.(hello := hello), KindAt(c, n)))
  {
    SeenNext(c, n);
  }

  /** The flags where the switch on a frame's kind finds them: `hello` may have been raised by this
      very frame. */
  ghost predicate FlagsAtSwitch(c: Capture, index: nat, f: Flags)
    requires index < |c|
  {
    && FlagsExact(c, index, f.(hello := Seen(c, index, Hello)))
    && f.hello == (Seen(c, index, Hello) || (index == 0 && KindAt(c, index) == Hello))
  }

  /** The two kinds of routing frames. */
  method CheckRoute(ghost c: Capture, n: Entry, index: nat, f: Flags)
    returns (errors: seq<Code>, warnings: seq<Code>, g: Flags)
    requires index < |c| && c[index] == Some(n) && FlagsAtSwitch(c, index, f) && (n.kind.RouteRequest? || n.kind.RouteResponse?)
    ensures g == Raised(f, KindAt(c, index))
    ensures NoRepeat(errors) && forall code :: code in errors <==> !HelloCode(code) && FlowFault(c, index, code)
    ensures NoRepeat(warnings) && forall code :: code in warnings <==> FlowBlemish(c, index, code)
  {
    errors, warnings, g := [], [], f;
    if n.kind == RouteRequest {
      g := g.(requested := true);
      if !g.hello { errors := [RequestOrder]; }
      if !g.orientation { warnings := [OrientationLate]; }
    } else {
      g := g.(responded := true);
      if !g.requested { errors := [ResponseOrder]; }
      if n.branches == 0 {
        errors := errors + [BranchesMissing];
      } else if n.branches == 1 {
        warnings := [BranchesSingle];
      }
    }
  }

  /** What a frame's kind demands of the frames before it. */
  method CheckKind(ghost c: Capture, n: Entry, index: nat, f: Flags)
    returns (errors: seq<Code>, warnings: seq<Code>, g: Flags)
    requires index < |c| && c[index] == Some(n) && FlagsAtSwitch(c, index, f)
    ensures g == Raised(f, KindAt(c, index))
    ensures NoRepeat(errors) && forall code :: code in errors <==> !HelloCode(code) && FlowFault(c, index, code)
    ensures NoRepeat(warnings) && forall code :: code in warnings <==> FlowBlemish(c, index, code)
  {
    errors, warnings, g := [], [], f;
    match n.kind {
      case Hello => g := g.(hello := true);
      case Heartbeat =>
        g := g.(heartbeat := true);
        if !g.hello { errors := [HeartbeatOrder]; }
      case Orientation =>
        g := g.(orientation := true);
        if !g.hello { errors := [OrientationOrder]; }
      case RouteRequest => errors, warnings, g := CheckRoute(c, n, index, f);
      case RouteResponse => errors, warnings, g := CheckRoute(c, n, index, f);
      case FocusSnapshot => g := g.(focus := true);
      case Unknown =>
    }
  }

  predicate BasicCode(code: Code) { code.VersionUnsupported? || code.TimestampMissing? || code.IdDuplicate? }

  /** Version, timestamp and id. */
  method CheckBasics(ghost c: Capture, n: Entry, index: nat, last: Option<Number>, used: Ledger)
    returns (errors: seq<Code>, warnings: seq<Code>, ts: Option<Number>, ids: Ledger)
    requires index < |c| && c[index] == Some(n) && last == LastTs(c, index) && LedgerExact(Keys(c), index, used)
    ensures ts == LastTs(c, index + 1) && LedgerExact(Keys(c), index + 1, ids)
    ensures NoRepeat(errors) && forall code :: code in errors <==> BasicCode(code) && Fault(c, index, code)
    ensures NoRepeat(warnings) && forall code :: code in warnings <==> code.TimestampRegression? && Blemish(c, index, code)
  {
    errors, warnings, ts := [], [], last;
    if n.v != VERSION { errors := errors + [VersionUnsupported]; }
    if n.ts == NaN {
      errors := errors + [TimestampMissing];
    } else {
      if last.Some? && Below(n.ts, last.value) { warnings := [TimestampRegression]; }
      ts := Some(n.ts);
    }
    var key := Key(n.sender, n.id);
    LedgerNext(Keys(c), index, used);
    assert Keys(c)[index] == Some(key) && (Recorded(used, key) <==> Used(c, index, key));
    if Recorded(used, key) { errors := errors + [IdDuplicate]; }
    ids := Record(used, key);
  }

  /** The codes of a frame's kind alone. */
  function KindErrors(n: Entry): seq<Code> {
    if n.kind != Unknown && !n.valid then [SchemaInvalid] else []
  }

  function KindWarnings(n: Entry): seq<Code> { if n.kind == Unknown then [TypeUnknown] else [] }

  lemma FaultCases(c: Capture, i: nat, n: Entry, code: Code)
    requires i < |c| && c[i] == Some(n)
    ensures Fault(c, i, code) <==>
            (BasicCode(code) && Fault(c, i, code)) || code in KindErrors(n) || FlowFault(c, i, code)
    ensures Blemish(c, i, code) <==>
            (code.TimestampRegression? && Blemish(c, i, code)) || code in KindWarnings(n) || FlowBlemish(c, i, code)
  {
  }

  /** Which part of the check raises a code. */
  function Part(code: Code): nat {
    match code
    case VersionUnsupported => 0
    case TimestampMissing => 0
    case IdDuplicate => 0
    case TimestampRegression => 0
    case HelloFirst => 1
    case HelloRedundant => 1
    case BeforeHello => 1
    case SchemaInvalid => 2
    case TypeUnknown => 2
    case _ => 3
  }

  ghost predicate AllFrom(codes: seq<Code>, part: nat) { forall code | code in codes :: Part(code) == part }

  lemma JoinGroups(a: seq<Code>, b: seq<Code>, d: seq<Code>, e: seq<Code>)
    requires NoRepeat(a) && NoRepeat(b) && NoRepeat(d) && NoRepeat(e)
    requires AllFrom(a, 0) && AllFrom(b, 1) && AllFrom(d, 2) && AllFrom(e, 3)
    ensures NoRepeat(a + b + d + e)
  {
    JoinNoRepeat(a, b);
    JoinNoRepeat(a + b, d);
    JoinNoRepeat(a + b + d, e);
  }

  lemma Joined(a: seq<Code>, b: seq<Code>, d: seq<Code>, e: seq<Code>, code: Code)
    ensures code in a + b + d + e <==> code in a || code in b || code in d || code in e
  {
  }

  lemma JoinErrors(c: Capture, i: nat, n: Entry, basic: seq<Code>, hello: seq<Code>, flow: seq<Code>)
    requires i < |c| && c[i] == Some(n) && NoRepeat(basic) && NoRepeat(hello) && NoRepeat(flow)
    requires forall code :: code in basic <==> BasicCode(code) && Fault(c, i, code)
    requires forall code :: code in hello <==> HelloCode(code) && FlowFault(c, i, code)
    requires forall code :: code in flow <==> !HelloCode(code) && FlowFault(c, i, code)
    ensures var all := basic + hello + KindErrors(n) + flow;
            NoRepeat(all) && forall code :: code in all <==> Fault(c, i, code)
  {
    JoinGroups(basic, hello, KindErrors(n), flow);
    forall code ensures code in basic + hello + KindErrors(n) + flow <==> Fault(c, i, code) {
      FaultCases(c, i, n, code);
      Joined(basic, hello, KindErrors(n), flow, code);
    }
  }

  lemma JoinWarnings(c: Capture, i: nat, n: Entry, basic: seq<Code>, flow: seq<Code>)
    requires i < |c| && c[i] == Some(n) && NoRepeat(basic) && NoRepeat(flow)
    requires forall code :: code in basic <==> code.TimestampRegression? && Blemish(c, i, code)
    requires forall code :: code in flow <==> FlowBlemish(c, i, code)
    ensures var all := basic + [] + KindWarnings(n) + flow;
            NoRepeat(all) && forall code :: code in all <==> Blemish(c, i, code)
  {
    JoinGroups(basic, [], KindWarnings(n), flow);
    forall code ensures code in basic + [] + KindWarnings(n) + flow <==> Blemish(c, i, code) {
      FaultCases(c, i, n, code);
      Joined(basic, [], KindWarnings(n), flow, code);
    }
  }

  /** One frame that is an object: exactly the issues it deserves, and the new state. */
  method CheckFrame(ghost c: Capture, n: Entry, index: nat, p: Progress)
    returns (errors: seq<Code>, warnings: seq<Code>, q: Progress)
    requires index < |c| && c[index] == Some(n) && Tracks(c, index, p)
    ensures Tracks(c, index + 1, q)
    ensures NoRepeat(errors) && forall code :: code in errors <==> Fault(c, index, code)
    ensures NoRepeat(warnings) && forall code :: code in warnings <==> Blemish(c, index, code)
  {
    var es, ws, ts, ids := CheckBasics(c, n, index, p.lastTs, p.used);
    var helloErrors, hello := CheckHello(c, n, index, p.flags.hello);
    var kindErrors, kindWarnings, flags := CheckKind(c, n, index, p.flags.(hello := hello));
    errors := es + helloErrors + KindErrors(n) + kindErrors;
    warnings := ws + [] + KindWarnings(n) + kindWarnings;
    q := Progress(ts, ids, flags);
    RaisedExact(c, index, p.flags, hello);
    JoinErrors(c, index, n, es, helloErrors, kindErrors);
    JoinWarnings(c, index, n, ws, kindWarnings);
  }

  lemma ErrorsNext(c: Capture, n: nat, errors: seq<Issue<Code>>, codes: seq<Code>)
    requires n < |c| && ErrorsExact(c, n, errors) && (forall code :: code in codes <==> Fault(c, n, code))
    ensures ErrorsExact(c, n + 1, errors + Tagged(codes, Some(n)))
  {
    TaggedHas(codes, Some(n));
  }

  lemma WarningsNext(c: Capture, n: nat, warnings: seq<Issue<Code>>, codes: seq<Code>)
    requires n < |c| && WarningsExact(c, n, warnings) && (forall code :: code in codes <==> Blemish(c, n, code))
    ensures WarningsExact(c, n + 1, warnings + Tagged(codes, Some(n)))
  {
    TaggedHas(codes, Some(n));
  }

  /** Every finding is at one of the first n frames and occurs once. */
  ghost predicate Tidy(n: nat, found: seq<Issue<Code>>) {
    NoRepeat(found) && forall e | e in found :: e.at.Some? && e.at.value < n
  }

  /** The pass over a capture. */
  method CheckFrames(c: Capture) returns (errors: seq<Issue<Code>>, warnings: seq<Issue<Code>>, p: Progress)
    ensures ErrorsExact(c, |c|, errors) && WarningsExact(c, |c|, warnings) && Tracks(c, |c|, p)
    ensures Tidy(|c|, errors) && Tidy(|c|, warnings)
  {
    errors, warnings, p := [], [], START;
    for index := 0 to |c|
      invariant ErrorsExact(c, index, errors) && WarningsExact(c, index, warnings) && Tracks(c, index, p)
      invariant Tidy(index, errors) && Tidy(index, warnings)
    {
      if c[index].None? {
        LedgerNext(Keys(c), index, p.used);
        SeenNext(c, index);
        ErrorsNext(c, index, errors, [FrameShape]);
        WarningsNext(c, index, warnings, []);
        TagNext(errors, [FrameShape], index);
        errors := errors + Tagged([FrameShape], Some(index));
      } else {
        var es, ws, q := CheckFrame(c, c[index].value, index, p);
        ErrorsNext(c, index, errors, es);
        WarningsNext(c, index, warnings, ws);
        TagNext(errors, es, index);
        TagNext(warnings, ws, index);
        errors, warnings, p := errors + Tagged(es, Some(index)), warnings + Tagged(ws, Some(index)), q;
      }
    }
  }

  // ---------------------------------------------------------------------------------------
  // The verdict
  // ---------------------------------------------------------------------------------------

  function Clamp01(x: real): real { if x < 0.0 then 0.0 else if x > 1.0 then 1.0 else x }

  function StatusOf(errors: seq<Issue<Code>>, warnings: seq<Issue<Code>>): Status {
    if errors != [] then FAIL else if warnings != [] then WARN else OK
  }

  /** The report names exactly the faults of every frame and the kinds that never occur. */
  ghost predicate ReportExact(c: Capture, errors: seq<Issue<Code>>) {
    && (forall i, code | 0 <= i < |c| :: Issue(code, Some(i)) in errors <==> Fault(c, i, code))
    && (forall code :: Issue(code, None) in errors <==> MissingKind(c, code))
    && (forall e | e in errors && e.at.Some? :: e.at.value < |c|)
  }

  method MissingKinds(ghost c: Capture, f: Flags) returns (codes: seq<Code>)
    requires FlagsExact(c, |c|, f)
    ensures NoRepeat(codes) && forall code :: code in codes <==> MissingKind(c, code)
  {
    codes := [];
    if !f.hello { codes := codes + [HelloMissing]; }
    if !f.heartbeat { codes := codes + [HeartbeatMissing]; }
    if !f.orientation { codes := codes + [OrientationMissing]; }
    if !f.requested { codes := codes + [RequestMissing]; }
    if !f.responded { codes := codes + [ResponseMissing]; }
  }

  /** The errors the capture deserves. */
  ghost function DeservedErrors(c: Capture): set<Issue<Code>> {
    (set i, code | 0 <= i < |c| && Fault(c, i, code) :: Issue(code, Some(i))) + (set code | MissingKind(c, code) :: Issue(code, None))
  }

  ghost function DeservedWarnings(c: Capture): set<Issue<Code>> {
    (set i, code | 0 <= i < |c| && Blemish(c, i, code) :: Issue(code, Some(i)))
    + if Seen(c, |c|, FocusSnapshot) then {} else {Issue(FocusMissing, None)}
  }

  lemma ReportJoined(c: Capture, errors: seq<Issue<Code>>, missing: seq<Code>)
    requires ErrorsExact(c, |c|, errors) && Tidy(|c|, errors) && NoRepeat(missing)
    requires forall code :: code in missing <==> MissingKind(c, code)
    ensures ReportExact(c, errors + Tagged(missing, None)) && NoRepeat(errors + Tagged(missing, None))
  {
    TaggedHas(missing, None);
    TaggedNoRepeat(missing, None);
    JoinNoRepeat(errors, Tagged(missing, None));
  }

  lemma ErrorsListed(c: Capture, errors: seq<Issue<Code>>)
    requires ReportExact(c, errors) && NoRepeat(errors)
    ensures Lists(errors, DeservedErrors(c))
  {
    forall e ensures e in errors <==> e in DeservedErrors(c) {
      if e.at.Some? {
        if e.at.value < |c| { assert e == Issue(e.code, Some(e.at.value)); }
      } else {
        assert e == Issue(e.code, None);
      }
    }
  }

  lemma WarningsListed(c: Capture, found: seq<Issue<Code>>, warnings: seq<Issue<Code>>)
    requires WarningsExact(c, |c|, found) && Tidy(|c|, found)
    requires warnings == found + if Seen(c, |c|, FocusSnapshot) then [] else [Issue(FocusMissing, None)]
    ensures Lists(warnings, DeservedWarnings(c))
  {
    JoinNoRepeat(found, if Seen(c, |c|, FocusSnapshot) then [] else [Issue(FocusMissing, None)]);
    forall e ensures e in warnings <==> e in DeservedWarnings(c) {
      if e.at.Some? && e.at.value < |c| { assert e == Issue(e.code, Some(e.at.value)); }
    }
  }

  method CollectIssues(c: Capture) returns (errors: seq<Issue<Code>>, warnings: seq<Issue<Code>>)
    ensures Lists(errors, DeservedErrors(c)) && Lists(warnings, DeservedWarnings(c))
    ensures errors == [] <==> Conforms(c)
    ensures Conforms(c) ==> (warnings == [] <==> Polished(c))
  {
    var frameErrors, frameWarnings, p := CheckFrames(c);
    var missing := MissingKinds(c, p.flags);
    ReportJoined(c, frameErrors, missing);
    errors, warnings := frameErrors + Tagged(missing, None), frameWarnings;
    if !p.flags.focus { warnings := warnings + [Issue(FocusMissing, None)]; }
    ErrorsListed(c, errors);
    WarningsListed(c, frameWarnings, warnings);
    VerdictExact(c, errors);
    if Conforms(c) {
      forall i | 0 <= i < |c| ensures c[i].Some? && c[i].value.ts != NaN { assert Sound(c, i); }
      PolishExact(c, frameWarnings, warnings);
    }
  }

  method VerifyFrames(frames: seq<Value>, text: Value -> string) returns (r: Report)
    ensures Lists(r.errors, DeservedErrors(Entries(frames, text))) && Lists(r.warnings, DeservedWarnings(Entries(frames, text)))
    ensures r.ok <==> Protocol.Follows(frames, text)
    ensures r.status == FAIL <==> !Protocol.Follows(frames, text)
    ensures r.status == OK <==> Protocol.FollowsWell(frames, text)
    ensures r.frameCount == |frames|
    ensures r.score == Clamp01(1.0 - |DeservedErrors(Entries(frames, text))| as real * 0.2
                               - |DeservedWarnings(Entries(frames, text))| as real * 0.05)
  {
    var c := Entries(frames, text);
    var errors, warnings := CollectIssues(c);
    ConformsReads(frames, text);
    PolishedReads(frames, text);
    ListsCount(errors, DeservedErrors(c));
    ListsCount(warnings, DeservedWarnings(c));
    r := Report(errors == [], StatusOf(errors, warnings),
                Clamp01(1.0 - |errors| as real * 0.2 - |warnings| as real * 0.05), |frames|, errors, warnings);
  }

  /** What the rules ask of one frame on its own. */
  ghost predicate Sound(c: Capture, i: nat)
    requires i < |c|
  {
    && c[i].Some? && c[i].value.v == VERSION && c[i].value.ts != NaN
    && (KindAt(c, i) != Unknown ==> c[i].value.valid)
  }

  /** Two frames do not share sender and id. */
  ghost predicate Apart(c: Capture, i: nat, j: nat)
    requires i < |c| && j < |c|
  {
    c[i].Some? && c[j].Some? ==> c[i].value.sender != c[j].value.sender || c[i].value.id != c[j].value.id
  }

  /** An answer has branches and comes after a request. */
  ghost predicate Answered(c: Capture, i: nat)
    requires i < |c|
  {
    c[i].Some? && KindAt(c, i) == RouteResponse ==> c[i].value.branches >= 1 && Seen(c, i, RouteRequest)
  }

  ghost predicate AllSound(c: Capture) { forall i | 0 <= i < |c| :: Sound(c, i) }

  ghost predicate AllApart(c: Capture) { forall i, j | 0 <= i < j < |c| :: Apart(c, i, j) }

  ghost predicate OneHello(c: Capture) { forall i | 0 <= i < |c| :: KindAt(c, i) == Hello <==> i == 0 }

  ghost predicate AllAnswered(c: Capture) { forall i | 0 <= i < |c| :: Answered(c, i) }

  /** The protocol: what a capture without errors is. */
  ghost predicate Conforms(c: Capture) {
    && AllSound(c) && AllApart(c) && OneHello(c) && AllAnswered(c)
    && Seen(c, |c|, Heartbeat) && Seen(c, |c|, Orientation) && Seen(c, |c|, RouteRequest) && Seen(c, |c|, RouteResponse)
  }

  /** What a frame of a capture without errors needs to earn no warning. */
  ghost predicate Shines(c: Capture, i: nat)
    requires i < |c|
  {
    && c[i].Some? && (i > 0 ==> c[i - 1].Some? && !Below(c[i].value.ts, c[i - 1].value.ts)) && KindAt(c, i) != Unknown
    && (KindAt(c, i) == RouteRequest ==> Seen(c, i, Orientation))
    && (KindAt(c, i) == RouteResponse ==> c[i].value.branches != 1)
  }

  ghost predicate AllShine(c: Capture) { forall i | 0 <= i < |c| :: Shines(c, i) }

  ghost predicate Polished(c: Capture) {
    AllShine(c) && Seen(c, |c|, FocusSnapshot)
  }

  ghost predicate Faultless(c: Capture) {
    (forall i, code | 0 <= i < |c| :: !Fault(c, i, code)) && (forall code :: !MissingKind(c, code))
  }

  lemma NoErrors(c: Capture, errors: seq<Issue<Code>>)
    requires ReportExact(c, errors)
    ensures errors == [] <==> Faultless(c)
  {
    if errors != [] {
      var e := errors[0];
      assert e in errors;
      if e.at.Some? {
        assert Issue(e.code, Some(e.at.value)) == e;
        assert Fault(c, e.at.value, e.code);
      } else {
        assert Issue(e.code, None) == e;
        assert MissingKind(c, e.code);
      }
    } else {
      forall i, code | 0 <= i < |c| ensures !Fault(c, i, code) {
        assert Issue(code, Some(i)) !in errors;
      }
      forall code ensures !MissingKind(c, code) {
        assert Issue(code, None) !in errors;
      }
    }
  }

  /** A faultless capture follows the protocol. */
  lemma FaultlessConforms(c: Capture)
    requires Faultless(c)
    ensures Conforms(c)
  {
    forall i | 0 <= i < |c| ensures c[i].Some? && FrameFollows(c, i) {
      FaultlessFrame(c, i);
    }
    forall i, j | 0 <= i < j < |c|
      ensures c[i].value.sender != c[j].value.sender || c[i].value.id != c[j].value.id
    {
      assert !Used(c, j, Key(c[j].value.sender, c[j].value.id));
      assert Keys(c)[i] != Keys(c)[j];
    }
    assert !MissingKind(c, HeartbeatMissing) && !MissingKind(c, OrientationMissing)
           && !MissingKind(c, RequestMissing) && !MissingKind(c, ResponseMissing);
  }

  /** What the protocol asks of one frame, given the frames before it. */
  ghost predicate FrameFollows(c: Capture, i: nat)
    requires i < |c| && c[i].Some?
  {
    && c[i].value.v == VERSION && c[i].value.ts != NaN && (KindAt(c, i) == Hello <==> i == 0)
    && (KindAt(c, i) != Unknown ==> c[i].value.valid)
    && (KindAt(c, i) == RouteResponse ==> c[i].value.branches >= 1 && Seen(c, i, RouteRequest))
    && !Used(c, i, Key(c[i].value.sender, c[i].value.id))
  }

  lemma FaultlessFrame(c: Capture, i: nat)
    requires i < |c| && forall code :: !Fault(c, i, code)
    ensures c[i].Some? && FrameFollows(c, i)
  {
    assert !Fault(c, i, FrameShape);
    assert !Fault(c, i, VersionUnsupported) && !Fault(c, i, TimestampMissing) && !Fault(c, i, IdDuplicate);
    assert !Fault(c, i, HelloFirst) && !Fault(c, i, HelloRedundant) && !Fault(c, i, SchemaInvalid);
    assert !Fault(c, i, ResponseOrder) && !Fault(c, i, BranchesMissing);
  }

  lemma ConformingFrame(c: Capture, i: nat)
    requires Conforms(c) && i < |c|
    ensures c[i].Some? && FrameFollows(c, i) && KindAt(c, 0) == Hello
  {
    assert Sound(c, i) && Answered(c, i);
    forall j | 0 <= j < i ensures Keys(c)[j] != Keys(c)[i] { assert Sound(c, j) && Apart(c, j, i); }
  }

  /** A capture that follows the protocol is faultless. */
  lemma ConformsFaultless(c: Capture)
    requires Conforms(c)
    ensures Faultless(c)
  {
    forall i, code | 0 <= i < |c| ensures !Fault(c, i, code) {
      ConformingFrame(c, i);
      FollowsFaultless(c, i, code);
    }
    forall code ensures !MissingKind(c, code) {
      assert Seen(c, |c|, Heartbeat) && Seen(c, |c|, Orientation) && Seen(c, |c|, RouteRequest) && Seen(c, |c|, RouteResponse);
      assert KindAt(c, 0) == Hello;
    }
  }

  lemma FollowsFaultless(c: Capture, i: nat, code: Code)
    requires i < |c| && c[i].Some? && FrameFollows(c, i) && (i > 0 ==> KindAt(c, 0) == Hello)
    ensures !Fault(c, i, code)
  {
    assert i > 0 ==> Seen(c, i, Hello);
  }

  /** The kit's verdict is the protocol's, both ways. */
  lemma VerdictExact(c: Capture, errors: seq<Issue<Code>>)
    requires ReportExact(c, errors)
    ensures errors == [] <==> Conforms(c)
  {
    NoErrors(c, errors);
    if errors == [] { FaultlessConforms(c); }
    if Conforms(c) { ConformsFaultless(c); }
  }

  lemma LastTsPrevious(c: Capture, i: nat)
    requires 0 < i <= |c| && c[i - 1].Some? && c[i - 1].value.ts != NaN
    ensures LastTs(c, i) == Some(c[i - 1].value.ts)
  {
  }

  ghost predicate Spotless(c: Capture, i: nat)
    requires i < |c|
  {
    forall code :: !Blemish(c, i, code)
  }

  lemma SpotlessFrame(c: Capture, i: nat)
    requires i < |c| && c[i].Some? && c[i].value.ts != NaN && (i > 0 ==> c[i - 1].Some? && c[i - 1].value.ts != NaN)
    ensures Spotless(c, i) <==> Shines(c, i)
  {
    if i > 0 { LastTsPrevious(c, i); }
    if Spotless(c, i) {
      assert !Blemish(c, i, TimestampRegression) && !Blemish(c, i, TypeUnknown);
      assert !Blemish(c, i, OrientationLate) && !Blemish(c, i, BranchesSingle);
    }
  }

  lemma NoWarnings(c: Capture, warnings: seq<Issue<Code>>)
    requires WarningsExact(c, |c|, warnings) && (forall e | e in warnings :: e.at.Some?)
    ensures warnings == [] <==> forall i | 0 <= i < |c| :: Spotless(c, i)
  {
    if warnings != [] {
      var e := warnings[0];
      assert e in warnings && Issue(e.code, Some(e.at.value)) == e;
      assert Blemish(c, e.at.value, e.code) && !Spotless(c, e.at.value);
    } else {
      forall i, code | 0 <= i < |c| ensures !Blemish(c, i, code) {
        assert Issue(code, Some(i)) !in warnings;
      }
    }
  }

  lemma PolishExact(c: Capture, frameWarnings: seq<Issue<Code>>, warnings: seq<Issue<Code>>)
    requires forall i | 0 <= i < |c| :: c[i].Some? && c[i].value.ts != NaN
    requires WarningsExact(c, |c|, frameWarnings) && (forall e | e in frameWarnings :: e.at.Some?)
    requires warnings == frameWarnings + if Seen(c, |c|, FocusSnapshot) then [] else [Issue(FocusMissing, None)]
    ensures warnings == [] <==> Polished(c)
  {
    NoWarnings(c, frameWarnings);
    forall i | 0 <= i < |c| ensures Spotless(c, i) <==> Shines(c, i) {
      SpotlessFrame(c, i);
    }
  }

  // ---------------------------------------------------------------------------------------
  // The verdict over the raw frames
  // ---------------------------------------------------------------------------------------

  /** What the rules look at, field by field of the frame. */
  lemma EntryReads(f: Value, i: nat, text: Value -> string)
    ensures EntryAt(f, i, text).None? <==> !f.Obj? && !f.Arr?
    ensures var e := EntryAt(f, i, text);
            e.Some? ==>
              && (e.value.v == "0.1" <==> Protocol.Versioned(f, text)) && (e.value.ts != NaN <==> Protocol.Timed(f))
              && (Protocol.Timed(f) ==> e.value.ts == f.fields["ts"].n)
              && e.value.sender == Protocol.Sender(f) && e.value.id == Protocol.Id(f, i)
              && e.value.branches == Protocol.Answers(f)
  {
  }

  /** And its kind, by the names of the types. */
  lemma KindReads(f: Value, i: nat, text: Value -> string)
    ensures var e := EntryAt(f, i, text); NamesKind(f, if e.Some? then e.value.kind else Unknown)
  {
    if Protocol.Text(f, "type") { Protocol.KindsAgree(f); }
  }

  ghost predicate NamesKind(f: Value, kind: Kind) {
    && (kind == Hello <==> Protocol.Typed(f, "hello")) && (kind == Heartbeat <==> Protocol.Typed(f, "heartbeat"))
    && (kind == Orientation <==> Protocol.Typed(f, "orientation"))
    && (kind == RouteRequest <==> Protocol.Typed(f, "route_request"))
    && (kind == RouteResponse <==> Protocol.Typed(f, "route_response"))
    && (kind == FocusSnapshot <==> Protocol.Typed(f, "focus_snapshot")) && (kind == Unknown <==> !Protocol.Known(f))
  }

  /** The normalised frame is of the same type, and its payload is as good. */
  lemma NormalPayload(f: Value, n: Normalized)
    requires Protocol.Typed(f, n.name) && n.payload == Field(f, "payload") && Protocol.Known(f)
    ensures Protocol.Known(AsValue(n)) && (Protocol.Payload(AsValue(n)) <==> Protocol.Payload(f))
  {
    var g := AsValue(n);
    assert g.fields["type"] == f.fields["type"] && g.fields["payload"] == n.payload;
    if !Protocol.Holds(f, "payload") { assert !Protocol.Payload(g); }
  }

  /** The schema's verdict on a frame of a known type. */
  lemma ValidReads(f: Value, i: nat, text: Value -> string)
    requires Protocol.Known(f)
    ensures EntryAt(f, i, text).value.valid <==> Protocol.Versioned(f, text) && Protocol.Named(f) && Protocol.Payload(f)
  {
    var n := NormalizeFrame(f, i, text).value;
    NormalPayload(f, n);
    NormalFields(n);
    Protocol.FrameAgrees(AsValue(n));
  }

  lemma NormalFields(n: Normalized)
    ensures var g := AsValue(n);
            && Protocol.Text(g, "id") && Protocol.Text(g, "v") && Protocol.Text(g, "type") && Protocol.Number(g, "ts")
            && g.fields["id"] == Str(n.id) && g.fields["v"] == Str(n.v)
  {
  }

  ghost predicate KindsRead(frames: seq<Value>, c: Capture) {
    |c| == |frames| && forall i | 0 <= i < |c| :: NamesKind(frames[i], KindAt(c, i))
  }

  lemma EntriesRead(frames: seq<Value>, text: Value -> string)
    ensures KindsRead(frames, Entries(frames, text))
    ensures forall i | 0 <= i < |frames| :: Entries(frames, text)[i] == EntryAt(frames[i], i, text)
  {
    forall i | 0 <= i < |frames| ensures NamesKind(frames[i], KindAt(Entries(frames, text), i)) {
      KindReads(frames[i], i, text);
    }
  }

  lemma SeenReads(frames: seq<Value>, c: Capture, n: nat)
    requires KindsRead(frames, c) && n <= |c|
    ensures Seen(c, n, Hello) <==> Protocol.Before(frames, n, "hello")
    ensures Seen(c, n, Heartbeat) <==> Protocol.Before(frames, n, "heartbeat")
    ensures Seen(c, n, Orientation) <==> Protocol.Before(frames, n, "orientation")
    ensures Seen(c, n, RouteRequest) <==> Protocol.Before(frames, n, "route_request")
    ensures Seen(c, n, RouteResponse) <==> Protocol.Before(frames, n, "route_response")
    ensures Seen(c, n, FocusSnapshot) <==> Protocol.Before(frames, n, "focus_snapshot")
  {
    assert forall i | 0 <= i < n :: NamesKind(frames[i], KindAt(c, i));
  }

  lemma SoundReads(frames: seq<Value>, text: Value -> string, i: nat)
    requires i < |frames|
    ensures Sound(Entries(frames, text), i) <==> Protocol.WellMade(frames[i], text)
  {
    EntryReads(frames[i], i, text);
    KindReads(frames[i], i, text);
    if Protocol.Known(frames[i]) { ValidReads(frames[i], i, text); }
  }

  lemma IdsRead(frames: seq<Value>, text: Value -> string, i: nat, j: nat)
    requires i < |frames| && j < |frames| && Entries(frames, text)[i].Some? && Entries(frames, text)[j].Some?
    ensures Apart(Entries(frames, text), i, j) <==> Protocol.IdsApart(frames, i, j)
  {
    EntryReads(frames[i], i, text);
    EntryReads(frames[j], j, text);
  }

  lemma AnswersRead(frames: seq<Value>, text: Value -> string, i: nat)
    requires i < |frames| && Entries(frames, text)[i].Some?
    ensures Answered(Entries(frames, text), i) <==> Protocol.AnswerInPlace(frames, i)
  {
    EntriesRead(frames, text);
    SeenReads(frames, Entries(frames, text), i);
    EntryReads(frames[i], i, text);
  }

  lemma AllSoundReads(frames: seq<Value>, text: Value -> string)
    ensures AllSound(Entries(frames, text)) <==> Protocol.AllWellMade(frames, text)
    ensures AllSound(Entries(frames, text)) ==> forall i | 0 <= i < |frames| :: Entries(frames, text)[i].Some?
  {
    var c := Entries(frames, text);
    forall i | 0 <= i < |c| ensures Sound(c, i) <==> Protocol.WellMade(frames[i], text) { SoundReads(frames, text, i); }
  }

  lemma OrderReads(frames: seq<Value>, text: Value -> string)
    requires forall i | 0 <= i < |frames| :: Entries(frames, text)[i].Some?
    ensures AllApart(Entries(frames, text)) <==> Protocol.AllApart(frames)
    ensures AllAnswered(Entries(frames, text)) <==> Protocol.AnswersInPlace(frames)
  {
    var c := Entries(frames, text);
    forall i, j | 0 <= i < j < |c| ensures Apart(c, i, j) <==> Protocol.IdsApart(frames, i, j) {
      IdsRead(frames, text, i, j);
    }
    forall i | 0 <= i < |c| ensures Answered(c, i) <==> Protocol.AnswerInPlace(frames, i) {
      AnswersRead(frames, text, i);
    }
  }

  lemma HelloReads(frames: seq<Value>, c: Capture)
    requires KindsRead(frames, c)
    ensures OneHello(c) <==> Protocol.HelloFirst(frames)
  {
    forall i | 0 <= i < |c| ensures KindAt(c, i) == Hello <==> Protocol.Typed(frames[i], "hello") {
      assert NamesKind(frames[i], KindAt(c, i));
    }
  }

  /** The rules mean the protocol: the verdict in terms of the raw frames. */
  lemma ConformsReads(frames: seq<Value>, text: Value -> string)
    ensures Conforms(Entries(frames, text)) <==> Protocol.Follows(frames, text)
  {
    var c := Entries(frames, text);
    EntriesRead(frames, text);
    SeenReads(frames, c, |c|);
    HelloReads(frames, c);
    AllSoundReads(frames, text);
    if AllSound(c) { OrderReads(frames, text); }
  }

  lemma ShinesReads(frames: seq<Value>, text: Value -> string, i: nat)
    requires var c := Entries(frames, text); i < |c| && Sound(c, i) && (i > 0 ==> Sound(c, i - 1))
    ensures Shines(Entries(frames, text), i) <==> Protocol.Unblemished(frames, i)
  {
    EntriesRead(frames, text);
    SeenReads(frames, Entries(frames, text), i);
    EntryReads(frames[i], i, text);
    KindReads(frames[i], i, text);
    if i > 0 { EntryReads(frames[i - 1], i - 1, text); }
  }

  lemma AllShineReads(frames: seq<Value>, text: Value -> string)
    requires AllSound(Entries(frames, text))
    ensures AllShine(Entries(frames, text)) <==> Protocol.AllUnblemished(frames)
  {
    var c := Entries(frames, text);
    forall i | 0 <= i < |c| ensures Shines(c, i) <==> Protocol.Unblemished(frames, i) {
      assert Sound(c, i) && (i > 0 ==> Sound(c, i - 1));
      ShinesReads(frames, text, i);
    }
  }

  /** The same for captures without warnings. */
  lemma PolishedReads(frames: seq<Value>, text: Value -> string)
    ensures Conforms(Entries(frames, text)) && Polished(Entries(frames, text)) <==> Protocol.FollowsWell(frames, text)
  {
    ConformsReads(frames, text);
    EntriesRead(frames, text);
    SeenReads(frames, Entries(frames, text), |frames|);
    if Conforms(Entries(frames, text)) { AllShineReads(frames, text); }
  }

  /** Each error of a frame, in terms of the raw frames. */
  lemma FaultReads(frames: seq<Value>, text: Value -> string, i: nat)
    requires i < |frames|
    ensures var c, f := Entries(frames, text), frames[i];
            && (Fault(c, i, FrameShape) <==> !f.Obj? && !f.Arr?)
            && (Fault(c, i, VersionUnsupported) <==> (f.Obj? || f.Arr?) && !Protocol.Versioned(f, text))
            && (Fault(c, i, TimestampMissing) <==> (f.Obj? || f.Arr?) && !Protocol.Timed(f))
  {
    EntryReads(frames[i], i, text);
  }

  lemma SchemaFaultReads(frames: seq<Value>, text: Value -> string, i: nat)
    requires i < |frames|
    ensures Fault(Entries(frames, text), i, SchemaInvalid) <==>
            && Protocol.Known(frames[i])
            && !(Protocol.Versioned(frames[i], text) && Protocol.Named(frames[i]) && Protocol.Payload(frames[i]))
  {
    KindReads(frames[i], i, text);
    if Protocol.Known(frames[i]) { ValidReads(frames[i], i, text); }
  }

  lemma KeyReads(frames: seq<Value>, text: Value -> string, i: nat)
    requires i < |frames|
    ensures KeyAt(Entries(frames, text), i) == if frames[i].Obj? || frames[i].Arr?
                                               then Some(Key(Protocol.Sender(frames[i]), Protocol.Id(frames[i], i)))
                                               else None
  {
    EntryReads(frames[i], i, text);
  }

  lemma DuplicateReads(frames: seq<Value>, text: Value -> string, i: nat)
    requires i < |frames|
    ensures Fault(Entries(frames, text), i, IdDuplicate) <==>
            && (frames[i].Obj? || frames[i].Arr?)
            && exists j | 0 <= j < i :: (frames[j].Obj? || frames[j].Arr?) && !Protocol.IdsApart(frames, j, i)
  {
    var c := Entries(frames, text);
    KeyReads(frames, text, i);
    if Fault(c, i, IdDuplicate) {
      var j :| 0 <= j < i && Keys(c)[j] == Keys(c)[i];
      KeyReads(frames, text, j);
      assert !Protocol.IdsApart(frames, j, i);
    }
    if j :| 0 <= j < i && c[i].Some? && (frames[j].Obj? || frames[j].Arr?) && !Protocol.IdsApart(frames, j, i) {
      KeyReads(frames, text, j);
      assert Keys(c)[j] == Keys(c)[i];
    }
  }

  /** The errors of order, for the entries of the frames. */
  lemma OrderFaultReads(frames: seq<Value>, c: Capture, i: nat)
    requires KindsRead(frames, c) && i < |c| && c[i].Some?
    ensures var hello, greeted := Protocol.Typed(frames[i], "hello"), Protocol.Before(frames, i, "hello");
            && (Fault(c, i, HelloFirst) <==> i == 0 && !hello) && (Fault(c, i, HelloRedundant) <==> i != 0 && hello)
            && (Fault(c, i, BeforeHello) <==> !hello && !greeted)
            && (Fault(c, i, HeartbeatOrder) <==> Protocol.Typed(frames[i], "heartbeat") && !greeted)
            && (Fault(c, i, OrientationOrder) <==> Protocol.Typed(frames[i], "orientation") && !greeted)
            && (Fault(c, i, RequestOrder) <==> Protocol.Typed(frames[i], "route_request") && !greeted)
            && (Fault(c, i, ResponseOrder) <==>
                  Protocol.Typed(frames[i], "route_response") && !Protocol.Before(frames, i, "route_request"))
            && (Fault(c, i, BranchesMissing) <==>
                  Protocol.Typed(frames[i], "route_response") && c[i].value.branches == 0)
  {
    SeenReads(frames, c, i);
    assert NamesKind(frames[i], KindAt(c, i));
  }
}
