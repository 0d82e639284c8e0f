/** Protocol 0.1, read off the raw frames: field names, type names and constants only.  The two
    checkers are measured against this. */
module Protocol {
  import opened Texts
  import opened Frames

  predicate Holds(v: Value, key: string) { v.Obj? && key in v.fields }

  predicate Text(v: Value, key: string) { Holds(v, key) && v.fields[key].Str? }

  predicate Number(v: Value, key: string) { Holds(v, key) && v.fields[key].Num? }

  /** Absent, or a text. */
  predicate MaybeText(v: Value, key: string) { v.Obj? && (key in v.fields ==> v.fields[key].Str?) }

  /** Absent, undefined, or a text. */
  predicate LooseText(v: Value, key: string) {
    v.Obj? && (key in v.fields && v.fields[key] != Undefined ==> v.fields[key].Str?)
  }

  predicate AllTexts(v: Value) { v.Arr? && forall i | 0 <= i < |v.items| :: v.items[i].Str? }

  /** A number in [0, 1]; NaN escapes the two comparisons of the source. */
  predicate Unit(v: Value, key: string) {
    Number(v, key) && (v.fields[key].n == NaN || (v.fields[key].n.Finite? && 0.0 <= v.fields[key].n.r <= 1.0))
  }

  predicate AtLeastZero(v: Value, key: string) {
    Number(v, key) && (v.fields[key].n == PosInf || (v.fields[key].n.Finite? && v.fields[key].n.r >= 0.0))
  }

  predicate Greeting(p: Value) {
    && Text(p, "role") && p.fields["role"].s in {"client", "server"}
    && Text(p, "message") && p.fields["message"].s != ""
  }

  predicate Beat(p: Value) { AtLeastZero(p, "seq") && MaybeText(p, "status") }

  predicate Heading(p: Value) { Text(p, "origin") && Text(p, "destination") && Text(p, "mode") }

  predicate Asking(p: Value) {
    Text(p, "goal") && ("context" in p.fields && p.fields["context"] != Undefined ==> AllTexts(p.fields["context"]))
  }

  predicate Branch(b: Value) {
    && Holds(b, "path") && AllTexts(b.fields["path"]) && b.fields["path"].items != []
    && Unit(b, "confidence") && MaybeText(b, "rationale")
  }

  /** The branches of an answer, given as a list or as an object. */
  predicate Branches(v: Value) {
    || (v.Arr? && forall i | 0 <= i < |v.items| :: Branch(v.items[i]))
    || (v.Obj? && forall key | key in v.fields :: Branch(v.fields[key]))
  }

  function Count(v: Value): nat { if v.Arr? then |v.items| else if v.Obj? then |v.fields| else 0 }

  predicate Answer(p: Value) { Holds(p, "branches") && Branches(p.fields["branches"]) && LooseText(p, "selection") }

  predicate Snapshot(p: Value) { Text(p, "focus") && Unit(p, "signal") && MaybeText(p, "rationale") }

  predicate Typed(f: Value, name: string) { Holds(f, "type") && f.fields["type"] == Str(name) }

  /** The six types of the protocol. */
  predicate Known(f: Value) {
    || Typed(f, "hello") || Typed(f, "heartbeat") || Typed(f, "orientation")
    || Typed(f, "route_request") || Typed(f, "route_response") || Typed(f, "focus_snapshot")
  }

  predicate Payload(f: Value) {
    && Holds(f, "payload")
    && (Typed(f, "hello") ==> Greeting(f.fields["payload"]))
    && (Typed(f, "heartbeat") ==> Beat(f.fields["payload"]))
    && (Typed(f, "orientation") ==> Heading(f.fields["payload"]))
    && (Typed(f, "route_request") ==> Asking(f.fields["payload"]))
    && (Typed(f, "route_response") ==> Answer(f.fields["payload"]))
    && (Typed(f, "focus_snapshot") ==> Snapshot(f.fields["payload"]))
  }

  /** The version, as the kit reads it: anything that is written "0.1". */
  predicate Versioned(f: Value, text: Value -> string) {
    && Holds(f, "v")
    && (f.fields["v"] == Str("0.1")
        || (!f.fields["v"].Str? && f.fields["v"] != Undefined && f.fields["v"] != Null && text(f.fields["v"]) == "0.1"))
  }

  predicate Timed(f: Value) { Number(f, "ts") && f.fields["ts"].n != NaN }

  predicate Named(f: Value) { !(Holds(f, "id") && f.fields["id"] == Str("")) }

  function Sender(f: Value): string { if Text(f, "from") then f.fields["from"].s else "global" }

  function Id(f: Value, i: nat): string { if Text(f, "id") then f.fields["id"].s else "frame-" + Decimal(i) }

  function Answers(f: Value): nat {
    if Holds(f, "payload") && Holds(f.fields["payload"], "branches") then Count(f.fields["payload"].fields["branches"]) else 0
  }

  /** Among the first n frames there is one of this type. */
  ghost predicate Before(frames: seq<Value>, n: nat, name: string)
    requires n <= |frames|
  {
    exists j | 0 <= j < n :: Typed(frames[j], name)
  }

  /** What the kit asks of a frame on its own. */
  predicate WellMade(f: Value, text: Value -> string) {
    Versioned(f, text) && Timed(f) && (Known(f) ==> Named(f) && Payload(f))
  }

  /** An answer has branches and comes after a request. */
  ghost predicate AnswerInPlace(frames: seq<Value>, i: nat)
    requires i < |frames|
  {
    Typed(frames[i], "route_response") ==> Answers(frames[i]) >= 1 && Before(frames, i, "route_request")
  }

  predicate IdsApart(frames: seq<Value>, i: nat, j: nat)
    requires i < |frames| && j < |frames|
  {
    Sender(frames[i]) != Sender(frames[j]) || Id(frames[i], i) != Id(frames[j], j)
  }

  ghost predicate AllWellMade(frames: seq<Value>, text: Value -> string) {
    forall i | 0 <= i < |frames| :: WellMade(frames[i], text)
  }

  ghost predicate AllApart(frames: seq<Value>) { forall i, j | 0 <= i < j < |frames| :: IdsApart(frames, i, j) }

  ghost predicate HelloFirst(frames: seq<Value>) { forall i | 0 <= i < |frames| :: Typed(frames[i], "hello") <==> i == 0 }

  ghost predicate AnswersInPlace(frames: seq<Value>) { forall i | 0 <= i < |frames| :: AnswerInPlace(frames, i) }

  /** A capture that follows the protocol: every frame is well made, no sender reuses an id, the
      hello is the first frame and no other, answers have branches and come after a request, and
      no required type is missing. */
  ghost predicate Follows(frames: seq<Value>, text: Value -> string) {
    && AllWellMade(frames, text) && AllApart(frames) && HelloFirst(frames) && AnswersInPlace(frames)
    && Before(frames, |frames|, "heartbeat") && Before(frames, |frames|, "orientation")
    && Before(frames, |frames|, "route_request") && Before(frames, |frames|, "route_response")
  }

  predicate Earlier(f: Value, g: Value) {
    && Timed(f) && Timed(g)
    && match (f.fields["ts"].n, g.fields["ts"].n)
       case (Finite(x), Finite(y)) => x < y
       case (NegInf, h) => h != NegInf
       case (Finite(_), PosInf) => true
       case _ => false
  }

  /** The frame's time does not go back, its type is known, a request comes after an orientation,
      and an answer never has just one branch. */
  ghost predicate Unblemished(frames: seq<Value>, i: nat)
    requires i < |frames|
  {
    && (i > 0 ==> !Earlier(frames[i], frames[i - 1])) && Known(frames[i])
    && (Typed(frames[i], "route_request") ==> Before(frames, i, "orientation"))
    && (Typed(frames[i], "route_response") ==> Answers(frames[i]) != 1)
  }

  ghost predicate AllUnblemished(frames: seq<Value>) { forall i | 0 <= i < |frames| :: Unblemished(frames, i) }

  /** A capture that earns no warning either: it has a snapshot, too. */
  ghost predicate FollowsWell(frames: seq<Value>, text: Value -> string) {
    && Follows(frames, text) && AllUnblemished(frames) && Before(frames, |frames|, "focus_snapshot")
  }

  /** What the server asks of a frame. */
  predicate Admissible(f: Value, first: bool) {
    && Text(f, "id") && Text(f, "type") && Holds(f, "v") && f.fields["v"] == Str("0.1") && Number(f, "ts")
    && (first ==> Typed(f, "hello")) && (Known(f) ==> Named(f) && Payload(f))
  }

  /** The captures the server takes. */
  ghost predicate Taken(input: Value) {
    && input.Arr? && 1 <= |input.items| <= 5000
    && forall i | 0 <= i < |input.items| :: Admissible(input.items[i], i == 0)
  }

  // ---------------------------------------------------------------------------------------
  // The schema check against this description
  // ---------------------------------------------------------------------------------------

  lemma PayloadsAgree(p: Value)
    ensures IsHelloPayload(p) <==> Greeting(p)
    ensures IsHeartbeatPayload(p) <==> Beat(p)
    ensures IsOrientationPayload(p) <==> Heading(p)
    ensures IsRouteRequestPayload(p) <==> Asking(p)
    ensures IsFocusSnapshotPayload(p) <==> Snapshot(p)
  {
  }

  lemma BranchAgrees(b: Value)
    ensures IsRouteBranch(b) <==> Branch(b)
  {
  }

  lemma AnswerAgrees(p: Value)
    ensures IsRouteResponsePayload(p) <==> Answer(p)
  {
    forall b ensures IsRouteBranch(b) <==> Branch(b) { BranchAgrees(b); }
  }

  /** The type names. */
  lemma KindsAgree(f: Value)
    requires Text(f, "type")
    ensures var kind := KindOf(f.fields["type"].s);
            && (kind == Hello <==> Typed(f, "hello")) && (kind == Heartbeat <==> Typed(f, "heartbeat"))
            && (kind == Orientation <==> Typed(f, "orientation")) && (kind == RouteRequest <==> Typed(f, "route_request"))
            && (kind == RouteResponse <==> Typed(f, "route_response"))
            && (kind == FocusSnapshot <==> Typed(f, "focus_snapshot")) && (kind == Unknown <==> !Known(f))
  {
  }

  lemma FrameAgrees(f: Value)
    ensures IsLtpFrame(f) <==>
            && Text(f, "id") && Named(f) && Text(f, "type") && Known(f) && Holds(f, "v") && f.fields["v"] == Str("0.1")
            && Number(f, "ts") && Payload(f)
  {
    if Text(f, "type") && Holds(f, "payload") {
      KindsAgree(f);
      PayloadsAgree(f.fields["payload"]);
      AnswerAgrees(f.fields["payload"]);
    }
  }

  /** A frame the kit finds well made is one the server admits, exactly if id, version and type are
      texts. */
  lemma AdmissibleExact(f: Value, first: bool, text: Value -> string)
    requires WellMade(f, text) && (first ==> Typed(f, "hello"))
    ensures Admissible(f, first) <==> Text(f, "id") && Text(f, "v") && Text(f, "type")
  {
  }

  lemma TakenExact(frames: seq<Value>, text: Value -> string)
    requires Follows(frames, text)
    ensures Taken(Arr(frames)) <==>
            |frames| <= 5000 && forall i | 0 <= i < |frames| :: Text(frames[i], "id") && Text(frames[i], "v") && Text(frames[i], "type")
  {
    forall i | 0 <= i < |frames|
      ensures Admissible(frames[i], i == 0) <==> Text(frames[i], "id") && Text(frames[i], "v") && Text(frames[i], "type")
    {
      assert WellMade(frames[i], text);
      AdmissibleExact(frames[i], i == 0, text);
    }
  }
}
