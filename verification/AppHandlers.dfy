/** Which messages reach which callback or handler, in terms of their bytes, for one message and over runs. */
module AppHandlers {
  import opened Bytes
  import opened Wrappers
  import opened Header
  import opened Codec
  import opened App
  import opened AppCalls

  // ---- One message ------------------------------------------------------------------------------------

  /** A response, with bit 7 of the message type set, to a session for which a callback waits. */
  predicate Taken(a: State, raw: seq<byte>) {
    && |raw| >= 16 && raw[14] >= 0x80
    && ReadU16(raw, 10) < |a.pending| && a.pending[ReadU16(raw, 10)].Waiting?
  }

  /** The payload size that the length field announces. */
  function AnnouncedSize(raw: seq<byte>): nat
    requires |raw| >= 16
  {
    if ReadU32(raw, 4) <= 8 then 0 else ReadU32(raw, 4) - 8
  }

  /** A message for the handlers: complete, and no Service Discovery message. */
  predicate ForHandlers(a: State, raw: seq<byte>) {
    && |raw| >= 16 && !Taken(a, raw) && |raw| >= 16 + AnnouncedSize(raw)
    && !(ReadU16(raw, 0) == 0xFFFF && ReadU16(raw, 2) == 0x8100)
  }

  /** The handler for the method, or else the one for any method of the service. */
  function Target(a: State, raw: seq<byte>): Option<Handler>
    requires |raw| >= 16
  {
    var exact := ReadU16(raw, 0) as int * 0x1_0000 + ReadU16(raw, 2) as int;
    var any := ReadU16(raw, 0) as int * 0x1_0000 + 0xFFFF;
    if exact in a.handlers then Some(a.handlers[exact])
    else if any in a.handlers then Some(a.handlers[any])
    else None
  }

  lemma FieldsAt(raw: seq<byte>)
    requires |raw| >= 16
    ensures
      var h := ReadHeader(raw);
      && h.service == ReadU16(raw, 0) && h.method_ == ReadU16(raw, 2) && h.session == ReadU16(raw, 10)
      && h.kind == raw[14] && h.code == raw[15]
      && PayloadLength(h) == AnnouncedSize(raw)
  {
    hide ReadU16, ReadU32;
  }

  lemma TargetIsLookup(a: State, raw: seq<byte>)
    requires |raw| >= 16
    ensures Target(a, raw) == Lookup(a.handlers, ReadHeader(raw).service, ReadHeader(raw).method_)
  {
    hide ReadU16, ReadU32;
  }

  /** The bytes of the payload that are announced and there. */
  function Cut(raw: seq<byte>): seq<byte>
    requires |raw| >= 16
  {
    if |raw| > 16 + AnnouncedSize(raw) then raw[16..16 + AnnouncedSize(raw)] else raw[16..]
  }

  lemma CutIsPayload(raw: seq<byte>)
    requires |raw| >= 16
    ensures Payload(ReadHeader(raw), raw) == Cut(raw)
  {
    hide ReadHeader, PayloadLength;
    FieldsAt(raw);
    if |raw| > 16 + AnnouncedSize(raw) {
      assert raw[16..][..AnnouncedSize(raw)] == raw[16..16 + AnnouncedSize(raw)];
    }
  }

  lemma CutIsAnnounced(raw: seq<byte>)
    requires |raw| >= 16 && |raw| >= 16 + AnnouncedSize(raw)
    ensures Cut(raw) == raw[16..16 + AnnouncedSize(raw)]
  {
  }

  lemma StepTaken(a: State, raw: seq<byte>)
    requires Valid(a) && Taken(a, raw)
    ensures
      var session := ReadU16(raw, 10);
      Step(a, raw)
      == Complete(a.(pending := a.pending[session := Free]), a.pending[session], raw[15], Cut(raw))
  {
    hide Complete, Dispatch, ReadHeader, Payload;
    FieldsAt(raw);
    CutIsPayload(raw);
  }

  /**
  A response to a waiting callback clears it and completes its call: with an error if the return code is not
  0, else with the value in the announced part of the payload, or as malformed if that is too short.
  */
  lemma ResponseCompletesCall(a: State, raw: seq<byte>)
    requires Valid(a) && Taken(a, raw)
    ensures
      var session := ReadU16(raw, 10);
      var w := a.pending[session];
      var b := a.(pending := a.pending[session := Free]);
      && (raw[15] != 0 ==> Step(a, raw) == Done(b.(log := a.log + [Completed(w.ctx, ErrorResponse)]), true))
      && (raw[15] == 0 && !InBounds(w.resp, |Cut(raw)|) ==> Step(a, raw) == Undefined)
      && (raw[15] == 0 && InBounds(w.resp, |Cut(raw)|) ==>
        if StartsOutside(w.resp, |Cut(raw)|, |w.resp.members|)
        then Step(a, raw) == Done(b.(log := a.log + [Completed(w.ctx, Malformed)]), true)
        else
          && Width(w.resp) <= |Cut(raw)|
          && Step(a, raw)
          == Done(b.(log := a.log + [Completed(w.ctx, Outcome.Value(Decode(w.resp, Cut(raw), 0)))]), true))
  {
    hide Step, Cut, Decode, InBounds, StartsOutside, Width, ReadU16, ReadU32;
    StepTaken(a, raw);
    var w := a.pending[ReadU16(raw, 10)];
    if InBounds(w.resp, |Cut(raw)|) && !StartsOutside(w.resp, |Cut(raw)|, |w.resp.members|) {
      ReadsWhole(w.resp, |Cut(raw)|);
    }
  }

  lemma StepDispatched(a: State, raw: seq<byte>)
    requires Valid(a) && !Taken(a, raw)
    ensures !ForHandlers(a, raw) ==> Step(a, raw) == Done(a, false)
    ensures ForHandlers(a, raw) ==>
      match Target(a, raw)
      case None => Step(a, raw) == Done(a, false)
      case Some(handler) => Step(a, raw) == Invoke(a, handler, ReadHeader(raw), Cut(raw))
  {
    hide Complete, Invoke, ReadHeader, Payload, Lookup, Target;
    if |raw| >= 16 {
      FieldsAt(raw);
      CutIsPayload(raw);
      TargetIsLookup(a, raw);
    }
  }

  /**
  A message that no callback takes is handled exactly if it is for the handlers and one is found. A plain
  handler is called once, with the header and exactly the announced bytes of the payload.
  */
  lemma HandlerIsCalled(a: State, raw: seq<byte>)
    requires Valid(a) && !Taken(a, raw)
    ensures !ForHandlers(a, raw) || Target(a, raw).None? ==> Step(a, raw) == Done(a, false)
    ensures ForHandlers(a, raw) && Target(a, raw).Some? && Target(a, raw).value.Plain? ==>
      var call := Handled(Target(a, raw).value.id, ReadHeader(raw), raw[16..16 + AnnouncedSize(raw)]);
      Step(a, raw) == Done(a.(log := a.log + [call]), true)
  {
    hide Step, Target, ReadHeader, AnnouncedSize, Cut;
    StepDispatched(a, raw);
    if ForHandlers(a, raw) {
      CutIsAnnounced(raw);
    }
  }

  /**
  A served method: its request is refused if too short, and otherwise answered by a message to the caller,
  a successful response with what the handler returns for the value in the announced bytes of the payload.
  */
  lemma ServedMethodAnswers(a: State, raw: seq<byte>)
    requires Valid(a) && ForHandlers(a, raw) && Target(a, raw).Some? && Target(a, raw).value.Serve?
    ensures
      var h, payload := ReadHeader(raw), raw[16..16 + AnnouncedSize(raw)];
      var Serve(req, resp, call) := Target(a, raw).value;
      var answer := Header(h.service, h.method_, 8, h.client, h.session, 1, h.interface, 0x80, 0);
      && req.Struct?
      && (!InBounds(req, |payload|) ==> Step(a, raw) == Undefined)
      && (InBounds(req, |payload|) ==>
        if StartsOutside(req, |payload|, |req.members|)
        then Step(a, raw) == Done(a, true)
        else
          && Width(req) <= |payload| && Typed(resp, call(Decode(req, payload, 0)))
          && Step(a, raw) == Again(a, WithPayload(answer, resp, call(Decode(req, payload, 0)))))
  {
    hide Step, Decode, InBounds, StartsOutside, Width, ReadU16, ReadU32, ReadHeader, AnnouncedSize, WithPayload, Typed;
    StepDispatched(a, raw);
    TargetIsSound(a, raw);
    var payload, handler := Cut(raw), Target(a, raw).value;
    CutIsAnnounced(raw);
    if InBounds(handler.req, |payload|) && !StartsOutside(handler.req, |payload|, |handler.req.members|) {
      ReadsWhole(handler.req, |payload|);
      DeserializedIsTyped(payload, handler.req);
    }
  }

  lemma TargetIsSound(a: State, raw: seq<byte>)
    requires Valid(a) && |raw| >= 16 && Target(a, raw).Some?
    ensures Sound(Target(a, raw).value)
  {
    hide ReadU16;
  }

  /** What the message of a call says: a request with this service, method, client and session. */
  lemma RequestReads(service: u16, method_: u16, client: u16, session: u16, req: Schema, v: Codec.Value)
    requires Typed(req, v) && Width(req) + 8 < TWO32
    ensures
      var raw := WithPayload(RequestHeader(service, method_, client, session), req, v);
      && ReadHeader(raw) == Header(service, method_, 8 + Width(req), client, session, 1, 0, 0x00, 0)
      && raw[16..] == Encode(req, v)
  {
    hide HeaderBytes, ReadHeader, Encode, Width, Typed;
    ReadsBack(RequestHeader(service, method_, client, session), req, v);
  }

  // ---- Whole runs ----------------------------------------------------------------------------------------

  /** What a plain handler has been called with, in order. */
  function HeardBy(log: seq<Call>, id: nat): seq<(Header, seq<byte>)> {
    if |log| == 0 then []
    else
      var n := |log| - 1;
      HeardBy(log[..n], id)
      + if log[n].Handled? && log[n].id == id then [(log[n].header, log[n].payload)] else []
  }

  predicate Reaches(a: State, raw: seq<byte>, id: nat) {
    ForHandlers(a, raw) && Target(a, raw) == Some(Plain(id))
  }

  /** The messages of a run that reach a plain handler, when they are routed. */
  ghost function Reaching(a: State, ops: seq<Op>, id: nat): seq<(Header, seq<byte>)>
    requires Valid(a) && forall i :: 0 <= i < |ops| ==> Legal(ops[i])
  {
    if |ops| == 0 then []
    else
      var n := |ops| - 1;
      var op := ops[n];
      Reaching(a, ops[..n], id)
      + if op.Route? && op.rounds > 0 && Reaches(RunOps(a, ops[..n]), op.raw, id)
        then [(ReadHeader(op.raw), op.raw[16..16 + AnnouncedSize(op.raw)])] else []
  }

  lemma HeardMore(log: seq<Call>, c: Call, id: nat)
    ensures HeardBy(log + [c], id)
         == HeardBy(log, id) + if c.Handled? && c.id == id then [(c.header, c.payload)] else []
  {
    assert (log + [c])[..|log|] == log;
  }

  /** The calls of plain handlers in one round. */
  lemma RoundHeard(a: State, raw: seq<byte>, id: nat)
    requires Valid(a) && !Step(a, raw).Undefined?
    ensures HeardBy(Step(a, raw).state.log, id) == HeardBy(a.log, id)
         + if Reaches(a, raw, id) then [(ReadHeader(raw), raw[16..16 + AnnouncedSize(raw)])] else []
    ensures Step(a, raw).Again? ==> !Reaches(a, raw, id)
  {
    hide Step, ReadHeader, AnnouncedSize, HeardBy, InBounds, StartsOutside, Decode, Width, ReadU16, Target, Cut;
    hide WithPayload, Typed;
    assert HeardBy(a.log, id) + [] == HeardBy(a.log, id);
    if Taken(a, raw) {
      ResponseCompletesCall(a, raw);
      var log := Step(a, raw).state.log;
      assert |log| == |a.log| + 1 && log == a.log + [log[|a.log|]] && log[|a.log|].Completed?;
      HeardMore(a.log, log[|a.log|], id);
    } else {
      HandlerIsCalled(a, raw);
      if ForHandlers(a, raw) && Target(a, raw).Some? {
        if Target(a, raw).value.Serve? {
          ServedMethodAnswers(a, raw);
        } else {
          HeardMore(a.log, Handled(Target(a, raw).value.id, ReadHeader(raw), raw[16..16 + AnnouncedSize(raw)]), id);
        }
      }
    }
  }

  /** An answer never reaches a plain handler: the handler that it would reach is the one that has sent it. */
  lemma AnswerReachesNone(a: State, h: Header, handler: Handler, message: seq<byte>, id: nat)
    requires Valid(a) && handler.Serve? && IsAnswer(h, handler, message)
    requires Lookup(a.handlers, h.service, h.method_) == Some(handler)
    ensures !Reaches(a, message, id)
  {
    hide ReadHeader, Lookup, Target, Typed, WithPayload, Width, Payload, Announced;
    var u :| Typed(handler.resp, u) && message == WithPayload(ResponseHeader(h), handler.resp, u);
    ReadsAnnounced(h, handler.resp, u);
    TargetIsLookup(a, message);
  }

  lemma {:induction false} AnswersHeard(
      a: State, h: Header, handler: Handler, message: seq<byte>, n: nat, id: nat)
    requires Valid(a) && handler.Serve? && Sound(handler) && IsAnswer(h, handler, message)
    requires Lookup(a.handlers, h.service, h.method_) == Some(handler)
    requires !(h.service == SD_SERVICE && h.method_ == SD_METHOD)
    requires Chain(a, message, n).Settled?
    ensures HeardBy(Chain(a, message, n).state.log, id) == HeardBy(a.log, id)
    decreases n
  {
    hide Step, Valid, Sound, Lookup, IsAnswer, AnswerEnds, HeardBy, Reaches;
    AnswerRound(a, h, handler, message);
    StepValid(a, message);
    RoundHeard(a, message, id);
    AnswerReachesNone(a, h, handler, message, id);
    assert HeardBy(a.log, id) + [] == HeardBy(a.log, id);
    if Step(a, message).Again? {
      AnswersHeard(a, h, handler, Step(a, message).message, n - 1, id);
    }
  }

  /** Routing a message, with all the rounds it leads to. */
  lemma RouteHeard(a: State, raw: seq<byte>, n: nat, id: nat)
    requires Valid(a) && Chain(a, raw, n).Settled?
    ensures HeardBy(Chain(a, raw, n).state.log, id) == HeardBy(a.log, id)
         + if Reaches(a, raw, id) then [(ReadHeader(raw), raw[16..16 + AnnouncedSize(raw)])] else []
  {
    hide Step, Valid, Sound, Lookup, IsAnswer, HeardBy, Reaches, ReadHeader, AnnouncedSize;
    StepValid(a, raw);
    RoundHeard(a, raw, id);
    if Step(a, raw).Again? {
      AgainIsAnswer(a, raw);
      AnswersHeard(a, ReadHeader(raw), HandlerOf(a, raw).value, Step(a, raw).message, n - 1, id);
      assert HeardBy(a.log, id) + [] == HeardBy(a.log, id);
    }
  }

  /** A message that reaches a plain handler is settled in its first round. */
  lemma ReachingSettles(a: State, raw: seq<byte>, n: nat, id: nat)
    requires Valid(a) && n > 0 && Reaches(a, raw, id)
    ensures Chain(a, raw, n).Settled?
  {
    hide Step, Valid, ReadHeader, AnnouncedSize;
    HandlerIsCalled(a, raw);
  }

  /**
  Over every run of registrations and messages: a plain handler has been called with exactly the messages
  that reached it, each once, in their order, with their headers and announced payloads.
  */
  lemma {:induction false} HandlerHearsItsMessages(a: State, ops: seq<Op>, id: nat)
    requires Valid(a) && forall i :: 0 <= i < |ops| ==> Legal(ops[i])
    ensures HeardBy(RunOps(a, ops).log, id) == HeardBy(a.log, id) + Reaching(a, ops, id)
    decreases |ops|
  {
    hide Valid, Chain, Legal, HeardBy, Reaches, ReadHeader, AnnouncedSize, Registered;
    if |ops| == 0 {
      assert HeardBy(a.log, id) + [] == HeardBy(a.log, id);
    } else {
      var n := |ops| - 1;
      var b, op := RunOps(a, ops[..n]), ops[n];
      HandlerHearsItsMessages(a, ops[..n], id);
      assert HeardBy(b.log, id) + [] == HeardBy(b.log, id);
      if op.Route? {
        if op.rounds > 0 && Reaches(b, op.raw, id) {
          ReachingSettles(b, op.raw, op.rounds, id);
        }
        NoRounds(b, op.raw);
        if Chain(b, op.raw, op.rounds).Settled? {
          RouteHeard(b, op.raw, op.rounds, id);
        }
      } else {
        RegistersSilently(b, op);
      }
    }
  }

  lemma NoRounds(a: State, raw: seq<byte>)
    requires Valid(a)
    ensures Chain(a, raw, 0).Unsettled?
  {
  }

  lemma RegistersSilently(a: State, op: Op)
    requires Valid(a) && !op.Route?
    ensures After(a, op).log == a.log
  {
  }
}
