/** What in-process callers can rely on: sessions do not repeat, callbacks fire once, calls complete. */
module AppCalls {
  import opened Bytes
  import opened Wrappers
  import opened Header
  import opened Codec
  import opened App
  import opened Sequences
  import R = CodecRoundTrip

  // ---- Sessions -----------------------------------------------------------------------------------

  /** The next n session ids and the counter after them. */
  function Sessions(counter: u16, n: nat): (seq<u16>, u16) {
    if n == 0 then ([], counter)
    else
      var (ids, c) := Sessions(counter, n - 1);
      (ids + [NextSession(c).0], NextSession(c).1)
  }

  /** Where a counter stands in the cycle 1, 2, ..., 65535. */
  function Position(counter: u16): nat {
    if counter == 0 then 0 else counter - 1
  }

  lemma SessionStep(c: u16)
    ensures NextSession(c).0 == 1 + Position(c)
    ensures Position(NextSession(c).1) == (Position(c) + 1) % 0xFFFF
  {
  }

  lemma CycleStep(p: nat)
    ensures (p + 1) % 0xFFFF == (p % 0xFFFF + 1) % 0xFFFF
  {
  }

  /** The ids walk round the cycle of the 65535 numbers from 1, whatever the counter starts with. */
  lemma {:induction false} SessionsCycle(counter: u16, n: nat)
    ensures
      var (ids, c) := Sessions(counter, n);
      && |ids| == n && Position(c) == (Position(counter) + n) % 0xFFFF
      && forall k: nat :: k < n ==> ids[k] as int == 1 + (Position(counter) + k) % 0xFFFF
    decreases n
  {
    hide NextSession, Position;
    if n == 0 {
      PositionSmall(counter);
    } else {
      SessionsCycle(counter, n - 1);
      SessionStep(Sessions(counter, n - 1).1);
      CycleStep(Position(counter) + (n - 1));
    }
  }

  lemma PositionSmall(c: u16)
    ensures Position(c) == Position(c) % 0xFFFF
  {
  }

  lemma CycleDistinct(p: nat, i: nat, j: nat)
    requires i < j < i + 0xFFFF
    ensures (p + i) % 0xFFFF != (p + j) % 0xFFFF
  {
  }

  /** No id is 0, and two ids less than 65535 calls apart are different. */
  lemma SessionsDistinct(counter: u16, n: nat, i: nat, j: nat)
    requires i < j < n
    ensures
      var ids := Sessions(counter, n).0;
      && |ids| == n && ids[i] != 0 && ids[j] != 0
      && (j - i < 0xFFFF ==> ids[i] != ids[j]) && (j == i + 0xFFFF ==> ids[i] == ids[j])
  {
    hide Sessions;
    SessionsCycle(counter, n);
    if j - i < 0xFFFF {
      CycleDistinct(Position(counter), i, j);
    }
  }

  // ---- Callbacks fire at most once --------------------------------------------------------------------

  datatype Op =
    | Register(session: u16, ctx: nat, resp: Schema)
    | Handle(service: u16, method_: u16, handler: Handler)
    | Forget(service: u16, method_: u16)
    | Route(raw: seq<byte>, rounds: nat)

  ghost predicate Legal(op: Op) {
    match op
    case Register(_, _, resp) => resp.Struct?
    case Handle(_, _, handler) => Sound(handler)
    case _ => true
  }

  /** A message whose routing does not settle is not part of a run. */
  ghost function After(a: State, op: Op): State
    requires Valid(a)
  {
    match op
    case Register(session, ctx, resp) => Registered(a, session, ctx, resp)
    case Handle(service, method_, handler) => a.(handlers := a.handlers[PackKey(service, method_) := handler])
    case Forget(service, method_) => a.(handlers := a.handlers - {PackKey(service, method_)})
    case Route(raw, rounds) =>
      match Chain(a, raw, rounds)
      case Settled(b, _) => b
      case Unsettled => a
  }

  function CompletionOf(ctx: nat): Call -> bool {
    (c: Call) => c.Completed? && c.ctx == ctx
  }

  function WaitingFor(ctx: nat): Pending -> bool {
    (p: Pending) => p.Waiting? && p.ctx == ctx
  }

  /** Completions so far and callbacks still waiting. */
  function Spent(a: State, ctx: nat): nat {
    Count(a.log, CompletionOf(ctx)) + Count(a.pending, WaitingFor(ctx))
  }

  lemma CountUpdated(pending: seq<Pending>, i: nat, p: Pending, ctx: nat)
    requires i < |pending|
    ensures Count(pending[i := p], WaitingFor(ctx)) + (if WaitingFor(ctx)(pending[i]) then 1 else 0)
         == Count(pending, WaitingFor(ctx)) + if WaitingFor(ctx)(p) then 1 else 0
  {
    hide Count;
    var w := WaitingFor(ctx);
    assert pending == pending[..i] + ([pending[i]] + pending[i + 1..]);
    assert pending[i := p] == pending[..i] + ([p] + pending[i + 1..]);
    CountAppend(pending[..i], [pending[i]] + pending[i + 1..], w);
    CountAppend([pending[i]], pending[i + 1..], w);
    CountAppend(pending[..i], [p] + pending[i + 1..], w);
    CountAppend([p], pending[i + 1..], w);
    CountOne(pending[i], w);
    CountOne(p, w);
  }

  lemma LogMore(log: seq<Call>, c: Call, ctx: nat)
    ensures Count(log + [c], CompletionOf(ctx)) == Count(log, CompletionOf(ctx)) + if CompletionOf(ctx)(c) then 1 else 0
  {
    CountAppend(log, [c], CompletionOf(ctx));
    CountOne(c, CompletionOf(ctx));
  }

  /** Routing one message turns a waiting callback into a completion, or leaves both alone. */
  lemma StepSpends(a: State, raw: seq<byte>, ctx: nat)
    requires Valid(a) && !Step(a, raw).Undefined?
    ensures Spent(Step(a, raw).state, ctx) == Spent(a, ctx)
  {
    hide Count, ReadHeader, Deserialized, InBounds, Sound, Lookup, Payload;
    if |raw| >= HEADER_SIZE {
      var h, b := ReadHeader(raw), Step(a, raw).state;
      if b.log != a.log {
        assert |b.log| == |a.log| + 1 && b.log == a.log + [b.log[|a.log|]];
        LogMore(a.log, b.log[|a.log|], ctx);
      }
      if b.pending != a.pending {
        CountUpdated(a.pending, h.session, Free, ctx);
      }
    }
  }

  lemma {:induction false} ChainSpends(a: State, raw: seq<byte>, n: nat, ctx: nat)
    requires Valid(a) && Chain(a, raw, n).Settled?
    ensures Valid(Chain(a, raw, n).state) && Spent(Chain(a, raw, n).state, ctx) == Spent(a, ctx)
    decreases n
  {
    hide Step, Spent, Valid;
    StepValid(a, raw);
    StepSpends(a, raw, ctx);
    if Step(a, raw).Again? {
      ChainSpends(Step(a, raw).state, Step(a, raw).message, n - 1, ctx);
    }
  }

  lemma RegisterSpends(a: State, session: u16, ctx: nat, resp: Schema, other: nat)
    ensures Spent(Registered(a, session, ctx, resp), other) <= Spent(a, other) + if ctx == other then 1 else 0
  {
    hide Count;
    var more := if session >= |a.pending| then seq(session + 1 - |a.pending|, _ => Free) else [];
    assert a.pending + [] == a.pending;
    CountAppend(a.pending, more, WaitingFor(other));
    CountNone(more, WaitingFor(other));
    CountUpdated(a.pending + more, session, Waiting(ctx, resp), other);
  }

  lemma RegisterValid(a: State, op: Op)
    requires Valid(a) && Legal(op) && !op.Route?
    ensures Valid(After(a, op))
  {
    hide Sound;
  }

  /** The state after a run of operations. */
  ghost function RunOps(a: State, ops: seq<Op>): (b: State)
    requires Valid(a) && forall i :: 0 <= i < |ops| ==> Legal(ops[i])
    ensures Valid(b)
  {
    if |ops| == 0 then a
    else
      var n := |ops| - 1;
      var b := RunOps(a, ops[..n]);
      AfterValid(b, ops[n]);
      After(b, ops[n])
  }

  lemma AfterValid(a: State, op: Op)
    requires Valid(a) && Legal(op)
    ensures Valid(After(a, op))
  {
    hide Valid, Chain, Legal;
    if op.Route? {
      if Chain(a, op.raw, op.rounds).Settled? {
        ChainSpends(a, op.raw, op.rounds, 0);
      }
    } else {
      RegisterValid(a, op);
    }
  }

  function RegistrationOf(ctx: nat): Op -> bool {
    (op: Op) => op.Register? && op.ctx == ctx
  }

  /** Over every run, a callback fires at most as often as it has been registered. */
  lemma {:induction false} CallbacksFireOnce(a: State, ops: seq<Op>, ctx: nat)
    requires Valid(a) && forall i :: 0 <= i < |ops| ==> Legal(ops[i])
    ensures Spent(RunOps(a, ops), ctx) <= Spent(a, ctx) + Count(ops, RegistrationOf(ctx))
    decreases |ops|
  {
    hide Spent, Valid, Chain, Registered, Legal;
    if |ops| > 0 {
      var n := |ops| - 1;
      var b, op := RunOps(a, ops[..n]), ops[n];
      CallbacksFireOnce(a, ops[..n], ctx);
      match op
      case Register(session, c, resp) => RegisterSpends(b, session, c, resp, ctx);
      case Route(raw, rounds) =>
        if Chain(b, raw, rounds).Settled? {
          ChainSpends(b, raw, rounds, ctx);
        }
      case _ => HandlersCostNothing(b, op, ctx);
    }
  }

  lemma HandlersCostNothing(a: State, op: Op, ctx: nat)
    requires Valid(a) && (op.Handle? || op.Forget?)
    ensures Spent(After(a, op), ctx) == Spent(a, ctx)
  {
  }

  // ---- Calls -------------------------------------------------------------------------------------------

  /** The codec's last check passes for a buffer that ends with the value. */
  predicate Closed(s: Schema) {
    s.Struct? && (s.members == [] || Width(s.members[|s.members| - 1]) > 0)
  }

  lemma ReadsBack(h: Header, s: Schema, v: Codec.Value)
    requires Typed(s, v) && Width(s) + 8 < TWO32
    ensures
      var raw := WithPayload(h, s, v);
      && ReadHeader(raw) == h.(length := Width(s) + 8) && PayloadLength(ReadHeader(raw)) == Width(s)
      && Payload(ReadHeader(raw), raw) == Encode(s, v)
  {
    hide HeaderBytes, ReadHeader, Encode, Width, Typed;
    HeaderRoundTrip(h.(length := Width(s) + 8), Encode(s, v));
  }

  /** A complete value decodes exactly if its type is closed; nothing is read out of bounds either way. */
  lemma DecodesBack(s: Schema, v: Codec.Value)
    requires s.Struct? && Typed(s, v)
    ensures InBounds(s, |Encode(s, v)|)
    ensures Deserialized(Encode(s, v), s) == if Closed(s) then Codec.Ok(v) else BufferTooSmall
  {
    R.CodecInverts(s, v, []);
    assert Encode(s, v) + [] == Encode(s, v);
    hide Encode, Typed, InBounds;
    if !Closed(s) {
      R.EnoughRoom(s, Width(s));
      R.StartsOutsideExactly(s, Width(s));
    }
  }

  ghost predicate Serves(
      a: State, service: u16, method_: u16, req: Schema, resp: Schema, call: Codec.Value -> Codec.Value) {
    && Lookup(a.handlers, service, method_) == Option.Some(Serve(req, resp, call))
    && !(service == SD_SERVICE && method_ == SD_METHOD)
    && req.Struct? && resp.Struct? && Sound(Serve(req, resp, call))
    && Width(req) + 8 < TWO32 && Width(resp) + 8 < TWO32
  }

  /**
  A request to a served method is answered, in the next round, by the handler's response to it, unless the
  last member of its type has no bytes: then the codec refuses it and nothing happens.
  */
  lemma RequestIsAnswered(
      a: State, h: Header, req: Schema, resp: Schema, call: Codec.Value -> Codec.Value, v: Codec.Value)
    requires Valid(a) && Serves(a, h.service, h.method_, req, resp, call) && Typed(req, v)
    requires !IsResponse(h.kind)
    ensures Typed(resp, call(v))
    ensures Step(a, WithPayload(h, req, v))
         == if Closed(req) then Again(a, WithPayload(ResponseHeader(h), resp, call(v))) else Done(a, true)
  {
    hide ReadHeader, Encode, Width, InBounds, Deserialized, Payload, PayloadLength, WithPayload, Typed, Lookup, Closed;
    ReadsBack(h, req, v);
    DecodesBack(req, v);
  }

  /** The answer goes back to the caller: same service, method, client, session and interface, a successful response. */
  lemma AnswerAddressesCaller(h: Header, resp: Schema, w: Codec.Value)
    requires Typed(resp, w) && Width(resp) + 8 < TWO32
    ensures
      var answer := ReadHeader(WithPayload(ResponseHeader(h), resp, w));
      && answer.service == h.service && answer.method_ == h.method_ && answer.client == h.client
      && answer.session == h.session && answer.interface == h.interface
      && answer.protocol == 1 && answer.kind == 0x80 && answer.code == 0 && answer.length == 8 + Width(resp)
  {
    hide ReadHeader, WithPayload, Typed, Width;
    ReadsBack(ResponseHeader(h), resp, w);
  }

  /** Registering a handler serves its own method, or every method of the service that has no handler of its own. */
  lemma HandlerServes(handlers: map<u32, Handler>, service: u16, method_: u16, handler: Handler, s: u16, m: u16)
    ensures
      var more := handlers[PackKey(service, method_) := handler];
      Lookup(more, s, m) ==
        if s == service && m == method_ then Option.Some(handler)
        else if s == service && method_ == ANY_METHOD && PackKey(s, m) !in handlers then Option.Some(handler)
        else Lookup(handlers, s, m)
  {
    hide PackKey;
    KeysDiffer(service, method_, s, m);
    KeysDiffer(service, method_, s, ANY_METHOD);
  }

  lemma KeysDiffer(s: u16, m: u16, t: u16, n: u16)
    ensures PackKey(s, m) == PackKey(t, n) <==> s == t && m == n
  {
    if PackKey(s, m) == PackKey(t, n) {
      PackKeyInjective(s, m, t, n);
    }
  }

  /** What a call that expects this type completes with when the value arrives. */
  function OutcomeOf(resp: Schema, v: Codec.Value): Outcome {
    if Closed(resp) then Outcome.Value(v) else Malformed
  }

  /** A response for which a callback waits completes the call, with its value if the type is closed. */
  lemma ResponseCompletes(a: State, h: Header, ctx: nat, resp: Schema, v: Codec.Value)
    requires Valid(a) && resp.Struct? && Typed(resp, v) && Width(resp) + 8 < TWO32
    requires IsResponse(h.kind) && h.code == E_OK
    requires h.session < |a.pending| && a.pending[h.session] == Waiting(ctx, resp)
    ensures Step(a, WithPayload(h, resp, v))
         == Done(a.(pending := a.pending[h.session := Free], log := a.log + [Completed(ctx, OutcomeOf(resp, v))]), true)
  {
    hide ReadHeader, Encode, Width, InBounds, Deserialized, Payload, PayloadLength, WithPayload, Typed, Closed;
    ReadsBack(h, resp, v);
    DecodesBack(resp, v);
  }

  /**
   An asynchronous call to a served method completes: exactly once, with what the handler returns for the
   request, and no other pending callback is touched. If the response type ends with a member that has no
   bytes, it completes as malformed instead; if the request type does, it is never answered and waits.
   */
  lemma AsyncCallCompletes(
      a: State, service: u16, method_: u16, client: u16, session: u16, ctx: nat,
      req: Schema, resp: Schema, call: Codec.Value -> Codec.Value, v: Codec.Value)
    requires Valid(a) && Serves(a, service, method_, req, resp, call) && Typed(req, v)
    ensures Valid(Registered(a, session, ctx, resp)) && Typed(resp, call(v))
    ensures
      var b := Registered(a, session, ctx, resp);
      var done := b.(pending := b.pending[session := Free], log := a.log + [Completed(ctx, OutcomeOf(resp, call(v)))]);
      && Chain(b, WithPayload(RequestHeader(service, method_, client, session), req, v), 2)
      == Settled(if Closed(req) then done else b, true)
      && b.pending[session] == Waiting(ctx, resp)
      && forall i :: 0 <= i < |a.pending| && i != session ==> b.pending[i] == a.pending[i]
  {
    hide Step, WithPayload, Sound, Typed, Width, Closed;
    var b, h := Registered(a, session, ctx, resp), RequestHeader(service, method_, client, session);
    RegisterValid(a, Register(session, ctx, resp));
    RequestIsAnswered(b, h, req, resp, call, v);
    if Closed(req) {
      ResponseCompletes(b, ResponseHeader(h), ctx, resp, call(v));
      TwoRounds(b, WithPayload(h, req, v));
    }
  }

  lemma TwoRounds(a: State, raw: seq<byte>)
    requires Valid(a) && Step(a, raw).Again?
    ensures Valid(Step(a, raw).state)
    ensures Step(Step(a, raw).state, Step(a, raw).message).Done? ==>
      Chain(a, raw, 2) == Settled(Step(Step(a, raw).state, Step(a, raw).message).state, true)
  {
    hide Step, Valid;
    StepValid(a, raw);
    assert Chain(a, raw, 2) == match Chain(Step(a, raw).state, Step(a, raw).message, 1)
      case Settled(c, _) => Settled(c, true)
      case Unsettled => Unsettled;
  }

  /** Without a handler the call stays pending. */
  lemma UnservedCallWaits(
      a: State, service: u16, method_: u16, client: u16, session: u16, req: Schema, v: Codec.Value)
    requires Valid(a) && Lookup(a.handlers, service, method_) == Option.None
    requires Typed(req, v) && Width(req) + 8 < TWO32
    ensures Chain(a, WithPayload(RequestHeader(service, method_, client, session), req, v), 1) == Settled(a, false)
  {
    hide ReadHeader, Encode, Width, Payload, PayloadLength, WithPayload, Typed, Lookup;
    ReadsBack(RequestHeader(service, method_, client, session), req, v);
  }

  // ---- When routing comes to an end ------------------------------------------------------------------------

  ghost predicate Settles(a: State, raw: seq<byte>)
    requires Valid(a)
  {
    exists n: nat :: Chain(a, raw, n).Settled?
  }

  predicate Waits(a: State, session: u16) {
    session < |a.pending| && a.pending[session].Waiting?
  }

  /** The payload size that the length field of a response announces: its width, unless that overflows 32 bits. */
  function Announced(s: Schema): nat {
    var length := AnnouncedLength(Width(s));
    if length >= 8 then length - 8 else 0
  }

  /** Sizes on which the code looks no further than the end of the buffer, and then finds it too short. */
  ghost predicate TooShort(s: Schema, size: nat)
    requires s.Struct?
  {
    InBounds(s, size) && StartsOutside(s, size, |s.members|)
  }

  /**
   Whether the answer of a served method ends the routing. If a callback waits for it, it must be able to
   read the answer; otherwise the answer must be too short to be taken for a request by the same handler.
   */
  ghost predicate AnswerEnds(a: State, session: u16, handler: Handler)
    requires Valid(a) && handler.Serve? && handler.req.Struct?
  {
    if Waits(a, session) then InBounds(a.pending[session].resp, Announced(handler.resp))
    else TooShort(handler.req, Announced(handler.resp))
  }

  /** The handler that a message reaches. */
  function HandlerOf(a: State, raw: seq<byte>): Option<Handler> {
    if |raw| < HEADER_SIZE then None
    else Lookup(a.handlers, ReadHeader(raw).service, ReadHeader(raw).method_)
  }

  ghost predicate IsAnswer(h: Header, handler: Handler, message: seq<byte>)
    requires handler.Serve?
  {
    exists u :: Typed(handler.resp, u) && message == WithPayload(ResponseHeader(h), handler.resp, u)
  }

  /** One round that leads to another: a served method has answered, and nothing else has happened. */
  lemma AgainIsAnswer(a: State, raw: seq<byte>)
    requires Valid(a) && Step(a, raw).Again?
    ensures |raw| >= HEADER_SIZE && HandlerOf(a, raw).Some? && HandlerOf(a, raw).value.Serve?
    ensures Sound(HandlerOf(a, raw).value) && Step(a, raw).state == a
    ensures IsAnswer(ReadHeader(raw), HandlerOf(a, raw).value, Step(a, raw).message)
    ensures !(ReadHeader(raw).service == SD_SERVICE && ReadHeader(raw).method_ == SD_METHOD)
  {
    hide ReadHeader, Deserialized, InBounds, Typed, WithPayload, PackKey;
    var h, handler := ReadHeader(raw), HandlerOf(a, raw).value;
    var request := Payload(h, raw);
    DeserializedIsTyped(request, handler.req);
    var u := handler.call(Deserialized(request, handler.req).value);
    assert Typed(handler.resp, u) && Step(a, raw).message == WithPayload(ResponseHeader(h), handler.resp, u);
  }

  lemma ReadsAnnounced(h: Header, s: Schema, v: Codec.Value)
    requires Typed(s, v)
    ensures
      var raw := WithPayload(ResponseHeader(h), s, v);
      && ReadHeader(raw) == ResponseHeader(h).(length := AnnouncedLength(Width(s)))
      && PayloadLength(ReadHeader(raw)) == Announced(s) <= |raw| - HEADER_SIZE
      && |Payload(ReadHeader(raw), raw)| == Announced(s)
  {
    hide HeaderBytes, ReadHeader, Encode, Width, Typed;
    HeaderRoundTrip(ResponseHeader(h).(length := AnnouncedLength(Width(s))), Encode(s, v));
  }

  /** The round in which an answer is routed. */
  lemma AnswerRound(a: State, h: Header, handler: Handler, message: seq<byte>)
    requires Valid(a) && handler.Serve? && Sound(handler) && IsAnswer(h, handler, message)
    requires Lookup(a.handlers, h.service, h.method_) == Option.Some(handler)
    requires !(h.service == SD_SERVICE && h.method_ == SD_METHOD)
    ensures Step(a, message).Done? <==> AnswerEnds(a, h.session, handler)
    ensures Step(a, message).Again? ==> !Waits(a, h.session) && !TooShort(handler.req, Announced(handler.resp))
    ensures Step(a, message).Again? ==> IsAnswer(h, handler, Step(a, message).message) && Step(a, message).state == a
  {
    var u :| Typed(handler.resp, u) && message == WithPayload(ResponseHeader(h), handler.resp, u);
    hide ReadHeader, Deserialized, InBounds, StartsOutside, Typed, Payload, Announced, Lookup, Width;
    hide WithPayload;
    ReadsAnnounced(h, handler.resp, u);
    if Step(a, message).Again? {
      AgainIsAnswer(a, message);
      var w :| Typed(handler.resp, w)
            && Step(a, message).message == WithPayload(ResponseHeader(ReadHeader(message)), handler.resp, w);
      assert ResponseHeader(ReadHeader(message)) == ResponseHeader(h);
    }
  }

  lemma {:induction false} AnswersCirculate(a: State, h: Header, handler: Handler, message: seq<byte>, n: nat)
    requires Valid(a) && handler.Serve? && Sound(handler) && IsAnswer(h, handler, message)
    requires Lookup(a.handlers, h.service, h.method_) == Option.Some(handler)
    requires !(h.service == SD_SERVICE && h.method_ == SD_METHOD)
    requires !AnswerEnds(a, h.session, handler)
    ensures Chain(a, message, n).Unsettled?
    decreases n
  {
    hide Step, Valid, Sound, Lookup, IsAnswer, AnswerEnds;
    if n > 0 {
      AnswerRound(a, h, handler, message);
      StepValid(a, message);
      if Step(a, message).Again? {
        AnswersCirculate(a, h, handler, Step(a, message).message, n - 1);
      }
    }
  }

  /** Routing settles if its first round does, or if the message that this round leads to does. */
  lemma SettlesByRound(a: State, raw: seq<byte>)
    requires Valid(a)
    ensures Step(a, raw).Done? ==> Settles(a, raw)
    ensures Step(a, raw).Undefined? ==> !Settles(a, raw)
    ensures Step(a, raw).Again? ==> Valid(Step(a, raw).state)
    ensures Step(a, raw).Again? && Step(Step(a, raw).state, Step(a, raw).message).Done? ==> Settles(a, raw)
  {
    hide Step, Valid;
    StepValid(a, raw);
    if Step(a, raw).Done? {
      assert Chain(a, raw, 1).Settled?;
    }
    if Step(a, raw).Again? {
      TwoRounds(a, raw);
      assert Step(Step(a, raw).state, Step(a, raw).message).Done? ==> Chain(a, raw, 2).Settled?;
    }
  }

  /**
   For every message: its routing comes to an end exactly when its first round settles it, or when this
   round has a served method answer and the answer ends the routing. A handler does not look at the
   message type, so an answer that nobody waits for is answered by one like itself, again and again,
   unless it is too short to be taken for a request.
   */
  lemma RoutingSettles(a: State, raw: seq<byte>)
    requires Valid(a)
    ensures Step(a, raw).Again? ==>
      HandlerOf(a, raw).Some? && HandlerOf(a, raw).value.Serve? && HandlerOf(a, raw).value.req.Struct?
    ensures Settles(a, raw) <==>
      || Step(a, raw).Done?
      || (Step(a, raw).Again? && AnswerEnds(a, ReadHeader(raw).session, HandlerOf(a, raw).value))
  {
    hide Step, Valid, AnswerEnds, Lookup, ReadHeader, IsAnswer;
    SettlesByRound(a, raw);
    if Step(a, raw).Again? {
      AgainIsAnswer(a, raw);
      var h, handler, message := ReadHeader(raw), HandlerOf(a, raw).value, Step(a, raw).message;
      AnswerRound(a, h, handler, message);
      if !AnswerEnds(a, h.session, handler) {
        forall n: nat
          ensures Chain(a, raw, n).Unsettled?
        {
          if n > 0 {
            AnswersCirculate(a, h, handler, message, n - 1);
          }
        }
      }
    }
  }

  /** The instance for an ordinary request: it settles exactly when it is refused or its answer settles. */
  lemma RequestSettles(
      a: State, h: Header, req: Schema, resp: Schema, call: Codec.Value -> Codec.Value, v: Codec.Value)
    requires Valid(a) && Serves(a, h.service, h.method_, req, resp, call) && Typed(req, v)
    requires !IsResponse(h.kind)
    ensures Settles(a, WithPayload(h, req, v)) <==> !Closed(req) || AnswerEnds(a, h.session, Serve(req, resp, call))
  {
    hide Step, AnswerEnds, Lookup, ReadHeader, WithPayload, Typed, Width, PayloadLength, Payload, Closed;
    RequestIsAnswered(a, h, req, resp, call, v);
    ReadsBack(h, req, v);
    RoutingSettles(a, WithPayload(h, req, v));
  }

  // ---- A request that never settles -----------------------------------------------------------------------------

  const ONE_BYTE := Struct([Int(W1, false)])
  const ECHO := Serve(ONE_BYTE, ONE_BYTE, v => v)
  const ECHO_ONLY := State(map[PackKey(1, 2) := ECHO], [], [])

  /** A method that answers with its request, called by nobody who waits: the answer goes round for ever. */
  lemma EchoNeverSettles(client: u16, session: u16, x: byte)
    ensures Valid(ECHO_ONLY) && Typed(ONE_BYTE, StructValue([IntValue(x)]))
    ensures
      var request := WithPayload(RequestHeader(1, 2, client, session), ONE_BYTE, StructValue([IntValue(x)]));
      !Settles(ECHO_ONLY, request)
  {
    hide Settles, WithPayload;
    var h, v := RequestHeader(1, 2, client, session), StructValue([IntValue(x)]);
    OneByteWidth();
    RequestSettles(ECHO_ONLY, h, ONE_BYTE, ONE_BYTE, ECHO.call, v);
  }

  lemma OneByteWidth()
    ensures Width(ONE_BYTE) == 1 && Offset(ONE_BYTE, 0) == 0 && Offset(ONE_BYTE, 1) == 1 && Announced(ONE_BYTE) == 1
    ensures !StartsOutside(ONE_BYTE, 1, 1)
  {
  }
}
