/** In-process calls: session ids, one-shot pending callbacks, and messages routed to served methods. */
module App {
  import opened Bytes
  import opened Wrappers
  import opened Header
  import opened Codec
  import R = CodecRoundTrip

  const SD_SERVICE: u16 := 0xFFFF
  const SD_METHOD: u16 := 0x8100
  const ANY_METHOD: u16 := 0xFFFF
  const REQUEST: byte := 0x00
  const RESPONSE: byte := 0x80
  const E_OK: byte := 0

  // ---- State -------------------------------------------------------------------------------------

  /** A served method, or any other handler, which only looks at the message. */
  datatype Handler = Serve(req: Schema, resp: Schema, call: Value -> Value) | Plain(id: nat)

  /** The callback of a call: its operation state and the type of response it expects. */
  datatype Pending = Free | Waiting(ctx: nat, resp: Schema)

  datatype Outcome = Value(v: Codec.Value) | ErrorResponse | Malformed

  /** What has been called so far: completions of calls, and plain handlers. */
  datatype Call = Completed(ctx: nat, outcome: Outcome) | Handled(id: nat, header: Header, payload: seq<byte>)

  datatype State = State(handlers: map<u32, Handler>, pending: seq<Pending>, log: seq<Call>)

  ghost predicate Sound(h: Handler) {
    h.Serve? ==> h.req.Struct? && h.resp.Struct? && forall v :: Typed(h.req, v) ==> Typed(h.resp, h.call(v))
  }

  /** Handlers return values of their response type, and calls expect aggregates. */
  ghost predicate Valid(a: State) {
    && (forall k :: k in a.handlers ==> Sound(a.handlers[k]))
    && (forall i :: 0 <= i < |a.pending| && a.pending[i].Waiting? ==> a.pending[i].resp.Struct?)
  }

  function PackKey(service: u16, method_: u16): u32 {
    service * TWO16 + method_
  }

  lemma PackKeyInjective(s: u16, m: u16, t: u16, n: u16)
    requires PackKey(s, m) == PackKey(t, n)
    ensures s == t && m == n
  {
  }

  /** The handler of the method, or else of any method of the service. */
  function Lookup(handlers: map<u32, Handler>, service: u16, method_: u16): Option<Handler> {
    if PackKey(service, method_) in handlers then Some(handlers[PackKey(service, method_)])
    else if PackKey(service, ANY_METHOD) in handlers then Some(handlers[PackKey(service, ANY_METHOD)])
    else None
  }

  predicate IsResponse(kind: byte) {
    kind >= 0x80
  }

  // ---- Messages ------------------------------------------------------------------------------------

  function RequestHeader(service: u16, method_: u16, client: u16, session: u16): Header {
    Header(service, method_, 8, client, session, 1, 0, REQUEST, E_OK)
  }

  function ResponseHeader(h: Header): Header {
    Header(h.service, h.method_, 8, h.client, h.session, 1, h.interface, RESPONSE, E_OK)
  }

  function WithPayload(h: Header, s: Schema, v: Codec.Value): (r: seq<byte>)
    requires Typed(s, v)
    ensures |r| == HEADER_SIZE + Width(s)
  {
    HeaderBytes(h.(length := AnnouncedLength(Width(s)))) + Encode(s, v)
  }

  /** A message is made with room for the type in memory, which is at least its width, and then cut. */
  method BuildMessage(h: Header, s: Schema, v: Codec.Value, room: nat) returns (message: seq<byte>)
    requires s.Struct? && Typed(s, v) && Width(s) <= room
    ensures message == WithPayload(h, s, v)
  {
    hide Encode, Width, HeaderBytes, Typed, AnnouncedLength, Splice;
    var data := new byte[HEADER_SIZE + room](_ => 0);
    ghost var blank := data[..];
    var view := new HeaderView(data);
    view.Fill(h);
    var result := Serialize(data, HEADER_SIZE, s, v);
    view.SetPayloadLength(result.value);
    MessageBuilt(blank, h, AnnouncedLength(Width(s)), Encode(s, v));
    message := data[..HEADER_SIZE + result.value];
  }

  lemma MessageBuilt(blank: seq<byte>, h: Header, length: u32, payload: seq<byte>)
    requires HEADER_SIZE + |payload| <= |blank|
    ensures
      var filled := Splice(Splice(blank, 0, HeaderBytes(h)), HEADER_SIZE, payload);
      Splice(filled, 4, BeU32(length))[..HEADER_SIZE + |payload|] == HeaderBytes(h.(length := length)) + payload
  {
    hide HeaderBytes, Splice, BeU32;
    LengthLast(blank, HeaderBytes(h), BeU32(length), payload);
    LengthSpliced(h, length);
    SpliceFront(blank, HeaderBytes(h.(length := length)) + payload);
  }

  lemma SpliceFront(s: seq<byte>, w: seq<byte>)
    requires |w| <= |s|
    ensures Splice(s, 0, w)[..|w|] == w
  {
  }

  /** The payload as far as the header announces it. */
  function Payload(h: Header, raw: seq<byte>): seq<byte>
    requires |raw| >= HEADER_SIZE
  {
    var payload := raw[HEADER_SIZE..];
    if |payload| > PayloadLength(h) then payload[..PayloadLength(h)] else payload
  }

  // ---- Routing one message ---------------------------------------------------------------------------

  /** A message is routed, or its handler routes a response next, or a read runs out of the payload. */
  datatype Verdict = Done(state: State, handled: bool) | Again(state: State, message: seq<byte>) | Undefined

  ghost function Complete(a: State, w: Pending, code: byte, payload: seq<byte>): Verdict
    requires w.Waiting? && w.resp.Struct?
  {
    if code != E_OK then Done(a.(log := a.log + [Completed(w.ctx, ErrorResponse)]), true)
    else if !InBounds(w.resp, |payload|) then Undefined
    else match Deserialized(payload, w.resp)
      case Ok(v) => Done(a.(log := a.log + [Completed(w.ctx, Outcome.Value(v))]), true)
      case BufferTooSmall => Done(a.(log := a.log + [Completed(w.ctx, Malformed)]), true)
  }

  /** Deserialize the request, call the handler, answer. */
  ghost function Invoke(a: State, handler: Handler, h: Header, payload: seq<byte>): Verdict
    requires Sound(handler)
  {
    match handler
    case Plain(id) => Done(a.(log := a.log + [Handled(id, h, payload)]), true)
    case Serve(req, resp, call) =>
      if !InBounds(req, |payload|) then Undefined
      else match Deserialized(payload, req)
        case BufferTooSmall => Done(a, true)
        case Ok(v) =>
          DeserializedIsTyped(payload, req);
          Again(a, WithPayload(ResponseHeader(h), resp, call(v)))
  }

  ghost function Dispatch(a: State, h: Header, raw: seq<byte>): Verdict
    requires Valid(a) && |raw| >= HEADER_SIZE
  {
    if |raw| - HEADER_SIZE < PayloadLength(h) then Done(a, false)
    else if h.service == SD_SERVICE && h.method_ == SD_METHOD then Done(a, false)
    else match Lookup(a.handlers, h.service, h.method_)
      case None => Done(a, false)
      case Some(handler) => Invoke(a, handler, h, Payload(h, raw))
  }

  /** A response with a pending callback completes the call, and clears the callback before that. */
  ghost function Step(a: State, raw: seq<byte>): Verdict
    requires Valid(a)
  {
    if |raw| < HEADER_SIZE then Done(a, false)
    else
      var h := ReadHeader(raw);
      if IsResponse(h.kind) && h.session < |a.pending| && a.pending[h.session].Waiting? then
        Complete(a.(pending := a.pending[h.session := Free]), a.pending[h.session], h.code, Payload(h, raw))
      else Dispatch(a, h, raw)
  }

  lemma DeserializedIsTyped(payload: seq<byte>, s: Schema)
    requires s.Struct? && InBounds(s, |payload|) && Deserialized(payload, s).Ok?
    ensures Typed(s, Deserialized(payload, s).value)
  {
    ReadsWhole(s, |payload|);
    R.DecodedIsTyped(s, payload, 0);
  }

  lemma StepValid(a: State, raw: seq<byte>)
    requires Valid(a)
    ensures !Step(a, raw).Undefined? ==> Valid(Step(a, raw).state) && Step(a, raw).state.handlers == a.handlers
  {
    hide Deserialized, InBounds, Sound, ReadHeader;
  }

  datatype Routed = Settled(state: State, handled: bool) | Unsettled

  /** Routing a message, and the responses that it leads to, in at most `n` rounds. */
  ghost function Chain(a: State, raw: seq<byte>, n: nat): Routed
    requires Valid(a)
    decreases n
  {
    if n == 0 then Unsettled
    else
      StepValid(a, raw);
      match Step(a, raw)
      case Done(b, handled) => Settled(b, handled)
      case Undefined => Unsettled
      case Again(b, message) =>
        match Chain(b, message, n - 1)
        case Settled(c, _) => Settled(c, true)
        case Unsettled => Unsettled
  }

  /** The pending table grows on demand. */
  function Registered(a: State, session: u16, ctx: nat, resp: Schema): State {
    var grown := if session >= |a.pending| then a.pending + seq(session + 1 - |a.pending|, _ => Free) else a.pending;
    a.(pending := grown[session := Waiting(ctx, resp)])
  }

  /** The next session id and the counter after it: 0 is skipped. */
  function NextSession(counter: u16): (u16, u16) {
    if counter == 0 then (1, 2) else (counter, (counter + 1) % TWO16)
  }

  // ---- The class ---------------------------------------------------------------------------------------

  class Application {
    var handlers: map<u32, Handler>
    var pending: seq<Pending>
    var sessionCounter: u16
    ghost var log: seq<Call>

    ghost function Contents(): State
      reads this
    {
      State(handlers, pending, log)
    }

    constructor ()
      ensures Contents() == State(map[], seq(256, _ => Free), []) && sessionCounter == 1
    {
      handlers, pending, sessionCounter, log := map[], seq(256, _ => Free), 1, [];
    }

    method NextSessionId() returns (session: u16)
      modifies `sessionCounter
      ensures (session, sessionCounter) == NextSession(old(sessionCounter))
    {
      session := sessionCounter;
      sessionCounter := (sessionCounter + 1) % TWO16;
      if session == 0 {
        session := sessionCounter;
        sessionCounter := (sessionCounter + 1) % TWO16;
      }
    }

    method RegisterPending(session: u16, ctx: nat, resp: Schema)
      modifies `pending
      ensures Contents() == Registered(old(Contents()), session, ctx, resp)
    {
      if session >= |pending| {
        pending := pending + seq(session + 1 - |pending|, _ => Free);
      }
      pending := pending[session := Waiting(ctx, resp)];
    }

    method RegisterMessageHandler(service: u16, method_: u16, handler: Handler)
      modifies `handlers
      ensures handlers == old(handlers)[PackKey(service, method_) := handler]
    {
      handlers := handlers[PackKey(service, method_) := handler];
    }

    method UnregisterMessageHandler(service: u16, method_: u16)
      modifies `handlers
      ensures handlers == old(handlers) - {PackKey(service, method_)}
    {
      handlers := handlers - {PackKey(service, method_)};
    }

    /** Routes a message whose routing comes to an end, which takes at most `n` rounds. */
    method Route(raw: seq<byte>, ghost n: nat) returns (handled: bool)
      requires Valid(Contents()) && Chain(Contents(), raw, n).Settled?
      modifies `pending, `log
      ensures Settled(Contents(), handled) == Chain(old(Contents()), raw, n)
      decreases n, 1
    {
      hide ReadHeader, Deserialized, InBounds, Sound, Invoke;
      if |raw| < HEADER_SIZE { return false; }
      var h := ReadHeader(raw);
      if IsResponse(h.kind) && h.session < |pending| && pending[h.session].Waiting? {
        var entry := pending[h.session];
        pending := pending[h.session := Free];
        OnResponse(entry, Payload(h, raw), h.code);
        return true;
      }
      handled := RouteMessage(h, raw, n);
    }

    /** The callback that `async_call` has registered. */
    method OnResponse(entry: Pending, payload: seq<byte>, code: byte)
      requires entry.Waiting? && entry.resp.Struct? && !Complete(Contents(), entry, code, payload).Undefined?
      modifies `log
      ensures Done(Contents(), true) == Complete(old(Contents()), entry, code, payload)
    {
      if code != E_OK {
        log := log + [Completed(entry.ctx, ErrorResponse)];
        return;
      }
      var result := Deserialize(payload, entry.resp);
      if result.Ok? {
        log := log + [Completed(entry.ctx, Outcome.Value(result.value))];
      } else {
        log := log + [Completed(entry.ctx, Malformed)];
      }
    }

    method RouteMessage(h: Header, raw: seq<byte>, ghost n: nat) returns (handled: bool)
      requires n > 0 && Valid(Contents()) && |raw| >= HEADER_SIZE && h == ReadHeader(raw)
      requires Step(Contents(), raw) == Dispatch(Contents(), h, raw) && Chain(Contents(), raw, n).Settled?
      modifies `pending, `log
      ensures Settled(Contents(), handled) == Chain(old(Contents()), raw, n)
      decreases n, 0
    {
      hide ReadHeader, Deserialized, InBounds, PackKey, IsResponse, Payload, PayloadLength, Width, Typed;
      if |raw| - HEADER_SIZE < PayloadLength(h) { return false; }
      if h.service == SD_SERVICE && h.method_ == SD_METHOD { return false; }
      var found := Lookup(handlers, h.service, h.method_);
      if found.None? { return false; }
      var payload := Payload(h, raw);
      var handler := found.value;
      assert Step(Contents(), raw) == Invoke(Contents(), handler, h, payload);
      if handler.Plain? {
        log := log + [Handled(handler.id, h, payload)];
        return true;
      }
      var request := Deserialize(payload, handler.req);
      if request.Ok? {
        DeserializedIsTyped(payload, handler.req);
        var response := BuildMessage(ResponseHeader(h), handler.resp, handler.call(request.value), Width(handler.resp));
        var _ := Route(response, n - 1);
      }
      return true;
    }
  }
}
