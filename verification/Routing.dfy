/** The service registry and the availability notifications of the routing manager. */
module Routing {
  import opened Bytes
  import opened Wrappers
  import opened Sequences

  datatype ServiceKey = ServiceKey(service: u16, instance: u16)

  /** The endpoints of a remote service play no part in routing decisions made here. */
  datatype ServiceInfo = ServiceInfo(key: ServiceKey, major: byte, minor: u32, ttl: u32, isLocal: bool)

  /** One call of an availability handler; handlers are told apart by number. */
  datatype Delivery = Delivery(handler: nat, key: ServiceKey, available: bool)

  datatype State = State(services: map<ServiceKey, ServiceInfo>, handlers: map<u16, seq<nat>>, delivered: seq<Delivery>)

  datatype Event =
    | OfferService(key: ServiceKey, major: byte, minor: u32)
    | StopOfferService(key: ServiceKey)
    | AddRemoteService(info: ServiceInfo)
    | RemoveRemoteService(key: ServiceKey)
    | OnAvailability(service: u16, handler: nat)

  const INITIAL := State(map[], map[], [])

  function HandlersFor(s: State, service: u16): seq<nat> {
    if service in s.handlers then s.handlers[service] else []
  }

  function Deliveries(handlers: seq<nat>, key: ServiceKey, available: bool): seq<Delivery> {
    if |handlers| == 0 then []
    else Deliveries(handlers[..|handlers| - 1], key, available) + [Delivery(handlers[|handlers| - 1], key, available)]
  }

  function Notified(s: State, key: ServiceKey, available: bool): State {
    s.(delivered := s.delivered + Deliveries(HandlersFor(s, key.service), key, available))
  }

  function LocalInfo(key: ServiceKey, major: byte, minor: u32): ServiceInfo {
    ServiceInfo(key, major, minor, 0xFF_FFFF, true)
  }

  /** Offering a known service replaces its information without a notification. */
  function Offered(s: State, info: ServiceInfo): State {
    var t := s.(services := s.services[info.key := info]);
    if info.key in s.services then t else Notified(t, info.key, true)
  }

  function Withdrawn(s: State, key: ServiceKey): State {
    if key in s.services then Notified(s.(services := s.services - {key}), key, false) else s
  }

  function Step(s: State, e: Event): State {
    match e
    case OfferService(key, major, minor) => Offered(s, LocalInfo(key, major, minor))
    case AddRemoteService(info) => Offered(s, info)
    case StopOfferService(key) => Withdrawn(s, key)
    case RemoveRemoteService(key) => Withdrawn(s, key)
    case OnAvailability(service, handler) =>
      s.(handlers := s.handlers[service := HandlersFor(s, service) + [handler]])
  }

  function Run(s: State, events: seq<Event>): State {
    if |events| == 0 then s else Step(Run(s, events[..|events| - 1]), events[|events| - 1])
  }

  class RoutingManager {
    var services: map<ServiceKey, ServiceInfo>
    var availabilityHandlers: map<u16, seq<nat>>
    ghost var delivered: seq<Delivery>

    ghost function Contents(): State
      reads this
    {
      State(services, availabilityHandlers, delivered)
    }

    constructor ()
      ensures Contents() == INITIAL
    {
      services, availabilityHandlers, delivered := map[], map[], [];
    }

    /** The registry's offer: true if newly inserted, false if updated. */
    method RegistryOffer(info: ServiceInfo) returns (isNew: bool)
      modifies `services
      ensures isNew == (info.key !in old(services)) && services == old(services)[info.key := info]
    {
      isNew := info.key !in services;
      services := services[info.key := info];
    }

    method RegistryStop(key: ServiceKey) returns (existed: bool)
      modifies `services
      ensures existed == (key in old(services)) && services == old(services) - {key}
    {
      existed := key in services;
      services := services - {key};
    }

    method NotifyAvailability(key: ServiceKey, available: bool)
      modifies `delivered
      ensures Contents() == Notified(old(Contents()), key, available)
    {
      if key.service in availabilityHandlers {
        var handlers := availabilityHandlers[key.service];
        for i := 0 to |handlers|
          invariant delivered == old(delivered) + Deliveries(handlers[..i], key, available)
        {
          assert handlers[..i + 1][..i] == handlers[..i];
          delivered := delivered + [Delivery(handlers[i], key, available)];
        }
        assert handlers[..|handlers|] == handlers;
      }
    }

    method OfferService(key: ServiceKey, major: byte, minor: u32)
      modifies this
      ensures Contents() == Step(old(Contents()), Event.OfferService(key, major, minor))
    {
      var isNew := RegistryOffer(LocalInfo(key, major, minor));
      if isNew {
        NotifyAvailability(key, true);
      }
    }

    method StopOfferService(key: ServiceKey)
      modifies this
      ensures Contents() == Step(old(Contents()), Event.StopOfferService(key))
    {
      var existed := RegistryStop(key);
      if existed {
        NotifyAvailability(key, false);
      }
      assert !existed ==> services == old(services);
    }

    method AddRemoteService(info: ServiceInfo)
      modifies this
      ensures Contents() == Step(old(Contents()), Event.AddRemoteService(info))
    {
      var isNew := RegistryOffer(info);
      if isNew {
        NotifyAvailability(info.key, true);
      }
    }

    method RemoveRemoteService(key: ServiceKey)
      modifies this
      ensures Contents() == Step(old(Contents()), Event.RemoveRemoteService(key))
    {
      var existed := RegistryStop(key);
      if existed {
        NotifyAvailability(key, false);
      }
      assert !existed ==> services == old(services);
    }

    method OnAvailability(service: u16, handler: nat)
      modifies this
      ensures Contents() == Step(old(Contents()), Event.OnAvailability(service, handler))
    {
      var known := if service in availabilityHandlers then availabilityHandlers[service] else [];
      availabilityHandlers := availabilityHandlers[service := known + [handler]];
    }
  }

  // ---- What a handler hears ---------------------------------------------------------------------------

  /** What the handler is told about one service instance, in order. */
  function Heard(delivered: seq<Delivery>, handler: nat, key: ServiceKey): seq<bool> {
    if |delivered| == 0 then []
    else
      var d := delivered[|delivered| - 1];
      var front := Heard(delivered[..|delivered| - 1], handler, key);
      if d.handler == handler && d.key == key then front + [d.available] else front
  }

  function Times(handlers: seq<nat>, handler: nat): nat {
    if |handlers| == 0 then 0
    else Times(handlers[..|handlers| - 1], handler) + if handlers[|handlers| - 1] == handler then 1 else 0
  }

  /** Every word differs from the one before it; before the first one, `start` was the case. */
  ghost predicate Alternates(start: bool, words: seq<bool>) {
    forall i: nat :: i < |words| ==> words[i] == !Latest(start, words[..i])
  }

  function Latest(start: bool, words: seq<bool>): bool {
    if words == [] then start else words[|words| - 1]
  }

  function EventKey(e: Event): ServiceKey
    requires !e.OnAvailability?
  {
    match e
    case OfferService(key, _, _) => key
    case StopOfferService(key) => key
    case AddRemoteService(info) => info.key
    case RemoveRemoteService(key) => key
  }

  lemma {:induction false} HeardAppend(a: seq<Delivery>, b: seq<Delivery>, handler: nat, key: ServiceKey)
    ensures Heard(a + b, handler, key) == Heard(a, handler, key) + Heard(b, handler, key)
    decreases |b|
  {
    if |b| == 0 {
      assert a + b == a;
    } else {
      HeardAppend(a, b[..|b| - 1], handler, key);
      assert (a + b)[..|a + b| - 1] == a + b[..|b| - 1];
    }
  }

  lemma {:induction false} NoticeHeard(
      handlers: seq<nat>, k: ServiceKey, available: bool, handler: nat, key: ServiceKey)
    requires Times(handlers, handler) <= 1
    ensures Heard(Deliveries(handlers, k, available), handler, key)
         == if k == key && Times(handlers, handler) == 1 then [available] else []
    decreases |handlers|
  {
    if |handlers| > 0 {
      NoticeHeard(handlers[..|handlers| - 1], k, available, handler, key);
      var front := Deliveries(handlers[..|handlers| - 1], k, available);
      assert Deliveries(handlers, k, available)[..|front|] == front;
    }
  }

  /** A notification calls every handler of the service once, in the order of their registration. */
  lemma EveryHandlerIsCalled(s: State, key: ServiceKey, available: bool)
    ensures
      var t, handlers := Notified(s, key, available), HandlersFor(s, key.service);
      && t == s.(delivered := t.delivered) && |t.delivered| == |s.delivered| + |handlers|
      && s.delivered <= t.delivered
      && forall i :: 0 <= i < |handlers| ==> t.delivered[|s.delivered| + i] == Delivery(handlers[i], key, available)
  {
    DeliveredInOrder(HandlersFor(s, key.service), key, available);
  }

  lemma {:induction false} DeliveredInOrder(handlers: seq<nat>, key: ServiceKey, available: bool)
    ensures
      var ds := Deliveries(handlers, key, available);
      |ds| == |handlers| && forall i :: 0 <= i < |ds| ==> ds[i] == Delivery(handlers[i], key, available)
    decreases |handlers|
  {
    if |handlers| > 0 {
      DeliveredInOrder(handlers[..|handlers| - 1], key, available);
    }
  }

  ghost predicate ListensOnce(s: State, handler: nat, service: u16) {
    Times(HandlersFor(s, service), handler) == 1
  }

  /** One event: what the handler hears is the change of the service's membership, if it changes. */
  lemma StepHeard(s: State, e: Event, handler: nat, key: ServiceKey)
    requires ListensOnce(s, handler, key.service) && !(e.OnAvailability? && e.handler == handler)
    ensures
      var t := Step(s, e);
      && ListensOnce(t, handler, key.service)
      && Heard(t.delivered, handler, key)
      == Heard(s.delivered, handler, key)
         + if (key in t.services) == (key in s.services) then [] else [key in t.services]
  {
    hide Deliveries, Heard;
    assert Heard(s.delivered, handler, key) + [] == Heard(s.delivered, handler, key);
    if e.OnAvailability? {
      OneMoreHandler(HandlersFor(s, e.service), e.handler, handler);
    } else {
      NoticeOf(HandlersFor(s, EventKey(e).service), e, handler, key, s.delivered);
    }
  }

  /** The notification of an offer or withdrawal, as far as the handler hears it. */
  lemma NoticeOf(handlers: seq<nat>, e: Event, handler: nat, key: ServiceKey, delivered: seq<Delivery>)
    requires !e.OnAvailability? && (EventKey(e).service == key.service ==> Times(handlers, handler) <= 1)
    ensures
      var offered := e.OfferService? || e.AddRemoteService?;
      Heard(delivered + Deliveries(handlers, EventKey(e), offered), handler, key)
      == Heard(delivered, handler, key) + if EventKey(e) == key && Times(handlers, handler) == 1 then [offered] else []
  {
    hide Deliveries, Heard;
    var offered := e.OfferService? || e.AddRemoteService?;
    HeardAppend(delivered, Deliveries(handlers, EventKey(e), offered), handler, key);
    if EventKey(e) == key {
      NoticeHeard(handlers, key, offered, handler, key);
    } else {
      OtherServiceSilent(handlers, EventKey(e), offered, handler, key);
    }
  }

  lemma OneMoreHandler(handlers: seq<nat>, other: nat, handler: nat)
    ensures Times(handlers + [other], handler) == Times(handlers, handler) + if other == handler then 1 else 0
  {
    assert (handlers + [other])[..|handlers|] == handlers;
  }

  lemma {:induction false} OtherServiceSilent(
      handlers: seq<nat>, k: ServiceKey, available: bool, handler: nat, key: ServiceKey)
    requires k != key
    ensures Heard(Deliveries(handlers, k, available), handler, key) == []
    decreases |handlers|
  {
    if |handlers| > 0 {
      OtherServiceSilent(handlers[..|handlers| - 1], k, available, handler, key);
      var front := Deliveries(handlers[..|handlers| - 1], k, available);
      assert Deliveries(handlers, k, available)[..|front|] == front;
    }
  }

  ghost predicate NeverRegisters(events: seq<Event>, handler: nat) {
    forall i :: 0 <= i < |events| ==> !(events[i].OnAvailability? && events[i].handler == handler)
  }

  lemma AlternatesOn(start: bool, words: seq<bool>, now: bool)
    requires Alternates(start, words) && now != Latest(start, words)
    ensures Alternates(start, words + [now])
  {
    var more := words + [now];
    forall i: nat | i < |more|
      ensures more[i] == !Latest(start, more[..i])
    {
      assert more[..i] == words[..i];
    }
  }

  /** What a handler hears during a run that starts in a state where it listens. */
  lemma {:induction false} RunHeard(s: State, events: seq<Event>, handler: nat, key: ServiceKey)
    returns (words: seq<bool>)
    requires ListensOnce(s, handler, key.service) && NeverRegisters(events, handler)
    ensures ListensOnce(Run(s, events), handler, key.service)
    ensures Heard(Run(s, events).delivered, handler, key) == Heard(s.delivered, handler, key) + words
    ensures Alternates(key in s.services, words)
    ensures Latest(key in s.services, words) == (key in Run(s, events).services)
    decreases |events|
  {
    hide Heard, Step, ListensOnce;
    if |events| == 0 {
      words := [];
      assert Heard(s.delivered, handler, key) + [] == Heard(s.delivered, handler, key);
    } else {
      var n := |events| - 1;
      var front := RunHeard(s, events[..n], handler, key);
      var t, u := Run(s, events[..n]), Run(s, events);
      StepHeard(t, events[n], handler, key);
      if (key in u.services) == (key in t.services) {
        words := front;
        assert Heard(t.delivered, handler, key) + [] == Heard(t.delivered, handler, key);
      } else {
        words := front + [key in u.services];
        Regroup(Heard(s.delivered, handler, key), front, [key in u.services]);
        AlternatesOn(key in s.services, front, key in u.services);
      }
    }
  }

  lemma {:induction false} SilentBefore(events: seq<Event>, handler: nat, key: ServiceKey)
    requires NeverRegisters(events, handler)
    ensures Heard(Run(INITIAL, events).delivered, handler, key) == []
    ensures Times(HandlersFor(Run(INITIAL, events), key.service), handler) == 0
    decreases |events|
  {
    hide Deliveries, Heard;
    if |events| == 0 {
      NothingHeard(handler, key);
    } else {
      var n := |events| - 1;
      var s, e := Run(INITIAL, events[..n]), events[n];
      SilentBefore(events[..n], handler, key);
      if e.OnAvailability? {
        OneMoreHandler(HandlersFor(s, e.service), e.handler, handler);
      } else {
        NoticeOf(HandlersFor(s, EventKey(e).service), e, handler, key, s.delivered);
      }
    }
  }

  lemma NothingHeard(handler: nat, key: ServiceKey)
    ensures Heard([], handler, key) == []
  {
  }

  /**
   For every interleaving of local and remote offers and withdrawals and of other registrations: what a
   handler hears about a service instance alternates, starting with the opposite of what was the case
   when it registered (so with `true` if the service was not there), and ends with what is the case now.
   */
  lemma AvailabilityAlternates(before: seq<Event>, after: seq<Event>, handler: nat, key: ServiceKey)
    requires NeverRegisters(before, handler) && NeverRegisters(after, handler)
    ensures
      var s := Run(INITIAL, before + [OnAvailability(key.service, handler)]);
      var t := Run(s, after);
      var words := Heard(t.delivered, handler, key);
      Alternates(key in s.services, words) && Latest(key in s.services, words) == (key in t.services)
  {
    hide Heard;
    var all := before + [OnAvailability(key.service, handler)];
    assert all[..|all| - 1] == before;
    SilentBefore(before, handler, key);
    OneMoreHandler(HandlersFor(Run(INITIAL, before), key.service), handler, handler);
    var words := RunHeard(Run(INITIAL, all), after, handler, key);
    assert [] + words == words;
  }

  // ---- What the registry knows -----------------------------------------------------------------------------

  /** The information of the latest offer of a service that no withdrawal has followed. */
  function LatestOffer(events: seq<Event>, key: ServiceKey): Option<ServiceInfo> {
    if |events| == 0 then None
    else
      var e := events[|events| - 1];
      if e.OnAvailability? || EventKey(e) != key then LatestOffer(events[..|events| - 1], key)
      else if e.OfferService? then Some(ServiceInfo(key, e.major, e.minor, 0xFF_FFFF, true))
      else if e.AddRemoteService? then Some(e.info)
      else None
  }

  /** After every run the registry holds exactly the latest offers, local or remote, with their information. */
  lemma {:induction false} RegistryIsLatest(events: seq<Event>, key: ServiceKey)
    ensures
      var services := Run(INITIAL, events).services;
      LatestOffer(events, key) == if key in services then Some(services[key]) else None
    decreases |events|
  {
    hide Deliveries;
    if |events| > 0 {
      RegistryIsLatest(events[..|events| - 1], key);
    }
  }
}
