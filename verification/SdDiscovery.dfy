/** The Service Discovery state machine: offers and finds, driven by ticks. */
module SdDiscovery {
  import opened Bytes
  import opened SdEntry
  import O = SdOption
  import M = SdMessage

  // ---- Timers ---------------------------------------------------------------------------------------

  datatype Phase = Down | InitialWait | Repetition | Main

  /** Durations and time points are integers on the steady clock. */
  datatype Config = Config(
    initialDelayMin: int, repetitionBaseDelay: int, repetitionMax: u32, cyclicOfferDelay: int,
    offerTtl: u32, findTtl: u32)
  {
    /** Beyond this the code would shift a 32-bit one by more than 31. */
    predicate Valid() {
      repetitionMax <= 33
    }
  }

  datatype Timer = Timer(phase: Phase, nextSend: int, count: nat)

  function Started(cfg: Config, now: int): Timer {
    Timer(InitialWait, now + cfg.initialDelayMin, 0)
  }

  predicate Due(t: Timer, now: int) {
    t.phase != Down && now >= t.nextSend
  }

  function AdvanceOffer(cfg: Config, t: Timer, now: int): Timer {
    match t.phase
    case InitialWait => Timer(Repetition, now + cfg.repetitionBaseDelay, 1)
    case Repetition =>
      if t.count + 1 >= cfg.repetitionMax then Timer(Main, now + cfg.cyclicOfferDelay, t.count + 1)
      else Timer(Repetition, now + cfg.repetitionBaseDelay * Pow2(t.count), t.count + 1)
    case Main => t.(nextSend := now + cfg.cyclicOfferDelay)
    case Down => t
  }

  function AdvanceFind(cfg: Config, t: Timer, now: int): Timer {
    match t.phase
    case InitialWait => Timer(Repetition, now + cfg.repetitionBaseDelay, 1)
    case Repetition =>
      if t.count + 1 >= cfg.repetitionMax then t.(phase := Down, count := t.count + 1)
      else Timer(Repetition, now + cfg.repetitionBaseDelay * Pow2(t.count), t.count + 1)
    case _ => t
  }

  // ---- State ------------------------------------------------------------------------------------------

  datatype Key = Key(service: u16, instance: u16)

  datatype Offer = Offer(key: Key, major: byte, minor: u32, options: seq<O.SdOption>, timer: Timer)

  datatype Find = Find(key: Key, major: byte, minor: u32, timer: Timer)

  datatype State = State(offers: seq<Offer>, stops: seq<Offer>, finds: seq<Find>, reboot: bool)

  const INITIAL := State([], [], [], true)

  /** The position of the first offer for the key, or the number of offers. */
  function FirstOffer(offers: seq<Offer>, key: Key): (i: nat)
    ensures i <= |offers| && (i < |offers| ==> offers[i].key == key)
    ensures forall j :: 0 <= j < i ==> offers[j].key != key
  {
    if |offers| == 0 || offers[0].key == key then 0 else 1 + FirstOffer(offers[1..], key)
  }

  function OfferStopped(s: State, key: Key): State {
    var i := FirstOffer(s.offers, key);
    if i < |s.offers| then s.(offers := s.offers[..i] + s.offers[i + 1..], stops := s.stops + [s.offers[i]]) else s
  }

  function Without(finds: seq<Find>, key: Key): seq<Find> {
    if |finds| == 0 then []
    else
      var n := |finds| - 1;
      if finds[n].key == key then Without(finds[..n], key) else Without(finds[..n], key) + [finds[n]]
  }

  // ---- One tick -----------------------------------------------------------------------------------------

  function StopEntry(o: Offer): Entry {
    MakeOffer(o.key.service, o.key.instance, o.major, o.minor, 0)
  }

  function StopEntries(stops: seq<Offer>): (es: seq<Entry>)
    ensures |es| == |stops|
  {
    seq(|stops|, i requires 0 <= i < |stops| => StopEntry(stops[i]))
  }

  /** An offer whose options start at `first`; both numbers are cut to 8 bits. */
  function OfferEntry(cfg: Config, o: Offer, first: nat): Entry {
    var e := MakeOffer(o.key.service, o.key.instance, o.major, o.minor, cfg.offerTtl);
    if o.options == [] then e else e.(index1 := first % 0x100, count1 := |o.options| % 0x100)
  }

  /** The options of the offers that are due, one after the other. */
  function OfferOptions(offers: seq<Offer>, now: int): seq<O.SdOption> {
    if |offers| == 0 then []
    else
      var n := |offers| - 1;
      if Due(offers[n].timer, now) then OfferOptions(offers[..n], now) + offers[n].options
      else OfferOptions(offers[..n], now)
  }

  function OfferEntries(cfg: Config, offers: seq<Offer>, now: int): seq<Entry> {
    if |offers| == 0 then []
    else
      var n := |offers| - 1;
      if Due(offers[n].timer, now)
      then OfferEntries(cfg, offers[..n], now) + [OfferEntry(cfg, offers[n], |OfferOptions(offers[..n], now)|)]
      else OfferEntries(cfg, offers[..n], now)
  }

  function FindEntry(cfg: Config, f: Find): Entry {
    MakeFind(f.key.service, f.key.instance, f.major, f.minor, cfg.findTtl)
  }

  function FindEntries(cfg: Config, finds: seq<Find>, now: int): seq<Entry> {
    if |finds| == 0 then []
    else
      var n := |finds| - 1;
      if Due(finds[n].timer, now) then FindEntries(cfg, finds[..n], now) + [FindEntry(cfg, finds[n])]
      else FindEntries(cfg, finds[..n], now)
  }

  function TickedOffer(cfg: Config, o: Offer, now: int): Offer {
    if Due(o.timer, now) then o.(timer := AdvanceOffer(cfg, o.timer, now)) else o
  }

  function TickedFind(cfg: Config, f: Find, now: int): Find {
    if Due(f.timer, now) then f.(timer := AdvanceFind(cfg, f.timer, now)) else f
  }

  function TickedOffers(cfg: Config, offers: seq<Offer>, now: int): seq<Offer> {
    seq(|offers|, i requires 0 <= i < |offers| => TickedOffer(cfg, offers[i], now))
  }

  function TickedFinds(cfg: Config, finds: seq<Find>, now: int): seq<Find> {
    seq(|finds|, i requires 0 <= i < |finds| => TickedFind(cfg, finds[i], now))
  }

  function Ticked(cfg: Config, s: State, now: int): State {
    State(TickedOffers(cfg, s.offers, now), [], TickedFinds(cfg, s.finds, now), s.reboot)
  }

  function OfferMessage(cfg: Config, s: State, now: int): M.Message {
    M.Message(M.Flags(s.reboot, true), StopEntries(s.stops) + OfferEntries(cfg, s.offers, now),
              OfferOptions(s.offers, now))
  }

  function FindMessage(cfg: Config, s: State, now: int): M.Message {
    M.Message(M.Flags(s.reboot, true), FindEntries(cfg, s.finds, now), [])
  }

  function IfAny(m: M.Message): seq<M.Message> {
    if m.entries == [] then [] else [m]
  }

  function TickMessages(cfg: Config, s: State, now: int): seq<M.Message> {
    IfAny(OfferMessage(cfg, s, now)) + IfAny(FindMessage(cfg, s, now))
  }

  // ---- The class ------------------------------------------------------------------------------------------

  class Discovery {
    const config: Config
    var rebootFlag: bool
    var offers: seq<Offer>
    var pendingStopOffers: seq<Offer>
    var finds: seq<Find>

    ghost function Contents(): State
      reads this
    {
      State(offers, pendingStopOffers, finds, rebootFlag)
    }

    constructor (config: Config)
      ensures this.config == config && Contents() == INITIAL
    {
      this.config := config;
      offers, pendingStopOffers, finds, rebootFlag := [], [], [], true;
    }

    method StartOffer(key: Key, major: byte, minor: u32, options: seq<O.SdOption>, now: int)
      modifies this
      ensures Contents() == Step(config, old(Contents()), Event.StartOffer(key, major, minor, options, now)).0
    {
      offers := offers + [Offer(key, major, minor, options, Started(config, now))];
    }

    method StopOffer(key: Key)
      modifies this
      ensures Contents() == Step(config, old(Contents()), Event.StopOffer(key)).0
    {
      ghost var first := FirstOffer(offers, key);
      for i := 0 to |offers|
        invariant i <= first && Contents() == old(Contents())
      {
        if offers[i].key == key {
          pendingStopOffers := pendingStopOffers + [offers[i]];
          offers := offers[..i] + offers[i + 1..];
          return;
        }
      }
    }

    method StartFind(key: Key, major: byte, minor: u32, now: int)
      modifies this
      ensures Contents() == Step(config, old(Contents()), Event.StartFind(key, major, minor, now)).0
    {
      finds := finds + [Find(key, major, minor, Started(config, now))];
    }

    method StopFind(key: Key)
      modifies this
      ensures Contents() == Step(config, old(Contents()), Event.StopFind(key)).0
    {
      var kept: seq<Find> := [];
      for i := 0 to |finds|
        invariant kept == Without(finds[..i], key)
        invariant Contents() == old(Contents())
      {
        assert finds[..i + 1][..i] == finds[..i];
        if finds[i].key != key {
          kept := kept + [finds[i]];
        }
      }
      assert finds[..|finds|] == finds;
      finds := kept;
    }

    method SetRebootFlag(v: bool)
      modifies this
      ensures Contents() == Step(config, old(Contents()), Event.SetReboot(v)).0
    {
      rebootFlag := v;
    }

    method Tick(now: int) returns (messages: seq<M.Message>)
      requires config.Valid()
      modifies this
      ensures messages == TickMessages(config, old(Contents()), now)
      ensures Contents() == Ticked(config, old(Contents()), now)
    {
      hide TickedOffers, TickedFinds, StopEntries, OfferEntries, OfferOptions, FindEntries;
      messages := [];
      var entries, options := TickStops();
      var offerEntries, offerOptions := TickOffers(now);
      entries := entries + offerEntries;
      options := options + offerOptions;
      assert options == offerOptions;
      if entries != [] {
        messages := messages + [M.Message(M.Flags(rebootFlag, true), entries, options)];
      }
      var findEntries := TickFinds(now);
      if findEntries != [] {
        messages := messages + [M.Message(M.Flags(rebootFlag, true), findEntries, [])];
      }
    }

    method TickStops() returns (entries: seq<Entry>, options: seq<O.SdOption>)
      modifies `pendingStopOffers
      ensures entries == StopEntries(old(pendingStopOffers)) && options == [] && pendingStopOffers == []
    {
      entries, options := [], [];
      for i := 0 to |pendingStopOffers|
        invariant entries == StopEntries(pendingStopOffers[..i]) && unchanged(this)
      {
        entries := entries + [StopEntry(pendingStopOffers[i])];
      }
      assert pendingStopOffers[..|pendingStopOffers|] == pendingStopOffers;
      pendingStopOffers := [];
    }

    method TickOffers(now: int) returns (entries: seq<Entry>, options: seq<O.SdOption>)
      requires config.Valid()
      modifies `offers
      ensures entries == OfferEntries(config, old(offers), now) && options == OfferOptions(old(offers), now)
      ensures offers == TickedOffers(config, old(offers), now)
    {
      hide Due, OfferEntry, AdvanceOffer;
      entries, options := [], [];
      ghost var was := offers;
      for i := 0 to |offers|
        invariant |offers| == |was| && (forall j :: i <= j < |was| ==> offers[j] == was[j])
        invariant forall j :: 0 <= j < i ==> offers[j] == TickedOffer(config, was[j], now)
        invariant entries == OfferEntries(config, was[..i], now) && options == OfferOptions(was[..i], now)
      {
        assert was[..i + 1][..i] == was[..i];
        if !Due(offers[i].timer, now) { continue; }
        entries := entries + [OfferEntry(config, offers[i], |options|)];
        options := options + offers[i].options;
        offers := offers[i := offers[i].(timer := AdvanceOffer(config, offers[i].timer, now))];
      }
      assert was[..|was|] == was;
    }

    method TickFinds(now: int) returns (entries: seq<Entry>)
      requires config.Valid()
      modifies `finds
      ensures entries == FindEntries(config, old(finds), now)
      ensures finds == TickedFinds(config, old(finds), now)
    {
      hide Due, FindEntry, AdvanceFind;
      entries := [];
      ghost var was := finds;
      for i := 0 to |finds|
        invariant |finds| == |was| && (forall j :: i <= j < |was| ==> finds[j] == was[j])
        invariant forall j :: 0 <= j < i ==> finds[j] == TickedFind(config, was[j], now)
        invariant entries == FindEntries(config, was[..i], now)
      {
        assert was[..i + 1][..i] == was[..i];
        if !Due(finds[i].timer, now) { continue; }
        entries := entries + [FindEntry(config, finds[i])];
        finds := finds[i := finds[i].(timer := AdvanceFind(config, finds[i].timer, now))];
      }
      assert was[..|was|] == was;
    }
  }

  // ---- Runs -------------------------------------------------------------------------------------------------

  datatype Event =
    | StartOffer(key: Key, major: byte, minor: u32, options: seq<O.SdOption>, now: int)
    | StopOffer(key: Key)
    | StartFind(key: Key, major: byte, minor: u32, now: int)
    | StopFind(key: Key)
    | SetReboot(flag: bool)
    | Tick(now: int)

  /** The state after one call, and the messages it returned. */
  function Step(cfg: Config, s: State, e: Event): (State, seq<M.Message>) {
    match e
    case StartOffer(key, major, minor, options, now) =>
      (s.(offers := s.offers + [Offer(key, major, minor, options, Started(cfg, now))]), [])
    case StopOffer(key) => (OfferStopped(s, key), [])
    case StartFind(key, major, minor, now) =>
      (s.(finds := s.finds + [Find(key, major, minor, Started(cfg, now))]), [])
    case StopFind(key) => (s.(finds := Without(s.finds, key)), [])
    case SetReboot(flag) => (s.(reboot := flag), [])
    case Tick(now) => (Ticked(cfg, s, now), TickMessages(cfg, s, now))
  }

  /** The state after a run from the initial state, and all its messages. */
  function Run(cfg: Config, events: seq<Event>): (State, seq<M.Message>) {
    if |events| == 0 then (INITIAL, [])
    else
      var n := |events| - 1;
      var (s, sent) := Run(cfg, events[..n]);
      var (t, more) := Step(cfg, s, events[n]);
      (t, sent + more)
  }
}
